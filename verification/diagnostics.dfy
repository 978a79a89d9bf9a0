/** `raise_error`: the one diagnostic format of both shim variants,
    `Problem with <command>: <problem>\n<details>\n`, written to stderr before
    the process exits with code 1. */
module Diagnostics {
  import opened Base
  import opened Text

  /** The diagnostic as text. */
  function DiagnosticText(command: string, problem: string, details: string): string
  {
    "Problem with " + command + ": " + problem + "\n" + details + "\n"
  }

  /** `raise_error(problem, details)`: the process exits with code 1 after
      writing the UTF-8 bytes of the diagnostic to stderr. */
  function RaiseError<T>(command: string, problem: string, details: string): (r: Outcome<T>)
    ensures r.Exit? && r.code == 1
    ensures r.stderr == Encode(DiagnosticText(command, problem, details))
  {
    Exit(1, Encode(DiagnosticText(command, problem, details)))
  }

  /** The bytes on stderr are the encoded problem line, then the encoded
      details, then a line feed: the details reach stderr unchanged. */
  lemma RaiseErrorLayout(command: string, problem: string, details: string)
    ensures RaiseError<()>(command, problem, details).stderr ==
      Encode("Problem with " + command + ": " + problem + "\n") + Encode(details) + [LF]
  {
    var head := "Problem with " + command + ": " + problem + "\n";
    EncodeAppend(head, details);
    EncodeAppend(head + details, "\n");
    assert head + details + "\n" == DiagnosticText(command, problem, details);
  }

  /** Reads a diagnostic back into its problem and details: the inverse of
      `DiagnosticText` for a given command. */
  function ParseDiagnostic(command: string, text: string): Option<(string, string)>
  {
    var head := "Problem with " + command + ": ";
    if !(head <= text) then None
    else
      var rest := text[|head|..];
      if '\n' !in rest then None
      else
        var i := IndexOf(rest, '\n');
        var tail := rest[i + 1..];
        if |tail| == 0 || tail[|tail| - 1] != '\n' then None
        else Some((rest[..i], tail[..|tail| - 1]))
  }

  /** A diagnostic whose problem is a single line reads back to its parts, so
      the format loses nothing. */
  lemma DiagnosticRoundTrip(command: string, problem: string, details: string)
    requires '\n' !in problem
    ensures ParseDiagnostic(command, DiagnosticText(command, problem, details)) == Some((problem, details))
  {
    var head := "Problem with " + command + ": ";
    var text := DiagnosticText(command, problem, details);
    var rest := problem + ['\n'] + (details + "\n");
    assert text == head + rest;
    assert head <= text;
    assert text[|head|..] == rest;
    assert rest[|problem|] == '\n';
    IndexOfAfter(problem, '\n', details + "\n");
    assert rest[..|problem|] == problem;
    var tail := rest[|problem| + 1..];
    assert tail == details + "\n";
    assert tail[..|tail| - 1] == details;
  }
}
