/** `FormatterCmd` of the older variant: for each file, the lines of the file
    are compared with the lines the formatter prints for it; a file that
    differs adds a report to stderr and latches the return code at 1. */
module PycliFormatter {
  import opened Base
  import opened Text
  import opened Diagnostics
  import opened Paths
  import opened Pycli

  type Lines = seq<seq<byte>>

  /** A formatter hook: the shim, the install path and args `parse_args`
      left, whether the tool rewrites files in place, and the hunk body of
      `difflib.unified_diff` for two different line lists. */
  datatype Formatter = Formatter(
    shim: Shim,
    installPath: string,
    args: seq<string>,
    editInPlace: bool,
    hunks: (Lines, Lines) -> Lines)

  /** The two header lines of a unified diff with `fromfile=b"original"` and
      `tofile=b"formatted"`, each ending in a line feed: the ASCII bytes of
      `--- original` and `+++ formatted`. */
  const FromHeader: seq<byte> := [0x2D, 0x2D, 0x2D, 0x20, 0x6F, 0x72, 0x69, 0x67, 0x69, 0x6E, 0x61, 0x6C, 0x0A]
  const ToHeader: seq<byte> := [0x2B, 0x2B, 0x2B, 0x20, 0x66, 0x6F, 0x72, 0x6D, 0x61, 0x74, 0x74, 0x65, 0x64, 0x0A]

  /** The banner under a file name: twenty `=`. */
  const Banner: seq<byte> := [0x3D, 0x3D, 0x3D, 0x3D, 0x3D, 0x3D, 0x3D, 0x3D, 0x3D, 0x3D,
    0x3D, 0x3D, 0x3D, 0x3D, 0x3D, 0x3D, 0x3D, 0x3D, 0x3D, 0x3D]

  // ---------------------------------------------------------------------
  // Reading lines
  // ---------------------------------------------------------------------

  /** The advice printed with a missing file. */
  const CheckYourPath := "Check your path to the file."

  /** `get_file_lines`: the file's bytes split on line feeds; a missing file
      exits 1. `read` is the file system at the moment of reading. */
  function FileLines(command: string, read: string -> Option<seq<byte>>, filename: string): (r: Outcome<Lines>)
    ensures read(filename).None? ==> r == RaiseError(command, "File " + filename + " not found", CheckYourPath)
    ensures read(filename).Some? ==> r.Continue?
    ensures r.Continue? ==> Join(r.value, LF) == read(filename).value
    ensures r.Continue? ==> |r.value| == multiset(read(filename).value)[LF] + 1
  {
    match read(filename)
    case None => RaiseError(command, "File " + filename + " not found", CheckYourPath)
    case Some(text) =>
      JoinSplit(text, LF);
      SplitCount(text, LF);
      Continue(Split(text, LF))
  }

  /** Python's `repr` of a list of strings, without escaping. */
  function ReprList(xs: seq<string>): string
  {
    "[" + ReprItems(xs) + "]"
  }

  function ReprItems(xs: seq<string>): string
    decreases |xs|
  {
    if |xs| == 0 then ""
    else if |xs| == 1 then "'" + xs[0] + "'"
    else "'" + xs[0] + "', " + ReprItems(xs[1..])
  }

  /** The command line the formatter runs for one file. */
  function FormatterArgv(f: Formatter, filename: string): (r: seq<string>)
    ensures |r| == |f.args| + 2 && r[|r| - 1] == filename
    ensures r[0] == Exe(f.installPath, f.shim.command) && r[1..|r| - 1] == f.args
  {
    [Exe(f.installPath, f.shim.command)] + f.args + [filename]
  }

  /** `get_formatted_lines`: the formatter's stdout split on line feeds, with
      empty stdout giving no lines at all. Any stderr or a non-zero return
      code exits 1, quoting the args and the child's decoded output. */
  function FormattedLines(f: Formatter, host: Host, filename: string): (r: Outcome<Lines>)
    ensures var child := host.run(FormatterArgv(f, filename));
      r.Continue? <==> |child.stderr| == 0 && child.code == 0
    ensures var child := host.run(FormatterArgv(f, filename));
      r.Continue? && child.stdout == [] ==> r.value == []
    ensures var child := host.run(FormatterArgv(f, filename));
      r.Continue? && child.stdout != [] ==> Join(r.value, LF) == child.stdout
    ensures var child := host.run(FormatterArgv(f, filename));
      r.Continue? && child.stdout != [] ==> |r.value| == multiset(child.stdout)[LF] + 1
    ensures r.Exit? ==> r.code == 1
    ensures r.Abort? ==> r.exception == DecodeError
  {
    var argv := FormatterArgv(f, filename);
    var child := host.run(argv);
    if |child.stderr| > 0 || child.code != 0 then
      match (host.decode(child.stdout), host.decode(child.stderr))
      case (Some(out), Some(err)) =>
        RaiseError(f.shim.command,
          "Unexpected Stderr/return code received when analyzing " + filename + ".\nArgs: " + ReprList(argv),
          out + err)
      case _ => Abort(DecodeError)
    else if child.stdout == [] then Continue([])
    else
      JoinSplit(child.stdout, LF);
      SplitCount(child.stdout, LF);
      Continue(Split(child.stdout, LF))
  }

  // ---------------------------------------------------------------------
  // Diff and report
  // ---------------------------------------------------------------------

  /** `difflib.unified_diff` as a list of lines: nothing for equal inputs,
      otherwise the two labelled header lines and then the hunks. */
  function UnifiedDiff(a: Lines, b: Lines, hunks: (Lines, Lines) -> Lines): (r: Lines)
    ensures |r| == 0 <==> a == b
    ensures a != b ==> |r| >= 2 && r[..2] == [FromHeader, ToHeader]
  {
    if a == b then [] else [FromHeader, ToHeader] + hunks(a, b)
  }

  /** The per-file report: the file name, a line feed, the banner, a line
      feed, the diff lines joined by line feeds, and a final line feed. */
  function Report(filename: string, diff: Lines): seq<byte>
  {
    Encode(filename) + [LF] + Banner + [LF] + Join(diff, LF) + [LF]
  }

  /** A report of a real diff opens with the name, the banner and the
      `--- original` header, and ends with a line feed. */
  lemma ReportShape(filename: string, a: Lines, b: Lines, hunks: (Lines, Lines) -> Lines)
    requires a != b
    ensures var rep := Report(filename, UnifiedDiff(a, b, hunks));
      Encode(filename) + [LF] + Banner + [LF] + FromHeader + [LF] + ToHeader <= rep &&
      rep[|rep| - 1] == LF
  {
    var diff := UnifiedDiff(a, b, hunks);
    var rest := [ToHeader] + hunks(a, b);
    assert diff == [FromHeader] + rest;
    assert Join(diff, LF) == FromHeader + [LF] + Join(rest, LF);
    if |rest| == 1 {
      assert Join(rest, LF) == ToHeader;
    } else {
      assert Join(rest, LF) == ToHeader + [LF] + Join(rest[1..], LF);
    }
    assert ToHeader <= Join(rest, LF);
  }

  // ---------------------------------------------------------------------
  // compare_to_formatted
  // ---------------------------------------------------------------------

  /** The lines a file is compared against: the formatter's output, or with
      `edit_in_place` the file read back after the formatter ran. */
  function ExpectedLines(f: Formatter, host: Host, filename: string): Outcome<Lines>
  {
    var formatted :- FormattedLines(f, host, filename);
    if f.editInPlace then FileLines(f.shim.command, host.edited, filename) else Continue(formatted)
  }

  /** Both line lists are available and they differ. */
  predicate Differs(f: Formatter, host: Host, filename: string)
  {
    var actual := FileLines(f.shim.command, host.contents, filename);
    var expected := ExpectedLines(f, host, filename);
    actual.Continue? && expected.Continue? && actual.value != expected.value
  }

  /** `compare_to_formatted(filename)`: read the file, ask the formatter,
      diff the two, and on a difference append the report to stderr and set
      the return code to 1. */
  function CompareToFormatted(f: Formatter, host: Host, filename: string, buf: Buffers): (r: Outcome<Buffers>)
    ensures r.Continue? <==>
      FileLines(f.shim.command, host.contents, filename).Continue? && ExpectedLines(f, host, filename).Continue?
    ensures r.Continue? && Differs(f, host, filename) ==>
      r.value == buf.(stderr := buf.stderr + Report(filename, UnifiedDiff(
        FileLines(f.shim.command, host.contents, filename).value,
        ExpectedLines(f, host, filename).value, f.hunks)), code := 1)
    ensures r.Continue? && !Differs(f, host, filename) ==> r.value == buf
  {
    var actual :- FileLines(f.shim.command, host.contents, filename);
    var expected :- ExpectedLines(f, host, filename);
    var diff := UnifiedDiff(actual, expected, f.hunks);
    if |diff| > 0 then
      Continue(buf.(stderr := buf.stderr + Report(filename, diff), code := 1))
    else
      Continue(buf)
  }

  /** The hook's loop over the files, stopping at the first exit. */
  function CheckAll(f: Formatter, host: Host, files: seq<string>, buf: Buffers): Outcome<Buffers>
    decreases |files|
  {
    if |files| == 0 then Continue(buf)
    else
      var b :- CompareToFormatted(f, host, files[0], buf);
      CheckAll(f, host, files[1..], b)
  }

  /** Some file of the list differs from its expected lines. */
  ghost predicate SomeDiffers(f: Formatter, host: Host, files: seq<string>)
  {
    exists i :: 0 <= i < |files| && Differs(f, host, files[i])
  }

  /** A non-empty list has a differing file iff its head or its tail does. */
  lemma SomeDiffersCons(f: Formatter, host: Host, files: seq<string>)
    requires |files| > 0
    ensures SomeDiffers(f, host, files) <==> Differs(f, host, files[0]) || SomeDiffers(f, host, files[1..])
  {
    if SomeDiffers(f, host, files) && !Differs(f, host, files[0]) {
      var i :| 0 <= i < |files| && Differs(f, host, files[i]);
      assert files[1..][i - 1] == files[i];
    }
    if SomeDiffers(f, host, files[1..]) {
      var i :| 0 <= i < |files[1..]| && Differs(f, host, files[1..][i]);
      assert files[1..][i] == files[i + 1];
    }
  }

  /** One file on its own: stdout is untouched, stderr only grows, and the
      code becomes 1 iff the file differs. */
  lemma CompareLatch(f: Formatter, host: Host, filename: string, buf: Buffers)
    ensures var b := CompareToFormatted(f, host, filename, buf);
      b.Continue? ==>
        b.value.stdout == buf.stdout && buf.stderr <= b.value.stderr &&
        b.value.code == (if Differs(f, host, filename) then 1 else buf.code)
  {
  }

  /** Over a whole run the return code is a latch: it ends at 1 exactly when
      some file differed and otherwise keeps its starting value; stdout is
      untouched and stderr only grows. */
  lemma {:induction false} CheckAllLatch(f: Formatter, host: Host, files: seq<string>, buf: Buffers)
    ensures var r := CheckAll(f, host, files, buf);
      r.Continue? ==>
        r.value.stdout == buf.stdout && buf.stderr <= r.value.stderr &&
        r.value.code == (if exists i :: 0 <= i < |files| && Differs(f, host, files[i]) then 1 else buf.code)
    decreases |files|
  {
    if |files| > 0 {
      var b := CompareToFormatted(f, host, files[0], buf);
      if b.Continue? {
        var r := CheckAll(f, host, files[1..], b.value);
        assert CheckAll(f, host, files, buf) == r;
        CompareLatch(f, host, files[0], buf);
        CheckAllLatch(f, host, files[1..], b.value);
        SomeDiffersCons(f, host, files);
        if r.Continue? {
          assert buf.stderr <= r.value.stderr by {
            assert buf.stderr <= b.value.stderr <= r.value.stderr;
          }
        }
      }
    }
  }

  /** An empty file checked against a formatter that prints nothing and
      succeeds is reported as a difference. */
  lemma EmptyFileIsReported(f: Formatter, host: Host, filename: string, buf: Buffers)
    requires !f.editInPlace
    requires host.contents(filename) == Some([])
    requires host.run(FormatterArgv(f, filename)) == ExecResult([], [], 0)
    ensures CompareToFormatted(f, host, filename, buf).Continue?
    ensures CompareToFormatted(f, host, filename, buf).value.code == 1
  {
    assert FileLines(f.shim.command, host.contents, filename).value == [[]];
    assert ExpectedLines(f, host, filename) == Continue([]);
    assert Differs(f, host, filename);
  }

  /** A non-empty file the formatter reproduces byte for byte passes
      without a report. */
  lemma FormattedFilePasses(f: Formatter, host: Host, filename: string, text: seq<byte>, buf: Buffers)
    requires !f.editInPlace && text != []
    requires host.contents(filename) == Some(text)
    requires host.run(FormatterArgv(f, filename)) == ExecResult(text, [], 0)
    ensures CompareToFormatted(f, host, filename, buf) == Continue(buf)
  {
    assert ExpectedLines(f, host, filename) == Continue(Split(text, LF));
    assert !Differs(f, host, filename);
  }

  /** With `edit_in_place`, a file the formatter leaves alone passes
      whatever the formatter printed. */
  lemma UnchangedFilePassesInPlace(f: Formatter, host: Host, filename: string, text: seq<byte>, buf: Buffers)
    requires f.editInPlace
    requires host.contents(filename) == Some(text) && host.edited(filename) == Some(text)
    requires FormattedLines(f, host, filename).Continue?
    ensures CompareToFormatted(f, host, filename, buf) == Continue(buf)
  {
    assert !Differs(f, host, filename);
  }
}
