/** The older shim variant, `pre_commit_pycli/cli.py`: how `Command` reads
    its argv (`parse_args`), merges default options (`add_if_missing`) and
    checks that the tool is installed (`check_installed`).

    `parse_args` walks every token of the argv, including the hook's own
    name at index 0, and for each token applies three independent rules in
    order: drop an added file from the forwarded args, run the version check
    (which always ends the process), and take an install path. */
module Pycli {
  import opened Base
  import opened Text
  import opened Diagnostics
  import opened Version
  import opened Paths

  /** What the constructor receives or computes before parsing: the tool's
      name, the literal text in front of its version number, the files
      being committed, and the documentation URL. */
  datatype Shim = Shim(command: string, lookBehind: string, files: seq<string>, helpUrl: string)

  /** What `parse_args` leaves behind: the args forwarded to the tool and the
      resolved install path, `""` while none was given. */
  datatype Parsed = Parsed(args: seq<string>, installPath: string)

  // ---------------------------------------------------------------------
  // The executable path
  // ---------------------------------------------------------------------

  /** The executable as the source spells it in `get_version_str`,
      `run_command` and `get_formatted_lines`: the install path and the
      command glued together with no separator. */
  function ExeAsWritten(installPath: string, command: string): string
  {
    installPath + command
  }

  /** The executable `check_installed` looks for: the command on the PATH
      when no install path is set, else the command inside the install path.
      This corrected form is the one the rest of the model launches. */
  function Exe(installPath: string, command: string): string
  {
    if installPath == "" then command else JoinPath(installPath, command)
  }

  /** A resolved install path other than `/` never ends with a slash, so
      gluing the command onto it names a file one character shorter than
      the one checked. */
  lemma {:induction false} ExeAsWrittenMissesSeparator(installPath: string, command: string)
    requires IsAbsolute(installPath) && installPath != "/" && NormPath(installPath) == installPath
    requires '/' !in command && command != "" && command != "."
    ensures JoinPath(installPath, command) == installPath + "/" + command
    ensures |ExeAsWritten(installPath, command)| + 1 == |JoinPath(installPath, command)|
    ensures ExeAsWritten(installPath, command) != JoinPath(installPath, command)
  {
    var comps := Components(Split(installPath, '/'));
    assert installPath == "/" + Join(comps, '/');
    assert |comps| > 0;
    var cs := comps + [command];
    JoinSnoc(comps, command, '/');
    var p := installPath + "/" + command;
    assert p == "/" + Join(cs, '/');
    assert p == [] + ['/'] + Join(cs, '/');
    SplitCons([], '/', Join(cs, '/'));
    assert forall i :: 0 <= i < |cs| ==> '/' !in cs[i] && cs[i] != "" && cs[i] != "." by {
      assert forall i :: 0 <= i < |comps| ==> cs[i] == comps[i];
    }
    SplitJoin(cs, '/');
    ComponentsKeep(cs);
    assert ([""] + cs)[1..] == cs;
    assert Components(Split(p, '/')) == cs;
    assert !IsAbsolute(command);
  }

  /** With the tool installed in `/opt`, the source launches
      `/optclang-format` while it checked `/opt/clang-format`. */
  lemma ExeAsWrittenExample(installPath: string, command: string)
    requires installPath == "/opt" && command == "clang-format"
    ensures ExeAsWritten(installPath, command) == "/optclang-format"
    ensures Exe(installPath, command) == "/opt/clang-format"
  {
    OneComponent(installPath[1..]);
    OneComponent(command);
    assert installPath == [] + ['/'] + installPath[1..];
    SplitCons([], '/', installPath[1..]);
    SplitFirst(installPath[1..], '/');
    ComponentsKeep([installPath[1..]]);
    assert ["", installPath[1..]][1..] == [installPath[1..]];
    assert NormPath(installPath) == installPath;
    ExeAsWrittenMissesSeparator(installPath, command);
  }

  /** `opt` and `clang-format` are single path components. */
  lemma OneComponent(name: string)
    requires name == "opt" || name == "clang-format"
    ensures '/' !in name && name != "" && name != "."
  {
    assert forall j :: 0 <= j < |name| ==> name[j] != '/';
  }

  // ---------------------------------------------------------------------
  // check_installed
  // ---------------------------------------------------------------------

  /** Where the not-found message says the shim looked. */
  function CheckPath(installPath: string): string
  {
    if installPath != "" then " at '" + installPath + "'" else " and on your PATH"
  }

  /** `check_installed`: with no install path the command must be on the
      PATH, else `install_path/command` must exist; otherwise exit 1 with the
      "not found" diagnostic, which always carries the "For more info" line. */
  function CheckInstalled(shim: Shim, host: Host, installPath: string): (r: Outcome<()>)
    ensures r.Continue? <==>
      if installPath == "" then shim.command in host.onPath
      else JoinPath(installPath, shim.command) in host.existing
    ensures !r.Continue? ==> r == RaiseError(shim.command, shim.command + " not found",
      "Make sure " + shim.command + " is installed " + CheckPath(installPath) + ".\n"
      + "For more info: " + shim.helpUrl)
  {
    var found :=
      if installPath == "" then shim.command in host.onPath
      else JoinPath(installPath, shim.command) in host.existing;
    if found then Continue(())
    else
      RaiseError(shim.command, shim.command + " not found",
        "Make sure " + shim.command + " is installed " + CheckPath(installPath) + ".\n"
        + "For more info: " + shim.helpUrl)
  }

  /** Once `check_installed` passes, the executable the model launches is the
      one it vouched for: on the PATH, or an existing file in the install path. */
  lemma CheckedExeExists(shim: Shim, host: Host, installPath: string)
    requires CheckInstalled(shim, host, installPath).Continue?
    ensures installPath == "" ==> Exe(installPath, shim.command) in host.onPath
    ensures installPath != "" ==> Exe(installPath, shim.command) in host.existing
  {
  }

  // ---------------------------------------------------------------------
  // The expected version
  // ---------------------------------------------------------------------

  /** The version a `--version...` token asks for: the next token when the
      token is a bare `--version` that is not the last one (found by
      `list.index`), else the token with every space, every `=` and every
      `--version` deleted. */
  function ExpectedVersion(argv: seq<string>, arg: string): string
    requires arg in argv
  {
    var k := IndexOf(argv, arg);
    if arg == "--version" && k != |argv| - 1 then argv[k + 1]
    else DeleteAll(DeleteAll(DeleteAll(arg, " "), "="), "--version")
  }

  /** `--version v` as two tokens asks for `v`. */
  lemma ExpectedVersionNext(a: seq<string>, v: string, b: seq<string>)
    requires "--version" !in a
    ensures "--version" in a + ["--version", v] + b
    ensures ExpectedVersion(a + ["--version", v] + b, "--version") == v
  {
    var argv := a + ["--version", v] + b;
    assert argv == a + ["--version"] + ([v] + b);
    IndexOfAfter(a, "--version", [v] + b);
  }

  /** A bare `--version` as the last token asks for the empty version, which
      every actual version satisfies. */
  lemma ExpectedVersionTrailing(a: seq<string>)
    requires "--version" !in a
    ensures "--version" in a + ["--version"]
    ensures ExpectedVersion(a + ["--version"], "--version") == ""
  {
    assert a + ["--version"] == a + ["--version"] + [];
    IndexOfAfter(a, "--version", []);
    VersionOptionPlain();
    DeleteOneAbsent("--version", ' ');
    DeleteOneAbsent("--version", '=');
    DeleteLeading("--version", "");
  }

  /** `--version` holds neither a space nor `=`. */
  lemma VersionOptionPlain()
    ensures ' ' !in "--version" && '=' !in "--version"
  {
    var v := "--version";
    assert forall j :: 0 <= j < |v| ==> v[j] != ' ' && v[j] != '=';
  }

  /** `key`, a separator and `v`, none of them `c`, are unchanged by
      deleting `c`. */
  lemma DeleteAbsentAround(key: string, sep: char, v: string, c: char)
    requires c !in key && c !in v && sep != c
    ensures DeleteAll(key + [sep] + v, [c]) == key + [sep] + v
  {
    var arg := key + [sep] + v;
    forall k | 0 <= k < |arg| ensures arg[k] != c {
      if k < |key| {
        assert arg[k] == key[k];
      } else if k > |key| {
        assert arg[k] == v[k - |key| - 1];
      }
    }
    DeleteOneAbsent(arg, c);
  }

  /** Deleting the separator of `key`, `sep`, `v`, when neither part holds it,
      leaves `key + v`. */
  lemma SeparatorDeleted(key: string, sep: char, v: string)
    requires sep !in key && sep !in v
    ensures DeleteAll(key + [sep] + v, [sep]) == key + v
  {
    var head := key + [sep];
    DeleteOneAppend(head, v, sep);
    DeleteOneAppend(key, [sep], sep);
    DeleteOneAbsent(key, sep);
    DeleteOneAbsent(v, sep);
    assert DeleteAll([sep], [sep]) == DeleteAll([], [sep]) == [];
    assert DeleteAll(head, [sep]) == key;
  }

  /** The three deletions applied to `key=v`, for a key and value without
      spaces or `=` and a value that does not hold the key, leave `v`. */
  lemma DeleteKeyAndEquals(key: string, v: string)
    requires |key| > 0 && ' ' !in key && '=' !in key
    requires ' ' !in v && '=' !in v && !Occurs(key, v)
    ensures DeleteAll(DeleteAll(DeleteAll(key + "=" + v, " "), "="), key) == v
  {
    assert key + "=" + v == key + ['='] + v;
    DeleteAbsentAround(key, '=', v, ' ');
    SeparatorDeleted(key, '=', v);
    DeleteLeading(key, v);
    DeleteAbsent(v, key);
  }

  /** `--version=v` (or `--version = v`, spaces included) asks for `v`
      whenever `v` has no space, no `=` and no `--version` inside. */
  lemma ExpectedVersionInline(argv: seq<string>, v: string)
    requires "--version=" + v in argv
    requires ' ' !in v && '=' !in v && !Occurs("--version", v)
    ensures ExpectedVersion(argv, "--version=" + v) == v
  {
    assert "--version=" + v == "--version" + "=" + v;
    assert "--version=" + v != "--version" by {
      assert |"--version=" + v| > |"--version"|;
    }
    DeleteKeyAndEquals("--version", v);
  }

  /** The two spellings the hook documentation uses ask for the same version. */
  lemma ExpectedVersionExamples(hook: string)
    requires hook != "--version"
    ensures ExpectedVersion([hook, "--version=8.0.0"], "--version=8.0.0") == "8.0.0"
    ensures ExpectedVersion([hook, "--version", "8.0.0"], "--version") == "8.0.0"
  {
    PinnedVersion("8.0.0");
    ExpectedVersionInline([hook, "--version=8.0.0"], "8.0.0");
    ExpectedVersionNext([hook], "8.0.0", []);
    assert [hook] + ["--version", "8.0.0"] + [] == [hook, "--version", "8.0.0"];
  }

  /** The pinned version of the examples is a plain version token. */
  lemma PinnedVersion(v: string)
    requires v == "8.0.0"
    ensures ' ' !in v && '=' !in v && !Occurs("--version", v)
    ensures "--version=" + v == "--version=8.0.0"
  {
    OccursSameLength("--version", v);
    assert forall j :: 0 <= j < |v| ==> v[j] != ' ' && v[j] != '=';
  }

  // ---------------------------------------------------------------------
  // The three per-token rules of parse_args
  // ---------------------------------------------------------------------

  /** A token `parse_args` drops from the forwarded args: one of the added
      files that does not look like an option. */
  predicate Removable(shim: Shim, arg: string) {
    arg in shim.files && !("-" <= arg)
  }

  /** `list.remove`: the first copy goes, a missing value raises `ValueError`. */
  function RemoveOrRaise(args: seq<string>, arg: string): (r: Outcome<seq<string>>)
    ensures r.Continue? <==> arg in args
    ensures !r.Continue? ==> r == Abort(ValueError)
    ensures r.Continue? ==> multiset(r.value) + multiset{arg} == multiset(args)
    ensures r.Continue? ==> r.value == args[..IndexOf(args, arg)] + args[IndexOf(args, arg) + 1..]
  {
    match RemoveFirst(args, arg)
    case Some(rest) =>
      var k := IndexOf(args, arg);
      assert args == args[..k] + [arg] + args[k + 1..];
      Continue(rest)
    case None => Abort(ValueError)
  }

  /** The tool's version: run `<exe> --version`, decode its stdout and pull
      the version token out of it. */
  function ToolVersion(shim: Shim, host: Host, installPath: string): (r: Outcome<string>)
    ensures r.Continue? ==> IsVersion(r.value)
    ensures r.Abort? ==> r.exception == DecodeError
    ensures var out := host.run([Exe(installPath, shim.command), "--version"]).stdout;
      (host.decode(out).None? ==> r == Abort(DecodeError)) &&
      (host.decode(out).Some? ==> r == GetVersionStr(shim.command, shim.lookBehind, host.decode(out).value))
  {
    var child := host.run([Exe(installPath, shim.command), "--version"]);
    match host.decode(child.stdout)
    case None => Abort(DecodeError)
    case Some(text) => GetVersionStr(shim.command, shim.lookBehind, text)
  }

  /** A `--version...` token: compare the tool's version with the one asked
      for. Whatever the result, the process ends here; it exits 0 exactly
      when the asked-for version is a prefix of the tool's. */
  function VersionStep(shim: Shim, host: Host, argv: seq<string>, arg: string, st: Parsed): (r: Outcome<Parsed>)
    requires arg in argv
    ensures !r.Continue?
    ensures r.Abort? ==> r.exception == DecodeError
    ensures (r.Exit? && r.code == 0) <==>
      ToolVersion(shim, host, st.installPath).Continue? &&
      ExpectedVersion(argv, arg) <= ToolVersion(shim, host, st.installPath).value
  {
    var actual :- ToolVersion(shim, host, st.installPath);
    AssertPrefix(shim.command, actual, ExpectedVersion(argv, arg))
  }

  /** A `--install-path...` token: the token after its first occurrence is the
      path, whatever the token's own spelling. No such token raises
      `IndexError`; a path that does not exist exits 1. */
  function InstallStep(shim: Shim, host: Host, argv: seq<string>, arg: string, st: Parsed): (r: Outcome<Parsed>)
    requires arg in argv
    ensures IndexOf(argv, arg) + 1 == |argv| ==> r == Abort(IndexError)
    ensures IndexOf(argv, arg) + 1 < |argv| ==>
      var p := argv[IndexOf(argv, arg) + 1];
      (r.Continue? <==> NormPath(p) in host.existing) &&
      (r.Continue? ==> r.value == st.(installPath := host.resolve(p))) &&
      (!r.Continue? ==> r == RaiseError(shim.command, "Install path argument is invalid.",
        "The path '" + p + "' does not exist on the system."))
  {
    var k := IndexOf(argv, arg);
    if k + 1 == |argv| then Abort(IndexError)
    else
      var p := argv[k + 1];
      if NormPath(p) !in host.existing then
        RaiseError(shim.command, "Install path argument is invalid.",
          "The path '" + p + "' does not exist on the system.")
      else
        Continue(st.(installPath := host.resolve(p)))
  }

  /** One iteration of the `parse_args` loop, for the token at position `i`. */
  function Step(shim: Shim, host: Host, argv: seq<string>, i: nat, st: Parsed): (r: Outcome<Parsed>)
    requires i < |argv|
    ensures r == Abort(ValueError) <==> Removable(shim, argv[i]) && argv[i] !in st.args
    ensures r.Continue? ==> !("--version" <= argv[i])
    ensures r.Continue? && Removable(shim, argv[i]) ==> r.value.args == RemoveFirst(st.args, argv[i]).value
    ensures r.Continue? && !Removable(shim, argv[i]) ==> r.value.args == st.args
    ensures r.Continue? && "--install-path" <= argv[i] ==>
      IndexOf(argv, argv[i]) + 1 < |argv| &&
      r.value.installPath == host.resolve(argv[IndexOf(argv, argv[i]) + 1])
    ensures r.Continue? && !("--install-path" <= argv[i]) ==> r.value.installPath == st.installPath
  {
    var arg := argv[i];
    var args :- if Removable(shim, arg) then RemoveOrRaise(st.args, arg) else Continue(st.args);
    var st1 := st.(args := args);
    var st2 :- if "--version" <= arg then VersionStep(shim, host, argv, arg, st1) else Continue(st1);
    if "--install-path" <= arg then InstallStep(shim, host, argv, arg, st2) else Continue(st2)
  }

  /** The loop of `parse_args` from position `i` on. */
  function Scan(shim: Shim, host: Host, argv: seq<string>, i: nat, st: Parsed): Outcome<Parsed>
    requires i <= |argv|
    decreases |argv| - i
  {
    if i == |argv| then Continue(st)
    else
      var st1 :- Step(shim, host, argv, i, st);
      Scan(shim, host, argv, i + 1, st1)
  }

  /** `parse_args(argv)`: args start as `argv[1:]`, the install path as `""`. */
  function ParseArgs(shim: Shim, host: Host, argv: seq<string>): Outcome<Parsed>
  {
    Scan(shim, host, argv, 0, Parsed(if |argv| == 0 then [] else argv[1..], ""))
  }

  // ---------------------------------------------------------------------
  // What parse_args computes
  // ---------------------------------------------------------------------

  /** The tokens `parse_args` keeps, in their order: all but the removable ones. */
  function Forwarded(shim: Shim, xs: seq<string>): (r: seq<string>)
    ensures forall k :: 0 <= k < |r| ==> r[k] in xs && !Removable(shim, r[k])
    ensures forall k :: 0 <= k < |xs| && !Removable(shim, xs[k]) ==> xs[k] in r
    decreases |xs|
  {
    if |xs| == 0 then []
    else
      var init := xs[..|xs| - 1];
      var last := xs[|xs| - 1];
      var r0 := Forwarded(shim, init);
      assert forall k :: 0 <= k < |init| ==> init[k] == xs[k];
      if Removable(shim, last) then r0 else r0 + [last]
  }

  /** The path named by the last `--install-path...` token among the first `n`. */
  function InstallValue(argv: seq<string>, n: nat): Option<string>
    requires n <= |argv|
  {
    if n == 0 then None
    else if "--install-path" <= argv[n - 1] && IndexOf(argv, argv[n - 1]) + 1 < |argv| then
      Some(argv[IndexOf(argv, argv[n - 1]) + 1])
    else InstallValue(argv, n - 1)
  }

  /** The install path a run ends with: resolved, or `""` when none was given. */
  function Installed(host: Host, v: Option<string>): string
  {
    match v
    case None => ""
    case Some(p) => host.resolve(p)
  }

  /** The loop invariant: after the first `i` tokens, args are the kept tokens
      of `argv[1..i]` followed by the untouched rest, and the install path is
      the one the last install token named. */
  ghost predicate ScanInv(shim: Shim, host: Host, argv: seq<string>, i: nat, st: Parsed)
    requires 1 <= i <= |argv|
  {
    st.args == Forwarded(shim, argv[1..i]) + argv[i..] &&
    st.installPath == Installed(host, InstallValue(argv, i))
  }

  /** Forwarded args after one more token: a removable token is the first copy
      of itself in the args and goes, any other stays. */
  lemma {:induction false} StepArgs(shim: Shim, argv: seq<string>, i: nat, args: seq<string>)
    requires 1 <= i < |argv|
    requires args == Forwarded(shim, argv[1..i]) + argv[i..]
    ensures Removable(shim, argv[i]) ==>
      argv[i] in args && RemoveFirst(args, argv[i]).value == Forwarded(shim, argv[1..i + 1]) + argv[i + 1..]
    ensures !Removable(shim, argv[i]) ==> args == Forwarded(shim, argv[1..i + 1]) + argv[i + 1..]
  {
    var arg := argv[i];
    var fw := Forwarded(shim, argv[1..i]);
    assert argv[1..i + 1][..i - 1] == argv[1..i];
    assert argv[1..i + 1][i - 1] == arg;
    assert argv[i..] == [arg] + argv[i + 1..];
    assert args == fw + [arg] + argv[i + 1..];
    if Removable(shim, arg) {
      assert arg !in fw;
      RemoveFirstAfter(fw, arg, argv[i + 1..]);
    }
  }

  /** One iteration keeps the invariant and never raises `ValueError`. */
  lemma StepInvariant(shim: Shim, host: Host, argv: seq<string>, i: nat, st: Parsed)
    requires 1 <= i < |argv| && ScanInv(shim, host, argv, i, st)
    ensures Step(shim, host, argv, i, st) != Abort(ValueError)
    ensures Step(shim, host, argv, i, st).Continue? ==>
      ScanInv(shim, host, argv, i + 1, Step(shim, host, argv, i, st).value)
  {
    StepArgs(shim, argv, i, st.args);
  }

  /** The loop from position `i` on keeps the invariant to the end, never
      raises `ValueError`, and meets no version token when it returns. */
  lemma {:induction false} ScanInvariant(shim: Shim, host: Host, argv: seq<string>, i: nat, st: Parsed)
    requires 1 <= i <= |argv| && ScanInv(shim, host, argv, i, st)
    ensures Scan(shim, host, argv, i, st) != Abort(ValueError)
    ensures Scan(shim, host, argv, i, st).Continue? ==>
      ScanInv(shim, host, argv, |argv|, Scan(shim, host, argv, i, st).value) &&
      forall k :: i <= k < |argv| ==> !("--version" <= argv[k])
    decreases |argv| - i
  {
    if i < |argv| {
      StepInvariant(shim, host, argv, i, st);
      var r := Step(shim, host, argv, i, st);
      if r.Continue? {
        ScanInvariant(shim, host, argv, i + 1, r.value);
      }
    }
  }

  /** The install path after the first token. */
  lemma InstallValueFirst(host: Host, argv: seq<string>, path: string, isInstall: bool)
    requires |argv| > 0 && isInstall == ("--install-path" <= argv[0])
    requires isInstall ==> 1 < |argv| && path == host.resolve(argv[1])
    requires !isInstall ==> path == ""
    ensures path == Installed(host, InstallValue(argv, 1))
  {
    assert IndexOf(argv, argv[0]) == 0;
  }

  /** `parse_args` as a whole, given that the hook's own name is not one of
      the added files: it never raises `ValueError`; when it returns, args
      are `argv[1:]` without the removable tokens (so the shim's own
      `--install-path` tokens stay), the install path is the resolved path
      of the last install token, and no token asked for a version check,
      because that check always ends the process. */
  lemma ParseArgsSpec(shim: Shim, host: Host, argv: seq<string>)
    requires |argv| > 0 && !Removable(shim, argv[0])
    ensures ParseArgs(shim, host, argv) != Abort(ValueError)
    ensures ParseArgs(shim, host, argv).Continue? ==>
      ParseArgs(shim, host, argv).value.args == Forwarded(shim, argv[1..]) &&
      ParseArgs(shim, host, argv).value.installPath == Installed(host, InstallValue(argv, |argv|)) &&
      forall k :: 0 <= k < |argv| ==> !("--version" <= argv[k])
  {
    var st := Parsed(argv[1..], "");
    var r := Step(shim, host, argv, 0, st);
    assert ParseArgs(shim, host, argv) == Scan(shim, host, argv, 0, st);
    FirstStep(shim, host, argv);
    if r.Continue? {
      var st1 := r.value;
      assert Scan(shim, host, argv, 0, st) == Scan(shim, host, argv, 1, st1);
      ScanInvariant(shim, host, argv, 1, st1);
      assert argv[1..|argv|] == argv[1..];
      if Scan(shim, host, argv, 1, st1).Continue? {
        forall k | 0 <= k < |argv| ensures !("--version" <= argv[k]) {
          if k == 0 {
            assert !("--version" <= argv[0]);
          }
        }
      }
    } else {
      assert Scan(shim, host, argv, 0, st) == r.PropagateFailure();
    }
  }

  /** The first token, the hook's own name, sets up the loop invariant. */
  lemma FirstStep(shim: Shim, host: Host, argv: seq<string>)
    requires |argv| > 0 && !Removable(shim, argv[0])
    ensures var r := Step(shim, host, argv, 0, Parsed(argv[1..], ""));
      r != Abort(ValueError) &&
      (r.Continue? ==> ScanInv(shim, host, argv, 1, r.value) && !("--version" <= argv[0]))
  {
    var r := Step(shim, host, argv, 0, Parsed(argv[1..], ""));
    if r.Continue? {
      assert argv[1..1] == [];
      assert r.value.args == Forwarded(shim, argv[1..1]) + argv[1..];
      InstallValueFirst(host, argv, r.value.installPath, "--install-path" <= argv[0]);
    }
  }

  /** The mock tool (on the PATH, printing `CLI 1.0.0`) against the hook
      arguments `--version 1.0.0`, `--version 1.0.1` and `--version 1.0`:
      every run ends at the version check, with code 0, 1 and 0. */
  lemma MockToolVersionCheck(shim: Shim, host: Host, hook: string)
    requires shim.lookBehind == ""
    requires host.decode(host.run([shim.command, "--version"]).stdout) == Some("CLI 1.0.0\n")
    requires !Removable(shim, hook) && !("--version" <= hook) && !("--install-path" <= hook)
    ensures ParseArgs(shim, host, [hook, "--version", "1.0.0"]) == Exit(0, [])
    ensures ParseArgs(shim, host, [hook, "--version", "1.0.1"]).Exit?
    ensures ParseArgs(shim, host, [hook, "--version", "1.0.1"]).code == 1
    ensures ParseArgs(shim, host, [hook, "--version", "1.0"]) == Exit(0, [])
  {
    MockToolVersion(shim.command);
    assert ToolVersion(shim, host, "") == Continue("1.0.0");
    MockVersionFacts();
    MockVersionRun(shim, host, hook, "1.0.0");
    MockVersionRun(shim, host, hook, "1.0.1");
    MockVersionRun(shim, host, hook, "1.0");
  }

  /** `[hook, "--version", v]` ends at the version check of its second token. */
  lemma MockVersionRun(shim: Shim, host: Host, hook: string, v: string)
    requires !Removable(shim, hook) && !("--version" <= hook) && !("--install-path" <= hook)
    ensures ToolVersion(shim, host, "").Continue? ==>
      ParseArgs(shim, host, [hook, "--version", v]) ==
      AssertPrefix<Parsed>(shim.command, ToolVersion(shim, host, "").value, v)
  {
    var argv := [hook, "--version", v];
    var st0 := Parsed(argv[1..], "");
    ExpectedVersionNext([hook], v, []);
    assert [hook] + ["--version", v] + [] == argv;
    PlainStep(shim, host, argv, 0, st0);
    VersionTokenScan(shim, host, argv, 1, st0);
  }

  /** A token that is neither removable nor an option the shim reads leaves
      the state alone. */
  lemma PlainStep(shim: Shim, host: Host, argv: seq<string>, i: nat, st: Parsed)
    requires i < |argv| && !Removable(shim, argv[i])
    requires !("--version" <= argv[i]) && !("--install-path" <= argv[i])
    ensures Step(shim, host, argv, i, st) == Continue(st)
  {
  }

  /** The scan reaching a bare `--version` token ends with its version step. */
  lemma VersionTokenScan(shim: Shim, host: Host, argv: seq<string>, i: nat, st: Parsed)
    requires i < |argv| && argv[i] == "--version"
    ensures Scan(shim, host, argv, i, st) == VersionStep(shim, host, argv, argv[i], st)
  {
    assert !Removable(shim, argv[i]);
  }

  // ---------------------------------------------------------------------
  // add_if_missing
  // ---------------------------------------------------------------------

  /** The key of an option: the text before its first `=`. */
  function KeyOf(arg: string): string
  {
    Split(arg, '=')[0]
  }

  /** `--key=value` has key `--key`; a token without `=` is its own key. */
  lemma KeyOfForms(key: string, value: string)
    requires '=' !in key
    ensures KeyOf(key + "=" + value) == key
    ensures KeyOf(key) == key
  {
    assert key + "=" + value == key + ['='] + value;
    SplitCons(key, '=', value);
    SplitFirst(key, '=');
  }

  /** The loop of `add_if_missing`: some existing arg has this key. */
  function HasKey(args: seq<string>, key: string): (r: bool)
    ensures r <==> exists i :: 0 <= i < |args| && KeyOf(args[i]) == key
    decreases |args|
  {
    if |args| == 0 then false
    else if KeyOf(args[0]) == key then true
    else
      var r := HasKey(args[1..], key);
      assert forall i :: 1 <= i < |args| ==> args[i] == args[1..][i - 1];
      r
  }

  /** `add_if_missing(new_args)`: append the default unless an existing arg
      already sets the same key. Its callers pass one or two tokens. */
  function AddIfMissing(args: seq<string>, newArgs: seq<string>): (r: seq<string>)
    requires |newArgs| > 0
    ensures (exists i :: 0 <= i < |args| && KeyOf(args[i]) == KeyOf(newArgs[0])) ==> r == args
    ensures !(exists i :: 0 <= i < |args| && KeyOf(args[i]) == KeyOf(newArgs[0])) ==> r == args + newArgs
  {
    if HasKey(args, KeyOf(newArgs[0])) then args else args + newArgs
  }

  /** Existing args are never changed or reordered, and afterwards the key of
      the default is always set. */
  lemma AddIfMissingKeeps(args: seq<string>, newArgs: seq<string>)
    requires |newArgs| > 0
    ensures args <= AddIfMissing(args, newArgs)
    ensures var r := AddIfMissing(args, newArgs);
      exists i :: 0 <= i < |r| && KeyOf(r[i]) == KeyOf(newArgs[0])
  {
    var r := AddIfMissing(args, newArgs);
    if r != args {
      assert r[|args|] == newArgs[0];
    }
  }

  /** Adding the same default twice is adding it once. */
  lemma AddIfMissingIdempotent(args: seq<string>, newArgs: seq<string>)
    requires |newArgs| > 0
    ensures AddIfMissing(AddIfMissing(args, newArgs), newArgs) == AddIfMissing(args, newArgs)
  {
    AddIfMissingKeeps(args, newArgs);
  }

  /** A user-set `--key=mine` beats the default `--key=theirs`. */
  lemma AddIfMissingKeepsUserChoice(key: string, mine: string, theirs: string)
    requires '=' !in key
    ensures AddIfMissing([key + "=" + mine], [key + "=" + theirs]) == [key + "=" + mine]
  {
    KeyOfForms(key, mine);
    KeyOfForms(key, theirs);
    assert KeyOf([key + "=" + mine][0]) == KeyOf(key + "=" + theirs);
  }

  /** A flag with a different name leaves room for the default. */
  lemma AddIfMissingAppendsDefault(flag: string, key: string, value: string)
    requires '=' !in flag && '=' !in key && flag != key
    ensures AddIfMissing([flag], [key + "=" + value]) == [flag, key + "=" + value]
  {
    KeyOfForms(key, value);
    KeyOfForms(flag, value);
    assert forall i :: 0 <= i < |[flag]| ==> KeyOf([flag][i]) != KeyOf(key + "=" + value);
  }
}
