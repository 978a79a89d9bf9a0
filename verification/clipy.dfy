/** The newer variant, `clipy_hooks/cli.py`: `Command` and
    `StaticAnalyzerCmd`. Its argument splitting goes through `argparse`
    (`parse_known_args` with `--install-dir`, `--version` and a `paths`
    positional taking any number of values); the version check is a substring
    test that lets the run continue; the tool is launched as
    `[exe] + args + paths`, through `python` when `exe` is a script. */
module Clipy {
  import opened Base
  import opened Text
  import opened Diagnostics
  import opened Version
  import opened Paths

  /** The constructor's fixed inputs: the tool's name and the documentation
      URL, `""` when there is none. */
  datatype Tool = Tool(command: string, helpUrl: string)

  /** What `_parse_args` leaves behind: the args forwarded to the tool, the
      positional paths, the install directory as `str(Path(..))` (`"."` for
      the default `Path()`), and the `--version` value if one was given. */
  datatype Invocation = Invocation(args: seq<string>, paths: seq<string>, installDir: string, version: Option<string>)

  const InstallDirFlag := "--install-dir"
  const VersionFlag := "--version"

  /** `str(Path())`: the install directory when none was given. */
  const NoInstallDir := "."

  // ---------------------------------------------------------------------
  // Reading tokens the way argparse does
  // ---------------------------------------------------------------------

  predicate IsShimFlag(t: string) {
    t == InstallDirFlag || t == VersionFlag
  }

  /** The option part of a token: the text before its first `=`. */
  function Key(t: string): (r: string)
    ensures r <= t
  {
    if '=' in t then t[..IndexOf(t, '=')] else t
  }

  /** The explicit argument of `--flag=value`: the text after the first `=`. */
  function ExplicitValue(t: string): (r: string)
    requires '=' in t
    ensures Key(t) + "=" + r == t
  {
    var k := IndexOf(t, '=');
    assert t == t[..k] + "=" + t[k + 1..];
    t[k + 1..]
  }

  /** `--install-dir=X` or `--version=X`. */
  predicate IsShimAssign(t: string) {
    '=' in t && IsShimFlag(Key(t))
  }

  predicate IsShimOption(t: string) {
    IsShimFlag(t) || IsShimAssign(t)
  }

  /** A token that sets the version: `--version` or `--version=X`. */
  predicate IsVersionToken(t: string) {
    t == VersionFlag || (IsShimAssign(t) && Key(t) == VersionFlag)
  }

  /** argparse's built-in help options. */
  predicate IsHelp(t: string) {
    t == "-h" || t == "--help"
  }

  /** A token argparse reads as an option string rather than as an argument:
      it starts with `-` and is a shim option, or is longer than `-` alone and
      holds no space. Every other token is an argument. */
  predicate IsOptionToken(t: string) {
    |t| > 0 && t[0] == '-' && (IsShimOption(t) || (|t| > 1 && ' ' !in t))
  }

  /** Neither shim flag holds an `=`, so a token with one is never a bare flag. */
  lemma NoEqualsInFlags()
    ensures '=' !in InstallDirFlag && '=' !in VersionFlag && '=' !in "--help" && '=' !in "-h"
  {
    var a := InstallDirFlag;
    var b := VersionFlag;
    var c := "--help";
    assert forall j :: 0 <= j < |a| ==> a[j] != '=';
    assert forall j :: 0 <= j < |b| ==> b[j] != '=';
    assert forall j :: 0 <= j < |c| ==> c[j] != '=';
  }

  /** `--install-dir` is a shim option that sets no version. */
  lemma InstallFlagIsNoVersion()
    ensures IsShimOption(InstallDirFlag) && !IsVersionToken(InstallDirFlag)
  {
    NoEqualsInFlags();
    assert InstallDirFlag[2] != VersionFlag[2];
  }

  /** Every shim option, and so every version token, reads as an option. */
  lemma ShimOptionIsOption(t: string)
    requires IsShimOption(t)
    ensures IsOptionToken(t)
  {
    var k := Key(t);
    assert |k| > 0 && k[0] == '-';
    assert t[0] == k[0];
  }

  // ---------------------------------------------------------------------
  // _parse_args
  // ---------------------------------------------------------------------

  /** Where the scan stands with respect to the `paths` positional: argparse
      gives it the first contiguous run of arguments, and every argument after
      that run is left over and forwarded. */
  datatype Phase = BeforePaths | InPaths | AfterPaths

  /** Storing the value of a shim option; a later occurrence overwrites an
      earlier one, and `--install-dir` converts its value with `Path`. */
  function Assign(acc: Invocation, flag: string, value: string): (r: Invocation)
    requires IsShimFlag(flag)
    ensures r.args == acc.args && r.paths == acc.paths
    ensures flag == VersionFlag ==> r.version == Some(value) && r.installDir == acc.installDir
    ensures flag == InstallDirFlag ==> r.version == acc.version && r.installDir == NormPath(value)
  {
    if flag == InstallDirFlag then acc.(installDir := NormPath(value)) else acc.(version := Some(value))
  }

  /** `parse_known_args` from token `i` on. A bare shim option takes the next
      token, which must be an argument (else argparse's usage error); `-h` or
      `--help` prints help and exits 0; unknown options are forwarded as they
      are, and so is every argument after the first run of arguments. */
  function SplitFrom(xs: seq<string>, i: nat, acc: Invocation, phase: Phase): (r: Outcome<Invocation>)
    requires i <= |xs|
    ensures r.Exit? ==> r == Exit(0, [])
    ensures r.Abort? ==> r.exception == UsageError
    ensures r.Continue? ==> acc.args <= r.value.args && acc.paths <= r.value.paths
    decreases |xs| - i
  {
    if i == |xs| then Continue(acc)
    else
      var t := xs[i];
      if !IsOptionToken(t) then
        if phase == AfterPaths then SplitFrom(xs, i + 1, acc.(args := acc.args + [t]), AfterPaths)
        else SplitFrom(xs, i + 1, acc.(paths := acc.paths + [t]), InPaths)
      else
        var next := if phase == InPaths then AfterPaths else phase;
        if IsHelp(t) then Exit(0, [])
        else if IsShimAssign(t) then SplitFrom(xs, i + 1, Assign(acc, Key(t), ExplicitValue(t)), next)
        else if IsShimFlag(t) then
          if i + 1 == |xs| || IsOptionToken(xs[i + 1]) then Abort(UsageError)
          else SplitFrom(xs, i + 2, Assign(acc, t, xs[i + 1]), next)
        else SplitFrom(xs, i + 1, acc.(args := acc.args + [t]), next)
  }

  /** The parse of the tokens after `argv[0]`, from the defaults. */
  function SplitArgs(xs: seq<string>): Outcome<Invocation>
  {
    SplitFrom(xs, 0, Invocation([], [], NoInstallDir, None), BeforePaths)
  }

  /** `self.args[1:]`. */
  function ProgramArgs(argv: seq<string>): (r: seq<string>)
    ensures |argv| > 0 ==> argv == [argv[0]] + r
    ensures |argv| == 0 ==> r == []
  {
    if |argv| == 0 then [] else argv[1..]
  }

  /** What holds of the parse after the first `i` tokens:
      no shim option is among the forwarded args, no option token among the
      paths, nothing was invented or duplicated, a version was stored exactly
      when a version token was read, and the install directory moved off its
      default only because of an `--install-dir` token. */
  ghost predicate SplitInv(xs: seq<string>, i: nat, acc: Invocation)
    requires i <= |xs|
  {
    NoShimOption(acc.args) && NoOptionToken(acc.paths) &&
    Drawn(xs, i, acc) && VersionTracked(xs, i, acc) && InstallTracked(xs, i, acc)
  }

  /** No token of `ts` is a shim option (read from the back, so that
      appending one token is one step). */
  ghost predicate NoShimOption(ts: seq<string>)
    decreases |ts|
  {
    |ts| == 0 || (!IsShimOption(ts[|ts| - 1]) && NoShimOption(ts[..|ts| - 1]))
  }

  /** No token of `ts` reads as an option. */
  ghost predicate NoOptionToken(ts: seq<string>)
    decreases |ts|
  {
    |ts| == 0 || (!IsOptionToken(ts[|ts| - 1]) && NoOptionToken(ts[..|ts| - 1]))
  }

  /** `NoShimOption` and `NoOptionToken` say the same as the quantified forms. */
  lemma {:induction false} NoneOfAll(ts: seq<string>)
    ensures NoShimOption(ts) <==> forall k :: 0 <= k < |ts| ==> !IsShimOption(ts[k])
    ensures NoOptionToken(ts) <==> forall k :: 0 <= k < |ts| ==> !IsOptionToken(ts[k])
    decreases |ts|
  {
    if |ts| > 0 {
      var init := ts[..|ts| - 1];
      NoneOfAll(init);
      assert forall k :: 0 <= k < |init| ==> init[k] == ts[k];
    }
  }

  /** Args and paths are drawn from the first `i` tokens, each at most once. */
  ghost predicate Drawn(xs: seq<string>, i: nat, acc: Invocation)
    requires i <= |xs|
  {
    multiset(acc.args) + multiset(acc.paths) <= multiset(xs[..i])
  }

  /** A version is stored exactly when one of the first `i` tokens set it. */
  ghost predicate VersionTracked(xs: seq<string>, i: nat, acc: Invocation)
    requires i <= |xs|
  {
    acc.version.Some? <==> exists j :: 0 <= j < i && IsVersionToken(xs[j])
  }

  /** The install directory left its default only through an install token
      among the first `i`. */
  ghost predicate InstallTracked(xs: seq<string>, i: nat, acc: Invocation)
    requires i <= |xs|
  {
    acc.installDir != NoInstallDir ==> exists j :: 0 <= j < i && IsShimOption(xs[j]) && !IsVersionToken(xs[j])
  }

  /** Reading `n` more tokens keeps what was drawn drawn, and adding one of
      them to the args or the paths keeps it so. */
  lemma DrawnMore(xs: seq<string>, i: nat, n: nat, acc: Invocation)
    requires i + n <= |xs| && Drawn(xs, i, acc)
    ensures Drawn(xs, i + n, acc)
    ensures n > 0 ==> Drawn(xs, i + n, acc.(args := acc.args + [xs[i + n - 1]]))
    ensures n > 0 ==> Drawn(xs, i + n, acc.(paths := acc.paths + [xs[i + n - 1]]))
  {
    assert xs[..i + n] == xs[..i] + xs[i..i + n];
    if n > 0 {
      assert xs[..i + n] == xs[..i + n - 1] + [xs[i + n - 1]];
      assert multiset(xs[..i]) <= multiset(xs[..i + n - 1]) by {
        assert xs[..i + n - 1] == xs[..i] + xs[i..i + n - 1];
      }
    }
  }

  /** Reading tokens that set no version keeps the version tracked. */
  lemma VersionSkip(xs: seq<string>, i: nat, n: nat, acc: Invocation, acc': Invocation)
    requires i + n <= |xs| && VersionTracked(xs, i, acc) && acc'.version.Some? == acc.version.Some?
    requires forall j :: i <= j < i + n ==> !IsVersionToken(xs[j])
    ensures VersionTracked(xs, i + n, acc')
  {
    if exists j :: 0 <= j < i + n && IsVersionToken(xs[j]) {
      var j :| 0 <= j < i + n && IsVersionToken(xs[j]);
      assert j < i;
    }
  }

  /** Reading a version token, the version is tracked whatever came before. */
  lemma VersionRead(xs: seq<string>, i: nat, n: nat, acc': Invocation)
    requires i < i + n <= |xs| && IsVersionToken(xs[i]) && acc'.version.Some?
    ensures VersionTracked(xs, i + n, acc')
  {
  }

  /** Reading tokens keeps an unchanged install directory tracked; an
      install token makes any directory tracked. */
  lemma InstallMore(xs: seq<string>, i: nat, n: nat, acc: Invocation, acc': Invocation)
    requires i < i + n <= |xs| && InstallTracked(xs, i, acc)
    requires acc'.installDir == acc.installDir || (IsShimOption(xs[i]) && !IsVersionToken(xs[i]))
    ensures InstallTracked(xs, i + n, acc')
  {
    if acc'.installDir != NoInstallDir && acc'.installDir == acc.installDir {
      var j :| 0 <= j < i && IsShimOption(xs[j]) && !IsVersionToken(xs[j]);
    }
  }

  /** Reading a token that is forwarded or becomes a path keeps the invariant. */
  lemma KeepToken(xs: seq<string>, i: nat, acc: Invocation, toArgs: bool)
    requires i < |xs| && SplitInv(xs, i, acc) && !IsShimOption(xs[i])
    requires !toArgs ==> !IsOptionToken(xs[i])
    ensures toArgs ==> SplitInv(xs, i + 1, acc.(args := acc.args + [xs[i]]))
    ensures !toArgs ==> SplitInv(xs, i + 1, acc.(paths := acc.paths + [xs[i]]))
  {
    if toArgs {
      KeepArg(xs, i, acc);
    } else {
      KeepPath(xs, i, acc);
    }
  }

  /** Forwarding a token that is no shim option keeps the invariant. */
  lemma KeepArg(xs: seq<string>, i: nat, acc: Invocation)
    requires i < |xs| && SplitInv(xs, i, acc) && !IsShimOption(xs[i])
    ensures SplitInv(xs, i + 1, acc.(args := acc.args + [xs[i]]))
  {
    var acc' := acc.(args := acc.args + [xs[i]]);
    DrawnMore(xs, i, 1, acc);
    VersionSkip(xs, i, 1, acc, acc');
    InstallMore(xs, i, 1, acc, acc');
    assert acc'.args[..|acc'.args| - 1] == acc.args;
  }

  /** Taking an argument as a path keeps the invariant. */
  lemma KeepPath(xs: seq<string>, i: nat, acc: Invocation)
    requires i < |xs| && SplitInv(xs, i, acc) && !IsOptionToken(xs[i]) && !IsShimOption(xs[i])
    ensures SplitInv(xs, i + 1, acc.(paths := acc.paths + [xs[i]]))
  {
    var acc' := acc.(paths := acc.paths + [xs[i]]);
    DrawnMore(xs, i, 1, acc);
    VersionSkip(xs, i, 1, acc, acc');
    InstallMore(xs, i, 1, acc, acc');
    assert acc'.paths[..|acc'.paths| - 1] == acc.paths;
  }

  /** Reading `--flag=value` keeps the invariant. */
  lemma KeepAssign(xs: seq<string>, i: nat, acc: Invocation)
    requires i < |xs| && SplitInv(xs, i, acc) && IsShimAssign(xs[i])
    ensures SplitInv(xs, i + 1, Assign(acc, Key(xs[i]), ExplicitValue(xs[i])))
  {
    var acc' := Assign(acc, Key(xs[i]), ExplicitValue(xs[i]));
    DrawnMore(xs, i, 1, acc);
    if IsVersionToken(xs[i]) {
      VersionRead(xs, i, 1, acc');
    } else {
      VersionSkip(xs, i, 1, acc, acc');
    }
    InstallMore(xs, i, 1, acc, acc');
  }

  /** Reading `--flag value` keeps the invariant. */
  lemma KeepFlag(xs: seq<string>, i: nat, acc: Invocation)
    requires i + 1 < |xs| && SplitInv(xs, i, acc) && IsShimFlag(xs[i]) && !IsOptionToken(xs[i + 1])
    ensures SplitInv(xs, i + 2, Assign(acc, xs[i], xs[i + 1]))
  {
    var acc' := Assign(acc, xs[i], xs[i + 1]);
    assert acc'.args == acc.args && acc'.paths == acc.paths;
    ArgumentIsNoOption(xs[i + 1]);
    DrawnMore(xs, i, 2, acc);
    if xs[i] == VersionFlag {
      KeepVersionFlag(xs, i, acc);
    } else {
      KeepInstallFlag(xs, i, acc);
    }
  }

  /** An argument is neither a shim option nor a version token. */
  lemma ArgumentIsNoOption(t: string)
    requires !IsOptionToken(t)
    ensures !IsShimOption(t) && !IsVersionToken(t)
  {
    if IsShimOption(t) {
      ShimOptionIsOption(t);
    }
  }

  /** The version and install parts of the invariant after `--version v`. */
  lemma KeepVersionFlag(xs: seq<string>, i: nat, acc: Invocation)
    requires i + 1 < |xs| && SplitInv(xs, i, acc) && xs[i] == VersionFlag
    ensures VersionTracked(xs, i + 2, Assign(acc, xs[i], xs[i + 1]))
    ensures InstallTracked(xs, i + 2, Assign(acc, xs[i], xs[i + 1]))
  {
    var acc' := Assign(acc, xs[i], xs[i + 1]);
    VersionRead(xs, i, 2, acc');
    InstallMore(xs, i, 2, acc, acc');
  }

  /** The version and install parts of the invariant after `--install-dir d`,
      where `d` is an argument. */
  lemma KeepInstallFlag(xs: seq<string>, i: nat, acc: Invocation)
    requires i + 1 < |xs| && SplitInv(xs, i, acc) && xs[i] == InstallDirFlag
    requires !IsVersionToken(xs[i + 1])
    ensures VersionTracked(xs, i + 2, Assign(acc, xs[i], xs[i + 1]))
    ensures InstallTracked(xs, i + 2, Assign(acc, xs[i], xs[i + 1]))
  {
    var acc' := Assign(acc, xs[i], xs[i + 1]);
    InstallFlagIsNoVersion();
    VersionSkip(xs, i, 2, acc, acc');
    InstallMore(xs, i, 2, acc, acc');
  }

  /** The invariant holds of every parse that runs to the end. */
  lemma {:induction false} SplitFromInv(xs: seq<string>, i: nat, acc: Invocation, phase: Phase)
    requires i <= |xs| && SplitInv(xs, i, acc)
    ensures SplitFrom(xs, i, acc, phase).Continue? ==> SplitInv(xs, |xs|, SplitFrom(xs, i, acc, phase).value)
    decreases |xs| - i, 1
  {
    if i < |xs| {
      var t := xs[i];
      if !IsOptionToken(t) {
        if IsShimOption(t) {
          ShimOptionIsOption(t);
        }
        if phase == AfterPaths {
          KeepToken(xs, i, acc, true);
          SplitFromInv(xs, i + 1, acc.(args := acc.args + [t]), AfterPaths);
        } else {
          KeepToken(xs, i, acc, false);
          SplitFromInv(xs, i + 1, acc.(paths := acc.paths + [t]), InPaths);
        }
      } else if IsHelp(t) {
      } else if IsShimAssign(t) {
        AssignInv(xs, i, acc, phase);
      } else if IsShimFlag(t) {
        FlagInv(xs, i, acc, phase);
      } else {
        UnknownInv(xs, i, acc, phase);
      }
    }
  }

  /** The step of `SplitFromInv` for `--flag=value`. */
  lemma {:induction false} AssignInv(xs: seq<string>, i: nat, acc: Invocation, phase: Phase)
    requires i < |xs| && SplitInv(xs, i, acc)
    requires IsOptionToken(xs[i]) && !IsHelp(xs[i]) && IsShimAssign(xs[i])
    ensures SplitFrom(xs, i, acc, phase).Continue? ==> SplitInv(xs, |xs|, SplitFrom(xs, i, acc, phase).value)
    decreases |xs| - i, 0
  {
    var t := xs[i];
    var next := if phase == InPaths then AfterPaths else phase;
    KeepAssign(xs, i, acc);
    var acc' := Assign(acc, Key(t), ExplicitValue(t));
    assert SplitFrom(xs, i, acc, phase) == SplitFrom(xs, i + 1, acc', next);
    SplitFromInv(xs, i + 1, acc', next);
  }

  /** The step of `SplitFromInv` for a bare `--flag`. */
  lemma {:induction false} FlagInv(xs: seq<string>, i: nat, acc: Invocation, phase: Phase)
    requires i < |xs| && SplitInv(xs, i, acc)
    requires IsOptionToken(xs[i]) && !IsHelp(xs[i]) && !IsShimAssign(xs[i]) && IsShimFlag(xs[i])
    ensures SplitFrom(xs, i, acc, phase).Continue? ==> SplitInv(xs, |xs|, SplitFrom(xs, i, acc, phase).value)
    decreases |xs| - i, 0
  {
    var t := xs[i];
    var next := if phase == InPaths then AfterPaths else phase;
    if i + 1 < |xs| && !IsOptionToken(xs[i + 1]) {
      KeepFlag(xs, i, acc);
      var acc' := Assign(acc, t, xs[i + 1]);
      assert SplitFrom(xs, i, acc, phase) == SplitFrom(xs, i + 2, acc', next);
      SplitFromInv(xs, i + 2, acc', next);
    }
  }

  /** The step of `SplitFromInv` for an option the shim does not know. */
  lemma {:induction false} UnknownInv(xs: seq<string>, i: nat, acc: Invocation, phase: Phase)
    requires i < |xs| && SplitInv(xs, i, acc)
    requires IsOptionToken(xs[i]) && !IsHelp(xs[i]) && !IsShimOption(xs[i])
    ensures SplitFrom(xs, i, acc, phase).Continue? ==> SplitInv(xs, |xs|, SplitFrom(xs, i, acc, phase).value)
    decreases |xs| - i, 0
  {
    var t := xs[i];
    var next := if phase == InPaths then AfterPaths else phase;
    KeepToken(xs, i, acc, true);
    var acc' := acc.(args := acc.args + [t]);
    assert SplitFrom(xs, i, acc, phase) == SplitFrom(xs, i + 1, acc', next);
    SplitFromInv(xs, i + 1, acc', next);
  }

  /** `_parse_args` splits the tokens after `argv[0]` so that neither
      `--install-dir X` nor `--version X` (in either spelling) reaches the
      tool; the paths are arguments, never options; every forwarded arg and
      every path is one of the tokens, each used at most once; a version is
      set exactly when a `--version` token was given; and the install
      directory stays `Path()` unless an `--install-dir` token was given. */
  lemma SplitArgsSpec(xs: seq<string>)
    ensures var r := SplitArgs(xs);
      r.Continue? ==>
        (forall k :: 0 <= k < |r.value.args| ==> !IsShimOption(r.value.args[k])) &&
        (forall k :: 0 <= k < |r.value.paths| ==> !IsOptionToken(r.value.paths[k])) &&
        multiset(r.value.args) + multiset(r.value.paths) <= multiset(xs) &&
        (r.value.version.Some? <==> exists j :: 0 <= j < |xs| && IsVersionToken(xs[j])) &&
        (r.value.installDir != NoInstallDir ==>
          exists j :: 0 <= j < |xs| && IsShimOption(xs[j]) && !IsVersionToken(xs[j]))
  {
    SplitFromInv(xs, 0, Invocation([], [], NoInstallDir, None), BeforePaths);
    assert xs[..|xs|] == xs;
    var r := SplitArgs(xs);
    if r.Continue? {
      NoneOfAll(r.value.args);
      NoneOfAll(r.value.paths);
    }
  }

  /** The hook's own argv: the install directory is read, the one path kept,
      and nothing is forwarded. */
  lemma InstallDirThenPath(prog: string, dir: string, path: string)
    requires |dir| > 0 && dir[0] != '-'
    requires |path| > 0 && path[0] != '-'
    ensures SplitArgs(ProgramArgs([prog, InstallDirFlag, dir, path])) ==
      Continue(Invocation([], [path], NormPath(dir), None))
  {
    var xs := [InstallDirFlag, dir, path];
    assert ProgramArgs([prog, InstallDirFlag, dir, path]) == xs;
    var init := Invocation([], [], NoInstallDir, None);
    assert !IsOptionToken(dir) && !IsOptionToken(path);
    BareFlagStep(xs, 0, init, BeforePaths);
    var acc := Assign(init, InstallDirFlag, dir);
    LastPath(xs, 2, acc);
    assert acc.(paths := acc.paths + [path]) == Invocation([], [path], NormPath(dir), None);
  }

  /** A bare shim flag followed by an argument consumes both tokens. */
  lemma BareFlagStep(xs: seq<string>, i: nat, acc: Invocation, phase: Phase)
    requires i + 1 < |xs| && IsShimFlag(xs[i]) && !IsOptionToken(xs[i + 1])
    ensures SplitFrom(xs, i, acc, phase) ==
      SplitFrom(xs, i + 2, Assign(acc, xs[i], xs[i + 1]), if phase == InPaths then AfterPaths else phase)
  {
    NoEqualsInFlags();
    ShimOptionIsOption(xs[i]);
    assert !IsHelp(xs[i]) by {
      assert |xs[i]| != |"-h"| && |xs[i]| != |"--help"|;
    }
  }

  /** A last argument met before any path is the one path. */
  lemma LastPath(xs: seq<string>, i: nat, acc: Invocation)
    requires i + 1 == |xs| && !IsOptionToken(xs[i])
    ensures SplitFrom(xs, i, acc, BeforePaths) == Continue(acc.(paths := acc.paths + [xs[i]]))
  {
  }

  /** The test fixture's argv `prog --install-dir cli/ cli/__init__.py`. */
  lemma FixtureArgs()
    ensures SplitArgs(ProgramArgs(["prog", "--install-dir", "cli/", "cli/__init__.py"])) ==
      Continue(Invocation([], ["cli/__init__.py"], "cli", None))
  {
    InstallDirThenPath("prog", "cli/", "cli/__init__.py");
    NormPathExamples();
  }

  /** Without a program name in front, the first token is the one dropped:
      the fixture's list `--install-dir cli/ cli/__init__.py` as `argv` loses
      its `--install-dir`, and both remaining tokens become paths. */
  lemma FixtureWithoutProgramName(dir: string, path: string)
    requires |dir| > 0 && dir[0] != '-'
    requires |path| > 0 && path[0] != '-'
    ensures SplitArgs(ProgramArgs([InstallDirFlag, dir, path])) ==
      Continue(Invocation([], [dir, path], NoInstallDir, None))
  {
    var xs := [dir, path];
    assert ProgramArgs([InstallDirFlag, dir, path]) == xs;
    var init := Invocation([], [], NoInstallDir, None);
    assert !IsOptionToken(dir) && !IsOptionToken(path);
    var one := init.(paths := [dir]);
    var two := init.(paths := [dir, path]);
    assert init.paths + [dir] == [dir] && one.paths + [path] == [dir, path];
    assert SplitFrom(xs, 2, two, InPaths) == Continue(two);
    assert SplitFrom(xs, 1, one, InPaths) == SplitFrom(xs, 2, two, InPaths);
    assert SplitArgs(xs) == SplitFrom(xs, 1, one, InPaths);
  }

  /** Options the shim does not know are forwarded unchanged and in order:
      on a list of such options alone the split is the identity on the args,
      with no paths and the defaults for both shim options. */
  lemma CleanArgsForwarded(xs: seq<string>)
    requires forall k :: 0 <= k < |xs| ==> IsOptionToken(xs[k]) && !IsShimOption(xs[k]) && !IsHelp(xs[k])
    ensures SplitArgs(xs) == Continue(Invocation(xs, [], NoInstallDir, None))
  {
    assert xs[..0] == [];
    CleanArgsFrom(xs, 0);
  }

  lemma {:induction false} CleanArgsFrom(xs: seq<string>, i: nat)
    requires i <= |xs|
    requires forall k :: 0 <= k < |xs| ==> IsOptionToken(xs[k]) && !IsShimOption(xs[k]) && !IsHelp(xs[k])
    ensures SplitFrom(xs, i, Invocation(xs[..i], [], NoInstallDir, None), BeforePaths) ==
      Continue(Invocation(xs, [], NoInstallDir, None))
    decreases |xs| - i
  {
    if i == |xs| {
      assert xs[..i] == xs;
    } else {
      assert xs[..i] + [xs[i]] == xs[..i + 1];
      CleanArgsFrom(xs, i + 1);
    }
  }

  /** A program name and two unknown options: both options are forwarded. */
  lemma UnknownOptionsForwarded(prog: string, a: string, b: string)
    requires IsOptionToken(a) && !IsShimOption(a) && !IsHelp(a)
    requires IsOptionToken(b) && !IsShimOption(b) && !IsHelp(b)
    ensures SplitArgs(ProgramArgs([prog, a, b])) == Continue(Invocation([a, b], [], NoInstallDir, None))
  {
    assert ProgramArgs([prog, a, b]) == [a, b];
    CleanArgsForwarded([a, b]);
  }

  /** The mock tool's own flags `--a-flag` and `--an-arg=x` are forwarded. */
  lemma MockFlagsForwarded()
    ensures SplitArgs(ProgramArgs(["prog", "--a-flag", "--an-arg=x"])) ==
      Continue(Invocation(["--a-flag", "--an-arg=x"], [], NoInstallDir, None))
  {
    AFlagIsUnknown();
    var key := "--an-arg";
    assert forall j :: 0 <= j < |key| ==> key[j] != '=' && key[j] != ' ';
    UnknownAssign(key, "x");
    assert key + "=" + "x" == "--an-arg=x";
    UnknownOptionsForwarded("prog", "--a-flag", "--an-arg=x");
  }

  /** `--a-flag` reads as an option the shim does not know. */
  lemma AFlagIsUnknown()
    ensures IsOptionToken("--a-flag") && !IsShimOption("--a-flag") && !IsHelp("--a-flag")
  {
    var a := "--a-flag";
    assert forall k :: 0 <= k < |a| ==> a[k] != ' ' && a[k] != '=';
  }

  /** The key of `key=value`, when the key holds no `=`, is that key. */
  lemma KeyOfAssign(key: string, value: string)
    requires '=' !in key
    ensures '=' in key + "=" + value && Key(key + "=" + value) == key
  {
    assert key + "=" + value == key + ['='] + value;
    IndexOfAfter(key, '=', value);
  }

  /** `key=value` with a key the shim does not know reads as an unknown
      option, provided neither part holds a space. */
  lemma UnknownAssign(key: string, value: string)
    requires |key| > 1 && key[0] == '-' && '=' !in key && ' ' !in key && ' ' !in value
    requires !IsShimFlag(key) && key != "-" + "-" + "help"
    ensures var t := key + "=" + value;
      IsOptionToken(t) && !IsShimOption(t) && !IsHelp(t)
  {
    KeyOfAssign(key, value);
    var t := key + "=" + value;
    assert t[0] == key[0];
    assert ' ' !in t by {
      forall j | 0 <= j < |t| ensures t[j] != ' ' {
        if j < |key| { assert t[j] == key[j]; }
        else if j > |key| { assert t[j] == value[j - |key| - 1]; }
      }
    }
    NoEqualsInFlags();
    assert !IsHelp(t) && !IsShimFlag(t);
  }

  /** When `--version` is given twice, the later value is the one checked. */
  lemma LastVersionWins(v1: string, v2: string)
    requires |v1| > 0 && v1[0] != '-'
    requires |v2| > 0 && v2[0] != '-'
    ensures SplitArgs([VersionFlag, v1, VersionFlag, v2]) ==
      Continue(Invocation([], [], NoInstallDir, Some(v2)))
  {
    var xs := [VersionFlag, v1, VersionFlag, v2];
    assert IsOptionToken(VersionFlag) && !IsHelp(VersionFlag) && !IsShimAssign(VersionFlag);
    var acc := Invocation([], [], NoInstallDir, Some(v1));
    assert SplitArgs(xs) == SplitFrom(xs, 2, acc, BeforePaths);
    assert !IsOptionToken(v1) && !IsOptionToken(v2);
    assert SplitFrom(xs, 4, acc.(version := Some(v2)), BeforePaths) == Continue(acc.(version := Some(v2)));
    assert SplitFrom(xs, 2, acc, BeforePaths) == SplitFrom(xs, 4, acc.(version := Some(v2)), BeforePaths);
  }

  /** A bare `--version` as the last token has no value: argparse's usage
      error ends the run. */
  lemma TrailingVersionFlag(prog: string)
    ensures SplitArgs(ProgramArgs([prog, VersionFlag])) == Abort(UsageError)
  {
    assert ProgramArgs([prog, VersionFlag]) == [VersionFlag];
    assert IsOptionToken(VersionFlag) && !IsHelp(VersionFlag) && !IsShimAssign(VersionFlag);
  }

  // ---------------------------------------------------------------------
  // Launching the tool
  // ---------------------------------------------------------------------

  /** The executable `_execute_with_arguments` names: the resolved
      `install_dir/command` when an install directory is set, else the bare
      command for a PATH lookup. */
  function Executable(tool: Tool, host: Host, installDir: string): string
  {
    if installDir != NoInstallDir then host.resolve(JoinPath(installDir, tool.command))
    else NormPath(tool.command)
  }

  /** `_execute_with_arguments(args)`'s argv: the executable and then `args`,
      with `python` in front when the executable's suffix is `.py`. */
  function ExecArgv(tool: Tool, host: Host, installDir: string, args: seq<string>): (r: seq<string>)
    ensures var exe := Executable(tool, host, installDir);
      |r| == |args| + (if Suffix(exe) == ".py" then 2 else 1) &&
      r[|r| - |args|..] == args &&
      (Suffix(exe) == ".py" ==> r[..2] == ["python", exe]) &&
      (Suffix(exe) != ".py" ==> r[0] == exe)
  {
    var exe := Executable(tool, host, installDir);
    if Suffix(exe) == ".py" then ["python", exe] + args else [exe] + args
  }

  /** The mock tool, a script in the install directory `cli`, runs through
      `python` with its resolved path. */
  lemma MockToolArgv(host: Host, resolved: string)
    requires host.resolve("cli/__main__.py") == resolved && Suffix(resolved) == ".py"
    ensures ExecArgv(Tool("__main__.py", ""), host, "cli", ["--version"]) == ["python", resolved, "--version"]
  {
    MockToolJoin();
  }

  /** The tool's version: run it with `--version`, decode stdout as UTF-8 and
      pull the version token out. */
  function ToolVersion(tool: Tool, host: Host, installDir: string): (r: Outcome<string>)
    ensures r.Continue? ==> IsVersion(r.value)
    ensures r.Exit? ==> r.code == 1
    ensures r.Abort? ==> r.exception == DecodeError
    ensures var out := host.run(ExecArgv(tool, host, installDir, ["--version"])).stdout;
      (host.decode(out).None? ==> r == Abort(DecodeError)) &&
      (host.decode(out).Some? ==> r == GetVersionStr(tool.command, "", host.decode(out).value))
  {
    var child := host.run(ExecArgv(tool, host, installDir, ["--version"]));
    match host.decode(child.stdout)
    case None => Abort(DecodeError)
    case Some(text) => GetVersionStr(tool.command, "", text)
  }

  /** `_parse_args`: drop `argv[0]`, split, and check the tool's version
      exactly when a `--version` value was given; a passing check (the
      expected text occurs in the tool's version) lets the run continue with
      the parse unchanged. */
  function ParseArgs(tool: Tool, host: Host, argv: seq<string>): (r: Outcome<Invocation>)
    ensures var s := SplitArgs(ProgramArgs(argv));
      (!s.Continue? ==> r == s) &&
      (s.Continue? && s.value.version.None? ==> r == s) &&
      (s.Continue? && s.value.version.Some? ==>
        var actual := ToolVersion(tool, host, s.value.installDir);
        (r.Continue? <==> actual.Continue? && exists k :: OccursAt(s.value.version.value, actual.value, k)) &&
        (r.Continue? ==> r == s))
  {
    var inv :- SplitArgs(ProgramArgs(argv));
    if inv.version.None? then Continue(inv)
    else
      var actual :- ToolVersion(tool, host, inv.installDir);
      var ok :- AssertContains(tool.command, actual, inv.version.value);
      Continue(inv)
  }

  /** A version check that fails ends the run with the wrong-version
      diagnostic naming both versions. */
  lemma VersionMismatch(tool: Tool, host: Host, argv: seq<string>)
    requires SplitArgs(ProgramArgs(argv)).Continue?
    requires SplitArgs(ProgramArgs(argv)).value.version.Some?
    requires ToolVersion(tool, host, SplitArgs(ProgramArgs(argv)).value.installDir).Continue?
    requires !ParseArgs(tool, host, argv).Continue?
    ensures var expected := SplitArgs(ProgramArgs(argv)).value.version.value;
      var actual := ToolVersion(tool, host, SplitArgs(ProgramArgs(argv)).value.installDir).value;
      ParseArgs(tool, host, argv) == RaiseError(tool.command, "Version of " + tool.command + " is wrong.",
        "Expected version: " + expected + " Found version: " + actual
        + ". Edit your pre-commit config or use a different version of " + tool.command + ".")
  {
  }

  // ---------------------------------------------------------------------
  // check_installed
  // ---------------------------------------------------------------------

  /** Where the not-found message says the shim looked. */
  function Where(installDir: string): string
  {
    if installDir != NoInstallDir then "at '" + installDir + "'" else "and on your PATH"
  }

  /** `check_installed`: with an install directory, `dir/command` must exist
      and be a regular file; without one, the command must be on the PATH.
      Otherwise exit 1; the "For more info" line is there only when the tool
      has a documentation URL. */
  function CheckInstalled(tool: Tool, host: Host, installDir: string): (r: Outcome<()>)
    ensures r.Continue? <==>
      if installDir != NoInstallDir then
        JoinPath(installDir, tool.command) in host.existing && JoinPath(installDir, tool.command) in host.regularFiles
      else tool.command in host.onPath
    ensures !r.Continue? && tool.helpUrl == "" ==> r == RaiseError(tool.command, tool.command + " not found",
      "Make sure " + tool.command + " is installed " + Where(installDir) + ".\n")
    ensures !r.Continue? && tool.helpUrl != "" ==> r == RaiseError(tool.command, tool.command + " not found",
      "Make sure " + tool.command + " is installed " + Where(installDir) + ".\n"
      + "For more info: " + tool.helpUrl)
  {
    var found :=
      if installDir != NoInstallDir then
        var path := JoinPath(installDir, tool.command);
        path in host.existing && path in host.regularFiles
      else tool.command in host.onPath;
    if found then Continue(())
    else if tool.helpUrl != "" then
      RaiseError(tool.command, tool.command + " not found",
        "Make sure " + tool.command + " is installed " + Where(installDir) + ".\n"
        + "For more info: " + tool.helpUrl)
    else
      RaiseError(tool.command, tool.command + " not found",
        "Make sure " + tool.command + " is installed " + Where(installDir) + ".\n")
  }

  /** Once `check_installed` passes, the tool `_execute_with_arguments`
      launches is the one it vouched for: a regular file in the install
      directory (before `resolve`), or a command on the PATH. */
  lemma CheckedExecutable(tool: Tool, host: Host, installDir: string)
    requires CheckInstalled(tool, host, installDir).Continue?
    ensures installDir != NoInstallDir ==>
      JoinPath(installDir, tool.command) in host.regularFiles &&
      Executable(tool, host, installDir) == host.resolve(JoinPath(installDir, tool.command))
    ensures installDir == NoInstallDir ==> tool.command in host.onPath
  {
  }

  // ---------------------------------------------------------------------
  // StaticAnalyzerCmd
  // ---------------------------------------------------------------------

  /** `exit_on_error`: a non-zero return code writes the buffered stdout and
      stderr, in that order, and exits with that same code. */
  function ExitOnError(buf: Buffers): (r: Outcome<Buffers>)
    ensures r.Continue? <==> buf.code == 0
    ensures r.Continue? ==> r.value == buf
    ensures r.Exit? ==> r.code == buf.code && r.code != 0 && r.stderr == buf.stdout + buf.stderr
  {
    if buf.code != 0 then Exit(buf.code, buf.stdout + buf.stderr) else Continue(buf)
  }

  /** The child `run_command` starts: the tool with the forwarded args and
      then the paths. */
  function AnalyzerChild(tool: Tool, host: Host, inv: Invocation): ExecResult
  {
    host.run(ExecArgv(tool, host, inv.installDir, inv.args + inv.paths))
  }

  /** `run_command`: check the tool is installed, run it on args then paths,
      append its output to the buffers and take its return code, and exit on
      a non-zero code. It returns true exactly when the code is 0, which is
      the only way it returns at all. */
  function RunCommand(tool: Tool, host: Host, inv: Invocation, buf: Buffers): (r: Outcome<(Buffers, bool)>)
    ensures var child := AnalyzerChild(tool, host, inv);
      var installed := CheckInstalled(tool, host, inv.installDir);
      (r.Continue? <==> installed.Continue? && child.code == 0) &&
      (r.Continue? ==>
        r.value.1 && r.value.0 == Buffers(buf.stdout + child.stdout, buf.stderr + child.stderr, 0)) &&
      (installed.Continue? && child.code != 0 ==>
        r == Exit(child.code, buf.stdout + child.stdout + (buf.stderr + child.stderr))) &&
      (!installed.Continue? ==> r.Exit? && r.code == 1 && r.stderr == installed.stderr)
  {
    var ok :- CheckInstalled(tool, host, inv.installDir);
    var child := AnalyzerChild(tool, host, inv);
    var collected := Buffers(buf.stdout + child.stdout, buf.stderr + child.stderr, child.code);
    var after :- ExitOnError(collected);
    Continue((after, after.code == 0))
  }

  /** The argv of the analyser run ends with the forwarded args followed by
      the paths, so a path never lands in front of a flag. */
  lemma AnalyzerArgvOrder(tool: Tool, host: Host, inv: Invocation)
    ensures var argv := ExecArgv(tool, host, inv.installDir, inv.args + inv.paths);
      argv[|argv| - |inv.paths|..] == inv.paths &&
      argv[|argv| - |inv.paths| - |inv.args|..|argv| - |inv.paths|] == inv.args
  {
    var argv := ExecArgv(tool, host, inv.installDir, inv.args + inv.paths);
    SuffixParts(argv, inv.args, inv.paths);
  }

  /** A sequence ending in `a + b` ends in `b`, with `a` just before it. */
  lemma SuffixParts<T>(r: seq<T>, a: seq<T>, b: seq<T>)
    requires |a| + |b| <= |r| && r[|r| - |a| - |b|..] == a + b
    ensures r[|r| - |b|..] == b
    ensures r[|r| - |b| - |a|..|r| - |b|] == a
  {
    var t := r[|r| - |a| - |b|..];
    assert r[|r| - |b|..] == t[|a|..];
    assert r[|r| - |b| - |a|..|r| - |b|] == t[..|a|];
  }

  /** A tool that fails (the mock tool given `--fail` exits 1) ends the run
      with its own code and everything it printed. */
  lemma FailingToolExits(tool: Tool, host: Host, inv: Invocation)
    requires CheckInstalled(tool, host, inv.installDir).Continue?
    requires AnalyzerChild(tool, host, inv).code == 1
    ensures RunCommand(tool, host, inv, Buffers([], [], 0)) ==
      Exit(1, AnalyzerChild(tool, host, inv).stdout + AnalyzerChild(tool, host, inv).stderr)
  {
    var child := AnalyzerChild(tool, host, inv);
    EmptyBuffersAppend(child.stdout, child.stderr);
  }

  /** Appending to empty buffers leaves just what was appended. */
  lemma EmptyBuffersAppend(out: seq<byte>, err: seq<byte>)
    ensures Buffers([], [], 0).stdout + out + (Buffers([], [], 0).stderr + err) == out + err
  {
  }
}
