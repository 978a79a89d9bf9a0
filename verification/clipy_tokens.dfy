/** An independent description of what `_parse_args` in
    `clipy_hooks/cli.py` computes, token by token, and the proof that the
    left-to-right split of `Clipy.SplitArgs` agrees with it.

    Each token of a successful parse plays one role: the value of the bare
    shim flag just before it, an option string, or a positional argument.
    The paths are the first contiguous run of positionals; every option the
    shim does not know and every positional after that run is an extra,
    forwarded in order; the version and the install directory come from
    the last token that sets them. */
module ClipyTokens {
  import opened Base
  import opened Text
  import opened Paths
  import opened Clipy

  // ---------------------------------------------------------------------
  // Token kinds
  // ---------------------------------------------------------------------

  /** Which shim setting an option sets. */
  datatype Setting = SetsVersion | SetsInstallDir

  /** How argparse reads one token on its own: an argument, a help option,
      a shim option with its value attached (`--flag=value`), a bare shim
      flag, or an option string the shim does not know. */
  datatype Kind = Argument | Help | Attached(setting: Setting, value: string) | Bare(setting: Setting) | Unknown

  /** The setting a shim flag names. */
  function SettingOf(flag: string): Setting
  {
    if flag == InstallDirFlag then SetsInstallDir else SetsVersion
  }

  /** The kind argparse gives token `t`. */
  function KindOf(t: string): Kind
  {
    if !IsOptionToken(t) then Argument
    else if IsHelp(t) then Help
    else if IsShimAssign(t) then Attached(SettingOf(Key(t)), ExplicitValue(t))
    else if IsShimFlag(t) then Bare(SettingOf(t))
    else Unknown
  }

  /** The kind of every token. */
  function Kinds(xs: seq<string>): (ks: seq<Kind>)
    ensures |ks| == |xs|
    ensures forall j :: 0 <= j < |xs| ==> ks[j] == KindOf(xs[j])
  {
    if xs == [] then [] else [KindOf(xs[0])] + Kinds(xs[1..])
  }

  /** Storing a setting the way `Assign` does. */
  function Put(acc: Invocation, s: Setting, value: string): Invocation
  {
    match s
    case SetsInstallDir => acc.(installDir := NormPath(value))
    case SetsVersion => acc.(version := Some(value))
  }

  /** The split of `Clipy.SplitFrom` told by the kinds of the tokens. */
  function SplitKinds(xs: seq<string>, ks: seq<Kind>, i: nat, acc: Invocation, phase: Phase): Outcome<Invocation>
    requires |ks| == |xs| && i <= |xs|
    decreases |xs| - i
  {
    if i == |xs| then Continue(acc)
    else
      var next := if phase == InPaths then AfterPaths else phase;
      match ks[i]
      case Argument =>
        if phase == AfterPaths then SplitKinds(xs, ks, i + 1, acc.(args := acc.args + [xs[i]]), AfterPaths)
        else SplitKinds(xs, ks, i + 1, acc.(paths := acc.paths + [xs[i]]), InPaths)
      case Help => Exit(0, [])
      case Attached(s, v) => SplitKinds(xs, ks, i + 1, Put(acc, s, v), next)
      case Bare(s) =>
        if i + 1 == |xs| || !ks[i + 1].Argument? then Abort(UsageError)
        else SplitKinds(xs, ks, i + 2, Put(acc, s, xs[i + 1]), next)
      case Unknown => SplitKinds(xs, ks, i + 1, acc.(args := acc.args + [xs[i]]), next)
  }

  // ---------------------------------------------------------------------
  // Token roles
  // ---------------------------------------------------------------------

  /** Token `j` is the value of a bare `--install-dir` or `--version` just
      before it. */
  predicate IsOptionValue(ks: seq<Kind>, j: nat)
    requires j < |ks|
  {
    0 < j && ks[j - 1].Bare?
  }

  /** Token `j` is a positional argument: an argument that is not the value
      of a shim flag. */
  predicate IsPositional(ks: seq<Kind>, j: nat)
    requires j < |ks|
  {
    ks[j].Argument? && !IsOptionValue(ks, j)
  }

  /** The first positional at or after `i`, or `|ks|` when there is none. */
  function FirstPositional(ks: seq<Kind>, i: nat): (r: nat)
    requires i <= |ks|
    ensures i <= r <= |ks|
    ensures forall j :: i <= j < r ==> !IsPositional(ks, j)
    ensures r < |ks| ==> IsPositional(ks, r)
    decreases |ks| - i
  {
    if i == |ks| || IsPositional(ks, i) then i else FirstPositional(ks, i + 1)
  }

  /** The first option string at or after `i`, or `|ks|` when there is none. */
  function FirstOption(ks: seq<Kind>, i: nat): (r: nat)
    requires i <= |ks|
    ensures i <= r <= |ks|
    ensures forall j :: i <= j < r ==> ks[j].Argument?
    ensures r < |ks| ==> !ks[r].Argument?
    decreases |ks| - i
  {
    if i == |ks| || !ks[i].Argument? then i else FirstOption(ks, i + 1)
  }

  /** Where the run of paths starts: the first positional. */
  function PathsStart(ks: seq<Kind>): nat
    ensures PathsStart(ks) <= |ks|
  {
    FirstPositional(ks, 0)
  }

  /** Where the run of paths ends: the first option string after its start. */
  function PathsEnd(ks: seq<Kind>): nat
    ensures PathsStart(ks) <= PathsEnd(ks) <= |ks|
  {
    FirstOption(ks, PathsStart(ks))
  }

  /** Token `j` is left over for the tool: an option the shim does not know,
      or a positional after the run of paths. */
  predicate IsExtra(ks: seq<Kind>, j: nat)
    requires j < |ks|
  {
    ks[j].Unknown? || (IsPositional(ks, j) && PathsEnd(ks) <= j)
  }

  /** The extras among the first `n` tokens, in their order. */
  function Extras(xs: seq<string>, ks: seq<Kind>, n: nat): seq<string>
    requires |ks| == |xs| && n <= |xs|
  {
    if n == 0 then []
    else Extras(xs, ks, n - 1) + (if IsExtra(ks, n - 1) then [xs[n - 1]] else [])
  }

  /** The value token `j` gives setting `s`, if it sets it. */
  function SetAt(xs: seq<string>, ks: seq<Kind>, j: nat, s: Setting): Option<string>
    requires |ks| == |xs| && j < |xs|
  {
    match ks[j]
    case Attached(s', v) => if s' == s then Some(v) else None
    case Bare(s') => if s' == s && j + 1 < |xs| then Some(xs[j + 1]) else None
    case _ => None
  }

  /** The value the last of the first `n` tokens that sets `s` gives it. */
  function LastSet(xs: seq<string>, ks: seq<Kind>, n: nat, s: Setting): Option<string>
    requires |ks| == |xs| && n <= |xs|
  {
    if n == 0 then None
    else if SetAt(xs, ks, n - 1, s).Some? then SetAt(xs, ks, n - 1, s)
    else LastSet(xs, ks, n - 1, s)
  }

  /** `str(Path(..))` of the install directory set last among the first `n`
      tokens, `"."` when none was. */
  function LastInstallDir(xs: seq<string>, ks: seq<Kind>, n: nat): string
    requires |ks| == |xs| && n <= |xs|
  {
    match LastSet(xs, ks, n, SetsInstallDir)
    case Some(d) => NormPath(d)
    case None => NoInstallDir
  }

  /** The parse the roles of the tokens, read as `ks`, describe. */
  function Roles(xs: seq<string>, ks: seq<Kind>): Invocation
    requires |ks| == |xs|
  {
    Invocation(Extras(xs, ks, |xs|), xs[PathsStart(ks)..PathsEnd(ks)], LastInstallDir(xs, ks, |xs|), LastSet(xs, ks, |xs|, SetsVersion))
  }

  /** The parse the roles of the tokens describe. */
  function Classified(xs: seq<string>): Invocation
  {
    Roles(xs, Kinds(xs))
  }

  /** What makes the parse succeed at token `j`: it is not `-h` / `--help`,
      and a bare shim flag has a next token that is an argument. */
  predicate TokenOk(xs: seq<string>, j: nat)
    requires j < |xs|
  {
    !IsHelp(xs[j]) && (IsShimFlag(xs[j]) ==> j + 1 < |xs| && !IsOptionToken(xs[j + 1]))
  }

  // ---------------------------------------------------------------------
  // When the split succeeds
  // ---------------------------------------------------------------------

  /** Both help spellings read as option strings. */
  lemma HelpIsOption(t: string)
    requires IsHelp(t)
    ensures IsOptionToken(t)
  {
    assert ' ' !in t by {
      assert forall k :: 0 <= k < |t| ==> t[k] != ' ';
    }
  }

  /** An argument is not help and not a shim option. */
  lemma ArgumentIsPlain(t: string)
    requires !IsOptionToken(t)
    ensures !IsHelp(t) && !IsShimOption(t)
  {
    if IsHelp(t) {
      HelpIsOption(t);
    }
    if IsShimOption(t) {
      ShimOptionIsOption(t);
    }
  }

  /** The split from token `i` on succeeds exactly when every remaining token
      is fine, whatever was read before. */
  lemma {:induction false} ContinuesFrom(xs: seq<string>, i: nat, acc: Invocation, phase: Phase)
    requires i <= |xs|
    ensures SplitFrom(xs, i, acc, phase).Continue? <==> forall j :: i <= j < |xs| ==> TokenOk(xs, j)
    decreases |xs| - i
  {
    if i < |xs| {
      var t := xs[i];
      var next := if phase == InPaths then AfterPaths else phase;
      if !IsOptionToken(t) {
        ArgumentIsPlain(t);
        if phase == AfterPaths {
          ContinuesFrom(xs, i + 1, acc.(args := acc.args + [t]), AfterPaths);
        } else {
          ContinuesFrom(xs, i + 1, acc.(paths := acc.paths + [t]), InPaths);
        }
      } else if IsHelp(t) {
        assert !TokenOk(xs, i);
      } else if IsShimAssign(t) {
        NoEqualsInFlags();
        ContinuesFrom(xs, i + 1, Assign(acc, Key(t), ExplicitValue(t)), next);
      } else if IsShimFlag(t) {
        if i + 1 == |xs| || IsOptionToken(xs[i + 1]) {
          assert !TokenOk(xs, i);
        } else {
          ArgumentIsPlain(xs[i + 1]);
          assert TokenOk(xs, i + 1);
          ContinuesFrom(xs, i + 2, Assign(acc, t, xs[i + 1]), next);
        }
      } else {
        ContinuesFrom(xs, i + 1, acc.(args := acc.args + [t]), next);
      }
    }
  }

  /** `parse_known_args` returns exactly when no token asks for help and
      every bare `--install-dir` / `--version` is followed by an argument. */
  lemma SplitArgsContinues(xs: seq<string>)
    ensures SplitArgs(xs).Continue? <==> forall j :: 0 <= j < |xs| ==> TokenOk(xs, j)
  {
    ContinuesFrom(xs, 0, Invocation([], [], NoInstallDir, None), BeforePaths);
  }

  // ---------------------------------------------------------------------
  // One step of the split, by kind
  // ---------------------------------------------------------------------

  /** Storing a shim flag's value is putting its setting. */
  lemma AssignIsPut(acc: Invocation, flag: string, value: string)
    requires IsShimFlag(flag)
    ensures Assign(acc, flag, value) == Put(acc, SettingOf(flag), value)
  {
  }

  /** An argument moves the split on by one token. */
  lemma ArgumentStep(xs: seq<string>, i: nat, acc: Invocation, phase: Phase)
    requires i < |xs| && KindOf(xs[i]) == Argument
    ensures SplitFrom(xs, i, acc, phase) ==
      if phase == AfterPaths then SplitFrom(xs, i + 1, acc.(args := acc.args + [xs[i]]), AfterPaths)
      else SplitFrom(xs, i + 1, acc.(paths := acc.paths + [xs[i]]), InPaths)
  {
  }

  /** `--flag=value` moves the split on by one token. */
  lemma AttachedStep(xs: seq<string>, i: nat, acc: Invocation, phase: Phase, s: Setting, v: string)
    requires i < |xs| && KindOf(xs[i]) == Attached(s, v)
    ensures SplitFrom(xs, i, acc, phase) == SplitFrom(xs, i + 1, Put(acc, s, v), if phase == InPaths then AfterPaths else phase)
  {
    AssignIsPut(acc, Key(xs[i]), ExplicitValue(xs[i]));
  }

  /** A bare `--flag` followed by an argument moves the split on by two
      tokens. */
  lemma BareStep(xs: seq<string>, i: nat, acc: Invocation, phase: Phase, s: Setting)
    requires i + 1 < |xs| && KindOf(xs[i]) == Bare(s) && KindOf(xs[i + 1]) == Argument
    ensures SplitFrom(xs, i, acc, phase) == SplitFrom(xs, i + 2, Put(acc, s, xs[i + 1]), if phase == InPaths then AfterPaths else phase)
  {
    BareFlagStep(xs, i, acc, phase);
    AssignIsPut(acc, xs[i], xs[i + 1]);
  }

  /** `-h` or `--help` ends the split with a clean exit. */
  lemma HelpStep(xs: seq<string>, i: nat, acc: Invocation, phase: Phase)
    requires i < |xs| && KindOf(xs[i]) == Help
    ensures SplitFrom(xs, i, acc, phase) == Exit(0, [])
  {
  }

  /** A bare `--flag` without an argument after it is a usage error. */
  lemma BareWithoutValue(xs: seq<string>, i: nat, acc: Invocation, phase: Phase, s: Setting)
    requires i < |xs| && KindOf(xs[i]) == Bare(s) && (i + 1 == |xs| || KindOf(xs[i + 1]) != Argument)
    ensures SplitFrom(xs, i, acc, phase) == Abort(UsageError)
  {
  }

  /** An option the shim does not know moves the split on by one token. */
  lemma UnknownStep(xs: seq<string>, i: nat, acc: Invocation, phase: Phase)
    requires i < |xs| && KindOf(xs[i]) == Unknown
    ensures SplitFrom(xs, i, acc, phase) ==
      SplitFrom(xs, i + 1, acc.(args := acc.args + [xs[i]]), if phase == InPaths then AfterPaths else phase)
  {
  }

  // ---------------------------------------------------------------------
  // What the split computes
  // ---------------------------------------------------------------------

  /** Where the first `i` tokens stand relative to the run of paths, as the
      phase of the split says. */
  predicate PhaseOk(ks: seq<Kind>, i: nat, phase: Phase)
    requires i <= |ks|
  {
    match phase
    case BeforePaths => i <= PathsStart(ks)
    case InPaths => PathsStart(ks) < i <= PathsEnd(ks)
    case AfterPaths => PathsEnd(ks) < i
  }

  /** The part of the run of paths among the first `i` tokens. */
  function PathsSoFar(xs: seq<string>, ks: seq<Kind>, i: nat, phase: Phase): seq<string>
    requires |ks| == |xs| && i <= |xs| && PhaseOk(ks, i, phase)
  {
    match phase
    case BeforePaths => []
    case InPaths => xs[PathsStart(ks)..i]
    case AfterPaths => xs[PathsStart(ks)..PathsEnd(ks)]
  }

  /** The state of the split after the first `i` tokens is what their roles
      give, and token `i` is not the value of a flag already read. */
  ghost predicate SoFar(xs: seq<string>, ks: seq<Kind>, i: nat, acc: Invocation, phase: Phase)
    requires |ks| == |xs| && i <= |xs|
  {
    (i == 0 || !ks[i - 1].Bare?) && PhaseOk(ks, i, phase) &&
    acc == Invocation(Extras(xs, ks, i), PathsSoFar(xs, ks, i, phase), LastInstallDir(xs, ks, i), LastSet(xs, ks, i, SetsVersion))
  }

  /** A token that is no shim option leaves every setting as it was. */
  lemma SetsNothing(xs: seq<string>, ks: seq<Kind>, i: nat)
    requires |ks| == |xs| && i < |xs| && !ks[i].Attached? && !ks[i].Bare?
    ensures LastSet(xs, ks, i + 1, SetsVersion) == LastSet(xs, ks, i, SetsVersion)
    ensures LastInstallDir(xs, ks, i + 1) == LastInstallDir(xs, ks, i)
  {
    assert SetAt(xs, ks, i, SetsVersion) == None && SetAt(xs, ks, i, SetsInstallDir) == None;
  }

  /** The setting other than `s`. */
  function Other(s: Setting): Setting
  {
    if s == SetsVersion then SetsInstallDir else SetsVersion
  }

  /** After a token that sets `s` to `v`, possibly followed by that value,
      `v` is the last value of `s` and the other setting is as it was. */
  lemma LastAfterSet(xs: seq<string>, ks: seq<Kind>, i: nat, n: nat, s: Setting, v: string)
    requires |ks| == |xs| && i < i + n <= |xs| && 1 <= n <= 2
    requires SetAt(xs, ks, i, s) == Some(v) && SetAt(xs, ks, i, Other(s)) == None
    requires n == 2 ==> SetAt(xs, ks, i + 1, SetsVersion) == None && SetAt(xs, ks, i + 1, SetsInstallDir) == None
    ensures LastSet(xs, ks, i + n, s) == Some(v) && LastSet(xs, ks, i + n, Other(s)) == LastSet(xs, ks, i, Other(s))
  {
    if n == 2 {
      SetsNoMore(xs, ks, i + 1);
    }
  }

  /** Putting `v` into `s` of a state that holds the last values of the
      first `i` tokens gives the last values of the first `m`, when `v` is
      the last value of `s` there and the other setting has not changed. */
  lemma PutAgrees(xs: seq<string>, ks: seq<Kind>, i: nat, m: nat, s: Setting, v: string, acc: Invocation)
    requires |ks| == |xs| && i <= m <= |xs|
    requires LastSet(xs, ks, m, s) == Some(v) && LastSet(xs, ks, m, Other(s)) == LastSet(xs, ks, i, Other(s))
    requires acc.installDir == LastInstallDir(xs, ks, i) && acc.version == LastSet(xs, ks, i, SetsVersion)
    ensures Put(acc, s, v).installDir == LastInstallDir(xs, ks, m)
    ensures Put(acc, s, v).version == LastSet(xs, ks, m, SetsVersion)
  {
  }

  /** A token that sets nothing leaves the last values as they were. */
  lemma SetsNoMore(xs: seq<string>, ks: seq<Kind>, i: nat)
    requires |ks| == |xs| && i < |xs|
    requires SetAt(xs, ks, i, SetsVersion) == None && SetAt(xs, ks, i, SetsInstallDir) == None
    ensures LastSet(xs, ks, i + 1, SetsVersion) == LastSet(xs, ks, i, SetsVersion)
    ensures LastSet(xs, ks, i + 1, SetsInstallDir) == LastSet(xs, ks, i, SetsInstallDir)
  {
  }

  /** An argument met while no path has been read starts the paths, and one
      met inside the paths continues them. */
  lemma SoFarPath(xs: seq<string>, ks: seq<Kind>, i: nat, acc: Invocation, phase: Phase)
    requires |ks| == |xs| && i < |xs| && SoFar(xs, ks, i, acc, phase) && phase != AfterPaths && ks[i].Argument?
    ensures SoFar(xs, ks, i + 1, acc.(paths := acc.paths + [xs[i]]), InPaths)
  {
    SetsNothing(xs, ks, i);
    assert IsPositional(ks, i);
    if phase == BeforePaths {
      assert PathsStart(ks) == i;
    }
    assert !IsExtra(ks, i);
    assert xs[PathsStart(ks)..i + 1] == xs[PathsStart(ks)..i] + [xs[i]];
  }

  /** An argument after the paths is forwarded. */
  lemma SoFarLateArgument(xs: seq<string>, ks: seq<Kind>, i: nat, acc: Invocation)
    requires |ks| == |xs| && i < |xs| && SoFar(xs, ks, i, acc, AfterPaths) && ks[i].Argument?
    ensures SoFar(xs, ks, i + 1, acc.(args := acc.args + [xs[i]]), AfterPaths)
  {
    SetsNothing(xs, ks, i);
    assert IsExtra(ks, i);
  }

  /** Reading option strings from token `i` to `i + n` moves the phase on as
      the split does, out of the paths once some were read, and leaves the
      paths read so far as they were. */
  lemma PhaseAfterOption(xs: seq<string>, ks: seq<Kind>, i: nat, n: nat, phase: Phase)
    requires |ks| == |xs| && i < i + n <= |xs| && n <= 2 && PhaseOk(ks, i, phase) && !ks[i].Argument?
    requires n == 2 ==> ks[i].Bare?
    ensures var next := if phase == InPaths then AfterPaths else phase;
      PhaseOk(ks, i + n, next) && PathsSoFar(xs, ks, i + n, next) == PathsSoFar(xs, ks, i, phase)
  {
    assert !IsPositional(ks, i);
    if phase == BeforePaths {
      assert PathsStart(ks) != i;
      if n == 2 {
        assert IsOptionValue(ks, i + 1);
        assert PathsStart(ks) != i + 1;
      }
    }
    if phase == InPaths {
      assert PathsEnd(ks) == i;
    }
  }

  /** Reading `--flag=value` agrees with the roles. */
  lemma SoFarAttached(xs: seq<string>, ks: seq<Kind>, i: nat, acc: Invocation, phase: Phase, s: Setting, v: string)
    requires |ks| == |xs| && i < |xs| && SoFar(xs, ks, i, acc, phase) && ks[i] == Attached(s, v)
    ensures SoFar(xs, ks, i + 1, Put(acc, s, v), if phase == InPaths then AfterPaths else phase)
  {
    assert !IsExtra(ks, i);
    LastAfterSet(xs, ks, i, 1, s, v);
    PutAgrees(xs, ks, i, i + 1, s, v, acc);
    PhaseAfterOption(xs, ks, i, 1, phase);
  }

  /** Reading `--flag value` agrees with the roles. */
  lemma SoFarBare(xs: seq<string>, ks: seq<Kind>, i: nat, acc: Invocation, phase: Phase, s: Setting)
    requires |ks| == |xs| && i + 1 < |xs| && SoFar(xs, ks, i, acc, phase) && ks[i] == Bare(s) && ks[i + 1].Argument?
    ensures SoFar(xs, ks, i + 2, Put(acc, s, xs[i + 1]), if phase == InPaths then AfterPaths else phase)
  {
    assert !IsExtra(ks, i) && !IsExtra(ks, i + 1);
    LastAfterSet(xs, ks, i, 2, s, xs[i + 1]);
    PutAgrees(xs, ks, i, i + 2, s, xs[i + 1], acc);
    PhaseAfterOption(xs, ks, i, 2, phase);
  }

  /** Reading an option the shim does not know agrees with the roles. */
  lemma SoFarUnknown(xs: seq<string>, ks: seq<Kind>, i: nat, acc: Invocation, phase: Phase)
    requires |ks| == |xs| && i < |xs| && SoFar(xs, ks, i, acc, phase) && ks[i].Unknown?
    ensures SoFar(xs, ks, i + 1, acc.(args := acc.args + [xs[i]]), if phase == InPaths then AfterPaths else phase)
  {
    SetsNothing(xs, ks, i);
    assert IsExtra(ks, i);
    PhaseAfterOption(xs, ks, i, 1, phase);
  }

  /** At the end of the tokens, the state is the parse the roles describe. */
  lemma SoFarEnd(xs: seq<string>, ks: seq<Kind>, acc: Invocation, phase: Phase)
    requires |ks| == |xs| && SoFar(xs, ks, |xs|, acc, phase)
    ensures acc == Roles(xs, ks)
  {
    assert PathsSoFar(xs, ks, |xs|, phase) == xs[PathsStart(ks)..PathsEnd(ks)];
  }

  /** `SplitFrom` and `SplitKinds` over the kinds of the tokens are the
      same split. */
  lemma {:induction false} SplitByKinds(xs: seq<string>, i: nat, acc: Invocation, phase: Phase)
    requires i <= |xs|
    ensures SplitFrom(xs, i, acc, phase) == SplitKinds(xs, Kinds(xs), i, acc, phase)
    decreases |xs| - i, 1
  {
    if i < |xs| {
      var ks := Kinds(xs);
      var next := if phase == InPaths then AfterPaths else phase;
      match ks[i]
      case Argument => ArgumentByKinds(xs, i, acc, phase);
      case Help =>
        HelpStep(xs, i, acc, phase);
      case Attached(s, v) =>
        AttachedStep(xs, i, acc, phase, s, v);
        SplitByKinds(xs, i + 1, Put(acc, s, v), next);
      case Bare(s) =>
        if i + 1 < |xs| && ks[i + 1].Argument? {
          BareStep(xs, i, acc, phase, s);
          SplitByKinds(xs, i + 2, Put(acc, s, xs[i + 1]), next);
        } else {
          BareWithoutValue(xs, i, acc, phase, s);
        }
      case Unknown =>
        UnknownStep(xs, i, acc, phase);
        SplitByKinds(xs, i + 1, acc.(args := acc.args + [xs[i]]), next);
    }
  }

  /** The step of `SplitByKinds` for an argument. */
  lemma {:induction false} ArgumentByKinds(xs: seq<string>, i: nat, acc: Invocation, phase: Phase)
    requires i < |xs| && Kinds(xs)[i] == Argument
    ensures SplitFrom(xs, i, acc, phase) == SplitKinds(xs, Kinds(xs), i, acc, phase)
    decreases |xs| - i, 0
  {
    ArgumentStep(xs, i, acc, phase);
    if phase == AfterPaths {
      SplitByKinds(xs, i + 1, acc.(args := acc.args + [xs[i]]), AfterPaths);
    } else {
      SplitByKinds(xs, i + 1, acc.(paths := acc.paths + [xs[i]]), InPaths);
    }
  }

  /** From any state that agrees with the roles, a split that returns
      returns the parse the roles describe. */
  lemma {:induction false} ExactFrom(xs: seq<string>, ks: seq<Kind>, i: nat, acc: Invocation, phase: Phase)
    requires |ks| == |xs| && i <= |xs| && SoFar(xs, ks, i, acc, phase)
    ensures SplitKinds(xs, ks, i, acc, phase).Continue? ==> SplitKinds(xs, ks, i, acc, phase).value == Roles(xs, ks)
    decreases |xs| - i, 1
  {
    if i == |xs| {
      SoFarEnd(xs, ks, acc, phase);
    } else {
      var next := if phase == InPaths then AfterPaths else phase;
      match ks[i]
      case Argument => ExactArgument(xs, ks, i, acc, phase);
      case Help =>
      case Attached(s, v) =>
        SoFarAttached(xs, ks, i, acc, phase, s, v);
        ExactFrom(xs, ks, i + 1, Put(acc, s, v), next);
      case Bare(s) =>
        if i + 1 < |xs| && ks[i + 1].Argument? {
          SoFarBare(xs, ks, i, acc, phase, s);
          ExactFrom(xs, ks, i + 2, Put(acc, s, xs[i + 1]), next);
        }
      case Unknown =>
        SoFarUnknown(xs, ks, i, acc, phase);
        ExactFrom(xs, ks, i + 1, acc.(args := acc.args + [xs[i]]), next);
    }
  }

  /** The step of `ExactFrom` for an argument. */
  lemma {:induction false} ExactArgument(xs: seq<string>, ks: seq<Kind>, i: nat, acc: Invocation, phase: Phase)
    requires |ks| == |xs| && i < |xs| && SoFar(xs, ks, i, acc, phase) && ks[i].Argument?
    ensures SplitKinds(xs, ks, i, acc, phase).Continue? ==> SplitKinds(xs, ks, i, acc, phase).value == Roles(xs, ks)
    decreases |xs| - i, 0
  {
    if phase == AfterPaths {
      SoFarLateArgument(xs, ks, i, acc);
      ExactFrom(xs, ks, i + 1, acc.(args := acc.args + [xs[i]]), AfterPaths);
    } else {
      SoFarPath(xs, ks, i, acc, phase);
      ExactFrom(xs, ks, i + 1, acc.(paths := acc.paths + [xs[i]]), InPaths);
    }
  }

  /** `_parse_args`, when it returns, gives: as args, every option the shim
      does not know and every positional after the first run, in order; as
      paths, that first run of positionals; as version and install
      directory, the values of the last tokens that set them (the install
      directory through `Path`). */
  lemma SplitArgsExact(xs: seq<string>)
    ensures SplitArgs(xs).Continue? ==> SplitArgs(xs).value == Classified(xs)
  {
    var init := Invocation([], [], NoInstallDir, None);
    SplitByKinds(xs, 0, init, BeforePaths);
    ExactFrom(xs, Kinds(xs), 0, init, BeforePaths);
  }
}
