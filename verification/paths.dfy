/** The host the shim runs on, and the little of `pathlib` it relies on.

    Everything the shim learns from outside (the filesystem, the `PATH`, child
    processes, decoding of their output) comes from a `Host` value, so the
    shim's decisions are pure functions of their inputs. Paths are handled as
    `str(Path(p))` would print them. */
module Paths {
  import opened Base
  import opened Text

  /** What the shim can observe about its environment.
      - `existing`: normalised paths for which `Path.exists()` holds;
      - `regularFiles`: normalised paths for which `Path.is_file()` holds;
      - `onPath`: command names `shutil.which` finds;
      - `resolve`: `str(Path(p).resolve())`;
      - `run`: the finished child process for an argv;
      - `decode`: `bytes.decode()` as UTF-8, `None` where it would raise;
      - `contents`: a file's bytes before the tool runs, `None` if it is missing;
      - `edited`: a file's bytes read back after the tool ran. */
  datatype Host = Host(
    existing: set<string>,
    regularFiles: set<string>,
    onPath: set<string>,
    resolve: string -> string,
    run: seq<string> -> ExecResult,
    decode: seq<byte> -> Option<string>,
    contents: string -> Option<seq<byte>>,
    edited: string -> Option<seq<byte>>)

  /** The components `Path` keeps from the pieces of a split on `/`: empty
      pieces (from `//` or a trailing `/`) and `.` are dropped. */
  function Components(pieces: seq<string>): (r: seq<string>)
    ensures |r| <= |pieces|
    ensures forall i :: 0 <= i < |r| ==> r[i] != "" && r[i] != "."
    ensures (forall i :: 0 <= i < |pieces| ==> '/' !in pieces[i]) ==>
      forall i :: 0 <= i < |r| ==> '/' !in r[i]
    decreases |pieces|
  {
    if |pieces| == 0 then []
    else if pieces[0] == "" || pieces[0] == "." then Components(pieces[1..])
    else [pieces[0]] + Components(pieces[1..])
  }

  /** Pieces that are already components pass through unchanged. */
  lemma {:induction false} ComponentsKeep(pieces: seq<string>)
    requires forall i :: 0 <= i < |pieces| ==> pieces[i] != "" && pieces[i] != "."
    ensures Components(pieces) == pieces
    decreases |pieces|
  {
    if |pieces| > 0 {
      ComponentsKeep(pieces[1..]);
    }
  }

  predicate IsAbsolute(p: string) {
    |p| > 0 && p[0] == '/'
  }

  /** `str(Path(p))`: components joined by single slashes, a leading `/` kept,
      and `.` for a path with no components. */
  function NormPath(p: string): (r: string)
    ensures |r| > 0
  {
    var comps := Components(Split(p, '/'));
    if IsAbsolute(p) then "/" + Join(comps, '/')
    else if |comps| == 0 then "."
    else Join(comps, '/')
  }

  /** A normalised path is its own normal form, so comparing `Path` objects
      is comparing their `NormPath`s. */
  lemma NormPathIdempotent(p: string)
    ensures NormPath(NormPath(p)) == NormPath(p)
  {
    var comps := Components(Split(p, '/'));
    var body := Join(comps, '/');
    if |comps| > 0 {
      SplitJoin(comps, '/');
      ComponentsKeep(comps);
      if IsAbsolute(p) {
        assert "/" + body == [] + ['/'] + body;
        SplitCons([], '/', body);
        assert Components(Split("/" + body, '/')) == Components(Split(body, '/'));
      }
    } else if IsAbsolute(p) {
      assert "/"[1..] == "";
      assert Split("/", '/') == ["", ""];
      assert Components(Split("/", '/')) == [];
      assert NormPath(p) == "/";
      assert Join(Components(Split("/", '/')), '/') == [];
      assert NormPath("/") == "/" + [];
    } else {
      SplitFirst(".", '/');
    }
  }

  /** `Path(dir).joinpath(name)`: an absolute name replaces the directory, an
      empty directory contributes nothing. */
  function JoinPath(dir: string, name: string): (r: string)
    ensures NormPath(r) == r
  {
    NormPathIdempotent(name);
    NormPathIdempotent(dir + "/" + name);
    if IsAbsolute(name) || dir == "" then NormPath(name) else NormPath(dir + "/" + name)
  }

  /** `Path(p).name`: the last component, empty for `/` and `.`. */
  function FinalName(p: string): (r: string)
    ensures '/' !in r
  {
    var comps := Components(Split(p, '/'));
    if |comps| == 0 then "" else comps[|comps| - 1]
  }

  /** `str.rfind('.')`: the position of the last dot. */
  function LastDot(name: string): (r: Option<nat>)
    ensures r.Some? ==> r.value < |name| && name[r.value] == '.' && '.' !in name[r.value + 1..]
    ensures r.None? ==> '.' !in name
    decreases |name|
  {
    if |name| == 0 then None
    else if name[|name| - 1] == '.' then Some(|name| - 1)
    else
      var r := LastDot(name[..|name| - 1]);
      if r.Some? then
        assert name[r.value + 1..] == name[..|name| - 1][r.value + 1..] + [name[|name| - 1]];
        r
      else
        assert name == name[..|name| - 1] + [name[|name| - 1]];
        r
  }

  /** `Path(p).suffix`: from the last dot of the final name, provided that dot
      is neither the first nor the last character. */
  function Suffix(p: string): string
  {
    var name := FinalName(p);
    match LastDot(name)
    case Some(i) => if 0 < i < |name| - 1 then name[i..] else ""
    case None => ""
  }

  /** A path has the suffix `.py` exactly when its final name is some
      non-empty stem followed by `.py`; a bare `.py` is a hidden file with no suffix. */
  lemma PySuffixIff(p: string)
    ensures Suffix(p) == ".py" <==>
      exists stem :: |stem| > 0 && FinalName(p) == stem + ".py"
  {
    var name := FinalName(p);
    var n := |name|;
    if Suffix(p) == ".py" {
      var i := LastDot(name).value;
      assert name == name[..i] + ".py";
    }
    if stem :| |stem| > 0 && name == stem + ".py" {
      assert name[n - 3] == '.' && name[n - 3 + 1..] == "py";
      assert name[n - 2] == 'p' && name[n - 1] == 'y';
      var r := LastDot(name);
      assert r.Some?;
      forall k | r.value < k < n ensures name[k] != '.' {
        assert name[k] == name[r.value + 1..][k - r.value - 1];
      }
      assert r.value == n - 3;
    }
  }

  /** The hook's install directory, spelled with a trailing slash, and the
      empty path. */
  lemma NormPathExamples()
    ensures NormPath("cli/") == "cli"
    ensures NormPath("") == "."
    ensures NormPath("./") == "."
  {
    assert "cli/" == "cli" + ['/'] + "";
    SplitCons("cli", '/', "");
    assert "./" == "." + ['/'] + "";
    SplitCons(".", '/', "");
  }

  /** A directory name and a file name, each a single component, join into
      a path that is already normal and whose final name is the file name. */
  lemma TwoComponents(dir: string, name: string)
    requires '/' !in dir && dir != "" && dir != "."
    requires '/' !in name && name != "" && name != "."
    ensures NormPath(dir + "/" + name) == dir + "/" + name
    ensures FinalName(dir + "/" + name) == name
  {
    var p := dir + "/" + name;
    assert p == dir + ['/'] + name;
    SplitCons(dir, '/', name);
    SplitFirst(name, '/');
    ComponentsKeep([dir, name]);
    assert [dir, name][1..] == [name];
    assert Join([dir, name], '/') == p;
    assert !IsAbsolute(p) by {
      assert p[0] == dir[0];
    }
  }

  /** The mock tool inside the install directory. */
  lemma MockToolJoin()
    ensures JoinPath("cli", "__main__.py") == "cli/__main__.py"
  {
    TwoComponents("cli", "__main__.py");
  }

  /** A script `stem.py` inside a directory has suffix `.py`. */
  lemma ScriptSuffix(dir: string, stem: string)
    requires '/' !in dir && dir != "" && dir != "."
    requires '/' !in stem && stem != ""
    ensures Suffix(dir + "/" + stem + ".py") == ".py"
  {
    var name := stem + ".py";
    assert '/' !in name && name != "." by {
      assert name[|name| - 1] == 'y';
      assert forall k :: 0 <= k < |name| ==> name[k] == '/' ==> k < |stem| && stem[k] == '/';
    }
    TwoComponents(dir, name);
    assert dir + "/" + stem + ".py" == dir + "/" + name;
    PySuffixIff(dir + "/" + name);
  }

  /** A hidden file named `.py` has no suffix. */
  lemma HiddenFileSuffix()
    ensures Suffix(".py") == ""
  {
    SplitFirst(".py", '/');
    assert LastDot(".py") == Some(0);
  }
}
