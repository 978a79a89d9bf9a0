# CliPy-Hooks shim, modelled in Dafny

CliPy-Hooks is a thin adapter ("shim") that lets a pre-commit hook run a
command-line lint or format tool. The repository has two near-duplicate
shims with different semantics, and this project models both side by side:

- `pre_commit_pycli/cli.py` (the older one), modelled in `pycli.dfy` and
  `pycli_formatter.dfy`:
  - `parse_args` walks every token and removes added files;
  - a `--version...` token runs a prefix check that always ends the
    process;
  - an `--install-path...` token takes the token after its first
    occurrence;
  - `add_if_missing` merges default options by key;
  - `check_installed`;
  - `FormatterCmd`: splits the file and the formatter's output into lines
    on LF, compares them, appends a report for each differing file and
    latches the return code at 1.
- `clipy_hooks/cli.py` (the newer one), modelled in `clipy.dfy` and
  `clipy_tokens.dfy`:
  - `_parse_args` is an argparse `parse_known_args` over `--install-dir`,
    `--version` and a `paths` positional; `clipy_tokens.dfy` describes its
    result a second way, by the role each token plays, and proves the two
    agree;
  - a substring version check that lets the run continue;
  - `check_installed` with its regular-file test and optional help URL;
  - argv assembly with a `python` prefix for `.py` tools;
  - `StaticAnalyzerCmd.run_command` / `exit_on_error`.

The other modules hold what both variants share:

- `base.dfy`: bytes, `Option`, the child-process result, and the shim's
  output buffers. It also defines `Outcome`, which replaces `sys.exit` /
  `SystemExit` with a value:
  - `Continue(value)`;
  - `Exit(code, stderr bytes)`;
  - `Abort(exception kind)`, for exceptions the shim does not catch and for
    argparse usage errors.
- `text.dfy`: the Python string and list operations the shims rely on:
  - `in`, slicing and `list.index` / `list.remove`;
  - `str.replace(x, "")`, `split` / `join`;
  - UTF-8 `encode`.
- `diagnostics.dfy`: `raise_error`'s one format,
  `Problem with <cmd>: <problem>\n<details>\n`.
- `version.dfy`: the version regex `(?:\d+\.)+[\d+_\+\-a-z]+` as a
  leftmost, longest search, and both version policies.
- `paths.dfy`: the `Host` the shim observes and the part of `pathlib` it
  uses:
  - `Host` covers the filesystem, `PATH`, child processes, decoding and
    file contents;
  - `pathlib`: `str(Path(p))`, `joinpath`, `name` and `suffix`.

All I/O is a parameter:

- A `Host` value says which paths exist, which are regular files, and
  which commands `shutil.which` finds.
- It also gives what `resolve()` returns, what each argv's child process
  returns, how bytes decode, and the bytes of each file before and after
  the tool ran.
- The hunk text of `difflib.unified_diff` is a function parameter of the
  formatter.

Behaviour of the code a reader may not expect:

- With `edit_in_place`, `compare_to_formatted` still calls
  `get_formatted_lines`. A formatter that writes to stderr or exits
  non-zero therefore fails the run even in place; it is not simply ignored.
- The formatter's empty stdout gives no lines, while an empty file gives
  one empty line. An empty file checked against a formatter that prints
  nothing is therefore reported as a difference, not only a non-empty one
  (`PycliFormatter.EmptyFileIsReported`).
- The older `parse_args` does not take its own options out of the
  forwarded args: only added files are removed. `--install-path` stays in
  `args`. Its value stays unless it is also an added file, which it is
  whenever it was passed on the hook's own command line, because
  `get_added_files` keeps every existing path in `sys.argv[1:]` that does
  not end in `.cfg` and the install path must exist.
- The older `check_installed` only asks `exists()`, and always prints the
  "For more info" line. The newer one also asks `is_file()`, and prints
  that line only when a help URL is set.

## Model

| member | source | states |
|---|---|---|
| `Diagnostics.RaiseError` | pre_commit_pycli/cli.py:141-149 | the process exits with code 1, and stderr is the UTF-8 encoding of the diagnostic text built from command, problem and details |
| `Diagnostics.RaiseErrorLayout` | pre_commit_pycli/cli.py:144-146 | the stderr bytes are the UTF-8 of `Problem with <cmd>: <problem>\n`, then the encoded details, then one LF byte |
| `Diagnostics.DiagnosticRoundTrip` | clipy_hooks/cli.py:88-96 | for a one-line problem, the diagnostic text parses back to exactly its problem and details, so the format loses nothing |
| `Version.VersionShape` | clipy_hooks/cli.py:104 | every token matched by the version group starts with a digit, holds a dot, and has only digits, dots, lower-case letters, `_`, `+` and `-` |
| `Version.MatchEnd` | pre_commit_pycli/cli.py:157 | at a given start, the end of the longest version token there; none exactly when no token starts there |
| `Version.MatchAt` | pre_commit_pycli/cli.py:157-158 | a hit at a position means the look-behind is there and is followed by a longest version token; no hit means the look-behind is absent there or no version token follows it |
| `Version.Group` | clipy_hooks/cli.py:105-109 | `search.group(1)` is a version token, and look-behind plus that token occur in the output at the hit's start |
| `Version.SearchFromLeftmost` | clipy_hooks/cli.py:104-105 | `re.search` is leftmost: no look-behind-plus-version match starts before the reported hit, and none at all when the search is empty |
| `Version.GetVersionStr` | pre_commit_pycli/cli.py:151-163 | the result is the version token of the leftmost match, taken at its longest, right after the look-behind in the output; when nothing matches anywhere, exit 1 with problem "getting version" and the "format has changed" details |
| `Version.LeftmostLongestUnique` | clipy_hooks/cli.py:104-109 | at most one start and end are leftmost and longest, so the reported version is determined by the output |
| `Version.MockToolVersion` | tests/cli/__main__.py:10 | the mock tool's output `CLI 1.0.0\n` yields `1.0.0` |
| `Version.AssertPrefix` | pre_commit_pycli/cli.py:127-139 | never returns normally; exits 0 with empty stderr iff expected is a prefix of actual, else exits 1 with "Version of <cmd> is wrong" and details without ". " before "Edit" |
| `Version.AssertContains` | clipy_hooks/cli.py:76-86 | continues iff expected occurs as a contiguous substring of actual; otherwise exits 1 with "Version of <cmd> is wrong." and both versions |
| `Version.PolicyEdges` | pre_commit_pycli/cli.py:129-130 | an empty expected version passes both policies; one longer than the actual version fails both |
| `Version.PrefixPassImpliesContainsPass` | clipy_hooks/cli.py:78 | every version the older policy accepts, the newer accepts too |
| `Version.ContainsPassButPrefixFail` | pre_commit_pycli/cli.py:130 | the converse fails: `1.0.0` is inside `11.0.0` but is not its prefix |
| `Version.MockToolPolicies` | tests/test_cli.py:34-44 | against `1.0.0`, `1.0.0` passes and `1.0.1` fails under both policies, and the prefix policy accepts `1.0` |
| `Version.SelfMatch` | clipy_hooks/cli.py:78 | any version passes both policies against itself |
| `Paths.PySuffixIff` | clipy_hooks/cli.py:120 | `Path(p).suffix == ".py"` iff the final name is a non-empty stem followed by `.py` |
| `Paths.ScriptSuffix` | clipy_hooks/cli.py:120 | a script `dir/stem.py` has suffix `.py`, so it runs through `python` |
| `Paths.HiddenFileSuffix` | clipy_hooks/cli.py:120 | a bare `.py` has no suffix, as `pathlib` treats it as a hidden file's name |
| `Paths.NormPathExamples` | tests/conftest.py:12 | `Path("cli/")` prints as `cli`; `Path("")` and `Path("./")` print as `.` |
| `Pycli.ExeAsWrittenMissesSeparator` | pre_commit_pycli/cli.py:153 | for any normalised absolute install path other than `/`, the path `check_installed` looked for is `install_path + "/" + command`, and `install_path + command` is one character shorter, so it names a different file |
| `Pycli.ExeAsWrittenExample` | pre_commit_pycli/cli.py:175 | with install path `/opt`, the shim launches `/optclang-format` although it checked `/opt/clang-format` |
| `Pycli.CheckInstalled` | pre_commit_pycli/cli.py:41-59 | passes iff the command is on the PATH (no install path) or `install_path/command` exists; else exits 1 with "<cmd> not found", the place looked in and always the "For more info" line |
| `Pycli.CheckedExeExists` | pre_commit_pycli/cli.py:43-48 | after `check_installed` passes, the executable the corrected model launches is on the PATH or exists |
| `Pycli.ExpectedVersionNext` | pre_commit_pycli/cli.py:92-93 | a bare `--version` that is not the last token asks for the next token |
| `Pycli.ExpectedVersionTrailing` | pre_commit_pycli/cli.py:95-98 | a bare `--version` as the last token asks for the empty version |
| `Pycli.ExpectedVersionInline` | pre_commit_pycli/cli.py:94-98 | `--version=v` asks for `v` when `v` holds no space, no `=` and no `--version` |
| `Pycli.ExpectedVersionExamples` | pre_commit_pycli/cli.py:90-98 | `--version=8.0.0` and `--version 8.0.0` both ask for `8.0.0` |
| `Pycli.RemoveOrRaise` | pre_commit_pycli/cli.py:88-89 | `list.remove` succeeds iff the value is present, and then takes away its first copy and keeps the order of the rest; otherwise `ValueError` |
| `Pycli.ToolVersion` | pre_commit_pycli/cli.py:151-163 | a failed UTF-8 decode of the tool's `--version` output is `UnicodeDecodeError`; otherwise the result is `get_version_str` of the decoded output with the shim's look-behind, a version token when one is found |
| `Pycli.VersionStep` | pre_commit_pycli/cli.py:90-100 | a `--version...` token always ends the process; it exits 0 iff the tool's version starts with the expected one |
| `Pycli.InstallStep` | pre_commit_pycli/cli.py:101-110 | the token after the first occurrence is the path, whatever the token's spelling; no such token is `IndexError`; a missing path exits 1 with "Install path argument is invalid."; otherwise the install path is the resolved path |
| `Pycli.Step` | pre_commit_pycli/cli.py:87-110 | one loop iteration: `ValueError` iff the token is a removable file no longer in args; a removable token loses its first copy, others leave args alone; only install tokens change the install path |
| `Pycli.ScanInvariant` | pre_commit_pycli/cli.py:87-110 | from any point of the loop, args stay "kept tokens so far plus untouched rest", `ValueError` never happens, and a loop that returns met no version token |
| `Pycli.ParseArgsSpec` | pre_commit_pycli/cli.py:84-110 | if the hook name is not an added file: no `ValueError`; on return, args are `argv[1:]` without the removable tokens (shim tokens included), the install path is that of the last install token, and no token asked for a version |
| `Pycli.MockToolVersionCheck` | pre_commit_pycli/cli.py:127-139 | with the mock tool of tests/cli/__main__.py:10, `--version 1.0.0` exits 0, `--version 1.0.1` exits 1 and `--version 1.0` exits 0; the older shim exits 0 on a match, while tests/test_cli.py:34-38 expects `parse_args()` to return `None`, which is the newer shim's behaviour |
| `Pycli.KeyOfForms` | pre_commit_pycli/cli.py:120-122 | the key of `--key=value` is `--key`, and a token without `=` is its own key |
| `Pycli.HasKey` | pre_commit_pycli/cli.py:121-124 | the loop finds the key iff some existing arg has that key |
| `Pycli.AddIfMissing` | pre_commit_pycli/cli.py:112-125 | args are unchanged when some arg has the default's key, else the defaults are appended |
| `Pycli.AddIfMissingKeeps` | pre_commit_pycli/cli.py:121-125 | existing args are never changed or reordered, and afterwards the default's key is set |
| `Pycli.AddIfMissingIdempotent` | pre_commit_pycli/cli.py:112-125 | adding a default twice is adding it once |
| `Pycli.AddIfMissingKeepsUserChoice` | pre_commit_pycli/cli.py:117-118 | a user's `--key=mine` beats the default `--key=theirs` |
| `Pycli.AddIfMissingAppendsDefault` | pre_commit_pycli/cli.py:125 | a flag with another name leaves room for the default, appended at the end |
| `PycliFormatter.FileLines` | pre_commit_pycli/cli.py:233-241 | a missing file exits 1 with "File <f> not found"; otherwise the lines joined by LF give back the file, and there is one more line than LFs |
| `PycliFormatter.FormatterArgv` | pre_commit_pycli/cli.py:221 | the formatter's argv is the executable first, then the args unchanged and in order, and the file name last |
| `PycliFormatter.FormattedLines` | pre_commit_pycli/cli.py:219-231 | succeeds iff the formatter wrote no stderr and exited 0; empty stdout gives no lines; otherwise the lines joined by LF give back stdout, and there is one more line than LFs; failures exit 1 or are a decode error |
| `PycliFormatter.UnifiedDiff` | pre_commit_pycli/cli.py:205-213 | the diff is empty iff the line lists are equal, and otherwise opens with the `--- original` and `+++ formatted` lines |
| `PycliFormatter.ReportShape` | pre_commit_pycli/cli.py:214-216 | a report is the file name, LF, twenty `=`, LF, then the diff starting with both header lines, and it ends with LF |
| `PycliFormatter.CompareToFormatted` | pre_commit_pycli/cli.py:195-217 | continues iff both line lists could be read; a report is appended and the code set to 1 iff they differ; otherwise the buffers are untouched |
| `PycliFormatter.CheckAllLatch` | pre_commit_pycli/cli.py:214-217 | over any list of files, stdout is untouched, stderr only grows, and the code ends at 1 iff some file differed, else keeps its starting value |
| `PycliFormatter.EmptyFileIsReported` | pre_commit_pycli/cli.py:229-231 | an empty file against a formatter that prints nothing and succeeds is reported, with code 1 |
| `PycliFormatter.FormattedFilePasses` | pre_commit_pycli/cli.py:199-214 | a non-empty file the formatter reproduces byte for byte passes with the buffers unchanged |
| `PycliFormatter.UnchangedFilePassesInPlace` | pre_commit_pycli/cli.py:201-204 | in place, a file the tool left alone passes whatever the tool printed |
| `Clipy.ExplicitValue` | clipy_hooks/cli.py:64-65 | `--flag=value` is the key, `=`, and the explicit value |
| `Clipy.Assign` | clipy_hooks/cli.py:64-68 | storing a shim option touches neither args nor paths; `--version` sets the version, `--install-dir` sets `Path(value)` |
| `Clipy.SplitFrom` | clipy_hooks/cli.py:63-67 | the split only ever exits 0 (help) or raises argparse's usage error; on success, args and paths only grow (what they hold is `ClipyTokens.SplitArgsExact`) |
| `Clipy.SplitArgsSpec` | clipy_hooks/cli.py:60-69 | neither shim option, in either spelling, is forwarded; paths are never options; args and paths are drawn from the tokens without duplication (multiset); a version is set iff a `--version` token was given; the install dir stays `Path()` unless `--install-dir` was given; `ClipyTokens.SplitArgsExact` pins the contents down exactly |
| `ClipyTokens.SplitArgsContinues` | clipy_hooks/cli.py:60-67 | `parse_known_args` returns iff no token is `-h` / `--help` and every bare `--install-dir` / `--version` is followed by an argument |
| `ClipyTokens.SplitByKinds` | clipy_hooks/cli.py:63-67 | the split depends on each token only through its kind: argument, help, shim option with attached value, bare shim flag, or unknown option |
| `ClipyTokens.SplitArgsExact` | clipy_hooks/cli.py:60-69 | on return, args are every unknown option and every positional after the first run of positionals, in order; paths are that first run; version and install dir come from the last token that sets each, the install dir through `Path`, else `None` and `Path()` |
| `Clipy.InstallDirThenPath` | clipy_hooks/cli.py:60-69 | `prog --install-dir D P` gives install dir `Path(D)`, paths `[P]` and no args |
| `Clipy.FixtureArgs` | clipy_hooks/cli.py:60-69 | as an example with a program name in front, `prog --install-dir cli/ cli/__init__.py` gives install dir `cli`, paths `[cli/__init__.py]` and args `[]` |
| `Clipy.FixtureWithoutProgramName` | tests/conftest.py:16-19 | without a program name in front, `--install-dir` is the token dropped and both remaining tokens become paths |
| `Clipy.CleanArgsForwarded` | clipy_hooks/cli.py:61-67 | a list of options the shim does not know is forwarded unchanged and in order, with no paths and both defaults |
| `Clipy.UnknownOptionsForwarded` | clipy_hooks/cli.py:60-67 | after the program name, two unknown options are forwarded in order |
| `Clipy.MockFlagsForwarded` | tests/cli/__main__.py:12-13 | the mock tool's `--a-flag` and `--an-arg=x` are forwarded unchanged |
| `Clipy.LastVersionWins` | clipy_hooks/cli.py:65 | with `--version` given twice, the later value is the one kept |
| `Clipy.TrailingVersionFlag` | clipy_hooks/cli.py:65-67 | a bare `--version` as the last token is argparse's usage error |
| `Clipy.ExecArgv` | clipy_hooks/cli.py:111-121 | argv has length `len(args)+2` with `python, exe` in front when the suffix is `.py`, else `len(args)+1` with `exe` first, and always ends with `args` |
| `Clipy.MockToolArgv` | clipy_hooks/cli.py:114-121 | the mock tool in install dir `cli` runs as `python <resolved cli/__main__.py> --version` |
| `Clipy.ToolVersion` | clipy_hooks/cli.py:98-109 | a failed UTF-8 decode of the tool's `--version` output is `UnicodeDecodeError`; otherwise the result is `get_version_str` of the decoded output with no look-behind: a version token, or exit 1 when there is none |
| `Clipy.ParseArgs` | clipy_hooks/cli.py:54-74 | the version check runs iff a `--version` value was supplied; then the run continues, with the parse unchanged, iff the expected text occurs in the tool's version |
| `Clipy.VersionMismatch` | clipy_hooks/cli.py:80-86 | a failed check exits with the wrong-version diagnostic naming both versions |
| `Clipy.CheckInstalled` | clipy_hooks/cli.py:35-52 | with an install dir, passes iff `dir/command` exists and is a regular file; otherwise iff the command is on the PATH; the failure names `at '<dir>'` or `and on your PATH`, with a "For more info" line iff a help URL is set |
| `Clipy.CheckedExecutable` | clipy_hooks/cli.py:37-42 | after `check_installed` passes, the launched executable is the resolved regular file in the install dir, or a command on the PATH |
| `Clipy.ExitOnError` | clipy_hooks/cli.py:145-152 | continues iff the code is 0; otherwise exits with that same non-zero code after writing stdout then stderr |
| `Clipy.RunCommand` | clipy_hooks/cli.py:135-143 | returns (true) iff installed and the tool exits 0, with the tool's output appended to the buffers; a failing tool exits with its own code and all buffered output; a missing tool exits 1 with the not-found diagnostic |
| `Clipy.AnalyzerArgvOrder` | clipy_hooks/cli.py:138 | the analyser's argv ends with the forwarded args followed by the paths |
| `Clipy.FailingToolExits` | tests/test_cli.py:52-56 | a tool exiting 1 on fresh buffers ends the run with code 1 and exactly its stdout followed by its stderr |

## Left out

- `get_added_files` (pre_commit_pycli/cli.py:61-82) is left out, because it reads `sys.argv`, checks the filesystem and runs `git diff`. The added files are an input field of `Pycli.Shim`.
- The older `StaticAnalyzerCmd.run_command` / `exit_on_error` (pre_commit_pycli/cli.py:169-189) are left out. Apart from a process launch through the host, they do what the newer pair does, which is modelled, except in these ways:
  - it takes the argv tail as a parameter, while the newer one launches `self.args + self.paths`;
  - it returns `None`, while the newer one returns whether the exit code was 0;
  - it adds no `python` prefix for `.py` tools and does not `resolve()` the executable;
  - it calls the older `check_installed`, which only asks `exists()`;
  - it launches `install_path + command`; see Findings.
- Process execution, `shutil.which`, `Path.exists` / `is_file` / `resolve`, and file reads are not modelled as behaviour. They are fields of `Paths.Host`.
- Spawn failures are not modelled. `sp.run` raising `FileNotFoundError` does not occur, because every argv yields a result.
- `os.path.exists` holding for a directory is not modelled. A directory would make `open` fail, but the file-content oracle does not tell directories apart.
- UTF-8 decoding is an oracle (`Host.decode`). Only UTF-8 encoding is spelled out.
- The writes to `sys.stderr` are not modelled as I/O. Each is the `stderr` bytes of `Outcome.Exit`.
- `difflib.unified_diff`'s hunk lines are a function parameter. Only "empty iff equal" and the two header lines are modelled.
- `repr` of the argv in the formatter's error message does not escape quotes or backslashes.
- argparse is modelled only in part:
  - option abbreviations (`--ver`, `--install`) are not recognised;
  - `--` is not treated as the end of options;
  - negative-number arguments such as `-1` count as options;
  - the forms `-h=...` and `--help=...` are not handled;
  - usage errors and help are outcomes without their printed text.
- `Path` normalisation does not keep the double slash of a path starting with exactly `//`.
- The look-behind of the older variant is a regex fragment in the source. It is treated as a literal prefix.
- In the version regex, `\d` means the ASCII digits only.
- `Pycli.ToolVersion`: launches `install_path/command`, the corrected executable of the Findings row, not the `install_path + command` of pre_commit_pycli/cli.py:153. `Pycli.ExeAsWrittenMissesSeparator` states how the two differ.
- `Pycli.VersionStep`: compares against the version of that corrected executable, through `Pycli.ToolVersion`.
- `PycliFormatter.FormatterArgv`: puts the corrected executable first, not the `install_path + command` of pre_commit_pycli/cli.py:221.
- `PycliFormatter.FormattedLines`: runs the formatter through `PycliFormatter.FormatterArgv`, so it launches the corrected executable too.
- `Pycli.AddIfMissing`: requires at least one new arg. The source would raise `IndexError` on an empty list, and its docstring says callers pass one or two.
- `Pycli.ParseArgsSpec`: assumes the hook's own name is not an added file. Otherwise `list.remove` would raise on the first token, which `Pycli.Step` models.
- `Clipy.ParseArgs`: argparse's `SystemExit(2)` for usage errors is `Abort(UsageError)`, and `-h` is `Exit(0, [])`, since the help text goes to stdout.

## Findings

| source | as written | input that shows it | evidently intended | confidence | as-written member | corrected member |
|---|---|---|---|---|---|---|
| pre_commit_pycli/cli.py:153 | the executable is `self.install_path + self.command`, with no path separator (the same at lines 175 and 221), while `check_installed` looks for `Path(install_path).joinpath(command)`; `install_path` is a resolved path, which never ends in `/` unless it is the root `/` itself | install path `/opt`, command `clang-format`: the shim checks `/opt/clang-format` but launches `/optclang-format` | launch `install_path/command`, the file `check_installed` vouched for | not executed | `Pycli.ExeAsWrittenMissesSeparator` | `Pycli.CheckedExeExists` |
