/** VersionGuard: pulling a version number out of a tool's `--version` output
    and the two policies the variants use to compare it with the expected one.

    The pattern both variants search with is
        look_behind + ((?:\d+\.)+[\d+_\+\-a-z]+)
    (the newer variant has no look-behind). A token matched by the group is
    one or more "digits then dot" groups followed by a cluster of digits,
    lower-case letters, `_`, `+` and `-`. Because a digit run must be followed
    by `.` to form a group, the split of a token into groups is forced, and
    that is what `IsVersion` spells out. */
module Version {
  import opened Base
  import opened Text
  import opened Diagnostics

  predicate IsDigit(c: char) { '0' <= c <= '9' }

  /** A character of the trailing cluster `[\d+_\+\-a-z]`. */
  predicate IsClusterChar(c: char) {
    IsDigit(c) || c == '+' || c == '_' || c == '-' || 'a' <= c <= 'z'
  }

  /** End of the digit run of `t` that starts at `i`. */
  function DigitEnd(t: string, i: nat): (j: nat)
    requires i <= |t|
    ensures i <= j <= |t|
    ensures forall k :: i <= k < j ==> IsDigit(t[k])
    ensures j < |t| ==> !IsDigit(t[j])
    decreases |t| - i
  {
    if i < |t| && IsDigit(t[i]) then DigitEnd(t, i + 1) else i
  }

  /** End of the run of cluster characters of `t` that starts at `i`. */
  function ClusterEnd(t: string, i: nat): (j: nat)
    requires i <= |t|
    ensures i <= j <= |t|
    ensures forall k :: i <= k < j ==> IsClusterChar(t[k])
    ensures j < |t| ==> !IsClusterChar(t[j])
    decreases |t| - i
  {
    if i < |t| && IsClusterChar(t[i]) then ClusterEnd(t, i + 1) else i
  }

  /** `t[lo..hi]` is a non-empty run of cluster characters. */
  predicate ClusterIn(t: string, lo: nat, hi: nat)
    requires lo <= hi <= |t|
  {
    lo < hi && forall k :: lo <= k < hi ==> IsClusterChar(t[k])
  }

  /** `t[lo..hi]` is matched in full by `(?:\d+\.)+[\d+_\+\-a-z]+`: a digit run,
      a dot, and then either the cluster alone or further groups. */
  predicate VersionIn(t: string, lo: nat, hi: nat)
    requires lo <= hi <= |t|
    decreases hi - lo
  {
    var d := DigitEnd(t, lo);
    lo < d < hi && t[d] == '.' && (ClusterIn(t, d + 1, hi) || VersionIn(t, d + 1, hi))
  }

  /** `v` as a whole is a version token. */
  predicate IsVersion(v: string) {
    VersionIn(v, 0, |v|)
  }

  /** Every version token starts with a digit, holds a dot, and is made of
      digits, dots and cluster characters only. */
  lemma {:induction false} VersionShape(t: string, lo: nat, hi: nat)
    requires lo <= hi <= |t| && VersionIn(t, lo, hi)
    ensures IsDigit(t[lo]) && '.' in t[lo..hi]
    ensures forall k :: lo <= k < hi ==> t[k] == '.' || IsClusterChar(t[k])
    decreases hi - lo
  {
    var d := DigitEnd(t, lo);
    assert t[lo..hi][d - lo] == '.';
    if !ClusterIn(t, d + 1, hi) {
      VersionShape(t, d + 1, hi);
    }
  }

  /** The digit run is fixed by where the digits stop. */
  lemma DigitEndIs(t: string, i: nat, j: nat)
    requires i <= j <= |t|
    requires forall k :: i <= k < j ==> IsDigit(t[k])
    requires j < |t| ==> !IsDigit(t[j])
    ensures DigitEnd(t, i) == j
  {
  }

  /** A version token inside `t` is still one after cutting `t` down to `t[base..hi]`. */
  lemma {:induction false} VersionInSlice(t: string, base: nat, lo: nat, hi: nat)
    requires base <= lo <= hi <= |t| && VersionIn(t, lo, hi)
    ensures VersionIn(t[base..hi], lo - base, hi - base)
    decreases hi - lo
  {
    var u := t[base..hi];
    var d := DigitEnd(t, lo);
    DigitEndIs(u, lo - base, d - base);
    if ClusterIn(t, d + 1, hi) {
      assert ClusterIn(u, d + 1 - base, hi - base);
    } else {
      VersionInSlice(t, base, d + 1, hi);
    }
  }

  /** No version token of `t` starts at `lo`. */
  ghost predicate NoVersionFrom(t: string, lo: nat)
    requires lo <= |t|
  {
    forall h :: lo <= h <= |t| ==> !VersionIn(t, lo, h)
  }

  /** No version token of `t` starting at `lo` ends after `e`. */
  ghost predicate LongestAt(t: string, lo: nat, e: nat)
    requires lo <= e <= |t|
  {
    forall h :: e < h <= |t| ==> !VersionIn(t, lo, h)
  }

  /** After one group, a longer group-continuation beats any cluster-only ending. */
  lemma LongestWithGroups(t: string, lo: nat, d: nat, e: nat)
    requires lo <= d < |t| && d == DigitEnd(t, lo) && lo < d && t[d] == '.'
    requires d + 1 < e <= |t| && VersionIn(t, d + 1, e) && LongestAt(t, d + 1, e)
    ensures VersionIn(t, lo, e) && LongestAt(t, lo, e)
  {
    var d2 := DigitEnd(t, d + 1);
    assert t[d2] == '.' && d2 < e;
    forall h | e < h <= |t| ensures !VersionIn(t, lo, h) {
      assert !VersionIn(t, d + 1, h);
      assert !ClusterIn(t, d + 1, h) by {
        assert d + 1 <= d2 < h && !IsClusterChar(t[d2]);
      }
    }
  }

  /** With no further group possible, the longest match ends with the maximal cluster. */
  lemma LongestWithCluster(t: string, lo: nat, d: nat)
    requires lo <= d < |t| && d == DigitEnd(t, lo) && lo < d && t[d] == '.'
    requires NoVersionFrom(t, d + 1)
    ensures var c := ClusterEnd(t, d + 1);
      (c > d + 1 ==> VersionIn(t, lo, c) && LongestAt(t, lo, c)) &&
      (c == d + 1 ==> NoVersionFrom(t, lo))
  {
    var c := ClusterEnd(t, d + 1);
    if c > d + 1 {
      assert ClusterIn(t, d + 1, c);
    }
    forall h | lo <= h <= |t| && (c == d + 1 || c < h) ensures !VersionIn(t, lo, h) {
      if d < h {
        assert !VersionIn(t, d + 1, h);
        assert !ClusterIn(t, d + 1, h) by {
          if c < h {
            assert !IsClusterChar(t[c]);
          }
        }
      }
    }
  }

  /** The greedy regex engine at start `lo`: the end of the longest version
      token beginning there, if any. */
  function MatchEnd(t: string, lo: nat): (r: Option<nat>)
    requires lo <= |t|
    ensures r.Some? ==> lo < r.value <= |t| && VersionIn(t, lo, r.value)
    ensures r.Some? ==> LongestAt(t, lo, r.value)
    ensures r.None? ==> NoVersionFrom(t, lo)
    decreases |t| - lo
  {
    var d := DigitEnd(t, lo);
    if d == lo || d == |t| || t[d] != '.' then
      None
    else
      match MatchEnd(t, d + 1)
      case Some(e) =>
        LongestWithGroups(t, lo, d, e);
        Some(e)
      case None =>
        LongestWithCluster(t, lo, d);
        var c := ClusterEnd(t, d + 1);
        if c > d + 1 then Some(c) else None
  }

  /** Where a search hit starts and where its version token ends. */
  datatype Match = Match(start: nat, end: nat)

  /** No match of `lookBehind` + version group begins at position `j` of `text`. */
  ghost predicate NoMatchAt(lookBehind: string, text: string, j: nat)
    requires j <= |text|
  {
    !(lookBehind <= text[j..]) || NoVersionFrom(text, j + |lookBehind|)
  }

  /** A match of `lookBehind` + version group at position `i` of `text`:
      the end of its longest version token. */
  function MatchAt(lookBehind: string, text: string, i: nat): (r: Option<nat>)
    requires i <= |text|
    ensures r.Some? ==> i + |lookBehind| < r.value <= |text| && lookBehind <= text[i..]
    ensures r.Some? ==> VersionIn(text, i + |lookBehind|, r.value)
    ensures r.Some? ==> LongestAt(text, i + |lookBehind|, r.value)
    ensures r.None? ==> NoMatchAt(lookBehind, text, i)
  {
    if lookBehind <= text[i..] then MatchEnd(text, i + |lookBehind|) else None
  }

  /** `re.search(lookBehind + group, text)` from position `i` on, with the
      look-behind taken as a literal: the leftmost start, the longest token there. */
  function SearchFrom(lookBehind: string, text: string, i: nat): (r: Option<Match>)
    requires i <= |text|
    ensures r.Some? ==> i <= r.value.start <= |text|
    ensures r.Some? ==> MatchAt(lookBehind, text, r.value.start) == Some(r.value.end)
    decreases |text| - i
  {
    var here := MatchAt(lookBehind, text, i);
    if here.Some? then Some(Match(i, here.value))
    else if i == |text| then None
    else SearchFrom(lookBehind, text, i + 1)
  }

  /** No match of `lookBehind` + version group begins in `[i, s)`. */
  ghost predicate NoMatchBetween(lookBehind: string, text: string, i: nat, s: nat)
    requires i <= |text|
  {
    forall j :: i <= j < s && j <= |text| ==> NoMatchAt(lookBehind, text, j)
  }

  /** The search is leftmost: no match starts before the reported one, and
      none at all when the search comes back empty. */
  lemma {:induction false} SearchFromLeftmost(lookBehind: string, text: string, i: nat)
    requires i <= |text|
    ensures var r := SearchFrom(lookBehind, text, i);
      NoMatchBetween(lookBehind, text, i, if r.Some? then r.value.start else |text| + 1)
    decreases |text| - i
  {
    var r := SearchFrom(lookBehind, text, i);
    if MatchAt(lookBehind, text, i).None? && i < |text| {
      SearchFromLeftmost(lookBehind, text, i + 1);
      var s := if r.Some? then r.value.start else |text| + 1;
      assert NoMatchBetween(lookBehind, text, i + 1, s);
      forall j | i <= j < s && j <= |text|
        ensures NoMatchAt(lookBehind, text, j)
      {
        if j > i {
          assert i + 1 <= j;
        }
      }
    }
  }

  /** `re.search` over the whole text. */
  function Search(lookBehind: string, text: string): Option<Match>
  {
    SearchFrom(lookBehind, text, 0)
  }

  const FormatChanged := "The version format for this command has changed."

  /** `text[s + |lookBehind|..e]` is what `re.search` reports: the
      look-behind starts at `s` and is followed by the longest version token
      ending at `e`, and no match starts before `s`. */
  ghost predicate LeftmostLongest(lookBehind: string, text: string, s: nat, e: nat)
  {
    s + |lookBehind| < e <= |text| && lookBehind <= text[s..] &&
    VersionIn(text, s + |lookBehind|, e) && LongestAt(text, s + |lookBehind|, e) &&
    NoMatchBetween(lookBehind, text, 0, s)
  }

  /** There is at most one leftmost, longest hit, so the version
      `GetVersionStr` reports is determined by the output. */
  lemma LeftmostLongestUnique(lookBehind: string, text: string, s: nat, e: nat, s': nat, e': nat)
    requires LeftmostLongest(lookBehind, text, s, e) && LeftmostLongest(lookBehind, text, s', e')
    ensures s == s' && e == e'
  {
    HitAt(lookBehind, text, s, e);
    HitAt(lookBehind, text, s', e');
  }

  /** A look-behind followed by a version token is a match. */
  lemma HitAt(lookBehind: string, text: string, s: nat, e: nat)
    requires s + |lookBehind| < e <= |text| && lookBehind <= text[s..] && VersionIn(text, s + |lookBehind|, e)
    ensures !NoMatchAt(lookBehind, text, s)
  {
  }

  /** `get_version_str` with the child's decoded stdout as input: the version
      token of the leftmost match, or the "getting version" diagnostic (exit 1)
      when nothing in the output matches. */
  function GetVersionStr(command: string, lookBehind: string, output: string): (r: Outcome<string>)
    ensures r.Continue? ==> IsVersion(r.value) && exists s :: OccursAt(lookBehind + r.value, output, s)
    ensures r.Continue? ==> exists s: nat, e: nat :: LeftmostLongest(lookBehind, output, s, e) && r.value == output[s + |lookBehind|..e]
    ensures !r.Continue? ==> NoMatchBetween(lookBehind, output, 0, |output| + 1)
    ensures !r.Continue? ==> r == RaiseError(command, "getting version", FormatChanged)
  {
    match Search(lookBehind, output)
    case Some(m) =>
      SearchFromLeftmost(lookBehind, output, 0);
      assert LeftmostLongest(lookBehind, output, m.start, m.end);
      Continue(Group(lookBehind, output, m))
    case None =>
      SearchFromLeftmost(lookBehind, output, 0);
      RaiseError(command, "getting version", FormatChanged)
  }

  /** `search.group(1)`: the version token of a search hit, which follows
      the look-behind in the text. */
  function Group(lookBehind: string, output: string, m: Match): (v: string)
    requires Search(lookBehind, output) == Some(m)
    ensures IsVersion(v) && OccursAt(lookBehind + v, output, m.start)
  {
    SearchHit(lookBehind, output, m.start, m.end);
    output[m.start + |lookBehind|..m.end]
  }

  /** A search hit's token is a version token that follows the look-behind. */
  lemma SearchHit(lookBehind: string, output: string, s: nat, e: nat)
    requires Search(lookBehind, output) == Some(Match(s, e))
    ensures s + |lookBehind| < e <= |output|
    ensures IsVersion(output[s + |lookBehind|..e]) && OccursAt(lookBehind + output[s + |lookBehind|..e], output, s)
  {
    assert MatchAt(lookBehind, output, s) == Some(e);
    HitIsVersion(lookBehind, output, s, e);
  }

  /** A search hit's token is a version token, and look-behind plus token occur in the text. */
  lemma HitIsVersion(lookBehind: string, text: string, s: nat, e: nat)
    requires s + |lookBehind| < e <= |text| && lookBehind <= text[s..]
    requires VersionIn(text, s + |lookBehind|, e)
    ensures IsVersion(text[s + |lookBehind|..e])
    ensures OccursAt(lookBehind + text[s + |lookBehind|..e], text, s)
  {
    SliceIsVersion(text, s + |lookBehind|, e);
    FollowsPrefix(lookBehind, text, s, e);
  }

  /** A version token found at `[lo, hi)` is a version token on its own. */
  lemma SliceIsVersion(text: string, lo: nat, hi: nat)
    requires lo <= hi <= |text| && VersionIn(text, lo, hi)
    ensures IsVersion(text[lo..hi])
  {
    VersionInSlice(text, lo, lo, hi);
  }

  /** When `text[s..]` starts with `p`, the text from `s` to `e` is `p` and
      what follows it up to `e`. */
  lemma FollowsPrefix<T>(p: seq<T>, text: seq<T>, s: nat, e: nat)
    requires s + |p| <= e <= |text| && p <= text[s..]
    ensures OccursAt(p + text[s + |p|..e], text, s)
  {
    var a := s + |p|;
    assert text[s..a] == p by {
      assert text[s..][..|p|] == text[s..a];
    }
    assert text[s..e] == text[s..a] + text[a..e];
  }

  /** The mock tool prints `CLI 1.0.0`; the extracted version is `1.0.0`. */
  lemma MockToolVersion(command: string)
    ensures GetVersionStr(command, "", "CLI 1.0.0\n") == Continue("1.0.0")
  {
    var text := "CLI 1.0.0\n";
    assert DigitEnd(text, 8) == 9 && ClusterEnd(text, 8) == 9;
    assert MatchEnd(text, 8) == None;
    assert DigitEnd(text, 6) == 7;
    assert MatchEnd(text, 6) == Some(9);
    assert DigitEnd(text, 4) == 5;
    assert MatchEnd(text, 4) == Some(9);
    assert SearchFrom("", text, 4) == Some(Match(4, 9));
    assert DigitEnd(text, 3) == 3;
    assert SearchFrom("", text, 3) == Some(Match(4, 9));
    assert DigitEnd(text, 2) == 2;
    assert SearchFrom("", text, 2) == Some(Match(4, 9));
    assert DigitEnd(text, 1) == 1;
    assert SearchFrom("", text, 1) == Some(Match(4, 9));
    assert DigitEnd(text, 0) == 0;
    assert SearchFrom("", text, 0) == Some(Match(4, 9));
    assert text[4..9] == "1.0.0";
  }

  // ---------------------------------------------------------------------
  // The two version policies
  // ---------------------------------------------------------------------

  /** Older variant (`assert_version`): `expected in actual[:len(expected)]`.
      It never returns normally: a match exits 0 silently, a mismatch exits 1
      with the "is wrong" diagnostic. */
  function AssertPrefix<T>(command: string, actual: string, expected: string): (r: Outcome<T>)
    ensures r.Exit?
    ensures r.code == 0 <==> expected <= actual
    ensures r.code == 0 ==> r.stderr == []
    ensures r.code != 0 ==> r == RaiseError(command, "Version of " + command + " is wrong",
      "Expected version: " + expected + " Found version: " + actual
      + "Edit your pre-commit config or use a different version of " + command + ".")
  {
    OccursInTakeIffPrefix(expected, actual);
    if !Occurs(expected, Take(actual, |expected|)) then
      RaiseError(command, "Version of " + command + " is wrong",
        "Expected version: " + expected + " Found version: " + actual
        + "Edit your pre-commit config or use a different version of " + command + ".")
    else
      Exit(0, [])
  }

  /** Newer variant (`_assert_version`): `expected in actual`. A match lets the
      run continue; a mismatch exits 1 with the "is wrong." diagnostic. */
  function AssertContains(command: string, actual: string, expected: string): (r: Outcome<()>)
    ensures r.Continue? <==> exists i :: OccursAt(expected, actual, i)
    ensures !r.Continue? ==> r == RaiseError(command, "Version of " + command + " is wrong.",
      "Expected version: " + expected + " Found version: " + actual
      + ". Edit your pre-commit config or use a different version of " + command + ".")
  {
    OccursIff(expected, actual);
    if Occurs(expected, actual) then Continue(())
    else
      RaiseError(command, "Version of " + command + " is wrong.",
        "Expected version: " + expected + " Found version: " + actual
        + ". Edit your pre-commit config or use a different version of " + command + ".")
  }

  /** An empty expected version passes both policies; an expected version
      longer than the actual one fails both. */
  lemma PolicyEdges(command: string, actual: string, expected: string)
    ensures AssertPrefix<()>(command, actual, "").code == 0
    ensures AssertContains(command, actual, "").Continue?
    ensures |expected| > |actual| ==> AssertPrefix<()>(command, actual, expected).code == 1
    ensures |expected| > |actual| ==> !AssertContains(command, actual, expected).Continue?
  {
    assert OccursAt("", actual, 0);
  }

  /** Whatever the older policy accepts the newer one accepts too. */
  lemma PrefixPassImpliesContainsPass(command: string, actual: string, expected: string)
    requires AssertPrefix<()>(command, actual, expected).code == 0
    ensures AssertContains(command, actual, expected).Continue?
  {
    assert OccursAt(expected, actual, 0);
  }

  /** The converse fails: `1.0.0` is inside `11.0.0` but is not its prefix. */
  lemma ContainsPassButPrefixFail(command: string)
    ensures AssertContains(command, "11.0.0", "1.0.0").Continue?
    ensures AssertPrefix<()>(command, "11.0.0", "1.0.0").code == 1
  {
    assert "11.0.0"[1..6] == "1.0.0";
    assert "11.0.0"[1] != "1.0.0"[1];
    assert OccursAt("1.0.0", "11.0.0", 1);
  }

  /** Against the mock tool's `1.0.0`: `1.0.0` passes, `1.0.1` fails, and the
      older policy also accepts the pinned prefix `1.0`. */
  lemma MockToolPolicies(command: string)
    ensures AssertContains(command, "1.0.0", "1.0.0").Continue?
    ensures !AssertContains(command, "1.0.0", "1.0.1").Continue?
    ensures AssertPrefix<()>(command, "1.0.0", "1.0.0").code == 0
    ensures AssertPrefix<()>(command, "1.0.0", "1.0.1").code == 1
    ensures AssertPrefix<()>(command, "1.0.0", "1.0").code == 0
  {
    SelfMatch(command, "1.0.0");
    MockVersionFacts();
  }

  /** The mock tool's version against the versions the tests ask for:
      `1.0.1` is not in `1.0.0`, nor a prefix of it, and `1.0` is a prefix. */
  lemma MockVersionFacts()
    ensures !exists i :: OccursAt("1.0.1", "1.0.0", i)
    ensures !("1.0.1" <= "1.0.0") && "1.0" <= "1.0.0"
  {
    OccursSameLength("1.0.1", "1.0.0");
    OccursIff("1.0.1", "1.0.0");
  }

  /** Any extracted version passes the newer policy against itself. */
  lemma SelfMatch(command: string, v: string)
    ensures AssertContains(command, v, v).Continue?
    ensures AssertPrefix<()>(command, v, v).code == 0
  {
    assert OccursAt(v, v, 0);
  }
}
