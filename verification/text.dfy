/** The sequence and string operations the shim leans on, each written the way
    Python's `str` / `bytes` / `list` behave: substring containment, clamped
    slicing, `list.index`, `list.remove`, `str.replace(pat, "")`, `split` on a
    single separator, `join`, and UTF-8 encoding of text. */
module Text {
  import opened Base

  // ---------------------------------------------------------------------
  // Containment (`sub in s`)
  // ---------------------------------------------------------------------

  /** `sub in s`: `sub` occurs contiguously in `s`, tried from the left. */
  predicate Occurs<T(==)>(sub: seq<T>, s: seq<T>)
    decreases |s|
  {
    sub <= s || (0 < |s| && Occurs(sub, s[1..]))
  }

  /** `sub` sits in `s` starting at index `i`. */
  ghost predicate OccursAt<T>(sub: seq<T>, s: seq<T>, i: int)
  {
    0 <= i && i + |sub| <= |s| && s[i..i + |sub|] == sub
  }

  /** The left-to-right search finds `sub` exactly when some position holds it. */
  lemma {:induction false} OccursIff<T>(sub: seq<T>, s: seq<T>)
    ensures Occurs(sub, s) <==> exists i :: OccursAt(sub, s, i)
    decreases |s|
  {
    if sub <= s {
      assert OccursAt(sub, s, 0);
    } else if |s| == 0 {
      assert |sub| > 0;
    } else {
      OccursIff(sub, s[1..]);
      if Occurs(sub, s[1..]) {
        var i :| OccursAt(sub, s[1..], i);
        assert s[1..][i..i + |sub|] == s[i + 1..i + 1 + |sub|];
        assert OccursAt(sub, s, i + 1);
      }
      if i :| OccursAt(sub, s, i) {
        assert s[1..][i - 1..i - 1 + |sub|] == s[i..i + |sub|];
        assert OccursAt(sub, s[1..], i - 1);
      }
    }
  }

  // ---------------------------------------------------------------------
  // Slicing and list operations
  // ---------------------------------------------------------------------

  /** `s[:n]`: Python clamps the bound to the length instead of failing. */
  function Take<T>(s: seq<T>, n: nat): (r: seq<T>)
    ensures r <= s
    ensures |r| == if n <= |s| then n else |s|
  {
    if n <= |s| then s[..n] else s
  }

  /** A prefix-length slice holds `e` only when it is `e` itself, so the older
      version test `e in a[:len(e)]` is exactly the prefix test. */
  lemma OccursInTakeIffPrefix<T>(e: seq<T>, a: seq<T>)
    ensures Occurs(e, Take(a, |e|)) <==> e <= a
  {
    var t := Take(a, |e|);
    OccursIff(e, t);
    if e <= a {
      assert t == e;
      assert OccursAt(e, t, 0);
    }
  }

  /** A sequence no shorter than `s` occurs in `s` only as `s` itself. */
  lemma OccursSameLength<T>(sub: seq<T>, s: seq<T>)
    requires |sub| >= |s|
    ensures Occurs(sub, s) <==> sub == s
  {
    OccursIff(sub, s);
    if sub == s {
      assert OccursAt(sub, s, 0);
    }
  }

  /** A one-element sequence occurs exactly when its element does. */
  lemma {:induction false} OccursOne<T>(c: T, s: seq<T>)
    ensures Occurs([c], s) <==> c in s
    decreases |s|
  {
    if |s| > 0 {
      OccursOne(c, s[1..]);
      assert s == [s[0]] + s[1..];
    }
  }

  /** `xs.index(x)`: the first position holding `x`. */
  function IndexOf<T(==)>(xs: seq<T>, x: T): (i: nat)
    requires x in xs
    ensures i < |xs| && xs[i] == x
    ensures x !in xs[..i]
  {
    if xs[0] == x then 0
    else
      var j := IndexOf(xs[1..], x);
      assert xs[..1 + j] == [xs[0]] + xs[1..][..j];
      1 + j
  }

  /** When `x` is absent from `a`, the first `x` of `a + [x] + b` is the one after `a`. */
  lemma IndexOfAfter<T>(a: seq<T>, x: T, b: seq<T>)
    requires x !in a
    ensures IndexOf(a + [x] + b, x) == |a|
  {
    var xs := a + [x] + b;
    assert xs[|a|] == x;
    assert xs[..|a|] == a;
  }

  /** `xs.remove(x)`: drops the first `x`; `None` stands for the ValueError
      Python raises when `x` is absent. */
  function RemoveFirst<T(==)>(xs: seq<T>, x: T): (r: Option<seq<T>>)
    ensures r.Some? <==> x in xs
    ensures r.Some? ==> r.value == xs[..IndexOf(xs, x)] + xs[IndexOf(xs, x) + 1..]
  {
    if |xs| == 0 then None
    else if xs[0] == x then Some(xs[1..])
    else
      match RemoveFirst(xs[1..], x)
      case None => None
      case Some(rest) =>
        var j := IndexOf(xs[1..], x);
        assert xs[..1 + j] == [xs[0]] + xs[1..][..j];
        assert xs[1 + j + 1..] == xs[1..][j + 1..];
        Some([xs[0]] + rest)
  }

  /** Removing `x` from `a + [x] + b` when `a` has no `x` leaves `a + b`. */
  lemma RemoveFirstAfter<T>(a: seq<T>, x: T, b: seq<T>)
    requires x !in a
    ensures RemoveFirst(a + [x] + b, x) == Some(a + b)
  {
    IndexOfAfter(a, x, b);
    var xs := a + [x] + b;
    assert xs[..|a|] == a;
    assert xs[|a| + 1..] == b;
  }

  // ---------------------------------------------------------------------
  // `s.replace(pat, "")`
  // ---------------------------------------------------------------------

  /** `s.replace(pat, "")`: every non-overlapping occurrence of `pat`, found
      left to right, is deleted. */
  function DeleteAll<T(==)>(s: seq<T>, pat: seq<T>): (r: seq<T>)
    requires |pat| > 0
    ensures |r| <= |s|
    decreases |s|
  {
    if |s| == 0 then []
    else if pat <= s then DeleteAll(s[|pat|..], pat)
    else [s[0]] + DeleteAll(s[1..], pat)
  }

  /** Deleting a pattern that does not occur changes nothing. */
  lemma {:induction false} DeleteAbsent<T>(s: seq<T>, pat: seq<T>)
    requires |pat| > 0 && !Occurs(pat, s)
    ensures DeleteAll(s, pat) == s
    decreases |s|
  {
    if |s| > 0 {
      DeleteAbsent(s[1..], pat);
    }
  }

  /** Deleting an element value that is absent changes nothing. */
  lemma {:induction false} DeleteOneAbsent<T>(s: seq<T>, c: T)
    requires c !in s
    ensures DeleteAll(s, [c]) == s
    decreases |s|
  {
    if |s| > 0 {
      DeleteOneAbsent(s[1..], c);
    }
  }

  /** Deleting a single element value leaves none of it behind. */
  lemma {:induction false} DeleteOneGone<T>(s: seq<T>, c: T)
    ensures c !in DeleteAll(s, [c])
    decreases |s|
  {
    if |s| > 0 {
      DeleteOneGone(s[1..], c);
    }
  }

  /** Deleting one element value distributes over concatenation. */
  lemma {:induction false} DeleteOneAppend<T>(a: seq<T>, b: seq<T>, c: T)
    ensures DeleteAll(a + b, [c]) == DeleteAll(a, [c]) + DeleteAll(b, [c])
    decreases |a|
  {
    if |a| > 0 {
      assert (a + b)[1..] == a[1..] + b;
      assert [c] <= a + b <==> [c] <= a;
      DeleteOneAppend(a[1..], b, c);
    } else {
      assert a + b == b;
    }
  }

  /** Deleting `pat` from a sequence that starts with `pat` drops that copy first. */
  lemma DeleteLeading<T>(pat: seq<T>, s: seq<T>)
    requires |pat| > 0
    ensures DeleteAll(pat + s, pat) == DeleteAll(s, pat)
  {
    assert (pat + s)[|pat|..] == s;
  }

  // ---------------------------------------------------------------------
  // `split` on one separator and `join`
  // ---------------------------------------------------------------------

  /** `s.split(d)` for a one-element separator: the pieces between the
      separators, always at least one. */
  function Split<T(==)>(s: seq<T>, d: T): (r: seq<seq<T>>)
    ensures |r| > 0
    ensures forall i :: 0 <= i < |r| ==> d !in r[i]
    decreases |s|
  {
    if |s| == 0 then [[]]
    else
      var rest := Split(s[1..], d);
      if s[0] == d then [[]] + rest
      else [[s[0]] + rest[0]] + rest[1..]
  }

  /** `d.join(ps)`. */
  function Join<T>(ps: seq<seq<T>>, d: T): seq<T>
    decreases |ps|
  {
    if |ps| == 0 then []
    else if |ps| == 1 then ps[0]
    else ps[0] + [d] + Join(ps[1..], d)
  }

  /** Joining the pieces of a split with the same separator restores the input. */
  lemma {:induction false} JoinSplit<T>(s: seq<T>, d: T)
    ensures Join(Split(s, d), d) == s
    decreases |s|
  {
    if |s| > 0 {
      var rest := Split(s[1..], d);
      JoinSplit(s[1..], d);
      if s[0] == d {
        assert ([[]] + rest)[1..] == rest;
      } else if |rest| == 1 {
      } else {
        var r := [[s[0]] + rest[0]] + rest[1..];
        assert r[1..] == rest[1..];
        assert Join(rest, d) == rest[0] + [d] + Join(rest[1..], d);
      }
    }
  }

  /** A split yields one more piece than there are separators. */
  lemma {:induction false} SplitCount<T>(s: seq<T>, d: T)
    ensures |Split(s, d)| == multiset(s)[d] + 1
    decreases |s|
  {
    if |s| > 0 {
      SplitCount(s[1..], d);
      assert s == [s[0]] + s[1..];
      assert multiset(s) == multiset([s[0]]) + multiset(s[1..]);
    }
  }

  /** The first piece of a split is the longest prefix free of the separator. */
  lemma {:induction false} SplitFirst<T>(s: seq<T>, d: T)
    ensures Split(s, d)[0] <= s
    ensures |Split(s, d)[0]| == |s| || s[|Split(s, d)[0]|] == d
    ensures d !in s ==> Split(s, d) == [s]
    decreases |s|
  {
    if |s| > 0 {
      SplitFirst(s[1..], d);
      if s[0] != d {
        assert s == [s[0]] + s[1..];
      }
    }
  }

  /** A separator-free prefix followed by the separator splits off as one piece. */
  lemma {:induction false} SplitCons<T>(a: seq<T>, d: T, b: seq<T>)
    requires d !in a
    ensures Split(a + [d] + b, d) == [a] + Split(b, d)
    decreases |a|
  {
    if |a| == 0 {
      assert a + [d] + b == [d] + b;
      assert ([d] + b)[1..] == b;
    } else {
      var s := a + [d] + b;
      assert s[1..] == a[1..] + [d] + b;
      SplitCons(a[1..], d, b);
      assert [a[0]] + a[1..] == a;
    }
  }

  /** Joining one more piece onto a non-empty list puts a separator before it. */
  lemma {:induction false} JoinSnoc<T>(ps: seq<seq<T>>, x: seq<T>, d: T)
    requires |ps| > 0
    ensures Join(ps + [x], d) == Join(ps, d) + [d] + x
    decreases |ps|
  {
    if |ps| == 1 {
      assert (ps + [x])[1..] == [x];
    } else {
      JoinSnoc(ps[1..], x, d);
      assert (ps + [x])[1..] == ps[1..] + [x];
    }
  }

  /** Splitting a join of separator-free pieces gives the pieces back. */
  lemma {:induction false} SplitJoin<T>(ps: seq<seq<T>>, d: T)
    requires |ps| > 0
    requires forall i :: 0 <= i < |ps| ==> d !in ps[i]
    ensures Split(Join(ps, d), d) == ps
    decreases |ps|
  {
    if |ps| == 1 {
      SplitFirst(ps[0], d);
    } else {
      SplitJoin(ps[1..], d);
      SplitCons(ps[0], d, Join(ps[1..], d));
      assert [ps[0]] + ps[1..] == ps;
    }
  }

  // ---------------------------------------------------------------------
  // `str.encode()` (UTF-8)
  // ---------------------------------------------------------------------

  /** UTF-8 bytes of one Unicode scalar value. */
  function EncodeChar(c: char): (r: seq<byte>)
    ensures 1 <= |r| <= 4
    ensures (c as int < 0x80) <==> |r| == 1
    ensures |r| == 1 ==> r[0] == c as int
    ensures |r| > 1 ==> forall i :: 0 <= i < |r| ==> r[i] >= 0x80
  {
    var n := c as int;
    if n < 0x80 then [n]
    else if n < 0x800 then [0xC0 + n / 0x40, 0x80 + n % 0x40]
    else if n < 0x10000 then [0xE0 + n / 0x1000, 0x80 + (n / 0x40) % 0x40, 0x80 + n % 0x40]
    else [0xF0 + n / 0x40000, 0x80 + (n / 0x1000) % 0x40, 0x80 + (n / 0x40) % 0x40, 0x80 + n % 0x40]
  }

  /** `s.encode()`: UTF-8 bytes of a string. */
  function Encode(s: string): (r: seq<byte>)
    ensures |s| <= |r| <= 4 * |s|
    decreases |s|
  {
    if |s| == 0 then [] else EncodeChar(s[0]) + Encode(s[1..])
  }

  /** Encoding distributes over concatenation. */
  lemma {:induction false} EncodeAppend(a: string, b: string)
    ensures Encode(a + b) == Encode(a) + Encode(b)
    decreases |a|
  {
    if |a| == 0 {
      assert a + b == b;
    } else {
      assert (a + b)[0] == a[0];
      assert (a + b)[1..] == a[1..] + b;
      EncodeAppend(a[1..], b);
    }
  }

  /** The only character whose UTF-8 form holds the line-feed byte is `'\n'`. */
  lemma {:induction false} EncodeNoLF(s: string)
    requires '\n' !in s
    ensures LF !in Encode(s)
    decreases |s|
  {
    if |s| > 0 {
      assert s[0] != '\n';
      EncodeNoLF(s[1..]);
    }
  }
}
