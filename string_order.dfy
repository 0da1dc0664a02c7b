/**
 * The order in which `Array.prototype.sort` without a comparator puts
 * strings, and the distinct-and-sorted reduction `[...new Set(xs)].sort()`
 * the API client applies to categories and difficulties.
 *
 * JavaScript compares strings by their UTF-16 code units. Two strings are
 * decided by their first differing character: a character below U+D800 is
 * one code unit equal to itself, a supplementary character starts with a
 * high surrogate (0xD800-0xDBFF) and a character from U+E000 to U+FFFF is a
 * single unit above every surrogate. `UnitKey` ranks characters that way.
 */
module StringOrder {

  function UnitKey(c: char): (k: int)
    ensures 0 <= k
  {
    if 0xE000 <= c as int <= 0xFFFF then c as int + 0x11_0000 else c as int
  }

  lemma UnitKeyInjective(a: char, b: char)
    requires UnitKey(a) == UnitKey(b)
    ensures a == b
  {
  }

  /** `a < b` in JavaScript's default string order. */
  predicate Less(a: string, b: string)
    decreases |a|
  {
    if |a| == 0 then |b| > 0
    else if |b| == 0 then false
    else if a[0] == b[0] then Less(a[1..], b[1..])
    else UnitKey(a[0]) < UnitKey(b[0])
  }

  lemma {:induction false} LessIrreflexive(a: string)
    ensures !Less(a, a)
    decreases |a|
  {
    if |a| > 0 { LessIrreflexive(a[1..]); }
  }

  lemma {:induction false} LessTransitive(a: string, b: string, c: string)
    requires Less(a, b) && Less(b, c)
    ensures Less(a, c)
    decreases |a|
  {
    if |a| > 0 && |b| > 0 && |c| > 0 && a[0] == b[0] && b[0] == c[0] {
      LessTransitive(a[1..], b[1..], c[1..]);
    }
  }

  /** Any two different strings are ordered one way or the other. */
  lemma {:induction false} LessTotal(a: string, b: string)
    requires a != b
    ensures Less(a, b) || Less(b, a)
    decreases |a|
  {
    if |a| > 0 && |b| > 0 {
      if a[0] == b[0] {
        assert a == [a[0]] + a[1..] && b == [b[0]] + b[1..];
        LessTotal(a[1..], b[1..]);
      } else {
        if UnitKey(a[0]) == UnitKey(b[0]) { UnitKeyInjective(a[0], b[0]); }
      }
    }
  }

  lemma {:induction false} LessAsymmetric(a: string, b: string)
    requires Less(a, b)
    ensures !Less(b, a)
  {
    if Less(b, a) {
      LessTransitive(a, b, a);
      LessIrreflexive(a);
    }
  }

  function Elements(s: seq<string>): set<string> {
    set x | x in s
  }

  /** Strictly increasing, hence free of duplicates. */
  predicate StrictlySorted(s: seq<string>) {
    forall i, j :: 0 <= i < j < |s| ==> Less(s[i], s[j])
  }

  lemma StrictlySortedDistinct(s: seq<string>)
    requires StrictlySorted(s)
    ensures forall i, j :: 0 <= i < j < |s| ==> s[i] != s[j]
  {
    forall i, j | 0 <= i < j < |s| ensures s[i] != s[j] {
      if s[i] == s[j] { LessIrreflexive(s[i]); }
    }
  }

  /** `x` put into its place in a sorted list, unless it is already there. */
  function Insert(x: string, s: seq<string>): seq<string>
  {
    if s == [] then [x]
    else if x == s[0] then s
    else if Less(x, s[0]) then [x] + s
    else [s[0]] + Insert(x, s[1..])
  }

  lemma {:induction false} InsertElements(x: string, s: seq<string>)
    ensures Elements(Insert(x, s)) == Elements(s) + {x}
  {
    if s != [] && x != s[0] && !Less(x, s[0]) {
      InsertElements(x, s[1..]);
      assert s == [s[0]] + s[1..];
      assert Elements(s) == {s[0]} + Elements(s[1..]);
      assert Elements(Insert(x, s)) == {s[0]} + Elements(Insert(x, s[1..]));
    }
  }

  /** Every element of `t` lies above `y`. */
  predicate Above(y: string, t: seq<string>) {
    forall k :: 0 <= k < |t| ==> Less(y, t[k])
  }

  lemma ConsSorted(y: string, t: seq<string>)
    requires Above(y, t) && StrictlySorted(t)
    ensures StrictlySorted([y] + t)
  {
    var r := [y] + t;
    forall i, j | 0 <= i < j < |r| ensures Less(r[i], r[j]) {
      if i == 0 { assert r[j] == t[j - 1]; } else { assert r[i] == t[i - 1] && r[j] == t[j - 1]; }
    }
  }

  lemma {:induction false} InsertSorted(x: string, s: seq<string>)
    requires StrictlySorted(s)
    ensures StrictlySorted(Insert(x, s))
  {
    if s == [] {
    } else if x == s[0] {
    } else if Less(x, s[0]) {
      forall k | 0 <= k < |s| ensures Less(x, s[k]) {
        if k > 0 { LessTransitive(x, s[0], s[k]); }
      }
      ConsSorted(x, s);
    } else {
      LessTotal(x, s[0]);
      var t := Insert(x, s[1..]);
      InsertSorted(x, s[1..]);
      InsertElements(x, s[1..]);
      forall k | 0 <= k < |t| ensures Less(s[0], t[k]) {
        assert t[k] in Elements(s[1..]) + {x};
        if t[k] != x {
          var m :| 0 <= m < |s[1..]| && s[1..][m] == t[k];
          assert s[m + 1] == t[k];
        }
      }
      ConsSorted(s[0], t);
    }
  }

  /**
   * `[...new Set(xs)].sort()`: the distinct values of `xs` in ascending
   * order.
   */
  function DistinctSorted(xs: seq<string>): (r: seq<string>)
    ensures StrictlySorted(r)
    ensures Elements(r) == Elements(xs)
  {
    if xs == [] then []
    else
      var rest := DistinctSorted(xs[1..]);
      InsertSorted(xs[0], rest);
      InsertElements(xs[0], rest);
      assert xs == [xs[0]] + xs[1..];
      assert Elements(xs) == {xs[0]} + Elements(xs[1..]);
      Insert(xs[0], rest)
  }

  /** The least element of a strictly sorted list is its head. */
  lemma HeadIsLeast(s: seq<string>, x: string)
    requires StrictlySorted(s) && x in s && x != s[0]
    ensures Less(s[0], x)
  {
  }

  /**
   * There is only one strictly sorted list of a given set of strings; so
   * `DistinctSorted(xs)` is what any correct sort of the distinct values
   * of `xs` yields.
   */
  lemma {:induction false} SortedUnique(a: seq<string>, b: seq<string>)
    requires StrictlySorted(a) && StrictlySorted(b)
    requires Elements(a) == Elements(b)
    ensures a == b
    decreases |a|
  {
    if a == [] {
      assert forall i :: 0 <= i < |b| ==> b[i] in Elements(b);
    } else {
      assert a[0] in Elements(b);
      assert b != [];
      assert b[0] in Elements(a);
      if a[0] != b[0] {
        HeadIsLeast(a, b[0]);
        HeadIsLeast(b, a[0]);
        LessAsymmetric(a[0], b[0]);
      }
      assert a == [a[0]] + a[1..] && b == [b[0]] + b[1..];
      StrictlySortedDistinct(a);
      StrictlySortedDistinct(b);
      assert Elements(a[1..]) == Elements(a) - {a[0]} by {
        forall x | x in Elements(a) - {a[0]} ensures x in Elements(a[1..]) {
          var i :| 0 <= i < |a| && a[i] == x;
          assert a[1..][i - 1] == x;
        }
      }
      assert Elements(b[1..]) == Elements(b) - {b[0]} by {
        forall x | x in Elements(b) - {b[0]} ensures x in Elements(b[1..]) {
          var i :| 0 <= i < |b| && b[i] == x;
          assert b[1..][i - 1] == x;
        }
      }
      SortedUnique(a[1..], b[1..]);
    }
  }

  /** The reduction is a projection: applied to its own result it changes nothing. */
  lemma DistinctSortedIdempotent(xs: seq<string>)
    ensures DistinctSorted(DistinctSorted(xs)) == DistinctSorted(xs)
  {
    SortedUnique(DistinctSorted(DistinctSorted(xs)), DistinctSorted(xs));
  }

  /** The number of distinct values of `xs`. */
  lemma DistinctSortedSize(xs: seq<string>)
    ensures |DistinctSorted(xs)| == |Elements(xs)|
  {
    var r := DistinctSorted(xs);
    StrictlySortedDistinct(r);
    DistinctCard(r);
  }

  lemma {:induction false} DistinctCard(s: seq<string>)
    requires forall i, j :: 0 <= i < j < |s| ==> s[i] != s[j]
    ensures |Elements(s)| == |s|
  {
    if s != [] {
      DistinctCard(s[1..]);
      assert s == [s[0]] + s[1..];
      assert Elements(s) == {s[0]} + Elements(s[1..]);
      assert s[0] !in Elements(s[1..]);
    }
  }

  lemma {:induction false} ElementsBound(s: seq<string>)
    ensures |Elements(s)| <= |s|
  {
    if s != [] {
      ElementsBound(s[1..]);
      assert s == [s[0]] + s[1..];
      assert Elements(s) == {s[0]} + Elements(s[1..]);
    }
  }
}
