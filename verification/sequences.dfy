/**
 * `Array.prototype.filter` and a stable `Array.prototype.sort`, the two list
 * operations every page of the site builds on. Sort keys are integer
 * sequences compared lexicographically, which covers the comparators the
 * source uses: a time value, a time value with a "sorts last" sentinel, an
 * event kind followed by a title, and a string compared code point by code
 * point.
 */
module Sequences {

  // ----- filter -----------------------------------------------------------

  /** `s.filter(p)`: the elements satisfying `p`, in their original order. */
  function Filter<T(!new)>(s: seq<T>, p: T -> bool): (r: seq<T>)
    ensures |r| <= |s|
    ensures forall x :: x in r <==> x in s && p(x)
    ensures forall x :: multiset(r)[x] == if p(x) then multiset(s)[x] else 0
  {
    if |s| == 0 then []
    else
      assert s == [s[0]] + s[1..];
      if p(s[0]) then [s[0]] + Filter(s[1..], p) else Filter(s[1..], p)
  }

  lemma {:induction false} FilterAppend<T(!new)>(a: seq<T>, b: seq<T>, p: T -> bool)
    ensures Filter(a + b, p) == Filter(a, p) + Filter(b, p)
    decreases |a|
  {
    if |a| > 0 {
      assert (a + b)[1..] == a[1..] + b;
      FilterAppend(a[1..], b, p);
    } else {
      assert a + b == b;
    }
  }

  /** Filtering keeps everything when every element passes. */
  lemma {:induction false} FilterAll<T(!new)>(s: seq<T>, p: T -> bool)
    requires forall i :: 0 <= i < |s| ==> p(s[i])
    ensures Filter(s, p) == s
  {
    if |s| > 0 {
      assert p(s[0]);
      FilterAll(s[1..], p);
      assert s == [s[0]] + s[1..];
    }
  }

  // ----- lexicographic order ---------------------------------------------

  datatype Direction = Ascending | Descending

  /** Lexicographic order on integer sequences; a proper prefix comes first. */
  predicate LexLe(a: seq<int>, b: seq<int>) {
    |a| == 0 || (|b| > 0 && (a[0] < b[0] || (a[0] == b[0] && LexLe(a[1..], b[1..]))))
  }

  lemma {:induction false} LexLeReflexive(a: seq<int>)
    ensures LexLe(a, a)
  {
    if |a| > 0 {
      LexLeReflexive(a[1..]);
    }
  }

  lemma {:induction false} LexLeTotal(a: seq<int>, b: seq<int>)
    ensures LexLe(a, b) || LexLe(b, a)
  {
    if |a| > 0 && |b| > 0 && a[0] == b[0] {
      LexLeTotal(a[1..], b[1..]);
    }
  }

  lemma {:induction false} LexLeTransitive(a: seq<int>, b: seq<int>, c: seq<int>)
    requires LexLe(a, b) && LexLe(b, c)
    ensures LexLe(a, c)
  {
    if |a| > 0 && |b| > 0 && |c| > 0 && a[0] == b[0] && b[0] == c[0] {
      LexLeTransitive(a[1..], b[1..], c[1..]);
    }
  }

  lemma {:induction false} LexLeAntisymmetric(a: seq<int>, b: seq<int>)
    requires LexLe(a, b) && LexLe(b, a)
    ensures a == b
  {
    if |a| > 0 {
      LexLeAntisymmetric(a[1..], b[1..]);
      assert a == [a[0]] + a[1..] && b == [b[0]] + b[1..];
    }
  }

  // ----- stable sort ------------------------------------------------------

  /** `x` may come before `y` in a list sorted by `key` in direction `dir`. */
  predicate InOrder<T>(key: T -> seq<int>, dir: Direction, x: T, y: T) {
    if dir == Ascending then LexLe(key(x), key(y)) else LexLe(key(y), key(x))
  }

  predicate SortedBy<T>(s: seq<T>, key: T -> seq<int>, dir: Direction) {
    forall i, j :: 0 <= i < j < |s| ==> InOrder(key, dir, s[i], s[j])
  }

  lemma InOrderTotal<T>(key: T -> seq<int>, dir: Direction, x: T, y: T)
    ensures InOrder(key, dir, x, y) || InOrder(key, dir, y, x)
    ensures key(x) == key(y) ==> InOrder(key, dir, x, y)
  {
    LexLeTotal(key(x), key(y));
    LexLeReflexive(key(x));
  }

  lemma InOrderTransitive<T>(key: T -> seq<int>, dir: Direction, x: T, y: T, z: T)
    requires InOrder(key, dir, x, y) && InOrder(key, dir, y, z)
    ensures InOrder(key, dir, x, z)
  {
    if dir == Ascending {
      LexLeTransitive(key(x), key(y), key(z));
    } else {
      LexLeTransitive(key(z), key(y), key(x));
    }
  }

  /**
   * Inserts `x` into the sorted list `s` in front of the first element it may
   * precede, so that `x` stays ahead of every element with an equal key.
   */
  function Insert<T>(x: T, s: seq<T>, key: T -> seq<int>, dir: Direction): (r: seq<T>)
    requires SortedBy(s, key, dir)
    ensures SortedBy(r, key, dir)
    ensures multiset(r) == multiset(s) + multiset{x}
  {
    if |s| == 0 then [x]
    else if InOrder(key, dir, x, s[0]) then
      HeadBeforeAll(x, s, key, dir);
      SortedCons(x, s, key, dir);
      [x] + s
    else
      var rest := Insert(x, s[1..], key, dir);
      InOrderTotal(key, dir, x, s[0]);
      InsertBehind(x, s, rest, key, dir);
      [s[0]] + rest
  }

  /** Something that may precede the head of a sorted list may precede all of it. */
  lemma HeadBeforeAll<T>(x: T, s: seq<T>, key: T -> seq<int>, dir: Direction)
    requires SortedBy(s, key, dir) && |s| > 0 && InOrder(key, dir, x, s[0])
    ensures forall j :: 0 <= j < |s| ==> InOrder(key, dir, x, s[j])
  {
    forall j | 0 <= j < |s| ensures InOrder(key, dir, x, s[j]) {
      if j > 0 {
        InOrderTransitive(key, dir, x, s[0], s[j]);
      }
    }
  }

  /** A sorted list stays sorted under a head that may precede all of it. */
  lemma SortedCons<T>(y: T, s: seq<T>, key: T -> seq<int>, dir: Direction)
    requires SortedBy(s, key, dir)
    requires forall j :: 0 <= j < |s| ==> InOrder(key, dir, y, s[j])
    ensures SortedBy([y] + s, key, dir)
  {
    var r := [y] + s;
    forall i, j | 0 <= i < j < |r| ensures InOrder(key, dir, r[i], r[j]) {
      assert r[j] == s[j - 1];
      if i > 0 {
        assert r[i] == s[i - 1];
      }
    }
  }

  /** The head of `s` may precede `rest`, which holds the tail of `s` and `x`. */
  lemma InsertBehind<T>(x: T, s: seq<T>, rest: seq<T>, key: T -> seq<int>, dir: Direction)
    requires SortedBy(s, key, dir) && |s| > 0 && InOrder(key, dir, s[0], x)
    requires SortedBy(rest, key, dir) && multiset(rest) == multiset(s[1..]) + multiset{x}
    ensures SortedBy([s[0]] + rest, key, dir)
    ensures multiset([s[0]] + rest) == multiset(s) + multiset{x}
  {
    assert s == [s[0]] + s[1..];
    forall j | 0 <= j < |rest| ensures InOrder(key, dir, s[0], rest[j]) {
      assert rest[j] in multiset(rest);
      if rest[j] != x {
        assert rest[j] in multiset(s[1..]);
        var k :| 0 <= k < |s[1..]| && s[1..][k] == rest[j];
        assert s[k + 1] == rest[j];
      }
    }
    SortedCons(s[0], rest, key, dir);
  }

  /** `[...s].sort(cmp)` for a comparator that orders by `key` in direction `dir`; stable. */
  function Sort<T>(s: seq<T>, key: T -> seq<int>, dir: Direction): (r: seq<T>)
    ensures SortedBy(r, key, dir)
    ensures multiset(r) == multiset(s)
  {
    if |s| == 0 then []
    else
      assert s == [s[0]] + s[1..];
      Insert(s[0], Sort(s[1..], key, dir), key, dir)
  }

  /** The elements of `s` whose key is `k`, in order. */
  function WithKey<T>(s: seq<T>, key: T -> seq<int>, k: seq<int>): seq<T> {
    if |s| == 0 then []
    else if key(s[0]) == k then [s[0]] + WithKey(s[1..], key, k)
    else WithKey(s[1..], key, k)
  }

  lemma {:induction false} WithKeyInsert<T>(x: T, s: seq<T>, key: T -> seq<int>, dir: Direction, k: seq<int>)
    requires SortedBy(s, key, dir)
    ensures WithKey(Insert(x, s, key, dir), key, k)
         == (if key(x) == k then [x] else []) + WithKey(s, key, k)
  {
    if |s| > 0 && !InOrder(key, dir, x, s[0]) {
      InOrderTotal(key, dir, x, s[0]);
      WithKeyInsert(x, s[1..], key, dir, k);
    }
  }

  /** Sorting keeps exactly the elements it was given. */
  lemma SortKeepsMembers<T>(s: seq<T>, key: T -> seq<int>, dir: Direction)
    ensures forall x :: x in Sort(s, key, dir) <==> x in s
  {
    var r := Sort(s, key, dir);
    forall x ensures x in r <==> x in s {
      assert x in r <==> multiset(r)[x] > 0;
      assert x in s <==> multiset(s)[x] > 0;
    }
  }

  /** Stability: elements with equal keys keep their input order. */
  lemma {:induction false} SortIsStable<T>(s: seq<T>, key: T -> seq<int>, dir: Direction, k: seq<int>)
    ensures WithKey(Sort(s, key, dir), key, k) == WithKey(s, key, k)
  {
    if |s| > 0 {
      SortIsStable(s[1..], key, dir, k);
      WithKeyInsert(s[0], Sort(s[1..], key, dir), key, dir, k);
    }
  }

  /** A sorted list is left as it is. */
  lemma {:induction false} SortOfSorted<T>(s: seq<T>, key: T -> seq<int>, dir: Direction)
    requires SortedBy(s, key, dir)
    ensures Sort(s, key, dir) == s
  {
    if |s| > 0 {
      SortOfSorted(s[1..], key, dir);
      assert s == [s[0]] + s[1..];
    }
  }
}
