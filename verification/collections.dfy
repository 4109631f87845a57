/** Generic sequence operations that the queries and the conversions share. */
module Collections {
  import opened Wrappers

  /** The position of the first element satisfying `f`, if any. */
  function FirstWhere<T>(s: seq<T>, f: T -> bool): (r: Option<nat>)
    ensures r.Some? ==> r.value < |s| && f(s[r.value])
    ensures r.Some? ==> forall j :: 0 <= j < r.value ==> !f(s[j])
    ensures r.None? <==> forall j :: 0 <= j < |s| ==> !f(s[j])
  {
    if s == [] then None
    else if f(s[0]) then Some(0)
    else match FirstWhere(s[1..], f)
      case None => None
      case Some(k) => Some(k + 1)
  }

  /** The elements satisfying `f`, in their original order. */
  function Filter<T(==,!new)>(s: seq<T>, f: T -> bool): (r: seq<T>)
    ensures |r| <= |s|
    ensures forall x :: x in r <==> x in s && f(x)
  {
    if s == [] then []
    else if f(s[0]) then [s[0]] + Filter(s[1..], f)
    else Filter(s[1..], f)
  }

  /**
    `idx` lists, in ascending order, the first positions below `w` whose elements
    satisfy `f`: at most `limit` of them, and every such position when fewer.
    This is what `filter(f).limit(limit)` over the first `w` elements keeps.
  */
  predicate FirstPositionsOf<T>(s: seq<T>, f: T -> bool, w: nat, limit: nat, idx: seq<nat>) {
    |idx| <= limit
    && (forall i :: 0 <= i < |idx| ==> idx[i] < w && idx[i] < |s| && f(s[idx[i]]))
    && (forall i, k :: 0 <= i < k < |idx| ==> idx[i] < idx[k])
    && (forall j :: 0 <= j < w && j < |s| && f(s[j]) && (|idx| < limit || (|idx| > 0 && j < idx[|idx| - 1])) ==> j in idx)
  }

  /** The ascending positions below `n` of the elements satisfying `f`. */
  function Positions<T>(s: seq<T>, f: T -> bool, n: nat): (idx: seq<nat>)
    requires n <= |s|
    ensures forall i :: 0 <= i < |idx| ==> idx[i] < n && f(s[idx[i]])
    ensures forall i, k :: 0 <= i < k < |idx| ==> idx[i] < idx[k]
    ensures forall j :: 0 <= j < n && f(s[j]) ==> j in idx
  {
    if n == 0 then []
    else
      var before := Positions(s, f, n - 1);
      if f(s[n - 1]) then before + [n - 1] else before
  }

  /** Cutting an ascending list of all satisfying positions after `limit` entries keeps the first ones. */
  lemma FirstOfPositions<T>(s: seq<T>, f: T -> bool, w: nat, limit: nat, all: seq<nat>)
    requires w <= |s|
    requires forall i :: 0 <= i < |all| ==> all[i] < w && f(s[all[i]])
    requires forall i, k :: 0 <= i < k < |all| ==> all[i] < all[k]
    requires forall j :: 0 <= j < w && f(s[j]) ==> j in all
    ensures FirstPositionsOf(s, f, w, limit, if |all| < limit then all else all[..limit])
  {
    if |all| >= limit {
      var idx := all[..limit];
      assert forall i :: 0 <= i < |idx| ==> idx[i] == all[i];
      forall j | 0 <= j < w && j < |s| && f(s[j]) && |idx| > 0 && j < idx[|idx| - 1]
        ensures j in idx
      {
        var m :| 0 <= m < |all| && all[m] == j;
        AscendingOrder(all, m, limit - 1);
        assert idx[m] == j;
      }
    }
  }

  /** In a strictly ascending list, a smaller entry sits at an earlier position. */
  lemma AscendingOrder(all: seq<nat>, m: nat, k: nat)
    requires forall i, l :: 0 <= i < l < |all| ==> all[i] < all[l]
    requires m < |all| && k < |all| && all[m] < all[k]
    ensures m < k
  {
  }

  /** The first `limit` positions below `w` whose elements satisfy `f`, ascending. */
  function FirstPositions<T>(s: seq<T>, f: T -> bool, w: nat, limit: nat): (idx: seq<nat>)
    requires w <= |s|
    ensures FirstPositionsOf(s, f, w, limit, idx)
  {
    var all := Positions(s, f, w);
    FirstOfPositions(s, f, w, limit, all);
    if |all| < limit then all else all[..limit]
  }

  /** Filtering distributes over concatenation, so a filter keeps the relative order of the rows it keeps. */
  lemma {:induction false} FilterAppend<T(!new)>(a: seq<T>, b: seq<T>, f: T -> bool)
    ensures Filter(a + b, f) == Filter(a, f) + Filter(b, f)
  {
    if a != [] {
      assert (a + b)[0] == a[0];
      assert (a + b)[1..] == a[1..] + b;
      FilterAppend(a[1..], b, f);
    } else {
      assert a + b == b;
    }
  }

  /** A filter keeps something exactly when some position satisfies the predicate. */
  lemma FilterNonEmptyIff<T(!new)>(s: seq<T>, f: T -> bool)
    ensures |Filter(s, f)| >= 1 <==> exists i :: 0 <= i < |s| && f(s[i])
  {
    if |Filter(s, f)| >= 1 {
      assert Filter(s, f)[0] in Filter(s, f);
    }
    if exists i :: 0 <= i < |s| && f(s[i]) {
      var i :| 0 <= i < |s| && f(s[i]);
      assert s[i] in Filter(s, f);
    }
  }

  predicate TwoWhere<T>(s: seq<T>, f: T -> bool) {
    exists i, j :: 0 <= i < j < |s| && f(s[i]) && f(s[j])
  }

  /** A filter keeps at least two elements exactly when two positions satisfy the predicate. */
  lemma {:induction false} FilterTwoIff<T(!new)>(s: seq<T>, f: T -> bool)
    ensures |Filter(s, f)| >= 2 <==> TwoWhere(s, f)
  {
    if s != [] {
      var rest := s[1..];
      if f(s[0]) {
        assert Filter(s, f) == [s[0]] + Filter(rest, f);
        FilterNonEmptyIff(rest, f);
        HeadPairs(s, f);
      } else {
        assert Filter(s, f) == Filter(rest, f);
        FilterTwoIff(rest, f);
        TailPairs(s, f);
      }
    }
  }

  lemma HeadPairs<T>(s: seq<T>, f: T -> bool)
    requires s != [] && f(s[0])
    ensures TwoWhere(s, f) <==> exists k :: 0 <= k < |s[1..]| && f(s[1..][k])
  {
    if TwoWhere(s, f) {
      var i, j :| 0 <= i < j < |s| && f(s[i]) && f(s[j]);
      assert f(s[1..][j - 1]);
    }
    if exists k :: 0 <= k < |s[1..]| && f(s[1..][k]) {
      var k :| 0 <= k < |s[1..]| && f(s[1..][k]);
      assert f(s[0]) && f(s[k + 1]);
    }
  }

  lemma TailPairs<T>(s: seq<T>, f: T -> bool)
    requires s != [] && !f(s[0])
    ensures TwoWhere(s, f) <==> TwoWhere(s[1..], f)
  {
    var rest := s[1..];
    if TwoWhere(s, f) {
      var i, j :| 0 <= i < j < |s| && f(s[i]) && f(s[j]);
      assert f(rest[i - 1]) && f(rest[j - 1]);
    }
    if TwoWhere(rest, f) {
      var i, j :| 0 <= i < j < |rest| && f(rest[i]) && f(rest[j]);
      assert f(s[i + 1]) && f(s[j + 1]);
    }
  }

  // ---------------------------------------------------------------- stable sorting

  /** The predicate "has key `k`" as a value, so that filters by key can be compared. */
  function KeyIs<T>(key: T -> int, k: int): T -> bool {
    (y: T) => key(y) == k
  }

  predicate SortedBy<T>(s: seq<T>, key: T -> int) {
    forall i, j :: 0 <= i < j < |s| ==> key(s[i]) <= key(s[j])
  }

  /** Insert `x` into the sorted `t` ahead of the first element whose key is not smaller. */
  function InsertBy<T(==,!new)>(x: T, t: seq<T>, key: T -> int): (r: seq<T>)
    requires SortedBy(t, key)
    ensures SortedBy(r, key)
    ensures multiset(r) == multiset(t) + multiset{x}
  {
    if t == [] || key(x) <= key(t[0]) then
      var r := [x] + t;
      assert forall j :: 1 <= j < |r| ==> r[j] == t[j - 1];
      r
    else
      var tail := InsertBy(x, t[1..], key);
      assert t == [t[0]] + t[1..];
      BoundedBelow(tail, x, t[1..], key, key(t[0]));
      [t[0]] + tail
  }

  /** Every element of a permutation of `[x] + t` has a key at least `lo` when `x` and `t`'s elements do. */
  lemma BoundedBelow<T>(r: seq<T>, x: T, t: seq<T>, key: T -> int, lo: int)
    requires multiset(r) == multiset(t) + multiset{x}
    requires lo <= key(x) && forall j :: 0 <= j < |t| ==> lo <= key(t[j])
    ensures forall j :: 0 <= j < |r| ==> lo <= key(r[j])
  {
    forall j | 0 <= j < |r| ensures lo <= key(r[j]) {
      assert r[j] in multiset(r);
      if r[j] != x {
        assert r[j] in multiset(t);
      }
    }
  }

  lemma FilterCons<T(!new)>(x: T, t: seq<T>, f: T -> bool)
    ensures Filter([x] + t, f) == (if f(x) then [x] + Filter(t, f) else Filter(t, f))
  {
    assert ([x] + t)[0] == x && ([x] + t)[1..] == t;
  }

  /** Inserting `x` puts it first among the elements with its key and leaves the others' order alone. */
  lemma {:induction false} InsertByKeepsKeyOrder<T(!new)>(x: T, t: seq<T>, key: T -> int, k: int)
    requires SortedBy(t, key)
    ensures Filter(InsertBy(x, t, key), KeyIs(key, k)) ==
      if key(x) == k then [x] + Filter(t, KeyIs(key, k)) else Filter(t, KeyIs(key, k))
  {
    var f := KeyIs(key, k);
    if t == [] || key(x) <= key(t[0]) {
      FilterCons(x, t, f);
    } else {
      var tail := InsertBy(x, t[1..], key);
      InsertByKeepsKeyOrder(x, t[1..], key, k);
      FilterCons(t[0], tail, f);
      FilterCons(t[0], t[1..], f);
      assert t == [t[0]] + t[1..];
    }
  }

  /**
    Java's stable `sorted(Comparator.comparing(key))`: the result is ordered
    by key and is a permutation of the input.
  */
  function SortBy<T(==,!new)>(s: seq<T>, key: T -> int): (r: seq<T>)
    ensures |r| == |s|
    ensures SortedBy(r, key)
    ensures multiset(r) == multiset(s)
  {
    if s == [] then []
    else
      assert s == [s[0]] + s[1..];
      var r := InsertBy(s[0], SortBy(s[1..], key), key);
      assert |r| == |multiset(r)|;
      r
  }

  /** The sort is stable: the elements sharing any one key keep their original relative order. */
  lemma {:induction false} SortByIsStable<T(!new)>(s: seq<T>, key: T -> int, k: int)
    ensures Filter(SortBy(s, key), KeyIs(key, k)) == Filter(s, KeyIs(key, k))
  {
    if s != [] {
      SortByIsStable(s[1..], key, k);
      InsertByKeepsKeyOrder(s[0], SortBy(s[1..], key), key, k);
      FilterCons(s[0], s[1..], KeyIs(key, k));
      assert s == [s[0]] + s[1..];
    }
  }
}
