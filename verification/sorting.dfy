/**
  Orderings the store's queries produce: the ascending enumeration of a table's
  keys (`order('id')`), a stable sort of rows by an integer key (`order('start_time')`,
  `ORDER BY created_at DESC`, and JavaScript's stable `Array.prototype.sort`),
  row filtering, and a key that is not yet taken (the store's serial id).
 */
module Sorting {

  /** `xs` is in non-decreasing order of `key`. */
  predicate SortedBy<T>(xs: seq<T>, key: T -> int) {
    forall i, j :: 0 <= i < j < |xs| ==> key(xs[i]) <= key(xs[j])
  }

  /** `xs` is strictly increasing. */
  predicate StrictlyIncreasing(xs: seq<int>) {
    forall i, j :: 0 <= i < j < |xs| ==> xs[i] < xs[j]
  }

  /** Places `x` before the first element whose key is not smaller, so earlier equal keys stay first. */
  function Insert<T>(x: T, xs: seq<T>, key: T -> int): (r: seq<T>)
    requires SortedBy(xs, key)
    ensures |r| == |xs| + 1
    ensures forall k :: 0 <= k < |r| ==> r[k] == x || r[k] in xs
    ensures multiset(r) == multiset(xs) + multiset{x}
    ensures SortedBy(r, key)
  {
    if |xs| == 0 || key(x) <= key(xs[0]) then
      SortedCons(x, xs, key);
      [x] + xs
    else
      var rest := Insert(x, xs[1..], key);
      assert xs == [xs[0]] + xs[1..];
      SortedCons(xs[0], rest, key);
      [xs[0]] + rest
  }

  lemma SortedCons<T>(h: T, rest: seq<T>, key: T -> int)
    requires SortedBy(rest, key)
    requires forall k :: 0 <= k < |rest| ==> key(h) <= key(rest[k])
    ensures SortedBy([h] + rest, key)
  {
    var t := [h] + rest;
    forall i, j | 0 <= i < j < |t|
      ensures key(t[i]) <= key(t[j])
    {
      assert t[j] == rest[j - 1];
      if i > 0 {
        assert t[i] == rest[i - 1];
      }
    }
  }

  /** Stable insertion sort by `key`: a permutation of `xs` in non-decreasing key order. */
  function SortBy<T>(xs: seq<T>, key: T -> int): (r: seq<T>)
    ensures SortedBy(r, key)
    ensures multiset(r) == multiset(xs)
    ensures |r| == |xs|
  {
    if |xs| == 0 then []
    else
      assert xs == [xs[0]] + xs[1..];
      Insert(xs[0], SortBy(xs[1..], key), key)
  }

  /** Sorting keeps exactly the elements it was given. */
  lemma SortByMembers<T>(xs: seq<T>, key: T -> int)
    ensures forall y :: y in SortBy(xs, key) <==> y in xs
  {
    var r := SortBy(xs, key);
    forall y
      ensures y in r <==> y in xs
    {
      assert y in r <==> y in multiset(r);
      assert y in xs <==> y in multiset(xs);
    }
  }

  /** The elements of `xs` that satisfy `p`, in their original order. */
  function Filter<T>(xs: seq<T>, p: T -> bool): (r: seq<T>)
    ensures |r| <= |xs|
    ensures forall k :: 0 <= k < |r| ==> p(r[k])
  {
    if |xs| == 0 then []
    else if p(xs[0]) then [xs[0]] + Filter(xs[1..], p)
    else Filter(xs[1..], p)
  }

  /** Filtering keeps exactly the elements that satisfy the test. */
  lemma {:induction false} FilterMembers<T>(xs: seq<T>, p: T -> bool)
    ensures forall k :: 0 <= k < |Filter(xs, p)| ==> Filter(xs, p)[k] in xs
    ensures forall k :: 0 <= k < |xs| && p(xs[k]) ==> xs[k] in Filter(xs, p)
  {
    if |xs| > 0 {
      var tail := xs[1..];
      FilterMembers(tail, p);
      var r := Filter(xs, p);
      forall k | 0 <= k < |r|
        ensures r[k] in xs
      {
        if p(xs[0]) && k == 0 {
        } else {
          var j := if p(xs[0]) then k - 1 else k;
          assert r[k] == Filter(tail, p)[j];
        }
      }
      forall k | 0 <= k < |xs| && p(xs[k])
        ensures xs[k] in r
      {
        if k > 0 {
          assert xs[k] == tail[k - 1];
        }
      }
    }
  }

  /** The position of a value known to be in a sequence. */
  function IndexOf<T(==)>(xs: seq<T>, x: T): (i: int)
    requires x in xs
    ensures 0 <= i < |xs| && xs[i] == x
  {
    if xs[0] == x then 0 else 1 + IndexOf(xs[1..], x)
  }

  /** A set that is not empty has an element. */
  lemma Inhabited(s: set<int>)
    ensures s == {} || exists x :: x in s
  {
    if forall x :: x !in s {
      assert s == {};
    }
  }

  /** A least element of a finite, non-empty set of integers, found by removing elements one at a time. */
  ghost function Least(s: set<int>): (m: int)
    requires s != {}
    ensures m in s
    ensures forall x :: x in s ==> m <= x
    decreases |s|
  {
    Inhabited(s);
    var y :| y in s;
    if s == {y} then y
    else
      var rest := Least(s - {y});
      assert forall x :: x in s ==> x == y || x in s - {y};
      if y < rest then y else rest
  }

  /** The least element of a finite, non-empty set of integers. */
  function Minimum(s: set<int>): (m: int)
    requires s != {}
    ensures m in s
    ensures forall x :: x in s ==> m <= x
  {
    assert Least(s) in s;
    var m :| m in s && (forall x :: x in s ==> m <= x);
    m
  }

  /** The keys of a table in ascending order, each exactly once. */
  function Ascending(s: set<int>): (r: seq<int>)
    ensures StrictlyIncreasing(r)
    ensures forall x :: x in r <==> x in s
    ensures |r| == |s|
    decreases |s|
  {
    if s == {} then []
    else
      var m := Minimum(s);
      var rest := Ascending(s - {m});
      assert forall k :: 0 <= k < |rest| ==> rest[k] in s - {m};
      [m] + rest
  }

  /** A positive key larger than every key already in use, as a serial column hands out. */
  function FreshKey(s: set<int>): (k: int)
    ensures k > 0
    ensures k !in s
    ensures forall x :: x in s ==> x < k
  {
    if s == {} then 1
    else
      var r := Ascending(s);
      var top := r[|r| - 1];
      assert forall x :: x in s ==> x <= top by {
        forall x | x in s
          ensures x <= top
        {
          var i :| 0 <= i < |r| && r[i] == x;
          assert i == |r| - 1 || r[i] < r[|r| - 1];
        }
      }
      if top + 1 > 0 then top + 1 else 1
  }

  /** Storing a row under a key not in use adds exactly that key and keeps every other row. */
  lemma AddRow<V>(m: map<int, V>, k: int, v: V)
    requires k !in m
    ensures m[k := v].Keys == m.Keys + {k}
    ensures |m[k := v]| == |m| + 1
    ensures m[k := v][k] == v
    ensures forall c :: c in m ==> m[k := v][c] == m[c]
  {
    assert m[k := v].Keys == m.Keys + {k};
  }

  /** No element occurs twice. */
  predicate Distinct<T(==)>(xs: seq<T>) {
    forall i, j :: 0 <= i < j < |xs| ==> xs[i] != xs[j]
  }

  /** A sequence has no repeated element exactly when no element occurs twice in its multiset. */
  lemma {:induction false} DistinctMultiplicity<T>(xs: seq<T>)
    ensures Distinct(xs) <==> forall x :: multiset(xs)[x] <= 1
  {
    if Distinct(xs) {
      if |xs| > 0 {
        var tail := xs[1..];
        assert xs == [xs[0]] + tail;
        assert Distinct(tail) by {
          forall i, j | 0 <= i < j < |tail|
            ensures tail[i] != tail[j]
          {
            assert tail[i] == xs[i + 1] && tail[j] == xs[j + 1];
          }
        }
        DistinctMultiplicity(tail);
        assert xs[0] !in tail by {
          forall k | 0 <= k < |tail|
            ensures tail[k] != xs[0]
          {
            assert tail[k] == xs[k + 1];
          }
        }
        assert multiset(tail)[xs[0]] == 0;
        forall x
          ensures multiset(xs)[x] <= 1
        {
          assert multiset(xs)[x] == multiset([xs[0]])[x] + multiset(tail)[x];
        }
      }
    } else {
      var i, j :| 0 <= i < j < |xs| && xs[i] == xs[j];
      assert xs == xs[..j] + xs[j..];
      assert xs[i] in xs[..j];
      assert xs[j] in xs[j..];
      assert multiset(xs)[xs[i]] == multiset(xs[..j])[xs[i]] + multiset(xs[j..])[xs[i]];
    }
  }

  /** Reordering keeps a sequence free of repeats. */
  lemma DistinctPermutation<T>(xs: seq<T>, ys: seq<T>)
    requires multiset(xs) == multiset(ys)
    requires Distinct(xs)
    ensures Distinct(ys)
  {
    DistinctMultiplicity(xs);
    DistinctMultiplicity(ys);
  }
}
