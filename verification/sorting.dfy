/** Sorting by an integer key, the shape every `Array.prototype.sort` and
    `ORDER BY` in the app takes: ascending by `key`, where a descending order
    `(a, b) => b.x - a.x` is ascending by the key `-x`. Insertion sort places an
    element before the first one whose key is not smaller, so elements with
    equal keys keep their input order, as `Array.prototype.sort` does. */
module Sorting {

  ghost predicate SortedBy<T>(xs: seq<T>, key: T -> int) {
    forall i, j :: 0 <= i < j < |xs| ==> key(xs[i]) <= key(xs[j])
  }

  function Insert<T>(x: T, xs: seq<T>, key: T -> int): (r: seq<T>)
    requires SortedBy(xs, key)
    ensures SortedBy(r, key)
    ensures multiset(r) == multiset(xs) + multiset{x}
    ensures |r| == |xs| + 1
    ensures forall i :: 0 <= i < |r| ==> key(r[i]) == key(x) || key(r[i]) >= KeyLowerBound(xs, x, key)
  {
    if xs == [] || key(x) <= key(xs[0]) then
      [x] + xs
    else
      var rest := Insert(x, xs[1..], key);
      assert xs == [xs[0]] + xs[1..];
      InsertConsSorted(xs[0], x, xs[1..], rest, key);
      [xs[0]] + rest
  }

  /** A lower bound on the keys of `xs` and of `x`. */
  function KeyLowerBound<T>(xs: seq<T>, x: T, key: T -> int): int {
    if xs == [] then key(x) else if key(xs[0]) < key(x) then key(xs[0]) else key(x)
  }

  lemma InsertConsSorted<T>(y: T, x: T, tail: seq<T>, rest: seq<T>, key: T -> int)
    requires SortedBy([y] + tail, key) && key(y) < key(x)
    requires forall i :: 0 <= i < |rest| ==> key(rest[i]) == key(x) || key(rest[i]) >= KeyLowerBound(tail, x, key)
    requires SortedBy(rest, key)
    ensures SortedBy([y] + rest, key)
    ensures forall i :: 0 <= i < |rest| + 1 ==> key(([y] + rest)[i]) == key(x) || key(([y] + rest)[i]) >= KeyLowerBound([y] + tail, x, key)
  {
    if tail != [] {
      assert key(y) <= key(([y] + tail)[1]);
    }
    forall i, j | 0 <= i < j < |rest| + 1 ensures key(([y] + rest)[i]) <= key(([y] + rest)[j]) {
      if i > 0 {
        assert ([y] + rest)[i] == rest[i - 1] && ([y] + rest)[j] == rest[j - 1];
      } else {
        assert ([y] + rest)[j] == rest[j - 1];
      }
    }
  }

  /** The elements of `xs`, reordered so that keys ascend. */
  function SortBy<T>(xs: seq<T>, key: T -> int): (r: seq<T>)
    ensures SortedBy(r, key)
    ensures multiset(r) == multiset(xs)
    ensures |r| == |xs|
  {
    if xs == [] then []
    else
      assert xs == [xs[0]] + xs[1..];
      Insert(xs[0], SortBy(xs[1..], key), key)
  }

  /** Sorting neither loses nor invents elements. */
  lemma SortBySameElements<T>(xs: seq<T>, key: T -> int)
    ensures forall x :: x in SortBy(xs, key) <==> x in xs
  {
    var r := SortBy(xs, key);
    forall x ensures x in r <==> x in xs {
      assert x in r <==> x in multiset(r);
      assert x in xs <==> x in multiset(xs);
    }
  }

  /** Sorting a sequence whose keys already ascend leaves it unchanged. */
  lemma {:induction false} SortSortedIsIdentity<T>(xs: seq<T>, key: T -> int)
    requires SortedBy(xs, key)
    ensures SortBy(xs, key) == xs
  {
    if xs != [] {
      assert SortedBy(xs[1..], key);
      SortSortedIsIdentity(xs[1..], key);
      assert xs == [xs[0]] + xs[1..];
    }
  }

  /** The first `n` elements, as `slice(0, n)` does. */
  function Take<T>(xs: seq<T>, n: nat): (r: seq<T>)
    ensures |r| == if |xs| < n then |xs| else n
    ensures r <= xs
  {
    if |xs| <= n then xs else xs[..n]
  }

  /** No two elements share a key. */
  ghost predicate DistinctBy<T>(xs: seq<T>, key: T -> int) {
    forall i, j :: 0 <= i < j < |xs| ==> key(xs[i]) != key(xs[j])
  }

  /** Inserting an element whose key is new keeps the keys distinct. */
  lemma {:induction false} InsertKeepsDistinct<T>(x: T, xs: seq<T>, key: T -> int)
    requires SortedBy(xs, key) && DistinctBy(xs, key)
    requires forall i :: 0 <= i < |xs| ==> key(xs[i]) != key(x)
    ensures DistinctBy(Insert(x, xs, key), key)
    decreases |xs|
  {
    if !(xs == [] || key(x) <= key(xs[0])) {
      var tail := xs[1..];
      var rest := Insert(x, tail, key);
      InsertKeepsDistinct(x, tail, key);
      forall j | 0 <= j < |rest| ensures key(rest[j]) != key(xs[0]) {
        InsertedFrom(x, tail, key, j);
      }
      ConsKeepsDistinct(xs[0], rest, key);
    }
  }

  lemma ConsKeepsDistinct<T>(y: T, rest: seq<T>, key: T -> int)
    requires DistinctBy(rest, key)
    requires forall j :: 0 <= j < |rest| ==> key(rest[j]) != key(y)
    ensures DistinctBy([y] + rest, key)
  {
    var r := [y] + rest;
    forall a, b | 0 <= a < b < |r| ensures key(r[a]) != key(r[b]) {
      assert r[b] == rest[b - 1];
      if a > 0 {
        assert r[a] == rest[a - 1];
      }
    }
  }

  /** Every element of an insertion is the inserted one or an old one. */
  lemma InsertedFrom<T>(x: T, xs: seq<T>, key: T -> int, j: nat)
    requires SortedBy(xs, key) && j < |Insert(x, xs, key)|
    ensures Insert(x, xs, key)[j] == x || Insert(x, xs, key)[j] in xs
  {
    var r := Insert(x, xs, key);
    assert r[j] in multiset(r);
  }

  /** Sorting keeps distinct keys distinct; with `SortedBy` the keys then
      strictly ascend. */
  lemma {:induction false} SortKeepsDistinct<T>(xs: seq<T>, key: T -> int)
    requires DistinctBy(xs, key)
    ensures DistinctBy(SortBy(xs, key), key)
    decreases |xs|
  {
    if xs != [] {
      var tail := xs[1..];
      assert DistinctBy(tail, key) by {
        forall i, j | 0 <= i < j < |tail| ensures key(tail[i]) != key(tail[j]) {
          assert tail[i] == xs[i + 1] && tail[j] == xs[j + 1];
        }
      }
      SortKeepsDistinct(tail, key);
      var sorted := SortBy(tail, key);
      forall i | 0 <= i < |sorted| ensures key(sorted[i]) != key(xs[0]) {
        assert sorted[i] in multiset(sorted);
        var m :| 0 <= m < |tail| && tail[m] == sorted[i];
        assert tail[m] == xs[m + 1];
      }
      InsertKeepsDistinct(xs[0], sorted, key);
    }
  }

  /** `sort(...).slice(0, n)`: the n elements with the smallest keys, in
      ascending key order. Every element left out has a key no smaller
      than any element kept. */
  function TopN<T>(xs: seq<T>, key: T -> int, n: nat): (r: seq<T>)
    ensures |r| == if |xs| < n then |xs| else n
    ensures SortedBy(r, key)
    ensures multiset(r) <= multiset(xs)
    ensures forall x, y :: x in multiset(xs) - multiset(r) && y in r ==> key(y) <= key(x)
  {
    var sorted := SortBy(xs, key);
    var r := Take(sorted, n);
    TakeOfSorted(sorted, n, key);
    r
  }

  lemma TakeOfSorted<T>(sorted: seq<T>, n: nat, key: T -> int)
    requires SortedBy(sorted, key)
    ensures SortedBy(Take(sorted, n), key)
    ensures multiset(Take(sorted, n)) <= multiset(sorted)
    ensures forall x, y :: x in multiset(sorted) - multiset(Take(sorted, n)) && y in Take(sorted, n) ==> key(y) <= key(x)
  {
    var r := Take(sorted, n);
    var m := |r|;
    assert r == sorted[..m];
    PrefixSplit(sorted, m);
    forall x, y | x in multiset(sorted) - multiset(r) && y in r ensures key(y) <= key(x) {
      PrefixBeforeRest(sorted, m, key, x, y);
    }
  }

  lemma PrefixSplit<T>(xs: seq<T>, m: nat)
    requires m <= |xs|
    ensures multiset(xs) == multiset(xs[..m]) + multiset(xs[m..])
  {
    assert xs == xs[..m] + xs[m..];
  }

  /** In a sorted sequence an element of the first `m` comes no later than
      one of the rest. */
  lemma PrefixBeforeRest<T>(sorted: seq<T>, m: nat, key: T -> int, x: T, y: T)
    requires SortedBy(sorted, key) && m <= |sorted|
    requires x in sorted[m..] && y in sorted[..m]
    ensures key(y) <= key(x)
  {
    var j :| 0 <= j < |sorted[m..]| && sorted[m..][j] == x;
    var i :| 0 <= i < m && sorted[..m][i] == y;
    assert sorted[i] == y && sorted[m + j] == x;
  }
}
