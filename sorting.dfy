/** A stable sort, written as the insertion sort of the positions 0..n-1 under
    the order "smaller key first, and the earlier position first among equal keys".
    Python's `list.sort` (also with `reverse=True`, on negated keys) produces
    exactly this order. NumPy's default `argsort` is not stable and may order
    equal keys otherwise; the model uses this order for it too. */
module Sorting {

  /** Position `i` comes before position `j`. */
  predicate Before(key: nat -> real, i: nat, j: nat) {
    key(i) < key(j) || (key(i) == key(j) && i < j)
  }

  predicate Ordered(key: nat -> real, s: seq<nat>) {
    forall p, q :: 0 <= p < q < |s| ==> Before(key, s[p], s[q])
  }

  function Insert(key: nat -> real, x: nat, s: seq<nat>): (r: seq<nat>)
    requires Ordered(key, s) && x !in s
    ensures |r| == |s| + 1
    ensures forall y :: y in r <==> y == x || y in s
    ensures Ordered(key, r)
  {
    if s == [] || Before(key, x, s[0]) then [x] + s
    else
      var rest := Insert(key, x, s[1..]);
      assert forall y :: y in s[1..] ==> y in s;
      assert forall q :: 0 <= q < |rest| ==> rest[q] in rest;
      [s[0]] + rest
  }

  /** The positions 0..n-1 in stable ascending order of `key`. */
  function SortIdx(key: nat -> real, n: nat): (r: seq<nat>)
    ensures |r| == n
    ensures forall i: nat :: i in r <==> i < n
    ensures forall k :: 0 <= k < |r| ==> r[k] < n
    ensures Ordered(key, r)
  {
    if n == 0 then []
    else
      var r := Insert(key, n - 1, SortIdx(key, n - 1));
      assert forall k :: 0 <= k < |r| ==> r[k] in r;
      r
  }

  /** The elements of `xs` taken in the order `order` gives. */
  function Arrange<T>(xs: seq<T>, order: seq<nat>): (r: seq<T>)
    requires forall k :: 0 <= k < |order| ==> order[k] < |xs|
    ensures |r| == |order| && forall k :: 0 <= k < |order| ==> r[k] == xs[order[k]]
  {
    seq(|order|, k requires 0 <= k < |order| => xs[order[k]])
  }

  /** An ordered sequence of positions never repeats one, so sorting 0..n-1
      is a permutation of it. */
  lemma {:induction false} OrderedDistinct(key: nat -> real, s: seq<nat>)
    requires Ordered(key, s)
    ensures forall p, q :: 0 <= p < |s| && 0 <= q < |s| && p != q ==> s[p] != s[q]
  {
    forall p, q | 0 <= p < |s| && 0 <= q < |s| && p != q ensures s[p] != s[q] {
      if p < q { assert Before(key, s[p], s[q]); } else { assert Before(key, s[q], s[p]); }
    }
  }

  /** Arranging by a sorted list of positions yields a rearrangement of `xs`
      that is ordered by the key. */
  lemma ArrangeSorted<T>(xs: seq<T>, key: nat -> real)
    ensures var r := Arrange(xs, SortIdx(key, |xs|));
      |r| == |xs|
      && multiset(r) == multiset(xs)
      && (forall c :: c in r <==> c in xs)
      && (forall p, q :: 0 <= p < q < |r| ==> key(SortIdx(key, |xs|)[p]) <= key(SortIdx(key, |xs|)[q]))
  {
    var order := SortIdx(key, |xs|);
    var r := Arrange(xs, order);
    ArrangeSortIdx(xs, key, |xs|);
    assert xs[..|xs|] == xs;
    forall c | c in xs ensures c in r {
      var k :| 0 <= k < |xs| && xs[k] == c;
      assert k in order;
      var q :| 0 <= q < |order| && order[q] == k;
      assert r[q] == c;
    }
    forall p, q | 0 <= p < q < |r| ensures key(order[p]) <= key(order[q]) {
      assert Before(key, order[p], order[q]);
    }
  }

  /** Arranging by `[y] + s` puts `xs[y]` in front of the arrangement by `s`. */
  lemma ArrangeCons<T>(xs: seq<T>, y: nat, s: seq<nat>)
    requires y < |xs| && forall k :: 0 <= k < |s| ==> s[k] < |xs|
    ensures Arrange(xs, [y] + s) == [xs[y]] + Arrange(xs, s)
  {
    var ys := [y] + s;
    var a := Arrange(xs, ys);
    var b := Arrange(xs, s);
    forall k | 0 <= k < |a| ensures a[k] == ([xs[y]] + b)[k] {
      if k > 0 {
        assert ys[k] == s[k - 1];
      }
    }
  }

  /** Inserting position `x` adds `xs[x]` to the arranged elements. */
  lemma {:induction false} ArrangeInsert<T>(xs: seq<T>, key: nat -> real, x: nat, s: seq<nat>)
    requires Ordered(key, s) && x !in s
    requires x < |xs| && forall k :: 0 <= k < |s| ==> s[k] < |xs|
    ensures forall k :: 0 <= k < |Insert(key, x, s)| ==> Insert(key, x, s)[k] < |xs|
    ensures multiset(Arrange(xs, Insert(key, x, s))) == multiset(Arrange(xs, s)) + multiset{xs[x]}
  {
    var r := Insert(key, x, s);
    forall k | 0 <= k < |r| ensures r[k] < |xs| {
      assert r[k] in r;
      if r[k] != x {
        var j :| 0 <= j < |s| && s[j] == r[k];
      }
    }
    if s == [] || Before(key, x, s[0]) {
      assert r == [x] + s;
      ArrangeCons(xs, x, s);
    } else {
      var tail := s[1..];
      var rest := Insert(key, x, tail);
      assert r == [s[0]] + rest;
      assert s == [s[0]] + tail;
      ArrangeInsert(xs, key, x, tail);
      ArrangeCons(xs, s[0], rest);
      ArrangeCons(xs, s[0], tail);
    }
  }

  /** Arranging by the sorted positions 0..n-1 takes each of the first `n`
      elements once. */
  lemma {:induction false} ArrangeSortIdx<T>(xs: seq<T>, key: nat -> real, n: nat)
    requires n <= |xs|
    ensures multiset(Arrange(xs, SortIdx(key, n))) == multiset(xs[..n])
  {
    if n > 0 {
      ArrangeSortIdx(xs, key, n - 1);
      ArrangeInsert(xs, key, n - 1, SortIdx(key, n - 1));
      assert xs[..n] == xs[..n - 1] + [xs[n - 1]];
    }
  }
}
