/** Sorting by an integer key, greatest first: `$sort: { count: -1 }` in a
    pipeline and `arr.sort((a, b) => key(b) - key(a))` in JavaScript. The
    sort here keeps ties in their input order, as JavaScript's stable sort
    does; a pipeline's `$sort` leaves the order of ties open, so for it only
    the order of the keys is meant. The least-first sort of a query,
    `sort({ key: 1 })`, is built from it. */
module Sorting {
  import opened Records

  predicate SortedDesc<T>(xs: seq<T>, key: T -> int) {
    forall i, j :: 0 <= i < j < |xs| ==> key(xs[i]) >= key(xs[j])
  }

  /** Inserts `x` after the last element whose key is not less than its
      own. */
  function Insert<T>(xs: seq<T>, x: T, key: T -> int): (r: seq<T>)
    requires SortedDesc(xs, key)
    ensures |r| == |xs| + 1
    ensures multiset(r) == multiset(xs) + multiset{x}
    ensures SortedDesc(r, key)
  {
    if |xs| == 0 then [x]
    else
      var init, last := xs[..|xs| - 1], xs[|xs| - 1];
      assert xs == init + [last];
      if key(last) >= key(x) then xs + [x]
      else
        var r := Insert(init, x, key) + [last];
        assert forall i :: 0 <= i < |r| - 1 ==> r[i] in multiset(init) + multiset{x};
        assert forall i :: 0 <= i < |init| ==> key(init[i]) >= key(last);
        r
  }

  /** Insertion sort from the front of the list. */
  function SortDesc<T>(xs: seq<T>, key: T -> int): (r: seq<T>)
    ensures |r| == |xs|
    ensures multiset(r) == multiset(xs)
    ensures SortedDesc(r, key)
  {
    if |xs| == 0 then []
    else
      var init, last := xs[..|xs| - 1], xs[|xs| - 1];
      assert xs == init + [last];
      Insert(SortDesc(init, key), last, key)
  }

  /** The key negated: sorting by it greatest first sorts by `key` least
      first. */
  function Negated<T>(key: T -> int): T -> int {
    (x: T) => -key(x)
  }

  /** Least key first, as `sort({ key: 1 })`. */
  function SortAsc<T>(xs: seq<T>, key: T -> int): (r: seq<T>)
    ensures |r| == |xs| && multiset(r) == multiset(xs)
    ensures forall i, j :: 0 <= i < j < |r| ==> key(r[i]) <= key(r[j])
  {
    var r := SortDesc(xs, Negated(key));
    assert forall i, j :: 0 <= i < j < |r| ==> Negated(key)(r[i]) >= Negated(key)(r[j]);
    r
  }

  /** Sorting keeps exactly the elements it was given. */
  lemma SortDescMembership<T>(xs: seq<T>, key: T -> int, x: T)
    ensures x in SortDesc(xs, key) <==> x in xs
  {
    var r := SortDesc(xs, key);
    assert x in r <==> x in multiset(r);
    assert x in xs <==> x in multiset(xs);
  }

  /** An element occurs at most once in a list without repetitions. */
  lemma {:induction false} DistinctOnce<T>(xs: seq<T>, x: T)
    requires Distinct(xs)
    ensures multiset(xs)[x] <= 1
  {
    if |xs| > 0 {
      var init, last := xs[..|xs| - 1], xs[|xs| - 1];
      assert xs == init + [last];
      assert Distinct(init);
      DistinctOnce(init, x);
      if last == x {
        assert x !in init;
      }
    }
  }

  /** Reordering a list without repetitions leaves it without repetitions. */
  lemma PermutationKeepsDistinct<T>(xs: seq<T>, ys: seq<T>)
    requires Distinct(xs) && multiset(xs) == multiset(ys)
    ensures Distinct(ys)
  {
    forall i, j | 0 <= i < j < |ys|
      ensures ys[i] != ys[j]
    {
      if ys[i] == ys[j] {
        var y := ys[i];
        assert ys == ys[..j] + ys[j..];
        assert y in ys[..j] && y in ys[j..];
        assert multiset(ys)[y] == multiset(ys[..j])[y] + multiset(ys[j..])[y];
        DistinctOnce(xs, y);
      }
    }
  }
}
