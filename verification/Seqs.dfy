/** Mapping and filtering sequences, and what both do to a sequence's multiset. */
module Seqs {

  function Map<T, U>(f: T -> U, xs: seq<T>): (r: seq<U>)
    ensures |r| == |xs| && forall i :: 0 <= i < |xs| ==> r[i] == f(xs[i])
  {
    seq(|xs|, i requires 0 <= i < |xs| => f(xs[i]))
  }

  function Filter<T>(p: T -> bool, xs: seq<T>): seq<T> {
    if xs == [] then []
    else
      var x := xs[|xs| - 1];
      Filter(p, xs[..|xs| - 1]) + if p(x) then [x] else []
  }

  lemma MapSnoc<T, U>(f: T -> U, xs: seq<T>, x: T)
    ensures Map(f, xs + [x]) == Map(f, xs) + [f(x)]
  {
  }

  lemma FilterSnoc<T>(p: T -> bool, xs: seq<T>, x: T)
    ensures Filter(p, xs + [x]) == Filter(p, xs) + if p(x) then [x] else []
  {
    assert (xs + [x])[..|xs|] == xs;
  }

  lemma {:induction false} FilterCount<T>(p: T -> bool, xs: seq<T>, x: T)
    ensures multiset(Filter(p, xs))[x] == if p(x) then multiset(xs)[x] else 0
  {
    if xs != [] {
      assert xs == xs[..|xs| - 1] + [xs[|xs| - 1]];
      FilterCount(p, xs[..|xs| - 1], x);
    }
  }

  lemma FilterPermutes<T(!new)>(p: T -> bool, xs: seq<T>, ys: seq<T>)
    requires multiset(xs) == multiset(ys)
    ensures multiset(Filter(p, xs)) == multiset(Filter(p, ys))
  {
    hide Filter;
    forall x: T ensures multiset(Filter(p, xs))[x] == multiset(Filter(p, ys))[x] {
      FilterCount(p, xs, x);
      FilterCount(p, ys, x);
    }
  }

  lemma FilterMember<T>(p: T -> bool, xs: seq<T>, x: T)
    ensures x in Filter(p, xs) <==> x in xs && p(x)
  {
    FilterCount(p, xs, x);
    assert x in xs <==> x in multiset(xs);
    assert x in Filter(p, xs) <==> x in multiset(Filter(p, xs));
  }

  /** Filtering commutes with mapping when the map keeps what the filter looks at. */
  lemma {:induction false} FilterOfMap<T, U>(f: T -> U, p: T -> bool, q: U -> bool, xs: seq<T>)
    requires forall i :: 0 <= i < |xs| ==> p(xs[i]) == q(f(xs[i]))
    ensures Filter(q, Map(f, xs)) == Map(f, Filter(p, xs))
  {
    if xs != [] {
      var init, x := xs[..|xs| - 1], xs[|xs| - 1];
      FilterOfMap(f, p, q, init);
      assert xs == init + [x];
      MapSnoc(f, init, x);
      FilterSnoc(q, Map(f, init), f(x));
      MapSnoc(f, Filter(p, init), x);
    }
  }

  function Without<T>(xs: seq<T>, j: nat): (r: seq<T>)
    requires j < |xs|
    ensures |r| == |xs| - 1
  {
    xs[..j] + xs[j + 1..]
  }

  lemma WithoutMultiset<T>(xs: seq<T>, j: nat)
    requires j < |xs|
    ensures multiset(Without(xs, j)) == multiset(xs) - multiset{xs[j]}
    ensures multiset(xs) == multiset(Without(xs, j)) + multiset{xs[j]}
  {
    assert xs == xs[..j] + [xs[j]] + xs[j + 1..];
  }

  lemma MapWithout<T, U>(f: T -> U, xs: seq<T>, j: nat)
    requires j < |xs|
    ensures multiset(Map(f, xs)) == multiset(Map(f, Without(xs, j))) + multiset{f(xs[j])}
  {
    WithoutMultiset(Map(f, xs), j);
    assert Map(f, Without(xs, j)) == Without(Map(f, xs), j);
  }

  lemma {:induction false} MapPermutes<T, U>(f: T -> U, xs: seq<T>, ys: seq<T>)
    requires multiset(xs) == multiset(ys)
    ensures multiset(Map(f, xs)) == multiset(Map(f, ys))
    decreases |xs|
  {
    hide Without, Map;
    assert |xs| == |multiset(xs)| && |ys| == |multiset(ys)|;
    if xs != [] {
      assert xs[0] in multiset(ys);
      var j :| 0 <= j < |ys| && ys[j] == xs[0];
      WithoutMultiset(xs, 0);
      WithoutMultiset(ys, j);
      MapPermutes(f, Without(xs, 0), Without(ys, j));
      MapWithout(f, xs, 0);
      MapWithout(f, ys, j);
    }
  }

  ghost predicate Injective<T(!new), U>(f: T -> U) {
    forall x, y :: f(x) == f(y) ==> x == y
  }

  lemma {:induction false} MapCount<T(!new), U>(f: T -> U, xs: seq<T>, x: T)
    requires Injective(f)
    ensures multiset(Map(f, xs))[f(x)] == multiset(xs)[x]
  {
    if xs != [] {
      var init, last := xs[..|xs| - 1], xs[|xs| - 1];
      assert xs == init + [last];
      MapSnoc(f, init, last);
      MapCount(f, init, x);
    }
  }

  /** An injective map keeps and reflects equality of multisets. */
  lemma MapMultisetExact<T(!new), U>(f: T -> U, xs: seq<T>, ys: seq<T>)
    requires Injective(f)
    ensures multiset(Map(f, xs)) == multiset(Map(f, ys)) <==> multiset(xs) == multiset(ys)
  {
    if multiset(xs) == multiset(ys) {
      MapPermutes(f, xs, ys);
    }
    if multiset(Map(f, xs)) == multiset(Map(f, ys)) {
      forall x | x in multiset(xs) || x in multiset(ys) ensures multiset(xs)[x] == multiset(ys)[x] {
        MapCount(f, xs, x);
        MapCount(f, ys, x);
      }
    }
  }

  lemma MapExact<T(!new), U>(f: T -> U, xs: seq<T>, ys: seq<T>)
    requires Injective(f)
    ensures Map(f, xs) == Map(f, ys) <==> xs == ys
  {
    if Map(f, xs) == Map(f, ys) {
      assert forall i :: 0 <= i < |xs| ==> f(xs[i]) == Map(f, xs)[i] == f(ys[i]);
    }
  }

  lemma Twice<T>(xs: seq<T>, i: nat, j: nat)
    requires i < j < |xs| && xs[i] == xs[j]
    ensures multiset(xs)[xs[i]] >= 2
  {
    assert xs == xs[..j] + xs[j..];
    assert xs[i] in xs[..j] && xs[i] in xs[j..] by {
      assert xs[..j][i] == xs[i] && xs[j..][0] == xs[i];
    }
  }
}
