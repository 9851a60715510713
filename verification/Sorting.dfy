/** Insertion into order and removal of repetitions, for sorting with a comparison function. */
module Sorting {

  ghost predicate TotalOrder<T(!new)>(le: (T, T) -> bool) {
    && (forall a, b :: le(a, b) || le(b, a))
    && (forall a, b, c :: le(a, b) && le(b, c) ==> le(a, c))
  }

  ghost predicate SortedBy<T>(le: (T, T) -> bool, xs: seq<T>) {
    forall i, j :: 0 <= i < j < |xs| ==> le(xs[i], xs[j])
  }

  predicate Distinct<T(==)>(xs: seq<T>) {
    forall i, j :: 0 <= i < j < |xs| ==> xs[i] != xs[j]
  }

  /** Puts x after every element that does not exceed it. */
  function Insert<T>(le: (T, T) -> bool, x: T, xs: seq<T>): (r: seq<T>)
    ensures |r| == |xs| + 1
    ensures multiset(r) == multiset(xs) + multiset{x}
  {
    if xs == [] then [x]
    else if le(xs[|xs| - 1], x) then xs + [x]
    else
      assert xs == xs[..|xs| - 1] + [xs[|xs| - 1]];
      Insert(le, x, xs[..|xs| - 1]) + [xs[|xs| - 1]]
  }

  function SortBy<T>(le: (T, T) -> bool, xs: seq<T>): (r: seq<T>)
    ensures multiset(r) == multiset(xs)
    ensures |r| == |xs|
  {
    if xs == [] then []
    else
      assert xs == xs[..|xs| - 1] + [xs[|xs| - 1]];
      Insert(le, xs[|xs| - 1], SortBy(le, xs[..|xs| - 1]))
  }

  lemma SameElements<T>(a: seq<T>, b: seq<T>)
    requires multiset(a) == multiset(b)
    ensures |a| == |b|
    ensures forall x :: x in a <==> x in b
  {
    assert |multiset(a)| == |a| && |multiset(b)| == |b|;
    forall x | x in a ensures x in b { assert x in multiset(a); }
    forall x | x in b ensures x in a { assert x in multiset(b); }
  }

  lemma {:induction false} InsertKeepsSorted<T(!new)>(le: (T, T) -> bool, x: T, xs: seq<T>)
    requires TotalOrder(le) && SortedBy(le, xs)
    ensures SortedBy(le, Insert(le, x, xs))
  {
    if xs != [] && !le(xs[|xs| - 1], x) {
      var init, last := xs[..|xs| - 1], xs[|xs| - 1];
      InsertKeepsSorted(le, x, init);
      var r := Insert(le, x, init);
      assert multiset(r) == multiset(init + [x]);
      SameElements(r, init + [x]);
      forall i | 0 <= i < |r| ensures le(r[i], last) {
        assert r[i] in init + [x];
        if r[i] != x { var k :| 0 <= k < |init| && init[k] == r[i]; assert xs[k] == r[i]; }
      }
    }
  }

  lemma {:induction false} SortBySorts<T(!new)>(le: (T, T) -> bool, xs: seq<T>)
    requires TotalOrder(le)
    ensures SortedBy(le, SortBy(le, xs))
  {
    if xs != [] {
      SortBySorts(le, xs[..|xs| - 1]);
      InsertKeepsSorted(le, xs[|xs| - 1], SortBy(le, xs[..|xs| - 1]));
    }
  }

  /** Keeps the first of equal elements. */
  function Unique<T(==)>(xs: seq<T>): seq<T> {
    if xs == [] then []
    else
      var init := Unique(xs[..|xs| - 1]);
      if xs[|xs| - 1] in init then init else init + [xs[|xs| - 1]]
  }

  lemma {:induction false} UniqueKeepsElements<T>(xs: seq<T>, x: T)
    ensures x in Unique(xs) <==> x in xs
  {
    if xs != [] {
      UniqueKeepsElements(xs[..|xs| - 1], x);
      assert xs == xs[..|xs| - 1] + [xs[|xs| - 1]];
    }
  }

  lemma {:induction false} UniqueIsDistinct<T>(xs: seq<T>)
    ensures Distinct(Unique(xs))
  {
    if xs != [] { UniqueIsDistinct(xs[..|xs| - 1]); }
  }

  lemma DistinctByMultiset<T>(a: seq<T>, b: seq<T>)
    requires multiset(a) == multiset(b) && Distinct(a)
    ensures Distinct(b)
  {
    forall i, j | 0 <= i < j < |b| ensures b[i] != b[j] {
      CountsOnce(a, b[i]);
      assert b[..j][i] == b[i];
      assert b == b[..j] + ([b[j]] + b[j + 1..]);
      assert multiset(b)[b[i]] == multiset(b[..j])[b[i]] + multiset([b[j]] + b[j + 1..])[b[i]];
    }
  }

  lemma {:induction false} CountsOnce<T>(a: seq<T>, x: T)
    requires Distinct(a)
    ensures multiset(a)[x] <= 1
  {
    if a != [] {
      var n := |a| - 1;
      assert a == a[..n] + [a[n]];
      CountsOnce(a[..n], x);
      assert forall k :: 0 <= k < n ==> a[..n][k] == a[k];
      if x == a[n] { assert x !in multiset(a[..n]); }
    }
  }
}
