/** Sequence helpers: optional maps, filters and a stable sort. */
module Sequences {
  import opened Common

  function FilterMap<A, B>(xs: seq<A>, f: A -> Option<B>): (r: seq<B>)
    ensures |r| <= |xs|
  {
    if xs == [] then []
    else (match f(xs[0]) case Some(b) => [b] case None => []) + FilterMap(xs[1..], f)
  }

  lemma {:induction false} FilterMapIn<A, B>(xs: seq<A>, f: A -> Option<B>, b: B)
    ensures b in FilterMap(xs, f) <==> exists x :: x in xs && f(x) == Some(b)
  {
    if xs != [] {
      FilterMapIn(xs[1..], f, b);
      assert xs == [xs[0]] + xs[1..];
    }
  }

  function FlatMap<A, B>(xs: seq<A>, f: A -> seq<B>): (r: seq<B>) {
    if xs == [] then [] else f(xs[0]) + FlatMap(xs[1..], f)
  }

  lemma {:induction false} FlatMapIn<A, B>(xs: seq<A>, f: A -> seq<B>, b: B)
    ensures b in FlatMap(xs, f) <==> exists x :: x in xs && b in f(x)
  {
    if xs != [] {
      FlatMapIn(xs[1..], f, b);
      assert xs == [xs[0]] + xs[1..];
    }
  }

  function Flatten<A>(xss: seq<seq<A>>): seq<A> {
    if xss == [] then [] else xss[0] + Flatten(xss[1..])
  }

  lemma {:induction false} FlattenSplit<A>(xss: seq<seq<A>>, k: nat)
    requires k <= |xss|
    ensures Flatten(xss) == Flatten(xss[..k]) + Flatten(xss[k..])
  {
    if k == 0 {
      assert xss[0..] == xss;
    } else {
      FlattenSplit(xss[1..], k - 1);
      assert xss[..k][1..] == xss[1..][..k - 1];
      assert xss[1..][k - 1..] == xss[k..];
    }
  }

  lemma AppendAssociative<A>(a: seq<A>, b: seq<A>, c: seq<A>)
    ensures (a + b) + c == a + (b + c)
  {
  }

  lemma DropAppend<A>(a: seq<A>, b: seq<A>, n: nat)
    requires n <= |a|
    ensures (a + b)[n..] == a[n..] + b
  {
  }

  lemma AppendNothing<A>(a: seq<A>)
    ensures [] + a == a && a + [] == a
  {
  }

  lemma SamePrefix<A>(a: seq<A>, b: seq<A>, c: seq<A>)
    requires a + b == a + c
    ensures b == c
  {
    assert b == (a + b)[|a|..] && c == (a + c)[|a|..];
  }

  predicate Distinct<A(==)>(xs: seq<A>) {
    forall i, j :: 0 <= i < j < |xs| ==> xs[i] != xs[j]
  }

  // ---------- a stable sort ----------

  ghost predicate TotalPreorder<A(!new)>(le: (A, A) -> bool) {
    && (forall a, b :: le(a, b) || le(b, a))
    && (forall a, b, c :: le(a, b) && le(b, c) ==> le(a, c))
  }

  ghost predicate SortedBy<A>(xs: seq<A>, le: (A, A) -> bool) {
    forall i, j :: 0 <= i < j < |xs| ==> le(xs[i], xs[j])
  }

  /** `x` goes before the first element it does not exceed, so ties keep their order. */
  function Insert<A>(x: A, xs: seq<A>, le: (A, A) -> bool): (r: seq<A>)
    ensures multiset(r) == multiset{x} + multiset(xs)
  {
    if xs == [] then [x]
    else if le(x, xs[0]) then [x] + xs
    else
      assert xs == [xs[0]] + xs[1..];
      [xs[0]] + Insert(x, xs[1..], le)
  }

  function Sort<A>(xs: seq<A>, le: (A, A) -> bool): (r: seq<A>)
    ensures multiset(r) == multiset(xs)
  {
    if xs == [] then []
    else
      assert xs == [xs[0]] + xs[1..];
      Insert(xs[0], Sort(xs[1..], le), le)
  }

  lemma {:induction false} InsertSorted<A(!new)>(x: A, xs: seq<A>, le: (A, A) -> bool)
    requires TotalPreorder(le) && SortedBy(xs, le)
    ensures SortedBy(Insert(x, xs, le), le)
  {
    if xs != [] && !le(x, xs[0]) {
      InsertSorted(x, xs[1..], le);
      var r := Insert(x, xs[1..], le);
      forall y | y in r ensures le(xs[0], y) {
        assert y in multiset(r);
        assert y == x || y in xs[1..];
      }
    }
  }

  lemma {:induction false} SortSorted<A(!new)>(xs: seq<A>, le: (A, A) -> bool)
    requires TotalPreorder(le)
    ensures SortedBy(Sort(xs, le), le)
  {
    if xs != [] {
      SortSorted(xs[1..], le);
      InsertSorted(xs[0], Sort(xs[1..], le), le);
    }
  }

  lemma SortIn<A>(xs: seq<A>, le: (A, A) -> bool, x: A)
    ensures x in Sort(xs, le) <==> x in xs
  {
    assert x in multiset(Sort(xs, le)) <==> x in multiset(xs);
  }

  lemma {:induction false} InsertDistinct<A>(x: A, xs: seq<A>, le: (A, A) -> bool)
    requires Distinct(xs) && x !in xs
    ensures Distinct(Insert(x, xs, le))
  {
    if xs != [] && !le(x, xs[0]) {
      InsertDistinct(x, xs[1..], le);
      var r := Insert(x, xs[1..], le);
      assert xs[0] !in xs[1..];
      assert xs[0] !in multiset(r);
      assert xs[0] !in r;
    }
  }

  lemma {:induction false} SortDistinct<A>(xs: seq<A>, le: (A, A) -> bool)
    requires Distinct(xs)
    ensures Distinct(Sort(xs, le))
  {
    if xs != [] {
      SortDistinct(xs[1..], le);
      SortIn(xs[1..], le, xs[0]);
      InsertDistinct(xs[0], Sort(xs[1..], le), le);
    }
  }
}
