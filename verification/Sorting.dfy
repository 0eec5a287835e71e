/** Sorting by insertion, for any total order. */
module Sorting {

  ghost predicate IsOrder<T(!new)>(le: (T, T) -> bool) {
    && (forall a, b :: le(a, b) || le(b, a))
    && (forall a, b, c :: le(a, b) && le(b, c) ==> le(a, c))
  }

  ghost predicate Ordered<T>(xs: seq<T>, le: (T, T) -> bool) {
    forall i, j :: 0 <= i < j < |xs| ==> le(xs[i], xs[j])
  }

  function Insert<T>(xs: seq<T>, x: T, le: (T, T) -> bool): (ys: seq<T>)
    ensures multiset(ys) == multiset(xs) + multiset{x}
  {
    if xs == [] then [x]
    else if le(x, xs[0]) then [x] + xs
    else
      assert xs == [xs[0]] + xs[1..];
      [xs[0]] + Insert(xs[1..], x, le)
  }

  lemma {:induction false} InsertKeepsOrder<T(!new)>(xs: seq<T>, x: T, le: (T, T) -> bool)
    requires IsOrder(le) && Ordered(xs, le)
    ensures Ordered(Insert(xs, x, le), le)
  {
    if xs != [] {
      if le(x, xs[0]) {
        assert forall i :: 0 < i < |xs| ==> le(x, xs[i]) by {
          forall i | 0 < i < |xs|
            ensures le(x, xs[i])
          {
            assert le(xs[0], xs[i]);
          }
        }
      } else {
        InsertKeepsOrder(xs[1..], x, le);
        forall y | y in Insert(xs[1..], x, le)
          ensures le(xs[0], y)
        {
          assert y in multiset(Insert(xs[1..], x, le));
          if y != x {
            var i :| 0 <= i < |xs[1..]| && xs[1..][i] == y;
            assert xs[i + 1] == y;
          }
        }
      }
    }
  }

  method Sort<T(!new)>(xs: seq<T>, le: (T, T) -> bool) returns (ys: seq<T>)
    requires IsOrder(le)
    ensures Ordered(ys, le) && multiset(ys) == multiset(xs)
  {
    ys := [];
    for n := 0 to |xs|
      invariant Ordered(ys, le) && multiset(ys) == multiset(xs[..n])
    {
      InsertKeepsOrder(ys, xs[n], le);
      ys := Insert(ys, xs[n], le);
      assert xs[..n + 1] == xs[..n] + [xs[n]];
    }
    assert xs[..|xs|] == xs;
  }

  /** A permutation has the same members. */
  lemma SameMembers<T>(xs: seq<T>, ys: seq<T>)
    requires multiset(xs) == multiset(ys)
    ensures |xs| == |ys| && forall x :: x in xs <==> x in ys
  {
    assert |multiset(xs)| == |xs| && |multiset(ys)| == |ys|;
    forall x
      ensures x in xs <==> x in ys
    {
      assert x in xs <==> x in multiset(xs);
      assert x in ys <==> x in multiset(ys);
    }
  }
}
