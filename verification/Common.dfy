/** Outcomes and bounds shared by the other modules. */
module Common {
  /** How deep a chain of classes or a tree of pools may go. */
  const MAX_CHAIN_DEPTH := 8

  datatype Option<+T> = None | Some(value: T)

  datatype Failure = NoParent | InvalidReservation | ReservationTooLarge | PoolExhausted

  datatype Result<+T> = Ok(value: T) | Err(error: Failure)

  ghost function Pick<T>(xs: set<T>): (x: T)
    requires xs != {}
    ensures x in xs
  {
    var x :| x in xs; x
  }

  lemma SubsetCount<T>(a: set<T>, b: set<T>)
    requires a <= b
    ensures |a| <= |b|
  {
    assert b == a + (b - a);
    assert |a + (b - a)| == |a| + |b - a|;
  }

  /** The list without one value. */
  function Except<T(==)>(xs: seq<T>, x: T): seq<T> {
    if xs == [] then [] else (if xs[0] == x then [] else [xs[0]]) + Except(xs[1..], x)
  }

  lemma {:induction false} OthersStay<T>(xs: seq<T>, x: T)
    ensures multiset(Except(xs, x)) == multiset(xs)[x := 0]
    ensures x !in xs ==> Except(xs, x) == xs
  {
    if xs != [] {
      OthersStay(xs[1..], x);
      assert xs == [xs[0]] + xs[1..];
    }
  }

  lemma {:induction false} ExceptSplits<T>(a: seq<T>, b: seq<T>, x: T)
    ensures Except(a + b, x) == Except(a, x) + Except(b, x)
  {
    if a == [] {
      assert a + b == b;
    } else {
      var head := if a[0] == x then [] else [a[0]];
      assert (a + b)[0] == a[0] && (a + b)[1..] == a[1..] + b;
      assert Except(a + b, x) == head + Except(a[1..] + b, x) && Except(a, x) == head + Except(a[1..], x);
      hide Except;
      ExceptSplits(a[1..], b, x);
      JoinsAnyWay(head, Except(a[1..], x), Except(b, x));
    }
  }

  lemma {:induction false} JoinsAnyWay<T>(a: seq<T>, b: seq<T>, c: seq<T>)
    ensures a + (b + c) == a + b + c
  {
  }

  lemma {:induction false} DropsOut<T>(a: seq<T>, x: T, b: seq<T>)
    ensures Except(a + [x] + b, x) == Except(a, x) + Except(b, x)
  {
    assert Except([x], x) == [];
    hide Except;
    ExceptSplits(a + [x], b, x);
    ExceptSplits(a, [x], x);
  }

  lemma MulMonotone(a: int, b: int, s: int)
    requires a <= b && s >= 0
    ensures a * s <= b * s
  {
    assert (b - a) * s >= 0;
  }
}
