/** Consumption maintained one block at a time. */
module Consumption {
  import opened Cidr
  import opened FreeSpace
  import opened Measure

  /** The addresses of `parent` that `b` covers and nothing it sees in `held`
      covers. */
  ghost function NewIn(parent: Cidr, held: seq<Cidr>, b: Cidr): set<int> {
    set a: int | parent.start <= a <= parent.Last() &&
      Sees(parent, b) && Has(b, parent.family, a) && !Taken(FilterWithin(parent, held), parent.family, a)
  }

  ghost function Added(parents: seq<Cidr>, held: seq<Cidr>, b: Cidr): nat {
    if parents == [] then 0
    else Added(parents[..|parents| - 1], held, b) + |NewIn(parents[|parents| - 1], held, b)|
  }

  lemma {:induction false} HoldingAdds(parents: seq<Cidr>, held: seq<Cidr>, b: Cidr)
    ensures OccupiedCount(parents, held + [b]) == OccupiedCount(parents, held) + Added(parents, held, b)
  {
    if parents != [] {
      var last := parents[|parents| - 1];
      HoldingAdds(parents[..|parents| - 1], held, b);
      var was := Occupied(last, FilterWithin(last, held));
      forall a
        ensures a in Occupied(last, FilterWithin(last, held + [b])) <==> a in was + NewIn(last, held, b)
      {
        SeenAppend(last, held, b, a);
      }
      assert Occupied(last, FilterWithin(last, held + [b])) == was + NewIn(last, held, b);
      assert was !! NewIn(last, held, b);
    }
  }

  /** `some` holds every block of `all` that meets `b`, and nothing else than
      blocks of `all`. */
  ghost predicate Meeting(some: seq<Cidr>, all: seq<Cidr>, b: Cidr) {
    && (forall c :: c in some ==> c in all)
    && (forall c :: c in all && Overlaps(c, b) ==> c in some)
  }

  /** The bounded set decides the delta: blocks that do not meet `b` cancel. */
  lemma {:induction false} DeltaIsLocal(parents: seq<Cidr>, some: seq<Cidr>, all: seq<Cidr>, b: Cidr)
    requires Meeting(some, all, b)
    ensures Added(parents, some, b) == Added(parents, all, b)
  {
    if parents != [] {
      var last := parents[|parents| - 1];
      DeltaIsLocal(parents[..|parents| - 1], some, all, b);
      forall a | Has(b, last.family, a)
        ensures Taken(FilterWithin(last, some), last.family, a) <==> Taken(FilterWithin(last, all), last.family, a)
      {
        LocalTaken(last, some, all, b, a);
      }
      assert NewIn(last, some, b) == NewIn(last, all, b);
    }
  }

  lemma LocalTaken(parent: Cidr, some: seq<Cidr>, all: seq<Cidr>, b: Cidr, a: int)
    requires Meeting(some, all, b) && Has(b, parent.family, a)
    ensures Taken(FilterWithin(parent, some), parent.family, a) <==> Taken(FilterWithin(parent, all), parent.family, a)
  {
    if c :| c in FilterWithin(parent, some) && Has(c, parent.family, a) {
      assert c in FilterWithin(parent, all);
    }
    if c :| c in FilterWithin(parent, all) && Has(c, parent.family, a) {
      OverlapMeansShared(c, b);
      assert c in FilterWithin(parent, some);
    }
  }

  /** The difference of two measurements over the bounded set. */
  method ConsumptionDelta(parents: seq<Cidr>, overlapping: seq<Cidr>, block: Cidr) returns (delta: int)
    ensures delta == Added(parents, overlapping, block)
  {
    var before := MeasureBlocked(parents, overlapping);
    var after := MeasureBlocked(parents, overlapping + [block]);
    HoldingAdds(parents, overlapping, block);
    var d := after.consumed - before.consumed;
    if d < 0 {
      return 0;
    }
    delta := d;
  }

  /** Adding the delta to the total for a set gives the total for the set with
      the block, and subtracting it gives the total back. */
  lemma DeltaMaintainsTotal(parents: seq<Cidr>, overlapping: seq<Cidr>, all: seq<Cidr>, b: Cidr)
    requires Meeting(overlapping, all, b)
    ensures OccupiedCount(parents, all + [b]) == OccupiedCount(parents, all) + Added(parents, overlapping, b)
  {
    DeltaIsLocal(parents, overlapping, all, b);
    HoldingAdds(parents, all, b);
  }
}
