/** What a search is looking for, independently of how it looks: the free
    aligned blocks of one size, and the one first fit must return. */
module Fit {
  import opened Common
  import opened Cidr
  import opened FreeSpace
  import opened Decompose

  /** `b` is a block of prefix length `ones` inside `parent`, free of `taken`. */
  ghost predicate Available(b: Cidr, parent: Cidr, taken: seq<Cidr>, ones: int) {
    b.ones == ones && AllFree(b, parent, taken)
  }

  ghost predicate HasRoom(parent: Cidr, taken: seq<Cidr>, ones: int) {
    exists b: Cidr :: Available(b, parent, taken, ones)
  }

  ghost predicate LowestIn(b: Cidr, parent: Cidr, taken: seq<Cidr>, ones: int) {
    Available(b, parent, taken, ones) && forall c: Cidr :: Available(c, parent, taken, ones) ==> b.start <= c.start
  }

  /** First fit over a list of ranges: the lowest available block of the first
      range that has one, and nothing exactly when no range has one. */
  ghost predicate IsFirstFit(parents: seq<Cidr>, taken: seq<Cidr>, ones: int, r: Option<Cidr>) {
    match r
    case None => forall i :: 0 <= i < |parents| ==> !HasRoom(parents[i], taken, ones)
    case Some(b) => exists i :: 0 <= i < |parents| && IsFirstFitAt(parents, taken, ones, b, i)
  }

  ghost predicate IsFirstFitAt(parents: seq<Cidr>, taken: seq<Cidr>, ones: int, b: Cidr, i: nat)
    requires i < |parents|
  {
    LowestIn(b, parents[i], taken, ones) && forall j :: 0 <= j < i ==> !HasRoom(parents[j], taken, ones)
  }

  /** The specification leaves one answer. */
  lemma FirstFitIsUnique(parents: seq<Cidr>, taken: seq<Cidr>, ones: int, r: Option<Cidr>, r': Option<Cidr>)
    requires IsFirstFit(parents, taken, ones, r) && IsFirstFit(parents, taken, ones, r')
    ensures r == r'
  {
    hide Pow2;
    if r.Some? {
      var i :| 0 <= i < |parents| && IsFirstFitAt(parents, taken, ones, r.value, i);
      assert HasRoom(parents[i], taken, ones);
      if r'.Some? {
        var j :| 0 <= j < |parents| && IsFirstFitAt(parents, taken, ones, r'.value, j);
        assert HasRoom(parents[j], taken, ones);
      }
    }
  }

  /** Availability said block by block: inside the parent and overlapping none
      of the taken blocks. */
  lemma AvailableMeansDisjoint(b: Cidr, parent: Cidr, taken: seq<Cidr>, ones: int)
    ensures Available(b, parent, taken, ones)
       <==> b.ones == ones && Contains(parent, b) && forall c :: c in taken ==> !Overlaps(b, c)
  {
    forall c | c in taken
      ensures Overlaps(b, c) <==> exists x :: Has(b, b.family, x) && Has(c, b.family, x)
    {
      OverlapMeansShared(b, c);
    }
    forall x, c | Has(b, b.family, x) && c in taken && Has(c, b.family, x)
      ensures Taken(taken, b.family, x) && Overlaps(b, c)
    {
    }
  }

  /** Whether a block asked for by name is available in one of the ranges: inside
      it whole, with no address taken. */
  method IsBlockAvailable(parents: seq<Cidr>, existing: seq<Cidr>, want: Cidr) returns (ok: bool)
    ensures ok <==> exists i :: 0 <= i < |parents| && Available(want, parents[i], existing, want.ones)
  {
    hide Pow2, Available, Overlaps, Contains;
    forall i | 0 <= i < |parents|
      ensures Available(want, parents[i], existing, want.ones)
         <==> Contains(parents[i], want) && forall c :: c in existing ==> !Overlaps(want, c)
    {
      AvailableMeansDisjoint(want, parents[i], existing, want.ones);
    }
    var contained := false;
    for i := 0 to |parents|
      invariant contained <==> exists j :: 0 <= j < i && Contains(parents[j], want)
    {
      if Contains(parents[i], want) {
        contained := true;
        break;
      }
    }
    if !contained {
      return false;
    }
    for i := 0 to |existing|
      invariant forall j :: 0 <= j < i ==> !Overlaps(want, existing[j])
    {
      if Overlaps(want, existing[i]) {
        return false;
      }
    }
    return true;
  }

  /** Only the addresses taken inside the parent matter. */
  lemma SameTakenSameFit(b: Cidr, parent: Cidr, taken: seq<Cidr>, taken': seq<Cidr>, ones: int)
    requires forall a :: parent.start <= a <= parent.Last() ==>
               (Taken(taken, parent.family, a) <==> Taken(taken', parent.family, a))
    ensures Available(b, parent, taken, ones) <==> Available(b, parent, taken', ones)
  {
  }

  lemma SameTakenSameRoom(parent: Cidr, taken: seq<Cidr>, taken': seq<Cidr>, ones: int)
    requires forall a :: parent.start <= a <= parent.Last() ==>
               (Taken(taken, parent.family, a) <==> Taken(taken', parent.family, a))
    ensures HasRoom(parent, taken, ones) <==> HasRoom(parent, taken', ones)
    ensures forall b: Cidr :: LowestIn(b, parent, taken, ones) <==> LowestIn(b, parent, taken', ones)
  {
    forall b: Cidr
      ensures Available(b, parent, taken, ones) <==> Available(b, parent, taken', ones)
    {
      SameTakenSameFit(b, parent, taken, taken', ones);
    }
  }
}
