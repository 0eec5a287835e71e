/** When the range with the most free addresses is the one of lowest density. */
module Density {
  import opened Common
  import opened Cidr
  import opened FreeSpace
  import opened Allocation

  /** No range with room has a larger share of its addresses free. */
  ghost predicate LowestDensity(views: seq<View>, ones: int, c: Spot) {
    InViews(views, c) && forall d :: FitsAt(views, ones, d) ==> NoDenser(views[c.parentIdx], views[d.parentIdx])
  }

  predicate NoDenser(v: View, w: View) {
    w.free * v.parent.Size() <= v.free * w.parent.Size()
  }

  /** Whatever is taken and whatever is asked for, LeastUtilized picks a range of
      lowest density. */
  ghost predicate PicksLowestDensity(parents: seq<Cidr>) {
    forall existing, ones, views, c :: AreViews(views, parents, existing) && Chosen(views, ones, LeastUtilized, c) ==>
      LowestDensity(views, ones, c)
  }

  /** All ranges are of one size, but for single addresses listed before pairs. */
  ghost predicate SizesAgree(parents: seq<Cidr>) {
    forall i, j :: 0 <= i < j < |parents| ==> SizesPass(parents[i], parents[j])
  }

  predicate SizesPass(p: Cidr, q: Cidr) {
    p.Size() == q.Size() || (p.Size() == 1 && q.Size() == 2)
  }

  ghost predicate OneFamilyApart(parents: seq<Cidr>) {
    forall i, j :: 0 <= i < j < |parents| ==>
      parents[i].family == parents[j].family && !Overlaps(parents[i], parents[j])
  }

  // ---- sizes that agree --------------------------------------------------

  lemma FreeIsBounded(v: View, blocked: seq<Cidr>)
    requires IsView(v, blocked)
    ensures v.free <= v.parent.Size()
    ensures v.regions != [] ==> 1 <= v.free
  {
    hide Pow2;
    var within := FilterWithin(v.parent, blocked);
    FreePlusOccupied(v.parent, within, v.regions);
    SumIsCount(v.regions, v.parent.start, v.parent.Last());
    if v.regions != [] {
      var free := Members(v.regions, v.parent.start, v.parent.Last());
      assert v.regions[0].lo in free;
      assert free != {};
    }
  }

  lemma {:induction false} AgreeingSizesPick(parents: seq<Cidr>, existing: seq<Cidr>, ones: int, views: seq<View>,
                                             c: Spot)
    requires SizesAgree(parents) && AreViews(views, parents, existing) && Chosen(views, ones, LeastUtilized, c)
    ensures LowestDensity(views, ones, c)
  {
    hide Pow2, IsView, RegionFits;
    forall d | FitsAt(views, ones, d)
      ensures NoDenser(views[c.parentIdx], views[d.parentIdx])
    {
      var v, w := views[c.parentIdx], views[d.parentIdx];
      FreeIsBounded(v, existing);
      FreeIsBounded(w, existing);
      if v.parent.Size() == w.parent.Size() {
        MulMonotone(w.free, v.free, v.parent.Size());
      } else if c.parentIdx < d.parentIdx {
        assert SizesPass(v.parent, w.parent);
      } else {
        assert SizesPass(w.parent, v.parent) && Before(d, c);
      }
    }
  }

  // ---- sizes that do not -------------------------------------------------

  /** One address of range `i` is taken, all of range `j` is free, and every
      other range is taken whole. */
  function Blocker(parents: seq<Cidr>, i: nat, j: nat, k: nat): (b: Cidr)
    requires i < |parents| && j < |parents| && k < |parents|
    ensures Contains(parents[if k == j then i else k], b)
    ensures k == i || k == j ==> b == FirstBlock(parents[i], Width(parents[i].family)) && b.start == b.Last()
    ensures k != i && k != j ==> b == parents[k]
  {
    assert Pow2(0) == 1;
    if k == i || k == j then FirstBlock(parents[i], Width(parents[i].family)) else parents[k]
  }

  function Blockers(parents: seq<Cidr>, i: nat, j: nat, n: nat): (bs: seq<Cidr>)
    requires i < |parents| && j < |parents| && n <= |parents|
    ensures |bs| == n && forall k :: 0 <= k < n ==> bs[k] == Blocker(parents, i, j, k)
  {
    if n == 0 then [] else Blockers(parents, i, j, n - 1) + [Blocker(parents, i, j, n - 1)]
  }

  function ViewAt(parents: seq<Cidr>, i: nat, j: nat, k: nat): View
    requires i < |parents| && j < |parents| && k < |parents|
  {
    var p := parents[k];
    if k == i then View(p, [Range(p.start + 1, p.Last())], p.Size() - 1)
    else if k == j then View(p, [Range(p.start, p.Last())], p.Size())
    else View(p, [], 0)
  }

  /** What range `k` has taken. */
  lemma {:induction false} TakenThere(parents: seq<Cidr>, i: nat, j: nat, k: nat, a: int)
    requires OneFamilyApart(parents) && i < |parents| && j < |parents| && k < |parents| && i != j
    requires parents[k].start <= a <= parents[k].Last()
    ensures Taken(FilterWithin(parents[k], Blockers(parents, i, j, |parents|)), parents[k].family, a)
       <==> (k == i && a == parents[i].start) || (k != i && k != j)
  {
    hide Pow2, Contains, FilterWithin, Blockers, Blocker, OneFamilyApart;
    var bs := Blockers(parents, i, j, |parents|);
    var p, within := parents[k], FilterWithin(parents[k], Blockers(parents, i, j, |parents|));
    if Taken(within, p.family, a) {
      var c :| c in within && Has(c, p.family, a);
      var m :| 0 <= m < |bs| && bs[m] == c;
      BlockerIsElsewhere(parents, i, j, k, m, a);
    }
    if (k == i && a == parents[i].start) || (k != i && k != j) {
      assert bs[k] in bs && Has(bs[k], p.family, a) && Sees(p, bs[k]);
    }
  }

  /** A blocker that holds an address of a range is that range's own. */
  lemma {:induction false} BlockerIsElsewhere(parents: seq<Cidr>, i: nat, j: nat, k: nat, m: nat, a: int)
    requires OneFamilyApart(parents) && i < |parents| && j < |parents| && k < |parents| && m < |parents| && i != j
    requires Has(parents[k], parents[k].family, a) && Has(Blocker(parents, i, j, m), parents[k].family, a)
    ensures k == if m == j then i else m
  {
    hide Pow2;
    var own := if m == j then i else m;
    assert Has(parents[own], parents[k].family, a);
    OverlapMeansShared(parents[k], parents[own]);
    OverlapMeansShared(parents[own], parents[k]);
  }

  lemma {:induction false} IsViewAt(parents: seq<Cidr>, i: nat, j: nat, k: nat)
    requires OneFamilyApart(parents) && i < |parents| && j < |parents| && k < |parents| && i != j
    requires 1 < parents[i].Size()
    ensures IsView(ViewAt(parents, i, j, k), Blockers(parents, i, j, |parents|))
  {
    hide Pow2, FilterWithin, Taken, OneFamilyApart;
    var v, p := ViewAt(parents, i, j, k), parents[k];
    forall a | p.start <= a <= p.Last()
      ensures InRanges(v.regions, a) <==> !Taken(FilterWithin(p, Blockers(parents, i, j, |parents|)), p.family, a)
    {
      TakenThere(parents, i, j, k, a);
      if k == i || k == j {
        assert v.regions[0].lo <= a <= v.regions[0].hi <==> InRanges(v.regions, a);
      }
    }
    if k == i || k == j {
      assert v.regions[..0] == [] && SumSizes(v.regions[..0]) == 0;
    }
  }

  function ViewsOf(parents: seq<Cidr>, i: nat, j: nat, n: nat): (vs: seq<View>)
    requires i < |parents| && j < |parents| && n <= |parents|
    ensures |vs| == n && forall k :: 0 <= k < n ==> vs[k] == ViewAt(parents, i, j, k)
  {
    if n == 0 then [] else ViewsOf(parents, i, j, n - 1) + [ViewAt(parents, i, j, n - 1)]
  }

  lemma {:induction false} AreViewsOf(parents: seq<Cidr>, i: nat, j: nat)
    requires OneFamilyApart(parents) && i < |parents| && j < |parents| && i != j && 1 < parents[i].Size()
    ensures AreViews(ViewsOf(parents, i, j, |parents|), parents, Blockers(parents, i, j, |parents|))
  {
    hide Pow2, IsView, OneFamilyApart;
    forall k | 0 <= k < |parents|
      ensures IsView(ViewAt(parents, i, j, k), Blockers(parents, i, j, |parents|))
    {
      IsViewAt(parents, i, j, k);
    }
  }

  /** Only the two ranges have room. */
  lemma {:induction false} OnlyTwoFit(parents: seq<Cidr>, i: nat, j: nat, d: Spot)
    requires i < |parents| && j < |parents| && i != j && parents[i].family == parents[j].family && 1 < parents[i].Size()
    ensures FitsAt(ViewsOf(parents, i, j, |parents|), Width(parents[i].family), d)
       <==> d == Spot(i, 0) || d == Spot(j, 0)
  {
    hide Pow2, RegionFits;
    HostsFit(parents[i], Range(parents[i].start + 1, parents[i].Last()));
    HostsFit(parents[j], Range(parents[j].start, parents[j].Last()));
  }

  /** The larger of two ranges is picked with one address taken, though the other
      is empty. */
  lemma {:induction false} DenserIsPicked(parents: seq<Cidr>, i: nat, j: nat)
    requires OneFamilyApart(parents) && i < |parents| && j < |parents|
    requires parents[j].Size() + (if i < j then 1 else 2) <= parents[i].Size()
    ensures var w, views := Width(parents[i].family), ViewsOf(parents, i, j, |parents|);
            && AreViews(views, parents, Blockers(parents, i, j, |parents|))
            && Chosen(views, w, LeastUtilized, Spot(i, 0)) && !LowestDensity(views, w, Spot(i, 0))
  {
    hide Pow2, AreViews, FitsAt;
    assert i != j && parents[i].family == parents[j].family;
    var w, views := Width(parents[i].family), ViewsOf(parents, i, j, |parents|);
    AreViewsOf(parents, i, j);
    forall d
      ensures FitsAt(views, w, d) <==> d == Spot(i, 0) || d == Spot(j, 0)
    {
      OnlyTwoFit(parents, i, j, d);
    }
    assert Chosen(views, w, LeastUtilized, Spot(i, 0));
    LessFree(parents[i].Size(), parents[j].Size());
    assert !NoDenser(views[i], views[j]) && FitsAt(views, w, Spot(j, 0));
    assert !LowestDensity(views, w, Spot(i, 0));
  }

  lemma LessFree(x: int, y: int)
    requires 0 < y
    ensures (x - 1) * y < y * x
  {
    assert (x - 1) * y == x * y - y;
  }

  lemma HostsFit(p: Cidr, r: Range)
    requires r.lo <= r.hi
    ensures RegionFits(p, r, Width(p.family))
  {
    assert Pow2(0) == 1;
  }

  /** The exact condition on the ranges. */
  lemma LowestDensityExactlyWhen(parents: seq<Cidr>)
    requires OneFamilyApart(parents)
    ensures PicksLowestDensity(parents) <==> SizesAgree(parents)
  {
    hide Pow2, AreViews, Chosen, LowestDensity, SizesPass;
    if SizesAgree(parents) {
      forall existing, ones, views, c | AreViews(views, parents, existing) && Chosen(views, ones, LeastUtilized, c)
        ensures LowestDensity(views, ones, c)
      {
        AgreeingSizesPick(parents, existing, ones, views, c);
      }
    } else {
      var i, j :| 0 <= i < j < |parents| && !SizesPass(parents[i], parents[j]);
      SizesAreFarApart(parents[i], parents[j]);
      if parents[j].Size() < parents[i].Size() {
        DenserIsPicked(parents, i, j);
      } else {
        DenserIsPicked(parents, j, i);
      }
    }
  }

  lemma SizesAreFarApart(p: Cidr, q: Cidr)
    requires !SizesPass(p, q) && p.family == q.family
    ensures q.Size() < p.Size() || p.Size() + 2 <= q.Size()
  {
    var w := Width(p.family);
    var e, f: nat := w - p.ones, w - q.ones;
    if e < f {
      Pow2Monotone(e + 1, f);
      if e == 0 {
        assert Pow2(1) == 2 && Pow2(2) == 4;
        Pow2Monotone(2, f);
      } else {
        Pow2Monotone(1, e);
      }
    } else {
      Pow2Monotone(f, e);
    }
  }

  /** 0.0.0.0/30 with its first address taken, beside an empty 0.0.0.4/32. */
  lemma MostFreeCanBeDenser()
    ensures exists views, c :: AreViews(views, [Tiny(0, 30), Tiny(4, 32)], [Tiny(0, 32), Tiny(0, 32)])
                               && Chosen(views, 32, LeastUtilized, c) && !LowestDensity(views, 32, c)
  {
    hide AreViews, Chosen, LowestDensity, Blockers, OneFamilyApart, Pow2, ViewsOf;
    TinyPair();
    DenserIsPicked([Tiny(0, 30), Tiny(4, 32)], 0, 1);
  }

  lemma TinyPair()
    ensures var parents := [Tiny(0, 30), Tiny(4, 32)];
            && OneFamilyApart(parents) && parents[0].Size() == 4 && parents[1].Size() == 1
            && Blockers(parents, 0, 1, 2) == [Tiny(0, 32), Tiny(0, 32)]
  {
    assert Tiny(0, 30).Size() == 4 && Tiny(4, 32).Size() == 1;
    hide Pow2;
    var parents := [Tiny(0, 30), Tiny(4, 32)];
    var b0, b1 := Blocker(parents, 0, 1, 0), Blocker(parents, 0, 1, 1);
    assert b0 == Tiny(0, 32) && b1 == Tiny(0, 32);
  }

  // ---- ranges that overlap -----------------------------------------------

  /** An address of a larger range outside a smaller one. */
  function Outside(p: Cidr, q: Cidr): (b: Cidr)
    requires p.family == q.family && q.Size() < p.Size()
    ensures b.family == p.family && p.start <= b.start == b.Last() <= p.Last() && !Has(q, p.family, b.start)
    ensures b.ones == Width(p.family)
  {
    OutsideIsFree(p, q);
    assert Pow2(0) == 1;
    Block(p.family, if Has(q, p.family, p.start) then p.Last() else p.start, Width(p.family))
  }

  lemma OutsideIsFree(p: Cidr, q: Cidr)
    requires p.family == q.family && q.Size() < p.Size()
    ensures Has(q, p.family, p.start) ==> !Has(q, p.family, p.Last())
  {
    hide Pow2;
  }

  /** One address of every range of the largest size, outside range `j`. */
  function Marks(parents: seq<Cidr>, q: Cidr, size: nat, n: nat): (bs: seq<Cidr>)
    requires n <= |parents| && q.Size() < size && forall i :: 0 <= i < |parents| ==> parents[i].family == q.family
    ensures forall b :: b in bs <==> exists i :: 0 <= i < n && parents[i].Size() == size && b == Outside(parents[i], q)
  {
    if n == 0 then []
    else Marks(parents, q, size, n - 1) + (if parents[n - 1].Size() == size then [Outside(parents[n - 1], q)] else [])
  }

  ghost predicate OneFamilyUpTo(parents: seq<Cidr>, size: nat) {
    forall i, j :: 0 <= i < |parents| && 0 <= j < |parents| ==>
      parents[i].family == parents[j].family && parents[i].Size() <= size
  }

  /** Ranges of one size that share an address are one range. */
  lemma SameSizeSame(p: Cidr, q: Cidr, a: int)
    requires p.family == q.family && p.Size() == q.Size() && Has(p, p.family, a) && Has(q, p.family, a)
    ensures p == q
  {
    var w := Width(p.family);
    if p.ones < q.ones {
      ShorterPrefixIsLarger(p.family, p.ones, q.ones);
    } else if q.ones < p.ones {
      ShorterPrefixIsLarger(p.family, q.ones, p.ones);
    }
    hide Pow2;
    NestedOrDisjoint(p, q, a);
    NestedOrDisjoint(q, p, a);
  }

  /** A mark in a range of the largest size is the range's own, and none is in
      range `j`. */
  lemma {:induction false} WhereMarksAre(parents: seq<Cidr>, j: nat, size: nat, k: nat, c: Cidr)
    requires OneFamilyUpTo(parents, size) && j < |parents| && parents[j].Size() < size && k < |parents|
    requires parents[k].Size() == size
    requires c in Marks(parents, parents[j], size, |parents|)
    ensures c.start == c.Last() && c.family == parents[j].family && !Has(parents[j], c.family, c.start)
    ensures Has(parents[k], c.family, c.start) ==> c == Outside(parents[k], parents[j])
  {
    hide Pow2;
    var i :| 0 <= i < |parents| && parents[i].Size() == size && c == Outside(parents[i], parents[j]);
    if Has(parents[k], c.family, c.start) {
      SameSizeSame(parents[k], parents[i], c.start);
    }
  }

  lemma {:induction false} LargestLosesOne(parents: seq<Cidr>, j: nat, size: nat, k: nat)
    requires OneFamilyUpTo(parents, size) && j < |parents| && parents[j].Size() < size && k < |parents|
    requires parents[k].Size() == size
    ensures var p, bs := parents[k], Marks(parents, parents[j], size, |parents|);
            Occupied(p, FilterWithin(p, bs)) == {Outside(p, parents[j]).start}
  {
    hide Pow2, FilterWithin, Marks;
    var p, bs := parents[k], Marks(parents, parents[j], size, |parents|);
    var own := Outside(p, parents[j]);
    assert own in bs && Sees(p, own) && Has(own, p.family, own.start);
    forall c | c in bs
      ensures c.start == c.Last() && c.family == p.family && (Has(p, p.family, c.start) ==> c == own)
    {
      WhereMarksAre(parents, j, size, k, c);
    }
  }

  lemma {:induction false} SmallerIsFree(parents: seq<Cidr>, j: nat, size: nat, k: nat)
    requires OneFamilyUpTo(parents, size) && j < |parents| && parents[j].Size() < size && k < |parents|
    requires parents[k].Size() == size
    ensures var q, bs := parents[j], Marks(parents, parents[j], size, |parents|); Occupied(q, FilterWithin(q, bs)) == {}
  {
    hide Pow2, FilterWithin, Marks;
    var q, bs := parents[j], Marks(parents, parents[j], size, |parents|);
    forall c | c in bs
      ensures c.start == c.Last() && c.family == q.family && !Has(q, q.family, c.start)
    {
      WhereMarksAre(parents, j, size, k, c);
    }
  }

  /** With those addresses taken, whatever is picked is one of the largest ranges,
      denser than range `j`, which is empty. */
  lemma {:induction false} LargestIsPicked(parents: seq<Cidr>, i: nat, j: nat, views: seq<View>, c: Spot)
    requires i < |parents| && j < |parents| && 4 <= parents[i].Size() && parents[j].Size() < parents[i].Size()
    requires OneFamilyUpTo(parents, parents[i].Size())
    requires AreViews(views, parents, Marks(parents, parents[j], parents[i].Size(), |parents|))
    requires Chosen(views, Width(parents[i].family), LeastUtilized, c)
    ensures !LowestDensity(views, Width(parents[i].family), c)
  {
    hide Pow2, IsView, RegionFits, Marks;
    var w, size := Width(parents[i].family), parents[i].Size();
    var bs := Marks(parents, parents[j], size, |parents|);
    LargestLosesOne(parents, j, size, i);
    RoomOf(views[i], bs, w);
    SmallerIsFree(parents, j, size, i);
    RoomOf(views[j], bs, w);
    PickedIsLargest(parents, i, j, views, c);
    LessFree(size, parents[j].Size());
    assert FitsAt(views, w, Spot(j, 0)) && !NoDenser(views[c.parentIdx], views[j]);
  }

  lemma RoomOf(v: View, bs: seq<Cidr>, w: int)
    requires IsView(v, bs) && w == Width(v.parent.family)
    ensures v.free == v.parent.Size() - |Occupied(v.parent, FilterWithin(v.parent, bs))|
    ensures 0 < v.free ==> v.regions != [] && RegionFits(v.parent, v.regions[0], w)
  {
    FreePlusOccupied(v.parent, FilterWithin(v.parent, bs), v.regions);
    if v.regions != [] {
      HostsFit(v.parent, v.regions[0]);
    }
  }

  lemma {:induction false} PickedIsLargest(parents: seq<Cidr>, i: nat, j: nat, views: seq<View>, c: Spot)
    requires i < |parents| && j < |parents| && 4 <= parents[i].Size() && parents[j].Size() < parents[i].Size()
    requires OneFamilyUpTo(parents, parents[i].Size())
    requires AreViews(views, parents, Marks(parents, parents[j], parents[i].Size(), |parents|))
    requires Chosen(views, Width(parents[i].family), LeastUtilized, c)
    ensures parents[c.parentIdx].Size() == parents[i].Size() && views[c.parentIdx].free == parents[i].Size() - 1
  {
    hide Pow2, IsView, RegionFits, Marks;
    var w, size := Width(parents[i].family), parents[i].Size();
    var bs := Marks(parents, parents[j], size, |parents|);
    LargestLosesOne(parents, j, size, i);
    RoomOf(views[i], bs, w);
    assert FitsAt(views, w, Spot(i, 0));
    RoomOf(views[c.parentIdx], bs, w);
    if parents[c.parentIdx].Size() < size {
      SmallerIsHalf(parents[c.parentIdx], parents[i]);
      assert false;
    }
    LargestLosesOne(parents, j, size, c.parentIdx);
  }

  lemma SmallerIsHalf(p: Cidr, q: Cidr)
    requires p.family == q.family && p.Size() < q.Size()
    ensures 2 * p.Size() <= q.Size()
  {
    var w := Width(p.family);
    var e, f: nat := w - p.ones, w - q.ones;
    hide Pow2;
    if e < f {
      Pow2Doubles(e);
      Pow2Monotone(e + 1, f);
    } else {
      Pow2Monotone(f, e);
    }
  }

  /** So over ranges of one family, overlapping or not, with a larger one of four
      addresses or more and a smaller one, the strategy can be made to pick a
      denser range. */
  method FindDenserPick(parents: seq<Cidr>, i: nat, j: nat) returns (existing: seq<Cidr>, views: seq<View>, c: Spot)
    requires i < |parents| && j < |parents| && 4 <= parents[i].Size() && parents[j].Size() < parents[i].Size()
    requires OneFamilyUpTo(parents, parents[i].Size())
    ensures AreViews(views, parents, existing) && Chosen(views, Width(parents[i].family), LeastUtilized, c)
    ensures !LowestDensity(views, Width(parents[i].family), c)
  {
    hide Pow2, IsView, LowestDensity, Chosen;
    var w, size := Width(parents[i].family), parents[i].Size();
    existing := Marks(parents, parents[j], size, |parents|);
    views := ViewPool(parents, existing);
    var picked := SelectBlock(views, w, LeastUtilized);
    LargestLosesOne(parents, j, size, i);
    RoomOf(views[i], existing, w);
    assert FitsAt(views, w, Spot(i, 0));
    c := picked.value;
    LargestIsPicked(parents, i, j, views, c);
  }
}
