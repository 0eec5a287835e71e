/** Measuring a pool, taking a block out of a view, and doing both at once. */
module Measure {
  import opened Common
  import opened Cidr
  import opened FreeSpace
  import opened Fit
  import opened Reservations
  import opened Allocation

  /** Address counts; never saturated. */
  datatype Measurement = Measurement(total: int, consumed: int, free: int)

  // ---- the reference measurement -----------------------------------------

  function TotalAddresses(parents: seq<Cidr>): nat {
    if parents == [] then 0
    else TotalAddresses(parents[..|parents| - 1]) + parents[|parents| - 1].Size()
  }

  /** How many addresses of each range are covered, each counted once however
      many blocks cover it, and none counted outside the range. */
  ghost function OccupiedCount(parents: seq<Cidr>, existing: seq<Cidr>): nat {
    if parents == [] then 0
    else
      var last := parents[|parents| - 1];
      OccupiedCount(parents[..|parents| - 1], existing) + |Occupied(last, FilterWithin(last, existing))|
  }

  ghost function Measured(parents: seq<Cidr>, existing: seq<Cidr>): Measurement {
    var total, consumed := TotalAddresses(parents), OccupiedCount(parents, existing);
    Measurement(total, consumed, total - consumed)
  }

  ghost predicate PairwiseApart(parents: seq<Cidr>) {
    forall i, j :: 0 <= i < j < |parents| ==> !Overlaps(parents[i], parents[j])
  }

  /** The covered addresses of all the ranges, as one set. */
  ghost function ConsumedSet(parents: seq<Cidr>, existing: seq<Cidr>): set<(Family, int)> {
    set i, a | 0 <= i < |parents| && a in Occupied(parents[i], Seen(parents, existing, i))
      :: (parents[i].family, a)
  }

  ghost function Tagged(f: Family, xs: set<int>): set<(Family, int)> {
    set a | a in xs :: (f, a)
  }

  lemma {:induction false} TaggedSize(f: Family, xs: set<int>)
    ensures |Tagged(f, xs)| == |xs|
    decreases |xs|
  {
    if xs != {} {
      var x := Pick(xs);
      TaggedSize(f, xs - {x});
      assert Tagged(f, xs) == Tagged(f, xs - {x}) + {(f, x)};
    }
  }

  /** Over ranges that do not overlap, the consumed figure is the number of
      distinct addresses consumed. */
  lemma {:induction false} ConsumedCountsDistinct(parents: seq<Cidr>, existing: seq<Cidr>)
    requires PairwiseApart(parents)
    ensures OccupiedCount(parents, existing) == |ConsumedSet(parents, existing)|
  {
    if parents == [] {
      assert ConsumedSet(parents, existing) == {};
    } else {
      var init, last := parents[..|parents| - 1], parents[|parents| - 1];
      ConsumedCountsDistinct(init, existing);
      var here := Occupied(last, FilterWithin(last, existing));
      TaggedSize(last.family, here);
      LastRangeApart(parents, existing);
    }
  }

  lemma LastRangeApart(parents: seq<Cidr>, existing: seq<Cidr>)
    requires PairwiseApart(parents) && parents != []
    ensures var init, last := parents[..|parents| - 1], parents[|parents| - 1];
            var here := Tagged(last.family, Occupied(last, FilterWithin(last, existing)));
            ConsumedSet(parents, existing) == ConsumedSet(init, existing) + here
            && ConsumedSet(init, existing) !! here
  {
    hide Pow2, Occupied, PairwiseApart;
    var init, last := parents[..|parents| - 1], parents[|parents| - 1];
    var here := Tagged(last.family, Occupied(last, FilterWithin(last, existing)));
    forall i, a | 0 <= i < |init| && a in Occupied(init[i], Seen(init, existing, i))
      ensures (init[i].family, a) !in here
    {
      NotInLast(parents, existing, i, a);
    }
    forall x
      ensures x in ConsumedSet(parents, existing) <==> x in ConsumedSet(init, existing) + here
    {
      ConsumedSplits(parents, existing, x);
    }
  }

  lemma NotInLast(parents: seq<Cidr>, existing: seq<Cidr>, i: nat, a: int)
    requires PairwiseApart(parents) && i < |parents| - 1
    requires a in Occupied(parents[i], FilterWithin(parents[i], existing))
    ensures var last := parents[|parents| - 1];
            (parents[i].family, a) !in Tagged(last.family, Occupied(last, FilterWithin(last, existing)))
  {
    hide Pow2;
    OverlapMeansShared(parents[i], parents[|parents| - 1]);
  }

  lemma ConsumedSplits(parents: seq<Cidr>, existing: seq<Cidr>, x: (Family, int))
    requires parents != []
    ensures var init, last := parents[..|parents| - 1], parents[|parents| - 1];
            x in ConsumedSet(parents, existing)
            <==> || x in ConsumedSet(init, existing)
                 || x in Tagged(last.family, Occupied(last, FilterWithin(last, existing)))
  {
    hide Pow2, Occupied;
    var init := parents[..|parents| - 1];
    if x in ConsumedSet(parents, existing) {
      var i, a :| 0 <= i < |parents| && a in Occupied(parents[i], Seen(parents, existing, i))
                  && x == (parents[i].family, a);
      assert i < |init| ==> init[i] == parents[i];
    }
    if x in ConsumedSet(init, existing) {
      var i, a :| 0 <= i < |init| && a in Occupied(init[i], Seen(init, existing, i)) && x == (init[i].family, a);
      assert init[i] == parents[i];
    }
  }

  /** How many addresses of each range some block holds, seen or not. */
  ghost function HeldCount(parents: seq<Cidr>, existing: seq<Cidr>): nat {
    if parents == [] then 0
    else HeldCount(parents[..|parents| - 1], existing) + |Occupied(parents[|parents| - 1], existing)|
  }

  /** Nothing of the range is missed: no block covers it from below, or what is
      seen fills it. */
  ghost predicate SeesAll(p: Cidr, existing: seq<Cidr>) {
    !CoveredFromBelow(p, existing) || |Occupied(p, FilterWithin(p, existing))| == p.Size()
  }

  lemma SeenIsHeldWhen(p: Cidr, existing: seq<Cidr>)
    ensures |Occupied(p, FilterWithin(p, existing))| <= |Occupied(p, existing)|
    ensures |Occupied(p, FilterWithin(p, existing))| == |Occupied(p, existing)| <==> SeesAll(p, existing)
  {
    hide Pow2, FilterWithin, CoveredFromBelow;
    var x, y := Occupied(p, FilterWithin(p, existing)), Occupied(p, existing);
    forall a | p.start <= a <= p.Last()
      ensures a in y <==> a in x || CoveredFromBelow(p, existing)
    {
      FilterKeepsTaken(p, existing, a);
    }
    RunSize(p.start, p.Last());
    assert CoveredFromBelow(p, existing) ==> y == Run(p.start, p.Last());
    assert !CoveredFromBelow(p, existing) ==> x == y;
    SubsetCount(x, y);
  }

  /** The consumed figure counts every address held, if and only if every range
      sees all of its own. */
  lemma {:induction false} ConsumedCountsHeld(parents: seq<Cidr>, existing: seq<Cidr>)
    ensures OccupiedCount(parents, existing) <= HeldCount(parents, existing)
    ensures OccupiedCount(parents, existing) == HeldCount(parents, existing)
       <==> forall i :: 0 <= i < |parents| ==> SeesAll(parents[i], existing)
  {
    hide SeesAll, Occupied, FilterWithin;
    if parents != [] {
      var n := |parents| - 1;
      ConsumedCountsHeld(parents[..n], existing);
      SeenIsHeldWhen(parents[n], existing);
      assert forall i :: 0 <= i < n ==> parents[..n][i] == parents[i];
    }
  }

  // ---- measuring ---------------------------------------------------------

  function TotalOf(views: seq<View>): int {
    if views == [] then 0 else TotalOf(views[..|views| - 1]) + views[|views| - 1].parent.Size()
  }

  function FreeOf(views: seq<View>): int {
    if views == [] then 0 else FreeOf(views[..|views| - 1]) + views[|views| - 1].free
  }

  /** Totals only: consumption is what is not free, clamped at zero. */
  method MeasureViews(views: seq<View>) returns (m: Measurement)
    ensures m.total == TotalOf(views) && m.free == FreeOf(views)
    ensures m.consumed == if m.total < m.free then 0 else m.total - m.free
  {
    var total, free := 0, 0;
    for i := 0 to |views|
      invariant total == TotalOf(views[..i]) && free == FreeOf(views[..i])
    {
      assert views[..i + 1][..i] == views[..i];
      total := total + views[i].parent.Size();
      free := free + views[i].free;
    }
    assert views[..|views|] == views;
    var consumed := total - free;
    if consumed < 0 {
      consumed := 0;
    }
    m := Measurement(total, consumed, free);
  }

  /** Summing exact views gives the reference measurement. In particular free
      space never exceeds the total, whether or not the ranges overlap, so the
      clamp is never taken. */
  lemma {:induction false} ViewsMeasure(views: seq<View>, parents: seq<Cidr>, blocked: seq<Cidr>)
    requires AreViews(views, parents, blocked)
    ensures TotalOf(views) == TotalAddresses(parents)
    ensures FreeOf(views) == TotalAddresses(parents) - OccupiedCount(parents, blocked)
    ensures 0 <= FreeOf(views) <= TotalOf(views)
  {
    if views != [] {
      var n := |views| - 1;
      ViewsMeasure(views[..n], parents[..n], blocked);
      FreePlusOccupied(parents[n], Seen(parents, blocked, n), views[n].regions);
      SumIsCount(views[n].regions, parents[n].start, parents[n].Last());
    }
  }

  /** The blocks a search must avoid: what is held, and what is reserved whether
      or not it has been written down yet. */
  method BlockedSet(parents: seq<Cidr>, existing: seq<Cidr>, r: Reservation)
    returns (res: Result<seq<Cidr>>, ghost reserved: Result<seq<Cidr>>)
    ensures Reserves(multiset(parents), r, reserved)
    ensures res == if reserved.Ok? then Ok(existing + reserved.value) else Err(reserved.error)
  {
    if r.IsZero() {
      assert existing + [] == existing;
      return Ok(existing), Ok([]);
    }
    var withheld := ReservedBlocks(parents, r);
    reserved := withheld;
    res := if withheld.Ok? then Ok(existing + withheld.value) else Err(withheld.error);
  }

  /** Measuring the views of a blocked set. */
  method MeasureBlocked(parents: seq<Cidr>, blocked: seq<Cidr>) returns (m: Measurement)
    ensures m == Measured(parents, blocked)
    ensures 0 <= m.consumed && m.consumed + m.free == m.total
  {
    var views := ViewPool(parents, blocked);
    m := MeasureViews(views);
    ViewsMeasure(views, parents, blocked);
  }

  method MeasurePool(parents: seq<Cidr>, existing: seq<Cidr>, r: Reservation)
    returns (res: Result<Measurement>, ghost reserved: Result<seq<Cidr>>)
    ensures Reserves(multiset(parents), r, reserved)
    ensures res == if reserved.Ok? then Ok(Measured(parents, existing + reserved.value)) else Err(reserved.error)
  {
    var blocked;
    blocked, reserved := BlockedSet(parents, existing, r);
    if blocked.Err? {
      return Err(blocked.error), reserved;
    }
    var m := MeasureBlocked(parents, blocked.value);
    res := Ok(m);
  }

  // ---- taking a block out of a view --------------------------------------

  lemma {:induction false} SumSizesConcat(xs: seq<Range>, ys: seq<Range>)
    ensures SumSizes(xs + ys) == SumSizes(xs) + SumSizes(ys)
  {
    if ys == [] {
      assert xs + ys == xs;
    } else {
      var init := ys[..|ys| - 1];
      SumSizesConcat(xs, init);
      assert (xs + ys)[..|xs + ys| - 1] == xs + init;
    }
  }

  lemma InRangesConcat(xs: seq<Range>, ys: seq<Range>, a: int)
    ensures InRanges(xs + ys, a) <==> InRanges(xs, a) || InRanges(ys, a)
  {
    var all := xs + ys;
    if i :| 0 <= i < |all| && all[i].lo <= a <= all[i].hi {
      assert if i < |xs| then xs[i] == all[i] else ys[i - |xs|] == all[i];
    }
    if i :| 0 <= i < |xs| && xs[i].lo <= a <= xs[i].hi {
      assert all[i] == xs[i];
    }
    if i :| 0 <= i < |ys| && ys[i].lo <= a <= ys[i].hi {
      assert all[|xs| + i] == ys[i];
    }
  }

  lemma SeenAppend(parent: Cidr, cs: seq<Cidr>, b: Cidr, a: int)
    ensures Taken(FilterWithin(parent, cs + [b]), parent.family, a)
       <==> Taken(FilterWithin(parent, cs), parent.family, a) || (Sees(parent, b) && Has(b, parent.family, a))
  {
    assert b in cs + [b];
    forall c | c in cs
      ensures c in cs + [b]
    {
    }
    if c :| c in FilterWithin(parent, cs) && Has(c, parent.family, a) {
      assert c in FilterWithin(parent, cs + [b]);
    }
    if Sees(parent, b) && Has(b, parent.family, a) {
      assert b in FilterWithin(parent, cs + [b]);
    }
  }

  /** The parts of `region` on either side of [lo, hi]. */
  function Remainder(region: Range, lo: int, hi: int): (rs: seq<Range>)
    requires region.lo <= lo <= hi <= region.hi
    ensures Separated(rs, region.lo, region.hi)
    ensures forall a :: InRanges(rs, a) <==> region.lo <= a <= region.hi && !(lo <= a <= hi)
    ensures SumSizes(rs) == RangeSize(region) - (hi - lo + 1)
  {
    var left := if region.lo < lo then [Range(region.lo, lo - 1)] else [];
    var right := if hi < region.hi then [Range(hi + 1, region.hi)] else [];
    SumSizesConcat(left, right);
    assert forall a :: InRanges(left + right, a) <==> InRanges(left, a) || InRanges(right, a) by {
      forall a ensures InRanges(left + right, a) <==> InRanges(left, a) || InRanges(right, a) {
        InRangesConcat(left, right, a);
      }
    }
    left + right
  }

  lemma RegionSplits(regions: seq<Range>, i: nat, a: int)
    requires i < |regions|
    ensures InRanges(regions, a) <==>
              InRanges(regions[..i], a) || regions[i].lo <= a <= regions[i].hi || InRanges(regions[i + 1..], a)
  {
    assert regions == regions[..i] + [regions[i]] + regions[i + 1..];
    InRangesConcat(regions[..i] + [regions[i]], regions[i + 1..], a);
    InRangesAppend(regions[..i], regions[i], a);
  }

  lemma TakenStaysSeparated(regions: seq<Range>, i: nat, rest: seq<Range>, lo: int, hi: int)
    requires Separated(regions, lo, hi) && i < |regions|
    requires Separated(rest, regions[i].lo, regions[i].hi)
    ensures Separated(regions[..i] + rest + regions[i + 1..], lo, hi)
  {
    var all := regions[..i] + rest + regions[i + 1..];
    assert forall k :: 0 <= k < i ==> all[k] == regions[k];
    assert forall k :: i <= k < i + |rest| ==> all[k] == rest[k - i];
    assert forall k :: i + |rest| <= k < |all| ==> all[k] == regions[k - |rest| + 1];
  }

  /** Removing a block from region `i` leaves the view of the pool with that
      block held: still sorted, maximal, exact, and exactly counted. */
  method TakeFrom(v: View, i: nat, b: Cidr, ghost blocked: seq<Cidr>) returns (v': View)
    requires IsView(v, blocked)
    requires i < |v.regions| && b.family == v.parent.family
    requires v.regions[i].lo <= b.start && b.Last() <= v.regions[i].hi
    ensures v'.parent == v.parent && v'.free == v.free - b.Size()
    ensures IsView(v', blocked + [b])
  {
    var region := v.regions[i];
    var replacement := [];
    if region.lo < b.start {
      replacement := replacement + [Range(region.lo, b.start - 1)];
    }
    if b.Last() < region.hi {
      replacement := replacement + [Range(b.Last() + 1, region.hi)];
    }
    assert replacement == Remainder(region, b.start, b.Last());
    var updated := v.regions[..i] + replacement + v.regions[i + 1..];
    v' := View(v.parent, updated, v.free - b.Size());
    TakenView(v, i, b, blocked, v');
  }

  lemma TakenView(v: View, i: nat, b: Cidr, blocked: seq<Cidr>, v': View)
    requires IsView(v, blocked)
    requires i < |v.regions| && b.family == v.parent.family
    requires v.regions[i].lo <= b.start && b.Last() <= v.regions[i].hi
    requires v' == View(v.parent,
                        v.regions[..i] + Remainder(v.regions[i], b.start, b.Last()) + v.regions[i + 1..],
                        v.free - b.Size())
    ensures IsView(v', blocked + [b])
  {
    var rest := Remainder(v.regions[i], b.start, b.Last());
    TakenStaysSeparated(v.regions, i, rest, v.parent.start, v.parent.Last());
    forall a | v.parent.start <= a <= v.parent.Last()
      ensures InRanges(v'.regions, a) <==> !Taken(FilterWithin(v.parent, blocked + [b]), v.parent.family, a)
    {
      SeenAppend(v.parent, blocked, b, a);
      TakenRegions(v, i, b, a);
    }
    TakenSum(v.regions, i, rest);
  }

  lemma TakenSum(regions: seq<Range>, i: nat, rest: seq<Range>)
    requires i < |regions|
    ensures SumSizes(regions[..i] + rest + regions[i + 1..])
         == SumSizes(regions) - RangeSize(regions[i]) + SumSizes(rest)
  {
    SumSizesConcat(regions[..i] + rest, regions[i + 1..]);
    SumSizesConcat(regions[..i], rest);
    SumSizesConcat(regions[..i] + [regions[i]], regions[i + 1..]);
    SumSizesConcat(regions[..i], [regions[i]]);
    assert SumSizes([regions[i]]) == RangeSize(regions[i]);
    assert regions == regions[..i] + [regions[i]] + regions[i + 1..];
  }

  lemma TakenRegions(v: View, i: nat, b: Cidr, a: int)
    requires Separated(v.regions, v.parent.start, v.parent.Last())
    requires i < |v.regions| && v.regions[i].lo <= b.start && b.Last() <= v.regions[i].hi
    ensures InRanges(v.regions[..i] + Remainder(v.regions[i], b.start, b.Last()) + v.regions[i + 1..], a)
       <==> InRanges(v.regions, a) && !Has(b, b.family, a)
  {
    var rest := Remainder(v.regions[i], b.start, b.Last());
    RegionSplits(v.regions, i, a);
    InRangesConcat(v.regions[..i] + rest, v.regions[i + 1..], a);
    InRangesConcat(v.regions[..i], rest, a);
    if Has(b, b.family, a) {
      OtherRegionsMiss(v, i, b, a);
    }
  }

  lemma OtherRegionsMiss(v: View, i: nat, b: Cidr, a: int)
    requires Separated(v.regions, v.parent.start, v.parent.Last())
    requires i < |v.regions| && v.regions[i].lo <= b.start && b.Last() <= v.regions[i].hi
    requires Has(b, b.family, a)
    ensures !InRanges(v.regions[..i], a) && !InRanges(v.regions[i + 1..], a)
  {
    var below, above := v.regions[..i], v.regions[i + 1..];
    assert forall k :: 0 <= k < |below| ==> below[k] == v.regions[k];
    assert forall k :: 0 <= k < |above| ==> above[k] == v.regions[i + 1 + k];
  }

  // ---- choosing and measuring in one traversal ----------------------------

  /** A block held in one range changes the view of no range apart from it. */
  lemma OtherViewsUnchanged(v: View, blocked: seq<Cidr>, b: Cidr, home: Cidr)
    requires IsView(v, blocked)
    requires Contains(home, b) && !Overlaps(home, v.parent)
    ensures IsView(v, blocked + [b])
  {
    OverlapMeansShared(home, v.parent);
    assert Sees(v.parent, b) ==> Has(home, home.family, b.start);
    forall a | v.parent.start <= a <= v.parent.Last()
      ensures InRanges(v.regions, a) <==> !Taken(FilterWithin(v.parent, blocked + [b]), v.parent.family, a)
    {
      SeenAppend(v.parent, blocked, b, a);
    }
  }

  lemma ViewsAfterTaking(views: seq<View>, views': seq<View>, parents: seq<Cidr>, blocked: seq<Cidr>, b: Cidr, p: nat)
    requires AreViews(views, parents, blocked) && p < |parents|
    requires PairwiseApart(parents) && Contains(parents[p], b)
    requires |views'| == |views| && views'[p].parent == parents[p] && IsView(views'[p], blocked + [b])
    requires forall i :: 0 <= i < |views| && i != p ==> views'[i] == views[i]
    ensures AreViews(views', parents, blocked + [b])
  {
    forall i | 0 <= i < |views| && i != p
      ensures IsView(views'[i], blocked + [b])
    {
      OverlapMeansShared(parents[i], parents[p]);
      OverlapMeansShared(parents[p], parents[i]);
      OtherViewsUnchanged(views[i], blocked, b, parents[p]);
    }
  }

  /** The block chosen and the pool as it then stands. */
  datatype Allocated = Allocated(block: Option<Cidr>, after: Measurement)

  /** One traversal chooses a block and gives the pool's figures with that many
      more addresses consumed, which is what measuring the pool with the block
      held would answer if no address lies in two ranges; on exhaustion the
      figures are the pool's own. */
  method Allocate(parents: seq<Cidr>, existing: seq<Cidr>, ones: int, s: Strategy, r: Reservation)
    returns (res: Result<Allocated>, ghost reserved: Result<seq<Cidr>>)
    ensures parents == [] ==> res == Err(NoParent)
    ensures parents != [] ==> Reserves(multiset(parents), r, reserved)
    ensures parents != [] && reserved.Err? ==> res == Err(reserved.error)
    ensures parents != [] && reserved.Ok? ==>
              res.Ok? && IsAllocated(parents, existing + reserved.value, ones, s, res.value)
  {
    reserved := Ok([]);
    if |parents| == 0 {
      return Err(NoParent), reserved;
    }
    var avoid;
    avoid, reserved := BlockedSet(parents, existing, r);
    if avoid.Err? {
      return Err(avoid.error), reserved;
    }
    var a := AllocateFrom(parents, avoid.value, ones, s);
    res := Ok(a);
  }

  /** The figures with `n` more addresses consumed. */
  function Taking(m: Measurement, n: int): Measurement {
    Measurement(m.total, m.consumed + n, m.free - n)
  }

  ghost predicate IsAllocated(parents: seq<Cidr>, blocked: seq<Cidr>, ones: int, s: Strategy, a: Allocated) {
    match a.block
    case None =>
      && (forall i :: 0 <= i < |parents| ==> !SeenRoom(parents, blocked, ones, i))
      && a.after == Measured(parents, blocked)
    case Some(b) =>
      && SeenAvailable(parents, blocked, ones, b)
      && Picks(parents, blocked, ones, s, b) && IsFor(parents, blocked, ones, s, b)
      && a.after == Taking(Measured(parents, blocked), b.Size())
      && (PairwiseApart(parents) ==> a.after == Measured(parents, blocked + [b]))
  }

  method AllocateFrom(parents: seq<Cidr>, blocked: seq<Cidr>, ones: int, s: Strategy) returns (a: Allocated)
    ensures IsAllocated(parents, blocked, ones, s, a)
  {
    hide IsFor;
    var views := ViewPool(parents, blocked);
    var c := SelectBlock(views, ones, s);
    if c.None? {
      forall i | 0 <= i < |parents|
        ensures !SeenRoom(parents, blocked, ones, i)
      {
        RoomIsARegion(views, parents, blocked, ones, i);
      }
      var m := MeasureViews(views);
      ViewsMeasure(views, parents, blocked);
      return Allocated(None, m);
    }
    var p, r := c.value.parentIdx, c.value.regionIdx;
    var b := SpotBlock(views, ones, c.value);
    assert PicksAt(views, ones, s, b, c.value);
    RegionBlockIsFree(parents[p], views[p].regions, Seen(parents, blocked, p), ones, r);
    PickIsForStrategy(parents, blocked, ones, s, b);
    var m := MeasureAfterTaking(views, p, r, b, parents, blocked);
    a := Allocated(Some(b), m);
  }

  method MeasureAfterTaking(views: seq<View>, p: nat, r: nat, b: Cidr, ghost parents: seq<Cidr>,
                            ghost blocked: seq<Cidr>)
    returns (m: Measurement)
    requires AreViews(views, parents, blocked) && p < |views| && r < |views[p].regions|
    requires Contains(parents[p], b)
    requires views[p].regions[r].lo <= b.start && b.Last() <= views[p].regions[r].hi
    ensures m == Taking(Measured(parents, blocked), b.Size())
    ensures PairwiseApart(parents) ==> m == Measured(parents, blocked + [b])
  {
    var v := TakeFrom(views[p], r, b, blocked);
    var views' := views[p := v];
    m := MeasureViews(views');
    ViewsMeasure(views, parents, blocked);
    SumsAfter(views, p, v);
    FreeNeverNegative(v, blocked + [b]);
    if PairwiseApart(parents) {
      ViewsAfterTaking(views, views', parents, blocked, b, p);
      ViewsMeasure(views', parents, blocked + [b]);
    }
  }

  lemma {:induction false} SumsAfter(views: seq<View>, p: nat, v: View)
    requires p < |views| && v.parent == views[p].parent
    ensures TotalOf(views[p := v]) == TotalOf(views) && FreeOf(views[p := v]) == FreeOf(views) - views[p].free + v.free
  {
    var n := |views| - 1;
    if p < n {
      SumsAfter(views[..n], p, v);
      assert views[p := v][..n] == views[..n][p := v];
    } else {
      assert views[p := v][..n] == views[..n];
    }
  }

  lemma FreeNeverNegative(v: View, blocked: seq<Cidr>)
    requires IsView(v, blocked)
    ensures 0 <= v.free
  {
    SumIsCount(v.regions, v.parent.start, v.parent.Last());
  }

  /** A block adds nothing to what a range has covered. */
  ghost predicate AddsNothing(parent: Cidr, blocked: seq<Cidr>, b: Cidr) {
    Occupied(parent, FilterWithin(parent, blocked + [b])) == Occupied(parent, FilterWithin(parent, blocked))
  }

  /** Counting a block once is measuring with it held, if and only if it adds
      nothing to any other range. */
  lemma TakingExactlyWhen(parents: seq<Cidr>, blocked: seq<Cidr>, b: Cidr, p: nat)
    requires p < |parents| && Available(b, parents[p], FilterWithin(parents[p], blocked), b.ones)
    ensures Measured(parents, blocked + [b]) == Taking(Measured(parents, blocked), b.Size())
       <==> forall i :: 0 <= i < |parents| && i != p ==> AddsNothing(parents[i], blocked, b)
  {
    hide Pow2, AddsNothing, OccupiedCount, Available;
    AddsItsSize(parents[p], blocked, b);
    CountAfter(parents, blocked, b, p);
  }

  lemma AddsItsSize(p: Cidr, blocked: seq<Cidr>, b: Cidr)
    requires Available(b, p, FilterWithin(p, blocked), b.ones)
    ensures |Occupied(p, FilterWithin(p, blocked + [b]))| == |Occupied(p, FilterWithin(p, blocked))| + b.Size()
  {
    hide Pow2, FilterWithin;
    var before, here := Occupied(p, FilterWithin(p, blocked)), Run(b.start, b.Last());
    forall a | p.start <= a <= p.Last()
      ensures Taken(FilterWithin(p, blocked + [b]), p.family, a)
         <==> Taken(FilterWithin(p, blocked), p.family, a) || a in here
    {
      SeenAppend(p, blocked, b, a);
    }
    assert Occupied(p, FilterWithin(p, blocked + [b])) == before + here && before !! here;
    RunSize(b.start, b.Last());
  }

  lemma AddsAtLeast(p: Cidr, blocked: seq<Cidr>, b: Cidr)
    ensures |Occupied(p, FilterWithin(p, blocked))| <= |Occupied(p, FilterWithin(p, blocked + [b]))|
    ensures |Occupied(p, FilterWithin(p, blocked))| == |Occupied(p, FilterWithin(p, blocked + [b]))|
       <==> AddsNothing(p, blocked, b)
  {
    hide Pow2, FilterWithin;
    var x, y := Occupied(p, FilterWithin(p, blocked)), Occupied(p, FilterWithin(p, blocked + [b]));
    forall a | a in x
      ensures a in y
    {
      var c :| c in FilterWithin(p, blocked) && Has(c, p.family, a);
      assert c in FilterWithin(p, blocked + [b]);
    }
    assert y == x + (y - x);
    assert |x + (y - x)| == |x| + |y - x|;
  }

  lemma {:induction false} CountAfter(parents: seq<Cidr>, blocked: seq<Cidr>, b: Cidr, p: nat)
    requires p < |parents| ==>
               |Occupied(parents[p], FilterWithin(parents[p], blocked + [b]))|
               == |Occupied(parents[p], FilterWithin(parents[p], blocked))| + b.Size()
    ensures var gain := OccupiedCount(parents, blocked + [b]) - OccupiedCount(parents, blocked);
            var own := if p < |parents| then b.Size() else 0;
            && gain >= own
            && (gain == own <==> forall i :: 0 <= i < |parents| && i != p ==> AddsNothing(parents[i], blocked, b))
  {
    hide Pow2, AddsNothing, FilterWithin, Occupied;
    if parents != [] {
      var n := |parents| - 1;
      CountAfter(parents[..n], blocked, b, p);
      AddsAtLeast(parents[n], blocked, b);
      assert forall i :: 0 <= i < n ==> parents[..n][i] == parents[i];
    }
  }

  // ---- the answers are determined -----------------------------------------

  /** The maximal free regions of a range are unique. */
  lemma {:induction false} FreeRegionsAreUnique(rs: seq<Range>, qs: seq<Range>, lo: int, hi: int)
    requires Separated(rs, lo, hi) && Separated(qs, lo, hi)
    requires forall a :: InRanges(rs, a) <==> InRanges(qs, a)
    ensures rs == qs
    decreases |rs|
  {
    if rs == [] {
      assert forall i :: 0 <= i < |qs| ==> InRanges(qs, qs[i].lo);
    } else {
      LastRegionsAgree(rs, qs, lo, hi);
      var r, q := rs[..|rs| - 1], qs[..|qs| - 1];
      assert rs == r + [rs[|rs| - 1]] && qs == q + [qs[|qs| - 1]];
      forall a
        ensures InRanges(r, a) <==> InRanges(q, a)
      {
        InRangesAppend(r, rs[|rs| - 1], a);
        InRangesAppend(q, qs[|qs| - 1], a);
        if InRanges(r, a) {
          LastRegionIsNotEarlier(rs, lo, hi, a);
        }
        if InRanges(q, a) {
          LastRegionIsNotEarlier(qs, lo, hi, a);
        }
      }
      FreeRegionsAreUnique(r, q, lo, hi);
    }
  }

  lemma LastRegionIsNotEarlier(rs: seq<Range>, lo: int, hi: int, a: int)
    requires Separated(rs, lo, hi) && rs != []
    requires InRanges(rs[..|rs| - 1], a)
    ensures a < rs[|rs| - 1].lo
  {
    var init := rs[..|rs| - 1];
    var i :| 0 <= i < |init| && init[i].lo <= a <= init[i].hi;
    assert init[i] == rs[i];
  }

  lemma LastRegionsAgree(rs: seq<Range>, qs: seq<Range>, lo: int, hi: int)
    requires Separated(rs, lo, hi) && Separated(qs, lo, hi) && rs != []
    requires forall a :: InRanges(rs, a) <==> InRanges(qs, a)
    ensures qs != [] && rs[|rs| - 1] == qs[|qs| - 1]
  {
    var r := rs[|rs| - 1];
    assert InRanges(rs, r.lo);
    assert InRanges(qs, r.lo);
    var q := qs[|qs| - 1];
    LastRegionEnds(rs, lo, hi, q.lo);
    LastRegionEnds(rs, lo, hi, q.hi);
    LastRegionEnds(qs, lo, hi, r.lo);
    LastRegionEnds(qs, lo, hi, r.hi);
    assert InRanges(rs, r.hi) && InRanges(qs, q.lo) && InRanges(qs, q.hi);
  }

  lemma LastRegionEnds(rs: seq<Range>, lo: int, hi: int, a: int)
    requires Separated(rs, lo, hi) && rs != []
    ensures InRanges(rs, a) ==> a <= rs[|rs| - 1].hi
    ensures !InRanges(rs, rs[|rs| - 1].lo - 1)
  {
  }

  /** Whatever the strategy, the pick is determined by the pool. */
  lemma PickIsDetermined(parents: seq<Cidr>, existing: seq<Cidr>, ones: int, s: Strategy, b: Cidr, b': Cidr)
    requires Picks(parents, existing, ones, s, b) && Picks(parents, existing, ones, s, b')
    ensures b == b'
  {
    var vs: seq<View>, c: Spot :| AreViews(vs, parents, existing) && PicksAt(vs, ones, s, b, c);
    var ws: seq<View>, d: Spot :| AreViews(ws, parents, existing) && PicksAt(ws, ones, s, b', d);
    ViewsAreUnique(vs, ws, parents, existing);
    assert !Before(c, d) && !Before(d, c);
  }

  lemma ViewsAreUnique(vs: seq<View>, ws: seq<View>, parents: seq<Cidr>, existing: seq<Cidr>)
    requires AreViews(vs, parents, existing) && AreViews(ws, parents, existing)
    ensures vs == ws
  {
    forall i | 0 <= i < |parents|
      ensures vs[i] == ws[i]
    {
      var p := parents[i];
      forall a
        ensures InRanges(vs[i].regions, a) <==> InRanges(ws[i].regions, a)
      {
      }
      FreeRegionsAreUnique(vs[i].regions, ws[i].regions, p.start, p.Last());
    }
  }

  /** Picking the earliest region with room is first fit, so the one-traversal
      form and the dedicated first-fit loop answer alike. */
  lemma EarliestPickIsFirstFit(parents: seq<Cidr>, existing: seq<Cidr>, ones: int, s: Strategy, b: Cidr)
    requires WantsFirst(s) && Picks(parents, existing, ones, s, b)
    ensures SeenFirstFit(parents, existing, ones, b)
  {
    PickIsForStrategy(parents, existing, ones, s, b);
  }
}
