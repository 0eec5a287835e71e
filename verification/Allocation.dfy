/** Choosing a block and measuring a pool, both read off the free regions. */
module Allocation {
  import opened Common
  import opened Cidr
  import opened FreeSpace
  import opened Decompose
  import opened Fit

  /** `Default` is the unset strategy; `Other` is any name the pool recognises
      nowhere, which falls through to the first candidate. */
  datatype Strategy = Default | FirstFit | BestFit | LeastUtilized | Other

  predicate WantsFirst(s: Strategy) {
    s == Default || s == FirstFit
  }

  // ---- what one free region can supply -----------------------------------

  predicate RegionFits(parent: Cidr, region: Range, ones: int) {
    && parent.ones <= ones <= Width(parent.family)
    && AlignUp(region.lo, BlockSize(parent.family, ones)) + BlockSize(parent.family, ones) - 1 <= region.hi
  }

  function BlockIn(parent: Cidr, region: Range, ones: int): (b: Cidr)
    requires RegionFits(parent, region, ones)
    requires parent.start <= region.lo && region.hi <= parent.Last()
    ensures b.ones == ones && Contains(parent, b)
    ensures region.lo <= b.start && b.Last() <= region.hi
  {
    Block(parent.family, AlignUp(region.lo, BlockSize(parent.family, ones)), ones)
  }

  lemma RegionBlockIsFree(parent: Cidr, regions: seq<Range>, taken: seq<Cidr>, ones: int, i: nat)
    requires IsFreeSpace(regions, parent, taken)
    requires i < |regions| && RegionFits(parent, regions[i], ones)
    ensures Available(BlockIn(parent, regions[i], ones), parent, taken, ones)
  {
    var b := BlockIn(parent, regions[i], ones);
    forall a | Has(b, b.family, a)
      ensures !Taken(taken, parent.family, a)
    {
      assert InRanges(regions, a);
    }
  }

  /** Every available block lies in one region, and that region's own block is
      no higher. */
  lemma AvailableLiesInRegion(c: Cidr, parent: Cidr, regions: seq<Range>, taken: seq<Cidr>, ones: int) returns (i: nat)
    requires IsFreeSpace(regions, parent, taken)
    requires Available(c, parent, taken, ones)
    ensures i < |regions| && regions[i].lo <= c.start && c.Last() <= regions[i].hi
    ensures RegionFits(parent, regions[i], ones)
    ensures BlockIn(parent, regions[i], ones).start <= c.start
  {
    ShorterPrefix(c, parent);
    assert Has(c, c.family, c.start);
    assert InRanges(regions, c.start);
    i :| 0 <= i < |regions| && regions[i].lo <= c.start <= regions[i].hi;
    FreeBlockStaysInRegion(c, parent, taken, regions, i);
    AlignUpIsLeast(regions[i].lo, BlockSize(parent.family, ones), c.start);
  }

  lemma ShorterPrefix(c: Cidr, parent: Cidr)
    requires Contains(parent, c)
    ensures parent.ones <= c.ones
  {
    if c.ones < parent.ones {
      ShorterPrefixIsLarger(c.family, c.ones, parent.ones);
    }
  }

  /** The first region with room supplies the lowest available block. */
  method FirstFitIn(parent: Cidr, regions: seq<Range>, ones: int, ghost taken: seq<Cidr>)
    returns (found: Option<Cidr>, idx: nat)
    requires IsFreeSpace(regions, parent, taken)
    ensures found.None? <==> !HasRoom(parent, taken, ones)
    ensures found.Some? ==> LowestIn(found.value, parent, taken, ones)
    ensures found.Some? ==> idx < |regions| && RegionFits(parent, regions[idx], ones)
    ensures found.Some? ==> found.value == BlockIn(parent, regions[idx], ones)
  {
    idx := 0;
    while idx < |regions|
      invariant 0 <= idx <= |regions|
      invariant forall j :: 0 <= j < idx ==> !RegionFits(parent, regions[j], ones)
    {
      if RegionFits(parent, regions[idx], ones) {
        var b := BlockIn(parent, regions[idx], ones);
        RegionBlockIsFree(parent, regions, taken, ones, idx);
        forall c: Cidr | Available(c, parent, taken, ones)
          ensures b.start <= c.start
        {
          var i := AvailableLiesInRegion(c, parent, regions, taken, ones);
        }
        return Some(b), idx;
      }
      idx := idx + 1;
    }
    forall c: Cidr
      ensures !Available(c, parent, taken, ones)
    {
      if Available(c, parent, taken, ones) {
        var i := AvailableLiesInRegion(c, parent, regions, taken, ones);
      }
    }
    found := None;
  }

  // ---- views -------------------------------------------------------------

  /** One range with the free regions left in it and their total size. */
  datatype View = View(parent: Cidr, regions: seq<Range>, free: int)

  ghost predicate IsView(v: View, blocked: seq<Cidr>) {
    && IsFreeSpace(v.regions, v.parent, FilterWithin(v.parent, blocked))
    && v.free == SumSizes(v.regions)
  }

  ghost predicate AreViews(views: seq<View>, parents: seq<Cidr>, blocked: seq<Cidr>) {
    && |views| == |parents|
    && forall i :: 0 <= i < |views| ==> views[i].parent == parents[i] && IsView(views[i], blocked)
  }

  method TotalSize(rs: seq<Range>) returns (n: int)
    ensures n == SumSizes(rs)
  {
    n := 0;
    for i := 0 to |rs|
      invariant n == SumSizes(rs[..i])
    {
      assert rs[..i + 1][..i] == rs[..i];
      n := n + RangeSize(rs[i]);
    }
    assert rs[..|rs|] == rs;
  }

  method ViewPool(parents: seq<Cidr>, blocked: seq<Cidr>) returns (views: seq<View>)
    ensures AreViews(views, parents, blocked)
  {
    hide IsFreeSpace, Pow2, SumSizes, FilterWithin;
    views := [];
    for i := 0 to |parents|
      invariant AreViews(views, parents[..i], blocked)
    {
      var regions := FreeRegions(parents[i], FilterWithin(parents[i], blocked));
      var free := TotalSize(regions);
      views := views + [View(parents[i], regions, free)];
    }
    assert parents[..|parents|] == parents;
  }

  // ---- strategies --------------------------------------------------------

  /** A region of a view, by position. */
  datatype Spot = Spot(parentIdx: nat, regionIdx: nat)

  predicate Before(a: Spot, b: Spot) {
    a.parentIdx < b.parentIdx || (a.parentIdx == b.parentIdx && a.regionIdx < b.regionIdx)
  }

  predicate InViews(views: seq<View>, c: Spot) {
    c.parentIdx < |views| && c.regionIdx < |views[c.parentIdx].regions|
  }

  predicate FitsAt(views: seq<View>, ones: int, c: Spot) {
    && InViews(views, c)
    && RegionFits(views[c.parentIdx].parent, views[c.parentIdx].regions[c.regionIdx], ones)
  }

  /** What each strategy minimises: the region for BestFit, the free space left
      out for LeastUtilized, nothing for the others. */
  function Cost(views: seq<View>, s: Strategy, c: Spot): int
    requires InViews(views, c)
  {
    match s
    case BestFit => RangeSize(views[c.parentIdx].regions[c.regionIdx])
    case LeastUtilized => -views[c.parentIdx].free
    case _ => 0
  }

  /** `c` is a cheapest region with room, the earliest of the cheapest. */
  ghost predicate Chosen(views: seq<View>, ones: int, s: Strategy, c: Spot) {
    && FitsAt(views, ones, c)
    && forall d :: FitsAt(views, ones, d) ==>
         Cost(views, s, c) <= Cost(views, s, d) && (Cost(views, s, c) == Cost(views, s, d) ==> !Before(d, c))
  }

  /** All the regions with room before position `next`, in order. */
  ghost predicate Collected(cs: seq<Spot>, views: seq<View>, ones: int, next: Spot) {
    && (forall i :: 0 <= i < |cs| ==> FitsAt(views, ones, cs[i]) && Before(cs[i], next))
    && (forall i, j :: 0 <= i < j < |cs| ==> Before(cs[i], cs[j]))
    && (forall d :: FitsAt(views, ones, d) && Before(d, next) ==> d in cs)
  }

  method Candidates(views: seq<View>, ones: int, first: bool) returns (cs: seq<Spot>)
    ensures forall i :: 0 <= i < |cs| ==> FitsAt(views, ones, cs[i])
    ensures forall i, j :: 0 <= i < j < |cs| ==> Before(cs[i], cs[j])
    ensures first ==> |cs| <= 1 && forall d :: FitsAt(views, ones, d) ==> cs != [] && !Before(d, cs[0])
    ensures !first ==> forall d :: FitsAt(views, ones, d) ==> d in cs
  {
    hide Collected, RegionFits;
    cs := [];
    NoneCollected(views, ones);
    for p := 0 to |views|
      invariant Collected(cs, views, ones, Spot(p, 0))
      invariant first ==> cs == []
    {
      for r := 0 to |views[p].regions|
        invariant Collected(cs, views, ones, Spot(p, r))
        invariant first ==> cs == []
      {
        CollectNext(cs, views, ones, p, r);
        if RegionFits(views[p].parent, views[p].regions[r], ones) {
          cs := cs + [Spot(p, r)];
          if first {
            assert cs == [Spot(p, r)];
            FirstCollected(views, ones, p, r);
            return;
          }
        }
      }
      NextView(cs, views, ones, p);
    }
    AllCollected(cs, views, ones);
  }

  lemma NoneCollected(views: seq<View>, ones: int)
    ensures Collected([], views, ones, Spot(0, 0))
  {
  }

  lemma CollectNext(cs: seq<Spot>, views: seq<View>, ones: int, p: nat, r: nat)
    requires p < |views| && r < |views[p].regions| && Collected(cs, views, ones, Spot(p, r))
    ensures if RegionFits(views[p].parent, views[p].regions[r], ones)
            then Collected(cs + [Spot(p, r)], views, ones, Spot(p, r + 1))
            else Collected(cs, views, ones, Spot(p, r + 1))
  {
    hide RegionFits;
    forall d | FitsAt(views, ones, d) && Before(d, Spot(p, r + 1))
      ensures d == Spot(p, r) || d in cs
    {
      assert d == Spot(p, r) || Before(d, Spot(p, r));
    }
  }

  lemma FirstCollected(views: seq<View>, ones: int, p: nat, r: nat)
    requires Collected([Spot(p, r)], views, ones, Spot(p, r + 1))
    ensures FitsAt(views, ones, Spot(p, r))
    ensures forall d :: FitsAt(views, ones, d) ==> !Before(d, Spot(p, r))
  {
    hide RegionFits;
    var cs := [Spot(p, r)];
    assert FitsAt(views, ones, cs[0]);
    assert forall d :: Before(d, Spot(p, r)) ==> Before(d, Spot(p, r + 1)) && d !in cs;
  }

  lemma NextView(cs: seq<Spot>, views: seq<View>, ones: int, p: nat)
    requires p < |views| && Collected(cs, views, ones, Spot(p, |views[p].regions|))
    ensures Collected(cs, views, ones, Spot(p + 1, 0))
  {
    hide RegionFits;
  }

  lemma AllCollected(cs: seq<Spot>, views: seq<View>, ones: int)
    requires Collected(cs, views, ones, Spot(|views|, 0))
    ensures forall i :: 0 <= i < |cs| ==> FitsAt(views, ones, cs[i])
    ensures forall i, j :: 0 <= i < j < |cs| ==> Before(cs[i], cs[j])
    ensures forall d :: FitsAt(views, ones, d) ==> d in cs
  {
    hide RegionFits;
  }

  /** The earliest of the cheapest candidates. */
  method Cheapest(views: seq<View>, s: Strategy, cs: seq<Spot>) returns (best: nat)
    requires cs != []
    requires forall i :: 0 <= i < |cs| ==> InViews(views, cs[i])
    ensures best < |cs|
    ensures forall j :: 0 <= j < |cs| ==> Cost(views, s, cs[best]) <= Cost(views, s, cs[j])
    ensures forall j :: 0 <= j < best ==> Cost(views, s, cs[best]) < Cost(views, s, cs[j])
  {
    best := 0;
    if s == BestFit || s == LeastUtilized {
      for i := 1 to |cs|
        invariant 0 <= best < |cs|
        invariant forall j :: 0 <= j < i ==> Cost(views, s, cs[best]) <= Cost(views, s, cs[j])
        invariant forall j :: 0 <= j < best ==> Cost(views, s, cs[best]) < Cost(views, s, cs[j])
      {
        if Cost(views, s, cs[i]) < Cost(views, s, cs[best]) {
          best := i;
        }
      }
    }
  }

  method SelectBlock(views: seq<View>, ones: int, s: Strategy) returns (c: Option<Spot>)
    ensures c.None? <==> forall d :: !FitsAt(views, ones, d)
    ensures c.Some? ==> Chosen(views, ones, s, c.value)
  {
    var cs := Candidates(views, ones, WantsFirst(s));
    if |cs| == 0 {
      return None;
    }
    var best := Cheapest(views, s, cs);
    CheapestIsChosen(views, ones, s, cs, best);
    c := Some(cs[best]);
  }

  lemma CheapestIsChosen(views: seq<View>, ones: int, s: Strategy, cs: seq<Spot>, best: nat)
    requires best < |cs|
    requires forall i :: 0 <= i < |cs| ==> InViews(views, cs[i]) && FitsAt(views, ones, cs[i])
    requires forall i, j :: 0 <= i < j < |cs| ==> Before(cs[i], cs[j])
    requires WantsFirst(s) ==> |cs| == 1 && forall d :: FitsAt(views, ones, d) ==> !Before(d, cs[0])
    requires !WantsFirst(s) ==> forall d :: FitsAt(views, ones, d) ==> d in cs
    requires forall j :: 0 <= j < |cs| ==> Cost(views, s, cs[best]) <= Cost(views, s, cs[j])
    requires forall j :: 0 <= j < best ==> Cost(views, s, cs[best]) < Cost(views, s, cs[j])
    ensures Chosen(views, ones, s, cs[best])
  {
    forall d | FitsAt(views, ones, d)
      ensures Cost(views, s, cs[best]) <= Cost(views, s, d)
      ensures Cost(views, s, cs[best]) == Cost(views, s, d) ==> !Before(d, cs[best])
    {
      if !WantsFirst(s) {
        var j :| 0 <= j < |cs| && cs[j] == d;
      }
    }
  }

  // ---- finding a block ---------------------------------------------------

  /** The blocks parent `i` sees. */
  ghost function Seen(parents: seq<Cidr>, existing: seq<Cidr>, i: nat): seq<Cidr>
    requires i < |parents|
  {
    FilterWithin(parents[i], existing)
  }

  ghost predicate SeenRoom(parents: seq<Cidr>, existing: seq<Cidr>, ones: int, i: nat)
    requires i < |parents|
  {
    HasRoom(parents[i], Seen(parents, existing, i), ones)
  }

  /** The block a spot of the views names, and its availability in that range. */
  function SpotBlock(views: seq<View>, ones: int, c: Spot): (b: Cidr)
    requires FitsAt(views, ones, c)
    requires var v := views[c.parentIdx]; Separated(v.regions, v.parent.start, v.parent.Last())
  {
    BlockIn(views[c.parentIdx].parent, views[c.parentIdx].regions[c.regionIdx], ones)
  }

  /** Some region fits exactly when some range has room. */
  lemma RoomIsARegion(views: seq<View>, parents: seq<Cidr>, blocked: seq<Cidr>, ones: int, i: nat)
    requires AreViews(views, parents, blocked) && i < |parents|
    ensures SeenRoom(parents, blocked, ones, i) <==> exists r: nat :: FitsAt(views, ones, Spot(i, r))
  {
    var taken := Seen(parents, blocked, i);
    if b: Cidr :| Available(b, parents[i], taken, ones) {
      var r := AvailableLiesInRegion(b, parents[i], views[i].regions, taken, ones);
      assert FitsAt(views, ones, Spot(i, r));
    }
    if r: nat :| FitsAt(views, ones, Spot(i, r)) {
      RegionBlockIsFree(parents[i], views[i].regions, taken, ones, r);
    }
  }

  /** `b` is what strategy `s` picks from the maximal free regions. */
  ghost predicate Picks(parents: seq<Cidr>, existing: seq<Cidr>, ones: int, s: Strategy, b: Cidr) {
    exists views, c :: AreViews(views, parents, existing) && PicksAt(views, ones, s, b, c)
  }

  ghost predicate PicksAt(views: seq<View>, ones: int, s: Strategy, b: Cidr, c: Spot) {
    && Chosen(views, ones, s, c)
    && (var v := views[c.parentIdx]; Separated(v.regions, v.parent.start, v.parent.Last()))
    && b == SpotBlock(views, ones, c)
  }

  ghost predicate SeenAvailable(parents: seq<Cidr>, existing: seq<Cidr>, ones: int, b: Cidr) {
    exists i :: 0 <= i < |parents| && Available(b, parents[i], Seen(parents, existing, i), ones)
  }

  /** First fit over what each range sees. */
  ghost predicate SeenFirstFit(parents: seq<Cidr>, existing: seq<Cidr>, ones: int, b: Cidr) {
    exists i :: 0 <= i < |parents| && SeenFirstFitAt(parents, existing, ones, b, i)
  }

  ghost predicate SeenFirstFitAt(parents: seq<Cidr>, existing: seq<Cidr>, ones: int, b: Cidr, i: nat)
    requires i < |parents|
  {
    && LowestIn(b, parents[i], Seen(parents, existing, i), ones)
    && forall j :: 0 <= j < i ==> !SeenRoom(parents, existing, ones, j)
  }

  // ---- what each strategy promises ---------------------------------------

  /** A run of free addresses that cannot be made longer. */
  ghost predicate IsFreeRun(p: Cidr, taken: seq<Cidr>, lo: int, hi: int) {
    && p.start <= lo <= hi <= p.Last() && (forall a :: lo <= a <= hi ==> !Taken(taken, p.family, a))
    && (lo == p.start || Taken(taken, p.family, lo - 1)) && (hi == p.Last() || Taken(taken, p.family, hi + 1))
  }

  /** `b` has the length asked for and lies in that run of range `i`. */
  ghost predicate InFreeRun(parents: seq<Cidr>, existing: seq<Cidr>, ones: int, b: Cidr, i: nat, lo: int, hi: int) {
    && i < |parents| && IsFreeRun(parents[i], Seen(parents, existing, i), lo, hi)
    && b.ones == ones && b.family == parents[i].family && lo <= b.start && b.Last() <= hi
  }

  /** No block of that length lies in a shorter free run; of those in runs equally
      short it is the one in the earliest range, and the lowest there. */
  ghost predicate BestFitAt(parents: seq<Cidr>, existing: seq<Cidr>, ones: int, b: Cidr, i: nat, lo: int, hi: int) {
    && InFreeRun(parents, existing, ones, b, i, lo, hi)
    && forall c, j, lo', hi' :: InFreeRun(parents, existing, ones, c, j, lo', hi') ==>
         hi - lo <= hi' - lo' && (hi - lo == hi' - lo' ==> i < j || (i == j && b.start <= c.start))
  }

  ghost predicate IsBestFit(parents: seq<Cidr>, existing: seq<Cidr>, ones: int, b: Cidr) {
    exists i: nat, lo, hi :: BestFitAt(parents, existing, ones, b, i, lo, hi)
  }

  /** How many addresses of range `i` nothing it sees holds. */
  ghost function FreeCount(parents: seq<Cidr>, existing: seq<Cidr>, i: nat): int
    requires i < |parents|
  {
    parents[i].Size() - |Occupied(parents[i], Seen(parents, existing, i))|
  }

  /** The lowest block of a range with room that has the most free addresses, the
      earliest of those that have as many. */
  ghost predicate IsMostFreeAt(parents: seq<Cidr>, existing: seq<Cidr>, ones: int, b: Cidr, i: nat) {
    && i < |parents| && LowestIn(b, parents[i], Seen(parents, existing, i), ones)
    && forall j :: 0 <= j < |parents| && SeenRoom(parents, existing, ones, j) ==>
         && FreeCount(parents, existing, j) <= FreeCount(parents, existing, i)
         && (FreeCount(parents, existing, j) == FreeCount(parents, existing, i) ==> i <= j)
  }

  /** The block a strategy is for. A name it does not know means first fit. */
  ghost predicate IsFor(parents: seq<Cidr>, existing: seq<Cidr>, ones: int, s: Strategy, b: Cidr) {
    match s
    case BestFit => IsBestFit(parents, existing, ones, b)
    case LeastUtilized => exists i: nat :: IsMostFreeAt(parents, existing, ones, b, i)
    case _ => SeenFirstFit(parents, existing, ones, b)
  }

  lemma RegionIsRun(p: Cidr, rs: seq<Range>, taken: seq<Cidr>, k: nat)
    requires IsFreeSpace(rs, p, taken) && k < |rs|
    ensures IsFreeRun(p, taken, rs[k].lo, rs[k].hi)
  {
    hide Pow2;
    var lo, hi := rs[k].lo, rs[k].hi;
    forall a | lo <= a <= hi
      ensures !Taken(taken, p.family, a)
    {
      assert InRanges(rs, a);
    }
    assert p.start < lo ==> !InRanges(rs, lo - 1);
    assert hi < p.Last() ==> !InRanges(rs, hi + 1);
  }

  lemma RunIsRegion(p: Cidr, rs: seq<Range>, taken: seq<Cidr>, lo: int, hi: int) returns (k: nat)
    requires IsFreeSpace(rs, p, taken) && IsFreeRun(p, taken, lo, hi)
    ensures k < |rs| && rs[k] == Range(lo, hi)
  {
    hide Pow2, Taken;
    assert InRanges(rs, lo);
    k :| 0 <= k < |rs| && rs[k].lo <= lo <= rs[k].hi;
    RegionIsRun(p, rs, taken, k);
  }

  /** The smallest region with room is the shortest run. */
  lemma SmallestIsBest(vs: seq<View>, parents: seq<Cidr>, existing: seq<Cidr>, ones: int, b: Cidr, c: Spot)
    requires AreViews(vs, parents, existing) && PicksAt(vs, ones, BestFit, b, c)
    ensures IsBestFit(parents, existing, ones, b)
  {
    hide Pow2, IsFreeRun, RegionFits;
    var p := c.parentIdx;
    var region := vs[p].regions[c.regionIdx];
    RegionIsRun(parents[p], vs[p].regions, Seen(parents, existing, p), c.regionIdx);
    forall d, j: nat, lo, hi | InFreeRun(parents, existing, ones, d, j, lo, hi)
      ensures region.hi - region.lo <= hi - lo
      ensures region.hi - region.lo == hi - lo ==> p < j || (p == j && b.start <= d.start)
    {
      NoShorterRun(vs, parents, existing, ones, b, c, d, j, lo, hi);
    }
    assert BestFitAt(parents, existing, ones, b, p, region.lo, region.hi);
  }

  lemma NoShorterRun(vs: seq<View>, parents: seq<Cidr>, existing: seq<Cidr>, ones: int, b: Cidr, c: Spot, d: Cidr,
                     j: nat, lo: int, hi: int)
    requires AreViews(vs, parents, existing) && PicksAt(vs, ones, BestFit, b, c)
    requires InFreeRun(parents, existing, ones, d, j, lo, hi)
    ensures var region := vs[c.parentIdx].regions[c.regionIdx];
            && region.hi - region.lo <= hi - lo
            && (region.hi - region.lo == hi - lo ==> c.parentIdx < j || (c.parentIdx == j && b.start <= d.start))
  {
    var taken := Seen(parents, existing, j);
    var k := RunIsRegion(parents[j], vs[j].regions, taken, lo, hi);
    assert Available(d, parents[j], taken, ones) by {
      InRunIsAvailable(parents[j], taken, ones, d, lo, hi);
    }
    hide Pow2, IsFreeRun, Available;
    ShorterPrefix(d, parents[j]);
    AlignUpIsLeast(lo, BlockSize(parents[j].family, ones), d.start);
    assert FitsAt(vs, ones, Spot(j, k));
    if c.parentIdx == j && c.regionIdx < k {
      assert vs[j].regions[c.regionIdx].hi < vs[j].regions[k].lo;
    }
  }

  lemma InRunIsAvailable(p: Cidr, taken: seq<Cidr>, ones: int, d: Cidr, lo: int, hi: int)
    requires IsFreeRun(p, taken, lo, hi) && d.ones == ones && d.family == p.family && lo <= d.start && d.Last() <= hi
    ensures Available(d, p, taken, ones)
  {
    hide Pow2;
  }

  /** The first region with room of a range gives its lowest block. */
  lemma EarliestIsLowest(vs: seq<View>, parents: seq<Cidr>, existing: seq<Cidr>, ones: int, s: Strategy, b: Cidr,
                         c: Spot)
    requires AreViews(vs, parents, existing) && PicksAt(vs, ones, s, b, c)
    requires forall k: nat :: FitsAt(vs, ones, Spot(c.parentIdx, k)) ==> c.regionIdx <= k
    ensures LowestIn(b, parents[c.parentIdx], Seen(parents, existing, c.parentIdx), ones)
  {
    var p := c.parentIdx;
    var taken := Seen(parents, existing, p);
    RegionBlockIsFree(parents[p], vs[p].regions, taken, ones, c.regionIdx);
    forall x: Cidr | Available(x, parents[p], taken, ones)
      ensures b.start <= x.start
    {
      var k := AvailableLiesInRegion(x, parents[p], vs[p].regions, taken, ones);
      assert FitsAt(vs, ones, Spot(p, k));
    }
  }

  lemma EarliestIsFirst(vs: seq<View>, parents: seq<Cidr>, existing: seq<Cidr>, ones: int, s: Strategy, b: Cidr,
                        c: Spot)
    requires AreViews(vs, parents, existing) && PicksAt(vs, ones, s, b, c)
    requires forall d :: FitsAt(vs, ones, d) ==> !Before(d, c)
    ensures SeenFirstFit(parents, existing, ones, b)
  {
    hide Pow2, LowestIn, RegionFits, IsView;
    EarliestIsLowest(vs, parents, existing, ones, s, b, c);
    forall j | 0 <= j < c.parentIdx
      ensures !SeenRoom(parents, existing, ones, j)
    {
      RoomIsARegion(vs, parents, existing, ones, j);
    }
    assert SeenFirstFitAt(parents, existing, ones, b, c.parentIdx);
  }

  lemma MostFreeIsMostFree(vs: seq<View>, parents: seq<Cidr>, existing: seq<Cidr>, ones: int, b: Cidr, c: Spot)
    requires AreViews(vs, parents, existing) && PicksAt(vs, ones, LeastUtilized, b, c)
    ensures IsMostFreeAt(parents, existing, ones, b, c.parentIdx)
  {
    EarliestIsLowest(vs, parents, existing, ones, LeastUtilized, b, c);
    FreePlusOccupied(parents[c.parentIdx], Seen(parents, existing, c.parentIdx), vs[c.parentIdx].regions);
    hide Pow2, LowestIn, RegionFits, Occupied;
    forall j | 0 <= j < |parents| && SeenRoom(parents, existing, ones, j)
      ensures FreeCount(parents, existing, j) <= FreeCount(parents, existing, c.parentIdx)
      ensures FreeCount(parents, existing, j) == FreeCount(parents, existing, c.parentIdx) ==> c.parentIdx <= j
    {
      RoomIsARegion(vs, parents, existing, ones, j);
      var k: nat :| FitsAt(vs, ones, Spot(j, k));
      FreePlusOccupied(parents[j], Seen(parents, existing, j), vs[j].regions);
    }
  }

  /** What a strategy picks is the block it is for. */
  lemma PickIsForStrategy(parents: seq<Cidr>, existing: seq<Cidr>, ones: int, s: Strategy, b: Cidr)
    requires Picks(parents, existing, ones, s, b)
    ensures IsFor(parents, existing, ones, s, b)
  {
    hide AreViews, IsBestFit, IsMostFreeAt, SeenFirstFit, FitsAt;
    var vs: seq<View>, c: Spot :| AreViews(vs, parents, existing) && PicksAt(vs, ones, s, b, c);
    match s
    case BestFit => SmallestIsBest(vs, parents, existing, ones, b, c);
    case LeastUtilized => MostFreeIsMostFree(vs, parents, existing, ones, b, c);
    case _ => EarliestIsFirst(vs, parents, existing, ones, s, b, c);
  }

  /** There is one best fit. */
  lemma BestFitIsUnique(parents: seq<Cidr>, existing: seq<Cidr>, ones: int, b: Cidr, c: Cidr)
    requires IsBestFit(parents, existing, ones, b) && IsBestFit(parents, existing, ones, c)
    ensures b == c
  {
    hide Pow2, IsFreeRun;
    var i: nat, lo, hi :| BestFitAt(parents, existing, ones, b, i, lo, hi);
    var j: nat, lo', hi' :| BestFitAt(parents, existing, ones, c, j, lo', hi');
  }

  method FindFirstAvailableBlock(parents: seq<Cidr>, existing: seq<Cidr>, ones: int, s: Strategy)
    returns (res: Result<Cidr>)
    ensures parents == [] <==> res == Err(NoParent)
    ensures parents != [] ==>
              (res == Err(PoolExhausted) <==> forall i :: 0 <= i < |parents| ==> !SeenRoom(parents, existing, ones, i))
    ensures res.Err? ==> res.error == NoParent || res.error == PoolExhausted
    ensures res.Ok? ==> SeenAvailable(parents, existing, ones, res.value)
    ensures res.Ok? ==> IsFor(parents, existing, ones, s, res.value)
    ensures res.Ok? && !WantsFirst(s) ==> Picks(parents, existing, ones, s, res.value)
  {
    hide Picks, IsBestFit, IsMostFreeAt, SeenFirstFit;
    if |parents| == 0 {
      return Err(NoParent);
    }
    if WantsFirst(s) {
      res := FindFirst(parents, existing, ones);
    } else {
      res := FindByStrategy(parents, existing, ones, s);
      if res.Ok? {
        PickIsForStrategy(parents, existing, ones, s, res.value);
      }
    }
    if res.Ok? {
      ghost var i :| 0 <= i < |parents| && Available(res.value, parents[i], Seen(parents, existing, i), ones);
      assert SeenRoom(parents, existing, ones, i);
    }
  }

  method FindFirst(parents: seq<Cidr>, existing: seq<Cidr>, ones: int) returns (res: Result<Cidr>)
    ensures res == Err(PoolExhausted) || (res.Ok? && SeenFirstFit(parents, existing, ones, res.value))
    ensures res.Ok? ==> SeenAvailable(parents, existing, ones, res.value)
    ensures res.Err? ==> forall i :: 0 <= i < |parents| ==> !SeenRoom(parents, existing, ones, i)
  {
    for i := 0 to |parents|
      invariant forall j :: 0 <= j < i ==> !SeenRoom(parents, existing, ones, j)
    {
      var within := FilterWithin(parents[i], existing);
      var regions := FreeRegions(parents[i], within);
      var found, _ := FirstFitIn(parents[i], regions, ones, within);
      if found.Some? {
        assert SeenFirstFitAt(parents, existing, ones, found.value, i);
        return Ok(found.value);
      }
    }
    res := Err(PoolExhausted);
  }

  method FindByStrategy(parents: seq<Cidr>, existing: seq<Cidr>, ones: int, s: Strategy) returns (res: Result<Cidr>)
    ensures res == Err(PoolExhausted) || res.Ok?
    ensures res.Err? ==> forall i :: 0 <= i < |parents| ==> !SeenRoom(parents, existing, ones, i)
    ensures res.Ok? ==> SeenAvailable(parents, existing, ones, res.value)
    ensures res.Ok? ==> Picks(parents, existing, ones, s, res.value)
  {
    var views := ViewPool(parents, existing);
    var c := SelectBlock(views, ones, s);
    if c.None? {
      forall i | 0 <= i < |parents|
        ensures !SeenRoom(parents, existing, ones, i)
      {
        RoomIsARegion(views, parents, existing, ones, i);
      }
      return Err(PoolExhausted);
    }
    var p := c.value.parentIdx;
    var b := SpotBlock(views, ones, c.value);
    assert PicksAt(views, ones, s, b, c.value);
    RegionBlockIsFree(parents[p], views[p].regions, Seen(parents, existing, p), ones, c.value.regionIdx);
    res := Ok(b);
  }

  // ---- what the filter costs ---------------------------------------------

  /** Hiding blocks never hides room. */
  lemma SeenHasNoLessRoom(parent: Cidr, existing: seq<Cidr>, ones: int, b: Cidr)
    requires Available(b, parent, existing, ones)
    ensures Available(b, parent, FilterWithin(parent, existing), ones)
  {
    forall a | Has(b, b.family, a)
      ensures !Taken(FilterWithin(parent, existing), parent.family, a)
    {
      FilterKeepsTaken(parent, existing, a);
    }
  }

  /** Unless a block covers the parent from below, the filter is exact. */
  lemma SeenIsExact(parent: Cidr, existing: seq<Cidr>, ones: int)
    requires !CoveredFromBelow(parent, existing)
    ensures HasRoom(parent, existing, ones) <==> HasRoom(parent, FilterWithin(parent, existing), ones)
    ensures forall b: Cidr ::
              LowestIn(b, parent, existing, ones) <==> LowestIn(b, parent, FilterWithin(parent, existing), ones)
    ensures forall b: Cidr ::
              Available(b, parent, existing, ones) <==> Available(b, parent, FilterWithin(parent, existing), ones)
  {
    forall a | parent.start <= a <= parent.Last()
      ensures Taken(existing, parent.family, a) <==> Taken(FilterWithin(parent, existing), parent.family, a)
    {
      FilterKeepsTaken(parent, existing, a);
    }
    SameTakenSameRoom(parent, existing, FilterWithin(parent, existing), ones);
    forall b: Cidr
      ensures Available(b, parent, existing, ones) <==> Available(b, parent, FilterWithin(parent, existing), ones)
    {
      SameTakenSameFit(b, parent, existing, FilterWithin(parent, existing), ones);
    }
  }

  lemma CoveredHasNoRoom(parent: Cidr, existing: seq<Cidr>, b: Cidr)
    requires CoveredFromBelow(parent, existing) && Contains(parent, b)
    ensures Taken(existing, b.family, b.start)
  {
    FilterKeepsTaken(parent, existing, b.start);
  }

  /** The search is about to answer from a range that an existing block covers
      from below. */
  ghost predicate Misled(parents: seq<Cidr>, existing: seq<Cidr>, ones: int, i: nat) {
    && i < |parents|
    && CoveredFromBelow(parents[i], existing)
    && SeenRoom(parents, existing, ones, i)
    && forall j :: 0 <= j < i ==> !SeenRoom(parents, existing, ones, j)
  }

  /** A block inside a covered range is available in none. */
  lemma CoveredIsTaken(parent: Cidr, existing: seq<Cidr>, ones: int, b: Cidr)
    requires CoveredFromBelow(parent, existing) && Contains(parent, b)
    ensures forall q: Cidr :: !Available(b, q, existing, ones)
  {
    CoveredHasNoRoom(parent, existing, b);
    assert Has(b, b.family, b.start);
  }

  lemma RoomIsSeen(parents: seq<Cidr>, existing: seq<Cidr>, ones: int, i: nat)
    requires i < |parents| && HasRoom(parents[i], existing, ones)
    ensures SeenRoom(parents, existing, ones, i)
  {
    var b: Cidr :| Available(b, parents[i], existing, ones);
    SeenHasNoLessRoom(parents[i], existing, ones, b);
  }

  /** The whole-set search returns the first fit exactly when the first range
      that looks as if it had room is not covered from below. */
  lemma FirstFitUnlessMisled(parents: seq<Cidr>, existing: seq<Cidr>, ones: int, r: Option<Cidr>)
    requires r.None? ==> forall i :: 0 <= i < |parents| ==> !SeenRoom(parents, existing, ones, i)
    requires r.Some? ==> SeenFirstFit(parents, existing, ones, r.value)
    ensures IsFirstFit(parents, existing, ones, r) <==> !exists i: nat :: Misled(parents, existing, ones, i)
  {
    hide Available, CoveredFromBelow;
    forall i: nat | i < |parents| && HasRoom(parents[i], existing, ones)
      ensures SeenRoom(parents, existing, ones, i)
    {
      RoomIsSeen(parents, existing, ones, i);
    }
    if r.Some? {
      var i :| 0 <= i < |parents| && SeenFirstFitAt(parents, existing, ones, r.value, i);
      assert SeenRoom(parents, existing, ones, i);
      if CoveredFromBelow(parents[i], existing) {
        assert Misled(parents, existing, ones, i);
        SeenIsInside(parents, existing, ones, r.value, i);
        CoveredIsTaken(parents[i], existing, ones, r.value);
      } else {
        SeenIsExact(parents[i], existing, ones);
        assert IsFirstFitAt(parents, existing, ones, r.value, i);
      }
    }
  }

  lemma SeenIsInside(parents: seq<Cidr>, existing: seq<Cidr>, ones: int, b: Cidr, i: nat)
    requires i < |parents| && SeenFirstFitAt(parents, existing, ones, b, i)
    ensures Contains(parents[i], b)
  {
  }

  /** With no block covering a range from below, every strategy is sound and
      complete: what it returns overlaps nothing, and it reports exhaustion
      exactly when no range has room. */
  lemma StrategiesAgree(parents: seq<Cidr>, existing: seq<Cidr>, ones: int, b: Cidr)
    requires forall i :: 0 <= i < |parents| ==> !CoveredFromBelow(parents[i], existing)
    ensures SeenAvailable(parents, existing, ones, b) <==>
            (exists i :: 0 <= i < |parents| && Available(b, parents[i], existing, ones))
    ensures forall i :: 0 <= i < |parents| ==>
              (SeenRoom(parents, existing, ones, i) <==> HasRoom(parents[i], existing, ones))
    ensures SeenFirstFit(parents, existing, ones, b) ==> IsFirstFit(parents, existing, ones, Some(b))
  {
    forall i | 0 <= i < |parents|
      ensures SeenRoom(parents, existing, ones, i) <==> HasRoom(parents[i], existing, ones)
      ensures Available(b, parents[i], existing, ones) <==> Available(b, parents[i], Seen(parents, existing, i), ones)
    {
      SeenIsExact(parents[i], existing, ones);
    }
    if SeenFirstFit(parents, existing, ones, b) {
      FirstFitUnlessMisled(parents, existing, ones, Some(b));
    }
  }

  /** Every range some block covers from below misleads the search: none of its
      addresses is free, and it looks as if all of them were. */
  lemma CoveredRangeMisleads(parent: Cidr, held: Cidr, ones: nat)
    requires CoversFromBelow(held, parent)
    requires parent.ones <= ones <= Width(parent.family)
    ensures Misled([parent], [held], ones, 0)
  {
    var w := Width(parent.family);
    assert FilterWithin(parent, [held]) == [];
    CoarserIsFiner(parent.start, w - ones, w - parent.ones);
    ShorterPrefixIsLarger(parent.family, parent.ones, ones);
    var b: Cidr := Block(parent.family, parent.start, ones);
    assert Available(b, parent, [], ones);
    assert held in [held];
  }

  /** The block 0.0.0.`start` of prefix length `ones`. */
  function Tiny(start: nat, ones: nat): (b: Cidr)
    requires 30 <= ones <= 32 && start % Pow2(32 - ones) == 0 && start < 8
    ensures b == Block(IPv4, start, ones)
  {
    Pow2Monotone(4, 32);
    Pow2Monotone(32 - ones, 2);
    Block(IPv4, start, ones)
  }

  /** 0.0.0.2/31 inside a held 0.0.0.0/30. */
  lemma FilterCanMislead()
    ensures Misled([Tiny(2, 31)], [Tiny(0, 30)], 32, 0)
  {
    CoveredRangeMisleads(Tiny(2, 31), Tiny(0, 30), 32);
  }
}
