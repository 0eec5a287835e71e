/** The free space of a pool range: which blocks a range sees, the maximal free
    regions left between them, and how many addresses those regions hold. */
module FreeSpace {
  import opened Cidr
  import opened Sorting

  /** An inclusive run of addresses. */
  datatype Range = Range(lo: int, hi: int)

  /** Whether some block of family `f` covers address `a`. */
  ghost predicate Taken(blocks: seq<Cidr>, f: Family, a: int) {
    exists c :: c in blocks && Has(c, f, a)
  }

  ghost predicate InRanges(rs: seq<Range>, a: int) {
    exists i :: 0 <= i < |rs| && rs[i].lo <= a <= rs[i].hi
  }

  /** Non-empty runs inside [lo, hi], ascending, with a gap between neighbours:
      no two could be merged, so each is maximal. */
  ghost predicate Separated(rs: seq<Range>, lo: int, hi: int) {
    && (forall i :: 0 <= i < |rs| ==> lo <= rs[i].lo <= rs[i].hi <= hi)
    && (forall i, j :: 0 <= i < j < |rs| ==> rs[i].hi + 1 < rs[j].lo)
  }

  /** `rs` are the maximal free regions of `parent` when `blocks` are taken. */
  ghost predicate IsFreeSpace(rs: seq<Range>, parent: Cidr, blocks: seq<Cidr>) {
    && Separated(rs, parent.start, parent.Last())
    && forall a :: parent.start <= a <= parent.Last() ==>
         (InRanges(rs, a) <==> !Taken(blocks, parent.family, a))
  }

  // ---- which blocks a range sees ----------------------------------------

  /** A range keeps the blocks of its family whose FIRST address it contains. */
  predicate Sees(parent: Cidr, c: Cidr) {
    Has(parent, c.family, c.start)
  }

  function FilterWithin(parent: Cidr, cs: seq<Cidr>): (out: seq<Cidr>)
    ensures forall c :: c in out <==> c in cs && Sees(parent, c)
  {
    if cs == [] then []
    else (if Sees(parent, cs[0]) then [cs[0]] else []) + FilterWithin(parent, cs[1..])
  }

  /** A block that reaches into the parent from below: it strictly contains the
      parent and starts before it, so the first-address test misses it. */
  predicate CoversFromBelow(c: Cidr, parent: Cidr) {
    c.family == parent.family && c.start < parent.start <= c.Last()
  }

  ghost predicate CoveredFromBelow(parent: Cidr, cs: seq<Cidr>) {
    exists c :: c in cs && CoversFromBelow(c, parent)
  }

  /** A block missed by the filter covers the whole parent. */
  lemma CoveringIsTotal(c: Cidr, parent: Cidr)
    requires CoversFromBelow(c, parent)
    ensures Contains(c, parent)
  {
    if c.ones <= parent.ones {
      NestedOrDisjoint(c, parent, parent.start);
    } else {
      NestedOrDisjoint(parent, c, parent.start);
    }
  }

  /** Filtering changes which addresses of the parent are taken in exactly one
      way: a block covering the parent from below is lost. */
  lemma FilterKeepsTaken(parent: Cidr, cs: seq<Cidr>, a: int)
    requires parent.start <= a <= parent.Last()
    ensures Taken(cs, parent.family, a)
       <==> Taken(FilterWithin(parent, cs), parent.family, a) || CoveredFromBelow(parent, cs)
  {
    if c :| c in cs && Has(c, parent.family, a) {
      if !Sees(parent, c) {
        assert CoversFromBelow(c, parent);
      }
    }
    if c :| c in cs && CoversFromBelow(c, parent) {
      CoveringIsTotal(c, parent);
      assert Has(c, parent.family, a);
    }
  }

  // ---- the free regions ------------------------------------------------

  predicate SortedByLow(rs: seq<Range>) {
    forall i, j :: 0 <= i < j < |rs| ==> rs[i].lo <= rs[j].lo
  }

  predicate LowerFirst(a: Range, b: Range) {
    a.lo <= b.lo
  }

  method SortByLow(rs: seq<Range>) returns (out: seq<Range>)
    ensures SortedByLow(out)
    ensures forall x :: x in out <==> x in rs
  {
    out := Sort(rs, LowerFirst);
    SameMembers(out, rs);
  }

  method Bounds(blocks: seq<Cidr>) returns (rs: seq<Range>)
    ensures |rs| == |blocks|
    ensures forall i :: 0 <= i < |rs| ==> rs[i] == Range(blocks[i].start, blocks[i].Last())
  {
    rs := [];
    for n := 0 to |blocks|
      invariant |rs| == n
      invariant forall i :: 0 <= i < n ==> rs[i] == Range(blocks[i].start, blocks[i].Last())
    {
      rs := rs + [Range(blocks[n].start, blocks[n].Last())];
    }
  }

  lemma BoundsCover(blocks: seq<Cidr>, rs: seq<Range>, sorted: seq<Range>, f: Family, a: int)
    requires forall c :: c in blocks ==> c.family == f
    requires |rs| == |blocks|
    requires forall i :: 0 <= i < |rs| ==> rs[i] == Range(blocks[i].start, blocks[i].Last())
    requires forall x :: x in sorted <==> x in rs
    ensures InRanges(sorted, a) <==> Taken(blocks, f, a)
  {
    if i :| 0 <= i < |sorted| && sorted[i].lo <= a <= sorted[i].hi {
      assert sorted[i] in rs;
      var j :| 0 <= j < |rs| && rs[j] == sorted[i];
      assert blocks[j] in blocks && Has(blocks[j], f, a);
    }
    if c :| c in blocks && Has(c, f, a) {
      var j :| 0 <= j < |blocks| && blocks[j] == c;
      assert rs[j] in sorted;
      var i :| 0 <= i < |sorted| && sorted[i] == rs[j];
    }
  }

  /** Whether one of the first `k` ranges covers `a`. */
  ghost predicate InFirst(rs: seq<Range>, k: int, a: int) {
    exists i :: 0 <= i < k && i < |rs| && rs[i].lo <= a <= rs[i].hi
  }

  /** The sweep after `k` blocks: the free runs below the cursor are known and
      nothing seen so far reaches the cursor. */
  ghost predicate Swept(regions: seq<Range>, cursor: int, sorted: seq<Range>, k: nat, lo: int, hi: int) {
    && lo <= cursor
    && Separated(regions, lo, hi)
    && (forall i :: 0 <= i < |regions| ==> regions[i].hi + 1 < cursor)
    && (forall i, j :: 0 <= i < |regions| && k <= j < |sorted| ==> regions[i].hi < sorted[j].lo)
    && (forall a :: lo <= a <= hi && a < cursor ==> (InRanges(regions, a) <==> !InFirst(sorted, k, a)))
    && (forall a :: lo <= a <= hi && cursor <= a ==> !InFirst(sorted, k, a))
  }

  lemma InFirstStep(rs: seq<Range>, k: nat, a: int)
    requires k < |rs|
    ensures InFirst(rs, k + 1, a) <==> InFirst(rs, k, a) || rs[k].lo <= a <= rs[k].hi
  {
  }

  lemma InRangesAppend(rs: seq<Range>, r: Range, a: int)
    ensures InRanges(rs + [r], a) <==> InRanges(rs, a) || r.lo <= a <= r.hi
  {
    var all := rs + [r];
    assert all[|rs|] == r;
    if i :| 0 <= i < |all| && all[i].lo <= a <= all[i].hi {
      assert i < |rs| ==> rs[i] == all[i];
    }
    if i :| 0 <= i < |rs| && rs[i].lo <= a <= rs[i].hi {
      assert rs[i] == all[i];
    }
  }

  lemma SweepSkips(regions: seq<Range>, cursor: int, sorted: seq<Range>, k: nat, n: nat, lo: int, hi: int)
    requires k < |sorted| && n == k + 1
    requires Swept(regions, cursor, sorted, k, lo, hi)
    requires hi < sorted[k].lo || sorted[k].hi < lo
    ensures Swept(regions, cursor, sorted, n, lo, hi)
  {
    forall a | lo <= a <= hi ensures InFirst(sorted, n, a) <==> InFirst(sorted, k, a) {
      InFirstStep(sorted, k, a);
    }
  }

  lemma SweepAddress(regions: seq<Range>, cursor: int, sorted: seq<Range>, k: nat, lo: int, hi: int,
                     regions': seq<Range>, a: int)
    requires k < |sorted|
    requires Swept(regions, cursor, sorted, k, lo, hi)
    requires regions' == if cursor < sorted[k].lo then regions + [Range(cursor, sorted[k].lo - 1)] else regions
    requires lo <= a <= hi
    ensures a < cursor || a <= sorted[k].hi ==> (InRanges(regions', a) <==> !InFirst(sorted, k + 1, a))
    ensures cursor <= a && sorted[k].hi < a ==> !InFirst(sorted, k + 1, a)
  {
    InFirstStep(sorted, k, a);
    if cursor < sorted[k].lo {
      InRangesAppend(regions, Range(cursor, sorted[k].lo - 1), a);
    }
    if a < cursor {
      assert InRanges(regions, a) <==> !InFirst(sorted, k, a);
    } else {
      assert !InFirst(sorted, k, a);
      assert !InRanges(regions, a);
    }
  }

  lemma SweepStep(regions: seq<Range>, cursor: int, sorted: seq<Range>, k: nat, n: nat, lo: int, hi: int,
                  regions': seq<Range>, cursor': int)
    requires SortedByLow(sorted) && k < |sorted| && n == k + 1
    requires Swept(regions, cursor, sorted, k, lo, hi)
    requires sorted[k].lo <= sorted[k].hi && sorted[k].lo <= hi && lo <= sorted[k].hi
    requires regions' == if cursor < sorted[k].lo then regions + [Range(cursor, sorted[k].lo - 1)] else regions
    requires cursor' == if cursor < sorted[k].hi + 1 then sorted[k].hi + 1 else cursor
    ensures Swept(regions', cursor', sorted, n, lo, hi)
  {
    forall a | lo <= a <= hi
      ensures a < cursor' ==> (InRanges(regions', a) <==> !InFirst(sorted, n, a))
      ensures cursor' <= a ==> !InFirst(sorted, n, a)
    {
      SweepAddress(regions, cursor, sorted, k, lo, hi, regions', a);
    }
  }

  /** One pass over the blocks in address order, emitting the gap below each. */
  method FreeRegions(parent: Cidr, within: seq<Cidr>) returns (regions: seq<Range>)
    requires forall c :: c in within ==> c.family == parent.family
    ensures IsFreeSpace(regions, parent, within)
  {
    var bounds := Bounds(within);
    var sorted := SortByLow(bounds);
    var lo, hi := parent.start, parent.Last();
    var cursor := lo;
    regions := [];
    for k := 0 to |sorted|
      invariant Swept(regions, cursor, sorted, k, lo, hi)
    {
      var e := sorted[k];
      assert e in bounds;
      assert e.lo <= e.hi;
      if hi < e.lo || e.hi < lo {
        SweepSkips(regions, cursor, sorted, k, k + 1, lo, hi);
        continue;
      }
      ghost var before, was := regions, cursor;
      if cursor < e.lo {
        regions := regions + [Range(cursor, e.lo - 1)];
      }
      if cursor < e.hi + 1 {
        cursor := e.hi + 1;
      }
      SweepStep(before, was, sorted, k, k + 1, lo, hi, regions, cursor);
    }
    ghost var before := regions;
    if cursor <= hi {
      regions := regions + [Range(cursor, hi)];
    }
    SweepEnds(before, cursor, parent, within, bounds, sorted, regions);
  }

  lemma SweepEnds(before: seq<Range>, cursor: int, parent: Cidr, within: seq<Cidr>,
                  bounds: seq<Range>, sorted: seq<Range>, regions: seq<Range>)
    requires forall c :: c in within ==> c.family == parent.family
    requires |bounds| == |within|
    requires forall i :: 0 <= i < |bounds| ==> bounds[i] == Range(within[i].start, within[i].Last())
    requires forall x :: x in sorted <==> x in bounds
    requires Swept(before, cursor, sorted, |sorted|, parent.start, parent.Last())
    requires regions == if cursor <= parent.Last() then before + [Range(cursor, parent.Last())] else before
    ensures IsFreeSpace(regions, parent, within)
  {
    forall a | parent.start <= a <= parent.Last()
      ensures InRanges(regions, a) <==> !Taken(within, parent.family, a)
    {
      BoundsCover(within, bounds, sorted, parent.family, a);
      assert InRanges(sorted, a) <==> InFirst(sorted, |sorted|, a);
      if cursor <= parent.Last() {
        InRangesAppend(before, Range(cursor, parent.Last()), a);
      }
    }
  }

  // ---- counting --------------------------------------------------------

  predicate Between(lo: int, a: int, hi: int) {
    lo <= a <= hi
  }

  ghost function Run(lo: int, hi: int): (s: set<int>) {
    set a: int | lo <= a <= hi && Between(lo, a, hi)
  }

  lemma {:induction false} RunSize(lo: int, hi: int)
    requires lo <= hi + 1
    ensures |Run(lo, hi)| == hi - lo + 1
    decreases hi - lo + 1
  {
    if lo == hi + 1 {
      assert Run(lo, hi) == {};
    } else {
      RunSize(lo, hi - 1);
      assert Run(lo, hi) == Run(lo, hi - 1) + {hi};
    }
  }

  function RangeSize(r: Range): int {
    r.hi - r.lo + 1
  }

  function SumSizes(rs: seq<Range>): int {
    if rs == [] then 0 else SumSizes(rs[..|rs| - 1]) + RangeSize(rs[|rs| - 1])
  }

  ghost function Members(rs: seq<Range>, lo: int, hi: int): set<int> {
    set a: int | lo <= a <= hi && InRanges(rs, a)
  }

  /** Summing the regions counts each free address once. */
  lemma {:induction false} SumIsCount(rs: seq<Range>, lo: int, hi: int)
    requires Separated(rs, lo, hi)
    ensures SumSizes(rs) == |Members(rs, lo, hi)|
  {
    if rs == [] {
      assert Members(rs, lo, hi) == {};
    } else {
      var init, last := rs[..|rs| - 1], rs[|rs| - 1];
      assert Separated(init, lo, hi);
      SumIsCount(init, lo, hi);
      RunSize(last.lo, last.hi);
      LastRegionApart(rs, lo, hi);
    }
  }

  lemma LastRegionApart(rs: seq<Range>, lo: int, hi: int)
    requires Separated(rs, lo, hi) && rs != []
    ensures Members(rs, lo, hi) == Members(rs[..|rs| - 1], lo, hi) + Run(rs[|rs| - 1].lo, rs[|rs| - 1].hi)
    ensures Members(rs[..|rs| - 1], lo, hi) !! Run(rs[|rs| - 1].lo, rs[|rs| - 1].hi)
  {
    var init, last := rs[..|rs| - 1], rs[|rs| - 1];
    assert rs == init + [last];
    forall a: int
      ensures a in Members(rs, lo, hi) <==> a in Members(init, lo, hi) || a in Run(last.lo, last.hi)
    {
      InRangesAppend(init, last, a);
    }
    forall a | a in Members(init, lo, hi)
      ensures a !in Run(last.lo, last.hi)
    {
      var i :| 0 <= i < |init| && init[i].lo <= a <= init[i].hi;
      assert rs[i] == init[i];
    }
  }

  /** The addresses of `parent` some block covers. */
  ghost function Occupied(parent: Cidr, blocks: seq<Cidr>): set<int> {
    set a: int | parent.start <= a <= parent.Last() && Taken(blocks, parent.family, a)
  }

  lemma FreePlusOccupied(parent: Cidr, blocks: seq<Cidr>, rs: seq<Range>)
    requires IsFreeSpace(rs, parent, blocks)
    ensures SumSizes(rs) + |Occupied(parent, blocks)| == parent.Size()
  {
    var lo, hi := parent.start, parent.Last();
    SumIsCount(rs, lo, hi);
    RunSize(lo, hi);
    assert Run(lo, hi) == Members(rs, lo, hi) + Occupied(parent, blocks);
    assert Members(rs, lo, hi) !! Occupied(parent, blocks);
  }
}
