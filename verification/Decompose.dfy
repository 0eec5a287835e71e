/** Subtracting the taken blocks of a range: the greedy decomposition of the
    free regions into aligned blocks, and why no decomposition is shorter. */
module Decompose {
  import opened Common
  import opened Cidr
  import opened FreeSpace

  ghost predicate Ascending(bs: seq<Cidr>) {
    forall i, j :: 0 <= i < j < |bs| ==> bs[i].Last() < bs[j].start
  }

  /** Every address of `c` lies in `parent` and is free there. */
  ghost predicate AllFree(c: Cidr, parent: Cidr, taken: seq<Cidr>) {
    Contains(parent, c) && forall a :: Has(c, c.family, a) ==> !Taken(taken, parent.family, a)
  }

  /** The blocks of `bs` cover exactly the free addresses of `parent`. */
  ghost predicate Covers(bs: seq<Cidr>, parent: Cidr, taken: seq<Cidr>) {
    forall a :: Taken(bs, parent.family, a) <==>
      parent.start <= a <= parent.Last() && !Taken(taken, parent.family, a)
  }

  /** No larger free block starts where a member of `bs` starts. */
  ghost predicate Greedy(bs: seq<Cidr>, parent: Cidr, taken: seq<Cidr>) {
    forall i, c: Cidr :: 0 <= i < |bs| && c.start == bs[i].start && AllFree(c, parent, taken) ==>
      bs[i].ones <= c.ones
  }

  // ---- one region -------------------------------------------------------

  /** `bs` tile [lo, next) end to end, each the largest aligned block that
      starts there and stays at or below `hi`. */
  ghost predicate Tiles(bs: seq<Cidr>, f: Family, lo: int, next: int, hi: int) {
    && (forall i :: 0 <= i < |bs| ==> bs[i].family == f && lo <= bs[i].start && bs[i].Last() < next)
    && Ascending(bs)
    && (forall a :: lo <= a < next ==> Taken(bs, f, a))
    && (forall i, c: Cidr :: 0 <= i < |bs| && c.family == f && c.start == bs[i].start && c.Last() <= hi ==>
          bs[i].ones <= c.ones)
  }

  /** The shortest prefix whose block starts at `cursor` and ends by `hi`. */
  method LargestAt(f: Family, cursor: int, hi: int) returns (b: Cidr)
    requires 0 <= cursor <= hi < Pow2(Width(f))
    ensures b.family == f && b.start == cursor && b.Last() <= hi
    ensures forall c: Cidr :: c.family == f && c.start == cursor && c.Last() <= hi ==> b.ones <= c.ones
  {
    var best := Width(f);
    var p := 0;
    while p <= Width(f)
      invariant 0 <= p <= Width(f)
      invariant best == Width(f)
      invariant forall c: Cidr :: c.family == f && c.start == cursor && c.Last() <= hi ==> p <= c.ones
    {
      var size := BlockSize(f, p);
      if cursor % size == 0 && cursor + size - 1 <= hi {
        best := p;
        break;
      }
      if p == Width(f) {
        assert false;
      }
      p := p + 1;
    }
    b := Block(f, cursor, best);
  }

  lemma TakenAppend(bs: seq<Cidr>, b: Cidr, f: Family, a: int)
    ensures Taken(bs + [b], f, a) <==> Taken(bs, f, a) || Has(b, f, a)
  {
    if Has(b, f, a) {
      assert b in bs + [b];
    }
    if c :| c in bs && Has(c, f, a) {
      assert c in bs + [b];
    }
  }

  lemma TilesExtend(bs: seq<Cidr>, b: Cidr, f: Family, lo: int, hi: int)
    requires lo <= b.start && b.family == f
    requires Tiles(bs, f, lo, b.start, hi)
    requires forall c: Cidr :: c.family == f && c.start == b.start && c.Last() <= hi ==> b.ones <= c.ones
    ensures Tiles(bs + [b], f, lo, b.Last() + 1, hi)
  {
    var all, next := bs + [b], b.Last() + 1;
    forall a | lo <= a < next
      ensures Taken(all, f, a)
    {
      TakenAppend(bs, b, f, a);
    }
    assert all[|bs|] == b;
    assert forall i :: 0 <= i < |bs| ==> all[i] == bs[i];
  }

  /** Cut [lo, hi] into aligned blocks, the largest first at every cursor. */
  method SplitRegion(f: Family, lo: int, hi: int) returns (out: seq<Cidr>)
    requires 0 <= lo <= hi < Pow2(Width(f))
    ensures Tiles(out, f, lo, hi + 1, hi)
  {
    out := [];
    var cursor := lo;
    while cursor <= hi
      invariant lo <= cursor <= hi + 1
      invariant Tiles(out, f, lo, cursor, hi)
      decreases hi + 1 - cursor
    {
      var b := LargestAt(f, cursor, hi);
      TilesExtend(out, b, f, lo, hi);
      out := out + [b];
      cursor := b.Last() + 1;
    }
  }

  // ---- the whole parent -------------------------------------------------

  /** The decomposition of the first `n` regions. */
  ghost predicate Decomposed(out: seq<Cidr>, regions: seq<Range>, n: nat, parent: Cidr, taken: seq<Cidr>) {
    && (forall i :: 0 <= i < |out| ==> out[i].family == parent.family)
    && Ascending(out)
    && (forall a :: Taken(out, parent.family, a) <==> InFirst(regions, n, a))
    && Greedy(out, parent, taken)
  }

  /** A free block that starts inside a free region ends inside it. */
  lemma FreeBlockStaysInRegion(c: Cidr, parent: Cidr, taken: seq<Cidr>, regions: seq<Range>, n: nat)
    requires IsFreeSpace(regions, parent, taken) && n < |regions|
    requires regions[n].lo <= c.start <= regions[n].hi
    requires AllFree(c, parent, taken)
    ensures c.Last() <= regions[n].hi
  {
    var x := regions[n].hi + 1;
    assert !InRanges(regions, x);
    assert x <= c.Last() ==> Has(c, c.family, x);
  }

  lemma GreedyExtends(out: seq<Cidr>, part: seq<Cidr>, parent: Cidr, taken: seq<Cidr>, regions: seq<Range>, n: nat)
    requires IsFreeSpace(regions, parent, taken) && n < |regions|
    requires Greedy(out, parent, taken)
    requires Tiles(part, parent.family, regions[n].lo, regions[n].hi + 1, regions[n].hi)
    ensures Greedy(out + part, parent, taken)
  {
    var all := out + part;
    forall i, c: Cidr | 0 <= i < |all| && c.start == all[i].start && AllFree(c, parent, taken)
      ensures all[i].ones <= c.ones
    {
      if i >= |out| {
        assert all[i] == part[i - |out|];
        FreeBlockStaysInRegion(c, parent, taken, regions, n);
      }
    }
  }

  lemma TakenConcat(xs: seq<Cidr>, ys: seq<Cidr>, f: Family, a: int)
    ensures Taken(xs + ys, f, a) <==> Taken(xs, f, a) || Taken(ys, f, a)
  {
    if c :| c in xs && Has(c, f, a) {
      assert c in xs + ys;
    }
    if c :| c in ys && Has(c, f, a) {
      assert c in xs + ys;
    }
  }

  lemma RegionDecomposed(out: seq<Cidr>, part: seq<Cidr>, parent: Cidr, taken: seq<Cidr>,
                         regions: seq<Range>, n: nat, m: nat)
    requires IsFreeSpace(regions, parent, taken) && n < |regions| && m == n + 1
    requires Decomposed(out, regions, n, parent, taken)
    requires Tiles(part, parent.family, regions[n].lo, regions[n].hi + 1, regions[n].hi)
    ensures Decomposed(out + part, regions, m, parent, taken)
  {
    var f, r := parent.family, regions[n];
    GreedyExtends(out, part, parent, taken, regions, n);
    forall a ensures Taken(out + part, f, a) <==> InFirst(regions, m, a) {
      TakenConcat(out, part, f, a);
      InFirstStep(regions, n, a);
    }
    forall i, j | 0 <= i < |out| && 0 <= j < |part|
      ensures out[i].Last() < part[j].start
    {
      assert Has(out[i], f, out[i].Last());
      assert InFirst(regions, n, out[i].Last());
    }
  }

  method SubtractCidr(parent: Cidr, existing: seq<Cidr>) returns (out: seq<Cidr>)
    ensures forall c :: c in out ==> c.family == parent.family
    ensures Ascending(out)
    ensures Covers(out, parent, FilterWithin(parent, existing))
    ensures Greedy(out, parent, FilterWithin(parent, existing))
  {
    var within := FilterWithin(parent, existing);
    var regions := FreeRegions(parent, within);
    out := [];
    for n := 0 to |regions|
      invariant Decomposed(out, regions, n, parent, within)
    {
      var part := SplitRegion(parent.family, regions[n].lo, regions[n].hi);
      RegionDecomposed(out, part, parent, within, regions, n, n + 1);
      out := out + part;
    }
    forall a
      ensures Taken(out, parent.family, a) <==>
              parent.start <= a <= parent.Last() && !Taken(within, parent.family, a)
    {
      assert InFirst(regions, |regions|, a) <==> InRanges(regions, a);
    }
  }

  /** The blocks returned cover exactly the addresses nothing holds, if and only if
      no block covers the range from below or nothing is returned. */
  lemma SubtractsAllUnlessCovered(out: seq<Cidr>, parent: Cidr, existing: seq<Cidr>)
    requires Covers(out, parent, FilterWithin(parent, existing)) && forall c :: c in out ==> c.family == parent.family
    ensures Covers(out, parent, existing) <==> !CoveredFromBelow(parent, existing) || out == []
  {
    hide Pow2, FilterWithin, CoveredFromBelow;
    forall a | parent.start <= a <= parent.Last()
      ensures Taken(existing, parent.family, a)
         <==> Taken(FilterWithin(parent, existing), parent.family, a) || CoveredFromBelow(parent, existing)
    {
      FilterKeepsTaken(parent, existing, a);
    }
    if out != [] {
      assert out[0] in out && Has(out[0], parent.family, out[0].start);
      assert Taken(out, parent.family, out[0].start);
    }
  }

  // ---- minimality -------------------------------------------------------

  /** A free block cannot contain the starts of two greedy blocks. */
  lemma OneStartPerBlock(out: seq<Cidr>, parent: Cidr, taken: seq<Cidr>, d: Cidr, i: nat, j: nat)
    requires Ascending(out) && Covers(out, parent, taken) && Greedy(out, parent, taken)
    requires AllFree(d, parent, taken)
    requires i < j < |out|
    requires Has(d, parent.family, out[i].start)
    ensures !Has(d, parent.family, out[j].start)
  {
    if Has(d, parent.family, out[j].start) {
      assert Has(d, d.family, d.start);
      assert Taken(out, parent.family, d.start);
      var c :| c in out && Has(c, parent.family, d.start);
      var k :| 0 <= k < |out| && out[k] == c;
      if c.ones <= d.ones {
        NestedOrDisjoint(c, d, d.start);
      } else {
        NestedOrDisjoint(d, c, d.start);
      }
    }
  }

  lemma {:induction false} DistinctFit(xs: seq<int>, m: nat)
    requires forall i :: 0 <= i < |xs| ==> 0 <= xs[i] < m
    requires forall i, j :: 0 <= i < j < |xs| ==> xs[i] != xs[j]
    ensures |xs| <= m
  {
    CountDistinct(xs);
    RunSize(0, m - 1);
    var elems := set x | x in xs;
    assert elems <= Run(0, m - 1);
    SubsetCount(elems, Run(0, m - 1));
  }

  lemma {:induction false} CountDistinct(xs: seq<int>)
    requires forall i, j :: 0 <= i < j < |xs| ==> xs[i] != xs[j]
    ensures |set x | x in xs| == |xs|
  {
    if xs != [] {
      var init, last := xs[..|xs| - 1], xs[|xs| - 1];
      CountDistinct(init);
      assert xs == init + [last];
      assert (set x | x in xs) == (set x | x in init) + {last};
      assert last !in init;
    }
  }

  /** Every aligned decomposition of the same free addresses, whether or not its
      blocks are disjoint, has at least as many blocks as the greedy one. */
  lemma {:induction false} GreedyIsMinimal(out: seq<Cidr>, parent: Cidr, taken: seq<Cidr>, other: seq<Cidr>)
    requires Ascending(out) && Covers(out, parent, taken) && Greedy(out, parent, taken)
    requires forall c :: c in out ==> c.family == parent.family
    requires forall c :: c in other ==> c.family == parent.family
    requires Covers(other, parent, taken)
    ensures |out| <= |other|
  {
    var owner := Owners(out, parent, taken, other, |out|);
    forall i, j | 0 <= i < j < |out|
      ensures owner[i] != owner[j]
    {
      var d := other[owner[i]];
      OwnedIsFree(d, parent, taken, other);
      OneStartPerBlock(out, parent, taken, d, i, j);
    }
    DistinctFit(owner, |other|);
  }

  lemma OwnedIsFree(d: Cidr, parent: Cidr, taken: seq<Cidr>, other: seq<Cidr>)
    requires d in other && d.family == parent.family
    requires Covers(other, parent, taken)
    ensures AllFree(d, parent, taken)
  {
    forall a | Has(d, d.family, a)
      ensures parent.start <= a <= parent.Last() && !Taken(taken, parent.family, a)
    {
      assert Taken(other, parent.family, a);
    }
    assert Has(d, d.family, d.start) && Has(d, d.family, d.Last());
  }

  /** For each greedy block, an index of a member of `other` holding its start. */
  lemma {:induction false} Owners(out: seq<Cidr>, parent: Cidr, taken: seq<Cidr>, other: seq<Cidr>, n: nat)
    returns (owner: seq<int>)
    requires n <= |out|
    requires Covers(out, parent, taken) && Covers(other, parent, taken)
    requires forall c :: c in out ==> c.family == parent.family
    ensures |owner| == n
    ensures forall i :: 0 <= i < n ==>
              0 <= owner[i] < |other| && Has(other[owner[i]], parent.family, out[i].start)
  {
    if n == 0 {
      owner := [];
    } else {
      owner := Owners(out, parent, taken, other, n - 1);
      var x := out[n - 1].start;
      assert out[n - 1] in out && Has(out[n - 1], parent.family, x);
      assert Taken(out, parent.family, x);
      assert Taken(other, parent.family, x);
      var c :| c in other && Has(c, parent.family, x);
      var k :| 0 <= k < |other| && other[k] == c;
      owner := owner + [k];
    }
  }
}
