/** The running total of a pool's consumption. */
module Totals {
  import opened Common
  import opened Cidr
  import opened Allocation
  import opened Measure
  import opened Consumption
  import opened Tables
  import opened Lookup

  // ---- the running total -------------------------------------------------

  /** Seeds a total from the full set. */
  method SeedTotal(p: Cidr, rows: Rows, pool: string) returns (total: int)
    requires AllInside(p, Blocks(rows, pool, SPACE_ALL))
    ensures total == |Cover(p, Blocks(rows, pool, SPACE_ALL))|
  {
    hide Cover, Blocks;
    var all := LoadBlocks(rows, pool, SPACE_ALL, None);
    var m := MeasureBlocked([p], all);
    CountIsCover(p, all, Blocks(rows, pool, SPACE_ALL));
    total := m.consumed;
  }

  /** The total once `b` is added; `stored` is the one on record, if any. */
  method TotalAfterAdding(p: Cidr, rows: Rows, pool: string, stored: Option<int>, b: Cidr) returns (total: int)
    requires AllInside(p, Blocks(rows, pool, SPACE_ALL)) && Contains(p, b)
    requires stored.Some? ==> stored.value == |Cover(p, Blocks(rows, pool, SPACE_ALL))|
    ensures total == |Cover(p, Blocks(rows, pool, SPACE_ALL) + {b})|
  {
    hide Cover, Blocks, Pow2;
    var overlapping := LoadBlocks(rows, pool, SPACE_ALL, Some(b));
    var base;
    if stored.Some? {
      base := stored.value;
    } else {
      base := SeedTotal(p, rows, pool);
    }
    var delta := ConsumptionDelta([p], overlapping, b);
    ghost var bs := Blocks(rows, pool, SPACE_ALL);
    DeltaIsCover(p, overlapping, bs, SeqOf(bs), b);
    total := base + delta;
  }

  /** How many addresses `b` holds that nothing in `bs` does. */
  ghost function Freed(p: Cidr, bs: set<Cidr>, b: Cidr): int {
    |Cover(p, bs + {b})| - |Cover(p, bs)|
  }

  ghost function FreedByAll(p: Cidr, bs: set<Cidr>, released: seq<Cidr>): int {
    if released == [] then 0 else FreedByAll(p, bs, released[..|released| - 1]) + Freed(p, bs, released[|released| - 1])
  }

  function AtLeastZero(n: int): int {
    if n < 0 then 0 else n
  }

  /** The total once `b` is gone from the rows: the stored one less what `b`
      alone held, or a fresh measurement when none is stored. */
  method TotalAfterRemoving(p: Cidr, rows: Rows, pool: string, stored: Option<int>, b: Cidr) returns (total: int)
    requires AllInside(p, Blocks(rows, pool, SPACE_ALL)) && Contains(p, b)
    ensures stored.None? ==> total == |Cover(p, Blocks(rows, pool, SPACE_ALL))|
    ensures stored.Some? ==> total == AtLeastZero(stored.value - Freed(p, Blocks(rows, pool, SPACE_ALL), b))
  {
    hide Cover, Blocks, Pow2;
    if stored.None? {
      total := SeedTotal(p, rows, pool);
      return;
    }
    var overlapping := LoadBlocks(rows, pool, SPACE_ALL, Some(b));
    var delta := ConsumptionDelta([p], overlapping, b);
    ghost var bs := Blocks(rows, pool, SPACE_ALL);
    DeltaIsCover(p, overlapping, bs, SeqOf(bs), b);
    total := AtLeastZero(stored.value - delta);
  }

  lemma FreedIsNatural(p: Cidr, bs: set<Cidr>, b: Cidr)
    ensures 0 <= Freed(p, bs, b)
  {
    CoverGrows(p, bs, {b});
  }

  lemma CoverGrows(p: Cidr, bs: set<Cidr>, more: set<Cidr>)
    ensures |Cover(p, bs)| <= |Cover(p, bs + more)|
    ensures Cover(p, bs + more) == Cover(p, bs) + Cover(p, more)
  {
    forall a
      ensures Held(bs + more, p.family, a) <==> Held(bs, p.family, a) || Held(more, p.family, a)
    {
      if Held(bs, p.family, a) {
        var c :| c in bs && Has(c, p.family, a);
        assert c in bs + more;
      }
      if Held(more, p.family, a) {
        var c :| c in more && Has(c, p.family, a);
        assert c in bs + more;
      }
    }
    SubsetCount(Cover(p, bs), Cover(p, bs + more));
  }

  /** The totals loop of a release: every row is already gone when the first
      delta is taken. */
  method TotalAfterReleases(p: Cidr, rows: Rows, pool: string, stored: Option<int>, released: seq<Cidr>)
    returns (total: Option<int>)
    requires AllInside(p, Blocks(rows, pool, SPACE_ALL)) && forall b :: b in released ==> Contains(p, b)
    requires stored.Some? ==> 0 <= stored.value
    ensures released == [] ==> total == stored
    ensures released != [] && stored.Some? ==>
              total == Some(AtLeastZero(stored.value - FreedByAll(p, Blocks(rows, pool, SPACE_ALL), released)))
    ensures released != [] && stored.None? ==>
              var bs := Blocks(rows, pool, SPACE_ALL);
              total == Some(AtLeastZero(|Cover(p, bs)| - (FreedByAll(p, bs, released) - Freed(p, bs, released[0]))))
  {
    hide Cover, Blocks, Pow2, Contains, Freed;
    ghost var bs := Blocks(rows, pool, SPACE_ALL);
    total := stored;
    for i := 0 to |released|
      invariant i == 0 ==> total == stored
      invariant 0 < i && stored.Some? ==> total == Some(AtLeastZero(stored.value - FreedByAll(p, bs, released[..i])))
      invariant 0 < i && stored.None? ==>
                  total == Some(AtLeastZero(|Cover(p, bs)|
                                            - (FreedByAll(p, bs, released[..i]) - Freed(p, bs, released[0]))))
    {
      assert released[..i + 1][..i] == released[..i];
      FreedIsNatural(p, bs, released[i]);
      var next := TotalAfterRemoving(p, rows, pool, total, released[i]);
      if i == 0 {
        assert released[..0] == [];
      }
      total := Some(next);
    }
    assert released[..|released|] == released;
  }

  ghost predicate NoneOverlap(bs: seq<Cidr>) {
    forall i, j :: 0 <= i < j < |bs| ==> !Overlaps(bs[i], bs[j])
  }

  ghost function SetOf(bs: seq<Cidr>): set<Cidr> {
    set b | b in bs
  }

  /** No address that is freed was held by two of the released rows. */
  ghost predicate FreedOnce(p: Cidr, kept: set<Cidr>, released: seq<Cidr>) {
    forall i, j :: 0 <= i < j < |released| ==> Cover(p, {released[i]}) * Cover(p, {released[j]}) <= Cover(p, kept)
  }

  /** The rows taken one by one free at least what they free together, and
      exactly that when no address is freed twice. */
  lemma {:induction false} FreedTogether(p: Cidr, kept: set<Cidr>, released: seq<Cidr>)
    ensures FreedByAll(p, kept, released) >= |Cover(p, kept + SetOf(released))| - |Cover(p, kept)|
    ensures FreedByAll(p, kept, released) == |Cover(p, kept + SetOf(released))| - |Cover(p, kept)|
       <==> FreedOnce(p, kept, released)
  {
    hide Pow2, Cover;
    if released == [] {
      assert kept + SetOf(released) == kept;
    } else {
      var init, last := released[..|released| - 1], released[|released| - 1];
      FreedTogether(p, kept, init);
      assert SetOf(released) == SetOf(init) + {last};
      assert kept + SetOf(released) == (kept + SetOf(init)) + {last};
      FreedAfter(p, kept, SetOf(init), last);
      FreedOnceNext(p, kept, init, last);
      assert released == init + [last];
    }
  }

  /** Against more rows a block frees less, unless what it shares with them is
      kept anyway. */
  lemma FreedAfter(p: Cidr, kept: set<Cidr>, others: set<Cidr>, b: Cidr)
    ensures Freed(p, kept + others, b) <= Freed(p, kept, b)
    ensures Freed(p, kept + others, b) == Freed(p, kept, b) <==> Cover(p, others) * Cover(p, {b}) <= Cover(p, kept)
  {
    hide Pow2, Cover;
    CoverGrows(p, kept, {b});
    CoverGrows(p, kept + others, {b});
    CoverGrows(p, kept, others);
    CountUnion(Cover(p, kept), Cover(p, others), Cover(p, {b}));
  }

  lemma CountUnion(x: set<int>, y: set<int>, z: set<int>)
    ensures |x + y + z| - |x + y| <= |x + z| - |x|
    ensures |x + y + z| - |x + y| == |x + z| - |x| <==> y * z <= x
  {
    var added, shared := z - x - y, y * z - x;
    assert x + y + z == (x + y) + added && (x + y) !! added;
    assert x + z == x + (added + shared) && x !! (added + shared) && added !! shared;
    assert |x + (added + shared)| == |x| + |added + shared| && |added + shared| == |added| + |shared|;
    assert y * z <= x <==> shared == {};
  }

  lemma FreedOnceNext(p: Cidr, kept: set<Cidr>, init: seq<Cidr>, last: Cidr)
    ensures FreedOnce(p, kept, init + [last])
       <==> FreedOnce(p, kept, init) && Cover(p, SetOf(init)) * Cover(p, {last}) <= Cover(p, kept)
  {
    hide Pow2, Cover;
    var all := init + [last];
    if FreedOnce(p, kept, all) {
      forall i, j | 0 <= i < j < |init|
        ensures Cover(p, {init[i]}) * Cover(p, {init[j]}) <= Cover(p, kept)
      {
        assert all[i] == init[i] && all[j] == init[j];
      }
      forall a | a in Cover(p, SetOf(init)) && a in Cover(p, {last})
        ensures a in Cover(p, kept)
      {
        var i := CoveredBy(p, init, a);
        assert all[i] == init[i] && all[|init|] == last;
        assert a in Cover(p, {all[i]}) * Cover(p, {all[|init|]});
      }
    }
    if FreedOnce(p, kept, init) && Cover(p, SetOf(init)) * Cover(p, {last}) <= Cover(p, kept) {
      forall i, j | 0 <= i < j < |all|
        ensures Cover(p, {all[i]}) * Cover(p, {all[j]}) <= Cover(p, kept)
      {
        if j == |init| {
          CoverGrows(p, {init[i]}, SetOf(init));
          assert {init[i]} + SetOf(init) == SetOf(init);
          assert Cover(p, {init[i]}) <= Cover(p, SetOf(init));
        }
      }
    }
  }

  lemma CoveredBy(p: Cidr, bs: seq<Cidr>, a: int) returns (i: nat)
    requires a in Cover(p, SetOf(bs))
    ensures i < |bs| && a in Cover(p, {bs[i]})
  {
    var c :| c in SetOf(bs) && Has(c, p.family, a);
    i :| 0 <= i < |bs| && bs[i] == c;
  }

  lemma NeverShared(p: Cidr, others: set<Cidr>, b: Cidr)
    requires forall c :: c in others ==> !Overlaps(c, b)
    ensures Cover(p, others) !! Cover(p, {b})
  {
    hide Pow2;
    forall a | a in Cover(p, others) && a in Cover(p, {b})
      ensures false
    {
      var c :| c in others && Has(c, p.family, a);
      OverlapMeansShared(c, b);
    }
  }

  /** Rows that do not overlap one another free each address once. */
  lemma ApartFreeOnce(p: Cidr, kept: set<Cidr>, released: seq<Cidr>)
    requires NoneOverlap(released)
    ensures FreedOnce(p, kept, released)
  {
    hide Pow2, Cover, Overlaps;
    forall i, j | 0 <= i < j < |released|
      ensures Cover(p, {released[i]}) * Cover(p, {released[j]}) <= Cover(p, kept)
    {
      NeverShared(p, {released[i]}, released[j]);
    }
  }

  /** A stored total that was exact is exact after a release exactly when no
      address was freed twice, or nothing is left to count. */
  lemma ReleaseIsExact(p: Cidr, kept: set<Cidr>, released: seq<Cidr>)
    ensures AtLeastZero(|Cover(p, kept + SetOf(released))| - FreedByAll(p, kept, released)) == |Cover(p, kept)|
       <==> |Cover(p, kept)| == 0 || FreedOnce(p, kept, released)
  {
    hide FreedOnce;
    FreedTogether(p, kept, released);
  }

  /** With no stored total, the first row seeds one from what is left and every
      later row is subtracted again. The figure is right exactly when the later
      rows free nothing, or nothing is left to count. */
  lemma UnseededReleaseDrifts(p: Cidr, kept: set<Cidr>, released: seq<Cidr>)
    requires released != []
    ensures AtLeastZero(|Cover(p, kept)| - (FreedByAll(p, kept, released) - Freed(p, kept, released[0])))
            == |Cover(p, kept)|
       <==> |Cover(p, kept)| == 0 || Cover(p, SetOf(released[1..])) <= Cover(p, kept)
  {
    hide Pow2, Cover, Freed;
    var first, rest := released[0], released[1..];
    assert released == [first] + rest;
    FreedSplits(p, kept, first, rest);
    FreedNothing(p, kept, rest);
  }

  lemma FreedNothing(p: Cidr, kept: set<Cidr>, rest: seq<Cidr>)
    ensures 0 <= FreedByAll(p, kept, rest)
    ensures FreedByAll(p, kept, rest) == 0 <==> Cover(p, SetOf(rest)) <= Cover(p, kept)
  {
    hide Pow2, Cover, Freed, FreedByAll;
    FreedTogether(p, kept, rest);
    CoverGrows(p, kept, SetOf(rest));
    var x, y := Cover(p, kept), Cover(p, SetOf(rest));
    assert x + y == x + (y - x) && x !! (y - x);
    assert |x + (y - x)| == |x| + |y - x|;
    assert y <= x <==> y - x == {};
    if y <= x {
      forall i, j | 0 <= i < j < |rest|
        ensures Cover(p, {rest[i]}) * Cover(p, {rest[j]}) <= x
      {
        CoverGrows(p, {rest[i]}, SetOf(rest));
        assert {rest[i]} + SetOf(rest) == SetOf(rest);
      }
    }
  }

  lemma {:induction false} FreedSplits(p: Cidr, kept: set<Cidr>, first: Cidr, rest: seq<Cidr>)
    ensures FreedByAll(p, kept, [first] + rest) == Freed(p, kept, first) + FreedByAll(p, kept, rest)
  {
    hide Freed;
    var all := [first] + rest;
    if rest == [] {
      assert all[..0] == [];
      assert FreedByAll(p, kept, all[..0]) == 0;
    } else {
      FreedSplits(p, kept, first, rest[..|rest| - 1]);
      assert all[..|all| - 1] == [first] + rest[..|rest| - 1];
    }
  }

  /** So any two rows released together from a pool that keeps a third, none
      overlapping another, leave a wrong figure. */
  lemma UnseededPairDrifts(p: Cidr, k: Cidr, a: Cidr, b: Cidr)
    requires Contains(p, k) && Contains(p, b) && !Overlaps(a, b) && !Overlaps(k, b)
    ensures AtLeastZero(|Cover(p, {k})| - (FreedByAll(p, {k}, [a, b]) - Freed(p, {k}, a))) != |Cover(p, {k})|
  {
    hide Pow2, Freed, FreedByAll;
    var released := [a, b];
    UnseededReleaseDrifts(p, {k}, released);
    assert released[1..] == [b] && b in SetOf(released[1..]);
    assert Has(k, p.family, k.start) && k.start in Cover(p, {k});
    assert Has(b, p.family, b.start) && b.start in Cover(p, SetOf(released[1..]));
    NeverShared(p, {k}, b);
    assert b.start in Cover(p, {b});
  }

  /** 0.0.0.0/32 kept out of 0.0.0.0/30, 0.0.0.1/32 and 0.0.0.2/32 released. */
  lemma UnseededReleaseExample()
    ensures |Cover(Tiny(0, 30), {Tiny(0, 32)})|
            != AtLeastZero(|Cover(Tiny(0, 30), {Tiny(0, 32)})|
                           - (FreedByAll(Tiny(0, 30), {Tiny(0, 32)}, [Tiny(1, 32), Tiny(2, 32)])
                              - Freed(Tiny(0, 30), {Tiny(0, 32)}, Tiny(1, 32))))
  {
    hide Freed, FreedByAll, Cover;
    var p, k, a, b := Tiny(0, 30), Tiny(0, 32), Tiny(1, 32), Tiny(2, 32);
    assert Contains(p, k) && Contains(p, b) && !Overlaps(a, b) && !Overlaps(k, b);
    UnseededPairDrifts(p, k, a, b);
  }
}
