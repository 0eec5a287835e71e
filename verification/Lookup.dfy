/** Reading a pool's rows, and choosing a block among them. */
module Lookup {
  import opened Common
  import opened Sorting
  import opened Cidr
  import opened FreeSpace
  import opened Fit
  import opened Allocation
  import opened Scanning
  import opened BoundedSearch
  import opened Tables

  const PAGE_SIZE := 256
  const PAGE_LIMIT := 100_000

  datatype Failed = PoolNotFound | NoSpace | SearchFailed | BadReservation(reason: Failure) | KeyTaken
                  | RootOverlap | RangeHeld | RangeOccupied | CarveMissing | TreeTooDeep

  datatype Outcome<+T> = Done(value: T) | Refused(reason: Failed)

  // ---- reading rows ------------------------------------------------------

  predicate Precedes(a: Cidr, b: Cidr) {
    (a.family == IPv4 && b.family == IPv6) || (a.family == b.family && Sooner(a, b))
  }

  /** The blocks of a pool that occupy a space, in table order; only those that
      overlap `meeting` when one is given. */
  method LoadBlocks(rows: Rows, pool: string, space: string, meeting: Option<Cidr>) returns (out: seq<Cidr>)
    ensures InTableOrder(out) && |out| <= |rows|
    ensures forall c :: c in out <==> c in Blocks(rows, pool, space) && (meeting.Some? ==> Overlaps(c, meeting.value))
  {
    var found := [];
    var todo := rows.Keys;
    while todo != {}
      invariant todo <= rows.Keys && |found| + |todo| <= |rows|
      invariant forall c :: c in found <==> exists k ::
                    k in rows && k !in todo && Wanted(rows[k], pool, space, meeting) && rows[k].block == c
      decreases |todo|
    {
      var k :| k in todo;
      ghost var before, todo0 := found, todo;
      if Wanted(rows[k], pool, space, meeting) {
        found := found + [rows[k].block];
      }
      todo := todo - {k};
      LoadStep(rows, pool, space, meeting, before, found, todo0, k);
    }
    out := SortBlocks(found);
  }

  method SortBlocks(found: seq<Cidr>) returns (out: seq<Cidr>)
    ensures InTableOrder(out) && |out| == |found| && forall c :: c in out <==> c in found
  {
    out := Sort(found, Precedes);
    SameMembers(out, found);
  }

  predicate Wanted(r: Row, pool: string, space: string, meeting: Option<Cidr>) {
    Occupies(r, pool, space) && (meeting.Some? ==> Overlaps(r.block, meeting.value))
  }

  lemma LoadStep(rows: Rows, pool: string, space: string, meeting: Option<Cidr>, out: seq<Cidr>, out': seq<Cidr>,
                 todo: set<Key>, k: Key)
    requires k in todo && todo <= rows.Keys
    requires forall c ::
               c in out
               <==> exists l :: l in rows && l !in todo && Wanted(rows[l], pool, space, meeting) && rows[l].block == c
    requires forall c :: c in out' <==> c in out || (Wanted(rows[k], pool, space, meeting) && c == rows[k].block)
    ensures forall c ::
              c in out'
              <==> exists l ::
                     l in rows && l !in todo - {k} && Wanted(rows[l], pool, space, meeting) && rows[l].block == c
  {
  }

  // ---- choosing a block --------------------------------------------------

  /** A block of the wanted size inside the pool, overlapping nothing in `bs`. */
  ghost predicate Fits(p: Cidr, bs: set<Cidr>, ones: int, b: Cidr) {
    b.ones == ones && Contains(p, b) && Clears(bs, b)
  }

  ghost predicate LowestFit(p: Cidr, bs: set<Cidr>, ones: int, b: Cidr) {
    Fits(p, bs, ones, b) && forall c: Cidr :: Fits(p, bs, ones, c) ==> b.start <= c.start
  }

  ghost predicate NoFit(p: Cidr, bs: set<Cidr>, ones: int) {
    forall b: Cidr :: !Fits(p, bs, ones, b)
  }

  /** In an empty range the lowest fit is at its first address. */
  lemma LowestOfEmpty(p: Cidr, ones: int)
    requires p.ones <= ones <= Width(p.family)
    ensures !NoFit(p, {}, ones)
    ensures forall b: Cidr :: LowestFit(p, {}, ones, b) ==> b == FirstBlock(p, ones)
  {
    hide Pow2;
    assert Fits(p, {}, ones, FirstBlock(p, ones));
  }

  /** A run of addresses free of `bs` that cannot be made longer, and a block of
      the wanted size in it. */
  ghost predicate FitsRun(p: Cidr, bs: set<Cidr>, ones: int, b: Cidr, lo: int, hi: int) {
    && p.start <= lo <= hi <= p.Last() && (forall a :: lo <= a <= hi ==> !Held(bs, p.family, a))
    && (lo == p.start || Held(bs, p.family, lo - 1)) && (hi == p.Last() || Held(bs, p.family, hi + 1))
    && b.ones == ones && b.family == p.family && lo <= b.start && b.Last() <= hi
  }

  /** No block of the size lies in a shorter run, and none lower in one as short. */
  ghost predicate ShortestRun(p: Cidr, bs: set<Cidr>, ones: int, b: Cidr, lo: int, hi: int) {
    && FitsRun(p, bs, ones, b, lo, hi)
    && forall c, lo', hi' :: FitsRun(p, bs, ones, c, lo', hi') ==>
         hi - lo <= hi' - lo' && (hi - lo == hi' - lo' ==> b.start <= c.start)
  }

  /** The block a pool's strategy gives: over its one range every strategy but
      BestFit gives the lowest. */
  ghost predicate GivenBy(p: Cidr, bs: set<Cidr>, ones: int, s: Strategy, b: Cidr) {
    if s == BestFit then exists lo, hi :: ShortestRun(p, bs, ones, b, lo, hi) else LowestFit(p, bs, ones, b)
  }

  /** A pool sees all of its own rows. */
  lemma SeesOwn(p: Cidr, list: seq<Cidr>, bs: set<Cidr>, a: int)
    requires Lists(list, bs) && AllInside(p, bs)
    ensures Taken(FilterWithin(p, list), p.family, a) <==> Held(bs, p.family, a)
  {
    hide Pow2, FilterWithin;
    forall c | c in list
      ensures c in FilterWithin(p, list)
    {
    }
  }

  lemma BestOfOne(p: Cidr, list: seq<Cidr>, bs: set<Cidr>, ones: int, b: Cidr)
    requires Lists(list, bs) && AllInside(p, bs) && IsBestFit([p], list, ones, b)
    ensures GivenBy(p, bs, ones, BestFit, b)
  {
    hide Pow2, FilterWithin;
    var ps := [p];
    forall a
      ensures Taken(Seen(ps, list, 0), p.family, a) <==> Held(bs, p.family, a)
    {
      SeesOwn(p, list, bs, a);
    }
    hide Taken, Held;
    var i: nat, lo, hi :| BestFitAt(ps, list, ones, b, i, lo, hi);
    forall c, lo', hi' | FitsRun(p, bs, ones, c, lo', hi')
      ensures hi - lo <= hi' - lo' && (hi - lo == hi' - lo' ==> b.start <= c.start)
    {
      assert InFreeRun(ps, list, ones, c, 0, lo', hi');
    }
    assert ShortestRun(p, bs, ones, b, lo, hi);
  }

  lemma LowestOfOne(p: Cidr, list: seq<Cidr>, bs: set<Cidr>, ones: int, s: Strategy, b: Cidr)
    requires Lists(list, bs) && AllInside(p, bs) && s != BestFit && IsFor([p], list, ones, s, b)
    ensures LowestFit(p, bs, ones, b)
  {
    hide Pow2, FilterWithin, Available, Fits;
    var ps := [p];
    assert LowestIn(b, p, FilterWithin(p, list), ones) by {
      if s == LeastUtilized {
        var i: nat :| IsMostFreeAt(ps, list, ones, b, i);
      } else {
        var i :| 0 <= i < |ps| && SeenFirstFitAt(ps, list, ones, b, i);
      }
    }
    InsideNeverWider(p, list);
    SeenIsExact(p, list, ones);
    forall c: Cidr
      ensures Available(c, p, FilterWithin(p, list), ones) <==> Fits(p, bs, ones, c)
    {
      FitIsAvailable(p, list, bs, ones, c);
    }
  }

  lemma FitIsAvailable(p: Cidr, list: seq<Cidr>, bs: set<Cidr>, ones: int, b: Cidr)
    requires Lists(list, bs)
    ensures Available(b, p, list, ones) <==> Fits(p, bs, ones, b)
  {
    hide Pow2, Available, Contains, Overlaps;
    AvailableMeansDisjoint(b, p, list, ones);
    forall c | c in list
      ensures Overlaps(b, c) <==> Overlaps(c, b)
    {
      OverlapIsSymmetric(b, c);
    }
  }

  lemma OverlapIsSymmetric(b: Cidr, c: Cidr)
    ensures Overlaps(b, c) <==> Overlaps(c, b)
  {
  }

  /** First fit over one range, said of the set of blocks. */
  lemma FirstFitOfOne(p: Cidr, list: seq<Cidr>, bs: set<Cidr>, ones: int)
    requires Lists(list, bs)
    ensures IsFirstFit([p], list, ones, None) <==> NoFit(p, bs, ones)
    ensures forall b: Cidr :: IsFirstFit([p], list, ones, Some(b)) <==> LowestFit(p, bs, ones, b)
  {
    hide Available, Fits;
    forall b: Cidr
      ensures Available(b, p, list, ones) <==> Fits(p, bs, ones, b)
    {
      FitIsAvailable(p, list, bs, ones, b);
    }
    assert [p][0] == p;
    assert HasRoom(p, list, ones) <==> !NoFit(p, bs, ones);
    forall b: Cidr
      ensures IsFirstFit([p], list, ones, Some(b)) <==> LowestFit(p, bs, ones, b)
    {
      assert IsFirstFitAt([p], list, ones, b, 0) <==> LowestFit(p, bs, ones, b);
    }
  }

  lemma InsideNeverWider(p: Cidr, list: seq<Cidr>)
    requires forall c :: c in list ==> Contains(p, c)
    ensures NoneStraddles([p], list) && !CoveredFromBelow(p, list)
  {
    hide Pow2;
    forall c | c in list
      ensures p.ones <= c.ones
    {
      ShorterPrefix(c, p);
    }
  }

  lemma GivenByStrategy(p: Cidr, list: seq<Cidr>, bs: set<Cidr>, ones: int, s: Strategy, b: Cidr)
    requires Lists(list, bs) && AllInside(p, bs) && IsFor([p], list, ones, s, b)
    ensures GivenBy(p, bs, ones, s, b)
  {
    if s == BestFit {
      BestOfOne(p, list, bs, ones, b);
    } else {
      LowestOfOne(p, list, bs, ones, s, b);
    }
  }

  /** The whole-set search over a pool's own rows. */
  method ChooseByStrategy(p: Cidr, list: seq<Cidr>, ones: int, s: Strategy, ghost bs: set<Cidr>)
    returns (res: Outcome<Cidr>)
    requires Lists(list, bs) && AllInside(p, bs)
    ensures res.Done? ==> Fits(p, bs, ones, res.value)
    ensures res.Refused? ==> res.reason == NoSpace && NoFit(p, bs, ones)
    ensures res.Done? ==> GivenBy(p, bs, ones, s, res.value)
  {
    hide Fits, Available, Picks, IsFor, GivenBy;
    InsideNeverWider(p, list);
    var found := FindFirstAvailableBlock([p], list, ones, s);
    SeenIsExact(p, list, ones);
    forall b: Cidr
      ensures Available(b, p, list, ones) <==> Fits(p, bs, ones, b)
    {
      FitIsAvailable(p, list, bs, ones, b);
    }
    if found.Ok? {
      GivenByStrategy(p, list, bs, ones, s, found.value);
      return Done(found.value);
    }
    assert !SeenRoom([p], list, ones, 0);
    return Refused(NoSpace);
  }

  /** The paged search over a pool's own rows, from a sound floor. The note it
      returns is the next floor, and is sound. */
  method ChooseFirst(p: Cidr, list: seq<Cidr>, ones: int, floor: Option<int>, ghost bs: set<Cidr>)
    returns (res: Outcome<Cidr>, next: Option<int>)
    requires Lists(list, bs) && AllInside(p, bs) && InTableOrder(list)
    requires floor.Some? ==> FloorSound(p, bs, floor.value)
    ensures res.Done? ==> LowestFit(p, bs, ones, res.value)
    ensures res.Refused? ==> res.reason == NoSpace || res.reason == SearchFailed
    ensures res == Refused(NoSpace) ==> NoFit(p, bs, ones)
    ensures res == Refused(SearchFailed) ==> p.Last() + 1 == Pow2(Width(p.family)) || PAGE_LIMIT <= |list|
    ensures res.Done? && next.Some? ==> FloorSound(p, bs, next.value)
    ensures res.Done? ==> NextFloor(p, bs, ScanFrom(p, floor), if next.Some? then next.value else ScanFrom(p, floor))
  {
    hide Pow2, LowestFit, NoFit, IsFitInside, IsFirstFit, NoneStraddles, IsFirstFree, InTableOrder, NextFloor;
    InsideNeverWider(p, list);
    var out, note := BoundedFirstFit([p], list, ones, floor, PAGE_SIZE, PAGE_LIMIT);
    FirstFitOfOne(p, list, bs, ones);
    SoundAsList(p, list, bs, floor);
    if p.Last() + 1 < Pow2(Width(p.family)) {
      StuckOnlyAtTop([p], floor, list, ones);
    }
    assert |[p]| * (|list| + 1) == |list| + 1;
    match out
    case Found(b) =>
      BoundedIsFirstFit([p], floor, list, ones, Some(b));
      NoteIsNext(p, list, bs, ScanFrom(p, floor), note);
      if note.Some? {
        NoteIsSound(p, list, bs, floor, note.value);
      }
      return Done(b), note;
    case Exhausted =>
      BoundedIsFirstFit([p], floor, list, ones, None);
      return Refused(NoSpace), None;
    case _ =>
      return Refused(SearchFailed), None;
  }

  lemma SoundAsList(p: Cidr, list: seq<Cidr>, bs: set<Cidr>, floor: Option<int>)
    requires Lists(list, bs)
    requires floor.Some? ==> FloorSound(p, bs, floor.value)
    ensures FloorIsSound([p], floor, list)
  {
    if floor.Some? {
      forall a | p.start <= a < floor.value && a <= p.Last()
        ensures Taken(list, p.family, a)
      {
        ListHolds(list, bs, p.family, a);
      }
    }
  }

  lemma NoteIsNext(p: Cidr, list: seq<Cidr>, bs: set<Cidr>, lo: int, note: Option<int>)
    requires Lists(list, bs) && AllInside(p, bs) && IsFirstFree(p, list, lo, note)
    ensures NextFloor(p, bs, lo, if note.Some? then note.value else lo)
  {
    var inside := Select(list, p, All);
    assert Lists(inside, bs);
    forall a
      ensures Taken(inside, p.family, a) <==> Held(bs, p.family, a)
    {
      ListHolds(inside, bs, p.family, a);
    }
  }

  lemma NoteIsSound(p: Cidr, list: seq<Cidr>, bs: set<Cidr>, floor: Option<int>, note: int)
    requires Lists(list, bs) && AllInside(p, bs)
    requires floor.Some? ==> FloorSound(p, bs, floor.value)
    requires IsFirstFree(p, list, ScanFrom(p, floor), Some(note))
    ensures FloorSound(p, bs, note)
  {
    var inside := Select(list, p, All);
    assert Lists(inside, bs);
    forall a | p.start <= a < note && a <= p.Last()
      ensures Held(bs, p.family, a)
    {
      if ScanFrom(p, floor) <= a {
        ListHolds(inside, bs, p.family, a);
      }
    }
  }
}
