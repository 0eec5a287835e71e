/** The allocator's operations over the tables. Each public operation is one
    transaction run alone, and a refusal rolls every table back. What happens
    when releases and allocations overlap is in the module Interleaved. */
module Store {
  import opened Common
  import opened Cidr
  import opened Reservations
  import opened Allocation
  import opened Tables
  import opened Lookup
  import opened Totals
  import opened Ranges

  // ---- facts about growing and shrinking tables --------------------------

  /** `rows'` is `rows` with some reserved positions of `pool` added. */
  ghost predicate Reserved(rows: Rows, rows': Rows, pool: string) {
    && (forall k :: k in rows ==> k in rows' && rows'[k] == rows[k])
    && (forall k :: k in rows' && k !in rows ==> k.Position? && k.pool == pool)
  }

  lemma ReservedKeepsCarves(pools: Pools, rows: Rows, rows': Rows, pool: string)
    requires CarvesMatch(pools, rows) && Reserved(rows, rows', pool)
    ensures CarvesMatch(pools, rows')
  {
  }

  lemma PoolBlocksInside(pools: Pools, rows: Rows, pool: string, space: string)
    requires RowsInside(pools, rows) && pool in pools
    ensures AllInside(pools[pool].cidr, Blocks(rows, pool, space))
  {
    hide Pow2, Contains;
  }

  lemma RaiseKeepsFloors(pools: Pools, rows: Rows, floors: Floors, pool: string, space: string, floor: int)
    requires FloorsSound(pools, rows, floors) && pool in pools && space != SPACE_ALL
    requires FloorSound(pools[pool].cidr, Blocks(rows, pool, space), floor)
    ensures FloorsSound(pools, rows, floors[(pool, space) := floor])
  {
    hide FloorSound, Blocks;
  }

  lemma FloorAt(pools: Pools, rows: Rows, floors: Floors, x: (string, string))
    requires FloorsSound(pools, rows, floors) && x in floors
    ensures x.0 in pools && FloorSound(pools[x.0].cidr, Blocks(rows, x.0, x.1), floors[x])
  {
  }

  /** A new pool changes nothing about the rows of the others. */
  lemma NewPoolKeepsRows(pools: Pools, rows: Rows, floors: Floors, totals: map<string, int>, key: string, pool: Pool)
    requires key !in pools && RowsInside(pools, rows) && TotalsExact(pools, rows, totals)
    requires FloorsSound(pools, rows, floors)
    ensures RowsInside(pools[key := pool], rows) && TotalsExact(pools[key := pool], rows, totals)
    ensures FloorsSound(pools[key := pool], rows, floors)
  {
    hide Pow2, Contains, Blocks, Cover, FloorSound;
  }

  lemma NewRootKeepsCarves(pools: Pools, rows: Rows, key: string, pool: Pool)
    requires key !in pools && CarvesMatch(pools, rows) && pool.source.None?
    ensures CarvesMatch(pools[key := pool], rows)
  {
  }

  lemma NewChildKeepsCarves(pools: Pools, rows: Rows, key: string, pool: Pool, r: Row)
    requires key !in pools && PoolOf(key) !in rows && CarvesMatch(pools, rows)
    requires pool.source == Some(r.pool) && r.pool in pools && pools[r.pool].created < pool.created
    requires pool.cidr == r.block
    ensures CarvesMatch(pools[key := pool], rows[PoolOf(key) := r])
  {
  }

  // ---- reserved positions ------------------------------------------------

  predicate HasReserved(rows: Rows, pool: string) {
    exists k :: k in rows && rows[k].pool == pool && rows[k].purpose == Reserve
  }

  /** Of the first `n` positions, exactly those free in every space have rows. */
  ghost predicate Placed(before: Rows, after: Rows, pool: string, bs: seq<Cidr>, n: nat) {
    && n <= |bs| && Reserved(before, after, pool)
    && (forall j :: 0 <= j < n ==> (Position(pool, bs[j]) in after <==> Clears(Blocks(before, pool, SPACE_ALL), bs[j])))
    && (forall k :: k in after && k !in before ==> k.block in bs[..n] && after[k].block == k.block)
  }

  /** Reserving an edge position: withheld when free, left alone when something
      already holds it; nothing is done for a pool that already has its
      positions. */
  ghost predicate Materialised(before: Rows, after: Rows, pool: string, p: Pool, err: Option<Failed>) {
    if p.reservation.IsZero() || exists k :: k in before && before[k].pool == pool && before[k].purpose == Reserve
    then after == before && err.None?
    else exists res :: Reserves(multiset([p.cidr]), p.reservation, res) && PlacedAll(before, after, pool, res, err)
  }

  ghost predicate PlacedAll(before: Rows, after: Rows, pool: string, res: Result<seq<Cidr>>, err: Option<Failed>) {
    match res
    case Err(e) => err == Some(BadReservation(e)) && after == before
    case Ok(bs) => err.None? && Placed(before, after, pool, bs, |bs|)
  }

  lemma MaterialisedAdds(before: Rows, after: Rows, pool: string, p: Pool)
    requires Materialised(before, after, pool, p, None)
    ensures Reserved(before, after, pool)
  {
    hide Reserves;
  }

  /** A pool that has a reserved position gets no more. */
  lemma ReservedOnce(before: Rows, after: Rows, pool: string, p: Pool, err: Option<Failed>, k: Key)
    requires Materialised(before, after, pool, p, err)
    requires k in before && before[k].pool == pool && before[k].purpose == Reserve
    ensures after == before && err.None?
  {
  }

  lemma StillClear(before: Rows, after: Rows, pool: string, bs: seq<Cidr>, n: nat)
    requires Placed(before, after, pool, bs, n) && n < |bs| && NoneOverlap(bs)
    ensures Clears(Blocks(after, pool, SPACE_ALL), bs[n]) <==> Clears(Blocks(before, pool, SPACE_ALL), bs[n])
  {
    hide Pow2, Overlaps;
    forall c | c in Blocks(before, pool, SPACE_ALL)
      ensures c in Blocks(after, pool, SPACE_ALL)
    {
      var k :| k in before && Occupies(before[k], pool, SPACE_ALL) && before[k].block == c;
      assert k in after && after[k] == before[k];
    }
    forall c | c in Blocks(after, pool, SPACE_ALL)
      ensures c in Blocks(before, pool, SPACE_ALL) || !Overlaps(c, bs[n])
    {
      var k :| k in after && Occupies(after[k], pool, SPACE_ALL) && after[k].block == c;
      if k !in before {
        var j :| 0 <= j < |bs[..n]| && bs[..n][j] == c;
        assert bs[j] == c;
      } else {
        assert before[k] == after[k];
      }
    }
  }

  lemma PlacedNext(before: Rows, after: Rows, pool: string, bs: seq<Cidr>, n: nat, after': Rows)
    requires Placed(before, after, pool, bs, n) && n < |bs| && NoneOverlap(bs)
    requires Position(pool, bs[n]) !in before
    requires if Clears(Blocks(before, pool, SPACE_ALL), bs[n])
             then exists r: Row :: r.block == bs[n] && after' == after[Position(pool, bs[n]) := r]
             else after' == after
    ensures Placed(before, after', pool, bs, n + 1)
  {
    hide Pow2, Overlaps, Clears, Blocks;
    assert forall c :: c in bs[..n + 1] <==> c in bs[..n] || c == bs[n];
    assert forall j :: 0 <= j < n ==> bs[j] != bs[n] by {
      forall j | 0 <= j < n
        ensures bs[j] != bs[n]
      {
        OverlapsItself(bs[n]);
      }
    }
    assert bs[n] !in bs[..n];
  }

  lemma OverlapsItself(b: Cidr)
    ensures Overlaps(b, b)
  {
  }

  lemma UnitsApart(p: Cidr, r: Reservation, bs: seq<Cidr>)
    requires Reserves(multiset([p]), r, Ok(bs))
    ensures NoneOverlap(bs) && forall b :: b in bs ==> Contains(p, b)
  {
    hide Pow2, Reserves;
    ReservedBlocksAreUnits(multiset([p]), r, bs);
    assert forall q :: q in multiset([p]) ==> q == p;
    forall i, j | 0 <= i < j < |bs|
      ensures !Overlaps(bs[i], bs[j])
    {
      OverlapMeansShared(bs[i], bs[j]);
    }
  }

  class Store {
    var pools: Pools
    var rows: Rows
    var floors: Floors
    var totals: map<string, int>
    var clock: nat

    /** The rows and the floors over them. */
    ghost predicate RowsSound()
      reads this
    {
      && RowsInside(pools, rows) && RowsApart(rows) && RowsKeyed(rows) && HoldersUnique(rows)
      && FloorsSound(pools, rows, floors)
    }

    /** The rows, and the two caches that must agree with them. */
    ghost predicate RowsOk()
      reads this
    {
      RowsSound() && TotalsExact(pools, rows, totals)
    }

    ghost predicate Valid()
      reads this
    {
      RowsOk() && CarvesMatch(pools, rows) && RootsApart(pools) && forall q :: q in pools ==> pools[q].created < clock
    }

    constructor ()
      ensures Valid() && pools == map[] && rows == map[] && floors == map[] && totals == map[] && clock == 0
    {
      pools, rows, floors, totals, clock := map[], map[], map[], map[], 0;
    }

    /** A root pool an operator writes. It is refused if it overlaps another root
        of its project. */
    method AuthorPool(key: string, project: string, cidr: Cidr, strategy: Strategy, reservation: Reservation)
      returns (err: Option<Failed>)
      requires Valid()
      modifies this
      ensures Valid() && rows == old(rows) && floors == old(floors) && totals == old(totals)
      ensures err == Some(RootOverlap) <==> MeetsRoot(old(pools), key, project, cidr)
      ensures err == Some(RootOverlap)
         <==> exists q :: && q in old(pools) && q != key && old(pools)[q].source.None?
                          && old(pools)[q].project == project && Overlaps(cidr, old(pools)[q].cidr)
      ensures err == Some(KeyTaken) <==> key in old(pools) && !MeetsRoot(old(pools), key, project, cidr)
      ensures err.Some? ==> (err.value == RootOverlap || err.value == KeyTaken) && pools == old(pools)
      ensures err.None? ==> pools == old(pools)[key := Pool(project, cidr, strategy, reservation, None, old(clock))]
    {
      hide RowsInside, RowsApart, RowsKeyed, HoldersUnique, TotalsExact, FloorsSound, CarvesMatch, RootsApart, Overlaps;
      hide Pow2;
      if MeetsRoot(pools, key, project, cidr) {
        return Some(RootOverlap);
      }
      if key in pools {
        return Some(KeyTaken);
      }
      var pool := Pool(project, cidr, strategy, reservation, None, clock);
      NewPoolKeepsRows(pools, rows, floors, totals, key, pool);
      NewRootKeepsCarves(pools, rows, key, pool);
      NewRootKeepsApart(pools, key, pool);
      pools := pools[key := pool];
      clock := clock + 1;
      return None;
    }

    /** Chooses a block free in `space`; only that space's floor may move. */
    method FindBlock(pool: string, space: string, ones: int) returns (res: Outcome<Cidr>)
      requires RowsOk() && pool in pools
      modifies `floors
      ensures RowsOk() && SameBut(old(floors), floors, (pool, space))
      ensures res.Done? ==> FloorMoved(old(floors), floors, pools[pool], Blocks(rows, pool, space), (pool, space))
      ensures res.Done? ==> Fits(pools[pool].cidr, Blocks(rows, pool, space), ones, res.value)
      ensures res.Done? ==> Contains(pools[pool].cidr, res.value) && Clears(Blocks(rows, pool, space), res.value)
      ensures res.Done? ==> GivenBy(pools[pool].cidr, Blocks(rows, pool, space), ones, pools[pool].strategy, res.value)
      ensures res.Refused? ==> res.reason == NoSpace || res.reason == SearchFailed
      ensures res == Refused(NoSpace) ==> NoFit(pools[pool].cidr, Blocks(rows, pool, space), ones)
      ensures res == Refused(SearchFailed) ==> MaySearchFail(pools[pool], rows)
    {
      hide Blocks, Cover, FloorSound, Pow2, NoFit, Clears, Contains, RowsApart, RowsKeyed, HoldersUnique, TotalsExact;
      hide RowsInside, FloorsSound;
      hide NextFloor;
      ghost var bs := Blocks(rows, pool, space);
      PoolBlocksInside(pools, rows, pool, space);
      var p := pools[pool];
      var list := LoadBlocks(rows, pool, space, None);
      if !WantsFirst(p.strategy) {
        res := ChooseByStrategy(p.cidr, list, ones, p.strategy, bs);
        return;
      }
      if space == SPACE_ALL {
        var next;
        res, next := ChooseFirst(p.cidr, list, ones, None, bs);
        return;
      }
      if (pool, space) !in floors {
        BaseIsSound(p.cidr, bs);
        RaiseKeepsFloors(pools, rows, floors, pool, space, p.cidr.start);
        floors := floors[(pool, space) := p.cidr.start];
      }
      FloorAt(pools, rows, floors, (pool, space));
      var next;
      res, next := ChooseFirst(p.cidr, list, ones, Some(floors[(pool, space)]), bs);
      if res.Done? && next.Some? {
        RaiseKeepsFloors(pools, rows, floors, pool, space, next.value);
        floors := floors[(pool, space) := next.value];
      }
    }

    /** Records a row that is free in its space, and the total with it. */
    method AddRow(k: Key, r: Row)
      requires RowsOk() && k !in rows && r.pool in pools && Contains(pools[r.pool].cidr, r.block) && KeyFits(k, r)
      requires Clears(Blocks(rows, r.pool, SpaceOf(r)), r.block)
      requires r.holder.Some? ==> forall l :: l in rows ==> rows[l].holder != r.holder
      modifies `rows, `totals
      ensures RowsOk() && rows == old(rows)[k := r]
      ensures totals == old(totals)[r.pool := |Cover(pools[r.pool].cidr, Blocks(rows, r.pool, SPACE_ALL))|]
    {
      hide Blocks, Cover, Pow2, Contains, RowsInside, RowsApart, RowsKeyed, HoldersUnique, FloorsSound;
      PoolBlocksInside(pools, rows, r.pool, SPACE_ALL);
      var stored := if r.pool in totals then Some(totals[r.pool]) else None;
      var total := TotalAfterAdding(pools[r.pool].cidr, rows, r.pool, stored, r.block);
      AddKeepsRows(pools, rows, k, r);
      AddKeepsHolders(rows, k, r);
      AddKeepsFloors(pools, rows, floors, k, r);
      AddKeepsTotals(pools, rows, totals, k, r, total);
      rows := rows[k := r];
      totals := totals[r.pool := total];
    }

    /** Writes the pool's reserved edge positions as rows. */
    method Materialise(pool: string) returns (err: Option<Failed>)
      requires RowsOk() && pool in pools
      modifies `rows, `totals
      ensures RowsOk() && Reserved(old(rows), rows, pool) && Materialised(old(rows), rows, pool, pools[pool], err)
      ensures err.Some? ==> err.value.BadReservation? && totals == old(totals)
    {
      hide Blocks, Cover, Pow2, Contains, RowsInside, RowsApart, HoldersUnique, FloorsSound, TotalsExact, Reserves;
      hide Clears, Placed;
      var p := pools[pool];
      if p.reservation.IsZero() || HasReserved(rows, pool) {
        return None;
      }
      var res := ReservedBlocks([p.cidr], p.reservation);
      if res.Err? {
        assert PlacedAll(rows, rows, pool, res, Some(BadReservation(res.error)));
        return Some(BadReservation(res.error));
      }
      var bs := res.value;
      ghost var before := rows;
      UnitsApart(p.cidr, p.reservation, bs);
      PlacedNone(rows, pool, bs);
      for i := 0 to |bs|
        invariant RowsOk() && Placed(before, rows, pool, bs, i)
      {
        StillClear(before, rows, pool, bs, i);
        ghost var after := rows;
        var overlapping := LoadBlocks(rows, pool, SPACE_ALL, Some(bs[i]));
        NothingOverlaps(rows, pool, bs[i], overlapping);
        PositionIsNew(before, rows, pool, bs, i);
        if |overlapping| == 0 {
          AddRow(Position(pool, bs[i]), Row(pool, bs[i], Reserve, EMPTY_SPACE, None, Delete));
        }
        PlacedNext(before, after, pool, bs, i, rows);
      }
      PlacedMeansReserved(before, rows, pool, bs);
      assert PlacedAll(before, rows, pool, res, None);
      return None;
    }

    /** Reserves the pool's positions, finds a block free in `space`, and records
        it. `seen` are the rows the search saw: those before, and any positions
        reserved on the way. */
    method TakeRow(pool: string, ones: int, k: Key, purpose: Purpose, digest: string, holder: Key, policy: Policy)
      returns (res: Outcome<Cidr>, ghost seen: Rows)
      requires RowsOk() && pool in pools && purpose != Reserve && !k.Position?
      requires forall b: Cidr :: KeyFits(k, Row(pool, b, purpose, digest, Some(holder), policy))
      modifies `rows, `totals, `floors
      ensures Reserved(old(rows), seen, pool)
      ensures res.Refused? ==>
                Refusal(old(rows), seen, pool, pools[pool], ones, SpaceToSearch(purpose, digest), k, holder, res.reason)
      ensures res.Done? ==>
                && RowsOk()
                && Grants(old(rows), seen, pool, pools[pool], ones, SpaceToSearch(purpose, digest), k, holder,
                          res.value)
                && FloorMoved(old(floors), floors, pools[pool], Blocks(seen, pool, SpaceToSearch(purpose, digest)),
                              (pool, SpaceToSearch(purpose, digest)))
                && rows == seen[k := Row(pool, res.value, purpose, digest, Some(holder), policy)]
    {
      hide Blocks, Cover, Pow2, RowsInside, RowsApart, RowsKeyed, HoldersUnique, FloorsSound, TotalsExact;
      hide NoFit, LowestFit, Materialised, Contains, Clears, Fits, Reserved, MaySearchFail, KeyFits, FloorMoved;
      ReservedNone(rows, pool);
      var err := Materialise(pool);
      seen := rows;
      if err.Some? {
        return Refused(err.value), seen;
      }
      res := FindBlock(pool, SpaceToSearch(purpose, digest), ones);
      if res.Refused? {
        return;
      }
      if !KeyFree(rows, k, holder) {
        return Refused(KeyTaken), seen;
      }
      AddRow(k, Row(pool, res.value, purpose, digest, Some(holder), policy));
    }

    /** Hands out a block of a pool in one address space. */
    method AllocatePrefix(pool: string, ones: int, claim: string, allocation: string, digest: string, policy: Policy)
      returns (res: Outcome<Cidr>, ghost seen: Rows)
      requires Valid()
      modifies `rows, `totals, `floors
      ensures Valid()
      ensures res.Refused? ==> rows == old(rows) && totals == old(totals) && floors == old(floors)
      ensures res.Done? ==> OnlyCarvesAdded(old(rows), rows)
      ensures res == Refused(PoolNotFound) <==> pool !in pools
      ensures res.Refused? && pool in pools ==>
                Refusal(old(rows), seen, pool, pools[pool], ones, SpaceFor(digest), KeyFor(claim, allocation),
                        Object(claim), res.reason)
      ensures res.Done? ==>
                && Grants(old(rows), seen, pool, pools[pool], ones, SpaceFor(digest), KeyFor(claim, allocation),
                          Object(claim), res.value)
                && FloorMoved(old(floors), floors, pools[pool], Blocks(seen, pool, SpaceFor(digest)),
                              (pool, SpaceFor(digest)))
                && rows == seen[KeyFor(claim, allocation) := Row(pool, res.value, Claim, SpaceFor(digest),
                                                                 Some(Object(claim)), policy)]
    {
      hide RowsInside, RowsApart, RowsKeyed, HoldersUnique, FloorsSound, TotalsExact, CarvesMatch, RootsApart;
      hide Grants, Refusal, Reserved, FloorMoved, OnlyCarvesAdded;
      seen := rows;
      if pool !in pools {
        return Refused(PoolNotFound), seen;
      }
      var rows0, totals0, floors0 := rows, totals, floors;
      var k, space := KeyFor(claim, allocation), SpaceFor(digest);
      res, seen := TakeRow(pool, ones, k, Claim, space, Object(claim), policy);
      if res.Refused? {
        RefusalIsNotMissing(rows0, seen, pool, pools[pool], ones, space, k, Object(claim), res.reason);
        rows, totals, floors := rows0, totals0, floors0;
        return;
      }
      GrantIsNew(rows0, seen, pool, pools[pool], ones, space, k, Object(claim), res.value);
      ReservedKeepsCarves(pools, rows0, seen, pool);
      AddKeepsCarves(pools, seen, k, Row(pool, res.value, Claim, space, Some(Object(claim)), policy));
      ReservedAddsNone(rows0, seen, pool, k, Row(pool, res.value, Claim, space, Some(Object(claim)), policy));
    }

    /** Adds the pool object of a child whose row is already in its source. */
    method AddChild(key: string, pool: Pool, r: Row, ghost before: Rows, ghost seen: Rows)
      requires RowsOk() && key !in pools && PoolOf(key) !in seen && rows == seen[PoolOf(key) := r]
      requires CarvesMatch(pools, before) && RootsApart(pools) && forall q :: q in pools ==> pools[q].created < clock
      requires Reserved(before, seen, r.pool) && r.pool in pools
      requires pool.source == Some(r.pool) && pool.cidr == r.block && pool.created == clock
      modifies `pools, `clock
      ensures Valid() && pools == old(pools)[key := pool] && clock == old(clock) + 1
    {
      hide RowsInside, RowsApart, RowsKeyed, HoldersUnique, FloorsSound, TotalsExact, CarvesMatch, RootsApart, Reserved;
      ReservedKeepsCarves(pools, before, seen, r.pool);
      NewChildKeepsCarves(pools, seen, key, pool, r);
      NewPoolKeepsRows(pools, rows, floors, totals, key, pool);
      NewChildKeepsApart(pools, key, pool);
      pools, clock := pools[key := pool], clock + 1;
    }

    /** A child pool an operator writes under another pool of the project. Its
        range is allocated like any claim of the empty space, held by the pool
        itself. */
    method AuthorChild(key: string, source: string, ones: int, strategy: Strategy, reservation: Reservation)
      returns (res: Outcome<Cidr>, ghost seen: Rows)
      requires Valid()
      modifies this
      ensures Valid()
      ensures res.Refused? ==>
                pools == old(pools) && rows == old(rows) && totals == old(totals) && floors == old(floors)
      ensures res == Refused(PoolNotFound) <==> source !in old(pools)
      ensures res.Refused? && source in old(pools) ==>
                || (res.reason == KeyTaken && key in old(pools))
                || Refusal(old(rows), seen, source, old(pools)[source], ones, EMPTY_SPACE, PoolOf(key), PoolOf(key),
                           res.reason)
      ensures res.Done? ==>
                && key !in old(pools) && source in old(pools)
                && Grants(old(rows), seen, source, old(pools)[source], ones, EMPTY_SPACE, PoolOf(key), PoolOf(key),
                          res.value)
                && FloorMoved(old(floors), floors, old(pools)[source], Blocks(seen, source, EMPTY_SPACE),
                              (source, EMPTY_SPACE))
                && rows == seen[PoolOf(key) := Row(source, res.value, Claim, EMPTY_SPACE, Some(PoolOf(key)), Delete)]
                && pools == old(pools)[key := Pool(old(pools)[source].project, res.value, strategy, reservation,
                                                   Some(source), old(clock))]
    {
      hide RowsInside, RowsApart, RowsKeyed, HoldersUnique, FloorsSound, TotalsExact, CarvesMatch, RootsApart;
      hide Grants, Refusal, Reserved, FloorMoved, OnlyCarvesAdded;
      seen := rows;
      if source !in pools {
        return Refused(PoolNotFound), seen;
      }
      var rows0, totals0, floors0 := rows, totals, floors;
      res, seen := TakeRow(source, ones, PoolOf(key), Claim, EMPTY_SPACE, PoolOf(key), Delete);
      if res.Refused? {
        RefusalIsNotMissing(rows0, seen, source, pools[source], ones, EMPTY_SPACE, PoolOf(key), PoolOf(key),
                            res.reason);
        rows, totals, floors := rows0, totals0, floors0;
        return;
      }
      if key in pools {
        rows, totals, floors := rows0, totals0, floors0;
        return Refused(KeyTaken), seen;
      }
      GrantIsNew(rows0, seen, source, pools[source], ones, EMPTY_SPACE, PoolOf(key), PoolOf(key), res.value);
      var r := Row(source, res.value, Claim, EMPTY_SPACE, Some(PoolOf(key)), Delete);
      AddChild(key, Pool(pools[source].project, res.value, strategy, reservation, Some(source), clock), r, rows0, seen);
    }

    /** Takes a block out of the source pool, free in every space. */
    method CarveFromPool(key: string, source: string, ones: int, digest: string)
      returns (res: Outcome<Cidr>, ghost seen: Rows)
      requires RowsOk()
      modifies `rows, `totals, `floors
      ensures res == Refused(PoolNotFound) <==> source !in pools
      ensures res.Refused? && source in pools ==>
                Refusal(old(rows), seen, source, pools[source], ones, SPACE_ALL, PoolOf(key), PoolOf(key), res.reason)
      ensures res.Done? ==>
                && RowsOk() && Reserved(old(rows), seen, source)
                && Grants(old(rows), seen, source, pools[source], ones, SPACE_ALL, PoolOf(key), PoolOf(key), res.value)
                && floors == old(floors)
                && rows == seen[PoolOf(key) := Carved(key, source, res.value, digest)]
    {
      hide RowsInside, RowsApart, RowsKeyed, HoldersUnique, FloorsSound, TotalsExact, Grants, Refusal, Reserved;
      seen := rows;
      if source !in pools {
        return Refused(PoolNotFound), seen;
      }
      ghost var rows0 := rows;
      res, seen := TakeRow(source, ones, PoolOf(key), Carve, digest, PoolOf(key), Delete);
      if res.Refused? {
        RefusalIsNotMissing(rows0, seen, source, pools[source], ones, SPACE_ALL, PoolOf(key), PoolOf(key), res.reason);
      }
    }

    /** Provisions a pool: the carve in its source and the pool object appear
        together, with the new pool's own reserved positions. */
    method Provision(key: string, project: string, source: string, ones: int, digest: string, reservation: Reservation)
      returns (res: Outcome<Cidr>, ghost seen: Rows)
      requires Valid()
      modifies this
      ensures Valid()
      ensures res.Refused? ==>
                pools == old(pools) && rows == old(rows) && totals == old(totals) && floors == old(floors)
      ensures res.Done? ==> OnlyCarvesAdded(old(rows), rows)
      ensures res == Refused(PoolNotFound) <==> source !in old(pools)
      ensures res.Refused? && source in old(pools) ==>
                || (res.reason == KeyTaken && key in old(pools))
                || Refusal(old(rows), seen, source, old(pools)[source], ones, SPACE_ALL, PoolOf(key), PoolOf(key),
                           res.reason)
                || (&& Materialised(old(rows), seen, source, old(pools)[source], None)
                    && OwnRefusal(old(pools)[source].cidr, Blocks(seen, source, SPACE_ALL), ones, reservation,
                                  res.reason))
      ensures res.Done? ==>
                && key !in old(pools) && source in old(pools)
                && Grants(old(rows), seen, source, old(pools)[source], ones, SPACE_ALL, PoolOf(key), PoolOf(key),
                          res.value)
                && floors == old(floors)
                && pools == old(pools)[key := Pool(project, res.value, Default, reservation, Some(source), old(clock))]
                && Materialised(seen[PoolOf(key) := Carved(key, source, res.value, digest)], rows, key, pools[key],
                                None)
    {
      hide RowsInside, RowsApart, RowsKeyed, HoldersUnique, FloorsSound, TotalsExact, CarvesMatch, RootsApart;
      hide Grants, Refusal, Reserved, Materialised, OwnRefusal, OnlyCarvesAdded;
      var rows0, totals0, floors0, pools0, clock0 := rows, totals, floors, pools, clock;
      res, seen := CarveFromPool(key, source, ones, digest);
      if res.Done? && key in pools {
        res := Refused(KeyTaken);
      }
      if res.Refused? {
        rows, totals, floors := rows0, totals0, floors0;
        return;
      }
      GrantIsNew(rows0, seen, source, pools[source], ones, SPACE_ALL, PoolOf(key), PoolOf(key), res.value);
      var pool := Pool(project, res.value, Default, reservation, Some(source), clock);
      AddChild(key, pool, Carved(key, source, res.value, digest), rows0, seen);
      ghost var before := rows;
      var err := Materialise(key);
      if err.Some? {
        OwnRefusalAt(rows0, seen, source, pools0[source], ones, key, res.value, before, rows, pool, err.value);
        rows, totals, floors, pools, clock := rows0, totals0, floors0, pools0, clock0;
        return Refused(err.value), seen;
      }
      ReservedKeepsCarves(pools, before, rows, key);
      ReservedAddsNone(rows0, seen, source, PoolOf(key), Carved(key, source, res.value, digest));
      ReservedAfter(rows0, before, rows, key);
    }

    /** Deletes rows of one pool: every floor a row held up is lowered, then the
        total is brought down row by row. It stays exact exactly when no address
        is freed twice or none is left. */
    method DropRows(pool: string, ks: seq<Key>)
      requires RowsOk() && pool in pools && Distinct(ks)
      requires forall k :: k in ks ==> k in rows && rows[k].pool == pool
      modifies `rows, `floors, `totals
      ensures RowsSound() && rows == Without(old(rows), KeySet(ks))
      ensures RowsOk() <==> StaysExact(pools[pool].cidr, Blocks(rows, pool, SPACE_ALL), BlocksAt(old(rows), ks))
      ensures floors == LoweredAll(old(floors), old(rows), ks)
      ensures totals.Keys == old(totals).Keys && forall p :: p in totals && p != pool ==> totals[p] == old(totals)[p]
      ensures ks != [] ==> pool in totals && totals[pool] == AtLeastZero(old(totals)[pool]
                - FreedByAll(pools[pool].cidr, Blocks(rows, pool, SPACE_ALL), BlocksAt(old(rows), ks)))
    {
      hide Blocks, Cover, Pow2, Contains, RowsInside, RowsApart, RowsKeyed, HoldersUnique, FloorsSound, LoweredAll;
      hide FreedOnce, TotalsExact;
      ghost var before := rows;
      var released;
      rows, floors, released := DeleteEach(pools, rows, floors, ks);
      if |ks| == 0 {
        assert KeySet(ks) == {};
        assert rows == before;
        ApartFreeOnce(pools[pool].cidr, Blocks(rows, pool, SPACE_ALL), BlocksAt(before, ks));
        return;
      }
      PoolBlocksInside(pools, rows, pool, SPACE_ALL);
      ReleasedInside(pools, before, pool, ks);
      StoredTotal(pools, before, totals, ks[0]);
      var total := TotalAfterReleases(pools[pool].cidr, rows, pool, Some(totals[pool]), released);
      BlocksDropAll(before, ks, pool);
      ReleaseIsExact(pools[pool].cidr, Blocks(rows, pool, SPACE_ALL), released);
      DropKeepsTotals(pools, before, ks, totals, pool, total.value);
      totals := totals[pool := total.value];
    }

    /** Deletes the row with this key, if there is one. */
    method DropRow(k: Key)
      requires RowsOk()
      modifies `rows, `floors, `totals
      ensures RowsOk() && rows == Without(old(rows), {k})
      ensures floors == if k in old(rows) then Lowered(old(floors), old(rows)[k]) else old(floors)
      ensures forall p :: p in totals && (k in old(rows) ==> p != old(rows)[k].pool) ==>
                p in old(totals) && totals[p] == old(totals)[p]
    {
      hide RowsApart, RowsKeyed, HoldersUnique, FloorsSound, TotalsExact, Pow2, Contains;
      if k !in rows {
        WithoutMissing(rows, k);
        return;
      }
      assert KeySet([k]) == {k};
      OneLowered(floors, rows, k);
      DropRows(rows[k].pool, [k]);
    }

    /** Releases what a claim holds. A row kept under Retain only loses its
        claim; any other goes. Only a claim that holds no range may be released
        this way: the pool of a range would be left without its carve. */
    method Release(claim: string) returns (retained: seq<Key>)
      requires Valid()
      modifies `rows, `floors, `totals
      ensures RowsOk()
      ensures Valid() <==> !HoldsRange(old(rows), claim)
      ensures forall k :: k in rows ==> rows[k].holder != Some(Object(claim))
      ensures (forall k :: k in old(rows) ==> old(rows)[k].holder != Some(Object(claim))) ==>
                retained == [] && rows == old(rows) && floors == old(floors) && totals == old(totals)
      ensures forall k :: k in old(rows) && old(rows)[k].holder == Some(Object(claim)) ==>
                if old(rows)[k].policy == Retain
                then && retained == [k] && rows == old(rows)[k := old(rows)[k].(holder := None)]
                     && floors == old(floors) && totals == old(totals)
                else retained == [] && rows == Without(old(rows), {k}) && floors == Lowered(old(floors), old(rows)[k])
    {
      hide RowsInside, RowsApart, FloorsSound, TotalsExact, Pow2, Contains, CarvesMatch, Lowered, RootsApart;
      if k :| k in rows && rows[k].holder == Some(Object(claim)) {
        assert KeyFits(k, rows[k]);
        HeldRangeIsHere(rows, claim, k);
        if rows[k].policy == Retain {
          RebindKeepsRows(pools, rows, k, None);
          RebindKeepsHolders(rows, k, None);
          RebindKeepsCarves(pools, rows, k, None);
          RebindKeepsCaches(pools, rows, floors, totals, k, None);
          rows := rows[k := rows[k].(holder := None)];
          return [k];
        }
        DropKeepsCarvesExactly(pools, rows, k);
        DropRow(k);
        return [];
      }
      return [];
    }

    /** Releases one allocation by its own key. */
    method ReleaseAllocation(name: string)
      requires Valid()
      modifies `rows, `floors, `totals
      ensures Valid() && rows == Without(old(rows), {Object(name)})
      ensures floors == if Object(name) in old(rows) then Lowered(old(floors), old(rows)[Object(name)]) else old(floors)
    {
      hide RowsInside, RowsApart, RowsKeyed, HoldersUnique, FloorsSound, TotalsExact, Pow2, Contains, CarvesMatch;
      hide RootsApart;
      DropKeepsCarves(pools, rows, Object(name));
      DropRow(Object(name));
    }

    /** Makes a claim the holder of a provisioned pool's carve. */
    method BindScopeRange(pool: string, claim: string) returns (res: Outcome<Cidr>)
      requires Valid()
      modifies `rows
      ensures Valid()
      ensures res.Refused? ==> rows == old(rows)
      ensures res.Done? ==>
                && HasCarve(old(rows), pool) && old(rows)[PoolOf(pool)].holder == Some(PoolOf(pool))
                && rows == old(rows)[PoolOf(pool) := old(rows)[PoolOf(pool)].(holder := Some(Object(claim)))]
                && pool in pools && res.value == pools[pool].cidr
      ensures res == Refused(CarveMissing) <==> !HasCarve(old(rows), pool)
      ensures res == Refused(RangeHeld)
         <==> HasCarve(old(rows), pool) && old(rows)[PoolOf(pool)].holder != Some(PoolOf(pool))
      ensures res.Refused? ==> res.reason == CarveMissing || res.reason == RangeHeld || res.reason == KeyTaken
      ensures res == Refused(KeyTaken)
         <==> && HasCarve(old(rows), pool) && old(rows)[PoolOf(pool)].holder == Some(PoolOf(pool))
              && exists k :: k in old(rows) && old(rows)[k].holder == Some(Object(claim))
    {
      hide RowsInside, RowsApart, FloorsSound, TotalsExact, Pow2, Contains, HoldersUnique, RootsApart;
      var k := PoolOf(pool);
      if !HasCarve(rows, pool) {
        return Refused(CarveMissing);
      }
      if rows[k].holder != Some(k) {
        return Refused(RangeHeld);
      }
      if l :| l in rows && rows[l].holder == Some(Object(claim)) {
        return Refused(KeyTaken);
      }
      assert KeyFits(k, rows[k]);
      RebindKeepsRows(pools, rows, k, Some(Object(claim)));
      RebindKeepsHolders(rows, k, Some(Object(claim)));
      RebindKeepsCarves(pools, rows, k, Some(Object(claim)));
      RebindKeepsCaches(pools, rows, floors, totals, k, Some(Object(claim)));
      rows := rows[k := rows[k].(holder := Some(Object(claim)))];
      return Done(rows[k].block);
    }

    /** The pool whose range a claim holds. */
    method FindScopeRange(claim: string) returns (pool: Option<string>)
      requires Valid()
      ensures pool.Some? ==> HasCarve(rows, pool.value) && rows[PoolOf(pool.value)].holder == Some(Object(claim))
      ensures pool.None? <==> !HoldsRange(rows, claim)
      ensures forall q :: PoolOf(q) in rows && rows[PoolOf(q)].holder == Some(Object(claim)) ==> pool == Some(q)
    {
      hide RowsInside, RowsApart, FloorsSound, TotalsExact, CarvesMatch, RootsApart;
      if k :| k in rows && k.PoolOf? && rows[k].purpose == Carve && rows[k].holder == Some(Object(claim)) {
        assert PoolOf(k.pool) == k;
        return Some(k.pool);
      }
      forall q | PoolOf(q) in rows
        ensures rows[PoolOf(q)].holder != Some(Object(claim))
      {
        assert KeyFits(PoolOf(q), rows[PoolOf(q)]);
      }
      return None;
    }

    /** Deletes the positions a pool holds for itself. */
    method DropReserved(pool: string)
      requires RowsOk() && pool in pools
      modifies `rows, `floors, `totals
      ensures RowsOk() && rows == WithoutReserved(old(rows), pool)
    {
      hide Pow2, Contains, RowsInside, RowsApart, RowsKeyed, HoldersUnique, FloorsSound, TotalsExact;
      hide Blocks, FreedOnce, NoneOverlap;
      ghost var before := rows;
      var ks := ReservedKeys(rows, pool);
      ReservedNeverOverlap(rows, pool, ks);
      DropRows(pool, ks);
      ApartFreeOnce(pools[pool].cidr, Blocks(rows, pool, SPACE_ALL), BlocksAt(before, ks));
    }

    /** Deletes a pool that holds nothing, with its floors and total. */
    method DropObject(pool: string)
      requires RowsOk() && forall k :: k in rows ==> rows[k].pool != pool
      modifies `pools, `floors, `totals
      ensures RowsOk() && pools == old(pools) - {pool}
      ensures floors == FloorsWithout(old(floors), pool) && totals == old(totals) - {pool}
    {
      hide Pow2, Contains, RowsInside, RowsApart, RowsKeyed, HoldersUnique, FloorsSound, TotalsExact;
      RemoveKeepsRows(pools, rows, floors, totals, pool);
      pools := pools - {pool};
      floors := FloorsWithout(floors, pool);
      totals := totals - {pool};
    }

    /** Frees a pool that holds nothing but reserved positions: the positions,
        the carve in its source, and the pool with its floors and total. */
    method DropPool(pool: string)
      requires Valid() && pool in pools
      requires forall k :: k in rows && rows[k].pool == pool ==> rows[k].purpose == Reserve
      modifies this
      ensures Valid() && clock == old(clock)
      ensures pools == old(pools) - {pool} && rows == LeftAfter(old(rows), {pool})
    {
      hide Pow2, Contains, RowsInside, RowsApart, RowsKeyed, HoldersUnique, FloorsSound, TotalsExact, CarvesMatch;
      hide RootsApart;
      ghost var before := rows;
      DropReserved(pool);
      DropRow(PoolOf(pool));
      LeftInTwo(before, pool);
      PoolRemoved(pools, before, rows, pool);
      RemoveKeepsApart(pools, pool);
      DropObject(pool);
    }

    /** An operator deletes a pool that holds nothing but reserved positions. What
        the pool itself holds in its source goes with it; a range held by a claim
        stays behind. */
    method DeletePool(pool: string) returns (err: Option<Failed>)
      requires Valid()
      modifies this
      ensures RowsOk()
      ensures err == Some(PoolNotFound) <==> pool !in old(pools)
      ensures err == Some(RangeOccupied) <==>
                && pool in old(pools)
                && exists k :: k in old(rows) && old(rows)[k].pool == pool && old(rows)[k].purpose != Reserve
      ensures err.Some? ==> (err.value == PoolNotFound || err.value == RangeOccupied) && Valid()
                            && pools == old(pools) && rows == old(rows)
                            && floors == old(floors) && totals == old(totals)
      ensures err.None? ==> pools == old(pools) - {pool}
      ensures err.None? ==>
                var k := PoolOf(pool);
                var held := k in old(rows) && old(rows)[k].holder != Some(k);
                && rows == (if held then WithoutReserved(old(rows), pool) else LeftAfter(old(rows), {pool}))
                && (Valid() <==> !held)
    {
      hide Pow2, Contains, RowsInside, RowsApart, FloorsSound, TotalsExact, RootsApart, CarvesMatch, HoldersUnique;
      hide RowsKeyed;
      if pool !in pools {
        return Some(PoolNotFound);
      }
      if k :| k in rows && rows[k].pool == pool && rows[k].purpose != Reserve {
        return Some(RangeOccupied);
      }
      if !HeldByClaim(rows, pool) {
        DropPool(pool);
        return None;
      }
      CarveLeftBehind(pools, rows, pool);
      DropReserved(pool);
      DropObject(pool);
      return None;
    }

    /** Releases the tree of pools under a range: refused, at whatever depth, if
        any pool of it is occupied or it is too deep. */
    method ReleaseTree(pool: string, depth: nat) returns (err: Option<Failed>)
      requires Valid() && depth <= MAX_CHAIN_DEPTH + 1
      modifies this
      ensures err.None? <==> Clear(old(rows), pool, MAX_CHAIN_DEPTH - depth)
      ensures err.Some? ==> Hindered(old(rows), pool, MAX_CHAIN_DEPTH - depth, err.value)
      ensures err.None? ==> Valid() && clock == old(clock)
      ensures err.None? ==> pools == old(pools) - Tree(old(pools), old(rows), pool)
      ensures err.None? ==> rows == LeftAfter(old(rows), Tree(old(pools), old(rows), pool))
      decreases MAX_CHAIN_DEPTH + 1 - depth
    {
      hide Pow2, Contains, RowsApart, RowsKeyed, HoldersUnique, FloorsSound, TotalsExact, CarvesMatch, RootsApart;
      hide RowsInside, Tree, Vacant, Gone, Children, LeftAfter, Hindered, HoldsNoClaim;
      HinderedHere(rows, pool, MAX_CHAIN_DEPTH - depth);
      if depth > MAX_CHAIN_DEPTH {
        return Some(TreeTooDeep);
      }
      var children, occupants := ReadPool(rows, pool);
      if occupants > 0 {
        return Some(RangeOccupied);
      }
      ghost var pools0, rows0 := pools, rows;
      NoneGone(pools0, rows0, children);
      for i := 0 to |children|
        invariant Valid() && clock == old(clock)
        invariant pools == pools0 - Gone(pools0, rows0, children, i)
        invariant rows == LeftAfter(rows0, Gone(pools0, rows0, children, i))
        invariant forall j :: 0 <= j < i ==> Clear(rows0, children[j], MAX_CHAIN_DEPTH - depth - 1)
      {
        TreeUnchanged(pools0, rows0, pool, children, i, MAX_CHAIN_DEPTH - depth - 1);
        ghost var rows1 := rows;
        err := ReleaseTree(children[i], depth + 1);
        if err.Some? {
          assert children[i] in children;
          HinderedAbove(pools0, rows0, rows1, pool, children, i, MAX_CHAIN_DEPTH - depth, err.value);
          return;
        }
        GoneNext(pools0, rows0, children, i);
      }
      AllChildrenClear(rows0, pool, children, MAX_CHAIN_DEPTH - depth);
      if pool in pools {
        LeftInPool(pools0, rows0, pool, children);
        DropPool(pool);
        TreeIsGone(pools0, rows0, pool, children);
        LeftAfterBoth(rows0, Gone(pools0, rows0, children, |children|), {pool});
      } else {
        UnknownPool(pools0, rows0, pool, children);
      }
      return None;
    }

    /** Frees a range and every pool beneath it in one transaction. */
    method ReleaseScopeRange(pool: string) returns (err: Option<Failed>)
      requires Valid()
      modifies this
      ensures Valid()
      ensures err.None? <==> Releasable(old(rows), pool, MAX_CHAIN_DEPTH)
      ensures err.Some? ==> Hindered(old(rows), pool, MAX_CHAIN_DEPTH, err.value)
      ensures err.Some? ==> pools == old(pools) && rows == old(rows) && floors == old(floors) && totals == old(totals)
      ensures err.None? ==> pools == old(pools) - Tree(old(pools), old(rows), pool)
      ensures err.None? ==> rows == LeftAfter(old(rows), Tree(old(pools), old(rows), pool))
    {
      hide RowsApart, RowsKeyed, HoldersUnique, FloorsSound, TotalsExact, CarvesMatch, RootsApart, RowsInside, Tree;
      hide Clear, LeftAfter, Releasable, Hindered;
      ClearMeansReleasable(rows, pool, MAX_CHAIN_DEPTH);
      var pools0, rows0, floors0, totals0, clock0 := pools, rows, floors, totals, clock;
      err := ReleaseTree(pool, 0);
      if err.Some? {
        pools, rows, floors, totals, clock := pools0, rows0, floors0, totals0, clock0;
      }
    }
  }

  // ---- releasing a tree --------------------------------------------------

  method ReservedKeys(rows: Rows, pool: string) returns (ks: seq<Key>)
    ensures Distinct(ks)
    ensures forall k :: k in ks <==> k in rows && rows[k].pool == pool && rows[k].purpose == Reserve
  {
    ks := [];
    var todo := rows.Keys;
    while todo != {}
      invariant todo <= rows.Keys && Distinct(ks)
      invariant forall k :: k in ks <==> k in rows && k !in todo && rows[k].pool == pool && rows[k].purpose == Reserve
      decreases |todo|
    {
      var k :| k in todo;
      if rows[k].pool == pool && rows[k].purpose == Reserve {
        ks := ks + [k];
      }
      todo := todo - {k};
    }
  }

  /** What is inside a pool: its untaken carves, and how many rows stand in the
      way of releasing it. */
  method ReadPool(rows: Rows, pool: string) returns (children: seq<string>, occupants: nat)
    ensures ListsChildren(rows, pool, children) && forall c :: c in children <==> HoldsOwn(rows, pool, c)
    ensures occupants == 0 <==> Vacant(rows, pool)
    ensures occupants == 0 <==> HoldsNoClaim(rows, pool)
  {
    children, occupants := [], 0;
    var todo := rows.Keys;
    while todo != {}
      invariant todo <= rows.Keys
      invariant forall i, j :: 0 <= i < j < |children| ==> children[i] != children[j]
      invariant forall c ::
                  c in children
                  <==> PoolOf(c) in rows && PoolOf(c) !in todo && IsChild(PoolOf(c), rows[PoolOf(c)], pool)
      invariant occupants == 0 <==> forall k :: k in rows && k !in todo ==> !Occupant(k, rows[k], pool)
      decreases |todo|
    {
      var k :| k in todo;
      var r := rows[k];
      if r.pool == pool && r.purpose != Reserve {
        if k.PoolOf? && r.purpose == Carve && r.holder == Some(k) {
          children := children + [k.pool];
        } else {
          occupants := occupants + 1;
        }
      }
      todo := todo - {k};
    }
    ChildrenRead(rows, pool, children);
    VacantMeansNoClaim(rows, pool);
  }

  /** A refused release has its cause: a pool of the tree that holds a claim or a
      carve another holds, or a pool too deep. */
  ghost predicate Hindered(rows: Rows, pool: string, depth: int, reason: Failed) {
    match reason
    case RangeOccupied => exists path :: StandsInTheWay(rows, pool, depth, path, false)
    case TreeTooDeep => exists path :: StandsInTheWay(rows, pool, depth, path, true)
    case _ => false
  }

  lemma HinderedHere(rows: Rows, pool: string, depth: int)
    requires -1 <= depth
    ensures depth == -1 ==> Hindered(rows, pool, depth, TreeTooDeep)
    ensures 0 <= depth && !HoldsNoClaim(rows, pool) ==> Hindered(rows, pool, depth, RangeOccupied)
  {
    var path := [pool];
    assert depth == -1 ==> StandsInTheWay(rows, pool, depth, path, true);
    assert 0 <= depth && !HoldsNoClaim(rows, pool) ==> StandsInTheWay(rows, pool, depth, path, false);
  }

  lemma HinderedAbove(pools: Pools, rows: Rows, rows': Rows, pool: string, children: seq<string>, i: nat, depth: int,
                      reason: Failed)
    requires i < |children| && HoldsOwn(rows, pool, children[i])
    requires rows' == LeftAfter(rows, Gone(pools, rows, children, i)) && Hindered(rows', children[i], depth - 1, reason)
    ensures Hindered(rows, pool, depth, reason)
  {
    hide StandsInTheWay, HoldsOwn;
    var tooDeep := reason == TreeTooDeep;
    var path :| StandsInTheWay(rows', children[i], depth - 1, path, tooDeep);
    InTheWayAbove(rows, rows', pool, children[i], depth, path, tooDeep);
  }

  lemma ChildrenRead(rows: Rows, pool: string, children: seq<string>)
    requires forall c :: c in children <==> PoolOf(c) in rows && IsChild(PoolOf(c), rows[PoolOf(c)], pool)
    ensures forall c :: c in children <==> c in Children(rows, pool)
  {
    forall c | c in Children(rows, pool)
      ensures c in children
    {
      var k :| k in rows && IsChild(k, rows[k], pool) && k.pool == c;
      assert k == PoolOf(c);
    }
  }

  lemma ReservedNeverOverlap(rows: Rows, pool: string, ks: seq<Key>)
    requires RowsApart(rows) && Distinct(ks)
    requires forall k :: k in ks ==> k in rows && rows[k].pool == pool && rows[k].purpose == Reserve
    ensures NoneOverlap(BlocksAt(rows, ks))
  {
    hide Overlaps, Pow2;
    forall i, j | 0 <= i < j < |ks|
      ensures !Overlaps(BlocksAt(rows, ks)[i], BlocksAt(rows, ks)[j])
    {
      assert ks[i] in ks && ks[j] in ks;
    }
  }

  function WithoutReserved(rows: Rows, pool: string): Rows {
    map k | k in rows && !(rows[k].pool == pool && rows[k].purpose == Reserve) :: rows[k]
  }

  /** A claim, and not the pool itself, holds the pool's range. */
  predicate HeldByClaim(rows: Rows, pool: string) {
    PoolOf(pool) in rows && rows[PoolOf(pool)].holder != Some(PoolOf(pool))
  }

  lemma CarveLeftBehind(pools: Pools, rows: Rows, pool: string)
    requires HeldByClaim(rows, pool) && RowsKeyed(rows)
    ensures !CarvesMatch(pools - {pool}, WithoutReserved(rows, pool))
  {
    assert KeyFits(PoolOf(pool), rows[PoolOf(pool)]);
    assert PoolOf(pool) in WithoutReserved(rows, pool) && pool !in pools - {pool};
  }

  lemma LeftInTwo(rows: Rows, pool: string)
    requires forall k :: k in rows && rows[k].pool == pool ==> rows[k].purpose == Reserve
    ensures Without(WithoutReserved(rows, pool), {PoolOf(pool)}) == LeftAfter(rows, {pool})
  {
  }

  lemma PoolRemoved(pools: Pools, before: Rows, rows: Rows, pool: string)
    requires CarvesMatch(pools, before) && rows == LeftAfter(before, {pool})
    requires forall k :: k in before && before[k].pool == pool ==> before[k].purpose == Reserve
    requires RowsKeyed(before)
    ensures CarvesMatch(pools - {pool}, rows)
  {
    forall q | q in pools
      ensures pools[q].source != Some(pool)
    {
    }
  }

  function FloorsWithout(floors: Floors, pool: string): Floors {
    map x | x in floors && x.0 != pool :: floors[x]
  }

  lemma RemoveKeepsRows(pools: Pools, rows: Rows, floors: Floors, totals: map<string, int>, pool: string)
    requires RowsInside(pools, rows) && TotalsExact(pools, rows, totals) && FloorsSound(pools, rows, floors)
    requires forall k :: k in rows ==> rows[k].pool != pool
    ensures RowsInside(pools - {pool}, rows) && TotalsExact(pools - {pool}, rows, totals - {pool})
    ensures FloorsSound(pools - {pool}, rows, FloorsWithout(floors, pool))
  {
    hide Pow2, Contains, Blocks, Cover, FloorSound;
  }

  lemma NoneGone(pools: Pools, rows: Rows, children: seq<string>)
    ensures Gone(pools, rows, children, 0) == {} && LeftAfter(rows, {}) == rows && pools - {} == pools
  {
  }

  lemma GoneNext(pools: Pools, rows: Rows, children: seq<string>, i: nat)
    requires i < |children|
    ensures var gone, tree := Gone(pools, rows, children, i), Tree(pools, rows, children[i]);
            && Gone(pools, rows, children, i + 1) == gone + tree
            && pools - gone - tree == pools - (gone + tree)
            && LeftAfter(LeftAfter(rows, gone), tree) == LeftAfter(rows, gone + tree)
  {
    LeftAfterBoth(rows, Gone(pools, rows, children, i), Tree(pools, rows, children[i]));
  }

  lemma AllChildrenClear(rows: Rows, p: string, children: seq<string>, fuel: int)
    requires ListsChildren(rows, p, children) && 0 <= fuel && Vacant(rows, p)
    requires forall j :: 0 <= j < |children| ==> Clear(rows, children[j], fuel - 1)
    ensures Clear(rows, p, fuel)
  {
    forall c | c in Children(rows, p)
      ensures Clear(rows, c, fuel - 1)
    {
      assert c in children;
    }
  }

  /** Once its children are gone a vacant pool holds only reserved positions. */
  lemma LeftInPool(pools: Pools, rows: Rows, p: string, children: seq<string>)
    requires ListsChildren(rows, p, children) && Vacant(rows, p) && CarvesMatch(pools, rows)
    ensures var rest := LeftAfter(rows, Gone(pools, rows, children, |children|));
            forall k :: k in rest && rest[k].pool == p ==> rest[k].purpose == Reserve
  {
    var gone := Gone(pools, rows, children, |children|);
    forall k | k in LeftAfter(rows, gone) && rows[k].pool == p
      ensures rows[k].purpose == Reserve
    {
      assert !Occupant(k, rows[k], p);
      if IsChild(k, rows[k], p) {
        assert k.pool in Children(rows, p);
        assert k.pool in children;
        var j :| 0 <= j < |children| && children[j] == k.pool;
        assert Reaches(rows, k.pool, k.pool, 0);
        assert k == PoolOf(k.pool);
        GoneHas(pools, rows, children, j, |children|, k.pool);
        assert false;
      }
    }
  }

  lemma UnknownPool(pools: Pools, rows: Rows, p: string, children: seq<string>)
    requires ListsChildren(rows, p, children) && RowsInside(pools, rows) && CarvesMatch(pools, rows)
    requires p !in pools - Gone(pools, rows, children, |children|)
    ensures Tree(pools, rows, p) == Gone(pools, rows, children, |children|)
  {
    if p in pools {
      var j := GoneBy(pools, rows, children, |children|, p);
      assert children[j] in children;
      var m: nat :| Reaches(rows, children[j], p, m);
      OlderOutside(pools, rows, p, children[j], m);
      assert false;
    }
    if children != [] {
      assert children[0] in children;
      ChildCarve(rows, p, children[0]);
      assert false;
    }
    assert Children(rows, p) == {};
    forall q, n: nat
      ensures Reaches(rows, p, q, n) ==> q == p
    {
    }
  }

  lemma WithoutMissing(rows: Rows, k: Key)
    requires k !in rows
    ensures Without(rows, {k}) == rows
  {
  }

  lemma OneLowered(floors: Floors, rows: Rows, k: Key)
    requires k in rows
    ensures LoweredAll(floors, rows, [k]) == Lowered(floors, rows[k])
  {
    assert [k][..0] == [];
    assert LoweredAll(floors, rows, [k][..0]) == floors;
  }

  lemma DropKeepsCarves(pools: Pools, rows: Rows, k: Key)
    requires CarvesMatch(pools, rows) && !k.PoolOf?
    ensures CarvesMatch(pools, Without(rows, {k}))
  {
  }

  lemma DropKeepsCarvesExactly(pools: Pools, rows: Rows, k: Key)
    requires CarvesMatch(pools, rows) && k in rows
    ensures CarvesMatch(pools, Without(rows, {k})) <==> !k.PoolOf?
  {
    if k.PoolOf? {
      assert k.pool in pools && pools[k.pool].source.Some?;
      assert PoolOf(k.pool) == k && k !in Without(rows, {k});
    }
  }

  /** A child pool held as a claim has no carve a claim could take. */
  predicate HasCarve(rows: Rows, pool: string) {
    PoolOf(pool) in rows && rows[PoolOf(pool)].purpose == Carve
  }

  ghost predicate HoldsRange(rows: Rows, claim: string) {
    exists q :: PoolOf(q) in rows && rows[PoolOf(q)].holder == Some(Object(claim))
  }

  /** A claim holds one row, so if that is no range it holds none. */
  lemma HeldRangeIsHere(rows: Rows, claim: string, k: Key)
    requires HoldersUnique(rows) && k in rows && rows[k].holder == Some(Object(claim))
    ensures HoldsRange(rows, claim) <==> k.PoolOf?
  {
    if k.PoolOf? {
      assert PoolOf(k.pool) == k;
    }
  }

  // ---- deleting rows -----------------------------------------------------

  ghost predicate Distinct(ks: seq<Key>) {
    forall i, j :: 0 <= i < j < |ks| ==> ks[i] != ks[j]
  }

  ghost function KeySet(ks: seq<Key>): set<Key> {
    set k | k in ks
  }

  /** The delete statement: each row removed fires the floor trigger. */
  method DeleteEach(ghost pools: Pools, rows: Rows, floors: Floors, ks: seq<Key>)
    returns (rows': Rows, floors': Floors, released: seq<Cidr>)
    requires RowsInside(pools, rows) && RowsApart(rows) && RowsKeyed(rows) && HoldersUnique(rows)
    requires FloorsSound(pools, rows, floors)
    requires Distinct(ks) && forall k :: k in ks ==> k in rows
    ensures rows' == Without(rows, KeySet(ks)) && floors' == LoweredAll(floors, rows, ks)
    ensures released == BlocksAt(rows, ks)
    ensures RowsInside(pools, rows') && RowsApart(rows') && RowsKeyed(rows') && HoldersUnique(rows')
    ensures FloorsSound(pools, rows', floors')
  {
    hide Pow2, RowsInside, RowsApart, RowsKeyed, HoldersUnique, FloorsSound, Lowered, Without;
    rows', floors', released := rows, floors, [];
    WithoutNone(rows);
    for i := 0 to |ks|
      invariant RowsInside(pools, rows') && RowsApart(rows') && RowsKeyed(rows') && HoldersUnique(rows')
      invariant FloorsSound(pools, rows', floors')
      invariant rows' == Without(rows, KeySet(ks[..i]))
      invariant released == BlocksAt(rows, ks[..i]) && floors' == LoweredAll(floors, rows, ks[..i])
    {
      assert ks[..i + 1][..i] == ks[..i];
      WithoutNext(rows, ks, i);
      DropKeepsFloors(pools, rows', floors', ks[i]);
      DropKeepsRows(pools, rows', {ks[i]});
      released := released + [rows'[ks[i]].block];
      floors' := Lowered(floors', rows'[ks[i]]);
      rows' := Without(rows', {ks[i]});
    }
    assert ks[..|ks|] == ks;
  }

  lemma WithoutNone(rows: Rows)
    ensures Without(rows, KeySet([])) == rows
  {
  }

  ghost function BlocksAt(rows: Rows, ks: seq<Key>): (bs: seq<Cidr>)
    requires forall k :: k in ks ==> k in rows
    ensures |bs| == |ks|
  {
    seq(|ks|, i requires 0 <= i < |ks| => assert ks[i] in ks; rows[ks[i]].block)
  }

  ghost function LoweredAll(floors: Floors, rows: Rows, ks: seq<Key>): Floors
    requires forall k :: k in ks ==> k in rows
  {
    if ks == [] then floors
    else assert ks[|ks| - 1] in ks; Lowered(LoweredAll(floors, rows, ks[..|ks| - 1]), rows[ks[|ks| - 1]])
  }

  lemma WithoutNext(rows: Rows, ks: seq<Key>, i: nat)
    requires i < |ks| && Distinct(ks) && forall k :: k in ks ==> k in rows
    ensures ks[i] in Without(rows, KeySet(ks[..i])) && Without(rows, KeySet(ks[..i]))[ks[i]] == rows[ks[i]]
    ensures Without(Without(rows, KeySet(ks[..i])), {ks[i]}) == Without(rows, KeySet(ks[..i + 1]))
  {
    assert ks[i] in ks;
    assert forall k :: k in ks[..i + 1] <==> k in ks[..i] || k == ks[i];
  }

  lemma ReleasedInside(pools: Pools, rows: Rows, pool: string, ks: seq<Key>)
    requires RowsInside(pools, rows) && pool in pools
    requires forall k :: k in ks ==> k in rows && rows[k].pool == pool
    ensures forall b :: b in BlocksAt(rows, ks) ==> Contains(pools[pool].cidr, b)
  {
    hide Pow2, Contains;
    forall b | b in BlocksAt(rows, ks)
      ensures Contains(pools[pool].cidr, b)
    {
      var i :| 0 <= i < |ks| && BlocksAt(rows, ks)[i] == b;
      assert ks[i] in ks;
    }
  }

  /** What a pool held is what it still holds and what was released. */
  lemma BlocksDropAll(rows: Rows, ks: seq<Key>, pool: string)
    requires forall k :: k in ks ==> k in rows && rows[k].pool == pool
    ensures Blocks(rows, pool, SPACE_ALL)
         == Blocks(Without(rows, KeySet(ks)), pool, SPACE_ALL) + SetOf(BlocksAt(rows, ks))
  {
    var rest, bs := Without(rows, KeySet(ks)), BlocksAt(rows, ks);
    forall c | c in Blocks(rows, pool, SPACE_ALL)
      ensures c in Blocks(rest, pool, SPACE_ALL) || c in SetOf(bs)
    {
      var k :| k in rows && Occupies(rows[k], pool, SPACE_ALL) && rows[k].block == c;
      if k in ks {
        var i :| 0 <= i < |ks| && ks[i] == k;
        assert bs[i] == c;
      } else {
        assert k in rest && rest[k] == rows[k];
      }
    }
    forall c | c in SetOf(bs)
      ensures c in Blocks(rows, pool, SPACE_ALL)
    {
      var i :| 0 <= i < |bs| && bs[i] == c;
      assert ks[i] in ks && ks[i] in rows && Occupies(rows[ks[i]], pool, SPACE_ALL);
    }
    forall c | c in Blocks(rest, pool, SPACE_ALL)
      ensures c in Blocks(rows, pool, SPACE_ALL)
    {
      var k :| k in rest && Occupies(rest[k], pool, SPACE_ALL) && rest[k].block == c;
      assert k in rows;
    }
  }

  lemma OtherBlocksStay(rows: Rows, ks: seq<Key>, pool: string, other: string)
    requires forall k :: k in ks ==> k in rows && rows[k].pool == pool
    requires other != pool
    ensures Blocks(Without(rows, KeySet(ks)), other, SPACE_ALL) == Blocks(rows, other, SPACE_ALL)
  {
    var rest := Without(rows, KeySet(ks));
    forall c | c in Blocks(rows, other, SPACE_ALL)
      ensures c in Blocks(rest, other, SPACE_ALL)
    {
      var k :| k in rows && Occupies(rows[k], other, SPACE_ALL) && rows[k].block == c;
      assert k in rest && rest[k] == rows[k];
    }
    forall c | c in Blocks(rest, other, SPACE_ALL)
      ensures c in Blocks(rows, other, SPACE_ALL)
    {
      var k :| k in rest && Occupies(rest[k], other, SPACE_ALL) && rest[k].block == c;
      assert k in rows;
    }
  }

  lemma StoredTotal(pools: Pools, rows: Rows, totals: map<string, int>, k: Key)
    requires TotalsExact(pools, rows, totals) && k in rows
    ensures rows[k].pool in totals && rows[k].pool in pools
    ensures totals[rows[k].pool] == |Cover(pools[rows[k].pool].cidr, Blocks(rows, rows[k].pool, SPACE_ALL))|
  {
  }

  /** What is left of an exact total is exact. */
  ghost predicate StaysExact(p: Cidr, kept: set<Cidr>, released: seq<Cidr>) {
    |Cover(p, kept)| == 0 || FreedOnce(p, kept, released)
  }

  lemma DropKeepsTotals(pools: Pools, rows: Rows, ks: seq<Key>, totals: map<string, int>, pool: string, total: int)
    requires TotalsExact(pools, rows, totals) && pool in pools
    requires forall k :: k in ks ==> k in rows && rows[k].pool == pool
    ensures TotalsExact(pools, Without(rows, KeySet(ks)), totals[pool := total])
       <==> total == |Cover(pools[pool].cidr, Blocks(Without(rows, KeySet(ks)), pool, SPACE_ALL))|
  {
    hide Blocks, Cover;
    forall p | p in totals && p != pool
      ensures Blocks(Without(rows, KeySet(ks)), p, SPACE_ALL) == Blocks(rows, p, SPACE_ALL)
    {
      OtherBlocksStay(rows, ks, pool, p);
    }
  }

  lemma ReservedNone(rows: Rows, pool: string)
    ensures Reserved(rows, rows, pool)
  {
  }

  /** Whatever child pools appear among the rows, they are carved. */
  ghost predicate OnlyCarvesAdded(before: Rows, after: Rows) {
    forall q :: PoolOf(q) in after ==>
      || after[PoolOf(q)].purpose == Carve
      || (PoolOf(q) in before && after[PoolOf(q)].purpose == before[PoolOf(q)].purpose)
  }

  lemma ReservedAddsNone(before: Rows, seen: Rows, pool: string, k: Key, r: Row)
    requires Reserved(before, seen, pool) && (k.PoolOf? ==> r.purpose == Carve)
    ensures OnlyCarvesAdded(before, seen[k := r])
  {
  }

  lemma ReservedAfter(before: Rows, mid: Rows, after: Rows, pool: string)
    requires OnlyCarvesAdded(before, mid) && Reserved(mid, after, pool)
    ensures OnlyCarvesAdded(before, after)
  {
  }

  /** A first-fit pool that reserves nothing. */
  predicate Plain(p: Pool, cidr: Cidr) {
    p.cidr == cidr && p.strategy == FirstFit && p.reservation.IsZero()
  }

  // ---- why an allocation is granted or refused ---------------------------

  /** Only a first-fit search of one space moves a floor, and only that space's. */
  ghost predicate FloorMoved(before: Floors, after: Floors, p: Pool, bs: set<Cidr>, x: (string, string)) {
    if WantsFirst(p.strategy) && x.1 != SPACE_ALL then
      && x in after && after == before[x := after[x]]
      && NextFloor(p.cidr, bs, FloorFrom(before, p.cidr, x), after[x])
    else after == before
  }

  ghost predicate SameBut(before: Floors, after: Floors, x: (string, string)) {
    forall y :: y != x ==> (y in before <==> y in after) && (y in before ==> after[y] == before[y])
  }

  /** Where a search starts: at the floor, or at the pool's base if there is none. */
  function FloorFrom(floors: Floors, p: Cidr, x: (string, string)): int {
    if x in floors then floors[x] else p.start
  }

  /** Whether a new row's key and claim are free, as the table's two unique
      constraints demand. */
  predicate KeyFree(rows: Rows, k: Key, holder: Key) {
    k !in rows && forall l :: l in rows ==> rows[l].holder != Some(holder)
  }

  /** The only pools whose first-fit search can fail outright. */
  ghost predicate MaySearchFail(p: Pool, rows: Rows) {
    WantsFirst(p.strategy) && (p.cidr.Last() + 1 == Pow2(Width(p.cidr.family)) || PAGE_LIMIT <= |rows|)
  }

  /** The block handed out, against the rows the search saw. */
  ghost predicate Grants(before: Rows, seen: Rows, pool: string, p: Pool, ones: int, space: string, k: Key,
                         holder: Key, b: Cidr) {
    && Materialised(before, seen, pool, p, None)
    && k !in seen && (forall l :: l in seen ==> seen[l].holder != Some(holder))
    && Fits(p.cidr, Blocks(seen, pool, space), ones, b)
    && GivenBy(p.cidr, Blocks(seen, pool, space), ones, p.strategy, b)
  }

  /** Each refusal has its cause: a reservation the pool cannot express, no block
      that fits, a search that may fail, or a key in use. */
  ghost predicate Refusal(before: Rows, seen: Rows, pool: string, p: Pool, ones: int, space: string, k: Key,
                          holder: Key, reason: Failed) {
    match reason
    case BadReservation(_) => Materialised(before, seen, pool, p, Some(reason))
    case NoSpace => Materialised(before, seen, pool, p, None) && NoFit(p.cidr, Blocks(seen, pool, space), ones)
    case SearchFailed => Materialised(before, seen, pool, p, None) && MaySearchFail(p, seen)
    case KeyTaken =>
      && Materialised(before, seen, pool, p, None)
      && (k in seen || exists l :: l in seen && seen[l].holder == Some(holder))
    case _ => false
  }

  lemma RefusalIsNotMissing(before: Rows, seen: Rows, pool: string, p: Pool, ones: int, space: string, k: Key,
                            holder: Key, reason: Failed)
    requires Refusal(before, seen, pool, p, ones, space, k, holder, reason)
    ensures reason != PoolNotFound
  {
  }

  lemma GrantIsNew(before: Rows, seen: Rows, pool: string, p: Pool, ones: int, space: string, k: Key, holder: Key,
                   b: Cidr)
    requires Grants(before, seen, pool, p, ones, space, k, holder, b)
    ensures k !in seen
  {
  }

  /** So a request with room, free keys and a reservation the pool can express is
      granted, whenever its search cannot fail. */
  lemma NothingElseRefuses(before: Rows, seen: Rows, pool: string, p: Pool, ones: int, space: string, k: Key,
                           holder: Key, reason: Failed)
    requires p.reservation.IsZero() && KeyFree(before, k, holder) && !MaySearchFail(p, before)
    requires !NoFit(p.cidr, Blocks(before, pool, space), ones)
    ensures !Refusal(before, seen, pool, p, ones, space, k, holder, reason)
  {
    hide NoFit, Blocks, MaySearchFail;
  }

  /** A block that fits, too small for the new pool's own reservation. */
  ghost predicate OwnRefusal(p: Cidr, bs: set<Cidr>, ones: int, reservation: Reservation, reason: Failed) {
    && reason.BadReservation? && !reservation.IsZero()
    && exists b: Cidr :: Fits(p, bs, ones, b) && Reserves(multiset([b]), reservation, Err(reason.reason))
  }

  lemma OwnRefusalAt(before: Rows, seen: Rows, source: string, p: Pool, ones: int, key: string, b: Cidr,
                     mid: Rows, after: Rows, pool: Pool, reason: Failed)
    requires Grants(before, seen, source, p, ones, SPACE_ALL, PoolOf(key), PoolOf(key), b)
    requires pool.cidr == b && Materialised(mid, after, key, pool, Some(reason))
    ensures Materialised(before, seen, source, p, None)
    ensures OwnRefusal(p.cidr, Blocks(seen, source, SPACE_ALL), ones, pool.reservation, reason)
  {
    hide Blocks, Fits, LowestFit, Reserves, Placed;
    var res :| Reserves(multiset([b]), pool.reservation, res) && PlacedAll(mid, after, key, res, Some(reason));
  }

  function SpaceToSearch(purpose: Purpose, digest: string): string {
    if purpose == Claim then digest else SPACE_ALL
  }

  /** A row is keyed by its allocation, or by its claim when none is named. */
  function KeyFor(claim: string, allocation: string): Key {
    Object(if allocation == "" then claim else allocation)
  }

  /** Another root of the project overlaps the range. */
  predicate MeetsRoot(pools: Pools, key: string, project: string, cidr: Cidr) {
    exists q :: q in pools && q != key && pools[q].source.None? && pools[q].project == project
                && Overlaps(cidr, pools[q].cidr)
  }

  lemma NewRootKeepsApart(pools: Pools, key: string, pool: Pool)
    requires RootsApart(pools) && key !in pools && pool.source.None? && !MeetsRoot(pools, key, pool.project, pool.cidr)
    ensures RootsApart(pools[key := pool])
  {
    hide Pow2, Overlaps;
    forall q | q in pools && pools[q].source.None? && pools[q].project == pool.project
      ensures !Overlaps(pool.cidr, pools[q].cidr) && !Overlaps(pools[q].cidr, pool.cidr)
    {
      OverlapIsSymmetric(pool.cidr, pools[q].cidr);
    }
  }

  lemma RemoveKeepsApart(pools: Pools, pool: string)
    requires RootsApart(pools)
    ensures RootsApart(pools - {pool})
  {
    hide Pow2, Overlaps;
  }

  lemma NewChildKeepsApart(pools: Pools, key: string, pool: Pool)
    requires RootsApart(pools) && key !in pools && pool.source.Some?
    ensures RootsApart(pools[key := pool])
  {
    hide Pow2, Overlaps;
  }

  /** The carve row of a provisioned pool, held by the pool itself. */
  function Carved(key: string, source: string, block: Cidr, digest: string): Row {
    Row(source, block, Carve, digest, Some(PoolOf(key)), Delete)
  }

  /** An empty digest names the space no refs separate. */
  function SpaceFor(digest: string): string {
    if digest == "" then EMPTY_SPACE else digest
  }

  lemma PlacedNone(rows: Rows, pool: string, bs: seq<Cidr>)
    ensures Placed(rows, rows, pool, bs, 0)
  {
  }

  lemma PlacedMeansReserved(before: Rows, after: Rows, pool: string, bs: seq<Cidr>)
    requires Placed(before, after, pool, bs, |bs|)
    ensures Reserved(before, after, pool)
  {
  }

  lemma NothingOverlaps(rows: Rows, pool: string, b: Cidr, overlapping: seq<Cidr>)
    requires forall c :: c in overlapping <==> c in Blocks(rows, pool, SPACE_ALL) && Overlaps(c, b)
    ensures overlapping == [] <==> Clears(Blocks(rows, pool, SPACE_ALL), b)
  {
    if overlapping != [] {
      assert overlapping[0] in overlapping;
    }
  }

  lemma PositionIsNew(before: Rows, after: Rows, pool: string, bs: seq<Cidr>, n: nat)
    requires RowsKeyed(before) && !HasReserved(before, pool) && Placed(before, after, pool, bs, n)
    requires n < |bs| && NoneOverlap(bs)
    ensures Position(pool, bs[n]) !in before && Position(pool, bs[n]) !in after
  {
    hide Pow2, Overlaps, Clears, Blocks;
    var k := Position(pool, bs[n]);
    assert k !in before;
    if k in after {
      var j :| 0 <= j < |bs[..n]| && bs[..n][j] == bs[n];
      assert bs[j] == bs[n];
      OverlapsItself(bs[n]);
      assert false;
    }
  }

  lemma BaseIsSound(p: Cidr, bs: set<Cidr>)
    ensures FloorSound(p, bs, p.start)
  {
  }
}
