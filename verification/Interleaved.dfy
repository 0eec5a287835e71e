/** Releases and allocations that overlap in time.

    A release deletes its rows first, and only then locks the pools they were in.
    Until it commits, everyone else still reads the rows as held, and only the
    floor rows its trigger updated are locked. Every other operation locks its
    pool before it reads, and is one step here. */
module Interleaved {
  import opened Common
  import opened Cidr
  import opened Reservations
  import opened Allocation
  import opened Tables
  import opened Lookup
  import opened Totals
  import opened Store

  /** The tables as committed. */
  datatype Db = Db(pools: Pools, rows: Rows, floors: Floors, totals: map<string, int>)

  /** A release in flight: the rows it has deleted, in order, and the floor rows
      it has updated and so locked, with its own values for them. */
  datatype Release = Release(keys: seq<Key>, low: Floors)

  datatype World = World(db: Db, open: map<nat, Release>)

  datatype Step = AddPool(key: string, pool: Pool) | Add(k: Key, row: Row) | Raise(x: (string, string), floor: int)
                | Rebind(k: Key, holder: Option<Key>)
                | Delete(t: nat, k: Key) | Finish(t: nat, gone: set<string>) | Abort(t: nat)

  // ---- the steps ---------------------------------------------------------

  ghost predicate Takes(w: World, w': World, step: Step) {
    match step
    case AddPool(key, pool) => key !in w.db.pools && w' == w.(db := w.db.(pools := w.db.pools[key := pool]))
    case Add(k, r) => MayAdd(w.db, k, r) && w' == w.(db := Added(w.db, k, r))
    case Raise(x, floor) => MayRaise(w, x, floor) && w' == w.(db := w.db.(floors := w.db.floors[x := floor]))
    case Rebind(k, holder) => MayRebind(w, k, holder) && w' == w.(db := w.db.(rows := Bound(w.db.rows, k, holder)))
    case Delete(t, k) => MayDelete(w, t, k) && w' == w.(open := w.open[t := Deleted(w.db, OpenAt(w, t), k)])
    case Finish(t, gone) => MayFinish(w, t, gone) && w' == World(Finished(w.db, w.open[t], gone), w.open - {t})
    case Abort(t) => t in w.open && w' == w.(open := w.open - {t})
  }

  /** A claim, a carve or a reserved position, free among the committed rows. */
  ghost predicate MayAdd(db: Db, k: Key, r: Row) {
    && k !in db.rows && r.pool in db.pools && Contains(db.pools[r.pool].cidr, r.block) && KeyFits(k, r)
    && Clears(Blocks(db.rows, r.pool, SpaceOf(r)), r.block)
    && (r.holder.Some? ==> forall l :: l in db.rows ==> db.rows[l].holder != r.holder)
  }

  /** The row, and the pool's total with it. */
  ghost function Added(db: Db, k: Key, r: Row): Db
    requires r.pool in db.pools
  {
    var rows := db.rows[k := r];
    db.(rows := rows, totals := db.totals[r.pool := |Cover(db.pools[r.pool].cidr, Blocks(rows, r.pool, SPACE_ALL))|])
  }

  /** A first-fit search records where it got to. It waits while a release holds
      the floor row's lock. */
  ghost predicate MayRaise(w: World, x: (string, string), floor: int) {
    && x.0 in w.db.pools && x.1 != SPACE_ALL && !Locked(w, x)
    && var p := w.db.pools[x.0].cidr;
       NextFloor(p, Blocks(w.db.rows, x.0, x.1), FloorFrom(w.db.floors, p, x), floor)
  }

  ghost predicate Locked(w: World, x: (string, string)) {
    exists t :: t in w.open && x in w.open[t].low
  }

  /** A row gets or loses its claim, unless a release has deleted it. */
  ghost predicate MayRebind(w: World, k: Key, holder: Option<Key>) {
    && k in w.db.rows && (forall t :: t in w.open ==> k !in w.open[t].keys)
    && KeyFits(k, w.db.rows[k].(holder := holder))
    && (holder.Some? ==> forall l :: l in w.db.rows ==> w.db.rows[l].holder != holder)
  }

  function Bound(rows: Rows, k: Key, holder: Option<Key>): Rows
    requires k in rows
  {
    rows[k := rows[k].(holder := holder)]
  }

  function OpenAt(w: World, t: nat): Release {
    if t in w.open then w.open[t] else Release([], map[])
  }

  /** A release deletes a row, unless another has; the trigger waits for the floor
      rows another release holds. */
  ghost predicate MayDelete(w: World, t: nat, k: Key) {
    && k in w.db.rows && (forall u :: u in w.open ==> k !in w.open[u].keys)
    && forall u, x :: u in w.open && u != t && x in w.open[u].low ==> !Occupies(w.db.rows[k], x.0, x.1)
  }

  /** The release's own view of the floors. */
  function View(floors: Floors, low: Floors): Floors {
    map x | x in floors :: if x in low then low[x] else floors[x]
  }

  /** The trigger lowers the floor rows it finds, and so locks them. */
  function Deleted(db: Db, o: Release, k: Key): Release
    requires k in db.rows
  {
    var lowered := Lowered(View(db.floors, o.low), db.rows[k]);
    Release(o.keys + [k], map x | x in db.floors && (x in o.low || Occupies(db.rows[k], x.0, x.1)) :: lowered[x])
  }

  /** A release commits. The pools it deletes must be empty by then. */
  ghost predicate MayFinish(w: World, t: nat, gone: set<string>) {
    && t in w.open && gone <= w.db.pools.Keys
    && forall k :: k in w.db.rows && w.db.rows[k].pool in gone ==> k in w.open[t].keys
  }

  ghost function Finished(db: Db, o: Release, gone: set<string>): Db {
    Db(db.pools - gone, Without(db.rows, KeySet(o.keys)),
       map x | x in db.floors && x.0 !in gone :: View(db.floors, o.low)[x],
       Settled(db, o.keys) - gone)
  }

  /** The totals once the rows are gone, one row at a time: the stored total less
      what the row alone held. */
  ghost function Settled(db: Db, ks: seq<Key>): map<string, int> {
    if ks == [] then db.totals
    else
      var init, k := ks[..|ks| - 1], ks[|ks| - 1];
      var before := Settled(db, init);
      if k in db.rows && db.rows[k].pool in db.pools && db.rows[k].pool in before then
        var p := db.rows[k].pool;
        before[p := AtLeastZero(before[p] - Freed(db.pools[p].cidr, Blocks(Without(db.rows, KeySet(ks)), p, SPACE_ALL),
                                                  db.rows[k].block))]
      else before
  }

  // ---- what every step keeps ---------------------------------------------

  ghost predicate RowsRight(db: Db) {
    && RowsInside(db.pools, db.rows) && RowsApart(db.rows) && RowsKeyed(db.rows) && HoldersUnique(db.rows)
    && TotalsExact(db.pools, db.rows, db.totals)
  }

  ghost predicate FloorsPlaced(db: Db) {
    forall x :: x in db.floors ==> x.0 in db.pools && x.1 != SPACE_ALL && db.pools[x.0].cidr.start <= db.floors[x]
  }

  /** A release's rows are all still there, once each, and it has lowered the
      floors it locked no further than the pool's base. */
  ghost predicate OpenRight(db: Db, o: Release) {
    && Distinct(o.keys) && (forall k :: k in o.keys ==> k in db.rows)
    && (forall x :: x in o.low ==>
          x in db.floors && x.0 in db.pools && db.pools[x.0].cidr.start <= o.low[x] <= db.floors[x])
    && (forall x :: x in o.low ==> DeletedFrom(db, o, x.0))
  }

  ghost predicate DeletedFrom(db: Db, o: Release, pool: string) {
    exists k :: k in o.keys && k in db.rows && db.rows[k].pool == pool
  }

  ghost predicate Inv(w: World) {
    && RowsRight(w.db) && FloorsPlaced(w.db)
    && (forall t :: t in w.open ==> OpenRight(w.db, w.open[t]))
    && (forall t, u, k :: t in w.open && u in w.open && t != u && k in w.open[t].keys ==> k !in w.open[u].keys)
    && (forall t, u, x :: t in w.open && u in w.open && t != u && x in w.open[t].low ==> x !in w.open[u].low)
  }

  lemma {:induction false} SettledIsExact(db: Db, ks: seq<Key>)
    requires TotalsExact(db.pools, db.rows, db.totals) && RowsInside(db.pools, db.rows)
    requires Distinct(ks) && forall k :: k in ks ==> k in db.rows
    ensures TotalsExact(db.pools, Without(db.rows, KeySet(ks)), Settled(db, ks))
  {
    hide Blocks, Cover, Freed, TotalsExact, RowsInside;
    if ks == [] {
      assert Without(db.rows, KeySet(ks)) == db.rows;
    } else {
      var init, k := ks[..|ks| - 1], ks[|ks| - 1];
      assert forall l :: l in init ==> l in ks;
      SettledIsExact(db, init);
      assert ks == init + [k];
      assert k in ks && k !in init;
      SettleOne(db, Without(db.rows, KeySet(init)), Settled(db, init), k);
      assert Without(Without(db.rows, KeySet(init)), {k}) == Without(db.rows, KeySet(ks));
    }
  }

  lemma SettleOne(db: Db, rows: Rows, totals: map<string, int>, k: Key)
    requires TotalsExact(db.pools, rows, totals) && RowsInside(db.pools, db.rows) && k in db.rows && k in rows
    requires rows[k] == db.rows[k]
    ensures var p := rows[k].pool;
            && p in db.pools && p in totals
            && var kept := Blocks(Without(rows, {k}), p, SPACE_ALL);
               TotalsExact(db.pools, Without(rows, {k}),
                           totals[p := AtLeastZero(totals[p] - Freed(db.pools[p].cidr, kept, rows[k].block))])
  {
    hide Blocks, Cover, RowsApart;
    var p, rest := rows[k].pool, Without(rows, {k});
    var cidr, b := db.pools[p].cidr, rows[k].block;
    assert KeySet([k]) == {k};
    BlocksDrop(rows, k, p, SPACE_ALL);
    ReleaseIsExact(cidr, Blocks(rest, p, SPACE_ALL), [b]);
    assert SetOf([b]) == {b};
    FreedByOne(cidr, Blocks(rest, p, SPACE_ALL), b);
    var total := AtLeastZero(totals[p] - Freed(cidr, Blocks(rest, p, SPACE_ALL), b));
    DropKeepsTotals(db.pools, rows, [k], totals, p, total);
  }

  lemma FreedByOne(p: Cidr, kept: set<Cidr>, b: Cidr)
    ensures FreedByAll(p, kept, [b]) == Freed(p, kept, b) && FreedOnce(p, kept, [b])
  {
    assert [b][..0] == [];
  }

  lemma FinishKeepsRows(db: Db, o: Release, gone: set<string>)
    requires RowsRight(db) && OpenRight(db, o)
    requires forall k :: k in db.rows && db.rows[k].pool in gone ==> k in o.keys
    ensures RowsRight(Finished(db, o, gone))
  {
    SettledIsExact(db, o.keys);
    DropKeepsRows(db.pools, db.rows, KeySet(o.keys));
    EmptyPoolsGo(db.pools, Without(db.rows, KeySet(o.keys)), Settled(db, o.keys), gone);
  }

  lemma EmptyPoolsGo(pools: Pools, rows: Rows, totals: map<string, int>, gone: set<string>)
    requires RowsInside(pools, rows) && TotalsExact(pools, rows, totals)
    requires forall k :: k in rows ==> rows[k].pool !in gone
    ensures RowsInside(pools - gone, rows) && TotalsExact(pools - gone, rows, totals - gone)
  {
    hide Pow2, Contains, Blocks, Cover;
  }

  lemma KeepsRows(w: World, w': World, step: Step)
    requires Inv(w) && Takes(w, w', step)
    ensures RowsRight(w'.db)
  {
    hide Blocks, Cover, RowsInside, RowsApart, RowsKeyed, HoldersUnique, TotalsExact, Clears, Contains, KeyFits;
    hide NextFloor;
    hide Settled, FloorsPlaced;
    var db := w.db;
    match step
    case AddPool(key, pool) => NoFloors(db); NewPoolKeepsRows(db.pools, db.rows, map[], db.totals, key, pool);
    case Add(k, r) =>
      AddKeepsRows(db.pools, db.rows, k, r);
      AddKeepsHolders(db.rows, k, r);
      BlocksAdd(db.rows, k, r, r.pool, SPACE_ALL);
      AddKeepsTotals(db.pools, db.rows, db.totals, k, r, w'.db.totals[r.pool]);
    case Raise(_, _) =>
    case Rebind(k, holder) =>
      RebindKeepsRows(db.pools, db.rows, k, holder);
      RebindKeepsHolders(db.rows, k, holder);
      NoFloors(db);
      RebindKeepsCaches(db.pools, db.rows, map[], db.totals, k, holder);
    case Delete(_, _) =>
    case Finish(t, gone) => FinishKeepsRows(db, w.open[t], gone);
    case Abort(_) =>
  }

  lemma NoFloors(db: Db)
    ensures FloorsSound(db.pools, db.rows, map[])
  {
  }

  lemma KeepsPlaced(w: World, w': World, step: Step)
    requires Inv(w) && Takes(w, w', step)
    ensures FloorsPlaced(w'.db)
  {
    hide Blocks, Cover, RowsRight, Clears, Contains, KeyFits, Settled, Held;
    if step.Finish? {
      assert OpenRight(w.db, w.open[step.t]);
    }
  }

  /** What a step leaves to a release it is not part of. */
  ghost predicate LeavesAlone(db: Db, db': Db, o: Release) {
    && (forall k :: k in o.keys && k in db.rows ==> k in db'.rows && db'.rows[k] == db.rows[k])
    && (forall x :: x in o.low && x in db.floors ==> x in db'.floors && db'.floors[x] == db.floors[x])
    && (forall x :: x in o.low && x.0 in db.pools ==> x.0 in db'.pools && db'.pools[x.0] == db.pools[x.0])
  }

  lemma OpenStays(w: World, w': World, step: Step, u: nat)
    requires Inv(w) && Takes(w, w', step) && u in w.open
    requires step.Delete? || step.Finish? || step.Abort? ==> step.t != u
    ensures u in w'.open && w'.open[u] == w.open[u] && LeavesAlone(w.db, w'.db, w.open[u])
  {
    hide RowsRight, OpenRight, Finished, Deleted, FloorsPlaced, NextFloor, Clears, KeyFits, Contains, Blocks, Cover;
    hide LeavesAlone;
    match step
    case AddPool(_, _) => GrowsAlone(w.db, w'.db, w.open[u]);
    case Add(_, _) => GrowsAlone(w.db, w'.db, w.open[u]);
    case Raise(x, f) =>
      assert x !in w.open[u].low;
      RaisesAlone(w.db, x, f, w.open[u]);
    case Rebind(k, holder) => BindsAlone(w.db, k, holder, w.open[u]);
    case Delete(_, _) => GrowsAlone(w.db, w'.db, w.open[u]);
    case Finish(t, gone) => FinishesAlone(w.db, w.open[t], gone, w.open[u]);
    case Abort(_) => GrowsAlone(w.db, w'.db, w.open[u]);
  }

  lemma GrowsAlone(db: Db, db': Db, o: Release)
    requires db'.floors == db.floors
    requires forall k :: k in db.rows ==> k in db'.rows && db'.rows[k] == db.rows[k]
    requires forall q :: q in db.pools ==> q in db'.pools && db'.pools[q] == db.pools[q]
    ensures LeavesAlone(db, db', o)
  {
  }

  lemma RaisesAlone(db: Db, x: (string, string), f: int, o: Release)
    requires x !in o.low
    ensures LeavesAlone(db, db.(floors := db.floors[x := f]), o)
  {
  }

  lemma BindsAlone(db: Db, k: Key, holder: Option<Key>, o: Release)
    requires k in db.rows && k !in o.keys
    ensures LeavesAlone(db, db.(rows := Bound(db.rows, k, holder)), o)
  {
  }

  lemma FinishesAlone(db: Db, o: Release, gone: set<string>, other: Release)
    requires OpenRight(db, other) && forall k :: k in db.rows && db.rows[k].pool in gone ==> k in o.keys
    requires (forall k :: k in other.keys ==> k !in o.keys) && forall x :: x in other.low ==> x !in o.low
    ensures LeavesAlone(db, Finished(db, o, gone), other)
  {
    hide Settled, Pow2;
    forall x | x in other.low
      ensures x.0 !in gone
    {
      assert DeletedFrom(db, other, x.0);
    }
  }

  lemma LeftAlone(db: Db, db': Db, o: Release)
    requires OpenRight(db, o) && LeavesAlone(db, db', o)
    ensures OpenRight(db', o)
  {
    hide Pow2;
    forall x | x in o.low
      ensures DeletedFrom(db', o, x.0)
    {
      assert DeletedFrom(db, o, x.0);
      var k :| k in o.keys && k in db.rows && db.rows[k].pool == x.0;
      assert k in db'.rows && db'.rows[k].pool == x.0;
    }
  }

  lemma DeleteIsRight(db: Db, o: Release, k: Key)
    requires RowsInside(db.pools, db.rows) && FloorsPlaced(db) && OpenRight(db, o) && k in db.rows && k !in o.keys
    ensures OpenRight(db, Deleted(db, o, k))
  {
    hide Pow2, RowsInside, OpenRight, FloorsPlaced;
    var o' := Deleted(db, o, k);
    DeletedRows(db, o, k);
    forall x | x in o'.low
      ensures x in db.floors && x.0 in db.pools && db.pools[x.0].cidr.start <= o'.low[x] <= db.floors[x]
      ensures DeletedFrom(db, o', x.0)
    {
      DeletedFloor(db, o, k, x);
    }
    assert OpenRight(db, o') by {
      IsOpenRight(db, o');
    }
  }

  lemma IsOpenRight(db: Db, o: Release)
    requires Distinct(o.keys) && (forall k :: k in o.keys ==> k in db.rows)
    requires forall x :: x in o.low ==>
               x in db.floors && x.0 in db.pools && db.pools[x.0].cidr.start <= o.low[x] <= db.floors[x]
    requires forall x :: x in o.low ==> DeletedFrom(db, o, x.0)
    ensures OpenRight(db, o)
  {
  }

  lemma DeletedRows(db: Db, o: Release, k: Key)
    requires OpenRight(db, o) && k in db.rows && k !in o.keys
    ensures var o' := Deleted(db, o, k); Distinct(o'.keys) && forall l :: l in o'.keys ==> l in db.rows
  {
    hide Pow2;
    var ks := o.keys + [k];
    forall i, j | 0 <= i < j < |ks|
      ensures ks[i] != ks[j]
    {
      if j == |o.keys| {
        assert o.keys[i] in o.keys;
      }
    }
  }

  lemma DeletedFloor(db: Db, o: Release, k: Key, x: (string, string))
    requires RowsInside(db.pools, db.rows) && FloorsPlaced(db) && OpenRight(db, o) && k in db.rows
    requires x in Deleted(db, o, k).low
    ensures x in db.floors && x.0 in db.pools && db.pools[x.0].cidr.start <= Deleted(db, o, k).low[x] <= db.floors[x]
    ensures DeletedFrom(db, Deleted(db, o, k), x.0)
  {
    hide Pow2;
    var o' := Deleted(db, o, k);
    if x in o.low {
      assert DeletedFrom(db, o, x.0);
      var l :| l in o.keys && l in db.rows && db.rows[l].pool == x.0;
      assert l in o'.keys;
    } else {
      assert k in o'.keys && db.rows[k].pool == x.0;
    }
  }

  lemma StepKeepsInv(w: World, w': World, step: Step)
    requires Inv(w) && Takes(w, w', step)
    ensures Inv(w')
  {
    KeepsRows(w, w', step);
    KeepsPlaced(w, w', step);
    KeepsOpen(w, w', step);
    KeepsLocks(w, w', step);
  }

  lemma NothingIsRight(db: Db)
    ensures OpenRight(db, Release([], map[]))
  {
  }

  lemma KeepsOpen(w: World, w': World, step: Step)
    requires Inv(w) && Takes(w, w', step)
    ensures forall u :: u in w'.open ==> OpenRight(w'.db, w'.open[u])
  {
    hide FloorsPlaced, OpenRight, Finished, Added, MayAdd, MayRaise, MayRebind, MayFinish, Deleted;
    hide RowsInside, RowsApart, RowsKeyed, HoldersUnique, TotalsExact;
    forall u | u in w'.open
      ensures OpenRight(w'.db, w'.open[u])
    {
      if step.Delete? && step.t == u {
        NothingIsRight(w.db);
        assert OpenRight(w.db, OpenAt(w, u));
        DeleteIsRight(w.db, OpenAt(w, u), step.k);
      } else {
        OpenStays(w, w', step, u);
        LeftAlone(w.db, w'.db, w.open[u]);
      }
    }
  }

  lemma KeepsLocks(w: World, w': World, step: Step)
    requires Inv(w) && Takes(w, w', step)
    ensures forall t, u, k :: t in w'.open && u in w'.open && t != u && k in w'.open[t].keys ==> k !in w'.open[u].keys
    ensures forall t, u, x :: t in w'.open && u in w'.open && t != u && x in w'.open[t].low ==> x !in w'.open[u].low
  {
    hide RowsRight, FloorsPlaced, OpenRight, Finished, Added, MayAdd, MayRaise, MayRebind, MayFinish, Lowered, Occupies;
  }

  // ---- floors ------------------------------------------------------------

  ghost predicate SoundAt(db: Db, x: (string, string)) {
    && x in db.floors && x.0 in db.pools && x.1 != SPACE_ALL
    && FloorSound(db.pools[x.0].cidr, Blocks(db.rows, x.0, x.1), db.floors[x])
  }

  /** A row the release deleted lies below the floor it leaves: the trigger did
      not lower that floor for it. */
  ghost predicate Missed(db: Db, o: Release, x: (string, string)) {
    x in db.floors && exists k :: MissedBy(db, o, x, k)
  }

  ghost predicate MissedBy(db: Db, o: Release, x: (string, string), k: Key)
    requires x in db.floors
  {
    k in o.keys && k in db.rows && Occupies(db.rows[k], x.0, x.1) && db.rows[k].block.start < View(db.floors, o.low)[x]
  }

  /** The exact condition: a sound floor is sound after the commit if and only if
      it lies no higher than every row the release gives back to its space. */
  lemma FinishKeepsFloor(db: Db, o: Release, gone: set<string>, x: (string, string))
    requires RowsRight(db) && OpenRight(db, o) && SoundAt(db, x) && x.0 !in gone
    ensures SoundAt(Finished(db, o, gone), x) <==> !Missed(db, o, x)
  {
    hide Pow2, Settled, Blocks, RowsKeyed, HoldersUnique, TotalsExact, RowsInside, RowsApart, FloorSound, MissedBy;
    var p, f := db.pools[x.0].cidr, View(db.floors, o.low)[x];
    var rest := Without(db.rows, KeySet(o.keys));
    if k :| MissedBy(db, o, x, k) {
      LosesAddress(db, o, x, k);
    } else {
      KeepsAddresses(db, o, x);
    }
  }

  lemma LosesAddress(db: Db, o: Release, x: (string, string), k: Key)
    requires RowsInside(db.pools, db.rows) && RowsApart(db.rows) && SoundAt(db, x) && MissedBy(db, o, x, k)
    ensures !FloorSound(db.pools[x.0].cidr, Blocks(Without(db.rows, KeySet(o.keys)), x.0, x.1),
                        View(db.floors, o.low)[x])
  {
    hide Pow2;
    var p, rest := db.pools[x.0].cidr, Without(db.rows, KeySet(o.keys));
    var a := db.rows[k].block.start;
    forall c | c in Blocks(rest, x.0, x.1)
      ensures !Has(c, p.family, a)
    {
      var l :| l in rest && Occupies(rest[l], x.0, x.1) && rest[l].block == c;
      AloneInSpace(db.rows, k, l, x);
    }
    assert !Held(Blocks(rest, x.0, x.1), p.family, a) && Contains(p, db.rows[k].block);
  }

  /** Two rows that occupy one space do not overlap. */
  lemma AloneInSpace(rows: Rows, k: Key, l: Key, x: (string, string))
    requires RowsApart(rows) && k in rows && l in rows && k != l && x.1 != SPACE_ALL
    requires Occupies(rows[k], x.0, x.1) && Occupies(rows[l], x.0, x.1)
    ensures !Overlaps(rows[l].block, rows[k].block)
  {
    hide Overlaps, Pow2;
  }

  lemma KeepsAddresses(db: Db, o: Release, x: (string, string))
    requires RowsInside(db.pools, db.rows) && OpenRight(db, o) && SoundAt(db, x) && !Missed(db, o, x)
    ensures FloorSound(db.pools[x.0].cidr, Blocks(Without(db.rows, KeySet(o.keys)), x.0, x.1),
                       View(db.floors, o.low)[x])
  {
    hide Pow2;
    var p, rest, f := db.pools[x.0].cidr, Without(db.rows, KeySet(o.keys)), View(db.floors, o.low)[x];
    forall a | p.start <= a < f && a <= p.Last()
      ensures Held(Blocks(rest, x.0, x.1), p.family, a)
    {
      assert Held(Blocks(db.rows, x.0, x.1), p.family, a);
      var c :| c in Blocks(db.rows, x.0, x.1) && Has(c, p.family, a);
      var l :| l in db.rows && Occupies(db.rows[l], x.0, x.1) && db.rows[l].block == c;
      assert !MissedBy(db, o, x, l);
      assert l in rest;
    }
  }

  /** Every step keeps a sound floor sound and makes new floors sound, but for a
      commit that missed it. */
  lemma StepKeepsFloor(w: World, w': World, step: Step, x: (string, string))
    requires Inv(w) && Takes(w, w', step) && x in w'.db.floors && (x in w.db.floors ==> SoundAt(w.db, x))
    ensures SoundAt(w'.db, x) <==> !(step.Finish? && Missed(w.db, w.open[step.t], x))
  {
    hide Blocks, Cover, RowsInside, RowsApart, RowsKeyed, HoldersUnique, TotalsExact, Clears, Contains, KeyFits;
    hide NextFloor;
    hide Settled, FloorSound, OpenRight, FloorsPlaced, Missed;
    var db := w.db;
    match step
    case AddPool(_, _) =>
    case Add(k, r) =>
      BlocksAdd(db.rows, k, r, x.0, x.1);
      MoreHeld(db.pools[x.0].cidr, Blocks(db.rows, x.0, x.1), Blocks(w'.db.rows, x.0, x.1), db.floors[x]);
    case Raise(y, f) =>
      if x == y {
        RaisedIsSound(db, x, f);
      }
    case Rebind(k, holder) => RebindBlocks(db.rows, k, holder, x.0, x.1);
    case Delete(_, _) =>
    case Finish(t, gone) => FinishKeepsFloor(db, w.open[t], gone, x);
    case Abort(_) =>
  }

  lemma RaisedIsSound(db: Db, x: (string, string), f: int)
    requires x.0 in db.pools && x.1 != SPACE_ALL && (x in db.floors ==> SoundAt(db, x))
    requires NextFloor(db.pools[x.0].cidr, Blocks(db.rows, x.0, x.1), FloorFrom(db.floors, db.pools[x.0].cidr, x), f)
    ensures SoundAt(db.(floors := db.floors[x := f]), x)
  {
    hide Blocks, Pow2, Held;
  }

  // ---- every interleaved run ---------------------------------------------

  /** Tables with no release in flight and every floor sound. */
  ghost predicate Start(w: World) {
    Inv(w) && w.open == map[] && forall x :: x in w.db.floors ==> SoundAt(w.db, x)
  }

  ghost predicate IsRun(run: seq<World>, steps: seq<Step>) {
    && |run| == |steps| + 1 && Start(run[0])
    && forall i, j :: 0 <= i && j == i + 1 < |run| ==> Takes(run[i], run[j], steps[i])
  }

  lemma {:induction false} RunKeepsInv(run: seq<World>, steps: seq<Step>, n: nat)
    requires IsRun(run, steps) && n < |run|
    ensures Inv(run[n])
  {
    hide Inv, Takes;
    if n > 0 {
      var m := n - 1;
      RunKeepsInv(run, steps, m);
      assert Takes(run[m], run[n], steps[m]);
      StepKeepsInv(run[m], run[n], steps[m]);
    }
  }

  /** In every state of every interleaved run the rows lie in their pools, overlap
      only as claims of different spaces, and every total is exact. */
  lemma RowsAlwaysRight(run: seq<World>, steps: seq<Step>, n: nat)
    requires IsRun(run, steps) && n < |run|
    ensures RowsRight(run[n].db)
  {
    hide IsRun, RowsRight;
    RunKeepsInv(run, steps, n);
  }

  /** At step `j` the floor of a space appears while a release that has deleted a
      row of that space is in flight. */
  ghost predicate InWindow(run: seq<World>, j: nat, t: nat, k: Key, x: (string, string)) {
    && j + 1 < |run| && t in run[j].open && k in run[j].open[t].keys && k in run[j].db.rows
    && Occupies(run[j].db.rows[k], x.0, x.1) && x !in run[j].db.floors && x in run[j + 1].db.floors
  }

  /** The release has deleted the row and not committed. */
  ghost predicate Opened(w: World, t: nat, k: Key) {
    t in w.open && k in w.open[t].keys && k in w.db.rows
  }

  ghost predicate Affects(w: World, t: nat, k: Key, x: (string, string)) {
    Opened(w, t, k) && x in w.db.floors && Occupies(w.db.rows[k], x.0, x.1)
  }

  /** It has lowered the floor for the row. */
  ghost predicate LowFor(w: World, t: nat, k: Key, x: (string, string)) {
    Opened(w, t, k) && x in w.open[t].low && w.open[t].low[x] <= w.db.rows[k].block.start
  }

  /** The floor is lowered with the delete if it is there. */
  lemma StartsLow(w: World, w': World, step: Step, t: nat, k: Key, x: (string, string))
    requires Inv(w) && Takes(w, w', step) && Affects(w', t, k, x) && !Opened(w, t, k)
    ensures LowFor(w', t, k, x)
  {
    hide RowsRight, FloorsPlaced, Added, MayAdd, MayRaise, Settled;
    if t in w.open {
      assert OpenRight(w.db, w.open[t]);
      if (step.Delete? || step.Finish? || step.Abort?) && step.t == t {
      } else {
        OpenStays(w, w', step, t);
      }
    }
  }

  /** And stays so. */
  lemma StaysLow(w: World, w': World, step: Step, t: nat, k: Key, x: (string, string))
    requires Inv(w) && Takes(w, w', step) && Affects(w', t, k, x) && Opened(w, t, k)
    ensures Occupies(w.db.rows[k], x.0, x.1)
    ensures LowFor(w, t, k, x) ==> LowFor(w', t, k, x)
  {
    hide RowsRight, FloorsPlaced, Finished, Added, MayAdd, MayRaise, MayRebind, MayFinish, Settled, Deleted, OpenRight;
    if step.Delete? && step.t == t {
      assert OpenRight(w.db, w.open[t]);
      DeleteOnlyLowers(w.db, w.open[t], step.k, x);
    } else {
      OpenStays(w, w', step, t);
    }
  }

  lemma DeleteOnlyLowers(db: Db, o: Release, k: Key, x: (string, string))
    requires OpenRight(db, o) && k in db.rows
    ensures x in o.low ==> x in Deleted(db, o, k).low && Deleted(db, o, k).low[x] <= o.low[x]
    ensures forall l :: l in o.keys ==> l in Deleted(db, o, k).keys
  {
    hide Pow2;
  }

  lemma {:induction false} LowOrLate(run: seq<World>, steps: seq<Step>, n: nat, t: nat, k: Key, x: (string, string))
    requires IsRun(run, steps) && n < |run| && Affects(run[n], t, k, x)
    ensures LowFor(run[n], t, k, x) || exists j :: 0 <= j < n && InWindow(run, j, t, k, x)
  {
    hide Inv, Takes, LowFor;
    if n > 0 {
      var m := n - 1;
      RunKeepsInv(run, steps, m);
      assert Takes(run[m], run[n], steps[m]);
      if !Opened(run[m], t, k) {
        StartsLow(run[m], run[n], steps[m], t, k, x);
      } else {
        StaysLow(run[m], run[n], steps[m], t, k, x);
        if x in run[m].db.floors {
          LowOrLate(run, steps, m, t, k, x);
        } else {
          assert InWindow(run, m, t, k, x);
        }
      }
    }
  }

  /** A commit that misses a floor was in flight when the floor appeared. */
  lemma MissedMeansLate(run: seq<World>, steps: seq<Step>, m: nat, t: nat, x: (string, string)) returns (j: nat, k: Key)
    requires IsRun(run, steps) && m < |run| && t in run[m].open && Missed(run[m].db, run[m].open[t], x)
    ensures j < m && InWindow(run, j, t, k, x) && MissedBy(run[m].db, run[m].open[t], x, k)
  {
    hide IsRun;
    k :| MissedBy(run[m].db, run[m].open[t], x, k);
    LowOrLate(run, steps, m, t, k, x);
    j :| 0 <= j < m && InWindow(run, j, t, k, x);
  }

  /** Step `m` is the commit of a release that misses a floor which appeared at
      step `j`, inside its window. */
  ghost predicate LateCommit(run: seq<World>, steps: seq<Step>, j: nat, m: nat, x: (string, string))
    requires |run| == |steps| + 1
  {
    && j < m < |steps| && steps[m].Finish? && steps[m].t in run[m].open && x in run[m].db.floors
    && exists k :: InWindow(run, j, steps[m].t, k, x) && MissedBy(run[m].db, run[m].open[steps[m].t], x, k)
  }

  /** In every state of every interleaved run a floor is sound, unless it was
      created inside the window of a release whose commit then missed it. */
  lemma {:induction false} SoundUnlessLate(run: seq<World>, steps: seq<Step>, n: nat, x: (string, string))
    requires IsRun(run, steps) && n < |run| && x in run[n].db.floors
    ensures SoundAt(run[n].db, x) || exists j: nat, m: nat :: m < n && LateCommit(run, steps, j, m, x)
  {
    hide Inv, Takes, SoundAt, InWindow;
    if n > 0 {
      var m := n - 1;
      RunKeepsInv(run, steps, m);
      assert Takes(run[m], run[n], steps[m]);
      if x in run[m].db.floors {
        SoundUnlessLate(run, steps, m, x);
      }
      FinishIsOpen(run[m], run[n], steps[m]);
      if x in run[m].db.floors ==> SoundAt(run[m].db, x) {
        StepKeepsFloor(run[m], run[n], steps[m], x);
        if steps[m].Finish? && Missed(run[m].db, run[m].open[steps[m].t], x) {
          var j, k := MissedMeansLate(run, steps, m, steps[m].t, x);
          assert LateCommit(run, steps, j, m, x);
        }
      }
    }
  }

  lemma FinishIsOpen(w: World, w': World, step: Step)
    requires Takes(w, w', step)
    ensures step.Finish? ==> step.t in w.open
  {
  }

  /** So where no floor appears inside a window, as when a release locks before it
      deletes, every floor is sound throughout. */
  lemma SoundWithoutWindows(run: seq<World>, steps: seq<Step>, n: nat)
    requires IsRun(run, steps) && n < |run|
    requires forall j, t, k, x :: !InWindow(run, j, t, k, x)
    ensures FloorsSound(run[n].db.pools, run[n].db.rows, run[n].db.floors)
  {
    hide IsRun, InWindow, FloorSound;
    forall x | x in run[n].db.floors
      ensures SoundAt(run[n].db, x)
    {
      SoundUnlessLate(run, steps, n, x);
    }
  }

  /** A first-fit claim of the one-step model is a raise and an add. */
  lemma ClaimIsSteps(w: World, k: Key, r: Row, floors: Floors)
    requires MayAdd(w.db, k, r) && r.purpose == Claim && r.digest != SPACE_ALL && !Locked(w, (r.pool, r.digest))
    requires WantsFirst(w.db.pools[r.pool].strategy)
    requires FloorMoved(w.db.floors, floors, w.db.pools[r.pool], Blocks(w.db.rows, r.pool, r.digest),
                        (r.pool, r.digest))
    ensures var raised := w.(db := w.db.(floors := floors));
            && Takes(w, raised, Raise((r.pool, r.digest), floors[(r.pool, r.digest)]))
            && Takes(raised, raised.(db := Added(raised.db, k, r)), Add(k, r))
  {
    hide NextFloor, Blocks, Cover, Contains, Clears, KeyFits, Locked;
  }

  /** A release no one interrupts is the delete of the one-step model. */
  lemma AloneIsDrop(db: Db, k: Key)
    requires k in db.rows
    ensures var w := World(db, map[]);
            var o := Deleted(db, Release([], map[]), k);
            && Takes(w, w.(open := map[0 := o]), Step.Delete(0, k))
            && Takes(w.(open := map[0 := o]), World(Finished(db, o, {}), map[]), Finish(0, {}))
            && Finished(db, o, {}).rows == Without(db.rows, {k})
            && Finished(db, o, {}).floors == Lowered(db.floors, db.rows[k])
  {
    hide Settled;
    var w, o := World(db, map[]), Deleted(db, Release([], map[]), k);
    assert o.keys == [k] && KeySet([k]) == {k};
    assert w.open[0 := o] == map[0 := o] && map[0 := o] - {0} == map[];
    forall x | x in db.floors
      ensures View(db.floors, o.low)[x] == Lowered(db.floors, db.rows[k])[x]
    {
    }
  }

  // ---- a range that is lost ----------------------------------------------

  /** A block in the upper half of a range, which a first block leaves free. */
  function UpperBlock(p: Cidr, ones: nat): (b: Cidr)
    requires p.ones < ones <= Width(p.family)
    ensures b == Block(p.family, p.start + BlockSize(p.family, p.ones + 1), ones) && Contains(p, b)
  {
    UpperHalfFits(p, ones);
    Block(p.family, p.start + BlockSize(p.family, p.ones + 1), ones)
  }

  lemma UpperHalfFits(p: Cidr, ones: nat)
    requires p.ones < ones <= Width(p.family)
    ensures var b := Block(p.family, p.start + BlockSize(p.family, p.ones + 1), ones);
            b.Valid() && b.Last() <= p.Last()
  {
    hide Pow2;
    var w := Width(p.family);
    Pow2Doubles(w - p.ones - 1);
    CoarserIsFiner(p.start, w - p.ones - 1, w - p.ones);
    CoarserIsFiner(p.start, w - ones, w - p.ones - 1);
    Pow2Monotone(w - ones, w - p.ones - 1);
  }

  /** With its first block taken a range has room, and the next floor is past that
      block. */
  lemma AfterFirstBlock(p: Cidr, taken: nat, ones: nat)
    requires p.ones < taken <= Width(p.family) && p.ones < ones <= Width(p.family)
    ensures !NoFit(p, {FirstBlock(p, taken)}, ones)
    ensures forall f :: NextFloor(p, {FirstBlock(p, taken)}, p.start, f) ==> FirstBlock(p, taken).Last() < f
  {
    ShorterPrefixIsLarger(p.family, p.ones + 1, taken);
    hide Pow2;
    var c, b := FirstBlock(p, taken), UpperBlock(p, ones);
    assert Fits(p, {c}, ones, b);
    assert !Held({c}, p.family, b.start);
    forall f | p.start <= f <= c.Last()
      ensures !NextFloor(p, {c}, p.start, f)
    {
      assert Has(c, p.family, f);
    }
  }

  /** The tables of a store, with nothing in flight, can start a run. */
  lemma StoreStarts(s: Store)
    requires s.Valid()
    ensures Start(World(Db(s.pools, s.rows, s.floors, s.totals), map[]))
  {
    hide Blocks, Cover, RowsInside, RowsApart, RowsKeyed, HoldersUnique, TotalsExact, CarvesMatch, RootsApart;
    var db := Db(s.pools, s.rows, s.floors, s.totals);
    forall x | x in db.floors
      ensures SoundAt(db, x) && db.pools[x.0].cidr.start <= db.floors[x]
    {
    }
  }

  /** What occupies a space when there is one carve, or one carve and one claim. */
  lemma BlocksOfOne(k: Key, r: Row, pool: string, space: string)
    requires Occupies(r, pool, space)
    ensures Blocks(map[k := r], pool, space) == {r.block}
  {
    var rows := map[k := r];
    assert rows[k] == r;
  }

  /** A root with one range provisioned in it. */
  method PoolWithRange(root: Cidr, rangeOnes: int) returns (s: Store, range: Cidr)
    requires root.ones <= rangeOnes <= Width(root.family) && root.Last() + 1 != Pow2(Width(root.family))
    ensures fresh(s) && s.Valid() && range == FirstBlock(root, rangeOnes)
    ensures s.pools.Keys == {"root", "range"} && Plain(s.pools["root"], root)
    ensures s.rows == map[PoolOf("range") := Carved("range", "root", range, "")] && s.floors == map[]
  {
    hide Pow2, NoFit, LowestFit, Fits, RowsInside, RowsApart, RowsKeyed, HoldersUnique, FloorsSound, TotalsExact;
    hide CarvesMatch;
    hide RootsApart;
    s := new Store();
    var err := s.AuthorPool("root", "project", root, FirstFit, NOTHING_RESERVED);
    ghost var p, rows0 := s.pools["root"], s.rows;
    assert Blocks(rows0, "root", SPACE_ALL) == {};
    LowestOfEmpty(root, rangeOnes);
    var res, seen := s.Provision("range", "project", "root", rangeOnes, "", NOTHING_RESERVED);
    if res.Refused? {
      NothingElseRefuses(rows0, seen, "root", p, rangeOnes, SPACE_ALL, PoolOf("range"), PoolOf("range"), res.reason);
    }
    range := res.value;
  }

  /** The first claim of a space takes a block beside the range, and records a
      floor. */
  method ClaimBeside(s: Store, root: Cidr, rangeOnes: int, ones: int, digest: string) returns (block: Cidr, floor: int)
    requires s.Valid() && "root" in s.pools && Plain(s.pools["root"], root)
    requires root.ones < rangeOnes <= Width(root.family) && root.ones < ones <= Width(root.family)
    requires root.Last() + 1 != Pow2(Width(root.family)) && digest != "" && s.floors == map[]
    requires s.rows == map[PoolOf("range") := Carved("range", "root", FirstBlock(root, rangeOnes), "")]
    modifies s
    ensures s.Valid() && s.pools == old(s.pools) && s.floors == map[("root", digest) := floor]
    ensures var r := Row("root", block, Claim, digest, Some(Object("claim")), Policy.Delete);
            s.rows == old(s.rows)[Object("claim") := r]
    ensures Fits(root, {FirstBlock(root, rangeOnes)}, ones, block)
    ensures NextFloor(root, {FirstBlock(root, rangeOnes)}, root.start, floor)
  {
    hide Pow2, NoFit, LowestFit, Fits, RowsInside, RowsApart, RowsKeyed, HoldersUnique, FloorsSound, TotalsExact;
    hide CarvesMatch, RootsApart, NextFloor, Refusal;
    ghost var p, rows0 := s.pools["root"], s.rows;
    BlocksOfOne(PoolOf("range"), Carved("range", "root", FirstBlock(root, rangeOnes), ""), "root", digest);
    AfterFirstBlock(root, rangeOnes, ones);
    assert |rows0| == 1;
    var res, seen := s.AllocatePrefix("root", ones, "claim", "", digest, Policy.Delete);
    if res.Refused? {
      NothingElseRefuses(rows0, seen, "root", p, ones, digest, Object("claim"), Object("claim"), res.reason);
    }
    block, floor := res.value, s.floors[("root", digest)];
  }

  /** The release around that claim, step by step. */
  lemma LosingRun(db: Db, range: Cidr, digest: string, floor: int, r: Row) returns (run: seq<World>, steps: seq<Step>)
    requires Start(World(db, map[])) && db.floors == map[] && digest != SPACE_ALL && HasRange(db, range)
    requires IsClaim(db, range, digest, r)
    requires NextFloor(db.pools["root"].cidr, {range}, db.pools["root"].cidr.start, floor) && range.Last() < floor
    ensures IsRun(run, steps) && run[0] == World(db, map[])
    ensures steps == [Step.Delete(0, PoolOf("range")), Raise(("root", digest), floor), Add(Object("claim"), r),
                      Finish(0, {"range"})]
    ensures run[3].db.rows == db.rows[Object("claim") := r] && run[3].db.floors == map[("root", digest) := floor]
    ensures run[3].db.pools == db.pools
    ensures run[4].db.floors == map[("root", digest) := floor] && !SoundAt(run[4].db, ("root", digest))
  {
    hide Takes, Start, Finished, Added, NextFloor, SoundAt, Contains, Clears, Pow2;
    var x := ("root", digest);
    var o := Release([PoolOf("range")], map[]);
    var db2 := db.(floors := map[x := floor]);
    RangeDeleted(db, range);
    FloorAppears(db, o, range, digest, floor);
    ClaimAdded(db2, o, range, digest, r);
    var db3 := Added(db2, Object("claim"), r);
    RangeGone(db3, o, range, digest, floor, r);
    run := [World(db, map[]), World(db, map[0 := o]), World(db2, map[0 := o]), World(db3, map[0 := o]),
            World(Finished(db3, o, {"range"}), map[])];
    steps := [Step.Delete(0, PoolOf("range")), Raise(x, floor), Add(Object("claim"), r), Finish(0, {"range"})];
  }

  ghost predicate HasRange(db: Db, range: Cidr) {
    && "root" in db.pools && "range" in db.pools && Contains(db.pools["root"].cidr, range)
    && db.rows == map[PoolOf("range") := Carved("range", "root", range, "")]
  }

  ghost predicate IsClaim(db: Db, range: Cidr, digest: string, r: Row) {
    && r.pool == "root" && r.purpose == Claim && r.digest == digest && r.holder == Some(Object("claim"))
    && "root" in db.pools && Contains(db.pools["root"].cidr, r.block) && Clears({range}, r.block)
  }

  lemma RangeDeleted(db: Db, range: Cidr)
    requires HasRange(db, range) && db.floors == map[]
    ensures var o := Release([PoolOf("range")], map[]);
            Takes(World(db, map[]), World(db, map[0 := o]), Step.Delete(0, PoolOf("range")))
  {
    hide Pow2, Contains;
    var w, o := World(db, map[]), Release([PoolOf("range")], map[]);
    assert [] + [PoolOf("range")] == [PoolOf("range")];
    assert Deleted(db, OpenAt(w, 0), PoolOf("range")) == o;
    assert w.open[0 := o] == map[0 := o];
  }

  lemma FloorAppears(db: Db, o: Release, range: Cidr, digest: string, floor: int)
    requires HasRange(db, range) && db.floors == map[] && digest != SPACE_ALL && o.low == map[]
    requires NextFloor(db.pools["root"].cidr, {range}, db.pools["root"].cidr.start, floor)
    ensures var x := ("root", digest);
            Takes(World(db, map[0 := o]), World(db.(floors := map[x := floor]), map[0 := o]), Raise(x, floor))
  {
    hide Pow2, Contains, NextFloor, Blocks;
    BlocksOfOne(PoolOf("range"), Carved("range", "root", range, ""), "root", digest);
    assert db.floors[("root", digest) := floor] == map[("root", digest) := floor];
  }

  lemma ClaimAdded(db: Db, o: Release, range: Cidr, digest: string, r: Row)
    requires HasRange(db, range) && IsClaim(db, range, digest, r) && digest != SPACE_ALL
    ensures r.pool in db.pools
    ensures Takes(World(db, map[0 := o]), World(Added(db, Object("claim"), r), map[0 := o]), Add(Object("claim"), r))
    ensures Added(db, Object("claim"), r).rows == db.rows[Object("claim") := r]
    ensures Added(db, Object("claim"), r).pools == db.pools
    ensures Added(db, Object("claim"), r).floors == db.floors
  {
    hide Pow2, Contains, Blocks, Cover, Clears;
    BlocksOfOne(PoolOf("range"), Carved("range", "root", range, ""), "root", digest);
  }

  lemma RangeGone(db: Db, o: Release, range: Cidr, digest: string, floor: int, r: Row)
    requires IsClaim(db, range, digest, r) && "range" in db.pools && o == Release([PoolOf("range")], map[])
    requires db.rows == map[PoolOf("range") := Carved("range", "root", range, "")][Object("claim") := r]
    requires Contains(db.pools["root"].cidr, range) && range.Last() < floor
    requires db.floors == map[("root", digest) := floor]
    ensures Takes(World(db, map[0 := o]), World(Finished(db, o, {"range"}), map[]), Finish(0, {"range"}))
    ensures Finished(db, o, {"range"}).floors == db.floors && !SoundAt(Finished(db, o, {"range"}), ("root", digest))
  {
    hide Pow2, Settled;
    var after := Finished(db, o, {"range"});
    assert KeySet([PoolOf("range")]) == {PoolOf("range")};
    assert after.rows == map[Object("claim") := r];
    assert map[0 := o] - {0} == map[];
    BlocksOfOne(Object("claim"), r, "root", digest);
    assert !Held({r.block}, range.family, range.start);
  }

  /** A run in which a freed range is lost to a space: the release deletes the
      range's carve, the first claim of the space searches and records a floor
      past it, and the release commits. */
  method RangeIsLost(root: Cidr, rangeOnes: int, ones: int, digest: string)
    returns (s: Store, range: Cidr, ghost run: seq<World>, ghost steps: seq<Step>)
    requires root.ones < rangeOnes <= Width(root.family) && root.ones < ones <= Width(root.family)
    requires root.Last() + 1 != Pow2(Width(root.family)) && digest != ""
    ensures fresh(s) && s.Valid() && range == FirstBlock(root, rangeOnes)
    ensures IsRun(run, steps) && |steps| == 4 && steps[0] == Step.Delete(0, PoolOf("range"))
    ensures steps[3] == Finish(0, {"range"})
    ensures run[3].db.pools == s.pools && run[3].db.rows == s.rows && run[3].db.floors == s.floors
    ensures var db := run[4].db;
            && ("root", digest) in db.floors && !SoundAt(db, ("root", digest))
            && forall b: Cidr :: Contains(range, b) ==> b.start < db.floors[("root", digest)]
  {
    hide Pow2, Start, IsRun, NextFloor, Clears, Fits, RowsInside, RowsApart, RowsKeyed, HoldersUnique, FloorsSound;
    hide TotalsExact;
    hide CarvesMatch, RootsApart, SoundAt;
    s, range := PoolWithRange(root, rangeOnes);
    StoreStarts(s);
    ghost var db := Db(s.pools, s.rows, s.floors, s.totals);
    var block, floor := ClaimBeside(s, root, rangeOnes, ones, digest);
    AfterFirstBlock(root, rangeOnes, ones);
    FitsMeans(root, {range}, ones, block);
    run, steps := LosingRun(db, range, digest, floor, s.rows[Object("claim")]);
  }

  lemma FitsMeans(p: Cidr, bs: set<Cidr>, ones: int, b: Cidr)
    requires Fits(p, bs, ones, b)
    ensures Contains(p, b) && Clears(bs, b)
  {
  }
}
