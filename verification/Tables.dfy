/** The allocator's tables and what every operation keeps true of them. */
module Tables {
  import opened Common
  import opened Cidr
  import opened FreeSpace
  import opened Reservations
  import opened Allocation
  import opened Measure
  import opened Consumption

  // ---- the tables --------------------------------------------------------

  /** A row's allocation key: an allocation's or claim's own object, a child pool
      (the key of the row its range is held by), or a reserved position. */
  datatype Key = Object(name: string) | PoolOf(pool: string) | Position(pool: string, block: Cidr)

  datatype Purpose = Claim | Reserve | Carve

  datatype Policy = Delete | Retain

  /** `holder` is the claim bound to the row. A child pool's row is bound to the
      pool itself; a claim may take over a carve. */
  datatype Row = Row(pool: string, block: Cidr, purpose: Purpose, digest: string, holder: Option<Key>, policy: Policy)

  /** `project` owns the pool; `source` is the pool a child pool's range was taken
      from, none for a root; `created` orders pools by creation. */
  datatype Pool = Pool(project: string, cidr: Cidr, strategy: Strategy, reservation: Reservation,
                       source: Option<string>, created: nat)

  type Rows = map<Key, Row>
  type Pools = map<string, Pool>

  /** The search digest of a caller that must avoid every row of the pool. */
  const SPACE_ALL := ""

  /** Where the search of a pool's space may start. */
  type Floors = map<(string, string), int>

  /** Stands for the digest of the address space no refs separate. */
  const EMPTY_SPACE := "empty"

  /** Which rows a search treats as occupied: a claim's block belongs to one
      address space, reservations and carves block every space. */
  predicate Occupies(r: Row, pool: string, space: string) {
    r.pool == pool && (space == SPACE_ALL || r.purpose != Claim || r.digest == space)
  }

  ghost function Blocks(rows: Rows, pool: string, space: string): set<Cidr> {
    set k | k in rows && Occupies(rows[k], pool, space) :: rows[k].block
  }

  ghost predicate Held(bs: set<Cidr>, f: Family, a: int) {
    exists c :: c in bs && Has(c, f, a)
  }

  /** The distinct addresses of a range that blocks cover. */
  ghost function Cover(p: Cidr, bs: set<Cidr>): set<int> {
    set a: int | p.start <= a <= p.Last() && Held(bs, p.family, a)
  }

  // ---- what every operation keeps ----------------------------------------

  /** Each row lies inside its pool. */
  ghost predicate RowsInside(pools: Pools, rows: Rows) {
    forall k :: k in rows ==> rows[k].pool in pools && Contains(pools[rows[k].pool].cidr, rows[k].block)
  }

  /** Two rows of a pool overlap only if both are claims of different spaces. */
  predicate MayOverlap(r: Row, s: Row) {
    r.purpose == Claim && s.purpose == Claim && r.digest != s.digest
  }

  ghost predicate RowsApart(rows: Rows) {
    forall k, l ::
      k in rows && l in rows && k != l && rows[k].pool == rows[l].pool && Overlaps(rows[k].block, rows[l].block) ==>
        MayOverlap(rows[k], rows[l])
  }

  /** The key of a row says what the row is. */
  predicate KeyFits(k: Key, r: Row) {
    match k
    case Object(_) => r.purpose == Claim && r.digest != SPACE_ALL
    case PoolOf(_) => r.holder.Some? && r.policy == Delete
                      && (r.purpose == Carve || (r.purpose == Claim && r.digest == EMPTY_SPACE && r.holder == Some(k)))
    case Position(p, b) => r.purpose == Reserve && r.pool == p && r.block == b && r.holder.None?
  }

  ghost predicate RowsKeyed(rows: Rows) {
    forall k :: k in rows ==> KeyFits(k, rows[k])
  }

  /** A claim key is bound to one row at most. */
  ghost predicate HoldersUnique(rows: Rows) {
    forall k, l :: k in rows && l in rows && rows[k].holder.Some? && rows[k].holder == rows[l].holder ==> k == l
  }

  /** A child pool's range is exactly the row it has in its source, and sources
      come first. A provisioned pool has a carve, a pool an operator makes under
      another has a claim of the empty space. */
  ghost predicate CarvesMatch(pools: Pools, rows: Rows) {
    && (forall q :: q in pools && pools[q].source.Some? ==>
          && PoolOf(q) in rows && rows[PoolOf(q)].pool == pools[q].source.value
          && rows[PoolOf(q)].block == pools[q].cidr
          && pools[q].source.value in pools && pools[pools[q].source.value].created < pools[q].created)
    && (forall q :: PoolOf(q) in rows ==> q in pools && pools[q].source == Some(rows[PoolOf(q)].pool))
  }

  /** The roots of one project do not overlap. */
  ghost predicate RootsApart(pools: Pools) {
    forall p, q :: p in pools && q in pools && p != q && SiblingRoots(pools[p], pools[q]) ==>
      !Overlaps(pools[p].cidr, pools[q].cidr)
  }

  predicate SiblingRoots(p: Pool, q: Pool) {
    p.source.None? && q.source.None? && p.project == q.project
  }

  /** A stored total is the number of distinct addresses covered, and a pool with
      rows has one. */
  ghost predicate TotalsExact(pools: Pools, rows: Rows, totals: map<string, int>) {
    && (forall p :: p in totals ==> p in pools && totals[p] == |Cover(pools[p].cidr, Blocks(rows, p, SPACE_ALL))|)
    && (forall k :: k in rows ==> rows[k].pool in totals)
  }

  /** No address free in a space lies below that space's floor. */
  ghost predicate FloorSound(p: Cidr, bs: set<Cidr>, floor: int) {
    p.start <= floor && forall a :: p.start <= a < floor && a <= p.Last() ==> Held(bs, p.family, a)
  }

  /** The floor a search of a space leaves: the lowest free address at or above the
      one it started from, or that one if it found none free. */
  ghost predicate NextFloor(p: Cidr, bs: set<Cidr>, from: int, floor: int) {
    && from <= floor && (forall a :: from <= a < floor && a <= p.Last() ==> Held(bs, p.family, a))
    && ((floor <= p.Last() && !Held(bs, p.family, floor))
        || (floor == from && forall a :: from <= a <= p.Last() ==> Held(bs, p.family, a)))
  }

  ghost predicate FloorsSound(pools: Pools, rows: Rows, floors: Floors) {
    forall x :: x in floors ==> x.0 in pools && x.1 != SPACE_ALL
                                && FloorSound(pools[x.0].cidr, Blocks(rows, x.0, x.1), floors[x])
  }

  // ---- counting ----------------------------------------------------------

  ghost predicate Lists(bs: seq<Cidr>, blocks: set<Cidr>) {
    forall c :: c in bs <==> c in blocks
  }

  ghost predicate AllInside(p: Cidr, bs: set<Cidr>) {
    forall c :: c in bs ==> Contains(p, c)
  }

  lemma ListHolds(bs: seq<Cidr>, blocks: set<Cidr>, f: Family, a: int)
    requires Lists(bs, blocks)
    ensures Taken(bs, f, a) <==> Held(blocks, f, a)
  {
  }

  lemma ListSeen(p: Cidr, bs: seq<Cidr>, blocks: set<Cidr>)
    requires Lists(bs, blocks) && AllInside(p, blocks)
    ensures Lists(FilterWithin(p, bs), blocks)
  {
  }

  /** The measured count of a pool's blocks is the number of covered addresses. */
  lemma CountIsCover(p: Cidr, bs: seq<Cidr>, blocks: set<Cidr>)
    requires Lists(bs, blocks) && AllInside(p, blocks)
    ensures OccupiedCount([p], bs) == |Cover(p, blocks)|
  {
    ListSeen(p, bs, blocks);
    var seen := FilterWithin(p, bs);
    forall a
      ensures Taken(seen, p.family, a) <==> Held(blocks, p.family, a)
    {
      ListHolds(seen, blocks, p.family, a);
    }
    assert Occupied(p, seen) == Cover(p, blocks);
    assert [p][..0] == [];
    assert OccupiedCount([p][..0], bs) == 0;
  }

  /** The delta over the overlapping blocks is the change in the covered count. */
  lemma DeltaIsCover(p: Cidr, overlapping: seq<Cidr>, blocks: set<Cidr>, all: seq<Cidr>, b: Cidr)
    requires Lists(all, blocks) && AllInside(p, blocks) && Contains(p, b)
    requires forall c :: c in overlapping <==> c in blocks && Overlaps(c, b)
    ensures |Cover(p, blocks + {b})| == |Cover(p, blocks)| + Added([p], overlapping, b)
  {
    DeltaMaintainsTotal([p], overlapping, all, b);
    CountIsCover(p, all, blocks);
    CountIsCover(p, all + [b], blocks + {b});
  }

  ghost function SeqOf(blocks: set<Cidr>): (bs: seq<Cidr>)
    ensures Lists(bs, blocks)
  {
    if blocks == {} then [] else var b := Pick(blocks); [b] + SeqOf(blocks - {b})
  }

  // ---- adding a row ------------------------------------------------------

  lemma BlocksAdd(rows: Rows, k: Key, r: Row, pool: string, space: string)
    requires k !in rows
    ensures Blocks(rows[k := r], pool, space)
         == Blocks(rows, pool, space) + (if Occupies(r, pool, space) then {r.block} else {})
  {
    var rows' := rows[k := r];
    forall c | c in Blocks(rows, pool, space)
      ensures c in Blocks(rows', pool, space)
    {
      var l :| l in rows && Occupies(rows[l], pool, space) && rows[l].block == c;
      assert l in rows' && rows'[l] == rows[l];
    }
    if Occupies(r, pool, space) {
      assert k in rows' && rows'[k] == r;
    }
  }

  /** The space a new row must be free in. */
  function SpaceOf(r: Row): string {
    if r.purpose == Claim then r.digest else SPACE_ALL
  }

  ghost predicate Clears(bs: set<Cidr>, b: Cidr) {
    forall c :: c in bs ==> !Overlaps(c, b)
  }

  /** A new row free in its space keeps the rows inside, apart and keyed, and
      every floor sound. */
  lemma AddKeepsRows(pools: Pools, rows: Rows, k: Key, r: Row)
    requires RowsInside(pools, rows) && RowsApart(rows) && RowsKeyed(rows) && k !in rows
    requires r.pool in pools && Contains(pools[r.pool].cidr, r.block) && KeyFits(k, r)
    requires Clears(Blocks(rows, r.pool, SpaceOf(r)), r.block)
    ensures RowsInside(pools, rows[k := r]) && RowsApart(rows[k := r]) && RowsKeyed(rows[k := r])
  {
    hide Pow2, Contains, Blocks;
    forall l | l in rows && rows[l].pool == r.pool && Overlaps(rows[l].block, r.block)
      ensures MayOverlap(rows[l], r)
    {
      BlockListed(rows, l, SpaceOf(r));
    }
  }

  lemma BlockListed(rows: Rows, k: Key, space: string)
    requires k in rows
    ensures Occupies(rows[k], rows[k].pool, space) ==> rows[k].block in Blocks(rows, rows[k].pool, space)
  {
  }

  lemma AddKeepsHolders(rows: Rows, k: Key, r: Row)
    requires HoldersUnique(rows) && k !in rows
    requires r.holder.Some? ==> forall l :: l in rows ==> rows[l].holder != r.holder
    ensures HoldersUnique(rows[k := r])
  {
  }

  lemma AddKeepsFloors(pools: Pools, rows: Rows, floors: Floors, k: Key, r: Row)
    requires FloorsSound(pools, rows, floors) && k !in rows
    ensures FloorsSound(pools, rows[k := r], floors)
  {
    hide Blocks, Pow2, Has;
    forall x | x in floors
      ensures FloorSound(pools[x.0].cidr, Blocks(rows[k := r], x.0, x.1), floors[x])
    {
      BlocksAdd(rows, k, r, x.0, x.1);
      MoreHeld(pools[x.0].cidr, Blocks(rows, x.0, x.1), Blocks(rows[k := r], x.0, x.1), floors[x]);
    }
  }

  lemma MoreHeld(p: Cidr, bs: set<Cidr>, more: set<Cidr>, floor: int)
    requires FloorSound(p, bs, floor) && bs <= more
    ensures FloorSound(p, more, floor)
  {
    forall a | p.start <= a < floor && a <= p.Last()
      ensures Held(more, p.family, a)
    {
      assert Held(bs, p.family, a);
    }
  }

  lemma AddKeepsTotals(pools: Pools, rows: Rows, totals: map<string, int>, k: Key, r: Row, total: int)
    requires TotalsExact(pools, rows, totals) && k !in rows && r.pool in pools
    requires total == |Cover(pools[r.pool].cidr, Blocks(rows, r.pool, SPACE_ALL) + {r.block})|
    ensures TotalsExact(pools, rows[k := r], totals[r.pool := total])
  {
    hide Blocks, Cover;
    forall p | p in totals[r.pool := total]
      ensures p in pools
      ensures totals[r.pool := total][p] == |Cover(pools[p].cidr, Blocks(rows[k := r], p, SPACE_ALL))|
    {
      BlocksAdd(rows, k, r, p, SPACE_ALL);
      if p != r.pool {
        assert Blocks(rows[k := r], p, SPACE_ALL) == Blocks(rows, p, SPACE_ALL);
      }
    }
  }

  lemma AddKeepsCarves(pools: Pools, rows: Rows, k: Key, r: Row)
    requires CarvesMatch(pools, rows) && k !in rows && !k.PoolOf?
    ensures CarvesMatch(pools, rows[k := r])
  {
  }

  // ---- removing rows -----------------------------------------------------

  function Without(rows: Rows, ks: set<Key>): Rows {
    map k | k in rows && k !in ks :: rows[k]
  }

  /** The floors after a row is deleted: a claim lowers its own space's floor,
      any other row lowers every floor of the pool. */
  function Lowered(floors: Floors, r: Row): Floors {
    map x | x in floors :: if Occupies(r, x.0, x.1) && r.block.start < floors[x] then r.block.start else floors[x]
  }

  lemma DropKeepsRows(pools: Pools, rows: Rows, ks: set<Key>)
    requires RowsInside(pools, rows) && RowsApart(rows) && RowsKeyed(rows) && HoldersUnique(rows)
    ensures RowsInside(pools, Without(rows, ks)) && RowsApart(Without(rows, ks))
    ensures RowsKeyed(Without(rows, ks)) && HoldersUnique(Without(rows, ks))
  {
    hide Pow2, Contains, Overlaps, KeyFits, MayOverlap;
  }

  lemma BlocksDrop(rows: Rows, k: Key, pool: string, space: string)
    requires k in rows
    ensures Blocks(rows, pool, space)
         == Blocks(Without(rows, {k}), pool, space) + (if Occupies(rows[k], pool, space) then {rows[k].block} else {})
  {
    var rest := Without(rows, {k});
    assert rest[k := rows[k]] == rows;
    BlocksAdd(rest, k, rows[k], pool, space);
  }

  /** Deleting a row and lowering the floors it held keeps every floor sound. */
  lemma DropKeepsFloors(pools: Pools, rows: Rows, floors: Floors, k: Key)
    requires RowsInside(pools, rows) && FloorsSound(pools, rows, floors) && k in rows
    ensures FloorsSound(pools, Without(rows, {k}), Lowered(floors, rows[k]))
  {
    hide Blocks, Pow2;
    var rest, lowered := Without(rows, {k}), Lowered(floors, rows[k]);
    forall x | x in lowered
      ensures x.0 in pools && x.1 != SPACE_ALL && FloorSound(pools[x.0].cidr, Blocks(rest, x.0, x.1), lowered[x])
    {
      BlocksDrop(rows, k, x.0, x.1);
      if Occupies(rows[k], x.0, x.1) {
        StillHeld(pools[x.0].cidr, Blocks(rest, x.0, x.1), rows[k].block, floors[x], lowered[x]);
      } else {
        assert Blocks(rest, x.0, x.1) == Blocks(rows, x.0, x.1);
      }
    }
  }

  /** And no floor of a space is lowered further than it must be. */
  lemma LoweredNoFurther(pools: Pools, rows: Rows, floors: Floors, k: Key, x: (string, string), floor: int)
    requires RowsInside(pools, rows) && RowsApart(rows) && FloorsSound(pools, rows, floors) && k in rows && x in floors
    requires FloorSound(pools[x.0].cidr, Blocks(Without(rows, {k}), x.0, x.1), floor) && floor <= floors[x]
    ensures floor <= Lowered(floors, rows[k])[x]
  {
    hide Pow2, FloorsSound, Blocks;
    FloorHasPool(pools, rows, floors, x);
    if Occupies(rows[k], x.0, x.1) {
      FreedIsFree(rows, k, x.0, x.1);
    }
  }

  lemma FreedIsFree(rows: Rows, k: Key, pool: string, space: string)
    requires RowsApart(rows) && k in rows && Occupies(rows[k], pool, space) && space != SPACE_ALL
    ensures !Held(Blocks(Without(rows, {k}), pool, space), rows[k].block.family, rows[k].block.start)
  {
    hide Pow2;
    var b, rest := rows[k].block, Without(rows, {k});
    forall l | l in rest && Occupies(rest[l], pool, space)
      ensures !Has(rest[l].block, b.family, b.start)
    {
      assert Overlaps(b, rest[l].block) ==> MayOverlap(rows[k], rows[l]);
    }
  }

  lemma FloorHasPool(pools: Pools, rows: Rows, floors: Floors, x: (string, string))
    requires FloorsSound(pools, rows, floors) && x in floors
    ensures x.0 in pools && x.1 != SPACE_ALL
  {
  }

  lemma StillHeld(p: Cidr, rest: set<Cidr>, b: Cidr, floor: int, lowered: int)
    requires FloorSound(p, rest + {b}, floor) && lowered <= floor && lowered <= b.start && p.start <= lowered
    ensures FloorSound(p, rest, lowered)
  {
    forall a | p.start <= a < lowered && a <= p.Last()
      ensures Held(rest, p.family, a)
    {
      assert Held(rest + {b}, p.family, a);
      var c :| c in rest + {b} && Has(c, p.family, a);
    }
  }

  // ---- changing only a holder --------------------------------------------

  lemma RebindKeepsRows(pools: Pools, rows: Rows, k: Key, holder: Option<Key>)
    requires RowsInside(pools, rows) && RowsApart(rows) && k in rows
    ensures var rows' := rows[k := rows[k].(holder := holder)]; RowsInside(pools, rows') && RowsApart(rows')
  {
    hide Pow2, Overlaps, Contains;
  }

  lemma RebindKeepsHolders(rows: Rows, k: Key, holder: Option<Key>)
    requires RowsKeyed(rows) && HoldersUnique(rows)
    requires k in rows && KeyFits(k, rows[k].(holder := holder))
    requires holder.Some? ==> forall l :: l in rows ==> rows[l].holder != holder
    ensures var rows' := rows[k := rows[k].(holder := holder)]; RowsKeyed(rows') && HoldersUnique(rows')
  {
    hide KeyFits;
  }

  lemma RebindKeepsCarves(pools: Pools, rows: Rows, k: Key, holder: Option<Key>)
    requires CarvesMatch(pools, rows) && k in rows
    ensures CarvesMatch(pools, rows[k := rows[k].(holder := holder)])
  {
  }

  lemma RebindKeepsCaches(pools: Pools, rows: Rows, floors: Floors, totals: map<string, int>, k: Key,
                          holder: Option<Key>)
    requires TotalsExact(pools, rows, totals) && FloorsSound(pools, rows, floors) && k in rows
    ensures var rows' := rows[k := rows[k].(holder := holder)];
            TotalsExact(pools, rows', totals) && FloorsSound(pools, rows', floors)
  {
    hide Blocks, Cover, FloorSound;
    forall p, d
      ensures Blocks(rows[k := rows[k].(holder := holder)], p, d) == Blocks(rows, p, d)
    {
      RebindBlocks(rows, k, holder, p, d);
    }
  }

  lemma RebindBlocks(rows: Rows, k: Key, holder: Option<Key>, pool: string, space: string)
    requires k in rows
    ensures Blocks(rows[k := rows[k].(holder := holder)], pool, space) == Blocks(rows, pool, space)
  {
    var rows' := rows[k := rows[k].(holder := holder)];
    forall c
      ensures c in Blocks(rows', pool, space) <==> c in Blocks(rows, pool, space)
    {
      if c in Blocks(rows', pool, space) {
        var l :| l in rows' && Occupies(rows'[l], pool, space) && rows'[l].block == c;
        assert l in rows && Occupies(rows[l], pool, space) && rows[l].block == c;
      }
      if c in Blocks(rows, pool, space) {
        var l :| l in rows && Occupies(rows[l], pool, space) && rows[l].block == c;
        assert l in rows' && Occupies(rows'[l], pool, space) && rows'[l].block == c;
      }
    }
  }

  // ---- one tree of pools --------------------------------------------------

  /** Pools each carved from the one before. */
  ghost predicate IsPath(pools: Pools, path: seq<string>) {
    && path != []
    && (forall i :: 0 <= i < |path| ==> path[i] in pools)
    && (forall i, j :: 0 <= i && j == i + 1 < |path| ==> pools[path[j]].source == Some(path[i]))
  }

  lemma {:induction false} PathNarrows(pools: Pools, rows: Rows, path: seq<string>)
    requires IsPath(pools, path) && RowsInside(pools, rows) && CarvesMatch(pools, rows)
    ensures Contains(pools[path[0]].cidr, pools[path[|path| - 1]].cidr)
  {
    if |path| > 1 {
      PathTail(pools, path);
      PathNarrows(pools, rows, path[1..]);
      assert PoolOf(path[1]) in rows;
    }
  }

  lemma PathTail(pools: Pools, path: seq<string>)
    requires IsPath(pools, path) && |path| > 1
    ensures IsPath(pools, path[1..]) && path[1..][0] == path[1]
    ensures pools[path[1]].source == Some(path[0])
    ensures path[1..][|path[1..]| - 1] == path[|path| - 1]
  {
    var tail := path[1..];
    forall i, j | 0 <= i && j == i + 1 < |tail|
      ensures pools[tail[j]].source == Some(tail[i])
    {
      assert tail[i] == path[i + 1] && tail[j] == path[j + 1];
    }
  }

  lemma ApartInside(a: Cidr, b: Cidr, inner: Cidr)
    requires !Overlaps(a, b) && Contains(b, inner)
    ensures !Overlaps(a, inner) && !Overlaps(inner, a)
  {
    OverlapMeansShared(a, inner);
    OverlapMeansShared(a, b);
  }

  /** No other row of the source meets the range of child pool `q`. */
  ghost predicate RangeClear(rows: Rows, q: string) {
    PoolOf(q) in rows && forall k :: k in rows && k != PoolOf(q) && rows[k].pool == rows[PoolOf(q)].pool ==>
      !Overlaps(rows[k].block, rows[PoolOf(q)].block)
  }

  /** `k` is a claim of another space lying across the range of a child pool that
      is itself held as a claim. */
  ghost predicate Intrudes(rows: Rows, k: Key, q: string) {
    && k in rows && PoolOf(q) in rows && k != PoolOf(q) && rows[k].pool == rows[PoolOf(q)].pool
    && rows[PoolOf(q)].purpose == Claim && rows[k].purpose == Claim && rows[k].digest != EMPTY_SPACE
    && Overlaps(rows[k].block, rows[PoolOf(q)].block)
  }

  /** A child pool's range is clear of its source's other rows exactly when a
      carve holds it, or no claim of another space of the source meets it. */
  lemma ClearExactlyWhen(pools: Pools, rows: Rows, q: string)
    requires RowsApart(rows) && RowsKeyed(rows) && CarvesMatch(pools, rows) && q in pools && pools[q].source.Some?
    ensures RangeClear(rows, q) <==> rows[PoolOf(q)].purpose == Carve || forall k :: !Intrudes(rows, k, q)
  {
    hide Pow2, Overlaps;
    var c := PoolOf(q);
    forall k | k in rows && k != c && rows[k].pool == rows[c].pool && Overlaps(rows[k].block, rows[c].block)
      ensures Intrudes(rows, k, q)
    {
      assert KeyFits(c, rows[c]);
      assert MayOverlap(rows[k], rows[c]);
    }
  }

  /** The ranges of two child pools of one source never overlap, however each is
      held. */
  lemma SiblingRangesApart(rows: Rows, q: string, q': string)
    requires RowsApart(rows) && RowsKeyed(rows) && q != q'
    requires PoolOf(q) in rows && PoolOf(q') in rows && rows[PoolOf(q)].pool == rows[PoolOf(q')].pool
    ensures !Overlaps(rows[PoolOf(q)].block, rows[PoolOf(q')].block)
  {
    hide Pow2, Overlaps;
    assert KeyFits(PoolOf(q), rows[PoolOf(q)]) && KeyFits(PoolOf(q'), rows[PoolOf(q')]);
  }

  ghost predicate IntrudesOn(rows: Rows, k: Key, path: seq<string>) {
    exists i :: 0 < i < |path| && Intrudes(rows, k, path[i])
  }

  /** Two paths down one tree that end in different pools: what the pools hold for
      themselves overlaps only by a claim of one space intruding on a child pool
      held as a claim of another. */
  lemma {:induction false} TreeApart(pools: Pools, rows: Rows, path: seq<string>, path': seq<string>, k: Key, l: Key)
    requires RowsInside(pools, rows) && RowsApart(rows) && CarvesMatch(pools, rows) && RowsKeyed(rows)
    requires IsPath(pools, path) && IsPath(pools, path') && path[0] == path'[0]
    requires path[|path| - 1] != path'[|path'| - 1]
    requires k in rows && rows[k].pool == path[|path| - 1] && !k.PoolOf?
    requires l in rows && rows[l].pool == path'[|path'| - 1] && !l.PoolOf?
    ensures Overlaps(rows[k].block, rows[l].block) ==> IntrudesOn(rows, k, path') || IntrudesOn(rows, l, path)
    decreases |path| + |path'|
  {
    hide Pow2, Overlaps, Contains, RowsInside, RowsApart, CarvesMatch, RowsKeyed;
    if |path| > 1 {
      PathTail(pools, path);
    }
    if |path'| > 1 {
      PathTail(pools, path');
    }
    if |path| == 1 {
      BelowApart(pools, rows, path', k, l);
    } else if |path'| == 1 {
      BelowApart(pools, rows, path, l, k);
    } else if path[1] == path'[1] {
      TreeApart(pools, rows, path[1..], path'[1..], k, l);
      IntrudesUp(rows, k, path');
      IntrudesUp(rows, l, path);
    } else {
      InsideRange(pools, rows, path, k);
      InsideRange(pools, rows, path', l);
      SiblingRangesApart(rows, path[1], path'[1]);
      ApartInside(rows[PoolOf(path[1])].block, rows[PoolOf(path'[1])].block, rows[l].block);
      ApartInside(rows[l].block, rows[PoolOf(path[1])].block, rows[k].block);
    }
  }

  lemma IntrudesUp(rows: Rows, k: Key, path: seq<string>)
    requires |path| > 1
    ensures IntrudesOn(rows, k, path[1..]) ==> IntrudesOn(rows, k, path)
  {
    hide Intrudes;
    if IntrudesOn(rows, k, path[1..]) {
      var i :| 0 < i < |path[1..]| && Intrudes(rows, k, path[1..][i]);
      assert path[i + 1] == path[1..][i];
    }
  }

  /** So in a tree whose child pools all have clear ranges nothing overlaps. */
  lemma ClearTreeApart(pools: Pools, rows: Rows, path: seq<string>, path': seq<string>, k: Key, l: Key)
    requires RowsInside(pools, rows) && RowsApart(rows) && CarvesMatch(pools, rows) && RowsKeyed(rows)
    requires IsPath(pools, path) && IsPath(pools, path') && path[0] == path'[0]
    requires path[|path| - 1] != path'[|path'| - 1]
    requires k in rows && rows[k].pool == path[|path| - 1] && !k.PoolOf?
    requires l in rows && rows[l].pool == path'[|path'| - 1] && !l.PoolOf?
    requires forall i :: 0 < i < |path| ==> RangeClear(rows, path[i])
    requires forall i :: 0 < i < |path'| ==> RangeClear(rows, path'[i])
    ensures !Overlaps(rows[k].block, rows[l].block)
  {
    hide Pow2, Overlaps, Contains, RowsInside, RowsApart, CarvesMatch, RowsKeyed;
    TreeApart(pools, rows, path, path', k, l);
  }

  /** Rows in the trees of different roots of one project never overlap, whatever
      their child pools are held by. */
  lemma ForestApart(pools: Pools, rows: Rows, path: seq<string>, path': seq<string>, k: Key, l: Key)
    requires RowsInside(pools, rows) && CarvesMatch(pools, rows) && RootsApart(pools)
    requires IsPath(pools, path) && IsPath(pools, path') && path[0] != path'[0]
    requires pools[path[0]].source.None? && pools[path'[0]].source.None?
    requires pools[path[0]].project == pools[path'[0]].project
    requires k in rows && rows[k].pool == path[|path| - 1] && l in rows && rows[l].pool == path'[|path'| - 1]
    ensures !Overlaps(rows[k].block, rows[l].block)
  {
    hide Pow2, Overlaps;
    PathNarrows(pools, rows, path);
    PathNarrows(pools, rows, path');
    var p, q := pools[path[0]].cidr, pools[path'[0]].cidr;
    ApartInside(p, q, rows[l].block);
    ApartInside(rows[l].block, p, rows[k].block);
  }

  /** A row of the last pool of a path lies in the range the path starts with. */
  lemma InsideRange(pools: Pools, rows: Rows, path: seq<string>, k: Key)
    requires RowsInside(pools, rows) && CarvesMatch(pools, rows) && IsPath(pools, path) && |path| > 1
    requires k in rows && rows[k].pool == path[|path| - 1]
    ensures PoolOf(path[1]) in rows && rows[PoolOf(path[1])].pool == path[0]
    ensures Contains(rows[PoolOf(path[1])].block, rows[k].block)
  {
    hide Pow2;
    PathTail(pools, path);
    PathNarrows(pools, rows, path[1..]);
  }

  lemma BelowApart(pools: Pools, rows: Rows, path: seq<string>, k: Key, l: Key)
    requires RowsInside(pools, rows) && RowsApart(rows) && CarvesMatch(pools, rows) && RowsKeyed(rows)
    requires IsPath(pools, path) && |path| > 1
    requires k in rows && rows[k].pool == path[0] && !k.PoolOf?
    requires l in rows && rows[l].pool == path[|path| - 1]
    ensures Overlaps(rows[k].block, rows[l].block) || Overlaps(rows[l].block, rows[k].block) ==>
              Intrudes(rows, k, path[1])
  {
    hide Pow2, Contains;
    InsideRange(pools, rows, path, l);
    var c := PoolOf(path[1]);
    if Overlaps(rows[k].block, rows[c].block) {
      assert KeyFits(c, rows[c]);
      assert MayOverlap(rows[k], rows[c]);
    } else {
      ApartInside(rows[k].block, rows[c].block, rows[l].block);
    }
  }

  /** A search of any other space does not see a child pool held as a claim. */
  lemma ClaimedChildIsUnseen(rows: Rows, q: string, space: string)
    requires PoolOf(q) in rows && rows[PoolOf(q)].purpose == Claim && rows[PoolOf(q)].digest == EMPTY_SPACE
    requires space != EMPTY_SPACE && space != SPACE_ALL
    ensures Blocks(rows, rows[PoolOf(q)].pool, space) == Blocks(Without(rows, {PoolOf(q)}), rows[PoolOf(q)].pool, space)
  {
    BlocksDrop(rows, PoolOf(q), rows[PoolOf(q)].pool, space);
  }
}
