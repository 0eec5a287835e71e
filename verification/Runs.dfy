/** Whole runs of the allocator. */
module Runs {
  import opened Common
  import opened Cidr
  import opened FreeSpace
  import opened Reservations
  import opened Allocation
  import opened Tables
  import opened Lookup
  import opened Ranges
  import opened Store

  datatype Op = AuthorRoot(key: string, project: string, cidr: Cidr, strategy: Strategy, reservation: Reservation)
              | AuthorUnder(key: string, source: string, ones: int, strategy: Strategy, reservation: Reservation)
              | Allocate(pool: string, ones: int, claim: string, allocation: string, digest: string, policy: Policy)
              | ProvisionPool(key: string, project: string, source: string, ones: int, digest: string,
                              reservation: Reservation)
              | ReleaseClaim(claim: string)
              | ReleaseOne(allocation: string)
              | BindRange(pool: string, claim: string)

  // ---- what one operation does -------------------------------------------

  /** The pools and the rows, and the time a new pool would get. */
  datatype State = State(pools: Pools, rows: Rows, clock: nat)

  ghost function Now(s: Store): State
    reads s
  {
    State(s.pools, s.rows, s.clock)
  }

  ghost predicate Same(b: State, a: State) {
    a.pools == b.pools && a.rows == b.rows
  }

  /** A block of the pool is recorded for the key, after the pool's own positions. */
  ghost predicate Gets(b: Rows, a: Rows, p: Pool, ones: int, space: string, k: Key, r: Row) {
    && r.holder.Some?
    && exists seen :: Grants(b, seen, r.pool, p, ones, space, k, r.holder.value, r.block) && a == seen[k := r]
  }

  /** There is a reason to refuse it. */
  ghost predicate Denied(b: Rows, pool: string, p: Pool, ones: int, space: string, k: Key, holder: Key) {
    exists seen, reason :: Refusal(b, seen, pool, p, ones, space, k, holder, reason)
  }

  /** A pool is provisioned with its carve and its own positions. */
  ghost predicate Provisions(b: Rows, a: Rows, p: Pool, key: string, pool: Pool, ones: int, r: Row) {
    exists mid :: Gets(b, mid, p, ones, SPACE_ALL, PoolOf(key), r) && Materialised(mid, a, key, pool, None)
  }

  /** A block of the source fits, and cannot express the new pool's reservation. */
  ghost predicate DeniedItself(b: Rows, source: string, p: Pool, ones: int, reservation: Reservation) {
    exists seen, reason :: && Materialised(b, seen, source, p, None)
                           && OwnRefusal(p.cidr, Blocks(seen, source, SPACE_ALL), ones, reservation, reason)
  }

  /** What is left of the claim's row, if it holds one. */
  ghost predicate Released(b: Rows, a: Rows, claim: string) {
    && ((forall k :: k in b ==> b[k].holder != Some(Object(claim))) ==> a == b)
    && forall k :: k in b && b[k].holder == Some(Object(claim)) ==>
         a == if b[k].policy == Retain then b[k := b[k].(holder := None)] else Without(b, {k})
  }

  /** The pools and rows before and after an operation, accepted or refused. */
  ghost predicate Effect(op: Op, b: State, a: State) {
    match op
    case AuthorRoot(key, project, cidr, strategy, reservation) =>
      if key in b.pools || MeetsRoot(b.pools, key, project, cidr) then Same(b, a)
      else a.rows == b.rows && a.pools == b.pools[key := Pool(project, cidr, strategy, reservation, None, b.clock)]
    case AuthorUnder(key, source, ones, strategy, reservation) =>
      if source !in b.pools || key in b.pools then Same(b, a)
      else
        var p := b.pools[source];
        || (Same(b, a) && Denied(b.rows, source, p, ones, EMPTY_SPACE, PoolOf(key), PoolOf(key)))
        || exists r :: && Gets(b.rows, a.rows, p, ones, EMPTY_SPACE, PoolOf(key), r)
                       && r == Row(source, r.block, Claim, EMPTY_SPACE, Some(PoolOf(key)), Delete)
                       && a.pools == b.pools[key := Pool(p.project, r.block, strategy, reservation, Some(source),
                                                         b.clock)]
    case Allocate(pool, ones, claim, allocation, digest, policy) =>
      if pool !in b.pools then Same(b, a)
      else
        var p, space := b.pools[pool], if digest == "" then EMPTY_SPACE else digest;
        var k := Object(if allocation == "" then claim else allocation);
        || (Same(b, a) && Denied(b.rows, pool, p, ones, space, k, Object(claim)))
        || exists r :: && Gets(b.rows, a.rows, p, ones, space, k, r) && a.pools == b.pools
                       && r == Row(pool, r.block, Claim, space, Some(Object(claim)), policy)
    case ProvisionPool(key, project, source, ones, digest, reservation) =>
      if source !in b.pools || key in b.pools then Same(b, a)
      else
        var p := b.pools[source];
        || (Same(b, a) && Denied(b.rows, source, p, ones, SPACE_ALL, PoolOf(key), PoolOf(key)))
        || (Same(b, a) && DeniedItself(b.rows, source, p, ones, reservation))
        || exists r :: && key in a.pools && Provisions(b.rows, a.rows, p, key, a.pools[key], ones, r)
                       && r == Row(source, r.block, Carve, digest, Some(PoolOf(key)), Delete)
                       && a.pools == b.pools[key := Pool(project, r.block, Default, reservation, Some(source), b.clock)]
    case ReleaseClaim(claim) =>
      if exists q :: PoolOf(q) in b.rows && b.rows[PoolOf(q)].holder == Some(Object(claim)) then
        forall q :: PoolOf(q) in b.rows && b.rows[PoolOf(q)].holder == Some(Object(claim)) ==>
          if Releasable(b.rows, q, MAX_CHAIN_DEPTH)
          then a.pools == b.pools - Tree(b.pools, b.rows, q) && a.rows == LeftAfter(b.rows, Tree(b.pools, b.rows, q))
          else Same(b, a)
      else a.pools == b.pools && Released(b.rows, a.rows, claim)
    case ReleaseOne(allocation) => a.pools == b.pools && a.rows == Without(b.rows, {Object(allocation)})
    case BindRange(pool, claim) =>
      var k := PoolOf(pool);
      if k in b.rows && b.rows[k].purpose == Carve && b.rows[k].holder == Some(k)
         && (forall l :: l in b.rows ==> b.rows[l].holder != Some(Object(claim)))
      then a.pools == b.pools && a.rows == b.rows[k := b.rows[k].(holder := Some(Object(claim)))]
      else Same(b, a)
  }

  method WriteChild(s: Store, op: Op)
    requires s.Valid() && op.AuthorUnder?
    modifies s
    ensures s.Valid() && Effect(op, old(Now(s)), Now(s))
  {
    hide RowsInside, RowsApart, RowsKeyed, HoldersUnique, FloorsSound, TotalsExact, CarvesMatch, RootsApart;
    hide Grants, Refusal, Blocks, FloorMoved;
    ghost var b := Now(s);
    var k := PoolOf(op.key);
    var res, seen := s.AuthorChild(op.key, op.source, op.ones, op.strategy, op.reservation);
    if res.Done? {
      assert Gets(b.rows, s.rows, b.pools[op.source], op.ones, EMPTY_SPACE, k, s.rows[k]);
    } else if op.source in b.pools && op.key !in b.pools {
      assert Denied(b.rows, op.source, b.pools[op.source], op.ones, EMPTY_SPACE, k, k);
    }
  }

  method AllocateOne(s: Store, op: Op)
    requires s.Valid() && op.Allocate?
    modifies s
    ensures s.Valid() && Effect(op, old(Now(s)), Now(s)) && OnlyCarvesAdded(old(s.rows), s.rows)
  {
    hide RowsInside, RowsApart, RowsKeyed, HoldersUnique, FloorsSound, TotalsExact, CarvesMatch, RootsApart;
    hide Grants, Refusal, Blocks, FloorMoved, OnlyCarvesAdded;
    ghost var b := Now(s);
    ghost var k := KeyFor(op.claim, op.allocation);
    var res, seen := s.AllocatePrefix(op.pool, op.ones, op.claim, op.allocation, op.digest, op.policy);
    if res.Done? {
      assert Gets(b.rows, s.rows, b.pools[op.pool], op.ones, SpaceFor(op.digest), k, s.rows[k]);
    } else {
      assert op.pool in b.pools ==>
          Denied(b.rows, op.pool, b.pools[op.pool], op.ones, SpaceFor(op.digest), k, Object(op.claim));
      AddsNoneItself(s.rows);
    }
  }

  lemma AddsNoneItself(rows: Rows)
    ensures OnlyCarvesAdded(rows, rows)
  {
  }

  method ProvisionOne(s: Store, op: Op)
    requires s.Valid() && op.ProvisionPool?
    modifies s
    ensures s.Valid() && Effect(op, old(Now(s)), Now(s)) && OnlyCarvesAdded(old(s.rows), s.rows)
  {
    hide RowsInside, RowsApart, RowsKeyed, HoldersUnique, FloorsSound, TotalsExact, CarvesMatch, RootsApart;
    hide Grants, Refusal, Blocks, Materialised, OwnRefusal, OnlyCarvesAdded;
    ghost var b := Now(s);
    ghost var k := PoolOf(op.key);
    var res, seen := s.Provision(op.key, op.project, op.source, op.ones, op.digest, op.reservation);
    if res.Done? {
      ghost var r := Carved(op.key, op.source, res.value, op.digest);
      assert Gets(b.rows, seen[k := r], b.pools[op.source], op.ones, SPACE_ALL, k, r);
      assert Provisions(b.rows, s.rows, b.pools[op.source], op.key, s.pools[op.key], op.ones, r);
    } else {
      AddsNoneItself(s.rows);
      if op.source in b.pools && op.key !in b.pools {
        assert Denied(b.rows, op.source, b.pools[op.source], op.ones, SPACE_ALL, k, k)
            || DeniedItself(b.rows, op.source, b.pools[op.source], op.ones, op.reservation);
      }
    }
  }

  /** A claim that holds a range releases the range. */
  method ReleaseIt(s: Store, op: Op)
    requires s.Valid() && op.ReleaseClaim?
    modifies s
    ensures s.Valid() && Effect(op, old(Now(s)), Now(s)) && OnlyCarvesAdded(old(s.rows), s.rows)
  {
    hide RowsInside, RowsApart, RowsKeyed, HoldersUnique, FloorsSound, TotalsExact, CarvesMatch, RootsApart;
    hide Releasable, Tree, Lowered, Hindered, LeftAfter, Without, OnlyCarvesAdded;
    var range := s.FindScopeRange(op.claim);
    ghost var rows0 := s.rows;
    if range.Some? {
      ghost var gone := Tree(s.pools, s.rows, range.value);
      var _ := s.ReleaseScopeRange(range.value);
      assert s.rows == rows0 || s.rows == LeftAfter(rows0, gone);
      FewerCarves(rows0, gone);
    } else {
      var _ := s.Release(op.claim);
      ReleaseAddsNone(rows0, s.rows, op.claim);
    }
  }

  lemma FewerCarves(rows: Rows, gone: set<string>)
    ensures OnlyCarvesAdded(rows, rows) && OnlyCarvesAdded(rows, LeftAfter(rows, gone))
  {
  }

  lemma ReleaseAddsNone(before: Rows, after: Rows, claim: string)
    requires Released(before, after, claim)
    ensures OnlyCarvesAdded(before, after)
  {
    if k :| k in before && before[k].holder == Some(Object(claim)) {
      assert after == (if before[k].policy == Retain then before[k := before[k].(holder := None)]
                       else Without(before, {k}));
    }
  }

  /** One transaction. */
  method Execute(s: Store, op: Op)
    requires s.Valid()
    modifies s
    ensures s.Valid() && Effect(op, old(Now(s)), Now(s))
    ensures !op.AuthorUnder? ==> OnlyCarvesAdded(old(s.rows), s.rows)
  {
    hide RowsInside, RowsApart, RowsKeyed, HoldersUnique, FloorsSound, TotalsExact, CarvesMatch, RootsApart;
    match op
    case AuthorRoot(key, project, cidr, strategy, reservation) =>
      var _ := s.AuthorPool(key, project, cidr, strategy, reservation);
    case AuthorUnder(_, _, _, _, _) => WriteChild(s, op);
    case Allocate(_, _, _, _, _, _) => AllocateOne(s, op);
    case ProvisionPool(_, _, _, _, _, _) => ProvisionOne(s, op);
    case ReleaseClaim(_) => ReleaseIt(s, op);
    case ReleaseOne(allocation) => s.ReleaseAllocation(allocation);
    case BindRange(pool, claim) =>
      var _ := s.BindScopeRange(pool, claim);
  }

  /** Row `k` belongs to the last pool of the path. */
  ghost predicate HoldsAt(pools: Pools, rows: Rows, path: seq<string>, k: Key) {
    IsPath(pools, path) && k in rows && rows[k].pool == path[|path| - 1]
  }

  /** Each child pool's range is clear exactly when a carve holds it, or no claim
      of another space of its source meets it. */
  ghost predicate RangesClear(pools: Pools, rows: Rows) {
    forall q :: q in pools && pools[q].source.Some? ==>
      && PoolOf(q) in rows
      && (RangeClear(rows, q) <==> rows[PoolOf(q)].purpose == Carve || forall k :: !Intrudes(rows, k, q))
  }

  /** Different pools of one tree hold the same address only by such a claim. */
  ghost predicate TreesApart(pools: Pools, rows: Rows) {
    forall path, path', k, l ::
      && HoldsAt(pools, rows, path, k) && HoldsAt(pools, rows, path', l) && !k.PoolOf? && !l.PoolOf?
      && path[0] == path'[0] && path[|path| - 1] != path'[|path'| - 1] && Overlaps(rows[k].block, rows[l].block) ==>
        IntrudesOn(rows, k, path') || IntrudesOn(rows, l, path)
  }

  /** Every child pool's range is a carve. */
  ghost predicate AllCarved(rows: Rows) {
    forall q :: PoolOf(q) in rows ==> rows[PoolOf(q)].purpose == Carve
  }

  /** Different pools of one tree share nothing. */
  ghost predicate NothingShared(pools: Pools, rows: Rows) {
    forall path, path', k, l ::
      && HoldsAt(pools, rows, path, k) && HoldsAt(pools, rows, path', l) && !k.PoolOf? && !l.PoolOf?
      && path[0] == path'[0] && path[|path| - 1] != path'[|path'| - 1] ==>
        !Overlaps(rows[k].block, rows[l].block)
  }

  lemma CarvedShareNothing(pools: Pools, rows: Rows)
    requires TreesApart(pools, rows) && AllCarved(rows)
    ensures NothingShared(pools, rows)
  {
    hide Overlaps, HoldsAt;
    forall k, path
      ensures !IntrudesOn(rows, k, path)
    {
    }
  }

  /** Trees of different roots of one project share nothing. */
  ghost predicate ForestsApart(pools: Pools, rows: Rows) {
    forall path, path', k, l ::
      && HoldsAt(pools, rows, path, k) && HoldsAt(pools, rows, path', l)
      && path[0] != path'[0] && SiblingRoots(pools[path[0]], pools[path'[0]]) ==>
        !Overlaps(rows[k].block, rows[l].block)
  }

  lemma TablesKeepApart(pools: Pools, rows: Rows)
    requires RowsInside(pools, rows) && RowsApart(rows) && CarvesMatch(pools, rows) && RowsKeyed(rows)
    requires RootsApart(pools)
    ensures RangesClear(pools, rows) && TreesApart(pools, rows) && ForestsApart(pools, rows)
  {
    assert RangesClear(pools, rows) by {
      hide RowsInside, RowsApart, RowsKeyed, RootsApart, Overlaps, Intrudes, RangeClear;
      forall q | q in pools && pools[q].source.Some?
        ensures RangeClear(rows, q) <==> rows[PoolOf(q)].purpose == Carve || forall k :: !Intrudes(rows, k, q)
      {
        ClearExactlyWhen(pools, rows, q);
      }
    }
    hide RowsInside, RowsApart, RowsKeyed, CarvesMatch, RootsApart, Overlaps, Intrudes, RangeClear, RangesClear;
    forall path, path', k, l | HoldsAt(pools, rows, path, k) && HoldsAt(pools, rows, path', l)
                               && !k.PoolOf? && !l.PoolOf?
                               && path[0] == path'[0] && path[|path| - 1] != path'[|path'| - 1]
      ensures Overlaps(rows[k].block, rows[l].block) ==> IntrudesOn(rows, k, path') || IntrudesOn(rows, l, path)
    {
      TreeApart(pools, rows, path, path', k, l);
    }
    forall path, path', k, l | HoldsAt(pools, rows, path, k) && HoldsAt(pools, rows, path', l)
                               && path[0] != path'[0] && SiblingRoots(pools[path[0]], pools[path'[0]])
      ensures !Overlaps(rows[k].block, rows[l].block)
    {
      ForestApart(pools, rows, path, path', k, l);
    }
  }

  /** Every run from the empty tables, whatever the operations and whichever of
      them are refused, ends in tables that satisfy the whole invariant, so the
      pools of every tree and of every project keep apart. If no operator wrote a
      child pool, different pools of a tree share nothing at all. */
  method Run(ops: seq<Op>) returns (s: Store, ghost trace: seq<State>)
    ensures fresh(s) && s.Valid()
    ensures |trace| == |ops| + 1 && trace[0] == State(map[], map[], 0) && trace[|ops|] == Now(s)
    ensures forall i, j :: 0 <= i && j == i + 1 < |trace| ==> Effect(ops[i], trace[i], trace[j])
    ensures RangesClear(s.pools, s.rows) && TreesApart(s.pools, s.rows) && ForestsApart(s.pools, s.rows)
    ensures (forall op :: op in ops ==> !op.AuthorUnder?) ==> AllCarved(s.rows) && NothingShared(s.pools, s.rows)
  {
    hide RangesClear, TreesApart, ForestsApart, NothingShared, RowsInside, RowsApart, RowsKeyed, CarvesMatch;
    hide RootsApart, Effect;
    s := new Store();
    trace := [Now(s)];
    for i := 0 to |ops|
      invariant fresh(s) && s.Valid()
      invariant |trace| == i + 1 && trace[0] == State(map[], map[], 0) && trace[i] == Now(s)
      invariant forall j, k :: 0 <= j && k == j + 1 < |trace| ==> Effect(ops[j], trace[j], trace[k])
      invariant (forall op :: op in ops ==> !op.AuthorUnder?) ==> AllCarved(s.rows)
    {
      Execute(s, ops[i]);
      trace := trace + [Now(s)];
    }
    TablesKeepApart(s.pools, s.rows);
    if AllCarved(s.rows) {
      CarvedShareNothing(s.pools, s.rows);
    }
  }

  /** The first claim of a space in a plain pool takes its first block. */
  method ClaimFirst(s: Store, pool: string, cidr: Cidr, ones: int, claim: string, digest: string) returns (block: Cidr)
    requires s.Valid() && pool in s.pools && Plain(s.pools[pool], cidr) && cidr.Last() + 1 != Pow2(Width(cidr.family))
    requires cidr.ones <= ones <= Width(cidr.family) && digest != "" && |s.rows| < PAGE_LIMIT
    requires Blocks(s.rows, pool, digest) == {} && KeyFree(s.rows, Object(claim), Object(claim))
    modifies s
    ensures s.Valid() && s.pools == old(s.pools) && block == FirstBlock(cidr, ones)
    ensures s.rows == old(s.rows)[Object(claim) := Row(pool, block, Claim, digest, Some(Object(claim)), Delete)]
  {
    hide Pow2, NoFit, LowestFit, Fits, RowsInside, RowsApart, RowsKeyed, HoldersUnique, FloorsSound, TotalsExact;
    hide CarvesMatch, RootsApart, FloorMoved, OnlyCarvesAdded, Blocks, Refusal;
    ghost var p, rows0 := s.pools[pool], s.rows;
    LowestOfEmpty(cidr, ones);
    var res, seen := s.AllocatePrefix(pool, ones, claim, "", digest, Delete);
    if res.Refused? {
      NothingElseRefuses(rows0, seen, pool, p, ones, digest, Object(claim), Object(claim), res.reason);
    }
    block := res.value;
  }

  /** A plain root and a plain child an operator writes under it. */
  method RootWithChild(root: Cidr, childOnes: int) returns (s: Store, child: Cidr)
    requires root.ones <= childOnes <= Width(root.family) && root.Last() + 1 != Pow2(Width(root.family))
    ensures fresh(s) && s.Valid() && child == FirstBlock(root, childOnes)
    ensures "root" in s.pools && Plain(s.pools["root"], root) && "child" in s.pools && Plain(s.pools["child"], child)
    ensures s.rows == map[PoolOf("child") := Row("root", child, Claim, EMPTY_SPACE, Some(PoolOf("child")), Delete)]
  {
    hide Pow2, NoFit, LowestFit, Fits, RowsInside, RowsApart, RowsKeyed, HoldersUnique, FloorsSound, TotalsExact;
    hide CarvesMatch, RootsApart, FloorMoved, Refusal;
    s := new Store();
    var err := s.AuthorPool("root", "project", root, FirstFit, NOTHING_RESERVED);
    ghost var p, rows0 := s.pools["root"], s.rows;
    LowestOfEmpty(root, childOnes);
    assert Blocks(rows0, "root", EMPTY_SPACE) == {};
    var res, seen := s.AuthorChild("child", "root", childOnes, FirstFit, NOTHING_RESERVED);
    if res.Refused? {
      NothingElseRefuses(rows0, seen, "root", p, childOnes, EMPTY_SPACE, PoolOf("child"), PoolOf("child"), res.reason);
    }
    child := res.value;
  }

  /** A run in which one block is handed out twice: an operator writes a root and
      a child under it, a claim of the root takes the lowest block in any space but
      the empty one, and a claim of the child takes it again. */
  method ClaimEntersChild(root: Cidr, childOnes: int, ones: int, digest: string)
    returns (s: Store, child: Cidr, block: Cidr)
    requires root.ones <= childOnes <= ones <= Width(root.family) && root.Last() + 1 != Pow2(Width(root.family))
    requires digest != "" && digest != EMPTY_SPACE
    ensures fresh(s) && s.Valid() && Contains(child, block)
    ensures PoolOf("child") in s.rows && s.rows[PoolOf("child")].block == child
    ensures Object("outer") in s.rows && Object("inner") in s.rows
    ensures s.rows[Object("outer")] == Row("root", block, Claim, digest, Some(Object("outer")), Delete)
    ensures s.rows[Object("inner")] == Row("child", block, Claim, digest, Some(Object("inner")), Delete)
  {
    hide Pow2, RowsInside, RowsApart, RowsKeyed, HoldersUnique, FloorsSound, TotalsExact, CarvesMatch, RootsApart;
    s, child := RootWithChild(root, childOnes);
    assert Blocks(s.rows, "root", digest) == {};
    assert |s.rows| == 1;
    block := ClaimFirst(s, "root", root, ones, "outer", digest);
    assert Blocks(s.rows, "child", digest) == {};
    assert |s.rows| == 2;
    var again := ClaimFirst(s, "child", child, ones, "inner", digest);
    ShorterPrefixIsLarger(root.family, childOnes, ones);
  }

  /** A range bound to a claim is found by that claim, and by no other. */
  method BindThenFind(s: Store, pool: string, claim: string, other: string)
    returns (bound: Outcome<Cidr>, found: Option<string>, second: Outcome<Cidr>)
    requires s.Valid()
    modifies s
    ensures s.Valid()
    ensures bound.Done? ==> found == Some(pool) && second == Refused(RangeHeld)
  {
    bound := s.BindScopeRange(pool, claim);
    found := s.FindScopeRange(claim);
    second := s.BindScopeRange(pool, other);
  }

  // ---- round trips -------------------------------------------------------

  /** A pool provisioned, with whatever reservation, is given back at once: the
      pools are what they were, and the rows too but for positions its source
      reserved on the way. */
  method ProvisionThenRelease(s: Store, op: Op) returns (res: Outcome<Cidr>, err: Option<Failed>, ghost seen: Rows)
    requires s.Valid() && op.ProvisionPool?
    modifies s
    ensures s.Valid()
    ensures res.Done? ==> err.None? && s.pools == old(s.pools)
    ensures res.Done? ==> s.rows == seen && Reserved(old(s.rows), seen, op.source)
  {
    hide RowsInside, RowsApart, RowsKeyed, HoldersUnique, FloorsSound, TotalsExact, CarvesMatch, RootsApart;
    hide Grants, Refusal, OwnRefusal, Releasable, Hindered, Tree, Materialised, OnlyCarvesAdded, LeftAfter, Reserved;
    hide HoldsReservedOnly;
    ghost var pools0, rows0 := s.pools, s.rows;
    res, seen := s.Provision(op.key, op.project, op.source, op.ones, op.digest, op.reservation);
    err := None;
    if res.Done? {
      ghost var r := Carved(op.key, op.source, res.value, op.digest);
      GrantIsFree(rows0, seen, op.source, pools0[op.source], op.ones, SPACE_ALL, PoolOf(op.key), PoolOf(op.key),
                  res.value);
      MaterialisedAdds(seen[PoolOf(op.key) := r], s.rows, op.key, s.pools[op.key]);
      FewerRowsKeyed(seen, s.rows, op.key, r);
      NewPoolIsEmpty(pools0, rows0, seen, s.rows, op.source, op.key, r);
      OnlyItself(s.pools, s.rows, op.key);
      LeavesTheRest(seen, s.rows, op.key, r);
      err := s.ReleaseScopeRange(op.key);
    }
  }

  lemma GrantIsFree(before: Rows, seen: Rows, pool: string, p: Pool, ones: int, space: string, k: Key, holder: Key,
                    b: Cidr)
    requires Grants(before, seen, pool, p, ones, space, k, holder, b)
    ensures Reserved(before, seen, pool) && k !in seen && Fits(p.cidr, Blocks(seen, pool, space), ones, b)
  {
    MaterialisedAdds(before, seen, pool, p);
  }

  /** The pool holds reserved positions only. */
  ghost predicate HoldsReservedOnly(rows: Rows, key: string) {
    forall k :: k in rows && rows[k].pool == key ==> rows[k].purpose == Reserve && k.Position?
  }

  lemma NewPoolIsEmpty(pools0: Pools, rows0: Rows, seen: Rows, rows: Rows, source: string, key: string, r: Row)
    requires RowsInside(pools0, rows0) && key !in pools0 && source in pools0 && r.pool == source
    requires Reserved(rows0, seen, source) && RowsKeyed(seen) && RowsKeyed(rows)
    requires Reserved(seen[PoolOf(key) := r], rows, key)
    ensures HoldsReservedOnly(rows, key)
    ensures forall k :: k in seen ==> seen[k].pool != key
  {
    hide RowsInside;
    forall k | k in seen
      ensures seen[k].pool != key
    {
      assert KeyFits(k, seen[k]);
      if k in rows0 {
        RowsAreInPools(pools0, rows0, k);
      }
    }
    forall k | k in rows && rows[k].pool == key
      ensures rows[k].purpose == Reserve && k.Position?
    {
      assert KeyFits(k, rows[k]);
    }
  }

  lemma FewerRowsKeyed(seen: Rows, rows: Rows, key: string, r: Row)
    requires RowsKeyed(rows) && Reserved(seen[PoolOf(key) := r], rows, key) && PoolOf(key) !in seen
    ensures RowsKeyed(seen)
  {
    forall k | k in seen
      ensures KeyFits(k, seen[k])
    {
      assert k in seen[PoolOf(key) := r];
    }
  }

  lemma RowsAreInPools(pools: Pools, rows: Rows, k: Key)
    requires RowsInside(pools, rows) && k in rows
    ensures rows[k].pool in pools
  {
  }

  lemma EndsOrGoesOn(rows: Rows, path: seq<string>)
    requires Descends(rows, path)
    ensures path == [path[0]] || (|path| > 1 && HoldsOwn(rows, path[0], path[1]))
  {
  }

  /** Such a pool has none below it. */
  lemma OnlyItself(pools: Pools, rows: Rows, key: string)
    requires HoldsReservedOnly(rows, key) && key in pools
    ensures Releasable(rows, key, MAX_CHAIN_DEPTH) && Tree(pools, rows, key) == {key}
  {
    hide Tree;
    forall c
      ensures !HoldsOwn(rows, key, c)
    {
    }
    forall path | Descends(rows, path) && path[0] == key
      ensures path == [key]
    {
      EndsOrGoesOn(rows, path);
    }
    forall q
      ensures q in Tree(pools, rows, key) <==> q == key
    {
      TreeIsPaths(pools, rows, key, q);
      assert Descends(rows, [key]);
    }
  }

  lemma LeavesTheRest(seen: Rows, rows: Rows, key: string, r: Row)
    requires PoolOf(key) !in seen && (forall k :: k in seen ==> seen[k].pool != key)
    requires Reserved(seen[PoolOf(key) := r], rows, key) && HoldsReservedOnly(rows, key) && RowsKeyed(rows)
    ensures LeftAfter(rows, {key}) == seen
  {
    forall k | k in rows && k !in seen && k != PoolOf(key)
      ensures rows[k].pool == key
    {
      assert KeyFits(k, rows[k]);
    }
  }

  /** A claim's block goes by the name of its allocation, or by its own where it
      names none. Released by that name it fits again, and only positions the pool
      reserved on the way stay. */
  method AllocateThenRelease(s: Store, op: Op) returns (res: Outcome<Cidr>, ghost seen: Rows)
    requires s.Valid() && op.Allocate?
    modifies s
    ensures s.Valid() && s.pools == old(s.pools)
    ensures res.Done? ==>
              && s.rows == seen && Reserved(old(s.rows), seen, op.pool) && op.pool in s.pools
              && Fits(s.pools[op.pool].cidr,
                      Blocks(s.rows, op.pool, if op.digest == "" then EMPTY_SPACE else op.digest), op.ones, res.value)
  {
    hide RowsInside, RowsApart, RowsKeyed, HoldersUnique, FloorsSound, TotalsExact, CarvesMatch, RootsApart;
    hide Grants, Refusal, FloorMoved, OnlyCarvesAdded, Blocks, Reserved, Fits;
    ghost var rows0 := s.rows;
    res, seen := s.AllocatePrefix(op.pool, op.ones, op.claim, op.allocation, op.digest, op.policy);
    if res.Done? {
      GrantIsFree(rows0, seen, op.pool, s.pools[op.pool], op.ones, SpaceFor(op.digest),
                  KeyFor(op.claim, op.allocation), Object(op.claim), res.value);
      if op.allocation == "" {
        s.ReleaseAllocation(op.claim);
      } else {
        s.ReleaseAllocation(op.allocation);
      }
    }
  }

  /** A pool's published figures add up: no more is consumed than it holds. */
  lemma CapacityAddsUp(pools: Pools, rows: Rows, totals: map<string, int>, p: string)
    requires TotalsExact(pools, rows, totals) && p in totals
    ensures 0 <= totals[p] <= pools[p].cidr.Size()
  {
    var c := pools[p].cidr;
    RunSize(c.start, c.Last());
    SubsetCount(Cover(c, Blocks(rows, p, SPACE_ALL)), FreeSpace.Run(c.start, c.Last()));
  }
}
