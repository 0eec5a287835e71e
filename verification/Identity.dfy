/** The protocol that gives each (class, scope digest) one pool, however many
    transactions race to provision it.

    Each caller runs one transaction: look the identity up, try to insert it,
    and either adopt the row of whoever won or carve and write the pool. Rows
    carry their writer, and what others see of a row follows from what became of
    the writer: committed, aborted, or still running. Deleting a pool takes its
    committed row, its object and its carve away together. */
module Identity {

  /** A class and the digest of a pool scope. */
  datatype Slot = Slot(class_: string, digest: string)

  /** Where a transaction stands. `Confused` is the error for a writer that left
      no row. */
  datatype Phase = Looking | Inserting | Losing | Won | Provisioned | Holding(key: string)
                 | Done(key: string) | Failed | Confused

  datatype Tx = Tx(slot: Slot, proposed: string, phase: Phase)

  datatype IdRow = IdRow(slot: Slot, key: string, writer: nat)
  datatype PoolRow = PoolRow(key: string, writer: nat)
  datatype CarveRow = CarveRow(key: string, writer: nat)

  datatype State = State(txs: map<nat, Tx>, ids: set<IdRow>, pools: set<PoolRow>, carves: set<CarveRow>)

  predicate Committed(s: State, t: nat) {
    t in s.txs && s.txs[t].phase.Done?
  }

  /** Not rolled back. */
  predicate Live(s: State, t: nat) {
    t in s.txs && !s.txs[t].phase.Failed? && !s.txs[t].phase.Confused?
  }

  function At(s: State, t: nat, p: Phase): State
    requires t in s.txs
  {
    s.(txs := s.txs[t := s.txs[t].(phase := p)])
  }

  ghost predicate Sees(s: State, slot: Slot, r: IdRow) {
    r in s.ids && r.slot == slot && Committed(s, r.writer)
  }

  // ---- the steps ---------------------------------------------------------

  datatype Step = Begin(t: nat, slot: Slot, key: string) | Lookup(t: nat) | Insert(t: nat) | Reselect(t: nat)
                | Provision(t: nat) | Commit(t: nat) | Abort(t: nat) | Remove(row: IdRow)

  ghost predicate Takes(s: State, s': State, step: Step) {
    match step
    case Begin(t, slot, key) => t !in s.txs && s' == s.(txs := s.txs[t := Tx(slot, key, Looking)])
    case Lookup(t) => t in s.txs && s.txs[t].phase.Looking? && Looks(s, s', t)
    case Insert(t) => t in s.txs && s.txs[t].phase.Inserting? && Inserts(s, s', t)
    case Reselect(t) => t in s.txs && s.txs[t].phase.Losing? && Reselects(s, s', t)
    case Provision(t) => t in s.txs && s.txs[t].phase.Won? && Provisions(s, s', t)
    case Commit(t) => t in s.txs && Commits(s, s', t)
    case Abort(t) => t in s.txs && !s.txs[t].phase.Done? && !s.txs[t].phase.Confused? && s' == At(s, t, Failed)
    case Remove(r) => Removed(s, s', r)
  }

  /** The pool a committed row names is deleted, and the row goes with it. */
  ghost predicate Removed(s: State, s': State, r: IdRow) {
    && Sees(s, r.slot, r)
    && s' == s.(ids := s.ids - {r}, pools := s.pools - {PoolRow(r.key, r.writer)},
                carves := s.carves - {CarveRow(r.key, r.writer)})
  }

  /** An unlocked read of the committed rows. */
  ghost predicate Looks(s: State, s': State, t: nat)
    requires t in s.txs
  {
    if exists r :: Sees(s, s.txs[t].slot, r)
    then exists r :: Sees(s, s.txs[t].slot, r) && s' == At(s, t, Holding(r.key))
    else s' == At(s, t, Inserting)
  }

  /** Inserting wins if no live row stands in the way, and loses to a committed
      one. While another transaction's row is undecided the insert waits, so no
      step is possible. */
  ghost predicate Inserts(s: State, s': State, t: nat)
    requires t in s.txs
  {
    var tx := s.txs[t];
    if exists r :: Sees(s, tx.slot, r) then s' == At(s, t, Losing)
    else
      && (forall r :: r in s.ids && r.slot == tx.slot ==> !Live(s, r.writer))
      && s' == At(s, t, Won).(ids := s.ids + {IdRow(tx.slot, tx.proposed, t)})
  }

  ghost predicate Reselects(s: State, s': State, t: nat)
    requires t in s.txs
  {
    if exists r :: Sees(s, s.txs[t].slot, r)
    then exists r :: Sees(s, s.txs[t].slot, r) && s' == At(s, t, Holding(r.key))
    else s' == At(s, t, Confused)
  }

  /** The carve and the pool object, written by the transaction that won. A pool
      key already taken makes it fail instead. */
  ghost predicate Provisions(s: State, s': State, t: nat)
    requires t in s.txs
  {
    var key := s.txs[t].proposed;
    && (forall p :: p in s.pools && p.key == key ==> !Live(s, p.writer))
    && s' == At(s, t, Provisioned).(pools := s.pools + {PoolRow(key, t)}, carves := s.carves + {CarveRow(key, t)})
  }

  ghost predicate Commits(s: State, s': State, t: nat)
    requires t in s.txs
  {
    match s.txs[t].phase
    case Holding(k) => s' == At(s, t, Done(k))
    case Provisioned => s' == At(s, t, Done(s.txs[t].proposed))
    case _ => false
  }

  // ---- what every step keeps ---------------------------------------------

  /** A row matches its writer, which got past the insert. */
  ghost predicate IdOk(s: State, r: IdRow) {
    && r.writer in s.txs && s.txs[r.writer].slot == r.slot && s.txs[r.writer].proposed == r.key
    && match s.txs[r.writer].phase
       case Won | Provisioned | Failed => true
       case Done(k) => k == r.key
       case _ => false
  }

  ghost predicate IdsOk(s: State) {
    && (forall r :: r in s.ids ==> IdOk(s, r))
    && (forall q, r :: q in s.ids && r in s.ids && q.slot == r.slot && Live(s, q.writer) && Live(s, r.writer) ==>
          q == r)
  }

  ghost predicate PoolsOk(s: State) {
    && (forall p :: p in s.pools ==> p.writer in s.txs && IdRow(s.txs[p.writer].slot, p.key, p.writer) in s.ids
                                     && s.txs[p.writer].phase != Won && CarveRow(p.key, p.writer) in s.carves)
    && (forall p, q :: p in s.pools && q in s.pools && p.key == q.key && Live(s, p.writer) && Live(s, q.writer) ==>
          p == q)
    && (forall c :: c in s.carves ==> PoolRow(c.key, c.writer) in s.pools)
  }

  ghost predicate SeesSome(s: State, slot: Slot) {
    exists r :: Sees(s, slot, r)
  }

  ghost predicate SeesKey(s: State, slot: Slot, key: string) {
    exists r :: Sees(s, slot, r) && r.key == key
  }

  /** The rows a transaction has written and not yet committed are there. */
  ghost predicate TxOk(s: State, t: nat)
    requires t in s.txs
  {
    var tx := s.txs[t];
    match tx.phase
    case Won => IdRow(tx.slot, tx.proposed, t) in s.ids
    case Provisioned => IdRow(tx.slot, tx.proposed, t) in s.ids && PoolRow(tx.proposed, t) in s.pools
    case _ => true
  }

  /** What a transaction was told is still so. */
  ghost predicate Promised(s: State, t: nat)
    requires t in s.txs
  {
    var tx := s.txs[t];
    match tx.phase
    case Losing => SeesSome(s, tx.slot)
    case Holding(k) => SeesKey(s, tx.slot, k)
    case Done(k) => SeesKey(s, tx.slot, k)
    case Confused => false
    case _ => true
  }

  /** A committed identity row's pool was written with it. */
  ghost predicate NamesPool(s: State) {
    forall r :: r in s.ids && Committed(s, r.writer) ==> PoolRow(r.key, r.writer) in s.pools
  }

  ghost predicate Inv(s: State) {
    IdsOk(s) && PoolsOk(s) && NamesPool(s) && forall t :: t in s.txs ==> TxOk(s, t)
  }

  ghost predicate Init(s: State) {
    s == State(map[], {}, {}, {})
  }

  /** What one transaction's step leaves alone. */
  ghost predicate OnlyMoves(s: State, s': State, t: nat) {
    && t in s'.txs && s'.txs.Keys == s.txs.Keys + {t}
    && (forall u :: u in s.txs && u != t ==> s'.txs[u] == s.txs[u])
    && (t in s.txs ==> s'.txs[t].slot == s.txs[t].slot && s'.txs[t].proposed == s.txs[t].proposed
                       && !s.txs[t].phase.Done? && !s.txs[t].phase.Confused? && !s'.txs[t].phase.Looking?)
    && (t !in s.txs ==> s'.txs[t].phase.Looking?)
    && s.ids <= s'.ids && s.pools <= s'.pools && s.carves <= s'.carves
  }

  lemma StepMoves(s: State, s': State, step: Step)
    requires Takes(s, s', step) && !step.Remove?
    ensures OnlyMoves(s, s', step.t)
  {
  }

  /** A committed row stays visible. */
  lemma SeenStays(s: State, s': State, t: nat, slot: Slot, r: IdRow)
    requires OnlyMoves(s, s', t) && Sees(s, slot, r)
    ensures Sees(s', slot, r)
  {
  }

  lemma KeepsTxs(s: State, s': State, step: Step)
    requires Inv(s) && Takes(s, s', step) && !step.Remove?
    ensures forall u :: u in s'.txs ==> TxOk(s', u)
  {
    hide IdsOk, PoolsOk, NamesPool, SeesSome, SeesKey;
    StepMoves(s, s', step);
    forall u | u in s'.txs
      ensures TxOk(s', u)
    {
      if u in s.txs {
        assert TxOk(s, u);
      }
    }
  }

  lemma KeepsIds(s: State, s': State, step: Step)
    requires Inv(s) && Takes(s, s', step) && !step.Remove?
    ensures IdsOk(s')
  {
    hide PoolsOk, NamesPool, SeesSome, SeesKey;
    StepMoves(s, s', step);
    forall r | r in s'.ids
      ensures IdOk(s', r)
    {
      if r in s.ids {
        assert IdOk(s, r);
        if r.writer == step.t {
          assert TxOk(s, step.t);
        }
      }
    }
    LiveIdsUnique(s, s', step);
  }

  lemma LiveIdsUnique(s: State, s': State, step: Step)
    requires IdsOk(s) && Takes(s, s', step) && !step.Remove? && OnlyMoves(s, s', step.t)
    ensures forall q, r ::
              q in s'.ids && r in s'.ids && q.slot == r.slot && Live(s', q.writer) && Live(s', r.writer) ==> q == r
  {
    forall q | q in s.ids && Live(s', q.writer)
      ensures Live(s, q.writer)
    {
      assert IdOk(s, q);
    }
  }

  /** A pool's writer was past the insert already, so it is not just winning
      now, and it was live before if it is live after. */
  lemma PoolWriters(s: State, s': State, step: Step, p: PoolRow)
    requires IdsOk(s) && PoolsOk(s) && Takes(s, s', step) && !step.Remove? && p in s.pools
    ensures p.writer in s'.txs && s'.txs[p.writer].slot == s.txs[p.writer].slot && s'.txs[p.writer].phase != Won
    ensures Live(s', p.writer) ==> Live(s, p.writer)
  {
    StepMoves(s, s', step);
    assert IdOk(s, IdRow(s.txs[p.writer].slot, p.key, p.writer));
  }

  lemma KeepsPools(s: State, s': State, step: Step)
    requires Inv(s) && Takes(s, s', step) && !step.Remove?
    ensures PoolsOk(s')
  {
    hide NamesPool, SeesSome, SeesKey, IdsOk, Looks, Inserts, Reselects, Commits;
    StepMoves(s, s', step);
    forall p | p in s.pools
      ensures p.writer in s'.txs && s'.txs[p.writer].slot == s.txs[p.writer].slot && s'.txs[p.writer].phase != Won
      ensures Live(s', p.writer) ==> Live(s, p.writer)
    {
      PoolWriters(s, s', step, p);
    }
    if step.Provision? {
      assert TxOk(s, step.t);
    } else {
      SamePools(s, s', step);
    }
  }

  lemma SamePools(s: State, s': State, step: Step)
    requires Takes(s, s', step) && !step.Provision? && !step.Remove?
    ensures s'.pools == s.pools && s'.carves == s.carves
  {
  }

  lemma KeepsNames(s: State, s': State, step: Step)
    requires Inv(s) && Takes(s, s', step) && !step.Remove?
    ensures NamesPool(s')
  {
    hide PoolsOk, SeesSome, SeesKey;
    StepMoves(s, s', step);
    forall r | r in s'.ids && Committed(s', r.writer)
      ensures PoolRow(r.key, r.writer) in s'.pools
    {
      if r.writer == step.t {
        assert r in s.ids;
        assert IdOk(s, r) && TxOk(s, step.t);
      }
    }
  }

  /** A deletion takes whole rows, each with its pool and carve. */
  lemma RemovalKeepsInv(s: State, s': State, r: IdRow)
    requires Inv(s) && Removed(s, s', r)
    ensures Inv(s')
  {
    hide SeesSome, SeesKey;
    RemovalKeepsPools(s, s', r);
    forall q | q in s'.ids
      ensures IdOk(s', q)
    {
      assert IdOk(s, q);
    }
    forall t | t in s'.txs
      ensures TxOk(s', t)
    {
      assert TxOk(s, t);
    }
    forall q | q in s'.ids && Committed(s', q.writer)
      ensures PoolRow(q.key, q.writer) in s'.pools
    {
      assert IdOk(s, q) && IdOk(s, r);
    }
  }

  lemma RemovalKeepsPools(s: State, s': State, r: IdRow)
    requires IdsOk(s) && PoolsOk(s) && Removed(s, s', r)
    ensures PoolsOk(s')
  {
    assert IdOk(s, r);
    forall p | p in s'.pools
      ensures IdRow(s'.txs[p.writer].slot, p.key, p.writer) in s'.ids && CarveRow(p.key, p.writer) in s'.carves
    {
      assert p in s.pools;
    }
  }

  lemma StepKeepsInv(s: State, s': State, step: Step)
    requires Inv(s) && Takes(s, s', step)
    ensures Inv(s')
  {
    if step.Remove? {
      RemovalKeepsInv(s, s', step.row);
    } else {
      KeepsIds(s, s', step);
      KeepsPools(s, s', step);
      KeepsNames(s, s', step);
      KeepsTxs(s, s', step);
    }
  }

  // ---- what a transaction was told ---------------------------------------

  /** The step deletes the pool of the slot. */
  predicate RemovesFrom(step: Step, slot: Slot) {
    step.Remove? && step.row.slot == slot
  }

  /** The step commits a new pool for the slot. */
  predicate AddsTo(s: State, step: Step, slot: Slot) {
    step.Commit? && step.t in s.txs && s.txs[step.t].slot == slot && s.txs[step.t].phase.Provisioned?
  }

  /** Everyone who began after `before` was told something about the slot that is
      still so. */
  ghost predicate SlotOk(s: State, slot: Slot, before: set<nat>) {
    forall t :: t in s.txs && t !in before && s.txs[t].slot == slot ==> Promised(s, t)
  }

  /** Another transaction's promise survives a step. */
  lemma OtherPromised(s: State, s': State, t: nat, u: nat)
    requires OnlyMoves(s, s', t) && u in s.txs && u != t && Promised(s, u)
    ensures Promised(s', u)
  {
    var slot := s.txs[u].slot;
    match s.txs[u].phase
    case Losing =>
      var r :| Sees(s, slot, r);
      SeenStays(s, s', t, slot, r);
    case Holding(k) =>
      var r :| Sees(s, slot, r) && r.key == k;
      SeenStays(s, s', t, slot, r);
    case Done(k) =>
      var r :| Sees(s, slot, r) && r.key == k;
      SeenStays(s, s', t, slot, r);
    case _ =>
  }

  /** Adopting a visible row promises a visible row of that key. */
  lemma AdoptPromised(s: State, s': State, t: nat, r: IdRow)
    requires t in s.txs && OnlyMoves(s, s', t) && Sees(s, s.txs[t].slot, r)
    requires s'.txs[t].phase == Holding(r.key) || s'.txs[t].phase == Done(r.key) || s'.txs[t].phase == Losing
    ensures Promised(s', t)
  {
    SeenStays(s, s', t, s.txs[t].slot, r);
  }

  lemma CommitPromised(s: State, s': State, t: nat)
    requires t in s.txs && TxOk(s, t) && Promised(s, t) && Commits(s, s', t) && OnlyMoves(s, s', t)
    ensures Promised(s', t)
  {
    if s.txs[t].phase.Holding? {
      var r :| Sees(s, s.txs[t].slot, r) && r.key == s.txs[t].phase.key;
      AdoptPromised(s, s', t, r);
    } else {
      assert Sees(s', s.txs[t].slot, IdRow(s.txs[t].slot, s.txs[t].proposed, t));
    }
  }

  lemma InsertPromised(s: State, s': State, t: nat)
    requires t in s.txs && Inserts(s, s', t) && OnlyMoves(s, s', t)
    ensures Promised(s', t)
  {
    if r :| Sees(s, s.txs[t].slot, r) {
      AdoptPromised(s, s', t, r);
    }
  }

  lemma LookPromised(s: State, s': State, t: nat)
    requires t in s.txs && OnlyMoves(s, s', t)
    requires Looks(s, s', t) || (Promised(s, t) && s.txs[t].phase.Losing? && Reselects(s, s', t))
    ensures Promised(s', t)
  {
    if r :| Sees(s, s.txs[t].slot, r) && s' == At(s, t, Holding(r.key)) {
      AdoptPromised(s, s', t, r);
    }
  }

  /** So does the mover's, in its new phase. */
  lemma MoverPromised(s: State, s': State, step: Step)
    requires Takes(s, s', step) && !step.Remove? && (step.t in s.txs ==> TxOk(s, step.t) && Promised(s, step.t))
    ensures OnlyMoves(s, s', step.t) && Promised(s', step.t)
  {
    hide Looks, Inserts, Reselects, Commits, TxOk;
    StepMoves(s, s', step);
    var t := step.t;
    match step
    case Begin(_, _, _) =>
    case Lookup(_) => LookPromised(s, s', t);
    case Insert(_) => InsertPromised(s, s', t);
    case Reselect(_) => LookPromised(s, s', t);
    case Provision(_) =>
    case Commit(_) => CommitPromised(s, s', t);
    case Abort(_) =>
  }

  /** A deletion of another slot's pool hides nothing here. */
  lemma RemovedElsewhere(s: State, s': State, r: IdRow, u: nat)
    requires Removed(s, s', r) && u in s.txs && s.txs[u].slot != r.slot && Promised(s, u)
    ensures Promised(s', u)
  {
    var slot := s.txs[u].slot;
    forall q | Sees(s, slot, q)
      ensures Sees(s', slot, q)
    {
    }
    match s.txs[u].phase
    case Losing =>
      var q :| Sees(s, slot, q);
      assert Sees(s', slot, q);
    case Holding(k) =>
      var q :| Sees(s, slot, q) && q.key == k;
      assert Sees(s', slot, q);
    case Done(k) =>
      var q :| Sees(s, slot, q) && q.key == k;
      assert Sees(s', slot, q);
    case _ =>
  }

  lemma StepKeepsSlot(s: State, s': State, step: Step, slot: Slot, before: set<nat>)
    requires Inv(s) && SlotOk(s, slot, before) && Takes(s, s', step) && !RemovesFrom(step, slot)
    ensures SlotOk(s', slot, before)
  {
    hide IdsOk, PoolsOk, NamesPool, TxOk, Promised, Takes;
    forall u | u in s'.txs && u !in before && s'.txs[u].slot == slot
      ensures Promised(s', u)
    {
      if step.Remove? {
        RemovalKeepsTxs(s, s', step);
        RemovedElsewhere(s, s', step.row, u);
      } else {
        StepMoves(s, s', step);
        if u == step.t {
          MoverPromised(s, s', step);
        } else {
          OtherPromised(s, s', step.t, u);
        }
      }
    }
  }

  lemma RemovalKeepsTxs(s: State, s': State, step: Step)
    requires Takes(s, s', step) && step.Remove?
    ensures s'.txs == s.txs && Removed(s, s', step.row)
  {
  }

  // ---- every run ---------------------------------------------------------

  /** The states of a run and the steps between them. */
  ghost predicate IsRun(run: seq<State>, steps: seq<Step>) {
    && |run| == |steps| + 1 && Init(run[0])
    && forall i, j :: 0 <= i && j == i + 1 < |run| ==> Takes(run[i], run[j], steps[i])
  }

  lemma {:induction false} RunKeepsInv(run: seq<State>, steps: seq<Step>, n: nat)
    requires IsRun(run, steps) && n < |run|
    ensures Inv(run[n])
  {
    if n > 0 {
      var m := n - 1;
      RunKeepsInv(run, steps, m);
      assert Takes(run[m], run[n], steps[m]);
      StepKeepsInv(run[m], run[n], steps[m]);
    }
  }

  /** No pool of the slot is deleted from state `m` to state `n`. */
  ghost predicate NoRemoval(steps: seq<Step>, m: nat, n: nat, slot: Slot) {
    forall i :: m <= i < n && i < |steps| ==> !RemovesFrom(steps[i], slot)
  }

  lemma {:induction false} RunKeepsSlot(run: seq<State>, steps: seq<Step>, m: nat, n: nat, slot: Slot)
    requires IsRun(run, steps) && m <= n < |run| && NoRemoval(steps, m, n, slot)
    ensures SlotOk(run[n], slot, run[m].txs.Keys)
    decreases n - m
  {
    hide Inv, Takes, Promised;
    if m < n {
      var k := n - 1;
      RunKeepsSlot(run, steps, m, k, slot);
      RunKeepsInv(run, steps, k);
      assert Takes(run[k], run[n], steps[k]);
      StepKeepsSlot(run[k], run[n], steps[k], slot, run[m].txs.Keys);
    }
  }

  /** In every state of every run: one committed identity row for a slot at most,
      and the pool and carve it names are committed with it. */
  lemma OneIdentityPerSlot(run: seq<State>, steps: seq<Step>, n: nat, q: IdRow, r: IdRow)
    requires IsRun(run, steps) && n < |run|
    requires q in run[n].ids && r in run[n].ids && Committed(run[n], q.writer) && Committed(run[n], r.writer)
    ensures q.slot == r.slot ==> q == r
    ensures PoolRow(r.key, r.writer) in run[n].pools && CarveRow(r.key, r.writer) in run[n].carves
  {
    RunKeepsInv(run, steps, n);
  }

  /** One committed carve for a slot at most. */
  lemma OneCarvePerSlot(run: seq<State>, steps: seq<Step>, n: nat, c: CarveRow, d: CarveRow)
    requires IsRun(run, steps) && n < |run|
    requires c in run[n].carves && d in run[n].carves && Committed(run[n], c.writer) && Committed(run[n], d.writer)
    requires run[n].txs[c.writer].slot == run[n].txs[d.writer].slot
    ensures c == d
  {
    RunKeepsInv(run, steps, n);
    var s := run[n];
    var q, r := IdRow(s.txs[c.writer].slot, c.key, c.writer), IdRow(s.txs[d.writer].slot, d.key, d.writer);
    assert PoolRow(c.key, c.writer) in s.pools && PoolRow(d.key, d.writer) in s.pools;
    assert q in s.ids && r in s.ids;
  }

  lemma CommittedSees(s: State, t: nat) returns (r: IdRow)
    requires Inv(s) && Committed(s, t) && Promised(s, t)
    ensures Sees(s, s.txs[t].slot, r) && r.key == s.txs[t].phase.key && PoolRow(r.key, r.writer) in s.pools
  {
    hide IdsOk, PoolsOk;
    r :| Sees(s, s.txs[t].slot, r) && r.key == s.txs[t].phase.key;
  }

  /** Callers for a slot that began after its last deletion and succeed all
      return the same key, and that key names a committed pool. */
  lemma CallersAgree(run: seq<State>, steps: seq<Step>, m: nat, n: nat, t: nat, u: nat)
    requires IsRun(run, steps) && m <= n < |run|
    requires Committed(run[n], t) && Committed(run[n], u) && run[n].txs[t].slot == run[n].txs[u].slot
    requires NoRemoval(steps, m, n, run[n].txs[t].slot) && t !in run[m].txs && u !in run[m].txs
    ensures run[n].txs[t].phase.key == run[n].txs[u].phase.key
    ensures exists p :: p in run[n].pools && p.key == run[n].txs[t].phase.key && Committed(run[n], p.writer)
  {
    RunKeepsInv(run, steps, n);
    RunKeepsSlot(run, steps, m, n, run[n].txs[t].slot);
    hide IsRun, IdsOk, PoolsOk, TxOk, NamesPool, Promised, NoRemoval;
    var q := CommittedSees(run[n], t);
    var r := CommittedSees(run[n], u);
    OneIdentityPerSlot(run, steps, n, q, r);
  }

  /** A key once returned is returned for good. */
  lemma {:induction false} KeysAreStable(run: seq<State>, steps: seq<Step>, m: nat, n: nat, t: nat)
    requires IsRun(run, steps) && m <= n < |run| && t in run[m].txs
    requires run[m].txs[t].phase.Done? || run[m].txs[t].phase.Confused?
    ensures t in run[n].txs && run[n].txs[t] == run[m].txs[t]
    decreases n - m
  {
    if m < n {
      var k := m + 1;
      assert Takes(run[m], run[k], steps[m]);
      if !steps[m].Remove? {
        StepMoves(run[m], run[k], steps[m]);
      }
      KeysAreStable(run, steps, k, n, t);
    }
  }

  // ---- the row that is not there -----------------------------------------

  /** A slot's row is there after a step exactly if it was and is not deleted, or
      the step commits one. */
  lemma SeenAfter(s: State, s': State, step: Step, slot: Slot)
    requires Inv(s) && Takes(s, s', step)
    ensures SeesSome(s', slot) <==> (SeesSome(s, slot) && !RemovesFrom(step, slot)) || AddsTo(s, step, slot)
  {
    hide PoolsOk, NamesPool;
    if step.Remove? {
      SeenAfterRemoval(s, s', step.row, slot);
    } else {
      StepMoves(s, s', step);
      if r :| Sees(s, slot, r) {
        SeenStays(s, s', step.t, slot, r);
      }
      if AddsTo(s, step, slot) {
        assert TxOk(s, step.t);
        assert Sees(s', slot, IdRow(slot, s.txs[step.t].proposed, step.t));
      }
      if r :| Sees(s', slot, r) && !Sees(s, slot, r) {
        NewlySeen(s, s', step, slot, r);
      }
    }
  }

  lemma NewlySeen(s: State, s': State, step: Step, slot: Slot, r: IdRow)
    requires IdsOk(s) && Takes(s, s', step) && !step.Remove? && Sees(s', slot, r) && !Sees(s, slot, r)
    ensures AddsTo(s, step, slot)
  {
    StepMoves(s, s', step);
    assert r.writer == step.t;
    if r in s.ids {
      assert IdOk(s, r);
    }
  }

  lemma SeenAfterRemoval(s: State, s': State, r: IdRow, slot: Slot)
    requires IdsOk(s) && Removed(s, s', r)
    ensures SeesSome(s', slot) <==> SeesSome(s, slot) && r.slot != slot
  {
    if q :| Sees(s', slot, q) {
      assert Sees(s, slot, q);
    }
    if q :| Sees(s, slot, q) && r.slot != slot {
      assert Sees(s', slot, q);
    }
  }

  /** From state `m` to state `n` the slot's row was deleted, and not committed
      anew after that. */
  ghost predicate LeftWithout(run: seq<State>, steps: seq<Step>, m: nat, n: nat, slot: Slot)
    requires n < |run| == |steps| + 1
  {
    exists k :: m <= k < n && RemovesFrom(steps[k], slot) && NoAddition(run, steps, k, n, slot)
  }

  ghost predicate NoAddition(run: seq<State>, steps: seq<Step>, m: nat, n: nat, slot: Slot)
    requires n < |run| == |steps| + 1
  {
    forall l :: m < l < n ==> !AddsTo(run[l], steps[l], slot)
  }

  /** A row that was there is gone exactly in that case. */
  lemma {:induction false} GoneExactlyWhen(run: seq<State>, steps: seq<Step>, m: nat, n: nat, slot: Slot)
    requires IsRun(run, steps) && m <= n < |run| && SeesSome(run[m], slot)
    ensures !SeesSome(run[n], slot) <==> LeftWithout(run, steps, m, n, slot)
    decreases n - m
  {
    hide Inv, Takes, SeesSome, LeftWithout;
    if m < n {
      var k := n - 1;
      GoneExactlyWhen(run, steps, m, k, slot);
      RunKeepsInv(run, steps, k);
      assert Takes(run[k], run[n], steps[k]);
      SeenAfter(run[k], run[n], steps[k], slot);
      LeftWithoutNext(run, steps, m, k, n, slot);
    } else {
      assert !LeftWithout(run, steps, m, m, slot) by {
        NeverLeftAtOnce(run, steps, m, slot);
      }
    }
  }

  lemma NeverLeftAtOnce(run: seq<State>, steps: seq<Step>, m: nat, slot: Slot)
    requires m < |run| == |steps| + 1
    ensures !LeftWithout(run, steps, m, m, slot)
  {
  }

  lemma LeftWithoutNext(run: seq<State>, steps: seq<Step>, m: nat, k: nat, n: nat, slot: Slot)
    requires n < |run| == |steps| + 1 && m <= k && n == k + 1
    ensures LeftWithout(run, steps, m, n, slot)
       <==> RemovesFrom(steps[k], slot) || (LeftWithout(run, steps, m, k, slot) && !AddsTo(run[k], steps[k], slot))
  {
    hide RemovesFrom, AddsTo;
    if RemovesFrom(steps[k], slot) {
      assert NoAddition(run, steps, k, n, slot);
    }
    if LeftWithout(run, steps, m, k, slot) && !AddsTo(run[k], steps[k], slot) {
      var i :| m <= i < k && RemovesFrom(steps[i], slot) && NoAddition(run, steps, i, k, slot);
      assert NoAddition(run, steps, i, n, slot);
    }
    if LeftWithout(run, steps, m, n, slot) && !RemovesFrom(steps[k], slot) {
      var i :| m <= i < n && RemovesFrom(steps[i], slot) && NoAddition(run, steps, i, n, slot);
      assert NoAddition(run, steps, i, k, slot);
    }
  }

  /** The caller lost its insert at step `a`, read again at step `l`, and found
      the row deleted in between. */
  ghost predicate LostThenGone(run: seq<State>, steps: seq<Step>, a: nat, l: nat, n: nat, t: nat)
    requires n < |run| == |steps| + 1 && t in run[n].txs
  {
    && a < l < n && steps[a] == Insert(t) && t in run[a + 1].txs && run[a + 1].txs[t].phase.Losing?
    && steps[l] == Reselect(t)
    && LeftWithout(run, steps, a + 1, l, run[n].txs[t].slot)
  }

  /** A caller meets the error for a writer that left no row exactly when the
      pool was deleted, and not provisioned anew, between its insert and its
      second read. */
  lemma ConfusedExactlyWhen(run: seq<State>, steps: seq<Step>, n: nat, t: nat)
    requires IsRun(run, steps) && n < |run| && t in run[n].txs
    ensures run[n].txs[t].phase.Confused? <==> exists a, l :: LostThenGone(run, steps, a, l, n, t)
  {
    hide LeftWithout, Inv, Takes;
    if run[n].txs[t].phase.Confused? {
      var l := WhenConfused(run, steps, n, t);
      var a := WhenLost(run, steps, l, t);
      GoneExactlyWhen(run, steps, a + 1, l, run[n].txs[t].slot);
      assert LostThenGone(run, steps, a, l, n, t);
    }
    if a, l :| LostThenGone(run, steps, a, l, n, t) {
      FindsNothing(run, steps, a, l, n, t);
    }
  }

  /** So without deletions it never arises. */
  lemma NeverConfused(run: seq<State>, steps: seq<Step>, n: nat, t: nat)
    requires IsRun(run, steps) && n < |run| && t in run[n].txs && NoRemoval(steps, 0, n, run[n].txs[t].slot)
    ensures !run[n].txs[t].phase.Confused?
  {
    hide LostThenGone, NoRemoval;
    ConfusedExactlyWhen(run, steps, n, t);
    forall a, l
      ensures !LostThenGone(run, steps, a, l, n, t)
    {
      GoneMeansRemoval(run, steps, a, l, n, t);
    }
  }

  lemma GoneMeansRemoval(run: seq<State>, steps: seq<Step>, a: nat, l: nat, n: nat, t: nat)
    requires n < |run| == |steps| + 1 && t in run[n].txs
    ensures LostThenGone(run, steps, a, l, n, t) ==> !NoRemoval(steps, 0, n, run[n].txs[t].slot)
  {
  }

  /** Two callers for a slot, and the rows there are. */
  function Race(x: Slot, first: Phase, second: Phase, ids: set<IdRow>, pools: set<PoolRow>,
                carves: set<CarveRow>): State {
    State(map[1 := Tx(x, "a", first), 2 := Tx(x, "a", second)], ids, pools, carves)
  }

  /** And a run in which it does arise: the second caller loses its insert to the
      first, whose pool is deleted before the second reads again. */
  lemma ConfusedRun(x: Slot) returns (run: seq<State>, steps: seq<Step>)
    ensures IsRun(run, steps) && 2 in run[|steps|].txs && run[|steps|].txs[2].phase.Confused?
  {
    hide Takes, Race;
    var row, pool, carve := IdRow(x, "a", 1), PoolRow("a", 1), CarveRow("a", 1);
    run := [State(map[], {}, {}, {}), State(map[1 := Tx(x, "a", Looking)], {}, {}, {}),
            Race(x, Looking, Looking, {}, {}, {}), Race(x, Inserting, Looking, {}, {}, {}),
            Race(x, Inserting, Inserting, {}, {}, {}), Race(x, Won, Inserting, {row}, {}, {}),
            Race(x, Provisioned, Inserting, {row}, {pool}, {carve}),
            Race(x, Done("a"), Inserting, {row}, {pool}, {carve}),
            Race(x, Done("a"), Losing, {row}, {pool}, {carve}), Race(x, Done("a"), Losing, {}, {}, {}),
            Race(x, Done("a"), Confused, {}, {}, {})];
    steps := [Begin(1, x, "a"), Begin(2, x, "a"), Lookup(1), Lookup(2), Insert(1), Provision(1), Commit(1), Insert(2),
              Remove(row), Reselect(2)];
    BothLook(x);
    FirstWins(x);
    FirstCommits(x);
    SecondLoses(x);
    SecondFindsNothing(x);
  }

  lemma BothLook(x: Slot)
    ensures Takes(State(map[], {}, {}, {}), State(map[1 := Tx(x, "a", Looking)], {}, {}, {}), Begin(1, x, "a"))
    ensures Takes(State(map[1 := Tx(x, "a", Looking)], {}, {}, {}), Race(x, Looking, Looking, {}, {}, {}),
                  Begin(2, x, "a"))
    ensures Takes(Race(x, Looking, Looking, {}, {}, {}), Race(x, Inserting, Looking, {}, {}, {}), Lookup(1))
    ensures Takes(Race(x, Inserting, Looking, {}, {}, {}), Race(x, Inserting, Inserting, {}, {}, {}), Lookup(2))
  {
    assert map[1 := Tx(x, "a", Looking)] == (map[])[1 := Tx(x, "a", Looking)];
    assert Race(x, Looking, Looking, {}, {}, {}).txs == map[1 := Tx(x, "a", Looking)][2 := Tx(x, "a", Looking)];
    assert Race(x, Inserting, Looking, {}, {}, {}) == At(Race(x, Looking, Looking, {}, {}, {}), 1, Inserting);
    assert Race(x, Inserting, Inserting, {}, {}, {}) == At(Race(x, Inserting, Looking, {}, {}, {}), 2, Inserting);
  }

  lemma FirstWins(x: Slot)
    ensures var row := IdRow(x, "a", 1);
            Takes(Race(x, Inserting, Inserting, {}, {}, {}), Race(x, Won, Inserting, {row}, {}, {}), Insert(1))
  {
    var s := Race(x, Inserting, Inserting, {}, {}, {});
    assert At(s, 1, Won).(ids := s.ids + {IdRow(x, "a", 1)}) == Race(x, Won, Inserting, {IdRow(x, "a", 1)}, {}, {});
  }

  lemma FirstCommits(x: Slot)
    ensures var row, pool, carve := IdRow(x, "a", 1), PoolRow("a", 1), CarveRow("a", 1);
            && Takes(Race(x, Won, Inserting, {row}, {}, {}), Race(x, Provisioned, Inserting, {row}, {pool}, {carve}),
                     Provision(1))
            && Takes(Race(x, Provisioned, Inserting, {row}, {pool}, {carve}),
                     Race(x, Done("a"), Inserting, {row}, {pool}, {carve}), Commit(1))
  {
    var row, pool, carve := IdRow(x, "a", 1), PoolRow("a", 1), CarveRow("a", 1);
    var s, s' := Race(x, Won, Inserting, {row}, {}, {}), Race(x, Provisioned, Inserting, {row}, {pool}, {carve});
    assert At(s, 1, Provisioned).(pools := s.pools + {pool}, carves := s.carves + {carve}) == s';
    assert At(s', 1, Done("a")) == Race(x, Done("a"), Inserting, {row}, {pool}, {carve});
  }

  lemma SecondLoses(x: Slot)
    ensures var row, pool, carve := IdRow(x, "a", 1), PoolRow("a", 1), CarveRow("a", 1);
            Takes(Race(x, Done("a"), Inserting, {row}, {pool}, {carve}),
                  Race(x, Done("a"), Losing, {row}, {pool}, {carve}), Insert(2))
  {
    var row, pool, carve := IdRow(x, "a", 1), PoolRow("a", 1), CarveRow("a", 1);
    var s := Race(x, Done("a"), Inserting, {row}, {pool}, {carve});
    assert Sees(s, x, row);
    assert At(s, 2, Losing) == Race(x, Done("a"), Losing, {row}, {pool}, {carve});
  }

  lemma SecondFindsNothing(x: Slot)
    ensures var row, pool, carve := IdRow(x, "a", 1), PoolRow("a", 1), CarveRow("a", 1);
            && Takes(Race(x, Done("a"), Losing, {row}, {pool}, {carve}), Race(x, Done("a"), Losing, {}, {}, {}),
                     Remove(row))
            && Takes(Race(x, Done("a"), Losing, {}, {}, {}), Race(x, Done("a"), Confused, {}, {}, {}), Reselect(2))
    ensures 2 in Race(x, Done("a"), Confused, {}, {}, {}).txs
    ensures Race(x, Done("a"), Confused, {}, {}, {}).txs[2].phase.Confused?
  {
    var s := Race(x, Done("a"), Losing, {}, {}, {});
    assert At(s, 2, Confused) == Race(x, Done("a"), Confused, {}, {}, {});
  }

  lemma FindsNothing(run: seq<State>, steps: seq<Step>, a: nat, l: nat, n: nat, t: nat)
    requires IsRun(run, steps) && n < |run| && t in run[n].txs && LostThenGone(run, steps, a, l, n, t)
    ensures run[n].txs[t].phase.Confused?
  {
    hide LeftWithout, Inv;
    var b, m := a + 1, l + 1;
    assert Takes(run[a], run[b], steps[a]) && Takes(run[l], run[m], steps[l]);
    SlotStays(run, steps, b, n, t);
    SlotStays(run, steps, b, l, t);
    SeenOnLosing(run[a], run[b], t);
    GoneExactlyWhen(run, steps, b, l, run[n].txs[t].slot);
    assert run[m].txs[t].phase.Confused?;
    KeysAreStable(run, steps, m, n, t);
  }

  lemma {:induction false} SlotStays(run: seq<State>, steps: seq<Step>, m: nat, n: nat, t: nat)
    requires IsRun(run, steps) && m <= n < |run| && t in run[m].txs
    ensures t in run[n].txs && run[n].txs[t].slot == run[m].txs[t].slot
    decreases n - m
  {
    if m < n {
      var k := m + 1;
      assert Takes(run[m], run[k], steps[m]);
      SlotStays(run, steps, k, n, t);
    }
  }

  lemma SeenOnLosing(s: State, s': State, t: nat)
    requires t in s.txs && s.txs[t].phase.Inserting? && Inserts(s, s', t) && s'.txs[t].phase.Losing?
    ensures SeesSome(s', s.txs[t].slot)
  {
    var r :| Sees(s, s.txs[t].slot, r);
    assert s' == At(s, t, Losing);
    assert Sees(s', s.txs[t].slot, r);
  }

  /** Which insert a waiting caller lost. */
  lemma {:induction false} WhenLost(run: seq<State>, steps: seq<Step>, l: nat, t: nat) returns (a: nat)
    requires IsRun(run, steps) && l < |run| && t in run[l].txs && run[l].txs[t].phase.Losing?
    ensures a < l && steps[a] == Insert(t) && t in run[a + 1].txs && run[a + 1].txs[t].phase.Losing?
    ensures SeesSome(run[a + 1], run[l].txs[t].slot)
  {
    var k := l - 1;
    assert Takes(run[k], run[l], steps[k]);
    if t in run[k].txs && run[k].txs[t].phase.Losing? {
      a := WhenLost(run, steps, k, t);
    } else {
      SeenOnLosing(run[k], run[l], t);
      a := k;
    }
  }

  lemma {:induction false} WhenConfused(run: seq<State>, steps: seq<Step>, n: nat, t: nat) returns (l: nat)
    requires IsRun(run, steps) && n < |run| && t in run[n].txs && run[n].txs[t].phase.Confused?
    ensures l < n && steps[l] == Reselect(t) && t in run[l].txs && run[l].txs[t].phase.Losing?
    ensures run[l].txs[t].slot == run[n].txs[t].slot && !SeesSome(run[l], run[n].txs[t].slot)
  {
    var k := n - 1;
    assert Takes(run[k], run[n], steps[k]);
    if t in run[k].txs && run[k].txs[t].phase.Confused? {
      l := WhenConfused(run, steps, k, t);
    } else {
      l := k;
    }
  }

  // ---- what a caller can count on ----------------------------------------

  /** Steps of one caller, none of them an abort. */
  ghost predicate OwnSteps(ss: seq<State>, steps: seq<Step>, t: nat) {
    && |ss| == |steps| + 1
    && (forall i :: 0 <= i < |steps| ==> !steps[i].Remove? && !steps[i].Abort? && steps[i].t == t)
    && forall i, j :: 0 <= i && j == i + 1 < |ss| ==> Takes(ss[i], ss[j], steps[i])
  }

  /** Nothing but its own abort makes a caller fail, or undoes that. */
  lemma OnlyAbortFails(s: State, s': State, step: Step, t: nat)
    requires Takes(s, s', step) && t in s.txs
    ensures t in s'.txs && (s'.txs[t].phase.Failed? <==> s.txs[t].phase.Failed? || step == Abort(t))
  {
  }

  /** Only a caller's own steps change its phase. */
  lemma OnlyOwnSteps(s: State, s': State, step: Step, t: nat)
    requires Takes(s, s', step) && t in s.txs && (step.Remove? || step.t != t)
    ensures t in s'.txs && s'.txs[t] == s.txs[t]
  {
  }

  /** While a committed row of the slot is there, each step of a caller on its way
      takes it nearer to that row's key, whichever step it is. */
  lemma RowIsAdopted(run: seq<State>, steps: seq<Step>, n: nat, r: IdRow, s': State, step: Step)
    requires IsRun(run, steps) && n < |run|
    requires r in run[n].ids && r.writer in run[n].txs && run[n].txs[r.writer].phase.Done?
    requires Takes(run[n], s', step) && !step.Remove? && !step.Abort?
    requires step.t in run[n].txs && run[n].txs[step.t].slot == r.slot
    ensures match run[n].txs[step.t].phase
            case Looking => s'.txs[step.t].phase == Holding(r.key)
            case Inserting => s'.txs[step.t].phase == Losing
            case Losing => s'.txs[step.t].phase == Holding(r.key)
            case Holding(k) => s'.txs[step.t].phase == Done(k)
            case _ => false
    ensures s'.ids == run[n].ids && s'.pools == run[n].pools && s'.carves == run[n].carves
  {
    RunKeepsInv(run, steps, n);
    AdoptedIn(run[n], r, s', step);
  }

  lemma AdoptedIn(s: State, r: IdRow, s': State, step: Step)
    requires Inv(s) && Sees(s, r.slot, r) && Takes(s, s', step) && !step.Remove? && !step.Abort?
    requires step.t in s.txs && s.txs[step.t].slot == r.slot
    ensures match s.txs[step.t].phase
            case Looking => s'.txs[step.t].phase == Holding(r.key)
            case Inserting => s'.txs[step.t].phase == Losing
            case Losing => s'.txs[step.t].phase == Holding(r.key)
            case Holding(k) => s'.txs[step.t].phase == Done(k)
            case _ => false
    ensures s'.ids == s.ids && s'.pools == s.pools && s'.carves == s.carves
  {
    hide PoolsOk, NamesPool;
    var t := step.t;
    assert TxOk(s, t);
    WriterIsElsewhere(s, r, t);
    forall q | Sees(s, r.slot, q)
      ensures q == r
    {
    }
  }

  /** A caller on its way for a slot that has a committed row has won nothing. */
  lemma WriterIsElsewhere(s: State, r: IdRow, t: nat)
    requires IdsOk(s) && Sees(s, r.slot, r) && t in s.txs && s.txs[t].slot == r.slot && TxOk(s, t)
    ensures !s.txs[t].phase.Won? && !s.txs[t].phase.Provisioned?
  {
    if s.txs[t].phase.Won? || s.txs[t].phase.Provisioned? {
      var q := IdRow(r.slot, s.txs[t].proposed, t);
      assert q in s.ids && Live(s, q.writer) && Live(s, r.writer);
      assert false;
    }
  }

  /** So a caller that sees a committed row of its slot, or is about to, has steps
      of its own that end with that row's key. */
  lemma CallerAdopts(run: seq<State>, steps: seq<Step>, n: nat, r: IdRow, t: nat)
    returns (ss: seq<State>, own: seq<Step>)
    requires IsRun(run, steps) && n < |run|
    requires r in run[n].ids && r.writer in run[n].txs && run[n].txs[r.writer].phase.Done?
    requires t in run[n].txs && run[n].txs[t].slot == r.slot
    requires run[n].txs[t].phase.Looking? || run[n].txs[t].phase.Inserting? || run[n].txs[t].phase.Losing?
    ensures OwnSteps(ss, own, t) && ss[0] == run[n]
    ensures t in ss[|own|].txs && ss[|own|].txs[t].phase == Done(r.key)
  {
    RunKeepsInv(run, steps, n);
    var s := run[n];
    if s.txs[t].phase.Inserting? {
      var lost := At(s, t, Losing);
      LosesTo(s, r, t);
      StepKeepsInv(s, lost, Insert(t));
      var ss', own' := AdoptsIn(lost, r, t);
      ss, own := [s] + ss', [Insert(t)] + own';
      OneStepFirst(s, lost, Insert(t), ss', own', t);
    } else {
      ss, own := AdoptsIn(s, r, t);
    }
  }

  lemma LosesTo(s: State, r: IdRow, t: nat)
    requires Sees(s, r.slot, r) && t in s.txs && s.txs[t].slot == r.slot && s.txs[t].phase.Inserting?
    ensures Takes(s, At(s, t, Losing), Insert(t)) && Sees(At(s, t, Losing), r.slot, r)
  {
  }

  lemma OneStepFirst(s: State, s': State, step: Step, ss: seq<State>, steps: seq<Step>, t: nat)
    requires OwnSteps(ss, steps, t) && ss[0] == s' && Takes(s, s', step)
    requires !step.Remove? && !step.Abort? && step.t == t
    ensures OwnSteps([s] + ss, [step] + steps, t)
  {
    hide Takes;
    var all, own := [s] + ss, [step] + steps;
    forall i, j | 0 <= i && j == i + 1 < |all|
      ensures Takes(all[i], all[j], own[i])
    {
      if 0 < i {
        var k := i - 1;
        assert all[i] == ss[k] && all[j] == ss[i] && own[i] == steps[k];
        assert Takes(ss[k], ss[i], steps[k]);
      }
    }
  }

  lemma AdoptsIn(s: State, r: IdRow, t: nat) returns (ss: seq<State>, own: seq<Step>)
    requires Sees(s, r.slot, r) && t in s.txs && s.txs[t].slot == r.slot
    requires s.txs[t].phase.Looking? || s.txs[t].phase.Losing?
    ensures OwnSteps(ss, own, t) && ss[0] == s
    ensures t in ss[|own|].txs && ss[|own|].txs[t].phase == Done(r.key)
  {
    var first := if s.txs[t].phase.Looking? then Lookup(t) else Reselect(t);
    var held, done := At(s, t, Holding(r.key)), At(At(s, t, Holding(r.key)), t, Done(r.key));
    ss, own := [s, held, done], [first, Commit(t)];
    assert Takes(ss[0], ss[1], own[0]);
    assert Takes(ss[1], ss[2], own[1]);
  }

  /** And a caller that finds its slot free, and its pool key, provisions it: it
      has steps of its own that end with the key it proposed, its identity row, its
      pool and its carve committed. */
  lemma CallerProvisions(run: seq<State>, steps: seq<Step>, n: nat, t: nat) returns (ss: seq<State>, own: seq<Step>)
    requires IsRun(run, steps) && n < |run| && t in run[n].txs && run[n].txs[t].phase.Looking?
    requires forall r :: r in run[n].ids && r.slot == run[n].txs[t].slot ==>
               r.writer in run[n].txs && run[n].txs[r.writer].phase.Failed?
    requires forall p :: p in run[n].pools && p.key == run[n].txs[t].proposed ==>
               p.writer in run[n].txs && run[n].txs[p.writer].phase.Failed?
    ensures OwnSteps(ss, own, t) && ss[0] == run[n]
    ensures var key, last := run[n].txs[t].proposed, ss[|own|];
            && t in last.txs && last.txs[t].phase == Done(key) && IdRow(run[n].txs[t].slot, key, t) in last.ids
            && PoolRow(key, t) in last.pools && CarveRow(key, t) in last.carves
  {
    hide IsRun;
    var s := run[n];
    var slot, key := s.txs[t].slot, s.txs[t].proposed;
    var s1 := At(s, t, Inserting);
    var s2 := At(s1, t, Won).(ids := s1.ids + {IdRow(slot, key, t)});
    var s3 := At(s2, t, Provisioned).(pools := s2.pools + {PoolRow(key, t)}, carves := s2.carves + {CarveRow(key, t)});
    var s4 := At(s3, t, Done(key));
    ss, own := [s, s1, s2, s3, s4], [Lookup(t), Insert(t), Provision(t), Commit(t)];
    FindsNone(s, t);
    WinsInsert(s1, t);
    assert Takes(s2, s3, Provision(t)) by {
      ProvisionsFree(s, s2, t);
    }
    assert Takes(s3, s4, Commit(t));
    assert Takes(ss[0], ss[1], own[0]) && Takes(ss[1], ss[2], own[1]) && Takes(ss[2], ss[3], own[2]);
    assert Takes(ss[3], ss[4], own[3]);
  }

  lemma FindsNone(s: State, t: nat)
    requires t in s.txs && s.txs[t].phase.Looking?
    requires forall r :: r in s.ids && r.slot == s.txs[t].slot ==> r.writer in s.txs && s.txs[r.writer].phase.Failed?
    ensures Takes(s, At(s, t, Inserting), Lookup(t))
  {
  }

  lemma WinsInsert(s: State, t: nat)
    requires t in s.txs && s.txs[t].phase.Inserting?
    requires forall r :: r in s.ids && r.slot == s.txs[t].slot ==> r.writer in s.txs && s.txs[r.writer].phase.Failed?
    ensures var row := IdRow(s.txs[t].slot, s.txs[t].proposed, t);
            Takes(s, At(s, t, Won).(ids := s.ids + {row}), Insert(t))
  {
  }

  lemma ProvisionsFree(s: State, s2: State, t: nat)
    requires t in s.txs && t in s2.txs && s2.txs == s.txs[t := s.txs[t].(phase := Won)] && s2.pools == s.pools
    requires s.txs[t].phase.Looking?
    requires forall p :: p in s.pools && p.key == s.txs[t].proposed ==>
                           p.writer in s.txs && s.txs[p.writer].phase.Failed?
    ensures var key := s.txs[t].proposed;
            var s3 := At(s2, t, Provisioned).(pools := s2.pools + {PoolRow(key, t)},
                                              carves := s2.carves + {CarveRow(key, t)});
            Takes(s2, s3, Provision(t))
  {
  }

  /** An insert waits only for a transaction that can still decide: whoever holds
      the slot can abort, and can commit or provision unless its pool key is
      taken. Once it aborts, the waiter's insert can win. */
  lemma WaiterIsNotStuck(s: State, t: nat)
    requires Inv(s) && t in s.txs && s.txs[t].phase.Inserting?
    ensures (exists s' :: Takes(s, s', Insert(t)))
         || (exists u :: u in s.txs && u != t && s.txs[u].slot == s.txs[t].slot
                         && (s.txs[u].phase.Won? || s.txs[u].phase.Provisioned?)
                         && Takes(s, At(s, u, Failed), Abort(u)))
  {
    var tx := s.txs[t];
    if exists r :: Sees(s, tx.slot, r) {
      assert Takes(s, At(s, t, Losing), Insert(t));
    } else if r :| r in s.ids && r.slot == tx.slot && Live(s, r.writer) {
      assert IdOk(s, r);
      assert !Sees(s, tx.slot, r);
      assert Takes(s, At(s, r.writer, Failed), Abort(r.writer));
    } else {
      assert Takes(s, At(s, t, Won).(ids := s.ids + {IdRow(tx.slot, tx.proposed, t)}), Insert(t));
    }
  }
}
