/** The changelog watcher: a cursor over (transaction id, row id), bounded by the
    oldest transaction still running, so that no row is skipped and none is
    handed on twice, whatever order transactions commit in. */
module Watch {
  import opened Common
  import opened Sorting

  // ---- the database ------------------------------------------------------

  /** A changelog row. `listed` says the watch's key pattern selects it, `wanted`
      that its object decodes and the watch's predicate accepts it. */
  datatype Entry = Entry(xid: nat, id: nat, rv: int, listed: bool, wanted: bool)

  /** Transactions below `nextXid` are active, committed, or rolled back. The log
      holds every row written, committed or not. */
  datatype Db = Db(nextXid: nat, active: set<nat>, committed: set<nat>, log: seq<Entry>, nextId: nat)

  ghost predicate DbOk(d: Db) {
    && 0 < d.nextXid && 0 < d.nextId
    && (forall x :: x in d.active || x in d.committed ==> 0 < x < d.nextXid)
    && d.active !! d.committed
    && (forall e :: e in d.log ==> 0 < e.xid < d.nextXid && 0 < e.id < d.nextId)
    && (forall i, j :: 0 <= i < j < |d.log| ==> d.log[i].id < d.log[j].id)
  }

  datatype Action = Take | Write(x: nat, skip: nat, rv: int, listed: bool, wanted: bool)
                  | Commit(x: nat) | Abort(x: nat)

  /** One action of some transaction. Row ids come from a sequence, which may
      skip values. */
  ghost predicate Acts(d: Db, d': Db, a: Action) {
    match a
    case Take => d' == d.(nextXid := d.nextXid + 1, active := d.active + {d.nextXid})
    case Write(x, skip, rv, listed, wanted) =>
      x in d.active
      && d' == d.(nextId := d.nextId + skip + 1, log := d.log + [Entry(x, d.nextId + skip, rv, listed, wanted)])
    case Commit(x) => x in d.active && d' == d.(active := d.active - {x}, committed := d.committed + {x})
    case Abort(x) => x in d.active && d' == d.(active := d.active - {x})
  }

  /** Any number of actions, by any transactions, in any order. */
  ghost predicate IsHistory(h: seq<Db>) {
    && h != [] && DbOk(h[0])
    && forall i, j :: 0 <= i && j == i + 1 < |h| ==> exists a :: Acts(h[i], h[j], a)
  }

  /** `d'` is a later state of the same database: the log only grows, and a
      transaction that had ended stays as it ended and writes no more. */
  ghost predicate Later(d: Db, d': Db) {
    && d.nextXid <= d'.nextXid && d.log <= d'.log
    && (forall x :: 0 <= x < d.nextXid && x !in d.active ==>
          x !in d'.active && (x in d'.committed <==> x in d.committed))
    && (forall i :: |d.log| <= i < |d'.log| ==> d'.log[i].xid in d.active || d.nextXid <= d'.log[i].xid)
  }

  lemma ActsIsLater(d: Db, d': Db, a: Action)
    requires DbOk(d) && Acts(d, d', a)
    ensures DbOk(d') && Later(d, d')
  {
  }

  lemma LaterIsTransitive(a: Db, b: Db, c: Db)
    requires Later(a, b) && Later(b, c)
    ensures Later(a, c)
  {
    forall i | |a.log| <= i < |c.log|
      ensures c.log[i].xid in a.active || a.nextXid <= c.log[i].xid
    {
      if i < |b.log| {
        assert c.log[i] == b.log[i];
      }
    }
  }

  /** Every history is a sequence of later and later states. */
  lemma {:induction false} HistoryIsLater(h: seq<Db>, i: nat, j: nat)
    requires IsHistory(h) && i <= j < |h|
    ensures DbOk(h[i]) && DbOk(h[j]) && Later(h[i], h[j])
    decreases j
  {
    if j > 0 {
      var k := j - 1;
      HistoryIsLater(h, if i < j then i else k, k);
      var a :| Acts(h[k], h[j], a);
      ActsIsLater(h[k], h[j], a);
      if i < j {
        LaterIsTransitive(h[i], h[k], h[j]);
      }
    }
  }

  // ---- what the watcher reads --------------------------------------------

  /** The snapshot horizon: the oldest transaction still running, or the next id
      to be given out. */
  ghost predicate IsHorizon(d: Db, h: nat) {
    && (h in d.active || h == d.nextXid) && h <= d.nextXid
    && forall x :: x in d.active ==> h <= x
  }

  datatype Cursor = Cursor(xid: nat, id: nat)

  /** Strictly after the cursor in (xid, id) order. */
  predicate After(e: Entry, c: Cursor) {
    c.xid < e.xid || (c.xid == e.xid && c.id < e.id)
  }

  predicate Precedes(e: Entry, f: Entry) {
    e.xid < f.xid || (e.xid == f.xid && e.id < f.id)
  }

  ghost predicate InOrder(es: seq<Entry>) {
    forall i, j :: 0 <= i < j < |es| ==> Precedes(es[i], es[j])
  }

  ghost predicate Visible(d: Db, e: Entry) {
    e in d.log && e.xid in d.committed
  }

  predicate NoLater(e: Entry, f: Entry) {
    e.xid < f.xid || (e.xid == f.xid && e.id <= f.id)
  }

  ghost predicate Pending(d: Db, h: nat, c: Cursor, e: Entry) {
    Visible(d, e) && e.listed && e.xid < h && After(e, c)
  }

  ghost predicate DistinctIds(es: seq<Entry>) {
    forall i, j :: 0 <= i < j < |es| ==> es[i].id != es[j].id
  }

  /** Sorting rows with distinct ids puts them in strict order. */
  lemma SortedIsInOrder(es: seq<Entry>, out: seq<Entry>)
    requires multiset(es) == multiset(out) && DistinctIds(es) && Ordered(out, NoLater)
    ensures InOrder(out)
  {
    forall i, j | 0 <= i < j < |out|
      ensures Precedes(out[i], out[j])
    {
      DistinctStays(es, out, i, j);
      assert NoLater(out[i], out[j]);
    }
  }

  lemma DistinctStays(es: seq<Entry>, out: seq<Entry>, i: nat, j: nat)
    requires multiset(es) == multiset(out) && DistinctIds(es) && i < j < |out|
    ensures out[i].id != out[j].id
  {
    var a, b := out[i], out[j];
    assert out == out[..i] + [a] + out[i + 1..j] + [b] + out[j + 1..];
    assert a == b ==> multiset(out)[a] >= 2;
    CountedOnce(es, a);
    assert a in multiset(es) && b in multiset(es);
    var k :| 0 <= k < |es| && es[k] == a;
    var m :| 0 <= m < |es| && es[m] == b;
  }

  lemma {:induction false} CountedOnce(es: seq<Entry>, e: Entry)
    requires DistinctIds(es)
    ensures multiset(es)[e] <= 1
  {
    if es != [] {
      var init, last := es[..|es| - 1], es[|es| - 1];
      assert es == init + [last];
      CountedOnce(init, e);
      assert last !in init;
    }
  }

  /** The committed rows after the cursor and below the horizon, in order. */
  method ReadPending(d: Db, h: nat, c: Cursor) returns (out: seq<Entry>)
    requires DbOk(d)
    ensures InOrder(out) && forall e :: e in out <==> Pending(d, h, c, e)
  {
    var found := [];
    for i := 0 to |d.log|
      invariant DistinctIds(found)
      invariant forall e ::
                  e in found
                  <==> e in d.log[..i] && e.xid in d.committed && e.listed && e.xid < h && After(e, c)
    {
      var e := d.log[i];
      if e.xid in d.committed && e.listed && e.xid < h && After(e, c) {
        forall x | x in found
          ensures x.id != e.id
        {
          var j :| 0 <= j < i && d.log[..i][j] == x;
          assert d.log[j] == x;
        }
        found := found + [e];
      }
      assert d.log[..i + 1] == d.log[..i] + [e];
    }
    assert d.log[..|d.log|] == d.log;
    out := Sort(found, NoLater);
    SortedIsInOrder(found, out);
    SameMembers(out, found);
  }

  // ---- what a cursor has passed ------------------------------------------

  /** The committed rows the watch lists that lie after `c0` and not after `c`. */
  ghost function Passed(d: Db, c0: Cursor, c: Cursor): set<Entry> {
    set e | e in d.log && e.xid in d.committed && e.listed && After(e, c0) && !After(e, c)
  }

  /** Nothing the watch lists is left after the cursor, among the rows of `d` below
      the horizon of `h`. */
  ghost predicate CaughtUpWith(h: Db, d: Db, c: Cursor) {
    forall x, e :: IsHorizon(h, x) && Visible(d, e) && e.listed && e.xid < x ==> !After(e, c)
  }

  /** The rows a watch at the cursor still has to pass. */
  ghost function Waiting(d: Db, h: nat, c: Cursor): set<Entry> {
    set e | e in d.log && e.xid in d.committed && e.listed && e.xid < h && After(e, c)
  }

  lemma PassedSplits(d: Db, a: Cursor, b: Cursor, c: Cursor)
    requires !Back(b, a) && !Back(c, b)
    ensures |Passed(d, a, c)| == |Passed(d, a, b)| + |Passed(d, b, c)|
  {
    assert Passed(d, a, c) == Passed(d, a, b) + Passed(d, b, c);
    assert Passed(d, a, b) !! Passed(d, b, c);
  }

  /** What was passed stays the same as the database moves on. */
  lemma PassedStays(d: Db, d': Db, a: Cursor, c: Cursor)
    requires DbOk(d) && DbOk(d') && Later(d, d') && Settled(d, c)
    ensures Passed(d', a, c) == Passed(d, a, c)
  {
    forall e | !After(e, c)
      ensures Visible(d', e) <==> Visible(d, e)
    {
      EntrySettled(d, d', c, e);
    }
    forall e
      ensures e in Passed(d', a, c) <==> e in Passed(d, a, c)
    {
      assert e in Passed(d', a, c) <==> Visible(d', e) && e.listed && After(e, a) && !After(e, c);
      assert e in Passed(d, a, c) <==> Visible(d, e) && e.listed && After(e, a) && !After(e, c);
    }
  }

  /** Moving to the next row passes that row and no other. */
  lemma PassNext(d: Db, h: nat, c0: Cursor, pending: seq<Entry>, i: nat, c: Cursor)
    requires DbOk(d) && InOrder(pending) && (forall e :: e in pending <==> Pending(d, h, c0, e))
    requires i < |pending| && Reached(pending, i, c0, c)
    ensures Passed(d, c0, At(pending[i])) == Passed(d, c0, c) + {pending[i]} && pending[i] !in Passed(d, c0, c)
    ensures |Passed(d, c0, At(pending[i]))| == |Passed(d, c0, c)| + 1
  {
    var e := pending[i];
    assert e in pending && Pending(d, h, c0, e);
    if 0 < i {
      assert pending[i - 1] in pending && Precedes(pending[i - 1], e);
    }
    forall f | f in Passed(d, c0, At(e)) && f !in Passed(d, c0, c)
      ensures f == e
    {
      NextInLine(d, h, c0, pending, i, c, f);
    }
    assert Passed(d, c0, At(e)) == Passed(d, c0, c) + {e};
  }

  /** `rv` is the highest resource version of the rows, or the one before. */
  ghost predicate Highest(before: int, es: set<Entry>, rv: int) {
    before <= rv && (forall e :: e in es ==> e.rv <= rv) && (rv == before || exists e :: e in es && e.rv == rv)
  }

  lemma HighestNext(before: int, es: set<Entry>, rv: int, e: Entry)
    requires Highest(before, es, rv)
    ensures Highest(before, es + {e}, if rv < e.rv then e.rv else rv)
  {
    if rv < e.rv {
      assert e in es + {e};
    } else if rv != before {
      var f :| f in es && f.rv == rv;
      assert f in es + {e};
    }
  }

  lemma HighestOfNone(rv: int)
    ensures Highest(rv, {}, rv)
  {
  }

  lemma PassedNone(d: Db, c: Cursor)
    ensures Passed(d, c, c) == {}
  {
  }

  // ---- what has been handed on -------------------------------------------

  /** `es` is what a watch from `from` must have handed on by the time its cursor
      stands at `c`: every committed row it wants in between, in order, once. */
  ghost predicate HandedOn(es: seq<Entry>, d: Db, from: Cursor, c: Cursor) {
    && InOrder(es)
    && forall e :: e in es <==> Visible(d, e) && e.listed && e.wanted && After(e, from) && !After(e, c)
  }

  /** A committed row below a horizon that a watch from `from` wants. */
  ghost predicate Owed(d: Db, h: nat, from: Cursor, e: Entry) {
    Visible(d, e) && e.listed && e.wanted && e.xid < h && After(e, from)
  }

  /** Every transaction at or below the cursor has ended. */
  ghost predicate Settled(d: Db, c: Cursor) {
    c.xid < d.nextXid && forall x :: x in d.active ==> c.xid < x
  }

  /** What was handed on stays right as the database moves on. */
  lemma HandedOnStays(es: seq<Entry>, d: Db, d': Db, from: Cursor, c: Cursor)
    requires DbOk(d) && DbOk(d') && Later(d, d') && Settled(d, c) && HandedOn(es, d, from, c)
    ensures HandedOn(es, d', from, c) && Settled(d', c)
  {
    forall e | !After(e, c)
      ensures Visible(d', e) <==> Visible(d, e)
    {
      EntrySettled(d, d', c, e);
    }
    forall x | x in d'.active
      ensures c.xid < x
    {
    }
  }

  lemma EntrySettled(d: Db, d': Db, c: Cursor, e: Entry)
    requires DbOk(d) && DbOk(d') && Later(d, d') && Settled(d, c) && e.xid <= c.xid
    ensures Visible(d', e) <==> Visible(d, e)
  {
    if e in d.log {
      var i :| 0 <= i < |d.log| && d.log[i] == e;
      assert d'.log[i] == e;
    }
    if e in d'.log {
      var i :| 0 <= i < |d'.log| && d'.log[i] == e;
      if i < |d.log| {
        assert d.log[i] == e;
      }
    }
  }

  function At(e: Entry): Cursor {
    Cursor(e.xid, e.id)
  }

  /** The cursor has reached the first `i` rows of the batch and no others. */
  ghost predicate Reached(pending: seq<Entry>, i: nat, c0: Cursor, c: Cursor) {
    i <= |pending| && c == if i == 0 then c0 else At(pending[i - 1])
  }

  /** Nothing the watch lists lies between the cursor and the next row. */
  lemma NextInLine(d: Db, h: nat, c0: Cursor, pending: seq<Entry>, i: nat, c: Cursor, f: Entry)
    requires DbOk(d) && InOrder(pending) && (forall e :: e in pending <==> Pending(d, h, c0, e))
    requires i < |pending| && Reached(pending, i, c0, c)
    requires Visible(d, f) && f.listed && After(f, c) && !After(f, At(pending[i]))
    ensures f == pending[i]
  {
    assert pending[i] in pending;
    if 0 < i {
      assert pending[i - 1] in pending;
    }
    assert forall k :: 0 <= k < i ==> !After(pending[k], c);
    assert forall k :: i < k < |pending| ==> After(pending[k], At(pending[i]));
    assert Pending(d, h, c0, f);
    var j :| 0 <= j < |pending| && pending[j] == f;
  }

  /** Handing the next row on, or passing over it, keeps the account right. */
  lemma HandNext(es: seq<Entry>, d: Db, from: Cursor, h: nat, c0: Cursor, pending: seq<Entry>, i: nat, c: Cursor)
    requires DbOk(d) && InOrder(pending) && (forall e :: e in pending <==> Pending(d, h, c0, e))
    requires i < |pending| && Reached(pending, i, c0, c)
    requires HandedOn(es, d, from, c) && !Back(c0, from)
    ensures After(pending[i], c) && !Back(At(pending[i]), from)
    ensures HandedOn(if pending[i].wanted then es + [pending[i]] else es, d, from, At(pending[i]))
  {
    var e := pending[i];
    assert e in pending && Pending(d, h, c0, e);
    assert After(e, c) by {
      if 0 < i {
        assert Precedes(pending[i - 1], pending[i]);
      }
    }
    assert After(e, from) by {
      if 0 < i {
        assert pending[i - 1] in pending;
      }
    }
    var es' := if e.wanted then es + [e] else es;
    forall f | Visible(d, f) && f.listed && f.wanted && After(f, from) && !After(f, At(e))
      ensures f in es'
    {
      if After(f, c) {
        NextInLine(d, h, c0, pending, i, c, f);
      }
    }
  }

  lemma PendingIsBelow(d: Db, h: nat, c0: Cursor, pending: seq<Entry>, i: nat)
    requires (forall e :: e in pending <==> Pending(d, h, c0, e)) && i < |pending|
    ensures pending[i].xid < h
  {
    assert pending[i] in pending;
  }

  /** The cursor stands before `from`. */
  predicate Back(c: Cursor, from: Cursor) {
    c.xid < from.xid || (c.xid == from.xid && c.id < from.id)
  }

  method ReadHorizon(d: Db) returns (h: nat)
    requires DbOk(d)
    ensures IsHorizon(d, h)
  {
    h := d.nextXid;
    var todo := d.active;
    while todo != {}
      invariant todo <= d.active && (h in d.active || h == d.nextXid) && h <= d.nextXid
      invariant forall x :: x in d.active && x !in todo ==> h <= x
      decreases |todo|
    {
      var x: nat :| x in todo;
      if x < h {
        h := x;
      }
      todo := todo - {x};
    }
  }

  /** Below a horizon everything has ended, in every later state. */
  lemma HorizonHolds(h: Db, d: Db, x: nat, c: Cursor)
    requires DbOk(h) && DbOk(d) && Later(h, d) && IsHorizon(h, x) && c.xid < x
    ensures Settled(d, c)
  {
  }

  class Watcher {
    var lastXid: nat
    var lastID: nat
    var lastRV: int
    var result: seq<Entry>
    ghost var from: Cursor

    function Here(): Cursor
      reads this
    {
      Cursor(lastXid, lastID)
    }

    /** Against the database as it now stands: everything handed on is right, and
        settled. */
    ghost predicate Valid(d: Db)
      reads this
    {
      DbOk(d) && Settled(d, Here()) && !Back(Here(), from) && HandedOn(result, d, from, Here())
    }

    constructor ()
      ensures from == Cursor(0, 0) == Here() && result == [] && forall d :: DbOk(d) ==> Valid(d)
    {
      lastXid, lastID, lastRV, result, from := 0, 0, 0, [], Cursor(0, 0);
    }

    /** Starts after a list: one snapshot gives the horizon, the cursor seeded
        with the greatest row below it, whatever its key, and the list itself. */
    constructor AfterList(snapshot: Db)
      requires DbOk(snapshot)
      ensures Valid(snapshot) && result == [] && Seeded(snapshot, from)
    {
      var horizon := ReadHorizon(snapshot);
      var c := GreatestBelow(snapshot, horizon);
      lastXid, lastID, lastRV, result, from := c.xid, c.id, 0, [], c;
      new;
      HorizonHolds(snapshot, snapshot, horizon, c);
    }

    method AdvanceCursor(e: Entry)
      modifies `lastXid, `lastID, `lastRV
      ensures Here() == At(e) && lastRV == if old(lastRV) < e.rv then e.rv else old(lastRV)
    {
      lastXid, lastID := e.xid, e.id;
      if lastRV < e.rv {
        lastRV := e.rv;
      }
    }

    /** One poll: the horizon is read from one state of the database and the rows
        from the same or a later one. */
    method PollChanges(h: Db, d: Db, batch: nat) returns (n: nat)
      requires Valid(h) && DbOk(d) && Later(h, d)
      modifies this
      ensures Valid(d) && from == old(from) && old(result) <= result && n <= batch
      ensures !Back(Here(), old(Here())) && n == |Passed(d, old(Here()), Here())|
      ensures n == batch || CaughtUpWith(h, d, Here())
      ensures n == 0 ==> Here() == old(Here()) && result == old(result)
      ensures Highest(old(lastRV), Passed(d, old(Here()), Here()), lastRV)
      ensures 0 < n ==> forall x :: IsHorizon(h, x) ==> Here().xid < x
    {
      hide HandedOn, Settled, DbOk, Later, Pending, Visible, Passed, Highest;
      var horizon := ReadHorizon(h);
      HandedOnStays(result, h, d, from, Here());
      var pending := ReadPending(d, horizon, Here());
      ghost var c0 := Here();
      n := 0;
      PassedNone(d, c0);
      HighestOfNone(lastRV);
      while n < |pending| && n < batch
        invariant 0 <= n <= |pending| && n <= batch && from == old(from) && old(result) <= result
        invariant n == |Passed(d, c0, Here())| && !Back(Here(), c0)
        invariant n == 0 ==> result == old(result)
        invariant Highest(old(lastRV), Passed(d, c0, Here()), lastRV)
        invariant 0 < n ==> Here().xid < horizon
        invariant Reached(pending, n, c0, Here())
        invariant Settled(d, Here()) && !Back(Here(), from) && HandedOn(result, d, from, Here())
      {
        var e := pending[n];
        HandNext(result, d, from, horizon, c0, pending, n, Here());
        PassNext(d, horizon, c0, pending, n, Here());
        HighestNext(old(lastRV), Passed(d, c0, Here()), lastRV, e);
        PendingIsBelow(d, horizon, c0, pending, n);
        HorizonHolds(h, d, horizon, At(e));
        if e.wanted {
          result := result + [e];
        }
        AdvanceCursor(e);
        n := n + 1;
      }
      if n < batch {
        CaughtUp(d, horizon, c0, pending, Here());
      }
      HorizonIsOne(h, horizon);
    }

    /** Polls until a batch comes back short, or the schedule of database states
        runs out. Every poll but the last passed a full batch. */
    method DrainChangelog(polls: seq<(Db, Db)>, batch: nat) returns (complete: bool, last: nat)
      requires polls != [] && IsSchedule(polls) && Valid(polls[0].0) && 0 < batch
      modifies this
      ensures last < |polls| && Valid(polls[last].1) && from == old(from) && old(result) <= result
      ensures !Back(Here(), old(Here()))
      ensures complete ==> CaughtUpWith(polls[last].0, polls[last].1, Here())
      ensures complete ==> forall x, e :: IsHorizon(polls[last].0, x) && Owed(polls[last].1, x, from, e) ==> e in result
      ensures complete ==> last * batch <= |Passed(polls[last].1, old(Here()), Here())| < (last + 1) * batch
      ensures !complete ==> last == |polls| - 1 && |Passed(polls[last].1, old(Here()), Here())| == |polls| * batch
    {
      hide HandedOn, Settled, Later, Visible, Passed, CaughtUpWith;
      last := 0;
      ghost var c0, full := Here(), 0;
      var n := PollChanges(polls[0].0, polls[0].1, batch);
      while n == batch && last + 1 < |polls|
        invariant last < |polls| && Valid(polls[last].1) && from == old(from) && old(result) <= result
        invariant 0 <= n <= batch
        invariant !Back(Here(), c0) && |Passed(polls[last].1, c0, Here())| == full + n && full == last * batch
        invariant n == batch || CaughtUpWith(polls[last].0, polls[last].1, Here())
        decreases |polls| - last
      {
        var k := last + 1;
        ghost var c := Here();
        HandedOnStays(result, polls[last].1, polls[k].0, from, c);
        PassedStays(polls[last].1, polls[k].0, c0, c);
        PassedStays(polls[k].0, polls[k].1, c0, c);
        n := PollChanges(polls[k].0, polls[k].1, batch);
        PassedSplits(polls[k].1, c0, c, Here());
        OneMore(last, batch);
        last, full := k, full + batch;
      }
      OneMore(last, batch);
      complete := n < batch;
      if complete {
        AllOwed(polls[last].0, polls[last].1, from, Here(), result);
      }
    }

    /** While nobody writes, a drain is complete exactly when its polls have room
        for more than the rows that wait. */
    method DrainUnchanging(d: Db, x: nat, polls: nat, batch: nat) returns (complete: bool)
      requires Valid(d) && IsHorizon(d, x) && 0 < polls && 0 < batch
      modifies this
      ensures Valid(d) && from == old(from)
      ensures complete <==> |Waiting(d, x, old(Here()))| < polls * batch
      ensures complete ==> Waiting(d, x, Here()) == {}
    {
      hide HandedOn, Settled;
      var schedule := seq(polls, i => (d, d));
      NowIsLater(d);
      ghost var c0 := Here();
      var last;
      complete, last := DrainChangelog(schedule, batch);
      WaitingIsPassed(d, x, c0, Here());
      MulMonotone(last + 1, polls, batch);
    }
  }

  lemma OneMore(k: int, s: int)
    ensures (k + 1) * s == k * s + s
  {
  }

  lemma NowIsLater(d: Db)
    ensures Later(d, d)
  {
  }

  lemma WaitingIsPassed(d: Db, x: nat, c0: Cursor, c: Cursor)
    requires DbOk(d) && IsHorizon(d, x) && !Back(c, c0) && Settled(d, c)
    ensures |Passed(d, c0, c)| <= |Waiting(d, x, c0)|
    ensures CaughtUpWith(d, d, c) ==> Waiting(d, x, c) == {} && |Passed(d, c0, c)| == |Waiting(d, x, c0)|
  {
    var passed, waiting := Passed(d, c0, c), Waiting(d, x, c0);
    assert passed <= waiting;
    assert waiting == passed + (waiting - passed);
    assert |passed + (waiting - passed)| == |passed| + |waiting - passed|;
    if CaughtUpWith(d, d, c) {
      forall e | e in waiting
        ensures e in passed
      {
        assert Visible(d, e);
      }
      forall e
        ensures e !in Waiting(d, x, c)
      {
        assert e in Waiting(d, x, c) ==> Visible(d, e);
      }
    }
  }

  lemma AllOwed(h: Db, d: Db, from: Cursor, c: Cursor, es: seq<Entry>)
    requires CaughtUpWith(h, d, c) && HandedOn(es, d, from, c)
    ensures forall x, e :: IsHorizon(h, x) && Owed(d, x, from, e) ==> e in es
  {
  }

  lemma HorizonIsOne(h: Db, x: nat)
    requires IsHorizon(h, x)
    ensures forall y :: IsHorizon(h, y) ==> y == x
  {
  }

  /** A short batch leaves nothing behind below the horizon. */
  lemma CaughtUp(d: Db, h: nat, c0: Cursor, pending: seq<Entry>, c: Cursor)
    requires InOrder(pending) && (forall e :: e in pending <==> Pending(d, h, c0, e))
    requires Reached(pending, |pending|, c0, c)
    ensures forall e :: Visible(d, e) && e.listed && e.xid < h ==> !After(e, c)
  {
    forall e | Visible(d, e) && e.listed && e.xid < h
      ensures !After(e, c)
    {
      if After(e, c0) {
        assert e in pending;
        var j :| 0 <= j < |pending| && pending[j] == e;
        assert j < |pending| - 1 ==> Precedes(e, pending[|pending| - 1]);
      } else if 0 < |pending| {
        assert pending[|pending| - 1] in pending;
      }
    }
  }

  /** Each poll reads its horizon, then its rows, and the next poll comes after. */
  ghost predicate IsSchedule(polls: seq<(Db, Db)>) {
    && (forall i :: 0 <= i < |polls| ==> DbOk(polls[i].0) && DbOk(polls[i].1) && Later(polls[i].0, polls[i].1))
    && (forall i, j :: 0 <= i && j == i + 1 < |polls| ==> Later(polls[i].1, polls[j].0))
  }

  // ---- starting after a list ---------------------------------------------

  /** The cursor seeded from a snapshot: no committed row below the snapshot's
      horizon comes after it, and it lies below the horizon itself. */
  ghost predicate Seeded(d: Db, c: Cursor) {
    forall x :: IsHorizon(d, x) ==> c.xid < x && forall e :: Visible(d, e) && e.xid < x ==> !After(e, c)
  }

  method GreatestBelow(d: Db, h: nat) returns (c: Cursor)
    requires DbOk(d) && IsHorizon(d, h)
    ensures c.xid < h && forall e :: Visible(d, e) && e.xid < h ==> !After(e, c)
  {
    c := Cursor(0, 0);
    assert 0 < h;
    for i := 0 to |d.log|
      invariant c.xid < h
      invariant forall e :: e in d.log[..i] && e.xid in d.committed && e.xid < h ==> !After(e, c)
    {
      var e := d.log[i];
      if e.xid in d.committed && e.xid < h && After(e, c) {
        c := At(e);
      }
      assert d.log[..i + 1] == d.log[..i] + [e];
    }
    assert d.log[..|d.log|] == d.log;
  }

  /** No gap between a list and the watch that follows it: in every later state a
      committed row either comes from a transaction below the snapshot's horizon,
      was visible to the list and is never handed on, or is handed on exactly
      when the cursor has passed it. */
  lemma HandoffHasNoGap(snapshot: Db, d: Db, x: nat, from: Cursor, c: Cursor, es: seq<Entry>, e: Entry)
    requires DbOk(snapshot) && DbOk(d) && Later(snapshot, d) && Seeded(snapshot, from) && IsHorizon(snapshot, x)
    requires HandedOn(es, d, from, c) && Visible(d, e) && e.listed && e.wanted
    ensures e.xid < x ==> Visible(snapshot, e) && e !in es
    ensures x <= e.xid ==> (e in es <==> !After(e, c))
  {
    if e.xid < x {
      HorizonHolds(snapshot, snapshot, x, Cursor(e.xid, 0));
      EntrySettled(snapshot, d, Cursor(e.xid, 0), e);
    }
  }

  // ---- every run ---------------------------------------------------------

  /** How far a watch has come after some polls: it was caught up with one of them,
      or with none, and every later poll passed a full batch. */
  ghost predicate KeepsUp(history: seq<Db>, at: seq<(nat, nat)>, batch: nat, from: Cursor, c: Cursor, k: nat, d: Db)
    requires forall i :: 0 <= i < |at| ==> at[i].0 <= at[i].1 < |history|
  {
    && k <= |at| && (|at| - k) * batch <= |Passed(d, from, c)|
    && (0 < k ==> CaughtUpWith(history[at[k - 1].0], history[at[k - 1].1], c))
  }

  /** Being caught up lasts as the cursor moves on. */
  lemma StaysCaughtUp(h: Db, d: Db, c: Cursor, c': Cursor)
    requires CaughtUpWith(h, d, c) && !Back(c', c)
    ensures CaughtUpWith(h, d, c')
  {
  }

  /** One more poll keeps it up. */
  lemma KeepsUpNext(history: seq<Db>, at: seq<(nat, nat)>, batch: nat, from: Cursor, c: Cursor, k: nat, n: nat, d: Db,
                    d': Db, c': Cursor, m: nat) returns (k': nat)
    requires forall i :: 0 <= i < |at| ==> at[i].0 <= at[i].1 < |history|
    requires n < |at| && KeepsUp(history, at[..n], batch, from, c, k, d)
    requires d' == history[at[n].1] && DbOk(d) && DbOk(d') && Later(d, d') && Settled(d, c)
    requires !Back(c, from) && !Back(c', c) && m == |Passed(d', c, c')|
    requires m == batch || CaughtUpWith(history[at[n].0], d', c')
    ensures KeepsUp(history, at[..n + 1], batch, from, c', k', d')
  {
    PassedStays(d, d', from, c);
    hide Passed, CaughtUpWith, Settled, Later;
    PassedSplits(d', from, c, c');
    if m == batch {
      k' := k;
      OneMore(n - k, batch);
      if 0 < k {
        assert at[..n][k - 1] == at[..n + 1][k - 1] == at[k - 1];
        StaysCaughtUp(history[at[k - 1].0], history[at[k - 1].1], c, c');
      }
    } else {
      k' := n + 1;
      assert at[..n + 1][n] == at[n];
    }
  }

  /** A watch from the beginning, polling wherever it likes along any history of
      the database: `at` gives, poll by poll, the states its horizon and its rows
      are read from. What it has handed on is exactly the committed rows it wants
      up to its cursor, in order. */
  method WatchHistory(history: seq<Db>, at: seq<(nat, nat)>, batch: nat) returns (w: Watcher, ghost up: nat)
    requires IsHistory(history)
    requires forall i :: 0 <= i < |at| ==> at[i].0 <= at[i].1 < |history|
    requires forall i, j :: 0 <= i && j == i + 1 < |at| ==> at[i].1 <= at[j].0
    ensures fresh(w) && w.from == Cursor(0, 0)
    ensures at != [] ==> HandedOn(w.result, history[at[|at| - 1].1], Cursor(0, 0), w.Here())
    ensures at != [] ==> KeepsUp(history, at, batch, Cursor(0, 0), w.Here(), up, history[at[|at| - 1].1])
  {
    hide HandedOn, Settled, Later, Acts, KeepsUp, CaughtUpWith, Passed;
    w := new Watcher();
    up := 0;
    StartsUp(history, batch, Cursor(0, 0), Cursor(0, 0), history[0]);
    for k := 0 to |at|
      invariant fresh(w) && w.from == Cursor(0, 0)
      invariant k == 0 ==> w.Here() == Cursor(0, 0)
      invariant KeepsUp(history, at[..k], batch, Cursor(0, 0), w.Here(), up, history[if k == 0 then 0 else at[k - 1].1])
      invariant k == 0 ==> forall d :: DbOk(d) ==> w.Valid(d)
      invariant 0 < k ==> w.Valid(history[at[k - 1].1])
    {
      var (a, b) := at[k];
      HistoryIsLater(history, a, b);
      if 0 < k {
        var j := k - 1;
        HistoryIsLater(history, at[j].1, a);
        HandedOnStays(w.result, history[at[j].1], history[a], w.from, w.Here());
      }
      ghost var c, was := w.Here(), if k == 0 then 0 else at[k - 1].1;
      HistoryIsLater(history, was, b);
      var n := w.PollChanges(history[a], history[b], batch);
      up := KeepsUpNext(history, at, batch, w.from, c, up, k, history[was], history[b], w.Here(), n);
    }
    assert at[..|at|] == at;
  }

  lemma StartsUp(history: seq<Db>, batch: nat, from: Cursor, c: Cursor, d: Db)
    ensures KeepsUp(history, [], batch, from, c, 0, d)
  {
  }

  /** What the rows handed on after a list must be: a committed row the watch
      wants is from below the snapshot's horizon, was visible to the list and is
      not among them, or is among them exactly once the cursor has passed it. */
  ghost predicate NoGap(snapshot: Db, d: Db, es: seq<Entry>, c: Cursor) {
    && InOrder(es)
    && (forall e :: e in es ==> Visible(d, e) && e.listed && e.wanted)
    && forall x, e :: IsHorizon(snapshot, x) && Visible(d, e) && e.listed && e.wanted ==>
         if e.xid < x then Visible(snapshot, e) && e !in es else (e in es <==> !After(e, c))
  }

  /** A watch that starts after a list taken at state `s` of any history, and then
      polls wherever it likes from there on: no row falls between the two. */
  method WatchAfterList(history: seq<Db>, s: nat, at: seq<(nat, nat)>, batch: nat) returns (w: Watcher, ghost up: nat)
    requires IsHistory(history) && s < |history|
    requires forall i :: 0 <= i < |at| ==> s <= at[i].0 <= at[i].1 < |history|
    requires forall i, j :: 0 <= i && j == i + 1 < |at| ==> at[i].1 <= at[j].0
    ensures fresh(w) && Seeded(history[s], w.from)
    ensures NoGap(history[s], history[if at == [] then s else at[|at| - 1].1], w.result, w.Here())
    ensures KeepsUp(history, at, batch, w.from, w.Here(), up, history[if at == [] then s else at[|at| - 1].1])
  {
    hide HandedOn, Settled, Later, Acts, Visible, IsHorizon, KeepsUp, CaughtUpWith, Passed, Seeded;
    HistoryIsLater(history, s, s);
    w := new Watcher.AfterList(history[s]);
    var now := s;
    up := 0;
    StartsUp(history, batch, w.from, w.Here(), history[s]);
    for k := 0 to |at|
      invariant fresh(w) && now < |history| && w.Valid(history[now]) && Seeded(history[s], w.from)
      invariant now == if k == 0 then s else at[k - 1].1
      invariant s <= now
      invariant KeepsUp(history, at[..k], batch, w.from, w.Here(), up, history[now])
    {
      var (a, b) := at[k];
      assert k > 0 ==> at[k - 1].1 <= at[k].0;
      HistoryIsLater(history, now, a);
      HistoryIsLater(history, a, b);
      HandedOnStays(w.result, history[now], history[a], w.from, w.Here());
      ghost var c := w.Here();
      HistoryIsLater(history, now, b);
      var n := w.PollChanges(history[a], history[b], batch);
      up := KeepsUpNext(history, at, batch, w.from, c, up, k, history[now], history[b], w.Here(), n);
      now := b;
    }
    assert at[..|at|] == at;
    HistoryIsLater(history, s, now);
    NoGapBetween(history[s], history[now], w.from, w.Here(), w.result);
  }

  lemma NoGapBetween(snapshot: Db, d: Db, from: Cursor, c: Cursor, es: seq<Entry>)
    requires DbOk(snapshot) && DbOk(d) && Later(snapshot, d) && Seeded(snapshot, from) && HandedOn(es, d, from, c)
    ensures NoGap(snapshot, d, es, c)
  {
    forall x, e | IsHorizon(snapshot, x) && Visible(d, e) && e.listed && e.wanted
      ensures if e.xid < x then Visible(snapshot, e) && e !in es else (e in es <==> !After(e, c))
    {
      HandoffHasNoGap(snapshot, d, x, from, c, es, e);
    }
  }
}
