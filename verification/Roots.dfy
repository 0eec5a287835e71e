/** Operators who write root pools at the same time. The roots of the project are
    read first, and the new one is written later, without a lock in between. */
module Roots {
  import opened Common
  import opened Cidr
  import opened Allocation
  import opened Reservations
  import opened Tables
  import opened Store

  /** A root whose overlap check has passed, not yet written. */
  datatype Candidate = Candidate(key: string, pool: Pool)

  datatype World = World(pools: Pools, passed: map<nat, Candidate>)

  datatype Step = Check(t: nat, candidate: Candidate) | Write(t: nat) | AddUnder(key: string, pool: Pool)
                | Remove(key: string)

  /** A check that fails, and a write whose key is taken, change nothing. */
  ghost predicate Takes(w: World, w': World, step: Step) {
    match step
    case Check(t, c) =>
      && c.pool.source.None? && !MeetsRoot(w.pools, c.key, c.pool.project, c.pool.cidr)
      && w' == w.(passed := w.passed[t := c])
    case Write(t) =>
      && t in w.passed && w.passed[t].key !in w.pools
      && w' == World(w.pools[w.passed[t].key := w.passed[t].pool], w.passed - {t})
    case AddUnder(key, pool) => key !in w.pools && pool.source.Some? && w' == w.(pools := w.pools[key := pool])
    case Remove(key) => w' == w.(pools := w.pools - {key})
  }

  ghost predicate IsRun(run: seq<World>, steps: seq<Step>) {
    && |run| == |steps| + 1 && run[0] == World(map[], map[])
    && forall i, j :: 0 <= i && j == i + 1 < |run| ==> Takes(run[i], run[j], steps[i])
  }

  /** Nobody in between, and the two steps are the one step of the store. */
  lemma AloneIsAuthored(w: World, t: nat, c: Candidate)
    requires c.pool.source.None?
    ensures Takes(w, w.(passed := w.passed[t := c]), Check(t, c))
         && Takes(w.(passed := w.passed[t := c]), World(w.pools[c.key := c.pool], w.passed[t := c] - {t}), Write(t))
       <==> !MeetsRoot(w.pools, c.key, c.pool.project, c.pool.cidr) && c.key !in w.pools
  {
    hide MeetsRoot;
  }

  /** The exact condition: a write keeps the roots apart if and only if no other
      root of the project meets it by then. */
  lemma WriteExactlyWhen(pools: Pools, c: Candidate)
    requires RootsApart(pools) && c.key !in pools && c.pool.source.None?
    ensures RootsApart(pools[c.key := c.pool]) <==> !MeetsRoot(pools, c.key, c.pool.project, c.pool.cidr)
  {
    hide Pow2, Overlaps;
    if !MeetsRoot(pools, c.key, c.pool.project, c.pool.cidr) {
      NewRootKeepsApart(pools, c.key, c.pool);
    } else {
      var q :| q in pools && q != c.key && pools[q].source.None? && pools[q].project == c.pool.project
               && Overlaps(c.pool.cidr, pools[q].cidr);
      var after := pools[c.key := c.pool];
      assert after[q] == pools[q] && SiblingRoots(after[c.key], after[q]);
    }
  }

  /** Every candidate passed its check at some step, against the roots there. */
  lemma {:induction false} WhenPassed(run: seq<World>, steps: seq<Step>, n: nat, t: nat) returns (i: nat)
    requires IsRun(run, steps) && n < |run| && t in run[n].passed
    ensures i < n && steps[i] == Check(t, run[n].passed[t])
    ensures var c := run[n].passed[t];
            c.pool.source.None? && !MeetsRoot(run[i].pools, c.key, c.pool.project, c.pool.cidr)
  {
    hide MeetsRoot;
    var m := n - 1;
    assert Takes(run[m], run[n], steps[m]);
    if steps[m] == Check(t, run[n].passed[t]) {
      i := m;
    } else {
      i := WhenPassed(run, steps, m, t);
    }
  }

  /** Step `j` writes a root that meets the candidate. */
  ghost predicate WritesMeeting(run: seq<World>, steps: seq<Step>, j: nat, c: Candidate) {
    && j < |steps| && j < |run| && steps[j].Write? && steps[j].t in run[j].passed
    && var d := run[j].passed[steps[j].t];
       d.key != c.key && SiblingRoots(c.pool, d.pool) && Overlaps(c.pool.cidr, d.pool.cidr)
  }

  /** Roots that meet a candidate appear only by such a write. */
  lemma MetByWrite(w: World, w': World, step: Step, c: Candidate)
    requires Takes(w, w', step) && c.pool.source.None?
    requires !MeetsRoot(w.pools, c.key, c.pool.project, c.pool.cidr)
    requires MeetsRoot(w'.pools, c.key, c.pool.project, c.pool.cidr)
    requires forall t :: t in w.passed ==> w.passed[t].pool.source.None?
    ensures step.Write? && step.t in w.passed
    ensures var d := w.passed[step.t];
            d.key != c.key && SiblingRoots(c.pool, d.pool) && Overlaps(c.pool.cidr, d.pool.cidr)
  {
    hide Pow2, Overlaps;
    var q :| q in w'.pools && q != c.key && w'.pools[q].source.None? && w'.pools[q].project == c.pool.project
             && Overlaps(c.pool.cidr, w'.pools[q].cidr);
  }

  lemma {:induction false} MetSince(run: seq<World>, steps: seq<Step>, i: nat, n: nat, c: Candidate) returns (j: nat)
    requires IsRun(run, steps) && i <= n < |run| && c.pool.source.None?
    requires !MeetsRoot(run[i].pools, c.key, c.pool.project, c.pool.cidr)
    requires MeetsRoot(run[n].pools, c.key, c.pool.project, c.pool.cidr)
    ensures i <= j < n && WritesMeeting(run, steps, j, c)
    decreases n - i
  {
    hide MeetsRoot, Takes, Overlaps;
    var m := n - 1;
    assert Takes(run[m], run[n], steps[m]);
    if MeetsRoot(run[m].pools, c.key, c.pool.project, c.pool.cidr) {
      j := MetSince(run, steps, i, m, c);
    } else {
      forall t | t in run[m].passed
        ensures run[m].passed[t].pool.source.None?
      {
        var l := WhenPassed(run, steps, m, t);
      }
      MetByWrite(run[m], run[n], steps[m], c);
      j := m;
    }
  }

  /** A root checked at step `i` is written at step `k`, after another that meets
      it was written at step `j`. */
  ghost predicate Raced(run: seq<World>, steps: seq<Step>, i: nat, j: nat, k: nat) {
    && i < j < k < |steps| && |run| == |steps| + 1 && steps[k].Write? && steps[k].t in run[k].passed
    && steps[i] == Check(steps[k].t, run[k].passed[steps[k].t])
    && WritesMeeting(run, steps, j, run[k].passed[steps[k].t])
  }

  /** In every state of every run the roots of a project are apart, unless two were
      written between the check and the write of one of them. */
  lemma {:induction false} ApartUnlessRaced(run: seq<World>, steps: seq<Step>, n: nat)
    requires IsRun(run, steps) && n < |run|
    ensures RootsApart(run[n].pools) || exists i: nat, j: nat, k: nat :: k < n && Raced(run, steps, i, j, k)
  {
    hide MeetsRoot, Overlaps;
    if n > 0 {
      var m := n - 1;
      ApartUnlessRaced(run, steps, m);
      assert Takes(run[m], run[n], steps[m]);
      if RootsApart(run[m].pools) {
        match steps[m]
        case Check(_, _) =>
        case AddUnder(key, pool) => NewChildKeepsApart(run[m].pools, key, pool);
        case Remove(key) => RemoveKeepsApart(run[m].pools, key);
        case Write(t) =>
          var i := WhenPassed(run, steps, m, t);
          var c := run[m].passed[t];
          WriteExactlyWhen(run[m].pools, c);
          if MeetsRoot(run[m].pools, c.key, c.pool.project, c.pool.cidr) {
            var j := MetSince(run, steps, i, m, c);
            assert Raced(run, steps, i, j, m);
          }
      }
    }
  }

  function Root(project: string, cidr: Cidr): Pool {
    Pool(project, cidr, FirstFit, NOTHING_RESERVED, None, 0)
  }

  /** A run that leaves a project with two roots over the same range. */
  lemma RootRace(project: string, cidr: Cidr) returns (run: seq<World>, steps: seq<Step>)
    ensures IsRun(run, steps) && |steps| == 4
    ensures "a" in run[4].pools && "b" in run[4].pools
    ensures run[4].pools["a"] == Root(project, cidr) && run[4].pools["b"] == Root(project, cidr)
    ensures !RootsApart(run[4].pools)
  {
    var a, b := Candidate("a", Root(project, cidr)), Candidate("b", Root(project, cidr));
    run := [World(map[], map[]), World(map[], map[1 := a]), World(map[], map[1 := a][2 := b]),
            World(map["a" := a.pool], map[1 := a][2 := b] - {1}),
            World(map["a" := a.pool]["b" := b.pool], map[1 := a][2 := b] - {1} - {2})];
    steps := [Check(1, a), Check(2, b), Write(1), Write(2)];
    assert Takes(run[0], run[1], steps[0]);
    assert Takes(run[1], run[2], steps[1]);
    assert Takes(run[2], run[3], steps[2]);
    assert Takes(run[3], run[4], steps[3]);
    assert SiblingRoots(run[4].pools["a"], run[4].pools["b"]) && Overlaps(cidr, cidr);
  }
}
