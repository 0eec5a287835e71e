/** The tree of pools a range release walks. */
module Ranges {
  import opened Common
  import opened Tables

  /** The pools carved out of `p` that no claim has taken. */
  ghost function Children(rows: Rows, p: string): set<string> {
    set k | k in rows && IsChild(k, rows[k], p) :: k.pool
  }

  predicate IsChild(k: Key, r: Row, p: string) {
    k.PoolOf? && r.pool == p && r.purpose == Carve && r.holder == Some(k)
  }

  /** What stops a release: a claim, or a carve some claim holds. */
  predicate Occupant(k: Key, r: Row, p: string) {
    r.pool == p && r.purpose != Reserve && !IsChild(k, r, p)
  }

  ghost predicate Vacant(rows: Rows, p: string) {
    forall k :: k in rows ==> !Occupant(k, rows[k], p)
  }

  /** Nothing in the tree under `p` is occupied, and it is no deeper than `fuel`. */
  ghost predicate Clear(rows: Rows, p: string, fuel: int)
    decreases fuel + 1
  {
    fuel >= 0 && Vacant(rows, p) && forall c :: c in Children(rows, p) ==> Clear(rows, c, fuel - 1)
  }

  /** `q` is reached from `p` in `n` carves nobody has taken. */
  ghost predicate Reaches(rows: Rows, p: string, q: string, n: nat)
    decreases n
  {
    if n == 0 then p == q else exists c :: c in Children(rows, p) && Reaches(rows, c, q, n - 1)
  }

  ghost predicate InTree(rows: Rows, p: string, q: string) {
    exists n: nat :: Reaches(rows, p, q, n)
  }

  /** `p` and every pool reached from it. */
  ghost function Tree(pools: Pools, rows: Rows, p: string): set<string> {
    set q | q in pools && InTree(rows, p, q)
  }

  /** A clear tree is no deeper than its fuel, and no pool of it held a claim, or
      a carve some claim had taken. */
  lemma {:induction false} ClearTreeIsVacant(rows: Rows, p: string, q: string, n: nat, fuel: int)
    requires Clear(rows, p, fuel) && Reaches(rows, p, q, n)
    ensures n <= fuel && Vacant(rows, q)
    decreases n
  {
    if n > 0 {
      var c :| c in Children(rows, p) && Reaches(rows, c, q, n - 1);
      ClearTreeIsVacant(rows, c, q, n - 1, fuel - 1);
    }
  }

  /** A tree that is not clear holds an occupied pool, or is too deep. */
  lemma {:induction false} NotClearMeansOccupied(rows: Rows, p: string, fuel: int) returns (q: string, n: nat)
    requires !Clear(rows, p, fuel) && -1 <= fuel
    ensures Reaches(rows, p, q, n) && (!Vacant(rows, q) || n == fuel + 1)
    decreases fuel + 1
  {
    if fuel == -1 || !Vacant(rows, p) {
      q, n := p, 0;
    } else {
      var c :| c in Children(rows, p) && !Clear(rows, c, fuel - 1);
      var m;
      q, m := NotClearMeansOccupied(rows, c, fuel - 1);
      n := m + 1;
      assert n - 1 == m;
    }
  }

  // ---- what stands in the way, row by row --------------------------------

  /** Pool `c` was carved out of `q` and still holds its carve itself. */
  ghost predicate HoldsOwn(rows: Rows, q: string, c: string) {
    && PoolOf(c) in rows && rows[PoolOf(c)].pool == q
    && rows[PoolOf(c)].purpose == Carve && rows[PoolOf(c)].holder == Some(PoolOf(c))
  }

  /** A path down from one pool to another, each carved out of the one before. */
  ghost predicate Descends(rows: Rows, path: seq<string>) {
    path != [] && forall i, j :: 0 <= i && j == i + 1 < |path| ==> HoldsOwn(rows, path[i], path[j])
  }

  /** Pool `q` holds only reserved positions and carves that their own pools hold. */
  ghost predicate HoldsNoClaim(rows: Rows, q: string) {
    forall k :: k in rows && rows[k].pool == q ==>
      rows[k].purpose == Reserve || (k.PoolOf? && rows[k].purpose == Carve && rows[k].holder == Some(k))
  }

  /** Every pool below `p` holds no claim, and none lies deeper than `depth`. */
  ghost predicate Releasable(rows: Rows, p: string, depth: int) {
    forall path :: Descends(rows, path) && path[0] == p ==>
      |path| <= depth + 1 && HoldsNoClaim(rows, path[|path| - 1])
  }

  /** Why a tree may not be released, and at the end of which path. */
  ghost predicate StandsInTheWay(rows: Rows, p: string, depth: int, path: seq<string>, tooDeep: bool) {
    && Descends(rows, path) && path[0] == p
    && if tooDeep then |path| == depth + 2 else |path| <= depth + 1 && !HoldsNoClaim(rows, path[|path| - 1])
  }

  /** What stands in a child's way stands in its source's, and did before other
      rows were deleted. */
  lemma InTheWayAbove(rows: Rows, rows': Rows, p: string, c: string, depth: int, path: seq<string>, tooDeep: bool)
    requires HoldsOwn(rows, p, c) && (forall k :: k in rows' ==> k in rows && rows[k] == rows'[k])
    requires StandsInTheWay(rows', c, depth - 1, path, tooDeep)
    ensures StandsInTheWay(rows, p, depth, [p] + path, tooDeep)
  {
    assert Descends(rows, path) by {
      forall i, j | 0 <= i && j == i + 1 < |path|
        ensures HoldsOwn(rows, path[i], path[j])
      {
        assert HoldsOwn(rows', path[i], path[j]);
      }
    }
    FromAbove(rows, p, path);
    assert ([p] + path)[|path|] == path[|path| - 1];
  }

  lemma VacantMeansNoClaim(rows: Rows, q: string)
    ensures Vacant(rows, q) <==> HoldsNoClaim(rows, q)
  {
    forall k | k in rows
      ensures !Occupant(k, rows[k], q)
         <==> (rows[k].pool == q ==>
                 rows[k].purpose == Reserve || (k.PoolOf? && rows[k].purpose == Carve && rows[k].holder == Some(k)))
    {
    }
  }

  lemma {:induction false} PathReaches(rows: Rows, path: seq<string>)
    requires Descends(rows, path)
    ensures Reaches(rows, path[0], path[|path| - 1], |path| - 1)
    decreases |path|
  {
    if |path| > 1 {
      DescendsFrom(rows, path);
      PathReaches(rows, path[1..]);
    }
  }

  lemma DescendsFrom(rows: Rows, path: seq<string>)
    requires Descends(rows, path) && |path| > 1
    ensures Descends(rows, path[1..]) && path[1] in Children(rows, path[0])
  {
    var rest := path[1..];
    forall i, j | 0 <= i && j == i + 1 < |rest|
      ensures HoldsOwn(rows, rest[i], rest[j])
    {
      var k := j + 1;
      assert rest[i] == path[j] && rest[j] == path[k];
    }
    assert HoldsOwn(rows, path[0], path[1]);
    assert IsChild(PoolOf(path[1]), rows[PoolOf(path[1])], path[0]);
  }

  lemma {:induction false} ReachHasPath(rows: Rows, p: string, q: string, n: nat) returns (path: seq<string>)
    requires Reaches(rows, p, q, n)
    ensures Descends(rows, path) && path[0] == p && path[|path| - 1] == q && |path| == n + 1
    decreases n
  {
    if n == 0 {
      path := [p];
    } else {
      var c :| c in Children(rows, p) && Reaches(rows, c, q, n - 1);
      var rest := ReachHasPath(rows, c, q, n - 1);
      var k :| k in rows && IsChild(k, rows[k], p) && k.pool == c;
      assert k == PoolOf(c) && HoldsOwn(rows, p, c);
      path := [p] + rest;
      FromAbove(rows, p, rest);
    }
  }

  lemma FromAbove(rows: Rows, p: string, rest: seq<string>)
    requires Descends(rows, rest) && HoldsOwn(rows, p, rest[0])
    ensures Descends(rows, [p] + rest)
  {
    hide HoldsOwn;
    var path := [p] + rest;
    forall i, j | 0 <= i && j == i + 1 < |path|
      ensures HoldsOwn(rows, path[i], path[j])
    {
      if 0 < i {
        var k := i - 1;
        assert path[i] == rest[k] && path[j] == rest[i];
      }
    }
  }

  /** A tree may be released exactly when no pool of it holds a claim, or a carve
      another holds, and it is not too deep. */
  lemma ClearMeansReleasable(rows: Rows, p: string, depth: int)
    requires 0 <= depth
    ensures Clear(rows, p, depth) <==> Releasable(rows, p, depth)
  {
    hide Clear, Reaches, Vacant, HoldsNoClaim, HoldsOwn;
    if Clear(rows, p, depth) {
      forall path | Descends(rows, path) && path[0] == p
        ensures |path| <= depth + 1 && HoldsNoClaim(rows, path[|path| - 1])
      {
        PathReaches(rows, path);
        ClearTreeIsVacant(rows, p, path[|path| - 1], |path| - 1, depth);
        VacantMeansNoClaim(rows, path[|path| - 1]);
      }
    } else {
      var q, n := NotClearMeansOccupied(rows, p, depth);
      var path := ReachHasPath(rows, p, q, n);
      VacantMeansNoClaim(rows, q);
    }
  }

  /** The tree is what the paths reach. */
  lemma TreeIsPaths(pools: Pools, rows: Rows, p: string, q: string)
    ensures q in Tree(pools, rows, p) <==>
              q in pools && exists path :: Descends(rows, path) && path[0] == p && path[|path| - 1] == q
  {
    hide Reaches, HoldsOwn;
    if InTree(rows, p, q) {
      var n: nat :| Reaches(rows, p, q, n);
      var path := ReachHasPath(rows, p, q, n);
    }
    if path :| Descends(rows, path) && path[0] == p && path[|path| - 1] == q {
      PathReaches(rows, path);
    }
  }

  // ---- trees of siblings do not meet -------------------------------------

  lemma ChildCarve(rows: Rows, p: string, c: string)
    requires c in Children(rows, p)
    ensures PoolOf(c) in rows && rows[PoolOf(c)].pool == p
  {
    var k :| k in rows && IsChild(k, rows[k], p) && k.pool == c;
    assert k == PoolOf(c);
  }

  /** Below its root, every pool of a tree hangs from a pool of the tree. */
  lemma {:induction false} ParentInTree(rows: Rows, p: string, q: string, n: nat)
    requires Reaches(rows, p, q, n) && 0 < n
    ensures PoolOf(q) in rows && Reaches(rows, p, rows[PoolOf(q)].pool, n - 1)
    decreases n
  {
    var c :| c in Children(rows, p) && Reaches(rows, c, q, n - 1);
    if n == 1 {
      ChildCarve(rows, p, c);
    } else {
      ParentInTree(rows, c, q, n - 1);
    }
  }

  /** A tree holds no pool older than its root. */
  lemma {:induction false} TreeIsYounger(pools: Pools, rows: Rows, p: string, q: string, n: nat)
    requires CarvesMatch(pools, rows) && p in pools && Reaches(rows, p, q, n)
    ensures q in pools && pools[p].created <= pools[q].created
    ensures 0 < n ==> pools[p].created < pools[q].created
    decreases n
  {
    if 0 < n {
      var c :| c in Children(rows, p) && Reaches(rows, c, q, n - 1);
      ChildCarve(rows, p, c);
      TreeIsYounger(pools, rows, c, q, n - 1);
    }
  }

  lemma ReachesItself(rows: Rows, p: string, q: string)
    ensures Reaches(rows, p, q, 0) <==> p == q
  {
  }

  /** A pool is not in the tree of its sibling: that tree would hold their
      common source, which is older. */
  lemma SiblingOutside(pools: Pools, rows: Rows, p: string, c: string, d: string, m: nat)
    requires CarvesMatch(pools, rows) && c in Children(rows, p) && d in Children(rows, p) && c != d
    ensures !Reaches(rows, d, c, m)
  {
    ReachesItself(rows, d, c);
    ChildCarve(rows, p, c);
    ChildCarve(rows, p, d);
    hide Reaches, Children;
    if Reaches(rows, d, c, m) {
      ParentInTree(rows, d, c, m);
      TreeIsYounger(pools, rows, d, p, m - 1);
    }
  }

  lemma {:induction false} SiblingsApart(pools: Pools, rows: Rows, p: string, c: string, d: string, q: string, n: nat,
                                         m: nat)
    requires CarvesMatch(pools, rows) && c in Children(rows, p) && d in Children(rows, p) && c != d
    ensures !(Reaches(rows, c, q, n) && Reaches(rows, d, q, m))
    decreases n
  {
    hide Reaches, Children, CarvesMatch;
    if Reaches(rows, c, q, n) && Reaches(rows, d, q, m) {
      ReachesItself(rows, c, q);
      ReachesItself(rows, d, q);
      if n == 0 {
        SiblingOutside(pools, rows, p, c, d, m);
      } else if m == 0 {
        SiblingOutside(pools, rows, p, d, c, n);
      } else {
        ParentInTree(rows, c, q, n);
        ParentInTree(rows, d, q, m);
        SiblingsApart(pools, rows, p, c, d, rows[PoolOf(q)].pool, n - 1, m - 1);
      }
    }
  }

  // ---- sweeping ----------------------------------------------------------

  /** The rows left when every pool of `gone` goes, with all it holds and its
      own carve. */
  function LeftAfter(rows: Rows, gone: set<string>): Rows {
    map k | k in rows && rows[k].pool !in gone && !(k.PoolOf? && k.pool in gone) :: rows[k]
  }

  ghost predicate KeepsTree(rows: Rows, rows': Rows, p: string) {
    && (forall k :: k in rows' ==> k in rows && rows'[k] == rows[k])
    && (forall k :: k in rows && InTree(rows, p, rows[k].pool) ==> k in rows')
  }

  lemma KeepsSubtree(rows: Rows, rows': Rows, p: string, c: string)
    requires KeepsTree(rows, rows', p) && c in Children(rows, p)
    ensures KeepsTree(rows, rows', c)
  {
    forall k | k in rows && InTree(rows, c, rows[k].pool)
      ensures k in rows'
    {
      var n: nat :| Reaches(rows, c, rows[k].pool, n);
      assert Reaches(rows, p, rows[k].pool, n + 1) by {
        assert (n + 1) - 1 == n;
      }
    }
  }

  /** A tree depends only on the rows of its own pools. */
  lemma {:induction false} ReachIsLocal(rows: Rows, rows': Rows, p: string, q: string, n: nat)
    requires KeepsTree(rows, rows', p)
    ensures Reaches(rows', p, q, n) <==> Reaches(rows, p, q, n)
    decreases n
  {
    SameChildren(rows, rows', p);
    if 0 < n {
      forall c | c in Children(rows, p)
        ensures Reaches(rows', c, q, n - 1) <==> Reaches(rows, c, q, n - 1)
      {
        KeepsSubtree(rows, rows', p, c);
        ReachIsLocal(rows, rows', c, q, n - 1);
      }
    }
  }

  lemma {:induction false} ClearIsLocal(rows: Rows, rows': Rows, p: string, fuel: int)
    requires KeepsTree(rows, rows', p)
    ensures Clear(rows', p, fuel) <==> Clear(rows, p, fuel)
    decreases fuel + 1
  {
    SameChildren(rows, rows', p);
    if 0 <= fuel {
      forall c | c in Children(rows, p)
        ensures Clear(rows', c, fuel - 1) <==> Clear(rows, c, fuel - 1)
      {
        KeepsSubtree(rows, rows', p, c);
        ClearIsLocal(rows, rows', c, fuel - 1);
      }
    }
  }

  lemma SameChildren(rows: Rows, rows': Rows, p: string)
    requires KeepsTree(rows, rows', p)
    ensures Children(rows', p) == Children(rows, p)
    ensures Vacant(rows', p) <==> Vacant(rows, p)
  {
    assert Reaches(rows, p, p, 0);
    forall c | c in Children(rows, p)
      ensures c in Children(rows', p)
    {
      var k :| k in rows && IsChild(k, rows[k], p) && k.pool == c;
      assert k in rows' && rows'[k] == rows[k];
    }
    forall c | c in Children(rows', p)
      ensures c in Children(rows, p)
    {
      var k :| k in rows' && IsChild(k, rows'[k], p) && k.pool == c;
      assert k in rows;
    }
  }

  // ---- releasing one child after another ---------------------------------

  /** What is gone once the first `n` children have been released. */
  ghost function Gone(pools: Pools, rows: Rows, children: seq<string>, n: nat): set<string>
    requires n <= |children|
  {
    if n == 0 then {} else Gone(pools, rows, children, n - 1) + Tree(pools, rows, children[n - 1])
  }

  lemma {:induction false} GoneBy(pools: Pools, rows: Rows, children: seq<string>, n: nat, q: string) returns (j: nat)
    requires n <= |children| && q in Gone(pools, rows, children, n)
    ensures j < n && q in Tree(pools, rows, children[j])
  {
    if q in Tree(pools, rows, children[n - 1]) {
      j := n - 1;
    } else {
      j := GoneBy(pools, rows, children, n - 1, q);
    }
  }

  /** `children` lists the untaken carves of `p`. */
  ghost predicate ListsChildren(rows: Rows, p: string, children: seq<string>) {
    && (forall i, j :: 0 <= i < j < |children| ==> children[i] != children[j])
    && (forall c :: c in children <==> c in Children(rows, p))
  }

  /** Releasing earlier children leaves the tree of a later one alone. */
  lemma SweepKeepsTree(pools: Pools, rows: Rows, p: string, children: seq<string>, n: nat)
    requires CarvesMatch(pools, rows) && ListsChildren(rows, p, children) && n < |children|
    ensures KeepsTree(rows, LeftAfter(rows, Gone(pools, rows, children, n)), children[n])
  {
    hide Reaches, Children, Gone;
    var gone, c := Gone(pools, rows, children, n), children[n];
    forall k | k in rows && InTree(rows, c, rows[k].pool)
      ensures k in LeftAfter(rows, gone)
    {
      assert c in children;
      if rows[k].pool in gone {
        var j := GoneBy(pools, rows, children, n, rows[k].pool);
        assert children[j] in children;
        TreesApart(pools, rows, p, children[j], c, rows[k].pool);
        assert false;
      }
      if k.PoolOf? && k.pool in gone {
        var j := GoneBy(pools, rows, children, n, k.pool);
        assert children[j] in children;
        CarveOutside(pools, rows, p, children[j], c, k.pool);
        assert false;
      }
    }
  }

  lemma TreesApart(pools: Pools, rows: Rows, p: string, c: string, d: string, q: string)
    requires CarvesMatch(pools, rows) && c in Children(rows, p) && d in Children(rows, p) && c != d
    ensures !(InTree(rows, c, q) && InTree(rows, d, q))
  {
    hide Reaches, Children;
    if InTree(rows, c, q) && InTree(rows, d, q) {
      var n: nat :| Reaches(rows, c, q, n);
      var m: nat :| Reaches(rows, d, q, m);
      SiblingsApart(pools, rows, p, c, d, q, n, m);
    }
  }

  /** The carve of a pool in one child's tree does not lie in another's. */
  lemma CarveOutside(pools: Pools, rows: Rows, p: string, c: string, d: string, q: string)
    requires CarvesMatch(pools, rows) && c in Children(rows, p) && d in Children(rows, p) && c != d
    requires InTree(rows, c, q) && PoolOf(q) in rows
    ensures !InTree(rows, d, rows[PoolOf(q)].pool)
  {
    ChildCarve(rows, p, c);
    ChildCarve(rows, p, d);
    hide Reaches, Children, CarvesMatch;
    var n: nat :| Reaches(rows, c, q, n);
    if n == 0 {
      ReachesItself(rows, c, q);
      if InTree(rows, d, p) {
        var m: nat :| Reaches(rows, d, p, m);
        OlderOutside(pools, rows, p, d, m);
      }
    } else {
      ParentInTree(rows, c, q, n);
      TreesApart(pools, rows, p, c, d, rows[PoolOf(q)].pool);
    }
  }

  lemma OlderOutside(pools: Pools, rows: Rows, p: string, d: string, m: nat)
    requires CarvesMatch(pools, rows) && d in Children(rows, p)
    ensures !Reaches(rows, d, p, m)
  {
    ChildCarve(rows, p, d);
    if Reaches(rows, d, p, m) {
      TreeIsYounger(pools, rows, d, p, m);
    }
  }

  /** So a child's tree is the same before and after. */
  lemma TreeUnchanged(pools: Pools, rows: Rows, p: string, children: seq<string>, n: nat, fuel: int)
    requires CarvesMatch(pools, rows) && ListsChildren(rows, p, children) && n < |children|
    ensures var gone := Gone(pools, rows, children, n);
            && (Clear(LeftAfter(rows, gone), children[n], fuel) <==> Clear(rows, children[n], fuel))
            && Tree(pools - gone, LeftAfter(rows, gone), children[n]) == Tree(pools, rows, children[n])
  {
    hide Reaches, Children, Clear, Gone, CarvesMatch;
    var gone, c := Gone(pools, rows, children, n), children[n];
    SweepKeepsTree(pools, rows, p, children, n);
    ClearIsLocal(rows, LeftAfter(rows, gone), c, fuel);
    forall q
      ensures InTree(LeftAfter(rows, gone), c, q) <==> InTree(rows, c, q)
    {
      forall m: nat
        ensures Reaches(LeftAfter(rows, gone), c, q, m) <==> Reaches(rows, c, q, m)
      {
        ReachIsLocal(rows, LeftAfter(rows, gone), c, q, m);
      }
    }
    forall q | InTree(rows, c, q)
      ensures q !in gone
    {
      if q in gone {
        var j := GoneBy(pools, rows, children, n, q);
        assert children[j] in children && c in children;
        TreesApart(pools, rows, p, children[j], c, q);
        assert false;
      }
    }
  }

  lemma LeftAfterBoth(rows: Rows, a: set<string>, b: set<string>)
    ensures LeftAfter(LeftAfter(rows, a), b) == LeftAfter(rows, a + b)
  {
  }

  /** All the children's trees and the pool itself are the tree. */
  lemma TreeIsGone(pools: Pools, rows: Rows, p: string, children: seq<string>)
    requires ListsChildren(rows, p, children) && p in pools
    ensures Tree(pools, rows, p) == Gone(pools, rows, children, |children|) + {p}
  {
    hide Children;
    forall q | q in Tree(pools, rows, p) && q != p
      ensures q in Gone(pools, rows, children, |children|)
    {
      var n: nat :| Reaches(rows, p, q, n);
      var c :| c in Children(rows, p) && Reaches(rows, c, q, n - 1);
      assert InTree(rows, c, q);
      var j :| 0 <= j < |children| && children[j] == c;
      GoneHas(pools, rows, children, j, |children|, q);
    }
    forall q | q in Gone(pools, rows, children, |children|)
      ensures q in Tree(pools, rows, p)
    {
      var j := GoneBy(pools, rows, children, |children|, q);
      assert children[j] in children;
      var n: nat :| Reaches(rows, children[j], q, n);
      assert Reaches(rows, p, q, n + 1) by {
        assert (n + 1) - 1 == n;
      }
    }
    assert Reaches(rows, p, p, 0);
  }

  lemma {:induction false} GoneHas(pools: Pools, rows: Rows, children: seq<string>, j: nat, n: nat, q: string)
    requires j < n <= |children| && q in Tree(pools, rows, children[j])
    ensures q in Gone(pools, rows, children, n)
    decreases n
  {
    if j < n - 1 {
      GoneHas(pools, rows, children, j, n - 1, q);
    }
  }
}
