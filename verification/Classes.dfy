/** Classes, their parent chains, and the pools a claim's cascade must have. */
module Classes {
  import opened Common
  import opened Cidr
  import opened Scope

  /** `source` makes a class a reference to another; `parent` is a name in the
      project of the class that names it, empty for none. */
  datatype ClassDef = ClassDef(parent: string, source: Option<(string, string)>, family: Family, poolPer: seq<string>)

  type Graph = map<(string, string), ClassDef>

  /** A definition and the project and name it lives under. */
  datatype Class = Class(project: string, name: string, def: ClassDef) {
    function Key(): (string, string) {
      (project, name)
    }
  }

  datatype ClassError = NotFound | ChainedReference | Cycle | TooDeep | WrongFamily | NoTenant
                      | MissingRoles(roles: seq<string>)

  datatype Answer<+T> = Yes(value: T) | No(error: ClassError)

  /** `k` is the definition `at` stands for: itself, or the one it refers to. */
  ghost predicate StandsFor(g: Graph, at: (string, string), k: (string, string)) {
    at in g && k in g && g[k].source.None? && (k == at || g[at].source == Some(k))
  }

  /** `at` refers to a class that refers on to another. */
  ghost predicate Chained(g: Graph, at: (string, string)) {
    at in g && g[at].source.Some? && g[at].source.value in g && g[g[at].source.value].source.Some?
  }

  /** Reads a class, following one reference and no more. */
  function Resolve(g: Graph, project: string, name: string): (r: Answer<Class>)
    ensures r.Yes? ==> StandsFor(g, (project, name), r.value.Key()) && g[r.value.Key()] == r.value.def
    ensures forall k :: StandsFor(g, (project, name), k) ==> r.Yes? && r.value.Key() == k
    ensures r == No(ChainedReference) <==> Chained(g, (project, name))
    ensures r.No? ==> r.error == ChainedReference || r.error == NotFound
  {
    if (project, name) !in g then No(NotFound)
    else
      var c := g[(project, name)];
      if c.source.None? then Yes(Class(project, name, c))
      else
        var s := c.source.value;
        if s !in g then No(NotFound)
        else if g[s].source.Some? then No(ChainedReference)
        else Yes(Class(s.0, s.1, g[s]))
  }

  // ---- ancestry ----------------------------------------------------------

  ghost predicate ParentOf(g: Graph, c: Class, p: Class) {
    c.def.parent != "" && Resolve(g, c.project, c.def.parent) == Yes(p)
  }

  /** Each class of the path is the parent the one before it names. */
  ghost predicate Climbs(g: Graph, path: seq<Class>) {
    forall i, j :: 0 <= i && j == i + 1 < |path| ==> ParentOf(g, path[i], path[j])
  }

  /** No class occurs twice, and all hand out one family. */
  ghost predicate Distinct(path: seq<Class>) {
    forall i, j :: 0 <= i < j < |path| ==> path[i].Key() != path[j].Key() && path[i].def.family == path[j].def.family
  }

  /** A path up from a leaf to a class with no parent, without repeats, in at
      most eight steps. */
  ghost predicate IsPath(g: Graph, path: seq<Class>) {
    0 < |path| <= MAX_CHAIN_DEPTH + 1 && Climbs(g, path) && Distinct(path) && path[|path| - 1].def.parent == ""
  }

  /** The ancestry of a leaf, nearest first, the leaf itself left out. */
  ghost predicate IsAncestry(g: Graph, leaf: Class, chain: seq<Class>) {
    IsPath(g, [leaf] + chain)
  }

  /** Two climbs from one leaf never part. */
  lemma {:induction false} ClimbsAgree(g: Graph, a: seq<Class>, b: seq<Class>, i: nat)
    requires Climbs(g, a) && Climbs(g, b) && i < |a| && i < |b| && a[0] == b[0]
    ensures a[i] == b[i]
  {
    if i > 0 {
      var k := i - 1;
      ClimbsAgree(g, a, b, k);
      assert ParentOf(g, a[k], a[i]) && ParentOf(g, b[k], b[i]);
    }
  }

  /** A walk that has come this far is the start of any path there is. */
  lemma WalkIsPrefix(g: Graph, walked: seq<Class>, path: seq<Class>)
    requires 0 < |walked| && Climbs(g, walked) && IsPath(g, path) && walked[0] == path[0]
    ensures walked <= path
  {
    forall i | 0 <= i < |walked| && i < |path|
      ensures walked[i] == path[i]
    {
      ClimbsAgree(g, walked, path, i);
    }
    TopNamesNoParent(g, walked, path);
  }

  lemma TopNamesNoParent(g: Graph, walked: seq<Class>, path: seq<Class>)
    requires Climbs(g, walked) && IsPath(g, path)
    requires forall i :: 0 <= i < |walked| && i < |path| ==> walked[i] == path[i]
    ensures |walked| <= |path|
  {
    StepOf(g, walked, |path| - 1);
  }

  lemma StepOf(g: Graph, path: seq<Class>, k: int)
    ensures Climbs(g, path) && 0 <= k < |path| - 1 ==> ParentOf(g, path[k], path[k + 1])
  {
  }

  ghost predicate NoPath(g: Graph, leaf: Class) {
    forall path :: IsPath(g, path) ==> path[0] != leaf
  }

  /** What keeps the walk from going on. */
  ghost predicate Bars(g: Graph, walk: seq<Class>, last: Class, e: ClassError) {
    match e
    case Cycle => exists p :: ParentOf(g, last, p) && Occurs(walk, p.Key())
    case WrongFamily => exists p :: ParentOf(g, last, p) && !Occurs(walk, p.Key()) && p.def.family != last.def.family
    case ChainedReference => Chained(g, (last.project, last.def.parent))
    case NotFound =>
      !Chained(g, (last.project, last.def.parent)) && forall k :: !StandsFor(g, (last.project, last.def.parent), k)
    case _ => false
  }

  /** A walk up that finds no class without a parent, and why it stops. */
  ghost predicate StopsShort(g: Graph, walk: seq<Class>, e: ClassError) {
    && 0 < |walk| <= MAX_CHAIN_DEPTH + 2 && Climbs(g, walk) && Distinct(walk)
    && var last := walk[|walk| - 1];
       if |walk| == MAX_CHAIN_DEPTH + 2 then e == TooDeep else last.def.parent != "" && Bars(g, walk, last, e)
  }

  ghost predicate StopsFrom(g: Graph, leaf: Class, e: ClassError) {
    exists walk :: StopsShort(g, walk, e) && walk[0] == leaf
  }

  /** Ends on every graph, cyclic ones included: with the ancestry if the leaf
      has one, and with the reason if it has none. */
  method LoadAncestry(g: Graph, leaf: Class) returns (res: Answer<seq<Class>>)
    ensures res.Yes? ==> IsAncestry(g, leaf, res.value)
    ensures res.No? ==> NoPath(g, leaf) && StopsFrom(g, leaf, res.error)
  {
    hide Resolve, NoPath;
    var chain: seq<Class> := [];
    var seen := {leaf.Key()};
    var current := leaf;
    ghost var path := [leaf];
    while |chain| <= MAX_CHAIN_DEPTH
      invariant |chain| <= MAX_CHAIN_DEPTH + 1 && path == [leaf] + chain
      invariant Climbs(g, path) && Distinct(path) && current == path[|path| - 1]
      invariant forall k :: k in seen <==> Occurs(path, k)
      decreases MAX_CHAIN_DEPTH + 1 - |chain|
    {
      if current.def.parent == "" {
        return Yes(chain);
      }
      var parent := Resolve(g, current.project, current.def.parent);
      if parent.No? {
        NextMustResolve(g, path);
        NoneStands(g, current);
        assert StopsShort(g, path, parent.error);
        return No(parent.error);
      }
      var p := parent.value;
      if p.Key() in seen {
        NextMustBeNew(g, path, p);
        assert StopsShort(g, path, Cycle);
        return No(Cycle);
      }
      if p.def.family != leaf.def.family {
        NextMustBeNew(g, path, p);
        assert StopsShort(g, path, WrongFamily);
        return No(WrongFamily);
      }
      ClimbExtends(g, path, p);
      seen := seen + {p.Key()};
      chain := chain + [p];
      current := p;
      path := path + [p];
    }
    WalkTooLong(g, path);
    assert StopsShort(g, path, TooDeep);
    return No(TooDeep);
  }

  lemma NoneStands(g: Graph, c: Class)
    ensures var r := Resolve(g, c.project, c.def.parent);
            r.No? ==> forall walk :: Bars(g, walk, c, r.error)
  {
  }

  /** A leaf has one reason at most, and one walk that shows it. */
  lemma StopIsUnique(g: Graph, a: seq<Class>, b: seq<Class>, e: ClassError, f: ClassError)
    requires StopsShort(g, a, e) && StopsShort(g, b, f) && a[0] == b[0]
    ensures a == b && e == f
  {
    hide Bars;
    StopIsLast(g, a, b, e);
    StopIsLast(g, b, a, f);
    forall i | 0 <= i < |a|
      ensures a[i] == b[i]
    {
      ClimbsAgree(g, a, b, i);
    }
    assert a == b;
    if |a| < MAX_CHAIN_DEPTH + 2 {
      OneReason(g, a, a[|a| - 1], e, f);
    }
  }

  lemma OneReason(g: Graph, walk: seq<Class>, last: Class, e: ClassError, f: ClassError)
    requires last.def.parent != "" && Bars(g, walk, last, e) && Bars(g, walk, last, f)
    ensures e == f
  {
  }

  /** No walk from the leaf without repeats goes past the stop. */
  lemma StopIsLast(g: Graph, a: seq<Class>, b: seq<Class>, e: ClassError)
    requires StopsShort(g, a, e) && Climbs(g, b) && Distinct(b) && 0 < |b| <= MAX_CHAIN_DEPTH + 2 && a[0] == b[0]
    ensures |b| <= |a|
  {
    hide Resolve;
    if |a| < |b| {
      var n := |a| - 1;
      ClimbsAgree(g, a, b, n);
      StepOf(g, b, n);
      var p := b[|a|];
      forall i | 0 <= i < |a|
        ensures a[i].Key() != p.Key() && a[i].def.family == p.def.family
      {
        ClimbsAgree(g, a, b, i);
      }
      NothingBars(g, a, a[n], p, e);
    }
  }

  lemma NothingBars(g: Graph, walk: seq<Class>, last: Class, p: Class, e: ClassError)
    requires ParentOf(g, last, p) && !Occurs(walk, p.Key()) && p.def.family == last.def.family
    ensures !Bars(g, walk, last, e)
  {
  }

  ghost predicate Occurs(path: seq<Class>, k: (string, string)) {
    exists i :: 0 <= i < |path| && path[i].Key() == k
  }

  lemma ClimbExtends(g: Graph, path: seq<Class>, p: Class)
    requires 0 < |path| && Climbs(g, path) && ParentOf(g, path[|path| - 1], p)
    ensures Climbs(g, path + [p])
    ensures Distinct(path) && !Occurs(path, p.Key()) && p.def.family == path[0].def.family ==> Distinct(path + [p])
    ensures forall k :: Occurs(path + [p], k) <==> Occurs(path, k) || k == p.Key()
  {
    hide Resolve, ParentOf;
    var all := path + [p];
    assert all[|path|] == p;
    assert forall i :: 0 <= i < |path| ==> all[i] == path[i];
    forall k
      ensures Occurs(all, k) <==> Occurs(path, k) || k == p.Key()
    {
      if Occurs(path, k) {
        var i :| 0 <= i < |path| && path[i].Key() == k;
        assert all[i].Key() == k;
      }
      if k == p.Key() {
        assert all[|path|].Key() == k;
      }
    }
  }

  /** No path stops at a class that names a parent. */
  lemma NextMustResolve(g: Graph, walked: seq<Class>)
    requires 0 < |walked| && Climbs(g, walked) && walked[|walked| - 1].def.parent != ""
    requires Resolve(g, walked[|walked| - 1].project, walked[|walked| - 1].def.parent).No?
    ensures NoPath(g, walked[0])
  {
    forall path | IsPath(g, path)
      ensures path[0] != walked[0]
    {
      if path[0] == walked[0] {
        WalkIsPrefix(g, walked, path);
        GoesOn(g, walked, path);
        StepOf(g, path, |walked| - 1);
      }
    }
  }

  lemma GoesOn(g: Graph, walked: seq<Class>, path: seq<Class>)
    requires IsPath(g, path) && 0 < |walked| && walked <= path && walked[|walked| - 1].def.parent != ""
    ensures |walked| < |path|
  {
    assert walked[|walked| - 1] == path[|walked| - 1];
  }

  lemma NextMustBeNew(g: Graph, walked: seq<Class>, p: Class)
    requires 0 < |walked| && Climbs(g, walked) && ParentOf(g, walked[|walked| - 1], p)
    requires Occurs(walked, p.Key()) || p.def.family != walked[0].def.family
    ensures NoPath(g, walked[0])
  {
    hide Resolve, ParentOf;
    ClimbExtends(g, walked, p);
    var all := walked + [p];
    assert all[|walked|] == p && all[0] == walked[0];
    assert !Distinct(all) by {
      if Occurs(walked, p.Key()) {
        var i :| 0 <= i < |walked| && walked[i].Key() == p.Key();
        assert all[i] == walked[i];
      }
    }
    forall path | IsPath(g, path)
      ensures path[0] != walked[0]
    {
      if path[0] == walked[0] {
        WalkIsPrefix(g, all, path);
        PrefixDistinct(all, path);
      }
    }
  }

  lemma PrefixDistinct(a: seq<Class>, b: seq<Class>)
    ensures a <= b && Distinct(b) ==> Distinct(a)
  {
    if a <= b && Distinct(b) {
      assert forall i :: 0 <= i < |a| ==> a[i] == b[i];
    }
  }

  lemma WalkTooLong(g: Graph, walked: seq<Class>)
    requires MAX_CHAIN_DEPTH + 1 < |walked| && Climbs(g, walked)
    ensures NoPath(g, walked[0])
  {
    forall path | IsPath(g, path)
      ensures path[0] != walked[0]
    {
      if path[0] == walked[0] {
        WalkIsPrefix(g, walked, path);
      }
    }
  }

  /** What an ancestry promises a caller: at most eight classes, none of them the
      leaf or another, all of the leaf's family. */
  lemma AncestryIsBounded(g: Graph, leaf: Class, chain: seq<Class>)
    requires IsAncestry(g, leaf, chain)
    ensures |chain| <= 8
    ensures forall i :: 0 <= i < |chain| ==> chain[i].Key() != leaf.Key() && chain[i].def.family == leaf.def.family
    ensures forall i, j :: 0 <= i < j < |chain| ==> chain[i].Key() != chain[j].Key()
  {
    var path := [leaf] + chain;
    assert path[0] == leaf;
    forall i | 0 <= i < |chain|
      ensures chain[i].Key() != leaf.Key() && chain[i].def.family == leaf.def.family
    {
      assert path[i + 1] == chain[i];
    }
    forall i, j | 0 <= i < j < |chain|
      ensures chain[i].Key() != chain[j].Key()
    {
      assert path[i + 1] == chain[i] && path[j + 1] == chain[j];
    }
  }

  lemma AncestryIsUnique(g: Graph, leaf: Class, a: seq<Class>, b: seq<Class>)
    requires IsAncestry(g, leaf, a) && IsAncestry(g, leaf, b)
    ensures a == b
  {
    var p, q := [leaf] + a, [leaf] + b;
    WalkIsPrefix(g, p, q);
    WalkIsPrefix(g, q, p);
    assert p == q;
    assert a == p[1..] && b == q[1..];
  }

  // ---- planning ----------------------------------------------------------

  /** One pool the cascade must have. Its name, its key and its digest are
      functions of the class, the tenancy and the scope. */
  datatype Level = Level(class_: Class, tenancy: Tenancy, scope: ScopeMap)

  ghost predicate IsLevel(c: Class, scope: ScopeMap, consumer: string, level: Level) {
    && level.class_ == c
    && level.tenancy == Tenancy(c.project, if RESERVED_ROLE in c.def.poolPer then consumer else "")
    && Projects(scope, WithoutReserved(WithoutReserved(c.def.poolPer)), Onto(level.scope))
  }

  /** Root first: the nearest class of the chain comes last. */
  ghost predicate IsPlan(chain: seq<Class>, scope: ScopeMap, consumer: string, levels: seq<Level>) {
    && |levels| == |chain|
    && forall i, j :: 0 <= i < |chain| && j == |chain| - 1 - i ==> IsLevel(chain[i], scope, consumer, levels[j])
  }

  lemma PlanIsUnique(chain: seq<Class>, scope: ScopeMap, consumer: string, a: seq<Level>, b: seq<Level>)
    requires IsPlan(chain, scope, consumer, a) && IsPlan(chain, scope, consumer, b)
    ensures a == b
  {
    forall j | 0 <= j < |chain|
      ensures a[j] == b[j]
    {
      var i := |chain| - 1 - j;
      assert IsLevel(chain[i], scope, consumer, a[j]) && IsLevel(chain[i], scope, consumer, b[j]);
      ProjectionIsUnique(scope, WithoutReserved(WithoutReserved(chain[i].def.poolPer)), Onto(a[j].scope),
                         Onto(b[j].scope));
    }
  }

  /** Two claims share a class's pool exactly when they agree on every role the
      class carves pools per and, where it carves them per project, on theirs. */
  lemma OnePoolExactlyWhen(c: Class, s: ScopeMap, consumer: string, a: Level, s': ScopeMap, consumer': string, b: Level)
    requires IsLevel(c, s, consumer, a) && IsLevel(c, s', consumer', b)
    ensures a == b <==>
              && (forall r :: r in c.def.poolPer && r != RESERVED_ROLE ==> r in s && r in s' && s[r] == s'[r])
              && (RESERVED_ROLE in c.def.poolPer ==> consumer == consumer')
  {
    var roles := WithoutReserved(WithoutReserved(c.def.poolPer));
    assert forall r :: r in roles <==> r in NamesOf(roles);
    if forall r :: r in roles ==> s[r] == s'[r] {
      assert a.scope == b.scope;
    }
    if a == b {
      forall r | r in roles
        ensures s[r] == s'[r]
      {
        assert a.scope[r] == s[r] && b.scope[r] == s'[r];
      }
    }
  }

  /** Each pool of a plan is carved from the one before it. */
  lemma PlanDescends(g: Graph, leaf: Class, chain: seq<Class>, scope: ScopeMap, consumer: string, levels: seq<Level>,
                     j: nat)
    requires IsAncestry(g, leaf, chain) && IsPlan(chain, scope, consumer, levels) && j < |levels|
    ensures if j == 0 then levels[0].class_.def.parent == ""
            else ParentOf(g, levels[j].class_, levels[j - 1].class_)
    ensures j == |levels| - 1 ==> ParentOf(g, leaf, levels[j].class_)
  {
    hide Resolve, ParentOf, Projects, Distinct;
    var path, i := [leaf] + chain, |chain| - 1 - j;
    assert IsLevel(chain[i], scope, consumer, levels[j]);
    assert path[i + 1] == chain[i];
    StepOf(g, path, i);
    if 0 < j {
      var k, m := i + 1, j - 1;
      assert IsLevel(chain[k], scope, consumer, levels[m]);
      assert path[k + 1] == chain[k];
      StepOf(g, path, k);
    }
  }

  /** The scope has every role the class carves pools per. */
  ghost predicate Covers(scope: ScopeMap, c: Class) {
    exists p :: Projects(scope, WithoutReserved(WithoutReserved(c.def.poolPer)), Onto(p))
  }

  /** The class the first role is missing for, and the roles. */
  ghost predicate FirstShort(chain: seq<Class>, scope: ScopeMap, at: nat, roles: seq<string>) {
    && at < |chain| && Projects(scope, WithoutReserved(WithoutReserved(chain[at].def.poolPer)), Missing(roles))
    && forall i :: 0 <= i < at ==> Covers(scope, chain[i])
  }

  /** Why a chain has no plan. */
  ghost predicate Unplanned(chain: seq<Class>, scope: ScopeMap, consumer: Option<string>, e: ClassError) {
    if consumer.None? then e == NoTenant
    else e.MissingRoles? && exists at: nat :: FirstShort(chain, scope, at, e.roles)
  }

  ghost predicate IsShort(chain: seq<Class>, scope: ScopeMap) {
    exists at: nat, roles :: FirstShort(chain, scope, at, roles)
  }

  /** A chain with a plan is short of nothing. */
  lemma PlannedIsNotShort(chain: seq<Class>, scope: ScopeMap, consumer: string, levels: seq<Level>)
    requires IsPlan(chain, scope, consumer, levels)
    ensures !IsShort(chain, scope)
  {
    hide Projects, WithoutReserved;
    if IsShort(chain, scope) {
      var at: nat, roles :| FirstShort(chain, scope, at, roles);
      var j := |chain| - 1 - at;
      assert IsLevel(chain[at], scope, consumer, levels[j]);
      ProjectionIsUnique(scope, WithoutReserved(WithoutReserved(chain[at].def.poolPer)), Missing(roles),
                         Onto(levels[j].scope));
    }
  }

  method PlanLevels(chain: seq<Class>, scope: ScopeMap, consumer: Option<string>) returns (res: Answer<seq<Level>>)
    ensures res.Yes? ==> consumer.Some? && IsPlan(chain, scope, consumer.value, res.value)
    ensures res.No? ==> Unplanned(chain, scope, consumer, res.error)
  {
    hide Projects, WithoutReserved;
    if consumer.None? {
      return No(NoTenant);
    }
    var levels: seq<Level> := [];
    for i := 0 to |chain|
      invariant IsPlan(chain[..i], scope, consumer.value, levels)
      invariant forall k :: 0 <= k < i ==> Covers(scope, chain[k])
    {
      var c := chain[i];
      var (roles, perConsumer) := PoolPerRoles(c.def.poolPer);
      var projected := ProjectFor(scope, roles);
      if projected.Missing? {
        assert projected == Missing(projected.roles);
        assert FirstShort(chain, scope, i, projected.roles);
        return No(MissingRoles(projected.roles));
      }
      var level := Level(c, Tenancy(c.project, if perConsumer then consumer.value else ""), projected.scope);
      PlanGrows(chain, scope, consumer.value, levels, i, level);
      assert Covers(scope, c);
      levels := [level] + levels;
    }
    assert chain[..|chain|] == chain;
    return Yes(levels);
  }

  lemma PlanGrows(chain: seq<Class>, scope: ScopeMap, consumer: string, levels: seq<Level>, i: nat, level: Level)
    requires i < |chain| && IsPlan(chain[..i], scope, consumer, levels) && IsLevel(chain[i], scope, consumer, level)
    ensures IsPlan(chain[..i + 1], scope, consumer, [level] + levels)
  {
    hide IsLevel;
    var all, upTo := [level] + levels, chain[..i + 1];
    forall k, j | 0 <= k < |upTo| && j == |upTo| - 1 - k
      ensures IsLevel(upTo[k], scope, consumer, all[j])
    {
      if k < i {
        var m := i - 1 - k;
        assert chain[..i][k] == chain[k] && all[j] == levels[m];
        assert IsLevel(chain[..i][k], scope, consumer, levels[m]);
      }
    }
  }

  method PlanCascade(g: Graph, leaf: Class, scope: ScopeMap, consumer: Option<string>) returns (res: Answer<seq<Level>>)
    ensures res.Yes? ==>
              && consumer.Some?
              && exists chain :: IsAncestry(g, leaf, chain) && IsPlan(chain, scope, consumer.value, res.value)
    ensures res.No? ==>
              || (NoPath(g, leaf) && StopsFrom(g, leaf, res.error))
              || exists chain :: IsAncestry(g, leaf, chain) && Unplanned(chain, scope, consumer, res.error)
  {
    hide IsAncestry, IsPlan, Unplanned, NoPath, StopsFrom;
    var chain := LoadAncestry(g, leaf);
    if chain.No? {
      return No(chain.error);
    }
    res := PlanLevels(chain.value, scope, consumer);
  }

  /** The same plan with the leaf included. */
  method PlanScopeRangeCascade(g: Graph, leaf: Class, scope: ScopeMap, consumer: Option<string>)
    returns (res: Answer<seq<Level>>)
    ensures res.Yes? ==>
              && consumer.Some?
              && exists chain :: IsAncestry(g, leaf, chain) && IsPlan([leaf] + chain, scope, consumer.value, res.value)
    ensures res.No? ==>
              || (NoPath(g, leaf) && StopsFrom(g, leaf, res.error))
              || exists chain :: IsAncestry(g, leaf, chain) && Unplanned([leaf] + chain, scope, consumer, res.error)
  {
    hide IsAncestry, IsPlan, Unplanned, NoPath, StopsFrom;
    var chain := LoadAncestry(g, leaf);
    if chain.No? {
      return No(chain.error);
    }
    res := PlanLevels([leaf] + chain.value, scope, consumer);
  }

  /** When a child class's plan succeeds, the scope-range plan of its parent for
      the same scope and consumer is the same plan: a range taken by the parent
      is the pool the child's claims carve from. */
  lemma ChildAdoptsRange(g: Graph, child: Class, chain: seq<Class>, scope: ScopeMap, consumer: string,
                         levels: seq<Level>, rest: seq<Class>, ranged: seq<Level>)
    requires IsAncestry(g, child, chain) && chain != [] && IsPlan(chain, scope, consumer, levels)
    requires IsAncestry(g, chain[0], rest) && IsPlan([chain[0]] + rest, scope, consumer, ranged)
    ensures ParentOf(g, child, chain[0]) && ranged == levels
  {
    ParentHasAncestry(g, child, chain);
    AncestryIsUnique(g, chain[0], rest, chain[1..]);
    assert [chain[0]] + rest == chain;
    PlanIsUnique(chain, scope, consumer, levels, ranged);
  }

  /** And the parent's ancestry is there to plan from. */
  lemma ParentHasAncestry(g: Graph, child: Class, chain: seq<Class>)
    requires IsAncestry(g, child, chain) && chain != []
    ensures ParentOf(g, child, chain[0]) && IsAncestry(g, chain[0], chain[1..])
  {
    hide Resolve, ParentOf;
    var path := [child] + chain;
    assert [chain[0]] + chain[1..] == chain;
    assert path[0] == child && path[1] == chain[0];
    forall i, j | 0 <= i && j == i + 1 < |chain|
      ensures ParentOf(g, chain[i], chain[j])
    {
      var k := j + 1;
      assert path[j] == chain[i] && path[k] == chain[j];
    }
    forall i, j | 0 <= i < j < |chain|
      ensures chain[i].Key() != chain[j].Key() && chain[i].def.family == chain[j].def.family
    {
      assert path[i + 1] == chain[i] && path[j + 1] == chain[j];
    }
    assert path[|path| - 1] == chain[|chain| - 1];
  }

  /** Planning a claim of a child class, then a range of its parent: if the first
      succeeds the second does too, with the very same levels. */
  method PlanChildThenRange(g: Graph, child: Class, parent: Class, scope: ScopeMap, consumer: Option<string>)
    returns (claim: Answer<seq<Level>>, range: Answer<seq<Level>>)
    requires ParentOf(g, child, parent)
    ensures claim.Yes? ==> range == claim
  {
    hide IsPlan, Climbs, Distinct, IsShort, Resolve;
    claim := PlanCascade(g, child, scope, consumer);
    range := PlanScopeRangeCascade(g, parent, scope, consumer);
    if claim.Yes? {
      ghost var chain :| IsAncestry(g, child, chain) && IsPlan(chain, scope, consumer.value, claim.value);
      ChainStartsWith(g, child, parent, chain);
      ParentHasAncestry(g, child, chain);
      PlannedIsNotShort(chain, scope, consumer.value, claim.value);
      if range.Yes? {
        ghost var rest :| IsAncestry(g, parent, rest) && IsPlan([parent] + rest, scope, consumer.value, range.value);
        ChildAdoptsRange(g, child, chain, scope, consumer.value, claim.value, rest, range.value);
      } else {
        RangeMustPlan(g, parent, chain, scope);
      }
    }
  }

  lemma ChainStartsWith(g: Graph, child: Class, parent: Class, chain: seq<Class>)
    requires ParentOf(g, child, parent) && IsAncestry(g, child, chain)
    ensures chain != [] && chain[0] == parent
  {
    hide Distinct, Resolve;
    var path := [child] + chain;
    StepOf(g, path, 0);
    assert path[|path| - 1] == if chain == [] then child else chain[|chain| - 1];
  }

  lemma RangeMustPlan(g: Graph, parent: Class, chain: seq<Class>, scope: ScopeMap)
    requires chain != [] && chain[0] == parent && IsAncestry(g, parent, chain[1..]) && !IsShort(chain, scope)
    ensures !NoPath(g, parent)
    ensures forall rest, consumer: Option<string>, e :: IsAncestry(g, parent, rest) && consumer.Some? ==>
              !Unplanned([parent] + rest, scope, consumer, e)
  {
    assert ([parent] + chain[1..])[0] == parent;
    forall rest | IsAncestry(g, parent, rest)
      ensures [parent] + rest == chain
    {
      AncestryIsUnique(g, parent, rest, chain[1..]);
    }
  }
}
