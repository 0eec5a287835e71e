/** Scopes and the canonical forms whose digests decide which pools and which
    address spaces are one. A string is a sequence of bytes, each written as a
    character; the digest itself is left as an opaque function of the form. */
module Scope {
  import opened Common

  // ---- length-prefixed fields --------------------------------------------

  function Digit(n: nat): (c: char)
    requires n < 10
    ensures c != ':'
  {
    "0123456789"[n]
  }

  function Itoa(n: nat): (s: string)
    ensures s != [] && ':' !in s
  {
    if n < 10 then [Digit(n)] else Itoa(n / 10) + [Digit(n % 10)]
  }

  lemma {:induction false} ItoaInjective(m: nat, n: nat)
    requires Itoa(m) == Itoa(n)
    ensures m == n
  {
    var a, b := Itoa(m), Itoa(n);
    LastDigit(m);
    LastDigit(n);
    DigitInjective(m % 10, n % 10);
    if m >= 10 {
      assert a[..|a| - 1] == b[..|b| - 1];
      ItoaInjective(m / 10, n / 10);
    }
  }

  lemma DigitInjective(i: nat, j: nat)
    requires i < 10 && j < 10 && Digit(i) == Digit(j)
    ensures i == j
  {
  }

  lemma LastDigit(n: nat)
    ensures Itoa(n)[|Itoa(n)| - 1] == Digit(n % 10)
    ensures n >= 10 ==> Itoa(n)[..|Itoa(n)| - 1] == Itoa(n / 10)
    ensures n < 10 <==> |Itoa(n)| == 1
  {
  }

  /** The number a decimal numeral stands for. */
  function Value(s: string): int {
    if s == [] then 0 else 10 * Value(s[..|s| - 1]) + (s[|s| - 1] as int - '0' as int)
  }

  lemma {:induction false} ItoaIsDecimal(n: nat)
    ensures Value(Itoa(n)) == n
    ensures forall c :: c in Itoa(n) ==> '0' <= c <= '9'
    ensures n > 0 ==> Itoa(n)[0] != '0'
  {
    LastDigit(n);
    if n >= 10 {
      ItoaIsDecimal(n / 10);
    }
  }

  function Field(v: string): string {
    Itoa(|v|) + ":" + v
  }

  function Fields(vs: seq<string>): string {
    if vs == [] then "" else Field(vs[0]) + Fields(vs[1..])
  }

  /** The first colon ends a length, whatever the contents hold. */
  lemma PrefixEnds(a: string, x: string, b: string, y: string)
    requires ':' !in a && ':' !in b && a + ":" + x == b + ":" + y
    ensures a == b && x == y
  {
    var s, t := a + ":" + x, b + ":" + y;
    assert s[|a|] == ':' && t[|b|] == ':';
    assert forall i :: 0 <= i < |a| ==> s[i] in a;
    assert forall i :: 0 <= i < |b| ==> t[i] in b;
    assert |a| == |b|;
    assert a == s[..|a|] && b == t[..|b|];
    assert x == s[|a| + 1..] && y == t[|b| + 1..];
  }

  /** A field can be cut off the front in one way only. */
  lemma FieldIsCut(v: string, x: string, w: string, y: string)
    requires Field(v) + x == Field(w) + y
    ensures v == w && x == y
  {
    assert Field(v) + x == Itoa(|v|) + ":" + (v + x);
    assert Field(w) + y == Itoa(|w|) + ":" + (w + y);
    PrefixEnds(Itoa(|v|), v + x, Itoa(|w|), w + y);
    ItoaInjective(|v|, |w|);
    assert v == (v + x)[..|v|] && w == (w + y)[..|w|];
    assert x == (v + x)[|v|..] && y == (w + y)[|w|..];
  }

  lemma OnlyNoFieldsIsEmpty(vs: seq<string>)
    ensures Fields(vs) == "" <==> vs == []
  {
    if vs != [] {
      assert |Field(vs[0])| > 0;
    }
  }

  /** So a sequence of fields is determined by its encoding: no content can shift
      a boundary. */
  lemma {:induction false} FieldsInjective(vs: seq<string>, ws: seq<string>)
    requires Fields(vs) == Fields(ws)
    ensures vs == ws
  {
    OnlyNoFieldsIsEmpty(vs);
    OnlyNoFieldsIsEmpty(ws);
    if vs != [] {
      FieldIsCut(vs[0], Fields(vs[1..]), ws[0], Fields(ws[1..]));
      FieldsInjective(vs[1..], ws[1..]);
      assert vs == [vs[0]] + vs[1..] && ws == [ws[0]] + ws[1..];
    }
  }

  // ---- sorted roles ------------------------------------------------------

  predicate Less(a: string, b: string) {
    if b == [] then false
    else if a == [] then true
    else a[0] < b[0] || (a[0] == b[0] && Less(a[1..], b[1..]))
  }

  lemma {:induction false} LessIsTotal(a: string, b: string)
    ensures Less(a, b) || a == b || Less(b, a)
  {
    if a != [] && b != [] && a[0] == b[0] {
      LessIsTotal(a[1..], b[1..]);
      assert a == [a[0]] + a[1..] && b == [b[0]] + b[1..];
    }
  }

  lemma {:induction false} LessIsTransitive(a: string, b: string, c: string)
    requires Less(a, b) && Less(b, c)
    ensures Less(a, c)
  {
    if a != [] && a[0] == b[0] && b[0] == c[0] {
      LessIsTransitive(a[1..], b[1..], c[1..]);
    }
  }

  lemma {:induction false} LessIsStrict(a: string, b: string)
    requires Less(a, b)
    ensures !Less(b, a) && a != b
  {
    if a != [] && a[0] == b[0] {
      LessIsStrict(a[1..], b[1..]);
    }
  }

  ghost predicate Sorted(rs: seq<string>) {
    forall i, j :: 0 <= i < j < |rs| ==> Less(rs[i], rs[j])
  }

  /** `rs` lists the names of `names` once each, in order. */
  ghost predicate IsSorted(names: set<string>, rs: seq<string>) {
    Sorted(rs) && forall r :: r in rs <==> r in names
  }

  /** A set of names has one sorted list, whatever order it is visited in. */
  lemma {:induction false} SortedIsUnique(names: set<string>, rs: seq<string>, qs: seq<string>)
    requires IsSorted(names, rs) && IsSorted(names, qs)
    ensures rs == qs
    decreases |rs|
  {
    if rs == [] {
      NoNames(qs);
    } else {
      assert rs[0] in rs;
      assert rs[0] in qs;
      FirstAgrees(names, rs, qs);
      TailSorted(names, rs);
      TailSorted(names, qs);
      SortedIsUnique(names - {rs[0]}, rs[1..], qs[1..]);
      assert rs == [rs[0]] + rs[1..] && qs == [qs[0]] + qs[1..];
    }
  }

  lemma NoNames(rs: seq<string>)
    ensures (forall r :: r !in rs) ==> rs == []
  {
    if rs != [] {
      assert rs[0] in rs;
    }
  }

  lemma FirstAgrees(names: set<string>, rs: seq<string>, qs: seq<string>)
    requires IsSorted(names, rs) && IsSorted(names, qs) && rs != [] && qs != []
    ensures rs[0] == qs[0]
  {
    assert rs[0] in rs && qs[0] in qs;
    var i :| 0 <= i < |qs| && qs[i] == rs[0];
    var j :| 0 <= j < |rs| && rs[j] == qs[0];
    if 0 < i && 0 < j {
      LessIsStrict(qs[0], qs[i]);
    }
  }

  lemma TailSorted(names: set<string>, rs: seq<string>)
    requires IsSorted(names, rs) && rs != []
    ensures IsSorted(names - {rs[0]}, rs[1..])
  {
    forall r
      ensures r in rs[1..] <==> r in names - {rs[0]}
    {
      if r in rs[1..] {
        var i :| 0 <= i < |rs[1..]| && rs[1..][i] == r;
        assert rs[i + 1] == r;
        LessIsStrict(rs[0], rs[i + 1]);
      }
      if r in names && r != rs[0] {
        assert r in rs;
        var i :| 0 <= i < |rs| && rs[i] == r;
        assert rs[1..][i - 1] == r;
      }
    }
  }

  function InsertSorted(rs: seq<string>, r: string): (out: seq<string>)
    ensures forall x :: x in out <==> x in rs || x == r
  {
    if rs == [] then [r]
    else if r == rs[0] then rs
    else if Less(r, rs[0]) then [r] + rs
    else [rs[0]] + InsertSorted(rs[1..], r)
  }

  lemma {:induction false} InsertKeepsSorted(rs: seq<string>, r: string)
    requires Sorted(rs)
    ensures Sorted(InsertSorted(rs, r))
  {
    if rs != [] && r != rs[0] {
      if Less(r, rs[0]) {
        forall i | 0 < i < |rs|
          ensures Less(r, rs[i])
        {
          LessIsTransitive(r, rs[0], rs[i]);
        }
      } else {
        LessIsTotal(r, rs[0]);
        InsertKeepsSorted(rs[1..], r);
        forall x | x in InsertSorted(rs[1..], r)
          ensures Less(rs[0], x)
        {
          if x != r {
            var i :| 0 <= i < |rs[1..]| && rs[1..][i] == x;
            assert rs[i + 1] == x;
          }
        }
      }
    }
  }

  /** The names in sorted order, each once. */
  method SortNames(names: seq<string>) returns (rs: seq<string>)
    ensures IsSorted(NamesOf(names), rs)
  {
    rs := [];
    for i := 0 to |names|
      invariant IsSorted(NamesOf(names[..i]), rs)
    {
      InsertKeepsSorted(rs, names[i]);
      rs := InsertSorted(rs, names[i]);
      assert names[..i + 1] == names[..i] + [names[i]];
    }
    assert names[..|names|] == names;
  }

  ghost function NamesOf(names: seq<string>): set<string> {
    set r | r in names
  }

  // ---- scopes and their forms --------------------------------------------

  datatype Ref = Ref(apiGroup: string, kind: string, name: string)
  type ScopeMap = map<string, Ref>

  datatype Tenancy = Tenancy(owner: string, consumer: string)

  const POOL_VERSION := "ipam.scope.v4"
  const SPACE_VERSION := "ipam.scope.v3"
  const RESERVED_ROLE := "project"

  function PoolGroup(s: ScopeMap, roles: seq<string>): seq<string>
    requires forall r :: r in roles ==> r in s
  {
    if roles == [] then []
    else
      assert roles[0] in roles;
      var ref := s[roles[0]];
      [roles[0], ref.apiGroup, ref.kind, ref.name] + PoolGroup(s, roles[1..])
  }

  function SpaceGroup(tenant: string, s: ScopeMap, roles: seq<string>): seq<string>
    requires forall r :: r in roles ==> r in s
  {
    if roles == [] then []
    else
      assert roles[0] in roles;
      var ref := s[roles[0]];
      [roles[0], tenant, ref.apiGroup, ref.kind, ref.name] + SpaceGroup(tenant, s, roles[1..])
  }

  function PoolFields(t: Tenancy, s: ScopeMap, roles: seq<string>): seq<string>
    requires forall r :: r in roles ==> r in s
  {
    [POOL_VERSION, t.owner, t.consumer, Itoa(|s|)] + PoolGroup(s, roles)
  }

  function SpaceFields(tenant: string, s: ScopeMap, roles: seq<string>): seq<string>
    requires forall r :: r in roles ==> r in s
  {
    [SPACE_VERSION, Itoa(|s|)] + SpaceGroup(tenant, s, roles)
  }

  /** The form a pool's identity is digested from. */
  ghost predicate IsPoolForm(t: Tenancy, s: ScopeMap, form: string) {
    exists roles :: IsSorted(s.Keys, roles) && form == Fields(PoolFields(t, s, roles))
  }

  /** The form an address space is digested from. */
  ghost predicate IsSpaceForm(tenant: string, s: ScopeMap, form: string) {
    exists roles :: IsSorted(s.Keys, roles) && form == Fields(SpaceFields(tenant, s, roles))
  }

  method Roles(s: ScopeMap) returns (rs: seq<string>)
    ensures IsSorted(s.Keys, rs)
  {
    rs := [];
    var todo := s.Keys;
    while todo != {}
      invariant todo <= s.Keys && Sorted(rs)
      invariant forall r :: r in rs <==> r in s && r !in todo
      decreases |todo|
    {
      var r :| r in todo;
      InsertKeepsSorted(rs, r);
      rs := InsertSorted(rs, r);
      todo := todo - {r};
    }
  }

  method CanonicalPool(t: Tenancy, s: ScopeMap) returns (form: string)
    ensures IsPoolForm(t, s, form)
  {
    var roles := Roles(s);
    hide IsSorted, Sorted, Field, Fields, Itoa, Digit;
    assert forall r :: r in roles ==> r in s;
    ghost var head := [POOL_VERSION, t.owner, t.consumer, Itoa(|s|)];
    form := WriteFields([POOL_VERSION, t.owner, t.consumer, Itoa(|s|)]);
    assert roles[..0] == [] && head + [] == head;
    for i := 0 to |roles|
      invariant form == Fields(head + PoolGroup(s, roles[..i]))
    {
      assert roles[i] in roles;
      var ref := s[roles[i]];
      var more := WriteFields([roles[i], ref.apiGroup, ref.kind, ref.name]);
      PoolGroupSnoc(s, roles, i);
      FieldsConcat(head + PoolGroup(s, roles[..i]), [roles[i], ref.apiGroup, ref.kind, ref.name]);
      JoinsAnyWay(head, PoolGroup(s, roles[..i]), [roles[i], ref.apiGroup, ref.kind, ref.name]);
      form := form + more;
    }
    assert roles[..|roles|] == roles;
  }

  /** The order the fields come in, for any scope of these two roles. */
  lemma PoolFormOfTwo(t: Tenancy, l: Ref, n: Ref, form: string)
    requires IsPoolForm(t, map["network" := n, "location" := l], form)
    ensures form == Fields(["ipam.scope.v4", t.owner, t.consumer, "2",
                            "location", l.apiGroup, l.kind, l.name, "network", n.apiGroup, n.kind, n.name])
  {
    hide Fields, Less, Sorted;
    var s := map["network" := n, "location" := l];
    var roles :| IsSorted(s.Keys, roles) && form == Fields(PoolFields(t, s, roles));
    TwoInOrder(s, roles);
    assert PoolGroup(s, roles[1..][1..]) == [];
    assert PoolGroup(s, roles[1..]) == ["network", n.apiGroup, n.kind, n.name];
    assert Itoa(2) == "2";
    assert PoolFields(t, s, roles) == ["ipam.scope.v4", t.owner, t.consumer, "2",
                                       "location", l.apiGroup, l.kind, l.name, "network", n.apiGroup, n.kind, n.name];
  }

  lemma TwoInOrder(s: ScopeMap, roles: seq<string>)
    requires IsSorted(s.Keys, roles) && s.Keys == {"network", "location"}
    ensures roles == ["location", "network"] && |s| == 2
  {
    assert Less("location", "network");
    SortedIsUnique(s.Keys, roles, ["location", "network"]);
    assert |s| == |s.Keys|;
  }

  /** A field is its length in decimal, a colon, and its bytes. */
  lemma FieldsAsWritten(v: string, rest: seq<string>)
    ensures exists length :: Fields([v] + rest) == length + ":" + v + Fields(rest) && Value(length) == |v|
    ensures Fields([]) == ""
  {
    ItoaIsDecimal(|v|);
    assert ([v] + rest)[1..] == rest;
    assert Fields([v] + rest) == Itoa(|v|) + ":" + v + Fields(rest);
  }

  method CanonicalAddressSpace(tenant: string, s: ScopeMap) returns (form: string)
    ensures IsSpaceForm(tenant, s, form)
  {
    var roles := Roles(s);
    hide IsSorted, Sorted, Field, Fields, Itoa, Digit;
    assert forall r :: r in roles ==> r in s;
    ghost var head := [SPACE_VERSION, Itoa(|s|)];
    form := WriteFields([SPACE_VERSION, Itoa(|s|)]);
    assert roles[..0] == [] && head + [] == head;
    for i := 0 to |roles|
      invariant form == Fields(head + SpaceGroup(tenant, s, roles[..i]))
    {
      assert roles[i] in roles;
      var ref := s[roles[i]];
      var more := WriteFields([roles[i], tenant, ref.apiGroup, ref.kind, ref.name]);
      SpaceGroupSnoc(tenant, s, roles, i);
      FieldsConcat(head + SpaceGroup(tenant, s, roles[..i]), [roles[i], tenant, ref.apiGroup, ref.kind, ref.name]);
      JoinsAnyWay(head, SpaceGroup(tenant, s, roles[..i]), [roles[i], tenant, ref.apiGroup, ref.kind, ref.name]);
      form := form + more;
    }
    assert roles[..|roles|] == roles;
  }

  /** Writes fields one after another. */
  method WriteFields(vs: seq<string>) returns (out: string)
    ensures out == Fields(vs)
  {
    out := "";
    for i := 0 to |vs|
      invariant out == Fields(vs[..i])
    {
      FieldsConcat(vs[..i], [vs[i]]);
      assert vs[..i + 1] == vs[..i] + [vs[i]];
      assert Fields([vs[i]]) == Field(vs[i]) by {
        assert [vs[i]][1..] == [];
        assert Field(vs[i]) + "" == Field(vs[i]);
      }
      out := out + Field(vs[i]);
    }
    assert vs[..|vs|] == vs;
  }

  lemma {:induction false} FieldsConcat(xs: seq<string>, ys: seq<string>)
    ensures Fields(xs + ys) == Fields(xs) + Fields(ys)
  {
    if xs == [] {
      assert xs + ys == ys;
    } else {
      assert (xs + ys)[1..] == xs[1..] + ys;
      FieldsConcat(xs[1..], ys);
    }
  }

  lemma {:induction false} PoolGroupSnoc(s: ScopeMap, roles: seq<string>, i: nat)
    requires i < |roles| && forall r :: r in roles ==> r in s
    ensures roles[i] in s
    ensures var ref := s[roles[i]];
            PoolGroup(s, roles[..i + 1]) == PoolGroup(s, roles[..i]) + [roles[i], ref.apiGroup, ref.kind, ref.name]
  {
    assert roles[i] in roles;
    if i == 0 {
      assert roles[..1] == [roles[0]] && roles[..1][1..] == [];
    } else {
      var rest, ref := roles[1..], s[roles[0]];
      var head := [roles[0], ref.apiGroup, ref.kind, ref.name];
      assert roles[..i + 1][1..] == rest[..i] && roles[..i][1..] == rest[..i - 1];
      assert PoolGroup(s, roles[..i + 1]) == head + PoolGroup(s, rest[..i]);
      assert PoolGroup(s, roles[..i]) == head + PoolGroup(s, rest[..i - 1]);
      hide PoolGroup;
      PoolGroupSnoc(s, rest, i - 1);
      var last := s[roles[i]];
      JoinsAnyWay(head, PoolGroup(s, rest[..i - 1]), [roles[i], last.apiGroup, last.kind, last.name]);
    }
  }

  lemma {:induction false} SpaceGroupSnoc(tenant: string, s: ScopeMap, roles: seq<string>, i: nat)
    requires i < |roles| && forall r :: r in roles ==> r in s
    ensures roles[i] in s
    ensures SpaceGroup(tenant, s, roles[..i + 1])
         == SpaceGroup(tenant, s, roles[..i])
            + [roles[i], tenant, s[roles[i]].apiGroup, s[roles[i]].kind, s[roles[i]].name]
  {
    assert roles[i] in roles;
    if i == 0 {
      assert roles[..1] == [roles[0]] && roles[..1][1..] == [];
    } else {
      var rest, ref := roles[1..], s[roles[0]];
      var head := [roles[0], tenant, ref.apiGroup, ref.kind, ref.name];
      assert roles[..i + 1][1..] == rest[..i] && roles[..i][1..] == rest[..i - 1];
      assert SpaceGroup(tenant, s, roles[..i + 1]) == head + SpaceGroup(tenant, s, rest[..i]);
      assert SpaceGroup(tenant, s, roles[..i]) == head + SpaceGroup(tenant, s, rest[..i - 1]);
      hide SpaceGroup;
      SpaceGroupSnoc(tenant, s, rest, i - 1);
      var last := s[roles[i]];
      JoinsAnyWay(head, SpaceGroup(tenant, s, rest[..i - 1]), [roles[i], tenant, last.apiGroup, last.kind, last.name]);
    }
  }

  // ---- what a form determines --------------------------------------------

  ghost predicate SameRefs(s: ScopeMap, s': ScopeMap, roles: seq<string>) {
    forall r :: r in roles ==> r in s && r in s' && s[r] == s'[r]
  }

  lemma {:induction false} PoolGroupDetermines(s: ScopeMap, roles: seq<string>, s': ScopeMap, roles': seq<string>)
    requires (forall r :: r in roles ==> r in s) && (forall r :: r in roles' ==> r in s')
    requires PoolGroup(s, roles) == PoolGroup(s', roles')
    ensures roles == roles' && SameRefs(s, s', roles)
  {
    if roles != [] && roles' != [] {
      var a, b := PoolGroup(s, roles), PoolGroup(s', roles');
      assert a[0] == b[0] && a[1] == b[1] && a[2] == b[2] && a[3] == b[3];
      assert PoolGroup(s, roles[1..]) == a[4..] && PoolGroup(s', roles'[1..]) == b[4..];
      PoolGroupDetermines(s, roles[1..], s', roles'[1..]);
      assert roles == [roles[0]] + roles[1..] && roles' == [roles'[0]] + roles'[1..];
    }
  }

  lemma {:induction false} SpaceGroupDetermines(t: string, s: ScopeMap, roles: seq<string>, t': string, s': ScopeMap,
                                                roles': seq<string>)
    requires (forall r :: r in roles ==> r in s) && (forall r :: r in roles' ==> r in s')
    requires SpaceGroup(t, s, roles) == SpaceGroup(t', s', roles')
    ensures roles == roles' && SameRefs(s, s', roles) && (roles != [] ==> t == t')
  {
    if roles != [] && roles' != [] {
      var a, b := SpaceGroup(t, s, roles), SpaceGroup(t', s', roles');
      assert a[0] == b[0] && a[1] == b[1] && a[2] == b[2] && a[3] == b[3] && a[4] == b[4];
      assert SpaceGroup(t, s, roles[1..]) == a[5..] && SpaceGroup(t', s', roles'[1..]) == b[5..];
      SpaceGroupDetermines(t, s, roles[1..], t', s', roles'[1..]);
      assert roles == [roles[0]] + roles[1..] && roles' == [roles'[0]] + roles'[1..];
    }
  }

  lemma SameMap(s: ScopeMap, s': ScopeMap, roles: seq<string>)
    requires IsSorted(s.Keys, roles) && IsSorted(s'.Keys, roles) && SameRefs(s, s', roles)
    ensures s == s'
  {
  }

  /** The pool form is injective in the owner, the consumer and the scope. */
  lemma PoolFormInjective(t: Tenancy, s: ScopeMap, t': Tenancy, s': ScopeMap, form: string)
    requires IsPoolForm(t, s, form) && IsPoolForm(t', s', form)
    ensures t == t' && s == s'
  {
    var rs :| IsSorted(s.Keys, rs) && form == Fields(PoolFields(t, s, rs));
    var qs :| IsSorted(s'.Keys, qs) && form == Fields(PoolFields(t', s', qs));
    var a, b := PoolFields(t, s, rs), PoolFields(t', s', qs);
    FieldsInjective(a, b);
    assert a[1] == b[1] && a[2] == b[2];
    assert PoolGroup(s, rs) == a[4..] && PoolGroup(s', qs) == b[4..];
    PoolGroupDetermines(s, rs, s', qs);
    SameMap(s, s', rs);
  }

  /** The address-space form is injective in the scope and, when the scope has
      refs, in the tenant; with no refs it is the same for every tenant. */
  lemma SpaceFormInjective(tenant: string, s: ScopeMap, tenant': string, s': ScopeMap, form: string)
    requires IsSpaceForm(tenant, s, form)
    ensures IsSpaceForm(tenant', s', form) <==> s == s' && (s != map[] ==> tenant == tenant')
  {
    var rs :| IsSorted(s.Keys, rs) && form == Fields(SpaceFields(tenant, s, rs));
    if IsSpaceForm(tenant', s', form) {
      var qs :| IsSorted(s'.Keys, qs) && form == Fields(SpaceFields(tenant', s', qs));
      var a, b := SpaceFields(tenant, s, rs), SpaceFields(tenant', s', qs);
      FieldsInjective(a, b);
      assert SpaceGroup(tenant, s, rs) == a[2..] && SpaceGroup(tenant', s', qs) == b[2..];
      SpaceGroupDetermines(tenant, s, rs, tenant', s', qs);
      SameMap(s, s', rs);
      if rs == [] {
        assert s.Keys == {};
      }
    }
    if s == s' == map[] {
      NoNames(rs);
      assert SpaceFields(tenant, s, rs) == SpaceFields(tenant', s', rs);
    }
  }

  lemma PoolFormUnique(t: Tenancy, s: ScopeMap, form: string, form': string)
    requires IsPoolForm(t, s, form) && IsPoolForm(t, s, form')
    ensures form == form'
  {
    var rs :| IsSorted(s.Keys, rs) && form == Fields(PoolFields(t, s, rs));
    var qs :| IsSorted(s.Keys, qs) && form' == Fields(PoolFields(t, s, qs));
    SortedIsUnique(s.Keys, rs, qs);
  }

  lemma SpaceFormUnique(tenant: string, s: ScopeMap, form: string, form': string)
    requires IsSpaceForm(tenant, s, form) && IsSpaceForm(tenant, s, form')
    ensures form == form'
  {
    var rs :| IsSorted(s.Keys, rs) && form == Fields(SpaceFields(tenant, s, rs));
    var qs :| IsSorted(s.Keys, qs) && form' == Fields(SpaceFields(tenant, s, qs));
    SortedIsUnique(s.Keys, rs, qs);
  }

  /** No form of one kind is a form of the other. */
  lemma FormsNeverMeet(t: Tenancy, s: ScopeMap, tenant: string, s': ScopeMap, form: string)
    requires IsPoolForm(t, s, form)
    ensures !IsSpaceForm(tenant, s', form)
  {
    if IsSpaceForm(tenant, s', form) {
      var rs :| IsSorted(s.Keys, rs) && form == Fields(PoolFields(t, s, rs));
      var qs :| IsSorted(s'.Keys, qs) && form == Fields(SpaceFields(tenant, s', qs));
      var a, b := PoolFields(t, s, rs), SpaceFields(tenant, s', qs);
      VersionsDiffer(a, b);
      FieldsInjective(a, b);
    }
  }

  lemma VersionsDiffer(a: seq<string>, b: seq<string>)
    requires |a| > 0 && |b| > 0 && a[0] == POOL_VERSION && b[0] == SPACE_VERSION
    ensures a != b
  {
    assert POOL_VERSION[12] == '4' && SPACE_VERSION[12] == '3';
  }

  /** The tenant comes in each role's group. */
  lemma SpaceFormOfTwo(tenant: string, l: Ref, n: Ref, form: string)
    requires IsSpaceForm(tenant, map["network" := n, "location" := l], form)
    ensures form == Fields(["ipam.scope.v3", "2", "location", tenant, l.apiGroup, l.kind, l.name,
                            "network", tenant, n.apiGroup, n.kind, n.name])
  {
    hide Fields, Less, Sorted;
    var s := map["network" := n, "location" := l];
    var roles :| IsSorted(s.Keys, roles) && form == Fields(SpaceFields(tenant, s, roles));
    TwoInOrder(s, roles);
    assert SpaceGroup(tenant, s, roles[1..][1..]) == [];
    assert SpaceGroup(tenant, s, roles[1..]) == ["network", tenant, n.apiGroup, n.kind, n.name];
    assert Itoa(2) == "2";
    assert SpaceFields(tenant, s, roles) == ["ipam.scope.v3", "2", "location", tenant, l.apiGroup, l.kind, l.name,
                                             "network", tenant, n.apiGroup, n.kind, n.name];
  }

  /** With no roles there is one address space, whoever the tenant. */
  lemma EmptySpaceForm(tenant: string, form: string)
    requires IsSpaceForm(tenant, map[], form)
    ensures form == Fields(["ipam.scope.v3", "0"])
  {
    var s: ScopeMap := map[];
    var roles :| IsSorted(s.Keys, roles) && form == Fields(SpaceFields(tenant, s, roles));
    NoNames(roles);
    assert Itoa(0) == "0";
    assert SpaceFields(tenant, s, roles) == ["ipam.scope.v3", "0"];
  }

  // ---- projecting a scope onto a class's roles ---------------------------

  /** A ref with no name counts as not supplied. */
  predicate Supplied(s: ScopeMap, role: string) {
    role in s && s[role].name != ""
  }

  datatype Projection = Onto(scope: ScopeMap) | Missing(roles: seq<string>)

  /** The roles asked for and not supplied, each once, in the order asked. */
  function MissingOf(s: ScopeMap, roles: seq<string>): (ms: seq<string>)
    ensures forall r :: r in ms <==> r in roles && !Supplied(s, r)
    ensures forall i, j :: 0 <= i < j < |ms| ==> ms[i] != ms[j]
  {
    if roles == [] then []
    else
      var init, last := roles[..|roles| - 1], roles[|roles| - 1];
      assert roles == init + [last];
      var ms := MissingOf(s, init);
      if Supplied(s, last) || last in ms then ms else ms + [last]
  }

  lemma NoneMissing(s: ScopeMap, roles: seq<string>)
    ensures MissingOf(s, roles[..0]) == []
  {
  }

  lemma MissingNext(s: ScopeMap, roles: seq<string>, i: nat)
    requires i < |roles|
    ensures var ms := MissingOf(s, roles[..i]);
            MissingOf(s, roles[..i + 1]) == if Supplied(s, roles[i]) || roles[i] in ms then ms else ms + [roles[i]]
  {
    assert roles[..i + 1][..i] == roles[..i];
  }

  /** The scope narrowed to the roles, or every missing one at once. */
  ghost predicate Projects(s: ScopeMap, roles: seq<string>, p: Projection) {
    if forall r :: r in roles ==> Supplied(s, r)
    then p.Onto? && p.scope.Keys == NamesOf(roles) && forall r :: r in roles ==> p.scope[r] == s[r]
    else p == Missing(MissingOf(s, roles))
  }

  /** What of the roles the scope supplies, and nothing else. */
  ghost predicate Keeps(s: ScopeMap, roles: seq<string>, out: ScopeMap) {
    && (forall r :: r in out <==> r in roles && Supplied(s, r))
    && (forall r :: r in out ==> r in s && out[r] == s[r])
  }

  lemma KeepsNext(s: ScopeMap, roles: seq<string>, i: nat, out: ScopeMap)
    requires i < |roles| && Keeps(s, roles[..i], out)
    ensures if Supplied(s, roles[i]) then roles[i] in s && Keeps(s, roles[..i + 1], out[roles[i] := s[roles[i]]])
            else Keeps(s, roles[..i + 1], out)
  {
    assert roles[..i + 1] == roles[..i] + [roles[i]];
  }

  lemma KeepsAll(s: ScopeMap, roles: seq<string>, out: ScopeMap, missing: seq<string>)
    requires Keeps(s, roles, out) && missing == MissingOf(s, roles)
    ensures Projects(s, roles, if missing == [] then Onto(out) else Missing(missing))
  {
    if missing != [] {
      assert missing[0] in missing;
    }
  }

  method Project(s: ScopeMap, roles: seq<string>) returns (p: Projection)
    ensures Projects(s, roles, p)
    ensures p.Onto? <==> forall r :: r in roles ==> r in s && s[r].name != ""
    ensures p.Missing? ==> forall r :: r in p.roles <==> r in roles && (r in s ==> s[r].name == "")
  {
    hide MissingOf, Keeps, Projects;
    var out: ScopeMap, missing := map[], [];
    NoneMissing(s, roles);
    assert Keeps(s, roles[..0], out) by {
      KeepsNone(s, roles[..0]);
    }
    for i := 0 to |roles|
      invariant missing == MissingOf(s, roles[..i]) && Keeps(s, roles[..i], out)
    {
      var role := roles[i];
      MissingNext(s, roles, i);
      KeepsNext(s, roles, i, out);
      if !Supplied(s, role) {
        if role !in missing {
          missing := missing + [role];
        }
      } else {
        out := out[role := s[role]];
      }
    }
    assert roles[..|roles|] == roles;
    KeepsAll(s, roles, out, missing);
    p := if |missing| > 0 then Missing(missing) else Onto(out);
    OntoWhenSupplied(s, roles, p);
  }

  lemma OntoWhenSupplied(s: ScopeMap, roles: seq<string>, p: Projection)
    requires Projects(s, roles, p)
    ensures p.Onto? <==> forall r :: r in roles ==> r in s && s[r].name != ""
    ensures p.Missing? ==> forall r :: r in p.roles <==> r in roles && (r in s ==> s[r].name == "")
  {
  }

  lemma KeepsNone(s: ScopeMap, roles: seq<string>)
    requires roles == []
    ensures Keeps(s, roles, map[])
  {
  }

  function WithoutReserved(roles: seq<string>): (out: seq<string>)
    ensures forall r :: r in out <==> r in roles && r != RESERVED_ROLE
  {
    OthersStay(roles, RESERVED_ROLE);
    assert forall r :: r in Except(roles, RESERVED_ROLE) <==> r in multiset(Except(roles, RESERVED_ROLE));
    Except(roles, RESERVED_ROLE)
  }

  /** A class's pool roles without the reserved one, repeats kept, and whether it
      was named. */
  function PoolPerRoles(poolPer: seq<string>): (r: (seq<string>, bool))
    ensures multiset(r.0) == multiset(poolPer)[RESERVED_ROLE := 0]
    ensures RESERVED_ROLE !in poolPer ==> r.0 == poolPer
    ensures r.1 <==> RESERVED_ROLE in poolPer
  {
    OthersStay(poolPer, RESERVED_ROLE);
    (WithoutReserved(poolPer), RESERVED_ROLE in poolPer)
  }

  /** Wherever the reserved role stands it drops out, and the roles before it and
      after it keep their places. */
  lemma ReservedDropsOut(a: seq<string>, b: seq<string>)
    ensures PoolPerRoles(a + [RESERVED_ROLE] + b) == (PoolPerRoles(a).0 + PoolPerRoles(b).0, true)
  {
    DropsOut(a, RESERVED_ROLE, b);
  }

  method ProjectFor(s: ScopeMap, roles: seq<string>) returns (p: Projection)
    ensures Projects(s, WithoutReserved(roles), p)
  {
    p := Project(s, WithoutReserved(roles));
  }

  lemma ProjectionIsUnique(s: ScopeMap, roles: seq<string>, p: Projection, q: Projection)
    requires Projects(s, roles, p) && Projects(s, roles, q)
    ensures p == q
  {
  }

  /** Two claims of one class fall in one address space exactly when they agree on
      every role the class is unique within and, if there is any, on the tenant. */
  lemma OneSpaceExactlyWhen(roles: seq<string>, tenant: string, s: ScopeMap, tenant': string, s': ScopeMap,
                            p: ScopeMap, p': ScopeMap, form: string, form': string)
    requires Projects(s, roles, Onto(p)) && Projects(s', roles, Onto(p'))
    requires IsSpaceForm(tenant, p, form) && IsSpaceForm(tenant', p', form')
    ensures form == form' <==> (forall r :: r in roles ==> s[r] == s'[r]) && (roles != [] ==> tenant == tenant')
  {
    hide IsSpaceForm;
    SpaceFormInjective(tenant, p, tenant', p', form);
    if (forall r :: r in roles ==> s[r] == s'[r]) && (roles != [] ==> tenant == tenant') {
      assert forall r :: r in p.Keys ==> r in NamesOf(roles);
      assert p == p';
      if p != map[] {
        NoNames(roles);
        var r :| r in p;
        assert r in roles;
      }
      SpaceFormUnique(tenant', p', form, form');
    }
    if form == form' {
      if roles != [] {
        assert roles[0] in roles && roles[0] in p.Keys;
      }
    }
  }

  // ---- classes that agree ------------------------------------------------

  /** Role names reduced to a comparable value. */
  ghost predicate IsRoleSetKey(roles: seq<string>, key: string) {
    exists rs :: IsSorted(NamesOf(roles), rs) && key == Fields([Itoa(|rs|)] + rs)
  }

  method RoleSetKey(roles: seq<string>) returns (key: string)
    ensures IsRoleSetKey(roles, key)
  {
    var rs := SortNames(roles);
    key := WriteFields([Itoa(|rs|)] + rs);
  }

  /** Two lists of roles have one key exactly when they name the same roles,
      whatever their order and repeats. */
  lemma RoleSetKeyDecides(a: seq<string>, key: string, b: seq<string>, key': string)
    requires IsRoleSetKey(a, key) && IsRoleSetKey(b, key')
    ensures key == key' <==> NamesOf(a) == NamesOf(b)
  {
    var rs :| IsSorted(NamesOf(a), rs) && key == Fields([Itoa(|rs|)] + rs);
    var qs :| IsSorted(NamesOf(b), qs) && key' == Fields([Itoa(|qs|)] + qs);
    if key == key' {
      FieldsInjective([Itoa(|rs|)] + rs, [Itoa(|qs|)] + qs);
      assert rs == ([Itoa(|rs|)] + rs)[1..] && qs == ([Itoa(|qs|)] + qs)[1..];
      assert NamesOf(a) == NamesOf(b);
    }
    if NamesOf(a) == NamesOf(b) {
      SortedIsUnique(NamesOf(a), rs, qs);
    }
  }

  /** The first class whose address spaces are cut differently from the first's. */
  method FirstDisagreement(classes: seq<seq<string>>) returns (at: Option<nat>)
    ensures at.None? <==> forall i :: 0 <= i < |classes| ==> NamesOf(classes[i]) == NamesOf(classes[0])
    ensures at.Some? ==> at.value < |classes| && NamesOf(classes[at.value]) != NamesOf(classes[0])
    ensures at.Some? ==> forall i :: 0 <= i < at.value ==> NamesOf(classes[i]) == NamesOf(classes[0])
  {
    hide IsRoleSetKey, NamesOf;
    if |classes| == 0 {
      return None;
    }
    var first := RoleSetKey(classes[0]);
    for i := 1 to |classes|
      invariant forall j :: 0 <= j < i ==> NamesOf(classes[j]) == NamesOf(classes[0])
    {
      var key := RoleSetKey(classes[i]);
      RoleSetKeyDecides(classes[i], key, classes[0], first);
      if key != first {
        return Some(i);
      }
    }
    return None;
  }

  /** Classes that agree treat every claim alike: the same projection, hence the
      same address space, or a rejection for the same missing roles. */
  lemma AgreeingClassesAgree(a: seq<string>, b: seq<string>, s: ScopeMap, p: Projection, q: Projection)
    requires NamesOf(a) == NamesOf(b)
    requires Projects(s, WithoutReserved(a), p) && Projects(s, WithoutReserved(b), q)
    ensures p.Onto? <==> q.Onto?
    ensures p.Onto? ==> p == q
    ensures p.Missing? ==> NamesOf(p.roles) == NamesOf(q.roles)
  {
    var u, v := WithoutReserved(a), WithoutReserved(b);
    assert forall r :: r in a <==> r in NamesOf(a);
    assert forall r :: r in b <==> r in NamesOf(b);
    assert forall r :: r in u <==> r in v;
    SameRolesProject(u, v, s, p, q);
  }

  lemma SameRolesProject(u: seq<string>, v: seq<string>, s: ScopeMap, p: Projection, q: Projection)
    requires forall r :: r in u <==> r in v
    requires Projects(s, u, p) && Projects(s, v, q)
    ensures p.Onto? <==> q.Onto?
    ensures p.Onto? ==> p == q
    ensures p.Missing? ==> NamesOf(p.roles) == NamesOf(q.roles)
  {
    hide Supplied, MissingOf;
    if p.Onto? {
      assert p.scope.Keys == q.scope.Keys;
      assert p.scope == q.scope;
    }
  }
}
