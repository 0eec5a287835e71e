/** Edge reservations: the first `leading` and last `trailing` units of a pool,
    counted over all its ranges in address order. */
module Reservations {
  import opened Common
  import opened Cidr
  import opened Sorting
  import opened Decompose

  /** Counts are withheld in units of prefix length `unit`. */
  datatype Reservation = Reservation(unit: int, leading: int, trailing: int) {
    predicate IsZero() {
      leading == 0 && trailing == 0
    }
  }

  const NOTHING_RESERVED := Reservation(0, 0, 0)

  // ---- what is reserved -------------------------------------------------

  /** Ranges a reservation can be counted over: one family, no overlap, and each
      a whole number of units. The order they are listed in plays no part. */
  ghost predicate Sound(ps: multiset<Cidr>, unit: int) {
    OneFamily(ps) && Apart(ps) && forall p :: p in ps ==> p.ones <= unit <= Width(p.family)
  }

  ghost predicate OneFamily(ps: multiset<Cidr>) {
    forall p, q :: p in ps && q in ps ==> p.family == q.family
  }

  /** No range is listed twice and no two overlap. */
  ghost predicate Apart(ps: multiset<Cidr>) {
    && (forall p :: ps[p] <= 1)
    && (forall p, q :: p in ps && q in ps && p != q ==> !Overlaps(p, q))
  }

  ghost predicate IsUnit(ps: multiset<Cidr>, unit: int, u: Cidr) {
    u.ones == unit && exists p :: p in ps && Contains(p, u)
  }

  /** `units` lists every unit of the ranges once, in address order. */
  ghost predicate IsUnits(ps: multiset<Cidr>, unit: int, units: seq<Cidr>) {
    && Ascending(units)
    && (forall u :: u in units <==> IsUnit(ps, unit, u))
  }

  ghost predicate Edges(units: seq<Cidr>, leading: nat, trailing: nat, res: Result<seq<Cidr>>) {
    if leading + trailing > |units| then res == Err(ReservationTooLarge)
    else res == Ok(units[..leading] + units[|units| - trailing..])
  }

  /** The documented outcome of every request. */
  ghost predicate Reserves(ps: multiset<Cidr>, r: Reservation, res: Result<seq<Cidr>>) {
    if r.leading < 0 || r.trailing < 0 then res == Err(InvalidReservation)
    else if r.IsZero() then res == Ok([])
    else if |ps| == 0 then res == Err(NoParent)
    else if !Sound(ps, r.unit) then res == Err(InvalidReservation)
    else exists units :: IsUnits(ps, r.unit, units) && Edges(units, r.leading, r.trailing, res)
  }

  lemma {:induction false} AscendingIsUnique(xs: seq<Cidr>, ys: seq<Cidr>)
    requires Ascending(xs) && Ascending(ys)
    requires forall u :: u in xs <==> u in ys
    ensures xs == ys
  {
    if xs == [] {
      NoMembers(ys);
    } else {
      HeadsAgree(xs, ys);
      TailsAgree(xs, ys);
      AscendingIsUnique(xs[1..], ys[1..]);
      assert xs == [xs[0]] + xs[1..] && ys == [ys[0]] + ys[1..];
    }
  }

  lemma NoMembers(ys: seq<Cidr>)
    ensures (forall u :: u !in ys) ==> ys == []
  {
    if ys != [] {
      assert ys[0] in ys;
    }
  }

  lemma HeadsAgree(xs: seq<Cidr>, ys: seq<Cidr>)
    requires xs != []
    requires Ascending(xs) && Ascending(ys)
    requires forall u :: u in xs <==> u in ys
    ensures ys != [] && xs[0] == ys[0]
  {
    assert xs[0] in ys;
    assert ys[0] in xs;
    var i :| 0 <= i < |xs| && xs[i] == ys[0];
    var j :| 0 <= j < |ys| && ys[j] == xs[0];
  }

  lemma TailsAgree(xs: seq<Cidr>, ys: seq<Cidr>)
    requires xs != [] && ys != [] && xs[0] == ys[0]
    requires Ascending(xs) && Ascending(ys)
    requires forall u :: u in xs <==> u in ys
    ensures forall u :: u in xs[1..] <==> u in ys[1..]
  {
    forall u
      ensures u in xs[1..] <==> u in ys[1..]
    {
      TailMember(xs, u);
      TailMember(ys, u);
    }
  }

  lemma TailMember(xs: seq<Cidr>, u: Cidr)
    requires xs != [] && Ascending(xs)
    ensures u in xs[1..] <==> u in xs && u != xs[0]
  {
    assert xs == [xs[0]] + xs[1..];
    if u in xs[1..] {
      var i :| 0 <= i < |xs[1..]| && xs[1..][i] == u;
      assert u == xs[i + 1];
    }
  }

  /** A request has one outcome, whatever order its ranges are listed in. */
  lemma ReservationIsDetermined(ps: multiset<Cidr>, r: Reservation, a: Result<seq<Cidr>>, b: Result<seq<Cidr>>)
    requires Reserves(ps, r, a) && Reserves(ps, r, b)
    ensures a == b
  {
    if r.leading >= 0 && r.trailing >= 0 && !r.IsZero() && |ps| != 0 && Sound(ps, r.unit) {
      var us :| IsUnits(ps, r.unit, us) && Edges(us, r.leading, r.trailing, a);
      var vs :| IsUnits(ps, r.unit, vs) && Edges(vs, r.leading, r.trailing, b);
      AscendingIsUnique(us, vs);
    }
  }

  /** Reserved blocks ascend, are pairwise disjoint, and are units of the pool. */
  lemma ReservedBlocksAreUnits(ps: multiset<Cidr>, r: Reservation, bs: seq<Cidr>)
    requires Reserves(ps, r, Ok(bs))
    ensures Ascending(bs)
    ensures |bs| == r.leading + r.trailing
    ensures forall b :: b in bs ==> IsUnit(ps, r.unit, b)
  {
    hide Pow2, IsUnit;
    if !r.IsZero() {
      var us :| IsUnits(ps, r.unit, us) && Edges(us, r.leading, r.trailing, Ok(bs));
      var k := |us| - r.trailing;
      assert forall i :: 0 <= i < r.leading ==> bs[i] == us[i];
      assert forall i :: r.leading <= i < |bs| ==> bs[i] == us[i - r.leading + k];
      forall b | b in bs
        ensures b in us
      {
      }
    }
  }

  /** Of the units that stay free, `leading` reserved ones lie below each and
      `trailing` above it. */
  lemma FreeUnitsLieBetween(ps: multiset<Cidr>, r: Reservation, bs: seq<Cidr>, u: Cidr, i: nat)
    requires Reserves(ps, r, Ok(bs)) && !r.IsZero() && IsUnit(ps, r.unit, u) && u !in bs && i < |bs|
    ensures if i < r.leading then bs[i].Last() < u.start else u.Last() < bs[i].start
  {
    hide Pow2, IsUnit;
    var us :| IsUnits(ps, r.unit, us) && Edges(us, r.leading, r.trailing, Ok(bs));
    var k := |us| - r.trailing;
    assert forall n :: 0 <= n < r.leading ==> bs[n] == us[n];
    assert forall n :: r.leading <= n < |bs| ==> bs[n] == us[n - r.leading + k];
    forall n | 0 <= n < |us| && (n < r.leading || k <= n)
      ensures us[n] in bs
    {
      var m := if n < r.leading then n else n - k + r.leading;
      assert bs[m] == us[n];
    }
    assert u in us;
    var j :| 0 <= j < |us| && us[j] == u;
  }

  // ---- the units of one range -------------------------------------------

  function UnitCount(p: Cidr, unit: nat): (n: nat)
    requires p.ones <= unit <= Width(p.family)
    ensures n >= 1
  {
    Pow2(unit - p.ones)
  }

  function UnitAt(p: Cidr, unit: nat, n: nat): (u: Cidr)
    requires p.ones <= unit <= Width(p.family)
    requires n < UnitCount(p, unit)
    ensures u.ones == unit && Contains(p, u)
    ensures u.start == p.start + n * BlockSize(p.family, unit)
  {
    UnitIsAligned(p, unit, n);
    Block(p.family, p.start + n * BlockSize(p.family, unit), unit)
  }

  lemma UnitIsAligned(p: Cidr, unit: nat, n: nat)
    requires p.ones <= unit <= Width(p.family)
    requires n < UnitCount(p, unit)
    ensures (p.start + n * BlockSize(p.family, unit)) % BlockSize(p.family, unit) == 0
    ensures p.start <= p.start + n * BlockSize(p.family, unit)
    ensures p.start + n * BlockSize(p.family, unit) + BlockSize(p.family, unit) <= p.start + p.Size()
  {
    hide BlockSize, Pow2;
    UnitsDivide(p, unit);
    GridPoint(p.start, BlockSize(p.family, unit), UnitCount(p, unit), n);
  }

  lemma UnitsDivide(p: Cidr, unit: nat)
    requires p.ones <= unit <= Width(p.family)
    ensures p.Size() == UnitCount(p, unit) * BlockSize(p.family, unit)
    ensures p.start % BlockSize(p.family, unit) == 0
  {
    hide Pow2;
    var w := Width(p.family);
    Pow2Splits(w - unit, w - p.ones);
    CoarserIsFiner(p.start, w - unit, w - p.ones);
  }

  /** Every aligned block of that size inside the range is one of its units. */
  lemma UnitHasIndex(p: Cidr, unit: nat, u: Cidr) returns (n: nat)
    requires p.ones <= unit <= Width(p.family)
    requires u.ones == unit && Contains(p, u)
    ensures n < UnitCount(p, unit) && UnitAt(p, unit, n) == u
  {
    UnitsDivide(p, unit);
    n := GridIndex(p.start, u.start, BlockSize(p.family, unit), UnitCount(p, unit));
  }

  // ---- the units of a sorted list of ranges ------------------------------

  ghost predicate Divisible(ps: seq<Cidr>, unit: int) {
    forall i :: 0 <= i < |ps| ==> ps[i].ones <= unit <= Width(ps[i].family)
  }

  ghost function UnitsIn(p: Cidr, unit: nat): (us: seq<Cidr>)
    requires p.ones <= unit <= Width(p.family)
    ensures |us| == UnitCount(p, unit)
  {
    seq(UnitCount(p, unit), n requires 0 <= n < UnitCount(p, unit) => UnitAt(p, unit, n))
  }

  ghost function Units(ps: seq<Cidr>, unit: nat): seq<Cidr>
    requires Divisible(ps, unit)
  {
    if ps == [] then [] else Units(ps[..|ps| - 1], unit) + UnitsIn(ps[|ps| - 1], unit)
  }

  /** How many units lie below the i-th range. */
  ghost function Offset(ps: seq<Cidr>, unit: nat, i: nat): nat
    requires Divisible(ps, unit) && i <= |ps|
  {
    |Units(ps[..i], unit)|
  }

  lemma OffsetStep(ps: seq<Cidr>, unit: nat, i: nat)
    requires Divisible(ps, unit) && i < |ps|
    ensures Offset(ps, unit, i + 1) == Offset(ps, unit, i) + UnitCount(ps[i], unit)
  {
    assert ps[..i + 1][..i] == ps[..i];
  }

  lemma {:induction false} UnitPosition(ps: seq<Cidr>, unit: nat, i: nat, n: nat)
    requires Divisible(ps, unit) && i < |ps| && n < UnitCount(ps[i], unit)
    ensures Offset(ps, unit, i) + n < |Units(ps, unit)|
    ensures Units(ps, unit)[Offset(ps, unit, i) + n] == UnitAt(ps[i], unit, n)
  {
    var init := ps[..|ps| - 1];
    if i < |init| {
      UnitPosition(init, unit, i, n);
      assert init[..i] == ps[..i];
    } else {
      assert init == ps[..i];
    }
  }

  lemma OffsetTotal(ps: seq<Cidr>, unit: nat)
    requires Divisible(ps, unit)
    ensures Offset(ps, unit, |ps|) == |Units(ps, unit)|
  {
    assert ps[..|ps|] == ps;
  }

  lemma UnitsInAscend(p: Cidr, unit: nat)
    requires p.ones <= unit <= Width(p.family)
    ensures Ascending(UnitsIn(p, unit))
    ensures forall u :: u in UnitsIn(p, unit) ==> p.start <= u.start
  {
    var us, s := UnitsIn(p, unit), BlockSize(p.family, unit);
    forall i, j | 0 <= i < j < |us|
      ensures us[i].Last() < us[j].start
    {
      MulMonotone(i + 1, j, s);
      assert (i + 1) * s == i * s + s;
    }
  }

  lemma LastAscends(init: seq<Cidr>, last: Cidr, unit: nat)
    requires Divisible(init, unit) && last.ones <= unit <= Width(last.family)
    requires Ascending(init + [last])
    requires IsUnits(multiset(init), unit, Units(init, unit))
    ensures Ascending(Units(init, unit) + UnitsIn(last, unit))
  {
    hide Pow2, Units, UnitsIn;
    var us, vs := Units(init, unit), UnitsIn(last, unit);
    UnitsInAscend(last, unit);
    forall u | u in us
      ensures u.Last() < last.start
    {
      UnitIsBelow(init, last, unit, u);
    }
    JoinAscends(us, vs, last.start);
  }

  lemma UnitIsBelow(init: seq<Cidr>, last: Cidr, unit: nat, u: Cidr)
    requires Ascending(init + [last]) && IsUnit(multiset(init), unit, u)
    ensures u.Last() < last.start
  {
    hide Pow2;
    var p :| p in multiset(init) && Contains(p, u);
    var k :| 0 <= k < |init| && init[k] == p;
    assert (init + [last])[k] == p && (init + [last])[|init|] == last;
  }

  lemma JoinAscends(us: seq<Cidr>, vs: seq<Cidr>, at: int)
    requires Ascending(us) && Ascending(vs)
    requires (forall u :: u in us ==> u.Last() < at) && forall v :: v in vs ==> at <= v.start
    ensures Ascending(us + vs)
  {
    hide Pow2;
    var all := us + vs;
    forall i, j | 0 <= i < j < |all|
      ensures all[i].Last() < all[j].start
    {
      if i < |us| <= j {
        assert us[i] in us && vs[j - |us|] in vs;
      }
    }
  }

  /** The concatenated units are all the units, in order. */
  lemma {:induction false} UnitsAreAll(ps: seq<Cidr>, unit: nat)
    requires Divisible(ps, unit) && Ascending(ps)
    ensures IsUnits(multiset(ps), unit, Units(ps, unit))
  {
    if ps != [] {
      var init, last := ps[..|ps| - 1], ps[|ps| - 1];
      assert ps == init + [last];
      UnitsAreAll(init, unit);
      LastAscends(init, last, unit);
      forall u
        ensures u in Units(ps, unit) <==> IsUnit(multiset(ps), unit, u)
      {
        LastUnits(init, last, unit, u);
      }
    }
  }

  lemma LastUnits(init: seq<Cidr>, last: Cidr, unit: nat, u: Cidr)
    requires Divisible(init, unit) && last.ones <= unit <= Width(last.family)
    requires u in Units(init, unit) <==> IsUnit(multiset(init), unit, u)
    ensures u in Units(init, unit) + UnitsIn(last, unit) <==> IsUnit(multiset(init + [last]), unit, u)
  {
    if u in UnitsIn(last, unit) {
      assert last in multiset(init + [last]);
    }
    if u in Units(init, unit) {
      var p :| p in multiset(init) && Contains(p, u);
      assert p in multiset(init + [last]);
    }
    if IsUnit(multiset(init + [last]), unit, u) {
      var p :| p in multiset(init + [last]) && Contains(p, u);
      if p in init {
        assert p in multiset(init);
      } else {
        assert p == last;
        var n := UnitHasIndex(last, unit, u);
        assert UnitsIn(last, unit)[n] == u;
      }
    }
  }

  // ---- the expansion ----------------------------------------------------

  predicate SortedByStart(ps: seq<Cidr>) {
    forall i, j :: 0 <= i < j < |ps| ==> ps[i].start <= ps[j].start
  }

  predicate StartsFirst(p: Cidr, q: Cidr) {
    p.start <= q.start
  }

  method SortByStart(ps: seq<Cidr>) returns (out: seq<Cidr>)
    ensures SortedByStart(out)
    ensures multiset(out) == multiset(ps)
  {
    out := Sort(ps, StartsFirst);
  }

  lemma {:induction false} AscendingIsApart(ps: seq<Cidr>)
    requires Ascending(ps)
    ensures Apart(multiset(ps))
  {
    forall p, q | p in multiset(ps) && q in multiset(ps) && p != q
      ensures !Overlaps(p, q)
    {
      var i :| 0 <= i < |ps| && ps[i] == p;
      var j :| 0 <= j < |ps| && ps[j] == q;
    }
    forall p
      ensures multiset(ps)[p] <= 1
    {
      ListedOnce(ps, p);
    }
  }

  lemma {:induction false} ListedOnce(ps: seq<Cidr>, p: Cidr)
    requires Ascending(ps)
    ensures multiset(ps)[p] <= 1
  {
    if ps != [] {
      var init, last := ps[..|ps| - 1], ps[|ps| - 1];
      assert ps == init + [last];
      ListedOnce(init, p);
      if p == last {
        assert p !in init;
      }
    }
  }

  lemma NeighboursClash(ps: seq<Cidr>, i: nat)
    requires i + 1 < |ps| && Overlaps(ps[i], ps[i + 1])
    ensures !Apart(multiset(ps))
  {
    if ps[i] == ps[i + 1] {
      assert ps == ps[..i] + [ps[i], ps[i]] + ps[i + 2..];
    } else {
      assert ps[i] in multiset(ps) && ps[i + 1] in multiset(ps);
    }
  }

  /** The ranges in address order, or a refusal when they mix families or
      overlap. */
  method SortedDisjoint(parents: seq<Cidr>) returns (res: Result<seq<Cidr>>)
    requires parents != []
    ensures res == Err(InvalidReservation) || res.Ok?
    ensures res.Ok? <==> OneFamily(multiset(parents)) && Apart(multiset(parents))
    ensures res.Ok? ==> Ascending(res.value) && multiset(res.value) == multiset(parents)
  {
    for i := 1 to |parents|
      invariant forall j :: 0 <= j < i ==> parents[j].family == parents[0].family
    {
      if parents[i].family != parents[0].family {
        assert parents[i] in multiset(parents) && parents[0] in multiset(parents);
        return Err(InvalidReservation);
      }
    }
    var sorted := SortByStart(parents);
    SameFamilies(parents, sorted);
    hide Overlaps, Pow2, Apart, OneFamily;
    assert sorted != [] by {
      assert parents[0] in multiset(parents);
    }
    for i := 1 to |sorted|
      invariant Ascending(sorted[..i])
    {
      if Overlaps(sorted[i - 1], sorted[i]) {
        NeighboursClash(sorted, i - 1);
        return Err(InvalidReservation);
      }
      StartsAbove(sorted, i);
    }
    assert sorted[..|sorted|] == sorted;
    AscendingIsApart(sorted);
    res := Ok(sorted);
  }

  /** In start order, a range that does not overlap the one before it lies above
      all those before. */
  lemma StartsAbove(ps: seq<Cidr>, i: nat)
    requires 0 < i < |ps| && SortedByStart(ps) && Ascending(ps[..i])
    requires ps[i - 1].family == ps[i].family && !Overlaps(ps[i - 1], ps[i])
    ensures Ascending(ps[..i + 1])
  {
    hide Pow2;
    var upTo := ps[..i + 1];
    assert ps[i - 1].Last() < ps[i].start;
    forall j, k | 0 <= j < k < |upTo|
      ensures upTo[j].Last() < upTo[k].start
    {
      if k < i {
        assert upTo[j] == ps[..i][j] && upTo[k] == ps[..i][k];
      } else if j < i - 1 {
        assert ps[..i][j].Last() < ps[..i][i - 1].start;
      }
    }
  }

  lemma SameFamilies(ps: seq<Cidr>, qs: seq<Cidr>)
    requires multiset(ps) == multiset(qs)
    requires forall i :: 0 <= i < |ps| ==> ps[i].family == ps[0].family
    ensures OneFamily(multiset(ps))
    ensures forall i, j :: 0 <= i < |qs| && 0 <= j < |qs| ==> qs[i].family == qs[j].family
  {
    forall p | p in multiset(ps)
      ensures p in ps && p.family == ps[0].family
    {
    }
    forall i | 0 <= i < |qs|
      ensures qs[i].family == ps[0].family
    {
      assert qs[i] in multiset(qs);
    }
  }

  /** Walk the ranges upward, taking units from the front of each. */
  method TakeLeading(sorted: seq<Cidr>, unit: nat, leading: nat) returns (out: seq<Cidr>)
    requires Divisible(sorted, unit) && leading <= |Units(sorted, unit)|
    ensures out == Units(sorted, unit)[..leading]
  {
    hide Pow2, BlockSize;
    ghost var all := Units(sorted, unit);
    out := [];
    var remaining := leading;
    var i := 0;
    while i < |sorted| && remaining > 0
      invariant 0 <= i <= |sorted| && 0 <= remaining <= leading
      invariant |out| == leading - remaining
      invariant remaining > 0 ==> |out| == Offset(sorted, unit, i)
      invariant forall k :: 0 <= k < |out| ==> out[k] == all[k]
    {
      var count := UnitCount(sorted[i], unit);
      var take := if remaining <= count then remaining else count;
      OffsetStep(sorted, unit, i);
      for n := 0 to take
        invariant |out| == Offset(sorted, unit, i) + n
        invariant forall k :: 0 <= k < |out| ==> out[k] == all[k]
      {
        UnitPosition(sorted, unit, i, n);
        out := out + [UnitAt(sorted[i], unit, n)];
      }
      remaining := remaining - take;
      i := i + 1;
    }
    OffsetTotal(sorted, unit);
  }

  /** Walk the ranges downward, taking units from the back of each. */
  method TakeTrailing(sorted: seq<Cidr>, unit: nat, trailing: nat) returns (tail: seq<Cidr>)
    requires Divisible(sorted, unit) && trailing <= |Units(sorted, unit)|
    ensures |tail| == trailing
    ensures forall k :: 0 <= k < trailing ==>
              tail[k] == Units(sorted, unit)[|Units(sorted, unit)| - 1 - k]
  {
    hide Pow2, BlockSize;
    ghost var all := Units(sorted, unit);
    OffsetTotal(sorted, unit);
    tail := [];
    var remaining := trailing;
    var i := |sorted|;
    while i > 0 && remaining > 0
      invariant 0 <= i <= |sorted| && 0 <= remaining <= trailing
      invariant |tail| == trailing - remaining
      invariant remaining > 0 ==> |tail| == |all| - Offset(sorted, unit, i)
      invariant forall k :: 0 <= k < |tail| ==> tail[k] == all[|all| - 1 - k]
    {
      i := i - 1;
      var count := UnitCount(sorted[i], unit);
      var take := if remaining <= count then remaining else count;
      OffsetStep(sorted, unit, i);
      for n := 0 to take
        invariant |tail| == |all| - Offset(sorted, unit, i) - count + n
        invariant forall k :: 0 <= k < |tail| ==> tail[k] == all[|all| - 1 - k]
      {
        UnitPosition(sorted, unit, i, count - 1 - n);
        tail := tail + [UnitAt(sorted[i], unit, count - 1 - n)];
      }
      remaining := remaining - take;
    }
  }

  /** Count the units of every range, refusing a range a unit does not divide. */
  method CountUnits(sorted: seq<Cidr>, unit: int) returns (total: int)
    ensures total >= 0 <==> Divisible(sorted, unit)
    ensures total >= 0 && unit >= 0 ==> total == |Units(sorted, unit)|
  {
    hide Pow2, BlockSize;
    total := 0;
    for i := 0 to |sorted|
      invariant Divisible(sorted[..i], unit)
      invariant unit >= 0 ==> total == |Units(sorted[..i], unit)|
      invariant total >= 0
    {
      if unit < sorted[i].ones || unit > Width(sorted[i].family) {
        return -1;
      }
      assert sorted[..i + 1][..i] == sorted[..i];
      total := total + UnitCount(sorted[i], unit);
    }
    assert sorted[..|sorted|] == sorted;
  }

  method AppendReversed(head: seq<Cidr>, tail: seq<Cidr>) returns (out: seq<Cidr>)
    ensures |out| == |head| + |tail| && out[..|head|] == head
    ensures forall k :: 0 <= k < |tail| ==> out[|out| - 1 - k] == tail[k]
  {
    out := head;
    var i := |tail|;
    while i > 0
      invariant 0 <= i <= |tail|
      invariant |out| == |head| + |tail| - i && out[..|head|] == head
      invariant forall k :: i <= k < |tail| ==> out[|head| + |tail| - 1 - k] == tail[k]
    {
      i := i - 1;
      out := out + [tail[i]];
    }
  }

  method TakeEdges(sorted: seq<Cidr>, unit: nat, leading: nat, trailing: nat) returns (out: seq<Cidr>)
    requires Divisible(sorted, unit) && leading + trailing <= |Units(sorted, unit)|
    ensures Edges(Units(sorted, unit), leading, trailing, Ok(out))
  {
    var head := TakeLeading(sorted, unit, leading);
    var tail := TakeTrailing(sorted, unit, trailing);
    out := AppendReversed(head, tail);
    EdgesJoin(Units(sorted, unit), leading, trailing, tail, out);
  }

  lemma EdgesJoin(all: seq<Cidr>, leading: nat, trailing: nat, tail: seq<Cidr>, out: seq<Cidr>)
    requires leading + trailing <= |all|
    requires |tail| == trailing && forall k :: 0 <= k < trailing ==> tail[k] == all[|all| - 1 - k]
    requires |out| == leading + trailing && out[..leading] == all[..leading]
    requires forall k :: 0 <= k < trailing ==> out[|out| - 1 - k] == tail[k]
    ensures out == all[..leading] + all[|all| - trailing..]
  {
    forall i | leading <= i < |out|
      ensures out[i] == all[|all| - trailing..][i - leading]
    {
      var k := |out| - 1 - i;
      assert out[|out| - 1 - k] == tail[k];
    }
    assert out == out[..leading] + out[leading..];
    assert out[leading..] == all[|all| - trailing..];
  }

  lemma DivisibleIsSound(parents: seq<Cidr>, ps: seq<Cidr>, unit: int)
    requires multiset(ps) == multiset(parents)
    requires OneFamily(multiset(parents)) && Apart(multiset(parents))
    ensures Divisible(ps, unit) <==> Sound(multiset(parents), unit)
  {
    assert forall i :: 0 <= i < |ps| ==> ps[i] in multiset(ps);
    assert forall p :: p in multiset(ps) ==> p in ps;
  }

  method ReservedBlocks(parents: seq<Cidr>, r: Reservation) returns (res: Result<seq<Cidr>>)
    ensures Reserves(multiset(parents), r, res)
  {
    if r.leading < 0 || r.trailing < 0 {
      return Err(InvalidReservation);
    }
    if r.IsZero() {
      return Ok([]);
    }
    if |parents| == 0 {
      return Err(NoParent);
    }
    var sorted := SortedDisjoint(parents);
    if sorted.Err? {
      return Err(sorted.error);
    }
    var ps := sorted.value;
    DivisibleIsSound(parents, ps, r.unit);
    var total := CountUnits(ps, r.unit);
    if total < 0 {
      return Err(InvalidReservation);
    }
    assert |multiset(ps)| == |ps|;
    assert ps[0].ones <= r.unit;
    UnitsAreAll(ps, r.unit);
    if r.leading + r.trailing > total {
      res := Err(ReservationTooLarge);
    } else {
      var out := TakeEdges(ps, r.unit, r.leading, r.trailing);
      res := Ok(out);
    }
    assert Edges(Units(ps, r.unit), r.leading, r.trailing, res);
  }
}
