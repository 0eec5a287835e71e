/** The first-fit search over a stored table, reading a bounded page at a time:
    a probe for the blocks covering the cursor, then a page of blocks from it. */
module BoundedSearch {
  import opened Common
  import opened Cidr
  import opened FreeSpace
  import opened Decompose
  import opened Fit
  import opened Scanning

  // ---- the table and its two reads ---------------------------------------

  /** Rows inside the range under search: all of them, those containing an
      address, or those the table's order puts at or after it. */
  datatype Query = All | Covering(at: int) | From(at: int)

  /** The table orders blocks by first address, then by mask length, and an
      address counts as a block of full length. So a block that starts at an
      address and is wider than it comes before it. */
  predicate Meets(q: Query, c: Cidr) {
    match q
    case All => true
    case Covering(a) => c.start <= a <= c.Last()
    case From(a) => a < c.start || (a == c.start && c.ones == Width(c.family))
  }

  predicate Sooner(a: Cidr, b: Cidr) {
    a.start < b.start || (a.start == b.start && a.ones <= b.ones)
  }

  /** A page starts at the address as the table orders it, and a probe finds
      exactly the blocks that contain it. */
  lemma QueriesAgreeWithTable(host: Cidr, c: Cidr)
    requires host.ones == Width(host.family) && host.family == c.family
    ensures Meets(From(host.start), c) <==> Sooner(host, c)
    ensures Meets(Covering(host.start), c) <==> Contains(c, host)
  {
    assert host.Last() == host.start;
  }

  ghost predicate InTableOrder(rows: seq<Cidr>) {
    forall i, j :: 0 <= i < j < |rows| && rows[i].family == rows[j].family ==> Sooner(rows[i], rows[j])
  }

  /** The rows of `rows` inside `p` that meet the query, in table order. */
  function Select(rows: seq<Cidr>, p: Cidr, q: Query): (out: seq<Cidr>)
    ensures forall c :: c in out <==> c in rows && Contains(p, c) && Meets(q, c)
  {
    if rows == [] then []
    else (if Contains(p, rows[0]) && Meets(q, rows[0]) then [rows[0]] else []) + Select(rows[1..], p, q)
  }

  lemma {:induction false} SelectOrdered(rows: seq<Cidr>, p: Cidr, q: Query)
    requires InTableOrder(rows)
    ensures InTableOrder(Select(rows, p, q))
  {
    if rows != [] {
      SelectOrdered(rows[1..], p, q);
      var rest := Select(rows[1..], p, q);
      forall c | c in rest && c.family == rows[0].family
        ensures Sooner(rows[0], c)
      {
        var k :| 0 <= k < |rows[1..]| && rows[1..][k] == c;
        assert rows[k + 1] == c;
      }
    }
  }

  /** A row left out of a page comes after every row in it. */
  lemma LeftOutComesLater(rows: seq<Cidr>, p: Cidr, q: Query, n: nat, c: Cidr)
    requires InTableOrder(rows) && 0 < n <= |Select(rows, p, q)|
    requires c in Select(rows, p, q) && c !in Select(rows, p, q)[..n]
    ensures Sooner(Select(rows, p, q)[n - 1], c)
  {
    SelectOrdered(rows, p, q);
    var s := Select(rows, p, q);
    var k :| 0 <= k < |s| && s[k] == c;
    assert forall i :: 0 <= i < n ==> s[..n][i] == s[i];
    assert s[n - 1] in s;
  }

  // ---- what the search knows between two reads ---------------------------

  /** Everything fed is a row inside `p`; below the cursor the blocks fed cover
      all that the rows cover; and every row that starts before the last one fed
      ends below the cursor. */
  ghost predicate Caught(p: Cidr, rows: seq<Cidr>, lo: int, fed: seq<Cidr>, cursor: int, last: Option<int>) {
    && p.start <= lo <= cursor <= p.Last() + 1
    && (forall c :: c in fed ==> c in rows && Contains(p, c))
    && (forall a :: lo <= a < cursor && Taken(Select(rows, p, All), p.family, a) ==> Taken(fed, p.family, a))
    && (last.Some? ==> forall c :: c in rows && Contains(p, c) && c.start < last.value ==> c.Last() < cursor)
  }

  lemma CaughtAtStart(p: Cidr, rows: seq<Cidr>, lo: int)
    requires p.start <= lo <= p.Last() + 1
    ensures Caught(p, rows, lo, [], lo, None)
  {
  }

  /** The cursor stands one past a block fed. */
  lemma CursorFollows(p: Cidr, lo: int, fed: seq<Cidr>, cursor: int, ones: int) returns (c: Cidr)
    requires Walked(p, lo, fed, cursor, ones) && lo < cursor
    requires forall c :: c in fed ==> Contains(p, c)
    ensures c in fed && c.Last() == cursor - 1
  {
    assert Taken(fed, p.family, cursor - 1);
    c :| c in fed && Has(c, p.family, cursor - 1);
  }

  /** The probe: nothing covers the cursor and it stays, or it moves past
      everything that does. */
  lemma ProbeKeeps(p: Cidr, rows: seq<Cidr>, lo: int, fed: seq<Cidr>, cursor: int, last: Option<int>,
                   covering: seq<Cidr>, cursor': int, last': Option<int>, ones: int)
    requires Caught(p, rows, lo, fed, cursor, last) && IsLast(fed, p.family, last) && Walked(p, lo, fed, cursor, ones)
    requires covering == Select(rows, p, Covering(cursor))
    requires IsLast(fed + covering, p.family, last') && Walked(p, lo, fed + covering, cursor', ones)
    requires cursor <= cursor'
    ensures Caught(p, rows, lo, fed + covering, cursor', last')
    ensures if covering == [] then cursor' == cursor else cursor < cursor'
  {
    hide Available, Pow2, Select;
    var fed' := fed + covering;
    if covering == [] {
      assert fed' == fed;
    } else {
      assert covering[0] in fed';
    }
    if lo < cursor' {
      var c := CursorFollows(p, lo, fed', cursor', ones);
      forall a | cursor <= a < cursor'
        ensures Taken(fed', p.family, a)
      {
        assert Has(c, p.family, a);
      }
    }
    forall a | lo <= a < cursor && Taken(fed, p.family, a)
      ensures Taken(fed', p.family, a)
    {
      TakenConcat(fed, covering, p.family, a);
    }
    if last'.Some? {
      forall c | c in rows && Contains(p, c) && c.start < last'.value
        ensures c.Last() < cursor'
      {
        ProbeOrder(p, rows, fed, cursor, last, covering, last'.value, c);
        assert c in covering ==> c in fed';
      }
    }
  }

  lemma ProbeOrder(p: Cidr, rows: seq<Cidr>, fed: seq<Cidr>, cursor: int, last: Option<int>,
                   covering: seq<Cidr>, last': int, c: Cidr)
    requires forall d :: d in fed ==> Contains(p, d)
    requires IsLast(fed, p.family, last)
    requires last.Some? ==> forall d :: d in rows && Contains(p, d) && d.start < last.value ==> d.Last() < cursor
    requires covering == Select(rows, p, Covering(cursor))
    requires IsLast(fed + covering, p.family, Some(last'))
    requires c in rows && Contains(p, c) && c.start < last'
    ensures c.Last() < cursor || c in covering
  {
    var d :| d in fed + covering && d.family == p.family && d.start == last';
    if d in covering {
    } else {
      assert d in fed;
    }
  }

  /** A row outside the part of a page taken in ends below the cursor or starts
      no lower than the last row taken in. */
  lemma OutsidePage(p: Cidr, rows: seq<Cidr>, cursor: int, n: nat, c: Cidr)
    requires InTableOrder(rows) && Select(rows, p, Covering(cursor)) == []
    requires 0 < n <= |Select(rows, p, From(cursor))|
    requires c in rows && Contains(p, c) && c !in Select(rows, p, From(cursor))[..n]
    ensures c.Last() < cursor || Select(rows, p, From(cursor))[n - 1].start <= c.start
  {
    if cursor <= c.Last() {
      assert c !in Select(rows, p, Covering(cursor));
      assert cursor < c.start;
      LeftOutComesLater(rows, p, From(cursor), n, c);
    }
  }

  /** The page: rows from the cursor on, with nothing covering the cursor. */
  lemma PageKeeps(p: Cidr, rows: seq<Cidr>, lo: int, fed: seq<Cidr>, cursor: int, last: Option<int>,
                  n: nat, cursor': int, last': Option<int>, ones: int)
    requires InTableOrder(rows) && Select(rows, p, Covering(cursor)) == []
    requires Caught(p, rows, lo, fed, cursor, last) && Walked(p, lo, fed, cursor, ones)
    requires 0 < n <= |Select(rows, p, From(cursor))|
    requires IsLast(fed + Select(rows, p, From(cursor))[..n], p.family, last')
    requires Walked(p, lo, fed + Select(rows, p, From(cursor))[..n], cursor', ones) && cursor <= cursor'
    ensures Caught(p, rows, lo, fed + Select(rows, p, From(cursor))[..n], cursor', last')
    ensures cursor < cursor'
  {
    hide Available, Pow2, Select, InTableOrder;
    var all := Select(rows, p, From(cursor));
    var page := all[..n];
    var fed' := fed + page;
    assert forall c :: c in page ==> c in all;
    assert page[0] in fed' && page[0] in all;
    var e := CursorFollows(p, lo, fed', cursor', ones);
    assert e in page;
    forall a | lo <= a < cursor' && Taken(Select(rows, p, All), p.family, a)
      ensures Taken(fed', p.family, a)
    {
      TakenConcat(fed, page, p.family, a);
      if cursor <= a {
        PageTakes(p, rows, cursor, n, e, a);
      }
    }
    forall c | c in rows && Contains(p, c) && last'.Some? && c.start < last'.value
      ensures c.Last() < cursor'
    {
      PageOrder(p, rows, fed, cursor, n, last'.value, c);
      assert c in page ==> c in fed';
    }
  }

  /** What the rows hold up to the end of a row of the page, the page holds. */
  lemma PageTakes(p: Cidr, rows: seq<Cidr>, cursor: int, n: nat, e: Cidr, a: int)
    requires InTableOrder(rows) && Select(rows, p, Covering(cursor)) == []
    requires 0 < n <= |Select(rows, p, From(cursor))| && e in Select(rows, p, From(cursor))[..n]
    requires cursor <= a <= e.Last() && Taken(Select(rows, p, All), p.family, a)
    ensures Taken(Select(rows, p, From(cursor))[..n], p.family, a)
  {
    hide Pow2, Select, InTableOrder;
    var all := Select(rows, p, From(cursor));
    var page := all[..n];
    assert forall d :: d in page ==> d in all;
    assert e.family == p.family;
    var c :| c in Select(rows, p, All) && Has(c, p.family, a);
    if c !in page {
      OutsidePage(p, rows, cursor, n, c);
      PageInOrder(rows, p, cursor, n, e);
      assert Has(e, p.family, a);
    }
  }

  lemma PageOrder(p: Cidr, rows: seq<Cidr>, fed: seq<Cidr>, cursor: int, n: nat, last': int, c: Cidr)
    requires InTableOrder(rows) && Select(rows, p, Covering(cursor)) == []
    requires 0 < n <= |Select(rows, p, From(cursor))|
    requires forall d :: d in fed ==> Contains(p, d) && d.Last() < cursor
    requires IsLast(fed + Select(rows, p, From(cursor))[..n], p.family, Some(last'))
    requires c in rows && Contains(p, c) && c.start < last'
    ensures c.Last() < cursor || c in Select(rows, p, From(cursor))[..n]
  {
    hide Pow2, Select, InTableOrder;
    var page := Select(rows, p, From(cursor))[..n];
    if c !in page {
      OutsidePage(p, rows, cursor, n, c);
      var d :| d in fed + page && d.family == p.family && d.start == last';
      if d in page {
        PageInOrder(rows, p, cursor, n, d);
      } else {
        assert d in fed;
      }
    }
  }

  /** Within a page the last row starts highest. */
  lemma PageInOrder(rows: seq<Cidr>, p: Cidr, cursor: int, n: nat, d: Cidr)
    requires InTableOrder(rows) && 0 < n <= |Select(rows, p, From(cursor))|
    requires d in Select(rows, p, From(cursor))[..n]
    ensures d.start <= Select(rows, p, From(cursor))[n - 1].start
  {
    var s := Select(rows, p, From(cursor));
    SelectOrdered(rows, p, From(cursor));
    var k :| 0 <= k < n && s[..n][k] == d;
    assert s[n - 1] in s && s[k] in s;
  }

  // ---- the end of a range ------------------------------------------------

  /** Past the family's last address there is nothing left to order. */
  lemma TopKeeps(p: Cidr, rows: seq<Cidr>, lo: int, fed: seq<Cidr>, last: Option<int>, more: seq<Cidr>, cursor': int,
                 last': Option<int>, ones: int)
    requires Caught(p, rows, lo, fed, p.Last() + 1, last)
    requires forall c :: c in more ==> c in rows && Contains(p, c)
    requires Walked(p, lo, fed + more, cursor', ones) && p.Last() + 1 <= cursor'
    ensures cursor' == p.Last() + 1 && Caught(p, rows, lo, fed + more, cursor', last')
  {
    hide Available, Pow2, Select;
    if lo < cursor' {
      var c := CursorFollows(p, lo, fed + more, cursor', ones);
    }
    forall a | lo <= a < cursor' && Taken(fed, p.family, a)
      ensures Taken(fed + more, p.family, a)
    {
      TakenConcat(fed, more, p.family, a);
    }
  }

  /** No row of the range reaches the cursor. */
  ghost predicate AllBehind(p: Cidr, rows: seq<Cidr>, cursor: int) {
    forall c :: c in rows && Contains(p, c) ==> c.Last() < cursor
  }

  lemma EmptyReadsMeanBehind(p: Cidr, rows: seq<Cidr>, cursor: int)
    requires Select(rows, p, Covering(cursor)) == [] && Select(rows, p, From(cursor)) == []
    ensures AllBehind(p, rows, cursor)
  {
    forall c | c in rows && Contains(p, c)
      ensures c.Last() < cursor
    {
      assert c !in Select(rows, p, Covering(cursor));
      assert c !in Select(rows, p, From(cursor));
    }
  }

  /** A decision at the end of a range holds over all its rows. */
  lemma EndHolds(b: Cidr, p: Cidr, rows: seq<Cidr>, lo: int, fed: seq<Cidr>, cursor: int, ones: int)
    requires LowestFrom(b, p, lo, fed, ones) && cursor <= b.start && AllBehind(p, rows, cursor)
    requires forall c :: c in fed ==> c in rows && Contains(p, c)
    ensures LowestFrom(b, p, lo, Select(rows, p, All), ones)
  {
    hide LowestFrom, Pow2;
    DecidesForAll(b, p, lo, fed, Select(rows, p, All), ones);
  }

  /** So does a decision part-way through a page. */
  lemma PageHolds(b: Cidr, p: Cidr, rows: seq<Cidr>, lo: int, fed: seq<Cidr>, cursor: int, n: nat, ones: int)
    requires InTableOrder(rows) && Select(rows, p, Covering(cursor)) == []
    requires 0 < n <= |Select(rows, p, From(cursor))|
    requires forall c :: c in fed ==> c in rows && Contains(p, c)
    requires LowestFrom(b, p, lo, fed + Select(rows, p, From(cursor))[..n], ones)
    requires cursor <= b.start && b.Last() < Select(rows, p, From(cursor))[n - 1].start
    ensures LowestFrom(b, p, lo, Select(rows, p, All), ones)
  {
    hide LowestFrom, Pow2, InTableOrder, Select;
    var page := Select(rows, p, From(cursor))[..n];
    forall c | c in Select(rows, p, All) && c !in fed + page
      ensures c.Last() < b.start || b.Last() < c.start
    {
      OutsidePage(p, rows, cursor, n, c);
    }
    assert forall c :: c in page ==> c in Select(rows, p, From(cursor));
    DecidesForAll(b, p, lo, fed + page, Select(rows, p, All), ones);
  }

  lemma NoneHolds(p: Cidr, rows: seq<Cidr>, lo: int, fed: seq<Cidr>, ones: int)
    requires NoneFrom(p, lo, fed, ones)
    requires forall c :: c in fed ==> c in rows && Contains(p, c)
    ensures NoneFrom(p, lo, Select(rows, p, All), ones)
  {
    NoneFromMore(p, lo, fed, Select(rows, p, All), ones);
  }

  // ---- the note ----------------------------------------------------------

  /** `note` is the lowest free address of the range at or above `lo`, or there
      is none. */
  ghost predicate IsFirstFree(p: Cidr, rows: seq<Cidr>, lo: int, note: Option<int>) {
    Noted(p, lo, Select(rows, p, All), p.Last() + 1, note)
  }

  lemma NoteHolds(p: Cidr, rows: seq<Cidr>, lo: int, fed: seq<Cidr>, upTo: int, note: Option<int>)
    requires Noted(p, lo, fed, upTo, note)
    requires forall c :: c in fed ==> c in rows && Contains(p, c)
    requires note.None? ==> p.Last() < upTo
    requires note.Some? ==> !Taken(Select(rows, p, All), p.family, note.value)
    ensures IsFirstFree(p, rows, lo, note)
  {
    forall a | Taken(fed, p.family, a)
      ensures Taken(Select(rows, p, All), p.family, a)
    {
      var c :| c in fed && Has(c, p.family, a);
      assert c in Select(rows, p, All);
    }
  }

  lemma NoteHoldsAtEnd(p: Cidr, rows: seq<Cidr>, lo: int, fed: seq<Cidr>, cursor: int, last: Option<int>,
                       upTo: int, note: Option<int>)
    requires Caught(p, rows, lo, fed, cursor, last) && AllBehind(p, rows, cursor)
    requires Noted(p, lo, fed, upTo, note)
    requires note.None? ==> p.Last() < upTo
    ensures IsFirstFree(p, rows, lo, note)
  {
    NoteHolds(p, rows, lo, fed, upTo, note);
  }

  lemma NoteHoldsInPage(p: Cidr, rows: seq<Cidr>, lo: int, fed: seq<Cidr>, cursor: int, last: Option<int>, n: nat,
                        upTo: int, x: int)
    requires InTableOrder(rows) && Select(rows, p, Covering(cursor)) == []
    requires 0 < n <= |Select(rows, p, From(cursor))|
    requires Caught(p, rows, lo, fed, cursor, last)
    requires Noted(p, lo, fed + Select(rows, p, From(cursor))[..n], upTo, Some(x))
    requires x < Select(rows, p, From(cursor))[n - 1].start
    ensures IsFirstFree(p, rows, lo, Some(x))
  {
    hide Pow2, InTableOrder, Select;
    var page := Select(rows, p, From(cursor))[..n];
    assert forall c :: c in page ==> c in Select(rows, p, From(cursor));
    TakenConcat(fed, page, p.family, x);
    if Taken(Select(rows, p, All), p.family, x) {
      var c :| c in Select(rows, p, All) && Has(c, p.family, x);
      assert c !in page;
      OutsidePage(p, rows, cursor, n, c);
    } else {
      NoteHolds(p, rows, lo, fed + page, upTo, Some(x));
    }
  }

  // ---- how many reads a range can take -----------------------------------

  /** The rows of the range that end below the cursor. */
  function Behind(rows: seq<Cidr>, p: Cidr, cursor: int): (n: nat)
    ensures n <= |rows|
  {
    if rows == [] then 0
    else (if Contains(p, rows[0]) && rows[0].Last() < cursor then 1 else 0) + Behind(rows[1..], p, cursor)
  }

  lemma {:induction false} BehindGrows(rows: seq<Cidr>, p: Cidr, cursor: int, cursor': int)
    requires cursor <= cursor'
    ensures Behind(rows, p, cursor) <= Behind(rows, p, cursor')
    ensures forall c :: c in rows && Contains(p, c) && cursor <= c.Last() < cursor' ==>
              Behind(rows, p, cursor) < Behind(rows, p, cursor')
  {
    if rows != [] {
      BehindGrows(rows[1..], p, cursor, cursor');
    }
  }

  lemma NextRangeBudget(pages: nat, n: nat, i: nat, i': nat, behind: nat)
    requires pages <= i * (n + 1) + behind && behind <= n && i < i'
    ensures pages + 1 <= i' * (n + 1)
  {
    MulMonotone(i + 1, i', n + 1);
  }

  // ---- what the search answers -------------------------------------------

  ghost predicate PassedInside(parents: seq<Cidr>, floor: Option<int>, rows: seq<Cidr>, ones: int, n: int) {
    && 0 <= n <= |parents|
    && forall j :: 0 <= j < n ==> NoneFrom(parents[j], ScanFrom(parents[j], floor), Select(rows, parents[j], All), ones)
  }

  /** First fit at or above the floor, each range seeing the rows inside it. */
  ghost predicate IsFitInside(parents: seq<Cidr>, floor: Option<int>, rows: seq<Cidr>, ones: int, r: Option<Cidr>) {
    match r
    case None => PassedInside(parents, floor, rows, ones, |parents|)
    case Some(b) => exists i: nat :: FitInsideAt(parents, floor, rows, ones, b, i)
  }

  ghost predicate FitInsideAt(parents: seq<Cidr>, floor: Option<int>, rows: seq<Cidr>, ones: int, b: Cidr, i: nat) {
    && i < |parents| && PassedInside(parents, floor, rows, ones, i)
    && LowestFrom(b, parents[i], ScanFrom(parents[i], floor), Select(rows, parents[i], All), ones)
  }

  /** The search cannot leave this range: it ends at its family's last address,
      that address is held, nothing from the floor on has room, and reading from
      the zero address finds rows again. */
  ghost predicate Stuck(parents: seq<Cidr>, floor: Option<int>, rows: seq<Cidr>, ones: int, i: nat) {
    && i < |parents|
    && parents[i].Last() + 1 == Pow2(Width(parents[i].family))
    && ScanFrom(parents[i], floor) <= parents[i].Last()
    && Taken(Select(rows, parents[i], All), parents[i].family, parents[i].Last())
    && PassedInside(parents, floor, rows, ones, i + 1)
    && Select(rows, parents[i], From(0)) != []
  }

  lemma PassesInside(parents: seq<Cidr>, floor: Option<int>, rows: seq<Cidr>, ones: int, i: int, next: int)
    requires PassedInside(parents, floor, rows, ones, i) && i < next <= |parents|
    requires NoneFrom(parents[i], ScanFrom(parents[i], floor), Select(rows, parents[i], All), ones)
    requires forall j :: i < j < next ==> parents[j].Last() < ScanFrom(parents[j], floor)
    ensures PassedInside(parents, floor, rows, ones, next)
  {
    forall j | i < j < next
      ensures NoneFrom(parents[j], ScanFrom(parents[j], floor), Select(rows, parents[j], All), ones)
    {
    }
  }

  lemma StuckAtTop(parents: seq<Cidr>, floor: Option<int>, rows: seq<Cidr>, ones: int, i: nat, fed: seq<Cidr>,
                   last: Option<int>)
    requires i < |parents| && parents[i].Last() + 1 == Pow2(Width(parents[i].family))
    requires ScanFrom(parents[i], floor) <= parents[i].Last()
    requires PassedInside(parents, floor, rows, ones, i)
    requires Walked(parents[i], ScanFrom(parents[i], floor), fed, parents[i].Last() + 1, ones)
    requires Caught(parents[i], rows, ScanFrom(parents[i], floor), fed, parents[i].Last() + 1, last)
    ensures Stuck(parents, floor, rows, ones, i) <==> Select(rows, parents[i], From(0)) != []
  {
    hide Pow2, Available, Select;
    var p, lo := parents[i], ScanFrom(parents[i], floor);
    var c := CursorFollows(p, lo, fed, p.Last() + 1, ones);
    assert c in Select(rows, p, All) && Has(c, p.family, p.Last());
    EndDecides(p, lo, fed, p.Last() + 1, ones);
    NoneHolds(p, rows, lo, fed, ones);
    PassesInside(parents, floor, rows, ones, i, i + 1);
  }

  // ---- the order the scan checks -----------------------------------------

  lemma ProbeInOrder(p: Cidr, rows: seq<Cidr>, lo: int, fed: seq<Cidr>, cursor: int, last: Option<int>, n: nat,
                     last': int)
    requires InTableOrder(rows) && Caught(p, rows, lo, fed, cursor, last) && IsLast(fed, p.family, last)
    requires n < |Select(rows, p, Covering(cursor))|
    requires IsLast(fed + Select(rows, p, Covering(cursor))[..n], p.family, Some(last'))
    ensures last' <= Select(rows, p, Covering(cursor))[n].start
  {
    hide Select, Pow2, Taken;
    var s := Select(rows, p, Covering(cursor));
    SelectOrdered(rows, p, Covering(cursor));
    assert s[n] in s;
    var d :| d in fed + s[..n] && d.family == p.family && d.start == last';
    if d in s[..n] {
      var k :| 0 <= k < n && s[..n][k] == d;
      assert s[k] == d;
    } else {
      assert d in fed;
    }
  }

  lemma PageIsInOrder(p: Cidr, rows: seq<Cidr>, fed: seq<Cidr>, cursor: int, n: nat, last': int)
    requires InTableOrder(rows) && n < |Select(rows, p, From(cursor))|
    requires forall c :: c in fed ==> c.Last() < cursor
    requires IsLast(fed + Select(rows, p, From(cursor))[..n], p.family, Some(last'))
    ensures last' <= Select(rows, p, From(cursor))[n].start
  {
    hide Select, Pow2;
    var s := Select(rows, p, From(cursor));
    SelectOrdered(rows, p, From(cursor));
    assert s[n] in s;
    var d :| d in fed + s[..n] && d.family == p.family && d.start == last';
    if d in s[..n] {
      var k :| 0 <= k < n && s[..n][k] == d;
      assert s[k] == d;
    } else {
      assert d in fed;
    }
  }

  lemma TopOutOfOrder(p: Cidr, rows: seq<Cidr>, fed: seq<Cidr>, c: Cidr, last: int)
    requires forall d :: d in fed ==> d in rows && Contains(p, d)
    requires IsLast(fed, p.family, Some(last)) && c.start < last
    ensures Select(rows, p, From(0)) != []
  {
    var d :| d in fed && d.family == p.family && d.start == last;
    assert d in Select(rows, p, From(0));
  }

  // ---- the search --------------------------------------------------------

  datatype SearchResult = Found(block: Cidr) | Exhausted | NoRange | FeedOutOfOrder | DidNotAdvance

  /** A scan between two reads. */
  ghost predicate Ready(scan: Scan, rows: seq<Cidr>)
    reads scan
  {
    && scan.Valid() && !scan.done
    && ScanFrom(scan.parents[scan.pIdx], scan.floor) <= scan.pEnd
    && Caught(scan.parents[scan.pIdx], rows, ScanFrom(scan.parents[scan.pIdx], scan.floor), scan.fed, scan.cursor,
              scan.last)
  }

  predicate AtTop(scan: Scan)
    reads scan
  {
    scan.cursor == Pow2(Width(scan.family))
  }

  /** The probe. Off the top it never fails, and leaves the cursor where it is
      only if nothing covers it. */
  method FeedCovering(scan: Scan, rows: seq<Cidr>, from: int) returns (ok: bool)
    requires Ready(scan, rows) && InTableOrder(rows)
    requires from == AddressOf(scan.family, scan.cursor)
    modifies scan
    ensures scan.Valid() && scan.pIdx == old(scan.pIdx) && scan.family == old(scan.family)
    ensures scan.pEnd == old(scan.pEnd)
    ensures !ok ==> old(AtTop(scan)) && Select(rows, scan.parents[scan.pIdx], From(0)) != []
    ensures ok ==> Ready(scan, rows) && old(scan.cursor) <= scan.cursor
    ensures ok && scan.cursor == old(scan.cursor) && !AtTop(scan) ==>
              Select(rows, scan.parents[scan.pIdx], Covering(scan.cursor)) == []
    ensures ok && scan.cursor != old(scan.cursor) ==>
              Behind(rows, scan.parents[scan.pIdx], old(scan.cursor))
              < Behind(rows, scan.parents[scan.pIdx], scan.cursor)
    ensures forall b :: NextStop(scan.parents[scan.pIdx], rows, old(scan.cursor), b) ==> ok && scan.cursor == b
  {
    hide Walked, Noted, NoneFrom, LowestFrom, NotedAll, NotedSoFar, IsLast, AllPassed, Select, InTableOrder, Behind;
    hide Pow2;
    hide NextStop;
    var covering := Select(rows, scan.parents[scan.pIdx], Covering(from));
    ghost var p, lo := scan.parents[scan.pIdx], ScanFrom(scan.parents[scan.pIdx], scan.floor);
    ghost var fed, cursor, last := scan.fed, scan.cursor, scan.last;
    TopIsEnd(p, rows, lo, fed, cursor, last);
    NoStopAtTop(p, rows, cursor);
    CoveringStarts(rows, p, from, cursor);
    var err, n := scan.Feed(covering);
    if scan.done {
      assert false;
    }
    if err.Some? {
      assert err.value.OutOfOrder?;
      if cursor < Pow2(Width(p.family)) {
        ProbeInOrder(p, rows, lo, fed, cursor, last, n, scan.last.value);
        assert false;
      }
      assert forall c :: c in covering[..n] ==> c in covering;
      TopOutOfOrder(p, rows, scan.fed, covering[n], scan.last.value);
      return false;
    }
    assert covering[..n] == covering;
    if cursor == Pow2(Width(p.family)) {
      TopKeeps(p, rows, lo, fed, last, covering, scan.cursor, scan.last, scan.prefixLen);
    } else {
      ProbeKeeps(p, rows, lo, fed, cursor, last, covering, scan.cursor, scan.last, scan.prefixLen);
      StopIsNext(p, rows, lo, fed, cursor, covering, scan.cursor, scan.prefixLen);
      if covering != [] {
        MovedPast(p, rows, lo, scan.fed, cursor, scan.cursor, covering[0], scan.prefixLen);
      }
    }
    ok := true;
  }

  /** From an address that rows cover the probe moves to `b`, past the one that
      ends last. (From address zero a move to the top reads as none.) */
  ghost predicate NextStop(p: Cidr, rows: seq<Cidr>, a: int, b: int) {
    && p.start <= a <= p.Last() && (0 < a || b < Pow2(Width(p.family)))
    && (exists c :: c in rows && Contains(p, c) && c.start <= a < b == c.Last() + 1)
    && (forall c :: c in rows && Contains(p, c) && c.start <= a ==> c.Last() < b)
  }

  lemma NoStopAtTop(p: Cidr, rows: seq<Cidr>, a: int)
    ensures a == Pow2(Width(p.family)) ==> forall b :: !NextStop(p, rows, a, b)
  {
  }

  lemma StopIsNext(p: Cidr, rows: seq<Cidr>, lo: int, fed: seq<Cidr>, cursor: int, covering: seq<Cidr>, cursor': int,
                   ones: int)
    requires Walked(p, lo, fed, cursor, ones) && Walked(p, lo, fed + covering, cursor', ones)
    requires forall c :: c in fed + covering ==> Contains(p, c)
    requires covering == Select(rows, p, Covering(cursor))
    ensures forall b :: NextStop(p, rows, cursor, b) ==> cursor' == b
  {
    hide Pow2, Select, Available;
    forall b | NextStop(p, rows, cursor, b)
      ensures cursor' == b
    {
      var c :| c in rows && Contains(p, c) && c.start <= cursor < b == c.Last() + 1;
      assert c in covering && c in fed + covering;
      var d := CursorFollows(p, lo, fed + covering, cursor', ones);
      assert d in covering;
    }
  }

  /** Whatever covers the address read starts no higher than the cursor. */
  lemma CoveringStarts(rows: seq<Cidr>, p: Cidr, from: int, cursor: int)
    requires from <= cursor
    ensures forall c :: c in Select(rows, p, Covering(from)) ==> c in rows && Contains(p, c)
    ensures forall k :: 0 <= k < |Select(rows, p, Covering(from))| ==>
              Select(rows, p, Covering(from))[k].start <= cursor
  {
    hide Select, Pow2, Contains;
    var covering := Select(rows, p, Covering(from));
    forall k | 0 <= k < |covering|
      ensures covering[k].start <= cursor
    {
      assert covering[k] in covering;
    }
  }

  lemma TopIsEnd(p: Cidr, rows: seq<Cidr>, lo: int, fed: seq<Cidr>, cursor: int, last: Option<int>)
    requires Caught(p, rows, lo, fed, cursor, last)
    ensures 0 <= cursor <= Pow2(Width(p.family))
    ensures cursor == Pow2(Width(p.family)) ==> cursor == p.Last() + 1
  {
  }

  lemma MovedPast(p: Cidr, rows: seq<Cidr>, lo: int, fed: seq<Cidr>, cursor: int, cursor': int, c: Cidr, ones: int)
    requires Walked(p, lo, fed, cursor', ones) && cursor <= cursor'
    requires c in fed && c in rows && Contains(p, c) && cursor <= c.Last()
    ensures Behind(rows, p, cursor) < Behind(rows, p, cursor')
  {
    BehindGrows(rows, p, cursor, cursor');
  }

  /** The answer once the scan has decided inside a range. */
  ghost predicate Answered(scan: Scan, rows: seq<Cidr>)
    reads scan
  {
    && scan.Valid() && scan.done && scan.result.Some?
    && LowestFrom(scan.result.value, scan.parents[scan.pIdx], ScanFrom(scan.parents[scan.pIdx], scan.floor),
                  Select(rows, scan.parents[scan.pIdx], All), scan.prefixLen)
    && (|scan.parents| == 1 ==>
          IsFirstFree(scan.parents[0], rows, ScanFrom(scan.parents[0], scan.floor), scan.firstFree))
  }

  /** The page. Off the top it never fails: it decides or moves the cursor. */
  method FeedPage(scan: Scan, rows: seq<Cidr>, from: int, k: nat) returns (ok: bool)
    requires Ready(scan, rows) && InTableOrder(rows)
    requires 0 < k <= |Select(rows, scan.parents[scan.pIdx], From(from))|
    requires AtTop(scan) || (from == scan.cursor && Select(rows, scan.parents[scan.pIdx], Covering(from)) == [])
    modifies scan
    ensures scan.Valid() && scan.pIdx == old(scan.pIdx) && scan.family == old(scan.family)
    ensures scan.pEnd == old(scan.pEnd)
    ensures !ok ==> old(AtTop(scan))
    ensures ok && scan.done ==> Answered(scan, rows)
    ensures ok && !scan.done ==> Ready(scan, rows) && old(scan.cursor) <= scan.cursor
    ensures ok && !scan.done && !old(AtTop(scan)) ==>
              Behind(rows, scan.parents[scan.pIdx], old(scan.cursor))
              < Behind(rows, scan.parents[scan.pIdx], scan.cursor)
  {
    hide Walked, Noted, NoneFrom, LowestFrom, NotedAll, IsLast, AllPassed, Select, InTableOrder, Behind, Pow2;
    hide IsFirstFree;
    var page := Select(rows, scan.parents[scan.pIdx], From(from))[..k];
    ghost var all := Select(rows, scan.parents[scan.pIdx], From(from));
    ghost var p, lo := scan.parents[scan.pIdx], ScanFrom(scan.parents[scan.pIdx], scan.floor);
    ghost var fed, cursor, last := scan.fed, scan.cursor, scan.last;
    assert forall c :: c in page ==> c in all;
    assert forall i :: 0 <= i < |page| ==> page[i] in page;
    TopIsEnd(p, rows, lo, fed, cursor, last);
    var err, n := scan.Feed(page);
    assert page[..n] == all[..n];
    if err.Some? {
      assert err.value.OutOfOrder?;
      if cursor < Pow2(Width(p.family)) {
        FedEndsBelow(p, lo, fed, cursor, scan.prefixLen);
        PageIsInOrder(p, rows, fed, cursor, n, scan.last.value);
        assert false;
      }
      return false;
    }
    ok := true;
    if cursor == Pow2(Width(p.family)) {
      if scan.done {
        assert false;
      }
      assert page[..n] == page;
      TopKeeps(p, rows, lo, fed, last, page, scan.cursor, scan.last, scan.prefixLen);
    } else if scan.done {
      PageHolds(scan.result.value, p, rows, lo, fed, cursor, n, scan.prefixLen);
      if |scan.parents| == 1 {
        NoteHoldsInPage(p, rows, lo, fed, cursor, last, n, scan.cursor, scan.firstFree.value);
      }
    } else {
      assert page[..n] == page;
      PageKeeps(p, rows, lo, fed, cursor, last, n, scan.cursor, scan.last, scan.prefixLen);
      MovedPast(p, rows, lo, scan.fed, cursor, scan.cursor, page[0], scan.prefixLen);
    }
  }

  lemma FedEndsBelow(p: Cidr, lo: int, fed: seq<Cidr>, cursor: int, ones: int)
    requires Walked(p, lo, fed, cursor, ones)
    requires forall c :: c in fed ==> Contains(p, c)
    ensures forall c :: c in fed ==> c.Last() < cursor
  {
  }

  /** Both reads came back empty: the range is ended. */
  method EndRange(scan: Scan, rows: seq<Cidr>)
    requires Ready(scan, rows) && AllBehind(scan.parents[scan.pIdx], rows, scan.cursor)
    modifies scan
    ensures scan.Valid()
    ensures scan.result.Some? ==> Answered(scan, rows) && scan.pIdx == old(scan.pIdx)
    ensures scan.result.None? ==>
              && old(scan.pIdx) < scan.pIdx <= |scan.parents|
              && NoneFrom(scan.parents[old(scan.pIdx)], ScanFrom(scan.parents[old(scan.pIdx)], scan.floor),
                          Select(rows, scan.parents[old(scan.pIdx)], All), scan.prefixLen)
              && (forall j :: old(scan.pIdx) < j < scan.pIdx ==>
                    scan.parents[j].Last() < ScanFrom(scan.parents[j], scan.floor))
              && (!scan.done ==> Ready(scan, rows))
              && (|scan.parents| == 1 ==>
                    IsFirstFree(scan.parents[0], rows, ScanFrom(scan.parents[0], scan.floor), scan.firstFree))
  {
    hide Walked, Noted, NoneFrom, LowestFrom, IsLast, AllPassed, Select, Behind, Pow2, IsFirstFree;
    ghost var p, lo := scan.parents[scan.pIdx], ScanFrom(scan.parents[scan.pIdx], scan.floor);
    ghost var fed, cursor, last := scan.fed, scan.cursor, scan.last;
    scan.End();
    if scan.result.Some? {
      EndHolds(scan.result.value, p, rows, lo, fed, cursor, scan.prefixLen);
      if |scan.parents| == 1 {
        NoteHoldsAtEnd(p, rows, lo, fed, cursor, last, scan.cursor, scan.firstFree);
      }
    } else {
      NoneHolds(p, rows, lo, fed, scan.prefixLen);
      if |scan.parents| == 1 {
        assert scan.heard == fed;
        NoteHoldsAtEnd(p, rows, lo, fed, cursor, last, p.Last() + 1, scan.firstFree);
      }
      if !scan.done {
        CaughtAtStart(scan.parents[scan.pIdx], rows, scan.cursor);
      }
    }
  }

  // ---- which ranges the search gets stuck in ------------------------------

  ghost predicate NoneStuck(parents: seq<Cidr>, floor: Option<int>, rows: seq<Cidr>, ones: int, n: int) {
    forall j: nat :: j < n ==> !Stuck(parents, floor, rows, ones, j)
  }

  ghost predicate IsStuck(parents: seq<Cidr>, floor: Option<int>, rows: seq<Cidr>, ones: int) {
    exists i: nat :: Stuck(parents, floor, rows, ones, i)
  }

  lemma LeftMeansNotStuck(parents: seq<Cidr>, floor: Option<int>, rows: seq<Cidr>, ones: int, i: nat, cursor: int)
    requires i < |parents| && AllBehind(parents[i], rows, cursor)
    requires cursor <= parents[i].Last() || Select(rows, parents[i], From(0)) == []
             || cursor < Pow2(Width(parents[i].family))
    requires cursor <= parents[i].Last() + 1
    ensures !Stuck(parents, floor, rows, ones, i)
  {
  }

  lemma SkippedMeansNotStuck(parents: seq<Cidr>, floor: Option<int>, rows: seq<Cidr>, ones: int, n: int, next: int)
    requires NoneStuck(parents, floor, rows, ones, n) && 0 <= n <= next <= |parents|
    requires forall j :: n <= j < next ==> parents[j].Last() < ScanFrom(parents[j], floor)
    ensures NoneStuck(parents, floor, rows, ones, next)
  {
  }

  lemma FoundMeansNotStuck(parents: seq<Cidr>, floor: Option<int>, rows: seq<Cidr>, ones: int, b: Cidr, i: nat)
    requires FitInsideAt(parents, floor, rows, ones, b, i) && NoneStuck(parents, floor, rows, ones, i)
    ensures !IsStuck(parents, floor, rows, ones)
  {
    forall j: nat | i <= j
      ensures !Stuck(parents, floor, rows, ones, j)
    {
    }
  }

  /** The progress a search has made after `pages` reads of one page each, as
      long as it is not stuck. */
  ghost predicate OnBudget(parents: seq<Cidr>, floor: Option<int>, rows: seq<Cidr>, ones: int, pages: nat, i: nat,
                           cursor: int) {
    && i < |parents|
    && (pages <= i * (|rows| + 1) + Behind(rows, parents[i], cursor) || Stuck(parents, floor, rows, ones, i))
  }

  lemma OutOfBudget(parents: seq<Cidr>, floor: Option<int>, rows: seq<Cidr>, ones: int, pages: nat, i: nat, cursor: int)
    requires OnBudget(parents, floor, rows, ones, pages, i, cursor)
    ensures IsStuck(parents, floor, rows, ones) || pages < |parents| * (|rows| + 1)
  {
    if !Stuck(parents, floor, rows, ones, i) {
      NextRangeBudget(pages, |rows|, i, |parents|, Behind(rows, parents[i], cursor));
    }
  }

  /** What ending a range does to the search as a whole. */
  lemma RangeLeft(parents: seq<Cidr>, floor: Option<int>, rows: seq<Cidr>, ones: int, pages: nat, i: nat, cursor: int,
                  next: int)
    requires OnBudget(parents, floor, rows, ones, pages, i, cursor) && i < next <= |parents|
    requires PassedInside(parents, floor, rows, ones, i) && NoneStuck(parents, floor, rows, ones, i)
    requires !Stuck(parents, floor, rows, ones, i)
    requires NoneFrom(parents[i], ScanFrom(parents[i], floor), Select(rows, parents[i], All), ones)
    requires forall j :: i < j < next ==> parents[j].Last() < ScanFrom(parents[j], floor)
    ensures PassedInside(parents, floor, rows, ones, next) && NoneStuck(parents, floor, rows, ones, next)
    ensures pages + 1 <= next * (|rows| + 1)
  {
    hide Stuck, NoneFrom, Select, Behind;
    PassesInside(parents, floor, rows, ones, i, next);
    NextRangeBudget(pages, |rows|, i, next, Behind(rows, parents[i], cursor));
    assert NoneStuck(parents, floor, rows, ones, i + 1);
    SkippedMeansNotStuck(parents, floor, rows, ones, i + 1, next);
  }

  /** The state of a search between two turns of its loop. */
  ghost predicate Searching(scan: Scan, rows: seq<Cidr>, pages: nat)
    reads scan
  {
    && scan.Valid() && PassedInside(scan.parents, scan.floor, rows, scan.prefixLen, scan.pIdx)
    && NoneStuck(scan.parents, scan.floor, rows, scan.prefixLen, scan.pIdx)
    && (!scan.done ==> Ready(scan, rows)
                       && OnBudget(scan.parents, scan.floor, rows, scan.prefixLen, pages, scan.pIdx, scan.cursor))
    && (scan.done && scan.result.Some? ==> Answered(scan, rows))
    && (scan.done && |scan.parents| == 1 ==>
          IsFirstFree(scan.parents[0], rows, ScanFrom(scan.parents[0], scan.floor), scan.firstFree))
  }

  method StartSearch(parents: seq<Cidr>, rows: seq<Cidr>, ones: int, floor: Option<int>) returns (scan: Scan)
    requires parents != []
    ensures fresh(scan) && scan.parents == parents && scan.prefixLen == ones && scan.floor == floor
    ensures Searching(scan, rows, 0)
    ensures ScanFrom(parents[0], floor) <= parents[0].Last() ==> StandsAt(scan, ScanFrom(parents[0], floor))
  {
    hide Walked, Noted, LowestFrom, NoneFrom, IsLast, AllPassed, Select, Behind, Pow2, IsFirstFree, Stuck;
    scan := new Scan(parents, ones, floor);
    SkippedMeansNotStuck(parents, floor, rows, ones, 0, scan.pIdx);
    SkippedMeansPassed(parents, floor, rows, ones, scan.pIdx);
    if !scan.done {
      CaughtAtStart(parents[scan.pIdx], rows, scan.cursor);
    } else if |parents| == 1 {
      SkippedHasNoneFree(parents[0], rows, ScanFrom(parents[0], floor), scan.heard, scan.firstFree);
    }
  }

  lemma SkippedMeansPassed(parents: seq<Cidr>, floor: Option<int>, rows: seq<Cidr>, ones: int, n: int)
    requires 0 <= n <= |parents|
    requires forall j :: 0 <= j < n ==> parents[j].Last() < ScanFrom(parents[j], floor)
    ensures PassedInside(parents, floor, rows, ones, n)
  {
  }

  lemma SkippedHasNoneFree(p: Cidr, rows: seq<Cidr>, lo: int, heard: seq<Cidr>, note: Option<int>)
    requires p.Last() < lo && Noted(p, lo, heard, p.Last() + 1, note)
    ensures IsFirstFree(p, rows, lo, note)
  {
  }

  /** Where the cursor can stand, and what it means at the top. */
  lemma AboutTop(scan: Scan, rows: seq<Cidr>)
    requires Ready(scan, rows) && PassedInside(scan.parents, scan.floor, rows, scan.prefixLen, scan.pIdx)
    ensures 0 <= scan.cursor <= scan.pEnd + 1 && scan.cursor <= Pow2(Width(scan.family))
    ensures AtTop(scan) ==> AllBehind(scan.parents[scan.pIdx], rows, scan.cursor)
    ensures AtTop(scan) ==> (Stuck(scan.parents, scan.floor, rows, scan.prefixLen, scan.pIdx)
                             <==> Select(rows, scan.parents[scan.pIdx], From(0)) != [])
  {
    hide Walked, PassedInside, Stuck, Select, Pow2;
    var p, lo := scan.parents[scan.pIdx], ScanFrom(scan.parents[scan.pIdx], scan.floor);
    TopIsEnd(p, rows, lo, scan.fed, scan.cursor, scan.last);
    if AtTop(scan) {
      StuckAtTop(scan.parents, scan.floor, rows, scan.prefixLen, scan.pIdx, scan.fed, scan.last);
    }
  }

  /** One turn of the loop: probe, then page, then end the range. */
  method Turn(scan: Scan, rows: seq<Cidr>, pageSize: nat, ghost pages: nat) returns (ok: bool)
    requires Searching(scan, rows, pages) && !scan.done && InTableOrder(rows) && 1 <= pageSize
    modifies scan
    ensures ok ==> Searching(scan, rows, pages + 1)
    ensures !ok ==> IsStuck(scan.parents, scan.floor, rows, scan.prefixLen)
    ensures forall b :: NextStop(scan.parents[old(scan.pIdx)], rows, old(scan.cursor), b) ==>
              ok && !scan.done && scan.pIdx == old(scan.pIdx) && scan.cursor == b
  {
    hide Walked, Noted, LowestFrom, NoneFrom, IsLast, AllPassed, Select, Behind, Pow2, IsFirstFree, NotedAll;
    hide NotedSoFar;
    hide Stuck, PassedInside, NoneStuck, InTableOrder, Caught, AllBehind, NextStop;
    ghost var i := scan.pIdx;
    var parent, from, _ := scan.Need();
    StopsAreAhead(parent, rows, scan.cursor);
    AboutTop(scan, rows);
    ok := FeedCovering(scan, rows, from);
    if !ok {
      return;
    }
    AboutTop(scan, rows);
    var _, moved, _ := scan.Need();
    if moved != from {
      return;
    }
    var found := Select(rows, parent, From(from));
    var k := if |found| <= pageSize then |found| else pageSize;
    if k == 0 {
      ghost var cursor := scan.cursor;
      if !AtTop(scan) {
        EmptyReadsMeanBehind(parent, rows, cursor);
      }
      LeftMeansNotStuck(scan.parents, scan.floor, rows, scan.prefixLen, i, cursor);
      EndRange(scan, rows);
      if scan.result.None? {
        RangeLeft(scan.parents, scan.floor, rows, scan.prefixLen, pages, i, cursor, scan.pIdx);
      }
      return;
    }
    ok := FeedPage(scan, rows, from, k);
  }

  lemma StopsAreAhead(p: Cidr, rows: seq<Cidr>, a: int)
    ensures forall b :: NextStop(p, rows, a, b) ==> AddressOf(p.family, a) != AddressOf(p.family, b)
  {
    hide Pow2;
  }

  /** Rows abut from where the search starts: each stop is the next address the
      probe moves to. */
  ghost predicate Abut(parents: seq<Cidr>, floor: Option<int>, rows: seq<Cidr>, stops: seq<int>) {
    && parents != [] && stops != [] && stops[0] == ScanFrom(parents[0], floor) <= parents[0].Last()
    && forall i, j :: 0 <= i && j == i + 1 < |stops| ==> NextStop(parents[0], rows, stops[i], stops[j])
  }

  /** The bounded search. Off its error cases it returns the first fit over the
      rows inside each range; given reads enough for every row, it fails exactly
      when some range is stuck. It gives up wherever rows abut at as many stops as
      it has reads. Over one range it also returns the lowest free address from
      the floor on. */
  method BoundedFirstFit(parents: seq<Cidr>, rows: seq<Cidr>, ones: int, floor: Option<int>, pageSize: nat,
                         pageLimit: nat)
    returns (out: SearchResult, firstFree: Option<int>)
    requires InTableOrder(rows) && 1 <= pageSize
    ensures out == NoRange <==> parents == []
    ensures out.Found? ==> IsFitInside(parents, floor, rows, ones, Some(out.block))
    ensures out.Exhausted? ==> IsFitInside(parents, floor, rows, ones, None)
    ensures out.Found? || out.Exhausted? ==> !IsStuck(parents, floor, rows, ones)
    ensures out.FeedOutOfOrder? ==> IsStuck(parents, floor, rows, ones)
    ensures out.DidNotAdvance? && |parents| * (|rows| + 1) <= pageLimit ==> IsStuck(parents, floor, rows, ones)
    ensures forall stops :: Abut(parents, floor, rows, stops) && pageLimit < |stops| ==> out.DidNotAdvance?
    ensures |parents| == 1 && (out.Found? || out.Exhausted?) ==>
              IsFirstFree(parents[0], rows, ScanFrom(parents[0], floor), firstFree)
  {
    hide Walked, Noted, LowestFrom, NoneFrom, IsLast, AllPassed, Select, Behind, Pow2, IsFirstFree, NotedAll;
    hide NotedSoFar;
    hide Stuck, InTableOrder, Caught, AllBehind, OnBudget, IsStuck, NextStop;
    if |parents| == 0 {
      return NoRange, None;
    }
    var scan := StartSearch(parents, rows, ones, floor);
    var pages := 0;
    while !scan.done
      invariant scan.parents == parents && scan.prefixLen == ones && scan.floor == floor
      invariant Searching(scan, rows, pages)
      invariant pages <= pageLimit
      invariant forall stops :: Abut(parents, floor, rows, stops) && pages < |stops| ==> StandsAt(scan, stops[pages])
      decreases pageLimit - pages
    {
      if pages >= pageLimit {
        OutOfBudget(parents, floor, rows, ones, pages, scan.pIdx, scan.cursor);
        return DidNotAdvance, None;
      }
      ghost var cursor := scan.cursor;
      var ok := Turn(scan, rows, pageSize, pages);
      StopsGoOn(parents, floor, rows, pages, cursor);
      if !ok {
        return FeedOutOfOrder, None;
      }
      pages := pages + 1;
    }
    if scan.result.None? {
      ExhaustedMeansNotStuck(parents, floor, rows, ones);
      return Exhausted, scan.firstFree;
    }
    assert FitInsideAt(parents, floor, rows, ones, scan.result.value, scan.pIdx);
    FoundMeansNotStuck(parents, floor, rows, ones, scan.result.value, scan.pIdx);
    return Found(scan.result.value), scan.firstFree;
  }

  ghost predicate StandsAt(scan: Scan, at: int)
    reads scan
  {
    !scan.done && scan.pIdx == 0 && scan.cursor == at
  }

  lemma StopsGoOn(parents: seq<Cidr>, floor: Option<int>, rows: seq<Cidr>, k: nat, cursor: int)
    ensures forall stops :: Abut(parents, floor, rows, stops) && k + 1 < |stops| && stops[k] == cursor ==>
              NextStop(parents[0], rows, cursor, stops[k + 1])
  {
    hide NextStop;
  }

  lemma ExhaustedMeansNotStuck(parents: seq<Cidr>, floor: Option<int>, rows: seq<Cidr>, ones: int)
    requires NoneStuck(parents, floor, rows, ones, |parents|)
    ensures !IsStuck(parents, floor, rows, ones)
  {
  }

  // ---- what it means for a pool ------------------------------------------

  /** No row is wider than a range it meets. */
  ghost predicate NoneStraddles(parents: seq<Cidr>, rows: seq<Cidr>) {
    forall i :: 0 <= i < |parents| ==> NoneWider(parents[i], rows)
  }

  ghost predicate NoneWider(p: Cidr, rows: seq<Cidr>) {
    forall c :: c in rows && Contains(c, p) ==> p.ones <= c.ones
  }

  lemma InsideTakesAll(p: Cidr, rows: seq<Cidr>, a: int)
    requires NoneWider(p, rows) && p.start <= a <= p.Last()
    ensures Taken(Select(rows, p, All), p.family, a) <==> Taken(rows, p.family, a)
  {
    hide Pow2, Select;
    if Taken(rows, p.family, a) {
      var c :| c in rows && Has(c, p.family, a);
      if c.ones < p.ones {
        NestedOrDisjoint(c, p, a);
        assert false;
      }
      NestedOrDisjoint(p, c, a);
      assert c in Select(rows, p, All);
    }
  }

  /** The rows inside a range are all a search of it needs. */
  lemma InsideIsEnough(parents: seq<Cidr>, floor: Option<int>, rows: seq<Cidr>, ones: int, i: nat)
    requires NoneStraddles(parents, rows) && i < |parents|
    ensures var lo, inside := ScanFrom(parents[i], floor), Select(rows, parents[i], All);
            && (NoneFrom(parents[i], lo, inside, ones) <==> NoneFrom(parents[i], lo, rows, ones))
            && forall b: Cidr ::
                 LowestFrom(b, parents[i], lo, inside, ones) <==> LowestFrom(b, parents[i], lo, rows, ones)
  {
    var inside := Select(rows, parents[i], All);
    forall a | parents[i].start <= a <= parents[i].Last()
      ensures Taken(inside, parents[i].family, a) <==> Taken(rows, parents[i].family, a)
    {
      InsideTakesAll(parents[i], rows, a);
    }
    forall b: Cidr
      ensures Available(b, parents[i], inside, ones) <==> Available(b, parents[i], rows, ones)
    {
      SameTakenSameFit(b, parents[i], inside, rows, ones);
    }
  }

  /** With a sound floor and no row wider than a range, an answer of the bounded
      search is the first fit of the whole set, and so independent of the floor
      and of the page size. */
  lemma BoundedIsFirstFit(parents: seq<Cidr>, floor: Option<int>, rows: seq<Cidr>, ones: int, r: Option<Cidr>)
    requires NoneStraddles(parents, rows) && FloorIsSound(parents, floor, rows)
    ensures IsFitInside(parents, floor, rows, ones, r) <==> IsFirstFit(parents, rows, ones, r)
  {
    hide NoneFrom, LowestFrom, FloorIsSound, NoneStraddles, Select, IsFirstFit;
    forall i: nat | i < |parents|
      ensures NoneFrom(parents[i], ScanFrom(parents[i], floor), Select(rows, parents[i], All), ones)
         <==> NoneFrom(parents[i], ScanFrom(parents[i], floor), rows, ones)
      ensures forall b: Cidr ::
                LowestFrom(b, parents[i], ScanFrom(parents[i], floor), Select(rows, parents[i], All), ones)
                <==> LowestFrom(b, parents[i], ScanFrom(parents[i], floor), rows, ones)
    {
      InsideIsEnough(parents, floor, rows, ones, i);
    }
    forall n | 0 <= n <= |parents|
      ensures PassedInside(parents, floor, rows, ones, n) <==> AllPassed(parents, floor, ones, n, rows)
    {
    }
    if r.Some? {
      forall i: nat
        ensures FitInsideAt(parents, floor, rows, ones, r.value, i)
           <==> FitFromAt(parents, floor, rows, ones, r.value, i)
      {
      }
    }
    SoundFloorIsHarmless(parents, floor, rows, ones, r);
  }

  /** Only a range that ends at its family's last address can stick. */
  lemma StuckOnlyAtTop(parents: seq<Cidr>, floor: Option<int>, rows: seq<Cidr>, ones: int)
    requires forall i :: 0 <= i < |parents| ==> parents[i].Last() + 1 < Pow2(Width(parents[i].family))
    ensures !IsStuck(parents, floor, rows, ones)
  {
  }

  /** Every such range sticks once it is held whole: the search then fails where
      the whole-set search reports exhaustion. */
  lemma FullTopRangeSticks(p: Cidr, ones: int)
    requires 0 < p.start && p.Last() + 1 == Pow2(Width(p.family))
    ensures Stuck([p], None, [p], ones, 0)
    ensures IsFirstFit([p], [p], ones, None)
  {
    assert Select([p][1..], p, All) == [];
    assert p in Select([p], p, All) && p in Select([p], p, From(0));
    assert Has(p, p.family, p.Last());
    forall b: Cidr
      ensures !Available(b, p, Select([p], p, All), ones) && !Available(b, p, [p], ones)
    {
      assert p in [p];
      if Contains(p, b) {
        assert Has(b, b.family, b.start) && Has(p, p.family, b.start);
      }
    }
  }

  /** The upper half of either family is such a range. */
  lemma UpperHalfSticks(f: Family)
    ensures exists p: Cidr :: p.family == f && Stuck([p], None, [p], Width(f), 0)
  {
    var w := Width(f) - 1;
    var p := Block(f, Pow2(w), 1);
    assert Pow2(Width(f)) == 2 * Pow2(w);
    hide Pow2, Stuck;
    MultipleOf(1, Pow2(w));
    assert p.Valid();
    FullTopRangeSticks(p, Width(f));
  }

  // ---- the page limit ----------------------------------------------------

  /** The first `n` addresses of a range, each a row of its own. */
  function Hosts(p: Cidr, n: nat): (rows: seq<Cidr>)
    requires n <= p.Size()
    ensures |rows| == n
    ensures forall k :: 0 <= k < n ==> rows[k] == Block(p.family, p.start + k, Width(p.family))
  {
    if n == 0 then [] else Hosts(p, n - 1) + [HostAt(p, p.start + n - 1)]
  }

  function HostAt(p: Cidr, a: int): (h: Cidr)
    requires p.start <= a <= p.Last()
    ensures h == Block(p.family, a, Width(p.family)) && h.Last() == a && Contains(p, h)
  {
    assert Pow2(0) == 1;
    Block(p.family, a, Width(p.family))
  }

  /** They abut, so every one of them costs the search a turn. */
  lemma HostsAbut(p: Cidr, n: nat)
    requires n <= p.Size() && p.Last() + 1 < Pow2(Width(p.family))
    ensures InTableOrder(Hosts(p, n))
    ensures Abut([p], None, Hosts(p, n), seq(n + 1, k => p.start + k))
  {
    hide Pow2;
    var rows, stops := Hosts(p, n), seq(n + 1, k => p.start + k);
    forall k | 0 <= k < n
      ensures rows[k].Last() == rows[k].start == p.start + k && Contains(p, rows[k])
    {
      assert rows[k] == HostAt(p, p.start + k);
    }
    forall i, j | 0 <= i && j == i + 1 < |stops|
      ensures NextStop(p, rows, stops[i], stops[j])
    {
      assert rows[i] in rows;
    }
  }

  /** So over one range the search gives up on them exactly when it has no more
      reads than there are rows: a limit serves every table of `n` rows exactly
      when it is larger than `n`. */
  method SearchHosts(p: Cidr, n: nat, pageSize: nat, pageLimit: nat) returns (out: SearchResult)
    requires n <= p.Size() && p.Last() + 1 < Pow2(Width(p.family)) && 1 <= pageSize
    ensures out.DidNotAdvance? <==> pageLimit <= n
    ensures n < p.Size() && n < pageLimit ==> out == Found(HostAt(p, p.start + n))
    ensures n == p.Size() < pageLimit ==> out.Exhausted?
  {
    hide Pow2, Abut, InTableOrder, IsStuck, IsFitInside;
    var rows := Hosts(p, n);
    HostsAbut(p, n);
    StuckOnlyAtTop([p], None, rows, Width(p.family));
    var found, _ := BoundedFirstFit([p], rows, Width(p.family), None, pageSize, pageLimit);
    out := found;
    AfterHosts(p, n, if out.Found? then Some(out.block) else None);
  }

  /** The one answer left after them. */
  lemma AfterHosts(p: Cidr, n: nat, r: Option<Cidr>)
    requires n <= p.Size()
    ensures IsFitInside([p], None, Hosts(p, n), Width(p.family), r) ==>
              r == if n < p.Size() then Some(HostAt(p, p.start + n)) else None
  {
    hide Pow2, IsFitInside, IsFirstFit;
    var rows, w := Hosts(p, n), Width(p.family);
    var next := if n < p.Size() then Some(HostAt(p, p.start + n)) else None;
    assert NoneStraddles([p], rows);
    BoundedIsFirstFit([p], None, rows, w, r);
    NextHostFits(p, n);
    if IsFitInside([p], None, rows, w, r) {
      FirstFitIsUnique([p], rows, w, r, next);
    }
  }

  lemma NextHostFits(p: Cidr, n: nat)
    requires n <= p.Size()
    ensures IsFirstFit([p], Hosts(p, n), Width(p.family), if n < p.Size() then Some(HostAt(p, p.start + n)) else None)
  {
    hide Pow2;
    var rows, w := Hosts(p, n), Width(p.family);
    forall b: Cidr | b.family == p.family && p.start <= b.start < p.start + n
      ensures !Available(b, p, rows, w)
    {
      assert rows[b.start - p.start] == HostAt(p, b.start);
      assert rows[b.start - p.start] in rows && Has(b, b.family, b.start);
    }
    if n < p.Size() {
      var h := HostAt(p, p.start + n);
      forall c | c in rows
        ensures !Has(c, p.family, p.start + n)
      {
        var k :| 0 <= k < n && rows[k] == c;
        assert c == HostAt(p, p.start + k);
      }
      assert LowestIn(h, p, rows, w);
      assert IsFirstFitAt([p], rows, w, h, 0);
    }
  }
}
