/** The streaming first-fit search: blocks arrive in address order, a page at a
    time, and the scan stops as soon as the answer is decided. */
module Scanning {
  import opened Common
  import opened Cidr
  import opened FreeSpace
  import opened Decompose
  import opened Fit
  import opened Allocation

  datatype ScanError = ScanClosed | OutOfOrder

  // ---- what the cursor means ---------------------------------------------

  /** Where a scan of `parent` starts: its base, or the floor when that is
      higher. */
  function ScanFrom(parent: Cidr, floor: Option<int>): int {
    if floor.Some? && parent.start < floor.value then floor.value else parent.start
  }

  /** With the blocks `fed` so far, everything from `lo` up to the cursor is
      decided: the address below the cursor is taken, no block of the wanted
      size starts in between, and no block fed reaches the cursor. */
  ghost predicate Walked(parent: Cidr, lo: int, fed: seq<Cidr>, cursor: int, ones: int) {
    && parent.start <= lo <= cursor
    && (cursor == lo || Taken(fed, parent.family, cursor - 1))
    && (forall b: Cidr :: Available(b, parent, fed, ones) && lo <= b.start ==> cursor <= b.start)
    && (forall c :: c in fed && c.family == parent.family && c.start <= parent.Last() ==> c.Last() < cursor)
  }

  /** `b` is the lowest available block at or above `lo`. */
  ghost predicate LowestFrom(b: Cidr, parent: Cidr, lo: int, fed: seq<Cidr>, ones: int) {
    && Available(b, parent, fed, ones) && lo <= b.start
    && forall c: Cidr :: Available(c, parent, fed, ones) && lo <= c.start ==> b.start <= c.start
  }

  ghost predicate NoneFrom(parent: Cidr, lo: int, fed: seq<Cidr>, ones: int) {
    forall b: Cidr :: Available(b, parent, fed, ones) ==> b.start < lo
  }

  /** Room for a block of the wanted size in [lo, hi]. */
  predicate FitsBetween(parent: Cidr, lo: int, hi: int, ones: int) {
    RegionFits(parent, Range(lo, hi), ones)
  }

  lemma MoreTaken(b: Cidr, parent: Cidr, fed: seq<Cidr>, c: Cidr, ones: int)
    ensures Available(b, parent, fed + [c], ones) ==> Available(b, parent, fed, ones) && !Overlaps(b, c)
  {
    if Available(b, parent, fed + [c], ones) {
      forall a | Has(b, b.family, a)
        ensures !Taken(fed, parent.family, a) && !Has(c, parent.family, a)
      {
        TakenAppend(fed, c, parent.family, a);
      }
      OverlapMeansShared(b, c);
    }
  }

  /** A block the scan does not look at leaves the cursor where it is. */
  lemma WalkedIgnores(parent: Cidr, lo: int, fed: seq<Cidr>, cursor: int, ones: int, c: Cidr)
    requires Walked(parent, lo, fed, cursor, ones)
    requires c.family != parent.family || parent.Last() < c.start || c.Last() < cursor
    ensures Walked(parent, lo, fed + [c], cursor, ones)
  {
    TakenAppend(fed, c, parent.family, cursor - 1);
    forall b: Cidr | Available(b, parent, fed + [c], ones) && lo <= b.start
      ensures cursor <= b.start
    {
      MoreTaken(b, parent, fed, c, ones);
    }
  }

  /** A block at or above the cursor moves it one past the block, unless the gap
      below the block has room. */
  lemma WalkedAdvances(parent: Cidr, lo: int, fed: seq<Cidr>, cursor: int, ones: int, c: Cidr)
    requires Walked(parent, lo, fed, cursor, ones)
    requires c.family == parent.family && c.start <= parent.Last() && cursor <= c.Last()
    requires cursor < c.start ==> !FitsBetween(parent, cursor, c.start - 1, ones)
    ensures Walked(parent, lo, fed + [c], c.Last() + 1, ones)
  {
    TakenAppend(fed, c, parent.family, c.Last());
    forall b: Cidr | Available(b, parent, fed + [c], ones) && lo <= b.start
      ensures c.Last() + 1 <= b.start
    {
      MoreTaken(b, parent, fed, c, ones);
      if b.start <= c.Last() {
        BlockInGap(b, parent, cursor, c.start - 1, ones);
      }
    }
  }

  lemma BlockInGap(b: Cidr, parent: Cidr, lo: int, hi: int, ones: int)
    requires Contains(parent, b) && b.ones == ones
    requires lo <= b.start && b.Last() <= hi
    ensures FitsBetween(parent, lo, hi, ones)
  {
    ShorterPrefix(b, parent);
    AlignUpIsLeast(lo, BlockSize(parent.family, ones), b.start);
  }

  /** A fit in the gap above the cursor is the answer for this parent. */
  lemma GapDecides(parent: Cidr, lo: int, fed: seq<Cidr>, cursor: int, hi: int, ones: int)
    requires Walked(parent, lo, fed, cursor, ones)
    requires hi <= parent.Last() && FitsBetween(parent, cursor, hi, ones)
    ensures parent.start <= cursor
    ensures LowestFrom(BlockIn(parent, Range(cursor, hi), ones), parent, lo, fed, ones)
  {
    var b := BlockIn(parent, Range(cursor, hi), ones);
    forall c: Cidr | Available(c, parent, fed, ones) && lo <= c.start
      ensures b.start <= c.start
    {
      AlignUpIsLeast(cursor, BlockSize(parent.family, ones), c.start);
    }
  }

  /** A decision stands however many blocks above it arrive later. */
  lemma DecisionStands(b: Cidr, parent: Cidr, lo: int, fed: seq<Cidr>, ones: int, c: Cidr)
    requires LowestFrom(b, parent, lo, fed, ones)
    requires c.family != parent.family || b.Last() < c.start
    ensures LowestFrom(b, parent, lo, fed + [c], ones)
  {
    forall a | Has(b, b.family, a)
      ensures !Taken(fed + [c], parent.family, a)
    {
      TakenAppend(fed, c, parent.family, a);
    }
    forall d: Cidr | Available(d, parent, fed + [c], ones) && lo <= d.start
      ensures b.start <= d.start
    {
      MoreTaken(d, parent, fed, c, ones);
    }
  }

  lemma FeedDecides(parent: Cidr, lo: int, fed: seq<Cidr>, cursor: int, c: Cidr, ones: int)
    requires Walked(parent, lo, fed, cursor, ones)
    requires c.family == parent.family && cursor < c.start <= parent.Last()
    requires FitsBetween(parent, cursor, c.start - 1, ones)
    ensures parent.start <= cursor
    ensures LowestFrom(BlockIn(parent, Range(cursor, c.start - 1), ones), parent, lo, fed + [c], ones)
  {
    GapDecides(parent, lo, fed, cursor, c.start - 1, ones);
    DecisionStands(BlockIn(parent, Range(cursor, c.start - 1), ones), parent, lo, fed, ones, c);
  }

  /** With no room from the cursor to the end, the parent has none. */
  lemma EndDecides(parent: Cidr, lo: int, fed: seq<Cidr>, cursor: int, ones: int)
    requires Walked(parent, lo, fed, cursor, ones)
    requires cursor <= parent.Last() ==> !FitsBetween(parent, cursor, parent.Last(), ones)
    ensures NoneFrom(parent, lo, fed, ones)
  {
    forall b: Cidr | Available(b, parent, fed, ones)
      ensures b.start < lo
    {
      if lo <= b.start {
        BlockInGap(b, parent, cursor, parent.Last(), ones);
      }
    }
  }

  // ---- the lowest free address -------------------------------------------

  /** What the first-free note says about one parent: everything from `lo` to
      the note is taken and the note is free; with no note, everything up to
      the cursor is taken. */
  ghost predicate Noted(parent: Cidr, lo: int, fed: seq<Cidr>, upTo: int, note: Option<int>) {
    match note
    case None => forall a :: lo <= a < upTo && a <= parent.Last() ==> Taken(fed, parent.family, a)
    case Some(x) => lo <= x <= parent.Last() && !Taken(fed, parent.family, x)
                    && forall a :: lo <= a < x ==> Taken(fed, parent.family, a)
  }

  lemma NotedIgnores(parent: Cidr, lo: int, fed: seq<Cidr>, upTo: int, upTo': int, note: Option<int>, c: Cidr)
    requires Noted(parent, lo, fed, upTo, note)
    requires note.Some? ==> c.family != parent.family || note.value < c.start
    requires upTo <= upTo'
    requires note.None? ==> forall a :: upTo <= a < upTo' && a <= parent.Last() ==> Has(c, parent.family, a)
    ensures Noted(parent, lo, fed + [c], upTo', note)
  {
    forall a
      ensures Taken(fed + [c], parent.family, a) <==> Taken(fed, parent.family, a) || Has(c, parent.family, a)
    {
      TakenAppend(fed, c, parent.family, a);
    }
  }

  /** The first gap is noted at the cursor. */
  lemma NotedHere(parent: Cidr, lo: int, fed: seq<Cidr>, cursor: int, ones: int)
    requires Walked(parent, lo, fed, cursor, ones) && cursor <= parent.Last()
    requires Noted(parent, lo, fed, cursor, None)
    ensures Noted(parent, lo, fed, cursor, Some(cursor))
  {
  }

  /** `last` is the greatest start fed for this family. */
  ghost predicate IsLast(fed: seq<Cidr>, f: Family, last: Option<int>) {
    match last
    case None => forall c :: c in fed ==> c.family != f
    case Some(x) => (exists c :: c in fed && c.family == f && c.start == x)
                    && forall c :: c in fed && c.family == f ==> c.start <= x
  }

  lemma LastAppend(fed: seq<Cidr>, f: Family, last: Option<int>, c: Cidr)
    requires IsLast(fed, f, last)
    requires c.family == f && last.Some? ==> last.value <= c.start
    ensures IsLast(fed + [c], f, if c.family == f then Some(c.start) else last)
  {
    assert c in fed + [c];
    if c.family != f && last.Some? {
      var d :| d in fed && d.family == f && d.start == last.value;
      assert d in fed + [c];
    }
  }

  lemma WalkStarts(parent: Cidr, lo: int, ones: int)
    requires parent.start <= lo
    ensures Walked(parent, lo, [], lo, ones)
    ensures Noted(parent, lo, [], lo, None)
    ensures IsLast([], parent.family, None)
  {
  }

  // ---- moving from range to range ----------------------------------------

  /** The first `n` ranges have no room at or above the floor. */
  ghost predicate AllPassed(parents: seq<Cidr>, floor: Option<int>, ones: int, n: int, heard: seq<Cidr>) {
    && 0 <= n <= |parents|
    && forall j :: 0 <= j < n ==> NoneFrom(parents[j], ScanFrom(parents[j], floor), heard, ones)
  }

  /** Room only shrinks as more blocks are heard. */
  lemma NoneFromMore(parent: Cidr, lo: int, fed: seq<Cidr>, more: seq<Cidr>, ones: int)
    requires NoneFrom(parent, lo, fed, ones)
    requires forall c :: c in fed ==> c in more
    ensures NoneFrom(parent, lo, more, ones)
  {
    forall b: Cidr | Available(b, parent, more, ones)
      ensures b.start < lo
    {
      AvailableInFewer(b, parent, fed, more, ones);
    }
  }

  lemma AvailableInFewer(b: Cidr, parent: Cidr, fewer: seq<Cidr>, more: seq<Cidr>, ones: int)
    requires Available(b, parent, more, ones)
    requires forall c :: c in fewer ==> c in more
    ensures Available(b, parent, fewer, ones)
  {
    forall a | Has(b, b.family, a)
      ensures !Taken(fewer, parent.family, a)
    {
      assert !Taken(more, parent.family, a);
    }
  }

  lemma PassesMore(parents: seq<Cidr>, floor: Option<int>, ones: int, n: int, heard: seq<Cidr>, fed: seq<Cidr>)
    requires AllPassed(parents, floor, ones, n, heard) && n < |parents|
    requires NoneFrom(parents[n], ScanFrom(parents[n], floor), fed, ones)
    ensures AllPassed(parents, floor, ones, n + 1, heard + fed)
  {
    forall j | 0 <= j < n + 1
      ensures NoneFrom(parents[j], ScanFrom(parents[j], floor), heard + fed, ones)
    {
      NoneFromMore(parents[j], ScanFrom(parents[j], floor), if j < n then heard else fed, heard + fed, ones);
    }
  }

  lemma PassesOver(parents: seq<Cidr>, floor: Option<int>, ones: int, n: int, next: int, heard: seq<Cidr>)
    requires AllPassed(parents, floor, ones, n, heard) && n <= next <= |parents|
    requires forall j :: n <= j < next ==> parents[j].Last() < ScanFrom(parents[j], floor)
    ensures AllPassed(parents, floor, ones, next, heard)
  {
  }

  /** The first range at or after `from` that is not entirely below the floor. */
  method NextParent(parents: seq<Cidr>, floor: Option<int>, from: nat) returns (i: nat)
    requires from <= |parents|
    ensures from <= i <= |parents|
    ensures forall j :: from <= j < i ==> parents[j].Last() < ScanFrom(parents[j], floor)
    ensures i < |parents| ==> ScanFrom(parents[i], floor) <= parents[i].Last()
  {
    i := from;
    while i < |parents|
      invariant from <= i <= |parents|
      invariant forall j :: from <= j < i ==> parents[j].Last() < ScanFrom(parents[j], floor)
    {
      if floor.Some? && parents[i].Last() < floor.value {
        i := i + 1;
        continue;
      }
      return;
    }
  }

  /** What the first-free note says once a single range has been left. */
  ghost predicate NotedAll(parents: seq<Cidr>, floor: Option<int>, n: int, heard: seq<Cidr>, note: Option<int>) {
    |parents| == 1 && n == 1 ==>
      Noted(parents[0], ScanFrom(parents[0], floor), heard, parents[0].Last() + 1, note)
  }

  lemma NotYetNoted(parents: seq<Cidr>, floor: Option<int>, n: int, heard: seq<Cidr>, note: Option<int>)
    requires n < |parents|
    ensures NotedAll(parents, floor, n, heard, note)
  {
  }

  /** What it says while the single range is being scanned. */
  ghost predicate NotedSoFar(parents: seq<Cidr>, floor: Option<int>, n: int, heard: seq<Cidr>, fed: seq<Cidr>,
                             cursor: int, last: Option<int>, note: Option<int>, done: bool) {
    |parents| == 1 && n == 0 ==>
      && heard == []
      && Noted(parents[0], ScanFrom(parents[0], floor), fed, cursor, note)
      && (note.Some? ==> (last.Some? && note.value < last.value) || (done && note.value == cursor))
      && (done ==> note.Some?)
  }

  lemma NotedOver(parents: seq<Cidr>, floor: Option<int>, n: int, next: int, heard: seq<Cidr>, note: Option<int>)
    requires NotedAll(parents, floor, n, heard, note) && 0 <= n <= next <= |parents|
    requires |parents| == 1 && n == 0 ==> note.None?
    requires forall j :: n <= j < next ==> parents[j].Last() < ScanFrom(parents[j], floor)
    ensures NotedAll(parents, floor, next, heard, note)
  {
  }

  function LastAfter(f: Family, last: Option<int>, c: Cidr): Option<int> {
    if c.family == f then Some(c.start) else last
  }

  /** Where the cursor stands after a block that did not decide. */
  function CursorAfter(f: Family, end: int, cursor: int, c: Cidr): int {
    if c.family == f && c.start <= end && cursor <= c.Last() then c.Last() + 1 else cursor
  }

  function NoteAt(note: Option<int>, cursor: int): Option<int> {
    if note.None? then Some(cursor) else note
  }

  lemma NotedSoFarIgnores(parents: seq<Cidr>, floor: Option<int>, n: nat, heard: seq<Cidr>, fed: seq<Cidr>,
                          cursor: int, last: Option<int>, note: Option<int>, c: Cidr)
    requires NotedSoFar(parents, floor, n, heard, fed, cursor, last, note, false) && n < |parents|
    requires c.family == parents[n].family && last.Some? ==> last.value <= c.start
    ensures NotedSoFar(parents, floor, n, heard, fed + [c], cursor, LastAfter(parents[n].family, last, c), note, false)
  {
    if |parents| == 1 {
      NotedIgnores(parents[0], ScanFrom(parents[0], floor), fed, cursor, cursor, note, c);
    }
  }

  /** The note after a block at or above the cursor: taken at the cursor when
      there is a gap below the block and nothing was noted before. */
  lemma NotedSoFarAdvances(parents: seq<Cidr>, floor: Option<int>, n: nat, heard: seq<Cidr>, fed: seq<Cidr>,
                           cursor: int, last: Option<int>, note: Option<int>, c: Cidr, next: int, done: bool, ones: int)
    requires NotedSoFar(parents, floor, n, heard, fed, cursor, last, note, false) && n < |parents|
    requires Walked(parents[n], ScanFrom(parents[n], floor), fed, cursor, ones)
    requires c.family == parents[n].family && (last.Some? ==> last.value <= c.start <= parents[n].Last())
    requires c.start <= parents[n].Last() && cursor <= next <= c.Last() + 1
    requires done ==> cursor < c.start
    ensures NotedSoFar(parents, floor, n, heard, fed + [c], next, Some(c.start),
                       if cursor < c.start then NoteAt(note, cursor) else note, done)
  {
    if |parents| == 1 {
      var lo := ScanFrom(parents[0], floor);
      if cursor < c.start && note.None? {
        NotedHere(parents[0], lo, fed, cursor, ones);
      }
      NotedIgnores(parents[0], lo, fed, cursor, next, if cursor < c.start then NoteAt(note, cursor) else note, c);
    }
  }

  /** The note when the last gap of a range decides, or fails to. */
  lemma NotedAtEnd(parents: seq<Cidr>, floor: Option<int>, n: nat, heard: seq<Cidr>, fed: seq<Cidr>,
                   cursor: int, last: Option<int>, note: Option<int>, ones: int)
    requires NotedSoFar(parents, floor, n, heard, fed, cursor, last, note, false) && n < |parents|
    requires Walked(parents[n], ScanFrom(parents[n], floor), fed, cursor, ones)
    ensures cursor <= parents[n].Last() ==>
              NotedSoFar(parents, floor, n, heard, fed, cursor, last, NoteAt(note, cursor), true)
    ensures NotedAll(parents, floor, n + 1, heard + fed,
                     if cursor <= parents[n].Last() then NoteAt(note, cursor) else note)
  {
    if |parents| == 1 {
      assert heard + fed == fed;
      if cursor <= parents[0].Last() && note.None? {
        NotedHere(parents[0], ScanFrom(parents[0], floor), fed, cursor, ones);
      }
    }
  }

  /** An integer as an address of the family. One past the family's last address
      has no representation and becomes the zero address. */
  function AddressOf(f: Family, n: int): int {
    if n < Pow2(Width(f)) then n else 0
  }

  /** A scan in progress. `fed` records, for the reader only, the blocks fed for
      the current range, and `heard` those fed for the ranges already left. */
  class Scan {
    const parents: seq<Cidr>
    const prefixLen: int
    const floor: Option<int>

    var pIdx: int
    var family: Family
    var pEnd: int
    var cursor: int
    var last: Option<int>
    var firstFree: Option<int>
    var result: Option<Cidr>
    var done: bool

    ghost var fed: seq<Cidr>
    ghost var heard: seq<Cidr>

    ghost predicate WalkOk()
      reads this
    {
      && 0 <= pIdx < |parents|
      && family == parents[pIdx].family && pEnd == parents[pIdx].Last()
      && Walked(parents[pIdx], ScanFrom(parents[pIdx], floor), fed, cursor, prefixLen)
      && IsLast(fed, family, last)
      && result.None?
    }

    ghost predicate DoneOk()
      reads this
    {
      if result.None? then pIdx == |parents|
      else 0 <= pIdx < |parents|
           && LowestFrom(result.value, parents[pIdx], ScanFrom(parents[pIdx], floor), fed, prefixLen)
    }

    ghost predicate Valid()
      reads this
    {
      && AllPassed(parents, floor, prefixLen, pIdx, heard)
      && NotedAll(parents, floor, pIdx, heard, firstFree)
      && NotedSoFar(parents, floor, pIdx, heard, fed, cursor, last, firstFree, done)
      && if done then DoneOk() else WalkOk()
    }

    constructor (parents: seq<Cidr>, prefixLen: int, floor: Option<int>)
      requires parents != []
      ensures Valid()
      ensures this.parents == parents && this.prefixLen == prefixLen && this.floor == floor
      ensures result.None? && heard == []
      ensures !done ==> fed == [] && last.None? && cursor == ScanFrom(parents[pIdx], floor) <= pEnd
      ensures forall j :: 0 <= j < pIdx ==> parents[j].Last() < ScanFrom(parents[j], floor)
    {
      this.parents, this.prefixLen, this.floor := parents, prefixLen, floor;
      pIdx, family, pEnd, cursor := -1, IPv4, 0, 0;
      last, firstFree, result, done := None, None, None, false;
      fed, heard := [], [];
      new;
      AdvanceParent();
    }

    /** The range to read next and the address to read it from. */
    method Need() returns (parent: Cidr, from: int, ok: bool)
      requires Valid()
      ensures ok <==> !done
      ensures ok ==> parent == parents[pIdx] && from == AddressOf(parent.family, cursor)
    {
      if done {
        return Block(IPv4, 0, 0), 0, false;
      }
      return parents[pIdx], AddressOf(family, cursor), true;
    }

    /** One block of a page. Blocks of another family, above the range or below
        the cursor change nothing; any other moves the cursor past itself, unless
        the gap below it has room and the scan is decided. */
    method FeedOne(c: Cidr) returns (ok: bool)
      requires Valid() && !done
      modifies this
      ensures Valid() && pIdx == old(pIdx) && family == old(family) && pEnd == old(pEnd) && heard == old(heard)
      ensures ok <==> c.family != family || old(last).None? || old(last).value <= c.start
      ensures !ok ==> !done && fed == old(fed) && cursor == old(cursor) && last == old(last)
      ensures ok ==> fed == old(fed) + [c] && last == LastAfter(family, old(last), c)
      ensures ok && !done ==> cursor == CursorAfter(family, pEnd, old(cursor), c)
      ensures done ==>
                && result.Some? && c.family == family && old(cursor) == cursor
                && cursor <= result.value.start && result.value.Last() < c.start
    {
      hide Walked, Noted, AllPassed, NotedAll, IsLast, NotedSoFar, Pow2, Contains;
      if c.family == family && last.Some? && c.start < last.value {
        return false;
      }
      ok := true;
      if c.family != family || pEnd < c.start || c.Last() < cursor {
        ghost var p, lo := parents[pIdx], ScanFrom(parents[pIdx], floor);
        LastAppend(fed, family, last, c);
        WalkedIgnores(p, lo, fed, cursor, prefixLen, c);
        NotedSoFarIgnores(parents, floor, pIdx, heard, fed, cursor, last, firstFree, c);
        fed, last := fed + [c], LastAfter(family, last, c);
      } else {
        StepOver(c);
      }
    }

    /** A block that reaches the cursor. */
    method StepOver(c: Cidr)
      requires Valid() && !done
      requires c.family == family && c.start <= pEnd && cursor <= c.Last()
      requires last.Some? ==> last.value <= c.start
      modifies `fed, `last, `cursor, `firstFree, `result, `done
      ensures Valid()
      ensures fed == old(fed) + [c] && last == Some(c.start)
      ensures !done ==> cursor == c.Last() + 1
      ensures done ==> result.Some? && old(cursor) == cursor <= result.value.start && result.value.Last() < c.start
    {
      hide Walked, Noted, NotedAll, AllPassed, LowestFrom, IsLast, NotedSoFar, RegionFits, BlockIn, Pow2, Contains;
      ghost var p, lo := parents[pIdx], ScanFrom(parents[pIdx], floor);
      LastAppend(fed, family, last, c);
      if cursor < c.start && FitsBetween(parents[pIdx], cursor, c.start - 1, prefixLen) {
        FeedDecides(p, lo, fed, cursor, c, prefixLen);
        NotedSoFarAdvances(parents, floor, pIdx, heard, fed, cursor, last, firstFree, c, cursor, true, prefixLen);
        result := Some(BlockIn(parents[pIdx], Range(cursor, c.start - 1), prefixLen));
        firstFree, done := NoteAt(firstFree, cursor), true;
      } else {
        WalkedAdvances(p, lo, fed, cursor, prefixLen, c);
        NotedSoFarAdvances(parents, floor, pIdx, heard, fed, cursor, last, firstFree, c, c.Last() + 1, false,
                           prefixLen);
        firstFree := if cursor < c.start then NoteAt(firstFree, cursor) else firstFree;
        cursor := c.Last() + 1;
      }
      NotYetNoted(parents, floor, pIdx, heard, firstFree);
      fed, last := fed + [c], Some(c.start);
    }

    /** A page of blocks; `n` of them were taken in. Stops at the first block that
        decides, and at the first that arrives out of order. */
    method Feed(blocks: seq<Cidr>) returns (err: Option<ScanError>, ghost n: nat)
      requires Valid()
      modifies this
      ensures Valid() && pIdx == old(pIdx) && family == old(family) && pEnd == old(pEnd) && heard == old(heard)
      ensures err == Some(ScanClosed) <==> old(done)
      ensures old(done) ==> result == old(result) && done && fed == old(fed) && firstFree == old(firstFree)
      ensures !old(done) ==> n <= |blocks| && fed == old(fed) + blocks[..n]
      ensures !done ==> old(cursor) <= cursor
      ensures !done && err.None? ==> n == |blocks|
      ensures done && !old(done) ==> result.Some? && 0 < n <= |blocks| && old(cursor) <= result.value.start
                                     && blocks[n - 1].family == family && result.value.Last() < blocks[n - 1].start
                                     && cursor <= result.value.start && last == Some(blocks[n - 1].start)
      ensures err == Some(OutOfOrder) ==> !done && n < |blocks| && blocks[n].family == family
                                          && last.Some? && blocks[n].start < last.value
    {
      hide Walked, Noted, AllPassed, NotedAll, LowestFrom, IsLast, NotedSoFar, Pow2, Contains, WalkOk, DoneOk, Valid;
      n := 0;
      if done {
        return Some(ScanClosed), 0;
      }
      var i := 0;
      while i < |blocks|
        invariant Valid() && pIdx == old(pIdx) && family == old(family) && pEnd == old(pEnd) && heard == old(heard)
        invariant 0 <= i == n <= |blocks| && fed == old(fed) + blocks[..n]
        invariant !done ==> old(cursor) <= cursor
        invariant done ==> result.Some? && 0 < n && old(cursor) <= result.value.start
                           && blocks[n - 1].family == family && result.value.Last() < blocks[n - 1].start
                           && cursor <= result.value.start && last == Some(blocks[n - 1].start)
      {
        if done {
          return None, n;
        }
        var ok := FeedOne(blocks[i]);
        if !ok {
          return Some(OutOfOrder), n;
        }
        i, n := i + 1, n + 1;
      }
      err := None;
    }

    /** No more blocks for this range: the rest of it decides, or it is left. */
    method End()
      requires Valid()
      modifies this
      ensures Valid()
      ensures old(done) ==> done && result == old(result) && pIdx == old(pIdx) && fed == old(fed) && heard == old(heard)
      ensures !old(done) && result.Some? ==> done && pIdx == old(pIdx) && fed == old(fed) && heard == old(heard)
                                             && old(cursor) <= result.value.start
      ensures !old(done) && result.None? ==>
                && old(pIdx) < pIdx && heard == old(heard) + old(fed)
                && (!done ==> fed == [] && last.None? && cursor == ScanFrom(parents[pIdx], floor) <= pEnd)
      ensures !old(done) && result.None? ==>
                && NoneFrom(parents[old(pIdx)], ScanFrom(parents[old(pIdx)], floor), old(fed), prefixLen)
                && forall j :: old(pIdx) < j < pIdx ==> parents[j].Last() < ScanFrom(parents[j], floor)
    {
      hide Walked, Noted, NoneFrom, AllPassed, LowestFrom, IsLast, NotedSoFar, RegionFits, BlockIn, Pow2, Contains;
      if done {
        return;
      }
      ghost var p, lo := parents[pIdx], ScanFrom(parents[pIdx], floor);
      NotedAtEnd(parents, floor, pIdx, heard, fed, cursor, last, firstFree, prefixLen);
      if cursor <= pEnd {
        if FitsBetween(parents[pIdx], cursor, pEnd, prefixLen) {
          GapDecides(p, lo, fed, cursor, pEnd, prefixLen);
          result := Some(BlockIn(parents[pIdx], Range(cursor, pEnd), prefixLen));
          firstFree, done := NoteAt(firstFree, cursor), true;
          return;
        }
        firstFree := NoteAt(firstFree, cursor);
      }
      EndDecides(p, lo, fed, cursor, prefixLen);
      PassesMore(parents, floor, prefixLen, pIdx, heard, fed);
      heard := heard + fed;
      AdvanceParent();
    }

    /** Move to the next range not entirely below the floor. */
    method AdvanceParent()
      requires !done && result.None?
      requires AllPassed(parents, floor, prefixLen, pIdx + 1, heard)
      requires NotedAll(parents, floor, pIdx + 1, heard, firstFree)
      requires |parents| == 1 && pIdx == -1 ==> firstFree.None? && heard == []
      modifies this
      ensures Valid() && result.None? && old(pIdx) < pIdx
      ensures !done ==> fed == [] && last.None? && cursor == ScanFrom(parents[pIdx], floor) <= pEnd
      ensures forall j :: old(pIdx) < j < pIdx ==> parents[j].Last() < ScanFrom(parents[j], floor)
      ensures heard == old(heard) && firstFree == old(firstFree)
    {
      hide Walked, Noted, NoneFrom, IsLast, Pow2, Contains;
      assert pIdx + 1 <= |parents|;
      hide AllPassed, NotedAll;
      var next := NextParent(parents, floor, pIdx + 1);
      PassesOver(parents, floor, prefixLen, pIdx + 1, next, heard);
      NotedOver(parents, floor, pIdx + 1, next, heard, firstFree);
      pIdx := next;
      if pIdx == |parents| {
        done := true;
      } else {
        var p := parents[pIdx];
        fed, last := [], None;
        family, pEnd, cursor := p.family, p.Last(), ScanFrom(p, floor);
        WalkStarts(p, cursor, prefixLen);
      }
    }
  }

  // ---- the whole search --------------------------------------------------

  /** No address of a range is free below the floor. */
  ghost predicate FloorIsSound(parents: seq<Cidr>, floor: Option<int>, taken: seq<Cidr>) {
    forall i, a ::
      0 <= i < |parents| && parents[i].start <= a < ScanFrom(parents[i], floor) && a <= parents[i].Last() ==>
        Taken(taken, parents[i].family, a)
  }

  /** First fit at or above the floor. */
  ghost predicate IsFirstFitFrom(parents: seq<Cidr>, floor: Option<int>, taken: seq<Cidr>, ones: int, r: Option<Cidr>) {
    match r
    case None => AllPassed(parents, floor, ones, |parents|, taken)
    case Some(b) => exists i: nat :: FitFromAt(parents, floor, taken, ones, b, i)
  }

  ghost predicate FitFromAt(parents: seq<Cidr>, floor: Option<int>, taken: seq<Cidr>, ones: int, b: Cidr, i: nat) {
    && i < |parents| && LowestFrom(b, parents[i], ScanFrom(parents[i], floor), taken, ones)
    && AllPassed(parents, floor, ones, i, taken)
  }

  /** A sound floor hides no block. */
  lemma SoundFloorHidesNothing(parents: seq<Cidr>, floor: Option<int>, taken: seq<Cidr>, ones: int, i: nat, b: Cidr)
    requires FloorIsSound(parents, floor, taken) && i < |parents|
    requires Available(b, parents[i], taken, ones)
    ensures ScanFrom(parents[i], floor) <= b.start
  {
    assert Has(b, b.family, b.start);
    assert !Taken(taken, parents[i].family, b.start);
  }

  /** Searching from a sound floor and searching from the base give one answer. */
  lemma SoundFloorIsHarmless(parents: seq<Cidr>, floor: Option<int>, taken: seq<Cidr>, ones: int, r: Option<Cidr>)
    requires FloorIsSound(parents, floor, taken)
    ensures IsFirstFitFrom(parents, floor, taken, ones, r) <==> IsFirstFit(parents, taken, ones, r)
  {
    hide Available, FloorIsSound;
    forall i: nat, b: Cidr | i < |parents| && Available(b, parents[i], taken, ones)
      ensures ScanFrom(parents[i], floor) <= b.start
    {
      SoundFloorHidesNothing(parents, floor, taken, ones, i, b);
    }
    forall i | 0 <= i < |parents|
      ensures NoneFrom(parents[i], ScanFrom(parents[i], floor), taken, ones) <==> !HasRoom(parents[i], taken, ones)
      ensures forall b: Cidr ::
                LowestFrom(b, parents[i], ScanFrom(parents[i], floor), taken, ones)
                <==> LowestIn(b, parents[i], taken, ones)
    {
    }
    if r.Some? {
      forall i | 0 <= i < |parents|
        ensures FitFromAt(parents, floor, taken, ones, r.value, i) <==> IsFirstFitAt(parents, taken, ones, r.value, i)
      {
      }
    }
  }

  /** A decision over the blocks fed is a decision over all rows, when every row
      left unfed lies clear of it. */
  lemma DecidesForAll(b: Cidr, parent: Cidr, lo: int, fed: seq<Cidr>, rows: seq<Cidr>, ones: int)
    requires LowestFrom(b, parent, lo, fed, ones)
    requires forall c :: c in fed ==> c in rows
    requires forall c :: c in rows && c !in fed && c.family == parent.family ==>
               b.Last() < c.start || c.Last() < b.start
    ensures LowestFrom(b, parent, lo, rows, ones)
  {
    forall a | Has(b, b.family, a)
      ensures !Taken(rows, parent.family, a)
    {
      assert !Taken(fed, parent.family, a);
    }
    forall d: Cidr | Available(d, parent, rows, ones) && lo <= d.start
      ensures b.start <= d.start
    {
      AvailableInFewer(d, parent, fed, rows, ones);
    }
  }

  function Flatten(pages: seq<seq<Cidr>>): seq<Cidr> {
    if pages == [] then [] else Flatten(pages[..|pages| - 1]) + pages[|pages| - 1]
  }

  lemma FlattenStep(pages: seq<seq<Cidr>>, k: nat)
    requires k < |pages|
    ensures Flatten(pages[..k + 1]) == Flatten(pages[..k]) + pages[k]
    ensures Flatten(pages[..k]) + pages[k] <= Flatten(pages)
  {
    assert pages[..k + 1][..k] == pages[..k];
    FlattenPrefix(pages, k + 1);
  }

  lemma PassedByRows(parents: seq<Cidr>, floor: Option<int>, ones: int, n: int, heard: seq<Cidr>, rows: seq<Cidr>)
    requires AllPassed(parents, floor, ones, n, heard)
    requires forall c :: c in heard ==> c in rows
    ensures AllPassed(parents, floor, ones, n, rows)
  {
    forall j | 0 <= j < n
      ensures NoneFrom(parents[j], ScanFrom(parents[j], floor), rows, ones)
    {
      NoneFromMore(parents[j], ScanFrom(parents[j], floor), heard, rows, ones);
    }
  }

  lemma {:induction false} FlattenPrefix(pages: seq<seq<Cidr>>, k: nat)
    requires k <= |pages|
    ensures Flatten(pages[..k]) <= Flatten(pages)
    decreases |pages| - k
  {
    if k == |pages| {
      assert pages[..k] == pages;
    } else {
      assert pages[..k + 1][..k] == pages[..k];
      FlattenPrefix(pages, k + 1);
    }
  }

  /** Blocks of one family arrive in address order. */
  ghost predicate InOrder(rows: seq<Cidr>) {
    forall i, j :: 0 <= i < j < |rows| && rows[i].family == rows[j].family ==> rows[i].start <= rows[j].start
  }

  lemma OrderHolds(rows: seq<Cidr>, fed: seq<Cidr>, c: Cidr, f: Family, last: int)
    requires InOrder(rows) && fed + [c] <= rows && c.family == f && IsLast(fed, f, Some(last))
    ensures last <= c.start
  {
    var d :| d in fed && d.family == f && d.start == last;
    var i :| 0 <= i < |fed| && fed[i] == d;
    assert rows[i] == d && rows[|fed|] == c;
  }

  lemma RestLiesAbove(rows: seq<Cidr>, fed: seq<Cidr>, f: Family, b: Cidr)
    requires InOrder(rows) && fed <= rows && fed != []
    requires fed[|fed| - 1].family == f && b.Last() < fed[|fed| - 1].start
    ensures forall c :: c in rows && c !in fed && c.family == f ==> b.Last() < c.start
  {
    forall c | c in rows && c !in fed && c.family == f
      ensures b.Last() < c.start
    {
      var j :| 0 <= j < |rows| && rows[j] == c;
      assert rows[..|fed|] == fed;
      assert |fed| <= j;
      assert rows[|fed| - 1] == fed[|fed| - 1];
    }
  }

  /** Feeds one range every page, stopping early once the scan has decided. */
  method FeedPages(scan: Scan, pages: seq<seq<Cidr>>) returns (err: Option<ScanError>)
    requires scan.Valid() && !scan.done && scan.fed == []
    modifies scan
    ensures scan.Valid() && scan.pIdx == old(scan.pIdx) && scan.heard == old(scan.heard)
    ensures scan.fed <= Flatten(pages)
    ensures err.None? && !scan.done ==> scan.fed == Flatten(pages)
    ensures InOrder(Flatten(pages)) ==> err.None?
    ensures InOrder(Flatten(pages)) && scan.done ==>
              && scan.result.Some? && scan.pIdx < |scan.parents|
              && forall c :: c in Flatten(pages) && c !in scan.fed && c.family == scan.parents[scan.pIdx].family ==>
                   scan.result.value.Last() < c.start
  {
    hide Walked, Noted, NoneFrom, LowestFrom, NotedAll, NotedSoFar, Pow2, IsLast, InOrder, AllPassed;
    var k := 0;
    assert pages[..0] == [];
    while k < |pages|
      invariant 0 <= k <= |pages|
      invariant scan.Valid() && !scan.done && scan.pIdx == old(scan.pIdx) && scan.heard == old(scan.heard)
      invariant scan.fed == Flatten(pages[..k])
    {
      ghost var fed, page := scan.fed, pages[k];
      FlattenStep(pages, k);
      ghost var n;
      err, n := scan.Feed(pages[k]);
      assert fed + page[..n] <= fed + page;
      if err.Some? {
        assert err.value.OutOfOrder?;
        if InOrder(Flatten(pages)) {
          assert fed + page[..n] + [page[n]] == fed + page[..n + 1] <= fed + page;
          OrderHolds(Flatten(pages), scan.fed, page[n], scan.family, scan.last.value);
        }
        return;
      }
      if scan.done {
        if InOrder(Flatten(pages)) {
          RestLiesAbove(Flatten(pages), scan.fed, scan.family, scan.result.value);
        }
        return;
      }
      assert page[..n] == page;
      k := k + 1;
    }
    assert pages[..k] == pages;
    err := None;
  }

  /** A scan at the first range that reaches the floor, or none for no ranges. */
  method NewScan(parents: seq<Cidr>, prefixLen: int, floor: Option<int>) returns (res: Result<Scan>)
    ensures res.Err? <==> parents == []
    ensures res.Err? ==> res.error == NoParent
    ensures res.Ok? ==> fresh(res.value) && StartsAt(res.value, parents, prefixLen, floor)
  {
    hide Walked, Noted, NoneFrom, LowestFrom, NotedAll, NotedSoFar, Pow2, IsLast, AllPassed;
    if |parents| == 0 {
      return Err(NoParent);
    }
    var scan := new Scan(parents, prefixLen, floor);
    return Ok(scan);
  }

  ghost predicate StartsAt(scan: Scan, parents: seq<Cidr>, prefixLen: int, floor: Option<int>)
    reads scan
  {
    && scan.Valid() && scan.parents == parents && scan.prefixLen == prefixLen && scan.floor == floor
    && scan.result.None? && scan.heard == []
    && (!scan.done ==>
          scan.fed == [] && scan.last.None? && scan.cursor == ScanFrom(parents[scan.pIdx], floor) <= scan.pEnd)
    && forall j :: 0 <= j < scan.pIdx ==> parents[j].Last() < ScanFrom(parents[j], floor)
  }

  /** The loop a caller runs: each range is fed every page, then ended. Whatever
      the pages, the answer is the first fit over all the rows. */
  method ScanAll(parents: seq<Cidr>, pages: seq<seq<Cidr>>, ones: int, floor: Option<int>)
    returns (res: Result<Cidr>, err: Option<ScanError>)
    ensures res == Err(NoParent) <==> parents == []
    ensures res.Err? ==> res.error == NoParent || res.error == PoolExhausted
    ensures InOrder(Flatten(pages)) ==> err.None?
    ensures parents != [] && InOrder(Flatten(pages)) ==>
              IsFirstFitFrom(parents, floor, Flatten(pages), ones, if res.Ok? then Some(res.value) else None)
  {
    hide Walked, Noted, NoneFrom, LowestFrom, NotedAll, NotedSoFar, Pow2, IsLast, InOrder, AllPassed, Flatten;
    err := None;
    var made := NewScan(parents, ones, floor);
    if made.Err? {
      return Err(made.error), None;
    }
    ghost var rows := Flatten(pages);
    var scan := made.value;
    while !scan.done
      invariant scan.Valid() && scan.parents == parents && scan.prefixLen == ones && scan.floor == floor
      invariant !scan.done ==> scan.fed == []
      invariant forall c :: c in scan.heard ==> c in rows
      invariant scan.done && scan.result.Some? && InOrder(rows) ==>
                  && scan.pIdx < |parents|
                  && LowestFrom(scan.result.value, parents[scan.pIdx], ScanFrom(parents[scan.pIdx], floor), rows, ones)
      invariant err.None?
      decreases |parents| - scan.pIdx, !scan.done
    {
      err := FeedPages(scan, pages);
      if err.Some? {
        return Err(PoolExhausted), err;
      }
      scan.End();
      if scan.result.Some? && InOrder(rows) {
        var p := parents[scan.pIdx];
        DecidesForAll(scan.result.value, p, ScanFrom(p, floor), scan.fed, rows, ones);
      }
    }
    PassedByRows(parents, floor, ones, scan.pIdx, scan.heard, rows);
    if scan.result.Some? {
      if InOrder(rows) {
        assert FitFromAt(parents, floor, rows, ones, scan.result.value, scan.pIdx);
      }
      return Ok(scan.result.value), None;
    }
    res := Err(PoolExhausted);
  }

  /** The streaming search and the whole-set search under first fit agree exactly
      when the whole-set search is not misled by a block covering a range. */
  lemma ScanAgreesWithSearch(parents: seq<Cidr>, rows: seq<Cidr>, ones: int, scanned: Option<Cidr>,
                             searched: Option<Cidr>)
    requires IsFirstFitFrom(parents, None, rows, ones, scanned)
    requires searched.None? ==> forall i :: 0 <= i < |parents| ==> !SeenRoom(parents, rows, ones, i)
    requires searched.Some? ==> SeenFirstFit(parents, rows, ones, searched.value)
    ensures scanned == searched <==> !exists i: nat :: Misled(parents, rows, ones, i)
  {
    hide IsFirstFit, IsFirstFitFrom, Misled, SeenRoom, SeenFirstFit;
    SoundFloorIsHarmless(parents, None, rows, ones, scanned);
    FirstFitUnlessMisled(parents, rows, ones, searched);
    if IsFirstFit(parents, rows, ones, searched) {
      FirstFitIsUnique(parents, rows, ones, scanned, searched);
    }
  }
}
