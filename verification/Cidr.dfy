/** Address blocks as dyadic intervals, and the arithmetic every search rests on.

    A CIDR block is a family, a first address and a prefix length. Addresses are
    mathematical integers; a block of prefix length `ones` holds 2^(width - ones)
    of them and starts on a multiple of its own size (section 3.1 of RFC 4632,
    section 2.3 of RFC 4291). */
module Cidr {
  import opened Common

  datatype Family = IPv4 | IPv6

  function Width(f: Family): nat {
    if f == IPv4 then 32 else 128
  }

  function Pow2(n: nat): (p: nat)
    ensures p >= 1
  {
    if n == 0 then 1 else 2 * Pow2(n - 1)
  }

  /** The number of addresses in a block of prefix length `ones`. */
  function BlockSize(f: Family, ones: nat): (size: nat)
    requires ones <= Width(f)
    ensures size >= 1
  {
    Pow2(Width(f) - ones)
  }

  datatype Block = Block(family: Family, start: int, ones: nat) {
    predicate Valid() {
      && ones <= Width(family)
      && 0 <= start
      && start % BlockSize(family, ones) == 0
      && start + BlockSize(family, ones) <= Pow2(Width(family))
    }

    function Size(): (size: nat)
      requires ones <= Width(family)
      ensures size >= 1
    {
      BlockSize(family, ones)
    }

    function Last(): (last: int)
      requires ones <= Width(family)
      ensures last >= start
    {
      start + Size() - 1
    }
  }

  type Cidr = b: Block | b.Valid() witness Block(IPv4, 0, 0)

  /** Whether address `a` of family `f` lies in the block. */
  predicate Has(b: Cidr, f: Family, a: int) {
    b.family == f && b.start <= a <= b.Last()
  }

  predicate Contains(outer: Cidr, inner: Cidr) {
    && outer.family == inner.family
    && outer.start <= inner.start
    && inner.Last() <= outer.Last()
  }

  predicate Overlaps(a: Cidr, b: Cidr) {
    a.family == b.family && (Has(a, a.family, b.start) || Has(b, b.family, a.start))
  }

  /** The smallest multiple of `size` at or above `v`. */
  function AlignUp(v: int, size: nat): (r: int)
    requires size >= 1
    ensures v <= r < v + size
    ensures r % size == 0
  {
    var rem := v % size;
    var r := if rem == 0 then v else v + (size - rem);
    assert r % size == 0 by {
      if rem != 0 {
        DivMod(v, size);
        MultipleOf(v / size + 1, size);
        assert r == (v / size + 1) * size;
      }
    }
    r
  }

  lemma AlignUpIsLeast(v: int, size: nat, m: int)
    requires size >= 1 && v <= m && m % size == 0
    ensures AlignUp(v, size) <= m
  {
    if m < AlignUp(v, size) {
      NextMultiple(m, AlignUp(v, size), size);
    }
  }

  // ---- arithmetic ------------------------------------------------------

  lemma DivMod(x: int, s: int)
    requires s >= 1
    ensures x == (x / s) * s + x % s
  {
  }

  lemma MultipleOf(k: int, s: int)
    requires s >= 1
    ensures (k * s) % s == 0
  {
    var q, r := (k * s) / s, (k * s) % s;
    DivMod(k * s, s);
    var d := k - q;
    assert d * s == r;
    MulMonotone(if d <= -1 then d else -1, -1, s);
    MulMonotone(1, if d >= 1 then d else 1, s);
  }

  lemma NextMultiple(x: int, y: int, s: int)
    requires s >= 1
    requires x % s == 0 && y % s == 0
    requires x < y
    ensures x + s <= y
  {
    DivMod(x, s);
    DivMod(y, s);
    var d := y / s - x / s;
    assert y - x == d * s;
    MulMonotone(if d <= 0 then d else 0, 0, s);
    MulMonotone(1, if d >= 1 then d else 1, s);
  }

  /** A multiple of m * small is a multiple of small. */
  lemma MultipleDescends(x: int, m: int, small: int)
    requires m >= 1 && small >= 1
    requires m * small >= 1
    requires x % (m * small) == 0
    ensures x % small == 0
    ensures (x + m * small) % small == 0
  {
    var k := x / (m * small);
    DivMod(x, m * small);
    assert x == (k * m) * small;
    MultipleOf(k * m, small);
    assert x + m * small == (k * m + m) * small;
    MultipleOf(k * m + m, small);
  }

  /** The n-th point of a grid of `count` cells of width `s`. */
  lemma GridPoint(base: int, s: int, count: int, n: int)
    requires s >= 1 && base % s == 0
    requires 0 <= n < count
    ensures (base + n * s) % s == 0
    ensures 0 <= n * s && n * s + s <= count * s
  {
    DivMod(base, s);
    assert base + n * s == (base / s + n) * s;
    MultipleOf(base / s + n, s);
    MulMonotone(0, n, s);
    MulMonotone(n + 1, count, s);
    assert (n + 1) * s == n * s + s;
  }

  /** A multiple of `s` inside the grid is one of its points. */
  lemma GridIndex(base: int, x: int, s: int, count: int) returns (n: int)
    requires s >= 1 && base % s == 0 && x % s == 0
    requires base <= x && x + s <= base + count * s
    ensures 0 <= n < count && x == base + n * s
  {
    DivMod(base, s);
    DivMod(x, s);
    n := x / s - base / s;
    assert x - base == n * s;
    MulMonotone(if n <= -1 then n else -1, -1, s);
    MulMonotone(count, if n >= count then n else count, s);
  }

  lemma Pow2Doubles(n: nat)
    ensures Pow2(n + 1) == 2 * Pow2(n)
  {
  }

  lemma {:induction false} Pow2Splits(i: nat, j: nat)
    requires i <= j
    ensures Pow2(j) == Pow2(j - i) * Pow2(i)
  {
    if i < j {
      Pow2Splits(i, j - 1);
    }
  }

  /** A multiple of a power of two is a multiple of every smaller one. */
  lemma CoarserIsFiner(x: int, i: nat, j: nat)
    requires i <= j
    requires x % Pow2(j) == 0
    ensures x % Pow2(i) == 0
    ensures (x + Pow2(j)) % Pow2(i) == 0
  {
    Pow2Splits(i, j);
    MultipleDescends(x, Pow2(j - i), Pow2(i));
  }

  lemma {:induction false} Pow2Monotone(i: nat, j: nat)
    requires i <= j
    ensures Pow2(i) <= Pow2(j)
    ensures i < j ==> Pow2(i) < Pow2(j)
  {
    if i < j {
      Pow2Monotone(i, j - 1);
    }
  }

  // ---- geometry --------------------------------------------------------

  /** Two blocks of one family that share an address are nested: the one with
      the shorter prefix contains the other. */
  lemma NestedOrDisjoint(a: Cidr, b: Cidr, x: int)
    requires a.ones <= b.ones
    requires Has(a, b.family, x) && Has(b, b.family, x)
    ensures Contains(a, b)
  {
    hide Pow2;
    var w := Width(a.family);
    CoarserIsFiner(a.start, w - b.ones, w - a.ones);
    if b.start < a.start {
      NextMultiple(b.start, a.start, b.Size());
    }
    if b.start < a.start + a.Size() {
      NextMultiple(b.start, a.start + a.Size(), b.Size());
    }
  }

  /** The source's overlap test, which looks only at the two first addresses,
      decides whether the blocks share any address at all, and when they do one
      contains the other. */
  lemma OverlapMeansShared(a: Cidr, b: Cidr)
    ensures Overlaps(a, b) <==> exists x :: Has(a, a.family, x) && Has(b, a.family, x)
    ensures Overlaps(a, b) <==> Contains(a, b) || Contains(b, a)
  {
    if Overlaps(a, b) {
      var x := if Has(a, a.family, b.start) then b.start else a.start;
      assert Has(a, a.family, x) && Has(b, a.family, x);
      if a.ones <= b.ones {
        NestedOrDisjoint(a, b, x);
      } else {
        NestedOrDisjoint(b, a, x);
      }
    }
    if x :| Has(a, a.family, x) && Has(b, a.family, x) {
      if a.ones <= b.ones {
        NestedOrDisjoint(a, b, x);
      } else {
        NestedOrDisjoint(b, a, x);
      }
    }
  }

  lemma ShorterPrefixIsLarger(f: Family, i: nat, j: nat)
    requires i <= j <= Width(f)
    ensures BlockSize(f, j) <= BlockSize(f, i)
    ensures i < j ==> BlockSize(f, j) < BlockSize(f, i)
  {
    Pow2Monotone(Width(f) - j, Width(f) - i);
  }

  /** The first block of a length inside a range. */
  function FirstBlock(p: Cidr, ones: nat): (b: Cidr)
    requires p.ones <= ones <= Width(p.family)
    ensures b == Block(p.family, p.start, ones) && Contains(p, b)
  {
    ShorterPrefixIsLarger(p.family, p.ones, ones);
    CoarserIsFiner(p.start, Width(p.family) - ones, Width(p.family) - p.ones);
    Block(p.family, p.start, ones)
  }
}
