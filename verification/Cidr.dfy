/** IPv4 prefixes as aligned blocks of the 32-bit address space (section 3.1 of RFC 4632). */
module Cidr {

  datatype Option<+T> = None | Some(value: T)

  const WORD: nat := 0x1_0000_0000

  function Pow2(n: nat): (r: nat)
    ensures r >= 1
  {
    if n == 0 then 1 else 2 * Pow2(n - 1)
  }

  lemma {:induction false} Pow2Add(a: nat, b: nat)
    ensures Pow2(a + b) == Pow2(a) * Pow2(b)
  {
    if a != 0 {
      Pow2Add(a - 1, b);
      assert Pow2(a + b) == 2 * Pow2((a - 1) + b);
    }
  }

  lemma Pow2Word()
    ensures Pow2(32) == WORD
  {
    Pow2Add(8, 8);
    Pow2Add(16, 16);
    assert Pow2(8) == 256 by { Pow2Add(4, 4); assert Pow2(4) == 16; }
  }

  /** How many addresses a /ones prefix holds. */
  function Size(ones: nat): (r: nat)
    requires ones <= 32
    ensures r >= 1
  {
    Pow2(32 - ones)
  }

  datatype Prefix = Prefix(base: nat, ones: nat)

  predicate Aligned(p: Prefix) {
    && p.ones <= 32
    && p.base % Size(p.ones) == 0
    && p.base + Size(p.ones) <= WORD
  }

  lemma WholeSpaceAligned()
    ensures Aligned(Prefix(0, 0))
  {
    Pow2Word();
  }

  /** A canonical network: the base address has no host bits. */
  type Block = p: Prefix | p.ones <= 32 && p.base % Size(p.ones) == 0 && p.base + Size(p.ones) <= WORD
    witness Prefix(0, 32)

  /** The network address of `ip` under a /ones mask. */
  function Masked(ip: int, ones: nat): int
    requires ones <= 32
  {
    ip / Size(ones) * Size(ones)
  }

  /** `net.IPNet.Contains`: the masked address equals the network's. */
  predicate Contains(b: Block, ip: int) {
    Masked(ip, b.ones) == b.base
  }

  /** The base-address overlap test of `cidrsOverlap` and `OverlapsAny`. */
  predicate Overlap(a: Block, b: Block) {
    Contains(a, b.base) || Contains(b, a.base)
  }

  lemma MulCancelLess(a: int, b: int, d: nat)
    requires a * d < b * d
    ensures a < b
  {
    if b <= a {
      MulMonotone(b, a, d);
      assert false;
    }
  }

  lemma MulMonotone(a: int, b: int, d: nat)
    requires a <= b
    ensures a * d <= b * d
  {
    assert (b - a) * d >= 0;
  }

  lemma DivBounds(x: int, d: nat)
    requires d > 0
    ensures x / d * d <= x < x / d * d + d
  {
    assert x == x / d * d + x % d;
  }

  lemma DivUnique(x: int, d: nat, q: int)
    requires d > 0 && q * d <= x < q * d + d
    ensures x / d == q
  {
    DivBounds(x, d);
    assert q * d < (x / d + 1) * d;
    MulCancelLess(q, x / d + 1, d);
    assert x / d * d < (q + 1) * d;
    MulCancelLess(x / d, q + 1, d);
  }

  lemma BelowModulus(k: nat, m: nat)
    requires k < m
    ensures k % m == k
  {
  }

  lemma MultipleDiv(k: int, d: nat)
    requires d > 0
    ensures (k * d) / d == k && (k * d) % d == 0
  {
    DivUnique(k * d, d, k);
    assert k * d == (k * d) / d * d + (k * d) % d;
  }

  /** A multiple of d below a larger multiple leaves room for one more d. */
  lemma RoomForOne(k: int, d: nat, p: int)
    requires k * d < p * d
    ensures k * d + d <= p * d
  {
    MulCancelLess(k, p, d);
    MulMonotone(k + 1, p, d);
    assert (k + 1) * d == k * d + d;
  }

  lemma FloorFits(x: nat, d: nat, p: nat)
    requires d > 0 && x < p * d
    ensures 0 <= x / d * d <= x && x / d * d + d <= p * d
    ensures (x / d * d) % d == 0
  {
    var k := x / d;
    DivBounds(x, d);
    MulMonotone(0, k, d);
    RoomForOne(k, d, p);
    MultipleDiv(k, d);
  }

  /** Slot `index` of n slots of size d lies inside their total and keeps the alignment of the base. */
  lemma SlotFits(base: nat, n: nat, d: nat, index: nat)
    requires d > 0 && index < n && n * d > 0 && base % (n * d) == 0
    ensures 0 <= index * d && index * d + d <= n * d
    ensures (base + index * d) % d == 0
  {
    MulMonotone(0, index, d);
    MulMonotone(index + 1, n, d);
    assert (index + 1) * d == index * d + d;
    var e := n * d;
    var k := base / e;
    assert base == k * e + base % e;
    SumOfMultiples(k, n, index, d);
  }

  lemma SumOfMultiples(k: int, n: int, i: int, d: nat)
    requires d > 0
    ensures (k * (n * d) + i * d) % d == 0
  {
    MulAssoc(k, n, d);
    assert (k * n) * d + i * d == (k * n + i) * d;
    MultipleDiv(k * n + i, d);
  }

  lemma NoWrap(base: nat, x: nat)
    requires base + x < WORD
    ensures (base + x % WORD) % WORD == base + x
  {
  }

  lemma MultipleIsFloor(x: nat, d: nat)
    requires d > 0 && x % d == 0
    ensures x / d * d == x
  {
    assert x == x / d * d + x % d;
  }

  lemma SlotExact(base: nat, n: nat, d: nat, index: nat)
    requires d > 0 && index < n && n * d > 0 && base % (n * d) == 0 && base + n * d <= WORD
    ensures var v := (base + (index * d) % WORD) % WORD;
      v == base + index * d && v / d * d == v && base <= v && v + d <= base + n * d
  {
    SlotFits(base, n, d, index);
    NoWrap(base, index * d);
    MultipleIsFloor(base + index * d, d);
  }

  /** The address space holds 2^ones blocks of a /ones prefix. */
  lemma BlockCount(ones: nat)
    requires ones <= 32
    ensures Pow2(ones) * Size(ones) == WORD
  {
    Pow2Word();
    Pow2Add(ones, 32 - ones);
  }

  lemma FloorIsRange(base: nat, d: nat, ip: int)
    requires d > 0 && base % d == 0
    ensures ip / d * d == base <==> base <= ip < base + d
  {
    DivBounds(ip, d);
    if base <= ip < base + d {
      MultipleIsFloor(base, d);
      DivUnique(ip, d, base / d);
    }
  }

  /** Masking agrees with the address range of the block. */
  lemma ContainsIsRange(b: Block, ip: int)
    ensures Contains(b, ip) <==> b.base <= ip < b.base + Size(b.ones)
  {
    FloorIsRange(b.base, Size(b.ones), ip);
  }

  /** Masking twice with a shorter mask is masking once. */
  lemma MaskedTwice(ip: int, long: nat, short: nat)
    requires short <= long <= 32
    ensures Masked(Masked(ip, long), short) == Masked(ip, short)
  {
    Pow2Add(long - short, 32 - long);
    FloorTwice(ip, Size(long), Pow2(long - short));
  }

  lemma MultipleBelow(x: int, d: nat, p: int, c: int)
    requires c * d <= x < p * d + d
    ensures c * d <= p * d
  {
    assert p * d + d == (p + 1) * d;
    MulCancelLess(c, p + 1, d);
    MulMonotone(c, p, d);
  }

  lemma FloorTwice(x: int, d: nat, k: int)
    requires d > 0 && k * d > 0
    ensures (x / d * d) / (k * d) == x / (k * d)
  {
    var e, p := k * d, x / d;
    var q := x / e;
    DivBounds(x, d);
    DivBounds(x, e);
    assert (q * k) * d == q * e by { MulAssoc(q, k, d); }
    MultipleBelow(x, d, p, q * k);
    DivUnique(p * d, e, q);
  }

  lemma MulAssoc(a: int, b: int, c: int)
    ensures (a * b) * c == a * (b * c)
  {
  }

  /** Two prefixes share an address exactly when one contains the other's base address. */
  lemma OverlapExact(a: Block, b: Block)
    ensures Overlap(a, b) <==> exists ip: int :: Contains(a, ip) && Contains(b, ip)
  {
    ContainsIsRange(a, a.base);
    ContainsIsRange(b, b.base);
    if Contains(a, b.base) {
      assert Contains(b, b.base);
    } else if Contains(b, a.base) {
      assert Contains(a, a.base);
    }
    forall ip: int | Contains(a, ip) && Contains(b, ip) ensures Overlap(a, b) {
      SharedAddressNests(a, b, ip);
    }
  }

  lemma SharedAddressNests(a: Block, b: Block, ip: int)
    requires Contains(a, ip) && Contains(b, ip)
    ensures a.ones <= b.ones ==> Contains(a, b.base)
    ensures b.ones <= a.ones ==> Contains(b, a.base)
  {
    if a.ones <= b.ones {
      MaskedTwice(ip, b.ones, a.ones);
    }
    if b.ones <= a.ones {
      MaskedTwice(ip, a.ones, b.ones);
    }
  }

  /** Distinct blocks of one prefix length share no address. */
  lemma SameLengthDisjoint(a: Block, b: Block)
    requires a.ones == b.ones
    ensures Overlap(a, b) <==> a == b
  {
    ContainsIsRange(a, a.base);
    if Overlap(a, b) {
      OverlapExact(a, b);
      var ip: int :| Contains(a, ip) && Contains(b, ip);
    }
  }
}
