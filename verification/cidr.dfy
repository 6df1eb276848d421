/**
 IPv4 CIDR blocks in prefix/length notation (RFC 4632, section 3.1) and the
 address-set view of a single network that the hierarchy scripts take from
 netaddr: a block `addr/len` stands for the interval of addresses
 `[First, First + 2^(32-len))`, where `First` is `addr` with its host bits
 cleared. Host bits in `addr` are kept, as an IPNetwork keeps them, but every
 comparison the scripts make looks only at the interval.
 */
module Cidr {

  /** Width of an IPv4 address. */
  const AddressBits: nat := 32

  /** Number of IPv4 addresses, 2^32. */
  const AddressSpace: nat := 0x1_0000_0000

  function Pow2(n: nat): (r: nat)
    ensures r >= 1
  {
    if n == 0 then 1 else 2 * Pow2(n - 1)
  }

  lemma {:induction false} Pow2Add(a: nat, b: nat)
    ensures Pow2(a + b) == Pow2(a) * Pow2(b)
  {
    if a > 0 {
      Pow2Add(a - 1, b);
      assert Pow2(a + b) == 2 * Pow2(a - 1 + b);
    }
  }

  lemma {:induction false} Pow2StrictlyMonotone(a: nat, b: nat)
    requires a < b
    ensures Pow2(a) < Pow2(b)
  {
    if b - 1 > a {
      Pow2StrictlyMonotone(a, b - 1);
    }
  }

  lemma Pow2Bits()
    ensures Pow2(AddressBits) == AddressSpace
  {
    assert Pow2(2) == 4;
    Pow2Add(2, 2);
    Pow2Add(4, 4);
    Pow2Add(8, 8);
    Pow2Add(16, 16);
  }

  /** A parsed IPv4 network: an address below 2^32 and a prefix length of at most 32. */
  datatype Block = Block(addr: nat, len: nat)

  predicate Valid(b: Block) {
    b.addr < AddressSpace && b.len <= AddressBits
  }

  predicate AllValid(s: seq<Block>) {
    forall b :: b in s ==> Valid(b)
  }

  /** Number of addresses in a block of prefix length `len`. */
  function Size(len: nat): (r: nat)
    requires len <= AddressBits
    ensures r >= 1
  {
    Pow2(AddressBits - len)
  }

  lemma MulMonotone(x: nat, y: nat, m: nat)
    requires x <= y
    ensures x * m <= y * m
  {
    assert y * m == x * m + (y - x) * m;
  }

  /** Two distinct multiples of `m` lie at least `m` apart. */
  lemma GapOfMultiples(qa: nat, qb: nat, m: nat)
    requires qa * m < qb * m
    ensures qa * m + m <= qb * m
  {
    if qb <= qa {
      MulMonotone(qb, qa, m);
    }
    MulMonotone(qa + 1, qb, m);
  }

  /** `x >> k`. */
  function Shift(x: nat, k: nat): nat {
    if k == 0 then x else Shift(x / 2, k - 1)
  }

  /** `x` with its `k` low bits cleared. */
  function AlignDown(x: nat, k: nat): nat {
    if k == 0 then x else 2 * AlignDown(x / 2, k - 1)
  }

  lemma {:induction false} AlignDownBounds(x: nat, k: nat)
    ensures AlignDown(x, k) <= x < AlignDown(x, k) + Pow2(k)
  {
    if k > 0 {
      AlignDownBounds(x / 2, k - 1);
    }
  }

  lemma {:induction false} AlignDownMultiple(x: nat, k: nat)
    ensures AlignDown(x, k) == Shift(x, k) * Pow2(k)
  {
    if k > 0 {
      AlignDownMultiple(x / 2, k - 1);
      assert AlignDown(x, k) == 2 * (Shift(x / 2, k - 1) * Pow2(k - 1));
    }
  }

  /** Position of the block among the aligned blocks of its length. */
  function Index(b: Block): nat
    requires Valid(b)
  {
    Shift(b.addr, AddressBits - b.len)
  }

  /** The network address: `addr` with its host bits cleared. */
  function First(b: Block): (r: nat)
    requires Valid(b)
    ensures r <= b.addr < r + Size(b.len)
    ensures r + Size(b.len) <= AddressSpace
  {
    var k := AddressBits - b.len;
    AlignDownBounds(b.addr, k);
    AlignDownMultiple(b.addr, k);
    assert AlignDown(b.addr, k) + Size(b.len) <= AddressSpace by {
      Pow2Add(b.len, k);
      Pow2Bits();
      assert AddressSpace == Pow2(b.len) * Size(b.len);
      GapOfMultiples(Index(b), Pow2(b.len), Size(b.len));
    }
    AlignDown(b.addr, k)
  }

  /** The network address is the block's index times its size. */
  lemma FirstIsMultiple(b: Block)
    requires Valid(b)
    ensures First(b) == Index(b) * Size(b.len)
  {
    AlignDownMultiple(b.addr, AddressBits - b.len);
  }

  /** The broadcast address: the highest address of the block. */
  function Last(b: Block): nat
    requires Valid(b)
  {
    First(b) + Size(b.len) - 1
  }

  predicate InBlock(b: Block, a: nat)
    requires Valid(b)
  {
    First(b) <= a <= Last(b)
  }

  /** The block as a set of addresses, what `IPSet(IPNetwork(...))` holds. */
  function Addresses(b: Block): (r: set<nat>)
    requires Valid(b)
    ensures forall a: nat :: a in r <==> InBlock(b, a)
  {
    // the first conjunct bounds the comprehension, the second gives it a trigger
    set a: nat | a <= Last(b) && InBlock(b, a)
  }

  /**
   Membership in `IPSet(IPNetwork(...))` is a prefix match: an IPv4 address
   belongs to the block exactly when clearing its host bits gives the
   block's network address.
   */
  lemma AddressesPrefixMatch(b: Block, a: nat)
    requires Valid(b) && a < AddressSpace
    ensures a in Addresses(b) <==> AlignDown(a, AddressBits - b.len) == First(b)
  {
    var k := AddressBits - b.len;
    AlignDownBounds(a, k);
    AlignDownMultiple(a, k);
    AlignDownMultiple(b.addr, k);
    var m := AlignDown(a, k);
    if a in Addresses(b) && m != First(b) {
      if m < First(b) {
        GapOfMultiples(Shift(a, k), Shift(b.addr, k), Pow2(k));
      } else {
        GapOfMultiples(Shift(b.addr, k), Shift(a, k), Pow2(k));
      }
    }
  }

  /** IPNetwork equality: the same first and the same last address. */
  predicate Same(a: Block, b: Block)
    requires Valid(a) && Valid(b)
    ensures Same(a, b) <==> Addresses(a) == Addresses(b)
  {
    SubsetIffContains(a, b);
    SubsetIffContains(b, a);
    First(a) == First(b) && Last(a) == Last(b)
  }

  /** Interval containment of `inner` in `outer`. */
  predicate Contains(outer: Block, inner: Block)
    requires Valid(outer) && Valid(inner)
  {
    First(outer) <= First(inner) && Last(inner) <= Last(outer)
  }

  predicate StrictlyInside(inner: Block, outer: Block)
    requires Valid(inner) && Valid(outer)
  {
    Contains(outer, inner) && !Same(inner, outer)
  }

  /** The two intervals share at least one address. */
  predicate Overlaps(a: Block, b: Block)
    requires Valid(a) && Valid(b)
  {
    First(a) <= Last(b) && First(b) <= Last(a)
  }

  /** Range equality is equality of network address and prefix length. */
  lemma SameIffKey(a: Block, b: Block)
    requires Valid(a) && Valid(b)
    ensures Same(a, b) <==> First(a) == First(b) && a.len == b.len
  {
    if Same(a, b) && a.len != b.len {
      if a.len < b.len {
        Pow2StrictlyMonotone(AddressBits - b.len, AddressBits - a.len);
      } else {
        Pow2StrictlyMonotone(AddressBits - a.len, AddressBits - b.len);
      }
    }
  }

  /** `IPSet(inner).issubset(IPSet(outer))` is interval containment. */
  lemma SubsetIffContains(outer: Block, inner: Block)
    requires Valid(outer) && Valid(inner)
    ensures Addresses(inner) <= Addresses(outer) <==> Contains(outer, inner)
  {
    if Addresses(inner) <= Addresses(outer) {
      assert First(inner) in Addresses(inner);
      assert Last(inner) in Addresses(inner);
    }
  }

  /** The address sets meet exactly when the intervals overlap. */
  lemma IntersectIffOverlaps(a: Block, b: Block)
    requires Valid(a) && Valid(b)
    ensures Addresses(a) * Addresses(b) != {} <==> Overlaps(a, b)
  {
    if Overlaps(a, b) {
      var x := if First(a) <= First(b) then First(b) else First(a);
      assert x in Addresses(a) * Addresses(b);
    }
  }

  /** A block strictly inside another has a strictly longer prefix. */
  lemma StrictlyInsideLengthens(inner: Block, outer: Block)
    requires Valid(inner) && Valid(outer)
    requires StrictlyInside(inner, outer)
    ensures inner.len > outer.len
  {
    assert Size(inner.len) < Size(outer.len);
    if inner.len < outer.len {
      Pow2StrictlyMonotone(AddressBits - outer.len, AddressBits - inner.len);
    }
  }

  /** With `sb == k * sa`, the multiple `qb * sb` and its successor are multiples of `sa`. */
  lemma RegroupMultiples(qb: nat, k: nat, sa: nat, sb: nat)
    requires sb == k * sa
    ensures qb * sb == (qb * k) * sa
    ensures qb * sb + sb == (qb * k + k) * sa
  {
  }

  lemma SizeRatio(la: nat, lb: nat)
    requires lb <= la <= AddressBits
    ensures Size(lb) == Pow2(la - lb) * Size(la)
  {
    Pow2Add(la - lb, AddressBits - la);
  }

  /**
   An interval of `sa` starting at a multiple of `sa` lies inside, before or
   after an interval of `k * sa` starting at a multiple of `k * sa`.
   */
  lemma AlignedNested(qa: nat, qb: nat, k: nat, sa: nat, sb: nat)
    requires sb == k * sa
    ensures var fa, fb := qa * sa, qb * sb;
      (fb <= fa && fa + sa <= fb + sb) || fa + sa <= fb || fb + sb <= fa
  {
    RegroupMultiples(qb, k, sa, sb);
    var fa, fb := qa * sa, qb * sb;
    if fa < fb {
      GapOfMultiples(qa, qb * k, sa);
    } else if fa < fb + sb {
      GapOfMultiples(qa, qb * k + k, sa);
    }
  }

  /** A block whose prefix is at least as long as `b`'s lies inside `b` or apart from it. */
  lemma SmallerNestedOrDisjoint(a: Block, b: Block)
    requires Valid(a) && Valid(b) && a.len >= b.len
    ensures Contains(b, a) || !Overlaps(a, b)
  {
    SizeRatio(a.len, b.len);
    FirstIsMultiple(a);
    FirstIsMultiple(b);
    AlignedNested(Index(a), Index(b), Pow2(a.len - b.len), Size(a.len), Size(b.len));
  }

  /** Aligned CIDR blocks never partially overlap: they are nested or disjoint. */
  lemma NestedOrDisjoint(a: Block, b: Block)
    requires Valid(a) && Valid(b)
    ensures Contains(a, b) || Contains(b, a) || !Overlaps(a, b)
  {
    if a.len < b.len {
      SmallerNestedOrDisjoint(b, a);
    } else {
      SmallerNestedOrDisjoint(a, b);
    }
  }
}
