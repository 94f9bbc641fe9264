/** IPv4 prefixes: masks, containment, the parent and the sibling of a prefix. A prefix denotes the
    block of addresses that agree with it on its leading `len` bits; host bits of its own address do
    not count. */
module Cidrs {
  import opened Words

  /** A prefix length; the parser admits no longer one. */
  type PrefixLen = l: int | 0 <= l <= 32

  datatype Cidr = Cidr(addr: bv32, len: PrefixLen)

  function Mask(len: PrefixLen): bv32 {
    if len == 0 then 0 else Ones(32 - len)
  }

  function NetworkAddr(addr: bv32, len: PrefixLen): bv32 {
    And(addr, Mask(len))
  }

  predicate Contains(outer: Cidr, inner: Cidr) {
    inner.len >= outer.len && NetworkAddr(inner.addr, outer.len) == outer.addr
  }

  /** No host bits are set below the prefix. */
  predicate Aligned(c: Cidr) {
    NetworkAddr(c.addr, c.len) == c.addr
  }

  /** Address `a` lies in the block of `c`. */
  predicate In(a: bv32, c: Cidr) {
    NetworkAddr(a, c.len) == NetworkAddr(c.addr, c.len)
  }

  /** The size of a block of length `len`, which is also the last network bit of such a prefix. */
  function BlockSize(len: PrefixLen): bv32
    requires len > 0
  {
    One(32 - len)
  }

  function Parent(c: Cidr): Cidr
    requires c.len > 0
  {
    Cidr(NetworkAddr(c.addr, c.len - 1), c.len - 1)
  }

  /** The other half of the parent; for a prefix with host bits set, the parent's lower half. */
  function Sibling(c: Cidr): Cidr
    requires c.len > 0
  {
    var parent := NetworkAddr(c.addr, c.len - 1);
    if c.addr == parent then Cidr(Or(parent, BlockSize(c.len)), c.len) else Cidr(parent, c.len)
  }

  /** The aligned prefix with the same block as `c`. */
  function Network(c: Cidr): Cidr {
    Cidr(NetworkAddr(c.addr, c.len), c.len)
  }

  // ---- What a prefix denotes ----

  /** A mask is all ones, shifted left by the number of host bits. */
  lemma MaskIsShift(len: PrefixLen)
    ensures Mask(len) == (0xFFFF_FFFF as bv32) << ((32 - len) as bv8)
  {
    OnesIsShift(32 - len);
  }

  /** The size of a block is one, shifted left by the number of host bits. */
  lemma BlockSizeIsShift(len: PrefixLen)
    requires len > 0
    ensures BlockSize(len) == (1 as bv32) << ((32 - len) as bv8)
  {
    OneIsShift(32 - len);
  }

  /** The network address of a prefix is its address with the host bits cleared. */
  lemma NetworkIsShift(addr: bv32, len: PrefixLen)
    ensures NetworkAddr(addr, len) == addr & ((0xFFFF_FFFF as bv32) << ((32 - len) as bv8))
  {
    MaskIsShift(len);
  }

  lemma NothingMasked(x: bv32)
    ensures And(x, 0) == 0
  {}

  /** An address lies in a block exactly when the two agree once the host bits are shifted out. */
  lemma InIsPrefix(a: bv32, c: Cidr)
    ensures In(a, c) <==> c.len == 0 || ShiftedRight(a, 32 - c.len) == ShiftedRight(c.addr, 32 - c.len)
  {
    hide And, Ones, ShiftedRight;
    if c.len > 0 {
      MaskedIsShifted(a, c.addr, 32 - c.len);
    } else {
      NothingMasked(a);
      NothingMasked(c.addr);
    }
  }

  // ---- Masks ----

  lemma MaskStep(len: PrefixLen)
    requires len > 0
    ensures Mask(len) == Or(Mask(len - 1), BlockSize(len))
    ensures And(Mask(len - 1), BlockSize(len)) == 0
  {
    hide And, Or, Ones, One;
    OnesEnds();
    OnesStep(32 - len);
  }

  lemma {:induction false} MasksNest(l: PrefixLen, m: PrefixLen)
    requires l <= m
    ensures And(Mask(m), Mask(l)) == Mask(l)
    decreases m
  {
    hide *;
    if l == m {
      AndLaws(Mask(l), Mask(l), Mask(l));
    } else {
      MasksNest(l, m - 1);
      MaskStep(m);
      AndWithin(Mask(m - 1), BlockSize(m), Mask(l));
    }
  }

  // ---- Network addresses ----

  lemma NetworkNests(x: bv32, l: PrefixLen, m: PrefixLen)
    requires l <= m
    ensures NetworkAddr(NetworkAddr(x, m), l) == NetworkAddr(x, l)
    ensures NetworkAddr(NetworkAddr(x, l), m) == NetworkAddr(x, l)
  {
    hide And, Mask;
    MasksNest(l, m);
    AndLaws(x, Mask(m), Mask(l));
    AndLaws(x, Mask(l), Mask(m));
    AndLaws(Mask(l), Mask(m), x);
  }

  /** The upper half of a parent keeps its own bit, drops it again one bit up, and is not the lower. */
  lemma UpperHalf(x: bv32, l: PrefixLen)
    requires l > 0
    ensures var parent := NetworkAddr(x, l - 1);
      var upper := Or(parent, BlockSize(l));
      NetworkAddr(upper, l) == upper && NetworkAddr(upper, l - 1) == parent && upper != parent
  {
    hide And, Or, Mask, BlockSize;
    MaskStep(l);
    BlockSizeIsSingle(l, x);
    OrMasked(x, Mask(l - 1), BlockSize(l));
    OrDropped(x, Mask(l - 1), BlockSize(l));
    OrDiffers(x, Mask(l - 1), BlockSize(l));
  }

  lemma BlockSizeIsSingle(l: PrefixLen, x: bv32)
    requires l > 0
    ensures BlockSize(l) != 0
    ensures And(x, BlockSize(l)) == 0 || And(x, BlockSize(l)) == BlockSize(l)
  {
    hide And, One;
    OneIsSingle(32 - l, x);
  }

  /** One more leading bit is clear or set. */
  lemma OneBitMore(x: bv32, l: PrefixLen)
    requires l > 0
    ensures NetworkAddr(x, l) == NetworkAddr(x, l - 1) || NetworkAddr(x, l) == Or(NetworkAddr(x, l - 1), BlockSize(l))
  {
    hide And, Or, Mask, BlockSize;
    MaskStep(l);
    BlockSizeIsSingle(l, x);
    if And(x, BlockSize(l)) == 0 {
      AndClearBit(x, Mask(l - 1), BlockSize(l));
    } else {
      AndSetBit(x, Mask(l - 1), BlockSize(l));
    }
  }

  /** The wrapping addition that steps to the upper half sets one clear bit, so it never wraps. */
  lemma WrappingAddIsUpper(c: Cidr)
    requires Aligned(c) && c.len < 32
    ensures WrappingAdd(c.addr, BlockSize(c.len + 1)) == Or(c.addr, BlockSize(c.len + 1))
    ensures !Below(WrappingAdd(c.addr, BlockSize(c.len + 1)), c.addr)
  {
    hide And, Or, WrappingAdd, Mask, BlockSize, Below;
    MaskStep(c.len + 1);
    OrDropped(c.addr, Mask(c.len), BlockSize(c.len + 1));
    DisjointAdd(c.addr, BlockSize(c.len + 1));
    OrGrows(c.addr, BlockSize(c.len + 1));
  }

  // ---- Blocks ----

  lemma NetworkSameBlock(c: Cidr, a: bv32)
    ensures Aligned(Network(c)) && In(c.addr, c)
    ensures In(a, Network(c)) <==> In(a, c)
  {
    hide NetworkAddr;
    NetworkNests(c.addr, c.len, c.len);
  }

  /** A prefix and its sibling are the two distinct halves of one parent. */
  lemma SiblingAligned(c: Cidr)
    requires Aligned(c) && c.len > 0
    ensures Aligned(Parent(c)) && Aligned(Sibling(c)) && Sibling(c).len == c.len
    ensures Sibling(c) != c && Sibling(Sibling(c)) == c && Parent(Sibling(c)) == Parent(c)
  {
    hide NetworkAddr, BlockSize, Or;
    UpperHalf(c.addr, c.len);
    OneBitMore(c.addr, c.len);
    NetworkNests(c.addr, c.len - 1, c.len - 1);
    NetworkNests(c.addr, c.len - 1, c.len);
  }

  lemma SiblingSplits(c: Cidr, a: bv32)
    requires Aligned(c) && c.len > 0
    ensures In(a, Parent(c)) <==> In(a, c) || In(a, Sibling(c))
    ensures !(In(a, c) && In(a, Sibling(c)))
  {
    hide NetworkAddr, BlockSize, Or;
    SiblingAligned(c);
    OneBitMore(a, c.len);
    OneBitMore(c.addr, c.len);
    NetworkNests(a, c.len - 1, c.len);
  }

  /** Blocks that share an address are nested. */
  lemma Laminar(c: Cidr, d: Cidr, a: bv32)
    requires Aligned(c) && c.len <= d.len && In(a, c) && In(a, d)
    ensures Contains(c, d)
  {
    hide NetworkAddr;
    NetworkNests(a, c.len, d.len);
    NetworkNests(d.addr, c.len, d.len);
  }

  lemma ContainsBlock(c: Cidr, d: Cidr, a: bv32)
    requires Contains(c, d)
    ensures Aligned(c)
    ensures In(a, d) ==> In(a, c)
  {
    hide NetworkAddr;
    NetworkNests(d.addr, c.len, c.len);
    NetworkNests(a, c.len, d.len);
    NetworkNests(d.addr, c.len, d.len);
  }

  lemma ContainsParent(c: Cidr, d: Cidr)
    requires Contains(c, d) && c.len < d.len
    ensures Contains(c, Parent(d))
  {
    hide NetworkAddr;
    NetworkNests(d.addr, c.len, d.len - 1);
  }

  lemma ContainsTrans(c: Cidr, d: Cidr, e: Cidr)
    requires Contains(c, d) && Contains(d, e)
    ensures Contains(c, e)
  {
    hide NetworkAddr;
    NetworkNests(e.addr, c.len, d.len);
  }

  lemma ParentContains(c: Cidr)
    ensures c.len > 0 ==> Contains(Parent(c), c)
  {}

  lemma ContainsSelf(c: Cidr)
    ensures Aligned(c) ==> Contains(c, c)
  {}
}
