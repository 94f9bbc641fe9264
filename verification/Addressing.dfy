/** Addresses derived from a node's identity: the network's leading bits, the identity's below them. */
module Addressing {
  import opened Cidrs
  import opened Words

  // ---- IPv4 ----

  function Complement(x: bv32): bv32 {
    !x
  }

  /** The bits of an identity that a network of this length leaves to its hosts. */
  function HostBits(id: bv32, len: PrefixLen): bv32 {
    And(id, Complement(Mask(len)))
  }

  function Ipv4Loopback(network: bv32, len: PrefixLen, id: bv32): bv32 {
    Or(And(network, Mask(len)), HostBits(id, len))
  }

  lemma ParcelsApart(network: bv32, mask: bv32, id: bv32)
    ensures And(Or(And(network, mask), And(id, Complement(mask))), mask) == And(network, mask)
    ensures And(Or(And(network, mask), And(id, Complement(mask))), Complement(mask)) == And(id, Complement(mask))
  {}

  /** A derived loopback lies in its network. */
  lemma Ipv4LoopbackIsInside(network: bv32, len: PrefixLen, id: bv32)
    ensures In(Ipv4Loopback(network, len, id), Cidr(network, len))
  {
    hide And, Or, Complement, Mask;
    ParcelsApart(network, Mask(len), id);
  }

  /** Two nodes share a loopback exactly when their identities agree on the host bits. */
  lemma Ipv4LoopbacksCollideIff(network: bv32, len: PrefixLen, id: bv32, other: bv32)
    ensures Ipv4Loopback(network, len, id) == Ipv4Loopback(network, len, other) <==>
      HostBits(id, len) == HostBits(other, len)
  {
    hide And, Or, Complement, Mask;
    ParcelsApart(network, Mask(len), id);
    ParcelsApart(network, Mask(len), other);
  }

  /** Below the network's bits a loopback is the identity. */
  lemma Ipv4LoopbackKeepsHostBits(network: bv32, len: PrefixLen, id: bv32)
    ensures Ipv4Loopback(network, len, id) & !Mask(len) == id & !Mask(len)
  {
    hide Mask;
    ParcelsApart(network, Mask(len), id);
  }

  lemma TopBitIsMasked(len: PrefixLen)
    requires len > 0
    ensures And(Mask(len), 0x8000_0000) == 0x8000_0000
  {
    hide And, Or, One, Ones;
    OnesIsShift(32 - len);
    ByteSuccessor(32 - len);
    TopShiftByte((32 - len) as bv8);
  }

  lemma TopShiftByte(k: bv8)
    ensures k < 32 ==> And((0xFFFF_FFFF as bv32) << k, 0x8000_0000) == 0x8000_0000
  {}

  lemma NoHostBits(mask: bv32, bit: bv32)
    ensures And(mask, bit) == bit ==> And(bit, Complement(mask)) == And(0, Complement(mask))
  {}

  lemma NoMaskKeeps(id: bv32)
    ensures And(id, Complement(0)) == id
  {}

  /** Distinct identities are sure to give distinct IPv4 loopbacks only when the network has no bits of
      its own. */
  lemma Ipv4NeverCollidesIff(network: bv32, len: PrefixLen)
    ensures (forall id, other: bv32 :: id != other ==>
      Ipv4Loopback(network, len, id) != Ipv4Loopback(network, len, other))
      <==> len == 0
  {
    hide And, Or, Complement, Ones, Ipv4Loopback;
    if len == 0 {
      forall id, other: bv32 | id != other ensures Ipv4Loopback(network, len, id) != Ipv4Loopback(network, len, other) {
        Ipv4LoopbacksCollideIff(network, len, id, other);
        NoMaskKeeps(id);
        NoMaskKeeps(other);
      }
    } else {
      Ipv4LoopbacksCollideIff(network, len, 0x8000_0000, 0);
      TopBitIsMasked(len);
      NoHostBits(Mask(len), 0x8000_0000);
    }
  }

  /** In 10.62.0.0/16, the ids 10.62.0.1 and 10.63.0.1 share the loopback 10.62.0.1. */
  lemma Ipv4CollisionExample()
    ensures Ipv4Loopback(0x0A3E_0000, 16, 0x0A3E_0001) == Ipv4Loopback(0x0A3E_0000, 16, 0x0A3F_0001)
  {
    OnesIsShift(16);
    assert Mask(16) == 0xFFFF_0000;
  }

  // ---- IPv6 ----

  type Prefix6Len = l: int | 0 <= l <= 128

  function And6(x: bv128, y: bv128): bv128 {
    x & y
  }

  function Or6(x: bv128, y: bv128): bv128 {
    x | y
  }

  function Complement6(x: bv128): bv128 {
    !x
  }

  const ALL_ONES: bv128 := 0xFFFF_FFFF_FFFF_FFFF_FFFF_FFFF_FFFF_FFFF
  const LOW_WORD: bv128 := 0xFFFF_FFFF

  function Doubled6(x: bv128): bv128 {
    x << 1
  }

  /** All ones, shifted left `k` times. */
  function Ones6(k: int): bv128
    requires 0 <= k <= 128
  {
    if k == 0 then ALL_ONES else Doubled6(Ones6(k - 1))
  }

  function Mask6(len: Prefix6Len): bv128 {
    if len == 0 then 0 else Ones6(128 - len)
  }

  function Widened(id: bv32): bv128 {
    id as bv128
  }

  function LowWord(a: bv128): bv32 {
    (a & LOW_WORD) as bv32
  }

  function HostBits6(id: bv32, len: Prefix6Len): bv128 {
    And6(Widened(id), Complement6(Mask6(len)))
  }

  function Ipv6Loopback(network: bv128, len: Prefix6Len, id: bv32): bv128 {
    Or6(And6(network, Mask6(len)), HostBits6(id, len))
  }

  lemma NetworkParcel6(network: bv128, mask: bv128, id: bv128)
    ensures And6(Or6(And6(network, mask), And6(id, Complement6(mask))), mask) == And6(network, mask)
  {}

  lemma ParcelsApart6(network: bv128, mask: bv128, id: bv128)
    ensures And6(And6(network, mask), And6(id, Complement6(mask))) == 0
  {}

  lemma Cancels6(top: bv128, low: bv128, other: bv128)
    ensures And6(top, low) == 0 && And6(top, other) == 0 && Or6(top, low) == Or6(top, other) ==> low == other
  {}

  lemma Ipv6LoopbackLaws(network: bv128, len: Prefix6Len, id: bv32, other: bv32)
    ensures And6(Ipv6Loopback(network, len, id), Mask6(len)) == And6(network, Mask6(len))
    ensures Ipv6Loopback(network, len, id) == Ipv6Loopback(network, len, other) <==>
      HostBits6(id, len) == HostBits6(other, len)
  {
    hide And6, Or6, Complement6, Mask6, Widened;
    NetworkParcel6(network, Mask6(len), Widened(id));
    ParcelsApart6(network, Mask6(len), Widened(id));
    ParcelsApart6(network, Mask6(len), Widened(other));
    if Ipv6Loopback(network, len, id) == Ipv6Loopback(network, len, other) {
      Cancels6(And6(network, Mask6(len)), HostBits6(id, len), HostBits6(other, len));
    }
  }

  lemma ComplementTwice6(mask: bv128)
    ensures Complement6(Complement6(mask)) == mask
  {}

  lemma OrTurned6(x: bv128, y: bv128)
    ensures Or6(x, y) == Or6(y, x)
  {}

  lemma HostParcel6(network: bv128, mask: bv128, id: bv128)
    ensures And6(Or6(And6(network, mask), And6(id, Complement6(mask))), Complement6(mask)) ==
      And6(id, Complement6(mask))
  {
    hide *;
    NetworkParcel6(id, Complement6(mask), network);
    ComplementTwice6(mask);
    OrTurned6(And6(network, mask), And6(id, Complement6(mask)));
  }

  /** In the network's bits a loopback is the network, below them it is the identity. */
  lemma Ipv6LoopbackBits(network: bv128, len: Prefix6Len, id: bv32)
    ensures And6(Ipv6Loopback(network, len, id), Mask6(len)) == And6(network, Mask6(len))
    ensures And6(Ipv6Loopback(network, len, id), Complement6(Mask6(len))) == And6(Widened(id), Complement6(Mask6(len)))
  {
    hide And6, Or6, Complement6, Mask6, Widened;
    NetworkParcel6(network, Mask6(len), Widened(id));
    HostParcel6(network, Mask6(len), Widened(id));
  }

  // What the masks are.

  function ByByte6(x: bv128): bv128 {
    x << 8
  }

  lemma DoubledByByte6(x: bv128)
    ensures Doubled6(Doubled6(Doubled6(Doubled6(Doubled6(Doubled6(Doubled6(Doubled6(x)))))))) == ByByte6(x)
  {}

  lemma NextOnes6(k: int)
    requires 0 <= k < 128
    ensures Ones6(0) == ALL_ONES && Ones6(k + 1) == Doubled6(Ones6(k))
  {
    hide Doubled6;
  }

  lemma OnesByByte6(k: int)
    requires 0 <= k <= 120
    ensures Ones6(k + 8) == ByByte6(Ones6(k))
  {
    hide *;
    NextOnes6(k);
    NextOnes6(k + 1);
    NextOnes6(k + 2);
    NextOnes6(k + 3);
    NextOnes6(k + 4);
    NextOnes6(k + 5);
    NextOnes6(k + 6);
    NextOnes6(k + 7);
    DoubledByByte6(Ones6(k));
  }

  lemma NoOnes6()
    ensures Ones6(128) == 0
  {
    NextOnes6(0);
    hide Ones6;
    OnesByByte6(0);
    OnesByByte6(8);
    OnesByByte6(16);
    OnesByByte6(24);
    OnesByByte6(32);
    OnesByByte6(40);
    OnesByByte6(48);
    OnesByByte6(56);
    OnesByByte6(64);
    OnesByByte6(72);
    OnesByByte6(80);
    OnesByByte6(88);
    OnesByByte6(96);
    OnesByByte6(104);
    OnesByByte6(112);
    OnesByByte6(120);
  }

  /** The mask of 128 bits is all ones, and every shorter one is the mask a bit longer, shifted left by one. */
  lemma Mask6Shifts(len: Prefix6Len)
    ensures Mask6(128) == 0xFFFF_FFFF_FFFF_FFFF_FFFF_FFFF_FFFF_FFFF
    ensures len < 128 ==> Mask6(len) == Doubled6(Mask6(len + 1))
  {
    hide Doubled6, Ones6;
    NextOnes6(0);
    if len == 0 {
      NoOnes6();
    }
    if len < 128 {
      NextOnes6(127 - len);
    }
  }

  // The low word of a loopback.

  lemma LowWordDoubles(x: bv128)
    ensures LowWord(ALL_ONES) == 0xFFFF_FFFF
    ensures LowWord(Doubled6(x)) == Doubled(LowWord(x))
  {}

  lemma {:induction false} LowWordOfOnes(k: int)
    requires 0 <= k <= 128
    ensures LowWord(Ones6(k)) == if k <= 32 then Ones(k) else 0
  {
    hide LowWord, Doubled, Doubled6;
    if k == 0 {
      LowWordDoubles(0);
    } else {
      LowWordOfOnes(k - 1);
      LowWordDoubles(Ones6(k - 1));
      OnesEnds();
      DoubledOr(0, 0);
    }
  }

  lemma LowWordIsMasked(x: bv128)
    ensures LowWord(x) == 0 ==> And6(x, LOW_WORD) == 0
    ensures And(LowWord(x), 0x8000_0000) == 0x8000_0000 ==> And6(x, 0x8000_0000) == 0x8000_0000
  {}

  lemma MaskAndLowWord(len: Prefix6Len)
    ensures len <= 96 ==> And6(Mask6(len), LOW_WORD) == 0
    ensures len > 96 ==> And6(Mask6(len), 0x8000_0000) == 0x8000_0000
  {
    if len > 0 {
      hide And, And6, LowWord, Ones, Ones6;
      LowWordOfOnes(128 - len);
      LowWordIsMasked(Ones6(128 - len));
      if len <= 96 {
        OnesEnds();
      } else {
        TopBitIsMasked(len - 96);
      }
    }
  }

  lemma LowWordKept(network: bv128, mask: bv128, id: bv32)
    ensures And6(mask, LOW_WORD) == 0 ==> LowWord(Or6(And6(network, mask), And6(Widened(id), Complement6(mask)))) == id
  {}

  lemma NoHostBits6(mask: bv128)
    ensures And6(mask, 0x8000_0000) == 0x8000_0000 ==>
      And6(Widened(0x8000_0000), Complement6(mask)) == And6(Widened(0), Complement6(mask))
  {}

  /** A network of at most 96 bits keeps all of the identity, in the low word. */
  lemma LoopbackKeepsIdentity(network: bv128, len: Prefix6Len, id: bv32)
    requires len <= 96
    ensures LowWord(Ipv6Loopback(network, len, id)) == id
  {
    hide And6, Or6, Complement6, Mask6, Widened, LowWord;
    MaskAndLowWord(len);
    LowWordKept(network, Mask6(len), id);
  }

  /** Distinct identities are sure to give distinct IPv6 loopbacks exactly when the network has at most
      96 bits. */
  lemma Ipv6NeverCollidesIff(network: bv128, len: Prefix6Len)
    ensures (forall id, other: bv32 :: id != other ==>
      Ipv6Loopback(network, len, id) != Ipv6Loopback(network, len, other))
      <==> len <= 96
  {
    hide And6, Or6, Complement6, Mask6, Widened, LowWord, Ipv6Loopback;
    if len <= 96 {
      forall id, other: bv32 | id != other ensures Ipv6Loopback(network, len, id) != Ipv6Loopback(network, len, other) {
        LoopbackKeepsIdentity(network, len, id);
        LoopbackKeepsIdentity(network, len, other);
      }
    } else {
      Ipv6LoopbackLaws(network, len, 0x8000_0000, 0);
      MaskAndLowWord(len);
      NoHostBits6(Mask6(len));
    }
  }

  lemma SixteenHostBits(mask: bv128)
    ensures LowWord(mask) == 0xFFFF_0000 ==>
      And6(Widened(0x0A3E_0001), Complement6(mask)) == And6(Widened(0x0A3F_0001), Complement6(mask))
  {}

  /** In a network of 112 bits, the ids 10.62.0.1 and 10.63.0.1 share their loopback. */
  lemma Ipv6CollisionExample(network: bv128)
    ensures Ipv6Loopback(network, 112, 0x0A3E_0001) == Ipv6Loopback(network, 112, 0x0A3F_0001)
  {
    assert LowWord(Ones6(16)) == 0xFFFF_0000 by {
      hide LowWord, Ones6;
      LowWordOfOnes(16);
      OnesIsShift(16);
    }
    hide And6, Or6, Complement6, Widened, LowWord, Ones6, Ipv6Loopback;
    SixteenHostBits(Mask6(112));
    Ipv6LoopbackLaws(network, 112, 0x0A3E_0001, 0x0A3F_0001);
  }

  // ---- Link-local addresses ----

  /** The address of eight segments, all zero but the first and the last two. */
  function FromSegments(first: bv16, seventh: bv16, eighth: bv16): bv128 {
    ((first as bv128) << 112) | ((seventh as bv128) << 16) | (eighth as bv128)
  }

  function LinkLocalFromLoopback(loopback: bv128): bv128 {
    var bits := LowWord(loopback);
    FromSegments(0xfe80, (bits >> 16) as bv16, (bits & 0xFFFF) as bv16)
  }

  lemma LinkLocalLaws(loopback: bv128)
    ensures LowWord(LinkLocalFromLoopback(loopback)) == LowWord(loopback)
    ensures And6(LinkLocalFromLoopback(loopback), Complement6(LOW_WORD)) == 0xfe80_0000_0000_0000_0000_0000_0000_0000
  {}

  /** The link-local address carries the identity the loopback was derived from, so distinct identities
      have distinct link-local addresses, all of them in fe80::/96. */
  lemma LinkLocalRecoversIdentity(network: bv128, len: Prefix6Len, id: bv32)
    requires len <= 96
    ensures var a := LinkLocalFromLoopback(Ipv6Loopback(network, len, id));
      LowWord(a) == id && And6(a, Complement6(LOW_WORD)) == 0xfe80_0000_0000_0000_0000_0000_0000_0000
  {
    hide *;
    LoopbackKeepsIdentity(network, len, id);
    LinkLocalLaws(Ipv6Loopback(network, len, id));
  }
}
