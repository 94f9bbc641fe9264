/** The 32-bit operations the prefix arithmetic uses, and the laws of them that its proofs need.
    Only this module looks at single bits; everything above it reasons from the laws. */
module Words {

  function And(x: bv32, y: bv32): bv32 {
    x & y
  }

  function Or(x: bv32, y: bv32): bv32 {
    x | y
  }

  function WrappingAdd(x: bv32, y: bv32): bv32 {
    x + y
  }

  function Doubled(x: bv32): bv32 {
    x << 1
  }

  /** All bits from `k` up: all ones, shifted left `k` times. */
  function Ones(k: int): bv32
    requires 0 <= k <= 32
  {
    if k == 0 then 0xFFFF_FFFF else Doubled(Ones(k - 1))
  }

  /** Bit `k` alone. */
  function One(k: int): bv32
    requires 0 <= k < 32
  {
    if k == 0 then 1 else Doubled(One(k - 1))
  }

  // Shifting by one `k` times is the machine's shift by `k`.

  lemma ShiftMore(x: bv32, k: bv8)
    ensures k < 32 ==> (x << k) << 1 == x << (k + 1)
  {}

  lemma ByteSuccessor(k: int)
    requires 0 <= k < 32
    ensures (k + 1) as bv8 == (k as bv8) + 1 && (k as bv8) < 32
  {}

  lemma {:induction false} OnesIsShift(k: int)
    requires 0 <= k <= 32
    ensures Ones(k) == (0xFFFF_FFFF as bv32) << (k as bv8)
  {
    if k == 0 {
    } else {
      OnesIsShift(k - 1);
      ByteSuccessor(k - 1);
      ShiftMore(0xFFFF_FFFF, (k - 1) as bv8);
    }
  }

  lemma {:induction false} OneIsShift(k: int)
    requires 0 <= k < 32
    ensures One(k) == (1 as bv32) << (k as bv8)
  {
    if k == 0 {
    } else {
      OneIsShift(k - 1);
      ByteSuccessor(k - 1);
      ShiftMore(1, (k - 1) as bv8);
    }
  }

  // ---- Bits ----

  lemma DoubledOr(x: bv32, y: bv32)
    ensures Doubled(0) == 0
    ensures Doubled(Or(x, y)) == Or(Doubled(x), Doubled(y))
  {}

  lemma DoubledApart(x: bv32, y: bv32)
    ensures And(x, y) == 0 ==> And(Doubled(x), Doubled(y)) == 0
  {}

  lemma {:induction false} OnesStep(k: int)
    requires 0 <= k < 32
    ensures Ones(k) == Or(Ones(k + 1), One(k))
    ensures And(Ones(k + 1), One(k)) == 0
  {
    if k == 0 {
    } else {
      hide And, Or, Doubled;
      OnesStep(k - 1);
      DoubledOr(Ones(k), One(k - 1));
      DoubledApart(Ones(k), One(k - 1));
    }
  }

  /** At most one bit is set. */
  predicate Single(x: bv32) {
    x & (x - 1) == 0
  }

  lemma DoubledSingle(x: bv32)
    ensures Single(x) ==> Single(Doubled(x))
  {}

  lemma SingleMasks(x: bv32, b: bv32)
    ensures Single(b) ==> (And(x, b) == 0 || And(x, b) == b)
  {}

  lemma {:induction false} OneSingle(k: int)
    requires 0 <= k < 32
    ensures Single(One(k))
  {
    if k == 0 {
    } else {
      hide Doubled, Single;
      OneSingle(k - 1);
      DoubledSingle(One(k - 1));
    }
  }

  lemma {:induction false} OneIsSomething(k: int)
    requires 0 <= k < 32
    ensures One(k) != 0
    decreases 32 - k
  {
    if k == 31 {
      OneIsShift(31);
    } else {
      hide Doubled;
      OneIsSomething(k + 1);
      DoubledOr(0, 0);
    }
  }

  lemma OneIsSingle(k: int, x: bv32)
    requires 0 <= k < 32
    ensures One(k) != 0
    ensures And(x, One(k)) == 0 || And(x, One(k)) == One(k)
  {
    hide *;
    OneIsSomething(k);
    OneSingle(k);
    SingleMasks(x, One(k));
  }

  lemma OnesEnds()
    ensures Ones(32) == 0
  {
    OnesIsShift(32);
  }

  // A mask of leading ones compares what is left when the other bits are shifted out.

  function Halved(x: bv32): bv32 {
    x >> 1
  }

  /** The machine's shift to the right by `k`. */
  function ShiftedRight(x: bv32, k: int): bv32
    requires 0 <= k <= 32
  {
    x >> (k as bv8)
  }

  lemma DoubledMask(x: bv32, m: bv32)
    ensures And(x, Doubled(m)) == Doubled(And(Halved(x), m))
  {}

  lemma DoubledBack(x: bv32, m: bv32)
    ensures Halved(Doubled(And(Halved(x), m))) == And(Halved(x), m)
  {}

  lemma HalvedMore(x: bv32, k: bv8)
    ensures k < 32 ==> (x >> 1) >> k == x >> (k + 1)
  {}

  lemma ShiftedMore(x: bv32, k: int)
    requires 0 <= k < 32
    ensures ShiftedRight(Halved(x), k) == ShiftedRight(x, k + 1)
  {
    ByteSuccessor(k);
    HalvedMore(x, k as bv8);
  }

  lemma ShiftedNone(x: bv32)
    ensures ShiftedRight(x, 0) == x
  {}

  lemma {:induction false} MaskedIsShifted(x: bv32, y: bv32, k: int)
    requires 0 <= k <= 32
    ensures And(x, Ones(k)) == And(y, Ones(k)) <==> ShiftedRight(x, k) == ShiftedRight(y, k)
  {
    if k == 0 {
      AllOnesKeep(x);
      AllOnesKeep(y);
      hide *;
      ShiftedNone(x);
      ShiftedNone(y);
    } else {
      var m := Ones(k - 1);
      assert Ones(k) == Doubled(m);
      hide *;
      MaskedIsShifted(Halved(x), Halved(y), k - 1);
      DoubledMask(x, m);
      DoubledMask(y, m);
      DoubledBack(x, m);
      DoubledBack(y, m);
      ShiftedMore(x, k - 1);
      ShiftedMore(y, k - 1);
    }
  }

  lemma AllOnesKeep(x: bv32)
    ensures And(x, Ones(0)) == x
  {}

  lemma AndLaws(x: bv32, m: bv32, n: bv32)
    ensures And(And(x, m), n) == And(x, And(m, n))
    ensures And(x, m) == And(m, x)
    ensures And(x, x) == x
  {}

  lemma AndClearBit(x: bv32, m: bv32, b: bv32)
    ensures And(x, b) == 0 ==> And(x, Or(m, b)) == And(x, m)
  {}

  lemma AndSetBit(x: bv32, m: bv32, b: bv32)
    ensures And(x, b) == b ==> And(x, Or(m, b)) == Or(And(x, m), b)
  {}

  /** A mask widened by a bit still lies within the wider one. */
  lemma AndWithin(m: bv32, b: bv32, n: bv32)
    ensures And(m, n) == n ==> And(Or(m, b), n) == n
  {}

  /** Setting bits a mask does not cover: the wider mask keeps them. */
  lemma OrMasked(x: bv32, m: bv32, b: bv32)
    ensures And(Or(And(x, m), b), Or(m, b)) == Or(And(x, m), b)
  {}

  /** And the narrower one drops them, which the masked word had none of. */
  lemma OrDropped(x: bv32, m: bv32, b: bv32)
    ensures And(m, b) == 0 ==> And(And(x, m), b) == 0
    ensures And(m, b) == 0 ==> And(Or(And(x, m), b), m) == And(x, m)
  {}

  lemma OrDiffers(x: bv32, m: bv32, b: bv32)
    ensures And(m, b) == 0 && b != 0 ==> Or(And(x, m), b) != And(x, m)
  {}

  lemma DisjointSum(x: bv32, y: bv32)
    ensures x & y == 0 ==> WrappingAdd(x, y) == x | y
  {}

  lemma DisjointAdd(x: bv32, y: bv32)
    requires And(x, y) == 0
    ensures WrappingAdd(x, y) == Or(x, y)
  {
    hide WrappingAdd;
    DisjointSum(x, y);
  }


  // ---- Order ----

  predicate Below(x: bv32, y: bv32) {
    x < y
  }

  lemma BelowIrreflexive(x: bv32)
    ensures !Below(x, x)
  {}

  lemma OrGrows(x: bv32, y: bv32)
    ensures !Below(Or(x, y), x)
  {}

  // Totality, a byte at a time from the top.

  function TopByte(x: bv32): bv32 {
    x >> 24
  }

  function OtherBytes(x: bv32): bv32 {
    x << 8
  }

  lemma TopByteOrdered(x: bv32, y: bv32)
    ensures !Below(x, y) && !Below(y, x) ==> TopByte(x) == TopByte(y)
  {}

  lemma OtherBytesOrdered(x: bv32, y: bv32)
    ensures !Below(x, y) && TopByte(x) == TopByte(y) ==> !Below(OtherBytes(x), OtherBytes(y))
  {}

  lemma FourBytes(x: bv32, y: bv32)
    ensures (&& TopByte(x) == TopByte(y)
             && TopByte(OtherBytes(x)) == TopByte(OtherBytes(y))
             && TopByte(OtherBytes(OtherBytes(x))) == TopByte(OtherBytes(OtherBytes(y)))
             && TopByte(OtherBytes(OtherBytes(OtherBytes(x)))) == TopByte(OtherBytes(OtherBytes(OtherBytes(y)))))
      ==> x == y
  {}

  lemma NextByte(x: bv32, y: bv32)
    requires !Below(x, y) && !Below(y, x)
    ensures TopByte(x) == TopByte(y)
    ensures !Below(OtherBytes(x), OtherBytes(y)) && !Below(OtherBytes(y), OtherBytes(x))
  {
    hide *;
    TopByteOrdered(x, y);
    OtherBytesOrdered(x, y);
    OtherBytesOrdered(y, x);
  }

  lemma BelowTotal(x: bv32, y: bv32)
    ensures Below(x, y) || x == y || Below(y, x)
  {
    hide *;
    if !Below(x, y) && !Below(y, x) {
      NextByte(x, y);
      NextByte(OtherBytes(x), OtherBytes(y));
      NextByte(OtherBytes(OtherBytes(x)), OtherBytes(OtherBytes(y)));
      NextByte(OtherBytes(OtherBytes(OtherBytes(x))), OtherBytes(OtherBytes(OtherBytes(y))));
      FourBytes(x, y);
    }
  }

  lemma BelowTrans(x: bv32, y: bv32, z: bv32)
    ensures Below(x, y) && Below(y, z) ==> Below(x, z)
  {}

  lemma MaskedNotAbove(x: bv32, m: bv32)
    ensures !Below(x, And(x, m))
  {}
}
