/** Rows of bits packed into 32-bit words, as btyacc keeps its relations and token sets (defs.h). */
module BitRows {

  /** Words needed for n bits. */
  function WordSize(n: nat): nat { (n + 31) / 32 }

  /** The mask after k shifts. */
  function Mask(k: nat): bv32 {
    if k == 0 then 1 else Mask(k - 1) << 1
  }

  /** The word operations of the C code, by name. */
  function Or(a: bv32, b: bv32): bv32 { a | b }

  function And(a: bv32, b: bv32): bv32 { a & b }

  predicate Test(w: bv32, mask: bv32) { And(w, mask) != 0 }

  function ShiftUp(mask: bv32): bv32 { mask << 1 }

  /** Bit k of a word. */
  predicate BitOf(w: bv32, k: nat) { Test(w, Mask(k)) }

  lemma TopMask()
    ensures Mask(31) == 0x8000_0000 && Mask(32) == 0
  {
    assert Mask(2) == 4;
    assert Mask(4) == 16;
    assert Mask(6) == 0x40;
    assert Mask(8) == 0x100;
    assert Mask(10) == 0x400;
    assert Mask(12) == 0x1000;
    assert Mask(14) == 0x4000;
    assert Mask(16) == 0x1_0000;
    assert Mask(18) == 0x4_0000;
    assert Mask(20) == 0x10_0000;
    assert Mask(22) == 0x40_0000;
    assert Mask(24) == 0x100_0000;
    assert Mask(26) == 0x400_0000;
    assert Mask(28) == 0x1000_0000;
    assert Mask(30) == 0x4000_0000;
  }

  /** The mask runs out exactly after 32 shifts. */
  lemma {:induction false} MaskNonZero(k: nat)
    requires k < 32
    ensures Mask(k) != 0
    decreases 32 - k
  {
    TopMask();
    if k < 31 {
      MaskNonZero(k + 1);
      ShiftZero(Mask(k));
    }
  }

  lemma ShiftZero(m: bv32)
    ensures m == 0 ==> m << 1 == 0
  {}

  lemma {:induction false} MasksApart(j: nat, k: nat)
    requires j < k
    ensures Mask(j) & Mask(k) == 0
    decreases j
  {
    if j == 0 {
      LowBitFree(Mask(k - 1));
    } else {
      MasksApart(j - 1, k - 1);
      ShiftBoth(Mask(j - 1), Mask(k - 1));
    }
  }

  lemma LowBitFree(m: bv32)
    ensures 1 & (m << 1) == 0
  {}

  lemma ShiftBoth(a: bv32, b: bv32)
    requires a & b == 0
    ensures (a << 1) & (b << 1) == 0
  {}

  lemma OrBits(a: bv32, b: bv32, k: nat)
    ensures BitOf(Or(a, b), k) <==> BitOf(a, k) || BitOf(b, k)
  {
    hide Mask, Or, And;
    AndDistributes(a, b, Mask(k));
    OrZero(And(a, Mask(k)), And(b, Mask(k)));
  }

  lemma AndDistributes(a: bv32, b: bv32, m: bv32)
    ensures And(Or(a, b), m) == Or(And(a, m), And(b, m))
  {}

  lemma OrZero(x: bv32, y: bv32)
    ensures Or(x, y) != 0 <==> x != 0 || y != 0
  {}

  lemma MaskStep(k: nat)
    ensures Mask(k + 1) == ShiftUp(Mask(k))
  {}

  lemma ZeroBits(k: nat)
    ensures !BitOf(0, k)
  {
    ZeroMask(Mask(k));
  }

  lemma ZeroMask(m: bv32)
    ensures !Test(0, m)
  {}

  /** A mask has exactly its own bit. */
  lemma MaskBits(j: nat, k: nat)
    requires j < 32 && k < 32
    ensures BitOf(Mask(j), k) <==> j == k
  {
    hide *;
    MaskNonZero(j);
    BitMeans(Mask(j), k);
    SelfAnd(Mask(j));
    if j < k { MasksApart(j, k); }
    if k < j { MasksApart(k, j); Commute(Mask(j), Mask(k)); }
  }

  lemma BitMeans(w: bv32, k: nat)
    ensures BitOf(w, k) <==> w & Mask(k) != 0
  {
    hide Mask;
  }

  lemma SelfAnd(m: bv32)
    ensures m & m == m
  {}

  lemma Commute(a: bv32, b: bv32)
    ensures a & b == b & a
  {}

  /** A word without any of its 32 bits is zero. */
  lemma WordZero(w: bv32)
    ensures w == 0 <==> forall k: nat :: k < 32 ==> !BitOf(w, k)
  {
    if w == 0 {
      forall k: nat | k < 32 ensures !BitOf(w, k) { ZeroBits(k); }
    } else {
      var k := FindBit(w, 0);
    }
  }

  /** Some bit from k on is set, when the ones below are clear and the word is not zero. */
  lemma {:induction false} FindBit(w: bv32, k: nat) returns (j: nat)
    requires k <= 32 && w != 0 && w & Below(k) == 0
    ensures j < 32 && BitOf(w, j)
    decreases 32 - k
  {
    j := 0;
    if k == 32 {
      AllOnes();
      OnesAnd(w);
    } else if BitOf(w, k) {
      j := k;
    } else {
      BelowNext(w, k);
      hide *;
      j := FindBit(w, k + 1);
    }
  }

  lemma BelowNext(w: bv32, k: nat)
    requires w & Below(k) == 0 && !BitOf(w, k)
    ensures w & Below(k + 1) == 0
  {
    BelowStep(w, Below(k), Mask(k));
  }

  /** All bits below k. */
  function Below(k: nat): bv32 { if k == 0 then 0 else Below(k - 1) | Mask(k - 1) }

  lemma BelowStep(w: bv32, b: bv32, m: bv32)
    requires w & b == 0 && !Test(w, m)
    ensures w & (b | m) == 0
  {}

  lemma OnesAnd(w: bv32)
    ensures w & 0xFFFF_FFFF == w
  {}

  lemma AllOnes()
    ensures Below(32) == 0xFFFF_FFFF
  {
    assert Mask(2) == 4 && Below(2) == 3;
    assert Mask(4) == 0x10 && Below(4) == 0xF;
    assert Mask(6) == 0x40 && Below(6) == 0x3F;
    assert Mask(8) == 0x100 && Below(8) == 0xFF;
    assert Mask(10) == 0x400 && Below(10) == 0x3FF;
    assert Mask(12) == 0x1000 && Below(12) == 0xFFF;
    assert Mask(14) == 0x4000 && Below(14) == 0x3FFF;
    assert Mask(16) == 0x1_0000 && Below(16) == 0xFFFF;
    assert Mask(18) == 0x4_0000 && Below(18) == 0x3_FFFF;
    assert Mask(20) == 0x10_0000 && Below(20) == 0xF_FFFF;
    assert Mask(22) == 0x40_0000 && Below(22) == 0x3F_FFFF;
    assert Mask(24) == 0x100_0000 && Below(24) == 0xFF_FFFF;
    assert Mask(26) == 0x400_0000 && Below(26) == 0x3FF_FFFF;
    assert Mask(28) == 0x1000_0000 && Below(28) == 0xFFF_FFFF;
    assert Mask(30) == 0x4000_0000 && Below(30) == 0x3FFF_FFFF;
  }
}
