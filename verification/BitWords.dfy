/** 32-bit registers used as sets of single bits.

    The operations are named so that larger proofs can hide them and work with the lemmas alone. */
module BitWords {

  type word = bv32

  function Masked(w: word, bits: word): word {
    w & bits
  }

  function With(w: word, bits: word): word {
    w | bits
  }

  function Without(w: word, bits: word): word {
    w & !bits
  }

  /** `1 << i` */
  function Bit(i: nat): word
    requires i < 32
  {
    if i == 0 then 1 else Doubled(Bit(i - 1))
  }

  predicate TestBit(w: word, i: nat)
    requires i < 32
  {
    Masked(w, Bit(i)) != 0
  }

  function Doubled(w: word): word {
    w << 1
  }

  lemma DoubledDisjoint(x: word, y: word)
    requires Masked(x, y) == 0
    ensures Masked(Doubled(x), Doubled(y)) == 0
  {}

  lemma OneAndDoubled(y: word)
    ensures Masked(1, Doubled(y)) == 0 && Masked(Doubled(y), 1) == 0
  {}

  lemma {:induction false} BitsDisjoint(i: nat, k: nat)
    requires i < 32 && k < 32 && i != k
    ensures Masked(Bit(i), Bit(k)) == 0
  {
    hide Masked, Doubled;
    if i == 0 {
      OneAndDoubled(Bit(k - 1));
    } else if k == 0 {
      OneAndDoubled(Bit(i - 1));
    } else {
      BitsDisjoint(i - 1, k - 1);
      DoubledDisjoint(Bit(i - 1), Bit(k - 1));
    }
  }

  lemma LowBitValues()
    ensures Bit(0) == 0x1 && Bit(1) == 0x2 && Bit(2) == 0x4 && Bit(3) == 0x8
    ensures Bit(4) == 0x10 && Bit(5) == 0x20 && Bit(6) == 0x40 && Bit(7) == 0x80
    ensures Bit(8) == 0x100 && Bit(9) == 0x200 && Bit(10) == 0x400 && Bit(11) == 0x800
    ensures Bit(12) == 0x1000 && Bit(13) == 0x2000 && Bit(14) == 0x4000 && Bit(15) == 0x8000
  {
    assert Bit(1) == 0x2;
    assert Bit(3) == 0x8;
    assert Bit(5) == 0x20;
    assert Bit(7) == 0x80;
    assert Bit(9) == 0x200;
    assert Bit(11) == 0x800;
    assert Bit(13) == 0x2000;
  }

  lemma HighBitValues()
    ensures Bit(16) == 0x1_0000 && Bit(18) == 0x4_0000 && Bit(26) == 0x400_0000 && Bit(27) == 0x800_0000
    ensures Bit(28) == 0x1000_0000 && Bit(31) == 0x8000_0000
  {
    LowBitValues();
    assert Bit(16) == 0x1_0000;
    assert Bit(18) == 0x4_0000;
    assert Bit(20) == 0x10_0000;
    assert Bit(22) == 0x40_0000;
    assert Bit(24) == 0x100_0000;
    assert Bit(26) == 0x400_0000;
    assert Bit(28) == 0x1000_0000;
    assert Bit(30) == 0x4000_0000;
  }

  lemma {:induction false} ZeroStays(i: nat, k: nat)
    requires i <= k < 32 && Bit(i) == 0
    ensures Bit(k) == 0
  {
    if i < k {
      ZeroStays(i, k - 1);
    }
  }

  lemma BitNonZero(i: nat)
    requires i < 32
    ensures Bit(i) != 0
  {
    if Bit(i) == 0 {
      ZeroStays(i, 31);
      HighBitValues();
    }
  }

  lemma MaskedWithout(w: word, x: word, y: word)
    requires Masked(x, y) == 0
    ensures Masked(Without(w, x), y) == Masked(w, y)
  {}

  lemma MaskedWith(w: word, x: word, y: word)
    requires Masked(x, y) == 0
    ensures Masked(With(w, x), y) == Masked(w, y)
  {}

  lemma MaskedSelf(w: word, x: word)
    ensures Masked(Without(w, x), x) == 0
    ensures Masked(With(w, x), x) == x
  {}

  /** Setting or clearing one bit changes that bit and no other. */
  lemma OneBitChanges(w: word, i: nat, k: nat)
    requires i < 32 && k < 32
    ensures TestBit(With(w, Bit(i)), k) <==> k == i || TestBit(w, k)
    ensures TestBit(Without(w, Bit(i)), k) <==> k != i && TestBit(w, k)
  {
    hide Masked, With, Without, Bit;
    BitNonZero(i);
    MaskedSelf(w, Bit(i));
    if i != k {
      BitsDisjoint(i, k);
      MaskedWithout(w, Bit(i), Bit(k));
      MaskedWith(w, Bit(i), Bit(k));
    }
  }

  lemma UnionUnderMask(z: word, x: word, y: word, w: word)
    requires z == With(x, y)
    ensures Masked(z, w) == With(Masked(x, w), Masked(y, w))
  {}

  lemma MaskOverUnion(w: word, z: word, x: word, y: word)
    requires z == With(x, y)
    ensures Masked(w, z) == With(Masked(w, x), Masked(w, y))
  {}

  lemma MaskedUnion(w: word, x: word, y: word)
    ensures Masked(w, With(x, y)) == With(Masked(w, x), Masked(w, y))
  {
    hide Masked, With;
    MaskOverUnion(w, With(x, y), x, y);
  }

  lemma EmptyUnion(x: word, y: word)
    ensures With(x, y) == 0 <==> x == 0 && y == 0
  {}

  /** The union of bits lo, ..., hi - 1. */
  function Bits(lo: nat, hi: nat): word
    requires lo <= hi <= 32
    decreases hi - lo
  {
    if lo == hi then 0 else With(Bit(lo), Bits(lo + 1, hi))
  }

  lemma MaskedZero(w: word)
    ensures Masked(w, 0) == 0
  {}

  lemma {:induction false} NoBitsIn(w: word, lo: nat, hi: nat)
    requires lo <= hi <= 32
    ensures Masked(w, Bits(lo, hi)) == 0 <==> forall i :: lo <= i < hi ==> !TestBit(w, i)
    decreases hi - lo
  {
    hide Masked, With, Bit;
    if lo < hi {
      NoBitsIn(w, lo + 1, hi);
      MaskedUnion(w, Bit(lo), Bits(lo + 1, hi));
      EmptyUnion(Masked(w, Bit(lo)), Masked(w, Bits(lo + 1, hi)));
      assert Bits(lo, hi) == With(Bit(lo), Bits(lo + 1, hi));
      assert Masked(w, Bits(lo, hi)) == 0 <==> !TestBit(w, lo) && Masked(w, Bits(lo + 1, hi)) == 0;
    } else {
      MaskedZero(w);
    }
  }

  /** Setting one flag to a given value. */
  function Put(w: word, i: nat, on: bool): word
    requires i < 32
  {
    if on then With(w, Bit(i)) else Without(w, Bit(i))
  }

  lemma PutBit(w: word, i: nat, on: bool, k: nat)
    requires i < 32 && k < 32
    ensures TestBit(Put(w, i, on), k) <==> if k == i then on else TestBit(w, k)
  {
    hide TestBit, With, Without, Bit;
    OneBitChanges(w, i, k);
  }

  /** A single-bit mask is either wholly in a word or not at all. */
  lemma {:induction false} SingleBit(w: word, i: nat)
    requires i < 32
    ensures Masked(w, Bit(i)) == Bit(i) <==> TestBit(w, i)
    decreases i
  {
    hide Masked, Doubled;
    if i == 0 {
      LowestBit(w);
    } else {
      SingleBit(Halved(w), i - 1);
      HalvedBit(w, Bit(i - 1));
      BitNonZero(i);
    }
  }

  function Halved(w: word): word {
    w >> 1
  }

  lemma LowestBit(w: word)
    ensures Masked(w, 1) == 1 <==> Masked(w, 1) != 0
  {}

  lemma HalvedBit(w: word, x: word)
    ensures Masked(w, Doubled(x)) == Doubled(Masked(Halved(w), x))
    ensures Doubled(0) == 0
  {}
}
