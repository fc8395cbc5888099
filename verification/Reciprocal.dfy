/** The Q31 reciprocal of CMSIS-DSP: normalise, look up a 6-bit seed, and run two Newton steps.

    With n the normalised input in [2^30, 2^31) the exact answer is 2^61 / n, so the error of a
    candidate `out` is measured by Error(n, out) == 2^61 - n * out. */
module Reciprocal {
  import opened Arithmetic
  import opened FixedPoint

  lemma Pow2Values()
    ensures Pow2(4) == 0x10 && Pow2(8) == 0x100 && Pow2(16) == TWO16
    ensures Pow2(30) == TWO30 && Pow2(31) == TWO31 && Pow2(32) == TWO32
  {
    assert Pow2(4) == 0x10;
    Pow2Add(4, 4);
    Pow2Add(8, 8);
    Pow2Add(16, 16);
    Pow2Add(16, 8);
    Pow2Add(24, 4);
  }

  /** Bit `mask` of a word below 2 * mask is set exactly when the word reaches mask. */
  lemma TopBit(data: nat, mask: nat)
    requires mask > 0 && data < 2 * mask
    ensures data / mask == if data >= mask then 1 else 0
  {
    if data >= mask {
      assert data == mask + (data - mask);
      assert (data - mask) / mask == 0;
    }
  }

  /** `__CLZ`: walks a one-bit mask down from bit 31. */
  method CountLeadingZeros(data: u32) returns (count: nat)
    ensures data == 0 ==> count == 32
    ensures data > 0 ==> count <= 31 && Pow2(31 - count) <= data < Pow2(32 - count)
  {
    if data == 0 { return 32; }
    Pow2Values();
    count := 0;
    var mask := TWO31;
    while (data / mask) % 2 == 0
      invariant count <= 31
      invariant mask == Pow2(31 - count)
      invariant data < 2 * mask
      decreases 31 - count
    {
      TopBit(data, mask);
      count := count + 1;
      mask := mask / 2;
    }
    TopBit(data, mask);
  }

  /** `tempVal`, with both unsigned conversions the C code makes. */
  function Correction(p: q63): u32 {
    ToU32(TWO31 - 1 - ToU32(p / TWO31))
  }

  /** The two wraps cancel: the correction is 2^31 - 1 minus the signed high part. */
  lemma CorrectionIsExact(p: q63)
    requires -TWO31 * TWO31 <= p < TWO31 * TWO31
    ensures Correction(p) == TWO31 - 1 - p / TWO31
  {}

  /** One pass of the loop body. */
  function NewtonStep(n: q31, out: q31): q31 {
    MulBounded(n, out, TWO31, TWO31);
    ProductFitsQ63(out, Correction(n * out));
    ClipQ63ToQ31(out * Correction(n * out) / TWO30)
  }

  lemma ProductFitsQ63(out: q31, t: u32)
    ensures -TWO63 <= out * t < TWO63
  {
    var k: int := out;
    if k >= 0 {
      MulMono(k, TWO31 - 1, t, TWO32);
    } else {
      MulMono(-k, TWO31, t, TWO32 - 1);
      assert (-k) * t == -(k * t);
    }
  }

  predicate Normalised(n: int) {
    TWO30 <= n < TWO31
  }

  function Error(n: int, out: int): int {
    TWO61 - n * out
  }

  /** Each Newton step squares the relative error up to a truncation term, for every normalised
      input and every non-negative candidate; it neither wraps nor saturates, and the new
      candidate never exceeds the true reciprocal. */
  lemma StepSquaresError(n: int, out: q31)
    requires Normalised(n) && out >= 0
    ensures NewtonStep(n, out) >= 0
    ensures Error(n, NewtonStep(n, out)) > 0
    ensures NewtonStep(n, out) == out * (TWO31 - 1 - n * out / TWO31) / TWO30
    ensures var e := Error(n, out);
            e * e <= TWO61 * Error(n, NewtonStep(n, out)) <= e * e + TWO31 * (n * out) + TWO61 * n
  {
    var o: int := out;
    var p := n * o;
    MulMono(n, TWO31 - 1, o, TWO31 - 1);
    var tv := TWO31 - 1 - p / TWO31;
    CorrectionIsExact(p);
    var raw := o * tv / TWO30;
    StaysInRange(n, o, p, tv, raw);
  }

  lemma StaysInRange(n: int, o: int, p: int, tv: int, raw: int)
    requires Normalised(n) && 0 <= o < TWO31 && p == n * o
    requires tv == TWO31 - 1 - p / TWO31 && tv >= 0 && raw == o * tv / TWO30
    ensures 0 <= raw < TWO31 && n * raw < TWO61
    ensures var e := TWO61 - p;
            e * e <= TWO61 * (TWO61 - n * raw) <= e * e + TWO31 * p + TWO61 * n
  {
    MulMono(0, o, 0, tv);
    MulMono(0, n, 0, o);
    if p == 0 { MulMono(1, n, o, o); }
    Truncated(n, o, p, tv, raw);
    if raw >= TWO31 { MulMono(TWO30, n, TWO31, raw); }
  }

  lemma Truncated(n: int, o: int, p: int, tv: int, raw: int)
    requires n >= 0 && p >= 0 && p == n * o && (p == 0 ==> raw == 0)
    requires tv == TWO31 - 1 - p / TWO31 && raw == o * tv / TWO30
    ensures n * raw < TWO61
    ensures var e := TWO61 - p;
            e * e <= TWO61 * (TWO61 - n * raw) <= e * e + TWO31 * p + TWO61 * n
  {
    InnerFloor(p, tv);
    OuterFloor(n, o, p, tv, raw);
    var e := TWO61 - p;
    SquareOfDifference(TWO61, p);
    Combine(n * raw, p * tv, p * p, p, n, e * e);
  }

  /** The floor inside the correction factor costs less than 2^31 * p. */
  lemma InnerFloor(p: int, tv: int)
    requires p >= 0 && tv == TWO31 - 1 - p / TWO31
    ensures 2 * TWO61 * p - TWO31 * p - p * p <= TWO31 * (p * tv)
    ensures p > 0 ==> TWO31 * (p * tv) < 2 * TWO61 * p - p * p
    ensures p == 0 ==> p * tv == 0
  {
    var q := TWO31 * tv;
    assert 2 * TWO61 - TWO31 - p <= q < 2 * TWO61 - p;
    ScaleBounds(p, 2 * TWO61 - TWO31 - p, q, 2 * TWO61 - p);
    if p > 0 { StrictScale(p, q, 2 * TWO61 - p); }
    Rotate(p, TWO31, tv);
    Distribute(p, 2 * TWO61 - TWO31, -p);
    Distribute(p, 2 * TWO61, -p);
  }

  /** The floor of the result costs at most n. */
  lemma OuterFloor(n: int, o: int, p: int, tv: int, raw: int)
    requires n >= 0 && p == n * o && raw == o * tv / TWO30
    ensures 0 <= p * tv - TWO30 * (n * raw) <= TWO30 * n
  {
    var d := o * tv - TWO30 * raw;
    assert 0 <= d < TWO30;
    ScaleBounds(n, 0, d, TWO30);
    MulAssoc(n, o, tv);
    Distribute(n, TWO30 * raw, d);
    Rotate(n, TWO30, raw);
  }

  /** The linear remainder of the argument, once every product has a name. */
  lemma Combine(x: int, z: int, pp: int, p: int, n: int, ee: int)
    requires 0 <= z - TWO30 * x <= TWO30 * n
    requires 2 * TWO61 * p - TWO31 * p - pp <= TWO31 * z
    requires p > 0 ==> TWO31 * z < 2 * TWO61 * p - pp
    requires p >= 0 && (p == 0 ==> x == 0 && z == 0 && pp == 0)
    requires ee == TWO61 * TWO61 - 2 * TWO61 * p + pp
    requires ee >= 0
    ensures x < TWO61
    ensures ee <= TWO61 * (TWO61 - x) <= ee + TWO31 * p + TWO61 * n
  {}

  /** 2^55, that is 2^-6 of 2^61. */
  const SEED_ERROR: int := 0x80_0000_0000_0000
  /** 2^49 + 2^33 */
  const MIDDLE_ERROR: int := 0x2_0002_0000_0000
  /** 2^37 + 2^33 */
  const FINAL_ERROR: int := 0x22_0000_0000

  /** The relative error of a seed is at most 2^-6. */
  predicate CloseSeed(n: int, seed: q31) {
    seed >= 0 && -SEED_ERROR <= Error(n, seed) <= SEED_ERROR
  }

  /** Two steps from a 2^-6 seed leave an error of at most (2^37 + 2^33) / 2^61, always on the low side. */
  lemma TwoStepsConverge(n: int, seed: q31)
    requires Normalised(n) && CloseSeed(n, seed)
    ensures 0 < Error(n, NewtonStep(n, NewtonStep(n, seed))) <= FINAL_ERROR
  {
    var out1 := NewtonStep(n, seed);
    StepSquaresError(n, seed);
    SquareBound(Error(n, seed), SEED_ERROR);
    FirstBound(Error(n, seed) * Error(n, seed), n * seed, n, Error(n, out1));
    StepSquaresError(n, out1);
    SquareBound(Error(n, out1), MIDDLE_ERROR);
    SecondBound(Error(n, out1) * Error(n, out1), n * out1, n, Error(n, NewtonStep(n, out1)));
  }

  lemma FirstBound(ee: int, p: int, n: int, e1: int)
    requires ee <= SEED_ERROR * SEED_ERROR && p <= TWO61 + SEED_ERROR && n < TWO31
    requires TWO61 * e1 <= ee + TWO31 * p + TWO61 * n
    ensures e1 <= MIDDLE_ERROR
  {}

  lemma SecondBound(ee: int, p: int, n: int, e2: int)
    requires ee <= MIDDLE_ERROR * MIDDLE_ERROR && p <= TWO61 && n < TWO31
    requires TWO61 * e2 <= ee + TWO31 * p + TWO61 * n
    ensures e2 <= FINAL_ERROR
  {}

  /** Entry i serves the normalised inputs whose upper byte is 64 + i. */
  ghost predicate GoodTable(table: seq<q31>) {
    && |table| == 64
    && forall n :: Normalised(n) ==> CloseSeed(n, table[n / TWO24 - 64])
  }

  /** The reciprocal of the middle of cell i. */
  function MidpointSeed(i: nat): (seed: q31)
    requires i < 64
  {
    var m := TWO30 + i * TWO24 + TWO24 / 2;
    MidpointSeedIsClose(m, m);
    TWO61 / m
  }

  /** The hypothesis is met: rounding the reciprocal of each cell's midpoint gives such a table. */
  lemma MidpointTableIsGood()
    ensures GoodTable(seq(64, i requires 0 <= i < 64 => MidpointSeed(i)))
  {
    forall n | Normalised(n)
      ensures 0 <= n / TWO24 - 64 < 64 && CloseSeed(n, MidpointSeed(n / TWO24 - 64))
    {
      var i := n / TWO24 - 64;
      MidpointSeedIsClose(n, TWO30 + i * TWO24 + TWO24 / 2);
    }
  }

  lemma MidpointSeedIsClose(n: int, m: int)
    requires Normalised(n) && TWO30 < m < TWO31
    requires -TWO24 / 2 <= n - m <= TWO24 / 2
    ensures 0 <= TWO61 / m < TWO31 && CloseSeed(n, TWO61 / m)
  {
    var s := TWO61 / m;
    var d := n - m;
    assert m * s <= TWO61 < m * s + m by { FloorBounds(TWO61, m); }
    SeedBelowOne(m);
    assert n * s == m * s + d * s by { DistributeLeft(m, d, s); }
    MulBounded(d, s, TWO24 / 2, TWO31);
  }

  lemma SeedBelowOne(m: int)
    requires TWO30 < m < TWO31
    ensures 0 <= TWO61 / m < TWO31
  {
    FloorBounds(TWO61, m);
    if TWO61 / m >= TWO31 { MulMono(TWO30 + 1, m, TWO31, TWO61 / m); }
  }

  /** A negative input makes the correction too large, so one step already clips. */
  lemma NegativeStepSaturates(n: q31, out: q31)
    requires n < 0 && out >= TWO30
    ensures NewtonStep(n, out) == TWO31 - 1
  {
    var ni: int := n;
    var m, o := -ni, out as int;
    MulMono(m, TWO31, o, TWO31 - 1);
    MulMono(1, m, TWO30, o);
    assert n * out == -(m * o);
    MulBounded(n, out, TWO31, TWO31);
    CorrectionIsExact(n * out);
    MulMono(TWO30, o, TWO31, Correction(n * out));
  }

  /** A normalised negative input clips even for the smallest entry a good table can have. */
  lemma NormalisedNegativeSaturates(n: q31, out: q31)
    requires n <= -TWO30 && out > SMALLEST_SEED
    ensures NewtonStep(n, out) == TWO31 - 1
  {
    var ni: int := n;
    var m, o := -ni, out as int;
    MulMono(m, TWO31, o, TWO31 - 1);
    MulMono(TWO30, m, SMALLEST_SEED, o);
    assert n * out == -(m * o);
    MulBounded(n, out, TWO31, TWO31);
    CorrectionIsExact(n * out);
    MulMono(SMALLEST_SEED, o, TWO31 - 1 + SMALLEST_SEED / 2, Correction(n * out));
  }

  /** The value `arm_recip_q31` stores for the normalised input n. */
  function RecipValue(n: q31, table: seq<q31>): q31
    requires |table| == 64
  {
    NewtonStep(n, NewtonStep(n, table[(n / TWO24) % 64]))
  }

  lemma PositiveInputConverges(n: q31, table: seq<q31>)
    requires Normalised(n) && GoodTable(table)
    ensures 0 < Error(n, RecipValue(n, table)) <= FINAL_ERROR
  {
    assert (n / TWO24) % 64 == n / TWO24 - 64;
    TwoStepsConverge(n, table[n / TWO24 - 64]);
  }

  /** For a negative value, normalised or not, entries of at least 1/2 are enough to clip. */
  lemma NegativeInputSaturates(n: q31, table: seq<q31>)
    requires n < 0 && |table| == 64 && forall i :: 0 <= i < 64 ==> table[i] >= TWO30
    ensures RecipValue(n, table) == TWO31 - 1
  {
    var seed := table[(n / TWO24) % 64];
    NegativeStepSaturates(n, seed);
    NegativeStepSaturates(n, TWO31 - 1);
  }

  /** 63/64 of 1/2: every entry of a good table is above it. */
  const SMALLEST_SEED: int := TWO30 - TWO24

  lemma GoodEntry(table: seq<q31>, i: nat)
    requires GoodTable(table) && i < 64
    ensures table[i] > SMALLEST_SEED
  {
    var n, seed := TWO30 + i * TWO24, table[i];
    assert Normalised(n) && n / TWO24 - 64 == i;
    assert CloseSeed(n, table[n / TWO24 - 64]);
    if seed <= SMALLEST_SEED { MulMono(n, TWO31 - 1, seed, SMALLEST_SEED); }
  }

  lemma CandidateStaysNonNegative(n: q31, out: q31)
    requires out >= 0
    ensures NewtonStep(n, out) >= 0
  {
    MulBounded(n, out, TWO31, TWO31);
    MulMono(0, out, 0, Correction(n * out));
  }

  /** The header promises a reciprocal for either sign.  On one and the same hypothesis, a table within 2^-6, the
      stored value is that accurate exactly for the positive inputs; for a negative one it is the largest value,
      whatever the input. */
  lemma AccurateIffPositive(n: q31, table: seq<q31>)
    requires |table| == 64 && GoodTable(table) && (n == 0 || Normalised(n) || -TWO31 < n <= -TWO30)
    ensures 0 < Error(n, RecipValue(n, table)) <= FINAL_ERROR <==> n > 0
    ensures n < 0 ==> RecipValue(n, table) == TWO31 - 1
  {
    hide NewtonStep, GoodTable;
    if n > 0 {
      PositiveInputConverges(n, table);
    } else {
      var seed := table[(n / TWO24) % 64];
      GoodEntry(table, (n / TWO24) % 64);
      CandidateStaysNonNegative(n, seed);
      CandidateStaysNonNegative(n, NewtonStep(n, seed));
      var m: int, out := -n, RecipValue(n, table);
      MulMono(0, m, 0, out);
      assert n * out == -(m * out);
      if n < 0 {
        NormalisedNegativeSaturates(n, seed);
        NormalisedNegativeSaturates(n, TWO31 - 1);
      }
    }
  }

  /** The magnitude that `__CLZ` is applied to. */
  function Magnitude(x: q31): u32
    requires x != -TWO31
  {
    if x > 0 then x else -x
  }

  lemma NormalisingShift(x: u32, count: nat)
    requires 0 < x < TWO31
    requires count <= 31 && Pow2(31 - count) <= x < Pow2(32 - count)
    ensures 1 <= count && Normalised(x * Pow2(count - 1))
  {
    Pow2Values();
    if count > 0 {
      Pow2Add(31 - count, count - 1);
      Pow2Add(32 - count, count - 1);
      ShiftBounds(x, Pow2(31 - count), Pow2(32 - count), Pow2(count - 1));
    }
  }

  lemma NormalisedSigns(x: q31, k: int, n: q31)
    requires x != -TWO31 && k > 0 && n == x * k && (x != 0 ==> Normalised(Magnitude(x) * k))
    ensures n == 0 || Normalised(n) || -TWO31 < n <= -TWO30
    ensures n > 0 <==> x > 0
    ensures n < 0 <==> x < 0
  {
    if x < 0 {
      var y: int := x;
      assert Magnitude(x) * k == -(y * k);
    }
  }

  /** `arm_recip_q31`.  `-x` is undefined for the most negative input, which is excluded. */
  method RecipQ31(x: q31, pRecipTable: seq<q31>) returns (dst: q31, outBits: nat)
    requires x != -TWO31
    requires |pRecipTable| == 64
    ensures 1 <= outBits <= 32
    ensures x == 0 ==> outBits == 32
    ensures x != 0 ==> Normalised(Magnitude(x) * Pow2(outBits - 1))
    ensures -TWO31 < x * Pow2(outBits - 1) < TWO31
    ensures dst == RecipValue(x * Pow2(outBits - 1), pRecipTable)
    ensures GoodTable(pRecipTable) ==>
      && (0 < Error(x * Pow2(outBits - 1), dst) <= FINAL_ERROR <==> x > 0)
      && (x < 0 ==> dst == TWO31 - 1)
  {
    hide NewtonStep, GoodTable, Error, Pow2;
    var n: q31;
    n, outBits := Normalise(x);
    var index := (n / TWO24) % 64;
    dst := pRecipTable[index];
    var i := 0;
    while i < 2
      invariant 0 <= i <= 2
      invariant i == 0 ==> dst == pRecipTable[index]
      invariant i == 1 ==> dst == NewtonStep(n, pRecipTable[index])
      invariant i == 2 ==> dst == NewtonStep(n, NewtonStep(n, pRecipTable[index]))
    {
      dst := NewtonStep(n, dst);
      i := i + 1;
    }
    NormalisedSigns(x, Pow2(outBits - 1), n);
    if GoodTable(pRecipTable) {
      AccurateIffPositive(n, pRecipTable);
    }
  }

  /** The sign-bit count and the shift that opens `arm_recip_q31`; the second result is the value
      it returns, one more than the shift. */
  method Normalise(x: q31) returns (n: q31, outBits: nat)
    requires x != -TWO31
    ensures 1 <= outBits <= 32
    ensures x == 0 ==> outBits == 32
    ensures x != 0 ==> Normalised(Magnitude(x) * Pow2(outBits - 1))
    ensures n == x * Pow2(outBits - 1)
  {
    hide Pow2, Normalised;
    var count := CountLeadingZeros(Magnitude(x));
    if x != 0 { NormalisingShift(Magnitude(x), count); }
    SignedShift(x, Pow2(count - 1));
    n := ToQ31(x * Pow2(count - 1));
    outBits := count;
  }

  lemma SignedShift(x: q31, k: int)
    requires x != -TWO31 && k > 0
    requires x != 0 ==> Normalised(Magnitude(x) * k)
    ensures -TWO31 < x * k < TWO31
  {
    if x < 0 {
      var y: int := x;
      assert Magnitude(x) * k == -(y * k);
    }
  }
}
