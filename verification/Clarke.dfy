/** The Q31 Clarke transform and its inverse (`arm_clarke_q31`, `arm_inv_clarke_q31`). */
module Clarke {
  import opened FixedPoint

  /** 1/sqrt(3), 2/sqrt(3) in 2.30 and sqrt(3)/2 in 1.31, as the header writes them. */
  const INV_SQRT3: int := 0x24F34E8B
  const TWO_INV_SQRT3: int := 0x49E69D16
  const HALF_SQRT3: int := 0x6ED9EBA1

  /** Each is the root it stands for, rounded down: c is floor(2^k * sqrt(q)). */
  lemma ConstantsAreRoots()
    ensures 3 * INV_SQRT3 * INV_SQRT3 <= TWO30 * TWO30 < 3 * (INV_SQRT3 + 1) * (INV_SQRT3 + 1)
    ensures 3 * TWO_INV_SQRT3 * TWO_INV_SQRT3 <= TWO31 * TWO31 < 3 * (TWO_INV_SQRT3 + 1) * (TWO_INV_SQRT3 + 1)
    ensures 4 * HALF_SQRT3 * HALF_SQRT3 <= 3 * TWO31 * TWO31 < 4 * (HALF_SQRT3 + 1) * (HALF_SQRT3 + 1)
  {}

  function ClarkeProduct1(ia: q31): q31 {
    ToQ31(ia * INV_SQRT3 / TWO30)
  }

  function ClarkeProduct2(ib: q31): q31 {
    ToQ31(ib * TWO_INV_SQRT3 / TWO30)
  }

  /** `arm_clarke_q31`: (Ialpha, Ibeta) */
  function Forward(ia: q31, ib: q31): (q31, q31) {
    (ia, QAdd(ClarkeProduct1(ia), ClarkeProduct2(ib)))
  }

  /** `arm_inv_clarke_q31`: (Ia, Ib) */
  function Inverse(ialpha: q31, ibeta: q31): (q31, q31) {
    var product1 := ToQ31(ialpha * TWO30 / TWO31);
    var product2 := ToQ31(ibeta * HALF_SQRT3 / TWO31);
    (ialpha, QSub(product2, product1))
  }

  /** The largest |Ib| whose product with 2/sqrt(3) still fits 32 bits. */
  const IB_MAX: int := (TWO61 - 1) / TWO_INV_SQRT3
  const IB_MIN: int := -(TWO61 / TWO_INV_SQRT3)

  /** The comment promises that saturation removes the risk of overflow.  The second product is
      truncated before the saturating addition, so it is exact only in this range of Ib. */
  lemma SecondProductFitsIff(ib: q31)
    ensures ClarkeProduct2(ib) == ib * TWO_INV_SQRT3 / TWO30 <==> IB_MIN <= ib <= IB_MAX
  {}

  /** A positive full-scale input makes the transform negative. */
  lemma FullScaleWraps()
    ensures Forward(0, TWO31 - 1).1 == -0x6C32_C5D6
  {}

  /** The caller's condition: neither the truncation nor the saturation acts. */
  predicate InRange(ia: q31, ib: q31) {
    && IB_MIN <= ib <= IB_MAX
    && -TWO31 <= ia * INV_SQRT3 / TWO30 + ib * TWO_INV_SQRT3 / TWO30 < TWO31
  }

  /** There and back returns Ia exactly and Ib to within a few units in the last place. */
  lemma RoundTrip(ia: q31, ib: q31)
    requires InRange(ia, ib)
    ensures var ab := Forward(ia, ib);
            var back := Inverse(ab.0, ab.1);
            back.0 == ia && ib - 3 <= back.1 <= ib + 1
  {
    ForwardIsExactIff(ia, ib);
    var f1, f2 := ia * INV_SQRT3 / TWO30, ib * TWO_INV_SQRT3 / TWO30;
    InverseIsExact(ia, f1 + f2);
    ErrorBudget(ia, ib, f1, f2, ia / 2, (f1 + f2) * HALF_SQRT3 / TWO31);
  }

  /** The promise of the comment, exactly: Ibeta is the saturated sum of the two rounded products if and only if Ib is
      in the range where the second product fits, whatever Ia. */
  lemma ForwardSaturatesIff(ia: q31, ib: q31)
    ensures Forward(ia, ib).1 == Clamp31(ia * INV_SQRT3 / TWO30 + ib * TWO_INV_SQRT3 / TWO30)
            <==> IB_MIN <= ib <= IB_MAX
  {
    FirstProductFits(ia);
    SecondProductFitsIff(ib);
    SecondProductWraps(ib);
  }

  /** Ibeta is the sum of the two rounded products exactly in that range, for all inputs. */
  lemma ForwardIsExactIff(ia: q31, ib: q31)
    ensures Forward(ia, ib).0 == ia
    ensures Forward(ia, ib).1 == ia * INV_SQRT3 / TWO30 + ib * TWO_INV_SQRT3 / TWO30
            <==> InRange(ia, ib)
  {
    FirstProductFits(ia);
    SecondProductFitsIff(ib);
    SecondProductWraps(ib);
  }

  lemma FirstProductFits(ia: q31)
    ensures ClarkeProduct1(ia) == ia * INV_SQRT3 / TWO30
    ensures -1240000000 < ClarkeProduct1(ia) < 1240000000
  {}

  lemma SecondProductWraps(ib: q31)
    ensures ib > IB_MAX ==> ClarkeProduct2(ib) == ib * TWO_INV_SQRT3 / TWO30 - TWO32 < -1240000000
    ensures ib < IB_MIN ==> ClarkeProduct2(ib) == ib * TWO_INV_SQRT3 / TWO30 + TWO32 > 1240000000
  {}

  /** No product of the inverse is truncated; only its subtraction can saturate. */
  lemma InverseIsExact(ialpha: q31, ibeta: q31)
    ensures Inverse(ialpha, ibeta) == (ialpha, Clamp31(ibeta * HALF_SQRT3 / TWO31 - ialpha / 2))
  {
    Halving(ialpha);
    InverseProductFits(ibeta);
    RangeIsUnchanged(ialpha / 2);
    RangeIsUnchanged(ibeta * HALF_SQRT3 / TWO31);
  }

  lemma Halving(x: int)
    ensures x * TWO30 / TWO31 == x / 2
  {}

  lemma InverseProductFits(ibeta: q31)
    ensures -TWO31 <= ibeta * HALF_SQRT3 / TWO31 < TWO31
  {}

  /** Three floors and the rounding of the two constants, added up. */
  lemma ErrorBudget(ia: int, ib: int, f1: int, f2: int, p1: int, p2: int)
    requires f1 == ia * INV_SQRT3 / TWO30 && f2 == ib * TWO_INV_SQRT3 / TWO30
    requires -TWO31 <= f1 + f2 < TWO31
    requires p1 == ia / 2 && p2 == (f1 + f2) * HALF_SQRT3 / TWO31
    ensures ib - 3 <= p2 - p1 <= ib + 1
  {
    // (ia + 2 * ib) / sqrt(3) is the exact beta
    var s := (ia + 2 * ib) * INV_SQRT3;
    assert TWO30 * (f1 + f2) <= s < TWO30 * (f1 + f2 + 2);
    assert TWO31 * p2 <= (f1 + f2) * HALF_SQRT3 < TWO31 * (p2 + 1);
  }
}
