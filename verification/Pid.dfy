/** The Q15 PID controller, scalar and packed (`arm_pid_q15`). */
module Pid {
  import opened Arithmetic
  import opened FixedPoint

  datatype Gains = Gains(a0: q15, a1: q15, a2: q15)

  /** state[0], state[1], state[2] of the instance structure. */
  datatype State = State(x1: q15, x2: q15, y1: q15)

  /** The weighted sum of the current and the two previous inputs, in 2.30 format. */
  function WeightedInputs(g: Gains, s: State, x: q15): int {
    g.a0 * x + g.a1 * s.x1 + g.a2 * s.x2
  }

  /** One step of the difference equation the controller is specified by. */
  function Next(g: Gains, s: State, x: q15): State {
    State(x, s.x1, Clamp15(s.y1 + WeightedInputs(g, s, x) / TWO15))
  }

  lemma ProductQ15(a: q15, b: q15)
    ensures -TWO30 < a * b <= TWO30
  {
    MulBounded(a, b, TWO15, TWO15);
    if b >= 0 {
      MulBounded(a, b, TWO15, TWO15 - 1);
    } else if a >= 0 {
      MulBounded(a, b, TWO15 - 1, TWO15);
    } else {
      var x: int, y: int := a, b;
      MulMono(0, -x, 0, -y);
      assert x * y == (-x) * (-y);
    }
  }

  class PidQ15 {
    const gains: Gains
    var state: State

    constructor (gains: Gains, state: State)
      ensures this.gains == gains && this.state == state
    {
      this.gains, this.state := gains, state;
    }

    /** The scalar form.  Each assignment is typed by the C type that holds the value, so no
        intermediate overflows. */
    method Process(x: q15) returns (out: q15)
      modifies this
      ensures state == Next(gains, old(state), x)
      ensures out == state.y1
    {
      ProductQ15(gains.a0, x);
      ProductQ15(gains.a1, state.x1);
      ProductQ15(gains.a2, state.x2);
      var acc: q63 := (gains.a0 * x) as q31;
      acc := acc + (gains.a1 * state.x1) as q31;
      acc := acc + (gains.a2 * state.x2) as q31;
      acc := acc + (state.y1 * TWO15) as q31;
      var shifted: q31 := acc / TWO15;
      out := Ssat16(shifted);
      state := State(x, state.x1, out);
    }
  }

  // ---------------------------------------------------------------- runs

  function Run(g: Gains, s: State, xs: seq<q15>): State
    decreases |xs|
  {
    if xs == [] then s else Run(g, Next(g, s, xs[0]), xs[1..])
  }

  /** The outputs of a run, in order. */
  function Outputs(g: Gains, s: State, xs: seq<q15>): (ys: seq<q15>)
    ensures |ys| == |xs|
    decreases |xs|
  {
    if xs == [] then []
    else
      var s' := Next(g, s, xs[0]);
      [s'.y1] + Outputs(g, s', xs[1..])
  }

  /** y[k] = clamp(y[k-1] + floor((A0*x[k] + A1*x[k-1] + A2*x[k-2]) / 2^15)), for sequences that
      start with two earlier inputs and one earlier output. */
  predicate Equation(g: Gains, hx: seq<q15>, hy: seq<q15>, k: nat)
    requires k + 2 < |hx| && k + 1 < |hy|
  {
    hy[k + 1] == Clamp15(hy[k] + (g.a0 * hx[k + 2] + g.a1 * hx[k + 1] + g.a2 * hx[k]) / TWO15)
  }

  /** Over a whole run the outputs satisfy the difference equation, the inputs and outputs before
      the run being those the state holds, and the final state is exactly the last two inputs and
      the last output. */
  lemma {:induction false} RunIsDifferenceEquation(g: Gains, s: State, xs: seq<q15>)
    ensures var hx := [s.x2, s.x1] + xs;
            var hy := [s.y1] + Outputs(g, s, xs);
            && Run(g, s, xs) == State(hx[|xs| + 1], hx[|xs|], hy[|xs|])
            && forall k :: 0 <= k < |xs| ==> Equation(g, hx, hy, k)
    decreases |xs|
  {
    if xs != [] {
      var s' := Next(g, s, xs[0]);
      RunIsDifferenceEquation(g, s', xs[1..]);
      var hx, hx' := [s.x2, s.x1] + xs, [s'.x2, s'.x1] + xs[1..];
      var hy, hy' := [s.y1] + Outputs(g, s, xs), [s'.y1] + Outputs(g, s', xs[1..]);
      assert hx[1..] == hx';
      assert hy[1..] == hy';
      forall k | 0 <= k < |xs|
        ensures Equation(g, hx, hy, k)
      {
        if k > 0 { EquationShifts(g, hx, hy, k); } else { FirstEquation(g, s, xs[0], hx, hy); }
      }
    }
  }

  lemma EquationShifts(g: Gains, hx: seq<q15>, hy: seq<q15>, k: nat)
    requires 0 < k && k + 2 < |hx| && k + 1 < |hy|
    ensures Equation(g, hx, hy, k) == Equation(g, hx[1..], hy[1..], k - 1)
  {
    assert hx[1..][k - 1] == hx[k] && hx[1..][k] == hx[k + 1] && hx[1..][k + 1] == hx[k + 2];
    assert hy[1..][k - 1] == hy[k] && hy[1..][k] == hy[k + 1];
  }

  lemma FirstEquation(g: Gains, s: State, x: q15, hx: seq<q15>, hy: seq<q15>)
    requires |hx| > 2 && hx[0] == s.x2 && hx[1] == s.x1 && hx[2] == x
    requires |hy| > 1 && hy[0] == s.y1 && hy[1] == Next(g, s, x).y1
    ensures Equation(g, hx, hy, 0)
  {}

  // ---------------------------------------------------------------- packed form

  /** `((q31_t)x << 16) >> 16` and `((q31_t)x) >> 16` */
  function LowHalf(x: u32): q15 {
    ToQ15(x)
  }

  function HighHalf(x: u32): q15 {
    ToQ31(x) / TWO16
  }

  /** Two 16-bit values in one word, the first in the lower half. */
  function Pack(lo: q15, hi: q15): u32 {
    lo % TWO16 + TWO16 * (hi % TWO16)
  }

  lemma PackHalves(lo: q15, hi: q15)
    ensures LowHalf(Pack(lo, hi)) == lo && HighHalf(Pack(lo, hi)) == hi
  {
    var l, h := lo % TWO16, hi % TWO16;
    HalvesOf(Pack(lo, hi), l, h);
  }

  /** Both halves of a word, read with their signs. */
  lemma HalvesOf(x: u32, l: int, h: int)
    requires 0 <= l < TWO16 && 0 <= h < TWO16 && x == l + TWO16 * h
    ensures LowHalf(x) == (if l >= TWO15 then l - TWO16 else l)
    ensures HighHalf(x) == (if h >= TWO15 then h - TWO16 else h)
  {
    UniqueDivision(x, TWO16, h, l);
    UniqueDivision(x, TWO32, 0, x);
    UniqueDivision(x - TWO32, TWO16, h - TWO16, l);
  }

  /** A 16-bit value converted to an unsigned word carries its sign into the upper half. */
  lemma SignExtended(x: q15)
    ensures LowHalf(ToU32(x)) == x && HighHalf(ToU32(x)) == if x < 0 then -1 else 0
  {}

  /** `__SMUAD` */
  function Smuad(x: u32, y: u32): u32 {
    ToU32(LowHalf(x) * LowHalf(y) + HighHalf(x) * HighHalf(y))
  }

  /** `__SMLALD`, whose two products are added in 64 bits. */
  function Smlald(x: u32, y: u32, sum: int): int {
    LowHalf(x) * LowHalf(y) + HighHalf(x) * HighHalf(y) + sum
  }

  /** The C stand-in for `__SMLALD` adds the two products in 32 bits first.  It agrees with the
      instruction on every pair of words but one. */
  lemma SmlaldStandInIff(x: u32, y: u32, sum: int)
    ensures ToQ31(LowHalf(x) * LowHalf(y) + HighHalf(x) * HighHalf(y)) + sum == Smlald(x, y, sum)
            <==> !(x == Pack(-TWO15, -TWO15) && y == Pack(-TWO15, -TWO15))
  {
    TwoProductsFitIff(LowHalf(x), LowHalf(y), HighHalf(x), HighHalf(y));
    PackIffHalves(x, -TWO15, -TWO15);
    PackIffHalves(y, -TWO15, -TWO15);
  }

  lemma TwoProductsFitIff(a: q15, b: q15, c: q15, d: q15)
    ensures ToQ31(a * b + c * d) == a * b + c * d
            <==> !(a == -TWO15 && b == -TWO15 && c == -TWO15 && d == -TWO15)
  {
    ProductQ15(a, b);
    ProductQ15(c, d);
    LargestProduct(a, b);
    LargestProduct(c, d);
    RangeIsUnchanged(a * b + c * d);
  }

  lemma PackIffHalves(x: u32, lo: q15, hi: q15)
    ensures x == Pack(lo, hi) <==> LowHalf(x) == lo && HighHalf(x) == hi
  {
    PackHalves(lo, hi);
    Unpack(x);
  }

  lemma Unpack(x: u32)
    ensures Pack(LowHalf(x), HighHalf(x)) == x
  {
    HalvesOf(x, x % TWO16, x / TWO16);
  }

  lemma LargestProduct(a: q15, b: q15)
    ensures a * b == TWO30 <==> a == -TWO15 && b == -TWO15
  {
    if a > -TWO15 {
      MulBounded(a, b, TWO15 - 1, TWO15);
    } else if b > -TWO15 {
      MulBounded(a, b, TWO15, TWO15 - 1);
    }
  }

  /** The form compiled when the DSP instructions are available. */
  function PackedNext(g: Gains, s: State, x: q15): State {
    var acc := ToQ31(Smuad(ToU32(g.a0), ToU32(x)));
    var acc' := Smlald(Pack(g.a1, g.a2), Pack(s.x1, s.x2), acc);
    State(x, s.x1, Clamp15((acc' + s.y1 * TWO15) / TWO15))
  }

  /** The sign-extended upper halves add 1 exactly when gain and input are both negative. */
  function Carry(g: Gains, x: q15): int {
    if g.a0 < 0 && x < 0 then 1 else 0
  }

  lemma SmuadOfSignExtended(a: q15, b: q15)
    ensures ToQ31(Smuad(ToU32(a), ToU32(b))) == a * b + if a < 0 && b < 0 then 1 else 0
  {
    SignExtended(a);
    SignExtended(b);
    ProductQ15(a, b);
    ThereAndBack(LowHalf(ToU32(a)) * LowHalf(ToU32(b)) + HighHalf(ToU32(a)) * HighHalf(ToU32(b)));
  }

  lemma ThereAndBack(v: int)
    ensures -TWO31 <= v < TWO31 ==> ToQ31(ToU32(v)) == v
  {}

  /** The packed form differs from the scalar one by nothing or by one unit, and by one exactly when
      the extra 1 carries out of the discarded bits and the result is not already saturated. */
  lemma PackedVersusScalar(g: Gains, s: State, x: q15)
    ensures var scalar, packed := Next(g, s, x), PackedNext(g, s, x);
            var sum := WeightedInputs(g, s, x);
            var y := s.y1 + sum / TWO15;
            && packed.x1 == scalar.x1 && packed.x2 == scalar.x2
            && 0 <= packed.y1 - scalar.y1 <= 1
            && (packed.y1 == scalar.y1 + 1 <==>
                 g.a0 < 0 && x < 0 && sum % TWO15 == TWO15 - 1 && -TWO15 <= y < TWO15 - 1)
  {
    SmuadOfSignExtended(g.a0, x);
    PackHalves(g.a1, g.a2);
    PackHalves(s.x1, s.x2);
    var sum := WeightedInputs(g, s, x);
    assert PackedNext(g, s, x).y1 == Clamp15((sum + Carry(g, x) + s.y1 * TWO15) / TWO15);
    CarryOut(sum, Carry(g, x), s.y1);
  }

  lemma CarryOut(sum: int, carry: int, y: int)
    requires 0 <= carry <= 1
    ensures (sum + carry + y * TWO15) / TWO15
            == y + sum / TWO15 + if carry == 1 && sum % TWO15 == TWO15 - 1 then 1 else 0
  {}
}
