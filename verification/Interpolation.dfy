/** Linear table interpolation for 12.20 arguments (`arm_linear_interp_q15` and `_q7`). */
module Interpolation {
  import opened Arithmetic
  import opened FixedPoint

  const FRACT_MAX: int := 0xFFFFF

  /** A table the 12-bit index can address. */
  predicate Addressable<T>(table: seq<T>) {
    1 <= |table| <= 4096
  }

  /** The weighted mean inside one segment, `fract` being the 20 low bits of the argument.  The weights add up to 2^20 - 1, not 2^20. */
  function Blend(y0: int, y1: int, fract: int): int {
    (y0 * (FRACT_MAX - fract) + y1 * fract) / TWO20
  }

  /** `arm_linear_interp_q15` */
  function InterpQ15(table: seq<q15>, x: q31): q15
    requires Addressable(table)
  {
    var index := x / TWO20;
    if index >= |table| - 1 then table[|table| - 1]
    else if index < 0 then table[0]
    else
      ToQ15(Blend(table[index], table[index + 1], x % TWO20))
  }

  /** `arm_linear_interp_q7`, which tests the sign first and masks the index. */
  function InterpQ7(table: seq<q7>, x: q31): q7
    requires Addressable(table)
  {
    if x < 0 then table[0]
    else
      var index := (x / TWO20) % 4096;
      if index >= |table| - 1 then table[|table| - 1]
      else
        ToQ7(Blend(table[index], table[index + 1], x % TWO20))
  }

  /** What a segment yields at the knot whose table value is y. */
  function Knot(y: int): int {
    y * FRACT_MAX / TWO20
  }

  lemma KnotIsOneBelowPositive(y: q15)
    ensures Knot(y) == if y > 0 then y - 1 else y
  {}

  lemma BlendBetweenKnots(y0: q15, y1: q15, fract: int)
    requires 0 <= fract <= FRACT_MAX
    ensures y0 <= y1 ==> Knot(y0) <= Blend(y0, y1, fract) <= Knot(y1)
    ensures y1 <= y0 ==> Knot(y1) <= Blend(y0, y1, fract) <= Knot(y0)
  {
    var sum := y0 * (FRACT_MAX - fract) + y1 * fract;
    Weighted(y0, y1, fract);
  }

  lemma Weighted(y0: int, y1: int, fract: int)
    requires 0 <= fract <= FRACT_MAX
    ensures var sum := y0 * (FRACT_MAX - fract) + y1 * fract;
            && sum == y0 * FRACT_MAX + (y1 - y0) * fract
            && (y0 <= y1 ==> y0 * FRACT_MAX <= sum <= y1 * FRACT_MAX)
            && (y1 <= y0 ==> y1 * FRACT_MAX <= sum <= y0 * FRACT_MAX)
  {
    Distribute(y0, FRACT_MAX, -fract);
    DistributeLeft(y1, -y0, fract);
    assert (-y0) * fract == -(y0 * fract);
    assert y0 * (-fract) == -(y0 * fract);
    if y0 <= y1 {
      MulMono(y1 - y0, y1 - y0, fract, FRACT_MAX);
    } else {
      MulMono(y0 - y1, y0 - y1, fract, FRACT_MAX);
      assert (y0 - y1) * fract == -((y1 - y0) * fract);
    }
  }

  lemma BlendRange(y0: q15, y1: q15, fract: int)
    requires 0 <= fract <= FRACT_MAX
    ensures Min(y0, y1) - 1 <= Blend(y0, y1, fract) <= Max(y0, y1)
    ensures Min(y0, y1) < 0 ==> Min(y0, y1) <= Blend(y0, y1, fract)
  {
    BlendBetweenKnots(y0, y1, fract);
    KnotIsOneBelowPositive(y0);
    KnotIsOneBelowPositive(y1);
  }

  /** Between two knots the result is the blend: no conversion drops a bit, and it lies in
      [min - 1, max] of the two table values it reads. */
  lemma InnerValue(table: seq<q15>, x: q31)
    requires Addressable(table) && 0 <= x && x / TWO20 < |table| - 1
    ensures var i := x / TWO20;
            && InterpQ15(table, x) == Blend(table[i], table[i + 1], x % TWO20)
            && Min(table[i], table[i + 1]) - 1 <= InterpQ15(table, x) <= Max(table[i], table[i + 1])
  {
    var i := x / TWO20;
    var y := Blend(table[i], table[i + 1], x % TWO20);
    BlendRange(table[i], table[i + 1], x % TWO20);
    assert ToQ15(y) == y by { RangeIsUnchanged(y); }
  }

  /** The result follows the straight line between the two table values: in units of 2^-20 it is at most one entry
      below it, and less than one further unit for the rounding. The table entry is lost because the weights add up to
      2^20 - 1. */
  lemma FollowsChord(table: seq<q15>, x: q31)
    requires Addressable(table) && 0 <= x && x / TWO20 < |table| - 1
    ensures var i, f := x / TWO20, x % TWO20;
            var chord := table[i] * (TWO20 - f) + table[i + 1] * f;
            chord - table[i] - TWO20 < TWO20 * InterpQ15(table, x) <= chord - table[i]
  {
    InnerValue(table, x);
    var i, f := x / TWO20, x % TWO20;
    var sum := table[i] * (FRACT_MAX - f) + table[i + 1] * f;
    FloorBounds(sum, TWO20);
    assert table[i] * (TWO20 - f) == table[i] * (FRACT_MAX - f) + table[i] by {
      Distribute(table[i], FRACT_MAX - f, 1);
    }
  }

  /** Outside the table it is held at the first and the last entry. */
  lemma HeldAtTheEnds(table: seq<q15>, x: q31)
    requires Addressable(table)
    ensures x < 0 ==> InterpQ15(table, x) == table[0]
    ensures x / TWO20 >= |table| - 1 ==> InterpQ15(table, x) == table[|table| - 1]
  {}

  /** The last value of one segment is the first value of the next. */
  lemma SegmentsJoin(table: seq<q15>, i: nat)
    requires Addressable(table) && i + 2 < |table| && i < 2047
    ensures InterpQ15(table, i * TWO20 + FRACT_MAX) == InterpQ15(table, (i + 1) * TWO20)
  {
    SplitArgument(i, FRACT_MAX);
    SplitArgument(i + 1, 0);
    InnerValue(table, i * TWO20 + FRACT_MAX);
    InnerValue(table, (i + 1) * TWO20);
    BlendEnds(table[i], table[i + 1]);
    BlendEnds(table[i + 1], table[i + 2]);
  }

  lemma SplitArgument(i: nat, fract: int)
    requires 0 <= fract <= FRACT_MAX
    ensures (i * TWO20 + fract) / TWO20 == i && (i * TWO20 + fract) % TWO20 == fract
  {}

  lemma BlendEnds(y0: int, y1: int)
    ensures Blend(y0, y1, 0) == Knot(y0) && Blend(y0, y1, FRACT_MAX) == Knot(y1)
  {}

  predicate Nondecreasing(table: seq<int>) {
    forall i, j :: 0 <= i <= j < |table| ==> table[i] <= table[j]
  }

  /** A nondecreasing table gives a nondecreasing function of x >= 0, across knots and into the
      clamped tail. */
  lemma MonotoneForNonNegative(table: seq<q15>, x: q31, x': q31)
    requires Addressable(table) && Nondecreasing(table) && 0 <= x <= x'
    ensures InterpQ15(table, x) <= InterpQ15(table, x')
  {
    var n, i, i' := |table|, x / TWO20, x' / TWO20;
    if i < n - 1 {
      InnerValue(table, x);
      BlendBetweenKnots(table[i], table[i + 1], x % TWO20);
      KnotIsOneBelowPositive(table[i + 1]);
      if i' < n - 1 {
        InnerValue(table, x');
        BlendBetweenKnots(table[i'], table[i' + 1], x' % TWO20);
        if i == i' {
          BlendGrows(table[i], table[i + 1], x % TWO20, x' % TWO20);
        } else {
          KnotIsOneBelowPositive(table[i']);
        }
      }
    }
  }

  lemma BlendGrows(y0: int, y1: int, f: int, f': int)
    requires y0 <= y1 && 0 <= f <= f' <= FRACT_MAX
    ensures Blend(y0, y1, f) <= Blend(y0, y1, f')
  {
    Weighted(y0, y1, f);
    Weighted(y0, y1, f');
    MulMono(y1 - y0, y1 - y0, f, f');
  }

  /** For a negative argument the code returns the first entry itself, which is one more than its
      value at zero when that entry is positive.  So on all arguments the function is monotone
      exactly when the first entry is not positive or the table has a single entry. */
  lemma MonotoneEverywhereIff(table: seq<q15>)
    requires Addressable(table) && Nondecreasing(table)
    ensures (forall x: q31, x': q31 :: x <= x' ==> InterpQ15(table, x) <= InterpQ15(table, x'))
            <==> (|table| == 1 || table[0] <= 0)
  {
    if |table| == 1 || table[0] <= 0 {
      forall x: q31, x': q31 | x <= x'
        ensures InterpQ15(table, x) <= InterpQ15(table, x')
      {
        if x < 0 {
          ValueAtZero(table);
          if x' >= 0 { MonotoneForNonNegative(table, 0, x'); }
        } else {
          MonotoneForNonNegative(table, x, x');
        }
      }
    } else {
      ValueAtZero(table);
      assert InterpQ15(table, -1) > InterpQ15(table, 0);
    }
  }

  lemma ValueAtZero(table: seq<q15>)
    requires Addressable(table)
    ensures InterpQ15(table, 0) == if |table| > 1 && table[0] > 0 then table[0] - 1 else table[0]
  {
    if |table| > 1 {
      InnerValue(table, 0);
      KnotIsOneBelowPositive(table[0]);
    }
  }

  /** The q7 form computes the q15 form on the same table, so every property above carries over. */
  lemma Q7IsQ15(table: seq<q7>, wide: seq<q15>, x: q31)
    requires Addressable(table) && |wide| == |table|
    requires forall i :: 0 <= i < |table| ==> wide[i] == table[i]
    ensures InterpQ7(table, x) == InterpQ15(wide, x)
  {
    var i := x / TWO20;
    if 0 <= x {
      assert i % 4096 == i;
      if i < |table| - 1 {
        InnerValue(wide, x);
        NarrowBlend(table[i], table[i + 1], x % TWO20);
      }
    }
  }

  lemma NarrowBlend(y0: q7, y1: q7, fract: int)
    requires 0 <= fract <= FRACT_MAX
    ensures ToQ7(Blend(y0, y1, fract)) == Blend(y0, y1, fract)
  {
    BlendRange(y0, y1, fract);
    RangeIsUnchanged(Blend(y0, y1, fract));
  }
}
