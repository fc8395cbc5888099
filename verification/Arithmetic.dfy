/** Small facts about products, each kept apart so that the larger proofs can name what they use. */
module Arithmetic {

  lemma MulMono(a: int, b: int, c: int, d: int)
    requires 0 <= a <= b && 0 <= c <= d
    ensures 0 <= a * c <= b * d
  {
    assert a * c <= b * c <= b * d;
  }

  lemma ScaleBounds(k: int, a: int, b: int, c: int)
    requires k >= 0 && a <= b <= c
    ensures k * a <= k * b <= k * c
  {}

  lemma StrictScale(k: int, a: int, b: int)
    requires k > 0 && a < b
    ensures k * a < k * b
  {}

  lemma Rotate(a: int, b: int, c: int)
    ensures a * (b * c) == b * (a * c)
  {}

  lemma SquareOfDifference(a: int, b: int)
    ensures (a - b) * (a - b) == a * a - 2 * a * b + b * b
    ensures (a - b) * (a - b) >= 0
  {}

  lemma MulAssoc(a: int, b: int, c: int)
    ensures a * (b * c) == (a * b) * c
  {}

  lemma Distribute(a: int, b: int, c: int)
    ensures a * (b + c) == a * b + a * c
  {}

  lemma DistributeLeft(a: int, b: int, c: int)
    ensures (a + b) * c == a * c + b * c
  {}

  lemma FloorBounds(a: int, m: int)
    requires m > 0
    ensures m * (a / m) <= a < m * (a / m) + m
  {}

  lemma ShiftBounds(x: int, a: int, b: int, k: int)
    requires 0 < a <= x < b && k > 0
    ensures a * k <= x * k < b * k
  {}

  lemma SquareBound(e: int, b: int)
    requires -b <= e <= b
    ensures e * e <= b * b
  {
    if e >= 0 { MulMono(e, b, e, b); } else { MulMono(-e, b, -e, b); }
  }

  /** Products of bounded factors are bounded, whatever the signs. */
  lemma MulBounded(x: int, y: int, b: int, c: int)
    requires -b <= x <= b && -c <= y <= c
    ensures -b * c <= x * y <= b * c
  {
    var u, v := if x < 0 then -x else x, if y < 0 then -y else y;
    MulMono(u, b, v, c);
    assert x * y == u * v || x * y == -(u * v);
  }

  /** Quotient and remainder are the only ones there are. */
  lemma UniqueDivision(x: int, m: int, q: int, r: int)
    requires m > 0 && 0 <= r < m && x == m * q + r
    ensures x / m == q && x % m == r
  {
    var d := x / m - q;
    assert m * d == r - x % m by { Distribute(m, q, d); }
    if d >= 1 { ScaleBounds(m, 1, d, d); }
    if d <= -1 { ScaleBounds(m, d, d, -1); }
  }

  function Pow2(k: nat): (p: nat)
    ensures p >= 1
  {
    if k == 0 then 1 else 2 * Pow2(k - 1)
  }

  lemma {:induction false} Pow2Add(a: nat, b: nat)
    ensures Pow2(a) * Pow2(b) == Pow2(a + b)
  {
    if a > 0 {
      Pow2Add(a - 1, b);
    }
  }
}
