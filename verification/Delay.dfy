/** The microsecond delay: a busy wait on the SysTick down-counter, which wraps every reload + 1 counts. */
module Delay {
  import opened Arithmetic
  import opened FixedPoint

  /** SysTick as an oracle: `first` is its value at the first read, time is counted from there. */
  datatype SysTick = SysTick(reload: nat, first: nat)

  ghost predicate Proper(s: SysTick) {
    0 < s.reload < TWO24 && s.first <= s.reload
  }

  function Period(s: SysTick): nat {
    s.reload + 1
  }

  /** How often the counter has reloaded by time t. */
  function Wraps(s: SysTick, t: nat): nat
    requires Proper(s)
  {
    (t + s.reload - s.first) / Period(s)
  }

  function Val(s: SysTick, t: nat): (v: nat)
    requires Proper(s)
    ensures v <= s.reload
  {
    s.reload - (t + s.reload - s.first) % Period(s)
  }

  /** The loop counts one short at every reload. */
  function Counted(s: SysTick, t: nat): int
    requires Proper(s)
  {
    t - Wraps(s, t)
  }

  lemma ValIsDownCounter(s: SysTick, t: nat)
    requires Proper(s)
    ensures Val(s, 0) == s.first && Wraps(s, 0) == 0 && Counted(s, 0) == 0
    ensures Val(s, t + 1) == if Val(s, t) == 0 then s.reload else Val(s, t) - 1
    ensures Wraps(s, t + 1) == Wraps(s, t) + (if Val(s, t) == 0 then 1 else 0)
  {
    UniqueDivision(s.reload - s.first, Period(s), 0, s.reload - s.first);
    DivStep(t + s.reload - s.first, Period(s), 1);
  }

  lemma DivStep(p: nat, m: nat, g: nat)
    requires 0 < m && g < m
    ensures (p + g) / m == p / m + (if p % m + g >= m then 1 else 0)
    ensures (p + g) % m == p % m + g - (if p % m + g >= m then m else 0)
  {
    var q, r := p / m, p % m;
    assert p == m * q + r;
    if r + g >= m {
      UniqueDivision(p + g, m, q + 1, r + g - m);
    } else {
      UniqueDivision(p + g, m, q, r + g);
    }
  }

  /** Two readings less than a period apart: what the three branches of the loop add. */
  lemma ReadingsApart(s: SysTick, told: nat, tnow: nat)
    requires Proper(s) && told <= tnow < told + Period(s)
    ensures Val(s, tnow) == Val(s, told) <==> tnow == told
    ensures Val(s, tnow) < Val(s, told) ==> Counted(s, tnow) == Counted(s, told) + (Val(s, told) - Val(s, tnow))
    ensures Val(s, tnow) > Val(s, told)
            ==> Counted(s, tnow) == Counted(s, told) + (s.reload - Val(s, tnow) + Val(s, told))
  {
    DivStep(told + s.reload - s.first, Period(s), tnow - told);
  }

  // ---------------------------------------------------------------- the request

  type TickRate = r: int | 0 < r <= 500_000 witness 1000

  function Ticks(us: u32, reload: nat, rate: TickRate): nat {
    ToU32(us * reload) / (1_000_000 / rate)
  }

  /** The 32-bit product gives the intended count exactly when it does not overflow. */
  lemma TicksExactIff(us: u32, reload: nat, rate: TickRate)
    ensures Ticks(us, reload, rate) == us * reload / (1_000_000 / rate) <==> us * reload < TWO32
  {
    var x, d := us * reload, 1_000_000 / rate;
    DivisorRange(rate);
    if x >= TWO32 {
      WrapLosesQuotient(x, d);
    } else {
      Fits(x);
    }
  }

  /** Its value in any case: the 32-bit product divided by the counts one microsecond is worth, rounded down. */
  lemma TicksValue(us: u32, reload: nat, rate: TickRate)
    ensures var d := 1_000_000 / rate;
            d * Ticks(us, reload, rate) <= us * reload % 0x1_0000_0000 < d * Ticks(us, reload, rate) + d
  {
    DivisorRange(rate);
    FloorBounds(ToU32(us * reload), 1_000_000 / rate);
  }

  lemma WrapLosesQuotient(x: int, d: int)
    requires x >= TWO32 && 0 < d <= 1_000_000
    ensures ToU32(x) / d < x / d
  {
    var y := x % TWO32;
    assert y + d <= x by { FloorBounds(x, TWO32); }
    assert (y + d) / d == y / d + 1 by {
      Distribute(d, y / d, 1);
      UniqueDivision(y + d, d, y / d + 1, y % d);
    }
    DivMonotone(y + d, x, d);
  }

  lemma DivisorRange(rate: TickRate)
    ensures 2 <= 1_000_000 / rate <= 1_000_000
  {
    FloorBounds(1_000_000, rate);
    if 1_000_000 / rate <= 1 { ScaleBounds(rate, 1_000_000 / rate, 1, 1); }
    if 1_000_000 / rate > 1_000_000 { MulMono(1, rate, 1_000_001, 1_000_000 / rate); }
  }

  lemma TicksFit(us: u32, reload: nat, rate: TickRate)
    ensures Ticks(us, reload, rate) <= TWO31
  {
    var x, d := ToU32(us * reload), 1_000_000 / rate;
    DivisorRange(rate);
    FloorBounds(x, d);
    if x / d > TWO31 { MulMono(2, d, TWO31, x / d); }
  }

  // ---------------------------------------------------------------- the wait

  /** Each reading is less than a period after the one before it, the first one after the read of `told`. */
  ghost predicate Sampled(s: SysTick, times: seq<nat>) {
    forall i :: 0 <= i < |times| ==> Before(times, i) <= times[i] < Before(times, i) + Period(s)
  }

  function Before(times: seq<nat>, i: int): nat
    requires 0 <= i <= |times|
  {
    if i == 0 then 0 else times[i - 1]
  }

  /** The loop leaves at the first reading that has moved and counts far enough. */
  ghost predicate Due(s: SysTick, ticks: nat, t: nat)
    requires Proper(s)
  {
    t > 0 && Counted(s, t) >= ticks
  }

  /** Runs over the given readings; `done` is false when they end before the loop does. */
  method Udelay(us: u32, rate: TickRate, s: SysTick, times: seq<nat>) returns (done: bool, k: nat)
    requires Proper(s) && Sampled(s, times)
    ensures done ==> k < |times| && Due(s, Ticks(us, s.reload, rate), times[k])
    ensures done ==> times[k] >= Ticks(us, s.reload, rate) + Wraps(s, times[k])
    ensures !done ==> k == |times|
    ensures forall i :: 0 <= i < k ==> !Due(s, Ticks(us, s.reload, rate), times[i])
  {
    hide Val, Counted, ToU32, Period, Sampled;
    var ticks := Ticks(us, s.reload, rate);
    TicksFit(us, s.reload, rate);
    var tcnt: nat := 0;
    var told := s.first;
    ghost var at: nat := 0;
    ValIsDownCounter(s, 0);
    done, k := false, 0;
    while k < |times|
      invariant k <= |times| && at == Before(times, k)
      invariant told == Val(s, at) && tcnt == Counted(s, at)
      invariant at > 0 ==> tcnt < ticks
      invariant at == 0 ==> tcnt == 0
      invariant forall i :: 0 <= i < k ==> !Due(s, ticks, times[i])
    {
      var tnow := Val(s, times[k]);
      SampleGap(s, times, k);
      ReadingsApart(s, at, times[k]);
      if tnow != told {
        if tnow < told {
          Fits(tcnt + (told - tnow));
          tcnt := ToU32(tcnt + (told - tnow));
        } else {
          Fits(tcnt + (s.reload - tnow + told));
          tcnt := ToU32(tcnt + (s.reload - tnow + told));
        }
        told := tnow;
        if tcnt >= ticks {
          done := true;
          NeverEarly(s, ticks, times[k]);
          return;
        }
      }
      at := times[k];
      k := k + 1;
    }
  }

  lemma SampleGap(s: SysTick, times: seq<nat>, k: nat)
    requires Sampled(s, times) && k < |times|
    ensures Before(times, k) <= times[k] < Before(times, k) + Period(s)
  {}

  lemma Fits(x: nat)
    requires x < TWO32
    ensures ToU32(x) == x
  {}

  /** The wait is never short: it lasts the requested counts and one more for every reload it saw. */
  lemma NeverEarly(s: SysTick, ticks: nat, t: nat)
    requires Proper(s) && Due(s, ticks, t)
    ensures t >= ticks + Wraps(s, t)
  {}

  /** Nor is it long: past the reading before the last one, less than the sampling gap and the reloads remain. */
  lemma Overshoot(s: SysTick, ticks: nat, last: nat, t: nat)
    requires Proper(s) && last <= t && !Due(s, ticks, last) && Due(s, ticks, t) && ticks > 0
    ensures t < ticks + (t - last) + Wraps(s, t)
  {
    DivMonotone(last + s.reload - s.first, t + s.reload - s.first, Period(s));
  }

  lemma DivMonotone(x: int, y: int, m: int)
    requires m > 0 && x <= y
    ensures x / m <= y / m
  {
    FloorBounds(x, m);
    FloorBounds(y, m);
    if x / m > y / m { ScaleBounds(m, y / m + 1, x / m, x / m); }
  }

  /** For a whole number n of system ticks the wait spans n periods of the counter, less at most a single count. */
  lemma WholeTicks(s: SysTick, n: nat, t: nat)
    requires Proper(s) && Due(s, n * s.reload, t)
    ensures t >= n * Period(s) - 1
  {
    var w, p := Wraps(s, t), Period(s);
    FloorBounds(t + s.reload - s.first, p);
    assert t < p * w + p;
    assert n * p == n * s.reload + n by { Distribute(n, s.reload, 1); }
    if w < n - 1 {
      var m := n - w - 1;
      assert p * n == p * w + p * m + p by { Distribute(p, w, m); Distribute(p, w + m, 1); }
      assert p * n == n * p;
      MulMono(2, p, m, m);
      assert false;
    }
  }
}
