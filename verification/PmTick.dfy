/** Converting low-power timer counts into operating-system ticks, with the remainder carried between calls. */
module PmTick {
  import opened Arithmetic
  import opened FixedPoint

  const FREQ := 1000
  const LPTIM_MAX := 0xFFFF
  const RT_TICK_MAX := 0xFFFF_FFFF

  type Rate = r: int | 0 < r < TWO32 witness 1000

  datatype Credit = Credit(osTicks: nat, remain: nat)

  function Raw(rate: Rate, remain: nat, tick: nat): nat {
    tick * rate + remain
  }

  /** The 32-bit sum both statements of the conversion divide. */
  function Total(rate: Rate, remain: nat, tick: nat): (w: nat)
    ensures w < TWO32
  {
    Raw(rate, remain, tick) % TWO32
  }

  function Convert(rate: Rate, remain: nat, tick: nat): Credit {
    Credit(Total(rate, remain, tick) / FREQ, Total(rate, remain, tick) % FREQ)
  }

  // ---------------------------------------------------------------- runs

  function Remainder(rate: Rate, start: nat, ticks: seq<nat>): nat
    decreases |ticks|
  {
    if ticks == [] then start
    else Convert(rate, Remainder(rate, start, ticks[..|ticks| - 1]), ticks[|ticks| - 1]).remain
  }

  function Credited(rate: Rate, start: nat, ticks: seq<nat>): nat
    decreases |ticks|
  {
    if ticks == [] then 0
    else Credited(rate, start, ticks[..|ticks| - 1])
         + Convert(rate, Remainder(rate, start, ticks[..|ticks| - 1]), ticks[|ticks| - 1]).osTicks
  }

  function Sum(ticks: seq<nat>): nat
    decreases |ticks|
  {
    if ticks == [] then 0 else Sum(ticks[..|ticks| - 1]) + ticks[|ticks| - 1]
  }

  /** How often the 32-bit arithmetic wrapped. */
  function Wraps(rate: Rate, start: nat, ticks: seq<nat>): nat
    decreases |ticks|
  {
    if ticks == [] then 0
    else Wraps(rate, start, ticks[..|ticks| - 1])
         + Raw(rate, Remainder(rate, start, ticks[..|ticks| - 1]), ticks[|ticks| - 1]) / TWO32
  }

  /** No time is lost over a run, except 2^32 thousandths of a tick for every wrap: so credited and carried time
      add up to the elapsed time exactly when no call overflows. */
  lemma {:induction false} Conservation(rate: Rate, start: nat, ticks: seq<nat>)
    ensures FREQ * Credited(rate, start, ticks) + Remainder(rate, start, ticks) + TWO32 * Wraps(rate, start, ticks)
            == rate * Sum(ticks) + start
    ensures FREQ * Credited(rate, start, ticks) + Remainder(rate, start, ticks) == rate * Sum(ticks) + start
            <==> Wraps(rate, start, ticks) == 0
    ensures start < FREQ ==> Remainder(rate, start, ticks) < FREQ
    decreases |ticks|
  {
    if ticks != [] {
      var before, tick := ticks[..|ticks| - 1], ticks[|ticks| - 1];
      Conservation(rate, start, before);
      var x := tick * rate + Remainder(rate, start, before);
      assert x == TWO32 * (x / TWO32) + x % TWO32;
      Distribute(rate, Sum(before), tick);
      Distribute(TWO32, Wraps(rate, start, before), x / TWO32);
    }
  }

  /** Over a run of counter readings nothing is lost, however long it is: the counter has 16 bits, and rates up to
      65536 per second are just slow enough. */
  lemma {:induction false} CounterRunsConserve(rate: Rate, start: nat, ticks: seq<nat>)
    requires rate <= 0x1_0000 && start < FREQ
    requires forall i :: 0 <= i < |ticks| ==> ticks[i] <= LPTIM_MAX
    ensures FREQ * Credited(rate, start, ticks) + Remainder(rate, start, ticks) == rate * Sum(ticks) + start
    ensures Wraps(rate, start, ticks) == 0
    decreases |ticks|
  {
    Conservation(rate, start, ticks);
    if ticks != [] {
      var before, tick := ticks[..|ticks| - 1], ticks[|ticks| - 1];
      CounterRunsConserve(rate, start, before);
      Conservation(rate, start, before);
      MulMono(tick, LPTIM_MAX, rate, 0x1_0000);
    }
  }

  /** That bound on the rate is exact. */
  lemma SafeRatesIff(rate: Rate)
    ensures rate <= 0x1_0000
            <==> forall tick: nat, remain: nat | tick <= LPTIM_MAX && remain < FREQ :: Raw(rate, remain, tick) < TWO32
  {
    if rate <= 0x1_0000 {
      forall tick: nat, remain: nat | tick <= LPTIM_MAX && remain < FREQ
        ensures Raw(rate, remain, tick) < TWO32
      {
        MulMono(tick, LPTIM_MAX, rate, 0x1_0000);
      }
    } else {
      MulMono(LPTIM_MAX, LPTIM_MAX, 0x1_0001, rate);
      assert Raw(rate, 1, LPTIM_MAX) >= TWO32;
    }
  }

  // ---------------------------------------------------------------- a sleep and its reading

  /** `n32_pm_tick_from_os_tick`, with its 32-bit product. */
  function PmTicks(rate: Rate, osTicks: nat): nat {
    osTicks * FREQ % TWO32 / rate
  }

  /** What `pm_timer_start` programs. */
  function Programmed(rate: Rate, timeout: nat): nat {
    if PmTicks(rate, timeout) > LPTIM_MAX then LPTIM_MAX else PmTicks(rate, timeout)
  }

  /** The programmed counter is the largest the register holds whose time does not exceed the 32-bit product: a longer
      sleep is cut to 0xFFFF. */
  lemma ProgrammedIsLargest(rate: Rate, timeout: nat, counter: nat)
    ensures counter <= Programmed(rate, timeout)
            <==> counter <= 0xFFFF && counter * rate <= timeout * 1000 % 0x1_0000_0000
  {
    var wrapped := timeout * FREQ % TWO32;
    FloorBounds(wrapped, rate);
    assert counter * rate == rate * counter;
    if counter <= wrapped / rate {
      ScaleBounds(rate, counter, counter, wrapped / rate);
    } else {
      ScaleBounds(rate, wrapped / rate + 1, wrapped / rate + 1, counter);
      Distribute(rate, wrapped / rate, 1);
    }
  }

  /** A sleep is never credited with more ticks than it was asked for, at whatever point it is read and whatever
      remainder was carried in. */
  lemma NeverOverCredited(rate: Rate, timeout: nat, counter: nat, remain: nat)
    requires counter <= Programmed(rate, timeout) && remain < FREQ
    ensures Convert(rate, remain, counter).osTicks <= timeout
  {
    hide Programmed;
    CounterTime(rate, timeout, counter);
    hide Raw;
    CreditBound(Raw(rate, remain, counter), timeout);
  }

  lemma CounterTime(rate: Rate, timeout: nat, counter: nat)
    requires counter <= Programmed(rate, timeout)
    ensures counter * rate <= timeout * FREQ
    ensures forall remain: nat :: Raw(rate, remain, counter) <= timeout * FREQ + remain
  {
    var wrapped := timeout * FREQ % TWO32;
    FloorBounds(wrapped, rate);
    ScaleBounds(rate, counter, counter, wrapped / rate);
    ModBelow(timeout * FREQ, TWO32);
    assert counter * rate == rate * counter;
  }

  lemma CreditBound(raw: nat, timeout: nat)
    requires raw <= timeout * FREQ + 999
    ensures raw % TWO32 / FREQ <= timeout
  {
    ModBelow(raw, TWO32);
  }

  lemma ModBelow(x: nat, m: nat)
    requires m > 0
    ensures x % m <= x
  {}

  /** A sleep that runs to its end, and is neither cut by the counter nor wrapped, is credited to within one timer
      period of what was asked. */
  lemma FullSleepCredit(rate: Rate, timeout: nat, remain: nat)
    requires timeout * FREQ < TWO32 && PmTicks(rate, timeout) <= LPTIM_MAX && remain < FREQ && rate <= 0x1_0000
    ensures FREQ * (timeout - Convert(rate, remain, Programmed(rate, timeout)).osTicks) < rate + FREQ
  {
    var asked := timeout * FREQ;
    var counter := asked / rate;
    FloorBounds(asked, rate);
    assert counter * rate == rate * counter;
    MulMono(counter, LPTIM_MAX, rate, 0x1_0000);
    assert Total(rate, remain, counter) == Raw(rate, remain, counter);
    FloorBounds(Raw(rate, remain, counter), FREQ);
  }

  /** The code's two 32-bit sums, each of an already wrapped product, are the total. */
  lemma ConvertInTwoSums(rate: Rate, remain: nat, tick: nat)
    ensures ToU32(ToU32(tick * rate) + remain) / FREQ == Convert(rate, remain, tick).osTicks
    ensures ToU32(remain + ToU32(tick * rate)) % FREQ == Convert(rate, remain, tick).remain
  {
    ModOfSum(tick * rate, remain);
  }

  lemma ModOfSum(x: nat, y: nat)
    ensures ToU32(ToU32(x) + y) == ToU32(x + y)
  {
    var q, z := x / TWO32, x % TWO32 + y;
    assert x + y == TWO32 * (q + z / TWO32) + z % TWO32;
    UniqueDivision(x + y, TWO32, q + z / TWO32, z % TWO32);
  }

  lemma OneMoreReading(rate: Rate, start: nat, ticks: seq<nat>, tick: nat)
    ensures var c := Convert(rate, Remainder(rate, start, ticks), tick);
            && Remainder(rate, start, ticks + [tick]) == c.remain && c.remain < FREQ
            && Credited(rate, start, ticks + [tick]) == Credited(rate, start, ticks) + c.osTicks
  {
    hide Raw;
    assert (ticks + [tick])[..|ticks|] == ticks;
  }

  // ---------------------------------------------------------------- the driver

  /** The static remainder and the low-power timer it reads. */
  class PmTimer {
    const rate: Rate
    var osTickRemain: nat
    var running: bool
    var autoReload: nat
    /** Every counter value converted so far, and the ticks returned for them. */
    ghost var readings: seq<nat>
    ghost var returned: nat

    ghost predicate Valid()
      reads this
    {
      && osTickRemain == Remainder(rate, 0, readings) && returned == Credited(rate, 0, readings)
      && osTickRemain < FREQ
    }

    constructor (rate: Rate)
      ensures Valid() && this.rate == rate && readings == []
    {
      this.rate, osTickRemain, running, autoReload := rate, 0, false, 0;
      readings, returned := [], 0;
    }

    method OsTickFromPmTick(tick: u32) returns (osTick: nat)
      requires Valid()
      modifies this`osTickRemain, this`readings, this`returned
      ensures Valid() && readings == old(readings) + [tick] && returned == old(returned) + osTick
      ensures osTick == Convert(rate, old(osTickRemain), tick).osTicks
    {
      hide Convert, Remainder, Credited, ToU32;
      ConvertInTwoSums(rate, osTickRemain, tick);
      OneMoreReading(rate, 0, readings, tick);
      osTick := ToU32(ToU32(tick * rate) + osTickRemain) / FREQ;
      osTickRemain := ToU32(osTickRemain + ToU32(tick * rate));
      osTickRemain := osTickRemain % FREQ;
      readings := readings + [tick];
      returned := returned + osTick;
    }

    /** Asserts a positive timeout; RT_TICK_MAX only stops the timer. */
    method Start(timeout: u32)
      requires timeout > 0
      modifies this`running, this`autoReload
      ensures running == (timeout != RT_TICK_MAX)
      ensures autoReload == if running then Programmed(rate, timeout) else old(autoReload)
    {
      running := false;
      if timeout != RT_TICK_MAX {
        var ticks := ToU32(timeout * FREQ) / rate;
        if ticks > LPTIM_MAX {
          ticks := LPTIM_MAX;
        }
        autoReload := ticks;
        running := true;
      }
    }

    /** One sleep: program the timer, wake at some counter value it can have reached, read it back. */
    method Sleep(timeout: u32, counter: nat) returns (osTick: nat)
      requires Valid() && 0 < timeout < RT_TICK_MAX && counter <= Programmed(rate, timeout)
      modifies this
      ensures Valid() && readings == old(readings) + [counter] && returned == old(returned) + osTick
      ensures osTick <= timeout
    {
      Start(timeout);
      NeverOverCredited(rate, timeout, counter, osTickRemain);
      osTick := OsTickFromPmTick(counter);
    }
  }
}
