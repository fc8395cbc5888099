/** The clock code itself: library calls that rewrite the registers, the two sequences that make them,
    and the global `SystemCoreClock`. Oscillators start, and the hardware follows SW at once. */
module ClockDriver {
  import opened Arithmetic
  import opened BitWords
  import opened ClockRegisters
  import opened ClockTree
  import opened ClockSwitch

  class Rcc {
    var cfg: word
    var pllhsipre: word
    var pllOn: bool
    var latency: nat
    var msiReady: bool
    var msiRange: nat
    var SystemCoreClock: int
    /** The registers at power-up and every library call since. */
    ghost var start: Regs
    ghost var calls: seq<Write>

    function Now(): Regs
      reads this
    {
      Regs(cfg, pllhsipre, pllOn, latency, msiReady, msiRange)
    }

    /** The registers are what the calls made of them, so every state in between is a prefix of the run. */
    ghost predicate Valid()
      reads this
    {
      Now() == Run(start, calls)
    }

    constructor (cfg: word, pllhsipre: word, pllOn: bool, latency: nat, msiReady: bool, msiRange: nat, hz: int)
      ensures Valid() && Now() == Regs(cfg, pllhsipre, pllOn, latency, msiReady, msiRange) && SystemCoreClock == hz
    {
      this.cfg, this.pllhsipre, this.pllOn := cfg, pllhsipre, pllOn;
      this.latency, this.msiReady, this.msiRange, this.SystemCoreClock := latency, msiReady, msiRange, hz;
      this.start := Regs(cfg, pllhsipre, pllOn, latency, msiReady, msiRange);
      this.calls := [];
    }

    // -------------------------------------------------------------- the library calls

    ghost method Log(w: Write)
      requires Now() == Apply(Run(start, calls), w)
      modifies this`calls
      ensures Valid() && calls == old(calls) + [w]
    {
      hide Apply, Run;
      RunOneMore(start, calls, w);
      calls := calls + [w];
    }

    method ConfigMsi(on: bool)
      requires Valid()
      modifies this
      ensures Valid() && calls == old(calls) + [Msi(on)] && start == old(start)
      ensures SystemCoreClock == old(SystemCoreClock)
    {
      hide Run, Masked, With;
      msiRange := 6;
      msiReady := on;
      Log(Msi(on));
    }

    method ConfigSysclk(source: word)
      requires Valid()
      modifies this
      ensures Valid() && calls == old(calls) + [Sysclk(source)] && start == old(start)
      ensures SystemCoreClock == old(SystemCoreClock)
    {
      hide Run, Masked, With;
      var tmp := Masked(cfg, KEEP_SW);
      tmp := With(tmp, source);
      cfg := tmp;
      cfg := With(Masked(cfg, KEEP_STS), StatusOf(source));
      Log(Sysclk(source));
    }

    method SetLatency(n: nat)
      requires Valid()
      modifies this
      ensures Valid() && calls == old(calls) + [Latency(n)] && start == old(start)
      ensures SystemCoreClock == old(SystemCoreClock)
    {
      hide Run, Masked, With;
      latency := n;
      Log(Latency(n));
    }

    method SetHclk(div: word)
      requires Valid()
      modifies this
      ensures Valid() && calls == old(calls) + [Hclk(div)] && start == old(start)
      ensures SystemCoreClock == old(SystemCoreClock)
    {
      hide Run, Masked, With;
      var tmp := Masked(cfg, KEEP_AHB);
      tmp := With(tmp, div);
      cfg := tmp;
      Log(Hclk(div));
    }

    method SetPclk1(div: word)
      requires Valid()
      modifies this
      ensures Valid() && calls == old(calls) + [Pclk1(div)] && start == old(start)
      ensures SystemCoreClock == old(SystemCoreClock)
    {
      hide Run, Masked, With;
      var tmp := Masked(cfg, KEEP_APB1);
      tmp := With(tmp, div);
      cfg := tmp;
      Log(Pclk1(div));
    }

    method SetPclk2(div: word)
      requires Valid()
      modifies this
      ensures Valid() && calls == old(calls) + [Pclk2(div)] && start == old(start)
      ensures SystemCoreClock == old(SystemCoreClock)
    {
      hide Run, Masked, With;
      var tmp := Masked(cfg, KEEP_APB2);
      tmp := With(tmp, Up3(div));
      cfg := tmp;
      Log(Pclk2(div));
    }

    method EnablePll(on: bool)
      requires Valid()
      modifies this
      ensures Valid() && calls == old(calls) + [PllEnable(on)] && start == old(start)
      ensures SystemCoreClock == old(SystemCoreClock)
    {
      hide Run, Masked, With;
      pllOn := on;
      Log(PllEnable(on));
    }

    method SetPll(src: word, mul: word, div: word)
      requires Valid()
      modifies this
      ensures Valid() && calls == old(calls) + [Pll(src, mul, div)] && start == old(start)
      ensures SystemCoreClock == old(SystemCoreClock)
    {
      hide Run, Masked, With;
      var tmp, pre := Masked(cfg, KEEP_PLL), Masked(pllhsipre, KEEP_PRE);
      if src == 0 || src == 1 {
        tmp := With(tmp, mul);
        pre := With(pre, With(src, div));
      } else {
        tmp := With(tmp, With(src, mul));
        pre := With(pre, div);
      }
      cfg := tmp;
      pllhsipre := pre;
      Log(Pll(src, mul, div));
    }

    // -------------------------------------------------------------- set_sysclock_to_pll

    /** A rejected request spins forever before any clock register is written; it is reported as false. */
    method SetSysclockToPll(freq: nat, src: Source) returns (accepted: bool)
      requires Valid()
      modifies this
      ensures Valid() && start == old(start) && SystemCoreClock == old(SystemCoreClock)
      ensures accepted == Accepted(freq, src)
      ensures !accepted ==> Now() == old(Now()) && calls == old(calls)
      ensures accepted ==> calls == old(calls) + (StartMsi(old(msiReady)) + Switch(freq, src, old(msiReady)))
    {
      hide Apply, Reachable, MulField, Switch, SwitchCalls, Run, SrcWord, DivWord, PllInput, Pclk1Word, Pclk2Word;
      var pllsrc, plldiv, pllsrcclk := SourceSettings(src);
      var wait := freq / 32_000_000;
      var pclk1div, pclk2div := BusDividers(freq);
      accepted := Reachable(freq, pllsrcclk);
      if !accepted { return; }
      FactorRange(freq, pllsrcclk);
      var pllmul := MultiplierWord(freq / pllsrcclk);
      SwitchTo(wait, pclk1div, pclk2div, pllsrc, pllmul, plldiv);
      SwitchCallsAreSwitch(freq, src, old(msiReady));
    }

    static lemma FactorRange(freq: nat, input: int)
      requires input > 0 && Reachable(freq, input)
      ensures 2 <= freq / input <= 32
    {}

    static method SourceSettings(src: Source) returns (pllsrc: word, plldiv: word, pllsrcclk: int)
      ensures pllsrc == SrcWord(src) && plldiv == DivWord(src) && pllsrcclk == PllInput(src)
    {
      pllsrc, plldiv, pllsrcclk := 0, 0, 0;
      if src == Hsi || src == HsiDiv2 || src == HsiPllDiv2 || src == HsiDiv2PllDiv2 {
        if src == HsiDiv2 || src == HsiDiv2PllDiv2 {
          pllsrc, pllsrcclk := 1, HSI_VALUE / 2;
          if src == HsiDiv2PllDiv2 { plldiv, pllsrcclk := 2, HSI_VALUE / 4; }
        } else if src == Hsi || src == HsiPllDiv2 {
          pllsrc, pllsrcclk := 0, HSI_VALUE;
          if src == HsiPllDiv2 { plldiv, pllsrcclk := 2, HSI_VALUE / 2; }
        }
      } else {
        if src == HseDiv2 || src == HseDiv2PllDiv2 {
          pllsrc, pllsrcclk := 0x0003_0000, HSE_VALUE / 2;
          if src == HseDiv2PllDiv2 { plldiv, pllsrcclk := 2, HSE_VALUE / 4; }
        } else if src == Hse || src == HsePllDiv2 {
          pllsrc, pllsrcclk := 0x0001_0000, HSE_VALUE;
          if src == HsePllDiv2 { plldiv, pllsrcclk := 2, HSE_VALUE / 2; }
        }
      }
    }

    static method BusDividers(freq: nat) returns (pclk1div: word, pclk2div: word)
      ensures pclk1div == Pclk1Word(freq) && pclk2div == Pclk2Word(freq)
    {
      if freq > 54_000_000 {
        pclk1div, pclk2div := 0x500, 0x400;
      } else if freq > 27_000_000 {
        pclk1div, pclk2div := 0x400, 0;
      } else {
        pclk1div, pclk2div := 0, 0;
      }
    }

    static lemma SwitchCallsAreSwitch(freq: nat, src: Source, ready: bool)
      requires Accepted(freq, src)
      ensures SwitchCalls(ready, freq / 32_000_000, Pclk1Word(freq), Pclk2Word(freq),
                          SrcWord(src), MulField(freq / PllInput(src)), DivWord(src))
              == StartMsi(ready) + Switch(freq, src, ready)
    {
      hide Pclk1Word, Pclk2Word, SrcWord, DivWord, PllInput, MulField;
    }

    static method MultiplierWord(factor: int) returns (pllmul: word)
      requires 2 <= factor <= 32
      ensures pllmul == MulField(factor)
    {
      if factor <= 16 {
        pllmul := Up18(Word(factor - 2));
      } else {
        pllmul := With(Up18(Word(factor - 17)), PLLMULFCT_4);
      }
    }

    static ghost function SwitchCalls(ready: bool, wait: nat, pclk1div: word, pclk2div: word,
                                      pllsrc: word, pllmul: word, plldiv: word): seq<Write> {
      StartMsi(ready)
      + [Sysclk(0), Latency(wait), Hclk(0), Pclk2(pclk2div), Pclk1(pclk1div), PllEnable(false),
         Pll(pllsrc, pllmul, plldiv), PllEnable(true), Sysclk(3)]
      + StopMsi(ready)
    }

    /** The register-writing half. */
    method SwitchTo(wait: nat, pclk1div: word, pclk2div: word, pllsrc: word, pllmul: word, plldiv: word)
      requires Valid()
      modifies this
      ensures Valid() && start == old(start) && SystemCoreClock == old(SystemCoreClock)
      ensures calls == old(calls) + SwitchCalls(old(msiReady), wait, pclk1div, pclk2div, pllsrc, pllmul, plldiv)
    {
      hide Valid;
      var msiReadyFlag := false;
      if !msiReady {
        ConfigMsi(true);
        msiReadyFlag := true;
      }
      SlowDown(wait, pclk1div, pclk2div);
      EnablePll(false);
      SetPll(pllsrc, pllmul, plldiv);
      EnablePll(true);
      ConfigSysclk(3);
      if msiReadyFlag {
        ConfigMsi(false);
      }
    }

    method SlowDown(wait: nat, pclk1div: word, pclk2div: word)
      requires Valid()
      modifies this
      ensures Valid() && start == old(start) && SystemCoreClock == old(SystemCoreClock)
      ensures calls == old(calls) + [Sysclk(0), Latency(wait), Hclk(0), Pclk2(pclk2div), Pclk1(pclk1div)]
    {
      hide Valid;
      ConfigSysclk(0);
      SetLatency(wait);
      SetHclk(0);
      SetPclk2(pclk2div);
      SetPclk1(pclk1div);
    }

    // -------------------------------------------------------------- SystemInit and SetSysClock

    /** The part of `SystemInit` that resets the clock registers. */
    method ResetClocks()
      modifies this
      ensures IsReset() && Valid() && calls == []
      ensures latency == old(latency) && SystemCoreClock == old(SystemCoreClock)
    {
      msiReady := true;
      cfg := Masked(cfg, 0xF8FF_C000);
      pllOn := false;
      LowBitsCleared(old(cfg));
      ResetFields(cfg);
      cfg := Masked(cfg, 0x0700_FFFF);
      pllhsipre := 0;
      start, calls := Now(), [];
    }

    ghost predicate IsReset()
      reads this
    {
      && View(cfg, pllhsipre).sts == STS_MSI && !pllOn && msiReady
      && Masked(cfg, AHBPRES) == 0 && Masked(cfg, APB1PRES) == 0 && Masked(cfg, APB2PRES) == 0
    }

    static lemma LowBitsCleared(c: word)
      ensures Masked(Masked(c, 0xF8FF_C000), 0x0000_3FFF) == 0
    {}

    static lemma ResetFields(c: word)
      requires Masked(c, 0x0000_3FFF) == 0
      ensures Masked(Masked(c, 0x0700_FFFF), SCLKSTS) == 0 && Masked(Masked(c, 0x0700_FFFF), AHBPRES) == 0
      ensures Masked(Masked(c, 0x0700_FFFF), APB1PRES) == 0 && Masked(Masked(c, 0x0700_FFFF), APB2PRES) == 0
    {}

    static lemma AhbClear(c: word)
      requires Masked(c, AHBPRES) == 0
      ensures Masked(c, KEEP_AHB) == c
    {}

    static lemma Apb1Clear(c: word)
      requires Masked(c, APB1PRES) == 0
      ensures Masked(c, KEEP_APB1) == c
    {}

    static lemma Apb2Clear(c: word)
      requires Masked(c, APB2PRES) == 0
      ensures Masked(c, KEEP_APB2) == c
    {}

    static lemma Apb2SparesApb1(c: word, v: word)
      requires v == 0 || v == 0x2000
      ensures Masked(With(c, v), APB1PRES) == Masked(c, APB1PRES)
    {}

    static lemma WithZero(c: word)
      ensures With(c, 0) == c
    {}

    static lemma WithAssoc(c: word, x: word, y: word)
      ensures With(With(c, x), y) == With(c, With(x, y))
    {}

    /** `SetSysClock`, for a frequency and source the build accepts; oscillator start-up is taken to succeed.
        It only sets bits, which works because every field it writes is clear. */
    method SetSysClock(freq: nat, useHse: bool)
      requires Buildable(freq, useHse) && IsReset() && Valid()
      modifies this
      ensures Valid() && start == old(start) && SystemCoreClock == old(SystemCoreClock)
      ensures calls == old(calls) + Boot(freq, useHse)
    {
      hide Valid, Masked, With, MulField, PllMacros, BootSrc, InputOf;
      ChoiceProduct(freq, useHse);
      var p := PllMacros(Oscillator(useHse), freq);
      BusSetUp((freq - 1) / 32_000_000, freq);
      LockPll(useHse, p);
    }

    method BusSetUp(wait: nat, freq: nat)
      requires IsReset()
      requires Valid()
      modifies this
      ensures Valid() && start == old(start) && SystemCoreClock == old(SystemCoreClock)
      ensures calls == old(calls) + Prepare(wait, freq)
    {
      hide Valid, Masked, With, Pclk1Word, Pclk2Word;
      KeepHclk(wait);
      DividePclk2(freq);
      DividePclk1(freq);
    }

    method KeepHclk(wait: nat)
      requires Masked(cfg, AHBPRES) == 0
      requires Valid()
      modifies this
      ensures Valid() && start == old(start) && SystemCoreClock == old(SystemCoreClock)
      ensures calls == old(calls) + [Latency(wait), Hclk(0)]
      ensures cfg == old(cfg)
    {
      hide Masked, With, Run;
      latency := wait;
      Log(Latency(wait));
      AhbClear(cfg);
      WithZero(cfg);
      cfg := With(cfg, 0);
      Log(Hclk(0));
    }

    method DividePclk2(freq: nat)
      requires Masked(cfg, APB2PRES) == 0
      requires Valid()
      modifies this
      ensures Valid() && start == old(start) && SystemCoreClock == old(SystemCoreClock)
      ensures calls == old(calls) + [Pclk2(Pclk2Word(freq))]
      ensures Masked(cfg, APB1PRES) == old(Masked(cfg, APB1PRES))
    {
      hide Masked, With, Run;
      var apb2: word := if freq > 54_000_000 then 0x2000 else 0;
      Pclk2Shifted(freq);
      Apb2Clear(cfg);
      Apb2SparesApb1(cfg, apb2);
      cfg := With(cfg, apb2);
      Log(Pclk2(Pclk2Word(freq)));
    }

    method DividePclk1(freq: nat)
      requires Masked(cfg, APB1PRES) == 0
      requires Valid()
      modifies this
      ensures Valid() && start == old(start) && SystemCoreClock == old(SystemCoreClock)
      ensures calls == old(calls) + [Pclk1(Pclk1Word(freq))]
    {
      hide Masked, With, Run;
      var apb1: word := if freq > 54_000_000 then 0x500 else if freq > 27_000_000 then 0x400 else 0;
      Apb1Clear(cfg);
      cfg := With(cfg, apb1);
      Log(Pclk1(Pclk1Word(freq)));
    }

    static lemma Pclk2Shifted(freq: nat)
      ensures Up3(Pclk2Word(freq)) == if freq > 54_000_000 then 0x2000 else 0
    {}

    /** The PLL half: clear the fields, set source, dividers and multiplier, enable, select. */
    method LockPll(useHse: bool, p: PllChoice)
      requires p.PllChoice? && (p.srcDiv == 1 || p.srcDiv == 2) && (p.div == 0 || p.div == 2) && 2 <= p.mul <= 32
      requires Valid()
      modifies this
      ensures Valid() && start == old(start) && SystemCoreClock == old(SystemCoreClock)
      ensures calls == old(calls) + Relock(BootSrc(useHse, p.srcDiv), MulField(p.mul), p.div)
    {
      hide MulField, Run, Apply, Masked, With;
      var mul := MultiplierWord(p.mul);
      WritePll(useHse, p.srcDiv, mul, p.div);
      EnablePll(true);
      ConfigSysclk(3);
    }

    method WritePll(useHse: bool, srcDiv: int, mul: word, div: word)
      requires srcDiv == 1 || srcDiv == 2
      requires Valid()
      modifies this
      ensures Valid() && start == old(start) && SystemCoreClock == old(SystemCoreClock)
      ensures calls == old(calls) + [Pll(BootSrc(useHse, srcDiv), mul, div)]
    {
      hide Run, Masked, With, ConfigPll, BootSrc;
      BootPll(Now(), useHse, srcDiv, mul, div);
      var c := Masked(cfg, KEEP_PLL);
      var pre := Masked(pllhsipre, KEEP_PRE);
      c := With(c, if useHse then 0x0001_0000 else 0);
      c := With(c, if useHse && srcDiv != 1 then 0x0002_0000 else 0);
      c := With(c, mul);
      pre := With(pre, if !useHse && srcDiv != 1 then 1 else 0);
      pre := With(pre, div);
      cfg := c;
      pllhsipre := pre;
      Log(Pll(BootSrc(useHse, srcDiv), mul, div));
    }

    /** Setting source, pre-divider and multiplier one after the other is what the library call does at once. */
    static lemma BootPll(r: Regs, useHse: bool, srcDiv: int, mul: word, div: word)
      requires srcDiv == 1 || srcDiv == 2
      ensures ConfigPll(r, BootSrc(useHse, srcDiv), mul, div)
        == r.(cfg := With(With(With(Masked(r.cfg, KEEP_PLL), if useHse then 0x0001_0000 else 0),
                               if useHse && srcDiv != 1 then 0x0002_0000 else 0), mul),
              pllhsipre := With(With(Masked(r.pllhsipre, KEEP_PRE), if !useHse && srcDiv != 1 then 1 else 0), div))
    {
      hide Masked, With;
      var source: word := if useHse then 0x0001_0000 else 0;
      var hsepre: word := if useHse && srcDiv != 1 then 0x0002_0000 else 0;
      var hsipre: word := if !useHse && srcDiv != 1 then 1 else 0;
      var c, pre := Masked(r.cfg, KEEP_PLL), Masked(r.pllhsipre, KEEP_PRE);
      BootSource(useHse, srcDiv);
      WithAssoc(c, source, hsepre);
      WithAssoc(c, With(source, hsepre), mul);
      WithAssoc(pre, hsipre, div);
      WithZero(c);
      WithZero(pre);
    }

    static lemma BootSource(useHse: bool, srcDiv: int)
      ensures With(if useHse then 0x0001_0000 else 0, if useHse && srcDiv != 1 then 0x0002_0000 else 0)
              == if useHse then BootSrc(useHse, srcDiv) else 0
    {}

    // -------------------------------------------------------------- SystemCoreClockUpdate

    method SystemCoreClockUpdate()
      modifies this`SystemCoreClock
      ensures SystemCoreClock == Decode(Abs(Now()))
    {
      hide DecodeMul;
      ViewWellFormed(cfg, pllhsipre);
      ghost var v := View(cfg, pllhsipre);
      var tmp := Masked(cfg, SCLKSTS);
      if tmp == STS_HSI {
        SystemCoreClock := HSI_VALUE;
      } else if tmp == STS_HSE {
        SystemCoreClock := HSE_VALUE;
      } else if tmp == STS_PLL {
        var pllmull := DecodeMul(Masked(cfg, PLLMULFCT));
        var pllsource := Masked(cfg, PLLSRC);
        var plldiv2 := Masked(pllhsipre, PLLSRCDIV);
        if pllsource == 0 {
          if Masked(pllhsipre, PLLSRCDIV) != 0 {
            SystemCoreClock := HSI_VALUE / 2 * pllmull;
          } else {
            SystemCoreClock := HSI_VALUE * pllmull;
          }
        } else {
          if Masked(cfg, PLLHSEPRES) != 0 {
            SystemCoreClock := HSE_VALUE / 2 * pllmull;
          } else {
            SystemCoreClock := HSE_VALUE * pllmull;
          }
        }
        if plldiv2 == 2 {
          SystemCoreClock := SystemCoreClock / 2;
        }
      } else {
        SystemCoreClock := MsiHz(msiRange);
      }
      SystemCoreClock := SystemCoreClock / Pow2(AhbShift(Masked(cfg, AHBPRES)));
    }

    /** Both halves together, across the two files. */
    method SwitchAndUpdate(freq: nat, src: Source) returns (accepted: bool)
      requires Valid()
      modifies this
      ensures accepted == Accepted(freq, src)
      ensures accepted ==> RunsAt(Abs(Now()), freq)
      ensures accepted ==> (SystemCoreClock == freq <==> src != HsiDiv2 && src != HsiPllDiv2)
    {
      hide Run, Decode, RunsAt, Abs, StartMsi, Switch;
      ghost var before := Now();
      accepted := SetSysclockToPll(freq, src);
      if accepted {
        RegisterRoundTrip(before, freq, src);
        RunsConcatenate(start, old(calls), StartMsi(before.msiReady) + Switch(freq, src, before.msiReady));
        SystemCoreClockUpdate();
      }
    }
  }
}
