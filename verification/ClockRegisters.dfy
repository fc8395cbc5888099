/** The clock registers and the peripheral-library calls that write them. */
module ClockRegisters {
  import opened BitWords

  /** `RCC->CFG`, `RCC->PLLHSIPRE`, the PLL enable bit, the flash wait states and the MSI oscillator. */
  datatype Regs = Regs(cfg: word, pllhsipre: word, pllOn: bool, latency: nat, msiReady: bool, msiRange: nat)

  const SCLKSW: word := 0x0000_0003
  const SCLKSTS: word := 0x0000_000C
  const AHBPRES: word := 0x0000_00F0
  const APB1PRES: word := 0x0000_0700
  const APB2PRES: word := 0x0000_3800
  const PLLSRC: word := 0x0001_0000
  const PLLHSEPRES: word := 0x0002_0000
  const PLLMULFCT: word := 0x083C_0000
  const PLLMULFCT_4: word := 0x0800_0000
  const PLLHSIPRE: word := 0x1
  const PLLSRCDIV: word := 0x2

  /** The fields of CFG and PLLHSIPRE, each left in place. */
  datatype Fields = Fields(sts: word, ahb: word, apb1: word, apb2: word,
                           pllsrc: word, hsepre: word, mul: word, hsipre: word, srcdiv: word)

  function View(cfg: word, pllhsipre: word): Fields {
    Fields(Masked(cfg, SCLKSTS), Masked(cfg, AHBPRES), Masked(cfg, APB1PRES), Masked(cfg, APB2PRES),
           Masked(cfg, PLLSRC), Masked(cfg, PLLHSEPRES), Masked(cfg, PLLMULFCT),
           Masked(pllhsipre, PLLHSIPRE), Masked(pllhsipre, PLLSRCDIV))
  }

  /** `tmp = REG; tmp &= keep; tmp |= value; REG = tmp` */
  function Replace(w: word, keep: word, value: word): word {
    With(Masked(w, keep), value)
  }

  /** A field outside the replaced part is untouched; the replaced field reads what was written. */
  lemma ReplaceKeeps(w: word, keep: word, value: word, field: word)
    requires Masked(keep, field) == field && Masked(value, field) == 0
    ensures Masked(Replace(w, keep, value), field) == Masked(w, field)
  {
    MaskedTwice(w, keep, field);
    MaskedOr(Masked(w, keep), value, field);
  }

  lemma ReplaceSets(w: word, keep: word, value: word, field: word)
    requires Masked(keep, field) == 0
    ensures Masked(Replace(w, keep, value), field) == Masked(value, field)
  {
    MaskedTwice(w, keep, field);
    MaskedOr(Masked(w, keep), value, field);
  }

  lemma MaskedTwice(w: word, keep: word, field: word)
    ensures Masked(Masked(w, keep), field) == Masked(w, Masked(keep, field))
    ensures Masked(w, 0) == 0
  {}

  lemma MaskedOr(x: word, y: word, field: word)
    ensures Masked(With(x, y), field) == With(Masked(x, field), Masked(y, field))
    ensures With(Masked(x, field), 0) == Masked(x, field) && With(0, Masked(y, field)) == Masked(y, field)
  {
    hide Masked, With;
    UnionUnderMask(With(x, y), x, y, field);
    OrZero(Masked(x, field));
    OrZero(Masked(y, field));
  }

  lemma OrZero(w: word)
    ensures With(w, 0) == w && With(0, w) == w
  {}

  /** Writing one field, with a value that lies inside it. */
  lemma WriteField(w: word, keep: word, own: word, value: word, field: word)
    requires Masked(keep, own) == 0 && Masked(value, own) == value
    ensures Masked(Replace(w, keep, value), own) == value
    ensures Masked(keep, field) == field && Masked(own, field) == 0 ==>
      Masked(Replace(w, keep, value), field) == Masked(w, field)
  {
    hide Masked, With, Replace;
    ReplaceSets(w, keep, value, own);
    if Masked(keep, field) == field && Masked(own, field) == 0 {
      MaskedTwice(value, own, field);
      ReplaceKeeps(w, keep, value, field);
    }
  }

  const KEEP_SW: word := 0xFFFF_FFFC
  const KEEP_STS: word := 0xFFFF_FFF3
  const KEEP_AHB: word := 0xFFFF_FF0F
  const KEEP_APB1: word := 0xFFFF_F8FF
  const KEEP_APB2: word := 0xFFFF_C7FF
  const KEEP_PLL: word := 0xF7C0_FFFF
  const KEEP_PRE: word := 0xFFFF_FFFC

  /** `RCC_ConfigSysclk`, and the hardware reporting the new source. */
  function SelectSysclk(cfg: word, sw: word, sts: word): word {
    Replace(Replace(cfg, KEEP_SW, sw), KEEP_STS, sts)
  }

  function ConfigHclk(cfg: word, div: word): word {
    Replace(cfg, KEEP_AHB, div)
  }

  function ConfigPclk1(cfg: word, div: word): word {
    Replace(cfg, KEEP_APB1, div)
  }

  /** The divider is written three bits higher than for PCLK1. */
  function ConfigPclk2(cfg: word, div: word): word {
    Replace(cfg, KEEP_APB2, Up3(div))
  }

  function Up3(w: word): word {
    w << 3
  }

  function ConfigPllCfg(cfg: word, src: word, mul: word): word {
    Replace(cfg, KEEP_PLL, With(src, mul))
  }

  function ConfigPllPre(pllhsipre: word, pre: word, div: word): word {
    Replace(pllhsipre, KEEP_PRE, With(pre, div))
  }

  predicate Inside(value: word, field: word) {
    Masked(value, field) == value
  }

  lemma SwitchMasks()
    ensures Masked(KEEP_SW, SCLKSW) == 0
    ensures Masked(KEEP_SW, SCLKSTS) == SCLKSTS && Masked(SCLKSW, SCLKSTS) == 0
    ensures Masked(KEEP_SW, AHBPRES) == AHBPRES && Masked(SCLKSW, AHBPRES) == 0
    ensures Masked(KEEP_SW, APB1PRES) == APB1PRES && Masked(SCLKSW, APB1PRES) == 0
    ensures Masked(KEEP_SW, APB2PRES) == APB2PRES && Masked(SCLKSW, APB2PRES) == 0
    ensures Masked(KEEP_SW, PLLSRC) == PLLSRC && Masked(SCLKSW, PLLSRC) == 0
    ensures Masked(KEEP_SW, PLLHSEPRES) == PLLHSEPRES && Masked(SCLKSW, PLLHSEPRES) == 0
    ensures Masked(KEEP_SW, PLLMULFCT) == PLLMULFCT && Masked(SCLKSW, PLLMULFCT) == 0
  {}

  lemma StatusMasks()
    ensures Masked(KEEP_STS, SCLKSTS) == 0
    ensures Masked(KEEP_STS, AHBPRES) == AHBPRES && Masked(SCLKSTS, AHBPRES) == 0
    ensures Masked(KEEP_STS, APB1PRES) == APB1PRES && Masked(SCLKSTS, APB1PRES) == 0
    ensures Masked(KEEP_STS, APB2PRES) == APB2PRES && Masked(SCLKSTS, APB2PRES) == 0
    ensures Masked(KEEP_STS, PLLSRC) == PLLSRC && Masked(SCLKSTS, PLLSRC) == 0
    ensures Masked(KEEP_STS, PLLHSEPRES) == PLLHSEPRES && Masked(SCLKSTS, PLLHSEPRES) == 0
    ensures Masked(KEEP_STS, PLLMULFCT) == PLLMULFCT && Masked(SCLKSTS, PLLMULFCT) == 0
  {}

  lemma AhbMasks()
    ensures Masked(KEEP_AHB, AHBPRES) == 0
    ensures Masked(KEEP_AHB, SCLKSTS) == SCLKSTS && Masked(AHBPRES, SCLKSTS) == 0
    ensures Masked(KEEP_AHB, APB1PRES) == APB1PRES && Masked(AHBPRES, APB1PRES) == 0
    ensures Masked(KEEP_AHB, APB2PRES) == APB2PRES && Masked(AHBPRES, APB2PRES) == 0
    ensures Masked(KEEP_AHB, PLLSRC) == PLLSRC && Masked(AHBPRES, PLLSRC) == 0
    ensures Masked(KEEP_AHB, PLLHSEPRES) == PLLHSEPRES && Masked(AHBPRES, PLLHSEPRES) == 0
    ensures Masked(KEEP_AHB, PLLMULFCT) == PLLMULFCT && Masked(AHBPRES, PLLMULFCT) == 0
  {}

  lemma Apb1Masks()
    ensures Masked(KEEP_APB1, APB1PRES) == 0
    ensures Masked(KEEP_APB1, SCLKSTS) == SCLKSTS && Masked(APB1PRES, SCLKSTS) == 0
    ensures Masked(KEEP_APB1, AHBPRES) == AHBPRES && Masked(APB1PRES, AHBPRES) == 0
    ensures Masked(KEEP_APB1, APB2PRES) == APB2PRES && Masked(APB1PRES, APB2PRES) == 0
    ensures Masked(KEEP_APB1, PLLSRC) == PLLSRC && Masked(APB1PRES, PLLSRC) == 0
    ensures Masked(KEEP_APB1, PLLHSEPRES) == PLLHSEPRES && Masked(APB1PRES, PLLHSEPRES) == 0
    ensures Masked(KEEP_APB1, PLLMULFCT) == PLLMULFCT && Masked(APB1PRES, PLLMULFCT) == 0
  {}

  lemma Apb2Masks()
    ensures Masked(KEEP_APB2, APB2PRES) == 0
    ensures Masked(KEEP_APB2, SCLKSTS) == SCLKSTS && Masked(APB2PRES, SCLKSTS) == 0
    ensures Masked(KEEP_APB2, AHBPRES) == AHBPRES && Masked(APB2PRES, AHBPRES) == 0
    ensures Masked(KEEP_APB2, APB1PRES) == APB1PRES && Masked(APB2PRES, APB1PRES) == 0
    ensures Masked(KEEP_APB2, PLLSRC) == PLLSRC && Masked(APB2PRES, PLLSRC) == 0
    ensures Masked(KEEP_APB2, PLLHSEPRES) == PLLHSEPRES && Masked(APB2PRES, PLLHSEPRES) == 0
    ensures Masked(KEEP_APB2, PLLMULFCT) == PLLMULFCT && Masked(APB2PRES, PLLMULFCT) == 0
  {}

  lemma SelectSysclkView(cfg: word, pre: word, sw: word, sts: word)
    requires Inside(sw, SCLKSW) && Inside(sts, SCLKSTS)
    ensures View(SelectSysclk(cfg, sw, sts), pre) == View(cfg, pre).(sts := sts)
  {
    hide Masked, With, Replace;
    SwitchMasks();
    StatusMasks();
    var mid := Replace(cfg, KEEP_SW, sw);
    WriteField(mid, KEEP_STS, SCLKSTS, sts, AHBPRES);
    WriteField(mid, KEEP_STS, SCLKSTS, sts, APB1PRES);
    WriteField(mid, KEEP_STS, SCLKSTS, sts, APB2PRES);
    WriteField(mid, KEEP_STS, SCLKSTS, sts, PLLSRC);
    WriteField(mid, KEEP_STS, SCLKSTS, sts, PLLHSEPRES);
    WriteField(mid, KEEP_STS, SCLKSTS, sts, PLLMULFCT);
    WriteField(cfg, KEEP_SW, SCLKSW, sw, AHBPRES);
    WriteField(cfg, KEEP_SW, SCLKSW, sw, APB1PRES);
    WriteField(cfg, KEEP_SW, SCLKSW, sw, APB2PRES);
    WriteField(cfg, KEEP_SW, SCLKSW, sw, PLLSRC);
    WriteField(cfg, KEEP_SW, SCLKSW, sw, PLLHSEPRES);
    WriteField(cfg, KEEP_SW, SCLKSW, sw, PLLMULFCT);
  }

  lemma ConfigHclkView(cfg: word, pre: word, div: word)
    requires Inside(div, AHBPRES)
    ensures View(ConfigHclk(cfg, div), pre) == View(cfg, pre).(ahb := div)
  {
    hide Masked, With, Replace;
    AhbMasks();
    WriteField(cfg, KEEP_AHB, AHBPRES, div, SCLKSTS);
    WriteField(cfg, KEEP_AHB, AHBPRES, div, APB1PRES);
    WriteField(cfg, KEEP_AHB, AHBPRES, div, APB2PRES);
    WriteField(cfg, KEEP_AHB, AHBPRES, div, PLLSRC);
    WriteField(cfg, KEEP_AHB, AHBPRES, div, PLLHSEPRES);
    WriteField(cfg, KEEP_AHB, AHBPRES, div, PLLMULFCT);
  }

  lemma ConfigPclk1View(cfg: word, pre: word, div: word)
    requires Inside(div, APB1PRES)
    ensures View(ConfigPclk1(cfg, div), pre) == View(cfg, pre).(apb1 := div)
  {
    hide Masked, With, Replace;
    Apb1Masks();
    WriteField(cfg, KEEP_APB1, APB1PRES, div, SCLKSTS);
    WriteField(cfg, KEEP_APB1, APB1PRES, div, AHBPRES);
    WriteField(cfg, KEEP_APB1, APB1PRES, div, APB2PRES);
    WriteField(cfg, KEEP_APB1, APB1PRES, div, PLLSRC);
    WriteField(cfg, KEEP_APB1, APB1PRES, div, PLLHSEPRES);
    WriteField(cfg, KEEP_APB1, APB1PRES, div, PLLMULFCT);
  }

  lemma ConfigPclk2View(cfg: word, pre: word, div: word)
    requires Inside(Up3(div), APB2PRES)
    ensures View(ConfigPclk2(cfg, div), pre) == View(cfg, pre).(apb2 := Up3(div))
  {
    hide Masked, With, Replace, Up3;
    Apb2Masks();
    var v := Up3(div);
    WriteField(cfg, KEEP_APB2, APB2PRES, v, SCLKSTS);
    WriteField(cfg, KEEP_APB2, APB2PRES, v, AHBPRES);
    WriteField(cfg, KEEP_APB2, APB2PRES, v, APB1PRES);
    WriteField(cfg, KEEP_APB2, APB2PRES, v, PLLSRC);
    WriteField(cfg, KEEP_APB2, APB2PRES, v, PLLHSEPRES);
    WriteField(cfg, KEEP_APB2, APB2PRES, v, PLLMULFCT);
  }

  /** The source bits `RCC_ConfigPll` may be given. */
  predicate IsPllSource(src: word) {
    src == 0 || src == 0x0001_0000 || src == 0x0003_0000
  }

  lemma PllSourceMasks(src: word)
    requires IsPllSource(src)
    ensures Masked(src, SCLKSTS) == 0 && Masked(src, AHBPRES) == 0 && Masked(src, APB1PRES) == 0
    ensures Masked(src, APB2PRES) == 0 && Masked(src, PLLMULFCT) == 0
  {}

  lemma PllMasks()
    ensures Masked(KEEP_PLL, SCLKSTS) == SCLKSTS && Masked(PLLMULFCT, SCLKSTS) == 0
    ensures Masked(KEEP_PLL, AHBPRES) == AHBPRES && Masked(PLLMULFCT, AHBPRES) == 0
    ensures Masked(KEEP_PLL, APB1PRES) == APB1PRES && Masked(PLLMULFCT, APB1PRES) == 0
    ensures Masked(KEEP_PLL, APB2PRES) == APB2PRES && Masked(PLLMULFCT, APB2PRES) == 0
    ensures Masked(KEEP_PLL, PLLSRC) == 0 && Masked(KEEP_PLL, PLLHSEPRES) == 0 && Masked(KEEP_PLL, PLLMULFCT) == 0
    ensures Masked(PLLMULFCT, PLLSRC) == 0 && Masked(PLLMULFCT, PLLHSEPRES) == 0
  {}

  lemma PllValueField(src: word, mul: word, field: word)
    requires Inside(mul, PLLMULFCT)
    ensures Masked(PLLMULFCT, field) == 0 ==> Masked(With(src, mul), field) == Masked(src, field)
    ensures Masked(src, PLLMULFCT) == 0 ==> Masked(With(src, mul), PLLMULFCT) == mul
  {
    hide Masked, With;
    MaskedOr(src, mul, field);
    MaskedOr(src, mul, PLLMULFCT);
    MaskedOr(mul, src, PLLMULFCT);
    MaskedTwice(mul, PLLMULFCT, field);
  }

  lemma ConfigPllView(cfg: word, pllhsipre: word, src: word, mul: word, pre: word, div: word)
    requires IsPllSource(src) && Inside(mul, PLLMULFCT) && (pre == 0 || pre == 1) && (div == 0 || div == 2)
    ensures View(ConfigPllCfg(cfg, src, mul), ConfigPllPre(pllhsipre, pre, div))
            == View(cfg, pllhsipre).(pllsrc := Masked(src, PLLSRC), hsepre := Masked(src, PLLHSEPRES), mul := mul,
                                     hsipre := pre, srcdiv := div)
  {
    hide Masked, With, Replace;
    PllMasks();
    PllSourceMasks(src);
    var v := With(src, mul);
    PllValueField(src, mul, SCLKSTS);
    PllValueField(src, mul, AHBPRES);
    PllValueField(src, mul, APB1PRES);
    PllValueField(src, mul, APB2PRES);
    PllValueField(src, mul, PLLSRC);
    PllValueField(src, mul, PLLHSEPRES);
    ReplaceKeeps(cfg, KEEP_PLL, v, SCLKSTS);
    ReplaceKeeps(cfg, KEEP_PLL, v, AHBPRES);
    ReplaceKeeps(cfg, KEEP_PLL, v, APB1PRES);
    ReplaceKeeps(cfg, KEEP_PLL, v, APB2PRES);
    ReplaceSets(cfg, KEEP_PLL, v, PLLSRC);
    ReplaceSets(cfg, KEEP_PLL, v, PLLHSEPRES);
    ReplaceSets(cfg, KEEP_PLL, v, PLLMULFCT);
    PreField(pllhsipre, pre, div);
  }

  lemma PreField(w: word, pre: word, div: word)
    requires (pre == 0 || pre == 1) && (div == 0 || div == 2)
    ensures Masked(ConfigPllPre(w, pre, div), PLLHSIPRE) == pre
    ensures Masked(ConfigPllPre(w, pre, div), PLLSRCDIV) == div
  {}

  // ---------------------------------------------------------------- the multiplier

  function Up18(n: word): word {
    n << 18
  }

  function Down18(w: word): word {
    w >> 18
  }

  function Word(n: int): word
    requires 0 <= n <= 15
  {
    n as word
  }

  function Value(w: word): int {
    w as int
  }

  /** Multipliers 2 to 16 use four bits; 17 to 32 use the same four bits and bit 27. */
  function MulField(mul: int): word
    requires 2 <= mul <= 32
  {
    if mul <= 16 then Up18(Word(mul - 2)) else With(Up18(Word(mul - 17)), PLLMULFCT_4)
  }

  /** The decoding in `SystemCoreClockUpdate`. */
  function DecodeMul(field: word): int {
    if Masked(field, PLLMULFCT_4) == 0 then Value(Down18(field)) + 2 else Value(Down18(field)) - 496 + 1
  }

  /** The four codes at the ends of the two ranges; sixteen also has a second code the encoder never uses. */
  lemma MulCodes()
    ensures MulField(2) == 0 && MulField(16) == 0x0038_0000
    ensures MulField(17) == 0x0800_0000 && MulField(32) == 0x083C_0000
    ensures DecodeMul(0x003C_0000) == 17
  {}

  lemma WordValue(n: int)
    requires 0 <= n <= 15
    ensures Value(Word(n)) == n
  {}

  lemma SmallWord(n: int)
    requires 0 <= n <= 15
    ensures Word(n) <= 15
    ensures n <= 14 ==> Word(n) <= 14
  {}

  lemma WithValue(n: word)
    requires n <= 15
    ensures Value(With(n, 512)) == Value(n) + 512
  {
    assert With(n, 512) == n + 512;
  }

  lemma LowMul(n: word)
    requires n <= 14
    ensures Inside(Up18(n), PLLMULFCT) && Masked(Up18(n), PLLMULFCT_4) == 0 && Down18(Up18(n)) == n
  {}

  lemma HighMul(n: word)
    requires n <= 15
    ensures Inside(With(Up18(n), PLLMULFCT_4), PLLMULFCT) && Masked(With(Up18(n), PLLMULFCT_4), PLLMULFCT_4) != 0
    ensures Down18(With(Up18(n), PLLMULFCT_4)) == With(n, 512)
  {}

  lemma MulRoundTrip(mul: int)
    requires 2 <= mul <= 32
    ensures Inside(MulField(mul), PLLMULFCT)
    ensures DecodeMul(MulField(mul)) == mul
  {
    hide Up18, Down18, Word, Value, Masked, With;
    if mul <= 16 {
      SmallWord(mul - 2);
      WordValue(mul - 2);
      LowMul(Word(mul - 2));
    } else {
      SmallWord(mul - 17);
      WordValue(mul - 17);
      HighMul(Word(mul - 17));
      WithValue(Word(mul - 17));
    }
  }
}
