/** What the clock registers mean: the frequencies they select, the limits those must keep,
    and the sequences of writes that `set_sysclock_to_pll` and `SetSysClock` make. */
module ClockTree {
  import opened Arithmetic
  import opened BitWords
  import opened ClockRegisters

  const HSI_VALUE := 16_000_000
  const HSE_VALUE := 8_000_000

  datatype Source =
    Hsi | HsiDiv2 | HsiPllDiv2 | HsiDiv2PllDiv2 | Hse | HseDiv2 | HsePllDiv2 | HseDiv2PllDiv2

  // ---------------------------------------------------------------- meaning of the registers

  /** The registers with their fields picked out. */
  datatype Clocks = Clocks(f: Fields, pllOn: bool, latency: nat, msiReady: bool, msiRange: nat)

  function Abs(r: Regs): Clocks {
    Clocks(View(r.cfg, r.pllhsipre), r.pllOn, r.latency, r.msiReady, r.msiRange)
  }

  const STS_MSI: word := 0x0
  const STS_HSI: word := 0x4
  const STS_HSE: word := 0x8
  const STS_PLL: word := 0xC

  /** `MSIClockTable`; the library only ever writes ranges 0 to 6. */
  function MsiHz(range: nat): nat {
    if range == 0 then 100_000 else if range == 1 then 200_000 else if range == 2 then 400_000
    else if range == 3 then 800_000 else if range == 4 then 1_000_000 else if range == 5 then 2_000_000
    else 4_000_000
  }

  /** `AHBPrescTable`, indexed by the field in place. */
  function AhbShift(ahb: word): nat {
    if ahb == 0x80 then 1 else if ahb == 0x90 then 2 else if ahb == 0xA0 then 3 else if ahb == 0xB0 then 4
    else if ahb == 0xC0 then 6 else if ahb == 0xD0 then 7 else if ahb == 0xE0 then 8 else if ahb == 0xF0 then 9
    else 0
  }

  function Apb1Div(apb1: word): nat {
    if apb1 == 0x400 then 2 else if apb1 == 0x500 then 4 else if apb1 == 0x600 then 8 else if apb1 == 0x700 then 16
    else 1
  }

  function Apb2Div(apb2: word): nat {
    if apb2 == 0x2000 then 2 else if apb2 == 0x2800 then 4 else if apb2 == 0x3000 then 8 else if apb2 == 0x3800 then 16
    else 1
  }

  /** The PLL as the register documentation describes it: the HSI has its own pre-divider, the HSE another,
      and either result may be halved again before it is multiplied. */
  function PllInputHz(f: Fields): int {
    (if f.pllsrc == 0 then HSI_VALUE / (if f.hsipre == 0 then 1 else 2)
     else HSE_VALUE / (if f.hsepre == 0 then 1 else 2)) / (if f.srcdiv == 0 then 1 else 2)
  }

  function PllHz(f: Fields): int {
    PllInputHz(f) * DecodeMul(f.mul)
  }

  function SysclkHz(c: Clocks): int {
    if c.f.sts == STS_PLL then PllHz(c.f)
    else if c.f.sts == STS_HSI then HSI_VALUE
    else if c.f.sts == STS_HSE then HSE_VALUE
    else MsiHz(c.msiRange)
  }

  /** The PLL branch of `SystemCoreClockUpdate`: for the HSI it tests the halving bit twice and never the pre-divider. */
  function DecodePll(f: Fields): int {
    var mul := DecodeMul(f.mul);
    var hz := if f.pllsrc == 0 then (if f.srcdiv != 0 then HSI_VALUE / 2 * mul else HSI_VALUE * mul)
              else (if f.hsepre != 0 then HSE_VALUE / 2 * mul else HSE_VALUE * mul);
    if f.srcdiv == 2 then hz / 2 else hz
  }

  function DecodeSysclk(c: Clocks): int {
    if c.f.sts == STS_HSI then HSI_VALUE
    else if c.f.sts == STS_HSE then HSE_VALUE
    else if c.f.sts == STS_PLL then DecodePll(c.f)
    else MsiHz(c.msiRange)
  }

  function Decode(c: Clocks): int {
    DecodeSysclk(c) / Pow2(AhbShift(c.f.ahb))
  }

  /** Every field is inside its own bits. */
  predicate WellFormed(f: Fields) {
    && (f.pllsrc == 0 || f.pllsrc == 0x0001_0000)
    && (f.hsepre == 0 || f.hsepre == 0x0002_0000)
    && (f.hsipre == 0 || f.hsipre == 1)
    && (f.srcdiv == 0 || f.srcdiv == 2)
    && 2 <= DecodeMul(f.mul) <= 32
  }

  lemma ViewWellFormed(cfg: word, pllhsipre: word)
    ensures WellFormed(View(cfg, pllhsipre))
  {
    FlagFields(cfg, pllhsipre);
    MulFieldRange(cfg);
  }

  lemma FlagFields(cfg: word, pllhsipre: word)
    ensures Masked(cfg, PLLSRC) == 0 || Masked(cfg, PLLSRC) == 0x0001_0000
    ensures Masked(cfg, PLLHSEPRES) == 0 || Masked(cfg, PLLHSEPRES) == 0x0002_0000
    ensures Masked(pllhsipre, PLLHSIPRE) == 0 || Masked(pllhsipre, PLLHSIPRE) == 1
    ensures Masked(pllhsipre, PLLSRCDIV) == 0 || Masked(pllhsipre, PLLSRCDIV) == 2
  {}

  lemma MulFieldBits(cfg: word)
    ensures Masked(Masked(cfg, PLLMULFCT), PLLMULFCT_4) == 0 ==> Down18(Masked(cfg, PLLMULFCT)) <= 15
    ensures Masked(Masked(cfg, PLLMULFCT), PLLMULFCT_4) != 0 ==> 512 <= Down18(Masked(cfg, PLLMULFCT)) <= 527
  {}

  lemma SmallValue(w: word)
    ensures w <= 15 ==> 0 <= Value(w) <= 15
    ensures 512 <= w <= 527 ==> 512 <= Value(w) <= 527
  {}

  /** The multiplier field always decodes into 2..32, with no wrap in the subtraction of 496; sixteen is
      reached by two codes. */
  lemma MulFieldRange(cfg: word)
    ensures 2 <= DecodeMul(Masked(cfg, PLLMULFCT)) <= 32
  {
    hide Masked, Down18, Value;
    MulFieldBits(cfg);
    SmallValue(Down18(Masked(cfg, PLLMULFCT)));
  }

  /** Over all register contents: with the PLL selected, the decoder returns the frequency that is running exactly
      when the PLL runs from the HSE or its two HSI dividers are both on or both off. Otherwise it is off by two. */
  lemma DecodeCorrectIff(c: Clocks)
    requires WellFormed(c.f) && c.f.sts == STS_PLL
    ensures DecodeSysclk(c) == SysclkHz(c) <==> c.f.pllsrc != 0 || (c.f.hsipre != 0 <==> c.f.srcdiv != 0)
    ensures c.f.pllsrc == 0 && c.f.hsipre != 0 && c.f.srcdiv == 0 ==> DecodeSysclk(c) == 2 * SysclkHz(c)
    ensures c.f.pllsrc == 0 && c.f.hsipre == 0 && c.f.srcdiv != 0 ==> 2 * DecodeSysclk(c) == SysclkHz(c)
  {
    var mul := DecodeMul(c.f.mul);
    assert PllInputHz(c.f) == 16_000_000 || PllInputHz(c.f) == 8_000_000 || PllInputHz(c.f) == 4_000_000
      || PllInputHz(c.f) == 2_000_000;
    assert HSI_VALUE / 2 * mul == 8_000_000 * mul && 8_000_000 * mul / 2 == 4_000_000 * mul;
    assert HSE_VALUE / 2 * mul == 4_000_000 * mul && 4_000_000 * mul / 2 == 2_000_000 * mul;
  }

  /** Off the PLL the decoder always agrees, and these are the frequencies. */
  lemma DecodeOffPll(c: Clocks)
    requires c.f.sts == 0 || c.f.sts == 0x4 || c.f.sts == 0x8
    ensures DecodeSysclk(c) == SysclkHz(c)
    ensures c.f.sts == 0x4 ==> SysclkHz(c) == 16_000_000
    ensures c.f.sts == 0x8 ==> SysclkHz(c) == 8_000_000
    ensures c.f.sts == 0 && c.msiRange <= 6
            ==> SysclkHz(c) == [100_000, 200_000, 400_000, 800_000, 1_000_000, 2_000_000, 4_000_000][c.msiRange]
  {}

  /** What the bus divider codes mean: HCLK is SYSCLK by a power of two up to 512, where 32 is left out; each APB code
      is a power of two up to 16. */
  lemma HclkDivider(c: Clocks)
    ensures var hz, ahb := DecodeSysclk(c), c.f.ahb;
            && (ahb == 0x80 ==> Decode(c) == hz / 2) && (ahb == 0x90 ==> Decode(c) == hz / 4)
            && (ahb == 0xA0 ==> Decode(c) == hz / 8) && (ahb == 0xB0 ==> Decode(c) == hz / 16)
            && (ahb == 0xC0 ==> Decode(c) == hz / 64) && (ahb == 0xD0 ==> Decode(c) == hz / 128)
            && (ahb == 0xE0 ==> Decode(c) == hz / 256) && (ahb == 0xF0 ==> Decode(c) == hz / 512)
            && (ahb < 0x80 ==> Decode(c) == hz)
  {
    hide DecodeSysclk;
    assert Pow2(2) == 4 && Pow2(4) == 16 && Pow2(6) == 64;
    assert Pow2(7) == 128 && Pow2(8) == 256 && Pow2(9) == 512;
  }

  lemma ApbDividers(code: word)
    ensures code == 0x4 || code == 0x5 || code == 0x6 || code == 0x7
            ==> Apb1Div(code << 8) == Apb2Div(code << 11) == Pow2((code - 3) as nat)
    ensures code <= 3 ==> Apb1Div(code << 8) == Apb2Div(code << 11) == 1
  {
    assert Pow2(2) == 4 && Pow2(4) == 16;
  }

  // ---------------------------------------------------------------- limits

  predicate Within(hz: int, divider: nat, limit: int) {
    hz <= limit * divider
  }

  /** HCLK within the flash wait states, PCLK1 at most 27 MHz, PCLK2 at most 54 MHz. */
  predicate Safe(c: Clocks) {
    var ahb := Pow2(AhbShift(c.f.ahb));
    && Within(SysclkHz(c), ahb, 32_000_000 * (c.latency + 1))
    && Within(SysclkHz(c), ahb * Apb1Div(c.f.apb1), 27_000_000)
    && Within(SysclkHz(c), ahb * Apb2Div(c.f.apb2), 54_000_000)
  }

  /** The same in numbers for an undivided HCLK, which is the only one the two routines set. */
  lemma SafeInNumbers(c: Clocks)
    requires c.f.ahb == 0
    ensures Safe(c) <==> && SysclkHz(c) <= 32_000_000 + 32_000_000 * c.latency
                         && SysclkHz(c) <= 27_000_000 * Apb1Div(c.f.apb1) && SysclkHz(c) <= 54_000_000 * Apb2Div(c.f.apb2)
  {}

  // ---------------------------------------------------------------- writes

  datatype Write =
    | Msi(on: bool)
    | Sysclk(sw: word)
    | Latency(n: nat)
    | Hclk(div: word)
    | Pclk1(div: word)
    | Pclk2(div: word)
    | PllEnable(on: bool)
    | Pll(src: word, mul: word, div: word)

  function StatusOf(sw: word): word {
    if sw == 0 then STS_MSI else if sw == 1 then STS_HSI else if sw == 2 then STS_HSE else STS_PLL
  }

  /** The status field names the same source as the switch field, two bits higher. */
  lemma StatusFollowsSwitch(sw: word)
    ensures sw <= 3 ==> StatusOf(sw) == sw << 2
  {}

  /** `RCC_ConfigPll` */
  function ConfigPll(r: Regs, src: word, mul: word, div: word): Regs {
    if src == 0 || src == 1 then
      r.(cfg := Replace(r.cfg, KEEP_PLL, mul), pllhsipre := Replace(r.pllhsipre, KEEP_PRE, With(src, div)))
    else
      r.(cfg := Replace(r.cfg, KEEP_PLL, With(src, mul)), pllhsipre := Replace(r.pllhsipre, KEEP_PRE, div))
  }

  /** The registers after one library call. */
  function Apply(r: Regs, w: Write): Regs {
    match w
    case Msi(on) => r.(msiReady := on, msiRange := 6)
    case Sysclk(sw) => r.(cfg := SelectSysclk(r.cfg, sw, StatusOf(sw)))
    case Latency(n) => r.(latency := n)
    case Hclk(div) => r.(cfg := ConfigHclk(r.cfg, div))
    case Pclk1(div) => r.(cfg := ConfigPclk1(r.cfg, div))
    case Pclk2(div) => r.(cfg := ConfigPclk2(r.cfg, div))
    case PllEnable(on) => r.(pllOn := on)
    case Pll(src, mul, div) => ConfigPll(r, src, mul, div)
  }

  /** The same call on the fields. */
  function Step(c: Clocks, w: Write): Clocks {
    match w
    case Msi(on) => c.(msiReady := on, msiRange := 6)
    case Sysclk(sw) => c.(f := c.f.(sts := StatusOf(sw)))
    case Latency(n) => c.(latency := n)
    case Hclk(div) => c.(f := c.f.(ahb := div))
    case Pclk1(div) => c.(f := c.f.(apb1 := div))
    case Pclk2(div) => c.(f := c.f.(apb2 := Up3(div)))
    case PllEnable(on) => c.(pllOn := on)
    case Pll(src, mul, div) =>
      c.(f := c.f.(pllsrc := if src == 0 || src == 1 then 0 else PLLSRC,
                   hsepre := if src == 0x0003_0000 then PLLHSEPRES else 0,
                   mul := mul,
                   hsipre := if src == 1 then 1 else 0,
                   srcdiv := div))
  }

  /** The arguments the library accepts and these two routines use. */
  predicate Legal(w: Write) {
    match w
    case Msi(_) => true
    case Sysclk(sw) => sw == 0 || sw == 1 || sw == 2 || sw == 3
    case Latency(_) => true
    case Hclk(div) => div == 0
    case Pclk1(div) => div == 0 || div == 0x400 || div == 0x500
    case Pclk2(div) => div == 0 || div == 0x400
    case PllEnable(_) => true
    case Pll(src, mul, div) =>
      (src == 0 || src == 1 || src == 0x0001_0000 || src == 0x0003_0000) && Inside(mul, PLLMULFCT) && (div == 0 || div == 2)
  }

  lemma ArgumentMasks(sw: word, pclk1: word, pclk2: word)
    ensures sw == 0 || sw == 1 || sw == 2 || sw == 3 ==> Inside(sw, SCLKSW) && Inside(StatusOf(sw), SCLKSTS)
    ensures Inside(0, AHBPRES)
    ensures pclk1 == 0 || pclk1 == 0x400 || pclk1 == 0x500 ==> Inside(pclk1, APB1PRES)
    ensures pclk2 == 0 || pclk2 == 0x400 ==> Inside(Up3(pclk2), APB2PRES)
  {}

  lemma SourceMasks()
    ensures Masked(0, PLLSRC) == 0 && Masked(0, PLLHSEPRES) == 0
    ensures Masked(0x0001_0000, PLLSRC) == PLLSRC && Masked(0x0001_0000, PLLHSEPRES) == 0
    ensures Masked(0x0003_0000, PLLSRC) == PLLSRC && Masked(0x0003_0000, PLLHSEPRES) == PLLHSEPRES
  {}

  lemma WithNothing(w: word)
    ensures With(0, w) == w
  {}

  lemma SysclkMeansStep(r: Regs, sw: word)
    requires Legal(Sysclk(sw))
    ensures Abs(Apply(r, Sysclk(sw))) == Step(Abs(r), Sysclk(sw))
  {
    hide View, SelectSysclk, Masked, With, Inside;
    ArgumentMasks(sw, 0, 0);
    SelectSysclkView(r.cfg, r.pllhsipre, sw, StatusOf(sw));
  }

  lemma DividersMeanStep(r: Regs, w: Write)
    requires Legal(w) && (w.Hclk? || w.Pclk1? || w.Pclk2?)
    ensures Abs(Apply(r, w)) == Step(Abs(r), w)
  {
    hide View, ConfigHclk, ConfigPclk1, ConfigPclk2, Up3, Masked, With, Inside;
    if w.Hclk? {
      ArgumentMasks(0, 0, 0);
      ConfigHclkView(r.cfg, r.pllhsipre, w.div);
    } else if w.Pclk1? {
      ArgumentMasks(0, w.div, 0);
      ConfigPclk1View(r.cfg, r.pllhsipre, w.div);
    } else {
      ArgumentMasks(0, 0, w.div);
      ConfigPclk2View(r.cfg, r.pllhsipre, w.div);
    }
  }

  lemma PllMeansStep(r: Regs, src: word, mul: word, div: word)
    requires Legal(Pll(src, mul, div))
    ensures Abs(Apply(r, Pll(src, mul, div))) == Step(Abs(r), Pll(src, mul, div))
  {
    hide View, Masked, With, Inside, Replace;
    SourceMasks();
    WithNothing(mul);
    WithNothing(div);
    if src == 0 || src == 1 {
      ConfigPllView(r.cfg, r.pllhsipre, 0, mul, src, div);
    } else {
      ConfigPllView(r.cfg, r.pllhsipre, src, mul, 0, div);
    }
  }

  /** Every call changes the fields it is meant to and no others. */
  lemma ApplyMeansStep(r: Regs, w: Write)
    requires Legal(w)
    ensures Abs(Apply(r, w)) == Step(Abs(r), w)
  {
    match w
    case Sysclk(sw) => hide View, Legal, Apply, Step, Abs; SysclkMeansStep(r, sw);
    case Pll(src, mul, div) => hide View, Legal, Apply, Step, Abs; PllMeansStep(r, src, mul, div);
    case Hclk(_) => hide View, Legal, Apply, Step, Abs; DividersMeanStep(r, w);
    case Pclk1(_) => hide View, Legal, Apply, Step, Abs; DividersMeanStep(r, w);
    case Pclk2(_) => hide View, Legal, Apply, Step, Abs; DividersMeanStep(r, w);
    case _ => hide View, Legal;
  }

  function Run(r: Regs, ws: seq<Write>): Regs
    decreases |ws|
  {
    if ws == [] then r else Apply(Run(r, ws[..|ws| - 1]), ws[|ws| - 1])
  }

  function After(c: Clocks, ws: seq<Write>): Clocks
    decreases |ws|
  {
    if ws == [] then c else Step(After(c, ws[..|ws| - 1]), ws[|ws| - 1])
  }

  predicate AllLegal(ws: seq<Write>) {
    forall i :: 0 <= i < |ws| ==> Legal(ws[i])
  }

  lemma {:induction false} RunMeansAfter(r: Regs, ws: seq<Write>)
    requires AllLegal(ws)
    ensures Abs(Run(r, ws)) == After(Abs(r), ws)
    decreases |ws|
  {
    hide Apply, Step, Abs, Legal;
    if ws != [] {
      RunMeansAfter(r, ws[..|ws| - 1]);
      ApplyMeansStep(Run(r, ws[..|ws| - 1]), ws[|ws| - 1]);
    }
  }

  lemma RunOneMore(r: Regs, ws: seq<Write>, w: Write)
    ensures Run(r, ws + [w]) == Apply(Run(r, ws), w) && Run(r, []) == r
  {
    hide Apply;
    assert (ws + [w])[..|ws|] == ws;
  }

  lemma {:induction false} RunsConcatenate(r: Regs, xs: seq<Write>, ys: seq<Write>)
    ensures Run(r, xs + ys) == Run(Run(r, xs), ys)
    decreases |ys|
  {
    hide Apply;
    if ys == [] {
      assert xs + ys == xs;
    } else {
      RunsConcatenate(r, xs, ys[..|ys| - 1]);
      assert (xs + ys)[..|xs + ys| - 1] == xs + ys[..|ys| - 1];
    }
  }
}
