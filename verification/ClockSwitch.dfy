/** The two switching sequences as runs of library calls: what they leave running, what the decoder
    makes of it, and that every state on the way keeps the limits. */
module ClockSwitch {
  import opened Arithmetic
  import opened BitWords
  import opened ClockRegisters
  import opened ClockTree

  // ---------------------------------------------------------------- sound runs

  /** The PLL is switched off or reprogrammed only when it is not the system clock and, to be reprogrammed, is off;
      an oscillator is selected only when it runs; the MSI is stopped only when it is not selected. */
  predicate Allowed(c: Clocks, w: Write) {
    match w
    case Msi(on) => on || c.f.sts != STS_MSI
    case Sysclk(sw) => (sw == 0 ==> c.msiReady) && (sw == 3 ==> c.pllOn)
    case PllEnable(on) => on || c.f.sts != STS_PLL
    case Pll(_, _, _) => !c.pllOn && c.f.sts != STS_PLL
    case _ => true
  }

  predicate Sound(c: Clocks, ws: seq<Write>)
    decreases |ws|
  {
    ws == [] || (var front := ws[..|ws| - 1];
                 Sound(c, front) && Allowed(After(c, front), ws[|ws| - 1]) && Safe(After(c, ws)))
  }

  /** What soundness says of each single call. */
  lemma {:induction false} SoundAtEveryCall(c: Clocks, ws: seq<Write>, k: nat)
    requires Sound(c, ws) && k < |ws|
    ensures Allowed(After(c, ws[..k]), ws[k]) && Safe(After(c, ws[..k + 1]))
    decreases |ws|
  {
    hide Allowed, Safe, Step;
    var front := ws[..|ws| - 1];
    if k == |ws| - 1 {
      assert ws[..k + 1] == ws;
    } else {
      SoundAtEveryCall(c, front, k);
      assert front[..k] == ws[..k] && front[..k + 1] == ws[..k + 1];
    }
  }

  lemma OneMore(c: Clocks, ws: seq<Write>, w: Write)
    ensures After(c, ws + [w]) == Step(After(c, ws), w)
    ensures Sound(c, ws + [w]) <==> Sound(c, ws) && Allowed(After(c, ws), w) && Safe(Step(After(c, ws), w))
  {
    hide Allowed, Safe, Step;
    assert (ws + [w])[..|ws|] == ws;
  }

  lemma {:induction false} RunsJoin(c: Clocks, xs: seq<Write>, ys: seq<Write>)
    ensures After(c, xs + ys) == After(After(c, xs), ys)
    decreases |ys|
  {
    hide Step;
    if ys == [] {
      assert xs + ys == xs;
    } else {
      var front := ys[..|ys| - 1];
      RunsJoin(c, xs, front);
      assert (xs + ys)[..|xs + ys| - 1] == xs + front;
    }
  }

  /** On the MSI every limit holds, whatever the dividers and the wait states. */
  lemma MsiIsSafe(c: Clocks)
    requires c.f.sts == STS_MSI
    ensures Safe(c)
  {
    var ahb := Pow2(AhbShift(c.f.ahb));
    MulMono(32_000_000, 32_000_000 * (c.latency + 1), 1, ahb);
    MulMono(1, ahb, 1, Apb1Div(c.f.apb1));
    MulMono(1, ahb, 1, Apb2Div(c.f.apb2));
  }

  // ---------------------------------------------------------------- set_sysclock_to_pll

  function SrcWord(src: Source): word {
    match src
    case Hsi => 0
    case HsiPllDiv2 => 0
    case HsiDiv2 => 1
    case HsiDiv2PllDiv2 => 1
    case Hse => 0x0001_0000
    case HsePllDiv2 => 0x0001_0000
    case HseDiv2 => 0x0003_0000
    case HseDiv2PllDiv2 => 0x0003_0000
  }

  function DivWord(src: Source): word {
    if src == HsiPllDiv2 || src == HsiDiv2PllDiv2 || src == HsePllDiv2 || src == HseDiv2PllDiv2 then 2 else 0
  }

  function PllInput(src: Source): (hz: int)
    ensures hz > 0
  {
    match src
    case Hsi => HSI_VALUE
    case HsiDiv2 => HSI_VALUE / 2
    case HsiPllDiv2 => HSI_VALUE / 2
    case HsiDiv2PllDiv2 => HSI_VALUE / 4
    case Hse => HSE_VALUE
    case HseDiv2 => HSE_VALUE / 2
    case HsePllDiv2 => HSE_VALUE / 2
    case HseDiv2PllDiv2 => HSE_VALUE / 4
  }

  predicate Reachable(freq: nat, input: int)
    requires input > 0
  {
    freq % input == 0 && 2 <= freq / input <= 32
  }

  predicate Accepted(freq: nat, src: Source) {
    Reachable(freq, PllInput(src))
  }

  /** The multiplier test accepts exactly the 31 multiples of the source's input frequency from 2 to 32. */
  lemma AcceptedIff(freq: nat, src: Source, m: int)
    requires freq == m * PllInput(src)
    ensures Accepted(freq, src) <==> 2 <= m <= 32
    ensures PllInput(src) == (if src == Hsi then 16_000_000 else if src in {HsiDiv2, HsiPllDiv2, Hse} then 8_000_000
                              else if src == HseDiv2PllDiv2 then 2_000_000 else 4_000_000)
  {
    var hz := PllInput(src);
    assert freq == m * hz;
    hide PllInput;
    UniqueDivision(freq, hz, m, 0);
  }

  lemma AcceptedIsMultiple(freq: nat, src: Source)
    ensures Accepted(freq, src) ==> freq == (freq / PllInput(src)) * PllInput(src)
  {}

  function Pclk1Word(freq: nat): word {
    if freq > 54_000_000 then 0x500 else if freq > 27_000_000 then 0x400 else 0
  }

  function Pclk2Word(freq: nat): word {
    if freq > 54_000_000 then 0x400 else 0
  }

  /** Wait states, bus dividers. */
  function Prepare(latency: nat, freq: nat): seq<Write> {
    [Latency(latency), Hclk(0), Pclk2(Pclk2Word(freq)), Pclk1(Pclk1Word(freq))]
  }

  function Relock(src: word, mul: word, div: word): seq<Write> {
    [Pll(src, mul, div), PllEnable(true), Sysclk(3)]
  }

  /** The MSI is started if it is not running, and stopped again at the end in that case. */
  function StartMsi(ready: bool): seq<Write> {
    if ready then [] else [Msi(true)]
  }

  function StopMsi(ready: bool): seq<Write> {
    if ready then [] else [Msi(false)]
  }

  function Switch(freq: nat, src: Source, ready: bool): seq<Write>
    requires Accepted(freq, src)
  {
    [Sysclk(0)] + Prepare(freq / 32_000_000, freq) + [PllEnable(false)]
    + Relock(SrcWord(src), MulField(freq / PllInput(src)), DivWord(src)) + StopMsi(ready)
  }

  /** The fields once the wait states and dividers are set. */
  function Prepared(c: Clocks, latency: nat, freq: nat): Clocks {
    c.(latency := latency, f := c.f.(ahb := 0, apb1 := Pclk1Word(freq), apb2 := Up3(Pclk2Word(freq))))
  }

  function Relocked(c: Clocks, src: word, mul: word, div: word): Clocks {
    Step(Step(Step(c, Pll(src, mul, div)), PllEnable(true)), Sysclk(3))
  }

  /** On the MSI the preparation is sound from any sound prefix. */
  lemma PrepareSound(c: Clocks, ws: seq<Write>, latency: nat, freq: nat)
    requires After(c, ws).f.sts == STS_MSI
    ensures After(c, ws + Prepare(latency, freq)) == Prepared(After(c, ws), latency, freq)
    ensures Sound(c, ws + Prepare(latency, freq)) <==> Sound(c, ws)
  {
    hide Safe, Sound, After, Pclk1Word, Pclk2Word;
    var w1, w2, w3, w4 := Latency(latency), Hclk(0), Pclk2(Pclk2Word(freq)), Pclk1(Pclk1Word(freq));
    var p1 := ws + [w1];
    var p2 := p1 + [w2];
    var p3 := p2 + [w3];
    var p4 := p3 + [w4];
    assert p4 == ws + Prepare(latency, freq);
    OneMore(c, ws, w1);
    OneMore(c, p1, w2);
    OneMore(c, p2, w3);
    OneMore(c, p3, w4);
    MsiIsSafe(After(c, p1));
    MsiIsSafe(After(c, p2));
    MsiIsSafe(After(c, p3));
    MsiIsSafe(After(c, p4));
  }

  /** With the PLL off and the MSI selected, relocking is sound exactly when the state it ends in is safe. */
  lemma RelockSound(c: Clocks, ws: seq<Write>, src: word, mul: word, div: word)
    requires After(c, ws).f.sts == STS_MSI && !After(c, ws).pllOn
    ensures After(c, ws + Relock(src, mul, div)) == Relocked(After(c, ws), src, mul, div)
    ensures Sound(c, ws + Relock(src, mul, div))
            <==> Sound(c, ws) && Safe(Relocked(After(c, ws), src, mul, div))
  {
    hide Safe, Sound, After;
    var w1, w2, w3 := Pll(src, mul, div), PllEnable(true), Sysclk(3);
    var p1 := ws + [w1];
    var p2 := p1 + [w2];
    assert p2 + [w3] == ws + Relock(src, mul, div);
    OneMore(c, ws, w1);
    OneMore(c, p1, w2);
    OneMore(c, p2, w3);
    MsiIsSafe(After(c, p1));
    MsiIsSafe(After(c, p2));
  }

  /** No bus divider is larger than its limit needs. */
  predicate LeastDividers(c: Clocks, freq: nat) {
    && (Apb1Div(c.f.apb1) == 1 || freq > 27_000_000 * Apb1Div(c.f.apb1) / 2)
    && (Apb2Div(c.f.apb2) == 1 || freq > 54_000_000 * Apb2Div(c.f.apb2) / 2)
  }

  /** The limits at the target frequency: the dividers stop helping above 108 MHz. */
  lemma LimitsIff(c: Clocks, freq: nat, latency: nat)
    requires c.f.ahb == 0 && c.f.apb1 == Pclk1Word(freq) && c.f.apb2 == Up3(Pclk2Word(freq))
    requires c.latency == latency && SysclkHz(c) == freq && freq <= 32_000_000 * (latency + 1)
    ensures Safe(c) <==> freq <= 108_000_000
    ensures LeastDividers(c, freq)
  {
    hide SysclkHz;
    assert Up3(0x400) == 0x2000 && Up3(0) == 0;
    assert Apb1Div(c.f.apb1) == if freq > 54_000_000 then 4 else if freq > 27_000_000 then 2 else 1;
    assert Apb2Div(c.f.apb2) == if freq > 54_000_000 then 2 else 1;
  }

  /** The frequency at the multiplier for one setting of the source and halving arguments. */
  function InputOf(src: word, div: word): int {
    (if src == 0 || src == 1 then HSI_VALUE else HSE_VALUE) / (if src == 1 || src == 0x0003_0000 then 2 else 1)
    / (if div == 2 then 2 else 1)
  }

  predicate IsSource(src: word, div: word) {
    (src == 0 || src == 1 || src == 0x0001_0000 || src == 0x0003_0000) && (div == 0 || div == 2)
  }

  /** The PLL field codec: the written source, multiplier and divider run the PLL at input times multiplier. */
  lemma RelockedHz(c: Clocks, src: word, mul: int, div: word)
    requires IsSource(src, div) && 2 <= mul <= 32
    ensures var e := Relocked(c, src, MulField(mul), div);
            && e.f.sts == STS_PLL && e.latency == c.latency && e.msiReady == c.msiReady
            && e.f.ahb == c.f.ahb && e.f.apb1 == c.f.apb1 && e.f.apb2 == c.f.apb2
            && WellFormed(e.f) && SysclkHz(e) == InputOf(src, div) * mul
            && (e.f.pllsrc == 0 <==> src == 0 || src == 1)
            && (e.f.hsipre != 0 <==> src == 1) && (e.f.srcdiv != 0 <==> div == 2)
  {
    hide MulField, DecodeMul;
    MulRoundTrip(mul);
  }

  lemma SourceWords(src: Source)
    ensures IsSource(SrcWord(src), DivWord(src)) && InputOf(SrcWord(src), DivWord(src)) == PllInput(src)
    ensures SrcWord(src) == 0 || SrcWord(src) == 1 <==> src in {Hsi, HsiDiv2, HsiPllDiv2, HsiDiv2PllDiv2}
    ensures SrcWord(src) == 1 <==> src in {HsiDiv2, HsiDiv2PllDiv2}
    ensures SrcWord(src) == 0 || SrcWord(src) == 1 ==> (DivWord(src) == 2 <==> src in {HsiPllDiv2, HsiDiv2PllDiv2})
  {}

  lemma Product(freq: nat, input: int)
    requires input > 0 && Reachable(freq, input)
    ensures freq / input * input == freq
  {}

  ghost predicate RunsAt(c: Clocks, freq: nat) {
    c.f.sts == STS_PLL && SysclkHz(c) == freq
  }

  /** Every accepted request, from any prior clocks: starting with the selection of the MSI, every call is allowed and
      leaves a state within the limits exactly when the target is at most 108 MHz; the PLL then runs at the target, with
      no bus divided more than needed and at most one wait state more. */
  lemma SwitchIsSound(c: Clocks, freq: nat, src: Source, ready: bool)
    requires Accepted(freq, src) && c.msiReady
    ensures Sound(c, Switch(freq, src, ready)) <==> freq <= 108_000_000
    ensures RunsAt(After(c, Switch(freq, src, ready)), freq)
    ensures var e := After(c, Switch(freq, src, ready));
            && WellFormed(e.f) && e.f.ahb == 0 && e.msiReady == ready
            && 32_000_000 * e.latency <= freq < 32_000_000 * (e.latency + 1) && LeastDividers(e, freq)
            && (e.f.pllsrc == 0 <==> src in {Hsi, HsiDiv2, HsiPllDiv2, HsiDiv2PllDiv2})
            && (e.f.pllsrc == 0 ==> ((e.f.hsipre != 0 <==> src in {HsiDiv2, HsiDiv2PllDiv2})
                                     && (e.f.srcdiv != 0 <==> src in {HsiPllDiv2, HsiDiv2PllDiv2})))
  {
    hide Safe, Sound, After, Prepare, Relock, Relocked, MulField, DecodeMul, Pclk1Word, Pclk2Word, Slowed;
    hide SrcWord, DivWord, InputOf, PllInput, SysclkHz, WellFormed, LeastDividers;
    var latency, mul := freq / 32_000_000, freq / PllInput(src);
    var p3 := Slowed(latency, freq);
    var p4 := p3 + Relock(SrcWord(src), MulField(mul), DivWord(src));
    SlowedSound(c, latency, freq);
    RelockSound(c, p3, SrcWord(src), MulField(mul), DivWord(src));
    SourceWords(src);
    RelockedHz(After(c, p3), SrcWord(src), mul, DivWord(src));
    Product(freq, PllInput(src));
    LimitsIff(After(c, p4), freq, latency);
    SwitchParts(freq, src, ready);
    if !ready {
      OneMore(c, p4, Msi(false));
      MsiStopKeeps(After(c, p4));
      SameDividers(After(c, p4), After(c, p4 + [Msi(false)]), freq);
    }
  }

  lemma SameDividers(c: Clocks, d: Clocks, freq: nat)
    requires c.f == d.f
    ensures LeastDividers(c, freq) == LeastDividers(d, freq)
  {}

  /** The first half of a switch: onto the MSI, wait states and dividers, PLL off. */
  function Slowed(latency: nat, freq: nat): seq<Write> {
    [Sysclk(0)] + Prepare(latency, freq) + [PllEnable(false)]
  }

  lemma SlowedSound(c: Clocks, latency: nat, freq: nat)
    requires c.msiReady
    ensures Sound(c, Slowed(latency, freq))
    ensures var e := After(c, Slowed(latency, freq));
            && e.f.sts == STS_MSI && !e.pllOn && e.latency == latency && e.msiReady
            && e.f.ahb == 0 && e.f.apb1 == Pclk1Word(freq) && e.f.apb2 == Up3(Pclk2Word(freq))
  {
    hide Safe, Sound, After, Prepare, Pclk1Word, Pclk2Word, Up3;
    var p0: seq<Write> := [];
    var p1 := p0 + [Sysclk(0)];
    var p2 := p1 + Prepare(latency, freq);
    EmptyRun(c);
    OneMore(c, p0, Sysclk(0));
    MsiIsSafe(After(c, p1));
    PrepareSound(c, p1, latency, freq);
    OneMore(c, p2, PllEnable(false));
    MsiIsSafe(After(c, p2 + [PllEnable(false)]));
    assert p1 == [Sysclk(0)];
  }

  lemma SwitchParts(freq: nat, src: Source, ready: bool)
    requires Accepted(freq, src)
    ensures var p4 := Slowed(freq / 32_000_000, freq)
                      + Relock(SrcWord(src), MulField(freq / PllInput(src)), DivWord(src));
            Switch(freq, src, ready) == if ready then p4 else p4 + [Msi(false)]
  {
    hide Prepare, Relock, SrcWord, DivWord, PllInput, MulField;
  }

  lemma EmptyRun(c: Clocks)
    ensures After(c, []) == c && Sound(c, [])
  {}

  lemma MsiStopKeeps(c: Clocks)
    requires c.f.sts == STS_PLL
    ensures Safe(Step(c, Msi(false))) <==> Safe(c)
    ensures SysclkHz(Step(c, Msi(false))) == SysclkHz(c)
    ensures Step(c, Msi(false)).f == c.f && Step(c, Msi(false)).latency == c.latency
  {}

  /** The codec across the two files: after a switch the decoder returns the requested frequency for six of the
      eight sources; for the other two it is off by a factor of two. */
  lemma DecodeAfterSwitch(c: Clocks, freq: nat, src: Source, ready: bool)
    requires Accepted(freq, src) && c.msiReady
    ensures var e := After(c, Switch(freq, src, ready));
            && (Decode(e) == freq <==> src != HsiDiv2 && src != HsiPllDiv2)
            && (src == HsiDiv2 ==> Decode(e) == 2 * freq)
            && (src == HsiPllDiv2 ==> 2 * Decode(e) == freq)
  {
    hide Switch, After, WellFormed, DecodeSysclk, SysclkHz, Decode;
    SwitchIsSound(c, freq, src, ready);
    UndividedDecode(After(c, Switch(freq, src, ready)));
    DecodeCorrectIff(After(c, Switch(freq, src, ready)));
  }

  lemma UndividedDecode(c: Clocks)
    requires c.f.ahb == 0
    ensures Decode(c) == DecodeSysclk(c)
  {}

  /** The same on the registers themselves, with the MSI started first if it was not running. */
  lemma RegisterRoundTrip(r: Regs, freq: nat, src: Source)
    requires Accepted(freq, src)
    ensures var e := Abs(Run(r, StartMsi(r.msiReady) + Switch(freq, src, r.msiReady)));
            && RunsAt(e, freq) && e.msiReady == r.msiReady
            && (Decode(e) == freq <==> src != HsiDiv2 && src != HsiPllDiv2)
            && (src == HsiDiv2 ==> Decode(e) == 2 * freq)
            && (src == HsiPllDiv2 ==> 2 * Decode(e) == freq)
  {
    hide Switch, Decode, RunsAt, WellFormed, AllLegal, Run;
    var start := StartMsi(r.msiReady);
    var ws := Switch(freq, src, r.msiReady);
    SwitchIsLegal(freq, src, r.msiReady);
    RunMeansAfter(r, start + ws);
    RunsJoin(Abs(r), start, ws);
    var c := After(Abs(r), start);
    MsiRunsFirst(Abs(r));
    SwitchIsSound(c, freq, src, r.msiReady);
    DecodeAfterSwitch(c, freq, src, r.msiReady);
  }

  /** Call by call, on the registers: from the selection of the MSI on, every call of an accepted switch to at most
      108 MHz is allowed where it is made and leaves a state within all three limits. */
  lemma EveryStateWithinLimits(r: Regs, freq: nat, src: Source, k: nat)
    requires Accepted(freq, src) && freq <= 108_000_000 && k < |Switch(freq, src, r.msiReady)|
    ensures var ws := Switch(freq, src, r.msiReady);
            && Allowed(Abs(Run(r, StartMsi(r.msiReady) + ws[..k])), ws[k])
            && Safe(Abs(Run(r, StartMsi(r.msiReady) + ws[..k + 1])))
  {
    hide Safe, Allowed, Switch, Sound, AllLegal, Run, RunsAt, WellFormed;
    var start, ws := StartMsi(r.msiReady), Switch(freq, src, r.msiReady);
    SwitchIsLegal(freq, src, r.msiReady);
    MsiRunsFirst(Abs(r));
    var c := After(Abs(r), start);
    SwitchIsSound(c, freq, src, r.msiReady);
    SoundAtEveryCall(c, ws, k);
    PrefixMeansAfter(r, start, ws, k);
    PrefixMeansAfter(r, start, ws, k + 1);
  }

  // ---------------------------------------------------------------- the PLL's lower limit

  /** The library documents that the PLL must run at 32 MHz or more. */
  predicate PllInRange(c: Clocks) {
    c.f.sts == STS_PLL ==> PllHz(c.f) >= 32_000_000
  }

  ghost predicate PllAlwaysInRange(c: Clocks, ws: seq<Write>) {
    forall k: nat :: 0 < k <= |ws| ==> PllInRange(After(c, ws[..k]))
  }

  /** From the selection of the MSI to the next selection the system stays on it. */
  lemma {:induction false} StaysOnMsi(c: Clocks, ws: seq<Write>, k: nat)
    requires 0 < k <= |ws| && ws[0] == Sysclk(0)
    requires forall i :: 0 < i < k ==> !ws[i].Sysclk?
    ensures After(c, ws[..k]).f.sts == STS_MSI
  {
    hide After, Sound, Step;
    var front := ws[..k - 1];
    assert ws[..k] == front + [ws[k - 1]];
    OneMore(c, front, ws[k - 1]);
    OtherCallsKeepStatus(After(c, front), ws[k - 1]);
    if k > 1 {
      StaysOnMsi(c, ws, k - 1);
    }
  }

  lemma OtherCallsKeepStatus(c: Clocks, w: Write)
    ensures !w.Sysclk? ==> Step(c, w).f.sts == c.f.sts
    ensures w == Sysclk(0) ==> Step(c, w).f.sts == STS_MSI
  {}

  lemma SwitchShape(freq: nat, src: Source, ready: bool)
    requires Accepted(freq, src)
    ensures var ws := Switch(freq, src, ready);
            && |ws| == (if ready then 9 else 10) && ws[0] == Sysclk(0) && ws[8] == Sysclk(3)
            && (forall i :: 0 < i < 8 ==> !ws[i].Sysclk?)
            && ws[..9] == Switch(freq, src, true)
  {
    hide SrcWord, DivWord, MulField, Pclk1Word, Pclk2Word;
    SwitchParts(freq, src, ready);
    SwitchParts(freq, src, true);
  }

  /** The switch programs the PLL as asked, so it keeps this limit exactly for requests of at least 32 MHz; the
      multiplier test itself accepts requests down to 4 MHz. */
  lemma PllInRangeIff(c: Clocks, freq: nat, src: Source, ready: bool)
    requires Accepted(freq, src) && c.msiReady
    ensures PllAlwaysInRange(c, Switch(freq, src, ready)) <==> freq >= 32_000_000
  {
    hide Switch, After, PllHz, Sound, WellFormed, RunsAt, PllInRange;
    var ws := Switch(freq, src, ready);
    SwitchShape(freq, src, ready);
    SwitchIsSound(c, freq, src, true);
    SwitchIsSound(c, freq, src, ready);
    SelectedHz(After(c, ws[..9]), freq);
    SelectedHz(After(c, ws), freq);
    assert ws[..|ws|] == ws;
    if freq >= 32_000_000 {
      forall k: nat | 0 < k <= |ws| ensures PllInRange(After(c, ws[..k])) {
        if k <= 8 {
          StaysOnMsi(c, ws, k);
          MsiIsInRange(After(c, ws[..k]));
        } else {
          assert k == 9 || k == |ws|;
        }
      }
    } else {
      assert !PllInRange(After(c, ws[..9]));
    }
  }

  lemma MsiIsInRange(c: Clocks)
    ensures c.f.sts == STS_MSI ==> PllInRange(c)
  {}

  lemma SelectedHz(c: Clocks, freq: nat)
    requires RunsAt(c, freq)
    ensures PllInRange(c) <==> freq >= 32_000_000
  {}

  /** All documented limits together: an accepted request keeps them throughout exactly from 32 to 108 MHz. */
  lemma SwitchWithinAllLimitsIff(c: Clocks, freq: nat, src: Source, ready: bool)
    requires Accepted(freq, src) && c.msiReady
    ensures Sound(c, Switch(freq, src, ready)) && PllAlwaysInRange(c, Switch(freq, src, ready))
            <==> 32_000_000 <= freq <= 108_000_000
  {
    hide Sound, PllAlwaysInRange, Switch;
    SwitchIsSound(c, freq, src, ready);
    PllInRangeIff(c, freq, src, ready);
  }

  /** Requests below the limit that the code nevertheless accepts: 4 MHz from a quarter of the HSE is the smallest. */
  lemma SlowestAccepted(freq: nat, src: Source)
    requires Accepted(freq, src)
    ensures freq >= 4_000_000 && Accepted(4_000_000, HseDiv2PllDiv2)
    ensures Accepted(8_000_000, HsiDiv2PllDiv2)
  {
    Product(freq, PllInput(src));
    MulMono(2, freq / PllInput(src), 2_000_000, PllInput(src));
  }

  lemma MsiRunsFirst(c: Clocks)
    ensures After(c, StartMsi(c.msiReady)).msiReady
  {
    OneMore(c, [], Msi(true));
    EmptyRun(c);
    assert [] + [Msi(true)] == [Msi(true)];
  }

  lemma PrefixMeansAfter(r: Regs, start: seq<Write>, ws: seq<Write>, k: nat)
    requires AllLegal(start + ws) && k <= |ws|
    ensures Abs(Run(r, start + ws[..k])) == After(After(Abs(r), start), ws[..k])
  {
    hide Legal, Run, After, Abs;
    assert start + ws[..k] == (start + ws)[..|start| + k];
    RunMeansAfter(r, start + ws[..k]);
    RunsJoin(Abs(r), start, ws[..k]);
  }

  lemma LegalJoin(xs: seq<Write>, ys: seq<Write>)
    requires AllLegal(xs) && AllLegal(ys)
    ensures AllLegal(xs + ys)
  {}

  lemma PrepareIsLegal(latency: nat, freq: nat)
    ensures AllLegal(Prepare(latency, freq))
  {}

  lemma RelockIsLegal(src: word, mul: int, div: word)
    requires IsSource(src, div) && 2 <= mul <= 32
    ensures AllLegal(Relock(src, MulField(mul), div))
  {
    hide MulField, Inside, DecodeMul;
    MulRoundTrip(mul);
  }

  lemma SmallCallsAreLegal(ready: bool)
    ensures AllLegal(StartMsi(ready)) && AllLegal(StopMsi(ready))
    ensures AllLegal([Sysclk(0)]) && AllLegal([PllEnable(false)])
  {}

  lemma SwitchIsLegal(freq: nat, src: Source, ready: bool)
    requires Accepted(freq, src)
    ensures AllLegal(StartMsi(ready) + Switch(freq, src, ready))
  {
    hide AllLegal, Prepare, Relock, MulField, StartMsi, StopMsi, SrcWord, DivWord, PllInput, IsSource;
    var mul := freq / PllInput(src);
    SourceWords(src);
    SmallCallsAreLegal(ready);
    PrepareIsLegal(freq / 32_000_000, freq);
    RelockIsLegal(SrcWord(src), mul, DivWord(src));
    var p2 := [Sysclk(0)] + Prepare(freq / 32_000_000, freq);
    var p3 := p2 + [PllEnable(false)];
    var p4 := p3 + Relock(SrcWord(src), MulField(mul), DivWord(src));
    LegalJoin([Sysclk(0)], Prepare(freq / 32_000_000, freq));
    LegalJoin(p2, [PllEnable(false)]);
    LegalJoin(p3, Relock(SrcWord(src), MulField(mul), DivWord(src)));
    LegalJoin(p4, StopMsi(ready));
    LegalJoin(StartMsi(ready), Switch(freq, src, ready));
  }

  // ---------------------------------------------------------------- SetSysClock

  datatype PllChoice = PllChoice(srcDiv: int, div: word, mul: int) | NoFactor

  /** The `PLLSRC_DIV`, `PLL_DIV` and `PLL_MUL` macros: the halved oscillator is tried first. */
  function PllMacros(input: int, freq: nat): PllChoice
    requires input >= 4
  {
    if Reachable(freq, input / 2) then PllChoice(2, 0, freq / (input / 2))
    else if Reachable(freq, input) then PllChoice(1, 0, freq / input)
    else if Reachable(freq, input / 4) then PllChoice(2, 2, freq / (input / 4))
    else NoFactor
  }

  function Oscillator(useHse: bool): int {
    if useHse then HSE_VALUE else HSI_VALUE
  }

  function BootSrc(useHse: bool, srcDiv: int): word {
    if useHse then (if srcDiv == 1 then 0x0001_0000 else 0x0003_0000) else (if srcDiv == 1 then 0 else 1)
  }

  predicate Buildable(freq: nat, useHse: bool) {
    freq >= 32_000_000 && PllMacros(Oscillator(useHse), freq).PllChoice?
  }

  /** Which frequencies a build can ask for, in numbers. */
  lemma BuildableIff(freq: nat)
    ensures Buildable(freq, true) <==>
              && freq >= 32_000_000
              && ((freq % 2_000_000 == 0 && freq <= 64_000_000) || (freq % 4_000_000 == 0 && freq <= 128_000_000)
                  || (freq % 8_000_000 == 0 && freq <= 256_000_000))
    ensures Buildable(freq, false) <==>
              && freq >= 32_000_000
              && ((freq % 4_000_000 == 0 && freq <= 128_000_000) || (freq % 8_000_000 == 0 && freq <= 256_000_000)
                  || (freq % 16_000_000 == 0 && freq <= 512_000_000))
  {}

  function Boot(freq: nat, useHse: bool): seq<Write>
    requires Buildable(freq, useHse)
  {
    var p := PllMacros(Oscillator(useHse), freq);
    Prepare((freq - 1) / 32_000_000, freq) + Relock(BootSrc(useHse, p.srcDiv), MulField(p.mul), p.div)
  }

  /** From the reset state (MSI selected, PLL off): every buildable frequency is the one that runs, every state is
      within the limits exactly up to 108 MHz, and no wait state is wasted. */
  lemma BootIsSound(c: Clocks, freq: nat, useHse: bool)
    requires Buildable(freq, useHse)
    requires c.f.sts == STS_MSI && !c.pllOn
    ensures Sound(c, Boot(freq, useHse)) <==> freq <= 108_000_000
    ensures var e := After(c, Boot(freq, useHse));
            && RunsAt(e, freq)
            && 32_000_000 * e.latency < freq <= 32_000_000 * (e.latency + 1) && LeastDividers(e, freq)
            && WellFormed(e.f) && e.f.ahb == 0
            && (e.f.pllsrc != 0 <==> useHse)
            && (!useHse ==> ((e.f.hsipre != 0 && e.f.srcdiv == 0) <==> Reachable(freq, HSI_VALUE / 2)))
            && (!useHse ==> (e.f.srcdiv != 0 ==> e.f.hsipre != 0))
  {
    hide Safe, Sound, After, Prepare, Relock, Relocked, MulField, DecodeMul, Pclk1Word, Pclk2Word, WellFormed;
    hide BootSrc, InputOf, SysclkHz, PllMacros, Reachable, LeastDividers;
    ChoiceProduct(freq, useHse);
    var p := PllMacros(Oscillator(useHse), freq);
    var latency, src := (freq - 1) / 32_000_000, BootSrc(useHse, p.srcDiv);
    var p0: seq<Write> := [];
    var p1 := p0 + Prepare(latency, freq);
    var p2 := p1 + Relock(src, MulField(p.mul), p.div);
    assert p2 == Boot(freq, useHse);
    EmptyRun(c);
    PrepareSound(c, p0, latency, freq);
    RelockSound(c, p1, src, MulField(p.mul), p.div);
    RelockedHz(After(c, p1), src, p.mul, p.div);
    LimitsIff(After(c, p2), freq, latency);
  }

  /** After start-up the decoder agrees except when the HSI is used and the frequency is reachable from half of it;
      then it reports twice the frequency. */
  lemma DecodeAfterBoot(c: Clocks, freq: nat, useHse: bool)
    requires Buildable(freq, useHse)
    requires c.f.sts == STS_MSI && !c.pllOn
    ensures var e := After(c, Boot(freq, useHse));
            && (Decode(e) == freq <==> useHse || !Reachable(freq, HSI_VALUE / 2))
            && (Decode(e) != freq ==> Decode(e) == 2 * freq)
  {
    hide Boot, After, Sound, WellFormed, DecodeSysclk, SysclkHz, Reachable, Buildable;
    BootIsSound(c, freq, useHse);
    DecodeCorrectIff(After(c, Boot(freq, useHse)));
  }

  lemma ChoiceProduct(freq: nat, useHse: bool)
    requires Buildable(freq, useHse)
    ensures var p := PllMacros(Oscillator(useHse), freq);
            var src := BootSrc(useHse, p.srcDiv);
            && (p.srcDiv == 1 || p.srcDiv == 2) && (p.div == 0 || p.div == 2)
            && 2 <= p.mul <= 32 && IsSource(src, p.div) && InputOf(src, p.div) * p.mul == freq
            && (src == 0 || src == 1 <==> !useHse)
            && (!useHse ==> (src == 1 && p.div != 2 <==> Reachable(freq, HSI_VALUE / 2)))
            && (!useHse ==> (src != 1 ==> p.div != 2))
  {
    hide InputOf, Reachable, PllMacros;
    var p := PllMacros(Oscillator(useHse), freq);
    MacrosProduct(Oscillator(useHse), freq);
    BootInput(useHse, p.srcDiv, p.div);
  }

  lemma BootInput(useHse: bool, srcDiv: int, div: word)
    requires srcDiv == 1 || srcDiv == 2
    ensures InputOf(BootSrc(useHse, srcDiv), div) == Oscillator(useHse) / srcDiv / (if div == 2 then 2 else 1)
  {}

  lemma MacrosProduct(input: int, freq: nat)
    requires input >= 4 && input % 4 == 0 && PllMacros(input, freq).PllChoice?
    ensures var p := PllMacros(input, freq);
            && (p.srcDiv == 1 || p.srcDiv == 2) && (p.div == 0 || p.div == 2) && 2 <= p.mul <= 32
            && (input / p.srcDiv / (if p.div == 2 then 2 else 1)) * p.mul == freq
            && (p.srcDiv == 2 && p.div != 2 <==> Reachable(freq, input / 2)) && (p.srcDiv != 2 ==> p.div != 2)
  {
    hide Reachable;
    assert input / 2 / 2 == input / 4 && input / 1 / 1 == input;
    if Reachable(freq, input / 2) {
      FactorOf(freq, input / 2);
    } else if Reachable(freq, input) {
      FactorOf(freq, input);
    } else {
      FactorOf(freq, input / 4);
    }
  }

  lemma FactorOf(freq: nat, input: int)
    requires input > 0 && Reachable(freq, input)
    ensures 2 <= freq / input <= 32 && input * (freq / input) == freq
  {
    Product(freq, input);
  }

  /** The two latency formulas agree except at exact multiples of 32 MHz, where the run-time one takes one more. */
  lemma LatencyFormulas(freq: nat)
    requires freq >= 1
    ensures freq / 32_000_000 == (freq - 1) / 32_000_000 + (if freq % 32_000_000 == 0 then 1 else 0)
  {}
}
