/** The external-interrupt driver on its own data: a handler table, an enable mask, and the EXTI and
    NVIC registers.  Every method is one step of PinIrq. */
module PinIrqDriver {
  import opened BitWords
  import P = PinIrq

  /** The lines whose bit is set. */
  function LineSet(w: word): set<nat> {
    set i: nat | i < P.LINES && TestBit(w, i)
  }

  /** The interrupt numbers enabled in the NVIC, 32 to a register. */
  function IrqSet(iser: seq<word>): set<int>
    requires |iser| == 8
  {
    set v: int | 0 <= v < 256 && TestBit(iser[v / 32], v % 32)
  }

  lemma PutLine(w: word, i: nat, on: bool)
    requires i < P.LINES
    ensures LineSet(Put(w, i, on)) == if on then LineSet(w) + {i} else LineSet(w) - {i}
  {
    hide Put, TestBit;
    forall k: nat | k < P.LINES
      ensures TestBit(Put(w, i, on), k) <==> if k == i then on else TestBit(w, k)
    {
      PutBit(w, i, on, k);
    }
  }

  lemma ClearedThenPut(w: word, i: nat, on: bool)
    requires i < P.LINES
    ensures LineSet(if on then Put(Put(w, i, false), i, true) else Put(w, i, false))
            == if on then LineSet(w) + {i} else LineSet(w) - {i}
  {
    hide LineSet, Put;
    PutLine(w, i, false);
    PutLine(Put(w, i, false), i, true);
  }

  lemma PutIrq(iser: seq<word>, v: int, on: bool)
    requires |iser| == 8 && 0 <= v < 256
    ensures IrqSet(iser[v / 32 := Put(iser[v / 32], v % 32, on)])
            == if on then IrqSet(iser) + {v} else IrqSet(iser) - {v}
  {
    hide Put, TestBit;
    var iser' := iser[v / 32 := Put(iser[v / 32], v % 32, on)];
    forall u | 0 <= u < 256
      ensures TestBit(iser'[u / 32], u % 32) <==> if u == v then on else TestBit(iser[u / 32], u % 32)
    {
      if u / 32 == v / 32 {
        PutBit(iser[v / 32], v % 32, on, u % 32);
      }
    }
  }

  /** The numeric range tests of the disable path pick out the two shared groups. */
  lemma PinbitRange(i: nat)
    requires i < P.LINES
    ensures 0x20 <= Bit(i) <= 0x200 <==> 5 <= i <= 9
    ensures 0x400 <= Bit(i) <= 0x8000 <==> 10 <= i <= 15
  {
    LowBitValues();
    if i == 0 {} else if i == 1 {} else if i == 2 {} else if i == 3 {} else if i == 4 {}
    else if i == 5 {} else if i == 6 {} else if i == 7 {} else if i == 8 {} else if i == 9 {}
    else if i == 10 {} else if i == 11 {} else if i == 12 {} else if i == 13 {} else if i == 14 {} else {}
  }

  /** GPIO_PIN_5 | ... | GPIO_PIN_9 and GPIO_PIN_10 | ... | GPIO_PIN_15 */
  const PINS_5_9: word := 0x03E0
  const PINS_10_15: word := 0xFC00

  lemma GroupMasks()
    ensures PINS_5_9 == Bits(5, 10) && PINS_10_15 == Bits(10, 16)
  {
    LowBitValues();
    assert Bits(10, 10) == 0 && Bits(16, 16) == 0;
    assert Bits(9, 10) == 0x200;
    assert Bits(8, 10) == 0x300;
    assert Bits(7, 10) == 0x380;
    assert Bits(6, 10) == 0x3C0;
    assert Bits(15, 16) == 0x8000;
    assert Bits(14, 16) == 0xC000;
    assert Bits(13, 16) == 0xE000;
    assert Bits(12, 16) == 0xF000;
    assert Bits(11, 16) == 0xF800;
  }

  /** A group is quiet exactly when no enabled line is mapped to its vector. */
  lemma GroupQuiet(w: word)
    ensures Masked(w, PINS_5_9) == 0 <==> !exists k :: k in LineSet(w) && P.Vector(k) == 23
    ensures Masked(w, PINS_10_15) == 0 <==> !exists k :: k in LineSet(w) && P.Vector(k) == 40
  {
    hide Masked, TestBit, Bits;
    GroupMasks();
    NoBitsIn(w, 5, 10);
    NoBitsIn(w, 10, 16);
    if k :| 5 <= k < 10 && TestBit(w, k) {
      assert k in LineSet(w) && P.Vector(k) == 23;
    }
    if k :| 10 <= k < 16 && TestBit(w, k) {
      assert k in LineSet(w) && P.Vector(k) == 40;
    }
  }

  /** `bit2bitno`: the number of the only bit set, or -1. */
  method Bit2BitNo(bit: word) returns (r: int)
    ensures 0 <= r < 32 ==> Bit(r) == bit
    ensures r == -1 ==> forall k :: 0 <= k < 32 ==> Bit(k) != bit
    ensures -1 <= r < 32
  {
    hide Bit;
    var i := 0;
    while i < 32
      invariant 0 <= i <= 32
      invariant forall k :: 0 <= k < i ==> Bit(k) != bit
    {
      if Bit(i) == bit {
        return i;
      }
      i := i + 1;
    }
    r := -1;
  }

  lemma BitInjective(i: nat, k: nat)
    requires i < 32 && k < 32 && Bit(i) == Bit(k)
    ensures i == k
  {
    hide Bit;
    if i != k {
      BitsDisjoint(i, k);
      MaskedItself(Bit(i));
      BitNonZero(i);
    }
  }

  lemma MaskedItself(w: word)
    ensures Masked(w, w) == w
  {}

  class ExtiManager {
    const tab: array<P.Slot>
    var enableMask: word
    var iser: seq<word>
    var imask: word
    var rtCfg: word
    var ftCfg: word
    var pend: word
    var source: seq<int>
    var masked: bool

    predicate Valid()
      reads this
    {
      tab.Length == P.LINES && |iser| == 8 && |source| == P.LINES
    }

    ghost function Abs(): (s: P.State)
      reads this, tab
      requires Valid()
      ensures P.Shaped(s)
    {
      P.State(tab[..], LineSet(enableMask), IrqSet(iser), LineSet(imask), LineSet(rtCfg), LineSet(ftCfg),
              LineSet(pend), source, masked)
    }

    /** `get_pin` followed by `bit2bitno` of its pin bit: the EXTI line, or -1 for an unknown pin. */
    method IrqIndex(pin: int) returns (line: int)
      ensures line == if P.Known(pin) then P.Line(pin) else -1
    {
      hide Bit;
      if pin % 0x100 >= P.PINS {
        return -1;
      }
      line := Bit2BitNo(Bit((pin % 0x100) % 16));
      if line >= 0 {
        BitInjective(line, (pin % 0x100) % 16);
      }
    }

    /** `n32_pin_attach_irq` */
    method AttachIrq(pin: int, mode: int, hdr: int, args: int) returns (rc: P.Rc)
      requires Valid()
      modifies this`masked, tab
      ensures Valid() && (Abs(), rc) == P.Step(old(Abs()), P.Attach(pin, mode, hdr, args))
    {
      hide LineSet, IrqSet;
      var irqindex := IrqIndex(pin);
      if irqindex < 0 {
        return P.Enosys;
      }
      var level := masked;
      masked := true;
      if tab[irqindex].pin == pin && tab[irqindex].hdr == hdr && tab[irqindex].mode == mode && tab[irqindex].args == args {
        masked := level;
        return P.Eok;
      }
      if tab[irqindex].pin != -1 {
        masked := level;
        return P.Ebusy;
      }
      tab[irqindex] := tab[irqindex].(pin := pin);
      tab[irqindex] := tab[irqindex].(hdr := hdr);
      tab[irqindex] := tab[irqindex].(mode := mode);
      tab[irqindex] := tab[irqindex].(args := args);
      masked := level;
      rc := P.Eok;
      assert tab[..] == old(tab[..])[irqindex := P.Slot(pin, mode, hdr, args)];
    }

    /** `n32_pin_dettach_irq` */
    method DettachIrq(pin: int) returns (rc: P.Rc)
      requires Valid()
      modifies this`masked, tab
      ensures Valid() && (Abs(), rc) == P.Step(old(Abs()), P.Detach(pin))
    {
      hide LineSet, IrqSet;
      var irqindex := IrqIndex(pin);
      if irqindex < 0 {
        return P.Enosys;
      }
      var level := masked;
      masked := true;
      if tab[irqindex].pin == -1 {
        masked := level;
        return P.Eok;
      }
      tab[irqindex] := tab[irqindex].(pin := -1);
      tab[irqindex] := tab[irqindex].(hdr := 0);
      tab[irqindex] := tab[irqindex].(mode := 0);
      tab[irqindex] := tab[irqindex].(args := 0);
      masked := level;
      rc := P.Eok;
      assert tab[..] == old(tab[..])[irqindex := P.FREE];
    }

    /** `NVIC_EnableIRQ` and `NVIC_DisableIRQ`: writing a 1 sets or clears that bit only. */
    method NvicPut(irqno: int, on: bool)
      requires |iser| == 8 && 0 <= irqno < 256
      modifies this`iser
      ensures |iser| == 8
      ensures IrqSet(iser) == if on then IrqSet(old(iser)) + {irqno} else IrqSet(old(iser)) - {irqno}
    {
      hide IrqSet, Put;
      PutIrq(iser, irqno, on);
      iser := iser[irqno / 32 := Put(iser[irqno / 32], irqno % 32, on)];
    }

    /** `EXTI_InitPeripheral` for one line in interrupt mode. */
    method ExtiInit(i: nat, mode: int)
      requires i < P.LINES && P.Supported(mode)
      modifies this`imask, this`rtCfg, this`ftCfg
      ensures LineSet(imask) == LineSet(old(imask)) + {i}
      ensures LineSet(rtCfg) == if mode == P.FALLING then LineSet(old(rtCfg)) - {i} else LineSet(old(rtCfg)) + {i}
      ensures LineSet(ftCfg) == if mode == P.RISING then LineSet(old(ftCfg)) - {i} else LineSet(old(ftCfg)) + {i}
    {
      hide LineSet, Put;
      ClearedThenPut(imask, i, true);
      ClearedThenPut(rtCfg, i, mode != P.FALLING);
      ClearedThenPut(ftCfg, i, mode != P.RISING);
      imask := Put(imask, i, false);
      imask := Put(imask, i, true);
      rtCfg := Put(rtCfg, i, false);
      ftCfg := Put(ftCfg, i, false);
      if mode == P.RISING_FALLING {
        rtCfg := Put(rtCfg, i, true);
        ftCfg := Put(ftCfg, i, true);
      } else if mode == P.RISING {
        rtCfg := Put(rtCfg, i, true);
      } else {
        ftCfg := Put(ftCfg, i, true);
      }
    }

    /** The body of the enable branch, inside its critical section. */
    method EnableLine(i: nat, port: int)
      requires Valid() && i < P.LINES && P.Supported(tab[i].mode)
      modifies this`source, this`imask, this`rtCfg, this`ftCfg, this`pend, this`iser, this`enableMask
      ensures Valid() && Abs() == P.Enable(old(Abs()), i, port)
    {
      hide LineSet, IrqSet, Put;
      source := source[i := port];
      ExtiInit(i, tab[i].mode);
      PutLine(pend, i, false);
      pend := Put(pend, i, false);
      NvicPut(P.Vector(i), true);
      PutLine(enableMask, i, true);
      enableMask := Put(enableMask, i, true);
    }

    /** The tests that decide whether a vector may be disabled: a shared group must have no enabled
        line left, a vector of its own always may. */
    method VectorIsQuiet(i: nat) returns (quiet: bool)
      requires i < P.LINES && i !in LineSet(enableMask)
      ensures quiet <==> !exists k :: k in LineSet(enableMask) && P.Vector(k) == P.Vector(i)
    {
      hide LineSet, Bit, Masked;
      PinbitRange(i);
      if 0x20 <= Bit(i) <= 0x200 {
        GroupQuiet(enableMask);
        quiet := Masked(enableMask, PINS_5_9) == 0;
      } else if 0x400 <= Bit(i) <= 0x8000 {
        GroupQuiet(enableMask);
        quiet := Masked(enableMask, PINS_10_15) == 0;
      } else {
        OwnVector(enableMask, i);
        quiet := true;
      }
    }

    /** The body of the disable branch: the NVIC vector goes down only with the last line of its group. */
    method DisableLine(i: nat)
      requires Valid() && i < P.LINES
      modifies this`iser, this`enableMask
      ensures Valid() && Abs() == P.Disable(old(Abs()), i)
    {
      hide LineSet, IrqSet, Put;
      PutLine(enableMask, i, false);
      enableMask := Put(enableMask, i, false);
      var quiet := VectorIsQuiet(i);
      if quiet {
        NvicPut(P.Vector(i), false);
      }
    }

    /** `n32_pin_irq_enable`; the unsupported trigger mode leaves the function inside the critical
        section. */
    method PinIrqEnable(pin: int, enabled: int) returns (rc: P.Rc)
      requires Valid()
      modifies this
      ensures Valid() && (Abs(), rc) == P.Step(old(Abs()), P.IrqEnable(pin, enabled))
    {
      hide LineSet, IrqSet;
      var i := IrqIndex(pin);
      if i < 0 {
        return P.Enosys;
      }
      if enabled == 1 {
        var level := masked;
        masked := true;
        if tab[i].pin == -1 {
          masked := level;
          return P.Enosys;
        }
        if !P.Supported(tab[i].mode) {
          return P.Error;
        }
        EnableLine(i, (pin % 0x100) / 16);
        masked := level;
        rc := P.Eok;
      } else if enabled == 0 {
        var level := masked;
        masked := true;
        DisableLine(i);
        masked := level;
        rc := P.Eok;
      } else {
        rc := P.Enosys;
      }
    }

    /** `N32_GPIO_EXTI_IRQHandler`: the handler run, if any, then the pending bit cleared. */
    method ExtiIrqHandler(i: nat) returns (served: seq<P.Served>)
      requires Valid() && i < P.LINES
      modifies this`pend
      ensures Valid() && (Abs(), served) == P.Serve(old(Abs()), i)
    {
      hide IrqSet, Put, TestBit;
      served := [];
      if TestBit(pend, i) && TestBit(imask, i) {
        if tab[i].hdr != 0 {
          served := [P.Served(i, tab[i].hdr, tab[i].args)];
        }
        PutLine(pend, i, false);
        pend := Put(pend, i, false);
      }
    }

    /** `EXTI0_IRQHandler` to `EXTI4_IRQHandler` */
    method ExtiSingleHandler(i: nat) returns (served: seq<P.Served>)
      requires Valid() && i < 5
      modifies this`pend
      ensures Valid() && (Abs(), served) == P.ServeVector(old(Abs()), P.Vector(i))
    {
      hide LineSet, IrqSet, P.Serve;
      served := ExtiIrqHandler(i);
      ServeOne(old(Abs()), i);
    }

    method Exti9To5Handler() returns (served: seq<P.Served>)
      requires Valid()
      modifies this`pend
      ensures Valid() && (Abs(), served) == P.ServeVector(old(Abs()), 23)
    {
      hide LineSet, IrqSet, P.Serve, P.ServeRange;
      ghost var s0 := Abs();
      var c5 := ExtiIrqHandler(5);
      ghost var s1 := Abs();
      var c6 := ExtiIrqHandler(6);
      ghost var s2 := Abs();
      var c7 := ExtiIrqHandler(7);
      ghost var s3 := Abs();
      var c8 := ExtiIrqHandler(8);
      ghost var s4 := Abs();
      var c9 := ExtiIrqHandler(9);
      ServeNext(s4, 9, 10);
      ServeNone(Abs(), 10);
      ServeNext(s3, 8, 10);
      ServeNext(s2, 7, 10);
      ServeNext(s1, 6, 10);
      ServeNext(s0, 5, 10);
      served := c5 + (c6 + (c7 + (c8 + (c9 + []))));
    }

    method Exti15To10Handler() returns (served: seq<P.Served>)
      requires Valid()
      modifies this`pend
      ensures Valid() && (Abs(), served) == P.ServeVector(old(Abs()), 40)
    {
      hide LineSet, IrqSet, P.Serve, P.ServeRange;
      ghost var s0 := Abs();
      var c10 := ExtiIrqHandler(10);
      ghost var s1 := Abs();
      var c11 := ExtiIrqHandler(11);
      ghost var s2 := Abs();
      var c12 := ExtiIrqHandler(12);
      ghost var s3 := Abs();
      var c13 := ExtiIrqHandler(13);
      ghost var s4 := Abs();
      var c14 := ExtiIrqHandler(14);
      ghost var s5 := Abs();
      var c15 := ExtiIrqHandler(15);
      ServeNext(s5, 15, 16);
      ServeNone(Abs(), 16);
      ServeNext(s4, 14, 16);
      ServeNext(s3, 13, 16);
      ServeNext(s2, 12, 16);
      ServeNext(s1, 11, 16);
      ServeNext(s0, 10, 16);
      served := c10 + (c11 + (c12 + (c13 + (c14 + (c15 + [])))));
    }
  }

  /** Lines 0 to 4 have a vector of their own. */
  lemma OwnVector(w: word, i: nat)
    requires i < 5 ==> i !in LineSet(w)
    ensures i < 5 ==> !exists k :: k in LineSet(w) && P.Vector(k) == P.Vector(i)
  {}

  lemma ServeNone(s: P.State, i: nat)
    requires P.Shaped(s) && i <= P.LINES
    ensures P.ServeRange(s, i, i) == (s, [])
  {}

  lemma ServeNext(s: P.State, lo: nat, hi: nat)
    requires P.Shaped(s) && lo < hi <= P.LINES
    ensures var first := P.Serve(s, lo);
            var rest := P.ServeRange(first.0, lo + 1, hi);
            P.ServeRange(s, lo, hi) == (rest.0, first.1 + rest.1)
  {}

  lemma ServeOne(s: P.State, i: nat)
    requires P.Shaped(s) && i < 5
    ensures P.ServeVector(s, P.Vector(i)) == P.Serve(s, i)
  {
    ServeNext(s, i, i + 1);
    ServeNone(P.Serve(s, i).0, i + 1);
    assert P.Serve(s, i).1 + [] == P.Serve(s, i).1;
  }
}
