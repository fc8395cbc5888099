/** The acceptance filters: RT_CAN_CMD_SET_FILTER compiles a list of items into 14 hardware banks. */
module CanFilter {
  import opened BitWords
  import opened CanFrame

  const BANKS: nat := 14

  /** `struct rt_can_filter_item`; `id`, `ide`, `rtr` and `mode` are bit fields. */
  datatype FilterItem = FilterItem(id: bv29, ide: bv1, rtr: bv1, mode: bv1, mask: word, hdrBank: int)

  const ID_MASK_MODE: bv1 := 0
  const ID_LIST_MODE: bv1 := 1

  /** One hardware bank, as `CAN_InitFilter` can set it. */
  datatype Bank = Bank(fr1: word, fr2: word, listMode: bool, wide: bool, fifo1: bool, active: bool)

  /** The bank item number i is aimed at; -1 asks for the bank of the same number. */
  function Target(items: seq<FilterItem>, i: nat): int
    requires i < |items|
  {
    if items[i].hdrBank == -1 then i else items[i].hdrBank
  }

  /** What `assert_param(IS_CAN_FILTER_NUM(...))` demands. */
  predicate WellAimed(items: seq<FilterItem>) {
    forall i :: 0 <= i < |items| ==> 0 <= Target(items, i) < BANKS
  }

  // ---------------------------------------------------------------- the expressions of the loop

  function Tail(item: FilterItem): word {
    if item.mode == ID_MASK_MODE then 0x06 else KindBits(item.ide, item.rtr)
  }

  function UpperHalf(w: word): word {
    (w >> 16) & 0xFFFF
  }

  function LowerHalf(w: word): word {
    w & 0xFFFF
  }

  /** The standard identifier is shifted to bit 18 first, then back by 13, which is bit 21 less 16. */
  function IdHigh(item: FilterItem): word {
    if item.ide == STDID then (((item.id as word) << 18) >> 13) & 0xFFFF
    else ((item.id as word) >> 13) & 0xFFFF
  }

  function IdLow(item: FilterItem): word {
    if item.ide == STDID
    then (((item.id as word) << 18) | ((item.ide as word) << 2) | ((item.rtr as word) << 1)) & 0xFFFF
    else (((item.id as word) << 3) | ((item.ide as word) << 2) | ((item.rtr as word) << 1)) & 0xFFFF
  }

  function MaskHigh(item: FilterItem): word {
    UpperHalf(ShiftId(item.mask, item.ide))
  }

  function MaskLow(item: FilterItem, tail: word): word {
    LowerHalf(With(ShiftId(item.mask, item.ide), tail))
  }

  /** The register `CAN_InitFilter` builds from two halves. */
  function Join(high: word, low: word): word {
    ((0x0000_FFFF & high) << 16) | (0x0000_FFFF & low)
  }

  // ---------------------------------------------------------------- what a bank means

  /** The identifier bits a frame of this kind has. */
  function IdBits(ide: bv1): word {
    if ide == STDID then 0x7FF else 0x1FFF_FFFF
  }

  function ItemId(item: FilterItem): word {
    Masked(item.id as word, IdBits(item.ide))
  }

  function MaskAsId(item: FilterItem): word {
    Masked(item.mask, IdBits(item.ide))
  }

  /** The layout of a mask word: identifier bits where a frame has them, and both flag bits. */
  function MaskWord(id: word, ide: bv1): word {
    With(ShiftId(id, ide), 6)
  }

  /** The bank that stands for an item: the item as a frame, and either its mask or a second frame
      whose identifier is the mask. */
  function Encode(item: FilterItem): Bank {
    Bank(FrameWord(ItemId(item), item.ide, item.rtr),
         if item.mode == ID_MASK_MODE then MaskWord(MaskAsId(item), item.ide)
         else FrameWord(MaskAsId(item), item.ide, item.rtr),
         item.mode == ID_LIST_MODE, true, false, true)
  }

  /** The loop's four half-words are the two registers of that bank. */
  lemma HalvesJoin(item: FilterItem)
    ensures Join(IdHigh(item), IdLow(item)) == Encode(item).fr1
    ensures Join(MaskHigh(item), MaskLow(item, Tail(item))) == Encode(item).fr2
  {
    hide Join, IdHigh, IdLow, UpperHalf, LowerHalf, ShiftId, With, KindBits, IdBits, ItemId, FrameWord, LowThree, Masked;
    IdRegister(item);
    FrameOfMask(item.mask, item.ide, item.rtr);
    SmallKind(item.ide, item.rtr);
    JoinHalves(ShiftId(item.mask, item.ide), Tail(item));
  }

  lemma IdRegister(item: FilterItem)
    ensures Join(IdHigh(item), IdLow(item)) == FrameWord(ItemId(item), item.ide, item.rtr)
  {}

  lemma SmallKind(ide: bv1, rtr: bv1)
    ensures LowThree(KindBits(ide, rtr)) && LowThree(6)
  {}

  predicate LowThree(w: word) {
    w <= 7
  }

  lemma FrameOfMask(mask: word, ide: bv1, rtr: bv1)
    ensures ShiftId(Masked(mask, IdBits(ide)), ide) == ShiftId(mask, ide)
    ensures FrameWord(mask, ide, rtr) == With(ShiftId(mask, ide), KindBits(ide, rtr))
    ensures FrameWord(Masked(mask, IdBits(ide)), ide, rtr) == With(ShiftId(mask, ide), KindBits(ide, rtr))
  {}

  lemma JoinHalves(x: word, tail: word)
    requires LowThree(tail)
    ensures Join(UpperHalf(x), LowerHalf(With(x, tail))) == With(x, tail)
  {}

  /** The hardware's 32-bit acceptance test; a bank that is off, or split in halves, is not asked it. */
  predicate Accepts(b: Bank, frame: word) {
    b.active && b.wide &&
    if b.listMode then frame == b.fr1 || frame == b.fr2
    else Differing(frame, b.fr1, b.fr2) == 0
  }

  function Differing(frame: word, fr1: word, fr2: word): word {
    (frame ^ fr1) & fr2
  }

  // ---------------------------------------------------------------- meaning of a compiled item

  /** The frame's identifier has no bits outside its kind's field. */
  predicate FitsKind(id: word, ide: bv1) {
    Masked(id, IdBits(ide)) == id
  }

  lemma MaskedFits(w: word, ide: bv1)
    ensures FitsKind(Masked(w, IdBits(ide)), ide)
  {}

  lemma OtherIde(a: word, ide: bv1, rtr: bv1, b: word, ide': bv1, rtr': bv1, m: word)
    requires ide != ide' && FitsKind(a, ide) && FitsKind(b, ide')
    ensures Differing(FrameWord(a, ide, rtr), FrameWord(b, ide', rtr'), MaskWord(m, ide')) != 0
    ensures FrameWord(a, ide, rtr) != FrameWord(b, ide', rtr')
  {}

  lemma OtherRtr(a: word, b: word, ide: bv1, rtr: bv1, rtr': bv1, m: word)
    requires rtr != rtr'
    ensures Differing(FrameWord(a, ide, rtr), FrameWord(b, ide, rtr'), MaskWord(m, ide)) != 0
    ensures FrameWord(a, ide, rtr) != FrameWord(b, ide, rtr')
  {}

  /** Two frames of the same kind: the flag bits cancel and the masked identifier difference is left. */
  lemma SameKind(a: word, b: word, ide: bv1, rtr: bv1, m: word)
    requires FitsKind(a, ide) && FitsKind(b, ide) && FitsKind(m, ide)
    ensures Differing(FrameWord(a, ide, rtr), FrameWord(b, ide, rtr), MaskWord(m, ide)) == ShiftId(Differing(a, b, m), ide)
    ensures ShiftId(Differing(a, b, m), ide) == 0 <==> Differing(a, b, m) == 0
  {}

  lemma FrameWordInjective(a: word, b: word, ide: bv1, rtr: bv1)
    requires FitsKind(a, ide) && FitsKind(b, ide)
    ensures FrameWord(a, ide, rtr) == FrameWord(b, ide, rtr) <==> a == b
  {}

  lemma StandardFitsKind(id: bv29, ide: bv1)
    ensures StandardFits(id, ide) <==> FitsKind(id as word, ide)
  {}

  /** In mask mode a frame passes exactly when it is of the item's kind and agrees with the item's
      identifier on every masked bit of its identifier field. */
  lemma MaskModeMeaning(item: FilterItem, id: bv29, ide: bv1, rtr: bv1)
    requires item.mode == ID_MASK_MODE && StandardFits(id, ide)
    ensures Accepts(Encode(item), FrameWord(id as word, ide, rtr))
            <==> ide == item.ide && rtr == item.rtr && Differing(id as word, ItemId(item), MaskAsId(item)) == 0
  {
    hide Masked, IdBits, FrameWord, MaskWord, ShiftId, Differing, StandardFits, FitsKind;
    StandardFitsKind(id, ide);
    MaskedFits(item.id as word, item.ide);
    MaskedFits(item.mask, item.ide);
    if ide != item.ide {
      OtherIde(id as word, ide, rtr, ItemId(item), item.ide, item.rtr, MaskAsId(item));
    } else if rtr != item.rtr {
      OtherRtr(id as word, ItemId(item), ide, rtr, item.rtr, MaskAsId(item));
    } else {
      SameKind(id as word, ItemId(item), ide, rtr, MaskAsId(item));
    }
  }

  /** In list mode it passes exactly when it is of the item's kind and its identifier is the item's
      identifier or the item's mask read as an identifier. */
  lemma ListModeMeaning(item: FilterItem, id: bv29, ide: bv1, rtr: bv1)
    requires item.mode == ID_LIST_MODE && StandardFits(id, ide)
    ensures Accepts(Encode(item), FrameWord(id as word, ide, rtr))
            <==> ide == item.ide && rtr == item.rtr && (id as word == ItemId(item) || id as word == MaskAsId(item))
  {
    hide Masked, IdBits, FrameWord, MaskWord, ShiftId, Differing, StandardFits, FitsKind;
    StandardFitsKind(id, ide);
    MaskedFits(item.id as word, item.ide);
    MaskedFits(item.mask, item.ide);
    if ide != item.ide {
      OtherIde(id as word, ide, rtr, ItemId(item), item.ide, item.rtr, 0);
      OtherIde(id as word, ide, rtr, MaskAsId(item), item.ide, item.rtr, 0);
    } else if rtr != item.rtr {
      OtherRtr(id as word, ItemId(item), ide, rtr, item.rtr, 0);
      OtherRtr(id as word, MaskAsId(item), ide, rtr, item.rtr, 0);
    } else {
      FrameWordInjective(id as word, ItemId(item), ide, rtr);
      FrameWordInjective(id as word, MaskAsId(item), ide, rtr);
    }
  }

  /** An item's bank is switched on, 32 bits wide, and feeds FIFO 0. */
  lemma EncodedIsOn(item: FilterItem)
    ensures Encode(item).active && Encode(item).wide && !Encode(item).fifo1
    ensures Encode(item).listMode <==> item.mode == ID_LIST_MODE
  {}

  // ---------------------------------------------------------------- the loop

  /** The banks after the items have been applied in order. */
  function Compiled(items: seq<FilterItem>, banks: seq<Bank>): (r: seq<Bank>)
    requires WellAimed(items) && |banks| == BANKS
    ensures |r| == BANKS
  {
    if items == [] then banks
    else
      var last := |items| - 1;
      assert WellAimed(items[..last]) by {
        forall i | 0 <= i < last
          ensures 0 <= Target(items[..last], i) < BANKS
        {
          assert Target(items[..last], i) == Target(items, i);
        }
      }
      Compiled(items[..last], banks)[Target(items, last) := Encode(items[last])]
  }

  /** Item i names bank b, or names no bank and stands at place b of the list. */
  predicate AimedAt(items: seq<FilterItem>, i: nat, b: nat)
    requires i < |items|
  {
    items[i].hdrBank == b || (items[i].hdrBank == -1 && i == b)
  }

  /** Item i is the last one aimed at bank b. */
  predicate LastAimedAt(items: seq<FilterItem>, i: nat, b: nat) {
    && i < |items| && AimedAt(items, i, b)
    && forall j: nat :: i < j < |items| ==> !AimedAt(items, j, b)
  }

  lemma AimedIsTarget(items: seq<FilterItem>, i: nat, b: nat)
    requires i < |items|
    ensures AimedAt(items, i, b) <==> Target(items, i) == b
  {}

  lemma AimedInFront(items: seq<FilterItem>, last: nat, i: nat, b: nat)
    requires i < last <= |items|
    ensures AimedAt(items[..last], i, b) <==> AimedAt(items, i, b)
    ensures Target(items[..last], i) == Target(items, i)
  {}

  lemma FrontIsWellAimed(items: seq<FilterItem>, last: nat)
    requires WellAimed(items) && last <= |items|
    ensures WellAimed(items[..last])
  {
    forall i: nat | i < last
      ensures 0 <= Target(items[..last], i) < BANKS
    {
      AimedInFront(items, last, i, 0);
    }
  }

  lemma {:induction false} LastItemWinsAt(items: seq<FilterItem>, banks: seq<Bank>, b: nat, i: nat)
    requires WellAimed(items) && |banks| == BANKS && b < BANKS && LastAimedAt(items, i, b)
    ensures Compiled(items, banks)[b] == Encode(items[i])
    decreases |items|
  {
    hide Encode, Target, AimedAt, WellAimed;
    var last := |items| - 1;
    AimedIsTarget(items, last, b);
    FrontIsWellAimed(items, last);
    InRange(items, last);
    if i < last {
      forall j: nat | i <= j < last
        ensures AimedAt(items[..last], j, b) <==> AimedAt(items, j, b)
      {
        AimedInFront(items, last, j, b);
      }
      LastItemWinsAt(items[..last], banks, b, i);
    }
  }

  lemma InRange(items: seq<FilterItem>, i: nat)
    requires WellAimed(items) && i < |items|
    ensures 0 <= Target(items, i) < BANKS
  {}

  lemma {:induction false} UntouchedBank(items: seq<FilterItem>, banks: seq<Bank>, b: nat)
    requires WellAimed(items) && |banks| == BANKS && b < BANKS
    requires forall i: nat :: i < |items| ==> !AimedAt(items, i, b)
    ensures Compiled(items, banks)[b] == banks[b]
    decreases |items|
  {
    hide Encode, Target, AimedAt, WellAimed;
    if items != [] {
      var last := |items| - 1;
      AimedIsTarget(items, last, b);
      FrontIsWellAimed(items, last);
      InRange(items, last);
      forall j: nat | j < last
        ensures AimedAt(items[..last], j, b) <==> AimedAt(items, j, b)
      {
        AimedInFront(items, last, j, b);
      }
      UntouchedBank(items[..last], banks, b);
    }
  }

  /** Each bank holds the encoding of the last item aimed at it, and a bank no item is aimed at keeps
      what it held. */
  lemma LastItemWins(items: seq<FilterItem>, banks: seq<Bank>, b: nat)
    requires WellAimed(items) && |banks| == BANKS && b < BANKS
    ensures forall i: nat :: LastAimedAt(items, i, b) ==> Compiled(items, banks)[b] == Encode(items[i])
    ensures (forall i: nat :: i < |items| ==> !AimedAt(items, i, b)) ==> Compiled(items, banks)[b] == banks[b]
  {
    hide Encode, Compiled, AimedAt, LastAimedAt;
    forall i: nat | i < |items| && LastAimedAt(items, i, b)
      ensures Compiled(items, banks)[b] == Encode(items[i])
    {
      LastItemWinsAt(items, banks, b, i);
    }
    if forall i: nat :: i < |items| ==> !AimedAt(items, i, b) {
      UntouchedBank(items, banks, b);
    }
    assert forall i: nat :: LastAimedAt(items, i, b) ==> i < |items| by {
      forall i: nat | LastAimedAt(items, i, b) ensures i < |items| { LastIsInside(items, i, b); }
    }
  }

  lemma LastIsInside(items: seq<FilterItem>, i: nat, b: nat)
    requires LastAimedAt(items, i, b)
    ensures i < |items|
  {}

  /** The bits of the field that the mask selects and two identifiers differ in. */
  function Disagreement(x: word, y: word, mask: word, field: word): word {
    (x ^ y) & mask & field
  }

  lemma DifferenceInField(x: word, y: word, m: word, field: word)
    requires Masked(x, field) == x
    ensures Differing(x, Masked(y, field), Masked(m, field)) == Disagreement(x, y, m, field)
  {}

  /** The filter as a whole: a bank passes exactly the frames the last item aimed at it describes, into FIFO 0. */
  lemma FilterRefinement(items: seq<FilterItem>, banks: seq<Bank>, b: nat, i: nat, id: bv29, ide: bv1, rtr: bv1)
    requires WellAimed(items) && |banks| == BANKS && b < BANKS && LastAimedAt(items, i, b)
    requires StandardFits(id, ide)
    ensures Accepts(Compiled(items, banks)[b], FrameWord(id as word, ide, rtr)) <==>
      && ide == items[i].ide && rtr == items[i].rtr
      && if items[i].mode == ID_MASK_MODE
         then Disagreement(id as word, items[i].id as word, items[i].mask, IdBits(ide)) == 0
         else id as word == Masked(items[i].id as word, IdBits(ide)) || id as word == Masked(items[i].mask, IdBits(ide))
    ensures var bank := Compiled(items, banks)[b]; bank.active && bank.wide && !bank.fifo1
  {
    hide Encode, Accepts, FrameWord, Differing, Masked, IdBits, Compiled, StandardFits, Disagreement, WellAimed;
    LastItemWinsAt(items, banks, b, i);
    EncodedIsOn(items[i]);
    StandardFitsKind(id, ide);
    DifferenceInField(id as word, items[i].id as word, items[i].mask, IdBits(ide));
    if items[i].mode == ID_MASK_MODE {
      MaskModeMeaning(items[i], id, ide, rtr);
    } else {
      ListModeMeaning(items[i], id, ide, rtr);
    }
  }

  // ---------------------------------------------------------------- the driver

  /** `CAN_FilterInitType`; the half-words are held in the low 16 bits. */
  datatype FilterConfig = FilterConfig(
    num: nat, highId: word, lowId: word, maskHigh: word, maskLow: word,
    fifo1: bool, listMode: bool, wide: bool, active: bool)

  /** The registers that hold one bank each, and the four words with one bit per bank. */
  datatype FilterRegs = FilterRegs(fr1: seq<word>, fr2: seq<word>, fm1: word, fs1: word, ffa1: word, fa1: word)

  predicate ShapedRegs(r: FilterRegs) {
    |r.fr1| == |r.fr2| == BANKS
  }

  function BankAt(r: FilterRegs, b: nat): Bank
    requires ShapedRegs(r) && b < BANKS
  {
    Bank(r.fr1[b], r.fr2[b], TestBit(r.fm1, b), TestBit(r.fs1, b), TestBit(r.ffa1, b), TestBit(r.fa1, b))
  }

  function Banks(r: FilterRegs): (s: seq<Bank>)
    requires ShapedRegs(r)
    ensures |s| == BANKS && forall b :: 0 <= b < BANKS ==> s[b] == BankAt(r, b)
  {
    seq(BANKS, b requires 0 <= b < BANKS => BankAt(r, b))
  }

  /** The bank a configuration stands for. */
  function BankOf(c: FilterConfig): Bank {
    Bank(if c.wide then Join(c.highId, c.lowId) else Join(c.maskLow, c.lowId),
         if c.wide then Join(c.maskHigh, c.maskLow) else Join(c.maskHigh, c.highId),
         c.listMode, c.wide, c.fifo1, c.active)
  }

  /** The registers after `CAN_InitFilter`: the bank is switched off first and back on last. */
  function Initialised(r: FilterRegs, c: FilterConfig): FilterRegs
    requires ShapedRegs(r) && c.num < BANKS
  {
    var off := Put(r.fa1, c.num, false);
    FilterRegs(r.fr1[c.num := BankOf(c).fr1], r.fr2[c.num := BankOf(c).fr2],
               Put(r.fm1, c.num, c.listMode), Put(r.fs1, c.num, c.wide), Put(r.ffa1, c.num, c.fifo1),
               if c.active then Put(off, c.num, true) else off)
  }

  /** That rewrites one bank and leaves the other thirteen alone. */
  lemma OneBankChanges(r: FilterRegs, c: FilterConfig)
    requires ShapedRegs(r) && c.num < BANKS
    ensures ShapedRegs(Initialised(r, c))
    ensures Banks(Initialised(r, c)) == Banks(r)[c.num := BankOf(c)]
  {
    hide Put, TestBit, Join;
    forall b | 0 <= b < BANKS
      ensures BankAt(Initialised(r, c), b) == if b == c.num then BankOf(c) else BankAt(r, b)
    {
      PutBit(r.fa1, c.num, false, b);
      PutBit(Put(r.fa1, c.num, false), c.num, true, b);
      PutBit(r.fs1, c.num, c.wide, b);
      PutBit(r.fm1, c.num, c.listMode, b);
      PutBit(r.ffa1, c.num, c.fifo1, b);
    }
  }

  class CanFilters {
    var config: FilterConfig
    var regs: FilterRegs

    /** `CAN_InitFilter` on the current configuration, one register at a time. */
    method InitFilter()
      requires config.num < BANKS && ShapedRegs(regs)
      modifies this`regs
      ensures ShapedRegs(regs)
      ensures Banks(regs) == Banks(old(regs))[config.num := BankOf(config)]
    {
      hide Initialised, BankOf;
      OneBankChanges(regs, config);
      WriteRegisters();
    }

    method WriteRegisters()
      requires config.num < BANKS && ShapedRegs(regs)
      modifies this`regs
      ensures regs == Initialised(old(regs), config)
    {
      hide Put, Join, BankOf;
      var n := config.num;
      regs := regs.(fa1 := Put(regs.fa1, n, false));
      WriteScale();
      WriteMode();
      if config.active {
        regs := regs.(fa1 := Put(regs.fa1, n, true));
      }
    }

    method WriteMode()
      requires config.num < BANKS
      modifies this`regs
      ensures regs == old(regs).(fm1 := Put(old(regs).fm1, config.num, config.listMode),
                                 ffa1 := Put(old(regs).ffa1, config.num, config.fifo1))
    {
      hide Put;
      var n := config.num;
      if !config.listMode {
        regs := regs.(fm1 := Put(regs.fm1, n, false));
      } else {
        regs := regs.(fm1 := Put(regs.fm1, n, true));
      }
      regs := regs.(ffa1 := Put(regs.ffa1, n, config.fifo1));
    }

    /** The two scale branches: which half-words make up the two bank registers. */
    method WriteScale()
      requires config.num < BANKS && ShapedRegs(regs)
      modifies this`regs
      ensures regs == old(regs).(fs1 := Put(old(regs).fs1, config.num, config.wide),
                                 fr1 := old(regs).fr1[config.num := BankOf(config).fr1],
                                 fr2 := old(regs).fr2[config.num := BankOf(config).fr2])
    {
      hide Put, Join;
      var n := config.num;
      if !config.wide {
        regs := regs.(fs1 := Put(regs.fs1, n, false));
        regs := regs.(fr1 := regs.fr1[n := Join(config.maskLow, config.lowId)]);
        regs := regs.(fr2 := regs.fr2[n := Join(config.maskHigh, config.highId)]);
      }
      if config.wide {
        regs := regs.(fs1 := Put(regs.fs1, n, true));
        regs := regs.(fr1 := regs.fr1[n := Join(config.highId, config.lowId)]);
        regs := regs.(fr2 := regs.fr2[n := Join(config.maskHigh, config.maskLow)]);
      }
    }

    /** RT_CAN_CMD_SET_FILTER with a list of items.  The half-words and the mask tail live across the
        iterations, as in the C code. */
    method SetFilter(items: seq<FilterItem>)
      requires WellAimed(items) && ShapedRegs(regs)
      modifies this
      ensures ShapedRegs(regs)
      ensures Banks(regs) == Compiled(items, Banks(old(regs)))
    {
      hide Join, IdHigh, IdLow, MaskHigh, MaskLow, Tail, Encode, Banks;
      var idH: word, idL: word, maskH: word, maskL: word, maskTail: word := 0, 0, 0, 0, 0;
      var i := 0;
      assert items[..0] == [];
      while i < |items|
        invariant 0 <= i <= |items|
        invariant ShapedRegs(regs)
        invariant WellAimed(items[..i])
        invariant Banks(regs) == Compiled(items[..i], Banks(old(regs)))
      {
        var item := items[i];
        assert 0 <= Target(items, i) < BANKS;
        config := config.(num := if item.hdrBank == -1 then i else item.hdrBank);
        maskTail := Tail(item);
        config := config.(listMode := item.mode == ID_LIST_MODE);
        idH, idL := IdHigh(item), IdLow(item);
        maskH, maskL := MaskHigh(item), MaskLow(item, maskTail);
        config := config.(highId := idH, lowId := idL, maskHigh := maskH, maskLow := maskL);
        config := config.(fifo1 := false, wide := true, active := true);
        InitFilter();
        assert BankOf(config) == Encode(item) by { ConfigEncodes(item, config); }
        NextItem(items, i, Banks(old(regs)));
        i := i + 1;
      }
      assert items[..i] == items;
    }
  }

  lemma ConfigEncodes(item: FilterItem, c: FilterConfig)
    requires c.highId == IdHigh(item) && c.lowId == IdLow(item)
    requires c.maskHigh == MaskHigh(item) && c.maskLow == MaskLow(item, Tail(item))
    requires c.listMode == (item.mode == ID_LIST_MODE) && c.wide && !c.fifo1 && c.active
    ensures BankOf(c) == Encode(item)
  {
    hide Join, IdHigh, IdLow, MaskHigh, MaskLow, Tail, FrameWord, MaskWord, ItemId, MaskAsId;
    HalvesJoin(item);
  }

  lemma NextItem(items: seq<FilterItem>, i: nat, banks: seq<Bank>)
    requires WellAimed(items) && i < |items| && |banks| == BANKS && WellAimed(items[..i])
    ensures WellAimed(items[..i + 1])
    ensures Compiled(items[..i + 1], banks) == Compiled(items[..i], banks)[Target(items, i) := Encode(items[i])]
  {
    hide Encode;
    var next := items[..i + 1];
    assert next[..i] == items[..i];
    forall k | 0 <= k < |next|
      ensures Target(next, k) == Target(items, k)
    {}
  }
}
