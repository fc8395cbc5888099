/** The CAN peripheral and its driver at register level.

    Each driver method is specified by a relation between the registers before and after it; the
    refinement lemmas at the end show that every such relation is one step of CanNetwork.  CanRuns
    puts the steps together. */
module CanDriver {
  import opened BitWords
  import opened CanFrame
  import opened CanNetwork
  import opened Histories

  /** `CAN_TSTS_TMEMx` */
  function Tmem(b: nat): word
    requires b < BOXES
  {
    Bit(26 + b)
  }

  predicate IsEmpty(tsts: word, b: nat)
    requires b < BOXES
  {
    Masked(tsts, Tmem(b)) == Tmem(b)
  }

  /** The hardware drops the empty flag of a mailbox. */
  function Taken(tsts: word, b: nat): word
    requires b < BOXES
  {
    Without(tsts, Tmem(b))
  }

  /** It does so when, and only when, the request bit of that mailbox is set. */
  function Reacted(tsts: word, b: nat, box: TxBox): word
    requires b < BOXES
  {
    if Requested(box) then Taken(tsts, b) else tsts
  }

  /** What one call of `sendmsg` may do: nothing when the mailbox is busy; otherwise fill that mailbox
      only, and have the hardware take it. */
  predicate SendEffect(tsts: word, boxes: seq<TxBox>, tsts': word, boxes': seq<TxBox>,
                       m: Message, i: nat, ok: bool)
  {
    && |boxes| == BOXES && i < BOXES && |m.data| == 8
    && (ok <==> IsEmpty(tsts, i))
    && boxes' == (if ok then boxes[i := Filled(boxes[i], m)] else boxes)
    && tsts' == (if ok then Reacted(tsts, i, boxes'[i]) else tsts)
    && (ok ==> Requested(boxes'[i]))
  }

  /** `CAN_TSTS_RQCPMx` */
  function Rqcp(b: nat): word
    requires b < BOXES
  {
    Bit(8 * b)
  }

  predicate Completed(tsts: word, b: nat)
    requires b < BOXES
  {
    Masked(tsts, Rqcp(b)) != 0
  }

  function Acknowledged(tsts: word, b: nat): word
    requires b < BOXES
  {
    Without(tsts, Rqcp(b))
  }

  /** The flags of the transmit status register in numbers. */
  lemma StatusBits()
    ensures Tmem(0) == 0x0400_0000 && Tmem(1) == 0x0800_0000 && Tmem(2) == 0x1000_0000
    ensures Rqcp(0) == 0x0000_0001 && Rqcp(1) == 0x0000_0100 && Rqcp(2) == 0x0001_0000
  {
    hide Bit;
    LowBitValues();
    HighBitValues();
  }

  lemma EmptyIsBit(tsts: word, b: nat)
    requires b < BOXES
    ensures IsEmpty(tsts, b) <==> TestBit(tsts, 26 + b)
  {
    hide Masked, Bit;
    SingleBit(tsts, 26 + b);
  }

  lemma AcknowledgeOne(tsts: word, b: nat, k: nat)
    requires b < BOXES && k < BOXES
    ensures Completed(Acknowledged(tsts, b), k) <==> k != b && Completed(tsts, k)
    ensures IsEmpty(Acknowledged(tsts, b), k) <==> IsEmpty(tsts, k)
  {
    hide Bit, Masked, Without, IsEmpty;
    EmptyIsBit(tsts, k);
    EmptyIsBit(Acknowledged(tsts, b), k);
    OneBitChanges(tsts, 8 * b, 8 * k);
    OneBitChanges(tsts, 8 * b, 26 + k);
  }

  // ---------------------------------------------------------------- receive FIFO registers

  const FFMP: word := 0x03
  const FFULL: word := 0x08
  const FFOVR: word := 0x10
  const RFFOM: word := 0x20

  predicate HasPending(rff: word) {
    rff & FFMP != 0
  }

  predicate HasFull(rff: word) {
    rff & FFULL != 0
  }

  predicate HasOverrun(rff: word) {
    rff & FFOVR != 0
  }

  /** The register the hardware shows: two flags and the number of waiting messages. */
  function Shown(flags: word, pending: bv2): word {
    (flags & (FFULL | FFOVR)) | (pending as word)
  }

  function Count(n: nat): (c: bv2)
    requires n <= DEPTH
    ensures c == 0 <==> n == 0
  {
    if n == 0 then 0 else if n == 1 then 1 else if n == 2 then 2 else 3
  }

  /** Writing a 1 to a flag clears it, which is how `CAN_ClearFlag` uses the register. */
  function Cleared(rff: word, written: word): word {
    rff & !written
  }

  function WithRelease(rff: word): word {
    rff | RFFOM
  }

  predicate Releases(written: word) {
    written & RFFOM != 0
  }

  /** `RFFx |= RFFOMx` writes the flags it read back to the register, so it clears both of them. */
  lemma ReleaseClearsFlags(rff: word, pending: bv2)
    ensures var rff' := Shown(Cleared(rff, WithRelease(rff)), pending);
            !HasFull(rff') && !HasOverrun(rff') && (HasPending(rff') <==> pending != 0)
    ensures Releases(WithRelease(rff))
  {}

  lemma ClearFull(rff: word, pending: bv2)
    ensures HasOverrun(Shown(Cleared(rff, FFULL), pending)) <==> HasOverrun(rff)
    ensures HasPending(Shown(Cleared(rff, FFULL), pending)) <==> pending != 0
    ensures !Releases(FFULL)
  {}

  lemma ClearOverrun(rff: word, pending: bv2)
    ensures !HasOverrun(Shown(Cleared(rff, FFOVR), pending))
    ensures HasPending(Shown(Cleared(rff, FFOVR), pending)) <==> pending != 0
    ensures !Releases(FFOVR)
  {}

  function AfterWrite(q: seq<RxBox>, written: word): (q': seq<RxBox>)
    ensures |q'| <= |q|
  {
    if Releases(written) && q != [] then q[1..] else q
  }

  /** What one call of `recvmsg` may do: nothing on an empty FIFO; otherwise hand over the message in
      the output slot, release exactly that slot, and clear the full and overrun flags with it. */
  predicate RecvEffect(rff: seq<word>, queue: seq<seq<RxBox>>, rff': seq<word>, queue': seq<seq<RxBox>>,
                       f: nat, got: Option<Message>, hdr: int)
  {
    && |rff| == |queue| == |rff'| == FIFOS && f < FIFOS
    && (queue[f] == [] ==> got == None && rff' == rff && queue' == queue)
    && (queue[f] != [] ==>
          && got == Some(Decode(queue[f][0]))
          && hdr == HdrIndex(MatchIndexOf(queue[f][0].rmdt))
          && queue' == queue[f := queue[f][1..]]
          && rff' == rff[f := rff'[f]]
          && !HasFull(rff'[f]) && !HasOverrun(rff'[f])
          && (HasPending(rff'[f]) <==> queue'[f] != []))
  }

  /** What one receive interrupt may do: take the oldest message if there is one, and leave the overrun flag down.
      It reports an overrun only if the flag is still up after its own receive. */
  predicate RxIsrEffect(rff: seq<word>, queue: seq<seq<RxBox>>, rff': seq<word>, queue': seq<seq<RxBox>>,
                        f: nat, first: Option<Message>, overrunReported: bool, second: Option<Message>)
  {
    && |rff| == |queue| == |rff'| == FIFOS && f < FIFOS
    && first == (if queue[f] == [] then None else Some(Decode(queue[f][0]))) && second == None
    && (overrunReported <==> HasOverrun(rff[f]) && queue[f] == [])
    && queue' == (if queue[f] == [] then queue else queue[f := queue[f][1..]])
    && rff' == rff[f := rff'[f]]
    && !HasOverrun(rff'[f])
    && (HasPending(rff'[f]) <==> queue'[f] != [])
  }

  /** What one transmit interrupt may do: report the completed requests in order and clear their flags only. */
  predicate TxIsrEffect(tsts: word, tsts': word, done: seq<nat>) {
    && (forall b :: 0 <= b < BOXES ==> (b in done <==> Completed(tsts, b)))
    && (forall i, j :: 0 <= i < j < |done| ==> done[i] < done[j] < BOXES)
    && (forall b :: 0 <= b < BOXES ==> !Completed(tsts', b))
    && (forall b :: 0 <= b < BOXES ==> (IsEmpty(tsts', b) <==> IsEmpty(tsts, b)))
  }

  /** The pending count follows the hardware queue. */
  predicate FifosAgree(rff: seq<word>, queue: seq<seq<RxBox>>) {
    && |rff| == |queue| == FIFOS
    && forall f :: 0 <= f < FIFOS ==> |queue[f]| <= DEPTH && (HasPending(rff[f]) <==> queue[f] != [])
  }

  class CanModule {
    var tsts: word
    const txBox: array<TxBox>
    /** `RFF0` and `RFF1` */
    var rff: seq<word>
    /** The hardware FIFOs; slot 0 is the output mailbox the driver reads. */
    var queue: seq<seq<RxBox>>

    constructor ()
      ensures txBox.Length == BOXES && fresh(txBox)
      ensures tsts == POWER_UP
      ensures rff == [0, 0] && queue == [[], []]
    {
      tsts := POWER_UP;
      txBox := new TxBox[BOXES](_ => TxBox(0, 0, 0, 0));
      rff := [0, 0];
      queue := [[], []];
    }

    method SetUpId(m: Message, i: nat)
      requires i < txBox.Length
      modifies txBox
      ensures txBox[..] == old(txBox[..])[i := old(txBox[i]).(tmi := IdWord(old(txBox[i]).tmi, m.id, m.ide, m.rtr))]
    {
      hide Masked, With, SentBits, FrameWord;
      SentBitsAreFrameWord(m.id as word, m.ide, m.rtr);
      txBox[i] := txBox[i].(tmi := Masked(txBox[i].tmi, TXRQ));
      txBox[i] := txBox[i].(tmi := With(txBox[i].tmi, SentBits(m.id as word, m.ide, m.rtr)));
    }

    method SetUpDlc(m: Message, i: nat)
      requires i < txBox.Length
      modifies txBox
      ensures txBox[..] == old(txBox[..])[i := old(txBox[i]).(tmdt := LengthWord(old(txBox[i]).tmdt, m.len))]
    {
      hide UpperLength, AddLength;
      txBox[i] := txBox[i].(tmdt := UpperLength(txBox[i].tmdt));
      txBox[i] := txBox[i].(tmdt := AddLength(txBox[i].tmdt, m.len));
    }

    method SetUpData(m: Message, i: nat)
      requires i < txBox.Length && |m.data| == 8
      modifies txBox
      ensures txBox[..] == old(txBox[..])[i := old(txBox[i]).(tmdl := LowData(m), tmdh := HighData(m))]
    {
      txBox[i] := txBox[i].(tmdh := PackBytes(m.data[4], m.data[5], m.data[6], m.data[7]));
      txBox[i] := txBox[i].(tmdl := PackBytes(m.data[0], m.data[1], m.data[2], m.data[3]));
    }

    method RequestTransmission(i: nat)
      requires i < BOXES && txBox.Length == BOXES
      modifies this`tsts, txBox
      ensures txBox[..] == old(txBox[..])[i := old(txBox[i]).(tmi := RequestWord(old(txBox[i]).tmi))]
      ensures tsts == Reacted(old(tsts), i, txBox[i])
    {
      txBox[i] := txBox[i].(tmi := txBox[i].tmi | TXRQ);
      tsts := Reacted(tsts, i, txBox[i]);
    }

    /** `can_sendmsg_rtmsg`: fills the mailbox, then requests transmission. */
    method CanSendmsgRtmsg(m: Message, i: nat)
      requires CanFrame.Valid(m) && i < BOXES && txBox.Length == BOXES && IsEmpty(tsts, i)
      modifies this`tsts, txBox
      ensures SendEffect(old(tsts), old(txBox[..]), tsts, txBox[..], m, i, true)
    {
      hide IsEmpty, Reacted, Requested, IdWord, LengthWord, LowData, HighData, RequestWord;
      FilledIsRequested(txBox[i], m);
      SetUpId(m, i);
      SetUpDlc(m, i);
      SetUpData(m, i);
      RequestTransmission(i);
    }

    /** `sendmsg`: 0 for RT_EOK, -1 for -RT_ERROR. */
    method SendMsg(m: Message, boxNum: nat) returns (rc: int)
      requires CanFrame.Valid(m) && boxNum < BOXES && txBox.Length == BOXES
      modifies this`tsts, txBox
      ensures SendEffect(old(tsts), old(txBox[..]), tsts, txBox[..], m, boxNum, rc == 0)
    {
      hide Filled, Reacted, Requested;
      if Masked(tsts, Tmem(boxNum)) != Tmem(boxNum) {
        return -1;
      }
      CanSendmsgRtmsg(m, boxNum);
      rc := 0;
    }

    /** The hardware's reaction to a write of `written` to a FIFO register. */
    method WriteRff(f: nat, written: word)
      requires f < FIFOS && |rff| == |queue| == FIFOS && |queue[f]| <= DEPTH
      modifies this`rff, this`queue
      ensures queue == old(queue)[f := AfterWrite(old(queue)[f], written)]
      ensures |queue[f]| <= DEPTH
      ensures rff == old(rff)[f := Shown(Cleared(old(rff)[f], written), Count(|queue[f]|))]
    {
      hide Releases, Shown, Cleared, Count;
      queue := queue[f := AfterWrite(queue[f], written)];
      rff := rff[f := Shown(Cleared(rff[f], written), Count(|queue[f]|))];
    }

    /** `can_recvmsg_rtmsg` through `recvmsg`: None stands for -RT_ERROR. */
    method RecvMsg(f: nat) returns (got: Option<Message>, hdrIndex: int)
      requires f < FIFOS && FifosAgree(rff, queue)
      modifies this`rff, this`queue
      ensures RecvEffect(old(rff), old(queue), rff, queue, f, got, hdrIndex)
      ensures FifosAgree(rff, queue)
    {
      hide Releases, Shown, Cleared, WithRelease, HasPending, HasFull, HasOverrun, Count;
      hide Decode, MatchIndexOf, HdrIndex;
      if !HasPending(rff[f]) {
        return None, 0;
      }
      var slot := queue[f][0];
      got := Some(Decode(slot));
      hdrIndex := HdrIndex(MatchIndexOf(slot.rmdt));
      ReleaseClearsFlags(rff[f], Count(|queue[f]| - 1));
      WriteRff(f, WithRelease(rff[f]));
    }

    /** `can_rx_isr` for one FIFO.  Either event makes the upper layer call `recvmsg` once
        (`rt_hw_can_isr`, where the overrun case falls into the receive case). */
    method RxIsr(f: nat) returns (first: Option<Message>, overrunReported: bool, second: Option<Message>)
      requires f < FIFOS && FifosAgree(rff, queue)
      modifies this`rff, this`queue
      ensures FifosAgree(rff, queue)
      ensures RxIsrEffect(old(rff), old(queue), rff, queue, f, first, overrunReported, second)
    {
      hide Releases, Shown, Cleared, HasPending, HasFull, HasOverrun, Count, Decode;
      var hdr: int;
      first, second, overrunReported := None, None, false;
      if HasPending(rff[f]) {
        first, hdr := RecvMsg(f);
      }
      if HasFull(rff[f]) {
        ClearFull(rff[f], Count(|queue[f]|));
        WriteRff(f, FFULL);
      }
      if HasOverrun(rff[f]) {
        ClearOverrun(rff[f], Count(|queue[f]|));
        WriteRff(f, FFOVR);
        overrunReported := true;
        second, hdr := RecvMsg(f);
      }
    }

    /** One `if` of the transmit interrupt: report a completed request and clear its flag. */
    method ReportCompletion(b: nat) returns (reported: bool)
      requires b < BOXES
      modifies this`tsts
      ensures reported == Completed(old(tsts), b)
      ensures forall k :: 0 <= k < BOXES ==> (Completed(tsts, k) <==> k != b && Completed(old(tsts), k))
      ensures forall k :: 0 <= k < BOXES ==> (IsEmpty(tsts, k) <==> IsEmpty(old(tsts), k))
    {
      hide Completed, IsEmpty, Acknowledged;
      forall k | 0 <= k < BOXES
        ensures Completed(Acknowledged(tsts, b), k) <==> k != b && Completed(tsts, k)
        ensures IsEmpty(Acknowledged(tsts, b), k) <==> IsEmpty(tsts, k)
      {
        AcknowledgeOne(tsts, b, k);
      }
      reported := Completed(tsts, b);
      if reported {
        tsts := Acknowledged(tsts, b);
      }
    }

    /** `CAN_TX_IRQHandler`: one completion event per mailbox whose request has completed, in order. */
    method TxIsr() returns (done: seq<nat>)
      modifies this`tsts
      ensures TxIsrEffect(old(tsts), tsts, done)
    {
      hide Completed, IsEmpty;
      done := [];
      var reported := ReportCompletion(0);
      if reported { done := done + [0]; }
      reported := ReportCompletion(1);
      if reported { done := done + [1]; }
      reported := ReportCompletion(2);
      if reported { done := done + [2]; }
    }
  }

  // ---------------------------------------------------------------- refinement

  datatype Regs = Regs(tsts: word, boxes: seq<TxBox>, rff: seq<word>, queue: seq<seq<RxBox>>)

  function DecodeAll(q: seq<RxBox>): (ms: seq<Message>)
    ensures |ms| == |q| && forall i :: 0 <= i < |q| ==> ms[i] == Decode(q[i])
  {
    seq(|q|, i requires 0 <= i < |q| => Decode(q[i]))
  }

  /** Every mailbox and FIFO shows what the message-level network holds. */
  predicate BoxesMatch(r: Regs, net: Net) {
    && |r.boxes| == |net.box| == BOXES
    && forall b :: 0 <= b < BOXES ==>
      && net.box[b] == (if IsEmpty(r.tsts, b) then None else Some(Decode(Received(r.boxes[b], 0))))
      && (IsEmpty(r.tsts, b) || Requested(r.boxes[b]))
  }

  predicate FifosMatch(r: Regs, net: Net) {
    && FifosAgree(r.rff, r.queue)
    && |net.fifo| == |net.overrun| == FIFOS
    && forall f :: 0 <= f < FIFOS ==>
      net.fifo[f] == DecodeAll(r.queue[f]) && (HasOverrun(r.rff[f]) <==> net.overrun[f])
  }

  predicate Matches(r: Regs, net: Net) {
    Shaped(net) && BoxesMatch(r, net) && FifosMatch(r, net)
  }

  /** A call of `sendmsg` is a Send step, and it succeeds exactly when the mailbox is free. */
  lemma SendRefines(r: Regs, r': Regs, net: Net, m: Message, i: nat, ok: bool)
    requires Matches(r, net) && WellFormed(Send(m, i))
    requires SendEffect(r.tsts, r.boxes, r'.tsts, r'.boxes, m, i, ok)
    requires r'.rff == r.rff && r'.queue == r.queue
    ensures ok <==> net.box[i].None?
    ensures Matches(r', Step(net, Send(m, i)))
  {
    hide IsEmpty, Taken, Requested, Filled, Decode, Received, HasPending, HasOverrun, DecodeAll;
    if ok {
      var net' := Step(net, Send(m, i));
      FilledIsRequested(r.boxes[i], m);
      forall b | 0 <= b < BOXES
        ensures net'.box[b] == if IsEmpty(r'.tsts, b) then None else Some(Decode(Received(r'.boxes[b], 0)))
        ensures IsEmpty(r'.tsts, b) || Requested(r'.boxes[b])
      {
        TakenClears(r.tsts, i, b);
        MessageRoundTrip(r.boxes[i], m, 0);
      }
    }
  }

  lemma TakenClears(tsts: word, i: nat, b: nat)
    requires i < BOXES && b < BOXES
    ensures IsEmpty(Taken(tsts, i), b) <==> b != i && IsEmpty(tsts, b)
  {
    hide Bit, Masked, Without, IsEmpty;
    EmptyIsBit(tsts, b);
    EmptyIsBit(Taken(tsts, i), b);
    OneBitChanges(tsts, 26 + i, 26 + b);
  }

  /** A call of `recvmsg` is a Receive step and hands over the oldest message of the FIFO. */
  lemma RecvRefines(r: Regs, r': Regs, net: Net, f: nat, got: Option<Message>, hdr: int)
    requires Matches(r, net) && f < FIFOS
    requires RecvEffect(r.rff, r.queue, r'.rff, r'.queue, f, got, hdr)
    requires r'.tsts == r.tsts && r'.boxes == r.boxes
    ensures got == if net.fifo[f] == [] then None else Some(net.fifo[f][0])
    ensures Matches(r', Step(net, Receive(f)))
  {
    hide IsEmpty, Decode, Received, HasPending, HasOverrun, HasFull, MatchIndexOf, HdrIndex;
    if r.queue[f] != [] {
      assert DecodeAll(r.queue[f][1..]) == DecodeAll(r.queue[f])[1..];
    }
  }

  /** The hardware sends what a mailbox holds only if it is taken and its request bit is set. */
  predicate Sending(r: Regs, b: nat)
    requires b < BOXES && |r.boxes| == BOXES
  {
    !IsEmpty(r.tsts, b) && Requested(r.boxes[b])
  }

  /** The hardware finishes with mailbox b: the mailbox is empty and its request complete. */
  predicate BoxFinished(tsts: word, tsts': word, b: nat) {
    && (forall k :: 0 <= k < BOXES ==> (IsEmpty(tsts', k) <==> k == b || IsEmpty(tsts, k)))
    && (forall k :: 0 <= k < BOXES ==> (Completed(tsts', k) <==> k == b || Completed(tsts, k)))
  }

  /** The hardware puts a frame into a FIFO, or over its newest slot, raising the overrun flag, when all three are
      taken. */
  predicate FifoGains(rff: seq<word>, queue: seq<seq<RxBox>>, rff': seq<word>, queue': seq<seq<RxBox>>,
                      f: nat, slot: RxBox)
  {
    && f < FIFOS && |rff| == |queue| == |rff'| == FIFOS
    && queue' == queue[f := if |queue[f]| < DEPTH then queue[f] + [slot] else queue[f][..DEPTH - 1] + [slot]]
    && rff' == rff[f := rff'[f]]
    && HasPending(rff'[f])
    && (HasOverrun(rff'[f]) <==> HasOverrun(rff[f]) || |queue[f]| >= DEPTH)
  }

  /** In loopback a pending frame goes from a mailbox to a FIFO of the same module. */
  predicate TransferEffect(r: Regs, r': Regs, b: nat, f: nat, fmi: byte) {
    && b < BOXES && f < FIFOS && |r.boxes| == BOXES
    && (!Sending(r, b) ==> r' == r)
    && (Sending(r, b) ==>
          && BoxFinished(r.tsts, r'.tsts, b) && r'.boxes == r.boxes[b := Idle(r.boxes[b])]
          && FifoGains(r.rff, r.queue, r'.rff, r'.queue, f, Received(r.boxes[b], fmi)))
  }

  /** Otherwise it goes out on the bus. */
  predicate DepartEffect(r: Regs, r': Regs, b: nat) {
    && b < BOXES && |r.boxes| == BOXES
    && (!Sending(r, b) ==> r' == r)
    && (Sending(r, b) ==>
          && BoxFinished(r.tsts, r'.tsts, b)
          && r' == r.(tsts := r'.tsts, boxes := r.boxes[b := Idle(r.boxes[b])]))
  }

  /** A frame of another node arrives. */
  predicate ArriveEffect(r: Regs, r': Regs, f: nat, slot: RxBox) {
    r'.tsts == r.tsts && r'.boxes == r.boxes && FifoGains(r.rff, r.queue, r'.rff, r'.queue, f, slot)
  }

  lemma BoxFreed(r: Regs, r': Regs, net: Net, net': Net, b: nat)
    requires b < BOXES && BoxesMatch(r, net) && BoxFinished(r.tsts, r'.tsts, b)
    requires r'.boxes == r.boxes[b := Idle(r.boxes[b])]
    requires net'.box == net.box[b := None]
    ensures BoxesMatch(r', net')
  {
    hide IsEmpty, Completed, Decode, Received, Requested, Idle;
  }

  lemma FifoFilled(r: Regs, r': Regs, net: Net, f: nat, slot: RxBox, m: Message)
    requires Shaped(net) && FifosMatch(r, net) && FifoGains(r.rff, r.queue, r'.rff, r'.queue, f, slot)
    requires m == Decode(slot)
    ensures FifosMatch(r', Arrive(net, f, m))
  {
    hide Decode, HasPending, HasOverrun, Append;
    var q := r.queue[f];
    if |q| < DEPTH {
      assert DecodeAll(q + [slot]) == DecodeAll(q) + [m];
    } else {
      assert DecodeAll(q[..DEPTH - 1] + [slot]) == DecodeAll(q)[..DEPTH - 1] + [m];
    }
  }

  lemma ArriveKeepsBoxes(r: Regs, net: Net, f: nat, m: Message)
    requires Shaped(net) && f < FIFOS && BoxesMatch(r, net)
    ensures BoxesMatch(r, Arrive(net, f, m))
  {
    hide IsEmpty, Decode, Received;
  }

  lemma SameFifos(r: Regs, r': Regs, net: Net, net': Net)
    requires FifosMatch(r, net) && r'.rff == r.rff && r'.queue == r.queue
    requires net'.fifo == net.fifo && net'.overrun == net.overrun
    ensures FifosMatch(r', net')
  {
    hide Decode, HasPending, HasOverrun;
  }

  lemma TransferRefines(r: Regs, r': Regs, net: Net, b: nat, f: nat, fmi: byte)
    requires Matches(r, net) && TransferEffect(r, r', b, f, fmi)
    ensures Matches(r', Step(net, Transfer(b, f)))
  {
    hide IsEmpty, Requested, Decode, Received, FifosAgree, BoxFinished, FifoGains, FifosMatch, Append, Arrive, Idle;
    if net.box[b].Some? {
      var m := net.box[b].value;
      var open := net.(box := net.box[b := None], moved := Append(net.moved, b, m));
      MatchIndexIsApart(r.boxes[b], fmi);
      BoxFreed(r, r', net, open, b);
      SameFifos(r, r, net, open);
      FifoFilled(r, r', open, f, Received(r.boxes[b], fmi), m);
      ArriveKeepsBoxes(r', open, f, m);
    }
  }

  lemma DepartRefines(r: Regs, r': Regs, net: Net, b: nat)
    requires Matches(r, net) && DepartEffect(r, r', b)
    ensures Matches(r', Step(net, Depart(b)))
  {
    hide IsEmpty, Requested, Decode, Received, FifosAgree, BoxFinished, FifosMatch, Append, Idle;
    if net.box[b].Some? {
      BoxFreed(r, r', net, Step(net, Depart(b)), b);
      SameFifos(r, r', net, Step(net, Depart(b)));
    }
  }

  lemma ArriveRefines(r: Regs, r': Regs, net: Net, f: nat, slot: RxBox)
    requires Matches(r, net) && f < FIFOS && ArriveEffect(r, r', f, slot)
    ensures Matches(r', Step(net, Incoming(f, Decode(slot))))
  {
    hide IsEmpty, Decode, Received, FifosAgree, FifoGains, FifosMatch, Append, Arrive;
    var m := Decode(slot);
    var open := net.(arrived := Append(net.arrived, f, m));
    SameFifos(r, r, net, open);
    FifoFilled(r, r', open, f, slot, m);
    ArriveKeepsBoxes(r', open, f, m);
  }

  /** A receive interrupt is a Receive step too: in a conserved state the overrun flag is up only while the FIFO is
      full, so the interrupt's own receive clears it before it is looked at. */
  lemma RxIsrRefines(r: Regs, r': Regs, net: Net, f: nat, first: Option<Message>, reported: bool, second: Option<Message>)
    requires Matches(r, net) && FifosConserve(net) && f < FIFOS
    requires RxIsrEffect(r.rff, r.queue, r'.rff, r'.queue, f, first, reported, second)
    requires r'.tsts == r.tsts && r'.boxes == r.boxes
    ensures !reported && second == None && first == if net.fifo[f] == [] then None else Some(net.fifo[f][0])
    ensures Matches(r', Step(net, Receive(f)))
  {
    hide IsEmpty, Decode, Received, HasPending, HasOverrun;
    if r.queue[f] != [] {
      assert DecodeAll(r.queue[f][1..]) == DecodeAll(r.queue[f])[1..];
    }
  }

  /** A transmit interrupt changes nothing the message level sees. */
  lemma TxIsrStutters(r: Regs, r': Regs, net: Net, done: seq<nat>)
    requires Matches(r, net) && TxIsrEffect(r.tsts, r'.tsts, done)
    requires r'.boxes == r.boxes && r'.rff == r.rff && r'.queue == r.queue
    ensures Matches(r', net)
  {
    hide IsEmpty, Completed, Decode, Received, DecodeAll, HasPending, HasOverrun;
  }

  const POWER_UP: word := 0x1C00_0000

  /** The registers after the constructor match the empty network. */
  lemma InitialMatches(boxes: seq<TxBox>)
    requires |boxes| == BOXES
    ensures Matches(Regs(POWER_UP, boxes, [0, 0], [[], []]), EMPTY)
  {
    forall b | 0 <= b < BOXES
      ensures IsEmpty(POWER_UP, b)
    {
      AllEmpty(b);
    }
    NoFlags();
  }

  lemma AllEmpty(b: nat)
    requires b < BOXES
    ensures IsEmpty(POWER_UP, b)
  {
    HighBitValues();
  }

  lemma NoFlags()
    ensures !HasPending(0) && !HasOverrun(0)
  {}
}
