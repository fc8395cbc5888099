/** Runs of the CAN driver on its registers: driver calls, both interrupts and the hardware's own steps, with what
    every caller sees, refine the runs of CanNetwork. */
module CanRuns {
  import opened BitWords
  import opened CanFrame
  import opened CanNetwork
  import opened CanDriver
  import opened Histories

  /** Everything that touches the registers: the calls, both interrupts, and the hardware moving frames. */
  datatype Call =
    | SendCall(m: Message, b: nat)
    | RecvCall(f: nat)
    | RxInterrupt(f: nat)
    | TxInterrupt
    | HwTransfer(b: nat, f: nat)
    | HwDepart(b: nat)
    | HwArrive(f: nat, slot: RxBox)

  /** What comes back from it: results of the calls, and the frame the bus sees. */
  datatype Seen =
    | Sent(ok: bool)
    | Took(got: Option<Message>, hdr: int)
    | Interrupted(first: Option<Message>, overrunReported: bool, second: Option<Message>)
    | Finished(done: seq<nat>)
    | OnWire(frame: Option<Message>)
    | Nothing

  /** The frame pending in a mailbox. */
  function BoxFrame(r: Regs, b: nat): Option<Message>
    requires b < BOXES && |r.boxes| == BOXES
  {
    if IsEmpty(r.tsts, b) then None else Some(Decode(Received(r.boxes[b], 0)))
  }

  predicate Possible(c: Call) {
    match c
    case SendCall(m, b) => CanFrame.Valid(m) && b < BOXES
    case RecvCall(f) => f < FIFOS
    case RxInterrupt(f) => f < FIFOS
    case TxInterrupt => true
    case HwTransfer(b, f) => b < BOXES && f < FIFOS
    case HwDepart(b) => b < BOXES
    case HwArrive(f, slot) => f < FIFOS
  }

  /** One step of the registers: a call with the effect and the result its contract states, or a transfer. */
  ghost predicate RegStep(r: Regs, r': Regs, c: Call, seen: Seen) {
    match c
    case SendCall(m, b) =>
      && seen.Sent? && r'.rff == r.rff && r'.queue == r.queue
      && SendEffect(r.tsts, r.boxes, r'.tsts, r'.boxes, m, b, seen.ok)
    case RecvCall(f) =>
      && seen.Took? && r'.tsts == r.tsts && r'.boxes == r.boxes
      && RecvEffect(r.rff, r.queue, r'.rff, r'.queue, f, seen.got, seen.hdr)
    case RxInterrupt(f) =>
      && seen.Interrupted? && r'.tsts == r.tsts && r'.boxes == r.boxes
      && RxIsrEffect(r.rff, r.queue, r'.rff, r'.queue, f, seen.first, seen.overrunReported, seen.second)
    case TxInterrupt =>
      && seen.Finished? && r'.boxes == r.boxes && r'.rff == r.rff && r'.queue == r.queue
      && TxIsrEffect(r.tsts, r'.tsts, seen.done)
    case HwTransfer(b, f) =>
      seen.Nothing? && exists fmi :: TransferEffect(r, r', b, f, fmi)
    case HwDepart(b) =>
      DepartEffect(r, r', b) && seen == OnWire(if Sending(r, b) then BoxFrame(r, b) else None)
    case HwArrive(f, slot) =>
      seen.Nothing? && ArriveEffect(r, r', f, slot)
  }

  /** rs is a register-level run of the calls cs with the results outs. */
  ghost predicate RegRun(rs: seq<Regs>, cs: seq<Call>, outs: seq<Seen>) {
    && |rs| == |cs| + 1 && |outs| == |cs|
    && forall i :: 0 <= i < |cs| ==> Possible(cs[i]) && RegStep(rs[i], rs[i + 1], cs[i], outs[i])
  }

  /** The message-level events of one call. */
  function EventsOf(c: Call): (es: seq<Event>)
    requires Possible(c)
    ensures forall i :: 0 <= i < |es| ==> WellFormed(es[i])
  {
    match c
    case SendCall(m, b) => [Send(m, b)]
    case RecvCall(f) => [Receive(f)]
    case RxInterrupt(f) => [Receive(f)]
    case TxInterrupt => []
    case HwTransfer(b, f) => [Transfer(b, f)]
    case HwDepart(b) => [Depart(b)]
    case HwArrive(f, slot) => [Incoming(f, Decode(slot))]
  }

  function Events(cs: seq<Call>): (es: seq<Event>)
    requires forall i :: 0 <= i < |cs| ==> Possible(cs[i])
    ensures forall i :: 0 <= i < |es| ==> WellFormed(es[i])
  {
    if cs == [] then [] else EventsOf(cs[0]) + Events(cs[1..])
  }

  /** The messages a step handed to a caller from FIFO f, accepted for mailbox b, put on the bus from mailbox b, and
      received from the bus for FIFO f. */
  function HandedBy(c: Call, seen: Seen, f: nat): seq<Message> {
    if c.RecvCall? && c.f == f && seen.Took? then Pending(seen.got)
    else if c.RxInterrupt? && c.f == f && seen.Interrupted? then Pending(seen.first) + Pending(seen.second)
    else []
  }

  function AcceptedBy(c: Call, seen: Seen, b: nat): seq<Message> {
    if c.SendCall? && c.b == b && seen.Sent? && seen.ok then [OnBus(c.m)] else []
  }

  function DepartedBy(c: Call, seen: Seen, b: nat): seq<Message> {
    if c.HwDepart? && c.b == b && seen.OnWire? then Pending(seen.frame) else []
  }

  function ArrivedBy(c: Call, f: nat): seq<Message> {
    if c.HwArrive? && c.f == f then [Decode(c.slot)] else []
  }

  function Handed(cs: seq<Call>, outs: seq<Seen>, f: nat): seq<Message>
    requires |outs| == |cs|
  {
    if cs == [] then [] else HandedBy(cs[0], outs[0], f) + Handed(cs[1..], outs[1..], f)
  }

  function Accepted(cs: seq<Call>, outs: seq<Seen>, b: nat): seq<Message>
    requires |outs| == |cs|
  {
    if cs == [] then [] else AcceptedBy(cs[0], outs[0], b) + Accepted(cs[1..], outs[1..], b)
  }

  function Departed(cs: seq<Call>, outs: seq<Seen>, b: nat): seq<Message>
    requires |outs| == |cs|
  {
    if cs == [] then [] else DepartedBy(cs[0], outs[0], b) + Departed(cs[1..], outs[1..], b)
  }

  function Arrived(cs: seq<Call>, f: nat): seq<Message> {
    if cs == [] then [] else ArrivedBy(cs[0], f) + Arrived(cs[1..], f)
  }

  /** What a step adds to the histories is what was seen of it. */
  ghost predicate Recorded(net: Net, net': Net, c: Call, seen: Seen) {
    && Shaped(net) && Shaped(net')
    && (forall f :: 0 <= f < FIFOS ==> net'.returned[f] == net.returned[f] + HandedBy(c, seen, f))
    && (forall b :: 0 <= b < BOXES ==> net'.sent[b] == net.sent[b] + AcceptedBy(c, seen, b))
    && (forall b :: 0 <= b < BOXES ==> net'.departed[b] == net.departed[b] + DepartedBy(c, seen, b))
    && (forall f :: 0 <= f < FIFOS ==> net'.arrived[f] == net.arrived[f] + ArrivedBy(c, f))
  }

  /** What the message level says the caller of c must see. */
  ghost predicate Foretold(net: Net, c: Call, seen: Seen)
    requires Shaped(net) && Possible(c)
  {
    match c
    case SendCall(m, b) => seen.Sent? && (seen.ok <==> net.box[b].None?)
    case RecvCall(f) => seen.Took? && seen.got == Oldest(net, f)
    case RxInterrupt(f) => seen.Interrupted? && seen.first == Oldest(net, f) && seen.second == None && !seen.overrunReported
    case TxInterrupt => seen.Finished?
    case HwTransfer(b, f) => seen.Nothing?
    case HwDepart(b) => seen == OnWire(net.box[b])
    case HwArrive(f, slot) => seen.Nothing?
  }

  function Oldest(net: Net, f: nat): Option<Message>
    requires Shaped(net) && f < FIFOS
  {
    if net.fifo[f] == [] then None else Some(net.fifo[f][0])
  }

  lemma ForetoldIsRecorded(net: Net, c: Call, seen: Seen)
    requires Shaped(net) && Possible(c) && Foretold(net, c, seen)
    ensures Recorded(net, Run(net, EventsOf(c)), c, seen)
  {
    hide Step, OnBus, Recorded, Append;
    match c
    case SendCall(m, b) => OneEvent(net, Send(m, b)); SendRecorded(net, m, b, seen);
    case RecvCall(f) => OneEvent(net, Receive(f)); ReceiveRecorded(net, c, seen);
    case RxInterrupt(f) => OneEvent(net, Receive(f)); ReceiveRecorded(net, c, seen);
    case TxInterrupt => NothingRecorded(net, net, c, seen);
    case HwTransfer(b, f) =>
      OneEvent(net, Transfer(b, f));
      TransferSilent(net, b, f);
      NothingRecorded(net, Step(net, Transfer(b, f)), c, seen);
    case HwDepart(b) => OneEvent(net, Depart(b)); DepartRecorded(net, b, seen);
    case HwArrive(f, slot) => OneEvent(net, Incoming(f, Decode(slot))); ArriveRecorded(net, f, slot, seen);
  }

  lemma SendRecorded(net: Net, m: Message, b: nat, seen: Seen)
    requires Shaped(net) && Possible(SendCall(m, b)) && Foretold(net, SendCall(m, b), seen)
    ensures Recorded(net, Step(net, Send(m, b)), SendCall(m, b), seen)
  {
    hide OnBus;
  }

  lemma ReceiveRecorded(net: Net, c: Call, seen: Seen)
    requires Shaped(net) && (c.RecvCall? || c.RxInterrupt?) && Possible(c) && Foretold(net, c, seen)
    ensures Recorded(net, Step(net, Receive(c.f)), c, seen)
  {}

  lemma DepartRecorded(net: Net, b: nat, seen: Seen)
    requires Shaped(net) && b < BOXES && seen == OnWire(net.box[b])
    ensures Recorded(net, Step(net, Depart(b)), HwDepart(b), seen)
  {}

  lemma ArriveRecorded(net: Net, f: nat, slot: RxBox, seen: Seen)
    requires Shaped(net) && f < FIFOS
    ensures Recorded(net, Step(net, Incoming(f, Decode(slot))), HwArrive(f, slot), seen)
  {
    hide Decode;
  }

  lemma TransferSilent(net: Net, b: nat, f: nat)
    requires Shaped(net) && b < BOXES && f < FIFOS
    ensures SameSeen(net, Step(net, Transfer(b, f)))
  {}

  predicate SameSeen(net: Net, net': Net) {
    net'.sent == net.sent && net'.returned == net.returned && net'.departed == net.departed && net'.arrived == net.arrived
  }

  lemma NothingRecorded(net: Net, net': Net, c: Call, seen: Seen)
    requires Shaped(net) && Shaped(net') && SameSeen(net, net')
    requires c.TxInterrupt? || c.HwTransfer?
    ensures Recorded(net, net', c, seen)
  {}

  lemma StepMatches(r: Regs, r': Regs, net: Net, c: Call, seen: Seen)
    requires Matches(r, net) && Conserved(net) && Possible(c) && RegStep(r, r', c, seen)
    ensures Matches(r', Run(net, EventsOf(c))) && Foretold(net, c, seen)
  {
    hide SendEffect, RecvEffect, TransferEffect, RxIsrEffect, TxIsrEffect, BoxesMatch, FifosMatch, Conserved;
    hide DepartEffect, ArriveEffect;
    match c
    case SendCall(m, b) =>
      OneEvent(net, Send(m, b));
      SendRefines(r, r', net, m, b, seen.ok);
    case RecvCall(f) =>
      OneEvent(net, Receive(f));
      RecvRefines(r, r', net, f, seen.got, seen.hdr);
    case RxInterrupt(f) =>
      OneEvent(net, Receive(f));
      ConservedFifos(net);
      RxIsrRefines(r, r', net, f, seen.first, seen.overrunReported, seen.second);
    case TxInterrupt =>
      TxIsrStutters(r, r', net, seen.done);
    case HwTransfer(b, f) =>
      OneEvent(net, Transfer(b, f));
      var fmi :| TransferEffect(r, r', b, f, fmi);
      TransferRefines(r, r', net, b, f, fmi);
    case HwDepart(b) =>
      OneEvent(net, Depart(b));
      BoxIsFrame(r, net, b);
      DepartRefines(r, r', net, b);
    case HwArrive(f, slot) =>
      OneEvent(net, Incoming(f, Decode(slot)));
      ArriveRefines(r, r', net, f, slot);
  }

  lemma BoxIsFrame(r: Regs, net: Net, b: nat)
    requires Matches(r, net) && b < BOXES
    ensures |r.boxes| == BOXES && BoxFrame(r, b) == net.box[b] && (Sending(r, b) <==> net.box[b].Some?)
  {
    hide IsEmpty, Requested, Decode, Received, FifosMatch;
  }

  /** Each step of the registers, interrupts included, is the message-level step of its events, and the results are
      what the histories record. */
  lemma StepRefines(r: Regs, r': Regs, net: Net, c: Call, seen: Seen)
    requires Matches(r, net) && Conserved(net) && Possible(c) && RegStep(r, r', c, seen)
    ensures var net' := Run(net, EventsOf(c));
            Matches(r', net') && Conserved(net') && Recorded(net, net', c, seen)
    ensures c.RxInterrupt? ==> seen.Interrupted? && !seen.overrunReported
  {
    hide Matches, Conserved, RegStep, EventsOf, Recorded, Run, Possible;
    MatchesIsShaped(r, net);
    RunConserves(net, EventsOf(c));
    StepMatches(r, r', net, c, seen);
    ForetoldIsRecorded(net, c, seen);
  }

  lemma OneEvent(net: Net, e: Event)
    requires Shaped(net) && WellFormed(e)
    ensures Run(net, [e]) == Step(net, e)
  {
    hide Step;
  }

  lemma ConservedFifos(net: Net)
    requires Shaped(net) && Conserved(net)
    ensures FifosConserve(net)
  {}

  lemma {:induction false} RunJoin(net: Net, x: seq<Event>, y: seq<Event>)
    requires Shaped(net)
    requires forall i :: 0 <= i < |x| ==> WellFormed(x[i])
    requires forall i :: 0 <= i < |y| ==> WellFormed(y[i])
    ensures Run(net, x + y) == Run(Run(net, x), y)
    decreases |x|
  {
    hide Step, WellFormed;
    if x == [] {
      assert x + y == y;
    } else {
      assert (x + y)[1..] == x[1..] + y;
      RunJoin(Step(net, x[0]), x[1..], y);
    }
  }

  /** What a run adds to the histories is what its callers saw. */
  ghost predicate Gained(net: Net, net': Net, cs: seq<Call>, outs: seq<Seen>)
    requires |outs| == |cs|
  {
    && Shaped(net) && Shaped(net')
    && (forall f :: 0 <= f < FIFOS ==> net'.returned[f] == net.returned[f] + Handed(cs, outs, f))
    && (forall b :: 0 <= b < BOXES ==> net'.sent[b] == net.sent[b] + Accepted(cs, outs, b))
    && (forall b :: 0 <= b < BOXES ==> net'.departed[b] == net.departed[b] + Departed(cs, outs, b))
    && (forall f :: 0 <= f < FIFOS ==> net'.arrived[f] == net.arrived[f] + Arrived(cs, f))
  }

  lemma GainedStep(net: Net, mid: Net, net': Net, cs: seq<Call>, outs: seq<Seen>)
    requires cs != [] && |outs| == |cs|
    requires Recorded(net, mid, cs[0], outs[0]) && Gained(mid, net', cs[1..], outs[1..])
    ensures Gained(net, net', cs, outs)
  {
    hide HandedBy, AcceptedBy, DepartedBy, ArrivedBy;
  }

  lemma NothingGained(net: Net)
    requires Shaped(net)
    ensures Gained(net, net, [], [])
  {}

  /** Every register-level run, interrupts included, follows the message-level run of its events; what the calls
      handed over from each FIFO, and what they accepted for each mailbox, is exactly what the histories gained. */
  lemma {:induction false} RunRefines(rs: seq<Regs>, cs: seq<Call>, outs: seq<Seen>, net: Net)
    requires RegRun(rs, cs, outs) && Matches(rs[0], net) && Conserved(net)
    ensures var net' := Run(net, Events(cs));
            Matches(rs[|cs|], net') && Conserved(net') && Gained(net, net', cs, outs)
    decreases |cs|
  {
    hide Matches, RegStep, EventsOf, Possible, Conserved, WellFormed, Recorded, Gained;
    MatchesIsShaped(rs[0], net);
    if cs == [] {
      NothingGained(net);
    } else {
      hide Run;
      var mid := Run(net, EventsOf(cs[0]));
      StepRefines(rs[0], rs[1], net, cs[0], outs[0]);
      RunJoin(net, EventsOf(cs[0]), Events(cs[1..]));
      RunRefines(rs[1..], cs[1..], outs[1..], mid);
      GainedStep(net, mid, Run(mid, Events(cs[1..])), cs, outs);
    }
  }

  lemma MatchesIsShaped(r: Regs, net: Net)
    requires Matches(r, net)
    ensures Shaped(net)
  {
    hide BoxesMatch, FifosMatch;
  }

  /** The messages in the mailboxes and FIFOs of a register state. */
  function InBoxes(r: Regs): seq<seq<Message>>
    requires |r.boxes| == BOXES
  {
    seq(BOXES, b requires 0 <= b < BOXES => Pending(BoxFrame(r, b)))
  }

  function InFifos(r: Regs): seq<seq<Message>>
    requires |r.queue| == FIFOS
  {
    seq(FIFOS, f requires 0 <= f < FIFOS => DecodeAll(r.queue[f]))
  }

  function AllHanded(cs: seq<Call>, outs: seq<Seen>): seq<seq<Message>>
    requires |outs| == |cs|
  {
    seq(FIFOS, f requires 0 <= f < FIFOS => Handed(cs, outs, f))
  }

  function AllAccepted(cs: seq<Call>, outs: seq<Seen>): seq<seq<Message>>
    requires |outs| == |cs|
  {
    seq(BOXES, b requires 0 <= b < BOXES => Accepted(cs, outs, b))
  }

  function AllDeparted(cs: seq<Call>, outs: seq<Seen>): seq<seq<Message>>
    requires |outs| == |cs|
  {
    seq(BOXES, b requires 0 <= b < BOXES => Departed(cs, outs, b))
  }

  function AllArrived(cs: seq<Call>): seq<seq<Message>> {
    seq(FIFOS, f requires 0 <= f < FIFOS => Arrived(cs, f))
  }

  /** On a run from the power-up registers the histories are the observations, and the network is the registers. */
  lemma HistoriesAreSeen(rs: seq<Regs>, cs: seq<Call>, outs: seq<Seen>, boxes: seq<TxBox>)
    requires RegRun(rs, cs, outs) && |boxes| == BOXES && rs[0] == Regs(POWER_UP, boxes, [0, 0], [[], []])
    ensures var net, r := Run(EMPTY, Events(cs)), rs[|cs|];
            && Matches(r, net)
            && (forall f :: 0 <= f < FIFOS ==> net.returned[f] == Handed(cs, outs, f) && net.arrived[f] == Arrived(cs, f))
            && (forall b :: 0 <= b < BOXES ==> net.sent[b] == Accepted(cs, outs, b)
                                               && net.departed[b] == Departed(cs, outs, b))
  {
    hide RegStep, Events, Possible, Conserved, Handed, Accepted, Departed, Arrived, Matches;
    InitialMatches(boxes);
    EmptyIsConserved();
    RunRefines(rs, cs, outs, EMPTY);
    assert forall f :: 0 <= f < FIFOS ==> EMPTY.returned[f] == [] && EMPTY.arrived[f] == [];
    assert forall b :: 0 <= b < BOXES ==> EMPTY.sent[b] == [] && EMPTY.departed[b] == [];
  }

  lemma StatesAreBags(r: Regs, net: Net)
    requires Matches(r, net)
    ensures |r.boxes| == BOXES && |r.queue| == FIFOS
    ensures InBoxes(r) == PendingAll(net) && InFifos(r) == net.fifo
  {
    hide IsEmpty, Decode, Received, DecodeAll, HasPending, HasOverrun;
  }

  /** End to end on the registers, from the state the constructor leaves: the messages each FIFO's callers got are the
      frames it accepted, in order; and the messages `sendmsg` accepted together with the frames that arrived from the
      bus are those still in the mailbox registers, in the FIFO slots, handed over, gone out on the bus, or
      overwritten by an overrun, each as often. */
  lemma EndToEndOnRegisters(rs: seq<Regs>, cs: seq<Call>, outs: seq<Seen>, boxes: seq<TxBox>)
    requires RegRun(rs, cs, outs) && |boxes| == BOXES && rs[0] == Regs(POWER_UP, boxes, [0, 0], [[], []])
    ensures var net, r := Run(EMPTY, Events(cs)), rs[|cs|];
            && (forall f :: 0 <= f < FIFOS ==> Handed(cs, outs, f) <= net.accepted[f])
            && (forall b :: 0 <= b < BOXES ==> net.moved[b] <= Accepted(cs, outs, b))
            && |r.boxes| == BOXES && |r.queue| == FIFOS
            && Bag(AllAccepted(cs, outs)) + Bag(AllArrived(cs))
               == Bag(InBoxes(r)) + Bag(InFifos(r)) + Bag(AllHanded(cs, outs)) + Bag(AllDeparted(cs, outs)) + Bag(net.lost)
  {
    hide RegStep, Events, Possible, Handed, Accepted, Departed, Arrived, Bag, Matches, InBoxes, InFifos, PendingAll;
    HistoriesAreSeen(rs, cs, outs, boxes);
    EndToEnd(Events(cs));
    var net, r := Run(EMPTY, Events(cs)), rs[|cs|];
    StatesAreBags(r, net);
    assert AllHanded(cs, outs) == net.returned;
    assert AllAccepted(cs, outs) == net.sent;
    assert AllDeparted(cs, outs) == net.departed;
    assert AllArrived(cs) == net.arrived;
  }

  // ---------------------------------------------------------------- without loopback

  predicate NoLoopback(es: seq<Event>) {
    forall i :: 0 <= i < |es| ==> !es[i].Transfer?
  }

  lemma OutwardStep(net: Net, e: Event)
    requires Shaped(net) && WellFormed(e) && !e.Transfer? && net.departed == net.moved
    ensures Step(net, e).departed == Step(net, e).moved
  {}

  lemma {:induction false} OutwardRun(net: Net, es: seq<Event>)
    requires Shaped(net) && (forall i :: 0 <= i < |es| ==> WellFormed(es[i])) && NoLoopback(es)
    requires net.departed == net.moved
    ensures Run(net, es).departed == Run(net, es).moved
    decreases |es|
  {
    hide Step, WellFormed;
    if es != [] {
      OutwardStep(net, es[0]);
      OutwardRun(Step(net, es[0]), es[1..]);
    }
  }

  lemma {:induction false} EventsWithoutLoopback(cs: seq<Call>)
    requires forall i :: 0 <= i < |cs| ==> Possible(cs[i]) && !cs[i].HwTransfer?
    ensures NoLoopback(Events(cs))
  {
    if cs != [] {
      EventsWithoutLoopback(cs[1..]);
    }
  }

  /** In normal mode, where no frame is looped back, each mailbox puts the messages `sendmsg` accepted for it on the
      bus in the order they were accepted; what is not yet out is the one message still in its registers. */
  lemma SentInOrder(rs: seq<Regs>, cs: seq<Call>, outs: seq<Seen>, boxes: seq<TxBox>, b: nat)
    requires RegRun(rs, cs, outs) && |boxes| == BOXES && rs[0] == Regs(POWER_UP, boxes, [0, 0], [[], []])
    requires b < BOXES && forall i :: 0 <= i < |cs| ==> !cs[i].HwTransfer?
    ensures |rs[|cs|].boxes| == BOXES
    ensures Accepted(cs, outs, b) == Departed(cs, outs, b) + Pending(BoxFrame(rs[|cs|], b))
  {
    hide RegStep, Possible, Handed, Accepted, Departed, Arrived, Matches, Events, NoLoopback, FifosConserve, Balanced;
    HistoriesAreSeen(rs, cs, outs, boxes);
    EventsWithoutLoopback(cs);
    OutwardRun(EMPTY, Events(cs));
    EmptyIsConserved();
    RunConserves(EMPTY, Events(cs));
    BoxIsFrame(rs[|cs|], Run(EMPTY, Events(cs)), b);
  }

  // ---------------------------------------------------------------- completion reports

  /** On every run a mailbox that is not empty has its request bit set, so its frame does go out. */
  lemma BusyIsRequested(rs: seq<Regs>, cs: seq<Call>, outs: seq<Seen>, b: nat)
    requires RegRun(rs, cs, outs) && Matches(rs[0], EMPTY) && b < BOXES
    ensures |rs[|cs|].boxes| == BOXES
    ensures !IsEmpty(rs[|cs|].tsts, b) ==> rs[|cs|].boxes[b].tmi & 0x1 == 1
  {
    hide IsEmpty, Decode, Received, RegStep, Events, Conserved, FifosMatch, Gained;
    EmptyIsConserved();
    RunRefines(rs, cs, outs, EMPTY);
  }

  /** The hardware has finished a request of mailbox b since the last transmit interrupt. */
  predicate Owed(rs: seq<Regs>, cs: seq<Call>, b: nat)
    requires |rs| == |cs| + 1 && b < BOXES
    decreases |cs|
  {
    cs != [] &&
    var n := |cs| - 1;
    !cs[n].TxInterrupt? && (Finishes(rs[n], cs[n], b) || Owed(rs[..n + 1], cs[..n], b))
  }

  predicate Finishes(r: Regs, c: Call, b: nat)
    requires b < BOXES
  {
    ((c.HwTransfer? && c.b == b) || (c.HwDepart? && c.b == b)) && |r.boxes| == BOXES && Sending(r, b)
  }

  lemma TakenKeepsCompleted(tsts: word, i: nat, b: nat)
    requires i < BOXES && b < BOXES
    ensures Completed(Taken(tsts, i), b) <==> Completed(tsts, b)
  {
    hide Bit, Masked, Without;
    OneBitChanges(tsts, 26 + i, 8 * b);
  }

  lemma StepCompletes(r: Regs, r': Regs, c: Call, seen: Seen, b: nat)
    requires Possible(c) && RegStep(r, r', c, seen) && b < BOXES
    ensures Completed(r'.tsts, b) <==> !c.TxInterrupt? && (Finishes(r, c, b) || Completed(r.tsts, b))
  {
    hide IsEmpty, Completed, Taken, Requested, RecvEffect, RxIsrEffect, FifoGains, Decode, Received, Filled, Idle;
    match c
    case SendCall(m, i) => TakenKeepsCompleted(r.tsts, i, b);
    case _ =>
  }

  /** The request-complete flag of a mailbox is up exactly while a finished request has not been reported. */
  lemma {:induction false} CompletedIffOwed(rs: seq<Regs>, cs: seq<Call>, outs: seq<Seen>, b: nat)
    requires RegRun(rs, cs, outs) && b < BOXES && !Completed(rs[0].tsts, b)
    ensures Completed(rs[|cs|].tsts, b) <==> Owed(rs, cs, b)
    decreases |cs|
  {
    hide Completed, RegStep, Possible, Finishes;
    if cs != [] {
      var n := |cs| - 1;
      assert RegRun(rs[..n + 1], cs[..n], outs[..n]);
      CompletedIffOwed(rs[..n + 1], cs[..n], outs[..n], b);
      StepCompletes(rs[n], rs[n + 1], cs[n], outs[n], b);
    }
  }

  lemma NothingCompletedAtPowerUp(b: nat)
    requires b < BOXES
    ensures !Completed(POWER_UP, b)
  {
    LowBitValues();
    HighBitValues();
  }

  /** A transmit interrupt reports a mailbox done exactly when the hardware has finished a request of it since the
      transmit interrupt before. */
  lemma DoneReportedIff(rs: seq<Regs>, cs: seq<Call>, outs: seq<Seen>, k: nat, b: nat)
    requires RegRun(rs, cs, outs) && rs[0].tsts == POWER_UP && b < BOXES
    requires k < |cs| && cs[k].TxInterrupt?
    ensures outs[k].Finished? && (b in outs[k].done <==> Owed(rs[..k + 1], cs[..k], b))
  {
    hide Completed, IsEmpty, Owed, Possible;
    NothingCompletedAtPowerUp(b);
    assert RegStep(rs[k], rs[k + 1], cs[k], outs[k]);
    hide RegStep;
    assert RegRun(rs[..k + 1], cs[..k], outs[..k]);
    CompletedIffOwed(rs[..k + 1], cs[..k], outs[..k], b);
  }

  // ---------------------------------------------------------------- the overrun flag

  /** In every reachable state the overrun flag is up only while all three slots of its FIFO are taken. */
  lemma OverrunOnlyWhenFull(rs: seq<Regs>, cs: seq<Call>, outs: seq<Seen>, f: nat)
    requires RegRun(rs, cs, outs) && Matches(rs[0], EMPTY) && f < FIFOS
    ensures FifosAgree(rs[|cs|].rff, rs[|cs|].queue)
    ensures HasOverrun(rs[|cs|].rff[f]) ==> |rs[|cs|].queue[f]| == DEPTH
  {
    hide IsEmpty, Decode, Received, HasPending, HasOverrun, RegStep, Step, BoxesMatch, Handed, Accepted, Events;
    EmptyIsConserved();
    RunRefines(rs, cs, outs, EMPTY);
  }

  /** On no run, interrupts included, does a receive interrupt report an overrun. */
  lemma OverrunNeverReported(rs: seq<Regs>, cs: seq<Call>, outs: seq<Seen>, k: nat)
    requires RegRun(rs, cs, outs) && Matches(rs[0], EMPTY)
    requires k < |cs| && cs[k].RxInterrupt?
    ensures outs[k].Interrupted? && !outs[k].overrunReported
  {
    EmptyIsConserved();
    hide Matches, Conserved, Possible, RxIsrEffect, SendEffect, RecvEffect, TxIsrEffect, TransferEffect;
    hide DepartEffect, ArriveEffect;
    assert RegRun(rs[..k + 1], cs[..k], outs[..k]);
    RunRefines(rs[..k + 1], cs[..k], outs[..k], EMPTY);
    StepRefines(rs[k], rs[k + 1], Run(EMPTY, Events(cs[..k])), cs[k], outs[k]);
  }
}
