/** The CAN driver at message level: three transmit mailboxes, two receive FIFOs of depth three, and
    a history of everything that passed through them.  CanDriver refines this to registers. */
module CanNetwork {
  import opened CanFrame
  import opened Histories

  datatype Option<+T> = None | Some(value: T)

  const BOXES: nat := 3
  const FIFOS: nat := 2
  const DEPTH: nat := 3

  /** `sent`, `moved` and `departed` are kept per mailbox, the other histories per FIFO. */
  datatype Net = Net(
    box: seq<Option<Message>>,
    fifo: seq<seq<Message>>,
    overrun: seq<bool>,
    sent: seq<seq<Message>>,
    moved: seq<seq<Message>>,
    departed: seq<seq<Message>>,
    arrived: seq<seq<Message>>,
    accepted: seq<seq<Message>>,
    returned: seq<seq<Message>>,
    lost: seq<seq<Message>>)

  datatype Event =
    | Send(m: Message, b: nat)       // the application calls sendmsg
    | Depart(b: nat)                 // a pending frame goes out on the bus
    | Incoming(f: nat, m: Message)   // a frame of another node arrives
    | Transfer(b: nat, f: nat)       // in loopback, a pending frame moves into a FIFO of the same module
    | Receive(f: nat)                // the application calls recvmsg

  predicate Shaped(net: Net) {
    && |net.box| == |net.sent| == |net.moved| == |net.departed| == BOXES
    && |net.fifo| == |net.overrun| == |net.arrived| == |net.accepted| == |net.returned| == |net.lost| == FIFOS
  }

  predicate WellFormed(e: Event) {
    match e
    case Send(m, b) => Valid(m) && b < BOXES
    case Depart(b) => b < BOXES
    case Incoming(f, m) => f < FIFOS
    case Transfer(b, f) => b < BOXES && f < FIFOS
    case Receive(f) => f < FIFOS
  }

  const EMPTY: Net := Net(
    [None, None, None], [[], []], [false, false], [[], [], []], [[], [], []], [[], [], []],
    [[], []], [[], []], [[], []], [[], []])

  /** A busy mailbox refuses a send, an empty FIFO refuses a receive, and a full FIFO gives its
      newest slot to the arriving frame (the driver leaves the FIFO lock off). */
  function Step(net: Net, e: Event): (net': Net)
    requires Shaped(net) && WellFormed(e)
    ensures Shaped(net')
  {
    match e
    case Send(m, b) =>
      if net.box[b].Some? then net
      else net.(box := net.box[b := Some(OnBus(m))], sent := Append(net.sent, b, OnBus(m)))
    case Depart(b) =>
      if net.box[b].None? then net
      else net.(box := net.box[b := None], moved := Append(net.moved, b, net.box[b].value),
                departed := Append(net.departed, b, net.box[b].value))
    case Incoming(f, m) => Arrive(net.(arrived := Append(net.arrived, f, m)), f, m)
    case Transfer(b, f) =>
      if net.box[b].None? then net
      else Arrive(net.(box := net.box[b := None], moved := Append(net.moved, b, net.box[b].value)),
                  f, net.box[b].value)
    case Receive(f) =>
      if net.fifo[f] == [] then net
      else net.(fifo := net.fifo[f := net.fifo[f][1..]],
                overrun := net.overrun[f := false],
                returned := Append(net.returned, f, net.fifo[f][0]))
  }

  function Arrive(net: Net, f: nat, m: Message): (net': Net)
    requires Shaped(net) && f < FIFOS
    ensures Shaped(net')
  {
    var q := net.fifo[f];
    if |q| < DEPTH then
      net.(fifo := net.fifo[f := q + [m]], accepted := Append(net.accepted, f, m))
    else
      net.(fifo := net.fifo[f := DropLast(q) + [m]],
           overrun := net.overrun[f := true],
           accepted := net.accepted[f := DropLast(net.accepted[f]) + [m]],
           lost := Append(net.lost, f, q[|q| - 1]))
  }

  function DropLast(s: seq<Message>): seq<Message> {
    if s == [] then [] else s[..|s| - 1]
  }

  function Pending(o: Option<Message>): seq<Message> {
    if o.None? then [] else [o.value]
  }

  /** Each mailbox: what was sent is what was moved on, then what is pending. */
  predicate BoxesConserve(net: Net)
    requires Shaped(net)
  {
    forall b :: 0 <= b < BOXES ==> net.sent[b] == net.moved[b] + Pending(net.box[b])
  }

  /** Each FIFO: what was accepted is what was returned, then what is queued; the overrun flag is up
      only while the FIFO is full. */
  predicate FifosConserve(net: Net)
    requires Shaped(net)
  {
    forall f :: 0 <= f < FIFOS ==>
      && net.accepted[f] == net.returned[f] + net.fifo[f]
      && |net.fifo[f]| <= DEPTH
      && (net.overrun[f] ==> |net.fifo[f]| == DEPTH)
  }

  /** Between the two: what left the mailboxes or arrived from the bus was accepted, lost to an overrun, or went out
      on the bus. */
  predicate Balanced(net: Net) {
    Bag(net.moved) + Bag(net.arrived) == Bag(net.accepted) + Bag(net.lost) + Bag(net.departed)
  }

  predicate Conserved(net: Net)
    requires Shaped(net)
  {
    BoxesConserve(net) && FifosConserve(net) && Balanced(net)
  }

  lemma StepConserves(net: Net, e: Event)
    requires Shaped(net) && WellFormed(e) && Conserved(net)
    ensures Conserved(Step(net, e))
  {
    match e
    case Send(m, b) => SendConserves(net, m, b);
    case Receive(f) => ReceiveConserves(net, f);
    case Depart(b) =>
      if net.box[b].Some? {
        DepartConserves(net, b);
      }
    case Incoming(f, m) => IncomingConserves(net, f, m);
    case Transfer(b, f) =>
      if net.box[b].Some? {
        TransferConserves(net, b, f);
      }
  }

  lemma SendConserves(net: Net, m: Message, b: nat)
    requires Shaped(net) && WellFormed(Send(m, b)) && Conserved(net)
    ensures Conserved(Step(net, Send(m, b)))
  {}

  lemma ReceiveConserves(net: Net, f: nat)
    requires Shaped(net) && f < FIFOS && Conserved(net)
    ensures Conserved(Step(net, Receive(f)))
  {
    if net.fifo[f] != [] {
      assert net.fifo[f] == [net.fifo[f][0]] + net.fifo[f][1..];
    }
  }

  /** The mailbox half of a frame leaving. */
  function Emptied(net: Net, b: nat): (net': Net)
    requires Shaped(net) && b < BOXES && net.box[b].Some?
    ensures Shaped(net')
  {
    net.(box := net.box[b := None], moved := Append(net.moved, b, net.box[b].value))
  }

  lemma EmptiedKeepsBoxes(net: Net, b: nat)
    requires Shaped(net) && b < BOXES && BoxesConserve(net) && net.box[b].Some?
    ensures BoxesConserve(Emptied(net, b))
  {}

  lemma DepartConserves(net: Net, b: nat)
    requires Shaped(net) && b < BOXES && Conserved(net) && net.box[b].Some?
    ensures Conserved(Step(net, Depart(b)))
  {
    hide Bag;
    EmptiedKeepsBoxes(net, b);
    BagAppend(net.moved, b, net.box[b].value);
    BagAppend(net.departed, b, net.box[b].value);
    BothGain(Bag(net.moved), Bag(net.arrived), Bag(net.accepted) + Bag(net.lost), Bag(net.departed),
             multiset{net.box[b].value});
  }

  lemma BothGain(a: multiset<Message>, b: multiset<Message>, c: multiset<Message>, d: multiset<Message>,
                 x: multiset<Message>)
    requires a + b == c + d
    ensures (a + x) + b == c + (d + x)
  {
    assert (a + x) + b == (a + b) + x;
    assert c + (d + x) == (c + d) + x;
  }

  lemma IncomingConserves(net: Net, f: nat, m: Message)
    requires Shaped(net) && f < FIFOS && Conserved(net)
    ensures Conserved(Step(net, Incoming(f, m)))
  {
    hide Bag, Append;
    var open := net.(arrived := Append(net.arrived, f, m));
    BagAppend(net.arrived, f, m);
    ArriveKeepsFifos(open, f, m);
    ArriveGains(open, f, m);
    assert Bag(net.moved) + (Bag(net.arrived) + multiset{m}) == (Bag(net.moved) + Bag(net.arrived)) + multiset{m};
    Settle(open, Arrive(open, f, m), Bag(net.moved) + Bag(net.arrived), m);
  }

  lemma TransferConserves(net: Net, b: nat, f: nat)
    requires Shaped(net) && b < BOXES && f < FIFOS && Conserved(net) && net.box[b].Some?
    ensures Conserved(Step(net, Transfer(b, f)))
  {
    hide Bag, Append;
    var m := net.box[b].value;
    var open := Emptied(net, b);
    EmptiedKeepsBoxes(net, b);
    BagAppend(net.moved, b, m);
    ArriveKeepsFifos(open, f, m);
    ArriveGains(open, f, m);
    assert (Bag(net.moved) + multiset{m}) + Bag(net.arrived) == (Bag(net.moved) + Bag(net.arrived)) + multiset{m};
    Settle(open, Arrive(open, f, m), Bag(net.moved) + Bag(net.arrived), m);
  }

  lemma ArriveKeepsFifos(net: Net, f: nat, m: Message)
    requires Shaped(net) && f < FIFOS && FifosConserve(net)
    ensures FifosConserve(Arrive(net, f, m))
  {
    if |net.fifo[f]| == DEPTH {
      ReplaceLast(net.returned[f], net.fifo[f], m);
    }
  }

  /** An arrival adds one message to what was accepted or lost. */
  lemma ArriveGains(net: Net, f: nat, m: Message)
    requires Shaped(net) && f < FIFOS && FifosConserve(net)
    ensures var net' := Arrive(net, f, m);
            Bag(net'.accepted) + Bag(net'.lost) == Bag(net.accepted) + Bag(net.lost) + multiset{m}
  {
    hide Bag, Append, DropLast;
    var q, a := net.fifo[f], net.accepted[f];
    if |q| < DEPTH {
      BagAppend(net.accepted, f, m);
      Rotate3(Bag(net.accepted), multiset{m}, Bag(net.lost));
    } else {
      assert a[|a| - 1] == q[|q| - 1];
      BagReplaceLast(net.accepted, net.lost, f, m);
    }
  }

  lemma Settle(net: Net, net': Net, before: multiset<Message>, m: Message)
    requires before == Bag(net.accepted) + Bag(net.lost) + Bag(net.departed)
    requires Bag(net'.accepted) + Bag(net'.lost) == Bag(net.accepted) + Bag(net.lost) + multiset{m}
    requires Bag(net'.moved) + Bag(net'.arrived) == before + multiset{m} && net'.departed == net.departed
    ensures Balanced(net')
  {
    hide Bag;
    Rotate3(Bag(net.accepted) + Bag(net.lost), multiset{m}, Bag(net.departed));
  }

  lemma Rotate3(a: multiset<Message>, x: multiset<Message>, b: multiset<Message>)
    ensures (a + x) + b == (a + b) + x
  {}

  lemma ReplaceLast(front: seq<Message>, q: seq<Message>, m: Message)
    requires q != []
    ensures DropLast(front + q) + [m] == front + (DropLast(q) + [m])
  {}

  lemma BagReplaceLast(accepted: seq<seq<Message>>, lost: seq<seq<Message>>, f: nat, m: Message)
    requires f < |accepted| && f < |lost| && accepted[f] != []
    ensures var a := accepted[f];
            Bag(accepted[f := DropLast(a) + [m]]) + Bag(Append(lost, f, a[|a| - 1]))
            == Bag(accepted) + Bag(lost) + multiset{m}
  {
    hide Bag, Append;
    var a := accepted[f];
    var last := a[|a| - 1];
    BagUpdate(accepted, f, DropLast(a) + [m]);
    BagAppend(lost, f, last);
    assert a == DropLast(a) + [last];
    Exchange(Bag(accepted[f := DropLast(a) + [m]]), Bag(accepted), multiset(DropLast(a)),
             multiset{last}, multiset{m}, Bag(lost));
  }

  lemma Exchange(after: multiset<Message>, before: multiset<Message>, rest: multiset<Message>,
                 gone: multiset<Message>, come: multiset<Message>, lost: multiset<Message>)
    requires after + (rest + gone) == before + (rest + come)
    ensures after + (lost + gone) == before + lost + come
  {
    assert after + (rest + gone) == (after + gone) + rest;
    assert before + (rest + come) == (before + come) + rest;
    Cancel(after + gone, before + come, rest);
    assert after + (lost + gone) == (after + gone) + lost;
    assert (before + come) + lost == before + lost + come;
  }

  function Run(net: Net, es: seq<Event>): (net': Net)
    requires Shaped(net) && forall i :: 0 <= i < |es| ==> WellFormed(es[i])
    ensures Shaped(net')
    decreases |es|
  {
    if es == [] then net else Run(Step(net, es[0]), es[1..])
  }

  lemma {:induction false} RunConserves(net: Net, es: seq<Event>)
    requires Shaped(net) && Conserved(net) && forall i :: 0 <= i < |es| ==> WellFormed(es[i])
    ensures Conserved(Run(net, es))
    decreases |es|
  {
    if es != [] {
      StepConserves(net, es[0]);
      RunConserves(Step(net, es[0]), es[1..]);
    }
  }

  function PendingAll(net: Net): seq<seq<Message>>
    requires Shaped(net)
  {
    [Pending(net.box[0]), Pending(net.box[1]), Pending(net.box[2])]
  }

  /** For every interleaving of sends, receives, departures, arrivals and transfers from the empty driver: each FIFO
      has returned its accepted frames in order, each mailbox has moved its sent frames in order, and the frames sent
      or arrived are exactly those pending, queued, returned, gone out on the bus, or lost to an overrun. */
  lemma EndToEnd(es: seq<Event>)
    requires forall i :: 0 <= i < |es| ==> WellFormed(es[i])
    ensures var net := Run(EMPTY, es);
            && (forall f :: 0 <= f < FIFOS ==> net.returned[f] <= net.accepted[f])
            && (forall b :: 0 <= b < BOXES ==> net.moved[b] <= net.sent[b])
            && Bag(net.sent) + Bag(net.arrived)
               == Bag(PendingAll(net)) + Bag(net.fifo) + Bag(net.returned) + Bag(net.departed) + Bag(net.lost)
  {
    EmptyIsConserved();
    RunConserves(EMPTY, es);
    InOrder(Run(EMPTY, es));
    Accounted(Run(EMPTY, es));
  }

  lemma InOrder(net: Net)
    requires Shaped(net) && BoxesConserve(net) && FifosConserve(net)
    ensures forall f :: 0 <= f < FIFOS ==> net.returned[f] <= net.accepted[f]
    ensures forall b :: 0 <= b < BOXES ==> net.moved[b] <= net.sent[b]
  {}

  lemma Accounted(net: Net)
    requires Shaped(net) && Conserved(net)
    ensures Bag(net.sent) + Bag(net.arrived)
            == Bag(PendingAll(net)) + Bag(net.fifo) + Bag(net.returned) + Bag(net.departed) + Bag(net.lost)
  {
    hide Bag;
    var pending := PendingAll(net);
    BagSplit(net.sent, net.moved, pending);
    BagSplit(net.accepted, net.returned, net.fifo);
    Regroup(Bag(net.moved), Bag(pending), Bag(net.returned), Bag(net.fifo), Bag(net.lost), Bag(net.arrived),
            Bag(net.departed));
  }

  lemma Regroup(moved: multiset<Message>, pending: multiset<Message>, returned: multiset<Message>,
                queued: multiset<Message>, lost: multiset<Message>, arrived: multiset<Message>,
                departed: multiset<Message>)
    requires moved + arrived == (returned + queued) + lost + departed
    ensures (moved + pending) + arrived == pending + queued + returned + departed + lost
  {
    assert (moved + pending) + arrived == (moved + arrived) + pending;
  }

  lemma EmptyIsConserved()
    ensures Conserved(EMPTY)
  {
    BagOfThree(EMPTY.moved);
    BagOfThree(EMPTY.departed);
    BagOfTwo(EMPTY.accepted);
    BagOfTwo(EMPTY.arrived);
    BagOfTwo(EMPTY.lost);
  }
}
