/** The blocking I2C master: what each transfer puts on the wire, when it gives up, and how many polls that takes.

    Flags are an oracle: `answer(k)` is the result of the k-th poll, whichever flag it asks for. */
module I2c {
  import opened FixedPoint

  type byte = x: int | 0 <= x < 256

  const LONG_TIMEOUT := 0xA000

  /** One wait polls at most once more than its timeout. */
  const MAX_POLLS := LONG_TIMEOUT + 1

  datatype Event =
    | Ack(on: bool)
    | Start
    | Addr(addr: nat, receive: bool)
    | Data(b: byte)
    | Recv(b: byte)
    | Stop
    | NackCurrent

  /** `Hung`: the observation ended inside the one loop that has no timeout. */
  datatype Outcome = Done(code: int) | Hung

  // ---------------------------------------------------------------- what goes on the wire

  function DataEvents(data: seq<byte>): seq<Event>
    decreases |data|
  {
    if data == [] then [] else DataEvents(data[..|data| - 1]) + [Data(data[|data| - 1])]
  }

  function RecvEvents(data: seq<byte>): seq<Event>
    decreases |data|
  {
    if data == [] then [] else RecvEvents(data[..|data| - 1]) + [Recv(data[|data| - 1])]
  }

  /** Receiving `data` as the first bytes of a read of `len`: after a byte that leaves one to come, NACK and STOP. */
  function Reception(data: seq<byte>, len: nat): seq<Event>
    decreases |data|
  {
    if data == [] then []
    else Reception(data[..|data| - 1], len) + [Recv(data[|data| - 1])]
         + (if len - |data| == 1 then [Ack(false), Stop] else [])
  }

  /** What a write that sent `sent` and returned `code` has put on the wire. */
  function WriteTrace(addr: nat, sent: seq<byte>, code: int): seq<Event> {
    if code == 4 then []
    else if code == 5 then [Ack(true), Start]
    else Head(addr, false) + DataEvents(sent) + (if code == 0 then [Stop] else [])
  }

  function ReadTrace(addr: nat, got: seq<byte>, len: nat, outcome: Outcome): seq<Event> {
    if outcome == Done(9) then []
    else if outcome == Done(10) then [Ack(true), Start]
    else Head(addr, true) + Reception(got, len)
         + (if outcome == Done(0) then [Ack(true), NackCurrent] else [])
  }

  /** How far a write gets with each code. */
  predicate WriteCode(code: int, sent: nat, len: nat) {
    || ((code == 4 || code == 5 || code == 6) && sent == 0)
    || (code == 7 && 1 <= sent <= len)
    || ((code == 8 || code == 0) && sent == len)
  }

  predicate ReadOutcome(outcome: Outcome, got: nat, len: nat) {
    match outcome
    case Hung => got < len
    case Done(code) => ((code == 9 || code == 10 || code == 6) && got == 0) || ((code == 7 || code == 0) && got == len)
  }

  function Stops(events: seq<Event>): nat
    decreases |events|
  {
    if events == [] then 0
    else Stops(events[..|events| - 1]) + (if events[|events| - 1] == Stop then 1 else 0)
  }

  lemma {:induction false} StopsAdd(x: seq<Event>, y: seq<Event>)
    ensures Stops(x + y) == Stops(x) + Stops(y)
    decreases |y|
  {
    if y == [] {
      assert x + y == x;
    } else {
      StopsAdd(x, y[..|y| - 1]);
      assert (x + y)[..|x + y| - 1] == x + y[..|y| - 1];
    }
  }

  lemma StopsOfPair(a: Event, b: Event)
    ensures Stops([a]) == (if a == Stop then 1 else 0)
    ensures Stops([a, b]) == Stops([a]) + Stops([b])
  {
    assert [a][..0] == [];
    assert [a, b] == [a] + [b];
    StopsAdd([a], [b]);
  }

  lemma {:induction false} DataHasNoStop(data: seq<byte>)
    ensures Stops(DataEvents(data)) == 0 && Stops(RecvEvents(data)) == 0
    decreases |data|
  {
    if data != [] {
      var front, b := data[..|data| - 1], data[|data| - 1];
      DataHasNoStop(front);
      StopsAdd(DataEvents(front), [Data(b)]);
      StopsAdd(RecvEvents(front), [Recv(b)]);
      StopsOfPair(Data(b), Recv(b));
      StopsOfPair(Recv(b), Data(b));
    }
  }

  function Head(addr: nat, receive: bool): seq<Event> {
    [Ack(true), Start, Addr(addr, receive)]
  }

  lemma HeadHasNoStop(addr: nat, receive: bool)
    ensures Stops(Head(addr, receive)) == 0 && Stops([Ack(true), Start]) == 0
  {
    StopsOfPair(Ack(true), Start);
    StopsOfPair(Start, Start);
    StopsOfPair(Addr(addr, receive), Stop);
    StopsAdd([Ack(true), Start], [Addr(addr, receive)]);
    assert [Ack(true), Start] + [Addr(addr, receive)] == Head(addr, receive);
  }

  lemma WriteStops(addr: nat, sent: seq<byte>, code: int, len: nat)
    requires WriteCode(code, |sent|, len)
    ensures Stops(WriteTrace(addr, sent, code)) == if code == 0 then 1 else 0
  {
    hide DataEvents;
    HeadHasNoStop(addr, false);
    StopsOfPair(Stop, Stop);
    DataHasNoStop(sent);
    StopsAdd(Head(addr, false), DataEvents(sent));
    StopsAdd(Head(addr, false) + DataEvents(sent), [Stop]);
    assert Head(addr, false) + DataEvents(sent) + [] == Head(addr, false) + DataEvents(sent);
  }

  /** A write returns 0 exactly when the whole buffer has gone out, in order, followed by one STOP. */
  lemma WriteSucceedsIff(addr: nat, buffer: seq<byte>, sent: nat, code: int)
    requires WriteCode(code, sent, |buffer|)
    ensures code == 0 <==> WriteTrace(addr, buffer[..sent], code)
                           == [Ack(true), Start, Addr(addr, false)] + DataEvents(buffer) + [Stop]
  {
    hide DataEvents, Stops;
    WriteStops(addr, buffer[..sent], code, |buffer|);
    WriteStops(addr, buffer, 0, |buffer|);
    assert buffer[..|buffer|] == buffer;
  }

  /** The bytes are on the wire in order, one event each. */
  lemma {:induction false} BytesInOrder(data: seq<byte>)
    ensures |DataEvents(data)| == |RecvEvents(data)| == |data|
    ensures forall k :: 0 <= k < |data| ==> DataEvents(data)[k] == Data(data[k]) && RecvEvents(data)[k] == Recv(data[k])
    decreases |data|
  {
    if data != [] {
      BytesInOrder(data[..|data| - 1]);
    }
  }

  /** A transfer in full: it acknowledges, sends START and then the address, with the direction that belongs to it,
      and then its bytes; only a complete one goes on. */
  lemma AddressPhase(addr: nat, data: seq<byte>, code: int, len: nat, outcome: Outcome)
    ensures code != 4 && code != 5
            ==> WriteTrace(addr, data, code) == [Ack(true), Start, Addr(addr, false)] + DataEvents(data)
                                                + (if code == 0 then [Stop] else [])
    ensures outcome != Done(9) && outcome != Done(10)
            ==> ReadTrace(addr, data, len, outcome) == [Ack(true), Start, Addr(addr, true)] + Reception(data, len)
                                                       + (if outcome == Done(0) then [Ack(true), NackCurrent] else [])
    ensures WriteTrace(addr, data, 4) == [] && WriteTrace(addr, data, 5) == [Ack(true), Start]
    ensures ReadTrace(addr, data, len, Done(9)) == [] && ReadTrace(addr, data, len, Done(10)) == [Ack(true), Start]
  {
    hide DataEvents, Reception;
  }

  /** What a read of two bytes or more puts on the wire when it succeeds, in full. */
  lemma ReadSucceeds(addr: nat, got: seq<byte>, len: nat)
    requires |got| == len
    ensures ReadTrace(addr, got, len, Done(0))
            == [Ack(true), Start, Addr(addr, true)]
               + (if len >= 2 then RecvEvents(got[..len - 1]) + [Ack(false), Stop] + [Recv(got[len - 1])]
                  else RecvEvents(got))
               + [Ack(true), NackCurrent]
  {
    ReceptionShape(got, len);
  }

  /** Reading len >= 2 bytes sends NACK and STOP once, after the last byte but one and before the last. */
  lemma {:induction false} ReceptionShape(data: seq<byte>, len: nat)
    requires |data| <= len
    ensures |data| + 1 < len || len <= 1 ==> Reception(data, len) == RecvEvents(data)
    ensures len >= 2 && |data| + 1 == len ==> Reception(data, len) == RecvEvents(data) + [Ack(false), Stop]
    ensures len >= 2 && |data| == len
            ==> Reception(data, len) == RecvEvents(data[..len - 1]) + [Ack(false), Stop] + [Recv(data[len - 1])]
    decreases |data|
  {
    if data != [] {
      ReceptionShape(data[..|data| - 1], len);
    }
  }

  /** Whatever the outcome, a read has sent one STOP if it asked for two bytes or more and at most one of them was
      still missing, and none otherwise: the test for one remaining byte comes after the decrement, so a read of one
      byte never sends it. */
  lemma ReadStopsIff(addr: nat, got: seq<byte>, len: nat, outcome: Outcome)
    requires ReadOutcome(outcome, |got|, len)
    ensures Stops(ReadTrace(addr, got, len, outcome)) == if len >= 2 && |got| + 1 >= len then 1 else 0
  {
    hide Reception;
    HeadHasNoStop(addr, true);
    StopsOfPair(Ack(true), NackCurrent);
    StopsOfPair(NackCurrent, Stop);
    ReceptionStops(got, len);
    StopsAdd(Head(addr, true), Reception(got, len));
    StopsAdd(Head(addr, true) + Reception(got, len), [Ack(true), NackCurrent]);
    assert Head(addr, true) + Reception(got, len) + [] == Head(addr, true) + Reception(got, len);
  }

  lemma ReceptionStops(got: seq<byte>, len: nat)
    requires |got| <= len
    ensures Stops(Reception(got, len)) == if len >= 2 && |got| + 1 >= len then 1 else 0
  {
    hide Reception, RecvEvents;
    ReceptionShape(got, len);
    StopsOfPair(Ack(false), Stop);
    StopsOfPair(Stop, Stop);
    if len >= 2 && |got| == len {
      var front := got[..len - 1];
      DataHasNoStop(front);
      StopsAdd(RecvEvents(front), [Ack(false), Stop]);
      StopsAdd(RecvEvents(front) + [Ack(false), Stop], [Recv(got[len - 1])]);
      StopsOfPair(Recv(got[len - 1]), Stop);
    } else {
      DataHasNoStop(got);
      StopsAdd(RecvEvents(got), [Ack(false), Stop]);
    }
  }
}
