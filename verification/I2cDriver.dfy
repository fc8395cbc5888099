/** The transfer routines of the hardware I2C driver. */
module I2cDriver {
  import opened FixedPoint
  import opened I2c
  import opened I2cPolls

  /** One `struct rt_i2c_msg`. */
  datatype Msg = Msg(addr: nat, read: bool, buf: array<byte>, len: nat)

  /** What one message did. */
  datatype Leg = Leg(outcome: Outcome, moved: seq<byte>)

  datatype XferResult = Returned(ret: int) | XferHung

  ghost predicate Describes(msg: Msg, leg: Leg) {
    if msg.read then ReadOutcome(leg.outcome, |leg.moved|, msg.len)
    else leg.outcome.Done? && WriteCode(leg.outcome.code, |leg.moved|, msg.len)
  }

  ghost function LegTrace(msg: Msg, leg: Leg): seq<Event>
    requires Describes(msg, leg)
  {
    if msg.read then ReadTrace(msg.addr, leg.moved, msg.len, leg.outcome)
    else WriteTrace(msg.addr, leg.moved, leg.outcome.code)
  }

  ghost function Wire(msgs: seq<Msg>, legs: seq<Leg>): seq<Event>
    requires |legs| <= |msgs| && forall i :: 0 <= i < |legs| ==> Describes(msgs[i], legs[i])
    decreases |legs|
  {
    if legs == [] then []
    else Wire(msgs, legs[..|legs| - 1]) + LegTrace(msgs[|legs| - 1], legs[|legs| - 1])
  }

  /** The STOPs one message leaves on the wire, read off its result. */
  ghost function LegStops(msg: Msg, leg: Leg): nat {
    if msg.read then (if msg.len >= 2 && |leg.moved| + 1 >= msg.len then 1 else 0)
    else if leg.outcome == Done(0) then 1 else 0
  }

  ghost function TotalStops(msgs: seq<Msg>, legs: seq<Leg>): nat
    requires |legs| <= |msgs|
    decreases |legs|
  {
    if legs == [] then 0
    else TotalStops(msgs, legs[..|legs| - 1]) + LegStops(msgs[|legs| - 1], legs[|legs| - 1])
  }

  /** A transfer's STOPs are those of its messages: the failure branch of `rt_i2c_xfer`, which logs that it sends one,
      adds none. */
  lemma {:induction false} WireStops(msgs: seq<Msg>, legs: seq<Leg>)
    requires |legs| <= |msgs| && forall i :: 0 <= i < |legs| ==> Describes(msgs[i], legs[i])
    ensures Stops(Wire(msgs, legs)) == TotalStops(msgs, legs)
    decreases |legs|
  {
    hide LegTrace, Describes, LegStops;
    if legs != [] {
      var front, n := legs[..|legs| - 1], |legs| - 1;
      WireStops(msgs, front);
      StopsAdd(Wire(msgs, front), LegTrace(msgs[n], legs[n]));
      LegSendsItsStops(msgs[n], legs[n]);
    }
  }

  lemma LegSendsItsStops(msg: Msg, leg: Leg)
    requires Describes(msg, leg)
    ensures Stops(LegTrace(msg, leg)) == LegStops(msg, leg)
  {
    hide ReadTrace, WriteTrace, Stops;
    if msg.read {
      ReadStopsIff(msg.addr, leg.moved, msg.len, leg.outcome);
    } else {
      WriteStops(msg.addr, leg.moved, leg.outcome.code, msg.len);
    }
  }

  class I2cBus {
    const answer: nat -> bool
    const incoming: nat -> byte
    var polls: nat
    var received: nat
    var timeout: u32
    var trace: seq<Event>

    constructor (answer: nat -> bool, incoming: nat -> byte)
      ensures this.answer == answer && this.incoming == incoming && polls == 0 && received == 0 && trace == []
    {
      this.answer, this.incoming := answer, incoming;
      polls, received, timeout, trace := 0, 0, LONG_TIMEOUT, [];
    }

    /** `while (!ready) { if ((I2CTimeout--) == 0) return ...; }`: fails exactly when timeout + 1 polls are not ready. */
    method Wait(ready: bool) returns (ok: bool)
      modifies this`polls, this`timeout
      ensures old(polls) < polls <= old(polls) + old(timeout) + 1
      ensures Quiet(answer, old(polls), polls - 1, ready) && (ok <==> answer(polls - 1) == ready)
      ensures ok ==> timeout == old(timeout) - (polls - 1 - old(polls))
      ensures !ok ==> polls == old(polls) + old(timeout) + 1 && timeout == 0xFFFF_FFFF
      ensures !ok ==> Quiet(answer, old(polls), polls, ready)
    {
      ok := false;
      while true
        invariant old(polls) <= polls <= old(polls) + old(timeout)
        invariant timeout == old(timeout) - (polls - old(polls))
        invariant Quiet(answer, old(polls), polls, ready)
        decreases timeout
      {
        var now := answer(polls);
        polls := polls + 1;
        if now == ready { return true; }
        if timeout == 0 {
          timeout := 0xFFFF_FFFF;
          return false;
        }
        timeout := timeout - 1;
      }
    }

    /** Idle, START, EV5, address, EV6: the opening both directions share. `start` is the poll its last wait began at. */
    method Open(addr: nat, receive: bool, busy: int, noStart: int, noAddress: int) returns (code: int, ghost start: nat)
      requires busy != 0 && noStart != 0 && noAddress != 0
      requires busy != noStart && noStart != noAddress && busy != noAddress
      modifies this`polls, this`timeout, this`trace
      ensures code == 0 || code == busy || code == noStart || code == noAddress
      ensures code == busy ==> trace == old(trace)
      ensures code == noStart ==> trace == old(trace) + [Ack(true), Start]
      ensures code == noAddress || code == 0 ==> trace == old(trace) + Head(addr, receive)
      ensures old(polls) < polls <= old(polls) + 3 * MAX_POLLS
      ensures code == busy ==> WaitFails(answer, old(polls), polls, false)
      ensures code == noStart ==> Waits(answer, old(polls), start, 1) && WaitFails(answer, start, polls, true)
      ensures code == noAddress ==> Waits(answer, old(polls), start, 2) && WaitFails(answer, start, polls, true)
      ensures code == 0 ==> Waits(answer, old(polls), start, 2) && WaitOk(answer, start, polls, true)
      ensures code == 0 ==> timeout == LONG_TIMEOUT + 1 - (polls - start)
      ensures code == 0 ==> polls + timeout <= old(polls) + 3 * MAX_POLLS
    {
      hide Quiet, Waits;
      start := polls;
      NoWaits(answer, polls);
      timeout := LONG_TIMEOUT;
      var ok := Wait(false);
      if !ok { return busy, start; }
      OneMoreWait(answer, start, start, polls, 0);
      trace := trace + [Ack(true)];
      trace := trace + [Start];
      timeout := LONG_TIMEOUT;
      start := polls;
      ok := Wait(true);
      if !ok { return noStart, start; }
      OneMoreWait(answer, old(polls), start, polls, 1);
      trace := trace + [Addr(addr, receive)];
      timeout := LONG_TIMEOUT;
      start := polls;
      ok := Wait(true);
      if !ok { return noAddress, start; }
      code := 0;
    }

    static lemma OneMoreByte(addr: nat, data: seq<byte>, k: nat)
      requires k < |data|
      ensures Head(addr, false) + DataEvents(data[..k]) + [Data(data[k])] == Head(addr, false) + DataEvents(data[..k + 1])
    {
      assert data[..k + 1][..k] == data[..k];
    }

    static lemma WriteTraceCases(addr: nat, sent: seq<byte>)
      ensures WriteTrace(addr, [], 4) == [] && WriteTrace(addr, [], 5) == [Ack(true), Start]
      ensures WriteTrace(addr, [], 6) == Head(addr, false) == Head(addr, false) + DataEvents([])
      ensures WriteTrace(addr, sent, 7) == Head(addr, false) + DataEvents(sent) == WriteTrace(addr, sent, 8)
      ensures WriteTrace(addr, sent, 0) == Head(addr, false) + DataEvents(sent) + [Stop]
    {}

    /** `rt_i2c_write`. `sent` is how many bytes reached the data register. */
    method Write(addr: nat, buf: array<byte>, len: nat) returns (code: int, ghost sent: nat)
      requires len <= buf.Length && len < 0x1_0000
      modifies this`polls, this`timeout, this`trace
      ensures sent <= len && WriteCode(code, sent, len)
      ensures trace == old(trace) + WriteTrace(addr, buf[..sent], code)
      ensures polls <= old(polls) + MAX_POLLS * (len + 4)
      ensures WritePolls(answer, old(polls), polls, code, sent, len)
    {
      hide Quiet, Waits, WaitOk, WaitFails, WritePolls, WriteTrace, DataEvents, Head;
      sent := 0;
      WriteTraceCases(addr, []);
      assert buf[..0] == [];
      ghost var start;
      code, start := Open(addr, false, 4, 5, 6);
      if code != 0 {
        FailedOpening(answer, old(polls), start, polls, code, len);
        return;
      }
      OneMoreWait(answer, old(polls), start, polls, 2);
      code, sent, start := SendBytes(addr, buf, len, old(trace), old(polls));
      WriteTraceCases(addr, buf[..sent]);
      if code != 0 {
        WriteFailed(answer, old(polls), start, polls, 7, sent, len);
        return;
      }
      timeout := LONG_TIMEOUT;
      start := polls;
      var ok := Wait(true);
      WaitResult(answer, start, polls, true, ok);
      if !ok {
        WriteFailed(answer, old(polls), start, polls, 8, sent, len);
        return 8, sent;
      }
      OneMoreWait(answer, old(polls), start, polls, 3 + len);
      WriteDone(answer, old(polls), polls, sent, len);
      trace := trace + [Stop];
      assert trace == old(trace) + WriteTrace(addr, buf[..sent], 0);
    }

    static lemma WaitResult(answer: Oracle, from: nat, to: nat, level: bool, ok: bool)
      requires from < to <= from + MAX_POLLS && Quiet(answer, from, to - 1, level) && (ok <==> answer(to - 1) == level)
      requires !ok ==> to == from + MAX_POLLS && Quiet(answer, from, to, level)
      ensures if ok then WaitOk(answer, from, to, level) else WaitFails(answer, from, to, level)
    {}

    static lemma FailedOpening(answer: Oracle, from: nat, start: nat, to: nat, code: int, len: nat)
      requires code == 4 ==> WaitFails(answer, from, to, false)
      requires code == 5 ==> Waits(answer, from, start, 1) && WaitFails(answer, start, to, true)
      requires code == 6 ==> Waits(answer, from, start, 2) && WaitFails(answer, start, to, true)
      requires code == 4 || code == 5 || code == 6
      ensures WritePolls(answer, from, to, code, 0, len)
    {
      NoWaits(answer, from);
      hide Waits, WaitFails;
    }

    static lemma WriteFailed(answer: Oracle, from: nat, start: nat, to: nat, code: int, sent: nat, len: nat)
      requires (code == 7 && sent >= 1) || code == 8
      requires Waits(answer, from, start, WriteWaits(code, sent, len)) && WaitFails(answer, start, to, true)
      ensures WritePolls(answer, from, to, code, sent, len)
    {
      hide Waits, WaitFails;
    }

    static lemma WriteDone(answer: Oracle, from: nat, to: nat, sent: nat, len: nat)
      requires Waits(answer, from, to, 4 + len)
      ensures WritePolls(answer, from, to, 0, sent, len)
    {
      hide Waits, WaitFails;
    }

    /** The data loop of `rt_i2c_write`, after `base` and the opening. */
    method SendBytes(addr: nat, buf: array<byte>, len: nat, ghost base: seq<Event>, ghost from: nat)
      returns (code: int, ghost sent: nat, ghost start: nat)
      requires len <= buf.Length
      requires trace == base + (Head(addr, false) + DataEvents([]))
      requires Waits(answer, from, polls, 3)
      modifies this`polls, this`timeout, this`trace
      ensures sent <= len && ((code == 0 && sent == len) || (code == 7 && sent >= 1))
      ensures trace == base + (Head(addr, false) + DataEvents(buf[..sent]))
      ensures old(polls) <= polls <= old(polls) + MAX_POLLS * sent
      ensures code == 0 ==> Waits(answer, from, polls, 3 + len)
      ensures code == 7 ==> Waits(answer, from, start, 2 + sent) && WaitFails(answer, start, polls, true)
    {
      hide Quiet, Waits, WaitOk, WaitFails, DataEvents, Head;
      sent, start := 0, polls;
      assert buf[..0] == [];
      var dataByte, sendBufferPtr := len, 0;
      while dataByte > 0
        invariant 0 <= dataByte <= len && sendBufferPtr == sent == len - dataByte
        invariant trace == base + (Head(addr, false) + DataEvents(buf[..sent]))
        invariant old(polls) <= polls <= old(polls) + MAX_POLLS * sent
        invariant Waits(answer, from, polls, 3 + sent)
      {
        dataByte := dataByte - 1;
        OneMoreByte(addr, buf[..], sent);
        assert buf[..][..sent] == buf[..sent] && buf[..][..sent + 1] == buf[..sent + 1];
        trace := trace + [Data(buf[sendBufferPtr])];
        sendBufferPtr := sendBufferPtr + 1;
        sent := sent + 1;
        timeout := LONG_TIMEOUT;
        start := polls;
        var ok := Wait(true);
        WaitResult(answer, start, polls, true, ok);
        if !ok { return 7, sent, start; }
        OneMoreWait(answer, from, start, polls, 2 + sent);
      }
      code := 0;
    }

    static lemma OneMoreReceived(addr: nat, before: seq<byte>, b: byte, len: nat)
      ensures Head(addr, true) + Reception(before + [b], len)
              == Head(addr, true) + Reception(before, len) + [Recv(b)]
                 + (if len - |before| == 2 then [Ack(false), Stop] else [])
    {
      assert (before + [b])[..|before|] == before;
    }

    static lemma ReadTraceCases(addr: nat, got: seq<byte>, len: nat)
      ensures ReadTrace(addr, [], len, Done(9)) == [] && ReadTrace(addr, [], len, Done(10)) == [Ack(true), Start]
      ensures ReadTrace(addr, [], len, Done(6)) == Head(addr, true) == Head(addr, true) + Reception([], len)
      ensures ReadTrace(addr, got, len, Done(7)) == Head(addr, true) + Reception(got, len) == ReadTrace(addr, got, len, Hung)
      ensures ReadTrace(addr, got, len, Done(0)) == Head(addr, true) + Reception(got, len) + [Ack(true), NackCurrent]
    {}

    /** `rt_i2c_read`. The data loop has no timeout, so it is followed for at most `patience` polls. The wait for the
        end of the STOP goes on with whatever the wait for EV6 left of its timeout. */
    method Read(addr: nat, buf: array<byte>, len: nat, patience: nat) returns (outcome: Outcome, ghost got: nat)
      requires len <= buf.Length && len < 0x1_0000
      modifies this`polls, this`timeout, this`trace, this`received, buf
      ensures got <= len && ReadOutcome(outcome, got, len)
      ensures trace == old(trace) + ReadTrace(addr, buf[..][..got], len, outcome)
      ensures received == old(received) + got
      ensures Delivered(buf[..], old(buf[..]), got, old(received), incoming)
      ensures polls <= old(polls) + 3 * MAX_POLLS + patience + 1
      ensures ReadPolls(answer, old(polls), polls, outcome, got, len, patience)
    {
      hide Quiet, Waits, WaitOk, WaitFails, DataPolls, ReadPolls, Reception, ReadTrace, Head, Delivered;
      got := 0;
      NothingDelivered(buf[..], received, incoming);
      ReadTraceCases(addr, [], len);
      assert buf[..][..0] == [];
      var code;
      ghost var ev6;
      code, ev6 := Open(addr, true, 9, 10, 6);
      if code != 0 {
        ReadNotOpened(answer, old(polls), ev6, polls, code, len, patience);
        return Done(code), got;
      }
      ghost var open := polls;
      var complete;
      complete, got := ReceiveBytes(addr, buf, len, patience, old(trace));
      ReadTraceCases(addr, buf[..][..got], len);
      ghost var data := polls;
      if !complete {
        ReadEnded(answer, old(polls), ev6, open, data, polls, Hung, got, len, patience);
        return Hung, got;
      }
      var ok := Wait(false);
      ReadEnded(answer, old(polls), ev6, open, data, polls, Done(if ok then 0 else 7), got, len, patience);
      if !ok { return Done(7), got; }
      trace := trace + [Ack(true)];
      trace := trace + [NackCurrent];
      assert [Ack(true)] + [NackCurrent] == [Ack(true), NackCurrent];
      outcome := Done(0);
      assert trace == old(trace) + ReadTrace(addr, buf[..][..got], len, outcome);
    }

    static lemma ReadNotOpened(answer: Oracle, from: nat, start: nat, to: nat, code: int, len: nat, patience: nat)
      requires code == 9 ==> WaitFails(answer, from, to, false)
      requires code == 10 ==> Waits(answer, from, start, 1) && WaitFails(answer, start, to, true)
      requires code == 6 ==> Waits(answer, from, start, 2) && WaitFails(answer, start, to, true)
      requires code == 9 || code == 10 || code == 6
      ensures ReadPolls(answer, from, to, Done(code), 0, len, patience)
    {
      hide Waits, WaitFails;
    }

    static lemma ReadEnded(answer: Oracle, from: nat, ev6: nat, open: nat, data: nat, to: nat, outcome: Outcome,
                           got: nat, len: nat, patience: nat)
      requires Waits(answer, from, ev6, 2) && WaitOk(answer, ev6, open, true)
      requires DataPolls(answer, open, data, got, len, patience)
      requires outcome == Done(0) || outcome == Done(7) || outcome == Hung
      requires EndPolls(answer, data, to, outcome, MAX_POLLS + 1 - (open - ev6))
      ensures ReadPolls(answer, from, to, outcome, got, len, patience)
    {
      hide Waits, WaitOk, DataPolls, EndPolls;
    }

    static lemma OneMorePoll(answer: Oracle, from: nat, to: nat)
      requires from <= to
      ensures Ready(answer, from, to + 1) == Ready(answer, from, to) + (if answer(to) then 1 else 0)
      ensures Ready(answer, from, from) == 0
    {}

    /** Of a buffer that held `was`: the bytes taken so far are in it, in order, and the rest is untouched. */
    static ghost predicate Delivered(now: seq<byte>, was: seq<byte>, got: nat, first: nat, incoming: nat -> byte) {
      && |now| == |was| && got <= |now|
      && (forall i :: 0 <= i < got ==> now[i] == incoming(first + i))
      && (forall i :: got <= i < |now| ==> now[i] == was[i])
    }

    static lemma NothingDelivered(now: seq<byte>, first: nat, incoming: nat -> byte)
      ensures Delivered(now, now, 0, first, incoming)
    {}

    static lemma NextDelivered(now: seq<byte>, was: seq<byte>, got: nat, first: nat, incoming: nat -> byte)
      requires Delivered(now, was, got, first, incoming) && got < |now|
      ensures Delivered(now[got := incoming(first + got)], was, got + 1, first, incoming)
      ensures now[got := incoming(first + got)][..got + 1] == now[..got] + [incoming(first + got)]
    {}

    /** A byte is ready: store it, and after the last but one send NACK and STOP. */
    method TakeByte(buf: array<byte>, at: nat, remaining: nat)
      requires at < buf.Length && remaining > 0
      modifies this`trace, this`received, buf
      ensures buf[..] == old(buf[..])[at := incoming(old(received))] && received == old(received) + 1
      ensures trace == old(trace) + [Recv(incoming(old(received)))] + (if remaining == 2 then [Ack(false), Stop] else [])
    {
      buf[at] := incoming(received);
      received := received + 1;
      trace := trace + [Recv(buf[at])];
      if 1 == remaining - 1 {
        trace := trace + [Ack(false)];
        trace := trace + [Stop];
      }
    }

    /** The data loop of `rt_i2c_read`, after `base` and the opening. */
    method ReceiveBytes(addr: nat, buf: array<byte>, len: nat, patience: nat, ghost base: seq<Event>)
      returns (complete: bool, ghost got: nat)
      requires len <= buf.Length
      requires trace == base + (Head(addr, true) + Reception([], len))
      modifies this`polls, this`trace, this`received, buf
      ensures got <= len && (complete <==> got == len)
      ensures trace == base + (Head(addr, true) + Reception(buf[..][..got], len))
      ensures received == old(received) + got && Delivered(buf[..], old(buf[..]), got, old(received), incoming)
      ensures old(polls) <= polls <= old(polls) + patience
      ensures DataPolls(answer, old(polls), polls, got, len, patience)
    {
      hide Reception, Head, Ready;
      got := 0;
      OneMorePoll(answer, polls, polls);
      NothingDelivered(buf[..], received, incoming);
      assert buf[..][..0] == [];
      hide Delivered;
      var dataByte, left, pBuffer := len, patience, 0;
      while dataByte > 0
        invariant 0 <= dataByte <= len && pBuffer == got == len - dataByte
        invariant trace == base + (Head(addr, true) + Reception(buf[..][..got], len))
        invariant received == old(received) + got && Delivered(buf[..], old(buf[..]), got, old(received), incoming)
        invariant 0 <= left <= patience && polls == old(polls) + (patience - left)
        invariant Ready(answer, old(polls), polls) == got
        invariant dataByte == 0 && len > 0 ==> polls > old(polls) && answer(polls - 1)
        invariant len == 0 ==> polls == old(polls)
        decreases left
      {
        if left == 0 { return false, got; }
        left := left - 1;
        OneMorePoll(answer, old(polls), polls);
        var ready := answer(polls);
        polls := polls + 1;
        if ready {
          OneMoreReceived(addr, buf[..][..got], incoming(received), len);
          NextDelivered(buf[..], old(buf[..]), got, old(received), incoming);
          TakeByte(buf, pBuffer, dataByte);
          pBuffer := pBuffer + 1;
          dataByte := dataByte - 1;
          got := got + 1;
        }
      }
      complete := true;
    }

    /** One message of a transfer: `ok` is what the caller tests, a result of zero. */
    method Transfer(msg: Msg, patience: nat) returns (ok: bool, hung: bool, ghost leg: Leg)
      requires msg.len <= msg.buf.Length && msg.len < 0x1_0000
      modifies this`polls, this`timeout, this`trace, this`received, msg.buf
      ensures Describes(msg, leg) && trace == old(trace) + LegTrace(msg, leg)
      ensures (ok <==> leg.outcome == Done(0)) && (hung <==> leg.outcome.Hung?)
      ensures |leg.moved| <= msg.buf.Length
      ensures msg.read ==> leg.moved == msg.buf[..][..|leg.moved|] && received == old(received) + |leg.moved|
      ensures msg.read ==> forall i :: 0 <= i < |leg.moved| ==> leg.moved[i] == incoming(old(received) + i)
      ensures !msg.read ==> leg.moved == old(msg.buf[..])[..|leg.moved|] && received == old(received)
      ensures !msg.read ==> msg.buf[..] == old(msg.buf[..])
    {
      hide ReadPolls, WritePolls, ReadTrace, WriteTrace, ReadOutcome, WriteCode;
      if msg.read {
        var outcome, got := Read(msg.addr, msg.buf, msg.len, patience);
        leg := Leg(outcome, msg.buf[..][..got]);
        ok, hung := outcome == Done(0), outcome.Hung?;
      } else {
        var code, sent := Write(msg.addr, msg.buf, msg.len);
        leg := Leg(Done(code), msg.buf[..sent]);
        ok, hung := code == 0, false;
      }
    }

    static lemma WireMore(msgs: seq<Msg>, legs: seq<Leg>, leg: Leg)
      requires |legs| < |msgs| && Describes(msgs[|legs|], leg)
      requires forall i :: 0 <= i < |legs| ==> Describes(msgs[i], legs[i])
      ensures Wire(msgs, legs + [leg]) == Wire(msgs, legs) + LegTrace(msgs[|legs|], leg)
    {
      hide LegTrace, Describes;
      assert (legs + [leg])[..|legs|] == legs;
    }

    static ghost predicate ReadInto(msgs: seq<Msg>, buf: array<byte>) {
      exists m :: m in msgs && m.read && m.buf == buf
    }

    static lemma ReadsInto(msgs: seq<Msg>, msg: Msg)
      requires msg in msgs
      ensures msg.read ==> ReadInto(msgs, msg.buf)
    {}

    /** The bytes the read messages delivered, in order. */
    static ghost function BytesIn(msgs: seq<Msg>, legs: seq<Leg>): seq<byte>
      requires |legs| <= |msgs|
      decreases |legs|
    {
      if legs == [] then []
      else BytesIn(msgs, legs[..|legs| - 1]) + (if msgs[|legs| - 1].read then legs[|legs| - 1].moved else [])
    }

    /** The bytes number `from` to `to` that the slave sends. */
    static ghost function Incoming(incoming: nat -> byte, from: nat, to: nat): seq<byte>
      decreases to
    {
      if to <= from then [] else Incoming(incoming, from, to - 1) + [incoming(to - 1)]
    }

    static lemma {:induction false} IncomingJoins(incoming: nat -> byte, from: nat, mid: nat, moved: seq<byte>)
      requires from <= mid && forall i :: 0 <= i < |moved| ==> moved[i] == incoming(mid + i)
      ensures Incoming(incoming, from, mid) + moved == Incoming(incoming, from, mid + |moved|)
      decreases |moved|
    {
      if moved == [] {
        assert Incoming(incoming, from, mid) + [] == Incoming(incoming, from, mid);
      } else {
        var n := |moved| - 1;
        IncomingJoins(incoming, from, mid, moved[..n]);
        assert Incoming(incoming, from, mid) + moved == Incoming(incoming, from, mid) + moved[..n] + [moved[n]];
      }
    }

    static lemma MoreBytesIn(msgs: seq<Msg>, legs: seq<Leg>, leg: Leg, incoming: nat -> byte, from: nat, mid: nat)
      requires |legs| < |msgs| && from <= mid && BytesIn(msgs, legs) == Incoming(incoming, from, mid)
      requires msgs[|legs|].read ==> forall i :: 0 <= i < |leg.moved| ==> leg.moved[i] == incoming(mid + i)
      ensures BytesIn(msgs, legs + [leg])
              == Incoming(incoming, from, if msgs[|legs|].read then mid + |leg.moved| else mid)
    {
      hide Incoming;
      assert (legs + [leg])[..|legs|] == legs;
      if msgs[|legs|].read {
        IncomingJoins(incoming, from, mid, leg.moved);
      } else {
        assert BytesIn(msgs, legs) + [] == BytesIn(msgs, legs);
      }
    }

    /** `rt_i2c_xfer`: stops at the first message that fails. The bytes of its read messages are the bytes the slave
        sends, in order; a buffer no message reads into goes out as it was. */
    method Xfer(msgs: seq<Msg>, patience: nat) returns (result: XferResult, ghost legs: seq<Leg>)
      requires forall i :: 0 <= i < |msgs| ==> msgs[i].len <= msgs[i].buf.Length && msgs[i].len < 0x1_0000
      modifies this`polls, this`timeout, this`trace, this`received, set m | m in msgs :: m.buf
      ensures |legs| <= |msgs| && forall i :: 0 <= i < |legs| ==> Describes(msgs[i], legs[i])
      ensures trace == old(trace) + Wire(msgs, legs)
      ensures forall i :: 0 <= i < |legs| - 1 ==> legs[i].outcome == Done(0)
      ensures result == Returned(|msgs|) <==> |legs| == |msgs| && (msgs != [] ==> legs[|legs| - 1].outcome == Done(0))
      ensures result != Returned(|msgs|)
              ==> legs != [] && legs[|legs| - 1].outcome != Done(0)
                  && result == (if legs[|legs| - 1].outcome.Hung? then XferHung else Returned(-1))
      ensures BytesIn(msgs, legs) == Incoming(incoming, old(received), received)
      ensures forall k :: 0 <= k < |legs| && !msgs[k].read && !ReadInto(msgs, msgs[k].buf)
                          ==> legs[k].moved <= old(msgs[k].buf[..])
    {
      hide LegTrace, Describes, Wire, Incoming, BytesIn, ReadInto;
      legs := [];
      NothingOnTheWire(msgs, incoming, received);
      var i := 0;
      while i < |msgs|
        invariant 0 <= i <= |msgs| && |legs| == i
        invariant forall k :: 0 <= k < i ==> Describes(msgs[k], legs[k])
        invariant forall k :: 0 <= k < i ==> legs[k].outcome == Done(0)
        invariant trace == old(trace) + Wire(msgs, legs)
        invariant received >= old(received) && BytesIn(msgs, legs) == Incoming(incoming, old(received), received)
        invariant forall k :: 0 <= k < |msgs| && !ReadInto(msgs, msgs[k].buf) ==> msgs[k].buf[..] == old(msgs[k].buf[..])
        invariant forall k :: 0 <= k < i && !msgs[k].read && !ReadInto(msgs, msgs[k].buf)
                              ==> legs[k].moved <= old(msgs[k].buf[..])
      {
        var msg := msgs[i];
        assert msg in msgs;
        ghost var before := received;
        ReadsInto(msgs, msg);
        var ok, hung, leg := Transfer(msg, patience);
        WireMore(msgs, legs, leg);
        MoreBytesIn(msgs, legs, leg, incoming, old(received), before);
        legs := legs + [leg];
        if !ok { return if hung then XferHung else Returned(-1), legs; }
        i := i + 1;
      }
      result := Returned(i);
    }

    static lemma NothingOnTheWire(msgs: seq<Msg>, incoming: nat -> byte, first: nat)
      ensures Wire(msgs, []) == [] && BytesIn(msgs, []) == Incoming(incoming, first, first) == []
    {}
  }
}
