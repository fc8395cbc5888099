/** What the polled flags say of a transfer: a chain of timed waits, each ending at the first poll that shows the
    awaited level, and which of them runs out. */
module I2cPolls {
  import opened I2c

  type Oracle = nat -> bool

  ghost predicate Quiet(answer: Oracle, from: nat, to: nat, level: bool) {
    forall i: nat :: from <= i < to ==> answer(i) != level
  }

  /** The wait that starts at poll `from` ends just before poll `to`, having seen the level within its timeout. */
  ghost predicate WaitOk(answer: Oracle, from: nat, to: nat, level: bool) {
    from < to <= from + MAX_POLLS && Quiet(answer, from, to - 1, level) && answer(to - 1) == level
  }

  ghost predicate WaitFails(answer: Oracle, from: nat, to: nat, level: bool) {
    to == from + MAX_POLLS && Quiet(answer, from, to, level)
  }

  /** n waits in a row: the first is for the busy flag to drop, every later one for an event. */
  ghost predicate Waits(answer: Oracle, from: nat, to: nat, n: nat)
    decreases n
  {
    if n == 0 then to == from
    else
      var before: nat, level := n - 1, n != 1;
      exists mid: nat :: Waits(answer, from, mid, before) && WaitOk(answer, mid, to, level)
  }

  lemma OneMoreWait(answer: Oracle, from: nat, mid: nat, to: nat, n: nat)
    requires Waits(answer, from, mid, n) && WaitOk(answer, mid, to, n != 0)
    ensures Waits(answer, from, to, n + 1)
  {}

  lemma NoWaits(answer: Oracle, from: nat)
    ensures Waits(answer, from, from, 0)
  {}

  lemma WaitEndsOnce(answer: Oracle, from: nat, to: nat, to': nat, level: bool)
    requires WaitOk(answer, from, to, level)
    ensures WaitOk(answer, from, to', level) ==> to == to'
    ensures !WaitFails(answer, from, to', level)
  {
    assert answer(to - 1) == level;
    if WaitOk(answer, from, to', level) {
      assert answer(to' - 1) == level;
    }
  }

  lemma {:induction false} WaitsEndOnce(answer: Oracle, from: nat, to: nat, to': nat, n: nat)
    requires Waits(answer, from, to, n) && Waits(answer, from, to', n)
    ensures to == to'
    decreases n
  {
    if n > 0 {
      var mid: nat :| Waits(answer, from, mid, n - 1) && WaitOk(answer, mid, to, n != 1);
      var mid': nat :| Waits(answer, from, mid', n - 1) && WaitOk(answer, mid', to', n != 1);
      WaitsEndOnce(answer, from, mid, mid', n - 1);
      WaitEndsOnce(answer, mid, to, to', n != 1);
    }
  }

  /** A longer chain of waits contains the shorter one, and the wait after it. */
  lemma {:induction false} WaitInside(answer: Oracle, from: nat, to: nat, n: nat, m: nat) returns (mid: nat, next: nat)
    requires Waits(answer, from, to, n) && m < n
    ensures Waits(answer, from, mid, m) && WaitOk(answer, mid, next, m != 0)
    decreases n
  {
    var last: nat :| Waits(answer, from, last, n - 1) && WaitOk(answer, last, to, n != 1);
    if m == n - 1 {
      mid, next := last, to;
    } else {
      mid, next := WaitInside(answer, from, last, n - 1, m);
    }
  }

  // ---------------------------------------------------------------- writing

  /** How many waits have succeeded when a write returns: idle, EV5, EV6, one for every byte, and the last. */
  function WriteWaits(code: int, sent: nat, len: nat): int {
    if code == 4 then 0 else if code == 5 then 1 else if code == 6 then 2
    else if code == 7 then 2 + sent else if code == 8 then 3 + len else 4 + len
  }

  /** A write returned `code` after polling from `from` to `to`: that many waits succeeded, and unless it returned 0
      the next one ran out. */
  ghost predicate WritePolls(answer: Oracle, from: nat, to: nat, code: int, sent: nat, len: nat) {
    var n := WriteWaits(code, sent, len);
    var level := n != 0;
    n >= 0 && exists start: nat ::
      Waits(answer, from, start, n) && if code == 0 then to == start else WaitFails(answer, start, to, level)
  }

  lemma NotLonger(answer: Oracle, from: nat, to: nat, to': nat, n: nat, n': nat, start: nat)
    requires Waits(answer, from, start, n) && WaitFails(answer, start, to, n != 0)
    requires Waits(answer, from, to', n')
    ensures n' <= n
  {
    if n < n' {
      var mid, next := WaitInside(answer, from, to', n', n);
      WaitsEndOnce(answer, from, start, mid, n);
      WaitEndsOnce(answer, mid, next, to, n != 0);
    }
  }

  /** The answers decide everything: what a write returns, how far it gets and how many polls it takes. */
  lemma WriteIsDetermined(answer: Oracle, from: nat, to: nat, code: int, sent: nat, to': nat, code': int, sent': nat, len: nat)
    requires WriteCode(code, sent, len) && WriteCode(code', sent', len)
    requires WritePolls(answer, from, to, code, sent, len) && WritePolls(answer, from, to', code', sent', len)
    ensures code == code' && sent == sent' && to == to'
  {
    var n: nat, n': nat := WriteWaits(code, sent, len), WriteWaits(code', sent', len);
    var start: nat :| Waits(answer, from, start, n) && if code == 0 then to == start else WaitFails(answer, start, to, n != 0);
    var start': nat :| Waits(answer, from, start', n')
                       && if code' == 0 then to' == start' else WaitFails(answer, start', to', n' != 0);
    hide Waits, WaitFails, WaitOk;
    if code != 0 { NotLonger(answer, from, to, start', n, n', start); }
    if code' != 0 { NotLonger(answer, from, to', start, n', n, start'); }
    WaitCountsDiffer(code, sent, code', sent', len);
    WaitsEndOnce(answer, from, start, start', n);
    FailEnds(answer, start, to, to', n != 0, code);
  }

  lemma FailEnds(answer: Oracle, start: nat, to: nat, to': nat, level: bool, code: int)
    ensures WaitFails(answer, start, to, level) && WaitFails(answer, start, to', level) ==> to == to'
  {}

  /** Different returns come after different numbers of waits; only a complete write has made them all. */
  lemma WaitCountsDiffer(code: int, sent: nat, code': int, sent': nat, len: nat)
    requires WriteCode(code, sent, len) && WriteCode(code', sent', len)
    ensures WriteWaits(code, sent, len) == WriteWaits(code', sent', len) ==> code == code' && sent == sent'
    ensures code == 0 ==> WriteWaits(code', sent', len) <= WriteWaits(code, sent, len)
    ensures code == 0 && code' != 0 ==> WriteWaits(code', sent', len) < WriteWaits(code, sent, len)
  {}

  // ---------------------------------------------------------------- reading

  /** The polls of the data loop that found a byte. */
  function Ready(answer: Oracle, from: nat, to: nat): nat
    decreases to
  {
    if to <= from then 0 else Ready(answer, from, to - 1) + (if answer(to - 1) then 1 else 0)
  }

  /** The data loop polls from `from` to `to`: it stops with the last byte asked for, or with its patience. */
  ghost predicate DataPolls(answer: Oracle, from: nat, to: nat, got: nat, len: nat, patience: nat) {
    && from <= to <= from + patience && Ready(answer, from, to) == got
    && (if got == len then (if len == 0 then to == from else to > from && answer(to - 1)) else to == from + patience)
  }

  /** A read: up to three waits; then the data loop; then a wait for the STOP flag to drop, with as many polls as the
      wait for EV6 left of its timeout, and one more. */
  ghost predicate ReadPolls(answer: Oracle, from: nat, to: nat, outcome: Outcome, got: nat, len: nat, patience: nat) {
    if outcome == Done(9) then WaitFails(answer, from, to, false)
    else if outcome == Done(10) then exists start: nat :: Waits(answer, from, start, 1) && WaitFails(answer, start, to, true)
    else if outcome == Done(6) then exists start: nat :: Waits(answer, from, start, 2) && WaitFails(answer, start, to, true)
    else exists ev6: nat, open: nat, data: nat ::
      && Waits(answer, from, ev6, 2) && WaitOk(answer, ev6, open, true)
      && DataPolls(answer, open, data, got, len, patience)
      && EndPolls(answer, data, to, outcome, MAX_POLLS + 1 - (open - ev6))
  }

  ghost predicate EndPolls(answer: Oracle, from: nat, to: nat, outcome: Outcome, budget: int) {
    if outcome == Done(0) then from < to <= from + budget && Quiet(answer, from, to - 1, false) && !answer(to - 1)
    else if outcome == Done(7) then to == from + budget && Quiet(answer, from, to, false)
    else to == from
  }
}
