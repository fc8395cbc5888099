/** The GPIO external-interrupt manager: 16 EXTI lines share 7 interrupt vectors.  PinIrqDriver
    refines this model to the bit masks and NVIC registers of the driver. */
module PinIrq {

  const LINES: nat := 16
  const PINS: nat := 64

  /** One entry of `pin_irq_hdr_tab`; handler 0 is RT_NULL. */
  datatype Slot = Slot(pin: int, mode: int, hdr: int, args: int)

  const FREE: Slot := Slot(-1, 0, 0, 0)

  const RISING: int := 0
  const FALLING: int := 1
  const RISING_FALLING: int := 2

  datatype Rc = Eok | Enosys | Ebusy | Error

  /** `source` is the port each line is routed from; `unmasked`, `rising` and `falling` are the EXTI
      registers; `vectors` is the set of interrupt numbers enabled in the NVIC; `masked` says that
      interrupts are disabled globally. */
  datatype State = State(
    slots: seq<Slot>,
    enabled: set<nat>,
    vectors: set<int>,
    unmasked: set<nat>,
    rising: set<nat>,
    falling: set<nat>,
    pending: set<nat>,
    source: seq<int>,
    masked: bool)

  predicate Shaped(s: State) {
    && |s.slots| == |s.source| == LINES
    && forall i :: i in s.enabled ==> i < LINES
  }

  datatype Call =
    | Attach(pin: int, mode: int, hdr: int, args: int)
    | Detach(pin: int)
    | IrqEnable(pin: int, enabled: int)

  /** `pin_irq_map` */
  function Vector(line: nat): int {
    if line < 5 then 6 + line else if line < 10 then 23 else 40
  }

  /** `get_pin` takes its argument as an unsigned byte. */
  function PinIndex(pin: int): int {
    pin % 0x100
  }

  predicate Known(pin: int) {
    PinIndex(pin) < PINS
  }

  function Line(pin: int): (i: nat)
    ensures i < LINES && i == pin % 16
  {
    PinIndex(pin) % 16
  }

  predicate Supported(mode: int) {
    mode == RISING || mode == FALLING || mode == RISING_FALLING
  }

  function Step(s: State, c: Call): (r: (State, Rc))
    requires Shaped(s)
    ensures Shaped(r.0)
  {
    if !Known(c.pin) then (s, Enosys)
    else
      var i := Line(c.pin);
      match c
      case Attach(pin, mode, hdr, args) =>
        if s.slots[i] == Slot(pin, mode, hdr, args) then (s, Eok)
        else if s.slots[i].pin != -1 then (s, Ebusy)
        else (s.(slots := s.slots[i := Slot(pin, mode, hdr, args)]), Eok)
      case Detach(pin) =>
        if s.slots[i].pin == -1 then (s, Eok) else (s.(slots := s.slots[i := FREE]), Eok)
      case IrqEnable(pin, enabled) =>
        if enabled == 1 then
          if s.slots[i].pin == -1 then (s, Enosys)
          else if !Supported(s.slots[i].mode) then (s.(masked := true), Error)
          else (Enable(s, i, PinIndex(pin) / 16), Eok)
        else if enabled == 0 then (Disable(s, i), Eok)
        else (s, Enosys)
  }

  function Enable(s: State, i: nat, port: int): (s': State)
    requires Shaped(s) && i < LINES
    ensures Shaped(s')
  {
    var mode := s.slots[i].mode;
    s.(enabled := s.enabled + {i},
       vectors := s.vectors + {Vector(i)},
       unmasked := s.unmasked + {i},
       rising := if mode == FALLING then s.rising - {i} else s.rising + {i},
       falling := if mode == RISING then s.falling - {i} else s.falling + {i},
       pending := s.pending - {i},
       source := s.source[i := port])
  }

  /** Only the enable mask and the NVIC change; the line stays unmasked in the EXTI. */
  function Disable(s: State, i: nat): (s': State)
    requires Shaped(s) && i < LINES
    ensures Shaped(s')
  {
    var enabled := s.enabled - {i};
    s.(enabled := enabled,
       vectors := if exists k :: k in enabled && Vector(k) == Vector(i) then s.vectors else s.vectors - {Vector(i)})
  }

  /** What enabling a pin does to its line, spelled out: it succeeds exactly when the line has a binding with one of
      the three trigger modes; then the line listens to the pin's own port, for the edges of that mode and no other,
      and an event latched before is dropped. */
  lemma EnableIsExact(s: State, pin: int)
    requires Shaped(s)
    ensures var (t, rc) := Step(s, IrqEnable(pin, 1));
            var i := pin % 16;
            var mode := s.slots[i].mode;
            && (rc == Eok <==> pin % 0x100 < 64 && s.slots[i].pin != -1 && 0 <= mode <= 2)
            && (rc == Error <==> pin % 0x100 < 64 && s.slots[i].pin != -1 && !(0 <= mode <= 2))
            && (rc == Error ==> t == s.(masked := true)) && (rc == Enosys ==> t == s) && rc != Ebusy
            && (rc == Eok ==>
                  && (i in t.rising <==> mode == RISING || mode == RISING_FALLING)
                  && (i in t.falling <==> mode == FALLING || mode == RISING_FALLING)
                  && t.source == s.source[i := pin % 0x100 / 16]
                  && i in t.unmasked && i !in t.pending && i in t.enabled && Vector(i) in t.vectors
                  && t.slots == s.slots && t.masked == s.masked)
    ensures var t := Step(s, IrqEnable(pin, 1)).0;
            && (forall k: nat :: k != pin % 16 ==> SameLine(s, t, k))
            && (forall v :: v != Vector(pin % 16) ==> (v in t.vectors <==> v in s.vectors))
  {}

  /** Line k is left alone. */
  predicate SameLine(s: State, t: State, k: nat) {
    && (k in t.rising <==> k in s.rising) && (k in t.falling <==> k in s.falling)
    && (k in t.unmasked <==> k in s.unmasked) && (k in t.pending <==> k in s.pending)
    && (k in t.enabled <==> k in s.enabled)
  }

  /** What disabling a pin does: the line leaves the enabled ones, and takes its vector with it if it was the last. */
  lemma DisableIsExact(s: State, pin: int)
    requires Shaped(s)
    ensures var (t, rc) := Step(s, IrqEnable(pin, 0));
            var i := Line(pin);
            && rc == (if pin % 0x100 < 64 then Eok else Enosys) && (rc == Enosys ==> t == s)
            && (rc == Eok ==>
                  && t == s.(enabled := s.enabled - {i}, vectors := t.vectors)
                  && forall v :: v in t.vectors <==>
                       v in s.vectors && (v == Vector(i) ==> exists k :: k in s.enabled && k != i && Vector(k) == v))
  {
    var i := Line(pin);
    var enabled := s.enabled - {i};
    assert (exists k :: k in s.enabled && k != i && Vector(k) == Vector(i))
           <==> (exists k :: k in enabled && Vector(k) == Vector(i)) by {
      if k :| k in s.enabled && k != i && Vector(k) == Vector(i) { assert k in enabled; }
      if k :| k in enabled && Vector(k) == Vector(i) { assert k in s.enabled && k != i; }
    }
  }

  // ---------------------------------------------------------------- invariants of every run

  predicate IsExtiVector(v: int) {
    6 <= v <= 10 || v == 23 || v == 40
  }

  /** A vector is enabled exactly when some enabled line is mapped to it. */
  ghost predicate SharedVectors(s: State) {
    forall v :: IsExtiVector(v) ==> (v in s.vectors <==> exists i :: i in s.enabled && Vector(i) == v)
  }

  /** An occupied slot belongs to a pin of its own line. */
  predicate Owned(s: State)
    requires Shaped(s)
  {
    forall i :: 0 <= i < LINES && s.slots[i].pin != -1 ==> s.slots[i].pin % 16 == i && Known(s.slots[i].pin)
  }

  /** An enabled line is unmasked in the EXTI and has at least one trigger edge. */
  predicate Armed(s: State) {
    forall i :: i in s.enabled ==> i in s.unmasked && (i in s.rising || i in s.falling)
  }

  ghost predicate Inv(s: State)
    requires Shaped(s)
  {
    SharedVectors(s) && Owned(s) && Armed(s)
  }

  lemma StepKeepsInv(s: State, c: Call)
    requires Shaped(s) && Inv(s)
    ensures Inv(Step(s, c).0)
  {
    if Known(c.pin) && c.IrqEnable? {
      var i := Line(c.pin);
      if c.enabled == 1 && Supported(s.slots[i].mode) {
        EnableKeepsVectors(s, i, PinIndex(c.pin) / 16);
      }
      if c.enabled == 0 {
        DisableKeepsVectors(s, i);
      }
    }
  }

  lemma EnableKeepsVectors(s: State, i: nat, port: int)
    requires Shaped(s) && SharedVectors(s) && i < LINES
    ensures SharedVectors(Enable(s, i, port))
  {
    var s' := Enable(s, i, port);
    forall v | IsExtiVector(v)
      ensures v in s'.vectors <==> exists k :: k in s'.enabled && Vector(k) == v
    {
      if v == Vector(i) {
        assert i in s'.enabled;
      } else if v in s.vectors {
        var k :| k in s.enabled && Vector(k) == v;
        assert k in s'.enabled;
      }
    }
  }

  lemma DisableKeepsVectors(s: State, i: nat)
    requires Shaped(s) && SharedVectors(s) && i < LINES
    ensures SharedVectors(Disable(s, i))
  {
    var s' := Disable(s, i);
    forall v | IsExtiVector(v)
      ensures v in s'.vectors <==> exists k :: k in s'.enabled && Vector(k) == v
    {
      if v != Vector(i) && v in s.vectors {
        var k :| k in s.enabled && Vector(k) == v;
        assert k in s'.enabled;
      }
    }
  }

  function Run(s: State, cs: seq<Call>): (s': State)
    requires Shaped(s)
    ensures Shaped(s')
    decreases |cs|
  {
    if cs == [] then s else Run(Step(s, cs[0]).0, cs[1..])
  }

  /** Static initialisation: every slot free, nothing enabled. */
  ghost predicate Fresh(s: State) {
    && |s.slots| == |s.source| == LINES
    && (forall i :: 0 <= i < LINES ==> s.slots[i] == FREE)
    && s.enabled == {}
    && forall v :: IsExtiVector(v) ==> v !in s.vectors
  }

  /** In every state reached by attach, detach, enable and disable calls, with any arguments. */
  lemma RunKeepsInv(s: State, cs: seq<Call>)
    requires Fresh(s)
    ensures Inv(Run(s, cs))
  {
    InvAlongRun(s, cs);
  }

  lemma {:induction false} InvAlongRun(s: State, cs: seq<Call>)
    requires Shaped(s) && Inv(s)
    ensures Inv(Run(s, cs))
    decreases |cs|
  {
    if cs != [] {
      StepKeepsInv(s, cs[0]);
      InvAlongRun(Step(s, cs[0]).0, cs[1..]);
    }
  }

  // ---------------------------------------------------------------- consequences

  /** Disabling one pin never silences another enabled line, on the same vector or elsewhere. */
  lemma DisableSparesOthers(s: State, pin: int, k: nat)
    requires Shaped(s) && Inv(s) && k in s.enabled && k != Line(pin)
    ensures var s' := Step(s, IrqEnable(pin, 0)).0;
            k in s'.enabled && Vector(k) in s'.vectors && k in s'.unmasked
  {
    StepKeepsInv(s, IrqEnable(pin, 0));
    VectorsAreExti(k);
  }

  lemma VectorsAreExti(k: nat)
    ensures IsExtiVector(Vector(k))
  {}

  /** For BindingKept: a call leaves every slot but its own line's alone, and an occupied slot changes only by a
      detach, which frees it whichever pin of the line owns it. */
  lemma OccupiedSlotKept(s: State, c: Call, i: nat)
    requires Shaped(s) && i < LINES && s.slots[i].pin != -1
    ensures var s' := Step(s, c).0;
            s'.slots[i] == if c.Detach? && Known(c.pin) && Line(c.pin) == i then FREE else s.slots[i]
  {}

  /** The global mask is left as it was found, except that enabling a line whose trigger mode is not
      one of the three returns with interrupts masked. */
  lemma CriticalSectionIff(s: State, c: Call)
    requires Shaped(s)
    ensures Step(s, c).0.masked == s.masked <==>
      !(!s.masked && c.IrqEnable? && c.enabled == 1 && Known(c.pin)
        && s.slots[Line(c.pin)].pin != -1 && !Supported(s.slots[Line(c.pin)].mode))
  {}

  // ---------------------------------------------------------------- dispatch

  /** A call of an attached handler, with the line that caused it. */
  datatype Served = Served(line: nat, hdr: int, args: int)

  /** `N32_GPIO_EXTI_IRQHandler` */
  function Serve(s: State, i: nat): (r: (State, seq<Served>))
    requires Shaped(s) && i < LINES
    ensures Shaped(r.0)
  {
    if i in s.pending && i in s.unmasked then
      (s.(pending := s.pending - {i}),
       if s.slots[i].hdr != 0 then [Served(i, s.slots[i].hdr, s.slots[i].args)] else [])
    else (s, [])
  }

  /** Lines lo, lo + 1, ..., hi - 1 in turn, as the handler of a shared vector serves them. */
  function ServeRange(s: State, lo: nat, hi: nat): (r: (State, seq<Served>))
    requires Shaped(s) && lo <= hi <= LINES
    ensures Shaped(r.0)
    decreases hi - lo
  {
    if lo == hi then (s, [])
    else
      var first := Serve(s, lo);
      var rest := ServeRange(first.0, lo + 1, hi);
      (rest.0, first.1 + rest.1)
  }

  /** The first and one past the last line of a vector. */
  function FirstLine(v: int): nat
    requires IsExtiVector(v)
  {
    if v == 23 then 5 else if v == 40 then 10 else v - 6
  }

  function EndLine(v: int): nat
    requires IsExtiVector(v)
  {
    if v == 23 then 10 else if v == 40 then 16 else v - 5
  }

  function ServeVector(s: State, v: int): (State, seq<Served>)
    requires Shaped(s) && IsExtiVector(v)
  {
    ServeRange(s, FirstLine(v), EndLine(v))
  }

  /** The lines of a vector are exactly those the map assigns to it. */
  lemma VectorLines(v: int, i: nat)
    requires IsExtiVector(v) && i < LINES
    ensures FirstLine(v) <= i < EndLine(v) <==> Vector(i) == v
    ensures Vector(i) == v <==> if v == 23 then 5 <= i <= 9 else if v == 40 then 10 <= i <= 15 else i == v - 6
  {}

  predicate Due(s: State, i: nat) {
    i in s.pending && i in s.unmasked
  }

  /** Every call is that of a due line's attached handler. */
  predicate Sound(s: State, calls: seq<Served>, lo: nat, hi: nat)
    requires Shaped(s) && hi <= LINES
  {
    forall j :: 0 <= j < |calls| ==>
      var i := calls[j].line;
      lo <= i < hi && Due(s, i) && calls[j] == Served(i, s.slots[i].hdr, s.slots[i].args)
  }

  predicate Ascending(calls: seq<Served>) {
    forall j, k :: 0 <= j < k < |calls| ==> calls[j].line < calls[k].line
  }

  predicate Called(calls: seq<Served>, i: nat) {
    exists j :: 0 <= j < |calls| && calls[j].line == i
  }

  /** Every due line with a handler is called. */
  predicate Complete(s: State, calls: seq<Served>, lo: nat, hi: nat)
    requires Shaped(s) && hi <= LINES
  {
    forall i :: lo <= i < hi && Due(s, i) && s.slots[i].hdr != 0 ==> Called(calls, i)
  }

  lemma {:induction false} RangeClearsDue(s: State, lo: nat, hi: nat)
    requires Shaped(s) && lo <= hi <= LINES
    ensures var s' := ServeRange(s, lo, hi).0;
            && s' == s.(pending := s'.pending)
            && forall i: nat :: i in s'.pending <==> i in s.pending && !(lo <= i < hi && i in s.unmasked)
    decreases hi - lo
  {
    if lo < hi {
      RangeClearsDue(Serve(s, lo).0, lo + 1, hi);
    }
  }

  lemma {:induction false} RangeServesDue(s: State, lo: nat, hi: nat)
    requires Shaped(s) && lo <= hi <= LINES
    ensures var calls := ServeRange(s, lo, hi).1;
            Sound(s, calls, lo, hi) && Ascending(calls) && Complete(s, calls, lo, hi)
    decreases hi - lo
  {
    if lo < hi {
      var first := Serve(s, lo);
      var rest := ServeRange(first.0, lo + 1, hi);
      RangeServesDue(first.0, lo + 1, hi);
      assert Sound(s, rest.1, lo + 1, hi) by { SoundTransfers(s, first.0, rest.1, lo + 1, hi); }
      CompleteTransfers(s, first.0, rest.1, lo + 1, hi);
      Prepend(s, first.1, rest.1, lo, hi);
    }
  }

  lemma SoundTransfers(s: State, s': State, calls: seq<Served>, lo: nat, hi: nat)
    requires Shaped(s) && Shaped(s') && hi <= LINES && Sound(s', calls, lo, hi)
    requires s'.slots == s.slots && s'.unmasked == s.unmasked && s'.pending <= s.pending
    ensures Sound(s, calls, lo, hi)
  {}

  lemma CompleteTransfers(s: State, s': State, calls: seq<Served>, lo: nat, hi: nat)
    requires Shaped(s) && Shaped(s') && hi <= LINES && Complete(s', calls, lo, hi)
    requires s'.slots == s.slots && s'.unmasked == s.unmasked
    requires forall i :: lo <= i < hi && i in s.pending ==> i in s'.pending
    ensures Complete(s, calls, lo, hi)
  {}

  lemma Prepend(s: State, first: seq<Served>, rest: seq<Served>, lo: nat, hi: nat)
    requires Shaped(s) && lo < hi <= LINES && first == Serve(s, lo).1
    requires Sound(s, rest, lo + 1, hi) && Ascending(rest) && Complete(s, rest, lo + 1, hi)
    ensures Sound(s, first + rest, lo, hi) && Ascending(first + rest) && Complete(s, first + rest, lo, hi)
  {
    var calls := first + rest;
    forall i | lo <= i < hi && Due(s, i) && s.slots[i].hdr != 0
      ensures Called(calls, i)
    {
      if i == lo {
        assert calls[0].line == i;
      } else {
        assert Called(rest, i);
        var j :| 0 <= j < |rest| && rest[j].line == i;
        assert calls[|first| + j].line == i;
      }
    }
  }

  /** A vector handler runs, in ascending order and once each, exactly the attached handlers of the
      pending unmasked lines the map assigns to it, and clears exactly those pending bits. */
  lemma DispatchExact(s: State, v: int)
    requires Shaped(s) && IsExtiVector(v)
    ensures var (s', calls) := ServeVector(s, v);
            && s' == s.(pending := s'.pending)
            && (forall i: nat :: i < LINES ==>
                  (i in s'.pending <==> i in s.pending && !(Vector(i) == v && i in s.unmasked)))
    ensures var calls := ServeVector(s, v).1;
            && Ascending(calls) && Sound(s, calls, 0, LINES)
            && (forall i: nat :: i < LINES && Vector(i) != v ==> !Called(calls, i))
            && (forall i: nat :: i < LINES && Vector(i) == v && Due(s, i) && s.slots[i].hdr != 0 ==> Called(calls, i))
  {
    RangeClearsDue(s, FirstLine(v), EndLine(v));
    RangeServesDue(s, FirstLine(v), EndLine(v));
    forall i: nat | i < LINES
      ensures FirstLine(v) <= i < EndLine(v) <==> Vector(i) == v
    {
      VectorLines(v, i);
    }
  }

  /** A rising or falling edge on the pad of that port and line. */
  datatype Edge = Edge(port: int, line: nat, rise: bool)

  /** The line is routed from that port and set to trigger on that edge. */
  predicate Detected(s: State, ev: Edge)
    requires Shaped(s) && ev.line < LINES
  {
    s.source[ev.line] == ev.port && if ev.rise then ev.line in s.rising else ev.line in s.falling
  }

  /** An edge on a pad: if it is detected its line becomes pending, and the core enters the vector's handler if the
      NVIC lets it and interrupts are not disabled globally. */
  function Dispatched(s: State, ev: Edge): seq<Served>
    requires Shaped(s) && ev.line < LINES
  {
    var latched := if Detected(s, ev) then s.(pending := s.pending + {ev.line}) else s;
    if Vector(ev.line) in s.vectors && !s.masked then ServeVector(latched, Vector(ev.line)).1 else []
  }

  /** An edge on an unmasked line with a handler runs that handler, once, exactly when the line listens to that port
      and that edge, or is pending already, its vector is enabled and interrupts are not disabled globally. */
  lemma DispatchedIff(s: State, ev: Edge)
    requires Shaped(s) && ev.line < LINES && ev.line in s.unmasked && s.slots[ev.line].hdr != 0
    ensures var i := ev.line;
            Called(Dispatched(s, ev), i) <==>
              && Vector(i) in s.vectors && !s.masked
              && (i in s.pending || (s.source[i] == ev.port && if ev.rise then i in s.rising else i in s.falling))
    ensures forall j :: 0 <= j < |Dispatched(s, ev)| && Dispatched(s, ev)[j].line == ev.line
              ==> Dispatched(s, ev)[j] == Served(ev.line, s.slots[ev.line].hdr, s.slots[ev.line].args)
    ensures Ascending(Dispatched(s, ev))
  {
    hide ServeVector;
    VectorsAreExti(ev.line);
    DispatchExact(if Detected(s, ev) then s.(pending := s.pending + {ev.line}) else s, Vector(ev.line));
  }

  /** Disabling a pin stops its own handler only if no other line of the vector is enabled: the line
      stays unmasked and keeps its port and edges, so while a sibling keeps the vector enabled, and interrupts are on,
      the edges it was enabled for still run the handler. */
  lemma DisabledLineStillDispatchedIff(s: State, pin: int, ev: Edge)
    requires Shaped(s) && Inv(s) && Known(pin) && Line(pin) in s.enabled && ev.line == Line(pin)
    ensures var i := Line(pin);
            var s' := Step(s, IrqEnable(pin, 0)).0;
            && i in s'.unmasked && s'.slots[i] == s.slots[i]
            && (Vector(i) in s'.vectors <==> exists k :: k in s.enabled && k != i && Vector(k) == Vector(i))
            && (s.slots[i].hdr != 0 ==>
                  (Called(Dispatched(s', ev), i)
                   <==> !s.masked && (i in s.pending || Detected(s, ev))
                        && exists k :: k in s.enabled && k != i && Vector(k) == Vector(i)))
  {
    var i := Line(pin);
    var s' := Step(s, IrqEnable(pin, 0)).0;
    DisabledLine(s, pin);
    DisableIsExact(s, pin);
    assert Detected(s', ev) == Detected(s, ev);
    hide Step, Dispatched, Called;
    if s.slots[i].hdr != 0 {
      DispatchedIff(s', ev);
    }
  }

  lemma DisabledLine(s: State, pin: int)
    requires Shaped(s) && Inv(s) && Known(pin) && Line(pin) in s.enabled
    ensures var i := Line(pin);
            var s' := Step(s, IrqEnable(pin, 0)).0;
            && i in s'.unmasked && s'.slots[i] == s.slots[i]
            && (Vector(i) in s'.vectors <==> exists k :: k in s.enabled && k != i && Vector(k) == Vector(i))
  {
    var i := Line(pin);
    StepKeepsInv(s, IrqEnable(pin, 0));
    VectorsAreExti(i);
    var s' := Step(s, IrqEnable(pin, 0)).0;
    if k :| k in s.enabled && k != i && Vector(k) == Vector(i) {
      assert k in s'.enabled;
    }
  }

  // ---------------------------------------------------------------- from attach to delivery

  /** None of the calls detaches line i, respectively disables it. */
  predicate NoDetach(cs: seq<Call>, i: nat) {
    forall k :: 0 <= k < |cs| ==> !(cs[k].Detach? && Known(cs[k].pin) && Line(cs[k].pin) == i)
  }

  predicate NoDisable(cs: seq<Call>, i: nat) {
    forall k :: 0 <= k < |cs| ==> !(cs[k].IrqEnable? && cs[k].enabled == 0 && Known(cs[k].pin) && Line(cs[k].pin) == i)
  }

  /** For AttachedAndEnabledIsDelivered: an attach succeeds exactly when the line is free or already holds this very binding, and then holds it. */
  lemma AttachSucceedsIff(s: State, pin: int, mode: int, hdr: int, args: int)
    requires Shaped(s)
    ensures var (s', rc) := Step(s, Attach(pin, mode, hdr, args));
            var wanted := Slot(pin, mode, hdr, args);
            && (rc == Eok <==> Known(pin) && (s.slots[Line(pin)].pin == -1 || s.slots[Line(pin)] == wanted))
            && (rc == Ebusy <==> Known(pin) && s.slots[Line(pin)].pin != -1 && s.slots[Line(pin)] != wanted)
            && (rc == Eok ==> s'.slots == s.slots[Line(pin) := wanted])
            && (rc != Eok ==> s' == s)
  {}

  lemma {:induction false} BindingKept(s: State, cs: seq<Call>, i: nat)
    requires Shaped(s) && i < LINES && s.slots[i].pin != -1 && NoDetach(cs, i)
    ensures Run(s, cs).slots[i] == s.slots[i]
    decreases |cs|
  {
    hide Step, Known, Line;
    if cs != [] {
      OccupiedSlotKept(s, cs[0], i);
      assert NoDetach(cs[1..], i) by { TailNoDetach(cs, i); }
      BindingKept(Step(s, cs[0]).0, cs[1..], i);
    }
  }

  lemma TailNoDetach(cs: seq<Call>, i: nat)
    requires cs != []
    ensures NoDetach(cs, i) ==> NoDetach(cs[1..], i)
    ensures NoDisable(cs, i) ==> NoDisable(cs[1..], i)
  {}

  lemma EnabledStepKept(s: State, c: Call, i: nat)
    requires Shaped(s) && i in s.enabled
    requires !(c.IrqEnable? && c.enabled == 0 && Known(c.pin) && Line(c.pin) == i)
    ensures i in Step(s, c).0.enabled
  {}

  lemma {:induction false} EnabledKept(s: State, cs: seq<Call>, i: nat)
    requires Shaped(s) && i in s.enabled && NoDisable(cs, i)
    ensures i in Run(s, cs).enabled
    decreases |cs|
  {
    hide Step, Known, Line;
    if cs != [] {
      EnabledStepKept(s, cs[0], i);
      TailNoDetach(cs, i);
      EnabledKept(Step(s, cs[0]).0, cs[1..], i);
    }
  }

  /** Some call of the run enabled a line with an unsupported trigger mode, and so never left its critical section. */
  predicate Failed(s: State, cs: seq<Call>)
    requires Shaped(s)
    decreases |cs|
  {
    cs != [] && (Step(s, cs[0]).1 == Error || Failed(Step(s, cs[0]).0, cs[1..]))
  }

  lemma StepMasks(s: State, c: Call)
    requires Shaped(s)
    ensures Step(s, c).0.masked <==> s.masked || Step(s, c).1 == Error
  {}

  /** Interrupts are disabled after a run exactly when they were before it or some call of it failed that way: no
      later call turns them on again. */
  lemma {:induction false} MaskedAfterIff(s: State, cs: seq<Call>)
    requires Shaped(s)
    ensures Run(s, cs).masked <==> s.masked || Failed(s, cs)
    decreases |cs|
  {
    hide Step;
    if cs != [] {
      StepMasks(s, cs[0]);
      MaskedAfterIff(Step(s, cs[0]).0, cs[1..]);
    }
  }

  /** Line i has a binding, listens for the edges its mode asks for and no other, and nothing is pending. */
  predicate Listens(s: State, i: nat)
    requires Shaped(s) && i < LINES
  {
    && s.slots[i].pin != -1 && Supported(s.slots[i].mode) && i !in s.pending
    && (i in s.rising <==> s.slots[i].mode != FALLING) && (i in s.falling <==> s.slots[i].mode != RISING)
  }

  /** The port of the last pin of line i that the calls enable, `port` if there is none. */
  function Routed(cs: seq<Call>, i: nat, port: int): int
    decreases |cs|
  {
    if cs == [] then port else Routed(cs[1..], i, RoutedBy(cs[0], i, port))
  }

  function RoutedBy(c: Call, i: nat, port: int): int {
    if c.IrqEnable? && c.enabled == 1 && Known(c.pin) && Line(c.pin) == i then c.pin % 0x100 / 16 else port
  }

  lemma ListensStep(s: State, c: Call, i: nat)
    requires Shaped(s) && i < LINES && Listens(s, i) && !(c.Detach? && Known(c.pin) && Line(c.pin) == i)
    ensures Listens(Step(s, c).0, i)
    ensures Step(s, c).0.source[i] == RoutedBy(c, i, s.source[i])
  {}

  /** A line keeps the edges of its binding until it is detached, and follows the port of the pin last enabled. */
  lemma {:induction false} EdgesKept(s: State, cs: seq<Call>, i: nat)
    requires Shaped(s) && i < LINES && Listens(s, i) && NoDetach(cs, i)
    ensures Listens(Run(s, cs), i)
    ensures Run(s, cs).source[i] == Routed(cs, i, s.source[i])
    decreases |cs|
  {
    hide Step, Known, Line, Listens, RoutedBy;
    if cs != [] {
      ListensStep(s, cs[0], i);
      assert NoDetach(cs[1..], i) by { TailNoDetach(cs, i); }
      EdgesKept(Step(s, cs[0]).0, cs[1..], i);
    }
  }

  /** The manager as a whole: once a handler has been attached and its pin enabled, then after any further calls
      that neither detach nor disable that line, whatever is done to every other line, an edge runs that handler, with
      its arguments, exactly when the mode asks for that edge, it is on the port of the pin of the line that was
      enabled last, interrupts were on, and none of those calls enabled some line with an unsupported trigger mode. */
  lemma AttachedAndEnabledIsDelivered(s: State, pin: int, mode: int, hdr: int, args: int, cs: seq<Call>, ev: Edge)
    requires Shaped(s) && Inv(s)
    requires Step(s, Attach(pin, mode, hdr, args)).1 == Eok
    requires Step(Step(s, Attach(pin, mode, hdr, args)).0, IrqEnable(pin, 1)).1 == Eok
    requires NoDetach(cs, Line(pin)) && NoDisable(cs, Line(pin)) && ev.line == Line(pin) && hdr != 0
    ensures var i := Line(pin);
            var e := Step(Step(s, Attach(pin, mode, hdr, args)).0, IrqEnable(pin, 1)).0;
            var t := Run(e, cs);
            && Vector(i) in t.vectors && i in t.unmasked && t.slots[i] == Slot(pin, mode, hdr, args)
            && (Called(Dispatched(t, ev), i) <==>
                  && ev.port == Routed(cs, i, pin % 0x100 / 16)
                  && (if ev.rise then mode == RISING || mode == RISING_FALLING
                      else mode == FALLING || mode == RISING_FALLING)
                  && !s.masked && !Failed(e, cs))
            && (Called(Dispatched(t, ev), i) <==> Served(i, hdr, args) in Dispatched(t, ev))
  {
    var i := Line(pin);
    var a := Step(s, Attach(pin, mode, hdr, args)).0;
    var e := Step(a, IrqEnable(pin, 1)).0;
    var t := Run(e, cs);
    FirstTwoCalls(s, pin, mode, hdr, args);
    StepKeepsInv(s, Attach(pin, mode, hdr, args));
    StepKeepsInv(a, IrqEnable(pin, 1));
    StepMasks(s, Attach(pin, mode, hdr, args));
    StepMasks(a, IrqEnable(pin, 1));
    MaskedAfterIff(e, cs);
    hide Step, Known, Dispatched;
    BindingKept(e, cs, i);
    EnabledKept(e, cs, i);
    EdgesKept(e, cs, i);
    InvAlongRun(e, cs);
    VectorsAreExti(i);
    DispatchedIff(t, ev);
    CalledMeansServed(Dispatched(t, ev), Served(i, hdr, args));
  }

  lemma CalledMeansServed(calls: seq<Served>, it: Served)
    requires forall j :: 0 <= j < |calls| && calls[j].line == it.line ==> calls[j] == it
    ensures Called(calls, it.line) <==> it in calls
  {
    if it in calls {
      var j :| 0 <= j < |calls| && calls[j] == it;
      assert calls[j].line == it.line;
    }
  }

  lemma FirstTwoCalls(s: State, pin: int, mode: int, hdr: int, args: int)
    requires Shaped(s)
    requires Step(s, Attach(pin, mode, hdr, args)).1 == Eok
    requires Step(Step(s, Attach(pin, mode, hdr, args)).0, IrqEnable(pin, 1)).1 == Eok
    ensures var i := Line(pin);
            var e := Step(Step(s, Attach(pin, mode, hdr, args)).0, IrqEnable(pin, 1)).0;
            && i in e.enabled && e.slots[i] == Slot(pin, mode, hdr, args) && e.slots[i].pin != -1
            && Listens(e, i) && e.source[i] == pin % 0x100 / 16
  {}

  /** Such a call on one line silences every other: with pin 0 attached and enabled, attaching pin 17 with mode 3 and
      enabling it leaves every edge on line 0 without a handler call, though nothing was done to that line. */
  lemma OneBadModeSilencesAll(s: State, hdr: int, args: int)
    requires Fresh(s) && !s.masked && hdr != 0
    ensures var live := Run(s, [Attach(0, RISING, hdr, args), IrqEnable(0, 1)]);
            var mute := Run(live, [Attach(17, 3, hdr, args), IrqEnable(17, 1)]);
            && Called(Dispatched(live, Edge(0, 0, true)), 0)
            && 0 in mute.enabled && Vector(0) in mute.vectors && mute.slots[0] == live.slots[0]
            && forall port, rise :: Dispatched(mute, Edge(port, 0, rise)) == []
  {
    var a, b := Attach(0, RISING, hdr, args), IrqEnable(0, 1);
    var c, d := Attach(17, 3, hdr, args), IrqEnable(17, 1);
    var live := Step(Step(s, a).0, b).0;
    TwoCalls(s, a, b);
    TwoCalls(live, c, d);
    DispatchedIff(live, Edge(0, 0, true));
    assert Step(Step(live, c).0, d).1 == Error;
  }

  lemma OneCall(s: State, x: Call)
    requires Shaped(s)
    ensures Run(s, [x]) == Step(s, x).0
  {
    hide Step, Shaped;
  }

  lemma TwoCalls(s: State, x: Call, y: Call)
    requires Shaped(s)
    ensures Run(s, [x, y]) == Step(Step(s, x).0, y).0
  {
    hide Step, Shaped;
    OneCall(Step(s, x).0, y);
    assert [x, y][1..] == [y];
  }
}
