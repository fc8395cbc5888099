/** The priority codec: a priority number of `prioBits` bits is split into a preemption part and a
    sub-priority at the point the group selects (Armv7-M ARM, section B1.5.4). */
module NvicPriority {
  import opened BitWords

  /** `__NVIC_PRIO_BITS`: between one and eight bits are implemented. */
  predicate PrioBits(bits: word) {
    1 <= bits <= 8
  }

  function Group(group: word): word {
    group & 7
  }

  function PreemptBits(group: word, bits: word): (n: word)
    requires PrioBits(bits)
    ensures n <= 8
  {
    if 7 - Group(group) > bits then bits else 7 - Group(group)
  }

  /** The subtraction below 7 wraps and the addition wraps back. */
  function SubBits(group: word, bits: word): (n: word)
    requires PrioBits(bits)
    ensures n <= 8
  {
    if Group(group) + bits < 7 then 0 else (Group(group) - 7) + bits
  }

  function LowMask(n: word): word
    requires n <= 8
  {
    ((1 as word) << n) - 1
  }

  function ShiftUp(x: word, n: word): word
    requires n <= 8
  {
    x << n
  }

  function ShiftDown(x: word, n: word): word
    requires n <= 8
  {
    x >> n
  }

  lemma Widths(group: word, bits: word)
    requires PrioBits(bits)
    ensures PreemptBits(group, bits) + SubBits(group, bits) == bits
    ensures PreemptBits(group, bits) <= bits && SubBits(group, bits) <= bits
    ensures Group(group) <= 7 && bits <= 8
  {}

  /** Two fields of n and s bits, the first above the second. */
  function Join(p: word, q: word, n: word, s: word): word
    requires n <= 8 && s <= 8
  {
    With(ShiftUp(Masked(p, LowMask(n)), s), Masked(q, LowMask(s)))
  }

  function High(x: word, n: word, s: word): word
    requires n <= 8 && s <= 8
  {
    Masked(ShiftDown(x, s), LowMask(n))
  }

  function Encode(group: word, preempt: word, sub: word, bits: word): word
    requires PrioBits(bits)
  {
    Join(preempt, sub, PreemptBits(group, bits), SubBits(group, bits))
  }

  lemma JoinHigh(p: word, q: word, n: word, s: word)
    requires n <= 8 && s <= 8
    ensures High(Join(p, q, n, s), n, s) == Masked(p, LowMask(n))
  {}

  lemma JoinLow(p: word, q: word, n: word, s: word)
    requires n <= 8 && s <= 8
    ensures Masked(Join(p, q, n, s), LowMask(s)) == Masked(q, LowMask(s))
  {}

  lemma JoinSmall(p: word, q: word, n: word, s: word)
    requires n <= 8 && s <= 8 && n + s <= 8
    ensures Join(p, q, n, s) <= LowMask(n + s)
  {
    if s == 0 {} else if s == 1 {} else if s == 2 {} else if s == 3 {} else if s == 4 {} else if s == 5 {}
    else if s == 6 {} else if s == 7 {} else {}
  }

  lemma JoinFits(p: word, q: word, n: word, s: word, bits: word)
    requires n <= 8 && s <= 8 && bits <= 8 && n + s == bits
    ensures Join(p, q, n, s) <= LowMask(bits)
  {
    hide Join, LowMask;
    JoinSmall(p, q, n, s);
  }

  lemma SplitJoin(x: word, n: word, s: word)
    requires n <= 8 && s <= 8 && n + s <= 8 && x <= LowMask(n + s)
    ensures Join(High(x, n, s), x, n, s) == x
  {}

  lemma SplitJoinFits(x: word, n: word, s: word, bits: word)
    requires n <= 8 && s <= 8 && bits <= 8 && n + s == bits && x <= LowMask(bits)
    ensures Join(High(x, n, s), x, n, s) == x
  {
    hide Join, High, LowMask;
    SplitJoin(x, n, s);
  }

  predicate Less(x: word, y: word) {
    x < y
  }

  /** A reduced field: at most eight bits, respectively at most s. */
  predicate InByte(x: word) {
    x <= 255
  }

  predicate InBits(x: word, s: word)
    requires s <= 8
  {
    x <= LowMask(s)
  }

  lemma LessOneWay(x: word, y: word)
    ensures Less(x, y) ==> !Less(y, x)
  {}

  lemma NotLessItself(x: word)
    ensures !Less(x, x)
  {}

  lemma LessOrEqual(x: word, y: word)
    requires InByte(x) && InByte(y) && x != y
    ensures Less(x, y) || Less(y, x)
  {}

  lemma FirstPart(a: word, b: word, c: word, d: word, s: word)
    requires s <= 8 && a <= 255 && c <= 255 && a < c
    requires b <= LowMask(s) && d <= LowMask(s)
    ensures With(ShiftUp(a, s), b) < With(ShiftUp(c, s), d)
  {
    if s == 0 {} else if s == 1 {} else if s == 2 {} else if s == 3 {} else if s == 4 {} else if s == 5 {}
    else if s == 6 {} else if s == 7 {} else {}
  }

  lemma FirstDecides(a: word, b: word, c: word, d: word, s: word)
    requires s <= 8 && InByte(a) && InByte(c) && Less(a, c) && InBits(b, s) && InBits(d, s)
    ensures Less(With(ShiftUp(a, s), b), With(ShiftUp(c, s), d))
  {
    hide With, ShiftUp, LowMask;
    FirstPart(a, b, c, d, s);
  }

  lemma SecondPart(a: word, b: word, d: word, s: word)
    requires s <= 8
    ensures a <= 255 && b <= LowMask(s) && d <= LowMask(s)
            ==> (Less(With(ShiftUp(a, s), b), With(ShiftUp(a, s), d)) <==> Less(b, d))
  {}

  lemma SecondDecides(a: word, b: word, d: word, s: word)
    requires s <= 8 && InByte(a) && InBits(b, s) && InBits(d, s)
    ensures Less(With(ShiftUp(a, s), b), With(ShiftUp(a, s), d)) <==> Less(b, d)
  {
    hide With, ShiftUp, LowMask, Less;
    SecondPart(a, b, d, s);
  }

  lemma MaskedSmall(x: word, n: word)
    requires n <= 8
    ensures InBits(Masked(x, LowMask(n)), n)
  {}

  lemma MaskedByte(x: word, n: word)
    requires n <= 8
    ensures InByte(Masked(x, LowMask(n)))
  {}

  lemma FieldOrder(a: word, b: word, c: word, d: word, s: word)
    requires s <= 8 && InByte(a) && InByte(c) && InBits(b, s) && InBits(d, s)
    ensures Less(With(ShiftUp(a, s), b), With(ShiftUp(c, s), d)) <==> Less(a, c) || (a == c && Less(b, d))
  {
    hide With, ShiftUp, LowMask, Less, InByte, InBits;
    LessOneWay(a, c);
    LessOneWay(With(ShiftUp(a, s), b), With(ShiftUp(c, s), d));
    if a == c {
      NotLessItself(a);
      SecondDecides(a, b, d, s);
    } else {
      LessOrEqual(a, c);
      if Less(a, c) {
        FirstDecides(a, b, c, d, s);
      } else {
        FirstDecides(c, d, a, b, s);
      }
    }
  }

  /** Encoded order is lexicographic order on the two fields. */
  lemma JoinOrder(p: word, q: word, p2: word, q2: word, n: word, s: word)
    requires n <= 8 && s <= 8
    ensures Less(Join(p, q, n, s), Join(p2, q2, n, s))
            <==> Less(Masked(p, LowMask(n)), Masked(p2, LowMask(n)))
                 || (Masked(p, LowMask(n)) == Masked(p2, LowMask(n))
                     && Less(Masked(q, LowMask(s)), Masked(q2, LowMask(s))))
  {
    hide Masked, With, ShiftUp, LowMask, Less, InByte, InBits;
    MaskedByte(p, n);
    MaskedByte(p2, n);
    MaskedSmall(q, s);
    MaskedSmall(q2, s);
    FieldOrder(Masked(p, LowMask(n)), Masked(q, LowMask(s)), Masked(p2, LowMask(n)), Masked(q2, LowMask(s)), s);
  }

  // ---------------------------------------------------------------- the two routines

  /** `NVIC_DecodePriority`, with its two out-pointers. */
  method DecodePriority(priority: word, group: word, bits: word) returns (preempt: word, sub: word)
    requires PrioBits(bits)
    ensures preempt == Preempt(priority, group, bits) && sub == Sub(priority, group, bits)
    ensures priority <= LowMask(bits) ==> Encode(group, preempt, sub, bits) == priority
  {
    hide High, Masked, LowMask, PreemptBits, SubBits, Join;
    Widths(group, bits);
    preempt := High(priority, PreemptBits(group, bits), SubBits(group, bits));
    sub := Masked(priority, LowMask(SubBits(group, bits)));
    EncodeAfterDecode(group, priority, bits);
  }

  function Preempt(priority: word, group: word, bits: word): word
    requires PrioBits(bits)
  {
    High(priority, PreemptBits(group, bits), SubBits(group, bits))
  }

  function Sub(priority: word, group: word, bits: word): word
    requires PrioBits(bits)
  {
    Masked(priority, LowMask(SubBits(group, bits)))
  }

  /** Decoding an encoded pair gives both fields back, reduced to their widths, and the code fits the bits there are. */
  lemma DecodeAfterEncode(group: word, preempt: word, sub: word, bits: word)
    requires PrioBits(bits)
    ensures var code := Encode(group, preempt, sub, bits);
            && Preempt(code, group, bits) == Masked(preempt, LowMask(PreemptBits(group, bits)))
            && Sub(code, group, bits) == Masked(sub, LowMask(SubBits(group, bits)))
            && code <= LowMask(bits)
  {
    hide High, Masked, LowMask, PreemptBits, SubBits, Join, PrioBits;
    Widths(group, bits);
    var n, s := PreemptBits(group, bits), SubBits(group, bits);
    JoinHigh(preempt, sub, n, s);
    JoinLow(preempt, sub, n, s);
    JoinFits(preempt, sub, n, s, bits);
  }

  /** Every priority below 2^bits comes back from its two parts. */
  lemma EncodeAfterDecode(group: word, priority: word, bits: word)
    requires PrioBits(bits)
    ensures priority <= LowMask(bits)
            ==> Encode(group, Preempt(priority, group, bits), Sub(priority, group, bits), bits) == priority
  {
    hide High, Masked, LowMask, PreemptBits, SubBits, Join, PrioBits;
    Widths(group, bits);
    var n, s := PreemptBits(group, bits), SubBits(group, bits);
    if priority <= LowMask(bits) {
      SplitJoinFits(priority, n, s, bits);
    }
    JoinReduces(High(priority, n, s), priority, n, s);
  }

  /** A field that is already reduced may be passed instead of the number it came from. */
  lemma JoinReduces(p: word, x: word, n: word, s: word)
    requires n <= 8 && s <= 8
    ensures Join(p, Masked(x, LowMask(s)), n, s) == Join(p, x, n, s)
  {}

  /** The order the core arbitrates by: preemption first, sub-priority only between equals. */
  lemma OrderIsLexicographic(group: word, p: word, q: word, p2: word, q2: word, bits: word)
    requires PrioBits(bits)
    ensures var m := LowMask(PreemptBits(group, bits));
            var k := LowMask(SubBits(group, bits));
            Less(Encode(group, p, q, bits), Encode(group, p2, q2, bits))
            <==> Less(Masked(p, m), Masked(p2, m)) || (Masked(p, m) == Masked(p2, m) && Less(Masked(q, k), Masked(q2, k)))
  {
    hide Masked, LowMask, PreemptBits, SubBits, Join, Less;
    JoinOrder(p, q, p2, q2, PreemptBits(group, bits), SubBits(group, bits));
  }

  // ---------------------------------------------------------------- the priority registers

  /** `NVIC->IP[n] = (uint8_t)((priority << (8 - bits)) & 0xFF)` */
  function Stored(priority: word, bits: word): word
    requires PrioBits(bits)
  {
    Masked(ShiftUp(priority, 8 - bits), 0xFF)
  }

  function Read(cell: word, bits: word): word
    requires PrioBits(bits)
  {
    ShiftDown(cell, 8 - bits)
  }

  /** What is read back is the priority reduced to the implemented bits. */
  lemma StoredReadsBack(priority: word, bits: word)
    requires PrioBits(bits)
    ensures Stored(priority, bits) <= 0xFF
    ensures Read(Stored(priority, bits), bits) == Masked(priority, LowMask(bits))
  {}

  /** What a group means on the priority byte: its upper 7 - group bits preempt, as far as they are implemented, and
      the group + 1 bits below them order equals. */
  lemma GroupSplitsTheByte(x: word, group: word, bits: word)
    requires PrioBits(bits) && group <= 7 && x <= LowMask(bits)
    ensures group + bits >= 7 ==> Preempt(x, group, bits) == Stored(x, bits) >> (group + 1)
    ensures group + bits < 7 ==> Preempt(x, group, bits) == x
  {}

  lemma GroupSplitsTheByteBelow(x: word, group: word, bits: word)
    requires PrioBits(bits) && group <= 7 && x <= LowMask(bits)
    ensures Sub(x, group, bits) << (8 - bits) == Stored(x, bits) & (((1 as word) << (group + 1)) - 1)
  {}

  /** Only the low three bits of the group count. */
  lemma GroupIsThreeBits(group: word, preempt: word, sub: word, bits: word)
    requires PrioBits(bits)
    ensures Encode(group, preempt, sub, bits) == Encode(group & 7, preempt, sub, bits)
  {
    assert Group(group) == Group(group & 7);
    hide Group;
  }

  lemma MaskedWhole(x: word, bits: word)
    requires PrioBits(bits) && x <= LowMask(bits)
    ensures Masked(x, LowMask(bits)) == x
  {}

  /** Encode, set, get and decode in sequence lose only what the widths cut off. */
  lemma ThroughTheRegister(group: word, preempt: word, sub: word, bits: word)
    requires PrioBits(bits)
    ensures var back := Read(Stored(Encode(group, preempt, sub, bits), bits), bits);
            && Preempt(back, group, bits) == Masked(preempt, LowMask(PreemptBits(group, bits)))
            && Sub(back, group, bits) == Masked(sub, LowMask(SubBits(group, bits)))
  {
    hide Masked, LowMask, PreemptBits, SubBits, Join, High, Stored, Read, Encode, Preempt, Sub, PrioBits;
    var code := Encode(group, preempt, sub, bits);
    DecodeAfterEncode(group, preempt, sub, bits);
    StoredReadsBack(code, bits);
    MaskedWhole(code, bits);
  }
}
