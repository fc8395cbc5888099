/** The three bit layouts of the CAN driver: transmit mailbox, receive FIFO slot, message.

    Facts about bits are proved word by word; the lemmas that put words together hide the word
    functions, so that no proof mixes bits with data structures. */
module CanFrame {
  import opened BitWords

  type byte = bv8

  /** `struct rt_can_msg`; `id` is a 29-bit field and `ide`, `rtr` are one-bit fields. */
  datatype Message = Message(id: bv29, ide: bv1, rtr: bv1, len: byte, data: seq<byte>)

  const STDID: bv1 := 0
  const EXTID: bv1 := 1
  const DTR: bv1 := 0
  const RTR: bv1 := 1

  const IDE_BIT: word := 0x4
  const RTR_BIT: word := 0x2
  const TXRQ: word := 0x1

  /** What `RT_ASSERT` demands of a message handed to the driver. */
  predicate Valid(m: Message) {
    && |m.data| == 8
    && StandardFits(m.id, m.ide)
  }

  predicate StandardFits(id: bv29, ide: bv1) {
    ide == STDID ==> id <= 0x7FF
  }

  /** One of the three transmit mailboxes. */
  datatype TxBox = TxBox(tmi: word, tmdt: word, tmdl: word, tmdh: word)

  /** The output slot of a receive FIFO. */
  datatype RxBox = RxBox(rmi: word, rmdt: word, rmdl: word, rmdh: word)

  // ---------------------------------------------------------------- sending

  /** Identifiers sit at the top of the word: 11 bits from bit 21, or 29 bits from bit 3. */
  function ShiftId(id: word, ide: bv1): word {
    if ide == STDID then id << 21 else id << 3
  }

  function KindBits(ide: bv1, rtr: bv1): word {
    ((ide as word) << 2) | ((rtr as word) << 1)
  }

  /** The identifier word of a frame, as both mailboxes lay it out. */
  function FrameWord(id: word, ide: bv1, rtr: bv1): word {
    With(ShiftId(id, ide), KindBits(ide, rtr))
  }

  /** The expressions `can_sendmsg_rtmsg` ORs into the mailbox. */
  function SentBits(id: word, ide: bv1, rtr: bv1): word {
    var rtrBits: word := if rtr == DTR then 0 else RTR_BIT;
    if ide == STDID then (id << 21) | rtrBits else (id << 3) | IDE_BIT | rtrBits
  }

  lemma SentBitsAreFrameWord(id: word, ide: bv1, rtr: bv1)
    ensures SentBits(id, ide, rtr) == FrameWord(id, ide, rtr)
  {}

  function PackBytes(b0: byte, b1: byte, b2: byte, b3: byte): word {
    ((b3 as word) << 24) | ((b2 as word) << 16) | ((b1 as word) << 8) | (b0 as word)
  }

  /** The words `can_sendmsg_rtmsg` leaves, from the words it found. */
  function IdWord(tmi: word, id: bv29, ide: bv1, rtr: bv1): word {
    With(Masked(tmi, TXRQ), FrameWord(id as word, ide, rtr))
  }

  function RequestWord(tmi: word): word {
    tmi | TXRQ
  }

  function UpperLength(tmdt: word): word {
    tmdt & 0xFFFF_FFF0
  }

  function AddLength(tmdt: word, len: byte): word {
    tmdt | ((len & 0xF) as word)
  }

  function LengthWord(tmdt: word, len: byte): word {
    AddLength(UpperLength(tmdt), len)
  }

  function LowData(m: Message): word
    requires |m.data| == 8
  {
    PackBytes(m.data[0], m.data[1], m.data[2], m.data[3])
  }

  function HighData(m: Message): word
    requires |m.data| == 8
  {
    PackBytes(m.data[4], m.data[5], m.data[6], m.data[7])
  }

  function Filled(b: TxBox, m: Message): TxBox
    requires |m.data| == 8
  {
    TxBox(RequestWord(IdWord(b.tmi, m.id, m.ide, m.rtr)), LengthWord(b.tmdt, m.len), LowData(m), HighData(m))
  }

  // ---------------------------------------------------------------- receiving

  function IdeOf(rmi: word): bv1 {
    if rmi & IDE_BIT == 0 then STDID else EXTID
  }

  function IdOf(rmi: word): bv29 {
    if IdeOf(rmi) == STDID then ((rmi >> 21) & 0x7FF) as bv29 else ((rmi >> 3) & 0x1FFF_FFFF) as bv29
  }

  function RtrOf(rmi: word): bv1 {
    if rmi & RTR_BIT == 0 then DTR else RTR
  }

  function LenOf(rmdt: word): byte {
    (rmdt & 0xF) as byte
  }

  function MatchIndexOf(rmdt: word): byte {
    ((rmdt >> 8) & 0xFF) as byte
  }

  function ByteOf(w: word, shift: bv6): byte
    requires shift <= 24
  {
    ((w >> shift) & 0xFF) as byte
  }

  function DataOf(rmdl: word, rmdh: word): seq<byte> {
    [ByteOf(rmdl, 0), ByteOf(rmdl, 8), ByteOf(rmdl, 16), ByteOf(rmdl, 24),
     ByteOf(rmdh, 0), ByteOf(rmdh, 8), ByteOf(rmdh, 16), ByteOf(rmdh, 24)]
  }

  /** The fields `can_recvmsg_rtmsg` extracts from a FIFO slot. */
  function Decode(b: RxBox): Message {
    Message(IdOf(b.rmi), IdeOf(b.rmi), RtrOf(b.rmi), LenOf(b.rmdt), DataOf(b.rmdl, b.rmdh))
  }

  /** `(FMI + 1) >> 1`, stored in the signed 8-bit field `hdr_index`. */
  function HdrIndex(fmi: byte): int {
    var h := ((fmi as int) + 1) / 2;
    if h >= 0x80 then h - 0x100 else h
  }

  // ---------------------------------------------------------------- the bus

  /** What a message becomes on the bus: only the low four bits of its length are sent. */
  function OnBus(m: Message): Message {
    m.(len := m.len & 0xF)
  }

  function WireId(tmi: word): word {
    tmi & !TXRQ
  }

  function WireLength(tmdt: word, fmi: byte): word {
    (tmdt & 0xF) | ((fmi as word) << 8)
  }

  /** The frame a transmit mailbox holds, seen through the receiver's layout: the transmit request
      bit and the upper bits of the length word are not part of it; `fmi` is the filter match index
      the receiver's hardware adds. */
  function Received(b: TxBox, fmi: byte): RxBox {
    RxBox(WireId(b.tmi), WireLength(b.tmdt, fmi), b.tmdl, b.tmdh)
  }

  // ---------------------------------------------------------------- round trip, word by word

  lemma IdentifierRoundTrip(tmi: word, id: bv29, ide: bv1, rtr: bv1)
    requires StandardFits(id, ide)
    ensures var rmi := WireId(RequestWord(IdWord(tmi, id, ide, rtr)));
            rmi == FrameWord(id as word, ide, rtr) && IdOf(rmi) == id && IdeOf(rmi) == ide && RtrOf(rmi) == rtr
  {}

  lemma LengthRoundTrip(tmdt: word, len: byte, fmi: byte)
    ensures LenOf(WireLength(LengthWord(tmdt, len), fmi)) == len & 0xF
    ensures MatchIndexOf(WireLength(LengthWord(tmdt, len), fmi)) == fmi
    ensures UpperLength(LengthWord(tmdt, len)) == UpperLength(tmdt)
  {}

  lemma BytesRoundTrip(b0: byte, b1: byte, b2: byte, b3: byte)
    ensures ByteOf(PackBytes(b0, b1, b2, b3), 0) == b0
    ensures ByteOf(PackBytes(b0, b1, b2, b3), 8) == b1
    ensures ByteOf(PackBytes(b0, b1, b2, b3), 16) == b2
    ensures ByteOf(PackBytes(b0, b1, b2, b3), 24) == b3
  {}

  lemma DataRoundTrip(m: Message)
    requires |m.data| == 8
    ensures DataOf(LowData(m), HighData(m)) == m.data
  {
    hide PackBytes, ByteOf;
    BytesRoundTrip(m.data[0], m.data[1], m.data[2], m.data[3]);
    BytesRoundTrip(m.data[4], m.data[5], m.data[6], m.data[7]);
  }

  /** The hardware sends a mailbox only once its request bit, bit 0 of the identifier word, is set. */
  predicate Requested(b: TxBox) {
    b.tmi & 0x1 == 1
  }

  lemma RequestBitIsSet(tmi: word)
    ensures RequestWord(tmi) & 0x1 == 1
  {}

  /** Whatever a mailbox held before, once it is filled its transmission is requested. */
  lemma FilledIsRequested(b: TxBox, m: Message)
    requires |m.data| == 8
    ensures Requested(Filled(b, m))
  {
    hide RequestWord, IdWord, LengthWord, LowData, HighData;
    RequestBitIsSet(IdWord(b.tmi, m.id, m.ide, m.rtr));
  }

  /** A finished mailbox: the hardware takes the request bit back. */
  function Idle(b: TxBox): TxBox {
    b.(tmi := WireId(b.tmi))
  }

  lemma IdleIsNotRequested(b: TxBox)
    ensures !Requested(Idle(b))
  {}

  // ---------------------------------------------------------------- the layouts in numbers

  /** What a filled mailbox holds, whatever was in it: a standard identifier from bit 21 or an extended one from bit 3,
      bit 2 for the extended kind, bit 1 for a remote frame, bit 0 for the request. */
  lemma FilledIdentifier(tmi: word, id: bv29, ide: bv1, rtr: bv1)
    ensures RequestWord(IdWord(tmi, id, ide, rtr))
            == (if ide == 0 then (id as word) << 21 else ((id as word) << 3) | 4) | (if rtr == 1 then 2 else 0) | 1
  {}

  /** The length in the low four bits with the rest kept; the bytes in order, least significant first. */
  lemma FilledData(tmdt: word, len: byte, b0: byte, b1: byte, b2: byte, b3: byte)
    ensures LengthWord(tmdt, len) & 0xF == (len & 0xF) as word && LengthWord(tmdt, len) >> 4 == tmdt >> 4
    ensures PackBytes(b0, b1, b2, b3) & 0xFF == b0 as word && (PackBytes(b0, b1, b2, b3) >> 8) & 0xFF == b1 as word
    ensures (PackBytes(b0, b1, b2, b3) >> 16) & 0xFF == b2 as word && PackBytes(b0, b1, b2, b3) >> 24 == b3 as word
  {}

  /** The fields of a receive slot: the same identifier word, the length below the match index. */
  lemma SlotFields(id: bv29, kind: bv3, len: bv4, fmi: byte)
    requires kind & 4 == 0 ==> id <= 0x7FF
    ensures var ext := kind & 4 != 0;
            var rmi := (if ext then (id as word) << 3 else (id as word) << 21) | (kind as word);
            && IdOf(rmi) == id && (IdeOf(rmi) == EXTID <==> ext) && (RtrOf(rmi) == RTR <==> kind & 2 != 0)
    ensures var rmdt := ((fmi as word) << 8) | (len as word); LenOf(rmdt) == len as byte && MatchIndexOf(rmdt) == fmi
  {}

  /** The transmit and receive layouts agree: whatever a mailbox held before, once it is filled from a
      valid message the receiver decodes exactly that message, with its length cut to four bits. */
  lemma MessageRoundTrip(b: TxBox, m: Message, fmi: byte)
    requires Valid(m)
    ensures Decode(Received(Filled(b, m), fmi)) == OnBus(m)
    ensures MatchIndexOf(Received(Filled(b, m), fmi).rmdt) == fmi
  {
    hide StandardFits, IdWord, RequestWord, LengthWord, LowData, HighData, WireId, WireLength;
    hide IdOf, IdeOf, RtrOf, LenOf, DataOf, MatchIndexOf, FrameWord;
    IdentifierRoundTrip(b.tmi, m.id, m.ide, m.rtr);
    LengthRoundTrip(b.tmdt, m.len, fmi);
    DataRoundTrip(m);
  }

  /** The match index does not disturb the message. */
  lemma MatchIndexIsApart(b: TxBox, fmi: byte)
    ensures Decode(Received(b, fmi)) == Decode(Received(b, 0))
  {
    hide WireId, WireLength, IdOf, IdeOf, RtrOf, LenOf, DataOf;
    WireLengths(b.tmdt, fmi);
  }

  lemma WireLengths(tmdt: word, fmi: byte)
    ensures LenOf(WireLength(tmdt, fmi)) == LenOf(WireLength(tmdt, 0))
  {}

  /** The reported index is half the match index rounded up, except for the largest match index,
      which the signed field turns negative. */
  lemma HdrIndexMeaning(fmi: byte)
    ensures fmi != 0xFF ==> (fmi as int) <= 2 * HdrIndex(fmi) <= (fmi as int) + 1
    ensures fmi == 0xFF <==> HdrIndex(fmi) < 0
  {}
}
