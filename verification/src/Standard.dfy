/**
 * What MQTT Version 5.0 says in numbers, copied out of its tables, and that the tables of the library are these: the
 * packet types of section 2.1, the properties of section 2.2.2.2 and the reason codes of section 2.4.
 */
module Standard {
  import opened Bytes
  import opened Header
  import opened Grammar
  import opened Walks
  import opened Connack
  import opened Builder
  import opened Cursor
  import opened Ack
  import opened Disconnect

  // ---- bytes and packet types ----------------------------------------------------------------

  /** Numbers on the wire: sections 1.5.2 and 1.5.3 put the high byte first, section 1.5.5 the low group. */
  lemma NumbersOnTheWire()
    ensures Be16(0x0102) == [0x01, 0x02] && Be32(0x0102_0304) == [0x01, 0x02, 0x03, 0x04]
    ensures EncodeVar(127) == [0x7F] && EncodeVar(128) == [0x80, 0x01] && EncodeVar(16_383) == [0xFF, 0x7F]
    ensures EncodeVar(16_384) == [0x80, 0x80, 0x01] && EncodeVar(2_097_151) == [0xFF, 0xFF, 0x7F]
    ensures EncodeVar(2_097_152) == [0x80, 0x80, 0x80, 0x01] && EncodeVar(268_435_455) == [0xFF, 0xFF, 0xFF, 0x7F]
    ensures MAX_REMAINING_LENGTH == 268_435_455 && REMAINING_LENGTH_INVALID == 268_435_456
  {
    assert EncodeVar(1) == [1] && EncodeVar(127) == [127];
    assert EncodeVar(16_383 / 128) == [127] && EncodeVar(16_384 / 128) == [0x80, 0x01];
    assert EncodeVar(2_097_151 / 128) == [0xFF, 0x7F] && EncodeVar(2_097_152 / 128) == [0x80, 0x80, 0x01];
    assert EncodeVar(268_435_455 / 128) == [0xFF, 0xFF, 0x7F];
  }

  /** The first bytes a client takes: what a server may send, with any flags but those of a PUBREL. */
  predicate MayArrive(t: byte) {
    || 0x20 <= t <= 0x5F || 0x70 <= t <= 0x7F || 0x90 <= t <= 0x9F || 0xB0 <= t <= 0xBF || 0xD0 <= t <= 0xFF
    || t in {0x62, 0x63, 0x66, 0x67, 0x6A, 0x6B, 0x6E, 0x6F}
  }

  /** Whatever its length and whatever follows, a header is read if and only if its first byte is one of these. */
  lemma FirstByteDecides(t: byte, n: u32, rest: seq<byte>)
    requires n <= MAX_REMAINING_LENGTH
    ensures DecodeHeader([t] + EncodeVar(n) + rest)
         == if MayArrive(t) then Header(t, n, 1 + |EncodeVar(n)|) else BadHeader
  {
    hide EncodeVar;
    if IncomingPacketValid(t) {
      WrittenHeader(t, n, rest);
    }
  }

  // ---- properties ----------------------------------------------------------------------------

  /** The column of types in section 2.2.2.2. A string and binary data have one form on the wire. */
  function TypeOf(id: byte): Option<Width> {
    match id
    case 0x01 | 0x17 | 0x19 | 0x24 | 0x25 | 0x28 | 0x29 | 0x2A => Some(Byte)
    case 0x13 | 0x21 | 0x22 | 0x23 => Some(TwoBytes)
    case 0x02 | 0x11 | 0x18 | 0x27 => Some(FourBytes)
    case 0x03 | 0x08 | 0x09 | 0x12 | 0x15 | 0x16 | 0x1A | 0x1C | 0x1F => Some(String)
    case 0x26 => Some(Pair)
    case 0x0B => Some(Variable)
    case _ => None
  }

  /** The will properties, beside the packet types. */
  const WILL: nat := 0

  /** The column of packets: the packet types of section 2.1.2 that may carry a property. */
  function CarriedBy(id: byte): set<nat> {
    match id
    case 0x01 | 0x02 | 0x03 | 0x08 | 0x09 => {WILL, 3}
    case 0x0B => {3, 8}
    case 0x11 => {1, 2, 14}
    case 0x12 | 0x13 | 0x1A | 0x24 | 0x25 | 0x28 | 0x29 | 0x2A => {2}
    case 0x15 | 0x16 => {1, 2, 15}
    case 0x17 | 0x19 => {1}
    case 0x18 => {WILL}
    case 0x1C => {2, 14}
    case 0x1F => {2, 4, 5, 6, 7, 9, 11, 14, 15}
    case 0x21 | 0x22 | 0x27 => {1, 2}
    case 0x23 => {3}
    case 0x26 => {WILL, 1, 2, 3, 4, 5, 6, 7, 8, 9, 10, 11, 14, 15}
    case _ => {}
  }

  /** The widths by which every property is read, written and skipped. */
  lemma WidthsAreStandard(id: byte)
    ensures WidthOf(id) == TypeOf(id)
  {
  }

  /**
   * What each walk reads. A server may not send a session expiry in a DISCONNECT, and a client no server reference
   * (sections 3.14.2.2.2 and 3.14.2.2.5).
   */
  lemma WalksAreStandard(w: Walker, id: byte)
    ensures id in Allowed(w) <==>
            match w
            case Connack(_) => 2 in CarriedBy(id)
            case Ack => 4 in CarriedBy(id)
            case PublishAck => 4 in CarriedBy(id)
            case IncomingDisconnect => 14 in CarriedBy(id) && id != 0x11
            case OutgoingDisconnect(_) => 14 in CarriedBy(id) && id != 0x1C
            case IncomingPublish(_) => 3 in CarriedBy(id)
            case Context => 1 in CarriedBy(id)
    ensures forall k :: k in {5, 6, 7, 9, 11} ==> (k in CarriedBy(id) <==> 4 in CarriedBy(id))
  {
  }

  /** The repeats the walks let pass: those the standard allows, and those the source forgets. */
  lemma RepeatsThatPass(w: Walker, id: byte)
    requires id in Allowed(w)
    ensures id !in Once(w) <==>
            || id == 0x26 || (id == 0x0B && w.IncomingPublish?) || w.OutgoingDisconnect?
            || (w.Context? && id in {0x15, 0x16, 0x17, 0x19})
  {
  }

  /** The values the walks refuse. */
  lemma ValuesThatPass(w: Walker, id: byte, n: u32, text: seq<byte>)
    ensures ValueOk(w, Property(id, Num(n))) <==>
            match w
            case Connack(wanted) =>
              && (id in {0x21, 0x27} ==> n != 0) && (id in {0x24, 0x25, 0x28, 0x29, 0x2A} ==> n <= 1)
              && (id == 0x1A ==> wanted)
            case OutgoingDisconnect(expiry) => id == 0x11 && expiry == 0 ==> n == 0
            case IncomingPublish(max) => (id == 0x01 ==> n <= 1) && (id == 0x23 ==> 0 < n <= max)
            case _ => true
    ensures ValueOk(w, Property(id, Text(text))) <==> (w.Connack? && id == 0x1A ==> w.requestResponseInfo)
    ensures Complaint(w) == BadParameter <==> w.PublishAck? || w.OutgoingDisconnect? || w.Context?
  {
  }

  /** Which packets the builder lets a property into; the will's properties are told apart from no packet. */
  lemma BuilderIsStandard(kind: byte, id: byte)
    ensures id in AllowedIn(kind) <==>
            if kind == 0x10 then 1 in CarriedBy(id) || WILL in CarriedBy(id)
            else kind in {0x20, 0x30, 0x40, 0x50, 0x62, 0x70, 0x82, 0x90, 0xA2, 0xB0, 0xE0, 0xF0}
                 && kind as int / 16 in CarriedBy(id)
  {
  }

  /** The builder has an adder for what a client may send, and the cursor a getter for all but three properties. */
  lemma AddersAndGetters(id: byte)
    ensures HasAdder(id) <==> TypeOf(id).Some? && (WILL in CarriedBy(id) || 1 in CarriedBy(id) || 3 in CarriedBy(id)
                                                   || 4 in CarriedBy(id))
    ensures HasGetter(id) <==> TypeOf(id).Some? && id !in {0x17, 0x18, 0x19}
  {
  }

  /** The bits of `fields_present`, in the order of their numbers from 1; the eighth stands for no property. */
  const NUMBERED: seq<byte> :=
    [0x0B, 0x11, 0x21, 0x27, 0x22, 0x19, 0x17, 0x00, 0x15, 0x16, 0x01, 0x02, 0x23, 0x08, 0x09, 0x03, 0x1F, 0x18,
     0x12, 0x13, 0x1A, 0x1C, 0x24, 0x25, 0x28, 0x29, 0x2A, 0x26]

  lemma BitsAreNumbered(id: byte)
    requires TypeOf(id).Some?
    ensures 1 <= FieldOf(id) <= 28 && NUMBERED[FieldOf(id) - 1] == id
  {
  }

  // ---- reason codes --------------------------------------------------------------------------

  /** The packets that may carry a reason code, by section 2.4. */
  function CodeIn(code: byte): set<nat> {
    match code
    case 0x00 => {2, 4, 5, 6, 7, 9, 11, 14, 15}
    case 0x01 | 0x02 => {9}
    case 0x04 => {14}
    case 0x10 => {4, 5}
    case 0x11 => {11}
    case 0x18 | 0x19 => {15}
    case 0x80 | 0x83 | 0x87 => {2, 4, 5, 9, 11, 14}
    case 0x81 | 0x82 | 0x89 | 0x8C | 0x95 | 0x9A | 0x9B | 0x9C | 0x9D | 0x9F => {2, 14}
    case 0x84 | 0x85 | 0x86 | 0x88 | 0x8A => {2}
    case 0x8B | 0x8D | 0x8E | 0x93 | 0x94 | 0x96 | 0x98 | 0xA0 => {14}
    case 0x8F => {9, 11, 14}
    case 0x90 | 0x99 => {2, 4, 5, 14}
    case 0x91 => {4, 5, 9, 11}
    case 0x92 => {6, 7}
    case 0x97 => {2, 4, 5, 9, 14}
    case 0x9E | 0xA1 | 0xA2 => {9, 14}
    case _ => {}
  }

  /** The codes of a CONNACK, and of the publish acknowledgements as written. */
  lemma CodesAreStandard(kind: byte, code: byte)
    ensures ReasonCodeValid(code) <==> 2 in CodeIn(code)
    ensures CodeWritable(kind, code) <==> kind in {0x40, 0x50, 0x62, 0x70} && kind as int / 16 in CodeIn(code)
  {
  }

  /** One table for all four publish acknowledgements as read: a code any of them may carry passes in each. */
  lemma CodesReadAlike(code: byte)
    ensures CodeReadable(code) <==> exists kind :: kind in {4, 5, 6, 7} && kind in CodeIn(code)
  {
    assert 4 in CodeIn(code) || 5 in CodeIn(code) || 6 in CodeIn(code) || 7 in CodeIn(code) <==>
           exists kind :: kind in {4, 5, 6, 7} && kind in CodeIn(code);
  }

  /**
   * One table for both list acknowledgements, and it is the SUBACK's: of what an UNSUBACK may say just one code is
   * refused, that no subscription existed; and what only a SUBACK may say passes in both.
   */
  lemma UnsubackIsReadAsSuback(code: byte)
    ensures SubackCodes([code]) <==> 9 in CodeIn(code)
    ensures 11 in CodeIn(code) && !SubackCodes([code]) <==> code == 0x11
  {
    assert [code][0] == code;
  }

  /** The codes only a server sends in a DISCONNECT, by section 3.14.2.1. */
  const SERVERS: set<byte> :=
    {0x87, 0x89, 0x8B, 0x8C, 0x8D, 0x8E, 0x8F, 0x9A, 0x9B, 0x9C, 0x9D, 0x9E, 0x9F, 0xA0, 0xA1, 0xA2}

  /** A DISCONNECT, both ways: what comes in is one code short of the standard, and what goes out is not. */
  lemma DisconnectCodes(code: byte)
    ensures ReasonCodeAllowed(code, true) <==> 14 in CodeIn(code) && code != 0x04 && code != 0x9F
    ensures ReasonCodeAllowed(code, false) <==> 14 in CodeIn(code) && code !in SERVERS
  {
  }
}
