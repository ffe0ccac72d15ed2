/** The acknowledgements, written and read: PUBACK, PUBREC, PUBREL, PUBCOMP, SUBACK, UNSUBACK and PINGRESP. */
module Ack {
  import opened Bytes
  import opened Header
  import opened Grammar
  import opened Walks
  import opened Builder
  import opened Packet
  import opened Wire

  predicate IsPublishAck(kind: byte) {
    kind in {PUBACK, PUBREC, PUBREL, PUBCOMP}
  }

  // ---- writing ----------------------------------------------------------------

  /** The codes a client may write, per type: nine for the first half of a handshake, two for the second. */
  predicate CodeWritable(kind: byte, code: byte) {
    if kind == PUBACK || kind == PUBREC then code in {0x00, 0x10, 0x80, 0x83, 0x87, 0x90, 0x91, 0x97, 0x99}
    else (kind == PUBREL || kind == PUBCOMP) && code in {0x00, 0x92}
  }

  /** The body of a publish acknowledgement: a bare identifier, or the identifier, a code and a section. */
  function AckBody(packetId: u16, code: Option<byte>, properties: seq<byte>): seq<byte> {
    Be16(packetId) + (if code.Some? then [code.value] + Section(properties) else [])
  }

  function AckPacket(kind: byte, packetId: u16, code: Option<byte>, properties: seq<byte>): seq<byte> {
    [kind] + EncodeVar(|AckBody(packetId, code, properties)|) + AckBody(packetId, code, properties)
  }

  /** What the serializer accepts, the buffer aside. */
  predicate Writable(kind: byte, packetId: u16, code: Option<byte>, properties: seq<byte>) {
    && packetId != 0 && IsPublishAck(kind)
    && (code.Some? ==> CodeWritable(kind, code.value))
    && (code.None? ==> properties == [])
    && |AckBody(packetId, code, properties)| <= MAX_REMAINING_LENGTH
  }

  /** What the serializer asks before it writes its first byte. */
  predicate MayBegin(kind: byte, packetId: u16, code: Option<byte>, properties: seq<byte>) {
    && packetId != 0 && IsPublishAck(kind) && (code.Some? ==> CodeWritable(kind, code.value))
    && (code.None? ==> properties == []) && |properties| <= MAX_REMAINING_LENGTH
  }

  /**
   * `serialize_ack`. It succeeds exactly for what may be written and fits. The type byte is written once the
   * arguments have been asked about, so of a refusal it is all that is touched: whenever the buffer cannot hold a
   * reason code, or the section behind it, or the body with the section is longer than a packet's.
   */
  method SerializeAck(dest: array<byte>, kind: byte, packetId: u16, code: Option<byte>, properties: seq<byte>)
    returns (r: Result<nat, WireError>)
    modifies dest
    ensures r.Ok? <==> Writable(kind, packetId, code, properties)
                       && |AckPacket(kind, packetId, code, properties)| <= dest.Length
    ensures r.Ok? ==> r.value == |AckPacket(kind, packetId, code, properties)|
    ensures r.Ok? ==> dest[..] == Splice(old(dest[..]), 0, AckPacket(kind, packetId, code, properties))
    ensures r == Err(WireError.NoMemory) <==> dest.Length < 4
    ensures r.Err? && dest.Length > 0 ==>
              && dest[1..] == old(dest[1..])
              && dest[0] == if dest.Length >= 4 && MayBegin(kind, packetId, code, properties) then kind
                 else old(dest[0])
  {
    hide EncodeVar, CodeWritable;
    CodeWritableMeans(kind, if code.Some? then code.value else 0);
    SmallPackets(kind, packetId, code);
    if dest.Length < 4 {
      return Err(WireError.NoMemory);
    }
    if packetId == 0 || (code.None? && properties != []) {
      return Err(WireError.BadParameter);
    }
    if code.Some? {
      if !CodeWritable(kind, code.value) {
        return Err(WireError.BadParameter);
      }
    } else if !IsPublishAck(kind) {
      return Err(WireError.BadParameter);
    }
    if |properties| >= REMAINING_LENGTH_INVALID {
      return Err(WireError.BadParameter);
    }
    ghost var before := dest[..];
    CopyInto(dest, 0, [kind]);
    r := FinishAck(dest, before, kind, packetId, code, properties);
  }

  /** What follows the type byte, in the one of three shapes that fits the arguments. */
  method FinishAck(dest: array<byte>, ghost before: seq<byte>, kind: byte, packetId: u16, code: Option<byte>,
                   properties: seq<byte>)
    returns (r: Result<nat, WireError>)
    requires dest.Length >= 4 && |before| == dest.Length && dest[..] == Splice(before, 0, [kind])
    requires |properties| <= MAX_REMAINING_LENGTH && (code.None? ==> properties == [])
    modifies dest
    ensures r.Ok? <==> |AckBody(packetId, code, properties)| <= MAX_REMAINING_LENGTH
                       && |AckPacket(kind, packetId, code, properties)| <= dest.Length
    ensures r.Ok? ==> r.value == |AckPacket(kind, packetId, code, properties)|
    ensures r.Ok? ==> dest[..] == Splice(before, 0, AckPacket(kind, packetId, code, properties))
    ensures r.Err? ==> r == Err(WireError.BadParameter) && dest[..] == old(dest[..])
  {
    hide EncodeVar, Splice, AckPacket, Be16;
    SmallPackets(kind, packetId, code);
    if code.None? {
      Continue(dest, before, 0, [kind], 1, [2] + Be16(packetId));
      assert [kind] + ([2] + Be16(packetId)) == [kind, 2] + Be16(packetId);
      return Ok(4);
    }
    if dest.Length < 6 {
      return Err(WireError.BadParameter);
    }
    if properties == [] {
      var rest := [4] + Be16(packetId) + [code.value, 0x00];
      Continue(dest, before, 0, [kind], 1, rest);
      assert [kind] + rest == [kind, 4] + Be16(packetId) + [code.value, 0x00];
      return Ok(6);
    }
    r := SerializeAckWithProperties(dest, before, kind, packetId, code.value, properties);
  }

  /** The third shape. Its sums stay far below saturation. */
  method SerializeAckWithProperties(dest: array<byte>, ghost before: seq<byte>, kind: byte, packetId: u16, code: byte,
                                    properties: seq<byte>)
    returns (r: Result<nat, WireError>)
    requires dest.Length >= 6 && |before| == dest.Length && dest[..] == Splice(before, 0, [kind])
    requires |properties| <= MAX_REMAINING_LENGTH
    modifies dest
    ensures r.Ok? <==> |AckBody(packetId, Some(code), properties)| <= MAX_REMAINING_LENGTH
                       && |AckPacket(kind, packetId, Some(code), properties)| <= dest.Length
    ensures r.Ok? ==> r.value == |AckPacket(kind, packetId, Some(code), properties)|
    ensures r.Ok? ==> dest[..] == Splice(before, 0, AckPacket(kind, packetId, Some(code), properties))
    ensures r.Err? ==> r == Err(WireError.BadParameter) && dest[..] == old(dest[..])
  {
    hide EncodeVar, Splice;
    SizeVarIsLength(|properties|);
    var remaining := 3 + SizeVar(|properties|) + |properties|;
    assert remaining == |AckBody(packetId, Some(code), properties)|;
    if remaining > MAX_REMAINING_LENGTH {
      return Err(WireError.BadParameter);
    }
    WholeEncoding(remaining);
    var packetSize := remaining + SizeVar(remaining) + 1;
    assert packetSize == |AckPacket(kind, packetId, Some(code), properties)|;
    if dest.Length < packetSize {
      return Err(WireError.BadParameter);
    }
    var encoded := EncodeVariableLength(dest, 1, remaining);
    SpliceJoin(before, 0, [kind], EncodeVar(remaining));
    ghost var done := [kind] + EncodeVar(remaining);
    Continue(dest, before, 0, done, 1 + encoded, Be16(packetId) + [code]);
    done := done + (Be16(packetId) + [code]);
    var last := PutSection(dest, before, done, 1 + encoded + 3, properties);
    ThreeParts([kind], EncodeVar(remaining), Be16(packetId), [code], Section(properties));
    return Ok(packetSize);
  }

  lemma ThreeParts(a: seq<byte>, b: seq<byte>, c: seq<byte>, d: seq<byte>, e: seq<byte>)
    ensures a + b + (c + d) + e == a + b + (c + (d + e))
  {
  }

  lemma CodeWritableMeans(kind: byte, code: byte)
    ensures CodeWritable(kind, code) ==> IsPublishAck(kind)
  {
  }

  /** The two literal shapes are the general one. */
  lemma SmallPackets(kind: byte, packetId: u16, code: Option<byte>)
    ensures code.None? ==> AckPacket(kind, packetId, code, []) == [kind, 2] + Be16(packetId)
    ensures code.Some? ==> AckPacket(kind, packetId, code, []) == [kind, 4] + Be16(packetId) + [code.value, 0x00]
    ensures forall ps: seq<byte> :: code.Some? ==> |AckPacket(kind, packetId, code, ps)| >= 6
    ensures |AckBody(packetId, code, [])| <= 4
  {
    if code.None? {
      assert AckBody(packetId, code, []) == Be16(packetId);
    } else {
      assert Section([]) == [0x00];
      assert AckBody(packetId, code, []) == Be16(packetId) + [code.value, 0x00];
      assert EncodeVar(4) == [4];
    }
  }

  // ---- reading ------------------------------------------------------------------

  datatype AckInfo = AckInfo(packetId: Option<u16>, reasonCodes: seq<byte>, properties: seq<byte>)

  /** The one table the reading side checks all four publish acknowledgements against. */
  predicate CodeReadable(code: byte) {
    code in {0x00, 0x10, 0x80, 0x83, 0x87, 0x90, 0x91, 0x92, 0x97, 0x99}
  }

  /** `read_suback_status`: every code is one this library knows, for an UNSUBACK too. */
  predicate SubackCodes(codes: seq<byte>) {
    forall i :: 0 <= i < |codes| ==>
      codes[i] <= 0x02 || codes[i] in {0x80, 0x83, 0x87, 0x8F, 0x91, 0x97, 0x9E, 0xA1, 0xA2}
  }

  function ReadPacketId(data: seq<byte>): Option<u16> {
    if |data| < 2 || Read16(data) == 0 then None else Some(Read16(data))
  }

  /** `decode_pub_ack_properties`: the section is the rest of the packet, to the byte. */
  function PubAckProperties(body: seq<byte>): Option<seq<byte>> {
    match DecodeVar(body)
    case None => None
    case Some(length) =>
      if |body| != length + SizeVar(length) then None
      else match Bounded(body, SizeVar(length), length)
           case None => None
           case Some(properties) => if WalkSection(Walker.Ack, properties).Accepted? then Some(properties) else None
  }

  /** `deserialize_pub_acks` and the reason code check that follows it. */
  function PubAck(packet: PacketInfo, requestProblemInfo: bool): Option<AckInfo> {
    var n, data := packet.remainingLength, packet.remainingData;
    if n < 2 || ReadPacketId(data).None? || (n > 2 && |data| < 3) then None
    else
      var codes := if n > 2 then data[2..3] else [];
      if n > 2 && n <= 3 then (if CodeReadable(codes[0]) then Some(AckInfo(ReadPacketId(data), codes, [])) else None)
      else if n <= 2 then Some(AckInfo(ReadPacketId(data), [], []))
      else if !requestProblemInfo || Bounded(data, 3, n - 3).None? then None
      else match PubAckProperties(Bounded(data, 3, n - 3).value)
           case None => None
           case Some(properties) =>
             if CodeReadable(codes[0]) then Some(AckInfo(ReadPacketId(data), codes, properties)) else None
  }

  /** `deserialize_sub_unsub_ack_properties`: its own bound before the slice's, and the bytes the section took. */
  function SubAckProperties(afterId: seq<byte>): Option<(seq<byte>, nat)> {
    match DecodeVar(afterId)
    case None => None
    case Some(length) =>
      if SaturatingAdd(SaturatingAdd(length, SizeVar(length)), 2) > |afterId| + 2 then None
      else match Bounded(afterId, SizeVar(length), length)
           case None => None
           case Some(properties) =>
             if WalkSection(Walker.Ack, properties).Accepted? then Some((properties, SizeVar(length) + |properties|))
                 else None
  }

  /** `deserialize_sub_unsub_ack`: the codes are whatever the section leaves. */
  function SubAck(packet: PacketInfo): Option<AckInfo> {
    var n, data := packet.remainingLength, packet.remainingData;
    if n < 4 || ReadPacketId(data).None? || Bounded(data, 2, n - 2).None? then None
    else
      var afterId := Bounded(data, 2, n - 2).value;
      match SubAckProperties(afterId)
      case None => None
      case Some((properties, taken)) =>
        if taken > |afterId| then None
        else
          var codes := afterId[taken..];
          if SubackCodes(codes) then Some(AckInfo(ReadPacketId(data), codes, properties)) else None
  }

  /** `deserialize_ack`. */
  function DeserializeAck(packet: PacketInfo, maxPacketSize: u32, requestProblemInfo: bool): Result<AckInfo, Refusal> {
    if packet.kind == CONNACK || maxPacketSize == 0 then Err(Refusal.BadParameter)
    else if PacketSize(packet.remainingLength) > maxPacketSize then Err(BadResponse)
    else
      var info := if IsPublishAck(packet.kind) then PubAck(packet, requestProblemInfo)
                  else if packet.kind == SUBACK || packet.kind == UNSUBACK then SubAck(packet)
                  else if packet.kind == PINGRESP && packet.remainingLength == 0 then Some(AckInfo(None, [], []))
                  else None;
      if info.Some? then Ok(info.value) else Err(BadResponse)
  }

  // ---- end to end -----------------------------------------------------------------

  /**
   * What the serializer wrote, read back through the header decoder and the deserializer. The four-byte form
   * always returns; a form with a code returns exactly when problem information was requested and the section is
   * one the reading walk accepts, and then the identifier, the code and the section are the ones written.
   */
  lemma AckRoundTrip(kind: byte, packetId: u16, code: Option<byte>, properties: seq<byte>, rest: seq<byte>,
                     maxPacketSize: u32, requestProblemInfo: bool)
    requires Writable(kind, packetId, code, properties)
    requires 0 < maxPacketSize && |AckPacket(kind, packetId, code, properties)| <= maxPacketSize
    ensures var h := DecodeHeader(AckPacket(kind, packetId, code, properties) + rest);
            && h.Header? && h.kind == kind && h.width + h.remaining == |AckPacket(kind, packetId, code, properties)|
            && DeserializeAck(PacketInfo(kind, h.remaining,
                                         (AckPacket(kind, packetId, code, properties) + rest)[h.width..]),
                              maxPacketSize, requestProblemInfo)
               == (if code.None? then Ok(AckInfo(Some(packetId), [], []))
                   else if requestProblemInfo && WalkSection(Walker.Ack, properties).Accepted?
                   then Ok(AckInfo(Some(packetId), [code.value], properties))
                   else Err(BadResponse))
  {
    hide EncodeVar, WalkFrom, CodeWritable, CodeReadable, IncomingPacketValid, DecodeHeader, PubAck, AckBody;
    var body := AckBody(packetId, code, properties);
    assert AckPacket(kind, packetId, code, properties) + rest == [kind] + EncodeVar(|body|) + (body + rest);
    AckKinds(kind);
    WrittenHeader(kind, |body|, body + rest);
    assert (AckPacket(kind, packetId, code, properties) + rest)[1 + |EncodeVar(|body|)|..] == body + rest;
    SizeVarIsLength(|body|);
    PubAckOfBody(kind, packetId, code, properties, rest, requestProblemInfo);
  }

  lemma AckKinds(kind: byte)
    requires IsPublishAck(kind)
    ensures IncomingPacketValid(kind) && kind != CONNACK
  {
  }

  lemma PubAckOfBody(kind: byte, packetId: u16, code: Option<byte>, properties: seq<byte>, rest: seq<byte>,
                     requestProblemInfo: bool)
    requires Writable(kind, packetId, code, properties)
    ensures var body := AckBody(packetId, code, properties);
            PubAck(PacketInfo(kind, |body|, body + rest), requestProblemInfo)
            == (if code.None? then Some(AckInfo(Some(packetId), [], []))
                else if requestProblemInfo && WalkSection(Walker.Ack, properties).Accepted?
                then Some(AckInfo(Some(packetId), [code.value], properties))
                else None)
  {
    hide EncodeVar, WalkFrom, CodeWritable, CodeReadable, PubAckProperties;
    var body := AckBody(packetId, code, properties);
    var data := body + rest;
    if code.Some? {
      WritableIsReadable(kind, code.value);
      assert data == Be16(packetId) + ([code.value] + Section(properties) + rest);
      Read16OfBe16(packetId, [code.value] + Section(properties) + rest);
      assert data[2..3] == [code.value] && data[3..|body|] == Section(properties);
      SectionIsThePubAckBody(properties);
    } else {
      assert body == Be16(packetId);
      Read16OfBe16(packetId, rest);
    }
  }

  /** Every code that may be written may be read; the reading side knows one more for the first half. */
  lemma WritableIsReadable(kind: byte, code: byte)
    requires CodeWritable(kind, code)
    ensures CodeReadable(code)
  {
  }

  lemma SectionIsThePubAckBody(properties: seq<byte>)
    requires |properties| <= MAX_REMAINING_LENGTH
    ensures PubAckProperties(Section(properties))
         == if WalkSection(Walker.Ack, properties).Accepted? then Some(properties) else None
  {
    hide EncodeVar, WalkFrom;
    var body := Section(properties);
    SizeVarIsLength(|properties|);
    DecodeVarExact(body, |properties|);
    assert body[SizeVar(|properties|)..SizeVar(|properties|) + |properties|] == properties;
  }

  lemma {:induction false} KeptAreAllowed(capacity: nat, from: State, calls: seq<Call>, kind: byte)
    requires AllTyped(calls) && forall i :: 0 <= i < |calls| ==> calls[i].kind == Some(kind)
    ensures forall i :: 0 <= i < |Kept(capacity, from, calls)| ==> Kept(capacity, from, calls)[i].id in AllowedIn(kind)
    decreases |calls|
  {
    hide Typed, AllowedIn, Add, BadValueFor, EncodeProperty;
    if calls != [] {
      KeptAreAllowed(capacity, Add(capacity, from, calls[0].p, calls[0].kind), calls[1..], kind);
    }
  }

  /**
   * End to end: a section built from `new` for a publish acknowledgement, serialized with a legal identifier and
   * code, comes back through the header decoder and the deserializer as the same three things.
   */
  lemma BuiltAckComesBack(capacity: nat, calls: seq<Call>, kind: byte, packetId: u16, code: byte, rest: seq<byte>,
                          maxPacketSize: u32)
    requires AllTyped(calls) && forall i :: 0 <= i < |calls| ==> calls[i].kind == Some(kind)
    requires Writable(kind, packetId, Some(code), Run(capacity, FRESH, calls).section)
    requires |AckPacket(kind, packetId, Some(code), Run(capacity, FRESH, calls).section)| <= maxPacketSize
    ensures var section := Run(capacity, FRESH, calls).section;
            var s := AckPacket(kind, packetId, Some(code), section) + rest;
            && DecodeHeader(s).Header?
            && DeserializeAck(PacketInfo(kind, DecodeHeader(s).remaining, s[DecodeHeader(s).width..]), maxPacketSize,
                              true)
               == Ok(AckInfo(Some(packetId), [code], section))
  {
    hide Typed, Run, Kept, WalkFrom, DecodeHeader, DeserializeAck, EncodeVar, Legal, WellBuilt, CodeWritable;
    hide EncodeSection;
    hide FieldSet, ValidProperty, ParseSection;
    var section, ps := Run(capacity, FRESH, calls).section, Kept(capacity, FRESH, calls);
    RunFromNew(capacity, calls);
    KeptAreAllowed(capacity, FRESH, calls, kind);
    assert Legal(Walker.Ack, ps, {}) by { WellBuiltIsLegal(ps, kind); }
    WalkExact(Walker.Ack, section, {}, ps);
    AckRoundTrip(kind, packetId, Some(code), section, rest, maxPacketSize, true);
  }

  lemma WellBuiltIsLegal(ps: seq<Property>, kind: byte)
    requires WellBuilt(ps) && IsPublishAck(kind) && forall i :: 0 <= i < |ps| ==> ps[i].id in AllowedIn(kind)
    ensures Legal(Walker.Ack, ps, {})
  {
  }

  // ---- the list acknowledgements tile their bodies ----------------------------------

  /** The source's own bound and the slice bound after it are one predicate. */
  lemma TwoBoundsAreOne(afterId: seq<byte>, length: u32)
    requires length <= MAX_REMAINING_LENGTH
    ensures SaturatingAdd(SaturatingAdd(length, SizeVar(length)), 2) > |afterId| + 2
       <==> Bounded(afterId, SizeVar(length), length).None?
  {
  }

  predicate SubAckBody(body: seq<byte>, info: AckInfo) {
    && |body| >= 4 && info.packetId.Some? && info.packetId.value != 0
    && body == Be16(info.packetId.value) + Section(info.properties) + info.reasonCodes
    && |info.properties| <= MAX_REMAINING_LENGTH && WalkSection(Walker.Ack, info.properties).Accepted?
    && SubackCodes(info.reasonCodes)
  }

  /**
   * A SUBACK or UNSUBACK is accepted if and only if identifier, encoded length, section and codes tile exactly the
   * body it claims and the body is four bytes or more; nothing of it is left over or read twice.
   */
  lemma SubAckTiles(packet: PacketInfo, info: AckInfo)
    ensures SubAck(packet) == Some(info) <==>
              && packet.remainingLength <= |packet.remainingData|
              && SubAckBody(packet.remainingData[..packet.remainingLength], info)
  {
    hide WalkFrom, EncodeVar, DecodeVar, SubackCodes;
    var n, data := packet.remainingLength, packet.remainingData;
    if SubAck(packet) == Some(info) {
      AcceptedTiles(packet);
    }
    if n <= |data| && SubAckBody(data[..n], info) {
      TilesAccepted(packet, info);
    }
  }

  lemma AcceptedTiles(packet: PacketInfo)
    requires SubAck(packet).Some?
    ensures packet.remainingLength <= |packet.remainingData|
    ensures SubAckBody(packet.remainingData[..packet.remainingLength], SubAck(packet).value)
  {
    hide WalkFrom, EncodeVar, DecodeVar, Be16, Read16, SizeVar, SubackCodes;
    var n, data, info := packet.remainingLength, packet.remainingData, SubAck(packet).value;
    var afterId := data[2..n];
    var length := DecodeVar(afterId).value;
    DecodeVarExact(afterId, length);
    SizeVarIsLength(length);
    Be16OfRead16(data);
    var w := SizeVar(length);
    assert afterId[..w] == EncodeVar(length) && info.properties == afterId[w..w + length];
    assert info.reasonCodes == afterId[w + length..];
    assert afterId == afterId[..w] + afterId[w..w + length] + afterId[w + length..];
    assert data[..n] == data[..2] + afterId;
    TwoParts(data[..2], afterId[..w], info.properties, info.reasonCodes);
  }

  lemma TwoParts(a: seq<byte>, b: seq<byte>, c: seq<byte>, d: seq<byte>)
    ensures a + (b + c + d) == a + (b + c) + d
  {
  }

  lemma TilesAccepted(packet: PacketInfo, info: AckInfo)
    requires packet.remainingLength <= |packet.remainingData|
    requires SubAckBody(packet.remainingData[..packet.remainingLength], info)
    ensures SubAck(packet) == Some(info)
  {
    hide WalkFrom, EncodeVar, DecodeVar, SubackCodes;
    var n, data := packet.remainingLength, packet.remainingData;
    var id, section := info.packetId.value, Section(info.properties);
    var afterId := data[2..n];
    assert data[..n] == Be16(id) + (section + info.reasonCodes);
    Read16OfBe16(id, section + info.reasonCodes);
    assert data[..n][0] == data[0] && data[..n][1] == data[1];
    assert afterId == data[..n][2..];
    SizeVarIsLength(|info.properties|);
    DecodeVarExact(afterId, |info.properties|);
    assert EncodeVar(|info.properties|) <= afterId;
    var w := SizeVar(|info.properties|);
    assert afterId[w..w + |info.properties|] == info.properties;
    assert afterId[w + |info.properties|..] == info.reasonCodes;
  }

  // ---- the publish acknowledgements, and every type ----------------------------------

  /**
   * The three forms of a publish acknowledgement's body: an identifier alone, an identifier and a code, or those
   * and a section, which is read only when problem information was requested.
   */
  predicate PubAckBody(body: seq<byte>, info: AckInfo, requestProblemInfo: bool) {
    && info.packetId.Some? && info.packetId.value != 0
    && var front := Be16(info.packetId.value) + info.reasonCodes;
       || (info.reasonCodes == [] && info.properties == [] && body == front)
       || (&& |info.reasonCodes| == 1 && CodeReadable(info.reasonCodes[0])
           && ((info.properties == [] && body == front)
               || (&& requestProblemInfo && |info.properties| <= MAX_REMAINING_LENGTH
                   && WalkSection(Walker.Ack, info.properties).Accepted?
                   && body == front + Section(info.properties))))
  }

  /** A publish acknowledgement is read if and only if its claimed body is one of these, with just those parts. */
  lemma PubAckExact(packet: PacketInfo, requestProblemInfo: bool, info: AckInfo)
    ensures PubAck(packet, requestProblemInfo) == Some(info) <==>
              && packet.remainingLength <= |packet.remainingData|
              && PubAckBody(packet.remainingData[..packet.remainingLength], info, requestProblemInfo)
  {
    hide WalkFrom, EncodeVar, DecodeVar, CodeReadable;
    if PubAck(packet, requestProblemInfo) == Some(info) {
      PubAckTiles(packet, requestProblemInfo);
    }
    if packet.remainingLength <= |packet.remainingData|
       && PubAckBody(packet.remainingData[..packet.remainingLength], info, requestProblemInfo) {
      PubAckTaken(packet, requestProblemInfo, info);
    }
  }

  lemma PubAckTiles(packet: PacketInfo, requestProblemInfo: bool)
    requires PubAck(packet, requestProblemInfo).Some?
    ensures packet.remainingLength <= |packet.remainingData|
    ensures PubAckBody(packet.remainingData[..packet.remainingLength], PubAck(packet, requestProblemInfo).value,
                       requestProblemInfo)
  {
    hide WalkFrom, EncodeVar, DecodeVar, CodeReadable, Be16, Read16, SizeVar;
    var n, data := packet.remainingLength, packet.remainingData;
    Be16OfRead16(data);
    if n == 3 {
      assert data[..3] == data[..2] + data[2..3];
    } else if n > 3 {
      PubAckSectionIsWhole(data[3..n]);
      assert data[..n] == data[..2] + data[2..3] + data[3..n];
    }
  }

  lemma PubAckSectionIsWhole(body: seq<byte>)
    requires PubAckProperties(body).Some?
    ensures var properties := PubAckProperties(body).value;
            && |properties| <= MAX_REMAINING_LENGTH && WalkSection(Walker.Ack, properties).Accepted?
            && body == Section(properties)
  {
    hide WalkFrom, DecodeVar, SizeVar, Section;
    SectionIsTheRest(body, DecodeVar(body).value);
  }

  lemma PubAckTaken(packet: PacketInfo, requestProblemInfo: bool, info: AckInfo)
    requires packet.remainingLength <= |packet.remainingData|
    requires PubAckBody(packet.remainingData[..packet.remainingLength], info, requestProblemInfo)
    ensures PubAck(packet, requestProblemInfo) == Some(info)
  {
    hide WalkFrom, EncodeVar, PubAckProperties, CodeReadable, Be16;
    var n, data := packet.remainingLength, packet.remainingData;
    var id, body := info.packetId.value, data[..n];
    Read16OfBe16(id, body[2..]);
    assert body == Be16(id) + body[2..] && data[0] == body[0] && data[1] == body[1];
    if info.reasonCodes != [] {
      assert body[2..3] == info.reasonCodes == data[2..3];
      if n > 3 {
        SectionIsThePubAckBody(info.properties);
        assert body[3..] == Section(info.properties) == data[3..n];
      }
    }
  }

  /**
   * Any acknowledgement but a CONNACK: what is read, if and only if the packet is small enough and its claimed
   * body, present in full, is a body of its type; and the caller is blamed only for a CONNACK or a limit of zero.
   */
  lemma AckExact(packet: PacketInfo, maxPacketSize: u32, requestProblemInfo: bool, info: AckInfo)
    ensures DeserializeAck(packet, maxPacketSize, requestProblemInfo) == Ok(info) <==>
              && maxPacketSize != 0 && PacketSize(packet.remainingLength) <= maxPacketSize
              && packet.remainingLength <= |packet.remainingData|
              && var body := packet.remainingData[..packet.remainingLength];
                 || (packet.kind in {0x40, 0x50, 0x62, 0x70} && PubAckBody(body, info, requestProblemInfo))
                 || (packet.kind in {0x90, 0xB0} && SubAckBody(body, info))
                 || (packet.kind == 0xD0 && body == [] && info == AckInfo(None, [], []))
    ensures DeserializeAck(packet, maxPacketSize, requestProblemInfo) == Err(Refusal.BadParameter) <==>
              packet.kind == 0x20 || maxPacketSize == 0
  {
    hide PubAck, SubAck, PubAckBody, SubAckBody, PacketSize;
    PubAckExact(packet, requestProblemInfo, info);
    SubAckTiles(packet, info);
  }

  /** For every type, a claim longer than the bytes present is refused. */
  lemma OverclaimIsRefused(packet: PacketInfo, maxPacketSize: u32, requestProblemInfo: bool)
    requires packet.remainingLength > |packet.remainingData|
    ensures DeserializeAck(packet, maxPacketSize, requestProblemInfo).Err?
  {
    hide WalkFrom, DecodeVar;
  }
}
