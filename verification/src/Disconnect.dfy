/** The DISCONNECT, the one packet either end may send: two directions, two tables, one layout. */
module Disconnect {
  import opened Bytes
  import opened Header
  import opened Walks
  import opened Packet
  import opened Wire

  /** `reason_code_allowed`: the one table whose answer depends on the direction. */
  predicate ReasonCodeAllowed(code: byte, incoming: bool) {
    if code == 0x04 then !incoming
    else if code in {0x00, 0x80, 0x81, 0x82, 0x83, 0x90, 0x93, 0x94, 0x95, 0x96, 0x97, 0x98, 0x99} then true
    else incoming && code in {0x87, 0x89, 0x8B, 0x8C, 0x8D, 0x8E, 0x8F, 0x9A, 0x9B, 0x9C, 0x9D, 0x9E, 0xA0, 0xA1, 0xA2}
  }

  const MALFORMED_PACKET: byte := 0x81

  function DisconnectPacket(code: Option<byte>, remaining: u32, properties: seq<byte>): seq<byte> {
    DisconnectHeader(code, remaining) + Section(properties)
  }

  datatype DisconnectSize = DisconnectSize(remainingLength: u32, packetSize: u32)

  /** `disconnect_packet_size`. A bare DISCONNECT is still charged for its property length. */
  function DisconnectPacketSize(code: Option<byte>, propertyLength: u32, maxPacketSize: u32)
    : Result<DisconnectSize, WireError>
  {
    if (code.None? && propertyLength != 0) || maxPacketSize == 0 then Err(WireError.BadParameter)
    else if code.Some? && !ReasonCodeAllowed(code.value, false) then Err(WireError.BadParameter)
    else if propertyLength >= REMAINING_LENGTH_INVALID then Err(WireError.BadParameter)
    else
      var length := if code.Some? then 1 else 0;
      var encoded := SizeVar(propertyLength);
      if SaturatingAdd(SaturatingAdd(propertyLength, encoded), length) >= REMAINING_LENGTH_INVALID
      then Err(WireError.BadParameter)
      else
        var remaining := SaturatingAdd(SaturatingAdd(length, encoded), propertyLength);
        if PacketSize(remaining) > maxPacketSize then Err(WireError.BadParameter)
        else Ok(DisconnectSize(remaining, PacketSize(remaining)))
  }

  /** What the calculator accepts: a legal body that the server takes, with a code the client may send. */
  lemma SizeAcceptsWhatFits(code: Option<byte>, propertyLength: u32, maxPacketSize: u32)
    ensures var remaining := (if code.Some? then 1 else 0) + SizeVar(propertyLength) + propertyLength;
            DisconnectPacketSize(code, propertyLength, maxPacketSize).Ok? <==>
              && (code.None? ==> propertyLength == 0) && (code.Some? ==> ReasonCodeAllowed(code.value, false))
              && maxPacketSize != 0 && remaining <= MAX_REMAINING_LENGTH && PacketSize(remaining) <= maxPacketSize
    ensures DisconnectPacketSize(code, propertyLength, maxPacketSize).Err? ==>
              DisconnectPacketSize(code, propertyLength, maxPacketSize) == Err(WireError.BadParameter)
  {
    hide ReasonCodeAllowed;
  }

  /** What the calculator accepts, both its numbers are true of the packet. */
  lemma SizeIsTrue(code: Option<byte>, properties: seq<byte>, maxPacketSize: u32)
    requires |properties| <= U32_MAX && DisconnectPacketSize(code, |properties|, maxPacketSize).Ok?
    ensures var size := DisconnectPacketSize(code, |properties|, maxPacketSize).value;
            && size.remainingLength == (if code.Some? then 1 else 0) + |Section(properties)| <= MAX_REMAINING_LENGTH
            && size.packetSize == |DisconnectPacket(code, size.remainingLength, properties)|
  {
    hide EncodeVar, SizeVar, ReasonCodeAllowed;
    SizeVarIsLength(|properties|);
    SizeVarIsLength(DisconnectPacketSize(code, |properties|, maxPacketSize).value.remainingLength);
  }

  /**
   * `serialize_disconnect`: it succeeds exactly when the arguments agree with each other and both the claimed size
   * and the bytes fit; then the packet stands at the front of the buffer and nothing after it has changed. Arguments
   * that are wrong whatever the buffer are refused before anything is written.
   */
  method SerializeDisconnect(dest: array<byte>, code: Option<byte>, properties: seq<byte>, remaining: u32)
    returns (r: Result<nat, WireError>)
    modifies dest
    ensures r.Ok? <==> && |properties| <= MAX_REMAINING_LENGTH && remaining <= MAX_REMAINING_LENGTH
                       && (code.None? ==> properties == []) && PacketSize(remaining) <= dest.Length
                       && |DisconnectPacket(code, remaining, properties)| <= dest.Length
    ensures r.Ok? ==> r.value == |DisconnectPacket(code, remaining, properties)|
                      && dest[..] == Splice(old(dest[..]), 0, DisconnectPacket(code, remaining, properties))
    ensures var wrong := |properties| > MAX_REMAINING_LENGTH || (code.None? && properties != [])
                         || remaining > MAX_REMAINING_LENGTH;
            && (wrong ==> r == Err(WireError.BadParameter) && dest[..] == old(dest[..]))
            && (!wrong && r.Err? ==> r == Err(WireError.NoMemory))
  {
    hide EncodeVar, Section, DisconnectHeader, Splice;
    if |properties| > U32_MAX || |properties| >= REMAINING_LENGTH_INVALID || (code.None? && properties != []) {
      return Err(WireError.BadParameter);
    }
    if remaining >= REMAINING_LENGTH_INVALID {
      return Err(WireError.BadParameter);
    }
    if dest.Length < PacketSize(remaining) {
      return Err(WireError.NoMemory);
    }
    ghost var before := dest[..];
    HeaderLength(code, remaining);
    var written := SerializeDisconnectFixed(dest, code, remaining);
    if written == 0 {
      return Err(WireError.NoMemory);
    }
    r := PutSection(dest, before, DisconnectHeader(code, remaining), written, properties);
  }

  lemma HeaderLength(code: Option<byte>, remaining: u32)
    requires remaining <= MAX_REMAINING_LENGTH
    ensures |DisconnectHeader(code, remaining)| == 1 + SizeVar(remaining) + (if code.Some? then 1 else 0)
  {
    hide EncodeVar;
    SizeVarIsLength(remaining);
  }

  /** The slices the client offers its transport instead of copying. */
  function DisconnectVectors(code: Option<byte>, remaining: u32, properties: seq<byte>): seq<seq<byte>> {
    [DisconnectHeader(code, remaining), EncodeVar(|properties|)] + (if properties == [] then [] else [properties])
  }

  /** The gathered form is the buffered form. */
  lemma VectorsArePacket(code: Option<byte>, remaining: u32, properties: seq<byte>)
    ensures Flatten(DisconnectVectors(code, remaining, properties)) == DisconnectPacket(code, remaining, properties)
  {
    hide EncodeVar, DisconnectHeader;
    var a, b := DisconnectHeader(code, remaining), EncodeVar(|properties|);
    var v := DisconnectVectors(code, remaining, properties);
    assert v[1..][1..] == if properties == [] then [] else [properties];
    assert Flatten(v[1..][1..]) == properties by {
      if properties != [] {
        assert Flatten([properties]) == properties + Flatten([properties][1..]);
      }
    }
    assert Flatten(v) == a + (b + properties);
  }

  // ---- reading ------------------------------------------------------------------

  datatype Incoming = Incoming(reasonCode: Option<byte>, properties: seq<byte>)

  /** `deserialize_disconnect`. */
  function DeserializeDisconnect(packet: PacketInfo, maxPacketSize: u32): Result<Incoming, Refusal> {
    var n, data := packet.remainingLength, packet.remainingData;
    if maxPacketSize == 0 then Err(Refusal.BadParameter)
    else if n >= REMAINING_LENGTH_INVALID || PacketSize(n) > maxPacketSize then Err(BadResponse)
    else if n == 0 then Ok(Incoming(None, []))
    else if |data| < 1 || !ReasonCodeAllowed(data[0], true) then Err(BadResponse)
    else if n == 1 then Ok(Incoming(Some(data[0]), []))
    else match Bounded(data, 1, n - 1)
         case None => Err(BadResponse)
         case Some(after) =>
           match DecodeVar(after)
           case None => Err(BadResponse)
           case Some(length) =>
             if n != length + SizeVar(length) + 1 then Err(BadResponse)
             else match Bounded(after, SizeVar(length), length)
                  case None => Err(BadResponse)
                  case Some(properties) =>
                    match WalkSection(IncomingDisconnect, properties)
                    case Refused(why) => Err(why)
                    case Accepted(_) => Ok(Incoming(Some(data[0]), properties))
  }

  /** The three forms of a body: nothing at all, a code alone, or a code and a section. */
  predicate DisconnectBody(body: seq<byte>, incoming: Incoming) {
    if incoming.reasonCode.None? then body == [] && incoming.properties == []
    else
      && ReasonCodeAllowed(incoming.reasonCode.value, true)
      && ((incoming.properties == [] && body == [incoming.reasonCode.value])
          || (&& |incoming.properties| <= MAX_REMAINING_LENGTH
              && WalkSection(IncomingDisconnect, incoming.properties).Accepted?
              && body == [incoming.reasonCode.value] + Section(incoming.properties)))
  }

  /**
   * A DISCONNECT is read as these parts if and only if it is small enough and its claimed body, present in full, is
   * those parts; and the caller is blamed only for a limit of zero.
   */
  lemma DisconnectExact(packet: PacketInfo, maxPacketSize: u32, incoming: Incoming)
    ensures DeserializeDisconnect(packet, maxPacketSize) == Ok(incoming) <==>
              && maxPacketSize != 0 && packet.remainingLength <= MAX_REMAINING_LENGTH
              && PacketSize(packet.remainingLength) <= maxPacketSize
              && packet.remainingLength <= |packet.remainingData|
              && DisconnectBody(packet.remainingData[..packet.remainingLength], incoming)
    ensures DeserializeDisconnect(packet, maxPacketSize) == Err(Refusal.BadParameter) <==> maxPacketSize == 0
  {
    hide WalkFrom, EncodeVar, DecodeVar, ReasonCodeAllowed, PacketSize;
    var n, data := packet.remainingLength, packet.remainingData;
    if DeserializeDisconnect(packet, maxPacketSize).Ok? {
      DisconnectTiles(packet, maxPacketSize);
    }
    if n <= |data| && maxPacketSize != 0 && n <= MAX_REMAINING_LENGTH && PacketSize(n) <= maxPacketSize
       && DisconnectBody(data[..n], incoming) {
      DisconnectTaken(packet, maxPacketSize, incoming);
    }
    if DeserializeDisconnect(packet, maxPacketSize) == Err(Refusal.BadParameter) && maxPacketSize != 0 {
      assert n > 1 && PacketSize(n) <= maxPacketSize;
      var after := Bounded(data, 1, n - 1).value;
      RefusalIsBadResponse(Bounded(after, SizeVar(DecodeVar(after).value), DecodeVar(after).value).value);
    }
  }

  lemma DisconnectTiles(packet: PacketInfo, maxPacketSize: u32)
    requires DeserializeDisconnect(packet, maxPacketSize).Ok?
    ensures packet.remainingLength <= |packet.remainingData|
    ensures DisconnectBody(packet.remainingData[..packet.remainingLength],
                           DeserializeDisconnect(packet, maxPacketSize).value)
  {
    hide WalkFrom, WalkSection, EncodeVar, DecodeVar, ReasonCodeAllowed, PacketSize, Section, SizeVar;
    var n, data := packet.remainingLength, packet.remainingData;
    if n > 1 {
      var length := DecodeVar(data[1..n]).value;
      SectionIsTheRest(data[1..n], length);
      assert data[..n] == [data[0]] + data[1..n];
    } else if n == 1 {
      assert data[..1] == [data[0]];
    }
  }

  lemma DisconnectTaken(packet: PacketInfo, maxPacketSize: u32, incoming: Incoming)
    requires packet.remainingLength <= |packet.remainingData| && packet.remainingLength <= MAX_REMAINING_LENGTH
    requires maxPacketSize != 0 && PacketSize(packet.remainingLength) <= maxPacketSize
    requires DisconnectBody(packet.remainingData[..packet.remainingLength], incoming)
    ensures DeserializeDisconnect(packet, maxPacketSize) == Ok(incoming)
  {
    hide WalkFrom, EncodeVar, DecodeVar, ReasonCodeAllowed, PacketSize;
    var n, data := packet.remainingLength, packet.remainingData;
    if n > 0 {
      assert data[..n][0] == data[0];
    }
    if n > 1 {
      var after, properties := data[1..n], incoming.properties;
      assert after == data[..n][1..] == Section(properties);
      DecodeVarExact(after, |properties|);
      SizeVarIsLength(|properties|);
      assert after[SizeVar(|properties|)..SizeVar(|properties|) + |properties|] == properties;
    }
  }

  /**
   * What the calculator accepted and the serializer wrote, read back through the header decoder. The bare form
   * returns as reason code zero. A form with a code returns exactly when the code is one a server may send and
   * the section is one the incoming walk accepts.
   */
  lemma DisconnectRoundTrip(code: Option<byte>, properties: seq<byte>, rest: seq<byte>, sendMax: u32, receiveMax: u32)
    requires |properties| <= U32_MAX && DisconnectPacketSize(code, |properties|, sendMax).Ok?
    requires DisconnectPacketSize(code, |properties|, sendMax).value.packetSize <= receiveMax
    ensures var size := DisconnectPacketSize(code, |properties|, sendMax).value;
            var s := DisconnectPacket(code, size.remainingLength, properties) + rest;
            var h := DecodeHeader(s);
            && h.Header? && h.kind == DISCONNECT && h.remaining == size.remainingLength
            && h.width + h.remaining == size.packetSize
            && DeserializeDisconnect(PacketInfo(DISCONNECT, h.remaining, s[h.width..]), receiveMax)
               == (if code.None? then Ok(Incoming(Some(0), []))
                   else if ReasonCodeAllowed(code.value, true) && WalkSection(IncomingDisconnect, properties).Accepted?
                   then Ok(Incoming(code, properties))
                   else Err(BadResponse))
  {
    hide EncodeVar, WalkFrom, ReasonCodeAllowed, DecodeHeader, DeserializeDisconnect, DisconnectPacketSize;
    SizeIsTrue(code, properties, sendMax);
    var size := DisconnectPacketSize(code, |properties|, sendMax).value;
    var n := size.remainingLength;
    var body := (if code.Some? then [code.value] else []) + Section(properties);
    var s := DisconnectPacket(code, n, properties) + rest;
    assert IncomingPacketValid(DISCONNECT);
    assert s == [DISCONNECT] + EncodeVar(n) + (body + rest);
    WrittenHeader(DISCONNECT, n, body + rest);
    assert s[1 + |EncodeVar(n)|..] == body + rest;
    BodyReadsBack(code, properties, rest, sendMax, receiveMax);
  }

  lemma BodyReadsBack(code: Option<byte>, properties: seq<byte>, rest: seq<byte>, sendMax: u32, receiveMax: u32)
    requires |properties| <= U32_MAX && DisconnectPacketSize(code, |properties|, sendMax).Ok?
    requires DisconnectPacketSize(code, |properties|, sendMax).value.packetSize <= receiveMax
    ensures var n := DisconnectPacketSize(code, |properties|, sendMax).value.remainingLength;
            var body := (if code.Some? then [code.value] else []) + Section(properties);
            DeserializeDisconnect(PacketInfo(DISCONNECT, n, body + rest), receiveMax)
            == (if code.None? then Ok(Incoming(Some(0), []))
                else if ReasonCodeAllowed(code.value, true) && WalkSection(IncomingDisconnect, properties).Accepted?
                then Ok(Incoming(code, properties))
                else Err(BadResponse))
  {
    hide EncodeVar, DecodeVar, WalkFrom;
    SizeIsTrue(code, properties, sendMax);
    var body := (if code.Some? then [code.value] else []) + Section(properties);
    var data := body + rest;
    SizeVarIsLength(|properties|);
    if code.None? {
      assert Section(properties) == [0] by { EmptySection(); }
      assert data[0] == 0;
    } else {
      RefusalIsBadResponse(properties);
      var after := data[1..1 + |Section(properties)|];
      assert after == Section(properties);
      DecodeVarExact(after, |properties|);
      assert after[SizeVar(|properties|)..SizeVar(|properties|) + |properties|] == properties;
    }
  }

  lemma EmptySection()
    ensures Section([]) == [0]
  {
  }

  /** The incoming walk has one refusal status. */
  lemma RefusalIsBadResponse(s: seq<byte>)
    ensures WalkSection(IncomingDisconnect, s).Accepted? || WalkSection(IncomingDisconnect, s) == Refused(BadResponse)
  {
    hide WalkFrom;
    BrokersWalk(IncomingDisconnect, s, {});
    var walk := WalkSection(IncomingDisconnect, s);
    assert walk.Refused? ==> walk.why == BadResponse;
  }
}
