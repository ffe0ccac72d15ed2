/** The outgoing PUBLISH: its size, its buffered form, the slices it is gathered from, and the copy that is stored. */
module Publishing {
  import opened Bytes
  import opened Header
  import opened Packet
  import opened Wire
  import opened Connect
  import opened Link
  import opened Client
  import opened Gather
  import opened Received
  import opened Replies

  datatype OutgoingPublish = OutgoingPublish(
    qos: QoS, dup: bool, retain: bool, topicName: seq<byte>, payload: seq<byte>, properties: seq<byte>)

  /** `publish_flags`. */
  function PublishFlags(p: OutgoingPublish): byte {
    PUBLISH + (match p.qos case AtMostOnce => 0 case AtLeastOnce => 2 case ExactlyOnce => 4)
    + (if p.retain then 1 else 0) + (if p.dup then 8 else 0)
  }

  /** The identifier is there exactly when the level wants an acknowledgement. */
  function IdBytes(p: OutgoingPublish, packetId: u16): seq<byte> {
    if p.qos == AtMostOnce then [] else Be16(packetId)
  }

  function PublishBody(p: OutgoingPublish, packetId: u16): seq<byte>
    requires |p.topicName| <= 0xFFFF
  {
    Str(p.topicName) + IdBytes(p, packetId) + Section(p.properties) + p.payload
  }

  function PublishPacket(p: OutgoingPublish, packetId: u16): seq<byte>
    requires |p.topicName| <= 0xFFFF
  {
    [PublishFlags(p)] + EncodeVar(|PublishBody(p, packetId)|) + PublishBody(p, packetId)
  }

  // ---- the size calculator --------------------------------------------------------------

  /** `publish_packet_size`: the remaining length, counted against a shrinking budget. */
  function PublishRemaining(p: OutgoingPublish, maxPacketSize: u32): Option<u32> {
    if |p.properties| > MAX_REMAINING_LENGTH || |p.topicName| > 0xFFFF || |p.payload| >= REMAINING_LENGTH_INVALID
        then None
    else
      var front := |p.topicName| + 2 + (if p.qos == AtMostOnce then 0 else 2) + SizeVar(|p.properties|);
      var budget := MAX_REMAINING_LENGTH - front;
      if |p.properties| > budget || |p.payload| > budget - |p.properties| then None
      else
        var remaining := front + |p.properties| + |p.payload|;
        if PacketSize(remaining) > maxPacketSize then None else Some(remaining)
  }

  /** It accepts exactly the packets that are legal and small enough, and its number is the body's length. */
  lemma PublishSizeIsExact(p: OutgoingPublish, packetId: u16, maxPacketSize: u32)
    ensures PublishRemaining(p, maxPacketSize).Some? <==>
              && |p.topicName| <= 0xFFFF
              && |PublishBody(p, packetId)| <= MAX_REMAINING_LENGTH && |PublishPacket(p, packetId)| <= maxPacketSize
    ensures PublishRemaining(p, maxPacketSize).Some? ==>
              PublishRemaining(p, maxPacketSize).value == |PublishBody(p, packetId)|
  {
    hide EncodeVar, SizeVar, Str;
    if |p.topicName| <= 0xFFFF {
      var n := |PublishBody(p, packetId)|;
      if |p.properties| <= MAX_REMAINING_LENGTH {
        SizeVarIsLength(|p.properties|);
      }
      if n <= MAX_REMAINING_LENGTH {
        SizeVarIsLength(n);
      }
    }
  }

  // ---- the packet read back -------------------------------------------------------------

  /** A PUBLISH read the way section 3.3 of MQTT Version 5.0 lays it out. */
  function DecodePublish(s: seq<byte>): Option<(OutgoingPublish, u16)> {
    match DecodeHeader(s)
    case Header(kind, remaining, width) =>
      if kind / 16 != 3 || kind / 2 % 4 == 3 || width + remaining != |s| then None
      else
        var qos := if kind / 2 % 4 == 0 then AtMostOnce else if kind / 2 % 4 == 1 then AtLeastOnce else ExactlyOnce;
        (match TakeString(s[width..])
         case None => None
         case Some((topic, afterTopic)) =>
           if qos != AtMostOnce && |afterTopic| < 2 then None
           else
             var id := if qos == AtMostOnce then 0 else Read16(afterTopic);
             match TakeSection(if qos == AtMostOnce then afterTopic else afterTopic[2..])
             case None => None
             case Some((properties, payload)) =>
               Some((OutgoingPublish(qos, kind / 8 % 2 == 1, kind % 2 == 1, topic, payload, properties), id)))
    case _ => None
  }

  lemma FlagsReadBack(p: OutgoingPublish)
    ensures var k := PublishFlags(p);
            && IncomingPacketValid(k) && k / 16 == 3
            && k / 2 % 4 == (match p.qos case AtMostOnce => 0 case AtLeastOnce => 1 case ExactlyOnce => 2)
            && (k / 8 % 2 == 1 <==> p.dup) && (k % 2 == 1 <==> p.retain)
  {
  }

  /** Every field comes back, the empty ones too; at level zero there is no identifier to come back. */
  lemma PublishRoundTrip(p: OutgoingPublish, packetId: u16)
    requires |p.topicName| <= 0xFFFF && |PublishBody(p, packetId)| <= MAX_REMAINING_LENGTH
    ensures DecodePublish(PublishPacket(p, packetId)) == Some((p, if p.qos == AtMostOnce then 0 else packetId))
  {
    hide EncodeVar, DecodeHeader, TakeString, TakeSection, Str, Section, PublishFlags, IncomingPacketValid, Be16;
    hide Read16;
    var body := PublishBody(p, packetId);
    var afterId := Section(p.properties) + p.payload;
    var afterTopic := IdBytes(p, packetId) + afterId;
    FlagsReadBack(p);
    FourPieces(Str(p.topicName), IdBytes(p, packetId), Section(p.properties), p.payload);
    WrittenHeader(PublishFlags(p), |body|, body);
    assert PublishPacket(p, packetId)[1 + |EncodeVar(|body|)|..] == body;
    TakeStringOfStr(p.topicName, afterTopic);
    if p.qos == AtMostOnce {
      assert afterTopic == afterId;
    } else {
      Read16OfBe16(packetId, afterId);
    }
    SectionWithin(p, packetId);
    TakeSectionOfSection(p.properties, p.payload);
  }

  lemma FourPieces(a: seq<byte>, b: seq<byte>, c: seq<byte>, d: seq<byte>)
    ensures a + b + c + d == a + (b + (c + d)) && [] + (c + d) == c + d
  {
  }

  lemma SectionWithin(p: OutgoingPublish, packetId: u16)
    requires |p.topicName| <= 0xFFFF && |PublishBody(p, packetId)| <= MAX_REMAINING_LENGTH
    ensures |p.properties| <= MAX_REMAINING_LENGTH
  {
    hide EncodeVar;
  }

  // ---- and by this library --------------------------------------------------------------

  /** The packet as the library's own reader should report it. */
  function Arriving(p: OutgoingPublish, packetId: u16): PublishInfo {
    PublishInfo(p.qos, p.dup, p.retain, if p.qos == AtMostOnce then None else Some(packetId), p.topicName, p.properties,
                p.payload)
  }

  /**
   * What the library sends, the library reads, whatever follows it on the wire: exactly those packets that a
   * broker may send to this client, and each as it is.
   */
  lemma PublishComesBack(p: OutgoingPublish, packetId: u16, rest: seq<byte>, receiveMax: u32, topicAliasMax: u16)
    requires |p.topicName| <= 0xFFFF && |PublishBody(p, packetId)| <= MAX_REMAINING_LENGTH
    requires |PublishPacket(p, packetId)| <= receiveMax
    ensures var s := PublishPacket(p, packetId) + rest;
            var h := DecodeHeader(s);
            && h.Header? && h.width + h.remaining == |PublishPacket(p, packetId)|
            && var read := DeserializePublish(PacketInfo(h.kind, h.remaining, s[h.width..]), receiveMax, topicAliasMax);
               && (read.Ok? <==> Acceptable(Arriving(p, packetId), topicAliasMax))
               && (read.Ok? ==> read.value == Arriving(p, packetId))
  {
    hide EncodeVar, DecodeHeader, DeserializePublish, PublishFlags, FlagsOf, PublishBody, BodyOf, IncomingPacketValid;
    var body, info := PublishBody(p, packetId), Arriving(p, packetId);
    var s := PublishPacket(p, packetId) + rest;
    FlagsReadBack(p);
    SameLayout(p, packetId);
    assert s == [PublishFlags(p)] + EncodeVar(|body|) + (body + rest);
    WrittenHeader(PublishFlags(p), |body|, body + rest);
    SizeVarIsLength(|body|);
    assert s[1 + |EncodeVar(|body|)|..] == body + rest;
    var packet := PacketInfo(PublishFlags(p), |body|, body + rest);
    assert (body + rest)[..|body|] == body;
    PublishExact(packet, receiveMax, topicAliasMax, info);
    if DeserializePublish(packet, receiveMax, topicAliasMax).Ok? {
      var read := DeserializePublish(packet, receiveMax, topicAliasMax).value;
      PublishExact(packet, receiveMax, topicAliasMax, read);
      OneReading(p, packetId, read);
    }
  }

  /** No two publishes have one form. */
  lemma OneReading(p: OutgoingPublish, packetId: u16, read: PublishInfo)
    requires |p.topicName| <= 0xFFFF && |PublishBody(p, packetId)| <= MAX_REMAINING_LENGTH
    requires |read.topicName| <= 0xFFFF && (read.packetId.Some? <==> read.qos != AtMostOnce)
    requires FlagsOf(read) == PublishFlags(p) && BodyOf(read) == PublishBody(p, packetId)
    ensures read == Arriving(p, packetId)
  {
    hide PublishFlags, FlagsOf, PublishBody, BodyOf, DecodePublish, EncodeVar;
    var q := OutgoingPublish(read.qos, read.dup, read.retain, read.topicName, read.payload, read.properties);
    var id := if read.packetId.Some? then read.packetId.value else 0;
    assert Arriving(q, id) == read;
    SameLayout(q, id);
    PublishRoundTrip(p, packetId);
    PublishRoundTrip(q, id);
  }

  /** The layout the sender builds is the one the reader takes apart. */
  lemma SameLayout(p: OutgoingPublish, packetId: u16)
    requires |p.topicName| <= 0xFFFF
    ensures PublishFlags(p) == FlagsOf(Arriving(p, packetId))
    ensures PublishBody(p, packetId) == BodyOf(Arriving(p, packetId))
  {
    hide Str, Section, Be16;
    FourPieces(Str(p.topicName), IdBytes(p, packetId), Section(p.properties), p.payload);
  }

  // ---- the slices -----------------------------------------------------------------------

  /** The header with the topic's length in it and the topic not: the one slice that is written rather than borrowed. */
  function PublishHead(p: OutgoingPublish, remaining: nat): seq<byte>
    requires |p.topicName| <= 0xFFFF
  {
    [PublishFlags(p)] + EncodeVar(remaining) + Be16(|p.topicName|)
  }

  /** `serialize_publish_header_without_topic`, whose caller has bounded both lengths. */
  method SerializePublishHeader(dest: array<byte>, p: OutgoingPublish, remaining: u32) returns (written: Option<nat>)
    requires |p.topicName| <= 0xFFFF && remaining <= MAX_REMAINING_LENGTH
    modifies dest
    ensures written.Some? <==> |PublishHead(p, remaining)| <= dest.Length
    ensures written.Some? ==> written.value == |PublishHead(p, remaining)|
                              && dest[..] == Splice(old(dest[..]), 0, PublishHead(p, remaining))
  {
    hide EncodeVar, PublishFlags, Splice;
    SizeVarIsLength(remaining);
    var length := 1 + SizeVar(remaining) + 2;
    if dest.Length < length {
      return None;
    }
    var encoded := WriteFront(dest, PublishFlags(p), remaining);
    Continue(dest, old(dest[..]), 0, [PublishFlags(p)] + EncodeVar(remaining), 1 + encoded, Be16(|p.topicName|));
    return Some(length);
  }

  /** `update_duplicate_flag`, raising the bit. */
  function RaiseDup(header: byte): byte
    requires header / 16 == 3
  {
    if header / 8 % 2 == 1 then header else header + 8
  }

  lemma RaisedIsDup(p: OutgoingPublish)
    ensures PublishFlags(p) / 16 == 3 && RaiseDup(PublishFlags(p)) == PublishFlags(p.(dup := true))
  {
  }

  /** A slice that is there only sometimes. */
  function If(present: bool, slice: seq<byte>): (r: seq<seq<byte>>)
    ensures |r| <= 1
  {
    if present then [slice] else []
  }

  function PublishParts(head: seq<byte>, p: OutgoingPublish, packetId: u16): (r: seq<seq<byte>>)
    ensures 3 <= |r| <= 6 && r[0] == head
  {
    [head, p.topicName] + If(p.qos != AtMostOnce, Be16(packetId)) + [EncodeVar(|p.properties|)]
    + If(p.properties != [], p.properties) + If(p.payload != [], p.payload)
  }

  lemma PartsArePacket(p: OutgoingPublish, packetId: u16)
    requires |p.topicName| <= 0xFFFF
    ensures Flatten(PublishParts(PublishHead(p, |PublishBody(p, packetId)|), p, packetId)) == PublishPacket(p, packetId)
  {
    hide EncodeVar, PublishFlags, Be16, Flatten;
    var n := |PublishBody(p, packetId)|;
    var head := PublishHead(p, n);
    var id := If(p.qos != AtMostOnce, Be16(packetId));
    var e := EncodeVar(|p.properties|);
    var props := If(p.properties != [], p.properties);
    var load := If(p.payload != [], p.payload);
    FlattenAppend([head, p.topicName] + id + [e] + props, load);
    FlattenAppend([head, p.topicName] + id + [e], props);
    FlattenAppend([head, p.topicName] + id, [e]);
    FlattenAppend([head, p.topicName], id);
    FlattenAppend([head], [p.topicName]);
    assert [head] + [p.topicName] == [head, p.topicName];
    OneSlice(head);
    OneSlice(p.topicName);
    OneSlice(Be16(packetId));
    OneSlice(e);
    OneSlice(p.properties);
    OneSlice(p.payload);
    NoSlices();
    Regroup([PublishFlags(p)] + EncodeVar(n), Be16(|p.topicName|), p.topicName, IdBytes(p, packetId), e, p.properties,
            p.payload);
  }

  lemma Regroup(front: seq<byte>, a: seq<byte>, b: seq<byte>, c: seq<byte>, d: seq<byte>, e: seq<byte>, f: seq<byte>)
    ensures front + a + b + c + d + e + f == front + (a + b + c + (d + e) + f)
  {
  }

  method PlaceIf(parts: array<seq<byte>>, count: nat, present: bool, slice: seq<byte>, ghost done: seq<seq<byte>>)
    returns (nowCount: nat, ghost nowDone: seq<seq<byte>>)
    requires count == |done| < parts.Length && parts[..count] == done
    modifies parts
    ensures nowDone == done + If(present, slice) && nowCount == |nowDone| <= count + 1 && parts[..nowCount] == nowDone
  {
    nowCount, nowDone := count, done + If(present, slice);
    if present {
      var _, c := Place(parts, 0, count, slice, done);
      nowCount := c;
    }
  }

  /** The slices are laid out in an array of six, which is never too small. */
  method GatherParts(head: seq<byte>, p: OutgoingPublish, packetId: u16, prefix: seq<byte>)
    returns (gather: array<seq<byte>>, total: nat)
    requires prefix == EncodeVar(|p.properties|)
    ensures fresh(gather) && gather[..] == PublishParts(head, p, packetId)
    ensures total == |Flatten(PublishParts(head, p, packetId))|
  {
    hide EncodeVar, Be16, Flatten, If;
    var parts := new seq<byte>[6];
    var count, done := PlaceIf(parts, 0, true, head, []);
    count, done := PlaceIf(parts, count, true, p.topicName, done);
    count, done := PlaceIf(parts, count, p.qos != AtMostOnce, Be16(packetId), done);
    count, done := PlaceIf(parts, count, true, prefix, done);
    count, done := PlaceIf(parts, count, p.properties != [], p.properties, done);
    count, done := PlaceIf(parts, count, p.payload != [], p.payload, done);
    assert done == PublishParts(head, p, packetId) by {
      Always(head);
      Always(p.topicName);
      Always(prefix);
      assert [] + [head] + [p.topicName] == [head, p.topicName];
    }
    gather := new seq<byte>[count](i requires 0 <= i < count <= parts.Length reads parts => parts[i]);
    assert gather[..] == parts[..count];
    total := TotalLength(gather);
  }

  lemma Always(slice: seq<byte>)
    ensures If(true, slice) == [slice]
  {
  }

  // ---- sending and storing --------------------------------------------------------------

  /** Everything that refuses a PUBLISH before anything is stored or sent; `valid` is the validators' answer. */
  function PublishRefusal(valid: bool, p: OutgoingPublish, max: u32, status: Option<ClientError>, reserved: bool)
    : Option<ClientError>
  {
    if !valid || PublishRemaining(p, max).None? then Some(ClientError.BadParameter)
    else if status.Some? then status
    else if p.qos != AtMostOnce && !reserved then Some(ClientError.StateError)
    else None
  }

  /** The stored copy and the sent packet are the same bytes but for one bit of the first. */
  lemma CopiesDifferByDup(p: OutgoingPublish, packetId: u16)
    requires |p.topicName| <= 0xFFFF
    ensures var sent, stored := PublishPacket(p, packetId), PublishPacket(p.(dup := true), packetId);
            && |sent| == |stored| && sent[1..] == stored[1..] && stored[0] == RaiseDup(sent[0])
            && (sent == stored <==> p.dup)
  {
    hide EncodeVar, Str, Section;
    var q := p.(dup := true);
    RaisedIsDup(p);
    assert PublishBody(q, packetId) == PublishBody(p, packetId);
    var rest := EncodeVar(|PublishBody(p, packetId)|) + PublishBody(p, packetId);
    assert PublishPacket(p, packetId) == [PublishFlags(p)] + rest
        && PublishPacket(q, packetId) == [PublishFlags(q)] + rest;
  }

  /** What `publish` refuses before anything is stored or sent, and with which status, in this order. */
  lemma RefusedPublishes(valid: bool, p: OutgoingPublish, packetId: u16, max: u32, status: ConnectionStatus,
                         reserved: bool)
    ensures var sayable := && valid && |p.topicName| <= 0xFFFF && |PublishBody(p, packetId)| <= MAX_REMAINING_LENGTH
                           && |PublishPacket(p, packetId)| <= max;
            PublishRefusal(valid, p, max, RefusalOf(status), reserved)
            == if !sayable then Some(ClientError.BadParameter)
               else if status == ConnectionStatus.NotConnected then Some(ClientError.NotConnected)
               else if status == ConnectionStatus.DisconnectPending then Some(ClientError.DisconnectPending)
               else if p.qos != AtMostOnce && !reserved then Some(ClientError.StateError)
               else None
  {
    hide PublishRemaining, PublishPacket, PublishBody;
    PublishSizeIsExact(p, packetId, max);
  }

  /** Raising the bit in the header's first byte makes the header of the packet with the bit raised. */
  lemma RaisedHead(p: OutgoingPublish, remaining: u32)
    requires |p.topicName| <= 0xFFFF
    ensures var head, raised := PublishHead(p, remaining), PublishHead(p.(dup := true), remaining);
            && head != [] && head[0] / 16 == 3 && raised == head[0 := RaiseDup(head[0])] && (p.dup ==> raised == head)
  {
    hide EncodeVar, PublishFlags, RaiseDup;
    RaisedIsDup(p);
    var rest := EncodeVar(remaining) + Be16(|p.topicName|);
    assert PublishHead(p, remaining) == [PublishFlags(p)] + rest;
    assert PublishHead(p.(dup := true), remaining) == [PublishFlags(p.(dup := true))] + rest;
    assert p.dup ==> p.(dup := true) == p;
  }

  /** The two headers: the one that goes out, and the one the store is shown. */
  method PublishHeads(p: OutgoingPublish, remaining: u32) returns (head: seq<byte>, dupHead: seq<byte>)
    requires |p.topicName| <= 0xFFFF && remaining <= MAX_REMAINING_LENGTH
    ensures head == PublishHead(p, remaining) && dupHead == PublishHead(p.(dup := true), remaining)
  {
    hide PublishHead, RaiseDup;
    var buffer := new byte[7];
    HeadFits(p, remaining);
    var written := SerializePublishHeader(buffer, p, remaining);
    head := buffer[..written.value];
    assert head == PublishHead(p, remaining);
    RaisedHead(p, remaining);
    dupHead := if p.dup then head else head[0 := RaiseDup(head[0])];
  }

  lemma HeadFits(p: OutgoingPublish, remaining: u32)
    requires |p.topicName| <= 0xFFFF && remaining <= MAX_REMAINING_LENGTH
    ensures |PublishHead(p, remaining)| <= 7
  {
    hide EncodeVar, PublishFlags;
    SizeVarIsLength(remaining);
  }

  /**
   * `publish`. The copy is taken before the packet goes out, so a store that refuses leaves the wire untouched.
   * `reserved` and `recorded` are what the publish records answer before and after.
   */
  method Publish(context: MqttContext, transport: Transport, clock: Clock, app: App, p: OutgoingPublish, packetId: u16,
                 valid: bool, reserved: bool, hasStore: bool, stores: bool, recorded: bool)
    returns (r: Result<(), ClientError>, ghost sent: nat)
    requires Lively(transport, clock)
    modifies context`connectStatus, context`lastPacketTxTime, context`sentAt, transport, clock, app`kept
    ensures var refusal := PublishRefusal(valid, p, context.serverMaxPacketSize, old(context.StatusRefusal()),
                                          reserved);
            && (refusal.Some? ==> r == Err(refusal.value) && sent == 0 && transport.log == old(transport.log)
                                  && transport.offers == old(transport.offers) && app.kept == old(app.kept)
                                  && context.connectStatus == old(context.connectStatus))
            && (refusal.None? ==>
                  && |p.topicName| <= 0xFFFF
                  && var packet, kept := PublishPacket(p, packetId), p.qos != AtMostOnce && hasStore;
                     if kept && !stores
                     then r == Err(ClientError.PublishStoreFailed) && sent == 0 && transport.log == old(transport.log)
                          && app.kept == old(app.kept)
                     else
                       && sent <= |packet| && transport.log == old(transport.log) + packet[..sent]
                       && app.kept == old(app.kept) + (
                            if kept then [Copy(packetId, PublishPacket(p.(dup := true), packetId))] else [])
                       && r == (if sent < |packet| then Err(ClientError.SendFailed)
                                else if p.qos != AtMostOnce && !recorded then Err(ClientError.StateError) else Ok(())))
    ensures transport.receives == old(transport.receives)
    ensures old(context.Timed(clock)) ==> context.Timed(clock)
  {
    hide MqttContext.Timed;
    hide PublishRemaining, PublishPacket, PublishBody, PublishParts, PublishHead, Flatten, OfferedRest, EncodeVar;
    if !valid || PublishRemaining(p, context.serverMaxPacketSize).None? {
      return Err(ClientError.BadParameter), 0;
    }
    if context.StatusRefusal().Some? {
      return Err(context.StatusRefusal().value), 0;
    }
    if p.qos != AtMostOnce && !reserved {
      return Err(ClientError.StateError), 0;
    }
    var remaining := PublishRemaining(p, context.serverMaxPacketSize).value;
    PublishSizeIsExact(p, packetId, context.serverMaxPacketSize);
    SectionWithin(p, packetId);
    var head, dupHead := PublishHeads(p, remaining);
    SizeVarIsLength(|p.properties|);
    var field := new byte[4];
    var written := EncodeVariableLength(field, 0, |p.properties|);
    assert field[..written] == EncodeVar(|p.properties|);
    var gather, total := GatherParts(head, p, packetId, field[..written]);
    PartsArePacket(p, packetId);
    if p.qos != AtMostOnce && hasStore {
      StoredPartsArePacket(p, packetId, head, dupHead);
      var copy := gather[..][0 := dupHead];
      if !stores {
        return Err(ClientError.PublishStoreFailed), 0;
      }
      app.kept := app.kept + [Copy(packetId, Flatten(copy))];
    }
    var outcome, count, _ := context.SendVectors(transport, clock, gather);
    sent := count;
    if outcome != Delivered(total) {
      return Err(ClientError.SendFailed), sent;
    }
    if p.qos != AtMostOnce && !recorded {
      return Err(ClientError.StateError), sent;
    }
    return Ok(()), sent;
  }

  /** Swapping the first slice for the raised header makes the slices of the raised packet. */
  lemma StoredPartsArePacket(p: OutgoingPublish, packetId: u16, head: seq<byte>, dupHead: seq<byte>)
    requires |p.topicName| <= 0xFFFF
    requires dupHead == PublishHead(p.(dup := true), |PublishBody(p, packetId)|)
    ensures Flatten(PublishParts(head, p, packetId)[0 := dupHead]) == PublishPacket(p.(dup := true), packetId)
  {
    hide EncodeVar, Be16, PublishFlags, Flatten, PublishPacket, PublishHead;
    var q := p.(dup := true);
    assert PublishBody(q, packetId) == PublishBody(p, packetId);
    assert PublishParts(head, p, packetId)[0 := dupHead] == PublishParts(dupHead, q, packetId);
    PartsArePacket(q, packetId);
  }

  /** `serialize_vector`: the slices end to end in one buffer, or nothing at all when they do not fit. */
  method SerializeVector(dest: array<byte>, parts: array<seq<byte>>) returns (written: nat)
    modifies dest
    ensures var bytes := Flatten(parts[..]);
            if |bytes| <= dest.Length then written == |bytes| && dest[..] == Splice(old(dest[..]), 0, bytes)
            else written == 0 && dest[..] == old(dest[..])
  {
    hide Flatten, Splice;
    var needed := TotalLength(parts);
    if dest.Length < needed {
      return 0;
    }
    ghost var before := dest[..];
    written := 0;
    NoSlices();
    NothingWritten(before);
    var i := 0;
    while i < parts.Length
      invariant i <= parts.Length && written == |Flatten(parts[..i])| <= dest.Length
      invariant dest[..] == Splice(before, 0, Flatten(parts[..i])) && needed == |Flatten(parts[..])|
    {
      ghost var done := Flatten(parts[..i]);
      FlattenAppend(parts[..i], [parts[i]]);
      OneSlice(parts[i]);
      assert parts[..i + 1] == parts[..i] + [parts[i]];
      FlattenAppend(parts[..i + 1], parts[i + 1..]);
      assert parts[..] == parts[..i + 1] + parts[i + 1..];
      Continue(dest, before, 0, done, written, parts[i]);
      written := written + |parts[i]|;
      i := i + 1;
    }
    assert parts[..i] == parts[..];
  }

  lemma NothingWritten(before: seq<byte>)
    ensures Splice(before, 0, []) == before
  {
  }
}
