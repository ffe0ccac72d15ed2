/** Reading a PUBLISH: the one packet whose first byte is partly data, and the one that is handed to the application. */
module Received {
  import opened Bytes
  import opened Header
  import opened Grammar
  import opened Reader
  import opened Walks
  import opened Packet
  import opened Wire
  import opened Connect

  /** An incoming PUBLISH. The identifier is there at the two levels that want an acknowledgement. */
  datatype PublishInfo = PublishInfo(
    qos: QoS, dup: bool, retain: bool, packetId: Option<u16>, topicName: seq<byte>, properties: seq<byte>,
    payload: seq<byte>)

  // ---- the property walk -----------------------------------------------------------

  /** The flags of the walk: which of the properties that may come once have come. */
  datatype Met = Met(payloadFormat: bool, topicAlias: bool, responseTopic: bool, correlationData: bool,
                     messageExpiry: bool, contentType: bool)

  const NONE_MET: Met := Met(false, false, false, false, false, false)

  ghost predicate Tracks(met: Met, seen: set<byte>) {
    && (met.payloadFormat <==> PAYLOAD_FORMAT in seen) && (met.topicAlias <==> TOPIC_ALIAS in seen)
    && (met.responseTopic <==> RESPONSE_TOPIC in seen) && (met.correlationData <==> CORRELATION_DATA in seen)
    && (met.messageExpiry <==> MESSAGE_EXPIRY in seen) && (met.contentType <==> CONTENT_TYPE in seen)
  }

  /** What the rest of the walk answers once the value at the front has been read. */
  ghost function AfterArm(max: u16, s: seq<byte>, seen: set<byte>, repeats: bool, read: Option<Parsed<Value>>)
    : Result<(), Refusal>
    requires s != []
  {
    if read.None? || read.value.size >= |s| || repeats then Err(BadResponse)
    else if s[0] == PAYLOAD_FORMAT && read.value.item.Num? && read.value.item.n > 1 then Err(BadResponse)
    else if s[0] == TOPIC_ALIAS && read.value.item.Num? && !(0 < read.value.item.n <= max) then Err(BadResponse)
    else Answer(WalkFrom(IncomingPublish(max), s[1..][read.value.size..], seen + {s[0]}))
  }

  lemma ArmOf(max: u16, s: seq<byte>, seen: set<byte>, met: Met)
    requires s != [] && Tracks(met, seen)
    ensures Answer(WalkFrom(IncomingPublish(max), s, seen))
         == if s[0] == PAYLOAD_FORMAT then AfterArm(max, s, seen, met.payloadFormat, ParseValue(Byte, s[1..]))
            else if s[0] == TOPIC_ALIAS then AfterArm(max, s, seen, met.topicAlias, ParseValue(TwoBytes, s[1..]))
            else if s[0] == RESPONSE_TOPIC then AfterArm(max, s, seen, met.responseTopic, ParseValue(String, s[1..]))
            else if s[0] == CORRELATION_DATA
                then AfterArm(max, s, seen, met.correlationData, ParseValue(String, s[1..]))
            else if s[0] == MESSAGE_EXPIRY then AfterArm(max, s, seen, met.messageExpiry, ParseValue(FourBytes, s[1..]))
            else if s[0] == CONTENT_TYPE then AfterArm(max, s, seen, met.contentType, ParseValue(String, s[1..]))
            else if s[0] == SUBSCRIPTION_ID then AfterArm(max, s, seen, false, ParseValue(Variable, s[1..]))
            else if s[0] == USER_PROPERTY then AfterArm(max, s, seen, false, ParseValue(Pair, s[1..]))
            else Err(BadResponse)
  {
    hide WalkFrom, ParseValue;
    Turn(IncomingPublish(max), s, seen);
  }

  function Meet(met: Met, id: byte): Met {
    if id == PAYLOAD_FORMAT then met.(payloadFormat := true)
    else if id == TOPIC_ALIAS then met.(topicAlias := true)
    else if id == RESPONSE_TOPIC then met.(responseTopic := true)
    else if id == CORRELATION_DATA then met.(correlationData := true)
    else if id == MESSAGE_EXPIRY then met.(messageExpiry := true)
    else if id == CONTENT_TYPE then met.(contentType := true)
    else met
  }

  lemma Meets(met: Met, seen: set<byte>, id: byte)
    requires Tracks(met, seen)
    ensures Tracks(Meet(met, id), seen + {id})
  {
  }

  /**
   * One turn of the walk. An alias is asked about its maximum only after the whole walk, so the turn answers for
   * everything but that.
   */
  method ReadPublishProperty(reader: PropertyReader, met: Met, alias: u16, ghost seen: set<byte>, ghost max: u16)
    returns (r: Result<(), Refusal>, id: byte, now: Met, topicAlias: u16)
    requires reader.Whole() && reader.remaining > 0 && Tracks(met, seen)
    modifies reader
    ensures var before := Answer(WalkFrom(IncomingPublish(max), old(reader.Rest()), seen));
            if r.Err? then r == Err(BadResponse) && before == r
            else
              && reader.Whole() && reader.remaining < old(reader.remaining) && Tracks(now, seen + {id})
              && (if id == TOPIC_ALIAS then !met.topicAlias else topicAlias == alias)
              && before == if id == TOPIC_ALIAS && topicAlias > max then Err(BadResponse)
                           else Answer(WalkFrom(IncomingPublish(max), reader.Rest(), seen + {id}))
  {
    hide WalkFrom, ParseValue, StringMove, Tracks;
    ghost var here := reader.Rest();
    ArmOf(max, here, seen, met);
    Meets(met, seen, here[0]);
    var identifier := reader.PropertyId();
    assert reader.Rest() == here[1..];
    id, now, topicAlias, r := identifier.value, met, alias, Err(BadResponse);
    if id == PAYLOAD_FORMAT {
      var v := reader.U8(met.payloadFormat);
      if v.None? || v.value > 1 {
        return;
      }
      now := met.(payloadFormat := true);
    } else if id == TOPIC_ALIAS {
      var v := reader.U16(met.topicAlias);
      if v.None? || v.value == 0 {
        return;
      }
      now, topicAlias := met.(topicAlias := true), v.value;
    } else if id == MESSAGE_EXPIRY {
      var v := reader.U32(met.messageExpiry);
      if v.None? {
        return;
      }
      now := met.(messageExpiry := true);
    } else if id in {RESPONSE_TOPIC, CORRELATION_DATA, CONTENT_TYPE} {
      r, now := ReadPublishText(reader, met, id, here, seen, max);
      return;
    } else if id == SUBSCRIPTION_ID {
      var v := reader.VariableLength();
      if v.None? {
        return;
      }
    } else if id == USER_PROPERTY {
      var v := reader.UserProperty();
      if v.None? {
        return;
      }
    } else {
      return;
    }
    r := Ok(());
  }

  /** The three arms of that turn that read a string. */
  method ReadPublishText(reader: PropertyReader, met: Met, id: byte, ghost here: seq<byte>, ghost seen: set<byte>,
                         ghost max: u16)
    returns (r: Result<(), Refusal>, now: Met)
    requires id in {RESPONSE_TOPIC, CORRELATION_DATA, CONTENT_TYPE} && Tracks(met, seen)
    requires reader.Whole() && here != [] && here[0] == id && reader.Rest() == here[1..]
    modifies reader
    ensures var before := Answer(WalkFrom(IncomingPublish(max), here, seen));
            if r.Err? then r == Err(BadResponse) && before == r
            else
              && reader.Whole() && reader.remaining <= old(reader.remaining) && Tracks(now, seen + {id})
              && before == Answer(WalkFrom(IncomingPublish(max), reader.Rest(), seen + {id}))
  {
    hide WalkFrom, ParseValue, StringMove, Tracks;
    ArmOf(max, here, seen, met);
    Meets(met, seen, id);
    now, r := Meet(met, id), Err(BadResponse);
    var used := if id == RESPONSE_TOPIC then met.responseTopic
                else if id == CORRELATION_DATA then met.correlationData else met.contentType;
    var v := reader.Utf8(used);
    if v.Some? {
      r := Ok(());
    }
  }

  /** `walk_publish_properties`. */
  method WalkPublishProperties(properties: seq<byte>, topicAliasMax: u16) returns (r: Result<(), Refusal>)
    requires |properties| <= U32_MAX
    ensures r == Answer(WalkSection(IncomingPublish(topicAliasMax), properties))
  {
    hide WalkFrom, WalkSection;
    ghost var answer := Answer(WalkSection(IncomingPublish(topicAliasMax), properties));
    WalkStart(IncomingPublish(topicAliasMax), properties);
    var reader := new PropertyReader(properties, |properties|);
    var met, alias := NONE_MET, 0;
    ghost var seen: set<byte> := {};
    while reader.remaining > 0
      invariant reader.Whole() && Tracks(met, seen)
      invariant answer == if met.topicAlias && topicAliasMax < alias then Err(BadResponse)
                          else Answer(WalkFrom(IncomingPublish(topicAliasMax), reader.Rest(), seen))
      decreases reader.remaining
    {
      var id;
      r, id, met, alias := ReadPublishProperty(reader, met, alias, seen, topicAliasMax);
      if r.Err? {
        return;
      }
      seen := seen + {id};
    }
    EmptyWalk(IncomingPublish(topicAliasMax), reader.Rest(), seen);
    if met.topicAlias && topicAliasMax < alias {
      return Err(BadResponse);
    }
    return Ok(());
  }

  // ---- the packet ------------------------------------------------------------------

  /** `process_publish_flags`: level, DUP and RETAIN out of the low half of the first byte. There is no level three. */
  function ProcessPublishFlags(flags: byte): Option<(QoS, bool, bool)> {
    var dup, retain := flags / 8 % 2 == 1, flags % 2 == 1;
    if flags / 4 % 2 == 1 then (if flags / 2 % 2 == 1 then None else Some((ExactlyOnce, dup, retain)))
    else if flags / 2 % 2 == 1 then Some((AtLeastOnce, dup, retain))
    else Some((AtMostOnce, dup, retain))
  }

  /** The packet identifier's share of the body. */
  function IdWidth(qos: QoS): nat {
    if qos == AtMostOnce then 0 else 2
  }

  /** `check_publish_remaining_length`, twice, and the topic between the two. */
  function ReadTopic(data: seq<byte>, n: u32, qos: QoS): (topic: Option<seq<byte>>)
    ensures topic.Some? ==> |topic.value| <= 0xFFFF
  {
    if n < 4 + IdWidth(qos) || |data| < 2 || n < Read16(data) + 3 + IdWidth(qos) then None
    else Bounded(data, 2, Read16(data))
  }

  /** The identifier, if the level has one; `None` when it is missing or zero. */
  function ReadId(data: seq<byte>, at: nat, qos: QoS): Option<Option<u16>> {
    if qos == AtMostOnce then Some(None)
    else if |data| < at + 2 || Read16(data[at..]) == 0 then None
    else Some(Some(Read16(data[at..])))
  }

  /** `deserialize_publish_properties`. Two of its questions answer for arguments that a broker chose. */
  function ReadPublishProperties(data: seq<byte>, n: u32, qos: QoS, topic: u16, topicAliasMax: u16)
    : (r: Result<seq<byte>, Refusal>)
    ensures r.Ok? ==> |r.value| <= n
  {
    if n < topic + 2 || n - (topic + 2) < IdWidth(qos) then Err(Refusal.BadParameter)
    else match Bounded(data, topic + 2 + IdWidth(qos), n - (topic + 2) - IdWidth(qos))
         case None => Err(BadResponse)
         case Some(section) =>
           match DecodeVar(section)
           case None => Err(BadResponse)
           case Some(length) =>
             if n < topic + 2 + length + SizeVar(length) + IdWidth(qos) then Err(BadResponse)
             else match Bounded(section, SizeVar(length), length)
                  case None => Err(BadResponse)
                  case Some(properties) =>
                    match WalkSection(IncomingPublish(topicAliasMax), properties)
                    case Refused(why) => Err(why)
                    case Accepted(_) => Ok(properties)
  }

  /** The rest of `deserialize_publish`: topic, identifier, properties and what is left, in that order. */
  function ReadPublishBody(data: seq<byte>, n: u32, qos: QoS, dup: bool, retain: bool, topicAliasMax: u16)
    : Result<PublishInfo, Refusal>
  {
    match ReadTopic(data, n, qos)
    case None => Err(BadResponse)
    case Some(topic) =>
      match ReadId(data, 2 + |topic|, qos)
      case None => Err(BadResponse)
      case Some(packetId) =>
        match ReadPublishProperties(data, n, qos, |topic|, topicAliasMax)
        case Err(why) => Err(why)
        case Ok(properties) =>
          var consumed := |topic| + 2 + |properties| + SizeVar(|properties|) + IdWidth(qos);
          match Bounded(data, consumed, if consumed <= n then n - consumed else 0)
          case None => Err(BadResponse)
          case Some(payload) => Ok(PublishInfo(qos, dup, retain, packetId, topic, properties, payload))
  }

  /** `deserialize_publish`. */
  function DeserializePublish(packet: PacketInfo, maxPacketSize: u32, topicAliasMax: u16)
    : Result<PublishInfo, Refusal>
  {
    var n := packet.remainingLength;
    if packet.kind / 16 != 3 || n >= REMAINING_LENGTH_INVALID then Err(Refusal.BadParameter)
    else if PacketSize(n) > maxPacketSize then Err(BadResponse)
    else match ProcessPublishFlags(packet.kind % 16)
         case None => Err(BadResponse)
         case Some((qos, dup, retain)) => ReadPublishBody(packet.remainingData, n, qos, dup, retain, topicAliasMax)
  }

  // ---- what it accepts -------------------------------------------------------------

  function FlagsOf(info: PublishInfo): byte {
    PUBLISH + (match info.qos case AtMostOnce => 0 case AtLeastOnce => 2 case ExactlyOnce => 4)
    + (if info.retain then 1 else 0) + (if info.dup then 8 else 0)
  }

  function BodyOf(info: PublishInfo): seq<byte>
    requires |info.topicName| <= 0xFFFF
  {
    Str(info.topicName) + (if info.packetId.Some? then Be16(info.packetId.value) else [])
    + (Section(info.properties) + info.payload)
  }

  /**
   * The publishes the reader accepts: an identifier that is not zero exactly at the two levels that have one, a
   * section its walk accepts, and not all three of topic, section and payload empty.
   */
  predicate Acceptable(info: PublishInfo, topicAliasMax: u16) {
    && |info.topicName| <= 0xFFFF && (info.packetId.Some? <==> info.qos != AtMostOnce) && info.packetId != Some(0)
    && WalkSection(IncomingPublish(topicAliasMax), info.properties).Accepted?
    && !(info.topicName == [] && info.properties == [] && info.payload == [])
  }

  lemma FlagsExact(kind: byte, info: PublishInfo)
    ensures kind / 16 == 3 && ProcessPublishFlags(kind % 16) == Some((info.qos, info.dup, info.retain))
       <==> kind == FlagsOf(info)
  {
  }

  lemma StringAtFront(data: seq<byte>, topic: seq<byte>)
    requires |topic| <= 0xFFFF
    ensures Str(topic) <= data <==> |data| >= 2 && Read16(data) == |topic| && Bounded(data, 2, |topic|) == Some(topic)
  {
    hide Be16, Read16;
    if Str(topic) <= data {
      var rest := topic + data[2 + |topic|..];
      assert data == Be16(|topic|) + rest;
      Read16OfBe16(|topic|, rest);
      assert data[2..] == rest && data[2..2 + |topic|] == topic;
    } else if |data| >= 2 && Read16(data) == |topic| {
      Be16OfRead16(data);
    }
  }

  lemma SectionAtFront(section: seq<byte>, properties: seq<byte>)
    requires |properties| <= MAX_REMAINING_LENGTH
    ensures Section(properties) <= section <==>
              && DecodeVar(section) == Some(|properties|)
              && Bounded(section, SizeVar(|properties|), |properties|) == Some(properties)
    ensures |Section(properties)| == SizeVar(|properties|) + |properties|
  {
    hide EncodeVar, DecodeVar, SizeVar;
    var w := EncodeVar(|properties|);
    SizeVarIsLength(|properties|);
    DecodeVarExact(section, |properties|);
    if Section(properties) <= section {
      assert section == w + properties + section[|w| + |properties|..];
      assert w <= section;
    }
  }

  /** Which status: the arguments are blamed only for the type byte and the length, never for what a broker chose. */
  lemma BrokerIsBlamed(packet: PacketInfo, maxPacketSize: u32, topicAliasMax: u16)
    ensures DeserializePublish(packet, maxPacketSize, topicAliasMax) == Err(Refusal.BadParameter)
       <==> packet.kind / 16 != 3 || packet.remainingLength >= REMAINING_LENGTH_INVALID
  {
    hide WalkFrom, DecodeVar, Read16, PacketSize, SizeVar;
    forall s: seq<byte> ensures WalkSection(IncomingPublish(topicAliasMax), s) != Refused(Refusal.BadParameter) {
      BrokersWalk(IncomingPublish(topicAliasMax), s, {});
    }
  }

  lemma Split(s: seq<byte>, front: seq<byte>, rest: seq<byte>)
    ensures s == front + rest <==> front <= s && s[|front|..] == rest
  {
    if front <= s {
      assert s == front + s[|front|..];
    }
  }

  lemma PiecesInOrder(body: seq<byte>, t: seq<byte>, w: seq<byte>, e: seq<byte>, p: seq<byte>)
    ensures body == t + w + (e + p) <==>
              t <= body && w <= body[|t|..] && e <= body[|t|..][|w|..] && body[|t|..][|w|..][|e|..] == p
  {
    Split(body, t, w + (e + p));
    assert t + w + (e + p) == t + (w + (e + p));
    if t <= body {
      Split(body[|t|..], w, e + p);
      if w <= body[|t|..] {
        Split(body[|t|..][|w|..], e, p);
      }
    }
  }

  lemma TopicExact(data: seq<byte>, n: u32, qos: QoS, topic: seq<byte>)
    requires n <= |data| && |topic| <= 0xFFFF
    ensures ReadTopic(data, n, qos) == Some(topic)
       <==> 4 + IdWidth(qos) <= n && |topic| + 3 + IdWidth(qos) <= n && Str(topic) <= data[..n]
  {
    hide Read16, Str;
    StringAtFront(data, topic);
    StrWidth(topic);
    if |topic| + 2 <= n {
      assert data[..n][..|topic| + 2] == data[..|topic| + 2];
    }
  }

  lemma StrWidth(topic: seq<byte>)
    requires |topic| <= 0xFFFF
    ensures |Str(topic)| == |topic| + 2
  {
  }

  lemma IdExact(data: seq<byte>, n: u32, at: nat, qos: QoS, packetId: Option<u16>)
    requires at + IdWidth(qos) <= n <= |data|
    ensures ReadId(data, at, qos) == Some(packetId)
       <==> && (packetId.Some? <==> qos != AtMostOnce) && packetId != Some(0)
            && (packetId.Some? ==> Be16(packetId.value) <= data[..n][at..])
  {
    hide Read16, Be16;
    if qos != AtMostOnce {
      Be16OfRead16(data[at..]);
      assert data[..n][at..][..2] == data[at..][..2];
      if packetId.Some? {
        Read16OfBe16(packetId.value, data[at..][2..]);
        IdPair(packetId.value, data[at..], data[..n][at..]);
      }
    }
  }

  lemma IdPair(id: u16, whole: seq<byte>, cut: seq<byte>)
    requires |whole| >= 2 && |cut| >= 2 && whole[..2] == cut[..2]
    ensures Be16(id) <= cut <==> Read16(whole) == id
  {
    Be16OfRead16(whole);
    Read16OfBe16(id, whole[2..]);
    if Be16(id) <= cut {
      assert whole == Be16(id) + whole[2..];
    }
  }

  lemma PropertiesExact(data: seq<byte>, n: u32, qos: QoS, topic: u16, topicAliasMax: u16, properties: seq<byte>)
    requires topic + 3 + IdWidth(qos) <= n <= |data| && n <= MAX_REMAINING_LENGTH
    ensures ReadPublishProperties(data, n, qos, topic, topicAliasMax) == Ok(properties)
       <==> && WalkSection(IncomingPublish(topicAliasMax), properties).Accepted?
            && Section(properties) <= data[..n][topic + 2..][IdWidth(qos)..]
  {
    hide WalkFrom, DecodeVar, SizeVar, Section;
    var at := topic + 2 + IdWidth(qos);
    var section := data[at..n];
    assert section == data[..n][topic + 2..][IdWidth(qos)..];
    assert Section(properties) <= section ==> |properties| <= MAX_REMAINING_LENGTH by { SectionLonger(properties); }
    assert ReadPublishProperties(data, n, qos, topic, topicAliasMax) == Ok(properties) ==> |properties| <= |section|;
    if |properties| <= MAX_REMAINING_LENGTH {
      SectionAtFront(section, properties);
    }
  }

  lemma SectionLonger(properties: seq<byte>)
    ensures |properties| <= |Section(properties)|
  {
  }

  /** The payload is what is left, and the subtraction that finds it never goes below zero. */
  lemma PayloadExact(data: seq<byte>, n: u32, at: nat, width: nat, properties: seq<byte>, payload: seq<byte>)
    requires at + width + 1 <= n <= |data| && n <= MAX_REMAINING_LENGTH
    requires Section(properties) <= data[..n][at..][width..]
    ensures var consumed := at + |properties| + SizeVar(|properties|) + width;
            && consumed <= n
            && (Bounded(data, consumed, n - consumed) == Some(payload)
                <==> data[..n][at..][width..][|Section(properties)|..] == payload)
  {
    hide Section, SizeVar, DecodeVar;
    SectionLonger(properties);
    SectionAtFront(data[..n][at..][width..], properties);
    assert data[..n][at..][width..][|Section(properties)|..] == data[at + width + |Section(properties)|..n];
  }

  lemma NotAllEmpty(info: PublishInfo)
    requires |info.topicName| <= 0xFFFF && (info.packetId.Some? <==> info.qos != AtMostOnce)
    ensures |BodyOf(info)| >= |info.topicName| + 3 + IdWidth(info.qos)
    ensures |BodyOf(info)| >= 4 + IdWidth(info.qos)
       <==> !(info.topicName == [] && info.properties == [] && info.payload == [])
  {
    assert EncodeVar(0) == [0];
  }

  /** Of a body that is not all there nothing is accepted. */
  lemma ShortBody(data: seq<byte>, n: u32, qos: QoS, dup: bool, retain: bool, topicAliasMax: u16)
    requires n > |data|
    ensures ReadPublishBody(data, n, qos, dup, retain, topicAliasMax).Err?
  {
    hide WalkFrom, DecodeVar, SizeVar, Read16;
  }

  /** Each piece stands where the reader looks for it. */
  ghost predicate InPlace(body: seq<byte>, info: PublishInfo)
    requires |info.topicName| <= 0xFFFF
  {
    var wide := IdWidth(info.qos);
    var at := |info.topicName| + 2;
    && at + wide + 1 <= |body|
    && Str(info.topicName) <= body && (info.packetId.Some? ==> Be16(info.packetId.value) <= body[at..])
    && Section(info.properties) <= body[at..][wide..]
    && body[at..][wide..][|Section(info.properties)|..] == info.payload
  }

  lemma BodyInPlace(body: seq<byte>, info: PublishInfo)
    requires |info.topicName| <= 0xFFFF && (info.packetId.Some? <==> info.qos != AtMostOnce)
    ensures body == BodyOf(info) <==> InPlace(body, info)
  {
    hide Be16, Str, Section;
    var w := if info.packetId.Some? then Be16(info.packetId.value) else [];
    assert |w| == IdWidth(info.qos) by { IdFits(info); }
    StrWidth(info.topicName);
    PiecesInOrder(body, Str(info.topicName), w, Section(info.properties), info.payload);
  }

  lemma IdFits(info: PublishInfo)
    ensures info.packetId.Some? ==> |Be16(info.packetId.value)| == 2
  {
  }

  lemma FourReads(data: seq<byte>, n: u32, info: PublishInfo, topicAliasMax: u16)
    requires |info.topicName| <= 0xFFFF
    ensures ReadPublishBody(data, n, info.qos, info.dup, info.retain, topicAliasMax) == Ok(info)
       <==> && ReadTopic(data, n, info.qos) == Some(info.topicName)
            && ReadId(data, 2 + |info.topicName|, info.qos) == Some(info.packetId)
            && ReadPublishProperties(data, n, info.qos, |info.topicName|, topicAliasMax) == Ok(info.properties)
            && var consumed := |info.topicName| + 2 + |info.properties| + SizeVar(|info.properties|)
               + IdWidth(info.qos);
               Bounded(data, consumed, if consumed <= n then n - consumed else 0) == Some(info.payload)
  {
    hide WalkFrom, DecodeVar, SizeVar, Read16, ReadTopic, ReadId, ReadPublishProperties, Bounded;
  }

  /** What the body reader answers, it read in place; and what is in place it reads. */
  lemma BodyExact(data: seq<byte>, n: u32, topicAliasMax: u16, info: PublishInfo)
    requires n <= |data| && n <= MAX_REMAINING_LENGTH && |info.topicName| <= 0xFFFF
    ensures ReadPublishBody(data, n, info.qos, info.dup, info.retain, topicAliasMax) == Ok(info)
       <==> && (info.packetId.Some? <==> info.qos != AtMostOnce) && info.packetId != Some(0)
            && WalkSection(IncomingPublish(topicAliasMax), info.properties).Accepted?
            && 4 + IdWidth(info.qos) <= n && InPlace(data[..n], info)
  {
    hide WalkSection, WalkFrom, Read16, Be16, SizeVar, Section, Str, ReadTopic, ReadId, ReadPublishProperties, Bounded;
    hide ReadPublishBody;
    FourReads(data, n, info, topicAliasMax);
    var t, wide := info.topicName, IdWidth(info.qos);
    TopicExact(data, n, info.qos, t);
    StrWidth(t);
    if |t| + 3 + wide <= n {
      IdExact(data, n, 2 + |t|, info.qos, info.packetId);
      PropertiesExact(data, n, info.qos, |t|, topicAliasMax, info.properties);
      if Section(info.properties) <= data[..n][|t| + 2..][wide..] {
        PayloadExact(data, n, |t| + 2, wide, info.properties, info.payload);
      }
    }
  }

  /**
   * The reader accepts exactly the publishes there are: it answers `info` if and only if the first byte is the
   * flags of `info`, the claimed body is really there and is the body of `info`, and `info` is one a broker may
   * send this client.
   */
  lemma PublishExact(packet: PacketInfo, maxPacketSize: u32, topicAliasMax: u16, info: PublishInfo)
    ensures DeserializePublish(packet, maxPacketSize, topicAliasMax) == Ok(info)
       <==> && packet.remainingLength <= MAX_REMAINING_LENGTH && PacketSize(packet.remainingLength) <= maxPacketSize
            && packet.kind == FlagsOf(info) && Acceptable(info, topicAliasMax)
            && packet.remainingLength <= |packet.remainingData|
            && packet.remainingData[..packet.remainingLength] == BodyOf(info)
  {
    hide WalkFrom, WalkSection, PacketSize, FlagsOf, ProcessPublishFlags, ReadPublishBody, BodyOf, InPlace;
    var n, data := packet.remainingLength, packet.remainingData;
    FlagsExact(packet.kind, info);
    AnswersOfBody(data, n, info, topicAliasMax);
    if n > |data| {
      ShortBody(data, n, info.qos, info.dup, info.retain, topicAliasMax);
    } else if |info.topicName| <= 0xFFFF && n <= MAX_REMAINING_LENGTH {
      BodyExact(data, n, topicAliasMax, info);
      if info.packetId.Some? <==> info.qos != AtMostOnce {
        BodyInPlace(data[..n], info);
        NotAllEmpty(info);
      }
    }
  }

  lemma AnswersOfBody(data: seq<byte>, n: u32, info: PublishInfo, topicAliasMax: u16)
    ensures forall qos, dup, retain :: ReadPublishBody(data, n, qos, dup, retain, topicAliasMax) == Ok(info) ==>
              qos == info.qos && dup == info.dup && retain == info.retain && |info.topicName| <= 0xFFFF
  {
    hide WalkFrom, DecodeVar, SizeVar, Read16, ReadTopic, ReadId, ReadPublishProperties;
  }

  /**
   * The floor asked for first is not one of the bounds the slices restate: without it the shortest bodies, with
   * topic, section and payload all empty, would be read.
   */
  lemma FloorIsNeeded(maxPacketSize: u32, topicAliasMax: u16)
    requires maxPacketSize >= 5
    ensures DeserializePublish(PacketInfo(PUBLISH, 3, [0, 0, 0]), maxPacketSize, topicAliasMax) == Err(BadResponse)
    ensures Bounded([0, 0, 0], 2, 0) == Some([])
    ensures ReadPublishProperties([0, 0, 0], 3, AtMostOnce, 0, topicAliasMax) == Ok([])
  {
    var data: seq<byte> := [0, 0, 0];
    assert data[2..2] == [];
    assert WalkSection(IncomingPublish(topicAliasMax), []).Accepted? by {
      EmptyWalk(IncomingPublish(topicAliasMax), [], {});
    }
    assert Section([]) == [0];
    assert data[..3][2..][IdWidth(AtMostOnce)..] == [0];
    PropertiesExact(data, 3, AtMostOnce, 0, topicAliasMax, []);
  }
}
