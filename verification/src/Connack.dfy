/** Reading the CONNACK, the packet that sets every limit the session runs under (section 3.2 of MQTT Version 5.0). */
module Connack {
  import opened Bytes
  import opened Header
  import opened Grammar
  import opened Reader
  import opened Walks
  import opened Packet

  const CONNACK_MINIMUM_SIZE: u32 := 3

  datatype ServerSettings = ServerSettings(
    sessionExpiry: u32, receiveMax: u16, maxQos: byte, retainAvailable: byte, maxPacketSize: u32,
    topicAliasMax: u16, wildcardAvailable: byte, subscriptionIdAvailable: byte, sharedAvailable: byte,
    keepAlive: u16)

  const NO_SETTINGS := ServerSettings(0, 0, 0, 0, 0, 0, 0, 0, 0, 0)

  /** The bit a property sets in `fields_present`, the numbering the client reads. */
  function FieldOf(id: byte): nat {
    if id == SUBSCRIPTION_ID then 1 else if id == SESSION_EXPIRY then 2 else if id == RECEIVE_MAX then 3
    else if id == MAX_PACKET_SIZE then 4 else if id == TOPIC_ALIAS_MAX then 5
    else if id == REQUEST_RESPONSE then 6 else if id == REQUEST_PROBLEM then 7
    else if id == AUTH_METHOD then 9 else if id == AUTH_DATA then 10 else if id == PAYLOAD_FORMAT then 11
    else if id == MESSAGE_EXPIRY then 12 else if id == TOPIC_ALIAS then 13 else if id == RESPONSE_TOPIC then 14
    else if id == CORRELATION_DATA then 15 else if id == CONTENT_TYPE then 16 else if id == REASON_STRING then 17
    else if id == WILL_DELAY then 18 else if id == ASSIGNED_CLIENT_ID then 19 else if id == SERVER_KEEP_ALIVE then 20
    else if id == RESPONSE_INFO then 21 else if id == SERVER_REFERENCE then 22 else if id == MAX_QOS then 23
    else if id == RETAIN_AVAILABLE then 24 else if id == WILDCARD_AVAILABLE then 25
    else if id == SUBSCRIPTION_ID_AVAILABLE then 26 else if id == SHARED_SUB_AVAILABLE then 27
    else if id == USER_PROPERTY then 28 else 0
  }

  /** One bit, one identifier: no two properties share a position. */
  lemma FieldOfIsInjective(a: byte, b: byte)
    requires WidthOf(a).Some? && WidthOf(b).Some? && FieldOf(a) == FieldOf(b)
    ensures a == b && 1 <= FieldOf(a) <= 28
  {
  }

  function Fields(ps: seq<Property>): set<nat> {
    set i | 0 <= i < |ps| :: FieldOf(ps[i].id)
  }

  /** The settings hold the list's numbers, field by field. */
  predicate Reports(s: ServerSettings, ps: seq<Property>) {
    && s.sessionExpiry == Setting(ps, SESSION_EXPIRY, 0) && s.receiveMax == Setting(ps, RECEIVE_MAX, 0)
    && s.maxQos == Setting(ps, MAX_QOS, 0) && s.retainAvailable == Setting(ps, RETAIN_AVAILABLE, 0)
    && s.maxPacketSize == Setting(ps, MAX_PACKET_SIZE, 0) && s.topicAliasMax == Setting(ps, TOPIC_ALIAS_MAX, 0)
    && s.wildcardAvailable == Setting(ps, WILDCARD_AVAILABLE, 0)
    && s.subscriptionIdAvailable == Setting(ps, SUBSCRIPTION_ID_AVAILABLE, 0)
    && s.sharedAvailable == Setting(ps, SHARED_SUB_AVAILABLE, 0) && s.keepAlive == Setting(ps, SERVER_KEEP_ALIVE, 0)
  }

  /** `boolean`: a one-byte property that must be 0 or 1. */
  method Boolean(reader: PropertyReader, seen: bool) returns (r: Option<byte>, read: Option<byte>)
    requires reader.Valid()
    modifies reader
    ensures r == if read.Some? && read.value > 1 then None else read
    ensures reader.Reads(Byte, seen, if read.Some? then Some(Num(read.value)) else None)
  {
    read := reader.U8(seen);
    r := if read.Some? && read.value > 1 then None else read;
  }

  lemma FieldsAppend(ps: seq<Property>, p: Property)
    ensures Fields(ps + [p]) == Fields(ps) + {FieldOf(p.id)}
  {
    var all := ps + [p];
    assert all[|ps|] == p && forall i :: 0 <= i < |ps| ==> all[i] == ps[i];
    forall f | f in Fields(ps) + {FieldOf(p.id)}
      ensures f in Fields(all)
    {
      if f in Fields(ps) {
        var i :| 0 <= i < |ps| && f == FieldOf(ps[i].id);
        assert all[i] == ps[i];
      }
    }
  }

  /** One property's effect on the settings. */
  function Update(s: ServerSettings, p: Property): ServerSettings {
    if !p.value.Num? then s
    else if p.id == SESSION_EXPIRY then s.(sessionExpiry := p.value.n)
    else if p.id == RECEIVE_MAX && p.value.n < 0x1_0000 then s.(receiveMax := p.value.n)
    else if p.id == MAX_QOS && p.value.n < 0x100 then s.(maxQos := p.value.n)
    else if p.id == RETAIN_AVAILABLE && p.value.n < 0x100 then s.(retainAvailable := p.value.n)
    else if p.id == MAX_PACKET_SIZE then s.(maxPacketSize := p.value.n)
    else if p.id == TOPIC_ALIAS_MAX && p.value.n < 0x1_0000 then s.(topicAliasMax := p.value.n)
    else if p.id == WILDCARD_AVAILABLE && p.value.n < 0x100 then s.(wildcardAvailable := p.value.n)
    else if p.id == SUBSCRIPTION_ID_AVAILABLE && p.value.n < 0x100 then s.(subscriptionIdAvailable := p.value.n)
    else if p.id == SHARED_SUB_AVAILABLE && p.value.n < 0x100 then s.(sharedAvailable := p.value.n)
    else if p.id == SERVER_KEEP_ALIVE && p.value.n < 0x1_0000 then s.(keepAlive := p.value.n)
    else s
  }

  function ServerOf(ps: seq<Property>): ServerSettings {
    if ps == [] then NO_SETTINGS else Update(ServerOf(ps[..|ps| - 1]), ps[|ps| - 1])
  }

  lemma ServerOfAppend(ps: seq<Property>, p: Property)
    ensures ServerOf(ps + [p]) == Update(ServerOf(ps), p)
  {
    assert (ps + [p])[..|ps|] == ps;
  }

  /** The settings the walk leaves behind are, field by field, the numbers the list carries. */
  lemma {:induction false} ServerReports(ps: seq<Property>)
    requires AllValid(ps)
    ensures Reports(ServerOf(ps), ps)
  {
    if ps != [] {
      var init, p := ps[..|ps| - 1], ps[|ps| - 1];
      ServerReports(init);
      assert ps == init + [p];
      assert ValidProperty(p);
      UpdateReports(init, p);
    }
  }

  lemma UpdateReports(ps: seq<Property>, p: Property)
    requires Reports(ServerOf(ps), ps) && ValidProperty(p)
    ensures Reports(Update(ServerOf(ps), p), ps + [p])
  {
    hide Setting, ServerOf;
    SettingsAppend(ps, p, 0);
  }

  /** The properties whose number is stored as it is read. */
  const Numbers: set<byte> := {SESSION_EXPIRY, RECEIVE_MAX, MAX_PACKET_SIZE, TOPIC_ALIAS_MAX, SERVER_KEEP_ALIVE}

  /** Whether the walk goes on after a property with this identifier and this read value. */
  predicate Takes(w: Walker, id: byte, seen: set<byte>, read: Option<Parsed<Value>>) {
    id in Allowed(w) && read.Some? && !(id in Once(w) && id in seen) && ValueOk(w, Property(id, read.value.item))
  }

  function ReadAt(id: byte, s: seq<byte>): Option<Parsed<Value>> {
    if WidthOf(id).Some? then ParseValue(WidthOf(id).value, s) else None
  }

  /** The arms that store a number. */
  method ReadNumber(reader: PropertyReader, id: byte, seen: set<byte>, server: ServerSettings, ghost wanted: bool)
    returns (r: Option<ServerSettings>, ghost value: Value)
    requires reader.Whole() && id in Numbers
    modifies reader
    ensures r.Some? <==> Takes(Connack(wanted), id, seen, ReadAt(id, old(reader.Rest())))
    ensures r.Some? ==>
              && ReadAt(id, old(reader.Rest())).Some? && value == ReadAt(id, old(reader.Rest())).value.item
              && r.value == Update(server, Property(id, value))
              && reader.Whole()
              && reader.Rest() == old(reader.Rest())[ReadAt(id, old(reader.Rest())).value.size..]
  {
    hide ParseValue;
    r, value := None, Num(0);
    if id == SESSION_EXPIRY {
      var v := reader.U32(id in seen);
      if v.None? {
        return;
      }
      r, value := Some(server.(sessionExpiry := v.value)), Num(v.value);
    } else if id == RECEIVE_MAX {
      var v := reader.U16(id in seen);
      if v.None? {
        return;
      }
      if v.value == 0 {
        return;
      }
      r, value := Some(server.(receiveMax := v.value)), Num(v.value);
    } else if id == MAX_PACKET_SIZE {
      var v := reader.U32(id in seen);
      if v.None? {
        return;
      }
      if v.value == 0 {
        return;
      }
      r, value := Some(server.(maxPacketSize := v.value)), Num(v.value);
    } else if id == TOPIC_ALIAS_MAX {
      var v := reader.U16(id in seen);
      if v.None? {
        return;
      }
      r, value := Some(server.(topicAliasMax := v.value)), Num(v.value);
    } else {
      var v := reader.U16(id in seen);
      if v.None? {
        return;
      }
      r, value := Some(server.(keepAlive := v.value)), Num(v.value);
    }
  }

  /** The arms that store a flag. */
  method ReadFlag(reader: PropertyReader, id: byte, seen: set<byte>, server: ServerSettings, ghost wanted: bool)
    returns (r: Option<ServerSettings>, ghost value: Value)
    requires reader.Whole() && id in Flags
    modifies reader
    ensures r.Some? <==> Takes(Connack(wanted), id, seen, ReadAt(id, old(reader.Rest())))
    ensures r.Some? ==>
              && ReadAt(id, old(reader.Rest())).Some? && value == ReadAt(id, old(reader.Rest())).value.item
              && r.value == Update(server, Property(id, value))
              && reader.Whole()
              && reader.Rest() == old(reader.Rest())[ReadAt(id, old(reader.Rest())).value.size..]
  {
    hide ParseValue;
    r, value := None, Num(0);
    if id == MAX_QOS {
      var v, read := Boolean(reader, id in seen);
      if v.None? {
        return;
      }
      r, value := Some(server.(maxQos := v.value)), Num(v.value);
    } else if id == RETAIN_AVAILABLE {
      var v, read := Boolean(reader, id in seen);
      if v.None? {
        return;
      }
      r, value := Some(server.(retainAvailable := v.value)), Num(v.value);
    } else if id == WILDCARD_AVAILABLE {
      var v, read := Boolean(reader, id in seen);
      if v.None? {
        return;
      }
      r, value := Some(server.(wildcardAvailable := v.value)), Num(v.value);
    } else if id == SUBSCRIPTION_ID_AVAILABLE {
      var v, read := Boolean(reader, id in seen);
      if v.None? {
        return;
      }
      r, value := Some(server.(subscriptionIdAvailable := v.value)), Num(v.value);
    } else {
      var v, read := Boolean(reader, id in seen);
      if v.None? {
        return;
      }
      r, value := Some(server.(sharedAvailable := v.value)), Num(v.value);
    }
  }

  /** One arm of the walk: read, then validate, then record. */
  method ReadConnackProperty(reader: PropertyReader, id: byte, seen: set<byte>, server: ServerSettings,
                             requestResponseInfo: bool)
    returns (r: Option<ServerSettings>, ghost value: Value)
    requires reader.Whole()
    modifies reader
    ensures r.Some? <==> Takes(Connack(requestResponseInfo), id, seen, ReadAt(id, old(reader.Rest())))
    ensures r.Some? ==>
              && ReadAt(id, old(reader.Rest())).Some? && value == ReadAt(id, old(reader.Rest())).value.item
              && r.value == Update(server, Property(id, value))
              && reader.Whole()
              && reader.Rest() == old(reader.Rest())[ReadAt(id, old(reader.Rest())).value.size..]
  {
    hide ParseValue;
    r, value := None, Num(0);
    if id in Numbers {
      r, value := ReadNumber(reader, id, seen, server, requestResponseInfo);
    } else if id in Flags {
      r, value := ReadFlag(reader, id, seen, server, requestResponseInfo);
    } else if id in {ASSIGNED_CLIENT_ID, REASON_STRING, SERVER_REFERENCE, AUTH_METHOD, AUTH_DATA} {
      var v := reader.Utf8(id in seen);
      if v.None? {
        return;
      }
      r, value := Some(server), Text(v.value);
    } else if id == RESPONSE_INFO {
      var v := reader.Utf8(id in seen);
      if v.None? || !requestResponseInfo {
        return;
      }
      r, value := Some(server), Text(v.value);
    } else if id == USER_PROPERTY {
      var v := reader.UserProperty();
      if v.None? {
        return;
      }
      r, value := Some(server), Texts(v.value.0, v.value.1);
    }
  }

  /**
   * `walk_connack_properties`: read, validate, record the bit.
   * `seen` holds the identifiers whose flag is set, one flag for each but the user property.
   */
  method WalkConnackProperties(properties: seq<byte>, requestResponseInfo: bool)
    returns (r: Result<(ServerSettings, set<nat>), Refusal>)
    requires |properties| <= U32_MAX
    ensures match WalkSection(Connack(requestResponseInfo), properties)
            case Accepted(ps) => r == Ok((ServerOf(ps), Fields(ps)))
            case Refused(why) => r == Err(why)
  {
    hide WalkFrom, ParseValue, Update, ValueOk, FieldOf;
    ghost var w := Connack(requestResponseInfo);
    var reader := new PropertyReader(properties, |properties|);
    var server, fieldsPresent := NO_SETTINGS, {};
    var seen: set<byte> := {};
    ghost var done: seq<Property> := [];
    NothingPrepended();
    while reader.remaining > 0
      invariant reader.Whole()
      invariant WalkSection(w, properties) == Prepend(done, WalkFrom(w, reader.Rest(), seen))
      invariant server == ServerOf(done) && fieldsPresent == Fields(done)
      decreases reader.remaining
    {
      ghost var here := reader.Rest();
      Turn(w, here, seen);
      var first := reader.PropertyId();
      var id := first.value;
      assert reader.Rest() == here[1..];
      var next, value := ReadConnackProperty(reader, id, seen, server, requestResponseInfo);
      if next.None? {
        return Err(BadResponse);
      }
      ghost var p := Property(id, value);
      ReadFits(id, here[1..]);
      ServerOfAppend(done, p);
      FieldsAppend(done, p);
      server, fieldsPresent, seen := next.value, fieldsPresent + {FieldOf(id)}, seen + {id};
      PrependJoin(done, [p], WalkFrom(w, reader.Rest(), seen));
      done := done + [p];
    }
    EmptyWalk(w, reader.Rest(), seen);
    assert done + [] == done;
    return Ok((server, fieldsPresent));
  }

  lemma ReadFits(id: byte, s: seq<byte>)
    requires ReadAt(id, s).Some?
    ensures ReadAt(id, s).value.size <= |s|
  {
    EncodedOfParsedValue(WidthOf(id).value, s);
  }

  lemma NothingPrepended()
    ensures forall walk: Walk :: Prepend([], walk) == walk
  {
    forall walk: Walk
      ensures Prepend([], walk) == walk
    {
      assert walk.Accepted? ==> [] + walk.ps == walk.ps;
    }
  }

  lemma PrependJoin(a: seq<Property>, b: seq<Property>, walk: Walk)
    ensures Prepend(a, Prepend(b, walk)) == Prepend(a + b, walk)
  {
    assert walk.Accepted? ==> a + (b + walk.ps) == a + b + walk.ps;
  }

  // ---- the whole packet -----------------------------------------------------

  datatype ConnAck = ConnAck(
    sessionPresent: bool, reasonCode: byte, server: ServerSettings, fieldsPresent: set<nat>, properties: seq<byte>)

  predicate ReasonCodeValid(code: byte) {
    code in {0x00, 0x80, 0x81, 0x82, 0x83, 0x84, 0x85, 0x86, 0x87, 0x88, 0x89, 0x8A, 0x8C, 0x90, 0x95, 0x97, 0x99,
             0x9A, 0x9B, 0x9C, 0x9D, 0x9F}
  }

  /** `deserialize_connack`, its checks in the order the source makes them. */
  function DeserializeConnack(packet: PacketInfo, maxPacketSize: u32, requestResponseInfo: bool)
    : Result<ConnAck, Refusal>
  {
    if packet.kind != CONNACK || maxPacketSize == 0 then Err(BadParameter)
    else if PacketSize(packet.remainingLength) > maxPacketSize then Err(BadResponse)
    else if packet.remainingLength < CONNACK_MINIMUM_SIZE then Err(BadResponse)
    else if |packet.remainingData| < 2 then Err(BadResponse)
    else
      var flags, code := packet.remainingData[0], packet.remainingData[1];
      if flags > 1 || (flags == 1 && code != 0) || !ReasonCodeValid(code) then Err(BadResponse)
      else match Bounded(packet.remainingData, 2, packet.remainingLength - 2)
           case None => Err(BadResponse)
           case Some(after) =>
             match DecodeVar(after)
             case None => Err(BadResponse)
             case Some(length) =>
               if packet.remainingLength != length + SizeVar(length) + 2 then Err(BadResponse)
               else match Bounded(after, SizeVar(length), length)
                    case None => Err(BadResponse)
                    case Some(properties) =>
                      match WalkSection(Walker.Connack(requestResponseInfo), properties)
                      case Refused(why) => Err(why)
                      case Accepted(ps) => Ok(ConnAck(flags == 1, code, ServerOf(ps), Fields(ps), properties))
  }

  /** The body of a CONNACK as section 3.2 lays it out. */
  function Body(sessionPresent: bool, code: byte, ps: seq<Property>): seq<byte>
    requires AllValid(ps)
  {
    [if sessionPresent then 1 else 0, code] + EncodeVar(|EncodeSection(ps)|) + EncodeSection(ps)
  }

  /** What section 3.2 lets a CONNACK say to this client. */
  predicate LegalConnack(sessionPresent: bool, code: byte, ps: seq<Property>, requestResponseInfo: bool) {
    && (sessionPresent ==> code == 0) && ReasonCodeValid(code)
    && AllValid(ps) && Legal(Walker.Connack(requestResponseInfo), ps, {})
  }

  /**
   * An accepted CONNACK is the layout of a legal one, its properties unrepeated; every bit says whether its
   * identifier occurs, and every setting is its one occurrence.
   */
  lemma AcceptedIsLegal(packet: PacketInfo, maxPacketSize: u32, requestResponseInfo: bool) returns (ps: seq<Property>)
    requires DeserializeConnack(packet, maxPacketSize, requestResponseInfo).Ok?
    ensures var c := DeserializeConnack(packet, maxPacketSize, requestResponseInfo).value;
            && LegalConnack(c.sessionPresent, c.reasonCode, ps, requestResponseInfo)
            && packet.kind == 0x20 && PacketSize(packet.remainingLength) <= maxPacketSize
            && packet.remainingLength <= |packet.remainingData|
            && packet.remainingData[..packet.remainingLength] == Body(c.sessionPresent, c.reasonCode, ps)
            && c.properties == EncodeSection(ps) && Reports(c.server, ps) && c.fieldsPresent == Fields(ps)
  {
    hide Legal, ParseSection, WalkFrom, EncodeVar, DecodeVar, EncodeSection, ServerOf, Reports, ValidProperty;
    hide ReasonCodeValid;
    var data, n := packet.remainingData, packet.remainingLength;
    var after := data[2..n];
    var length := DecodeVar(after).value;
    DecodeVarExact(after, length);
    SizeVarIsLength(length);
    var properties := Bounded(after, SizeVar(length), length).value;
    ps := WalkSection(Walker.Connack(requestResponseInfo), properties).ps;
    WalkExact(Walker.Connack(requestResponseInfo), properties, {}, ps);
    SectionExact(properties, ps);
    ServerReports(ps);
    assert after == EncodeVar(length) + properties;
    assert data[..n] == [data[0], data[1]] + after;
  }

  /** Which status a refusal has: the caller is blamed for another packet or a limit of zero, and for nothing else. */
  lemma ConnackStatus(packet: PacketInfo, maxPacketSize: u32, requestResponseInfo: bool)
    ensures DeserializeConnack(packet, maxPacketSize, requestResponseInfo) == Err(BadParameter)
       <==> packet.kind != 0x20 || maxPacketSize == 0
  {
    hide WalkFrom, DecodeVar, PacketSize, ReasonCodeValid, ServerOf;
    forall s: seq<byte> ensures WalkSection(Walker.Connack(requestResponseInfo), s) != Refused(BadParameter) {
      BrokersWalk(Walker.Connack(requestResponseInfo), s, {});
    }
  }

  /** Every legal CONNACK that fits is accepted, and reports exactly what it carries. */
  lemma LegalIsAccepted(sessionPresent: bool, code: byte, ps: seq<Property>, rest: seq<byte>,
                        maxPacketSize: u32, requestResponseInfo: bool)
    requires LegalConnack(sessionPresent, code, ps, requestResponseInfo)
    requires |Body(sessionPresent, code, ps)| <= MAX_REMAINING_LENGTH
    requires 0 < maxPacketSize && PacketSize(|Body(sessionPresent, code, ps)|) <= maxPacketSize
    ensures var body := Body(sessionPresent, code, ps);
            DeserializeConnack(PacketInfo(CONNACK, |body|, body + rest), maxPacketSize, requestResponseInfo)
            == Ok(ConnAck(sessionPresent, code, ServerOf(ps), Fields(ps), EncodeSection(ps)))
  {
    hide Legal, ParseSection, WalkFrom, EncodeVar, DecodeVar, EncodeSection, ServerOf, ValidProperty, ReasonCodeValid;
    var body, section := Body(sessionPresent, code, ps), EncodeSection(ps);
    var data, n := body + rest, |body|;
    var after := data[2..n];
    assert after == EncodeVar(|section|) + section;
    DecodeVarExact(after, |section|);
    SizeVarIsLength(|section|);
    assert after[SizeVar(|section|)..SizeVar(|section|) + |section|] == section;
    SectionExact(section, ps);
    WalkExact(Walker.Connack(requestResponseInfo), section, {}, ps);
  }

  /** In a legal CONNACK each bit and each number speaks for one identifier. */
  lemma BitsAndSettings(ps: seq<Property>, requestResponseInfo: bool, id: byte)
    requires AllValid(ps) && Legal(Walker.Connack(requestResponseInfo), ps, {}) && WidthOf(id).Some?
    ensures FieldOf(id) in Fields(ps) <==> exists i :: 0 <= i < |ps| && ps[i].id == id
    ensures (forall i :: 0 <= i < |ps| ==> ps[i].id != id) ==> Setting(ps, id, 0) == 0
    ensures forall i :: 0 <= i < |ps| && ps[i].id == id && ps[i].value.Num? ==> Setting(ps, id, 0) == ps[i].value.n
  {
    if FieldOf(id) in Fields(ps) {
      var i :| 0 <= i < |ps| && FieldOf(ps[i].id) == FieldOf(id);
      assert ValidProperty(ps[i]);
      FieldOfIsInjective(ps[i].id, id);
    }
    if forall i :: 0 <= i < |ps| ==> ps[i].id != id {
      SettingOfAbsent(ps, id, 0);
    }
    forall i | 0 <= i < |ps| && ps[i].id == id && ps[i].value.Num?
      ensures Setting(ps, id, 0) == ps[i].value.n
    {
      assert ValidProperty(ps[i]);
      SettingIsTheOccurrence(ps, i, 0);
    }
  }
}
