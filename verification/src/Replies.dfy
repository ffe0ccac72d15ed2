/**
 * What the application says about a packet, and the acknowledgement that answers it: the section it builds in a
 * buffer that outlives the packet, the refusals, and the reply as it goes out.
 */
module Replies {
  import opened Bytes
  import opened Header
  import opened Grammar
  import opened Walks
  import opened Connack
  import opened Builder
  import opened Packet
  import opened Wire
  import opened Ack
  import opened Received
  import opened Link
  import opened Client

  datatype PublishState =
    | Null | PublishSend | PubAckSend | PubRecSend | PubRelSend | PubCompSend
    | PubAckPending | PubRecPending | PubRelPending | PubCompPending | PublishDone

  /** `ack_type_to_send`: four states owe an acknowledgement, the others none. */
  function AckTypeToSend(state: PublishState): (kind: Option<byte>)
    ensures kind.Some? ==> IsPublishAck(kind.value)
  {
    match state
    case PubAckSend => Some(PUBACK)
    case PubRecSend => Some(PUBREC)
    case PubRelSend => Some(PUBREL)
    case PubCompSend => Some(PUBCOMP)
    case _ => None
  }

  /** What the application is told. Of a PUBLISH everything: flags, topic, properties and payload. */
  datatype Event = Event(kind: byte, packetId: u16, publish: Option<PublishInfo>, reasonCodes: seq<byte>,
                         properties: seq<byte>)

  /** A copy handed to the retransmit store, flattened. */
  datatype Copy = Copy(key: nat, bytes: seq<byte>)

  /**
   * What the publish records make of a packet: a move to the state that is calculated for it, a collision with a
   * record they hold, or a refusal. They have no other state to move to.
   */
  datatype Recorded = Moves | Collides | Refuses

  /**
   * All that is decided outside this model about one handling of one packet: what the publish records owe, what
   * the application builds and answers, and whether the store and the records agree to the reply.
   */
  datatype Ruling = Ruling(
    recorded: Recorded, sessions: seq<seq<Call>>, code: Option<byte>, accepts: bool, stores: bool, records: bool)

  predicate SessionsTyped(sessions: seq<seq<Call>>) {
    forall i :: 0 <= i < |sessions| ==> AllTyped(sessions[i])
  }

  /** The settings the handlers consult, which no handler changes. */
  datatype Settings = Settings(stateful: bool, clientMax: u32, topicAliasMax: u16, problemInfo: bool, serverMax: u32,
                               sessionExpiry: u32, capacity: nat, manage: bool)

  ghost function SettingsOf(context: MqttContext, manage: bool): Settings
    reads context`stateful, context`clientMaxPacketSize, context`clientTopicAliasMax, context`requestProblemInfo
    reads context`serverMaxPacketSize, context`sessionExpiry, context`ackProperties
  {
    Settings(context.stateful, context.clientMaxPacketSize, context.clientTopicAliasMax, context.requestProblemInfo,
             context.serverMaxPacketSize, context.sessionExpiry, context.ackProperties.Length, manage)
  }

  /** Everything the handling of a packet depends on besides the packet and the ruling. */
  datatype Ground = Ground(settings: Settings, status: ConnectionStatus, section: seq<byte>)

  ghost function GroundOf(context: MqttContext, manage: bool): Ground
    requires context.ackUsed <= context.ackProperties.Length
    reads context`stateful, context`clientMaxPacketSize, context`clientTopicAliasMax, context`requestProblemInfo
    reads context`serverMaxPacketSize, context`sessionExpiry, context`ackProperties, context`connectStatus
    reads context`ackUsed, context.ackProperties
  {
    Ground(SettingsOf(context, manage), context.connectStatus, context.ackProperties[..context.ackUsed])
  }

  /** How a handling ends: without a word, with an acknowledgement, or with the connection closed. */
  datatype Fate =
    | Ends(r: Result<(), ClientError>)
    | Answers(kind: byte, packetId: u16, packet: seq<byte>)
    | Closes(message: seq<byte>)

  /**
   * What a packet comes to: what the application hears, what the store releases, the section it builds, and the end.
   */
  datatype Plan = Plan(heard: seq<Event>, released: seq<nat>, section: seq<byte>, fate: Fate)

  /**
   * One thing a call of the loop did: a read that failed, a PINGREQ of which `out` got out, or the handling of a
   * packet; and the connection status it left.
   */
  datatype Step =
    | Unread(after: ConnectionStatus)
    | Pinged(out: seq<byte>, after: ConnectionStatus)
    | Handled(frame: seq<byte>, ground: Ground, ruling: Ruling, out: seq<byte>, after: ConnectionStatus)

  /** The application, its store and the records: an adversary whose rulings are fixed in advance but arbitrary. */
  class App {
    const rulings: nat -> Ruling
    var packets: nat
    var heard: seq<Event>
    var kept: seq<Copy>
    var cleared: seq<nat>

    /** Every packet handed to a handler, every PINGREQ the loop began and every read that failed, in order. */
    ghost var trace: seq<Step>

    constructor (rulings: nat -> Ruling)
      ensures this.rulings == rulings && packets == 0 && heard == [] && kept == [] && cleared == [] && trace == []
    {
      this.rulings := rulings;
      packets, heard, kept, cleared, trace := 0, [], [], [], [];
    }

    ghost predicate Plays() {
      forall k: nat :: SessionsTyped(rulings(k).sessions)
    }

    method Next() returns (ruling: Ruling)
      requires Plays()
      modifies this`packets
      ensures SessionsTyped(ruling.sessions) && packets == old(packets) + 1 && ruling == rulings(old(packets))
    {
      ruling := rulings(packets);
      packets := packets + 1;
    }
  }

  // ---- the application's turn -------------------------------------------------------------

  /** One adder call, by the identifier it adds. */
  method Perform(builder: PropertyBuilder, c: Call) returns (r: Result<(), BuilderError>)
    requires builder.Valid() && Typed(c.p)
    modifies builder, builder.buffer
    ensures builder.Performed(c.p, c.kind, r)
  {
    hide FieldOf, AllowedIn;
    var p, kind := c.p, c.kind;
    if p.id == SESSION_EXPIRY {
      r := builder.SessionExpiry(p.value.n, kind);
    } else if p.id == RECEIVE_MAX {
      r := builder.ReceiveMax(p.value.n, kind);
    } else if p.id == MAX_PACKET_SIZE {
      r := builder.MaxPacketSize(p.value.n, kind);
    } else if p.id == TOPIC_ALIAS_MAX {
      r := builder.TopicAliasMax(p.value.n, kind);
    } else if p.id == REQUEST_RESPONSE {
      r := builder.RequestResponseInfo(p.value.n == 1, kind);
    } else if p.id == REQUEST_PROBLEM {
      r := builder.RequestProblemInfo(p.value.n == 1, kind);
    } else if p.id == AUTH_METHOD {
      r := builder.AuthMethod(p.value.text, kind);
    } else if p.id == AUTH_DATA {
      r := builder.AuthData(p.value.text, kind);
    } else if p.id == PAYLOAD_FORMAT {
      r := builder.PayloadFormat(p.value.n == 1, kind);
    } else if p.id == MESSAGE_EXPIRY {
      r := builder.MessageExpiry(p.value.n, kind);
    } else if p.id == WILL_DELAY {
      r := builder.WillDelay(p.value.n, kind);
    } else if p.id == TOPIC_ALIAS {
      r := builder.TopicAlias(p.value.n, kind);
    } else if p.id == RESPONSE_TOPIC {
      r := builder.ResponseTopic(p.value.text, kind);
    } else if p.id == CORRELATION_DATA {
      r := builder.CorrelationData(p.value.text, kind);
    } else if p.id == CONTENT_TYPE {
      r := builder.ContentType(p.value.text, kind);
    } else if p.id == REASON_STRING {
      r := builder.ReasonString(p.value.text, kind);
    } else if p.id == SUBSCRIPTION_ID {
      r := builder.SubscriptionId(p.value.n, kind);
    } else {
      r := builder.UserProperty(p.value.key, p.value.text, kind);
    }
  }

  lemma {:induction false} RunOneMore(capacity: nat, from: State, calls: seq<Call>, i: nat)
    requires AllTyped(calls) && i < |calls|
    ensures Run(capacity, from, calls[..i + 1])
         == Add(capacity, Run(capacity, from, calls[..i]), calls[i].p, calls[i].kind)
    decreases i
  {
    hide Typed, Add;
    if i > 0 {
      var next := Add(capacity, from, calls[0].p, calls[0].kind);
      RunOneMore(capacity, next, calls[1..], i - 1);
      assert calls[..i + 1][1..] == calls[1..][..i] && calls[..i][1..] == calls[1..][..i - 1];
    } else {
      assert calls[..1][1..] == [] && calls[..0] == [];
    }
  }

  /** What a session appends is a whole section itself. */
  lemma AppendedBy(capacity: nat, base: seq<byte>, calls: seq<Call>) returns (more: seq<byte>)
    requires AllTyped(calls) && |base| <= capacity && ParseSection(base).Some?
    ensures Run(capacity, State(base, {}), calls).section == base + more && ParseSection(more).Some?
    ensures |base + more| <= capacity
  {
    hide Typed, Run, ParseSection, EncodeSection, WellBuilt, FieldSet, AllValid;
    assert Built(capacity, base, [], State(base, {})) by { NothingAdded(capacity, base); }
    RunStaysBuilt(capacity, base, [], State(base, {}), calls);
    var ps := [] + Kept(capacity, State(base, {}), calls);
    SectionExact(EncodeSection(ps), ps);
    more := EncodeSection(ps);
  }

  /** Whatever a resumed builder is asked to add, a whole section stays whole and only grows at its end. */
  lemma ResumedStaysWhole(capacity: nat, base: seq<byte>, calls: seq<Call>)
    requires AllTyped(calls) && |base| <= capacity && ParseSection(base).Some?
    ensures var section := Run(capacity, State(base, {}), calls).section;
            base <= section && |section| <= capacity && ParseSection(section).Some?
  {
    hide Typed, Run, ParseSection;
    var more := AppendedBy(capacity, base, calls);
    ParseAppend(base, more);
  }

  lemma NothingAdded(capacity: nat, base: seq<byte>)
    requires |base| <= capacity
    ensures Built(capacity, base, [], State(base, {}))
  {
    assert base + [] == base;
  }

  /**
   * The section after the application's adder calls, each session of them over a builder resumed where the last
   * stopped.
   */
  function Replied(capacity: nat, base: seq<byte>, sessions: seq<seq<Call>>): seq<byte>
    requires SessionsTyped(sessions)
  {
    if sessions == [] then base
    else
      var before := Replied(capacity, base, sessions[..|sessions| - 1]);
      if ResumeVerdict(capacity, |before|).Err? then before
      else Run(capacity, State(before, {}), sessions[|sessions| - 1]).section
  }

  /** `with_properties`: the builder is resumed, not started, so what is already there stays in front. */
  method WithProperties(context: MqttContext, calls: seq<Call>)
    requires AllTyped(calls) && context.ReplyWhole()
    modifies context`ackUsed, context.ackProperties
    ensures context.ReplyWhole()
    ensures var before := old(context.ackProperties[..context.ackUsed]);
            context.ackProperties[..context.ackUsed]
            == if ResumeVerdict(context.ackProperties.Length, |before|).Err? then before
               else Run(context.ackProperties.Length, State(before, {}), calls).section
  {
    hide Run, Typed, ParseSection, Add, AdderVerdict;
    if context.ackProperties.Length == 0 {
      return;
    }
    if ResumeVerdict(context.ackProperties.Length, context.ackUsed).Err? {
      return;
    }
    ghost var base := context.ackProperties[..context.ackUsed];
    ghost var capacity := context.ackProperties.Length;
    ghost var from := State(base, {});
    var builder := new PropertyBuilder.Resume(context.ackProperties, context.ackUsed);
    var i := 0;
    RunNothing(capacity, from, calls);
    while i < |calls|
      invariant i <= |calls| && builder.Valid() && fresh(builder) && builder.buffer == context.ackProperties
      invariant builder.Current() == Run(capacity, from, calls[..i])
      invariant context.ackUsed == old(context.ackUsed)
    {
      RunOneMore(capacity, from, calls, i);
      var _ := Perform(builder, calls[i]);
      i := i + 1;
    }
    assert calls[..i] == calls;
    ResumedStaysWhole(capacity, base, calls);
    context.ackUsed := builder.at;
  }

  lemma RunNothing(capacity: nat, from: State, calls: seq<Call>)
    requires AllTyped(calls)
    ensures Run(capacity, from, calls[..0]) == from
  {
  }

  /**
   * `dispatch`: the application hears of the packet and may build a reply; one it was not asked for is dropped.
   * Its answer, and the reason code it set.
   */
  method Dispatch(context: MqttContext, app: App, event: Event, wantsReply: bool, ruling: Ruling)
    returns (accepted: bool, code: Option<byte>)
    requires SessionsTyped(ruling.sessions) && context.ReplyWhole()
    modifies context`ackUsed, context.ackProperties, app`heard
    ensures context.ReplyWhole() && app.heard == old(app.heard) + [event]
    ensures accepted == ruling.accepts && code == if wantsReply then ruling.code else None
    ensures context.ackProperties[..context.ackUsed]
         == Replied(context.ackProperties.Length, old(context.ackProperties[..context.ackUsed]),
                    if wantsReply then ruling.sessions else [])
  {
    hide Run, Typed, ParseSection;
    app.heard := app.heard + [event];
    ghost var base := context.ackProperties[..context.ackUsed];
    if wantsReply {
      var i := 0;
      while i < |ruling.sessions|
        invariant i <= |ruling.sessions| && context.ReplyWhole() && app.heard == old(app.heard) + [event]
        invariant SessionsTyped(ruling.sessions[..i])
        invariant context.ackProperties[..context.ackUsed]
               == Replied(context.ackProperties.Length, base, ruling.sessions[..i])
      {
        assert ruling.sessions[..i + 1][..i] == ruling.sessions[..i];
        WithProperties(context, ruling.sessions[i]);
        i := i + 1;
      }
      assert ruling.sessions[..i] == ruling.sessions;
    }
    return ruling.accepts, if wantsReply then ruling.code else None;
  }

  // ---- the reply --------------------------------------------------------------------------

  /** `validate_publish_ack_reason_code`: an application that set no code is refused. */
  predicate AckCodeValid(code: Option<byte>, kind: byte) {
    && code.Some?
    && (code.value == 0x00
        || (code.value in {0x10, 0x80, 0x83, 0x87, 0x90, 0x91, 0x97, 0x99} && (kind == PUBACK || kind == PUBREC))
        || (code.value == 0x92 && (kind == PUBREL || kind == PUBCOMP)))
  }

  /** The loop's own table of codes is the serializer's. */
  lemma TwoCodeTablesAgree(kind: byte, code: byte)
    requires IsPublishAck(kind)
    ensures AckCodeValid(Some(code), kind) <==> CodeWritable(kind, code)
  {
  }

  /** `ack_packet_size`: the remaining length, when the packet is legal and not too large for the server. */
  function AckPacketSize(maxPacketSize: u32, propertyLength: nat): Option<u32> {
    if maxPacketSize == 0 || propertyLength > MAX_REMAINING_LENGTH then None
    else
      var remaining := SaturatingAdd(SaturatingAdd(3, SizeVar(propertyLength)), propertyLength);
      if remaining > MAX_REMAINING_LENGTH then None
      else if SaturatingAdd(SaturatingAdd(remaining, 1), SizeVar(remaining)) > maxPacketSize then None
      else Some(remaining)
  }

  lemma AckSizeIsTrue(maxPacketSize: u32, kind: byte, packetId: u16, code: byte, section: seq<byte>)
    requires AckPacketSize(maxPacketSize, |section|).Some?
    ensures AckPacketSize(maxPacketSize, |section|).value
            == |AckBody(packetId, Some(code), section)| <= MAX_REMAINING_LENGTH
    ensures |AckPacket(kind, packetId, Some(code), section)| <= maxPacketSize
  {
    hide EncodeVar, SizeVar;
    SizeVarIsLength(|section|);
    SizeVarIsLength(AckPacketSize(maxPacketSize, |section|).value);
  }

  /** And what it accepts: a packet that is legal and no larger than the server takes. */
  lemma AckSizeExact(maxPacketSize: u32, kind: byte, packetId: u16, code: byte, section: seq<byte>)
    ensures AckPacketSize(maxPacketSize, |section|).Some? <==>
              && |section| <= MAX_REMAINING_LENGTH && |AckBody(packetId, Some(code), section)| <= MAX_REMAINING_LENGTH
              && |AckPacket(kind, packetId, Some(code), section)| <= maxPacketSize
  {
    hide EncodeVar, SizeVar;
    if |section| <= MAX_REMAINING_LENGTH {
      SizeVarIsLength(|section|);
      if |AckBody(packetId, Some(code), section)| <= MAX_REMAINING_LENGTH {
        SizeVarIsLength(|AckBody(packetId, Some(code), section)|);
      }
    }
  }

  /** Everything that refuses a reply before anything of it is sent, in the order the two senders ask. */
  function ReplyRefusal(kind: Option<byte>, packetId: u16, code: Option<byte>, section: seq<byte>, serverMax: u32,
                        status: Option<ClientError>): Option<ClientError>
  {
    if section == [] && code.None? then
      if kind.None? then None
      else if packetId == 0 || serverMax < 4 then Some(ClientError.BadParameter)
      else status
    else if kind.Some? && ((section != [] && WalkSection(PublishAck, section).Refused?)
                           || !AckCodeValid(code, kind.value) || AckPacketSize(serverMax, |section|).None?)
    then Some(ClientError.BadParameter)
    else status
  }

  /** Acknowledgements a broker may ask for again are copied to the store before they go out. */
  predicate IsStored(kind: byte) {
    kind != PUBACK && kind != PUBCOMP
  }

  /** `incoming_key`. */
  function IncomingKey(packetId: u16): nat {
    packetId as int + 0x1_0000
  }

  /** A reply nothing refused: stored if it must be, sent as one packet, then told to the records. */
  twostate predicate ReplyGiven(context: MqttContext, transport: Transport, app: App, kind: byte, packet: seq<byte>,
                                packetId: u16, ruling: Ruling, sent: nat, new r: Result<(), ClientError>)
    reads context, transport, app
  {
    if IsStored(kind) && !ruling.stores then
      && r == Err(ClientError.PublishStoreFailed) && sent == 0 && transport.log == old(transport.log)
      && app.kept == old(app.kept) && context.connectStatus == old(context.connectStatus)
      && context.controlPacketSent == old(context.controlPacketSent)
    else
      && sent <= |packet| && transport.log == old(transport.log) + packet[..sent]
      && (sent == |packet| ==> context.connectStatus == old(context.connectStatus))
      && r == (if sent < |packet| then Err(ClientError.SendFailed)
               else if context.stateful && !ruling.records then Err(ClientError.StateError) else Ok(()))
      && app.kept == old(app.kept) + (if IsStored(kind) then [Copy(IncomingKey(packetId), packet)] else [])
      && context.controlPacketSent == (old(context.controlPacketSent) || sent == |packet|)
  }

  /** What a reply never touches. */
  twostate predicate Untouched(context: MqttContext, transport: Transport, app: App)
    reads context, transport, app
  {
    && transport.log == old(transport.log) && transport.offers == old(transport.offers) && app.kept == old(app.kept)
    && context.ackUsed == old(context.ackUsed) && context.connectStatus == old(context.connectStatus)
    && context.controlPacketSent == old(context.controlPacketSent)
  }

  /** The store is offered a copy of what is about to go out. */
  method StoreCopy(app: App, kind: byte, packetId: u16, ghost packet: seq<byte>, bytes: seq<byte>, ruling: Ruling)
    returns (ok: bool)
    requires bytes == packet
    modifies app`kept
    ensures ok <==> !IsStored(kind) || ruling.stores
    ensures app.kept
            == old(app.kept) + (if IsStored(kind) && ruling.stores then [Copy(IncomingKey(packetId), packet)] else [])
  {
    if !IsStored(kind) {
      return true;
    }
    if ruling.stores {
      app.kept := app.kept + [Copy(IncomingKey(packetId), bytes)];
    }
    return ruling.stores;
  }

  /** `send_publish_acks_without_property`: four bytes through the buffer sender. */
  method SendWithoutProperty(context: MqttContext, transport: Transport, clock: Clock, app: App, packetId: u16,
                             state: PublishState, ruling: Ruling)
    returns (r: Result<(), ClientError>, ghost sent: nat)
    requires Lively(transport, clock)
    modifies context`connectStatus, context`lastPacketTxTime, context`sentAt, context`controlPacketSent, transport
    modifies clock, app`kept
    ensures var kind := AckTypeToSend(state);
            var refusal := ReplyRefusal(kind, packetId, None, [], context.serverMaxPacketSize,
                                        old(context.StatusRefusal()));
            if refusal.Some? || kind.None?
            then Untouched(context, transport, app) && sent == 0
                 && r == if refusal.Some? then Err(refusal.value) else Ok(())
            else ReplyGiven(context, transport, app, kind.value, AckPacket(kind.value, packetId, None, []), packetId,
                            ruling, sent, r)
    ensures Final(r) && transport.receives == old(transport.receives)
    ensures context.connectStatus in {old(context.connectStatus), AfterFailure(old(context.connectStatus))}
    ensures old(context.Timed(clock)) ==> context.Timed(clock)
  {
    hide AckPacket, AckBody, CodeWritable, OfferedRest, MqttContext.Timed;
    var kind := AckTypeToSend(state);
    if kind.None? {
      return Ok(()), 0;
    }
    var packet := new byte[4];
    BareAck(kind.value, packetId);
    var written := SerializeAck(packet, kind.value, packetId, None, []);
    if written.Err? {
      return Err(ClientError.BadParameter), 0;
    }
    if 4 > context.serverMaxPacketSize {
      return Err(ClientError.BadParameter), 0;
    }
    if context.StatusRefusal().Some? {
      return Err(context.StatusRefusal().value), 0;
    }
    var bytes := packet[..written.value];
    assert bytes == AckPacket(kind.value, packetId, None, []);
    var stored := StoreCopy(app, kind.value, packetId, bytes, bytes, ruling);
    if !stored {
      return Err(ClientError.PublishStoreFailed), 0;
    }
    var outcome, count, _ := context.SendBuffer(transport, clock, bytes);
    sent := count;
    if outcome != Delivered(written.value) {
      return Err(ClientError.SendFailed), sent;
    }
    context.controlPacketSent := true;
    if context.stateful && !ruling.records {
      return Err(ClientError.StateError), sent;
    }
    return Ok(()), sent;
  }

  lemma BareAck(kind: byte, packetId: u16)
    requires IsPublishAck(kind)
    ensures |AckPacket(kind, packetId, None, [])| == 4
    ensures Writable(kind, packetId, None, []) <==> packetId != 0
  {
    SmallPackets(kind, packetId, None);
  }

  /** `serialize_ack_fixed`: type, length, identifier and code, or nothing; every illegal length is refused. */
  method SerializeAckFixed(dest: array<byte>, kind: byte, packetId: u16, remaining: u32, code: byte)
    returns (written: nat)
    modifies dest
    ensures var header := [kind] + EncodeVar(remaining) + Be16(packetId) + [code];
            if remaining <= MAX_REMAINING_LENGTH && |header| <= dest.Length
            then written == |header| && dest[..] == Splice(old(dest[..]), 0, header)
            else written == 0
    ensures dest.Length < 1 + SizeVar(remaining) + 3 ==> dest[..] == old(dest[..])
  {
    hide EncodeVar;
    if remaining <= MAX_REMAINING_LENGTH {
      WholeEncoding(remaining);
    }
    var total := 1 + SizeVar(remaining) + 2 + 1;
    if dest.Length < total {
      return 0;
    }
    var encoded := WriteFront(dest, kind, remaining);
    if encoded != SizeVar(remaining) {
      return 0;
    }
    ghost var front := [kind] + EncodeVar(remaining);
    Continue(dest, old(dest[..]), 0, front, 1 + encoded, Be16(packetId));
    Continue(dest, old(dest[..]), 0, front + Be16(packetId), 1 + encoded + 2, [code]);
    return total;
  }

  /** The slices of a reply with a code: header, encoded length, and the section when there is one. */
  function ReplyVectors(kind: byte, packetId: u16, remaining: nat, code: byte, section: seq<byte>): seq<seq<byte>> {
    [[kind] + EncodeVar(remaining) + Be16(packetId) + [code], EncodeVar(|section|)]
    + (if section == [] then [] else [section])
  }

  lemma ReplyVectorsArePacket(kind: byte, packetId: u16, code: byte, section: seq<byte>)
    ensures Flatten(ReplyVectors(kind, packetId, |AckBody(packetId, Some(code), section)|, code, section))
         == AckPacket(kind, packetId, Some(code), section)
  {
    hide EncodeVar, Be16;
    var n := |AckBody(packetId, Some(code), section)|;
    var v := ReplyVectors(kind, packetId, n, code, section);
    OneSlice(section);
    assert v[1..][1..] == if section == [] then [] else [section];
    Join([kind], EncodeVar(n), Be16(packetId), [code], EncodeVar(|section|), section);
  }

  lemma Join(a: seq<byte>, b: seq<byte>, c: seq<byte>, d: seq<byte>, e: seq<byte>, f: seq<byte>)
    ensures a + b + c + d + (e + f) == a + b + (c + (d + (e + f)))
  {
  }

  /** The header is written into eight bytes and the encoded length into four. */
  method ReplyGather(kind: byte, packetId: u16, remaining: u32, code: byte, section: seq<byte>)
    returns (vectors: array<seq<byte>>)
    requires |section| <= MAX_REMAINING_LENGTH && remaining <= MAX_REMAINING_LENGTH
    ensures fresh(vectors) && vectors[..] == ReplyVectors(kind, packetId, remaining, code, section)
  {
    hide EncodeVar, SizeVar;
    SizeVarIsLength(remaining);
    SizeVarIsLength(|section|);
    var header := new byte[8];
    var written := SerializeAckFixed(header, kind, packetId, remaining, code);
    assert header[..written] == [kind] + EncodeVar(remaining) + Be16(packetId) + [code];
    var field := new byte[4];
    var encoded := EncodeVariableLength(field, 0, |section|);
    assert field[..encoded] == EncodeVar(|section|);
    if section == [] {
      vectors := new seq<byte>[][header[..written], field[..encoded]];
    } else {
      vectors := new seq<byte>[][header[..written], field[..encoded], section];
    }
  }

  /**
   * `build_and_send_ack_with_props`: the cursor is emptied before the send, so a send that fails has still consumed
   * the section; the buffer itself is taken out of the context for the duration and put back.
   */
  method BuildAndSendAckWithProps(context: MqttContext, transport: Transport, clock: Clock, app: App, kind: byte,
                                  packetId: u16, code: byte, remaining: u32, propertyLength: nat, ruling: Ruling)
    returns (r: Result<(), ClientError>, ghost sent: nat)
    requires Lively(transport, clock) && propertyLength == context.ackUsed <= context.ackProperties.Length
    requires AckPacketSize(context.serverMaxPacketSize, propertyLength) == Some(remaining)
    modifies context`connectStatus, context`lastPacketTxTime, context`sentAt, context`ackUsed, context`ackProperties
    modifies transport, clock, app`kept
    ensures context.ackProperties == old(context.ackProperties) && context.ackUsed == 0
    ensures var packet := AckPacket(kind, packetId, Some(code), old(context.ackProperties[..context.ackUsed]));
            if IsStored(kind) && !ruling.stores
            then r == Err(ClientError.PublishStoreFailed) && sent == 0 && transport.log == old(transport.log)
                 && app.kept == old(app.kept) && context.connectStatus == old(context.connectStatus)
            else && sent <= |packet| && transport.log == old(transport.log) + packet[..sent]
                 && (sent == |packet| ==> context.connectStatus == old(context.connectStatus))
                 && r == (if sent < |packet| then Err(ClientError.SendFailed) else Ok(()))
                 && app.kept == old(app.kept) + (if IsStored(kind) then [Copy(IncomingKey(packetId), packet)] else [])
    ensures Final(r) && transport.receives == old(transport.receives)
    ensures context.connectStatus in {old(context.connectStatus), AfterFailure(old(context.connectStatus))}
    ensures old(context.Timed(clock)) ==> context.Timed(clock)
  {
    hide AckPacket, AckBody, ReplyVectors, OfferedRest, Flatten, AckPacketSize, MqttContext.Timed, Lively, IsStored;
    ghost var section, timed := context.ackProperties[..context.ackUsed], context.Timed(clock);
    assert propertyLength <= MAX_REMAINING_LENGTH
        && remaining == |AckBody(packetId, Some(code), section)| <= MAX_REMAINING_LENGTH by {
      AckSizeBound(context.serverMaxPacketSize, propertyLength);
      AckSizeIsTrue(context.serverMaxPacketSize, kind, packetId, code, section);
    }
    if propertyLength > 0 {
      context.ackUsed := 0;
    }
    var buffer := context.ackProperties;
    context.ackProperties := new byte[0];
    var properties := buffer[..propertyLength];
    var gather := ReplyGather(kind, packetId, remaining, code, properties);
    ReplyVectorsArePacket(kind, packetId, code, section);
    var total := TotalLength(gather);
    var stored := StoreCopy(app, kind, packetId, AckPacket(kind, packetId, Some(code), section),
                            Flatten(gather[..]), ruling);
    assert timed ==> context.Timed(clock);
    if !stored {
      context.ackProperties := buffer;
      return Err(ClientError.PublishStoreFailed), 0;
    }
    var outcome, count, _ := context.SendVectors(transport, clock, gather);
    context.ackProperties := buffer;
    return (if outcome == Delivered(total) then Ok(()) else Err(ClientError.SendFailed)), count;
  }

  lemma AckSizeBound(maxPacketSize: u32, propertyLength: nat)
    requires AckPacketSize(maxPacketSize, propertyLength).Some?
    ensures propertyLength <= MAX_REMAINING_LENGTH
  {
  }

  /** `send_publish_acks_with_property`. */
  method SendWithProperty(context: MqttContext, transport: Transport, clock: Clock, app: App, packetId: u16,
                          state: PublishState, code: Option<byte>, propertyLength: nat, ruling: Ruling)
    returns (r: Result<(), ClientError>, ghost sent: nat)
    requires Lively(transport, clock) && context.ReplyWhole() && propertyLength == context.ackUsed
    requires propertyLength > 0 || code.Some?
    modifies context`connectStatus, context`lastPacketTxTime, context`sentAt, context`controlPacketSent, context`ackUsed
    modifies context`ackProperties, transport, clock, app`kept
    ensures context.ackProperties == old(context.ackProperties)
    ensures var kind, section := AckTypeToSend(state), old(context.ackProperties[..context.ackUsed]);
            var refusal := ReplyRefusal(kind, packetId, code, section, context.serverMaxPacketSize,
                                        old(context.StatusRefusal()));
            if refusal.Some? || kind.None?
            then Untouched(context, transport, app) && sent == 0
                 && r == if refusal.Some? then Err(refusal.value) else Ok(())
            else context.ackUsed == 0
                 && ReplyGiven(context, transport, app, kind.value, AckPacket(kind.value, packetId, code, section),
                               packetId, ruling, sent, r)
    ensures Final(r) && transport.receives == old(transport.receives)
    ensures context.connectStatus in {old(context.connectStatus), AfterFailure(old(context.connectStatus))}
    ensures old(context.Timed(clock)) ==> context.Timed(clock)
  {
    hide AckPacket, WalkFrom, ParseSection, AckPacketSize, MqttContext.Timed;
    var kind := AckTypeToSend(state);
    ghost var section := context.ackProperties[..context.ackUsed];
    if kind.Some? {
      if propertyLength > 0 {
        var v := ValidatePublishAckProperties(context.ackProperties[..propertyLength]);
        if v.Err? {
          return Err(ClientError.BadParameter), 0;
        }
      }
      if !AckCodeValid(code, kind.value) {
        return Err(ClientError.BadParameter), 0;
      }
      if AckPacketSize(context.serverMaxPacketSize, propertyLength).None? {
        return Err(ClientError.BadParameter), 0;
      }
    }
    if context.StatusRefusal().Some? {
      return Err(context.StatusRefusal().value), 0;
    }
    if kind.None? {
      return Ok(()), 0;
    }
    var remaining := AckPacketSize(context.serverMaxPacketSize, propertyLength).value;
    r, sent := BuildAndSendAckWithProps(context, transport, clock, app, kind.value, packetId, code.value, remaining,
                                        propertyLength, ruling);
    if r.Err? {
      return;
    }
    context.controlPacketSent := true;
    if context.stateful && !ruling.records {
      r := Err(ClientError.StateError);
    }
  }

  /** What becomes of a reply that is wanted: refused, not owed after all, or sent. */
  function ReplyFate(kind: Option<byte>, packetId: u16, code: Option<byte>, section: seq<byte>, serverMax: u32,
                     status: Option<ClientError>): Fate
  {
    var refusal := ReplyRefusal(kind, packetId, code, section, serverMax, status);
    if refusal.Some? then Ends(Err(refusal.value))
    else if kind.None? then Ends(Ok(()))
    else Answers(kind.value, packetId, AckPacket(kind.value, packetId, code, section))
  }

  /** `send_ack_for`: which of the two senders depends only on whether the application said anything. */
  method SendAckFor(context: MqttContext, transport: Transport, clock: Clock, app: App, packetId: u16,
                    state: PublishState, code: Option<byte>, ruling: Ruling)
    returns (r: Result<(), ClientError>, ghost out: seq<byte>)
    requires Lively(transport, clock) && context.ReplyWhole()
    modifies context`connectStatus, context`lastPacketTxTime, context`sentAt, context`controlPacketSent, context`ackUsed
    modifies context`ackProperties, transport, clock, app`kept
    ensures context.ReplyWhole() && context.ackProperties == old(context.ackProperties)
    ensures var section := old(context.ackProperties[..context.ackUsed]);
            var fate := ReplyFate(AckTypeToSend(state), packetId, code, section, context.serverMaxPacketSize,
                                  old(context.StatusRefusal()));
            && Carried(context, transport, app, Plan([], [], section, fate), ruling, context.stateful, out, r)
            && (out == Spoken(fate, ruling) ==> context.connectStatus == old(context.connectStatus))
    ensures Final(r) && transport.receives == old(transport.receives)
    ensures context.connectStatus in {old(context.connectStatus), AfterFailure(old(context.connectStatus))}
    ensures old(context.Timed(clock)) ==> context.Timed(clock)
  {
    hide MqttContext.Timed;
    hide AckPacket, WalkFrom, AckPacketSize, ReplyRefusal, ParseSection, Lively, IncomingKey, IsStored, AckTypeToSend;
    ghost var log, sent := transport.log, 0;
    if context.ackUsed == 0 && code.None? {
      r, sent := SendWithoutProperty(context, transport, clock, app, packetId, state, ruling);
    } else {
      r, sent := SendWithProperty(context, transport, clock, app, packetId, state, code, context.ackUsed, ruling);
    }
    out := transport.log[|log|..];
    NoProperties();
    if AckTypeToSend(state).Some? {
      SomethingToSay(AckTypeToSend(state).value, packetId, code, old(context.ackProperties[..context.ackUsed]));
    }
    assert context.ackUsed == 0 ==> context.ackProperties[..context.ackUsed] == [];
  }

  lemma SomethingToSay(kind: byte, packetId: u16, code: Option<byte>, section: seq<byte>)
    ensures AckPacket(kind, packetId, code, section) != []
  {
    hide EncodeVar, AckBody;
  }

  lemma NoProperties()
    ensures ParseSection([]).Some?
  {
  }

  // ---- one packet, told and answered ------------------------------------------------------

  /** What goes out if the transport takes all of it. */
  function Spoken(fate: Fate, ruling: Ruling): seq<byte> {
    match fate
    case Ends(_) => []
    case Answers(kind, _, packet) => if IsStored(kind) && !ruling.stores then [] else packet
    case Closes(message) => message
  }

  /** An acknowledgement got out whole. */
  predicate GoesWhole(fate: Fate, out: seq<byte>) {
    fate.Answers? && out == fate.packet
  }

  function Copies(fate: Fate, ruling: Ruling): seq<Copy> {
    if fate.Answers? && IsStored(fate.kind) && ruling.stores then [Copy(IncomingKey(fate.packetId), fate.packet)]
        else []
  }

  /** What the handler answers, once it is known whether all of that got out. */
  function Outcome(fate: Fate, ruling: Ruling, stateful: bool, whole: bool): Result<(), ClientError> {
    match fate
    case Ends(r) => r
    case Closes(_) => Err(if whole then ClientError.NotConnected else ClientError.SendFailed)
    case Answers(kind, _, _) =>
      if IsStored(kind) && !ruling.stores then Err(ClientError.PublishStoreFailed)
      else if !whole then Err(ClientError.SendFailed)
      else if stateful && !ruling.records then Err(ClientError.StateError)
      else Ok(())
  }

  /** The reply section is emptied exactly on the way to a reply, whatever becomes of it. */
  function SectionAfter(plan: Plan): seq<byte> {
    if plan.fate.Answers? then [] else plan.section
  }

  /** The plan was carried out, `out` being what the transport took. */
  twostate predicate Carried(context: MqttContext, transport: Transport, app: App, plan: Plan, ruling: Ruling,
                             stateful: bool, out: seq<byte>, new r: Result<(), ClientError>)
    reads context`ackUsed, context`ackProperties, context`controlPacketSent, context.ackProperties
    reads transport`log, transport`offers, app`heard, app`kept, app`cleared
  {
    var spoken := Spoken(plan.fate, ruling);
    && app.heard == old(app.heard) + plan.heard && app.cleared == old(app.cleared) + plan.released
    && app.kept == old(app.kept) + Copies(plan.fate, ruling)
    && out <= spoken && transport.log == old(transport.log) + out
    && r == Outcome(plan.fate, ruling, stateful, out == spoken)
    && (plan.fate.Ends? ==> transport.offers == old(transport.offers))
    && context.controlPacketSent == (old(context.controlPacketSent) || GoesWhole(plan.fate, out))
    && context.ackUsed <= context.ackProperties.Length
    && context.ackProperties[..context.ackUsed] == SectionAfter(plan)
  }

  /** A packet nobody hears of. */
  function Quietly(g: Ground, r: Result<(), ClientError>): Plan {
    Plan([], [], g.section, Ends(r))
  }

  /** The application hears of a packet, and the reply it may have built goes out. */
  function AnswerPlan(g: Ground, ruling: Ruling, event: Event, tells: bool, wantsReply: bool, state: PublishState): Plan
    requires SessionsTyped(ruling.sessions)
  {
    var mayReply := tells && wantsReply;
    var code := if mayReply then ruling.code else None;
    var section := Replied(g.settings.capacity, g.section, if mayReply then ruling.sessions else []);
    Plan(if tells then [event] else [], [], section,
         if tells && !ruling.accepts then Ends(Err(ClientError.EventCallbackFailed))
         else if !wantsReply then Ends(Ok(()))
         else ReplyFate(AckTypeToSend(state), event.packetId, code, section, g.settings.serverMax, RefusalOf(g.status)))
  }

  /** The end of both publish handlers: dispatch, and the acknowledgement when one is owed. */
  method TellAndReply(context: MqttContext, transport: Transport, clock: Clock, app: App, ruling: Ruling, event: Event,
                      tells: bool, wantsReply: bool, state: PublishState, ghost g: Ground)
    returns (r: Result<(), ClientError>, ghost out: seq<byte>)
    requires Lively(transport, clock) && SessionsTyped(ruling.sessions) && context.ReplyWhole()
    requires g == GroundOf(context, g.settings.manage)
    modifies context`connectStatus, context`lastPacketTxTime, context`sentAt, context`controlPacketSent, context`ackUsed
    modifies context`ackProperties, context.ackProperties, transport, clock, app`kept, app`heard
    ensures context.ReplyWhole() && context.ackProperties == old(context.ackProperties)
    ensures var plan := AnswerPlan(g, ruling, event, tells, wantsReply, state);
            && Carried(context, transport, app, plan, ruling, g.settings.stateful, out, r)
            && (out == Spoken(plan.fate, ruling) ==> context.connectStatus == old(context.connectStatus))
    ensures Final(r) && transport.receives == old(transport.receives)
    ensures context.connectStatus in {old(context.connectStatus), AfterFailure(old(context.connectStatus))}
    ensures old(context.Timed(clock)) ==> context.Timed(clock)
  {
    hide ReplyFate, ParseSection, AckTypeToSend, Run, Typed, Lively, Replied, MqttContext.Timed;
    out := [];
    NoSessions(g.settings.capacity, g.section);
    var accepted, code := true, None;
    if tells {
      accepted, code := Dispatch(context, app, event, wantsReply, ruling);
    }
    if !accepted {
      return Err(ClientError.EventCallbackFailed), [];
    }
    // The source refuses a section of 2^28 bytes or more here; a builder cannot have been put over such a buffer.
    assert context.ackUsed < REMAINING_LENGTH_INVALID;
    if !wantsReply {
      return Ok(()), [];
    }
    r, out := SendAckFor(context, transport, clock, app, event.packetId, state, code, ruling);
  }

  lemma TypedNothing()
    ensures SessionsTyped([])
  {
  }

  lemma NoSessions(capacity: nat, base: seq<byte>)
    ensures Replied(capacity, base, []) == base
  {
  }

  /**
   * A reply nothing refuses is a packet the serializer would write and the reading side accepts, no larger than
   * the server takes.
   */
  lemma ReplyIsReadable(kind: byte, packetId: u16, code: Option<byte>, section: seq<byte>, serverMax: u32,
                        status: Option<ClientError>, rest: seq<byte>)
    requires IsPublishAck(kind) && packetId != 0 && (section == [] || ParseSection(section).Some?)
    requires ReplyRefusal(Some(kind), packetId, code, section, serverMax, status).None?
    ensures Writable(kind, packetId, code, section) && |AckPacket(kind, packetId, code, section)| <= serverMax
    ensures var s := AckPacket(kind, packetId, code, section) + rest;
            && DecodeHeader(s).Header? && DecodeHeader(s).kind == kind
            && DeserializeAck(PacketInfo(kind, DecodeHeader(s).remaining, s[DecodeHeader(s).width..]), serverMax, true)
               == Ok(AckInfo(Some(packetId), if code.Some? then [code.value] else [], section))
  {
    hide AckPacket, WalkFrom, ParseSection, DecodeHeader, DeserializeAck, AckPacketSize, AckBody, CodeWritable;
    hide AckCodeValid;
    if code.None? {
      BareAck(kind, packetId);
      assert AckCodeValid(None, kind) == false by { NoCodeIsRefused(kind); }
    } else {
      TwoCodeTablesAgree(kind, code.value);
      AckSizeIsTrue(serverMax, kind, packetId, code.value, section);
      AckSizeBound(serverMax, |section|);
      SectionIsReadable(section);
      assert serverMax > 0 by { AckSizePositive(serverMax, |section|); }
    }
    AckRoundTrip(kind, packetId, code, section, rest, serverMax, true);
  }

  lemma NoCodeIsRefused(kind: byte)
    ensures !AckCodeValid(None, kind)
  {
  }

  lemma AckSizePositive(maxPacketSize: u32, propertyLength: nat)
    requires AckPacketSize(maxPacketSize, propertyLength).Some?
    ensures maxPacketSize > 0
  {
  }

  /** The validator's walk and the reader's walk have one table. */
  lemma SectionIsReadable(section: seq<byte>)
    requires section == [] || WalkSection(PublishAck, section).Accepted?
    ensures WalkSection(Walker.Ack, section).Accepted?
  {
    hide WalkFrom, ParseSection;
    if section == [] {
      EmptyWalk(Walker.Ack, section, {});
    } else {
      var ps := WalkSection(PublishAck, section).ps;
      WalkExact(PublishAck, section, {}, ps);
      WalkExact(Walker.Ack, section, {}, ps);
    }
  }

  // ---- a section that can never be sent ---------------------------------------------------

  /** Which whole sections a reply refuses: a property no acknowledgement carries, or a second reason string. */
  lemma RefusedSections(section: seq<byte>, ps: seq<Property>)
    requires ParseSection(section) == Some(ps)
    ensures WalkSection(PublishAck, section).Accepted? <==>
              && (forall i :: 0 <= i < |ps| ==> ps[i].id == REASON_STRING || ps[i].id == USER_PROPERTY)
              && (forall i, j :: 0 <= i < j < |ps| && ps[i].id == REASON_STRING ==> ps[j].id != REASON_STRING)
  {
    hide WalkFrom, ParseSection;
    WalkExact(PublishAck, section, {}, ps);
    if WalkSection(PublishAck, section).Accepted? {
      WalkExact(PublishAck, section, {}, WalkSection(PublishAck, section).ps);
    }
  }

  /** Nothing appended to a refused section makes it acceptable. */
  lemma RefusalGrows(section: seq<byte>, more: seq<byte>)
    requires ParseSection(section).Some? && ParseSection(more).Some?
    requires WalkSection(PublishAck, section).Refused?
    ensures ParseSection(section + more).Some? && WalkSection(PublishAck, section + more).Refused?
  {
    hide WalkFrom, ParseSection;
    var a, b := ParseSection(section).value, ParseSection(more).value;
    ParseAppend(section, more);
    RefusedSections(section, a);
    RefusedSections(section + more, a + b);
    assert forall i :: 0 <= i < |a| ==> (a + b)[i] == a[i];
  }

  lemma {:induction false} RepliedStaysWhole(capacity: nat, base: seq<byte>, sessions: seq<seq<Call>>)
    requires SessionsTyped(sessions) && |base| <= capacity && ParseSection(base).Some?
    ensures |Replied(capacity, base, sessions)| <= capacity && ParseSection(Replied(capacity, base, sessions)).Some?
    decreases |sessions|
  {
    hide ParseSection, Run, AllTyped;
    if sessions != [] {
      RepliedStaysWhole(capacity, base, sessions[..|sessions| - 1]);
      ResumedStaysWhole(capacity, Replied(capacity, base, sessions[..|sessions| - 1]), sessions[|sessions| - 1]);
    }
  }

  lemma {:induction false} RepliedStaysRefused(capacity: nat, base: seq<byte>, sessions: seq<seq<Call>>)
    requires SessionsTyped(sessions) && |base| <= capacity && ParseSection(base).Some?
    requires WalkSection(PublishAck, base).Refused?
    ensures var section := Replied(capacity, base, sessions);
            |section| <= capacity && ParseSection(section).Some? && WalkSection(PublishAck, section).Refused?
    decreases |sessions|
  {
    hide WalkFrom, ParseSection, Run, AllTyped;
    if sessions != [] {
      var calls := sessions[|sessions| - 1];
      var before := Replied(capacity, base, sessions[..|sessions| - 1]);
      RepliedStaysRefused(capacity, base, sessions[..|sessions| - 1]);
      if ResumeVerdict(capacity, |before|).Ok? {
        var after := Run(capacity, State(before, {}), calls).section;
        var more := AppendedBy(capacity, before, calls);
        RefusalGrows(before, more);
      }
    }
  }

  /**
   * Once a refused section stands in the buffer, no reply is ever sent again: whatever the application adds or
   * answers later, every acknowledgement that is owed is refused, and a refusal does not empty the buffer.
   */
  lemma NoReplyEverAgain(capacity: nat, section: seq<byte>, sessions: seq<seq<Call>>, kind: byte, packetId: u16,
                         code: Option<byte>, serverMax: u32, status: Option<ClientError>)
    requires SessionsTyped(sessions) && |section| <= capacity && ParseSection(section).Some?
    requires WalkSection(PublishAck, section).Refused?
    ensures ReplyRefusal(Some(kind), packetId, code, Replied(capacity, section, sessions), serverMax, status)
         == Some(ClientError.BadParameter)
  {
    hide WalkFrom, ParseSection, Replied;
    RepliedStaysRefused(capacity, section, sessions);
    assert WalkSection(PublishAck, []).Accepted? by { EmptyWalk(PublishAck, [], {}); }
  }

  function ReasonCall(reason: seq<byte>, kind: byte): Call {
    Call(Property(REASON_STRING, Text(reason)), Some(kind))
  }

  /**
   * And such a section is reached by an application that adds a legal reason string to one reply, forgets the
   * reason code, and adds it again when the same packet is handled again: the bits that would have refused the
   * second one were forgotten in between.
   */
  lemma TwoReasonStrings(capacity: nat, reason: seq<byte>, kind: byte)
    requires UsableText(reason) && 2 * (3 + |reason|) <= capacity < REMAINING_LENGTH_INVALID && IsPublishAck(kind)
    ensures SessionsTyped([[ReasonCall(reason, kind)], [ReasonCall(reason, kind)]])
    ensures ReplyRefusal(Some(kind), 1, None, Replied(capacity, [], [[ReasonCall(reason, kind)]]), capacity, None)
         == Some(ClientError.BadParameter)
    ensures var section := Replied(capacity, [], [[ReasonCall(reason, kind)], [ReasonCall(reason, kind)]]);
            |section| <= capacity && ParseSection(section).Some? && WalkSection(PublishAck, section).Refused?
  {
    hide WalkFrom, ParseSection, EncodeProperty, AckPacketSize;
    var c, p := ReasonCall(reason, kind), Property(REASON_STRING, Text(reason));
    var one := EncodeProperty(p);
    OneReason(capacity, [], reason, kind);
    OneReason(capacity, one, reason, kind);
    var two := [[c], [c]];
    assert two[..1] == [[c]] && two[..1][..0] == [];
    EncodeOne(p);
    SectionExact(one, [p]);
    ParseAppend(one, one);
    RefusedSections(one + one, [p] + [p]);
    assert ([p] + [p])[0] == p && ([p] + [p])[1] == p;
    assert [] + one == one;
  }

  lemma OneReason(capacity: nat, base: seq<byte>, reason: seq<byte>, kind: byte)
    requires UsableText(reason) && |base| + 3 + |reason| <= capacity < REMAINING_LENGTH_INVALID && IsPublishAck(kind)
    ensures AllTyped([ReasonCall(reason, kind)])
    ensures ValidProperty(Property(REASON_STRING, Text(reason)))
    ensures Run(capacity, State(base, {}), [ReasonCall(reason, kind)]).section
         == base + EncodeProperty(Property(REASON_STRING, Text(reason)))
    ensures |EncodeProperty(Property(REASON_STRING, Text(reason)))| == 3 + |reason|
  {
    var c := ReasonCall(reason, kind);
    assert [c][1..] == [];
  }
}
