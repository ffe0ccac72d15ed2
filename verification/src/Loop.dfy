/** The receive loop: one read, every whole packet handled and slid away, and the keep alive in between. */
module Loop {
  import opened Bytes
  import opened Header
  import opened Grammar
  import opened Packet
  import opened Connect
  import opened Ack
  import opened Disconnect
  import opened Framing
  import opened Link
  import opened Client
  import opened Received
  import opened Replies
  import opened Account
  import opened Runs

  const PACKET_TX_TIMEOUT_MS: nat := 30_000
  const PACKET_RX_TIMEOUT_MS: nat := 30_000
  const PINGRESP_TIMEOUT_MS: nat := 5_000

  // ---- the packet at the front -----------------------------------------------------------

  /** `measure`: how long the packet at the front claims to be. */
  method Measure(network: array<byte>, index: nat) returns (r: Result<nat, ClientError>)
    requires index <= network.Length
    ensures r.Ok? <==> FrameLength(network[..index]).Some?
    ensures r.Ok? ==> r.value == FrameLength(network[..index]).value
    ensures r.Err? ==> r.error == match DecodeHeader(network[..index])
                                  case NoData => ClientError.NoDataAvailable
                                  case NeedMore => ClientError.NeedMoreBytes
                                  case _ => ClientError.BadResponse
  {
    hide DecodeHeader;
    var header := ProcessIncomingPacketTypeAndLength(network[..], index);
    assert network[..][..index] == network[..index];
    match header {
      case Header(_, remaining, width) => return Ok(remaining + width);
      case NoData => return Err(ClientError.NoDataAvailable);
      case NeedMore => return Err(ClientError.NeedMoreBytes);
      case BadHeader => return Err(ClientError.BadResponse);
    }
  }

  /**
   * `packet_view`. For a packet the loop has measured it cannot fail, so the handlers' refusals of `None` never speak.
   */
  method PacketView(network: array<byte>, index: nat, total: nat) returns (view: Option<PacketInfo>)
    requires index <= network.Length
    ensures Ready(network[..index]) == Some(total) ==>
              total <= index && IsFrame(network[..total]) && view == Some(ViewOf(network[..total]))
  {
    hide DecodeHeader;
    var header := ProcessIncomingPacketTypeAndLength(network[..], index);
    assert network[..][..index] == network[..index];
    if Ready(network[..index]).Some? {
      SameHeader(network[..index]);
      assert Ready(network[..index]) == Some(total) ==> network[..index][..total] == network[..total];
    }
    if !header.Header? || header.width > total || total > network.Length {
      return None;
    }
    return Some(PacketInfo(header.kind, header.remaining, network[..total][header.width..]));
  }

  /** `consume`: `total` bytes leave the front and the rest slides down. */
  method Consume(context: MqttContext, total: nat)
    requires total <= context.index <= context.network.Length
    modifies context`index, context.network
    ensures context.index == old(context.index) - total
    ensures context.network[..context.index] == old(context.network[total..context.index])
  {
    context.index := context.index - total;
    forall i | 0 <= i < context.network.Length - total {
      context.network[i] := context.network[i + total];
    }
  }

  // ---- keep alive ------------------------------------------------------------------------

  datatype Due = Nothing | Overdue | PingNow

  /** What the clock asks for: an outstanding PINGRESP can only time out, a silent side is answered with a PINGREQ. */
  function KeepAliveDue(context: MqttContext, now: u32): Due
    reads context`keepAliveSeconds, context`waitingForPingResp, context`pingReqSendTime
    reads context`lastPacketTxTime, context`lastPacketRxTime
  {
    var limit := Min(1000 * context.keepAliveSeconds, PACKET_TX_TIMEOUT_MS);
    if context.waitingForPingResp then
      if ElapsedMs(now, context.pingReqSendTime) > PINGRESP_TIMEOUT_MS then Overdue else Nothing
    else if limit != 0 && ElapsedMs(now, context.lastPacketTxTime) >= limit then PingNow
    else if ElapsedMs(now, context.lastPacketRxTime) >= PACKET_RX_TIMEOUT_MS then PingNow
    else Nothing
  }

  /**
   * The same of the true times: at the k-th reading a PINGRESP has been owed for more than 5,000 milliseconds; or
   * none is, and for as long as the keep alive, 30,000 at most, nothing was sent, or for 30,000 nothing arrived.
   */
  ghost function TrulyDue(context: MqttContext, clock: Clock, k: nat): Due
    reads context`keepAliveSeconds, context`waitingForPingResp, context`askedAt, context`sentAt, context`receivedAt
  {
    var now := clock.time(k);
    if context.waitingForPingResp then (if now - clock.time(context.askedAt) > 5_000 then Overdue else Nothing)
    else
      var patience := if context.keepAliveSeconds < 30 then 1_000 * context.keepAliveSeconds else 30_000;
      if (context.keepAliveSeconds > 0 && now - clock.time(context.sentAt) >= patience)
         || now - clock.time(context.receivedAt) >= 30_000 then PingNow else Nothing
  }

  /** Less than a wrap has gone by since what is asked about. */
  ghost predicate WithinOneWrap(context: MqttContext, clock: Clock, k: nat)
    reads context`keepAliveSeconds, context`waitingForPingResp, context`askedAt, context`sentAt, context`receivedAt
  {
    var now := clock.time(k);
    if context.waitingForPingResp then now - clock.time(context.askedAt) < WRAP
    else now - clock.time(context.sentAt) < WRAP && now - clock.time(context.receivedAt) < WRAP
  }

  /**
   * Of a clock that ticks, the keep alive never acts too soon, however long ago it was; and it acts in time as long as
   * less than a wrap has gone by.
   */
  lemma DueIsTrue(context: MqttContext, clock: Clock, k: nat)
    requires clock.Ticks() && context.Timed(clock) && clock.readings <= k
    ensures KeepAliveDue(context, clock.At(k)) != Nothing ==>
              KeepAliveDue(context, clock.At(k)) == TrulyDue(context, clock, k)
    ensures WithinOneWrap(context, clock, k) ==>
              KeepAliveDue(context, clock.At(k)) == TrulyDue(context, clock, k)
  {
    hide Clock.Ticks, ElapsedMs;
    SinceReading(clock, context.sentAt, k);
    SinceReading(clock, context.receivedAt, k);
    if context.waitingForPingResp {
      SinceReading(clock, context.askedAt, k);
    }
  }

  lemma SinceReading(clock: Clock, i: nat, k: nat)
    requires clock.Ticks() && i <= k
    ensures clock.time(i) <= clock.time(k)
    ensures ElapsedMs(clock.At(k), clock.At(i)) <= clock.time(k) - clock.time(i)
    ensures clock.time(k) - clock.time(i) < WRAP ==>
              ElapsedMs(clock.At(k), clock.At(i)) == clock.time(k) - clock.time(i)
  {
    hide Clock.Ticks, ElapsedMs;
    TimeGrows(clock, i, k);
    ElapsedIsNotMore(clock.time(k), clock.time(i));
    if clock.time(k) - clock.time(i) < WRAP {
      ElapsedAcrossTheWrap(clock.time(k), clock.time(i));
    }
  }

  /**
   * What a keep-alive check at `now` does: nothing, a timeout, or one PINGREQ; while a PINGRESP is owed nothing is
   * sent.
   */
  twostate predicate KeptAlive(context: MqttContext, transport: Transport, now: u32, sent: nat,
                               new r: Result<(), ClientError>)
    reads context, transport
  {
    match old(KeepAliveDue(context, now))
    case PingNow =>
      && !old(context.waitingForPingResp) && sent <= 2 && transport.log == old(transport.log) + PINGREQ_PACKET[..sent]
      && r == (if old(context.StatusRefusal()).Some? then Err(old(context.StatusRefusal()).value)
               else if sent == 2 then Ok(()) else Err(ClientError.SendFailed))
      && context.waitingForPingResp == r.Ok? && (r.Ok? <==> sent == 2)
      && (if old(context.StatusRefusal()).Some? then transport.offers == old(transport.offers)
          else transport.Began([0xC0, 0x00]))
      && MayPing(old(LineOf(context)), PINGREQ_PACKET[..sent], context.connectStatus)
      && context.pings == old(context.pings) + (if r.Ok? then [PingSent] else [])
    case due =>
      && r == (if due == Overdue then Err(ClientError.KeepAliveTimeout) else Ok(()))
      && sent == 0 && transport.log == old(transport.log) && transport.offers == old(transport.offers)
      && context.pings == old(context.pings) && context.connectStatus == old(context.connectStatus)
      && context.waitingForPingResp == old(context.waitingForPingResp)
  }

  /** The statuses a keep-alive check may stop a turn with. */
  predicate KeepAliveStatus(e: ClientError) {
    e in {ClientError.KeepAliveTimeout, ClientError.SendFailed, ClientError.NotConnected, ClientError.DisconnectPending}
  }

  /** `handle_keep_alive`. */
  method HandleKeepAlive(context: MqttContext, transport: Transport, clock: Clock)
    returns (r: Result<(), ClientError>, ghost sent: nat)
    requires Lively(transport, clock)
    modifies context`connectStatus, context`lastPacketTxTime, context`sentAt, context`pingReqSendTime, context`askedAt
    modifies context`waitingForPingResp
    modifies context`pings, transport, clock
    ensures KeptAlive(context, transport, clock.At(old(clock.readings)), sent, r)
    ensures var now := clock.At(old(clock.readings));
            if old(context.waitingForPingResp) then
              && r == (if ElapsedMs(now, old(context.pingReqSendTime)) > 5_000 then Err(ClientError.KeepAliveTimeout)
                       else Ok(()))
              && transport.offers == old(transport.offers)
            else if (&& old(context.keepAliveSeconds) > 0
                     && ElapsedMs(now, old(context.lastPacketTxTime))
                        >= Min(1_000 * old(context.keepAliveSeconds), 30_000))
                 || ElapsedMs(now, old(context.lastPacketRxTime)) >= 30_000
            then if old(context.StatusRefusal()).Some?
                 then r == Err(old(context.StatusRefusal()).value) && transport.offers == old(transport.offers)
                 else transport.Began([0xC0, 0x00])
            else r == Ok(()) && transport.offers == old(transport.offers)
    ensures r.Err? ==> KeepAliveStatus(r.error)
    ensures transport.receives == old(transport.receives)
    ensures old(context.OnePing()) ==> context.OnePing()
    ensures context.connectStatus in {old(context.connectStatus), AfterFailure(old(context.connectStatus))}
    ensures old(context.Timed(clock)) ==> context.Timed(clock)
  {
    sent := 0;
    var now := clock.NowMs();
    var txTimeout: nat := SaturatingMul(1000, context.keepAliveSeconds);
    if PACKET_TX_TIMEOUT_MS < txTimeout {
      txTimeout := PACKET_TX_TIMEOUT_MS;
    }
    if context.waitingForPingResp {
      if ElapsedMs(now, context.pingReqSendTime) > PINGRESP_TIMEOUT_MS {
        return Err(ClientError.KeepAliveTimeout), 0;
      }
      return Ok(()), 0;
    }
    if txTimeout != 0 && ElapsedMs(now, context.lastPacketTxTime) >= txTimeout {
      r, sent := context.Ping(transport, clock);
      return;
    }
    var sinceRx := ElapsedMs(now, context.lastPacketRxTime);
    if sinceRx != 0 && sinceRx >= PACKET_RX_TIMEOUT_MS {
      r, sent := context.Ping(transport, clock);
      return;
    }
    return Ok(()), 0;
  }

  function SaturatingMul(a: u32, b: u32): u32 {
    if a * b > U32_MAX then U32_MAX else a * b
  }

  // ---- the handlers ----------------------------------------------------------------------

  /** The packet being handled stands whole at the front of what has arrived. */
  ghost predicate AtFront(context: MqttContext, total: nat)
    reads context`index, context.network
  {
    context.index <= context.network.Length && Ready(context.network[..context.index]) == Some(total)
  }

  /** The front packet. */
  ghost function FrontView(context: MqttContext, total: nat): PacketInfo
    requires AtFront(context, total)
    reads context`index, context.network
  {
    SameHeader(context.network[..context.index]);
    assert context.network[..context.index][..total] == context.network[..total];
    ViewOf(context.network[..total])
  }

  /** What `ReplyWhole` lets every handler take for granted of the ground it stands on. */
  ghost predicate StandsOn(context: MqttContext, g: Ground)
    reads context, context.ackProperties
  {
    context.ReplyWhole() && g == GroundOf(context, g.settings.manage)
  }

  lemma Standing(context: MqttContext, g: Ground)
    requires StandsOn(context, g)
    ensures context.ReplyWhole() && context.ackUsed <= context.ackProperties.Length
    ensures g == GroundOf(context, g.settings.manage)
  {
  }

  /** `handle_incoming_publish`. */
  method HandleIncomingPublish(context: MqttContext, transport: Transport, clock: Clock, app: App, total: nat,
                               ghost g: Ground)
    returns (r: Result<(), ClientError>, ghost out: seq<byte>)
    requires Lively(transport, clock) && app.Plays() && StandsOn(context, g) && AtFront(context, total)
    requires context.network != context.ackProperties
    modifies context`connectStatus, context`lastPacketTxTime, context`sentAt, context`controlPacketSent, context`ackUsed
    modifies context`ackProperties, context.ackProperties, transport, clock, app`packets, app`heard, app`kept
    ensures context.ReplyWhole() && context.ackProperties == old(context.ackProperties)
    ensures var ruling := app.rulings(old(app.packets));
            var plan := PublishPlan(old(FrontView(context, total)), g, ruling);
            && Carried(context, transport, app, plan, ruling, g.settings.stateful, out, r)
            && out <= Spoken(plan.fate, ruling)
            && (out == Spoken(plan.fate, ruling) ==> context.connectStatus == old(context.connectStatus))
    ensures Final(r) && transport.receives == old(transport.receives) && app.packets == old(app.packets) + 1
    ensures context.connectStatus in {old(context.connectStatus), AfterFailure(old(context.connectStatus))}
    ensures old(context.Timed(clock)) ==> context.Timed(clock)
  {
    hide AnswerPlan, DecodeHeader, Ready, DeserializePublish, ParseSection, SessionsTyped, Lively, MqttContext.Timed;
    out := [];
    var ruling := app.Next();
    var view := PacketView(context.network, context.index, total);
    var publish := DeserializePublish(view.value, context.clientMaxPacketSize, context.clientTopicAliasMax);
    if publish.Err? {
      return Err(FromRefusal(publish.error)), [];
    }
    var p := publish.value;
    if !context.stateful && p.qos != AtMostOnce {
      return Err(ClientError.RecvFailed), [];
    }
    var state := Null;
    var duplicate := false;
    if context.stateful {
      match RecordedAt(ruling.recorded, p.qos) {
        case Moves =>
          state := ReceivedState(p.qos);
        case Collides =>
          duplicate := true;
          state := ReceivedState(p.qos);
        case Refuses =>
          return Err(ClientError.StateError), [];
      }
    }
    r, out := TellAndReply(context, transport, clock, app, ruling, PublishEvent(view.value.kind, p),
                           !duplicate || p.qos == AtLeastOnce, p.qos != AtMostOnce, state, g);
  }

  /** `handle_publish_acks`. */
  method HandlePublishAcks(context: MqttContext, transport: Transport, clock: Clock, app: App, total: nat,
                           ghost g: Ground)
    returns (r: Result<(), ClientError>, ghost out: seq<byte>)
    requires Lively(transport, clock) && app.Plays() && StandsOn(context, g) && AtFront(context, total)
    requires context.network != context.ackProperties && IsPublishAck(FrontView(context, total).kind)
    modifies context`connectStatus, context`lastPacketTxTime, context`sentAt, context`controlPacketSent, context`ackUsed
    modifies context`ackProperties, context.ackProperties, transport, clock
    modifies app`packets, app`heard, app`kept, app`cleared
    ensures context.ReplyWhole() && context.ackProperties == old(context.ackProperties)
    ensures var ruling := app.rulings(old(app.packets));
            var plan := PublishAckPlan(old(FrontView(context, total)), g, ruling);
            && Carried(context, transport, app, plan, ruling, g.settings.stateful, out, r)
            && out <= Spoken(plan.fate, ruling)
            && (out == Spoken(plan.fate, ruling) ==> context.connectStatus == old(context.connectStatus))
    ensures Final(r) && transport.receives == old(transport.receives) && app.packets == old(app.packets) + 1
    ensures context.connectStatus in {old(context.connectStatus), AfterFailure(old(context.connectStatus))}
    ensures old(context.Timed(clock)) ==> context.Timed(clock)
  {
    hide AnswerPlan, DecodeHeader, Ready, DeserializeAck, ParseSection, SessionsTyped, Lively, MqttContext.Timed;
    out := [];
    var ruling := app.Next();
    var front := PacketView(context.network, context.index, total);
    var view := front.value;
    var info := DeserializeAck(view, context.clientMaxPacketSize, context.requestProblemInfo);
    if info.Err? {
      return Err(FromRefusal(info.error)), [];
    }
    var id, kind := PacketIdOf(info.value.packetId), view.kind;
    var state := Null;
    if context.stateful {
      if !ruling.recorded.Moves? {
        return Err(ClientError.StateError), [];
      }
      state := AckedState(kind);
    }
    app.cleared := app.cleared + [Released(kind, id)];
    var event := Event(kind, id, None, info.value.reasonCodes, info.value.properties);
    r, out := TellAndReply(context, transport, clock, app, ruling, event, true, kind != PUBACK && kind != PUBCOMP,
                           state, g);
  }

  /** `handle_sub_unsub_ack`, and what of the other arms tells the application and wants no reply. */
  method TellOnly(context: MqttContext, transport: Transport, app: App, event: Event, ruling: Ruling, ghost g: Ground)
    returns (r: Result<(), ClientError>)
    requires SessionsTyped(ruling.sessions) && StandsOn(context, g)
    modifies context`ackUsed, context.ackProperties, app`heard
    ensures context.ReplyWhole()
    ensures Carried(context, transport, app, ToldPlan(g, event, ruling.accepts), ruling, g.settings.stateful, [], r)
  {
    hide ParseSection;
    NoSessions(g.settings.capacity, g.section);
    var accepted, _ := Dispatch(context, app, event, false, ruling);
    return if accepted then Ok(()) else Err(ClientError.EventCallbackFailed);
  }

  /** A PINGRESP the library swallows settles the debt; no other packet touches it. */
  twostate predicate PingsSettled(context: MqttContext, settled: bool)
    reads context`pings, context`waitingForPingResp
  {
    if settled then !context.waitingForPingResp && context.pings == old(context.pings) + [PingAnswered]
    else context.waitingForPingResp == old(context.waitingForPingResp) && context.pings == old(context.pings)
  }

  /**
   * `handle_incoming_ack` for what is not a publish acknowledgement. With the keep alive managed a PINGRESP is
   * swallowed and settles the debt; without, the application is told and the debt stands.
   */
  method HandleOtherAck(context: MqttContext, transport: Transport, ghost clock: Clock, app: App, total: nat,
                        ghost g: Ground, manage: bool)
    returns (r: Result<(), ClientError>)
    requires app.Plays() && StandsOn(context, g) && g.settings.manage == manage && AtFront(context, total)
    requires context.network != context.ackProperties
    modifies context`ackUsed, context.ackProperties, context`waitingForPingResp, context`pings, app`packets, app`heard
    ensures context.ReplyWhole()
    ensures var ruling := app.rulings(old(app.packets));
            Carried(context, transport, app, OtherAckPlan(old(FrontView(context, total)), g, ruling), ruling,
                    g.settings.stateful, [], r)
    ensures PingsSettled(context, manage && old(FrontView(context, total)).kind == PINGRESP && r.Ok?)
    ensures Final(r) && app.packets == old(app.packets) + 1
    ensures old(context.Timed(clock)) ==> context.Timed(clock)
  {
    hide DecodeHeader, Ready, DeserializeAck, ParseSection, SessionsTyped, ReadAckPlan, MqttContext.Timed;
    var ruling := app.Next();
    var front := PacketView(context.network, context.index, total);
    var view := front.value;
    if view.kind != PINGRESP && view.kind != SUBACK && view.kind != UNSUBACK {
      return Err(ClientError.BadResponse);
    }
    var info := DeserializeAck(view, context.clientMaxPacketSize, context.requestProblemInfo);
    if info.Err? {
      return Err(FromRefusal(info.error));
    }
    r := TellAck(context, transport, clock, app, view.kind, info.value, ruling, g, manage);
  }

  /** The arms of `handle_incoming_ack` once the packet has been read. */
  method TellAck(context: MqttContext, transport: Transport, ghost clock: Clock, app: App, kind: byte, info: AckInfo,
                 ruling: Ruling, ghost g: Ground, manage: bool)
    returns (r: Result<(), ClientError>)
    requires SessionsTyped(ruling.sessions) && StandsOn(context, g) && g.settings.manage == manage
    modifies context`ackUsed, context.ackProperties, context`waitingForPingResp, context`pings, app`heard
    ensures context.ReplyWhole() && Final(r)
    ensures Carried(context, transport, app, ReadAckPlan(kind, info, g, ruling), ruling, g.settings.stateful, [], r)
    ensures PingsSettled(context, manage && kind == PINGRESP && r.Ok?)
    ensures old(context.Timed(clock)) ==> context.Timed(clock)
  {
    hide ParseSection, SessionsTyped;
    var id := PacketIdOf(info.packetId);
    if kind == PINGRESP {
      if manage {
        context.waitingForPingResp := false;
        context.pings := context.pings + [PingAnswered];
        return Ok(());
      }
      r := TellOnly(context, transport, app, Event(kind, id, None, [], []), ruling, g);
    } else {
      r := TellOnly(context, transport, app, Event(kind, id, None, info.reasonCodes, info.properties), ruling, g);
    }
  }

  /** The buffer and its history are as they were. */
  twostate predicate BufferStays(context: MqttContext)
    reads context`index, context.network, context`delivered, context`accepted
  {
    && context.index == old(context.index) && context.network[..] == old(context.network[..])
    && context.delivered == old(context.delivered) && context.accepted == old(context.accepted)
  }

  /** The answer to a malformed DISCONNECT: one of reason 0x81, unless the client may not send it. */
  method CloseForMalformed(context: MqttContext, transport: Transport, clock: Clock, app: App, ghost g: Ground,
                           ghost ruling: Ruling)
    returns (r: Result<(), ClientError>, ghost reset: bool, ghost out: seq<byte>)
    requires Lively(transport, clock) && StandsOn(context, g) && context.network != context.ackProperties
    modifies context`connectStatus, context`lastPacketTxTime, context`sentAt, context`index, context`delivered
    modifies context`accepted
    modifies context.network, transport, clock
    ensures Carried(context, transport, app, ClosingPlan(g), ruling, g.settings.stateful, out, r)
    ensures reset == ClosingPlan(g).fate.Closes?
    ensures if reset then context.Emptied() && r.Err? else BufferStays(context)
    ensures Final(r) && transport.receives == old(transport.receives) && context.ReplyWhole()
    ensures old(context.Timed(clock)) ==> context.Timed(clock)
  {
    hide RefusalToClose, ClosingPacket, DisconnectPacketSize, MqttContext.ReplyWhole, StandsOn, MqttContext.Timed;
    Standing(context, g);
    CloseableSize(context.sessionExpiry, context.serverMaxPacketSize, context.connectStatus);
    ghost var log, sent := transport.log, 0;
    reset := context.DisconnectRefusal(Some(MALFORMED_PACKET), []).None?;
    r, sent := context.Disconnect(transport, clock, Some(MALFORMED_PACKET), []);
    out := transport.log[|log|..];
    if r.Ok? {
      r := Err(ClientError.NotConnected);
    }
  }

  lemma CloseableSize(sessionExpiry: u32, serverMax: u32, status: ConnectionStatus)
    ensures RefusalToClose(Some(MALFORMED_PACKET), [], sessionExpiry, serverMax, status).None? ==>
              DisconnectPacketSize(Some(MALFORMED_PACKET), 0, serverMax).Ok?
  {
    hide DisconnectPacketSize;
  }

  /** What a DISCONNECT comes to, the connection's status apart: it is told, or answered as malformed. */
  method TellOrClose(context: MqttContext, transport: Transport, clock: Clock, app: App, view: PacketInfo,
                     ghost g: Ground, ruling: Ruling)
    returns (r: Result<(), ClientError>, ghost reset: bool, ghost out: seq<byte>)
    requires Lively(transport, clock) && SessionsTyped(ruling.sessions) && StandsOn(context, g)
    requires context.network != context.ackProperties
    modifies context`connectStatus, context`lastPacketTxTime, context`sentAt, context`index, context`delivered
    modifies context`accepted, context`ackUsed, context.ackProperties, context.network, transport, clock, app`heard
    ensures var plan := DisconnectPlan(view, g, ruling);
            && Carried(context, transport, app, plan, ruling, g.settings.stateful, out, r)
            && reset == plan.fate.Closes?
    ensures if reset then context.Emptied() && r.Err? else BufferStays(context)
    ensures Final(r) && transport.receives == old(transport.receives) && context.ReplyWhole()
    ensures old(context.Timed(clock)) ==> context.Timed(clock)
  {
    hide DeserializeDisconnect, ClosingPlan, ParseSection, SessionsTyped, Lively, RefusalToClose, ClosingPacket, Copies;
    hide MqttContext.Timed, StandsOn, MqttContext.ReplyWhole, MqttContext.Emptied;
    Standing(context, g);
    reset, out := false, [];
    var incoming := DeserializeDisconnect(view, context.clientMaxPacketSize);
    if incoming.Ok? {
      var event := Event(DISCONNECT, 0, None, CodeOf(incoming.value.reasonCode), incoming.value.properties);
      r := TellOnly(context, transport, app, event, ruling, g);
    } else {
      r, reset, out := CloseForMalformed(context, transport, clock, app, g, ruling);
    }
  }

  /**
   * `handle_incoming_disconnect`: the connection is given up whatever happens. A malformed packet is answered with
   * a DISCONNECT of reason 0x81, which throws the buffer away, and never counts as handled.
   */
  method HandleIncomingDisconnect(context: MqttContext, transport: Transport, clock: Clock, app: App, total: nat,
                                  ghost g: Ground)
    returns (r: Result<(), ClientError>, ghost reset: bool, ghost out: seq<byte>)
    requires Lively(transport, clock) && app.Plays() && StandsOn(context, g) && AtFront(context, total)
    requires context.network != context.ackProperties && FrontView(context, total).kind == DISCONNECT
    modifies context`connectStatus, context`lastPacketTxTime, context`sentAt, context`index, context`delivered
    modifies context`accepted
    modifies context`ackUsed, context.ackProperties, context.network, transport, clock, app`packets, app`heard
    ensures context.ReplyWhole() && context.connectStatus == ConnectionStatus.NotConnected
    ensures var ruling := app.rulings(old(app.packets));
            var plan := DisconnectPlan(old(FrontView(context, total)), g, ruling);
            && Carried(context, transport, app, plan, ruling, g.settings.stateful, out, r)
            && out <= Spoken(plan.fate, ruling)
            && reset == plan.fate.Closes?
    ensures if reset then context.Emptied() && r.Err? else BufferStays(context)
    ensures Final(r) && transport.receives == old(transport.receives) && app.packets == old(app.packets) + 1
    ensures old(context.Timed(clock)) ==> context.Timed(clock)
  {
    hide DecodeHeader, Ready, DisconnectPlan, ParseSection, SessionsTyped, Lively, Copies, Outcome, Spoken;
    hide MqttContext.Timed, StandsOn, MqttContext.ReplyWhole, Final;
    var ruling := app.Next();
    var front := PacketView(context.network, context.index, total);
    r, reset, out := TellOrClose(context, transport, clock, app, front.value, g, ruling);
    context.connectStatus := ConnectionStatus.NotConnected;
  }

  // ---- one packet ------------------------------------------------------------------------

  lemma SettledPings(pings: seq<PingEvent>)
    ensures NoTwoPings(pings) ==> NoTwoPings(pings + [PingAnswered])
  {
  }

  /** Everything that handling this packet, under the next ruling, is to come to. */
  ghost predicate Takes(context: MqttContext, app: App, total: nat, g: Ground, step: Step)
    requires AtFront(context, total)
    reads context`index, context.network, app`packets
  {
    && step.Handled? && step.frame == context.network[..total] && step.ground == g
    && step.ruling == app.rulings(app.packets) && Holds(step)
  }

  /**
   * `handle_packet`: the plan of the packet at the front is carried out. Whatever the handler answers, the packet is
   * still at the front, unless a malformed DISCONNECT threw the buffer away.
   */
  method HandlePacket(context: MqttContext, transport: Transport, clock: Clock, app: App, total: nat, manage: bool,
                      ghost g: Ground)
    returns (r: Result<(), ClientError>, ghost reset: bool, ghost step: Step)
    requires Lively(transport, clock) && app.Plays() && StandsOn(context, g) && AtFront(context, total)
    requires context.network != context.ackProperties && g.settings.manage == manage
    modifies context`connectStatus, context`lastPacketTxTime, context`sentAt, context`index, context`delivered
    modifies context`accepted
    modifies context`controlPacketSent, context`ackUsed, context`ackProperties, context`waitingForPingResp
    modifies context`pings
    modifies context.ackProperties, context.network, transport, clock, app`packets, app`heard, app`kept, app`cleared
    ensures context.ReplyWhole() && context.ackProperties == old(context.ackProperties)
    ensures old(Takes(context, app, total, g, step)) && app.packets == old(app.packets) + 1
    ensures Carried(context, transport, app, StepPlan(step), step.ruling, g.settings.stateful, step.out, r)
    ensures reset == StepPlan(step).fate.Closes?
    ensures if reset then context.Emptied() && r.Err? else BufferStays(context)
    ensures Final(r) && transport.receives == old(transport.receives)
    ensures PingsSettled(context, Settles(step.frame, manage, r))
    ensures MayLeave(ViewOf(step.frame).kind, g.status, step.after,
                     step.out == Spoken(StepPlan(step).fate, step.ruling))
    ensures step.after == context.connectStatus
    ensures old(context.OnePing()) ==> context.OnePing()
    ensures !manage ==> context.pings == old(context.pings)
    ensures old(context.Timed(clock)) ==> context.Timed(clock)
  {
    hide MqttContext.Timed;
    hide AtFront, FrontView, PublishPlan, PublishAckPlan, DisconnectPlan, OtherAckPlan, ParseSection, Spoken, Outcome;
    hide NoTwoPings, MqttContext.Emptied, SessionsTyped, Lively, Carried;
    reset := false;
    ghost var out: seq<byte> := [];
    SettledPings(context.pings);
    FrontKind(context, total);
    ghost var ruling := app.rulings(app.packets);
    OnlyDisconnectCloses(FrontView(context, total), g, ruling);
    ghost var frame := context.network[..total];
    var packetType := context.network[0];
    if packetType / 16 == PUBLISH / 16 {
      r, out := HandleIncomingPublish(context, transport, clock, app, total, g);
    } else if packetType == DISCONNECT {
      r, reset, out := HandleIncomingDisconnect(context, transport, clock, app, total, g);
    } else if IsPublishAck(packetType) {
      r, out := HandlePublishAcks(context, transport, clock, app, total, g);
    } else {
      r := HandleOtherAck(context, transport, clock, app, total, g, manage);
    }
    step := Handled(frame, g, ruling, out, context.connectStatus);
  }

  /** The packet at the front is handed to its handler, and what that adds to the books is counted. */
  method TakeUp(context: MqttContext, transport: Transport, clock: Clock, app: App, total: nat, manage: bool)
    returns (r: Result<(), ClientError>, ghost reset: bool, ghost step: Step)
    requires Lively(transport, clock) && app.Plays() && context.ReplyWhole() && AtFront(context, total)
    requires context.network != context.ackProperties
    modifies context`connectStatus, context`lastPacketTxTime, context`sentAt, context`index, context`delivered
    modifies context`accepted
    modifies context`controlPacketSent, context`ackUsed, context`ackProperties, context`waitingForPingResp
    modifies context`pings
    modifies context.ackProperties, context.network, transport, clock, app`packets, app`heard, app`kept, app`cleared
    ensures context.ReplyWhole() && context.ackProperties == old(context.ackProperties)
    ensures SettingsOf(context, manage) == old(SettingsOf(context, manage))
    ensures Adds(app.rulings, SettingsOf(context, manage), old(BooksOf(context, transport, app)),
                 BooksOf(context, transport, app), step)
    ensures step.Handled? && step.frame == old(context.network[..total]) && r == StepOutcome(step)
    ensures context.controlPacketSent == (old(context.controlPacketSent) || Gave(step))
    ensures if reset then context.Emptied() && r.Err? else BufferStays(context)
    ensures Final(r) && transport.receives == old(transport.receives)
    ensures old(context.OnePing()) ==> context.OnePing()
    ensures !manage ==> context.pings == old(context.pings)
    ensures old(context.Timed(clock)) ==> context.Timed(clock)
  {
    hide MqttContext.Timed, GoesWhole;
    hide AtFront, Holds, StepPlan, MqttContext.Emptied, MqttContext.OnePing, SessionsTyped, Lively, ParseSection;
    hide FrontView, Outcome, BufferStays, Settles, Copies, SectionAfter, Final, Adds, MayLeave, Spoken, GroundOf;
    hide StandsOn;
    ghost var before := BooksOf(context, transport, app);
    ghost var g := WhereItStands(context, transport, app, manage);
    r, reset, step := HandlePacket(context, transport, clock, app, total, manage, g);
    HandlingAdds(app.rulings, SettingsOf(context, manage), before, BooksOf(context, transport, app), step,
                 transport.log);
  }

  lemma WhereItStands(context: MqttContext, transport: Transport, app: App, manage: bool) returns (g: Ground)
    requires context.ReplyWhole()
    ensures StandsOn(context, g) && g.settings.manage == manage
    ensures var now := BooksOf(context, transport, app).now;
            g == Ground(SettingsOf(context, manage), now.line.status, now.section)
  {
    hide ParseSection;
    g := GroundOf(context, manage);
  }

  lemma FrontKind(context: MqttContext, total: nat)
    requires AtFront(context, total)
    ensures 0 < context.index <= context.network.Length && FrontView(context, total).kind == context.network[0]
    ensures Ready(context.network[..context.index]) == Some(total)
    ensures total <= context.index && IsFrame(context.network[..total])
    ensures FrontView(context, total) == ViewOf(context.network[..total])
  {
    hide EncodeVar, DecodeHeader;
    SameHeader(context.network[..context.index]);
    assert context.network[..context.index][..total] == context.network[..total];
    ViewIsWhole(context.network[..total]);
  }

  // ---- the loop --------------------------------------------------------------------------

  function BytesOf(received: Recv): seq<byte> {
    if received.Arrived? then received.bytes else []
  }

  /** The read is in the buffer behind what was already there. */
  ghost predicate Landed(context: MqttContext, received: Recv)
    reads context`index, context.network
  {
    && context.index + |BytesOf(received)| <= context.network.Length
    && context.network[context.index..context.index + |BytesOf(received)|] == BytesOf(received)
  }

  /** The first part of a turn: the bytes read are counted in, and the packet at the front measured. */
  method Admit(context: MqttContext, received: Recv) returns (status: Result<nat, ClientError>)
    requires context.Conserved() && Landed(context, received)
    modifies context`index, context`delivered, context`connectStatus
    ensures context.Conserved() && context.index == old(context.index) + |BytesOf(received)|
    ensures context.delivered == old(context.delivered) + BytesOf(received)
    ensures received.RecvError? ==> status == Err(ClientError.RecvFailed)
                                    && context.connectStatus == AfterFailure(old(context.connectStatus))
    ensures !received.RecvError? ==>
              && context.connectStatus == old(context.connectStatus)
              && var arrived := context.network[..context.index];
                 && (status.Ok? <==> FrameLength(arrived).Some?)
                 && (status.Ok? ==> status.value == FrameLength(arrived).value)
                 && (status == Err(ClientError.NoDataAvailable) <==> arrived == [])
                 && (status == Err(ClientError.NeedMoreBytes) <==> DecodeHeader(arrived).NeedMore?)
                 && (status.Err? && arrived != [] && !DecodeHeader(arrived).NeedMore? ==>
                       status == Err(ClientError.BadResponse))
  {
    hide FrameLength, Flatten, AllFrames;
    match received {
      case RecvError =>
        context.connectStatus := AfterFailure(context.connectStatus);
        assert context.delivered + [] == context.delivered;
        return Err(ClientError.RecvFailed);
      case _ =>
    }
    if BytesOf(received) == [] && context.index == 0 {
      assert context.delivered + [] == context.delivered;
      NothingArrived();
      return Err(ClientError.NoDataAvailable);
    }
    ghost var before := context.network[..context.index];
    context.index := context.index + |BytesOf(received)|;
    context.delivered := context.delivered + BytesOf(received);
    assert context.network[..context.index] == before + BytesOf(received);
    assert Flatten(context.accepted) + before + BytesOf(received)
        == Flatten(context.accepted) + (before + BytesOf(received));
    status := Measure(context.network, context.index);
    OnlyNothingIsNoData(context.network[..context.index]);
  }

  lemma NothingArrived()
    ensures DecodeHeader([]).NoData? && FrameLength([]).None?
  {
  }

  lemma OnlyNothingIsNoData(s: seq<byte>)
    ensures DecodeHeader(s).NoData? <==> s == []
    ensures FrameLength(s).Some? <==> DecodeHeader(s).Header?
    ensures DecodeHeader(s).NoData? || DecodeHeader(s).NeedMore? || DecodeHeader(s).BadHeader?
            || DecodeHeader(s).Header?
  {
  }

  /** `finish`: no data is not an error. */
  function Finish(outcome: Result<(), ClientError>): Result<(), ClientError> {
    if outcome == Err(ClientError.NoDataAvailable) then Ok(()) else outcome
  }

  /** A packet a handler accepted leaves the buffer and joins the history. */
  method Drop(context: MqttContext, clock: Clock, total: nat)
    requires context.Conserved() && AtFront(context, total)
    modifies context`index, context`accepted, context`lastPacketRxTime, context`receivedAt, context.network, clock
    ensures context.Conserved() && context.index == old(context.index) - total
    ensures context.accepted == old(context.accepted) + [old(context.network[..total])]
    ensures clock.readings == old(clock.readings) + 1 && context.lastPacketRxTime == clock.At(old(clock.readings))
    ensures context.receivedAt == old(clock.readings)
    ensures old(context.Timed(clock)) ==> context.Timed(clock)
  {
    hide Flatten, Ready;
    ghost var arrived := context.network[..context.index];
    SameHeader(arrived);
    ghost var frame, rest := context.network[..total], context.network[total..context.index];
    assert arrived == frame + rest && arrived[..total] == frame;
    FlattenAppend(context.accepted, [frame]);
    OneSlice(frame);
    assert Flatten(context.accepted) + (frame + rest) == Flatten(context.accepted) + frame + rest;
    Consume(context, total);
    context.accepted := context.accepted + [frame];
    context.receivedAt := clock.readings;
    context.lastPacketRxTime := clock.NowMs();
  }

  /** Keep alive is asked for only when nothing arrived and the turn has not failed. */
  predicate Asks(received: Recv, manage: bool, status: Result<nat, ClientError>) {
    && manage && BytesOf(received) == [] && !received.RecvError?
    && (status.Ok? || status.error == ClientError.NoDataAvailable || status.error == ClientError.NeedMoreBytes)
  }

  /** A turn's keep alive: skipped when bytes arrived; on success what the turn had stands. */
  method KeepAliveTurn(context: MqttContext, transport: Transport, clock: Clock, received: Recv, manage: bool,
                       status: Result<nat, ClientError>)
    returns (kept: Result<nat, ClientError>, next: Recv, ghost answer: Result<(), ClientError>, ghost sent: nat,
             ghost pinged: seq<Step>)
    requires Lively(transport, clock)
    modifies context`connectStatus, context`lastPacketTxTime, context`sentAt, context`pingReqSendTime, context`askedAt
    modifies context`waitingForPingResp
    modifies context`pings, transport, clock
    ensures if Asks(received, manage, status) && old(KeepAliveDue(context, clock.At(clock.readings))) == PingNow
            then sent <= 2 && pinged == [Pinged(PINGREQ_PACKET[..sent], context.connectStatus)]
                 && MayPing(old(LineOf(context)), PINGREQ_PACKET[..sent], context.connectStatus)
                 && context.waitingForPingResp == (sent == 2)
                 && transport.log == old(transport.log) + PINGREQ_PACKET[..sent] && (answer.Ok? ==> sent == 2)
                 && context.pings == old(context.pings) + PingOf(PINGREQ_PACKET[..sent])
            else pinged == [] && transport.log == old(transport.log) && context.pings == old(context.pings)
                 && LineOf(context) == old(LineOf(context))
    ensures BytesOf(next) == [] && !next.RecvError? && transport.receives == old(transport.receives)
    ensures kept == (if answer.Err? then Err(answer.error) else status)
    ensures if Asks(received, manage, status)
            then KeptAlive(context, transport, clock.At(old(clock.readings)), sent, answer)
            else answer == Ok(()) && transport.log == old(transport.log) && context.pings == old(context.pings)
                 && context.waitingForPingResp == old(context.waitingForPingResp)
                 && context.connectStatus == old(context.connectStatus)
    ensures answer.Err? ==> manage && KeepAliveStatus(answer.error)
    ensures !manage ==> context.pings == old(context.pings)
    ensures old(context.OnePing()) ==> context.OnePing()
    ensures old(context.Timed(clock)) ==> context.Timed(clock)
  {
    hide MqttContext.Timed;
    kept, next, answer, sent, pinged := status, Arrived([]), Ok(()), 0, [];
    if received == NoneArrived || received == Arrived([]) {
      next := received;
      if manage
          && (status.Ok? || status == Err(ClientError.NoDataAvailable) || status == Err(ClientError.NeedMoreBytes)) {
        ghost var due := KeepAliveDue(context, clock.At(clock.readings));
        var r;
        r, sent := HandleKeepAlive(context, transport, clock);
        answer := r;
        pinged := if due == PingNow then [Pinged(PINGREQ_PACKET[..sent], context.connectStatus)] else [];
        if r.Err? {
          kept := Err(r.error);
        }
      }
    }
  }

  /** What has arrived and been accepted, as the pure receiver sees it. */
  ghost function ReceiverOf(context: MqttContext): Receiver
    requires context.index <= context.network.Length
    reads context`index, context.network, context`accepted
  {
    Receiver(context.accepted, context.network[..context.index])
  }

  /** With no whole packet left at the front, the accepted packets are the parse of everything that arrived. */
  lemma Settled(accepted: seq<seq<byte>>, held: seq<byte>, already: seq<seq<byte>>, before: seq<byte>, chunk: seq<byte>)
    requires AllFrames(accepted) && AllFrames(already) && Ready(held).None?
    requires Flatten(accepted) + held == Flatten(already) + before + chunk
    ensures Frames(Flatten(accepted) + held) == accepted && Residue(Flatten(accepted) + held) == held
    ensures Receiver(accepted, held) == Deliver(Receiver(already, before), chunk)
  {
    hide Ready, Flatten, AllFrames;
    FramesAreUnique(accepted, held);
    assert Frames(held) == [] && Residue(held) == held by { Unfinished(held); }
    assert Flatten(already) + before + chunk == Flatten(already) + (before + chunk);
    FramesAreUnique(already, before + chunk);
    assert accepted + [] == accepted;
  }

  lemma Unfinished(held: seq<byte>)
    requires Ready(held).None?
    ensures Frames(held) == [] && Residue(held) == held
  {
  }

  /** A header that still asks for more leaves room to read more into, once the buffer holds five bytes. */
  lemma RoomForMore(arrived: seq<byte>, capacity: nat)
    requires |arrived| <= capacity && capacity >= 5 && DecodeHeader(arrived).NeedMore?
    ensures |arrived| < capacity
  {
    hide DecodeHeader;
    if |arrived| == capacity {
      FiveBytesDecide(capacity);
    }
  }

  /** Why a turn stopped for want of bytes. */
  lemma Unready(arrived: seq<byte>)
    requires FrameLength(arrived).None? || FrameLength(arrived).value > |arrived|
    ensures Ready(arrived).None?
  {
  }

  /** The end of a turn without a packet to handle: nothing whole is at the front, and there is room for more. */
  ghost predicate Wanting(context: MqttContext)
    reads context`index, context.network
  {
    && context.index <= context.network.Length && Ready(context.network[..context.index]).None?
    && (context.network.Length >= 5 ==> context.index < context.network.Length)
  }

  /** Reading: the two size questions, asked after the keep alive. */
  function SizeQuestions(status: Result<nat, ClientError>, index: nat, capacity: nat): Result<nat, ClientError> {
    if status.Ok? && status.value > capacity then Err(ClientError.RecvFailed)
    else if status.Ok? && status.value > index then Err(ClientError.NeedMoreBytes)
    else status
  }

  /** Why a turn ended before any handler. */
  ghost predicate Stopped(context: MqttContext, readFailed: bool, manage: bool, e: ClientError)
    reads context`index, context.network
  {
    && context.index <= context.network.Length
    && var arrived := context.network[..context.index];
       match e
       case NoDataAvailable => arrived == []
       case NeedMoreBytes => Wanting(context)
       case BadResponse => DecodeHeader(arrived).BadHeader?
       case RecvFailed =>
         readFailed || (FrameLength(arrived).Some? && FrameLength(arrived).value > context.network.Length)
       case _ => manage && KeepAliveStatus(e)
  }

  /** A pass with nothing to read and nothing buffered. */
  predicate IsIdle(index: nat, received: Recv) {
    index == 0 && BytesOf(received) == [] && !received.RecvError?
  }

  /** How a turn opens: a failed read, a PINGREQ or the part of one that got out, or nothing. */
  ghost predicate Opens(a: Line, b: Line, opening: seq<Step>, out: seq<byte>, whole: bool) {
    || (opening == [] && out == [] && b == a)
    || (opening == [Unread(b.status)] && out == [] && !whole && b == a.(status := AfterFailure(a.status)))
    || (opening == [Pinged(out, b.status)] && out <= PINGREQ_PACKET && MayPing(a, out, b.status)
        && b.owed == (out == PINGREQ_PACKET) && (whole ==> out == PINGREQ_PACKET))
  }

  /** The first half of a turn: everything up to the handler. */
  method Approach(context: MqttContext, transport: Transport, clock: Clock, received: Recv, manage: bool)
    returns (status: Result<nat, ClientError>, next: Recv, ghost answer: Result<(), ClientError>, ghost sent: nat,
             ghost opening: seq<Step>)
    requires Lively(transport, clock) && context.Conserved() && Landed(context, received)
    modifies context`index, context`delivered, context`connectStatus, context`lastPacketTxTime, context`sentAt
    modifies context`pingReqSendTime, context`askedAt, context`waitingForPingResp, context`pings, transport, clock
    ensures context.Conserved() && context.index == old(context.index) + |BytesOf(received)|
    ensures context.delivered == old(context.delivered) + BytesOf(received)
    ensures BytesOf(next) == [] && !next.RecvError? && transport.receives == old(transport.receives)
    ensures old(transport.log) <= transport.log
    ensures Opens(old(LineOf(context)), LineOf(context), opening, transport.log[|old(transport.log)|..], status.Ok?)
    ensures context.pings == old(context.pings) + PingOf(transport.log[|old(transport.log)|..])
    ensures !manage ==> NoPings(opening)
    ensures old(context.OnePing()) ==> context.OnePing()
    ensures !manage ==> context.pings == old(context.pings)
    ensures if status.Ok? then Ready(context.network[..context.index]) == Some(status.value)
            else Stopped(context, received.RecvError?, manage, status.error)
    ensures received.RecvError? ==> status == Err(ClientError.RecvFailed) && transport.log == old(transport.log)
                                    && context.connectStatus == AfterFailure(old(context.connectStatus))
    ensures manage && IsIdle(old(context.index), received) ==>
              && KeptAlive(context, transport, clock.At(old(clock.readings)), sent, answer)
              && status == Err(if answer.Err? then answer.error else ClientError.NoDataAvailable)
    ensures old(context.Timed(clock)) ==> context.Timed(clock)
  {
    hide MqttContext.Timed;
    hide DecodeHeader, FrameLength, Flatten, AllFrames, NoTwoPings, Stopped, Ready, Wanting, MayPing;
    hide MqttContext.OnePing, RefusalOf, KeepAliveDue, MqttContext.Conserved;
    status := Admit(context, received);
    StopsOrGoesOn(context, status, received.RecvError?, manage);
    ghost var pinged;
    status, next, answer, sent, pinged := KeepAliveTurn(context, transport, clock, received, manage, status);
    opening := if received.RecvError? then [Unread(context.connectStatus)] else pinged;
    KeepAliveStops(context, answer, received.RecvError?, manage);
    status := SizeQuestions(status, context.index, context.network.Length);
  }

  /** The same, entered in the books. */
  method Open(context: MqttContext, transport: Transport, clock: Clock, app: App, received: Recv, manage: bool)
    returns (status: Result<nat, ClientError>, next: Recv, ghost answer: Result<(), ClientError>, ghost sent: nat,
             ghost opening: seq<Step>)
    requires Lively(transport, clock) && context.Conserved() && context.ReplyWhole() && Landed(context, received)
    modifies context`index, context`delivered, context`connectStatus, context`lastPacketTxTime, context`sentAt
    modifies context`pingReqSendTime, context`askedAt, context`waitingForPingResp, context`pings, transport, clock
    modifies app`trace
    ensures context.ReplyWhole() && SettingsOf(context, manage) == old(SettingsOf(context, manage))
    ensures Grew(app.rulings, SettingsOf(context, manage), old(BooksOf(context, transport, app)),
                 BooksOf(context, transport, app), opening)
    ensures AllHold(opening) && Total(opening).frames == [] && |opening| <= 1 && (status.Ok? ==> AllSucceed(opening))
    ensures !manage ==> NoPings(opening)
    ensures context.Conserved()
    ensures context.network[..context.index] == old(context.network[..context.index]) + BytesOf(received)
    ensures context.delivered == old(context.delivered) + BytesOf(received)
    ensures BytesOf(next) == [] && !next.RecvError? && transport.receives == old(transport.receives)
    ensures old(context.OnePing()) ==> context.OnePing()
    ensures !manage ==> context.pings == old(context.pings)
    ensures if status.Ok? then Ready(context.network[..context.index]) == Some(status.value)
            else Stopped(context, received.RecvError?, manage, status.error)
    ensures received.RecvError? ==> status == Err(ClientError.RecvFailed) && transport.log == old(transport.log)
                                    && context.connectStatus == AfterFailure(old(context.connectStatus))
    ensures manage && IsIdle(old(context.index), received) ==>
              && KeptAlive(context, transport, clock.At(old(clock.readings)), sent, answer)
              && status == Err(if answer.Err? then answer.error else ClientError.NoDataAvailable)
    ensures old(context.Timed(clock)) ==> context.Timed(clock)
  {
    hide MqttContext.Timed;
    hide DecodeHeader, FrameLength, Flatten, AllFrames, NoTwoPings, Stopped, Ready, Grew, SettingsOf, KeptAlive, Opens;
    hide LineOf;
    hide AllHold, AllSucceed, Total, ParseSection, MqttContext.OnePing, MqttContext.ReplyWhole, Lively;
    ghost var before := BooksOf(context, transport, app);
    status, next, answer, sent, opening := Approach(context, transport, clock, received, manage);
    app.trace := app.trace + opening;
    Entered(context, transport, app, manage, before, opening, transport.log[|before.log|..], status.Ok?);
  }

  /** What opening a turn is entered in the books. */
  lemma Entered(context: MqttContext, transport: Transport, app: App, manage: bool, before: Books, opening: seq<Step>,
                out: seq<byte>, whole: bool)
    requires Opens(before.now.line, LineOf(context), opening, out, whole)
    requires BooksOf(context, transport, app)
          == before.(trace := before.trace + opening, log := before.log + out, pings := before.pings + PingOf(out),
                     now := before.now.(line := LineOf(context)))
    ensures Grew(app.rulings, SettingsOf(context, manage), before, BooksOf(context, transport, app), opening)
    ensures AllHold(opening) && Total(opening).frames == [] && |opening| <= 1 && (whole ==> AllSucceed(opening))
  {
    hide Grew, BooksOf, SettingsOf, LineOf, StepOutcome, PlanOf, Adds;
    var books := BooksOf(context, transport, app);
    if opening == [] {
      GrewNothing(app.rulings, SettingsOf(context, manage), before);
      assert before.trace + [] == before.trace && before.log + [] == before.log && before.pings + [] == before.pings;
    } else {
      OpeningAdds(app.rulings, SettingsOf(context, manage), before, books.(trace := before.trace), opening[0], out);
      OneStepMore(app.rulings, SettingsOf(context, manage), before, books.(trace := before.trace), opening[0]);
      assert opening == [opening[0]];
    }
  }

  /** The statuses of the measure and of the two size questions mean what they say. */
  lemma StopsOrGoesOn(context: MqttContext, measured: Result<nat, ClientError>, readFailed: bool, manage: bool)
    requires context.Conserved()
    requires readFailed ==> measured == Err(ClientError.RecvFailed)
    requires !readFailed ==>
               var arrived := context.network[..context.index];
               && (measured.Ok? <==> FrameLength(arrived).Some?)
               && (measured.Ok? ==> measured.value == FrameLength(arrived).value)
               && (measured == Err(ClientError.NoDataAvailable) <==> arrived == [])
               && (measured == Err(ClientError.NeedMoreBytes) <==> DecodeHeader(arrived).NeedMore?)
               && (measured.Err? && arrived != [] && !DecodeHeader(arrived).NeedMore? ==>
                     measured == Err(ClientError.BadResponse))
    ensures var status := SizeQuestions(measured, context.index, context.network.Length);
            if status.Ok? then Ready(context.network[..context.index]) == Some(status.value)
            else Stopped(context, readFailed, manage, status.error)
  {
    hide DecodeHeader, FrameLength, Flatten, AllFrames;
    var arrived := context.network[..context.index];
    if DecodeHeader(arrived).NeedMore? && context.network.Length >= 5 {
      RoomForMore(arrived, context.network.Length);
    }
    OnlyNothingIsNoData(arrived);
    if FrameLength(arrived).None? || FrameLength(arrived).value > |arrived| {
      Unready(arrived);
    }
  }

  lemma KeepAliveStops(context: MqttContext, answer: Result<(), ClientError>, readFailed: bool, manage: bool)
    requires context.Conserved()
    requires answer.Err? ==> manage && KeepAliveStatus(answer.error)
    ensures answer.Err? ==> Stopped(context, readFailed, manage, answer.error)
  {
  }

  lemma EmptyHistory(context: MqttContext)
    ensures context.Emptied() ==> context.Conserved()
  {
  }

  /**
   * The steps of one turn: perhaps a failed read or a PINGREQ, and then the packet at the front of `arrived`, if there
   * is one to handle.
   */
  ghost predicate TurnTook(steps: seq<Step>, arrived: seq<byte>, outcome: Result<(), ClientError>, refused: bool) {
    && AllHold(steps)
    && var frames := Total(steps).frames;
       if outcome.Ok? || refused then
         && steps != [] && AllSucceed(steps[..|steps| - 1])
         && var last := steps[|steps| - 1];
            last.Handled? && outcome == StepOutcome(last) && frames == [last.frame] && last.frame <= arrived
       else frames == [] && |steps| <= 1
  }

  /** No PINGREQ among them. */
  predicate NoPings(steps: seq<Step>) {
    forall i :: 0 <= i < |steps| ==> !steps[i].Pinged?
  }

  lemma TookNone(opening: seq<Step>, arrived: seq<byte>, outcome: Result<(), ClientError>)
    requires outcome.Err? && AllHold(opening) && Total(opening).frames == [] && |opening| <= 1
    ensures TurnTook(opening, arrived, outcome, false)
  {
  }

  lemma TookOne(opening: seq<Step>, step: Step, arrived: seq<byte>, outcome: Result<(), ClientError>, refused: bool)
    requires AllHold(opening) && AllSucceed(opening) && Total(opening).frames == [] && outcome.Ok? != refused
    requires step.Handled? && Holds(step) && AllHold([step]) && Total([step]).frames == [step.frame]
    requires outcome == StepOutcome(step) && step.frame <= arrived
    ensures TurnTook(opening + [step], arrived, outcome, refused)
  {
    hide Holds, StepOutcome, Total, TallyOf;
    TotalAppend(opening, [step]);
    assert (opening + [step])[..|opening|] == opening;
  }

  /** The packet at the front is handled, and its step entered in the books. */
  method Handle(context: MqttContext, transport: Transport, clock: Clock, app: App, total: nat, manage: bool)
    returns (r: Result<(), ClientError>, ghost reset: bool, ghost step: Step)
    requires Lively(transport, clock) && app.Plays() && context.ReplyWhole() && AtFront(context, total)
    requires context.network != context.ackProperties
    modifies context`connectStatus, context`lastPacketTxTime, context`sentAt, context`index, context`delivered
    modifies context`accepted, context`controlPacketSent, context`ackUsed, context`ackProperties
    modifies context`waitingForPingResp, context`pings, context.ackProperties, context.network, transport, clock
    modifies app`packets, app`heard, app`kept, app`cleared, app`trace
    ensures context.ReplyWhole() && context.ackProperties == old(context.ackProperties)
    ensures SettingsOf(context, manage) == old(SettingsOf(context, manage))
    ensures Grew(app.rulings, SettingsOf(context, manage), old(BooksOf(context, transport, app)),
                 BooksOf(context, transport, app), [step])
    ensures step.Handled? && Holds(step) && step.frame == old(context.network[..total]) && r == StepOutcome(step)
    ensures AllHold([step]) && Total([step]).frames == [step.frame]
    ensures context.controlPacketSent == (old(context.controlPacketSent) || Gave(step))
    ensures if reset then context.Emptied() && r.Err? else BufferStays(context)
    ensures Final(r) && transport.receives == old(transport.receives)
    ensures old(context.OnePing()) ==> context.OnePing()
    ensures !manage ==> context.pings == old(context.pings)
    ensures old(context.Timed(clock)) ==> context.Timed(clock)
  {
    hide MqttContext.Timed, Gave, AtFront, Grew, Adds, Holds, StepOutcome, StepPlan, Total, AllHold, SettingsOf;
    hide Lively, MqttContext.OnePing, MqttContext.ReplyWhole, MqttContext.Emptied, SessionsTyped, BufferStays, Final;
    ghost var before := BooksOf(context, transport, app);
    r, reset, step := TakeUp(context, transport, clock, app, total, manage);
    OneStepMore(app.rulings, SettingsOf(context, manage), before, BooksOf(context, transport, app), step);
    app.trace := app.trace + [step];
  }

  /** The packet at the front is handled, and dropped if its handler accepted it. */
  method HandleFront(context: MqttContext, transport: Transport, clock: Clock, app: App, total: nat, manage: bool)
    returns (outcome: Result<(), ClientError>, ghost reset: bool, ghost step: Step)
    requires Lively(transport, clock) && app.Plays() && context.Conserved() && context.ReplyWhole()
    requires AtFront(context, total)
    requires context.network != context.ackProperties
    modifies context, context.network, context.ackProperties, transport, clock, app
    ensures context.Conserved() && context.ReplyWhole() && context.ackProperties == old(context.ackProperties)
    ensures SettingsOf(context, manage) == old(SettingsOf(context, manage))
    ensures transport.receives == old(transport.receives)
    ensures step.Handled? && Holds(step) && IsFrame(step.frame) && step.frame <= old(context.network[..context.index])
    ensures Grew(app.rulings, SettingsOf(context, manage), old(BooksOf(context, transport, app)),
                 BooksOf(context, transport, app), [step])
    ensures AllHold([step]) && Total([step]).frames == [step.frame] && outcome == StepOutcome(step) && Final(outcome)
    ensures context.controlPacketSent == (old(context.controlPacketSent) || Gave(step))
    ensures reset ==> outcome.Err? && context.Emptied()
    ensures !reset ==> context.delivered == old(context.delivered)
                       && context.accepted == old(context.accepted) + (if outcome.Ok? then [step.frame] else [])
    ensures outcome.Ok? ==> context.index < old(context.index)
    ensures outcome.Err? && !reset ==> context.network[..context.index] == old(context.network[..context.index])
                                       && Ready(context.network[..context.index]).Some?
    ensures old(context.OnePing()) ==> context.OnePing()
    ensures !manage ==> context.pings == old(context.pings)
    ensures old(context.Timed(clock)) ==> context.Timed(clock)
  {
    hide MqttContext.Timed, Gave;
    hide DecodeHeader, FrameLength, Flatten, AllFrames, NoTwoPings, Grew, Adds, Holds, StepOutcome, Total, AllHold;
    hide Lively, MqttContext.OnePing, MqttContext.ReplyWhole, SettingsOf, SessionsTyped, ParseSection;
    FrontKind(context, total);
    outcome, reset, step := Handle(context, transport, clock, app, total, manage);
    if outcome.Ok? {
      Drop(context, clock, total);
    } else {
      EmptyHistory(context);
    }
  }

  /**
   * One turn. A packet whose handler accepted it is gone; one that was refused is still there. One packet is
   * handled, or none and the turn says why; and what was sent, heard, stored and released is what the steps say.
   */
  method Turn(context: MqttContext, transport: Transport, clock: Clock, app: App, received: Recv, manage: bool)
    returns (outcome: Result<(), ClientError>, next: Recv, ghost reset: bool, ghost refused: bool,
             ghost answer: Result<(), ClientError>, ghost sent: nat, ghost steps: seq<Step>)
    requires Lively(transport, clock) && app.Plays() && context.Conserved() && context.ReplyWhole()
    requires Landed(context, received)
    requires context.network != context.ackProperties
    modifies context, context.network, context.ackProperties, transport, clock, app
    ensures context.Conserved() && context.ReplyWhole() && context.ackProperties == old(context.ackProperties)
    ensures SettingsOf(context, manage) == old(SettingsOf(context, manage))
    ensures BytesOf(next) == [] && !next.RecvError? && Landed(context, next)
    ensures transport.receives == old(transport.receives)
    ensures Grew(app.rulings, SettingsOf(context, manage), old(BooksOf(context, transport, app)),
                 BooksOf(context, transport, app), steps)
    ensures TurnTook(steps, old(context.network[..context.index]) + BytesOf(received), outcome, refused)
    ensures AllHold(steps) && context.controlPacketSent == (old(context.controlPacketSent) || AnyGave(steps))
    ensures reset ==> refused && context.Emptied()
    ensures !reset ==> context.delivered == old(context.delivered) + BytesOf(received)
                       && context.accepted == old(context.accepted) + (if outcome.Ok? then Total(steps).frames else [])
    ensures outcome.Ok? ==> !reset && !refused && context.index < old(context.index) + |BytesOf(received)|
    ensures refused ==> outcome.Err? && Final(outcome)
    ensures refused && !reset ==>
            && context.network[..context.index] == old(context.network[..context.index]) + BytesOf(received)
            && Ready(context.network[..context.index]).Some?
    ensures outcome.Err? && !refused ==> Stopped(context, received.RecvError?, manage, outcome.error)
    ensures received.RecvError? ==>
            && outcome == Err(ClientError.RecvFailed) && !refused && transport.log == old(transport.log)
            && context.connectStatus == AfterFailure(old(context.connectStatus))
    ensures manage && IsIdle(old(context.index), received) ==>
              && KeptAlive(context, transport, clock.At(old(clock.readings)), sent, answer)
              && outcome == Err(if answer.Err? then answer.error else ClientError.NoDataAvailable) && !refused
    ensures old(context.OnePing()) ==> context.OnePing()
    ensures !manage ==> context.pings == old(context.pings) && NoPings(steps)
    ensures old(context.Timed(clock)) ==> context.Timed(clock)
  {
    hide MqttContext.Timed, AnyGave, Gave;
    hide DecodeHeader, FrameLength, Flatten, AllFrames, NoTwoPings, ViewOf, PingsSettled, Ready, FrontView;
    hide KeptAlive, Stopped, ParseSection, Grew, TurnTook, Holds, StepOutcome, Total, AllHold, AllSucceed, SettingsOf;
    hide Lively, MqttContext.OnePing, MqttContext.ReplyWhole, SessionsTyped, BooksOf;
    reset, refused := false, false;
    ghost var arrived := context.network[..context.index] + BytesOf(received);
    ghost var books := BooksOf(context, transport, app);
    ghost var settings := SettingsOf(context, manage);
    var status;
    ghost var opening;
    status, next, answer, sent, opening := Open(context, transport, clock, app, received, manage);
    if status.Err? {
      steps := opening;
      OpeningGivesNone(opening);
      TookNone(opening, arrived, Err(status.error));
      return Err(status.error), next, false, false, answer, sent, steps;
    }
    ghost var midway := BooksOf(context, transport, app);
    ghost var step;
    outcome, reset, step := HandleFront(context, transport, clock, app, status.value, manage);
    refused := outcome.Err?;
    steps := opening + [step];
    GrewMore(app.rulings, settings, books, midway, BooksOf(context, transport, app), opening, [step]);
    TookOne(opening, step, arrived, outcome, refused);
    OpeningGivesNone(opening);
    OneGave(step);
    AnyGaveAppend(opening, [step]);
  }

  /** Before the packet is taken up nothing is acknowledged. */
  lemma OpeningGivesNone(opening: seq<Step>)
    requires AllHold(opening) && Total(opening).frames == [] && |opening| <= 1
    ensures !AnyGave(opening)
  {
    hide Holds, StepPlan;
    if opening != [] {
      assert opening == [opening[0]] && opening[1..] == [];
    }
  }

  /** What a call found. */
  datatype Past = Past(receiver: Receiver, delivered: seq<byte>, onePing: bool)

  ghost function Snapshot(context: MqttContext): Past
    requires context.Conserved()
    reads context, context.network
  {
    Past(ReceiverOf(context), context.delivered, context.OnePing())
  }

  /** What a call that ended well, or only for want of bytes, has done: the whole parse of everything that arrived. */
  ghost predicate CaughtUp(context: MqttContext, past: Past, chunk: seq<byte>)
    requires context.index <= context.network.Length
    reads context, context.network
  {
    && context.accepted == Frames(context.delivered)
    && context.network[..context.index] == Residue(context.delivered)
    && ReceiverOf(context) == Deliver(past.receiver, chunk)
  }

  lemma EmptyIsUnready()
    ensures Ready([]).None?
  {
    NothingArrived();
  }

  /** What every call of the loop keeps, and what it has done by the time it returns. */
  ghost predicate Iterated(context: MqttContext, past: Past, r: Result<(), ClientError>, chunk: seq<byte>, reset: bool,
                           refused: bool, readFailed: bool, manage: bool)
    reads context, context.network, context.ackProperties
  {
    && context.Conserved() && context.ReplyWhole() && (past.onePing ==> context.OnePing())
    && (if reset then context.Emptied() && r.Err?
        else context.delivered == past.delivered + chunk && past.receiver.handled <= context.accepted)
    && (r.Ok? ==> !reset && context.index == 0)
    && r != Err(ClientError.NoDataAvailable)
    && (r == Err(ClientError.NeedMoreBytes) ==> !reset && Wanting(context))
    && (r.Ok? || r == Err(ClientError.NeedMoreBytes) ==> CaughtUp(context, past, chunk))
    && (refused ==> r.Err? && (reset || Ready(context.network[..context.index]).Some?))
    && (r.Err? && !refused ==> !reset && Stopped(context, readFailed, manage, r.error))
  }

  lemma Concludes(context: MqttContext, past: Past, outcome: Result<(), ClientError>, chunk: seq<byte>, reset: bool,
                  refused: bool, readFailed: bool, manage: bool)
    requires context.Conserved() && context.ReplyWhole() && (past.onePing ==> context.OnePing())
    requires AllFrames(past.receiver.handled)
    requires past.delivered == Flatten(past.receiver.handled) + past.receiver.held
    requires reset ==> refused && context.Emptied()
    requires !reset ==> context.delivered == past.delivered + chunk && past.receiver.handled <= context.accepted
    requires outcome.Ok? ==> !reset && context.index == 0
    requires outcome.Err? && !refused ==> Stopped(context, readFailed, manage, outcome.error)
    requires refused ==> outcome.Err? && Final(outcome) && (reset || Ready(context.network[..context.index]).Some?)
    ensures Iterated(context, past, Finish(outcome), chunk, reset, refused, readFailed, manage)
  {
    hide Ready, Flatten, AllFrames, Frames, Residue, Deliver, NoTwoPings, ParseSection;
    EmptyIsUnready();
    assert context.index == 0 ==> context.network[..context.index] == [];
    if !reset && (!Final(outcome) || outcome.Ok?) {
      Settled(context.accepted, context.network[..context.index], past.receiver.handled, past.receiver.held, chunk);
    }
  }

  lemma Bounds(context: MqttContext)
    requires context.Conserved()
    ensures context.index <= context.network.Length
    ensures AllFrames(context.accepted)
    ensures context.delivered == Flatten(context.accepted) + context.network[..context.index]
  {
  }

  /**
   * Which packets a call handed to its handlers: the first ones of what it had and what it read, in order and each
   * once. All of them were accepted, but for the last one when that was refused; and that one, unless the buffer
   * was thrown away, still stands at the front.
   */
  ghost predicate Dispatched(context: MqttContext, past: Past, r: Result<(), ClientError>, chunk: seq<byte>,
                             steps: seq<Step>,
                             reset: bool, refused: bool)
    reads context`index, context.network, context`accepted
  {
    && AllHold(steps)
    && var frames := Total(steps).frames;
       && frames <= Frames(past.receiver.held + chunk)
       && (r.Ok? || r == Err(ClientError.NeedMoreBytes) ==> frames == Frames(past.receiver.held + chunk))
       && (r.Ok? ==> !refused) && (!refused ==> HandledSucceed(steps))
       && (!refused && !reset ==> context.accepted == past.receiver.handled + frames)
       && (refused ==>
             && steps != [] && frames != []
             && var last := steps[|steps| - 1];
                && last.Handled? && last.frame == frames[|frames| - 1] && r == StepOutcome(last)
                && AllSucceed(steps[..|steps| - 1])
                && (!reset ==> && context.accepted == past.receiver.handled + frames[..|frames| - 1]
                               && context.index <= context.network.Length
                                  && last.frame <= context.network[..context.index]))
  }

  /** The steps of the turns so far, every one of which handled a packet and kept going. */
  ghost predicate SoFar(past: Past, accepted: seq<seq<byte>>, steps: seq<Step>) {
    AllHold(steps) && AllSucceed(steps) && accepted == past.receiver.handled + Total(steps).frames
  }

  /** One more turn that kept going. */
  lemma GoesOn(past: Past, before: seq<seq<byte>>, accepted: seq<seq<byte>>, steps: seq<Step>, took: seq<Step>,
               arrived: seq<byte>, outcome: Result<(), ClientError>)
    requires SoFar(past, before, steps) && TurnTook(took, arrived, outcome, false) && AllHold(took) && outcome.Ok?
    requires accepted == before + Total(took).frames
    ensures SoFar(past, accepted, steps + took)
  {
    hide Holds, AllSucceed, StepOutcome, TallyOf, Total;
    TotalAppend(steps, took);
    LastSucceeds(took);
    BothSucceed(steps, took);
  }

  lemma LastSucceeds(took: seq<Step>)
    requires AllHold(took) && took != [] && took[|took| - 1].Handled? && AllSucceed(took[..|took| - 1])
    requires StepOutcome(took[|took| - 1]).Ok?
    ensures AllSucceed(took)
  {
    hide Holds, StepOutcome;
    assert took == took[..|took| - 1] + [took[|took| - 1]];
  }

  lemma BothSucceed(a: seq<Step>, b: seq<Step>)
    requires AllHold(a) && AllHold(b) && AllSucceed(a) && AllSucceed(b)
    ensures AllHold(a + b) && AllSucceed(a + b)
  {
    hide Holds, Succeeds;
  }

  lemma Cancel(a: seq<byte>, b: seq<byte>, c: seq<byte>)
    requires a + b == a + c
    ensures b == c
  {
    assert (a + b)[|a|..] == b && (a + c)[|a|..] == c;
  }

  lemma FramesOfPart(a: seq<seq<byte>>, b: seq<seq<byte>>)
    requires AllFrames(a + b)
    ensures AllFrames(b)
  {
    hide IsFrame;
    forall i | 0 <= i < |b| ensures IsFrame(b[i]) {
      assert b[i] == (a + b)[|a| + i];
    }
  }

  /** Packets found at the front of what was held, one after the other, are the first packets of it. */
  lemma FirstOfHeld(handled: seq<seq<byte>>, frames: seq<seq<byte>>, front: seq<seq<byte>>, held: seq<byte>,
                    arrived: seq<byte>)
    requires AllFrames(handled + frames) && AllFrames(front)
    requires Flatten(handled + frames) + arrived == Flatten(handled) + held
    requires front == [] || (|front| == 1 && front[0] <= arrived)
    ensures frames + front <= Frames(held)
  {
    hide AllFrames, Frames, Flatten;
    FramesOfPart(handled, frames);
    FlattenAppend(handled, frames);
    Associate(Flatten(handled), Flatten(frames), arrived);
    Cancel(Flatten(handled), held, Flatten(frames) + arrived);
    FramesAreUnique(frames, arrived);
    FirstOfArrived(front, arrived);
    assert frames + Frames(arrived) == frames + front + Frames(arrived)[|front|..];
  }

  lemma FirstOfArrived(front: seq<seq<byte>>, arrived: seq<byte>)
    requires AllFrames(front) && (front == [] || (|front| == 1 && front[0] <= arrived))
    ensures front <= Frames(arrived)
  {
    hide AllFrames, Frames, Flatten;
    if front != [] {
      var rest := arrived[|front[0]|..];
      assert arrived == front[0] + rest;
      OneSlice(front[0]);
      assert front == [front[0]];
      FramesAreUnique(front, rest);
    }
  }

  /** The last turn, and so the call. */
  lemma CallEnds(context: MqttContext, past: Past, outcome: Result<(), ClientError>, chunk: seq<byte>,
                 accepted: seq<seq<byte>>, steps: seq<Step>, took: seq<Step>, arrived: seq<byte>, reset: bool,
                 refused: bool, readFailed: bool, manage: bool)
    requires SoFar(past, accepted, steps) && AllFrames(accepted)
    requires Flatten(accepted) + arrived == Flatten(past.receiver.handled) + (past.receiver.held + chunk)
    requires AllHold(took) && TurnTook(took, arrived, outcome, refused) && (refused ==> outcome.Err? && Final(outcome))
    requires reset ==> refused
    requires !reset ==> context.accepted == accepted + (if outcome.Ok? then Total(took).frames else [])
    requires context.index <= context.network.Length
    requires Iterated(context, past, Finish(outcome), chunk, reset, refused, readFailed, manage)
    requires refused && !reset ==> context.network[..context.index] == arrived
    ensures Dispatched(context, past, Finish(outcome), chunk, steps + took, reset, refused)
  {
    hide Holds, Succeeds, StepOutcome, TallyOf, IsFrame, Frames, Flatten, Residue, Stopped, Wanting, Ready, NoTwoPings;
    hide ParseSection, AllSucceed, HandledSucceed;
    TotalAppend(steps, took);
    if !refused {
      NoneRefused(steps, took, arrived, outcome);
    }
    var front := Total(took).frames;
    if front != [] {
      FrameOf(took[|took| - 1]);
      LastOfBoth(steps, took);
    }
    FirstOfHeld(past.receiver.handled, Total(steps).frames, front, past.receiver.held + chunk, arrived);
  }

  lemma HandlingLeavesAFrame(took: seq<Step>)
    requires AllHold(took) && took != []
    ensures took[0].Handled? ==> Total(took).frames != []
  {
    hide Holds, StepPlan;
  }

  lemma NoneRefused(steps: seq<Step>, took: seq<Step>, arrived: seq<byte>, outcome: Result<(), ClientError>)
    requires AllHold(steps) && AllSucceed(steps) && TurnTook(took, arrived, outcome, false) && AllHold(took)
    ensures AllHold(steps + took) && HandledSucceed(steps + took)
  {
    hide Holds, StepOutcome, StepPlan;
    if outcome.Ok? {
      LastSucceeds(took);
    } else if took != [] {
      HandlingLeavesAFrame(took);
    }
    forall i | 0 <= i < |steps + took| && (steps + took)[i].Handled? ensures StepOutcome((steps + took)[i]).Ok? {
      if i < |steps| {
        assert Succeeds(steps[i]);
      } else {
        assert outcome.Ok? && Succeeds(took[i - |steps|]);
      }
    }
  }

  lemma LastOfBoth(steps: seq<Step>, took: seq<Step>)
    requires AllHold(steps) && AllSucceed(steps) && AllHold(took) && took != [] && AllSucceed(took[..|took| - 1])
    ensures var all := steps + took;
            && AllHold(all) && all[|all| - 1] == took[|took| - 1] && AllSucceed(all[..|all| - 1])
  {
    hide Holds, AllSucceed;
    var all := steps + took;
    assert all[..|all| - 1] == steps + took[..|took| - 1];
    BothSucceed(steps, took[..|took| - 1]);
  }

  lemma FrameOf(step: Step)
    requires step.Handled? && Holds(step)
    ensures IsFrame(step.frame)
  {
  }

  /** Where the packets handled so far end, what is at hand begins. */
  lemma Together(context: MqttContext, past: Past, received: Recv, chunk: seq<byte>)
    requires context.Conserved() && past.delivered == Flatten(past.receiver.handled) + past.receiver.held
    requires context.delivered + BytesOf(received) == past.delivered + chunk
    ensures Flatten(context.accepted) + (context.network[..context.index] + BytesOf(received))
         == Flatten(past.receiver.handled) + (past.receiver.held + chunk)
    ensures AllFrames(context.accepted)
  {
    hide Flatten, AllFrames;
    var a, b, c := Flatten(context.accepted), context.network[..context.index], BytesOf(received);
    var d, e := Flatten(past.receiver.handled), past.receiver.held;
    assert a + b + c == a + (b + c) && d + e + chunk == d + (e + chunk);
  }

  /** A call under way, between two turns. */
  ghost predicate Underway(context: MqttContext, past: Past, chunk: seq<byte>, received: Recv, steps: seq<Step>)
    reads context, context.network, context.ackProperties
  {
    && context.Conserved() && context.ReplyWhole() && Landed(context, received)
    && context.delivered + BytesOf(received) == past.delivered + chunk && (past.onePing ==> context.OnePing())
    && SoFar(past, context.accepted, steps) && AllFrames(past.receiver.handled)
    && past.delivered == Flatten(past.receiver.handled) + past.receiver.held
  }

  lemma Starting(context: MqttContext, past: Past, received: Recv)
    requires context.Conserved() && context.ReplyWhole() && Landed(context, received) && past == Snapshot(context)
    ensures Underway(context, past, BytesOf(received), received, [])
  {
    hide Flatten, AllFrames, NoTwoPings, ParseSection, Holds, TallyOf;
    assert past.receiver.handled + [] == past.receiver.handled;
  }

  lemma UnderwayMeans(context: MqttContext, past: Past, chunk: seq<byte>, received: Recv, steps: seq<Step>)
    requires Underway(context, past, chunk, received, steps)
    ensures context.Conserved() && context.ReplyWhole() && Landed(context, received)
    ensures context.delivered + BytesOf(received) == past.delivered + chunk && (past.onePing ==> context.OnePing())
    ensures SoFar(past, context.accepted, steps) && past.receiver.handled <= context.accepted
    ensures AllFrames(past.receiver.handled) && past.delivered == Flatten(past.receiver.handled) + past.receiver.held
  {
    hide Flatten, AllFrames, NoTwoPings, ParseSection, Holds, Total, AllSucceed;
  }

  /** One more turn of a call: it concludes the call, or leaves it under way. */
  method NextTurn(context: MqttContext, transport: Transport, clock: Clock, app: App, received: Recv, manage: bool,
                  ghost past: Past, ghost chunk: seq<byte>, ghost books: Books, ghost before: seq<Step>,
                  ghost began: bool)
    returns (outcome: Result<(), ClientError>, next: Recv, ghost reset: bool, ghost refused: bool,
             ghost answer: Result<(), ClientError>, ghost sent: nat, ghost steps: seq<Step>)
    requires Lively(transport, clock) && app.Plays() && Underway(context, past, chunk, received, before)
    requires Grew(app.rulings, SettingsOf(context, manage), books, BooksOf(context, transport, app), before)
    requires context.network != context.ackProperties && (!manage ==> NoPings(before))
    requires AllHold(before) && context.controlPacketSent == (began || AnyGave(before))
    modifies context, context.network, context.ackProperties, transport, clock, app
    ensures context.ackProperties == old(context.ackProperties)
    ensures SettingsOf(context, manage) == old(SettingsOf(context, manage))
    ensures BytesOf(next) == [] && !next.RecvError? && transport.receives == old(transport.receives)
    ensures Grew(app.rulings, SettingsOf(context, manage), books, BooksOf(context, transport, app), steps)
    ensures AllHold(steps) && context.controlPacketSent == (began || AnyGave(steps))
    ensures context.index <= context.network.Length
    ensures if outcome.Err? || context.index == 0 then
              && Iterated(context, past, Finish(outcome), chunk, reset, refused, received.RecvError?, manage)
              && Dispatched(context, past, Finish(outcome), chunk, steps, reset, refused)
            else Underway(context, past, chunk, next, steps) && context.index < old(context.index) + |BytesOf(received)|
    ensures received.RecvError? ==>
            && outcome == Err(ClientError.RecvFailed) && !refused && transport.log == old(transport.log)
            && context.connectStatus == AfterFailure(old(context.connectStatus))
    ensures manage && IsIdle(old(context.index), received) ==>
              && KeptAlive(context, transport, clock.At(old(clock.readings)), sent, answer)
              && outcome == Err(if answer.Err? then answer.error else ClientError.NoDataAvailable) && !refused
    ensures !manage ==> context.pings == old(context.pings) && NoPings(steps)
    ensures old(context.Timed(clock)) ==> context.Timed(clock)
  {
    hide MqttContext.Timed, AnyGave;
    hide Flatten, AllFrames, CaughtUp, Ready, Wanting, Iterated, Final, Landed, NoTwoPings, ParseSection, Stopped;
    hide MqttContext.Conserved, MqttContext.ReplyWhole, MqttContext.OnePing, MqttContext.Emptied, KeptAlive;
    hide SessionsTyped;
    hide Grew, TurnTook, Dispatched, AllHold, AllSucceed, Total, SoFar, Lively, SettingsOf, BooksOf, Underway;
    UnderwayMeans(context, past, chunk, received, before);
    ghost var accepted, midway := context.accepted, BooksOf(context, transport, app);
    Bounds(context);
    ghost var arrived := context.network[..context.index] + BytesOf(received);
    Together(context, past, received, chunk);
    ghost var took;
    outcome, next, reset, refused, answer, sent, took := Turn(context, transport, clock, app, received, manage);
    Bounds(context);
    GrewMore(app.rulings, SettingsOf(context, manage), books, midway, BooksOf(context, transport, app), before, took);
    steps := before + took;
    AnyGaveAppend(before, took);
    if outcome.Err? || context.index == 0 {
      Concludes(context, past, outcome, chunk, reset, refused, received.RecvError?, manage);
      CallEnds(context, past, outcome, chunk, accepted, before, took, arrived, reset, refused, received.RecvError?,
               manage);
    } else {
      GoesOn(past, accepted, context.accepted, before, took, arrived, outcome);
      StillUnderway(context, past, chunk, next, steps);
    }
  }

  lemma StillUnderway(context: MqttContext, past: Past, chunk: seq<byte>, received: Recv, steps: seq<Step>)
    requires context.Conserved() && context.ReplyWhole() && Landed(context, received)
    requires context.delivered + BytesOf(received) == past.delivered + chunk && (past.onePing ==> context.OnePing())
    requires SoFar(past, context.accepted, steps) && AllFrames(past.receiver.handled)
    requires past.delivered == Flatten(past.receiver.handled) + past.receiver.held
    ensures Underway(context, past, chunk, received, steps)
  {
    hide Flatten, AllFrames, NoTwoPings, ParseSection, SoFar;
  }

  /**
   * `receive_single_iteration`: one read, then turns until the buffer is empty or something stops it.
   *
   * Unless a malformed DISCONNECT threw the buffer away, everything that arrived is the accepted packets and then
   * the buffer. When the call ends well, or only for want of bytes, it has done exactly what the pure receiver
   * does with the same bytes. A packet whose handler refused it still stands at the front (`refused`); a call that
   * stops without a refusal says truly why. The packets handed to the handlers are the first of the parse, each
   * once, and what was sent, heard, stored and released is what `steps` say of them; a pass with nothing to do does
   * exactly what the keep alive asks for.
   */
  method ReceiveSingleIteration(context: MqttContext, transport: Transport, clock: Clock, app: App, manage: bool)
    returns (r: Result<(), ClientError>, ghost read: Recv, ghost reset: bool, ghost refused: bool, ghost sent: nat,
             ghost steps: seq<Step>)
    requires Lively(transport, clock) && app.Plays() && context.Conserved() && context.ReplyWhole()
    requires context.network != context.ackProperties
    modifies context, context.network, context.ackProperties, transport, clock, app
    ensures transport.receives == old(transport.receives) + 1
    ensures read == Link.Delivered(transport.arrivals(old(transport.receives)),
                                   context.network.Length - old(context.index))
    ensures Iterated(context, old(Snapshot(context)), r, BytesOf(read), reset, refused, read.RecvError?, manage)
    ensures Dispatched(context, old(Snapshot(context)), r, BytesOf(read), steps, reset, refused)
    ensures Grew(app.rulings, SettingsOf(context, manage), old(BooksOf(context, transport, app)),
                 BooksOf(context, transport, app), steps)
    ensures context.ackProperties == old(context.ackProperties)
    ensures SettingsOf(context, manage) == old(SettingsOf(context, manage))
    ensures read.RecvError? ==> r == Err(ClientError.RecvFailed) && !refused && transport.log == old(transport.log)
                                && context.connectStatus == AfterFailure(old(context.connectStatus))
    ensures manage && IsIdle(old(context.index), read) ==>
              KeptAlive(context, transport, clock.At(old(clock.readings)), sent, r) && !refused
    ensures !manage ==> context.pings == old(context.pings) && NoPings(steps)
    ensures old(context.Timed(clock)) ==> context.Timed(clock)
    ensures AllHold(steps) && context.controlPacketSent == (old(context.controlPacketSent) || AnyGave(steps))
  {
    hide MqttContext.Timed, AnyGave, AllHold;
    hide CaughtUp, Iterated, ParseSection, Grew, Dispatched, Lively, SettingsOf, BooksOf, Link.Delivered, Underway;
    hide MqttContext.Conserved, MqttContext.ReplyWhole, SessionsTyped, Flatten, MqttContext.OnePing, Landed;
    reset, refused, sent, steps := false, false, 0, [];
    ghost var past, books, began := Snapshot(context), BooksOf(context, transport, app), context.controlPacketSent;
    Bounds(context);
    var received := transport.Receive(context.network.Length - context.index);
    read := received;
    Land(context, received);
    GrewNothing(app.rulings, SettingsOf(context, manage), books);
    NothingGave();
    Starting(context, past, received);
    ghost var first := true;
    label Landing:
    while true
      invariant Underway(context, past, BytesOf(read), received, steps) && context.index <= context.network.Length
      invariant context.ackProperties == old(context.ackProperties)
      invariant SettingsOf(context, manage) == old(SettingsOf(context, manage))
      invariant Lively(transport, clock) && transport.receives == old(transport.receives) + 1
      invariant old(context.Timed(clock)) ==> context.Timed(clock)
      invariant AllHold(steps) && context.controlPacketSent == (began || AnyGave(steps))
      invariant Grew(app.rulings, SettingsOf(context, manage), books, BooksOf(context, transport, app), steps)
      invariant !manage ==> context.pings == old(context.pings) && NoPings(steps)
      invariant if first then received == read && unchanged@Landing(context) && unchanged@Landing(transport)
                              && clock.readings == old(clock.readings)
                else BytesOf(received) == [] && !received.RecvError? && !read.RecvError?
                     && !(manage && IsIdle(old(context.index), read))
      decreases context.index + |BytesOf(received)|
    {
      var outcome;
      ghost var answer;
      outcome, received, reset, refused, answer, sent, steps :=
        NextTurn(context, transport, clock, app, received, manage, past, BytesOf(read), books, steps, began);
      if outcome.Err? || context.index == 0 {
        return Finish(outcome), read, reset, refused, sent, steps;
      }
      first := false;
    }
  }

  /** The transport's bytes land behind what has arrived. */
  method Land(context: MqttContext, received: Recv)
    requires context.Conserved() && context.index + |BytesOf(received)| <= context.network.Length
    modifies context.network
    ensures context.Conserved() && Landed(context, received)
    ensures context.network[..context.index] == old(context.network[..context.index])
  {
    hide Flatten, AllFrames;
    if received.Arrived? {
      CopyInto(context.network, context.index, received.bytes);
      assert context.network[..context.index] == old(context.network[..context.index]);
    }
  }

  /** `process_loop`: one pass with the keep alive managed. */
  method ProcessLoop(context: MqttContext, transport: Transport, clock: Clock, app: App)
    returns (r: Result<(), ClientError>, ghost read: Recv, ghost reset: bool, ghost refused: bool, ghost sent: nat,
             ghost steps: seq<Step>)
    requires Lively(transport, clock) && app.Plays() && context.Conserved() && context.ReplyWhole()
    requires context.network != context.ackProperties
    modifies context, context.network, context.ackProperties, transport, clock, app
    ensures transport.receives == old(transport.receives) + 1
    ensures read == Link.Delivered(transport.arrivals(old(transport.receives)),
                                   context.network.Length - old(context.index))
    ensures Iterated(context, old(Snapshot(context)), r, BytesOf(read), reset, refused, read.RecvError?, true)
    ensures Dispatched(context, old(Snapshot(context)), r, BytesOf(read), steps, reset, refused)
    ensures Grew(app.rulings, SettingsOf(context, true), old(BooksOf(context, transport, app)),
                 BooksOf(context, transport, app), steps)
    ensures context.ackProperties == old(context.ackProperties)
    ensures SettingsOf(context, true) == old(SettingsOf(context, true))
    ensures IsIdle(old(context.index), read) ==> KeptAlive(context, transport, clock.At(old(clock.readings)), sent, r)
    ensures clock.Ticks() && old(context.Timed(clock)) && IsIdle(old(context.index), read) ==>
              var due := old(TrulyDue(context, clock, clock.readings));
              && (r == Err(ClientError.KeepAliveTimeout) ==> due == Overdue)
              && (transport.offers != old(transport.offers) ==> due == PingNow)
              && (old(WithinOneWrap(context, clock, clock.readings)) ==>
                    && (due == Overdue ==> r == Err(ClientError.KeepAliveTimeout))
                    && (due == PingNow && old(context.connectStatus) == Connected ==> transport.Began([0xC0, 0x00])))
    ensures old(context.Timed(clock)) ==> context.Timed(clock)
    ensures AllHold(steps) && context.controlPacketSent == AnyGave(steps)
  {
    hide AnyGave, AllHold;
    hide Flatten, AllFrames, ParseSection, Ready, NoTwoPings, Frames, Residue, Grew, Dispatched, MqttContext.Timed;
    hide KeepAliveDue, TrulyDue, WithinOneWrap, Lively, SettingsOf, Clock.Ticks, Iterated;
    if clock.Ticks() && context.Timed(clock) {
      DueIsTrue(context, clock, clock.readings);
    }
    context.controlPacketSent := false;
    r, read, reset, refused, sent, steps := ReceiveSingleIteration(context, transport, clock, app, true);
  }

  /** `receive_loop`: one pass with the keep alive left to the caller; it never sends a PINGREQ. */
  method ReceiveLoop(context: MqttContext, transport: Transport, clock: Clock, app: App)
    returns (r: Result<(), ClientError>, ghost read: Recv, ghost reset: bool, ghost refused: bool, ghost sent: nat,
             ghost steps: seq<Step>)
    requires Lively(transport, clock) && app.Plays() && context.Conserved() && context.ReplyWhole()
    requires context.network != context.ackProperties
    modifies context, context.network, context.ackProperties, transport, clock, app
    ensures transport.receives == old(transport.receives) + 1
    ensures read == Link.Delivered(transport.arrivals(old(transport.receives)),
                                   context.network.Length - old(context.index))
    ensures Iterated(context, old(Snapshot(context)), r, BytesOf(read), reset, refused, read.RecvError?, false)
    ensures Dispatched(context, old(Snapshot(context)), r, BytesOf(read), steps, reset, refused)
    ensures Grew(app.rulings, SettingsOf(context, false), old(BooksOf(context, transport, app)),
                 BooksOf(context, transport, app), steps)
    ensures context.ackProperties == old(context.ackProperties)
    ensures SettingsOf(context, false) == old(SettingsOf(context, false))
    ensures context.pings == old(context.pings) && NoPings(steps)
    ensures old(context.Timed(clock)) ==> context.Timed(clock)
    ensures AllHold(steps) && context.controlPacketSent == (old(context.controlPacketSent) || AnyGave(steps))
  {
    hide Grew, Dispatched, MqttContext.Timed, AnyGave, AllHold;
    r, read, reset, refused, sent, steps := ReceiveSingleIteration(context, transport, clock, app, false);
  }

  /**
   * At every moment, failed handlers included, the accepted packets are the first packets of the stream that
   * arrived, and the buffer is what follows them.
   */
  lemma AcceptedAreTheFirst(context: MqttContext)
    requires context.Conserved()
    ensures context.accepted <= Frames(context.delivered)
    ensures Frames(context.delivered) == context.accepted + Frames(context.network[..context.index])
  {
    hide Ready, Flatten, AllFrames, Frames;
    FramesAreUnique(context.accepted, context.network[..context.index]);
    assert context.accepted <= context.accepted + Frames(context.network[..context.index]);
  }

  /** Two clients that received the same bytes in different pieces, and caught up, accepted the same packets. */
  lemma SameStreamSamePackets(a: MqttContext, b: MqttContext)
    requires a.Conserved() && b.Conserved() && a.delivered == b.delivered
    requires Ready(a.network[..a.index]).None? && Ready(b.network[..b.index]).None?
    ensures a.accepted == b.accepted && a.network[..a.index] == b.network[..b.index]
  {
    hide Ready, Flatten, AllFrames;
    Unfinished(a.network[..a.index]);
    Unfinished(b.network[..b.index]);
    FramesAreUnique(a.accepted, a.network[..a.index]);
    FramesAreUnique(b.accepted, b.network[..b.index]);
    assert a.accepted + [] == a.accepted && b.accepted + [] == b.accepted;
  }

  /** What a call promises, unless it threw the buffer away, makes it one pass of a run of calls. */
  lemma CallIsPass(context: MqttContext, past: Past, r: Result<(), ClientError>, chunk: seq<byte>, steps: seq<Step>,
                   refused: bool, readFailed: bool, rulings: nat -> Ruling, settings: Settings, before: Books,
                   after: Books)
    requires past.delivered == Flatten(past.receiver.handled) + past.receiver.held
    requires Iterated(context, past, r, chunk, false, refused, readFailed, settings.manage)
    requires Dispatched(context, past, r, chunk, steps, false, refused) && Grew(rulings, settings, before, after, steps)
    ensures context.index <= context.network.Length
    ensures Passes(rulings, settings, before, past.receiver.held,
                   [Pass(chunk, steps, after, context.network[..context.index])])
    ensures r.Ok? || r == Err(ClientError.NeedMoreBytes) ==> Ready(context.network[..context.index]).None?
  {
    hide Grew, Total, Frames, Residue, Ready, NoTwoPings, ParseSection, Flatten, AllFrames, StepOutcome, Stopped, Holds;
    hide AcceptedIn, RefusedIn, AllSucceed, HandledSucceed;
    EmptyIsUnready();
    assert context.index == 0 ==> context.network[..context.index] == [];
    var held := context.network[..context.index];
    AcceptedOfCall(steps, refused);
    var accepted := AcceptedIn(steps);
    assert context.accepted == past.receiver.handled + accepted;
    FlattenAppend(past.receiver.handled, accepted);
    var h := Flatten(past.receiver.handled);
    assert h + past.receiver.held + chunk == h + (past.receiver.held + chunk);
    assert h + Flatten(accepted) + held == h + (Flatten(accepted) + held);
    Cancel(h, past.receiver.held + chunk, Flatten(accepted) + held);
    assert [Pass(chunk, steps, after, held)][1..] == [];
  }

  /** Which of the packets a call handled it accepted: all of them, or all but the last. */
  lemma AcceptedOfCall(steps: seq<Step>, refused: bool)
    requires AllHold(steps)
    requires if refused then
               && steps != [] && steps[|steps| - 1].Handled? && StepOutcome(steps[|steps| - 1]).Err?
               && AllSucceed(steps[..|steps| - 1])
             else HandledSucceed(steps)
    ensures steps != [] ==> HandledSucceed(steps[..|steps| - 1])
    ensures var frames := Total(steps).frames;
            if refused then
              && frames != [] && AcceptedIn(steps) == frames[..|frames| - 1]
              && RefusedIn(steps) == Some(steps[|steps| - 1].frame)
            else AcceptedIn(steps) == frames && RefusedIn(steps).None?
  {
    hide Holds, StepOutcome, StepPlan, Total, AcceptedIn, AllSucceed;
    if refused {
      var init, last := steps[..|steps| - 1], steps[|steps| - 1];
      assert steps == init + [last];
      SuccessIsAccepted(init);
      AllAccepted(init);
      TotalAppend(init, [last]);
      FirstsAppend(init, [last], None);
      OneRefused(last);
      assert AcceptedIn(init) + [] == AcceptedIn(init);
    } else {
      AllAccepted(steps);
    }
  }

  lemma SuccessIsAccepted(steps: seq<Step>)
    requires AllHold(steps) && AllSucceed(steps)
    ensures HandledSucceed(steps)
  {
    hide Holds, StepOutcome;
    forall i | 0 <= i < |steps| && steps[i].Handled? ensures StepOutcome(steps[i]).Ok? {
      assert Succeeds(steps[i]);
    }
  }

  lemma OneRefused(step: Step)
    requires step.Handled? && Holds(step) && StepOutcome(step).Err?
    ensures AllHold([step]) && AcceptedIn([step]) == [] && Total([step]).frames == [step.frame]
  {
    hide Holds, StepOutcome, StepPlan;
    assert [step][1..] == [];
  }
}
