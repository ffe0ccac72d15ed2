/** The client context: sending against a transport that may take any prefix, and receiving out of a sliding buffer. */
module Client {
  import opened Bytes
  import opened Header
  import opened Link
  import opened Walks
  import opened Wire
  import opened Disconnect
  import opened Framing
  import opened Grammar

  /** Why a call refused. The statuses of a handshake and of the retransmit store's retrieval are not reached here. */
  datatype ClientError =
    | BadParameter | NotConnected | DisconnectPending | SendFailed | PublishStoreFailed | StateError | RecvFailed
    | BadResponse | NoDataAvailable | NeedMoreBytes | EventCallbackFailed | KeepAliveTimeout

  /** Not one of the two statuses that mean "come back when more has arrived". */
  predicate Final(r: Result<(), ClientError>) {
    r.Err? ==> r.error != ClientError.NoDataAvailable && r.error != ClientError.NeedMoreBytes
  }

  datatype ConnectionStatus = NotConnected | Connected | DisconnectPending

  datatype SendOutcome = Delivered(count: nat) | Failed

  /** A failed transport takes a connected client one step down; every other state stays. */
  function AfterFailure(s: ConnectionStatus): ConnectionStatus {
    if s == Connected then ConnectionStatus.DisconnectPending else s
  }

  /** Each offer was exactly the rest of the message that began at `origin` in the log. */
  predicate OfferedRest(made: seq<Offer>, message: seq<byte>, origin: nat) {
    forall i :: 0 <= i < |made| ==>
      && origin <= made[i].before <= origin + |message|
      && Flatten(made[i].parts) == message[made[i].before - origin..]
  }

  /** The first offer was all of the message. */
  predicate AllOffered(made: seq<Offer>, message: seq<byte>) {
    made != [] && Flatten(made[0].parts) == message
  }

  /** No offer but the first began with an empty slice. */
  predicate NoEmptyHead(made: seq<Offer>) {
    forall i :: 1 <= i < |made| ==> made[i].parts != [] && made[i].parts[0] != []
  }

  lemma OfferedMore(made: seq<Offer>, o: Offer, message: seq<byte>, origin: nat)
    requires OfferedRest(made, message, origin) && origin <= o.before <= origin + |message|
    requires Flatten(o.parts) == message[o.before - origin..]
    ensures OfferedRest(made + [o], message, origin)
  {
  }

  lemma HeadNotEmpty(made: seq<Offer>, o: Offer)
    requires NoEmptyHead(made) && (made != [] ==> o.parts != [] && o.parts[0] != [])
    ensures NoEmptyHead(made + [o])
  {
  }

  /** The history a keep alive is judged by: a PINGREQ that went out whole, a PINGRESP the library swallowed. */
  datatype PingEvent = PingSent | PingAnswered

  /** Between two PINGREQs there is a PINGRESP. */
  predicate NoTwoPings(pings: seq<PingEvent>) {
    forall i :: 0 <= i < |pings| - 1 && pings[i] == PingSent ==> pings[i + 1] == PingAnswered
  }

  const PINGREQ_PACKET: seq<byte> := [PINGREQ, 0]

  /** `connected`: the refusal every send shares. */
  function RefusalOf(status: ConnectionStatus): Option<ClientError> {
    match status
    case Connected => None
    case NotConnected => Some(ClientError.NotConnected)
    case DisconnectPending => Some(ClientError.DisconnectPending)
  }

  /** The refusals `disconnect` makes before it touches anything. */
  function RefusalToClose(code: Option<byte>, properties: seq<byte>, sessionExpiry: u32, serverMax: u32,
                          status: ConnectionStatus): Option<ClientError>
  {
    if |properties| > U32_MAX || (code.None? && properties != []) then Some(ClientError.BadParameter)
    else if properties != [] && WalkSection(OutgoingDisconnect(sessionExpiry), properties).Refused?
    then Some(ClientError.BadParameter)
    else if DisconnectPacketSize(code, |properties|, serverMax).Err? then Some(ClientError.BadParameter)
    else if status == ConnectionStatus.NotConnected then Some(ClientError.NotConnected)
    else None
  }

  /** The packet `disconnect` sends once nothing refuses it. */
  function ClosingPacket(code: Option<byte>, properties: seq<byte>, serverMax: u32): seq<byte>
    requires |properties| <= U32_MAX && DisconnectPacketSize(code, |properties|, serverMax).Ok?
  {
    DisconnectPacket(code, DisconnectPacketSize(code, |properties|, serverMax).value.remainingLength, properties)
  }

  /** After a failure nothing is connected, and a connection that was there can still be closed. */
  lemma FailureSteps(status: ConnectionStatus)
    ensures AfterFailure(status) != Connected
    ensures AfterFailure(status) == ConnectionStatus.NotConnected <==> status == ConnectionStatus.NotConnected
    ensures RefusalOf(status).None? <==> status == Connected
  {
  }

  /**
   * What `disconnect` refuses: arguments that make no packet the server takes, which is the caller's fault, and
   * otherwise only a client that was never connected.
   */
  lemma CloseExact(code: Option<byte>, properties: seq<byte>, sessionExpiry: u32, serverMax: u32,
                   status: ConnectionStatus)
    ensures var remaining := (if code.Some? then 1 else 0) + |Section(properties)|;
            var sayable := && (code.None? ==> properties == []) && (code.Some? ==> ReasonCodeAllowed(code.value, false))
                           && (properties != [] ==>
                                 WalkSection(OutgoingDisconnect(sessionExpiry), properties).Accepted?)
                           && |properties| <= MAX_REMAINING_LENGTH && remaining <= MAX_REMAINING_LENGTH
                           && |DisconnectPacket(code, remaining, properties)| <= serverMax;
            RefusalToClose(code, properties, sessionExpiry, serverMax, status)
            == if !sayable then Some(ClientError.BadParameter)
               else if status == ConnectionStatus.NotConnected then Some(ClientError.NotConnected)
               else None
  {
    hide WalkFrom, EncodeVar, DisconnectPacketSize, ReasonCodeAllowed, SizeVar;
    if |properties| <= MAX_REMAINING_LENGTH {
      SizeVarIsLength(|properties|);
      SizeAcceptsWhatFits(code, |properties|, serverMax);
      var remaining := (if code.Some? then 1 else 0) + |Section(properties)|;
      if remaining <= MAX_REMAINING_LENGTH {
        SizeVarIsLength(remaining);
      }
    } else if |properties| <= U32_MAX {
      SizeAcceptsWhatFits(code, |properties|, serverMax);
    }
  }

  /** Where a send began. */
  datatype Begin = Begin(log: seq<byte>, offers: seq<Offer>, receives: nat, reading: nat)

  class MqttContext {
    var connectStatus: ConnectionStatus
    var lastPacketTxTime: u32
    var lastPacketRxTime: u32
    var pingReqSendTime: u32
    var waitingForPingResp: bool

    /** The readings of the clock behind the three times. */
    ghost var sentAt: nat
    ghost var receivedAt: nat
    ghost var askedAt: nat

    var keepAliveSeconds: u16
    var controlPacketSent: bool

    /** The sliding buffer: `network[..index]` is what has arrived and is not yet handled. */
    const network: array<byte>
    var index: nat

    /** The section the application is building for the next acknowledgement. */
    var ackProperties: array<byte>
    var ackUsed: nat

    /** Whether QoS 1 and 2 were enabled; the records themselves stay opaque. */
    var stateful: bool

    var serverMaxPacketSize: u32
    var clientMaxPacketSize: u32
    var clientTopicAliasMax: u16
    var requestProblemInfo: bool
    var sessionExpiry: u32

    /** Since the buffer was last thrown away: every byte that arrived, and every packet a handler accepted. */
    ghost var delivered: seq<byte>
    ghost var accepted: seq<seq<byte>>
    ghost var pings: seq<PingEvent>

    constructor (network: array<byte>)
      ensures this.network == network && fresh(ackProperties) && ackUsed == 0 && !stateful
      ensures connectStatus == ConnectionStatus.NotConnected && index == 0
      ensures Conserved() && ReplyWhole() && OnePing() && delivered == [] && accepted == [] && pings == []
    {
      this.network, ackProperties := network, new byte[0];
      connectStatus, index, ackUsed, stateful := ConnectionStatus.NotConnected, 0, 0, false;
      lastPacketTxTime, lastPacketRxTime, pingReqSendTime, waitingForPingResp := 0, 0, 0, false;
      keepAliveSeconds, controlPacketSent := 0, false;
      serverMaxPacketSize, clientMaxPacketSize := 268_435_460, 268_435_460;
      clientTopicAliasMax, requestProblemInfo, sessionExpiry := 0, true, 0;
      delivered, accepted, pings := [], [], [];
      sentAt, receivedAt, askedAt := 0, 0, 0;
    }

    /** No byte is lost, repeated or moved: what arrived is the accepted packets and then the buffer. */
    ghost predicate Conserved()
      reads this`index, this`delivered, this`accepted, network
    {
      index <= network.Length && AllFrames(accepted) && delivered == Flatten(accepted) + network[..index]
    }

    /** The reply section is a whole number of well-formed properties. */
    ghost predicate ReplyWhole()
      reads this`ackUsed, this`ackProperties, ackProperties
    {
      && ackUsed <= ackProperties.Length && (ackUsed > 0 ==> ackProperties.Length < REMAINING_LENGTH_INVALID)
      && ParseSection(ackProperties[..ackUsed]).Some?
    }

    /** A PINGRESP is owed exactly when the last thing that happened was a PINGREQ. */
    ghost predicate OnePing()
      reads this`pings, this`waitingForPingResp
    {
      && NoTwoPings(pings)
      && (waitingForPingResp <==> pings != [] && pings[|pings| - 1] == PingSent)
    }

    /** The times are readings of this clock; that of the PINGREQ, while it is unanswered. */
    ghost predicate Timed(clock: Clock)
      reads this`lastPacketTxTime, this`sentAt, this`lastPacketRxTime, this`receivedAt
      reads this`pingReqSendTime, this`askedAt, this`waitingForPingResp, clock`readings
    {
      && sentAt < clock.readings && lastPacketTxTime == clock.At(sentAt)
      && receivedAt < clock.readings && lastPacketRxTime == clock.At(receivedAt)
      && (waitingForPingResp ==> askedAt < clock.readings && pingReqSendTime == clock.At(askedAt))
    }

    /** The time of the last transmission is a reading taken since `from`. */
    ghost predicate SentSince(clock: Clock, from: nat)
      reads this`lastPacketTxTime, this`sentAt, clock`readings
    {
      from <= sentAt < clock.readings && lastPacketTxTime == clock.At(sentAt)
    }

    function StatusRefusal(): Option<ClientError>
      reads this`connectStatus
    {
      RefusalOf(connectStatus)
    }

    /**
     * What both senders promise whatever the transport answers: the log grew by exactly the first `sent` bytes of
     * the message, every call offered the part not yet accepted, and only a failure changed the connection.
     */
    twostate predicate SentPrefix(transport: Transport, message: seq<byte>, sent: nat, made: seq<Offer>, r: SendOutcome)
      reads this, transport
    {
      && sent <= |message| && transport.log == old(transport.log) + message[..sent]
      && (if r.Delivered? then r.count == sent else sent < |message|)
      && connectStatus == (if r.Failed? then AfterFailure(old(connectStatus)) else old(connectStatus))
      && transport.receives == old(transport.receives)
      && transport.offers == old(transport.offers) + made && OfferedRest(made, message, |old(transport.log)|)
    }

    /** The last reading is past the deadline; of a clock that ticks, truly past it. */
    twostate predicate TimedOut(clock: Clock, limit: nat)
      reads clock
    {
      && 0 < clock.readings && ElapsedMs(clock.At(clock.readings - 1), clock.At(old(clock.readings))) >= limit
      && (clock.Ticks() ==> clock.time(clock.readings - 1) >= clock.time(old(clock.readings)) + limit)
    }

    /**
     * What the senders make of an answer: clamp what was taken, note the time when any count came back, and step
     * the connection down on a failure (`None`).
     */
    method Note(clock: Clock, answer: Sent, offered: nat) returns (taken: Option<nat>)
      modifies this`connectStatus, this`lastPacketTxTime, this`sentAt, clock
      ensures taken == match answer
                       case Accepted(count) => Some(Min(count, offered))
                       case NoneTaken => Some(0)
                       case SendError => None
      ensures clock.readings == old(clock.readings) + (if answer.Accepted? then 1 else 0)
      ensures lastPacketTxTime == if answer.Accepted? then clock.At(old(clock.readings)) else old(lastPacketTxTime)
      ensures sentAt == if answer.Accepted? then old(clock.readings) else old(sentAt)
      ensures connectStatus == if answer.SendError? then AfterFailure(old(connectStatus)) else old(connectStatus)
      ensures old(Timed(clock)) ==> Timed(clock)
    {
      match answer {
        case Accepted(count) =>
          sentAt := clock.readings;
          lastPacketTxTime := clock.NowMs();
          return Some(Min(count, offered));
        case NoneTaken =>
          return Some(0);
        case SendError =>
          connectStatus := AfterFailure(connectStatus);
          return None;
      }
    }

    /** What one call of a sender's loop comes to, whichever way the slices were offered. */
    twostate predicate Offered(transport: Transport, clock: Clock, parts: seq<seq<byte>>, new taken: Option<nat>)
      reads this, transport, clock
    {
      && transport.offers == old(transport.offers) + [Offer(parts, |old(transport.log)|)]
      && transport.receives == old(transport.receives)
      && (if clock.readings > old(clock.readings)
          then sentAt == old(clock.readings) && lastPacketTxTime == clock.At(sentAt)
          else sentAt == old(sentAt) && lastPacketTxTime == old(lastPacketTxTime) && (taken.None? || taken.value == 0))
      && (taken.Some? ==> taken.value <= |Flatten(parts)| && connectStatus == old(connectStatus)
                          && transport.log == old(transport.log) + Flatten(parts)[..taken.value])
      && (taken.None? ==> connectStatus == AfterFailure(old(connectStatus)) && transport.log == old(transport.log))
      && old(clock.readings) <= clock.readings <= old(clock.readings) + 1
      && (transport.Moves(|old(transport.offers)|) && Flatten(parts) != [] ==> taken.None? || taken.value > 0)
    }

    method OfferBuffer(transport: Transport, clock: Clock, bytes: seq<byte>) returns (taken: Option<nat>)
      modifies this`connectStatus, this`lastPacketTxTime, this`sentAt, transport, clock
      ensures Offered(transport, clock, [bytes], taken)
      ensures old(Timed(clock)) ==> Timed(clock)
    {
      hide Flatten;
      OneSlice(bytes);
      var answer := transport.Send(bytes);
      taken := Note(clock, answer, |bytes|);
    }

    method OfferSlices(transport: Transport, clock: Clock, parts: seq<seq<byte>>) returns (taken: Option<nat>)
      modifies this`connectStatus, this`lastPacketTxTime, this`sentAt, transport, clock
      ensures Offered(transport, clock, parts, taken)
      ensures old(Timed(clock)) ==> Timed(clock)
    {
      hide Flatten;
      var answer := transport.Writev(parts);
      taken := Note(clock, answer, |Flatten(parts)|);
    }

    /** A send under way: what it has made of the message so far, since `begin`. */
    ghost predicate Sending(transport: Transport, clock: Clock, begin: Begin, message: seq<byte>, made: seq<Offer>,
                            accepted: nat, stamp: nat)
      reads transport, this`lastPacketTxTime, this`sentAt
    {
      && accepted <= |message| && transport.log == begin.log + message[..accepted]
      && transport.offers == begin.offers + made && OfferedRest(made, message, |begin.log|)
      && transport.receives == begin.receives
      && (accepted > 0 ==> begin.reading < stamp && sentAt == stamp && lastPacketTxTime == clock.At(stamp))
    }

    lemma Sends(transport: Transport, clock: Clock, begin: Begin, message: seq<byte>, made: seq<Offer>, accepted: nat,
                stamp: nat)
      requires Sending(transport, clock, begin, message, made, accepted, stamp) && stamp < clock.readings
      ensures accepted <= |message| && transport.log == begin.log + message[..accepted]
      ensures transport.offers == begin.offers + made && OfferedRest(made, message, |begin.log|)
      ensures transport.receives == begin.receives
      ensures accepted > 0 ==> SentSince(clock, begin.reading)
    {
      hide OfferedRest, Clock.At;
    }

    lemma Begins(transport: Transport, clock: Clock, message: seq<byte>)
      ensures Sending(transport, clock, Begin(transport.log, transport.offers, transport.receives, clock.readings),
                      message, [], 0, 0)
    {
    }

    /**
     * What drives a sender's loop on. With a clock that ticks the calls are counted against the readings that fit
     * before the deadline; otherwise a call that gets somewhere is due at `target`.
     */
    ghost predicate Driven(transport: Transport, clock: Clock, startReading: nat, limit: nat, calls: nat, target: nat)
      reads transport, clock
    {
      && startReading < clock.readings && calls <= clock.readings - 1 - startReading
      && (if clock.Ticks() then
            && clock.time(startReading) <= clock.time(clock.readings - 1) < clock.time(startReading) + limit
            && calls < clock.Fit(limit)
          else |transport.offers| <= target && transport.Moves(target))
    }

    /** The first turn is driven. */
    lemma Starts(transport: Transport, clock: Clock, startReading: nat, limit: nat) returns (target: nat)
      requires Lively(transport, clock) && clock.readings == startReading + 1 && limit > 0
      ensures Driven(transport, clock, startReading, limit, 0, target)
    {
      hide Clock.Ticks, Clock.Fit;
      target := 0;
      if !clock.Ticks() {
        target := transport.NextMove(|transport.offers|);
      } else {
        FewerThanFit(clock, startReading, startReading, limit);
      }
    }

    lemma Counted(transport: Transport, clock: Clock, startReading: nat, limit: nat, calls: nat, target: nat)
      requires Driven(transport, clock, startReading, limit, calls, target)
      ensures startReading < clock.readings && calls <= clock.readings - 1 - startReading
      ensures clock.Ticks() ==>
                && calls < clock.Fit(limit)
                && clock.time(startReading) <= clock.time(clock.readings - 1) < clock.time(startReading) + limit
      ensures !clock.Ticks() ==> |transport.offers| <= target && transport.Moves(target)
    {
    }

    /** Of a clock that ticks, a timeout check measures the true time. */
    lemma TrulyElapsed(clock: Clock, startReading: nat, last: nat, now: nat, limit: nat)
      requires startReading <= last < now <= last + 2 && limit <= SEND_TIMEOUT_MS + 1
      requires clock.Ticks() ==> clock.time(startReading) <= clock.time(last) < clock.time(startReading) + limit
      ensures clock.Ticks() ==>
                && clock.time(startReading) <= clock.time(now)
                && ElapsedMs(clock.At(now), clock.At(startReading)) == clock.time(now) - clock.time(startReading)
    {
      if clock.Ticks() {
        assert Reading(last);
        ElapsedAcrossTheWrap(clock.time(now), clock.time(startReading));
      }
    }

    /** A turn that ends before the deadline drives the next one. */
    lemma GoesOn(transport: Transport, clock: Clock, startReading: nat, last: nat, limit: nat, calls: nat, before: nat,
                 aim: nat)
      returns (target: nat)
      requires Lively(transport, clock) && startReading <= last < clock.readings - 1 && calls <= last + 1 - startReading
      requires clock.Ticks() ==>
                 clock.time(startReading) <= clock.time(clock.readings - 1) < clock.time(startReading) + limit
      requires !clock.Ticks() ==> before <= aim && transport.Moves(aim)
      requires |transport.offers| == before + 1
      ensures Driven(transport, clock, startReading, limit, calls, target)
      ensures before < aim ==> target == aim
    {
      hide Clock.Ticks, Clock.Fit;
      target := aim;
      if clock.Ticks() {
        FewerThanFit(clock, startReading, clock.readings - 1, limit);
      } else if before == aim {
        target := transport.NextMove(before + 1);
      }
    }

    /** A timeout check: the time gone by, and what drives the next turn when the deadline has not passed. */
    method Check(transport: Transport, clock: Clock, start: u32, ghost startReading: nat, ghost last: nat,
                 ghost limit: nat, ghost calls: nat, ghost before: nat, ghost aim: nat)
      returns (elapsed: u32, ghost target: nat)
      requires Lively(transport, clock) && start == clock.At(startReading) && limit <= SEND_TIMEOUT_MS + 1
      requires startReading <= last < clock.readings <= last + 2 && calls <= last + 1 - startReading
      requires clock.Ticks() ==> clock.time(startReading) <= clock.time(last) < clock.time(startReading) + limit
      requires !clock.Ticks() ==> before <= aim && transport.Moves(aim)
      requires |transport.offers| == before + 1
      modifies clock
      ensures clock.readings == old(clock.readings) + 1
      ensures elapsed == ElapsedMs(clock.At(clock.readings - 1), clock.At(startReading))
      ensures clock.Ticks() ==> elapsed == clock.time(clock.readings - 1) - clock.time(startReading)
      ensures elapsed < limit ==> Driven(transport, clock, startReading, limit, calls, target)
      ensures before < aim && elapsed < limit ==> target == aim
      ensures old(Timed(clock)) ==> Timed(clock)
    {
      hide Clock.Ticks, Clock.At, ElapsedMs, Driven;
      var now := clock.NowMs();
      elapsed, target := ElapsedMs(now, start), aim;
      TrulyElapsed(clock, startReading, last, clock.readings - 1, limit);
      if elapsed < limit {
        target := GoesOn(transport, clock, startReading, last, limit, calls, before, aim);
      }
    }

    /** `send_buffer`. */
    method SendBuffer(transport: Transport, clock: Clock, buffer: seq<byte>)
      returns (r: SendOutcome, ghost sent: nat, ghost made: seq<Offer>)
      requires Lively(transport, clock)
      modifies this`connectStatus, this`lastPacketTxTime, this`sentAt, transport, clock
      ensures SentPrefix(transport, buffer, sent, made, r)
      ensures sent > 0 ==> SentSince(clock, old(clock.readings))
      ensures clock.Ticks() ==> |made| <= clock.Fit(20_000)
      ensures r.Delivered? && r.count < |buffer| ==> TimedOut(clock, 20_000)
      ensures buffer != [] ==> AllOffered(made, buffer)
      ensures old(Timed(clock)) ==> Timed(clock)
    {
      hide Clock.Ticks, Clock.Fit, Clock.At, SentSince, Driven, Sending, Transport.Moves, ElapsedMs, OfferedRest;
      hide AllOffered;
      ghost var begin := Begin(transport.log, transport.offers, transport.receives, clock.readings);
      ghost var stamp: nat := 0;
      made := [];
      Begins(transport, clock, buffer);
      var total := |buffer|;
      var start := clock.NowMs();
      ghost var target: nat := Starts(transport, clock, begin.reading, SEND_TIMEOUT_MS);
      var accepted: nat := 0;
      while accepted < total
        invariant accepted <= total && Sending(transport, clock, begin, buffer, made, accepted, stamp)
        invariant connectStatus == old(connectStatus) && stamp < clock.readings && begin.reading < clock.readings
        invariant old(Timed(clock)) ==> Timed(clock)
        invariant start == clock.At(begin.reading)
        invariant (made == [] && accepted == 0) || AllOffered(made, buffer)
        invariant Driven(transport, clock, begin.reading, SEND_TIMEOUT_MS, |made|, target)
        invariant clock.Ticks() ==> |made| <= clock.Fit(SEND_TIMEOUT_MS)
        decreases total - accepted,
                  if clock.Ticks() then clock.Fit(SEND_TIMEOUT_MS) - |made| else target - |transport.offers|
      {
        ghost var last, calls, aim := clock.readings - 1, |transport.offers|, target;
        Counted(transport, clock, begin.reading, SEND_TIMEOUT_MS, |made|, target);
        var taken: Option<nat>;
        taken, made, stamp := OfferRest(transport, clock, buffer, accepted, begin, made, stamp);
        if taken.None? {
          var _ := clock.NowMs();
          Sends(transport, clock, begin, buffer, made, accepted, stamp);
          return Failed, accepted, made;
        }
        accepted := accepted + taken.value;
        var elapsed;
        elapsed, target :=
          Check(transport, clock, start, begin.reading, last, SEND_TIMEOUT_MS, |made|, calls, aim);
        if elapsed >= SEND_TIMEOUT_MS {
          break;
        }
      }
      Sends(transport, clock, begin, buffer, made, accepted, stamp);
      return Delivered(accepted), accepted, made;
    }

    /** One turn of the buffer sender: offer what is outstanding. */
    method OfferRest(transport: Transport, clock: Clock, buffer: seq<byte>, accepted: nat, ghost begin: Begin,
                     ghost made: seq<Offer>, ghost stamp: nat)
      returns (taken: Option<nat>, ghost nowMade: seq<Offer>, ghost nowStamp: nat)
      requires Sending(transport, clock, begin, buffer, made, accepted, stamp) && accepted < |buffer|
      requires begin.reading < clock.readings && stamp < clock.readings
      modifies this`connectStatus, this`lastPacketTxTime, this`sentAt, transport, clock
      ensures |nowMade| == |made| + 1 && |transport.offers| == |old(transport.offers)| + 1
      ensures (made == [] && accepted == 0) || AllOffered(made, buffer) ==> AllOffered(nowMade, buffer)
      ensures var total := accepted + (if taken.Some? then taken.value else 0);
              Sending(transport, clock, begin, buffer, nowMade, total, nowStamp) && total <= |buffer|
      ensures connectStatus == if taken.Some? then old(connectStatus) else AfterFailure(old(connectStatus))
      ensures old(clock.readings) <= clock.readings <= old(clock.readings) + 1 && nowStamp < clock.readings
      ensures transport.Moves(|old(transport.offers)|) ==> taken.None? || taken.value > 0
      ensures old(Timed(clock)) ==> Timed(clock)
    {
      hide Flatten, OfferedRest, Transport.Moves, Clock.At;
      var remaining := buffer[accepted..];
      OneSlice(remaining);
      ghost var offer := Offer([remaining], |transport.log|);
      OfferedMore(made, offer, buffer, |begin.log|);
      nowMade := made + [offer];
      taken := OfferBuffer(transport, clock, remaining);
      nowStamp := if clock.readings > old(clock.readings) then old(clock.readings) else stamp;
      LogGrows(begin.log, buffer, accepted, if taken.Some? then taken.value else 0);
    }

    /**
     * `send_vectors`, which advances the caller's slices in place. What is still outstanding is at every turn the
     * message from the first byte not yet accepted, and no offer but the first begins with an empty slice.
     */
    method SendVectors(transport: Transport, clock: Clock, vectors: array<seq<byte>>)
      returns (r: SendOutcome, ghost sent: nat, ghost made: seq<Offer>)
      requires Lively(transport, clock)
      modifies this`connectStatus, this`lastPacketTxTime, this`sentAt, transport, clock, vectors
      ensures SentPrefix(transport, Flatten(old(vectors[..])), sent, made, r)
      ensures sent > 0 ==> SentSince(clock, old(clock.readings))
      ensures NoEmptyHead(made) && (clock.Ticks() ==> |made| <= clock.Fit(20_001))
      ensures clock.readings > old(clock.readings)
      ensures r.Delivered? && r.count < |Flatten(old(vectors[..]))| ==> TimedOut(clock, 20_001)
      ensures old(Timed(clock)) ==> Timed(clock)
    {
      hide Flatten, NoEmptyHead, Outstanding, Clock.Ticks, Clock.Fit, Clock.At, SentSince, Driven, Sending, OfferedRest;
      hide Transport.Moves, ElapsedMs;
      ghost var begin := Begin(transport.log, transport.offers, transport.receives, clock.readings);
      ghost var stamp: nat := 0;
      ghost var message := Flatten(vectors[..]);
      made := [];
      Begins(transport, clock, message);
      NothingOffered();
      var total := TotalLength(vectors);
      var start := clock.NowMs();
      ghost var target: nat := Starts(transport, clock, begin.reading, SEND_TIMEOUT_MS + 1);
      var accepted: nat := 0;
      var at: nat := 0;
      AllOutstanding(vectors);
      while accepted < total
        invariant accepted <= total == |message| && Sending(transport, clock, begin, message, made, accepted, stamp)
        invariant Outstanding(vectors, at, accepted, message, made != []) && NoEmptyHead(made)
        invariant connectStatus == old(connectStatus) && stamp < clock.readings && begin.reading < clock.readings
        invariant old(Timed(clock)) ==> Timed(clock)
        invariant start == clock.At(begin.reading)
        invariant accepted < total ==> Driven(transport, clock, begin.reading, SEND_TIMEOUT_MS + 1, |made|, target)
        invariant clock.Ticks() ==> |made| <= clock.Fit(SEND_TIMEOUT_MS + 1)
        decreases total - accepted,
                  if clock.Ticks() then clock.Fit(SEND_TIMEOUT_MS + 1) - |made| else target - |transport.offers|
      {
        ghost var last, calls, aim := clock.readings - 1, |transport.offers|, target;
        Counted(transport, clock, begin.reading, SEND_TIMEOUT_MS + 1, |made|, target);
        var taken: Option<nat>;
        taken, at, made, stamp :=
          OfferOutstanding(transport, clock, vectors, at, accepted, begin, message, made, stamp);
        if taken.None? {
          Sends(transport, clock, begin, message, made, accepted, stamp);
          return Failed, accepted, made;
        }
        accepted := accepted + taken.value;
        if accepted < total {
          var elapsed;
          elapsed, target :=
            Check(transport, clock, start, begin.reading, last, SEND_TIMEOUT_MS + 1, |made|, calls, aim);
          if elapsed > SEND_TIMEOUT_MS {
            break;
          }
        }
      }
      Sends(transport, clock, begin, message, made, accepted, stamp);
      return Delivered(accepted), accepted, made;
    }

    /** One turn of the vector sender: offer what is outstanding, then step past what was taken. */
    method OfferOutstanding(transport: Transport, clock: Clock, vectors: array<seq<byte>>, at: nat, accepted: nat,
                            ghost begin: Begin, ghost message: seq<byte>, ghost made: seq<Offer>, ghost stamp: nat)
      returns (taken: Option<nat>, nowAt: nat, ghost nowMade: seq<Offer>, ghost nowStamp: nat)
      requires Sending(transport, clock, begin, message, made, accepted, stamp) && accepted < |message|
      requires Outstanding(vectors, at, accepted, message, made != []) && NoEmptyHead(made)
      requires begin.reading < clock.readings && stamp < clock.readings
      modifies this`connectStatus, this`lastPacketTxTime, this`sentAt, transport, clock, vectors
      ensures |nowMade| == |made| + 1 && NoEmptyHead(nowMade) && |transport.offers| == |old(transport.offers)| + 1
      ensures var total := accepted + (if taken.Some? then taken.value else 0);
              && Sending(transport, clock, begin, message, nowMade, total, nowStamp) && total <= |message|
              && Outstanding(vectors, nowAt, total, message, taken.Some?)
      ensures connectStatus == if taken.Some? then old(connectStatus) else AfterFailure(old(connectStatus))
      ensures old(clock.readings) <= clock.readings <= old(clock.readings) + 1 && nowStamp < clock.readings
      ensures transport.Moves(|old(transport.offers)|) ==> taken.None? || taken.value > 0
      ensures old(Timed(clock)) ==> Timed(clock)
    {
      hide Flatten, OfferedRest, NoEmptyHead, Transport.Moves, Clock.At;
      var outstanding := vectors[at..];
      SomethingOutstanding(outstanding);
      ghost var offer := Offer(outstanding, |transport.log|);
      OfferedMore(made, offer, message, |begin.log|);
      HeadNotEmpty(made, offer);
      nowMade := made + [offer];
      taken := OfferSlices(transport, clock, outstanding);
      nowStamp := if clock.readings > old(clock.readings) then old(clock.readings) else stamp;
      nowAt := at;
      LogGrows(begin.log, message, accepted, if taken.Some? then taken.value else 0);
      if taken.Some? {
        nowAt := Advance(vectors, at, taken.value);
      }
    }

    /**
     * The slices from `at` on are the message from the first byte not yet accepted, and once the sender has begun
     * the first of them is not empty.
     */
    ghost predicate Outstanding(vectors: array<seq<byte>>, at: nat, accepted: nat, message: seq<byte>, begun: bool)
      reads vectors
    {
      && at <= vectors.Length && accepted <= |message| && Flatten(vectors[at..]) == message[accepted..]
      && (begun && at < vectors.Length ==> vectors[at] != [])
    }

    lemma AllOutstanding(vectors: array<seq<byte>>)
      ensures Outstanding(vectors, 0, 0, Flatten(vectors[..]), false)
    {
      hide Flatten;
      assert vectors[0..] == vectors[..];
    }

    /** `ping`: two fixed bytes through the buffer sender. */
    method Ping(transport: Transport, clock: Clock) returns (r: Result<(), ClientError>, ghost sent: nat)
      requires Lively(transport, clock)
      modifies this`connectStatus, this`lastPacketTxTime, this`sentAt, this`pingReqSendTime, this`askedAt
      modifies this`waitingForPingResp, this`pings
      modifies transport, clock
      ensures sent <= 2 && transport.log == old(transport.log) + PINGREQ_PACKET[..sent]
      ensures transport.receives == old(transport.receives)
      ensures r == (if old(StatusRefusal()).Some? then Err(old(StatusRefusal()).value)
                    else if sent == 2 then Ok(()) else Err(ClientError.SendFailed))
      ensures if old(StatusRefusal()).Some?
              then sent == 0 && transport.offers == old(transport.offers) && connectStatus == old(connectStatus)
              else transport.Began(PINGREQ_PACKET)
      ensures connectStatus == old(connectStatus) || connectStatus == AfterFailure(old(connectStatus))
      ensures r.Ok? ==> connectStatus == old(connectStatus) && waitingForPingResp && pingReqSendTime == lastPacketTxTime
                        && askedAt == sentAt && old(clock.readings) <= askedAt && pings == old(pings) + [PingSent]
      ensures r.Err? ==> waitingForPingResp == old(waitingForPingResp) && pingReqSendTime == old(pingReqSendTime)
                         && askedAt == old(askedAt) && pings == old(pings)
      ensures old(Timed(clock)) ==> Timed(clock)
    {
      hide Flatten, OfferedRest, Clock.At;
      sent := 0;
      if StatusRefusal().Some? {
        return Err(StatusRefusal().value), 0;
      }
      var outcome, count, _ := SendBuffer(transport, clock, PINGREQ_PACKET);
      if outcome != Delivered(2) {
        return Err(ClientError.SendFailed), count;
      }
      pingReqSendTime, askedAt := lastPacketTxTime, sentAt;
      waitingForPingResp := true;
      pings := pings + [PingSent];
      return Ok(()), count;
    }

    function DisconnectRefusal(code: Option<byte>, properties: seq<byte>): Option<ClientError>
      reads this`sessionExpiry, this`serverMaxPacketSize, this`connectStatus
    {
      RefusalToClose(code, properties, sessionExpiry, serverMaxPacketSize, connectStatus)
    }

    function DisconnectMessage(code: Option<byte>, properties: seq<byte>): seq<byte>
      requires DisconnectRefusal(code, properties).None?
      reads this`sessionExpiry, this`serverMaxPacketSize, this`connectStatus
    {
      ClosingPacket(code, properties, serverMaxPacketSize)
    }

    /** The connection is given up and the buffer thrown away: a new history of deliveries begins. */
    ghost predicate Emptied()
      reads this`connectStatus, this`index, this`delivered, this`accepted, network
    {
      && connectStatus == ConnectionStatus.NotConnected && index == 0 && delivered == [] && accepted == []
      && forall i :: 0 <= i < network.Length ==> network[i] == 0
    }

    /**
     * `disconnect`: the connection is closed and the buffer zeroed before the packet goes out, so a send that
     * fails leaves the same state. Only a context that was never connected is refused.
     */
    method Disconnect(transport: Transport, clock: Clock, code: Option<byte>, properties: seq<byte>)
      returns (r: Result<(), ClientError>, ghost sent: nat)
      requires Lively(transport, clock)
      modifies this`connectStatus, this`lastPacketTxTime, this`sentAt, this`index, this`delivered, this`accepted
      modifies network
      modifies transport, clock
      ensures Final(r) && transport.receives == old(transport.receives)
      ensures old(DisconnectRefusal(code, properties)).Some? ==>
                && r == Err(old(DisconnectRefusal(code, properties)).value) && sent == 0
                && transport.log == old(transport.log) && transport.offers == old(transport.offers)
                && connectStatus == old(connectStatus) && index == old(index) && network[..] == old(network[..])
                && delivered == old(delivered) && accepted == old(accepted)
      ensures old(DisconnectRefusal(code, properties)).None? ==>
                && Emptied() && sent <= |old(DisconnectMessage(code, properties))|
                && transport.log == old(transport.log) + old(DisconnectMessage(code, properties))[..sent]
                && r == if sent == |old(DisconnectMessage(code, properties))| then Ok(())
                   else Err(ClientError.SendFailed)
      ensures old(Timed(clock)) ==> Timed(clock)
    {
      hide DisconnectRefusal, DisconnectPacketSize, DisconnectPacket, EncodeVar, Flatten, OfferedRest, Timed;
      var refusal := RefuseDisconnect(code, properties);
      if refusal.Some? {
        return Err(refusal.value), 0;
      }
      assert |properties| <= U32_MAX && DisconnectPacketSize(code, |properties|, serverMaxPacketSize).Ok? by {
        NotRefused(code, properties);
      }
      var size := DisconnectPacketSize(code, |properties|, serverMaxPacketSize);
      Empty();
      var vectors := DisconnectGather(code, properties, size.value.remainingLength, serverMaxPacketSize);
      VectorsArePacket(code, size.value.remainingLength, properties);
      var total := TotalLength(vectors);
      var outcome, count, _ := SendVectors(transport, clock, vectors);
      return (if outcome == Delivered(total) then Ok(()) else Err(ClientError.SendFailed)), count;
    }

    lemma NotRefused(code: Option<byte>, properties: seq<byte>)
      requires DisconnectRefusal(code, properties).None?
      ensures |properties| <= U32_MAX && DisconnectPacketSize(code, |properties|, serverMaxPacketSize).Ok?
    {
      hide DisconnectPacketSize;
    }

    /** Everything `disconnect` asks before it touches the context. */
    method RefuseDisconnect(code: Option<byte>, properties: seq<byte>) returns (refusal: Option<ClientError>)
      ensures refusal == DisconnectRefusal(code, properties)
      ensures refusal.Some? ==> Final(Err(refusal.value))
    {
      hide WalkFrom, DisconnectPacketSize;
      if |properties| > U32_MAX || (code.None? && properties != []) {
        return Some(ClientError.BadParameter);
      }
      if properties != [] {
        var v := ValidateOutgoingProperties(sessionExpiry, properties);
        if v.Err? {
          return Some(ClientError.BadParameter);
        }
      }
      if DisconnectPacketSize(code, |properties|, serverMaxPacketSize).Err? {
        return Some(ClientError.BadParameter);
      }
      if connectStatus == ConnectionStatus.NotConnected {
        return Some(ClientError.NotConnected);
      }
      return None;
    }

    /** The connection is marked closed, the cursor reset and the buffer zeroed. */
    method Empty()
      modifies this`connectStatus, this`index, this`delivered, this`accepted, network
      ensures Emptied()
    {
      connectStatus, index := ConnectionStatus.NotConnected, 0;
      forall i | 0 <= i < network.Length {
        network[i] := 0;
      }
      delivered, accepted := [], [];
    }
  }

  /** The fixed header and the encoded length written into buffers of six and four bytes, gathered with the section. */
  method DisconnectGather(code: Option<byte>, properties: seq<byte>, remaining: u32, ghost max: u32)
    returns (vectors: array<seq<byte>>)
    requires |properties| <= U32_MAX && DisconnectPacketSize(code, |properties|, max).Ok?
    requires remaining == DisconnectPacketSize(code, |properties|, max).value.remainingLength
    ensures fresh(vectors) && vectors[..] == DisconnectVectors(code, remaining, properties)
  {
    hide EncodeVar, DisconnectPacketSize, SizeVar;
    SizeIsTrue(code, properties, max);
    SizeVarIsLength(remaining);
    SizeVarIsLength(|properties|);
    var fixed := new byte[6];
    var header := SerializeDisconnectFixed(fixed, code, remaining);
    assert fixed[..header] == DisconnectHeader(code, remaining);
    var field := new byte[4];
    var written := EncodeVariableLength(field, 0, |properties|);
    assert field[..written] == EncodeVar(|properties|);
    if properties == [] {
      vectors := new seq<byte>[][fixed[..header], field[..written]];
    } else {
      vectors := new seq<byte>[][fixed[..header], field[..written], properties];
    }
  }

  /** `vectors.iter().map(len).sum()`. */
  method TotalLength(vectors: array<seq<byte>>) returns (total: nat)
    ensures total == |Flatten(vectors[..])|
  {
    hide Flatten;
    total := 0;
    var i := 0;
    NoSlices();
    while i < vectors.Length
      invariant i <= vectors.Length && total == |Flatten(vectors[..i])|
    {
      FlattenAppend(vectors[..i], [vectors[i]]);
      OneSlice(vectors[i]);
      assert vectors[..i + 1] == vectors[..i] + [vectors[i]];
      total := total + |vectors[i]|;
      i := i + 1;
    }
    assert vectors[..i] == vectors[..];
  }

  /** Steps over every slice the call finished, and inside the one it did not. */
  method Advance(vectors: array<seq<byte>>, from: nat, count: nat) returns (at: nat)
    requires from <= vectors.Length && count <= |Flatten(vectors[from..])|
    modifies vectors
    ensures from <= at <= vectors.Length && vectors[..at] == old(vectors[..at])
    ensures Flatten(vectors[at..]) == Flatten(old(vectors[from..]))[count..]
    ensures at < vectors.Length ==> vectors[at] != []
  {
    hide Flatten;
    at := from;
    var taken: nat := count;
    while at < vectors.Length
      invariant from <= at <= vectors.Length && vectors[..] == old(vectors[..])
      invariant taken <= |Flatten(vectors[at..])|
      invariant Flatten(vectors[at..])[taken..] == Flatten(old(vectors[from..]))[count..]
      decreases vectors.Length - at
    {
      HeadAndRest(vectors[at..]);
      assert vectors[at..][1..] == vectors[at + 1..];
      if taken < |vectors[at]| {
        break;
      }
      taken := taken - |vectors[at]|;
      at := at + 1;
    }
    NoSlices();
    assert at == vectors.Length ==> vectors[at..] == [];
    if taken > 0 {
      HeadAndRest(vectors[at..]);
      ghost var tail := vectors[at + 1..];
      assert vectors[at..][1..] == tail;
      vectors[at] := vectors[at][taken..];
      HeadAndRest(vectors[at..]);
      assert vectors[at..][1..] == tail;
    } else if at < vectors.Length {
      HeadAndRest(vectors[at..]);
    }
  }

  lemma HeadAndRest(parts: seq<seq<byte>>)
    requires parts != []
    ensures Flatten(parts) == parts[0] + Flatten(parts[1..])
  {
  }

  lemma NoSlices()
    ensures Flatten([]) == []
  {
  }

  lemma SomethingOutstanding(parts: seq<seq<byte>>)
    ensures Flatten(parts) != [] ==> parts != []
  {
  }

  lemma LogGrows(log: seq<byte>, message: seq<byte>, accepted: nat, taken: nat)
    requires accepted + taken <= |message|
    ensures log + message[..accepted] + message[accepted..][..taken] == log + message[..accepted + taken]
    ensures message[accepted..][taken..] == message[accepted + taken..]
  {
  }

  lemma NothingOffered()
    ensures NoEmptyHead([])
  {
  }
}
