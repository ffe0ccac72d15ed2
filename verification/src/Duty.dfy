/**
 * What a client owes every packet a broker may send it, message by message and in the numbers of section 3 of MQTT
 * Version 5.0; and that the handlers' plans are just this.
 */
module Duty {
  import opened Bytes
  import opened Header
  import opened Walks
  import opened Packet
  import opened Wire
  import opened Connect
  import opened Ack
  import opened Disconnect
  import opened Framing
  import opened Received
  import opened Client
  import opened Replies
  import opened Account

  // ---- the messages ------------------------------------------------------------------------------

  /** How much of a code and a section a packet carries. */
  datatype Tail = Bare | Coded(code: byte) | Full(code: byte, properties: seq<byte>)

  /** What a broker may say to a client that is connected; the first byte tells the acknowledgements apart. */
  datatype Message =
    | Publication(info: PublishInfo)
    | Handshake(first: byte, packetId: u16, tail: Tail)
    | Listed(first: byte, packetId: u16, properties: seq<byte>, codes: seq<byte>)
    | Pong
    | Goodbye(tail: Tail)

  function CodesOf(tail: Tail): seq<byte> {
    if tail.Bare? then [] else [tail.code]
  }

  function PropertiesOf(tail: Tail): seq<byte> {
    if tail.Full? then tail.properties else []
  }

  function TailBytes(tail: Tail): seq<byte> {
    CodesOf(tail) + (if tail.Full? then Section(tail.properties) else [])
  }

  function FirstOf(m: Message): byte {
    match m
    case Publication(info) => FlagsOf(info)
    case Handshake(first, _, _) => first
    case Listed(first, _, _, _) => first
    case Pong => 0xD0
    case Goodbye(_) => 0xE0
  }

  predicate HasContent(m: Message) {
    m.Publication? ==> |m.info.topicName| <= 0xFFFF
  }

  function Content(m: Message): seq<byte>
    requires HasContent(m)
  {
    match m
    case Publication(info) => BodyOf(info)
    case Handshake(_, packetId, tail) => Be16(packetId) + TailBytes(tail)
    case Listed(_, packetId, properties, codes) => Be16(packetId) + Section(properties) + codes
    case Pong => []
    case Goodbye(tail) => TailBytes(tail)
  }

  function OnTheWire(m: Message): seq<byte>
    requires HasContent(m)
  {
    [FirstOf(m)] + EncodeVar(|Content(m)|) + Content(m)
  }

  /** The messages this client understands: legal ones, no longer than it said it would take. */
  predicate Understands(s: Settings, m: Message) {
    && HasContent(m) && |Content(m)| <= MAX_REMAINING_LENGTH && |OnTheWire(m)| <= s.clientMax
    && match m
       case Publication(info) => Acceptable(info, s.topicAliasMax)
       case Handshake(first, packetId, tail) =>
         && first in {0x40, 0x50, 0x62, 0x70} && packetId != 0
         && (!tail.Bare? ==> CodeReadable(tail.code))
         && (tail.Full? ==> && s.problemInfo && |tail.properties| <= MAX_REMAINING_LENGTH
                            && WalkSection(Walker.Ack, tail.properties).Accepted?)
       case Listed(first, packetId, properties, codes) =>
         && first in {0x90, 0xB0} && packetId != 0 && |Content(m)| >= 4 && SubackCodes(codes)
         && |properties| <= MAX_REMAINING_LENGTH && WalkSection(Walker.Ack, properties).Accepted?
       case Pong => true
       case Goodbye(tail) =>
         && (!tail.Bare? ==> ReasonCodeAllowed(tail.code, true))
         && (tail.Full? ==> && |tail.properties| <= MAX_REMAINING_LENGTH
                            && WalkSection(IncomingDisconnect, tail.properties).Accepted?)
  }

  // ---- what is owed -----------------------------------------------------------------------------

  /**
   * The acknowledgement that answers a packet, by its first byte alone: levels one and two of a PUBLISH, and the two
   * middle steps of a handshake.
   */
  function AnswerTo(first: byte): Option<byte> {
    if first / 16 == 3 then (
      if first / 2 % 4 == 1 then Some(0x40) else if first / 2 % 4 == 2 then Some(0x50) else None)
    else if first == 0x50 then Some(0x62)
    else if first == 0x62 then Some(0x70)
    else None
  }

  /** What ends the handling before anybody hears of the packet. */
  function Barred(m: Message, stateful: bool, recorded: Recorded): Option<ClientError> {
    match m
    case Publication(info) =>
      if info.qos == AtMostOnce then None
      else if !stateful then Some(ClientError.RecvFailed)
      else if recorded.Refuses? then Some(ClientError.StateError) else None
    case Handshake(_, _, _) => if stateful && !recorded.Moves? then Some(ClientError.StateError) else None
    case _ => None
  }

  /**
   * What the application hears: the message, once. Of a PUBLISH of level two that the records hold already, and of a
   * PINGRESP when the library manages the keep alive, nothing.
   */
  function Tidings(m: Message, settings: Settings, recorded: Recorded): seq<Event> {
    match m
    case Publication(info) =>
      if settings.stateful && recorded.Collides? && info.qos == ExactlyOnce then []
      else [Event(FirstOf(m), if info.packetId.Some? then info.packetId.value else 0, Some(info), [], info.properties)]
    case Handshake(first, packetId, tail) => [Event(first, packetId, None, CodesOf(tail), PropertiesOf(tail))]
    case Listed(first, packetId, properties, codes) => [Event(first, packetId, None, codes, properties)]
    case Pong => if settings.manage then [] else [Event(0xD0, 0, None, [], [])]
    case Goodbye(tail) => [Event(0xE0, 0, None, CodesOf(tail), PropertiesOf(tail))]
  }

  /** What the store may forget: a PUBLISH this client sent, or the answer to one it received, 2^16 further on. */
  function Forgotten(m: Message): seq<nat> {
    if !m.Handshake? then []
    else if m.first == 0x40 || m.first == 0x50 then [m.packetId as nat]
    else [0x1_0000 + m.packetId as nat]
  }

  function IdentifierOf(m: Message): u16 {
    match m
    case Publication(info) => if info.packetId.Some? then info.packetId.value else 0
    case Handshake(_, packetId, _) => packetId
    case Listed(_, packetId, _, _) => packetId
    case _ => 0
  }

  /** What stands between the client and a send. */
  function Unconnected(status: ConnectionStatus): Option<ClientError> {
    match status
    case Connected => None
    case NotConnected => Some(ClientError.NotConnected)
    case DisconnectPending => Some(ClientError.DisconnectPending)
  }

  /**
   * How an answer ends. Without a word from the application it is four bytes long; with one it needs a code the type
   * may carry, a section of reason strings and user properties, and a server that takes so much.
   */
  function ReplyEnds(first: byte, packetId: u16, code: Option<byte>, section: seq<byte>, serverMax: u32,
                    status: ConnectionStatus): Fate
  {
    var said := code.Some? || section != [];
    var sayable :=
      if !said then serverMax >= 4
      else && code.Some? && CodeWritable(first, code.value)
           && (section != [] ==> WalkSection(PublishAck, section).Accepted?)
           && |section| <= MAX_REMAINING_LENGTH && |AckBody(packetId, code, section)| <= MAX_REMAINING_LENGTH
           && |AckPacket(first, packetId, code, section)| <= serverMax;
    if !sayable then Ends(Err(ClientError.BadParameter))
    else if Unconnected(status).Some? then Ends(Err(Unconnected(status).value))
    else Answers(first, packetId, if said then AckPacket(first, packetId, code, section)
                                  else [first, 2, packetId / 0x100, packetId % 0x100])
  }

  /** Everything a message comes to. */
  function DutyOf(m: Message, g: Ground, ruling: Ruling): Plan
    requires SessionsTyped(ruling.sessions)
  {
    var barred := Barred(m, g.settings.stateful, ruling.recorded);
    if barred.Some? then Plan([], [], g.section, Ends(Err(barred.value)))
    else
      var told := Tidings(m, g.settings, ruling.recorded);
      var wanted := AnswerTo(FirstOf(m));
      var asked := wanted.Some? && told != [];
      var section := if asked then Replied(g.settings.capacity, g.section, ruling.sessions) else g.section;
      var code := if asked then ruling.code else None;
      var fate :=
        if told != [] && !ruling.accepts then Ends(Err(ClientError.EventCallbackFailed))
        else if wanted.None? then Ends(Ok(()))
        else if g.settings.stateful
        then ReplyEnds(wanted.value, IdentifierOf(m), code, section, g.settings.serverMax, g.status)
        else if (code.Some? || section != []) && Unconnected(g.status).Some?
        then Ends(Err(Unconnected(g.status).value))
        else Ends(Ok(()));
      Plan(told, Forgotten(m), section, fate)
  }

  // ---- the plans are this --------------------------------------------------------------------------

  /** A message on the wire is one frame, and the handlers see its first byte and its content. */
  lemma MessageIsFrame(s: Settings, m: Message)
    requires Understands(s, m)
    ensures IsFrame(OnTheWire(m)) && ViewOf(OnTheWire(m)) == PacketInfo(FirstOf(m), |Content(m)|, Content(m))
    ensures PacketSize(|Content(m)|) == |OnTheWire(m)|
  {
    hide EncodeVar, Content, DecodeHeader, SizeVar;
    assert IncomingPacketValid(FirstOf(m)) by { MayCome(s, m); }
    var body := Content(m);
    WrittenHeader(FirstOf(m), |body|, body);
    SizeVarIsLength(|body|);
    assert OnTheWire(m)[1 + |EncodeVar(|body|)|..] == body;
  }

  lemma MayCome(s: Settings, m: Message)
    requires Understands(s, m)
    ensures IncomingPacketValid(FirstOf(m))
  {
    hide Content, OnTheWire, Acceptable, CodeReadable, SubackCodes, WalkSection, ReasonCodeAllowed;
  }

  /** What the deserializers make of it. */
  lemma PublicationIsRead(s: Settings, m: Message)
    requires Understands(s, m) && m.Publication? && IsFrame(OnTheWire(m))
    ensures DeserializePublish(ViewOf(OnTheWire(m)), s.clientMax, s.topicAliasMax) == Ok(m.info)
  {
    hide EncodeVar, DeserializePublish, FlagsOf, BodyOf, Acceptable;
    MessageIsFrame(s, m);
    var body := Content(m);
    PublishExact(PacketInfo(FirstOf(m), |body|, body), s.clientMax, s.topicAliasMax, m.info);
    assert body[..|body|] == body;
  }

  function AckOf(m: Message): AckInfo {
    match m
    case Handshake(_, packetId, tail) => AckInfo(Some(packetId), CodesOf(tail), PropertiesOf(tail))
    case Listed(_, packetId, properties, codes) => AckInfo(Some(packetId), codes, properties)
    case _ => AckInfo(None, [], [])
  }

  lemma AcknowledgementIsRead(s: Settings, m: Message)
    requires Understands(s, m) && (m.Handshake? || m.Listed? || m.Pong?) && IsFrame(OnTheWire(m))
    ensures DeserializeAck(ViewOf(OnTheWire(m)), s.clientMax, s.problemInfo) == Ok(AckOf(m))
  {
    hide EncodeVar, DeserializeAck, CodeReadable, SubackCodes, WalkFrom, PacketSize;
    MessageIsFrame(s, m);
    var body := Content(m);
    AckExact(PacketInfo(FirstOf(m), |body|, body), s.clientMax, s.problemInfo, AckOf(m));
    assert body[..|body|] == body;
    assert m.Handshake? && m.tail.Full? ==>
      body == Be16(m.packetId) + CodesOf(m.tail) + Section(m.tail.properties);
  }

  lemma GoodbyeIsRead(s: Settings, m: Message)
    requires Understands(s, m) && m.Goodbye? && IsFrame(OnTheWire(m))
    ensures DeserializeDisconnect(ViewOf(OnTheWire(m)), s.clientMax)
         == Ok(Incoming(if m.tail.Bare? then None else Some(m.tail.code), PropertiesOf(m.tail)))
  {
    hide EncodeVar, DeserializeDisconnect, ReasonCodeAllowed, WalkFrom, PacketSize;
    MessageIsFrame(s, m);
    var body := Content(m);
    DisconnectExact(PacketInfo(FirstOf(m), |body|, body), s.clientMax,
                    Incoming(if m.tail.Bare? then None else Some(m.tail.code), PropertiesOf(m.tail)));
    assert body[..|body|] == body;
  }

  lemma UnconnectedIsRefused(status: ConnectionStatus)
    ensures Unconnected(status) == RefusalOf(status)
  {
  }

  /** A reply the client may give ends as it should. */
  lemma ReplyIsAnswered(first: byte, packetId: u16, code: Option<byte>, section: seq<byte>, serverMax: u32,
                        status: ConnectionStatus)
    requires first in {0x40, 0x50, 0x62, 0x70} && packetId != 0
    ensures ReplyFate(Some(first), packetId, code, section, serverMax, RefusalOf(status))
         == ReplyEnds(first, packetId, code, section, serverMax, status)
  {
    hide WalkFrom, EncodeVar, AckPacket, AckPacketSize, CodeWritable, AckCodeValid, AckBody, Unconnected, RefusalOf;
    UnconnectedIsRefused(status);
    if section == [] && code.None? {
      SmallPackets(first, packetId, code);
    } else {
      NoCodeIsRefused(first);
      if code.Some? {
        TwoCodeTablesAgree(first, code.value);
        AckSizeExact(serverMax, first, packetId, code.value, section);
      }
    }
  }

  lemma PublicationPlan(m: Message, g: Ground, ruling: Ruling)
    requires Understands(g.settings, m) && m.Publication? && IsFrame(OnTheWire(m)) && SessionsTyped(ruling.sessions)
    ensures PlanOf(OnTheWire(m), g, ruling) == DutyOf(m, g, ruling)
  {
    hide DeserializePublish, ReplyEnds, ReplyFate, Replied, SessionsTyped, IsFrame, BodyOf, Acceptable;
    var info := m.info;
    MessageIsFrame(g.settings, m);
    PublicationIsRead(g.settings, m);
    NoSessions(g.settings.capacity, g.section);
    LevelOf(info);
    if info.qos != AtMostOnce {
      assert info.packetId.Some? && info.packetId.value != 0 by {
        AcceptableIdentifier(info, g.settings.topicAliasMax);
      }
      var told := Tidings(m, g.settings, ruling.recorded) != [];
      var section := if told then Replied(g.settings.capacity, g.section, ruling.sessions) else g.section;
      ReplyIsAnswered(AnswerTo(FirstOf(m)).value, info.packetId.value, if told then ruling.code else None, section,
                      g.settings.serverMax, g.status);
    }
  }

  lemma LevelOf(info: PublishInfo)
    ensures FlagsOf(info) as int / 16 == 3
    ensures AnswerTo(FlagsOf(info)) == match info.qos
                                       case AtMostOnce => None
                                       case AtLeastOnce => Some(0x40)
                                       case ExactlyOnce => Some(0x50)
  {
  }

  lemma AcceptableIdentifier(info: PublishInfo, topicAliasMax: u16)
    requires Acceptable(info, topicAliasMax)
    ensures info.packetId.Some? <==> info.qos != AtMostOnce
    ensures info.packetId != Some(0)
  {
    hide WalkSection;
  }

  lemma HandshakePlan(m: Message, g: Ground, ruling: Ruling)
    requires Understands(g.settings, m) && m.Handshake? && IsFrame(OnTheWire(m)) && SessionsTyped(ruling.sessions)
    ensures PlanOf(OnTheWire(m), g, ruling) == DutyOf(m, g, ruling)
  {
    hide DeserializeAck, ReplyEnds, ReplyFate, Replied, SessionsTyped, IsFrame, Content, OnTheWire, CodeReadable;
    hide WalkSection, RefusalOf, Unconnected;
    MessageIsFrame(g.settings, m);
    AcknowledgementIsRead(g.settings, m);
    NoSessions(g.settings.capacity, g.section);
    UnconnectedIsRefused(g.status);
    if m.first == 0x50 || m.first == 0x62 {
      var section := Replied(g.settings.capacity, g.section, ruling.sessions);
      ReplyIsAnswered(AnswerTo(m.first).value, m.packetId, ruling.code, section, g.settings.serverMax, g.status);
      OwedNothing(m.packetId, ruling.code, section, g.settings.serverMax, RefusalOf(g.status));
    }
  }

  /** A client that keeps no records owes nothing, and says so only where the connection lets it. */
  lemma OwedNothing(packetId: u16, code: Option<byte>, section: seq<byte>, serverMax: u32, status: Option<ClientError>)
    ensures ReplyFate(None, packetId, code, section, serverMax, status)
         == if (code.Some? || section != []) && status.Some? then Ends(Err(status.value)) else Ends(Ok(()))
  {
    hide WalkFrom, AckPacket;
  }

  lemma OtherPlan(m: Message, g: Ground, ruling: Ruling)
    requires Understands(g.settings, m) && (m.Listed? || m.Pong? || m.Goodbye?) && IsFrame(OnTheWire(m))
    requires SessionsTyped(ruling.sessions)
    ensures PlanOf(OnTheWire(m), g, ruling) == DutyOf(m, g, ruling)
  {
    hide DeserializeAck, DeserializeDisconnect, ReplyEnds, Replied, SessionsTyped, IsFrame, Content, OnTheWire;
    hide CodeReadable, WalkSection, SubackCodes, ReasonCodeAllowed, ClosingPlan;
    MessageIsFrame(g.settings, m);
    if m.Goodbye? {
      GoodbyeIsRead(g.settings, m);
    } else {
      AcknowledgementIsRead(g.settings, m);
    }
  }

  /** For every message the client understands, the handlers' plan is its duty. */
  lemma PlanIsDuty(m: Message, g: Ground, ruling: Ruling)
    requires Understands(g.settings, m) && SessionsTyped(ruling.sessions)
    ensures IsFrame(OnTheWire(m)) && PlanOf(OnTheWire(m), g, ruling) == DutyOf(m, g, ruling)
  {
    hide PlanOf, DutyOf, Content, OnTheWire, IsFrame, SessionsTyped;
    assert IsFrame(OnTheWire(m)) by { MessageIsFrame(g.settings, m); }
    match m {
      case Publication(_) => PublicationPlan(m, g, ruling);
      case Handshake(_, _, _) => HandshakePlan(m, g, ruling);
      case _ => OtherPlan(m, g, ruling);
    }
  }

  // ---- what goes out, and what is kept -----------------------------------------------------------

  /**
   * An answer that is asked for again if it is lost, a PUBREC or a PUBREL, is kept before it goes out, 2^16 past its
   * identifier, and not sent when the store refuses it; the others are never kept. The handler's answer follows.
   */
  lemma AnswerIsKept(kind: byte, packetId: u16, packet: seq<byte>, ruling: Ruling, stateful: bool, whole: bool)
    requires kind in {0x40, 0x50, 0x62, 0x70}
    ensures var fate, kept := Answers(kind, packetId, packet), kind in {0x50, 0x62};
            && Copies(fate, ruling) == (if kept && ruling.stores then [Copy(0x1_0000 + packetId, packet)] else [])
            && Spoken(fate, ruling) == (if kept && !ruling.stores then [] else packet)
            && Outcome(fate, ruling, stateful, whole)
               == (if kept && !ruling.stores then Err(ClientError.PublishStoreFailed)
                   else if !whole then Err(ClientError.SendFailed)
                   else if stateful && !ruling.records then Err(ClientError.StateError)
                   else Ok(()))
  {
  }

  /** Nothing else is kept; what ends without a word says nothing, and a closed connection is never a success. */
  lemma OthersAreNot(fate: Fate, ruling: Ruling, stateful: bool, whole: bool)
    requires !fate.Answers?
    ensures Copies(fate, ruling) == []
    ensures fate.Ends? ==> Spoken(fate, ruling) == [] && Outcome(fate, ruling, stateful, whole) == fate.r
    ensures fate.Closes? ==>
              && Spoken(fate, ruling) == fate.message
              && Outcome(fate, ruling, stateful, whole)
                 == Err(if whole then ClientError.NotConnected else ClientError.SendFailed)
  {
  }

  /** What a PUBREC or a PUBREL was kept under is what the PUBREL or the PUBCOMP that answers it forgets. */
  lemma KeptUntilAnswered(kind: byte, packetId: u16, packet: seq<byte>, ruling: Ruling, tail: Tail)
    requires kind in {0x50, 0x62} && ruling.stores
    ensures var next := if kind == 0x50 then 0x62 else 0x70;
            && AnswerTo(next) == (if kind == 0x50 then Some(0x70) else None)
            && Forgotten(Handshake(next, packetId, tail)) == [Copies(Answers(kind, packetId, packet), ruling)[0].key]
  {
  }

  // ---- what is no message -----------------------------------------------------------------------

  /**
   * What becomes of any other packet, which nobody hears of: it is refused, and a DISCONNECT that does not read is
   * answered with one of reason 0x81, where there is a connection left and a server that takes four bytes.
   */
  function Rejected(first: byte, g: Ground): Fate {
    if first == 0xE0 then
      if g.settings.serverMax < 4 then Ends(Err(ClientError.BadParameter))
      else if g.status == ConnectionStatus.NotConnected then Ends(Err(ClientError.NotConnected))
      else Closes([0xE0, 0x02, 0x81, 0x00])
    else if g.settings.clientMax == 0 && first in {0x40, 0x50, 0x62, 0x70, 0x90, 0xB0, 0xD0}
    then Ends(Err(ClientError.BadParameter))
    else Ends(Err(ClientError.BadResponse))
  }

  /** What the deserializers read is a message the client understands, and the frame is its wire form. */
  lemma ReadIsPublication(frame: seq<byte>, s: Settings) returns (m: Message)
    requires IsFrame(frame) && DeserializePublish(ViewOf(frame), s.clientMax, s.topicAliasMax).Ok?
    ensures Understands(s, m) && OnTheWire(m) == frame
  {
    hide EncodeVar, DeserializePublish, FlagsOf, BodyOf, Acceptable, IsFrame, ViewOf, SizeVar;
    var view := ViewOf(frame);
    ViewIsWhole(frame);
    var info := DeserializePublish(view, s.clientMax, s.topicAliasMax).value;
    PublishExact(view, s.clientMax, s.topicAliasMax, info);
    assert view.remainingData[..view.remainingLength] == view.remainingData;
    AcceptableTopic(info, s.topicAliasMax);
    SizeVarIsLength(|view.remainingData|);
    m := Publication(info);
  }

  lemma AcceptableTopic(info: PublishInfo, topicAliasMax: u16)
    requires Acceptable(info, topicAliasMax)
    ensures |info.topicName| <= 0xFFFF
  {
    hide WalkSection;
  }

  lemma ReadIsAcknowledgement(frame: seq<byte>, s: Settings) returns (m: Message)
    requires IsFrame(frame) && DeserializeAck(ViewOf(frame), s.clientMax, s.problemInfo).Ok?
    ensures Understands(s, m) && OnTheWire(m) == frame
  {
    hide EncodeVar, DeserializeAck, IsFrame, ViewOf, SizeVar, CodeReadable, SubackCodes, WalkSection, Section, Be16;
    var view := ViewOf(frame);
    ViewIsWhole(frame);
    var info := DeserializeAck(view, s.clientMax, s.problemInfo).value;
    AckExact(view, s.clientMax, s.problemInfo, info);
    var body := view.remainingData;
    assert body[..view.remainingLength] == body;
    FrameIsLegal(frame);
    SizeVarIsLength(|body|);
    if view.kind == 0xD0 {
      m := Pong;
    } else if view.kind in {0x90, 0xB0} {
      m := Listed(view.kind, info.packetId.value, info.properties, info.reasonCodes);
    } else {
      var front := Be16(info.packetId.value) + info.reasonCodes;
      var tail := if info.reasonCodes == [] then Bare
                  else if body == front then Coded(info.reasonCodes[0])
                  else Full(info.reasonCodes[0], info.properties);
      m := Handshake(view.kind, info.packetId.value, tail);
      assert CodesOf(tail) == info.reasonCodes;
      assert tail.Full? ==> body == Be16(info.packetId.value) + (CodesOf(tail) + Section(info.properties));
      assert Content(m) == body;
    }
  }

  lemma ReadIsGoodbye(frame: seq<byte>, s: Settings) returns (m: Message)
    requires IsFrame(frame) && ViewOf(frame).kind == 0xE0 && DeserializeDisconnect(ViewOf(frame), s.clientMax).Ok?
    ensures Understands(s, m) && OnTheWire(m) == frame
  {
    hide EncodeVar, DeserializeDisconnect, IsFrame, ViewOf, SizeVar, ReasonCodeAllowed, WalkSection, Section;
    var view := ViewOf(frame);
    ViewIsWhole(frame);
    var incoming := DeserializeDisconnect(view, s.clientMax).value;
    DisconnectExact(view, s.clientMax, incoming);
    var body := view.remainingData;
    assert body[..view.remainingLength] == body;
    FrameIsLegal(frame);
    SizeVarIsLength(|body|);
    var tail := if incoming.reasonCode.None? then Bare
                else if |body| == 1 then Coded(incoming.reasonCode.value)
                else Full(incoming.reasonCode.value, incoming.properties);
    m := Goodbye(tail);
  }

  lemma ClosingMessage(g: Ground)
    ensures ClosingPlan(g) == Plan([], [], g.section, Rejected(0xE0, g))
  {
    hide WalkFrom;
    assert EncodeVar(2) == [2] && Section([]) == [0];
    CodeOfClosing();
    if g.settings.serverMax >= 4 {
      assert DisconnectPacket(Some(MALFORMED_PACKET), 2, []) == [0xE0, 0x02, 0x81, 0x00];
    }
  }

  lemma CodeOfClosing()
    ensures ReasonCodeAllowed(MALFORMED_PACKET, false) && MALFORMED_PACKET == 0x81
  {
  }

  /** A frame that is the wire form of no message the client understands is rejected, and changes nothing. */
  lemma NoMessageIsRejected(frame: seq<byte>, g: Ground, ruling: Ruling)
    requires IsFrame(frame) && SessionsTyped(ruling.sessions)
    requires forall m :: Understands(g.settings, m) ==> OnTheWire(m) != frame
    ensures frame != [] && PlanOf(frame, g, ruling) == Plan([], [], g.section, Rejected(frame[0], g))
  {
    hide DeserializePublish, DeserializeAck, DeserializeDisconnect, AnswerPlan, IsFrame, ViewOf, Understands;
    hide OnTheWire, ClosingPlan;
    var view, s := ViewOf(frame), g.settings;
    ViewIsWhole(frame);
    if view.kind / 16 == 3 {
      if DeserializePublish(view, s.clientMax, s.topicAliasMax).Ok? {
        var m := ReadIsPublication(frame, s);
      }
      BrokerIsBlamed(view, s.clientMax, s.topicAliasMax);
      FrameIsLegal(frame);
    } else if view.kind == 0xE0 {
      if DeserializeDisconnect(view, s.clientMax).Ok? {
        var m := ReadIsGoodbye(frame, s);
      }
      ClosingMessage(g);
    } else {
      if DeserializeAck(view, s.clientMax, s.problemInfo).Ok? {
        var m := ReadIsAcknowledgement(frame, s);
      }
      AckExact(view, s.clientMax, s.problemInfo, AckInfo(None, [], []));
    }
  }

  lemma FrameIsLegal(frame: seq<byte>)
    requires IsFrame(frame)
    ensures ViewOf(frame).remainingLength <= MAX_REMAINING_LENGTH
  {
    hide DecodeHeader;
    AcceptedHeader(frame);
  }

  /** What the standard calls a PINGRESP settles the debt of a client that manages its keep alive, without a word. */
  lemma PongSettles(g: Ground, ruling: Ruling)
    requires g.settings.manage && g.settings.clientMax >= 2 && SessionsTyped(ruling.sessions)
    ensures IsFrame([0xD0, 0]) && PlanOf([0xD0, 0], g, ruling) == Plan([], [], g.section, Ends(Ok(())))
    ensures Settles([0xD0, 0], true, Ok(()))
  {
    hide PlanOf, IsFrame, ViewOf;
    assert EncodeVar(0) == [0];
    assert OnTheWire(Pong) == [0xD0, 0];
    PlanIsDuty(Pong, g, ruling);
    MessageIsFrame(g.settings, Pong);
  }
}
