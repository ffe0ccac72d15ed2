/**
 * What a run of steps adds up to: what the application heard, what a broker reads, and what a run of calls comes to.
 */
module Runs {
  import opened Bytes
  import opened Header
  import opened Grammar
  import opened Walks
  import opened Packet
  import opened Wire
  import opened Connect
  import opened Ack
  import opened Disconnect
  import opened Framing
  import opened Received
  import opened Client
  import opened Replies
  import opened Account
  import opened Duty

  // ---- what the application hears --------------------------------------------------------

  /**
   * Events depend on the packets, the settings and the rulings alone: not on the connection or on the reply section.
   */
  function Events(frames: seq<seq<byte>>, settings: Settings, rulings: nat -> Ruling, number: nat): seq<Event>
    requires AllFrames(frames) && forall k: nat :: SessionsTyped(rulings(k).sessions)
    decreases |frames|
  {
    if frames == [] then []
    else PlanOf(frames[0], Ground(settings, ConnectionStatus.NotConnected, []), rulings(number)).heard
         + Events(frames[1..], settings, rulings, number + 1)
  }

  lemma HeardNeedsNoGround(frame: seq<byte>, g: Ground, ruling: Ruling)
    requires IsFrame(frame) && SessionsTyped(ruling.sessions)
    ensures PlanOf(frame, g, ruling).heard
         == PlanOf(frame, Ground(g.settings, ConnectionStatus.NotConnected, []), ruling).heard
  {
    hide IsFrame, ViewOf, DeserializePublish, DeserializeAck, DeserializeDisconnect, RefusalToClose, ClosingPacket;
    hide ReplyRefusal, Replied, AckTypeToSend, AckPacket;
  }

  /** What was heard is the events of the packets that were handled, in their order. */
  lemma {:induction false} HeardAreEvents(rulings: nat -> Ruling, settings: Settings, now: Now, steps: seq<Step>)
    requires AllHold(steps) && Follow(rulings, settings, now, steps)
    requires forall k: nat :: SessionsTyped(rulings(k).sessions)
    ensures AllFrames(Total(steps).frames)
    ensures Total(steps).heard == Events(Total(steps).frames, settings, rulings, now.number)
    ensures NowOver(now, steps).number == now.number + |Total(steps).frames|
    decreases |steps|
  {
    hide PlanOf, SessionsTyped, IsFrame, MayPing, MayLeave, AfterFailure, Spoken, Outcome;
    if steps != [] {
      var rest := steps[1..];
      HeardAreEvents(rulings, settings, Then(now, steps[0]), rest);
      if steps[0].Handled? {
        HeardNeedsNoGround(steps[0].frame, steps[0].ground, steps[0].ruling);
        assert Total(steps).frames == [steps[0].frame] + Total(rest).frames;
        assert Total(steps).frames[1..] == Total(rest).frames;
      } else {
        assert Total(steps).frames == Total(rest).frames && Total(steps).heard == Total(rest).heard;
      }
    }
  }

  /**
   * Two clients with the same settings and the same application, whatever their connections, their keep alives and
   * the cutting of their streams, that handled the same packets have told the same events.
   */
  lemma SamePacketsSameEvents(rulings: nat -> Ruling, settings: Settings, a: Books, b: Books, c: Books, d: Books,
                              first: seq<Step>, second: seq<Step>)
    requires Grew(rulings, settings, a, b, first) && Grew(rulings, settings, c, d, second)
    requires forall k: nat :: SessionsTyped(rulings(k).sessions)
    requires a.now.number == c.now.number && a.heard == c.heard && Total(first).frames == Total(second).frames
    ensures b.heard == d.heard && b.now.number == d.now.number
  {
    hide Holds, Follow, Total, PlanOf, SessionsTyped;
    HeardAreEvents(rulings, settings, a.now, first);
    HeardAreEvents(rulings, settings, c.now, second);
  }

  /** The event of a PUBLISH is that PUBLISH: its one wire form is the packet that was handled. */
  lemma HeardIsTheFrame(frame: seq<byte>, g: Ground, ruling: Ruling)
    requires IsFrame(frame) && SessionsTyped(ruling.sessions) && frame != [] && frame[0] / 16 == 3
    requires PlanOf(frame, g, ruling).heard != []
    ensures var heard := PlanOf(frame, g, ruling).heard;
            && |heard| == 1 && heard[0].publish.Some?
            && var p := heard[0].publish.value;
               && Acceptable(p, g.settings.topicAliasMax) && heard[0] == PublishEvent(frame[0], p)
               && frame == [FlagsOf(p)] + EncodeVar(|BodyOf(p)|) + BodyOf(p)
  {
    hide DeserializePublish, EncodeVar, FlagsOf, BodyOf, Acceptable, IsFrame, ViewOf, ReplyRefusal, Replied, AckPacket;
    var view := ViewOf(frame);
    ViewIsWhole(frame);
    var p := DeserializePublish(view, g.settings.clientMax, g.settings.topicAliasMax).value;
    PublishExact(view, g.settings.clientMax, g.settings.topicAliasMax, p);
    assert view.remainingData[..view.remainingLength] == view.remainingData;
    AcceptableTopic(p, g.settings.topicAliasMax);
  }

  // ---- what the broker is owed -----------------------------------------------------------

  /** The packet identifier of a packet the client could read. */
  function IdOf(view: PacketInfo, settings: Settings): u16 {
    if view.kind / 16 == PUBLISH / 16 then
      match DeserializePublish(view, settings.clientMax, settings.topicAliasMax)
      case Ok(p) => PacketIdOf(p.packetId)
      case Err(_) => 0
    else
      match DeserializeAck(view, settings.clientMax, settings.problemInfo)
      case Ok(info) => PacketIdOf(info.packetId)
      case Err(_) => 0
  }

  /** Which acknowledgement a packet is owed by a client that keeps records: its first byte alone says. */
  function Owed(first: byte, settings: Settings): Option<byte> {
    if settings.stateful then AnswerTo(first) else None
  }

  /** A packet whose handler succeeded was answered if and only if it was owed an answer, and then with that one. */
  lemma AcceptedIsAnswered(step: Step)
    requires step.Handled? && Holds(step) && StepOutcome(step).Ok?
    ensures var view, fate := ViewOf(step.frame), StepPlan(step).fate;
            var owed := Owed(view.kind, step.ground.settings);
            && (fate.Answers? <==> owed.Some?)
            && (owed.Some? ==> && fate.kind == owed.value && step.out == fate.packet
                               && step.out != [] && step.out[0] == owed.value
                               && fate.packetId == IdOf(view, step.ground.settings))
  {
    hide IsFrame, ViewOf, DeserializePublish, DeserializeAck, DeserializeDisconnect, RefusalToClose, ClosingPacket;
    hide ReplyRefusal, Replied, AckPacket, Spoken;
    WholeIsSpoken(step);
    AnswerBegins(step.frame, step.ground, step.ruling);
    if ViewOf(step.frame).kind / 16 == 3 {
      LevelAsRead(ViewOf(step.frame), step.ground.settings);
    }
  }

  /** The level that was read is the one in the first byte. */
  lemma LevelAsRead(view: PacketInfo, settings: Settings)
    ensures match DeserializePublish(view, settings.clientMax, settings.topicAliasMax)
            case Err(_) => true
            case Ok(p) => view.kind == FlagsOf(p) && AnswerTo(view.kind) == match p.qos
                                                                           case AtMostOnce => None
                                                                           case AtLeastOnce => Some(0x40)
                                                                           case ExactlyOnce => Some(0x50)
  {
    hide DeserializePublish, FlagsOf, AnswerTo, Acceptable, BodyOf;
    match DeserializePublish(view, settings.clientMax, settings.topicAliasMax) {
      case Err(_) =>
      case Ok(p) =>
        PublishExact(view, settings.clientMax, settings.topicAliasMax, p);
        LevelOf(p);
    }
  }

  /** An answer begins with its type. */
  lemma AnswerBegins(frame: seq<byte>, g: Ground, ruling: Ruling)
    requires IsFrame(frame) && SessionsTyped(ruling.sessions)
    ensures var fate := PlanOf(frame, g, ruling).fate;
            fate.Answers? ==> fate.packet != [] && fate.packet[0] == fate.kind
  {
    hide IsFrame, PlanOf, SessionsTyped, EncodeVar, AckBody, ReplyRefusal;
    if PlanOf(frame, g, ruling).fate.Answers? {
      var _ := AnswerOf(frame, g, ruling);
    }
  }

  /** An acknowledgement that got out whole is its packet, since one the store refused is not a success. */
  lemma WholeIsSpoken(step: Step)
    requires step.Handled? && Holds(step) && StepOutcome(step).Ok?
    ensures step.out == Spoken(StepPlan(step).fate, step.ruling)
    ensures StepPlan(step).fate.Answers? ==> step.out == StepPlan(step).fate.packet
    ensures StepPlan(step).fate.Answers? && IsStored(StepPlan(step).fate.kind) ==> step.ruling.stores
  {
    hide PlanOf;
  }

  /**
   * A PUBLISH the records already hold is a broker's second try: once its handler has succeeded it is acknowledged as
   * its level wants, and the application has heard of it again at level one and not at level two.
   */
  lemma DuplicateIsAnswered(step: Step)
    requires step.Handled? && Holds(step) && StepOutcome(step).Ok? && ViewOf(step.frame).kind / 16 == PUBLISH / 16
    requires step.ground.settings.stateful && step.ruling.recorded.Collides?
    ensures var settings := step.ground.settings;
            var read := DeserializePublish(ViewOf(step.frame), settings.clientMax, settings.topicAliasMax);
            && read.Ok?
            && (read.value.qos != AtMostOnce ==>
                  && StepPlan(step).fate.Answers? && StepPlan(step).fate.packetId == PacketIdOf(read.value.packetId)
                  && StepPlan(step).fate.kind == (if read.value.qos == AtLeastOnce then PUBACK else PUBREC))
            && |StepPlan(step).heard| == (if read.value.qos == ExactlyOnce then 0 else 1)
  {
    hide IsFrame, ViewOf, DeserializePublish, ReplyRefusal, Replied, AckPacket, Spoken;
    AcceptedIsAnswered(step);
  }

  predicate WholeSection(section: seq<byte>, capacity: nat) {
    |section| <= capacity && ParseSection(section).Some?
  }

  /** The section a plan leaves is the one it found, grown by what the application added. */
  lemma PlanSection(frame: seq<byte>, g: Ground, ruling: Ruling)
    requires IsFrame(frame) && SessionsTyped(ruling.sessions)
    ensures var plan := PlanOf(frame, g, ruling);
            plan.section in {g.section, Replied(g.settings.capacity, g.section, []),
                             Replied(g.settings.capacity, g.section, ruling.sessions)}
  {
    hide IsFrame, ViewOf, DeserializePublish, DeserializeAck, DeserializeDisconnect, RefusalToClose, ClosingPacket;
    hide ReplyRefusal, Replied, AckTypeToSend, AckPacket;
  }

  lemma PlanStaysWhole(frame: seq<byte>, g: Ground, ruling: Ruling)
    requires IsFrame(frame) && SessionsTyped(ruling.sessions) && WholeSection(g.section, g.settings.capacity)
    ensures WholeSection(PlanOf(frame, g, ruling).section, g.settings.capacity)
    ensures WholeSection(SectionAfter(PlanOf(frame, g, ruling)), g.settings.capacity)
  {
    hide IsFrame, PlanOf, Replied, SessionsTyped;
    PlanSection(frame, g, ruling);
    assert SessionsTyped([]) by { TypedNothing(); }
    RepliedStaysWhole(g.settings.capacity, g.section, []);
    RepliedStaysWhole(g.settings.capacity, g.section, ruling.sessions);
    assert ParseSection([]).Some?;
  }

  /** Every packet of a run met a whole section. */
  lemma {:induction false} GroundsAreWhole(rulings: nat -> Ruling, settings: Settings, now: Now, steps: seq<Step>,
                                           i: nat)
    requires AllHold(steps) && Follow(rulings, settings, now, steps)
    requires WholeSection(now.section, settings.capacity) && i < |steps| && steps[i].Handled?
    ensures steps[i].ground.settings == settings && WholeSection(steps[i].ground.section, settings.capacity)
    decreases |steps|
  {
    hide PlanOf, IsFrame, ParseSection, SessionsTyped, Spoken;
    if i > 0 {
      if steps[0].Handled? {
        PlanStaysWhole(steps[0].frame, steps[0].ground, steps[0].ruling);
      }
      GroundsAreWhole(rulings, settings, Then(now, steps[0]), steps[1..], i - 1);
    }
  }

  /** What stands at the front of `s` is read as an acknowledgement of that type and of that packet. */
  predicate ReadsAs(s: seq<byte>, kind: byte, packetId: u16, maxPacketSize: u32) {
    match DecodeHeader(s)
    case Header(k, remaining, width) =>
      && k == kind && width <= |s|
      && var read := DeserializeAck(PacketInfo(k, remaining, s[width..]), maxPacketSize, true);
         read.Ok? && read.value.packetId == Some(packetId)
    case _ => false
  }

  /** What an answering plan says is one packet a broker can read: the right type, with the right identifier. */
  lemma AnswerReads(frame: seq<byte>, g: Ground, ruling: Ruling, rest: seq<byte>)
    requires IsFrame(frame) && SessionsTyped(ruling.sessions) && WholeSection(g.section, g.settings.capacity)
    requires PlanOf(frame, g, ruling).fate.Answers?
    ensures var fate := PlanOf(frame, g, ruling).fate;
            && IsPublishAck(fate.kind) && fate.packetId != 0 && |fate.packet| <= g.settings.serverMax
            && ReadsAs(fate.packet + rest, fate.kind, fate.packetId, g.settings.serverMax)
  {
    hide IsFrame, ViewOf, DeserializePublish, DeserializeAck, DeserializeDisconnect, RefusalToClose, ClosingPacket;
    hide ReplyRefusal, Replied, AckPacket, DecodeHeader, ParseSection, SessionsTyped;
    PlanStaysWhole(frame, g, ruling);
    var plan := PlanOf(frame, g, ruling);
    var code := AnswerOf(frame, g, ruling);
    ReplyIsReadable(plan.fate.kind, plan.fate.packetId, code, plan.section, g.settings.serverMax, RefusalOf(g.status),
                    rest);
    AcceptedHeader(plan.fate.packet + rest);
  }

  /** An answer is an acknowledgement nothing refused, of a packet whose identifier is not zero. */
  lemma AnswerOf(frame: seq<byte>, g: Ground, ruling: Ruling) returns (code: Option<byte>)
    requires IsFrame(frame) && SessionsTyped(ruling.sessions) && PlanOf(frame, g, ruling).fate.Answers?
    ensures var plan := PlanOf(frame, g, ruling);
            && plan.fate.packet == AckPacket(plan.fate.kind, plan.fate.packetId, code, plan.section)
            && ReplyRefusal(Some(plan.fate.kind), plan.fate.packetId, code, plan.section, g.settings.serverMax,
                            RefusalOf(g.status)).None?
            && IsPublishAck(plan.fate.kind) && plan.fate.packetId != 0
  {
    hide IsFrame, ViewOf, DeserializePublish, DeserializeAck, DeserializeDisconnect, RefusalToClose, ClosingPacket;
    hide ReplyRefusal, Replied, AckPacket;
    var view := ViewOf(frame);
    code := ruling.code;
    if view.kind / 16 == PUBLISH / 16 {
      var p := DeserializePublish(view, g.settings.clientMax, g.settings.topicAliasMax).value;
      PublishExact(view, g.settings.clientMax, g.settings.topicAliasMax, p);
      AcceptableIdentifier(p, g.settings.topicAliasMax);
      code := if !(g.settings.stateful && ruling.recorded.Collides?) || p.qos == AtLeastOnce then ruling.code else None;
    } else {
      AckIdentifier(view, g.settings.clientMax, g.settings.problemInfo);
    }
  }

  lemma AckIdentifier(view: PacketInfo, maxPacketSize: u32, problemInfo: bool)
    requires IsPublishAck(view.kind)
    ensures var read := DeserializeAck(view, maxPacketSize, problemInfo);
            read.Ok? ==> read.value.packetId.Some? && read.value.packetId.value != 0
  {
    hide PubAckProperties, Read16, CodeReadable, PacketSize;
  }

  /**
   * Over any run of steps: a packet whose handler succeeded and that was owed an acknowledgement has the whole of
   * it on the wire, in one piece and in its place among the others, and a copy is in the store if one is kept. A
   * broker finds it there, and reads it as that acknowledgement of that packet, as long as no packet before it was
   * left unfinished.
   */
  lemma AcknowledgedOnTheWire(rulings: nat -> Ruling, settings: Settings, a: Books, b: Books, steps: seq<Step>, i: nat)
    requires Grew(rulings, settings, a, b, steps) && WholeSection(a.now.section, settings.capacity)
    requires i < |steps| && steps[i].Handled? && StepOutcome(steps[i]).Ok?
    requires Owed(ViewOf(steps[i].frame).kind, settings).Some?
    ensures var view, packet := ViewOf(steps[i].frame), steps[i].out;
            var kind := Owed(view.kind, settings).value;
            && b.log == a.log + Total(steps[..i]).wire + packet + Total(steps[i + 1..]).wire
            && (IsStored(kind) ==> Copy(IncomingKey(IdOf(view, settings)), packet) in b.kept)
            && ReadsAs(packet, kind, IdOf(view, settings), settings.serverMax)
            && (Uncut(a.log) == [] && AllWhole(steps[..i]) ==> Cut(a.log) + Said(steps[..i]) + [packet] <= Cut(b.log))
  {
    hide Holds, PlanOf, ViewOf, Owed, IdOf, Follow, NowOver, Total, Outcome, ReadsAs, IsStored, AllHold, Plus;
    hide Cut, Uncut, Said, AllWhole;
    var step := steps[i];
    OneAmong(steps, i);
    GroundsAreWhole(rulings, settings, a.now, steps, i);
    HoldingIsTyped(step);
    AcceptedIsAnswered(step);
    WholeIsSpoken(step);
    AnswerReads(step.frame, step.ground, step.ruling, []);
    assert step.out + [] == step.out;
    ShareOfWire(a.log, a.kept, Total(steps[..i]), TallyOf(step), Total(steps[i + 1..]));
    if Uncut(a.log) == [] && AllWhole(steps[..i]) {
      PartFollows(rulings, settings, a.now, steps, i);
      SaidArePackets(rulings, settings, a.now, steps[..i]);
      MessageIsPacket(step);
      ReadsSomething(step.out, Owed(ViewOf(step.frame).kind, settings).value,
                     IdOf(ViewOf(step.frame), settings), settings.serverMax);
      CutSoFar(a.log, steps[..i], step.out, Total(steps[i + 1..]).wire);
    }
  }

  lemma HoldingIsTyped(step: Step)
    requires step.Handled? && Holds(step)
    ensures IsFrame(step.frame) && SessionsTyped(step.ruling.sessions)
  {
  }

  /** The share of one step in the total. */
  lemma OneAmong(steps: seq<Step>, i: nat)
    requires AllHold(steps) && i < |steps|
    ensures Holds(steps[i]) && AllHold(steps[..i]) && AllHold(steps[i + 1..])
    ensures Total(steps) == Plus(Total(steps[..i]), Plus(TallyOf(steps[i]), Total(steps[i + 1..])))
  {
    hide Holds, TallyOf, Plus, AllHold;
    PartsHold(steps, i);
    TotalAppend(steps[..i], steps[i..]);
    assert steps == steps[..i] + steps[i..] && steps[i..][1..] == steps[i + 1..];
  }

  lemma PartsHold(steps: seq<Step>, i: nat)
    requires AllHold(steps) && i < |steps|
    ensures Holds(steps[i]) && AllHold(steps[..i]) && AllHold(steps[i..]) && AllHold(steps[i + 1..])
  {
    hide Holds;
  }

  lemma ShareOfWire(log: seq<byte>, kept: seq<Copy>, x: Tally, y: Tally, z: Tally)
    ensures log + Plus(x, Plus(y, z)).wire == log + x.wire + y.wire + z.wire
    ensures forall c :: c in y.kept ==> c in kept + Plus(x, Plus(y, z)).kept
  {
  }

  /**
   * Once a section no acknowledgement may carry stands in the buffer, no packet of any run that follows is ever
   * answered, nothing is copied to the store, and the section still stands at the end.
   */
  lemma {:induction false} NothingIsAnswered(rulings: nat -> Ruling, settings: Settings, now: Now, steps: seq<Step>)
    requires AllHold(steps) && Follow(rulings, settings, now, steps)
    requires WholeSection(now.section, settings.capacity) && WalkSection(PublishAck, now.section).Refused?
    ensures forall i :: 0 <= i < |steps| && steps[i].Handled? ==> !StepPlan(steps[i]).fate.Answers?
    ensures Total(steps).kept == [] && WalkSection(PublishAck, NowOver(now, steps).section).Refused?
    decreases |steps|
  {
    hide PlanOf, IsFrame, ParseSection, SessionsTyped, Spoken, WalkFrom;
    if steps != [] {
      if steps[0].Handled? {
        RefusedPlan(steps[0].frame, steps[0].ground, steps[0].ruling);
        PlanStaysWhole(steps[0].frame, steps[0].ground, steps[0].ruling);
      }
      NothingIsAnswered(rulings, settings, Then(now, steps[0]), steps[1..]);
      forall i | 0 <= i < |steps| && steps[i].Handled? ensures !StepPlan(steps[i]).fate.Answers? {
        if i > 0 {
          assert steps[1..][i - 1] == steps[i];
        }
      }
    }
  }

  lemma RefusedPlan(frame: seq<byte>, g: Ground, ruling: Ruling)
    requires IsFrame(frame) && SessionsTyped(ruling.sessions)
    requires WholeSection(g.section, g.settings.capacity) && WalkSection(PublishAck, g.section).Refused?
    ensures !PlanOf(frame, g, ruling).fate.Answers?
    ensures WalkSection(PublishAck, SectionAfter(PlanOf(frame, g, ruling))).Refused?
  {
    hide IsFrame, PlanOf, ReplyRefusal, Replied, SessionsTyped, ParseSection, WalkFrom;
    var plan := PlanOf(frame, g, ruling);
    PlanSection(frame, g, ruling);
    assert SessionsTyped([]) by { TypedNothing(); }
    NoSessions(g.settings.capacity, g.section);
    RepliedStaysRefused(g.settings.capacity, g.section, ruling.sessions);
    if plan.fate.Answers? {
      var code := AnswerOf(frame, g, ruling);
      PlanStaysWhole(frame, g, ruling);
      NoSessions(g.settings.capacity, plan.section);
      NoReplyEverAgain(g.settings.capacity, plan.section, [], plan.fate.kind, plan.fate.packetId, code,
                       g.settings.serverMax, RefusalOf(g.status));
    }
  }

  lemma ReadsSomething(s: seq<byte>, kind: byte, packetId: u16, maxPacketSize: u32)
    requires ReadsAs(s, kind, packetId, maxPacketSize)
    ensures s != []
  {
    hide DeserializeAck;
  }

  // ---- the stream that goes out -------------------------------------------------------------

  function Out(step: Step): seq<byte> {
    if step.Unread? then [] else step.out
  }

  /** What a step had to say, if anything. */
  function Message(step: Step): seq<byte>
    requires Holds(step)
  {
    match step
    case Unread(_) => []
    case Pinged(_, _) => PINGREQ_PACKET
    case Handled(_, _, ruling, _, _) => Spoken(StepPlan(step).fate, ruling)
  }

  /** Nothing of it got out, or all of it: no send was given up part-way. */
  predicate Whole(step: Step)
    requires Holds(step)
  {
    Out(step) == [] || Out(step) == Message(step)
  }

  predicate AllWhole(steps: seq<Step>)
    requires AllHold(steps)
  {
    forall i :: 0 <= i < |steps| ==> Whole(steps[i])
  }

  /** What one step left on the wire: one piece or none. */
  function Piece(step: Step): seq<seq<byte>> {
    if Out(step) == [] then [] else [Out(step)]
  }

  /** What steps left on the wire, piece by piece. */
  function Said(steps: seq<Step>): seq<seq<byte>> {
    if steps == [] then [] else Piece(steps[0]) + Said(steps[1..])
  }

  lemma {:induction false} SaidIsWire(steps: seq<Step>)
    requires AllHold(steps)
    ensures Flatten(Said(steps)) == Total(steps).wire
    decreases |steps|
  {
    hide Holds, StepPlan;
    if steps != [] {
      SaidIsWire(steps[1..]);
      FlattenAppend(Piece(steps[0]), Said(steps[1..]));
      OneSlice(Out(steps[0]));
    }
  }

  /** A successful step left nothing unfinished; and a step that did has failed. */
  lemma UnfinishedHasFailed(step: Step)
    requires Holds(step)
    ensures Succeeds(step) ==> Whole(step)
    ensures !Whole(step) && step.Handled? ==> StepOutcome(step) == Err(ClientError.SendFailed)
    ensures !Whole(step) && step.Pinged? ==> step.out == [PINGREQ]
  {
    hide PlanOf, IsFrame, SessionsTyped;
  }

  /** What a step has to say is one packet. */
  lemma MessageIsPacket(step: Step)
    requires Holds(step)
    requires step.Handled? ==> WholeSection(step.ground.section, step.ground.settings.capacity)
    ensures Message(step) != [] ==> IsPacket(Message(step))
  {
    hide PlanOf, IsFrame, SessionsTyped, ParseSection, IsPacket, ClosingPacket, RefusalToClose, AckPacket;
    match step {
      case Unread(_) =>
      case Pinged(_, _) => PingIsPacket();
      case Handled(frame, g, ruling, _, _) =>
        var fate := StepPlan(step).fate;
        if fate.Answers? {
          AnswerIsPacket(frame, g, ruling);
        } else if fate.Closes? {
          ClosingIsPacket(frame, g, ruling);
        }
    }
  }

  lemma PingIsPacket()
    ensures IsPacket(PINGREQ_PACKET)
  {
    assert EncodeVar(0) == [0];
    WrittenIsPacket(PINGREQ, []);
    assert [PINGREQ] + [0] + [] == PINGREQ_PACKET;
  }

  lemma AnswerIsPacket(frame: seq<byte>, g: Ground, ruling: Ruling)
    requires IsFrame(frame) && SessionsTyped(ruling.sessions) && WholeSection(g.section, g.settings.capacity)
    requires PlanOf(frame, g, ruling).fate.Answers?
    ensures IsPacket(PlanOf(frame, g, ruling).fate.packet)
  {
    hide IsFrame, PlanOf, ReplyRefusal, ParseSection, SessionsTyped, EncodeVar, DecodeHeader, DeserializeAck, IsPacket;
    PlanStaysWhole(frame, g, ruling);
    var plan := PlanOf(frame, g, ruling);
    var code := AnswerOf(frame, g, ruling);
    ReplyIsReadable(plan.fate.kind, plan.fate.packetId, code, plan.section, g.settings.serverMax, RefusalOf(g.status),
                    []);
    WrittenIsPacket(plan.fate.kind, AckBody(plan.fate.packetId, code, plan.section));
  }

  lemma ClosingIsPacket(frame: seq<byte>, g: Ground, ruling: Ruling)
    requires IsFrame(frame) && SessionsTyped(ruling.sessions) && PlanOf(frame, g, ruling).fate.Closes?
    ensures IsPacket(PlanOf(frame, g, ruling).fate.message)
  {
    hide IsFrame, ViewOf, DeserializePublish, DeserializeAck, DeserializeDisconnect, DisconnectPacketSize;
    hide AnswerPlan, IsPacket, EncodeVar;
    OnlyDisconnectCloses(ViewOf(frame), g, ruling);
    SizeIsTrue(Some(MALFORMED_PACKET), [], g.settings.serverMax);
    var n := DisconnectPacketSize(Some(MALFORMED_PACKET), 0, g.settings.serverMax).value.remainingLength;
    WrittenIsPacket(DISCONNECT, [MALFORMED_PACKET] + Section([]));
    assert [DISCONNECT] + EncodeVar(n) + [MALFORMED_PACKET] + Section([])
        == [DISCONNECT] + EncodeVar(n) + ([MALFORMED_PACKET] + Section([]));
  }

  /** Each step of a run says packets only. */
  lemma MessagesArePackets(rulings: nat -> Ruling, settings: Settings, now: Now, steps: seq<Step>, i: nat)
    requires AllHold(steps) && Follow(rulings, settings, now, steps) && WholeSection(now.section, settings.capacity)
    requires i < |steps|
    ensures Message(steps[i]) != [] ==> IsPacket(Message(steps[i]))
  {
    hide Holds, Follow, IsPacket, ParseSection, Message;
    if steps[i].Handled? {
      GroundsAreWhole(rulings, settings, now, steps, i);
    }
    MessageIsPacket(steps[i]);
  }

  lemma PartFollows(rulings: nat -> Ruling, settings: Settings, now: Now, steps: seq<Step>, i: nat)
    requires AllHold(steps) && Follow(rulings, settings, now, steps) && i <= |steps|
    ensures AllHold(steps[..i]) && AllHold(steps[i..]) && Follow(rulings, settings, now, steps[..i])
    ensures Follow(rulings, settings, NowOver(now, steps[..i]), steps[i..])
  {
    hide Holds, Follow, NowOver;
    FollowAppend(rulings, settings, now, steps[..i], steps[i..]);
    assert steps == steps[..i] + steps[i..];
  }

  /** The pieces of a run are packets if and only if no send was given up part-way. */
  lemma {:induction false} SaidArePackets(rulings: nat -> Ruling, settings: Settings, now: Now, steps: seq<Step>)
    requires AllHold(steps) && Follow(rulings, settings, now, steps) && WholeSection(now.section, settings.capacity)
    ensures AllPackets(Said(steps)) <==> AllWhole(steps)
    decreases |steps|
  {
    hide Holds, Fits, Then, IsPacket, ParseSection, Message, AllPackets, AllWhole, Piece, Whole;
    if steps == [] {
      NothingIsWhole();
    } else {
      var rest := steps[1..];
      MessagesArePackets(rulings, settings, now, steps, 0);
      SectionGoesOn(rulings, settings, now, steps[0]);
      SaidArePackets(rulings, settings, Then(now, steps[0]), rest);
      PieceIsPacket(steps[0]);
      PacketsOfBoth(Piece(steps[0]), Said(rest));
      WholeUncons(steps);
    }
  }

  lemma NothingIsWhole()
    ensures AllPackets([]) && AllHold([]) && AllWhole([])
  {
  }

  lemma PacketsOfBoth(a: seq<seq<byte>>, b: seq<seq<byte>>)
    ensures AllPackets(a + b) <==> AllPackets(a) && AllPackets(b)
  {
    hide IsPacket;
    assert forall i :: 0 <= i < |a| ==> (a + b)[i] == a[i];
    assert forall i :: 0 <= i < |b| ==> (a + b)[|a| + i] == b[i];
  }

  lemma WholeUncons(steps: seq<Step>)
    requires AllHold(steps) && steps != []
    ensures AllHold(steps[1..]) && (AllWhole(steps) <==> Whole(steps[0]) && AllWhole(steps[1..]))
  {
    hide Holds, Message, Out;
    assert forall i :: 1 <= i < |steps| ==> steps[i] == steps[1..][i - 1];
  }

  lemma SectionGoesOn(rulings: nat -> Ruling, settings: Settings, now: Now, step: Step)
    requires Holds(step) && Fits(rulings, settings, now, step) && WholeSection(now.section, settings.capacity)
    ensures WholeSection(Then(now, step).section, settings.capacity)
  {
    hide PlanOf, IsFrame, ParseSection, SessionsTyped, Spoken;
    if step.Handled? {
      PlanStaysWhole(step.frame, step.ground, step.ruling);
    }
  }

  lemma PieceIsPacket(step: Step)
    requires Holds(step) && (Message(step) != [] ==> IsPacket(Message(step)))
    ensures AllPackets(Piece(step)) <==> Whole(step)
  {
    hide PlanOf, IsFrame, SessionsTyped, IsPacket, Spoken;
    if Out(step) != [] {
      assert Piece(step)[0] == Out(step);
      if IsPacket(Out(step)) {
        PartIsNoPacket(Out(step), Message(step));
      }
    }
  }

  lemma CutSoFar(log: seq<byte>, steps: seq<Step>, packet: seq<byte>, more: seq<byte>)
    requires Uncut(log) == [] && AllHold(steps) && AllPackets(Said(steps)) && IsPacket(packet)
    ensures Cut(log) + Said(steps) + [packet] <= Cut(log + Total(steps).wire + packet + more)
  {
    hide Cut, Uncut, Total, Said, Holds, IsPacket, AllPackets;
    var wire, all := Total(steps).wire, log + Total(steps).wire + packet + more;
    SaidIsWire(steps);
    Associate(log + wire, packet, more);
    Associate(log, wire, packet + more);
    CutResumes(log, wire + (packet + more));
    assert [] + (wire + (packet + more)) == wire + (packet + more);
    CutPackets(Said(steps), packet + more);
    FirstPacket(packet, more);
    assert Cut(all) == Cut(log) + Said(steps) + [packet] + Cut(more);
  }

  /**
   * The stream that goes out is packets, if and only if no send was given up part-way: a broker that was at the end
   * of a packet cuts what a run adds into just the pieces the run said, and is at the end of a packet again.
   */
  lemma StreamIsPackets(rulings: nat -> Ruling, settings: Settings, a: Books, b: Books, steps: seq<Step>)
    requires Grew(rulings, settings, a, b, steps) && WholeSection(a.now.section, settings.capacity)
    requires Uncut(a.log) == []
    ensures Cut(b.log) == Cut(a.log) + Said(steps) <==> AllWhole(steps)
    ensures AllWhole(steps) ==> Uncut(b.log) == []
    ensures AllSucceed(steps) ==> AllWhole(steps)
  {
    hide Cut, Uncut, Total, Said, Holds, IsPacket, Follow, NowOver, AllWhole, AllSucceed;
    var wire := Total(steps).wire;
    SaidArePackets(rulings, settings, a.now, steps);
    SaidIsWire(steps);
    CutResumes(a.log, wire);
    assert [] + wire == wire && wire + [] == wire;
    PiecesArePackets(wire);
    SamePieces(Cut(a.log), Cut(wire), Said(steps));
    if AllWhole(steps) {
      NothingToCut();
      CutPackets(Said(steps), []);
      assert Said(steps) + [] == Said(steps);
    }
    if AllSucceed(steps) {
      SuccessIsWhole(steps);
    }
  }

  lemma SamePieces(a: seq<seq<byte>>, b: seq<seq<byte>>, c: seq<seq<byte>>)
    ensures a + b == a + c <==> b == c
  {
    assert (a + b)[|a|..] == b && (a + c)[|a|..] == c;
  }

  lemma SuccessIsWhole(steps: seq<Step>)
    requires AllHold(steps) && AllSucceed(steps)
    ensures AllWhole(steps)
  {
    hide Holds, Succeeds, Whole;
    forall i | 0 <= i < |steps| ensures Whole(steps[i]) {
      UnfinishedHasFailed(steps[i]);
    }
  }

  lemma NothingToCut()
    ensures Cut([]) == [] && Uncut([]) == []
  {
  }

  // ---- and a run that spoils it --------------------------------------------------------------

  /** A PUBLISH of level one: identifier 1, a topic of one letter, no properties and no payload. */
  const LEVEL_ONE: seq<byte> := [0x32, 6, 0, 1, 0x61, 0, 1, 0]

  const ITS_ANSWER: seq<byte> := [PUBACK, 2, 0, 1]

  /** A step taken, entered in the books. */
  function Enter(a: Books, step: Step): Books
    requires Holds(step)
  {
    var t := TallyOf(step);
    Books(a.trace + [step], a.log + t.wire, a.heard + t.heard, a.kept + t.kept, a.cleared + t.cleared,
          a.pings + t.pings, Then(a.now, step))
  }

  lemma Entering(rulings: nat -> Ruling, settings: Settings, a: Books, step: Step)
    requires Holds(step) && Fits(rulings, settings, a.now, step)
    ensures Grew(rulings, settings, a, Enter(a, step), [step])
  {
    hide Holds, Fits, TallyOf, Then, Grew;
    OneStepMore(rulings, settings, a, Enter(a, step).(trace := a.trace), step);
  }

  lemma LevelOneIsFrame()
    ensures IsFrame(LEVEL_ONE) && ViewOf(LEVEL_ONE) == PacketInfo(0x32, 6, [0, 1, 0x61, 0, 1, 0])
  {
    hide DecodeHeader;
    var body: seq<byte> := [0, 1, 0x61, 0, 1, 0];
    assert EncodeVar(6) == [6];
    assert LEVEL_ONE == [0x32] + EncodeVar(6) + body && LEVEL_ONE[2..] == body;
    WrittenHeader(0x32, 6, body);
  }

  lemma LevelOneReads(clientMax: u32, topicAliasMax: u16)
    requires clientMax >= 8
    ensures DeserializePublish(PacketInfo(0x32, 6, [0, 1, 0x61, 0, 1, 0]), clientMax, topicAliasMax)
         == Ok(PublishInfo(AtLeastOnce, false, false, Some(1), [0x61], [], []))
  {
    hide DeserializePublish, WalkFrom;
    var p := PublishInfo(AtLeastOnce, false, false, Some(1), [0x61], [], []);
    var body: seq<byte> := [0, 1, 0x61, 0, 1, 0];
    EmptyWalk(IncomingPublish(topicAliasMax), [], {});
    assert Section([]) == [0];
    assert BodyOf(p) == body && body[..6] == body;
    PublishExact(PacketInfo(0x32, 6, body), clientMax, topicAliasMax, p);
  }

  lemma ItsAnswer()
    ensures AckPacket(PUBACK, 1, None, []) == ITS_ANSWER
  {
    SmallPackets(PUBACK, 1, None);
  }

  /** On a connection that stands, with records that agree, it is answered with its PUBACK. */
  lemma LevelOneIsAnswered(g: Ground, ruling: Ruling)
    requires g.settings.stateful && g.settings.clientMax >= 8 && g.settings.serverMax >= 4
    requires g.status == Connected && g.section == [] && ruling == Ruling(Moves, [], None, true, true, true)
    ensures IsFrame(LEVEL_ONE) && SessionsTyped(ruling.sessions)
    ensures PlanOf(LEVEL_ONE, g, ruling).fate == Answers(PUBACK, 1, ITS_ANSWER)
    ensures Owed(LEVEL_ONE[0], g.settings) == Some(PUBACK)
  {
    hide DeserializePublish, DeserializeAck, DeserializeDisconnect, IsFrame, ViewOf, AckPacket, WalkFrom;
    LevelOneIsFrame();
    LevelOneReads(g.settings.clientMax, g.settings.topicAliasMax);
    ItsAnswer();
    NoSessions(g.settings.capacity, g.section);
  }

  /**
   * A PINGREQ of which one byte gets out before the deadline leaves the connection standing; the PUBACK that follows
   * it is whole, and a broker waits for the end of a packet of 66 bytes instead of reading it.
   */
  lemma UnfinishedHides(rulings: nat -> Ruling, settings: Settings, a: Books) returns (b: Books, steps: seq<Step>)
    requires settings.stateful && settings.clientMax >= 8 && settings.serverMax >= 4
    requires a.log == [] && a.now.section == [] && a.now.line == Line(Connected, false)
    requires rulings(a.now.number) == Ruling(Moves, [], None, true, true, true)
    ensures Grew(rulings, settings, a, b, steps) && |steps| == 2 && b.now.line.status == Connected
    ensures steps[0] == Pinged([PINGREQ], Connected) && steps[1].Handled? && steps[1].frame == LEVEL_ONE
    ensures StepOutcome(steps[1]).Ok? && steps[1].out == ITS_ANSWER
    ensures Owed(LEVEL_ONE[0], settings) == Some(PUBACK)
    ensures b.log == [0xC0, 0x40, 2, 0, 1] && Cut(b.log) == []
  {
    hide PlanOf, IsFrame, ViewOf, Owed, SessionsTyped;
    var g, ruling := Ground(settings, Connected, []), rulings(a.now.number);
    var ping, handled := Pinged([PINGREQ], Connected), Handled(LEVEL_ONE, g, ruling, ITS_ANSWER, Connected);
    LevelOneIsFrame();
    LevelOneIsAnswered(g, ruling);
    var midway := Enter(a, ping);
    Entering(rulings, settings, a, ping);
    b := Enter(midway, handled);
    Entering(rulings, settings, midway, handled);
    steps := [ping] + [handled];
    GrewMore(rulings, settings, a, midway, b, [ping], [handled]);
    assert DecodeVar([0x40, 2, 0, 1]) == Some(0x40) by {
      assert EncodeVar(0x40) == [0x40];
      DecodeVarExact([0x40, 2, 0, 1], 0x40);
    }
    assert b.log == [0xC0, 0x40, 2, 0, 1] && b.log[1..] == [0x40, 2, 0, 1];
  }

  // ---- a connection that is gone -------------------------------------------------------------

  /** What is said needs a connection: an acknowledgement one that stands, a closing DISCONNECT one that was there. */
  lemma SayingNeedsStatus(frame: seq<byte>, g: Ground, ruling: Ruling)
    requires IsFrame(frame) && SessionsTyped(ruling.sessions)
    ensures var fate := PlanOf(frame, g, ruling).fate;
            && (fate.Answers? ==> g.status == Connected)
            && (fate.Closes? ==> g.status != ConnectionStatus.NotConnected && ViewOf(frame).kind == DISCONNECT)
  {
    hide IsFrame, ViewOf, DeserializePublish, DeserializeAck, DeserializeDisconnect, DisconnectPacketSize;
    hide Replied, AckTypeToSend, AckPacket, WalkSection, AckPacketSize, ClosingPacket;
  }

  lemma QuietStep(rulings: nat -> Ruling, settings: Settings, now: Now, step: Step)
    requires Holds(step) && Fits(rulings, settings, now, step) && now.line.status != Connected
    ensures step.after != Connected && Then(now, step).line.status == step.after
    ensures now.line.status == ConnectionStatus.NotConnected ==>
            Out(step) == [] && step.after == ConnectionStatus.NotConnected
    ensures Out(step) != [] ==>
              step.Handled? && StepPlan(step).fate.Closes? && step.after == ConnectionStatus.NotConnected
  {
    hide PlanOf, IsFrame, ViewOf, SessionsTyped;
    if step.Handled? {
      SayingNeedsStatus(step.frame, step.ground, step.ruling);
    }
  }

  /**
   * Once the connection is not Connected no step sends anything, a closing DISCONNECT apart; and after that one, as
   * after any DISCONNECT that was handled, none sends anything at all.
   */
  lemma {:induction false} QuietRun(rulings: nat -> Ruling, settings: Settings, now: Now, steps: seq<Step>, j: nat)
    requires AllHold(steps) && Follow(rulings, settings, now, steps) && now.line.status != Connected && j < |steps|
    ensures steps[j].after != Connected
    ensures now.line.status == ConnectionStatus.NotConnected ==> Out(steps[j]) == []
    ensures Out(steps[j]) != [] ==>
              && steps[j].Handled? && StepPlan(steps[j]).fate.Closes?
              && forall k :: 0 <= k < j ==> Out(steps[k]) == []
    decreases |steps|
  {
    hide Holds, Fits, Then, StepPlan, Out;
    QuietStep(rulings, settings, now, steps[0]);
    if j > 0 {
      var next := Then(now, steps[0]);
      QuietRun(rulings, settings, next, steps[1..], j - 1);
      if Out(steps[j]) != [] {
        assert forall k :: 1 <= k < j ==> steps[k] == steps[1..][k - 1];
      }
    }
  }

  /** In any run, what follows a step that left the connection not Connected. */
  lemma SilenceAfter(rulings: nat -> Ruling, settings: Settings, a: Books, b: Books, steps: seq<Step>, i: nat, j: nat)
    requires Grew(rulings, settings, a, b, steps) && i < j < |steps| && steps[i].after != Connected
    ensures steps[i].after == ConnectionStatus.NotConnected ==> Out(steps[j]) == []
    ensures Out(steps[j]) != [] ==>
              && steps[j].Handled? && StepPlan(steps[j]).fate.Closes?
              && forall k :: i < k < j ==> Out(steps[k]) == []
    ensures b.now.line.status != Connected
  {
    hide Holds, Fits, Total, StepPlan, Follow, NowOver, Out;
    var rest := steps[i + 1..];
    PartFollows(rulings, settings, a.now, steps, i + 1);
    StatusIsTheLast(a.now, steps[..i + 1]);
    QuietRun(rulings, settings, NowOver(a.now, steps[..i + 1]), rest, j - i - 1);
    assert forall k :: i < k < j ==> steps[k] == rest[k - i - 1];
    QuietRun(rulings, settings, NowOver(a.now, steps[..i + 1]), rest, |rest| - 1);
    StatusIsTheLast(a.now, steps);
  }

  /** The status is the one the last step left. */
  lemma {:induction false} StatusIsTheLast(now: Now, steps: seq<Step>)
    requires AllHold(steps) && steps != []
    ensures NowOver(now, steps).line.status == steps[|steps| - 1].after
    decreases |steps|
  {
    hide Holds, StepPlan, Answered;
    if |steps| > 1 {
      StatusIsTheLast(Then(now, steps[0]), steps[1..]);
    } else {
      assert steps[1..] == [];
    }
  }

  // ---- one PINGREQ at a time --------------------------------------------------------------

  /** A packet by which the library itself settled an outstanding PINGREQ. */
  predicate Swallowed(step: Step)
    requires Holds(step)
  {
    step.Handled? && Answered(step) != []
  }

  lemma {:induction false} StaysOwed(rulings: nat -> Ruling, settings: Settings, now: Now, steps: seq<Step>)
    requires AllHold(steps) && Follow(rulings, settings, now, steps) && now.line.owed
    requires forall k :: 0 <= k < |steps| ==> !Swallowed(steps[k])
    ensures NowOver(now, steps).line.owed
    decreases |steps|
  {
    hide Holds, StepPlan, Answered, MayPing, MayLeave;
    if steps != [] {
      OneOwed(rulings, settings, now, steps[0]);
      assert forall k :: 0 <= k < |steps[1..]| ==> steps[1..][k] == steps[k + 1];
      StaysOwed(rulings, settings, Then(now, steps[0]), steps[1..]);
    }
  }

  lemma OneOwed(rulings: nat -> Ruling, settings: Settings, now: Now, step: Step)
    requires Holds(step) && Fits(rulings, settings, now, step)
    ensures now.line.owed && !Swallowed(step) ==> Then(now, step).line.owed
    ensures step.Pinged? ==> !now.line.owed
    ensures step.Pinged? && step.out == PINGREQ_PACKET ==> Then(now, step).line.owed
  {
    hide PlanOf, IsFrame, SessionsTyped, StepPlan, Answered;
  }

  /**
   * In every run, whatever its calls and wherever they checked the keep alive: between a PINGREQ that got out whole
   * and the next one that was begun, a PINGRESP stood at the front of the buffer, was handled, and was swallowed.
   */
  lemma BetweenTwoPings(rulings: nat -> Ruling, settings: Settings, a: Books, b: Books, steps: seq<Step>, i: nat,
                        j: nat)
    requires Grew(rulings, settings, a, b, steps) && i < j < |steps|
    requires steps[i].Pinged? && steps[i].out == PINGREQ_PACKET && steps[j].Pinged?
    ensures exists k :: i < k < j && Swallowed(steps[k])
  {
    hide Holds, Answered, Follow, NowOver, Total, Swallowed, Fits, Then;
    if !exists k :: i < k < j && Swallowed(steps[k]) {
      var now, between := NowOver(a.now, steps[..i]), steps[i + 1..j];
      PartFollows(rulings, settings, a.now, steps, i);
      FirstFits(rulings, settings, now, steps[i..]);
      OneOwed(rulings, settings, now, steps[i]);
      assert steps[i..][1..] == steps[i + 1..] && steps[i + 1..][..j - i - 1] == between;
      PartFollows(rulings, settings, Then(now, steps[i]), steps[i + 1..], j - i - 1);
      assert forall k :: 0 <= k < |between| ==> between[k] == steps[i + 1 + k];
      StaysOwed(rulings, settings, Then(now, steps[i]), between);
      var later := NowOver(Then(now, steps[i]), between);
      assert steps[i + 1..][j - i - 1..] == steps[j..];
      FirstFits(rulings, settings, later, steps[j..]);
      OneOwed(rulings, settings, later, steps[j]);
    }
  }

  lemma FirstFits(rulings: nat -> Ruling, settings: Settings, now: Now, steps: seq<Step>)
    requires AllHold(steps) && steps != [] && Follow(rulings, settings, now, steps)
    ensures Holds(steps[0]) && AllHold(steps[1..]) && Fits(rulings, settings, now, steps[0])
    ensures Follow(rulings, settings, Then(now, steps[0]), steps[1..])
  {
    hide Holds, Fits, Then;
  }

  // ---- a run of calls --------------------------------------------------------------------

  /** One call: what it read, what it did, the books after it, and what it left in the buffer. */
  datatype Pass = Pass(chunk: seq<byte>, steps: seq<Step>, after: Books, held: seq<byte>)

  /** The packets whose handlers succeeded. */
  function AcceptedIn(steps: seq<Step>): seq<seq<byte>>
    requires AllHold(steps)
  {
    if steps == [] then [] else Accepts(steps[0]) + AcceptedIn(steps[1..])
  }

  function Accepts(step: Step): seq<seq<byte>>
    requires Holds(step)
  {
    if step.Handled? && StepOutcome(step).Ok? then [step.frame] else []
  }

  /** Of a call in which every packet but perhaps the last was accepted: the last one, if it was refused. */
  function RefusedIn(steps: seq<Step>): Option<seq<byte>>
    requires AllHold(steps)
  {
    if steps == [] then None
    else
      var last := steps[|steps| - 1];
      if last.Handled? && StepOutcome(last).Err? then Some(last.frame) else None
  }

  /**
   * What a call that did not throw the buffer away makes of what it held and read: the packets it accepted were at
   * the front, one after the other, and are gone; one it refused ended the call, and stands at the front of the rest.
   */
  predicate OnePass(held: seq<byte>, p: Pass) {
    && AllHold(p.steps) && (p.steps != [] ==> HandledSucceed(p.steps[..|p.steps| - 1]))
    && held + p.chunk == Flatten(AcceptedIn(p.steps)) + p.held
    && (RefusedIn(p.steps).Some? ==> RefusedIn(p.steps).value <= p.held)
  }

  /** Calls one after the other, however they ended, as long as none threw the buffer away. */
  predicate Passes(rulings: nat -> Ruling, settings: Settings, before: Books, held: seq<byte>, passes: seq<Pass>)
    decreases |passes|
  {
    passes == []
    || (var p := passes[0];
        && OnePass(held, p) && Grew(rulings, settings, before, p.after, p.steps)
        && Passes(rulings, settings, p.after, p.held, passes[1..]))
  }

  function StreamOf(passes: seq<Pass>): seq<byte> {
    if passes == [] then [] else passes[0].chunk + StreamOf(passes[1..])
  }

  function StepsOf(passes: seq<Pass>): seq<Step> {
    if passes == [] then [] else passes[0].steps + StepsOf(passes[1..])
  }

  function BooksAfter(before: Books, passes: seq<Pass>): Books {
    if passes == [] then before else passes[|passes| - 1].after
  }

  function HeldAfter(held: seq<byte>, passes: seq<Pass>): seq<byte> {
    if passes == [] then held else passes[|passes| - 1].held
  }

  /**
   * The packets handed to handlers, with the immediate repeats of a refused one taken out; `standing` is the packet
   * refused last, if nothing was handled since.
   */
  function Firsts(steps: seq<Step>, standing: Option<seq<byte>>): seq<seq<byte>>
    requires AllHold(steps)
    decreases |steps|
  {
    if steps == [] then [] else First(steps[0], standing) + Firsts(steps[1..], Stands(steps[0], standing))
  }

  function First(step: Step, standing: Option<seq<byte>>): seq<seq<byte>> {
    if step.Handled? && standing != Some(step.frame) then [step.frame] else []
  }

  function Stands(step: Step, standing: Option<seq<byte>>): Option<seq<byte>>
    requires Holds(step)
  {
    if !step.Handled? then standing else if StepOutcome(step).Ok? then None else Some(step.frame)
  }

  function Standing(steps: seq<Step>, standing: Option<seq<byte>>): Option<seq<byte>>
    requires AllHold(steps)
    decreases |steps|
  {
    if steps == [] then standing else Standing(steps[1..], Stands(steps[0], standing))
  }

  function Front(standing: Option<seq<byte>>): seq<seq<byte>> {
    if standing.Some? then [standing.value] else []
  }

  lemma {:induction false} FirstsAppend(a: seq<Step>, b: seq<Step>, standing: Option<seq<byte>>)
    requires AllHold(a) && AllHold(b)
    ensures AllHold(a + b) && Firsts(a + b, standing) == Firsts(a, standing) + Firsts(b, Standing(a, standing))
    ensures Standing(a + b, standing) == Standing(b, Standing(a, standing))
    ensures AcceptedIn(a + b) == AcceptedIn(a) + AcceptedIn(b)
    decreases |a|
  {
    hide Holds, First, Stands, Accepts;
    if a == [] {
      assert a + b == b;
    } else {
      assert (a + b)[1..] == a[1..] + b && (a + b)[0] == a[0];
      var next := Stands(a[0], standing);
      FirstsAppend(a[1..], b, next);
      Joined(First(a[0], standing), Firsts(a[1..], next), Firsts(b, Standing(a[1..], next)));
      Joined(Accepts(a[0]), AcceptedIn(a[1..]), AcceptedIn(b));
    }
  }

  lemma Joined<T>(a: seq<T>, b: seq<T>, c: seq<T>)
    ensures a + (b + c) == a + b + c
  {
  }

  /** No two frames begin one stream. */
  lemma OneFront(a: seq<byte>, b: seq<byte>, s: seq<byte>)
    requires IsFrame(a) && IsFrame(b) && a <= s && b <= s
    ensures a == b
  {
    hide Ready;
    ReadyStable(a, s[|a|..]);
    ReadyStable(b, s[|b|..]);
    assert s == a + s[|a|..] && s == b + s[|b|..];
  }

  /** What one call accepted and what it left standing are what stood there and the packets it handled anew. */
  lemma {:induction false} PassAddsUp(steps: seq<Step>, standing: Option<seq<byte>>, arrived: seq<byte>,
                                      rest: seq<byte>)
    requires AllHold(steps) && (steps != [] ==> HandledSucceed(steps[..|steps| - 1]))
    requires arrived == Flatten(AcceptedIn(steps)) + rest
    requires RefusedIn(steps).Some? ==> RefusedIn(steps).value <= rest
    requires standing.Some? ==> IsFrame(standing.value) && standing.value <= arrived
    ensures Front(standing) + Firsts(steps, standing) == AcceptedIn(steps) + Front(Standing(steps, standing))
    ensures var left := Standing(steps, standing); left.Some? ==> IsFrame(left.value) && left.value <= rest
    ensures AllFrames(AcceptedIn(steps))
    decreases |steps|
  {
    hide Holds, StepOutcome, IsFrame, Flatten, First, Stands, Accepts, AllFrames;
    NoSlices();
    assert [] + rest == rest;
    if steps == [] {
      assert AllFrames([]) by { NoPackets(); }
    } else {
      var step, next := steps[0], steps[1..];
      var left, tail := Stands(step, standing), Flatten(AcceptedIn(next)) + rest;
      ShorterPass(steps);
      FlattenAppend(Accepts(step), AcceptedIn(next));
      Associate(Flatten(Accepts(step)), Flatten(AcceptedIn(next)), rest);
      StepAddsUp(step, standing, arrived, tail);
      PassAddsUp(next, left, tail, rest);
      PutTogether(Front(standing), First(step, standing), Firsts(next, left), Accepts(step), Front(left),
                  AcceptedIn(next), Front(Standing(next, left)));
      FramesOfBoth(Accepts(step), AcceptedIn(next));
    }
  }

  lemma NoPackets()
    ensures AllFrames([])
  {
  }

  lemma FramesOfBoth(a: seq<seq<byte>>, b: seq<seq<byte>>)
    requires AllFrames(a) && AllFrames(b)
    ensures AllFrames(a + b)
  {
    hide IsFrame;
    forall i | 0 <= i < |a + b| ensures IsFrame((a + b)[i]) {
      assert (a + b)[i] == if i < |a| then a[i] else b[i - |a|];
    }
  }

  /** The same of one step, `tail` being what stands behind it, if it was accepted. */
  lemma StepAddsUp(step: Step, standing: Option<seq<byte>>, arrived: seq<byte>, tail: seq<byte>)
    requires Holds(step) && arrived == Flatten(Accepts(step)) + tail
    requires step.Handled? && StepOutcome(step).Err? ==> step.frame <= tail
    requires standing.Some? ==> IsFrame(standing.value) && standing.value <= arrived
    ensures Front(standing) + First(step, standing) == Accepts(step) + Front(Stands(step, standing))
    ensures var left := Stands(step, standing); left.Some? ==> IsFrame(left.value) && left.value <= tail
    ensures AllFrames(Accepts(step))
  {
    hide Holds, StepOutcome, IsFrame;
    if step.Handled? {
      HoldingIsTyped(step);
      OneSlice(step.frame);
      if standing.Some? {
        OneFront(standing.value, step.frame, arrived);
      }
    }
  }

  /** The rest of a call is like the call; and a refusal is its last step. */
  lemma ShorterPass(steps: seq<Step>)
    requires AllHold(steps) && steps != [] && HandledSucceed(steps[..|steps| - 1])
    ensures AllHold(steps[1..]) && (steps[1..] != [] ==> HandledSucceed(steps[1..][..|steps| - 2]))
    ensures steps[1..] != [] ==> RefusedIn(steps[1..]) == RefusedIn(steps)
    ensures steps[0].Handled? && StepOutcome(steps[0]).Err? ==>
            steps[1..] == [] && RefusedIn(steps) == Some(steps[0].frame)
    ensures steps[1..] == [] ==> RefusedIn(steps[1..]).None?
  {
    hide Holds, StepOutcome;
    if |steps| > 1 {
      var init, tail := steps[..|steps| - 1], steps[1..][..|steps| - 2];
      assert init[0] == steps[0];
      assert forall i :: 0 <= i < |tail| ==> tail[i] == init[i + 1];
    }
  }

  /**
   * A run of calls, refusals and all: every byte read is in the accepted packets or still held, and the packets
   * handled, with the immediate repeats of a refused one taken out, are the accepted ones and then the one that
   * still stands refused, if one does.
   */
  lemma {:induction false} PassesFrom(rulings: nat -> Ruling, settings: Settings, before: Books, held: seq<byte>,
                                      passes: seq<Pass>, standing: Option<seq<byte>>)
    requires Passes(rulings, settings, before, held, passes)
    requires standing.Some? ==> IsFrame(standing.value) && standing.value <= held
    ensures var steps := StepsOf(passes);
            && Grew(rulings, settings, before, BooksAfter(before, passes), steps) && AllHold(steps)
            && held + StreamOf(passes) == Flatten(AcceptedIn(steps)) + HeldAfter(held, passes)
            && AllFrames(AcceptedIn(steps))
            && Front(standing) + Firsts(steps, standing) == AcceptedIn(steps) + Front(Standing(steps, standing))
            && var left := Standing(steps, standing);
               left.Some? ==> IsFrame(left.value) && left.value <= HeldAfter(held, passes)
    decreases |passes|
  {
    hide Grew, Holds, AllHold, HandledSucceed, StepOutcome, IsFrame, Flatten, AcceptedIn, Firsts, Standing, RefusedIn;
    hide AllFrames, Passes, StreamOf, StepsOf, BooksAfter, HeldAfter, Front;
    if passes == [] {
      NoPasses(rulings, settings, before, held, standing);
    } else {
      var p, rest := passes[0], passes[1..];
      PassesUncons(rulings, settings, before, held, passes);
      PassAddsUp(p.steps, standing, held + p.chunk, p.held);
      var left := Standing(p.steps, standing);
      PassesFrom(rulings, settings, p.after, p.held, rest, left);
      GrewMore(rulings, settings, before, p.after, BooksAfter(p.after, rest), p.steps, StepsOf(rest));
      FirstsAppend(p.steps, StepsOf(rest), standing);
      JoinPasses(held, p, AcceptedIn(p.steps), AcceptedIn(StepsOf(rest)), StreamOf(rest), HeldAfter(p.held, rest));
      PutTogether(Front(standing), Firsts(p.steps, standing), Firsts(StepsOf(rest), left), AcceptedIn(p.steps),
                  Front(left), AcceptedIn(StepsOf(rest)), Front(Standing(StepsOf(rest), left)));
    }
  }

  lemma NoPasses(rulings: nat -> Ruling, settings: Settings, before: Books, held: seq<byte>,
                 standing: Option<seq<byte>>)
    ensures StepsOf([]) == [] && BooksAfter(before, []) == before && HeldAfter(held, []) == held
    ensures Grew(rulings, settings, before, before, []) && AllHold([]) && AcceptedIn([]) == []
    ensures Firsts([], standing) == [] && Standing([], standing) == standing && AllFrames([])
    ensures held + StreamOf([]) == Flatten([]) + held && Front(standing) + [] == [] + Front(standing)
  {
    GrewNothing(rulings, settings, before);
  }

  lemma PassesUncons(rulings: nat -> Ruling, settings: Settings, before: Books, held: seq<byte>, passes: seq<Pass>)
    requires Passes(rulings, settings, before, held, passes) && passes != []
    ensures var p, rest := passes[0], passes[1..];
            && OnePass(held, p) && Grew(rulings, settings, before, p.after, p.steps)
            && Passes(rulings, settings, p.after, p.held, rest)
            && StreamOf(passes) == p.chunk + StreamOf(rest) && StepsOf(passes) == p.steps + StepsOf(rest)
            && BooksAfter(before, passes) == BooksAfter(p.after, rest)
            && HeldAfter(held, passes) == HeldAfter(p.held, rest)
  {
    hide Grew, OnePass;
  }

  lemma JoinPasses(held: seq<byte>, p: Pass, a: seq<seq<byte>>, b: seq<seq<byte>>, stream: seq<byte>, after: seq<byte>)
    requires held + p.chunk == Flatten(a) + p.held && p.held + stream == Flatten(b) + after
    requires AllFrames(a) && AllFrames(b)
    ensures held + (p.chunk + stream) == Flatten(a + b) + after && AllFrames(a + b)
  {
    hide Flatten, AllFrames;
    FramesOfBoth(a, b);
    FlattenAppend(a, b);
    assert held + (p.chunk + stream) == held + p.chunk + stream;
    assert Flatten(a) + p.held + stream == Flatten(a) + (p.held + stream);
    assert Flatten(a) + (Flatten(b) + after) == Flatten(a) + Flatten(b) + after;
  }

  lemma PutTogether<T>(s: seq<T>, f: seq<T>, g: seq<T>, a: seq<T>, t: seq<T>, b: seq<T>, u: seq<T>)
    requires s + f == a + t && t + g == b + u
    ensures s + (f + g) == a + b + u
  {
    assert s + (f + g) == s + f + g;
    assert a + t + g == a + (t + g);
  }

  /**
   * Over every run of calls that did not throw the buffer away: the packets handled, with the immediate repeats of a
   * refused one taken out, are the first packets of the stream; so are those accepted, which are all of them once
   * nothing whole is held.
   */
  lemma PassesAddUp(rulings: nat -> Ruling, settings: Settings, before: Books, held: seq<byte>, passes: seq<Pass>)
    requires Passes(rulings, settings, before, held, passes)
    ensures var steps, stream := StepsOf(passes), held + StreamOf(passes);
            && Grew(rulings, settings, before, BooksAfter(before, passes), steps)
            && Firsts(steps, None) <= Frames(stream) && AcceptedIn(steps) <= Firsts(steps, None)
            && stream == Flatten(AcceptedIn(steps)) + HeldAfter(held, passes)
            && (Ready(HeldAfter(held, passes)).None? ==> AcceptedIn(steps) == Frames(stream))
  {
    hide Grew, AllHold, Holds, IsFrame, Flatten, AcceptedIn, Firsts, Standing, Frames, AllFrames, Ready, Passes;
    PassesFrom(rulings, settings, before, held, passes, None);
    var steps, rest := StepsOf(passes), HeldAfter(held, passes);
    FramesAreUnique(AcceptedIn(steps), rest);
    FrontOfRest(Standing(steps, None), rest);
    assert [] + Firsts(steps, None) == Firsts(steps, None);
    if Ready(rest).None? {
      NothingWhole(rest);
    }
  }

  lemma FrontOfRest(standing: Option<seq<byte>>, rest: seq<byte>)
    requires standing.Some? ==> IsFrame(standing.value) && standing.value <= rest
    ensures Front(standing) <= Frames(rest)
  {
    hide Ready;
    if standing.Some? {
      ReadyStable(standing.value, rest[|standing.value|..]);
      assert rest == standing.value + rest[|standing.value|..];
    }
  }

  lemma NothingWhole(held: seq<byte>)
    requires Ready(held).None?
    ensures Frames(held) == []
  {
  }

  /** With every packet accepted, those handled are those accepted. */
  lemma {:induction false} AllAccepted(steps: seq<Step>)
    requires AllHold(steps) && HandledSucceed(steps)
    ensures Total(steps).frames == AcceptedIn(steps)
    decreases |steps|
  {
    hide Holds, StepPlan, StepOutcome;
    if steps != [] {
      assert forall i :: 0 <= i < |steps[1..]| ==> steps[1..][i] == steps[i + 1];
      AllAccepted(steps[1..]);
    }
  }

  /**
   * However a stream is cut into reads, the application hears the same: two runs over one stream, by clients of the
   * same settings and with the same rulings, whose handlers all succeeded and who handled all there was, have heard
   * the same events in the same order.
   */
  lemma CutsHearAlike(rulings: nat -> Ruling, settings: Settings, a: Books, b: Books, held: seq<byte>, first: seq<Pass>,
                      second: seq<Pass>)
    requires Passes(rulings, settings, a, held, first) && Passes(rulings, settings, b, held, second)
    requires AllHold(StepsOf(first)) && HandledSucceed(StepsOf(first)) && Ready(HeldAfter(held, first)).None?
    requires AllHold(StepsOf(second)) && HandledSucceed(StepsOf(second)) && Ready(HeldAfter(held, second)).None?
    requires StreamOf(first) == StreamOf(second) && forall k: nat :: SessionsTyped(rulings(k).sessions)
    requires a.now.number == b.now.number && a.heard == b.heard
    ensures BooksAfter(a, first).heard == BooksAfter(b, second).heard
    ensures BooksAfter(a, first).now.number == BooksAfter(b, second).now.number
  {
    hide Grew, Frames, Ready, Passes, SessionsTyped, Total, AllHold, HandledSucceed, Firsts, AcceptedIn, Flatten;
    PassesAddUp(rulings, settings, a, held, first);
    PassesAddUp(rulings, settings, b, held, second);
    AllAccepted(StepsOf(first));
    AllAccepted(StepsOf(second));
    SamePacketsSameEvents(rulings, settings, a, BooksAfter(a, first), b, BooksAfter(b, second), StepsOf(first),
                          StepsOf(second));
  }
}
