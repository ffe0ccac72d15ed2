/**
 * What the handling of a packet comes to, as a plan computed from the packet, the client's settings and the
 * application's ruling, and what a whole run of handlings adds up to.
 */
module Account {
  import opened Bytes
  import opened Header
  import opened Walks
  import opened Packet
  import opened Connect
  import opened Ack
  import opened Disconnect
  import opened Framing
  import opened Received
  import opened Link
  import opened Client
  import opened Replies

  function FromRefusal(why: Refusal): ClientError {
    match why
    case BadParameter => ClientError.BadParameter
    case BadResponse => ClientError.BadResponse
  }

  function PacketIdOf(packetId: Option<u16>): u16 {
    if packetId.Some? then packetId.value else 0
  }

  // ---- one packet ------------------------------------------------------------------------

  function PublishEvent(kind: byte, p: PublishInfo): Event {
    Event(kind, PacketIdOf(p.packetId), Some(p), [], p.properties)
  }

  /** `calculate_state_publish`, receiving. */
  function ReceivedState(qos: QoS): PublishState {
    match qos
    case AtMostOnce => PublishDone
    case AtLeastOnce => PubAckSend
    case ExactlyOnce => PubRecSend
  }

  /** What the records make of a PUBLISH: at level zero they keep none, and have nothing against it. */
  function RecordedAt(recorded: Recorded, qos: QoS): Recorded {
    if qos == AtMostOnce then Moves else recorded
  }

  /** `calculate_state_ack`, receiving, for the level the type goes with. */
  function AckedState(kind: byte): PublishState {
    if kind == PUBREC then PubRelSend else if kind == PUBREL then PubCompSend else PublishDone
  }

  /** A duplicate of level two is not told again, and is acknowledged all the same. */
  function PublishPlan(view: PacketInfo, g: Ground, ruling: Ruling): Plan
    requires SessionsTyped(ruling.sessions)
  {
    match DeserializePublish(view, g.settings.clientMax, g.settings.topicAliasMax)
    case Err(why) => Quietly(g, Err(FromRefusal(why)))
    case Ok(p) =>
      if !g.settings.stateful && p.qos != AtMostOnce then Quietly(g, Err(ClientError.RecvFailed))
      else if g.settings.stateful && RecordedAt(ruling.recorded, p.qos).Refuses?
      then Quietly(g, Err(ClientError.StateError))
      else
        var duplicate := g.settings.stateful && RecordedAt(ruling.recorded, p.qos).Collides?;
        AnswerPlan(g, ruling, PublishEvent(view.kind, p), !duplicate || p.qos == AtLeastOnce, p.qos != AtMostOnce,
                   if g.settings.stateful then ReceivedState(p.qos) else Null)
  }

  /** Which half of the store an acknowledgement releases. */
  function Released(kind: byte, packetId: u16): nat {
    if kind == PUBACK || kind == PUBREC then packetId else IncomingKey(packetId)
  }

  /** A publish acknowledgement: two of the four end their handshake, the other two are answered with its next step. */
  function PublishAckPlan(view: PacketInfo, g: Ground, ruling: Ruling): Plan
    requires SessionsTyped(ruling.sessions)
  {
    match DeserializeAck(view, g.settings.clientMax, g.settings.problemInfo)
    case Err(why) => Quietly(g, Err(FromRefusal(why)))
    case Ok(info) =>
      if g.settings.stateful && !ruling.recorded.Moves? then Quietly(g, Err(ClientError.StateError))
      else
        var kind, id := view.kind, PacketIdOf(info.packetId);
        AnswerPlan(g, ruling, Event(kind, id, None, info.reasonCodes, info.properties), true,
                   kind != PUBACK && kind != PUBCOMP, if g.settings.stateful then AckedState(kind) else Null)
        .(released := [Released(kind, id)])
  }

  /** A packet the application is told of, and that wants no reply. */
  function ToldPlan(g: Ground, event: Event, accepts: bool): Plan {
    Plan([event], [], g.section, Ends(if accepts then Ok(()) else Err(ClientError.EventCallbackFailed)))
  }

  /**
   * A PINGRESP is swallowed when the keep alive is managed, and told bare when it is not; list acknowledgements are
   * told.
   */
  function ReadAckPlan(kind: byte, info: AckInfo, g: Ground, ruling: Ruling): Plan {
    var id := PacketIdOf(info.packetId);
    if kind == PINGRESP && g.settings.manage then Quietly(g, Ok(()))
    else if kind == PINGRESP then ToldPlan(g, Event(kind, id, None, [], []), ruling.accepts)
    else ToldPlan(g, Event(kind, id, None, info.reasonCodes, info.properties), ruling.accepts)
  }

  /** Any other type is refused. */
  function OtherAckPlan(view: PacketInfo, g: Ground, ruling: Ruling): Plan {
    if view.kind != PINGRESP && view.kind != SUBACK && view.kind != UNSUBACK
    then Quietly(g, Err(ClientError.BadResponse))
    else match DeserializeAck(view, g.settings.clientMax, g.settings.problemInfo)
         case Err(why) => Quietly(g, Err(FromRefusal(why)))
         case Ok(info) => ReadAckPlan(view.kind, info, g, ruling)
  }

  function CodeOf(code: Option<byte>): seq<byte> {
    if code.Some? then [code.value] else []
  }

  /** A malformed DISCONNECT is answered with one of reason 0x81, if the client may send it. */
  function ClosingPlan(g: Ground): Plan {
    var refusal := RefusalToClose(Some(MALFORMED_PACKET), [], g.settings.sessionExpiry, g.settings.serverMax, g.status);
    if refusal.Some? then Quietly(g, Err(refusal.value))
    else Plan([], [], g.section, Closes(ClosingPacket(Some(MALFORMED_PACKET), [], g.settings.serverMax)))
  }

  function DisconnectPlan(view: PacketInfo, g: Ground, ruling: Ruling): Plan {
    match DeserializeDisconnect(view, g.settings.clientMax)
    case Ok(incoming) =>
      ToldPlan(g, Event(DISCONNECT, 0, None, CodeOf(incoming.reasonCode), incoming.properties), ruling.accepts)
    case Err(_) => ClosingPlan(g)
  }

  /** `handle_packet`, by the first byte. */
  function ViewPlan(view: PacketInfo, g: Ground, ruling: Ruling): Plan
    requires SessionsTyped(ruling.sessions)
  {
    if view.kind / 16 == PUBLISH / 16 then PublishPlan(view, g, ruling)
    else if view.kind == DISCONNECT then DisconnectPlan(view, g, ruling)
    else if IsPublishAck(view.kind) then PublishAckPlan(view, g, ruling)
    else OtherAckPlan(view, g, ruling)
  }

  lemma OnlyDisconnectCloses(view: PacketInfo, g: Ground, ruling: Ruling)
    requires SessionsTyped(ruling.sessions)
    ensures !PublishPlan(view, g, ruling).fate.Closes? && !PublishAckPlan(view, g, ruling).fate.Closes?
    ensures !OtherAckPlan(view, g, ruling).fate.Closes? && !OtherAckPlan(view, g, ruling).fate.Answers?
  {
    hide DeserializePublish, DeserializeAck, ReplyRefusal, Replied, AckTypeToSend, AckPacket;
  }

  function PlanOf(frame: seq<byte>, g: Ground, ruling: Ruling): Plan
    requires IsFrame(frame) && SessionsTyped(ruling.sessions)
  {
    ViewPlan(ViewOf(frame), g, ruling)
  }

  // ---- a run of steps --------------------------------------------------------------------

  /** A step is what it claims: a part of a PINGREQ, or a part of what the packet's plan had to say. */
  predicate Holds(step: Step) {
    match step
    case Unread(_) => true
    case Pinged(out, _) => out <= PINGREQ_PACKET
    case Handled(frame, g, ruling, out, _) =>
      && IsFrame(frame) && SessionsTyped(ruling.sessions)
      && out <= Spoken(PlanOf(frame, g, ruling).fate, ruling)
  }

  predicate AllHold(steps: seq<Step>) {
    forall i :: 0 <= i < |steps| ==> Holds(steps[i])
  }

  function StepPlan(step: Step): Plan
    requires step.Handled? && Holds(step)
  {
    PlanOf(step.frame, step.ground, step.ruling)
  }

  /** What the handler answered. */
  function StepOutcome(step: Step): Result<(), ClientError>
    requires step.Handled? && Holds(step)
  {
    var fate := StepPlan(step).fate;
    Outcome(fate, step.ruling, step.ground.settings.stateful, step.out == Spoken(fate, step.ruling))
  }

  /** The handler succeeded, or the PINGREQ got out. */
  predicate Succeeds(step: Step)
    requires Holds(step)
  {
    match step
    case Unread(_) => false
    case Pinged(out, _) => out == PINGREQ_PACKET
    case Handled(_, _, _, _, _) => StepOutcome(step).Ok?
  }

  predicate AllSucceed(steps: seq<Step>)
    requires AllHold(steps)
  {
    forall i :: 0 <= i < |steps| ==> Succeeds(steps[i])
  }

  /** Every handler succeeded, whatever became of the reads and the PINGREQs between them. */
  predicate HandledSucceed(steps: seq<Step>)
    requires AllHold(steps)
  {
    forall i :: 0 <= i < |steps| && steps[i].Handled? ==> StepOutcome(steps[i]).Ok?
  }

  /** A PINGREQ counts when it got out whole. */
  function PingOf(out: seq<byte>): seq<PingEvent> {
    if out == PINGREQ_PACKET then [PingSent] else []
  }

  /** A PINGRESP counts when it was handled, and the keep alive is managed. */
  predicate Settles(frame: seq<byte>, manage: bool, r: Result<(), ClientError>)
    requires IsFrame(frame)
  {
    manage && ViewOf(frame).kind == PINGRESP && r.Ok?
  }

  /** The step sent an acknowledgement, and all of it. */
  predicate Gave(step: Step)
    requires Holds(step)
  {
    step.Handled? && GoesWhole(StepPlan(step).fate, step.out)
  }

  predicate AnyGave(steps: seq<Step>)
    requires AllHold(steps)
  {
    exists i :: 0 <= i < |steps| && Gave(steps[i])
  }

  lemma AnyGaveAppend(a: seq<Step>, b: seq<Step>)
    requires AllHold(a) && AllHold(b)
    ensures AllHold(a + b) && (AnyGave(a + b) <==> AnyGave(a) || AnyGave(b))
  {
    hide Holds, Gave;
    assert forall i :: 0 <= i < |a| ==> (a + b)[i] == a[i];
    assert forall i :: 0 <= i < |b| ==> (a + b)[|a| + i] == b[i];
  }

  lemma OneGave(step: Step)
    requires Holds(step)
    ensures AllHold([step]) && (AnyGave([step]) <==> Gave(step))
  {
    hide Holds, Gave;
    assert [step][0] == step;
  }

  lemma NothingGave()
    ensures AllHold([]) && !AnyGave([])
  {
  }

  /** What steps add up to. */
  datatype Tally = Tally(frames: seq<seq<byte>>, wire: seq<byte>, heard: seq<Event>, kept: seq<Copy>, cleared: seq<nat>,
                         pings: seq<PingEvent>)

  const NOTHING: Tally := Tally([], [], [], [], [], [])

  function Plus(a: Tally, b: Tally): Tally {
    Tally(a.frames + b.frames, a.wire + b.wire, a.heard + b.heard, a.kept + b.kept, a.cleared + b.cleared,
          a.pings + b.pings)
  }

  function Answered(step: Step): seq<PingEvent>
    requires step.Handled? && Holds(step)
  {
    if Settles(step.frame, step.ground.settings.manage, StepOutcome(step)) then [PingAnswered] else []
  }

  function TallyOf(step: Step): Tally
    requires Holds(step)
  {
    match step
    case Unread(_) => NOTHING
    case Pinged(out, _) => Tally([], out, [], [], [], PingOf(out))
    case Handled(frame, g, ruling, out, _) =>
      var plan := StepPlan(step);
      Tally([frame], out, plan.heard, Copies(plan.fate, ruling), plan.released, Answered(step))
  }

  function Total(steps: seq<Step>): Tally
    requires AllHold(steps)
  {
    if steps == [] then NOTHING else Plus(TallyOf(steps[0]), Total(steps[1..]))
  }

  lemma PlusAssociates(a: Tally, b: Tally, c: Tally)
    ensures Plus(Plus(a, b), c) == Plus(a, Plus(b, c))
    ensures Plus(NOTHING, a) == a && Plus(a, NOTHING) == a
  {
  }

  lemma {:induction false} TotalAppend(a: seq<Step>, b: seq<Step>)
    requires AllHold(a) && AllHold(b)
    ensures AllHold(a + b) && Total(a + b) == Plus(Total(a), Total(b))
    decreases |a|
  {
    hide Holds, TallyOf, Plus;
    if a == [] {
      PlusAssociates(Total(b), NOTHING, NOTHING);
      assert a + b == b;
    } else {
      TotalAppend(a[1..], b);
      assert (a + b)[1..] == a[1..] + b;
      PlusAssociates(TallyOf(a[0]), Total(a[1..]), Total(b));
    }
  }

  /** The connection: its status, and whether a PINGRESP is owed. */
  datatype Line = Line(status: ConnectionStatus, owed: bool)

  /** What a step finds: the number of the next ruling, the reply section, and the connection. */
  datatype Now = Now(number: nat, section: seq<byte>, line: Line)

  /** A PINGREQ is begun only while none is outstanding, and gets somewhere only on a connection that stands. */
  predicate MayPing(line: Line, out: seq<byte>, after: ConnectionStatus) {
    && !line.owed && (line.status != Connected ==> out == [])
    && after in {line.status, AfterFailure(line.status)} && (out == PINGREQ_PACKET ==> after == line.status)
  }

  /** A DISCONNECT ends the connection; anything else steps it down at most, and not when all that was said got out. */
  predicate MayLeave(kind: byte, status: ConnectionStatus, after: ConnectionStatus, whole: bool) {
    if kind == DISCONNECT then after == ConnectionStatus.NotConnected
    else after in {status, AfterFailure(status)} && (whole ==> after == status)
  }

  /** A step that may be taken here: a packet meets the settings, what the step before it left, and the next ruling. */
  predicate Fits(rulings: nat -> Ruling, settings: Settings, now: Now, step: Step)
    requires Holds(step)
  {
    match step
    case Unread(after) => after == AfterFailure(now.line.status)
    case Pinged(out, after) => MayPing(now.line, out, after)
    case Handled(frame, g, ruling, out, after) =>
      && g == Ground(settings, now.line.status, now.section) && ruling == rulings(now.number)
      && MayLeave(ViewOf(frame).kind, now.line.status, after, out == Spoken(StepPlan(step).fate, ruling))
  }

  function Then(now: Now, step: Step): Now
    requires Holds(step)
  {
    match step
    case Unread(after) => now.(line := now.line.(status := after))
    case Pinged(out, after) => now.(line := Line(after, out == PINGREQ_PACKET))
    case Handled(_, _, _, _, after) =>
      Now(now.number + 1, SectionAfter(StepPlan(step)), Line(after, now.line.owed && Answered(step) == []))
  }

  function NowOver(now: Now, steps: seq<Step>): Now
    requires AllHold(steps)
    decreases |steps|
  {
    if steps == [] then now else NowOver(Then(now, steps[0]), steps[1..])
  }

  /** Steps that follow one another. */
  predicate Follow(rulings: nat -> Ruling, settings: Settings, now: Now, steps: seq<Step>)
    requires AllHold(steps)
    decreases |steps|
  {
    || steps == []
    || (Fits(rulings, settings, now, steps[0]) && Follow(rulings, settings, Then(now, steps[0]), steps[1..]))
  }

  lemma {:induction false} FollowAppend(rulings: nat -> Ruling, settings: Settings, now: Now, a: seq<Step>,
                                        b: seq<Step>)
    requires AllHold(a) && AllHold(b)
    ensures AllHold(a + b) && NowOver(now, a + b) == NowOver(NowOver(now, a), b)
    ensures Follow(rulings, settings, now, a + b)
       <==> Follow(rulings, settings, now, a) && Follow(rulings, settings, NowOver(now, a), b)
    decreases |a|
  {
    hide Holds, Fits, Then;
    if a == [] {
      assert a + b == b;
    } else {
      assert (a + b)[1..] == a[1..] + b && (a + b)[0] == a[0];
      FollowAppend(rulings, settings, Then(now, a[0]), a[1..], b);
    }
  }

  // ---- what a call leaves behind ---------------------------------------------------------

  /** Everything outside the receive buffer that a call of the loop changes. */
  datatype Books = Books(trace: seq<Step>, log: seq<byte>, heard: seq<Event>, kept: seq<Copy>, cleared: seq<nat>,
                         pings: seq<PingEvent>, now: Now)

  ghost function LineOf(context: MqttContext): Line
    reads context`connectStatus, context`waitingForPingResp
  {
    Line(context.connectStatus, context.waitingForPingResp)
  }

  ghost function BooksOf(context: MqttContext, transport: Transport, app: App): Books
    reads context`ackUsed, context`ackProperties, context.ackProperties, context`pings, transport`log, app
    reads context`connectStatus, context`waitingForPingResp
  {
    Books(app.trace, transport.log, app.heard, app.kept, app.cleared, context.pings,
          Now(app.packets, context.ackProperties[..Min(context.ackUsed, context.ackProperties.Length)],
              LineOf(context)))
  }

  /**
   * Between two moments just these steps were taken: the wire carries what they sent in their order and nothing
   * else, the application heard their events, the store took their copies and released their keys, and the reply
   * section, the connection and the debt of a PINGRESP are as they left them.
   */
  predicate Grew(rulings: nat -> Ruling, settings: Settings, before: Books, after: Books, steps: seq<Step>) {
    && AllHold(steps) && Follow(rulings, settings, before.now, steps)
    && var t := Total(steps);
       && after == Books(before.trace + steps, before.log + t.wire, before.heard + t.heard, before.kept + t.kept,
                         before.cleared + t.cleared, before.pings + t.pings, NowOver(before.now, steps))
  }

  lemma GrewNothing(rulings: nat -> Ruling, settings: Settings, books: Books)
    ensures Grew(rulings, settings, books, books, [])
  {
  }

  lemma GrewMore(rulings: nat -> Ruling, settings: Settings, a: Books, b: Books, c: Books, first: seq<Step>,
                 next: seq<Step>)
    requires Grew(rulings, settings, a, b, first) && Grew(rulings, settings, b, c, next)
    ensures AllHold(first) && AllHold(next) && AllHold(first + next) && Grew(rulings, settings, a, c, first + next)
    ensures Total(first + next).frames == Total(first).frames + Total(next).frames
  {
    hide Holds, StepPlan, Follow, NowOver, Total;
    TotalAppend(first, next);
    FollowAppend(rulings, settings, a.now, first, next);
  }

  /** What one step adds to the books, before it is entered there. */
  predicate Adds(rulings: nat -> Ruling, settings: Settings, a: Books, b: Books, step: Step) {
    && Holds(step) && Fits(rulings, settings, a.now, step)
    && var t := TallyOf(step);
       b == Books(a.trace, a.log + t.wire, a.heard + t.heard, a.kept + t.kept, a.cleared + t.cleared, a.pings + t.pings,
                  Then(a.now, step))
  }

  /** What handling a packet comes to is what its step adds. */
  lemma HandlingAdds(rulings: nat -> Ruling, settings: Settings, a: Books, b: Books, step: Step, log: seq<byte>)
    requires step.Handled? && Holds(step) && Fits(rulings, settings, a.now, step) && log == a.log + step.out
    requires var plan := StepPlan(step);
             b == Books(a.trace, log, a.heard + plan.heard, a.kept + Copies(plan.fate, step.ruling),
                        a.cleared + plan.released, a.pings + Answered(step),
                        Now(a.now.number + 1, SectionAfter(plan),
                            Line(step.after, a.now.line.owed && Answered(step) == [])))
    ensures Adds(rulings, settings, a, b, step)
  {
    hide Holds, StepPlan, Fits, Answered;
  }

  /** So is a failed read, or a PINGREQ. */
  lemma OpeningAdds(rulings: nat -> Ruling, settings: Settings, a: Books, b: Books, step: Step, out: seq<byte>)
    requires !step.Handled? && Holds(step) && Fits(rulings, settings, a.now, step)
    requires out == if step.Pinged? then step.out else []
    requires b == a.(log := a.log + out, pings := a.pings + PingOf(out), now := Then(a.now, step))
    ensures Adds(rulings, settings, a, b, step)
  {
    hide PlanOf, Fits, Then;
    assert a.heard + [] == a.heard && a.kept + [] == a.kept && a.cleared + [] == a.cleared;
    assert a.log + [] == a.log && a.pings + [] == a.pings;
  }

  /** The books after one step more. */
  lemma OneStepMore(rulings: nat -> Ruling, settings: Settings, a: Books, b: Books, step: Step)
    requires Adds(rulings, settings, a, b, step)
    ensures Grew(rulings, settings, a, b.(trace := b.trace + [step]), [step])
    ensures Holds(step) && AllHold([step]) && Total([step]).frames == TallyOf(step).frames
  {
    hide Holds, TallyOf, Fits, Then;
    assert [step][1..] == [];
    PlusAssociates(TallyOf(step), NOTHING, NOTHING);
    assert AllHold([step]) && Total([step]) == TallyOf(step);
    assert Follow(rulings, settings, a.now, [step]) && NowOver(a.now, [step]) == Then(a.now, step);
  }
}
