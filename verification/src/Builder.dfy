/** The buffer an outgoing property section is accumulated in, one adder call at a time. */
module Builder {
  import opened Bytes
  import opened Header
  import opened Grammar
  import opened Connack

  datatype BuilderError = Empty | TooLong | AlreadySet | NotAllowedInPacket | BadValue | NoMemory

  /** The properties that have an adder. */
  predicate HasAdder(id: byte) {
    id in {SESSION_EXPIRY, RECEIVE_MAX, MAX_PACKET_SIZE, TOPIC_ALIAS_MAX, REQUEST_RESPONSE, REQUEST_PROBLEM,
           AUTH_METHOD, AUTH_DATA, PAYLOAD_FORMAT, MESSAGE_EXPIRY, WILL_DELAY, TOPIC_ALIAS, RESPONSE_TOPIC,
           CORRELATION_DATA, CONTENT_TYPE, REASON_STRING, SUBSCRIPTION_ID, USER_PROPERTY}
  }

  /** `allowed_properties`, by identifier: which properties a packet type may carry. */
  function AllowedIn(kind: byte): set<byte> {
    if kind == CONNECT then
      {SESSION_EXPIRY, RECEIVE_MAX, MAX_PACKET_SIZE, TOPIC_ALIAS_MAX, REQUEST_RESPONSE, REQUEST_PROBLEM,
       USER_PROPERTY, AUTH_METHOD, AUTH_DATA, WILL_DELAY, PAYLOAD_FORMAT, MESSAGE_EXPIRY, CONTENT_TYPE,
       RESPONSE_TOPIC, CORRELATION_DATA}
    else if kind == CONNACK then
      {SESSION_EXPIRY, RECEIVE_MAX, MAX_QOS, RETAIN_AVAILABLE, MAX_PACKET_SIZE, ASSIGNED_CLIENT_ID,
       TOPIC_ALIAS_MAX, REASON_STRING, USER_PROPERTY, WILDCARD_AVAILABLE, SUBSCRIPTION_ID_AVAILABLE,
       SHARED_SUB_AVAILABLE, SERVER_KEEP_ALIVE, RESPONSE_INFO, SERVER_REFERENCE, AUTH_METHOD, AUTH_DATA}
    else if kind == PUBLISH then
      {PAYLOAD_FORMAT, MESSAGE_EXPIRY, TOPIC_ALIAS, RESPONSE_TOPIC, CORRELATION_DATA, USER_PROPERTY,
       SUBSCRIPTION_ID, CONTENT_TYPE}
    else if kind in {PUBACK, PUBREC, PUBREL, PUBCOMP} then {REASON_STRING, USER_PROPERTY}
    else if kind == SUBSCRIBE then {SUBSCRIPTION_ID, USER_PROPERTY}
    else if kind in {SUBACK, UNSUBACK} then {REASON_STRING, USER_PROPERTY}
    else if kind == UNSUBSCRIBE then {USER_PROPERTY}
    else if kind == DISCONNECT then {SESSION_EXPIRY, REASON_STRING, USER_PROPERTY, SERVER_REFERENCE}
    else if kind == AUTH then {AUTH_METHOD, AUTH_DATA, REASON_STRING, USER_PROPERTY}
    else {}
  }

  // ---- one adder call, as a step of a state machine --------------------------

  datatype State = State(section: seq<byte>, fields: set<nat>)

  const FRESH := State([], {})

  /** The argument types of the adders: a `bool`, a `u16`, a `u32` or slices of any length. */
  predicate Typed(p: Property) {
    && HasAdder(p.id)
    && match WidthOf(p.id).value
       case Byte => p.value.Num? && p.value.n <= 1
       case TwoBytes => p.value.Num? && p.value.n < 0x1_0000
       case FourBytes => p.value.Num?
       case String => p.value.Text?
       case Pair => p.value.Texts?
       case Variable => p.value.Num?
  }

  predicate UsableText(s: seq<byte>) {
    0 < |s| <= 0xFFFF
  }

  /** The refusals of the value itself, made before anything else is looked at. */
  predicate BadValueFor(fields: set<nat>, p: Property)
    requires Typed(p)
  {
    match p.value
    case Num(n) =>
      || (n == 0 && p.id in {RECEIVE_MAX, MAX_PACKET_SIZE, TOPIC_ALIAS, SUBSCRIPTION_ID})
      || (n > MAX_REMAINING_LENGTH && p.id == SUBSCRIPTION_ID)
    case Text(s) =>
      || !UsableText(s)
      || (p.id == AUTH_DATA && FieldOf(AUTH_METHOD) !in fields)
      || (p.id == RESPONSE_TOPIC && (0x23 in s || 0x2B in s))
    case Texts(k, s) => !UsableText(k) || !UsableText(s)
  }

  lemma GoodValueIsValid(fields: set<nat>, p: Property)
    requires Typed(p) && !BadValueFor(fields, p)
    ensures ValidProperty(p)
  {
  }

  /** `room_for`, and the same questions as `user_property` asks them: a repeat, a packet type, the two sizes. */
  function RoomFor(capacity: nat, st: State, needed: nat, id: byte, kind: Option<byte>): Result<(), BuilderError> {
    if id != USER_PROPERTY && FieldOf(id) in st.fields then Err(AlreadySet)
    else if kind.Some? && id !in AllowedIn(kind.value) then Err(NotAllowedInPacket)
    else if capacity - |st.section| < needed then Err(NoMemory)
    else if |st.section| + needed > REMAINING_LENGTH_INVALID then Err(TooLong)
    else Ok(())
  }

  function AdderVerdict(capacity: nat, st: State, p: Property, kind: Option<byte>): Result<(), BuilderError>
    requires Typed(p)
  {
    if BadValueFor(st.fields, p) then Err(BadValue)
    else
      GoodValueIsValid(st.fields, p);
      RoomFor(capacity, st, |EncodeProperty(p)|, p.id, kind)
  }

  function Bits(p: Property): set<nat> {
    if p.id == USER_PROPERTY then {} else {FieldOf(p.id)}
  }

  /** A refused call leaves the state alone; an accepted one prints the property and sets its bit. */
  function Add(capacity: nat, st: State, p: Property, kind: Option<byte>): State
    requires Typed(p)
  {
    if AdderVerdict(capacity, st, p, kind).Err? then st
    else
      GoodValueIsValid(st.fields, p);
      State(st.section + EncodeProperty(p), st.fields + Bits(p))
  }

  /** `resume`, and `new` at zero: which buffers a builder may be put over. */
  function ResumeVerdict(length: nat, at: nat): Result<(), BuilderError> {
    if at > length then Err(TooLong)
    else if length == 0 then Err(Empty)
    else if length >= REMAINING_LENGTH_INVALID then Err(TooLong)
    else Ok(())
  }

  class PropertyBuilder {
    const buffer: array<byte>
    var at: nat
    var fields: set<nat>

    predicate Valid()
      reads this
    {
      at <= buffer.Length && 0 < buffer.Length < REMAINING_LENGTH_INVALID
    }

    function Section(): seq<byte>
      requires Valid()
      reads this, buffer
    {
      buffer[..at]
    }

    function Current(): State
      requires Valid()
      reads this, buffer
    {
      State(buffer[..at], fields)
    }

    /** `resume`, and with `at == 0` `new`: the bytes already there stay, the field bits are forgotten. */
    constructor Resume(buffer: array<byte>, at: nat)
      requires ResumeVerdict(buffer.Length, at).Ok?
      ensures this.buffer == buffer && Valid() && Current() == State(buffer[..at], {})
    {
      this.buffer := buffer;
      this.at := at;
      fields := {};
    }

    /** What every adder promises: the step of the state machine, and nothing past the cursor touched. */
    twostate predicate Performed(p: Property, kind: Option<byte>, new r: Result<(), BuilderError>)
      requires Typed(p) && old(Valid())
      reads this, buffer
    {
      && Valid()
      && r == AdderVerdict(buffer.Length, old(Current()), p, kind)
      && Current() == Add(buffer.Length, old(Current()), p, kind)
      && buffer[at..] == old(buffer[..])[at..]
    }

    method Room(needed: nat, id: byte, kind: Option<byte>) returns (r: Result<(), BuilderError>)
      requires Valid() && id != USER_PROPERTY
      ensures r == RoomFor(buffer.Length, Current(), needed, id, kind)
    {
      if FieldOf(id) in fields {
        return Err(AlreadySet);
      }
      if kind.Some? && id !in AllowedIn(kind.value) {
        return Err(NotAllowedInPacket);
      }
      if buffer.Length - at < needed {
        return Err(NoMemory);
      }
      if at + needed > REMAINING_LENGTH_INVALID {
        return Err(TooLong);
      }
      return Ok(());
    }

    /**
     * Writes a whole property at the cursor and marks its bit. The source's slice refusals here answer
     * `NoMemory`; once room was found they are unreachable, which is what the precondition says.
     */
    method Put(id: byte, bytes: seq<byte>, bit: set<nat>)
      requires Valid() && at + 1 + |bytes| <= buffer.Length
      modifies this, buffer
      ensures Valid() && at == old(at) + 1 + |bytes| && fields == old(fields) + bit
      ensures buffer[..at] == old(buffer[..at]) + [id] + bytes && buffer[at..] == old(buffer[..])[at..]
    {
      CopyInto(buffer, at, [id] + bytes);
      at := at + 1 + |bytes|;
      fields := fields + bit;
    }

    method AddFixed(p: Property, bytes: seq<byte>, kind: Option<byte>) returns (r: Result<(), BuilderError>)
      requires Valid() && Typed(p) && !BadValueFor(fields, p) && p.id != USER_PROPERTY
      requires ValidProperty(p) && bytes == EncodeValue(WidthOf(p.id).value, p.value)
      modifies this, buffer
      ensures Performed(p, kind, r)
    {
      hide EncodeValue, WidthOf, FieldOf, AllowedIn, BadValueFor, Typed, FitsWidth;
      r := Room(1 + |bytes|, p.id, kind);
      if r.Err? {
        return;
      }
      Put(p.id, bytes, {FieldOf(p.id)});
      assert old(buffer[..at]) + [p.id] + bytes == old(buffer[..at]) + EncodeProperty(p);
    }

    /** `addPropUint8`. */
    method AddU8(value: bool, id: byte, kind: Option<byte>) returns (r: Result<(), BuilderError>)
      requires Valid() && HasAdder(id) && WidthOf(id) == Some(Byte)
      modifies this, buffer
      ensures Performed(Property(id, Num(if value then 1 else 0)), kind, r)
    {
      hide FieldOf, AllowedIn;
      r := AddFixed(Property(id, Num(if value then 1 else 0)), [if value then 1 else 0], kind);
    }

    /** `addPropUint16`, behind the zero check of the adders that make one. */
    method AddU16(value: u16, id: byte, kind: Option<byte>) returns (r: Result<(), BuilderError>)
      requires Valid() && HasAdder(id) && WidthOf(id) == Some(TwoBytes)
      requires !BadValueFor(fields, Property(id, Num(value)))
      modifies this, buffer
      ensures Performed(Property(id, Num(value)), kind, r)
    {
      hide FieldOf, AllowedIn;
      r := AddFixed(Property(id, Num(value)), Be16(value), kind);
    }

    /** `addPropUint32`, behind the zero check of the adders that make one. */
    method AddU32(value: u32, id: byte, kind: Option<byte>) returns (r: Result<(), BuilderError>)
      requires Valid() && HasAdder(id) && WidthOf(id) == Some(FourBytes)
      requires !BadValueFor(fields, Property(id, Num(value)))
      modifies this, buffer
      ensures Performed(Property(id, Num(value)), kind, r)
    {
      hide FieldOf, AllowedIn;
      r := AddFixed(Property(id, Num(value)), Be32(value), kind);
    }

    /** `addPropUtf8`: refuses the empty string, and counts the identifier the C forgets. */
    method AddUtf8(value: seq<byte>, id: byte, kind: Option<byte>) returns (r: Result<(), BuilderError>)
      requires Valid() && HasAdder(id) && WidthOf(id) == Some(String)
      requires BadValueFor(fields, Property(id, Text(value))) ==> !UsableText(value)
      modifies this, buffer
      ensures Performed(Property(id, Text(value)), kind, r)
    {
      hide FieldOf, AllowedIn;
      if |value| == 0 || |value| > 0xFFFF {
        return Err(BadValue);
      }
      r := AddFixed(Property(id, Text(value)), Be16(|value|) + value, kind);
    }

    method SessionExpiry(seconds: u32, kind: Option<byte>) returns (r: Result<(), BuilderError>)
      requires Valid()
      modifies this, buffer
      ensures Performed(Property(SESSION_EXPIRY, Num(seconds)), kind, r)
    {
      hide FieldOf, AllowedIn;
      r := AddU32(seconds, SESSION_EXPIRY, kind);
    }

    method ReceiveMax(value: u16, kind: Option<byte>) returns (r: Result<(), BuilderError>)
      requires Valid()
      modifies this, buffer
      ensures Performed(Property(RECEIVE_MAX, Num(value)), kind, r)
    {
      hide FieldOf, AllowedIn;
      if value == 0 {
        return Err(BadValue);
      }
      r := AddU16(value, RECEIVE_MAX, kind);
    }

    method MaxPacketSize(value: u32, kind: Option<byte>) returns (r: Result<(), BuilderError>)
      requires Valid()
      modifies this, buffer
      ensures Performed(Property(MAX_PACKET_SIZE, Num(value)), kind, r)
    {
      hide FieldOf, AllowedIn;
      if value == 0 {
        return Err(BadValue);
      }
      r := AddU32(value, MAX_PACKET_SIZE, kind);
    }

    method TopicAliasMax(value: u16, kind: Option<byte>) returns (r: Result<(), BuilderError>)
      requires Valid()
      modifies this, buffer
      ensures Performed(Property(TOPIC_ALIAS_MAX, Num(value)), kind, r)
    {
      hide FieldOf, AllowedIn;
      r := AddU16(value, TOPIC_ALIAS_MAX, kind);
    }

    method RequestResponseInfo(value: bool, kind: Option<byte>) returns (r: Result<(), BuilderError>)
      requires Valid()
      modifies this, buffer
      ensures Performed(Property(REQUEST_RESPONSE, Num(if value then 1 else 0)), kind, r)
    {
      hide FieldOf, AllowedIn;
      r := AddU8(value, REQUEST_RESPONSE, kind);
    }

    method RequestProblemInfo(value: bool, kind: Option<byte>) returns (r: Result<(), BuilderError>)
      requires Valid()
      modifies this, buffer
      ensures Performed(Property(REQUEST_PROBLEM, Num(if value then 1 else 0)), kind, r)
    {
      hide FieldOf, AllowedIn;
      r := AddU8(value, REQUEST_PROBLEM, kind);
    }

    method AuthMethod(name: seq<byte>, kind: Option<byte>) returns (r: Result<(), BuilderError>)
      requires Valid()
      modifies this, buffer
      ensures Performed(Property(AUTH_METHOD, Text(name)), kind, r)
    {
      hide FieldOf, AllowedIn;
      r := AddUtf8(name, AUTH_METHOD, kind);
    }

    method AuthData(data: seq<byte>, kind: Option<byte>) returns (r: Result<(), BuilderError>)
      requires Valid()
      modifies this, buffer
      ensures Performed(Property(AUTH_DATA, Text(data)), kind, r)
    {
      hide FieldOf, AllowedIn;
      if FieldOf(AUTH_METHOD) !in fields {
        return Err(BadValue);
      }
      r := AddUtf8(data, AUTH_DATA, kind);
    }

    method PayloadFormat(value: bool, kind: Option<byte>) returns (r: Result<(), BuilderError>)
      requires Valid()
      modifies this, buffer
      ensures Performed(Property(PAYLOAD_FORMAT, Num(if value then 1 else 0)), kind, r)
    {
      hide FieldOf, AllowedIn;
      r := AddU8(value, PAYLOAD_FORMAT, kind);
    }

    method MessageExpiry(seconds: u32, kind: Option<byte>) returns (r: Result<(), BuilderError>)
      requires Valid()
      modifies this, buffer
      ensures Performed(Property(MESSAGE_EXPIRY, Num(seconds)), kind, r)
    {
      hide FieldOf, AllowedIn;
      r := AddU32(seconds, MESSAGE_EXPIRY, kind);
    }

    method WillDelay(seconds: u32, kind: Option<byte>) returns (r: Result<(), BuilderError>)
      requires Valid()
      modifies this, buffer
      ensures Performed(Property(WILL_DELAY, Num(seconds)), kind, r)
    {
      hide FieldOf, AllowedIn;
      r := AddU32(seconds, WILL_DELAY, kind);
    }

    method TopicAlias(value: u16, kind: Option<byte>) returns (r: Result<(), BuilderError>)
      requires Valid()
      modifies this, buffer
      ensures Performed(Property(TOPIC_ALIAS, Num(value)), kind, r)
    {
      hide FieldOf, AllowedIn;
      if value == 0 {
        return Err(BadValue);
      }
      r := AddU16(value, TOPIC_ALIAS, kind);
    }

    method ResponseTopic(topic: seq<byte>, kind: Option<byte>) returns (r: Result<(), BuilderError>)
      requires Valid()
      modifies this, buffer
      ensures Performed(Property(RESPONSE_TOPIC, Text(topic)), kind, r)
    {
      hide FieldOf, AllowedIn;
      if 0x23 in topic || 0x2B in topic {
        return Err(BadValue);
      }
      r := AddUtf8(topic, RESPONSE_TOPIC, kind);
    }

    method CorrelationData(data: seq<byte>, kind: Option<byte>) returns (r: Result<(), BuilderError>)
      requires Valid()
      modifies this, buffer
      ensures Performed(Property(CORRELATION_DATA, Text(data)), kind, r)
    {
      hide FieldOf, AllowedIn;
      r := AddUtf8(data, CORRELATION_DATA, kind);
    }

    method ContentType(text: seq<byte>, kind: Option<byte>) returns (r: Result<(), BuilderError>)
      requires Valid()
      modifies this, buffer
      ensures Performed(Property(CONTENT_TYPE, Text(text)), kind, r)
    {
      hide FieldOf, AllowedIn;
      r := AddUtf8(text, CONTENT_TYPE, kind);
    }

    method ReasonString(reason: seq<byte>, kind: Option<byte>) returns (r: Result<(), BuilderError>)
      requires Valid()
      modifies this, buffer
      ensures Performed(Property(REASON_STRING, Text(reason)), kind, r)
    {
      hide FieldOf, AllowedIn;
      r := AddUtf8(reason, REASON_STRING, kind);
    }

    /** The one variable-width property: its two value checks, and the length encoder in place. */
    method SubscriptionId(value: u32, kind: Option<byte>) returns (r: Result<(), BuilderError>)
      requires Valid()
      modifies this, buffer
      ensures Performed(Property(SUBSCRIPTION_ID, Num(value)), kind, r)
    {
      hide FieldOf, AllowedIn, EncodeVar;
      if value == 0 || value > MAX_REMAINING_LENGTH {
        return Err(BadValue);
      }
      SizeVarIsLength(value);
      r := Room(SizeVar(value) + 1, SUBSCRIPTION_ID, kind);
      if r.Err? {
        return;
      }
      CopyInto(buffer, at, [SUBSCRIPTION_ID]);
      var written := EncodeVariableLength(buffer, at + 1, value);
      SpliceJoin(old(buffer[..]), at, [SUBSCRIPTION_ID], EncodeVar(value));
      assert EncodeVar(value)[..written] == EncodeVar(value);
      at := at + 1 + written;
      fields := fields + {FieldOf(SUBSCRIPTION_ID)};
      assert buffer[..at] == old(buffer[..at]) + EncodeProperty(Property(SUBSCRIPTION_ID, Num(value)));
    }

    /** A key and a value: the one property that may repeat, so it asks about no bit and sets none. */
    method UserProperty(key: seq<byte>, value: seq<byte>, kind: Option<byte>) returns (r: Result<(), BuilderError>)
      requires Valid()
      modifies this, buffer
      ensures Performed(Property(USER_PROPERTY, Texts(key, value)), kind, r)
    {
      hide FieldOf, AllowedIn;
      if |key| == 0 || |value| == 0 || |key| > 0xFFFF || |value| > 0xFFFF {
        return Err(BadValue);
      }
      if kind.Some? && USER_PROPERTY !in AllowedIn(kind.value) {
        return Err(NotAllowedInPacket);
      }
      var needed := |key| + |value| + 5;
      if buffer.Length - at < needed {
        return Err(NoMemory);
      }
      if at + needed > REMAINING_LENGTH_INVALID {
        return Err(TooLong);
      }
      Put(USER_PROPERTY, Str(key) + Str(value), {});
      assert old(buffer[..at]) + [USER_PROPERTY] + (Str(key) + Str(value))
          == old(buffer[..at]) + EncodeProperty(Property(USER_PROPERTY, Texts(key, value)));
      return Ok(());
    }
  }

  // ---- whole runs ----------------------------------------------------------

  datatype Call = Call(p: Property, kind: Option<byte>)

  predicate AllTyped(calls: seq<Call>) {
    forall i :: 0 <= i < |calls| ==> Typed(calls[i].p)
  }

  /** The state after any list of adder calls, refused ones included, from any state. */
  function Run(capacity: nat, from: State, calls: seq<Call>): State
    requires AllTyped(calls)
    decreases |calls|
  {
    if calls == [] then from
    else Run(capacity, Add(capacity, from, calls[0].p, calls[0].kind), calls[1..])
  }

  /** The properties whose call was accepted, in order. */
  function Kept(capacity: nat, from: State, calls: seq<Call>): seq<Property>
    requires AllTyped(calls)
    decreases |calls|
  {
    if calls == [] then []
    else
      var c := calls[0];
      var next := Add(capacity, from, c.p, c.kind);
      (if AdderVerdict(capacity, from, c.p, c.kind).Ok? then [c.p] else []) + Kept(capacity, next, calls[1..])
  }

  function FieldSet(ps: seq<Property>): set<nat> {
    set i | 0 <= i < |ps| && ps[i].id != USER_PROPERTY :: FieldOf(ps[i].id)
  }

  /** Nothing but the user property repeats, and authentication data only follows a method. */
  predicate WellBuilt(ps: seq<Property>) {
    && (forall i, j :: 0 <= i < j < |ps| && ps[i].id == ps[j].id ==> ps[i].id == USER_PROPERTY)
    && (forall j :: 0 <= j < |ps| && ps[j].id == AUTH_DATA ==> exists i :: 0 <= i < j && ps[i].id == AUTH_METHOD)
  }

  /** What is true of a section under construction: `ps` is what has been added since `base`. */
  predicate Built(capacity: nat, base: seq<byte>, ps: seq<Property>, st: State) {
    && AllValid(ps) && WellBuilt(ps)
    && st.section == base + EncodeSection(ps) && |st.section| <= capacity && st.fields == FieldSet(ps)
    && (forall i :: 0 <= i < |ps| ==> HasAdder(ps[i].id))
  }

  /** The values the adders let pass: no empty text, no zero where the standard has none, no wildcard to answer to. */
  predicate Addable(ps: seq<Property>, p: Property) {
    match p.value
    case Num(n) => (p.id in {0x0B, 0x21, 0x23, 0x27} ==> n > 0) && (p.id == 0x0B ==> n <= 268_435_455)
    case Text(s) =>
      && 0 < |s| <= 65_535
      && (p.id == 0x16 ==> exists i :: 0 <= i < |ps| && ps[i].id == 0x15)
      && (p.id == 0x08 ==> '#' as int !in s && '+' as int !in s)
    case Texts(k, s) => 0 < |k| <= 65_535 && 0 < |s| <= 65_535
  }

  /**
   * What an adder answers, by what has been added before: a value refused, a repeat, a property the packet may not
   * carry, or no room; and nothing else stops it.
   */
  lemma AdderExact(capacity: nat, ps: seq<Property>, st: State, p: Property, kind: Option<byte>)
    requires Built(capacity, [], ps, st) && Typed(p) && capacity < REMAINING_LENGTH_INVALID
    ensures AdderVerdict(capacity, st, p, kind)
         == if !Addable(ps, p) then Err(BadValue)
            else if p.id != 0x26 && exists i :: 0 <= i < |ps| && ps[i].id == p.id then Err(AlreadySet)
            else if kind.Some? && p.id !in AllowedIn(kind.value) then Err(NotAllowedInPacket)
            else if ValidProperty(p) && |EncodeSection(ps)| + |EncodeProperty(p)| > capacity then Err(NoMemory)
            else Ok(())
  {
    hide AllowedIn, EncodeProperty, EncodeSection, FieldOf, WellBuilt;
    HasField(ps, AUTH_METHOD);
    if p.id != USER_PROPERTY {
      HasField(ps, p.id);
    }
    assert st.section == EncodeSection(ps);
    if Addable(ps, p) {
      GoodValueIsValid(st.fields, p);
    }
  }

  /** A bit is set exactly when its property is there. */
  lemma HasField(ps: seq<Property>, id: byte)
    requires AllValid(ps) && WidthOf(id).Some? && id != USER_PROPERTY
    ensures FieldOf(id) in FieldSet(ps) <==> exists i :: 0 <= i < |ps| && ps[i].id == id
  {
    hide FieldOf, WidthOf;
    if FieldOf(id) in FieldSet(ps) {
      var i :| 0 <= i < |ps| && ps[i].id != USER_PROPERTY && FieldOf(ps[i].id) == FieldOf(id);
      assert ValidProperty(ps[i]);
      FieldOfIsInjective(ps[i].id, id);
    }
  }

  /** Which buffers a builder may be put over. */
  lemma ResumeExact(length: nat, at: nat)
    ensures ResumeVerdict(length, at).Ok? <==> at <= length && 0 < length <= 268_435_455
    ensures ResumeVerdict(length, at) == Err(Empty) <==> length == 0 && at == 0
    ensures ResumeVerdict(length, at).Err? && length > 0 ==> ResumeVerdict(length, at) == Err(TooLong)
  {
  }

  lemma FieldSetAppend(ps: seq<Property>, p: Property)
    ensures FieldSet(ps + [p]) == FieldSet(ps) + Bits(p)
  {
    hide FieldOf;
    var all := ps + [p];
    assert all[|ps|] == p && forall i :: 0 <= i < |ps| ==> all[i] == ps[i];
    forall f | f in FieldSet(ps) + Bits(p)
      ensures f in FieldSet(all)
    {
      if f in FieldSet(ps) {
        var i :| 0 <= i < |ps| && ps[i].id != USER_PROPERTY && f == FieldOf(ps[i].id);
        assert all[i] == ps[i];
      }
    }
  }

  lemma WellBuiltAppend(ps: seq<Property>, p: Property)
    requires WellBuilt(ps)
    requires forall i :: 0 <= i < |ps| && ps[i].id == p.id ==> p.id == USER_PROPERTY
    requires p.id == AUTH_DATA ==> exists i :: 0 <= i < |ps| && ps[i].id == AUTH_METHOD
    ensures WellBuilt(ps + [p])
  {
    var all := ps + [p];
    forall j | 0 <= j < |all| && all[j].id == AUTH_DATA
      ensures exists i :: 0 <= i < j && all[i].id == AUTH_METHOD
    {
      var i :| 0 <= i < |ps| && i < j && ps[i].id == AUTH_METHOD;
      assert all[i] == ps[i];
    }
  }

  /** An accepted call repeats nothing, and data has its method. */
  lemma AcceptedFits(capacity: nat, ps: seq<Property>, st: State, c: Call)
    requires AllValid(ps) && WellBuilt(ps) && st.fields == FieldSet(ps)
    requires Typed(c.p) && AdderVerdict(capacity, st, c.p, c.kind).Ok?
    requires forall i :: 0 <= i < |ps| ==> HasAdder(ps[i].id)
    ensures WellBuilt(ps + [c.p])
  {
    hide FieldOf, AllowedIn, WidthOf, EncodeValue, EncodeProperty, Typed, BadValueFor;
    forall i | 0 <= i < |ps| && ps[i].id != USER_PROPERTY
      ensures FieldOf(ps[i].id) in st.fields
    {
      assert FieldOf(ps[i].id) in FieldSet(ps);
    }
    if c.p.id == AUTH_DATA {
      DataNeedsMethod(st.fields, c.p);
      var i :| 0 <= i < |ps| && ps[i].id != USER_PROPERTY && FieldOf(ps[i].id) == FieldOf(AUTH_METHOD);
      AdderIsProperty(ps[i].id);
      AdderIsProperty(AUTH_METHOD);
      FieldOfIsInjective(ps[i].id, AUTH_METHOD);
    }
    WellBuiltAppend(ps, c.p);
  }

  lemma AddPrints(capacity: nat, base: seq<byte>, ps: seq<Property>, st: State, c: Call)
    requires AllValid(ps) && st.section == base + EncodeSection(ps)
    requires Typed(c.p) && AdderVerdict(capacity, st, c.p, c.kind).Ok?
    ensures var next := Add(capacity, st, c.p, c.kind);
            AllValid(ps + [c.p]) && next.section == base + EncodeSection(ps + [c.p]) && |next.section| <= capacity
  {
    hide AllowedIn, Typed, EncodeProperty, BadValueFor, ValidProperty, EncodeSection, FieldOf;
    GoodValueIsValid(st.fields, c.p);
    EncodeOne(c.p);
    EncodeAppend(ps, [c.p]);
    var one := EncodeProperty(c.p);
    assert st.section + one == base + (EncodeSection(ps) + one);
  }

  /** One accepted call keeps the section well built. */
  lemma AddKeepsBuilt(capacity: nat, base: seq<byte>, ps: seq<Property>, st: State, c: Call)
    requires Built(capacity, base, ps, st) && Typed(c.p) && AdderVerdict(capacity, st, c.p, c.kind).Ok?
    ensures Built(capacity, base, ps + [c.p], Add(capacity, st, c.p, c.kind))
  {
    hide FieldSet, EncodeProperty, HasAdder, AdderVerdict, WellBuilt, AllValid, EncodeSection, Bits;
    AcceptedFits(capacity, ps, st, c);
    AddPrints(capacity, base, ps, st, c);
    FieldSetAppend(ps, c.p);
    assert HasAdder(c.p.id);
  }

  lemma DataNeedsMethod(fields: set<nat>, p: Property)
    requires Typed(p) && !BadValueFor(fields, p) && p.id == AUTH_DATA
    ensures FieldOf(AUTH_METHOD) in fields
  {
  }

  lemma AdderIsProperty(id: byte)
    requires HasAdder(id)
    ensures WidthOf(id).Some?
  {
  }

  /**
   * Over every run of adder calls, refusals included: the section is the base and the kept properties printed,
   * the bits are exactly theirs, none repeats, data follows its method, and the buffer is never overrun.
   */
  lemma {:induction false} RunStaysBuilt(capacity: nat, base: seq<byte>, ps: seq<Property>, from: State,
                                         calls: seq<Call>)
    requires AllTyped(calls) && Built(capacity, base, ps, from)
    ensures Built(capacity, base, ps + Kept(capacity, from, calls), Run(capacity, from, calls))
    decreases |calls|
  {
    hide Typed, Built, AdderVerdict;
    if calls == [] {
      assert ps + [] == ps;
    } else {
      var c := calls[0];
      var next := Add(capacity, from, c.p, c.kind);
      if AdderVerdict(capacity, from, c.p, c.kind).Ok? {
        AddKeepsBuilt(capacity, base, ps, from, c);
        RunStaysBuilt(capacity, base, ps + [c.p], next, calls[1..]);
        assert ps + ([c.p] + Kept(capacity, next, calls[1..])) == ps + [c.p] + Kept(capacity, next, calls[1..]);
      } else {
        RunStaysBuilt(capacity, base, ps, next, calls[1..]);
        assert [] + Kept(capacity, next, calls[1..]) == Kept(capacity, next, calls[1..]);
      }
    }
  }

  lemma FreshIsBuilt(capacity: nat)
    ensures Built(capacity, [], [], FRESH)
  {
  }

  /** From `new`: the section of every run is a whole, well-built property list that the bits describe. */
  lemma RunFromNew(capacity: nat, calls: seq<Call>)
    requires AllTyped(calls)
    ensures var ps, st := Kept(capacity, FRESH, calls), Run(capacity, FRESH, calls);
            && AllValid(ps) && WellBuilt(ps) && st.section == EncodeSection(ps)
            && st.fields == FieldSet(ps) && |st.section| <= capacity && ParseSection(st.section) == Some(ps)
  {
    hide Typed, FieldSet, Kept, Run, ValidProperty, WellBuilt, EncodeSection, ParseSection;
    var ps, st := Kept(capacity, FRESH, calls), Run(capacity, FRESH, calls);
    assert Built(capacity, [], [], FRESH) by { FreshIsBuilt(capacity); }
    RunStaysBuilt(capacity, [], [], FRESH, calls);
    assert [] + ps == ps;
    assert [] + EncodeSection(ps) == EncodeSection(ps);
    SectionExact(st.section, ps);
  }

  /** The second size limit never speaks: in a buffer `new` accepts, the first one already has. */
  lemma TooLongIsUnreachable(capacity: nat, st: State, p: Property, kind: Option<byte>)
    requires capacity < REMAINING_LENGTH_INVALID && Typed(p)
    ensures AdderVerdict(capacity, st, p, kind) != Err(TooLong)
  {
  }
}
