/**
 * The separately written property walks, each a loop over a reader with its own table, its own rule
 * about repeats and its own value checks, and the one grammar they all read.
 */
module Walks {
  import opened Bytes
  import opened Header
  import opened Grammar
  import opened Reader

  datatype Refusal = BadParameter | BadResponse

  /** One constructor per walk of the source, with the setting its value rules consult. */
  datatype Walker =
    | Connack(requestResponseInfo: bool)
    | Ack
    | PublishAck
    | IncomingDisconnect
    | OutgoingDisconnect(connectSessionExpiry: u32)
    | IncomingPublish(topicAliasMax: u16)
    | Context

  /** The identifiers a walk reads; any other is refused. */
  function Allowed(w: Walker): set<byte> {
    match w
    case Connack(_) => {SESSION_EXPIRY, RECEIVE_MAX, MAX_QOS, RETAIN_AVAILABLE, MAX_PACKET_SIZE,
                        ASSIGNED_CLIENT_ID, TOPIC_ALIAS_MAX, REASON_STRING, USER_PROPERTY, WILDCARD_AVAILABLE,
                        SUBSCRIPTION_ID_AVAILABLE, SHARED_SUB_AVAILABLE, SERVER_KEEP_ALIVE, RESPONSE_INFO,
                        SERVER_REFERENCE, AUTH_METHOD, AUTH_DATA}
    case Ack => {REASON_STRING, USER_PROPERTY}
    case PublishAck => {REASON_STRING, USER_PROPERTY}
    case IncomingDisconnect => {REASON_STRING, SERVER_REFERENCE, USER_PROPERTY}
    case OutgoingDisconnect(_) => {SESSION_EXPIRY, REASON_STRING, USER_PROPERTY}
    case IncomingPublish(_) => {PAYLOAD_FORMAT, TOPIC_ALIAS, RESPONSE_TOPIC, CORRELATION_DATA, MESSAGE_EXPIRY,
                                CONTENT_TYPE, SUBSCRIPTION_ID, USER_PROPERTY}
    case Context => {SESSION_EXPIRY, RECEIVE_MAX, MAX_PACKET_SIZE, TOPIC_ALIAS_MAX, REQUEST_PROBLEM,
                     REQUEST_RESPONSE, AUTH_DATA, AUTH_METHOD, USER_PROPERTY}
  }

  /** The identifiers whose repeat a walk refuses: not every walk guards everything it reads. */
  function Once(w: Walker): set<byte> {
    match w
    case OutgoingDisconnect(_) => {}
    case Context => {SESSION_EXPIRY, RECEIVE_MAX, MAX_PACKET_SIZE, TOPIC_ALIAS_MAX}
    case IncomingPublish(_) => Allowed(w) - {SUBSCRIPTION_ID, USER_PROPERTY}
    case _ => Allowed(w) - {USER_PROPERTY}
  }

  /** The CONNACK properties that must be 0 or 1. */
  const Flags: set<byte> :=
    {MAX_QOS, RETAIN_AVAILABLE, WILDCARD_AVAILABLE, SUBSCRIPTION_ID_AVAILABLE, SHARED_SUB_AVAILABLE}

  /** The values a walk refuses after reading them. */
  predicate ValueOk(w: Walker, p: Property) {
    match w
    case Connack(wanted) =>
      && (p.id in {RECEIVE_MAX, MAX_PACKET_SIZE} && p.value.Num? ==> p.value.n != 0)
      && (p.id in Flags && p.value.Num? ==> p.value.n <= 1)
      && (p.id == RESPONSE_INFO ==> wanted)
    case OutgoingDisconnect(expiry) => p.id == SESSION_EXPIRY && p.value.Num? && expiry == 0 ==> p.value.n == 0
    case IncomingPublish(max) =>
      && (p.id == PAYLOAD_FORMAT && p.value.Num? ==> p.value.n <= 1)
      && (p.id == TOPIC_ALIAS && p.value.Num? ==> 0 < p.value.n <= max)
    case _ => true
  }

  /** A foreign identifier and a refused value: the one status two of the walks answer differently. */
  function Complaint(w: Walker): Refusal {
    if w.PublishAck? || w.OutgoingDisconnect? || w.Context? then BadParameter else BadResponse
  }

  datatype Walk = Accepted(ps: seq<Property>) | Refused(why: Refusal)

  /** What the walk answers from here on, given the identifiers it has already met. */
  function WalkFrom(w: Walker, s: seq<byte>, seen: set<byte>): Walk {
    if s == [] then Accepted([])
    else if s[0] !in Allowed(w) then Refused(Complaint(w))
    else match ParseProperty(s)
         case None => Refused(BadResponse)
         case Some(Parsed(p, n)) =>
           if n > |s| || (p.id in Once(w) && p.id in seen) then Refused(BadResponse)
           else if !ValueOk(w, p) then Refused(Complaint(w))
           else match WalkFrom(w, s[n..], seen + {p.id})
                case Accepted(ps) => Accepted([p] + ps)
                case refused => refused
  }

  function WalkSection(w: Walker, s: seq<byte>): Walk {
    WalkFrom(w, s, {})
  }

  /** What a walk means: its table, its value rules, and no repeat of anything it guards. */
  predicate Legal(w: Walker, ps: seq<Property>, seen: set<byte>) {
    && (forall i :: 0 <= i < |ps| ==> ps[i].id in Allowed(w) && ValueOk(w, ps[i]))
    && (forall i :: 0 <= i < |ps| && ps[i].id in Once(w) ==> ps[i].id !in seen)
    && (forall i, j :: 0 <= i < j < |ps| && ps[i].id in Once(w) ==> ps[i].id != ps[j].id)
  }

  lemma LegalUncons(w: Walker, all: seq<Property>, seen: set<byte>)
    requires all != [] && Legal(w, all, seen)
    ensures all[0].id in Allowed(w) && ValueOk(w, all[0]) && !(all[0].id in Once(w) && all[0].id in seen)
    ensures Legal(w, all[1..], seen + {all[0].id})
  {
    hide Allowed, Once, ValueOk;
    var ps := all[1..];
    forall i | 0 <= i < |ps|
      ensures ps[i].id in Allowed(w) && ValueOk(w, ps[i])
      ensures ps[i].id in Once(w) ==> ps[i].id !in seen + {all[0].id}
    {
      assert all[i + 1] == ps[i];
    }
  }

  lemma LegalCons(w: Walker, p: Property, ps: seq<Property>, seen: set<byte>)
    requires p.id in Allowed(w) && ValueOk(w, p) && !(p.id in Once(w) && p.id in seen)
    requires Legal(w, ps, seen + {p.id})
    ensures Legal(w, [p] + ps, seen)
  {
    hide Allowed, Once, ValueOk;
    var all := [p] + ps;
    forall i | 0 <= i < |all|
      ensures all[i].id in Allowed(w) && ValueOk(w, all[i])
      ensures all[i].id in Once(w) ==> all[i].id !in seen
    {
      assert i > 0 ==> all[i] == ps[i - 1];
    }
    forall i, j | 0 <= i < j < |all| && all[i].id in Once(w)
      ensures all[i].id != all[j].id
    {
      assert all[j] == ps[j - 1] && (i > 0 ==> all[i] == ps[i - 1]);
    }
  }

  /** A walk accepts a section if and only if it is a whole property list its rules allow. */
  lemma {:induction false} WalkExact(w: Walker, s: seq<byte>, seen: set<byte>, ps: seq<Property>)
    ensures WalkFrom(w, s, seen) == Accepted(ps) <==> ParseSection(s) == Some(ps) && Legal(w, ps, seen)
    decreases |s|
  {
    hide Allowed, Once, ValueOk, ParseProperty, Legal;
    if s == [] {
      assert Legal(w, [], seen) by { EmptyLegal(w, seen); }
    } else if ParseProperty(s).Some? {
      var p, n := ParseProperty(s).value.item, ParseProperty(s).value.size;
      ParsedId(s);
      if n <= |s| {
        var rest := if ps == [] then [] else ps[1..];
        WalkExact(w, s[n..], seen + {p.id}, rest);
        if WalkFrom(w, s, seen) == Accepted(ps) {
          LegalCons(w, p, rest, seen);
        }
        if ParseSection(s) == Some(ps) && Legal(w, ps, seen) {
          LegalUncons(w, ps, seen);
        }
        assert ps != [] ==> ps == [ps[0]] + rest;
      }
    }
  }

  lemma EmptyLegal(w: Walker, seen: set<byte>)
    ensures Legal(w, [], seen)
  {
  }

  lemma ParsedId(s: seq<byte>)
    requires ParseProperty(s).Some?
    ensures s != [] && ParseProperty(s).value.item.id == s[0]
  {
  }

  // ---- the walks themselves ----------------------------------------------

  /** What the loop of a walk answers: nothing, or the refusal. */
  function Answer(walk: Walk): Result<(), Refusal> {
    match walk
    case Accepted(_) => Ok(())
    case Refused(why) => Err(why)
  }

  function Prepend(ps: seq<Property>, walk: Walk): Walk {
    match walk
    case Accepted(qs) => Accepted(ps + qs)
    case refused => refused
  }

  /** What the walk answers when the read primitive has read `read` after the identifier. */
  function AfterRead(w: Walker, s: seq<byte>, seen: set<byte>, read: Option<Parsed<Value>>): Walk
    requires s != []
  {
    if read.None? || read.value.size >= |s| || (s[0] in Once(w) && s[0] in seen) then Refused(BadResponse)
    else if !ValueOk(w, Property(s[0], read.value.item)) then Refused(Complaint(w))
    else Prepend([Property(s[0], read.value.item)], WalkFrom(w, s[1..][read.value.size..], seen + {s[0]}))
  }

  /** One turn of any walk: a foreign identifier, or what its read primitive makes of it. */
  lemma Turn(w: Walker, s: seq<byte>, seen: set<byte>)
    requires s != [] && (s[0] in Allowed(w) ==> WidthOf(s[0]).Some?)
    ensures WalkFrom(w, s, seen)
         == if s[0] !in Allowed(w) then Refused(Complaint(w))
            else AfterRead(w, s, seen, ParseValue(WidthOf(s[0]).value, s[1..]))
  {
    hide Allowed, Once, ValueOk, ParseValue, ParseProperty, WidthOf, Complaint;
    if s[0] in Allowed(w) {
      ReadThenStep(s);
    }
  }

  lemma ReadThenStep(s: seq<byte>)
    requires s != [] && WidthOf(s[0]).Some?
    ensures var read := ParseValue(WidthOf(s[0]).value, s[1..]);
            && ParseProperty(s) == (if read.None? then None
                                    else Some(Parsed(Property(s[0], read.value.item), read.value.size + 1)))
            && (read.Some? ==> read.value.size < |s| && s[read.value.size + 1..] == s[1..][read.value.size..])
  {
    hide ParseValue, WidthOf, EncodeValue, FitsWidth;
    if ParseValue(WidthOf(s[0]).value, s[1..]).Some? {
      EncodedOfParsedValue(WidthOf(s[0]).value, s[1..]);
    }
  }

  /** `walk_ack_properties`. */
  method WalkAckProperties(properties: seq<byte>) returns (r: Result<(), Refusal>)
    requires |properties| <= U32_MAX
    ensures r == Answer(WalkSection(Ack, properties))
  {
    hide WalkFrom, ParseValue;
    var reader := new PropertyReader(properties, |properties|);
    var reasonStringSeen := false;
    ghost var seen: set<byte> := {};
    while reader.remaining > 0
      invariant reader.Whole() && (reasonStringSeen <==> REASON_STRING in seen)
      invariant Answer(WalkSection(Ack, properties)) == Answer(WalkFrom(Ack, reader.Rest(), seen))
      decreases reader.remaining
    {
      ghost var here := reader.Rest();
      Turn(Ack, here, seen);
      var id := reader.PropertyId();
      assert reader.Rest() == here[1..];
      if id.value == REASON_STRING {
        var v := reader.Utf8(reasonStringSeen);
        if v.None? {
          return Err(BadResponse);
        }
        reasonStringSeen := true;
      } else if id.value == USER_PROPERTY {
        var v := reader.UserProperty();
        if v.None? {
          return Err(BadResponse);
        }
      } else {
        return Err(BadResponse);
      }
      seen := seen + {id.value};
    }
    EmptyWalk(Ack, reader.Rest(), seen);
    return Ok(());
  }

  /** `walk_incoming_properties`: what a broker's DISCONNECT may carry. */
  method WalkIncomingProperties(properties: seq<byte>) returns (r: Result<(), Refusal>)
    requires |properties| <= U32_MAX
    ensures r == Answer(WalkSection(IncomingDisconnect, properties))
  {
    hide WalkFrom, ParseValue;
    var reader := new PropertyReader(properties, |properties|);
    var reasonString, serverReference := false, false;
    ghost var seen: set<byte> := {};
    while reader.remaining > 0
      invariant reader.Whole()
      invariant (reasonString <==> REASON_STRING in seen) && (serverReference <==> SERVER_REFERENCE in seen)
      invariant Answer(WalkSection(IncomingDisconnect, properties))
             == Answer(WalkFrom(IncomingDisconnect, reader.Rest(), seen))
      decreases reader.remaining
    {
      ghost var here := reader.Rest();
      Turn(IncomingDisconnect, here, seen);
      var id := reader.PropertyId();
      assert reader.Rest() == here[1..];
      if id.value == REASON_STRING {
        var v := reader.Utf8(reasonString);
        if v.None? {
          return Err(BadResponse);
        }
        reasonString := true;
      } else if id.value == SERVER_REFERENCE {
        var v := reader.Utf8(serverReference);
        if v.None? {
          return Err(BadResponse);
        }
        serverReference := true;
      } else if id.value == USER_PROPERTY {
        var v := reader.UserProperty();
        if v.None? {
          return Err(BadResponse);
        }
      } else {
        return Err(BadResponse);
      }
      seen := seen + {id.value};
    }
    EmptyWalk(IncomingDisconnect, reader.Rest(), seen);
    return Ok(());
  }

  /**
   * `validate_publish_ack_properties`: the same table as the incoming walk, another status for a stranger and for a
   * section longer than a packet can be.
   */
  method ValidatePublishAckProperties(properties: seq<byte>) returns (r: Result<(), Refusal>)
    ensures r == if |properties| >= REMAINING_LENGTH_INVALID then Err(BadParameter)
                 else Answer(WalkSection(PublishAck, properties))
  {
    hide WalkFrom, WalkSection;
    WalkStart(PublishAck, properties);
    if |properties| >= REMAINING_LENGTH_INVALID {
      return Err(BadParameter);
    }
    var reader := new PropertyReader(properties, |properties|);
    var reasonString := false;
    ghost var seen: set<byte> := {};
    while reader.remaining > 0
      invariant reader.Whole() && (reasonString <==> REASON_STRING in seen)
      invariant Answer(WalkSection(PublishAck, properties)) == Answer(WalkFrom(PublishAck, reader.Rest(), seen))
      decreases reader.remaining
    {
      var id;
      r, id := ReadReply(reader, reasonString, seen);
      if r.Err? {
        return;
      }
      reasonString := reasonString || id == REASON_STRING;
      seen := seen + {id};
    }
    EmptyWalk(PublishAck, reader.Rest(), seen);
    return Ok(());
  }

  /** One turn of that loop. */
  method ReadReply(reader: PropertyReader, reasonString: bool, ghost seen: set<byte>)
    returns (r: Result<(), Refusal>, id: byte)
    requires reader.Whole() && reader.remaining > 0 && (reasonString <==> REASON_STRING in seen)
    modifies reader
    ensures r.Err? ==> Answer(WalkFrom(PublishAck, old(reader.Rest()), seen)) == r
    ensures r.Ok? ==>
              && reader.Whole() && reader.remaining < old(reader.remaining)
              && Answer(WalkFrom(PublishAck, old(reader.Rest()), seen))
                 == Answer(WalkFrom(PublishAck, reader.Rest(), seen + {id}))
  {
    hide WalkFrom, ParseValue;
    ghost var here := reader.Rest();
    Turn(PublishAck, here, seen);
    var identifier := reader.PropertyId();
    assert reader.Rest() == here[1..];
    id := identifier.value;
    r := Ok(());
    if id == REASON_STRING {
      var v := reader.Utf8(reasonString);
      if v.None? {
        return Err(BadResponse), id;
      }
    } else if id == USER_PROPERTY {
      var v := reader.UserProperty();
      if v.None? {
        return Err(BadResponse), id;
      }
    } else {
      return Err(BadParameter), id;
    }
  }

  /** What the rest of an outgoing walk answers once the value at the front has been read. */
  function AfterOutgoing(expiry: u32, s: seq<byte>, seen: set<byte>, read: Option<Parsed<Value>>): Result<(), Refusal>
    requires s != []
  {
    if read.None? || read.value.size >= |s| then Err(BadResponse)
    else if s[0] == SESSION_EXPIRY && expiry == 0 && read.value.item.Num? && read.value.item.n != 0
        then Err(BadParameter)
    else Answer(WalkFrom(OutgoingDisconnect(expiry), s[1..][read.value.size..], seen + {s[0]}))
  }

  lemma OutgoingTurn(expiry: u32, s: seq<byte>, seen: set<byte>)
    requires s != []
    ensures Answer(WalkFrom(OutgoingDisconnect(expiry), s, seen))
         == if s[0] == SESSION_EXPIRY then AfterOutgoing(expiry, s, seen, ParseValue(FourBytes, s[1..]))
            else if s[0] == REASON_STRING then AfterOutgoing(expiry, s, seen, ParseValue(String, s[1..]))
            else if s[0] == USER_PROPERTY then AfterOutgoing(expiry, s, seen, ParseValue(Pair, s[1..]))
            else Err(BadParameter)
  {
    hide WalkFrom, ParseValue;
    Turn(OutgoingDisconnect(expiry), s, seen);
  }

  /** `validate_outgoing_properties`: its repeat flag is declared inside the loop, so it catches nothing. */
  method ValidateOutgoingProperties(connectSessionExpiry: u32, properties: seq<byte>) returns (r: Result<(), Refusal>)
    ensures r == if |properties| > U32_MAX then Err(BadParameter)
                 else Answer(WalkSection(OutgoingDisconnect(connectSessionExpiry), properties))
  {
    hide WalkFrom, WalkSection;
    ghost var w := OutgoingDisconnect(connectSessionExpiry);
    WalkStart(w, properties);
    if |properties| > U32_MAX {
      return Err(BadParameter);
    }
    var reader := new PropertyReader(properties, |properties|);
    ghost var seen: set<byte> := {};
    while reader.remaining > 0
      invariant reader.Whole()
      invariant Answer(WalkSection(w, properties)) == Answer(WalkFrom(w, reader.Rest(), seen))
      decreases reader.remaining
    {
      var id;
      r, id := ReadOutgoing(reader, connectSessionExpiry, seen);
      if r.Err? {
        return;
      }
      seen := seen + {id};
    }
    EmptyWalk(w, reader.Rest(), seen);
    return Ok(());
  }

  /** One turn of that loop: an identifier, and the arm for it. */
  method ReadOutgoing(reader: PropertyReader, connectSessionExpiry: u32, ghost seen: set<byte>)
    returns (r: Result<(), Refusal>, id: byte)
    requires reader.Whole() && reader.remaining > 0
    modifies reader
    ensures r.Err? ==> Answer(WalkFrom(OutgoingDisconnect(connectSessionExpiry), old(reader.Rest()), seen)) == r
    ensures r.Ok? ==>
              && reader.Whole() && reader.remaining < old(reader.remaining)
              && Answer(WalkFrom(OutgoingDisconnect(connectSessionExpiry), old(reader.Rest()), seen))
                 == Answer(WalkFrom(OutgoingDisconnect(connectSessionExpiry), reader.Rest(), seen + {id}))
  {
    hide WalkFrom, ParseValue;
    OutgoingTurn(connectSessionExpiry, reader.Rest(), seen);
    ghost var here := reader.Rest();
    var identifier := reader.PropertyId();
    assert reader.Rest() == here[1..];
    id := identifier.value;
    r := Ok(());
    if id == SESSION_EXPIRY {
      var v := reader.U32(false);
      if v.None? {
        return Err(BadResponse), id;
      }
      if connectSessionExpiry == 0 && v.value != 0 {
        return Err(BadParameter), id;
      }
    } else if id == REASON_STRING {
      var v := reader.Utf8(false);
      if v.None? {
        return Err(BadResponse), id;
      }
    } else if id == USER_PROPERTY {
      var v := reader.UserProperty();
      if v.None? {
        return Err(BadResponse), id;
      }
    } else {
      return Err(BadParameter), id;
    }
  }

  // ---- the CONNECT context, filled as it is walked --------------------------

  /** The fields of the connection properties a CONNECT section can set. */
  class ConnectionProperties {
    var sessionExpiry: u32
    var receiveMax: u16
    var maxPacketSize: u32
    var topicAliasMax: u16

    constructor ()
      ensures Settings() == Limits(0, 0xFFFF, 268_435_460, 0)
    {
      sessionExpiry, receiveMax, maxPacketSize, topicAliasMax := 0, 0xFFFF, 268_435_460, 0;
    }

    function Settings(): Limits
      reads this
    {
      Limits(sessionExpiry, receiveMax, maxPacketSize, topicAliasMax)
    }

    /** `update_with_connect_props`: what was decoded before a refusal stays stored. */
    method UpdateWithConnectProps(properties: seq<byte>) returns (r: Result<(), Refusal>)
      modifies this
      ensures |properties| >= REMAINING_LENGTH_INVALID ==> r == Err(BadParameter) && Settings() == old(Settings())
      ensures |properties| < REMAINING_LENGTH_INVALID ==>
                && r == Answer(WalkSection(Context, properties))
                && Settings() == Store(old(Settings()), Readable(Context, properties, {}))
    {
      hide WalkFrom, Readable, WalkSection, Store, StoreProperty;
      if |properties| >= REMAINING_LENGTH_INVALID {
        return Err(BadParameter);
      }
      var reader := new PropertyReader(properties, |properties|);
      var used := {};
      ghost var done: seq<Property> := [];
      WalkStart(Context, properties);
      StoreNone(Settings());
      while reader.remaining > 0
        invariant reader.Whole()
        invariant Answer(WalkSection(Context, properties)) == Answer(WalkFrom(Context, reader.Rest(), used))
        invariant Readable(Context, properties, {}) == done + Readable(Context, reader.Rest(), used)
        invariant Settings() == Store(old(Settings()), done)
        decreases reader.remaining
      {
        var r, id, p := StoreNext(reader, used);
        if r.Err? {
          assert done + [] == done;
          return r;
        }
        StoreOne(old(Settings()), done, p);
        OneFurther(done, p, Readable(Context, reader.Rest(), used + {id}));
        done := done + [p];
        used := used + {id};
      }
      EmptyWalk(Context, reader.Rest(), used);
      assert done + [] == done;
      return Ok(());
    }

    /** One turn of the loop: an identifier, and the arm for it. */
    method StoreNext(reader: PropertyReader, used: set<byte>)
      returns (r: Result<(), Refusal>, id: byte, ghost p: Property)
      requires reader.Whole() && reader.remaining > 0
      modifies this, reader
      ensures r.Err? ==> Answer(WalkFrom(Context, old(reader.Rest()), used)) == r && Settings() == old(Settings())
                         && Readable(Context, old(reader.Rest()), used) == []
      ensures r.Ok? ==>
                && reader.Whole() && reader.remaining < old(reader.remaining)
                && Answer(WalkFrom(Context, old(reader.Rest()), used))
                   == Answer(WalkFrom(Context, reader.Rest(), used + {id}))
                && Readable(Context, old(reader.Rest()), used) == [p] + Readable(Context, reader.Rest(), used + {id})
                && Settings() == StoreProperty(old(Settings()), p)
    {
      hide WalkFrom, ParseValue, Readable, Allowed, Once, WidthOf, StoreProperty;
      ghost var here := reader.Rest();
      ContextTable(here[0]);
      Turn(Context, here, used);
      ReadableTurn(Context, here, used);
      var identifier := reader.PropertyId();
      assert reader.Rest() == here[1..];
      id := identifier.value;
      ghost var value;
      r, value := ReadContextProperty(reader, id, id in used);
      p := Property(id, value);
    }

    /** One arm: four identifiers are stored, five are decoded to step past; only the four carry a flag. */
    method ReadContextProperty(reader: PropertyReader, id: byte, used: bool)
      returns (r: Result<(), Refusal>, ghost value: Value)
      requires reader.Whole()
      modifies this, reader
      ensures id !in Allowed(Context) ==> r == Err(BadParameter) && Settings() == old(Settings())
      ensures id in Allowed(Context) ==>
                var read := ParseValue(WidthOf(id).value, old(reader.Rest()));
                if read.None? || (id in Once(Context) && used)
                    then r == Err(BadResponse) && Settings() == old(Settings())
                else && r == Ok(()) && value == read.value.item && read.value.size <= |old(reader.Rest())|
                     && reader.Whole() && reader.Rest() == old(reader.Rest())[read.value.size..]
                     && Settings() == StoreProperty(old(Settings()), Property(id, value))
    {
      hide ParseValue;
      r, value := Err(BadResponse), Num(0);
      if id == SESSION_EXPIRY {
        var v := reader.U32(used);
        if v.Some? {
          sessionExpiry, r, value := v.value, Ok(()), Num(v.value);
        }
      } else if id == RECEIVE_MAX {
        var v := reader.U16(used);
        if v.Some? {
          receiveMax, r, value := v.value, Ok(()), Num(v.value);
        }
      } else if id == MAX_PACKET_SIZE {
        var v := reader.U32(used);
        if v.Some? {
          maxPacketSize, r, value := v.value, Ok(()), Num(v.value);
        }
      } else if id == TOPIC_ALIAS_MAX {
        var v := reader.U16(used);
        if v.Some? {
          topicAliasMax, r, value := v.value, Ok(()), Num(v.value);
        }
      } else if id == REQUEST_PROBLEM || id == REQUEST_RESPONSE {
        var v := reader.U8(false);
        if v.Some? {
          r, value := Ok(()), Num(v.value);
        }
      } else if id == AUTH_DATA || id == AUTH_METHOD {
        var v := reader.Utf8(false);
        if v.Some? {
          r, value := Ok(()), Text(v.value);
        }
      } else if id == USER_PROPERTY {
        var v := reader.UserProperty();
        if v.Some? {
          r, value := Ok(()), Texts(v.value.0, v.value.1);
        }
      } else {
        r := Err(BadParameter);
      }
    }
  }

  lemma OneFurther(done: seq<Property>, p: Property, rest: seq<Property>)
    ensures done + ([p] + rest) == done + [p] + rest
  {
  }

  lemma ContextTable(id: byte)
    ensures id in Allowed(Context) ==> WidthOf(id).Some?
  {
  }

  datatype Limits = Limits(sessionExpiry: u32, receiveMax: u16, maxPacketSize: u32, topicAliasMax: u16)

  /** One property's effect on the limits: four identifiers are stored, the others are dropped. */
  function StoreProperty(l: Limits, p: Property): Limits {
    if !p.value.Num? then l
    else if p.id == SESSION_EXPIRY then l.(sessionExpiry := p.value.n)
    else if p.id == RECEIVE_MAX && p.value.n < 0x1_0000 then l.(receiveMax := p.value.n)
    else if p.id == MAX_PACKET_SIZE then l.(maxPacketSize := p.value.n)
    else if p.id == TOPIC_ALIAS_MAX && p.value.n < 0x1_0000 then l.(topicAliasMax := p.value.n)
    else l
  }

  function Store(l: Limits, ps: seq<Property>): Limits {
    if ps == [] then l else StoreProperty(Store(l, ps[..|ps| - 1]), ps[|ps| - 1])
  }

  lemma StoreOne(l: Limits, ps: seq<Property>, p: Property)
    ensures Store(l, ps + [p]) == StoreProperty(Store(l, ps), p)
  {
    assert (ps + [p])[..|ps|] == ps;
  }

  /** The properties a walk reads before it stops, whether it accepts in the end or not. */
  function Readable(w: Walker, s: seq<byte>, seen: set<byte>): seq<Property> {
    if s == [] || s[0] !in Allowed(w) then []
    else match ParseProperty(s)
         case None => []
         case Some(Parsed(p, n)) =>
           if n > |s| || (p.id in Once(w) && p.id in seen) then []
           else [p] + (if ValueOk(w, p) then Readable(w, s[n..], seen + {p.id}) else [])
  }

  lemma ReadableTurn(w: Walker, s: seq<byte>, seen: set<byte>)
    requires s != [] && (s[0] in Allowed(w) ==> WidthOf(s[0]).Some?)
    ensures Readable(w, s, seen) ==
            if s[0] !in Allowed(w) then []
            else var read := ParseValue(WidthOf(s[0]).value, s[1..]);
              if read.None? || read.value.size >= |s| || (s[0] in Once(w) && s[0] in seen) then []
              else [Property(s[0], read.value.item)]
                   + (if ValueOk(w, Property(s[0], read.value.item))
                      then Readable(w, s[1..][read.value.size..], seen + {s[0]}) else [])
  {
    hide Allowed, Once, ValueOk, ParseValue, ParseProperty, WidthOf;
    if s[0] in Allowed(w) {
      ReadThenStep(s);
    }
  }

  /** A walk that accepts read exactly the section's own properties. */
  lemma {:induction false} ReadableOfAccepted(w: Walker, s: seq<byte>, seen: set<byte>)
    requires WalkFrom(w, s, seen).Accepted?
    ensures WalkFrom(w, s, seen).ps == Readable(w, s, seen)
    decreases |s|
  {
    hide Allowed, Once, ValueOk;
    if s != [] {
      var p, n := ParseProperty(s).value.item, ParseProperty(s).value.size;
      ReadableOfAccepted(w, s[n..], seen + {p.id});
    }
  }

  /** The number the last property with this identifier carries, or what was there before when there is none. */
  function Setting(ps: seq<Property>, id: byte, before: u32): u32 {
    if ps == [] then before
    else if ps[|ps| - 1].id == id && ps[|ps| - 1].value.Num? then ps[|ps| - 1].value.n
    else Setting(ps[..|ps| - 1], id, before)
  }

  lemma SettingsAppend(ps: seq<Property>, p: Property, before: u32)
    ensures forall id: byte :: Setting(ps + [p], id, before)
                            == if p.id == id && p.value.Num? then p.value.n else Setting(ps, id, before)
  {
    assert (ps + [p])[..|ps|] == ps;
  }

  /** Where nothing repeats, a setting is its one occurrence. */
  lemma {:induction false} SettingIsTheOccurrence(ps: seq<Property>, i: nat, before: u32)
    requires i < |ps| && ps[i].value.Num? && (forall j :: 0 <= j < |ps| && ps[j].id == ps[i].id ==> j == i)
    ensures Setting(ps, ps[i].id, before) == ps[i].value.n
  {
    if i < |ps| - 1 {
      SettingIsTheOccurrence(ps[..|ps| - 1], i, before);
    }
  }

  lemma {:induction false} SettingOfAbsent(ps: seq<Property>, id: byte, before: u32)
    requires forall j :: 0 <= j < |ps| ==> ps[j].id != id
    ensures Setting(ps, id, before) == before
  {
    if ps != [] {
      SettingOfAbsent(ps[..|ps| - 1], id, before);
    }
  }

  /** The limits hold the list's numbers, field by field, and otherwise what they held. */
  predicate Limited(l: Limits, ps: seq<Property>, before: Limits) {
    && l.sessionExpiry == Setting(ps, SESSION_EXPIRY, before.sessionExpiry)
    && l.receiveMax == Setting(ps, RECEIVE_MAX, before.receiveMax)
    && l.maxPacketSize == Setting(ps, MAX_PACKET_SIZE, before.maxPacketSize)
    && l.topicAliasMax == Setting(ps, TOPIC_ALIAS_MAX, before.topicAliasMax)
  }

  /** The limits a list leaves behind are, field by field, the last numbers it carries. */
  lemma {:induction false} StoreReports(l: Limits, ps: seq<Property>)
    requires AllValid(ps)
    ensures Limited(Store(l, ps), ps, l)
  {
    if ps != [] {
      var init, p := ps[..|ps| - 1], ps[|ps| - 1];
      StoreReports(l, init);
      assert ps == init + [p] && ValidProperty(p);
    }
  }

  /** So are those a CONNECT section leaves, whether it is refused in the end or not. */
  lemma LimitsOfSection(l: Limits, s: seq<byte>)
    ensures AllValid(Readable(Context, s, {}))
    ensures Limited(Store(l, Readable(Context, s, {})), Readable(Context, s, {}), l)
  {
    hide Readable, Store;
    ReadableIsValid(Context, s, {});
    StoreReports(l, Readable(Context, s, {}));
  }

  lemma {:induction false} ReadableIsValid(w: Walker, s: seq<byte>, seen: set<byte>)
    ensures AllValid(Readable(w, s, seen))
    decreases |s|
  {
    hide Allowed, Once, ValueOk, ParseProperty, ValidProperty;
    if s != [] && ParseProperty(s).Some? {
      var p, n := ParseProperty(s).value.item, ParseProperty(s).value.size;
      EncodedOfParsed(s);
      if n <= |s| {
        ReadableIsValid(w, s[n..], seen + {p.id});
      }
    }
  }

  /** What a broker sent is never the caller's fault: the four walks over it have one refusal status. */
  lemma {:induction false} BrokersWalk(w: Walker, s: seq<byte>, seen: set<byte>)
    requires w.Connack? || w.Ack? || w.IncomingDisconnect? || w.IncomingPublish?
    ensures WalkFrom(w, s, seen) != Refused(BadParameter)
    decreases |s|
  {
    hide ParseProperty, Once, Allowed, ValueOk;
    if s != [] && ParseProperty(s).Some? && ParseProperty(s).value.size <= |s| {
      BrokersWalk(w, s[ParseProperty(s).value.size..], seen + {ParseProperty(s).value.item.id});
    }
  }

  /**
   * Which status a refusal has: the caller's fault, in the walks over what a caller wrote, is a property that has no
   * business there or a value refused after reading; bytes that are no property, and repeats, are never blamed on it.
   */
  lemma {:induction false} WhoIsBlamed(w: Walker, s: seq<byte>, seen: set<byte>)
    requires w.PublishAck? || w.OutgoingDisconnect? || w.Context?
    ensures var ps := Readable(w, s, seen);
            && AllValid(ps) && EncodeSection(ps) <= s
            && var rest := s[|EncodeSection(ps)|..];
               WalkFrom(w, s, seen) == Refused(BadParameter) <==>
                 || (ps != [] && !ValueOk(w, ps[|ps| - 1]))
                 || (rest != [] && rest[0] !in Allowed(w))
    decreases |s|
  {
    hide Allowed, Once, ValueOk, ParseProperty, ValidProperty, EncodeProperty, EncodeSection, AllValid;
    NoneEncoded();
    if s != [] && s[0] in Allowed(w) && ParseProperty(s).Some? {
      var p, n := ParseProperty(s).value.item, ParseProperty(s).value.size;
      EncodedOfParsed(s);
      ParsedId(s);
      if !(p.id in Once(w) && p.id in seen) {
        var tail := if ValueOk(w, p) then Readable(w, s[n..], seen + {p.id}) else [];
        if ValueOk(w, p) {
          WhoIsBlamed(w, s[n..], seen + {p.id});
        }
        OneMoreRead(p, tail, s, n);
      }
    }
  }

  lemma NoneEncoded()
    ensures AllValid([]) && EncodeSection([]) == []
  {
  }

  lemma OneMoreRead(p: Property, tail: seq<Property>, s: seq<byte>, n: nat)
    requires ValidProperty(p) && AllValid(tail) && n <= |s| && s[..n] == EncodeProperty(p)
    requires EncodeSection(tail) <= s[n..]
    ensures AllValid([p] + tail) && EncodeSection([p] + tail) <= s
    ensures s[|EncodeSection([p] + tail)|..] == s[n..][|EncodeSection(tail)|..]
  {
    hide ValidProperty, EncodeProperty;
    assert ([p] + tail)[1..] == tail;
    assert s == EncodeProperty(p) + s[n..];
  }

  lemma StoreNone(l: Limits)
    ensures Store(l, []) == l
  {
  }

  lemma WalkStart(w: Walker, s: seq<byte>)
    ensures WalkSection(w, s) == WalkFrom(w, s, {})
  {
  }

  lemma EmptyWalk(w: Walker, s: seq<byte>, seen: set<byte>)
    requires s == []
    ensures WalkFrom(w, s, seen) == Accepted([]) && Readable(w, s, seen) == []
  {
  }
}
