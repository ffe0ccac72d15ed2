/** Building a CONNECT, and the packet's meaning as section 3.1 of MQTT Version 5.0 defines it. */
module Connect {
  import opened Bytes
  import opened Header
  import opened Packet
  import opened Wire

  const CONNECT_HEADER_SIZE: u32 := 10
  const MAX_FIELD: nat := 0xFFFF

  datatype QoS = AtMostOnce | AtLeastOnce | ExactlyOnce

  datatype Will = Will(qos: QoS, retain: bool, topicName: seq<byte>, payload: seq<byte>, properties: seq<byte>)

  /** Absent and empty are different for the two credentials and for the will. */
  datatype Connect = Connect(
    cleanSession: bool, keepAliveSeconds: u16, username: Option<seq<byte>>, password: Option<seq<byte>>,
    clientIdentifier: seq<byte>, properties: seq<byte>, will: Option<Will>)

  // ---- the wire form ----------------------------------------------------------

  /** The flags byte: each decision in its own bit, bit 0 clear. */
  function Flags(c: Connect): byte {
    (if c.cleanSession then 2 else 0)
    + (if c.will.Some?
       then 4 + (match c.will.value.qos case AtMostOnce => 0 case AtLeastOnce => 8 case ExactlyOnce => 16)
                            + (if c.will.value.retain then 32 else 0)
       else 0)
    + (if c.password.Some? then 64 else 0)
    + (if c.username.Some? then 128 else 0)
  }

  /** Ten bytes: the protocol name, the version, the flags and the keep alive. */
  function Preamble(c: Connect): (s: seq<byte>)
    ensures |s| == 10
  {
    [0x00, 0x04, 0x4D, 0x51, 0x54, 0x54, 0x05, Flags(c)] + Be16(c.keepAliveSeconds)
  }

  predicate FieldsFit(c: Connect) {
    && |c.clientIdentifier| <= MAX_FIELD
    && (c.username.Some? ==> |c.username.value| <= MAX_FIELD)
    && (c.password.Some? ==> |c.password.value| <= MAX_FIELD)
    && (c.will.Some? ==> |c.will.value.topicName| <= MAX_FIELD && |c.will.value.payload| <= MAX_FIELD)
  }

  predicate SectionsFit(c: Connect) {
    && |c.properties| <= MAX_REMAINING_LENGTH
    && (c.will.Some? ==> |c.will.value.properties| <= MAX_REMAINING_LENGTH)
  }

  function OptionalStr(s: Option<seq<byte>>): seq<byte>
    requires s.Some? ==> |s.value| <= MAX_FIELD
  {
    if s.Some? then Str(s.value) else []
  }

  function WillBytes(w: Option<Will>): seq<byte>
    requires w.Some? ==> |w.value.topicName| <= MAX_FIELD && |w.value.payload| <= MAX_FIELD
  {
    if w.Some? then Section(w.value.properties) + Str(w.value.topicName) + Str(w.value.payload) else []
  }

  function Body(c: Connect): seq<byte>
    requires FieldsFit(c)
  {
    Preamble(c) + Section(c.properties) + Str(c.clientIdentifier) + WillBytes(c.will)
    + OptionalStr(c.username) + OptionalStr(c.password)
  }

  function ConnectPacket(c: Connect, remaining: u32): seq<byte>
    requires FieldsFit(c)
  {
    [CONNECT] + EncodeVar(remaining) + Body(c)
  }

  // ---- the size calculator ------------------------------------------------------

  datatype ConnectSize = ConnectSize(remainingLength: u32, packetSize: u32)

  function FieldCost(length: nat): u32 {
    SaturatingAdd(if length > U32_MAX then U32_MAX else length, 2)
  }

  /** The sum as the source forms it, every addition saturating. */
  function RemainingLength(c: Connect): u32
    requires SectionsFit(c)
  {
    var p := |c.properties|;
    var l0 := SaturatingAdd(SaturatingAdd(SaturatingAdd(CONNECT_HEADER_SIZE, p), SizeVar(p)),
                            FieldCost(|c.clientIdentifier|));
    var l1 := if c.will.None? then l0
              else
                var w := c.will.value;
                var q := |w.properties|;
                SaturatingAdd(SaturatingAdd(SaturatingAdd(SaturatingAdd(l0, q), SizeVar(q)), FieldCost(|w.topicName|)),
                              FieldCost(|w.payload|));
    var l2 := if c.username.None? then l1 else SaturatingAdd(l1, FieldCost(|c.username.value|));
    if c.password.None? then l2 else SaturatingAdd(l2, FieldCost(|c.password.value|))
  }

  /** `connect_packet_size`. A client identifier may not begin with NUL. */
  function ConnectPacketSize(c: Connect): Result<ConnectSize, WireError> {
    if |c.clientIdentifier| > 0 && c.clientIdentifier[0] == 0 then Err(BadParameter)
    else if !FieldsFit(c) || !SectionsFit(c) then Err(BadParameter)
    else if RemainingLength(c) > MAX_REMAINING_LENGTH then Err(BadParameter)
    else Ok(ConnectSize(RemainingLength(c), PacketSize(RemainingLength(c))))
  }

  /** No addition saturates: for every CONNECT whose fields fit, both sums are true lengths. */
  lemma SizeIsExact(c: Connect)
    requires FieldsFit(c) && SectionsFit(c)
    ensures RemainingLength(c) == |Body(c)|
    ensures |Body(c)| <= MAX_REMAINING_LENGTH ==> PacketSize(|Body(c)|) == |ConnectPacket(c, |Body(c)|)|
  {
    hide EncodeVar, SizeVar, Preamble, Str, PacketSize, ConnectPacket, WillBytes;
    SizeVarIsLength(|c.properties|);
    WillLength(c.will);
    if |Body(c)| <= MAX_REMAINING_LENGTH {
      PacketIsSized(c);
    }
  }

  lemma PacketIsSized(c: Connect)
    requires FieldsFit(c) && |Body(c)| <= MAX_REMAINING_LENGTH
    ensures PacketSize(|Body(c)|) == |ConnectPacket(c, |Body(c)|)|
  {
    hide EncodeVar, SizeVar, Body;
    SizeVarIsLength(|Body(c)|);
  }

  lemma WillLength(w: Option<Will>)
    requires w.Some? ==> |w.value.topicName| <= MAX_FIELD && |w.value.payload| <= MAX_FIELD
    requires w.Some? ==> |w.value.properties| <= MAX_REMAINING_LENGTH
    ensures |WillBytes(w)| == if w.None? then 0
                              else |w.value.properties| + SizeVar(|w.value.properties|)
                                   + 2 + |w.value.topicName| + 2 + |w.value.payload|
  {
    if w.Some? {
      SizeVarIsLength(|w.value.properties|);
    }
  }

  /** What the calculator accepts is exactly what can be laid down, and both its numbers are true. */
  lemma SizeAcceptsWhatFits(c: Connect)
    ensures ConnectPacketSize(c).Ok? <==>
              && !(|c.clientIdentifier| > 0 && c.clientIdentifier[0] == 0)
              && FieldsFit(c) && |Body(c)| <= MAX_REMAINING_LENGTH
    ensures ConnectPacketSize(c).Ok? ==>
              && ConnectPacketSize(c).value.remainingLength == |Body(c)|
              && ConnectPacketSize(c).value.packetSize == |ConnectPacket(c, |Body(c)|)|
  {
    if FieldsFit(c) && SectionsFit(c) {
      SizeIsExact(c);
    }
  }

  // ---- the serializer -------------------------------------------------------------

  /** `serialize_connect_fixed_header`. */
  method SerializeConnectFixedHeader(dest: array<byte>, c: Connect, remaining: u32) returns (written: nat)
    modifies dest
    ensures var total := 1 + SizeVar(remaining) + 10;
            if remaining <= MAX_REMAINING_LENGTH && total <= dest.Length then
              && written == total == |[CONNECT] + EncodeVar(remaining) + Preamble(c)|
              && dest[..] == Splice(old(dest[..]), 0, [CONNECT] + EncodeVar(remaining) + Preamble(c))
            else written == 0
  {
    hide EncodeVar, Flags, Preamble;
    var total := 1 + SizeVar(remaining) + 6 + 1 + 1 + 2;
    if dest.Length < total {
      return 0;
    }
    var encoded := WriteFront(dest, CONNECT, remaining);
    if encoded != SizeVar(remaining) {
      return 0;
    }
    Continue(dest, old(dest[..]), 0, [CONNECT] + EncodeVar(remaining), 1 + encoded, Preamble(c));
    return total;
  }

  /** The four lengths the serializer asks about again before anything else. */
  predicate NamesTooLong(c: Connect) {
    || |c.clientIdentifier| > MAX_FIELD
    || (c.username.Some? && |c.username.value| > MAX_FIELD)
    || (c.password.Some? && |c.password.value| > MAX_FIELD)
    || (c.will.Some? && |c.will.value.topicName| > MAX_FIELD)
  }

  /** A field of the will that is too long, in a buffer of `room` bytes that holds everything before it. */
  predicate WillFault(will: Option<Will>, at: nat, room: nat) {
    && will.Some?
    && var w := will.value;
       || |w.properties| > MAX_REMAINING_LENGTH
       || (at + |Section(w.properties)| + 2 + |w.topicName| <= room && |w.payload| > MAX_FIELD)
  }

  /** The serializer gets as far as a field it asks about only in passing, and that field is too long. */
  predicate FaultReached(c: Connect, remaining: u32, room: nat) {
    var header := 1 + SizeVar(remaining) + 10;
    && remaining <= MAX_REMAINING_LENGTH && PacketSize(remaining) <= room && header <= room
    && (|c.properties| > MAX_REMAINING_LENGTH
        || (var at := header + |Section(c.properties)| + 2 + |c.clientIdentifier|;
            at <= room && WillFault(c.will, at, room)))
  }

  /**
   * `serialize_connect`: it succeeds exactly when the fields fit, the given remaining length is a legal one and
   * both the size that length claims and the bytes themselves fit. Then the packet stands at the front of the
   * buffer and nothing after it has changed. A refusal blames the arguments exactly when a length asked about
   * first is wrong, or a wrong one is reached before the buffer runs out.
   */
  method SerializeConnect(dest: array<byte>, c: Connect, remaining: u32) returns (r: Result<nat, WireError>)
    modifies dest
    ensures r.Ok? <==> FieldsFit(c) && SectionsFit(c) && remaining <= MAX_REMAINING_LENGTH
                       && PacketSize(remaining) <= dest.Length && |ConnectPacket(c, remaining)| <= dest.Length
    ensures r.Ok? ==>
            r.value == |ConnectPacket(c, remaining)|
                && dest[..] == Splice(old(dest[..]), 0, ConnectPacket(c, remaining))
    ensures r == Err(BadParameter) <==> NamesTooLong(c) || FaultReached(c, remaining, dest.Length)
    ensures NamesTooLong(c) ==> dest[..] == old(dest[..])
  {
    hide EncodeVar, Preamble, Splice, Str, Section, Body, WillBytes, OptionalStr, PacketSize, WillFault;
    if NamesTooLong(c) {
      return Err(BadParameter);
    }
    if dest.Length < PacketSize(remaining) {
      return Err(NoMemory);
    }
    ghost var before := dest[..];
    if FieldsFit(c) {
      PacketIsDone(c, remaining);
    }
    var at := SerializeConnectFixedHeader(dest, c, remaining);
    if at == 0 {
      FrontIsPart(c, remaining);
      return Err(NoMemory);
    }
    ghost var done := [CONNECT] + EncodeVar(remaining) + Preamble(c);
    r := PutSection(dest, before, done, at, c.properties);
    if r.Err? {
      return;
    }
    done := done + Section(c.properties);
    r := PutString(dest, before, done, r.value, c.clientIdentifier);
    if r.Err? {
      return;
    }
    done := done + Str(c.clientIdentifier);
    r := PutWill(dest, before, done, r.value, c.will);
    if r.Err? {
      return;
    }
    done := done + WillBytes(c.will);
    r := PutOptional(dest, before, done, r.value, c.username);
    if r.Err? {
      return;
    }
    done := done + OptionalStr(c.username);
    r := PutOptional(dest, before, done, r.value, c.password);
  }

  lemma FrontIsPart(c: Connect, remaining: u32)
    ensures FieldsFit(c) && remaining <= MAX_REMAINING_LENGTH ==>
            |ConnectPacket(c, remaining)| >= 1 + SizeVar(remaining) + 10
  {
    hide EncodeVar, SizeVar, Str;
    if remaining <= MAX_REMAINING_LENGTH {
      SizeVarIsLength(remaining);
    }
  }

  lemma PacketIsDone(c: Connect, remaining: u32)
    requires FieldsFit(c)
    ensures ConnectPacket(c, remaining) == [CONNECT] + EncodeVar(remaining) + Preamble(c) + Section(c.properties)
                                    + Str(c.clientIdentifier) + WillBytes(c.will)
                                    + OptionalStr(c.username) + OptionalStr(c.password)
  {
    hide EncodeVar, Preamble, Section, Str, WillBytes, OptionalStr;
  }

  /** The will's section comes before its topic, and its topic before its payload. */
  method PutWill(dest: array<byte>, ghost before: seq<byte>, ghost done: seq<byte>, at: nat, will: Option<Will>)
    returns (r: Result<nat, WireError>)
    requires |before| == dest.Length && at == |done| <= dest.Length && dest[..] == Splice(before, 0, done)
    requires will.Some? ==> |will.value.topicName| <= MAX_FIELD
    modifies dest
    ensures r.Ok? <==>
            && (will.Some? ==> |will.value.payload| <= MAX_FIELD && |will.value.properties| <= MAX_REMAINING_LENGTH)
                       && at + |WillBytes(will)| <= dest.Length
    ensures r.Ok? ==> r.value == at + |WillBytes(will)| && dest[..] == Splice(before, 0, done + WillBytes(will))
    ensures r == Err(BadParameter) <==> WillFault(will, at, dest.Length)
  {
    hide EncodeVar, Section, Str, Splice;
    if will.None? {
      assert done + [] == done;
      return Ok(at);
    }
    var w := will.value;
    r := PutSection(dest, before, done, at, w.properties);
    if r.Err? {
      return;
    }
    ghost var d1 := done + Section(w.properties);
    r := PutString(dest, before, d1, r.value, w.topicName);
    if r.Err? {
      return;
    }
    ghost var d2 := d1 + Str(w.topicName);
    r := PutString(dest, before, d2, r.value, w.payload);
    if r.Ok? {
      ThreePieces(done, Section(w.properties), Str(w.topicName), Str(w.payload));
    }
  }

  lemma ThreePieces(d: seq<byte>, a: seq<byte>, b: seq<byte>, c: seq<byte>)
    ensures d + (a + b + c) == d + a + b + c
  {
  }

  method PutOptional(dest: array<byte>, ghost before: seq<byte>, ghost done: seq<byte>, at: nat, s: Option<seq<byte>>)
    returns (r: Result<nat, WireError>)
    requires |before| == dest.Length && at == |done| <= dest.Length && dest[..] == Splice(before, 0, done)
    requires s.Some? ==> |s.value| <= MAX_FIELD
    modifies dest
    ensures r.Ok? <==> at + |OptionalStr(s)| <= dest.Length
    ensures r.Ok? ==> r.value == at + |OptionalStr(s)| && dest[..] == Splice(before, 0, done + OptionalStr(s))
    ensures r.Err? ==> r == Err(NoMemory)
  {
    if s.None? {
      assert done + [] == done;
      return Ok(at);
    }
    r := PutString(dest, before, done, at, s.value);
  }

  // ---- the reader section 3.1 describes ----------------------------------------------

  function TakeOptional(present: bool, s: seq<byte>): Option<(Option<seq<byte>>, seq<byte>)> {
    if !present then Some((None, s))
    else match TakeString(s)
         case Some((t, rest)) => Some((Some(t), rest))
         case None => None
  }

  /** The will the flags announce: present or not, its quality of service and its retain bit. */
  function TakeWill(flags: byte, s: seq<byte>): Option<(Option<Will>, seq<byte>)> {
    var qos := flags / 8 % 4;
    var retain := flags / 32 % 2 == 1;
    if flags / 4 % 2 == 0 then (if qos == 0 && !retain then Some((None, s)) else None)
    else if qos == 3 then None
    else match TakeSection(s)
         case None => None
         case Some((properties, s1)) =>
           match TakeString(s1)
           case None => None
           case Some((topic, s2)) =>
             match TakeString(s2)
             case None => None
             case Some((payload, s3)) =>
               Some((Some(Will(if qos == 0 then AtMostOnce else if qos == 1 then AtLeastOnce else ExactlyOnce,
                               retain, topic, payload, properties)), s3))
  }

  /** The payload after the preamble, which must be consumed to its last byte. */
  function DecodePayload(flags: byte, keepAlive: u16, s: seq<byte>): Option<Connect> {
    match TakeSection(s)
    case None => None
    case Some((properties, s1)) =>
      match TakeString(s1)
      case None => None
      case Some((clientIdentifier, s2)) =>
        match TakeWill(flags, s2)
        case None => None
        case Some((will, s3)) =>
          match TakeOptional(flags / 128 == 1, s3)
          case None => None
          case Some((username, s4)) =>
            match TakeOptional(flags / 64 % 2 == 1, s4)
            case None => None
            case Some((password, s5)) =>
              if s5 != [] then None
              else Some(Connect(flags / 2 % 2 == 1, keepAlive, username, password, clientIdentifier, properties, will))
  }

  function DecodeConnect(s: seq<byte>): Option<Connect> {
    if |s| == 0 || s[0] != CONNECT then None
    else match DecodeVar(s[1..])
         case None => None
         case Some(n) =>
           var body := s[1..][SizeVar(n)..];
           if SizeVar(n) > |s| - 1 || |body| != n || n < 10 then None
           else if body[..7] != [0x00, 0x04, 0x4D, 0x51, 0x54, 0x54, 0x05] || body[7] % 2 != 0 then None
           else DecodePayload(body[7], Read16(body[8..]), body[10..])
  }

  lemma FlagsDecode(c: Connect)
    ensures var f := Flags(c);
            && f % 2 == 0 && (f / 2 % 2 == 1 <==> c.cleanSession)
            && (f / 128 == 1 <==> c.username.Some?) && (f / 64 % 2 == 1 <==> c.password.Some?)
            && (f / 4 % 2 == 1 <==> c.will.Some?)
            && (f / 32 % 2 == 1 <==> c.will.Some? && c.will.value.retain)
            && f / 8 % 4 == (if c.will.None? || c.will.value.qos.AtMostOnce? then 0
                             else if c.will.value.qos.AtLeastOnce? then 1 else 2)
  {
    var qos := if c.will.None? || c.will.value.qos.AtMostOnce? then 0
               else if c.will.value.qos.AtLeastOnce? then 1 else 2;
    SixFields(if c.cleanSession then 1 else 0, if c.will.Some? then 1 else 0, qos,
              if c.will.Some? && c.will.value.retain then 1 else 0,
              if c.password.Some? then 1 else 0, if c.username.Some? then 1 else 0);
  }

  /** Six decisions packed into one byte come apart again. */
  lemma SixFields(clean: nat, will: nat, qos: nat, retain: nat, password: nat, username: nat)
    requires clean <= 1 && will <= 1 && qos <= 2 && retain <= 1 && password <= 1 && username <= 1
    ensures var f := 2 * clean + 4 * will + 8 * qos + 32 * retain + 64 * password + 128 * username;
            && f % 2 == 0 && f / 2 % 2 == clean && f / 4 % 2 == will && f / 8 % 4 == qos
            && f / 32 % 2 == retain && f / 64 % 2 == password && f / 128 == username
  {
    var f := 2 * clean + 4 * will + 8 * qos + 32 * retain + 64 * password + 128 * username;
    var g5 := password + 2 * username;
    var g4 := retain + 2 * g5;
    var g3 := qos + 4 * g4;
    var g2 := will + 2 * g3;
    assert f / 4 == g2 && f / 8 == g3;
    assert f / 32 == g4 && f / 64 == g5;
  }

  lemma TakeOptionalOfOptional(s: Option<seq<byte>>, rest: seq<byte>)
    requires s.Some? ==> |s.value| <= MAX_FIELD
    ensures TakeOptional(s.Some?, OptionalStr(s) + rest) == Some((s, rest))
  {
    if s.Some? {
      TakeStringOfStr(s.value, rest);
    } else {
      assert [] + rest == rest;
    }
  }

  lemma TakeWillOfWill(c: Connect, rest: seq<byte>)
    requires FieldsFit(c) && SectionsFit(c)
    ensures TakeWill(Flags(c), WillBytes(c.will) + rest) == Some((c.will, rest))
  {
    hide Flags, Section, Str, TakeSection, TakeString;
    FlagsDecode(c);
    if c.will.Some? {
      var w := c.will.value;
      var s2 := Str(w.payload) + rest;
      var s1 := Str(w.topicName) + s2;
      assert WillBytes(c.will) + rest == Section(w.properties) + s1;
      TakeSectionOfSection(w.properties, s1);
      TakeStringOfStr(w.topicName, s2);
      TakeStringOfStr(w.payload, rest);
    } else {
      assert [] + rest == rest;
    }
  }

  lemma PayloadRoundTrip(c: Connect)
    requires FieldsFit(c) && SectionsFit(c)
    ensures DecodePayload(Flags(c), c.keepAliveSeconds, Body(c)[10..]) == Some(c)
  {
    hide Flags, Section, Str, TakeSection, TakeString, TakeWill, TakeOptional, WillBytes, OptionalStr, Preamble;
    FlagsDecode(c);
    var s5 := [];
    var s4 := OptionalStr(c.password) + s5;
    var s3 := OptionalStr(c.username) + s4;
    var s2 := WillBytes(c.will) + s3;
    var s1 := Str(c.clientIdentifier) + s2;
    assert Body(c)[10..] == Section(c.properties) + s1;
    TakeSectionOfSection(c.properties, s1);
    TakeStringOfStr(c.clientIdentifier, s2);
    TakeWillOfWill(c, s3);
    TakeOptionalOfOptional(c.username, s4);
    TakeOptionalOfOptional(c.password, s5);
  }

  /**
   * Every CONNECT the calculator accepts is recovered from its bytes, field by field: an absent user name,
   * password or will from its clear bit, an empty one from its two zero bytes.
   */
  lemma ConnectRoundTrip(c: Connect)
    requires ConnectPacketSize(c).Ok?
    ensures DecodeConnect(ConnectPacket(c, ConnectPacketSize(c).value.remainingLength)) == Some(c)
  {
    hide Flags, EncodeVar, DecodeVar, DecodePayload, Body, RemainingLength, Be16, Read16, FieldsFit, SectionsFit;
    SizeIsExact(c);
    var n := |Body(c)|;
    var s := ConnectPacket(c, n);
    SizeVarIsLength(n);
    assert s[1..] == EncodeVar(n) + Body(c);
    DecodeVarExact(s[1..], n);
    assert s[1..][SizeVar(n)..] == Body(c);
    BodyStarts(c);
    PayloadRoundTrip(c);
    FlagsDecode(c);
    Read16OfBe16(c.keepAliveSeconds, Body(c)[10..]);
  }

  lemma BodyStarts(c: Connect)
    requires FieldsFit(c)
    ensures |Body(c)| >= 10 && Body(c)[..7] == [0x00, 0x04, 0x4D, 0x51, 0x54, 0x54, 0x05]
    ensures Body(c)[7] == Flags(c) && Body(c)[8..] == Be16(c.keepAliveSeconds) + Body(c)[10..]
  {
    hide EncodeVar, Flags, Str, Be16;
    assert Body(c)[..10] == Preamble(c);
    assert Body(c)[..7] == Preamble(c)[..7] && Body(c)[8..10] == Preamble(c)[8..];
  }
}
