/** The property grammar of MQTT Version 5.0, section 2.2.2: one table of widths, a printer and a parser. */
module Grammar {
  import opened Bytes
  import opened Header

  const PAYLOAD_FORMAT: byte := 0x01
  const MESSAGE_EXPIRY: byte := 0x02
  const CONTENT_TYPE: byte := 0x03
  const RESPONSE_TOPIC: byte := 0x08
  const CORRELATION_DATA: byte := 0x09
  const SUBSCRIPTION_ID: byte := 0x0B
  const SESSION_EXPIRY: byte := 0x11
  const ASSIGNED_CLIENT_ID: byte := 0x12
  const SERVER_KEEP_ALIVE: byte := 0x13
  const AUTH_METHOD: byte := 0x15
  const AUTH_DATA: byte := 0x16
  const REQUEST_PROBLEM: byte := 0x17
  const WILL_DELAY: byte := 0x18
  const REQUEST_RESPONSE: byte := 0x19
  const RESPONSE_INFO: byte := 0x1A
  const SERVER_REFERENCE: byte := 0x1C
  const REASON_STRING: byte := 0x1F
  const RECEIVE_MAX: byte := 0x21
  const TOPIC_ALIAS_MAX: byte := 0x22
  const TOPIC_ALIAS: byte := 0x23
  const MAX_QOS: byte := 0x24
  const RETAIN_AVAILABLE: byte := 0x25
  const USER_PROPERTY: byte := 0x26
  const MAX_PACKET_SIZE: byte := 0x27
  const WILDCARD_AVAILABLE: byte := 0x28
  const SUBSCRIPTION_ID_AVAILABLE: byte := 0x29
  const SHARED_SUB_AVAILABLE: byte := 0x2A

  datatype Width = Byte | TwoBytes | FourBytes | String | Pair | Variable

  /** How wide the value an identifier introduces is; `None` for a byte that is no identifier. */
  function WidthOf(id: byte): Option<Width> {
    if id in {SESSION_EXPIRY, MAX_PACKET_SIZE, WILL_DELAY, MESSAGE_EXPIRY} then Some(FourBytes)
    else if id in {RECEIVE_MAX, TOPIC_ALIAS_MAX, TOPIC_ALIAS, SERVER_KEEP_ALIVE} then Some(TwoBytes)
    else if id in {REQUEST_PROBLEM, REQUEST_RESPONSE, PAYLOAD_FORMAT, MAX_QOS, RETAIN_AVAILABLE,
                   WILDCARD_AVAILABLE, SUBSCRIPTION_ID_AVAILABLE, SHARED_SUB_AVAILABLE} then Some(Byte)
    else if id in {AUTH_METHOD, CONTENT_TYPE, RESPONSE_TOPIC, ASSIGNED_CLIENT_ID, REASON_STRING,
                   RESPONSE_INFO, SERVER_REFERENCE, AUTH_DATA, CORRELATION_DATA} then Some(String)
    else if id == USER_PROPERTY then Some(Pair)
    else if id == SUBSCRIPTION_ID then Some(Variable)
    else None
  }

  datatype Value = Num(n: u32) | Text(text: seq<byte>) | Texts(key: seq<byte>, text: seq<byte>)

  datatype Property = Property(id: byte, value: Value)

  predicate FitsWidth(w: Width, v: Value) {
    match w
    case Byte => v.Num? && v.n < 0x100
    case TwoBytes => v.Num? && v.n < 0x1_0000
    case FourBytes => v.Num?
    case String => v.Text? && |v.text| <= 0xFFFF
    case Pair => v.Texts? && |v.key| <= 0xFFFF && |v.text| <= 0xFFFF
    case Variable => v.Num? && v.n <= MAX_REMAINING_LENGTH
  }

  predicate ValidProperty(p: Property) {
    WidthOf(p.id).Some? && FitsWidth(WidthOf(p.id).value, p.value)
  }

  // ---- the printer --------------------------------------------------------

  function EncodeValue(w: Width, v: Value): (s: seq<byte>)
    requires FitsWidth(w, v)
    ensures |s| >= 1
  {
    match w
    case Byte => [v.n]
    case TwoBytes => Be16(v.n)
    case FourBytes => Be32(v.n)
    case String => Str(v.text)
    case Pair => Str(v.key) + Str(v.text)
    case Variable => EncodeVar(v.n)
  }

  function EncodeProperty(p: Property): (s: seq<byte>)
    requires ValidProperty(p)
    ensures |s| >= 2
  {
    [p.id] + EncodeValue(WidthOf(p.id).value, p.value)
  }

  predicate AllValid(ps: seq<Property>) {
    forall i :: 0 <= i < |ps| ==> ValidProperty(ps[i])
  }

  function EncodeSection(ps: seq<Property>): seq<byte>
    requires AllValid(ps)
  {
    if ps == [] then [] else EncodeProperty(ps[0]) + EncodeSection(ps[1..])
  }

  // ---- the parser ---------------------------------------------------------

  datatype Parsed<T> = Parsed(item: T, size: nat)

  function ParseString(s: seq<byte>): (r: Option<Parsed<seq<byte>>>)
    ensures r.Some? ==> 2 <= r.value.size <= |s|
  {
    if |s| < 2 || |s| - 2 < Read16(s) then None
    else Some(Parsed(s[2..2 + Read16(s)], 2 + Read16(s)))
  }

  function ParseValue(w: Width, s: seq<byte>): (r: Option<Parsed<Value>>)
    ensures r.Some? ==> 1 <= r.value.size
  {
    match w
    case Byte => if |s| < 1 then None else Some(Parsed(Num(s[0]), 1))
    case TwoBytes => if |s| < 2 then None else Some(Parsed(Num(Read16(s)), 2))
    case FourBytes => if |s| < 4 then None else Some(Parsed(Num(Read32(s)), 4))
    case String => (
      match ParseString(s)
      case Some(Parsed(t, n)) => Some(Parsed(Text(t), n))
      case None => None)
    case Pair => (
      match ParseString(s)
      case None => None
      case Some(Parsed(k, n)) =>
        match ParseString(s[n..])
        case Some(Parsed(t, m)) => Some(Parsed(Texts(k, t), n + m))
        case None => None)
    case Variable =>
      match DecodeVar(s)
      case Some(v) => Some(Parsed(Num(v), SizeVar(v)))
      case None => None
  }

  /** The one property at the front of `s`. */
  function ParseProperty(s: seq<byte>): (r: Option<Parsed<Property>>)
    ensures r.Some? ==> r.value.size >= 2
  {
    if s == [] || WidthOf(s[0]).None? then None
    else match ParseValue(WidthOf(s[0]).value, s[1..])
         case Some(Parsed(v, n)) => Some(Parsed(Property(s[0], v), n + 1))
         case None => None
  }

  /** A whole section: properties end to end with nothing left over. */
  function ParseSection(s: seq<byte>): Option<seq<Property>> {
    if s == [] then Some([])
    else match ParseProperty(s)
         case Some(Parsed(p, n)) =>
           if n > |s| then None
           else (match ParseSection(s[n..])
                 case Some(ps) => Some([p] + ps)
                 case None => None)
         case None => None
  }

  // ---- they undo each other -----------------------------------------------

  lemma ParseStringOfStr(t: seq<byte>, rest: seq<byte>)
    requires |t| <= 0xFFFF
    ensures ParseString(Str(t) + rest) == Some(Parsed(t, 2 + |t|))
    ensures (Str(t) + rest)[2 + |t|..] == rest
  {
    var s := Str(t) + rest;
    assert s == Be16(|t|) + (t + rest);
    Read16OfBe16(|t|, t + rest);
    assert s[2..2 + |t|] == t;
  }

  lemma ParseOfEncodedValue(w: Width, v: Value, rest: seq<byte>)
    requires FitsWidth(w, v)
    ensures ParseValue(w, EncodeValue(w, v) + rest) == Some(Parsed(v, |EncodeValue(w, v)|))
  {
    var s := EncodeValue(w, v) + rest;
    match w
    case Byte =>
    case TwoBytes => Read16OfBe16(v.n, rest);
    case FourBytes => Read32OfBe32(v.n, rest);
    case String => ParseStringOfStr(v.text, rest);
    case Pair =>
      assert s == Str(v.key) + (Str(v.text) + rest);
      ParseStringOfStr(v.key, Str(v.text) + rest);
      ParseStringOfStr(v.text, rest);
    case Variable =>
      DecodeVarExact(s, v.n);
      SizeVarIsLength(v.n);
  }

  lemma ParseOfEncoded(p: Property, rest: seq<byte>)
    requires ValidProperty(p)
    ensures ParseProperty(EncodeProperty(p) + rest) == Some(Parsed(p, |EncodeProperty(p)|))
  {
    var w := WidthOf(p.id).value;
    ParseOfEncodedValue(w, p.value, rest);
    assert (EncodeProperty(p) + rest)[1..] == EncodeValue(w, p.value) + rest;
  }

  lemma EncodedOfParsedValue(w: Width, s: seq<byte>)
    requires ParseValue(w, s).Some?
    ensures var r := ParseValue(w, s).value;
            FitsWidth(w, r.item) && r.size <= |s| && s[..r.size] == EncodeValue(w, r.item)
  {
    match w
    case Byte =>
    case TwoBytes => Be16OfRead16(s);
    case FourBytes => Be32OfRead32(s);
    case String => EncodedOfParsedString(s);
    case Pair =>
      var n := ParseString(s).value.size;
      EncodedOfParsedString(s);
      EncodedOfParsedString(s[n..]);
      var m := ParseString(s[n..]).value.size;
      assert s[..n + m] == s[..n] + s[n..][..m];
    case Variable =>
      var v := DecodeVar(s).value;
      DecodeVarExact(s, v);
      SizeVarIsLength(v);
  }

  lemma EncodedOfParsedString(s: seq<byte>)
    requires ParseString(s).Some?
    ensures var r := ParseString(s).value; |r.item| <= 0xFFFF && r.size <= |s| && s[..r.size] == Str(r.item)
  {
    Be16OfRead16(s);
  }

  /** Whatever parses is the print of what it parsed to: there is one spelling of every property. */
  lemma EncodedOfParsed(s: seq<byte>)
    requires ParseProperty(s).Some?
    ensures var r := ParseProperty(s).value;
            ValidProperty(r.item) && r.size <= |s| && s[..r.size] == EncodeProperty(r.item)
  {
    var w := WidthOf(s[0]).value;
    EncodedOfParsedValue(w, s[1..]);
    var n := ParseValue(w, s[1..]).value.size;
    assert s[..n + 1] == [s[0]] + s[1..][..n];
  }

  lemma {:induction false} SectionPrints(s: seq<byte>)
    requires ParseSection(s).Some?
    ensures AllValid(ParseSection(s).value) && EncodeSection(ParseSection(s).value) == s
    decreases |s|
  {
    hide EncodeProperty, ParseProperty, ValidProperty;
    if s != [] {
      var n := ParseProperty(s).value.size;
      EncodedOfParsed(s);
      SectionPrints(s[n..]);
      assert s == s[..n] + s[n..];
    }
  }

  lemma {:induction false} SectionParses(ps: seq<Property>)
    requires AllValid(ps)
    ensures ParseSection(EncodeSection(ps)) == Some(ps)
  {
    hide EncodeProperty, ParseProperty, ValidProperty;
    if ps != [] {
      var s, n := EncodeSection(ps), |EncodeProperty(ps[0])|;
      ParseOfEncoded(ps[0], EncodeSection(ps[1..]));
      SectionParses(ps[1..]);
      assert s[n..] == EncodeSection(ps[1..]);
      assert ps == [ps[0]] + ps[1..];
    }
  }

  /** A section parses to a list if and only if it is that list printed: reading is exact and unambiguous. */
  lemma SectionExact(s: seq<byte>, ps: seq<Property>)
    ensures ParseSection(s) == Some(ps) <==> AllValid(ps) && EncodeSection(ps) == s
  {
    hide EncodeProperty, ParseProperty, ValidProperty;
    if ParseSection(s) == Some(ps) {
      SectionPrints(s);
    }
    if AllValid(ps) && EncodeSection(ps) == s {
      SectionParses(ps);
    }
  }

  lemma {:induction false} EncodeAppend(a: seq<Property>, b: seq<Property>)
    requires AllValid(a) && AllValid(b)
    ensures AllValid(a + b) && EncodeSection(a + b) == EncodeSection(a) + EncodeSection(b)
  {
    hide EncodeProperty, ValidProperty;
    if a == [] {
      assert a + b == b;
    } else {
      EncodeAppend(a[1..], b);
      assert (a + b)[1..] == a[1..] + b;
    }
  }

  /** Two whole sections end to end are a whole section. */
  lemma ParseAppend(s: seq<byte>, t: seq<byte>)
    requires ParseSection(s).Some? && ParseSection(t).Some?
    ensures ParseSection(s + t) == Some(ParseSection(s).value + ParseSection(t).value)
  {
    var a, b := ParseSection(s).value, ParseSection(t).value;
    SectionExact(s, a);
    SectionExact(t, b);
    EncodeAppend(a, b);
    SectionExact(s + t, a + b);
  }

  lemma EncodeOne(p: Property)
    requires ValidProperty(p)
    ensures AllValid([p]) && EncodeSection([p]) == EncodeProperty(p)
  {
    assert EncodeSection([p][1..]) == [];
  }
}
