/** Walking a property section back, one property at a time. */
module Cursor {
  import opened Bytes
  import opened Header
  import opened Grammar
  import opened Reader
  import opened Walks
  import opened Builder

  datatype CursorError = WrongProperty | Malformed | EndOfProperties

  /** The property under the cursor, whatever it is, and where the next one starts. */
  function Under(section: seq<byte>, at: nat): Result<Parsed<Property>, CursorError> {
    if at >= |section| then Err(EndOfProperties)
    else if WidthOf(section[at]).None? then Err(WrongProperty)
    else match ParseProperty(section[at..])
         case None => Err(Malformed)
         case Some(Parsed(p, n)) => Ok(Parsed(p, at + n))
  }

  /** More than a reader can be given. */
  predicate TooMuchFollows(section: seq<byte>, at: nat) {
    |section| - at - 1 > U32_MAX
  }

  /** `skip`, as a step of the position. */
  function SkipFrom(section: seq<byte>, at: nat): Result<nat, CursorError> {
    match Under(section, at)
    case Ok(Parsed(_, next)) => if TooMuchFollows(section, at) then Err(Malformed) else Ok(next)
    case Err(e) => Err(e)
  }

  /**
   * Any getter, as a step of the position: it demands one identifier and refuses every other. The getter of the
   * one variable-width property decodes in place, with no reader to limit it.
   */
  function GetFrom(section: seq<byte>, at: nat, expected: byte): Result<Parsed<Value>, CursorError> {
    if at < |section| && section[at] != expected then Err(WrongProperty)
    else match Under(section, at)
         case Ok(Parsed(p, next)) =>
           if TooMuchFollows(section, at) && expected != SUBSCRIPTION_ID then Err(Malformed)
           else Ok(Parsed(p.value, next))
         case Err(e) => Err(e)
  }

  /** The getters, in the order they are declared. */
  predicate HasGetter(id: byte) {
    id in {USER_PROPERTY, SUBSCRIPTION_ID, SESSION_EXPIRY, RECEIVE_MAX, MAX_QOS, RETAIN_AVAILABLE, MAX_PACKET_SIZE,
           ASSIGNED_CLIENT_ID, TOPIC_ALIAS_MAX, REASON_STRING, WILDCARD_AVAILABLE, SUBSCRIPTION_ID_AVAILABLE,
           SHARED_SUB_AVAILABLE, SERVER_KEEP_ALIVE, RESPONSE_INFO, SERVER_REFERENCE, AUTH_METHOD, AUTH_DATA,
           PAYLOAD_FORMAT, MESSAGE_EXPIRY, TOPIC_ALIAS, RESPONSE_TOPIC, CORRELATION_DATA, CONTENT_TYPE}
  }

  /**
   * A getter answers with a value if and only if the property it is for stands there in full with that value, and lands
   * behind it; at the end it says so, and before another property that it is the wrong one.
   */
  lemma GetExact(section: seq<byte>, at: nat, expected: byte, v: Value, next: nat)
    ensures GetFrom(section, at, expected) == Ok(Parsed(v, next)) <==>
              && ValidProperty(Property(expected, v)) && at <= next <= |section|
              && section[at..next] == EncodeProperty(Property(expected, v))
              && (expected != 0x0B ==> |section| - at <= 0x1_0000_0000)
    ensures GetFrom(section, at, expected) == Err(EndOfProperties) <==> at >= |section|
    ensures GetFrom(section, at, expected) == Err(WrongProperty) <==>
              at < |section| && (section[at] != expected || WidthOf(expected).None?)
  {
    hide ParseProperty, EncodeProperty, ValidProperty, WidthOf;
    UnderExact(section, at, Property(expected, v), next);
    if at < |section| && ParseProperty(section[at..]).Some? {
      ParsedId(section[at..]);
    }
    FirstIsIdentifier(Property(expected, v));
  }

  lemma FirstIsIdentifier(p: Property)
    ensures ValidProperty(p) ==> EncodeProperty(p)[0] == p.id && WidthOf(p.id).Some?
  {
  }

  lemma UnderExact(section: seq<byte>, at: nat, p: Property, next: nat)
    ensures Under(section, at) == Ok(Parsed(p, next)) <==>
              ValidProperty(p) && at <= next <= |section| && section[at..next] == EncodeProperty(p)
    ensures Under(section, at) == Err(EndOfProperties) <==> at >= |section|
    ensures Under(section, at) == Err(WrongProperty) <==> at < |section| && WidthOf(section[at]).None?
  {
    hide ParseValue, EncodeValue, FitsWidth;
    if Under(section, at) == Ok(Parsed(p, next)) {
      EncodedOfParsed(section[at..]);
      assert section[at..next] == section[at..][..next - at];
    }
    if ValidProperty(p) && at <= next <= |section| && section[at..next] == EncodeProperty(p) {
      ParseOfEncoded(p, section[next..]);
      assert section[at..] == EncodeProperty(p) + section[next..];
    }
  }

  /** Skipping lands behind a property if and only if one stands there in full. */
  lemma SkipExact(section: seq<byte>, at: nat, next: nat)
    ensures SkipFrom(section, at) == Ok(next) <==>
              && at <= next <= |section| && |section| - at <= 0x1_0000_0000
              && exists p :: ValidProperty(p) && section[at..next] == EncodeProperty(p)
    ensures SkipFrom(section, at) == Err(EndOfProperties) <==> at >= |section|
    ensures SkipFrom(section, at) == Err(WrongProperty) <==> at < |section| && WidthOf(section[at]).None?
  {
    hide ParseProperty, EncodeProperty, ValidProperty, WidthOf, Under;
    UnderExact(section, at, Property(0, Num(0)), next);
    if Under(section, at).Ok? {
      UnderExact(section, at, Under(section, at).value.item, Under(section, at).value.size);
    }
    if at <= next <= |section| && exists p :: ValidProperty(p) && section[at..next] == EncodeProperty(p) {
      var p :| ValidProperty(p) && section[at..next] == EncodeProperty(p);
      UnderExact(section, at, p, next);
    }
  }

  class PropertyCursor {
    const section: seq<byte>
    var at: nat

    constructor (section: seq<byte>)
      ensures this.section == section && at == 0
    {
      this.section := section;
      at := 0;
    }

    method NextType() returns (r: Result<byte, CursorError>)
      ensures r == if at >= |section| then Err(EndOfProperties)
                   else if WidthOf(section[at]).None? then Err(WrongProperty)
                   else Ok(section[at])
    {
      if at >= |section| {
        return Err(EndOfProperties);
      }
      if WidthOf(section[at]).None? {
        return Err(WrongProperty);
      }
      return Ok(section[at]);
    }

    /** A value of a known width, read through a fresh reader over the rest of the section. */
    method ReadValue(width: Width) returns (r: Option<Parsed<Value>>)
      requires at < |section| && |section| - at - 1 <= U32_MAX && width != Variable
      ensures r == ParseValue(width, section[at + 1..])
    {
      hide ParseValue, StringMove, Read16, Read32;
      var rest := section[at + 1..];
      var reader := new PropertyReader(rest, |rest|);
      assert reader.Rest() == rest;
      var v: Option<Value> := None;
      match width {
        case Byte => var n := reader.U8(false); v := if n.Some? then Some(Num(n.value)) else None;
        case TwoBytes => var n := reader.U16(false); v := if n.Some? then Some(Num(n.value)) else None;
        case FourBytes => var n := reader.U32(false); v := if n.Some? then Some(Num(n.value)) else None;
        case String => var t := reader.Utf8(false); v := if t.Some? then Some(Text(t.value)) else None;
        case Pair =>
          var t := reader.UserProperty();
          v := if t.Some? then Some(Texts(t.value.0, t.value.1)) else None;
        case Variable =>
      }
      return if v.Some? then Some(Parsed(v.value, reader.at)) else None;
    }

    /** The subscription identifier, whose length is decoded in place rather than through a reader. */
    method VariableValue() returns (r: Result<u32, CursorError>)
      requires at < |section|
      modifies this
      ensures var read := ParseValue(Variable, section[old(at) + 1..]);
              if read.None? then r == Err(Malformed) && at == old(at)
              else r == Ok(read.value.item.n) && at == old(at) + 1 + read.value.size
    {
      var value := DecodeVariableLength(section[at + 1..]);
      if value.None? {
        return Err(Malformed);
      }
      at := at + 1 + SizeVar(value.value);
      return Ok(value.value);
    }

    /** Steps past whatever is under the cursor; a refusal leaves it where it was. */
    method Skip() returns (r: Result<(), CursorError>)
      modifies this
      ensures match SkipFrom(section, old(at))
              case Ok(next) => r == Ok(()) && at == next
              case Err(e) => r == Err(e) && at == old(at)
    {
      hide ParseValue, WidthOf;
      if at >= |section| {
        return Err(EndOfProperties);
      }
      var width := WidthOf(section[at]);
      if width.None? {
        return Err(WrongProperty);
      }
      if |section| - at - 1 > U32_MAX {
        return Err(Malformed);
      }
      ReadThenStep(section[at..]);
      assert section[at..][1..] == section[at + 1..];
      if width.value == Variable {
        var v := VariableValue();
        return if v.Ok? then Ok(()) else Err(v.error);
      }
      var read := ReadValue(width.value);
      if read.None? {
        return Err(Malformed);
      }
      at := at + 1 + read.value.size;
      return Ok(());
    }

    /** Every getter but two, by the width it reads: `one`, told its identifier. */
    method One(expected: byte) returns (r: Result<Value, CursorError>)
      requires WidthOf(expected).Some? && WidthOf(expected) != Some(Variable)
      modifies this
      ensures match GetFrom(section, old(at), expected)
              case Ok(Parsed(v, next)) => r == Ok(v) && at == next
              case Err(e) => r == Err(e) && at == old(at)
    {
      hide ParseValue, WidthOf;
      if at >= |section| {
        return Err(EndOfProperties);
      }
      if section[at] != expected {
        return Err(WrongProperty);
      }
      VariableWidth();
      if |section| - at - 1 > U32_MAX {
        return Err(Malformed);
      }
      ReadThenStep(section[at..]);
      assert section[at..][1..] == section[at + 1..];
      var read := ReadValue(WidthOf(expected).value);
      if read.None? {
        return Err(Malformed);
      }
      at := at + 1 + read.value.size;
      return Ok(read.value.item);
    }

    /** The getter without a reader, and so without the reader's limit on the section's length. */
    method SubscriptionId() returns (r: Result<u32, CursorError>)
      modifies this
      ensures match GetFrom(section, old(at), SUBSCRIPTION_ID)
              case Ok(Parsed(v, next)) => v.Num? && r == Ok(v.n) && at == next
              case Err(e) => r == Err(e) && at == old(at)
    {
      hide WidthOf;
      if at >= |section| {
        return Err(EndOfProperties);
      }
      if section[at] != SUBSCRIPTION_ID {
        return Err(WrongProperty);
      }
      assert WidthOf(section[at]) == Some(Variable) by { VariableWidth(); }
      ReadThenStep(section[at..]);
      assert section[at..][1..] == section[at + 1..];
      r := VariableValue();
    }
  }

  lemma VariableWidth()
    ensures WidthOf(SUBSCRIPTION_ID) == Some(Variable)
  {
  }

  // ---- reading back ---------------------------------------------------------

  /** Where the i-th property of a printed list starts. */
  function Start(ps: seq<Property>, i: nat): nat
    requires i <= |ps| && AllValid(ps)
  {
    |EncodeSection(ps[..i])|
  }

  lemma UnderPrinted(ps: seq<Property>, i: nat)
    requires i < |ps| && AllValid(ps) && |EncodeSection(ps)| <= U32_MAX
    ensures Start(ps, i) < |EncodeSection(ps)| && EncodeSection(ps)[Start(ps, i)] == ps[i].id
    ensures Under(EncodeSection(ps), Start(ps, i)) == Ok(Parsed(ps[i], Start(ps, i + 1)))
  {
    hide WidthOf, EncodeSection, EncodeProperty, ValidProperty, ParseProperty;
    var s := EncodeSection(ps);
    EncodeAppend(ps[..i], ps[i..]);
    assert ps == ps[..i] + ps[i..];
    EncodeAppend([ps[i]], ps[i + 1..]);
    assert ps[i..] == [ps[i]] + ps[i + 1..];
    EncodeOne(ps[i]);
    EncodeAppend(ps[..i], [ps[i]]);
    assert ps[..i + 1] == ps[..i] + [ps[i]];
    assert s[Start(ps, i)..] == EncodeProperty(ps[i]) + EncodeSection(ps[i + 1..]);
    ParseOfEncoded(ps[i], EncodeSection(ps[i + 1..]));
    FirstByte(ps[i]);
    assert s[Start(ps, i)] == s[Start(ps, i)..][0];
  }

  lemma FirstByte(p: Property)
    requires ValidProperty(p)
    ensures EncodeProperty(p)[0] == p.id && WidthOf(p.id).Some?
  {
  }

  /**
   * What any run of the builder wrote, the cursor reads back: at each property the getter for its identifier, where
   * there is one, answers its value, `skip` instead of it lands in the same place, every other getter refuses and
   * stays, and after the last one the section has ended.
   */
  lemma BuilderReadsBack(capacity: nat, calls: seq<Call>, i: nat)
    requires AllTyped(calls) && capacity < REMAINING_LENGTH_INVALID
    requires i <= |Kept(capacity, FRESH, calls)|
    ensures var ps, s := Kept(capacity, FRESH, calls), Run(capacity, FRESH, calls).section;
            && AllValid(ps) && Start(ps, 0) == 0 && Start(ps, |ps|) == |s|
            && (i < |ps| ==>
                  && SkipFrom(s, Start(ps, i)) == Ok(Start(ps, i + 1))
                  && (forall id: byte :: HasGetter(id) ==>
                        GetFrom(s, Start(ps, i), id)
                        == if id == ps[i].id then Ok(Parsed(ps[i].value, Start(ps, i + 1))) else Err(WrongProperty)))
            && (i == |ps| ==> SkipFrom(s, Start(ps, i)) == Err(EndOfProperties))
  {
    hide Typed, Kept, Run, ValidProperty, EncodeProperty, WellBuilt, ParseSection;
    RunFromNew(capacity, calls);
    var ps := Kept(capacity, FRESH, calls);
    assert ps[..|ps|] == ps && ps[..0] == [];
    if i < |ps| {
      UnderPrinted(ps, i);
    }
  }

  /**
   * Of what a run of the builder wrote, three properties no getter reads: each of the getters refuses them where
   * they stand, and `skip` is the only way past. Any other property one getter reads.
   */
  lemma WrittenButNeverRead(capacity: nat, calls: seq<Call>, i: nat)
    requires AllTyped(calls) && capacity < REMAINING_LENGTH_INVALID
    requires i < |Kept(capacity, FRESH, calls)|
    ensures var ps, s := Kept(capacity, FRESH, calls), Run(capacity, FRESH, calls).section;
            && AllValid(ps) && SkipFrom(s, Start(ps, i)) == Ok(Start(ps, i + 1))
            && ((forall id: byte :: HasGetter(id) ==> GetFrom(s, Start(ps, i), id) == Err(WrongProperty))
                <==> ps[i].id in {REQUEST_PROBLEM, REQUEST_RESPONSE, WILL_DELAY})
  {
    hide Kept, Run, AllTyped, GetFrom, SkipFrom, EncodeSection, AllValid;
    BuilderReadsBack(capacity, calls, i);
    KeptWereAdded(capacity, FRESH, calls);
    var ps, s := Kept(capacity, FRESH, calls), Run(capacity, FRESH, calls).section;
    if HasGetter(ps[i].id) {
      assert GetFrom(s, Start(ps, i), ps[i].id).Ok?;
    }
  }

  lemma {:induction false} KeptWereAdded(capacity: nat, from: State, calls: seq<Call>)
    requires AllTyped(calls)
    ensures forall p :: p in Kept(capacity, from, calls) ==> HasAdder(p.id)
    decreases |calls|
  {
    hide Add, AdderVerdict;
    if calls != [] {
      KeptWereAdded(capacity, Add(capacity, from, calls[0].p, calls[0].kind), calls[1..]);
    }
  }

  /** And each of the three can be written: one call into an empty section of five bytes. */
  lemma NeverReadIsWritten(id: byte, n: u32, capacity: nat, kind: Option<byte>)
    requires id in {REQUEST_PROBLEM, REQUEST_RESPONSE, WILL_DELAY} && (id != WILL_DELAY ==> n <= 1)
    requires 5 <= capacity < REMAINING_LENGTH_INVALID && (kind.Some? ==> id in AllowedIn(kind.value))
    ensures var c := Call(Property(id, Num(n)), kind);
            AllTyped([c]) && Kept(capacity, FRESH, [c]) == [c.p]
  {
    var c := Call(Property(id, Num(n)), kind);
    assert [c][1..] == [];
  }

  // ---- five tables, one grammar ----------------------------------------------

  /** Skipping from `at` visits the properties of `ps`, one skip each, and ends exactly at the end. */
  predicate SkipsThrough(section: seq<byte>, at: nat, ps: seq<Property>)
    decreases |ps|
  {
    if ps == [] then at == |section| && SkipFrom(section, at) == Err(EndOfProperties)
    else match Under(section, at)
         case Ok(Parsed(p, next)) =>
           p == ps[0] && SkipFrom(section, at) == Ok(next) && SkipsThrough(section, next, ps[1..])
         case Err(_) => false
  }

  lemma {:induction false} PrintedSkipsThrough(ps: seq<Property>, i: nat)
    requires i <= |ps| && AllValid(ps) && |EncodeSection(ps)| <= U32_MAX
    ensures SkipsThrough(EncodeSection(ps), Start(ps, i), ps[i..])
    decreases |ps| - i
  {
    hide Under, EncodeSection, ValidProperty;
    if i == |ps| {
      assert ps[..i] == ps;
      AtTheEnd(EncodeSection(ps));
    } else {
      UnderPrinted(ps, i);
      PrintedSkipsThrough(ps, i + 1);
      assert ps[i..][1..] == ps[i + 1..];
    }
  }

  lemma AtTheEnd(s: seq<byte>)
    ensures Under(s, |s|) == Err(EndOfProperties)
  {
  }

  /**
   * Every section any of the walks accepts is skipped through by the cursor with no refusal, one skip for each
   * property the walk saw, ending exactly at the end.
   */
  lemma OneGrammar(w: Walker, section: seq<byte>)
    requires WalkSection(w, section).Accepted? && |section| <= U32_MAX
    ensures SkipsThrough(section, 0, WalkSection(w, section).ps)
  {
    hide WalkFrom, Legal, ParseSection, SkipsThrough, EncodeProperty, ValidProperty;
    var ps := WalkSection(w, section).ps;
    WalkExact(w, section, {}, ps);
    SectionExact(section, ps);
    PrintedSkipsThrough(ps, 0);
    assert ps[0..] == ps && ps[..0] == [];
  }
}
