/** SUBSCRIBE and UNSUBSCRIBE: one layout, its size, its buffered serializer and its pieces for gathering. */
module Lists {
  import opened Bytes
  import opened Header
  import opened Grammar
  import opened Packet
  import opened Wire
  import opened Connect

  datatype RetainHandling = OnSubscribe | OnSubscribeIfNew | Never

  datatype Subscription = Subscription(
    topicFilter: seq<byte>, qos: QoS, noLocal: bool, retainAsPublished: bool, retainHandling: RetainHandling)

  /** `subscription_options`: five decisions in six bits. */
  function Options(s: Subscription): byte {
    (match s.qos case AtMostOnce => 0 case AtLeastOnce => 1 case ExactlyOnce => 2)
    + (if s.noLocal then 4 else 0) + (if s.retainAsPublished then 8 else 0)
    + (match s.retainHandling case OnSubscribe => 0 case OnSubscribeIfNew => 16 case Never => 32)
  }

  predicate FiltersFit(list: seq<Subscription>) {
    forall i :: 0 <= i < |list| ==> |list[i].topicFilter| <= 0xFFFF
  }

  predicate NoEmptyFilter(list: seq<Subscription>) {
    forall i :: 0 <= i < |list| ==> list[i].topicFilter != []
  }

  /** One entry on the wire: the filter, and for a SUBSCRIBE its options. */
  function Entry(subscribing: bool, s: Subscription): (r: seq<byte>)
    requires |s.topicFilter| <= 0xFFFF
    ensures |r| == 2 + |s.topicFilter| + (if subscribing then 1 else 0)
  {
    Str(s.topicFilter) + (if subscribing then [Options(s)] else [])
  }

  function Entries(subscribing: bool, list: seq<Subscription>): seq<byte>
    requires FiltersFit(list)
  {
    if list == [] then [] else Entry(subscribing, list[0]) + Entries(subscribing, list[1..])
  }

  lemma {:induction false} EntriesAppend(subscribing: bool, a: seq<Subscription>, b: seq<Subscription>)
    requires FiltersFit(a) && FiltersFit(b)
    ensures FiltersFit(a + b) && Entries(subscribing, a + b) == Entries(subscribing, a) + Entries(subscribing, b)
  {
    hide Entry;
    if a == [] {
      assert a + b == b;
    } else {
      EntriesAppend(subscribing, a[1..], b);
      assert (a + b)[1..] == a[1..] + b;
    }
  }

  lemma OneMoreEntry(subscribing: bool, list: seq<Subscription>, i: nat)
    requires FiltersFit(list) && i < |list|
    ensures Entries(subscribing, list[..i + 1]) == Entries(subscribing, list[..i]) + Entry(subscribing, list[i])
  {
    hide Entry;
    EntriesAppend(subscribing, list[..i], [list[i]]);
    assert list[..i + 1] == list[..i] + [list[i]];
    assert [list[i]][1..] == [];
  }

  function KindOf(subscribing: bool): byte {
    if subscribing then SUBSCRIBE else UNSUBSCRIBE
  }

  /** The header and the section: what goes out before any filter. */
  function Front(subscribing: bool, packetId: u16, properties: seq<byte>, remaining: u32): (r: seq<byte>)
    ensures |r| > 0
  {
    IdHeader(KindOf(subscribing), remaining, packetId) + Section(properties)
  }

  function ListPacket(subscribing: bool, list: seq<Subscription>, packetId: u16, properties: seq<byte>, remaining: u32)
    : seq<byte>
    requires FiltersFit(list)
  {
    Front(subscribing, packetId, properties, remaining) + Entries(subscribing, list)
  }

  // ---- the size calculator ---------------------------------------------------------

  /** What a packet's body comes to: identifier, section, entries. */
  function EntriesLength(subscribing: bool, list: seq<Subscription>): nat {
    if list == [] then 0
    else EntriesLength(subscribing, list[..|list| - 1])
         + |list[|list| - 1].topicFilter| + 2 + (if subscribing then 1 else 0)
  }

  function ListLength(subscribing: bool, list: seq<Subscription>, propertyLength: u32): nat {
    2 + propertyLength + SizeVar(propertyLength) + EntriesLength(subscribing, list)
  }

  lemma {:induction false} EntriesLengthGrows(subscribing: bool, list: seq<Subscription>, i: nat)
    requires i <= |list|
    ensures EntriesLength(subscribing, list[..i]) <= EntriesLength(subscribing, list)
    decreases |list|
  {
    if i < |list| {
      EntriesLengthGrows(subscribing, list[..|list| - 1], i);
      assert list[..|list| - 1][..i] == list[..i];
    } else {
      assert list[..i] == list;
    }
  }

  datatype Size = Size(remainingLength: u32, packetSize: u32)

  /**
   * `list_packet_size`: saturating sums with a check inside the loop. The in-loop check and the saturation never
   * change the answer: what is accepted is exactly a non-empty list whose filters and total fit.
   */
  method ListPacketSize(subscribing: bool, list: seq<Subscription>, propertyLength: u32, maxPacketSize: u32)
    returns (r: Option<Size>)
    ensures r.Some? <==>
              && list != [] && maxPacketSize != 0 && propertyLength <= MAX_REMAINING_LENGTH && FiltersFit(list)
              && ListLength(subscribing, list, propertyLength) <= MAX_REMAINING_LENGTH
              && PacketSize(ListLength(subscribing, list, propertyLength)) <= maxPacketSize
    ensures r.Some? ==> r.value == Size(ListLength(subscribing, list, propertyLength),
                                        PacketSize(ListLength(subscribing, list, propertyLength)))
  {
    hide SizeVar, PacketSize;
    if maxPacketSize == 0 || propertyLength > MAX_REMAINING_LENGTH {
      return None;
    }
    var remaining: u32 := SaturatingAdd(SaturatingAdd(2, propertyLength), SizeVar(propertyLength));
    var i := 0;
    while i < |list|
      invariant i <= |list| && FiltersFit(list[..i])
      invariant remaining == ListLength(subscribing, list[..i], propertyLength) <= MAX_REMAINING_LENGTH + 6
      decreases |list| - i
    {
      if |list[i].topicFilter| > 0xFFFF {
        return None;
      }
      assert list[..i + 1][..i] == list[..i];
      EntriesLengthGrows(subscribing, list, i + 1);
      remaining := SaturatingAdd(SaturatingAdd(remaining, |list[i].topicFilter|), 2);
      if remaining >= REMAINING_LENGTH_INVALID {
        return None;
      }
      if subscribing {
        remaining := SaturatingAdd(remaining, 1);
      }
      i := i + 1;
    }
    assert list[..i] == list;
    if i == 0 {
      return None;
    }
    if remaining > MAX_REMAINING_LENGTH {
      return None;
    }
    if PacketSize(remaining) > maxPacketSize {
      return None;
    }
    return Some(Size(remaining, PacketSize(remaining)));
  }

  lemma {:induction false} EntriesLengthIsTrue(subscribing: bool, list: seq<Subscription>)
    requires FiltersFit(list)
    ensures |Entries(subscribing, list)| == EntriesLength(subscribing, list)
  {
    if list != [] {
      var n := |list| - 1;
      EntriesLengthIsTrue(subscribing, list[..n]);
      OneMoreEntry(subscribing, list, n);
      assert list[..n + 1] == list;
    }
  }

  /** The size calculator's two numbers are true of the packet. */
  lemma ListSizeIsTrue(subscribing: bool, list: seq<Subscription>, packetId: u16, properties: seq<byte>)
    requires FiltersFit(list) && |properties| <= MAX_REMAINING_LENGTH
    requires ListLength(subscribing, list, |properties|) <= MAX_REMAINING_LENGTH
    ensures var n := ListLength(subscribing, list, |properties|);
            && n == 2 + |Section(properties)| + |Entries(subscribing, list)|
            && PacketSize(n) == |ListPacket(subscribing, list, packetId, properties, n)|
  {
    hide EncodeVar, SizeVar, Entries;
    EntriesLengthIsTrue(subscribing, list);
    SizeVarIsLength(|properties|);
    SizeVarIsLength(ListLength(subscribing, list, |properties|));
  }

  // ---- the buffered serializer --------------------------------------------------------

  /**
   * `serialize_subscribe` and `serialize_unsubscribe`. The remaining length is the caller's: with the calculator's
   * number the packet is consistent, with another it is laid down just the same.
   */
  method SerializeList(dest: array<byte>, subscribing: bool, list: seq<Subscription>, properties: seq<byte>,
                       packetId: u16, remaining: u32)
    returns (r: Result<nat, WireError>)
    modifies dest
    ensures r.Ok? <==> Serializable(list, properties, packetId, remaining) && PacketSize(remaining) <= dest.Length
                       && |ListPacket(subscribing, list, packetId, properties, remaining)| <= dest.Length
    ensures r.Ok? ==> r.value == PacketSize(remaining)
                      && dest[..]
                         == Splice(old(dest[..]), 0, ListPacket(subscribing, list, packetId, properties, remaining))
    ensures r.Err? ==> r.error == ListStatus(list, properties, packetId, remaining, dest.Length)
    ensures ListStatus(list, properties, packetId, remaining, dest.Length) == WireError.BadParameter ==>
              dest[..] == old(dest[..])
  {
    hide Splice, Section, Entry, Entries, IdHeader;
    if |properties| >= REMAINING_LENGTH_INVALID || list == [] || packetId == 0
        || remaining >= REMAINING_LENGTH_INVALID {
      return Err(WireError.BadParameter);
    }
    if dest.Length < PacketSize(remaining) {
      return Err(WireError.NoMemory);
    }
    var filtersOk := CheckFilters(list);
    if !filtersOk {
      return Err(WireError.BadParameter);
    }
    ghost var before := dest[..];
    var at := SerializeIdHeader(dest, KindOf(subscribing), remaining, packetId);
    if at == 0 {
      return Err(WireError.NoMemory);
    }
    ghost var head := IdHeader(KindOf(subscribing), remaining, packetId);
    r := PutSection(dest, before, head, at, properties);
    if r.Err? {
      return;
    }
    at := r.value;
    ghost var front := head + Section(properties);
    NoEntries(subscribing);
    var i := 0;
    assert front + [] == front;
    while i < |list|
      invariant i <= |list| && at == |front| + |Entries(subscribing, list[..i])| <= dest.Length
      invariant dest[..] == Splice(before, 0, front + Entries(subscribing, list[..i]))
    {
      ghost var done := Entries(subscribing, list[..i]);
      OneMoreEntry(subscribing, list, i);
      EntriesSplit(subscribing, list, i + 1);
      r := PutEntry(dest, before, front + done, at, subscribing, list[i]);
      if r.Err? {
        return;
      }
      assert front + done + Entry(subscribing, list[i]) == front + (done + Entry(subscribing, list[i]));
      at := r.value;
      i := i + 1;
    }
    assert list[..i] == list;
    return Ok(PacketSize(remaining));
  }

  /** Which of the two statuses a refusal has: the buffer is asked about before the filters are. */
  function ListStatus(list: seq<Subscription>, properties: seq<byte>, packetId: u16, remaining: u32, capacity: nat)
    : WireError
  {
    if |properties| > MAX_REMAINING_LENGTH || list == [] || packetId == 0 || remaining > MAX_REMAINING_LENGTH
    then WireError.BadParameter
    else if capacity < PacketSize(remaining) then WireError.NoMemory
    else if !FiltersFit(list) || !NoEmptyFilter(list) then WireError.BadParameter
    else WireError.NoMemory
  }

  predicate Serializable(list: seq<Subscription>, properties: seq<byte>, packetId: u16, remaining: u32) {
    && |properties| <= MAX_REMAINING_LENGTH && list != [] && packetId != 0 && remaining <= MAX_REMAINING_LENGTH
    && FiltersFit(list) && NoEmptyFilter(list)
  }

  method CheckFilters(list: seq<Subscription>) returns (ok: bool)
    ensures ok <==> FiltersFit(list) && NoEmptyFilter(list)
  {
    var i := 0;
    while i < |list|
      invariant i <= |list| && FiltersFit(list[..i]) && NoEmptyFilter(list[..i])
    {
      if list[i].topicFilter == [] || |list[i].topicFilter| > 0xFFFF {
        return false;
      }
      i := i + 1;
    }
    assert list[..i] == list;
    return true;
  }

  method PutEntry(dest: array<byte>, ghost before: seq<byte>, ghost done: seq<byte>, at: nat, subscribing: bool,
                  s: Subscription)
    returns (r: Result<nat, WireError>)
    requires |before| == dest.Length && at == |done| <= dest.Length && dest[..] == Splice(before, 0, done)
    requires |s.topicFilter| <= 0xFFFF
    modifies dest
    ensures r.Ok? <==> at + |Entry(subscribing, s)| <= dest.Length
    ensures r.Err? ==> r == Err(WireError.NoMemory)
    ensures r.Ok? ==>
            r.value == at + |Entry(subscribing, s)| && dest[..] == Splice(before, 0, done + Entry(subscribing, s))
  {
    hide Str, Options;
    r := PutString(dest, before, done, at, s.topicFilter);
    if r.Err? {
      return;
    }
    if !subscribing {
      assert Entry(subscribing, s) == Str(s.topicFilter);
      return;
    }
    if r.value >= dest.Length {
      return Err(WireError.NoMemory);
    }
    Continue(dest, before, 0, done + Str(s.topicFilter), r.value, [Options(s)]);
    assert done + Str(s.topicFilter) + [Options(s)] == done + Entry(subscribing, s);
    return Ok(r.value + 1);
  }

  lemma NoEntries(subscribing: bool)
    ensures Entries(subscribing, []) == []
  {
  }

  lemma EntriesSplit(subscribing: bool, list: seq<Subscription>, i: nat)
    requires FiltersFit(list) && i <= |list|
    ensures Entries(subscribing, list) == Entries(subscribing, list[..i]) + Entries(subscribing, list[i..])
  {
    hide Entry;
    EntriesAppend(subscribing, list[..i], list[i..]);
    assert list == list[..i] + list[i..];
  }

  // ---- the packet read back ------------------------------------------------------------

  /** The options byte as section 3.8.3.1 of MQTT Version 5.0 lays it out, two bits of it reserved. */
  function ReadOptions(filter: seq<byte>, o: byte): Option<Subscription> {
    if o / 64 != 0 || o % 4 == 3 || o / 16 % 4 == 3 then None
    else Some(Subscription(
      filter, if o % 4 == 0 then AtMostOnce else if o % 4 == 1 then AtLeastOnce else ExactlyOnce,
      o / 4 % 2 == 1, o / 8 % 2 == 1,
      if o / 16 % 4 == 0 then OnSubscribe else if o / 16 % 4 == 1 then OnSubscribeIfNew else Never))
  }

  /** A byte reads as these fields if and only if it is the one written for them. */
  lemma OptionsReadBack(o: byte, s: Subscription)
    ensures ReadOptions(s.topicFilter, o) == Some(s) <==> o == Options(s)
  {
    if ReadOptions(s.topicFilter, o) == Some(s) {
      PartsOfByte(o);
    } else if o == Options(s) {
      FieldsOfOptions(s);
    }
  }

  lemma FieldsOfOptions(s: Subscription)
    ensures ReadOptions(s.topicFilter, Options(s)) == Some(s)
  {
  }

  lemma PartsOfByte(o: byte)
    ensures o == o as int % 4 + 4 * (o as int / 4 % 2) + 8 * (o as int / 8 % 2) + 16 * (o as int / 16)
  {
    var a, b, c := o as int / 4, o as int / 8, o as int / 16;
    assert b == a / 2;
    assert c == b / 2;
    assert o == 4 * a + o as int % 4;
  }

  /** What an UNSUBSCRIBE says of an entry: its filter. */
  function Unsubscribed(filter: seq<byte>): Subscription {
    Subscription(filter, AtMostOnce, false, false, OnSubscribe)
  }

  /** The entries of a payload, each filter with its options; an UNSUBSCRIBE has none. */
  function ReadEntries(subscribing: bool, s: seq<byte>): Option<seq<Subscription>>
    decreases |s|
  {
    if s == [] then Some([])
    else match ParseString(s)
         case None => None
         case Some(Parsed(filter, n)) =>
           if subscribing && n >= |s| then None
           else
             var entry := if subscribing then ReadOptions(filter, s[n]) else Some(Unsubscribed(filter));
             match ReadEntries(subscribing, if subscribing then s[n + 1..] else s[n..])
             case None => None
             case Some(rest) => if entry.None? then None else Some([entry.value] + rest)
  }

  function Asked(subscribing: bool, s: Subscription): Subscription {
    if subscribing then s else Unsubscribed(s.topicFilter)
  }

  function AllAsked(subscribing: bool, list: seq<Subscription>): seq<Subscription> {
    seq(|list|, i requires 0 <= i < |list| => Asked(subscribing, list[i]))
  }

  /** One entry at the front is read, and what follows it is left. */
  lemma ReadsOne(subscribing: bool, e: Subscription, rest: seq<byte>)
    requires |e.topicFilter| <= 0xFFFF
    ensures var tail := ReadEntries(subscribing, rest);
            ReadEntries(subscribing, Entry(subscribing, e) + rest)
            == if tail.None? then None else Some([Asked(subscribing, e)] + tail.value)
  {
    hide ParseString, Str, Options, ReadOptions;
    var s, tail := Entry(subscribing, e) + rest, (if subscribing then [Options(e)] else []) + rest;
    assert s == Str(e.topicFilter) + tail;
    ParseStringOfStr(e.topicFilter, tail);
    OptionsReadBack(Options(e), e);
    var n := 2 + |e.topicFilter|;
    assert s[n..] == tail;
    if subscribing {
      assert s[n] == tail[0] && s[n + 1..] == tail[1..] == rest;
    }
  }

  lemma AskedCons(subscribing: bool, list: seq<Subscription>)
    ensures list == [] ==> AllAsked(subscribing, list) == []
    ensures list != [] ==> AllAsked(subscribing, list)
                           == [Asked(subscribing, list[0])] + AllAsked(subscribing, list[1..])
  {
    hide Asked;
  }

  /** A reader of the payload finds the subscriptions, in order and field by field; of an UNSUBSCRIBE, the filters. */
  lemma {:induction false} EntriesReadBack(subscribing: bool, list: seq<Subscription>)
    requires FiltersFit(list)
    ensures ReadEntries(subscribing, Entries(subscribing, list)) == Some(AllAsked(subscribing, list))
    ensures subscribing ==> AllAsked(subscribing, list) == list
  {
    hide Entry, AllAsked;
    AskedCons(subscribing, list);
    if list != [] {
      EntriesReadBack(subscribing, list[1..]);
      ReadsOne(subscribing, list[0], Entries(subscribing, list[1..]));
      assert list == [list[0]] + list[1..];
    }
  }

  /**
   * A whole packet read as sections 3.8 and 3.10 of MQTT Version 5.0 lay it out: which of the two it is, its
   * identifier, its section and its entries.
   */
  function DecodeList(s: seq<byte>): Option<(bool, u16, seq<byte>, seq<Subscription>)> {
    if s == [] || (s[0] != 0x82 && s[0] != 0xA2) then None
    else match DecodeVar(s[1..])
         case None => None
         case Some(n) =>
           if |s| - 1 != SizeVar(n) + n || n < 2 then None
           else
             var body := s[1 + SizeVar(n)..];
             match TakeSection(body[2..])
             case None => None
             case Some((properties, payload)) =>
               match ReadEntries(s[0] == 0x82, payload)
               case None => None
               case Some(list) => Some((s[0] == 0x82, Read16(body), properties, list))
  }

  /** Every list packet of the calculator's length comes back out of that reader, field by field. */
  lemma ListComesBack(subscribing: bool, list: seq<Subscription>, packetId: u16, properties: seq<byte>)
    requires FiltersFit(list) && |properties| <= MAX_REMAINING_LENGTH
    requires ListLength(subscribing, list, |properties|) <= MAX_REMAINING_LENGTH
    ensures DecodeList(ListPacket(subscribing, list, packetId, properties,
                                  ListLength(subscribing, list, |properties|)))
         == Some((subscribing, packetId, properties, AllAsked(subscribing, list)))
  {
    hide EncodeVar, DecodeVar, SizeVar, Entries, ReadEntries, AllAsked, Section, TakeSection, Be16, Read16;
    var n := ListLength(subscribing, list, |properties|);
    var s, payload := ListPacket(subscribing, list, packetId, properties, n), Entries(subscribing, list);
    ListSizeIsTrue(subscribing, list, packetId, properties);
    SizeVarIsLength(n);
    var body := Be16(packetId) + (Section(properties) + payload);
    assert s == [KindOf(subscribing)] + (EncodeVar(n) + body);
    DecodeVarExact(s[1..], n);
    assert s[1 + SizeVar(n)..] == body && body[2..] == Section(properties) + payload;
    Read16OfBe16(packetId, Section(properties) + payload);
    TakeSectionOfSection(properties, payload);
    EntriesReadBack(subscribing, list);
  }

  /** No two subscriptions ask for different things with one options byte. */
  lemma OptionsAreInjective(a: Subscription, b: Subscription)
    requires Options(a) == Options(b)
    ensures a.qos == b.qos && a.noLocal == b.noLocal && a.retainAsPublished == b.retainAsPublished
         && a.retainHandling == b.retainHandling
  {
    hide Options;
    OptionsReadBack(Options(a), a);
    OptionsReadBack(Options(b), b);
  }

  // ---- the pieces a gather offers ----------------------------------------------------------

  /** The slices of one entry: its length field always, the filter only when it has bytes, then its options. */
  function Pieces(subscribing: bool, s: Subscription): (r: seq<seq<byte>>)
    requires |s.topicFilter| <= 0xFFFF
    ensures 1 <= |r| <= PerTopic(subscribing)
  {
    [Be16(|s.topicFilter|)] + (if s.topicFilter == [] then [] else [s.topicFilter])
    + (if subscribing then [[Options(s)]] else [])
  }

  function PerTopic(subscribing: bool): nat {
    if subscribing then 3 else 2
  }

  lemma PiecesAreEntry(subscribing: bool, s: Subscription)
    requires |s.topicFilter| <= 0xFFFF
    ensures Flatten(Pieces(subscribing, s)) == Entry(subscribing, s)
  {
    hide Options, Be16;
    var a, b := Be16(|s.topicFilter|), if s.topicFilter == [] then [] else [s.topicFilter];
    var c := if subscribing then [[Options(s)]] else [];
    FlattenAppend([a] + b, c);
    FlattenAppend([a], b);
    OneSlice(a);
    OneSlice(s.topicFilter);
    OneSlice([Options(s)]);
  }

  function AllPieces(subscribing: bool, list: seq<Subscription>): seq<seq<byte>>
    requires FiltersFit(list)
  {
    if list == [] then []
    else AllPieces(subscribing, list[..|list| - 1]) + Pieces(subscribing, list[|list| - 1])
  }

  lemma {:induction false} AllPiecesAreEntries(subscribing: bool, list: seq<Subscription>)
    requires FiltersFit(list)
    ensures Flatten(AllPieces(subscribing, list)) == Entries(subscribing, list)
  {
    hide Pieces, Entry;
    if list != [] {
      var n := |list| - 1;
      AllPiecesAreEntries(subscribing, list[..n]);
      FlattenAppend(AllPieces(subscribing, list[..n]), Pieces(subscribing, list[n]));
      PiecesAreEntry(subscribing, list[n]);
      OneMoreEntry(subscribing, list, n);
      assert list[..n + 1] == list;
    }
  }
}
