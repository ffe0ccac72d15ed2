/** `send_list`: one SUBSCRIBE or UNSUBSCRIBE offered to the transport in gathers of a few slices each. */
module Gather {
  import opened Bytes
  import opened Header
  import opened Packet
  import opened Wire
  import opened Lists
  import opened Link
  import opened Client

  /** The fewest slices a gather may hold; the default of the library is four. */
  const LEAST_VECTORS: nat := 3

  /** The slices that go out ahead of every filter, in the first gather: header, encoded length, section if any. */
  function Carried(subscribing: bool, packetId: u16, properties: seq<byte>, remaining: u32): (r: seq<seq<byte>>)
    ensures 2 <= |r| <= 3
  {
    [IdHeader(KindOf(subscribing), remaining, packetId), EncodeVar(|properties|)]
    + (if properties == [] then [] else [properties])
  }

  lemma CarriedIsFront(subscribing: bool, packetId: u16, properties: seq<byte>, remaining: u32)
    ensures Flatten(Carried(subscribing, packetId, properties, remaining))
         == Front(subscribing, packetId, properties, remaining)
  {
    hide IdHeader, EncodeVar, KindOf;
    var a, b := IdHeader(KindOf(subscribing), remaining, packetId), EncodeVar(|properties|);
    var v := Carried(subscribing, packetId, properties, remaining);
    OneSlice(properties);
    assert v[1..][1..] == if properties == [] then [] else [properties];
    assert Flatten(v) == a + (b + properties);
  }

  /** The header and the encoded length are written into buffers of seven and four bytes. */
  method Carry(subscribing: bool, packetId: u16, properties: seq<byte>, remaining: u32)
    returns (carried: seq<seq<byte>>)
    requires |properties| <= MAX_REMAINING_LENGTH && remaining <= MAX_REMAINING_LENGTH
    ensures carried == Carried(subscribing, packetId, properties, remaining)
  {
    hide EncodeVar, SizeVar, KindOf;
    SizeVarIsLength(remaining);
    SizeVarIsLength(|properties|);
    var fixed := new byte[7];
    var header := SerializeIdHeader(fixed, KindOf(subscribing), remaining, packetId);
    assert fixed[..header] == IdHeader(KindOf(subscribing), remaining, packetId);
    var field := new byte[4];
    var written := EncodeVariableLength(field, 0, |properties|);
    assert field[..written] == EncodeVar(|properties|);
    return [fixed[..header], field[..written]] + (if properties == [] then [] else [properties]);
  }

  // ---- which entries one gather takes -----------------------------------------------------

  lemma OneMorePiece(subscribing: bool, list: seq<Subscription>, i: nat)
    requires FiltersFit(list) && i < |list|
    ensures AllPieces(subscribing, list[..i + 1]) == AllPieces(subscribing, list[..i]) + Pieces(subscribing, list[i])
  {
    hide Pieces;
    var s := list[..i + 1];
    assert s[..|s| - 1] == list[..i] && s[|s| - 1] == list[i];
  }

  lemma PieceCount(subscribing: bool, s: Subscription)
    requires |s.topicFilter| <= 0xFFFF
    ensures |Pieces(subscribing, s)| == 1 + (if s.topicFilter == [] then 0 else 1) + (if subscribing then 1 else 0)
  {
  }

  /** The little buffers hold the length fields, and for a SUBSCRIBE the options, of the first `taken` entries. */
  predicate Noted(fields: seq<seq<byte>>, options: seq<byte>, subscribing: bool, list: seq<Subscription>, taken: nat)
    requires FiltersFit(list)
  {
    && taken <= |list| && taken <= |fields| && taken <= |options|
    && forall i :: 0 <= i < taken ==>
         fields[i] == Be16(|list[i].topicFilter|) && (subscribing ==> options[i] == Options(list[i]))
  }

  lemma NotedMore(fields: seq<seq<byte>>, options: seq<byte>, subscribing: bool, list: seq<Subscription>, taken: nat)
    requires FiltersFit(list) && Noted(fields, options, subscribing, list, taken)
    requires taken < |list| && taken < |fields| && taken < |options|
    ensures Noted(fields[taken := Be16(|list[taken].topicFilter|)],
                  if subscribing then options[taken := Options(list[taken])] else options, subscribing, list, taken + 1)
  {
    hide Be16, Options;
  }

  lemma NotedAt(fields: seq<seq<byte>>, options: seq<byte>, subscribing: bool, list: seq<Subscription>, taken: nat,
                i: nat)
    requires FiltersFit(list) && Noted(fields, options, subscribing, list, taken) && i < taken
    ensures fields[i] == Be16(|list[i].topicFilter|) && (subscribing ==> options[i] == Options(list[i]))
  {
  }

  /**
   * The inner loop over the entries still to send: they are taken while a whole one still fits. What has been
   * counted is what will be offered.
   */
  method TakeEntries(subscribing: bool, list: seq<Subscription>, carried: nat, maxVectors: nat,
                     fields: array<seq<byte>>, options: array<byte>)
    returns (taken: nat)
    requires FiltersFit(list) && carried <= maxVectors && LEAST_VECTORS <= maxVectors
    requires fields.Length == options.Length == maxVectors
    modifies fields, options
    ensures taken <= |list| && Noted(fields[..], options[..], subscribing, list, taken)
    ensures carried + |AllPieces(subscribing, list[..taken])| <= maxVectors
    ensures taken == |list| || carried + |AllPieces(subscribing, list[..taken])| > maxVectors - PerTopic(subscribing)
    ensures carried == 0 && list != [] ==> taken > 0
  {
    hide Pieces, AllPieces, Be16, Options, Noted;
    var room := maxVectors - PerTopic(subscribing);
    var used := carried;
    taken := 0;
    NothingNoted(fields[..], options[..], subscribing, list);
    while used <= room && taken < |list|
      invariant Noted(fields[..], options[..], subscribing, list, taken) && taken <= |list|
      invariant used == carried + |AllPieces(subscribing, list[..taken])| <= maxVectors
      invariant taken <= used - carried
      decreases |list| - taken
    {
      var entry := list[taken];
      OneMorePiece(subscribing, list, taken);
      PieceCount(subscribing, entry);
      NotedMore(fields[..], options[..], subscribing, list, taken);
      fields[taken] := Be16(|entry.topicFilter|);
      used := used + 1;
      if entry.topicFilter != [] {
        used := used + 1;
      }
      if subscribing {
        options[taken] := Options(entry);
        used := used + 1;
      }
      taken := taken + 1;
    }
  }

  lemma NothingNoted(fields: seq<seq<byte>>, options: seq<byte>, subscribing: bool, list: seq<Subscription>)
    requires FiltersFit(list)
    ensures Noted(fields, options, subscribing, list, 0) && AllPieces(subscribing, list[..0]) == []
  {
  }

  // ---- laying the slices out --------------------------------------------------------------

  /** One slice into the array of slices, dropped when the array is full; `wanted` counts it either way. */
  method Place(parts: array<seq<byte>>, wanted: nat, count: nat, slice: seq<byte>, ghost done: seq<seq<byte>>)
    returns (nowWanted: nat, nowCount: nat)
    requires count == |done| <= parts.Length && parts[..count] == done
    modifies parts
    ensures nowWanted == wanted + 1
    ensures count < parts.Length ==> nowCount == count + 1 && parts[..nowCount] == done + [slice]
    ensures count == parts.Length ==> nowCount == count && parts[..nowCount] == done
  {
    nowWanted, nowCount := wanted + 1, count;
    if count < parts.Length {
      parts[count] := slice;
      nowCount := count + 1;
    }
  }

  method PlaceEntry(parts: array<seq<byte>>, wanted: nat, count: nat, subscribing: bool, s: Subscription,
                    field: seq<byte>, options: byte, ghost done: seq<seq<byte>>)
    returns (nowWanted: nat, nowCount: nat, bytes: nat)
    requires |s.topicFilter| <= 0xFFFF && field == Be16(|s.topicFilter|) && (subscribing ==> options == Options(s))
    requires count == |done| <= parts.Length && parts[..count] == done
    requires count + |Pieces(subscribing, s)| <= parts.Length
    modifies parts
    ensures nowCount == count + |Pieces(subscribing, s)| && nowWanted - wanted == nowCount - count
    ensures parts[..nowCount] == done + Pieces(subscribing, s) && bytes == |Entry(subscribing, s)|
  {
    hide Be16, Options;
    nowWanted, nowCount := Place(parts, wanted, count, field, done);
    bytes := 2;
    ghost var all := done + [field];
    if s.topicFilter != [] {
      nowWanted, nowCount := Place(parts, nowWanted, nowCount, s.topicFilter, all);
      bytes := bytes + |s.topicFilter|;
      all := all + [s.topicFilter];
    }
    if subscribing {
      nowWanted, nowCount := Place(parts, nowWanted, nowCount, [options], all);
      bytes := bytes + 1;
      all := all + [[options]];
    }
    assert all == done + Pieces(subscribing, s);
  }

  method PlaceCarried(parts: array<seq<byte>>, carried: seq<seq<byte>>) returns (wanted: nat, count: nat)
    requires |carried| <= parts.Length
    modifies parts
    ensures wanted == count == |carried| && parts[..count] == carried
  {
    wanted, count := 0, 0;
    while count < |carried|
      invariant wanted == count <= |carried| && parts[..count] == carried[..count]
    {
      assert carried[..count] + [carried[count]] == carried[..count + 1];
      wanted, count := Place(parts, wanted, count, carried[count], carried[..count]);
    }
  }

  /** Every slice this gather wanted has a place in the array, for each number of slices a gather may hold. */
  method LayOut(parts: array<seq<byte>>, carried: seq<seq<byte>>, subscribing: bool, chosen: seq<Subscription>,
                fields: seq<seq<byte>>, options: seq<byte>)
    returns (wanted: nat, count: nat, total: nat)
    requires FiltersFit(chosen) && Noted(fields, options, subscribing, chosen, |chosen|)
    requires |carried| + |AllPieces(subscribing, chosen)| <= parts.Length
    modifies parts
    ensures wanted == count <= parts.Length && parts[..count] == carried + AllPieces(subscribing, chosen)
    ensures total == |Flatten(carried)| + |Entries(subscribing, chosen)|
  {
    hide Pieces, AllPieces, Entry, Entries, Be16, Options, Flatten, Noted;
    wanted, count := PlaceCarried(parts, carried);
    total := |Flatten(carried)|;
    NoEntries(subscribing);
    NothingNoted(fields, options, subscribing, chosen);
    assert carried + [] == carried;
    assert |chosen| <= |fields| && |chosen| <= |options| by { EnoughNoted(fields, options, subscribing, chosen); }
    var i := 0;
    while i < |chosen|
      invariant i <= |chosen| && wanted == count == |carried| + |AllPieces(subscribing, chosen[..i])| <= parts.Length
      invariant parts[..count] == carried + AllPieces(subscribing, chosen[..i])
      invariant total == |Flatten(carried)| + |Entries(subscribing, chosen[..i])|
    {
      ghost var soFar := AllPieces(subscribing, chosen[..i]);
      PiecesGrow(subscribing, chosen, i + 1);
      OneMorePiece(subscribing, chosen, i);
      OneMoreEntry(subscribing, chosen, i);
      NotedAt(fields, options, subscribing, chosen, |chosen|, i);
      var bytes: nat;
      wanted, count, bytes :=
        PlaceEntry(parts, wanted, count, subscribing, chosen[i], fields[i], options[i], carried + soFar);
      Reassociate(carried, soFar, Pieces(subscribing, chosen[i]));
      total := total + bytes;
      i := i + 1;
    }
    assert chosen[..i] == chosen;
  }

  lemma EnoughNoted(fields: seq<seq<byte>>, options: seq<byte>, subscribing: bool, list: seq<Subscription>)
    requires FiltersFit(list) && Noted(fields, options, subscribing, list, |list|)
    ensures |list| <= |fields| && |list| <= |options|
  {
  }

  lemma Reassociate(a: seq<seq<byte>>, b: seq<seq<byte>>, c: seq<seq<byte>>)
    ensures a + b + c == a + (b + c)
  {
  }

  lemma {:induction false} PiecesGrow(subscribing: bool, list: seq<Subscription>, i: nat)
    requires FiltersFit(list) && i <= |list|
    ensures |AllPieces(subscribing, list[..i])| <= |AllPieces(subscribing, list)|
    decreases |list| - i
  {
    hide Pieces, AllPieces;
    if i < |list| {
      PiecesGrow(subscribing, list, i + 1);
      OneMorePiece(subscribing, list, i);
    } else {
      assert list[..i] == list;
    }
  }

  // ---- the whole packet -------------------------------------------------------------------

  /** One gather: the slices it carries, the entries that still fit, sent as one array of slices. */
  method SendGather(context: MqttContext, transport: Transport, clock: Clock, carried: seq<seq<byte>>,
                    subscribing: bool, list: seq<Subscription>, maxVectors: nat)
    returns (ok: bool, taken: nat, ghost sent: nat)
    requires Lively(transport, clock) && FiltersFit(list) && |carried| <= maxVectors && LEAST_VECTORS <= maxVectors
    modifies context`connectStatus, context`lastPacketTxTime, context`sentAt, transport, clock
    ensures taken <= |list| && (carried == [] && list != [] ==> taken > 0)
    ensures var message := Flatten(carried) + Entries(subscribing, list[..taken]);
            && sent <= |message| && transport.log == old(transport.log) + message[..sent]
            && (ok <==> sent == |message|)
    ensures transport.receives == old(transport.receives) && clock.readings > old(clock.readings)
    ensures ok ==> context.connectStatus == old(context.connectStatus)
    ensures !ok ==>
            context.connectStatus == AfterFailure(old(context.connectStatus)) || GaveUp(clock, old(clock.readings))
    ensures context.connectStatus in {old(context.connectStatus), AfterFailure(old(context.connectStatus))}
    ensures old(context.Timed(clock)) ==> context.Timed(clock)
  {
    hide Flatten, AllPieces, Entries, Noted, OfferedRest, MqttContext.Timed;
    var fields := new seq<byte>[maxVectors];
    var options := new byte[maxVectors];
    taken := TakeEntries(subscribing, list, |carried|, maxVectors, fields, options);
    var parts := new seq<byte>[maxVectors];
    var chosen := list[..taken];
    NotedPrefix(fields[..], options[..], subscribing, list, taken);
    var wanted, count, total := LayOut(parts, carried, subscribing, chosen, fields[..], options[..]);
    assert wanted == count;
    var gather := new seq<byte>[count](i requires 0 <= i < count <= parts.Length reads parts => parts[i]);
    assert gather[..] == parts[..count];
    FlattenAppend(carried, AllPieces(subscribing, chosen));
    AllPiecesAreEntries(subscribing, chosen);
    var outcome, counted, _ := context.SendVectors(transport, clock, gather);
    sent := counted;
    return outcome == Delivered(total), taken, sent;
  }

  /** The last reading was past the deadline of a send begun at reading `from` or later. */
  ghost predicate GaveUp(clock: Clock, from: nat)
    reads clock
  {
    exists s: nat :: from <= s < clock.readings
                     && ElapsedMs(clock.At(clock.readings - 1), clock.At(s)) > SEND_TIMEOUT_MS
  }

  lemma GaveUpSooner(clock: Clock, from: nat, later: nat)
    requires from <= later
    ensures GaveUp(clock, later) ==> GaveUp(clock, from)
  {
  }

  /** Of a clock that ticks, giving up means that the time has truly gone by. */
  lemma GaveUpTruly(clock: Clock, from: nat)
    requires clock.Ticks() && GaveUp(clock, from)
    ensures clock.time(clock.readings - 1) > clock.time(from) + SEND_TIMEOUT_MS
  {
    hide Clock.Ticks, ElapsedMs;
    var s: nat :| from <= s < clock.readings
                  && ElapsedMs(clock.At(clock.readings - 1), clock.At(s)) > SEND_TIMEOUT_MS;
    TimeGrows(clock, s, clock.readings - 1);
    TimeGrows(clock, from, s);
    ElapsedIsNotMore(clock.time(clock.readings - 1), clock.time(s));
  }

  lemma NotedPrefix(fields: seq<seq<byte>>, options: seq<byte>, subscribing: bool, list: seq<Subscription>, taken: nat)
    requires FiltersFit(list) && Noted(fields, options, subscribing, list, taken)
    ensures taken <= |list| && Noted(fields, options, subscribing, list[..taken], taken)
  {
  }

  /** Everything but the connection that decides whether a list is sent: the validators' verdict, and the size. */
  predicate Sendable(valid: bool, list: seq<Subscription>, properties: seq<byte>, subscribing: bool, max: u32) {
    && valid && |properties| <= MAX_REMAINING_LENGTH && list != [] && max != 0 && FiltersFit(list)
    && ListLength(subscribing, list, |properties|) <= MAX_REMAINING_LENGTH
    && PacketSize(ListLength(subscribing, list, |properties|)) <= max
  }

  /** What the gathers before entry `at` have sent of the packet. */
  function SentBefore(first: bool, front: seq<byte>, subscribing: bool, list: seq<Subscription>, at: nat): seq<byte>
    requires FiltersFit(list) && at <= |list|
  {
    if first then [] else front + Entries(subscribing, list[..at])
  }

  lemma NothingSent(front: seq<byte>, subscribing: bool, list: seq<Subscription>)
    requires FiltersFit(list)
    ensures SentBefore(true, front, subscribing, list, 0) == []
  {
  }

  lemma AllSent(front: seq<byte>, subscribing: bool, list: seq<Subscription>)
    requires FiltersFit(list)
    ensures SentBefore(false, front, subscribing, list, |list|) == front + Entries(subscribing, list)
  {
    assert list[..|list|] == list;
  }

  /** One gather carries the packet on from where the last one left it. */
  lemma CarriesOn(first: bool, front: seq<byte>, subscribing: bool, list: seq<Subscription>, at: nat, taken: nat,
                  count: nat)
    requires FiltersFit(list) && at + taken <= |list| && (first ==> at == 0)
    requires count <= |(if first then front else []) + Entries(subscribing, list[at..at + taken])|
    ensures var done, part, all :=
              SentBefore(first, front, subscribing, list, at),
              (if first then front else []) + Entries(subscribing, list[at..at + taken]),
              front + Entries(subscribing, list);
            && |done| + |part| <= |all| && done + part[..count] == all[..|done| + count]
            && done + part == SentBefore(false, front, subscribing, list, at + taken)
  {
    hide Entries;
    EntriesSplit(subscribing, list, at + taken);
    Together(subscribing, list, at, taken);
    var a, b := Entries(subscribing, list[..at]), Entries(subscribing, list[at..at + taken]);
    var c := Entries(subscribing, list[at + taken..]);
    assert first ==> a == [] by {
      NoEntries(subscribing);
      assert first ==> list[..at] == [];
    }
    RunsJoin(first, front, a, b, c, count);
  }

  lemma Together(subscribing: bool, list: seq<Subscription>, at: nat, taken: nat)
    requires FiltersFit(list) && at + taken <= |list|
    ensures Entries(subscribing, list[..at + taken])
         == Entries(subscribing, list[..at]) + Entries(subscribing, list[at..at + taken])
  {
    hide Entries;
    EntriesAppend(subscribing, list[..at], list[at..at + taken]);
    assert list[..at] + list[at..at + taken] == list[..at + taken];
  }

  /** A front and three runs of bytes, the front going out with the first run or before it. */
  lemma RunsJoin(first: bool, front: seq<byte>, a: seq<byte>, b: seq<byte>, c: seq<byte>, count: nat)
    requires first ==> a == []
    requires count <= |(if first then front else []) + b|
    ensures var done, part, all := (if first then [] else front + a), (if first then front else []) + b,
            front + (a + b + c);
            && |done| + |part| <= |all| && done + part[..count] == all[..|done| + count]
            && done + part == front + (a + b)
  {
    var done, part := (if first then [] else front + a), (if first then front else []) + b;
    if first {
      assert done + part == front + b == front + (a + b);
    } else {
      assert part == b;
    }
    assert front + (a + b + c) == done + part + c;
    Within(done, part, c, count);
  }

  lemma Within(done: seq<byte>, part: seq<byte>, rest: seq<byte>, count: nat)
    requires count <= |part|
    ensures done + part[..count] == (done + part + rest)[..|done| + count]
  {
  }

  /**
   * `send_list`. Nothing goes out unless the arguments and the connection allow it; then, over all the gathers it
   * makes, the bytes the transport accepted are a prefix of one packet, and the whole packet exactly when it
   * answers Ok. The packet is the one the buffered serializer lays down, and it does not depend on how many
   * slices a gather may hold. `SendFailed` means the transport failed or the deadline passed: never that a slice
   * had no room. `valid` is the answer of the validators that come first.
   */
  method SendList(context: MqttContext, transport: Transport, clock: Clock, valid: bool, list: seq<Subscription>,
                  packetId: u16, properties: seq<byte>, subscribing: bool, maxVectors: nat)
    returns (r: Result<(), ClientError>, ghost sent: nat)
    requires Lively(transport, clock) && LEAST_VECTORS <= maxVectors
    modifies context`connectStatus, context`lastPacketTxTime, context`sentAt, transport, clock
    ensures var sendable := Sendable(valid, list, properties, subscribing, context.serverMaxPacketSize);
            var refusal := if sendable then old(context.StatusRefusal()) else Some(ClientError.BadParameter);
            && (refusal.Some? ==> r == Err(refusal.value) && sent == 0 && transport.log == old(transport.log)
                                  && transport.offers == old(transport.offers)
                                  && context.connectStatus == old(context.connectStatus))
            && (refusal.None? ==>
                  var n := ListLength(subscribing, list, |properties|);
                  PacketSent(transport, ListPacket(subscribing, list, packetId, properties, n), sent, r))
    ensures transport.receives == old(transport.receives)
    ensures r.Ok? ==> context.connectStatus == old(context.connectStatus)
    ensures r == Err(ClientError.SendFailed) ==>
              context.connectStatus == ConnectionStatus.DisconnectPending || GaveUp(clock, old(clock.readings))
    ensures old(context.Timed(clock)) ==> context.Timed(clock)
  {
    hide Flatten, Entries, Front, PacketSize, ListLength, SentBefore, GaveUp, Lively, MqttContext.Timed;
    sent := 0;
    if !valid || |properties| > U32_MAX {
      return Err(ClientError.BadParameter), 0;
    }
    var size := ListPacketSize(subscribing, list, |properties|, context.serverMaxPacketSize);
    if size.None? {
      return Err(ClientError.BadParameter), 0;
    }
    if context.StatusRefusal().Some? {
      return Err(context.StatusRefusal().value), 0;
    }
    var remaining := size.value.remainingLength;
    var carried := Carry(subscribing, packetId, properties, remaining);
    CarriedIsFront(subscribing, packetId, properties, remaining);
    NoSlices();
    ghost var log0, front := transport.log, Front(subscribing, packetId, properties, remaining);
    assert SentBefore(true, front, subscribing, list, 0) == [] by { NothingSent(front, subscribing, list); }
    var at := 0;
    var first := true;
    while first || at < |list|
      invariant at <= |list| && (first ==> at == 0) && remaining == ListLength(subscribing, list, |properties|)
      invariant transport.log == log0 + SentBefore(first, front, subscribing, list, at)
      invariant sent == |SentBefore(first, front, subscribing, list, at)|
      invariant context.connectStatus == old(context.connectStatus) && transport.receives == old(transport.receives)
      invariant clock.readings >= old(clock.readings) && Lively(transport, clock)
      invariant old(context.Timed(clock)) ==> context.Timed(clock)
      decreases |list| - at, first
    {
      ghost var reading := clock.readings;
      var ok, taken, count := SendGather(context, transport, clock, if first then carried else [], subscribing,
                                         list[at..], maxVectors);
      GaveUpSooner(clock, old(clock.readings), reading);
      assert list[at..][..taken] == list[at..at + taken];
      assert Flatten(if first then carried else []) == if first then front else [];
      CarriesOn(first, front, subscribing, list, at, taken, count);
      sent := sent + count;
      if !ok {
        return Err(ClientError.SendFailed), sent;
      }
      at := at + taken;
      first := false;
    }
    AllSent(front, subscribing, list);
    return Ok(()), sent;
  }

  /** A prefix of the packet was accepted, and the whole of it exactly on success. */
  twostate predicate PacketSent(transport: Transport, packet: seq<byte>, sent: nat, new r: Result<(), ClientError>)
    reads transport
  {
    && sent <= |packet| && transport.log == old(transport.log) + packet[..sent]
    && r == if sent == |packet| then Ok(()) else Err(ClientError.SendFailed)
  }

  /**
   * The buffered serializer, given the calculator's number and a buffer of the calculator's size, lays down the
   * same packet; it refuses only the empty filters the gathered form would send.
   */
  lemma BufferedAgrees(list: seq<Subscription>, packetId: u16, properties: seq<byte>, subscribing: bool, max: u32)
    requires Sendable(true, list, properties, subscribing, max) && packetId != 0
    ensures var n := ListLength(subscribing, list, |properties|);
            && |ListPacket(subscribing, list, packetId, properties, n)| == PacketSize(n) <= max
            && (Serializable(list, properties, packetId, n) <==> NoEmptyFilter(list))
  {
    hide ListPacket, PacketSize, ListLength;
    ListSizeIsTrue(subscribing, list, packetId, properties);
  }
}
