/** The MQTT fixed header: a type byte and a variable byte integer (MQTT Version 5.0, sections 1.5.5 and 2.1). */
module Header {
  import opened Bytes

  const MAX_REMAINING_LENGTH: u32 := 268_435_455
  const REMAINING_LENGTH_INVALID: u32 := 268_435_456

  const CONNECT: byte := 0x10
  const CONNACK: byte := 0x20
  const PUBLISH: byte := 0x30
  const PUBACK: byte := 0x40
  const PUBREC: byte := 0x50
  const PUBREL: byte := 0x62
  const PUBCOMP: byte := 0x70
  const SUBSCRIBE: byte := 0x82
  const SUBACK: byte := 0x90
  const UNSUBSCRIBE: byte := 0xA2
  const UNSUBACK: byte := 0xB0
  const PINGREQ: byte := 0xC0
  const PINGRESP: byte := 0xD0
  const DISCONNECT: byte := 0xE0
  const AUTH: byte := 0xF0

  // ---- writing ------------------------------------------------------------

  /** The variable byte integer: seven bits a byte, least significant first, top bit "more follows". */
  function EncodeVar(n: nat): (s: seq<byte>)
    ensures |s| >= 1
  {
    if n < 128 then [n] else [n % 128 + 128] + EncodeVar(n / 128)
  }

  function SizeVar(n: u32): (r: u32)
    ensures 1 <= r <= 4
  {
    if n < 128 then 1 else if n < 16_384 then 2 else if n < 2_097_152 then 3 else 4
  }

  lemma SizeVarIsLength(n: u32)
    requires n <= MAX_REMAINING_LENGTH
    ensures |EncodeVar(n)| == SizeVar(n)
  {
    var a := n / 128;
    var b := a / 128;
    var c := b / 128;
    assert c < 128;
    assert n >= 128 ==> EncodeVar(n) == [n % 128 + 128] + EncodeVar(a);
    assert a >= 128 ==> EncodeVar(a) == [a % 128 + 128] + EncodeVar(b);
    assert b >= 128 ==> EncodeVar(b) == [b % 128 + 128] + EncodeVar(c);
  }

  /**
   * Writes `length` at `at`. A destination shorter than the computed size is left alone and answers 0.
   * Above the legal maximum the size is computed as four while the loop has five bytes to lay down:
   * the write is then cut off by the end of the destination.
   */
  method EncodeVariableLength(destination: array<byte>, at: nat, length: u32) returns (written: nat)
    requires at <= destination.Length
    modifies destination
    ensures destination.Length - at < SizeVar(length) ==> written == 0 && destination[..] == old(destination[..])
    ensures destination.Length - at >= SizeVar(length) ==>
              && written == Min(|EncodeVar(length)|, destination.Length - at)
              && destination[..] == Splice(old(destination[..]), at, EncodeVar(length)[..written])
    ensures length <= MAX_REMAINING_LENGTH ==>
              written == if destination.Length - at < SizeVar(length) then 0 else |EncodeVar(length)|
  {
    if length <= MAX_REMAINING_LENGTH {
      SizeVarIsLength(length);
    }
    if destination.Length - at < SizeVar(length) {
      return 0;
    }
    var remaining: nat := length;
    written := 0;
    ghost var all := EncodeVar(length);
    while true
      invariant written < |all| && all[written..] == EncodeVar(remaining)
      invariant at + written <= destination.Length
      invariant destination[..] == Splice(old(destination[..]), at, all[..written])
      decreases |all| - written
    {
      var b := remaining % 128;
      remaining := remaining / 128;
      if remaining > 0 {
        b := b + 128;
      }
      assert all[written] == b;
      if at + written >= destination.Length {
        return;
      }
      Continue(destination, old(destination[..]), at, all[..written], at + written, [b]);
      assert all[..written] + [b] == all[..written + 1];
      written := written + 1;
      if remaining == 0 {
        assert all[written..] == [];
        break;
      }
      assert all[written..] == EncodeVar(remaining);
    }
  }

  // ---- reading ------------------------------------------------------------

  datatype Scan = Short | Overlong | Found(value: nat, width: nat)

  /** Up to four seven-bit groups, `used` of them already taken; a fifth is refused before it is looked for. */
  function ScanVar(s: seq<byte>, used: nat): Scan
    requires used <= 4
    decreases 4 - used
  {
    if used == 4 then Overlong
    else if s == [] then Short
    else if s[0] < 128 then Found(s[0], 1)
    else match ScanVar(s[1..], used + 1)
         case Found(v, w) => Found(s[0] - 128 + 128 * v, w + 1)
         case other => other
  }

  /** 128 to the power of the groups still allowed. */
  function Room(used: nat): (r: nat)
    requires used <= 4
    ensures r >= 1
    decreases 4 - used
  {
    if used == 4 then 1 else 128 * Room(used + 1)
  }

  lemma {:induction false} ScanBounds(s: seq<byte>, used: nat)
    requires used <= 4 && ScanVar(s, used).Found?
    ensures var f := ScanVar(s, used); 1 <= f.width <= 4 - used && f.width <= |s| && f.value < Room(used)
    decreases 4 - used
  {
    if s[0] >= 128 {
      ScanBounds(s[1..], used + 1);
    }
  }

  lemma {:induction false} ScanEncoded(n: nat, used: nat, rest: seq<byte>)
    requires used < 4 && n < Room(used)
    ensures ScanVar(EncodeVar(n) + rest, used) == Found(n, |EncodeVar(n)|)
    decreases 4 - used
  {
    if n >= 128 {
      ScanEncoded(n / 128, used + 1, rest);
      assert (EncodeVar(n) + rest)[1..] == EncodeVar(n / 128) + rest;
    }
  }

  /** A scan that took exactly as many bytes as its value needs took the encoder's own bytes. */
  lemma {:induction false} ScanCanonical(s: seq<byte>, used: nat)
    requires used <= 4 && ScanVar(s, used).Found?
    requires ScanVar(s, used).width == |EncodeVar(ScanVar(s, used).value)|
    ensures var f := ScanVar(s, used); f.width <= |s| && s[..f.width] == EncodeVar(f.value)
    decreases 4 - used
  {
    ScanBounds(s, used);
    if s[0] >= 128 {
      ScanBounds(s[1..], used + 1);
      var inner := ScanVar(s[1..], used + 1);
      assert ScanVar(s, used).value / 128 == inner.value;
      ScanCanonical(s[1..], used + 1);
      assert s[..inner.width + 1] == [s[0]] + s[1..][..inner.width];
    }
  }

  lemma {:induction false} ScanStable(s: seq<byte>, used: nat, more: seq<byte>)
    requires used <= 4 && !ScanVar(s, used).Short?
    ensures ScanVar(s + more, used) == ScanVar(s, used)
    decreases 4 - used
  {
    if used < 4 && s[0] >= 128 {
      assert (s + more)[1..] == s[1..] + more;
      ScanStable(s[1..], used + 1, more);
    }
  }

  lemma {:induction false} ScanCut(s: seq<byte>, used: nat, k: nat)
    requires used <= 4 && ScanVar(s, used).Found? && k < ScanVar(s, used).width && k <= |s|
    ensures ScanVar(s[..k], used).Short?
    decreases 4 - used
  {
    if s[0] >= 128 && k > 0 {
      ScanBounds(s[1..], used + 1);
      ScanCut(s[1..], used + 1, k - 1);
      assert s[..k][1..] == s[1..][..k - 1];
    }
  }

  lemma {:induction false} ScanShort(s: seq<byte>, used: nat)
    requires used <= 4 && ScanVar(s, used).Short?
    ensures |s| < 4 - used
    decreases 4 - used
  {
    if s != [] {
      ScanShort(s[1..], used + 1);
    }
  }

  // ---- the property length decoder ---------------------------------------

  /** The property length at the front of `s`: too long, truncated and non-minimal forms are all refused. */
  function DecodeVar(s: seq<byte>): (r: Option<u32>)
    ensures r.Some? ==> r.value <= MAX_REMAINING_LENGTH
  {
    match ScanVar(s, 0)
    case Found(v, w) =>
      ScanBounds(s, 0);
      assert Room(0) == 0x1000_0000;
      if w == SizeVar(v) then Some(v) else None
    case _ => None
  }

  /** The decoder accepts exactly the encoder's image, whatever follows it. */
  lemma DecodeVarExact(s: seq<byte>, v: u32)
    ensures DecodeVar(s) == Some(v) <==> v <= MAX_REMAINING_LENGTH && EncodeVar(v) <= s
  {
    assert Room(0) == 0x1000_0000;
    if DecodeVar(s) == Some(v) {
      SizeVarIsLength(v);
      ScanCanonical(s, 0);
    }
    if v <= MAX_REMAINING_LENGTH && EncodeVar(v) <= s {
      SizeVarIsLength(v);
      ScanEncoded(v, 0, s[|EncodeVar(v)|..]);
      assert s == EncodeVar(v) + s[|EncodeVar(v)|..];
    }
  }

  /** 128 to the power of the groups taken: the decoders' `multiplier`. */
  function Weight(taken: nat): nat
    requires taken <= 4
  {
    if taken == 0 then 1 else if taken == 1 then 128 else if taken == 2 then 16_384
    else if taken == 3 then 2_097_152 else 268_435_456
  }

  /** What the whole scan answers when the rest of it answers `tail`. */
  function Resume(tail: Scan, sum: nat, taken: nat): Scan
    requires taken <= 4
  {
    match tail
    case Found(v, w) => Found(sum + Weight(taken) * v, taken + w)
    case other => other
  }

  /** One turn of either decoder's loop: the next byte is folded into the sum. */
  lemma TakeGroup(s: seq<byte>, sum: nat, taken: nat)
    requires taken < 4 && s != [] && sum < Weight(taken)
    ensures var next := sum + s[0] as int % 128 * Weight(taken);
            && Weight(taken + 1) == Weight(taken) * 128 && next < Weight(taken + 1)
            && Resume(ScanVar(s, taken), sum, taken)
               == if s[0] < 128 then Found(next, taken + 1)
                  else Resume(ScanVar(s[1..], taken + 1), next, taken + 1)
  {
    var low := s[0] as int % 128;
    assert low == if s[0] < 128 then s[0] as int else s[0] as int - 128;
    if s[0] < 128 {
      Fold(taken, sum, low, 0);
    } else {
      var tail := ScanVar(s[1..], taken + 1);
      Fold(taken, sum, low, if tail.Found? then tail.value else 0);
    }
  }

  /** A group joins the sum at its weight. */
  lemma Fold(taken: nat, sum: nat, low: nat, v: nat)
    requires taken < 4 && sum < Weight(taken) && low < 128
    ensures Weight(taken + 1) == Weight(taken) * 128 && sum + low * Weight(taken) < Weight(taken + 1)
    ensures sum + Weight(taken) * (low + 128 * v) == sum + low * Weight(taken) + Weight(taken + 1) * v
    ensures v == 0 ==> sum + Weight(taken) * low == sum + low * Weight(taken)
  {
    if taken == 0 {
    } else if taken == 1 {
    } else if taken == 2 {
    } else {
    }
  }

  /** `decode_variable_length`. */
  method DecodeVariableLength(buffer: seq<byte>) returns (r: Option<u32>)
    ensures r == DecodeVar(buffer)
  {
    var remainingLength: nat := 0;
    var multiplier: nat := 1;
    var bytesDecoded: nat := 0;
    while true
      invariant bytesDecoded <= 4 && bytesDecoded <= |buffer|
      invariant multiplier == Weight(bytesDecoded) && remainingLength < multiplier
      invariant ScanVar(buffer, 0)
                == Resume(ScanVar(buffer[bytesDecoded..], bytesDecoded), remainingLength, bytesDecoded)
      decreases 4 - bytesDecoded
    {
      if multiplier > 2_097_152 {
        return None;
      }
      if bytesDecoded >= |buffer| {
        return None;
      }
      var b: int := buffer[bytesDecoded];
      assert buffer[bytesDecoded..][1..] == buffer[bytesDecoded + 1..];
      TakeGroup(buffer[bytesDecoded..], remainingLength, bytesDecoded);
      remainingLength := remainingLength + b % 128 * multiplier;
      multiplier := multiplier * 128;
      bytesDecoded := bytesDecoded + 1;
      // The in-loop range check of the source cannot fire: four groups stay below the invalid value.
      assert remainingLength < REMAINING_LENGTH_INVALID;
      if b < 128 {
        break;
      }
    }
    if bytesDecoded != SizeVar(remainingLength) {
      return None;
    }
    return Some(remainingLength);
  }

  // ---- the fixed header decoder ------------------------------------------

  datatype Verdict = NoData | NeedMore | BadHeader | Header(kind: byte, remaining: u32, width: nat)

  /** The types a broker may send: a PUBREL needs its reserved bit, the other nibbles are a set. */
  predicate IncomingPacketValid(kind: byte) {
    if kind / 16 == 6 then kind / 2 % 2 == 1
    else kind / 16 in {2, 3, 4, 5, 7, 9, 11, 13, 14, 15}
  }

  /** What the bytes that have arrived say about the header at their front. */
  function DecodeHeader(s: seq<byte>): Verdict {
    if s == [] then NoData
    else if !IncomingPacketValid(s[0]) then BadHeader
    else match ScanVar(s[1..], 0)
         case Short => NeedMore
         case Overlong => BadHeader
         case Found(v, w) =>
           ScanBounds(s[1..], 0);
           assert Room(0) == 0x1000_0000;
           if w == SizeVar(v) then Header(s[0], v, 1 + w) else BadHeader
  }

  /** `process_incoming_packet_type_and_length`, with its loop and its two bounds on what may be read. */
  method ProcessIncomingPacketTypeAndLength(buffer: seq<byte>, available: nat) returns (r: Verdict)
    ensures r == DecodeHeader(buffer[..Min(available, |buffer|)])
  {
    ghost var arrived := buffer[..Min(available, |buffer|)];
    if available < 1 || |buffer| == 0 {
      return NoData;
    }
    var kind := buffer[0];
    if !IncomingPacketValid(kind) {
      return BadHeader;
    }
    ghost var tail := arrived[1..];
    var remainingLength: nat := 0;
    var multiplier: nat := 1;
    var bytesDecoded: nat := 0;
    while true
      invariant bytesDecoded <= 4 && bytesDecoded <= |tail| && multiplier == Weight(bytesDecoded)
      invariant remainingLength < multiplier
      invariant ScanVar(tail, 0) == Resume(ScanVar(tail[bytesDecoded..], bytesDecoded), remainingLength, bytesDecoded)
      decreases 4 - bytesDecoded
    {
      if multiplier > 2_097_152 {
        return BadHeader;
      }
      if available <= bytesDecoded + 1 {
        return NeedMore;
      }
      if bytesDecoded + 1 >= |buffer| {
        return NeedMore;
      }
      var b: int := buffer[bytesDecoded + 1];
      assert b == tail[bytesDecoded] && tail[bytesDecoded..][1..] == tail[bytesDecoded + 1..];
      TakeGroup(tail[bytesDecoded..], remainingLength, bytesDecoded);
      remainingLength := remainingLength + b % 128 * multiplier;
      multiplier := multiplier * 128;
      bytesDecoded := bytesDecoded + 1;
      if b < 128 {
        break;
      }
    }
    if bytesDecoded != SizeVar(remainingLength) {
      return BadHeader;
    }
    return Header(kind, remainingLength, bytesDecoded + 1);
  }

  lemma AcceptedHeader(s: seq<byte>)
    requires DecodeHeader(s).Header?
    ensures var h := DecodeHeader(s);
            IncomingPacketValid(h.kind) && h.remaining <= MAX_REMAINING_LENGTH
            && [h.kind] + EncodeVar(h.remaining) <= s && h.width == 1 + |EncodeVar(h.remaining)|
  {
    hide EncodeVar, ScanVar;
    ScanBounds(s[1..], 0);
    SizeVarIsLength(DecodeHeader(s).remaining);
    ScanCanonical(s[1..], 0);
    assert s == [s[0]] + s[1..];
  }

  lemma WrittenHeader(kind: byte, length: u32, rest: seq<byte>)
    requires IncomingPacketValid(kind) && length <= MAX_REMAINING_LENGTH
    ensures DecodeHeader([kind] + EncodeVar(length) + rest) == Header(kind, length, 1 + |EncodeVar(length)|)
  {
    hide EncodeVar, ScanVar;
    assert Room(0) == 0x1000_0000;
    SizeVarIsLength(length);
    ScanEncoded(length, 0, rest);
    assert ([kind] + EncodeVar(length) + rest)[1..] == EncodeVar(length) + rest;
  }

  /** An accepted header is exactly the type byte and the encoder's bytes for its answer. */
  lemma HeaderExact(s: seq<byte>, kind: byte, length: u32)
    ensures DecodeHeader(s) == Header(kind, length, 1 + |EncodeVar(length)|)
       <==> (IncomingPacketValid(kind) && length <= MAX_REMAINING_LENGTH && [kind] + EncodeVar(length) <= s)
  {
    hide EncodeVar, DecodeHeader, IncomingPacketValid;
    if DecodeHeader(s) == Header(kind, length, 1 + |EncodeVar(length)|) {
      AcceptedHeader(s);
    }
    if IncomingPacketValid(kind) && length <= MAX_REMAINING_LENGTH && [kind] + EncodeVar(length) <= s {
      var front := [kind] + EncodeVar(length);
      WrittenHeader(kind, length, s[|front|..]);
      assert s == front + s[|front|..];
    }
  }

  /** A verdict that is not "read more" never changes as more bytes arrive. */
  lemma HeaderStable(s: seq<byte>, more: seq<byte>)
    requires DecodeHeader(s).Header? || DecodeHeader(s).BadHeader?
    ensures DecodeHeader(s + more) == DecodeHeader(s)
  {
    assert (s + more)[1..] == s[1..] + more;
    if !ScanVar(s[1..], 0).Short? {
      ScanStable(s[1..], 0, more);
    }
  }

  /** Every proper prefix of an accepted header asks for more, and never for anything else. */
  lemma HeaderPrefixAsksForMore(s: seq<byte>, k: nat)
    requires DecodeHeader(s).Header? && k < DecodeHeader(s).width
    ensures k <= |s| && DecodeHeader(s[..k]) == if k == 0 then NoData else NeedMore
  {
    ScanBounds(s[1..], 0);
    if k > 0 {
      ScanCut(s[1..], 0, k - 1);
      assert s[..k][1..] == s[1..][..k - 1];
    }
  }

  /** Five bytes always settle the header, and four do not: a receive buffer must hold five to be safe. */
  lemma FiveBytesDecide(capacity: nat)
    ensures (forall s: seq<byte> :: |s| == capacity ==> !DecodeHeader(s).NoData? && !DecodeHeader(s).NeedMore?)
       <==> capacity >= 5
  {
    if capacity >= 5 {
      forall s: seq<byte> | |s| == capacity
        ensures !DecodeHeader(s).NoData? && !DecodeHeader(s).NeedMore?
      {
        if ScanVar(s[1..], 0).Short? {
          ScanShort(s[1..], 0);
        }
      }
    } else {
      var stuck: seq<byte> := [PUBLISH, 128, 128, 128][..capacity];
      if capacity > 0 {
        AllContinue(stuck[1..], 0);
      }
      assert DecodeHeader(stuck).NoData? || DecodeHeader(stuck).NeedMore?;
    }
  }

  lemma {:induction false} AllContinue(s: seq<byte>, used: nat)
    requires used + |s| < 4 && forall i :: 0 <= i < |s| ==> s[i] >= 128
    ensures ScanVar(s, used).Short?
    decreases |s|
  {
    if s != [] {
      AllContinue(s[1..], used + 1);
    }
  }

  /** The two separately written decoders read one language: the header's length is a property length. */
  lemma TwoDecodersAgree(kind: byte, s: seq<byte>, v: u32)
    ensures DecodeHeader([kind] + s) == Header(kind, v, 1 + |EncodeVar(v)|)
       <==> IncomingPacketValid(kind) && DecodeVar(s) == Some(v)
  {
    assert ([kind] + s)[1..] == s;
    DecodeVarExact(s, v);
    HeaderExact([kind] + s, kind, v);
    assert [kind] + EncodeVar(v) <= [kind] + s <==> EncodeVar(v) <= s by {
      var k := |EncodeVar(v)|;
      if k <= |s| {
        assert ([kind] + s)[..k + 1] == [kind] + s[..k];
        assert ([kind] + EncodeVar(v))[1..] == EncodeVar(v) && ([kind] + s[..k])[1..] == s[..k];
      }
    }
  }
}
