/** The pieces every outgoing packet is laid down from, each written into a caller's buffer in place. */
module Wire {
  import opened Bytes
  import opened Header
  import opened Grammar

  datatype WireError = BadParameter | NoMemory

  /** A property section on the wire: its variable byte length, then its bytes. */
  function Section(s: seq<byte>): (r: seq<byte>)
    ensures |r| >= 1
  {
    EncodeVar(|s|) + s
  }

  /** Bytes that are a length and as many bytes as it says are a section. */
  lemma SectionIsTheRest(after: seq<byte>, length: nat)
    requires DecodeVar(after) == Some(length) && |after| == SizeVar(length) + length
    ensures length <= MAX_REMAINING_LENGTH && after == Section(after[SizeVar(length)..SizeVar(length) + length])
  {
    hide EncodeVar, DecodeVar, SizeVar;
    DecodeVarExact(after, length);
    SizeVarIsLength(length);
    assert after == after[..SizeVar(length)] + after[SizeVar(length)..];
  }

  /** The front of a SUBSCRIBE or an UNSUBSCRIBE. */
  function IdHeader(kind: byte, remaining: u32, packetId: u16): (r: seq<byte>)
    ensures |r| >= 4
  {
    [kind] + EncodeVar(remaining) + Be16(packetId)
  }

  function DisconnectHeader(code: Option<byte>, remaining: u32): (r: seq<byte>)
    ensures |r| >= 2
  {
    [DISCONNECT] + EncodeVar(remaining) + (if code.Some? then [code.value] else [])
  }

  /** A section at the front of `s`, and what follows it. */
  function TakeSection(s: seq<byte>): Option<(seq<byte>, seq<byte>)> {
    match DecodeVar(s)
    case None => None
    case Some(n) =>
      var w := SizeVar(n);
      if |s| < w + n then None else Some((s[w..w + n], s[w + n..]))
  }

  function TakeString(s: seq<byte>): Option<(seq<byte>, seq<byte>)> {
    match ParseString(s)
    case None => None
    case Some(Parsed(t, n)) => Some((t, s[n..]))
  }

  lemma TakeSectionOfSection(section: seq<byte>, rest: seq<byte>)
    requires |section| <= MAX_REMAINING_LENGTH
    ensures TakeSection(Section(section) + rest) == Some((section, rest))
  {
    hide EncodeVar, DecodeVar;
    var s := Section(section) + rest;
    var w := |EncodeVar(|section|)|;
    assert s == EncodeVar(|section|) + (section + rest);
    DecodeVarExact(s, |section|);
    SizeVarIsLength(|section|);
    assert s[w..w + |section|] == section && s[w + |section|..] == rest;
  }

  lemma TakeStringOfStr(t: seq<byte>, rest: seq<byte>)
    requires |t| <= 0xFFFF
    ensures TakeString(Str(t) + rest) == Some((t, rest))
  {
    hide ParseString, Str;
    ParseStringOfStr(t, rest);
  }

  /**
   * `put_section`. `done` is what the packet being laid down at `start` holds so far; on success it grows by
   * exactly the section, and it fails if and only if the section is too long or will not fit.
   */
  method PutSection(dest: array<byte>, ghost before: seq<byte>, ghost done: seq<byte>, at: nat, section: seq<byte>)
    returns (r: Result<nat, WireError>)
    requires |before| == dest.Length && at == |done| <= dest.Length && dest[..] == Splice(before, 0, done)
    modifies dest
    ensures r.Ok? <==> |section| <= MAX_REMAINING_LENGTH && at + |Section(section)| <= dest.Length
    ensures r.Ok? ==> r.value == at + |Section(section)| && dest[..] == Splice(before, 0, done + Section(section))
    ensures |section| > MAX_REMAINING_LENGTH ==> r == Err(BadParameter) && dest[..] == old(dest[..])
    ensures |section| <= MAX_REMAINING_LENGTH && r.Err? ==> r == Err(NoMemory)
  {
    hide EncodeVar, Splice, Section;
    if |section| > MAX_REMAINING_LENGTH {
      return Err(BadParameter);
    }
    ghost var length := EncodeVar(|section|);
    SizeVarIsLength(|section|);
    SectionJoins(done, section);
    var encoded := EncodeVariableLength(dest, at, |section|);
    if encoded == 0 {
      return Err(NoMemory);
    }
    assert length[..encoded] == length;
    SpliceJoin(before, 0, done, length);
    var bodyAt := at + encoded;
    if |section| == 0 {
      return Ok(bodyAt);
    }
    if dest.Length < bodyAt + |section| {
      return Err(NoMemory);
    }
    Continue(dest, before, 0, done + length, bodyAt, section);
    return Ok(bodyAt + |section|);
  }

  lemma SectionJoins(done: seq<byte>, section: seq<byte>)
    ensures done + EncodeVar(|section|) + section == done + Section(section)
    ensures section == [] ==> done + EncodeVar(|section|) == done + Section(section)
    ensures |Section(section)| == |EncodeVar(|section|)| + |section|
  {
    hide EncodeVar;
  }

  /** `put_string`. */
  method PutString(dest: array<byte>, ghost before: seq<byte>, ghost done: seq<byte>, at: nat, value: seq<byte>)
    returns (r: Result<nat, WireError>)
    requires |before| == dest.Length && at == |done| <= dest.Length && dest[..] == Splice(before, 0, done)
    modifies dest
    ensures r.Ok? <==> |value| <= 0xFFFF && at + 2 + |value| <= dest.Length
    ensures r.Ok? ==> r.value == at + 2 + |value| && dest[..] == Splice(before, 0, done + Str(value))
    ensures |value| > 0xFFFF ==> r == Err(BadParameter)
    ensures |value| <= 0xFFFF && r.Err? ==> r == Err(NoMemory)
    ensures r.Err? ==> dest[..] == old(dest[..])
  {
    if |value| > 0xFFFF {
      return Err(BadParameter);
    }
    if dest.Length - at < |value| + 2 {
      return Err(NoMemory);
    }
    Continue(dest, before, 0, done, at, Str(value));
    return Ok(at + 2 + |value|);
  }

  /**
   * The type byte and the remaining length. Past the legal maximum the encoding takes five bytes where four were
   * sized: the two agree only when the end of the buffer cuts the fifth byte off.
   */
  method WriteFront(dest: array<byte>, kind: byte, remaining: u32) returns (encoded: nat)
    requires dest.Length >= 1 + SizeVar(remaining)
    modifies dest
    ensures encoded == SizeVar(remaining) <==> remaining <= MAX_REMAINING_LENGTH || dest.Length == 5
    ensures remaining <= MAX_REMAINING_LENGTH ==> encoded == |EncodeVar(remaining)|
    ensures encoded <= |EncodeVar(remaining)| && 1 + encoded <= dest.Length
    ensures dest[..] == Splice(old(dest[..]), 0, [kind] + EncodeVar(remaining)[..encoded])
    ensures remaining <= MAX_REMAINING_LENGTH ==>
              dest[..] == Splice(old(dest[..]), 0, [kind] + EncodeVar(remaining))
  {
    hide EncodeVar;
    CopyInto(dest, 0, [kind]);
    encoded := EncodeVariableLength(dest, 1, remaining);
    if remaining <= MAX_REMAINING_LENGTH {
      WholeEncoding(remaining);
    } else {
      FiveBytes(remaining);
    }
    SpliceJoin(old(dest[..]), 0, [kind], EncodeVar(remaining)[..encoded]);
  }

  lemma FiveBytes(n: u32)
    requires n > MAX_REMAINING_LENGTH
    ensures |EncodeVar(n)| == 5 && SizeVar(n) == 4
    ensures forall i :: 0 <= i < 4 ==> EncodeVar(n)[i] >= 128
  {
    var a := n / 128;
    var b := a / 128;
    var c := b / 128;
    var d := c / 128;
    assert 1 <= d < 128;
    assert EncodeVar(c) == [c % 128 + 128] + EncodeVar(d);
    assert EncodeVar(b) == [b % 128 + 128] + EncodeVar(c);
    assert EncodeVar(a) == [a % 128 + 128] + EncodeVar(b);
    assert EncodeVar(n) == [n % 128 + 128] + EncodeVar(a);
  }

  lemma WholeEncoding(n: u32)
    requires n <= MAX_REMAINING_LENGTH
    ensures EncodeVar(n)[..|EncodeVar(n)|] == EncodeVar(n) && |EncodeVar(n)| == SizeVar(n)
  {
    hide EncodeVar;
    SizeVarIsLength(n);
  }

  /** `serialize_id_header`: all of it or nothing; every remaining length past the maximum is refused. */
  method SerializeIdHeader(dest: array<byte>, kind: byte, remaining: u32, packetId: u16) returns (written: nat)
    modifies dest
    ensures var header := IdHeader(kind, remaining, packetId);
            if remaining <= MAX_REMAINING_LENGTH && |header| <= dest.Length
            then written == |header| && dest[..] == Splice(old(dest[..]), 0, header)
            else written == 0
    ensures dest.Length < 1 + SizeVar(remaining) + 2 ==> dest[..] == old(dest[..])
  {
    hide EncodeVar;
    if remaining <= MAX_REMAINING_LENGTH {
      WholeEncoding(remaining);
    }
    var total := 1 + SizeVar(remaining) + 2;
    if dest.Length < total {
      return 0;
    }
    var encoded := WriteFront(dest, kind, remaining);
    if encoded != SizeVar(remaining) {
      return 0;
    }
    Continue(dest, old(dest[..]), 0, [kind] + EncodeVar(remaining), 1 + encoded, Be16(packetId));
    return total;
  }

  /**
   * `serialize_disconnect_fixed`. It answers nothing when the buffer is short or the remaining length illegal, but
   * for one family of inputs: without a reason code, in a buffer of exactly five bytes, every illegal length is
   * written cut off and answered as if it were whole.
   */
  method SerializeDisconnectFixed(dest: array<byte>, code: Option<byte>, remaining: u32) returns (written: nat)
    modifies dest
    ensures written == 0 <==>
              || dest.Length < 1 + SizeVar(remaining) + (if code.Some? then 1 else 0)
              || (remaining > MAX_REMAINING_LENGTH && !(code.None? && dest.Length == 5))
    ensures remaining <= MAX_REMAINING_LENGTH && |DisconnectHeader(code, remaining)| <= dest.Length ==>
              && written == |DisconnectHeader(code, remaining)|
              && dest[..] == Splice(old(dest[..]), 0, DisconnectHeader(code, remaining))
    ensures remaining > MAX_REMAINING_LENGTH && code.None? && dest.Length == 5 ==>
              written == 5 && dest[..] == CutHeader(remaining)
    ensures dest.Length < 1 + SizeVar(remaining) + (if code.Some? then 1 else 0) ==> dest[..] == old(dest[..])
  {
    hide EncodeVar;
    if remaining <= MAX_REMAINING_LENGTH {
      WholeEncoding(remaining);
    } else {
      FiveBytes(remaining);
    }
    var total := 1 + SizeVar(remaining) + (if code.Some? then 1 else 0);
    if dest.Length < total {
      return 0;
    }
    var encoded := WriteFront(dest, DISCONNECT, remaining);
    if encoded != SizeVar(remaining) {
      return 0;
    }
    ghost var front := [DISCONNECT] + EncodeVar(remaining)[..encoded];
    if code.Some? {
      Continue(dest, old(dest[..]), 0, front, 1 + encoded, [code.value]);
    } else {
      assert remaining <= MAX_REMAINING_LENGTH ==> DisconnectHeader(code, remaining) == front;
    }
    return total;
  }

  /** What stands in the five-byte buffer after an illegal length: four bytes that all say more follows. */
  function CutHeader(remaining: u32): (r: seq<byte>)
    requires remaining > MAX_REMAINING_LENGTH
    ensures |r| == 5
  {
    FiveBytes(remaining);
    [DISCONNECT] + EncodeVar(remaining)[..4]
  }

  /** No header decoder accepts it, and no byte that arrives later changes that. */
  lemma CutHeaderIsRefused(remaining: u32, more: seq<byte>)
    requires remaining > MAX_REMAINING_LENGTH
    ensures DecodeHeader(CutHeader(remaining) + more).BadHeader?
  {
    hide EncodeVar;
    FiveBytes(remaining);
    var s := CutHeader(remaining);
    assert s[1..] == EncodeVar(remaining)[..4];
    AllMore(s[1..], 0);
    HeaderStable(s, more);
  }

  /** The groups run out before the bytes that say more follows do. */
  lemma {:induction false} AllMore(s: seq<byte>, used: nat)
    requires used + |s| == 4 && forall i :: 0 <= i < |s| ==> s[i] >= 128
    ensures ScanVar(s, used).Overlong?
    decreases |s|
  {
    if s != [] {
      AllMore(s[1..], used + 1);
    }
  }
}
