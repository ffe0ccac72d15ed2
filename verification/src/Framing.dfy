/** The frames of a byte stream, as the headers cut it, and why it does not matter how the stream was delivered. */
module Framing {
  import opened Bytes
  import opened Header
  import opened Packet

  /** How long the packet at the front claims to be, header included. */
  function FrameLength(s: seq<byte>): (r: Option<nat>)
    ensures r.Some? ==> r.value >= 2
  {
    match DecodeHeader(s)
    case Header(_, remaining, width) => AcceptedHeader(s); Some(remaining + width)
    case _ => None
  }

  /** The length of the whole packet at the front, if all of it is there. */
  function Ready(s: seq<byte>): (r: Option<nat>)
    ensures r.Some? ==> 2 <= r.value <= |s|
  {
    if FrameLength(s).Some? && FrameLength(s).value <= |s| then FrameLength(s) else None
  }

  /** Exactly one packet: its header and the body that header claims. */
  predicate IsFrame(s: seq<byte>) {
    Ready(s) == Some(|s|)
  }

  function Frames(s: seq<byte>): seq<seq<byte>> {
    match Ready(s)
    case Some(n) => [s[..n]] + Frames(s[n..])
    case None => []
  }

  /** What the parse leaves: an unfinished packet, or one whose header is refused. */
  function Residue(s: seq<byte>): seq<byte> {
    match Ready(s)
    case Some(n) => Residue(s[n..])
    case None => s
  }

  /** More bytes do not move the end of a packet that has arrived. */
  lemma ReadyStable(s: seq<byte>, more: seq<byte>)
    requires Ready(s).Some?
    ensures Ready(s + more) == Ready(s)
  {
    hide DecodeHeader;
    HeaderStable(s, more);
  }

  lemma FrontIsFrame(s: seq<byte>)
    requires Ready(s).Some?
    ensures IsFrame(s[..Ready(s).value])
  {
    hide EncodeVar;
    var n := Ready(s).value;
    AcceptedHeader(s);
    var h := DecodeHeader(s);
    var front := [h.kind] + EncodeVar(h.remaining);
    assert s[..n] == front + s[|front|..n];
    WrittenHeader(h.kind, h.remaining, s[|front|..n]);
  }

  /** Cutting loses nothing: the frames and the residue, end to end, are the stream. */
  lemma {:induction false} FramesConserve(s: seq<byte>)
    ensures Flatten(Frames(s)) + Residue(s) == s && Ready(Residue(s)).None?
    ensures forall i :: 0 <= i < |Frames(s)| ==> IsFrame(Frames(s)[i])
    decreases |s|
  {
    hide Ready, IsFrame;
    if Ready(s).Some? {
      var n := Ready(s).value;
      FramesConserve(s[n..]);
      FrontIsFrame(s);
      assert Frames(s)[1..] == Frames(s[n..]);
      assert s == s[..n] + s[n..];
    }
  }

  /** Parsing can stop anywhere and go on from its residue when more has arrived. */
  lemma {:induction false} FramesResume(s: seq<byte>, more: seq<byte>)
    ensures Frames(s + more) == Frames(s) + Frames(Residue(s) + more)
    ensures Residue(s + more) == Residue(Residue(s) + more)
    decreases |s|
  {
    hide Ready;
    if Ready(s).Some? {
      var n := Ready(s).value;
      ReadyStable(s, more);
      assert (s + more)[..n] == s[..n] && (s + more)[n..] == s[n..] + more;
      FramesResume(s[n..], more);
    }
  }

  predicate AllFrames(fs: seq<seq<byte>>) {
    forall i :: 0 <= i < |fs| ==> IsFrame(fs[i])
  }

  /** A stream made of whole packets and a tail is cut into exactly those packets. */
  lemma {:induction false} FramesAreUnique(fs: seq<seq<byte>>, tail: seq<byte>)
    requires AllFrames(fs)
    ensures Frames(Flatten(fs) + tail) == fs + Frames(tail) && Residue(Flatten(fs) + tail) == Residue(tail)
  {
    hide IsFrame, Frames, Residue;
    if fs == [] {
      assert [] + tail == tail;
    } else {
      var rest := Flatten(fs[1..]) + tail;
      Associate(fs[0], Flatten(fs[1..]), tail);
      FirstFrame(fs[0], rest);
      FramesAreUnique(fs[1..], tail);
      assert fs == [fs[0]] + fs[1..];
    }
  }

  lemma FirstFrame(f: seq<byte>, rest: seq<byte>)
    requires IsFrame(f)
    ensures Frames(f + rest) == [f] + Frames(rest) && Residue(f + rest) == Residue(rest)
  {
    hide Ready;
    ReadyStable(f, rest);
    assert (f + rest)[..|f|] == f && (f + rest)[|f|..] == rest;
  }

  // ---- the same on the other side ---------------------------------------------------

  /** A whole packet at the front, as a broker measures it: any type byte, then the length it announces. */
  function WireLength(s: seq<byte>): (r: Option<nat>)
    ensures r.Some? ==> 2 <= r.value <= |s|
  {
    if s == [] then None
    else match DecodeVar(s[1..])
         case Some(n) => if 1 + SizeVar(n) + n <= |s| then Some(1 + SizeVar(n) + n) else None
         case None => None
  }

  /** Exactly one packet, as a broker measures it. */
  predicate IsPacket(s: seq<byte>) {
    WireLength(s) == Some(|s|)
  }

  predicate AllPackets(ps: seq<seq<byte>>) {
    forall i :: 0 <= i < |ps| ==> IsPacket(ps[i])
  }

  /** A broker cuts what it receives at the lengths it reads. */
  function Cut(s: seq<byte>): seq<seq<byte>> {
    match WireLength(s)
    case Some(n) => [s[..n]] + Cut(s[n..])
    case None => []
  }

  function Uncut(s: seq<byte>): seq<byte> {
    match WireLength(s)
    case Some(n) => Uncut(s[n..])
    case None => s
  }

  lemma WireLengthStable(s: seq<byte>, more: seq<byte>)
    requires WireLength(s).Some?
    ensures WireLength(s + more) == WireLength(s)
  {
    hide DecodeVar, EncodeVar, SizeVar;
    var n := DecodeVar(s[1..]).value;
    DecodeVarExact(s[1..], n);
    assert (s + more)[1..] == s[1..] + more;
    DecodeVarExact(s[1..] + more, n);
  }

  lemma WrittenIsPacket(kind: byte, body: seq<byte>)
    requires |body| <= MAX_REMAINING_LENGTH
    ensures IsPacket([kind] + EncodeVar(|body|) + body)
  {
    hide DecodeVar, EncodeVar, SizeVar, IsPacket;
    var e := EncodeVar(|body|);
    Associate([kind], e, body);
    DecodeVarExact(e + body, |body|);
    SizeVarIsLength(|body|);
    BehindTheFirst(kind, e + body, |body|);
  }

  /** A type byte, a length that reads, and as many bytes as it says. */
  lemma BehindTheFirst(first: byte, rest: seq<byte>, n: nat)
    requires DecodeVar(rest) == Some(n) && |rest| == SizeVar(n) + n
    ensures IsPacket([first] + rest)
  {
    hide DecodeVar, SizeVar;
    assert ([first] + rest)[1..] == rest;
  }

  /** A part of a packet is not a packet. */
  lemma PartIsNoPacket(part: seq<byte>, whole: seq<byte>)
    requires part <= whole && IsPacket(whole) && IsPacket(part)
    ensures part == whole
  {
    hide WireLength;
    assert whole == part + whole[|part|..];
    WireLengthStable(part, whole[|part|..]);
  }

  /** Cutting can stop anywhere and go on from what is left. */
  lemma {:induction false} CutResumes(s: seq<byte>, more: seq<byte>)
    ensures Cut(s + more) == Cut(s) + Cut(Uncut(s) + more) && Uncut(s + more) == Uncut(Uncut(s) + more)
    decreases |s|
  {
    hide WireLength;
    if WireLength(s).Some? {
      var n := WireLength(s).value;
      WireLengthStable(s, more);
      assert (s + more)[..n] == s[..n] && (s + more)[n..] == s[n..] + more;
      CutResumes(s[n..], more);
    }
  }

  /** Every piece is a packet. */
  lemma {:induction false} PiecesArePackets(s: seq<byte>)
    ensures AllPackets(Cut(s))
    decreases |s|
  {
    hide DecodeVar, EncodeVar, SizeVar;
    if WireLength(s).Some? {
      var n := WireLength(s).value;
      FrontIsPacket(s);
      PiecesArePackets(s[n..]);
      assert forall i :: 1 <= i < |Cut(s)| ==> Cut(s)[i] == Cut(s[n..])[i - 1];
    }
  }

  lemma FrontIsPacket(s: seq<byte>)
    requires WireLength(s).Some?
    ensures IsPacket(s[..WireLength(s).value])
  {
    hide DecodeVar, EncodeVar, SizeVar;
    var n, v := WireLength(s).value, DecodeVar(s[1..]).value;
    DecodeVarExact(s[1..], v);
    SizeVarIsLength(v);
    assert s[..n][1..] == s[1..][..n - 1];
    DecodeVarExact(s[..n][1..], v);
  }

  lemma FirstPacket(p: seq<byte>, rest: seq<byte>)
    requires IsPacket(p)
    ensures Cut(p + rest) == [p] + Cut(rest) && Uncut(p + rest) == Uncut(rest)
  {
    hide WireLength;
    WireLengthStable(p, rest);
    assert (p + rest)[..|p|] == p && (p + rest)[|p|..] == rest;
  }

  /** Packets end to end are cut into just those packets. */
  lemma {:induction false} CutPackets(ps: seq<seq<byte>>, tail: seq<byte>)
    requires AllPackets(ps)
    ensures Cut(Flatten(ps) + tail) == ps + Cut(tail) && Uncut(Flatten(ps) + tail) == Uncut(tail)
    decreases |ps|
  {
    hide IsPacket, Cut, Uncut;
    if ps == [] {
      assert [] + tail == tail;
    } else {
      var rest := Flatten(ps[1..]) + tail;
      Associate(ps[0], Flatten(ps[1..]), tail);
      FirstPacket(ps[0], rest);
      CutPackets(ps[1..], tail);
      assert ps == [ps[0]] + ps[1..];
    }
  }

  // ---- a frame as a packet ------------------------------------------------------

  /** One whole packet as the deserializers are handed it. */
  function ViewOf(frame: seq<byte>): PacketInfo
    requires IsFrame(frame)
  {
    var h := DecodeHeader(frame);
    PacketInfo(h.kind, h.remaining, frame[h.width..])
  }

  /** A body is exactly as long as its header claims, and header and body are the whole packet. */
  lemma ViewIsWhole(frame: seq<byte>)
    requires IsFrame(frame)
    ensures var view := ViewOf(frame);
            && |view.remainingData| == view.remainingLength && view.kind == frame[0]
            && frame == [view.kind] + EncodeVar(view.remainingLength) + view.remainingData
  {
    hide EncodeVar;
    AcceptedHeader(frame);
    var h := DecodeHeader(frame);
    assert frame[..h.width] == [h.kind] + EncodeVar(h.remaining);
  }

  /** The header says the same of the whole packet as of everything that has arrived. */
  lemma SameHeader(arrived: seq<byte>)
    requires Ready(arrived).Some?
    ensures IsFrame(arrived[..Ready(arrived).value])
    ensures DecodeHeader(arrived[..Ready(arrived).value]) == DecodeHeader(arrived)
  {
    hide DecodeHeader;
    var n := Ready(arrived).value;
    FrontIsFrame(arrived);
    HeaderStable(arrived[..n], arrived[n..]);
    assert arrived == arrived[..n] + arrived[n..];
  }

  // ---- runs of reads -----------------------------------------------------------

  /** What a receiver has handed on and still holds. */
  datatype Receiver = Receiver(handled: seq<seq<byte>>, held: seq<byte>)

  /** One call of the loop whose handlers all accept: the new bytes are added and every whole packet handed on. */
  function Deliver(r: Receiver, chunk: seq<byte>): Receiver {
    Receiver(r.handled + Frames(r.held + chunk), Residue(r.held + chunk))
  }

  function DeliverAll(r: Receiver, chunks: seq<seq<byte>>): Receiver
    decreases |chunks|
  {
    if chunks == [] then r else DeliverAll(Deliver(r, chunks[0]), chunks[1..])
  }

  /**
   * However a stream is cut into reads, the packets handed on are the parse of the stream, and what is held its
   * residue.
   */
  lemma {:induction false} ChunkingIndependence(sofar: seq<byte>, r: Receiver, chunks: seq<seq<byte>>)
    requires r == Receiver(Frames(sofar), Residue(sofar))
    ensures DeliverAll(r, chunks) == Receiver(Frames(sofar + Flatten(chunks)), Residue(sofar + Flatten(chunks)))
    decreases |chunks|
  {
    hide Frames, Residue;
    if chunks == [] {
      assert sofar + [] == sofar;
    } else {
      FramesResume(sofar, chunks[0]);
      ChunkingIndependence(sofar + chunks[0], Deliver(r, chunks[0]), chunks[1..]);
      assert sofar + Flatten(chunks) == sofar + chunks[0] + Flatten(chunks[1..]);
    }
  }

  /** Two receivers fed the same stream in different pieces end with the same packets and the same bytes held. */
  lemma TwoCutsAgree(a: seq<seq<byte>>, b: seq<seq<byte>>)
    requires Flatten(a) == Flatten(b)
    ensures DeliverAll(Receiver([], []), a) == DeliverAll(Receiver([], []), b)
  {
    hide Frames, Residue;
    NothingYet();
    ChunkingIndependence([], Receiver([], []), a);
    ChunkingIndependence([], Receiver([], []), b);
  }

  lemma NothingYet()
    ensures Frames([]) == [] && Residue([]) == []
  {
  }
}
