/** The two things the client is handed: somewhere bytes go to and come from, and a clock. Both are adversaries. */
module Link {
  import opened Bytes

  /** What a transport did with the bytes it was offered. */
  datatype Sent = Accepted(count: nat) | NoneTaken | SendError

  /** What a transport did with a request: the bytes that arrived, at most as many as were asked for. */
  datatype Recv = Arrived(bytes: seq<byte>) | NoneArrived | RecvError

  /** The bytes of an offer a transport took; it cannot take more than it was offered. */
  function Taken(offer: seq<byte>, r: Sent): seq<byte> {
    match r
    case Accepted(n) => offer[..Min(n, |offer|)]
    case _ => []
  }

  /** One call: the slices that were offered, and how many bytes had been accepted before it. */
  datatype Offer = Offer(parts: seq<seq<byte>>, before: nat)

  /**
   * A transport that may answer anything at all. `answers` and `arrivals` are fixed in advance but arbitrary;
   * `log` is what it has accepted over its whole life and `offers` every call made to it.
   */
  class Transport {
    const answers: nat -> Sent
    const arrivals: nat -> Recv
    var receives: nat
    var log: seq<byte>
    var offers: seq<Offer>

    constructor (answers: nat -> Sent, arrivals: nat -> Recv)
      ensures this.answers == answers && this.arrivals == arrivals && log == [] && offers == [] && receives == 0
    {
      this.answers, this.arrivals := answers, arrivals;
      receives, log, offers := 0, [], [];
    }

    /** A send of this message has begun: the first offer since was all of it. */
    twostate predicate Began(message: seq<byte>)
      reads this
    {
      |old(offers)| < |offers| && Flatten(offers[|old(offers)|].parts) == message
    }

    /** The i-th call gets somewhere: it takes at least a byte of a non-empty offer, or it fails. */
    ghost predicate Moves(i: nat) {
      answers(i).SendError? || (answers(i).Accepted? && answers(i).count > 0)
    }

    ghost predicate MovesAfter(i: nat) {
      exists j: nat :: i <= j && Moves(j)
    }

    /** However often it takes nothing, a call that gets somewhere comes. */
    ghost predicate Progresses() {
      forall i: nat :: MovesAfter(i)
    }

    lemma NextMove(i: nat) returns (j: nat)
      requires Progresses()
      ensures i <= j && Moves(j)
    {
      assert MovesAfter(i);
      j :| i <= j && Moves(j);
    }

    /** `writev`, whose default offers the first slice only: that is one of the counts it may answer. */
    method Writev(parts: seq<seq<byte>>) returns (r: Sent)
      modifies this
      ensures r == answers(|old(offers)|) && receives == old(receives)
      ensures log == old(log) + Taken(Flatten(parts), r)
      ensures offers == old(offers) + [Offer(parts, |old(log)|)]
    {
      r := answers(|offers|);
      offers := offers + [Offer(parts, |log|)];
      log := log + Taken(Flatten(parts), r);
    }

    /** `send`: one slice. */
    method Send(bytes: seq<byte>) returns (r: Sent)
      modifies this
      ensures r == answers(|old(offers)|) && receives == old(receives)
      ensures log == old(log) + Taken(bytes, r)
      ensures offers == old(offers) + [Offer([bytes], |old(log)|)]
    {
      r := Writev([bytes]);
      assert Flatten([bytes]) == bytes + Flatten([bytes][1..]);
    }

    /** At most `room` bytes; a transport never delivers more than it was asked for. */
    method Receive(room: nat) returns (r: Recv)
      modifies this
      ensures receives == old(receives) + 1 && log == old(log) && offers == old(offers)
      ensures r == Delivered(arrivals(old(receives)), room)
    {
      r := Delivered(arrivals(receives), room);
      receives := receives + 1;
    }
  }

  function Delivered(r: Recv, room: nat): (d: Recv)
    ensures d.Arrived? ==> |d.bytes| <= room
  {
    match r
    case Arrived(s) => Arrived(s[..Min(room, |s|)])
    case other => other
  }

  // ---- time ---------------------------------------------------------------------

  const SEND_TIMEOUT_MS: nat := 20_000
  const WRAP: nat := 0x1_0000_0000

  /** The furthest two timeout checks may be apart: one more and a deadline could pass unseen behind the wrap. */
  const MAX_GAP: nat := WRAP - SEND_TIMEOUT_MS - 1

  /** Says nothing; it is what instantiates the statement about every reading at the one reading in hand. */
  predicate Reading(k: nat) {
    true
  }

  /** `elapsed_ms`: `later - start` in 32 bits. */
  function ElapsedMs(later: u32, start: u32): u32 {
    (later - start) % WRAP
  }

  /** A clock that wraps at 32 bits. `time(k)` is the true time of its k-th reading, and may be anything. */
  class Clock {
    const time: nat -> nat
    /** How many readings it may take before the time is later, for a clock that ticks. */
    ghost const patience: nat
    var readings: nat

    constructor (time: nat -> nat, ghost patience: nat)
      ensures this.time == time && this.patience == patience && readings == 0
    {
      this.time, this.patience := time, patience;
      readings := 0;
    }

    /** What the k-th reading says. */
    function At(k: nat): u32 {
      time(k) % WRAP
    }

    /**
     * Time never goes back, is later after `patience` readings however many of them say the same, and does not
     * go by a whole wrap unseen between readings one or two apart.
     */
    ghost predicate Ticks() {
      && patience >= 1
      && forall k: nat {:trigger Reading(k)} :: Reading(k) ==>
           time(k) <= time(k + 1) <= time(k + 2) <= time(k) + MAX_GAP && time(k) < time(k + patience)
    }

    /** The most readings, and so the most calls of a sender, that fit before a deadline. */
    ghost function Fit(limit: nat): nat {
      limit * patience
    }

    method NowMs() returns (now: u32)
      modifies this
      ensures now == At(old(readings)) && readings == old(readings) + 1
    {
      now := time(readings) % WRAP;
      readings := readings + 1;
    }
  }

  /** Wrapping subtraction is the true elapsed time as long as less than one wrap has gone by. */
  lemma ElapsedAcrossTheWrap(later: nat, start: nat)
    requires start <= later < start + WRAP
    ensures ElapsedMs(later % WRAP, start % WRAP) == later - start
  {
    var q, r := start / WRAP, start % WRAP;
    assert start == q * WRAP + r;
    if r + (later - start) < WRAP {
      assert later == q * WRAP + (r + (later - start));
      assert later / WRAP == q;
    } else {
      assert later == (q + 1) * WRAP + (r + (later - start) - WRAP);
      assert later / WRAP == q + 1;
    }
  }

  /**
   * What makes a sender return: time goes by, or the transport gets somewhere. With a clock that stands still and
   * a transport that takes nothing for ever the senders do not return, which is how they are written.
   */
  ghost predicate Lively(transport: Transport, clock: Clock) {
    clock.Ticks() || transport.Progresses()
  }

  lemma {:induction false} TimeGrows(clock: Clock, i: nat, j: nat)
    requires clock.Ticks() && i <= j
    ensures clock.time(i) <= clock.time(j)
    decreases j
  {
    if i < j {
      TimeGrows(clock, i, j - 1);
      assert Reading(j - 1);
    }
  }

  lemma {:induction false} TimeAdvances(clock: Clock, i: nat, q: nat)
    requires clock.Ticks()
    ensures clock.time(i) + q <= clock.time(i + q * clock.patience)
    decreases q
  {
    if q > 0 {
      assert Reading(i);
      TimeAdvances(clock, i + clock.patience, q - 1);
      assert i + clock.patience + (q - 1) * clock.patience == i + q * clock.patience;
    }
  }

  /** Only so many readings fit into a stretch of time. */
  lemma ReadingsFit(clock: Clock, i: nat, j: nat)
    requires clock.Ticks() && i <= j
    ensures clock.time(i) <= clock.time(j)
    ensures j - i < (clock.time(j) - clock.time(i) + 1) * clock.patience
  {
    TimeGrows(clock, i, j);
    var q := clock.time(j) - clock.time(i) + 1;
    if j - i >= q * clock.patience {
      TimeAdvances(clock, i, q);
      TimeGrows(clock, i + q * clock.patience, j);
    }
  }

  /** Readings that are not `limit` apart in time are fewer than fit before that deadline. */
  lemma FewerThanFit(clock: Clock, i: nat, j: nat, limit: nat)
    requires clock.Ticks() && i <= j && clock.time(j) < clock.time(i) + limit
    ensures j - i < clock.Fit(limit)
  {
    hide Clock.Ticks;
    ReadingsFit(clock, i, j);
    ProductGrows(clock.time(j) - clock.time(i) + 1, limit, clock.patience);
  }

  lemma ProductGrows(a: int, b: int, c: nat)
    requires a <= b
    ensures a * c <= b * c
  {
  }

  /** The wrapped difference of two readings in order is never more than the true one. */
  lemma ElapsedIsNotMore(later: nat, start: nat)
    requires start <= later
    ensures ElapsedMs(later % WRAP, start % WRAP) <= later - start
  {
    var d := (later - start) % WRAP;
    var q := (later - start) / WRAP;
    ElapsedAcrossTheWrap(start + d, start);
    assert later == start + d + q * WRAP;
    WholeWraps(start + d, q);
  }

  lemma {:induction false} WholeWraps(n: nat, q: nat)
    ensures (n + q * WRAP) % WRAP == n % WRAP
  {
    if q > 0 {
      WholeWraps(n, q - 1);
      var m := n + (q - 1) * WRAP;
      assert n + q * WRAP == m + WRAP;
      assert (m + WRAP) % WRAP == m % WRAP;
    }
  }
}
