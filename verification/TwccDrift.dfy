/** The clock that a reader of congestion control feedback rebuilds from the deltas, against the
    arrival times at the sender of the feedback. */
module TwccDrift {
  import opened Basics
  import opened Twcc
  import opened TwccFeedback

  function LastArrival(arrivals: seq<Option<nat>>, last: nat): (t: nat) {
    if arrivals == [] then last
    else LastArrival(arrivals[1..], if arrivals[0].Some? then arrivals[0].value else last)
  }

  /** The time that passed before arrivals whose delta is too large to send: such a packet is
      reported as lost, while the next delta is measured from its arrival all the same. */
  function Missed(arrivals: seq<Option<nat>>, last: nat): (d: int) {
    if arrivals == [] then 0
    else match arrivals[0]
      case None => Missed(arrivals[1..], last)
      case Some(t) => (if Classify(t, last).status == NOT_RECEIVED then t - last else 0) + Missed(arrivals[1..], t)
  }

  /** Every packet that arrived is reported as received. */
  predicate NoneTooLate(arrivals: seq<Option<nat>>, last: nat) {
    arrivals != [] ==>
      match arrivals[0]
      case None => NoneTooLate(arrivals[1..], last)
      case Some(t) => Classify(t, last).status != NOT_RECEIVED && NoneTooLate(arrivals[1..], t)
  }

  lemma {:induction false} NothingMissed(arrivals: seq<Option<nat>>, last: nat)
    requires NoneTooLate(arrivals, last)
    ensures Missed(arrivals, last) == 0
  {
    if arrivals != [] {
      NothingMissed(arrivals[1..], if arrivals[0].Some? then arrivals[0].value else last);
    }
  }

  function Total(ps: seq<Packet>): (d: int) {
    if ps == [] then 0 else ps[0].delta + Total(ps[1..])
  }

  function Heard(ps: seq<Packet>): (n: nat) {
    if ps == [] then 0 else (if ps[0].status == NOT_RECEIVED then 0 else 1) + Heard(ps[1..])
  }

  lemma TruncError(x: int)
    ensures -TICK < x - TICK * TruncDiv(x, TICK) < TICK
  {
  }

  /** The sum of the deltas is off by the time missed, give or take less than a tick for every
      packet received. */
  lemma {:induction false} DriftBound(arrivals: seq<Option<nat>>, last: nat)
    ensures var ps := Packets(arrivals, last);
            var err := LastArrival(arrivals, last) - last - TICK * Total(ps) - Missed(arrivals, last);
            -(TICK - 1) * Heard(ps) <= err <= (TICK - 1) * Heard(ps)
  {
    if arrivals != [] {
      var ps := Packets(arrivals, last);
      match arrivals[0] {
        case None =>
          DriftBound(arrivals[1..], last);
          assert ps[1..] == Packets(arrivals[1..], last);
        case Some(t) =>
          DriftBound(arrivals[1..], t);
          assert ps[1..] == Packets(arrivals[1..], t);
          TruncError(t - last);
      }
    }
  }

  lemma {:induction false} TotalsSnoc(ps: seq<Packet>, p: Packet)
    ensures Total(ps + [p]) == Total(ps) + p.delta
    ensures Heard(ps + [p]) == Heard(ps) + if p.status == NOT_RECEIVED then 0 else 1
  {
    if ps == [] {
      assert ps + [p] == [p];
    } else {
      assert (ps + [p])[1..] == ps[1..] + [p];
      TotalsSnoc(ps[1..], p);
    }
  }

  lemma {:induction false} ExpectedTotals(t: Tally, ps: seq<Packet>)
    requires forall i :: 0 <= i < |ps| ==> WellFormed(ps[i])
    ensures Expected(t, ps).arrival == t.arrival + Total(ps)
    ensures Expected(t, ps).received == t.received + Heard(ps)
  {
    if ps != [] {
      var n := |ps| - 1;
      ExpectedTotals(t, ps[..n]);
      assert ps == ps[..n] + [ps[n]];
      TotalsSnoc(ps[..n], ps[n]);
    }
  }

  // ---------------------------------------------------------------- row by row

  lemma {:induction false} PacketsPrefix(arrivals: seq<Option<nat>>, last: nat, n: nat)
    requires n <= |arrivals|
    ensures Packets(arrivals[..n], last) == Packets(arrivals, last)[..n]
  {
    if n > 0 {
      var next := if arrivals[0].Some? then arrivals[0].value else last;
      assert arrivals[..n][1..] == arrivals[1..][..n - 1];
      PacketsPrefix(arrivals[1..], next, n - 1);
    }
  }

  /** The row of packet k is what the first packets, up to it, come to. */
  lemma {:induction false} RowOf(t: Tally, ps: seq<Packet>, k: nat)
    requires k < |ps| && t.rows == [] && forall i :: 0 <= i < |ps| ==> WellFormed(ps[i])
    ensures |Expected(t, ps).rows| == |ps|
    ensures Expected(t, ps).rows[k].arrival == Expected(t, ps[..k + 1]).arrival
    ensures Expected(t, ps).rows[k].status == ps[k].status
  {
    var n := |ps| - 1;
    RowsCount(t, ps);
    if k == n {
      assert ps[..k + 1] == ps;
    } else {
      RowOf(t, ps[..n], k);
      RowsCount(t, ps[..n]);
      assert ps[..n][..k + 1] == ps[..k + 1];
    }
  }

  lemma {:induction false} RowsCount(t: Tally, ps: seq<Packet>)
    requires t.rows == []
    ensures |Expected(t, ps).rows| == |ps|
    ensures ps != [] ==> Expected(t, ps).rows[|ps| - 1].arrival == Expected(t, ps).arrival
    ensures ps != [] ==> Expected(t, ps).rows[|ps| - 1].status == ps[|ps| - 1].status
  {
    if ps != [] {
      RowsCount(t, ps[..|ps| - 1]);
    }
  }

  /** The whole turns of the 24-bit reference time that are lost, in the sender's units. */
  function Turns(u: nat): (t: nat) {
    (u - u % 0x100_0000) * 640_000
  }

  /** The arrival that the reader rebuilds for packet k, against the last arrival up to it. */
  function ClockError(base: nat, arrivals: seq<Option<nat>>, fbCount: nat, u: nat, k: nat): (err: int)
    requires base < 65536 && |arrivals| <= MAX_STATUS_COUNT && k < |arrivals|
  {
    var p := Payload(base, u % 0x100_0000, fbCount, Packets(arrivals, u * 640_000));
    RowsReported(base, arrivals, fbCount, u);
    LastArrival(arrivals[..k + 1], u * 640_000) - Turns(u) - TICK * Report(p).rows[k].arrival
  }

  lemma {:induction false} RowsReported(base: nat, arrivals: seq<Option<nat>>, fbCount: nat, u: nat)
    requires base < 65536 && |arrivals| <= MAX_STATUS_COUNT
    ensures var ps := Packets(arrivals, u * 640_000);
            |Report(Payload(base, u % 0x100_0000, fbCount, ps)).rows| == |arrivals|
  {
    var ps := Packets(arrivals, u * 640_000);
    SentIsRead(base, arrivals, fbCount, u % 0x100_0000, u * 640_000);
    if ps != [] {
      RowOf(Begins(base, u % 0x100_0000, ps), ps, 0);
    }
  }

  /** The packets received among the first k + 1. */
  function HeardBy(arrivals: seq<Option<nat>>, last: nat, k: nat): (n: nat)
    requires k < |arrivals|
  {
    Heard(Packets(arrivals[..k + 1], last))
  }

  lemma {:induction false} RowArrival(base: nat, arrivals: seq<Option<nat>>, fbCount: nat, u: nat, k: nat)
    requires base < 65536 && |arrivals| <= MAX_STATUS_COUNT && k < |arrivals|
    ensures var ps := Packets(arrivals, u * 640_000);
            var r := Report(Payload(base, u % 0x100_0000, fbCount, ps));
            && |r.rows| == |arrivals|
            && r.rows[k].arrival == 256 * (u % 0x100_0000) + Total(Packets(arrivals[..k + 1], u * 640_000))
  {
    var ps := Packets(arrivals, u * 640_000);
    var t := Begins(base, u % 0x100_0000, ps);
    SentIsRead(base, arrivals, fbCount, u % 0x100_0000, u * 640_000);
    RowOf(t, ps, k);
    PacketsPrefix(arrivals, u * 640_000, k + 1);
    ExpectedTotals(t, ps[..k + 1]);
  }

  /** The clock that the reader rebuilds from the deltas, at every packet and for any arrivals:
      it is off by the time missed so far, give or take less than a tick for every packet
      received so far, as each delta is cut off to whole ticks. */
  lemma {:induction false} ClockDrift(base: nat, arrivals: seq<Option<nat>>, fbCount: nat, u: nat, k: nat)
    requires base < 65536 && |arrivals| <= MAX_STATUS_COUNT && k < |arrivals|
    ensures var off := ClockError(base, arrivals, fbCount, u, k) - Missed(arrivals[..k + 1], u * 640_000);
            var bound := (TICK - 1) * HeardBy(arrivals, u * 640_000, k);
            -bound <= off <= bound
  {
    RowArrival(base, arrivals, fbCount, u, k);
    DriftBound(arrivals[..k + 1], u * 640_000);
  }

  /** Where no delta was too large to send, the clock is off by less than a tick a packet. */
  lemma {:induction false} ClockInStep(base: nat, arrivals: seq<Option<nat>>, fbCount: nat, u: nat, k: nat)
    requires base < 65536 && |arrivals| <= MAX_STATUS_COUNT && k < |arrivals|
    requires NoneTooLate(arrivals[..k + 1], u * 640_000)
    ensures InStep(base, arrivals, fbCount, u, k)
  {
    NothingMissed(arrivals[..k + 1], u * 640_000);
    ClockDrift(base, arrivals, fbCount, u, k);
  }

  /** The rebuilt clock is off by less than a tick for every packet received so far. */
  predicate InStep(base: nat, arrivals: seq<Option<nat>>, fbCount: nat, u: nat, k: nat)
    requires base < 65536 && |arrivals| <= MAX_STATUS_COUNT && k < |arrivals|
  {
    var bound := (TICK - 1) * HeardBy(arrivals, u * 640_000, k);
    -bound <= ClockError(base, arrivals, fbCount, u, k) <= bound
  }

  lemma {:induction false} NoneTooLatePrefix(arrivals: seq<Option<nat>>, last: nat, n: nat)
    requires n <= |arrivals| && NoneTooLate(arrivals, last)
    ensures NoneTooLate(arrivals[..n], last)
  {
    if n > 0 {
      assert arrivals[..n][1..] == arrivals[1..][..n - 1];
      NoneTooLatePrefix(arrivals[1..], if arrivals[0].Some? then arrivals[0].value else last, n - 1);
    }
  }

  /** The first arrival whose delta is too large to send, and the time missed before it. */
  lemma {:induction false} FirstTooLate(arrivals: seq<Option<nat>>, last: nat) returns (m: nat)
    requires !NoneTooLate(arrivals, last)
    ensures m < |arrivals|
    ensures var d := Missed(arrivals[..m + 1], last); d >= 32768 * TICK || d <= -32768 * TICK
  {
    if arrivals[0].Some? && Classify(arrivals[0].value, last).status == NOT_RECEIVED {
      m := 0;
      assert arrivals[..1] == [arrivals[0]] && [arrivals[0]][1..] == [];
      TooLargeToSend(arrivals[0].value - last);
    } else {
      var k := FirstTooLate(arrivals[1..], if arrivals[0].Some? then arrivals[0].value else last);
      m := k + 1;
      assert arrivals[..m + 1][1..] == arrivals[1..][..k + 1];
    }
  }

  lemma TooLargeToSend(x: int)
    requires var ticks := TruncDiv(x, TICK); ticks > 32767 || ticks < -32768
    ensures x >= 32768 * TICK || x <= -32768 * TICK
  {
  }

  lemma {:induction false} HeardAtMost(ps: seq<Packet>)
    ensures Heard(ps) <= |ps|
  {
    if ps != [] {
      HeardAtMost(ps[1..]);
    }
  }

  lemma {:induction false} OutOfStep(base: nat, arrivals: seq<Option<nat>>, fbCount: nat, u: nat)
    requires base < 65536 && |arrivals| <= MAX_STATUS_COUNT && !NoneTooLate(arrivals, u * 640_000)
    ensures exists k :: 0 <= k < |arrivals| && !InStep(base, arrivals, fbCount, u, k)
  {
    var k := FirstTooLate(arrivals, u * 640_000);
    ClockDrift(base, arrivals, fbCount, u, k);
    HeardAtMost(Packets(arrivals[..k + 1], u * 640_000));
    assert !InStep(base, arrivals, fbCount, u, k);
  }

  /** The rebuilt clock keeps in step at every packet if and only if no delta was too large to
      send. */
  lemma {:induction false} InStepExactly(base: nat, arrivals: seq<Option<nat>>, fbCount: nat, u: nat)
    requires base < 65536 && |arrivals| <= MAX_STATUS_COUNT
    ensures (forall k :: 0 <= k < |arrivals| ==> InStep(base, arrivals, fbCount, u, k)) <==>
            NoneTooLate(arrivals, u * 640_000)
  {
    if NoneTooLate(arrivals, u * 640_000) {
      forall k | 0 <= k < |arrivals|
        ensures InStep(base, arrivals, fbCount, u, k)
      {
        NoneTooLatePrefix(arrivals, u * 640_000, k + 1);
        ClockInStep(base, arrivals, fbCount, u, k);
      }
    } else {
      OutOfStep(base, arrivals, fbCount, u);
    }
  }

  /** Two packets, of which the second comes too late for its delta to be sent. */
  lemma {:induction false} TwoPackets(arrivals: seq<Option<nat>>, gap: nat)
    requires gap >= 32768 * TICK && arrivals == [Some(0), Some(gap)]
    ensures !NoneTooLate(arrivals, 0) && LastArrival(arrivals, 0) == gap
    ensures Packets(arrivals, 0) == [Packet(SMALL_DELTA, 0)] + [Packet(NOT_RECEIVED, 0)]
  {
    assert arrivals[1..] == [Some(gap)] && [Some(gap)][1..] == [];
    assert Packets([Some(gap)], 0) == [Packet(NOT_RECEIVED, 0)];
    assert LastArrival([Some(gap)], 0) == LastArrival([], gap) == gap;
  }

  /** A gap that is too long: the packet after it is reported as lost, and the reader's clock
      stays behind by all of the gap. */
  lemma {:induction false} ClockFallsBehind(base: nat, fbCount: nat, arrivals: seq<Option<nat>>, gap: nat)
    requires base < 65536 && gap >= 32768 * TICK && arrivals == [Some(0), Some(gap)]
    ensures HeardBy(arrivals, 0, 1) == 1 && ClockError(base, arrivals, fbCount, 0, 1) == gap
  {
    assert arrivals[..2] == arrivals;
    TwoPackets(arrivals, gap);
    TotalsSnoc([Packet(SMALL_DELTA, 0)], Packet(NOT_RECEIVED, 0));
    assert [Packet(SMALL_DELTA, 0)][1..] == [];
    RowArrival(base, arrivals, fbCount, 0, 1);
  }
}
