/** The sender of congestion control feedback: it classifies each packet by the time since the
    last one, and writes statuses as run-length chunks followed by the receive deltas. What it
    writes is read back exactly by the reader of module Twcc. */
module TwccFeedback {
  import opened Basics
  import opened Bytes
  import opened Twcc

  const MAX_STATUS_COUNT := 0x1FFF
  const TICK := 2500                // a quarter millisecond, in units of 100 ns

  /** Status and delta of one packet. */
  datatype Packet = Packet(status: nat, delta: int)

  // ----------------------------------------------------------- classification

  /** Division that truncates toward zero. */
  function TruncDiv(x: int, d: nat): (q: int)
    requires d > 0
  {
    if x >= 0 then x / d else -(-x / d)
  }

  function Classify(arrival: nat, last: nat): (p: Packet)
    ensures WellFormed(p)
  {
    var ticks := TruncDiv(arrival - last, TICK);
    if 0 <= ticks <= 255 then Packet(SMALL_DELTA, ticks)
    else if -32768 <= ticks <= 32767 then Packet(LARGE_DELTA, ticks)
    else Packet(NOT_RECEIVED, 0)
  }

  /** By the time since the last arrival: a packet is reported with a small delta, with a large one,
      or not at all, and the delta is that time in whole ticks, cut off toward zero. */
  lemma ClassifyExactly(arrival: nat, last: nat)
    ensures var p, d := Classify(arrival, last), arrival - last;
            && (p.status == SMALL_DELTA <==> -2500 < d < 256 * 2500)
            && (p.status == NOT_RECEIVED <==> d <= -32769 * 2500 || d >= 32768 * 2500)
            && (p.status != NOT_RECEIVED ==>
                 if d >= 0 then 2500 * p.delta <= d < 2500 * (p.delta + 1)
                 else 2500 * (p.delta - 1) < d <= 2500 * p.delta)
  {
  }

  predicate WellFormed(p: Packet) {
    && p.status <= 2
    && (p.status == SMALL_DELTA ==> 0 <= p.delta <= 255)
    && (p.status == LARGE_DELTA ==> -32768 <= p.delta <= 32767)
    && (p.status == NOT_RECEIVED ==> p.delta == 0)
  }

  /** The packets in order, each measured against the arrival before it. */
  function Packets(arrivals: seq<Option<nat>>, last: nat): (r: seq<Packet>)
    ensures |r| == |arrivals| && forall i :: 0 <= i < |r| ==> WellFormed(r[i])
  {
    if arrivals == [] then []
    else match arrivals[0]
      case None => [Packet(NOT_RECEIVED, 0)] + Packets(arrivals[1..], last)
      case Some(t) => [Classify(t, last)] + Packets(arrivals[1..], t)
  }

  function FirstArrival(arrivals: seq<Option<nat>>): (r: Option<nat>) {
    if arrivals == [] then None
    else if arrivals[0].Some? then arrivals[0]
    else FirstArrival(arrivals[1..])
  }

  // ------------------------------------------------------------------- layout

  function Put16(v: int): (r: seq<Byte>)
    ensures |r| == 2
  {
    [v % 65536 / 256, v % 256]
  }

  function Statuses(ps: seq<Packet>): (r: seq<nat>)
    ensures |r| == |ps| && forall i :: 0 <= i < |ps| ==> r[i] == ps[i].status
  {
    seq(|ps|, i requires 0 <= i < |ps| => ps[i].status)
  }

  /** The length of the run of equal statuses at the front, as far as one chunk can say. */
  function Run(s: seq<nat>, n: nat): (r: nat)
    requires 0 < n <= |s| && n <= MAX_STATUS_COUNT
    ensures n <= r <= |s| && r <= MAX_STATUS_COUNT
    decreases |s| - n
  {
    if n < |s| && s[n] == s[0] && n < MAX_STATUS_COUNT then Run(s, n + 1) else n
  }

  function Chunks(s: seq<nat>): (r: seq<Byte>)
    decreases |s|
  {
    if s == [] then [] else
    var n := Run(s, 1);
    Put16(s[0] * 8192 + n) + Chunks(s[n..])
  }

  function DeltaOf(p: Packet): (r: seq<Byte>) {
    if p.status == SMALL_DELTA then [p.delta % 256]
    else if p.status == LARGE_DELTA then Put16(p.delta)
    else []
  }

  function Deltas(ps: seq<Packet>): (r: seq<Byte>) {
    if ps == [] then [] else Deltas(ps[..|ps| - 1]) + DeltaOf(ps[|ps| - 1])
  }

  function Padding(n: nat): (r: seq<Byte>)
    ensures (n + |r|) % 4 == 0 && |r| < 4 && forall i :: 0 <= i < |r| ==> r[i] == 0
  {
    if n % 4 == 0 then [] else if n % 4 == 1 then [0, 0, 0] else if n % 4 == 2 then [0, 0] else [0]
  }

  function Head(base: nat, count: nat, refTime: nat, fbCount: nat): (r: seq<Byte>)
    ensures |r| == 8
  {
    Put16(base) + Put16(count) + [refTime / 65536 % 256, refTime / 256 % 256, refTime % 256, fbCount % 256]
  }

  /** The feedback, from its base sequence number on. */
  function Payload(base: nat, refTime: nat, fbCount: nat, ps: seq<Packet>): (r: seq<Byte>) {
    var body := Head(base, |ps|, refTime, fbCount) + Chunks(Statuses(ps)) + Deltas(ps);
    body + Padding(|body|)
  }

  // --------------------------------------------------------------- round trip

  lemma {:induction false} RunIsEqual(s: seq<nat>, n: nat)
    requires 0 < n <= |s| && n <= MAX_STATUS_COUNT && forall i :: 0 <= i < n ==> s[i] == s[0]
    ensures forall i :: 0 <= i < Run(s, n) ==> s[i] == s[0]
    decreases |s| - n
  {
    if n < |s| && s[n] == s[0] && n < MAX_STATUS_COUNT {
      RunIsEqual(s, n + 1);
    }
  }

  lemma Put16Reads(p: seq<Byte>, off: nat, v: int)
    requires off + 2 <= |p| && p[off..off + 2] == Put16(v)
    ensures U16(p, off) == v % 65536
  {
    assert p[off] == p[off..off + 2][0] && p[off + 1] == p[off..off + 2][1];
    assert v % 65536 % 256 == v % 256;
  }

  lemma RunChunk(st: nat, n: nat)
    requires st <= 2 && 0 < n <= MAX_STATUS_COUNT
    ensures var c := (st * 8192 + n) % 65536;
            IsRunLength(c) && Symbols(c) == seq(n, _ => st)
  {
    var c := st * 8192 + n;
    assert c < 32768 && c / 8192 == st && c % 8192 == n;
  }

  lemma {:induction false} ChunksFront(s: seq<nat>, n: nat)
    requires s != [] && n == Run(s, 1)
    ensures Chunks(s) == Put16(s[0] * 8192 + n) + Chunks(s[n..])
  {
  }

  lemma ChunkReads(p: seq<Byte>, off: nat, st: nat, n: nat)
    requires st <= 2 && 0 < n <= MAX_STATUS_COUNT && off + 2 <= |p| && p[off..off + 2] == Put16(st * 8192 + n)
    ensures Symbols(U16(p, off)) == seq(n, _ => st)
  {
    Put16Reads(p, off, st * 8192 + n);
    RunChunk(st, n);
  }

  /** The first chunk, and the octets of the others. */
  lemma {:induction false} FirstChunk(p: seq<Byte>, off: nat, s: seq<nat>, n: nat, cs: seq<Byte>)
    returns (rest: seq<Byte>)
    requires s != [] && n == Run(s, 1) && cs == Chunks(s) && off <= |p| && cs <= p[off..]
    ensures rest == Chunks(s[n..]) && |cs| == 2 + |rest|
    ensures off + 2 <= |p| && rest <= p[off + 2..] && p[off..off + 2] == Put16(s[0] * 8192 + n)
  {
    ChunksFront(s, n);
    rest := Chunks(s[n..]);
    ChunkAt(p, off, Put16(s[0] * 8192 + n), rest);
  }

  /** Both walks, wanting as many symbols, take the chunks at `off` for `s` and stop at `end`. */
  ghost predicate ReadsAs(p: seq<Byte>, off: nat, s: seq<nat>, end: nat) {
    Expanded(p, off, |s|) == s && ChunksEnd(p, off, |s|) == end
  }

  lemma {:induction false} ReadsNext(p: seq<Byte>, off: nat, s: seq<nat>, n: nat, end: nat)
    requires s != [] && s[0] <= 2 && n == Run(s, 1) && ReadsAs(p, off + 2, s[n..], end)
    requires off + 2 <= |p| && p[off..off + 2] == Put16(s[0] * 8192 + n)
    ensures ReadsAs(p, off, s, end)
  {
    RunTaken(p, off, s[0], n, |s|);
    RunIsEqual(s, 1);
    RunThenRest(s, n);
  }

  /** Reading the chunks gives back the statuses, and ends where the chunks end. */
  lemma {:induction false} ChunksRead(p: seq<Byte>, off: nat, s: seq<nat>, cs: seq<Byte>)
    requires cs == Chunks(s) && off <= |p| && cs <= p[off..] && forall i :: 0 <= i < |s| ==> s[i] <= 2
    ensures ReadsAs(p, off, s, off + |cs|)
    decreases |s|
  {
    if s != [] {
      var n := Run(s, 1);
      var rest := FirstChunk(p, off, s, n, cs);
      ChunksRead(p, off + 2, s[n..], rest);
      ReadsNext(p, off, s, n, off + |cs|);
    }
  }

  lemma {:induction false} RunTaken(p: seq<Byte>, off: nat, st: nat, n: nat, wanted: nat)
    requires st <= 2 && 0 < n <= MAX_STATUS_COUNT && n <= wanted
    requires off + 2 <= |p| && p[off..off + 2] == Put16(st * 8192 + n)
    ensures Expanded(p, off, wanted) == seq(n, _ => st) + Expanded(p, off + 2, wanted - n)
    ensures ChunksEnd(p, off, wanted) == ChunksEnd(p, off + 2, wanted - n)
  {
    ChunkReads(p, off, st, n);
    RunRead(p, off, st, n, wanted);
  }

  lemma RunThenRest(s: seq<nat>, n: nat)
    requires n <= |s| && forall i :: 0 <= i < n ==> s[i] == s[0]
    ensures s != [] ==> s == seq(n, _ => s[0]) + s[n..]
  {
  }

  /** Both walks take a run-length chunk for `n` symbols. */
  lemma RunRead(p: seq<Byte>, off: nat, st: nat, n: nat, wanted: nat)
    requires off + 2 <= |p| && 0 < n <= wanted && Symbols(U16(p, off)) == seq(n, _ => st)
    ensures Expanded(p, off, wanted) == seq(n, _ => st) + Expanded(p, off + 2, wanted - n)
    ensures ChunksEnd(p, off, wanted) == ChunksEnd(p, off + 2, wanted - n)
  {
    var run := seq(n, _ => st);
    ExpandedStep(p, off, wanted, n);
    assert run[..n] == run;
  }

  lemma ChunkAt(p: seq<Byte>, off: nat, a: seq<Byte>, b: seq<Byte>)
    requires off <= |p| && |a| == 2 && a + b <= p[off..]
    ensures off + 2 <= |p| && p[off..off + 2] == a && b <= p[off + 2..]
  {
    assert p[off..][..2] == (a + b)[..2] == a;
    assert p[off..][2..] == p[off + 2..] && (a + b)[2..] == b;
  }

  /** What the reader should make of one packet, and of all of them. */
  function Noted(u: Tally, p: Packet): (r: Tally) {
    var next := (u.seqNum + 1) % 65536;
    if p.status == NOT_RECEIVED then
      u.(lost := u.lost + 1, seqNum := next, rows := u.rows + [Row(u.seqNum, p.status, 0, u.arrival)])
    else
      u.(received := u.received + 1, seqNum := next, arrival := u.arrival + p.delta,
         deltaOffset := u.deltaOffset + |DeltaOf(p)|,
         rows := u.rows + [Row(u.seqNum, p.status, p.delta, u.arrival + p.delta)])
  }

  function Expected(t: Tally, ps: seq<Packet>): (r: Tally) {
    if ps == [] then t else Noted(Expected(t, ps[..|ps| - 1]), ps[|ps| - 1])
  }

  lemma NextDeltaIs(p: seq<Byte>, d: Packet, off: nat)
    requires WellFormed(d) && d.status != NOT_RECEIVED && off <= |p| && DeltaOf(d) <= p[off..]
    ensures NextDelta(p, d.status, off) == (d.delta, off + |DeltaOf(d)|)
  {
    if d.status == SMALL_DELTA {
      assert p[off] == p[off..][0];
    } else {
      assert p[off..off + 2] == p[off..][..2];
      Put16Reads(p, off, d.delta);
    }
  }

  lemma DeltaRead(p: seq<Byte>, u: Tally, d: Packet)
    requires WellFormed(d) && u.deltaOffset <= |p| && DeltaOf(d) <= p[u.deltaOffset..]
    ensures Counted(p, u, d.status) == Noted(u, d)
  {
    if d.status != NOT_RECEIVED {
      NextDeltaIs(p, d, u.deltaOffset);
    }
  }

  lemma {:induction false} ExpectedOffset(t: Tally, ps: seq<Packet>)
    ensures Expected(t, ps).deltaOffset == t.deltaOffset + |Deltas(ps)|
  {
    if ps != [] {
      ExpectedOffset(t, ps[..|ps| - 1]);
    }
  }

  lemma DeltasSplit(p: seq<Byte>, off: nat, a: seq<Byte>, b: seq<Byte>)
    requires off <= |p| && a + b <= p[off..]
    ensures a <= p[off..] && off + |a| <= |p| && b <= p[off + |a|..]
    ensures a + b == p[off..] ==> b == p[off + |a|..]
  {
    assert p[off..][..|a|] == (a + b)[..|a|] == a;
    assert p[off..][|a|..] == p[off + |a|..] && (a + b)[|a|..] == b;
  }

  lemma {:induction false} DeltasRead(p: seq<Byte>, t: Tally, ps: seq<Packet>)
    requires forall i :: 0 <= i < |ps| ==> WellFormed(ps[i])
    requires t.deltaOffset <= |p| && Deltas(ps) <= p[t.deltaOffset..]
    ensures CountedAll(p, t, Statuses(ps)) == Expected(t, ps)
  {
    if ps != [] {
      var n := |ps| - 1;
      DeltasSplit(p, t.deltaOffset, Deltas(ps[..n]), DeltaOf(ps[n]));
      DeltasRead(p, t, ps[..n]);
      ExpectedOffset(t, ps[..n]);
      assert Statuses(ps)[..n] == Statuses(ps[..n]);
      DeltaRead(p, Expected(t, ps[..n]), ps[n]);
    }
  }

  /** Base, count and reference time, and where the rest of the payload is. */
  lemma HeadReads(base: nat, count: nat, refTime: nat, fbCount: nat, rest: seq<Byte>)
    requires base < 65536 && count < 65536 && refTime < 0x100_0000
    ensures var p := Head(base, count, refTime, fbCount) + rest;
            && U16(p, 0) == base && U16(p, 2) == count && p[8..] == rest
            && 65536 * (p[4] as int) + 256 * (p[5] as int) + p[6] == refTime && p[7] == fbCount % 256
  {
    var h := Head(base, count, refTime, fbCount);
    var p := h + rest;
    assert p[0..2] == h[0..2] == Put16(base) && p[2..4] == h[2..4] == Put16(count);
    Put16Reads(p, 0, base);
    Put16Reads(p, 2, count);
    assert refTime == 65536 * (refTime / 65536) + 256 * (refTime / 256 % 256) + refTime % 256;
  }

  /** Where a report on `ps` starts. */
  function Begins(base: nat, refTime: nat, ps: seq<Packet>): (t: Tally) {
    Tally(0, 0, base, 256 * refTime, 8 + |Chunks(Statuses(ps))|, [])
  }

  lemma BodyFirst(h: seq<Byte>, c: seq<Byte>, d: seq<Byte>, pad: seq<Byte>)
    ensures h + c + d + pad == h + (c + (d + pad))
  {
    Regroup(h + c, d, pad);
    Regroup(h, c, d + pad);
  }

  lemma {:induction false} ReportOfParts(p: seq<Byte>, base: nat, refTime: nat, symbols: seq<nat>, end: nat)
    requires |p| >= 8 && U16(p, 0) == base
    requires 65536 * (p[4] as int) + 256 * (p[5] as int) + p[6] == refTime
    requires Expanded(p, 8, U16(p, 2)) == symbols && ChunksEnd(p, 8, U16(p, 2)) == end
    ensures Report(p) == CountedAll(p, Tally(0, 0, base, 256 * refTime, end, []), symbols)
  {
  }

  lemma {:induction false} ReportCounts(p: seq<Byte>, base: nat, refTime: nat, s: seq<nat>)
    requires |p| >= 8 && U16(p, 0) == base && U16(p, 2) == |s|
    requires 65536 * (p[4] as int) + 256 * (p[5] as int) + p[6] == refTime
    requires Chunks(s) <= p[8..] && forall i :: 0 <= i < |s| ==> s[i] <= 2
    ensures Report(p) == CountedAll(p, Tally(0, 0, base, 256 * refTime, 8 + |Chunks(s)|, []), s)
  {
    ChunksRead(p, 8, s, Chunks(s));
    ReportOfParts(p, base, refTime, s, 8 + |Chunks(s)|);
  }

  lemma {:induction false} ReportAfterHead(p: seq<Byte>, base: nat, refTime: nat, ps: seq<Packet>, end: nat,
                                           s: seq<nat>)
    requires |p| >= 8 && s == Statuses(ps) && end == 8 + |Chunks(s)| <= |p|
    requires Report(p) == CountedAll(p, Tally(0, 0, base, 256 * refTime, end, []), s)
    requires Deltas(ps) <= p[end..]
    requires forall i :: 0 <= i < |ps| ==> WellFormed(ps[i])
    ensures Report(p) == Expected(Begins(base, refTime, ps), ps)
  {
    DeltasRead(p, Tally(0, 0, base, 256 * refTime, end, []), ps);
  }

  /** The reader reports of any feedback exactly what the sender put into it: every packet
      with its sequence number, its status and its delta. */
  lemma {:induction false} FeedbackRoundTrip(base: nat, refTime: nat, fbCount: nat, ps: seq<Packet>)
    requires base < 65536 && |ps| < 65536 && refTime < 0x100_0000
    requires forall i :: 0 <= i < |ps| ==> WellFormed(ps[i])
    ensures Report(Payload(base, refTime, fbCount, ps)) == Expected(Begins(base, refTime, ps), ps)
  {
    var h, c, d := Head(base, |ps|, refTime, fbCount), Chunks(Statuses(ps)), Deltas(ps);
    var pad := Padding(|h + c + d|);
    BodyFirst(h, c, d, pad);
    HeadReads(base, |ps|, refTime, fbCount, c + (d + pad));
    var p := h + (c + (d + pad));
    DeltasSplit(p, 8, c, d + pad);
    ReportCounts(p, base, refTime, Statuses(ps));
    ReportAfterHead(p, base, refTime, ps, 8 + |c|, Statuses(ps));
  }

  // ------------------------------------------------------------------- sender

  /** The reference time of a report, in units of 64 ms, from the first arrival in it. */
  function RefUnits(first: nat): (u: nat) {
    first / 10_000 % 0x1_0000_0000 / 64
  }

  /** The first packet of a report is measured from the reference time, and so has a small delta, if
      and only if the clock has not passed 2^32 milliseconds; after that it is reported as lost. */
  lemma FirstIsSmall(first: nat)
    ensures var p := Classify(first, RefUnits(first) * 640_000);
            if first < 0x1_0000_0000 * 10_000 then p.status == SMALL_DELTA else p.status == NOT_RECEIVED
  {
    var ms := first / 10_000;
    ClassifyExactly(first, RefUnits(first) * 640_000);
    if ms < 0x1_0000_0000 {
      assert ms % 0x1_0000_0000 == ms;
    }
  }

  function Limited(arrivals: seq<Option<nat>>): (r: seq<Option<nat>>)
    ensures r <= arrivals && |r| == if |arrivals| < 0x1FFF then |arrivals| else 0x1FFF
  {
    if |arrivals| > MAX_STATUS_COUNT then arrivals[..MAX_STATUS_COUNT] else arrivals
  }

  method FindFirst(arrivals: seq<Option<nat>>) returns (r: Option<nat>)
    ensures r == FirstArrival(arrivals)
  {
    for i := 0 to |arrivals|
      invariant FirstArrival(arrivals[i..]) == FirstArrival(arrivals)
    {
      assert arrivals[i..][1..] == arrivals[i + 1..];
      if arrivals[i].Some? {
        return arrivals[i];
      }
    }
    return None;
  }

  method ClassifyAll(arrivals: seq<Option<nat>>, reference: nat) returns (ps: seq<Packet>)
    ensures ps == Packets(arrivals, reference)
  {
    ps := [];
    var last := reference;
    for i := 0 to |arrivals|
      invariant ps + Packets(arrivals[i..], last) == Packets(arrivals, reference)
    {
      assert arrivals[i..][1..] == arrivals[i + 1..];
      match arrivals[i] {
        case Some(t) =>
          ps := ps + [Classify(t, last)];
          last := t;
        case None =>
          ps := ps + [Packet(NOT_RECEIVED, 0)];
      }
    }
  }

  method RunAt(s: seq<nat>, i: nat) returns (run: nat)
    requires i < |s|
    ensures 0 < run <= |s| - i && run == Run(s[i..], 1)
  {
    run := 1;
    while i + run < |s| && s[i + run] == s[i] && run < MAX_STATUS_COUNT
      invariant 0 < run <= |s| - i && run <= MAX_STATUS_COUNT && Run(s[i..], run) == Run(s[i..], 1)
    {
      run := run + 1;
    }
  }

  /** The run-length chunks of the statuses. */
  method WriteChunks(s: seq<nat>) returns (out: seq<Byte>)
    ensures out == Chunks(s)
  {
    out := [];
    var i := 0;
    assert s[0..] == s;
    while i < |s|
      invariant i <= |s| && Chunks(s) == out + Chunks(s[i..])
    {
      var run := RunAt(s, i);
      ChunksNext(s, i, run);
      Regroup(out, Put16(s[i] * 8192 + run), Chunks(s[i + run..]));
      out := out + Put16(s[i] * 8192 + run);
      i := i + run;
    }
  }

  lemma ChunksNext(s: seq<nat>, i: nat, run: nat)
    requires i < |s| && 0 < run <= |s| - i && run == Run(s[i..], 1)
    ensures Chunks(s[i..]) == Put16(s[i] * 8192 + run) + Chunks(s[i + run..])
  {
    assert s[i..][run..] == s[i + run..];
  }

  method WriteDeltas(ps: seq<Packet>) returns (out: seq<Byte>)
    ensures out == Deltas(ps)
  {
    out := [];
    for i := 0 to |ps|
      invariant out == Deltas(ps[..i])
    {
      assert ps[..i + 1][..i] == ps[..i];
      if ps[i].status == SMALL_DELTA {
        out := out + [ps[i].delta % 256];
      } else if ps[i].status == LARGE_DELTA {
        out := out + Put16(ps[i].delta);
      }
    }
    assert ps[..|ps|] == ps;
  }

  /** The feedback on the packets from `base` on; none when nothing has arrived. */
  method BuildFeedback(base: nat, arrivals: seq<Option<nat>>, fbCount: nat) returns (r: Option<seq<Byte>>)
    ensures var first := FirstArrival(Limited(arrivals));
            if first.None? then r.None?
            else var u := RefUnits(first.value);
                 r == Some(Payload(base, u % 0x100_0000, fbCount, Packets(Limited(arrivals), u * 640_000)))
  {
    var counted := Limited(arrivals);
    var first := FindFirst(counted);
    if first.None? {
      return None;
    }
    var u := RefUnits(first.value);
    var ps := ClassifyAll(counted, u * 640_000);
    var chunks := WriteChunks(Statuses(ps));
    var deltas := WriteDeltas(ps);
    var out := Head(base, |ps|, u % 0x100_0000, fbCount) + chunks + deltas;
    out := out + Padding(|out|);
    return Some(out);
  }

  /** The reader's view of any feedback that is sent: one row a packet, in order, with the
      status and delta the sender gave it. */
  lemma {:induction false} SentIsRead(base: nat, arrivals: seq<Option<nat>>, fbCount: nat, refTime: nat, reference: nat)
    requires base < 65536 && |arrivals| <= MAX_STATUS_COUNT && refTime < 0x100_0000
    ensures var ps := Packets(arrivals, reference);
            Report(Payload(base, refTime, fbCount, ps)) == Expected(Begins(base, refTime, ps), ps)
  {
    FeedbackRoundTrip(base, refTime, fbCount, Packets(arrivals, reference));
  }
}
