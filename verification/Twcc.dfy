/** The reader of transport-wide congestion control feedback: it walks the status chunks
    twice, once to find where the receive deltas start and once to pair each packet with its
    status and delta. Layout after section 3.1 of
    draft-holmer-rmcat-transport-wide-cc-extensions-01. */
module Twcc {
  import opened Basics
  import opened Bytes

  const NOT_RECEIVED := 0
  const SMALL_DELTA := 1
  const LARGE_DELTA := 2

  function U16(p: seq<Byte>, off: nat): (v: nat)
    requires off + 2 <= |p|
    ensures v < 65536
  {
    256 * (p[off] as int) + p[off + 1]
  }

  /** A 16-bit number read as signed. */
  function Signed16(v: nat): (d: int) {
    if v < 32768 then v else v - 65536
  }

  // ------------------------------------------------------------------- chunks

  predicate IsRunLength(c: nat) { c / 32768 % 2 == 0 }

  function RunSymbol(c: nat): nat { c / 8192 % 4 }

  function RunLength(c: nat): nat { c % 8192 }

  predicate IsTwoBit(c: nat) { c / 16384 % 2 == 1 }

  function VectorCount(c: nat): (n: nat) { if IsTwoBit(c) then 7 else 14 }

  function VectorSymbol(c: nat, i: nat): (s: nat)
    requires i < VectorCount(c)
  {
    if IsTwoBit(c) then c / Pow2(12 - 2 * i) % 4 else c / Pow2(13 - i) % 2
  }

  /** The status symbols a chunk stands for. */
  function Symbols(c: nat): (r: seq<nat>)
    ensures |r| == if IsRunLength(c) then RunLength(c) else VectorCount(c)
  {
    if IsRunLength(c) then seq(RunLength(c), _ => RunSymbol(c))
    else seq(VectorCount(c), i requires 0 <= i < VectorCount(c) => VectorSymbol(c, i))
  }

  /** All the symbols there could be: every pair of octets from `off` on, read as a chunk. */
  function AllSymbols(p: seq<Byte>, off: nat): (r: seq<nat>)
    decreases |p| - off
  {
    if off + 2 > |p| then [] else Symbols(U16(p, off)) + AllSymbols(p, off + 2)
  }

  /** The symbols of the chunks from `off` on, as many as are wanted. */
  function Expanded(p: seq<Byte>, off: nat, wanted: int): (r: seq<nat>)
    decreases |p| - off
  {
    if wanted <= 0 || off + 2 > |p| then []
    else
      var s := Symbols(U16(p, off));
      if |s| >= wanted then s[..wanted] else s + Expanded(p, off + 2, wanted - |s|)
  }

  /** Where the chunks end that are needed for `wanted` symbols. */
  function ChunksEnd(p: seq<Byte>, off: nat, wanted: int): (end: nat)
    ensures off <= end && (off <= |p| ==> end <= |p|)
    decreases |p| - off
  {
    if wanted <= 0 || off + 2 > |p| then off
    else ChunksEnd(p, off + 2, wanted - |Symbols(U16(p, off))|)
  }

  lemma PrefixOfSum(a: seq<nat>, b: seq<nat>, n: nat)
    ensures n <= |a| ==> (a + b)[..n] == a[..n]
    ensures |a| <= n <= |a| + |b| ==> (a + b)[..n] == a + b[..n - |a|]
  {
  }

  /** The symbols used are the first ones of all that there are. */
  lemma {:induction false} ExpandedIsPrefix(p: seq<Byte>, off: nat, wanted: nat)
    ensures var all := AllSymbols(p, off);
            Expanded(p, off, wanted) == if wanted <= |all| then all[..wanted] else all
    decreases |p| - off
  {
    if wanted > 0 && off + 2 <= |p| {
      var s, rest := Symbols(U16(p, off)), AllSymbols(p, off + 2);
      PrefixOfSum(s, rest, wanted);
      if |s| < wanted {
        ExpandedIsPrefix(p, off + 2, wanted - |s|);
      }
    }
  }

  // ---------------------------------------------------------- chunks consumed

  /** What is used of the payload is used of the chunks before `end` alone. */
  ghost predicate NoMoreUsed(p: seq<Byte>, off: nat, wanted: nat, end: nat) {
    off <= end <= |p| && Expanded(p[..end], off, wanted) == Expanded(p, off, wanted)
  }

  /** Without the last of those chunks there are too few symbols. */
  ghost predicate AllNeeded(p: seq<Byte>, off: nat, wanted: nat, end: nat) {
    off < end <= |p| ==> end >= 2 && |AllSymbols(p[..end - 2], off)| < wanted
  }

  /** With it there are enough, or no other chunk follows. */
  ghost predicate Enough(p: seq<Byte>, off: nat, wanted: nat, end: nat) {
    end <= |p| && (|AllSymbols(p[..end], off)| >= wanted || end + 2 > |p|)
  }

  /** The chunks from `off` to `end` are those that `wanted` symbols take. */
  ghost predicate Consumed(p: seq<Byte>, off: nat, wanted: nat, end: nat) {
    && off <= end && (end - off) % 2 == 0
    && NoMoreUsed(p, off, wanted, end) && AllNeeded(p, off, wanted, end) && Enough(p, off, wanted, end)
  }

  lemma CutKeepsChunk(p: seq<Byte>, m: nat, off: nat)
    requires off + 2 <= m <= |p|
    ensures U16(p[..m], off) == U16(p, off)
  {
    assert p[..m][off] == p[off] && p[..m][off + 1] == p[off + 1];
  }

  lemma {:induction false} CutStep(p: seq<Byte>, m: nat, off: nat)
    requires off + 2 <= m <= |p|
    ensures AllSymbols(p[..m], off) == Symbols(U16(p, off)) + AllSymbols(p[..m], off + 2)
  {
    CutKeepsChunk(p, m, off);
  }

  lemma {:induction false} NoneBeyond(p: seq<Byte>, off: nat)
    requires off <= |p|
    ensures AllSymbols(p[..off], off) == []
  {
  }

  lemma {:induction false} ExpandedMore(p: seq<Byte>, off: nat, wanted: nat, used: nat)
    requires off + 2 <= |p| && used == |Symbols(U16(p, off))| < wanted
    ensures Expanded(p, off, wanted) == Symbols(U16(p, off)) + Expanded(p, off + 2, wanted - used)
  {
  }

  lemma {:induction false} NoMoreUsedStep(p: seq<Byte>, off: nat, wanted: nat, used: nat, end: nat)
    requires off + 2 <= |p| && used == |Symbols(U16(p, off))| < wanted && NoMoreUsed(p, off + 2, wanted - used, end)
    ensures NoMoreUsed(p, off, wanted, end)
  {
    CutKeepsChunk(p, end, off);
    ExpandedMore(p, off, wanted, used);
    ExpandedMore(p[..end], off, wanted, used);
  }

  lemma {:induction false} AllNeededStep(p: seq<Byte>, off: nat, wanted: nat, used: nat, end: nat)
    requires off + 2 <= end <= |p| && used == |Symbols(U16(p, off))| < wanted && (end - off) % 2 == 0
    requires AllNeeded(p, off + 2, wanted - used, end)
    ensures AllNeeded(p, off, wanted, end)
  {
    if end == off + 2 {
      NoneBeyond(p, off);
    } else {
      CutStep(p, end - 2, off);
    }
  }

  lemma {:induction false} EnoughStep(p: seq<Byte>, off: nat, wanted: nat, used: nat, end: nat)
    requires off + 2 <= end <= |p| && used == |Symbols(U16(p, off))| < wanted && Enough(p, off + 2, wanted - used, end)
    ensures Enough(p, off, wanted, end)
  {
    CutStep(p, end, off);
  }

  lemma {:induction false} EndAfter(p: seq<Byte>, off: nat, wanted: int, end: nat) returns (k: nat)
    requires end == ChunksEnd(p, off, wanted)
    ensures end == off + 2 * k
    decreases |p| - off
  {
    k := 0;
    if wanted > 0 && off + 2 <= |p| {
      var n := EndAfter(p, off + 2, wanted - |Symbols(U16(p, off))|, end);
      k := n + 1;
    }
  }

  lemma TwiceIsEven(off: nat, end: nat, k: nat)
    requires end == off + 2 * k
    ensures (end - off) % 2 == 0
  {
  }

  lemma {:induction false} EndIsEven(p: seq<Byte>, off: nat, wanted: int, end: nat)
    requires end == ChunksEnd(p, off, wanted)
    ensures (end - off) % 2 == 0
  {
    var k := EndAfter(p, off, wanted, end);
    TwiceIsEven(off, end, k);
  }

  lemma {:induction false} EndUsed(p: seq<Byte>, off: nat, wanted: nat, end: nat)
    requires off <= |p| && end == ChunksEnd(p, off, wanted)
    ensures NoMoreUsed(p, off, wanted, end)
    decreases |p| - off
  {
    if wanted > 0 && off + 2 <= |p| {
      var used := |Symbols(U16(p, off))|;
      CutKeepsChunk(p, off + 2, off);
      if used < wanted {
        EndUsed(p, off + 2, wanted - used, end);
        NoMoreUsedStep(p, off, wanted, used, end);
      }
    }
  }

  lemma {:induction false} EndNeeded(p: seq<Byte>, off: nat, wanted: nat, end: nat)
    requires off <= |p| && end == ChunksEnd(p, off, wanted)
    ensures AllNeeded(p, off, wanted, end)
    decreases |p| - off
  {
    if wanted > 0 && off + 2 <= |p| {
      var used := |Symbols(U16(p, off))|;
      if used < wanted {
        EndNeeded(p, off + 2, wanted - used, end);
        EndIsEven(p, off, wanted, end);
        AllNeededStep(p, off, wanted, used, end);
      } else {
        NoneBeyond(p, off);
      }
    }
  }

  lemma {:induction false} EndEnough(p: seq<Byte>, off: nat, wanted: nat, end: nat)
    requires off <= |p| && end == ChunksEnd(p, off, wanted)
    ensures Enough(p, off, wanted, end)
    decreases |p| - off
  {
    if wanted > 0 && off + 2 <= |p| {
      var used := |Symbols(U16(p, off))|;
      if used < wanted {
        EndEnough(p, off + 2, wanted - used, end);
        EnoughStep(p, off, wanted, used, end);
      } else {
        CutStep(p, off + 2, off);
      }
    }
  }

  lemma {:induction false} ChunksConsumed(p: seq<Byte>, off: nat, wanted: nat, end: nat)
    requires off <= |p| && end == ChunksEnd(p, off, wanted)
    ensures Consumed(p, off, wanted, end)
  {
    EndIsEven(p, off, wanted, end);
    EndUsed(p, off, wanted, end);
    EndNeeded(p, off, wanted, end);
    EndEnough(p, off, wanted, end);
  }

  // ------------------------------------------------------------------ packets

  /** What is reported of one packet; times are in ticks of a quarter millisecond. */
  datatype Row = Row(seqNum: nat, status: nat, delta: int, arrival: int)

  datatype Tally = Tally(received: nat, lost: nat, seqNum: nat, arrival: int, deltaOffset: nat, rows: seq<Row>)

  /** The delta of a received packet and where the next one starts; one that does not fit
      into the payload counts as zero. */
  function NextDelta(p: seq<Byte>, status: nat, off: nat): (r: (int, nat))
    ensures off <= r.1 && (off <= |p| ==> r.1 <= |p|)
  {
    if status == SMALL_DELTA && off < |p| then (p[off], off + 1)
    else if status == LARGE_DELTA && off + 1 < |p| then (Signed16(U16(p, off)), off + 2)
    else (0, off)
  }

  function Counted(p: seq<Byte>, t: Tally, status: nat): (r: Tally) {
    var next := (t.seqNum + 1) % 65536;
    if status == NOT_RECEIVED then
      t.(lost := t.lost + 1, seqNum := next, rows := t.rows + [Row(t.seqNum, status, 0, t.arrival)])
    else
      var (delta, off) := NextDelta(p, status, t.deltaOffset);
      t.(received := t.received + 1, seqNum := next, arrival := t.arrival + delta, deltaOffset := off,
         rows := t.rows + [Row(t.seqNum, status, delta, t.arrival + delta)])
  }

  function CountedAll(p: seq<Byte>, t: Tally, symbols: seq<nat>): (r: Tally) {
    if symbols == [] then t
    else Counted(p, CountedAll(p, t, symbols[..|symbols| - 1]), symbols[|symbols| - 1])
  }

  lemma {:induction false} CountedUpTo(p: seq<Byte>, t: Tally, symbols: seq<nat>, n: nat)
    requires n < |symbols|
    ensures CountedAll(p, t, symbols[..n + 1]) == Counted(p, CountedAll(p, t, symbols[..n]), symbols[n])
  {
    assert symbols[..n + 1][..n] == symbols[..n];
  }

  function Header(p: seq<Byte>): (t: Tally)
    requires |p| >= 8
  {
    Tally(0, 0, U16(p, 0), 256 * (65536 * (p[4] as int) + 256 * (p[5] as int) + p[6]), ChunksEnd(p, 8, U16(p, 2)), [])
  }

  /** The report on a payload. */
  function Report(p: seq<Byte>): (t: Tally) {
    if |p| < 8 then Tally(0, 0, 0, 0, 0, []) else CountedAll(p, Header(p), Expanded(p, 8, U16(p, 2)))
  }

  /** How many symbols say that a packet did not arrive. */
  function Zeros(symbols: seq<nat>): (n: nat) {
    if symbols == [] then 0 else Zeros(symbols[..|symbols| - 1]) + if symbols[|symbols| - 1] == 0 then 1 else 0
  }

  /** Every packet gets its own symbol, in order; it is lost if that is 0, and received with any
      other; and the deltas are read from where they start, never past the payload. */
  ghost predicate Faithful(r: Tally, base: nat, symbols: seq<nat>, start: nat, len: nat) {
    && |r.rows| == |symbols| == r.received + r.lost
    && start <= r.deltaOffset <= len
    && r.seqNum == (base + |symbols|) % 65536 && r.lost == Zeros(symbols)
    && forall k :: 0 <= k < |symbols| ==> r.rows[k].seqNum == (base + k) % 65536 && r.rows[k].status == symbols[k]
  }

  lemma CountedFaithful(p: seq<Byte>, t: Tally, base: nat, symbols: seq<nat>, start: nat, s: nat)
    requires Faithful(t, base, symbols, start, |p|)
    ensures Faithful(Counted(p, t, s), base, symbols + [s], start, |p|)
  {
    var r := Counted(p, t, s);
    assert forall k :: 0 <= k < |symbols| ==> r.rows[k] == t.rows[k] && (symbols + [s])[k] == symbols[k];
    assert ((base + |symbols|) % 65536 + 1) % 65536 == (base + |symbols| + 1) % 65536;
    assert (symbols + [s])[..|symbols|] == symbols;
  }

  lemma {:induction false} CountedAllFaithful(p: seq<Byte>, t: Tally, symbols: seq<nat>)
    requires t.rows == [] && t.received == t.lost == 0 && t.seqNum < 65536 && t.deltaOffset <= |p|
    ensures Faithful(CountedAll(p, t, symbols), t.seqNum, symbols, t.deltaOffset, |p|)
  {
    if symbols != [] {
      var n := |symbols| - 1;
      CountedAllFaithful(p, t, symbols[..n]);
      CountedFaithful(p, CountedAll(p, t, symbols[..n]), t.seqNum, symbols[..n], t.deltaOffset, symbols[n]);
      assert symbols[..n] + [symbols[n]] == symbols;
    }
  }

  /** For every payload: packet base+k gets the k-th of all the symbols the chunks hold, and
      as many packets are received or lost as were announced or as there are symbols. The
      deltas start right after the chunks that these symbols are taken from. */
  lemma {:induction false} ReportIsFaithful(p: seq<Byte>)
    requires |p| >= 8
    ensures var all, n, end := AllSymbols(p, 8), U16(p, 2), ChunksEnd(p, 8, U16(p, 2));
            && Faithful(Report(p), U16(p, 0), if n <= |all| then all[..n] else all, end, |p|)
            && Consumed(p, 8, n, end)
  {
    ExpandedIsPrefix(p, 8, U16(p, 2));
    ChunksConsumed(p, 8, U16(p, 2), ChunksEnd(p, 8, U16(p, 2)));
    CountedAllFaithful(p, Header(p), Expanded(p, 8, U16(p, 2)));
  }

  // ------------------------------------------------------------------- deltas

  /** The octets that the deltas of some packets take. */
  function DeltaSize(symbols: seq<nat>): (n: nat) {
    if symbols == [] then 0 else DeltaSize(symbols[..|symbols| - 1]) + SizeOf(symbols[|symbols| - 1])
  }

  function SizeOf(status: nat): (n: nat) {
    if status == SMALL_DELTA then 1 else if status == LARGE_DELTA then 2 else 0
  }

  function DeltaAt(p: seq<Byte>, off: nat, status: nat): (d: int)
    requires off + SizeOf(status) <= |p|
  {
    if status == SMALL_DELTA then p[off] else if status == LARGE_DELTA then Signed16(U16(p, off)) else 0
  }

  /** The delta of packet k stands after those of the packets before it. */
  ghost predicate PlacedAt(p: seq<Byte>, d: int, start: nat, before: seq<nat>, status: nat) {
    var off := start + DeltaSize(before);
    off + SizeOf(status) <= |p| && d == DeltaAt(p, off, status)
  }

  ghost predicate InPlace(p: seq<Byte>, r: Tally, start: nat, symbols: seq<nat>) {
    && |r.rows| == |symbols| && r.deltaOffset == start + DeltaSize(symbols) <= |p|
    && forall k :: 0 <= k < |symbols| ==> PlacedAt(p, r.rows[k].delta, start, symbols[..k], symbols[k])
  }

  lemma CountedDelta(p: seq<Byte>, r: Tally, s: nat)
    requires r.deltaOffset + SizeOf(s) <= |p|
    ensures var t := Counted(p, r, s);
            && t.deltaOffset == r.deltaOffset + SizeOf(s)
            && |t.rows| == |r.rows| + 1 && t.rows[..|r.rows|] == r.rows
            && t.rows[|r.rows|].delta == DeltaAt(p, r.deltaOffset, s)
  {
  }

  lemma {:induction false} DeltaSizeNext(symbols: seq<nat>, s: nat)
    ensures DeltaSize(symbols + [s]) == DeltaSize(symbols) + SizeOf(s)
  {
    assert (symbols + [s])[..|symbols|] == symbols;
  }

  lemma PrefixKept(symbols: seq<nat>, s: nat, k: nat)
    requires k <= |symbols|
    ensures (symbols + [s])[..k] == symbols[..k]
    ensures (symbols + [s])[k] == if k < |symbols| then symbols[k] else s
  {
  }

  lemma {:induction false} InPlaceNext(p: seq<Byte>, r: Tally, start: nat, symbols: seq<nat>, s: nat, t: Tally)
    requires InPlace(p, r, start, symbols) && start + DeltaSize(symbols) + SizeOf(s) <= |p| && t == Counted(p, r, s)
    ensures InPlace(p, t, start, symbols + [s])
  {
    var more := symbols + [s];
    CountedDelta(p, r, s);
    DeltaSizeNext(symbols, s);
    forall k | 0 <= k < |more|
      ensures PlacedAt(p, t.rows[k].delta, start, more[..k], more[k])
    {
      PrefixKept(symbols, s, k);
      if k < |symbols| {
        assert t.rows[k] == t.rows[..|r.rows|][k] == r.rows[k];
      } else {
        assert symbols[..k] == symbols;
      }
    }
  }

  lemma {:induction false} CountedInPlace(p: seq<Byte>, t: Tally, symbols: seq<nat>)
    requires t.rows == [] && t.deltaOffset + DeltaSize(symbols) <= |p|
    ensures InPlace(p, CountedAll(p, t, symbols), t.deltaOffset, symbols)
  {
    if symbols != [] {
      var n := |symbols| - 1;
      CountedInPlace(p, t, symbols[..n]);
      var r := CountedAll(p, t, symbols[..n]);
      InPlaceNext(p, r, t.deltaOffset, symbols[..n], symbols[n], CountedAll(p, t, symbols));
      assert symbols[..n] + [symbols[n]] == symbols;
    }
  }

  /** Of every payload that is long enough for them, the deltas are read one after the other,
      from right after the last chunk consumed. */
  lemma {:induction false} DeltasInPlace(p: seq<Byte>)
    requires |p| >= 8
    ensures var all, n, end := AllSymbols(p, 8), U16(p, 2), ChunksEnd(p, 8, U16(p, 2));
            var symbols := if n <= |all| then all[..n] else all;
            end + DeltaSize(symbols) <= |p| ==> InPlace(p, Report(p), end, symbols)
  {
    ExpandedIsPrefix(p, 8, U16(p, 2));
    var symbols := Expanded(p, 8, U16(p, 2));
    if Header(p).deltaOffset + DeltaSize(symbols) <= |p| {
      CountedInPlace(p, Header(p), symbols);
    }
  }

  // ------------------------------------------------------------------- arrivals

  /** The arrival of each packet is that of the one before it, later by its delta. */
  ghost predicate Clocked(r: Tally, begin: int) {
    && (forall i, j :: 0 <= i < j < |r.rows| && j == i + 1 ==> r.rows[j].arrival == r.rows[i].arrival + r.rows[j].delta)
    && (r.rows != [] ==> r.rows[0].arrival == begin + r.rows[0].delta)
    && r.arrival == if r.rows == [] then begin else r.rows[|r.rows| - 1].arrival
  }

  lemma ClockedNext(p: seq<Byte>, r: Tally, begin: int, s: nat)
    requires Clocked(r, begin)
    ensures Clocked(Counted(p, r, s), begin)
  {
    var t := Counted(p, r, s);
    assert forall i :: 0 <= i < |r.rows| ==> t.rows[i] == r.rows[i];
  }

  lemma {:induction false} CountedClocked(p: seq<Byte>, t: Tally, symbols: seq<nat>)
    requires t.rows == []
    ensures Clocked(CountedAll(p, t, symbols), t.arrival)
  {
    if symbols != [] {
      var n := |symbols| - 1;
      CountedClocked(p, t, symbols[..n]);
      ClockedNext(p, CountedAll(p, t, symbols[..n]), t.arrival, symbols[n]);
    }
  }

  /** Of every payload: arrivals count from the reference time, in units of 256 ticks, and go on by
      the deltas. */
  lemma {:induction false} ArrivalsAddUp(p: seq<Byte>)
    requires |p| >= 8
    ensures Clocked(Report(p), 256 * (65536 * (p[4] as int) + 256 * (p[5] as int) + p[6]))
  {
    CountedClocked(p, Header(p), Expanded(p, 8, U16(p, 2)));
  }

  // ------------------------------------------------------------------- reader

  /** The first walk, over the chunks alone. */
  method FindDeltas(p: seq<Byte>, count: nat) returns (off: nat)
    requires |p| >= 8
    ensures off == ChunksEnd(p, 8, count)
  {
    off := 8;
    var remaining: int := count;
    while remaining > 0 && off + 2 <= |p|
      invariant 8 <= off <= |p| && ChunksEnd(p, off, remaining) == ChunksEnd(p, 8, count)
    {
      var chunk := U16(p, off);
      if IsRunLength(chunk) {
        remaining := remaining - RunLength(chunk);
      } else {
        remaining := remaining - if VectorCount(chunk) < remaining then VectorCount(chunk) else remaining;
      }
      off := off + 2;
    }
  }

  /** The packets of one chunk, as long as any are wanted. */
  method CountChunk(p: seq<Byte>, chunk: nat, wanted: nat, t0: Tally) returns (t: Tally, used: nat)
    requires wanted > 0
    ensures used == (if |Symbols(chunk)| < wanted then |Symbols(chunk)| else wanted)
    ensures t == CountedAll(p, t0, Symbols(chunk)[..used])
  {
    ghost var s := Symbols(chunk);
    t, used := t0, 0;
    if IsRunLength(chunk) {
      var status, count := RunSymbol(chunk), RunLength(chunk);
      while used < count && wanted - used > 0
        invariant used <= count && used <= wanted && t == CountedAll(p, t0, s[..used])
      {
        CountedUpTo(p, t0, s, used);
        t := Counted(p, t, status);
        used := used + 1;
      }
    } else {
      var statuses := if VectorCount(chunk) < wanted then VectorCount(chunk) else wanted;
      while used < statuses
        invariant used <= statuses && t == CountedAll(p, t0, s[..used])
      {
        var status := VectorSymbol(chunk, used);
        CountedUpTo(p, t0, s, used);
        t := Counted(p, t, status);
        used := used + 1;
      }
    }
  }

  lemma {:induction false} CountedSplit(p: seq<Byte>, t: Tally, a: seq<nat>, b: seq<nat>)
    ensures CountedAll(p, t, a + b) == CountedAll(p, CountedAll(p, t, a), b)
  {
    if b == [] {
      assert a + b == a;
    } else {
      var n := |b| - 1;
      CountedSplit(p, t, a, b[..n]);
      assert (a + b)[..|a| + n] == a + b[..n];
    }
  }

  lemma ExpandedStep(p: seq<Byte>, off: nat, wanted: nat, used: nat)
    requires wanted > 0 && off + 2 <= |p|
    requires used == (if |Symbols(U16(p, off))| < wanted then |Symbols(U16(p, off))| else wanted)
    ensures Expanded(p, off, wanted) == Symbols(U16(p, off))[..used] + Expanded(p, off + 2, wanted - used)
  {
    var s := Symbols(U16(p, off));
    if used == wanted {
      assert Expanded(p, off + 2, 0) == [];
    } else {
      assert s[..used] == s;
    }
  }

  /** Counting the used part of a chunk, and then what is wanted of the rest. */
  lemma CountStep(p: seq<Byte>, off: nat, wanted: nat, used: nat, t: Tally, next: Tally)
    requires wanted > 0 && off + 2 <= |p|
    requires used == (if |Symbols(U16(p, off))| < wanted then |Symbols(U16(p, off))| else wanted)
    requires next == CountedAll(p, t, Symbols(U16(p, off))[..used])
    ensures CountedAll(p, t, Expanded(p, off, wanted)) == CountedAll(p, next, Expanded(p, off + 2, wanted - used))
  {
    ExpandedStep(p, off, wanted, used);
    CountedSplit(p, t, Symbols(U16(p, off))[..used], Expanded(p, off + 2, wanted - used));
  }

  lemma {:induction false} EndStep(p: seq<Byte>, off: nat, wanted: nat, used: nat)
    requires wanted > 0 && off + 2 <= |p|
    requires used == (if |Symbols(U16(p, off))| < wanted then |Symbols(U16(p, off))| else wanted)
    ensures ChunksEnd(p, off, wanted) == ChunksEnd(p, off + 2, wanted - used)
  {
  }

  /** The second walk; `off` is where it stops, right after the same chunks. */
  method CountPackets(p: seq<Byte>, count: nat, t0: Tally) returns (t: Tally, off: nat)
    requires |p| >= 8
    ensures t == CountedAll(p, t0, Expanded(p, 8, count))
    ensures off == ChunksEnd(p, 8, count)
  {
    t := t0;
    off := 8;
    var remaining := count;
    ghost var goal := CountedAll(p, t0, Expanded(p, 8, count));
    while remaining > 0 && off + 2 <= |p|
      invariant off <= |p| && CountedAll(p, t, Expanded(p, off, remaining)) == goal
      invariant ChunksEnd(p, off, remaining) == ChunksEnd(p, 8, count)
    {
      var next, used := CountChunk(p, U16(p, off), remaining, t);
      CountStep(p, off, remaining, used, t, next);
      EndStep(p, off, remaining, used);
      t := next;
      remaining := remaining - used;
      off := off + 2;
    }
  }

  /** The reader as it runs. */
  method DumpFeedback(p: seq<Byte>) returns (t: Tally)
    ensures t == Report(p)
  {
    if |p| < 8 {
      return Tally(0, 0, 0, 0, 0, []);
    }
    var deltas := FindDeltas(p, U16(p, 2));
    var start := Tally(0, 0, U16(p, 0), 256 * (65536 * (p[4] as int) + 256 * (p[5] as int) + p[6]), deltas, []);
    var end;
    t, end := CountPackets(p, U16(p, 2), start);
    assert end == deltas;
  }
}
