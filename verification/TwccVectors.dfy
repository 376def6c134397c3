/** Feedback from other senders: statuses in any mix of run-length and status vector chunks
    (sections 3.1.3 and 3.1.4 of draft-holmer-rmcat-transport-wide-cc-extensions-01), packed from
    the statuses themselves, most significant first. */
module TwccVectors {
  import opened Basics
  import opened Bytes
  import opened Twcc
  import opened TwccFeedback

  /** The number whose digits in base b are s. */
  function Packed(s: seq<nat>, b: nat): (n: nat) {
    if s == [] then 0 else Packed(s[..|s| - 1], b) * b + s[|s| - 1]
  }

  predicate Below(s: seq<nat>, b: nat) {
    forall i :: 0 <= i < |s| ==> s[i] < b
  }

  function PowOf(b: nat, k: nat): (p: nat)
    requires b > 0
    ensures p > 0
  {
    if k == 0 then 1 else b * PowOf(b, k - 1)
  }

  lemma DivideBoth(q: nat, d: nat, b: nat, m: nat)
    requires (b == 2 || b == 4) && d < b && m > 0
    ensures (q * b + d) / (b * m) == q / m
  {
    var t, r := q / m, q % m;
    assert q == m * t + r;
    assert q * b + d == (b * m) * t + (b * r + d);
    Quotient(q * b + d, b * m, t, b * r + d);
  }

  lemma Quotient(x: nat, y: nat, t: nat, r: nat)
    requires y > 0 && r < y && x == y * t + r
    ensures x / y == t
  {
    var k: int := x / y - t;
    assert y * k == y * (x / y) - y * t == r - x % y;
    assert k >= 1 ==> y * k >= y;
    assert k <= -1 ==> y * k + y <= 0;
  }

  /** Digit i of a packed number. */
  lemma {:induction false} PackedDigit(s: seq<nat>, b: nat, i: nat)
    requires (b == 2 || b == 4) && Below(s, b) && i < |s|
    ensures Packed(s, b) / PowOf(b, |s| - 1 - i) % b == s[i]
  {
    var n := |s| - 1;
    if i < n {
      PackedDigit(s[..n], b, i);
      DivideBoth(Packed(s[..n], b), s[n], b, PowOf(b, n - 1 - i));
    }
  }

  lemma {:induction false} PackedBound(s: seq<nat>, b: nat)
    requires (b == 2 || b == 4) && Below(s, b)
    ensures Packed(s, b) < PowOf(b, |s|)
  {
    if s != [] {
      PackedBound(s[..|s| - 1], b);
    }
  }

  lemma {:induction false} PackedFront(d: nat, s: seq<nat>, b: nat)
    requires b == 2 || b == 4
    ensures Packed([d] + s, b) == d * PowOf(b, |s|) + Packed(s, b)
  {
    if s == [] {
      assert [d] + s == [d] && [d][..0] == [];
      assert Packed([d][..0], b) == 0;
    } else {
      var n := |s| - 1;
      assert ([d] + s)[..n + 1] == [d] + s[..n];
      PackedFront(d, s[..n], b);
      Distribute(d, PowOf(b, n), Packed(s[..n], b), b);
    }
  }

  lemma Distribute(d: nat, p: nat, q: nat, b: nat)
    ensures (d * p + q) * b == d * (b * p) + q * b
  {
  }

  // ------------------------------------------------------------------- chunks

  datatype Chunk = RunOf(status: nat, count: nat) | TwoBit(symbols: seq<nat>) | OneBit(symbols: seq<nat>)

  predicate Valid(c: Chunk) {
    match c
    case RunOf(status, count) => status < 4 && count <= MAX_STATUS_COUNT
    case TwoBit(s) => |s| == 7 && Below(s, 4)
    case OneBit(s) => |s| == 14 && Below(s, 2)
  }

  /** What a chunk says. */
  function Stated(c: Chunk): (s: seq<nat>) {
    match c
    case RunOf(status, count) => seq(count, _ => status)
    case TwoBit(s) => s
    case OneBit(s) => s
  }

  /** The sixteen bits of a chunk: 0 and a run, 11 and seven symbols, or 10 and fourteen. */
  function Word(c: Chunk): (w: nat) {
    match c
    case RunOf(status, count) => 0x2000 * status + count
    case TwoBit(s) => 0xC000 + Packed(s, 4)
    case OneBit(s) => 0x8000 + Packed(s, 2)
  }

  lemma Powers()
    ensures PowOf(4, 7) == 16384 && PowOf(2, 14) == 16384
  {
    assert PowOf(4, 3) == 64 && PowOf(4, 5) == 1024;
    assert PowOf(2, 4) == 16 && PowOf(2, 8) == 256 && PowOf(2, 12) == 4096;
  }

  lemma {:induction false} PowersOfFour(k: nat)
    ensures PowOf(4, k) == Pow2(2 * k) && PowOf(2, k) == Pow2(k)
  {
    if k > 0 {
      PowersOfFour(k - 1);
      assert Pow2(2 * k) == 2 * Pow2(2 * k - 1) == 4 * Pow2(2 * k - 2);
    }
  }

  lemma {:induction false} TwoBitReads(s: seq<nat>, w: nat)
    requires Valid(TwoBit(s)) && w == Word(TwoBit(s))
    ensures w < 65536 && Symbols(w) == s
  {
    Powers();
    PackedBound(s, 4);
    PackedFront(3, s, 4);
    assert !IsRunLength(w) && IsTwoBit(w);
    forall i | 0 <= i < 7
      ensures VectorSymbol(w, i) == s[i]
    {
      PackedDigit([3] + s, 4, i + 1);
      PowersOfFour(6 - i);
    }
  }

  lemma {:induction false} OneBitWord(s: seq<nat>, w: nat)
    requires Valid(OneBit(s)) && w == Word(OneBit(s))
    ensures w == Packed([1] + ([0] + s), 2) && 0x8000 <= w < 0xC000
  {
    Powers();
    PackedBound(s, 2);
    PackedFront(0, s, 2);
    PackedFront(1, [0] + s, 2);
    assert PowOf(2, 15) == 2 * PowOf(2, 14);
  }

  lemma {:induction false} OneBitDigit(s: seq<nat>, w: nat, i: nat)
    requires |s| == 14 && Below(s, 2) && w == Packed([1] + ([0] + s), 2) && i < 14
    ensures w / Pow2(13 - i) % 2 == s[i]
  {
    var all := [1] + ([0] + s);
    assert Below(all, 2) && |all| == 16 && all[i + 2] == s[i];
    PackedDigit(all, 2, i + 2);
    PowersOfFour(13 - i);
  }

  lemma {:induction false} OneBitReads(s: seq<nat>, w: nat)
    requires Valid(OneBit(s)) && w == Word(OneBit(s))
    ensures w < 65536 && Symbols(w) == s
  {
    OneBitWord(s, w);
    assert !IsRunLength(w) && !IsTwoBit(w);
    forall i | 0 <= i < 14
      ensures VectorSymbol(w, i) == s[i]
    {
      OneBitDigit(s, w, i);
    }
  }

  lemma RunReads(status: nat, count: nat, w: nat)
    requires Valid(RunOf(status, count)) && w == Word(RunOf(status, count))
    ensures w < 65536 && Symbols(w) == seq(count, _ => status)
  {
    assert w < 32768 && w / 8192 == status && w % 8192 == count;
  }

  /** The reader takes each chunk for what it says. */
  lemma {:induction false} WordReads(c: Chunk)
    requires Valid(c)
    ensures Word(c) < 65536 && Symbols(Word(c)) == Stated(c)
  {
    match c {
      case RunOf(status, count) => RunReads(status, count, Word(c));
      case TwoBit(s) => TwoBitReads(s, Word(c));
      case OneBit(s) => OneBitReads(s, Word(c));
    }
  }

  // ----------------------------------------------------------------- round trip

  function StatedAll(cs: seq<Chunk>): (s: seq<nat>) {
    if cs == [] then [] else Stated(cs[0]) + StatedAll(cs[1..])
  }

  function Octets(cs: seq<Chunk>): (r: seq<Byte>) {
    if cs == [] then [] else Put16(Word(cs[0])) + Octets(cs[1..])
  }

  /** The statuses `s` are sent in these chunks: they are the first of what the chunks say, and the
      last chunk is needed for them. */
  ghost predicate Carries(cs: seq<Chunk>, s: seq<nat>) {
    && (forall i :: 0 <= i < |cs| ==> Valid(cs[i]))
    && s <= StatedAll(cs) && (cs != [] ==> |StatedAll(cs[..|cs| - 1])| < |s|)
  }

  lemma {:induction false} OneChunkReads(p: seq<Byte>, off: nat, c: Chunk, s: seq<nat>)
    requires off + 2 <= |p| && U16(p, off) == Word(c) && Valid(c) && 0 < |s| && s <= Stated(c)
    ensures ReadsAs(p, off, s, off + 2)
  {
    WordReads(c);
    assert s == Stated(c)[..|s|];
  }

  lemma {:induction false} FirstChunkReads(p: seq<Byte>, off: nat, c: Chunk, rest: seq<nat>, s: seq<nat>, end: nat)
    requires off + 2 <= |p| && U16(p, off) == Word(c) && Valid(c) && rest != []
    requires s == Stated(c) + rest && ReadsAs(p, off + 2, rest, end)
    ensures ReadsAs(p, off, s, end)
  {
    WordReads(c);
    ExpandedMore(p, off, |s|, |Stated(c)|);
  }

  lemma {:induction false} FirstSaid(cs: seq<Chunk>, s: seq<nat>)
    requires Carries(cs, s) && |cs| > 1
    ensures var m := |Stated(cs[0])|;
            m < |s| && s == Stated(cs[0]) + s[m..] && Carries(cs[1..], s[m..])
  {
    var n, m := |cs| - 1, |Stated(cs[0])|;
    assert cs[..n][0] == cs[0] && cs[..n][1..] == cs[1..][..n - 1];
    assert StatedAll(cs[..n]) == Stated(cs[0]) + StatedAll(cs[1..][..n - 1]);
    assert StatedAll(cs)[m..] == StatedAll(cs[1..]);
    assert s[..m] == StatedAll(cs)[..m] == Stated(cs[0]);
  }

  lemma {:induction false} ChunkOctets(p: seq<Byte>, off: nat, cs: seq<Chunk>)
    requires cs != [] && Valid(cs[0]) && off <= |p| && Octets(cs) <= p[off..]
    ensures off + 2 <= |p| && U16(p, off) == Word(cs[0]) && Octets(cs[1..]) <= p[off + 2..]
  {
    ChunkAt(p, off, Put16(Word(cs[0])), Octets(cs[1..]));
    Put16Reads(p, off, Word(cs[0]));
    WordReads(cs[0]);
  }

  /** Whatever mix of chunks carries some statuses, both walks take it for them. */
  lemma {:induction false} MixReads(p: seq<Byte>, off: nat, cs: seq<Chunk>, s: seq<nat>)
    requires Carries(cs, s) && off <= |p| && Octets(cs) <= p[off..]
    ensures ReadsAs(p, off, s, off + 2 * |cs|)
    decreases |cs|
  {
    if cs != [] {
      ChunkOctets(p, off, cs);
      if |cs| == 1 {
        assert cs[..0] == [] && cs[1..] == [];
        assert StatedAll(cs) == Stated(cs[0]);
        OneChunkReads(p, off, cs[0], s);
      } else {
        var m := |Stated(cs[0])|;
        FirstSaid(cs, s);
        MixReads(p, off + 2, cs[1..], s[m..]);
        FirstChunkReads(p, off, cs[0], s[m..], s, off + 2 * |cs|);
      }
    }
  }

  lemma {:induction false} OctetsLength(cs: seq<Chunk>)
    ensures |Octets(cs)| == 2 * |cs|
  {
    if cs != [] {
      OctetsLength(cs[1..]);
    }
  }

  /** The reader reports of feedback in any mix of chunks, and with anything after its deltas,
      exactly what was put into it: every packet with its sequence number, status and delta. */
  lemma {:induction false} MixedRoundTrip(base: nat, refTime: nat, fbCount: nat, cs: seq<Chunk>, ps: seq<Packet>,
                                          more: seq<Byte>)
    requires base < 65536 && |ps| < 65536 && refTime < 0x100_0000 && Carries(cs, Statuses(ps))
    requires forall i :: 0 <= i < |ps| ==> WellFormed(ps[i])
    ensures Report(Head(base, |ps|, refTime, fbCount) + (Octets(cs) + (Deltas(ps) + more))) ==
            Expected(Tally(0, 0, base, 256 * refTime, 8 + 2 * |cs|, []), ps)
  {
    var rest := Octets(cs) + (Deltas(ps) + more);
    var p := Head(base, |ps|, refTime, fbCount) + rest;
    HeadReads(base, |ps|, refTime, fbCount, rest);
    OctetsLength(cs);
    DeltasSplit(p, 8, Octets(cs), Deltas(ps) + more);
    MixReads(p, 8, cs, Statuses(ps));
    ReportOfParts(p, base, refTime, Statuses(ps), 8 + 2 * |cs|);
    DeltasRead(p, Tally(0, 0, base, 256 * refTime, 8 + 2 * |cs|, []), ps);
  }
}
