/** The walks over units that carry their own length: the chunks of an SCTP packet (section 3.2
    of RFC 9260) and the packets of a compound RTCP packet (sections 6.1 and 6.4.1 of RFC 3550). */
module Walkers {
  import opened Basics
  import opened Bytes
  import opened Twcc
  import opened TwccFeedback

  datatype Kind = Sctp | Rtcp

  /** A unit that was visited: where it starts, and its length without padding. */
  datatype Unit = Unit(offset: nat, len: nat)

  /** The length of a unit, from the 16-bit field at its third octet: in octets for a chunk,
      in 32-bit words less one for an RTCP packet. */
  function LengthFrom(k: Kind, field: nat): (n: nat) {
    match k
    case Sctp => field
    case Rtcp => (field + 1) * 4
  }

  /** The distance to the next unit: chunks are padded to 32 bits. */
  function Stride(k: Kind, len: nat): (n: nat)
    ensures len <= n
  {
    match k
    case Sctp => (len + 3) / 4 * 4
    case Rtcp => len
  }

  /** The length of the unit at `off`, or 0 where there is none that fits. */
  function LengthAt(k: Kind, d: seq<Byte>, off: nat): (len: nat)
    ensures len != 0 ==> 4 <= len && off + len <= |d|
  {
    if off + 4 > |d| then 0 else
    var len := LengthFrom(k, U16(d, off + 2));
    if 4 <= len && off + len <= |d| then len else 0
  }

  function Walk(k: Kind, d: seq<Byte>, off: nat): (r: seq<Unit>)
    decreases |d| - off
  {
    var len := LengthAt(k, d, off);
    if len == 0 then [] else [Unit(off, len)] + Walk(k, d, off + Stride(k, len))
  }

  lemma {:induction false} WalkNext(k: Kind, d: seq<Byte>, off: nat, len: nat, next: nat)
    requires len == LengthAt(k, d, off) != 0 && next == off + Stride(k, len)
    ensures Walk(k, d, off) == [Unit(off, len)] + Walk(k, d, next)
  {
  }

  /** The units visited so far, and those ahead, make up the walk. */
  ghost predicate Walked(k: Kind, d: seq<Byte>, start: nat, off: nat, units: seq<Unit>) {
    units + Walk(k, d, off) == Walk(k, d, start)
  }

  lemma WalkedOn(k: Kind, d: seq<Byte>, start: nat, off: nat, units: seq<Unit>, len: nat)
    requires Walked(k, d, start, off, units) && len == LengthAt(k, d, off) != 0
    ensures Walked(k, d, start, off + Stride(k, len), units + [Unit(off, len)])
  {
    Regroup(units, [Unit(off, len)], Walk(k, d, off + Stride(k, len)));
  }

  lemma {:induction false} WalkedOut(k: Kind, d: seq<Byte>, start: nat, off: nat, units: seq<Unit>)
    requires Walked(k, d, start, off, units) && LengthAt(k, d, off) == 0
    ensures units == Walk(k, d, start)
  {
  }

  /** The walk over the chunks of an SCTP packet, after its common header. */
  method WalkSctpChunks(d: seq<Byte>) returns (units: seq<Unit>)
    ensures units == Walk(Sctp, d, 12)
  {
    units := [];
    var off := 12;
    while off + 4 <= |d|
      invariant Walked(Sctp, d, 12, off, units)
      decreases |d| - off
    {
      var len := U16(d, off + 2);
      if len < 4 || off + len > |d| {
        break;
      }
      WalkedOn(Sctp, d, 12, off, units, len);
      units := units + [Unit(off, len)];
      off := off + (len + 3) / 4 * 4;
    }
    WalkedOut(Sctp, d, 12, off, units);
  }

  /** The walk over a compound RTCP packet. */
  method WalkRtcpPackets(d: seq<Byte>) returns (units: seq<Unit>)
    ensures units == Walk(Rtcp, d, 0)
  {
    units := [];
    var off := 0;
    while off + 4 <= |d|
      invariant off <= |d| && Walked(Rtcp, d, 0, off, units)
      decreases |d| - off
    {
      var len := (U16(d, off + 2) + 1) * 4;
      if len > |d| - off {
        break;
      }
      WalkedOn(Rtcp, d, 0, off, units, len);
      units := units + [Unit(off, len)];
      off := off + len;
    }
    WalkedOut(Rtcp, d, 0, off, units);
  }

  predicate Inside(d: seq<Byte>, u: Unit) {
    4 <= u.len && u.offset + u.len <= |d|
  }

  /** Units lie inside the buffer, one after the other: each starts where the one before it,
      with its padding, ends, so that offsets grow by at least four. */
  predicate Consecutive(k: Kind, d: seq<Byte>, off: nat, units: seq<Unit>)
    decreases |units|
  {
    units != [] ==>
      && units[0].offset == off && Inside(d, units[0])
      && Consecutive(k, d, off + Stride(k, units[0].len), units[1..])
  }

  /** On arbitrary octets every unit visited lies inside the buffer, and each starts where the
      one before it ends. */
  lemma {:induction false} WalkStaysInside(k: Kind, d: seq<Byte>, off: nat)
    ensures Consecutive(k, d, off, Walk(k, d, off))
    decreases |d| - off
  {
    var len := LengthAt(k, d, off);
    if len != 0 {
      WalkStaysInside(k, d, off + Stride(k, len));
      assert Walk(k, d, off)[1..] == Walk(k, d, off + Stride(k, len));
    }
  }

  // ------------------------------------------------------- well-formed inputs

  /** One unit as it is sent, with its padding. */
  predicate IsSent(k: Kind, e: seq<Byte>) {
    && |e| >= 4
    && var len := LengthFrom(k, U16(e, 2));
       4 <= len && |e| == Stride(k, len)
  }

  function LengthOf(k: Kind, e: seq<Byte>): (len: nat)
    requires IsSent(k, e)
    ensures 4 <= len <= |e|
  {
    LengthFrom(k, U16(e, 2))
  }

  /** The octets of a unit that was visited. */
  function Octets(d: seq<Byte>, u: Unit): (r: seq<Byte>)
    requires Inside(d, u)
  {
    d[u.offset..u.offset + u.len]
  }

  lemma UnitAt(k: Kind, d: seq<Byte>, off: nat, e: seq<Byte>, rest: seq<Byte>)
    requires IsSent(k, e) && off <= |d| && d[off..] == e + rest
    ensures LengthAt(k, d, off) == LengthOf(k, e) && off + |e| <= |d| && d[off + |e|..] == rest
    ensures d[off..off + LengthOf(k, e)] == e[..LengthOf(k, e)]
  {
    var t, len := d[off..], LengthOf(k, e);
    assert d[off + 2] == t[2] == e[2] && d[off + 3] == t[3] == e[3];
    assert d[off..off + len] == t[..len] == (e + rest)[..len] == e[..len];
    assert d[off + |e|..] == t[|e|..] == (e + rest)[|e|..];
  }

  /** Each unit visited is, octet for octet, the unit sent in its place. */
  ghost predicate SameUnits(k: Kind, d: seq<Byte>, units: seq<Unit>, es: seq<seq<Byte>>)
    requires forall i :: 0 <= i < |es| ==> IsSent(k, es[i])
  {
    && |units| == |es|
    && forall i :: 0 <= i < |es| ==> Inside(d, units[i]) && Octets(d, units[i]) == es[i][..LengthOf(k, es[i])]
  }

  lemma SameUnitsNext(k: Kind, d: seq<Byte>, u: Unit, rest: seq<Unit>, es: seq<seq<Byte>>)
    requires es != [] && forall i :: 0 <= i < |es| ==> IsSent(k, es[i])
    requires Inside(d, u) && Octets(d, u) == es[0][..LengthOf(k, es[0])] && SameUnits(k, d, rest, es[1..])
    ensures SameUnits(k, d, [u] + rest, es)
  {
    forall i | 0 < i < |es|
      ensures ([u] + rest)[i] == rest[i - 1] && es[i] == es[1..][i - 1]
    {
    }
  }

  /** Walking units sent one after the other visits exactly those, in order. */
  lemma {:induction false} WalkVisitsAll(k: Kind, d: seq<Byte>, off: nat, es: seq<seq<Byte>>)
    requires forall i :: 0 <= i < |es| ==> IsSent(k, es[i])
    requires off <= |d| && d[off..] == Concat(es)
    ensures SameUnits(k, d, Walk(k, d, off), es)
    decreases |es|
  {
    if es != [] {
      var len, next := LengthOf(k, es[0]), off + |es[0]|;
      UnitAt(k, d, off, es[0], Concat(es[1..]));
      WalkNext(k, d, off, len, next);
      WalkVisitsAll(k, d, next, es[1..]);
      SameUnitsNext(k, d, Unit(off, len), Walk(k, d, next), es);
    }
  }

  // ------------------------------------------------------- feedback in a compound

  /** A feedback packet: the RTCP header, the two sources, and the payload. */
  function FeedbackPacket(sources: seq<Byte>, payload: seq<Byte>): (r: seq<Byte>)
    requires |sources| == 8
  {
    [143, 205] + Put16((12 + |payload|) / 4 - 1) + sources + payload
  }

  /** The test by which the reader recognises feedback, and where its payload starts. */
  predicate IsFeedback(octets: seq<Byte>) {
    |octets| > 16 && octets[1] == 205 && octets[0] % 32 == 15
  }

  lemma FeedbackIsSent(sources: seq<Byte>, payload: seq<Byte>)
    requires |sources| == 8 && |payload| % 4 == 0 && 4 < |payload| < 0x4_0000 - 12
    ensures var e := FeedbackPacket(sources, payload);
            && IsSent(Rtcp, e) && LengthFrom(Rtcp, U16(e, 2)) == |e|
            && IsFeedback(e) && e[12..] == payload
  {
    var e := FeedbackPacket(sources, payload);
    assert e[2..4] == Put16((12 + |payload|) / 4 - 1);
    Put16Reads(e, 2, (12 + |payload|) / 4 - 1);
  }

  lemma {:induction false} ChunksShort(s: seq<nat>)
    ensures |Chunks(s)| <= 2 * |s|
    decreases |s|
  {
    if s != [] {
      ChunksShort(s[Run(s, 1)..]);
    }
  }

  lemma {:induction false} DeltasShort(ps: seq<Packet>)
    ensures |Deltas(ps)| <= 2 * |ps|
  {
    if ps != [] {
      DeltasShort(ps[..|ps| - 1]);
    }
  }

  lemma PayloadFits(base: nat, refTime: nat, fbCount: nat, ps: seq<Packet>)
    requires |ps| <= MAX_STATUS_COUNT
    ensures var p := Payload(base, refTime, fbCount, ps); |p| % 4 == 0 && 4 < |p| < 0x4_0000 - 12
  {
    ChunksShort(Statuses(ps));
    DeltasShort(ps);
  }

  /** Feedback that is sent inside any compound packet is found there by the walk, recognised,
      and reported exactly as it was sent. */
  lemma {:induction false} FeedbackInCompound(es: seq<seq<Byte>>, i: nat, sources: seq<Byte>, base: nat,
                                              refTime: nat, fbCount: nat, ps: seq<Packet>)
    requires i < |es| && forall j :: 0 <= j < |es| ==> IsSent(Rtcp, es[j])
    requires |sources| == 8 && base < 65536 && refTime < 0x100_0000 && |ps| <= MAX_STATUS_COUNT
    requires forall j :: 0 <= j < |ps| ==> WellFormed(ps[j])
    requires es[i] == FeedbackPacket(sources, Payload(base, refTime, fbCount, ps))
    ensures var units := Walk(Rtcp, Concat(es), 0);
            && |units| == |es| && Inside(Concat(es), units[i]) && IsFeedback(Octets(Concat(es), units[i]))
            && Report(Octets(Concat(es), units[i])[12..]) == Expected(Begins(base, refTime, ps), ps)
  {
    var payload := Payload(base, refTime, fbCount, ps);
    PayloadFits(base, refTime, fbCount, ps);
    FeedbackIsSent(sources, payload);
    assert Concat(es)[0..] == Concat(es);
    WalkVisitsAll(Rtcp, Concat(es), 0, es);
    assert es[i][..|es[i]|] == es[i];
    FeedbackRoundTrip(base, refTime, fbCount, ps);
  }

  // --------------------------------------------------------- units as they are built

  /** An SCTP chunk: its length field counts the header of four octets and the value, and not the
      padding to 32 bits that follows (section 3.2 of RFC 9260). */
  datatype SctpChunk = SctpChunk(kind: Byte, flags: Byte, value: seq<Byte>)

  function Bare(c: SctpChunk): (r: seq<Byte>) {
    [c.kind, c.flags] + Put16(4 + |c.value|) + c.value
  }

  function Padded(c: SctpChunk): (r: seq<Byte>) {
    Bare(c) + Padding(|c.value|)
  }

  function PaddedAll(cs: seq<SctpChunk>): (r: seq<seq<Byte>>)
    ensures |r| == |cs| && forall i :: 0 <= i < |cs| ==> r[i] == Padded(cs[i])
  {
    seq(|cs|, i requires 0 <= i < |cs| => Padded(cs[i]))
  }

  lemma PaddedIsSent(c: SctpChunk)
    requires 4 + |c.value| < 65536
    ensures IsSent(Sctp, Padded(c)) && LengthOf(Sctp, Padded(c)) == |Bare(c)| && Padded(c)[..|Bare(c)|] == Bare(c)
  {
    var e := Padded(c);
    assert e[2..4] == Put16(4 + |c.value|);
    Put16Reads(e, 2, 4 + |c.value|);
    PadsToStride(|c.value|);
  }

  lemma PadsToStride(n: nat)
    ensures Stride(Sctp, 4 + n) == 4 + n + |Padding(n)|
  {
  }

  /** Walking an SCTP packet visits its chunks, octet for octet without their padding, in order. */
  lemma {:induction false} SctpVisited(header: seq<Byte>, cs: seq<SctpChunk>)
    requires |header| == 12 && forall i :: 0 <= i < |cs| ==> 4 + |cs[i].value| < 65536
    ensures var d := header + Concat(PaddedAll(cs));
            var units := Walk(Sctp, d, 12);
            |units| == |cs| && forall i :: 0 <= i < |cs| ==> Inside(d, units[i]) && Octets(d, units[i]) == Bare(cs[i])
  {
    var es := PaddedAll(cs);
    var d := header + Concat(es);
    forall i | 0 <= i < |cs|
      ensures IsSent(Sctp, es[i]) && es[i][..LengthOf(Sctp, es[i])] == Bare(cs[i])
    {
      PaddedIsSent(cs[i]);
    }
    assert d[12..] == Concat(es);
    WalkVisitsAll(Sctp, d, 12, es);
  }

  /** A packet of a compound: its length field counts 32-bit words less one (section 6.4.1 of
      RFC 3550). */
  datatype RtcpPacket = RtcpPacket(first: Byte, kind: Byte, words: seq<(Byte, Byte, Byte, Byte)>)

  function Spread(words: seq<(Byte, Byte, Byte, Byte)>): (r: seq<Byte>)
    ensures |r| == 4 * |words|
  {
    if words == [] then [] else [words[0].0, words[0].1, words[0].2, words[0].3] + Spread(words[1..])
  }

  function Built(p: RtcpPacket): (r: seq<Byte>) {
    [p.first, p.kind] + Put16(|p.words|) + Spread(p.words)
  }

  function BuiltAll(ps: seq<RtcpPacket>): (r: seq<seq<Byte>>)
    ensures |r| == |ps| && forall i :: 0 <= i < |ps| ==> r[i] == Built(ps[i])
  {
    seq(|ps|, i requires 0 <= i < |ps| => Built(ps[i]))
  }

  lemma BuiltIsSent(p: RtcpPacket)
    requires |p.words| < 65536
    ensures IsSent(Rtcp, Built(p)) && LengthOf(Rtcp, Built(p)) == |Built(p)|
  {
    var e := Built(p);
    assert e[2..4] == Put16(|p.words|);
    Put16Reads(e, 2, |p.words|);
  }

  /** Transport feedback of format 15 with more than three words after the header, and no other packet,
      is taken for congestion control feedback. */
  predicate CarriesFeedback(p: RtcpPacket) {
    p.kind == 205 && p.first % 32 == 15 && |p.words| > 3
  }

  lemma BuiltIsRecognised(p: RtcpPacket)
    ensures IsFeedback(Built(p)) <==> CarriesFeedback(p)
  {
    assert |Built(p)| == 4 + 4 * |p.words| && Built(p)[0] == p.first && Built(p)[1] == p.kind;
  }

  /** Walking a compound visits its packets, octet for octet, in order, and recognises the feedback
      among them. */
  lemma {:induction false} RtcpVisited(ps: seq<RtcpPacket>)
    requires forall i :: 0 <= i < |ps| ==> |ps[i].words| < 65536
    ensures var d := Concat(BuiltAll(ps));
            var units := Walk(Rtcp, d, 0);
            && |units| == |ps|
            && forall i :: 0 <= i < |ps| ==>
                 && Inside(d, units[i]) && Octets(d, units[i]) == Built(ps[i])
                 && (IsFeedback(Octets(d, units[i])) <==> CarriesFeedback(ps[i]))
  {
    var es := BuiltAll(ps);
    var d := Concat(es);
    forall i | 0 <= i < |ps|
      ensures IsSent(Rtcp, es[i]) && es[i][..LengthOf(Rtcp, es[i])] == Built(ps[i])
      ensures IsFeedback(Built(ps[i])) <==> CarriesFeedback(ps[i])
    {
      BuiltIsSent(ps[i]);
      BuiltIsRecognised(ps[i]);
    }
    assert d[0..] == d;
    WalkVisitsAll(Rtcp, d, 0, es);
  }
}
