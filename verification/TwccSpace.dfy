/** The space reserved for a feedback packet, against the space its chunks and deltas take. */
module TwccSpace {
  import opened Basics
  import opened Twcc
  import opened TwccFeedback

  function UpToWord(n: nat): (r: nat)
    ensures n <= r < n + 4 && r % 4 == 0
  {
    (n + 3) / 4 * 4
  }

  /** The octets reserved: a header, two octets for every seven packets, the deltas, padding,
      and `slack` for the protection that is added later. */
  function Reserved(ps: seq<Packet>, slack: nat): (n: nat) {
    UpToWord(20 + (|ps| + 6) / 7 * 2 + |Deltas(ps)|) + slack
  }

  /** The octets of the packet: twelve before the payload, and the payload. */
  function Taken(base: nat, refTime: nat, fbCount: nat, ps: seq<Packet>): (n: nat) {
    12 + |Payload(base, refTime, fbCount, ps)|
  }

  method Reserve(ps: seq<Packet>, slack: nat) returns (n: nat)
    ensures n == Reserved(ps, slack)
  {
    n := 20 + (|ps| + 6) / 7 * 2;
    ghost var fixed := n;
    for i := 0 to |ps|
      invariant n == fixed + |Deltas(ps[..i])|
    {
      assert ps[..i + 1][..i] == ps[..i];
      if ps[i].status == SMALL_DELTA {
        n := n + 1;
      } else if ps[i].status == LARGE_DELTA {
        n := n + 2;
      }
    }
    assert ps[..|ps|] == ps;
    n := (n + 3) / 4 * 4 + slack;
  }

  /** How often the status changes from one packet to the next. */
  function Changes(s: seq<nat>): (n: nat) {
    if |s| <= 1 then 0 else (if s[0] != s[1] then 1 else 0) + Changes(s[1..])
  }

  lemma {:induction false} ChangesAfterRun(s: seq<nat>, k: nat)
    requires k < |s| && forall i :: 0 <= i <= k ==> s[i] == s[0]
    ensures Changes(s) == Changes(s[k..])
  {
    if k == 0 {
      assert s[0..] == s;
    } else {
      assert s[1] == s[0];
      ChangesAfterRun(s[1..], k - 1);
      assert s[1..][k - 1..] == s[k..];
    }
  }

  lemma {:induction false} RunStops(s: seq<nat>, n: nat)
    requires 0 < n <= |s| <= MAX_STATUS_COUNT
    ensures Run(s, n) < |s| ==> s[Run(s, n)] != s[0]
    decreases |s| - n
  {
    if n < |s| && s[n] == s[0] {
      RunStops(s, n + 1);
    }
  }

  lemma {:induction false} RunThenChange(s: seq<nat>, n: nat)
    requires 0 < |s| <= MAX_STATUS_COUNT && n == Run(s, 1)
    ensures if n < |s| then Changes(s) == 1 + Changes(s[n..]) else Changes(s) == 0
  {
    RunIsEqual(s, 1);
    RunStops(s, 1);
    ChangesAfterRun(s, n - 1);
    if n < |s| {
      assert s[n - 1..][1..] == s[n..];
    }
  }

  lemma {:induction false} OneChunk(s: seq<nat>, n: nat)
    requires s != [] && n == Run(s, 1)
    ensures |Chunks(s)| == 2 + |Chunks(s[n..])|
  {
  }

  /** Each run of equal statuses is one chunk. */
  lemma {:induction false} ChunksAreRuns(s: seq<nat>)
    requires 0 < |s| <= MAX_STATUS_COUNT
    ensures |Chunks(s)| == 2 * (1 + Changes(s))
    decreases |s|
  {
    var n := Run(s, 1);
    RunThenChange(s, n);
    OneChunk(s, n);
    if n < |s| {
      ChunksAreRuns(s[n..]);
    } else {
      assert s[n..] == [];
    }
  }

  lemma WordsCompare(runs: nat, sevens: nat, deltas: nat, slack: nat)
    ensures UpToWord(20 + 2 * runs + deltas) <= UpToWord(20 + 2 * sevens + deltas) + slack <==>
            runs <= sevens + slack / 4 * 2 + if (2 * sevens + deltas + 3) % 4 < 2 then 1 else 0
  {
    var x, y := 2 * runs + deltas + 3, 2 * sevens + deltas + 3;
    assert UpToWord(20 + 2 * runs + deltas) == 20 + x / 4 * 4;
    assert UpToWord(20 + 2 * sevens + deltas) == 20 + y / 4 * 4;
  }

  lemma PadsToWord(n: nat)
    ensures 12 + n + |Padding(n)| == UpToWord(12 + n)
  {
  }

  lemma {:induction false} TakenIs(base: nat, refTime: nat, fbCount: nat, ps: seq<Packet>)
    ensures Taken(base, refTime, fbCount, ps) == UpToWord(20 + |Chunks(Statuses(ps))| + |Deltas(ps)|)
  {
    var body := Head(base, |ps|, refTime, fbCount) + Chunks(Statuses(ps)) + Deltas(ps);
    assert Payload(base, refTime, fbCount, ps) == body + Padding(|body|);
    PadsToWord(|body|);
  }

  /** The most runs of equal statuses that the space reserved has room for: one for every seven
      packets, and what the padding and the slack make up for. */
  function RoomForRuns(ps: seq<Packet>, slack: nat): (n: nat) {
    var sevens := (|ps| + 6) / 7;
    sevens + slack / 4 * 2 + if (2 * sevens + |Deltas(ps)| + 3) % 4 < 2 then 1 else 0
  }

  lemma {:induction false} SpaceForRuns(ps: seq<Packet>, slack: nat, runs: nat)
    ensures UpToWord(20 + 2 * runs + |Deltas(ps)|) <= Reserved(ps, slack) <==> runs <= RoomForRuns(ps, slack)
  {
    WordsCompare(runs, (|ps| + 6) / 7, |Deltas(ps)|, slack);
  }

  /** The packet fits into the space reserved for it if and only if the status changes seldom
      enough. */
  lemma {:induction false} SpaceSuffices(base: nat, refTime: nat, fbCount: nat, ps: seq<Packet>, slack: nat)
    requires 0 < |ps| <= MAX_STATUS_COUNT
    ensures Taken(base, refTime, fbCount, ps) <= Reserved(ps, slack) <==>
            Changes(Statuses(ps)) < RoomForRuns(ps, slack)
  {
    ChunksAreRuns(Statuses(ps));
    TakenIs(base, refTime, fbCount, ps);
    SpaceForRuns(ps, slack, 1 + Changes(Statuses(ps)));
  }

  lemma {:induction false} ChangesAlternating(s: seq<nat>)
    requires s != [] && forall i, j :: 0 <= i < j < |s| && j == i + 1 ==> s[i] != s[j]
    ensures Changes(s) == |s| - 1
  {
    if |s| > 1 {
      ChangesAlternating(s[1..]);
    }
  }

  lemma {:induction false} ShortWhenAlternating(base: nat, refTime: nat, fbCount: nat, ps: seq<Packet>, slack: nat)
    requires 0 < |ps| <= MAX_STATUS_COUNT && 12 * |ps| > 26 + 7 * slack
    requires forall i, j :: 0 <= i < j < |ps| && j == i + 1 ==> ps[i].status != ps[j].status
    ensures Taken(base, refTime, fbCount, ps) > Reserved(ps, slack)
  {
    ChangesAlternating(Statuses(ps));
    SpaceSuffices(base, refTime, fbCount, ps, slack);
  }

  /** Every other packet is lost, and those that arrive do so at the same time. */
  predicate EveryOther(arrivals: seq<Option<nat>>, t: nat) {
    forall i :: 0 <= i < |arrivals| ==> arrivals[i] == if i % 2 == 0 then Some(t) else None
  }

  lemma {:induction false} EveryOtherStatus(arrivals: seq<Option<nat>>, t: nat, i: nat)
    requires EveryOther(arrivals, t) && i < |arrivals|
    ensures Packets(arrivals, t)[i] == if i % 2 == 0 then Packet(SMALL_DELTA, 0) else Packet(NOT_RECEIVED, 0)
  {
    if i == 1 {
      assert arrivals[1..][0] == None;
    } else if i >= 2 {
      var rest := arrivals[1..][1..];
      assert rest == arrivals[2..];
      assert arrivals[1..][0] == None;
      EveryOtherStatus(arrivals[2..], t, i - 2);
    }
  }

  /** With every other packet lost, the reservation is too small from some number of packets on. */
  lemma {:induction false} SpaceFallsShort(base: nat, refTime: nat, fbCount: nat, arrivals: seq<Option<nat>>, t: nat,
                                           slack: nat)
    requires EveryOther(arrivals, t) && |arrivals| <= MAX_STATUS_COUNT && 12 * |arrivals| > 26 + 7 * slack
    ensures var ps := Packets(arrivals, t); Taken(base, refTime, fbCount, ps) > Reserved(ps, slack)
  {
    var ps := Packets(arrivals, t);
    forall i, j | 0 <= i < j < |ps| && j == i + 1
      ensures ps[i].status != ps[j].status
    {
      EveryOtherStatus(arrivals, t, i);
      EveryOtherStatus(arrivals, t, j);
    }
    ShortWhenAlternating(base, refTime, fbCount, ps, slack);
  }
}
