/** The bitrate loop: bandwidth callbacks suggest a bitrate for each session, and frame
    callbacks of the audio and the video track apply the suggestions to the one encoder that
    all sessions share. Each section under a session's update lock is one atomic step; frame
    callbacks exclude each other by the lock on the session list. */
module Bitrate {
  import opened Basics

  const ADJUSTMENT_INTERVAL := 10_000_000
  const U32 := 0x1_0000_0000
  const U64 := 0x1_0000_0000_0000_0000

  datatype Track = Audio | Video

  function Min(track: Track): nat { match track case Video => 512 case Audio => 4_000 }

  function Max(track: Track): nat { match track case Video => 2_048_000 case Audio => 650_000 }

  /** What a session knows of one track: the encoder's rate when last seen, and a suggestion,
      0 for none. */
  datatype Rates = Rates(current: nat, suggested: nat)

  datatype PerTrack<T> = PerTrack(audio: T, video: T) {
    function Get(track: Track): T { match track case Audio => audio case Video => video }

    function Set(track: Track, x: T): PerTrack<T> {
      match track case Audio => this.(audio := x) case Video => this.(video := x)
    }
  }

  datatype Session = Session(rates: PerTrack<Rates>, averageLoss: real, lastAdjustment: nat)

  /** A frame callback between reading the encoder's rate and taking a session's lock. */
  datatype Reading = Idle | Held(track: Track, session: nat, bitrate: nat)

  datatype State = State(encoder: PerTrack<nat>, sessions: seq<Session>, reading: Reading)

  datatype Step =
    | Join
    | Leave(session: nat)
    | FrameReads(track: Track, session: nat)
    | FrameApplies
    | Measure(session: nat, txPackets: nat, rxPackets: nat)
    | Adjust(session: nat, now: nat)

  const SILENT := Session(PerTrack(Rates(0, 0), Rates(0, 0)), 0.0, 0)

  /** The loss in percent, in 32-bit arithmetic that wraps around. */
  function PercentLost(tx: nat, rx: nat): (p: nat) {
    if tx > 0 then (tx - rx) % U32 * 100 % U32 / tx else 0
  }

  /** The next suggestion: up by five percent while the loss is small, else down by it. */
  function Suggestion(track: Track, current: nat, loss: real): (r: int) {
    if loss <= 5.0 then
      var up := current as real * 1.05;
      (if up < Max(track) as real then up else Max(track) as real).Floor
    else
      var down := current as real * (1.0 - loss / 100.0);
      (if down > Min(track) as real then down else Min(track) as real).Floor
  }

  function Adjusted(x: Session, track: Track): (r: Rates) {
    var next := Suggestion(track, x.rates.Get(track).current, x.averageLoss);
    x.rates.Get(track).(suggested := if next >= 0 then next else 0)
  }

  function Apply(s: State, step: Step): (r: State) {
    match step
    case Join => s.(sessions := s.sessions + [SILENT])
    case Leave(i) =>
      if s.reading.Idle? && i < |s.sessions| then
        var n := |s.sessions| - 1;
        s.(sessions := s.sessions[i := s.sessions[n]][..n])
      else s
    case FrameReads(track, i) =>
      if s.reading.Idle? && i < |s.sessions| then s.(reading := Held(track, i, s.encoder.Get(track))) else s
    case FrameApplies =>
      (match s.reading
       case Idle => s
       case Held(track, i, bitrate) =>
         if i >= |s.sessions| then s.(reading := Idle) else
         var x := s.sessions[i];
         var next := x.rates.Get(track).suggested;
         s.(reading := Idle,
            sessions := s.sessions[i := x.(rates := x.rates.Set(track, Rates(bitrate, 0)))],
            encoder := if next != 0 then s.encoder.Set(track, next) else s.encoder))
    case Measure(i, tx, rx) =>
      if i < |s.sessions| then
        var x := s.sessions[i];
        var loss := 0.05 * PercentLost(tx, rx) as real + 0.95 * x.averageLoss;
        s.(sessions := s.sessions[i := x.(averageLoss := loss)])
      else s
    case Adjust(i, now) =>
      if i < |s.sessions| && (now - s.sessions[i].lastAdjustment) % U64 >= ADJUSTMENT_INTERVAL then
        var x := s.sessions[i];
        s.(sessions := s.sessions[i := x.(lastAdjustment := now,
             rates := PerTrack(Adjusted(x, Audio), Adjusted(x, Video)))])
      else s
  }

  function Run(s: State, steps: seq<Step>): (r: State) {
    if steps == [] then s else Apply(Run(s, steps[..|steps| - 1]), steps[|steps| - 1])
  }

  // ------------------------------------------------------------------- bounds

  predicate Within(track: Track, rate: int) {
    Min(track) <= rate <= Max(track)
  }

  predicate RatesOk(track: Track, r: Rates) {
    (r.current == 0 || Within(track, r.current)) && (r.suggested == 0 || Within(track, r.suggested))
  }

  predicate SessionOk(x: Session) {
    RatesOk(Audio, x.rates.audio) && RatesOk(Video, x.rates.video)
  }

  /** The encoder is within its limits, and so is every rate seen or suggested. */
  ghost predicate InBounds(s: State) {
    && Within(Audio, s.encoder.audio) && Within(Video, s.encoder.video)
    && (s.reading.Held? ==> Within(s.reading.track, s.reading.bitrate))
    && forall i :: 0 <= i < |s.sessions| ==> SessionOk(s.sessions[i])
  }

  lemma FloorBetween(x: real, lo: int, hi: int)
    requires lo as real <= x <= hi as real
    ensures lo <= x.Floor <= hi
  {
  }

  /** A suggestion made from a rate within the limits is within them, whatever the loss. */
  lemma SuggestionBounded(track: Track, current: nat, loss: real)
    requires current == 0 || Within(track, current)
    ensures var r := Suggestion(track, current, loss);
            (r == 0 || Within(track, r)) && (current != 0 ==> Within(track, r))
  {
    var c := current as real;
    if loss <= 5.0 {
      var up := c * 1.05;
      FloorBetween(if up < Max(track) as real then up else Max(track) as real, current, Max(track));
      if current == 0 {
        assert up == 0.0;
      }
    } else {
      var down := c * (1.0 - loss / 100.0);
      ScaledDown(c, 1.0 - loss / 100.0);
      FloorBetween(if down > Min(track) as real then down else Min(track) as real, Min(track), Max(track));
    }
  }

  lemma ScaledDown(c: real, f: real)
    requires c >= 0.0 && f <= 1.0
    ensures c * f <= c
  {
  }

  lemma StepInBounds(s: State, step: Step)
    requires InBounds(s)
    ensures InBounds(Apply(s, step))
  {
    match step {
      case Adjust(i, now) =>
        if i < |s.sessions| {
          var x := s.sessions[i];
          assert SessionOk(x);
          SuggestionBounded(Audio, x.rates.audio.current, x.averageLoss);
          SuggestionBounded(Video, x.rates.video.current, x.averageLoss);
        }
      case FrameApplies =>
        if s.reading.Held? && s.reading.session < |s.sessions| {
          assert SessionOk(s.sessions[s.reading.session]);
        }
      case _ =>
    }
  }

  /** In every interleaving of frame and bandwidth callbacks, over any number of sessions, an
      encoder that starts within its limits stays within them, and every pending suggestion is
      none or within them. */
  lemma {:induction false} EveryRun(s: State, steps: seq<Step>)
    requires InBounds(s)
    ensures InBounds(Run(s, steps))
  {
    if steps != [] {
      EveryRun(s, steps[..|steps| - 1]);
      StepInBounds(Run(s, steps[..|steps| - 1]), steps[|steps| - 1]);
    }
  }

  // -------------------------------------------------------------------- climb

  /** A round: a bandwidth callback suggests, and two frames follow. The first frame sees the old
      rate and applies the suggestion; only the second one sees the new rate. */
  function Round(track: Track, i: nat, now: nat): (r: seq<Step>) {
    [Adjust(i, now), FrameReads(track, i), FrameApplies, FrameReads(track, i), FrameApplies]
  }

  function Rounds(track: Track, i: nat, times: seq<nat>): (r: seq<Step>) {
    if times == [] then [] else Rounds(track, i, times[..|times| - 1]) + Round(track, i, times[|times| - 1])
  }

  /** Each time is late enough after the one before it for an adjustment. */
  predicate Paced(last: nat, times: seq<nat>) {
    times != [] ==>
      var n := |times| - 1;
      && Paced(last, times[..n])
      && (times[n] - LastTime(last, times[..n])) % U64 >= ADJUSTMENT_INTERVAL
  }

  function LastTime(last: nat, times: seq<nat>): (t: nat) {
    if times == [] then last else times[|times| - 1]
  }

  /** No frame is under way, and session i has seen the encoder's present rate. */
  ghost predicate Seen(s: State, track: Track, i: nat, rate: nat, loss: real, last: nat) {
    && s.reading.Idle? && i < |s.sessions| && s.encoder.Get(track) == rate
    && s.sessions[i].rates.Get(track).current == rate
    && s.sessions[i].averageLoss == loss && s.sessions[i].lastAdjustment == last
  }

  lemma {:induction false} RunSplit(s: State, a: seq<Step>, b: seq<Step>)
    ensures Run(s, a + b) == Run(Run(s, a), b)
  {
    if b == [] {
      assert a + b == a;
    } else {
      var n := |b| - 1;
      assert (a + b)[..|a| + n] == a + b[..n];
      RunSplit(s, a, b[..n]);
    }
  }

  lemma {:induction false} FiveSteps(s: State, a: Step, b: Step, c: Step, d: Step, e: Step)
    ensures Run(s, [a, b, c, d, e]) == Apply(Apply(Apply(Apply(Apply(s, a), b), c), d), e)
  {
    assert [a, b, c, d, e][..4] == [a, b, c, d] && [a, b, c, d][..3] == [a, b, c];
    assert [a, b, c][..2] == [a, b] && [a, b][..1] == [a] && [a][..0] == [];
    assert Run(s, []) == s && Run(s, [a]) == Apply(s, a);
    assert Run(s, [a, b]) == Apply(Run(s, [a]), b);
    assert Run(s, [a, b, c]) == Apply(Run(s, [a, b]), c);
    assert Run(s, [a, b, c, d]) == Apply(Run(s, [a, b, c]), d);
  }

  /** One frame: session i has seen `rate`, and the encoder runs at what was suggested, if
      anything was. */
  lemma FrameTakes(s: State, track: Track, i: nat)
    requires s.reading.Idle? && i < |s.sessions|
    ensures var t := Apply(Apply(s, FrameReads(track, i)), FrameApplies);
            var r := s.sessions[i].rates.Get(track);
            && t.reading.Idle? && |t.sessions| == |s.sessions|
            && t.encoder.Get(track) == (if r.suggested != 0 then r.suggested else s.encoder.Get(track))
            && t.sessions[i] == s.sessions[i].(rates := t.sessions[i].rates)
            && t.sessions[i].rates.Get(track) == Rates(s.encoder.Get(track), 0)
  {
  }

  /** After a round the encoder runs at the suggestion, and the session has seen it. */
  lemma {:induction false} RoundApplies(s: State, track: Track, i: nat, rate: nat, loss: real, last: nat, now: nat)
    requires Seen(s, track, i, rate, loss, last) && Within(track, rate)
    requires (now - last) % U64 >= ADJUSTMENT_INTERVAL
    ensures var r := Suggestion(track, rate, loss);
            Within(track, r) && Seen(Run(s, Round(track, i, now)), track, i, r, loss, now)
  {
    var next := Suggestion(track, rate, loss);
    SuggestionBounded(track, rate, loss);
    var f, g := FrameReads(track, i), FrameApplies;
    FiveSteps(s, Adjust(i, now), f, g, f, g);
    var s1 := Apply(s, Adjust(i, now));
    assert s1.sessions[i].rates.Get(track) == Rates(rate, next);
    FrameTakes(s1, track, i);
    FrameTakes(Apply(Apply(s1, f), g), track, i);
  }

  /** Up to five percent the rate rises by five percent, up to the limit. */
  lemma StepUp(track: Track, rate: nat, loss: real)
    requires Within(track, rate) && loss <= 5.0
    ensures var r, more := Suggestion(track, rate, loss), rate as real * 105.0 / 100.0;
            && (r == Max(track) || r >= rate + 25)
            && (r as real <= more < r as real + 1.0 || (r == Max(track) && more >= Max(track) as real))
  {
    var up := rate as real * 1.05;
    if up < Max(track) as real {
      assert up >= (rate + 25) as real;
      FloorBetween(up, rate + 25, Max(track));
    }
  }

  /** While the loss stays small, the encoder's rate climbs to the limit and stays there, by at
      least 25 a round. */
  lemma {:induction false} ClimbsToLimit(s: State, track: Track, i: nat, rate: nat, loss: real, last: nat,
                                         times: seq<nat>)
    returns (r: nat)
    requires Seen(s, track, i, rate, loss, last) && Within(track, rate) && loss <= 5.0 && Paced(last, times)
    ensures Seen(Run(s, Rounds(track, i, times)), track, i, r, loss, LastTime(last, times))
    ensures Within(track, r) && (r == Max(track) || r >= rate + 25 * |times|)
  {
    r := rate;
    if times != [] {
      var n := |times| - 1;
      var before := ClimbsToLimit(s, track, i, rate, loss, last, times[..n]);
      RunSplit(s, Rounds(track, i, times[..n]), Round(track, i, times[n]));
      RoundApplies(Run(s, Rounds(track, i, times[..n])), track, i, before, loss, LastTime(last, times[..n]), times[n]);
      StepUp(track, before, loss);
      r := Suggestion(track, before, loss);
    }
  }

  // ---------------------------------------------------------------- exclusion

  /** Frame callbacks exclude each other: what one has read stands until it applies it. */
  lemma {:induction false} ReadingStands(s: State, steps: seq<Step>)
    requires s.reading.Held? && FrameApplies !in steps
    ensures Run(s, steps).reading == s.reading
  {
    if steps != [] {
      var n := |steps| - 1;
      assert steps[n] in steps;
      ReadingStands(s, steps[..n]);
    }
  }

  // ------------------------------------------------------------------- members

  /** A session that joins is added to the others, and one that leaves is the only one to go. */
  lemma MembersChange(s: State, i: nat)
    ensures multiset(Apply(s, Join).sessions) == multiset(s.sessions) + multiset{SILENT}
    ensures s.reading.Idle? && i < |s.sessions| ==>
              multiset(Apply(s, Leave(i)).sessions) == multiset(s.sessions) - multiset{s.sessions[i]}
  {
    if i < |s.sessions| {
      LastInPlace(s.sessions, i, |s.sessions| - 1);
    }
  }

  // ---------------------------------------------------------------------- fall

  /** Above five percent the rate falls by the loss, down to the limit. */
  lemma StepDown(track: Track, rate: nat, loss: real)
    requires Within(track, rate) && loss > 5.0
    ensures var r, share := Suggestion(track, rate, loss), rate as real * (1.0 - loss / 100.0);
            && Within(track, r) && (r == Min(track) || r <= rate - 25)
            && (r as real <= share < r as real + 1.0 || (r == Min(track) && share < Min(track) as real))
  {
    SuggestionBounded(track, rate, loss);
    var share := rate as real * (1.0 - loss / 100.0);
    BelowShare(rate as real, 1.0 - loss / 100.0, share);
    FallsBy(track, rate, share);
  }

  lemma FallsBy(track: Track, rate: nat, share: real)
    requires Within(track, rate) && share <= 0.95 * rate as real
    ensures var r := (if share > Min(track) as real then share else Min(track) as real).Floor;
            && (r == Min(track) || r <= rate - 25)
            && (r as real <= share < r as real + 1.0 || (r == Min(track) && share < Min(track) as real))
  {
  }

  lemma BelowShare(c: real, f: real, share: real)
    requires c >= 0.0 && f <= 0.95 && share == c * f
    ensures share <= 0.95 * c
  {
    assert c * (0.95 - f) >= 0.0;
    assert c * (0.95 - f) == 0.95 * c - c * f;
  }

  /** While the loss stays above, the encoder's rate falls to the limit and stays there. */
  lemma {:induction false} FallsToLimit(s: State, track: Track, i: nat, rate: nat, loss: real, last: nat,
                                        times: seq<nat>)
    returns (r: nat)
    requires Seen(s, track, i, rate, loss, last) && Within(track, rate) && loss > 5.0 && Paced(last, times)
    ensures Seen(Run(s, Rounds(track, i, times)), track, i, r, loss, LastTime(last, times))
    ensures Within(track, r) && (r == Min(track) || r <= rate - 25 * |times|)
  {
    r := rate;
    if times != [] {
      var n := |times| - 1;
      var before := FallsToLimit(s, track, i, rate, loss, last, times[..n]);
      RunSplit(s, Rounds(track, i, times[..n]), Round(track, i, times[n]));
      RoundApplies(Run(s, Rounds(track, i, times[..n])), track, i, before, loss, LastTime(last, times[..n]), times[n]);
      StepDown(track, before, loss);
      r := Suggestion(track, before, loss);
    }
  }

  /** Within a second of the last adjustment nothing is adjusted. */
  lemma TooSoon(s: State, i: nat, now: nat)
    requires i < |s.sessions| && (now - s.sessions[i].lastAdjustment) % U64 < 10_000_000
    ensures Apply(s, Adjust(i, now)) == s
  {
  }

  // -------------------------------------------------------------------- average

  /** The loss in percent of what was sent, rounded down. */
  lemma PercentIs(tx: nat, rx: nat)
    requires 0 < tx && rx <= tx && (tx - rx) * 100 < U32
    ensures PercentLost(tx, rx) == 100 * (tx - rx) / tx
  {
    var d := tx - rx;
    assert d % U32 == d && d * 100 % U32 == d * 100;
    assert d * 100 == 100 * d;
  }

  /** Some distance, after it has shrunk to 95 percent k times. */
  function Shrunk(x: real, k: nat): (r: real) {
    if k == 0 then x else 0.95 * Shrunk(x, k - 1)
  }

  function Measures(i: nat, tx: nat, rx: nat, k: nat): (r: seq<Step>) {
    if k == 0 then [] else Measures(i, tx, rx, k - 1) + [Measure(i, tx, rx)]
  }

  /** Repeated measurements of the same loss draw the average to it: what is left of the distance
      shrinks to 95 percent each time. */
  lemma {:induction false} AverageFollows(s: State, i: nat, tx: nat, rx: nat, k: nat)
    requires i < |s.sessions|
    ensures var t, p := Run(s, Measures(i, tx, rx, k)), PercentLost(tx, rx) as real;
            && i < |t.sessions|
            && t.sessions[i].averageLoss - p == Shrunk(s.sessions[i].averageLoss - p, k)
  {
    if k > 0 {
      AverageFollows(s, i, tx, rx, k - 1);
      var before := Measures(i, tx, rx, k - 1);
      RunOneMore(s, before, Measure(i, tx, rx));
      Measured(Run(s, before), i, tx, rx);
    }
  }

  lemma {:induction false} RunOneMore(s: State, steps: seq<Step>, step: Step)
    ensures Run(s, steps + [step]) == Apply(Run(s, steps), step)
  {
    assert (steps + [step])[..|steps|] == steps;
  }

  lemma Measured(s: State, i: nat, tx: nat, rx: nat)
    requires i < |s.sessions|
    ensures var t := Apply(s, Measure(i, tx, rx));
            && |t.sessions| == |s.sessions|
            && t.sessions[i].averageLoss == 0.05 * PercentLost(tx, rx) as real + 0.95 * s.sessions[i].averageLoss
  {
  }
}
