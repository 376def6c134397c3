/** Which remote candidates a session, or a pending queue, holds: exactly those received for
    its hash since the hash became known, each once and in arrival order. */
module CandidateDelivery {
  import opened Registry
  import opened RegistryInvariant
  import CleanupPass

  /** The candidates among some events that are addressed to a hash. */
  function Received(env: Env, events: seq<Event>, h: Hash): (r: seq<Message>) {
    if events == [] then [] else
    var n := |events| - 1;
    Received(env, events[..n], h) +
    if events[n].Candidate? && env.hash(events[n].peer) == h then [events[n].message] else []
  }

  ghost predicate Waiting(st: State, h: Hash) {
    exists i :: 0 <= i < |st.pending| && st.pending[i].hash == h
  }

  ghost predicate Known(env: Env, st: State, h: Hash) {
    Listed(env, st, h) || Waiting(st, h)
  }

  ghost predicate SessionHolds(env: Env, st: State, h: Hash, ms: seq<Message>) {
    exists i :: 0 <= i < |st.sessions| && env.hash(st.sessions[i].peer) == h && st.sessions[i].candidates == ms
  }

  ghost predicate QueueHolds(st: State, h: Hash, ms: seq<Message>) {
    exists i :: 0 <= i < |st.pending| && st.pending[i].hash == h && st.pending[i].messages == ms
  }

  ghost predicate Holds(env: Env, st: State, h: Hash, ms: seq<Message>) {
    SessionHolds(env, st, h, ms) || QueueHolds(st, h, ms)
  }

  ghost predicate KnownAfter(env: Env, trace: seq<Event>, h: Hash) {
    Known(env, Run(env, trace), h)
  }

  ghost predicate HoldsAfter(env: Env, trace: seq<Event>, h: Hash, ms: seq<Message>) {
    Holds(env, Run(env, trace), h, ms)
  }

  /** The event that made a hash known, for as long as it has been known without a break. */
  ghost function Since(env: Env, trace: seq<Event>, h: Hash): (k: nat)
    ensures trace != [] ==> k < |trace|
  {
    if trace == [] then 0 else
    var n := |trace| - 1;
    if n > 0 && KnownAfter(env, trace[..n], h) then Since(env, trace[..n], h) else n
  }

  lemma PrefixOfPrefix(trace: seq<Event>, n: nat, i: nat)
    requires i <= n <= |trace|
    ensures trace[..n][..i] == trace[..i]
  {
  }

  /** The hash was not known just before, and has been known ever since. */
  lemma {:induction false} SinceBreaks(env: Env, trace: seq<Event>, h: Hash, i: nat)
    requires Since(env, trace, h) <= i < |trace|
    ensures i > 0 ==> (KnownAfter(env, trace[..i], h) <==> i > Since(env, trace, h))
  {
    var n := |trace| - 1;
    if n > 0 && KnownAfter(env, trace[..n], h) && i < n {
      SinceBreaks(env, trace[..n], h, i);
      PrefixOfPrefix(trace, n, i);
    }
  }

  /** What a hash held before a step, given what it holds after it. */
  ghost predicate Grew(env: Env, st: State, e: Event, h: Hash, ms: seq<Message>, was: seq<Message>) {
    && ms == was + Received(env, [e], h)
    && (if Known(env, st, h) then Holds(env, st, h, was) else was == [])
  }

  lemma {:induction false} SweepSessions(env: Env, st: State, i: nat, h: Hash, ms: seq<Message>)
    requires SessionHolds(env, Sweep(env, st, i), h, ms)
    ensures SessionHolds(env, st, h, ms)
    decreases |st.sessions| - i
  {
    if i < |st.sessions| {
      if st.sessions[i].terminated {
        var t := Release(env, st, i);
        SweepSessions(env, t, i + 1, h, ms);
        var k :| 0 <= k < |t.sessions| && env.hash(t.sessions[k].peer) == h && t.sessions[k].candidates == ms;
        assert t.sessions[k] == st.sessions[if k == i then |t.sessions| else k];
      } else {
        SweepSessions(env, st, i + 1, h, ms);
      }
    }
  }

  lemma {:induction false} SweepPending(env: Env, st: State, i: nat)
    ensures Sweep(env, st, i).pending == st.pending
    decreases |st.sessions| - i
  {
    if i < |st.sessions| {
      SweepPending(env, if st.sessions[i].terminated then Release(env, st, i) else st, i + 1);
    }
  }

  lemma CleanupGrew(env: Env, st: State, e: Event, h: Hash, ms: seq<Message>)
    requires e.Cleanup? && Holds(env, Step(env, st, e), h, ms)
    ensures Grew(env, st, e, h, ms, ms)
  {
    assert ms + Received(env, [e], h) == ms;
    var t := Step(env, st, e);
    if SessionHolds(env, t, h, ms) {
      SweepSessions(env, st, 0, h, ms);
    } else {
      SweepPending(env, st, 0);
      var k :| 0 <= k < |t.pending| && t.pending[k].hash == h && t.pending[k].messages == ms;
      if e.expires {
        ExpirySplits(st.pending, e.now, t.pending[k]);
      }
    }
  }

  lemma OfferGrewSession(env: Env, st: State, e: Event, h: Hash, ms: seq<Message>)
    requires Consistent(env, st) && e.Offer? && SessionHolds(env, Step(env, st, e), h, ms)
    ensures if Known(env, st, h) then Holds(env, st, h, ms) else ms == []
  {
    var t := Step(env, st, e);
    var i :| 0 <= i < |t.sessions| && env.hash(t.sessions[i].peer) == h && t.sessions[i].candidates == ms;
    if i < |st.sessions| {
      assert st.sessions[i] == t.sessions[i];
      assert SessionHolds(env, st, h, ms);
    } else {
      var k := Lookup(st.pending, h);
      assert h == env.hash(e.peer) && ms == Queued(st.pending, h) && !Listed(env, st, h);
      if k < |st.pending| {
        assert st.pending[k].hash == h && st.pending[k].messages == ms;
      }
    }
  }

  lemma OfferGrew(env: Env, st: State, e: Event, h: Hash, ms: seq<Message>)
    requires Consistent(env, st) && e.Offer? && Holds(env, Step(env, st, e), h, ms)
    ensures Grew(env, st, e, h, ms, ms)
  {
    assert Received(env, [e], h) == [];
    var t := Step(env, st, e);
    if SessionHolds(env, t, h, ms) {
      OfferGrewSession(env, st, e, h, ms);
    } else {
      var i :| 0 <= i < |t.pending| && t.pending[i].hash == h && t.pending[i].messages == ms;
      var k := Lookup(st.pending, env.hash(e.peer));
      assert t.pending == st.pending || t.pending == Without(st.pending, k);
      assert t.pending[i] in st.pending;
    }
  }

  lemma CandidateGrew(env: Env, st: State, e: Event, h: Hash, ms: seq<Message>) returns (was: seq<Message>)
    requires Consistent(env, st) && e.Candidate? && Holds(env, Step(env, st, e), h, ms)
    ensures Grew(env, st, e, h, ms, was)
  {
    var t := Step(env, st, e);
    var g := env.hash(e.peer);
    assert Received(env, [e], h) == if g == h then [e.message] else [];
    if SessionHolds(env, t, h, ms) {
      var i :| 0 <= i < |t.sessions| && env.hash(t.sessions[i].peer) == h && t.sessions[i].candidates == ms;
      was := st.sessions[i].candidates;
      assert SessionHolds(env, st, h, was);
    } else {
      var i :| 0 <= i < |t.pending| && t.pending[i].hash == h && t.pending[i].messages == ms;
      var k := Lookup(st.pending, g);
      was := if i < |st.pending| then st.pending[i].messages else [];
      if i < |st.pending| {
        assert QueueHolds(st, h, was);
      } else {
        assert !Waiting(st, g);
        assert !Listed(env, st, g);
      }
    }
  }

  lemma StepGrew(env: Env, st: State, e: Event, h: Hash, ms: seq<Message>) returns (was: seq<Message>)
    requires Consistent(env, st) && Holds(env, Step(env, st, e), h, ms)
    ensures Grew(env, st, e, h, ms, was)
  {
    was := ms;
    match e {
      case Offer(_, _, _) => OfferGrew(env, st, e, h, ms);
      case Candidate(_, _, _) => was := CandidateGrew(env, st, e, h, ms);
      case Cleanup(_, _) => CleanupGrew(env, st, e, h, ms);
      case Terminate(_) =>
        var t := Step(env, st, e);
        assert ms + Received(env, [e], h) == ms;
        if SessionHolds(env, t, h, ms) {
          var i :| 0 <= i < |t.sessions| && env.hash(t.sessions[i].peer) == h && t.sessions[i].candidates == ms;
          assert st.sessions[i].candidates == ms;
        } else {
          assert QueueHolds(st, h, ms);
        }
    }
  }

  lemma {:induction false} ReceivedSplit(env: Env, events: seq<Event>, e: Event, h: Hash)
    ensures Received(env, events + [e], h) == Received(env, events, h) + Received(env, [e], h)
  {
    assert (events + [e])[..|events|] == events;
    assert [e][..0] == [];
    assert Received(env, [e], h) == [] + if e.Candidate? && env.hash(e.peer) == h then [e.message] else [];
  }

  lemma LastStep(env: Env, before: seq<Event>, e: Event, h: Hash, ms: seq<Message>) returns (was: seq<Message>)
    requires HoldsAfter(env, before + [e], h, ms)
    ensures ms == was + Received(env, [e], h)
    ensures if KnownAfter(env, before, h) then before != [] && HoldsAfter(env, before, h, was) else was == []
  {
    EveryRun(env, before);
    RunNext(env, before, e);
    was := StepGrew(env, Run(env, before), e, h, ms);
  }

  /** On every run, whatever a session or a pending queue holds is what was received for
      its hash since the hash became known: nothing lost, repeated or out of order. */
  lemma {:induction false} DeliveredInOrder(env: Env, trace: seq<Event>, h: Hash, ms: seq<Message>)
    requires trace != [] && HoldsAfter(env, trace, h, ms)
    ensures ms == Received(env, trace[Since(env, trace, h)..], h)
  {
    var n := |trace| - 1;
    var before, e := trace[..n], trace[n];
    assert trace == before + [e];
    var was := LastStep(env, before, e, h, ms);
    if KnownAfter(env, before, h) {
      DeliveredInOrder(env, before, h, was);
      var k := Since(env, before, h);
      assert trace[k..] == before[k..] + [e];
      ReceivedSplit(env, before[k..], e, h);
    } else {
      assert trace[n..] == [e];
    }
  }

  lemma CleanupForgets(env: Env, st: State, e: Event, h: Hash)
    requires e.Cleanup? && Known(env, st, h)
    ensures || Known(env, Step(env, st, e), h)
            || (e.expires && exists q :: q in st.pending && q.hash == h && Expired(q, e.now))
            || (exists s :: s in st.sessions && env.hash(s.peer) == h && s.terminated)
  {
    if Listed(env, st, h) {
      var i :| 0 <= i < |st.sessions| && env.hash(st.sessions[i].peer) == h;
      if !st.sessions[i].terminated {
        CleanupPass.SweepKeepsLive(env, st, 0, st.sessions[i]);
      }
    } else {
      var i :| 0 <= i < |st.pending| && st.pending[i].hash == h;
      SweepPending(env, st, 0);
      if !Expired(st.pending[i], e.now) {
        ExpirySplits(st.pending, e.now, st.pending[i]);
      }
    }
  }

  lemma OfferForgets(env: Env, st: State, e: Event, h: Hash)
    requires Consistent(env, st) && e.Offer? && Known(env, st, h)
    ensures || Known(env, Step(env, st, e), h)
            || (env.hash(e.peer) == h && Waiting(st, h) && (|st.sessions| == MAX_SESSIONS || Leaks(env, st, e)))
  {
    var t := Step(env, st, e);
    var k := Lookup(st.pending, env.hash(e.peer));
    if Listed(env, st, h) {
      var i :| 0 <= i < |st.sessions| && env.hash(st.sessions[i].peer) == h;
      assert t.sessions[i] == st.sessions[i];
    } else {
      var i :| 0 <= i < |st.pending| && st.pending[i].hash == h;
      if i != k && k < |st.pending| {
        assert Without(st.pending, k)[if i < k then i else i - 1] == st.pending[i];
      }
      if Admits(env, st, e) && !Leaks(env, st, e) && h == env.hash(e.peer) {
        assert t.sessions[|st.sessions|].peer == e.peer;
      }
    }
  }

  /** The only ways a hash is forgotten: its queue expired, its session terminated, or an
      offer for it was refused at capacity or lost an early candidate. */
  lemma Forgotten(env: Env, st: State, e: Event, h: Hash)
    requires Consistent(env, st) && Known(env, st, h)
    ensures Known(env, Step(env, st, e), h) ||
            if e.Cleanup? then
              || (e.expires && exists q :: q in st.pending && q.hash == h && Expired(q, e.now))
              || (exists s :: s in st.sessions && env.hash(s.peer) == h && s.terminated)
            else
              && e.Offer? && env.hash(e.peer) == h && Waiting(st, h)
              && (|st.sessions| == MAX_SESSIONS || Leaks(env, st, e))
  {
    var t := Step(env, st, e);
    match e {
      case Cleanup(_, _) => CleanupForgets(env, st, e, h);
      case Offer(_, _, _) => OfferForgets(env, st, e, h);
      case Terminate(_) => SameListing(env, st, t);
      case Candidate(_, _, _) =>
        SameListing(env, st, t);
        assert forall i :: 0 <= i < |st.pending| ==> t.pending[i].hash == st.pending[i].hash;
    }
  }
}
