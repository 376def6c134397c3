/** How long an early candidate waits, told from the events of a run alone. */
module PendingExpiry {
  import opened Registry
  import opened RegistryInvariant
  import opened CandidateDelivery

  const TWENTY_SECONDS := 200_000_000   // in units of 100 ns

  /** The only queue of the hash, which is not in the index. */
  ghost predicate Stands(st: State, h: Hash, q: Queue) {
    && h !in st.index && q.hash == h && q in st.pending
    && forall p :: p in st.pending && p.hash == h ==> p == q
  }

  /** Events that leave the queue of a hash alone: offers of others, and cleanup passes that do not
      come to expiry, or do so no later than `until`. */
  predicate Calm(env: Env, e: Event, h: Hash, until: nat) {
    match e
    case Offer(peer, _, _) => env.hash(peer) != h
    case Cleanup(now, expires) => expires ==> now <= until
    case _ => true
  }

  lemma {:induction false} WithoutOther(qs: seq<Queue>, g: Hash, q: Queue)
    requires q in qs && q.hash != g
    ensures q in Without(qs, Lookup(qs, g))
  {
    var k := Lookup(qs, g);
    var i :| 0 <= i < |qs| && qs[i] == q;
    if k < |qs| {
      assert Without(qs, k)[if i < k then i else i - 1] == q;
    }
  }

  lemma WithoutIsFrom(qs: seq<Queue>, k: nat, p: Queue)
    requires p in Without(qs, k)
    ensures p in qs
  {
  }

  lemma OfferStands(env: Env, st: State, e: Event, h: Hash, q: Queue)
    requires Stands(st, h, q) && e.Offer? && env.hash(e.peer) != h
    ensures Stands(Step(env, st, e), h, q)
  {
    var g := env.hash(e.peer);
    var t := Step(env, st, e);
    WithoutOther(st.pending, g, q);
    forall p | p in t.pending
      ensures p in st.pending
    {
      if p !in st.pending {
        WithoutIsFrom(st.pending, Lookup(st.pending, g), p);
      }
    }
  }

  lemma {:induction false} SweepIndex(env: Env, st: State, i: nat, h: Hash)
    requires h !in st.index
    ensures h !in Sweep(env, st, i).index
    decreases |st.sessions| - i
  {
    if i < |st.sessions| {
      SweepIndex(env, if st.sessions[i].terminated then Release(env, st, i) else st, i + 1, h);
    }
  }

  lemma CleanupStands(env: Env, st: State, e: Event, h: Hash, q: Queue)
    requires Stands(st, h, q) && e.Cleanup? && q.createTime + TWENTY_SECONDS < U64
    requires e.expires ==> e.now <= q.createTime + TWENTY_SECONDS
    ensures Stands(Step(env, st, e), h, q)
  {
    SweepIndex(env, st, 0, h);
    SweepPending(env, st, 0);
    if e.expires {
      ExpirySplits(st.pending, e.now, q);
      forall p | p in Unexpired(st.pending, e.now)
        ensures p in st.pending
      {
        ExpirySplits(st.pending, e.now, p);
      }
    }
  }

  lemma OwnCandidate(env: Env, st: State, e: Event, h: Hash, q: Queue)
    requires Stands(st, h, q) && QueuesDistinct(st.pending) && e.Candidate? && env.hash(e.peer) == h
    ensures Stands(Step(env, st, e), h, q.(messages := q.messages + [e.message]))
  {
    var k := Lookup(st.pending, h);
    var i :| 0 <= i < |st.pending| && st.pending[i] == q;
    var t := Step(env, st, e);
    assert k == i && t.pending[i] == q.(messages := q.messages + [e.message]);
  }

  lemma OtherCandidate(env: Env, st: State, e: Event, h: Hash, q: Queue)
    requires Stands(st, h, q) && e.Candidate? && env.hash(e.peer) != h
    ensures Stands(Step(env, st, e), h, q)
  {
    var i :| 0 <= i < |st.pending| && st.pending[i] == q;
    assert Step(env, st, e).pending[i] == q;
  }

  lemma {:induction false} ReceivedOne(env: Env, e: Event, h: Hash)
    ensures Received(env, [e], h) == if e.Candidate? && env.hash(e.peer) == h then [e.message] else []
  {
    assert [e][..0] == [];
    assert Received(env, [], h) == [];
  }

  lemma {:induction false} StepStands(env: Env, st: State, e: Event, h: Hash, q: Queue)
    requires Consistent(env, st) && Stands(st, h, q) && q.createTime + TWENTY_SECONDS < U64
    requires Calm(env, e, h, q.createTime + TWENTY_SECONDS)
    ensures Stands(Step(env, st, e), h, q.(messages := q.messages + Received(env, [e], h)))
  {
    ReceivedOne(env, e, h);
    assert q.messages + [] == q.messages;
    assert q.(messages := q.messages) == q;
    match e {
      case Offer(_, _, _) => OfferStands(env, st, e, h, q);
      case Cleanup(_, _) => CleanupStands(env, st, e, h, q);
      case Terminate(_) =>
      case Candidate(_, _, _) =>
        if env.hash(e.peer) == h {
          OwnCandidate(env, st, e, h, q);
        } else {
          OtherCandidate(env, st, e, h, q);
        }
    }
  }

  /** The hash is neither in the index nor waiting. */
  ghost predicate Unheard(env: Env, trace: seq<Event>, h: Hash) {
    h !in Run(env, trace).index && !Waiting(Run(env, trace), h)
  }

  /** A run in which a candidate arrives for an unheard hash at clock t, and calm events follow. */
  ghost predicate Waits(env: Env, trace: seq<Event>, c: Event, more: seq<Event>, h: Hash) {
    && c.Candidate? && env.hash(c.peer) == h && Unheard(env, trace, h) && c.now + TWENTY_SECONDS < U64
    && forall e :: e in more ==> Calm(env, e, h, c.now + TWENTY_SECONDS)
  }

  lemma {:induction false} QueueStarts(env: Env, trace: seq<Event>, c: Event, h: Hash)
    requires c.Candidate? && env.hash(c.peer) == h && Unheard(env, trace, h)
    ensures Stands(Run(env, trace + [c]), h, Queue(h, c.now, [c.message]))
  {
    RunNext(env, trace, c);
    var qs := Run(env, trace).pending;
    assert Lookup(qs, h) == |qs|;
  }

  lemma Joined(a: seq<Event>, c: Event, more: seq<Event>)
    requires more != []
    ensures a + [c] + more == a + [c] + more[..|more| - 1] + [more[|more| - 1]]
    ensures more == more[..|more| - 1] + [more[|more| - 1]]
  {
  }

  lemma {:induction false} QueueStands(env: Env, trace: seq<Event>, c: Event, more: seq<Event>, h: Hash)
    requires Waits(env, trace, c, more, h)
    ensures Stands(Run(env, trace + [c] + more), h, Queue(h, c.now, [c.message] + Received(env, more, h)))
  {
    if more == [] {
      QueueStarts(env, trace, c, h);
      assert trace + [c] + more == trace + [c] && [c.message] + [] == [c.message];
    } else {
      var n := |more| - 1;
      Joined(trace, c, more);
      assert more[n] in more && forall e :: e in more[..n] ==> e in more;
      QueueStands(env, trace, c, more[..n], h);
      OneMoreCalm(env, trace + [c] + more[..n], c, more[..n], more[n], h);
    }
  }

  lemma {:induction false} OneMoreCalm(env: Env, trace: seq<Event>, c: Event, before: seq<Event>, e: Event, h: Hash)
    requires c.Candidate? && c.now + TWENTY_SECONDS < U64 && Calm(env, e, h, c.now + TWENTY_SECONDS)
    requires Stands(Run(env, trace), h, Queue(h, c.now, [c.message] + Received(env, before, h)))
    ensures Stands(Run(env, trace + [e]), h, Queue(h, c.now, [c.message] + Received(env, before + [e], h)))
  {
    RunNext(env, trace, e);
    EveryRun(env, trace);
    StepStands(env, Run(env, trace), e, h, Queue(h, c.now, [c.message] + Received(env, before, h)));
    ReceivedSplit(env, before, e, h);
    assert [c.message] + Received(env, before, h) + Received(env, [e], h) ==
           [c.message] + (Received(env, before, h) + Received(env, [e], h));
  }

  /** A candidate that comes too early waits for twenty seconds, whatever other peers do, and the
      candidates that follow it wait behind it. */
  lemma {:induction false} WaitsItsTime(env: Env, trace: seq<Event>, c: Event, more: seq<Event>, h: Hash)
    requires Waits(env, trace, c, more, h)
    ensures Waiting(Run(env, trace + [c] + more), h)
    ensures HoldsAfter(env, trace + [c] + more, h, [c.message] + Received(env, more, h))
  {
    QueueStands(env, trace, c, more, h);
    var qs := Run(env, trace + [c] + more).pending;
    var i :| 0 <= i < |qs| && qs[i] == Queue(h, c.now, [c.message] + Received(env, more, h));
    assert qs[i].hash == h;
  }

  lemma NotListed(env: Env, st: State, h: Hash)
    requires Consistent(env, st) && h !in st.index
    ensures !Listed(env, st, h)
  {
  }

  /** The 64-bit clock has passed twenty seconds after `created`, a sum that wraps around. */
  predicate Over(created: Time, now: Time) {
    now > if created + TWENTY_SECONDS < U64 then created + TWENTY_SECONDS else created + TWENTY_SECONDS - U64
  }

  lemma {:induction false} NotWaiting(st: State, qs: seq<Queue>, now: Time, h: Hash, q: Queue)
    requires st.pending == Unexpired(qs, now) && Over(q.createTime, now) && q.hash == h
    requires forall p :: p in qs && p.hash == h ==> p == q
    ensures !Waiting(st, h)
  {
    forall i | 0 <= i < |st.pending|
      ensures st.pending[i].hash != h
    {
      ExpirySplits(qs, now, st.pending[i]);
    }
  }

  lemma PassForgets(env: Env, st: State, now: Time, h: Hash, q: Queue)
    requires Consistent(env, st) && Stands(st, h, q) && Over(q.createTime, now)
    ensures !Known(env, Step(env, st, Cleanup(now, true)), h)
  {
    var t := Step(env, st, Cleanup(now, true));
    SweepPending(env, st, 0);
    NotWaiting(t, st.pending, now, h, q);
    CleanupKeeps(env, st, now, true);
    SweepIndex(env, st, 0, h);
    NotListed(env, t, h);
  }

  /** The first cleanup pass that comes to expiry after that forgets the peer. */
  lemma {:induction false} ForgottenInTime(env: Env, trace: seq<Event>, c: Event, more: seq<Event>, h: Hash, now: Time)
    requires Waits(env, trace, c, more, h) && now > c.now + TWENTY_SECONDS
    ensures !KnownAfter(env, trace + [c] + more + [Cleanup(now, true)], h)
  {
    QueueStands(env, trace, c, more, h);
    EveryRun(env, trace + [c] + more);
    RunNext(env, trace + [c] + more, Cleanup(now, true));
    PassForgets(env, Run(env, trace + [c] + more), now, h, Queue(h, c.now, [c.message] + Received(env, more, h)));
  }

  /** Twenty seconds before the clock wraps around, a candidate does not wait at all: any pass that
      comes to expiry, even one at the same clock, forgets it. */
  lemma {:induction false} LostAtWrap(env: Env, trace: seq<Event>, c: Event, h: Hash, now: Time)
    requires c.Candidate? && env.hash(c.peer) == h && Unheard(env, trace, h)
    requires c.now + TWENTY_SECONDS >= U64 && now >= c.now
    ensures !KnownAfter(env, trace + [c] + [Cleanup(now, true)], h)
  {
    QueueStarts(env, trace, c, h);
    EveryRun(env, trace + [c]);
    RunNext(env, trace + [c], Cleanup(now, true));
    PassForgets(env, Run(env, trace + [c]), now, h, Queue(h, c.now, [c.message]));
  }
}
