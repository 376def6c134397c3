/** What every run of the session registry keeps, and exactly when its index stays exact. */
module RegistryInvariant {
  import opened Registry

  ghost predicate SessionsDistinct(env: Env, ss: seq<Session>) {
    forall i, j :: 0 <= i < j < |ss| ==>
      env.hash(ss[i].peer) != env.hash(ss[j].peer) && ss[i].handle != ss[j].handle
  }

  ghost predicate Indexed(env: Env, st: State) {
    && (forall i :: 0 <= i < |st.sessions| ==>
         var h := env.hash(st.sessions[i].peer); h in st.index && st.index[h] == st.sessions[i].handle)
    && (forall h, i :: h in st.index && 0 <= i < |st.sessions| && st.index[h] == st.sessions[i].handle ==>
         h == env.hash(st.sessions[i].peer))
  }

  ghost predicate HandlesIssued(st: State) {
    && (forall i :: 0 <= i < |st.sessions| ==> st.sessions[i].handle < st.next)
    && (forall h :: h in st.index ==> st.index[h] < st.next)
  }

  ghost predicate QueuesDistinct(qs: seq<Queue>) {
    forall i, j :: 0 <= i < j < |qs| ==> qs[i].hash != qs[j].hash
  }

  ghost predicate PendingApart(st: State) {
    && QueuesDistinct(st.pending)
    && (forall i :: 0 <= i < |st.pending| ==> st.pending[i].hash !in st.index)
  }

  /** At most ten sessions, under distinct hashes, each found through the index; no hash has
      two pending queues, and none has a pending queue beside an index entry. */
  ghost predicate Consistent(env: Env, st: State) {
    && |st.sessions| <= MAX_SESSIONS
    && SessionsDistinct(env, st.sessions)
    && Indexed(env, st)
    && HandlesIssued(st)
    && PendingApart(st)
  }

  ghost predicate Listed(env: Env, st: State, h: Hash) {
    exists i :: 0 <= i < |st.sessions| && env.hash(st.sessions[i].peer) == h
  }

  /** The index holds nothing but the listed sessions. */
  ghost predicate Exact(env: Env, st: State) {
    forall h :: h in st.index ==> Listed(env, st, h)
  }

  lemma ReleaseKeeps(env: Env, st: State, i: nat)
    requires Consistent(env, st) && i < |st.sessions|
    ensures Consistent(env, Release(env, st, i))
  {
    var t := Release(env, st, i);
    var n := |t.sessions|;
    assert forall k :: 0 <= k < n ==> t.sessions[k] == st.sessions[if k == i then n else k];
  }

  lemma ReleaseExact(env: Env, st: State, i: nat)
    requires Consistent(env, st) && i < |st.sessions|
    ensures Exact(env, st) <==> Exact(env, Release(env, st, i))
  {
    var t := Release(env, st, i);
    var n := |t.sessions|;
    assert forall k :: 0 <= k < n ==> t.sessions[k] == st.sessions[if k == i then n else k];
    forall h | h in t.index
      ensures Listed(env, t, h) <==> Listed(env, st, h)
    {
      if Listed(env, st, h) {
        var k :| 0 <= k <= n && env.hash(st.sessions[k].peer) == h;
        assert t.sessions[if k == n then i else k] == st.sessions[k];
      }
    }
    assert Listed(env, st, env.hash(st.sessions[i].peer));
  }

  lemma {:induction false} SweepKeeps(env: Env, st: State, i: nat)
    requires Consistent(env, st)
    ensures Consistent(env, Sweep(env, st, i))
    ensures Exact(env, st) <==> Exact(env, Sweep(env, st, i))
    decreases |st.sessions| - i
  {
    if i < |st.sessions| {
      if st.sessions[i].terminated {
        ReleaseKeeps(env, st, i);
        ReleaseExact(env, st, i);
        SweepKeeps(env, Release(env, st, i), i + 1);
      } else {
        SweepKeeps(env, st, i + 1);
      }
    }
  }

  lemma {:induction false} UnexpiredKeeps(qs: seq<Queue>, now: Time)
    requires QueuesDistinct(qs)
    ensures QueuesDistinct(Unexpired(qs, now))
  {
    if qs != [] {
      UnexpiredKeeps(qs[1..], now);
      var rest := Unexpired(qs[1..], now);
      forall i | 0 <= i < |rest|
        ensures rest[i].hash != qs[0].hash
      {
        ExpirySplits(qs[1..], now, rest[i]);
      }
    }
  }

  lemma CleanupKeeps(env: Env, st: State, now: Time, expires: bool)
    requires Consistent(env, st)
    ensures Consistent(env, Step(env, st, Cleanup(now, expires)))
    ensures Exact(env, st) <==> Exact(env, Step(env, st, Cleanup(now, expires)))
  {
    var swept := Sweep(env, st, 0);
    var left := Unexpired(swept.pending, now);
    SweepKeeps(env, st, 0);
    UnexpiredKeeps(swept.pending, now);
    forall i | 0 <= i < |left|
      ensures left[i] in swept.pending
    {
      ExpirySplits(swept.pending, now, left[i]);
    }
    SameListing(env, swept, swept.(pending := left));
  }

  /** Taking the queue of a hash out of the list. */
  lemma {:induction false} DropKeeps(st: State, h: Hash)
    requires PendingApart(st)
    ensures var left := Without(st.pending, Lookup(st.pending, h));
            QueuesDistinct(left) && forall i :: 0 <= i < |left| ==> left[i].hash != h && left[i].hash !in st.index
  {
    var k := Lookup(st.pending, h);
    var left := Without(st.pending, k);
    assert forall i :: 0 <= i < |left| ==> left[i] == st.pending[if i < k then i else i + 1];
  }

  /** A new hash enters the index, with or without a new session at the end of the list. */
  lemma EnterIndex(env: Env, st: State, t: State, peer: string)
    requires Consistent(env, st) && env.hash(peer) !in st.index
    requires t.index == st.index[env.hash(peer) := st.next] && t.next == st.next + 1
    requires t.sessions == st.sessions ||
             exists s :: t.sessions == st.sessions + [s] && s.peer == peer && s.handle == st.next
    ensures SessionsDistinct(env, t.sessions) && Indexed(env, t) && HandlesIssued(t)
  {
    var n := |st.sessions|;
    assert forall i :: 0 <= i < n ==> t.sessions[i] == st.sessions[i];
    assert |t.sessions| > n ==> t.sessions[n].peer == peer && t.sessions[n].handle == st.next;
  }

  lemma AdmitConsistent(env: Env, st: State, e: Event)
    requires Consistent(env, st) && Admits(env, st, e)
    ensures Consistent(env, Step(env, st, e))
  {
    var t := Step(env, st, e);
    DropKeeps(st, env.hash(e.peer));
    if !Leaks(env, st, e) {
      var s := t.sessions[|st.sessions|];
      assert t.sessions == st.sessions + [s] && s.peer == e.peer && s.handle == st.next;
    }
    EnterIndex(env, st, t, e.peer);
  }

  lemma AdmitExact(env: Env, st: State, e: Event)
    requires Consistent(env, st) && Admits(env, st, e)
    ensures Exact(env, Step(env, st, e)) <==> Exact(env, st) && !Leaks(env, st, e)
  {
    var h := env.hash(e.peer);
    var t := Step(env, st, e);
    if Leaks(env, st, e) {
      assert h in t.index && !Listed(env, t, h);
    } else {
      var n := |st.sessions|;
      assert t.sessions == st.sessions + [t.sessions[n]] && t.sessions[n].peer == e.peer;
      assert Listed(env, t, h);
      forall g | g != h
        ensures Listed(env, t, g) <==> Listed(env, st, g)
      {
        if Listed(env, st, g) {
          var i :| 0 <= i < n && env.hash(st.sessions[i].peer) == g;
          assert t.sessions[i] == st.sessions[i];
        }
      }
    }
  }

  lemma OfferKeeps(env: Env, st: State, e: Event)
    requires Consistent(env, st) && e.Offer?
    ensures Consistent(env, Step(env, st, e))
    ensures Exact(env, Step(env, st, e)) <==> Exact(env, st) && !Leaks(env, st, e)
  {
    if Admits(env, st, e) {
      AdmitConsistent(env, st, e);
      AdmitExact(env, st, e);
    } else {
      DropKeeps(st, env.hash(e.peer));
      SameListing(env, st, Step(env, st, e));
    }
  }

  lemma CandidateKeeps(env: Env, st: State, e: Event)
    requires Consistent(env, st) && e.Candidate?
    ensures Consistent(env, Step(env, st, e))
    ensures Exact(env, st) <==> Exact(env, Step(env, st, e))
  {
    var t := Step(env, st, e);
    SameListing(env, st, t);
  }

  /** Events that touch only flags, candidates or queues do not change who is listed. */
  lemma SameListing(env: Env, st: State, t: State)
    requires |st.sessions| == |t.sessions|
    requires forall i :: 0 <= i < |st.sessions| ==> st.sessions[i].peer == t.sessions[i].peer
    ensures forall h :: Listed(env, t, h) <==> Listed(env, st, h)
  {
    forall h
      ensures Listed(env, t, h) <==> Listed(env, st, h)
    {
      if Listed(env, st, h) {
        var i :| 0 <= i < |st.sessions| && env.hash(st.sessions[i].peer) == h;
        assert env.hash(t.sessions[i].peer) == h;
      }
    }
  }

  lemma StepKeeps(env: Env, st: State, e: Event)
    requires Consistent(env, st)
    ensures Consistent(env, Step(env, st, e))
    ensures Exact(env, Step(env, st, e)) <==> Exact(env, st) && !Leaks(env, st, e)
  {
    match e {
      case Offer(_, _, _) => OfferKeeps(env, st, e);
      case Candidate(_, _, _) => CandidateKeeps(env, st, e);
      case Terminate(_) => SameListing(env, st, Step(env, st, e));
      case Cleanup(now, expires) => CleanupKeeps(env, st, now, expires);
    }
  }

  /** No event of the run was an admitted offer that lost one of its early candidates. */
  ghost predicate NeverLeaks(env: Env, trace: seq<Event>) {
    trace != [] ==>
      var before := trace[..|trace| - 1];
      NeverLeaks(env, before) && !Leaks(env, Run(env, before), trace[|trace| - 1])
  }

  /** Every run keeps the registry consistent, whatever fails; and its index lists exactly
      the sessions if and only if no admitted offer had an early candidate refused. */
  lemma {:induction false} EveryRun(env: Env, trace: seq<Event>)
    ensures Consistent(env, Run(env, trace))
    ensures Exact(env, Run(env, trace)) <==> NeverLeaks(env, trace)
  {
    if trace != [] {
      EveryRun(env, trace[..|trace| - 1]);
      StepKeeps(env, Run(env, trace[..|trace| - 1]), trace[|trace| - 1]);
    }
  }

  /** An offer leads to a session if and only if its hash is not in the index, fewer than ten
      sessions are listed, the session is created and the offer answered, and every early candidate
      is taken. */
  lemma AdmittedExactly(env: Env, st: State, e: Event)
    requires Consistent(env, st) && e.Offer?
    ensures var h := env.hash(e.peer);
            Listed(env, Step(env, st, e), h) <==>
            || Listed(env, st, h)
            || (&& h !in st.index && |st.sessions| < 10 && e.created && e.answered
                && forall m :: m in Queued(st.pending, h) ==> env.takes(st.next, m))
  {
    var h := env.hash(e.peer);
    var t := Step(env, st, e);
    if |t.sessions| > |st.sessions| {
      assert t.sessions[|st.sessions|].peer == e.peer;
    } else {
      assert t.sessions == st.sessions;
    }
  }

  // ------------------------------------------------------------- stale entries

  /** An index entry without a session. */
  ghost predicate Stale(env: Env, st: State, h: Hash) {
    h in st.index && !Listed(env, st, h)
  }

  lemma LeakLeavesStale(env: Env, st: State, e: Event)
    requires Consistent(env, st) && Leaks(env, st, e)
    ensures Stale(env, Step(env, st, e), env.hash(e.peer))
  {
    var t := Step(env, st, e);
    assert t.sessions == st.sessions;
  }

  /** One refused early candidate is enough to leave an index entry without a session: for any
      hash, peer and candidate, on a run of two events. */
  lemma {:induction false} LeakHappens(env: Env, peer: string, m: Message, now: Time)
    requires !env.takes(0, m)
    ensures Stale(env, Run(env, [Candidate(peer, m, now), Offer(peer, true, true)]), env.hash(peer))
  {
    var first, second := Candidate(peer, m, now), Offer(peer, true, true);
    var h := env.hash(peer);
    assert [first, second][..1] == [first] && [first][..0] == [];
    var st := Run(env, [first]);
    assert st == Step(env, Run(env, []), first);
    assert st.pending == [Queue(h, now, [m])];
    assert Queued(st.pending, h) == [m] && m in [m];
    EveryRun(env, [first]);
    LeakLeavesStale(env, st, second);
  }

  lemma ReleaseLeavesStale(env: Env, st: State, i: nat, h: Hash)
    requires Stale(env, st, h) && i < |st.sessions|
    ensures Stale(env, Release(env, st, i), h)
  {
    var t := Release(env, st, i);
    var n := |t.sessions|;
    assert env.hash(st.sessions[i].peer) != h;
    assert forall k :: 0 <= k < n ==> t.sessions[k] == st.sessions[if k == i then n else k];
  }

  lemma {:induction false} SweepLeavesStale(env: Env, st: State, i: nat, h: Hash)
    requires Stale(env, st, h)
    ensures Stale(env, Sweep(env, st, i), h)
    decreases |st.sessions| - i
  {
    if i < |st.sessions| {
      if st.sessions[i].terminated {
        ReleaseLeavesStale(env, st, i, h);
        SweepLeavesStale(env, Release(env, st, i), i + 1, h);
      } else {
        SweepLeavesStale(env, st, i + 1, h);
      }
    }
  }

  lemma OfferLeavesStale(env: Env, st: State, e: Event, h: Hash)
    requires Stale(env, st, h) && e.Offer?
    ensures Stale(env, Step(env, st, e), h)
  {
    var t := Step(env, st, e);
    if env.hash(e.peer) != h {
      forall i | 0 <= i < |t.sessions|
        ensures env.hash(t.sessions[i].peer) != h
      {
        assert i < |st.sessions| ==> t.sessions[i] == st.sessions[i];
        assert i >= |st.sessions| ==> t.sessions[i].peer == e.peer;
      }
    }
  }

  /** No event ever clears such an entry. */
  lemma StaleStays(env: Env, st: State, e: Event, h: Hash)
    requires Stale(env, st, h)
    ensures Stale(env, Step(env, st, e), h)
  {
    match e {
      case Offer(_, _, _) => OfferLeavesStale(env, st, e, h);
      case Cleanup(_, _) => SweepLeavesStale(env, st, 0, h);
      case Candidate(_, _, _) => SameListing(env, st, Step(env, st, e));
      case Terminate(_) => SameListing(env, st, Step(env, st, e));
    }
  }

  lemma {:induction false} StaleForever(env: Env, trace: seq<Event>, more: seq<Event>, h: Hash)
    requires Stale(env, Run(env, trace), h)
    ensures Stale(env, Run(env, trace + more), h)
  {
    if more == [] {
      assert trace + more == trace;
    } else {
      var n := |more| - 1;
      StaleForever(env, trace, more[..n], h);
      assert (trace + more)[..|trace| + n] == trace + more[..n];
      StaleStays(env, Run(env, trace + more[..n]), more[n], h);
    }
  }

  /** While there is one, offers and candidates under its hash change nothing. */
  lemma StaleIgnores(env: Env, st: State, h: Hash, e: Event)
    requires Consistent(env, st) && Stale(env, st, h) && (e.Offer? || e.Candidate?) && env.hash(e.peer) == h
    ensures Step(env, st, e) == st
  {
    if e.Candidate? {
      assert forall i :: 0 <= i < |st.sessions| ==> st.sessions[i].handle != st.index[h];
      assert HandedTo(st.sessions, st.index[h], e.message) == st.sessions;
    }
  }

  /** After the first such entry, whatever else happens, no peer with its hash is admitted again,
      and its candidates reach no session and no queue. */
  lemma {:induction false} NeverAdmittedAgain(env: Env, trace: seq<Event>, more: seq<Event>, h: Hash, e: Event)
    requires Stale(env, Run(env, trace), h) && (e.Offer? || e.Candidate?) && env.hash(e.peer) == h
    ensures Step(env, Run(env, trace + more), e) == Run(env, trace + more)
  {
    StaleForever(env, trace, more, h);
    EveryRun(env, trace + more);
    StaleIgnores(env, Run(env, trace + more), h, e);
  }

  // ------------------------------------------------------------- conservation

  function Count(ss: seq<Session>, h: Handle): (n: nat) {
    if ss == [] then 0 else Count(ss[..|ss| - 1], h) + if ss[|ss| - 1].handle == h then 1 else 0
  }

  /** A session that was created is either listed or was freed, and freed once. */
  ghost predicate Conserved(st: State, h: Handle) {
    Count(st.sessions, h) + Count(st.freed, h) == if h < st.next then 1 else 0
  }

  lemma {:induction false} CountAppend(ss: seq<Session>, s: Session, h: Handle)
    ensures Count(ss + [s], h) == Count(ss, h) + if s.handle == h then 1 else 0
  {
    assert (ss + [s])[..|ss|] == ss;
  }

  lemma {:induction false} CountUpdate(ss: seq<Session>, i: nat, s: Session, h: Handle)
    requires i < |ss|
    ensures Count(ss[i := s], h) ==
            Count(ss, h) + (if s.handle == h then 1 else 0) - if ss[i].handle == h then 1 else 0
  {
    var n := |ss| - 1;
    if i == n {
      assert ss[i := s][..n] == ss[..n];
    } else {
      assert ss[i := s][..n] == ss[..n][i := s];
      CountUpdate(ss[..n], i, s, h);
    }
  }

  lemma {:induction false} CountSame(a: seq<Session>, b: seq<Session>, h: Handle)
    requires |a| == |b| && forall i :: 0 <= i < |a| ==> a[i].handle == b[i].handle
    ensures Count(a, h) == Count(b, h)
  {
    if a != [] {
      CountSame(a[..|a| - 1], b[..|b| - 1], h);
    }
  }

  lemma ReleaseConserves(env: Env, st: State, i: nat, h: Handle)
    requires Conserved(st, h) && i < |st.sessions|
    ensures Conserved(Release(env, st, i), h)
  {
    var n := |st.sessions| - 1;
    var swapped := st.sessions[i := st.sessions[n]];
    CountUpdate(st.sessions, i, st.sessions[n], h);
    assert Count(swapped, h) == Count(swapped[..n], h) + if swapped[n].handle == h then 1 else 0;
    CountAppend(st.freed, st.sessions[i], h);
  }

  lemma {:induction false} SweepConserves(env: Env, st: State, i: nat, h: Handle)
    requires Conserved(st, h)
    ensures Conserved(Sweep(env, st, i), h)
    decreases |st.sessions| - i
  {
    if i < |st.sessions| {
      if st.sessions[i].terminated {
        ReleaseConserves(env, st, i, h);
        SweepConserves(env, Release(env, st, i), i + 1, h);
      } else {
        SweepConserves(env, st, i + 1, h);
      }
    }
  }

  /** One session was created, and is listed or freed. */
  ghost predicate Adds(st: State, t: State, s: Session) {
    && s.handle == st.next && t.next == st.next + 1
    && (|| (t.sessions == st.sessions + [s] && t.freed == st.freed)
        || (t.sessions == st.sessions && t.freed == st.freed + [s]))
  }

  lemma {:induction false} AddedConserves(st: State, t: State, s: Session, h: Handle)
    requires Conserved(st, h) && Adds(st, t, s)
    ensures Conserved(t, h)
  {
    CountAppend(st.sessions, s, h);
    CountAppend(st.freed, s, h);
  }

  lemma OfferAdds(env: Env, st: State, e: Event) returns (s: Session)
    requires e.Offer?
    ensures var t := Step(env, st, e);
            Adds(st, t, s) || (t.sessions == st.sessions && t.freed == st.freed && t.next == st.next)
  {
    s := Session(st.next, e.peer, false, []);
    if e.answered {
      var early := Queued(st.pending, env.hash(e.peer));
      s := s.(candidates := if Refuses(env, s.handle, early) then Accepted(env, s.handle, early) else early);
    }
  }

  lemma OfferConserves(env: Env, st: State, e: Event, h: Handle)
    requires Conserved(st, h) && e.Offer?
    ensures Conserved(Step(env, st, e), h)
  {
    var t := Step(env, st, e);
    var s := OfferAdds(env, st, e);
    if Adds(st, t, s) {
      AddedConserves(st, t, s, h);
    }
  }

  lemma StepConserves(env: Env, st: State, e: Event, h: Handle)
    requires Conserved(st, h)
    ensures Conserved(Step(env, st, e), h)
  {
    var t := Step(env, st, e);
    match e {
      case Offer(_, _, _) => OfferConserves(env, st, e, h);
      case Cleanup(_, _) => SweepConserves(env, st, 0, h);
      case Candidate(_, _, _) => CountSame(st.sessions, t.sessions, h);
      case Terminate(_) => CountSame(st.sessions, t.sessions, h);
    }
  }

  /** On every run, no session is lost and none is released twice. */
  lemma {:induction false} SessionsConserved(env: Env, trace: seq<Event>, h: Handle)
    ensures Conserved(Run(env, trace), h)
  {
    if trace != [] {
      SessionsConserved(env, trace[..|trace| - 1], h);
      StepConserves(env, Run(env, trace[..|trace| - 1]), trace[|trace| - 1], h);
    }
  }
}
