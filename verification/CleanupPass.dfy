/** The pass that removes terminated sessions by swapping with the last element while it
    scans: what one pass removes, what it may miss, and how many passes are enough. */
module CleanupPass {
  import opened Basics
  import opened Registry

  function Flagged(s: Session): (n: nat) { if s.terminated then 1 else 0 }

  /** How many sessions of a list are terminated. */
  function Terminated(ss: seq<Session>): (n: nat) {
    if ss == [] then 0 else Flagged(ss[0]) + Terminated(ss[1..])
  }

  lemma {:induction false} TerminatedSplit(a: seq<Session>, b: seq<Session>)
    ensures Terminated(a + b) == Terminated(a) + Terminated(b)
  {
    if a == [] {
      assert a + b == b;
    } else {
      assert (a + b)[1..] == a[1..] + b;
      TerminatedSplit(a[1..], b);
    }
  }

  lemma {:induction false} NoneTerminated(ss: seq<Session>)
    ensures Terminated(ss) == 0 <==> forall s :: s in ss ==> !s.terminated
  {
    if ss != [] {
      NoneTerminated(ss[1..]);
      assert forall s :: s in ss <==> s == ss[0] || s in ss[1..];
    }
  }

  lemma SwapOutMultiset(ss: seq<Session>, i: nat)
    requires i < |ss|
    ensures multiset(SwapOut(ss, i)) == multiset(ss) - multiset{ss[i]}
  {
    LastInPlace(ss, i, |ss| - 1);
  }

  lemma ReleaseMoves(env: Env, st: State, i: nat)
    requires i < |st.sessions|
    ensures var r := Release(env, st, i);
            multiset(r.sessions) + multiset(r.freed) == multiset(st.sessions) + multiset(st.freed)
  {
    SwapOutMultiset(st.sessions, i);
    assert st.sessions[i] in multiset(st.sessions);
    assert multiset(st.freed + [st.sessions[i]]) == multiset(st.freed) + multiset{st.sessions[i]};
  }

  /** One pass only moves sessions from the list to the freed ones. */
  lemma {:induction false} SweepConserves(env: Env, st: State, i: nat)
    ensures var r := Sweep(env, st, i);
            multiset(r.sessions) + multiset(r.freed) == multiset(st.sessions) + multiset(st.freed)
    decreases |st.sessions| - i
  {
    if i < |st.sessions| {
      if st.sessions[i].terminated {
        ReleaseMoves(env, st, i);
        SweepConserves(env, Release(env, st, i), i + 1);
      } else {
        SweepConserves(env, st, i + 1);
      }
    }
  }

  /** Whatever a pass frees was terminated. */
  lemma {:induction false} SweepFreesTerminated(env: Env, st: State, i: nat)
    ensures var r := Sweep(env, st, i);
            st.freed <= r.freed && forall k :: |st.freed| <= k < |r.freed| ==> r.freed[k].terminated
    decreases |st.sessions| - i
  {
    if i < |st.sessions| {
      SweepFreesTerminated(env, if st.sessions[i].terminated then Release(env, st, i) else st, i + 1);
    }
  }

  /** A live session stays listed. */
  lemma {:induction false} SweepKeepsLive(env: Env, st: State, i: nat, s: Session)
    requires s in st.sessions && !s.terminated
    ensures s in Sweep(env, st, i).sessions
    decreases |st.sessions| - i
  {
    if i < |st.sessions| {
      if st.sessions[i].terminated {
        var t := Release(env, st, i);
        var k :| 0 <= k < |st.sessions| && st.sessions[k] == s;
        assert t.sessions[if k == |t.sessions| then i else k] == s;
        SweepKeepsLive(env, t, i + 1, s);
      } else {
        SweepKeepsLive(env, st, i + 1, s);
      }
    }
  }

  /** From position i on, `r` has at most half as many terminated sessions as `ss`. */
  ghost predicate Halved(ss: seq<Session>, r: seq<Session>, i: nat) {
    && i <= |r| && i <= |ss| && r[..i] == ss[..i]
    && 2 * Terminated(r[i..]) <= Terminated(ss[i..])
  }

  lemma HalvedPastLive(ss: seq<Session>, r: seq<Session>, i: nat)
    requires i < |ss| && !ss[i].terminated && Halved(ss, r, i + 1)
    ensures Halved(ss, r, i)
  {
    assert ss[i..][1..] == ss[i + 1..] && r[i..][1..] == r[i + 1..];
    assert r[i] == r[..i + 1][i] == ss[i];
    assert r[..i] == r[..i + 1][..i] == ss[..i];
  }

  lemma HalvedPastSwap(ss: seq<Session>, r: seq<Session>, i: nat)
    requires i + 1 < |ss| && ss[i].terminated && Halved(SwapOut(ss, i), r, i + 1)
    ensures Halved(ss, r, i)
  {
    var n := |ss| - 1;
    var between := ss[i + 1..n];
    assert SwapOut(ss, i)[i + 1..] == between;
    assert ss[i..][1..] == between + [ss[n]];
    TerminatedSplit(between, [ss[n]]);
    assert [ss[n]][1..] == [];
    assert r[i] == r[..i + 1][i] == ss[n];
    assert r[i..][1..] == r[i + 1..];
    assert r[..i] == r[..i + 1][..i] == ss[..i];
  }

  /** A pass leaves at most half of the terminated sessions: each one it skips was swapped
      in by one it removed. */
  lemma {:induction false} SweepHalves(env: Env, st: State, i: nat)
    requires i <= |st.sessions|
    ensures Halved(st.sessions, Sweep(env, st, i).sessions, i)
    decreases |st.sessions| - i
  {
    if i < |st.sessions| {
      if !st.sessions[i].terminated {
        SweepHalves(env, st, i + 1);
        HalvedPastLive(st.sessions, Sweep(env, st, i).sessions, i);
      } else if i + 1 < |st.sessions| {
        SweepHalves(env, Release(env, st, i), i + 1);
        HalvedPastSwap(st.sessions, Sweep(env, st, i).sessions, i);
      } else {
        assert Sweep(env, st, i).sessions == Release(env, st, i).sessions == st.sessions[..i];
      }
    }
  }

  function Passes(env: Env, st: State, k: nat): (r: State) {
    if k == 0 then st else Sweep(env, Passes(env, st, k - 1), 0)
  }

  lemma {:induction false} PassHalves(env: Env, st: State)
    ensures 2 * Terminated(Sweep(env, st, 0).sessions) <= Terminated(st.sessions)
  {
    SweepHalves(env, st, 0);
    assert Sweep(env, st, 0).sessions[0..] == Sweep(env, st, 0).sessions && st.sessions[0..] == st.sessions;
  }

  lemma HalfAgain(p: nat, after: nat, before: nat, all: nat)
    requires 2 * after <= before && p * before <= all
    ensures 2 * p * after <= all
  {
    assert p * (2 * after) <= p * before;
  }

  lemma NoRoom(p: nat, left: nat, all: nat)
    requires p * left <= all < p
    ensures left == 0
  {
    assert left >= 1 ==> p * left >= p;
  }

  lemma {:induction false} PassesHalve(env: Env, st: State, k: nat)
    ensures Pow2(k) * Terminated(Passes(env, st, k).sessions) <= Terminated(st.sessions)
  {
    if k > 0 {
      PassesHalve(env, st, k - 1);
      PassHalves(env, Passes(env, st, k - 1));
      HalfAgain(Pow2(k - 1), Terminated(Passes(env, st, k).sessions),
                Terminated(Passes(env, st, k - 1).sessions), Terminated(st.sessions));
    }
  }

  /** As many passes as it takes to double past the number of terminated sessions remove
      them all; four are enough for a full list. */
  lemma {:induction false} PassesClear(env: Env, st: State, k: nat)
    requires Terminated(st.sessions) < Pow2(k)
    ensures forall s :: s in Passes(env, st, k).sessions ==> !s.terminated
  {
    var left := Passes(env, st, k).sessions;
    PassesHalve(env, st, k);
    NoRoom(Pow2(k), Terminated(left), Terminated(st.sessions));
    NoneTerminated(left);
  }

  // -------------------------------------------------------------- exact condition

  /** Of the sessions from position i on, as many at the end are live as there are terminated
      ones but for the first. */
  predicate EndIsLive(ss: seq<Session>, i: nat)
    requires i <= |ss|
  {
    var t := Terminated(ss[i..]);
    TerminatedAtMost(ss[i..]);
    t <= 1 || Terminated(ss[|ss| - t + 1..]) == 0
  }

  lemma {:induction false} TerminatedAtMost(ss: seq<Session>)
    ensures Terminated(ss) <= |ss|
  {
    if ss != [] {
      TerminatedAtMost(ss[1..]);
    }
  }

  lemma {:induction false} TerminatedLast(ss: seq<Session>, i: nat)
    requires i < |ss|
    ensures var n := |ss| - 1; Terminated(ss[i..]) == Terminated(ss[i..n]) + Flagged(ss[n])
  {
    var n := |ss| - 1;
    assert ss[i..] == ss[i..n] + [ss[n]];
    TerminatedSplit(ss[i..n], [ss[n]]);
    assert [ss[n]][1..] == [];
  }

  lemma {:induction false} TerminatedFirst(ss: seq<Session>, i: nat, j: nat)
    requires i < j <= |ss|
    ensures Terminated(ss[i..j]) == Flagged(ss[i]) + Terminated(ss[i + 1..j])
  {
    assert ss[i..j][1..] == ss[i + 1..j];
  }

  lemma {:induction false} EndPastLive(ss: seq<Session>, i: nat)
    requires i < |ss| && !ss[i].terminated
    ensures EndIsLive(ss, i) <==> EndIsLive(ss, i + 1)
  {
    assert ss[i..][1..] == ss[i + 1..];
  }

  /** A terminated session at the end is swapped in, and stays. */
  lemma {:induction false} EndNotLive(ss: seq<Session>, i: nat)
    requires i + 1 < |ss| && ss[i].terminated && ss[|ss| - 1].terminated
    ensures !EndIsLive(ss, i)
  {
    var n, t := |ss| - 1, Terminated(ss[i..]);
    TerminatedLast(ss, i);
    TerminatedFirst(ss, i, n);
    TerminatedAtMost(ss[i..]);
    TerminatedLast(ss, |ss| - t + 1);
  }

  lemma {:induction false} SwapCounts(ss: seq<Session>, i: nat)
    requires i + 1 < |ss| && ss[i].terminated && !ss[|ss| - 1].terminated
    ensures Terminated(SwapOut(ss, i)[i + 1..]) == Terminated(ss[i..]) - 1
  {
    TailOfSwap(ss, i, i + 1);
    TerminatedLast(ss, i);
    TerminatedFirst(ss, i, |ss| - 1);
  }

  lemma {:induction false} SwapKeepsEnd(ss: seq<Session>, i: nat, j: nat)
    requires i < j < |ss| && !ss[|ss| - 1].terminated
    ensures Terminated(SwapOut(ss, i)[j..]) == Terminated(ss[j..])
  {
    TailOfSwap(ss, i, j);
    TerminatedLast(ss, j);
  }

  /** A live session at the end is swapped in: one session and one terminated one are gone. */
  lemma {:induction false} EndPastSwap(ss: seq<Session>, i: nat)
    requires i + 1 < |ss| && ss[i].terminated && !ss[|ss| - 1].terminated
    ensures EndIsLive(ss, i) <==> EndIsLive(SwapOut(ss, i), i + 1)
  {
    var t, j := Terminated(ss[i..]), |ss| - Terminated(ss[i..]) + 1;
    SwapCounts(ss, i);
    TerminatedAtMost(SwapOut(ss, i)[i + 1..]);
    if t >= 2 {
      TerminatedAtMost(ss[i..]);
      SwapKeepsEnd(ss, i, j);
      assert t == 2 ==> SwapOut(ss, i)[j..] == [];
    }
  }

  lemma TailOfSwap(ss: seq<Session>, i: nat, j: nat)
    requires i < j < |ss|
    ensures SwapOut(ss, i)[j..] == ss[j..|ss| - 1]
  {
  }

  /** From position i on, a pass clears the list exactly under that condition. */
  ghost predicate ClearsFrom(ss: seq<Session>, r: seq<Session>, i: nat) {
    i <= |r| && i <= |ss| && r[..i] == ss[..i] && (Terminated(r[i..]) == 0 <==> EndIsLive(ss, i))
  }

  lemma {:induction false} ClearsPastLive(ss: seq<Session>, r: seq<Session>, i: nat)
    requires i < |ss| && !ss[i].terminated && ClearsFrom(ss, r, i + 1)
    ensures ClearsFrom(ss, r, i)
  {
    EndPastLive(ss, i);
    assert r[i] == r[..i + 1][i] == ss[i] && r[i..][1..] == r[i + 1..];
    assert r[..i] == r[..i + 1][..i] == ss[..i];
  }

  lemma {:induction false} ClearsPastSwap(ss: seq<Session>, r: seq<Session>, i: nat)
    requires i + 1 < |ss| && ss[i].terminated && ClearsFrom(SwapOut(ss, i), r, i + 1)
    ensures ClearsFrom(ss, r, i)
  {
    var n := |ss| - 1;
    assert r[i] == r[..i + 1][i] == ss[n] && r[i..][1..] == r[i + 1..];
    assert r[..i] == r[..i + 1][..i] == ss[..i];
    if ss[n].terminated {
      EndNotLive(ss, i);
    } else {
      EndPastSwap(ss, i);
    }
  }

  lemma {:induction false} ClearsAtEnd(ss: seq<Session>, i: nat)
    requires i + 1 == |ss|
    ensures ClearsFrom(ss, ss[..i], i)
  {
    TerminatedAtMost(ss[i..]);
    assert ss[..i][i..] == [];
  }

  lemma {:induction false} SweepClearsFrom(env: Env, st: State, i: nat)
    requires i <= |st.sessions|
    ensures ClearsFrom(st.sessions, Sweep(env, st, i).sessions, i)
    decreases |st.sessions| - i
  {
    if i < |st.sessions| {
      if !st.sessions[i].terminated {
        SweepClearsFrom(env, st, i + 1);
        ClearsPastLive(st.sessions, Sweep(env, st, i).sessions, i);
      } else if i + 1 < |st.sessions| {
        SweepClearsFrom(env, Release(env, st, i), i + 1);
        ClearsPastSwap(st.sessions, Sweep(env, st, i).sessions, i);
      } else {
        ClearsAtEnd(st.sessions, i);
        assert Sweep(env, st, i).sessions == st.sessions[..i];
      }
    }
  }

  /** One pass removes every terminated session if and only if there is at most one, or the
      last sessions, one fewer than there are terminated ones, are all live. */
  lemma {:induction false} PassClearsExactly(env: Env, st: State)
    ensures (forall s :: s in Sweep(env, st, 0).sessions ==> !s.terminated) <==>
            var t := Terminated(st.sessions);
            && t <= |st.sessions|
            && (t <= 1 || forall k :: |st.sessions| - t < k < |st.sessions| ==> !st.sessions[k].terminated)
  {
    var ss, r := st.sessions, Sweep(env, st, 0).sessions;
    var t := Terminated(ss);
    SweepClearsFrom(env, st, 0);
    NoneTerminated(r);
    assert ss[0..] == ss && r[0..] == r;
    TerminatedAtMost(ss);
    if t >= 2 {
      var last := ss[|ss| - t + 1..];
      NoneTerminated(last);
      assert forall k :: |ss| - t < k < |ss| ==> ss[k] == last[k - (|ss| - t + 1)];
      assert forall k :: 0 <= k < |last| ==> last[k] == ss[|ss| - t + 1 + k];
    }
  }

  // ------------------------------------------------------------------ on a run

  lemma NewPeer(env: Env, st: State, peer: string, e: Event)
    requires env.hash(peer) !in st.index && |st.sessions| < MAX_SESSIONS && st.pending == []
    requires e == Offer(peer, true, true)
    ensures var t := Step(env, st, e);
            && t.sessions == st.sessions + [Session(st.next, peer, false, [])] && t.pending == []
            && t.next == st.next + 1 && t.index == st.index[env.hash(peer) := st.next]
  {
    assert Without(st.pending, 0) == [];
  }

  lemma {:induction false} TwoSwept(env: Env, st: State, a: Session, b: Session)
    requires st.sessions == [a, b] && a.terminated && b.terminated
    ensures Terminated(st.sessions) == 2 && Terminated(Sweep(env, st, 0).sessions) == 1
  {
    var r := Release(env, st, 0);
    assert r.sessions == [b];
    assert Sweep(env, st, 0) == Sweep(env, r, 1) == r;
    assert [a, b][1..] == [b] && [b][1..] == [];
    assert Terminated([b]) == 1 && Terminated([a, b]) == 2;
  }

  /** Two peers connect, and both disconnect. */
  lemma {:induction false} TwoGone(env: Env) returns (trace: seq<Event>)
    requires env.hash("a") != env.hash("b")
    ensures var ss := Run(env, trace).sessions; |ss| == 2 && ss[0].terminated && ss[1].terminated
  {
    var a, b := Offer("a", true, true), Offer("b", true, true);
    trace := [] + [a] + [b] + [Terminate(0)] + [Terminate(1)];
    RunNext(env, [], a);
    NewPeer(env, EMPTY, "a", a);
    RunNext(env, [] + [a], b);
    NewPeer(env, Run(env, [] + [a]), "b", b);
    RunNext(env, [] + [a] + [b], Terminate(0));
    RunNext(env, [] + [a] + [b] + [Terminate(0)], Terminate(1));
  }

  /** The skip on a run, for any hash that tells two peers apart: both disconnect, and after
      the next cleanup pass one terminated session is still listed. */
  lemma {:induction false} PassCanSkip(env: Env, now: Time, expires: bool) returns (trace: seq<Event>)
    requires env.hash("a") != env.hash("b")
    ensures Terminated(Run(env, trace).sessions) == 2
    ensures Terminated(Run(env, trace + [Cleanup(now, expires)]).sessions) == 1
  {
    trace := TwoGone(env);
    var st := Run(env, trace);
    assert st.sessions == [st.sessions[0], st.sessions[1]];
    TwoSwept(env, st, st.sessions[0], st.sessions[1]);
    RunNext(env, trace, Cleanup(now, expires));
  }
}
