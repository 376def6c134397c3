/** The registry as it runs: session objects shared between a fixed array and an index, a
    queue of pending-message queues, and loops that swap, dequeue and enqueue in place.
    Every handler refines the step of module Registry that it stands for. */
module SampleConfigurations {
  import opened Basics
  import opened Registry

  class SessionObject {
    const handle: Handle
    const peer: string
    var terminated: bool
    var candidates: seq<Message>

    constructor (handle: Handle, peer: string)
      ensures this.handle == handle && this.peer == peer && !terminated && candidates == []
    {
      this.handle, this.peer, terminated, candidates := handle, peer, false, [];
    }

    ghost function Value(): Session
      reads this
    {
      Session(handle, peer, terminated, candidates)
    }

    /** Hands one candidate to the session; the session may refuse it. */
    method AddCandidate(env: Env, m: Message) returns (taken: bool)
      modifies this`candidates
      ensures candidates == old(candidates) + [m] && taken == env.takes(handle, m)
    {
      candidates := candidates + [m];
      taken := env.takes(handle, m);
    }
  }

  /** The first i queues have been looked at: the rest stands before those kept. */
  ghost predicate Rotating(was: seq<Queue>, i: nat, now: Time, pending: seq<Queue>, kept: seq<Queue>,
                           released: seq<Queue>)
  {
    && i <= |was| && pending == was[i..] + kept
    && kept + Unexpired(was[i..], now) == Unexpired(was, now)
    && released + OnlyExpired(was[i..], now) == OnlyExpired(was, now)
  }

  lemma RotationStarts(was: seq<Queue>, now: Time)
    ensures Rotating(was, 0, now, was, [], [])
  {
    assert was[0..] == was;
  }

  lemma {:induction false} FilterStep(qs: seq<Queue>, i: nat, now: Time)
    requires i < |qs|
    ensures Unexpired(qs[i..], now) == (if Expired(qs[i], now) then [] else [qs[i]]) + Unexpired(qs[i + 1..], now)
    ensures OnlyExpired(qs[i..], now) == (if Expired(qs[i], now) then [qs[i]] else []) + OnlyExpired(qs[i + 1..], now)
  {
    assert qs[i..][1..] == qs[i + 1..];
  }

  lemma FrontOf(qs: seq<Queue>, i: nat, kept: seq<Queue>, pending: seq<Queue>)
    requires i < |qs| && pending == qs[i..] + kept
    ensures pending != [] && pending[0] == qs[i] && pending[1..] == qs[i + 1..] + kept
  {
  }

  /** One queue is dequeued, and goes back in unless it has expired. */
  lemma RotationGoesOn(was: seq<Queue>, i: nat, now: Time, pending: seq<Queue>, kept: seq<Queue>, released: seq<Queue>)
    requires i < |was| && Rotating(was, i, now, pending, kept, released)
    ensures pending != [] && pending[0] == was[i]
    ensures Expired(was[i], now) ==> Rotating(was, i + 1, now, pending[1..], kept, released + [was[i]])
    ensures !Expired(was[i], now) ==> Rotating(was, i + 1, now, pending[1..] + [was[i]], kept + [was[i]], released)
  {
    FilterStep(was, i, now);
    FrontOf(was, i, kept, pending);
    if Expired(was[i], now) {
      assert [] + Unexpired(was[i + 1..], now) == Unexpired(was[i + 1..], now);
      Regroup(released, [was[i]], OnlyExpired(was[i + 1..], now));
    } else {
      assert [] + OnlyExpired(was[i + 1..], now) == OnlyExpired(was[i + 1..], now);
      Regroup(kept, [was[i]], Unexpired(was[i + 1..], now));
      Regroup(was[i + 1..], kept, [was[i]]);
    }
  }

  lemma {:induction false} RotationEnds(was: seq<Queue>, now: Time, pending: seq<Queue>, kept: seq<Queue>,
                                        released: seq<Queue>)
    requires Rotating(was, |was|, now, pending, kept, released)
    ensures pending == Unexpired(was, now) && released == OnlyExpired(was, now)
  {
    assert was[|was|..] == [];
  }

  /** Submission stops with the first candidate that is refused. */
  lemma {:induction false} AcceptedUpTo(env: Env, handle: Handle, ms: seq<Message>, i: nat)
    requires i < |ms| && !env.takes(handle, ms[i]) && forall j :: 0 <= j < i ==> env.takes(handle, ms[j])
    ensures Accepted(env, handle, ms) == ms[..i + 1] && Refuses(env, handle, ms)
  {
    if i == 0 {
      assert ms[..1] == [ms[0]];
    } else {
      AcceptedUpTo(env, handle, ms[1..], i - 1);
      assert ms[..i + 1] == [ms[0]] + ms[1..][..i];
    }
    assert ms[i] in ms;
  }

  class SampleConfiguration {
    const env: Env
    const list: array<SessionObject?>
    var count: nat
    var index: map<Hash, SessionObject>
    var pending: seq<Queue>
    var next: Handle
    var freed: seq<Session>
    ghost var objects: set<SessionObject>

    ghost predicate Valid()
      reads this, list
    {
      && list.Length == MAX_SESSIONS && count <= MAX_SESSIONS
      && (forall i :: 0 <= i < count ==> list[i] != null && list[i] in objects)
      && (forall h :: h in index ==> index[h] in objects)
      && (forall o :: o in objects ==> o.handle < next)
      && (forall o, p :: o in objects && p in objects && o.handle == p.handle ==> o == p)
    }

    ghost function Sessions(): (ss: seq<Session>)
      requires Valid()
      reads this, list, objects
    {
      seq(count, i requires 0 <= i < count && Valid() reads this, list, objects => list[i].Value())
    }

    ghost function Handles(): (m: map<Hash, Handle>)
      reads this
    {
      map h | h in index :: index[h].handle
    }

    ghost function View(): (st: State)
      requires Valid()
      reads this, list, objects
    {
      State(Sessions(), Handles(), pending, next, freed)
    }

    constructor (env: Env)
      ensures Valid() && View() == EMPTY && this.env == env && fresh(list) && objects == {}
    {
      this.env := env;
      list := new SessionObject?[MAX_SESSIONS](_ => null);
      count, index, pending, next, freed := 0, map[], [], 0, [];
      objects := {};
    }

    /** Walks the pending queues for a hash, and takes the queue out on request; `at` is
        where it stood, or the number of queues when there is none. */
    method GetPendingQueue(h: Hash, remove: bool) returns (at: nat, q: Queue)
      modifies this`pending
      ensures at == Lookup(old(pending), h) && (at < |old(pending)| ==> q == old(pending)[at])
      ensures pending == if remove then Without(old(pending), at) else old(pending)
    {
      at, q := 0, Queue(h, 0, []);
      while at < |pending| && pending[at].hash != h
        invariant at <= |pending| && forall j :: 0 <= j < at ==> pending[j].hash != h
      {
        at := at + 1;
      }
      if at < |pending| {
        q := pending[at];
        if remove {
          pending := pending[..at] + pending[at + 1..];
        }
      }
    }

    /** Gives a new session its early candidates, stopping at the first one refused. */
    method SubmitPending(q: Queue, s: SessionObject) returns (ok: bool)
      requires s.candidates == []
      modifies s`candidates
      ensures ok == !Refuses(env, s.handle, q.messages)
      ensures s.candidates == if ok then q.messages else Accepted(env, s.handle, q.messages)
    {
      var ms := q.messages;
      for i := 0 to |ms|
        invariant s.candidates == ms[..i] && forall j :: 0 <= j < i ==> env.takes(s.handle, ms[j])
      {
        ok := s.AddCandidate(env, ms[i]);
        assert s.candidates == ms[..i + 1];
        if !ok {
          AcceptedUpTo(env, s.handle, ms, i);
          return;
        }
      }
      assert ms[..|ms|] == ms;
      ok := true;
    }

    method OnOffer(peer: string, created: bool, answered: bool)
      requires Valid()
      modifies this, list
      ensures Valid() && View() == Step(env, old(View()), Offer(peer, created, answered))
      ensures fresh(objects - old(objects))
    {
      ghost var before := View();
      var h := env.hash(peer);
      if h in index {
        return;
      }
      if count == list.Length {
        var at, queue := GetPendingQueue(h, true);
        assert Sessions() == before.sessions && Handles() == before.index;
        return;
      }
      if !created {
        return;
      }
      var s := CreateSession(peer);
      if !answered {
        FreeSession(s);
        return;
      }
      Admit(s, h);
    }

    method CreateSession(peer: string) returns (s: SessionObject)
      requires Valid()
      modifies this`next, this`objects
      ensures fresh(s) && s.handle == old(next) && s.Value() == Session(s.handle, peer, false, [])
      ensures Valid() && View() == old(View()).(next := old(next) + 1)
      ensures objects == old(objects) + {s} && s !in index.Values
      ensures forall i :: 0 <= i < count ==> list[i] != s
    {
      s := new SessionObject(next, peer);
      next := next + 1;
      objects := objects + {s};
      assert Sessions() == old(Sessions());
    }

    method FreeSession(s: SessionObject)
      requires Valid()
      modifies this`freed
      ensures Valid() && View() == old(View()).(freed := old(freed) + [s.Value()])
    {
      freed := freed + [Session(s.handle, s.peer, s.terminated, s.candidates)];
      assert Sessions() == old(Sessions());
    }

    /** Puts the session into the index, gives it its early candidates, and lists it. */
    method Admit(s: SessionObject, h: Hash)
      requires Valid() && s in objects && s.candidates == [] && count < MAX_SESSIONS
      requires forall i :: 0 <= i < count ==> list[i] != s
      modifies this`index, this`pending, this`count, this`freed, list, s`candidates
      ensures Valid()
      ensures var st := old(View());
              var early := Queued(st.pending, h);
              var put := st.(index := st.index[h := s.handle], pending := Without(st.pending, Lookup(st.pending, h)));
              var v := old(s.Value());
              View() == if Refuses(env, s.handle, early)
                        then put.(freed := st.freed + [v.(candidates := Accepted(env, s.handle, early))])
                        else put.(sessions := st.sessions + [v.(candidates := early)])
    {
      ghost var before := View();
      var ok := IndexAndSubmit(s, h);
      if !ok {
        FreeSession(s);
        return;
      }
      list[count] := s;
      count := count + 1;
      assert Sessions() == before.sessions + [s.Value()];
    }

    method IndexAndSubmit(s: SessionObject, h: Hash) returns (ok: bool)
      requires Valid() && s in objects && s.candidates == []
      requires forall i :: 0 <= i < count ==> list[i] != s
      modifies this`index, this`pending, s`candidates
      ensures Valid()
      ensures var st := old(View());
              View() == st.(index := st.index[h := s.handle], pending := Without(st.pending, Lookup(st.pending, h)))
      ensures var early := Queued(old(pending), h);
              && ok == !Refuses(env, s.handle, early)
              && s.candidates == if ok then early else Accepted(env, s.handle, early)
    {
      PutIndex(h, s);
      ghost var before := View();
      var size := |pending|;
      var at, queue := GetPendingQueue(h, true);
      ok := true;
      if at < size {
        ok := SubmitPending(queue, s);
      }
      assert Sessions() == before.sessions && Handles() == before.index;
    }

    method OnCandidate(peer: string, message: Message, now: Time)
      requires Valid()
      modifies this`pending, objects
      ensures Valid() && View() == Step(env, old(View()), Candidate(peer, message, now))
    {
      ghost var before := View();
      var h := env.hash(peer);
      if h in index {
        var taken := index[h].AddCandidate(env, message);
        assert Sessions() == HandedTo(before.sessions, index[h].handle, message);
        assert Handles() == before.index;
        return;
      }
      var at, queue := GetPendingQueue(h, false);
      if at == |pending| {
        pending := pending + [Queue(h, now, [])];
      }
      pending := pending[at := pending[at].(messages := pending[at].messages + [message])];
      assert Sessions() == before.sessions && Handles() == before.index;
      assert [] + [message] == [message];
      assert pending == Enqueued(before.pending, h, message, now);
    }

    method OnTerminate(s: SessionObject)
      requires Valid() && s in objects
      modifies s`terminated
      ensures Valid() && View() == Step(env, old(View()), Terminate(s.handle))
    {
      s.terminated := true;
      assert Sessions() == Marked(old(View()).sessions, s.handle);
    }

    /** The scan: a terminated session is replaced by the last one, and the scan moves on. */
    method SweepTerminated()
      requires Valid()
      modifies this, list
      ensures Valid() && View() == Sweep(env, old(View()), 0) && objects == old(objects)
    {
      var i := 0;
      while i < count
        invariant Valid() && objects == old(objects)
        invariant Sweep(env, View(), i) == Sweep(env, old(View()), 0)
        decreases count - i
      {
        if list[i].terminated {
          ReleaseAt(i);
        }
        i := i + 1;
      }
    }

    method SwapWithLast(i: nat)
      requires Valid() && i < count
      modifies this`count, list
      ensures Valid() && View() == old(View()).(sessions := SwapOut(old(View()).sessions, i))
    {
      ghost var before := View();
      count := count - 1;
      list[i] := list[count];
      assert Sessions() == SwapOut(before.sessions, i);
    }

    method RemoveIndex(h: Hash)
      requires Valid()
      modifies this`index
      ensures Valid() && View() == old(View()).(index := old(View()).index - {h})
    {
      ghost var before := View();
      if h in index {
        index := index - {h};
      }
      assert Sessions() == before.sessions && Handles() == before.index - {h};
    }

    method PutIndex(h: Hash, s: SessionObject)
      requires Valid() && s in objects
      modifies this`index
      ensures Valid() && View() == old(View()).(index := old(View()).index[h := s.handle])
    {
      ghost var before := View();
      index := index[h := s];
      assert Sessions() == before.sessions && Handles() == before.index[h := s.handle];
    }

    method ReleaseAt(i: nat)
      requires Valid() && i < count
      modifies this, list
      ensures Valid() && View() == Release(env, old(View()), i) && objects == old(objects)
    {
      var s := list[i];
      SwapWithLast(i);
      RemoveIndex(env.hash(s.peer));
      FreeSession(s);
    }

    /** Every queue is dequeued once; those still alive go back in at the end. */
    method RemoveExpired(now: Time) returns (released: seq<Queue>)
      requires Valid()
      modifies this`pending
      ensures pending == Unexpired(old(pending), now)
      ensures released == OnlyExpired(old(pending), now)
    {
      released := [];
      ghost var was, kept := pending, [];
      var n := |pending|;
      RotationStarts(was, now);
      for i := 0 to n
        invariant Rotating(was, i, now, pending, kept, released)
      {
        RotationGoesOn(was, i, now, pending, kept, released);
        var q := pending[0];
        pending := pending[1..];
        if Expired(q, now) {
          released := released + [q];
        } else {
          pending := pending + [q];
          kept := kept + [q];
        }
      }
      RotationEnds(was, now, pending, kept, released);
    }

    /** `reaches` says that the signaling calls between the scan and the expiry succeed. */
    method OnCleanup(now: Time, reaches: bool)
      requires Valid()
      modifies this, list
      ensures Valid() && View() == Step(env, old(View()), Cleanup(now, reaches))
    {
      SweepTerminated();
      if reaches {
        ghost var swept := View();
        var released := RemoveExpired(now);
        assert Sessions() == swept.sessions;
      }
    }
  }
}
