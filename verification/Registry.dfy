/** The master's session registry as a state machine: a bounded list of sessions, an index
    from client-id hash to session, and the queues of candidates that came too early. Every
    handler runs under one lock, so each event below is one atomic step. */
module Registry {

  const MAX_SESSIONS := 10
  const QUEUE_LIFETIME := 200_000_000
  const U64 := 0x1_0000_0000_0000_0000

  /** A 64-bit clock value, in units of 100 ns. */
  type Time = t: nat | t < U64
  type Hash = nat
  type Handle = nat
  type Message = string

  /** A session; `candidates` are the remote candidates handed to it, in order. */
  datatype Session = Session(handle: Handle, peer: string, terminated: bool, candidates: seq<Message>)

  datatype Queue = Queue(hash: Hash, createTime: Time, messages: seq<Message>)

  /** `freed` logs the sessions released, in the order of their release. */
  datatype State = State(sessions: seq<Session>, index: map<Hash, Handle>, pending: seq<Queue>,
                         next: Handle, freed: seq<Session>)

  /** What the state machine does not compute itself: the checksum of a client id, and
      whether a session takes a candidate. */
  datatype Env = Env(hash: string -> Hash, takes: (Handle, Message) -> bool)

  /** A cleanup pass comes to `expires` the pending queues unless a signaling call fails first. */
  datatype Event =
    | Offer(peer: string, created: bool, answered: bool)
    | Candidate(peer: string, message: Message, now: Time)
    | Terminate(handle: Handle)
    | Cleanup(now: Time, expires: bool)

  const EMPTY := State([], map[], [], 0, [])

  // ------------------------------------------------------------- pending queues

  predicate Expired(q: Queue, now: Time) {
    var end := q.createTime + QUEUE_LIFETIME;
    (if end < U64 then end else end - U64) < now  // the sum wraps around
  }

  function Unexpired(qs: seq<Queue>, now: Time): (r: seq<Queue>) {
    if qs == [] then []
    else (if Expired(qs[0], now) then [] else [qs[0]]) + Unexpired(qs[1..], now)
  }

  function OnlyExpired(qs: seq<Queue>, now: Time): (r: seq<Queue>) {
    if qs == [] then []
    else (if Expired(qs[0], now) then [qs[0]] else []) + OnlyExpired(qs[1..], now)
  }

  /** A queue survives exactly when it has not expired, and is released exactly when it has. */
  lemma {:induction false} ExpirySplits(qs: seq<Queue>, now: Time, q: Queue)
    ensures q in Unexpired(qs, now) <==> q in qs && !Expired(q, now)
    ensures q in OnlyExpired(qs, now) <==> q in qs && Expired(q, now)
    ensures multiset(qs) == multiset(Unexpired(qs, now)) + multiset(OnlyExpired(qs, now))
  {
    if qs != [] {
      assert qs == [qs[0]] + qs[1..];
      ExpirySplits(qs[1..], now, q);
    }
  }

  /** Some queues in the order in which they stand among others. */
  predicate Subsequence(a: seq<Queue>, b: seq<Queue>)
    decreases |b|
  {
    a == [] || (b != [] && ((a[0] == b[0] && Subsequence(a[1..], b[1..])) || Subsequence(a, b[1..])))
  }

  /** The surviving queues keep their relative order. */
  lemma {:induction false} ExpiryKeepsOrder(qs: seq<Queue>, now: Time)
    ensures Subsequence(Unexpired(qs, now), qs)
  {
    if qs != [] {
      ExpiryKeepsOrder(qs[1..], now);
      var rest := Unexpired(qs[1..], now);
      assert if Expired(qs[0], now) then Unexpired(qs, now) == rest else Unexpired(qs, now)[1..] == rest;
    }
  }

  /** The position of the first queue for a hash, or |qs|. */
  function Lookup(qs: seq<Queue>, h: Hash): (k: nat)
    ensures k <= |qs|
    ensures k < |qs| ==> qs[k].hash == h
    ensures forall i :: 0 <= i < k ==> qs[i].hash != h
  {
    if qs == [] || qs[0].hash == h then 0 else 1 + Lookup(qs[1..], h)
  }

  function Without(qs: seq<Queue>, k: nat): (r: seq<Queue>) {
    if k < |qs| then qs[..k] + qs[k + 1..] else qs
  }

  function Queued(qs: seq<Queue>, h: Hash): (r: seq<Message>) {
    var k := Lookup(qs, h);
    if k < |qs| then qs[k].messages else []
  }

  function Enqueued(qs: seq<Queue>, h: Hash, m: Message, now: Time): (r: seq<Queue>) {
    var k := Lookup(qs, h);
    if k < |qs| then qs[k := qs[k].(messages := qs[k].messages + [m])]
    else qs + [Queue(h, now, [m])]
  }

  // ------------------------------------------------------------------- sessions

  function HandedTo(ss: seq<Session>, handle: Handle, m: Message): (r: seq<Session>)
    ensures |r| == |ss|
    ensures forall i :: 0 <= i < |ss| ==>
              r[i] == if ss[i].handle == handle then ss[i].(candidates := ss[i].candidates + [m]) else ss[i]
  {
    seq(|ss|, i requires 0 <= i < |ss| =>
        if ss[i].handle == handle then ss[i].(candidates := ss[i].candidates + [m]) else ss[i])
  }

  function Marked(ss: seq<Session>, handle: Handle): (r: seq<Session>)
    ensures |r| == |ss|
    ensures forall i :: 0 <= i < |ss| ==>
              r[i] == if ss[i].handle == handle then ss[i].(terminated := true) else ss[i]
  {
    seq(|ss|, i requires 0 <= i < |ss| =>
        if ss[i].handle == handle then ss[i].(terminated := true) else ss[i])
  }

  /** Removal of element i: the last element takes its place. */
  function SwapOut(ss: seq<Session>, i: nat): (r: seq<Session>)
    requires i < |ss|
    ensures |r| == |ss| - 1
  {
    ss[i := ss[|ss| - 1]][..|ss| - 1]
  }

  function Release(env: Env, st: State, i: nat): (r: State)
    requires i < |st.sessions|
  {
    var s := st.sessions[i];
    st.(sessions := SwapOut(st.sessions, i), index := st.index - {env.hash(s.peer)}, freed := st.freed + [s])
  }

  /** The scan for terminated sessions from position i; the element swapped in is not looked at. */
  function Sweep(env: Env, st: State, i: nat): (r: State)
    decreases |st.sessions| - i
  {
    if i >= |st.sessions| then st
    else if st.sessions[i].terminated then Sweep(env, Release(env, st, i), i + 1)
    else Sweep(env, st, i + 1)
  }

  // ------------------------------------------------------------------ the steps

  /** The session refuses one of its early candidates. */
  predicate Refuses(env: Env, handle: Handle, ms: seq<Message>) {
    exists m :: m in ms && !env.takes(handle, m)
  }

  predicate Admits(env: Env, st: State, e: Event) {
    && e.Offer? && env.hash(e.peer) !in st.index && |st.sessions| < MAX_SESSIONS && e.created && e.answered
  }

  /** The one kind of event that leaves an index entry behind: an admitted offer whose
      early candidates are not all taken. */
  predicate Leaks(env: Env, st: State, e: Event) {
    Admits(env, st, e) && Refuses(env, st.next, Queued(st.pending, env.hash(e.peer)))
  }

  function OnOffer(env: Env, st: State, e: Event): (r: State)
    requires e.Offer?
  {
    var h := env.hash(e.peer);
    if h in st.index then st
    else if |st.sessions| == MAX_SESSIONS then st.(pending := Without(st.pending, Lookup(st.pending, h)))
    else if !e.created then st
    else
      var s := Session(st.next, e.peer, false, []);
      if !e.answered then st.(next := st.next + 1, freed := st.freed + [s])
      else
        var early := Queued(st.pending, h);
        var put := st.(next := st.next + 1, index := st.index[h := s.handle],
                       pending := Without(st.pending, Lookup(st.pending, h)));
        if Refuses(env, s.handle, early) then
          put.(freed := st.freed + [s.(candidates := Accepted(env, s.handle, early))])
        else put.(sessions := st.sessions + [s.(candidates := early)])
  }

  /** The candidates submitted up to and including the first that is refused. */
  function Accepted(env: Env, handle: Handle, ms: seq<Message>): (r: seq<Message>) {
    if ms == [] then [] else if env.takes(handle, ms[0]) then [ms[0]] + Accepted(env, handle, ms[1..]) else [ms[0]]
  }

  function OnCandidate(env: Env, st: State, e: Event): (r: State)
    requires e.Candidate?
  {
    var h := env.hash(e.peer);
    if h in st.index then st.(sessions := HandedTo(st.sessions, st.index[h], e.message))
    else st.(pending := Enqueued(st.pending, h, e.message, e.now))
  }

  function Step(env: Env, st: State, e: Event): (r: State) {
    match e
    case Offer(_, _, _) => OnOffer(env, st, e)
    case Candidate(_, _, _) => OnCandidate(env, st, e)
    case Terminate(handle) => st.(sessions := Marked(st.sessions, handle))
    case Cleanup(now, expires) =>
      var swept := Sweep(env, st, 0);
      if expires then swept.(pending := Unexpired(swept.pending, now)) else swept
  }

  function Run(env: Env, trace: seq<Event>): (r: State) {
    if trace == [] then EMPTY
    else Step(env, Run(env, trace[..|trace| - 1]), trace[|trace| - 1])
  }

  lemma {:induction false} RunNext(env: Env, trace: seq<Event>, e: Event)
    ensures Run(env, trace + [e]) == Step(env, Run(env, trace), e)
  {
    assert (trace + [e])[..|trace|] == trace;
  }
}
