/** Sending and stopping on one HTTP client from any number of threads: a recursive request
    mutex around each `send`, and a socket mutex around every use of the in-flight fields.
    A section under the socket mutex is one atomic step; a run is any sequence of steps, and
    a step that its thread cannot take does nothing. */
module InFlight {
  import opened Basics

  type Thread = nat

  /** A call of `send` on a thread's stack: about to claim the socket, using it, or back from
      the attempt. `second` tells the retry from the first attempt. */
  datatype Call = Ready(second: bool) | Flying(second: bool) | Back(second: bool)

  /** `holder` and `depth` are the recursive request mutex; `failed` records that an
      assertion of the client did not hold when it was evaluated. */
  datatype Client = Client(
    holder: Option<Thread>,
    depth: nat,
    calls: map<Thread, seq<Call>>,
    inFlight: int,
    from: Option<Thread>,
    closeWhenDone: bool,
    open: bool,
    failed: bool
  )

  datatype Step =
    | Lock(t: Thread)                                       // enter `send`, at top level or from a redirect
    | Begin(t: Thread, alive: bool, connects: bool)         // claim the socket, or give up
    | CloseInside(t: Thread)                                // the response asked for the connection to close
    | End(t: Thread, closes: bool)                          // leave the attempt
    | Retry(t: Thread)
    | Unlock(t: Thread)                                     // leave `send`
    | Stop(t: Thread)

  const START := Client(None, 0, map[], 0, None, false, false, false)

  function Stack(c: Client, t: Thread): (s: seq<Call>) {
    if t in c.calls then c.calls[t] else []
  }

  function SetTop(c: Client, t: Thread, call: Call): (r: Client) {
    var s := Stack(c, t);
    if s == [] then c else c.(calls := c.calls[t := s[..|s| - 1] + [call]])
  }

  predicate IsReady(c: Client, t: Thread) {
    var s := Stack(c, t);
    s != [] && s[|s| - 1].Ready?
  }

  predicate IsFlying(c: Client, t: Thread) {
    var s := Stack(c, t);
    s != [] && s[|s| - 1].Flying?
  }

  predicate IsBack(c: Client, t: Thread) {
    var s := Stack(c, t);
    s != [] && s[|s| - 1].Back?
  }

  function Second(c: Client, t: Thread): (b: bool) {
    var s := Stack(c, t);
    s != [] && s[|s| - 1].second
  }

  /** Records the outcome of an assertion. */
  function Assert(c: Client, holds: bool): (r: Client) {
    c.(failed := c.failed || !holds)
  }

  /** Closing the socket, with the assertion that nobody else is using it. */
  function CloseSocket(c: Client, t: Thread): (r: Client) {
    Assert(c, c.inFlight == 0 || c.from == Some(t)).(open := false)
  }

  function Begun(c: Client, t: Thread, alive: bool, connects: bool): (r: Client) {
    var c0 := c.(closeWhenDone := false);
    var live := c.open && alive;
    var c1 := if c.open && !alive then CloseSocket(c0, t) else c0;
    if !live && !connects then SetTop(c1, t, Back(Second(c, t)))
    else
      var c2 := Assert(c1, c1.inFlight > 1 ==> c1.from == Some(t));
      SetTop(c2, t, Flying(Second(c, t))).(open := true, inFlight := c2.inFlight + 1, from := Some(t))
  }

  function Ended(c: Client, t: Thread, closes: bool): (r: Client) {
    var c1 := c.(inFlight := c.inFlight - 1);
    var c2 := if c1.inFlight <= 0 then Assert(c1, c1.inFlight == 0).(from := None) else c1;
    var c3 := if c2.closeWhenDone || closes then CloseSocket(c2, t) else c2;
    SetTop(c3, t, Back(Second(c, t)))
  }

  function Unlocked(c: Client, t: Thread): (r: Client) {
    var s := Stack(c, t);
    if s == [] || c.depth == 0 then c
    else c.(calls := c.calls[t := s[..|s| - 1]], depth := c.depth - 1,
            holder := if c.depth == 1 then None else c.holder)
  }

  function Apply(c: Client, step: Step): (r: Client) {
    match step
    case Lock(t) =>
      if (c.holder == None || c.holder == Some(t)) && (Stack(c, t) == [] || IsFlying(c, t)) then
        c.(holder := Some(t), depth := c.depth + 1, calls := c.calls[t := Stack(c, t) + [Ready(false)]])
      else c
    case Begin(t, alive, connects) => if IsReady(c, t) then Begun(c, t, alive, connects) else c
    case CloseInside(t) => if IsFlying(c, t) then CloseSocket(c, t) else c
    case End(t, closes) => if IsFlying(c, t) then Ended(c, t, closes) else c
    case Retry(t) => if IsBack(c, t) && !Second(c, t) then SetTop(c, t, Ready(true)) else c
    case Unlock(t) => if IsBack(c, t) then Unlocked(c, t) else c
    case Stop(t) => if c.inFlight > 0 then c.(closeWhenDone := true) else CloseSocket(c, t)
  }

  function RunOn(c: Client, steps: seq<Step>): (r: Client) {
    if steps == [] then c else Apply(RunOn(c, steps[..|steps| - 1]), steps[|steps| - 1])
  }

  function Run(steps: seq<Step>): (c: Client) {
    RunOn(START, steps)
  }

  // ---------------------------------------------------------------- invariant

  /** The calls of a thread that are using the socket: all but the last surely are. */
  function Flights(s: seq<Call>): (n: nat) {
    if s == [] then 0 else |s| - 1 + if s[|s| - 1].Flying? then 1 else 0
  }

  /** The request mutex, the stacks and the in-flight fields agree: only the holder has calls,
      every call under the top one is in flight, and the counter is their number. */
  ghost predicate Agrees(c: Client) {
    && (forall t :: t in c.calls && c.holder != Some(t) ==> c.calls[t] == [])
    && match c.holder
       case None => c.depth == 0 && c.inFlight == 0 && c.from == None
       case Some(t) =>
         var s := Stack(c, t);
         && 0 < c.depth == |s|
         && (forall i :: 0 <= i < |s| - 1 ==> s[i].Flying?)
         && c.inFlight == Flights(s)
         && c.from == if c.inFlight > 0 then Some(t) else None
  }

  lemma BeginAgrees(c: Client, t: Thread, alive: bool, connects: bool)
    requires Agrees(c) && !c.failed && IsReady(c, t)
    ensures Agrees(Begun(c, t, alive, connects)) && !Begun(c, t, alive, connects).failed
  {
    var d := Begun(c, t, alive, connects);
    var s := Stack(c, t);
    assert c.holder == Some(t);
    var top := if (c.open && alive) || connects then Flying(Second(c, t)) else Back(Second(c, t));
    assert Stack(d, t) == s[..|s| - 1] + [top];
  }

  lemma EndAgrees(c: Client, t: Thread, closes: bool)
    requires Agrees(c) && !c.failed && IsFlying(c, t)
    ensures Agrees(Ended(c, t, closes)) && !Ended(c, t, closes).failed
  {
    var s := Stack(c, t);
    assert c.holder == Some(t);
    assert Stack(Ended(c, t, closes), t) == s[..|s| - 1] + [Back(Second(c, t))];
  }

  lemma UnlockAgrees(c: Client, t: Thread)
    requires Agrees(c) && IsBack(c, t)
    ensures Agrees(Unlocked(c, t))
  {
    assert c.holder == Some(t);
    var s := Stack(c, t);
    assert Stack(Unlocked(c, t), t) == s[..|s| - 1];
  }

  lemma LockAgrees(c: Client, t: Thread)
    requires Agrees(c)
    ensures Agrees(Apply(c, Lock(t)))
  {
    var d := Apply(c, Lock(t));
    if d != c {
      assert Stack(d, t) == Stack(c, t) + [Ready(false)];
    }
  }

  lemma StepAgrees(c: Client, step: Step)
    requires Agrees(c) && !c.failed
    ensures Agrees(Apply(c, step)) && !Apply(c, step).failed
  {
    match step {
      case Lock(t) => LockAgrees(c, t);
      case Begin(t, alive, connects) => if IsReady(c, t) { BeginAgrees(c, t, alive, connects); }
      case End(t, closes) => if IsFlying(c, t) { EndAgrees(c, t, closes); }
      case Unlock(t) => if IsBack(c, t) { UnlockAgrees(c, t); }
      case CloseInside(t) => assert Stack(c, t) != [] ==> c.holder == Some(t);
      case Retry(t) =>
        if IsBack(c, t) && !Second(c, t) {
          var s := Stack(c, t);
          assert Stack(Apply(c, step), t) == s[..|s| - 1] + [Ready(true)];
        }
      case Stop(t) =>
    }
  }

  /** In every interleaving of sends, redirects that send again, and stops: the counter is the
      number of nested sends in flight on the one thread that holds the request mutex, that
      thread is the recorded one, and no assertion of the client ever fails. */
  lemma {:induction false} EveryRun(steps: seq<Step>)
    ensures Agrees(Run(steps)) && !Run(steps).failed
  {
    if steps != [] {
      EveryRun(steps[..|steps| - 1]);
      StepAgrees(Run(steps[..|steps| - 1]), steps[|steps| - 1]);
    }
  }

  /** What the assertions rule out: using or closing the connection of another thread's request, and
      ending more requests than were begun. */
  lemma MisuseIsCaught(c: Client, t: Thread)
    ensures c.inFlight > 0 && c.from != Some(t) && IsFlying(c, t) ==> Apply(c, CloseInside(t)).failed
    ensures c.inFlight > 1 && c.from != Some(t) && IsReady(c, t) ==> Apply(c, Begin(t, true, true)).failed
    ensures c.inFlight <= 0 && IsFlying(c, t) ==> Apply(c, End(t, false)).failed
  {
  }

  lemma ClosesOwn(c: Client, s: Step)
    requires Agrees(c) && c.open && !Apply(c, s).open
    ensures var d := Apply(c, s); d.inFlight == 0 || d.from == Some(s.t)
  {
    assert Stack(c, s.t) != [] ==> c.holder == Some(s.t);
  }

  /** The connection is never closed under a request of another thread: whichever step closes it,
      no request is in flight then, or those that are belong to the thread that took the step. */
  lemma {:induction false} ClosesSafely(steps: seq<Step>, s: Step)
    requires Run(steps).open && !Apply(Run(steps), s).open
    ensures var d := Apply(Run(steps), s); d.inFlight == 0 || d.from == Some(s.t)
  {
    EveryRun(steps);
    ClosesOwn(Run(steps), s);
  }

  // ----------------------------------------------------------------- attempts

  /** The attempts that the top call of a thread may still start. */
  function Chances(c: Client, t: Thread): (n: nat) {
    var s := Stack(c, t);
    if s == [] then 0 else (if Second(c, t) then 0 else 1) + if IsReady(c, t) then 1 else 0
  }

  function Tries(c: Client, t: Thread, more: seq<Step>): (n: nat) {
    if more == [] then 0 else
    var k := |more| - 1;
    Tries(c, t, more[..k]) + if more[k].Begin? && more[k].t == t && IsReady(RunOn(c, more[..k]), t) then 1 else 0
  }

  lemma TopSet(c: Client, t: Thread, call: Call, u: Thread)
    requires Stack(c, t) != []
    ensures var d := SetTop(c, t, call);
            if u == t then Second(d, u) == call.second && (IsReady(d, u) <==> call.Ready?) && Stack(d, u) != []
            else Stack(d, u) == Stack(c, u)
  {
  }

  lemma BegunTop(c: Client, t: Thread, alive: bool, connects: bool, u: Thread)
    requires IsReady(c, t)
    ensures var d := Begun(c, t, alive, connects);
            if u == t then Second(d, u) == Second(c, u) && !IsReady(d, u) && Stack(d, u) != []
            else Stack(d, u) == Stack(c, u)
  {
    TopSet(c, t, if (c.open && alive) || connects then Flying(Second(c, t)) else Back(Second(c, t)), u);
  }

  lemma EndedTop(c: Client, t: Thread, closes: bool, u: Thread)
    requires IsFlying(c, t)
    ensures var d := Ended(c, t, closes);
            if u == t then Second(d, u) == Second(c, u) && !IsReady(d, u) && Stack(d, u) != []
            else Stack(d, u) == Stack(c, u)
  {
    TopSet(c, t, Back(Second(c, t)), u);
  }

  lemma ChancesStep(c: Client, t: Thread, s: Step)
    requires s != Lock(t) && s != Unlock(t)
    ensures Chances(Apply(c, s), t) + (if s.Begin? && s.t == t && IsReady(c, t) then 1 else 0) <= Chances(c, t)
  {
    match s {
      case Begin(u, alive, connects) => if IsReady(c, u) { BegunTop(c, u, alive, connects, t); }
      case End(u, closes) => if IsFlying(c, u) { EndedTop(c, u, closes, t); }
      case Retry(u) => if IsBack(c, u) { TopSet(c, u, Ready(true), t); }
      case _ =>
    }
  }

  lemma {:induction false} TriesFit(c: Client, t: Thread, more: seq<Step>)
    requires Lock(t) !in more && Unlock(t) !in more
    ensures Chances(RunOn(c, more), t) + Tries(c, t, more) <= Chances(c, t)
  {
    if more != [] {
      var k := |more| - 1;
      assert more[k] in more && forall s :: s in more[..k] ==> s in more;
      TriesFit(c, t, more[..k]);
      ChancesStep(RunOn(c, more[..k]), t, more[k]);
    }
  }

  /** Between entering `send` and leaving it a call starts at most two attempts. */
  lemma {:induction false} AtMostTwoAttempts(c: Client, t: Thread, more: seq<Step>)
    requires Lock(t) !in more && Unlock(t) !in more
    ensures Tries(c, t, more) <= 2
  {
    TriesFit(c, t, more);
  }

  // --------------------------------------------------------------------- stop

  /** Step k starts an attempt: the one step that clears a stop on record. */
  predicate Claims(c: Client, more: seq<Step>, k: nat)
    requires k < |more|
  {
    more[k].Begin? && IsReady(RunOn(c, more[..k]), more[k].t)
  }

  /** Step k is a stop that finds a request in flight, and so goes on record. */
  predicate Records(c: Client, more: seq<Step>, k: nat)
    requires k < |more|
  {
    more[k].Stop? && RunOn(c, more[..k]).inFlight > 0
  }

  ghost predicate NoClaimFrom(c: Client, more: seq<Step>, k: nat) {
    forall j :: k <= j < |more| ==> !Claims(c, more, j)
  }

  /** A stop was on record or went on record, and no attempt has started since. */
  ghost predicate StopStands(c: Client, more: seq<Step>) {
    || (c.closeWhenDone && NoClaimFrom(c, more, 0))
    || (exists k :: 0 <= k < |more| && Records(c, more, k) && NoClaimFrom(c, more, k + 1))
  }

  lemma {:induction false} FlagStep(c: Client, s: Step)
    ensures Apply(c, s).closeWhenDone <==>
            || (s.Stop? && c.inFlight > 0)
            || (c.closeWhenDone && !(s.Begin? && IsReady(c, s.t)))
  {
  }

  lemma {:induction false} Earlier(c: Client, more: seq<Step>, k: nat)
    requires k + 1 < |more|
    ensures var before := more[..|more| - 1];
            (Claims(c, before, k) <==> Claims(c, more, k)) && (Records(c, before, k) <==> Records(c, more, k))
  {
    assert more[..|more| - 1][..k] == more[..k];
  }

  lemma {:induction false} NoClaimBefore(c: Client, more: seq<Step>, k: nat)
    requires k < |more|
    ensures NoClaimFrom(c, more, k) <==> NoClaimFrom(c, more[..|more| - 1], k) && !Claims(c, more, |more| - 1)
  {
    var n := |more| - 1;
    forall j | k <= j < n
      ensures Claims(c, more[..n], j) <==> Claims(c, more, j)
    {
      Earlier(c, more, j);
    }
  }

  lemma {:induction false} StandsStep(c: Client, more: seq<Step>)
    requires more != []
    ensures var n := |more| - 1;
            StopStands(c, more) <==> Records(c, more, n) || (StopStands(c, more[..n]) && !Claims(c, more, n))
  {
    var n := |more| - 1;
    NoClaimBefore(c, more, 0);
    if StopStands(c, more) && !(c.closeWhenDone && NoClaimFrom(c, more, 0)) && !Records(c, more, n) {
      var k :| 0 <= k < |more| && Records(c, more, k) && NoClaimFrom(c, more, k + 1);
      Earlier(c, more, k);
      NoClaimBefore(c, more, k + 1);
    }
    if StopStands(c, more[..n]) && !Claims(c, more, n) && !(c.closeWhenDone && NoClaimFrom(c, more[..n], 0)) {
      var k :| 0 <= k < n && Records(c, more[..n], k) && NoClaimFrom(c, more[..n], k + 1);
      Earlier(c, more, k);
      NoClaimBefore(c, more, k + 1);
    }
    assert Records(c, more, n) ==> NoClaimFrom(c, more, n + 1);
  }

  /** In every run a stop is on record if and only if some stop went on record and no attempt
      has started since. */
  lemma {:induction false} StopStandsExactly(c: Client, more: seq<Step>)
    ensures RunOn(c, more).closeWhenDone <==> StopStands(c, more)
  {
    if more != [] {
      var n := |more| - 1;
      StopStandsExactly(c, more[..n]);
      FlagStep(RunOn(c, more[..n]), more[n]);
      StandsStep(c, more);
    }
  }

  /** The end of a request closes the connection if and only if it asks to itself, the
      connection is closed already, or a stop still stands. */
  lemma {:induction false} EndCloses(c: Client, more: seq<Step>, t: Thread, closes: bool)
    requires IsFlying(RunOn(c, more), t)
    ensures !Apply(RunOn(c, more), End(t, closes)).open <==>
            closes || !RunOn(c, more).open || StopStands(c, more)
  {
    StopStandsExactly(c, more);
  }

  /** A stop came when `n` requests were in flight: the connection is closed once fewer are, and
      at once when there were none. */
  predicate Stopping(d: Client, n: int) {
    && 0 <= d.inFlight <= n && (d.inFlight > 0 ==> d.closeWhenDone)
    && (d.inFlight < n || n == 0 ==> !d.open)
  }

  lemma StoppingStep(d: Client, s: Step, n: int)
    requires Agrees(d) && Stopping(d, n) && !(s.Begin? && IsReady(d, s.t))
    ensures Stopping(Apply(d, s), n)
  {
    if s.End? && IsFlying(d, s.t) {
      assert d.holder == Some(s.t);
    }
  }

  /** After a stop, in every continuation in which no attempt starts, the connection is closed as
      soon as no request is in flight, or fewer are than at the stop. */
  lemma {:induction false} StopClosesWhenDone(c: Client, t: Thread, more: seq<Step>)
    requires Agrees(c) && !c.failed && NoClaimFrom(Apply(c, Stop(t)), more, 0)
    ensures var d := RunOn(Apply(c, Stop(t)), more);
            && Agrees(d) && !d.failed && Stopping(d, c.inFlight)
            && (d.inFlight == 0 || d.inFlight < c.inFlight ==> !d.open)
  {
    StepAgrees(c, Stop(t));
    if more != [] {
      var n, d := |more| - 1, Apply(c, Stop(t));
      NoClaimBefore(d, more, 0);
      StopClosesWhenDone(c, t, more[..n]);
      StoppingStep(RunOn(d, more[..n]), more[n], c.inFlight);
      StepAgrees(RunOn(d, more[..n]), more[n]);
    } else {
      assert c.holder.Some? ==> c.inFlight == Flights(Stack(c, c.holder.value));
    }
  }

  /** The same from every reachable state. */
  lemma {:induction false} StopTakesEffect(steps: seq<Step>, t: Thread, more: seq<Step>)
    requires NoClaimFrom(Apply(Run(steps), Stop(t)), more, 0)
    ensures var d := RunOn(Apply(Run(steps), Stop(t)), more);
            d.inFlight == 0 || d.inFlight < Run(steps).inFlight ==> !d.open
  {
    EveryRun(steps);
    StopClosesWhenDone(Run(steps), t, more);
  }

  lemma ClosedStep(d: Client, s: Step)
    requires !d.open && !(s.Begin? && IsReady(d, s.t))
    ensures !Apply(d, s).open
  {
  }

  /** A closed connection stays closed until an attempt starts. */
  lemma {:induction false} ClosedStays(c: Client, more: seq<Step>)
    requires !c.open && NoClaimFrom(c, more, 0)
    ensures !RunOn(c, more).open
  {
    if more != [] {
      var n := |more| - 1;
      NoClaimBefore(c, more, 0);
      ClosedStays(c, more[..n]);
      ClosedStep(RunOn(c, more[..n]), more[n]);
    }
  }

  /** So a response that asks for the connection to be closed closes it, until then. */
  lemma {:induction false} CloseTakesEffect(c: Client, t: Thread, more: seq<Step>)
    requires IsFlying(c, t) && NoClaimFrom(Apply(c, CloseInside(t)), more, 0)
    ensures !RunOn(Apply(c, CloseInside(t)), more).open
  {
    ClosedStays(Apply(c, CloseInside(t)), more);
  }

  // ------------------------------------------------------------------ a request

  /** A client that no thread is using. */
  ghost predicate AtRest(c: Client) {
    Agrees(c) && !c.failed && c.holder == None
  }

  /** The state once thread t holds the request mutex for its only call. */
  function Entered(c: Client, t: Thread, call: Call): (r: Client) {
    c.(holder := Some(t), depth := 1, calls := c.calls[t := [call]])
  }

  lemma Enters(c: Client, t: Thread)
    requires AtRest(c)
    ensures Apply(c, Lock(t)) == Entered(c, t, Ready(false))
  {
    assert Stack(c, t) == [] && [] + [Ready(false)] == [Ready(false)];
  }

  lemma SetTwice(m: map<Thread, seq<Call>>, t: Thread, a: seq<Call>, b: seq<Call>)
    ensures m[t := a][t := b] == m[t := b]
  {
  }

  lemma Attempts(c: Client, t: Thread, second: bool, alive: bool)
    requires AtRest(c)
    ensures Apply(Entered(c, t, Ready(second)), Begin(t, alive, true)) == Busy(c, t, second)
  {
    SetTwice(c.calls, t, [Ready(second)], [Flying(second)]);
    assert [Ready(second)][..0] + [Flying(second)] == [Flying(second)];
  }

  /** The state while the only call is using the socket. */
  function Busy(c: Client, t: Thread, second: bool): (r: Client) {
    Entered(c, t, Flying(second)).(open := true, inFlight := 1, from := Some(t), closeWhenDone := false)
  }

  lemma FailsOnce(c: Client, t: Thread)
    requires AtRest(c)
    ensures Apply(Entered(c, t, Ready(false)), Begin(t, false, false)) ==
            Entered(c, t, Back(false)).(open := false, closeWhenDone := false)
  {
    SetTwice(c.calls, t, [Ready(false)], [Back(false)]);
    assert [Ready(false)][..0] + [Back(false)] == [Back(false)];
  }

  lemma TriesAgain(c: Client, t: Thread)
    requires AtRest(c)
    ensures Apply(Entered(c, t, Back(false)), Retry(t)) == Entered(c, t, Ready(true))
  {
    SetTwice(c.calls, t, [Back(false)], [Ready(true)]);
    assert [Back(false)][..0] + [Ready(true)] == [Ready(true)];
  }

  lemma Fails(c: Client, t: Thread)
    requires AtRest(c)
    ensures Apply(Apply(Entered(c, t, Ready(false)), Begin(t, false, false)), Retry(t)) ==
            Entered(c, t, Ready(true)).(open := false, closeWhenDone := false)
  {
    FailsOnce(c, t);
    TriesAgain(c.(open := false, closeWhenDone := false), t);
  }

  lemma EndsOnce(c: Client, t: Thread, second: bool, closes: bool)
    requires AtRest(c)
    ensures Apply(Busy(c, t, second), End(t, closes)) ==
            Entered(c, t, Back(second)).(open := !closes, closeWhenDone := false)
  {
    SetTwice(c.calls, t, [Flying(second)], [Back(second)]);
    assert [Flying(second)][..0] + [Back(second)] == [Back(second)];
  }

  lemma Unlocks(c: Client, t: Thread, second: bool)
    requires AtRest(c)
    ensures Apply(Entered(c, t, Back(second)), Unlock(t)) == c.(calls := c.calls[t := []])
  {
    SetTwice(c.calls, t, [Back(second)], []);
    assert [Back(second)][..0] == [];
  }

  lemma Leaves(c: Client, t: Thread, second: bool, closes: bool)
    requires AtRest(c)
    ensures Apply(Apply(Busy(c, t, second), End(t, closes)), Unlock(t)) ==
            c.(calls := c.calls[t := []], open := !closes, closeWhenDone := false)
  {
    EndsOnce(c, t, second, closes);
    Unlocks(c.(open := !closes, closeWhenDone := false), t, second);
  }

  /** A request on a client at rest goes through and leaves the client at rest, with the connection
      open unless it asked to close it; also when only the second attempt connects. */
  lemma {:induction false} RequestRuns(c: Client, t: Thread, alive: bool, closes: bool)
    requires AtRest(c)
    ensures RunOn(c, [Lock(t), Begin(t, alive, true), End(t, closes), Unlock(t)]) ==
            c.(calls := c.calls[t := []], open := !closes, closeWhenDone := false)
  {
    Enters(c, t);
    Attempts(c, t, false, alive);
    Leaves(c, t, false, closes);
    FourSteps(c, Lock(t), Begin(t, alive, true), End(t, closes), Unlock(t));
  }

  lemma {:induction false} SecondAttemptRuns(c: Client, t: Thread, alive: bool, closes: bool)
    requires AtRest(c)
    ensures var first := [Lock(t), Begin(t, false, false), Retry(t)];
            RunOn(c, first + [Begin(t, alive, true), End(t, closes), Unlock(t)]) ==
            c.(calls := c.calls[t := []], open := !closes, closeWhenDone := false)
  {
    var f := c.(open := false, closeWhenDone := false);
    var b, e, u := Begin(t, alive, true), End(t, closes), Unlock(t);
    Enters(c, t);
    Fails(c, t);
    Attempts(f, t, true, alive);
    Leaves(f, t, true, closes);
    ThreeSteps(c, Lock(t), Begin(t, false, false), Retry(t), [b, e, u]);
    ThreeSteps(Entered(f, t, Ready(true)), b, e, u, []);
    assert [b, e, u] + [] == [b, e, u];
  }

  lemma {:induction false} ThreeSteps(c: Client, p: Step, q: Step, r: Step, rest: seq<Step>)
    ensures RunOn(c, [p, q, r] + rest) == RunOn(Apply(Apply(Apply(c, p), q), r), rest)
    decreases |rest|
  {
    if rest == [] {
      assert [p, q, r] + rest == [p, q, r];
      assert [p, q, r][..2] == [p, q] && [p, q][..1] == [p] && [p][..0] == [];
      assert RunOn(c, [p]) == Apply(RunOn(c, []), p);
      assert RunOn(c, [p, q]) == Apply(RunOn(c, [p]), q);
    } else {
      var n := |rest| - 1;
      ThreeSteps(c, p, q, r, rest[..n]);
      assert ([p, q, r] + rest)[..3 + n] == [p, q, r] + rest[..n];
    }
  }

  /** The state once a redirect has sent again from a call in flight, and claimed the socket. */
  function Nested(c: Client, t: Thread): (r: Client) {
    c.(depth := c.depth + 1, calls := c.calls[t := Stack(c, t) + [Flying(false)]],
       inFlight := c.inFlight + 1, closeWhenDone := false, open := true)
  }

  lemma NestedBegins(c: Client, t: Thread)
    requires Agrees(c) && !c.failed && IsFlying(c, t)
    ensures Apply(Apply(c, Lock(t)), Begin(t, false, true)) == Nested(c, t)
  {
    var s := Stack(c, t);
    var locked := Apply(c, Lock(t));
    assert c.holder == Some(t);
    assert Stack(locked, t) == s + [Ready(false)] && (s + [Ready(false)])[..|s|] == s;
  }

  lemma NestedEnds(c: Client, t: Thread)
    requires Agrees(c) && IsFlying(c, t)
    ensures Apply(Apply(Nested(c, t), End(t, false)), Unlock(t)) == c.(closeWhenDone := false, open := true)
  {
    var s := Stack(c, t);
    var ended := Apply(Nested(c, t), End(t, false));
    assert c.holder == Some(t) && c.calls[t] == s;
    assert (s + [Flying(false)])[..|s|] == s;
    assert Stack(ended, t) == s + [Back(false)] && (s + [Back(false)])[..|s|] == s;
    assert c.calls[t := s] == c.calls;
  }

  /** A redirect that sends again does claim it first: whatever stop was on record is
      forgotten, and the outer request goes on with an open connection. */
  lemma RedirectForgetsStop(c: Client, t: Thread, other: Thread)
    requires Agrees(c) && !c.failed && IsFlying(c, t)
    ensures var d := RunOn(Apply(c, Stop(other)), [Lock(t), Begin(t, false, true), End(t, false), Unlock(t)]);
            d == c.(closeWhenDone := false, open := true)
  {
    var c0 := Apply(c, Stop(other));
    assert c.holder == Some(t) && c.inFlight > 0;
    NestedBegins(c0, t);
    NestedEnds(c0, t);
    FourSteps(c0, Lock(t), Begin(t, false, true), End(t, false), Unlock(t));
  }

  lemma {:induction false} FourSteps(c: Client, p: Step, q: Step, r: Step, s: Step)
    ensures RunOn(c, [p, q, r, s]) == Apply(Apply(Apply(Apply(c, p), q), r), s)
  {
    assert [p, q, r, s][..3] == [p, q, r] && [p, q, r][..2] == [p, q] && [p, q][..1] == [p];
    assert RunOn(c, [p]) == Apply(c, p);
    assert RunOn(c, [p, q]) == Apply(RunOn(c, [p]), q);
    assert RunOn(c, [p, q, r]) == Apply(RunOn(c, [p, q]), r);
  }
}
