/** The worker pool of the HTTP server: a job list and a shutdown flag under one mutex, and
    workers that sleep on a condition variable. Each critical section is one atomic step;
    a run is any sequence of steps, and a step that is not enabled does nothing. */
module ThreadPool {

  type Job = nat

  /** `Busy(k)` is running the k-th job that was taken. */
  datatype Worker = Awake | Asleep | Busy(k: nat) | Exited

  /** `accepted` and `taken` log the jobs in the order they were queued and dequeued; `ran`
      logs the positions of the finished ones. `notices` counts the calls of `enqueue` that
      have left the mutex but not yet notified. */
  datatype Pool = Pool(
    limit: nat,
    workers: seq<Worker>,
    jobs: seq<Job>,
    shutdown: bool,
    notified: bool,
    returned: bool,
    notices: nat,
    accepted: seq<Job>,
    taken: seq<Job>,
    ran: seq<nat>,
    atShutdown: nat
  )

  datatype Step =
    | Enqueue(job: Job)
    | NotifyOne(sleeper: nat)
    | Check(worker: nat)
    | Finish(worker: nat)
    | SpuriousWake(worker: nat)
    | SetShutdown
    | NotifyAll
    | JoinAll

  function Start(n: nat, limit: nat): (p: Pool) {
    Pool(limit, seq(n, _ => Awake), [], false, false, false, 0, [], [], [], 0)
  }

  predicate Is(p: Pool, i: nat, w: Worker) {
    i < |p.workers| && p.workers[i] == w
  }

  predicate Full(p: Pool) {
    p.limit > 0 && |p.jobs| >= p.limit
  }

  predicate AllExited(p: Pool) {
    forall i :: 0 <= i < |p.workers| ==> p.workers[i] == Exited
  }

  /** What a worker does with the mutex held: take the first job, leave, or go to sleep. */
  function Checked(p: Pool, i: nat): (r: Pool)
    requires i < |p.workers|
  {
    if p.jobs != [] then
      p.(workers := p.workers[i := Busy(|p.taken|)], jobs := p.jobs[1..], taken := p.taken + [p.jobs[0]])
    else if p.shutdown then p.(workers := p.workers[i := Exited])
    else p.(workers := p.workers[i := Asleep])
  }

  function Woken(ws: seq<Worker>): (r: seq<Worker>)
    ensures |r| == |ws|
    ensures forall i :: 0 <= i < |ws| ==> r[i] == if ws[i] == Asleep then Awake else ws[i]
  {
    seq(|ws|, i requires 0 <= i < |ws| => if ws[i] == Asleep then Awake else ws[i])
  }

  function Apply(p: Pool, s: Step): (r: Pool) {
    match s
    case Enqueue(job) =>
      if Full(p) then p
      else p.(jobs := p.jobs + [job], accepted := p.accepted + [job], notices := p.notices + 1)
    case NotifyOne(i) =>
      if p.notices == 0 then p
      else if Is(p, i, Asleep) then p.(notices := p.notices - 1, workers := p.workers[i := Awake])
      else if Asleep in p.workers then p  // a notification wakes someone when anyone sleeps
      else p.(notices := p.notices - 1)
    case Check(i) => if Is(p, i, Awake) then Checked(p, i) else p
    case Finish(i) =>
      if i < |p.workers| && p.workers[i].Busy? then
        p.(workers := p.workers[i := Awake], ran := p.ran + [p.workers[i].k])
      else p
    case SpuriousWake(i) => if Is(p, i, Asleep) then p.(workers := p.workers[i := Awake]) else p
    case SetShutdown => if p.shutdown then p else p.(shutdown := true, atShutdown := |p.accepted|)
    case NotifyAll => if p.shutdown then p.(notified := true, workers := Woken(p.workers)) else p
    case JoinAll => if p.notified && AllExited(p) then p.(returned := true) else p
  }

  function Run(p: Pool, steps: seq<Step>): (r: Pool) {
    if steps == [] then p else Apply(Run(p, steps[..|steps| - 1]), steps[|steps| - 1])
  }

  // ---------------------------------------------------------------- counting

  function Times(ran: seq<nat>, k: nat): (n: nat) {
    if ran == [] then 0 else Times(ran[..|ran| - 1], k) + if ran[|ran| - 1] == k then 1 else 0
  }

  function Holders(ws: seq<Worker>, k: nat): (n: nat) {
    if ws == [] then 0 else Holders(ws[..|ws| - 1], k) + if ws[|ws| - 1] == Busy(k) then 1 else 0
  }

  lemma {:induction false} HoldersUpdate(ws: seq<Worker>, i: nat, w: Worker, k: nat)
    requires i < |ws|
    ensures Holders(ws[i := w], k) ==
            Holders(ws, k) + (if w == Busy(k) then 1 else 0) - if ws[i] == Busy(k) then 1 else 0
  {
    var n := |ws| - 1;
    if i == n {
      assert ws[i := w][..n] == ws[..n];
    } else {
      assert ws[i := w][..n] == ws[..n][i := w];
      HoldersUpdate(ws[..n], i, w, k);
    }
  }

  lemma {:induction false} HoldersSame(a: seq<Worker>, b: seq<Worker>, k: nat)
    requires |a| == |b| && forall i :: 0 <= i < |a| ==> (a[i] == Busy(k) <==> b[i] == Busy(k))
    ensures Holders(a, k) == Holders(b, k)
  {
    if a != [] {
      HoldersSame(a[..|a| - 1], b[..|b| - 1], k);
    }
  }

  lemma {:induction false} HoldersNone(ws: seq<Worker>, k: nat)
    requires forall i :: 0 <= i < |ws| ==> !ws[i].Busy?
    ensures Holders(ws, k) == 0
  {
    if ws != [] {
      HoldersNone(ws[..|ws| - 1], k);
    }
  }

  // --------------------------------------------------------------- invariants

  /** Taken in the order accepted, within the limit, and drained before anyone leaves. */
  ghost predicate Orderly(p: Pool) {
    && p.accepted == p.taken + p.jobs
    && (p.limit > 0 ==> |p.jobs| <= p.limit)
    && (p.shutdown ==> p.atShutdown <= |p.accepted|)
    && (Exited in p.workers ==> p.shutdown && p.atShutdown <= |p.taken|)
    && (p.notified ==> p.shutdown && Asleep !in p.workers)
    && (p.returned ==> AllExited(p))
  }

  predicate Up(w: Worker) {
    w.Awake? || w.Busy?
  }

  /** Waiting jobs have a worker that is up, or a notification on its way. */
  ghost predicate Attended(p: Pool) {
    p.jobs != [] && !p.shutdown && p.workers != [] ==>
      p.notices > 0 || exists i :: 0 <= i < |p.workers| && Up(p.workers[i])
  }

  /** A job that was taken is being run by one worker, or has been run, never both. */
  ghost predicate Once(p: Pool, k: nat) {
    Holders(p.workers, k) + Times(p.ran, k) == if k < |p.taken| then 1 else 0
  }

  lemma StepOrderly(p: Pool, s: Step)
    requires Orderly(p)
    ensures Orderly(Apply(p, s))
  {
    var q := Apply(p, s);
    match s {
      case NotifyAll =>
        assert forall i :: 0 <= i < |p.workers| && q.workers[i] == Exited ==> p.workers[i] == Exited;
      case Check(i) => CheckOrderly(p, i);
      case Finish(i) => WakeOrderly(p, i, q);
      case SpuriousWake(i) => WakeOrderly(p, i, q);
      case NotifyOne(i) => WakeOrderly(p, i, q);
      case _ =>
    }
  }

  lemma CheckOrderly(p: Pool, i: nat)
    requires Orderly(p)
    ensures Orderly(Apply(p, Check(i)))
  {
    if Is(p, i, Awake) {
      var q := Checked(p, i);
      assert forall j :: 0 <= j < |p.workers| && j != i ==> q.workers[j] == p.workers[j];
      assert p.workers[i] == Awake;
      if p.jobs != [] {
        assert p.jobs == [p.jobs[0]] + p.jobs[1..];
      }
    }
  }

  /** A worker comes up; nothing else that matters for the order changes. */
  lemma WakeOrderly(p: Pool, i: nat, q: Pool)
    requires Orderly(p)
    requires q.(notices := p.notices, ran := p.ran) == p ||
             (i < |p.workers| && p.workers[i] != Exited &&
              q.(notices := p.notices, ran := p.ran) == p.(workers := p.workers[i := Awake]))
    ensures Orderly(q)
  {
    assert forall j :: 0 <= j < |p.workers| ==> q.workers[j] == p.workers[j] || q.workers[j] == Awake;
  }

  lemma StepAttended(p: Pool, s: Step)
    requires Orderly(p) && Attended(p)
    ensures Attended(Apply(p, s))
  {
    var q := Apply(p, s);
    if q.jobs != [] && !q.shutdown && q.workers != [] && q.notices == 0 {
      match s {
        case NotifyOne(i) =>
          if p.notices > 0 {
            assert Is(p, i, Asleep) ==> Up(q.workers[i]);
            assert p.workers[0] in p.workers;
            assert !Is(p, i, Asleep) ==> Up(q.workers[0]);
          }
        case Check(i) => assert Is(p, i, Awake) ==> Up(q.workers[i]);
        case Finish(i) => assert q != p ==> Up(q.workers[i]);
        case SpuriousWake(i) => assert q != p ==> Up(q.workers[i]);
        case _ =>
      }
    }
  }

  lemma StepOnce(p: Pool, s: Step, k: nat)
    requires Once(p, k)
    ensures Once(Apply(p, s), k)
  {
    match s {
      case NotifyAll => HoldersSame(p.workers, Woken(p.workers), k);
      case Check(i) => CheckOnce(p, i, k);
      case Finish(i) => FinishOnce(p, i, k);
      case SpuriousWake(i) => if Is(p, i, Asleep) { HoldersUpdate(p.workers, i, Awake, k); }
      case NotifyOne(i) => if Is(p, i, Asleep) { HoldersUpdate(p.workers, i, Awake, k); }
      case _ =>
    }
  }

  lemma CheckOnce(p: Pool, i: nat, k: nat)
    requires Once(p, k)
    ensures Once(Apply(p, Check(i)), k)
  {
    if Is(p, i, Awake) {
      HoldersUpdate(p.workers, i, Checked(p, i).workers[i], k);
    }
  }

  lemma FinishOnce(p: Pool, i: nat, k: nat)
    requires Once(p, k)
    ensures Once(Apply(p, Finish(i)), k)
  {
    if i < |p.workers| && p.workers[i].Busy? {
      HoldersUpdate(p.workers, i, Awake, k);
      assert (p.ran + [p.workers[i].k])[..|p.ran|] == p.ran;
    }
  }

  ghost predicate Sound(p: Pool, n: nat, limit: nat, k: nat) {
    Orderly(p) && Attended(p) && Once(p, k) && |p.workers| == n && p.limit == limit
  }

  lemma StepSound(p: Pool, s: Step, n: nat, limit: nat, k: nat)
    requires Sound(p, n, limit, k)
    ensures Sound(Apply(p, s), n, limit, k)
  {
    StepOrderly(p, s);
    StepAttended(p, s);
    StepOnce(p, s, k);
    StepShape(p, s);
  }

  lemma StepShape(p: Pool, s: Step)
    ensures |Apply(p, s).workers| == |p.workers| && Apply(p, s).limit == p.limit
  {
  }

  lemma {:induction false} EveryRun(n: nat, limit: nat, steps: seq<Step>, k: nat)
    ensures Sound(Run(Start(n, limit), steps), n, limit, k)
  {
    if steps == [] {
      HoldersNone(Start(n, limit).workers, k);
    } else {
      var before := steps[..|steps| - 1];
      EveryRun(n, limit, before, k);
      StepSound(Run(Start(n, limit), before), steps[|steps| - 1], n, limit, k);
    }
  }

  /** In every interleaving jobs are taken in the order they were accepted, and a positive
      limit on the queue is never exceeded. */
  lemma {:induction false} TakenInOrder(n: nat, limit: nat, steps: seq<Step>)
    ensures var p := Run(Start(n, limit), steps);
            p.taken <= p.accepted && (limit > 0 ==> |p.accepted| - |p.taken| <= limit)
  {
    EveryRun(n, limit, steps, 0);
  }

  /** In every interleaving with at least one worker, each job accepted before shutdown has
      been run exactly once by the time shutdown returns. */
  lemma {:induction false} DrainedExactlyOnce(n: nat, limit: nat, steps: seq<Step>, k: nat)
    requires n > 0
    ensures var p := Run(Start(n, limit), steps);
            p.returned && k < p.atShutdown ==> Times(p.ran, k) == 1
  {
    EveryRun(n, limit, steps, k);
    var p := Run(Start(n, limit), steps);
    if p.returned {
      HoldersNone(p.workers, k);
      assert p.workers[0] == Exited;
    }
  }

  // ------------------------------------------------------------------ admission

  /** The jobs of the calls of `enqueue`, in order. */
  function Offered(steps: seq<Step>): (jobs: seq<Job>) {
    if steps == [] then [] else
    var n := |steps| - 1;
    Offered(steps[..n]) + if steps[n].Enqueue? then [steps[n].job] else []
  }

  lemma AcceptsOne(p: Pool, s: Step)
    requires p.limit == 0
    ensures Apply(p, s).accepted == p.accepted + if s.Enqueue? then [s.job] else []
  {
  }

  /** Without a limit every job is accepted. */
  lemma {:induction false} AcceptsAll(n: nat, steps: seq<Step>)
    ensures Run(Start(n, 0), steps).accepted == Offered(steps)
  {
    if steps != [] {
      var k := |steps| - 1;
      AcceptsAll(n, steps[..k]);
      EveryRun(n, 0, steps[..k], 0);
      AcceptsOne(Run(Start(n, 0), steps[..k]), steps[k]);
    }
  }

  /** With a limit, a job is accepted if and only if fewer are waiting. */
  lemma {:induction false} AcceptsExactly(n: nat, limit: nat, steps: seq<Step>, job: Job)
    requires limit > 0
    ensures var p := Run(Start(n, limit), steps);
            Apply(p, Enqueue(job)).accepted ==
            if |p.accepted| - |p.taken| < limit then p.accepted + [job] else p.accepted
  {
    EveryRun(n, limit, steps, 0);
  }

  lemma {:induction false} RunNext(p: Pool, steps: seq<Step>, s: Step, all: seq<Step>)
    requires all == steps + [s]
    ensures Run(p, all) == Apply(Run(p, steps), s)
  {
    assert all[..|steps|] == steps;
  }

  lemma {:induction false} RunBoth(p: Pool, a: seq<Step>, q: Pool, b: seq<Step>, s: Step, x: Pool,
                                   aa: seq<Step>, bb: seq<Step>) returns (r: Pool)
    requires x == Run(p, a) && x == Run(q, b) && aa == a + [s] && bb == b + [s]
    ensures r == Run(p, aa) && r == Run(q, bb)
  {
    RunNext(p, a, s, aa);
    RunNext(q, b, s, bb);
    r := Apply(x, s);
  }

  lemma LastApart(a: seq<Step>, b: seq<Step>, ab: seq<Step>)
    requires b != [] && ab == a + b
    ensures ab == (a + b[..|b| - 1]) + [b[|b| - 1]] && b == b[..|b| - 1] + [b[|b| - 1]]
  {
  }

  lemma {:induction false} RunSplitAt(p: Pool, a: seq<Step>, b: seq<Step>, mid: Pool, ab: seq<Step>) returns (r: Pool)
    requires mid == Run(p, a) && ab == a + b
    ensures r == Run(p, ab) && r == Run(mid, b)
    decreases |b|
  {
    if b == [] {
      assert ab == a;
      r := mid;
    } else {
      var n := |b| - 1;
      LastApart(a, b, ab);
      var x := RunSplitAt(p, a, b[..n], mid, a + b[..n]);
      r := RunBoth(p, a + b[..n], mid, b[..n], b[n], x, ab, b);
    }
  }

  lemma {:induction false} RunSplit(p: Pool, a: seq<Step>, b: seq<Step>)
    ensures Run(p, a + b) == Run(Run(p, a), b)
  {
    var r := RunSplitAt(p, a, b, Run(p, a), a + b);
  }

  lemma AcceptedStep(p: Pool, s: Step)
    ensures p.accepted <= Apply(p, s).accepted
    ensures p.shutdown ==> Apply(p, s).shutdown && Apply(p, s).atShutdown == p.atShutdown
  {
  }

  /** Nothing that was accepted is forgotten, and the count of what was is taken once. */
  lemma {:induction false} AcceptedGrows(p: Pool, steps: seq<Step>)
    ensures p.accepted <= Run(p, steps).accepted
    ensures p.shutdown ==> Run(p, steps).shutdown && Run(p, steps).atShutdown == p.atShutdown
  {
    if steps != [] {
      AcceptedGrows(p, steps[..|steps| - 1]);
      AcceptedStep(Run(p, steps[..|steps| - 1]), steps[|steps| - 1]);
    }
  }

  lemma {:induction false} NotShutYet(n: nat, limit: nat, steps: seq<Step>)
    requires SetShutdown !in steps
    ensures !Run(Start(n, limit), steps).shutdown
  {
    if steps != [] {
      var k := |steps| - 1;
      assert steps[k] in steps;
      NotShutYet(n, limit, steps[..k]);
    }
  }

  /** Every job that was accepted before the call of `shutdown` has been run exactly once when it
      returns, whatever else is going on. */
  lemma {:induction false} DrainedBeforeReturn(n: nat, limit: nat, before: seq<Step>, after: seq<Step>, k: nat)
    requires n > 0 && SetShutdown !in before && k < |Run(Start(n, limit), before).accepted|
    ensures var p := Run(Start(n, limit), before + ([SetShutdown] + after));
            p.returned ==>
              Times(p.ran, k) == 1 && k < |p.taken| && p.taken[k] == Run(Start(n, limit), before).accepted[k]
  {
    var p0 := Run(Start(n, limit), before);
    var p := Run(Start(n, limit), before + ([SetShutdown] + after));
    NotShutYet(n, limit, before);
    RunSplit(Start(n, limit), before, [SetShutdown] + after);
    RunSplit(p0, [SetShutdown], after);
    assert [SetShutdown][..0] == [];
    assert Run(p0, [SetShutdown]) == Apply(p0, SetShutdown);
    AcceptedGrows(Apply(p0, SetShutdown), after);
    DrainedExactlyOnce(n, limit, before + ([SetShutdown] + after), k);
    EveryRun(n, limit, before + ([SetShutdown] + after), k);
    if p.returned {
      assert p.workers[0] == Exited;
      assert p.accepted[k] == p0.accepted[k];
    }
  }

  // ------------------------------------------------------------------ progress

  /** No wake-up is lost: while jobs wait and the pool runs, some worker is up or a
      notification is still to come. */
  lemma {:induction false} NoLostWakeup(n: nat, limit: nat, steps: seq<Step>)
    requires n > 0
    ensures var p := Run(Start(n, limit), steps);
            p.jobs != [] && !p.shutdown ==>
              p.notices > 0 || exists w :: w in p.workers && Up(w)
  {
    EveryRun(n, limit, steps, 0);
    var p := Run(Start(n, limit), steps);
    if p.jobs != [] && !p.shutdown && p.notices == 0 {
      var i :| 0 <= i < n && Up(p.workers[i]);
      assert p.workers[i] in p.workers;
    }
  }

  function Weight(w: Worker): (n: nat) {
    match w
    case Busy(_) => 2
    case Exited => 0
    case _ => 1
  }

  function Work(ws: seq<Worker>): (n: nat) {
    if ws == [] then 0 else Work(ws[..|ws| - 1]) + Weight(ws[|ws| - 1])
  }

  /** What is left to do after shutdown was announced. */
  function Left(p: Pool): (n: nat) {
    2 * |p.jobs| + Work(p.workers)
  }

  lemma {:induction false} WorkUpdate(ws: seq<Worker>, i: nat, w: Worker)
    requires i < |ws|
    ensures Work(ws[i := w]) == Work(ws) + Weight(w) - Weight(ws[i])
  {
    var n := |ws| - 1;
    if i == n {
      assert ws[i := w][..n] == ws[..n];
    } else {
      assert ws[i := w][..n] == ws[..n][i := w];
      WorkUpdate(ws[..n], i, w);
    }
  }

  lemma {:induction false} CheckLessens(p: Pool, i: nat)
    requires Is(p, i, Awake) && p.shutdown
    ensures Left(Apply(p, Check(i))) < Left(p)
  {
    WorkUpdate(p.workers, i, Checked(p, i).workers[i]);
  }

  lemma {:induction false} FinishLessens(p: Pool, i: nat)
    requires i < |p.workers| && p.workers[i].Busy?
    ensures Left(Apply(p, Finish(i))) < Left(p)
  {
    WorkUpdate(p.workers, i, Awake);
  }

  /** Shutdown cannot hang: once everyone was notified, as long as a worker has not left, some
      worker has a step; and every step that a worker has brings the end nearer. */
  lemma {:induction false} ShutdownProgresses(n: nat, limit: nat, steps: seq<Step>)
    ensures var p := Run(Start(n, limit), steps);
            p.notified ==>
              && (AllExited(p) || exists i :: 0 <= i < |p.workers| && Up(p.workers[i]))
              && (forall i :: Is(p, i, Awake) ==> Left(Apply(p, Check(i))) < Left(p))
              && (forall i :: 0 <= i < |p.workers| && p.workers[i].Busy? ==> Left(Apply(p, Finish(i))) < Left(p))
  {
    EveryRun(n, limit, steps, 0);
    var p := Run(Start(n, limit), steps);
    if p.notified {
      forall i | Is(p, i, Awake)
        ensures Left(Apply(p, Check(i))) < Left(p)
      {
        CheckLessens(p, i);
      }
      forall i | 0 <= i < n && p.workers[i].Busy?
        ensures Left(Apply(p, Finish(i))) < Left(p)
      {
        FinishLessens(p, i);
      }
      if !AllExited(p) {
        var i :| 0 <= i < n && p.workers[i] != Exited;
        assert p.workers[i] in p.workers;
        assert Up(p.workers[i]);
      }
    }
  }

  lemma {:induction false} RunFirst(p: Pool, s: Step, rest: seq<Step>)
    ensures Run(p, [s] + rest) == Run(Apply(p, s), rest)
  {
    RunSplit(p, [s], rest);
    assert [s][..0] == [];
    assert Run(p, [s]) == Apply(Run(p, []), s);
  }

  /** A step that brings the end nearer. */
  lemma {:induction false} Descends(p: Pool) returns (s: Step)
    requires Orderly(p) && p.notified && !AllExited(p)
    ensures Left(Apply(p, s)) < Left(p) && Apply(p, s).notified
  {
    var i :| 0 <= i < |p.workers| && p.workers[i] != Exited;
    assert p.workers[i] in p.workers;
    if p.workers[i].Awake? {
      s := Check(i);
      CheckLessens(p, i);
    } else {
      s := Finish(i);
      FinishLessens(p, i);
    }
  }

  /** A continuation in which everyone leaves, and `shutdown` returns. */
  lemma {:induction false} WindsDown(p: Pool) returns (more: seq<Step>)
    requires Orderly(p) && p.notified
    ensures Run(p, more).returned
    decreases Left(p)
  {
    if AllExited(p) {
      more := [JoinAll] + [];
      RunFirst(p, JoinAll, []);
    } else {
      var s := Descends(p);
      StepOrderly(p, s);
      var rest := WindsDown(Apply(p, s));
      more := [s] + rest;
      RunFirst(p, s, rest);
    }
  }

  /** From every reachable state, a call of `shutdown` can be carried through to its return. */
  lemma {:induction false} ShutdownCanReturn(n: nat, limit: nat, steps: seq<Step>) returns (more: seq<Step>)
    ensures Run(Start(n, limit), steps + more).returned
  {
    var p := Run(Start(n, limit), steps);
    EveryRun(n, limit, steps, 0);
    StepOrderly(p, SetShutdown);
    StepOrderly(Apply(p, SetShutdown), NotifyAll);
    var rest := WindsDown(Apply(Apply(p, SetShutdown), NotifyAll));
    more := [SetShutdown] + ([NotifyAll] + rest);
    RunFirst(p, SetShutdown, [NotifyAll] + rest);
    RunFirst(Apply(p, SetShutdown), NotifyAll, rest);
    RunSplit(Start(n, limit), steps, more);
  }

  lemma NoticeArrives(p: Pool) returns (s: Step)
    requires p.notices > 0
    ensures s.NotifyOne? && Apply(p, s).notices == p.notices - 1
  {
    s := NotifyOne(0);
    if i :| 0 <= i < |p.workers| && p.workers[i] == Asleep {
      s := NotifyOne(i);
    }
  }

  /** Every notification on its way can arrive, whether or not anyone sleeps. */
  lemma {:induction false} NoticesArrive(p: Pool) returns (more: seq<Step>)
    ensures (forall s :: s in more ==> s.NotifyOne?) && Run(p, more).notices == 0
    decreases p.notices
  {
    more := [];
    if p.notices > 0 {
      var s := NoticeArrives(p);
      var rest := NoticesArrive(Apply(p, s));
      more := [s] + rest;
      RunFirst(p, s, rest);
    }
  }

  lemma {:induction false} TakenBy(p: Pool, i: nat) returns (more: seq<Step>)
    requires p.jobs != [] && i < |p.workers| && Up(p.workers[i])
    ensures forall s :: s in more ==> s.Check? || s.Finish?
    ensures Run(p, more).taken == p.taken + [p.jobs[0]]
  {
    if p.workers[i].Awake? {
      more := [Check(i)] + [];
      RunFirst(p, Check(i), []);
    } else {
      more := [Finish(i)] + ([Check(i)] + []);
      RunFirst(p, Finish(i), [Check(i)] + []);
      RunFirst(Apply(p, Finish(i)), Check(i), []);
    }
  }

  /** A worker may wake without being notified, and then takes a job that waits. */
  lemma {:induction false} WakesByItself(p: Pool, i: nat)
    requires Is(p, i, Asleep) && p.jobs != []
    ensures Run(p, [SpuriousWake(i)] + [Check(i)]).taken == p.taken + [p.jobs[0]]
  {
    RunFirst(p, SpuriousWake(i), [Check(i)]);
    assert [Check(i)] == [Check(i)] + [];
    RunFirst(Apply(p, SpuriousWake(i)), Check(i), []);
  }

  /** The workers of a new pool are up: one takes a job without being notified. */
  lemma {:induction false} StartsUp(n: nat, limit: nat, job: Job, i: nat)
    requires i < n
    ensures Run(Start(n, limit), [Enqueue(job)] + [Check(i)]).taken == [job]
  {
    RunFirst(Start(n, limit), Enqueue(job), [Check(i)]);
    assert [Check(i)] == [Check(i)] + [];
    RunFirst(Apply(Start(n, limit), Enqueue(job)), Check(i), []);
  }

  lemma SomeoneSleeps(p: Pool)
    requires Orderly(p) && !p.shutdown && p.workers != [] && !Up(p.workers[0])
    ensures Is(p, 0, Asleep)
  {
    assert p.workers[0] in p.workers;
  }

  /** While a job waits and the pool runs, some worker can take it: one that is up, after it is
      done with its own, or one that a notification on its way wakes. */
  lemma {:induction false} WaitingJobIsTaken(p: Pool) returns (more: seq<Step>)
    requires Orderly(p) && Attended(p) && p.workers != [] && p.jobs != [] && !p.shutdown
    ensures forall s :: s in more ==> s.NotifyOne? || s.Check? || s.Finish?
    ensures Run(p, more).taken == p.taken + [p.jobs[0]]
  {
    if i :| 0 <= i < |p.workers| && Up(p.workers[i]) {
      more := TakenBy(p, i);
    } else {
      SomeoneSleeps(p);
      var rest := TakenBy(Apply(p, NotifyOne(0)), 0);
      more := [NotifyOne(0)] + rest;
      RunFirst(p, NotifyOne(0), rest);
    }
  }

  /** On every run with a worker, a job that waits can be taken. */
  lemma {:induction false} JobCanBeTaken(n: nat, limit: nat, steps: seq<Step>) returns (more: seq<Step>)
    requires n > 0
    requires var p := Run(Start(n, limit), steps); p.jobs != [] && !p.shutdown
    ensures forall s :: s in more ==> s.NotifyOne? || s.Check? || s.Finish?
    ensures |Run(Start(n, limit), steps + more).taken| == |Run(Start(n, limit), steps).taken| + 1
  {
    EveryRun(n, limit, steps, 0);
    more := WaitingJobIsTaken(Run(Start(n, limit), steps));
    RunSplit(Start(n, limit), steps, more);
  }
}
