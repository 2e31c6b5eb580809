/**
 The pool loses no job and no wakeup: jobs start exactly once and in order, a sleeping
 thread is never the one a queued job waits for, and dropping the pool returns after
 every job has run.
 */
module PoolProofs {
  import opened Common
  import opened PoolModel

  // ---------------------------------------------------------------- tallies over the threads

  function Awakes(threads: seq<Thread>): nat {
    if threads == [] then 0 else B(threads[0].Awake?) + Awakes(threads[1..])
  }

  /** How many threads are running `job`. */
  function Runs(threads: seq<Thread>, job: Job): nat {
    if threads == [] then 0 else B(threads[0] == Running(job)) + Runs(threads[1..], job)
  }

  /** Steps a thread has left. After shutdown a sleeper will only wake up and leave. */
  function Left(t: Thread, shutdown: bool): nat {
    match t
    case Exited => 0
    case Waiting => if shutdown then 3 else 1
    case Awake => 2
    case Running(_) => 3
  }

  function LeftAll(threads: seq<Thread>, shutdown: bool): nat {
    if threads == [] then 0 else Left(threads[0], shutdown) + LeftAll(threads[1..], shutdown)
  }

  lemma {:induction false} CountAwake(threads: seq<Thread>, i: nat, t: Thread)
    requires i < |threads|
    ensures Awakes(threads[i := t]) + B(threads[i].Awake?) == Awakes(threads) + B(t.Awake?)
  {
    if i == 0 {
      assert threads[i := t][1..] == threads[1..];
    } else {
      assert threads[i := t][1..] == threads[1..][i - 1 := t];
      CountAwake(threads[1..], i - 1, t);
    }
  }

  lemma {:induction false} CountRuns(threads: seq<Thread>, i: nat, t: Thread, job: Job)
    requires i < |threads|
    ensures Runs(threads[i := t], job) + B(threads[i] == Running(job)) == Runs(threads, job) + B(t == Running(job))
  {
    if i == 0 {
      assert threads[i := t][1..] == threads[1..];
    } else {
      assert threads[i := t][1..] == threads[1..][i - 1 := t];
      CountRuns(threads[1..], i - 1, t, job);
    }
  }

  lemma {:induction false} CountLeft(threads: seq<Thread>, i: nat, t: Thread, shutdown: bool)
    requires i < |threads|
    ensures LeftAll(threads[i := t], shutdown) + Left(threads[i], shutdown) == LeftAll(threads, shutdown) + Left(t, shutdown)
  {
    if i == 0 {
      assert threads[i := t][1..] == threads[1..];
    } else {
      assert threads[i := t][1..] == threads[1..][i - 1 := t];
      CountLeft(threads[1..], i - 1, t, shutdown);
    }
  }

  lemma {:induction false} WakeAllRuns(threads: seq<Thread>, job: Job)
    ensures Runs(WakeAll(threads), job) == Runs(threads, job)
  {
    if threads != [] {
      assert WakeAll(threads)[1..] == WakeAll(threads[1..]);
      WakeAllRuns(threads[1..], job);
    }
  }

  lemma {:induction false} WakeAllLeft(threads: seq<Thread>)
    ensures LeftAll(WakeAll(threads), true) <= LeftAll(threads, true)
  {
    if threads != [] {
      assert WakeAll(threads)[1..] == WakeAll(threads[1..]);
      WakeAllLeft(threads[1..]);
    }
  }

  lemma {:induction false} NobodyRuns(threads: seq<Thread>, job: Job)
    requires forall t <- threads :: !t.Running?
    ensures Runs(threads, job) == 0
  {
    if threads != [] {
      NobodyRuns(threads[1..], job);
    }
  }

  lemma {:induction false} NobodyAwake(threads: seq<Thread>)
    requires forall t <- threads :: !t.Awake?
    ensures Awakes(threads) == 0
  {
    if threads != [] {
      NobodyAwake(threads[1..]);
    }
  }

  // ---------------------------------------------------------------- the invariant

  /** Jobs start once each and in the order of submission; a started job is running or finished. */
  ghost predicate Accounted(p: Pool) {
    && p.submitted == p.started + p.jobs
    && forall job :: multiset(p.started)[job] == multiset(p.finished)[job] + Runs(p.threads, job)
  }

  /** While any thread sleeps, each queued job has an awake thread or a pending
      notification of its own. */
  predicate Covered(p: Pool) {
    SomeWaiting(p.threads) ==> |p.jobs| <= p.notifications + Awakes(p.threads)
  }

  predicate Orderly(p: Pool) {
    && (Exited in p.threads ==> p.shutdown && p.jobs == [])
    && (p.threads == [] ==> p.jobs == [] && p.notifications == 0)
    && (p.broadcast ==> p.shutdown)
    && (p.shutdown ==> p.notifications == 0)
    && (p.shutdown && !p.broadcast ==> !SomeWaiting(p.threads))
    && (p.joined ==> p.shutdown && forall i :: 0 <= i < |p.threads| ==> p.threads[i].Exited?)
  }

  ghost predicate Inv(p: Pool) {
    Accounted(p) && Covered(p) && Orderly(p)
  }

  /** What a step of one thread does to the accounts. */
  lemma ThreadStepAccounts(p: Pool, p': Pool, i: nat)
    requires Accounted(p) && i < |p.threads| == |p'.threads| && p'.threads == p.threads[i := p'.threads[i]]
    requires p'.submitted == p.submitted && p'.started + p'.jobs == p.started + p.jobs
    requires if p'.threads[i].Running? then p'.started == p.started + [p'.threads[i].job] else p'.started == p.started
    requires if p.threads[i].Running? then p'.finished == p.finished + [p.threads[i].job] else p'.finished == p.finished
    ensures Accounted(p')
  {
    forall job
      ensures multiset(p'.started)[job] == multiset(p'.finished)[job] + Runs(p'.threads, job)
    {
      CountRuns(p.threads, i, p'.threads[i], job);
    }
  }

  lemma CheckAccounts(p: Pool, i: nat)
    requires Accounted(p) && i < |p.threads|
    ensures Accounted(CheckStep(p, i))
  {
    if p.threads[i].Awake? {
      if p.jobs != [] {
        assert p.jobs == [p.jobs[0]] + p.jobs[1..];
      }
      ThreadStepAccounts(p, CheckStep(p, i), i);
    }
  }

  lemma NotifyAllAccounts(p: Pool)
    requires Accounted(p)
    ensures Accounted(Step(p, NotifyAll))
  {
    forall job
      ensures Runs(WakeAll(p.threads), job) == Runs(p.threads, job)
    {
      WakeAllRuns(p.threads, job);
    }
  }

  lemma SubmitAccounts(p: Pool, job: Job)
    requires Accounted(p) && Orderly(p)
    ensures Accounted(SubmitStep(p, job))
  {
    var p' := SubmitStep(p, job);
    if p.threads == [] && !p.shutdown && p.jobs == [] {
      assert forall j :: Runs(p'.threads, j) == 0;
    }
  }

  lemma StepAccounts(p: Pool, e: Event)
    requires Accounted(p) && Orderly(p)
    ensures Accounted(Step(p, e))
  {
    match e {
      case Submit(job) => SubmitAccounts(p, job);
      case Notify(i) => if i < |p.threads| && p.threads[i].Waiting? && p.notifications > 0 { ThreadStepAccounts(p, Step(p, e), i); }
      case Spurious(i) => if i < |p.threads| && p.threads[i].Waiting? { ThreadStepAccounts(p, Step(p, e), i); }
      case Check(i) => if i < |p.threads| { CheckAccounts(p, i); }
      case Complete(i) => if i < |p.threads| && p.threads[i].Running? { ThreadStepAccounts(p, Step(p, e), i); }
      case Shutdown =>
      case NotifyAll => NotifyAllAccounts(p);
      case Join =>
    }
  }

  lemma StepCovers(p: Pool, e: Event)
    requires Covered(p) && Orderly(p)
    ensures Covered(Step(p, e))
  {
    hide Awakes;
    match e {
      case Notify(i) => if i < |p.threads| { CountAwake(p.threads, i, Awake); }
      case Spurious(i) => if i < |p.threads| { CountAwake(p.threads, i, Awake); }
      case Check(i) => if i < |p.threads| { CountAwake(p.threads, i, CheckStep(p, i).threads[i]); }
      case Complete(i) => if i < |p.threads| { CountAwake(p.threads, i, Awake); }
      case _ =>
    }
  }

  lemma StepIsOrderly(p: Pool, e: Event)
    requires Orderly(p)
    ensures Orderly(Step(p, e))
  {
  }

  lemma {:induction false} Reachable(workers: nat, schedule: seq<Event>)
    ensures Inv(Exec(Init(workers), schedule))
  {
    if schedule == [] {
      forall job ensures Runs(Init(workers).threads, job) == 0 { NobodyRuns(Init(workers).threads, job); }
    } else {
      var n := |schedule| - 1;
      Reachable(workers, schedule[..n]);
      var p := Exec(Init(workers), schedule[..n]);
      StepAccounts(p, schedule[n]);
      StepCovers(p, schedule[n]);
      StepIsOrderly(p, schedule[n]);
    }
  }

  // ---------------------------------------------------------------- what the pool promises

  /** Jobs are started exactly once each, in the order of their submission. */
  lemma StartsInOrder(workers: nat, schedule: seq<Event>)
    ensures var p := Exec(Init(workers), schedule); p.started <= p.submitted && p.submitted[|p.started|..] == p.jobs
  {
    Reachable(workers, schedule);
  }

  /** No lost wakeup: a queued job has an unfinished thread that is not asleep, or a
      notification on its way; and while one thread sleeps, every queued job has. */
  lemma QueuedJobIsCovered(workers: nat, schedule: seq<Event>)
    requires Exec(Init(workers), schedule).jobs != []
    ensures var p := Exec(Init(workers), schedule);
            && (p.notifications > 0 || exists t <- p.threads :: t.Awake? || t.Running?)
            && (SomeWaiting(p.threads) ==> |p.jobs| <= p.notifications + Awakes(p.threads))
  {
    Reachable(workers, schedule);
    if Exec(Init(workers), schedule).notifications == 0 {
      JobHasThread(Exec(Init(workers), schedule));
    }
  }

  lemma JobHasThread(p: Pool)
    requires Covered(p) && Orderly(p) && p.jobs != [] && p.notifications == 0
    ensures exists t <- p.threads :: t.Awake? || t.Running?
  {
    assert p.threads[0] in p.threads;
    if forall t <- p.threads :: !t.Awake? && !t.Running? {
      NobodyAwake(p.threads);
    }
  }

  /** A thread leaves only on shutdown and with the queue empty. */
  lemma ThreadsLeaveLast(workers: nat, schedule: seq<Event>)
    requires Exited in Exec(Init(workers), schedule).threads
    ensures var p := Exec(Init(workers), schedule); p.shutdown && p.jobs == []
  {
    Reachable(workers, schedule);
  }

  /** When the joins of `drop` are done, every submitted job has run, exactly once. */
  lemma JoinedPoolRanEverything(workers: nat, schedule: seq<Event>)
    requires Exec(Init(workers), schedule).joined
    ensures var p := Exec(Init(workers), schedule); multiset(p.finished) == multiset(p.submitted)
  {
    Reachable(workers, schedule);
    AllRan(Exec(Init(workers), schedule));
  }

  lemma AllRan(p: Pool)
    requires Accounted(p) && Orderly(p) && forall t <- p.threads :: t.Exited? || (t.Waiting? && p.jobs == [])
    ensures multiset(p.finished) == multiset(p.submitted)
  {
    if p.threads != [] {
      assert p.threads[0] in p.threads;
    }
    assert p.jobs == [] && p.submitted == p.started;
    forall job ensures multiset(p.started)[job] == multiset(p.finished)[job] { NobodyRuns(p.threads, job); }
  }

  // ---------------------------------------------------------------- progress

  /** The steps the pool itself takes. */
  predicate Internal(e: Event) {
    !e.Submit? && !e.Spurious? && !e.Shutdown?
  }

  function Rank(p: Pool): nat {
    2 * |p.jobs| + 2 * p.notifications + LeftAll(p.threads, p.shutdown) + B(p.broadcast) + B(!p.joined)
  }

  lemma CheckDescends(p: Pool, i: nat)
    requires Orderly(p) && i < |p.threads|
    ensures CheckStep(p, i) == p || Rank(CheckStep(p, i)) < Rank(p)
  {
    CountLeft(p.threads, i, CheckStep(p, i).threads[i], p.shutdown);
  }

  lemma WakeDescends(p: Pool, e: Event)
    requires Orderly(p) && (e.Notify? || (e.Spurious? && p.shutdown) || e.NotifyAll?)
    ensures Step(p, e) == p || Rank(Step(p, e)) < Rank(p)
  {
    if e.NotifyAll? {
      WakeAllLeft(p.threads);
    } else if e.thread < |p.threads| {
      CountLeft(p.threads, e.thread, Awake, p.shutdown);
    }
  }

  /** Every effective step of the pool lowers the rank; once the pool is being dropped, so
      does every other effective step. */
  lemma StepDescends(p: Pool, e: Event)
    requires Orderly(p) && (Internal(e) || p.shutdown)
    ensures Step(p, e) == p || Rank(Step(p, e)) < Rank(p)
  {
    match e {
      case Notify(_) => WakeDescends(p, e);
      case Spurious(_) => WakeDescends(p, e);
      case NotifyAll => WakeDescends(p, e);
      case Check(i) => if i < |p.threads| { CheckDescends(p, i); }
      case Complete(i) => if i < |p.threads| { CountLeft(p.threads, i, Awake, p.shutdown); }
      case _ =>
    }
  }

  ghost function Effective(p: Pool, schedule: seq<Event>): nat {
    if schedule == [] then 0
    else
      var n := |schedule| - 1;
      var before := Exec(p, schedule[..n]);
      Effective(p, schedule[..n]) + B(Step(before, schedule[n]) != before)
  }

  /** Left to itself the pool takes at most `Rank` steps; being dropped, it takes at most
      `Rank` steps whatever happens. */
  lemma {:induction false} PoolSettles(p: Pool, schedule: seq<Event>)
    requires Orderly(p) && (p.shutdown || forall e <- schedule :: Internal(e))
    ensures Orderly(Exec(p, schedule)) && (p.shutdown ==> Exec(p, schedule).shutdown)
    ensures Effective(p, schedule) + Rank(Exec(p, schedule)) <= Rank(p)
  {
    if schedule != [] {
      var n := |schedule| - 1;
      PoolSettles(p, schedule[..n]);
      var before := Exec(p, schedule[..n]);
      assert schedule[n] in schedule;
      StepDescends(before, schedule[n]);
      StepIsOrderly(before, schedule[n]);
    }
  }

  ghost predicate Settled(p: Pool) {
    forall e | Internal(e) :: Step(p, e) == p
  }

  lemma SettledIsIdle(p: Pool)
    requires Covered(p) && Orderly(p) && Settled(p)
    ensures forall t <- p.threads :: t.Exited? || (t.Waiting? && p.jobs == [])
    ensures p.shutdown ==> p.joined
  {
    forall i | 0 <= i < |p.threads|
      ensures !p.threads[i].Awake? && !p.threads[i].Running?
    {
      assert Step(p, Check(i)) == p && Step(p, Complete(i)) == p;
    }
    assert Step(p, NotifyAll) == p && Step(p, Join) == p;
    if w :| 0 <= w < |p.threads| && p.threads[w].Waiting? {
      assert Step(p, Notify(w)) == p;
      NobodyAwake(p.threads);
    }
  }

  /** When the pool has nothing left to do, every submitted job has run, and a pool being
      dropped has been joined. */
  lemma SettledPoolRanEverything(workers: nat, schedule: seq<Event>)
    requires Settled(Exec(Init(workers), schedule))
    ensures var p := Exec(Init(workers), schedule);
            multiset(p.finished) == multiset(p.submitted) && (p.shutdown ==> p.joined)
  {
    Reachable(workers, schedule);
    SettledIsIdle(Exec(Init(workers), schedule));
    AllRan(Exec(Init(workers), schedule));
  }
}
