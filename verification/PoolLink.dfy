/**
 The pool the dispatcher's model uses, implemented by the pool of threads: every step of the
 threads, their condition variable and the dropper is a start or a finish of the dispatcher's
 pool or leaves it alone, and a pool of threads with nothing left to do has emptied it. So
 that a queued request starts and finishes, which the dispatcher's model leaves to the
 schedule, is what the threads do.
 */
module PoolLink {
  import opened Common
  import opened PoolModel
  import opened PoolProofs
  import Offload = OffloadModel

  /** The job submitted for a work item. */
  function JobOf(w: Offload.Work): Job {
    Job(w.ticket, w.outcome.Panicked?)
  }

  /** How many of the work items have this job. */
  function Count(ws: seq<Offload.Work>, job: Job): nat {
    if ws == [] then 0 else Count(ws[..|ws| - 1], job) + B(JobOf(ws[|ws| - 1]) == job)
  }

  function BusyThreads(threads: seq<Thread>): nat {
    if threads == [] then 0 else B(threads[0].Running?) + BusyThreads(threads[1..])
  }

  /** The same jobs are queued, in the same order, and the same are running. */
  ghost predicate Linked(p: Pool, q: Offload.Pool) {
    && q.workers == |p.threads|
    && |q.queued| == |p.jobs| && (forall i :: 0 <= i < |p.jobs| ==> p.jobs[i] == JobOf(q.queued[i]))
    && |q.running| == BusyThreads(p.threads)
    && forall job :: Runs(p.threads, job) == Count(q.running, job)
  }

  /** What a step of the threads amounts to. */
  datatype Move = Start | FinishAt(index: nat) | Nothing

  function Apply(q: Offload.Pool, m: Move): Offload.Pool {
    match m
    case Start => Offload.StartStep(q)
    case FinishAt(i) =>
      if i < |q.running| then q.(running := RemoveAt(q.running, i), done := q.done + [Offload.Finish(q.running[i])]) else q
    case Nothing => q
  }

  /** A finish here is a finish of the dispatcher's model. */
  lemma FinishIsFinish(w: Offload.World, i: nat)
    ensures Apply(w.pool, FinishAt(i)) == Offload.FinishStep(w, i).pool
  {
  }

  // ---------------------------------------------------------------- counting

  lemma CountSnoc(ws: seq<Offload.Work>, w: Offload.Work, job: Job)
    ensures Count(ws + [w], job) == Count(ws, job) + B(JobOf(w) == job)
  {
    assert (ws + [w])[..|ws|] == ws;
  }

  lemma {:induction false} CountConcat(a: seq<Offload.Work>, b: seq<Offload.Work>, job: Job)
    ensures Count(a + b, job) == Count(a, job) + Count(b, job)
  {
    if b == [] {
      assert a + b == a;
    } else {
      var n := |b| - 1;
      assert a + b == (a + b[..n]) + [b[n]];
      CountConcat(a, b[..n], job);
      CountSnoc(a + b[..n], b[n], job);
    }
  }

  lemma CountRemoved(ws: seq<Offload.Work>, i: nat, job: Job)
    requires i < |ws|
    ensures Count(ws, job) == Count(RemoveAt(ws, i), job) + B(JobOf(ws[i]) == job)
  {
    assert ws == (ws[..i] + [ws[i]]) + ws[i + 1..];
    CountConcat(ws[..i] + [ws[i]], ws[i + 1..], job);
    CountSnoc(ws[..i], ws[i], job);
    CountConcat(ws[..i], ws[i + 1..], job);
  }

  lemma {:induction false} CountedIsThere(ws: seq<Offload.Work>, job: Job) returns (i: nat)
    requires Count(ws, job) > 0
    ensures i < |ws| && JobOf(ws[i]) == job
  {
    i := |ws| - 1;
    if JobOf(ws[i]) != job {
      i := CountedIsThere(ws[..i], job);
    }
  }

  lemma {:induction false} BusyAfter(threads: seq<Thread>, i: nat, t: Thread)
    requires i < |threads|
    ensures BusyThreads(threads[i := t]) + B(threads[i].Running?) == BusyThreads(threads) + B(t.Running?)
  {
    if i == 0 {
      assert threads[i := t][1..] == threads[1..];
    } else {
      assert threads[i := t][1..] == threads[1..][i - 1 := t];
      BusyAfter(threads[1..], i - 1, t);
    }
  }

  lemma {:induction false} BusyAtMost(threads: seq<Thread>)
    ensures BusyThreads(threads) <= |threads|
  {
    if threads != [] {
      BusyAtMost(threads[1..]);
    }
  }

  lemma {:induction false} SomeoneIsFree(threads: seq<Thread>, i: nat)
    requires i < |threads| && !threads[i].Running?
    ensures BusyThreads(threads) < |threads|
  {
    if i == 0 {
      BusyAtMost(threads[1..]);
    } else {
      SomeoneIsFree(threads[1..], i - 1);
    }
  }

  lemma {:induction false} WakeAllBusy(threads: seq<Thread>)
    ensures BusyThreads(WakeAll(threads)) == BusyThreads(threads)
  {
    if threads != [] {
      assert WakeAll(threads)[1..] == WakeAll(threads[1..]);
      WakeAllBusy(threads[1..]);
    }
  }

  lemma {:induction false} RunsWhatItRuns(threads: seq<Thread>, i: nat)
    requires i < |threads| && threads[i].Running?
    ensures Runs(threads, threads[i].job) > 0
  {
    if i > 0 {
      RunsWhatItRuns(threads[1..], i - 1);
    }
  }

  // ---------------------------------------------------------------- the steps

  /** A thread that runs nothing before and after a step leaves the jobs alone. */
  lemma IdleStep(p: Pool, p': Pool, q: Offload.Pool, i: nat)
    requires Linked(p, q) && i < |p.threads| == |p'.threads| && p'.threads == p.threads[i := p'.threads[i]]
    requires !p.threads[i].Running? && !p'.threads[i].Running? && p'.jobs == p.jobs
    ensures Linked(p', q)
  {
    BusyAfter(p.threads, i, p'.threads[i]);
    forall job
      ensures Runs(p'.threads, job) == Count(q.running, job)
    {
      CountRuns(p.threads, i, p'.threads[i], job);
    }
  }

  lemma StartIsLinked(p: Pool, q: Offload.Pool, i: nat)
    requires Linked(p, q) && i < |p.threads| && p.threads[i].Awake? && p.jobs != []
    ensures Linked(CheckStep(p, i), Apply(q, Start))
  {
    var w, t := q.queued[0], Running(p.jobs[0]);
    var p', q' := CheckStep(p, i), Apply(q, Start);
    SomeoneIsFree(p.threads, i);
    BusyAfter(p.threads, i, t);
    assert p'.threads == p.threads[i := t] && q'.running == q.running + [w];
    forall job
      ensures Runs(p'.threads, job) == Count(q'.running, job)
    {
      CountRuns(p.threads, i, t, job);
      CountSnoc(q.running, w, job);
    }
  }

  lemma FinishIsLinked(p: Pool, q: Offload.Pool, i: nat) returns (m: Move)
    requires Linked(p, q) && i < |p.threads| && p.threads[i].Running?
    ensures Linked(CompleteStep(p, i), Apply(q, m))
    ensures m.FinishAt? && m.index < |q.running| && JobOf(q.running[m.index]) == p.threads[i].job
  {
    RunsWhatItRuns(p.threads, i);
    var k := CountedIsThere(q.running, p.threads[i].job);
    m := FinishAt(k);
    var p', q' := CompleteStep(p, i), Apply(q, m);
    BusyAfter(p.threads, i, Awake);
    assert p'.threads == p.threads[i := Awake] && q'.running == RemoveAt(q.running, k);
    forall job
      ensures Runs(p'.threads, job) == Count(q'.running, job)
    {
      CountRuns(p.threads, i, Awake, job);
      CountRemoved(q.running, k, job);
    }
  }

  lemma WakeAllIsLinked(p: Pool, q: Offload.Pool)
    requires Linked(p, q)
    ensures Linked(Step(p, NotifyAll), q)
  {
    WakeAllBusy(p.threads);
    forall job
      ensures Runs(WakeAll(p.threads), job) == Runs(p.threads, job)
    {
      WakeAllRuns(p.threads, job);
    }
  }

  /** Every step of the pool of threads, other than a submission, is a start or a finish of the
      dispatcher's pool, or leaves it alone. */
  lemma StepIsMove(p: Pool, q: Offload.Pool, e: Event) returns (m: Move)
    requires Linked(p, q) && !e.Submit?
    ensures Linked(Step(p, e), Apply(q, m)) && (m.FinishAt? ==> e.Complete?)
  {
    m := Nothing;
    match e {
      case Notify(i) => if i < |p.threads| && p.threads[i].Waiting? && p.notifications > 0 { IdleStep(p, Step(p, e), q, i); }
      case Spurious(i) => if i < |p.threads| && p.threads[i].Waiting? { IdleStep(p, Step(p, e), q, i); }
      case Check(i) =>
        if i < |p.threads| && p.threads[i].Awake? {
          if p.jobs != [] {
            StartIsLinked(p, q, i);
            m := Start;
          } else {
            IdleStep(p, Step(p, e), q, i);
          }
        }
      case Complete(i) => if i < |p.threads| && p.threads[i].Running? { m := FinishIsLinked(p, q, i); }
      case NotifyAll => WakeAllIsLinked(p, q);
      case _ =>
    }
  }

  /** Unless it completes a job, such a step is a start or leaves the pool alone. */
  lemma StepIsStart(p: Pool, q: Offload.Pool, e: Event) returns (m: Move)
    requires Linked(p, q) && !e.Submit?
    requires e.Complete? ==> e.thread >= |p.threads| || !p.threads[e.thread].Running?
    ensures (m.Start? || m.Nothing?) && Linked(Step(p, e), Apply(q, m))
  {
    if e.Complete? {
      m := Nothing;
    } else {
      m := StepIsMove(p, q, e);
    }
  }

  /** A submission is a submission. */
  lemma SubmitIsSubmit(p: Pool, w: Offload.World, work: Offload.Work)
    requires Linked(p, w.pool) && !p.shutdown
    ensures Linked(Step(p, Submit(JobOf(work))), Offload.Submit(w, work).pool)
  {
  }

  lemma StartsLinked(workers: nat)
    ensures Linked(Init(workers), Offload.Init(workers).world.pool)
  {
    var threads := Init(workers).threads;
    NobodyBusy(threads);
    forall job ensures Runs(threads, job) == 0 { NobodyRuns(threads, job); }
  }

  lemma {:induction false} NobodyBusy(threads: seq<Thread>)
    requires forall t <- threads :: !t.Running?
    ensures BusyThreads(threads) == 0
  {
    if threads != [] {
      NobodyBusy(threads[1..]);
    }
  }

  /** When the threads have nothing left to do, the dispatcher's pool is empty: every queued
      request has started and every started one has finished. */
  lemma SettledPoolIsEmpty(p: Pool, q: Offload.Pool)
    requires Inv(p) && Settled(p) && Linked(p, q)
    ensures q.queued == [] && q.running == []
  {
    SettledIsIdle(p);
    NobodyBusy(p.threads);
    if p.threads != [] {
      assert p.threads[0] in p.threads;
    }
  }
}
