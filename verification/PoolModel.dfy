/**
 The worker pool: threads drain a job queue under one lock and sleep on a condition
 variable. `submit` pushes under the lock and notifies after releasing it; dropping the
 pool raises `shutdown` under the lock, notifies all and joins. A critical section is one
 step; everything may happen between two of them.
 */
module PoolModel {

  /** A unit of blocking work. Whether it panics is of no consequence: panics are contained. */
  datatype Job = Job(id: nat, panics: bool)

  /** A pool thread: about to take the lock, running a job, asleep on the condition
      variable, or gone. */
  datatype Thread = Awake | Running(job: Job) | Waiting | Exited

  datatype Pool = Pool(
    threads: seq<Thread>, jobs: seq<Job>, shutdown: bool,
    notifications: nat,  // submitters between their unlock and their `notify_one`
    broadcast: bool,     // the dropper is between its unlock and its `notify_all`
    joined: bool,
    submitted: seq<Job>, started: seq<Job>, finished: seq<Job>)

  datatype Event =
    | Submit(job: Job)      // push under the lock, or run inline without threads
    | Notify(thread: nat)   // a pending `notify_one`, waking `thread` if any thread waits
    | Spurious(thread: nat) // the condition variable returns for no reason
    | Check(thread: nat)    // critical section: pop a job, exit, or go to sleep
    | Complete(thread: nat) // the job returns, or panics and is contained
    | Shutdown | NotifyAll | Join

  function Init(workers: nat): Pool {
    Pool(seq(workers, _ => Awake), [], false, 0, false, false, [], [], [])
  }

  predicate SomeWaiting(threads: seq<Thread>) {
    Waiting in threads
  }

  function SubmitStep(p: Pool, job: Job): Pool {
    if p.shutdown then p  // the pool is owned by its dropper: nobody can submit
    else if p.threads == [] then
      p.(submitted := p.submitted + [job], started := p.started + [job], finished := p.finished + [job])
    else
      p.(submitted := p.submitted + [job], jobs := p.jobs + [job], notifications := p.notifications + 1)
  }

  function NotifyStep(p: Pool, i: nat): Pool {
    if p.notifications == 0 then p
    else if i < |p.threads| && p.threads[i].Waiting? then
      p.(notifications := p.notifications - 1, threads := p.threads[i := Awake])
    else if SomeWaiting(p.threads) then p  // a waiting thread must be chosen
    else p.(notifications := p.notifications - 1)
  }

  function CheckStep(p: Pool, i: nat): Pool
    requires i < |p.threads|
  {
    if !p.threads[i].Awake? then p
    else if p.jobs != [] then
      p.(jobs := p.jobs[1..], started := p.started + [p.jobs[0]], threads := p.threads[i := Running(p.jobs[0])])
    else if p.shutdown then p.(threads := p.threads[i := Exited])
    else p.(threads := p.threads[i := Waiting])
  }

  function CompleteStep(p: Pool, i: nat): Pool
    requires i < |p.threads|
  {
    if p.threads[i].Running? then
      p.(finished := p.finished + [p.threads[i].job], threads := p.threads[i := Awake])
    else p
  }

  function WakeAll(threads: seq<Thread>): (r: seq<Thread>)
    ensures |r| == |threads|
    ensures forall i :: 0 <= i < |r| ==> r[i] == if threads[i].Waiting? then Awake else threads[i]
  {
    seq(|threads|, i requires 0 <= i < |threads| => if threads[i].Waiting? then Awake else threads[i])
  }

  function Step(p: Pool, e: Event): Pool {
    match e
    case Submit(job) => SubmitStep(p, job)
    case Notify(i) => NotifyStep(p, i)
    case Spurious(i) =>
      if i < |p.threads| && p.threads[i].Waiting? then p.(threads := p.threads[i := Awake]) else p
    case Check(i) => if i < |p.threads| then CheckStep(p, i) else p
    case Complete(i) => if i < |p.threads| then CompleteStep(p, i) else p
    case Shutdown =>
      if p.shutdown || p.notifications > 0 then p else p.(shutdown := true, broadcast := true)
    case NotifyAll =>
      if p.broadcast then p.(broadcast := false, threads := WakeAll(p.threads)) else p
    case Join =>
      if p.shutdown && !p.broadcast && (forall t <- p.threads :: t.Exited?) then p.(joined := true) else p
  }

  function Exec(p: Pool, schedule: seq<Event>): Pool {
    if schedule == [] then p
    else Step(Exec(p, schedule[..|schedule| - 1]), schedule[|schedule| - 1])
  }

  lemma ExecSnoc(p: Pool, schedule: seq<Event>, e: Event)
    ensures Exec(p, schedule + [e]) == Step(Exec(p, schedule), e)
  {
    assert (schedule + [e])[..|schedule|] == schedule;
  }
}
