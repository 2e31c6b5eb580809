/**
 The dispatcher and the pool of threads together: guest, dispatcher, threads, condition
 variable and stop caller interleave, jobs go through the real queue, and a finished job sends
 the completion of its own request. Every run is, to the ring, a run of the dispatcher's model,
 so what is proved there holds of the whole, down to the wakeups of the threads.
 */
module ComposedHost {
  import opened Common
  import opened PoolLink
  import Offload = OffloadModel
  import Safety = OffloadSafety
  import Progress = OffloadProgress
  import Threads = PoolModel
  import Proofs = PoolProofs

  datatype State = State(
    ring: Offload.Ring, done: seq<Offload.Used>, wakers: Offload.Wakers, ctl: Offload.Control, threads: Threads.Pool)

  datatype Event =
    | Outside(event: Offload.Event)    // the guest, or the stop caller
    | Dispatcher
    | Thread(step: Threads.Event)      // a pool thread, the condition variable

  function Init(workers: nat): State {
    var s := Offload.Init(workers);
    State(s.world.ring, [], s.world.wakers, s.ctl, Threads.Init(workers))
  }

  predicate IsOutside(e: Offload.Event) {
    e.Post? || e.Kick? || e.Corrupt? || e.StopSignal?
  }

  /** The pool is kept alive by the dispatcher: it is not dropped, and only it submits. */
  predicate IsThread(e: Threads.Event) {
    !e.Submit? && !e.Shutdown?
  }

  /** What the dispatcher sees: the jobs in the pool are out of its sight. */
  function Seen(c: State): Offload.State {
    Offload.State(Offload.World(c.ring, Offload.Pool(|c.threads.threads|, [], [], c.done), c.wakers), c.ctl)
  }

  /** The request a job was submitted for. */
  function WorkOf(ring: Offload.Ring, job: Threads.Job): Offload.Work {
    if job.id < |ring.popped| then ring.popped[job.id] else Offload.Work(0, 0, Offload.Panicked)
  }

  predicate Submitting(c: Offload.Control) {
    c.pc.Fanning? && c.batch != []
  }

  function SubmitStep(c: State): State
    requires Submitting(c.ctl)
  {
    var s := Offload.FanStep(Seen(c).world, c.ctl);
    c.(done := s.world.pool.done, wakers := s.world.wakers, ctl := s.ctl,
       threads := Threads.Step(c.threads, Threads.Submit(JobOf(c.ctl.batch[0]))))
  }

  function DispatchStep(c: State): State {
    if Submitting(c.ctl) then SubmitStep(c)
    else
      var s := Offload.DispatcherStep(Seen(c));
      c.(ring := s.world.ring, done := s.world.pool.done, wakers := s.world.wakers, ctl := s.ctl)
  }

  /** A thread that completes a job sends the completion. */
  function ThreadStep(c: State, e: Threads.Event): State {
    var now := c.(threads := Threads.Step(c.threads, e));
    if e.Complete? && e.thread < |c.threads.threads| && c.threads.threads[e.thread].Running? then
      var w := Offload.Send(Seen(c).world, Offload.Finish(WorkOf(c.ring, c.threads.threads[e.thread].job)));
      now.(done := w.pool.done, wakers := w.wakers)
    else now
  }

  function Step(c: State, e: Event): State {
    match e
    case Outside(x) =>
      if IsOutside(x) then
        var w := Offload.WorldStep(Seen(c).world, x);
        c.(ring := w.ring, wakers := w.wakers)
      else c
    case Dispatcher => DispatchStep(c)
    case Thread(x) => if IsThread(x) then ThreadStep(c, x) else c
  }

  function Exec(c: State, run: seq<Event>): State {
    if run == [] then c else Step(Exec(c, run[..|run| - 1]), run[|run| - 1])
  }

  // ---------------------------------------------------------------- simulation

  /** `s` is the same host with the dispatcher's own idea of the pool. */
  ghost predicate Simulates(c: State, s: Offload.State) {
    && s.world.ring == c.ring && s.world.wakers == c.wakers && s.ctl == c.ctl && s.world.pool.done == c.done
    && Linked(c.threads, s.world.pool) && !c.threads.shutdown
  }

  lemma OutsideIsSimulated(c: State, s: Offload.State, x: Offload.Event)
    requires Simulates(c, s) && IsOutside(x)
    ensures Simulates(Step(c, Outside(x)), Offload.Step(s, x))
  {
    hide Linked;
  }

  /** The two differ at most in the jobs in the pool. */
  predicate SameButJobs(s: Offload.State, t: Offload.State) {
    s.world.ring == t.world.ring && s.world.wakers == t.world.wakers && s.ctl == t.ctl && s.world.pool.done == t.world.pool.done
  }

  /** The jobs in the pool were not touched. */
  predicate JobsKept(q: Offload.Pool, q': Offload.Pool) {
    q' == q.(done := q'.done)
  }

  lemma DispatchIgnoresJobs(s: Offload.State, t: Offload.State)
    requires SameButJobs(s, t) && (s.ctl.pc.Draining? || s.ctl.pc.Deciding? || s.ctl.pc.Inlining?)
    ensures SameButJobs(Offload.DispatcherStep(s), Offload.DispatcherStep(t))
    ensures JobsKept(s.world.pool, Offload.DispatcherStep(s).world.pool)
  {
  }

  lemma ReceiveIgnoresJobs(s: Offload.State, t: Offload.State)
    requires SameButJobs(s, t) && s.ctl.pc.PollDone?
    ensures SameButJobs(Offload.DispatcherStep(s), Offload.DispatcherStep(t))
    ensures JobsKept(s.world.pool, Offload.DispatcherStep(s).world.pool)
  {
  }

  lemma WaitIgnoresJobs(s: Offload.State, t: Offload.State)
    requires SameButJobs(s, t) && !Submitting(s.ctl) && !s.ctl.pc.PollDone?
    requires !(s.ctl.pc.Draining? || s.ctl.pc.Deciding? || s.ctl.pc.Inlining?)
    ensures SameButJobs(Offload.DispatcherStep(s), Offload.DispatcherStep(t))
    ensures JobsKept(s.world.pool, Offload.DispatcherStep(s).world.pool)
  {
  }

  /** Apart from submissions the dispatcher neither sees nor moves the jobs in the pool. */
  lemma DispatcherIgnoresJobs(s: Offload.State, t: Offload.State)
    requires SameButJobs(s, t) && !Submitting(s.ctl)
    ensures SameButJobs(Offload.DispatcherStep(s), Offload.DispatcherStep(t))
    ensures JobsKept(s.world.pool, Offload.DispatcherStep(s).world.pool)
  {
    hide SameButJobs, JobsKept, Offload.DispatcherStep;
    if s.ctl.pc.PollDone? {
      ReceiveIgnoresJobs(s, t);
    } else if s.ctl.pc.Draining? || s.ctl.pc.Deciding? || s.ctl.pc.Inlining? {
      DispatchIgnoresJobs(s, t);
    } else {
      WaitIgnoresJobs(s, t);
    }
  }

  lemma LinkIgnoresChannel(p: Threads.Pool, q: Offload.Pool, done: seq<Offload.Used>)
    requires Linked(p, q)
    ensures Linked(p, q.(done := done))
  {
  }

  lemma SubmitIsSimulated(c: State, s: Offload.State)
    requires Simulates(c, s) && Submitting(c.ctl)
    ensures Simulates(SubmitStep(c), Offload.DispatcherStep(s))
  {
    var work := c.ctl.batch[0];
    SubmitIsSubmit(c.threads, s.world, work);
    assert |c.threads.threads| == s.world.pool.workers;
    hide Linked;
  }

  lemma DispatchIsSimulated(c: State, s: Offload.State)
    requires Simulates(c, s)
    ensures Simulates(DispatchStep(c), Offload.DispatcherStep(s))
  {
    hide Linked, Offload.DispatcherStep;
    if Submitting(c.ctl) {
      SubmitIsSimulated(c, s);
    } else {
      DispatcherIgnoresJobs(s, Seen(c));
      LinkIgnoresChannel(c.threads, s.world.pool, DispatchStep(c).done);
    }
  }

  lemma RunningIsPopped(s: Offload.State, k: nat)
    requires Safety.Conserved(s) && Safety.Ticketed(s.world.ring) && k < |s.world.pool.running|
    ensures var w := s.world.pool.running[k]; w.ticket < |s.world.ring.popped| && s.world.ring.popped[w.ticket] == w
  {
    var w := s.world.pool.running[k];
    assert w in multiset(s.world.pool.running);
    assert w in Safety.InPool(s.world.pool);
    assert w in multiset(s.world.ring.popped);
    assert w in s.world.ring.popped;
  }

  lemma CompleteIsSimulated(c: State, s: Offload.State, i: nat) returns (k: nat)
    requires Simulates(c, s) && Safety.Inv(s) && i < |c.threads.threads| && c.threads.threads[i].Running?
    ensures Simulates(ThreadStep(c, Threads.Complete(i)), Offload.Step(s, Offload.WorkerFinish(k)))
  {
    var m := FinishIsLinked(c.threads, s.world.pool, i);
    k := m.index;
    RunningIsPopped(s, k);
    FinishIsFinish(s.world, k);
    hide Linked, Safety.Inv;
  }

  lemma StaysUp(p: Threads.Pool, x: Threads.Event)
    requires !p.shutdown && IsThread(x)
    ensures !Threads.Step(p, x).shutdown
  {
  }

  /** What a thread's step is to the dispatcher's model, if anything. */
  lemma ThreadIsSimulated(c: State, s: Offload.State, x: Threads.Event) returns (e: Option<Offload.Event>)
    requires Simulates(c, s) && Safety.Inv(s) && IsThread(x)
    ensures e.Some? ==> e.value.WorkerStart? || e.value.WorkerFinish?
    ensures Simulates(ThreadStep(c, x), if e.Some? then Offload.Step(s, e.value) else s)
  {
    if x.Complete? && x.thread < |c.threads.threads| && c.threads.threads[x.thread].Running? {
      var k := CompleteIsSimulated(c, s, x.thread);
      e := Some(Offload.WorkerFinish(k));
    } else {
      StaysUp(c.threads, x);
      var m := StepIsStart(c.threads, s.world.pool, x);
      e := if m.Start? then Some(Offload.WorkerStart) else None;
      hide Linked, Safety.Inv;
    }
  }

  // ---------------------------------------------------------------- every run

  /** The chains a run posts, in order. */
  function Posted(run: seq<Event>): seq<Offload.Work> {
    if run == [] then []
    else
      var before, e := Posted(run[..|run| - 1]), run[|run| - 1];
      if e.Outside? && e.event.Post? then before + [Offload.Work(|before|, e.event.head, e.event.outcome)] else before
  }

  lemma PostedSnoc(schedule: seq<Offload.Event>, e: Offload.Event)
    ensures Safety.Posted(schedule + [e]) ==
      var before := Safety.Posted(schedule); if e.Post? then before + [Offload.Work(|before|, e.head, e.outcome)] else before
  {
    assert (schedule + [e])[..|schedule|] == schedule;
  }

  lemma PoolInvStays(p: Threads.Pool, x: Threads.Event)
    requires Proofs.Inv(p)
    ensures Proofs.Inv(Threads.Step(p, x))
  {
    hide Threads.Step;
    Proofs.StepAccounts(p, x);
    Proofs.StepCovers(p, x);
    Proofs.StepIsOrderly(p, x);
  }

  lemma StepKeepsPoolInv(c: State, e: Event)
    requires Proofs.Inv(c.threads)
    ensures Proofs.Inv(Step(c, e).threads)
  {
    hide Proofs.Inv, Threads.Step, Offload.DispatcherStep, Offload.WorldStep, Offload.FanStep, Offload.Send;
    match e {
      case Outside(_) =>
      case Dispatcher => if Submitting(c.ctl) { PoolInvStays(c.threads, Threads.Submit(JobOf(c.ctl.batch[0]))); }
      case Thread(x) => PoolInvStays(c.threads, x);
    }
  }

  /** The step of the dispatcher's model, if any, that a step of the whole host is. */
  lemma StepIsSimulated(c: State, s: Offload.State, e: Event) returns (x: Option<Offload.Event>)
    requires Simulates(c, s) && Safety.Inv(s)
    ensures Simulates(Step(c, e), if x.Some? then Offload.Step(s, x.value) else s)
    ensures match e
            case Outside(y) => x == if IsOutside(y) then Some(y) else None
            case Dispatcher => x == Some(Offload.Dispatcher)
            case Thread(_) => x.Some? ==> x.value.WorkerStart? || x.value.WorkerFinish?
  {
    match e {
      case Outside(y) =>
        x := if IsOutside(y) then Some(y) else None;
        if IsOutside(y) { OutsideIsSimulated(c, s, y); }
      case Dispatcher =>
        x := Some(Offload.Dispatcher);
        DispatchIsSimulated(c, s);
      case Thread(y) =>
        x := None;
        if IsThread(y) { x := ThreadIsSimulated(c, s, y); }
    }
    hide *;
  }

  /** Every run of the whole host is a run of the dispatcher's model with the same ring, the same
      locals and the same posts. */
  lemma {:induction false} RunIsSimulated(workers: nat, run: seq<Event>) returns (schedule: seq<Offload.Event>)
    ensures Simulates(Exec(Init(workers), run), Offload.Exec(Offload.Init(workers), schedule))
    ensures Safety.Posted(schedule) == Posted(run) && Proofs.Inv(Exec(Init(workers), run).threads)
  {
    if run == [] {
      schedule := [];
      StartsLinked(workers);
      Proofs.Reachable(workers, []);
      assert Threads.Exec(Threads.Init(workers), []) == Threads.Init(workers);
      assert Offload.Exec(Offload.Init(workers), []) == Offload.Init(workers);
    } else {
      var n := |run| - 1;
      schedule := RunIsSimulated(workers, run[..n]);
      var c, s := Exec(Init(workers), run[..n]), Offload.Exec(Offload.Init(workers), schedule);
      Safety.Reachable(workers, schedule);
      assert Exec(Init(workers), run) == Step(c, run[n]);
      hide Exec, Step, Simulates, Offload.Exec, Offload.Step, Safety.Inv, Safety.Posted, Proofs.Inv;
      StepKeepsPoolInv(c, run[n]);
      var x := StepIsSimulated(c, s, run[n]);
      if x.Some? {
        Offload.ExecSnoc(Offload.Init(workers), schedule, x.value);
        PostedSnoc(schedule, x.value);
        schedule := schedule + [x.value];
      }
    }
  }

  // ---------------------------------------------------------------- nothing left to do

  /** No step of the dispatcher or of a thread changes anything. */
  ghost predicate Settled(c: State) {
    Step(c, Dispatcher) == c && forall x | IsThread(x) && Proofs.Internal(x) :: Step(c, Thread(x)) == c
  }

  lemma SettledThreads(c: State)
    requires Settled(c)
    ensures forall x | IsThread(x) && Proofs.Internal(x) :: Threads.Step(c.threads, x) == c.threads
  {
    forall x | IsThread(x) && Proofs.Internal(x)
      ensures Threads.Step(c.threads, x) == c.threads
    {
      assert Step(c, Thread(x)) == c;
    }
  }

  lemma SettledDispatcher(c: State, s: Offload.State)
    requires Simulates(c, s) && DispatchStep(c) == c
    ensures Offload.DispatcherStep(s) == s
  {
    if !Submitting(c.ctl) {
      DispatcherIgnoresJobs(s, Seen(c));
      hide Offload.DispatcherStep, Linked;
    }
  }

  lemma SettledIsSettled(c: State, s: Offload.State)
    requires Simulates(c, s) && Settled(c) && Proofs.Inv(c.threads)
    ensures Progress.Settled(s)
  {
    SettledThreads(c);
    assert Proofs.Settled(c.threads);
    SettledPoolIsEmpty(c.threads, s.world.pool);
    SettledDispatcher(c, s);
    hide Linked, Settled, Simulates;
  }

  /** When neither the dispatcher nor any thread has anything left to do, every popped chain is
      completed as the serial device would, a working dispatcher has popped everything posted
      unless the guest still owes its kick, and one told to stop has returned. */
  lemma ComposedHasServedAll(workers: nat, run: seq<Event>)
    requires Settled(Exec(Init(workers), run))
    ensures var c := Exec(Init(workers), run);
      && multiset(c.ring.completed) == multiset(Offload.SerialDevice(c.ring.popped))
      && (Progress.Listening(c.ctl) && !c.ring.owed ==> c.ring.popped == Posted(run))
      && (c.wakers.stopSent ==> c.ctl.pc.Returned?)
  {
    var schedule := RunIsSimulated(workers, run);
    var c, s := Exec(Init(workers), run), Offload.Exec(Offload.Init(workers), schedule);
    hide Exec, Offload.Exec;
    SettledIsSettled(c, s);
    Progress.SettledHasServedAll(workers, schedule);
  }

  /** At every moment the used ring is part of what the serial device writes, and all of it once
      the dispatcher has returned; and every completion reports the bytes of its reply. */
  lemma ComposedRefinesSerialDevice(workers: nat, run: seq<Event>)
    ensures var c := Exec(Init(workers), run);
      && multiset(c.ring.completed) <= multiset(Offload.SerialDevice(c.ring.popped))
      && (c.ctl.pc.Returned? ==> multiset(c.ring.completed) == multiset(Offload.SerialDevice(c.ring.popped)))
      && (forall u <- c.ring.completed :: Safety.Truthful(u))
  {
    var schedule := RunIsSimulated(workers, run);
    hide Exec, Offload.Exec;
    Safety.RefinesSerialDevice(workers, schedule);
    Safety.CompletionsAreTruthful(workers, schedule);
  }

  // ---------------------------------------------------------------- how long it takes

  /** The work left, with a submission weighing more than the wakeups it causes. */
  function Rank(c: State, s: Offload.State): nat {
    5 * Progress.Rank(s) + Proofs.Rank(c.threads)
  }

  /** The steps the host itself takes. */
  predicate Internal(e: Event) {
    e.Dispatcher? || (e.Thread? && IsThread(e.step) && Proofs.Internal(e.step))
  }

  lemma SubmitCosts(p: Threads.Pool, job: Threads.Job)
    ensures Proofs.Rank(Threads.Step(p, Threads.Submit(job))) <= Proofs.Rank(p) + 4
  {
  }

  lemma DispatchDescends(c: State, s: Offload.State)
    requires Simulates(c, s) && Safety.Inv(s) && DispatchStep(c) != c
    ensures Rank(DispatchStep(c), Offload.DispatcherStep(s)) < Rank(c, s)
  {
    if Offload.DispatcherStep(s) == s {
      UnchangedIsUnchanged(c, s);
      assert false;
    }
    Progress.InternalStepDescends(s, Offload.Dispatcher);
    hide Simulates, Safety.Inv, Progress.Rank, Proofs.Rank, Offload.DispatcherStep, Offload.FanStep, Threads.Step;
    if Submitting(c.ctl) {
      SubmitCosts(c.threads, JobOf(c.ctl.batch[0]));
    }
  }

  lemma UnchangedIsUnchanged(c: State, s: Offload.State)
    requires Simulates(c, s) && Offload.DispatcherStep(s) == s
    ensures DispatchStep(c) == c
  {
    if !Submitting(c.ctl) {
      DispatcherIgnoresJobs(s, Seen(c));
      hide Offload.DispatcherStep, Linked;
    }
  }

  lemma ThreadDescends(c: State, s: Offload.State, x: Threads.Event, e: Option<Offload.Event>)
    requires Safety.Inv(s) && Proofs.Inv(c.threads) && IsThread(x) && Proofs.Internal(x) && ThreadStep(c, x) != c
    requires e.Some? ==> e.value.WorkerStart? || e.value.WorkerFinish?
    ensures Rank(ThreadStep(c, x), if e.Some? then Offload.Step(s, e.value) else s) < Rank(c, s)
  {
    Proofs.StepDescends(c.threads, x);
    assert Threads.Step(c.threads, x) != c.threads;
    if e.Some? {
      Progress.WorkerStepDescends(s, e.value);
    }
    hide Progress.Rank, Proofs.Rank, Threads.Step, Offload.Step;
  }

  ghost function Effective(c: State, run: seq<Event>): nat {
    if run == [] then 0
    else
      var n := |run| - 1;
      var before := Exec(c, run[..n]);
      Effective(c, run[..n]) + B(Step(before, run[n]) != before)
  }

  /** Left to itself the whole host, threads and wakeups included, takes at most `Rank` steps. */
  lemma {:induction false} ComposedSettles(c: State, s: Offload.State, run: seq<Event>) returns (s': Offload.State)
    requires Simulates(c, s) && Safety.Inv(s) && Proofs.Inv(c.threads) && forall e <- run :: Internal(e)
    ensures Simulates(Exec(c, run), s') && Safety.Inv(s') && Proofs.Inv(Exec(c, run).threads)
    ensures Effective(c, run) + Rank(Exec(c, run), s') <= Rank(c, s)
  {
    s' := s;
    if run != [] {
      var n := |run| - 1;
      s' := ComposedSettles(c, s, run[..n]);
      var before := Exec(c, run[..n]);
      assert Exec(c, run) == Step(before, run[n]) && run[n] in run;
      hide Exec;
      s' := OneStepSettles(before, s', run[n]);
    }
  }

  lemma OneStepSettles(c: State, s: Offload.State, e: Event) returns (s': Offload.State)
    requires Simulates(c, s) && Safety.Inv(s) && Proofs.Inv(c.threads) && Internal(e)
    ensures Simulates(Step(c, e), s') && Safety.Inv(s') && Proofs.Inv(Step(c, e).threads)
    ensures B(Step(c, e) != c) + Rank(Step(c, e), s') <= Rank(c, s)
  {
    StepKeepsPoolInv(c, e);
    s' := s;
    if Step(c, e) != c {
      var x := StepIsSimulated(c, s, e);
      if x.Some? {
        Safety.StepKeepsInv(s, x.value);
        s' := Offload.Step(s, x.value);
      }
      hide Simulates, Safety.Inv, Proofs.Inv, Rank, Offload.DispatcherStep;
      if e.Dispatcher? {
        DispatchDescends(c, s);
      } else {
        ThreadDescends(c, s, e.step, x);
      }
    }
  }
}
