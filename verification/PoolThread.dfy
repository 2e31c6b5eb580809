/**
 One pool thread as the loop it is, with the rest of the pool acting whenever the thread
 does not hold the lock.

 `plan` is a finite prefix of what the others do: its next entry happens each time the lock
 is free. The loop is proved to play the plan: everyone's steps so far are the consumed
 entries in order, each followed by the step the thread was about to take (none while it
 sleeps), and the pool is in the state those steps lead to.
 */
module PoolThread {
  import opened Common
  import opened PoolModel
  import opened PoolProofs

  // ---------------------------------------------------------------- playing a plan

  predicate IsOwn(e: Event, me: nat) {
    e == Check(me) || e == Complete(me)
  }

  /** The steps of thread `me`. */
  function Mine(me: nat): Event -> bool {
    (e: Event) => IsOwn(e, me)
  }

  /** The step a thread takes next: a critical section when awake, the end of its job when
      running one, nothing while it sleeps or is gone. */
  function Own(t: Thread, me: nat): seq<Event> {
    match t
    case Awake => [Check(me)]
    case Running(_) => [Complete(me)]
    case Waiting => []
    case Exited => []
  }

  /** What thread `me` is doing after a trace. */
  function Doing(workers: nat, me: nat, trace: seq<Event>): Thread {
    var p := Exec(Init(workers), trace);
    if me < |p.threads| then p.threads[me] else Exited
  }

  /** Each entry happens, and then the thread takes the step it was about to take. */
  function Played(workers: nat, me: nat, entries: seq<seq<Event>>): seq<Event> {
    if entries == [] then []
    else
      var n := |entries| - 1;
      var before := Played(workers, me, entries[..n]);
      before + Others(entries[n], Mine(me)) + Own(Doing(workers, me, before), me)
  }

  ghost predicate Between(workers: nat, me: nat, plan: seq<seq<Event>>, schedule: seq<seq<Event>>, trace: seq<Event>) {
    Suffix(schedule, plan) && trace == Played(workers, me, plan[..|plan| - |schedule|])
  }

  /** The events of the entry before `schedule` have happened up to the `i`th; the thread was
      doing `was` before them and its own step is still to come. */
  ghost predicate During(workers: nat, me: nat, plan: seq<seq<Event>>, schedule: seq<seq<Event>>, trace: seq<Event>, i: nat, was: Thread) {
    && |schedule| < |plan| && Suffix(schedule, plan)
    && var n := |plan| - |schedule| - 1;
       var before := Played(workers, me, plan[..n]);
       i <= |plan[n]| && trace == before + Others(plan[n][..i], Mine(me)) && was == Doing(workers, me, before)
  }

  lemma EntryBegins(workers: nat, me: nat, plan: seq<seq<Event>>, schedule: seq<seq<Event>>, trace: seq<Event>)
    requires Between(workers, me, plan, schedule, trace) && schedule != []
    ensures During(workers, me, plan, schedule[1..], trace, 0, Doing(workers, me, trace))
    ensures plan[|plan| - |schedule|] == schedule[0]
  {
    hide Doing;
    var n := |plan| - |schedule|;
    assert schedule[0] == plan[n] && plan[n][..0] == [];
  }

  lemma EventHappens(workers: nat, me: nat, plan: seq<seq<Event>>, schedule: seq<seq<Event>>, trace: seq<Event>, i: nat, was: Thread, e: Event)
    requires During(workers, me, plan, schedule, trace, i, was)
    requires i < |plan[|plan| - |schedule| - 1]| && e == plan[|plan| - |schedule| - 1][i]
    ensures During(workers, me, plan, schedule, if IsOwn(e, me) then trace else trace + [e], i + 1, was)
  {
    hide Played, Doing, Others, IsOwn;
    OthersNext(plan[|plan| - |schedule| - 1], Mine(me), i);
  }

  lemma StepEnds(workers: nat, me: nat, plan: seq<seq<Event>>, schedule: seq<seq<Event>>, trace: seq<Event>, was: Thread)
    requires |schedule| < |plan| && During(workers, me, plan, schedule, trace, |plan[|plan| - |schedule| - 1]|, was)
    ensures Between(workers, me, plan, schedule, trace + Own(was, me))
  {
    hide Doing, Own;
    var n := |plan| - |schedule| - 1;
    assert plan[n][..|plan[n]|] == plan[n] && plan[..n + 1][..n] == plan[..n];
  }

  /** Others cannot act for a thread, but they can wake it. */
  predicate LeftBy(was: Thread, now: Thread) {
    now == was || (was.Waiting? && now.Awake?)
  }

  class Worker {
    const workers: nat
    const me: nat
    var pool: Pool
    var schedule: seq<seq<Event>>
    ghost const plan: seq<seq<Event>>
    ghost var trace: seq<Event>

    ghost predicate InState()
      reads this
    {
      pool == Exec(Init(workers), trace) && |pool.threads| == workers && me < workers
    }

    /** The consumed part of the plan has been played, and the pool is in the state it leads to. */
    ghost predicate Valid()
      reads this
    {
      InState() && Between(workers, me, plan, schedule, trace)
    }

    /** The others have acted and the thread, which was doing `was`, is about to act. */
    ghost predicate Due(was: Thread)
      reads this
    {
      InState() && |schedule| < |plan| && During(workers, me, plan, schedule, trace, |plan[|plan| - |schedule| - 1]|, was)
    }

    constructor (workers: nat, me: nat, schedule: seq<seq<Event>>)
      requires me < workers
      ensures Valid() && pool == Init(workers) && plan == this.schedule == schedule && this.me == me
    {
      this.workers, this.me := workers, me;
      this.schedule := schedule;
      plan := schedule;
      pool := Init(workers);
      trace := [];
      new;
      assert plan[..0] == [];
    }

    /** The others act: the next entry of the schedule happens. */
    method Interfere()
      requires Valid() && schedule != []
      modifies this`pool, this`schedule, this`trace
      ensures Due(old(pool.threads[me])) && schedule == old(schedule)[1..]
      ensures LeftBy(old(pool.threads[me]), pool.threads[me])
    {
      EntryBegins(workers, me, plan, schedule, trace);
      var events := schedule[0];
      schedule := schedule[1..];
      ghost var was := pool.threads[me];
      hide Exec, Between, During, Played;
      var i := 0;
      while i < |events|
        invariant 0 <= i <= |events| && |schedule| < |plan| && events == plan[|plan| - |schedule| - 1] && schedule == old(schedule)[1..]
        invariant InState() && During(workers, me, plan, schedule, trace, i, was) && LeftBy(was, pool.threads[me])
      {
        Happen(events, i, was);
        i := i + 1;
      }
    }

    method Happen(events: seq<Event>, i: nat, ghost was: Thread)
      requires |schedule| < |plan| && events == plan[|plan| - |schedule| - 1] && i < |events|
      requires InState() && During(workers, me, plan, schedule, trace, i, was) && LeftBy(was, pool.threads[me])
      modifies this`pool, this`trace
      ensures InState() && During(workers, me, plan, schedule, trace, i + 1, was) && LeftBy(was, pool.threads[me])
    {
      hide Exec, During, Step;
      EventHappens(workers, me, plan, schedule, trace, i, was, events[i]);
      if !IsOwn(events[i], me) {
        OthersLeave(pool, events[i], me);
        ExecSnoc(Init(workers), trace, events[i]);
        pool := Step(pool, events[i]);
        trace := trace + [events[i]];
      }
    }

    /** Record the thread's own step, if it took one. */
    ghost method Tick(before: Pool, was: Thread)
      requires before == Exec(Init(workers), trace) && |before.threads| == workers && me < workers
      requires |schedule| < |plan| && During(workers, me, plan, schedule, trace, |plan[|plan| - |schedule| - 1]|, was)
      requires if was.Awake? then pool == Step(before, Check(me)) else if was.Running? then pool == Step(before, Complete(me)) else pool == before
      modifies this`trace
      ensures Valid()
    {
      hide Exec, During, Between, Step;
      StepEnds(workers, me, plan, schedule, trace, was);
      if was.Awake? {
        ExecSnoc(Init(workers), trace, Check(me));
        KeepsThreads(before, Check(me));
      } else if was.Running? {
        ExecSnoc(Init(workers), trace, Complete(me));
        KeepsThreads(before, Complete(me));
      } else {
        assert trace + [] == trace;
      }
      trace := trace + Own(was, me);
    }

    /** Run one job with the lock released; a panic in it ends here too. */
    method RunJob(job: Job)
      requires Valid() && pool.threads[me] == Running(job) && schedule != []
      modifies this`pool, this`schedule, this`trace
      ensures Valid() && pool.threads[me].Awake? && schedule == old(schedule)[1..]
      ensures |pool.finished| > 0 && pool.finished[|pool.finished| - 1] == job
    {
      hide Exec, During, Between;
      Interfere();
      ghost var before := pool;
      pool := pool.(finished := pool.finished + [job], threads := pool.threads[me := Awake]);
      Tick(before, Running(job));
    }

    /** Sleep on the condition variable until it returns, for whatever reason. */
    method Wait()
      requires Valid() && pool.threads[me].Waiting?
      modifies this`pool, this`schedule, this`trace
      ensures Valid() && Suffix(schedule, old(schedule))
      ensures pool.threads[me].Awake? || (pool.threads[me].Waiting? && schedule == [])
    {
      hide Exec, During, Between, Suffix;
      SuffixOfSelf(schedule);
      while pool.threads[me].Waiting? && schedule != []
        invariant Valid() && (pool.threads[me].Waiting? || pool.threads[me].Awake?) && Suffix(schedule, old(schedule))
        decreases |schedule|
      {
        SuffixShrinks(schedule, old(schedule));
        Interfere();
        Tick(pool, Waiting);
      }
    }

    /** One critical section: take the oldest job, leave, or go to sleep. */
    method CheckQueue() returns (job: Option<Job>)
      requires Valid() && pool.threads[me].Awake? && schedule != []
      modifies this`pool, this`schedule, this`trace
      ensures Valid() && schedule == old(schedule)[1..]
      ensures job.Some? ==> pool.threads[me] == Running(job.value) && |pool.started| > 0 && pool.started[|pool.started| - 1] == job.value
      ensures job.None? ==> pool.jobs == [] && pool.threads[me] == if pool.shutdown then Exited else Waiting
    {
      hide Exec, During, Between;
      Interfere();
      ghost var before := pool;
      job := None;
      if pool.jobs != [] {
        job := Some(pool.jobs[0]);
        pool := pool.(jobs := pool.jobs[1..], started := pool.started + [job.value], threads := pool.threads[me := Running(job.value)]);
      } else if pool.shutdown {
        pool := pool.(threads := pool.threads[me := Exited]);
      } else {
        pool := pool.(threads := pool.threads[me := Waiting]);
      }
      Tick(before, Awake);
    }

    /** Pop and run until shutdown, playing the plan as far as it goes. The thread leaves only
        when the queue is drained, and when all threads have left every submitted job has run. */
    method WorkerLoop() returns (exited: bool)
      requires Valid() && pool.threads[me].Awake?
      modifies this`pool, this`schedule, this`trace
      ensures Valid() && Suffix(schedule, old(schedule)) && (!exited ==> schedule == [])
      ensures trace == Played(workers, me, plan[..|plan| - |schedule|]) && pool == Exec(Init(workers), trace)
      ensures exited <==> pool.threads[me].Exited?
      ensures exited ==> pool.shutdown && pool.jobs == []
      ensures exited && (forall t <- pool.threads :: t.Exited?) ==> multiset(pool.finished) == multiset(pool.submitted)
    {
      hide Exec, Played, Suffix, During;
      exited := Loop();
      if forall t <- pool.threads :: t.Exited? {
        LastExit(workers, trace);
      }
    }

    method Loop() returns (exited: bool)
      requires Valid() && pool.threads[me].Awake?
      modifies this`pool, this`schedule, this`trace
      ensures Valid() && Suffix(schedule, old(schedule)) && (!exited ==> schedule == [])
      ensures exited <==> pool.threads[me].Exited?
      ensures exited ==> pool.shutdown && pool.jobs == []
    {
      hide Exec, During, Between, Suffix;
      SuffixOfSelf(schedule);
      exited := false;
      while !exited && schedule != []
        invariant Valid() && Suffix(schedule, old(schedule)) && (exited <==> pool.threads[me].Exited?)
        invariant exited || schedule == [] || pool.threads[me].Awake?
        invariant exited ==> pool.shutdown && pool.jobs == []
        decreases |schedule|
      {
        SuffixShrinks(schedule, old(schedule));
        var job := CheckQueue();
        if job.Some? {
          if schedule != [] {
            SuffixShrinks(schedule, old(schedule));
            RunJob(job.value);
          }
        } else if pool.shutdown {
          exited := true;
        } else {
          ghost var left := schedule;
          Wait();
          SuffixOfSuffix(schedule, left, old(schedule));
        }
      }
    }
  }

  lemma LastExit(workers: nat, trace: seq<Event>)
    requires forall t <- Exec(Init(workers), trace).threads :: t.Exited?
    ensures var p := Exec(Init(workers), trace); multiset(p.finished) == multiset(p.submitted)
  {
    Reachable(workers, trace);
    AllRan(Exec(Init(workers), trace));
  }

  lemma KeepsThreads(p: Pool, e: Event)
    ensures |Step(p, e).threads| == |p.threads|
  {
  }

  lemma OthersLeave(p: Pool, e: Event, me: nat)
    requires me < |p.threads| && !IsOwn(e, me)
    ensures |Step(p, e).threads| == |p.threads|
    ensures LeftBy(p.threads[me], Step(p, e).threads[me]) && (p.threads[me].Awake? ==> Step(p, e).threads[me].Awake?)
  {
  }
}
