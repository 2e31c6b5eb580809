/**
 The dispatcher's loop as the program it is: nested loops over mutable locals, a queue,
 a pool and a channel that other threads change between any two statements.

 `plan` is a finite prefix of what the others do: its next entry happens before each
 statement of the dispatcher. The loop is proved to play the plan: everyone's steps so far
 are the consumed entries in order, each followed by one step of the dispatcher, and the
 loop is in the state those steps lead to. So all that is proved about reachable states
 holds of this loop.
 */
module DispatcherLoop {
  import opened Common
  import opened OffloadModel
  import opened OffloadSafety

  // ---------------------------------------------------------------- playing a plan

  /** The dispatcher's own steps. */
  function Own(): Event -> bool {
    (e: Event) => e.Dispatcher?
  }

  /** Each entry happens, and then the dispatcher executes one statement. */
  function Played(entries: seq<seq<Event>>): seq<Event> {
    if entries == [] then []
    else
      var n := |entries| - 1;
      Played(entries[..n]) + Others(entries[n], Own()) + [Event.Dispatcher]
  }

  /** `schedule` is what is left of the plan, and the rest has been played. */
  ghost predicate Between(plan: seq<seq<Event>>, schedule: seq<seq<Event>>, trace: seq<Event>) {
    Suffix(schedule, plan) && trace == Played(plan[..|plan| - |schedule|])
  }

  /** The events of the entry before `schedule` have happened up to the `i`th, and the
      dispatcher's statement is still to come. */
  ghost predicate During(plan: seq<seq<Event>>, schedule: seq<seq<Event>>, trace: seq<Event>, i: nat) {
    && |schedule| < |plan| && Suffix(schedule, plan)
    && var n := |plan| - |schedule| - 1;
       i <= |plan[n]| && trace == Played(plan[..n]) + Others(plan[n][..i], Own())
  }

  lemma EntryBegins(plan: seq<seq<Event>>, schedule: seq<seq<Event>>, trace: seq<Event>)
    requires Between(plan, schedule, trace) && schedule != []
    ensures During(plan, schedule[1..], trace, 0)
    ensures plan[|plan| - |schedule|] == schedule[0]
  {
    var n := |plan| - |schedule|;
    assert schedule[0] == plan[n] && plan[n][..0] == [];
  }

  lemma EventHappens(plan: seq<seq<Event>>, schedule: seq<seq<Event>>, trace: seq<Event>, i: nat, e: Event)
    requires During(plan, schedule, trace, i) && i < |plan[|plan| - |schedule| - 1]| && e == plan[|plan| - |schedule| - 1][i]
    ensures During(plan, schedule, if e.Dispatcher? then trace else trace + [e], i + 1)
  {
    hide Played, Others;
    OthersNext(plan[|plan| - |schedule| - 1], Own(), i);
  }

  lemma StatementEnds(plan: seq<seq<Event>>, schedule: seq<seq<Event>>, trace: seq<Event>)
    requires |schedule| < |plan| && During(plan, schedule, trace, |plan[|plan| - |schedule| - 1]|)
    ensures Between(plan, schedule, trace + [Event.Dispatcher])
  {
    var n := |plan| - |schedule| - 1;
    assert plan[n][..|plan[n]|] == plan[n] && plan[..n + 1][..n] == plan[..n];
  }

  // ---------------------------------------------------------------- what the others do

  /** What an entry of the plan does to the world: it posts, kicks and signals as it says,
      and moves work items only inside the pool and the channel. */
  ghost predicate Disturbed(w: World, w': World, events: seq<Event>) {
    && w'.ring.popped == w.ring.popped && w'.ring.completed == w.ring.completed
    && InPool(w'.pool) == InPool(w.pool) && w'.pool.workers == w.pool.workers && w.pool.done <= w'.pool.done
    && w'.ring.kicked == (w.ring.kicked || Kick in events)
    && w'.ring.corrupt == (w.ring.corrupt || Corrupt in events)
    && w'.wakers.stopSent == (w.wakers.stopSent || StopSignal in events)
  }

  lemma Undisturbed(w: World)
    ensures Disturbed(w, w, [])
  {
  }

  lemma DisturbedMore(w: World, w': World, events: seq<Event>, e: Event)
    requires Disturbed(w, w', events)
    ensures Disturbed(w, WorldStep(w', e), events + [e])
  {
    WorldStepFrames(w', e);
    hide InPool;
  }

  class Dispatcher {
    const workers: nat
    // shared with the guest, the pool threads and the caller of stop
    var ring: Ring
    var pool: Pool
    var wakers: Wakers
    var schedule: seq<seq<Event>>
    // locals of the loop
    var batch: seq<Work>
    var inflight: int
    var stopping: bool
    var failed: bool
    // the whole plan, the position in the loop, and the steps taken so far by everyone
    ghost const plan: seq<seq<Event>>
    ghost var pc: Pc
    ghost var trace: seq<Event>

    ghost function Shared(): World
      reads this
    {
      World(ring, pool, wakers)
    }

    ghost function View(): State
      reads this
    {
      State(Shared(), Control(pc, batch, inflight, stopping, failed))
    }

    /** The loop has played the consumed part of the plan and is in the state it leads to. */
    ghost predicate Valid()
      reads this
    {
      Between(plan, schedule, trace) && View() == Exec(Init(workers), trace)
    }

    /** The others have acted and the dispatcher's next statement is due. */
    ghost predicate Due()
      reads this
    {
      && |schedule| < |plan| && During(plan, schedule, trace, |plan[|plan| - |schedule| - 1]|)
      && View() == Exec(Init(workers), trace)
    }

    constructor (workers: nat, schedule: seq<seq<Event>>)
      ensures Valid() && pc == Draining && plan == this.schedule == schedule && this.workers == workers
    {
      this.workers := workers;
      this.schedule := schedule;
      plan := schedule;
      ring := Ring([], false, false, false, [], []);
      pool := Pool(workers, [], [], []);
      wakers := Wakers(false, false, false, false, false);
      batch, inflight, stopping, failed := [], 0, false, false;
      pc, trace := Draining, [];
      new;
      assert plan[..0] == [];
    }

    /** The others act: the next entry of the schedule happens. */
    method Interfere()
      requires Valid() && schedule != []
      modifies this`ring, this`pool, this`wakers, this`schedule, this`trace
      ensures Due() && schedule == old(schedule)[1..]
      ensures Disturbed(old(Shared()), Shared(), old(schedule)[0])
    {
      EntryBegins(plan, schedule, trace);
      var events := schedule[0];
      schedule := schedule[1..];
      Undisturbed(Shared());
      var i := 0;
      hide *;
      assert events[..0] == [];
      while i < |events|
        invariant 0 <= i <= |events| && schedule == old(schedule)[1..] && |schedule| < |plan| && events == plan[|plan| - |schedule| - 1]
        invariant During(plan, schedule, trace, i) && View() == Exec(Init(workers), trace)
        invariant Disturbed(old(Shared()), Shared(), events[..i])
      {
        Happen(old(Shared()), events, i);
        i := i + 1;
      }
      assert events[..i] == events;
      BecomesDue();
    }

    lemma BecomesDue()
      requires |schedule| < |plan| && During(plan, schedule, trace, |plan[|plan| - |schedule| - 1]|)
      requires View() == Exec(Init(workers), trace)
      ensures Due()
    {
    }

    /** One event of the entry happens; the dispatcher itself is not moved by others. */
    method Happen(ghost w: World, events: seq<Event>, i: nat)
      requires |schedule| < |plan| && events == plan[|plan| - |schedule| - 1] && i < |events|
      requires During(plan, schedule, trace, i) && View() == Exec(Init(workers), trace)
      requires Disturbed(w, Shared(), events[..i])
      modifies this`ring, this`pool, this`wakers, this`trace
      ensures During(plan, schedule, trace, i + 1) && View() == Exec(Init(workers), trace)
      ensures Disturbed(w, Shared(), events[..i + 1])
    {
      hide Exec, Disturbed, During, WorldStep;
      EventHappens(plan, schedule, trace, i, events[i]);
      DisturbedMore(w, Shared(), events[..i], events[i]);
      assert events[..i + 1] == events[..i] + [events[i]];
      if events[i].Dispatcher? {
        NoWorldStep(Shared());
      } else {
        ExecSnoc(Init(workers), trace, events[i]);
        var now := WorldStep(World(ring, pool, wakers), events[i]);
        ring, pool, wakers := now.ring, now.pool, now.wakers;
        trace := trace + [events[i]];
      }
    }

    /** Record that the dispatcher has executed one statement. */
    ghost method Tick(before: State)
      requires |schedule| < |plan| && During(plan, schedule, trace, |plan[|plan| - |schedule| - 1]|)
      requires before == Exec(Init(workers), trace) && View() == DispatcherStep(before)
      modifies this`trace
      ensures Valid()
    {
      hide Exec, During, Between, DispatcherStep;
      StatementEnds(plan, schedule, trace);
      ExecSnoc(Init(workers), trace, Event.Dispatcher);
      trace := trace + [Event.Dispatcher];
    }

    // -------------------------------------------------------------- pop

    /** Pop one available chain, or find that there is nothing more to pop. */
    method DrainOne() returns (more: bool)
      requires Valid() && pc == Draining && schedule != []
      modifies this`ring, this`pool, this`wakers, this`schedule, this`trace, this`pc, this`batch, this`failed
      ensures Valid() && pc == (if more then Draining else Deciding) && schedule == old(schedule)[1..]
      ensures ring.completed == old(ring.completed) && InPool(pool) == old(InPool(pool))
      ensures if more then |batch| > 0 && batch == old(batch) + [batch[|batch| - 1]] && ring.popped == old(ring.popped) + [batch[|batch| - 1]]
              else batch == old(batch) && ring.popped == old(ring.popped)
      ensures !more ==> stopping || failed || ring.avail == []
      ensures (failed ==> old(failed) || ring.corrupt) && (old(ring.corrupt) ==> ring.corrupt)
      ensures (stopping || old(failed) || ring.corrupt ==> !more) && (!stopping && ring.corrupt ==> failed)
    {
      hide Exec, During, Between, InPool;
      Interfere();
      ghost var before := View();
      more := false;
      if stopping || failed {
      } else if ring.corrupt {
        failed := true;
      } else if ring.avail != [] {
        more := true;
        batch := batch + [ring.avail[0]];
        ring := ring.(avail := ring.avail[1..], popped := ring.popped + [ring.avail[0]]);
      }
      pc := if more then Draining else Deciding;
      Tick(before);
    }

    /** Pop everything available into `batch`, unless stopping or failed: what was popped is
        what the batch gained, and it ends with nothing available, a corrupt ring or popping
        switched off. */
    method Drain()
      requires Valid() && pc == Draining
      modifies this`ring, this`pool, this`wakers, this`schedule, this`trace, this`pc, this`batch, this`failed
      ensures Valid() && (pc == Draining || pc == Deciding) && (schedule == [] || pc == Deciding)
      ensures Suffix(schedule, old(schedule)) && (old(schedule) != [] ==> |schedule| < |old(schedule)|)
      ensures old(batch) <= batch && ring.popped == old(ring.popped) + batch[|old(batch)|..] && ring.completed == old(ring.completed)
      ensures pc == Deciding ==> stopping || failed || ring.avail == []
      ensures failed ==> old(failed) || ring.corrupt
      ensures pc == Deciding && !stopping && ring.corrupt ==> failed
      ensures old(ring.corrupt) ==> batch == old(batch)
    {
      hide *;
      var more := true;
      NothingDrained(ring.popped, batch, schedule);
      while more && schedule != []
        invariant Valid() && pc == (if more then Draining else Deciding)
        invariant Suffix(schedule, old(schedule)) && |schedule| <= |old(schedule)|
        invariant !more && old(schedule) != [] ==> |schedule| < |old(schedule)|
        invariant Drained(old(ring.popped), old(batch), ring.popped, batch) && ring.completed == old(ring.completed)
        invariant !more ==> stopping || failed || ring.avail == []
        invariant failed ==> old(failed) || ring.corrupt
        invariant !more && !stopping && ring.corrupt ==> failed
        invariant old(ring.corrupt) ==> ring.corrupt && batch == old(batch)
        decreases |schedule|
      {
        ghost var batch0, popped0, left := batch, ring.popped, schedule;
        more := DrainOne();
        SuffixShrinks(left, old(schedule));
        if more {
          DrainedMore(old(ring.popped), old(batch), popped0, batch0, batch[|batch| - 1]);
        }
      }
      DrainedMeans(old(ring.popped), old(batch), ring.popped, batch);
    }

    // -------------------------------------------------------------- dispatch

    /** Choose: take a lone request on an idle queue out of the batch, or fan out. */
    method Decide() returns (lone: bool, work: Work)
      requires Valid() && pc == Deciding && schedule != []
      modifies this`ring, this`pool, this`wakers, this`schedule, this`trace, this`pc, this`batch
      ensures Valid() && pc == (if lone then Inlining(work) else Fanning) && schedule == old(schedule)[1..]
      ensures lone <==> inflight == 0 && |old(batch)| == 1
      ensures if lone then old(batch) == [work] && batch == [] else batch == old(batch)
      ensures ring.popped == old(ring.popped) && ring.completed == old(ring.completed) && InPool(pool) == old(InPool(pool))
    {
      hide Exec, During, Between, InPool;
      Interfere();
      ghost var before := View();
      lone := inflight == 0 && |batch| == 1;
      if lone {
        work := batch[0];
        batch := [];
      } else {
        work := Work(0, 0, Panicked);
      }
      pc := if lone then Inlining(work) else Fanning;
      Tick(before);
    }

    /** Dispatch a lone request here, and complete it. */
    method Inline(work: Work)
      requires Valid() && pc == Inlining(work) && schedule != []
      modifies this`ring, this`pool, this`wakers, this`schedule, this`trace, this`pc
      ensures Valid() && pc == Draining && schedule == old(schedule)[1..]
      ensures |ring.completed| == |old(ring.completed)| + 1 && ring.completed[..|old(ring.completed)|] == old(ring.completed)
      ensures var u := ring.completed[|old(ring.completed)|];
        && u.work == work
        && match work.outcome case Replied(n) => u.bytes == n case Panicked => u.bytes == 0
      ensures ring.popped == old(ring.popped) && InPool(pool) == old(InPool(pool))
    {
      hide Exec, During, Between, InPool;
      Interfere();
      ghost var before := View();
      var bytes := match work.outcome case Replied(n) => n case Panicked => 0;
      ring := ring.(completed := ring.completed + [Used(work, bytes)]);
      pc := Draining;
      Tick(before);
    }

    /** Queue one job, or run it on the spot when the pool has no threads. */
    method SubmitJob(work: Work)
      requires workers == pool.workers
      modifies this`pool, this`wakers
      ensures World(ring, pool, wakers) == Submit(old(World(ring, pool, wakers)), work)
    {
      if workers == 0 {
        pool := pool.(done := pool.done + [Finish(work)]);
        wakers := wakers.(woken := wakers.woken || wakers.doneArmed, doneArmed := false);
      } else {
        pool := pool.(queued := pool.queued + [work]);
      }
    }

    /** Submit one job of the batch and count it. */
    method FanOne()
      requires Valid() && pc == Fanning && batch != [] && schedule != []
      modifies this`ring, this`pool, this`wakers, this`schedule, this`trace, this`batch, this`inflight
      ensures Valid() && schedule == old(schedule)[1..]
      ensures batch == old(batch)[1..] && inflight == old(inflight) + 1
      ensures InPool(pool) == old(InPool(pool)) + multiset{old(batch)[0]}
      ensures ring.popped == old(ring.popped) && ring.completed == old(ring.completed)
    {
      hide Exec, During, Between, InPool, Submit;
      Interfere();
      ghost var before := View();
      WorkersAreFixed(workers, trace);
      SubmitFillsPool(Shared(), batch[0]);
      SubmitKeepsRing(Shared(), batch[0]);
      inflight := inflight + 1;
      SubmitJob(batch[0]);
      batch := batch[1..];
      Tick(before);
    }

    /** Submit the batch to the pool, one job at a time: the jobs gone from the batch are in
        the pool or its channel, and each is counted in flight. */
    method FanOut()
      requires Valid() && pc == Fanning
      modifies this`ring, this`pool, this`wakers, this`schedule, this`trace, this`batch, this`inflight
      ensures Valid() && (schedule == [] || batch == []) && Suffix(schedule, old(schedule))
      ensures Suffix(batch, old(batch)) && inflight == old(inflight) + |old(batch)| - |batch|
      ensures InPool(pool) + multiset(batch) == old(InPool(pool)) + multiset(old(batch))
      ensures ring.popped == old(ring.popped) && ring.completed == old(ring.completed)
    {
      hide *;
      SuffixOfSelf(schedule);
      SuffixOfSelf(batch);
      while batch != [] && schedule != []
        invariant Valid() && pc == Fanning && Suffix(schedule, old(schedule))
        invariant Suffix(batch, old(batch)) && inflight == old(inflight) + |old(batch)| - |batch|
        invariant InPool(pool) + multiset(batch) == old(InPool(pool)) + multiset(old(batch))
        invariant ring.popped == old(ring.popped) && ring.completed == old(ring.completed)
        decreases |schedule|
      {
        SuffixShrinks(schedule, old(schedule));
        SuffixShrinks(batch, old(batch));
        HeadAndTail(batch);
        FanOne();
      }
    }

    /** After the fan-out: return the queue if stopped with nothing in flight, else poll. */
    method ReturnIfQuiesced() returns (finished: bool)
      requires Valid() && pc == Fanning && batch == [] && schedule != []
      modifies this`ring, this`pool, this`wakers, this`schedule, this`trace, this`pc
      ensures Valid() && pc == (if finished then Returned else PollDone(false)) && schedule == old(schedule)[1..]
      ensures finished <==> stopping && inflight == 0
      ensures ring.popped == old(ring.popped) && ring.completed == old(ring.completed) && InPool(pool) == old(InPool(pool))
    {
      hide Exec, During, Between, InPool;
      Interfere();
      ghost var before := View();
      finished := stopping && inflight == 0;
      pc := if finished then Returned else PollDone(false);
      Tick(before);
    }

    // -------------------------------------------------------------- wait

    /** Complete the oldest message on the channel, or register for the next one. */
    method ReceiveOne(progressed: bool) returns (more: bool)
      requires Valid() && pc == PollDone(progressed) && schedule != []
      modifies this`ring, this`pool, this`wakers, this`schedule, this`trace, this`pc, this`inflight
      ensures Valid() && pc == (if more then PollDone(true) else PollStop(progressed)) && schedule == old(schedule)[1..]
      ensures ring.popped == old(ring.popped) && inflight == old(inflight) - (if more then 1 else 0)
      ensures old(ring.completed) <= ring.completed && |ring.completed| == |old(ring.completed)| + (if more then 1 else 0)
      ensures !more ==> pool.done == [] && wakers.doneArmed
    {
      hide Exec, During, Between, InPool;
      Interfere();
      ghost var before := View();
      more := pool.done != [];
      if more {
        ring := ring.(completed := ring.completed + [pool.done[0]]);
        pool := pool.(done := pool.done[1..]);
        inflight := inflight - 1;
      } else {
        wakers := wakers.(doneArmed := true);
      }
      pc := if more then PollDone(true) else PollStop(progressed);
      Tick(before);
    }

    /** Complete everything on the channel, each taking one off the count in flight, until the
        channel is empty and its waker registered. */
    method ReceiveAll() returns (progressed: bool)
      requires Valid() && pc == PollDone(false)
      modifies this`ring, this`pool, this`wakers, this`schedule, this`trace, this`pc, this`inflight
      ensures Valid() && Suffix(schedule, old(schedule)) && (schedule == [] || pc == PollStop(progressed))
      ensures pc.PollDone? || pc.PollStop?
      ensures ring.popped == old(ring.popped) && old(ring.completed) <= ring.completed
      ensures |ring.completed| - |old(ring.completed)| == old(inflight) - inflight >= 0
      ensures progressed <==> inflight < old(inflight)
      ensures pc.PollStop? ==> pool.done == [] && wakers.doneArmed
    {
      hide *;
      SuffixOfSelf(schedule);
      progressed := false;
      var more := true;
      while more && schedule != []
        invariant Valid() && pc == (if more then PollDone(progressed) else PollStop(progressed))
        invariant Suffix(schedule, old(schedule))
        invariant ring.popped == old(ring.popped) && old(ring.completed) <= ring.completed
        invariant |ring.completed| - |old(ring.completed)| == old(inflight) - inflight >= 0
        invariant progressed <==> inflight < old(inflight)
        invariant !more ==> pool.done == [] && wakers.doneArmed
        decreases |schedule|
      {
        SuffixShrinks(schedule, old(schedule));
        more := ReceiveOne(progressed);
        progressed := progressed || more;
      }
    }

    /** Observe the stop signal, or register for it. It is polled only until it resolves. */
    method ObserveStop(progressed: bool) returns (progressed': bool)
      requires Valid() && pc == PollStop(progressed) && schedule != []
      modifies this`ring, this`pool, this`wakers, this`schedule, this`trace, this`pc, this`stopping
      ensures Valid() && pc == PollKick(progressed') && schedule == old(schedule)[1..]
      ensures stopping <==> old(stopping) || old(wakers.stopSent) || StopSignal in old(schedule)[0]
      ensures progressed' <==> progressed || (stopping && !old(stopping))
      ensures !stopping ==> wakers.stopArmed
      ensures ring.popped == old(ring.popped) && ring.completed == old(ring.completed) && InPool(pool) == old(InPool(pool))
    {
      hide Exec, During, Between, InPool;
      Interfere();
      ghost var before := View();
      progressed' := progressed;
      if !stopping {
        if wakers.stopSent {
          stopping := true;
          progressed' := true;
        } else {
          wakers := wakers.(stopArmed := true);
        }
      }
      pc := PollKick(progressed');
      Tick(before);
    }

    /** Consume a pending kick, or register for one; when stopping or failed, neither. */
    method ObserveKick(progressed: bool) returns (ready: bool)
      requires Valid() && pc == PollKick(progressed) && schedule != []
      modifies this`ring, this`pool, this`wakers, this`schedule, this`trace, this`pc
      ensures Valid() && pc == (if ready then Draining else Parked) && schedule == old(schedule)[1..]
      ensures stopping || failed ==> ready == progressed
      ensures !stopping && !failed ==>
        && (ready <==> progressed || old(ring.kicked) || Kick in old(schedule)[0])
        && !ring.kicked && (!ready ==> wakers.kickArmed)
      ensures ring.popped == old(ring.popped) && ring.completed == old(ring.completed) && InPool(pool) == old(InPool(pool))
    {
      hide Exec, During, Between, InPool;
      Interfere();
      ghost var before := View();
      ready := progressed;
      if !stopping && !failed {
        if ring.kicked {
          ring := ring.(kicked := false);
          ready := true;
        } else {
          wakers := wakers.(kickArmed := true);
        }
      }
      pc := if ready then Draining else Parked;
      Tick(before);
    }

    /** One look at the wake flag. */
    method SleepOne() returns (asleep: bool)
      requires Valid() && pc == Parked && schedule != []
      modifies this`ring, this`pool, this`wakers, this`schedule, this`trace, this`pc
      ensures Valid() && pc == (if asleep then Parked else PollDone(false)) && schedule == old(schedule)[1..]
      ensures ring.popped == old(ring.popped) && ring.completed == old(ring.completed)
    {
      hide Exec, During, Between, InPool;
      Interfere();
      ghost var before := View();
      asleep := !wakers.woken;
      if !asleep {
        wakers := wakers.(woken := false);
        pc := PollDone(false);
      }
      Tick(before);
    }

    /** Sleep until woken. */
    method Sleep()
      requires Valid() && pc == Parked
      modifies this`ring, this`pool, this`wakers, this`schedule, this`trace, this`pc
      ensures Valid() && (pc == Parked || pc == PollDone(false)) && (schedule == [] || pc == PollDone(false)) && Suffix(schedule, old(schedule))
      ensures ring.popped == old(ring.popped) && ring.completed == old(ring.completed)
    {
      hide *;
      SuffixOfSelf(schedule);
      var asleep := true;
      while asleep && schedule != []
        invariant Valid() && pc == (if asleep then Parked else PollDone(false)) && Suffix(schedule, old(schedule))
        invariant ring.popped == old(ring.popped) && ring.completed == old(ring.completed)
        decreases |schedule|
      {
        SuffixShrinks(schedule, old(schedule));
        asleep := SleepOne();
      }
    }

    /** One pass over the three sources. */
    method Poll() returns (ready: bool)
      requires Valid() && pc == PollDone(false)
      modifies this`ring, this`pool, this`wakers, this`schedule, this`trace, this`pc, this`inflight, this`stopping
      ensures Valid() && Suffix(schedule, old(schedule)) && (old(schedule) != [] ==> |schedule| < |old(schedule)|)
      ensures schedule == [] || pc == (if ready then Draining else Parked)
      ensures ready <==> pc == Draining
      ensures pc != Returned && (ready ==> inflight < old(inflight) || (stopping && !old(stopping)) || (!stopping && !failed && !ring.kicked))
      ensures ring.popped == old(ring.popped) && |ring.completed| - |old(ring.completed)| == old(inflight) - inflight >= 0
      ensures old(stopping) ==> stopping
    {
      hide *;
      ready := false;
      var progressed := ReceiveAll();
      if schedule == [] { return; }
      SuffixShrinks(schedule, old(schedule));
      progressed := ObserveStop(progressed);
      if schedule == [] { return; }
      SuffixShrinks(schedule, old(schedule));
      ready := ObserveKick(progressed);
    }

    /** Poll completions, stop and kick until one of them is ready: a completion was received,
        stop was observed, or a kick was consumed. */
    method Park()
      requires Valid() && pc == PollDone(false)
      modifies this`ring, this`pool, this`wakers, this`schedule, this`trace, this`pc, this`inflight, this`stopping
      ensures Valid() && pc != Returned && (schedule == [] || pc == Draining) && Suffix(schedule, old(schedule))
      ensures pc == Draining ==> inflight < old(inflight) || (stopping && !old(stopping)) || (!stopping && !failed && !ring.kicked)
      ensures ring.popped == old(ring.popped) && |ring.completed| - |old(ring.completed)| == old(inflight) - inflight >= 0
    {
      hide *;
      SuffixOfSelf(schedule);
      var ready := false;
      while !ready && schedule != []
        invariant Valid() && pc != Returned && Suffix(schedule, old(schedule)) && (old(stopping) ==> stopping)
        invariant schedule == [] || pc == (if ready then Draining else PollDone(false))
        invariant pc == Draining ==> inflight < old(inflight) || (stopping && !old(stopping)) || (!stopping && !failed && !ring.kicked)
        invariant ring.popped == old(ring.popped) && |ring.completed| - |old(ring.completed)| == old(inflight) - inflight >= 0
        decreases |schedule|
      {
        ghost var left := schedule;
        ready := Poll();
        SuffixOfSuffix(schedule, left, old(schedule));
        if !ready && schedule != [] {
          left := schedule;
          Sleep();
          SuffixOfSuffix(schedule, left, old(schedule));
        }
      }
    }

    // -------------------------------------------------------------- the loop

    /** Pop, dispatch, collect and complete until stopped, playing the plan as far as it goes.
        When the loop finishes, the used ring holds exactly what the serial device writes for
        the popped requests. */
    method Run() returns (finished: bool)
      requires Valid() && pc == Draining
      modifies this
      ensures Valid() && Suffix(schedule, old(schedule)) && (!finished ==> schedule == [])
      ensures finished <==> pc == Returned
      ensures trace == Played(plan[..|plan| - |schedule|]) && View() == Exec(Init(workers), trace)
      ensures finished ==> stopping && inflight == 0 && batch == [] && pool.queued == [] && pool.running == [] && pool.done == []
      ensures finished ==> multiset(ring.completed) == multiset(SerialDevice(ring.popped))
      ensures forall u <- ring.completed :: u.work.outcome == Replied(u.bytes) || (u.work.outcome == Panicked && u.bytes == 0)
    {
      hide Exec, Played, Suffix, During, SerialDevice;
      finished := Loop();
      CompletionsAreTruthful(workers, trace);
      if finished {
        ReturnedHasServed(workers, trace);
      }
    }

    method Loop() returns (finished: bool)
      requires Valid() && pc == Draining
      modifies this
      ensures Valid() && Suffix(schedule, old(schedule)) && (!finished ==> schedule == [])
      ensures finished <==> pc == Returned
    {
      hide *;
      SuffixOfSelf(schedule);
      finished := false;
      while !finished && schedule != []
        invariant Valid() && Suffix(schedule, old(schedule)) && (finished <==> pc == Returned)
        invariant finished || schedule == [] || pc == Draining
        decreases |schedule|
      {
        ghost var left := schedule;
        finished := Turn();
        SuffixOfSuffix(schedule, left, old(schedule));
      }
    }

    /** One turn of the loop. */
    method Turn() returns (finished: bool)
      requires Valid() && pc == Draining && schedule != []
      modifies this
      ensures Valid() && Suffix(schedule, old(schedule)) && |schedule| < |old(schedule)|
      ensures finished <==> pc == Returned
      ensures finished || schedule == [] || pc == Draining
    {
      hide *;
      finished := false;
      Drain();
      if schedule == [] { return; }
      SuffixShrinks(schedule, old(schedule));
      var lone, work := Decide();
      if schedule == [] { return; }
      ghost var left := schedule;
      if lone {
        SuffixShrinks(schedule, old(schedule));
        Inline(work);
      } else {
        finished := FanOutAndWait();
        SuffixOfSuffix(schedule, left, old(schedule));
      }
    }

    /** The rest of a turn that does not run inline. */
    method FanOutAndWait() returns (finished: bool)
      requires Valid() && pc == Fanning
      modifies this
      ensures Valid() && Suffix(schedule, old(schedule))
      ensures finished <==> pc == Returned
      ensures finished || schedule == [] || pc == Draining
    {
      hide *;
      finished := false;
      FanOut();
      if schedule == [] { return; }
      SuffixShrinks(schedule, old(schedule));
      finished := ReturnIfQuiesced();
      if finished { return; }
      ghost var left := schedule;
      Park();
      SuffixOfSuffix(schedule, left, old(schedule));
    }
  }

  /** What was popped since `popped0` is what the batch gained since `batch0`. */
  ghost predicate Drained(popped0: seq<Work>, batch0: seq<Work>, popped: seq<Work>, batch: seq<Work>) {
    batch0 <= batch && popped == popped0 + batch[|batch0|..]
  }

  lemma NothingDrained(popped: seq<Work>, batch: seq<Work>, schedule: seq<seq<Event>>)
    ensures Drained(popped, batch, popped, batch) && Suffix(schedule, schedule)
  {
    assert batch[|batch|..] == [] && popped + [] == popped;
  }

  lemma DrainedMore(popped0: seq<Work>, batch0: seq<Work>, popped: seq<Work>, batch: seq<Work>, x: Work)
    requires Drained(popped0, batch0, popped, batch)
    ensures Drained(popped0, batch0, popped + [x], batch + [x])
  {
    assert (batch + [x])[|batch0|..] == batch[|batch0|..] + [x];
  }

  lemma DrainedMeans(popped0: seq<Work>, batch0: seq<Work>, popped: seq<Work>, batch: seq<Work>)
    requires Drained(popped0, batch0, popped, batch)
    ensures batch0 <= batch && popped == popped0 + batch[|batch0|..]
  {
  }

  lemma SubmitKeepsRing(w: World, work: Work)
    ensures Submit(w, work).ring == w.ring
  {
  }

  lemma ReturnedHasServed(workers: nat, trace: seq<Event>)
    requires Exec(Init(workers), trace).ctl.pc.Returned?
    ensures var s := Exec(Init(workers), trace);
      && s.ctl.stopping && s.ctl.inflight == 0 && s.ctl.batch == []
      && s.world.pool.queued == [] && s.world.pool.running == [] && s.world.pool.done == []
      && multiset(s.world.ring.completed) == multiset(SerialDevice(s.world.ring.popped))
  {
    Reachable(workers, trace);
    RefinesSerialDevice(workers, trace);
  }

  lemma NoWorldStep(w: World)
    ensures WorldStep(w, Event.Dispatcher) == w
  {
  }

  lemma {:induction false} WorkersAreFixed(workers: nat, schedule: seq<Event>)
    ensures Exec(Init(workers), schedule).world.pool.workers == workers
  {
    if schedule != [] {
      var n := |schedule| - 1;
      WorkersAreFixed(workers, schedule[..n]);
      StepKeepsWorkers(Exec(Init(workers), schedule[..n]), schedule[n]);
    }
  }

  lemma StepKeepsWorkers(s: State, e: Event)
    ensures Step(s, e).world.pool.workers == s.world.pool.workers
  {
  }
}
