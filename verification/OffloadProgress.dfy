/**
 The dispatcher loses no wakeup and always makes progress: from every reachable state it
 takes a bounded number of steps to reach a state with nothing left to do, and a
 dispatcher that has observed stop gets there whatever the guest does meanwhile.
 */
module OffloadProgress {
  import opened Common
  import opened OffloadModel
  import opened OffloadSafety

  // ---------------------------------------------------------------- no lost wakeups

  predicate Listening(c: Control) {
    !c.stopping && !c.failed
  }

  /** Between polling a source and parking, the source's waker is registered or has
      fired, so nothing that arrives in between is missed. */
  predicate Wakeful(s: State) {
    var r, p, k, c := s.world.ring, s.world.pool, s.world.wakers, s.ctl;
    && (c.pc.PollStop? || c.pc.PollKick? || c.pc.Parked? ==>
          (k.doneArmed || k.woken) && (p.done != [] ==> k.woken))
    && ((c.pc.PollKick? || c.pc.Parked?) && !c.stopping ==>
          (k.stopArmed || k.woken) && (k.stopSent ==> k.woken))
    && (c.pc.Parked? && Listening(c) ==>
          (k.kickArmed || k.woken) && (r.kicked ==> k.woken))
    && (!c.pc.Draining? && Listening(c) && r.avail != [] ==> r.kicked || r.owed)
  }

  lemma WorldStepKeepsWakeful(s: State, e: Event)
    requires Wakeful(s) && !e.Dispatcher?
    ensures Wakeful(Step(s, e))
  {
  }

  lemma DispatcherKeepsWakeful(s: State)
    requires Wakeful(s)
    ensures Wakeful(DispatcherStep(s))
  {
  }

  lemma {:induction false} ReachableIsWakeful(workers: nat, schedule: seq<Event>)
    ensures Wakeful(Exec(Init(workers), schedule))
  {
    if schedule != [] {
      var n := |schedule| - 1;
      ReachableIsWakeful(workers, schedule[..n]);
      var s := Exec(Init(workers), schedule[..n]);
      if schedule[n].Dispatcher? {
        DispatcherKeepsWakeful(s);
      } else {
        WorldStepKeepsWakeful(s, schedule[n]);
      }
    }
  }

  /** A parked dispatcher that has not been woken has nothing to receive, no stop to
      observe, no request to pop unless the guest still owes its kick, and is not a stopping
      one with nothing in flight. */
  lemma ParkedMissesNothing(workers: nat, schedule: seq<Event>)
    requires var s := Exec(Init(workers), schedule); s.ctl.pc.Parked? && !s.world.wakers.woken
    ensures var s := Exec(Init(workers), schedule);
            && s.world.pool.done == []
            && (s.world.wakers.stopSent ==> s.ctl.stopping)
            && (Listening(s.ctl) ==> s.world.ring.avail == [] || s.world.ring.owed)
            && (s.ctl.stopping ==> s.ctl.inflight > 0)
  {
    Reachable(workers, schedule);
    ReachableIsWakeful(workers, schedule);
  }

  // ---------------------------------------------------------------- progress

  /** How far the dispatcher is from its next park. */
  function PcRank(pc: Pc): nat {
    match pc
    case Parked => 0
    case Returned => 0
    case PollKick(p) => if p then 7 else 1
    case PollStop(p) => if p then 8 else 2
    case PollDone(p) => if p then 9 else 3
    case Fanning => 4
    case Deciding => 5
    case Draining => 6
    case Inlining(_) => 16
  }

  /** Work still to be done, in units of one trip around the dispatcher's loop. A posted
      chain counts only while the dispatcher still pops. */
  function Load(s: State): nat {
    var r, p, c := s.world.ring, s.world.pool, s.ctl;
    |p.done| + 2 * |p.running| + 3 * |p.queued| + 4 * |c.batch|
    + (if Listening(c) then 5 * |r.avail| + B(r.kicked) else 0)
    + B(!c.stopping) + B(!c.failed)
  }

  function Rank(s: State): nat {
    16 * Load(s) + 8 * (B(s.world.wakers.woken) + B(s.world.wakers.kickArmed && !Listening(s.ctl))) + PcRank(s.ctl.pc)
  }

  /** The events the host itself is responsible for. */
  predicate Internal(e: Event) {
    e.Dispatcher? || e.WorkerStart? || e.WorkerFinish?
  }

  lemma WorkerStepDescends(s: State, e: Event)
    requires e.WorkerStart? || e.WorkerFinish?
    ensures Step(s, e) == s || Rank(Step(s, e)) < Rank(s)
  {
  }

  lemma DrainDescends(w: World, c: Control)
    requires c.pc.Draining?
    ensures Rank(DrainStep(w, c)) < Rank(State(w, c))
  {
  }

  lemma DispatchDescends(s: State)
    requires Counted(s) && Placed(s) && !PastFanOut(s.ctl.pc)
    ensures Rank(DispatcherStep(s)) < Rank(s)
  {
    if s.ctl.pc.Draining? {
      DrainDescends(s.world, s.ctl);
    }
  }

  lemma PollDescends(s: State)
    requires PastFanOut(s.ctl.pc)
    ensures if AtRest(s) then DispatcherStep(s) == s else Rank(DispatcherStep(s)) < Rank(s)
  {
  }

  /** The dispatcher has returned, or is parked with no wakeup pending. */
  predicate AtRest(s: State) {
    s.ctl.pc.Returned? || (s.ctl.pc.Parked? && !s.world.wakers.woken)
  }

  /** Every step of the host that changes anything strictly lowers the rank. */
  lemma InternalStepDescends(s: State, e: Event)
    requires Counted(s) && Placed(s) && Internal(e)
    ensures Step(s, e) == s || Rank(Step(s, e)) < Rank(s)
  {
    if !e.Dispatcher? {
      WorkerStepDescends(s, e);
    } else if PastFanOut(s.ctl.pc) {
      PollDescends(s);
    } else {
      DispatchDescends(s);
    }
  }

  /** Once stop is observed, nothing the guest does raises the rank. */
  lemma GuestCannotDelayStop(s: State, e: Event)
    requires s.ctl.stopping && s.world.wakers.stopSent && !Internal(e)
    ensures Rank(Step(s, e)) <= Rank(s)
  {
  }

  /** How many steps of a schedule are steps of the host that change something. */
  ghost function Effective(s: State, schedule: seq<Event>): nat {
    if schedule == [] then 0
    else
      var n := |schedule| - 1;
      var before := Exec(s, schedule[..n]);
      Effective(s, schedule[..n]) + B(Internal(schedule[n]) && Step(before, schedule[n]) != before)
  }

  /** Left to itself, the host takes at most `Rank` steps. */
  lemma {:induction false} HostSettles(s: State, schedule: seq<Event>)
    requires Inv(s) && forall e <- schedule :: Internal(e)
    ensures Inv(Exec(s, schedule))
    ensures Effective(s, schedule) + Rank(Exec(s, schedule)) <= Rank(s)
  {
    if schedule != [] {
      var n := |schedule| - 1;
      HostSettles(s, schedule[..n]);
      var before := Exec(s, schedule[..n]);
      assert Internal(schedule[n]);
      InternalStepDescends(before, schedule[n]);
      StepKeepsInv(before, schedule[n]);
    }
  }

  /** How much work an event of the guest or of the stop caller can bring. */
  function Cost(e: Event): nat {
    match e
    case Post(_, _) => 80
    case Kick => 24
    case StopSignal => 8
    case _ => 0
  }

  function Costs(schedule: seq<Event>): nat {
    if schedule == [] then 0 else Costs(schedule[..|schedule| - 1]) + Cost(schedule[|schedule| - 1])
  }

  lemma GuestStepCosts(s: State, e: Event)
    requires !Internal(e)
    ensures Rank(Step(s, e)) <= Rank(s) + Cost(e)
  {
  }

  /** Under every schedule, whatever the guest does and whenever, the host takes at most a bounded
      number of effective steps for what was there and for each event from outside. */
  lemma {:induction false} WorkIsBounded(s: State, schedule: seq<Event>)
    requires Inv(s)
    ensures Inv(Exec(s, schedule))
    ensures Effective(s, schedule) + Rank(Exec(s, schedule)) <= Rank(s) + Costs(schedule)
  {
    if schedule != [] {
      var n := |schedule| - 1;
      WorkIsBounded(s, schedule[..n]);
      var before := Exec(s, schedule[..n]);
      StepKeepsInv(before, schedule[n]);
      hide Rank, Cost;
      if Internal(schedule[n]) {
        InternalStepDescends(before, schedule[n]);
      } else {
        GuestStepCosts(before, schedule[n]);
      }
    }
  }

  /** A stopping dispatcher settles within `Rank` host steps under any guest behaviour. */
  lemma {:induction false} StopSettles(s: State, schedule: seq<Event>)
    requires Inv(s) && s.ctl.stopping
    ensures Inv(Exec(s, schedule)) && Exec(s, schedule).ctl.stopping
    ensures Effective(s, schedule) + Rank(Exec(s, schedule)) <= Rank(s)
  {
    if schedule != [] {
      var n := |schedule| - 1;
      StopSettles(s, schedule[..n]);
      var before := Exec(s, schedule[..n]);
      StoppedStep(before, schedule[n]);
      StepKeepsInv(before, schedule[n]);
      if Internal(schedule[n]) {
        InternalStepDescends(before, schedule[n]);
      } else {
        GuestCannotDelayStop(before, schedule[n]);
      }
    }
  }

  /** No step of the host is possible. */
  ghost predicate Settled(s: State) {
    forall e | Internal(e) :: Step(s, e) == s
  }

  lemma SettledIsIdle(s: State)
    requires Counted(s) && Placed(s) && Wakeful(s) && Settled(s)
    ensures AtRest(s) && s.ctl.inflight == 0 && s.ctl.batch == []
    ensures s.ctl.stopping ==> s.ctl.pc.Returned?
    ensures s.world.wakers.stopSent ==> s.ctl.stopping
    ensures Listening(s.ctl) ==> s.world.ring.avail == [] || s.world.ring.owed
  {
    assert Step(s, Dispatcher) == s && Step(s, WorkerFinish(0)) == s && Step(s, WorkerStart) == s;
    if PastFanOut(s.ctl.pc) {
      PollDescends(s);
    } else {
      DispatchDescends(s);
    }
  }

  /** Every request is answered: when the host has nothing left to do, every popped chain
      is completed as the serial device would; a working dispatcher has popped everything
      posted, unless the guest still owes its kick, and a dispatcher told to stop has returned. */
  lemma SettledHasServedAll(workers: nat, schedule: seq<Event>)
    requires Settled(Exec(Init(workers), schedule))
    ensures var s := Exec(Init(workers), schedule);
            && multiset(s.world.ring.completed) == multiset(SerialDevice(s.world.ring.popped))
            && (Listening(s.ctl) && !s.world.ring.owed ==> s.world.ring.popped == Posted(schedule))
            && (s.world.wakers.stopSent ==> s.ctl.pc.Returned?)
  {
    var s := Exec(Init(workers), schedule);
    Reachable(workers, schedule);
    ReachableIsWakeful(workers, schedule);
    SettledIsIdle(s);
    PopsInPostingOrder(workers, schedule);
    SerialServesAll(s.world.ring.popped);
    assert InPool(s.world.pool) == multiset{} && InHand(s.ctl) == multiset{};
    SameWorksSameCompletions(s.world.ring.completed, SerialDevice(s.world.ring.popped));
  }
}
