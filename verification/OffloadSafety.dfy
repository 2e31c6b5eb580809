/**
 What holds in every reachable state of the dispatcher, for every schedule and every
 worker count: no work item is lost or duplicated, the counters are exact, and the
 completions are those of the serial device.
 */
module OffloadSafety {
  import opened Common
  import opened OffloadModel

  ghost function Inline(pc: Pc): multiset<Work> {
    if pc.Inlining? then multiset{pc.work} else multiset{}
  }

  /** Items the dispatcher itself holds, and items the pool and the channel hold. */
  ghost function InHand(c: Control): multiset<Work> {
    multiset(c.batch) + Inline(c.pc)
  }

  ghost function InPool(p: Pool): multiset<Work> {
    multiset(p.queued) + multiset(p.running) + multiset(Works(p.done))
  }

  ghost predicate Conserved(s: State) {
    multiset(s.world.ring.popped) == InHand(s.ctl) + InPool(s.world.pool) + multiset(Works(s.world.ring.completed))
  }

  predicate Honest(us: seq<Used>) {
    forall u <- us :: u == Finish(u.work)
  }

  /** What the guest must see for a request: the bytes of its reply, or none after a panic. */
  predicate Truthful(u: Used) {
    u.work.outcome == Replied(u.bytes) || (u.work.outcome == Panicked && u.bytes == 0)
  }

  lemma HonestIsTruthful(us: seq<Used>)
    requires Honest(us)
    ensures forall u <- us :: Truthful(u)
  {
  }

  predicate Ticketed(r: Ring) {
    && (forall i :: 0 <= i < |r.popped| ==> r.popped[i].ticket == i)
    && (forall i :: 0 <= i < |r.avail| ==> r.avail[i].ticket == |r.popped| + i)
  }

  predicate Counted(s: State) {
    var p, c := s.world.pool, s.ctl;
    && c.inflight == |p.queued| + |p.running| + |p.done|
    && |p.running| <= p.workers
    && (p.workers == 0 ==> p.queued == [])
  }

  /** The dispatcher is polling or parked, or has returned. */
  predicate PastFanOut(pc: Pc) {
    pc.PollDone? || pc.PollStop? || pc.PollKick? || pc.Parked? || pc.Returned?
  }

  /** The dispatcher is in a poll that has made no progress, or parked. */
  predicate Idle(pc: Pc) {
    pc.Parked? || ((pc.PollDone? || pc.PollStop? || pc.PollKick?) && !pc.progressed)
  }

  predicate Placed(s: State) {
    var c := s.ctl;
    && Suffix(c.batch, s.world.ring.popped)
    && (c.pc.Inlining? ==> c.batch == [] && c.inflight == 0 && Suffix([c.pc.work], s.world.ring.popped))
    && (c.stopping ==> c.batch == [] && !c.pc.Inlining? && s.world.wakers.stopSent)
    && (PastFanOut(c.pc) ==> c.batch == [])
    && (c.pc.Returned? ==> c.stopping && c.inflight == 0)
    && (c.stopping && Idle(c.pc) ==> c.inflight > 0)
  }

  ghost predicate Inv(s: State) {
    && Conserved(s) && Honest(s.world.pool.done) && Honest(s.world.ring.completed)
    && Ticketed(s.world.ring) && Counted(s) && Placed(s)
  }

  lemma HeadAndTail<T>(s: seq<T>)
    requires s != []
    ensures multiset(s) == multiset{s[0]} + multiset(s[1..])
  {
    assert s == [s[0]] + s[1..];
  }

  lemma Removed<T>(s: seq<T>, i: nat)
    requires i < |s|
    ensures multiset(s) == multiset{s[i]} + multiset(RemoveAt(s, i))
  {
    assert s == s[..i] + [s[i]] + s[i + 1..];
  }

  lemma StartKeepsPool(p: Pool)
    ensures InPool(StartStep(p)) == InPool(p)
  {
    if p.queued != [] {
      HeadAndTail(p.queued);
    }
  }

  lemma FinishKeepsPool(w: World, i: nat)
    ensures InPool(FinishStep(w, i).pool) == InPool(w.pool)
  {
    var p := w.pool;
    if i < |p.running| {
      Removed(p.running, i);
      WorksSnoc(p.done, Finish(p.running[i]));
    }
  }

  lemma SubmitFillsPool(w: World, work: Work)
    ensures InPool(Submit(w, work).pool) == InPool(w.pool) + multiset{work}
  {
    WorksSnoc(w.pool.done, Finish(work));
  }

  /** What nobody but the dispatcher changes. */
  lemma WorldStepFrames(w: World, e: Event)
    ensures var w' := WorldStep(w, e);
      && w'.ring.popped == w.ring.popped && w'.ring.completed == w.ring.completed
      && InPool(w'.pool) == InPool(w.pool) && w'.pool.workers == w.pool.workers && w.pool.done <= w'.pool.done
      && (w.wakers.stopSent ==> w'.wakers.stopSent)
  {
    hide InPool;
    match e {
      case WorkerStart => StartKeepsPool(w.pool);
      case WorkerFinish(i) => FinishKeepsPool(w, i);
      case _ =>
    }
  }

  lemma SameAccounts(s: State, s': State)
    requires Conserved(s) && InPool(s'.world.pool) == InPool(s.world.pool) && InHand(s'.ctl) == InHand(s.ctl)
    requires s'.world.ring.popped == s.world.ring.popped && s'.world.ring.completed == s.world.ring.completed
    ensures Conserved(s')
  {
  }

  lemma WorldStepConserves(s: State, e: Event)
    requires Conserved(s) && !e.Dispatcher?
    ensures Conserved(Step(s, e))
  {
    hide Conserved, WorldStep, InPool, InHand;
    WorldStepFrames(s.world, e);
    SameAccounts(s, Step(s, e));
  }

  /** Rebalancing: `x` moves into the first heap, out of it into the second, or on to the third. */
  lemma Rebalance(total: multiset<Work>, a: multiset<Work>, b: multiset<Work>, c: multiset<Work>, x: multiset<Work>)
    ensures total == a + b + c ==> total + x == (a + x) + b + c
    ensures total == (a + x) + b + c ==> total == a + (b + x) + c && total == a + b + (c + x)
    ensures total == a + (b + x) + c ==> total == a + b + (c + x)
  {
  }

  lemma DrainConserves(w: World, c: Control)
    requires Conserved(State(w, c)) && c.pc.Draining?
    ensures Conserved(DrainStep(w, c))
  {
    var r, s' := w.ring, DrainStep(w, c);
    if s'.world == w {
      assert InHand(s'.ctl) == InHand(c);
    } else {
      var x := multiset{r.avail[0]};
      assert InHand(s'.ctl) == InHand(c) + x;
      Rebalance(multiset(r.popped), InHand(c), InPool(w.pool), multiset(Works(r.completed)), x);
    }
  }

  lemma DecideConserves(c: Control)
    requires c.pc.Deciding?
    ensures InHand(DecideStep(c)) == InHand(c)
  {
    if |c.batch| == 1 {
      assert c.batch == [c.batch[0]];
    }
  }

  lemma InlineConserves(w: World, c: Control)
    requires Conserved(State(w, c)) && c.pc.Inlining?
    ensures Conserved(InlineStep(w, c))
  {
    var r, s', x := w.ring, InlineStep(w, c), multiset{c.pc.work};
    WorksSnoc(r.completed, Finish(c.pc.work));
    assert InHand(c) == InHand(s'.ctl) + x;
    Rebalance(multiset(r.popped), InHand(s'.ctl), InPool(w.pool), multiset(Works(r.completed)), x);
  }

  lemma FanConserves(w: World, c: Control)
    requires Conserved(State(w, c)) && c.pc.Fanning?
    ensures Conserved(FanStep(w, c))
  {
    var r, s' := w.ring, FanStep(w, c);
    if c.batch == [] {
      assert InHand(s'.ctl) == InHand(c);
    } else {
      var x := multiset{c.batch[0]};
      HeadAndTail(c.batch);
      SubmitFillsPool(w, c.batch[0]);
      assert InHand(c) == InHand(s'.ctl) + x;
      Rebalance(multiset(r.popped), InHand(s'.ctl), InPool(w.pool), multiset(Works(r.completed)), x);
    }
  }

  lemma ReceiveConserves(w: World, c: Control)
    requires Conserved(State(w, c)) && c.pc.PollDone?
    ensures Conserved(PollDoneStep(w, c))
  {
    var r, p, s' := w.ring, w.pool, PollDoneStep(w, c);
    assert InHand(s'.ctl) == InHand(c);
    if p.done != [] {
      WorksTail(p.done);
      WorksSnoc(r.completed, p.done[0]);
      assert InPool(p) == InPool(s'.world.pool) + multiset{p.done[0].work};
      Rebalance(multiset(r.popped), InHand(c), InPool(s'.world.pool), multiset(Works(r.completed)), multiset{p.done[0].work});
    }
  }

  lemma WaitConserves(s: State)
    requires Conserved(s) && (s.ctl.pc.PollStop? || s.ctl.pc.PollKick? || s.ctl.pc.Parked? || s.ctl.pc.Returned?)
    ensures Conserved(DispatcherStep(s))
  {
    WaitFrames(s);
    hide Conserved, InPool, InHand, DispatcherStep;
    SameHand(s.ctl, DispatcherStep(s).ctl);
    SameAccounts(s, DispatcherStep(s));
  }

  lemma SameHand(c: Control, c': Control)
    requires c'.batch == c.batch && !c.pc.Inlining? && !c'.pc.Inlining?
    ensures InHand(c') == InHand(c)
  {
  }

  /** Waiting moves no work item. */
  lemma WaitFrames(s: State)
    requires s.ctl.pc.PollStop? || s.ctl.pc.PollKick? || s.ctl.pc.Parked? || s.ctl.pc.Returned?
    ensures var s' := DispatcherStep(s);
      && s'.world.pool == s.world.pool && s'.ctl.batch == s.ctl.batch && !s'.ctl.pc.Inlining?
      && s'.world.ring.popped == s.world.ring.popped && s'.world.ring.completed == s.world.ring.completed
  {
  }

  lemma StepConserves(s: State, e: Event)
    requires Conserved(s)
    ensures Conserved(Step(s, e))
  {
    if !e.Dispatcher? {
      WorldStepConserves(s, e);
    } else {
      match s.ctl.pc {
        case Draining => DrainConserves(s.world, s.ctl);
        case Deciding => DecideConserves(s.ctl);
        case Inlining(_) => InlineConserves(s.world, s.ctl);
        case Fanning => FanConserves(s.world, s.ctl);
        case PollDone(_) => ReceiveConserves(s.world, s.ctl);
        case _ => WaitConserves(s);
      }
    }
  }

  lemma WorldStepKeepsCounted(w: World, c: Control, e: Event)
    requires Counted(State(w, c))
    ensures Counted(State(WorldStep(w, e), c))
  {
  }

  lemma DispatcherKeepsCounted(s: State)
    requires Counted(s)
    ensures Counted(DispatcherStep(s))
  {
  }

  lemma StepKeepsCounted(s: State, e: Event)
    requires Counted(s)
    ensures Counted(Step(s, e))
  {
    hide Counted, WorldStep, DispatcherStep;
    if e.Dispatcher? {
      DispatcherKeepsCounted(s);
    } else {
      WorldStepKeepsCounted(s.world, s.ctl, e);
    }
  }

  /** A ring whose popped and available chains continue another's. */
  lemma TicketsContinue(r: Ring, r': Ring, e: Event)
    requires Ticketed(r) && RingStep(r, r', e)
    ensures Ticketed(r')
  {
    var all, all' := r.popped + r.avail, r'.popped + r'.avail;
    assert forall i :: 0 <= i < |all| ==> all[i].ticket == i;
    assert forall i :: 0 <= i < |all'| ==> all'[i].ticket == i;
    assert forall i :: 0 <= i < |r'.popped| ==> r'.popped[i] == all'[i];
    assert forall i :: 0 <= i < |r'.avail| ==> r'.avail[i] == all'[|r'.popped| + i];
  }

  lemma StepKeepsTickets(s: State, e: Event)
    requires Ticketed(s.world.ring)
    ensures Ticketed(Step(s, e).world.ring)
  {
    hide Ticketed, RingStep, Step;
    StepMovesRing(s, e);
    TicketsContinue(s.world.ring, Step(s, e).world.ring, e);
  }

  lemma StepKeepsHonest(s: State, e: Event)
    requires Honest(s.world.pool.done) && Honest(s.world.ring.completed)
    ensures Honest(Step(s, e).world.pool.done) && Honest(Step(s, e).world.ring.completed)
  {
    hide BytesOf;
  }

  lemma WorldStepKeepsPlaced(s: State, e: Event)
    requires Placed(s) && !e.Dispatcher?
    ensures Placed(Step(s, e))
  {
    hide WorldStep, InPool, Suffix;
    WorldStepFrames(s.world, e);
  }

  lemma SuffixSnoc<T>(tail: seq<T>, whole: seq<T>, x: T)
    requires Suffix(tail, whole)
    ensures Suffix(tail + [x], whole + [x])
  {
  }

  lemma DrainKeepsPlaced(w: World, c: Control)
    requires Placed(State(w, c)) && c.pc.Draining?
    ensures Placed(DrainStep(w, c))
  {
    if !c.stopping && !c.failed && !w.ring.corrupt && w.ring.avail != [] {
      SuffixSnoc(c.batch, w.ring.popped, w.ring.avail[0]);
    }
    hide Suffix;
  }

  lemma InlineKeepsPlaced(w: World, c: Control)
    requires Placed(State(w, c)) && c.pc.Inlining?
    ensures Placed(InlineStep(w, c))
  {
  }

  lemma DecideKeepsPlaced(w: World, c: Control)
    requires Placed(State(w, c)) && c.pc.Deciding?
    ensures Placed(State(w, DecideStep(c)))
  {
    if |c.batch| == 1 {
      assert c.batch == [c.batch[0]];
    }
    assert Suffix([], w.ring.popped);
    hide Suffix;
  }

  lemma FanKeepsPlaced(w: World, c: Control)
    requires Counted(State(w, c)) && Placed(State(w, c)) && c.pc.Fanning?
    ensures Placed(FanStep(w, c))
  {
    if c.batch != [] {
      SuffixShrinks(c.batch, w.ring.popped);
    }
    hide Suffix;
  }

  lemma PollKeepsPlaced(s: State)
    requires Counted(s) && Placed(s) && PastFanOut(s.ctl.pc)
    ensures Placed(DispatcherStep(s))
  {
    hide Suffix;
  }

  lemma StepKeepsPlaced(s: State, e: Event)
    requires Counted(s) && Placed(s)
    ensures Placed(Step(s, e))
  {
    if !e.Dispatcher? {
      WorldStepKeepsPlaced(s, e);
    } else {
      match s.ctl.pc {
        case Draining => DrainKeepsPlaced(s.world, s.ctl);
        case Inlining(_) => InlineKeepsPlaced(s.world, s.ctl);
        case Deciding => DecideKeepsPlaced(s.world, s.ctl);
        case Fanning => FanKeepsPlaced(s.world, s.ctl);
        case _ => PollKeepsPlaced(s);
      }
    }
  }

  lemma StepKeepsInv(s: State, e: Event)
    requires Inv(s)
    ensures Inv(Step(s, e))
  {
    StepConserves(s, e);
    StepKeepsCounted(s, e);
    StepKeepsTickets(s, e);
    StepKeepsHonest(s, e);
    StepKeepsPlaced(s, e);
  }

  lemma {:induction false} Reachable(workers: nat, schedule: seq<Event>)
    ensures Inv(Exec(Init(workers), schedule))
  {
    if schedule != [] {
      var n := |schedule| - 1;
      Reachable(workers, schedule[..n]);
      StepKeepsInv(Exec(Init(workers), schedule[..n]), schedule[n]);
    }
  }

  // ---------------------------------------------------------------- conservation

  lemma {:induction false} TicketsAreUnique(ws: seq<Work>, base: nat, w: Work)
    requires forall i :: 0 <= i < |ws| ==> ws[i].ticket == base + i
    requires w in ws
    ensures multiset(ws)[w] == 1
  {
    HeadAndTail(ws);
    if w in ws[1..] {
      TicketsAreUnique(ws[1..], base + 1, w);
    }
  }

  /** Every popped item is in exactly one place, and nothing is there that was not popped. */
  lemma EachItemInOnePlace(workers: nat, schedule: seq<Event>, w: Work)
    ensures var s := Exec(Init(workers), schedule);
            InHand(s.ctl)[w] + multiset(s.world.pool.queued)[w] + multiset(s.world.pool.running)[w]
            + multiset(Works(s.world.pool.done))[w] + multiset(Works(s.world.ring.completed))[w]
            == (if w in s.world.ring.popped then 1 else 0)
  {
    Reachable(workers, schedule);
    var s := Exec(Init(workers), schedule);
    if w in s.world.ring.popped {
      TicketsAreUnique(s.world.ring.popped, 0, w);
    }
    var all := InHand(s.ctl) + InPool(s.world.pool) + multiset(Works(s.world.ring.completed));
    assert multiset(s.world.ring.popped)[w] == all[w];
  }

  /** The chains a schedule posts, numbered in order. */
  function Posted(schedule: seq<Event>): seq<Work> {
    if schedule == [] then []
    else
      var before, e := Posted(schedule[..|schedule| - 1]), schedule[|schedule| - 1];
      if e.Post? then before + [Work(|before|, e.head, e.outcome)] else before
  }

  lemma DrainPops(w: World, c: Control)
    ensures var r' := DrainStep(w, c).world.ring;
            r'.popped + r'.avail == w.ring.popped + w.ring.avail
  {
    if w.ring.avail != [] {
      assert w.ring.avail == [w.ring.avail[0]] + w.ring.avail[1..];
    }
  }

  /** A step posts at most one chain and gives at most one back. */
  ghost predicate RingStep(r: Ring, r': Ring, e: Event) {
    && r'.popped + r'.avail ==
       (if e.Post? then r.popped + r.avail + [Work(|r.popped| + |r.avail|, e.head, e.outcome)] else r.popped + r.avail)
    && (r'.completed == r.completed
        || (!e.Post? && |r'.completed| == |r.completed| + 1 && r'.completed[..|r.completed|] == r.completed))
  }

  lemma StepMovesRing(s: State, e: Event)
    ensures RingStep(s.world.ring, Step(s, e).world.ring, e)
  {
    var r, r' := s.world.ring, Step(s, e).world.ring;
    if e.Dispatcher? && s.ctl.pc.Draining? {
      DrainPops(s.world, s.ctl);
    } else if !e.Post? {
      assert r'.popped == r.popped && r'.avail == r.avail;
    }
  }

  /** `try_next` hands out the posted chains in order: none skipped, none invented. */
  lemma {:induction false} PopsInPostingOrder(workers: nat, schedule: seq<Event>)
    ensures var r := Exec(Init(workers), schedule).world.ring;
            r.popped + r.avail == Posted(schedule)
  {
    if schedule != [] {
      var n := |schedule| - 1;
      PopsInPostingOrder(workers, schedule[..n]);
      var s := Exec(Init(workers), schedule[..n]);
      assert Exec(Init(workers), schedule) == Step(s, schedule[n]);
      hide Exec, Step, Init;
      StepMovesRing(s, schedule[n]);
    }
  }

  // ---------------------------------------------------------------- the serial device

  lemma {:induction false} SerialServesAll(ws: seq<Work>)
    ensures Works(SerialDevice(ws)) == ws && Honest(SerialDevice(ws)) && forall u <- SerialDevice(ws) :: Truthful(u)
  {
    if ws != [] {
      var n := |ws| - 1;
      SerialServesAll(ws[..n]);
      WorksSnoc(SerialDevice(ws[..n]), Finish(ws[n]));
      assert ws == ws[..n] + [ws[n]];
    }
  }

  /** Honest completions are determined by their work items. */
  lemma {:induction false} CountByWork(us: seq<Used>, u: Used)
    requires Honest(us)
    ensures multiset(us)[u] == if u == Finish(u.work) then multiset(Works(us))[u.work] else 0
  {
    if us != [] {
      var n := |us| - 1;
      assert us == us[..n] + [us[n]];
      CountByWork(us[..n], u);
    }
  }

  lemma SameWorksSameCompletions(a: seq<Used>, b: seq<Used>)
    requires Honest(a) && Honest(b)
    ensures multiset(Works(a)) == multiset(Works(b)) ==> multiset(a) == multiset(b)
    ensures multiset(Works(a)) <= multiset(Works(b)) ==> multiset(a) <= multiset(b)
  {
    forall u: Used
      ensures multiset(Works(a)) <= multiset(Works(b)) ==> multiset(a)[u] <= multiset(b)[u]
      ensures multiset(Works(b)) <= multiset(Works(a)) ==> multiset(b)[u] <= multiset(a)[u]
    {
      CountByWork(a, u);
      CountByWork(b, u);
    }
  }

  /** At every moment the used ring holds a part of what the serial device would have
      written for the popped requests, and all of it once the dispatcher has returned. */
  lemma RefinesSerialDevice(workers: nat, schedule: seq<Event>)
    ensures var s := Exec(Init(workers), schedule);
            && multiset(s.world.ring.completed) <= multiset(SerialDevice(s.world.ring.popped))
            && (s.ctl.pc.Returned? ==> multiset(s.world.ring.completed) == multiset(SerialDevice(s.world.ring.popped)))
  {
    Reachable(workers, schedule);
    var s := Exec(Init(workers), schedule);
    SerialServesAll(s.world.ring.popped);
    SameWorksSameCompletions(s.world.ring.completed, SerialDevice(s.world.ring.popped));
    if s.ctl.pc.Returned? {
      assert InPool(s.world.pool) == multiset{};
    }
  }

  /** For every schedule and worker count, every completion reports the bytes of the reply to its
      request, or none if serving it panicked; so does every message on the channel. */
  lemma CompletionsAreTruthful(workers: nat, schedule: seq<Event>)
    ensures var s := Exec(Init(workers), schedule);
            && (forall u <- s.world.ring.completed :: Truthful(u))
            && (forall u <- s.world.pool.done :: Truthful(u))
  {
    Reachable(workers, schedule);
    var s := Exec(Init(workers), schedule);
    HonestIsTruthful(s.world.ring.completed);
    HonestIsTruthful(s.world.pool.done);
  }

  /** The pool is invisible: two stopped runs over the same popped requests, with any two
      worker counts and schedules, have written the same completions. */
  lemma WorkerCountIsInvisible(n1: nat, schedule1: seq<Event>, n2: nat, schedule2: seq<Event>)
    requires Exec(Init(n1), schedule1).ctl.pc.Returned? && Exec(Init(n2), schedule2).ctl.pc.Returned?
    requires Exec(Init(n1), schedule1).world.ring.popped == Exec(Init(n2), schedule2).world.ring.popped
    ensures multiset(Exec(Init(n1), schedule1).world.ring.completed) == multiset(Exec(Init(n2), schedule2).world.ring.completed)
  {
    RefinesSerialDevice(n1, schedule1);
    RefinesSerialDevice(n2, schedule2);
  }

  lemma Cancel(a: multiset<Work>, b: multiset<Work>, x: Work)
    ensures a + multiset{x} == b + multiset{x} ==> a == b
  {
    assert (a + multiset{x}) - multiset{x} == a && (b + multiset{x}) - multiset{x} == b;
  }

  /** An inline request is the youngest popped one and everything before it is completed. */
  lemma InlineNeverOvertakes(workers: nat, schedule: seq<Event>)
    requires Exec(Init(workers), schedule).ctl.pc.Inlining?
    ensures var s := Exec(Init(workers), schedule);
            && s.world.ring.popped != []
            && var earlier := s.world.ring.popped[..|s.world.ring.popped| - 1];
            && s.world.ring.popped == earlier + [s.ctl.pc.work]
            && multiset(s.world.ring.completed) == multiset(SerialDevice(earlier))
  {
    Reachable(workers, schedule);
    var s := Exec(Init(workers), schedule);
    var r := s.world.ring;
    var earlier := r.popped[..|r.popped| - 1];
    assert r.popped == earlier + [s.ctl.pc.work];
    SerialServesAll(earlier);
    assert InPool(s.world.pool) == multiset{};
    Cancel(multiset(earlier), multiset(Works(r.completed)), s.ctl.pc.work);
    SameWorksSameCompletions(r.completed, SerialDevice(earlier));
  }

  // ---------------------------------------------------------------- a corrupt ring

  lemma CorruptStepPopsNothing(s: State, e: Event)
    requires s.world.ring.corrupt
    ensures Step(s, e).world.ring.corrupt && Step(s, e).world.ring.popped == s.world.ring.popped
  {
  }

  /** Once the ring is corrupt nothing is popped any more, whatever happens. */
  lemma {:induction false} CorruptRingPopsNothing(s: State, schedule: seq<Event>)
    requires s.world.ring.corrupt
    ensures Exec(s, schedule).world.ring.corrupt && Exec(s, schedule).world.ring.popped == s.world.ring.popped
  {
    if schedule != [] {
      var n := |schedule| - 1;
      CorruptRingPopsNothing(s, schedule[..n]);
      CorruptStepPopsNothing(Exec(s, schedule[..n]), schedule[n]);
    }
  }

  // ---------------------------------------------------------------- after stop

  ghost predicate OnlyCompletes(s: State, s': State) {
    && s'.ctl.stopping && s'.world.ring.popped == s.world.ring.popped
    && s'.ctl.inflight <= s.ctl.inflight
    && |s'.world.ring.completed| - |s.world.ring.completed| == s.ctl.inflight - s'.ctl.inflight
  }

  lemma StoppedDispatcherStep(s: State)
    requires Counted(s) && Placed(s) && s.ctl.stopping
    ensures OnlyCompletes(s, DispatcherStep(s))
  {
  }

  lemma StoppedStep(s: State, e: Event)
    requires Counted(s) && Placed(s) && s.ctl.stopping
    ensures OnlyCompletes(s, Step(s, e))
  {
    if e.Dispatcher? {
      StoppedDispatcherStep(s);
    }
  }

  /** Once stop is observed nothing is popped any more, and `inflight` falls by exactly
      one for every completion. */
  lemma {:induction false} StoppedRunOnlyCompletes(s: State, schedule: seq<Event>)
    requires Inv(s) && s.ctl.stopping
    ensures var s' := Exec(s, schedule);
            Inv(s') && OnlyCompletes(s, s') && 0 <= s'.ctl.inflight
  {
    if schedule != [] {
      var n := |schedule| - 1;
      StoppedRunOnlyCompletes(s, schedule[..n]);
      StoppedStep(Exec(s, schedule[..n]), schedule[n]);
      StepKeepsInv(Exec(s, schedule[..n]), schedule[n]);
    }
  }

  /** When `run` returns, every popped chain has been completed: the captured queue state
      loses no descriptor. */
  lemma ReturnedQueueIsQuiesced(workers: nat, schedule: seq<Event>)
    requires Exec(Init(workers), schedule).ctl.pc.Returned?
    ensures var s := Exec(Init(workers), schedule);
            && s.ctl.inflight == 0 && s.ctl.batch == [] && InPool(s.world.pool) == multiset{}
            && multiset(Works(s.world.ring.completed)) == multiset(s.world.ring.popped)
            && |s.world.ring.completed| == |s.world.ring.popped|
  {
    Reachable(workers, schedule);
    var s := Exec(Init(workers), schedule);
    assert InPool(s.world.pool) == multiset{};
    assert |multiset(Works(s.world.ring.completed))| == |multiset(s.world.ring.popped)|;
  }

  // ---------------------------------------------------------------- the ring bounds the work in flight

  /** Chains the guest has posted and not got back. */
  ghost function Outstanding(r: Ring): multiset<Work> {
    multiset(r.popped + r.avail) - multiset(Works(r.completed))
  }

  /** The driver's side of the ring contract: a descriptor is in range and is not posted
      again before it has been used. */
  ghost predicate Fair(r: Ring, e: Event, size: nat) {
    e.Post? ==> e.head < size && forall w <- Outstanding(r) :: w.head != e.head
  }

  ghost predicate FairRun(s: State, schedule: seq<Event>, size: nat) {
    schedule == [] ||
    (var n := |schedule| - 1;
     FairRun(s, schedule[..n], size) && Fair(Exec(s, schedule[..n]).world.ring, schedule[n], size))
  }

  ghost predicate DistinctHeads(m: multiset<Work>, size: nat) {
    && (forall w <- m :: m[w] == 1 && w.head < size)
    && (forall v, w | v in m && w in m && v.head == w.head :: v == w)
  }

  lemma {:induction false} Pigeonhole(m: multiset<Work>, size: nat)
    requires DistinctHeads(m, size)
    ensures |m| <= size
  {
    if size == 0 {
      assert forall w :: w !in m;
      assert m == multiset{};
    } else if w :| w in m && w.head == size - 1 {
      var rest := m - multiset{w};
      assert forall v <- rest :: v in m && rest[v] == 1 && v != w;
      Pigeonhole(rest, size - 1);
      assert m == rest + multiset{w};
    } else {
      Pigeonhole(m, size - 1);
    }
  }

  lemma OutstandingIsHeld(s: State)
    requires Conserved(s)
    ensures Outstanding(s.world.ring) == InHand(s.ctl) + InPool(s.world.pool) + multiset(s.world.ring.avail)
    ensures multiset(Works(s.world.ring.completed)) <= multiset(s.world.ring.popped + s.world.ring.avail)
  {
    var r := s.world.ring;
    var held, back := InHand(s.ctl) + InPool(s.world.pool), multiset(Works(r.completed));
    assert multiset(r.popped + r.avail) == held + back + multiset(r.avail);
    assert (held + back + multiset(r.avail)) - back == held + multiset(r.avail);
  }

  lemma HeadsStayApart(m: multiset<Work>, x: Work, size: nat)
    requires DistinctHeads(m, size) && x.head < size && forall w <- m :: w.head != x.head
    ensures DistinctHeads(m + multiset{x}, size)
  {
  }

  lemma OutstandingGrows(r: Ring, r': Ring, x: Work)
    requires r'.popped + r'.avail == r.popped + r.avail + [x] && r'.completed == r.completed
    requires multiset(Works(r.completed)) <= multiset(r.popped + r.avail)
    ensures Outstanding(r') == Outstanding(r) + multiset{x}
  {
    var all, back := multiset(r.popped + r.avail), multiset(Works(r.completed));
    assert (all + multiset{x}) - back == (all - back) + multiset{x};
  }

  lemma OutstandingShrinks(r: Ring, r': Ring)
    requires r'.popped + r'.avail == r.popped + r.avail
    requires r'.completed == r.completed || (|r'.completed| == |r.completed| + 1 && r'.completed[..|r.completed|] == r.completed)
    ensures Outstanding(r') <= Outstanding(r)
  {
    if r'.completed != r.completed {
      var u := r'.completed[|r.completed|];
      assert r'.completed == r.completed + [u];
      WorksSnoc(r.completed, u);
    }
  }

  lemma FewerHeads(m: multiset<Work>, m': multiset<Work>, size: nat)
    requires DistinctHeads(m, size) && m' <= m
    ensures DistinctHeads(m', size)
  {
  }

  lemma FairRingStep(r: Ring, r': Ring, e: Event, size: nat)
    requires multiset(Works(r.completed)) <= multiset(r.popped + r.avail)
    requires DistinctHeads(Outstanding(r), size) && Fair(r, e, size)
    requires RingStep(r, r', e)
    ensures DistinctHeads(Outstanding(r'), size)
  {
    if e.Post? {
      var x := Work(|r.popped| + |r.avail|, e.head, e.outcome);
      OutstandingGrows(r, r', x);
      HeadsStayApart(Outstanding(r), x, size);
    } else {
      OutstandingShrinks(r, r');
      FewerHeads(Outstanding(r), Outstanding(r'), size);
    }
  }

  lemma {:induction false} FairRunKeepsHeadsApart(workers: nat, schedule: seq<Event>, size: nat)
    requires FairRun(Init(workers), schedule, size)
    ensures DistinctHeads(Outstanding(Exec(Init(workers), schedule).world.ring), size)
  {
    if schedule != [] {
      var n := |schedule| - 1;
      FairRunKeepsHeadsApart(workers, schedule[..n], size);
      Reachable(workers, schedule[..n]);
      var s := Exec(Init(workers), schedule[..n]);
      OutstandingIsHeld(s);
      StepMovesRing(s, schedule[n]);
      FairRingStep(s.world.ring, Step(s, schedule[n]).world.ring, schedule[n], size);
    }
  }

  /** With a driver that honours the ring, the queue size bounds everything the unbounded
      channel and the pool can hold at once; `inflight` counts it and never underflows. */
  lemma RingBoundsInflight(workers: nat, schedule: seq<Event>, size: nat)
    requires FairRun(Init(workers), schedule, size)
    ensures var s := Exec(Init(workers), schedule);
            && s.ctl.inflight == |InPool(s.world.pool)|
            && s.ctl.inflight + |InHand(s.ctl)| <= size
  {
    var s := Exec(Init(workers), schedule);
    Reachable(workers, schedule);
    FairRunKeepsHeadsApart(workers, schedule, size);
    hide DistinctHeads, Outstanding, FairRun, Exec;
    Pigeonhole(Outstanding(s.world.ring), size);
    OutstandingIsHeld(s);
  }
}
