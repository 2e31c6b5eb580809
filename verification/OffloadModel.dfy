/**
 The request dispatcher and its worker pool as a step system.

 One dispatcher owns the virtqueue. It drains the available ring into `batch`, runs a
 lone request inline or fans the batch out to the pool, collects completions over the
 `done` channel and is the only caller of `complete`. Everything else (the guest, the
 pool threads, the stop signal) acts between any two dispatcher statements.

 The virtqueue is a contract: `try_next` hands out posted chains in order, `complete`
 appends to the used ring, `poll_kick` is ready exactly when a kick is pending.
 */
module OffloadModel {
  import opened Common

  /** What the FUSE session does with a request: a reply of some bytes, or a panic. */
  datatype Outcome = Replied(bytes: nat) | Panicked

  /** A popped descriptor chain. `ticket` numbers the chains in the order the guest
      posted them, `head` is the descriptor index the ring carries. */
  datatype Work = Work(ticket: nat, head: nat, outcome: Outcome)

  /** A used-ring element, also the message on the completion channel. */
  datatype Used = Used(work: Work, bytes: nat)

  /** The byte count reported for a work item; a contained panic reports none. */
  function BytesOf(w: Work): nat {
    match w.outcome
    case Replied(bytes) => bytes
    case Panicked => 0
  }

  function Finish(w: Work): Used {
    Used(w, BytesOf(w))
  }

  /** The virtqueue: the posted chains, and the histories of `try_next` and `complete`. The
      guest owes a kick from posting a chain until it kicks. */
  datatype Ring = Ring(avail: seq<Work>, corrupt: bool, owed: bool, kicked: bool, popped: seq<Work>, completed: seq<Used>)

  /** The pool's job queue, the jobs its threads run, and the completion channel. */
  datatype Pool = Pool(workers: nat, queued: seq<Work>, running: seq<Work>, done: seq<Used>)

  /** The stop signal and the wakers of the dispatcher task: one for each source it polls,
      and whether it has been woken since it last started a poll from its park. */
  datatype Wakers = Wakers(stopSent: bool, doneArmed: bool, stopArmed: bool, kickArmed: bool, woken: bool)

  /** Everything the dispatcher shares with the guest, the pool and the stop caller. */
  datatype World = World(ring: Ring, pool: Pool, wakers: Wakers)

  /** Where the dispatcher is in its loop. `progressed` is local to one poll. */
  datatype Pc =
    | Draining
    | Deciding
    | Inlining(work: Work)
    | Fanning
    | PollDone(progressed: bool)
    | PollStop(progressed: bool)
    | PollKick(progressed: bool)
    | Parked
    | Returned

  /** The locals of the dispatcher. `inflight` is an `int` so that an underflow of the
      original's unsigned counter would be visible. */
  datatype Control = Control(pc: Pc, batch: seq<Work>, inflight: int, stopping: bool, failed: bool)

  datatype State = State(world: World, ctl: Control)

  datatype Event =
    | Post(head: nat, outcome: Outcome)  // the guest publishes a chain
    | Kick                               // the guest kicks the queue
    | Corrupt                            // the ring becomes unreadable
    | StopSignal                         // the stop sender fires, or is dropped
    | WorkerStart                        // a pool thread takes the oldest job
    | WorkerFinish(index: nat)           // a pool thread sends its completion
    | Dispatcher                         // the dispatcher executes one statement

  function Init(workers: nat): State {
    State(World(Ring([], false, false, false, [], []), Pool(workers, [], [], []), Wakers(false, false, false, false, false)),
          Control(Draining, [], 0, false, false))
  }

  /** Send on the completion channel: wakes the dispatcher if its waker is registered. */
  function Send(w: World, u: Used): World {
    w.(pool := w.pool.(done := w.pool.done + [u]),
       wakers := w.wakers.(woken := w.wakers.woken || w.wakers.doneArmed, doneArmed := false))
  }

  function PostStep(r: Ring, head: nat, outcome: Outcome): Ring {
    r.(avail := r.avail + [Work(|r.popped| + |r.avail|, head, outcome)], owed := true)
  }

  function KickStep(w: World): World {
    var k := w.wakers;
    w.(ring := w.ring.(owed := false, kicked := true), wakers := k.(woken := k.woken || k.kickArmed, kickArmed := false))
  }

  function StopStep(k: Wakers): Wakers {
    if k.stopSent then k
    else k.(stopSent := true, woken := k.woken || k.stopArmed, stopArmed := false)
  }

  function StartStep(p: Pool): Pool {
    if p.queued != [] && |p.running| < p.workers then
      p.(queued := p.queued[1..], running := p.running + [p.queued[0]])
    else p
  }

  function FinishStep(w: World, i: nat): World {
    var p := w.pool;
    if i < |p.running| then
      Send(w.(pool := p.(running := RemoveAt(p.running, i))), Finish(p.running[i]))
    else w
  }

  /** A step of anything but the dispatcher; a step that is not possible changes nothing. */
  function WorldStep(w: World, e: Event): World {
    match e
    case Post(head, outcome) => w.(ring := PostStep(w.ring, head, outcome))
    case Kick => KickStep(w)
    case Corrupt => w.(ring := w.ring.(corrupt := true))
    case StopSignal => w.(wakers := StopStep(w.wakers))
    case WorkerStart => w.(pool := StartStep(w.pool))
    case WorkerFinish(i) => FinishStep(w, i)
    case Dispatcher => w
  }

  /** `WorkerPool::submit`: queue the job, or run it on the spot when there are no threads. */
  function Submit(w: World, work: Work): World {
    if w.pool.workers == 0 then Send(w, Finish(work))
    else w.(pool := w.pool.(queued := w.pool.queued + [work]))
  }

  /** Pop one available chain, or stop draining. */
  function DrainStep(w: World, c: Control): State {
    var r := w.ring;
    if c.stopping || c.failed then State(w, c.(pc := Deciding))
    else if r.corrupt then State(w, c.(failed := true, pc := Deciding))
    else if r.avail == [] then State(w, c.(pc := Deciding))
    else State(w.(ring := r.(avail := r.avail[1..], popped := r.popped + [r.avail[0]])),
               c.(batch := c.batch + [r.avail[0]]))
  }

  function DecideStep(c: Control): Control {
    if c.inflight == 0 && |c.batch| == 1 then c.(batch := [], pc := Inlining(c.batch[0]))
    else c.(pc := Fanning)
  }

  function InlineStep(w: World, c: Control): State
    requires c.pc.Inlining?
  {
    State(w.(ring := w.ring.(completed := w.ring.completed + [Finish(c.pc.work)])), c.(pc := Draining))
  }

  function FanStep(w: World, c: Control): State {
    if c.batch != [] then
      State(Submit(w, c.batch[0]), c.(batch := c.batch[1..], inflight := c.inflight + 1))
    else State(w, c.(pc := if c.stopping && c.inflight == 0 then Returned else PollDone(false)))
  }

  function PollDoneStep(w: World, c: Control): State
    requires c.pc.PollDone?
  {
    var r, p := w.ring, w.pool;
    if p.done != [] then
      State(w.(ring := r.(completed := r.completed + [p.done[0]]), pool := p.(done := p.done[1..])),
            c.(inflight := c.inflight - 1, pc := PollDone(true)))
    else State(w.(wakers := w.wakers.(doneArmed := true)), c.(pc := PollStop(c.pc.progressed)))
  }

  function PollStopStep(w: World, c: Control): State
    requires c.pc.PollStop?
  {
    if c.stopping then State(w, c.(pc := PollKick(c.pc.progressed)))
    else if w.wakers.stopSent then State(w, c.(stopping := true, pc := PollKick(true)))
    else State(w.(wakers := w.wakers.(stopArmed := true)), c.(pc := PollKick(c.pc.progressed)))
  }

  function PollKickStep(w: World, c: Control): State
    requires c.pc.PollKick?
  {
    var next := if c.pc.progressed then Draining else Parked;
    if c.stopping || c.failed then State(w, c.(pc := next))
    else if w.ring.kicked then State(w.(ring := w.ring.(kicked := false)), c.(pc := Draining))
    else State(w.(wakers := w.wakers.(kickArmed := true)), c.(pc := next))
  }

  function WakeStep(w: World, c: Control): State {
    if w.wakers.woken then State(w.(wakers := w.wakers.(woken := false)), c.(pc := PollDone(false)))
    else State(w, c)
  }

  /** One statement of the dispatcher. */
  function DispatcherStep(s: State): State {
    match s.ctl.pc
    case Draining => DrainStep(s.world, s.ctl)
    case Deciding => s.(ctl := DecideStep(s.ctl))
    case Inlining(_) => InlineStep(s.world, s.ctl)
    case Fanning => FanStep(s.world, s.ctl)
    case PollDone(_) => PollDoneStep(s.world, s.ctl)
    case PollStop(_) => PollStopStep(s.world, s.ctl)
    case PollKick(_) => PollKickStep(s.world, s.ctl)
    case Parked => WakeStep(s.world, s.ctl)
    case Returned => s
  }

  function Step(s: State, e: Event): State {
    if e.Dispatcher? then DispatcherStep(s) else s.(world := WorldStep(s.world, e))
  }

  /** The state after a schedule: any interleaving of guest, pool, stop and dispatcher. */
  function Exec(s: State, schedule: seq<Event>): State {
    if schedule == [] then s
    else Step(Exec(s, schedule[..|schedule| - 1]), schedule[|schedule| - 1])
  }

  /** The pop-dispatch-complete loop that the offload device replaces. */
  function SerialDevice(requests: seq<Work>): seq<Used> {
    if requests == [] then []
    else SerialDevice(requests[..|requests| - 1]) + [Finish(requests[|requests| - 1])]
  }

  /** The work items of a list of completions. */
  function Works(us: seq<Used>): (ws: seq<Work>)
    ensures |ws| == |us|
  {
    if us == [] then [] else Works(us[..|us| - 1]) + [us[|us| - 1].work]
  }

  lemma {:induction false} WorksConcat(a: seq<Used>, b: seq<Used>)
    ensures Works(a + b) == Works(a) + Works(b)
  {
    if b == [] {
      assert a + b == a;
    } else {
      var n := |b| - 1;
      assert (a + b)[..|a| + n] == a + b[..n];
      WorksConcat(a, b[..n]);
    }
  }

  lemma WorksSnoc(us: seq<Used>, u: Used)
    ensures Works(us + [u]) == Works(us) + [u.work]
  {
    assert (us + [u])[..|us|] == us;
  }

  lemma WorksTail(us: seq<Used>)
    requires us != []
    ensures Works(us) == [us[0].work] + Works(us[1..])
  {
    assert us == [us[0]] + us[1..];
    WorksConcat([us[0]], us[1..]);
  }

  lemma ExecSnoc(s: State, schedule: seq<Event>, e: Event)
    ensures Exec(s, schedule + [e]) == Step(Exec(s, schedule), e)
  {
    assert (schedule + [e])[..|schedule|] == schedule;
  }
}
