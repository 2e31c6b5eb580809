/**
 The life of one device host and its shares. Every call of the interface is cut into its
 effects, and the effects of calls on different threads interleave. A call sequence that
 breaks the interface's contract (using a handle that is being removed, closing the host
 under a running call) has no step here, so a run is any contract-respecting schedule.
 */
module LifecycleModel {
  import opened Common

  /** A share's canonical instance id, the key of its platform slot. */
  type Key = string

  /** How far a share is: its device exists; its slot is plugged; it is in the registry and
      its handle is with the caller; a Remove is out; the Remove was answered; it has left
      the registry; it is freed. */
  datatype Phase = Attached | Plugged | Registered | Removing | Answered | Deregistered | Freed

  datatype Share = Share(instance: Key, phase: Phase)

  datatype Effect = DeviceDown(share: nat) | HostDown | SupportReleased | SystemClosed

  datatype Stage = Open | Closing | Closed

  /** `refs` counts the references to the device host, `left` the slots that stay behind
      because their Remove was refused or never asked for. */
  datatype State = State(
    shares: seq<Share>,
    registry: seq<nat>,
    refs: nat,
    slots: multiset<Key>,
    left: multiset<Key>,
    log: seq<Effect>,
    stage: Stage)

  const OPENED := State([], [], 1, multiset{}, multiset{}, [], Open)

  datatype Answer = Removed | Refused | Error

  datatype Event =
    | Attach(instance: Key)
    | Plug(share: nat, ok: bool)
    | Register(share: nat)
    | AskRemove(share: nat)
    | Reply(share: nat, answer: Answer)
    | Deregister(share: nat)
    | Free(share: nat)
    | BeginClose
    | Reclaim
    | Finish

  predicate At(s: State, i: nat, phase: Phase) {
    i < |s.shares| && s.shares[i].phase == phase
  }

  /** No call is under way: every share is idle or freed. */
  predicate Quiet(shares: seq<Share>) {
    forall x <- shares :: x.phase.Registered? || x.phase.Freed?
  }

  predicate Enabled(s: State, e: Event) {
    match e
    case Attach(_) => s.stage.Open?
    case Plug(i, _) => s.stage.Open? && At(s, i, Attached)
    case Register(i) => s.stage.Open? && At(s, i, Plugged)
    case AskRemove(i) => s.stage.Open? && At(s, i, Registered)
    case Reply(i, _) => s.stage.Open? && At(s, i, Removing)
    case Deregister(i) => s.stage.Open? && At(s, i, Answered)
    case Free(i) => s.stage.Open? && At(s, i, Deregistered)
    case BeginClose => s.stage.Open? && Quiet(s.shares)
    case Reclaim => s.stage.Closing? && s.registry != []
    case Finish => s.stage.Closing? && s.registry == []
  }

  function Without(registry: seq<nat>, i: nat): seq<nat> {
    if registry == [] then []
    else if registry[0] == i then Without(registry[1..], i)
    else [registry[0]] + Without(registry[1..], i)
  }

  function To(s: State, i: nat, phase: Phase): State
    requires i < |s.shares|
  {
    s.(shares := s.shares[i := s.shares[i].(phase := phase)])
  }

  /** Drop a device: its reference to the device host goes with it. */
  function Down(s: State, i: nat): State
    requires i < |s.shares|
  {
    To(s, i, Freed).(refs := if s.refs > 0 then s.refs - 1 else 0, log := s.log + [DeviceDown(i)])
  }

  /** Drop the host's own fields in order; the device host goes down with its last reference. */
  function HostFieldsDropped(s: State): State {
    var refs := if s.refs > 0 then s.refs - 1 else 0;
    s.(refs := refs, log := s.log + (if refs == 0 then [HostDown] else []) + [SupportReleased, SystemClosed], stage := Closed)
  }

  function Step(s: State, e: Event): State {
    if !Enabled(s, e) then s
    else match e
      case Attach(key) => s.(shares := s.shares + [Share(key, Attached)], refs := s.refs + 1)
      case Plug(i, ok) => if ok then To(s, i, Plugged).(slots := s.slots + multiset{s.shares[i].instance}) else Down(s, i)
      case Register(i) => To(s, i, Registered).(registry := s.registry + [i])
      case AskRemove(i) => To(s, i, Removing)
      case Reply(i, answer) =>
        (match answer
         case Removed => To(s, i, Answered).(slots := s.slots - multiset{s.shares[i].instance})
         case Refused => To(s, i, Answered).(left := s.left + multiset{s.shares[i].instance})
         case Error => To(s, i, Registered))
      case Deregister(i) => To(s, i, Deregistered).(registry := Without(s.registry, i))
      case Free(i) => Down(s, i)
      case BeginClose => s.(stage := Closing)
      case Reclaim =>
        var i := s.registry[0];
        var rest := s.(registry := s.registry[1..]);
        if i < |s.shares| then Down(rest, i).(left := s.left + multiset{s.shares[i].instance}) else rest
      case Finish => HostFieldsDropped(s)
  }

  function Exec(s: State, run: seq<Event>): State {
    if run == [] then s else Step(Exec(s, run[..|run| - 1]), run[|run| - 1])
  }

  lemma ExecSnoc(s: State, run: seq<Event>, e: Event)
    ensures Exec(s, run + [e]) == Step(Exec(s, run), e)
  {
    assert (run + [e])[..|run|] == run;
  }

  // ---------------------------------------------------------------- what a run keeps

  predicate Listed(p: Phase) {
    p.Registered? || p.Removing? || p.Answered?
  }

  /** The slot of such a share is plugged and will be answered for by the share. */
  predicate HoldsSlot(p: Phase) {
    p.Plugged? || p.Registered? || p.Removing?
  }

  function Alive(shares: seq<Share>): nat {
    if shares == [] then 0
    else var n := |shares| - 1; Alive(shares[..n]) + if shares[n].phase.Freed? then 0 else 1
  }

  function Holds(x: Share, key: Key): nat {
    if HoldsSlot(x.phase) && x.instance == key then 1 else 0
  }

  /** How many shares answer for a slot with this key. */
  function Holders(shares: seq<Share>, key: Key): nat {
    if shares == [] then 0 else var n := |shares| - 1; Holders(shares[..n], key) + Holds(shares[n], key)
  }

  /** The registry lists exactly the shares that have been handed out and not taken back. */
  predicate RegistryOk(shares: seq<Share>, registry: seq<nat>) {
    && NoDuplicates(registry)
    && (forall i <- registry :: i < |shares|)
    && forall i :: 0 <= i < |shares| ==> (Listed(shares[i].phase) <==> i in registry)
  }

  function Times(log: seq<Effect>, e: Effect): nat {
    multiset(log)[e]
  }

  /** Each freed device went down once, the others not at all. */
  predicate LogOk(shares: seq<Share>, downs: seq<Effect>) {
    && (forall e <- downs :: e.DeviceDown? && e.share < |shares|)
    && forall i :: 0 <= i < |shares| ==> Times(downs, DeviceDown(i)) == if shares[i].phase.Freed? then 1 else 0
  }

  /** One reference for the host, unless it is gone, and one for each device. */
  predicate RefsOk(shares: seq<Share>, refs: nat, own: nat) {
    refs == own + Alive(shares)
  }

  /** Every slot is answered for by a share or left behind. */
  ghost predicate SlotsOk(shares: seq<Share>, slots: multiset<Key>, left: multiset<Key>) {
    forall key :: slots[key] == Holders(shares, key) + left[key]
  }

  /** The log without the host's own teardown. */
  function Downs(s: State): seq<Effect> {
    if s.stage.Closed? && |s.log| >= 3 then s.log[..|s.log| - 3] else s.log
  }

  ghost predicate Inv(s: State) {
    && RegistryOk(s.shares, s.registry)
    && LogOk(s.shares, Downs(s))
    && RefsOk(s.shares, s.refs, if s.stage.Closed? then 0 else 1)
    && SlotsOk(s.shares, s.slots, s.left)
    && (!s.stage.Open? ==> Quiet(s.shares))
    && (s.stage.Closed? ==> s.registry == [] && s.log == Downs(s) + [HostDown, SupportReleased, SystemClosed])
  }

  // ---------------------------------------------------------------- one share changes

  lemma {:induction false} AliveChanges(shares: seq<Share>, i: nat, x: Share)
    requires i < |shares|
    ensures Alive(shares[i := x]) + (if shares[i].phase.Freed? then 0 else 1) == Alive(shares) + (if x.phase.Freed? then 0 else 1)
  {
    var n := |shares| - 1;
    if i < n {
      AliveChanges(shares[..n], i, x);
      assert shares[i := x][..n] == shares[..n][i := x];
    } else {
      assert shares[i := x][..n] == shares[..n];
    }
  }

  lemma {:induction false} HoldersChange(shares: seq<Share>, i: nat, x: Share, key: Key)
    requires i < |shares|
    ensures Holders(shares[i := x], key) + Holds(shares[i], key) == Holders(shares, key) + Holds(x, key)
  {
    var n := |shares| - 1;
    if i < n {
      HoldersChange(shares[..n], i, x, key);
      assert shares[i := x][..n] == shares[..n][i := x];
    } else {
      assert shares[i := x][..n] == shares[..n];
    }
  }

  lemma {:induction false} WithoutIs(registry: seq<nat>, i: nat)
    requires NoDuplicates(registry)
    ensures NoDuplicates(Without(registry, i))
    ensures forall j :: j in Without(registry, i) <==> j in registry && j != i
  {
    if registry != [] {
      WithoutIs(registry[1..], i);
      var rest := Without(registry[1..], i);
      assert registry == [registry[0]] + registry[1..];
      assert registry[0] !in registry[1..];
    }
  }

  lemma RegistryKept(shares: seq<Share>, registry: seq<nat>, i: nat, x: Share)
    requires RegistryOk(shares, registry) && i < |shares|
    ensures Listed(shares[i].phase) == Listed(x.phase) ==> RegistryOk(shares[i := x], registry)
    ensures !Listed(shares[i].phase) && Listed(x.phase) ==> RegistryOk(shares[i := x], registry + [i])
    ensures !Listed(x.phase) ==> RegistryOk(shares[i := x], Without(registry, i))
  {
    WithoutIs(registry, i);
  }

  lemma RegistryPopped(shares: seq<Share>, registry: seq<nat>, x: Share)
    requires RegistryOk(shares, registry) && registry != [] && !Listed(x.phase)
    ensures registry[0] < |shares| && RegistryOk(shares[registry[0] := x], registry[1..])
  {
    var i, rest := registry[0], registry[1..];
    assert i in registry;
    assert forall a :: 0 <= a < |rest| ==> rest[a] == registry[a + 1];
    assert forall j <- rest :: j in registry;
    forall j <- registry | j != i
      ensures j in rest
    {
      var a :| 0 <= a < |registry| && registry[a] == j;
      assert rest[a - 1] == j;
    }
  }

  lemma LogKept(shares: seq<Share>, downs: seq<Effect>, i: nat, x: Share)
    requires LogOk(shares, downs) && i < |shares|
    ensures shares[i].phase.Freed? == x.phase.Freed? ==> LogOk(shares[i := x], downs)
    ensures !shares[i].phase.Freed? && x.phase.Freed? ==> LogOk(shares[i := x], downs + [DeviceDown(i)])
  {
  }

  lemma SlotsKept(shares: seq<Share>, slots: multiset<Key>, left: multiset<Key>, i: nat, x: Share, slots': multiset<Key>, left': multiset<Key>)
    requires SlotsOk(shares, slots, left) && i < |shares|
    requires forall key :: slots'[key] + left[key] + Holds(shares[i], key) == slots[key] + left'[key] + Holds(x, key)
    ensures SlotsOk(shares[i := x], slots', left')
  {
    forall key: Key
      ensures slots'[key] == Holders(shares[i := x], key) + left'[key]
    {
      HoldersChange(shares, i, x, key);
    }
  }

  lemma AttachKeepsInv(s: State, key: Key)
    requires Inv(s)
    ensures Inv(Step(s, Attach(key)))
  {
    var x := Share(key, Attached);
    NewShareIsRecorded(s.shares, s.registry, Downs(s), x);
    NewShareIsCounted(s.shares, s.slots, s.left, x);
    hide RegistryOk, LogOk, SlotsOk, Quiet, Alive;
  }

  lemma NewShareIsRecorded(shares: seq<Share>, registry: seq<nat>, downs: seq<Effect>, x: Share)
    requires RegistryOk(shares, registry) && LogOk(shares, downs) && x.phase.Attached?
    ensures RegistryOk(shares + [x], registry) && LogOk(shares + [x], downs)
  {
    assert DeviceDown(|shares|) !in downs;
  }

  lemma NewShareIsCounted(shares: seq<Share>, slots: multiset<Key>, left: multiset<Key>, x: Share)
    requires SlotsOk(shares, slots, left) && x.phase.Attached?
    ensures SlotsOk(shares + [x], slots, left) && Alive(shares + [x]) == Alive(shares) + 1
  {
    assert (shares + [x])[..|shares|] == shares;
  }

  /** A step of one share, given the state it leads to. */
  lemma ShareKeepsInv(s: State, i: nat, x: Share, s': State)
    requires Inv(s) && s.stage.Open? && i < |s.shares| && !s.shares[i].phase.Freed? && x.instance == s.shares[i].instance
    requires s'.stage == s.stage && s'.shares == s.shares[i := x]
    requires s'.registry == if Listed(s.shares[i].phase) == Listed(x.phase) then s.registry
                            else if Listed(x.phase) then s.registry + [i] else Without(s.registry, i)
    requires s'.log == if x.phase.Freed? then s.log + [DeviceDown(i)] else s.log
    requires s'.refs == if x.phase.Freed? && s.refs > 0 then s.refs - 1 else s.refs
    requires forall key :: s'.slots[key] + s.left[key] + Holds(s.shares[i], key) == s.slots[key] + s'.left[key] + Holds(x, key)
    ensures Inv(s')
  {
    RegistryKept(s.shares, s.registry, i, x);
    LogKept(s.shares, s.log, i, x);
    AliveChanges(s.shares, i, x);
    SlotsKept(s.shares, s.slots, s.left, i, x, s'.slots, s'.left);
    hide RegistryOk, LogOk, Alive, Listed, Quiet, SlotsOk, Holds;
  }

  lemma CallKeepsInv(s: State, e: Event)
    requires Inv(s) && Enabled(s, e) && (e.Register? || e.AskRemove? || e.Deregister? || e.Free? || (e.Plug? && !e.ok) || (e.Reply? && e.answer.Error?))
    ensures Inv(Step(s, e))
  {
    hide Inv, Alive, Holders, RegistryOk, LogOk, Quiet, Without;
    var i := e.share;
    ShareKeepsInv(s, i, Step(s, e).shares[i], Step(s, e));
  }

  lemma PlugKeepsInv(s: State, i: nat)
    requires Inv(s) && Enabled(s, Plug(i, true))
    ensures Inv(Step(s, Plug(i, true)))
  {
    hide Inv, Alive, Holders, RegistryOk, LogOk, Quiet, Without;
    var s' := Step(s, Plug(i, true));
    ShareKeepsInv(s, i, s'.shares[i], s');
  }

  lemma ReplyKeepsInv(s: State, i: nat, answer: Answer)
    requires Inv(s) && Enabled(s, Reply(i, answer)) && !answer.Error?
    ensures Inv(Step(s, Reply(i, answer)))
  {
    SlotIsThere(s, i);
    hide Inv, Alive, Holders, RegistryOk, LogOk, Quiet, Without;
    var s' := Step(s, Reply(i, answer));
    ShareKeepsInv(s, i, s'.shares[i], s');
  }

  /** The slot of a plugged share is in the platform's table. */
  lemma SlotIsThere(s: State, i: nat)
    requires SlotsOk(s.shares, s.slots, s.left) && i < |s.shares| && HoldsSlot(s.shares[i].phase)
    ensures s.slots[s.shares[i].instance] > 0
  {
    var key := s.shares[i].instance;
    HoldersChange(s.shares, i, s.shares[i].(phase := Freed), key);
    assert s.slots[key] == Holders(s.shares, key) + s.left[key];
  }

  lemma FirstIsIdle(shares: seq<Share>, registry: seq<nat>)
    requires RegistryOk(shares, registry) && Quiet(shares) && registry != []
    ensures registry[0] < |shares| && shares[registry[0]].phase.Registered?
  {
    assert registry[0] in registry;
    assert shares[registry[0]] in shares;
  }

  /** The first listed share is freed and its slot stays behind. */
  lemma ReclaimedKeepsInv(s: State, i: nat, x: Share, s': State)
    requires Inv(s) && s.stage.Closing? && s.registry != [] && i == s.registry[0] && i < |s.shares|
    requires s.shares[i].phase.Registered? && x == s.shares[i].(phase := Freed)
    requires s'.stage == s.stage && s'.shares == s.shares[i := x] && s'.registry == s.registry[1..]
    requires s'.log == s.log + [DeviceDown(i)] && s'.refs == if s.refs > 0 then s.refs - 1 else 0
    requires s'.slots == s.slots && s'.left == s.left + multiset{x.instance}
    ensures Inv(s')
  {
    RegistryPopped(s.shares, s.registry, x);
    LogKept(s.shares, s.log, i, x);
    AliveChanges(s.shares, i, x);
    SlotsKept(s.shares, s.slots, s.left, i, x, s'.slots, s'.left);
    QuietKept(s.shares, i, x);
    hide RegistryOk, LogOk, Alive, SlotsOk, Holds, Quiet;
  }

  lemma QuietKept(shares: seq<Share>, i: nat, x: Share)
    requires Quiet(shares) && i < |shares| && x.phase.Freed?
    ensures Quiet(shares[i := x])
  {
  }

  lemma ReclaimKeepsInv(s: State)
    requires Inv(s) && Enabled(s, Reclaim)
    ensures Inv(Step(s, Reclaim))
  {
    FirstIsIdle(s.shares, s.registry);
    hide Inv, Alive, Holders, RegistryOk, LogOk, Quiet, SlotsOk;
    var i := s.registry[0];
    ReclaimedKeepsInv(s, i, s.shares[i].(phase := Freed), Step(s, Reclaim));
  }

  lemma {:induction false} NoneAlive(shares: seq<Share>)
    requires Quiet(shares) && RegistryOk(shares, [])
    ensures Alive(shares) == 0 && forall x <- shares :: x.phase.Freed?
  {
    forall x <- shares
      ensures x.phase.Freed?
    {
      var i :| 0 <= i < |shares| && shares[i] == x;
    }
    AllFreed(shares);
  }

  lemma {:induction false} AllFreed(shares: seq<Share>)
    requires forall x <- shares :: x.phase.Freed?
    ensures Alive(shares) == 0
  {
    if shares != [] {
      AllFreed(shares[..|shares| - 1]);
    }
  }

  lemma FinishKeepsInv(s: State)
    requires Inv(s) && Enabled(s, Finish)
    ensures Inv(Step(s, Finish))
  {
    NoneAlive(s.shares);
    var s' := Step(s, Finish);
    assert s'.log == s.log + [HostDown, SupportReleased, SystemClosed];
    assert s'.log[..|s'.log| - 3] == s.log;
    hide RegistryOk, LogOk, Alive, SlotsOk;
  }

  lemma StepKeepsInv(s: State, e: Event)
    requires Inv(s)
    ensures Inv(Step(s, e))
  {
    if Enabled(s, e) {
      if e.Attach? {
        AttachKeepsInv(s, e.instance);
      } else if e.Plug? && e.ok {
        PlugKeepsInv(s, e.share);
      } else if e.Reply? && !e.answer.Error? {
        ReplyKeepsInv(s, e.share, e.answer);
      } else if e.Reclaim? {
        ReclaimKeepsInv(s);
      } else if e.Finish? {
        FinishKeepsInv(s);
      } else if !e.BeginClose? {
        CallKeepsInv(s, e);
      }
    }
  }

  lemma {:induction false} Reachable(run: seq<Event>)
    ensures Inv(Exec(OPENED, run))
  {
    if run == [] {
      assert Inv(OPENED);
    } else {
      Reachable(run[..|run| - 1]);
      StepKeepsInv(Exec(OPENED, run[..|run| - 1]), run[|run| - 1]);
    }
  }

  // ---------------------------------------------------------------- the promises

  /** The slots that stay behind: of shares whose Remove the platform refused to support, and of
      shares reclaimed when the host was closed. */
  function LeftBy(run: seq<Event>): multiset<Key> {
    if run == [] then multiset{}
    else
      var s, e := Exec(OPENED, run[..|run| - 1]), run[|run| - 1];
      LeftBy(run[..|run| - 1]) +
      if e.Reply? && e.answer == Refused && s.stage.Open? && At(s, e.share, Removing) then multiset{s.shares[e.share].instance}
      else if e.Reclaim? && s.stage.Closing? && s.registry != [] && s.registry[0] < |s.shares| then multiset{s.shares[s.registry[0]].instance}
      else multiset{}
  }

  /** The slots of the platform: plugged by an Add that went through, until a Remove that did. */
  function SlotsBy(run: seq<Event>): multiset<Key> {
    if run == [] then multiset{}
    else
      var s, e := Exec(OPENED, run[..|run| - 1]), run[|run| - 1];
      var before := SlotsBy(run[..|run| - 1]);
      if e.Plug? && e.ok && s.stage.Open? && At(s, e.share, Attached) then before + multiset{s.shares[e.share].instance}
      else if e.Reply? && e.answer == Removed && s.stage.Open? && At(s, e.share, Removing) then before - multiset{s.shares[e.share].instance}
      else before
  }

  lemma StepSlots(s: State, e: Event)
    ensures var s' := Step(s, e);
      && s'.slots == (if e.Plug? && e.ok && s.stage.Open? && At(s, e.share, Attached) then s.slots + multiset{s.shares[e.share].instance}
                      else if e.Reply? && e.answer == Removed && s.stage.Open? && At(s, e.share, Removing) then s.slots - multiset{s.shares[e.share].instance}
                      else s.slots)
      && s'.left == s.left +
           (if e.Reply? && e.answer == Refused && s.stage.Open? && At(s, e.share, Removing) then multiset{s.shares[e.share].instance}
            else if e.Reclaim? && s.stage.Closing? && s.registry != [] && s.registry[0] < |s.shares| then multiset{s.shares[s.registry[0]].instance}
            else multiset{})
  {
    hide Without, Quiet;
  }

  lemma {:induction false} SlotsAreHistory(run: seq<Event>)
    ensures Exec(OPENED, run).slots == SlotsBy(run) && Exec(OPENED, run).left == LeftBy(run)
  {
    if run != [] {
      var n := |run| - 1;
      SlotsAreHistory(run[..n]);
      var s := Exec(OPENED, run[..n]);
      assert Exec(OPENED, run) == Step(s, run[n]);
      hide Exec, Step;
      StepSlots(s, run[n]);
    }
  }

  /** The registry holds exactly the live shares, each once. The platform's slots are those whose
      Add went through, less those whose Remove did; and these are the slots of the shares that
      answer for one, and those left behind by a refused Remove or by closing. */
  lemma RegistryIsExact(run: seq<Event>)
    ensures var s := Exec(OPENED, run);
      && NoDuplicates(s.registry)
      && (forall i: nat :: i in s.registry <==> i < |s.shares| && Listed(s.shares[i].phase))
      && s.slots == SlotsBy(run) && (forall key :: s.slots[key] == Holders(s.shares, key) + LeftBy(run)[key])
      && (!s.stage.Closed? ==> s.refs == 1 + Alive(s.shares))
  {
    Reachable(run);
    SlotsAreHistory(run);
    hide Exec, SlotsBy, LeftBy;
  }

  /** Each device goes down exactly once, when its share is freed, and never before. */
  lemma FreedExactlyOnce(run: seq<Event>, i: nat)
    requires i < |Exec(OPENED, run).shares|
    ensures var s := Exec(OPENED, run); Times(s.log, DeviceDown(i)) == if s.shares[i].phase.Freed? then 1 else 0
  {
    Reachable(run);
    var s := Exec(OPENED, run);
    if s.stage.Closed? {
      var tail := [HostDown, SupportReleased, SystemClosed];
      assert multiset(s.log) == multiset(Downs(s)) + multiset(tail);
    }
  }

  /** The teardown order: the device host goes down only after every device, then the support
      object is released, then the system handle is closed, each once, and only by closing. */
  lemma TeardownIsOrdered(run: seq<Event>)
    ensures var s := Exec(OPENED, run);
      && (!s.stage.Closed? ==> forall e <- s.log :: e.DeviceDown?)
      && (s.stage.Closed? ==>
           && |s.log| >= 3 && s.log[|s.log| - 3..] == [HostDown, SupportReleased, SystemClosed]
           && (forall e <- s.log[..|s.log| - 3] :: e.DeviceDown?)
           && (forall i :: 0 <= i < |s.shares| ==> Times(s.log[..|s.log| - 3], DeviceDown(i)) == 1)
           && s.refs == 0 && s.registry == [])
  {
    Reachable(run);
    var s := Exec(OPENED, run);
    if s.stage.Closed? {
      NoneAlive(s.shares);
    }
  }
}
