/**
 The interface calls on a device host and its shares. Each call performs its effects in
 order; between two of them other threads act. Platform answers and parsed arguments are
 inputs, and a null or unparsable argument is `None`.
 */
module HostHandles {
  import opened Common
  import opened LifecycleModel
  import GuidText

  const HVFS_OK := 0
  const HVFS_ERR_INVALID_ARG := -1
  const HVFS_ERR_NOT_IMPLEMENTED := -2
  const HVFS_ERR_HDV := -4
  const HVFS_ERR_UNSUPPORTED := -5
  const HRESULT_NOT_SUPPORTED := 0x8007_0032 - U32

  /** The numbers of the interface, and of the platform's answer that a live Remove is not supported. */
  lemma CodesAre()
    ensures HVFS_OK == 0 && HVFS_ERR_INVALID_ARG == -1 && HVFS_ERR_NOT_IMPLEMENTED == -2
    ensures HVFS_ERR_HDV == -4 && HVFS_ERR_UNSUPPORTED == -5 && HRESULT_NOT_SUPPORTED == -2147024846
  {
  }

  datatype ShareConfig = ShareConfig(instanceId: GuidText.Text, ro: bool)

  /** What the platform says to one modify request: whether an operation could be created,
      and the synchronous and the asynchronous result. */
  datatype HcsReply = HcsReply(created: bool, hr: int, waited: int)

  /** The failing result, if any; 0 stands for an operation that could not be created. */
  function HcsModify(r: HcsReply): Option<int> {
    if !r.created then Some(0)
    else if r.hr < 0 then Some(r.hr)
    else if r.waited < 0 then Some(r.waited)
    else None
  }

  lemma ModifyMeans(r: HcsReply)
    ensures HcsModify(r).None? <==> r.created && r.hr >= 0 && r.waited >= 0
  {
  }

  function AnswerOf(failure: Option<int>): Answer {
    if failure.None? then Removed else if failure.value == HRESULT_NOT_SUPPORTED then Refused else Answer.Error
  }

  class HvfsHost {
    var s: State
    const memoryBytes: nat
    ghost var run: seq<Event>

    ghost predicate Valid()
      reads this
    {
      s == Exec(OPENED, run)
    }

    constructor (memoryMb: nat)
      ensures Valid() && s == OPENED && run == []
      ensures memoryBytes == Min(memoryMb * 0x10_0000, U64 - 1)
    {
      s, run := OPENED, [];
      memoryBytes := Min(memoryMb * 0x10_0000, U64 - 1);
    }

    lemma Reached()
      requires Valid()
      ensures Inv(s)
    {
      Reachable(run);
    }

    lemma ListedOrNot(i: nat)
      requires Valid() && i < |s.shares|
      ensures i in s.registry <==> Listed(s.shares[i].phase)
    {
      RegistryIsExact(run);
    }

    /** One effect. */
    method Take(e: Event)
      requires Valid()
      modifies this
      ensures Valid() && s == Step(old(s), e) && run == old(run) + [e]
    {
      hide Step, Exec;
      ExecSnoc(OPENED, run, e);
      s, run := Step(s, e), run + [e];
    }

    /** One effect of a call on a share. */
    method Act(e: Event)
      requires Valid() && OnShare(e) && Enabled(s, e)
      modifies this
      ensures Valid() && s.stage.Open? && |s.shares| == |old(s).shares| && run == old(run) + [e]
      ensures s.shares[e.share] == old(s).shares[e.share].(phase := After(e))
      ensures e.Register? ==> s.registry == old(s).registry + [e.share]
      ensures s.slots == SlotsAfter(old(s), e)
    {
      hide Step, Exec;
      ShareStep(s, e);
      StepSlots(s, e);
      Take(e);
    }

    /** Other threads act, on any share but `mine`; they may add shares. */
    method Interfere(mine: nat, others: seq<Event>)
      requires Valid() && Busy(s, mine)
      modifies this
      ensures Valid() && Busy(s, mine) && s.shares[mine] == old(s).shares[mine] && run == old(run) + Others(others, Mine(mine))
      ensures others == [] ==> s == old(s)
    {
      var i := 0;
      assert others[..0] == [] && run + [] == run;
      while i < |others|
        invariant 0 <= i <= |others| && Valid() && Busy(s, mine) && s.shares[mine] == old(s).shares[mine]
        invariant run == old(run) + Others(others[..i], Mine(mine))
        invariant i == 0 ==> s == old(s)
      {
        hide Exec, Step, Others;
        OthersNext(others, Mine(mine), i);
        if !Concerns(others[i], mine) {
          OthersLeave(s, others[i], mine);
          Take(others[i]);
        }
        i := i + 1;
      }
      assert others[..i] == others;
    }
  }

  /** The effects of the call on share `mine`. */
  function Mine(mine: nat): Event -> bool {
    (e: Event) => Concerns(e, mine)
  }

  predicate OnShare(e: Event) {
    e.Plug? || e.Register? || e.AskRemove? || e.Reply? || e.Deregister? || e.Free?
  }

  predicate Concerns(e: Event, i: nat) {
    OnShare(e) && e.share == i
  }

  /** The phase an effect leads its share to. */
  function After(e: Event): Phase
    requires OnShare(e)
  {
    match e
    case Plug(_, ok) => if ok then Plugged else Freed
    case Register(_) => Registered
    case AskRemove(_) => Removing
    case Reply(_, answer) => if answer.Error? then Registered else Answered
    case Deregister(_) => Deregistered
    case Free(_) => Freed
  }

  /** The platform's slots after an effect of a call: an Add that goes through plugs one, a Remove
      that does unplugs it, nothing else does. */
  function SlotsAfter(s: State, e: Event): multiset<Key>
    requires OnShare(e) && Enabled(s, e)
  {
    if e.Plug? && e.ok then s.slots + multiset{s.shares[e.share].instance}
    else if e.Reply? && e.answer == Removed then s.slots - multiset{s.shares[e.share].instance}
    else s.slots
  }

  lemma ShareStep(s: State, e: Event)
    requires OnShare(e) && Enabled(s, e)
    ensures e.share < |s.shares| == |Step(s, e).shares|
    ensures Step(s, e).stage == s.stage == Open && Step(s, e).shares[e.share] == s.shares[e.share].(phase := After(e))
    ensures e.Register? ==> Step(s, e).registry == s.registry + [e.share]
  {
    hide Step, Without, Quiet;
    if e.Plug? || e.Reply? {
      AnswerStep(s, e);
    } else {
      PlainStep(s, e);
    }
  }

  lemma AnswerStep(s: State, e: Event)
    requires (e.Plug? || e.Reply?) && Enabled(s, e)
    ensures |Step(s, e).shares| == |s.shares| && Step(s, e).stage == s.stage
    ensures Step(s, e).shares[e.share] == s.shares[e.share].(phase := After(e))
  {
  }

  lemma PlainStep(s: State, e: Event)
    requires OnShare(e) && !e.Plug? && !e.Reply? && Enabled(s, e)
    ensures |Step(s, e).shares| == |s.shares| && Step(s, e).stage == s.stage
    ensures Step(s, e).shares[e.share] == s.shares[e.share].(phase := After(e))
    ensures e.Register? ==> Step(s, e).registry == s.registry + [e.share]
  {
    hide Without, Quiet;
  }

  /** A call on this share is under way, so the host cannot be closed. */
  predicate Busy(s: State, i: nat) {
    s.stage.Open? && i < |s.shares| && !s.shares[i].phase.Registered? && !s.shares[i].phase.Freed?
  }

  lemma OthersLeave(s: State, e: Event, mine: nat)
    requires Busy(s, mine) && !Concerns(e, mine)
    ensures Busy(Step(s, e), mine) && Step(s, e).shares[mine] == s.shares[mine]
  {
    assert s.shares[mine] in s.shares;
  }

  /** Open a device host. A failure after the system was opened releases what was acquired,
      the support object before the system. */
  method HostOpen(outIsNull: bool, id: Option<string>, memoryMb: Option<nat>, systemOpens: bool, hostInitialises: bool)
    returns (code: int, host: HvfsHost?, released: seq<Effect>)
    ensures var valid := !outIsNull && id.Some? && memoryMb.Some?;
      && (code == HVFS_OK <==> valid && systemOpens && hostInitialises)
      && (code == HVFS_ERR_HDV <==> valid && !(systemOpens && hostInitialises))
      && (code == HVFS_ERR_INVALID_ARG <==> !valid)
    ensures code == HVFS_OK <==> host != null
    ensures host != null ==> host.memoryBytes == Min(memoryMb.value * 0x10_0000, U64 - 1)
    ensures host != null ==> fresh(host) && host.Valid() && host.s == OPENED && released == []
    ensures released == if code == HVFS_ERR_HDV && systemOpens then [SupportReleased, SystemClosed] else []
  {
    host, released := null, [];
    if outIsNull || id.None? || memoryMb.None? {
      return HVFS_ERR_INVALID_ARG, null, [];
    }
    if !systemOpens {
      return HVFS_ERR_HDV, null, [];
    }
    if !hostInitialises {
      return HVFS_ERR_HDV, null, [SupportReleased, SystemClosed];
    }
    host := new HvfsHost(memoryMb.value);
    code := HVFS_OK;
  }

  /** The arguments a share can be added with: a readable configuration, not read-only, whose
      instance id spells a GUID. */
  ghost predicate Addable(outIsNull: bool, config: Option<ShareConfig>) {
    !outIsNull && config.Some? && !config.value.ro && exists g :: GuidText.Spells(config.value.instanceId, g)
  }

  /** The key a share is added under: its instance id in canonical form. */
  ghost predicate IsKey(config: Option<ShareConfig>, key: Key) {
    config.Some? && exists g :: GuidText.Spells(config.value.instanceId, g) && key == GuidText.ToString(g)
  }

  /** Everyone's effects while share `i` is added: a refused slot ends the call. */
  ghost function AddRun(run: seq<Event>, key: Key, i: nat, ok: bool, first: seq<Event>, second: seq<Event>): seq<Event> {
    var plugged := run + [Attach(key)] + Others(first, Mine(i)) + [Plug(i, ok)];
    if ok then plugged + Others(second, Mine(i)) + [Register(i)] else plugged
  }

  /** Add a share: attach its device, plug its slot, register it. On success the handle is a
      new share, registered once under the canonical form of its instance id, with its slot
      plugged. A refused slot takes the device down again. Nothing happens on bad arguments or
      if the device cannot be attached. */
  method AddShare(host: HvfsHost?, outIsNull: bool, config: Option<ShareConfig>, attached: bool, added: HcsReply,
                  first: seq<Event>, second: seq<Event>) returns (code: int, handle: Option<nat>)
    requires host != null ==> host.Valid() && host.s.stage.Open?
    modifies host
    ensures host != null ==> host.Valid() && host.s.stage.Open?
    ensures code == HVFS_OK <==>
      host != null && Addable(outIsNull, config) && attached && added.created && added.hr >= 0 && added.waited >= 0
    ensures code == HVFS_ERR_HDV <==>
      host != null && Addable(outIsNull, config) && !(attached && added.created && added.hr >= 0 && added.waited >= 0)
    ensures code == HVFS_ERR_NOT_IMPLEMENTED <==> host != null && !outIsNull && config.Some? && config.value.ro
    ensures code == HVFS_ERR_INVALID_ARG <==>
      host == null || outIsNull || config.None? || (!config.value.ro && forall g :: !GuidText.Spells(config.value.instanceId, g))
    ensures handle == if code == HVFS_OK then Some(|old(host.s.shares)|) else None
    ensures host != null && code != HVFS_OK && !(code == HVFS_ERR_HDV && attached) ==> host.s == old(host.s) && host.run == old(host.run)
    ensures code == HVFS_OK || (code == HVFS_ERR_HDV && attached) ==>
      && |old(host.s.shares)| < |host.s.shares|
      && var i := |old(host.s.shares)|;
      && IsKey(config, host.s.shares[i].instance)
      && host.s.shares[i].phase == (if code == HVFS_OK then Registered else Freed)
      && host.run == AddRun(old(host.run), host.s.shares[i].instance, i, code == HVFS_OK, first, second)
    ensures code == HVFS_OK ==> host.s.registry != [] && host.s.registry[|host.s.registry| - 1] == handle.value
    ensures host != null && first == second == [] ==>
      host.s.slots == if code == HVFS_OK then old(host.s.slots) + multiset{host.s.shares[handle.value].instance} else old(host.s.slots)
  {
    hide GuidText.Spells, Others, AddRun, HcsModify, HvfsHost.Valid, Addable, IsKey;
    handle := None;
    var key;
    code, key := CheckArguments(host == null, outIsNull, config);
    if code != HVFS_OK {
      return;
    }
    if !attached {
      return HVFS_ERR_HDV, None;
    }
    ModifyMeans(added);
    var failure := HcsModify(added);
    var i := |host.s.shares|;
    AddParsed(host, key, failure.None?, first, second);
    if failure.Some? {
      return HVFS_ERR_HDV, None;
    }
    return HVFS_OK, Some(i);
  }

  /** The checks before anything is done, in their order; and the canonical instance id. */
  method CheckArguments(hostIsNull: bool, outIsNull: bool, config: Option<ShareConfig>) returns (code: int, key: Key)
    ensures code == HVFS_OK <==> !hostIsNull && Addable(outIsNull, config)
    ensures code == HVFS_ERR_NOT_IMPLEMENTED <==> !hostIsNull && !outIsNull && config.Some? && config.value.ro
    ensures code == HVFS_ERR_INVALID_ARG <==>
      hostIsNull || outIsNull || config.None? || (!config.value.ro && forall g :: !GuidText.Spells(config.value.instanceId, g))
    ensures code in {HVFS_OK, HVFS_ERR_NOT_IMPLEMENTED, HVFS_ERR_INVALID_ARG}
    ensures code == HVFS_OK ==> IsKey(config, key)
  {
    key := "";
    if outIsNull || hostIsNull || config.None? {
      return HVFS_ERR_INVALID_ARG, "";
    }
    if config.value.ro {
      return HVFS_ERR_NOT_IMPLEMENTED, "";
    }
    var guid := GuidText.FromString(config.value.instanceId);
    hide GuidText.Spells, GuidText.ToString;
    if guid.None? {
      return HVFS_ERR_INVALID_ARG, "";
    }
    return HVFS_OK, GuidText.ToString(guid.value);
  }

  /** The effects of an addition whose arguments are good and whose device attaches. */
  method AddParsed(host: HvfsHost, key: Key, ok: bool, first: seq<Event>, second: seq<Event>)
    requires host.Valid() && host.s.stage.Open?
    modifies host
    ensures host.Valid() && host.s.stage.Open? && |old(host.s.shares)| < |host.s.shares|
    ensures var i := |old(host.s.shares)|;
      && host.s.shares[i] == Share(key, if ok then Registered else Freed)
      && host.run == AddRun(old(host.run), key, i, ok, first, second)
      && (ok ==> host.s.registry != [] && host.s.registry[|host.s.registry| - 1] == i)
      && (first == second == [] ==> host.s.slots == if ok then old(host.s.slots) + multiset{key} else old(host.s.slots))
  {
    var i := |host.s.shares|;
    host.Take(Attach(key));
    hide Step, Exec, Others;
    host.Interfere(i, first);
    host.Act(Plug(i, ok));
    if ok {
      host.Interfere(i, second);
      host.Act(Register(i));
    }
  }

  /** Everyone's effects while share `i` is removed: an error ends the call. */
  ghost function RemoveRun(run: seq<Event>, i: nat, answer: Answer, first: seq<Event>, second: seq<Event>, third: seq<Event>): seq<Event> {
    var replied := run + [AskRemove(i)] + Others(first, Mine(i)) + [Reply(i, answer)];
    if answer.Error? then replied else replied + Others(second, Mine(i)) + [Deregister(i)] + Others(third, Mine(i)) + [Free(i)]
  }

  /** Remove a share. The handle is freed, and gone from the registry, exactly when the platform
      removed the slot or refuses to support it; any other failure leaves it usable. */
  method RemoveShare(host: HvfsHost, share: Option<nat>, reply: HcsReply, first: seq<Event>, second: seq<Event>, third: seq<Event>)
    returns (code: int)
    requires host.Valid() && host.s.stage.Open?
    requires share.Some? ==> At(host.s, share.value, Registered)
    modifies host
    ensures host.Valid() && host.s.stage.Open?
    ensures share.None? ==> code == HVFS_OK && host.s == old(host.s)
    ensures share.Some? ==>
      && share.value < |host.s.shares| && host.s.shares[share.value].instance == old(host.s.shares)[share.value].instance
      && (code == HVFS_OK <==> reply.created && reply.hr >= 0 && reply.waited >= 0)
      && (code == HVFS_ERR_UNSUPPORTED <==>
            reply.created && (reply.hr == -2147024846 || (reply.hr >= 0 && reply.waited == -2147024846)))
      && host.s.shares[share.value].phase == (if code == HVFS_ERR_HDV then Registered else Freed)
      && (share.value in host.s.registry <==> code == HVFS_ERR_HDV)
      && host.run == RemoveRun(old(host.run), share.value, AnswerOf(HcsModify(reply)), first, second, third)
      && (first == second == third == [] ==>
            host.s.slots == if code == HVFS_OK then old(host.s.slots) - multiset{host.s.shares[share.value].instance} else old(host.s.slots))
    ensures code in {HVFS_OK, HVFS_ERR_UNSUPPORTED, HVFS_ERR_HDV}
  {
    if share.None? {
      return HVFS_OK;
    }
    hide Step, Exec, HvfsHost.Valid, Others;
    var i := share.value;
    var failure := HcsModify(reply);
    var answer := AnswerOf(failure);
    Ask(host, i, answer, first);
    code := if failure.None? then HVFS_OK else if failure.value == HRESULT_NOT_SUPPORTED then HVFS_ERR_UNSUPPORTED else HVFS_ERR_HDV;
    if code == HVFS_OK || code == HVFS_ERR_UNSUPPORTED {
      Discard(host, i, second, third);
    }
    host.ListedOrNot(i);
  }

  /** Ask the platform to remove the slot. */
  method Ask(host: HvfsHost, i: nat, answer: Answer, first: seq<Event>)
    requires host.Valid() && host.s.stage.Open? && At(host.s, i, Registered)
    modifies host
    ensures host.Valid() && host.s.stage.Open? && i < |host.s.shares|
    ensures host.s.shares[i] == old(host.s.shares)[i].(phase := if answer.Error? then Registered else Answered)
    ensures first == [] ==>
      host.s.slots == if answer == Removed then old(host.s.slots) - multiset{old(host.s.shares)[i].instance} else old(host.s.slots)
    ensures host.run == old(host.run) + [AskRemove(i)] + Others(first, Mine(i)) + [Reply(i, answer)]
  {
    hide Step, Exec, HvfsHost.Valid, Others;
    host.Act(AskRemove(i));
    host.Interfere(i, first);
    host.Act(Reply(i, answer));
  }

  /** De-register the share and free it. */
  method Discard(host: HvfsHost, i: nat, second: seq<Event>, third: seq<Event>)
    requires host.Valid() && host.s.stage.Open? && At(host.s, i, Answered)
    modifies host
    ensures host.Valid() && host.s.stage.Open? && i < |host.s.shares|
    ensures host.s.shares[i] == old(host.s.shares)[i].(phase := Freed)
    ensures second == third == [] ==> host.s.slots == old(host.s.slots)
    ensures host.run == old(host.run) + Others(second, Mine(i)) + [Deregister(i)] + Others(third, Mine(i)) + [Free(i)]
  {
    hide Step, Exec, HvfsHost.Valid, Others;
    host.Interfere(i, second);
    host.Act(Deregister(i));
    host.Interfere(i, third);
    host.Act(Free(i));
  }

  /** Close the host: free every remaining share, then the device host, the support object and
      the system handle, in this order and each once. */
  method HostClose(host: HvfsHost?) returns (code: int)
    requires host != null ==> host.Valid() && host.s.stage.Open? && Quiet(host.s.shares)
    modifies host
    ensures code == HVFS_OK
    ensures host != null ==>
      && host.Valid() && host.s.stage.Closed? && host.s.registry == [] && host.s.refs == 0
      && (forall x <- host.s.shares :: x.phase.Freed?) && host.s.slots == old(host.s.slots)
      && |host.s.shares| == |old(host.s.shares)|
      && host.s.log == old(host.s.log) + Reclaims(old(host.s.registry)) + [HostDown, SupportReleased, SystemClosed]
  {
    code := HVFS_OK;
    if host == null {
      return;
    }
    ghost var s0 := host.s;
    host.Reached();
    CloseBegins(s0);
    hide Step, Exec, HvfsHost.Valid, Inv, ClosingAfter, Quiet;
    host.Take(BeginClose);
    ghost var n := 0;
    while host.s.registry != []
      invariant host.Valid() && n <= |s0.registry| && ClosingAfter(host.s, s0, n)
      decreases |host.s.registry|
    {
      host.Reached();
      ClosingMeans(host.s, s0, n);
      WhileClosing(host.s);
      ReclaimIs(host.s, s0, n);
      host.Take(Reclaim);
      n := n + 1;
    }
    host.Reached();
    ClosingMeans(host.s, s0, n);
    WhileClosing(host.s);
    CloseEnds(host.s, s0, n);
    host.Take(Finish);
  }

  /** The first `n` listed shares have been reclaimed. */
  predicate ClosingAfter(s: State, s0: State, n: nat) {
    && n <= |s0.registry| && s.stage.Closing? && s.registry == s0.registry[n..]
    && s.log == s0.log + Reclaims(s0.registry[..n])
    && s.slots == s0.slots && |s.shares| == |s0.shares|
  }

  lemma ClosingMeans(s: State, s0: State, n: nat)
    requires ClosingAfter(s, s0, n)
    ensures s.stage.Closing?
  {
  }

  lemma CloseBegins(s0: State)
    requires s0.stage.Open? && Quiet(s0.shares)
    ensures ClosingAfter(Step(s0, BeginClose), s0, 0)
  {
  }

  /** While closing, the next listed share exists; when none is listed any more, all are
      freed and the host's own reference is the last. */
  lemma WhileClosing(s: State)
    requires Inv(s) && s.stage.Closing?
    ensures s.registry != [] ==> s.registry[0] < |s.shares|
    ensures s.registry == [] ==> s.refs == 1 && forall x <- s.shares :: x.phase.Freed?
  {
    if s.registry != [] {
      FirstIsIdle(s.shares, s.registry);
    } else {
      NoneAlive(s.shares);
    }
  }

  lemma ReclaimShape(s: State)
    requires s.stage.Closing? && s.registry != [] && s.registry[0] < |s.shares|
    ensures var s' := Step(s, Reclaim);
      && s'.stage.Closing? && s'.registry == s.registry[1..] && s'.log == s.log + [DeviceDown(s.registry[0])]
      && s'.slots == s.slots && |s'.shares| == |s.shares|
  {
  }

  lemma FinishShape(s: State)
    requires s.stage.Closing? && s.registry == [] && s.refs == 1
    ensures var s' := Step(s, Finish);
      && s'.stage.Closed? && s'.registry == [] && s'.refs == 0 && s'.slots == s.slots && s'.shares == s.shares
      && s'.log == s.log + [HostDown, SupportReleased, SystemClosed]
  {
  }

  lemma CloseEnds(s: State, s0: State, n: nat)
    requires ClosingAfter(s, s0, n) && s.registry == [] && s.refs == 1
    ensures var s' := Step(s, Finish);
      && s'.stage.Closed? && s'.registry == [] && s'.refs == 0 && s'.slots == s0.slots && s'.shares == s.shares
      && |s.shares| == |s0.shares|
      && s'.log == s0.log + Reclaims(s0.registry) + [HostDown, SupportReleased, SystemClosed]
  {
    hide Step;
    FinishShape(s);
    assert s0.registry[..n] == s0.registry;
  }

  function Reclaims(registry: seq<nat>): (r: seq<Effect>)
    ensures |r| == |registry| && forall i :: 0 <= i < |r| ==> r[i] == DeviceDown(registry[i])
  {
    seq(|registry|, i requires 0 <= i < |registry| => DeviceDown(registry[i]))
  }

  lemma ReclaimIs(s: State, s0: State, n: nat)
    requires ClosingAfter(s, s0, n) && s.registry != [] && s.registry[0] < |s.shares|
    ensures n < |s0.registry| && ClosingAfter(Step(s, Reclaim), s0, n + 1)
    ensures |Step(s, Reclaim).registry| < |s.registry|
  {
    hide Step;
    ReclaimShape(s);
    ReclaimsGrow(s0.registry, n);
  }

  lemma ReclaimsGrow(registry: seq<nat>, n: nat)
    requires n < |registry|
    ensures Reclaims(registry[..n + 1]) == Reclaims(registry[..n]) + [DeviceDown(registry[n])]
  {
  }
}
