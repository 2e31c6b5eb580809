/**
 The lifetime of aperture mappings under concurrency. The cache and each in-flight copy
 hold counted references; a lookup clones one under the shard's shared lock, a miss maps
 and inserts under its exclusive lock, copies run with no lock. The last release drops the
 aperture in two steps: load the host's liveness flag, then destroy the mapping. The host
 goes down in two steps too: clear the flag, then tear the devices down. The teardown
 reclaims every mapping, whoever still refers to it.

 Every critical section and every atomic operation is one step. Evictions are steps of
 their own, so that every choice of victim is covered.
 */
module MappingLifetime {
  import opened Common
  import ApertureShard

  type Key = ApertureShard.Key

  /** `Mapped` while referenced; then the drop runs: `Dropping` before its load, `Loaded`
      between a load that saw the host alive and the destroy. */
  datatype Phase = Mapped | Dropping | Loaded | Destroyed | Skipped

  datatype Aperture = Aperture(key: Key, refs: nat, phase: Phase)

  /** A thread serving an access. */
  datatype Thread = Idle | Missed(key: Key) | Holding(aperture: nat)

  datatype State = State(
    apertures: seq<Aperture>, cache: map<Key, nat>, threads: seq<Thread>,
    alive: bool, down: bool,
    evicted: seq<Key>, destroyed: seq<nat>,
    faults: set<nat>,  // apertures destroyed after the host went down
    wild: set<nat>,    // apertures copied through when their mapping was gone
    late: set<Key>)    // keys the host was asked to map after it went down

  datatype Event =
    | Lookup(thread: nat, key: Key)
    | GetOrCreate(thread: nat, granted: bool)
    | Evict(key: Key)
    | Copy(thread: nat)         // a byte moves through the held mapping
    | Release(thread: nat)      // the copy is over
    | DropLoad(aperture: nat)
    | DropDestroy(aperture: nat)
    | HostStore | HostTeardown

  function Init(threads: nat): State {
    State([], map[], seq(threads, _ => Idle), true, false, [], [], {}, {}, {})
  }

  function Clone(s: State, a: nat): State
    requires a < |s.apertures|
  {
    s.(apertures := s.apertures[a := s.apertures[a].(refs := s.apertures[a].refs + 1)])
  }

  /** Give up one reference; the last one starts the drop. */
  function Unref(s: State, a: nat): State
    requires a < |s.apertures|
  {
    var ap := s.apertures[a];
    if ap.refs <= 1 then s.(apertures := s.apertures[a := ap.(refs := 0, phase := Dropping)])
    else s.(apertures := s.apertures[a := ap.(refs := ap.refs - 1)])
  }

  function LookupStep(s: State, t: nat, k: Key): State
    requires t < |s.threads|
  {
    if !s.threads[t].Idle? then s
    else if k in s.cache && s.cache[k] < |s.apertures| then
      Clone(s, s.cache[k]).(threads := s.threads[t := Holding(s.cache[k])])
    else s.(threads := s.threads[t := Missed(k)])
  }

  /** The miss path under the exclusive lock: adopt what a concurrent miss inserted, or map
      and insert, or fail. The new aperture is referenced by the cache and by the caller. */
  function GetOrCreateStep(s: State, t: nat, granted: bool): State
    requires t < |s.threads|
  {
    if !s.threads[t].Missed? then s
    else
      var k := s.threads[t].key;
      if k in s.cache && s.cache[k] < |s.apertures| then
        Clone(s, s.cache[k]).(threads := s.threads[t := Holding(s.cache[k])])
      else if s.down then s.(threads := s.threads[t := Idle], late := s.late + {k})  // nothing checks that the host is alive
      else if granted then
        s.(apertures := s.apertures + [Aperture(k, 2, Mapped)], cache := s.cache[k := |s.apertures|],
           threads := s.threads[t := Holding(|s.apertures|)])
      else s.(threads := s.threads[t := Idle])
  }

  function EvictStep(s: State, k: Key): State {
    if k in s.cache && s.cache[k] < |s.apertures| then
      Unref(s, s.cache[k]).(cache := s.cache - {k}, evicted := s.evicted + [k])
    else s
  }

  /** The mapping is there: neither destroyed nor reclaimed by a teardown of the host. */
  predicate Backed(s: State, a: nat)
    requires a < |s.apertures|
  {
    !s.down && !s.apertures[a].phase.Destroyed?
  }

  function CopyStep(s: State, t: nat): State
    requires t < |s.threads|
  {
    if s.threads[t].Holding? && s.threads[t].aperture < |s.apertures| && !Backed(s, s.threads[t].aperture)
    then s.(wild := s.wild + {s.threads[t].aperture})
    else s
  }

  function ReleaseStep(s: State, t: nat): State
    requires t < |s.threads|
  {
    if s.threads[t].Holding? && s.threads[t].aperture < |s.apertures| then
      Unref(s, s.threads[t].aperture).(threads := s.threads[t := Idle])
    else s
  }

  function SetPhase(s: State, a: nat, phase: Phase): State
    requires a < |s.apertures|
  {
    s.(apertures := s.apertures[a := s.apertures[a].(phase := phase)])
  }

  function DropStep(s: State, e: Event): State
    requires e.DropLoad? || e.DropDestroy?
  {
    var a := e.aperture;
    if a >= |s.apertures| then s
    else if e.DropLoad? then
      if s.apertures[a].phase.Dropping? then SetPhase(s, a, if s.alive then Loaded else Skipped) else s
    else if s.apertures[a].phase.Loaded? then
      SetPhase(s, a, Destroyed).(destroyed := s.destroyed + [a], faults := if s.down then s.faults + {a} else s.faults)
    else s
  }

  function Step(s: State, e: Event): State {
    match e
    case Lookup(t, k) => if t < |s.threads| then LookupStep(s, t, k) else s
    case GetOrCreate(t, granted) => if t < |s.threads| then GetOrCreateStep(s, t, granted) else s
    case Evict(k) => EvictStep(s, k)
    case Copy(t) => if t < |s.threads| then CopyStep(s, t) else s
    case Release(t) => if t < |s.threads| then ReleaseStep(s, t) else s
    case DropLoad(_) => DropStep(s, e)
    case DropDestroy(_) => DropStep(s, e)
    case HostStore => s.(alive := false)
    case HostTeardown => if s.alive then s else s.(down := true)
  }

  function Exec(s: State, schedule: seq<Event>): State {
    if schedule == [] then s
    else Step(Exec(s, schedule[..|schedule| - 1]), schedule[|schedule| - 1])
  }

  // ---------------------------------------------------------------- the invariant

  /** How many threads hold aperture `a`. */
  function Holders(threads: seq<Thread>, a: nat): nat {
    if threads == [] then 0 else B(threads[0] == Holding(a)) + Holders(threads[1..], a)
  }

  lemma {:induction false} HoldersAfter(threads: seq<Thread>, t: nat, now: Thread, a: nat)
    requires t < |threads|
    ensures Holders(threads[t := now], a) + B(threads[t] == Holding(a)) == Holders(threads, a) + B(now == Holding(a))
  {
    if t == 0 {
      assert threads[t := now][1..] == threads[1..];
    } else {
      assert threads[t := now][1..] == threads[1..][t - 1 := now];
      HoldersAfter(threads[1..], t - 1, now, a);
    }
  }

  predicate IsCached(s: State, a: nat)
    requires a < |s.apertures|
  {
    var k := s.apertures[a].key; k in s.cache && s.cache[k] == a
  }

  /** An aperture's count is the number of its holders, and it is mapped while that is not
      zero. */
  predicate Counted(s: State, a: nat)
    requires a < |s.apertures|
  {
    && s.apertures[a].refs == B(IsCached(s, a)) + Holders(s.threads, a)
    && (s.apertures[a].phase.Mapped? <==> s.apertures[a].refs > 0)
  }

  predicate CacheOk(s: State) {
    forall k :: k in s.cache ==> s.cache[k] < |s.apertures| && s.apertures[s.cache[k]].key == k
  }

  predicate Wellformed(s: State) {
    && CacheOk(s)
    && (forall t :: 0 <= t < |s.threads| && s.threads[t].Holding? ==> s.threads[t].aperture < |s.apertures|)
    && (forall a :: 0 <= a < |s.apertures| ==> Counted(s, a))
  }

  lemma {:induction false} NobodyHolds(threads: seq<Thread>, a: nat)
    requires forall t :: 0 <= t < |threads| ==> threads[t] != Holding(a)
    ensures Holders(threads, a) == 0
  {
    if threads != [] {
      NobodyHolds(threads[1..], a);
    }
  }

  lemma {:induction false} HolderCounts(threads: seq<Thread>, t: nat, a: nat)
    requires t < |threads| && threads[t] == Holding(a)
    ensures Holders(threads, a) > 0
  {
    if t > 0 {
      HolderCounts(threads[1..], t - 1, a);
    }
  }

  lemma TakeKeepsWellformed(s: State, t: nat, k: Key)
    requires Wellformed(s) && t < |s.threads| && !s.threads[t].Holding? && k in s.cache
    ensures Wellformed(Clone(s, s.cache[k]).(threads := s.threads[t := Holding(s.cache[k])]))
  {
    var s' := Clone(s, s.cache[k]).(threads := s.threads[t := Holding(s.cache[k])]);
    forall a | 0 <= a < |s'.apertures|
      ensures Counted(s', a)
    {
      assert Counted(s, a);
      HoldersAfter(s.threads, t, Holding(s.cache[k]), a);
    }
  }

  lemma CreateKeepsWellformed(s: State, t: nat)
    requires Wellformed(s) && t < |s.threads| && s.threads[t].Missed? && s.threads[t].key !in s.cache && !s.down
    ensures Wellformed(GetOrCreateStep(s, t, true))
  {
    var s', n := GetOrCreateStep(s, t, true), |s.apertures|;
    NobodyHolds(s.threads, n);
    forall a | 0 <= a < |s'.apertures|
      ensures Counted(s', a)
    {
      HoldersAfter(s.threads, t, Holding(n), a);
      if a < n {
        assert Counted(s, a);
      }
    }
  }

  lemma IdleKeepsWellformed(s: State, t: nat, now: Thread)
    requires Wellformed(s) && t < |s.threads| && !s.threads[t].Holding? && !now.Holding?
    ensures Wellformed(s.(threads := s.threads[t := now]))
  {
    var s' := s.(threads := s.threads[t := now]);
    forall a | 0 <= a < |s'.apertures|
      ensures Counted(s', a)
    {
      assert Counted(s, a);
      HoldersAfter(s.threads, t, now, a);
    }
  }

  lemma EvictKeepsWellformed(s: State, k: Key)
    requires Wellformed(s)
    ensures Wellformed(EvictStep(s, k))
  {
    if k in s.cache {
      var s' := EvictStep(s, k);
      forall a | 0 <= a < |s'.apertures|
        ensures Counted(s', a)
      {
        assert Counted(s, a);
      }
    }
  }

  lemma ReleaseKeepsCount(s: State, t: nat, a: nat)
    requires Wellformed(s) && t < |s.threads| && s.threads[t].Holding? && a < |s.apertures|
    ensures Counted(ReleaseStep(s, t), a)
  {
    assert Counted(s, a);
    HoldersAfter(s.threads, t, Idle, a);
    HolderCounts(s.threads, t, s.threads[t].aperture);
    hide Holders;
    assert IsCached(ReleaseStep(s, t), a) == IsCached(s, a);
  }

  lemma ReleaseKeepsWellformed(s: State, t: nat)
    requires Wellformed(s) && t < |s.threads|
    ensures Wellformed(ReleaseStep(s, t))
  {
    hide Counted, Holders;
    if s.threads[t].Holding? {
      var s' := ReleaseStep(s, t);
      forall a | 0 <= a < |s'.apertures| ensures Counted(s', a) { ReleaseKeepsCount(s, t, a); }
    }
  }

  lemma DropKeepsWellformed(s: State, e: Event)
    requires Wellformed(s) && (e.DropLoad? || e.DropDestroy?)
    ensures Wellformed(DropStep(s, e))
  {
    var s' := DropStep(s, e);
    forall a | 0 <= a < |s'.apertures|
      ensures Counted(s', a)
    {
      assert Counted(s, a);
    }
  }

  lemma StepKeepsWellformed(s: State, e: Event)
    requires Wellformed(s)
    ensures Wellformed(Step(s, e))
  {
    match e {
      case Lookup(t, k) =>
        if t < |s.threads| && s.threads[t].Idle? {
          if k in s.cache { TakeKeepsWellformed(s, t, k); } else { IdleKeepsWellformed(s, t, Missed(k)); }
        }
      case GetOrCreate(t, granted) =>
        if t < |s.threads| && s.threads[t].Missed? {
          if s.threads[t].key in s.cache {
            TakeKeepsWellformed(s, t, s.threads[t].key);
          } else if granted && !s.down {
            CreateKeepsWellformed(s, t);
          } else {
            IdleKeepsWellformed(s, t, Idle);
            SameCounts(s.(threads := s.threads[t := Idle]), Step(s, e));
          }
        }
      case Evict(k) => EvictKeepsWellformed(s, k);
      case Release(t) => if t < |s.threads| { ReleaseKeepsWellformed(s, t); }
      case DropLoad(_) => DropKeepsWellformed(s, e);
      case DropDestroy(_) => DropKeepsWellformed(s, e);
      case Copy(t) => SameCounts(s, Step(s, e));
      case HostStore => SameCounts(s, Step(s, e));
      case HostTeardown => SameCounts(s, Step(s, e));
    }
  }

  lemma SameCounts(s: State, s': State)
    requires Wellformed(s) && s'.apertures == s.apertures && s'.cache == s.cache && s'.threads == s.threads
    ensures Wellformed(s')
  {
    forall a | 0 <= a < |s'.apertures| ensures Counted(s', a) { assert Counted(s, a); }
  }

  // ---------------------------------------------------------------- creates, evictions, destroys

  /** How many apertures were ever created for `k`. */
  function Creations(apertures: seq<Aperture>, k: Key): nat {
    if apertures == [] then 0 else Creations(apertures[..|apertures| - 1], k) + B(apertures[|apertures| - 1].key == k)
  }

  lemma {:induction false} SameKeysSameCreations(x: seq<Aperture>, y: seq<Aperture>, k: Key)
    requires |x| == |y| && forall i :: 0 <= i < |x| ==> x[i].key == y[i].key
    ensures Creations(x, k) == Creations(y, k)
  {
    if x != [] {
      SameKeysSameCreations(x[..|x| - 1], y[..|y| - 1], k);
    }
  }

  /** A key was created once more than it was evicted if it is cached, else as often. */
  predicate OnePerKey(s: State, k: Key) {
    Creations(s.apertures, k) == multiset(s.evicted)[k] + B(k in s.cache)
  }

  /** A step maps a new key, or evicts one, or leaves the keys and the cache alone. */
  predicate Books(s: State, s': State) {
    || (s'.cache == s.cache && s'.evicted == s.evicted && SameKeys(s, s'))
    || (exists k <- s.cache :: s'.cache == s.cache - {k} && s'.evicted == s.evicted + [k] && SameKeys(s, s'))
    || (|s'.apertures| == |s.apertures| + 1 && s'.apertures[..|s.apertures|] == s.apertures && s'.evicted == s.evicted
        && var k := s'.apertures[|s.apertures|].key; k !in s.cache && s'.cache == s.cache[k := |s.apertures|])
  }

  predicate SameKeys(s: State, s': State) {
    |s'.apertures| == |s.apertures| && forall i :: 0 <= i < |s.apertures| ==> s'.apertures[i].key == s.apertures[i].key
  }

  lemma EvictKeepsBooks(s: State, k: Key)
    requires CacheOk(s)
    ensures Books(s, EvictStep(s, k))
  {
    if k in s.cache {
      var s' := EvictStep(s, k);
      assert SameKeys(s, s') && s'.cache == s.cache - {k};
    }
  }

  lemma CreateKeepsBooks(s: State, t: nat, granted: bool)
    requires CacheOk(s) && t < |s.threads|
    ensures Books(s, GetOrCreateStep(s, t, granted))
  {
  }

  lemma OtherStepKeepsKeys(s: State, e: Event)
    requires !e.Evict? && !e.GetOrCreate?
    ensures var s' := Step(s, e); s'.cache == s.cache && s'.evicted == s.evicted && SameKeys(s, s')
  {
  }

  lemma StepKeepsBooks(s: State, e: Event)
    requires CacheOk(s)
    ensures Books(s, Step(s, e))
  {
    hide SameKeys, EvictStep, GetOrCreateStep;
    match e {
      case Evict(k) => EvictKeepsBooks(s, k);
      case GetOrCreate(t, granted) =>
        if t < |s.threads| {
          CreateKeepsBooks(s, t, granted);
        } else {
          SameKeysRefl(s);
        }
      case _ => OtherStepKeepsKeys(s, e);
    }
  }

  lemma SameKeysRefl(s: State)
    ensures SameKeys(s, s)
  {
  }

  lemma BooksKeepOnePerKey(s: State, s': State, k: Key)
    requires Books(s, s') && OnePerKey(s, k)
    ensures OnePerKey(s', k)
  {
    if SameKeys(s, s') {
      SameKeysSameCreations(s.apertures, s'.apertures, k);
    }
  }

  // ---------------------------------------------------------------- the drop

  /** The phases of an aperture only move forward, and the load decides which way. */
  predicate Forward(p: Phase, p': Phase, alive: bool) {
    || p' == p
    || (p.Mapped? && p'.Dropping?)
    || (p.Dropping? && p' == if alive then Loaded else Skipped)
    || (p.Loaded? && p'.Destroyed?)
  }

  predicate Advances(s: State, s': State) {
    && |s.apertures| <= |s'.apertures|
    && (forall a :: 0 <= a < |s.apertures| ==> Forward(s.apertures[a].phase, s'.apertures[a].phase, s.alive))
    && (forall a :: |s.apertures| <= a < |s'.apertures| ==> s'.apertures[a].phase.Mapped?)
    && (s'.alive ==> s.alive)
  }

  lemma UnrefAdvances(s: State, a: nat)
    requires Wellformed(s) && a < |s.apertures| && s.apertures[a].refs > 0
    ensures forall i :: 0 <= i < |s.apertures| ==> Forward(s.apertures[i].phase, Unref(s, a).apertures[i].phase, s.alive)
  {
    assert Counted(s, a);
  }

  lemma StepAdvances(s: State, e: Event)
    requires Wellformed(s)
    ensures Advances(s, Step(s, e))
  {
    match e {
      case Evict(k) => EvictAdvances(s, k);
      case Release(t) => if t < |s.threads| { ReleaseAdvances(s, t); }
      case _ =>
        hide Counted;
    }
  }

  lemma EvictAdvances(s: State, k: Key)
    requires Wellformed(s)
    ensures Advances(s, EvictStep(s, k))
  {
    if k in s.cache {
      assert Counted(s, s.cache[k]);
      UnrefAdvances(s, s.cache[k]);
    }
  }

  lemma ReleaseAdvances(s: State, t: nat)
    requires Wellformed(s) && t < |s.threads|
    ensures Advances(s, ReleaseStep(s, t))
  {
    if s.threads[t].Holding? {
      assert Counted(s, s.threads[t].aperture);
      HolderCounts(s.threads, t, s.threads[t].aperture);
      UnrefAdvances(s, s.threads[t].aperture);
    }
  }

  /** The log of destroys: each destroyed aperture once, and no other. */
  predicate DestroyedOnce(s: State) {
    && (forall a :: 0 <= a < |s.apertures| ==> multiset(s.destroyed)[a] == B(s.apertures[a].phase.Destroyed?))
    && (forall a <- s.destroyed :: a < |s.apertures|)
  }

  lemma QuietStep(s: State, s': State)
    requires DestroyedOnce(s) && Advances(s, s') && s'.destroyed == s.destroyed
    requires forall a :: 0 <= a < |s.apertures| && s.apertures[a].phase.Loaded? ==> s'.apertures[a].phase.Loaded?
    ensures DestroyedOnce(s')
  {
    forall a | 0 <= a < |s'.apertures|
      ensures multiset(s'.destroyed)[a] == B(s'.apertures[a].phase.Destroyed?)
    {
      if a < |s.apertures| {
        assert Forward(s.apertures[a].phase, s'.apertures[a].phase, s.alive);
      } else {
        assert a !in s.destroyed;
      }
    }
  }

  lemma LoadedStays(s: State, e: Event)
    requires Wellformed(s) && !e.DropDestroy?
    ensures Step(s, e).destroyed == s.destroyed && |s.apertures| <= |Step(s, e).apertures|
    ensures forall a :: 0 <= a < |s.apertures| && s.apertures[a].phase.Loaded? ==> Step(s, e).apertures[a].phase.Loaded?
  {
    StepAdvances(s, e);
    forall a | 0 <= a < |s.apertures| && s.apertures[a].phase.Loaded?
      ensures Step(s, e).apertures[a].phase.Loaded?
    {
      assert Counted(s, a);
    }
  }

  lemma StepDestroysOnce(s: State, e: Event)
    requires Wellformed(s) && DestroyedOnce(s)
    ensures DestroyedOnce(Step(s, e))
  {
    if !e.DropDestroy? {
      StepAdvances(s, e);
      LoadedStays(s, e);
      QuietStep(s, Step(s, e));
    }
  }

  // ---------------------------------------------------------------- over every run

  lemma {:induction false} Reachable(threads: nat, schedule: seq<Event>)
    ensures var s := Exec(Init(threads), schedule); Wellformed(s) && DestroyedOnce(s)
  {
    if schedule != [] {
      var n := |schedule| - 1;
      Reachable(threads, schedule[..n]);
      var s := Exec(Init(threads), schedule[..n]);
      hide *;
      StepKeepsWellformed(s, schedule[n]);
      StepDestroysOnce(s, schedule[n]);
      ExecLast(Init(threads), schedule);
    }
  }

  lemma ExecLast(s: State, schedule: seq<Event>)
    requires schedule != []
    ensures Exec(s, schedule) == Step(Exec(s, schedule[..|schedule| - 1]), schedule[|schedule| - 1])
  {
  }

  /** No copy uses a destroyed mapping: what a thread holds is mapped and not being dropped, and
      its mapping is there exactly as long as the host is not down. */
  lemma CopyUsesLiveMapping(threads: nat, schedule: seq<Event>, t: nat)
    requires t < |Exec(Init(threads), schedule).threads| && Exec(Init(threads), schedule).threads[t].Holding?
    ensures var s := Exec(Init(threads), schedule);
            var a := s.threads[t].aperture;
            && a < |s.apertures| && s.apertures[a].phase.Mapped? && a !in s.destroyed
            && (Backed(s, a) <==> !s.down)
  {
    Reachable(threads, schedule);
    var s := Exec(Init(threads), schedule);
    var a := s.threads[t].aperture;
    HeldIsMapped(s, t);
    assert multiset(s.destroyed)[a] == 0;
  }

  lemma HeldIsMapped(s: State, t: nat)
    requires Wellformed(s) && t < |s.threads| && s.threads[t].Holding?
    ensures var a := s.threads[t].aperture; a < |s.apertures| && s.apertures[a].phase.Mapped? && s.apertures[a].refs > 0
  {
    assert Counted(s, s.threads[t].aperture);
    HolderCounts(s.threads, t, s.threads[t].aperture);
  }

  lemma CopyIsSafeWhileUp(s: State, e: Event)
    requires Wellformed(s) && (!s.down ==> s.wild == {} && s.late == {})
    ensures !Step(s, e).down ==> Step(s, e).wild == {} && Step(s, e).late == {}
  {
    if e.Copy? && e.thread < |s.threads| && s.threads[e.thread].Holding? {
      HeldIsMapped(s, e.thread);
    }
    hide Wellformed;
  }

  /** Until the host is down, no copy ever goes through a mapping that is gone, and none is
      asked for in vain. */
  lemma {:induction false} NoWildCopyWhileUp(threads: nat, schedule: seq<Event>)
    ensures var s := Exec(Init(threads), schedule); !s.down ==> s.wild == {} && s.late == {}
  {
    if schedule != [] {
      var n := |schedule| - 1;
      NoWildCopyWhileUp(threads, schedule[..n]);
      Reachable(threads, schedule[..n]);
      hide Wellformed, DestroyedOnce, Step;
      CopyIsSafeWhileUp(Exec(Init(threads), schedule[..n]), schedule[n]);
    }
  }

  /** A mapping is destroyed at most once, and only when nothing refers to it any more. */
  lemma DestroyFollowsLastRelease(threads: nat, schedule: seq<Event>, a: nat)
    requires a in Exec(Init(threads), schedule).destroyed
    ensures var s := Exec(Init(threads), schedule);
            && a < |s.apertures| && multiset(s.destroyed)[a] == 1
            && !IsCached(s, a) && Holders(s.threads, a) == 0
  {
    Reachable(threads, schedule);
    var s := Exec(Init(threads), schedule);
    assert Counted(s, a);
    assert multiset(s.destroyed)[a] > 0;
  }

  lemma SkipsNothingWhileAlive(s: State, s': State)
    requires Advances(s, s') && s'.alive && forall a :: 0 <= a < |s.apertures| ==> !s.apertures[a].phase.Skipped?
    ensures forall a :: 0 <= a < |s'.apertures| ==> !s'.apertures[a].phase.Skipped?
  {
    forall a | 0 <= a < |s'.apertures|
      ensures !s'.apertures[a].phase.Skipped?
    {
      if a < |s.apertures| {
        assert Forward(s.apertures[a].phase, s'.apertures[a].phase, s.alive);
      }
    }
  }

  /** While the host is alive, no drop gives up on its mapping. */
  lemma {:induction false} NoneSkippedWhileAlive(threads: nat, schedule: seq<Event>)
    requires Exec(Init(threads), schedule).alive
    ensures forall a :: 0 <= a < |Exec(Init(threads), schedule).apertures| ==> !Exec(Init(threads), schedule).apertures[a].phase.Skipped?
  {
    if schedule != [] {
      var n := |schedule| - 1;
      Reachable(threads, schedule[..n]);
      var s := Exec(Init(threads), schedule[..n]);
      StepAdvances(s, schedule[n]);
      ExecLast(Init(threads), schedule);
      NoneSkippedWhileAlive(threads, schedule[..n]);
      hide Exec, Step, Wellformed, DestroyedOnce;
      SkipsNothingWhileAlive(s, Step(s, schedule[n]));
    }
  }

  /** No mapping leaks: in every reachable state with the host alive, an aperture that neither the
      cache nor a copy refers to is destroyed once its drop has taken its two steps. */
  lemma UnreferencedIsDestroyed(threads: nat, schedule: seq<Event>, a: nat)
    requires var s := Exec(Init(threads), schedule); s.alive && a < |s.apertures| && !IsCached(s, a) && Holders(s.threads, a) == 0
    ensures a in Step(Step(Exec(Init(threads), schedule), DropLoad(a)), DropDestroy(a)).destroyed
  {
    Reachable(threads, schedule);
    NoneSkippedWhileAlive(threads, schedule);
    var s := Exec(Init(threads), schedule);
    assert Counted(s, a);
    hide Exec;
    DropRuns(s, a);
  }

  lemma DropRuns(s: State, a: nat)
    requires s.alive && DestroyedOnce(s) && a < |s.apertures| && !s.apertures[a].phase.Mapped? && !s.apertures[a].phase.Skipped?
    ensures a in Step(Step(s, DropLoad(a)), DropDestroy(a)).destroyed
  {
    if s.apertures[a].phase.Destroyed? {
      assert multiset(s.destroyed)[a] == 1;
    }
  }

  /** No drop has a step left to take. */
  ghost predicate DropsAreOver(s: State) {
    forall a :: Step(s, DropLoad(a)) == s && Step(s, DropDestroy(a)) == s
  }

  /** When no drop has a step left and the host was never stopped, the platform's live mappings are
      exactly the cached ones and those that copies hold. */
  lemma LiveMappingsAreReferenced(threads: nat, schedule: seq<Event>, a: nat)
    requires var s := Exec(Init(threads), schedule); s.alive && DropsAreOver(s) && a < |s.apertures|
    ensures var s := Exec(Init(threads), schedule);
      a !in s.destroyed <==> IsCached(s, a) || exists t :: 0 <= t < |s.threads| && s.threads[t] == Holding(a)
  {
    Reachable(threads, schedule);
    NoneSkippedWhileAlive(threads, schedule);
    var s := Exec(Init(threads), schedule);
    hide Exec;
    assert Counted(s, a);
    assert multiset(s.destroyed)[a] == B(s.apertures[a].phase.Destroyed?);
    if t :| 0 <= t < |s.threads| && s.threads[t] == Holding(a) {
      HolderCounts(s.threads, t, a);
    } else {
      NobodyHolds(s.threads, a);
    }
    OverIsDestroyed(s, a);
  }

  lemma OverIsDestroyed(s: State, a: nat)
    requires s.alive && DropsAreOver(s) && a < |s.apertures| && !s.apertures[a].phase.Skipped?
    ensures s.apertures[a].phase.Mapped? || s.apertures[a].phase.Destroyed?
  {
    assert Step(s, DropLoad(a)) == s && Step(s, DropDestroy(a)) == s;
  }

  /** Concurrent misses leave one mapping per key: without an eviction in between, a key is
      never mapped a second time. */
  lemma {:induction false} OneMappingPerKey(threads: nat, schedule: seq<Event>, k: Key)
    ensures OnePerKey(Exec(Init(threads), schedule), k)
  {
    if schedule != [] {
      var n := |schedule| - 1;
      OneMappingPerKey(threads, schedule[..n], k);
      Reachable(threads, schedule[..n]);
      var s := Exec(Init(threads), schedule[..n]);
      assert CacheOk(s);
      hide *;
      StepKeepsBooks(s, schedule[n]);
      BooksKeepOnePerKey(s, Step(s, schedule[n]), k);
      ExecLast(Init(threads), schedule);
    }
  }

  // ---------------------------------------------------------------- the host goes down

  /** Once the flag is cleared, an aperture whose drop has not loaded it yet is never destroyed. */
  predicate Spared(s: State, a: nat) {
    !s.alive && (a < |s.apertures| ==> !s.apertures[a].phase.Loaded? && !s.apertures[a].phase.Destroyed?)
    && a !in s.faults && a !in s.destroyed
  }

  lemma SparedStep(s: State, e: Event, a: nat)
    requires Wellformed(s) && Spared(s, a)
    ensures Spared(Step(s, e), a)
  {
    StepAdvances(s, e);
    hide Wellformed, Counted;
    var s' := Step(s, e);
    if a < |s.apertures| {
      assert Forward(s.apertures[a].phase, s'.apertures[a].phase, s.alive);
    }
  }

  lemma {:induction false} LateLoadNeverDestroys(s: State, schedule: seq<Event>, a: nat)
    requires Wellformed(s) && Spared(s, a)
    ensures Wellformed(Exec(s, schedule)) && Spared(Exec(s, schedule), a)
  {
    if schedule != [] {
      var n := |schedule| - 1;
      LateLoadNeverDestroys(s, schedule[..n], a);
      hide *;
      StepKeepsWellformed(Exec(s, schedule[..n]), schedule[n]);
      SparedStep(Exec(s, schedule[..n]), schedule[n], a);
      ExecLast(s, schedule);
    }
  }

  /** The two-step drop leaves one race. With the host down, a mapping can still be destroyed
      on it exactly when its drop had loaded the flag before the flag was cleared and was
      still to destroy. */
  lemma DownHostIsTouchedExactlyByLoadedDrops(s: State, a: nat)
    requires Wellformed(s) && s.down && !s.alive && a !in s.faults && a !in s.destroyed
    requires a < |s.apertures| && !s.apertures[a].phase.Destroyed?
    ensures (exists schedule :: a in Exec(s, schedule).faults) <==> s.apertures[a].phase.Loaded?
  {
    if s.apertures[a].phase.Loaded? {
      var schedule := [DropDestroy(a)];
      assert schedule[..0] == [];
      assert a in Exec(s, schedule).faults;
    } else {
      forall schedule: seq<Event>
        ensures a !in Exec(s, schedule).faults
      {
        LateLoadNeverDestroys(s, schedule, a);
      }
    }
  }

  // ---------------------------------------------------------------- copies on a host that is down

  /** Nothing refers to the aperture any more, and no copy went through its lost mapping. */
  predicate Unreferenced(s: State, a: nat) {
    a < |s.apertures| && !s.apertures[a].phase.Mapped? && a !in s.wild
  }

  lemma UnreferencedStays(s: State, e: Event, a: nat)
    requires Wellformed(s) && Unreferenced(s, a)
    ensures Unreferenced(Step(s, e), a)
  {
    StepAdvances(s, e);
    if e.Copy? && e.thread < |s.threads| && s.threads[e.thread].Holding? {
      HeldIsMapped(s, e.thread);
    }
    hide Wellformed, Counted;
    assert Forward(s.apertures[a].phase, Step(s, e).apertures[a].phase, s.alive);
  }

  lemma {:induction false} UnreferencedForever(s: State, schedule: seq<Event>, a: nat)
    requires Wellformed(s) && Unreferenced(s, a)
    ensures Wellformed(Exec(s, schedule)) && Unreferenced(Exec(s, schedule), a)
  {
    if schedule != [] {
      var n := |schedule| - 1;
      UnreferencedForever(s, schedule[..n], a);
      hide *;
      StepKeepsWellformed(Exec(s, schedule[..n]), schedule[n]);
      UnreferencedStays(Exec(s, schedule[..n]), schedule[n], a);
      ExecLast(s, schedule);
    }
  }

  lemma ExecSnoc(s: State, schedule: seq<Event>, e: Event)
    ensures Exec(s, schedule + [e]) == Step(Exec(s, schedule), e)
  {
    assert (schedule + [e])[..|schedule|] == schedule;
  }

  lemma ExecNothing(s: State)
    ensures Exec(s, []) == s
  {
  }

  /** On a host that is down a thread gives up what it was doing; the cache stays. */
  lemma ThreadGivesUp(s: State, t: nat)
    requires Wellformed(s) && s.down && t < |s.threads|
    ensures var s' := Step(Step(s, GetOrCreate(t, false)), Release(t));
      Wellformed(s') && s'.down && s'.cache == s.cache && |s'.threads| == |s.threads| && s'.threads[t].Idle?
  {
    hide Wellformed, Step;
    StepKeepsWellformed(s, GetOrCreate(t, false));
    GiveUpMiss(s, t);
    StepKeepsWellformed(Step(s, GetOrCreate(t, false)), Release(t));
    GiveUpHold(Step(s, GetOrCreate(t, false)), t);
  }

  lemma GiveUpMiss(s: State, t: nat)
    requires Wellformed(s) && s.down && t < |s.threads|
    ensures var s' := Step(s, GetOrCreate(t, false));
      s'.down && s'.cache == s.cache && |s'.threads| == |s.threads| && !s'.threads[t].Missed?
  {
    hide Counted;
  }

  lemma GiveUpHold(s: State, t: nat)
    requires Wellformed(s) && s.down && t < |s.threads| && !s.threads[t].Missed?
    ensures var s' := Step(s, Release(t));
      s'.down && s'.cache == s.cache && |s'.threads| == |s.threads| && s'.threads[t].Idle?
  {
    hide Counted;
  }

  lemma CachedIsCopied(s: State, t: nat, a: nat)
    requires Wellformed(s) && s.down && t < |s.threads| && s.threads[t].Idle? && a < |s.apertures| && IsCached(s, a)
    ensures a in Step(Step(s, Lookup(t, s.apertures[a].key)), Copy(t)).wild
  {
    hide Counted, Holders;
  }

  /** With the host down, some continuation copies through a mapping the teardown took away if
      and only if the mapping is still referred to, by a copy under way or by the cache, and
      there is a thread to do it. */
  lemma DownHostIsCopiedExactlyWhileReferenced(s: State, a: nat)
    requires Wellformed(s) && s.down && a < |s.apertures| && a !in s.wild
    ensures (exists schedule :: a in Exec(s, schedule).wild) <==> s.apertures[a].refs > 0 && s.threads != []
  {
    assert Counted(s, a);
    if s.apertures[a].refs > 0 && s.threads != [] {
      var schedule := ReachingCopy(s, a);
    } else if s.apertures[a].refs == 0 {
      forall schedule: seq<Event>
        ensures a !in Exec(s, schedule).wild
      {
        UnreferencedForever(s, schedule, a);
      }
    } else {
      forall schedule: seq<Event>
        ensures a !in Exec(s, schedule).wild
      {
        NobodyCopies(s, schedule);
      }
    }
  }

  lemma {:induction false} NobodyCopies(s: State, schedule: seq<Event>)
    requires s.threads == []
    ensures Exec(s, schedule).threads == [] && Exec(s, schedule).wild == s.wild && Exec(s, schedule).late == s.late
  {
    if schedule != [] {
      var n := |schedule| - 1;
      NobodyCopies(s, schedule[..n]);
      var before := Exec(s, schedule[..n]);
      ExecLast(s, schedule);
      hide Exec;
      NobodyCopiesNow(before, schedule[n]);
    } else {
      ExecNothing(s);
    }
  }

  lemma NobodyCopiesNow(s: State, e: Event)
    requires s.threads == []
    ensures Step(s, e).threads == [] && Step(s, e).wild == s.wild && Step(s, e).late == s.late
  {
  }

  lemma ReachingCopy(s: State, a: nat) returns (schedule: seq<Event>)
    requires Wellformed(s) && s.down && a < |s.apertures| && s.apertures[a].refs > 0 && s.threads != []
    ensures a in Exec(s, schedule).wild
  {
    assert Counted(s, a);
    hide Exec;
    ExecNothing(s);
    if t :| 0 <= t < |s.threads| && s.threads[t] == Holding(a) {
      schedule := [] + [Copy(t)];
      ExecSnoc(s, [], Copy(t));
    } else {
      NobodyHolds(s.threads, a);
      var k := s.apertures[a].key;
      var s1 := Step(s, GetOrCreate(0, false));
      var s2 := Step(s1, Release(0));
      ThreadGivesUp(s, 0);
      ExecSnoc(s, [], GetOrCreate(0, false));
      ExecSnoc(s, [] + [GetOrCreate(0, false)], Release(0));
      ExecSnoc(s, [] + [GetOrCreate(0, false)] + [Release(0)], Lookup(0, k));
      ExecSnoc(s, [] + [GetOrCreate(0, false)] + [Release(0)] + [Lookup(0, k)], Copy(0));
      schedule := [] + [GetOrCreate(0, false)] + [Release(0)] + [Lookup(0, k)] + [Copy(0)];
      CachedStays(s, a);
      hide Step;
      CachedIsCopied(s2, 0, a);
    }
  }

  lemma CachedStays(s: State, a: nat)
    requires Wellformed(s) && s.down && s.threads != [] && a < |s.apertures| && IsCached(s, a)
    ensures var s' := Step(Step(s, GetOrCreate(0, false)), Release(0));
      a < |s'.apertures| && IsCached(s', a) && s'.apertures[a].key == s.apertures[a].key
  {
    hide Counted, Holders;
  }

  /** With the host down, some continuation asks it to map `k`, a call on a device that is gone,
      if and only if there is a thread: nothing in the way of a miss looks at the liveness flag. */
  lemma DownHostIsAskedExactlyByMisses(s: State, k: Key)
    requires Wellformed(s) && s.down && k !in s.late
    ensures (exists schedule :: k in Exec(s, schedule).late) <==> s.threads != []
  {
    if s.threads != [] {
      var schedule := ReachingMiss(s, k);
    } else {
      forall schedule: seq<Event>
        ensures k !in Exec(s, schedule).late
      {
        NobodyCopies(s, schedule);
      }
    }
  }

  lemma ReachingMiss(s: State, k: Key) returns (schedule: seq<Event>)
    requires Wellformed(s) && s.down && s.threads != []
    ensures k in Exec(s, schedule).late
  {
    hide Exec;
    ExecNothing(s);
    ExecSnoc(s, [], GetOrCreate(0, false));
    ExecSnoc(s, [] + [GetOrCreate(0, false)], Release(0));
    ThreadGivesUp(s, 0);
    hide Step;
    var idle := Step(Step(s, GetOrCreate(0, false)), Release(0));
    var run := [] + [GetOrCreate(0, false)] + [Release(0)];
    ExecSnoc(s, run, Evict(k));
    ExecSnoc(s, run + [Evict(k)], Lookup(0, k));
    ExecSnoc(s, run + [Evict(k)] + [Lookup(0, k)], GetOrCreate(0, false));
    schedule := run + [Evict(k)] + [Lookup(0, k)] + [GetOrCreate(0, false)];
    MissIsLate(idle, 0, k);
  }

  lemma MissIsLate(s: State, t: nat, k: Key)
    requires Wellformed(s) && s.down && t < |s.threads| && s.threads[t].Idle?
    ensures k in Step(Step(Step(s, Evict(k)), Lookup(t, k)), GetOrCreate(t, false)).late
  {
    hide Counted, Holders;
  }

  /** A run that copies through a reclaimed mapping: the host goes down under a copy. */
  lemma TeardownUnderCopy(k: Key) returns (run: seq<Event>)
    ensures 0 in Exec(Init(1), run).wild
  {
    hide Exec;
    var s := Init(1);
    ExecNothing(s);
    run := [] + [Lookup(0, k)] + [GetOrCreate(0, true)] + [HostStore] + [HostTeardown] + [Copy(0)];
    ExecSnoc(s, [], Lookup(0, k));
    ExecSnoc(s, [] + [Lookup(0, k)], GetOrCreate(0, true));
    ExecSnoc(s, [] + [Lookup(0, k)] + [GetOrCreate(0, true)], HostStore);
    ExecSnoc(s, [] + [Lookup(0, k)] + [GetOrCreate(0, true)] + [HostStore], HostTeardown);
    ExecSnoc(s, [] + [Lookup(0, k)] + [GetOrCreate(0, true)] + [HostStore] + [HostTeardown], Copy(0));
    var s1 := Step(s, Lookup(0, k));
    assert s1.threads == [Missed(k)];
    var s2 := Step(s1, GetOrCreate(0, true));
    assert s2.apertures == [Aperture(k, 2, Mapped)] && s2.threads == [Holding(0)];
  }

  function RacingRun(k: Key): seq<Event> {
    [Lookup(0, k), GetOrCreate(0, true), Evict(k), Release(0), DropLoad(0), HostStore, HostTeardown, DropDestroy(0)]
  }

  lemma RaceToLastHolder(k: Key)
    ensures var r := RacingRun(k);
            Step(Step(Step(Init(1), r[0]), r[1]), r[2]) ==
            State([Aperture(k, 1, Mapped)], map[], [Holding(0)], true, false, [k], [], {}, {}, {})
  {
    var r := RacingRun(k);
    var s1 := Step(Init(1), r[0]);
    assert s1.threads == [Missed(k)];
    var s2 := Step(s1, r[1]);
    assert s2.apertures == [Aperture(k, 2, Mapped)] && s2.cache == map[k := 0] && s2.threads == [Holding(0)];
    var s3 := Step(s2, r[2]);
    assert s3.apertures == [Aperture(k, 1, Mapped)] && s3.cache == map[];
  }

  /** The race is reachable: load, store, teardown, destroy. */
  lemma RacingDropReachesDownHost(k: Key)
    ensures 0 in Exec(Init(1), RacingRun(k)).faults
  {
    var r := RacingRun(k);
    RaceToLastHolder(k);
    Unroll(Init(1), r);
    var s3 := State([Aperture(k, 1, Mapped)], map[], [Holding(0)], true, false, [k], [], {}, {}, {});
    var s4 := Step(s3, Release(0));
    assert s4.apertures == [Aperture(k, 0, Dropping)];
    var s5 := Step(s4, DropLoad(0));
    assert s5.apertures == [Aperture(k, 0, Loaded)];
    assert 0 in Step(Step(Step(s5, HostStore), HostTeardown), DropDestroy(0)).faults;
  }

  lemma Unroll(s: State, r: seq<Event>)
    requires |r| == 8
    ensures Exec(s, r) == Step(Step(Step(Step(Step(Step(Step(Step(s, r[0]), r[1]), r[2]), r[3]), r[4]), r[5]), r[6]), r[7])
  {
    hide Step;
    assert r[..7][..6] == r[..6] && r[..6][..5] == r[..5] && r[..5][..4] == r[..4] && r[..4][..3] == r[..3];
    assert r[..3][..2] == r[..2] && r[..2][..1] == r[..1] && r[..1][..0] == [];
    assert Exec(s, r[..1]) == Step(s, r[0]);
    assert Exec(s, r[..3]) == Step(Step(Step(s, r[0]), r[1]), r[2]);
    assert Exec(s, r[..5]) == Step(Step(Exec(s, r[..3]), r[3]), r[4]);
    assert Exec(s, r[..7]) == Step(Step(Exec(s, r[..5]), r[5]), r[6]);
  }
}
