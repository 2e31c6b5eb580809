/**
 Accesses of many threads at once, byte by byte, through cached mappings that come, go and are
 dropped under them. A thread asks for the page range of its own access and keeps the mapping
 it gets; bytes move through that mapping, at an offset. The guest stores into its memory in
 between. The log says which byte of guest memory was touched when: flat memory is the replay
 of the log.
 */
module ConcurrentCopies {
  import opened Common
  import opened GuestAddress
  import Maps = MappingLifetime
  import Cache = ApertureMem

  datatype Access = Access(write: bool, addr: nat, len: nat, src: seq<Byte>)

  /** The accesses the range check admits and a create call can map. */
  predicate Proper(a: Access, maxAddress: nat) {
    Admitted(a.addr, a.len, maxAddress) && PageSpan(a.addr, a.len, maxAddress) < U32 && (a.write ==> |a.src| == a.len)
  }

  /** A byte of guest memory was written, or read. */
  datatype Touch = Touch(at: nat, byte: Option<Byte>)

  /** An access under way: for each byte moved so far, when that was, and what was read. */
  datatype Work = Work(access: Access, moved: seq<nat>, got: seq<Byte>)

  /** `stores` are the positions in the log of the guest's own stores. */
  datatype State = State(
    maps: Maps.State, memory: seq<Byte>, work: seq<Option<Work>>, log: seq<Touch>, stores: seq<nat>, done: seq<Work>)

  datatype Event =
    | Begin(thread: nat, access: Access)
    | Fetch(thread: nat, granted: bool)
    | Move(thread: nat)
    | Finish(thread: nat)
    | Upkeep(event: Maps.Event)          // evictions, drops, the host going down
    | GuestStore(at: nat, byte: Byte)

  function Init(threads: nat, memory: seq<Byte>): State {
    State(Maps.Init(threads), memory, seq(threads, _ => None), [], [], [])
  }

  predicate IsUpkeep(e: Maps.Event) {
    e.Evict? || e.DropLoad? || e.DropDestroy? || e.HostStore? || e.HostTeardown?
  }

  /** The thread has a mapping and bytes left to move. */
  predicate Copying(s: State, t: nat) {
    && t < |s.work| == |s.maps.threads| && s.work[t].Some? && s.maps.threads[t].Holding?
    && s.maps.threads[t].aperture < |s.maps.apertures| && |s.work[t].value.moved| < s.work[t].value.access.len
  }

  /** How far into the mapping the next byte is, and the guest address that is. */
  function Offset(w: Work): nat {
    w.access.addr - BaseOf(w.access.addr) + |w.moved|
  }

  function Place(s: State, t: nat): nat
    requires Copying(s, t)
  {
    s.maps.apertures[s.maps.threads[t].aperture].key.base + Offset(s.work[t].value)
  }

  /** The next byte is inside a mapping that is there. */
  predicate Reaches(s: State, t: nat)
    requires Copying(s, t)
  {
    var a := s.maps.threads[t].aperture;
    Maps.Backed(s.maps, a) && Offset(s.work[t].value) < s.maps.apertures[a].key.span % U32 && Place(s, t) < |s.memory|
  }

  function MoveStep(s: State, t: nat): State
    requires Copying(s, t) && Reaches(s, t)
  {
    var w, at := s.work[t].value, Place(s, t);
    var j := |w.moved|;
    if w.access.write then
      var b := if j < |w.access.src| then w.access.src[j] else 0;
      s.(memory := s.memory[at := b], log := s.log + [Touch(at, Some(b))],
         work := s.work[t := Some(w.(moved := w.moved + [|s.log|]))])
    else
      s.(log := s.log + [Touch(at, None)],
         work := s.work[t := Some(w.(moved := w.moved + [|s.log|], got := w.got + [s.memory[at]]))])
  }

  function Step(s: State, e: Event): State {
    match e
    case Begin(t, a) =>
      if t < |s.work| == |s.maps.threads| && s.maps.threads[t].Idle? && s.work[t].None? && Proper(a, |s.memory|) then
        s.(maps := Maps.Step(s.maps, Maps.Lookup(t, Cache.KeyOf(a.addr, a.len, |s.memory|))),
           work := s.work[t := Some(Work(a, [], []))])
      else s
    case Fetch(t, granted) =>
      if t < |s.work| == |s.maps.threads| && s.maps.threads[t].Missed? then
        var maps := Maps.Step(s.maps, Maps.GetOrCreate(t, granted));
        s.(maps := maps, work := if t < |maps.threads| && maps.threads[t].Holding? then s.work else s.work[t := None])
      else s
    case Move(t) => if Copying(s, t) && Reaches(s, t) then MoveStep(s, t) else s
    case Finish(t) =>
      if t < |s.work| == |s.maps.threads| && s.maps.threads[t].Holding? && s.work[t].Some?
         && |s.work[t].value.moved| == s.work[t].value.access.len then
        s.(maps := Maps.Step(s.maps, Maps.Release(t)), work := s.work[t := None], done := s.done + [s.work[t].value])
      else s
    case Upkeep(u) => if IsUpkeep(u) then s.(maps := Maps.Step(s.maps, u)) else s
    case GuestStore(at, byte) =>
      if at < |s.memory| then
        s.(memory := s.memory[at := byte], log := s.log + [Touch(at, Some(byte))], stores := s.stores + [|s.log|])
      else s
  }

  function Exec(s: State, schedule: seq<Event>): State {
    if schedule == [] then s
    else Step(Exec(s, schedule[..|schedule| - 1]), schedule[|schedule| - 1])
  }

  // ---------------------------------------------------------------- flat memory

  /** Flat memory after the log. */
  function Replay(start: seq<Byte>, log: seq<Touch>): (r: seq<Byte>)
    ensures |r| == |start|
  {
    if log == [] then start
    else
      var before, x := Replay(start, log[..|log| - 1]), log[|log| - 1];
      if x.byte.Some? && x.at < |start| then before[x.at := x.byte.value] else before
  }

  lemma ReplaySnoc(start: seq<Byte>, log: seq<Touch>, x: Touch)
    ensures Replay(start, log + [x]) ==
      var before := Replay(start, log); if x.byte.Some? && x.at < |start| then before[x.at := x.byte.value] else before
  {
    assert (log + [x])[..|log|] == log;
  }

  /** Byte `j` of an access moved at guest address `addr + j`, after the bytes before it; what was
      written is the source's byte, and what was read is what flat memory held at that moment. */
  ghost predicate MovedRight(w: Work, start: seq<Byte>, log: seq<Touch>, j: nat)
    requires j < |w.moved|
  {
    && w.moved[j] < |log| && (j > 0 ==> w.moved[j - 1] < w.moved[j])
    && log[w.moved[j]].at == w.access.addr + j < |start|
    && if w.access.write then j < |w.access.src| && log[w.moved[j]].byte == Some(w.access.src[j])
       else j < |w.got| && log[w.moved[j]].byte.None? && w.got[j] == Replay(start, log[..w.moved[j]])[w.access.addr + j]
  }

  ghost predicate Recorded(w: Work, start: seq<Byte>, log: seq<Touch>) {
    && Proper(w.access, |start|) && |w.moved| <= w.access.len && |w.got| == (if w.access.write then 0 else |w.moved|)
    && forall j :: 0 <= j < |w.moved| ==> MovedRight(w, start, log, j)
  }

  lemma RecordedGrows(w: Work, start: seq<Byte>, log: seq<Touch>, x: Touch)
    requires Recorded(w, start, log)
    ensures Recorded(w, start, log + [x])
  {
    forall j | 0 <= j < |w.moved|
      ensures MovedRight(w, start, log + [x], j)
    {
      assert MovedRight(w, start, log, j);
      assert (log + [x])[..w.moved[j]] == log[..w.moved[j]];
    }
  }

  /** One more byte, at the right place. */
  lemma RecordedMoves(w: Work, start: seq<Byte>, log: seq<Touch>, w': Work, x: Touch)
    requires Recorded(w, start, log) && |w.moved| < w.access.len
    requires w'.access == w.access && w'.moved == w.moved + [|log|] && x.at == w.access.addr + |w.moved| < |start|
    requires if w.access.write then w'.got == w.got && x.byte == Some(w.access.src[|w.moved|])
             else w'.got == w.got + [Replay(start, log)[x.at]] && x.byte.None?
    ensures Recorded(w', start, log + [x])
  {
    hide Proper, Replay, MovedRight;
    RecordedGrows(w, start, log, x);
    SoFar(w, start, log);
    LatestMove(w, start, log, w', x);
    AllMoved(w, start, log + [x], w');
  }

  lemma AllMoved(w: Work, start: seq<Byte>, log: seq<Touch>, w': Work)
    requires Recorded(w, start, log) && |w.moved| < w.access.len && w'.access == w.access
    requires |w'.moved| == |w.moved| + 1 && w.moved <= w'.moved && w.got <= w'.got
    requires |w'.got| == (if w.access.write then 0 else |w'.moved|) && MovedRight(w', start, log, |w.moved|)
    ensures Recorded(w', start, log)
  {
    hide Proper, MovedRight;
    forall j | 0 <= j < |w.moved|
      ensures MovedRight(w', start, log, j)
    {
      EarlierMove(w, w', start, log, j);
    }
  }

  lemma SoFar(w: Work, start: seq<Byte>, log: seq<Touch>)
    requires Recorded(w, start, log)
    ensures |w.moved| > 0 ==> w.moved[|w.moved| - 1] < |log|
    ensures w.access.write ==> |w.access.src| == w.access.len
  {
    if |w.moved| > 0 {
      assert MovedRight(w, start, log, |w.moved| - 1);
    }
  }

  lemma EarlierMove(w: Work, w': Work, start: seq<Byte>, log: seq<Touch>, j: nat)
    requires j < |w.moved| && MovedRight(w, start, log, j)
    requires w'.access == w.access && w.moved <= w'.moved && w.got <= w'.got
    ensures MovedRight(w', start, log, j)
  {
    hide Replay;
  }

  lemma LatestMove(w: Work, start: seq<Byte>, log: seq<Touch>, w': Work, x: Touch)
    requires |w.got| == (if w.access.write then 0 else |w.moved|) && (|w.moved| > 0 ==> w.moved[|w.moved| - 1] < |log|)
    requires w'.access == w.access && w'.moved == w.moved + [|log|] && x.at == w.access.addr + |w.moved| < |start|
    requires if w.access.write then |w.moved| < |w.access.src| && x.byte == Some(w.access.src[|w.moved|])
             else w'.got == w.got + [Replay(start, log)[x.at]] && x.byte.None?
    ensures MovedRight(w', start, log + [x], |w.moved|)
  {
    hide Replay;
    assert (log + [x])[..|log|] == log;
  }

  // ---------------------------------------------------------------- whose mapping a thread holds

  /** A thread waits for, or holds a mapping of, the page range of its own access. */
  predicate OwnKey(maps: Maps.State, w: Option<Work>, t: nat, maxAddress: nat)
    requires t < |maps.threads|
  {
    match maps.threads[t]
    case Idle => w.None?
    case Missed(k) => w.Some? && w.value.moved == [] && Proper(w.value.access, maxAddress) && k == Cache.KeyOf(w.value.access.addr, w.value.access.len, maxAddress)
    case Holding(a) =>
      && w.Some? && Proper(w.value.access, maxAddress) && a < |maps.apertures|
      && maps.apertures[a].key == Cache.KeyOf(w.value.access.addr, w.value.access.len, maxAddress)
  }

  predicate Keyed(s: State) {
    |s.work| == |s.maps.threads| && forall t :: 0 <= t < |s.work| ==> OwnKey(s.maps, s.work[t], t, |s.memory|)
  }

  /** Mappings keep their keys. */
  lemma KeysStay(m: Maps.State, e: Maps.Event)
    requires Maps.CacheOk(m)
    ensures var m' := Maps.Step(m, e);
      |m.apertures| <= |m'.apertures| && forall a :: 0 <= a < |m.apertures| ==> m'.apertures[a].key == m.apertures[a].key
  {
    Maps.StepKeepsBooks(m, e);
    hide Maps.Step;
    var m' := Maps.Step(m, e);
    if !Maps.SameKeys(m, m') {
      assert m'.apertures[..|m.apertures|] == m.apertures;
      assert forall a :: 0 <= a < |m.apertures| ==> m'.apertures[a] == m'.apertures[..|m.apertures|][a];
    }
  }

  /** A thread whose record and position do not change keeps its own key. */
  lemma OwnKeyStays(m: Maps.State, m': Maps.State, w: Option<Work>, t: nat, maxAddress: nat)
    requires t < |m.threads| == |m'.threads| && m'.threads[t] == m.threads[t] && OwnKey(m, w, t, maxAddress)
    requires |m.apertures| <= |m'.apertures| && forall a :: 0 <= a < |m.apertures| ==> m'.apertures[a].key == m.apertures[a].key
    ensures OwnKey(m', w, t, maxAddress)
  {
  }

  lemma UpkeepKeepsThreads(m: Maps.State, e: Maps.Event)
    requires IsUpkeep(e)
    ensures Maps.Step(m, e).threads == m.threads
  {
  }

  lemma LookupLands(m: Maps.State, t: nat, k: Maps.Key)
    requires Maps.CacheOk(m) && t < |m.threads| && m.threads[t].Idle?
    ensures var m' := Maps.Step(m, Maps.Lookup(t, k));
      && |m'.threads| == |m.threads| && (forall u :: 0 <= u < |m.threads| && u != t ==> m'.threads[u] == m.threads[u])
      && Lands(m', t, k) && !m'.threads[t].Idle?
  {
  }

  /** The thread waits for `k`, holds a mapping of `k`, or has given up. */
  predicate Lands(m: Maps.State, t: nat, k: Maps.Key)
    requires t < |m.threads|
  {
    match m.threads[t]
    case Idle => true
    case Missed(x) => x == k
    case Holding(a) => a < |m.apertures| && m.apertures[a].key == k
  }

  lemma FetchLands(m: Maps.State, t: nat, granted: bool)
    requires Maps.CacheOk(m) && t < |m.threads| && m.threads[t].Missed?
    ensures var m' := Maps.Step(m, Maps.GetOrCreate(t, granted));
      && |m'.threads| == |m.threads| && (forall u :: 0 <= u < |m.threads| && u != t ==> m'.threads[u] == m.threads[u])
      && Lands(m', t, m.threads[t].key) && !m'.threads[t].Missed?
  {
  }

  lemma ReleaseLands(m: Maps.State, t: nat)
    requires t < |m.threads| && m.threads[t].Holding? && m.threads[t].aperture < |m.apertures|
    ensures var m' := Maps.Step(m, Maps.Release(t)); m'.threads == m.threads[t := Maps.Idle]
  {
  }

  /** A step of one thread's own kind keeps everyone's key. */
  lemma ThreadKeepsKeyed(s: State, e: Maps.Event, t: nat, w: Option<Work>)
    requires Keyed(s) && Maps.CacheOk(s.maps) && t < |s.work|
    requires var m' := Maps.Step(s.maps, e);
      && |m'.threads| == |s.maps.threads| && (forall u :: 0 <= u < |m'.threads| && u != t ==> m'.threads[u] == s.maps.threads[u])
      && OwnKey(m', w, t, |s.memory|)
    ensures Keyed(s.(maps := Maps.Step(s.maps, e), work := s.work[t := w]))
  {
    hide Maps.Step;
    KeysStay(s.maps, e);
    var m' := Maps.Step(s.maps, e);
    forall u | 0 <= u < |s.work| && u != t
      ensures OwnKey(m', s.work[u], u, |s.memory|)
    {
      OwnKeyStays(s.maps, m', s.work[u], u, |s.memory|);
    }
    hide OwnKey;
  }

  lemma BeginKeepsKeyed(s: State, t: nat, a: Access)
    requires Keyed(s) && Maps.CacheOk(s.maps)
    ensures Keyed(Step(s, Begin(t, a)))
  {
    if t < |s.work| == |s.maps.threads| && s.maps.threads[t].Idle? && s.work[t].None? && Proper(a, |s.memory|) {
      var k := Cache.KeyOf(a.addr, a.len, |s.memory|);
      LookupLands(s.maps, t, k);
      hide Maps.Step;
      ThreadKeepsKeyed(s, Maps.Lookup(t, k), t, Some(Work(a, [], [])));
    }
  }

  lemma FetchKeepsKeyed(s: State, t: nat, granted: bool)
    requires Keyed(s) && Maps.CacheOk(s.maps)
    ensures Keyed(Step(s, Fetch(t, granted)))
  {
    if t < |s.work| == |s.maps.threads| && s.maps.threads[t].Missed? {
      assert OwnKey(s.maps, s.work[t], t, |s.memory|);
      FetchLands(s.maps, t, granted);
      hide Maps.Step;
      var maps := Maps.Step(s.maps, Maps.GetOrCreate(t, granted));
      var w := if maps.threads[t].Holding? then s.work[t] else None;
      ThreadKeepsKeyed(s, Maps.GetOrCreate(t, granted), t, w);
      assert s.work[t := s.work[t]] == s.work;
    }
  }

  lemma FinishKeepsKeyed(s: State, t: nat)
    requires Keyed(s) && Maps.CacheOk(s.maps)
    ensures Keyed(Step(s, Finish(t)))
  {
    if t < |s.work| == |s.maps.threads| && s.maps.threads[t].Holding? {
      assert OwnKey(s.maps, s.work[t], t, |s.memory|);
      ReleaseLands(s.maps, t);
      hide Maps.Step;
      ThreadKeepsKeyed(s, Maps.Release(t), t, None);
    }
  }

  lemma UpkeepKeepsKeyed(s: State, e: Maps.Event)
    requires Keyed(s) && Maps.CacheOk(s.maps) && IsUpkeep(e)
    ensures Keyed(s.(maps := Maps.Step(s.maps, e)))
  {
    hide Maps.Step;
    UpkeepKeepsThreads(s.maps, e);
    KeysStay(s.maps, e);
    forall u | 0 <= u < |s.work|
      ensures OwnKey(Maps.Step(s.maps, e), s.work[u], u, |s.memory|)
    {
      OwnKeyStays(s.maps, Maps.Step(s.maps, e), s.work[u], u, |s.memory|);
    }
    hide OwnKey;
  }

  lemma MoveKeepsKeyed(s: State, t: nat)
    requires Keyed(s) && Copying(s, t) && Reaches(s, t)
    ensures Keyed(MoveStep(s, t))
  {
    var s' := MoveStep(s, t);
    forall u | 0 <= u < |s.work|
      ensures OwnKey(s'.maps, s'.work[u], u, |s'.memory|)
    {
      assert OwnKey(s.maps, s.work[u], u, |s.memory|);
    }
    hide OwnKey;
  }

  lemma StepKeepsKeyed(s: State, e: Event)
    requires Keyed(s) && Maps.CacheOk(s.maps)
    ensures Keyed(Step(s, e))
  {
    match e {
      case Begin(t, a) => BeginKeepsKeyed(s, t, a);
      case Fetch(t, granted) => FetchKeepsKeyed(s, t, granted);
      case Move(t) => if Copying(s, t) && Reaches(s, t) { MoveKeepsKeyed(s, t); }
      case Finish(t) => FinishKeepsKeyed(s, t);
      case Upkeep(u) => if IsUpkeep(u) { UpkeepKeepsKeyed(s, u); }
      case GuestStore(_, _) => StoreKeepsKeyed(s, Step(s, e));
    }
  }

  lemma StoreKeepsKeyed(s: State, s': State)
    requires Keyed(s) && s'.maps == s.maps && s'.work == s.work && |s'.memory| == |s.memory|
    ensures Keyed(s')
  {
  }

  // ---------------------------------------------------------------- every access agrees with flat memory

  /** Where a copying thread's next byte is: at its own address, and inside its mapping exactly
      while the host is up. */
  lemma NextByteIsRight(s: State, t: nat)
    requires Keyed(s) && Maps.Wellformed(s.maps) && Copying(s, t)
    ensures Place(s, t) == s.work[t].value.access.addr + |s.work[t].value.moved| < |s.memory|
    ensures Reaches(s, t) <==> !s.maps.down
  {
    assert OwnKey(s.maps, s.work[t], t, |s.memory|);
    Maps.HeldIsMapped(s.maps, t);
    var a := s.work[t].value.access;
    MappingHoldsAccess(a.addr, a.len, |s.memory|);
  }

  ghost predicate Accounted(s: State, start: seq<Byte>) {
    && |s.memory| == |start| && s.memory == Replay(start, s.log)
    && (forall t :: 0 <= t < |s.work| && s.work[t].Some? ==> Recorded(s.work[t].value, start, s.log))
    && (forall w <- s.done :: Recorded(w, start, s.log) && |w.moved| == w.access.len)
  }

  ghost predicate Inv(s: State, start: seq<Byte>) {
    Maps.Wellformed(s.maps) && Keyed(s) && Accounted(s, start) && AllOwned(s)
  }

  /** A byte of guest memory is touched; every record stays true. */
  lemma TouchKeepsAccounted(s: State, s': State, start: seq<Byte>, x: Touch)
    requires Accounted(s, start) && s'.log == s.log + [x] && x.at < |start|
    requires s'.memory == (if x.byte.Some? then s.memory[x.at := x.byte.value] else s.memory) && s'.work == s.work && s'.done == s.done
    ensures Accounted(s', start)
  {
    ReplaySnoc(start, s.log, x);
    hide Recorded, Replay;
    forall w | w in s.done || Some(w) in s.work
      ensures Recorded(w, start, s'.log)
    {
      RecordedGrows(w, start, s.log, x);
    }
  }

  lemma MoveKeepsAccounted(s: State, t: nat, start: seq<Byte>)
    requires Inv(s, start) && Copying(s, t) && Reaches(s, t)
    ensures Accounted(MoveStep(s, t), start)
  {
    NextByteIsRight(s, t);
    var s', w := MoveStep(s, t), s.work[t].value;
    var x, w' := s'.log[|s.log|], s'.work[t].value;
    assert Recorded(w, start, s.log);
    SoFar(w, start, s.log);
    hide Maps.Wellformed, Keyed;
    TouchKeepsAccounted(s, s'.(work := s.work), start, x);
    RecordedMoves(w, start, s.log, w', x);
    hide Recorded, Replay;
  }

  lemma StepKeepsAccounted(s: State, e: Event, start: seq<Byte>)
    requires Inv(s, start)
    ensures Accounted(Step(s, e), start)
  {
    match e {
      case Move(t) => if Copying(s, t) && Reaches(s, t) { MoveKeepsAccounted(s, t, start); }
      case GuestStore(at, byte) =>
        if at < |s.memory| { TouchKeepsAccounted(s, Step(s, e), start, Touch(at, Some(byte))); }
      case _ =>
        hide Maps.Step, Maps.Wellformed, Keyed, Replay, MovedRight;
    }
  }

  // ---------------------------------------------------------------- and nothing else touches memory

  /** Position `i` of the log is a guest store or a byte of an access. */
  ghost predicate Owned(s: State, i: nat) {
    || i in s.stores
    || (exists t :: 0 <= t < |s.work| && MovedBy(s.work[t], i))
    || (exists w <- s.done :: i in w.moved)
  }

  predicate MovedBy(w: Option<Work>, i: nat) {
    w.Some? && i in w.value.moved
  }

  ghost predicate AllOwned(s: State) {
    forall i :: 0 <= i < |s.log| ==> Owned(s, i)
  }

  /** Records are kept by a step of thread `t`: its moves stay its own, or are done with. */
  lemma OwnedStays(s: State, s': State, t: nat, i: nat)
    requires Owned(s, i) && |s'.work| == |s.work| && s.stores <= s'.stores && s.done <= s'.done
    requires forall u :: 0 <= u < |s.work| && u != t ==> s'.work[u] == s.work[u]
    requires t < |s.work| && MovedBy(s.work[t], i) ==> Owned(s', i)
    ensures Owned(s', i)
  {
    if i in s.stores {
      assert i in s'.stores;
    } else if u :| 0 <= u < |s.work| && MovedBy(s.work[u], i) {
      assert u == t || MovedBy(s'.work[u], i);
    } else {
      var w :| w in s.done && i in w.moved;
      assert w in s'.done;
    }
  }

  lemma MoveKeepsOwned(s: State, t: nat)
    requires AllOwned(s) && Copying(s, t) && Reaches(s, t)
    ensures AllOwned(MoveStep(s, t))
  {
    var s' := MoveStep(s, t);
    assert |s'.log| == |s.log| + 1 && s'.work[t].value.moved == s.work[t].value.moved + [|s.log|];
    forall i | 0 <= i < |s'.log|
      ensures Owned(s', i)
    {
      if i == |s.log| || MovedBy(s.work[t], i) {
        assert MovedBy(s'.work[t], i);
      } else {
        OwnedStays(s, s', t, i);
      }
    }
  }

  lemma FinishKeepsOwned(s: State, t: nat)
    requires AllOwned(s)
    ensures AllOwned(Step(s, Finish(t)))
  {
    hide Maps.Step;
    var s' := Step(s, Finish(t));
    if s' != s {
      forall i | 0 <= i < |s'.log|
        ensures Owned(s', i)
      {
        assert s'.done[|s.done|] in s'.done;
        OwnedStays(s, s', t, i);
      }
    }
  }

  lemma FetchKeepsOwned(s: State, t: nat, granted: bool)
    requires Keyed(s) && AllOwned(s)
    ensures AllOwned(Step(s, Fetch(t, granted)))
  {
    hide Maps.Step;
    var s' := Step(s, Fetch(t, granted));
    if t < |s.work| == |s.maps.threads| && s.maps.threads[t].Missed? {
      assert OwnKey(s.maps, s.work[t], t, |s.memory|);
      forall i | 0 <= i < |s'.log|
        ensures Owned(s', i)
      {
        OwnedStays(s, s', t, i);
      }
    }
  }

  lemma StoreKeepsOwned(s: State, at: nat, byte: Byte)
    requires AllOwned(s)
    ensures AllOwned(Step(s, GuestStore(at, byte)))
  {
    var s' := Step(s, GuestStore(at, byte));
    forall i | 0 <= i < |s'.log|
      ensures Owned(s', i)
    {
      if i < |s.log| {
        OwnedStays(s, s', |s.work|, i);
      } else {
        assert s'.stores[|s.stores|] == i;
      }
    }
  }

  lemma BeginKeepsOwned(s: State, t: nat, a: Access)
    requires AllOwned(s)
    ensures AllOwned(Step(s, Begin(t, a)))
  {
    hide Maps.Step;
    var s' := Step(s, Begin(t, a));
    forall i | 0 <= i < |s'.log|
      ensures Owned(s', i)
    {
      if s' != s {
        OwnedStays(s, s', t, i);
      }
    }
  }

  lemma StepKeepsOwned(s: State, e: Event)
    requires Keyed(s) && AllOwned(s)
    ensures AllOwned(Step(s, e))
  {
    match e {
      case Begin(t, a) => BeginKeepsOwned(s, t, a);
      case Fetch(t, granted) => FetchKeepsOwned(s, t, granted);
      case Move(t) => if Copying(s, t) && Reaches(s, t) { MoveKeepsOwned(s, t); }
      case Finish(t) => FinishKeepsOwned(s, t);
      case GuestStore(at, byte) => StoreKeepsOwned(s, at, byte);
      case Upkeep(u) => assert forall i :: Owned(s, i) ==> Owned(Step(s, e), i);
    }
  }

  lemma StepKeepsMaps(s: State, e: Event)
    requires Maps.Wellformed(s.maps)
    ensures Maps.Wellformed(Step(s, e).maps)
  {
    hide Maps.Step, Maps.Wellformed;
    match e {
      case Begin(t, a) =>
        if Proper(a, |s.memory|) { Maps.StepKeepsWellformed(s.maps, Maps.Lookup(t, Cache.KeyOf(a.addr, a.len, |s.memory|))); }
      case Fetch(t, granted) => Maps.StepKeepsWellformed(s.maps, Maps.GetOrCreate(t, granted));
      case Finish(t) => Maps.StepKeepsWellformed(s.maps, Maps.Release(t));
      case Upkeep(u) => Maps.StepKeepsWellformed(s.maps, u);
      case _ =>
    }
  }

  lemma {:induction false} Reachable(threads: nat, start: seq<Byte>, schedule: seq<Event>)
    ensures Inv(Exec(Init(threads, start), schedule), start)
  {
    if schedule == [] {
      Maps.Reachable(threads, []);
    } else {
      var n := |schedule| - 1;
      Reachable(threads, start, schedule[..n]);
      var s := Exec(Init(threads, start), schedule[..n]);
      hide Step, Keyed, Accounted, AllOwned;
      StepKeepsOwned(s, schedule[n]);
      StepKeepsMaps(s, schedule[n]);
      StepKeepsKeyed(s, schedule[n]);
      StepKeepsAccounted(s, schedule[n], start);
    }
  }

  /** Under every interleaving of accesses, guest stores, evictions, drops and the host going
      down: memory is the replay of the log, and each byte of every access, completed or under
      way, moved at its own guest address, in order, carrying the source's byte or the byte flat
      memory held at that moment; a completed access moved all its bytes; and nothing but these
      moves and the guest's own stores touched memory. */
  lemma CopiesAgreeWithFlatMemory(threads: nat, start: seq<Byte>, schedule: seq<Event>)
    ensures var s := Exec(Init(threads, start), schedule);
      && s.memory == Replay(start, s.log)
      && (forall t :: 0 <= t < |s.work| && s.work[t].Some? ==> Recorded(s.work[t].value, start, s.log))
      && (forall w <- s.done :: Recorded(w, start, s.log) && |w.moved| == w.access.len)
      && (forall i :: 0 <= i < |s.log| ==> Owned(s, i))
  {
    Reachable(threads, start, schedule);
  }

  /** A copy can always go on while the host is up, at the right byte, whatever was evicted; and
      it cannot once the host is down. */
  lemma CopyGoesOnExactlyWhileUp(threads: nat, start: seq<Byte>, schedule: seq<Event>, t: nat)
    requires Copying(Exec(Init(threads, start), schedule), t)
    ensures var s := Exec(Init(threads, start), schedule);
      && Place(s, t) == s.work[t].value.access.addr + |s.work[t].value.moved| < |s.memory|
      && (Reaches(s, t) <==> !s.maps.down)
  {
    Reachable(threads, start, schedule);
    hide Exec;
    NextByteIsRight(Exec(Init(threads, start), schedule), t);
  }
}
