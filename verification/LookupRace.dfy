/**
 Hits on one shard under its shared lock. A hit takes a tick of the shard's clock and then
 stores it as the entry's stamp: two steps, and hits of other threads run in between.
 Insertions and evictions hold the lock alone, so no hit is half done while they run.
 */
module LookupRace {
  import opened ApertureShard

  /** A hit between its two steps. */
  datatype Hit = Hit(key: Key, tick: nat)

  /** `used` is the tick of each key's latest use, which the code does not keep. */
  datatype State = State(stamps: map<Key, nat>, clock: nat, hits: map<nat, Hit>, used: map<Key, nat>)

  datatype Event = Tick(thread: nat, key: Key) | Store(thread: nat) | Insert(key: Key) | FailedMiss | Evict(key: Key)

  const EMPTY := State(map[], 0, map[], map[])

  predicate Oldest(stamps: map<Key, nat>, k: Key) {
    k in stamps && forall x <- stamps :: stamps[k] <= stamps[x]
  }

  predicate Enabled(s: State, e: Event) {
    match e
    case Tick(t, k) => t !in s.hits && k in s.stamps
    case Store(t) => t in s.hits
    case Insert(k) => s.hits == map[] && k !in s.stamps
    case FailedMiss => s.hits == map[]
    case Evict(k) => s.hits == map[] && Oldest(s.stamps, k)
  }

  function Step(s: State, e: Event): State {
    if !Enabled(s, e) then s
    else
      var now := s.clock + 1;
      match e
      case Tick(t, k) => s.(clock := now, hits := s.hits[t := Hit(k, now)], used := s.used[k := now])
      case Store(t) => s.(stamps := s.stamps[s.hits[t].key := s.hits[t].tick], hits := s.hits - {t})
      case Insert(k) => s.(clock := now, stamps := s.stamps[k := now], used := s.used[k := now])
      case FailedMiss => s.(clock := now)
      case Evict(k) => s.(stamps := s.stamps - {k}, used := s.used - {k})
  }

  function Exec(run: seq<Event>): State {
    if run == [] then EMPTY else Step(Exec(run[..|run| - 1]), run[|run| - 1])
  }

  // ---------------------------------------------------------------- stamps never collide

  predicate Distinct(stamps: map<Key, nat>, clock: nat) {
    && (forall k <- stamps :: stamps[k] <= clock)
    && (forall k <- stamps, x <- stamps :: k != x ==> stamps[k] != stamps[x])
  }

  /** The ticks of half-done hits are nobody's stamp. */
  predicate Unstored(stamps: map<Key, nat>, clock: nat, hits: map<nat, Hit>) {
    && (forall t <- hits :: hits[t].tick <= clock && hits[t].key in stamps)
    && (forall t <- hits, u <- hits :: t != u ==> hits[t].tick != hits[u].tick)
    && (forall t <- hits, k <- stamps :: hits[t].tick != stamps[k])
  }

  predicate Apart(s: State) {
    Distinct(s.stamps, s.clock) && Unstored(s.stamps, s.clock, s.hits)
  }

  lemma TickKeepsApart(s: State, t: nat, k: Key)
    requires Apart(s) && Enabled(s, Tick(t, k))
    ensures Apart(Step(s, Tick(t, k)))
  {
  }

  lemma StoreKeepsApart(s: State, t: nat)
    requires Apart(s) && Enabled(s, Store(t))
    ensures Apart(Step(s, Store(t)))
  {
    var s' := Step(s, Store(t));
    var stamps, tick := s'.stamps, s.hits[t].tick;
    forall k <- stamps, x <- stamps | k != x
      ensures stamps[k] != stamps[x]
    {
      assert k == s.hits[t].key || stamps[k] == s.stamps[k];
    }
    assert Distinct(s'.stamps, s'.clock);
    assert forall u <- s'.hits :: s'.hits[u] == s.hits[u] && u != t;
  }

  lemma StepKeepsApart(s: State, e: Event)
    requires Apart(s)
    ensures Apart(Step(s, e))
  {
    if Enabled(s, e) {
      match e {
        case Tick(t, k) => TickKeepsApart(s, t, k);
        case Store(t) => StoreKeepsApart(s, t);
        case _ =>
      }
    }
  }

  /** Under every interleaving stamps are pairwise distinct and none is ahead of the clock, so
      there is never a tie for the entry to evict. */
  lemma {:induction false} StampsStayDistinct(run: seq<Event>)
    ensures Apart(Exec(run))
    ensures forall k, x :: Oldest(Exec(run).stamps, k) && Oldest(Exec(run).stamps, x) ==> k == x
  {
    if run != [] {
      StampsStayDistinct(run[..|run| - 1]);
      StepKeepsApart(Exec(run[..|run| - 1]), run[|run| - 1]);
    }
  }

  // ---------------------------------------------------------------- when the order is exact

  /** Some hit on `k` is half done. */
  predicate Busy(hits: map<nat, Hit>, k: Key) {
    exists t <- hits :: hits[t].key == k
  }

  /** No hit on `k` starts while another hit on it is half done. */
  predicate Exclusive(run: seq<Event>, k: Key) {
    run != [] ==>
      var before, e := run[..|run| - 1], run[|run| - 1];
      Exclusive(before, k) && (e.Tick? && e.key == k ==> !Busy(Exec(before).hits, k))
  }

  /** A stamp is never later than the latest use. */
  predicate Behind(s: State) {
    && s.used.Keys == s.stamps.Keys
    && (forall x <- s.stamps :: s.stamps[x] <= s.used[x] <= s.clock)
    && (forall t <- s.hits :: s.hits[t].key in s.used && s.hits[t].tick <= s.used[s.hits[t].key])
  }

  lemma StepKeepsBehind(s: State, e: Event)
    requires Behind(s)
    ensures Behind(Step(s, e))
  {
  }

  /** The stamp of `k` is its latest use, or the one half-done hit on it carries it. */
  predicate Exact(s: State, k: Key) {
    k in s.stamps && k in s.used ==>
      && (!Busy(s.hits, k) ==> s.stamps[k] == s.used[k])
      && (forall t <- s.hits :: s.hits[t].key == k ==> s.hits[t].tick == s.used[k])
      && (forall t <- s.hits, u <- s.hits :: s.hits[t].key == s.hits[u].key == k ==> t == u)
  }

  lemma TickKeepsExact(s: State, t: nat, x: Key, k: Key)
    requires Exact(s, k) && Enabled(s, Tick(t, x)) && (x == k ==> !Busy(s.hits, k))
    ensures Exact(Step(s, Tick(t, x)), k)
  {
    var s' := Step(s, Tick(t, x));
    assert s'.hits[t].key == x && forall u <- s.hits :: s'.hits[u] == s.hits[u];
    assert !Busy(s'.hits, k) ==> x != k && !Busy(s.hits, k);
  }

  lemma StoreKeepsExact(s: State, t: nat, k: Key)
    requires Exact(s, k) && Behind(s) && Enabled(s, Store(t))
    ensures Exact(Step(s, Store(t)), k)
  {
    var s', x := Step(s, Store(t)), s.hits[t].key;
    if x != k {
      assert forall u <- s.hits :: s.hits[u].key == k ==> u in s'.hits && s'.hits[u].key == k;
      assert !Busy(s'.hits, k) ==> !Busy(s.hits, k);
    }
  }

  lemma StepKeepsExact(s: State, e: Event, k: Key)
    requires Exact(s, k) && Behind(s) && (e.Tick? && e.key == k ==> !Busy(s.hits, k))
    ensures Exact(Step(s, e), k)
  {
    if Enabled(s, e) {
      match e {
        case Tick(t, x) => TickKeepsExact(s, t, x, k);
        case Store(t) => StoreKeepsExact(s, t, k);
        case _ => assert !Busy(s.hits, k);
      }
    }
  }

  lemma {:induction false} ReachableIsBehind(run: seq<Event>)
    ensures Behind(Exec(run))
  {
    if run != [] {
      ReachableIsBehind(run[..|run| - 1]);
      StepKeepsBehind(Exec(run[..|run| - 1]), run[|run| - 1]);
    }
  }

  lemma {:induction false} ExclusiveIsExact(run: seq<Event>, k: Key)
    requires Exclusive(run, k)
    ensures Exact(Exec(run), k)
  {
    if run != [] {
      ExclusiveIsExact(run[..|run| - 1], k);
      ReachableIsBehind(run[..|run| - 1]);
      StepKeepsExact(Exec(run[..|run| - 1]), run[|run| - 1], k);
    }
  }

  /** An eviction removes the least recently used key if hits on that key never overlapped,
      whatever hits on the other keys did. */
  lemma ExclusiveEvictsLeastRecent(run: seq<Event>, k: Key)
    requires Exclusive(run, k) && Enabled(Exec(run), Evict(k))
    ensures Oldest(Exec(run).used, k)
  {
    ExclusiveIsExact(run, k);
    ReachableIsBehind(run);
    var s := Exec(run);
    assert !Busy(s.hits, k);
  }

  // ---------------------------------------------------------------- exactly when it is not

  /** The stamps a key can end with once the half-done hits have stored, in whatever order:
      the tick of any half-done hit on it, or its stamp if there is none. */
  predicate Possible(s: State, y: Key, stamp: nat) {
    if Busy(s.hits, y) then exists t <- s.hits :: s.hits[t].key == y && s.hits[t].tick == stamp
    else y in s.stamps && s.stamps[y] == stamp
  }

  /** Threads store in this order. */
  function Stored(s: State, order: seq<nat>): State
    decreases |order|
  {
    if order == [] then s else Stored(Step(s, Store(order[0])), order[1..])
  }

  lemma StoreFrames(s: State, t: nat)
    requires Apart(s)
    ensures var s' := Step(s, Store(t)); Apart(s') && s'.stamps.Keys == s.stamps.Keys && s'.used == s.used
  {
    StepKeepsApart(s, Store(t));
  }

  lemma StoreOnlyNarrows(s: State, t: nat, y: Key, stamp: nat)
    requires Possible(Step(s, Store(t)), y, stamp)
    ensures Possible(s, y, stamp)
  {
    if t in s.hits {
      var s', x := Step(s, Store(t)), s.hits[t].key;
      assert forall u <- s'.hits :: u in s.hits && s.hits[u] == s'.hits[u];
      if Busy(s'.hits, y) {
        var u :| u in s'.hits && s'.hits[u].key == y && s'.hits[u].tick == stamp;
        assert Busy(s.hits, y);
      } else if x == y {
        assert Busy(s.hits, y) && s.hits[t].tick == stamp;
      } else {
        assert forall u <- s.hits :: s.hits[u].key == y ==> u in s'.hits;
        assert !Busy(s.hits, y);
      }
    }
  }

  /** Whatever the order, every key ends with one of its possible stamps. */
  lemma {:induction false} StoredIsPossible(s: State, order: seq<nat>)
    requires Apart(s)
    ensures var f := Stored(s, order);
      && f.stamps.Keys == s.stamps.Keys && f.used == s.used
      && forall y, stamp :: Possible(f, y, stamp) ==> Possible(s, y, stamp)
    decreases |order|
  {
    if order != [] {
      var s' := Step(s, Store(order[0]));
      StoreFrames(s, order[0]);
      hide Step, Possible, Apart;
      StoredIsPossible(s', order[1..]);
      forall y, stamp | Possible(s', y, stamp)
        ensures Possible(s, y, stamp)
      {
        StoreOnlyNarrows(s, order[0], y, stamp);
      }
    }
  }

  /** Storing keeps a stamp possible unless it overtakes the hit that carries it. */
  lemma StoreKeepsPossible(s: State, t: nat, y: Key, stamp: nat)
    requires t in s.hits && Possible(s, y, stamp)
    requires s.hits[t].key == y && s.hits[t].tick == stamp ==> forall u <- s.hits :: s.hits[u].key == y ==> u == t
    ensures Possible(Step(s, Store(t)), y, stamp)
  {
    var s' := Step(s, Store(t));
    assert forall u <- s'.hits :: u in s.hits && s.hits[u] == s'.hits[u];
    if Busy(s.hits, y) {
      var u :| u in s.hits && s.hits[u].key == y && s.hits[u].tick == stamp;
      if u != t {
        assert u in s'.hits;
        assert Busy(s'.hits, y);
      } else {
        assert !Busy(s'.hits, y);
      }
    } else {
      assert !Busy(s'.hits, y);
    }
  }

  /** Every choice of possible stamps is reached by some order. */
  lemma {:induction false} PossibleIsReached(s: State, target: map<Key, nat>) returns (order: seq<nat>)
    requires Apart(s) && target.Keys == s.stamps.Keys && forall y <- target :: Possible(s, y, target[y])
    ensures Stored(s, order).hits == map[] && Stored(s, order).stamps == target
    decreases |s.hits|
  {
    if s.hits == map[] {
      order := [];
      NothingToStore(s, target);
    } else {
      var t := NextToStore(s, target);
      StoreFrames(s, t);
      StoreShrinks(s, t);
      hide Step, Possible, Apart, Stored;
      var rest := PossibleIsReached(Step(s, Store(t)), target);
      order := [t] + rest;
      StoredFirst(s, t, rest);
    }
  }

  lemma NothingToStore(s: State, target: map<Key, nat>)
    requires s.hits == map[] && target.Keys == s.stamps.Keys && forall y <- target :: Possible(s, y, target[y])
    ensures s.stamps == target
  {
    assert forall y <- target :: !Busy(s.hits, y);
  }

  lemma StoreShrinks(s: State, t: nat)
    requires t in s.hits
    ensures |Step(s, Store(t)).hits| < |s.hits|
  {
    var hits := Step(s, Store(t)).hits;
    assert s.hits.Keys == hits.Keys + {t};
    assert |s.hits.Keys| == |hits.Keys| + 1;
  }

  lemma StoredFirst(s: State, t: nat, rest: seq<nat>)
    ensures Stored(s, [t] + rest) == Stored(Step(s, Store(t)), rest)
  {
    assert ([t] + rest)[1..] == rest;
  }

  /** A hit that may store next: one whose tick is not wanted, or else any. */
  lemma NextToStore(s: State, target: map<Key, nat>) returns (t: nat)
    requires Apart(s) && s.hits != map[] && target.Keys == s.stamps.Keys && forall y <- target :: Possible(s, y, target[y])
    ensures t in s.hits && forall y <- target :: Possible(Step(s, Store(t)), y, target[y])
  {
    if u :| u in s.hits && s.hits[u].tick != target[s.hits[u].key] {
      t := u;
    } else {
      t :| t in s.hits;
      OneWantedHit(s, target, t);
    }
    hide Apart;
    forall y <- target
      ensures Possible(Step(s, Store(t)), y, target[y])
    {
      StoreKeepsPossible(s, t, y, target[y]);
    }
  }

  lemma OneWantedHit(s: State, target: map<Key, nat>, t: nat)
    requires Apart(s) && target.Keys == s.stamps.Keys && t in s.hits
    requires forall u <- s.hits :: s.hits[u].key in target && s.hits[u].tick == target[s.hits[u].key]
    ensures forall u <- s.hits :: s.hits[u].key == s.hits[t].key ==> u == t
  {
  }

  /** Some order of the half-done hits leads to an eviction of `k` that is wrong. */
  ghost predicate CanMisjudge(s: State, k: Key) {
    exists order :: Misjudges(Stored(s, order), k)
  }

  /** No hit is half done, `k` is the one to evict, and another key was used before it. */
  predicate Misjudges(s: State, k: Key) {
    s.hits == map[] && Oldest(s.stamps, k) && k in s.used && !Oldest(s.used, k)
  }

  /** From every reachable state, some order of the half-done hits makes the next eviction
      remove `k` although another key was used before it, if and only if another key was used
      before it, and `k` can end with a stamp that every other key can end at or above. */
  lemma MisjudgesExactly(run: seq<Event>, k: Key)
    ensures var s := Exec(run);
      CanMisjudge(s, k) <==>
        && k in s.used && !Oldest(s.used, k)
        && exists low :: Possible(s, k, low) && forall y <- s.stamps :: CanEndAbove(s, y, low)
  {
    StampsStayDistinct(run);
    ReachableIsBehind(run);
    var s := Exec(run);
    hide Exec;
    if CanMisjudge(s, k) {
      var order :| Misjudges(Stored(s, order), k);
      MisjudgedIsPossible(s, order, k);
    }
    if low :| k in s.used && !Oldest(s.used, k) && Possible(s, k, low) && forall y <- s.stamps :: CanEndAbove(s, y, low) {
      PossibleIsMisjudged(s, k, low);
    }
  }

  ghost predicate CanEndAbove(s: State, y: Key, low: nat) {
    exists stamp :: Possible(s, y, stamp) && low <= stamp
  }

  lemma MisjudgedIsPossible(s: State, order: seq<nat>, k: Key)
    requires Apart(s) && Misjudges(Stored(s, order), k)
    ensures k in s.used && !Oldest(s.used, k)
    ensures exists low :: Possible(s, k, low) && forall y <- s.stamps :: CanEndAbove(s, y, low)
  {
    var f := Stored(s, order);
    StoredIsPossible(s, order);
    hide Stored, Apart;
    assert forall y :: !Busy(f.hits, y);
    assert forall y <- f.stamps :: Possible(f, y, f.stamps[y]);
    var low := f.stamps[k];
    forall y <- s.stamps
      ensures CanEndAbove(s, y, low)
    {
      assert Possible(s, y, f.stamps[y]);
    }
    assert Possible(s, k, low);
  }

  ghost function EndAbove(s: State, y: Key, low: nat): (stamp: nat)
    requires CanEndAbove(s, y, low)
    ensures Possible(s, y, stamp) && low <= stamp
  {
    var stamp :| Possible(s, y, stamp) && low <= stamp; stamp
  }

  lemma PossibleIsMisjudged(s: State, k: Key, low: nat)
    requires Apart(s) && Behind(s) && k in s.used && !Oldest(s.used, k)
    requires Possible(s, k, low) && forall y <- s.stamps :: CanEndAbove(s, y, low)
    ensures CanMisjudge(s, k)
  {
    hide Possible, CanEndAbove;
    var target := map y | y in s.stamps :: if y == k then low else EndAbove(s, y, low);
    var order := PossibleIsReached(s, target);
    StoredIsPossible(s, order);
    assert Oldest(target, k);
    assert Misjudges(Stored(s, order), k);
  }

  lemma ExecSnoc(run: seq<Event>, e: Event)
    ensures Exec(run + [e]) == Step(Exec(run), e)
  {
    assert (run + [e])[..|run|] == run;
  }

  /** Two overlapping hits on one key that store in the other order than they ticked leave it
      with its older tick: the next eviction removes it although another key was used before. */
  lemma OverlapEvictsRecent() returns (run: seq<Event>, a: Key, b: Key)
    ensures a != b && Enabled(Exec(run), Evict(a)) && a in Exec(run).used && b in Exec(run).used && Exec(run).used[b] < Exec(run).used[a]
  {
    a, b := Key(0, 4096), Key(0x10000, 4096);
    var s;
    run, s := TwoHitsOnOne(a, b);
    hide Exec;
    run, s := AndThen(run, s, Store(1));
    run, s := AndThen(run, s, Store(2));
    run, s := AndThen(run, s, Store(0));
    assert s.hits == map[] && s.stamps == map[a := 3, b := 4];
  }

  /** Two hits on `a` are half done, with one on `b` between them. */
  lemma TwoHitsOnOne(a: Key, b: Key) returns (run: seq<Event>, s: State)
    requires a != b
    ensures s == Exec(run) == State(map[a := 1, b := 2], 5, map[0 := Hit(a, 3), 1 := Hit(b, 4), 2 := Hit(a, 5)], map[a := 5, b := 4])
  {
    hide Exec;
    run, s := [], EMPTY;
    ExecNothing();
    run, s := AndThen(run, s, Insert(a));
    run, s := AndThen(run, s, Insert(b));
    assert s == State(map[a := 1, b := 2], 2, map[], map[a := 1, b := 2]);
    run, s := AndThen(run, s, Tick(0, a));
    run, s := AndThen(run, s, Tick(1, b));
    run, s := AndThen(run, s, Tick(2, a));
    assert s.used == map[a := 5, b := 4];
  }

  lemma ExecNothing()
    ensures Exec([]) == EMPTY
  {
  }

  lemma AndThen(run: seq<Event>, s: State, e: Event) returns (run': seq<Event>, s': State)
    requires s == Exec(run)
    ensures run' == run + [e] && s' == Step(s, e) == Exec(run')
  {
    hide Exec, Step;
    ExecSnoc(run, e);
    run', s' := run + [e], Step(s, e);
  }
}
