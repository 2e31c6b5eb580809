/**
 The rate limiter of one call site: any number of callers read the clock, load the stamp of
 the last emission, and compare-and-swap it. Each of the three is one step, and steps of
 different callers interleave freely.
 */
module RateLimit {
  import opened Common

  const WINDOW := 5000

  /** A call in progress: its reading of the clock and, later, the stamp it loaded. */
  datatype Caller = Caller(now: nat, prev: Option<nat>)

  /** A won call: the stamp it replaced, its own stamp, and the time of the swap. */
  datatype Win = Win(prev: nat, stamp: nat, at: nat)

  datatype State = State(clock: nat, last: nat, callers: map<nat, Caller>, wins: seq<Win>)

  datatype Event = Pass(ms: nat) | ReadClock(caller: nat) | LoadLast(caller: nat) | Swap(caller: nat)

  const FRESH := State(0, 0, map[], [])

  function Stamp(clock: nat): nat { if clock > 1 then clock else 1 }

  /** The stamp is missing or a window old, by a subtraction that saturates at zero. */
  predicate Due(now: nat, prev: nat) {
    prev == 0 || (if now >= prev then now - prev else 0) >= WINDOW
  }

  function Step(s: State, e: Event): State {
    match e
    case Pass(ms) => s.(clock := s.clock + ms)
    case ReadClock(c) => if c in s.callers then s else s.(callers := s.callers[c := Caller(Stamp(s.clock), None)])
    case LoadLast(c) =>
      if c in s.callers && s.callers[c].prev.None? then s.(callers := s.callers[c := Caller(s.callers[c].now, Some(s.last))]) else s
    case Swap(c) =>
      if c in s.callers && s.callers[c].prev.Some? then
        var me := s.callers[c];
        var out := s.(callers := s.callers - {c});
        if Due(me.now, me.prev.value) && s.last == me.prev.value
        then out.(last := me.now, wins := s.wins + [Win(s.last, me.now, s.clock)])
        else out
      else s
  }

  function Exec(s: State, run: seq<Event>): State {
    if run == [] then s else Step(Exec(s, run[..|run| - 1]), run[|run| - 1])
  }

  // ---------------------------------------------------------------- every run

  /** Each win replaced the stamp of the one before it, at least a window later. */
  predicate Chained(wins: seq<Win>) {
    && (wins != [] ==> wins[0].prev == 0)
    && (forall i :: 0 < i < |wins| ==> wins[i].prev == wins[i - 1].stamp && wins[i - 1].stamp + WINDOW <= wins[i].stamp)
    && forall i :: 0 <= i < |wins| ==> 1 <= wins[i].stamp <= Stamp(wins[i].at)
  }

  /** The wins so far, against the clock and the stored stamp. */
  predicate Kept(wins: seq<Win>, last: nat, clock: nat) {
    && Chained(wins)
    && last == (if wins == [] then 0 else wins[|wins| - 1].stamp)
    && (forall i :: 0 <= i < |wins| ==> wins[i].at <= clock)
    && forall i :: 0 < i < |wins| ==> wins[i - 1].at <= wins[i].at
  }

  predicate Replaced(wins: seq<Win>, prev: nat) {
    exists w <- wins :: w.prev == prev
  }

  /** A caller's stamp is not ahead of the clock, and the stamp it loaded is still there or
      has been replaced by a win. */
  predicate Plausible(me: Caller, wins: seq<Win>, last: nat, clock: nat) {
    1 <= me.now <= Stamp(clock) && (me.prev.Some? ==> me.prev.value == last || Replaced(wins, me.prev.value))
  }

  predicate Inv(s: State) {
    Kept(s.wins, s.last, s.clock) && forall c <- s.callers :: Plausible(s.callers[c], s.wins, s.last, s.clock)
  }

  lemma WinIsKept(wins: seq<Win>, last: nat, clock: nat, now: nat)
    requires Kept(wins, last, clock) && 1 <= now <= Stamp(clock) && Due(now, last)
    ensures last < now && Kept(wins + [Win(last, now, clock)], now, clock)
  {
  }

  lemma WinIsPlausible(me: Caller, wins: seq<Win>, last: nat, clock: nat, now: nat)
    requires Plausible(me, wins, last, clock)
    ensures Plausible(me, wins + [Win(last, now, clock)], now, clock)
  {
    var w := Win(last, now, clock);
    assert w in wins + [w];
  }

  lemma SwapKeepsInv(s: State, c: nat)
    requires Inv(s)
    ensures Inv(Step(s, Swap(c))) && s.wins <= Step(s, Swap(c)).wins && s.last <= Step(s, Swap(c)).last
  {
    if c in s.callers && s.callers[c].prev.Some? && Due(s.callers[c].now, s.last) {
      WinIsKept(s.wins, s.last, s.clock, s.callers[c].now);
      forall d <- s.callers
        ensures Plausible(s.callers[d], s.wins + [Win(s.last, s.callers[c].now, s.clock)], s.callers[c].now, s.clock)
      {
        WinIsPlausible(s.callers[d], s.wins, s.last, s.clock, s.callers[c].now);
      }
    }
    hide Kept, Plausible;
  }

  lemma StepKeepsInv(s: State, e: Event)
    requires Inv(s)
    ensures Inv(Step(s, e)) && s.wins <= Step(s, e).wins && s.last <= Step(s, e).last
  {
    if e.Swap? {
      SwapKeepsInv(s, e.caller);
    }
  }

  lemma {:induction false} Reachable(run: seq<Event>)
    ensures Inv(Exec(FRESH, run))
  {
    if run != [] {
      Reachable(run[..|run| - 1]);
      StepKeepsInv(Exec(FRESH, run[..|run| - 1]), run[|run| - 1]);
    }
  }

  lemma {:induction false} Spacing(wins: seq<Win>, i: nat, j: nat)
    requires Chained(wins) && i <= j < |wins|
    ensures wins[i].stamp + WINDOW * (j - i) <= wins[j].stamp
    decreases j
  {
    if i < j {
      Spacing(wins, i, j - 1);
    }
  }

  /** Winning stamps are 5000 ms apart, so those spanning `t` milliseconds number at most
      `t / 5000 + 1`; and no loaded stamp is replaced twice. */
  lemma WinsAreSpaced(run: seq<Event>, i: nat, j: nat)
    requires i < j < |Exec(FRESH, run).wins|
    ensures var wins := Exec(FRESH, run).wins;
      && wins[i].stamp + 5000 * (j - i) <= wins[j].stamp
      && j - i + 1 <= (wins[j].stamp - wins[i].stamp) / 5000 + 1
      && wins[i].prev < wins[j].prev
  {
    Reachable(run);
    var wins := Exec(FRESH, run).wins;
    Spacing(wins, i, j);
    Spacing(wins, i, j - 1);
    assert i > 0 ==> wins[i].prev == wins[i - 1].stamp < wins[i].stamp;
  }

  /** The time from a caller's clock reading to its swap. */
  function Latency(w: Win): nat {
    if w.at >= w.stamp then w.at - w.stamp else 0
  }

  /** In real time, emissions are a window apart each, except for the latency of the first. */
  lemma RealGap(run: seq<Event>, i: nat, j: nat)
    requires i < j < |Exec(FRESH, run).wins|
    ensures var wins := Exec(FRESH, run).wins; wins[i].at + WINDOW * (j - i) <= wins[j].at + Latency(wins[i])
  {
    Reachable(run);
    Spacing(Exec(FRESH, run).wins, i, j);
  }

  lemma ExecNothing(s: State)
    ensures Exec(s, []) == s
  {
  }

  lemma ExecSnoc(s: State, run: seq<Event>, e: Event)
    ensures Exec(s, run + [e]) == Step(Exec(s, run), e)
  {
    assert (run + [e])[..|run|] == run;
  }

  /** The callers from `lo` to `hi`, the `c`th having read the clock `c` windows after the
      start and done nothing since. */
  function Delayed(lo: nat, hi: nat): map<nat, Caller> {
    map c: nat | lo <= c < hi :: Caller(1 + WINDOW * c, None)
  }

  function StampBefore(c: nat): nat {
    if c == 0 then 0 else 1 + WINDOW * (c - 1)
  }

  /** The wins of the first `n` such callers, all at the moment `at`. */
  function Burst(n: nat, at: nat): seq<Win> {
    seq(n, c requires 0 <= c => Win(StampBefore(c), 1 + WINDOW * c, at))
  }

  /** One more caller reads the clock and is delayed. */
  lemma ReadAndWait(m: nat)
    ensures Step(Step(State(1 + WINDOW * m, 0, Delayed(0, m + 1), []), Pass(WINDOW)), ReadClock(m + 1))
      == State(1 + WINDOW * (m + 1), 0, Delayed(0, m + 2), [])
  {
    assert Delayed(0, m + 1)[m + 1 := Caller(1 + WINDOW * (m + 1), None)] == Delayed(0, m + 2);
  }

  lemma {:induction false} AllWait(m: nat) returns (s: State, run: seq<Event>)
    ensures s == State(1 + WINDOW * m, 0, Delayed(0, m + 1), []) == Exec(FRESH, run)
  {
    hide Exec;
    if m == 0 {
      s, run := FRESH, [];
      ExecNothing(FRESH);
      s, run := Then(s, run, Pass(1));
      s, run := Then(s, run, ReadClock(0));
      assert s.callers == Delayed(0, 1);
    } else {
      s, run := AllWait(m - 1);
      ReadAndWait(m - 1);
      hide Step;
      s, run := Then(s, run, Pass(WINDOW));
      s, run := Then(s, run, ReadClock(m));
    }
  }

  /** The first `n` of `hi` delayed callers have emitted at the moment `at`. */
  function Swapped(n: nat, hi: nat, at: nat): State
    requires n <= hi
  {
    State(at, StampBefore(n), Delayed(n, hi), Burst(n, at))
  }

  /** The oldest delayed caller loads and swaps. */
  lemma LoadAndSwap(c: nat, hi: nat, at: nat)
    requires c < hi
    ensures Step(Step(Swapped(c, hi, at), LoadLast(c)), Swap(c)) == Swapped(c + 1, hi, at)
  {
    var s1 := Step(Swapped(c, hi, at), LoadLast(c));
    assert s1.callers[c] == Caller(1 + WINDOW * c, Some(StampBefore(c)));
    assert s1.callers - {c} == Delayed(c + 1, hi);
    assert Burst(c + 1, at) == Burst(c, at) + [Win(StampBefore(c), 1 + WINDOW * c, at)];
  }

  lemma {:induction false} AllSwap(run0: seq<Event>, n: nat, hi: nat, at: nat) returns (run: seq<Event>)
    requires n <= hi && Exec(FRESH, run0) == Swapped(0, hi, at)
    ensures Exec(FRESH, run) == Swapped(n, hi, at)
    decreases n
  {
    run := run0;
    if n > 0 {
      run := AllSwap(run0, n - 1, hi, at);
      LoadAndSwap(n - 1, hi, at);
      hide Exec, Step, Swapped;
      ExecSnoc(FRESH, run, LoadLast(n - 1));
      ExecSnoc(FRESH, run + [LoadLast(n - 1)], Swap(n - 1));
      run := run + [LoadLast(n - 1)] + [Swap(n - 1)];
    }
  }

  /** What the construction keeps: `n` wins, the first delayed by `latency`, the last just now. */
  predicate Won(s: State, n: nat, latency: nat) {
    && s.callers == map[] && |s.wins| == n > 0 && s.wins[0] == Win(0, 1, 1 + latency)
    && s.last == 1 + WINDOW * (n - 1) && s.wins[n - 1].at == s.clock
  }

  /** Every caller that can read the clock while the first is delayed emits at one instant. */
  lemma BurstOf(m: nat, latency: nat) returns (s: State, run: seq<Event>)
    requires WINDOW * m <= latency
    ensures s == Exec(FRESH, run) && Won(s, m + 1, latency) && s.clock == 1 + latency
  {
    s, run := AllWait(m);
    hide Exec;
    s, run := Then(s, run, Pass(latency - WINDOW * m));
    assert Burst(0, s.clock) == [];
    run := AllSwap(run, m + 1, m + 1, s.clock);
    s := Swapped(m + 1, m + 1, s.clock);
    assert Delayed(m + 1, m + 1) == map[];
  }

  /** The next caller comes when the window is over, and is not delayed. */
  lemma NextWin(s0: State, run0: seq<Event>, n: nat, latency: nat) returns (s: State, run: seq<Event>)
    requires s0 == Exec(FRESH, run0) && Won(s0, n, latency) && s0.clock <= 1 + WINDOW * n
    ensures s == Exec(FRESH, run) && Won(s, n + 1, latency) && s.clock == 1 + WINDOW * n
  {
    hide Exec;
    s, run := Then(s0, run0, Pass(1 + WINDOW * n - s0.clock));
    s, run := Then(s, run, ReadClock(0));
    s, run := Then(s, run, LoadLast(0));
    assert s.callers == map[0 := Caller(1 + WINDOW * n, Some(s0.last))];
    s, run := Then(s, run, Swap(0));
    assert s.callers == map[];
  }

  /** That bound cannot be improved, for any number of emissions and any latency: `n` more
      emissions can follow a delayed one in `n` windows less the delay, and all at the same
      instant if the delay is that long. */
  lemma RealGapIsTight(n: nat, latency: nat) returns (run: seq<Event>)
    ensures var wins := Exec(FRESH, run).wins;
      && |wins| == n + 1 && Latency(wins[0]) == latency
      && wins[n].at - wins[0].at == if latency <= WINDOW * n then WINDOW * n - latency else 0
  {
    var m := Min(n, latency / WINDOW);
    var s;
    s, run := BurstOf(m, latency);
    hide Exec, Step;
    while m < n
      invariant m <= n && (m < n ==> latency < WINDOW * (m + 1))
      invariant s == Exec(FRESH, run) && Won(s, m + 1, latency)
      invariant s.clock == if latency <= WINDOW * m then 1 + WINDOW * m else 1 + latency
    {
      s, run := NextWin(s, run, m + 1, latency);
      m := m + 1;
    }
  }

  /** The limiter promises one emission per window. It keeps the promise, over every run and for
      every number of emissions after the `i`th, exactly for emissions that are not delayed
      between their clock reading and their swap. */
  lemma OneEmissionPerWindow(n: nat, latency: nat)
    requires n > 0
    ensures (forall run, i: nat | i + n < |Exec(FRESH, run).wins| && Latency(Exec(FRESH, run).wins[i]) == latency ::
               Exec(FRESH, run).wins[i].at + WINDOW * n <= Exec(FRESH, run).wins[i + n].at)
      <==> latency == 0
  {
    if latency == 0 {
      forall run, i: nat | i + n < |Exec(FRESH, run).wins| && Latency(Exec(FRESH, run).wins[i]) == latency
        ensures Exec(FRESH, run).wins[i].at + WINDOW * n <= Exec(FRESH, run).wins[i + n].at
      {
        RealGap(run, i, i + n);
      }
    } else {
      var run := RealGapIsTight(n, latency);
      assert 0 + n < |Exec(FRESH, run).wins| && Latency(Exec(FRESH, run).wins[0]) == latency;
    }
  }

  lemma Then(s: State, run: seq<Event>, e: Event) returns (s': State, run': seq<Event>)
    requires s == Exec(FRESH, run)
    ensures s' == Step(s, e) == Exec(FRESH, run') && run' == run + [e]
  {
    hide Step, Exec;
    ExecSnoc(FRESH, run, e);
    s', run' := Step(s, e), run + [e];
  }

  /** One refused although its own stamp was a window after the one it had loaded was refused
      because another call replaced that very stamp. */
  lemma RefusalHasWinner(run: seq<Event>, c: nat)
    requires var s := Exec(FRESH, run); c in s.callers && s.callers[c].prev.Some? && Due(s.callers[c].now, s.callers[c].prev.value)
    ensures var s := Exec(FRESH, run); var s' := Exec(FRESH, run + [Swap(c)]);
      (s'.wins == s.wins) == Replaced(s.wins, s.callers[c].prev.value)
  {
    Reachable(run);
    ExecSnoc(FRESH, run, Swap(c));
    var s := Exec(FRESH, run);
    hide Kept, Exec, Replaced;
    if Replaced(s.wins, s.callers[c].prev.value) {
      ReplacedIsGone(s.wins, s.last, s.clock, s.callers[c].prev.value);
    }
  }

  /** Nothing is suppressed needlessly: after any run, a call that is not disturbed emits if and
      only if nothing was emitted yet or the last winning stamp is at least 5000 ms old. */
  lemma LoneCallEmits(run: seq<Event>, c: nat)
    requires c !in Exec(FRESH, run).callers
    ensures var s, s' := Exec(FRESH, run), Exec(FRESH, run + [ReadClock(c)] + [LoadLast(c)] + [Swap(c)]);
      s'.wins != s.wins <==> s.wins == [] || s.wins[|s.wins| - 1].stamp + 5000 <= (if s.clock > 1 then s.clock else 1)
  {
    Reachable(run);
    ExecSnoc(FRESH, run, ReadClock(c));
    ExecSnoc(FRESH, run + [ReadClock(c)], LoadLast(c));
    ExecSnoc(FRESH, run + [ReadClock(c)] + [LoadLast(c)], Swap(c));
    hide Exec;
  }

  /** A stamp that was replaced never comes back. */
  lemma ReplacedIsGone(wins: seq<Win>, last: nat, clock: nat, prev: nat)
    requires Kept(wins, last, clock) && Replaced(wins, prev)
    ensures prev < last
  {
    var i :| 0 <= i < |wins| && wins[i].prev == prev;
    Spacing(wins, i, |wins| - 1);
    assert i > 0 ==> wins[i].prev == wins[i - 1].stamp < wins[i].stamp;
  }

  // ---------------------------------------------------------------- the code

  predicate IsOther(e: Event, me: nat) {
    e.Pass? || e.caller != me
  }

  /** The steps of caller `me`. */
  function Mine(me: nat): Event -> bool {
    (e: Event) => !IsOther(e, me)
  }

  /** Everyone's steps up to the load of a call, with `first` before it. */
  function UntilLoad(run: seq<Event>, me: nat, first: seq<Event>): seq<Event> {
    run + [ReadClock(me)] + Others(first, Mine(me))
  }

  /** Everyone's steps up to its swap, with `second` after the load. */
  function UntilSwap(run: seq<Event>, me: nat, first: seq<Event>, second: seq<Event>): seq<Event> {
    UntilLoad(run, me, first) + [LoadLast(me)] + Others(second, Mine(me))
  }

  /** The caller's own record is its own. */
  predicate SameCall(s: State, s': State, me: nat) {
    (me in s'.callers) == (me in s.callers) && (me in s.callers ==> s'.callers[me] == s.callers[me])
  }

  lemma OtherKeepsCall(s: State, e: Event, me: nat)
    requires IsOther(e, me)
    ensures SameCall(s, Step(s, e), me)
  {
  }

  lemma SameCallAgain(s: State, s': State, s'': State, me: nat)
    requires SameCall(s, s', me) && SameCall(s', s'', me)
    ensures SameCall(s, s'', me)
  {
  }

  class CallSite {
    var s: State
    ghost var run: seq<Event>

    ghost predicate Valid()
      reads this
    {
      s == Exec(FRESH, run)
    }

    constructor ()
      ensures Valid() && s == FRESH && run == []
    {
      s, run := FRESH, [];
    }

    /** Time passes and other callers take steps. */
    method Interfere(me: nat, others: seq<Event>)
      requires Valid()
      modifies this
      ensures Valid() && run == old(run) + Others(others, Mine(me)) && SameCall(old(s), s, me)
    {
      var i := 0;
      assert others[..0] == [] && run + [] == run;
      while i < |others|
        invariant 0 <= i <= |others| && Valid() && run == old(run) + Others(others[..i], Mine(me)) && SameCall(old(s), s, me)
      {
        hide Exec, Step, Others, SameCall;
        OthersNext(others, Mine(me), i);
        if IsOther(others[i], me) {
          ghost var before := s;
          OtherKeepsCall(s, others[i], me);
          Take(others[i]);
          SameCallAgain(old(s), before, s, me);
        }
        i := i + 1;
      }
      assert others[..i] == others;
    }

    method Take(e: Event)
      requires Valid()
      modifies this
      ensures Valid() && s == Step(old(s), e) && run == old(run) + [e]
    {
      hide Step, Exec;
      ExecSnoc(FRESH, run, e);
      s, run := Step(s, e), run + [e];
    }

    /** Whether caller `me` may emit now, with the others acting between its three steps. It
        takes exactly its three steps; `prev` is the stamp stored when it loaded; it may emit
        exactly when its clock reading is a window after that stamp and nobody replaced the
        stamp before its swap; and then the stored stamp is its own. */
    method ShouldEmit(me: nat, first: seq<Event>, second: seq<Event>) returns (emit: bool, now: nat, prev: nat)
      requires Valid() && me !in s.callers
      modifies this
      ensures Valid() && me !in s.callers && run == UntilSwap(old(run), me, first, second) + [Swap(me)]
      ensures now == Stamp(old(s).clock) && prev == Exec(FRESH, UntilLoad(old(run), me, first)).last
      ensures var seen := Exec(FRESH, UntilSwap(old(run), me, first, second)).wins;
        && (emit <==> Due(now, prev) && !Replaced(seen, prev))
        && s.wins == seen + (if emit then [Win(prev, now, s.clock)] else []) && (emit ==> s.last == now)
    {
      hide Exec, Others;
      Take(ReadClock(me));
      now := s.callers[me].now;
      Interfere(me, first);
      prev := s.last;
      Take(LoadLast(me));
      Interfere(me, second);
      emit := false;
      if Due(now, prev) {
        emit := s.last == prev;
        RefusalHasWinner(run, me);
        ExecSnoc(FRESH, run, Swap(me));
      }
      Take(Swap(me));
    }
  }
}
