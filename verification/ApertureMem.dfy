/**
 Guest memory served through the aperture cache. Accesses map the touched page range on
 demand, reuse cached mappings, evict least recently used ones, and copy through the
 mapping.

 Platform assumption: an aperture is a direct map of guest pages, so the byte at offset
 `o` of a live mapping of a range is the guest byte at the range's base plus `o`.
 An address in a mapping is a handle with an offset; using one outside its mapping is undefined in the
 original and shows here as `Wild`.
 */
module ApertureMem {
  import opened Common
  import opened GuestAddress
  import opened ApertureShard
  import opened ApertureLinks

  datatype Error = NotBound | BadRange | ApertureFailed(hresult: nat)

  /** Where an access lands: at an offset of a live mapping, or nowhere. */
  datatype Located = At(handle: nat, offset: nat) | Missing(error: Error)

  datatype Outcome = Done | Failed(error: Error) | Wild

  class HdvApertureMem {
    const maxAddress: nat
    const enabled: bool
    /** What the platform answers to its successive create calls. */
    const hresults: seq<nat>
    var bound: bool
    var shards: seq<Shard>
    var stats: Stats
    // the platform: create calls made, live mappings, and the guest's memory
    var attempts: nat
    var mappings: map<nat, Key>
    var nextHandle: nat
    var guest: seq<Byte>
    // the recency lists the shards stand for, the accesses made to them, and how many of each kind
    ghost var orders: seq<seq<Key>>
    ghost var history: seq<seq<Key>>
    ghost var tally: Tally

    ghost function View(): Cache
      reads this
    {
      Cache(shards, orders, mappings, nextHandle, stats)
    }

    /** The recency lists, what led to them, and the create calls made so far. */
    ghost function Lists(): Recency
      reads this
    {
      Recency(orders, history, attempts, tally)
    }

    ghost function Setup(): Config
      reads this
    {
      Config(bound, maxAddress, hresults)
    }

    ghost predicate Valid()
      reads this
    {
      Sound(enabled, View()) && Ranked(orders, history) && Balanced(enabled, stats, tally) && |guest| == maxAddress
    }

    constructor (ramSize: nat, enabled: bool, hresults: seq<nat>, guest: seq<Byte>)
      requires |guest| == RamSizeToMaxGpa(ramSize)
      ensures Valid() && this.guest == guest && !bound
      ensures Lists() == Recency(seq(SHARDS, _ => []), seq(SHARDS, _ => []), 0, Tally(0, 0, 0))
      ensures maxAddress == RamSizeToMaxGpa(ramSize) && this.enabled == enabled && this.hresults == hresults
    {
      maxAddress := RamSizeToMaxGpa(ramSize);
      this.enabled := enabled;
      this.hresults := hresults;
      this.guest := guest;
      bound, stats, attempts, mappings, nextHandle, tally := false, NO_STATS, 0, map[], 0, Tally(0, 0, 0);
      shards := seq(SHARDS, _ => Shard(map[], 0));
      orders, history := seq(SHARDS, _ => []), seq(SHARDS, _ => []);
      new;
      EmptyTotal(shards);
    }

    /** The device handle becomes known. */
    method Bind()
      requires Valid()
      modifies this`bound
      ensures Valid() && bound
    {
      bound := true;
    }

    /** Drop the entry with the smallest stamp: the head of the recency list, and nothing
        else. Its mapping is destroyed with it. */
    method EvictOne(i: nat)
      requires Sound(enabled, View()) && i < |shards| == SHARDS && shards[i].cache != map[]
      modifies this`shards, this`mappings, this`stats, this`orders
      ensures Sound(enabled, View()) && |old(orders)| == SHARDS && old(orders)[i] != []
      ensures var k := old(orders)[i][0]; k in old(shards)[i].cache && View() == Evicted(enabled, old(View()), i, k)
    {
      hide Sound;
      var k := FindOldest(shards[i]);
      SoundKnows(enabled, View(), k);
      EvictIsSound(enabled, View(), i, k);
      var sh := shards[i];
      mappings := mappings - {sh.cache[k].handle};
      shards := shards[i := sh.(cache := sh.cache - {k})];
      orders := orders[i := orders[i][1..]];
      stats := CountEvict(enabled, stats);
    }

    /** The hit path: hand out the cached mapping and restamp it. */
    method Lookup(key: Key) returns (found: bool, handle: nat)
      requires Sound(enabled, View())
      modifies this`shards, this`orders
      ensures Sound(enabled, View()) && |old(orders)| == |old(shards)| == SHARDS
      ensures var i := ShardOf(key.base);
              && found == (key in old(shards)[i].cache) == (key in old(orders)[i])
              && View() == if found then Touched(old(View()), i, key) else old(View())
      ensures found ==> handle in mappings && mappings[handle] == key
    {
      hide Sound;
      SoundKnows(enabled, View(), key);
      var i := ShardOf(key.base);
      found, handle := key in shards[i].cache, 0;
      if found {
        handle := shards[i].cache[key].handle;
        TouchIsSound(enabled, View(), i, key);
        orders := orders[i := Refresh(orders[i], key)];
        shards := shards[i := Touch(shards[i], key)];
      }
    }

    /** Ask the platform for a mapping; after each quota refusal evict one entry and ask
        again. Stops at a grant, at any other refusal, or when nothing is left to evict;
        the bound on the evictions never decides. */
    method CreateWithRetry(i: nat) returns (hresult: nat, evictions: nat)
      requires Sound(enabled, View()) && i < |shards| == |orders| == SHARDS && |orders[i]| < PER_SHARD_MAX
      modifies this`shards, this`mappings, this`stats, this`orders, this`attempts
      ensures Sound(enabled, View()) && evictions == Retries(hresults, old(attempts), |old(orders)[i]|)
      ensures AfterRetries(enabled, old(View()), View(), i, evictions)
      ensures attempts == old(attempts) + evictions + 1 && hresult == Answer(hresults, old(attempts) + evictions)
    {
      hide Sound, Retries, Refused, AfterRetries;
      ghost var was, first := View(), attempts;
      NoRetries(enabled, was, i);
      evictions := 0;
      hresult := Answer(hresults, attempts);
      attempts := attempts + 1;
      NoneRefused(hresults, first);
      while !Succeeded(hresult)
        invariant Sound(enabled, View()) && evictions <= |was.orders[i]|
        invariant AfterRetries(enabled, was, View(), i, evictions)
        invariant attempts == first + evictions + 1 && hresult == Answer(hresults, first + evictions)
        invariant Refused(hresults, first, evictions)
        decreases |was.orders[i]| - evictions
      {
        EmptyWhenAllRetried(enabled, was, View(), i, evictions);
        if hresult != ERROR_NOT_ENOUGH_QUOTA || shards[i].cache == map[] || evictions >= PER_SHARD_MAX {
          break;
        }
        ghost var before := View();
        EvictForQuota(i);
        RetriedAgain(enabled, was, before, View(), i, evictions);
        RefusedAgain(hresults, first, evictions);
        evictions := evictions + 1;
        hresult := Answer(hresults, attempts);
        attempts := attempts + 1;
      }
      RetriesIs(hresults, first, |was.orders[i]|, evictions);
    }

    /** One eviction, counted as a quota retry too. */
    method EvictForQuota(i: nat)
      requires Sound(enabled, View()) && i < |shards| == SHARDS && shards[i].cache != map[]
      modifies this`shards, this`mappings, this`stats, this`orders
      ensures Sound(enabled, View()) && RetriedOnce(enabled, old(View()), View(), i)
    {
      hide Recent, Linked, Total;
      EvictOne(i);
      assert Shrunk(old(shards)[i], shards[i]);
      if enabled {
        stats := stats.(quotaRetries := stats.quotaRetries + 1);
      }
    }
  
    /** Tick the shard's clock and, in a full shard, drop the oldest entry. */
    method MakeRoom(key: Key)
      requires Sound(enabled, View()) && ShardOf(key.base) < |shards| && key !in shards[ShardOf(key.base)].cache
      modifies this`shards, this`mappings, this`stats, this`orders
      ensures Sound(enabled, View()) && |shards| == |orders| == |old(orders)| == SHARDS
      ensures var i := ShardOf(key.base);
              && key !in shards[i].cache && StampsBelow(shards[i])
              && orders == old(orders)[i := Trimmed(old(orders)[i])] && |orders[i]| < PER_SHARD_MAX
      ensures SameOutcomes(enabled, old(stats), stats) && stats.live <= old(stats).live
      ensures stats.quotaRetries == old(stats).quotaRetries && stats.peakLive == old(stats).peakLive
    {
      hide Sound;
      SoundKnows(enabled, View(), key);
      var i := ShardOf(key.base);
      TickIsSound(enabled, View(), i);
      shards := shards[i := Ticked(shards[i])];
      if |shards[i].cache| >= PER_SHARD_MAX {
        EvictOne(i);
      } else {
        assert orders == orders[i := orders[i]];
      }
    }

    /** Create with retries, and cache a granted mapping as the most recently used. */
    method CreateAndInsert(key: Key) returns (granted: bool, handle: nat, hresult: nat)
      requires Sound(enabled, View()) && |shards| == |orders| == SHARDS
      requires var i := ShardOf(key.base);
               i < SHARDS && key !in shards[i].cache && StampsBelow(shards[i]) && |orders[i]| < PER_SHARD_MAX
      modifies this`shards, this`mappings, this`stats, this`orders, this`attempts, this`nextHandle
      ensures Sound(enabled, View())
      ensures granted ==> handle in mappings && mappings[handle] == key
      ensures var i, order := ShardOf(key.base), old(orders)[ShardOf(key.base)];
              var n := Retries(hresults, old(attempts), |order|);
              && attempts == old(attempts) + n + 1
              && hresult == Answer(hresults, old(attempts) + n) && granted == Succeeded(hresult)
              && orders == old(orders)[i := order[n..] + if granted then [key] else []]
      ensures OneOutcome(enabled, old(stats), stats, granted)
      ensures Peaks(enabled, old(stats), stats, attempts - old(attempts) - 1)
    {
      hide Sound, Retries;
      PeakIsReached(enabled, View());
      var i, n := ShardOf(key.base), 0;
      hresult, n := CreateWithRetry(i);
      granted, handle := Succeeded(hresult), 0;
      if granted {
        InsertIsSound(enabled, View(), key);
        handle := nextHandle;
        shards := shards[i := Inserted(shards[i], key, handle)];
        mappings := mappings[handle := key];
        nextHandle := nextHandle + 1;
        orders := orders[i := orders[i] + [key]];
        stats := CountCreate(enabled, stats);
      } else {
        CountFailIsSound(enabled, View());
        stats := CountFail(enabled, stats);
        assert orders[i] == orders[i] + [];
      }
    }

    /** The miss path. A key that was cached meanwhile is adopted, never mapped twice; else
        room is made, the platform is asked, with quota retries, and a granted mapping is
        cached. The recency list changes as the list-level miss says, and at most 64 create
        calls are made. */
    method GetOrCreate(key: Key) returns (granted: bool, handle: nat, hresult: nat)
      requires Sound(enabled, View())
      modifies this`shards, this`mappings, this`stats, this`orders, this`attempts, this`nextHandle
      ensures Sound(enabled, View()) && |old(orders)| == SHARDS
      ensures granted ==> handle in mappings && mappings[handle] == key
      ensures orders == old(orders)[ShardOf(key.base) := AfterAccess(old(orders)[ShardOf(key.base)], key, hresults, old(attempts))]
      ensures var order := old(orders)[ShardOf(key.base)];
              if key in order then granted && attempts == old(attempts)
              else
                && |order| <= PER_SHARD_MAX
                && attempts == old(attempts) + Attempts(order, hresults, old(attempts)) <= old(attempts) + 64
                && hresult == Answer(hresults, attempts - 1) && granted == Succeeded(hresult)
                && hresult == (if attempts - 1 < |hresults| then hresults[attempts - 1] else 0)
                && (granted <==> hresult < 0x8000_0000)
      ensures OneOutcome(enabled, old(stats), stats, granted)
      ensures Peaks(enabled, old(stats), stats, Repeats(old(attempts), attempts))
    {
      hide Sound, Retries, Trimmed;
      PeakIsReached(enabled, View());
      SoundKnows(enabled, View(), key);
      var i := ShardOf(key.base);
      hresult := 0;
      if key in shards[i].cache {
        granted, handle := true, shards[i].cache[key].handle;
        TouchIsSound(enabled, View(), i, key);
        orders := orders[i := Refresh(orders[i], key)];
        shards := shards[i := Touch(shards[i], key)];
        CountHitIsSound(enabled, View());
        stats := CountHit(enabled, stats);
      } else {
        MakeRoom(key);
        granted, handle, hresult := CreateAndInsert(key);
        MissAssembles(old(orders), i, key, hresults, old(attempts), granted);
      }
    }
  
    /** Find or make the mapping that serves `[addr, addr + len)`. It fails exactly as the
        reference on recency lists says, and the lists change as it says. */
    method Locate(addr: nat, len: nat) returns (r: Located)
      requires Valid()
      modifies this`shards, this`mappings, this`stats, this`orders, this`attempts, this`nextHandle, this`history, this`tally
      ensures Sound(enabled, View()) && Ranked(orders, history)
      ensures Balanced(enabled, if r.At? then CountOp(enabled, stats) else stats, tally)
      ensures Peaks(enabled, old(stats), stats, Repeats(old(attempts), attempts))
      ensures Shaped(old(Lists())) && Lists() == Accessed(Setup(), old(Lists()), addr, len)
      ensures r.Missing? <==> Refusal(Setup(), old(Lists()), addr, len).Some?
      ensures r.Missing? ==> r.error == Refusal(Setup(), old(Lists()), addr, len).value
      ensures bound && Admitted(addr, len, maxAddress) && KeyOf(addr, len, maxAddress) !in old(orders)[addr / 4096 % 16] ==>
        && old(attempts) < attempts
        && var h := if attempts - 1 < |hresults| then hresults[attempts - 1] else 0;
        && (r.Missing? <==> h >= 0x8000_0000) && (r.Missing? ==> r.error == ApertureFailed(h))
      ensures r.At? ==> && Admitted(addr, len, maxAddress) && r.handle in mappings && r.offset == addr - BaseOf(addr)
                        && mappings[r.handle] == KeyOf(addr, len, maxAddress)
    {
      hide Recent, Linked, Total, Ranked, Retries, Miss, AfterAccess;
      ValidIsShaped();
      PeakIsReached(enabled, View());
      if !bound {
        stats := if enabled then stats.(notBound := stats.notBound + 1) else stats;
        tally := tally.(unbound := tally.unbound + 1);
        return Missing(NotBound);
      }
      if addr + len >= U64 || addr + len > maxAddress {
        stats := if enabled then stats.(badRange := stats.badRange + 1) else stats;
        tally := tally.(outOfRange := tally.outOfRange + 1);
        return Missing(BadRange);
      }
      if KeyOf(addr, len, maxAddress) !in orders[addr / 4096 % 16] {
        RefusalInNumbers(Setup(), Lists(), addr, len);
      }
      r := Serve(KeyOf(addr, len, maxAddress), addr - BaseOf(addr));
    }

    lemma ValidIsShaped()
      requires Valid()
      ensures Shaped(Lists())
    {
    }

    /** The cached or newly created mapping of `key`. */
    method Serve(key: Key, offset: nat) returns (r: Located)
      requires Valid()
      modifies this`shards, this`mappings, this`stats, this`orders, this`attempts, this`nextHandle, this`history, this`tally
      ensures Sound(enabled, View()) && Ranked(orders, history)
      ensures Balanced(enabled, if r.At? then CountOp(enabled, stats) else stats, tally)
      ensures Peaks(enabled, old(stats), stats, Repeats(old(attempts), attempts))
      ensures Shaped(old(Lists())) && Lists() == Used(old(Lists()), key, hresults)
      ensures r.At? <==> Granted(old(Lists()), key, hresults)
      ensures r.At? ==> r.handle in mappings && r.offset == offset && mappings[r.handle] == key
      ensures r.Missing? ==> r.error == ApertureFailed(LastAnswer(old(Lists()), key, hresults))
    {
      hide Sound, Ranked, AfterAccess, Retries;
      PeakIsReached(enabled, View());
      ValidIsShaped();
      SoundKnows(enabled, View(), key);
      var i := ShardOf(key.base);
      AccessIsRanked(enabled, View(), history, key, hresults, attempts);
      history := history[i := history[i] + [key]];
      tally := tally.(admitted := tally.admitted + 1);
      var found, handle := Lookup(key);
      if found {
        CountHitIsSound(enabled, View());
        stats := CountHit(enabled, stats);
        return At(handle, offset);
      }
      var granted, hresult;
      granted, handle, hresult := GetOrCreate(key);
      r := if granted then At(handle, offset) else Missing(ApertureFailed(hresult));
    }

    /** The copy is over: count the access. */
    method FinishAccess()
      requires Sound(enabled, View()) && Ranked(orders, history) && |guest| == maxAddress
      requires Balanced(enabled, CountOp(enabled, stats), tally)
      modifies this`stats
      ensures Valid() && stats == CountOp(enabled, old(stats))
    {
      hide Recent, Linked, Total, Ranked;
      stats := CountOp(enabled, stats);
    }

    /** Whether `[offset, offset + len)` lies inside a mapping, whose length the create call
        truncated to 32 bits. */
    predicate Inside(handle: nat, offset: nat, len: nat)
      requires handle in mappings
      reads this`mappings
    {
      offset + len <= mappings[handle].span % U32
    }

    /** The byte-by-byte copies through a mapping that aliases guest memory from `from` on. */
    method CopyOut(from: nat, dest: array<Byte>)
      requires from + dest.Length <= |guest|
      modifies dest
      ensures dest[..] == guest[from..from + dest.Length]
    {
      for j := 0 to dest.Length
        invariant dest[..j] == guest[from..from + j]
      {
        dest[j] := guest[from + j];
      }
    }

    method CopyIn(from: nat, src: seq<Byte>)
      requires from + |src| <= |guest|
      modifies this`guest
      ensures guest == Patched(old(guest), from, src)
    {
      assert guest == PatchedTo(guest, from, src, 0);
      for j := 0 to |src|
        invariant guest == PatchedTo(old(guest), from, src, j)
      {
        hide PatchedTo;
        PatchNext(old(guest), from, src, j);
        guest := guest[from + j := src[j]];
      }
    }

    /** Copy guest memory out through the mapping. The outcome is the one the reference gives;
        a completed read returned exactly the current guest bytes of the range, and any other
        outcome left the buffer alone. */
    method ReadFallback(addr: nat, dest: array<Byte>) returns (r: Outcome)
      requires Valid()
      modifies dest, this`shards, this`mappings, this`stats, this`orders, this`attempts, this`nextHandle, this`history, this`tally
      ensures Valid() && Shaped(old(Lists())) && Lists() == Accessed(Setup(), old(Lists()), addr, dest.Length)
      ensures r == Verdict(Setup(), old(Lists()), addr, dest.Length)
      ensures AsTold(Setup(), old(Lists()), Read(addr, dest.Length), r, Lists())
      ensures Peaks(enabled, old(stats), stats, Repeats(old(attempts), attempts))
      ensures r.Done? ==> addr + dest.Length <= |guest|
      ensures if r.Done? then dest[..] == guest[addr..addr + dest.Length] else dest[..] == old(dest[..])
    {
      hide Sound, Ranked, Balanced, Refusal, Accessed, AsTold;
      ValidIsShaped();
      VerdictIsAsTold(Setup(), Lists(), Read(addr, dest.Length));
      var at := Locate(addr, dest.Length);
      if at.Missing? {
        return Failed(at.error);
      }
      MappingHoldsAccess(addr, dest.Length, maxAddress);
      if !Inside(at.handle, at.offset, dest.Length) {
        FinishAccess();
        return Wild;
      }
      CopyOut(mappings[at.handle].base + at.offset, dest);
      FinishAccess();
      return Done;
    }

    /** Copy into guest memory through the mapping. The outcome is the one the reference
        gives; a completed write changed exactly the bytes of the range, and any other outcome
        left guest memory as it was. */
    method WriteFallback(addr: nat, src: seq<Byte>) returns (r: Outcome)
      requires Valid()
      modifies this`guest, this`shards, this`mappings, this`stats, this`orders, this`attempts, this`nextHandle, this`history, this`tally
      ensures Valid() && Shaped(old(Lists())) && Lists() == Accessed(Setup(), old(Lists()), addr, |src|)
      ensures r == Verdict(Setup(), old(Lists()), addr, |src|)
      ensures AsTold(Setup(), old(Lists()), Write(addr, src), r, Lists())
      ensures Peaks(enabled, old(stats), stats, Repeats(old(attempts), attempts))
      ensures guest == if r.Done? then Patched(old(guest), addr, src) else old(guest)
    {
      hide Sound, Ranked, Balanced, Refusal, Accessed, AsTold;
      ValidIsShaped();
      VerdictIsAsTold(Setup(), Lists(), Write(addr, src));
      var at := Locate(addr, |src|);
      if at.Missing? {
        return Failed(at.error);
      }
      MappingHoldsAccess(addr, |src|, maxAddress);
      if !Inside(at.handle, at.offset, |src|) {
        FinishAccess();
        return Wild;
      }
      CopyIn(mappings[at.handle].base + at.offset, src);
      FinishAccess();
      return Done;
    }

    /** The guest itself stores into its memory. */
    method GuestStore(addr: nat, data: seq<Byte>)
      requires Valid()
      modifies this`guest
      ensures Valid() && guest == Patched(old(guest), addr, data)
    {
      hide Sound, Ranked, Balanced;
      guest := Patched(guest, addr, data);
    }

    /** Guest memory and the recency lists. */
    ghost function Reference(): Model
      reads this
    {
      Model(guest, Lists())
    }

    /** Any run of accesses, interleaved with stores of the guest, under any answers of the
        platform: guest memory, the recency lists, every outcome and every completed read are
        those of the reference, flat memory beside plain lists. The accesses in its history
        are the admitted ones, in order. */
    method RunAccesses(ops: seq<Access>) returns (outcomes: seq<Outcome>, answers: seq<seq<Byte>>)
      requires Valid()
      modifies this`guest, this`shards, this`mappings, this`stats, this`orders, this`attempts, this`nextHandle, this`history, this`tally
      ensures Valid() && |outcomes| == |answers| == |ops| && Shaped(old(Lists()))
      ensures Reference() == After(Setup(), old(Reference()), ops, |ops|)
      ensures forall i :: 0 <= i < |ops| ==> Answers(Setup(), old(Reference()), ops, i, outcomes[i], answers[i])
      ensures tally.admitted == old(tally).admitted + |AdmittedKeys(Setup(), ops, |ops|)|
      ensures forall i :: 0 <= i < SHARDS ==> history[i] == old(history)[i] + InShard(AdmittedKeys(Setup(), ops, |ops|), i)
    {
      ValidIsShaped();
      ghost var c, start := Setup(), Reference();
      NothingPerformed(c, start, ops);
      hide *;
      outcomes, answers := [], [];
      while |outcomes| < |ops|
        invariant Valid() && |outcomes| <= |ops| && Setup() == c
        invariant Performed(c, start, ops, outcomes, answers, Reference())
        decreases |ops| - |outcomes|
      {
        outcomes, answers := PerformNext(ops, outcomes, answers, start);
      }
      PerformedAll(c, start, ops, outcomes, answers, Reference());
    }

    /** One more operation. */
    method PerformNext(ops: seq<Access>, outcomes: seq<Outcome>, answers: seq<seq<Byte>>, ghost start: Model)
      returns (outcomes': seq<Outcome>, answers': seq<seq<Byte>>)
      requires Valid() && |outcomes| < |ops| && Performed(Setup(), start, ops, outcomes, answers, Reference())
      modifies this`guest, this`shards, this`mappings, this`stats, this`orders, this`attempts, this`nextHandle, this`history, this`tally
      ensures Valid() && |outcomes'| == |outcomes| + 1 && Performed(Setup(), start, ops, outcomes', answers', Reference())
    {
      hide Sound, Ranked, Balanced, Performed, OutcomeOf, Next;
      ghost var before := Reference();
      var outcome, data := Perform(ops[|outcomes|]);
      PerformedNext(Setup(), start, ops, outcomes, answers, before, outcome, data);
      outcomes', answers' := outcomes + [outcome], answers + [data];
    }

    method Perform(op: Access) returns (outcome: Outcome, data: seq<Byte>)
      requires Valid()
      modifies this`guest, this`shards, this`mappings, this`stats, this`orders, this`attempts, this`nextHandle, this`history, this`tally
      ensures Valid() && Shaped(old(Lists())) && Reference() == Next(Setup(), old(Reference()), op)
      ensures outcome == OutcomeOf(Setup(), old(Lists()), op)
      ensures op.Read? && outcome.Done? ==> op.addr + op.len <= |old(guest)| && data == old(guest)[op.addr..op.addr + op.len]
    {
      hide Sound, Ranked, Balanced, Verdict, Accessed;
      ValidIsShaped();
      data, outcome := [], Done;
      match op {
        case Read(addr, len) =>
          var dest := new Byte[len](_ => 0);
          outcome := ReadFallback(addr, dest);
          data := dest[..];
        case Write(addr, src) => outcome := WriteFallback(addr, src);
        case Store(addr, src) => GuestStore(addr, src);
      }
    }
  }

  // ---------------------------------------------------------------- the reference

  /** What decides an access besides the cache. */
  datatype Config = Config(bound: bool, maxAddress: nat, hresults: seq<nat>)

  /** The recency list and the accesses of each shard, the create calls made, and the accesses
      counted by kind. */
  datatype Recency = Recency(orders: seq<seq<Key>>, history: seq<seq<Key>>, attempts: nat, tally: Tally)

  predicate Shaped(r: Recency) {
    |r.orders| == |r.history| == SHARDS
  }

  function KeyOf(addr: nat, len: nat, maxAddress: nat): Key
    requires Admitted(addr, len, maxAddress)
  {
    Key(BaseOf(addr), SpanOf(addr, len, maxAddress))
  }

  /** The platform's last answer if `key` is a miss. */
  function LastAnswer(r: Recency, key: Key, hresults: seq<nat>): nat
    requires Shaped(r)
  {
    var order := r.orders[ShardOf(key.base)];
    Answer(hresults, r.attempts + Retries(hresults, r.attempts, |Trimmed(order)|))
  }

  /** Served from the list, or granted by the platform. */
  predicate Granted(r: Recency, key: Key, hresults: seq<nat>)
    requires Shaped(r)
  {
    key in r.orders[ShardOf(key.base)] || Succeeded(LastAnswer(r, key, hresults))
  }

  /** The lists after an admitted access. */
  function Used(r: Recency, key: Key, hresults: seq<nat>): (r': Recency)
    requires Shaped(r)
    ensures Shaped(r')
  {
    var i := ShardOf(key.base);
    var order := r.orders[i];
    Recency(r.orders[i := AfterAccess(order, key, hresults, r.attempts)],
            r.history[i := r.history[i] + [key]],
            if key in order then r.attempts else r.attempts + 1 + Retries(hresults, r.attempts, |Trimmed(order)|),
            r.tally.(admitted := r.tally.admitted + 1))
  }

  function Accessed(c: Config, r: Recency, addr: nat, len: nat): (r': Recency)
    requires Shaped(r)
    ensures Shaped(r')
  {
    if !c.bound then r.(tally := r.tally.(unbound := r.tally.unbound + 1))
    else if !Admitted(addr, len, c.maxAddress) then r.(tally := r.tally.(outOfRange := r.tally.outOfRange + 1))
    else Used(r, KeyOf(addr, len, c.maxAddress), c.hresults)
  }

  /** Why an access is refused, if it is. */
  function Refusal(c: Config, r: Recency, addr: nat, len: nat): Option<Error>
    requires Shaped(r)
  {
    if !c.bound then Some(NotBound)
    else if !Admitted(addr, len, c.maxAddress) then Some(BadRange)
    else
      var key := KeyOf(addr, len, c.maxAddress);
      if Granted(r, key, c.hresults) then None else Some(ApertureFailed(LastAnswer(r, key, c.hresults)))
  }

  /** The outcome of an access: refused, done, or outside its mapping. */
  function Verdict(c: Config, r: Recency, addr: nat, len: nat): Outcome
    requires Shaped(r)
  {
    var refusal := Refusal(c, r, addr, len);
    if refusal.Some? then Failed(refusal.value)
    else if PageSpan(addr, len, c.maxAddress) < U32 then Done
    else Wild
  }

  /** Flat memory and the lists. */
  datatype Model = Model(guest: seq<Byte>, lists: Recency)

  function OutcomeOf(c: Config, r: Recency, op: Access): Outcome
    requires Shaped(r)
  {
    if op.Store? then Done else Verdict(c, r, op.addr, op.Size())
  }

  function Next(c: Config, m: Model, op: Access): (m': Model)
    requires Shaped(m.lists)
    ensures Shaped(m'.lists)
  {
    Model(FlatStep(m.guest, op, OutcomeOf(c, m.lists, op)),
          if op.Store? then m.lists else Accessed(c, m.lists, op.addr, op.Size()))
  }

  /** The reference after the first `n` operations. */
  function After(c: Config, m: Model, ops: seq<Access>, n: nat): (m': Model)
    requires Shaped(m.lists) && n <= |ops|
    ensures Shaped(m'.lists)
  {
    if n == 0 then m else Next(c, After(c, m, ops, n - 1), ops[n - 1])
  }

  /** How an operation ends and what it does to the lists, said in plain numbers. A key that is
      listed is served and asks the platform nothing. Otherwise the platform is asked until it
      says anything but 0x80070718, or no entry is left to drop for that answer; the access is
      refused exactly if the last answer is 0x80000000 or above, and with that answer. One entry
      is dropped first in a list of 64, one for each repeated answer, and no other. */
  ghost predicate AsTold(c: Config, before: Recency, op: Access, outcome: Outcome, after: Recency)
    requires Shaped(before) && Shaped(after)
  {
    if op.Store? then outcome == Done && after == before
    else if !c.bound then outcome == Failed(NotBound) && after.orders == before.orders && after.attempts == before.attempts
    else if op.addr + op.Size() >= 0x1_0000_0000_0000_0000 || op.addr + op.Size() > c.maxAddress then
      outcome == Failed(BadRange) && after.orders == before.orders && after.attempts == before.attempts
    else
      var i, key := op.addr / 4096 % 16, KeyOf(op.addr, op.Size(), c.maxAddress);
      && (forall j :: 0 <= j < 16 && j != i ==> after.orders[j] == before.orders[j])
      && (!outcome.Failed? ==> (outcome == Done <==> PageSpan(op.addr, op.Size(), c.maxAddress) < 0x1_0000_0000))
      && if key in before.orders[i] then !outcome.Failed? && after.attempts == before.attempts && MovedLast(before.orders[i], key, after.orders[i])
         else Missed(c.hresults, before.orders[i], key, before.attempts, outcome, after.orders[i], after.attempts)
  }

  /** `key` went to the end and the others stayed as they were. */
  ghost predicate MovedLast(order: seq<Key>, key: Key, order': seq<Key>) {
    exists p :: 0 <= p < |order| && order[p] == key && order' == order[..p] + order[p + 1..] + [key]
  }

  /** The answers from `first` to before `last` are all listed, and all the quota's. */
  predicate AllQuota(hresults: seq<nat>, first: nat, last: nat) {
    (first < last ==> last <= |hresults|) && forall i :: first <= i < last && i < |hresults| ==> hresults[i] == 0x8007_0718
  }

  ghost predicate Missed(hresults: seq<nat>, order: seq<Key>, key: Key, attempts: nat, outcome: Outcome, order': seq<Key>, attempts': nat) {
    var kept := if |order| < 64 then order else order[1..];
    && attempts < attempts' <= attempts + |kept| + 1
    && AllQuota(hresults, attempts, attempts' - 1)
    && var h := if attempts' - 1 < |hresults| then hresults[attempts' - 1] else 0;
    && (outcome.Failed? <==> h >= 0x8000_0000) && (outcome.Failed? ==> outcome == Failed(ApertureFailed(h)))
    && (h == 0x8007_0718 ==> attempts' == attempts + |kept| + 1)
    && order' == kept[attempts' - 1 - attempts..] + if outcome.Failed? then [] else [key]
  }

  lemma MissInNumbers(hresults: seq<nat>, order: seq<Key>, key: Key, attempts: nat, outcome: Outcome)
    requires var last := Answer(hresults, attempts + Retries(hresults, attempts, |Trimmed(order)|));
      if Succeeded(last) then !outcome.Failed? else outcome == Failed(ApertureFailed(last))
    ensures Missed(hresults, order, key, attempts, outcome, Miss(order, key, hresults, attempts),
                   attempts + 1 + Retries(hresults, attempts, |Trimmed(order)|))
  {
    var kept := Trimmed(order);
    var n := Retries(hresults, attempts, |kept|);
    RetriesAreRefusals(hresults, attempts, |kept|, attempts + n);
    forall i | attempts <= i < attempts + n
      ensures Answer(hresults, i) == 0x8007_0718
    {
      RetriesAreRefusals(hresults, attempts, |kept|, i);
    }
    QuotaAnswers(hresults, attempts, attempts + n);
    hide Retries, AllQuota;
    MissIsMissed(hresults, order, kept, key, attempts, n, outcome, Miss(order, key, hresults, attempts));
  }

  lemma QuotaAnswers(hresults: seq<nat>, first: nat, last: nat)
    requires forall i :: first <= i < last ==> Answer(hresults, i) == 0x8007_0718
    ensures AllQuota(hresults, first, last)
  {
    if first < last {
      assert Answer(hresults, last - 1) == 0x8007_0718;
    }
    forall i | first <= i < last && i < |hresults|
      ensures hresults[i] == 0x8007_0718
    {
      assert Answer(hresults, i) == 0x8007_0718;
    }
  }

  lemma MissIsMissed(hresults: seq<nat>, order: seq<Key>, kept: seq<Key>, key: Key, attempts: nat, n: nat, outcome: Outcome, order': seq<Key>)
    requires kept == (if |order| < 64 then order else order[1..]) && n <= |kept|
    requires AllQuota(hresults, attempts, attempts + n)
    requires var last := if attempts + n < |hresults| then hresults[attempts + n] else 0;
      && (if last < 0x8000_0000 then !outcome.Failed? else outcome == Failed(ApertureFailed(last)))
      && (last == 0x8007_0718 ==> n == |kept|)
    requires order' == kept[n..] + if outcome.Failed? then [] else [key]
    ensures Missed(hresults, order, key, attempts, outcome, order', attempts + 1 + n)
  {
    assert attempts + 1 + n - 1 - attempts == n && attempts + 1 + n - 1 == attempts + n;
  }

  lemma RefusalInNumbers(c: Config, r: Recency, addr: nat, len: nat)
    requires Shaped(r) && c.bound && Admitted(addr, len, c.maxAddress) && KeyOf(addr, len, c.maxAddress) !in r.orders[addr / 4096 % 16]
    ensures var attempts := Accessed(c, r, addr, len).attempts;
      && r.attempts < attempts
      && var h := if attempts - 1 < |c.hresults| then c.hresults[attempts - 1] else 0;
      && (Refusal(c, r, addr, len).Some? <==> h >= 0x8000_0000)
      && (h >= 0x8000_0000 ==> Refusal(c, r, addr, len).value == ApertureFailed(h))
  {
    PageOfBase(addr);
    hide Retries, AfterAccess;
  }

  /** A page and its base are routed to the shard of the page's number, modulo sixteen. */
  lemma PageOfBase(addr: nat)
    ensures ShardOf(BaseOf(addr)) == addr / 4096 % 16
  {
  }

  lemma VerdictIsAsTold(c: Config, r: Recency, op: Access)
    requires Shaped(r)
    ensures AsTold(c, r, op, OutcomeOf(c, r, op), if op.Store? then r else Accessed(c, r, op.addr, op.Size()))
  {
    if !op.Store? && c.bound && Admitted(op.addr, op.Size(), c.maxAddress) {
      PageOfBase(op.addr);
      var key := KeyOf(op.addr, op.Size(), c.maxAddress);
      var order := r.orders[ShardOf(key.base)];
      if key in order {
        RefreshMovesLast(order, key);
      } else {
        MissInNumbers(c.hresults, order, key, r.attempts, OutcomeOf(c, r, op));
      }
      hide Missed, MovedLast, Miss, Retries, Refresh;
    }
  }

  lemma RefreshMovesLast(order: seq<Key>, key: Key)
    requires key in order
    ensures MovedLast(order, key, Refresh(order, key))
  {
    var p := IndexOf(order, key);
    assert Refresh(order, key) == RemoveAt(order, p) + [key];
    assert RemoveAt(order, p) == order[..p] + order[p + 1..];
    hide Refresh, IndexOf, RemoveAt;
  }

  /** Operation `i` ended as it does in the reference, and a completed read returned what flat
      memory held at that moment. */
  ghost predicate Answers(c: Config, m: Model, ops: seq<Access>, i: nat, outcome: Outcome, data: seq<Byte>)
    requires Shaped(m.lists) && i < |ops|
  {
    var now := After(c, m, ops, i);
    && outcome == OutcomeOf(c, now.lists, ops[i]) && AsTold(c, now.lists, ops[i], outcome, After(c, m, ops, i + 1).lists)
    && (ops[i].Read? && outcome.Done? ==>
          ops[i].addr + ops[i].len <= |now.guest| && data == now.guest[ops[i].addr..ops[i].addr + ops[i].len])
  }

  /** What holds after the operations whose outcomes and answers are listed. */
  ghost predicate Performed(c: Config, m: Model, ops: seq<Access>, outcomes: seq<Outcome>, answers: seq<seq<Byte>>, now: Model) {
    && Shaped(m.lists) && |outcomes| == |answers| <= |ops| && now == After(c, m, ops, |outcomes|)
    && forall i :: 0 <= i < |outcomes| ==> Answers(c, m, ops, i, outcomes[i], answers[i])
  }

  lemma NothingPerformed(c: Config, m: Model, ops: seq<Access>)
    requires Shaped(m.lists)
    ensures Performed(c, m, ops, [], [], m)
  {
  }

  lemma PerformedNext(c: Config, m: Model, ops: seq<Access>, outcomes: seq<Outcome>, answers: seq<seq<Byte>>,
                      now: Model, outcome: Outcome, data: seq<Byte>)
    requires Performed(c, m, ops, outcomes, answers, now) && |outcomes| < |ops| && Shaped(now.lists)
    requires var op := ops[|outcomes|];
      && outcome == OutcomeOf(c, now.lists, op)
      && (op.Read? && outcome.Done? ==> op.addr + op.len <= |now.guest| && data == now.guest[op.addr..op.addr + op.len])
    ensures Performed(c, m, ops, outcomes + [outcome], answers + [data], Next(c, now, ops[|outcomes|]))
  {
    hide OutcomeOf, Next, After, Answers, AsTold;
    NextAnswers(c, m, ops, |outcomes|, now, outcome, data);
    PerformedMore(c, m, ops, outcomes, answers, outcome, data, Next(c, now, ops[|outcomes|]));
  }

  lemma PerformedMore(c: Config, m: Model, ops: seq<Access>, outcomes: seq<Outcome>, answers: seq<seq<Byte>>,
                      outcome: Outcome, data: seq<Byte>, next: Model)
    requires Shaped(m.lists) && |outcomes| == |answers| < |ops| && next == After(c, m, ops, |outcomes| + 1)
    requires forall i :: 0 <= i < |outcomes| ==> Answers(c, m, ops, i, outcomes[i], answers[i])
    requires Answers(c, m, ops, |outcomes|, outcome, data)
    ensures Performed(c, m, ops, outcomes + [outcome], answers + [data], next)
  {
    hide After, Answers;
  }

  /** The next operation, done as the reference does it, is answered as it should be. */
  lemma NextAnswers(c: Config, m: Model, ops: seq<Access>, i: nat, now: Model, outcome: Outcome, data: seq<Byte>)
    requires Shaped(m.lists) && i < |ops| && now == After(c, m, ops, i) && outcome == OutcomeOf(c, now.lists, ops[i])
    requires ops[i].Read? && outcome.Done? ==>
      ops[i].addr + ops[i].len <= |now.guest| && data == now.guest[ops[i].addr..ops[i].addr + ops[i].len]
    ensures After(c, m, ops, i + 1) == Next(c, now, ops[i]) && Answers(c, m, ops, i, outcome, data)
  {
    hide OutcomeOf, AsTold, FlatStep, Accessed;
    VerdictIsAsTold(c, now.lists, ops[i]);
    assert After(c, m, ops, i + 1) == Next(c, now, ops[i]);
    assert Next(c, now, ops[i]).lists == if ops[i].Store? then now.lists else Accessed(c, now.lists, ops[i].addr, ops[i].Size());
    hide After, Next;
  }

  lemma PerformedAll(c: Config, m: Model, ops: seq<Access>, outcomes: seq<Outcome>, answers: seq<seq<Byte>>, now: Model)
    requires Performed(c, m, ops, outcomes, answers, now) && |outcomes| >= |ops|
    ensures |outcomes| == |answers| == |ops| && Shaped(m.lists) && now == After(c, m, ops, |ops|)
    ensures forall i :: 0 <= i < |ops| ==> Answers(c, m, ops, i, outcomes[i], answers[i])
    ensures now.lists.tally.admitted == m.lists.tally.admitted + |AdmittedKeys(c, ops, |ops|)|
    ensures forall i :: 0 <= i < SHARDS ==> now.lists.history[i] == m.lists.history[i] + InShard(AdmittedKeys(c, ops, |ops|), i)
  {
    HistoryIsAdmitted(c, m, ops, |ops|);
    hide After, Answers, AdmittedKeys, InShard;
  }

  predicate IsAdmitted(c: Config, op: Access) {
    !op.Store? && c.bound && Admitted(op.addr, op.Size(), c.maxAddress)
  }

  /** The keys of the admitted accesses among the first `n` operations. */
  function AdmittedKeys(c: Config, ops: seq<Access>, n: nat): seq<Key>
    requires n <= |ops|
  {
    if n == 0 then []
    else
      var op := ops[n - 1];
      AdmittedKeys(c, ops, n - 1) + if IsAdmitted(c, op) then [KeyOf(op.addr, op.Size(), c.maxAddress)] else []
  }

  function InShard(keys: seq<Key>, i: nat): seq<Key> {
    if keys == [] then []
    else
      var n := |keys| - 1;
      InShard(keys[..n], i) + if ShardOf(keys[n].base) == i then [keys[n]] else []
  }

  lemma InShardSnoc(keys: seq<Key>, k: Key, i: nat)
    ensures InShard(keys + [k], i) == InShard(keys, i) + if ShardOf(k.base) == i then [k] else []
  {
    assert (keys + [k])[..|keys|] == keys;
  }

  lemma UsedGrowsHistory(start: seq<seq<Key>>, r: Recency, keys: seq<Key>, k: Key, hresults: seq<nat>)
    requires Shaped(r) && |start| == SHARDS && forall i :: 0 <= i < SHARDS ==> r.history[i] == start[i] + InShard(keys, i)
    ensures forall i :: 0 <= i < SHARDS ==> Used(r, k, hresults).history[i] == start[i] + InShard(keys + [k], i)
  {
    forall i | 0 <= i < SHARDS
      ensures Used(r, k, hresults).history[i] == start[i] + InShard(keys + [k], i)
    {
      InShardSnoc(keys, k, i);
      hide InShard;
      assert start[i] + InShard(keys, i) + [k] == start[i] + (InShard(keys, i) + [k]);
    }
  }

  /** The histories are the admitted accesses, each in its shard and in order, and their
      number is what is counted as admitted. */
  lemma {:induction false} HistoryIsAdmitted(c: Config, m: Model, ops: seq<Access>, n: nat)
    requires Shaped(m.lists) && n <= |ops|
    ensures var now := After(c, m, ops, n).lists;
      && now.tally.admitted == m.lists.tally.admitted + |AdmittedKeys(c, ops, n)|
      && forall i :: 0 <= i < SHARDS ==> now.history[i] == m.lists.history[i] + InShard(AdmittedKeys(c, ops, n), i)
  {
    if n > 0 {
      HistoryIsAdmitted(c, m, ops, n - 1);
      var keys, op := AdmittedKeys(c, ops, n - 1), ops[n - 1];
      if IsAdmitted(c, op) {
        UsedGrowsHistory(m.lists.history, After(c, m, ops, n - 1).lists, keys, KeyOf(op.addr, op.Size(), c.maxAddress), c.hresults);
      } else {
        assert keys + [] == keys;
      }
    }
  }

  /** Flat memory with `data` at `addr`; what does not fit changes nothing. */
  function Patched(guest: seq<Byte>, addr: nat, data: seq<Byte>): (r: seq<Byte>)
    ensures |r| == |guest|
  {
    if addr + |data| <= |guest| then guest[..addr] + data + guest[addr + |data|..] else guest
  }

  /** The first `j` bytes of `src` are in. */
  function PatchedTo(guest: seq<Byte>, from: nat, src: seq<Byte>, j: nat): (r: seq<Byte>)
    requires j <= |src| && from + |src| <= |guest|
    ensures |r| == |guest|
  {
    guest[..from] + src[..j] + guest[from + j..]
  }

  lemma PatchNext(guest: seq<Byte>, from: nat, src: seq<Byte>, j: nat)
    requires j < |src| && from + |src| <= |guest|
    ensures PatchedTo(guest, from, src, j + 1) == PatchedTo(guest, from, src, j)[from + j := src[j]]
  {
  }

  datatype Access = Read(addr: nat, len: nat) | Write(addr: nat, data: seq<Byte>) | Store(addr: nat, data: seq<Byte>) {
    function Size(): nat { if Read? then len else |data| }
  }

  /** Flat memory: what one access does to it, given whether it completed. */
  function FlatStep(guest: seq<Byte>, op: Access, outcome: Outcome): seq<Byte> {
    if op.Store? || (op.Write? && outcome.Done?) then Patched(guest, op.addr, op.data) else guest
  }

  function CountOp(enabled: bool, s: Stats): Stats {
    if enabled then s.(ops := s.ops + 1) else s
  }

  /** An access keeps every list ordered by last use. */
  lemma AccessIsRanked(enabled: bool, c: Cache, history: seq<seq<Key>>, key: Key, hresults: seq<nat>, attempt: nat)
    requires Sound(enabled, c) && Ranked(c.orders, history)
    ensures var i := ShardOf(key.base);
            && i < |c.orders| == |history| == SHARDS
            && Ranked(c.orders[i := AfterAccess(c.orders[i], key, hresults, attempt)], history[i := history[i] + [key]])
            && (key in c.orders[i] ==> AfterAccess(c.orders[i], key, hresults, attempt) == Refresh(c.orders[i], key))
  {
    hide Linked, Total, Retries, Trimmed;
    var i := ShardOf(key.base);
    var order := c.orders[i];
    assert Lists(c.shards[i], order) && ByLastUse(order, history[i]);
    ListsIsExact(c.shards[i], order);
    if key in order {
      RefreshKeepsOrder(order, history[i], key);
    } else {
      MissKeepsOrder(order, history[i], key, hresults, attempt);
    }
    hide *;
    RankedAfter(c.orders, history, i, AfterAccess(order, key, hresults, attempt), history[i] + [key]);
  }

  /** The recency list of a shard after an access to `key`. */
  function AfterAccess(order: seq<Key>, key: Key, hresults: seq<nat>, attempt: nat): seq<Key> {
    if key in order then Refresh(order, key) else Miss(order, key, hresults, attempt)
  }

  /** The counters of accesses and their outcomes agree; only evictions may differ. */
  predicate SameOutcomes(enabled: bool, s: Stats, s': Stats) {
    enabled ==>
      && s'.ops == s.ops && s'.hits == s.hits && s'.creates == s.creates && s'.createFails == s.createFails
      && s'.notBound == s.notBound && s'.badRange == s.badRange
  }

  /** The calls repeated for one access, given the create calls made before and after it. */
  function Repeats(attempts: nat, attempts': nat): nat {
    if attempts < attempts' then attempts' - attempts - 1 else 0
  }

  /** Every repeated call was counted, and the peak is the highest number of live mappings so far. */
  predicate Peaks(enabled: bool, s: Stats, s': Stats, repeats: int) {
    enabled ==>
      && s'.quotaRetries == s.quotaRetries + repeats
      && s'.peakLive == if s'.live > s.peakLive then s'.live else s.peakLive
  }

  lemma PeakIsReached(enabled: bool, c: Cache)
    requires Sound(enabled, c)
    ensures enabled ==> c.stats.live <= c.stats.peakLive
  {
    hide Recent, Linked, Total;
  }

  /** An access was counted once: as a hit or a create if it was served, else as a failure. */
  predicate OneOutcome(enabled: bool, s: Stats, s': Stats, served: bool) {
    enabled ==>
      && s'.ops == s.ops
      && s'.hits + s'.creates == s.hits + s.creates + (if served then 1 else 0)
      && s'.createFails == s.createFails + (if served then 0 else 1)
      && s'.notBound == s.notBound && s'.badRange == s.badRange
  }

  function CountFail(enabled: bool, s: Stats): Stats {
    if enabled then s.(createFails := s.createFails + 1) else s
  }

  function CountHit(enabled: bool, s: Stats): Stats {
    if enabled then s.(hits := s.hits + 1) else s
  }

  lemma CountFailIsSound(enabled: bool, c: Cache)
    requires Sound(enabled, c)
    ensures Sound(enabled, c.(stats := CountFail(enabled, c.stats)))
  {
    hide Recent, Linked, Total;
  }

  lemma CountHitIsSound(enabled: bool, c: Cache)
    requires Sound(enabled, c)
    ensures Sound(enabled, c.(stats := CountHit(enabled, c.stats)))
  {
    hide Recent, Linked, Total;
  }

  lemma MissAssembles(orders: seq<seq<Key>>, i: nat, key: Key, hresults: seq<nat>, first: nat, granted: bool)
    requires i < |orders| && |orders[i]| <= PER_SHARD_MAX
    requires granted == Succeeded(Answer(hresults, first + Retries(hresults, first, |Trimmed(orders[i])|)))
    ensures var kept := Trimmed(orders[i]);
            var n := Retries(hresults, first, |kept|);
            && orders[i := kept][i := kept[n..] + if granted then [key] else []] == orders[i := Miss(orders[i], key, hresults, first)]
            && Attempts(orders[i], hresults, first) == n + 1
  {
  }

  lemma EmptyTotal(shards: seq<Shard>)
    requires forall sh <- shards :: sh.cache == map[]
    ensures Total(shards) == 0
  {
  }

  /** The key with the smallest stamp. */
  method FindOldest(sh: Shard) returns (oldest: Key)
    requires sh.cache != map[]
    ensures oldest in sh.cache
    ensures forall k :: k in sh.cache ==> sh.cache[oldest].lastUsed <= sh.cache[k].lastUsed
  {
    oldest :| oldest in sh.cache;
    var rest := sh.cache.Keys;
    while rest != {}
      invariant oldest in sh.cache && rest <= sh.cache.Keys
      invariant forall k :: k in sh.cache && k !in rest ==> sh.cache[oldest].lastUsed <= sh.cache[k].lastUsed
      decreases rest
    {
      var k :| k in rest;
      if sh.cache[k].lastUsed < sh.cache[oldest].lastUsed {
        oldest := k;
      }
      rest := rest - {k};
    }
  }
}
