/**
 The whole cache as values: sixteen shards, the platform's table of live mappings, the
 counters, and what ties them together.
 */
module ApertureLinks {
  import opened ApertureShard

  // ---------------------------------------------------------------- shards and mappings

  /** The shards and the platform's table describe the same mappings: a cached entry sits in
      the shard of its base and its handle is live over exactly the requested range, and
      every live mapping is cached. */
  predicate Linked(shards: seq<Shard>, mappings: map<nat, Key>, nextHandle: nat) {
    && |shards| == SHARDS
    && (forall i, k :: 0 <= i < SHARDS && k in shards[i].cache ==> Cached(shards[i], mappings, i, k))
    && (forall h :: h in mappings ==> h < nextHandle && Owned(shards, mappings, h))
  }

  predicate Cached(sh: Shard, mappings: map<nat, Key>, i: nat, k: Key)
    requires k in sh.cache
  {
    var h := sh.cache[k].handle;
    ShardOf(k.base) == i && h in mappings && mappings[h] == k
  }

  predicate Owned(shards: seq<Shard>, mappings: map<nat, Key>, h: nat)
    requires |shards| == SHARDS && h in mappings
  {
    var k := mappings[h];
    k in shards[ShardOf(k.base)].cache && shards[ShardOf(k.base)].cache[k].handle == h
  }

  lemma EvictLinks(shards: seq<Shard>, mappings: map<nat, Key>, nextHandle: nat, i: nat, k: Key)
    requires Linked(shards, mappings, nextHandle) && i < SHARDS && k in shards[i].cache
    ensures var sh := shards[i];
            Linked(shards[i := sh.(cache := sh.cache - {k})], mappings - {sh.cache[k].handle}, nextHandle)
  {
    var sh := shards[i];
    var shards', mappings' := shards[i := sh.(cache := sh.cache - {k})], mappings - {sh.cache[k].handle};
    assert Cached(sh, mappings, i, k);
    forall j, x | 0 <= j < SHARDS && x in shards'[j].cache
      ensures Cached(shards'[j], mappings', j, x)
    {
      assert Cached(shards[j], mappings, j, x);
    }
    forall h | h in mappings'
      ensures Owned(shards', mappings', h)
    {
      assert Owned(shards, mappings, h);
    }
  }

  lemma InsertLinks(shards: seq<Shard>, mappings: map<nat, Key>, nextHandle: nat, k: Key, stamp: nat)
    requires Linked(shards, mappings, nextHandle)
    requires var i := ShardOf(k.base); i < SHARDS && k !in shards[i].cache
    ensures var i := ShardOf(k.base); var sh := shards[i];
            Linked(shards[i := sh.(cache := sh.cache[k := Entry(nextHandle, stamp)])], mappings[nextHandle := k], nextHandle + 1)
  {
    var i := ShardOf(k.base);
    var sh := shards[i];
    var shards', mappings' := shards[i := sh.(cache := sh.cache[k := Entry(nextHandle, stamp)])], mappings[nextHandle := k];
    forall j, x | 0 <= j < SHARDS && x in shards'[j].cache
      ensures Cached(shards'[j], mappings', j, x)
    {
      if j != i || x != k {
        assert Cached(shards[j], mappings, j, x);
      }
    }
    forall h | h in mappings'
      ensures Owned(shards', mappings', h)
    {
      if h != nextHandle {
        assert Owned(shards, mappings, h);
      }
    }
  }

  /** New stamps and clocks change nothing about the mappings. */
  predicate SameEntries(sh: Shard, sh': Shard) {
    sh'.cache.Keys == sh.cache.Keys && forall k :: k in sh.cache ==> sh'.cache[k].handle == sh.cache[k].handle
  }

  lemma RestampLinks(shards: seq<Shard>, mappings: map<nat, Key>, nextHandle: nat, i: nat, sh: Shard)
    requires Linked(shards, mappings, nextHandle) && i < SHARDS && SameEntries(shards[i], sh)
    ensures Linked(shards[i := sh], mappings, nextHandle)
  {
    var shards' := shards[i := sh];
    forall j, x | 0 <= j < SHARDS && x in shards'[j].cache
      ensures Cached(shards'[j], mappings, j, x)
    {
      assert x in shards[j].cache && Cached(shards[j], mappings, j, x);
    }
    forall h | h in mappings
      ensures Owned(shards', mappings, h)
    {
      assert Owned(shards, mappings, h);
    }
  }

  // ---------------------------------------------------------------- entries and counters

  function Total(shards: seq<Shard>): nat {
    if shards == [] then 0 else |shards[0].cache| + Total(shards[1..])
  }

  lemma {:induction false} TotalAfter(shards: seq<Shard>, i: nat, sh: Shard)
    requires i < |shards|
    ensures Total(shards[i := sh]) + |shards[i].cache| == Total(shards) + |sh.cache|
  {
    if i == 0 {
      assert shards[i := sh][1..] == shards[1..];
    } else {
      assert shards[i := sh][1..] == shards[1..][i - 1 := sh];
      TotalAfter(shards[1..], i - 1, sh);
    }
  }

  lemma {:induction false} TotalIsBounded(shards: seq<Shard>)
    requires forall sh <- shards :: |sh.cache| <= PER_SHARD_MAX
    ensures Total(shards) <= PER_SHARD_MAX * |shards|
  {
    if shards != [] {
      TotalIsBounded(shards[1..]);
    }
  }

  /** The diagnostic counters. `live` is an `int` so that an underflow would be visible. */
  datatype Stats = Stats(
    ops: nat, hits: nat, creates: nat, evicts: nat, quotaRetries: nat, createFails: nat,
    badRange: nat, notBound: nat, live: int, peakLive: nat)

  const NO_STATS := Stats(0, 0, 0, 0, 0, 0, 0, 0, 0, 0)

  /** What ties the counters to the cache at any moment: `live` counts the cached entries,
      and every quota retry is an eviction. When disabled, nothing is counted. */
  predicate Tallied(enabled: bool, s: Stats, total: nat) {
    if enabled then
      && s.live == s.creates - s.evicts == total
      && s.quotaRetries <= s.evicts
      && s.live <= s.peakLive
    else s == NO_STATS
  }

  /** The accesses so far: admitted, made before the device was bound, and out of range. */
  datatype Tally = Tally(admitted: nat, unbound: nat, outOfRange: nat)

  /** What holds between accesses: every admitted access was a hit, a create or a create
      failure, every one that copied was counted, and so was every other one. */
  predicate Balanced(enabled: bool, s: Stats, tally: Tally) {
    enabled ==>
      && s.hits + s.creates + s.createFails == tally.admitted && s.ops == s.hits + s.creates
      && s.notBound == tally.unbound && s.badRange == tally.outOfRange
  }

  // ---------------------------------------------------------------- recency of all shards

  ghost predicate Recent(shards: seq<Shard>, orders: seq<seq<Key>>) {
    && |shards| == |orders| == SHARDS
    && forall i :: 0 <= i < SHARDS ==> Lists(shards[i], orders[i]) && |orders[i]| <= PER_SHARD_MAX
  }

  ghost predicate Ranked(orders: seq<seq<Key>>, history: seq<seq<Key>>) {
    && |orders| == |history| == SHARDS
    && forall i :: 0 <= i < SHARDS ==> ByLastUse(orders[i], history[i])
  }

  lemma RecentAfter(shards: seq<Shard>, orders: seq<seq<Key>>, i: nat, sh: Shard, order: seq<Key>)
    requires Recent(shards, orders) && i < SHARDS && Lists(sh, order) && |order| <= PER_SHARD_MAX
    ensures Recent(shards[i := sh], orders[i := order])
  {
  }

  lemma RankedAfter(orders: seq<seq<Key>>, history: seq<seq<Key>>, i: nat, order: seq<Key>, uses: seq<Key>)
    requires Ranked(orders, history) && i < SHARDS && ByLastUse(order, uses)
    ensures Ranked(orders[i := order], history[i := uses])
  {
  }

  /** Evicting the head of a shard's list keeps the cache consistent, with one entry less. */
  lemma EvictionIsConsistent(shards: seq<Shard>, orders: seq<seq<Key>>, mappings: map<nat, Key>, nextHandle: nat, i: nat)
    requires Recent(shards, orders) && Linked(shards, mappings, nextHandle) && i < SHARDS && orders[i] != []
    ensures orders[i][0] in shards[i].cache
    ensures var sh, k := shards[i], orders[i][0];
            var shards' := shards[i := sh.(cache := sh.cache - {k})];
            && Recent(shards', orders[i := orders[i][1..]])
            && Linked(shards', mappings - {sh.cache[k].handle}, nextHandle)
            && Total(shards') == Total(shards) - 1
  {
    hide Linked, Total;
    var sh, k := shards[i], orders[i][0];
    assert Lists(sh, orders[i]) && k in orders[i];
    hide *;
    EvictDropsHead(sh, orders[i]);
    RecentAfter(shards, orders, i, sh.(cache := sh.cache - {k}), orders[i][1..]);
    EvictLinks(shards, mappings, nextHandle, i, k);
    TotalAfter(shards, i, sh.(cache := sh.cache - {k}));
    OneLess(sh.cache, k);
  }

  lemma OneLess(cache: map<Key, Entry>, k: Key)
    requires k in cache
    ensures |cache - {k}| == |cache| - 1
  {
    assert cache.Keys == (cache - {k}).Keys + {k};
  }

  lemma RestampIsConsistent(shards: seq<Shard>, orders: seq<seq<Key>>, mappings: map<nat, Key>, nextHandle: nat, i: nat, sh: Shard, order: seq<Key>)
    requires Recent(shards, orders) && Linked(shards, mappings, nextHandle) && i < SHARDS
    requires SameEntries(shards[i], sh) && Lists(sh, order) && |order| <= PER_SHARD_MAX
    ensures Recent(shards[i := sh], orders[i := order]) && Linked(shards[i := sh], mappings, nextHandle)
    ensures Total(shards[i := sh]) == Total(shards)
  {
    assert |sh.cache| == |sh.cache.Keys| == |shards[i].cache|;
    hide *;
    RecentAfter(shards, orders, i, sh, order);
    RestampLinks(shards, mappings, nextHandle, i, sh);
    TotalAfter(shards, i, sh);
  }

  /** A use of a cached key restamps it and moves nothing else. */
  lemma TouchIsConsistent(shards: seq<Shard>, orders: seq<seq<Key>>, mappings: map<nat, Key>, nextHandle: nat, i: nat, k: Key)
    requires Recent(shards, orders) && Linked(shards, mappings, nextHandle) && i < SHARDS && k in shards[i].cache
    ensures var shards' := shards[i := Touch(shards[i], k)];
            && Recent(shards', orders[i := Refresh(orders[i], k)])
            && Linked(shards', mappings, nextHandle)
            && Total(shards') == Total(shards)
  {
    var sh, sh' := shards[i], Touch(shards[i], k);
    assert Lists(sh, orders[i]) && SameEntries(sh, sh') && k in orders[i];
    assert |Refresh(orders[i], k)| <= PER_SHARD_MAX;
    hide *;
    TouchRefreshes(sh, orders[i], k);
    RestampIsConsistent(shards, orders, mappings, nextHandle, i, sh', Refresh(orders[i], k));
  }

  function Ticked(sh: Shard): Shard {
    sh.(clock := sh.clock + 1)
  }

  lemma TickIsConsistent(shards: seq<Shard>, orders: seq<seq<Key>>, mappings: map<nat, Key>, nextHandle: nat, i: nat)
    requires Recent(shards, orders) && Linked(shards, mappings, nextHandle) && i < SHARDS
    ensures var shards' := shards[i := Ticked(shards[i])];
            && Recent(shards', orders) && Linked(shards', mappings, nextHandle) && Total(shards') == Total(shards)
            && StampsBelow(shards'[i])
  {
    var sh := shards[i];
    assert Lists(sh, orders[i]);
    TickKeepsList(sh, orders[i]);
    assert SameEntries(sh, Ticked(sh)) && StampsBelow(Ticked(sh));
    assert orders[i := orders[i]] == orders;
    hide *;
    RestampIsConsistent(shards, orders, mappings, nextHandle, i, Ticked(sh), orders[i]);
  }

  /** Every stamp is behind the clock, so that the clock can stamp a new entry. */
  predicate StampsBelow(sh: Shard) {
    forall k :: k in sh.cache ==> sh.cache[k].lastUsed < sh.clock
  }

  /** A new mapping for a key that is not cached, stamped with the clock. */
  function Inserted(sh: Shard, k: Key, handle: nat): Shard {
    sh.(cache := sh.cache[k := Entry(handle, sh.clock)])
  }

  lemma InsertIsConsistent(shards: seq<Shard>, orders: seq<seq<Key>>, mappings: map<nat, Key>, nextHandle: nat, k: Key)
    requires Recent(shards, orders) && Linked(shards, mappings, nextHandle)
    requires var i := ShardOf(k.base); i < SHARDS && k !in shards[i].cache && StampsBelow(shards[i]) && |orders[i]| < PER_SHARD_MAX
    ensures var i := ShardOf(k.base);
            var shards' := shards[i := Inserted(shards[i], k, nextHandle)];
            && Recent(shards', orders[i := orders[i] + [k]])
            && Linked(shards', mappings[nextHandle := k], nextHandle + 1)
            && Total(shards') == Total(shards) + 1
  {
    var i := ShardOf(k.base);
    var sh, sh' := shards[i], Inserted(shards[i], k, nextHandle);
    assert Lists(sh, orders[i]);
    InsertAppends(sh, orders[i], k, nextHandle);
    assert sh'.cache.Keys == sh.cache.Keys + {k};
    InsertLinks(shards, mappings, nextHandle, k, sh.clock);
    assert sh' == sh.(cache := sh.cache[k := Entry(nextHandle, sh.clock)]);
    hide *;
    RecentAfter(shards, orders, i, sh', orders[i] + [k]);
    TotalAfter(shards, i, sh');
  }

  // ---------------------------------------------------------------- the cache as a whole

  /** The whole cache at one moment. */
  datatype Cache = Cache(shards: seq<Shard>, orders: seq<seq<Key>>, mappings: map<nat, Key>, nextHandle: nat, stats: Stats)

  ghost predicate Sound(enabled: bool, c: Cache) {
    && Recent(c.shards, c.orders) && Linked(c.shards, c.mappings, c.nextHandle)
    && Tallied(enabled, c.stats, Total(c.shards))
  }

  /** What soundness says about one key. */
  lemma SoundKnows(enabled: bool, c: Cache, key: Key)
    requires Sound(enabled, c)
    ensures var i := ShardOf(key.base);
            && |c.shards| == |c.orders| == SHARDS && i < SHARDS
            && |c.shards[i].cache| == |c.orders[i]| <= PER_SHARD_MAX
            && (key in c.shards[i].cache <==> key in c.orders[i])
            && (key in c.shards[i].cache ==> var h := c.shards[i].cache[key].handle; h in c.mappings && c.mappings[h] == key)
  {
    var i := ShardOf(key.base);
    assert Lists(c.shards[i], c.orders[i]);
    ListsIsExact(c.shards[i], c.orders[i]);
    if key in c.shards[i].cache {
      assert Cached(c.shards[i], c.mappings, i, key);
    }
  }

  /** What every reachable state keeps: at most 1024 entries, each in the shard of its base,
      with stamps that are pairwise distinct and not ahead of the shard's clock, and counters
      that match. */
  lemma SoundBounds(enabled: bool, c: Cache)
    requires Sound(enabled, c)
    ensures |c.shards| == SHARDS && Total(c.shards) <= 1024
    ensures forall i, k :: 0 <= i < SHARDS && k in c.shards[i].cache ==> ShardOf(k.base) == i && c.shards[i].cache[k].lastUsed <= c.shards[i].clock
    ensures forall i, k, x :: 0 <= i < SHARDS && k in c.shards[i].cache && x in c.shards[i].cache && k != x ==>
              c.shards[i].cache[k].lastUsed != c.shards[i].cache[x].lastUsed
    ensures enabled ==> c.stats.live == c.stats.creates - c.stats.evicts == Total(c.shards) && c.stats.quotaRetries <= c.stats.evicts
  {
    forall i | 0 <= i < SHARDS
      ensures |c.shards[i].cache| <= PER_SHARD_MAX && StampsApart(c.shards[i])
    {
      assert Lists(c.shards[i], c.orders[i]);
      ListsIsExact(c.shards[i], c.orders[i]);
      ListedStampsApart(c.shards[i], c.orders[i]);
    }
    TotalIsBounded(c.shards);
    forall i, k | 0 <= i < SHARDS && k in c.shards[i].cache
      ensures ShardOf(k.base) == i
    {
      assert Cached(c.shards[i], c.mappings, i, k);
    }
    hide Recent, Linked, Total, Lists;
  }

  predicate StampsApart(sh: Shard) {
    && (forall k <- sh.cache :: sh.cache[k].lastUsed <= sh.clock)
    && forall k <- sh.cache, x <- sh.cache :: k != x ==> sh.cache[k].lastUsed != sh.cache[x].lastUsed
  }

  lemma ListedStampsApart(sh: Shard, order: seq<Key>)
    requires Lists(sh, order)
    ensures StampsApart(sh)
  {
    forall k <- sh.cache, x <- sh.cache
      ensures sh.cache[k].lastUsed <= sh.clock && (k != x ==> sh.cache[k].lastUsed != sh.cache[x].lastUsed)
    {
      var i, j := IndexOf(order, k), IndexOf(order, x);
    }
  }

  /** The entry with the smallest stamp is the least recently used one of its shard: every
      other cached key has been accessed since its last access. */
  lemma OldestIsLeastRecentlyUsed(enabled: bool, c: Cache, history: seq<seq<Key>>, i: nat, k: Key, x: Key)
    requires Sound(enabled, c) && Ranked(c.orders, history) && i < SHARDS
    requires k in c.shards[i].cache && x in c.shards[i].cache && k != x
    requires forall y :: y in c.shards[i].cache ==> c.shards[i].cache[k].lastUsed <= c.shards[i].cache[y].lastUsed
    ensures 0 <= LastUse(history[i], k) < LastUse(history[i], x)
  {
    assert Lists(c.shards[i], c.orders[i]) && ByLastUse(c.orders[i], history[i]);
    HeadIsOldest(c.shards[i], c.orders[i], k);
    var j := IndexOf(c.orders[i], x);
  }

  function Touched(c: Cache, i: nat, k: Key): Cache
    requires i < |c.shards| == |c.orders| && k in c.shards[i].cache
  {
    c.(shards := c.shards[i := Touch(c.shards[i], k)], orders := c.orders[i := Refresh(c.orders[i], k)])
  }

  lemma TouchIsSound(enabled: bool, c: Cache, i: nat, k: Key)
    requires Sound(enabled, c) && i < SHARDS && k in c.shards[i].cache
    ensures Sound(enabled, Touched(c, i, k))
  {
    hide Recent, Linked, Tallied, Total;
    TouchIsConsistent(c.shards, c.orders, c.mappings, c.nextHandle, i, k);
  }

  function TickedAt(c: Cache, i: nat): Cache
    requires i < |c.shards|
  {
    c.(shards := c.shards[i := Ticked(c.shards[i])])
  }

  lemma TickIsSound(enabled: bool, c: Cache, i: nat)
    requires Sound(enabled, c) && i < SHARDS
    ensures Sound(enabled, TickedAt(c, i)) && StampsBelow(TickedAt(c, i).shards[i])
  {
    hide Recent, Linked, Tallied, Total;
    TickIsConsistent(c.shards, c.orders, c.mappings, c.nextHandle, i);
  }

  function CountEvict(enabled: bool, s: Stats): Stats {
    if enabled then s.(evicts := s.evicts + 1, live := s.live - 1) else s
  }

  /** The cache after the entry of `k` in shard `i`, the head of its list, is dropped. */
  function Evicted(enabled: bool, c: Cache, i: nat, k: Key): Cache
    requires i < |c.shards| == |c.orders| && k in c.shards[i].cache && c.orders[i] != []
  {
    var sh := c.shards[i];
    Cache(c.shards[i := sh.(cache := sh.cache - {k})], c.orders[i := c.orders[i][1..]],
          c.mappings - {sh.cache[k].handle}, c.nextHandle, CountEvict(enabled, c.stats))
  }

  /** The entry with the smallest stamp is the head of the list, and dropping it is sound. */
  lemma EvictIsSound(enabled: bool, c: Cache, i: nat, k: Key)
    requires Sound(enabled, c) && i < SHARDS && k in c.shards[i].cache
    requires forall x :: x in c.shards[i].cache ==> c.shards[i].cache[k].lastUsed <= c.shards[i].cache[x].lastUsed
    ensures c.orders[i] != [] && k == c.orders[i][0]
    ensures Sound(enabled, Evicted(enabled, c, i, k))
  {
    hide Linked, Total;
    assert Lists(c.shards[i], c.orders[i]);
    hide Recent, Lists;
    HeadIsOldest(c.shards[i], c.orders[i], k);
    EvictionIsConsistent(c.shards, c.orders, c.mappings, c.nextHandle, i);
  }

  function CountCreate(enabled: bool, s: Stats): Stats {
    if !enabled then s
    else s.(creates := s.creates + 1, live := s.live + 1, peakLive := if s.live + 1 > s.peakLive then s.live + 1 else s.peakLive)
  }

  /** The cache with a fresh mapping for `k`. */
  function InsertedAt(enabled: bool, c: Cache, k: Key): Cache
    requires ShardOf(k.base) < |c.shards| == |c.orders|
  {
    var i := ShardOf(k.base);
    Cache(c.shards[i := Inserted(c.shards[i], k, c.nextHandle)], c.orders[i := c.orders[i] + [k]],
          c.mappings[c.nextHandle := k], c.nextHandle + 1, CountCreate(enabled, c.stats))
  }

  lemma InsertIsSound(enabled: bool, c: Cache, k: Key)
    requires Sound(enabled, c)
    requires var i := ShardOf(k.base);
             i < SHARDS && k !in c.shards[i].cache && StampsBelow(c.shards[i]) && |c.orders[i]| < PER_SHARD_MAX
    ensures Sound(enabled, InsertedAt(enabled, c, k))
  {
    hide Recent, Linked, Total, Inserted;
    InsertIsConsistent(c.shards, c.orders, c.mappings, c.nextHandle, k);
  }

  // ---------------------------------------------------------------- the retry loop

  /** `sh'` is `sh` with some entries gone. */
  predicate Shrunk(sh: Shard, sh': Shard) {
    sh'.clock == sh.clock && forall k :: k in sh'.cache ==> k in sh.cache && sh'.cache[k] == sh.cache[k]
  }

  function CountRetries(enabled: bool, s: Stats, n: nat): Stats {
    if enabled then s.(evicts := s.evicts + n, live := s.live - n, quotaRetries := s.quotaRetries + n) else s
  }

  /** One quota retry in shard `i`: the head of its list is gone. */
  ghost predicate RetriedOnce(enabled: bool, c: Cache, c': Cache, i: nat) {
    && i < |c.orders| && i < |c.shards| == |c'.shards| && c.orders[i] != []
    && c'.orders == c.orders[i := c.orders[i][1..]]
    && Shrunk(c.shards[i], c'.shards[i])
    && c'.stats == CountRetries(enabled, c.stats, 1)
  }

  /** `n` quota retries in shard `i`: its `n` oldest entries are gone. */
  ghost predicate AfterRetries(enabled: bool, c: Cache, c': Cache, i: nat, n: nat) {
    && i < |c.orders| && i < |c.shards| == |c'.shards| && n <= |c.orders[i]|
    && c'.orders == c.orders[i := c.orders[i][n..]]
    && Shrunk(c.shards[i], c'.shards[i])
    && c'.stats == CountRetries(enabled, c.stats, n)
  }

  lemma NoRetries(enabled: bool, c: Cache, i: nat)
    requires i < |c.orders| == |c.shards|
    ensures AfterRetries(enabled, c, c, i, 0)
  {
    assert c.orders == c.orders[i := c.orders[i][0..]];
  }

  lemma RetriedAgain(enabled: bool, c: Cache, before: Cache, now: Cache, i: nat, n: nat)
    requires AfterRetries(enabled, c, before, i, n) && n < |c.orders[i]| && RetriedOnce(enabled, before, now, i)
    ensures AfterRetries(enabled, c, now, i, n + 1)
  {
    var order := c.orders[i];
    assert order[n..][1..] == order[n + 1..];
    assert c.orders[i := order[n..]][i := order[n + 1..]] == c.orders[i := order[n + 1..]];
  }

  /** Nothing is left to evict exactly when every entry of the list has been retried away. */
  lemma EmptyWhenAllRetried(enabled: bool, c: Cache, now: Cache, i: nat, n: nat)
    requires AfterRetries(enabled, c, now, i, n) && Sound(enabled, now) && i < SHARDS
    ensures |now.shards| == SHARDS && (now.shards[i].cache == map[] <==> n == |c.orders[i]|)
  {
    hide Linked, Total;
    assert Lists(now.shards[i], now.orders[i]);
    if now.orders[i] != [] {
      assert now.orders[i][0] in now.orders[i];
    }
  }

  /** The answers from `first` on, `n` of them, are all quota refusals. */
  ghost predicate Refused(hresults: seq<nat>, first: nat, n: nat) {
    forall i :: first <= i < first + n ==> Answer(hresults, i) == ERROR_NOT_ENOUGH_QUOTA
  }

  lemma NoneRefused(hresults: seq<nat>, first: nat)
    ensures Refused(hresults, first, 0)
  {
  }

  lemma RefusedAgain(hresults: seq<nat>, first: nat, n: nat)
    requires Refused(hresults, first, n) && Answer(hresults, first + n) == ERROR_NOT_ENOUGH_QUOTA
    ensures Refused(hresults, first, n + 1)
  {
  }

  /** The retries are determined by the answers. */
  lemma {:induction false} RetriesIs(hresults: seq<nat>, first: nat, room: nat, n: nat)
    requires n <= room && Refused(hresults, first, n)
    requires n == room || Succeeded(Answer(hresults, first + n)) || Answer(hresults, first + n) != ERROR_NOT_ENOUGH_QUOTA
    ensures Retries(hresults, first, room) == n
    decreases n
  {
    if n > 0 {
      assert Answer(hresults, first) == ERROR_NOT_ENOUGH_QUOTA;
      RetriesIs(hresults, first + 1, room - 1, n - 1);
    }
  }
}
