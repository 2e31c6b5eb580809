/**
 One shard of the aperture cache: a map from page ranges to mappings with recency stamps
 and a clock, and the list of keys from least to most recently used that it stands for.
 */
module ApertureShard {
  import opened Common

  const PER_SHARD_MAX := 64
  const SHARDS := 16
  const ERROR_NOT_ENOUGH_QUOTA := 0x8007_0718

  /** A page-aligned range of guest memory, as it was requested. */
  datatype Key = Key(base: nat, span: nat)

  /** A cached mapping: the platform's handle, and the stamp of its last use. */
  datatype Entry = Entry(handle: nat, lastUsed: nat)

  datatype Shard = Shard(cache: map<Key, Entry>, clock: nat)

  function ShardOf(base: nat): nat {
    base / 4096 % SHARDS
  }

  /** Sixteen pages in a row are in sixteen different shards. */
  lemma PagesSpread(page: nat, i: nat, j: nat)
    requires i < j < 16
    ensures ShardOf(page * 4096) == page % 16
    ensures ShardOf((page + i) * 4096) < 16 && ShardOf((page + i) * 4096) != ShardOf((page + j) * 4096)
  {
    assert (page + i) * 4096 / 4096 == page + i && (page + j) * 4096 / 4096 == page + j;
  }

  // ---------------------------------------------------------------- recency

  /** `order` lists the keys of the shard, oldest stamp first; stamps are distinct and none
      is ahead of the clock. */
  ghost predicate Lists(sh: Shard, order: seq<Key>) {
    && (forall k :: k in sh.cache <==> k in order)
    && (forall i :: 0 <= i < |order| ==> sh.cache[order[i]].lastUsed <= sh.clock)
    && (forall i, j :: 0 <= i < j < |order| ==> sh.cache[order[i]].lastUsed < sh.cache[order[j]].lastUsed)
  }

  function IndexOf<T(==)>(s: seq<T>, x: T): (i: nat)
    requires x in s
    ensures i < |s| && s[i] == x && x !in s[..i]
  {
    if s[0] == x then 0 else 1 + IndexOf(s[1..], x)
  }

  /** The recency list after a use of `k`. */
  function Refresh(order: seq<Key>, k: Key): seq<Key> {
    if k in order then
      RemoveAt(order, IndexOf(order, k)) + [k]
    else order + [k]
  }

  function Touch(sh: Shard, k: Key): Shard
    requires k in sh.cache
  {
    Shard(sh.cache[k := sh.cache[k].(lastUsed := sh.clock + 1)], sh.clock + 1)
  }

  lemma ListsIsExact(sh: Shard, order: seq<Key>)
    requires Lists(sh, order)
    ensures NoDuplicates(order) && |order| == |sh.cache|
  {
    assert NoDuplicates(order);
    SetOfList(order);
    assert sh.cache.Keys == set k | k in order;
  }

  lemma {:induction false} SetOfList<T>(s: seq<T>)
    requires NoDuplicates(s)
    ensures |set x | x in s| == |s|
  {
    if s != [] {
      var n := |s| - 1;
      SetOfList(s[..n]);
      assert (set x | x in s) == (set x | x in s[..n]) + {s[n]};
    }
  }

  lemma RemoveAtHasOthers(order: seq<Key>, at: nat, k: Key)
    requires NoDuplicates(order) && at < |order|
    ensures k in RemoveAt(order, at) <==> k in order && k != order[at]
  {
    var rest := RemoveAt(order, at);
    if k in rest {
      var j := IndexOf(rest, k);
      assert k == order[Skip(at, j)];
    }
    if k in order && k != order[at] {
      var j := IndexOf(order, k);
      assert k == rest[if j < at then j else j - 1];
    }
  }

  lemma RemovedKeys(sh: Shard, order: seq<Key>, at: nat)
    requires Lists(sh, order) && at < |order|
    ensures forall k :: k in sh.cache - {order[at]} <==> k in RemoveAt(order, at)
  {
    ListsIsExact(sh, order);
    forall k ensures k in sh.cache - {order[at]} <==> k in RemoveAt(order, at) { RemoveAtHasOthers(order, at, k); }
  }

  lemma RemovedStamp(sh: Shard, order: seq<Key>, at: nat, i: nat)
    requires Lists(sh, order) && at < |order| && i < |order| - 1
    ensures Skip(at, i) < |order| && RemoveAt(order, at)[i] in sh.cache - {order[at]}
    ensures order[Skip(at, i)] in sh.cache
    ensures (sh.cache - {order[at]})[RemoveAt(order, at)[i]].lastUsed == sh.cache[order[Skip(at, i)]].lastUsed <= sh.clock
  {
    RemovedKeys(sh, order, at);
    assert RemoveAt(order, at)[i] in RemoveAt(order, at);
  }

  lemma RemovalKeepsList(sh: Shard, order: seq<Key>, at: nat)
    requires Lists(sh, order) && at < |order|
    ensures Lists(sh.(cache := sh.cache - {order[at]}), RemoveAt(order, at))
  {
    RemovedKeys(sh, order, at);
    var cache, rest := sh.cache - {order[at]}, RemoveAt(order, at);
    forall i | 0 <= i < |rest|
      ensures rest[i] in cache && cache[rest[i]].lastUsed <= sh.clock
    {
      RemovedStamp(sh, order, at, i);
    }
    forall i, j | 0 <= i < j < |rest|
      ensures cache[rest[i]].lastUsed < cache[rest[j]].lastUsed
    {
      RemovedStamp(sh, order, at, i);
      RemovedStamp(sh, order, at, j);
      StampsIncrease(sh, order, Skip(at, i), Skip(at, j));
    }
    hide RemoveAt;
  }

  lemma StampsIncrease(sh: Shard, order: seq<Key>, i: nat, j: nat)
    requires Lists(sh, order) && i < j < |order|
    ensures order[i] in sh.cache && order[j] in sh.cache && sh.cache[order[i]].lastUsed < sh.cache[order[j]].lastUsed
  {
    assert order[i] in order && order[j] in order;
  }

  /** A touch is a removal, a tick and a reinsertion. */
  lemma TouchReinserts(sh: Shard, k: Key)
    requires k in sh.cache
    ensures Touch(sh, k) == Shard((sh.cache - {k})[k := Entry(sh.cache[k].handle, sh.clock + 1)], sh.clock + 1)
  {
    assert (sh.cache - {k})[k := Entry(sh.cache[k].handle, sh.clock + 1)] == Touch(sh, k).cache;
  }

  lemma TickKeepsList(sh: Shard, order: seq<Key>)
    requires Lists(sh, order)
    ensures Lists(sh.(clock := sh.clock + 1), order)
    ensures forall i :: 0 <= i < |order| ==> sh.cache[order[i]].lastUsed < sh.clock + 1
  {
  }

  /** A hit moves the key to the most recently used end. */
  lemma TouchRefreshes(sh: Shard, order: seq<Key>, k: Key)
    requires Lists(sh, order) && k in sh.cache
    ensures Lists(Touch(sh, k), Refresh(order, k))
  {
    assert k in order;
    var at := IndexOf(order, k);
    assert Refresh(order, k) == RemoveAt(order, at) + [k];
    hide *;
    RemovalKeepsList(sh, order, at);
    var removed := sh.(cache := sh.cache - {k});
    TickKeepsList(removed, RemoveAt(order, at));
    InsertAppends(removed.(clock := sh.clock + 1), RemoveAt(order, at), k, sh.cache[k].handle);
    TouchReinserts(sh, k);
  }

  /** The head of the list carries the smallest stamp, strictly. */
  lemma HeadIsOldest(sh: Shard, order: seq<Key>, k: Key)
    requires Lists(sh, order) && k in sh.cache
    ensures order != [] && (k != order[0] ==> sh.cache[order[0]].lastUsed < sh.cache[k].lastUsed)
  {
    var i := IndexOf(order, k);
  }

  lemma EvictDropsHead(sh: Shard, order: seq<Key>)
    requires Lists(sh, order) && order != []
    ensures Lists(sh.(cache := sh.cache - {order[0]}), order[1..])
  {
    RemovalKeepsList(sh, order, 0);
    assert RemoveAt(order, 0) == order[1..];
  }

  /** A new entry stamped with the current clock goes to the most recently used end. */
  lemma InsertAppends(sh: Shard, order: seq<Key>, k: Key, handle: nat)
    requires Lists(sh, order) && k !in sh.cache
    requires forall i :: 0 <= i < |order| ==> sh.cache[order[i]].lastUsed < sh.clock
    ensures Lists(sh.(cache := sh.cache[k := Entry(handle, sh.clock)]), order + [k])
  {
  }

  // ---------------------------------------------------------------- the miss path on the list

  /** What the platform answers to its create call number `i`: as listed, and success after
      the listed ones. */
  function Answer(hresults: seq<nat>, i: nat): nat {
    if i < |hresults| then hresults[i] else 0
  }

  /** How many of the answers from `attempt` on are quota refusals that an eviction can
      follow, with `room` entries left to evict. */
  function Retries(hresults: seq<nat>, attempt: nat, room: nat): (n: nat)
    ensures n <= room
    decreases room
  {
    if room == 0 || Answer(hresults, attempt) != ERROR_NOT_ENOUGH_QUOTA then 0
    else 1 + Retries(hresults, attempt + 1, room - 1)
  }

  /** Every counted answer is a quota refusal, and the next one is not, unless nothing is
      left to evict. */
  lemma {:induction false} RetriesAreRefusals(hresults: seq<nat>, attempt: nat, room: nat, i: nat)
    requires attempt <= i <= attempt + Retries(hresults, attempt, room)
    ensures i < attempt + Retries(hresults, attempt, room) ==> Answer(hresults, i) == ERROR_NOT_ENOUGH_QUOTA
    ensures i == attempt + Retries(hresults, attempt, room) < attempt + room ==> Answer(hresults, i) != ERROR_NOT_ENOUGH_QUOTA
    decreases room
  {
    if attempt < i {
      RetriesAreRefusals(hresults, attempt + 1, room - 1, i);
    }
  }

  predicate Succeeded(hresult: nat) {
    hresult < 0x8000_0000
  }

  /** The list after making room for one more entry. */
  function Trimmed(order: seq<Key>): seq<Key> {
    if |order| >= PER_SHARD_MAX then order[1..] else order
  }

  /** A miss on a recency list: make room, then drop the oldest for every quota refusal,
      then append the key if the platform granted the mapping. */
  function Miss(order: seq<Key>, k: Key, hresults: seq<nat>, attempt: nat): seq<Key> {
    var kept := Trimmed(order);
    var n := Retries(hresults, attempt, |kept|);
    kept[n..] + if Succeeded(Answer(hresults, attempt + n)) then [k] else []
  }

  /** How many create calls a miss makes. */
  function Attempts(order: seq<Key>, hresults: seq<nat>, attempt: nat): (n: nat)
    requires |order| <= PER_SHARD_MAX
    ensures 1 <= n <= PER_SHARD_MAX
  {
    1 + Retries(hresults, attempt, |Trimmed(order)|)
  }

  // ---------------------------------------------------------------- least recently used

  /** The position of the last use of `k` in the history of accesses to this shard. */
  function LastUse(history: seq<Key>, k: Key): (i: int)
    ensures -1 <= i < |history|
    ensures i >= 0 ==> history[i] == k
    ensures forall j :: i < j < |history| ==> history[j] != k
  {
    if history == [] then -1
    else if history[|history| - 1] == k then |history| - 1
    else LastUse(history[..|history| - 1], k)
  }

  /** The list is ordered by last use. */
  predicate ByLastUse(order: seq<Key>, history: seq<Key>) {
    && (forall i :: 0 <= i < |order| ==> LastUse(history, order[i]) >= 0)
    && (forall i, j :: 0 <= i < j < |order| ==> LastUse(history, order[i]) < LastUse(history, order[j]))
  }

  lemma LastUseAfter(history: seq<Key>, k: Key, used: Key)
    ensures LastUse(history + [used], k) == if k == used then |history| else LastUse(history, k)
  {
    assert (history + [used])[..|history|] == history;
  }

  /** What every access does to the list: it may drop entries, and it moves or adds the
      used key at the end. */
  lemma UseKeepsOrder(order: seq<Key>, kept: seq<Key>, history: seq<Key>, used: Key, cached: bool)
    requires ByLastUse(order, history) && used !in kept
    requires exists index: seq<nat> :: Picks(kept, order, index)
    ensures ByLastUse(kept + (if cached then [used] else []), history + [used])
  {
    var index: seq<nat> :| Picks(kept, order, index);
    var order' := kept + if cached then [used] else [];
    forall i | 0 <= i < |order'|
      ensures LastUse(history + [used], order'[i]) == if i < |kept| then LastUse(history, order[index[i]]) else |history|
    {
      LastUseAfter(history, order'[i], used);
    }
  }

  /** `kept` is the subsequence of `order` at the increasing positions `index`. */
  predicate Picks(kept: seq<Key>, order: seq<Key>, index: seq<nat>) {
    && |index| == |kept|
    && (forall i :: 0 <= i < |kept| ==> index[i] < |order| && kept[i] == order[index[i]])
    && (forall i, j :: 0 <= i < j < |kept| ==> index[i] < index[j])
  }

  lemma RefreshKeepsOrder(order: seq<Key>, history: seq<Key>, k: Key)
    requires ByLastUse(order, history) && NoDuplicates(order) && k in order
    ensures ByLastUse(Refresh(order, k), history + [k])
  {
    var at := IndexOf(order, k);
    var kept := RemoveAt(order, at);
    RemoveAtHasOthers(order, at, k);
    var index: seq<nat> := seq(|kept|, i requires 0 <= i => Skip(at, i));
    assert Picks(kept, order, index);
    UseKeepsOrder(order, kept, history, k, true);
  }

  lemma DropKeepsOrder(order: seq<Key>, history: seq<Key>, k: Key, drop: nat, cached: bool)
    requires ByLastUse(order, history) && k !in order && drop <= |order|
    ensures ByLastUse(order[drop..] + (if cached then [k] else []), history + [k])
  {
    var index: seq<nat> := seq(|order| - drop, i requires 0 <= i => i + drop);
    assert Picks(order[drop..], order, index);
    UseKeepsOrder(order, order[drop..], history, k, cached);
  }

  lemma MissDrops(order: seq<Key>, k: Key, hresults: seq<nat>, attempt: nat) returns (drop: nat, cached: bool)
    ensures drop <= |order| && Miss(order, k, hresults, attempt) == order[drop..] + if cached then [k] else []
  {
    var n := Retries(hresults, attempt, |Trimmed(order)|);
    cached := Succeeded(Answer(hresults, attempt + n));
    if |order| >= PER_SHARD_MAX {
      drop := n + 1;
      assert order[1..][n..] == order[drop..];
    } else {
      drop := n;
    }
  }

  lemma MissKeepsOrder(order: seq<Key>, history: seq<Key>, k: Key, hresults: seq<nat>, attempt: nat)
    requires ByLastUse(order, history) && k !in order
    ensures ByLastUse(Miss(order, k, hresults, attempt), history + [k])
  {
    var drop, cached := MissDrops(order, k, hresults, attempt);
    DropKeepsOrder(order, history, k, drop, cached);
  }
}
