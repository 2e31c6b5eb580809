# A model of the virtio-fs data path over HDV

The repository serves virtio-fs shares to a Hyper-V guest from an ordinary host process. This
project models, in Dafny, the parts of it where a mistake would be silent and costly, and proves
what they promise, for every input, every schedule and every answer of the platform.

* **The request dispatcher** (`OffloadModel`, `OffloadSafety`, `OffloadProgress`,
  `DispatcherLoop`). One dispatcher owns a virtqueue, runs a lone request inline or fans a batch
  out to pool threads, and completes what comes back. It is a step system in which the guest, the
  pool threads, the stop signal and the dispatcher interleave between any two statements; the loop
  itself is a class whose methods are proved to play any plan of the others' steps, one statement of
  the dispatcher after each entry, and to be in exactly the state that leads to. Completing out of order
  is legal because `VIRTIO_F_IN_ORDER` is not offered (sections 2.7.8 and 2.7.9 of OASIS Virtio 1.2).
* **The worker pool** (`PoolModel`, `PoolProofs`, `PoolThread`, `PoolLink`, `ComposedHost`). A job queue, a
  condition variable with spurious wakeups, and a drop that drains; the link to the dispatcher's pool,
  which these threads implement; and dispatcher, threads and wakeups as one system.
* **Guest memory through apertures** (`GuestAddress`, `ApertureShard`, `ApertureLinks`,
  `ApertureMem`). The sharded LRU cache of mappings, with its quota retry loop and counters, against a
  reference of flat guest memory beside plain recency lists: same memory, same reads, same outcomes.
* **Races around the cache** (`LookupRace`, `MappingLifetime`, `ConcurrentCopies`). The two-step restamp of
  a hit, reference-counted mappings with their two-step drop against a host that goes down, and accesses
  of many threads moving bytes through such mappings.
* **Descriptor-chain payloads** (`PayloadModel`, `PayloadIo`). Reader, writer and reply sender over
  a chain, stated over places: the guest addresses in walking order.
* **Host and share handles** (`LifecycleModel`, `HostHandles`). Calls cut into their effects, and
  every contract-respecting interleaving of them.
* **Two small protocols** (`RateLimit`, `GuidText`).

`Common` holds what they share. A class always comes with a specification: a pure step system or a
function on values, about which the lemmas speak, and which the methods' postconditions name. Methods
that other threads can interleave with take the others' steps as input, and their contracts say that
everyone's steps are those and the method's own, so that they hold for every interference and a method
that skips a step or an input does not meet them.

Platform assumptions: an aperture is a direct map of the guest pages it was created over
(docs/hdv-aperture-internals.md); the virtqueue hands out posted chains in order; each atomic
operation is one step; a range of guest memory is accessed whole or not at all. One bound, that of the
work in flight by the queue size (`OffloadSafety.RingBoundsInflight`), also assumes a guest that does not
post a descriptor again before it was used; nothing else assumes anything of the guest.

## Where the code does less than it says

Each of these is stated in the project, by a run or by the exact condition, next to what does hold.

* `remaining_len` is short by exactly the bytes `read_until` rewound, and wraps around when the rest
  is read (`PayloadIo.RemainingLenDrifts`; exact in `PayloadIo.PayloadReader.RemainingLen`).
* An empty segment inside a chain hides what follows it; exactly when is
  `PayloadModel.WalkSeesAllUnlessGap`, and `PayloadModel.EmptySegmentHides` is such a chain.
* An aperture whose drop loaded the liveness flag before the host cleared it is destroyed on a host
  that is already down (`MappingLifetime.RacingDropReachesDownHost`; exactly when is
  `MappingLifetime.DownHostIsTouchedExactlyByLoadedDrops`).
* A create call truncates the span to 32 bits, so an access of 4 GiB of pages or more runs outside its
  mapping, exactly then (`GuestAddress.MappingHoldsAccess`; `GuestAddress.HugeAccessMapsNothing` is such
  an access).
* A host that goes down takes its mappings away even from copies under way and from the cache
  (`MappingLifetime.TeardownUnderCopy`); exactly when a copy can then touch a lost mapping is
  `MappingLifetime.DownHostIsCopiedExactlyWhileReferenced`, and before it never does
  (`MappingLifetime.NoWildCopyWhileUp`). A miss on a host that is down still asks it for a mapping
  (`MappingLifetime.DownHostIsAskedExactlyByMisses`).
* Overlapping hits on one key can store their stamps in the wrong order and get a recently used entry
  evicted (`LookupRace.OverlapEvictsRecent`); exactly when is `LookupRace.MisjudgesExactly`.
* The rate limiter spaces stamps, not emissions: callers delayed between reading the clock and swapping
  can emit in a burst, any number of them at one instant (`RateLimit.RealGapIsTight`); the promise of one
  emission per window is kept exactly for undelayed ones (`RateLimit.OneEmissionPerWindow`).
* The GUID parser accepts a plus sign in place of a leading zero (`GuidText.PlusIsAccepted`); printing after
  parsing is canonical exactly without one (`GuidText.PrintAfterParse`).

## Model

| member | source | states |
|---|---|---|
| `OffloadSafety.Reachable` | crates/virtio-hdv/src/offload.rs:243-379 | for every schedule and worker count, conservation, exact counters, ticket order, honest byte counts and the placement of every item hold in every reachable state |
| `OffloadSafety.EachItemInOnePlace` | crates/virtio-hdv/src/offload.rs:243-379 | a popped item is in exactly one of the dispatcher's hands, pool queue, running worker, channel and used ring, and nothing else is in any of them, panics included |
| `OffloadSafety.PopsInPostingOrder` | crates/virtio-hdv/src/offload.rs:261-282 | popped followed by available chains are the posted ones in order: none skipped, none invented |
| `OffloadSafety.SameWorksSameCompletions` | crates/virtio-hdv/src/offload.rs:295-306 | completions with contained panics are determined, as a multiset, by their work items |
| `OffloadSafety.SerialServesAll` | crates/virtio-hdv/src/offload.rs:284-289 | the serial reference device answers every request once, in order, with the bytes of its reply or none after a panic |
| `OffloadSafety.RefinesSerialDevice` | crates/virtio-hdv/src/offload.rs:260-355 | at every moment the used ring is part of what the serial device writes for the popped requests, and all of it when the dispatcher has returned |
| `OffloadSafety.CompletionsAreTruthful` | crates/virtio-hdv/src/offload.rs:295-306 | for every schedule and worker count every completion, and every message on the channel, reports the bytes of the reply to its request, or none if serving it panicked |
| `OffloadSafety.WorkerCountIsInvisible` | crates/virtio-hdv/src/offload.rs:313-341 | two returned runs over the same pops wrote the same completions, whatever their worker counts and schedules |
| `OffloadSafety.InlineNeverOvertakes` | crates/virtio-hdv/src/offload.rs:284-311 | an inline request is the youngest pop and every earlier one is already completed |
| `OffloadSafety.CorruptRingPopsNothing` | crates/virtio-hdv/src/offload.rs:266-277 | once the ring is corrupt nothing is popped any more, over every schedule |
| `OffloadSafety.StoppedRunOnlyCompletes` | crates/virtio-hdv/src/offload.rs:254-263 | once stop is observed nothing is popped and `inflight` falls by exactly the completions made, never below zero |
| `OffloadSafety.ReturnedQueueIsQuiesced` | crates/virtio-hdv/src/offload.rs:199-208 | when `run` returns, everything popped is completed, as often as it was popped, and pool and channel are empty |
| `OffloadSafety.FairRunKeepsHeadsApart` | crates/virtio-hdv/src/offload.rs:313-339 | with a guest that reuses a descriptor only after its use, outstanding chains have distinct heads |
| `OffloadSafety.Pigeonhole` | crates/virtio-hdv/src/offload.rs:313-339 | chains with distinct heads below the queue size number at most the queue size |
| `OffloadSafety.RingBoundsInflight` | crates/virtio-hdv/src/offload.rs:248-250 | `inflight` counts exactly what pool and channel hold and, for such a guest, stays within the queue size |
| `OffloadProgress.ReachableIsWakeful` | crates/virtio-hdv/src/offload.rs:344-377 | between polling a source and parking its waker is registered or has fired, in every reachable state |
| `OffloadProgress.ParkedMissesNothing` | crates/virtio-hdv/src/offload.rs:344-377 | a dispatcher asleep has no completion and no stop waiting, no request unless the guest still owes its kick, and is not a stopping one with nothing in flight |
| `OffloadProgress.InternalStepDescends` | crates/virtio-hdv/src/offload.rs:260-378 | every host step that changes anything lowers a rank: the host has no livelock |
| `OffloadProgress.GuestCannotDelayStop` | crates/virtio-hdv/src/offload.rs:357-370 | once stop is observed nothing the guest does raises the rank |
| `OffloadProgress.HostSettles` | crates/virtio-hdv/src/offload.rs:260-378 | left to itself the host takes at most `Rank` effective steps |
| `OffloadProgress.WorkIsBounded` | crates/virtio-hdv/src/offload.rs:260-378 | under every schedule, guest events at any time included, effective host steps are bounded by the initial rank and a constant for each post, kick and stop |
| `OffloadProgress.StopSettles` | crates/virtio-hdv/src/offload.rs:340-377 | a stopping dispatcher takes at most `Rank` effective steps under any guest behaviour |
| `OffloadProgress.SettledIsIdle` | crates/virtio-hdv/src/offload.rs:340-377 | with no host step possible nothing is in flight, a stopping dispatcher has returned and a listening one has nothing to pop unless the guest still owes its kick |
| `OffloadProgress.SettledHasServedAll` | crates/virtio-hdv/src/offload.rs:243-379 | every request is answered: a settled host has completed every pop like the serial device, and has popped everything posted unless stopped, failed or still owed a kick |
| `DispatcherLoop.Dispatcher.Drain` | crates/virtio-hdv/src/offload.rs:261-282 | what was popped is what the batch gained; it ends with nothing available, a corrupt ring or popping switched off; an active drain of a corrupt ring pops nothing and fails the queue |
| `DispatcherLoop.Dispatcher.Decide` | crates/virtio-hdv/src/offload.rs:284-291 | inline exactly for a lone request on an idle queue |
| `DispatcherLoop.Dispatcher.Inline` | crates/virtio-hdv/src/offload.rs:292-310 | completes exactly the lone request, with the bytes of its reply or none after a panic, and drains again |
| `DispatcherLoop.Dispatcher.SubmitJob` | crates/virtio-hdv/src/pool.rs:64-77 | a job is queued, or run on the spot without threads |
| `DispatcherLoop.Dispatcher.FanOut` | crates/virtio-hdv/src/offload.rs:313-339 | the jobs gone from the batch are in the pool or its channel, none else is, and each is counted in flight |
| `DispatcherLoop.Dispatcher.ReturnIfQuiesced` | crates/virtio-hdv/src/offload.rs:340-342 | returns exactly when stopping with nothing in flight |
| `DispatcherLoop.Dispatcher.ReceiveAll` | crates/virtio-hdv/src/offload.rs:347-356 | completions grow by exactly what `inflight` falls; it ends with the channel empty and its waker registered, and reports progress exactly if something was received |
| `DispatcherLoop.Dispatcher.ObserveStop` | crates/virtio-hdv/src/offload.rs:357-361 | stop is observed exactly if it was sent by then; otherwise its waker is registered |
| `DispatcherLoop.Dispatcher.ObserveKick` | crates/virtio-hdv/src/offload.rs:362-375 | ready exactly after progress or a pending kick, which is consumed; otherwise its waker is registered; neither when stopping or failed |
| `DispatcherLoop.Dispatcher.Park` | crates/virtio-hdv/src/offload.rs:344-377 | returns only after a completion, an observed stop or a consumed kick, having completed exactly what `inflight` fell by |
| `DispatcherLoop.Dispatcher.Interfere` | crates/virtio-hdv/src/offload.rs:260-378 | the next entry of the plan happens, all of it and nothing else: what it does to the ring, the pool and the signals |
| `DispatcherLoop.Dispatcher.Run` | crates/virtio-hdv/src/offload.rs:243-379 | everyone's steps are the consumed part of the plan with one dispatcher statement after each entry, and the loop is in the state they lead to; every completion reports the bytes of its reply; it stops early only by returning, and then the used ring equals the serial device's, as multisets, with nothing in flight |
| `PoolProofs.Reachable` | crates/virtio-hdv/src/pool.rs:64-121 | in every reachable state jobs are accounted for, covered by awake threads or notifications, and threads leave in order |
| `PoolProofs.StartsInOrder` | crates/virtio-hdv/src/pool.rs:64-110 | jobs start exactly once, in the order of submission |
| `PoolProofs.QueuedJobIsCovered` | crates/virtio-hdv/src/pool.rs:64-110 | a queued job has a thread that is awake or running, or a pending notification; while any thread sleeps each queued job has one of its own |
| `PoolProofs.ThreadsLeaveLast` | crates/virtio-hdv/src/pool.rs:97-110 | a thread exits only on shutdown with an empty queue |
| `PoolProofs.JoinedPoolRanEverything` | crates/virtio-hdv/src/pool.rs:80-95 | when drop's joins are done every submitted job has run exactly once, panicking ones included |
| `PoolProofs.StepDescends` | crates/virtio-hdv/src/pool.rs:97-121 | every effective pool step lowers a rank; during a drop so does every other effective step |
| `PoolProofs.PoolSettles` | crates/virtio-hdv/src/pool.rs:80-110 | the pool, or a pool being dropped, takes at most `Rank` effective steps |
| `PoolProofs.SettledPoolRanEverything` | crates/virtio-hdv/src/pool.rs:64-110 | a pool with nothing left to do has run every job, and one being dropped has been joined |
| `PoolThread.Worker.WorkerLoop` | crates/virtio-hdv/src/pool.rs:97-110 | everyone's steps are the consumed part of the plan with the thread's own step after each entry; it exits only on shutdown with the queue drained, and the last exit means every job has run |
| `PoolThread.Worker.RunJob` | crates/virtio-hdv/src/pool.rs:117-121 | the job is the last one finished, whether it panics or not, and the thread goes on |
| `PoolThread.Worker.Wait` | crates/virtio-hdv/src/pool.rs:97-110 | sleeping ends with the thread awake, for whatever reason |
| `PoolThread.Worker.CheckQueue` | crates/virtio-hdv/src/pool.rs:99-109 | takes the oldest job, or with none leaves on shutdown, or sleeps |
| `PoolLink.StepIsMove` | crates/virtio-hdv/src/pool.rs:64-121 | every other step of the threads is a start or a finish of the dispatcher's pool, or leaves it alone |
| `PoolLink.StartsLinked` | crates/virtio-hdv/src/pool.rs:49-61 | a new pool of threads is linked to the dispatcher's empty pool |
| `PoolLink.FinishIsFinish` | crates/virtio-hdv/src/offload.rs:321-338 | a finish of the linked pool is the finish step of the dispatcher's model |
| `PoolLink.SubmitIsSubmit` | crates/virtio-hdv/src/pool.rs:64-77 | a submission to the threads is a submission to the dispatcher's pool, inline without threads |
| `PoolLink.SettledPoolIsEmpty` | crates/virtio-hdv/src/pool.rs:64-110 | threads with nothing left to do have emptied the dispatcher's pool |
| `ComposedHost.RunIsSimulated` | crates/virtio-hdv/src/offload.rs:313-356 | every run of dispatcher, threads and condition variable is a run of the dispatcher's model with the same ring, locals and posts |
| `ComposedHost.ComposedRefinesSerialDevice` | crates/virtio-hdv/src/offload.rs:260-355 | at every moment of every run of dispatcher and threads the used ring is part of the serial device's, and all of it on return, and every completion reports the bytes of its reply |
| `ComposedHost.ComposedHasServedAll` | crates/virtio-hdv/src/offload.rs:243-379 | when neither dispatcher nor threads have anything left to do, every pop is completed like the serial device, everything posted is popped unless stopped, failed or owed a kick, and a stopped dispatcher has returned |
| `ComposedHost.ComposedSettles` | crates/virtio-hdv/src/pool.rs:64-121 | left to itself the whole host, wakeups of the threads included, takes a bounded number of effective steps |
| `GuestAddress.MappingHoldsAccess` | crates/virtio-hdv/src/mem.rs:491-512 | the base is page-aligned, the clamped span does not pass the ceiling, and the 32-bit mapped length holds the access exactly when the page span is below 4 GiB, also where the 64-bit round-up wraps |
| `GuestAddress.HugeAccessMapsNothing` | crates/virtio-hdv/src/mem.rs:323-323 | an admitted access of 4 GiB whose truncated mapping is empty |
| `GuestAddress.MapsOnlyTouchedPages` | crates/virtio-hdv/src/mem.rs:491-512 | a non-empty access maps only pages it touches |
| `GuestAddress.RoundUpWraps` | crates/virtio-hdv/src/mem.rs:511-512 | the 64-bit round-up stays in range exactly up to 2^64 - 4096 |
| `GuestAddress.CeilingAdmitsAllRam` | crates/virtio-hdv/src/mem.rs:418-420 | the derived ceiling admits every byte of every low/high RAM split that a 64-bit end can name |
| `GuestAddress.CeilingIsExact` | crates/virtio-hdv/src/mem.rs:418-420 | exactly the accesses ending within 4 GiB plus the RAM size, and below 2^64, are admitted |
| `GuestAddress.FlatCeilingRejectsHighRam` | crates/virtio-hdv/src/mem.rs:409-417 | a ceiling equal to the RAM size rejects some byte of RAM if and only if the low part is neither all of RAM nor all of the space below 4 GiB |
| `ApertureShard.TouchRefreshes` | crates/virtio-hdv/src/mem.rs:272-279 | restamping a hit moves its key to the recent end of the recency list and keeps every other key in place |
| `ApertureShard.HeadIsOldest` | crates/virtio-hdv/src/mem.rs:284-290 | the head of the list has strictly the smallest stamp |
| `ApertureShard.InsertAppends` | crates/virtio-hdv/src/mem.rs:357-363 | an insertion with a fresh stamp appends to the list |
| `ApertureShard.RetriesAreRefusals` | crates/virtio-hdv/src/mem.rs:320-350 | the retries are exactly the leading quota refusals, cut off only when nothing is left to evict |
| `ApertureShard.Attempts` | crates/virtio-hdv/src/mem.rs:317-350 | a miss makes between 1 and 64 create calls |
| `ApertureShard.RefreshKeepsOrder` | crates/virtio-hdv/src/mem.rs:272-279 | a hit keeps the list ordered by last use in the history |
| `ApertureShard.MissKeepsOrder` | crates/virtio-hdv/src/mem.rs:308-363 | a miss, with its evictions and retries, keeps the list ordered by last use |
| `ApertureShard.PagesSpread` | crates/virtio-hdv/src/mem.rs:470-472 | a page is routed by its number modulo 16, so 16 pages in a row are in 16 shards |
| `ApertureLinks.SoundBounds` | crates/virtio-hdv/src/mem.rs:272-291 | at most 1024 entries, each in the shard of its base, stamps pairwise distinct and not ahead of the clock, `live` = creates - evicts = entries, retries at most evictions |
| `ApertureLinks.OldestIsLeastRecentlyUsed` | crates/virtio-hdv/src/mem.rs:284-290 | the entry with the smallest stamp was last accessed strictly before every other cached entry of its shard, in the history that RunAccesses ties to the accesses made |
| `ApertureLinks.EvictIsSound` | crates/virtio-hdv/src/mem.rs:284-290 | the smallest stamp is the head of the list, and dropping it keeps shards, mappings and counters consistent |
| `ApertureLinks.InsertIsSound` | crates/virtio-hdv/src/mem.rs:351-368 | inserting a fresh mapping below the cap keeps them consistent |
| `ApertureLinks.TouchIsSound` | crates/virtio-hdv/src/mem.rs:272-279 | a hit keeps them consistent |
| `ApertureLinks.RetriesIs` | crates/virtio-hdv/src/mem.rs:322-350 | the number of retries is determined by the platform's answers |
| `ApertureLinks.TotalIsBounded` | crates/virtio-hdv/src/mem.rs:317-319 | capped shards have at most 64 entries each in total |
| `ApertureMem.FindOldest` | crates/virtio-hdv/src/mem.rs:285-285 | finds a key whose stamp is minimal |
| `ApertureMem.HdvApertureMem.EvictOne` | crates/virtio-hdv/src/mem.rs:284-290 | removes exactly the head of the recency list, its mapping and one from `live` |
| `ApertureMem.HdvApertureMem.Lookup` | crates/virtio-hdv/src/mem.rs:272-279 | hits exactly the cached keys, hands out the mapping of that key and refreshes the list |
| `ApertureMem.HdvApertureMem.CreateWithRetry` | crates/virtio-hdv/src/mem.rs:320-350 | evicts one LRU entry for each quota refusal and nothing else; the bound on evictions never decides |
| `ApertureMem.HdvApertureMem.MakeRoom` | crates/virtio-hdv/src/mem.rs:308-319 | ticks the clock and, in a full shard only, drops the oldest |
| `ApertureMem.HdvApertureMem.CreateAndInsert` | crates/virtio-hdv/src/mem.rs:320-369 | ends with the key newest and mapped, or with an error and the cap intact |
| `ApertureMem.HdvApertureMem.GetOrCreate` | crates/virtio-hdv/src/mem.rs:299-370 | adopts a cached key without mapping it twice, else changes the list as a list-level miss does, within 64 create calls, is granted exactly if the last answer is below 0x80000000, and counts every repeated call and the peak of live mappings |
| `ApertureMem.HdvApertureMem.Locate` | crates/virtio-hdv/src/mem.rs:481-533 | refuses exactly as the reference says, and a miss exactly if the last create answer is 0x80000000 or above, with that answer; otherwise returns a live mapping of the page range with the right offset; lists, history and the counts of admitted, unbound and out-of-range accesses change as in the reference, and the counters with them |
| `ApertureMem.HdvApertureMem.ReadFallback` | crates/virtio-hdv/src/mem.rs:592-622 | the outcome is the reference's, and as told in plain numbers; a completed read filled the buffer with the current guest bytes of the range, any other left it alone |
| `ApertureMem.HdvApertureMem.WriteFallback` | crates/virtio-hdv/src/mem.rs:623-648 | the outcome is the reference's, and as told in plain numbers; a completed write changed exactly the bytes of the range, any other changed none |
| `ApertureMem.HdvApertureMem.RunAccesses` | crates/virtio-hdv/src/mem.rs:481-535 | over every run of reads, writes and guest stores and every answer of the platform, memory, recency lists, outcomes and completed reads are those of the reference, each operation ends as told in plain numbers, and the history is the admitted accesses, shard by shard and in order |
| `ApertureMem.VerdictIsAsTold` | crates/virtio-hdv/src/mem.rs:299-370 | the reference in plain numbers: a listed key is served without a create call and moves to the end; otherwise calls go on while the answer is 0x80070718 and an entry is left, the access is refused exactly for a last answer of 0x80000000 or above, and the list loses one entry if it had 64, one per repeated answer, and no other |
| `ApertureMem.HistoryIsAdmitted` | crates/virtio-hdv/src/mem.rs:470-533 | the histories are the admitted accesses in order, each in its shard, and the admitted count is their number |
| `ApertureMem.AccessIsRanked` | crates/virtio-hdv/src/mem.rs:481-533 | every access keeps all shards' lists ordered by last use |
| `LookupRace.StampsStayDistinct` | crates/virtio-hdv/src/mem.rs:272-291 | with tick and store as two steps, under every interleaving, stamps stay distinct and the eviction has no tie |
| `LookupRace.ExclusiveEvictsLeastRecent` | crates/virtio-hdv/src/mem.rs:272-291 | an eviction removes the least recently used key if hits on that key never overlapped, whatever other hits did (a condition on whole runs; the exact one, on states, is MisjudgesExactly) |
| `LookupRace.OverlapEvictsRecent` | crates/virtio-hdv/src/mem.rs:275-277 | a run with two overlapping hits on one key after which the eviction removes it although another was used before |
| `LookupRace.MisjudgesExactly` | crates/virtio-hdv/src/mem.rs:272-291 | from every reachable state, some order of the half-done hits makes the next eviction remove a key although another was used before, if and only if another was, and the key can end with a stamp that every other can end at or above |
| `MappingLifetime.Reachable` | crates/virtio-hdv/src/mem.rs:299-370 | in every reachable state counts equal holders, a mapping is up while referenced, and the destroy log has each destroyed mapping once |
| `MappingLifetime.CopyUsesLiveMapping` | crates/virtio-hdv/src/mem.rs:514-530 | what a copying thread holds is not being dropped and not destroyed, and its mapping is there exactly while the host is not down |
| `MappingLifetime.NoWildCopyWhileUp` | crates/virtio-hdv/src/mem.rs:514-530 | until the host is down no copy goes through a mapping that is gone and no create call reaches a device that is gone |
| `MappingLifetime.DownHostIsCopiedExactlyWhileReferenced` | crates/hdv/src/lib.rs:261-267 | with the host down, some run copies through a lost mapping if and only if a copy or the cache still refers to it and there is a thread |
| `MappingLifetime.DownHostIsAskedExactlyByMisses` | crates/virtio-hdv/src/mem.rs:322-349 | with the host down, some run asks it to map a given key if and only if there is a thread |
| `MappingLifetime.TeardownUnderCopy` | crates/hdv/src/lib.rs:158-170 | a run in which the host goes down under a copy |
| `MappingLifetime.DestroyFollowsLastRelease` | crates/hdv/src/lib.rs:297-312 | a mapping is destroyed once, when neither the cache nor a copy refers to it |
| `MappingLifetime.UnreferencedIsDestroyed` | crates/hdv/src/lib.rs:297-312 | no leak: on a live host an aperture without cache entry and holder is destroyed once its drop has taken its two steps |
| `MappingLifetime.LiveMappingsAreReferenced` | crates/hdv/src/lib.rs:297-312 | with no drop step left and the host never stopped, the live mappings are exactly the cached ones and those held by copies |
| `MappingLifetime.OneMappingPerKey` | crates/virtio-hdv/src/mem.rs:308-316 | a key was mapped as often as evicted, plus one if cached: concurrent misses never map twice |
| `MappingLifetime.LateLoadNeverDestroys` | crates/hdv/src/lib.rs:158-170 | over every continuation, a drop that loads the flag after it was cleared never destroys |
| `MappingLifetime.DownHostIsTouchedExactlyByLoadedDrops` | crates/hdv/src/lib.rs:302-311 | with the host down, some run destroys a mapping on it if and only if its drop had loaded the flag before |
| `MappingLifetime.RacingDropReachesDownHost` | crates/hdv/src/lib.rs:302-311 | a run from the initial state in which a mapping is destroyed on a host that is down |
| `ConcurrentCopies.Reachable` | crates/virtio-hdv/src/mem.rs:514-530 | every thread holds or waits for a mapping of the page range of its own access, in every reachable state |
| `ConcurrentCopies.CopiesAgreeWithFlatMemory` | crates/virtio-hdv/src/mem.rs:481-535 | under every interleaving of accesses, guest stores, evictions, drops and teardown, memory is the replay of the touches, each byte of each access moved in order at its own address with the right value, completed ones moved all, and nothing else touched memory |
| `ConcurrentCopies.CopyGoesOnExactlyWhileUp` | crates/virtio-hdv/src/mem.rs:514-530 | a copy's next byte is at its own guest address, whatever was evicted meanwhile, and inside a mapping that is there exactly while the host is up |
| `PayloadModel.WalkSeesAllUnlessGap` | crates/virtio-hdv/src/payload.rs:62-70 | a fresh walk sees a prefix of the payload, and all of it if and only if no empty segment after the first stands before a non-empty one |
| `PayloadModel.EmptySegmentHides` | crates/virtio-hdv/src/payload.rs:62-70 | a chain whose last byte is hidden by an empty segment |
| `PayloadModel.UnbrokenIsAll` | crates/virtio-hdv/src/payload.rs:50-70 | without empty segments nothing is hidden |
| `PayloadModel.NextPayload` | crates/virtio-hdv/src/payload.rs:51-56 | skips to the next segment of the direction without losing any place |
| `PayloadModel.GetPayload` | crates/virtio-hdv/src/payload.rs:62-70 | moves on at most one segment; finds nothing exactly when nothing is in reach |
| `PayloadModel.MovedPlaces` | crates/virtio-hdv/src/payload.rs:88-95 | advancing the offset removes exactly that many places from the front |
| `PayloadModel.LoadOfStore` | crates/virtio-hdv/src/payload.rs:183-199 | what is stored at distinct places is loaded back |
| `PayloadModel.StoreFrames` | crates/virtio-hdv/src/payload.rs:183-199 | a store changes nothing outside its places |
| `PayloadModel.FlippedSelects` | crates/virtio-hdv/src/payload.rs:163-166 | writer and reader select the same places of a chain with directions turned around |
| `PayloadIo.PayloadReader.constructor` | crates/virtio-hdv/src/payload.rs:36-48 | unread are all places of the readable segments; all are in reach if and only if the chain has no gap |
| `PayloadIo.PayloadReader.Read` | crates/virtio-hdv/src/payload.rs:82-100 | returns the next unread bytes, as many as the segment and the buffer allow, and advances past them; nothing for a non-empty buffer exactly at the end of the reach; a fault changes nothing |
| `PayloadIo.PayloadReader.Gather` | crates/virtio-hdv/src/payload.rs:82-100 | reads of any sizes return consecutive slices of the concatenated segments; a non-empty buffer stays empty only at the end of the reach; the run is cut short only by an inaccessible place |
| `PayloadIo.PayloadReader.ReadExact` | crates/virtio-hdv/src/payload.rs:84-87 | exactly n bytes in as many reads as it takes, and what is then left unread; short exactly when the reach is, faulty only within those bytes |
| `PayloadIo.PayloadReader.Scan` | crates/virtio-hdv/src/payload.rs:110-132 | one turn of the search, with the internal length assertion proved |
| `PayloadIo.PayloadReader.Rewind` | crates/virtio-hdv/src/payload.rs:126-127 | puts the cursor just past the match and counts the bytes `position` stays ahead |
| `PayloadIo.PayloadReader.ReadUntil` | crates/virtio-hdv/src/payload.rs:103-133 | exactly the bytes before the first match, across any segmentation, with the cursor just past it; invalid exactly when no match is in reach; a fault is in the segment the cursor is left on, and no match is before it |
| `PayloadIo.PayloadReader.RemainingLen` | crates/virtio-hdv/src/payload.rs:135-137 | the unread count less the bytes rewound, in 64 bits; right if and only if nothing was rewound |
| `PayloadIo.SearchIsDetermined` | crates/virtio-hdv/src/payload.rs:103-133 | on accessible memory the search has one result, found if and only if the byte is in reach, however the bytes are cut into segments |
| `PayloadIo.RemainingLenDrifts` | crates/virtio-hdv/src/payload.rs:126-137 | a run after which two bytes are unread, none is claimed, and reading them makes the claim wrap around |
| `PayloadIo.PayloadWriter.Write` | crates/virtio-hdv/src/payload.rs:183-199 | stores a prefix of the buffer, as long as the segment and the buffer allow, at the next places and nothing else; nothing written exactly at the end of the reach; a fault changes nothing |
| `PayloadIo.PayloadWriter.WriteAll` | crates/virtio-hdv/src/payload.rs:183-199 | all of the buffer, or all that fits, or what precedes a fault, and which of the three |
| `PayloadIo.PayloadReplySender.Send` | crates/virtio-hdv/src/payload.rs:228-242 | the concatenated buffers go to the prefix of the writable places and nowhere else; a fault exactly if one of the places they need cannot be accessed, else success exactly when they fit; only on success is the count recorded, modulo 2^32, so exactly below 2^32 it is right |
| `PayloadIo.ReplyReadsBack` | crates/virtio-hdv/src/payload.rs:228-242 | over distinct places a reader of the same segments gathers back what was sent, and memory elsewhere is unchanged |
| `PayloadIo.SendAndReadBack` | crates/virtio-hdv/src/payload.rs:228-242 | end to end: it is sent exactly if it fits and its places can be accessed, and then a reader of the same segments reads it back |
| `PayloadIo.DisjointIsDistinct` | crates/virtio-hdv/src/payload.rs:163-181 | disjoint segments select distinct places |
| `LifecycleModel.Reachable` | crates/hyperv_virtiofs/src/lib.rs:444-656 | every contract-respecting interleaving keeps registry, references, slots and log consistent |
| `LifecycleModel.RegistryIsExact` | crates/hyperv_virtiofs/src/lib.rs:538-542 | the registry lists exactly the live shares, once each; the slots are those whose Add went through less those whose Remove did, which are those of live shares plus those left by a refused Remove or by closing; references are one plus the devices |
| `LifecycleModel.SlotsAreHistory` | crates/hyperv_virtiofs/src/lib.rs:587-606 | slots and slots left behind as functions of the calls made and the answers to them |
| `LifecycleModel.FreedExactlyOnce` | crates/hyperv_virtiofs/src/lib.rs:608-619 | each device goes down once if its share is freed, else not at all |
| `LifecycleModel.TeardownIsOrdered` | crates/hyperv_virtiofs/src/lib.rs:267-283 | only closing takes the device host down, after every device ever created, then the support object, then the system handle, each once |
| `HostHandles.HostOpen` | crates/hyperv_virtiofs/src/lib.rs:356-428 | the exact condition of each result code, the saturated memory size the handle stores, and what is released in which order on failure |
| `HostHandles.AddShare` | crates/hyperv_virtiofs/src/lib.rs:444-547 | the exact condition of each result code, over the platform's results; success registers a new share under the canonical id with its slot plugged; a refused slot takes the device down; otherwise nothing changes; everyone's effects are the call's own and the others' |
| `HostHandles.RemoveShare` | crates/hyperv_virtiofs/src/lib.rs:576-622 | the exact condition of each code over the platform's results; the share is freed and unlisted exactly on success or an unsupported Remove, another error leaves it usable; its slot goes exactly on success; everyone's effects are the call's own and the others' |
| `HostHandles.HostClose` | crates/hyperv_virtiofs/src/lib.rs:633-656 | frees the listed shares in order, then host, support and system; slots stay plugged |
| `HostHandles.CodesAre` | crates/hyperv_virtiofs/src/lib.rs:62-74 | the numbers of the result codes and of the unsupported answer |
| `RateLimit.Reachable` | crates/virtio-hdv/src/ratelimit.rs:24-33 | under every interleaving each win replaced its predecessor's stamp a window later |
| `RateLimit.WinsAreSpaced` | crates/virtio-hdv/src/ratelimit.rs:24-33 | winning stamps are 5000 ms apart per win, so those spanning t number at most t / 5000 + 1, and no loaded stamp is replaced twice |
| `RateLimit.RealGap` | crates/virtio-hdv/src/ratelimit.rs:24-33 | any two emissions are a window apart for each emission between them, less the latency of the earlier one |
| `RateLimit.RealGapIsTight` | crates/virtio-hdv/src/ratelimit.rs:5-7 | for every number of further emissions and every latency a run attains that bound exactly: all at one instant if the delay is long enough |
| `RateLimit.OneEmissionPerWindow` | crates/virtio-hdv/src/ratelimit.rs:5-7 | the promise of one emission per window is kept over every run, for every number of further emissions, if and only if the emission they are counted from was not delayed between its clock reading and its swap |
| `RateLimit.RefusalHasWinner` | crates/virtio-hdv/src/ratelimit.rs:21-33 | a due caller is refused if and only if another replaced the very stamp it had loaded |
| `RateLimit.LoneCallEmits` | crates/virtio-hdv/src/ratelimit.rs:24-33 | after any run an undisturbed call emits if and only if nothing was emitted yet or the last winning stamp is 5000 ms old |
| `RateLimit.CallSite.ShouldEmit` | crates/virtio-hdv/src/ratelimit.rs:24-33 | takes its three steps among the others; emits exactly when its clock reading is a window after the stamp it loaded and nobody replaced that stamp before its swap; the win is recorded once |
| `GuidText.PrintedDenotes` | crates/hdv/src/pci.rs:78-93 | round trip: the printed form of a GUID denotes it |
| `GuidText.DigitsInOrder` | crates/hdv/src/pci.rs:78-93 | the value of each hexadecimal digit, in both cases, and the digit printed for each value |
| `GuidText.OnlyDigits` | crates/hdv/src/pci.rs:112-120 | exactly the digits and the letters a to f, in both cases, are hexadecimal digits |
| `GuidText.BlanksAre` | crates/hdv/src/pci.rs:100-100 | exactly the six ASCII blanks are trimmed |
| `GuidText.DenotesOne` | crates/hdv/src/pci.rs:99-122 | a text denotes at most one GUID |
| `GuidText.CaseDoesNotMatter` | crates/hdv/src/pci.rs:95-98 | a text and its lower-case form denote the same |
| `GuidText.SpellingIsTrimmed` | crates/hdv/src/pci.rs:100-104 | trimming and stripping leave what the grammar of blanks and braces describes, both ways |
| `GuidText.VariantsSpell` | crates/hdv/src/pci.rs:95-104 | the printed form in any case, braced or not, with blanks around it, spells the GUID |
| `GuidText.PrintAfterParse` | crates/hdv/src/pci.rs:95-98 | printing after parsing gives the lower-case text if and only if it has no plus sign |
| `GuidText.PlusIsAccepted` | crates/hdv/src/pci.rs:112-120 | in any spelling, a plus sign may replace the first digit of any of the eleven numbers without changing what is denoted if and only if that digit is zero |
| `GuidText.FromString` | crates/hdv/src/pci.rs:99-122 | returns the GUID the text spells, or none exactly when it spells none |
| `GuidText.ReadBytes` | crates/hdv/src/pci.rs:111-115 | the eight bytes at their positions in the text, or none |

## Left out

- FUSE sessions and request parsing: a work item carries its outcome, a byte count or a panic; what the file system does with a request is not part of this model.
- `stop_queue` and `reset` slot handling, request statistics, the corruption callback: bookkeeping around the dispatcher, without branches of its own that matter here.
- Several queues sharing one pool: other queues' jobs appear only as freedom in when this queue's jobs start.
- The polled wakers: one waker per source and one wake flag; the executor that polls the dispatcher is not part of this model.
- Termination of the dispatcher before stop is observed: the inline path drains again without polling stop, so a guest that keeps posting lone requests can postpone it; progress is stated as a rank and as bounds after stop.
- Relaxed memory: each atomic operation and each critical section is one sequentially consistent step.
- 64-bit wrap-around of clocks, stamps and counters: they are unbounded here; wrap-around is modelled where it matters, in address arithmetic, the 32-bit casts and `remaining_len`.
- The statistics emission schedule, `max_span`, the access timer and the page hasher: diagnostics and performance.
- Recency and counters with several threads at once: ApertureMem runs accesses one after another; with many threads, LookupRace has the stamps, MappingLifetime the references and ConcurrentCopies the bytes, with any choice of victim.
- ApertureMem.HdvApertureMem.WriteFallback: an access outside its mapping is undefined behaviour in the original; here it ends as `Wild` and changes nothing, and the contract says exactly when it can occur.
- PayloadIo.PayloadReader.Read: returns the bytes instead of filling the caller's buffer; a fault inside one range is all-or-nothing, although the original may have filled part of the buffer.
- LookupRace.ExclusiveEvictsLeastRecent: a sufficient condition on whole runs; the exact condition, on states with half-done hits, is LookupRace.MisjudgesExactly.
- MappingLifetime.OneMappingPerKey: which entry is evicted is left open there, so it covers every choice of victim; the choice is in ApertureLinks.
- Text that is not ASCII: GUID texts are ASCII here; slicing other text can panic in the original.
- HostHandles.HostOpen: the JSON documents, C strings, panic guard, last-error text, runtime id query and memory size are inputs or left out; lock poisoning is left out.
- The rest of the repository: device emulation and configuration space, doorbells, interrupts, COM proxies and the foreign bindings forward calls and hold little logic of their own.
