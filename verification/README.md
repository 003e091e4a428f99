# A byte-bounded cache and its replacement policies, verified

This project models a cache measured in bytes, the six replacement policies that drive it
(FIFO, LRU, LFU, SIEVE, S3-FIFO and the offline baseline Belady), the replayer that feeds it
traces, the trace summary, the consistent-hash ring of the client, and the parser and printer
of policy parameters.

`dafny verify dfyconfig.toml` checks all of it.

## How it is laid out

Each policy has one module with two layers. The first says on plain values (sequences of
entries) what every call does and proves what each call keeps. The second is the mutable
structure itself: linked lists, frequency buckets, a moving hand, three queues with a clock,
an indexed heap. Every method of it is proved to do to its value exactly what the first layer
says.

- `Base`, `Index`, `Sorting`, `Text`: sequences, byte sums, key indexes over linked nodes,
  sorting, strings.
- `CacheSpec`: the cache as a function of its state and of any policy given by its six calls.
  `CacheObject` is the mutable cache, proved to follow it step by step while it drives a
  mutable policy object through `PolicyObjects`.
- `FifoPolicy`, `LruPolicy`, `LfuPolicy`, `SievePolicy`, `S3FifoPolicy`, `BeladyPolicy` (over
  `Heap`): the policies. `Policies` gathers them behind one interface.
- `AnyPolicy`, `Protocol`, `WorkingSet`, `UnitSize`: theorems about runs under an arbitrary
  policy, one that breaks its contract included.
- `History`, `Evictions`: what a run tells of one key, and sums over its evictions.
- `Agreement`: under each of the six policies, what is tracked is what is resident.
- `Orders`, `FifoTheorems`, `LruTheorems`, `LruSizes`, `LruLimits`, `LruStack`,
  `LfuTheorems`, `SieveRuns`, `S3FifoSweeps`, `S3FifoTheorems`, `S3FifoRuns`, `S3FifoGhosts`,
  `Amortised`, `Optimality`, `BeladyTheorems`, `BeladyOptimal`, `BeladyLimits`: what each
  policy is for, and where it falls short of it.
- `Trace`, `Replay`, `ReplayTheorems`: the summary, next-access times, warmup and window, and
  the theorems above told of a replayed trace.
- `HashRing`, `Params`: the ring, and the parameter round trip.

No proof leans on automatic induction: every lemma turns it off, and those that need induction
recurse by name.

A run is a sequence of events: requests, requests with a next-access hint, and deletes.
`After(ops, c, es, i)` is the state after the first `i` of them.

## Where the code and its description part

- Belady is described as genuinely optimal when every object is the same size. That is
  proved against every schedule that admits what it misses (`BeladyOptimal.BeladyIsOptimal`).
  It fails, at every capacity, against one that may refuse: `BeladyLimits.RefusalBeatsBelady`
  gives the requests. One more slot restores it against every policy whatever
  (`BeladyOptimal.OneMoreSlotBeatsEveryPolicy`).
- Misses under LRU are said never to rise with capacity. Over traces in which each key keeps
  one size, `LruSizes.InclusionExactly` says for which sizes that is so: exactly when no size
  fits only the larger cache while another fits both. `LruSizes.StraddlingBreaksInclusion` is
  the trace for every other case, and `LruSizes.LargeObjectRaisesMisses` the shortest one. A
  key that changes size can raise misses too (`LruLimits.ChangingSizesRaiseMisses`), and at
  all capacities together they never rise exactly when there is one size
  (`LruSizes.OneSizeExactlyMixed`).
- The policy interface calls the admission decision a pure predicate. S3-FIFO's is one exactly
  when the key is no ghost and no flag is left set (`S3FifoSweeps.DecisionIsPure`), and a
  refusal costs a ghost exactly when the key is one and is too large for the small queue
  (`S3FifoSweeps.RefusalForgets`); `S3FifoTheorems.RefusedReturnIsForgotten` gets there from
  cold in three requests.
- An eviction is described as always naming a resident. S3-FIFO's names nothing exactly when
  main is empty and small holds no bytes (`S3FifoSweeps.NothingIsNamed`), which one request for
  an empty object brings about (`S3FifoTheorems.ZeroBytesAreNeverNamed`). The cache never asks
  it then, because it asks only while bytes are resident (`Policies.EvictAgrees`).

## Model

| member | source | states |
|---|---|---|
| AnyPolicy.RunIsSound | internal/cache/cache.go:146-254 | Whatever the policy answers, after every event of every run the used bytes are the sum of resident sizes, between zero and capacity; requests are hits plus misses, bytes likewise, and misses are admissions plus rejections |
| AnyPolicy.ResidentsAreConserved | internal/cache/cache.go:184-254 | Over any window the number of residents changes by admissions less evictions less successful deletes |
| AnyPolicy.CountersMatchRun | internal/cache/cache.go:146-182 | Requests and hits, and the bytes of each, are what the trace and the residency at each request make them, weighed at the size asked for and not the size stored |
| AnyPolicy.SizesAreKept | internal/cache/cache.go:155-175 | No event changes the stored size of an object that stays, at whatever size it is requested; a newcomer is stored at the size asked for |
| AnyPolicy.LastVictimWasNeeded | internal/cache/cache.go:217-237 | Eviction stops at the first fit: had some object it dropped been kept, the need would not have been met |
| AnyPolicy.BudgetBoundsAttempts | internal/cache/cache.go:211-237 | However wrong the policy, an attempt to make room ends: evictions and errors together stay within the budget and the one error that reports it spent |
| AnyPolicy.WrongPolicyIsStopped | internal/cache/cache.go:214-224 | A policy that only names non-residents is stopped after exactly the budget, nothing lost |
| AnyPolicy.WrongPolicyCostsBudget | internal/cache/cache.go:211-237 | In the cache, a miss under such a policy costs one policy error for each resident, sixty-four more and one for the budget; nothing is lost and the object is refused |
| AnyPolicy.EvictionsGrow | internal/cache/cache.go:146-254 | No event takes an eviction back |
| Protocol.CallsComeInOrder | internal/policy/policy.go:15-49 | What each event says to any policy, and in which order: a hit alone; on a miss the decision, and only if it was to admit, each key asked for and named followed by the removal of that key, and last the admission, exactly when the object is in; a removal whether or not the key was resident; a hint before all else |
| Protocol.StepIsBare | internal/policy/policy.go:15-22 | Writing the calls down changes nothing the cache or the policy does |
| AnyPolicy.WarmupIsTransparent | internal/cache/cache.go:285-293 | Restarting the counters changes no later state; counters of the window are the uninterrupted run's less their value at the split |
| AnyPolicy.CompulsoryMisses | internal/cache/cache.go:146-209 | From cold, under any policy, misses are at least the distinct keys requested, and residents are among them |
| UnitSize.RejectedIsAbsent | internal/cache/cache.go:36-39 | A request counts as a rejection exactly when it leaves its key absent |
| WorkingSet.WorkingSetFits | internal/trace/request.go:38-63 | With room for every key at its largest size, a policy that accepts everything never evicts or rejects, and misses once per distinct key, keys recurring at different sizes included |
| Policies.HitAgrees | internal/policy/policy.go:26-27 | Each policy, told of a hit, still tracks exactly the residents |
| Policies.DecideReady | internal/policy/policy.go:29-33 | Each policy's admission decision keeps the tracked set and leaves no ghost of the key asked about |
| Policies.AdmitAgrees | internal/policy/policy.go:35-38 | Each policy, told of an admission, tracks the residents and the newcomer |
| Policies.DropAgrees | internal/policy/policy.go:45-49 | Each policy, told of any removal, tracked or not, tracks exactly what is left |
| Policies.EvictAgrees | internal/policy/policy.go:40-43 | While any byte is resident each policy names a resident, and the removal that follows leaves it tracking the rest |
| Agreement.RunIsHealthy | internal/cache/cache.go:146-254 | Over every run of each of the six policies, deletes included, the tracked set is the resident set and no policy error is ever counted |
| Agreement.MissAdmits | internal/cache/cache.go:184-209 | A miss ends with the key resident, at the size asked for, exactly when it fits the whole cache and the policy accepts it |
| Agreement.RoomIsMade | internal/cache/cache.go:211-237 | The eviction budget never runs out and room is always made |
| CacheObject.Cache.New | internal/cache/cache.go:85-101 | A new online cache is cold, and no oracle policy gets into one |
| CacheObject.Cache.NewOracle | internal/cache/cache.go:103-115 | A new oracle cache is cold |
| CacheObject.Cache.Access | internal/cache/cache.go:125-132 | Takes the cache and its policy object to the specified state; answers whether the key was resident |
| CacheObject.Cache.AccessOracle | internal/cache/cache.go:134-144 | The same, the hint having reached the policy first |
| CacheObject.Cache.Serve | internal/cache/cache.go:146-182 | Hits reach only the hit call; misses only the insertion |
| CacheObject.Cache.Insert | internal/cache/cache.go:184-209 | Decision before any eviction, then room, then admission; answers whether the key ended up resident |
| CacheObject.Cache.EvictToFit | internal/cache/cache.go:211-237 | The bounded loop ends, in the specified state, and answers whether the need now fits |
| CacheObject.Cache.RemoveKey | internal/cache/cache.go:239-251 | Drops the key and its bytes and tells the policy either way |
| CacheObject.Cache.Delete | internal/cache/cache.go:253-254 | The same on request, answering whether the key was resident |
| CacheObject.Cache.ResetStats | internal/cache/cache.go:285-293 | Only the counters change |
| FifoPolicy.FIFO.OnAdmit | internal/policy/fifo.go:34-51 | The linked queue gains the key at its new end, or is untouched if it has it |
| FifoPolicy.FIFO.Evict | internal/policy/fifo.go:53-58 | Names the oldest key and changes nothing |
| FifoPolicy.FIFO.OnRemove | internal/policy/fifo.go:60-77 | Unlinks the key wherever it stands, the rest in order |
| FifoTheorems.ResidentsAreLatestArrivals | internal/policy/fifo.go:29-58 | With no deletes the queue is always the admission history less its first evictions, so residents are the latest arrivals |
| Orders.ListsStandInOrder | internal/policy/fifo.go:34-77 | Over every run, deletes included, FIFO, SIEVE and Belady list what they track in order of arrival, and LRU in order of last request |
| Orders.FifoVictimArrivedFirst | internal/policy/fifo.go:53-58 | FIFO's victim is the resident that arrived first |
| Orders.LruVictimIsLeastRecent | internal/policy/lru.go:50-55 | LRU's victim is the resident whose last request is the oldest |
| LruPolicy.LRU.OnHit | internal/policy/lru.go:31-35 | The key's node moves to the front, the rest in order |
| LruPolicy.LRU.OnAdmit | internal/policy/lru.go:39-48 | The key comes first, linked or relinked |
| LruPolicy.LRU.Evict | internal/policy/lru.go:50-55 | Names the least recently used key and changes nothing |
| LruPolicy.LRU.OnRemove | internal/policy/lru.go:57-65 | Unlinks the key, the rest in order |
| LruTheorems.RoomIsPrefix | internal/cache/cache.go:217-237 | Making room under LRU keeps exactly the longest prefix of the recency order that fits |
| LruTheorems.StepIsNext | internal/policy/lru.go:31-106 | Each event's effect on the recency order in closed form, and when it misses |
| LruTheorems.LruInclusion | internal/replay/replay_test.go:176-197 | With one size per key, and either every requested size fitting the smaller cache or neither, or none fitting the smaller, the smaller cache's recency order is always a prefix of the larger one's: its residents are resident there, and the larger never misses more; deletes included |
| LruSizes.InclusionExactly | internal/replay/replay_test.go:176-197 | For any set of sizes and any two capacities: over all traces with one size per key, the larger cache always holds what the smaller does, and never misses more, if and only if no size fits only the larger while another fits both |
| LruSizes.OneSizeExactly | internal/replay/replay_test.go:176-197 | At all capacities together, misses never rise over those traces if and only if there is one size |
| LruSizes.OneSizeExactlyMixed | internal/cache/cache.go:160-175 | The same condition when keys may also change size |
| LruSizes.StraddlingBreaksInclusion | internal/cache/cache.go:184-189 | Wherever one size fits both caches and another only the larger, a trace of the two leaves a resident of the smaller outside the larger, and then the larger has missed once more |
| LruSizes.LargeObjectRaisesMisses | internal/cache/cache.go:184-189 | If besides the two sizes do not fit the larger cache together, three requests suffice: two misses in the smaller, three in the larger |
| LruLimits.ChangingSizesRaiseMisses | internal/cache/cache.go:160-164 | One key requested at three bytes and then at one: inclusion fails after four requests, and after six the cache of four bytes has missed five times and that of three bytes four |
| LruStack.ResidentsAreTopOfStack | internal/policy/lru.go:31-106 | At unit size the cache holds exactly the top of the stack of all keys by last request |
| LruStack.StackDepth | internal/policy/lru.go:31-106 | A key's depth in that stack is the set of other keys requested since it last was |
| LruStack.LruStackDistance | internal/cache/cache.go:146-237 | At unit size a request hits if and only if its key was requested before and fewer other keys than the capacity were requested since |
| LfuPolicy.LFU.OnHit | internal/policy/lfu.go:50-69 | The key moves to the end of the next frequency's list; the least frequency is kept right |
| LfuPolicy.LFU.OnAdmit | internal/policy/lfu.go:73-83 | The key joins the end of frequency one |
| LfuPolicy.LFU.Evict | internal/policy/lfu.go:85-97 | Names the entry least in frequency and then arrival at it, and names one whenever any is tracked |
| LfuPolicy.LFU.OnRemove | internal/policy/lfu.go:99-107 | Takes the key out of its bucket, whichever that is |
| LfuPolicy.LFU.RaiseMinFreq | internal/policy/lfu.go:125-136 | The upward scan ends at the lowest frequency in use |
| LfuPolicy.LeastIsLowestHead | internal/policy/lfu.go:90-96 | The head of the lowest occupied frequency is the entry least in frequency and arrival |
| LfuTheorems.FrequenciesCountHits | internal/policy/lfu.go:50-83 | Over every run each object's frequency is one plus its hits since admission, and entries stand in order of last request |
| LfuTheorems.LfuVictimIsLeastPopular | internal/policy/lfu.go:85-97 | A victim is named whenever anything is resident, and it is the resident least in hits since admission and then in last request |
| SievePolicy.SIEVE.OnHit | internal/policy/sieve.go:42-46 | Sets the key's bit in place |
| SievePolicy.SIEVE.OnAdmit | internal/policy/sieve.go:50-67 | The key joins the new end with a clear bit; the hand stays |
| SievePolicy.SIEVE.Evict | internal/policy/sieve.go:75-97 | The sweep ends; bits, hand and victim are the specified sweep's |
| SievePolicy.SIEVE.OnRemove | internal/policy/sieve.go:99-121 | Unlinks the key, moving the hand one newer if it rested there |
| SievePolicy.SweepStopsAtFirstClear | internal/policy/sieve.go:80-96 | The victim is the first object with a clear bit from the hand toward the newest, wrapping around, and exactly the objects passed lose their bits |
| SievePolicy.SweepWrapsWhenAllSet | internal/policy/sieve.go:84-93 | With every bit set the sweep clears all of them once and takes the object it started at |
| SievePolicy.SweepKeepsOrder | internal/policy/sieve.go:69-97 | Sweeping moves nothing, passes at most every object once, and clears one bit per pass |
| SievePolicy.SweepResumes | internal/policy/sieve.go:69-121 | Once the victim is removed the next sweep starts at the object just newer than it, or at the oldest |
| SieveRuns.QuietRun | internal/policy/sieve.go:39-67 | Any stretch of requests that evicts nothing leaves the hand and every object where they were, sets exactly the bits of the objects hit in it, and puts newcomers last |
| SieveRuns.NextVictim | internal/policy/sieve.go:39-97 | In the cache, whatever is hit and admitted after an eviction, the next victim is the first clear bit from the object that stood just newer than the last victim, or from the oldest if none did; with every bit set, that very object |
| SievePolicy.MarkedKeeps | internal/policy/sieve.go:39-46 | A hit sets that key's bit and no other, and leaves the hand and the order |
| SievePolicy.AdmittedKeeps | internal/policy/sieve.go:50-67 | A newcomer stands last with a clear bit, and the hand and every other entry are as they were |
| SievePolicy.RemovedKeeps | internal/policy/sieve.go:99-121 | A removal takes one entry out of place, keeps the rest as they were, and moves the hand only off the entry that goes, one newer or away |
| SievePolicy.EvictedKeeps | internal/policy/sieve.go:69-97 | An eviction names a tracked key and leaves the hand off it, on its newer neighbour if it has one; the hand stays on a linked object, and its passes are the bits it cleared |
| S3FifoPolicy.S3FIFO.OnHit | internal/policy/s3fifo.go:121-129 | Raises the key's counter in whichever queue has it |
| S3FifoPolicy.S3FIFO.CanAdmit | internal/policy/s3fifo.go:131-150 | Decision, flag and forgotten ghost together are the specified ones |
| S3FifoPolicy.S3FIFO.OnAdmit | internal/policy/s3fifo.go:152-165 | The key joins the specified queue |
| S3FifoPolicy.S3FIFO.Evict | internal/policy/s3fifo.go:167-177 | All three queues, the flags and the victim are the specified eviction's |
| S3FifoPolicy.S3FIFO.EvictFromSmall | internal/policy/s3fifo.go:179-199 | The sweep of the small queue, with its promotions and the fall through to main |
| S3FifoPolicy.S3FIFO.EvictFromMain | internal/policy/s3fifo.go:201-221 | The clock over the main queue |
| S3FifoPolicy.S3FIFO.OnRemove | internal/policy/s3fifo.go:238-243 | Takes the key out of small, or else of main |
| S3FifoPolicy.ClockClosedForm | internal/policy/s3fifo.go:201-221 | The victim is the earliest object whose counter, capped at 3, is least; what remains is the rotation after it with the counters that many passes leave, after at most 3 reinsertions an object |
| S3FifoPolicy.EarliestLeastExists | internal/policy/s3fifo.go:204-221 | A queue that is not empty has such an object, so the clock always finds a victim |
| S3FifoPolicy.HitKeeps | internal/policy/s3fifo.go:121-129 | A hit keeps the split of residents between small and main, and adds one to the live counters |
| S3FifoSweeps.HitRaises | internal/policy/s3fifo.go:121-129 | It is the counter of the key's own entry that rises, and nothing else changes |
| S3FifoRuns.CountersCountHits | internal/policy/s3fifo.go:121-221 | Over every run, deletes included, the counter of an object in small is its hits since it was admitted, and that of an object in main is no more |
| S3FifoPolicy.DecidedKeeps | internal/policy/s3fifo.go:131-150 | After a decision the key is no ghost, the queues agree with the cache, and only what fits the small queue is accepted |
| S3FifoPolicy.AdmittedKeeps | internal/policy/s3fifo.go:152-165 | After an admission small and main are disjoint, at the residents' sizes, and cover the residents and the newcomer; ghosts are no residents |
| S3FifoPolicy.EvictedKeeps | internal/policy/s3fifo.go:167-236 | With any byte resident the victim is a resident already out of both queues, ghosts stay in their capacity, and the counters given up cover the sweep's cost |
| S3FifoPolicy.RemovedKeeps | internal/policy/s3fifo.go:238-243 | Any removal keeps the queues split over what is left |
| S3FifoSweeps.RemovalDrops | internal/policy/s3fifo.go:238-243 | It takes the key's entry out of small and main and changes nothing else, ghosts and flags included |
| S3FifoSweeps.AdmissionAppends | internal/policy/s3fifo.go:152-165 | A newcomer stands last in its queue with its counter at zero, and no other entry anywhere changes |
| S3FifoSweeps.DecisionDrops | internal/policy/s3fifo.go:131-150 | A decision forgets no ghost but the key's own, notes whether it was one, and changes nothing else |
| S3FifoPolicy.SplitsBytes | internal/policy/s3fifo.go:258-293 | The two queues' used bytes add up to the resident bytes |
| S3FifoSweeps.NothingIsNamed | internal/policy/s3fifo.go:167-221 | An eviction names nothing if and only if the main queue is empty and the small one holds no bytes |
| S3FifoTheorems.ZeroBytesAreNeverNamed | internal/policy/s3fifo.go:170-177 | One request for an object of no bytes, from cold, leaves it tracked in small and no eviction to name it |
| S3FifoSweeps.EvictionClosedForm | internal/policy/s3fifo.go:167-236 | A whole eviction: which queue is swept, its victim, what each queue is left as, and what is remembered |
| S3FifoSweeps.RememberingHaunts | internal/policy/s3fifo.go:225-236 | Remembering puts the key last and gives up the fewest oldest ghosts that let it fit, or does nothing when it could not fit |
| S3FifoRuns.SweepIsChosen | internal/policy/s3fifo.go:167-177 | In the cache, an eviction leaves small alone, its victim from main, exactly when main is over its share or no byte is in small |
| S3FifoGhosts.GhostsStay | internal/policy/s3fifo.go:134-236 | Over any run a ghost that is not requested stays one while it, the ghosts after it and the objects demoted since fit the ghosts' capacity |
| S3FifoGhosts.DemotedStaysGhost | internal/policy/s3fifo.go:182-236 | From its demotion an object stays a ghost until it is requested or it and the objects demoted since overflow that capacity |
| S3FifoSweeps.SmallClosedForm | internal/policy/s3fifo.go:179-199 | The victim of a small-queue sweep is the first entry below the threshold; those ahead of it end behind main in order with counters at zero, and those behind it stay |
| S3FifoSweeps.SmallOverflows | internal/policy/s3fifo.go:179-199 | With every entry at the threshold the whole small queue ends behind main, and the clock over both decides |
| S3FifoSweeps.DemotedIsRemembered | internal/policy/s3fifo.go:182-236 | Whatever a sweep promotes on the way, the victim it takes from small is a ghost afterwards, if the ghosts' capacity could ever hold it |
| S3FifoSweeps.DecisionIsPure | internal/policy/policy.go:29-33 | An admission decision changes the ghosts exactly when the key is one, and leaves the whole policy alone exactly when besides no flag was left set |
| S3FifoSweeps.RefusalForgets | internal/policy/s3fifo.go:131-150 | A refusal costs a ghost exactly when the key is one and its size is above the small queue's capacity |
| S3FifoTheorems.RefusedReturnIsForgotten | internal/policy/s3fifo.go:134-143 | Three requests from cold after which an evicted object has come back too large, been refused, and is no ghost any more |
| S3FifoTheorems.ReturningGoesToMain | internal/policy/s3fifo.go:131-177 | In the cache, making room included: a missed object is accepted below the small queue's capacity, and at it if it returns as a ghost; it then stands in main exactly if it was a ghost or no eviction has ever been made, for it either, and small was full |
| Amortised.SweepingIsPaidByHits | internal/policy/s3fifo.go:121-221 | Over any run, deletes included, main reinsertions plus the promotion threshold for every promotion, with the counters still live, never exceed the hits and the counters at the start |
| Amortised.ColdSweepingIsPaidByHits | internal/policy/sieve.go:42-97 | From cold, the bits a SIEVE hand clears (and S3-FIFO's cost) never exceed the hits so far |
| S3FifoSweeps.CostClosedForm | internal/policy/s3fifo.go:170-221 | That cost is main's reinsertions when main is swept, and the threshold for each entry promoted when small is |
| Heap.RootBeatsAll | internal/policy/belady.go:124-138 | In an ordered heap nothing goes before the root |
| BeladyPolicy.ItemHeap.Less | internal/policy/belady.go:130-138 | Later next access first, earlier admission on a tie |
| BeladyPolicy.ItemHeap.Swap | internal/policy/belady.go:140-143 | Two slots trade items and every item still knows its own slot |
| BeladyPolicy.ItemHeap.Push | internal/policy/belady.go:145-149 | The heap gains one item and is ordered again |
| BeladyPolicy.ItemHeap.Remove | internal/policy/belady.go:94-94 | The item in any slot leaves, the others stay, in order |
| BeladyPolicy.ItemHeap.Fix | internal/policy/belady.go:114-114 | Order is restored after one item's time changed, earlier or later |
| BeladyPolicy.BELADY.OnNextAccess | internal/policy/belady.go:57-62 | Only the pending hint changes |
| BeladyPolicy.BELADY.OnHit | internal/policy/belady.go:64-68 | A hint for the same key becomes its time, in place |
| BeladyPolicy.BELADY.OnAdmit | internal/policy/belady.go:72-78 | The key is tracked with its hint, or as never needed again, in one heap slot |
| BeladyPolicy.BELADY.Evict | internal/policy/belady.go:80-87 | Names the key needed last, the earliest admitted among ties, and changes nothing |
| BeladyPolicy.BELADY.OnRemove | internal/policy/belady.go:89-97 | The key leaves both index and heap |
| BeladyPolicy.BELADY.SetNext | internal/policy/belady.go:107-122 | One entry per key, updated in place or appended in admission order |
| Optimality.DominationSurvives | internal/policy/belady.go:5-18 | At every horizon the furthest-first cache has as many objects due as the rival, give or take the misses the rival is behind; each request keeps it |
| BeladyTheorems.OracleIsFresh | internal/policy/belady.go:57-122 | After every request, at any sizes, the time stored for each resident is exactly its next request, or never |
| BeladyTheorems.HintsReachTheirKey | internal/policy/belady.go:57-78 | A hint reaches only the key it came for; a newcomer without one is stored as never needed, and no other entry changes |
| Orders.BeladyVictimIsFurthest | internal/policy/belady.go:80-97 | Over every run the victim is stored as needed last, and among those is the one that arrived first |
| BeladyOptimal.StepIsFurthest | internal/policy/belady.go:80-87 | At unit size the oracle cache evicts at most one object a miss, and none is needed later |
| BeladyOptimal.BeladyIsOptimal | internal/policy/belady.go:15-18 | At unit size, on every trace and at every point of it, the oracle cache has missed no more than any schedule of the same capacity that admits every miss |
| BeladyOptimal.NoAdmittingPolicyBeatsBelady | internal/policy/belady.go:7-18 | No policy whose run rejects nothing misses less at the same capacity |
| BeladyOptimal.OneMoreSlotBeatsEveryPolicy | internal/policy/belady.go:15-23 | With one more slot it misses no more than any policy, refusing ones included |
| BeladyOptimal.OnlinePoliciesNeverBeatBelady | internal/policy/belady.go:7-18 | FIFO, LRU, LFU and SIEVE never miss less than Belady at unit size and the same capacity |
| BeladyLimits.AdmittingMissesMore | internal/policy/belady.go:20-23 | On the requests for as many keys as slots, one more, and the first again, every schedule that admits what it misses misses some key twice |
| BeladyLimits.RefusalBeatsBelady | internal/policy/belady.go:20-23 | On them, at every capacity, refusing the one key more misses each key once, and Belady misses more often |
| Trace.Summarize | internal/trace/request.go:38-63 | Counts requests and unique objects, and sums each object once at its largest size |
| Trace.LargestIsLargest | internal/trace/request.go:38-47 | That size is one the key is requested at, and none is larger |
| Replay.NextAccessTimes | internal/replay/replay.go:269-287 | Each entry is the least later index with the same key, or never |
| Replay.Feed | internal/replay/replay.go:199-202 | The online loop leaves the cache where the run of those requests ends |
| Replay.FeedOracle | internal/replay/replay.go:194-198 | The oracle loop does, each request carrying the next use of its key |
| Replay.Replay | internal/replay/replay.go:142-267 | An empty trace is refused; otherwise the metrics are those of the warmed cache's run over the measured window |
| ReplayTheorems.WarmupOnlyRestartsCounters | internal/replay/replay.go:193-218 | Final contents do not depend on where the warmup ends; measured counters are the whole run's less the warmup's |
| ReplayTheorems.UniqueObjectsAreMissed | internal/trace/request.go:49-49 | Every cold replay misses at least as often as the summary counts unique objects |
| ReplayTheorems.WorkingSetIsEnough | internal/trace/request.go:31-35 | At the summary's working set, every policy but S3-FIFO evicts and rejects nothing and misses exactly the unique objects |
| ReplayTheorems.ReplayKeepsTimesFresh | internal/replay/replay.go:269-287 | Backward pass, hint and policy together keep every stored time right through a replay |
| ReplayTheorems.OracleReplayIsOptimal | internal/policy/belady.go:15-18 | A unit-size oracle run over a trace's hints misses no more than any schedule that admits every miss |
| ReplayTheorems.ReplayBelady | internal/replay/replay.go:142-267 | The misses reported by a replay of a unit-size trace through a new Belady object, nothing warmed up, are no more than those of any schedule that admits every miss |
| HashRing.Ring.AddNode | client/consistent_hash.go:32-50 | A blank address is refused and changes nothing; otherwise hashes stay sorted, agree with the map, and the server owns its twenty points, collisions included |
| HashRing.Ring.GetNode | client/consistent_hash.go:52-70 | The owner is the server at the first hash at or after the key's, wrapping to the least; an empty ring is an error |
| HashRing.JoiningMovesOnlyToNewcomer | client/consistent_hash.go:10-12 | When a server joins, a key moves exactly when its first hash is one of the newcomer's, and then to the newcomer |
| HashRing.ManyJoinsMoveOnlyToNewcomers | client/consistent_hash.go:32-50 | However many servers join, each key stays with its owner or goes to one of them |
| HashRing.LabelsAreUnique | client/consistent_hash.go:37-40 | No two servers share the name of a point, and none uses a name twice |
| HashRing.PointsBelongToLastClaimant | client/consistent_hash.go:37-45 | The ring has exactly the twenty named points of each server that joined, and a point several of them have belongs to the last |
| HashRing.EachOwnsTwenty | client/consistent_hash.go:30-45 | Where no points fall together each server owns exactly 20, however often it joined |
| HashRing.JoiningAddsTwenty | client/consistent_hash.go:30-45 | And one that joins for the first time adds 20 |
| Params.ParseParams | internal/policy/registry.go:141-159 | The loop's result is the fold of the trimmed tokens, failing at the first that is no key and value |
| Params.ParseFailsExactly | internal/policy/registry.go:141-159 | Parsing fails if and only if some piece between commas is neither blank nor holds an equals sign, and with the first such piece, trimmed |
| Params.ParseGivesExactly | internal/policy/registry.go:141-159 | Otherwise a key has a value if and only if the last piece that gives the key one gives it that one: what precedes the first equals sign in lower case, what follows it, both trimmed |
| Params.ParsedIsClean | internal/policy/registry.go:141-159 | Parsed keys are trimmed, lower case and free of commas and equals signs; values are trimmed and free of commas |
| Params.PrintSorted | internal/policy/registry.go:187-200 | Whatever order the map gives its keys in, the output lists every pair once in key order |
| Params.PrintingIsUnique | internal/policy/registry.go:187-200 | The printed string depends on the mapping alone |
| Params.PrintedPieces | internal/policy/registry.go:187-200 | The printed string, cut at its commas, is each key in order, an equals sign and its value |
| Text.NotAfterIs | internal/policy/registry.go:187-194 | The order keys are printed in: one that begins another first, else by the first character that differs |
| Text.TrimSpaceCuts | internal/policy/registry.go:141-159 | Trimming takes white space off both ends and nothing else |
| Params.PrintedParses | internal/policy/registry.go:141-200 | Parsing undoes printing for every clean mapping, empty keys and values and values with equals signs included |
| Params.ParsePrintParse | internal/policy/registry.go:141-200 | Whatever a string parses to, printing that and parsing again gives it back |

## Left out

- Metadata byte estimates, their peaks, and timing: estimates and wall clock.
- Miss ratios, cache-size specifications and S3-FIFO's ratios: floating point. Capacities arrive as integers, S3-FIFO's as any small, main and ghost capacities.
- 64-bit overflow of counters, used bytes and sequence numbers; a trace longer than the largest index is excluded by precondition.
- Opening, decompressing and reading traces; the model starts from a sequence of requests of non-negative size.
- The policy registry's lookup by name and its errors; a replay is handed its policy object.
- Servers, sockets and the client's connection handling.
- Shrinking a `nil` item out of the heap's backing array, which only helps garbage collection.
- CacheObject.Cache.New: the panics on a missing policy, a capacity that is not positive or an oracle policy are preconditions.
- CacheObject.Cache.NewOracle: the panics on a missing policy or a capacity that is not positive are preconditions.
- CacheObject.Cache.Access: the panics on the wrong kind of cache or a negative size are preconditions.
- CacheObject.Cache.AccessOracle: the panics on the wrong kind of cache or a negative size are preconditions.
- CacheObject.Cache.Serve: the metadata sample that follows each request is not modelled.
- CacheObject.Cache.ResetStats: the reset of the metadata peaks is not modelled.
- PolicyObjects.OnHit: a policy other than the six is any deterministic one whose state can be coded as a number.
- Replay.Replay: the warmup length arrives already rounded from the warmup fraction, whose own range check is not modelled, and neither are the errors of the size specification and the registry.
- BeladyOptimal.BeladyIsOptimal: about unit sizes and a whole cold trace, which is all the code promises.
- LruSizes.InclusionExactly: for keys that keep one size; where keys change size too, the exact condition is proved for all capacities together and not for two given ones.
- LruStack.LruStackDistance: about unit sizes and traces without deletes.
- FifoTheorems.ResidentsAreLatestArrivals: without deletes, which take objects from the middle of the queue.
- HashRing.Ring.AddNode: the checksum is an arbitrary function from strings to 32-bit values, and sorting is written out.
- HashRing.EachOwnsTwenty: about servers whose points do not fall together; where they do, a point belongs to the last to claim it.
- Params.ParseParams: lower-casing is any idempotent mapping of characters that makes no comma or equals sign; text that is not valid UTF-8 is not modelled.
