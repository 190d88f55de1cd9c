# CostModuleV1: pool cost registry and percentile cache, in Dafny

This project models the cost module of the dCache pool manager (`CostModuleV1`). The module keeps
one cost record per storage pool, built from the pools' heartbeat (pool-up) messages. It applies
signed queue and pinned-space deltas for transfer events: I/O requests and replies, door
transfer-finished notices, restores, pool selections and pool-to-pool copies. It answers two kinds
of question: "what is the cost of fresh pool X", and "which cost separates the cheapest fraction F
of pools from the rest" (the percentile cost cut), which it memoises in a single-slot cache.

Layout:

- `wrappers.dfy`: `Option` (Java `null`) and `Result` (the `IllegalArgumentException`).
- `pool_cost.dfy`: the pool's cost record and its queues, mover-queue name resolution, and the
  two in-place updates (`modifyQueue`, `modifyPinnedSpace`).
- `percentile.dfy`: what the percentile cut *is*, stated without sorting. For n > 0 pools and
  k = floor(fraction * n), it is a pool's cost r such that at most k pools cost less than r and
  more than k pools cost at most r. This file proves that this value is unique, that it is the
  element at index k of the ascending-sorted costs, and that it survives a cost move that does not
  cross it. It also holds the insertion sort that stands for `Arrays.sort`.
- `registry.dfy`: the registry and the cache as a value (`Registry`), and one step function per
  message (`HeartbeatStep`, `IoFileStep`, …) in module `PoolRegistry`. The lemmas state their effects, along with the
  invariant `CacheSound`: a valid cache holds the true percentile cut of the current registry.
- `cost_module.dfy`: class `CostModuleV1`, with the map `hash` and the three cache fields
  updated in place. Each handler is proved to perform its step and to keep `Valid()`
  (= `CacheSound`). The queries are read-only methods and functions.

The performance cost formula is the class constant `cost: CostInfo -> real`. It is an arbitrary
deterministic function, so every theorem holds for every cost formula. The wall clock is an
explicit `now` parameter in milliseconds. The envelope's source address is a parameter of
`MessageArrived`.

Three behaviours of CostModuleV1 are easy to misread; the model follows the code as written:

- The percentile is computed over **all** registered entries, including stale ones, not only the
  fresh ones (CostModuleV1.java:436-446).
- A **successful** I/O reply changes nothing. Only a reply with a non-zero return code takes one
  off the mover queue (CostModuleV1.java:222-230).
- A P2P message pins the transfer size on the destination on **both** the request and the reply
  (CostModuleV1.java:384-389).

Taken together, the lemmas say that the sign-crossing invalidation rule is sound. While the cache
is valid, the cached value is exactly what a recomputation would return. So
`GetPoolsPercentilePerformanceCost` always answers the percentile cut of the current registry,
whether it answers from the cache or recomputes.

## Model

| member | source | states |
|---|---|---|
| `PoolCost.ResolveMoverQueue` | modules/dcache/src/main/java/diskCacheV111/poolManager/CostModuleV1.java:211-220 | with no extended mover map, the plain mover queue; otherwise the requested name if it is given and present, else the default name; none when that default is absent too; the result always exists in the record |
| `PoolCost.AdjustQueue` | modules/dcache/src/main/java/diskCacheV111/poolManager/CostModuleV1.java:232 | `modifyQueue`: the chosen queue's active count moves by exactly the delta, its maximum and every other queue are unchanged, the same queues exist, the extended mover map stays present or absent as it was, and space and the default queue name are untouched |
| `PoolCost.ModifyPinnedSpace` | modules/dcache/src/main/java/diskCacheV111/poolManager/CostModuleV1.java:233 | `modifyPinnedSpace`: pinned space moves by the delta; total, free and removable space, every queue, the extended mover map and the default queue name are unchanged |
| `PoolCost.AdjustQueueInverse` | modules/dcache/src/main/java/diskCacheV111/poolManager/CostModuleV1.java:232 | a +d delta followed by a -d delta on the same queue restores the record |
| `PoolCost.ZeroDeltaIsIdentity` | modules/dcache/src/main/java/diskCacheV111/poolManager/CostModuleV1.java:222-233 | zero queue and pinned deltas leave the record unchanged |
| `PoolCost.ResolveStable` | modules/dcache/src/main/java/diskCacheV111/poolManager/CostModuleV1.java:258-268 | counter deltas never change which mover queue a name resolves to |
| `PoolCost.AdjustCommutesWithPinned` | modules/dcache/src/main/java/diskCacheV111/poolManager/CostModuleV1.java:348-349 | queue and pinned-space deltas commute |
| `Percentile.Sign` | modules/dcache/src/main/java/diskCacheV111/poolManager/CostModuleV1.java:180-181 | `Math.signum`: -1, 0 or 1 exactly as the argument is negative, zero or positive |
| `Percentile.PercentileIndex` | modules/dcache/src/main/java/diskCacheV111/poolManager/CostModuleV1.java:446 | for 0 < fraction < 1 and n > 0, floor(fraction × n) lies in [0, n) |
| `Percentile.CutUnique` | modules/dcache/src/main/java/diskCacheV111/poolManager/CostModuleV1.java:427-447 | the rank characterisation of the cut admits at most one value |
| `Percentile.CutStable` | modules/dcache/src/main/java/diskCacheV111/poolManager/CostModuleV1.java:169-184 | when one pool's cost moves but stays below, on, or above the cut, the cut is still the percentile cut (why the sign test is a sound invalidation rule) |
| `Percentile.ThreePoolsMedian` | modules/dcache/src/main/java/diskCacheV111/poolManager/CostModuleV1.java:444-446 | with costs 1, 2 and 3, the cut for fraction 0.5 is 2 and no other value |
| `Percentile.SortedIndexIsCut` | modules/dcache/src/main/java/diskCacheV111/poolManager/CostModuleV1.java:436-446 | the element at index floor(fraction × n) of any sorted permutation of all n pools' costs is the percentile cut |
| `Percentile.CountPermutation` | modules/dcache/src/main/java/diskCacheV111/poolManager/CostModuleV1.java:444 | how many costs lie below a value does not depend on their order |
| `Percentile.SortCosts` | modules/dcache/src/main/java/diskCacheV111/poolManager/CostModuleV1.java:444 | `Arrays.sort`: afterwards the array is ascending and holds the same multiset of costs |
| `PoolRegistry.NewEntry` | modules/dcache/src/main/java/diskCacheV111/poolManager/CostModuleV1.java:83-92 | the `Entry` constructor: keeps address and record, keeps a non-null tag map and turns a null one into the empty map, stamps the entry with the creation time, and the new entry is fresh then and stale exactly 300000 ms later |
| `PoolRegistry.ToPoolInfo` | modules/dcache/src/main/java/diskCacheV111/poolManager/CostModuleV1.java:109-112 | `Entry.getPoolInfo`: the entry's address, record and tags (a definition; its effect is stated by `GetPoolInfo` and `GetPoolInfoAsMap`) |
| `PoolRegistry.IsFresh` | modules/dcache/src/main/java/diskCacheV111/poolManager/CostModuleV1.java:94-97 | `Entry.isValid`: fewer than 5 × 60 × 1000 ms since the entry's timestamp (a definition; its effect is stated by `NewEntry` and `HeartbeatRefreshes`) |
| `PoolRegistry.ShouldRemovePool` | modules/dcache/src/main/java/diskCacheV111/poolManager/CostModuleV1.java:129-132 | the pool is to be removed when its mode is disabled, disabled-strict or disabled-dead (a definition; its effect is stated by `HeartbeatEffect`) |
| `PoolRegistry.UpdateInfo` | modules/dcache/src/main/java/diskCacheV111/poolManager/CostModuleV1.java:232-235 | replaces one registered pool's record with the given one and changes nothing else of any pool; the cache becomes the sign-crossing test (`Recheck`) of the pool's old and new costs, so it stays valid when the cost stays on the same side of the cut |
| `PoolRegistry.HeartbeatStep` | modules/dcache/src/main/java/diskCacheV111/poolManager/CostModuleV1.java:120-146 | the value-level heartbeat: no pool other than the one named appears, disappears or changes; cut and fraction are kept; the cache can only become invalid |
| `PoolRegistry.IoFileStep` | modules/dcache/src/main/java/diskCacheV111/poolManager/CostModuleV1.java:193-240 | the value-level I/O handler: only the named pool's record can change; an unregistered pool or an unresolvable mover queue changes nothing |
| `PoolRegistry.DoorTransferFinishedStep` | modules/dcache/src/main/java/diskCacheV111/poolManager/CostModuleV1.java:242-278 | the value-level transfer-finished handler, with the same frame and no-op cases |
| `PoolRegistry.FetchFileStep` | modules/dcache/src/main/java/diskCacheV111/poolManager/CostModuleV1.java:280-312 | the value-level restore handler: only the named pool's record can change; an unregistered pool changes nothing |
| `PoolRegistry.SelectPoolStep` | modules/dcache/src/main/java/diskCacheV111/poolManager/CostModuleV1.java:314-354 | the value-level selection handler, with the same frame and no-op cases as the I/O handler |
| `PoolRegistry.Pool2PoolStep` | modules/dcache/src/main/java/diskCacheV111/poolManager/CostModuleV1.java:356-399 | the value-level P2P handler: only the source and destination records can change; if either pool is unregistered nothing changes; otherwise the cache is the source's sign-crossing test followed by the destination's, each comparing the pre-event cost with the cost after all changes (391-393) |
| `PoolRegistry.Forward` | modules/dcache/src/main/java/diskCacheV111/poolManager/CostModuleV1.java:193-399 | a forwarded message changes only the cost records of the pools it names: the same pools stay registered with the same address, tags and timestamp; the cut and fraction stay; the cache can only go from valid to invalid |
| `PoolRegistry.Recheck` | modules/dcache/src/main/java/diskCacheV111/poolManager/CostModuleV1.java:178-184 | the cache stays valid iff it was valid and the old and new costs are both below, both on, or both above the cut; landing on or leaving the cut invalidates; cut and fraction never change |
| `PoolRegistry.SortedRegistryCostsGiveCut` | modules/dcache/src/main/java/diskCacheV111/poolManager/CostModuleV1.java:436-446 | listing every registered pool's cost once, in any order, then sorting and indexing gives the percentile cut of the registry |
| `PoolRegistry.UpdateInfoSound` | modules/dcache/src/main/java/diskCacheV111/poolManager/CostModuleV1.java:203-235 | replacing one pool's record and running the sign test keeps the cache sound |
| `PoolRegistry.HeartbeatSound` | modules/dcache/src/main/java/diskCacheV111/poolManager/CostModuleV1.java:120-146 | every heartbeat keeps the cache sound |
| `PoolRegistry.ForwardSound` | modules/dcache/src/main/java/diskCacheV111/poolManager/CostModuleV1.java:193-354 | every forwarded transfer message keeps the cache sound |
| `PoolRegistry.Pool2PoolSound` | modules/dcache/src/main/java/diskCacheV111/poolManager/CostModuleV1.java:384-393 | a P2P message, with its two separate sign tests, keeps the cache sound, also when source and destination are the same pool |
| `PoolRegistry.ForwardCacheOutcome` | modules/dcache/src/main/java/diskCacheV111/poolManager/CostModuleV1.java:193-354 | for a single-pool forwarded message naming a registered pool, the cache afterwards is the sign-crossing test of that pool's cost before and after; a cost that stays on the same side of the cut keeps a valid cache valid |
| `PoolRegistry.ForwardKeepsFreshNames` | modules/dcache/src/main/java/diskCacheV111/poolManager/CostModuleV1.java:94-97 | forwarded messages never change which pools the freshness-filtered queries report |
| `PoolRegistry.UnknownPoolIgnored` | modules/dcache/src/main/java/diskCacheV111/poolManager/CostModuleV1.java:359-373 | a message naming an unregistered pool changes neither the registry nor the cache; a P2P message with an unregistered source or destination changes nothing, not even the source |
| `PoolRegistry.SelectRequestIgnored` | modules/dcache/src/main/java/diskCacheV111/poolManager/CostModuleV1.java:316-318 | a selection message that is not a reply is a no-op |
| `PoolRegistry.IoFileSuccessIgnored` | modules/dcache/src/main/java/diskCacheV111/poolManager/CostModuleV1.java:222-235 | an I/O message that is not a failed reply changes nothing, the cache included |
| `PoolRegistry.IoFileFailureEffect` | modules/dcache/src/main/java/diskCacheV111/poolManager/CostModuleV1.java:225-233 | a failed I/O reply takes one off the resolved mover queue; for an accept message with a known size it also unpins that size; nothing else in the record changes (every other queue, every maximum, the other space fields, the default queue name and whether an extended mover map is present) |
| `PoolRegistry.DoorTransferFinishedEffect` | modules/dcache/src/main/java/diskCacheV111/poolManager/CostModuleV1.java:258-273 | a transfer-finished message takes one off the resolved mover queue, with no pinned change |
| `PoolRegistry.FetchFileEffect` | modules/dcache/src/main/java/diskCacheV111/poolManager/CostModuleV1.java:293-308 | a restore request adds one to the restore queue and pins the size if it is known; a restore reply subtracts one with no pinned change |
| `PoolRegistry.SelectPoolEffect` | modules/dcache/src/main/java/diskCacheV111/poolManager/CostModuleV1.java:345-349 | a selection reply adds one to the resolved mover queue and, for a write selection, pins the preallocated size |
| `PoolRegistry.Pool2PoolEffect` | modules/dcache/src/main/java/diskCacheV111/poolManager/CostModuleV1.java:384-389 | the source pool's p2p queue and the destination's p2p-client queue both move by +1 (request) or -1 (reply); the destination pins the transfer size (0 if unknown) on request and reply alike; everything else in both records (every other queue, every maximum, the other space fields, the default queue name and whether an extended mover map is present) is unchanged, also when source and destination are the same pool |
| `PoolRegistry.SelectThenFinishRestoresQueues` | modules/dcache/src/main/java/diskCacheV111/poolManager/CostModuleV1.java:258-273 | a selection reply followed by the matching transfer-finished message returns every queue of the pool to its earlier count; only the preallocation stays pinned; other pools are untouched |
| `PoolRegistry.HeartbeatEffect` | modules/dcache/src/main/java/diskCacheV111/poolManager/CostModuleV1.java:120-146 | an unknown pool, or a disabled, strictly disabled or dead mode, drops the cache; such a mode removes the entry, present or not; otherwise a non-null record replaces the entry with one stamped `now`, and a known pool's old and new costs go through the sign test; a known, kept pool with a null record leaves the whole state, cache included, unchanged; other pools, the cut and the fraction are untouched |
| `PoolRegistry.HeartbeatRefreshes` | modules/dcache/src/main/java/diskCacheV111/poolManager/CostModuleV1.java:83-97 | a registering heartbeat at `now` makes the pool fresh at a later time exactly when that time is before `now` + 300000 ms (an entry exactly 5 minutes old is stale) |
| `PoolManager.CostModuleV1.constructor` | modules/dcache/src/main/java/diskCacheV111/poolManager/CostModuleV1.java:62-67 | empty registry, invalid cache |
| `PoolManager.CostModuleV1.MessageArrived` | modules/dcache/src/main/java/diskCacheV111/poolManager/CostModuleV1.java:120-146 | performs `HeartbeatStep` on the registry map and cache fields and keeps the cache sound |
| `PoolManager.CostModuleV1.ConsiderInvalidatingCacheForInfos` | modules/dcache/src/main/java/diskCacheV111/poolManager/CostModuleV1.java:148-157 | the cache becomes `Recheck` of the two records' costs |
| `PoolManager.CostModuleV1.ConsiderInvalidatingCacheForCost` | modules/dcache/src/main/java/diskCacheV111/poolManager/CostModuleV1.java:159-167 | the cache becomes `Recheck` of the given cost and the new record's cost |
| `PoolManager.CostModuleV1.ConsiderInvalidatingCache` | modules/dcache/src/main/java/diskCacheV111/poolManager/CostModuleV1.java:178-184 | the cache becomes `Recheck` of the two costs |
| `PoolManager.CostModuleV1.MessageToForwardIoFile` | modules/dcache/src/main/java/diskCacheV111/poolManager/CostModuleV1.java:193-240 | performs `IoFileStep`; `ok` is false exactly when the pool is registered but its mover queue cannot be resolved |
| `PoolManager.CostModuleV1.MessageToForwardDoorTransferFinished` | modules/dcache/src/main/java/diskCacheV111/poolManager/CostModuleV1.java:242-278 | performs `DoorTransferFinishedStep`; `ok` as above |
| `PoolManager.CostModuleV1.MessageToForwardFetchFile` | modules/dcache/src/main/java/diskCacheV111/poolManager/CostModuleV1.java:280-312 | performs `FetchFileStep` |
| `PoolManager.CostModuleV1.MessageToForwardSelectPool` | modules/dcache/src/main/java/diskCacheV111/poolManager/CostModuleV1.java:314-354 | performs `SelectPoolStep`; `ok` as above, for replies |
| `PoolManager.CostModuleV1.MessageToForwardPool2Pool` | modules/dcache/src/main/java/diskCacheV111/poolManager/CostModuleV1.java:356-399 | performs `Pool2PoolStep`: all mutation happens after both lookups succeed |
| `PoolManager.CostModuleV1.MessageToForward` | modules/dcache/src/main/java/diskCacheV111/poolManager/CostModuleV1.java:405-409 | dispatches a message to its handler: the state becomes `Forward` of the old state, and `ok` is false exactly on the mover-class messages whose handler meets an unresolvable mover queue (`ForwardFails`) |
| `PoolManager.CostModuleV1.GetPoolsPercentilePerformanceCost` | modules/dcache/src/main/java/diskCacheV111/poolManager/CostModuleV1.java:411-425 | fails for fraction ≤ 0 or ≥ 1 and leaves the cache as it was; otherwise returns the cached cut, which is the percentile cut of the current registry; afterwards the cache is valid for this fraction; the cut is recomputed (ghost result `recomputed`) exactly when the fraction is legal and the cache was invalid or held another fraction, and otherwise the cache is left as it was; the registry is never changed |
| `PoolManager.CostModuleV1.CalculatePercentileCostCut` | modules/dcache/src/main/java/diskCacheV111/poolManager/CostModuleV1.java:427-447 | 0 for an empty registry, otherwise the percentile cut of the costs of all registered pools |
| `PoolManager.CostModuleV1.GetPoolCostInfos` | modules/dcache/src/main/java/diskCacheV111/poolManager/CostModuleV1.java:572-582 | the records of exactly the fresh pools, one per pool |
| `PoolManager.CostModuleV1.GetPoolCostInfo` | modules/dcache/src/main/java/diskCacheV111/poolManager/CostModuleV1.java:584-592 | the record iff the pool is registered and fresh |
| `PoolManager.CostModuleV1.GetPoolInfo` | modules/dcache/src/main/java/diskCacheV111/poolManager/CostModuleV1.java:594-602 | address, record and tags iff the pool is registered and fresh |
| `PoolManager.CostModuleV1.GetPoolInfoAsMap` | modules/dcache/src/main/java/diskCacheV111/poolManager/CostModuleV1.java:604-616 | keyed by exactly the requested names that are registered and fresh; each value is that pool's address, record and tags |

## Left out

- The cost formula `CostCalculationV5` (CostModuleV1.java:186-191) is an arbitrary deterministic function of the record, so every result holds for any formula.
- Floating point: costs and fractions are exact reals. `Math.signum` of NaN, rounding in `fraction * size`, and `Math.floor` on doubles are not modelled.
- Over the queue counters, sizes and timestamps: Java's `int` and `long` arithmetic is unbounded here, so the overflow of `System.currentTimeMillis() - timestamp` is not modelled.
- `System.currentTimeMillis()` is an explicit `now` argument.
- Concurrency: every `synchronized` method is one sequential step.
- Message dispatch by reflection (`CellMessageDispatcher`) is replaced by the `Message` union and `MessageToForward`.
- Serialization (`readObject`/`writeObject`), logging, the obsolete `cm set` commands, `cm fake`, `cm ls` and `xcm ls` are administrative or presentation code and are not modelled.
- `PnfsDeleteEntryMessage` is a message vehicle and is not part of this model.
- The code of `PoolCostInfo`, `PoolQueueInfo`, `PoolSpaceInfo` and `PoolV2Mode` lies outside CostModuleV1.java. `CostInfo`, `QueueInfo` and `SpaceInfo` model their data. `modifyQueue` and `modifyPinnedSpace` are assumed to be plain signed additions, with no clamping, to the active count and the pinned space; `PoolCost.AdjustQueueInverse` and `PoolRegistry.SelectThenFinishRestoresQueues` depend on that assumption. The pool mode is the three tests CostModuleV1 makes on it.
- Aliasing: the Java code stores the message's `PoolCostInfo` object and hands the same object out from the queries, so later deltas show through earlier query results. The model works on values, so a query result is a snapshot.
- PoolManager.CostModuleV1.MessageArrived: for a known pool that is kept but whose heartbeat carries a null record, the Java code runs the cost formula on `null` when the cache is valid. The model assumes this fails before any change and leaves the registry and the cache unchanged.
- PoolManager.CostModuleV1.MessageToForwardIoFile: when the extended mover map lacks the default queue name, the Java code dereferences a null queue and throws before any change. The model changes nothing and returns `ok == false` instead of raising. The same holds for `MessageToForwardDoorTransferFinished` and `MessageToForwardSelectPool`.
- Modelled nulls: a null extended mover map, a null requested queue name, a null heartbeat record, a null tag map (which becomes empty) and an absent file size. Not modelled: a null default queue name, and null file attributes on I/O, restore and P2P messages (CostModuleV1.java:224-228, 300 and 385).
