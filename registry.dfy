/**
 * The pool registry and percentile cache of the cost module as a value, and one step
 * function per inbound message: the heartbeat (pool-up) message and the five messages
 * whose handlers apply queue and pinned-space deltas. The class in cost_module.dfy is
 * proved to perform exactly these steps; the lemmas here state what the steps promise.
 */
module PoolRegistry {
  import opened Wrappers
  import opened PoolCost
  import opened Percentile

  /** Age in milliseconds from which an entry no longer counts as fresh (5 minutes). */
  const Ttl: int := 5 * 60 * 1000

  /** A registered pool: routing address, cost record, tags and creation time (ms). */
  datatype Entry = Entry(address: string, info: CostInfo, tagMap: map<string, string>, timestamp: int)

  /** What getPoolInfo hands out for an entry. */
  datatype PoolInfo = PoolInfo(address: string, info: CostInfo, tagMap: map<string, string>)

  /** The single-slot percentile memo. */
  datatype Cache = Cache(valid: bool, cut: real, fraction: real)

  datatype Registry = Registry(pools: map<string, Entry>, cache: Cache)

  /** A new entry: fresh when created, stale Ttl milliseconds later; a null tag map becomes the empty map. */
  function NewEntry(address: string, info: CostInfo, tagMap: Option<map<string, string>>, now: int): (e: Entry)
    ensures e.address == address && e.info == info
    ensures tagMap.None? ==> e.tagMap == map[]
    ensures tagMap.Some? ==> e.tagMap == tagMap.value
    ensures e.timestamp == now
    ensures IsFresh(e, now) && !IsFresh(e, now + Ttl)
  {
    Entry(address, info, tagMap.GetOr(map[]), now)
  }

  /** Entry.isValid: fewer than Ttl milliseconds since the entry was created. */
  predicate IsFresh(e: Entry, now: int)
  {
    now - e.timestamp < Ttl
  }

  function ToPoolInfo(e: Entry): PoolInfo
  {
    PoolInfo(e.address, e.info, e.tagMap)
  }

  /** The pools the read-only queries report at time `now`. */
  ghost function FreshNames(pools: map<string, Entry>, now: int): set<string>
  {
    set p | p in pools && IsFresh(pools[p], now)
  }

  /** Every registered pool's performance cost. */
  ghost function CostMap(pools: map<string, Entry>, cost: CostInfo -> real): map<string, real>
  {
    map p | p in pools :: cost(pools[p].info)
  }

  /**
   * The cache invariant: a valid cache holds the percentile cut of all registered pools for
   * the cached fraction, so a cached answer is always the answer a recomputation would give.
   */
  ghost predicate CacheSound(s: Registry, cost: CostInfo -> real)
  {
    s.cache.valid ==> IsPercentileCut(CostMap(s.pools, cost), s.cache.fraction, s.cache.cut)
  }

  /**
   * considerInvalidatingCache: the cache stays valid exactly when it was valid and the pool's
   * cost stays strictly below, exactly on, or strictly above the cut; cut and fraction never change.
   */
  function Recheck(c: Cache, currentCost: real, newCost: real): (c': Cache)
    ensures c'.cut == c.cut && c'.fraction == c.fraction
    ensures c'.valid <==>
              c.valid &&
              ((currentCost < c.cut && newCost < c.cut) ||
               (currentCost == c.cut && newCost == c.cut) ||
               (currentCost > c.cut && newCost > c.cut))
  {
    if Sign(currentCost - c.cut) != Sign(newCost - c.cut) then c.(valid := false) else c
  }

  /** Replace one registered pool's cost record, then run the sign-crossing test on its cost. */
  function UpdateInfo(s: Registry, cost: CostInfo -> real, name: string, info: CostInfo): (r: Registry)
    requires name in s.pools
    ensures OnlyRecordsOf(s, r, {name}) && r.pools[name].info == info
    ensures r.cache == Recheck(s.cache, cost(s.pools[name].info), cost(info))
  {
    Registry(s.pools[name := s.pools[name].(info := info)],
             Recheck(s.cache, cost(s.pools[name].info), cost(info)))
  }

  // ---------------------------------------------------------------- messages

  /** The three tests CostModuleV1 makes on a PoolV2Mode. */
  datatype PoolMode = PoolMode(isDisabledOnly: bool, isDisabledStrict: bool, isDisabledDead: bool)

  datatype PoolUpMessage = PoolUpMessage(
    poolName: string, poolMode: PoolMode, costInfo: Option<CostInfo>, tagMap: Option<map<string, string>>)

  /** PoolAcceptFileMessage and PoolDeliverFileMessage, the two kinds of PoolIoFileMessage. */
  datatype IoKind = Accept | Deliver

  datatype PoolIoFileMessage = PoolIoFileMessage(
    kind: IoKind, poolName: string, ioQueueName: Option<string>, isReply: bool, returnCode: int, size: Option<int>)

  datatype DoorTransferFinishedMessage = DoorTransferFinishedMessage(poolName: string, ioQueueName: Option<string>)

  datatype PoolFetchFileMessage = PoolFetchFileMessage(poolName: string, isReply: bool, size: Option<int>)

  /** A selection message; `preallocated` is Some exactly for a PoolMgrSelectWritePoolMsg. */
  datatype PoolMgrSelectPoolMsg = PoolMgrSelectPoolMsg(
    poolName: string, ioQueueName: Option<string>, isReply: bool, preallocated: Option<int>)

  datatype Pool2PoolTransferMsg = Pool2PoolTransferMsg(
    sourcePoolName: string, destinationPoolName: string, isReply: bool, size: Option<int>)

  /** The messages the handlers forward, as one tagged union in place of reflective dispatch. */
  datatype Message =
    | IoFile(io: PoolIoFileMessage)
    | DoorTransferFinished(finished: DoorTransferFinishedMessage)
    | FetchFile(fetch: PoolFetchFileMessage)
    | SelectPool(select: PoolMgrSelectPoolMsg)
    | Pool2PoolTransfer(p2p: Pool2PoolTransferMsg)

  // ---------------------------------------------------------------- steps

  predicate ShouldRemovePool(mode: PoolMode)
  {
    mode.isDisabledOnly || mode.isDisabledStrict || mode.isDisabledDead
  }

  /**
   * messageArrived(PoolManagerPoolUpMessage). A new pool or a pool to remove drops the
   * cache; otherwise the old and new records' costs go through the sign-crossing test.
   * A pool to remove is removed; otherwise a non-null record replaces the entry. A known
   * pool that is kept but reports a null record is left as it is.
   */
  function HeartbeatStep(s: Registry, cost: CostInfo -> real, address: string, msg: PoolUpMessage, now: int): (r: Registry)
    ensures forall p :: p != msg.poolName ==> (p in r.pools <==> p in s.pools) && (p in s.pools ==> r.pools[p] == s.pools[p])
    ensures r.cache.cut == s.cache.cut && r.cache.fraction == s.cache.fraction && (r.cache.valid ==> s.cache.valid)
  {
    var name := msg.poolName;
    var isNewPool := name !in s.pools;
    var shouldRemove := ShouldRemovePool(msg.poolMode);
    if !isNewPool && !shouldRemove && msg.costInfo.None? then s
    else
      var cache :=
        if isNewPool || shouldRemove then s.cache.(valid := false)
        else Recheck(s.cache, cost(s.pools[name].info), cost(msg.costInfo.value));
      var pools :=
        if shouldRemove then s.pools - {name}
        else if msg.costInfo.Some? then s.pools[name := NewEntry(address, msg.costInfo.value, msg.tagMap, now)]
        else s.pools;
      Registry(pools, cache)
  }

  /** A mover-class event names a registered pool whose mover queue cannot be resolved. */
  predicate MoverQueueMissing(pools: map<string, Entry>, name: string, requested: Option<string>)
  {
    name in pools && ResolveMoverQueue(pools[name].info, requested).None?
  }

  /**
   * The forwarded messages on which CostModuleV1 dereferences a null mover queue: a
   * mover-class event (a selection only when it is a reply) for a registered pool whose
   * mover queue cannot be resolved.
   */
  predicate ForwardFails(pools: map<string, Entry>, msg: Message)
  {
    match msg
    case IoFile(m) => MoverQueueMissing(pools, m.poolName, m.ioQueueName)
    case DoorTransferFinished(m) => MoverQueueMissing(pools, m.poolName, m.ioQueueName)
    case SelectPool(m) => m.isReply && MoverQueueMissing(pools, m.poolName, m.ioQueueName)
    case _ => false
  }

  /** messageToForward(PoolIoFileMessage): only a reply with a non-zero return code moves counters. */
  function IoFileStep(s: Registry, cost: CostInfo -> real, msg: PoolIoFileMessage): (r: Registry)
    ensures OnlyRecordsOf(s, r, {msg.poolName})
    ensures msg.poolName !in s.pools ==> r == s
    ensures MoverQueueMissing(s.pools, msg.poolName, msg.ioQueueName) ==> r == s
  {
    var name := msg.poolName;
    if name !in s.pools then s
    else
      var info := s.pools[name].info;
      var queue := ResolveMoverQueue(info, msg.ioQueueName);
      if queue.None? then s
      else
        var failed := msg.isReply && msg.returnCode != 0;
        var diff := if failed then -1 else 0;
        var pinned := if failed && msg.kind == Accept && msg.size.Some? then -msg.size.value else 0;
        UpdateInfo(s, cost, name, ModifyPinnedSpace(AdjustQueue(info, queue.value, diff), pinned))
  }

  /** messageToForward(DoorTransferFinishedMessage): the resolved mover queue loses one. */
  function DoorTransferFinishedStep(s: Registry, cost: CostInfo -> real, msg: DoorTransferFinishedMessage): (r: Registry)
    ensures OnlyRecordsOf(s, r, {msg.poolName})
    ensures msg.poolName !in s.pools ==> r == s
    ensures MoverQueueMissing(s.pools, msg.poolName, msg.ioQueueName) ==> r == s
  {
    var name := msg.poolName;
    if name !in s.pools then s
    else
      var info := s.pools[name].info;
      var queue := ResolveMoverQueue(info, msg.ioQueueName);
      if queue.None? then s
      else UpdateInfo(s, cost, name, AdjustQueue(info, queue.value, -1))
  }

  /** messageToForward(PoolFetchFileMessage): restore queue +1 and size pinned on request, -1 on reply. */
  function FetchFileStep(s: Registry, cost: CostInfo -> real, msg: PoolFetchFileMessage): (r: Registry)
    ensures OnlyRecordsOf(s, r, {msg.poolName})
    ensures msg.poolName !in s.pools ==> r == s
  {
    var name := msg.poolName;
    if name !in s.pools then s
    else
      var info := s.pools[name].info;
      var diff := if msg.isReply then -1 else 1;
      var pinned := if msg.isReply then 0 else msg.size.GetOr(0);
      UpdateInfo(s, cost, name, ModifyPinnedSpace(AdjustQueue(info, Restore, diff), pinned))
  }

  /** messageToForward(PoolMgrSelectPoolMsg): a reply adds one mover and, for writes, the preallocation. */
  function SelectPoolStep(s: Registry, cost: CostInfo -> real, msg: PoolMgrSelectPoolMsg): (r: Registry)
    ensures OnlyRecordsOf(s, r, {msg.poolName})
    ensures msg.poolName !in s.pools ==> r == s
    ensures MoverQueueMissing(s.pools, msg.poolName, msg.ioQueueName) ==> r == s
  {
    var name := msg.poolName;
    if !msg.isReply || name !in s.pools then s
    else
      var info := s.pools[name].info;
      var queue := ResolveMoverQueue(info, msg.ioQueueName);
      if queue.None? then s
      else UpdateInfo(s, cost, name, ModifyPinnedSpace(AdjustQueue(info, queue.value, 1), msg.preallocated.GetOr(0)))
  }

  /**
   * messageToForward(Pool2PoolTransferMsg): both pools must be registered; the source pool's p2p
   * queue and the destination's p2p-client queue move by +1 (request) or -1 (reply), the
   * destination pins the transfer size, and each pool's pre-event cost is checked against
   * its cost after all changes.
   */
  function Pool2PoolStep(s: Registry, cost: CostInfo -> real, msg: Pool2PoolTransferMsg): (r: Registry)
    ensures OnlyRecordsOf(s, r, {msg.sourcePoolName, msg.destinationPoolName})
    ensures msg.sourcePoolName !in s.pools || msg.destinationPoolName !in s.pools ==> r == s
    ensures msg.sourcePoolName in s.pools && msg.destinationPoolName in s.pools ==>
              var src, dst := msg.sourcePoolName, msg.destinationPoolName;
              r.cache == Recheck(Recheck(s.cache, cost(s.pools[src].info), cost(r.pools[src].info)),
                                 cost(s.pools[dst].info), cost(r.pools[dst].info))
  {
    var src, dst := msg.sourcePoolName, msg.destinationPoolName;
    if src !in s.pools || dst !in s.pools then s
    else
      var diff := if msg.isReply then -1 else 1;
      var pinned := msg.size.GetOr(0);
      var pools1 := s.pools[src := s.pools[src].(info := AdjustQueue(s.pools[src].info, P2pServer, diff))];
      var pools2 := pools1[dst := pools1[dst].(info := ModifyPinnedSpace(AdjustQueue(pools1[dst].info, P2pClient, diff), pinned))];
      var cache1 := Recheck(s.cache, cost(s.pools[src].info), cost(pools2[src].info));
      Registry(pools2, Recheck(cache1, cost(s.pools[dst].info), cost(pools2[dst].info)))
  }

  /**
   * messageArrived(CellMessage) for the forwarded kinds: a forwarded message changes only the
   * cost records of the pools it names; the pool set, addresses, tags and timestamps, the cut
   * and the fraction stay, and the cache can only go from valid to invalid.
   */
  function Forward(s: Registry, cost: CostInfo -> real, msg: Message): (r: Registry)
    ensures OnlyRecordsOf(s, r, Named(msg))
  {
    match msg
    case IoFile(m) => IoFileStep(s, cost, m)
    case DoorTransferFinished(m) => DoorTransferFinishedStep(s, cost, m)
    case FetchFile(m) => FetchFileStep(s, cost, m)
    case SelectPool(m) => SelectPoolStep(s, cost, m)
    case Pool2PoolTransfer(m) => Pool2PoolStep(s, cost, m)
  }

  // ---------------------------------------------------------------- lemmas

  lemma CostMapSize(pools: map<string, Entry>, cost: CostInfo -> real)
    ensures CostMap(pools, cost).Keys == pools.Keys && |CostMap(pools, cost)| == |pools|
  {
    var keys := CostMap(pools, cost).Keys;
    assert keys == pools.Keys;
    assert |keys| == |pools.Keys|;
  }

  lemma CostMapUpdate(pools: map<string, Entry>, cost: CostInfo -> real, name: string, e: Entry)
    requires name in pools
    ensures CostMap(pools[name := e], cost) == CostMap(pools, cost)[name := cost(e.info)]
  {
  }

  /**
   * Sorting the costs of all registered pools, listed once each in any order, and reading
   * index floor(fraction * n) gives the percentile cut of the registry.
   */
  lemma SortedRegistryCostsGiveCut(pools: map<string, Entry>, cost: CostInfo -> real, listed: seq<string>,
                                   unsorted: seq<real>, sorted: seq<real>, fraction: real)
    requires 0.0 < fraction < 1.0 && |pools| > 0
    requires |listed| == |pools| && Distinct(listed) && |unsorted| == |listed|
    requires forall p :: p in pools ==> p in listed
    requires forall i :: 0 <= i < |listed| ==> listed[i] in pools && unsorted[i] == cost(pools[listed[i]].info)
    requires Sorted(sorted) && multiset(sorted) == multiset(unsorted)
    ensures |sorted| == |pools| && IsPercentileCut(CostMap(pools, cost), fraction, sorted[PercentileIndex(fraction, |pools|)])
  {
    var costs := CostMap(pools, cost);
    CostMapSize(pools, cost);
    assert Lists(costs, listed, unsorted);
    SortedIndexIsCut(costs, listed, unsorted, sorted, fraction);
  }

  /** Replacing one record while the cache stays valid keeps the cache sound. */
  lemma UpdateInfoSound(s: Registry, cost: CostInfo -> real, name: string, info: CostInfo)
    requires name in s.pools && CacheSound(s, cost)
    ensures CacheSound(UpdateInfo(s, cost, name, info), cost)
  {
    var r := UpdateInfo(s, cost, name, info);
    if r.cache.valid {
      CostMapUpdate(s.pools, cost, name, s.pools[name].(info := info));
      CutStable(CostMap(s.pools, cost), s.cache.fraction, s.cache.cut, name, cost(info));
    }
  }

  /** Every heartbeat keeps the cache sound: pool set changes drop it, replacements are rechecked. */
  lemma HeartbeatSound(s: Registry, cost: CostInfo -> real, address: string, msg: PoolUpMessage, now: int)
    requires CacheSound(s, cost)
    ensures CacheSound(HeartbeatStep(s, cost, address, msg, now), cost)
  {
    var name := msg.poolName;
    var r := HeartbeatStep(s, cost, address, msg, now);
    if r.cache.valid && r != s {
      var e := NewEntry(address, msg.costInfo.value, msg.tagMap, now);
      assert r.pools == s.pools[name := e];
      CostMapUpdate(s.pools, cost, name, e);
      CutStable(CostMap(s.pools, cost), s.cache.fraction, s.cache.cut, name, cost(e.info));
    }
  }

  /** Every forwarded message keeps the cache sound. */
  lemma ForwardSound(s: Registry, cost: CostInfo -> real, msg: Message)
    requires CacheSound(s, cost)
    ensures CacheSound(Forward(s, cost, msg), cost)
  {
    var r := Forward(s, cost, msg);
    if msg.Pool2PoolTransfer? {
      Pool2PoolSound(s, cost, msg.p2p);
    } else {
      var name :| name in Named(msg);
      assert Named(msg) == {name};
      if r.cache.valid && name in s.pools {
        ForwardCacheOutcome(s, cost, msg, name);
        assert r.pools == s.pools[name := r.pools[name]];
        CostMapUpdate(s.pools, cost, name, r.pools[name]);
        CutStable(CostMap(s.pools, cost), s.cache.fraction, s.cache.cut, name, cost(r.pools[name].info));
      }
    }
  }

  lemma Pool2PoolSound(s: Registry, cost: CostInfo -> real, msg: Pool2PoolTransferMsg)
    requires CacheSound(s, cost)
    ensures CacheSound(Pool2PoolStep(s, cost, msg), cost)
  {
    var src, dst := msg.sourcePoolName, msg.destinationPoolName;
    var r := Pool2PoolStep(s, cost, msg);
    if src in s.pools && dst in s.pools && r.cache.valid {
      var costs := CostMap(s.pools, cost);
      var f, cut := s.cache.fraction, s.cache.cut;
      var final := CostMap(r.pools, cost);
      assert final == costs[src := cost(r.pools[src].info)][dst := cost(r.pools[dst].info)];
      CutStable(costs, f, cut, src, cost(r.pools[src].info));
      if src != dst {
        CutStable(costs[src := cost(r.pools[src].info)], f, cut, dst, cost(r.pools[dst].info));
      } else {
        assert final == costs[src := cost(r.pools[src].info)];
      }
    }
  }

  // ---------------------------------------------------------------- effects

  /**
   * `after` is `before` with queue `q`'s active count moved by `diff` and the pinned space
   * moved by `pinnedDiff`, and nothing else changed.
   */
  ghost predicate Delta(before: CostInfo, after: CostInfo, q: QueueRef, diff: int, pinnedDiff: int)
  {
    && HasQueue(before, q)
    && (forall q' :: HasQueue(after, q') <==> HasQueue(before, q'))
    && Active(after, q) == Active(before, q) + diff
    && Queue(after, q).maxActive == Queue(before, q).maxActive
    && (forall q' :: q' != q && HasQueue(before, q') ==> Queue(after, q') == Queue(before, q'))
    && after.space == before.space.(pinned := before.space.pinned + pinnedDiff)
    && after.defaultQueueName == before.defaultQueueName
    && (after.extendedMovers.None? <==> before.extendedMovers.None?)
  }

  /**
   * `r` differs from `s` at most in the cost records of the pools `touched`: the same pools,
   * with the same addresses, tags and timestamps, the cut and fraction kept, and a cache
   * that can only go from valid to invalid.
   */
  ghost predicate OnlyRecordsOf(s: Registry, r: Registry, touched: set<string>)
  {
    && r.pools.Keys == s.pools.Keys
    && (forall p :: p in s.pools && p !in touched ==> r.pools[p] == s.pools[p])
    && (forall p :: p in s.pools ==> r.pools[p] == s.pools[p].(info := r.pools[p].info))
    && r.cache.cut == s.cache.cut && r.cache.fraction == s.cache.fraction
    && (r.cache.valid ==> s.cache.valid)
  }

  /** The pools a message names. */
  function Named(msg: Message): set<string>
  {
    match msg
    case IoFile(m) => {m.poolName}
    case DoorTransferFinished(m) => {m.poolName}
    case FetchFile(m) => {m.poolName}
    case SelectPool(m) => {m.poolName}
    case Pool2PoolTransfer(m) => {m.sourcePoolName, m.destinationPoolName}
  }

  /**
   * The cache after a forwarded message for one registered pool is the sign-crossing test of
   * that pool's cost before and after: a pool whose cost stays on the same side of the cut
   * leaves a valid cache valid.
   */
  lemma ForwardCacheOutcome(s: Registry, cost: CostInfo -> real, msg: Message, name: string)
    requires !msg.Pool2PoolTransfer? && Named(msg) == {name} && name in s.pools
    ensures
      var r := Forward(s, cost, msg);
      name in r.pools && r.cache == Recheck(s.cache, cost(s.pools[name].info), cost(r.pools[name].info))
  {
  }

  /** Forwarded messages never change which pools the freshness-filtered queries report. */
  lemma ForwardKeepsFreshNames(s: Registry, cost: CostInfo -> real, msg: Message, now: int)
    ensures FreshNames(Forward(s, cost, msg).pools, now) == FreshNames(s.pools, now)
  {
    var r := Forward(s, cost, msg);
    forall p | p in s.pools ensures r.pools[p].timestamp == s.pools[p].timestamp {
      assert r.pools[p] == s.pools[p].(info := r.pools[p].info);
    }
  }

  /**
   * A message naming an unregistered pool changes nothing, and so does a P2P message
   * whose destination is unregistered, whatever its source.
   */
  lemma UnknownPoolIgnored(s: Registry, cost: CostInfo -> real, msg: Message)
    requires
      match msg
      case Pool2PoolTransfer(m) => m.sourcePoolName !in s.pools || m.destinationPoolName !in s.pools
      case _ => exists p :: p in Named(msg) && p !in s.pools
    ensures Forward(s, cost, msg) == s
  {
  }

  /** A selection message that is not a reply changes nothing. */
  lemma SelectRequestIgnored(s: Registry, cost: CostInfo -> real, msg: PoolMgrSelectPoolMsg)
    requires !msg.isReply
    ensures SelectPoolStep(s, cost, msg) == s
  {
  }

  /** Recording an unchanged record changes nothing, not even the cache. */
  lemma UpdateSameInfo(s: Registry, cost: CostInfo -> real, name: string)
    requires name in s.pools
    ensures UpdateInfo(s, cost, name, s.pools[name].info) == s
  {
    assert s.pools[name := s.pools[name].(info := s.pools[name].info)] == s.pools;
  }

  /** An I/O message that is not a failed reply changes nothing. */
  lemma IoFileSuccessIgnored(s: Registry, cost: CostInfo -> real, msg: PoolIoFileMessage)
    requires !(msg.isReply && msg.returnCode != 0)
    ensures IoFileStep(s, cost, msg) == s
  {
    if msg.poolName in s.pools {
      var info := s.pools[msg.poolName].info;
      var queue := ResolveMoverQueue(info, msg.ioQueueName);
      if queue.Some? {
        ZeroDeltaIsIdentity(info, queue.value);
        UpdateSameInfo(s, cost, msg.poolName);
      }
    }
  }

  /** A failed I/O reply: the resolved mover queue loses one; an accept message unpins its size. */
  lemma IoFileFailureEffect(s: Registry, cost: CostInfo -> real, msg: PoolIoFileMessage, q: QueueRef)
    requires msg.isReply && msg.returnCode != 0
    requires msg.poolName in s.pools && ResolveMoverQueue(s.pools[msg.poolName].info, msg.ioQueueName) == Some(q)
    ensures
      var r := IoFileStep(s, cost, msg);
      Delta(s.pools[msg.poolName].info, r.pools[msg.poolName].info, q, -1,
            if msg.kind == Accept && msg.size.Some? then -msg.size.value else 0)
  {
  }

  /** A transfer-finished message: the resolved mover queue loses one, pinned space is untouched. */
  lemma DoorTransferFinishedEffect(s: Registry, cost: CostInfo -> real, msg: DoorTransferFinishedMessage, q: QueueRef)
    requires msg.poolName in s.pools && ResolveMoverQueue(s.pools[msg.poolName].info, msg.ioQueueName) == Some(q)
    ensures Delta(s.pools[msg.poolName].info, DoorTransferFinishedStep(s, cost, msg).pools[msg.poolName].info, q, -1, 0)
  {
  }

  /** A restore request adds one restore and pins the size if known; a restore reply removes one. */
  lemma FetchFileEffect(s: Registry, cost: CostInfo -> real, msg: PoolFetchFileMessage)
    requires msg.poolName in s.pools
    ensures
      var before, after := s.pools[msg.poolName].info, FetchFileStep(s, cost, msg).pools[msg.poolName].info;
      if msg.isReply then Delta(before, after, Restore, -1, 0)
      else Delta(before, after, Restore, 1, if msg.size.Some? then msg.size.value else 0)
  {
  }

  /** A selection reply adds one to the resolved mover queue and, for a write, pins the preallocation. */
  lemma SelectPoolEffect(s: Registry, cost: CostInfo -> real, msg: PoolMgrSelectPoolMsg, q: QueueRef)
    requires msg.isReply
    requires msg.poolName in s.pools && ResolveMoverQueue(s.pools[msg.poolName].info, msg.ioQueueName) == Some(q)
    ensures
      Delta(s.pools[msg.poolName].info, SelectPoolStep(s, cost, msg).pools[msg.poolName].info, q, 1,
            if msg.preallocated.Some? then msg.preallocated.value else 0)
  {
  }

  /**
   * A P2P message between two registered pools moves the source pool's p2p queue and the
   * destination's p2p-client queue by +1 (request) or -1 (reply) and pins the transfer size
   * on the destination, on request and reply alike.
   */
  lemma Pool2PoolEffect(s: Registry, cost: CostInfo -> real, msg: Pool2PoolTransferMsg)
    requires msg.sourcePoolName in s.pools && msg.destinationPoolName in s.pools
    ensures
      var src, dst := msg.sourcePoolName, msg.destinationPoolName;
      var r := Pool2PoolStep(s, cost, msg);
      var diff := if msg.isReply then -1 else 1;
      var pinned := if msg.size.Some? then msg.size.value else 0;
      && (src != dst ==>
            Delta(s.pools[src].info, r.pools[src].info, P2pServer, diff, 0) &&
            Delta(s.pools[dst].info, r.pools[dst].info, P2pClient, diff, pinned))
      && (src == dst ==>
            var before, after := s.pools[src].info, r.pools[src].info;
            && (forall q :: HasQueue(after, q) <==> HasQueue(before, q))
            && Active(after, P2pServer) == Active(before, P2pServer) + diff
            && Active(after, P2pClient) == Active(before, P2pClient) + diff
            && Queue(after, P2pServer).maxActive == Queue(before, P2pServer).maxActive
            && Queue(after, P2pClient).maxActive == Queue(before, P2pClient).maxActive
            && (forall q :: q != P2pServer && q != P2pClient && HasQueue(before, q) ==> Queue(after, q) == Queue(before, q))
            && after.space == before.space.(pinned := before.space.pinned + pinned)
            && after.defaultQueueName == before.defaultQueueName
            && (after.extendedMovers.None? <==> before.extendedMovers.None?))
  {
  }

  /**
   * A selection reply followed by the matching transfer-finished message returns every
   * queue of the pool to its count before the selection; only the write preallocation
   * stays pinned, and no other pool changes.
   */
  lemma SelectThenFinishRestoresQueues(s: Registry, cost: CostInfo -> real, name: string,
                                       queueName: Option<string>, preallocated: Option<int>)
    requires name in s.pools && !MoverQueueMissing(s.pools, name, queueName)
    ensures
      var s1 := SelectPoolStep(s, cost, PoolMgrSelectPoolMsg(name, queueName, true, preallocated));
      var s2 := DoorTransferFinishedStep(s1, cost, DoorTransferFinishedMessage(name, queueName));
      && s2.pools.Keys == s.pools.Keys
      && s2.pools[name].info == ModifyPinnedSpace(s.pools[name].info, preallocated.GetOr(0))
      && (forall q :: HasQueue(s.pools[name].info, q) ==> Queue(s2.pools[name].info, q) == Queue(s.pools[name].info, q))
      && (forall p :: p in s.pools && p != name ==> s2.pools[p] == s.pools[p])
  {
    var info := s.pools[name].info;
    var q := ResolveMoverQueue(info, queueName).value;
    var pinned := preallocated.GetOr(0);
    var s1 := SelectPoolStep(s, cost, PoolMgrSelectPoolMsg(name, queueName, true, preallocated));
    var info1 := ModifyPinnedSpace(AdjustQueue(info, q, 1), pinned);
    assert s1.pools[name].info == info1;
    ResolveStable(info, queueName, q, 1, pinned);
    AdjustCommutesWithPinned(AdjustQueue(info, q, 1), q, -1, pinned);
    AdjustQueueInverse(info, q, 1);
    assert AdjustQueue(info1, q, -1) == ModifyPinnedSpace(info, pinned);
  }

  /**
   * A heartbeat: an unknown pool or a disabled, strictly disabled or dead one drops the
   * cache; such a mode removes the entry (present or not); otherwise a non-null record
   * replaces the entry with a fresh one stamped `now`, and a known pool's old and new costs
   * go through the sign-crossing test. No other pool changes, and the cut and fraction stay.
   */
  lemma HeartbeatEffect(s: Registry, cost: CostInfo -> real, address: string, msg: PoolUpMessage, now: int)
    ensures
      var name, r := msg.poolName, HeartbeatStep(s, cost, address, msg, now);
      var remove := ShouldRemovePool(msg.poolMode);
      && ((name !in s.pools || remove) ==> !r.cache.valid)
      && (remove ==> name !in r.pools)
      && (!remove && msg.costInfo.Some? ==>
            name in r.pools && r.pools[name].address == address && r.pools[name].info == msg.costInfo.value &&
            r.pools[name].tagMap == (if msg.tagMap.Some? then msg.tagMap.value else map[]) &&
            r.pools[name].timestamp == now)
      && (!remove && msg.costInfo.Some? && name in s.pools ==>
            r.cache == Recheck(s.cache, cost(s.pools[name].info), cost(msg.costInfo.value)))
      && (!remove && msg.costInfo.None? ==> r.pools == s.pools)
      && (!remove && msg.costInfo.None? && name in s.pools ==> r == s)
      && (forall p :: p != name ==> (p in r.pools <==> p in s.pools) && (p in s.pools ==> r.pools[p] == s.pools[p]))
      && r.cache.cut == s.cache.cut && r.cache.fraction == s.cache.fraction
  {
  }

  /** A heartbeat that registers a pool makes it fresh for the next Ttl milliseconds and no longer. */
  lemma HeartbeatRefreshes(s: Registry, cost: CostInfo -> real, address: string, msg: PoolUpMessage, now: int, later: int)
    requires !ShouldRemovePool(msg.poolMode) && msg.costInfo.Some? && now <= later
    ensures msg.poolName in FreshNames(HeartbeatStep(s, cost, address, msg, now).pools, later) <==> later < now + Ttl
  {
  }
}
