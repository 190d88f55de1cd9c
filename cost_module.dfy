/**
 * CostModuleV1 as an object: a registry map and three cache fields that the message
 * handlers and the percentile query update in place. Each handler is proved to perform
 * the matching step of the Registry module, and every method keeps the cache sound.
 */
module PoolManager {
  import opened Wrappers
  import opened PoolCost
  import opened Percentile
  import opened PoolRegistry

  class CostModuleV1 {
    /** The performance cost formula (CostCalculationV5), a deterministic function of a record. */
    const cost: CostInfo -> real
    /** The registry, keyed by pool name. */
    var hash: map<string, Entry>
    var cachedPercentileCostCutIsValid: bool
    var cachedPercentileCostCut: real
    var cachedPercentileFraction: real

    ghost function CacheState(): Cache
      reads this
    {
      Cache(cachedPercentileCostCutIsValid, cachedPercentileCostCut, cachedPercentileFraction)
    }

    ghost function State(): Registry
      reads this
    {
      Registry(hash, CacheState())
    }

    /** A valid cache always holds the percentile cut of the current registry. */
    ghost predicate Valid()
      reads this
    {
      CacheSound(State(), cost)
    }

    constructor (cost: CostInfo -> real)
      ensures Valid() && this.cost == cost
      ensures State() == Registry(map[], Cache(false, 0.0, 0.0))
    {
      this.cost := cost;
      hash := map[];
      cachedPercentileCostCutIsValid := false;
      cachedPercentileCostCut := 0.0;
      cachedPercentileFraction := 0.0;
    }

    /** messageArrived(CellMessage, PoolManagerPoolUpMessage); `poolAddress` is the envelope's source. */
    method MessageArrived(poolAddress: string, msg: PoolUpMessage, now: int)
      requires Valid()
      modifies this
      ensures Valid()
      ensures State() == HeartbeatStep(old(State()), cost, poolAddress, msg, now)
    {
      ghost var s := State();
      var poolName := msg.poolName;
      var isNewPool := poolName !in hash;
      var shouldRemovePool := ShouldRemovePool(msg.poolMode);
      if isNewPool || shouldRemovePool {
        cachedPercentileCostCutIsValid := false;
      } else if msg.costInfo.None? {
        // The cost of a null record is not defined: the registry and the cache stay as they are.
        return;
      } else {
        ConsiderInvalidatingCacheForInfos(hash[poolName].info, msg.costInfo.value);
      }
      if shouldRemovePool {
        hash := hash - {poolName};
      } else if msg.costInfo.Some? {
        hash := hash[poolName := NewEntry(poolAddress, msg.costInfo.value, msg.tagMap, now)];
      }
      HeartbeatSound(s, cost, poolAddress, msg, now);
    }

    /** considerInvalidatingCache(PoolCostInfo, PoolCostInfo) */
    method ConsiderInvalidatingCacheForInfos(currentInfo: CostInfo, newInfo: CostInfo)
      modifies this`cachedPercentileCostCutIsValid
      ensures CacheState() == Recheck(old(CacheState()), cost(currentInfo), cost(newInfo))
    {
      if !cachedPercentileCostCutIsValid {
        return;
      }
      var currentCost := cost(currentInfo);
      var newCost := cost(newInfo);
      ConsiderInvalidatingCache(currentCost, newCost);
    }

    /** considerInvalidatingCache(double, PoolCostInfo) */
    method ConsiderInvalidatingCacheForCost(currentCost: real, newInfo: CostInfo)
      modifies this`cachedPercentileCostCutIsValid
      ensures CacheState() == Recheck(old(CacheState()), currentCost, cost(newInfo))
    {
      if !cachedPercentileCostCutIsValid {
        return;
      }
      var newCost := cost(newInfo);
      ConsiderInvalidatingCache(currentCost, newCost);
    }

    /** considerInvalidatingCache(double, double): the sign-crossing test. */
    method ConsiderInvalidatingCache(currentCost: real, newCost: real)
      modifies this`cachedPercentileCostCutIsValid
      ensures CacheState() == Recheck(old(CacheState()), currentCost, newCost)
    {
      if Sign(currentCost - cachedPercentileCostCut) != Sign(newCost - cachedPercentileCostCut) {
        cachedPercentileCostCutIsValid := false;
      }
    }

    /**
     * messageToForward(PoolIoFileMessage). `ok` is false when the resolved mover queue does
     * not exist; the Java code then fails on a null queue before changing anything.
     */
    method MessageToForwardIoFile(msg: PoolIoFileMessage) returns (ok: bool)
      requires Valid()
      modifies this
      ensures Valid()
      ensures State() == IoFileStep(old(State()), cost, msg)
      ensures ok <==> !MoverQueueMissing(old(hash), msg.poolName, msg.ioQueueName)
    {
      ghost var s := State();
      ok := true;
      var poolName := msg.poolName;
      if poolName !in hash {
        return;
      }
      var e := hash[poolName];
      var costInfo := e.info;
      var currentPerformanceCost := cost(costInfo);
      var queue := ResolveMoverQueue(costInfo, msg.ioQueueName);
      if queue.None? {
        ok := false;
        return;
      }
      var diff := 0;
      var pinned := 0;
      if msg.isReply && msg.returnCode != 0 {
        diff := -1;
        if msg.kind == Accept && msg.size.Some? {
          pinned := -msg.size.value;
        }
      }
      costInfo := ModifyPinnedSpace(AdjustQueue(costInfo, queue.value, diff), pinned);
      hash := hash[poolName := e.(info := costInfo)];
      ConsiderInvalidatingCacheForCost(currentPerformanceCost, costInfo);
      ForwardSound(s, cost, IoFile(msg));
    }

    /** messageToForward(DoorTransferFinishedMessage); `ok` as for MessageToForwardIoFile. */
    method MessageToForwardDoorTransferFinished(msg: DoorTransferFinishedMessage) returns (ok: bool)
      requires Valid()
      modifies this
      ensures Valid()
      ensures State() == DoorTransferFinishedStep(old(State()), cost, msg)
      ensures ok <==> !MoverQueueMissing(old(hash), msg.poolName, msg.ioQueueName)
    {
      ghost var s := State();
      ok := true;
      var poolName := msg.poolName;
      if poolName !in hash {
        return;
      }
      var e := hash[poolName];
      var costInfo := e.info;
      var currentPerformanceCost := cost(costInfo);
      var queue := ResolveMoverQueue(costInfo, msg.ioQueueName);
      if queue.None? {
        ok := false;
        return;
      }
      costInfo := AdjustQueue(costInfo, queue.value, -1);
      hash := hash[poolName := e.(info := costInfo)];
      ConsiderInvalidatingCacheForCost(currentPerformanceCost, costInfo);
      ForwardSound(s, cost, DoorTransferFinished(msg));
    }

    /** messageToForward(PoolFetchFileMessage) */
    method MessageToForwardFetchFile(msg: PoolFetchFileMessage)
      requires Valid()
      modifies this
      ensures Valid()
      ensures State() == FetchFileStep(old(State()), cost, msg)
    {
      ghost var s := State();
      var poolName := msg.poolName;
      if poolName !in hash {
        return;
      }
      var e := hash[poolName];
      var costInfo := e.info;
      var currentPerformanceCost := cost(costInfo);
      var diff, pinned;
      if msg.isReply {
        diff, pinned := -1, 0;
      } else {
        diff := 1;
        if msg.size.Some? {
          pinned := msg.size.value;
        } else {
          pinned := 0;
        }
      }
      costInfo := ModifyPinnedSpace(AdjustQueue(costInfo, Restore, diff), pinned);
      hash := hash[poolName := e.(info := costInfo)];
      ConsiderInvalidatingCacheForCost(currentPerformanceCost, costInfo);
      ForwardSound(s, cost, FetchFile(msg));
    }

    /** messageToForward(PoolMgrSelectPoolMsg); `ok` as for MessageToForwardIoFile. */
    method MessageToForwardSelectPool(msg: PoolMgrSelectPoolMsg) returns (ok: bool)
      requires Valid()
      modifies this
      ensures Valid()
      ensures State() == SelectPoolStep(old(State()), cost, msg)
      ensures ok <==> !(msg.isReply && MoverQueueMissing(old(hash), msg.poolName, msg.ioQueueName))
    {
      ghost var s := State();
      ok := true;
      if !msg.isReply {
        return;
      }
      var poolName := msg.poolName;
      if poolName !in hash {
        return;
      }
      var e := hash[poolName];
      var costInfo := e.info;
      var currentPerformanceCost := cost(costInfo);
      var queue := ResolveMoverQueue(costInfo, msg.ioQueueName);
      if queue.None? {
        ok := false;
        return;
      }
      var pinned := if msg.preallocated.Some? then msg.preallocated.value else 0;
      costInfo := ModifyPinnedSpace(AdjustQueue(costInfo, queue.value, 1), pinned);
      hash := hash[poolName := e.(info := costInfo)];
      ConsiderInvalidatingCacheForCost(currentPerformanceCost, costInfo);
      ForwardSound(s, cost, SelectPool(msg));
    }

    /** messageToForward(Pool2PoolTransferMsg): nothing changes unless both pools are registered. */
    method MessageToForwardPool2Pool(msg: Pool2PoolTransferMsg)
      requires Valid()
      modifies this
      ensures Valid()
      ensures State() == Pool2PoolStep(old(State()), cost, msg)
    {
      ghost var s := State();
      var sourceName := msg.sourcePoolName;
      if sourceName !in hash {
        return;
      }
      var currentSourcePerformanceCost := cost(hash[sourceName].info);
      var destinationName := msg.destinationPoolName;
      if destinationName !in hash {
        return;
      }
      var currentDestinationPerformanceCost := cost(hash[destinationName].info);
      var diff := if msg.isReply then -1 else 1;
      var pinned := msg.size.GetOr(0);
      hash := hash[sourceName := hash[sourceName].(info := AdjustQueue(hash[sourceName].info, P2pServer, diff))];
      var destination := hash[destinationName];
      hash := hash[destinationName := destination.(info := ModifyPinnedSpace(AdjustQueue(destination.info, P2pClient, diff), pinned))];
      ConsiderInvalidatingCacheForCost(currentSourcePerformanceCost, hash[sourceName].info);
      ConsiderInvalidatingCacheForCost(currentDestinationPerformanceCost, hash[destinationName].info);
      ForwardSound(s, cost, Pool2PoolTransfer(msg));
    }

    /** messageArrived(CellMessage): hands a forwarded message to its handler. */
    method MessageToForward(msg: Message) returns (ok: bool)
      requires Valid()
      modifies this
      ensures Valid()
      ensures State() == Forward(old(State()), cost, msg)
      ensures ok <==> !ForwardFails(old(hash), msg)
    {
      ok := true;
      match msg
      case IoFile(m) => ok := MessageToForwardIoFile(m);
      case DoorTransferFinished(m) => ok := MessageToForwardDoorTransferFinished(m);
      case FetchFile(m) => MessageToForwardFetchFile(m);
      case SelectPool(m) => ok := MessageToForwardSelectPool(m);
      case Pool2PoolTransfer(m) => MessageToForwardPool2Pool(m);
    }

    /**
     * getPoolsPercentilePerformanceCost: fails for a fraction outside (0, 1); otherwise
     * recomputes only when the cache is invalid or holds another fraction, and always answers
     * the percentile cut of the current registry, which the cache then holds.
     */
    method GetPoolsPercentilePerformanceCost(fraction: real) returns (r: Result<real>, ghost recomputed: bool)
      requires Valid()
      modifies this`cachedPercentileCostCutIsValid, this`cachedPercentileCostCut, this`cachedPercentileFraction
      ensures Valid()
      ensures !(0.0 < fraction < 1.0) ==> r.IllegalArgument? && CacheState() == old(CacheState())
      ensures 0.0 < fraction < 1.0 ==>
                r == Ok(cachedPercentileCostCut) && IsPercentileCut(CostMap(hash, cost), fraction, r.value) &&
                cachedPercentileCostCutIsValid && cachedPercentileFraction == fraction
      ensures recomputed <==>
                0.0 < fraction < 1.0 && !(old(cachedPercentileCostCutIsValid) && old(cachedPercentileFraction) == fraction)
      ensures !recomputed ==> CacheState() == old(CacheState())
    {
      recomputed := false;
      if fraction <= 0.0 || fraction >= 1.0 {
        return IllegalArgument("supplied fraction not between 0 and 1"), recomputed;
      }
      if !cachedPercentileCostCutIsValid || cachedPercentileFraction != fraction {
        recomputed := true;
        cachedPercentileCostCut := CalculatePercentileCostCut(fraction);
        cachedPercentileFraction := fraction;
        cachedPercentileCostCutIsValid := true;
      }
      r := Ok(cachedPercentileCostCut);
    }

    /**
     * calculatePercentileCostCut: 0 for an empty registry; otherwise the cost at index
     * floor(fraction * n) of the sorted costs of all n registered pools, fresh or not.
     */
    method CalculatePercentileCostCut(fraction: real) returns (cut: real)
      requires 0.0 < fraction < 1.0
      ensures IsPercentileCut(CostMap(hash, cost), fraction, cut)
    {
      var n := |hash|;
      if n == 0 {
        return 0.0;
      }
      var poolCosts := new real[n];
      var remaining := hash.Keys;
      ghost var listed: seq<string> := [];
      var idx := 0;
      while remaining != {}
        invariant idx == |listed| && idx + |remaining| == n
        invariant remaining <= hash.Keys
        invariant Distinct(listed)
        invariant forall p :: p in hash ==> (p in remaining <==> p !in listed)
        invariant forall i :: 0 <= i < idx ==> listed[i] in hash && poolCosts[i] == cost(hash[listed[i]].info)
      {
        var p :| p in remaining;
        poolCosts[idx] := cost(hash[p].info);
        listed := listed + [p];
        remaining := remaining - {p};
        idx := idx + 1;
      }
      ghost var unsorted := poolCosts[..];
      SortCosts(poolCosts);
      var k := PercentileIndex(fraction, n);
      cut := poolCosts[k];
      SortedRegistryCostsGiveCut(hash, cost, listed, unsorted, poolCosts[..], fraction);
    }

    /** getPoolCostInfos: the records of exactly the fresh pools, one per pool. */
    method GetPoolCostInfos(now: int) returns (costInfos: seq<CostInfo>, ghost names: seq<string>)
      ensures |names| == |costInfos| && Distinct(names)
      ensures forall p :: p in names <==> p in FreshNames(hash, now)
      ensures forall i :: 0 <= i < |names| ==> names[i] in hash && costInfos[i] == hash[names[i]].info
      ensures |costInfos| == |FreshNames(hash, now)|
      ensures forall p :: p in FreshNames(hash, now) ==> hash[p].info in costInfos
    {
      costInfos, names := [], [];
      var remaining := hash.Keys;
      while remaining != {}
        invariant remaining <= hash.Keys
        invariant |names| == |costInfos| && Distinct(names)
        invariant forall p :: p in names ==> p !in remaining
        invariant forall p :: p in names <==> p in FreshNames(hash, now) && p !in remaining
        invariant forall i :: 0 <= i < |names| ==> names[i] in hash && costInfos[i] == hash[names[i]].info
      {
        var p :| p in remaining;
        var entry := hash[p];
        if IsFresh(entry, now) {
          costInfos := costInfos + [entry.info];
          names := names + [p];
        }
        remaining := remaining - {p};
      }
      DistinctCard(names);
      assert (set p | p in names) == FreshNames(hash, now);
      forall p | p in FreshNames(hash, now)
        ensures hash[p].info in costInfos
      {
        var i :| 0 <= i < |names| && names[i] == p;
        assert costInfos[i] == hash[p].info;
      }
    }

    /** getPoolCostInfo: the pool's record if it is registered and fresh. */
    function GetPoolCostInfo(poolName: string, now: int): (r: Option<CostInfo>)
      reads this
      ensures r.Some? <==> poolName in FreshNames(hash, now)
      ensures r.Some? ==> r.value == hash[poolName].info
    {
      if poolName in hash && IsFresh(hash[poolName], now) then Some(hash[poolName].info) else None
    }

    /** getPoolInfo: address, record and tags of the pool if it is registered and fresh. */
    function GetPoolInfo(pool: string, now: int): (r: Option<PoolInfo>)
      reads this
      ensures r.Some? <==> pool in FreshNames(hash, now)
      ensures r.Some? ==> r.value == PoolInfo(hash[pool].address, hash[pool].info, hash[pool].tagMap)
    {
      if pool in hash && IsFresh(hash[pool], now) then Some(ToPoolInfo(hash[pool])) else None
    }

    /** getPoolInfoAsMap: keyed by exactly the requested names that are registered and fresh. */
    method GetPoolInfoAsMap(pools: seq<string>, now: int) returns (result: map<string, PoolInfo>)
      ensures forall p :: p in result <==> p in pools && p in FreshNames(hash, now)
      ensures forall p :: p in result ==> p in hash && result[p] == PoolInfo(hash[p].address, hash[p].info, hash[p].tagMap)
    {
      result := map[];
      var i := 0;
      while i < |pools|
        invariant 0 <= i <= |pools|
        invariant forall p :: p in result <==> p in pools[..i] && p in FreshNames(hash, now)
        invariant forall p :: p in result ==> p in hash && result[p] == ToPoolInfo(hash[p])
      {
        var pool := pools[i];
        var entry := GetPoolInfo(pool, now);
        if entry.Some? {
          result := result[pool := entry.value];
        }
        assert pools[..i + 1] == pools[..i] + [pool];
        i := i + 1;
      }
      assert pools[..i] == pools;
    }
  }
}
