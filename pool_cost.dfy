/**
 * The cost record a pool reports in its heartbeat (PoolCostInfo in the Java code) and the
 * in-place updates the event handlers apply to it: one queue's active count moves by a
 * signed delta, and the pinned space moves by a signed delta.
 */
module PoolCost {
  import opened Wrappers

  /** One transfer queue of a pool: current active count and configured maximum. */
  datatype QueueInfo = QueueInfo(active: int, maxActive: int)

  /** Space accounting of a pool. */
  datatype SpaceInfo = SpaceInfo(total: int, free: int, removable: int, pinned: int)

  /**
   * A pool's cost record. `extendedMovers` is the map of named mover queues, absent
   * when the pool reports only the plain mover queue.
   */
  datatype CostInfo = CostInfo(
    moverQueue: QueueInfo,
    extendedMovers: Option<map<string, QueueInfo>>,
    defaultQueueName: string,
    restoreQueue: QueueInfo,
    p2pQueue: QueueInfo,
    p2pClientQueue: QueueInfo,
    space: SpaceInfo)

  /** Which queue of a cost record an event targets. */
  datatype QueueRef = Mover | NamedMover(name: string) | Restore | P2pServer | P2pClient

  /** True iff the record has the queue `q` (a named mover queue must be in the map). */
  predicate HasQueue(info: CostInfo, q: QueueRef)
  {
    match q
    case NamedMover(n) => info.extendedMovers.Some? && n in info.extendedMovers.value
    case _ => true
  }

  function Queue(info: CostInfo, q: QueueRef): QueueInfo
    requires HasQueue(info, q)
  {
    match q
    case Mover => info.moverQueue
    case NamedMover(n) => info.extendedMovers.value[n]
    case Restore => info.restoreQueue
    case P2pServer => info.p2pQueue
    case P2pClient => info.p2pClientQueue
  }

  /** Current active count of queue `q`. */
  function Active(info: CostInfo, q: QueueRef): int
    requires HasQueue(info, q)
  {
    Queue(info, q).active
  }

  /**
   * Which mover queue a mover-class event lands on: without an extended mover map, the
   * plain mover queue; with one, the requested name if it is given and in the map, and
   * otherwise the record's default queue name. None when that default is not in the map
   * either (CostModuleV1 then dereferences a null queue).
   */
  function ResolveMoverQueue(info: CostInfo, requested: Option<string>): (q: Option<QueueRef>)
    ensures q.Some? ==> HasQueue(info, q.value) && (q.value.Mover? || q.value.NamedMover?)
    ensures info.extendedMovers.None? ==> q == Some(Mover)
    ensures info.extendedMovers.Some? && requested.Some? && requested.value in info.extendedMovers.value ==>
              q == Some(NamedMover(requested.value))
    ensures info.extendedMovers.Some? && !(requested.Some? && requested.value in info.extendedMovers.value) ==>
              (q.Some? <==> info.defaultQueueName in info.extendedMovers.value) &&
              (q.Some? ==> q.value == NamedMover(info.defaultQueueName))
  {
    match info.extendedMovers
    case None => Some(Mover)
    case Some(m) =>
      var name := if requested.None? || requested.value !in m then info.defaultQueueName else requested.value;
      if name in m then Some(NamedMover(name)) else None
  }

  /** PoolQueueInfo.modifyQueue: the active count moves by `diff`. */
  function ModifyQueue(queue: QueueInfo, diff: int): QueueInfo
  {
    queue.(active := queue.active + diff)
  }

  /**
   * The record after queue `q`'s active count moved by `diff`: that count moves by exactly
   * `diff`, every other queue keeps its count, the same queues exist, the extended mover
   * map stays present or absent as it was, and the space accounting and default queue name
   * are untouched.
   */
  function AdjustQueue(info: CostInfo, q: QueueRef, diff: int): (r: CostInfo)
    requires HasQueue(info, q)
    ensures forall q' :: HasQueue(r, q') <==> HasQueue(info, q')
    ensures Active(r, q) == Active(info, q) + diff && Queue(r, q).maxActive == Queue(info, q).maxActive
    ensures forall q' :: q' != q && HasQueue(info, q') ==> Queue(r, q') == Queue(info, q')
    ensures r.space == info.space && r.defaultQueueName == info.defaultQueueName
    ensures r.extendedMovers.None? <==> info.extendedMovers.None?
  {
    match q
    case Mover => info.(moverQueue := ModifyQueue(info.moverQueue, diff))
    case NamedMover(n) =>
      var m := info.extendedMovers.value;
      info.(extendedMovers := Some(m[n := ModifyQueue(m[n], diff)]))
    case Restore => info.(restoreQueue := ModifyQueue(info.restoreQueue, diff))
    case P2pServer => info.(p2pQueue := ModifyQueue(info.p2pQueue, diff))
    case P2pClient => info.(p2pClientQueue := ModifyQueue(info.p2pClientQueue, diff))
  }

  /**
   * PoolSpaceInfo.modifyPinnedSpace: the pinned space moves by `diff`; every queue, the
   * extended mover map and the rest of the space accounting are untouched.
   */
  function ModifyPinnedSpace(info: CostInfo, diff: int): (r: CostInfo)
    ensures r.space.pinned == info.space.pinned + diff
    ensures r.space.total == info.space.total && r.space.free == info.space.free
    ensures r.space.removable == info.space.removable
    ensures forall q :: HasQueue(r, q) <==> HasQueue(info, q)
    ensures forall q :: HasQueue(info, q) ==> Queue(r, q) == Queue(info, q)
    ensures r.defaultQueueName == info.defaultQueueName
    ensures r.extendedMovers == info.extendedMovers
  {
    info.(space := info.space.(pinned := info.space.pinned + diff))
  }

  /** Moving a queue by `diff` and then by `-diff` gives back the original record. */
  lemma AdjustQueueInverse(info: CostInfo, q: QueueRef, diff: int)
    requires HasQueue(info, q)
    ensures AdjustQueue(AdjustQueue(info, q, diff), q, -diff) == info
  {
    match q
    case NamedMover(n) =>
      var m := info.extendedMovers.value;
      var once := AdjustQueue(info, q, diff);
      assert once.extendedMovers.value == m[n := ModifyQueue(m[n], diff)];
      var m1 := once.extendedMovers.value;
      var twice := AdjustQueue(once, q, -diff);
      assert twice.extendedMovers.value == m1[n := ModifyQueue(m1[n], -diff)];
      assert ModifyQueue(m1[n], -diff) == m[n];
      assert m1[n := m[n]] == m;
      assert twice == info.(extendedMovers := Some(m));
    case _ =>
  }

  /** Counter deltas never change which mover queue a request resolves to. */
  lemma ResolveStable(info: CostInfo, requested: Option<string>, q: QueueRef, diff: int, pinned: int)
    requires HasQueue(info, q)
    ensures ResolveMoverQueue(ModifyPinnedSpace(AdjustQueue(info, q, diff), pinned), requested)
            == ResolveMoverQueue(info, requested)
  {
  }

  /** Moving a queue and moving the pinned space do not interfere. */
  lemma AdjustCommutesWithPinned(info: CostInfo, q: QueueRef, diff: int, pinned: int)
    requires HasQueue(info, q)
    ensures HasQueue(ModifyPinnedSpace(info, pinned), q)
    ensures AdjustQueue(ModifyPinnedSpace(info, pinned), q, diff) == ModifyPinnedSpace(AdjustQueue(info, q, diff), pinned)
  {
  }

  /** A zero delta leaves a record as it is. */
  lemma ZeroDeltaIsIdentity(info: CostInfo, q: QueueRef)
    requires HasQueue(info, q)
    ensures ModifyPinnedSpace(AdjustQueue(info, q, 0), 0) == info
  {
    if q.NamedMover? {
      var m := info.extendedMovers.value;
      assert m[q.name := ModifyQueue(m[q.name], 0)] == m;
    }
  }
}
