/** Runs of the lifecycle: any sequence of calls, up to the first one that spoils the pool of topics. */
module LifecycleRuns {
  import opened Mempool
  import opened Entities
  import opened Taking
  import opened ReaderIds
  import opened Lifecycle
  import opened History
  import opened Integers
  import opened Cache
  import opened Callbacks

  datatype Call =
    | NewNode(nameFits: bool, namespaceFits: bool, confirmed: bool)
    | New(kind: EntityKind, node: Node, nameFits: bool, typeSupported: bool, namesFit: bool, agent: Answers)
    | End(node: Node, entity: Entity, agent: Answers)
    | EndNode(node: Node, agents: Item -> Answers, confirmed: bool)
    | EndContext(agents: Item -> Answers, confirms: Item -> bool)

  /** The call is about elements of the static arrays. */
  ghost predicate Known(rt: Runtime, call: Call) {
    match call
    case NewNode(_, _, _) => true
    case New(_, node, _, _, _, _) => node in rt.nodeSlots
    case End(_, entity, _) => entity in rt.entitySlots
    case EndNode(node, _, _) => node in rt.nodeSlots
    case EndContext(_, _) => true
  }

  /** The topic that the next slot of kind `k` was last used with, if any, is free and not the next to be handed out. */
  ghost predicate MayReject(rt: Runtime, k: EntityKind)
    requires |rt.pools| == 6 && rt.Pools() && rt.Slots()
    reads rt.pools, set p, x | p in rt.pools && x in p.items :: x, rt.NextSlot(k)
  {
    var e, free := rt.NextSlot(k), rt.pools[TOPICS].free;
    e != null && Topical(k) && e.topic != null ==> e.topic.mem in free && e.topic.mem != free[0]
  }

  /** A creation through a live node that is rejected for its name or type, and must not be. */
  ghost predicate Spoils(rt: Runtime, call: Call)
    requires |rt.pools| == 6 && rt.Pools() && rt.Slots()
    reads rt.pools, set p, x | p in rt.pools && x in p.items :: x
    reads if call.New? then {call.node, rt.NextSlot(call.kind)} else {}
  {
    call.New? && call.node.live && !(call.nameFits && call.typeSupported) && !MayReject(rt, call.kind)
  }

  /** Whether an item waits on the free list of a pool, behind its head. */
  method WaitsBehind(pool: Pool, x: Item) returns (waits: bool)
    requires pool.Valid()
    ensures waits <==> x in pool.free && x != pool.free[0]
  {
    hide Pool.Valid;
    pool.WalkFree(0);
    var item := pool.freeitems;
    if item == null {
      return false;
    }
    item := item.next;
    ghost var i := 1;
    while item != null && item != x
      invariant 1 <= i <= |pool.free| && item == Nth(pool.free, i)
      invariant forall j :: 1 <= j < i ==> pool.free[j] != x
      decreases |pool.free| - i
    {
      pool.WalkFree(i);
      item := item.next;
      i := i + 1;
    }
    waits := item != null;
    if waits {
      DistinctFree(pool, i);
    }
  }

  lemma DistinctFree(pool: Pool, i: nat)
    requires pool.Valid() && 0 < i < |pool.free|
    ensures pool.free[i] != pool.free[0]
  {
  }

  /** The slot that is handed out next, read off the head of the free list. */
  method NextOf(rt: Runtime, k: EntityKind) returns (e: Entity?)
    requires |rt.pools| == 6 && rt.Pools() && rt.Slots()
    ensures e == rt.NextSlot(k)
  {
    hide Runtime.PoolsBut, Runtime.Slots, Pool.Valid;
    rt.PoolSound(k, NONE);
    rt.pools[k].WalkFree(0);
    e := null;
    if rt.pools[k].freeitems != null {
      e := Base(rt.pools[k].freeitems.data);
    }
  }

  /** Whether a creation of kind `k` may be rejected. */
  method CheckReject(rt: Runtime, k: EntityKind) returns (may: bool)
    requires |rt.pools| == 6 && rt.Pools() && rt.Slots()
    ensures may <==> MayReject(rt, k)
  {
    hide Runtime.PoolsBut, Runtime.Slots, Runtime.NextSlot, Pool.Valid;
    rt.PoolSound(TOPICS, NONE);
    var e := NextOf(rt, k);
    may := true;
    if e != null && Topical(k) && e.topic != null {
      may := WaitsBehind(rt.pools[TOPICS], e.topic.mem);
    }
  }

  /** What a call has done, given the agent's answers. */
  twostate predicate Effect(rt: Runtime, new call: Call)
    requires |rt.pools| == 6 && Known(rt, call)
    reads rt.pools, rt.nodeSlots, rt.entitySlots
  {
    match call
    case NewNode(nameFits, namespaceFits, confirmed) =>
      |rt.pools[NODES].alloc| == old(|rt.pools[NODES].alloc|)
      + if old(rt.pools[NODES].free) != [] && nameFits && namespaceFits && confirmed then 1 else 0
    case New(k, node, nameFits, typeSupported, namesFit, agent) =>
      |rt.pools[k].alloc| == old(|rt.pools[k].alloc|)
      + if && old(node.live && rt.pools[k].free != []) && nameFits && typeSupported
           && Granted(k, old(rt.pools[TOPICS].free) != [], namesFit, agent) then 1 else 0
    case End(node, e, _) => node in rt.nodeSlots && old(node.live) ==> !e.live
    case EndNode(node, _, _) => !node.live && forall e :: e in rt.entitySlots && e.live ==> e.ownerNode != node
    case EndContext(_, _) => forall k :: 0 <= k < 6 ==> rt.pools[k].alloc == []
  }

  /** A creation that does not spoil the topics. */
  method PerformNew(rt: Runtime, k: EntityKind, node: Node, nameFits: bool, typeSupported: bool, namesFit: bool,
                    agent: Answers)
    requires |rt.pools| == 6 && rt.Valid() && rt.readers.Valid() && node in rt.nodeSlots
    requires !Spoils(rt, New(k, node, nameFits, typeSupported, namesFit, agent))
    modifies rt.pools, (set p, x | p in rt.pools && x in p.items :: x)`prev
    modifies (set p, x | p in rt.pools && x in p.items :: x)`next
    modifies rt.entitySlots, rt.topicSlots
    modifies rt.readers, rt.readers.session`idDatareader, rt.readers.subscriptions`datareaderId
    ensures rt.Valid() && rt.readers.Valid()
    ensures |rt.pools[k].alloc| == old(|rt.pools[k].alloc|)
            + if && old(node.live && rt.pools[k].free != []) && nameFits && typeSupported
                 && Granted(k, old(rt.pools[TOPICS].free) != [], namesFit, agent) then 1 else 0
  {
    hide Runtime.Pools, Runtime.PoolsBut, Runtime.Slots, Runtime.TopicsKnown;
    hide Runtime.Linked, Runtime.Balanced, Runtime.Valid;
    hide Readers.Valid, Runtime.NextSlot, Runtime.OthersKept, Runtime.PoolsKept, Runtime.ReaderStep;
    rt.ValidParts();
    rt.NextSlotIs(k);
    var e := rt.Create(k, node, nameFits, typeSupported, namesFit, agent);
  }

  /** A creation that must not be rejected, and is, breaks the invariant. */
  method PerformSpoiling(rt: Runtime, call: Call)
    requires |rt.pools| == 6 && rt.Valid() && rt.readers.Valid() && Known(rt, call) && Spoils(rt, call)
    modifies rt.pools, (set p, x | p in rt.pools && x in p.items :: x)`prev
    modifies (set p, x | p in rt.pools && x in p.items :: x)`next
    modifies rt.entitySlots, rt.topicSlots
    modifies rt.readers, rt.readers.session`idDatareader, rt.readers.subscriptions`datareaderId
    ensures !rt.Valid()
  {
    hide Runtime.Pools, Runtime.PoolsBut, Runtime.Slots, Runtime.TopicsKnown;
    hide Runtime.Linked, Runtime.Balanced, Runtime.Valid;
    hide Readers.Valid, Runtime.NextSlot, Runtime.OthersKept, Runtime.PoolsKept, Runtime.Created, Runtime.ReaderStep;
    rt.ValidParts();
    rt.NextSlotIs(call.kind);
    var e := rt.Create(call.kind, call.node, call.nameFits, call.typeSupported, call.namesFit, call.agent);
  }

  /** Any other call. */
  method PerformOther(rt: Runtime, call: Call)
    requires |rt.pools| == 6 && rt.Valid() && Known(rt, call) && !call.New?
    modifies rt.pools, (set p, x | p in rt.pools && x in p.items :: x)`prev
    modifies (set p, x | p in rt.pools && x in p.items :: x)`next
    modifies rt.nodeSlots, rt.entitySlots, rt.topicSlots
    ensures rt.Valid() && Effect(rt, call)
  {
    hide Runtime.Pools, Runtime.PoolsBut, Runtime.Slots, Runtime.TopicsKnown;
    hide Runtime.Linked, Runtime.Balanced, Runtime.Valid;
    hide Runtime.OthersKept, Runtime.PoolsKept;
    match call
    case NewNode(nameFits, namespaceFits, confirmed) =>
      var n := rt.CreateNode(nameFits, namespaceFits, confirmed);
    case End(node, e, agent) =>
      var ret := rt.Destroy(node, e, agent);
    case EndNode(node, agents, confirmed) =>
      var ret := rt.DestroyNode(node, agents, confirmed);
      rt.StaleOwnsNothing(node);
    case EndContext(agents, confirms) =>
      var ret := rt.ContextFini(rt.readers.session, agents, confirms);
  }

  /** One call that does not spoil the topics. */
  method Perform(rt: Runtime, call: Call)
    requires |rt.pools| == 6 && rt.Valid() && rt.readers.Valid() && Known(rt, call) && !Spoils(rt, call)
    modifies rt.pools, (set p, x | p in rt.pools && x in p.items :: x)`prev
    modifies (set p, x | p in rt.pools && x in p.items :: x)`next
    modifies rt.nodeSlots, rt.entitySlots, rt.topicSlots
    modifies rt.readers, rt.readers.session`idDatareader, rt.readers.subscriptions`datareaderId
    ensures rt.Valid() && rt.readers.Valid() && Effect(rt, call)
    ensures forall k :: 0 <= k < 6 ==> rt.pools[k].items == old(rt.pools[k].items)
  {
    hide Runtime.Pools, Runtime.PoolsBut, Runtime.Slots, Runtime.TopicsKnown;
    hide Runtime.Linked, Runtime.Balanced, Runtime.Valid;
    hide Readers.Valid, Spoils, Granted;
    rt.ValidParts();
    if call.New? {
      PerformNew(rt, call.kind, call.node, call.nameFits, call.typeSupported, call.namesFit, call.agent);
    } else {
      PerformOther(rt, call);
    }
    rt.ValidParts();
    rt.ItemsFixed();
  }

  /** Whether a call spoils the topics, found out before it is made. */
  method CheckCall(rt: Runtime, call: Call) returns (spoils: bool)
    requires |rt.pools| == 6 && rt.Pools() && rt.Slots()
    ensures spoils <==> Spoils(rt, call)
  {
    hide Runtime.Pools, Runtime.Slots, MayReject;
    spoils := false;
    match call
    case New(k, node, nameFits, typeSupported, _, _) =>
      if node.live && !(nameFits && typeSupported) {
        var may := CheckReject(rt, k);
        spoils := !may;
      }
    case _ =>
  }

  /**
   * Whatever calls are made, in whatever order, and whatever the agent confirms: the invariant holds after each of
   * them, up to the first creation that must not be rejected and is, which is where the sequence stops. Once the
   * session is ended, nothing is in use, whatever came before.
   */
  method Exercise(rt: Runtime, calls: seq<Call>) returns (done: nat)
    requires |rt.pools| == 6 && rt.Valid() && rt.readers.Valid() && forall n :: 0 <= n < |calls| ==> Known(rt, calls[n])
    modifies rt.pools, (set p, x | p in rt.pools && x in p.items :: x)`prev
    modifies (set p, x | p in rt.pools && x in p.items :: x)`next
    modifies rt.nodeSlots, rt.entitySlots, rt.topicSlots
    modifies rt.readers, rt.readers.session`idDatareader, rt.readers.subscriptions`datareaderId
    ensures rt.Valid() && rt.readers.Valid() && done <= |calls|
    ensures done < |calls| ==> Spoils(rt, calls[done])
    ensures done > 0 && calls[done - 1].EndContext? ==> forall k :: 0 <= k < 6 ==> rt.pools[k].alloc == []
  {
    hide Runtime.Pools, Runtime.Slots, Runtime.TopicsKnown, Runtime.Linked, Runtime.Balanced, Runtime.Valid;
    hide Readers.Valid, Spoils, Known;
    done := 0;
    while done < |calls|
      invariant rt.Valid() && rt.readers.Valid() && done <= |calls|
      invariant done > 0 && calls[done - 1].EndContext? ==> forall k :: 0 <= k < 6 ==> rt.pools[k].alloc == []
      invariant forall k :: 0 <= k < 6 ==> rt.pools[k].items == old(rt.pools[k].items)
    {
      rt.ValidParts();
      var spoils := CheckCall(rt, calls[done]);
      if spoils {
        return;
      }
      Perform(rt, calls[done]);
      done := done + 1;
    }
  }

  // ---------------------------------------------------------------- dispatch

  /** The cache serves the entities of the runtime and shares no storage with it. */
  ghost predicate Serves(cache: HistoryCache, rt: Runtime)
    reads rt.pools`items, cache.pool`items
  {
    && cache.subscriptions == rt.readers.subscriptions && cache.services == rt.services && cache.clients == rt.clients
    && cache.pool !in rt.pools && forall p :: p in rt.pools ==> p.items !! cache.pool.items
  }

  /** A place of the allocated subscriptions leads to a live one. */
  lemma SubscriptionAt(rt: Runtime, j: nat) returns (e: Entity)
    requires |rt.pools| == 6 && rt.Valid() && j < |rt.pools[SUBSCRIPTIONS].alloc|
    ensures e in rt.entitySlots && e.live && e.kind == SUBSCRIPTIONS && e.index < |rt.readers.subscriptions|
    ensures rt.pools[SUBSCRIPTIONS].alloc[j].data == rt.readers.subscriptions[e.index]
    ensures rt.readers.subscriptions[e.index].entity == e
  {
    hide Runtime.Pools, Runtime.Slots, Runtime.TopicsKnown, Runtime.Linked, Runtime.Balanced, Runtime.Valid;
    rt.ValidParts();
    rt.EntityAt(SUBSCRIPTIONS, j);
    e := Base(rt.pools[SUBSCRIPTIONS].alloc[j].data);
  }

  /** A live subscription has a place among the allocated ones. */
  lemma PlaceOf(rt: Runtime, e: Entity) returns (j: nat)
    requires |rt.pools| == 6 && rt.Valid() && e in rt.entitySlots && e.live && e.kind == SUBSCRIPTIONS
    ensures j < |rt.pools[SUBSCRIPTIONS].alloc| && e.index < |rt.readers.subscriptions|
    ensures rt.pools[SUBSCRIPTIONS].alloc[j].data == rt.readers.subscriptions[e.index]
    ensures rt.readers.subscriptions[e.index].entity == e
  {
    hide Runtime.Pools, Runtime.Slots, Runtime.TopicsKnown, Runtime.Linked, Runtime.Balanced, Runtime.Valid;
    rt.ValidParts();
    rt.LiveEntity(e);
    rt.SubscriptionPlace(e);
    j := IndexOf(rt.pools[SUBSCRIPTIONS].alloc, e.mem);
  }

  /** The first allocated subscription with a reader is the live one with it, if there is one. */
  lemma ReceiverIs(rt: Runtime, id: ObjectId, receiver: nat)
    requires |rt.pools| == 6 && rt.Valid() && rt.readers.Valid() && rt.readers.created <= CYCLE
    requires id.kind == DatareaderObject
    requires var s := rt.pools[SUBSCRIPTIONS].alloc;
             && receiver <= |s|
             && (forall j :: 0 <= j < receiver ==>
                   SubscriptionOf(s[j].data) != null && SubscriptionOf(s[j].data).datareaderId != id)
             && (receiver < |s| ==>
                   SubscriptionOf(s[receiver].data) != null && SubscriptionOf(s[receiver].data).datareaderId == id)
    ensures forall e {:trigger rt.ReaderOf(e)} ::
              e in rt.entitySlots && e.live && e.kind == SUBSCRIPTIONS && rt.ReaderOf(e) == id ==>
              && receiver < |rt.pools[SUBSCRIPTIONS].alloc| && e.index < |rt.readers.subscriptions|
              && rt.pools[SUBSCRIPTIONS].alloc[receiver].data == rt.readers.subscriptions[e.index]
              && rt.readers.subscriptions[e.index].entity == e
    ensures receiver < |rt.pools[SUBSCRIPTIONS].alloc| ==>
              exists e :: e in rt.entitySlots && e.live && e.kind == SUBSCRIPTIONS && rt.ReaderOf(e) == id
  {
    hide Runtime.Valid, Readers.Valid;
    if receiver < |rt.pools[SUBSCRIPTIONS].alloc| {
      var q := SubscriptionAt(rt, receiver);
      assert rt.ReaderOf(q) == id;
    }
    forall e {:trigger rt.ReaderOf(e)} |
      e in rt.entitySlots && e.live && e.kind == SUBSCRIPTIONS && rt.ReaderOf(e) == id
      ensures receiver < |rt.pools[SUBSCRIPTIONS].alloc| && e.index < |rt.readers.subscriptions|
      ensures rt.pools[SUBSCRIPTIONS].alloc[receiver].data == rt.readers.subscriptions[e.index]
      ensures rt.readers.subscriptions[e.index].entity == e
    {
      var j := PlaceOf(rt, e);
      var q := SubscriptionAt(rt, receiver);
      assert rt.ReaderOf(q) == id;
      rt.OneLiveReceiver(id);
    }
  }

  /** What a sample leaves stored for an entity. */
  function Sample(e: Entity, qos: Qos, payload: seq<bv8>, now: Int64): Rec {
    Rec(SubscriptionSlot(e.index), now, EffectiveLifespan(qos.lifespan), SubscriptionEntity, payload, NoRelated)
  }

  /**
   * A sample of reader `id` arrives at a runtime that has created at most 65536 readers. It is stored, as one
   * arrival, for the live subscription with that reader; for the graph reader, and for a reader that no live
   * subscription has, nothing is stored.
   */
  method Receive(rt: Runtime, cache: HistoryCache, id: ObjectId, payload: seq<bv8>, now: Int64, copied: bool)
    requires |rt.pools| == 6 && rt.Valid() && rt.readers.Valid() && rt.readers.created <= CYCLE
    requires id.kind == DatareaderObject
    requires cache.Valid() && Serves(cache, rt) && |payload| <= cache.capacity
    modifies rt.readers.graph, cache`stored, cache.pool, cache.pool.items`prev, cache.pool.items`next, cache.buffers
    ensures rt.Valid() && rt.readers.Valid() && cache.Valid() && cache.Slots() == old(cache.Slots())
    ensures Serves(cache, rt)
    ensures forall e {:trigger rt.ReaderOf(e)} ::
              e in rt.entitySlots && e.live && e.kind == SUBSCRIPTIONS && rt.ReaderOf(e) == id ==>
              && e.index < |cache.subscriptions|
              && var qos := cache.subscriptions[e.index].qos;
                 cache.View() == Arrive(old(cache.View()), old(cache.Slots()), qos,
                                        Sample(e, qos, payload, now), copied)
    ensures (forall e :: e in rt.entitySlots && e.live && e.kind == SUBSCRIPTIONS ==> rt.ReaderOf(e) != id) ==>
              cache.View() == old(cache.View())
  {
    hide Runtime.Pools, Runtime.Slots, Runtime.TopicsKnown, Runtime.Linked;
    hide Runtime.Balanced, Runtime.Valid, Readers.Valid;
    hide HistoryCache.Valid, HistoryCache.View, HistoryCache.Slots, Arrive;
    hide HoldsSubscriptions, HoldsServices, HoldsClients, Runtime.PoolsBut, Pool.Valid;
    rt.ValidParts();
    rt.HoldEntities(cache);
    rt.OneLiveReceiver(id);
    ghost var receiver := OnTopic(cache, rt.pools[SUBSCRIPTIONS], rt.readers.graph, id, payload, now, copied);
    assert rt.Valid();
    assert rt.readers.Valid();
    if rt.readers.graph.datareaderId != id {
      ReceiverIs(rt, id, receiver);
    }
  }

  /** A runtime with one node, if the agent confirms it and there is room for it. */
  method FirstNode(session: Session, graph: GraphInfo, sizes: seq<nat>, confirmed: bool)
      returns (rt: Runtime, node: Node?)
    requires |sizes| == 6 && graph.datareaderId == ObjectId(0, NoObject)
    modifies session`idDatareader
    ensures fresh(rt) && |rt.pools| == 6 && rt.Valid() && rt.readers.Valid() && rt.readers.created == 0
    ensures rt.readers.session == session && rt.readers.graph == graph
    ensures forall k {:trigger rt.pools[k]} :: 0 <= k < 6 ==> fresh(rt.pools[k]) && fresh(rt.pools[k].items)
    ensures fresh(rt.readers) && fresh(rt.readers.subscriptions)
    ensures fresh(rt.nodeSlots) && fresh(rt.entitySlots) && fresh(rt.topicSlots)
    ensures |rt.pools[SUBSCRIPTIONS].free| == sizes[SUBSCRIPTIONS] && |rt.pools[TOPICS].free| == sizes[TOPICS]
    ensures node != null <==> sizes[NODES] > 0 && confirmed
    ensures node != null ==> node in rt.nodeSlots && node.live
  {
    hide Runtime.Pools, Runtime.Slots, Runtime.TopicsKnown, Runtime.Linked;
    hide Runtime.Balanced, Runtime.Valid, Readers.Valid;
    hide Runtime.Took, Runtime.Lists;
    rt := Start(session, graph, sizes);
    rt.ValidParts();
    label started:
    node := rt.CreateNode(true, true, confirmed);
    rt.ValidParts();
    rt.ItemsFixed@started();
  }

  /** The first subscription of a runtime gets the reader with number 0. */
  method FirstSubscription(rt: Runtime, node: Node, agent: Answers) returns (e: Entity?)
    requires |rt.pools| == 6 && rt.Valid() && rt.readers.Valid() && rt.readers.created == 0 && node in rt.nodeSlots
    modifies rt.pools[SUBSCRIPTIONS], rt.pools[SUBSCRIPTIONS].items`prev, rt.pools[SUBSCRIPTIONS].items`next
    modifies rt.entitySlots
    modifies rt.pools[TOPICS], rt.pools[TOPICS].items`prev, rt.pools[TOPICS].items`next, rt.topicSlots
    modifies rt.readers, rt.readers.session`idDatareader, rt.readers.subscriptions`datareaderId
    ensures rt.Valid() && rt.readers.Valid() && rt.readers.created <= 1
    ensures forall k :: 0 <= k < 6 ==> rt.pools[k].items == old(rt.pools[k].items)
    ensures e != null <==>
              && node.live && old(rt.pools[SUBSCRIPTIONS].free) != [] && old(rt.pools[TOPICS].free) != []
              && agent.topic && agent.first && agent.second
    ensures e != null ==>
              && e in rt.entitySlots && e.live && e.kind == SUBSCRIPTIONS && e.index < |rt.readers.subscriptions|
              && rt.ReaderOf(e) == ObjectId(0, DatareaderObject)
  {
    hide Runtime.Pools, Runtime.PoolsBut, Runtime.Slots, Runtime.TopicsKnown;
    hide Runtime.Linked, Runtime.Balanced, Runtime.Valid;
    hide Readers.Valid, Runtime.NextSlot, Runtime.OthersKept, Runtime.PoolsKept;
    hide Runtime.Lists, Runtime.Took, Runtime.Looped;
    rt.ValidParts();
    e := rt.Create(SUBSCRIPTIONS, node, true, true, true, agent);
    rt.ValidParts();
    rt.ItemsFixed();
    if e != null {
      rt.SubscriptionPlace(e);
      rt.readers.IdAt(e.index);
    }
  }

  /** From the start of a session to its first subscription. */
  method FirstReader(session: Session, graph: GraphInfo, sizes: seq<nat>, confirmed: bool, agent: Answers)
      returns (rt: Runtime, e: Entity?)
    requires |sizes| == 6 && graph.datareaderId == ObjectId(0, NoObject)
    modifies session`idDatareader
    ensures fresh(rt) && |rt.pools| == 6 && rt.Valid() && rt.readers.Valid() && rt.readers.created <= 1
    ensures rt.readers.graph == graph
    ensures e != null <==>
              && sizes[NODES] > 0 && sizes[SUBSCRIPTIONS] > 0 && sizes[TOPICS] > 0
              && confirmed && agent.topic && agent.first && agent.second
    ensures e != null ==>
              && e in rt.entitySlots && e.live && e.kind == SUBSCRIPTIONS && e.index < |rt.readers.subscriptions|
              && rt.ReaderOf(e) == ObjectId(0, DatareaderObject)
  {
    hide Runtime.Pools, Runtime.Slots, Runtime.TopicsKnown, Runtime.Linked;
    hide Runtime.Balanced, Runtime.Valid, Readers.Valid, Runtime.ReaderOf;
    e := null;
    var node;
    rt, node := FirstNode(session, graph, sizes, confirmed);
    if node != null {
      e := FirstSubscription(rt, node, agent);
    }
  }

  /** A new cache for the entities of a runtime. */
  method CacheFor(rt: Runtime, size: nat, capacity: nat) returns (cache: HistoryCache)
    requires |rt.pools| == 6
    ensures fresh(cache) && fresh(cache.pool) && fresh(cache.pool.items) && fresh(cache.buffers)
    ensures cache.Valid() && Serves(cache, rt)
    ensures cache.View() == [] && cache.Slots() == size && cache.capacity == capacity
  {
    hide HistoryCache.Valid, HistoryCache.View, HistoryCache.Slots;
    cache := NewCache(size, capacity, false, rt.readers.subscriptions, rt.services, rt.clients);
  }

  /** What one arrival leaves in an empty cache. */
  lemma FirstArrival(size: nat, qos: Qos, r: Rec, copied: bool)
    ensures Arrive([], size, qos, r, copied) == if size > 0 && copied && !qos.history.Unrecognized? then [r] else []
  {
  }

  /**
   * From the start of a session: once the agent has confirmed a node and a subscription of it, and there was room for
   * them, a sample of reader number 0 arrives. It is the one message stored, for that subscription and with its
   * lifespan, if its bytes can be read and there is a buffer for it.
   */
  method FirstSample(session: Session, graph: GraphInfo, sizes: seq<nat>, size: nat, capacity: nat,
                     confirmed: bool, agent: Answers, payload: seq<bv8>, now: Int64, copied: bool)
      returns (rt: Runtime, e: Entity?, cache: HistoryCache)
    requires |sizes| == 6 && graph.datareaderId == ObjectId(0, NoObject) && |payload| <= capacity
    modifies session`idDatareader, graph
    ensures |rt.pools| == 6 && rt.Valid() && rt.readers.Valid() && cache.Valid() && Serves(cache, rt)
    ensures e != null <==>
              && sizes[NODES] > 0 && sizes[SUBSCRIPTIONS] > 0 && sizes[TOPICS] > 0
              && confirmed && agent.topic && agent.first && agent.second
    ensures e != null ==>
              && e in rt.entitySlots && e.live && e.kind == SUBSCRIPTIONS && e.index < |cache.subscriptions|
              && var qos := cache.subscriptions[e.index].qos;
                 var lifespan: Duration := if qos.lifespan == 0 then 30_000_000_000 else qos.lifespan;
                 cache.View() == if size > 0 && copied && !qos.history.Unrecognized?
                                 then [Rec(SubscriptionSlot(e.index), now, lifespan,
                                           SubscriptionEntity, payload, NoRelated)]
                                 else []
    ensures e == null ==> cache.View() == []
  {
    hide Runtime.Pools, Runtime.Slots, Runtime.TopicsKnown, Runtime.Linked;
    hide Runtime.Balanced, Runtime.Valid, Readers.Valid;
    hide HistoryCache.Valid, HistoryCache.View, HistoryCache.Slots, Arrive, Serves, Runtime.ReaderOf;
    rt, e := FirstReader(session, graph, sizes, confirmed, agent);
    cache := CacheFor(rt, size, capacity);
    assert rt.Valid();
    assert rt.readers.Valid();
    if e != null {
      Receive(rt, cache, ObjectId(0, DatareaderObject), payload, now, copied);
      var qos := cache.subscriptions[e.index].qos;
      FirstArrival(size, qos, Sample(e, qos, payload, now), copied);
    }
  }
}
