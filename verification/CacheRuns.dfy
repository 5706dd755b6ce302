/** The linked-list cache, driven by any sequence of stores, sweeps and takes, and the run it performs. */
module CacheRuns {
  import opened Integers
  import opened History
  import opened Mempool
  import opened Entities
  import opened Cache
  import opened Taking
  import opened Runs

  /** What is done with the cache: a callback stores a message, a sweep is made, or an entity takes a message. */
  datatype Op =
    | Store(owner: Handle, payload: seq<bv8>, related: Related, now: Int64, copied: bool)
    | Clean(now: Int64)
    | TakeFrom(taker: Handle, now: Int64)

  /** The profiles of the system are those of the entities. */
  ghost predicate Follows(sys: System, cache: HistoryCache)
    reads cache.subscriptions, cache.services, cache.clients
  {
    && (forall i :: 0 <= i < |cache.subscriptions| ==> sys.qos(SubscriptionSlot(i)) == cache.subscriptions[i].qos)
    && (forall i :: 0 <= i < |cache.services| ==> sys.qos(ServiceSlot(i)) == cache.services[i].qos)
    && (forall i :: 0 <= i < |cache.clients| ==> sys.qos(ClientSlot(i)) == cache.clients[i].qos)
  }

  function KindOf(owner: Handle): EntityType {
    match owner
    case Null => UnknownEntity
    case SubscriptionSlot(_) => SubscriptionEntity
    case ServiceSlot(_) => ServiceEntity
    case ClientSlot(_) => ClientEntity
  }

  /** The handle is that of an entity that the cache serves. */
  predicate Known(cache: HistoryCache, owner: Handle) {
    owner != Null && cache.WellTyped(KindOf(owner), owner)
  }

  /** The entity's own profile. */
  function QosOf(cache: HistoryCache, owner: Handle): Qos
    requires Known(cache, owner)
    reads cache.subscriptions, cache.services, cache.clients
  {
    match owner
    case SubscriptionSlot(i) => cache.subscriptions[i].qos
    case ServiceSlot(i) => cache.services[i].qos
    case ClientSlot(i) => cache.clients[i].qos
  }

  /** The message as it is stored. */
  function RecOf(sys: System, owner: Handle, payload: seq<bv8>, related: Related, now: Int64): Rec {
    Rec(owner, now, EffectiveLifespan(sys.qos(owner).lifespan), KindOf(owner), payload, related)
  }

  /** The steps of the run that an operation on `c` amounts to; a take begins with a sweep. */
  function StepsOf(sys: System, c: seq<Rec>, op: Op, decodes: seq<bv8> -> bool): seq<Step> {
    match op
    case Store(owner, payload, related, now, copied) => [Arrival(RecOf(sys, owner, payload, related, now), copied)]
    case Clean(now) => [Sweep(now)]
    case TakeFrom(o, now) => [Sweep(now), Taking(o, TakeAt(c, o, now, decodes).taken)]
  }

  /** The run that a sequence of operations continues `past` with. */
  function Script(sys: System, past: seq<Step>, ops: seq<Op>, decodes: seq<bv8> -> bool): seq<Step> {
    if ops == [] then past
    else
      var before := Script(sys, past, ops[..|ops| - 1], decodes);
      before + StepsOf(sys, Run(sys, before), ops[|ops| - 1], decodes)
  }

  lemma ScriptStep(sys: System, past: seq<Step>, ops: seq<Op>, decodes: seq<bv8> -> bool, n: nat)
    requires n < |ops|
    ensures var before := Script(sys, past, ops[..n], decodes);
            Script(sys, past, ops[..n + 1], decodes) == before + StepsOf(sys, Run(sys, before), ops[n], decodes)
  {
    assert ops[..n + 1][..n] == ops[..n];
  }

  /** A message arrives for an entity and is stored under the entity's own profile. */
  method StoreFor(cache: HistoryCache, owner: Handle, payload: seq<bv8>, related: Related, now: Int64, copied: bool,
                  ghost sys: System, ghost past: seq<Step>)
    requires cache.Valid() && cache.View() == Run(sys, past) && cache.Slots() == sys.slots && Follows(sys, cache)
    requires Known(cache, owner) && |payload| <= cache.capacity
    modifies cache`stored, cache.pool, cache.pool.items`prev, cache.pool.items`next, cache.buffers
    ensures cache.Valid() && cache.Slots() == sys.slots && cache.pool.items == old(cache.pool.items)
    ensures cache.View() == Run(sys, past + [Arrival(RecOf(sys, owner, payload, related, now), copied)])
  {
    hide HistoryCache.Valid, HistoryCache.View, HistoryCache.Slots, Run, Acquire;
    RunThen(sys, past, Arrival(RecOf(sys, owner, payload, related, now), copied));
    cache.StoreInput(owner, KindOf(owner), QosOf(cache, owner), payload, related, now, copied);
  }

  /** One operation. */
  method Perform(cache: HistoryCache, op: Op, decodes: seq<bv8> -> bool, ghost sys: System, ghost past: seq<Step>)
    requires cache.Valid() && cache.View() == Run(sys, past) && cache.Slots() == sys.slots && Follows(sys, cache)
    requires op.Store? ==> Known(cache, op.owner) && |op.payload| <= cache.capacity
    modifies cache`stored, cache.pool, cache.pool.items`prev, cache.pool.items`next, cache.buffers
    ensures cache.Valid() && cache.Slots() == sys.slots && cache.pool.items == old(cache.pool.items)
    ensures cache.View() == Run(sys, past + StepsOf(sys, Run(sys, past), op, decodes))
  {
    hide HistoryCache.Valid, HistoryCache.View, HistoryCache.Slots, Run, TakeAt, Oldest, Filter, Queue;
    match op
    case Store(owner, payload, related, now, copied) =>
      StoreFor(cache, owner, payload, related, now, copied, sys, past);
    case Clean(now) =>
      RunThen(sys, past, Sweep(now));
      cache.CleanExpired(now);
    case TakeFrom(o, now) =>
      ghost var taken := TakeAt(Run(sys, past), o, now, decodes).taken;
      RunThen(sys, past, Sweep(now));
      RunThen(sys, past + [Sweep(now)], Taking(o, taken));
      assert past + [Sweep(now)] + [Taking(o, taken)] == past + [Sweep(now), Taking(o, taken)];
      TakeHandsOverHead(Run(sys, past), o, now, decodes, sys);
      var ret, t, message, related := TakeOldest(cache, o, now, decodes);
  }

  /** The cache after any sequence of operations holds what the run of that sequence says. */
  method Drive(cache: HistoryCache, ops: seq<Op>, decodes: seq<bv8> -> bool, ghost sys: System, ghost past: seq<Step>)
    requires cache.Valid() && cache.View() == Run(sys, past) && cache.Slots() == sys.slots && Follows(sys, cache)
    requires forall n :: 0 <= n < |ops| && ops[n].Store? ==>
               Known(cache, ops[n].owner) && |ops[n].payload| <= cache.capacity
    modifies cache`stored, cache.pool, cache.pool.items`prev, cache.pool.items`next, cache.buffers
    ensures cache.Valid() && cache.Slots() == sys.slots && cache.pool.items == old(cache.pool.items)
    ensures cache.View() == Run(sys, Script(sys, past, ops, decodes))
  {
    hide HistoryCache.Valid, HistoryCache.View, HistoryCache.Slots, Run, Script, StepsOf;
    ScriptStart(sys, past, decodes);
    assert ops[..0] == [];
    for n := 0 to |ops|
      invariant cache.Valid() && cache.Slots() == sys.slots && cache.pool.items == old(cache.pool.items)
      invariant cache.View() == Run(sys, Script(sys, past, ops[..n], decodes))
    {
      ScriptStep(sys, past, ops, decodes, n);
      Perform(cache, ops[n], decodes, sys, Script(sys, past, ops[..n], decodes));
    }
    assert ops[..|ops|] == ops;
  }

  lemma ScriptStart(sys: System, past: seq<Step>, decodes: seq<bv8> -> bool)
    ensures Script(sys, past, [], decodes) == past
  {
  }

  /**
   * From a new cache, any sequence of operations leaves every entity whose arrivals join the end with the queue that a
   * bounded FIFO of its own would hold.
   */
  method DriveFromStart(size: nat, capacity: nat, dynamicBuild: bool,
                        subscriptions: seq<Subscription>, services: seq<Service>, clients: seq<Client>,
                        ops: seq<Op>, decodes: seq<bv8> -> bool, ghost sys: System)
      returns (cache: HistoryCache)
    requires sys.slots == size
    requires forall i :: 0 <= i < |subscriptions| ==> sys.qos(SubscriptionSlot(i)) == subscriptions[i].qos
    requires forall i :: 0 <= i < |services| ==> sys.qos(ServiceSlot(i)) == services[i].qos
    requires forall i :: 0 <= i < |clients| ==> sys.qos(ClientSlot(i)) == clients[i].qos
    requires forall n :: 0 <= n < |ops| && ops[n].Store? ==>
               && |ops[n].payload| <= capacity
               && match ops[n].owner
                  case Null => false
                  case SubscriptionSlot(i) => i < |subscriptions|
                  case ServiceSlot(i) => i < |services|
                  case ClientSlot(i) => i < |clients|
    ensures fresh(cache) && cache.Valid()
    ensures var steps := Script(sys, [], ops, decodes);
            && cache.View() == Run(sys, steps)
            && forall o :: JoinsInOrder(sys, steps, o) ==> Queue(cache.View(), o) == FifoRun(sys, steps, o)
  {
    cache := NewCache(size, capacity, dynamicBuild, subscriptions, services, clients);
    hide HistoryCache.Valid, HistoryCache.View, HistoryCache.Slots, Script, JoinsInOrder, FifoRun, Queue;
    Drive(cache, ops, decodes, sys, []);
    forall o | JoinsInOrder(sys, Script(sys, [], ops, decodes), o)
      ensures Queue(cache.View(), o) == FifoRun(sys, Script(sys, [], ops, decodes), o)
    {
      JoinedRefinesFifo(sys, Script(sys, [], ops, decodes), o);
    }
  }
}
