/** What the client library calls when data arrives: find the entity it is for and store the message. */
module Callbacks {
  import opened Integers
  import opened History
  import opened Mempool
  import opened Entities
  import opened Cache

  /** Every allocated item of the pool leads to a subscription in its place of the static array. */
  ghost predicate HoldsSubscriptions(pool: Pool, cache: HistoryCache)
    reads pool, pool.items
  {
    && pool.Valid()
    && forall x {:trigger x in pool.items} :: x in pool.items ==>
         && x.data is Subscription
         && (x.data as Subscription).entity.index < |cache.subscriptions|
         && cache.subscriptions[(x.data as Subscription).entity.index] == x.data
  }

  ghost predicate HoldsServices(pool: Pool, cache: HistoryCache)
    reads pool, pool.items
  {
    && pool.Valid()
    && forall x {:trigger x in pool.items} :: x in pool.items ==>
         && x.data is Service
         && (x.data as Service).entity.index < |cache.services|
         && cache.services[(x.data as Service).entity.index] == x.data
  }

  ghost predicate HoldsClients(pool: Pool, cache: HistoryCache)
    reads pool, pool.items
  {
    && pool.Valid()
    && forall x {:trigger x in pool.items} :: x in pool.items ==>
         && x.data is Client
         && (x.data as Client).entity.index < |cache.clients|
         && cache.clients[(x.data as Client).entity.index] == x.data
  }

  lemma FirstSubscription(pool: Pool, cache: HistoryCache)
    requires HoldsSubscriptions(pool, cache)
    ensures pool.allocateditems == if pool.alloc == [] then null else pool.alloc[0]
  {
    pool.WalkAllocated(0);
  }

  lemma AllocatedSubscription(pool: Pool, cache: HistoryCache, i: nat)
    requires HoldsSubscriptions(pool, cache) && i < |pool.alloc|
    ensures pool.alloc[i].data is Subscription
    ensures pool.alloc[i].next == if i + 1 < |pool.alloc| then pool.alloc[i + 1] else null
    ensures var s := pool.alloc[i].data as Subscription;
            s.entity.index < |cache.subscriptions| && cache.subscriptions[s.entity.index] == s
  {
    pool.WalkAllocated(i);
  }

  lemma FirstService(pool: Pool, cache: HistoryCache)
    requires HoldsServices(pool, cache)
    ensures pool.allocateditems == if pool.alloc == [] then null else pool.alloc[0]
  {
    pool.WalkAllocated(0);
  }

  lemma AllocatedService(pool: Pool, cache: HistoryCache, i: nat)
    requires HoldsServices(pool, cache) && i < |pool.alloc|
    ensures pool.alloc[i].data is Service
    ensures pool.alloc[i].next == if i + 1 < |pool.alloc| then pool.alloc[i + 1] else null
    ensures var s := pool.alloc[i].data as Service;
            s.entity.index < |cache.services| && cache.services[s.entity.index] == s
  {
    pool.WalkAllocated(i);
  }

  lemma FirstClient(pool: Pool, cache: HistoryCache)
    requires HoldsClients(pool, cache)
    ensures pool.allocateditems == if pool.alloc == [] then null else pool.alloc[0]
  {
    pool.WalkAllocated(0);
  }

  lemma AllocatedClient(pool: Pool, cache: HistoryCache, i: nat)
    requires HoldsClients(pool, cache) && i < |pool.alloc|
    ensures pool.alloc[i].data is Client
    ensures pool.alloc[i].next == if i + 1 < |pool.alloc| then pool.alloc[i + 1] else null
    ensures var s := pool.alloc[i].data as Client;
            s.entity.index < |cache.clients| && cache.clients[s.entity.index] == s
  {
    pool.WalkAllocated(i);
  }

  /** What a buffer holds after its bytes could not all be read. */
  method AnyBytes(n: nat) returns (bytes: seq<bv8>)
    ensures |bytes| == n
  {
    bytes := [];
    for i := 0 to n
      invariant |bytes| == i
    {
      var b: bv8 := *;
      bytes := bytes + [b];
    }
  }

  /**
   * A sample from reader `id`: the graph reader keeps it for itself, whether or not its bytes could be read;
   * otherwise the first allocated subscription with that reader stores it, and without one it is lost. `receiver`
   * is the position of that subscription.
   */
  method OnTopic(cache: HistoryCache, pool: Pool, graph: GraphInfo?, id: ObjectId,
                 payload: seq<bv8>, now: Int64, copied: bool) returns (ghost receiver: nat)
    requires cache.Valid() && HoldsSubscriptions(pool, cache) && |payload| <= cache.capacity
    modifies graph, cache`stored, cache.pool, cache.pool.items`prev, cache.pool.items`next, cache.buffers
    ensures cache.Valid() && cache.Slots() == old(cache.Slots()) && cache.pool.items == old(cache.pool.items)
    ensures graph != null && old(graph.datareaderId) == id ==>
              && cache.View() == old(cache.View())
              && graph.datareaderId == id && |graph.microBuffer| == |payload| && graph.initialized && graph.hasChanged
              && (copied ==> graph.microBuffer == payload)
    ensures graph != null && old(graph.datareaderId) != id ==> unchanged(graph)
    ensures graph == null || old(graph.datareaderId) != id ==>
              && receiver <= old(|pool.alloc|)
              && (forall j :: 0 <= j < receiver ==>
                    old(pool.alloc)[j].data is Subscription
                    && (old(pool.alloc)[j].data as Subscription).datareaderId != id)
              && (receiver == old(|pool.alloc|) ==> cache.View() == old(cache.View()))
              && (receiver < old(|pool.alloc|) ==>
                    && old(pool.alloc)[receiver].data is Subscription
                    && var s := old(pool.alloc)[receiver].data as Subscription;
                    && s.datareaderId == id && s.entity.index < |cache.subscriptions|
                    && cache.View() == Arrive(old(cache.View()), old(cache.Slots()), s.qos,
                                              Rec(SubscriptionSlot(s.entity.index), now,
                                                  EffectiveLifespan(s.qos.lifespan),
                                                  SubscriptionEntity, payload, NoRelated), copied))
  {
    hide HistoryCache.Valid, HistoryCache.View, Pool.Valid, HoldsSubscriptions, Acquire;
    receiver := 0;
    if graph != null && graph.datareaderId == id {
      KeepGraph(graph, payload, copied);
      return;
    }
    var subscription;
    subscription, receiver := FindSubscription(cache, pool, id);
    if subscription != null {
      cache.StoreInput(SubscriptionSlot(subscription.entity.index), SubscriptionEntity, subscription.qos,
                       payload, NoRelated, now, copied);
    }
  }

  /** The graph reader keeps the message, whether or not its bytes could be read. */
  method KeepGraph(graph: GraphInfo, payload: seq<bv8>, copied: bool)
    modifies graph
    ensures graph.datareaderId == old(graph.datareaderId)
    ensures |graph.microBuffer| == |payload| && graph.initialized && graph.hasChanged
    ensures copied ==> graph.microBuffer == payload
  {
    var received := payload;
    if !copied {
      received := AnyBytes(|payload|);
    }
    graph.microBuffer := received;
    graph.initialized := true;
    graph.hasChanged := true;
  }

  /** The first allocated subscription with the reader. */
  method FindSubscription(cache: HistoryCache, pool: Pool, id: ObjectId)
      returns (subscription: Subscription?, ghost receiver: nat)
    requires HoldsSubscriptions(pool, cache)
    ensures receiver <= |pool.alloc| && (subscription == null <==> receiver == |pool.alloc|)
    ensures forall j :: 0 <= j < receiver ==>
              pool.alloc[j].data is Subscription && (pool.alloc[j].data as Subscription).datareaderId != id
    ensures subscription != null ==>
              && pool.alloc[receiver].data == subscription && subscription.datareaderId == id
              && subscription.entity.index < |cache.subscriptions|
              && cache.subscriptions[subscription.entity.index] == subscription
  {
    hide Pool.Valid, HoldsSubscriptions;
    subscription, receiver := null, 0;
    FirstSubscription(pool, cache);
    var item := pool.allocateditems;
    while item != null && subscription == null
      invariant receiver <= |pool.alloc|
      invariant subscription == null ==> item == if receiver < |pool.alloc| then pool.alloc[receiver] else null
      invariant forall j :: 0 <= j < receiver ==>
                  pool.alloc[j].data is Subscription && (pool.alloc[j].data as Subscription).datareaderId != id
      invariant subscription != null ==>
                  && receiver < |pool.alloc| && pool.alloc[receiver].data == subscription
                  && subscription.datareaderId == id
                  && subscription.entity.index < |cache.subscriptions|
                  && cache.subscriptions[subscription.entity.index] == subscription
      decreases |pool.alloc| - receiver, subscription == null
    {
      AllocatedSubscription(pool, cache, receiver);
      if (item.data as Subscription).datareaderId == id {
        subscription := item.data as Subscription;
      } else {
        item := item.next;
        receiver := receiver + 1;
      }
    }
  }

  /**
   * A request: the first allocated service that reads from this stream request stores it with its sender's
   * identity.
   */
  method OnRequest(cache: HistoryCache, pool: Pool, requestId: UInt16, sample: SampleIdentity,
             payload: seq<bv8>, now: Int64, copied: bool) returns (ghost receiver: nat)
    requires cache.Valid() && HoldsServices(pool, cache) && |payload| <= cache.capacity
    modifies cache`stored, cache.pool, cache.pool.items`prev, cache.pool.items`next, cache.buffers
    ensures cache.Valid() && cache.Slots() == old(cache.Slots()) && cache.pool.items == old(cache.pool.items)
    ensures receiver <= old(|pool.alloc|)
    ensures forall j :: 0 <= j < receiver ==>
              old(pool.alloc)[j].data is Service && (old(pool.alloc)[j].data as Service).dataRequest != requestId
    ensures receiver == old(|pool.alloc|) ==> cache.View() == old(cache.View())
    ensures receiver < old(|pool.alloc|) ==>
              && old(pool.alloc)[receiver].data is Service
              && var s := old(pool.alloc)[receiver].data as Service;
              && s.dataRequest == requestId && s.entity.index < |cache.services|
              && cache.View() == Arrive(old(cache.View()), old(cache.Slots()), s.qos,
                                        Rec(ServiceSlot(s.entity.index), now, EffectiveLifespan(s.qos.lifespan),
                                            ServiceEntity, payload, SampleId(sample)), copied)
  {
    hide HistoryCache.Valid, Pool.Valid, HoldsServices, Messages, Acquire;
    FirstService(pool, cache);
    receiver := 0;
    var item := pool.allocateditems;
    while item != null
      invariant receiver <= |pool.alloc| && item == if receiver < |pool.alloc| then pool.alloc[receiver] else null
      invariant forall j :: 0 <= j < receiver ==>
                  pool.alloc[j].data is Service && (pool.alloc[j].data as Service).dataRequest != requestId
      modifies {}
      decreases |pool.alloc| - receiver
    {
      AllocatedService(pool, cache, receiver);
      if (item.data as Service).dataRequest == requestId {
        break;
      }
      item := item.next;
      receiver := receiver + 1;
    }
    if item != null {
      AllocatedService(pool, cache, receiver);
      var service := item.data as Service;
      cache.StoreInput(ServiceSlot(service.entity.index), ServiceEntity, service.qos,
                       payload, SampleId(sample), now, copied);
    }
  }

  /**
   * A reply: the first allocated client that reads from this stream request stores it with the number it replies
   * to.
   */
  method OnReply(cache: HistoryCache, pool: Pool, requestId: UInt16, replyId: UInt16,
             payload: seq<bv8>, now: Int64, copied: bool) returns (ghost receiver: nat)
    requires cache.Valid() && HoldsClients(pool, cache) && |payload| <= cache.capacity
    modifies cache`stored, cache.pool, cache.pool.items`prev, cache.pool.items`next, cache.buffers
    ensures cache.Valid() && cache.Slots() == old(cache.Slots()) && cache.pool.items == old(cache.pool.items)
    ensures receiver <= old(|pool.alloc|)
    ensures forall j :: 0 <= j < receiver ==>
              old(pool.alloc)[j].data is Client && (old(pool.alloc)[j].data as Client).dataRequest != requestId
    ensures receiver == old(|pool.alloc|) ==> cache.View() == old(cache.View())
    ensures receiver < old(|pool.alloc|) ==>
              && old(pool.alloc)[receiver].data is Client
              && var s := old(pool.alloc)[receiver].data as Client;
              && s.dataRequest == requestId && s.entity.index < |cache.clients|
              && cache.View() == Arrive(old(cache.View()), old(cache.Slots()), s.qos,
                                        Rec(ClientSlot(s.entity.index), now, EffectiveLifespan(s.qos.lifespan),
                                            ClientEntity, payload, ReplyId(replyId)), copied)
  {
    hide HistoryCache.Valid, Pool.Valid, HoldsClients, Messages, Acquire;
    FirstClient(pool, cache);
    receiver := 0;
    var item := pool.allocateditems;
    while item != null
      invariant receiver <= |pool.alloc| && item == if receiver < |pool.alloc| then pool.alloc[receiver] else null
      invariant forall j :: 0 <= j < receiver ==>
                  pool.alloc[j].data is Client && (pool.alloc[j].data as Client).dataRequest != requestId
      modifies {}
      decreases |pool.alloc| - receiver
    {
      AllocatedClient(pool, cache, receiver);
      if (item.data as Client).dataRequest == requestId {
        break;
      }
      item := item.next;
      receiver := receiver + 1;
    }
    if item != null {
      AllocatedClient(pool, cache, receiver);
      var client := item.data as Client;
      cache.StoreInput(ClientSlot(client.entity.index), ClientEntity, client.qos,
                       payload, ReplyId(replyId), now, copied);
    }
  }
}
