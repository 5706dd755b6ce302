# History cache, entity lifecycle and graph decoding of rmw_microxrcedds

rmw_microxrcedds is the ROS 2 middleware of micro-ROS. It runs in fixed memory: every entity lives in a slot of a static
array, and all messages wait in one pool of input buffers. This project models that runtime in Dafny and proves what its
users rely on. Transports, the XRCE client library and type support are outside; their answers are arbitrary inputs.

`dafny verify dfyconfig.toml` checks everything.

## What is modelled

**The pool** (`Mempool`, `PoolRuns`). Items of class `Item` carry the links `prev` and `next`. A `Pool` threads them onto
a free and an allocated list; two ghost sequences name the lists, and `Pool.Valid` says that the links form them:
acyclic, disjoint, inverse, null-terminated. `PutMemory` is specified for every item the code can be given: in use,
loose, free, and the free head, where the code makes the list point to itself. Growth is modelled with its nested call.

**The history cache** (`History`, `Refinement`, `Runs`, then `Cache`, `CacheRuns`, `Callbacks`, `Taking`). There are no
queues in the code: each buffer has an owner and a timestamp, and a scan of the allocated list picks the oldest.
`History` states these scans on sequences and defines the queue of an owner independently, as a stable sort by
timestamp. `Refinement` proves exactly when a locked section acts on every queue as a bounded FIFO does. `Runs` lifts
this to every interleaving of arrivals, sweeps and takes: the cache acts as one FIFO per owner if and only if arrivals
join the end of what they find stored, which increasing timestamps ensure. `Cache` is the imperative code over the
linked lists; its methods are tied to the functions of `History`. `CacheRuns` drives it through any sequence of
operations, from an empty cache on, and ties it to `Runs`.

**Entities** (`Entities`, `Lifecycle`, `LifecycleRuns`). Nodes, publishers, subscriptions, services, clients and topics
live in six pools and point at each other. Publishers, subscriptions, services and clients share a class `Entity` for
the fields their structures have in common; only the first two use its topic. The invariant `Runtime.Valid` says that
handles are live exactly in the slots in use, entities belong to live nodes, and topics in use correspond one to one to
publishers and subscriptions in use. Creation, with every failure exit, destruction, the cascade of `DestroyNode`, topic
counting and the end of a context are proved against it. What the agent answers is an argument of each call, and every
result is tied to it. The class `Readers` carries the identifiers of datareaders along: a creation names no reader, or
that of its own slot. `LifecycleRuns` makes any sequence of calls, and follows a sample from the start of a session to
the buffer of its receiver.

**Algorithms on top** (`ReaderIds`, `RequestId`, `Wait`, `Cdr`, `Graph`, `GraphDecoder`, `Queries`). Naming of
datareaders by a 16-bit counter, conversion of sample identities, `rmw_wait`, the nested graph decoder against an
encoder, and the two queries over its result.

## Where the code falls short

These are proved, with the exact condition under which the code does meet its intent and an input on which it does not.

- Timestamps that do not increase: `Runs.RunRefinesFifo` gives the condition for whole runs,
  `Refinement.ArrivalJoinsEndIff` for one arrival, `Refinement.TieReversesArrivals` an input.
- Expiry that exceeds 64 bits: `Refinement.KeptIff` gives the condition; `Refinement.InfiniteLifespanIsSwept` shows that
  it is never met by an infinite lifespan. The addition is taken to wrap around in two's complement.
- A buffer stamped with the largest time is counted but never found: `Refinement.CountIsQueueLength`, and
  `Refinement.LargestTimeIsNeverFound` for an input.
- The topic field of a reused slot is not cleared. A creation that is rejected before it reaches the topic puts the old
  topic back once more: `Lifecycle.Runtime.Create` gives the condition, `Lifecycle.Runtime.RejectAfterDestroy` a call
  sequence that loops the free list.
- Reader identifiers repeat after 65536 creations: `ReaderIds.Readers.SharedIff`, and `ReaderIds.Readers.NameFullCycle`
  for a sequence of creations.
- Destroying a node returns the outcome for its last entity and the node itself; earlier time-outs are overwritten:
  `Lifecycle.Runtime.DestroyNode` gives the condition, `Lifecycle.Runtime.ForgetTimeout` a node.
- The number of sessions to run is kept in eight bits, so 256 of them count as none: `Wait.Wait`, and `Wait.SpinAll`.
- A guard condition that is listed twice stays only once: `Wait.StrikeGuards` and `Wait.ListedTwice`, and
  `Wait.StrikeListedTwice` for an input.

The documentation of the configuration parameters counts nodes towards the default number of topics; the code in
`config.h.in` adds publishers and subscriptions only, and the model follows the code.

## Model

| member | source | states |
|---|---|---|
| Mempool.Pool.Init | rmw_microxrcedds_c/src/types.c:77-97 | Setting up a pool over zeroed items threads exactly these items, in reverse order, onto the free list, points each back at its element and allows growth; a second call, or an empty array, changes nothing |
| Mempool.Pool.HasMemory | rmw_microxrcedds_c/src/memory.c:24-32 | Answers whether the free list is non-empty |
| Mempool.Bridge | rmw_microxrcedds_c/src/memory.c:82-87 | Bridging the neighbours of an item leaves a chain of the rest, in order |
| Mempool.Pool.PopFree | rmw_microxrcedds_c/src/memory.c:43-47 | The head leaves the free list, and both lists stay null-terminated chains with inverse links |
| Mempool.Pool.GetMemory | rmw_microxrcedds_c/src/memory.c:34-73 | Hands out the head of the free list and puts it at the front of the allocated list; on an empty free list it returns null, or, where growth is allowed, a fresh dynamic item that becomes the allocated head and the only new member; the nested call terminates because it finds the list non-empty |
| Mempool.Pool.Grow | rmw_microxrcedds_c/src/memory.c:58-66 | The dynamic branch on an empty free list: a fresh dynamic item with a fresh element ends up at the allocated head, is the only new member, and leaves the free list empty |
| Mempool.Pool.Unlink | rmw_microxrcedds_c/src/memory.c:81-91 | Bridging the neighbours removes an item from whichever list holds it and keeps the order of the rest; it does not re-anchor the free list, which is sound exactly for items other than the free head |
| Mempool.Pool.PutMemory | rmw_microxrcedds_c/src/memory.c:75-110 | From any position the item moves to the front of the free list, the rest keeps its order, and the heap invariant holds again, except that the free head put a second time becomes a self-loop; a dynamic item leaves the pool instead |
| Mempool.SelfLoopIsNoChain | rmw_microxrcedds_c/src/memory.c:102-107 | A head that points to itself starts no null-terminated list, so the double return of a free head breaks the pool |
| Mempool.ChainUnique | rmw_microxrcedds_c/src/memory.c:34-110 | The links determine the list: a head starts at most one null-terminated list without repetition of positions |
| Mempool.Pool.Conserved | rmw_microxrcedds_c/src/memory.c:34-110 | Every item is on exactly one of the two lists, once: their lengths add up to the number of items |
| Mempool.Pool.WalkAllocated | rmw_microxrcedds_c/src/memory.c:49-55 | Following `next` from the allocated head visits the allocated items one by one |
| PoolRuns.Exercise | rmw_microxrcedds_c/src/memory.c:34-110 | After any sequence of takes and returns the lists are sound; static items are never lost; whatever was added is dynamic; dynamic items never rest on the free list; without the dynamic build the items and the sum of both lengths are unchanged |
| PoolRuns.PutThenGet | rmw_microxrcedds_c/src/memory.c:75-110 | A take after a return hands out that same item, at the front of the otherwise unchanged lists |
| History.OldestIsHead | rmw_microxrcedds_c/src/types.c:272-296 | The scan for the least timestamp finds the head of the owner's queue, and removing that buffer leaves the rest of the queue; it finds nothing exactly if the queue is empty |
| History.LastIffComesLast | rmw_microxrcedds_c/src/types.c:286 | A buffer is the last its owner takes exactly if everything else the owner sees is older, or as old and in front of it in the list, or the very same message |
| Refinement.CountIsQueueLength | rmw_microxrcedds_c/src/types.c:219-237 | The number of buffers of an owner is the length of its queue exactly if none of them is stamped with the largest 64-bit time, which the scan never selects |
| Refinement.ArriveRefinesOffer | rmw_microxrcedds_c/src/types.c:239-270 | An arrival younger than all stored ones acts on the owner's queue as a bounded queue would: appended when depth is 0 or not reached and a buffer is unused, replacing the head for KEEP_LAST at depth, dropped for KEEP_ALL at depth or without an unused buffer, and losing the head when the copy into it fails |
| Refinement.ArriveKeepsOthers | rmw_microxrcedds_c/src/callbacks.c:72-107 | An arrival leaves the queue of every other owner as it was, whatever the timestamps |
| Refinement.TakeRefinesDequeue | rmw_microxrcedds_c/src/rmw_take.c:58-78 | A take removes the head of the taker's queue and nothing from any other queue |
| Refinement.ArrivalJoinsEndIff | rmw_microxrcedds_c/src/types.c:286 | Exactly when an arrival joins the end of the queue, for every stored content and timestamp: into an unused buffer only if strictly younger than everything stored, over the oldest also in a tie with buffers in front of it; a copy of the same message never matters, the largest time never joins |
| Refinement.ArriveRefinesOfferIff | rmw_microxrcedds_c/src/types.c:239-270 | With nothing stored at the largest time, an arrival acts on the owner's queue as a bounded queue would if and only if it joins the end, or its bytes could not be copied |
| Refinement.TieReversesArrivals | rmw_microxrcedds_c/src/types.c:286 | Two messages stamped alike are taken in reverse order of arrival |
| Refinement.LargestTimeIsNeverFound | rmw_microxrcedds_c/src/types.c:276-289 | A message stamped with the largest 64-bit time occupies a buffer and counts towards the depth, but the scan never finds it and no take removes it |
| Refinement.KeptIff | rmw_microxrcedds_c/src/types.c:325-334 | A buffer survives the sweep exactly if timestamp <= now <= timestamp + lifespan and that sum fits 64 bits; a live buffer whose sum overflows is removed |
| Refinement.InfiniteLifespanIsSwept | rmw_microxrcedds_c/src/types.c:331-334 | With an infinite lifespan, which is the largest 64-bit number, every message stamped after time 0 is removed by the next sweep, whenever that is |
| Refinement.SweepRefinesFilter | rmw_microxrcedds_c/src/types.c:298-339 | Sweeping the shared list sweeps every owner's queue, preserving the order of survivors |
| Refinement.SweepLeavesWindow | rmw_microxrcedds_c/src/types.c:325-334 | For one lifespan the sweep leaves a contiguous stretch of a queue: exactly the outlived front goes, and behind the stretch only messages from the future or with an overflowing end |
| Refinement.SweepDropsFront | rmw_microxrcedds_c/src/types.c:325-334 | From a queue whose stamps are not in the future and whose ends of life fit, the sweep removes only an expired prefix |
| Runs.RunRefinesFifo | rmw_microxrcedds_c/src/types.c:239-296 | Over every run of arrivals, sweeps and takes of any owners, the queue of an owner equals a single bounded FIFO fed with its own arrivals, in every state, if and only if each of its copied arrivals joins the end of what it finds stored |
| Runs.WellTimedJoins | rmw_microxrcedds_c/src/types.c:286 | Arrivals stamped in strictly increasing order below the largest time always join the end |
| Runs.DepthBound | rmw_microxrcedds_c/src/types.c:245-256 | In every reachable state no more buffers are in use than the pool has, and no owner with depth above 0 has more than its depth, also after failed copies |
| Runs.StoredArrived | rmw_microxrcedds_c/src/callbacks.c:72-103 | Every stored message is one that arrived for its owner |
| Runs.TakenInArrivalOrder | rmw_microxrcedds_c/src/rmw_take.c:53-91 | Over every run whose arrivals join the end, what an owner has taken, followed by what it still has, is an in-order subsequence, without repetition, of what arrived for it; with increasing stamps the messages taken are increasing too |
| Runs.UndisturbedRetains | rmw_microxrcedds_c/src/types.c:247-266 | After n arrivals that join the end, without take, expiry, failed copy or a missing buffer where the policy grants one, KEEP_LAST holds exactly the last min(n, depth) and KEEP_ALL the first min(n, depth); at depth neither needs an unused buffer, so the pool may be full |
| Runs.SweepsDropFronts | rmw_microxrcedds_c/src/types.c:325-334 | In every run whose arrivals and sweeps happen at times that never decrease, a sweep removes exactly the expired prefix of the queue of an owner with one lifespan whose ends of life fit |
| Cache.BufferPool | rmw_microxrcedds_c/src/rmw_init.c:208-211 | The pool of input buffers starts with every buffer free and zeroed, and never grows |
| Cache.NewCache | rmw_microxrcedds_c/src/rmw_init.c:208-211 | A cache over a new pool of buffers is empty and sound, with as many buffers as asked for; its pool, items and buffers are new, so every operation can follow |
| Cache.HistoryCache.CountForEntity | rmw_microxrcedds_c/src/types.c:219-237 | The walk over the linked list counts the buffers of the owner |
| Cache.HistoryCache.FindByOwner | rmw_microxrcedds_c/src/types.c:272-296 | The walk over the linked list returns the first buffer of the owner with the least timestamp, or null |
| Cache.HistoryCache.GetForEntity | rmw_microxrcedds_c/src/types.c:239-270 | Selects an unused buffer, the oldest of the owner, or none, as history, depth and the pool demand; an unused one is at the front of the list |
| Cache.HistoryCache.StoreInput | rmw_microxrcedds_c/src/callbacks.c:72-107 | One arrival step on the linked lists turns the stored messages into what the arrival step of the pure model says, with the copy failing after a buffer was acquired included, and keeps the number of buffers |
| Cache.HistoryCache.CleanExpired | rmw_microxrcedds_c/src/types.c:298-339 | The sweep, which releases items from the list it walks, leaves exactly the buffers whose timestamp is not in the future and whose end of life, with the lifespan of the entity that owns them, half a minute if that is 0 and a nanosecond for an unknown kind, has not passed and fits 64 bits; in their order, as the sweep of the pure model |
| Cache.HistoryCache.Drain | rmw_microxrcedds_c/src/rmw_init.c:342-348 | The walk that returns every buffer at shutdown leaves nothing stored and loses no buffer |
| CacheRuns.StoreFor | rmw_microxrcedds_c/src/callbacks.c:72-103 | A message for an entity is stored under the entity's own profile, as one arrival step |
| CacheRuns.Drive | rmw_microxrcedds_c/src/types.c:239-339 | After any sequence of stores, sweeps and takes of any entities, the linked lists hold exactly what the run of that sequence says, so that every theorem about runs is one about the code |
| CacheRuns.DriveFromStart | rmw_microxrcedds_c/src/rmw_init.c:208-211 | From a new cache, any sequence of operations leaves each entity whose arrivals join the end with the queue that a bounded FIFO of its own would hold |
| Callbacks.OnTopic | rmw_microxrcedds_c/src/callbacks.c:32-110 | A sample of the graph reader only updates the graph information, whose bytes are the sample's if they could be read; any other one is stored, as one arrival, for the first allocated subscription whose reader has that identifier, and lost if there is none |
| Callbacks.OnRequest | rmw_microxrcedds_c/src/callbacks.c:112-171 | A request is stored with its sender's identity for the first allocated service with that stream request, or lost |
| Callbacks.OnReply | rmw_microxrcedds_c/src/callbacks.c:173-231 | A reply is stored with its number for the first allocated client with that stream request, or lost |
| Taking.TakeOldest | rmw_microxrcedds_c/src/rmw_take.c:53-91 | Sweep, look for the oldest buffer, decode and release: result, `taken` flag, message and remaining messages are those of the pure take; an undecodable message is released all the same |
| Taking.TakeHandsOverHead | rmw_microxrcedds_c/src/rmw_take.c:53-91 | A take succeeds exactly if what the sweep leaves of the owner's queue is non-empty and its head decodes, and gives ERROR otherwise; it hands over that head and leaves the rest |
| Taking.TakeSweepsOthers | rmw_microxrcedds_c/src/rmw_take.c:53 | A take only sweeps the queues of other entities |
| Taking.TakeSequence | rmw_microxrcedds_c/src/rmw_take.c:94-134 | The loop fills the message array from the front as repeated takes do and leaves its other places alone; `taken` and the sizes of both sequences are the number of messages taken |
| Taking.TakeBatchSize | rmw_microxrcedds_c/src/rmw_take.c:107-133 | The batch is OK exactly if it has taken as many messages as asked for, and an error otherwise |
| Taking.BatchTakesHeads | rmw_microxrcedds_c/src/rmw_take.c:107-133 | Whatever the clock says at each take: the i-th message of a batch is the head of what the i-th sweep leaves of the queue, and a batch ends early exactly where that head does not decode or does not exist |
| Taking.BatchTakesPrefix | rmw_microxrcedds_c/src/rmw_take.c:107-133 | With a fixed clock and successful decoding, the batch takes the first min(count, unexpired length) messages of the queue in order and leaves exactly the rest |
| RequestId.UnpackPack | rmw_microxrcedds_c/src/rmw_request.c:98-111 | Packing a sample identity into a request identifier and unpacking it again is the identity, and the sequence number is high * 2^32 + low (DDSI-RTPS 2.2, section 9.3.2) |
| RequestId.PackUnpack | rmw_microxrcedds_c/src/rmw_response.c:35-45 | Unpacking any 64-bit number and sixteen bytes and packing them again is the identity |
| RequestId.JoinIsSum | rmw_microxrcedds_c/src/rmw_request.c:99-101 | On 64-bit words, the bitwise or of the shifted high part and the low part is their sum |
| RequestId.TakeRequest | rmw_microxrcedds_c/src/rmw_request.c:66-140 | Takes as a subscription does; the header's number is high * 2^32 + low and its sixteen bytes are kind, key and prefix of the identity stored with the message, so that it unpacks to that identity |
| RequestId.TakeResponse | rmw_microxrcedds_c/src/rmw_response.c:80-140 | Takes as a subscription does, and the header receives the number stored with the reply |
| Lifecycle.Start | rmw_microxrcedds_c/src/rmw_init.c:243-267 | Initialization over zeroed static arrays establishes the lifecycle invariant with every slot free and the arrays of the given sizes, and the reader counter at zero; pools, items, slots and readers are all new, so every call can follow |
| Lifecycle.NewArray | rmw_microxrcedds_c/src/types.c:77-97 | A pool over a zeroed array: each item points back at the element it is embedded in, each element knows its place, and the free list holds the array from its last place to its first |
| Lifecycle.Runtime.Grab | rmw_microxrcedds_c/src/memory.c:34-55 | Taking a slot from one of the six pools keeps all of them sound and touches no other |
| Lifecycle.Runtime.Put | rmw_microxrcedds_c/src/memory.c:75-110 | Returning a slot to one of the six pools breaks that pool exactly if the slot was its free head |
| Lifecycle.Runtime.FiniTopicMemory | rmw_microxrcedds_c/src/types.c:212-217 | A topic goes to the front of the free list from wherever it is and loses its owner; the pool stays sound exactly if it was not the free head |
| Lifecycle.Runtime.CreateTopic | rmw_microxrcedds_c/src/rmw_microxrcedds_topic.c:25-108 | A topic is created exactly if one is free, its names fit and the agent confirms it; then it belongs to the node and was taken from the front of the free list; a failure after the slot was taken restores both lists exactly |
| Lifecycle.Runtime.DestroyTopic | rmw_microxrcedds_c/src/rmw_microxrcedds_topic.c:110-134 | A topic without owner is refused with ERROR; otherwise it is put back whether or not the agent confirms, with OK if it does and TIMEOUT if not |
| Lifecycle.Runtime.Open | rmw_microxrcedds_c/src/rmw_publisher.c:84-94 | The first step of a creation takes the next slot and makes its handle live, leaving its other fields as the last user left them |
| Lifecycle.Runtime.RequestBoth | rmw_microxrcedds_c/src/rmw_subscription.c:159-202 | The requests succeed exactly if the agent confirms both; the reader of a new subscription is named with the next number of the session exactly if the first one is confirmed; no other reader, and none for a publisher, is named |
| Lifecycle.Runtime.Equip | rmw_microxrcedds_c/src/rmw_publisher.c:140-214 | The topic of the new entity is taken and tied to it before the requests to the agent, or its lists are as before; it succeeds exactly if a topic is free, the names fit and all three requests are confirmed |
| Lifecycle.Runtime.Link | rmw_microxrcedds_c/src/rmw_subscription.c:95-202 | The middle of a creation: what has happened to owner, topic, topic lists and reader identifiers at each point where it can stop, and exactly when it reaches the end |
| Lifecycle.Runtime.Fail | rmw_microxrcedds_c/src/rmw_publisher.c:218-225 | The failure exit puts back whatever topic the slot points at, from either list, and then the slot |
| Lifecycle.Runtime.Undo | rmw_microxrcedds_c/src/rmw_subscription.c:222-229 | The failure exit undoes a creation exactly when the topic was taken for it; otherwise what becomes of the topic lists depends on where the old topic is |
| Lifecycle.Runtime.Create | rmw_microxrcedds_c/src/rmw_publisher.c:60-226 | Creation of a publisher, subscription, service or client gives a handle if and only if the node is live, a slot is free, name, type and derived names are accepted and the agent confirms the object, and for a publisher or subscription a topic is free and the agent confirms the topic and both objects. Success keeps the invariant; a failure at or after the topic, or for want of a slot, leaves every free and allocated list as it was; a rejected name or type keeps the invariant if and only if the slot has no old topic or that topic is free and not the next to be handed out; the slot's own reader is named exactly if a subscription got as far as that |
| Lifecycle.Runtime.RejectAfterDestroy | rmw_microxrcedds_c/src/rmw_publisher.c:96-98 | Concrete failure: after an entity is destroyed and a creation rejected for its name or type, the head of the list of free topics points to itself |
| Lifecycle.Runtime.FiniMemory | rmw_microxrcedds_c/src/types.c:140-156 | The handle of an entity is cleared and its slot goes to the front of the free list, whether or not the pool of topics is sound |
| Lifecycle.Runtime.Release | rmw_microxrcedds_c/src/rmw_subscription.c:314-348 | Destruction returns the topic and the slot of an entity, and their pools differ in nothing else; OK exactly if the deletion of every object of the entity is confirmed, whatever becomes of the cancellation and of the topic |
| Lifecycle.Runtime.Destroy | rmw_microxrcedds_c/src/rmw_publisher.c:320-373 | A stale handle, of the entity or of the node it is destroyed through, gives ERROR and changes nothing; live ones give OK if both deletions are confirmed (the single one of a service or client) and TIMEOUT if not, and slot and topic go to the front of their free lists while all lists keep the order of the rest |
| Lifecycle.Runtime.EntityMoves | rmw_microxrcedds_c/src/rmw_publisher.c:84-148 | When one entity comes into use with its topic, or goes out of use with it, ownership stays one to one for all others |
| Lifecycle.Runtime.TopicBijection | rmw_microxrcedds_c/src/rmw_microxrcedds_topic.c:41-44 | Between calls, `topic` maps the live publishers and subscriptions one to one onto the topics in use |
| Lifecycle.Runtime.TopicAvailable | rmw_microxrcedds_c/src/config.h.in:64-65 | With at least as many topics as publishers and subscriptions, a creation that found a slot also finds a free topic |
| Lifecycle.Runtime.DestroyOwned | rmw_microxrcedds_c/src/rmw_node.c:166-178 | A walk that destroys the node's entities on the list it follows visits all of them: what is left is the old list without them, in its old order; the result is that of the last one destroyed |
| Lifecycle.Runtime.WalkingEnds | rmw_microxrcedds_c/src/rmw_node.c:164-217 | The four walks, one after the other, end with OK exactly if the deletion of the last entity they destroy is confirmed, or there is none |
| Lifecycle.Runtime.TopicsGone | rmw_microxrcedds_c/src/rmw_node.c:164-217 | The topics in use after the walks are exactly those whose holder belongs to another node |
| Lifecycle.Runtime.NoneOwned | rmw_microxrcedds_c/src/rmw_node.c:164-217 | After the four walks no live entity belongs to the node |
| Lifecycle.Runtime.DestroyNode | rmw_microxrcedds_c/src/rmw_node.c:145-234 | A stale node gives ERROR and changes nothing at all. A live one gives OK if and only if the agent confirms the deletion of the node and of the last entity destroyed with it, and TIMEOUT otherwise; its entities and exactly their topics go out of use and then the node itself, and the entities of other nodes stay live and in order |
| Lifecycle.Runtime.ForgetTimeout | rmw_microxrcedds_c/src/rmw_node.c:164-231 | A node with a publisher whose deletion is not confirmed and a client is destroyed with OK if the deletions of the clients and of the node are confirmed |
| Lifecycle.Runtime.CreateNode | rmw_microxrcedds_c/src/rmw_node.c:28-124 | A node is created if and only if a slot is free, name and namespace fit and the agent confirms it; then it is live and was taken from the front of the free list; each failure restores both lists |
| Lifecycle.Runtime.TopicCount | rmw_microxrcedds_c/src/rmw_microxrcedds_topic.c:136-161 | The walks over publishers and subscriptions count exactly the topics in use that belong to the node |
| Lifecycle.Runtime.NothingWithoutNodes | rmw_microxrcedds_c/src/rmw_init.c:359-367 | Without a live node no entity and no topic is in use |
| Lifecycle.Runtime.HoldEntities | rmw_microxrcedds_c/src/callbacks.c:62-70 | The pools of the lifecycle hold, in their places of the static arrays, the entities among which the callbacks look for a receiver |
| Lifecycle.Runtime.OneLiveReceiver | rmw_microxrcedds_c/src/callbacks.c:49-70 | While at most 65536 readers have been created by the creations modelled, a datareader identifier belongs to at most one live subscription, and to none if it is the graph reader's |
| Lifecycle.Runtime.ContextFini | rmw_microxrcedds_c/src/rmw_init.c:353-367 | Destroying the nodes of the session's context, newest first, leaves no slot of any pool in use; the result is OK exactly if there was no node, or the deletion of the last one and of that node's last entity is confirmed; another context's nodes are none |
| LifecycleRuns.Exercise | rmw_microxrcedds_c/src/rmw_publisher.c:60-226 | After any sequence of creations and destructions of entities and nodes and ends of the session, whatever the agent answers, the invariants of the lifecycle and of the reader identifiers hold, up to the first creation that must not be rejected and is; after an end of the session nothing is in use, whatever came before |
| LifecycleRuns.PerformSpoiling | rmw_microxrcedds_c/src/rmw_publisher.c:96-148 | A creation that must not be rejected and is does break the invariant, so the sequence could not have gone further |
| LifecycleRuns.ReceiverIs | rmw_microxrcedds_c/src/callbacks.c:62-70 | The first allocated subscription with a reader is the live one with it, and there is none exactly if no live subscription has it |
| LifecycleRuns.Receive | rmw_microxrcedds_c/src/callbacks.c:49-107 | While at most 65536 readers have been created, a sample is stored, as one arrival under the profile of its receiver, for the live subscription with its reader; for the graph reader, or when no live subscription has the reader, the cache stays as it was |
| LifecycleRuns.FirstSample | rmw_microxrcedds_c/src/callbacks.c:49-107 | From the start of a session through a node and a subscription to the first sample: the subscription exists exactly if the agent confirms node, topic, subscriber and reader and there is room for them, and the sample is then the one message stored, for its place and with its own lifespan or half a minute, if its bytes can be read, a buffer exists and the history policy is a known one |
| Entities.Session.NameDatareader | rmw_microxrcedds_c/src/rmw_subscription.c:167-169 | A reader is named with the 16-bit counter, which then wraps around |
| ReaderIds.Readers.CreateReader | rmw_microxrcedds_c/src/rmw_subscription.c:167-169 | Naming a reader in any slot, used before or not, keeps every identifier tied to the time it was given |
| ReaderIds.Readers.CreateGraphReader | rmw_microxrcedds_c/src/rmw_graph.c:84 | So does naming the graph reader, from the same counter |
| ReaderIds.Readers.IdleKeepsIds | rmw_microxrcedds_c/src/rmw_subscription.c:167-169 | A step that names no reader leaves the counter and every identifier as they were |
| ReaderIds.Readers.NamedTakesNext | rmw_microxrcedds_c/src/rmw_subscription.c:167-169 | The naming of a slot's reader gives it the old value of the counter, advances the counter by one modulo 65536, and leaves every other identifier as it was |
| ReaderIds.Readers.SharedIff | rmw_microxrcedds_c/src/rmw_subscription.c:167-169 | Two named slots share an identifier if and only if a multiple of 65536 readers was created between them |
| ReaderIds.Readers.SharedWithGraphIff | rmw_microxrcedds_c/src/rmw_graph.c:84 | The same for a slot and the graph reader |
| ReaderIds.Readers.NameFullCycle | rmw_microxrcedds_c/src/rmw_subscription.c:167-169 | Naming one reader once and another 65536 times leaves both with the same identifier |
| ReaderIds.Readers.Unique | rmw_microxrcedds_c/src/callbacks.c:49-70 | While at most 65536 readers have been created, a datareader identifier belongs to at most one slot or to the graph reader, also while a slot still holds an old one |
| ReaderIds.Readers.OneReceiver | rmw_microxrcedds_c/src/callbacks.c:62-70 | Then at most one allocated subscription matches a sample, and none if the sample is for the graph |
| Wait.NewSessionPool | rmw_microxrcedds_c/src/rmw_init.c:207 | The pool of sessions starts with all of them free, each item leading to its session |
| Wait.ClearFlags | rmw_microxrcedds_c/src/rmw_wait.c:63-69 | Clears the flag of every allocated session |
| Wait.Mark | rmw_microxrcedds_c/src/rmw_wait.c:73-87 | Flags exactly the sessions of the listed entities, besides those flagged before |
| Wait.CountMarked | rmw_microxrcedds_c/src/rmw_wait.c:89-96 | Counts the flagged allocated sessions in eight bits |
| Wait.MarkSessions | rmw_microxrcedds_c/src/rmw_wait.c:63-96 | The flagged allocated sessions are exactly those some entry belongs to, whatever flags were left by earlier calls |
| Wait.RunSessions | rmw_microxrcedds_c/src/rmw_wait.c:104-119 | Runs each flagged session until data once, in list order, or every allocated session once without blocking; the messages that each of them receives are stored in that order, each under the profile of the entity it is for |
| Wait.Deliver | rmw_microxrcedds_c/src/callbacks.c:72-103 | The messages received while a session runs are stored one after the other, as so many arrival steps |
| Wait.HasMessage | rmw_microxrcedds_c/src/rmw_wait.c:130 | Finding a buffer by owner succeeds exactly if the owner's queue is non-empty |
| Wait.Strike | rmw_microxrcedds_c/src/rmw_wait.c:126-158 | A subscription, service or client stays exactly if a message with a timestamp below the largest is stored for its place among its kind, and the status is raised exactly if one stays |
| Wait.StrikeGuards | rmw_microxrcedds_c/src/rmw_wait.c:160-170 | A guard condition stays exactly where it is first listed and its flag is up when it is looked at; all listed ones are reset |
| Wait.ListedTwice | rmw_microxrcedds_c/src/rmw_wait.c:160-170 | Of a raised guard condition that is listed more than once, only the first listing stays |
| Wait.StrikeListedTwice | rmw_microxrcedds_c/src/rmw_wait.c:160-170 | One raised guard condition in both places of a set: the first place keeps it and the second loses it |
| Wait.Wait | rmw_microxrcedds_c/src/rmw_wait.c:24-173 | The whole wait: OK at once without any set; otherwise a sweep, the exact session runs (spinning when the number of sessions waited for is 0 modulo 256) with the messages received meanwhile stored under the profiles of their entities, then every entity is struck out for which no message is stored that can be found, and every guard condition that was raised neither before nor meanwhile, and OK exactly if an entry is left, else TIMEOUT |
| Wait.SpinAll | rmw_microxrcedds_c/src/rmw_wait.c:89-120 | With 256 sessions, each waited for, none is run until data and all are run once without blocking |
| Wait.TakeableIff | rmw_microxrcedds_c/src/rmw_take.c:53-63 | A take at a later time that decodes succeeds exactly if the sweep at that time keeps one of the messages in the entity's queue, which is non-empty exactly if the entity owns a message that can be found |
| Cdr.U32Inverts | rmw_microxrcedds_c/src/rmw_graph.c:171 | A four-byte number written at its alignment is read back (CORBA 3.0, section 15.3.1.1) |
| Cdr.StringInverts | rmw_microxrcedds_c/src/rmw_graph.c:181-182 | A NUL-free string of at most 255 bytes, written with its length and terminator, is read back (CORBA 3.0, section 15.3.2.7) |
| Cdr.LongStringRefused | rmw_microxrcedds_c/src/rmw_graph.c:177-182 | A string of 256 bytes or more does not fit the array it is read into and is refused |
| Cdr.ListInverts | rmw_microxrcedds_c/src/rmw_graph.c:213-222 | A counted list is read back if its elements are, behind any prefix and before any rest |
| Graph.EntityInverts | rmw_microxrcedds_c/src/rmw_graph.c:197-223 | An encoded entity with its types is read back |
| Graph.NodeInverts | rmw_microxrcedds_c/src/rmw_graph.c:175-224 | An encoded node with its entities is read back |
| Graph.GraphInverts | rmw_microxrcedds_c/src/rmw_graph.c:161-226 | Decoding gives back every graph that was encoded, with names, namespaces and types free of NUL and at most 255 bytes long |
| Graph.GraphInIff | rmw_microxrcedds_c/src/rmw_graph.c:177-222 | The laws cover exactly the graphs with strings of at most 255 bytes without NUL, and counts of 32 bits |
| Graph.CutGraphFails | rmw_microxrcedds_c/src/rmw_graph.c:152-159 | No proper prefix of an encoded graph decodes |
| Graph.TrailingBytesIgnored | rmw_microxrcedds_c/src/rmw_graph.c:168 | Bytes behind a graph do not change what is decoded |
| GraphDecoder.FillTypes | rmw_microxrcedds_c/src/rmw_graph.c:216-222 | The innermost loop reads all types or ends in ERROR, exactly as the counted list does |
| GraphDecoder.FillEntity | rmw_microxrcedds_c/src/rmw_graph.c:198-222 | An entity is OK exactly if all its parts can be read; later reads after a failure do not undo the ERROR |
| GraphDecoder.FillNode | rmw_microxrcedds_c/src/rmw_graph.c:176-223 | A node is OK exactly if all its parts can be read |
| GraphDecoder.FillData | rmw_microxrcedds_c/src/rmw_graph.c:161-226 | The triple loop gives OK exactly if the whole message can be read, and then the graph it encodes; any failed read gives ERROR |
| GraphDecoder.RoundTrip | rmw_microxrcedds_c/src/rmw_graph.c:161-226 | The triple loop gives OK and the same graph for every encoded graph with names, namespaces and types free of NUL and at most 255 bytes long |
| Queries.AllFoundIff | rmw_microxrcedds_c/src/rmw_count.c:65-77 | The places found are exactly those of the entities with that kind and name, each once, in node and entity order |
| Queries.CountEntities | rmw_microxrcedds_c/src/rmw_count.c:31-82 | The count is the number of matching entities; 0 before the graph is initialized, ERROR for an unreadable message |
| Queries.GetEndpointInfo | rmw_microxrcedds_c/src/rmw_get_topic_endpoint_info.c:61-184 | The growing array has one entry for each matching entity: the i-th gives node name, namespace and first type of the i-th match; none before the graph is initialized, ERROR for an unreadable message; entities that do not match need not state a type |
| Queries.CountAndList | rmw_microxrcedds_c/src/rmw_get_topic_endpoint_info.c:101-179 | Both queries agree on every message: as many entries as counted, the i-th with node name, namespace and first type of the i-th entity of that kind and name |

## Left out

- Transports, ping, discovery, time synchronization and all `uxr_` calls: external; what `run_xrce_session` returns for each request, which messages arrive while a session runs, which guard conditions are raised meanwhile and what the clock says are arbitrary inputs.
- Mutexes and concurrency: each locked section is one atomic step. That `put_memory` returns without unlocking for a dynamic item is not modelled.
- Dynamic growth beyond the pool itself: entities are proved over static pools; under growth the embedded item of an element is not the item on the list.
- Failure of the allocator in `get_memory` and in the endpoint query, and of the sequence initializers of the graph message: taken to succeed.
- Wait.Wait: the division of the timeout among sessions is not modelled, because it is floating point and only bounds how long an external call blocks; the event list is unused by the code.
- Wait.Wait: the sessions of the entries are handed over as ghost arguments, so that the contract can name them after the entries have been struck out.
- Buffers of a destroyed entity: destruction does not release them, so a new entity in the same slot inherits them. The history properties are stated for a fixed set of entities with fixed QoS profiles.
- Lifecycle.Runtime.Create: QoS profile, names and stream of the new entity are not stored; of the identifiers only the datareader's is.
- Lifecycle.Runtime.Create: argument null checks are left out; names and type support that do not fit or do not exist are arbitrary inputs.
- Lifecycle.Runtime: all nodes share one session, as the dispatch of samples assumes; identifier checks on handles are the `live` flags.
- Callbacks.OnTopic: a message longer than a buffer is excluded. The callback does not check the length; a buffer is as large as the input stream that delivers the message (config.h.in:50, types.h:89 and 231), so the client library never passes on more.
- Callbacks.OnRequest: a request longer than a buffer is excluded, for the same reason.
- Callbacks.OnReply: a reply longer than a buffer is excluded, for the same reason.
- RequestId.TakeRequest: messages owned by a service carry a sample identity of twelve and three bytes, as the callback stores it; the shift of a negative high part is taken in two's complement.
- Queries.GetEndpointInfo: every matching entity states at least one type, because the code reads the first one without looking; the endpoint type constants are defined by micro_ros_msgs, which is not part of this model.
- Queries.CountAndList: matching entities state at least one type, as for the endpoint query it calls.
- GraphDecoder.Buffer: the reads of the Micro-CDR library are modelled by what they return on a little-endian machine; a number that cannot be read counts as 0, and a 256-byte string without terminator is taken as 256 bytes.
- The failure of `rmw_graph_init` inside `rmw_init`, which leaves the session slot in use, and `rmw_init_options_fini`, which would only add an easy search.
- XML and reference creation mode, name generation, QoS conversion, node and topic name queries, unimplemented stubs, error tracing.
