/** Creation and destruction of nodes, publishers, subscriptions, services and clients over their static pools. */
module Lifecycle {
  import opened Mempool
  import opened Entities
  import opened Taking
  import opened Cache
  import opened Callbacks
  import opened ReaderIds

  /**
   * What `run_xrce_session` returns for the requests of one call: the cancellation of the data stream, the topic, and
   * the first and second of the objects that make up the entity, in the order in which they are requested. Services
   * and clients are made of one object.
   */
  datatype Answers = Answers(cancel: bool, topic: bool, first: bool, second: bool)

  /** A creation of kind `k` whose name and type were accepted goes through. */
  predicate Granted(k: EntityKind, topicFree: bool, namesFit: bool, agent: Answers) {
    namesFit && agent.first && (Topical(k) ==> topicFree && agent.topic && agent.second)
  }

  /** It gets as far as naming a datareader. */
  predicate Names(k: EntityKind, topicFree: bool, namesFit: bool, agent: Answers) {
    k == SUBSCRIPTIONS && topicFree && namesFit && agent.topic && agent.first
  }

  /** All objects that an entity of kind `k` is made of have been deleted. */
  predicate Deleted(k: EntityKind, agent: Answers) {
    agent.first && (Topical(k) ==> agent.second)
  }

  /** A pool of the static build. */
  ghost predicate StaticPool(pool: Pool)
    reads pool, pool.items
  {
    pool.Valid() && !pool.dynamicBuild
  }

  /** No pool. */
  const NONE := 6

  // ---------------------------------------------------------------- static arrays

  /** Threads freshly allocated, zeroed items onto the free list of a new pool. */
  method NewPool(items: seq<Item>, elements: seq<object>) returns (p: Pool)
    requires NoDup(items) && AllZeroed(items, 0) && |items| == |elements|
    modifies items`prev, items`next, items`data, items`isDynamic
    ensures fresh(p) && StaticPool(p) && p.items == Elems(items) && p.alloc == [] && IsReverse(p.free, items)
    ensures forall i {:trigger items[i]} :: 0 <= i < |items| ==> items[i].data == elements[i]
  {
    p := new Pool(false);
    p.Init(items, elements);
  }

  /** The item embedded in an element of one of the static arrays. */
  function MemOf(x: object?): Item? {
    if NodeOf(x) != null then NodeOf(x).mem
    else if TopicOf(x) != null then TopicOf(x).mem
    else if Base(x) != null then Base(x).mem
    else null
  }

  /** A zeroed element in place `i` of the array behind pool `k`. */
  ghost predicate Zeroed(k: nat, i: nat, x: object?)
    reads NodeOf(x), Base(x), SubscriptionOf(x)
  {
    if k == NODES then NodeOf(x) != null && !NodeOf(x).live
    else if k == TOPICS then TopicOf(x) != null
    else
      && Base(x) != null && Base(x).kind == k && Base(x).index == i && !Base(x).live && Base(x).topic == null
      && (k == SUBSCRIPTIONS ==> SubscriptionOf(x) != null && SubscriptionOf(x).datareaderId == ObjectId(0, NoObject))
      && (k == SERVICES ==> ServiceOf(x) != null)
      && (k == CLIENTS ==> ClientOf(x) != null)
  }

  method NewElement(k: nat, index: nat) returns (x: object)
    requires k < 6
    ensures Zeroed(k, index, x) && MemOf(x) != null && fresh(MemOf(x)) && MemOf(x).Detached() && !MemOf(x).isDynamic
    ensures fresh(x) && (Base(x) != null ==> fresh(Base(x)))
  {
    match k
    case 0 => x := new Node();
    case 1 => x := new Publisher(index);
    case 2 => x := new Subscription(index);
    case 3 => x := new Service(index);
    case 4 => x := new Client(index);
    case _ => x := new Topic();
  }

  /**
   * The pool and the array behind it: each item points back to the element it is embedded in, and the free list
   * holds the array from its last place to its first.
   */
  ghost predicate Threaded(k: nat, p: Pool, elements: seq<object>)
    reads p, p.items, elements, Bases(elements)
  {
    && StaticPool(p) && p.alloc == [] && |p.free| == |elements|
    && (forall x {:trigger x in p.items} :: x in p.items ==> x.data in elements && MemOf(x.data) == x)
    && (forall i {:trigger elements[i]} :: 0 <= i < |elements| ==>
          && Zeroed(k, i, elements[i]) && MemOf(elements[i]) != null && MemOf(elements[i]) in p.items
          && MemOf(elements[i]).data == elements[i] && p.free[|elements| - 1 - i] == MemOf(elements[i]))
  }

  /** The common parts of those elements that are entities. */
  ghost function Bases(elements: seq<object>): set<Entity> {
    set x | x in elements && Base(x) != null :: Base(x)
  }

  /** The zeroed elements of an array and the items embedded in them. */
  method NewElements(k: nat, n: nat) returns (items: seq<Item>, elements: seq<object>)
    requires k < 6
    ensures |items| == |elements| == n && NoDup(items) && AllZeroed(items, 0) && fresh(items)
    ensures forall i {:trigger elements[i]} :: 0 <= i < n ==>
              Zeroed(k, i, elements[i]) && MemOf(elements[i]) == items[i]
    ensures fresh(elements) && fresh(Bases(elements))
  {
    items, elements := [], [];
    for m := 0 to n
      invariant |items| == |elements| == m && NoDup(items) && AllZeroed(items, 0) && fresh(items)
      invariant forall i {:trigger elements[i]} :: 0 <= i < m ==>
                  Zeroed(k, i, elements[i]) && MemOf(elements[i]) == items[i]
      invariant forall i {:trigger elements[i]} :: 0 <= i < m ==>
                  fresh(elements[i]) && (Base(elements[i]) != null ==> fresh(Base(elements[i])))
    {
      var x := NewElement(k, m);
      items, elements := items + [MemOf(x)], elements + [x];
    }
  }

  method NewArray(k: nat, n: nat) returns (p: Pool, elements: seq<object>)
    requires k < 6
    ensures fresh(p) && fresh(p.items) && fresh(elements) && fresh(Bases(elements))
    ensures Threaded(k, p, elements) && |elements| == n
  {
    hide StaticPool, MemOf, NoDup, AllZeroed;
    var items;
    items, elements := NewElements(k, n);
    p := NewPool(items, elements);
    ThreadedThen(k, p, items, elements);
  }

  lemma ThreadedThen(k: nat, p: Pool, items: seq<Item>, elements: seq<object>)
    requires StaticPool(p) && p.items == Elems(items) && p.alloc == [] && IsReverse(p.free, items)
    requires |items| == |elements|
    requires forall i {:trigger items[i]} :: 0 <= i < |items| ==> items[i].data == elements[i]
    requires forall i {:trigger elements[i]} :: 0 <= i < |items| ==>
               Zeroed(k, i, elements[i]) && MemOf(elements[i]) == items[i]
    ensures Threaded(k, p, elements)
  {
    hide StaticPool, Zeroed, MemOf;
    forall x {:trigger x in p.items} | x in p.items
      ensures x.data in elements && MemOf(x.data) == x
    {
      var i :| 0 <= i < |items| && items[i] == x;
      assert elements[i] == x.data;
    }
    forall i {:trigger elements[i]} | 0 <= i < |elements|
      ensures MemOf(elements[i]) in p.items && MemOf(elements[i]).data == elements[i]
      ensures p.free[|elements| - 1 - i] == MemOf(elements[i])
    {
      assert items[i] in Elems(items);
    }
  }

  /** The elements of an array of entities are of the kind the array is for, and no two are the same. */
  lemma ArrayOf(k: EntityKind, p: Pool, elements: seq<object>)
    requires Threaded(k, p, elements)
    ensures k == SUBSCRIPTIONS ==> forall i {:trigger elements[i]} :: 0 <= i < |elements| ==>
              SubscriptionOf(elements[i]) != null && SubscriptionOf(elements[i]).datareaderId == ObjectId(0, NoObject)
    ensures k == SERVICES ==> forall i {:trigger elements[i]} :: 0 <= i < |elements| ==> ServiceOf(elements[i]) != null
    ensures k == CLIENTS ==> forall i {:trigger elements[i]} :: 0 <= i < |elements| ==> ClientOf(elements[i]) != null
    ensures forall i, j :: 0 <= i < j < |elements| ==> elements[i] != elements[j]
  {
    hide StaticPool, MemOf;
    forall i, j | 0 <= i < j < |elements|
      ensures elements[i] != elements[j]
    {
      assert Base(elements[i]).index == i && Base(elements[j]).index == j;
    }
  }

  /** The six arrays and their pools. */
  method NewArrays(sizes: seq<nat>) returns (ps: seq<Pool>, arrays: seq<seq<object>>)
    requires |sizes| == 6
    ensures |ps| == |arrays| == 6
    ensures forall k {:trigger ps[k]} {:trigger arrays[k]} :: 0 <= k < 6 ==> Threaded(k, ps[k], arrays[k])
    ensures forall k {:trigger arrays[k]} :: 0 <= k < 6 ==> |arrays[k]| == sizes[k]
    ensures forall j, k :: 0 <= j < k < 6 ==> ps[j] != ps[k] && ps[j].items !! ps[k].items
    ensures forall k {:trigger ps[k]} :: 0 <= k < 6 ==> fresh(ps[k]) && fresh(ps[k].items)
    ensures forall k {:trigger arrays[k]} :: 0 <= k < 6 ==> fresh(arrays[k]) && fresh(Bases(arrays[k]))
  {
    hide StaticPool, Threaded;
    ps, arrays := [], [];
    for n := 0 to 6
      invariant |ps| == |arrays| == n
      invariant forall k {:trigger ps[k]} {:trigger arrays[k]} :: 0 <= k < n ==> Threaded(k, ps[k], arrays[k])
      invariant forall k {:trigger arrays[k]} :: 0 <= k < n ==> |arrays[k]| == sizes[k]
      invariant forall j, k :: 0 <= j < k < n ==> ps[j] != ps[k] && ps[j].items !! ps[k].items
      invariant forall k {:trigger ps[k]} :: 0 <= k < n ==> fresh(ps[k]) && fresh(ps[k].items)
      invariant forall k {:trigger arrays[k]} :: 0 <= k < n ==> fresh(arrays[k]) && fresh(Bases(arrays[k]))
    {
      var p, elements := NewArray(n, sizes[n]);
      ps, arrays := ps + [p], arrays + [elements];
    }
  }

  ghost function NodesIn(xs: seq<object>): set<Node> {
    set x | x in xs && NodeOf(x) != null :: NodeOf(x)
  }

  ghost function TopicsIn(xs: seq<object>): set<Topic> {
    set x | x in xs && TopicOf(x) != null :: TopicOf(x)
  }

  ghost function EntitiesIn(arrays: seq<seq<object>>): set<Entity>
    requires |arrays| == 6
  {
    set k: EntityKind, x | x in arrays[k] && Base(x) != null :: Base(x)
  }

  function SubscriptionsIn(xs: seq<object>): (s: seq<Subscription>)
    requires forall i {:trigger xs[i]} :: 0 <= i < |xs| ==> SubscriptionOf(xs[i]) != null
    ensures |s| == |xs| && forall i :: 0 <= i < |s| ==> s[i] == xs[i]
  {
    seq(|xs|, i requires 0 <= i < |xs| && SubscriptionOf(xs[i]) != null => SubscriptionOf(xs[i]))
  }

  function ServicesIn(xs: seq<object>): (s: seq<Service>)
    requires forall i {:trigger xs[i]} :: 0 <= i < |xs| ==> ServiceOf(xs[i]) != null
    ensures |s| == |xs| && forall i :: 0 <= i < |s| ==> s[i] == xs[i]
  {
    seq(|xs|, i requires 0 <= i < |xs| && ServiceOf(xs[i]) != null => ServiceOf(xs[i]))
  }

  function ClientsIn(xs: seq<object>): (s: seq<Client>)
    requires forall i {:trigger xs[i]} :: 0 <= i < |xs| ==> ClientOf(xs[i]) != null
    ensures |s| == |xs| && forall i :: 0 <= i < |s| ==> s[i] == xs[i]
  {
    seq(|xs|, i requires 0 <= i < |xs| && ClientOf(xs[i]) != null => ClientOf(xs[i]))
  }

  /** The arrays with their pools, and the session with its readers. */
  method NewParts(session: Session, graph: GraphInfo, sizes: seq<nat>)
      returns (ps: seq<Pool>, arrays: seq<seq<object>>, r: Readers)
    requires |sizes| == 6 && graph.datareaderId == ObjectId(0, NoObject)
    modifies session`idDatareader
    ensures |ps| == |arrays| == 6
    ensures forall k {:trigger ps[k]} {:trigger arrays[k]} :: 0 <= k < 6 ==> Threaded(k, ps[k], arrays[k])
    ensures forall k {:trigger arrays[k]} :: 0 <= k < 6 ==> |arrays[k]| == sizes[k]
    ensures forall j, k :: 0 <= j < k < 6 ==> ps[j] != ps[k] && ps[j].items !! ps[k].items
    ensures r.Valid() && r.created == 0 && r.session == session && r.graph == graph
    ensures forall i {:trigger arrays[SERVICES][i]} :: 0 <= i < |arrays[SERVICES]| ==>
              ServiceOf(arrays[SERVICES][i]) != null
    ensures forall i {:trigger arrays[CLIENTS][i]} :: 0 <= i < |arrays[CLIENTS]| ==>
              ClientOf(arrays[CLIENTS][i]) != null
    ensures |r.subscriptions| == |arrays[SUBSCRIPTIONS]|
    ensures forall i :: 0 <= i < |r.subscriptions| ==> r.subscriptions[i] == arrays[SUBSCRIPTIONS][i]
    ensures fresh(r) && forall k {:trigger ps[k]} :: 0 <= k < 6 ==> fresh(ps[k]) && fresh(ps[k].items)
    ensures forall k {:trigger arrays[k]} :: 0 <= k < 6 ==> fresh(arrays[k]) && fresh(Bases(arrays[k]))
  {
    hide StaticPool, Readers.Valid, Bases;
    session.idDatareader := 0;
    ps, arrays := NewArrays(sizes);
    ArrayOf(SUBSCRIPTIONS, ps[SUBSCRIPTIONS], arrays[SUBSCRIPTIONS]);
    ArrayOf(SERVICES, ps[SERVICES], arrays[SERVICES]);
    ArrayOf(CLIENTS, ps[CLIENTS], arrays[CLIENTS]);
    r := new Readers(session, SubscriptionsIn(arrays[SUBSCRIPTIONS]), graph);
  }

  class Runtime {
    const pools: seq<Pool>

    // The elements of the static arrays
    ghost const nodeSlots: set<Node>
    ghost const entitySlots: set<Entity>
    ghost const topicSlots: set<Topic>
    const services: seq<Service>
    const clients: seq<Client>

    /** The subscriptions, with the one session that all nodes share and its graph reader. */
    const readers: Readers

    constructor (pools: seq<Pool>, arrays: seq<seq<object>>,
                 services: seq<Service>, clients: seq<Client>, readers: Readers)
      requires |arrays| == 6
      ensures this.pools == pools && this.services == services && this.clients == clients && this.readers == readers
      ensures nodeSlots == NodesIn(arrays[NODES]) && topicSlots == TopicsIn(arrays[TOPICS])
      ensures entitySlots == EntitiesIn(arrays)
    {
      this.pools, this.services, this.clients, this.readers := pools, services, clients, readers;
      nodeSlots, topicSlots, entitySlots := NodesIn(arrays[NODES]), TopicsIn(arrays[TOPICS]), EntitiesIn(arrays);
    }

    lemma ValidAtFirst(arrays: seq<seq<object>>)
      requires |pools| == |arrays| == 6
      requires forall k {:trigger pools[k]} :: 0 <= k < 6 ==> Threaded(k, pools[k], arrays[k])
      requires forall j, k :: 0 <= j < k < 6 ==> pools[j] != pools[k] && pools[j].items !! pools[k].items
      requires nodeSlots == NodesIn(arrays[NODES])
      requires topicSlots == TopicsIn(arrays[TOPICS])
      requires entitySlots == EntitiesIn(arrays)
      requires ArePlaced(arrays)
      ensures Valid() && forall k :: 0 <= k < 6 ==> pools[k].alloc == [] && |pools[k].free| == |arrays[k]|
    {
      hide Pools, PoolsBut, NodeSlots, EntitySlots, TopicSlots, Linked, TopicsKnown, StaticPool, Threaded;
      PoolsAtFirst(arrays);
      NodesAtFirst(arrays[NODES]);
      TopicsAtFirst(arrays[TOPICS]);
      EntitiesAtFirst(arrays);
      LinkedAtFirst();
    }

    /** The typed arrays are those of the elements. */
    ghost predicate ArePlaced(arrays: seq<seq<object>>)
      requires |arrays| == 6
    {
      && |readers.subscriptions| == |arrays[SUBSCRIPTIONS]| && |services| == |arrays[SERVICES]|
      && |clients| == |arrays[CLIENTS]|
      && (forall i :: 0 <= i < |services| ==> services[i] == arrays[SERVICES][i])
      && (forall i :: 0 <= i < |clients| ==> clients[i] == arrays[CLIENTS][i])
      && (forall i :: 0 <= i < |readers.subscriptions| ==> readers.subscriptions[i] == arrays[SUBSCRIPTIONS][i])
    }

    lemma PoolsAtFirst(arrays: seq<seq<object>>)
      requires |pools| == |arrays| == 6
      requires forall k {:trigger pools[k]} :: 0 <= k < 6 ==> Threaded(k, pools[k], arrays[k])
      requires forall j, k :: 0 <= j < k < 6 ==> pools[j] != pools[k] && pools[j].items !! pools[k].items
      ensures Pools() && forall k :: 0 <= k < 6 ==> pools[k].alloc == [] && |pools[k].free| == |arrays[k]|
    {
    }

    lemma NodesAtFirst(nodes: seq<object>)
      requires |pools| == 6 && Threaded(NODES, pools[NODES], nodes)
      requires nodeSlots == NodesIn(nodes)
      ensures NodeSlots() && forall n :: n in nodeSlots ==> !n.live
    {
    }

    lemma TopicsAtFirst(topics: seq<object>)
      requires |pools| == 6 && Threaded(TOPICS, pools[TOPICS], topics)
      requires topicSlots == TopicsIn(topics)
      ensures TopicSlots()
    {
    }

    lemma EntitiesAtFirst(arrays: seq<seq<object>>)
      requires |pools| == |arrays| == 6
      requires forall k {:trigger pools[k]} :: 0 <= k < 6 ==> Threaded(k, pools[k], arrays[k])
      requires entitySlots == EntitiesIn(arrays)
      requires ArePlaced(arrays)
      ensures EntitySlots() && forall e :: e in entitySlots ==> !e.live && e.topic == null
    {
      hide StaticPool;
      forall k: EntityKind, x | x in pools[k].items
        ensures InEntity(k, x)
      {
        assert Threaded(k, pools[k], arrays[k]);
        var i :| 0 <= i < |arrays[k]| && arrays[k][i] == x.data;
        assert Zeroed(k, i, arrays[k][i]);
        assert Base(x.data) in entitySlots;
      }
      forall e | e in entitySlots
        ensures e.mem in pools[e.kind].items && Base(e.mem.data) == e && !e.live && e.topic == null
      {
        var k: EntityKind, x :| x in arrays[k] && Base(x) == e;
        var i :| 0 <= i < |arrays[k]| && arrays[k][i] == x;
        assert Threaded(k, pools[k], arrays[k]) && Zeroed(k, i, arrays[k][i]);
      }
    }

    lemma LinkedAtFirst()
      requires |pools| == 6 && forall k :: 0 <= k < 6 ==> pools[k].alloc == []
      requires (forall n :: n in nodeSlots ==> !n.live) && forall e :: e in entitySlots ==> !e.live && e.topic == null
      ensures Linked() && TopicsKnown()
    {
    }

    // ---------------------------------------------------------------- the pools

    /** Six separate pools, sound but for at most the one in place `b`. */
    ghost predicate PoolsBut(b: nat)
      reads pools, set p, x | p in pools && x in p.items :: x
    {
      && |pools| == 6
      && (forall k {:trigger pools[k]} :: 0 <= k < 6 && k != b ==> StaticPool(pools[k]))
      && (forall j, k :: 0 <= j < k < 6 ==> pools[j] != pools[k] && pools[j].items !! pools[k].items)
    }

    ghost predicate Pools()
      reads pools, set p, x | p in pools && x in p.items :: x
    {
      PoolsBut(NONE)
    }

    lemma PoolSound(k: nat, b: nat)
      requires PoolsBut(b) && k < 6 && k != b
      ensures StaticPool(pools[k])
    {
    }

    lemma ItemsApart(j: nat, k: nat, b: nat)
      requires PoolsBut(b) && j < k < 6
      ensures pools[j].items !! pools[k].items
    {
    }

    lemma PoolsButOne(b: nat)
      requires b < |pools| == 6
      ensures Pools() <==> PoolsBut(b) && StaticPool(pools[b])
    {
    }

    /** The items in use in one of the pools. */
    ghost function Used(k: nat): set<Item>
      requires k < |pools|
      reads pools[k]
    {
      Elems(pools[k].alloc)
    }

    /** The lists of a pool. */
    ghost predicate Lists(k: nat, free: seq<Item>, alloc: seq<Item>)
      requires k < |pools|
      reads pools[k]
    {
      pools[k].free == free && pools[k].alloc == alloc
    }

    /** The free list of a pool has run into a loop at its head. */
    ghost predicate Looped(k: nat, x: Item)
      requires k < |pools|
      reads pools[k], x
    {
      pools[k].freeitems == x && x.next == x
    }

    /** A pool whose lists were `free` and `alloc` before `item` was taken from it. */
    ghost predicate Took(k: nat, item: Item, free: seq<Item>, alloc: seq<Item>)
      requires k < |pools|
      reads pools[k]
    {
      && free != [] && item == free[0] && pools[k].free == free[1..]
      && item !in Elems(alloc) && pools[k].alloc == [item] + alloc && Used(k) == Elems(alloc) + {item}
    }

    /** Putting back what was just taken restores both lists. */
    lemma TookBack(k: nat, item: Item, free: seq<Item>, alloc: seq<Item>)
      requires k < |pools| && Took(k, item, free, alloc)
      ensures item in pools[k].alloc && Mempool.Without(pools[k].alloc, item) == alloc
      ensures [item] + pools[k].free == free
    {
      WithoutFront(item, alloc);
    }

    /** `GetMemory` on one of the pools. */
    method Grab(k: nat) returns (item: Item?)
      requires Pools() && k < 6
      modifies pools[k], pools[k].items`prev, pools[k].items`next
      ensures Pools() && pools[k].items == old(pools[k].items)
      ensures forall j :: 0 <= j < 6 && j != k ==> unchanged(pools[j])
      ensures old(pools[k].free) == [] ==> item == null && pools[k].free == [] && pools[k].alloc == old(pools[k].alloc)
      ensures old(pools[k].free) != [] ==>
                item != null && item in pools[k].items && Took(k, item, old(pools[k].free), old(pools[k].alloc))
    {
      item := pools[k].GetMemory();
    }

    /** An item is in use or free, and not both. */
    lemma Placed(k: nat, item: Item)
      requires k < |pools| && StaticPool(pools[k]) && item in pools[k].items
      ensures item in pools[k].alloc <==> item !in pools[k].free
      ensures item in pools[k].alloc <==> item in Used(k)
    {
    }

    lemma FreeHead(k: nat)
      requires Pools() && k < 6 && pools[k].free != []
      ensures pools[k].free[0] in pools[k].items
    {
    }

    /** `PutMemory` on one of the pools. Only for the item that was put last does it break the pool. */
    method Put(k: nat, item: Item, ghost b: nat)
      requires PoolsBut(b) && k < 6 && k != b && item in pools[k].items
      modifies pools[k], pools[k].items`prev, pools[k].items`next
      ensures pools[k].items == old(pools[k].items)
      ensures forall j :: 0 <= j < 6 && j != k ==>
                unchanged(pools[j]) && StaticPool(pools[j]) == old(StaticPool(pools[j]))
      ensures pools[k].alloc == if item in old(pools[k].alloc) then Mempool.Without(old(pools[k].alloc), item)
                                else old(pools[k].alloc)
      ensures pools[k].free == [item] + if item in old(pools[k].free) then Mempool.Without(old(pools[k].free), item)
                                        else old(pools[k].free)
      ensures Used(k) == old(Used(k)) - {item}
      ensures PoolsBut(b) <==> old(pools[k].free == [] || item != pools[k].free[0])
      ensures b == NONE ==> PoolsBut(k)
      ensures old(pools[k].free != [] && item == pools[k].free[0]) ==> Looped(k, item)
    {
      if item in pools[k].alloc {
        WithoutElems(pools[k].alloc, item);
      }
      pools[k].PutMemory(item);
    }

    // ---------------------------------------------------------------- the elements

    ghost predicate NodeSlots()
      requires |pools| == 6
      reads pools`items, set p, x | p in pools && x in p.items :: x`data
    {
      && (forall x {:trigger x in pools[NODES].items} :: x in pools[NODES].items ==>
            x.data is Node && (x.data as Node) in nodeSlots && (x.data as Node).mem == x)
      && (forall n {:trigger n in nodeSlots} :: n in nodeSlots ==> n.mem in pools[NODES].items && n.mem.data == n)
    }

    ghost predicate TopicSlots()
      requires |pools| == 6
      reads pools`items, set p, x | p in pools && x in p.items :: x`data
    {
      && (forall x {:trigger x in pools[TOPICS].items} :: x in pools[TOPICS].items ==>
            x.data is Topic && (x.data as Topic) in topicSlots && (x.data as Topic).mem == x)
      && (forall t {:trigger t in topicSlots} :: t in topicSlots ==> t.mem in pools[TOPICS].items && t.mem.data == t)
    }

    /** The item is embedded in an entity of kind `k`, in its place of the array. */
    ghost predicate InEntity(k: EntityKind, x: Item)
      reads x`data
    {
      && Base(x.data) != null && Base(x.data) in entitySlots && Base(x.data).mem == x && Base(x.data).kind == k
      && var i := Base(x.data).index;
         && (k == SUBSCRIPTIONS ==> i < |readers.subscriptions| && x.data == readers.subscriptions[i])
         && (k == SERVICES ==> i < |services| && x.data == services[i])
         && (k == CLIENTS ==> i < |clients| && x.data == clients[i])
    }

    ghost predicate EntitySlots()
      requires |pools| == 6
      reads pools`items, set p, x | p in pools && x in p.items :: x`data
    {
      && (forall k: EntityKind, x {:trigger x in pools[k].items} :: x in pools[k].items ==> InEntity(k, x))
      && (forall e {:trigger e in entitySlots} :: e in entitySlots ==>
            e.mem in pools[e.kind].items && Base(e.mem.data) == e)
    }

    /** Every item is embedded in the element of its array that it points back to. */
    ghost predicate Slots()
      requires |pools| == 6
      reads pools`items, set p, x | p in pools && x in p.items :: x`data
    {
      NodeSlots() && EntitySlots() && TopicSlots()
    }

    /** The items of a pool are those embedded in its array, whatever happens to the lists. */
    twostate lemma ItemsFixed()
      requires |pools| == 6 && old(Slots()) && Slots()
      ensures forall k :: 0 <= k < 6 ==> pools[k].items == old(pools[k].items)
    {
    }

    lemma NodeItem(x: Item)
      requires |pools| == 6 && Slots() && x in pools[NODES].items
      ensures x.data is Node && (x.data as Node) in nodeSlots && (x.data as Node).mem == x
    {
    }

    lemma NodeSlot(n: Node)
      requires |pools| == 6 && Slots() && n in nodeSlots
      ensures n.mem in pools[NODES].items && n.mem.data == n
    {
    }

    lemma EntityItem(k: EntityKind, x: Item)
      requires |pools| == 6 && Slots() && x in pools[k].items
      ensures InEntity(k, x)
    {
    }

    lemma EntitySlot(e: Entity)
      requires |pools| == 6 && Slots() && e in entitySlots
      ensures e.mem in pools[e.kind].items && Base(e.mem.data) == e
    {
    }

    lemma SubscriptionPlace(e: Entity)
      requires |pools| == 6 && Slots() && e in entitySlots && e.kind == SUBSCRIPTIONS
      ensures e.index < |readers.subscriptions| && readers.subscriptions[e.index].entity == e
      ensures e.mem.data == readers.subscriptions[e.index]
    {
      EntitySlot(e);
      EntityItem(e.kind, e.mem);
    }

    lemma TopicItem(x: Item)
      requires |pools| == 6 && Slots() && x in pools[TOPICS].items
      ensures x.data is Topic && (x.data as Topic) in topicSlots && (x.data as Topic).mem == x
    {
    }

    lemma TopicSlot(t: Topic)
      requires |pools| == 6 && Slots() && t in topicSlots
      ensures t.mem in pools[TOPICS].items && t.mem.data == t
    {
    }

    // ---------------------------------------------------------------- the invariant

    /** Whatever topic a slot points at is an element of the array of topics. */
    ghost predicate TopicsKnown()
      reads entitySlots`topic
    {
      forall e {:trigger e in entitySlots} :: e in entitySlots ==> e.topic == null || e.topic in topicSlots
    }

    /** An entity in use has a node in use; a publisher or subscription also has a topic that was created for it. */
    ghost predicate InUse(e: Entity)
      requires |pools| == 6
      reads e, nodeSlots, topicSlots, pools[TOPICS]
    {
      && e.ownerNode != null && e.ownerNode in nodeSlots && e.ownerNode.live
      && (Topical(e.kind) ==>
            && e.topic != null && e.topic in topicSlots && e.topic.mem in Used(TOPICS)
            && e.topic.holder == e && e.topic.ownerNode == e.ownerNode)
    }

    /** A topic in use is the topic of the entity it was created for, which is in use. */
    ghost predicate Held(t: Topic)
      reads t, entitySlots
    {
      && t.holder != null && t.holder in entitySlots && Topical(t.holder.kind)
      && t.holder.live && t.holder.topic == t
    }

    /** Handles are live exactly in the slots in use, entities belong to nodes, and topics to entities. */
    ghost predicate Linked()
      requires |pools| == 6
      reads pools, nodeSlots, entitySlots, topicSlots
    {
      && (forall n {:trigger n in nodeSlots} :: n in nodeSlots ==>
            (n.live <==> n.mem in Used(NODES)) && (n.live ==> n.context == readers.session))
      && (forall e {:trigger e in entitySlots} :: e in entitySlots ==>
            (e.live <==> e.mem in Used(e.kind)) && (e.live ==> InUse(e)))
      && (forall t {:trigger t in topicSlots} :: t in topicSlots && t.mem in Used(TOPICS) ==> Held(t))
    }

    /** As many topics are in use as publishers and subscriptions together. */
    ghost predicate Balanced()
      requires |pools| == 6
      reads pools
    {
      |pools[TOPICS].alloc| == |pools[PUBLISHERS].alloc| + |pools[SUBSCRIPTIONS].alloc|
    }

    ghost predicate Valid()
      reads pools, set p, x | p in pools && x in p.items :: x, nodeSlots, entitySlots, topicSlots
    {
      Pools() && Slots() && TopicsKnown() && Linked() && Balanced()
    }

    lemma ValidParts()
      requires |pools| == 6 && Valid()
      ensures Pools() && Slots() && TopicsKnown() && Linked() && Balanced()
    {
    }

    // ---------------------------------------------------------------- changes of one entity

    /** Only the pool `k` and the pool of topics are touched. */
    twostate predicate PoolsKept(k: nat)
      requires |pools| == 6
      reads pools
    {
      forall j :: 0 <= j < 6 && j != k && j != TOPICS ==> unchanged(pools[j])
    }

    /** An entity comes into use together with its topic, or goes out of use together with the topic it had. */
    twostate predicate Moved(new e: Entity)
      requires |pools| == 6 && e in entitySlots
      reads e, nodeSlots, topicSlots, pools
    {
      var E, T := old(Used(e.kind)), old(Used(TOPICS));
      if e.live then
        && e.mem !in E && Used(e.kind) == E + {e.mem} && InUse(e)
        && if Topical(e.kind) then e.topic.mem !in T && Used(TOPICS) == T + {e.topic.mem} else Used(TOPICS) == T
      else
        && Used(e.kind) == E - {e.mem}
        && if Topical(e.kind) && e.mem in E then old(e.topic) != null && Used(TOPICS) == T - {old(e.topic).mem}
           else Used(TOPICS) == T
    }

    /** No node, no entity but `e` and no topic that stays in use is touched. */
    twostate predicate OthersKept(new e: Entity?)
      requires |pools| == 6
      reads nodeSlots, entitySlots, topicSlots, pools
    {
      && (forall n :: n in nodeSlots ==> unchanged(n))
      && (forall q :: q in entitySlots && q != e ==> unchanged(q))
      && (forall u :: u in topicSlots && u.mem in old(Used(TOPICS)) && u.mem in Used(TOPICS) ==> unchanged(u))
    }

    twostate lemma EntityMoves(new e: Entity)
      requires |pools| == 6 && Slots() && old(Linked()) && e in entitySlots
      requires PoolsKept(e.kind) && Moved(e) && OthersKept(e)
      ensures Linked()
    {
      forall q | q in entitySlots
        ensures q.mem == e.mem ==> q == e
      {
        EntitySlot(q);
      }
      if e.live && Topical(e.kind) {
        forall u | u in topicSlots
          ensures u.mem == e.topic.mem ==> u == e.topic
        {
          TopicSlot(u);
        }
      }
    }

    twostate lemma NobodyMoves(k: EntityKind)
      requires |pools| == 6 && Slots() && old(Linked()) && PoolsKept(k) && OthersKept(null)
      requires Used(k) == old(Used(k)) && Used(TOPICS) == old(Used(TOPICS))
      ensures Linked()
    {
    }

    /** The counts stay balanced exactly if topics come and go with their users. */
    twostate lemma BalancedThen(k: EntityKind)
      requires |pools| == 6 && old(Balanced()) && PoolsKept(k)
      ensures Balanced() <==>
                |pools[TOPICS].alloc| - old(|pools[TOPICS].alloc|)
                == if Topical(k) then |pools[k].alloc| - old(|pools[k].alloc|) else 0
    {
    }

    // ---------------------------------------------------------------- topics

    /** Puts a topic back, wherever it is, and clears its owner. */
    method FiniTopicMemory(topic: Topic)
      requires |pools| == 6 && Pools() && Slots() && topic in topicSlots
      modifies pools[TOPICS], pools[TOPICS].items`prev, pools[TOPICS].items`next, topic`ownerNode
      ensures |pools| == 6 && Slots() && topic.ownerNode == null
      ensures forall j :: 0 <= j < 6 && j != TOPICS ==> unchanged(pools[j])
      ensures pools[TOPICS].items == old(pools[TOPICS].items)
      ensures pools[TOPICS].alloc == if topic.mem in old(pools[TOPICS].alloc)
                                     then Mempool.Without(old(pools[TOPICS].alloc), topic.mem)
                                     else old(pools[TOPICS].alloc)
      ensures pools[TOPICS].free == [topic.mem] + if topic.mem in old(pools[TOPICS].free)
                                                  then Mempool.Without(old(pools[TOPICS].free), topic.mem)
                                                  else old(pools[TOPICS].free)
      ensures Used(TOPICS) == old(Used(TOPICS)) - {topic.mem}
      ensures Pools() <==> old(pools[TOPICS].free == [] || topic.mem != pools[TOPICS].free[0])
      ensures PoolsBut(TOPICS)
      ensures old(pools[TOPICS].free != [] && topic.mem == pools[TOPICS].free[0]) ==> Looped(TOPICS, topic.mem)
    {
      hide PoolsBut, Slots;
      TopicSlot(topic);
      Put(TOPICS, topic.mem, NONE);
      topic.ownerNode := null;
    }

    /** `FiniTopicMemory` on the topic that was taken last. */
    method UndoTopic(topic: Topic, ghost free: seq<Item>, ghost alloc: seq<Item>)
      requires |pools| == 6 && Pools() && Slots() && topic in topicSlots && Took(TOPICS, topic.mem, free, alloc)
      modifies pools[TOPICS], pools[TOPICS].items`prev, pools[TOPICS].items`next, topic`ownerNode
      ensures Pools() && Slots() && pools[TOPICS].items == old(pools[TOPICS].items) && Lists(TOPICS, free, alloc)
      ensures forall j :: 0 <= j < 6 && j != TOPICS ==> unchanged(pools[j])
    {
      hide PoolsBut, StaticPool, Slots;
      PoolSound(TOPICS, NONE);
      TopicSlot(topic);
      TookBack(TOPICS, topic.mem, free, alloc);
      Placed(TOPICS, topic.mem);
      FiniTopicMemory(topic);
    }

    /** First part of `CreateTopic`: a slot that belongs to `node`. */
    method TakeTopic(node: Node, ghost holder: Entity) returns (topic: Topic?)
      requires |pools| == 6 && Pools() && Slots()
      modifies pools[TOPICS], pools[TOPICS].items`prev, pools[TOPICS].items`next, topicSlots
      ensures Pools() && Slots() && pools[TOPICS].items == old(pools[TOPICS].items)
      ensures forall j :: 0 <= j < 6 && j != TOPICS ==> unchanged(pools[j])
      ensures old(pools[TOPICS].free) == [] ==> topic == null && Lists(TOPICS, [], old(pools[TOPICS].alloc))
      ensures old(pools[TOPICS].free) != [] ==>
                && topic != null && topic in topicSlots && topic.ownerNode == node && topic.holder == holder
                && Took(TOPICS, topic.mem, old(pools[TOPICS].free), old(pools[TOPICS].alloc))
                && topic.mem !in old(Used(TOPICS))
      ensures forall t :: t in topicSlots && t.mem in old(Used(TOPICS)) ==> unchanged(t)
    {
      hide PoolsBut, Slots;
      topic := null;
      var item := Grab(TOPICS);
      if item != null {
        TopicItem(item);
        topic := item.data as Topic;
        topic.ownerNode := node;
        topic.holder := holder;
      }
    }

    /** Creates a topic for the publisher or subscription that is being created; unconfirmed, it is put back. */
    method CreateTopic(node: Node, namesFit: bool, confirmed: bool, ghost holder: Entity) returns (topic: Topic?)
      requires |pools| == 6 && Pools() && Slots()
      modifies pools[TOPICS], pools[TOPICS].items`prev, pools[TOPICS].items`next, topicSlots
      ensures Pools() && Slots() && pools[TOPICS].items == old(pools[TOPICS].items)
      ensures forall j :: 0 <= j < 6 && j != TOPICS ==> unchanged(pools[j])
      ensures topic != null <==> old(pools[TOPICS].free) != [] && namesFit && confirmed
      ensures topic == null ==> Lists(TOPICS, old(pools[TOPICS].free), old(pools[TOPICS].alloc))
      ensures topic != null ==>
                && topic in topicSlots && topic.ownerNode == node && topic.holder == holder
                && Took(TOPICS, topic.mem, old(pools[TOPICS].free), old(pools[TOPICS].alloc))
      ensures forall t :: t in topicSlots && t.mem in old(Used(TOPICS)) ==> unchanged(t)
    {
      hide PoolsBut, Slots, Took;
      topic := TakeTopic(node, holder);
      if topic != null {
        if !namesFit || !confirmed {
          UndoTopic(topic, old(pools[TOPICS].free), old(pools[TOPICS].alloc));
          topic := null;
        }
      }
    }

    // ---------------------------------------------------------------- creation

    /** The slot of kind `k` that is handed out next. */
    ghost function NextSlot(k: EntityKind): (e: Entity?)
      requires |pools| == 6 && Pools() && Slots()
      reads pools, set p, x | p in pools && x in p.items :: x
      ensures pools[k].free == [] ==> e == null
      ensures pools[k].free != [] ==> e != null && e in entitySlots && e.kind == k && e.mem == pools[k].free[0]
    {
      if pools[k].free == [] then null else
        FreeHead(k);
        EntityItem(k, pools[k].free[0]);
        Base(pools[k].free[0].data)
    }

    lemma NextSlotIs(k: EntityKind)
      requires |pools| == 6 && Pools() && Slots()
      ensures NextSlot(k) == null <==> pools[k].free == []
    {
    }

    /** First part of a creation: a slot with a live handle, and everything else as its last user left it. */
    method Open(k: EntityKind) returns (e: Entity?)
      requires |pools| == 6 && Pools() && Slots() && TopicsKnown()
      modifies pools[k], pools[k].items`prev, pools[k].items`next, entitySlots`live
      ensures Pools() && Slots() && TopicsKnown() && pools[k].items == old(pools[k].items)
      ensures e == old(NextSlot(k))
      ensures forall j :: 0 <= j < 6 && j != k ==> unchanged(pools[j])
      ensures e == null ==> Lists(k, old(pools[k].free), old(pools[k].alloc))
      ensures e != null ==>
                && e in entitySlots && e.kind == k && e.live && e.mem !in old(Used(k))
                && Took(k, e.mem, old(pools[k].free), old(pools[k].alloc))
      ensures forall q :: q in entitySlots && q != e ==> unchanged(q)
    {
      hide PoolsBut, Slots;
      e := null;
      var item := Grab(k);
      if item != null {
        EntityItem(k, item);
        e := Base(item.data);
        e.live := true;
      }
    }

    /** Clears the handle of an entity and puts its slot back, whether or not the pool of topics is sound. */
    method FiniMemory(e: Entity, ghost b: nat)
      requires b == NONE || b == TOPICS
      requires |pools| == 6 && PoolsBut(b) && Slots()
      requires e in entitySlots && e.mem in pools[e.kind].alloc
      modifies pools[e.kind], pools[e.kind].items`prev, pools[e.kind].items`next, e`live
      ensures PoolsBut(b) && Slots() && pools[e.kind].items == old(pools[e.kind].items) && !e.live
      ensures forall j :: 0 <= j < 6 && j != e.kind ==>
                unchanged(pools[j]) && StaticPool(pools[j]) == old(StaticPool(pools[j]))
      ensures e.mem in old(pools[e.kind].alloc)
      ensures Lists(e.kind, [e.mem] + old(pools[e.kind].free), Mempool.Without(old(pools[e.kind].alloc), e.mem))
      ensures Used(e.kind) == old(Used(e.kind)) - {e.mem}
      ensures forall x :: x in pools[TOPICS].items ==> x.next == old(x.next)
    {
      hide PoolsBut, StaticPool, Slots;
      ItemsApart(e.kind, TOPICS, b);
      PoolSound(e.kind, b);
      EntitySlot(e);
      Placed(e.kind, e.mem);
      Put(e.kind, e.mem, b);
      e.live := false;
    }

    /** The failure exit of a creation: whatever topic the slot points at is put back, then the slot. */
    method Fail(e: Entity)
      requires |pools| == 6 && Pools() && Slots() && e in entitySlots && e.mem in pools[e.kind].alloc
      requires e.topic == null || e.topic in topicSlots
      modifies pools[e.kind], pools[e.kind].items`prev, pools[e.kind].items`next, e`live
      modifies pools[TOPICS], pools[TOPICS].items`prev, pools[TOPICS].items`next, topicSlots`ownerNode
      ensures Slots() && !e.live && PoolsKept(e.kind)
      ensures e.mem in old(pools[e.kind].alloc)
      ensures Lists(e.kind, [e.mem] + old(pools[e.kind].free), Mempool.Without(old(pools[e.kind].alloc), e.mem))
      ensures forall t :: t in topicSlots && t != e.topic ==> unchanged(t)
      ensures !(Topical(e.kind) && e.topic != null) ==>
                Pools() && unchanged(pools[TOPICS]) && forall t :: t in topicSlots ==> unchanged(t)
      ensures Topical(e.kind) && e.topic != null ==>
                var x := e.topic.mem;
                && pools[TOPICS].alloc == (if x in old(pools[TOPICS].alloc)
                                           then Mempool.Without(old(pools[TOPICS].alloc), x)
                                           else old(pools[TOPICS].alloc))
                && pools[TOPICS].free == [x] + (if x in old(pools[TOPICS].free)
                                                then Mempool.Without(old(pools[TOPICS].free), x)
                                                else old(pools[TOPICS].free))
                && Used(TOPICS) == old(Used(TOPICS)) - {x}
                && (Pools() <==> old(pools[TOPICS].free == [] || e.topic.mem != pools[TOPICS].free[0]))
                && (old(pools[TOPICS].free != [] && e.topic.mem == pools[TOPICS].free[0]) ==> Looped(TOPICS, x))
    {
      hide PoolsBut, StaticPool, Slots, Used;
      PoolsButOne(TOPICS);
      if Topical(e.kind) && e.topic != null {
        TopicSlot(e.topic);
        FiniTopicMemory(e.topic);
      }
      PoolsButOne(TOPICS);
      FiniMemory(e, TOPICS);
      PoolsButOne(TOPICS);
    }

    lemma TopicPlaced(t: Topic)
      requires |pools| == 6 && Pools() && Slots() && t in topicSlots
      ensures t.mem in pools[TOPICS].alloc <==> t.mem !in pools[TOPICS].free
    {
      PoolSound(TOPICS, NONE);
      TopicSlot(t);
      hide Pools, PoolsBut, Slots;
      Placed(TOPICS, t.mem);
    }

    /** `Fail` on an entity that was just opened, when the lists of topics had been `topicFree` and `topicAlloc`. */
    method Undo(e: Entity, ghost free: seq<Item>, ghost alloc: seq<Item>,
                ghost topicFree: seq<Item>, ghost topicAlloc: seq<Item>)
      requires |pools| == 6 && Pools() && Slots() && e in entitySlots && (e.topic == null || e.topic in topicSlots)
      requires Took(e.kind, e.mem, free, alloc)
      modifies pools[e.kind], pools[e.kind].items`prev, pools[e.kind].items`next, e`live
      modifies pools[TOPICS], pools[TOPICS].items`prev, pools[TOPICS].items`next, topicSlots`ownerNode
      ensures Slots() && !e.live && Lists(e.kind, free, alloc) && PoolsKept(e.kind)
      ensures forall t :: t in topicSlots && t.mem in Used(TOPICS) ==> unchanged(t)
      ensures !(Topical(e.kind) && e.topic != null) ==>
                Pools() && unchanged(pools[TOPICS]) && forall t :: t in topicSlots ==> unchanged(t)
      ensures Topical(e.kind) && e.topic != null && old(Took(TOPICS, e.topic.mem, topicFree, topicAlloc)) ==>
                Pools() && Lists(TOPICS, topicFree, topicAlloc)
      ensures Topical(e.kind) && e.topic != null && old(Lists(TOPICS, topicFree, topicAlloc)) ==>
                && (e.topic.mem in topicFree ==>
                      && pools[TOPICS].alloc == topicAlloc && (Pools() <==> e.topic.mem != topicFree[0])
                      && (e.topic.mem == topicFree[0] ==> Looped(TOPICS, e.topic.mem)))
                && (e.topic.mem !in topicFree ==> |pools[TOPICS].alloc| < |topicAlloc|)
    {
      hide Pools, PoolsBut, StaticPool, Slots, Took;
      TookBack(e.kind, e.mem, free, alloc);
      if Topical(e.kind) && e.topic != null {
        TopicPlaced(e.topic);
        if Took(TOPICS, e.topic.mem, topicFree, topicAlloc) {
          TookBack(TOPICS, e.topic.mem, topicFree, topicAlloc);
        }
      }
      Fail(e);
      assert Topical(e.kind) && e.topic != null ==> e.topic.mem !in Used(TOPICS);
    }

    /** The reader in the slot of `e` is named, or none is. */
    twostate predicate ReaderStep(new e: Entity?, named: bool)
      reads readers
    {
      if named then e != null && e.index < old(|readers.stamps|) && readers.Named(e.index) else readers.Idle()
    }

    /**
     * Announces a publisher and its datawriter, or a subscription and its datareader. The datareader gets the next
     * number once the subscriber is confirmed, even if the datareader then is not.
     */
    method RequestBoth(e: Entity, agent: Answers) returns (confirmed: bool)
      requires readers.Valid()
      requires e.kind == SUBSCRIPTIONS ==> e.index < |readers.subscriptions|
      modifies readers, readers.session`idDatareader, readers.subscriptions`datareaderId
      ensures confirmed == (agent.first && agent.second)
      ensures readers.Valid() && ReaderStep(e, e.kind == SUBSCRIPTIONS && agent.first)
    {
      confirmed := agent.first;
      if confirmed {
        if e.kind == SUBSCRIPTIONS {
          readers.CreateReader(e.index);
        }
        confirmed := agent.second;
      }
    }

    /** The topic of a new publisher or subscription, and then the requests to the agent. */
    method Equip(e: Entity, node: Node, namesFit: bool, agent: Answers) returns (confirmed: bool)
      requires |pools| == 6 && Pools() && Slots() && e in entitySlots && readers.Valid() && Topical(e.kind)
      modifies e`topic, readers, readers.session`idDatareader, readers.subscriptions`datareaderId
      modifies pools[TOPICS], pools[TOPICS].items`prev, pools[TOPICS].items`next, topicSlots
      ensures Pools() && Slots() && pools[TOPICS].items == old(pools[TOPICS].items)
      ensures forall j :: 0 <= j < 6 && j != TOPICS ==> unchanged(pools[j])
      ensures confirmed == Granted(e.kind, old(pools[TOPICS].free) != [], namesFit, agent)
      ensures e.topic == null ==> !confirmed && Lists(TOPICS, old(pools[TOPICS].free), old(pools[TOPICS].alloc))
      ensures e.topic != null ==>
                && e.topic in topicSlots && e.topic.ownerNode == node && e.topic.holder == e
                && Took(TOPICS, e.topic.mem, old(pools[TOPICS].free), old(pools[TOPICS].alloc))
      ensures readers.Valid() && ReaderStep(e, Names(e.kind, old(pools[TOPICS].free) != [], namesFit, agent))
      ensures forall t :: t in topicSlots && t.mem in old(Used(TOPICS)) ==> unchanged(t)
    {
      hide Pools, PoolsBut, StaticPool, Slots, Took, Used, Readers.Valid;
      confirmed := false;
      var topic := CreateTopic(node, namesFit, agent.topic, e);
      e.topic := topic;
      if e.topic != null {
        if e.kind == SUBSCRIPTIONS {
          SubscriptionPlace(e);
        }
        confirmed := RequestBoth(e, agent);
      }
    }

    /** The middle of a creation: owner, topic, and the requests to the agent. */
    method Link(e: Entity, node: Node, nameFits: bool, typeSupported: bool, namesFit: bool, agent: Answers)
        returns (confirmed: bool)
      requires |pools| == 6 && Pools() && Slots() && e in entitySlots && readers.Valid()
      modifies e`ownerNode, e`topic, readers, readers.session`idDatareader, readers.subscriptions`datareaderId
      modifies pools[TOPICS], pools[TOPICS].items`prev, pools[TOPICS].items`next, topicSlots
      ensures Pools() && Slots() && pools[TOPICS].items == old(pools[TOPICS].items)
      ensures forall j :: 0 <= j < 6 && j != TOPICS ==> unchanged(pools[j])
      ensures confirmed == (nameFits && typeSupported
                            && Granted(e.kind, old(pools[TOPICS].free) != [], namesFit, agent))
      ensures !(nameFits && typeSupported) || !Topical(e.kind) ==>
                && e.topic == old(e.topic) && Lists(TOPICS, old(pools[TOPICS].free), old(pools[TOPICS].alloc))
                && forall t :: t in topicSlots ==> unchanged(t)
      ensures nameFits && typeSupported ==> e.ownerNode == node
      ensures nameFits && typeSupported && Topical(e.kind) && e.topic == null ==>
                !confirmed && Lists(TOPICS, old(pools[TOPICS].free), old(pools[TOPICS].alloc))
      ensures nameFits && typeSupported && Topical(e.kind) && e.topic != null ==>
                && e.topic in topicSlots && e.topic.ownerNode == node && e.topic.holder == e
                && Took(TOPICS, e.topic.mem, old(pools[TOPICS].free), old(pools[TOPICS].alloc))
      ensures readers.Valid()
      ensures ReaderStep(e, nameFits && typeSupported
                            && Names(e.kind, old(pools[TOPICS].free) != [], namesFit, agent))
      ensures forall t :: t in topicSlots && t.mem in old(Used(TOPICS)) ==> unchanged(t)
    {
      hide Pools, PoolsBut, StaticPool, Slots, Took, Used, Readers.Valid;
      confirmed := false;
      if nameFits {
        e.ownerNode := node;
        if typeSupported {
          if Topical(e.kind) {
            confirmed := Equip(e, node, namesFit, agent);
          } else if namesFit {
            confirmed := agent.first;
          }
        }
      }
    }

    /** A completed creation, when the lists had been these. */
    ghost predicate Created(e: Entity, node: Node, free: seq<Item>, alloc: seq<Item>,
                            topicFree: seq<Item>, topicAlloc: seq<Item>)
      requires |pools| == 6
      reads e, e.topic, pools
    {
      && e in entitySlots && e.live && e.ownerNode == node && Took(e.kind, e.mem, free, alloc)
      && if Topical(e.kind) then
           && e.topic != null && e.topic in topicSlots && e.topic.ownerNode == node && e.topic.holder == e
           && Took(TOPICS, e.topic.mem, topicFree, topicAlloc)
         else
           Lists(TOPICS, topicFree, topicAlloc)
    }

    /**
     * A creation that failed before it reached the topic: a topic the slot was last used with has been put back
     * again. It leaves the lists of topics alone if it is null, spoils them if it comes first, and is moved to the
     * front otherwise; if it serves another entity by now, it is taken away from it.
     */
    ghost predicate Rejected(stale: Topic?, topicFree: seq<Item>, topicAlloc: seq<Item>)
      requires |pools| == 6
      reads pools, set p, x | p in pools && x in p.items :: x, if stale == null then {} else {stale.mem}
    {
      if stale == null then
        Pools() && Lists(TOPICS, topicFree, topicAlloc)
      else if stale.mem in topicFree then
        && pools[TOPICS].alloc == topicAlloc && (Pools() <==> stale.mem != topicFree[0])
        && (stale.mem == topicFree[0] ==> Looped(TOPICS, stale.mem))
      else
        |pools[TOPICS].alloc| < |topicAlloc|
    }

    /** A creation once it has a slot, taken from the lists `free` and `alloc`. */
    method Try(e: Entity, node: Node, nameFits: bool, typeSupported: bool, namesFit: bool, agent: Answers,
               ghost free: seq<Item>, ghost alloc: seq<Item>)
        returns (confirmed: bool)
      requires |pools| == 6 && Pools() && Slots() && TopicsKnown() && e in entitySlots && e.live && readers.Valid()
      requires Took(e.kind, e.mem, free, alloc)
      modifies pools[e.kind], pools[e.kind].items`prev, pools[e.kind].items`next, e
      modifies pools[TOPICS], pools[TOPICS].items`prev, pools[TOPICS].items`next, topicSlots
      modifies readers, readers.session`idDatareader, readers.subscriptions`datareaderId
      ensures Slots() && TopicsKnown() && PoolsKept(e.kind)
      ensures confirmed == (nameFits && typeSupported
                            && Granted(e.kind, old(pools[TOPICS].free) != [], namesFit, agent))
      ensures confirmed ==>
                && Pools() && nameFits && typeSupported
                && Created(e, node, free, alloc, old(pools[TOPICS].free), old(pools[TOPICS].alloc))
      ensures !confirmed ==> Lists(e.kind, free, alloc) && !e.live
      ensures !confirmed && nameFits && typeSupported ==>
                Pools() && Lists(TOPICS, old(pools[TOPICS].free), old(pools[TOPICS].alloc))
      ensures !(nameFits && typeSupported) ==>
                && !confirmed
                && Rejected(if Topical(e.kind) then old(e.topic) else null,
                            old(pools[TOPICS].free), old(pools[TOPICS].alloc))
      ensures readers.Valid()
      ensures ReaderStep(e, nameFits && typeSupported
                            && Names(e.kind, old(pools[TOPICS].free) != [], namesFit, agent))
      ensures forall t :: t in topicSlots && t.mem in old(Used(TOPICS)) && t.mem in Used(TOPICS) ==> unchanged(t)
    {
      hide Pools, PoolsBut, StaticPool, Slots, Linked, Took;
      confirmed := Link(e, node, nameFits, typeSupported, namesFit, agent);
      assert TopicsKnown() && PoolsKept(e.kind);
      if !confirmed {
        Undo(e, free, alloc, old(pools[TOPICS].free), old(pools[TOPICS].alloc));
      }
    }

    /** `Create` as far as the pools are concerned. */
    method Make(k: EntityKind, node: Node, nameFits: bool, typeSupported: bool, namesFit: bool, agent: Answers)
        returns (e: Entity?, ghost slot: Entity?)
      requires |pools| == 6 && Pools() && Slots() && TopicsKnown() && readers.Valid()
      modifies pools[k], pools[k].items`prev, pools[k].items`next, entitySlots
      modifies pools[TOPICS], pools[TOPICS].items`prev, pools[TOPICS].items`next, topicSlots
      modifies readers, readers.session`idDatareader, readers.subscriptions`datareaderId
      ensures Slots() && TopicsKnown() && PoolsKept(k) && OthersKept(slot)
      ensures slot == old(NextSlot(k)) && (slot != null ==> slot.mem !in old(Used(k)))
      ensures slot == null ==> e == null && Pools() && Lists(TOPICS, old(pools[TOPICS].free), old(pools[TOPICS].alloc))
      ensures e != null <==> slot != null && nameFits && typeSupported
                             && Granted(k, old(pools[TOPICS].free) != [], namesFit, agent)
      ensures e != null ==>
                && Pools() && nameFits && typeSupported && e == slot
                && Created(e, node, old(pools[k].free), old(pools[k].alloc),
                           old(pools[TOPICS].free), old(pools[TOPICS].alloc))
      ensures e == null ==> Lists(k, old(pools[k].free), old(pools[k].alloc)) && (slot != null ==> !slot.live)
      ensures e == null && nameFits && typeSupported ==>
                Pools() && Lists(TOPICS, old(pools[TOPICS].free), old(pools[TOPICS].alloc))
      ensures slot != null && !(nameFits && typeSupported) ==>
                && e == null
                && Rejected(if Topical(k) then old(slot.topic) else null,
                            old(pools[TOPICS].free), old(pools[TOPICS].alloc))
      ensures readers.Valid()
      ensures ReaderStep(slot, slot != null && nameFits && typeSupported
                               && Names(k, old(pools[TOPICS].free) != [], namesFit, agent))
    {
      hide Pools, PoolsBut, StaticPool, Slots, TopicsKnown, Linked, NextSlot, Created, Rejected, Took;
      hide Elems, Readers.Valid;
      e := Open(k);
      slot := e;
      assert forall t :: t in topicSlots ==> unchanged(t);
      if e != null {
        var confirmed := Try(e, node, nameFits, typeSupported, namesFit, agent,
                             old(pools[k].free), old(pools[k].alloc));
        assert forall q :: q in entitySlots && q != slot ==> unchanged(q);
        assert OthersKept(slot);
        if !confirmed {
          e := null;
        }
      }
    }

    twostate lemma Comes(new e: Entity, new node: Node)
      requires |pools| == 6 && e in entitySlots && PoolsKept(e.kind) && OthersKept(e) && old(Balanced())
      requires node in nodeSlots && old(node.live)
      requires Created(e, node, old(pools[e.kind].free), old(pools[e.kind].alloc),
                       old(pools[TOPICS].free), old(pools[TOPICS].alloc))
      ensures Moved(e) && Balanced()
    {
    }

    twostate lemma Stays(new e: Entity)
      requires |pools| == 6 && e in entitySlots && !e.live && e.mem !in old(Used(e.kind))
      requires pools[e.kind].alloc == old(pools[e.kind].alloc) && pools[TOPICS].alloc == old(pools[TOPICS].alloc)
      ensures Moved(e)
    {
    }

    /** Once an entity has moved, or none has, only the pools can be at fault. */
    twostate lemma Settles(k: EntityKind, new e: Entity?)
      requires |pools| == 6 && old(Valid()) && Slots() && TopicsKnown() && PoolsKept(k) && OthersKept(e)
      requires Balanced() ==>
                 if e == null then Used(k) == old(Used(k)) && Used(TOPICS) == old(Used(TOPICS))
                 else e in entitySlots && e.kind == k && Moved(e)
      ensures Valid() <==> Pools() && Balanced()
    {
      hide Pools, PoolsBut, Slots, TopicsKnown, Linked, Balanced, Moved, OthersKept, PoolsKept, Used;
      if Balanced() && e != null {
        EntityMoves(e);
      } else if Balanced() {
        NobodyMoves(k);
      }
    }

    /** `Create` through a live node. */
    method Begin(k: EntityKind, node: Node, nameFits: bool, typeSupported: bool, namesFit: bool, agent: Answers)
        returns (e: Entity?)
      requires |pools| == 6 && Valid() && node in nodeSlots && node.live && readers.Valid()
      modifies pools[k], pools[k].items`prev, pools[k].items`next, entitySlots
      modifies pools[TOPICS], pools[TOPICS].items`prev, pools[TOPICS].items`next, topicSlots
      modifies readers, readers.session`idDatareader, readers.subscriptions`datareaderId
      ensures Slots() && PoolsKept(k) && OthersKept(old(NextSlot(k)))
      ensures e != null <==> old(pools[k].free) != [] && nameFits && typeSupported
                             && Granted(k, old(pools[TOPICS].free) != [], namesFit, agent)
      ensures e != null ==>
                && Valid() && nameFits && typeSupported && e == old(NextSlot(k))
                && Created(e, node, old(pools[k].free), old(pools[k].alloc),
                           old(pools[TOPICS].free), old(pools[TOPICS].alloc))
      ensures e == null ==> Lists(k, old(pools[k].free), old(pools[k].alloc))
      ensures e == null && (old(pools[k].free) == [] || (nameFits && typeSupported)) ==>
                Valid() && Lists(TOPICS, old(pools[TOPICS].free), old(pools[TOPICS].alloc))
      ensures old(pools[k].free) != [] && !(nameFits && typeSupported) ==>
                var stale := if Topical(k) then old(NextSlot(k).topic) else null;
                && e == null
                && (stale == null ==> Valid() && Lists(TOPICS, old(pools[TOPICS].free), old(pools[TOPICS].alloc)))
                && (stale != null ==>
                      (Valid() <==> stale.mem in old(pools[TOPICS].free) && stale.mem != old(pools[TOPICS].free)[0]))
                && (stale != null && old(pools[TOPICS].free) != [] && stale.mem == old(pools[TOPICS].free)[0] ==>
                      Looped(TOPICS, stale.mem))
      ensures readers.Valid()
      ensures ReaderStep(old(NextSlot(k)), old(pools[k].free) != [] && nameFits && typeSupported
                                           && Names(k, old(pools[TOPICS].free) != [], namesFit, agent))
    {
      hide Pools, PoolsBut, StaticPool, Slots, TopicsKnown, Linked, Valid, NextSlot, Created, Moved, Balanced;
      hide Took, Granted, Names, ReaderStep, Readers.Valid;
      ValidParts();
      NextSlotIs(k);
      ghost var slot;
      e, slot := Make(k, node, nameFits, typeSupported, namesFit, agent);
      BalancedThen(k);
      if e != null {
        Comes(e, node);
      } else if slot != null && pools[TOPICS].alloc == old(pools[TOPICS].alloc) {
        Stays(slot);
      }
      Settles(k, slot);
    }

    /**
     * Creation of an entity of kind `k`. It fails without a trace once its name and type were accepted. Before
     * that, the topic its slot was last used with is put back a second time, which is harmless only if that topic
     * is free and not the one to be handed out next.
     */
    method Create(k: EntityKind, node: Node, nameFits: bool, typeSupported: bool, namesFit: bool, agent: Answers)
        returns (e: Entity?)
      requires |pools| == 6 && Valid() && node in nodeSlots && readers.Valid()
      modifies pools[k], pools[k].items`prev, pools[k].items`next, entitySlots
      modifies pools[TOPICS], pools[TOPICS].items`prev, pools[TOPICS].items`next, topicSlots
      modifies readers, readers.session`idDatareader, readers.subscriptions`datareaderId
      ensures Slots() && PoolsKept(k) && OthersKept(old(NextSlot(k)))
      ensures e != null <==>
                && old(node.live) && old(pools[k].free) != [] && nameFits && typeSupported && namesFit && agent.first
                && (k == PUBLISHERS || k == SUBSCRIPTIONS ==>
                      old(pools[TOPICS].free) != [] && agent.topic && agent.second)
      ensures e != null ==>
                && Valid() && old(node.live) && nameFits && typeSupported && e == old(NextSlot(k))
                && Created(e, node, old(pools[k].free), old(pools[k].alloc),
                           old(pools[TOPICS].free), old(pools[TOPICS].alloc))
      ensures e == null ==> Lists(k, old(pools[k].free), old(pools[k].alloc))
      ensures e == null && (!old(node.live) || old(pools[k].free) == [] || (nameFits && typeSupported)) ==>
                Valid() && Lists(TOPICS, old(pools[TOPICS].free), old(pools[TOPICS].alloc))
      ensures old(node.live) && old(pools[k].free) != [] && !(nameFits && typeSupported) ==>
                var stale := if Topical(k) then old(NextSlot(k).topic) else null;
                && e == null
                && (stale == null ==> Valid() && Lists(TOPICS, old(pools[TOPICS].free), old(pools[TOPICS].alloc)))
                && (stale != null ==>
                      (Valid() <==> stale.mem in old(pools[TOPICS].free) && stale.mem != old(pools[TOPICS].free)[0]))
                && (stale != null && old(pools[TOPICS].free) != [] && stale.mem == old(pools[TOPICS].free)[0] ==>
                      Looped(TOPICS, stale.mem))
      ensures readers.Valid()
      ensures ReaderStep(old(NextSlot(k)),
                         && k == SUBSCRIPTIONS && old(node.live) && old(pools[k].free) != [] && nameFits
                         && typeSupported && old(pools[TOPICS].free) != [] && namesFit && agent.topic && agent.first)
    {
      hide Pools, PoolsBut, StaticPool, Slots, TopicsKnown, Linked, Valid, NextSlot, Created, Balanced, Readers.Valid;
      ValidParts();
      e := null;
      if node.live {
        e := Begin(k, node, nameFits, typeSupported, namesFit, agent);
      }
    }

    // ---------------------------------------------------------------- destruction

    /** Puts a topic back, whether or not the agent confirms that it is deleted. */
    method DestroyTopic(topic: Topic, confirmed: bool) returns (ret: Ret)
      requires |pools| == 6 && Pools() && Slots() && topic in topicSlots && topic.mem in pools[TOPICS].alloc
      modifies pools[TOPICS], pools[TOPICS].items`prev, pools[TOPICS].items`next, topic`ownerNode
      ensures Pools() && Slots() && pools[TOPICS].items == old(pools[TOPICS].items)
      ensures forall j :: 0 <= j < 6 && j != TOPICS ==> unchanged(pools[j])
      ensures old(topic.ownerNode) == null ==> ret == Error && unchanged(pools[TOPICS])
      ensures old(topic.ownerNode) != null ==>
                && ret == (if confirmed then Ok else Timeout)
                && topic.ownerNode == null && topic.mem in old(pools[TOPICS].alloc)
                && Lists(TOPICS, [topic.mem] + old(pools[TOPICS].free),
                         Mempool.Without(old(pools[TOPICS].alloc), topic.mem))
                && Used(TOPICS) == old(Used(TOPICS)) - {topic.mem}
    {
      hide PoolsBut, StaticPool, Slots;
      if topic.ownerNode != null {
        ret := if confirmed then Ok else Timeout;
        PoolSound(TOPICS, NONE);
        TopicSlot(topic);
        Placed(TOPICS, topic.mem);
        FiniTopicMemory(topic);
      } else {
        ret := Error;
      }
    }

    lemma LiveEntity(e: Entity)
      requires |pools| == 6 && Pools() && Slots() && Linked() && e in entitySlots && e.live
      ensures InUse(e) && e.mem in pools[e.kind].alloc
      ensures Topical(e.kind) ==> e.topic.mem in pools[TOPICS].alloc
    {
    }

    /** The pools after the destruction of an entity in use. */
    method Release(e: Entity, agent: Answers) returns (ret: Ret)
      requires |pools| == 6 && Pools() && Slots() && e in entitySlots && e.mem in pools[e.kind].alloc
      requires Topical(e.kind) ==>
                 && e.topic != null && e.topic in topicSlots && e.topic.ownerNode != null
                 && e.topic.mem in pools[TOPICS].alloc
      modifies pools[e.kind], pools[e.kind].items`prev, pools[e.kind].items`next, e`live
      modifies pools[TOPICS], pools[TOPICS].items`prev, pools[TOPICS].items`next, topicSlots`ownerNode
      ensures Pools() && Slots() && PoolsKept(e.kind) && !e.live
      ensures ret == if Deleted(e.kind, agent) then Ok else Timeout
      ensures pools[e.kind].items == old(pools[e.kind].items) && pools[TOPICS].items == old(pools[TOPICS].items)
      ensures forall t :: t in topicSlots && (Topical(e.kind) ==> t != e.topic) ==> unchanged(t)
      ensures e.mem in old(pools[e.kind].alloc)
      ensures Lists(e.kind, [e.mem] + old(pools[e.kind].free), Mempool.Without(old(pools[e.kind].alloc), e.mem))
      ensures Used(e.kind) == old(Used(e.kind)) - {e.mem}
      ensures !Topical(e.kind) ==> unchanged(pools[TOPICS])
      ensures Topical(e.kind) ==>
                && e.topic.mem in old(pools[TOPICS].alloc)
                && Lists(TOPICS, [e.topic.mem] + old(pools[TOPICS].free),
                         Mempool.Without(old(pools[TOPICS].alloc), e.topic.mem))
                && Used(TOPICS) == old(Used(TOPICS)) - {e.topic.mem}
    {
      hide PoolsBut, StaticPool, Slots, Used;
      if e.kind != PUBLISHERS {
        var cancelled := agent.cancel;
      }
      if Topical(e.kind) {
        var topicRet := DestroyTopic(e.topic, agent.topic);
      }
      var confirmed := agent.first;
      if Topical(e.kind) {
        confirmed := agent.second && confirmed;
      }
      ret := if confirmed then Ok else Timeout;
      FiniMemory(e, NONE);
    }

    /**
     * Destruction of an entity: a stale handle, of the entity or of the node it is destroyed through, is refused; a
     * live entity goes out of use together with its topic.
     */
    method Destroy(node: Node, e: Entity, agent: Answers) returns (ret: Ret)
      requires |pools| == 6 && Valid() && e in entitySlots
      modifies pools[e.kind], pools[e.kind].items`prev, pools[e.kind].items`next, e`live
      modifies pools[TOPICS], pools[TOPICS].items`prev, pools[TOPICS].items`next, topicSlots`ownerNode
      ensures Valid() && PoolsKept(e.kind) && OthersKept(e)
      ensures pools[e.kind].items == old(pools[e.kind].items) && pools[TOPICS].items == old(pools[TOPICS].items)
      ensures !(old(node.live) && old(e.live)) ==>
                && ret == Error && unchanged(e) && unchanged(pools[e.kind], pools[TOPICS])
                && forall t :: t in topicSlots ==> unchanged(t)
      ensures Used(TOPICS) <= old(Used(TOPICS))
      ensures old(node.live) && old(e.live) ==>
                && ret == (if agent.first && (e.kind == PUBLISHERS || e.kind == SUBSCRIPTIONS ==> agent.second)
                           then Ok else Timeout)
                && !e.live && e.mem in old(pools[e.kind].alloc)
                && Lists(e.kind, [e.mem] + old(pools[e.kind].free), Mempool.Without(old(pools[e.kind].alloc), e.mem))
      ensures old(node.live) && old(e.live) && !Topical(e.kind) ==> unchanged(pools[TOPICS])
      ensures old(node.live) && old(e.live) && Topical(e.kind) ==>
                && e.topic != null && e.topic.mem in old(pools[TOPICS].alloc)
                && Lists(TOPICS, [e.topic.mem] + old(pools[TOPICS].free),
                         Mempool.Without(old(pools[TOPICS].alloc), e.topic.mem))
    {
      hide Pools, PoolsBut, StaticPool, Slots, TopicsKnown, Linked, Valid, Balanced, Moved;
      ValidParts();
      if !node.live || !e.live {
        ret := Error;
      } else {
        LiveEntity(e);
        ret := Release(e, agent);
        assert OthersKept(e);
        Goes(e);
        BalancedThen(e.kind);
        Settles(e.kind, e);
      }
    }

    twostate lemma Goes(new e: Entity)
      requires |pools| == 6 && e in entitySlots && !e.live
      requires Used(e.kind) == old(Used(e.kind)) - {e.mem}
      requires if Topical(e.kind) then old(e.topic) != null && Used(TOPICS) == old(Used(TOPICS)) - {old(e.topic).mem}
               else Used(TOPICS) == old(Used(TOPICS))
      requires old(e.mem in Used(e.kind))
      ensures Moved(e)
    {
    }

    // ---------------------------------------------------------------- nodes

    /** The slots whose owner is, or for a free slot was last, the node. */
    ghost function OwnedBy(node: Node): (d: set<Item>)
      reads entitySlots`ownerNode
      ensures forall e :: e in entitySlots && e.ownerNode == node ==> e.mem in d
    {
      set e | e in entitySlots && e.ownerNode == node :: e.mem
    }

    lemma OwnedExactly(e: Entity, node: Node)
      requires |pools| == 6 && Slots() && e in entitySlots
      ensures e.mem in OwnedBy(node) <==> e.ownerNode == node
    {
      forall q | q in entitySlots
        ensures q.mem == e.mem ==> q == e
      {
        EntitySlot(q);
        EntitySlot(e);
      }
    }

    ghost function LiveEntities(): set<Entity>
      reads entitySlots`live
    {
      set e | e in entitySlots && e.live
    }

    /** Of the entities in `l` and the topics in `t`, entities of the node and topics may have gone out of use. */
    ghost predicate Shrunk(node: Node, l: set<Entity>, t: set<Item>)
      requires |pools| == 6
      reads entitySlots`live, entitySlots`ownerNode, pools
    {
      && (forall e {:trigger e in entitySlots} :: e in entitySlots ==>
            (e.live ==> e in l) && (e in l && e.ownerNode != node ==> e.live))
      && Used(TOPICS) <= t
    }

    lemma FirstEntity(k: EntityKind)
      requires |pools| == 6 && Pools()
      ensures pools[k].allocateditems == Nth(pools[k].alloc, 0)
    {
      PoolSound(k, NONE);
      pools[k].WalkAllocated(0);
    }

    lemma NoDuplicates(k: nat)
      requires |pools| == 6 && Pools() && k < 6
      ensures NoDup(pools[k].alloc)
    {
    }

    /** The entity at a place of the list of a pool, and the place after it. */
    lemma EntityAt(k: EntityKind, j: nat)
      requires |pools| == 6 && Pools() && Slots() && Linked() && j < |pools[k].alloc|
      ensures var x := pools[k].alloc[j];
              && InEntity(k, x) && Base(x.data).live && x in pools[k].items
              && x.next == Nth(pools[k].alloc, j + 1)
    {
      PoolSound(k, NONE);
      pools[k].WalkAllocated(j);
      EntityItem(k, pools[k].alloc[j]);
    }

    /** One step of a walk. */
    method DestroyOne(e: Entity, node: Node, agent: Answers, ghost l: set<Entity>, ghost t: set<Item>)
        returns (ret: Ret)
      requires |pools| == 6 && Valid() && e in entitySlots && e.live && e.ownerNode == node && Shrunk(node, l, t)
      modifies pools[e.kind], pools[e.kind].items`prev, pools[e.kind].items`next, e`live
      modifies pools[TOPICS], pools[TOPICS].items`prev, pools[TOPICS].items`next, topicSlots`ownerNode
      ensures Valid() && PoolsKept(e.kind) && Shrunk(node, l, t)
      ensures ret == if Deleted(e.kind, agent) then Ok else Timeout
      ensures pools[e.kind].items == old(pools[e.kind].items) && pools[TOPICS].items == old(pools[TOPICS].items)
      ensures e.mem in old(pools[e.kind].alloc)
      ensures pools[e.kind].alloc == Mempool.Without(old(pools[e.kind].alloc), e.mem)
    {
      hide Pools, PoolsBut, StaticPool, Slots, TopicsKnown, Linked, Valid, Balanced, NoDup;
      ValidParts();
      LiveEntity(e);
      ret := Destroy(node, e, agent);
    }

    /** Reads off the entity of an item and moves on to the next item of the list. */
    method Advance(k: EntityKind, item: Item, ghost s: seq<Item>, ghost d: set<Item>, ghost i: nat)
        returns (e: Entity, next: Item?)
      requires |pools| == 6 && Valid() && Walked(pools[k].alloc, s, d, i) && item == Nth(s, i)
      ensures e in entitySlots && e.kind == k && e.live && e.mem == item && next == Nth(s, i + 1)
      ensures NoDup(pools[k].alloc)
    {
      hide Pools, PoolsBut, StaticPool, Slots, TopicsKnown, Linked, Valid, Balanced, NoDup, Walked;
      ValidParts();
      ghost var j := WalkStands(pools[k].alloc, s, d, i);
      EntityAt(k, j);
      NoDuplicates(k);
      e := Base(item.data);
      next := item.next;
    }

    /** One step of a walk. */
    method Visit(k: EntityKind, node: Node, item: Item, agent: Item -> Answers, before: Ret,
                 ghost s: seq<Item>, ghost i: nat, ghost l: set<Entity>, ghost t: set<Item>)
        returns (next: Item?, ret: Ret)
      requires |pools| == 6 && Valid() && before != Error && Shrunk(node, l, t)
      requires Walked(pools[k].alloc, s, OwnedBy(node), i) && item == Nth(s, i)
      modifies pools[k], pools[k].items`prev, pools[k].items`next, entitySlots`live
      modifies pools[TOPICS], pools[TOPICS].items`prev, pools[TOPICS].items`next, topicSlots`ownerNode
      ensures Valid() && PoolsKept(k) && ret != Error && Shrunk(node, l, t)
      ensures ret == if s[i] !in OwnedBy(node) then before else if Deleted(k, agent(s[i])) then Ok else Timeout
      ensures pools[k].items == old(pools[k].items) && pools[TOPICS].items == old(pools[TOPICS].items)
      ensures Walked(pools[k].alloc, s, OwnedBy(node), i + 1) && next == Nth(s, i + 1)
    {
      hide Pools, PoolsBut, StaticPool, Slots, TopicsKnown, Linked, Valid, Balanced, Minus, NoDup, Walked, OwnedBy;
      hide Shrunk, Lists;
      var e;
      e, next := Advance(k, item, s, OwnedBy(node), i);
      ValidParts();
      OwnedExactly(e, node);
      WalkSteps(pools[k].alloc, s, OwnedBy(node), i);
      ret := before;
      if e.ownerNode == node {
        ret := DestroyOne(e, node, agent(item), l, t);
      }
    }

    /** What a walk returns: the result for the last entity it destroys, and what was there before if there is none. */
    ghost function AfterWalk(k: EntityKind, s: seq<Item>, d: set<Item>, agent: Item -> Answers, before: Ret): Ret {
      var x := LastIn(s, d);
      if x == null then before else if Deleted(k, agent(x)) then Ok else Timeout
    }

    lemma AfterStep(k: EntityKind, s: seq<Item>, i: nat, d: set<Item>, agent: Item -> Answers, before: Ret)
      requires i <= |s|
      ensures AfterWalk(k, s[..0], d, agent, before) == before
      ensures i < |s| ==>
                AfterWalk(k, s[..i + 1], d, agent, before)
                == if s[i] !in d then AfterWalk(k, s[..i], d, agent, before)
                   else if Deleted(k, agent(s[i])) then Ok else Timeout
      ensures i == |s| ==> s[..i] == s
    {
      if i < |s| {
        LastInStep(s, d, i);
      }
    }

    /** One of the four walks of `DestroyNode`: destroys the entities of the node on a list that shrinks meanwhile. */
    method DestroyOwned(k: EntityKind, node: Node, agent: Item -> Answers, before: Ret,
                        ghost l: set<Entity>, ghost t: set<Item>)
        returns (ret: Ret)
      requires |pools| == 6 && Valid() && before != Error && Shrunk(node, l, t)
      modifies pools[k], pools[k].items`prev, pools[k].items`next, entitySlots`live
      modifies pools[TOPICS], pools[TOPICS].items`prev, pools[TOPICS].items`next, topicSlots`ownerNode
      ensures Valid() && PoolsKept(k) && ret != Error && Shrunk(node, l, t)
      ensures ret == AfterWalk(k, old(pools[k].alloc), OwnedBy(node), agent, before)
      ensures pools[k].alloc == Minus(old(pools[k].alloc), OwnedBy(node))
      ensures pools[k].items == old(pools[k].items) && pools[TOPICS].items == old(pools[TOPICS].items)
    {
      hide Pools, PoolsBut, StaticPool, Slots, TopicsKnown, Linked, Valid, Balanced, Minus, NoDup, Walked, OwnedBy;
      hide Shrunk, Lists, AfterWalk, Deleted, LastIn, Used;
      ret := before;
      ghost var s, i := pools[k].alloc, 0;
      ValidParts();
      FirstEntity(k);
      WalkStarts(s, OwnedBy(node));
      AfterStep(k, s, 0, OwnedBy(node), agent, before);
      var item := pools[k].allocateditems;
      while item != null && ret != Error
        invariant Valid() && PoolsKept(k) && ret != Error && Shrunk(node, l, t)
        invariant pools[k].items == old(pools[k].items) && pools[TOPICS].items == old(pools[TOPICS].items)
        invariant i <= |s| && Walked(pools[k].alloc, s, OwnedBy(node), i) && item == Nth(s, i)
        invariant ret == AfterWalk(k, s[..i], OwnedBy(node), agent, before)
        decreases |s| - i
      {
        AfterStep(k, s, i, OwnedBy(node), agent, before);
        item, ret := Visit(k, node, item, agent, ret, s, i, l, t);
        i := i + 1;
      }
      AfterStep(k, s, i, OwnedBy(node), agent, before);
      WalkEnds(pools[k].alloc, s, OwnedBy(node));
    }

    /** A node comes into use, or goes out of use without leaving an entity behind. */
    twostate lemma NodeMoves(new n: Node)
      requires |pools| == 6 && old(Valid()) && Pools() && Slots() && n in nodeSlots
      requires forall j :: 1 <= j < 6 ==> unchanged(pools[j])
      requires forall m :: m in nodeSlots && m != n ==> unchanged(m)
      requires forall e :: e in entitySlots ==> unchanged(e)
      requires forall u :: u in topicSlots ==> unchanged(u)
      requires n.live ==> n.context == readers.session && Used(NODES) == old(Used(NODES)) + {n.mem}
      requires !n.live ==>
                 && Used(NODES) == old(Used(NODES)) - {n.mem}
                 && (old(n.live) ==> forall e :: e in entitySlots && e.live ==> e.ownerNode != n)
      ensures Valid()
    {
      forall m | m in nodeSlots
        ensures m.mem == n.mem ==> m == n
      {
        NodeSlot(m);
      }
    }

    /** Clears the handle and the context of a node and puts its slot back. */
    method FiniNodeMemory(n: Node)
      requires |pools| == 6 && Pools() && Slots() && n in nodeSlots && n.mem in pools[NODES].alloc
      modifies pools[NODES], pools[NODES].items`prev, pools[NODES].items`next, n
      ensures Pools() && Slots() && !n.live && n.context == null && pools[NODES].items == old(pools[NODES].items)
      ensures forall j :: 1 <= j < 6 ==> unchanged(pools[j])
      ensures n.mem in old(pools[NODES].alloc)
      ensures Lists(NODES, [n.mem] + old(pools[NODES].free), Mempool.Without(old(pools[NODES].alloc), n.mem))
      ensures Used(NODES) == old(Used(NODES)) - {n.mem}
    {
      hide PoolsBut, StaticPool, Slots;
      PoolSound(NODES, NONE);
      NodeSlot(n);
      Placed(NODES, n.mem);
      n.context := null;
      Put(NODES, n.mem, NONE);
      n.live := false;
    }

    /** First part of `CreateNode`: a slot with a live handle. */
    method OpenNode() returns (node: Node?)
      requires |pools| == 6 && Pools() && Slots()
      modifies pools[NODES], pools[NODES].items`prev, pools[NODES].items`next, nodeSlots
      ensures Pools() && Slots() && forall j :: 1 <= j < 6 ==> unchanged(pools[j])
      ensures pools[NODES].items == old(pools[NODES].items)
      ensures node == null <==> old(pools[NODES].free) == []
      ensures node == null ==> Lists(NODES, old(pools[NODES].free), old(pools[NODES].alloc))
      ensures node != null ==>
                && node in nodeSlots && node.live && node.context == readers.session && node.mem in pools[NODES].alloc
                && node.mem !in old(Used(NODES)) && Used(NODES) == old(Used(NODES)) + {node.mem}
                && Took(NODES, node.mem, old(pools[NODES].free), old(pools[NODES].alloc))
      ensures forall n :: n in nodeSlots && n != node ==> unchanged(n)
    {
      hide PoolsBut, StaticPool, Slots;
      node := null;
      var item := Grab(NODES);
      if item != null {
        NodeItem(item);
        node := item.data as Node;
        node.context := readers.session;
        node.live := true;
      }
    }

    /** Creation of a node, which fails without a trace. */
    method CreateNode(nameFits: bool, namespaceFits: bool, confirmed: bool) returns (node: Node?)
      requires |pools| == 6 && Valid()
      modifies pools[NODES], pools[NODES].items`prev, pools[NODES].items`next, nodeSlots
      ensures Valid() && forall j :: 1 <= j < 6 ==> unchanged(pools[j])
      ensures node != null <==> old(pools[NODES].free) != [] && nameFits && namespaceFits && confirmed
      ensures node == null ==> Lists(NODES, old(pools[NODES].free), old(pools[NODES].alloc))
      ensures node != null ==>
                && nameFits && namespaceFits && node in nodeSlots && node.live
                && Took(NODES, node.mem, old(pools[NODES].free), old(pools[NODES].alloc))
      ensures forall n :: n in nodeSlots && (node == null ==> n.mem in old(Used(NODES))) && n != node ==> unchanged(n)
    {
      hide Pools, PoolsBut, StaticPool, Slots, TopicsKnown, Linked, Valid, Balanced, Took;
      ValidParts();
      node := OpenNode();
      ghost var n := node;
      if node != null {
        if !nameFits || !namespaceFits || !confirmed {
          TookBack(NODES, node.mem, old(pools[NODES].free), old(pools[NODES].alloc));
          FiniNodeMemory(node);
          node := null;
        }
        NodeMoves(n);
      } else {
        NobodyCame();
      }
    }

    twostate lemma NobodyCame()
      requires |pools| == 6 && old(Valid()) && Pools() && Slots()
      requires forall j :: 1 <= j < 6 ==> unchanged(pools[j])
      requires pools[NODES].alloc == old(pools[NODES].alloc)
      requires forall m :: m in nodeSlots ==> unchanged(m)
      requires forall e :: e in entitySlots ==> unchanged(e)
      requires forall u :: u in topicSlots ==> unchanged(u)
      ensures Valid()
    {
    }

    /** After the four walks the node owns nothing that is in use. */
    lemma NoneOwned(node: Node, s: seq<seq<Item>>)
      requires |pools| == 6 && Slots() && Linked() && |s| == 6
      requires forall k: EntityKind :: pools[k].alloc == Minus(s[k], OwnedBy(node))
      ensures forall e :: e in entitySlots && e.live ==> e.ownerNode != node
    {
      forall e | e in entitySlots && e.live
        ensures e.ownerNode != node
      {
        MinusElems(s[e.kind], OwnedBy(node));
        assert e.mem in Used(e.kind);
      }
    }

    /** Every topic in `t` was in use, for an entity in `l`. */
    ghost predicate HeldBy(l: set<Entity>, t: set<Item>)
      reads topicSlots`holder, entitySlots`topic
    {
      forall u {:trigger u in topicSlots} :: u in topicSlots && u.mem in t ==>
        && u.holder != null && u.holder in entitySlots && u.holder in l && Topical(u.holder.kind) && u.holder.topic == u
    }

    lemma HeldAtFirst()
      requires |pools| == 6 && Linked()
      ensures HeldBy(LiveEntities(), Used(TOPICS))
    {
    }

    /** The topics that the walks put back are exactly those of the node's entities. */
    lemma TopicsGone(node: Node, l: set<Entity>, t: set<Item>)
      requires |pools| == 6 && Linked() && Shrunk(node, l, t) && HeldBy(l, t)
      requires forall e :: e in entitySlots && e.live ==> e.ownerNode != node
      ensures forall u {:trigger u in topicSlots} :: u in topicSlots ==>
                (u.mem in Used(TOPICS) <==>
                   u.mem in t && u.holder != null && u.holder in entitySlots && u.holder.ownerNode != node)
    {
      forall u | u in topicSlots && u.mem in t && u.holder.ownerNode != node
        ensures u.mem in Used(TOPICS)
      {
        assert InUse(u.holder);
      }
    }

    /** The allocated lists of all pools. */
    ghost function Allocated(): (s: seq<seq<Item>>)
      reads pools
      ensures |s| == |pools| && forall k {:trigger s[k]} :: 0 <= k < |s| ==> s[k] == pools[k].alloc
    {
      seq(|pools|, k requires 0 <= k < |pools| reads pools => pools[k].alloc)
    }

    /** The lists of the first `n` kinds of entity have been walked. */
    ghost predicate Cleared(n: nat, node: Node, s: seq<seq<Item>>)
      requires |pools| == |s| == 6
      reads pools, entitySlots`ownerNode
    {
      forall k: EntityKind :: pools[k].alloc == if k <= n then Minus(s[k], OwnedBy(node)) else s[k]
    }

    /** The result of the walks over the lists of the first `n` kinds of entity. */
    ghost function AfterWalks(n: nat, node: Node, s: seq<seq<Item>>, agent: Item -> Answers): Ret
      requires n <= CLIENTS && |s| == 6
      reads entitySlots`ownerNode
    {
      if n == 0 then Ok else AfterWalk(n, s[n], OwnedBy(node), agent, AfterWalks(n - 1, node, s, agent))
    }

    /** The lists of the first `n` kinds have been walked. */
    ghost predicate Walking(n: nat, node: Node, agent: Item -> Answers, ret: Ret,
                            l: set<Entity>, t: set<Item>, s: seq<seq<Item>>)
      requires |pools| == |s| == 6
      reads pools, entitySlots`live, entitySlots`ownerNode
    {
      && n <= CLIENTS && Shrunk(node, l, t) && Cleared(n, node, s)
      && ret != Error && ret == AfterWalks(n, node, s, agent)
    }

    /** One walk, after those over the lists before it. */
    method Clear(k: EntityKind, node: Node, agent: Item -> Answers, before: Ret,
                 ghost l: set<Entity>, ghost t: set<Item>, ghost s: seq<seq<Item>>)
        returns (ret: Ret)
      requires |pools| == |s| == 6 && Valid() && Walking(k - 1, node, agent, before, l, t, s)
      modifies pools[k], pools[k].items`prev, pools[k].items`next, entitySlots`live
      modifies pools[TOPICS], pools[TOPICS].items`prev, pools[TOPICS].items`next, topicSlots`ownerNode
      ensures Valid() && unchanged(pools[NODES]) && Walking(k, node, agent, ret, l, t, s)
      ensures forall j :: 0 <= j < 6 ==> pools[j].items == old(pools[j].items)
    {
      hide Pools, PoolsBut, StaticPool, Slots, TopicsKnown, Linked, Valid, Balanced, Minus, OwnedBy, Shrunk;
      hide AfterWalk;
      ret := DestroyOwned(k, node, agent, before, l, t);
    }

    /** The last entity of the node in the four lists `s`, one after the other, is of kind `k`. */
    ghost predicate IsLast(k: EntityKind, node: Node, s: seq<seq<Item>>)
      requires |s| == 6
      reads entitySlots`ownerNode
    {
      LastIn(s[k], OwnedBy(node)) != null && forall j: EntityKind :: k < j ==> LastIn(s[j], OwnedBy(node)) == null
    }

    /** The agent confirms the deletion of the entity of the node that is destroyed last, if the node has one. */
    ghost predicate LastDeleted(node: Node, s: seq<seq<Item>>, agent: Item -> Answers)
      requires |s| == 6
      reads entitySlots`ownerNode
    {
      forall k: EntityKind :: IsLast(k, node, s) ==> Deleted(k, agent(LastIn(s[k], OwnedBy(node))))
    }

    lemma WalkingEnds(node: Node, agent: Item -> Answers, ret: Ret, l: set<Entity>, t: set<Item>, s: seq<seq<Item>>)
      requires |pools| == |s| == 6 && Walking(CLIENTS, node, agent, ret, l, t, s)
      ensures ret != Error && Shrunk(node, l, t) && Cleared(CLIENTS, node, s)
      ensures ret == Ok <==> LastDeleted(node, s, agent)
    {
      hide OwnedBy, LastIn, Deleted, Cleared, Shrunk;
      var d := OwnedBy(node);
      assert AfterWalks(PUBLISHERS, node, s, agent) == AfterWalk(PUBLISHERS, s[PUBLISHERS], d, agent, Ok);
      assert AfterWalks(SERVICES, node, s, agent)
          == AfterWalk(SERVICES, s[SERVICES], d, agent, AfterWalks(SUBSCRIPTIONS, node, s, agent));
      if LastIn(s[CLIENTS], d) != null {
        assert IsLast(CLIENTS, node, s);
      } else if LastIn(s[SERVICES], d) != null {
        assert IsLast(SERVICES, node, s);
      } else if LastIn(s[SUBSCRIPTIONS], d) != null {
        assert IsLast(SUBSCRIPTIONS, node, s);
      } else if LastIn(s[PUBLISHERS], d) != null {
        assert IsLast(PUBLISHERS, node, s);
      }
    }

    lemma WalkingStarts(node: Node, agent: Item -> Answers)
      requires |pools| == 6
      ensures Walking(0, node, agent, Ok, LiveEntities(), Used(TOPICS), Allocated())
    {
    }

    /** The four walks of `DestroyNode`. */
    method DestroyEntities(node: Node, agent: Item -> Answers,
                           ghost l: set<Entity>, ghost t: set<Item>, ghost s: seq<seq<Item>>)
        returns (ret: Ret)
      requires |pools| == |s| == 6 && Valid() && Walking(0, node, agent, Ok, l, t, s)
      modifies pools, (set p, x | p in pools && x in p.items :: x)`prev
      modifies (set p, x | p in pools && x in p.items :: x)`next
      modifies entitySlots`live, topicSlots`ownerNode
      ensures Valid() && unchanged(pools[NODES]) && Walking(CLIENTS, node, agent, ret, l, t, s)
      ensures forall j :: 0 <= j < 6 ==> pools[j].items == old(pools[j].items)
    {
      hide Pools, PoolsBut, StaticPool, Slots, TopicsKnown, Linked, Valid, Balanced, Walking;
      ret := Clear(PUBLISHERS, node, agent, Ok, l, t, s);
      ret := Clear(SUBSCRIPTIONS, node, agent, ret, l, t, s);
      ret := Clear(SERVICES, node, agent, ret, l, t, s);
      ret := Clear(CLIENTS, node, agent, ret, l, t, s);
    }

    lemma LiveNode(node: Node)
      requires |pools| == 6 && Pools() && Linked() && node in nodeSlots && node.live
      ensures node.mem in pools[NODES].alloc
    {
    }

    /** The entities of other nodes are the ones that stay in use, each list in the order it had. */
    ghost predicate Survived(node: Node, l: set<Entity>, t: set<Item>, s: seq<seq<Item>>)
      requires |pools| == |s| == 6
      reads pools, entitySlots, topicSlots
    {
      && Cleared(CLIENTS, node, s)
      && (forall e {:trigger e in entitySlots} :: e in entitySlots ==> (e.live <==> e in l && e.ownerNode != node))
      && (forall u {:trigger u in topicSlots} :: u in topicSlots ==>
            (u.mem in Used(TOPICS) <==>
               u.mem in t && u.holder != null && u.holder in entitySlots && u.holder.ownerNode != node))
    }

    lemma SurvivedThen(node: Node, l: set<Entity>, t: set<Item>, s: seq<seq<Item>>)
      requires |pools| == |s| == 6 && Slots() && Linked() && Shrunk(node, l, t) && HeldBy(l, t)
      requires Cleared(CLIENTS, node, s)
      ensures Survived(node, l, t, s)
    {
      NoneOwned(node, s);
      TopicsGone(node, l, t);
    }

    /** The end of `DestroyNode`, when nothing of the node is in use any more. */
    method LeaveNode(node: Node, confirmed: bool, before: Ret,
                     ghost l: set<Entity>, ghost t: set<Item>, ghost s: seq<seq<Item>>)
        returns (ret: Ret)
      requires |pools| == 6 && Valid() && node in nodeSlots && node.live && before != Error
      requires |s| == 6 && Survived(node, l, t, s)
      modifies pools[NODES], pools[NODES].items`prev, pools[NODES].items`next, node
      ensures Valid() && !node.live && ret == (if confirmed then before else Timeout) && Survived(node, l, t, s)
      ensures forall j :: 0 <= j < 6 ==> pools[j].items == old(pools[j].items)
      ensures node.mem in old(pools[NODES].alloc)
      ensures Lists(NODES, [node.mem] + old(pools[NODES].free), Mempool.Without(old(pools[NODES].alloc), node.mem))
    {
      hide Pools, PoolsBut, StaticPool, Slots, TopicsKnown, Linked, Valid, Balanced, Minus, OwnedBy;
      ValidParts();
      LiveNode(node);
      ret := if confirmed then before else Timeout;
      FiniNodeMemory(node);
      NodeMoves(node);
    }

    /** `DestroyNode` on a live node. */
    method EndNode(node: Node, agent: Item -> Answers, confirmed: bool) returns (ret: Ret)
      requires |pools| == 6 && Valid() && node in nodeSlots && node.live
      modifies pools, (set p, x | p in pools && x in p.items :: x)`prev
      modifies (set p, x | p in pools && x in p.items :: x)`next
      modifies entitySlots`live, topicSlots`ownerNode, node
      ensures Valid() && !node.live && forall j :: 0 <= j < 6 ==> pools[j].items == old(pools[j].items)
      ensures ret != Error && (ret == Ok <==> confirmed && LastDeleted(node, old(Allocated()), agent))
      ensures node.mem in old(pools[NODES].alloc)
      ensures Lists(NODES, [node.mem] + old(pools[NODES].free), Mempool.Without(old(pools[NODES].alloc), node.mem))
      ensures Survived(node, old(LiveEntities()), old(Used(TOPICS)), old(Allocated()))
    {
      hide Pools, PoolsBut, StaticPool, Slots, TopicsKnown, Linked, Valid, Balanced, Minus, OwnedBy, HeldBy, Shrunk;
      hide LiveEntities, Cleared, Survived, LastDeleted, Walking;
      ValidParts();
      ghost var l, t, s := LiveEntities(), Used(TOPICS), Allocated();
      HeldAtFirst();
      WalkingStarts(node, agent);
      ret := DestroyEntities(node, agent, l, t, s);
      WalkingEnds(node, agent, ret, l, t, s);
      ValidParts();
      SurvivedThen(node, l, t, s);
      ret := LeaveNode(node, confirmed, ret, l, t, s);
    }

    /**
     * Destruction of a node: every entity it owns goes out of use, with exactly the topics of these entities, and
     * then the node itself. The result tells whether the agent has confirmed the deletion of the node and of its
     * last entity.
     */
    method DestroyNode(node: Node, agent: Item -> Answers, confirmed: bool) returns (ret: Ret)
      requires |pools| == 6 && Valid() && node in nodeSlots
      modifies pools, (set p, x | p in pools && x in p.items :: x)`prev
      modifies (set p, x | p in pools && x in p.items :: x)`next
      modifies entitySlots`live, topicSlots`ownerNode, node
      ensures Valid() && !node.live && forall j :: 0 <= j < 6 ==> pools[j].items == old(pools[j].items)
      ensures !old(node.live) ==>
                && ret == Error && unchanged(node) && (forall j :: 0 <= j < 6 ==> unchanged(pools[j]))
                && (forall e :: e in entitySlots ==> unchanged(e)) && forall t :: t in topicSlots ==> unchanged(t)
      ensures old(node.live) ==>
                && ret != Error && (ret == Ok <==> confirmed && LastDeleted(node, old(Allocated()), agent))
                && node.mem in old(pools[NODES].alloc)
                && Lists(NODES, [node.mem] + old(pools[NODES].free), Mempool.Without(old(pools[NODES].alloc), node.mem))
                && Survived(node, old(LiveEntities()), old(Used(TOPICS)), old(Allocated()))
    {
      hide Valid, LiveEntities, Survived, LastDeleted, Allocated, Lists;
      if node.live {
        ret := EndNode(node, agent, confirmed);
      } else {
        ret := Error;
      }
    }

    // ---------------------------------------------------------------- consequences

    /** A node that is not in use has no entity that is. */
    lemma StaleOwnsNothing(node: Node)
      requires |pools| == 6 && Valid() && !node.live
      ensures forall e :: e in entitySlots && e.live ==> e.ownerNode != node
    {
    }

    /** Topics in use and publishers and subscriptions in use correspond one to one. */
    lemma TopicBijection()
      requires |pools| == 6 && Valid()
      ensures forall e {:trigger e in entitySlots} :: e in entitySlots && e.live && Topical(e.kind) ==>
                e.topic != null && e.topic in topicSlots && e.topic.mem in Used(TOPICS)
      ensures forall e, q :: e in entitySlots && q in entitySlots && e.live && q.live
                             && Topical(e.kind) && Topical(q.kind) ==>
                (e.topic == q.topic ==> e == q)
      ensures forall t {:trigger t in topicSlots} :: t in topicSlots && t.mem in Used(TOPICS) ==>
                exists e :: e in entitySlots && e.live && Topical(e.kind) && e.topic == t
    {
      forall t | t in topicSlots && t.mem in Used(TOPICS)
        ensures exists e :: e in entitySlots && e.live && Topical(e.kind) && e.topic == t
      {
        var e := t.holder;
        assert e in entitySlots && e.live && Topical(e.kind) && e.topic == t;
      }
    }

    /** With at least as many topics as publishers and subscriptions, a creation that got a slot also gets a topic. */
    lemma TopicAvailable(k: EntityKind)
      requires |pools| == 6 && Valid() && Topical(k) && pools[k].free != []
      requires |pools[TOPICS].items| >= |pools[PUBLISHERS].items| + |pools[SUBSCRIPTIONS].items|
      ensures pools[TOPICS].free != []
    {
      hide Slots, TopicsKnown, Linked, Pool.Valid;
      PoolSound(PUBLISHERS, NONE);
      PoolSound(SUBSCRIPTIONS, NONE);
      PoolSound(TOPICS, NONE);
      pools[PUBLISHERS].Conserved();
      pools[SUBSCRIPTIONS].Conserved();
      pools[TOPICS].Conserved();
    }

    /**
     * A live publisher or subscription is destroyed, and the next creation is turned down because of its name or
     * type. The topic of the destroyed entity is put back twice in a row, and the list of free topics ends up in a
     * loop.
     */
    method RejectAfterDestroy(e: Entity, node: Node, nameFits: bool, typeSupported: bool, namesFit: bool,
                              agent: Answers, again: Answers)
      requires |pools| == 6 && Valid() && readers.Valid() && node in nodeSlots && node.live
      requires e in entitySlots && e.live && Topical(e.kind) && !(nameFits && typeSupported)
      modifies pools[e.kind], pools[e.kind].items`prev, pools[e.kind].items`next, entitySlots
      modifies pools[TOPICS], pools[TOPICS].items`prev, pools[TOPICS].items`next, topicSlots
      modifies readers, readers.session`idDatareader, readers.subscriptions`datareaderId
      ensures old(e.topic) != null && Looped(TOPICS, old(e.topic).mem) && !Valid()
    {
      hide Pools, PoolsBut, StaticPool, Slots, TopicsKnown, Linked;
      hide Valid, Balanced, OthersKept, PoolsKept, Readers.Valid;
      hide ReaderStep, Looped, Created;
      var ret := Destroy(node, e, agent);
      ValidParts();
      NextIs(e);
      var rejected := Create(e.kind, node, nameFits, typeSupported, namesFit, again);
    }

    lemma ClientIsLast(c: Entity, node: Node, agent: Item -> Answers)
      requires |pools| == 6 && Valid() && c in entitySlots && c.live && c.ownerNode == node && c.kind == CLIENTS
      requires forall e :: e in entitySlots && e.kind == CLIENTS ==> agent(e.mem).first
      ensures LastDeleted(node, Allocated(), agent)
    {
      hide Pools, PoolsBut, StaticPool, Slots, TopicsKnown, Linked, Valid, Balanced, OwnedBy, LastIn;
      ValidParts();
      LiveEntity(c);
      OwnedExactly(c, node);
      var s, d := pools[CLIENTS].alloc, OwnedBy(node);
      LastInSome(s, d, c.mem);
      EntityAt(CLIENTS, IndexOf(s, LastIn(s, d)));
      assert LastIn(Allocated()[CLIENTS], d) != null;
      assert Base(LastIn(s, d).data).mem == LastIn(s, d);
      forall k: EntityKind | IsLast(k, node, Allocated())
        ensures Deleted(k, agent(LastIn(Allocated()[k], d)))
      {
        assert k == CLIENTS;
      }
    }

    /**
     * A node has a publisher and a client. That the agent does not confirm the deletion of the publisher is forgotten
     * once the deletions of the clients and of the node are confirmed.
     */
    method ForgetTimeout(p: Entity, c: Entity, node: Node, agent: Item -> Answers) returns (ret: Ret)
      requires |pools| == 6 && Valid() && node in nodeSlots && node.live
      requires p in entitySlots && p.live && p.ownerNode == node && p.kind == PUBLISHERS && !agent(p.mem).first
      requires c in entitySlots && c.live && c.ownerNode == node && c.kind == CLIENTS
      requires forall e :: e in entitySlots && e.kind == CLIENTS ==> agent(e.mem).first
      modifies pools, (set p, x | p in pools && x in p.items :: x)`prev
      modifies (set p, x | p in pools && x in p.items :: x)`next
      modifies entitySlots`live, topicSlots`ownerNode, node
      ensures ret == Ok && !node.live && !p.live && !c.live
    {
      hide Pools, PoolsBut, StaticPool, Slots, TopicsKnown, Linked, Valid, Balanced, OwnedBy, LastIn, LastDeleted;
      ClientIsLast(c, node, agent);
      ret := DestroyNode(node, agent, true);
    }

    lemma NextIs(e: Entity)
      requires |pools| == 6 && Pools() && Slots() && e in entitySlots && pools[e.kind].free != []
      requires pools[e.kind].free[0] == e.mem
      ensures NextSlot(e.kind) == e
    {
      EntitySlot(e);
    }

    // ---------------------------------------------------------------- dispatch

    /** The pools hold what the callbacks expect to find there. */
    lemma HoldEntities(cache: HistoryCache)
      requires |pools| == 6 && Pools() && Slots()
      requires cache.subscriptions == readers.subscriptions && cache.services == services && cache.clients == clients
      ensures HoldsSubscriptions(pools[SUBSCRIPTIONS], cache)
      ensures HoldsServices(pools[SERVICES], cache)
      ensures HoldsClients(pools[CLIENTS], cache)
    {
      PoolSound(SUBSCRIPTIONS, NONE);
      PoolSound(SERVICES, NONE);
      PoolSound(CLIENTS, NONE);
      hide Pool.Valid, Pools, PoolsBut;
    }

    /** The identifier of the reader in the slot of a subscription. */
    ghost function ReaderOf(e: Entity): ObjectId
      reads readers.subscriptions`datareaderId
    {
      if e.index < |readers.subscriptions| then readers.subscriptions[e.index].datareaderId else ObjectId(0, NoObject)
    }

    /** While at most 65536 readers have been created, a sample is for one live subscription, or for the graph. */
    lemma OneLiveReceiver(id: ObjectId)
      requires |pools| == 6 && Valid() && readers.Valid() && readers.created <= CYCLE && id.kind == DatareaderObject
      ensures forall e, q {:trigger ReaderOf(e), ReaderOf(q)} ::
                e in entitySlots && q in entitySlots && e.live && q.live && e.kind == q.kind == SUBSCRIPTIONS ==>
                  (ReaderOf(e) == id && ReaderOf(q) == id ==> e == q)
      ensures readers.graph.datareaderId == id ==> forall e {:trigger ReaderOf(e)} ::
                e in entitySlots && e.live && e.kind == SUBSCRIPTIONS ==> ReaderOf(e) != id
    {
      ValidParts();
      hide Valid, Pools, Slots, TopicsKnown, Linked, Balanced, Readers.Valid;
      readers.Unique(id);
      forall e | e in entitySlots && e.kind == SUBSCRIPTIONS
        ensures e.index < |readers.subscriptions| && readers.subscriptions[e.index].entity == e
      {
        SubscriptionPlace(e);
      }
    }

    // ---------------------------------------------------------------- counting topics

    /** The topics in use that belong to the node. */
    ghost function TopicsOf(node: Node): set<Topic>
      requires |pools| == 6
      reads pools, topicSlots
    {
      set t | t in topicSlots && t.mem in Used(TOPICS) && t.ownerNode == node
    }

    /** Those of them that are held at a place of `s`. */
    ghost function TopicsAt(node: Node, s: seq<Item>): set<Topic>
      requires |pools| == 6
      reads pools, topicSlots
    {
      set t | t in TopicsOf(node) && t.holder != null && t.holder.mem in s
    }

    lemma TopicsAtStep(node: Node, s: seq<Item>, e: Entity)
      requires |pools| == 6 && Slots() && Linked() && e in entitySlots && e.live && Topical(e.kind) && e.mem !in s
      ensures |TopicsAt(node, s + [e.mem])|
              == |TopicsAt(node, s)| + if e.ownerNode == node && e.topic != null then 1 else 0
    {
      hide Slots;
      var before, after := TopicsAt(node, s), TopicsAt(node, s + [e.mem]);
      assert InUse(e);
      forall t | t in after
        ensures t in before || (e.ownerNode == node && t == e.topic)
      {
        HolderIs(node, t, e);
      }
      assert forall t :: t in before ==> t in after;
      if e.ownerNode == node {
        assert e.topic in after && e.topic !in before;
        assert after == before + {e.topic};
      } else {
        assert after == before;
      }
    }

    lemma HolderIs(node: Node, t: Topic, e: Entity)
      requires |pools| == 6 && Slots() && Linked() && e in entitySlots && e.live && Topical(e.kind)
      requires t in TopicsOf(node)
      ensures t.holder != null && t.holder.mem == e.mem ==> t == e.topic && e.ownerNode == node
    {
      assert Held(t);
      EntitySlot(t.holder);
      EntitySlot(e);
    }

    lemma TopicsAtBoth(node: Node)
      requires |pools| == 6 && Pools() && Slots() && Linked()
      ensures TopicsAt(node, pools[PUBLISHERS].alloc) !! TopicsAt(node, pools[SUBSCRIPTIONS].alloc)
      ensures TopicsOf(node) == TopicsAt(node, pools[PUBLISHERS].alloc) + TopicsAt(node, pools[SUBSCRIPTIONS].alloc)
    {
      PoolSound(PUBLISHERS, NONE);
      PoolSound(SUBSCRIPTIONS, NONE);
    }

    lemma TopicsAtNone(node: Node)
      requires |pools| == 6
      ensures TopicsAt(node, []) == {}
    {
    }

    method CountTopics(k: EntityKind, node: Node) returns (count: nat)
      requires |pools| == 6 && Valid() && Topical(k)
      ensures count == |TopicsAt(node, pools[k].alloc)|
    {
      hide Pools, PoolsBut, StaticPool, Slots, TopicsKnown, Linked, Valid, Balanced, TopicsAt, NoDup;
      ValidParts();
      FirstEntity(k);
      TopicsAtNone(node);
      NoDuplicates(k);
      ghost var s, i := pools[k].alloc, 0;
      count := 0;
      var item := pools[k].allocateditems;
      while item != null
        invariant i <= |s| && item == Nth(s, i) && count == |TopicsAt(node, s[..i])|
        decreases |s| - i
      {
        EntityAt(k, i);
        NotBefore(s, i);
        assert s[..i + 1] == s[..i] + [s[i]];
        var e := Base(item.data);
        TopicsAtStep(node, s[..i], e);
        item := item.next;
        if e.ownerNode == node && e.topic != null {
          count := count + 1;
        }
        i := i + 1;
      }
      assert s[..i] == s;
    }

    /** Counts by walking the publishers and the subscriptions; the result is the number of the node's topics in use. */
    method TopicCount(node: Node) returns (count: nat)
      requires |pools| == 6 && Valid()
      ensures count == |TopicsOf(node)|
    {
      hide Pools, PoolsBut, StaticPool, Slots, TopicsKnown, Linked, Valid, Balanced, TopicsAt, TopicsOf;
      ValidParts();
      TopicsAtBoth(node);
      var publishers := CountTopics(PUBLISHERS, node);
      var subscriptions := CountTopics(SUBSCRIPTIONS, node);
      count := publishers + subscriptions;
    }

    // ---------------------------------------------------------------- the end of a session

    lemma FirstNode()
      requires |pools| == 6 && Pools()
      ensures pools[NODES].allocateditems == Nth(pools[NODES].alloc, 0)
    {
      PoolSound(NODES, NONE);
      pools[NODES].WalkAllocated(0);
    }

    lemma NodeAt(j: nat)
      requires |pools| == 6 && Pools() && Slots() && Linked() && j < |pools[NODES].alloc|
      ensures var x := pools[NODES].alloc[j];
              && NodeOf(x.data) != null && NodeOf(x.data) in nodeSlots && NodeOf(x.data).mem == x
              && NodeOf(x.data).live && NodeOf(x.data).context == readers.session
              && x.next == Nth(pools[NODES].alloc, j + 1)
    {
      PoolSound(NODES, NONE);
      pools[NODES].WalkAllocated(j);
      NodeItem(pools[NODES].alloc[j]);
    }

    lemma WithoutHead(k: nat)
      requires |pools| == 6 && Pools() && k < 6 && pools[k].alloc != []
      ensures Mempool.Without(pools[k].alloc, pools[k].alloc[0]) == pools[k].alloc[1..]
    {
      WithoutFirst(pools[k].alloc);
    }

    /** Without a node in use, nothing else is in use. */
    lemma NothingWithoutNodes()
      requires |pools| == 6 && Valid() && pools[NODES].alloc == []
      ensures forall k :: 0 <= k < 6 ==> pools[k].alloc == []
    {
      forall n | n in nodeSlots
        ensures !n.live
      {
        assert n.mem !in Used(NODES);
      }
      forall k: EntityKind
        ensures pools[k].alloc == []
      {
        if pools[k].alloc != [] {
          EntityAt(k, 0);
        }
      }
    }

    /** Place `j` of what is left of a list is place `i` of the list. */
    lemma Tail(s: seq<Item>, t: seq<Item>, i: nat, j: nat)
      requires j <= i <= |s| && t == s[i - j..]
      ensures Nth(t, j) == Nth(s, i) && Nth(t, j + 1) == Nth(s, i + 1)
      ensures Nth(s, i) != null <==> j < |t|
      ensures j < |t| ==> t[j] == Nth(s, i) && i < |s|
    {
    }

    /**
     * What the end of a session returns once the nodes in `s` are destroyed: the agent has to confirm the deletion
     * of the last one, and of that node's last entity.
     */
    ghost predicate Ended(ret: Ret, s: seq<Item>, all: seq<seq<Item>>, agent: Item -> Answers, confirmed: Item -> bool)
      requires |all| == 6
      reads entitySlots`ownerNode, s`data
    {
      if s == [] then ret == Ok
      else
        var x := s[|s| - 1];
        NodeOf(x.data) != null && (ret == Ok <==> confirmed(x) && LastDeleted(NodeOf(x.data), all, agent))
    }

    lemma NothingEnded(agent: Item -> Answers, confirmed: Item -> bool)
      requires |pools| == 6
      ensures StillLast(Allocated()) && Ended(Ok, [], Allocated(), agent, confirmed)
    {
    }

    lemma EndedThen(node: Node, ret: Ret, s: seq<Item>, i: nat, all: seq<seq<Item>>,
                    agent: Item -> Answers, confirmed: Item -> bool)
      requires |all| == 6 && i < |s| && NodeOf(s[i].data) == node
      requires ret == Ok <==> confirmed(s[i]) && LastDeleted(node, all, agent)
      ensures Ended(ret, s[..i + 1], all, agent, confirmed)
    {
      assert s[..i + 1][i] == s[i];
    }

    /** What was the last entity of a live node on one of the lists `all` is the last one still. */
    ghost predicate StillLast(all: seq<seq<Item>>)
      requires |pools| == |all| == 6
      reads pools, nodeSlots`live, entitySlots`ownerNode
    {
      forall n, k: EntityKind {:trigger LastIn(all[k], OwnedBy(n))} :: n in nodeSlots && n.live ==>
        LastIn(pools[k].alloc, OwnedBy(n)) == LastIn(all[k], OwnedBy(n))
    }

    lemma OwnedApart(n: Node, m: Node)
      requires |pools| == 6 && Slots() && n != m
      ensures OwnedBy(n) !! OwnedBy(m)
    {
      forall e | e in entitySlots && e.ownerNode == n
        ensures e.mem !in OwnedBy(m)
      {
        OwnedExactly(e, m);
      }
    }

    lemma LastStays(node: Node, all: seq<seq<Item>>, before: seq<seq<Item>>)
      requires |pools| == |all| == |before| == 6 && Slots() && !node.live && Cleared(CLIENTS, node, before)
      requires forall n, k: EntityKind {:trigger LastIn(all[k], OwnedBy(n))} :: n in nodeSlots && n.live ==>
                 LastIn(before[k], OwnedBy(n)) == LastIn(all[k], OwnedBy(n))
      ensures StillLast(all)
    {
      hide Slots, OwnedBy, Minus, LastIn;
      forall n, k: EntityKind {:trigger LastIn(all[k], OwnedBy(n))} | n in nodeSlots && n.live
        ensures LastIn(pools[k].alloc, OwnedBy(n)) == LastIn(all[k], OwnedBy(n))
      {
        OwnedApart(n, node);
        LastInMinus(before[k], OwnedBy(n), OwnedBy(node));
      }
    }

    lemma SameLast(node: Node, all: seq<seq<Item>>, agent: Item -> Answers)
      requires |pools| == |all| == 6 && StillLast(all) && node in nodeSlots && node.live
      ensures LastDeleted(node, Allocated(), agent) <==> LastDeleted(node, all, agent)
    {
      hide OwnedBy, LastIn, Deleted;
      assert forall k: EntityKind :: LastIn(Allocated()[k], OwnedBy(node)) == LastIn(all[k], OwnedBy(node));
    }

    /** The next node of a session that is being ended. */
    method DestroyNext(node: Node, agent: Item -> Answers, confirmed: bool, ghost all: seq<seq<Item>>)
        returns (ret: Ret)
      requires |pools| == |all| == 6 && Valid() && node in nodeSlots && node.live && StillLast(all)
      modifies pools, (set p, x | p in pools && x in p.items :: x)`prev
      modifies (set p, x | p in pools && x in p.items :: x)`next
      modifies entitySlots`live, topicSlots`ownerNode, node
      ensures Valid() && !node.live && forall j :: 0 <= j < 6 ==> pools[j].items == old(pools[j].items)
      ensures ret != Error && (ret == Ok <==> confirmed && LastDeleted(node, all, agent)) && StillLast(all)
      ensures node.mem in old(pools[NODES].alloc)
      ensures Lists(NODES, [node.mem] + old(pools[NODES].free), Mempool.Without(old(pools[NODES].alloc), node.mem))
    {
      hide Pools, PoolsBut, StaticPool, Slots, TopicsKnown, Linked, Valid, Balanced, OwnedBy, LastIn, LiveEntities;
      hide LastDeleted, Cleared;
      SameLast(node, all, agent);
      ret := DestroyNode(node, agent, confirmed);
      ValidParts();
      LastStays(node, all, old(Allocated()));
    }

    /**
     * Destroys the nodes of a context, newest first. For the session of the nodes, that leaves nothing in use at
     * all.
     */
    method ContextFini(context: Session?, agent: Item -> Answers, confirmed: Item -> bool) returns (ret: Ret)
      requires |pools| == 6 && Valid()
      modifies pools, (set p, x | p in pools && x in p.items :: x)`prev
      modifies (set p, x | p in pools && x in p.items :: x)`next
      modifies entitySlots`live, topicSlots`ownerNode, nodeSlots
      ensures Valid() && ret != Error
      ensures context == readers.session ==> forall k :: 0 <= k < 6 ==> pools[k].alloc == []
      ensures context != readers.session ==> ret == Ok && forall k :: 0 <= k < 6 ==> unchanged(pools[k])
      ensures context == readers.session ==> Ended(ret, old(pools[NODES].alloc), old(Allocated()), agent, confirmed)
    {
      hide Pools, PoolsBut, StaticPool, Slots, TopicsKnown, Linked, Valid, Balanced, Survived, Nth;
      hide LastDeleted, Ended, StillLast, OwnedBy, LiveEntities, Cleared;
      ret := Ok;
      ghost var s, i, all := pools[NODES].alloc, 0, Allocated();
      ValidParts();
      FirstNode();
      NothingEnded(agent, confirmed);
      assert s[..0] == [];
      var item := pools[NODES].allocateditems;
      while item != null
        invariant Valid() && ret != Error && i <= |s|
        invariant item == Nth(s, i) && (forall k :: 0 <= k < 6 ==> pools[k].items == old(pools[k].items))
        invariant context == readers.session ==> pools[NODES].alloc == s[i..]
        invariant context != readers.session ==> ret == Ok && forall k :: 0 <= k < 6 ==> unchanged(pools[k])
        invariant context == readers.session ==> StillLast(all) && Ended(ret, s[..i], all, agent, confirmed)
        decreases |s| - i
      {
        ValidParts();
        ghost var j := if context == readers.session then 0 else i;
        Tail(s, pools[NODES].alloc, i, j);
        assert pools[NODES].alloc[j] == item;
        NodeAt(j);
        var node := NodeOf(item.data);
        item := item.next;
        assert item == Nth(s, i + 1);
        if node.context == context {
          WithoutHead(NODES);
          ret := DestroyNext(node, agent, confirmed(node.mem), all);
          EndedThen(node, ret, s, i, all, agent, confirmed);
        }
        i := i + 1;
      }
      Tail(s, s, i, i);
      assert s[..i] == s;
      if context == readers.session {
        NothingWithoutNodes();
      }
    }
  }

  /** Sets up the six pools over zeroed static arrays of the given sizes, and the counters of the session. */
  method Start(session: Session, graph: GraphInfo, sizes: seq<nat>) returns (rt: Runtime)
    requires |sizes| == 6 && graph.datareaderId == ObjectId(0, NoObject)
    modifies session`idDatareader
    ensures fresh(rt) && |rt.pools| == 6 && rt.Valid() && rt.readers.Valid() && rt.readers.created == 0
    ensures rt.readers.session == session && rt.readers.graph == graph
    ensures |rt.readers.subscriptions| == sizes[SUBSCRIPTIONS]
    ensures |rt.services| == sizes[SERVICES] && |rt.clients| == sizes[CLIENTS]
    ensures forall k :: 0 <= k < 6 ==> rt.pools[k].alloc == [] && |rt.pools[k].free| == sizes[k]
    ensures forall k {:trigger rt.pools[k]} :: 0 <= k < 6 ==> fresh(rt.pools[k]) && fresh(rt.pools[k].items)
    ensures fresh(rt.readers) && fresh(rt.readers.subscriptions) && fresh(rt.services) && fresh(rt.clients)
    ensures fresh(rt.nodeSlots) && fresh(rt.entitySlots) && fresh(rt.topicSlots)
  {
    hide StaticPool, Readers.Valid, Runtime.Valid;
    var ps, arrays, r := NewParts(session, graph, sizes);
    rt := new Runtime(ps, arrays, ServicesIn(arrays[SERVICES]), ClientsIn(arrays[CLIENTS]), r);
    rt.ValidAtFirst(arrays);
  }
}
