/** Identifiers of datareaders: a 16-bit counter names the readers of all subscriptions and of the graph. */
module ReaderIds {
  import opened Mempool
  import opened Entities
  import opened Cache
  import opened Callbacks

  /** Number of different identifiers. */
  const CYCLE := 0x1_0000

  /** The identifier a reader has if it was the `stamp`-th to be named, or if its slot is still zeroed. */
  ghost function IdOf(stamp: int): ObjectId {
    if stamp < 0 then ObjectId(0, NoObject) else ObjectId(stamp % CYCLE, DatareaderObject)
  }

  class Readers {
    const session: Session
    const subscriptions: seq<Subscription>
    const graph: GraphInfo

    /** How many readers have been named, and when each slot was named last, counted from zero. */
    ghost var created: nat
    ghost var stamps: seq<int>
    ghost var graphStamp: int

    ghost predicate Valid()
      reads this, session`idDatareader, subscriptions`datareaderId, graph`datareaderId
    {
      && session.idDatareader == created % CYCLE
      && |stamps| == |subscriptions|
      && (forall i, j :: 0 <= i < j < |subscriptions| ==> subscriptions[i] != subscriptions[j])
      && (forall i :: 0 <= i < |stamps| ==> subscriptions[i].datareaderId == IdOf(stamps[i]))
      && graph.datareaderId == IdOf(graphStamp)
      && graphStamp < created && (forall i :: 0 <= i < |stamps| ==> stamps[i] < created)
      && (forall i, j :: 0 <= i < j < |stamps| ==> stamps[i] != stamps[j] || stamps[i] < 0)
      && (forall i :: 0 <= i < |stamps| ==> stamps[i] != graphStamp || graphStamp < 0)
    }

    /** No reader has been named meanwhile. By `Valid`, counter and identifiers are what they were. */
    twostate predicate Idle()
      reads this
    {
      created == old(created) && stamps == old(stamps) && graphStamp == old(graphStamp)
    }

    /** Slot `i` alone has been given the next identifier. */
    twostate predicate Named(i: nat)
      requires i < old(|stamps|)
      reads this
    {
      created == old(created) + 1 && stamps == old(stamps)[i := old(created)] && graphStamp == old(graphStamp)
    }

    /** What that means for the counter and the identifiers. */
    twostate lemma IdleKeepsIds()
      requires old(Valid()) && Valid() && Idle()
      ensures session.idDatareader == old(session.idDatareader) && graph.datareaderId == old(graph.datareaderId)
      ensures forall j :: 0 <= j < |subscriptions| ==>
                subscriptions[j].datareaderId == old(subscriptions[j].datareaderId)
    {
    }

    twostate lemma NamedTakesNext(i: nat)
      requires old(Valid()) && Valid() && i < |subscriptions| && Named(i)
      ensures session.idDatareader == (old(session.idDatareader) + 1) % CYCLE
      ensures subscriptions[i].datareaderId == ObjectId(old(session.idDatareader), DatareaderObject)
      ensures graph.datareaderId == old(graph.datareaderId)
      ensures forall j :: 0 <= j < |subscriptions| && j != i ==>
                subscriptions[j].datareaderId == old(subscriptions[j].datareaderId)
    {
    }

    /** All slots are zeroed. */
    constructor (session: Session, subscriptions: seq<Subscription>, graph: GraphInfo)
      requires session.idDatareader == 0 && graph.datareaderId == ObjectId(0, NoObject)
      requires forall i, j :: 0 <= i < j < |subscriptions| ==> subscriptions[i] != subscriptions[j]
      requires forall i :: 0 <= i < |subscriptions| ==> subscriptions[i].datareaderId == ObjectId(0, NoObject)
      ensures Valid() && created == 0
      ensures this.session == session && this.subscriptions == subscriptions && this.graph == graph
    {
      this.session, this.subscriptions, this.graph := session, subscriptions, graph;
      created, stamps, graphStamp := 0, seq(|subscriptions|, _ => -1), -1;
    }

    /** The reader of the subscription in slot `i` is named, whatever the slot was used for before. */
    method CreateReader(i: nat)
      requires Valid() && i < |subscriptions|
      modifies this, session`idDatareader, subscriptions`datareaderId
      ensures Valid() && Named(i)
    {
      NextId(created);
      hide IdOf;
      var id := session.NameDatareader();
      subscriptions[i].datareaderId := id;
      stamps, created := stamps[i := created], created + 1;
    }

    method CreateGraphReader()
      requires Valid()
      modifies this, session`idDatareader, graph`datareaderId
      ensures Valid() && created == old(created) + 1 && stamps == old(stamps) && graphStamp == old(created)
    {
      NextId(created);
      hide IdOf;
      var id := session.NameDatareader();
      graph.datareaderId := id;
      graphStamp, created := created, created + 1;
    }

    lemma IdAt(i: nat)
      requires Valid() && i < |subscriptions|
      ensures i < |stamps| && subscriptions[i].datareaderId == IdOf(stamps[i])
    {
    }

    /** Naming slot 0 once and then slot 1 as often as there are identifiers leaves both with the same one. */
    method NameFullCycle()
      requires Valid() && |subscriptions| >= 2
      modifies this, session`idDatareader, subscriptions`datareaderId
      ensures Valid() && subscriptions[0].datareaderId == subscriptions[1].datareaderId
      ensures subscriptions[0].datareaderId.kind == DatareaderObject
    {
      CreateReader(0);
      ghost var first := created - 1;
      for n := 0 to CYCLE
        invariant Valid() && created == first + 1 + n && stamps[0] == first
        invariant n > 0 ==> stamps[1] == first + n
      {
        CreateReader(1);
      }
      SharedIff(0, 1);
    }

    /** Two named readers share an identifier exactly if a whole number of cycles lies between their creations. */
    lemma SharedIff(i: nat, j: nat)
      requires Valid() && i < j < |stamps| && stamps[i] >= 0 && stamps[j] >= 0
      ensures subscriptions[i].datareaderId == subscriptions[j].datareaderId <==> (stamps[i] - stamps[j]) % CYCLE == 0
    {
      CongruentIff(stamps[i], stamps[j]);
    }

    lemma SharedWithGraphIff(i: nat)
      requires Valid() && i < |stamps| && stamps[i] >= 0 && graphStamp >= 0
      ensures subscriptions[i].datareaderId == graph.datareaderId <==> (stamps[i] - graphStamp) % CYCLE == 0
    {
      CongruentIff(stamps[i], graphStamp);
    }

    /** Within the first cycle, a datareader identifier belongs to at most one reader. */
    lemma Unique(id: ObjectId)
      requires Valid() && created <= CYCLE && id.kind == DatareaderObject
      ensures forall i, j :: 0 <= i < j < |subscriptions| ==>
                !(subscriptions[i].datareaderId == id && subscriptions[j].datareaderId == id)
      ensures forall i :: 0 <= i < |subscriptions| ==>
                !(subscriptions[i].datareaderId == id && graph.datareaderId == id)
    {
    }

    /** Then a sample reaches at most one of the allocated subscriptions, and none if it is for the graph. */
    lemma OneReceiver(id: ObjectId, pool: Pool, cache: HistoryCache)
      requires Valid() && created <= CYCLE && id.kind == DatareaderObject
      requires HoldsSubscriptions(pool, cache) && cache.subscriptions == subscriptions
      ensures forall j, k :: 0 <= j < k < |pool.alloc| ==>
                pool.alloc[j].data is Subscription && pool.alloc[k].data is Subscription
                && !((pool.alloc[j].data as Subscription).datareaderId == id
                     && (pool.alloc[k].data as Subscription).datareaderId == id
                     && pool.alloc[j].data != pool.alloc[k].data)
      ensures graph.datareaderId == id ==> forall j :: 0 <= j < |pool.alloc| ==>
                pool.alloc[j].data is Subscription && (pool.alloc[j].data as Subscription).datareaderId != id
    {
      Unique(id);
      forall j | 0 <= j < |pool.alloc|
        ensures pool.alloc[j].data is Subscription
        ensures var s := pool.alloc[j].data as Subscription;
                s.entity.index < |subscriptions| && subscriptions[s.entity.index] == s
      {
        AllocatedSubscription(pool, cache, j);
      }
    }
  }

  /** The counter and the identifier it gives run through the same cycle. */
  lemma NextId(n: nat)
    ensures (n % CYCLE + 1) % CYCLE == (n + 1) % CYCLE
    ensures IdOf(n) == ObjectId(n % CYCLE, DatareaderObject)
  {
  }

  lemma CongruentIff(a: nat, b: nat)
    ensures a % CYCLE == b % CYCLE <==> (a - b) % CYCLE == 0
  {
    var q, r := a / CYCLE - b / CYCLE, a % CYCLE - b % CYCLE;
    assert a - b == q * CYCLE + r;
    if r == 0 {
      assert (a - b) % CYCLE == 0;
    }
  }
}
