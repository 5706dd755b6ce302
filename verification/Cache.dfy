/** The static input buffers: one shared pool that holds the history of every subscription, service and client. */
module Cache {
  import opened Integers
  import opened History
  import opened Mempool
  import opened Entities
  import Refinement

  class StaticBuffer {
    const mem: Item
    var buffer: seq<bv8>
    var length: nat
    var owner: Handle
    var timestamp: Int64
    var entityType: EntityType
    var related: Related

    constructor (capacity: nat)
      ensures fresh(mem) && mem.Detached() && !mem.isDynamic && |buffer| == capacity
      ensures owner == Null && entityType == UnknownEntity && length == 0
    {
      mem := new Item();
      buffer, length := seq(capacity, _ => 0), 0;
      owner, timestamp, entityType, related := Null, 0, UnknownEntity, NoRelated;
    }

    method Write(owner: Handle, kind: EntityType, payload: seq<bv8>, related: Related, now: Int64)
      requires |payload| <= |buffer|
      modifies this
      ensures |buffer| == old(|buffer|) && length == |payload| && buffer[..length] == payload
      ensures this.owner == owner && entityType == kind && timestamp == now && this.related == related
    {
      buffer := payload + buffer[|payload|..];
      this.owner := owner;
      length := |payload|;
      this.related := related;
      timestamp := now;
      entityType := kind;
    }
  }

  /** A static array of zeroed buffers. */
  method AllocateBuffers(size: nat, capacity: nat) returns (storage: seq<StaticBuffer>)
    ensures |storage| == size
    ensures forall i, j :: 0 <= i < j < size ==> storage[i].mem != storage[j].mem
    ensures forall i {:trigger storage[i]} :: 0 <= i < size ==>
              && fresh(storage[i]) && fresh(storage[i].mem) && storage[i].mem.Detached() && !storage[i].mem.isDynamic
              && |storage[i].buffer| == capacity && storage[i].owner == Null
              && storage[i].entityType == UnknownEntity && storage[i].length == 0
  {
    storage := [];
    for n := 0 to size
      invariant |storage| == n
      invariant forall i, j :: 0 <= i < j < n ==> storage[i].mem != storage[j].mem
      invariant forall i {:trigger storage[i]} :: 0 <= i < n ==>
                  && fresh(storage[i]) && fresh(storage[i].mem) && storage[i].mem.Detached()
                  && !storage[i].mem.isDynamic
                  && |storage[i].buffer| == capacity && storage[i].owner == Null
                  && storage[i].entityType == UnknownEntity && storage[i].length == 0
    {
      var b := new StaticBuffer(capacity);
      storage := storage + [b];
    }
  }

  /** The back pointer of a static item leads to the buffer it is embedded in. */
  ghost predicate IsBuffer(x: Item, buffers: set<StaticBuffer>)
    reads x`data, x`isDynamic
  {
    x.data is StaticBuffer && (x.data as StaticBuffer) in buffers && (x.data as StaticBuffer).mem == x && !x.isDynamic
  }

  /** Sets a pool up over `size` zeroed buffers; this pool never grows. */
  method BufferPool(size: nat, capacity: nat, dynamicBuild: bool) returns (pool: Pool, ghost buffers: set<StaticBuffer>)
    ensures fresh(pool) && fresh(buffers) && pool.Valid() && !pool.Grows() && fresh(pool.items)
    ensures pool.alloc == [] && |pool.free| == size
    ensures forall x {:trigger x in pool.items} :: x in pool.items ==> IsBuffer(x, buffers)
    ensures forall b {:trigger b in buffers} :: b in buffers ==>
              |b.buffer| == capacity && b.owner == Null && b.entityType == UnknownEntity && b.length == 0
  {
    var storage := AllocateBuffers(size, capacity);
    pool := new Pool(dynamicBuild);
    buffers := set b | b in storage;
    hide Chain;
    var slots := seq(size, i requires 0 <= i < size => storage[i].mem);
    var elements: seq<object> := seq(size, i requires 0 <= i < size => storage[i]);
    pool.Init(slots, elements);
    pool.isDynamicAllowed := false;
    forall x {:trigger x in pool.items} | x in pool.items
      ensures IsBuffer(x, buffers)
    {
      var i :| 0 <= i < |slots| && slots[i] == x;
      assert x.data == elements[i] && storage[i] in buffers;
    }
  }

  const NO_MESSAGE := Rec(Null, 0, 0, UnknownEntity, [], NoRelated)

  /** The messages that a list of buffers holds. */
  ghost function Messages(s: seq<Item>, stored: map<Item, Rec>): (v: seq<Rec>)
    ensures |v| == |s|
  {
    seq(|s|, i requires 0 <= i < |s| => if s[i] in stored then stored[s[i]] else NO_MESSAGE)
  }

  lemma MessagesAt(s: seq<Item>, stored: map<Item, Rec>, i: nat)
    ensures i < |s| && s[i] in stored ==> Messages(s, stored)[i] == stored[s[i]]
  {
  }

  lemma MessagesWithout(s: seq<Item>, stored: map<Item, Rec>, x: Item)
    requires x in s
    ensures Messages(Mempool.Without(s, x), stored) == History.Without(Messages(s, stored), IndexOf(s, x))
  {
  }

  lemma MessagesPush(s: seq<Item>, stored: map<Item, Rec>, x: Item)
    requires x in stored
    ensures Messages([x] + s, stored) != [] && Messages([x] + s, stored)[1..] == Messages(s, stored)
  {
  }

  lemma MessagesAppend(s: seq<Item>, stored: map<Item, Rec>, x: Item)
    requires x in stored
    ensures Messages(s + [x], stored) == Messages(s, stored) + [stored[x]]
  {
  }

  lemma MessagesUpdate(s: seq<Item>, stored: map<Item, Rec>, i: nat, r: Rec)
    requires i < |s| && NoDup(s)
    ensures Messages(s, stored[s[i] := r]) == Messages(s, stored)[i := r]
  {
  }

  /** The list while a sweep stands at position `i` of what it was: those kept so far, then those not yet seen. */
  ghost function Swathe(kept: seq<Item>, all: seq<Item>, i: nat): seq<Item>
    requires i <= |all|
  {
    kept + all[i..]
  }

  lemma SwatheStep(kept: seq<Item>, all: seq<Item>, i: nat)
    requires i < |all|
    ensures var s := Swathe(kept, all, i);
            && |kept| < |s| && s[|kept|] == all[i]
            && (if |kept| + 1 < |s| then s[|kept| + 1] else null) == (if i + 1 < |all| then all[i + 1] else null)
            && Swathe(kept + [all[i]], all, i + 1) == s
            && (all[i] in s && IndexOf(s, all[i]) == |kept| ==> Mempool.Without(s, all[i]) == Swathe(kept, all, i + 1))
  {
  }

  lemma SwatheEnds(kept: seq<Item>, all: seq<Item>)
    ensures Swathe([], all, 0) == all && Swathe(kept, all, |all|) == kept
  {
  }

  /** A cache over a new pool of `size` zeroed buffers. */
  method NewCache(size: nat, capacity: nat, dynamicBuild: bool,
                  subscriptions: seq<Subscription>, services: seq<Service>, clients: seq<Client>)
      returns (cache: HistoryCache)
    ensures fresh(cache) && cache.Valid() && cache.View() == [] && cache.Slots() == size && cache.capacity == capacity
    ensures cache.subscriptions == subscriptions && cache.services == services && cache.clients == clients
    ensures fresh(cache.pool) && fresh(cache.pool.items) && fresh(cache.buffers)
  {
    hide Pool.Valid, IsBuffer, HistoryCache.Intact;
    var pool, buffers := BufferPool(size, capacity, dynamicBuild);
    cache := new HistoryCache(pool, buffers, capacity, subscriptions, services, clients);
    cache.Record();
  }

  class HistoryCache {
    const pool: Pool
    const capacity: nat
    ghost const buffers: set<StaticBuffer>
    const subscriptions: seq<Subscription>
    const services: seq<Service>
    const clients: seq<Client>
    /** What each buffer of the pool holds. */
    ghost var stored: map<Item, Rec>

    constructor (pool: Pool, ghost buffers: set<StaticBuffer>, capacity: nat,
                 subscriptions: seq<Subscription>, services: seq<Service>, clients: seq<Client>)
      ensures this.pool == pool && this.buffers == buffers && this.capacity == capacity
      ensures this.subscriptions == subscriptions && this.services == services && this.clients == clients
    {
      this.subscriptions, this.services, this.clients := subscriptions, services, clients;
      this.capacity, this.pool, this.buffers := capacity, pool, buffers;
      stored := map[];
    }

    /** The ghost record of the messages starts with what is in the buffers. */
    ghost method Record()
      requires pool.Valid() && !pool.Grows() && pool.alloc == [] && BuffersFit()
      modifies this`stored
      ensures Valid() && View() == [] && Slots() == |pool.free|
    {
      hide Pool.Valid, Message, LifespanOf, Snapshot, IsBuffer, BuffersFit, Intact, Messages;
      stored := Snapshot();
      IntactAtFirst();
    }

    lemma IntactAtFirst()
      requires BuffersFit() && stored == Snapshot()
      ensures Intact()
    {
    }

    /** The owner pointer of a buffer points at an entity of the kind the buffer names. */
    predicate WellTyped(kind: EntityType, owner: Handle) {
      match kind
      case SubscriptionEntity => owner.SubscriptionSlot? && owner.index < |subscriptions|
      case ClientEntity => owner.ClientSlot? && owner.index < |clients|
      case ServiceEntity => owner.ServiceSlot? && owner.index < |services|
      case _ => true
    }

    /** The lifespan that applies to a buffer, looked up through its owner. */
    function LifespanOf(kind: EntityType, owner: Handle): Duration
      requires WellTyped(kind, owner)
      reads subscriptions, services, clients
    {
      match kind
      case SubscriptionEntity => EffectiveLifespan(subscriptions[owner.index].qos.lifespan)
      case ClientEntity => EffectiveLifespan(clients[owner.index].qos.lifespan)
      case ServiceEntity => EffectiveLifespan(services[owner.index].qos.lifespan)
      case _ => EffectiveLifespan(UNKNOWN_LIFESPAN)
    }

    /** The message that a buffer holds. */
    ghost function Message(b: StaticBuffer): Rec
      requires b.length <= |b.buffer| && WellTyped(b.entityType, b.owner)
      reads b, subscriptions, services, clients
    {
      Rec(b.owner, b.timestamp, LifespanOf(b.entityType, b.owner), b.entityType, b.buffer[..b.length], b.related)
    }

    /** What is in the buffers; the links between them do not matter here. */
    ghost predicate Intact()
      reads this, pool`items, pool.items`data, pool.items`isDynamic, buffers, subscriptions, services, clients
    {
      && BuffersFit()
      && forall x {:trigger x in pool.items} :: x in pool.items ==>
           x in stored && stored[x] == Message(x.data as StaticBuffer)
    }

    ghost predicate BuffersFit()
      reads pool`items, pool.items`data, pool.items`isDynamic, buffers
    {
      && (forall b {:trigger b in buffers} :: b in buffers ==>
            b.length <= |b.buffer| == capacity && WellTyped(b.entityType, b.owner))
      && (forall x {:trigger x in pool.items} :: x in pool.items ==> IsBuffer(x, buffers))
    }

    ghost function Snapshot(): (m: map<Item, Rec>)
      requires BuffersFit()
      reads pool`items, pool.items`data, pool.items`isDynamic, buffers, subscriptions, services, clients
      ensures forall x {:trigger x in pool.items} :: x in pool.items ==>
                x in m && m[x] == Message(x.data as StaticBuffer)
    {
      map x | x in pool.items :: Message(x.data as StaticBuffer)
    }

    ghost predicate Valid()
      reads this, pool, pool.items, buffers, subscriptions, services, clients
    {
      pool.Valid() && !pool.Grows() && Intact()
    }

    lemma Static(x: Item)
      requires Intact() && x in pool.items
      ensures !x.isDynamic && x in stored
    {
    }

    /** The stored messages, in the order of the allocated list. */
    ghost function View(): seq<Rec>
      reads this, pool
    {
      Messages(pool.alloc, stored)
    }

    ghost function Slots(): nat
      reads pool
    {
      |pool.free| + |pool.alloc|
    }

    /** What the `i`-th allocated item gives access to. */
    lemma At(i: nat)
      requires Valid() && i < |pool.alloc|
      ensures pool.Valid() && pool.alloc[i] in pool.items
      ensures pool.alloc[i].next == if i + 1 < |pool.alloc| then pool.alloc[i + 1] else null
      ensures pool.alloc[i] in stored && View()[i] == stored[pool.alloc[i]]
      ensures pool.alloc[i].data is StaticBuffer
      ensures var b := pool.alloc[i].data as StaticBuffer;
              b.length <= |b.buffer| && WellTyped(b.entityType, b.owner) && View()[i] == Message(b)
    {
      hide LifespanOf;
      pool.WalkAllocated(i);
      MessagesAt(pool.alloc, stored, i);
    }

    lemma Head()
      requires Valid()
      ensures pool.Valid() && pool.allocateditems == if pool.alloc == [] then null else pool.alloc[0]
    {
      pool.WalkAllocated(0);
    }

    /** Number of buffers that an entity owns. */
    method CountForEntity(entity: Handle) returns (count: nat)
      requires Valid()
      ensures count == Count(View(), entity)
    {
      hide Valid, Pool.Valid, LifespanOf, Count, Messages;
      Head();
      CountNothing(entity);
      count := 0;
      var item := pool.allocateditems;
      ghost var i, view := 0, View();
      while item != null
        invariant 0 <= i <= |view| && item == (if i < |view| then pool.alloc[i] else null)
        invariant count == Count(view[..i], entity)
        decreases |view| - i
      {
        At(i);
        var data := item.data as StaticBuffer;
        CountFold(view, i, entity);
        if data.owner == entity {
          count := count + 1;
        }
        item := item.next;
        i := i + 1;
      }
      assert view[..i] == view;
    }

    /** The oldest buffer of an entity. */
    method FindByOwner(owner: Handle) returns (ret: Item?)
      requires Valid()
      ensures Oldest(View(), owner) < 0 ==> ret == null
      ensures Oldest(View(), owner) >= 0 ==> ret == pool.alloc[Oldest(View(), owner)]
    {
      hide Valid, Pool.Valid, Oldest, LifespanOf, Messages;
      Head();
      OldestNothing(owner);
      ret := null;
      var minTime: Int64 := INT64_MAX;
      var item := pool.allocateditems;
      ghost var i, best, view := 0, -1, View();
      while item != null
        invariant 0 <= i <= |view| && item == (if i < |view| then pool.alloc[i] else null)
        invariant best == Oldest(view[..i], owner) && -1 <= best < i
        invariant ret == (if best < 0 then null else pool.alloc[best])
        invariant minTime == (if best < 0 then INT64_MAX else view[best].timestamp)
        decreases |view| - i
      {
        At(i);
        var data := item.data as StaticBuffer;
        OldestFold(view, i, owner);
        best := Oldest(view[..i + 1], owner);
        if data.owner == owner && data.timestamp < minTime {
          ret := item;
          minTime := data.timestamp;
        }
        item := item.next;
        i := i + 1;
      }
      assert view[..i] == view;
    }

    /** Returns the `i`-th stored buffer to the pool. */
    method Release(item: Item, ghost i: nat)
      requires Valid() && i < |View()| && pool.alloc[i] == item
      modifies pool, pool.items`prev, pool.items`next
      ensures Valid() && Slots() == old(Slots()) && pool.items == old(pool.items)
      ensures View() == History.Without(old(View()), i) && pool.alloc == Mempool.Without(old(pool.alloc), item)
    {
      hide Pool.Valid, Intact, Messages;
      pool.AllocatedAt(i);
      Static(item);
      MessagesWithout(pool.alloc, stored, item);
      pool.PutMemory(item);
    }

    /** An unused buffer, if there is one, comes to the front of the list with its old contents. */
    method TakeUnused() returns (ret: Item?)
      requires Valid()
      modifies pool, pool.items`prev, pool.items`next
      ensures Valid() && Slots() == old(Slots()) && pool.items == old(pool.items)
      ensures old(pool.free) == [] ==> ret == null && View() == old(View())
      ensures old(pool.free) != [] ==> View() != [] && View()[1..] == old(View()) && ret == pool.alloc[0]
    {
      hide Pool.Valid, Intact, Messages;
      pool.Members();
      ret := pool.GetMemory();
      if ret != null {
        Static(ret);
        MessagesPush(old(pool.alloc), stored, ret);
      }
    }

    /** A buffer for a message to `entity`: unused, or its oldest one, or none. */
    method GetForEntity(entity: Handle, qos: Qos) returns (ret: Item?)
      requires Valid()
      modifies pool, pool.items`prev, pool.items`next
      ensures Valid() && Slots() == old(Slots()) && pool.items == old(pool.items)
      ensures match Acquire(old(View()), old(Slots()), entity, qos)
              case Nowhere => ret == null && View() == old(View())
              case Unused => View() != [] && View()[1..] == old(View()) && ret == pool.alloc[0]
              case Over(i) => View() == old(View()) && ret == pool.alloc[i]
    {
      hide Valid, Pool.Valid, Count, Oldest, Messages;
      var count := CountForEntity(entity);
      match qos.history
      case Unknown | SystemDefault | KeepLast =>
        if qos.depth == 0 || count < qos.depth {
          ret := TakeUnused();
        } else {
          ret := FindByOwner(entity);
        }
      case KeepAll =>
        if qos.depth == 0 || count < qos.depth {
          ret := TakeUnused();
        } else {
          ret := null;
        }
      case Unrecognized =>
        ret := null;
    }

    /** Writes a message into the `i`-th stored buffer. */
    method Fill(item: Item, ghost i: nat, owner: Handle, kind: EntityType,
                payload: seq<bv8>, related: Related, now: Int64)
      requires Valid() && i < |View()| && pool.alloc[i] == item
      requires WellTyped(kind, owner) && |payload| <= capacity
      modifies this`stored, buffers
      ensures Valid()
      ensures View() == old(View())[i := Rec(owner, now, LifespanOf(kind, owner), kind, payload, related)]
    {
      pool.AllocatedAt(i);
      ghost var r := Rec(owner, now, LifespanOf(kind, owner), kind, payload, related);
      MessagesUpdate(pool.alloc, stored, i, r);
      hide Pool.Valid, LifespanOf, Messages;
      var data := item.data as StaticBuffer;
      data.Write(owner, kind, payload, related, now);
      assert BuffersFit();
      assert Message(data) == r;
      hide WellTyped, Message, BuffersFit;
      stored := stored[item := r];
      forall x {:trigger x in pool.items} | x in pool.items && x != item
        ensures x in stored && stored[x] == Message(x.data as StaticBuffer)
      {
        assert IsBuffer(x, buffers) && IsBuffer(item, buffers);
        assert x.data as StaticBuffer != data;
        assert unchanged(x.data as StaticBuffer);
      }
    }

    /** Stores a message that arrived for an entity; without `copied` its bytes could not be read. */
    method StoreInput(entity: Handle, kind: EntityType, qos: Qos, payload: seq<bv8>,
                      related: Related, now: Int64, copied: bool)
      requires Valid() && WellTyped(kind, entity) && |payload| <= capacity
      modifies this`stored, pool, pool.items`prev, pool.items`next, buffers
      ensures Valid() && Slots() == old(Slots()) && pool.items == old(pool.items)
      ensures View() == Arrive(old(View()), old(Slots()), qos,
                               Rec(entity, now, LifespanOf(kind, entity), kind, payload, related), copied)
    {
      hide Valid, Pool.Valid, Count, Oldest, Messages, LifespanOf;
      var node := GetForEntity(entity, qos);
      if node == null {
        return;
      }
      ghost var a := Acquire(old(View()), old(Slots()), entity, qos);
      ghost var i := if a.Over? then a.i else 0;
      if !copied {
        Release(node, i);
      } else {
        Fill(node, i, entity, kind, payload, related, now);
      }
    }

    /**
     * The message in a buffer was stamped by `now`, and the lifespan of the entity it is for is not over. A
     * lifespan of 0 means half a minute; a buffer of an unknown kind has one nanosecond; an end beyond the 64-bit
     * range wraps around, and has passed.
     */
    ghost predicate Unexpired(x: Item, now: Int64)
      requires Intact() && x in pool.items
      reads this, pool`items, pool.items`data, pool.items`isDynamic, buffers, subscriptions, services, clients
    {
      var b := x.data as StaticBuffer;
      var lifespan := match b.entityType
                      case SubscriptionEntity => subscriptions[b.owner.index].qos.lifespan
                      case ServiceEntity => services[b.owner.index].qos.lifespan
                      case ClientEntity => clients[b.owner.index].qos.lifespan
                      case _ => 1;
      var end := b.timestamp + if lifespan == 0 then 30_000_000_000 else lifespan;
      b.timestamp <= now <= end && end <= 0x7FFF_FFFF_FFFF_FFFF
    }

    /** The buffers that a sweep at `now` releases. */
    ghost function Expired(now: Int64): set<Item>
      requires Intact()
      reads this, pool`items, pool.items`data, pool.items`isDynamic, buffers, subscriptions, services, clients
    {
      set x | x in pool.items && !Unexpired(x, now)
    }

    lemma Members(now: Int64)
      requires Valid()
      ensures Intact() && forall x :: x in pool.alloc ==> x in pool.items
      ensures forall x {:trigger x in Expired(now)} :: x in pool.items ==> (x in Expired(now) <==> !Unexpired(x, now))
    {
    }

    /** The sweep treats the `i`-th stored message as the buffer it is in asks for. */
    lemma UnexpiredIff(i: nat, now: Int64)
      requires Valid() && i < |View()|
      ensures pool.alloc[i] in pool.items
      ensures pool.alloc[i] !in Expired(now) <==> Kept(View()[i], now)
    {
      At(i);
      Refinement.KeptIff(View()[i], now);
    }

    /** Returns every buffer whose message is expired, or stamped later than `now`, to the pool it is walking. */
    method CleanExpired(now: Int64)
      requires Valid()
      modifies pool, pool.items`prev, pool.items`next
      ensures Valid() && Slots() == old(Slots()) && pool.items == old(pool.items)
      ensures View() == Swept(old(View()), now)
      ensures forall x :: x in old(pool.alloc) ==> x in pool.items && (x in pool.alloc <==> Unexpired(x, now))
    {
      hide Valid, Pool.Valid, LifespanOf, Filter, Messages, Wrap64, Swathe;
      hide Expired, Unexpired, Minus, Intact, BuffersFit, Elems;
      Head();
      Members(now);
      ghost var d := Expired(now);
      FilterNothing(KeptAt(now));
      SwatheEnds([], pool.alloc);
      var item := pool.allocateditems;
      ghost var all: seq<Item>, i, kept: seq<Item>, view := pool.alloc, 0, [], View();
      MinusNothing(d);
      assert all[..0] == [];
      while item != null
        invariant 0 <= i <= |all| && item == if i < |all| then all[i] else null
        invariant Valid() && Slots() == old(Slots()) && pool.items == old(pool.items)
        invariant Messages(kept, stored) == Filter(view[..i], KeptAt(now))
        invariant pool.alloc == Swathe(kept, all, i)
        invariant kept == Minus(all[..i], d) && Intact() && Expired(now) == d
        decreases |all| - i
      {
        SwatheStep(kept, all, i);
        At(|kept|);
        UnexpiredIff(|kept|, now);
        MinusStep(all, d, i);
        MessagesAt(all, stored, i);
        FilterFold(view, i, KeptAt(now));
        var data := item.data as StaticBuffer;
        var lifespan := LifespanOf(data.entityType, data.owner);
        var auxNext := item.next;
        if Wrap64(data.timestamp + lifespan) < now || data.timestamp > now {
          pool.AllocatedAt(|kept|);
          Release(item, |kept|);
        } else {
          MessagesAppend(kept, stored, item);
          kept := kept + [item];
        }
        item := auxNext;
        i := i + 1;
      }
      SwatheEnds(kept, all);
      assert view[..i] == view && all[..i] == all;
      MinusIff(all, d);
      Members(now);
    }

    /** Returns every buffer, always the first of what is left, as a shutdown does. */
    method Drain()
      requires Valid()
      modifies pool, pool.items`prev, pool.items`next
      ensures Valid() && View() == [] && Slots() == old(Slots()) && pool.items == old(pool.items)
    {
      hide Valid, Pool.Valid, Messages;
      Head();
      var item := pool.allocateditems;
      while item != null
        invariant Valid() && Slots() == old(Slots()) && pool.items == old(pool.items)
        invariant item == Nth(pool.alloc, 0)
        decreases |pool.alloc|
      {
        At(0);
        BehindHead();
        var auxNext := item.next;
        Release(item, 0);
        item := auxNext;
      }
    }

    lemma BehindHead()
      requires Valid() && pool.alloc != []
      ensures Mempool.Without(pool.alloc, pool.alloc[0]) == pool.alloc[1..]
    {
      pool.AllocatedAt(0);
    }
  }
}
