/** Runs of a pool: any sequence of takes and returns, with and without dynamic growth. */
module PoolRuns {
  import opened Mempool

  datatype Op = Get | Put(place: nat)

  /** Dynamic items only exist in the dynamic build, and never rest on the free list. */
  ghost predicate Sound(pool: Pool)
    reads pool, pool.items, pool.free
  {
    pool.Valid() && pool.FreeIsStatic() && (!pool.dynamicBuild ==> forall x :: x in pool.items ==> !x.isDynamic)
  }

  /** The static items of `before` are still there; without growth, nothing else is. */
  ghost predicate Conserves(pool: Pool, before: set<Item>)
    reads pool, pool.items, before
  {
    && (forall x :: x in before && !x.isDynamic ==> x in pool.items)
    && (forall x :: x in pool.items && x !in before ==> x.isDynamic)
    && (!pool.Grows() ==> pool.items <= before)
    && (!pool.dynamicBuild ==> pool.items == before && |pool.free| + |pool.alloc| == |before|)
  }

  /** The item at a place of the allocated list, if there is one. */
  method ItemAt(pool: Pool, place: nat) returns (item: Item?)
    requires pool.Valid()
    ensures item == Nth(pool.alloc, place)
  {
    hide Pool.Valid;
    pool.WalkAllocated(0);
    item := pool.allocateditems;
    var i := 0;
    while i < place && item != null
      invariant i <= place && item == Nth(pool.alloc, i)
    {
      pool.WalkAllocated(i);
      item := item.next;
      i := i + 1;
    }
  }

  lemma SameSize(pool: Pool, before: set<Item>)
    requires pool.Valid() && (!pool.dynamicBuild ==> pool.items == before)
    ensures !pool.dynamicBuild ==> |pool.free| + |pool.alloc| == |before|
  {
    pool.Conserved();
  }

  method StepGet(pool: Pool, ghost before: set<Item>)
    requires Sound(pool) && Conserves(pool, before)
    modifies pool, pool.items`prev, pool.items`next
    ensures Sound(pool) && Conserves(pool, before) && pool.isDynamicAllowed == old(pool.isDynamicAllowed)
    ensures forall x :: x in pool.items ==> x in old(pool.items) || fresh(x)
  {
    hide Pool.Valid;
    var item := pool.GetMemory();
    SameSize(pool, before);
  }

  method StepPut(pool: Pool, item: Item, ghost before: set<Item>)
    requires item in pool.alloc
    requires Sound(pool) && Conserves(pool, before)
    modifies pool, pool.items`prev, pool.items`next
    ensures Sound(pool) && Conserves(pool, before) && pool.isDynamicAllowed == old(pool.isDynamicAllowed)
    ensures forall x :: x in pool.items ==> x in old(pool.items) || fresh(x)
  {
    hide Pool.Valid;
    PutUsed(pool, item);
    SameSize(pool, before);
  }

  /** `PutMemory` on an item in use: a dynamic one is given back to the allocator. */
  method PutUsed(pool: Pool, item: Item)
    requires pool.Valid() && item in pool.alloc
    modifies pool, pool.items`prev, pool.items`next
    ensures pool.Valid() && pool.isDynamicAllowed == old(pool.isDynamicAllowed)
    ensures item in old(pool.items)
    ensures if pool.dynamicBuild && item.isDynamic then
              pool.items == old(pool.items) - {item} && pool.free == old(pool.free)
            else
              pool.items == old(pool.items) && pool.free == [item] + old(pool.free)
  {
    InUse(pool, item);
    hide Pool.Valid;
    pool.PutMemory(item);
  }

  lemma InUse(pool: Pool, item: Item)
    requires pool.Valid() && item in pool.alloc
    ensures item in pool.items && item !in pool.free
  {
  }

  method Step(pool: Pool, op: Op, ghost before: set<Item>)
    requires Sound(pool) && Conserves(pool, before)
    modifies pool, pool.items`prev, pool.items`next
    ensures Sound(pool) && Conserves(pool, before) && pool.isDynamicAllowed == old(pool.isDynamicAllowed)
    ensures forall x :: x in pool.items ==> x in old(pool.items) || fresh(x)
  {
    match op
    case Get =>
      StepGet(pool, before);
    case Put(place) =>
      hide Pool.Valid, Sound, Conserves;
      SoundIsValid(pool);
      var item := ItemAt(pool, place);
      if item != null {
        StepPut(pool, item, before);
      }
  }

  lemma SoundIsValid(pool: Pool)
    requires Sound(pool)
    ensures pool.Valid()
  {
  }

  /** Whatever is taken and returned, static items are never lost and dynamic ones never wait on the free list. */
  method Exercise(pool: Pool, ops: seq<Op>)
    requires Sound(pool)
    modifies pool, pool.items`prev, pool.items`next
    ensures Sound(pool) && Conserves(pool, old(pool.items))
  {
    pool.Conserved();
    hide Sound, Conserves;
    Untouched(pool);
    ghost var before := pool.items;
    for n := 0 to |ops|
      invariant Sound(pool) && Conserves(pool, before)
      invariant forall x :: x in pool.items ==> x in before || fresh(x)
    {
      Step(pool, ops[n], before);
    }
  }

  lemma Untouched(pool: Pool)
    requires Sound(pool)
    ensures Conserves(pool, pool.items)
  {
    pool.Conserved();
  }

  /** What was put back last is what is handed out next; the rest of the allocated list keeps its order. */
  method PutThenGet(pool: Pool, item: Item) returns (again: Item?)
    requires pool.Valid() && item in pool.alloc && !item.isDynamic
    modifies pool, pool.items`prev, pool.items`next
    ensures pool.Valid() && again == item && item in old(pool.alloc)
    ensures pool.alloc == [item] + Without(old(pool.alloc), item) && pool.free == old(pool.free)
  {
    pool.PutMemory(item);
    again := pool.GetMemory();
  }
}
