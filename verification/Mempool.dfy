/** The intrusive memory pool: two doubly linked lists threaded through the items they hold. */
module Mempool {

  /** List node embedded in every pool element; `data` is the untyped back pointer to the element. */
  class Item {
    var prev: Item?
    var next: Item?
    var data: object?
    var isDynamic: bool

    constructor ()
      ensures Detached() && data == null && !isDynamic
    {
      prev, next, data, isDynamic := null, null, null, false;
    }

    /** An item that is on no list. */
    predicate Detached()
      reads this
    {
      prev == null && next == null
    }
  }

  /** Zero-filled storage obtained from the allocator when a pool grows. */
  class Element {
    constructor () {}
  }

  ghost predicate NoDup(s: seq<Item>) {
    forall i, j :: 0 <= i < j < |s| ==> s[i] != s[j]
  }

  ghost function Elems(s: seq<Item>): set<Item> {
    set x | x in s
  }

  /** `head` starts a null-terminated list that visits exactly `s`, with inverse `prev` links. */
  ghost predicate Chain(head: Item?, s: seq<Item>)
    reads s
  {
    && head == (if s == [] then null else s[0])
    && (forall i {:trigger s[i].next} :: 0 <= i < |s| ==> s[i].next == if i + 1 < |s| then s[i + 1] else null)
    && (forall i {:trigger s[i].prev} :: 0 <= i < |s| ==> s[i].prev == if i > 0 then s[i - 1] else null)
  }

  ghost function IndexOf(s: seq<Item>, x: Item): (i: nat)
    requires x in s
    ensures i < |s| && s[i] == x
  {
    var i :| 0 <= i < |s| && s[i] == x; i
  }

  /** The list `s` with `x` taken out. */
  ghost function Without(s: seq<Item>, x: Item): (t: seq<Item>)
    requires x in s
    ensures |t| == |s| - 1
    ensures forall k {:trigger t[k]} :: 0 <= k < |t| ==> t[k] == if k < IndexOf(s, x) then s[k] else s[k + 1]
  {
    var i := IndexOf(s, x);
    s[..i] + s[i + 1..]
  }

  lemma WithoutElems(s: seq<Item>, x: Item)
    requires x in s && NoDup(s)
    ensures Elems(Without(s, x)) == Elems(s) - {x} && NoDup(Without(s, x))
  {
    var i, t := IndexOf(s, x), Without(s, x);
    forall y | y in Elems(s) && y != x
      ensures y in t
    {
      var k :| 0 <= k < |s| && s[k] == y;
      assert t[if k < i then k else k - 1] == y;
    }
  }

  lemma WithoutFront(x: Item, s: seq<Item>)
    requires x !in s
    ensures x in [x] + s && Without([x] + s, x) == s
  {
    assert IndexOf([x] + s, x) == 0;
  }

  lemma WithoutFirst(s: seq<Item>)
    requires s != [] && NoDup(s)
    ensures Without(s, s[0]) == s[1..]
  {
    assert s == [s[0]] + s[1..];
    WithoutFront(s[0], s[1..]);
  }

  /** The list `s` with everything in `d` taken out; the order of the rest is kept. */
  ghost function Minus(s: seq<Item>, d: set<Item>): seq<Item> {
    if s == [] then []
    else if s[|s| - 1] in d then Minus(s[..|s| - 1], d)
    else Minus(s[..|s| - 1], d) + [s[|s| - 1]]
  }

  lemma MinusNothing(d: set<Item>)
    ensures Minus([], d) == []
  {
  }

  lemma MinusStep(s: seq<Item>, d: set<Item>, i: nat)
    requires i < |s|
    ensures Minus(s[..i + 1], d) == if s[i] in d then Minus(s[..i], d) else Minus(s[..i], d) + [s[i]]
  {
    assert s[..i + 1][..i] == s[..i];
  }

  /** The last item of `s` that is in `d`. */
  ghost function LastIn(s: seq<Item>, d: set<Item>): (x: Item?)
    ensures x != null ==> x in s && x in d
  {
    if s == [] then null
    else if s[|s| - 1] in d then s[|s| - 1]
    else LastIn(s[..|s| - 1], d)
  }

  lemma LastInStep(s: seq<Item>, d: set<Item>, i: nat)
    requires i < |s|
    ensures LastIn(s[..i + 1], d) == if s[i] in d then s[i] else LastIn(s[..i], d)
  {
    assert s[..i + 1][..i] == s[..i];
  }

  /** Nothing of `d` stands behind it. */
  lemma {:induction false} LastInIff(s: seq<Item>, d: set<Item>, i: nat)
    requires NoDup(s) && i < |s|
    ensures LastIn(s, d) == s[i] <==> s[i] in d && forall j :: i < j < |s| ==> s[j] !in d
    ensures LastIn(s, d) == null ==> s[i] !in d
  {
    if s[|s| - 1] !in d && i < |s| - 1 {
      LastInIff(s[..|s| - 1], d, i);
    }
  }

  lemma {:induction false} LastInSome(s: seq<Item>, d: set<Item>, x: Item)
    requires x in s && x in d
    ensures LastIn(s, d) != null
  {
    if s[|s| - 1] !in d {
      LastInSome(s[..|s| - 1], d, x);
    }
  }

  /** Taking other items out of a list leaves its last item in `d` where it was. */
  lemma {:induction false} LastInMinus(s: seq<Item>, d: set<Item>, other: set<Item>)
    requires d !! other
    ensures LastIn(Minus(s, other), d) == LastIn(s, d)
  {
    if s != [] {
      var front, x := s[..|s| - 1], s[|s| - 1];
      LastInMinus(front, d, other);
      assert x !in other ==> (Minus(front, other) + [x])[..|Minus(front, other)|] == Minus(front, other);
    }
  }

  lemma {:induction false} ElemsCount(s: seq<Item>)
    requires NoDup(s)
    ensures |Elems(s)| == |s|
  {
    if s != [] {
      var front, x := s[..|s| - 1], s[|s| - 1];
      ElemsCount(front);
      assert s == front + [x];
      ElemsSnoc(front, x);
      assert x !in front;
    }
  }

  lemma ElemsSnoc(s: seq<Item>, x: Item)
    ensures Elems(s + [x]) == Elems(s) + {x}
  {
  }

  lemma {:induction false} MinusElems(s: seq<Item>, d: set<Item>)
    ensures Elems(Minus(s, d)) == Elems(s) - d
  {
    if s != [] {
      var front, x := s[..|s| - 1], s[|s| - 1];
      MinusElems(front, d);
      assert s == front + [x];
      ElemsSnoc(front, x);
      ElemsSnoc(Minus(front, d), x);
    }
  }

  lemma MinusIff(s: seq<Item>, d: set<Item>)
    ensures forall x :: x in s ==> (x in Minus(s, d) <==> x !in d)
  {
    MinusElems(s, d);
    assert forall x :: x in s <==> x in Elems(s);
    assert forall x :: x in Minus(s, d) <==> x in Elems(Minus(s, d));
  }

  lemma NotBefore(s: seq<Item>, i: nat)
    requires NoDup(s) && i < |s|
    ensures s[i] !in s[..i]
  {
  }

  ghost function Nth(s: seq<Item>, i: nat): Item? {
    if i < |s| then s[i] else null
  }

  /** `t` is the list `s` after a walk over its first `i` places has taken out what is in `d`. */
  ghost predicate Walked(t: seq<Item>, s: seq<Item>, d: set<Item>, i: nat) {
    i <= |s| && t == Minus(s[..i], d) + s[i..]
  }

  lemma WalkStarts(s: seq<Item>, d: set<Item>)
    ensures Walked(s, s, d, 0)
  {
  }

  lemma WalkEnds(t: seq<Item>, s: seq<Item>, d: set<Item>)
    requires Walked(t, s, d, |s|)
    ensures t == Minus(s, d)
  {
    assert s[..|s|] == s;
  }

  /** Where the walk stands on the shorter list. */
  lemma WalkStands(t: seq<Item>, s: seq<Item>, d: set<Item>, i: nat) returns (j: nat)
    requires Walked(t, s, d, i) && i < |s|
    ensures j < |t| && t[j] == s[i]
    ensures Nth(t, j + 1) == Nth(s, i + 1)
  {
    j := |Minus(s[..i], d)|;
    assert t[j] == s[i..][0];
    assert j + 1 < |t| ==> t[j + 1] == s[i..][1];
  }

  /** The walk goes on behind the next item, which is taken out first if it is in `d`. */
  lemma WalkSteps(t: seq<Item>, s: seq<Item>, d: set<Item>, i: nat)
    requires Walked(t, s, d, i) && i < |s| && NoDup(t)
    ensures if s[i] in d then s[i] in t && Walked(Without(t, s[i]), s, d, i + 1) else Walked(t, s, d, i + 1)
  {
    MinusStep(s, d, i);
    var front := Minus(s[..i], d);
    assert t == front + [s[i]] + s[i + 1..];
    assert t[|front|] == s[i];
    assert IndexOf(t, s[i]) == |front|;
    if s[i] in d {
      assert Without(t, s[i]) == front + s[i + 1..];
    }
  }

  /** A list whose head points to itself is no null-terminated list at all. */
  lemma SelfLoopIsNoChain(head: Item, s: seq<Item>)
    requires head.next == head
    ensures !(Chain(head, s) && NoDup(s))
  {
    if s != [] && |s| > 1 {
      assert s[0].next == s[1] || !Chain(head, s);
    }
  }

  /** An item determines its successors, so a head is the start of at most one list. */
  lemma {:induction false} ChainUnique(head: Item?, s: seq<Item>, t: seq<Item>, n: nat)
    requires Chain(head, s) && Chain(head, t) && n <= |s|
    ensures s[..n] <= t
    ensures n == |s| ==> s == t
  {
    if n > 0 {
      ChainUnique(head, s, t, n - 1);
      if n >= 2 {
        assert s[n - 2] == s[..n - 1][n - 2] == t[n - 2];
        assert s[n - 2].next == s[n - 1];
        if n - 1 < |t| {
          assert t[n - 2].next == t[n - 1];
        }
      }
      assert s[..n] == s[..n - 1] + [s[n - 1]];
      assert s[n - 1] == t[n - 1];
    }
    if n == |s| && n > 0 {
      assert s[n - 1].next == null && t[n - 1].next == null;
    }
  }

  /** Bridges the neighbours of an item of a list; its own links stay as they are. */
  method Bridge(ghost head: Item?, item: Item, ghost s: seq<Item>)
    requires Chain(head, s) && NoDup(s) && item in s
    modifies Elems(s)`next, Elems(s)`prev
    ensures Chain(if item == head then item.next else head, Without(s, item))
    ensures item.next == old(item.next) && item.prev == old(item.prev)
  {
    ghost var i: int := IndexOf(s, item);
    assert item.prev != null ==> item.prev == s[i - 1];
    assert item.next != null ==> item.next == s[i + 1];
    if item.prev != null {
      item.prev.next := item.next;
    }
    if item.next != null {
      item.next.prev := item.prev;
    }
    assert forall k {:trigger s[k].next} :: 0 <= k < |s| && k != i - 1 ==> s[k].next == old(s[k].next);
    assert forall k {:trigger s[k].prev} :: 0 <= k < |s| && k != i + 1 ==> s[k].prev == old(s[k].prev);
  }

  lemma ChainHead(head: Item?, s: seq<Item>)
    requires Chain(head, s)
    ensures head == Nth(s, 0)
  {
  }

  /** Moves on to the second item of a list, which becomes a head; the first one keeps its links. */
  method Behead(head: Item, ghost s: seq<Item>) returns (next: Item?)
    requires Chain(head, s) && NoDup(s) && s != []
    modifies Elems(s)`prev
    ensures Chain(next, s[1..])
  {
    next := head.next;
    assert next != null ==> next == s[1];
    if next != null {
      next.prev := null;
    }
    assert forall k {:trigger s[k].prev} :: 0 <= k < |s| && k != 1 ==> s[k].prev == old(s[k].prev);
  }

  ghost predicate AllZeroed(s: seq<Item>, from: nat)
    reads s
  {
    forall i {:trigger s[i]} :: from <= i < |s| ==> s[i].Detached() && !s[i].isDynamic
  }

  ghost predicate IsReverse(t: seq<Item>, s: seq<Item>) {
    |t| == |s| && forall i {:trigger t[i]} :: 0 <= i < |t| ==> t[i] == s[|s| - 1 - i]
  }

  lemma ReverseElems(t: seq<Item>, s: seq<Item>)
    requires IsReverse(t, s)
    ensures Elems(t) == Elems(s)
  {
    forall x | x in s
      ensures x in t
    {
      var i :| 0 <= i < |s| && s[i] == x;
      assert t[|s| - 1 - i] == x;
    }
  }

  lemma ReverseStep(t: seq<Item>, s: seq<Item>, n: nat)
    requires NoDup(s) && n < |s| && IsReverse(t, s[..n])
    ensures s[n] !in t && IsReverse([s[n]] + t, s[..n + 1])
  {
  }

  class Pool {
    var allocateditems: Item?
    var freeitems: Item?
    var isInitialized: bool
    var isDynamicAllowed: bool
    /** Whether the build enables dynamic allocations. */
    const dynamicBuild: bool

    ghost var free: seq<Item>
    ghost var alloc: seq<Item>
    ghost var items: set<Item>
    ghost predicate Valid()
      reads this, items
    {
      && items == Elems(free) + Elems(alloc) && Elems(free) !! Elems(alloc)
      && NoDup(free) && NoDup(alloc)
      && Chain(freeitems, free)
      && Chain(allocateditems, alloc)
    }

    ghost predicate Grows()
      reads this
    {
      dynamicBuild && isDynamicAllowed
    }

    /** Dynamic items never rest on the free list. */
    ghost predicate FreeIsStatic()
      reads this, free
    {
      forall i :: 0 <= i < |free| ==> !free[i].isDynamic
    }

    lemma AllocatedAt(i: nat)
      requires Valid() && i < |alloc|
      ensures alloc[i] in items && alloc[i] !in free && IndexOf(alloc, alloc[i]) == i
    {
    }

    /** Following the links from the head visits the allocated items one by one. */
    lemma WalkAllocated(i: nat)
      requires Valid() && i <= |alloc|
      ensures i == 0 ==> allocateditems == if alloc == [] then null else alloc[0]
      ensures i < |alloc| ==> alloc[i] in items && alloc[i].next == if i + 1 < |alloc| then alloc[i + 1] else null
    {
    }

    lemma WalkFree(i: nat)
      requires Valid() && i <= |free|
      ensures i == 0 ==> freeitems == Nth(free, 0)
      ensures i < |free| ==> free[i] in items && free[i].next == Nth(free, i + 1)
    {
    }

    /** Items are conserved: each is on one list, once. */
    lemma Conserved()
      requires Valid()
      ensures |items| == |free| + |alloc|
    {
      ElemsCount(free);
      ElemsCount(alloc);
    }

    lemma Members()
      requires Valid()
      ensures forall i {:trigger free[i]} :: 0 <= i < |free| ==> free[i] in items
      ensures forall i {:trigger alloc[i]} :: 0 <= i < |alloc| ==> alloc[i] in items
    {
    }

    constructor (dynamicBuild: bool)
      ensures Valid() && !isInitialized && items == {} && free == [] && alloc == [] && this.dynamicBuild == dynamicBuild
    {
      this.dynamicBuild := dynamicBuild;
      allocateditems, freeitems := null, null;
      isInitialized, isDynamicAllowed := false, false;
      free, alloc, items := [], [], {};
    }

    method InitSlot(item: Item, element: object)
      requires Valid() && item !in items && item.Detached() && !item.isDynamic && FreeIsStatic()
      modifies this, items`prev, items`next, item`prev, item`next, item`data, item`isDynamic
      ensures Valid() && isInitialized == old(isInitialized) && isDynamicAllowed == old(isDynamicAllowed)
      ensures free == [item] + old(free) && alloc == old(alloc) && items == old(items) + {item}
      ensures item.data == element && FreeIsStatic()
    {
      PutMemory(item);
      item.data := element;
      item.isDynamic := false;
    }

    /** The loop of `Init`. */
    method InitSlots(slots: seq<Item>, elements: seq<object>)
      requires |slots| == |elements| && NoDup(slots) && AllZeroed(slots, 0)
      requires Valid() && free == [] && alloc == [] && items == {}
      modifies this, Elems(slots)`prev, Elems(slots)`next, Elems(slots)`data, Elems(slots)`isDynamic
      ensures Valid() && isInitialized == old(isInitialized) && isDynamicAllowed == old(isDynamicAllowed)
      ensures alloc == [] && IsReverse(free, slots) && FreeIsStatic()
      ensures forall i {:trigger slots[i]} :: 0 <= i < |slots| ==> slots[i].data == elements[i]
    {
      hide Chain;
      for n := 0 to |slots|
        invariant isInitialized == old(isInitialized) && isDynamicAllowed == old(isDynamicAllowed)
        invariant Valid() && alloc == [] && items <= Elems(slots)
        invariant IsReverse(free, slots[..n])
        invariant AllZeroed(slots, n)
        invariant FreeIsStatic()
        invariant forall i {:trigger slots[i]} :: 0 <= i < n ==> slots[i].data == elements[i]
      {
        ReverseStep(free, slots, n);
        InitSlot(slots[n], elements[n]);
      }
      assert slots[..|slots|] == slots;
    }

    /** Threads the zeroed items embedded in a static array onto the free list, once. */
    method Init(slots: seq<Item>, elements: seq<object>)
      requires |slots| == |elements|
      requires !isInitialized ==> NoDup(slots) && AllZeroed(slots, 0)
      modifies this, Elems(slots)`prev, Elems(slots)`next, Elems(slots)`data, Elems(slots)`isDynamic
      ensures isInitialized == (old(isInitialized) || slots != [])
      ensures old(isInitialized) || slots == [] ==> unchanged(this) && forall x :: x in slots ==> unchanged(x)
      ensures !old(isInitialized) && slots != [] ==>
                && Valid() && isDynamicAllowed && items == Elems(slots) && alloc == [] && IsReverse(free, slots)
                && FreeIsStatic()
                && (forall i {:trigger slots[i]} :: 0 <= i < |slots| ==> slots[i].data == elements[i])
    {
      if |slots| > 0 && !isInitialized {
        isInitialized := true;
        allocateditems, freeitems := null, null;
        free, alloc, items := [], [], {};
        isDynamicAllowed := true;
        InitSlots(slots, elements);
        ReverseElems(free, slots);
      }
    }

    method HasMemory() returns (rv: bool)
      requires Valid()
      ensures rv <==> free != []
    {
      rv := freeitems != null;
    }

    /** First half of `GetMemory`: takes the head off the free list. */
    method PopFree() returns (item: Item)
      requires Valid() && free != []
      modifies this, items`prev, items`next
      ensures Valid() && isInitialized == old(isInitialized) && isDynamicAllowed == old(isDynamicAllowed)
      ensures item == old(free)[0] && free == old(free)[1..] && alloc == old(alloc) && items == old(items) - {item}
    {
      hide NoDup, Chain, Without, IndexOf;
      ChainHead(freeitems, free);
      item := freeitems;
      WithoutElems(free, item);
      WithoutFirst(free);
      freeitems := Behead(item, free);
      free, items := Without(free, item), items - {item};
    }

    /** Second half of `GetMemory`: puts a loose item at the front of the allocated list. */
    method PushAllocated(item: Item)
      requires Valid() && item !in items
      modifies this, items`prev, item`prev, item`next
      ensures Valid() && isInitialized == old(isInitialized) && isDynamicAllowed == old(isDynamicAllowed)
      ensures free == old(free) && alloc == [item] + old(alloc) && items == old(items) + {item}
    {
      item.next := allocateditems;
      if item.next != null {
        item.next.prev := item;
      }
      item.prev := null;
      allocateditems := item;
      alloc, items := [item] + alloc, items + {item};
    }

    method GetMemory() returns (item: Item?)
      requires Valid()
      modifies this, items`prev, items`next
      ensures Valid()
      ensures isInitialized == old(isInitialized) && isDynamicAllowed == old(isDynamicAllowed)
      ensures old(free) != [] ==>
                && item == old(free)[0] && free == old(free)[1..] && alloc == [item] + old(alloc)
                && items == old(items)
      ensures old(free) == [] && !Grows() ==>
                item == null && free == old(free) && alloc == old(alloc) && items == old(items)
      ensures old(free) == [] && Grows() ==>
                && item != null && fresh(item) && item.isDynamic && item.data != null && fresh(item.data)
                && free == [] && alloc == [item] + old(alloc) && items == old(items) + {item}
      decreases if free == [] then 2 else 0
    {
      var available := HasMemory();
      if available {
        item := PopFree();
        PushAllocated(item);
      } else if isDynamicAllowed && dynamicBuild {
        item := Grow();
      } else {
        item := null;
      }
    }

    /** The dynamic branch of `GetMemory`: a new element passes through the free list once. */
    method Grow() returns (item: Item)
      requires Valid() && free == [] && Grows()
      modifies this, items`prev, items`next
      ensures Valid()
      ensures isInitialized == old(isInitialized) && isDynamicAllowed == old(isDynamicAllowed)
      ensures fresh(item) && item.isDynamic && item.data != null && fresh(item.data)
      ensures free == [] && alloc == [item] + old(alloc) && items == old(items) + {item}
      decreases 1
    {
      item := new Item();
      item.data := new Element();
      item.isDynamic := false;
      PutMemory(item);
      item.isDynamic := true;
      var again := GetMemory();
      item := again;
    }

    /**
     * First half of `PutMemory`: bridges the neighbours of `item`. Only the head of the allocated list is
     * re-anchored, so the head of the free list stays where it is when it is the item that leaves.
     */
    method Unlink(item: Item)
      requires Valid()
      requires item in alloc || item in free || (item !in items && item.Detached())
      modifies this, items`prev, items`next, item`prev, item`next
      ensures isInitialized == old(isInitialized) && isDynamicAllowed == old(isDynamicAllowed)
      ensures items == old(items) - {item}
      ensures old(free == [] || item != free[0]) ==> Valid()
      ensures old(free != [] && item == free[0]) ==> freeitems == item
      ensures alloc == if item in old(alloc) then Without(old(alloc), item) else old(alloc)
      ensures free == if item in old(free) then Without(old(free), item) else old(free)
    {
      hide NoDup;
      ghost var head, s := item, [item];
      if item in alloc {
        head, s := allocateditems, alloc;
      } else if item in free {
        head, s := freeitems, free;
      }
      WithoutElems(s, item);
      Bridge(head, item, s);
      if item in alloc {
        alloc := Without(alloc, item);
      } else if item in free {
        free := Without(free, item);
      }
      if allocateditems == item {
        allocateditems := item.next;
      }
      items := items - {item};
    }

    /** Second half of `PutMemory`: puts `item` at the front of the free list. */
    method PushFree(item: Item)
      requires item !in items && (freeitems != item ==> Valid())
      modifies this, items`prev, item`prev, item`next
      ensures isInitialized == old(isInitialized) && isDynamicAllowed == old(isDynamicAllowed)
      ensures old(freeitems) != item ==> Valid()
      ensures old(freeitems) == item ==> freeitems == item && item.next == item
      ensures free == [item] + old(free) && alloc == old(alloc) && items == old(items) + {item}
    {
      item.next := freeitems;
      if item.next != null {
        item.next.prev := item;
      }
      item.prev := null;
      freeitems := item;
      free, items := [item] + free, items + {item};
    }

    method PutMemory(item: Item)
      requires Valid()
      requires item in alloc || item in free || (item !in items && item.Detached())
      modifies this, items`prev, items`next, item`prev, item`next
      ensures isInitialized == old(isInitialized) && isDynamicAllowed == old(isDynamicAllowed)
      ensures alloc == if item in old(alloc) then Without(old(alloc), item) else old(alloc)
      ensures dynamicBuild && item.isDynamic && item !in old(free) ==>
                Valid() && items == old(items) - {item} && free == old(free)
      ensures !(dynamicBuild && item.isDynamic) ==>
                items == (if item in old(items) then old(items) else old(items) + {item})
      ensures !(dynamicBuild && item.isDynamic) ==>
                free == [item] + (if item in old(free) then Without(old(free), item) else old(free))
      ensures !(dynamicBuild && item.isDynamic) && old(free == [] || item != free[0]) ==> Valid()
      ensures !(dynamicBuild && item.isDynamic) && old(free != [] && item == free[0]) ==>
                !Valid() && freeitems == item && item.next == item
    {
      Unlink(item);
      if dynamicBuild && item.isDynamic {
        // The memory of the item goes back to the allocator
        return;
      }
      PushFree(item);
    }
  }
}
