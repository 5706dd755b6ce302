/** Each step of the history cache, seen as a step of one bounded queue per owner. */
module Refinement {
  import opened Integers
  import opened History

  /** A bounded queue receives `r`; `room` says whether the shared pool has an unused buffer. */
  ghost function Offer(q: seq<Rec>, qos: Qos, room: bool, r: Rec, copied: bool): seq<Rec> {
    if qos.history.Unrecognized? then q
    else if qos.depth == 0 || |q| < qos.depth then
      if room && copied then q + [r] else q
    else if qos.history.KeepAll? then q
    else if copied then q[1..] + [r]
    else q[1..]
  }

  /** Nothing that belongs to `o` is stamped with the time at which the scan gives up. */
  ghost predicate AllSeen(c: seq<Rec>, o: Handle) {
    forall i {:trigger c[i]} :: 0 <= i < |c| && c[i].owner == o ==> c[i].timestamp < INT64_MAX
  }

  lemma {:induction false} CountIsQueueLength(c: seq<Rec>, o: Handle)
    ensures |Queue(c, o)| <= Count(c, o)
    ensures |Queue(c, o)| == Count(c, o) <==> AllSeen(c, o)
  {
    if c != [] {
      var c0 := c[..|c| - 1];
      CountIsQueueLength(c0, o);
      assert forall i {:trigger c[i]} :: 0 <= i < |c0| ==> c[i] == c0[i];
      assert AllSeen(c, o) ==> AllSeen(c0, o) by {
        if AllSeen(c, o) {
          forall i {:trigger c0[i]} | 0 <= i < |c0| && c0[i].owner == o
            ensures c0[i].timestamp < INT64_MAX
          {
            assert c[i] == c0[i];
          }
        }
      }
    }
  }

  /** `r` is younger than every message its owner has stored. */
  ghost predicate Youngest(c: seq<Rec>, r: Rec) {
    && r.timestamp < INT64_MAX
    && forall i {:trigger c[i]} :: 0 <= i < |c| && c[i].owner == r.owner ==> c[i].timestamp < r.timestamp
  }

  /** An arrival leaves every other owner's queue as it was, whatever its timestamp. */
  lemma ArriveKeepsOthers(c: seq<Rec>, slots: nat, qos: Qos, r: Rec, copied: bool, p: Handle)
    requires p != r.owner
    ensures Queue(Arrive(c, slots, qos, r, copied), p) == Queue(c, p)
  {
    match Acquire(c, slots, r.owner, qos)
    case Nowhere =>
    case Unused =>
      InvisibleWithout([r] + c, 0, p);
      assert Without([r] + c, 0) == c;
    case Over(i) =>
      InvisibleWithout(c, i, p);
      InvisibleWithout(c[i := r], i, p);
      assert Without(c[i := r], i) == Without(c, i);
  }

  /** A take removes the head of the taker's queue and leaves every other queue as it was. */
  lemma TakeRefinesDequeue(c: seq<Rec>, o: Handle, p: Handle)
    ensures Oldest(c, o) < 0 <==> Queue(c, o) == []
    ensures Oldest(c, o) >= 0 ==> c[Oldest(c, o)] == Queue(c, o)[0]
    ensures Queue(Take(c, o), p) == if p == o && Queue(c, o) != [] then Queue(c, o)[1..] else Queue(c, p)
  {
    OldestIsHead(c, o);
    if p != o && Oldest(c, o) >= 0 {
      InvisibleWithout(c, Oldest(c, o), p);
    }
  }

  // ---------------------------------------------------------------- arrival order and timestamp ties

  /**
   * An arrival whose bytes are copied comes behind everything its owner has stored. In an unused buffer it must be
   * strictly younger, because that buffer is scanned first; over the oldest, a tie is harmless with the buffers in
   * front. No order is at stake between copies of the very same message.
   */
  ghost predicate JoinsEnd(c: seq<Rec>, slots: nat, qos: Qos, r: Rec) {
    match Acquire(c, slots, r.owner, qos)
    case Nowhere => true
    case Unused =>
      && r.timestamp < INT64_MAX
      && forall j {:trigger c[j]} :: 0 <= j < |c| && Visible(c[j], r.owner) ==>
           c[j].timestamp < r.timestamp || c[j] == r
    case Over(i) =>
      && r.timestamp < INT64_MAX
      && forall j {:trigger c[j]} :: 0 <= j < |c| && j != i && Visible(c[j], r.owner) ==>
           c[j].timestamp < r.timestamp || (c[j].timestamp == r.timestamp && j < i) || c[j] == r
  }

  lemma PushedJoinsEndIff(c: seq<Rec>, r: Rec)
    ensures Queue([r] + c, r.owner) == Queue(c, r.owner) + [r]
            <==> && r.timestamp < INT64_MAX
                 && forall j {:trigger c[j]} :: 0 <= j < |c| && Visible(c[j], r.owner) ==>
                      c[j].timestamp < r.timestamp || c[j] == r
  {
    hide Queue;
    var c' := [r] + c;
    assert Without(c', 0) == c;
    if r.timestamp < INT64_MAX {
      LastIffComesLast(c', 0, r.owner);
      assert forall j {:trigger c[j]} :: 0 <= j < |c| ==> c'[j + 1] == c[j];
      assert forall j {:trigger c'[j]} :: 0 < j < |c'| ==> c'[j] == c[j - 1];
    } else {
      InvisibleWithout(c', 0, r.owner);
    }
  }

  lemma OverwrittenJoinsEndIff(c: seq<Rec>, i: nat, r: Rec)
    requires i < |c|
    ensures Queue(c[i := r], r.owner) == Queue(Without(c, i), r.owner) + [r]
            <==> && r.timestamp < INT64_MAX
                 && forall j {:trigger c[j]} :: 0 <= j < |c| && j != i && Visible(c[j], r.owner) ==>
                      c[j].timestamp < r.timestamp || (c[j].timestamp == r.timestamp && j < i) || c[j] == r
  {
    hide Queue;
    var c' := c[i := r];
    assert Without(c', i) == Without(c, i);
    if r.timestamp < INT64_MAX {
      LastIffComesLast(c', i, r.owner);
      assert forall j {:trigger c[j]} {:trigger c'[j]} :: 0 <= j < |c| && j != i ==> c'[j] == c[j];
    } else {
      InvisibleWithout(c', i, r.owner);
    }
  }

  /** Exactly when a stored message joins the end of its owner's queue, behind what it leaves there. */
  lemma ArrivalJoinsEndIff(c: seq<Rec>, slots: nat, qos: Qos, r: Rec)
    ensures var c' := Arrive(c, slots, qos, r, true);
            match Acquire(c, slots, r.owner, qos)
            case Nowhere => c' == c
            case Unused => Queue(c', r.owner) == Queue(c, r.owner) + [r] <==> JoinsEnd(c, slots, qos, r)
            case Over(_) =>
              && Queue(c, r.owner) != []
              && (Queue(c', r.owner) == Queue(c, r.owner)[1..] + [r] <==> JoinsEnd(c, slots, qos, r))
  {
    hide Queue, Count, Oldest, Insert;
    OldestIsHead(c, r.owner);
    match Acquire(c, slots, r.owner, qos)
    case Nowhere =>
    case Unused => PushedJoinsEndIff(c, r);
    case Over(i) =>
      OverwrittenJoinsEndIff(c, i, r);
      assert Queue(c, r.owner)[1..] == Queue(Without(c, i), r.owner);
  }

  /** An arrival acts as an offer to the owner's queue exactly when it joins its end, or its bytes are not copied. */
  lemma ArriveRefinesOfferIff(c: seq<Rec>, slots: nat, qos: Qos, r: Rec, copied: bool)
    requires AllSeen(c, r.owner)
    ensures Queue(Arrive(c, slots, qos, r, copied), r.owner) == Offer(Queue(c, r.owner), qos, |c| < slots, r, copied)
            <==> (copied ==> JoinsEnd(c, slots, qos, r))
  {
    hide Queue, Count, Oldest, Insert, JoinsEnd;
    AcquireByQueue(c, slots, qos, r.owner);
    ArrivalJoinsEndIff(c, slots, qos, r);
    OldestIsHead(c, r.owner);
    if Acquire(c, slots, r.owner, qos) == Nowhere {
      NowhereJoinsEnd(c, slots, qos, r);
    }
  }

  lemma NowhereJoinsEnd(c: seq<Rec>, slots: nat, qos: Qos, r: Rec)
    requires Acquire(c, slots, r.owner, qos) == Nowhere
    ensures JoinsEnd(c, slots, qos, r)
  {
  }

  /** Which buffer is acquired, told from the queue. */
  lemma AcquireByQueue(c: seq<Rec>, slots: nat, qos: Qos, o: Handle)
    requires AllSeen(c, o)
    ensures var q, a := Queue(c, o), Acquire(c, slots, o, qos);
            if qos.history.Unrecognized? then a == Nowhere
            else if qos.depth == 0 || |q| < qos.depth then a == if |c| < slots then Unused else Nowhere
            else if qos.history.KeepAll? then a == Nowhere
            else q != [] && Oldest(c, o) >= 0 && a == Over(Oldest(c, o))
  {
    hide Queue, Count, Oldest;
    CountIsQueueLength(c, o);
    OldestIsHead(c, o);
  }

  lemma YoungestJoinsEnd(c: seq<Rec>, slots: nat, qos: Qos, r: Rec)
    requires Youngest(c, r)
    ensures AllSeen(c, r.owner) && JoinsEnd(c, slots, qos, r)
  {
  }

  /** An arrival that is younger than what its owner has stored is an offer to its owner's queue. */
  lemma ArriveRefinesOffer(c: seq<Rec>, slots: nat, qos: Qos, r: Rec, copied: bool)
    requires Youngest(c, r)
    ensures Queue(Arrive(c, slots, qos, r, copied), r.owner)
         == Offer(Queue(c, r.owner), qos, |c| < slots, r, copied)
  {
    hide Queue, Offer, Arrive, JoinsEnd, Youngest, AllSeen;
    YoungestJoinsEnd(c, slots, qos, r);
    ArriveRefinesOfferIff(c, slots, qos, r, copied);
  }

  /** What is stored stays visible as long as every stored arrival is. */
  lemma ArriveKeepsSeen(c: seq<Rec>, slots: nat, qos: Qos, r: Rec, copied: bool, o: Handle)
    requires AllSeen(c, o) && (r.owner == o && copied ==> JoinsEnd(c, slots, qos, r))
    ensures AllSeen(Arrive(c, slots, qos, r, copied), o)
  {
    hide Count, Oldest;
  }

  /** Two messages stamped alike, each in an unused buffer: the later one is taken first. */
  lemma TieReversesArrivals(o: Handle, a: Rec, b: Rec)
    requires a.owner == b.owner == o && a.timestamp == b.timestamp < INT64_MAX
    ensures var qos := Qos(KeepLast, 4, 0);
            var c := Arrive(Arrive([], 8, qos, a, true), 8, qos, b, true);
            Queue(c, o) == [b, a]
  {
    var qos := Qos(KeepLast, 4, 0);
    var c := [b, a];
    assert [a][..0] == [] && c[..1] == [b] && [b][..0] == [];
    assert Arrive([], 8, qos, a, true) == [a];
    assert Count([a], o) == 1;
    assert Arrive([a], 8, qos, b, true) == c;
    assert Queue([b], o) == [b];
    assert Insert([b], a) == [b, a];
  }

  /** A message stamped with the largest time takes up a buffer, but is never found. */
  lemma LargestTimeIsNeverFound(o: Handle, r: Rec)
    requires r.owner == o && r.timestamp == INT64_MAX
    ensures var c := Arrive([], 1, Qos(KeepLast, 1, 0), r, true);
            c == [r] && Count(c, o) == 1 && Oldest(c, o) < 0 && Queue(c, o) == [] && Take(c, o) == c
  {
    assert [r][..0] == [];
  }

  // ---------------------------------------------------------------- expiry

  /**
   * The sweep keeps a buffer exactly when it is neither from the future nor outlived, and the end of its life is
   * representable; a live buffer whose end overflows is removed.
   */
  lemma KeptIff(r: Rec, now: Int64)
    ensures Kept(r, now) <==> r.timestamp <= now <= r.timestamp + r.lifespan && r.timestamp + r.lifespan <= INT64_MAX
  {
    var e := r.timestamp + r.lifespan;
    if e > INT64_MAX {
      assert e - TWO_TO_THE_64 < 0 && Wrap64(e) == e - TWO_TO_THE_64;
    } else if e >= 0 {
      assert Wrap64(e) == e;
    } else {
      assert e % TWO_TO_THE_64 == e + TWO_TO_THE_64;
    }
  }

  /** With an infinite lifespan, the largest 64-bit number, every message stamped after time 0 is swept at once. */
  lemma InfiniteLifespanIsSwept(r: Rec, now: Int64)
    requires r.timestamp > 0 && r.lifespan == INT64_MAX
    ensures !Kept(r, now)
  {
    KeptIff(r, now);
  }

  lemma {:induction false} FilterMembers(c: seq<Rec>, keep: Rec -> bool)
    ensures forall x :: x in Filter(c, keep) <==> x in c && keep(x)
  {
    if c != [] {
      FilterMembers(c[..|c| - 1], keep);
      assert c == c[..|c| - 1] + [c[|c| - 1]];
    }
  }

  lemma FilterStep(q: seq<Rec>, r: Rec, keep: Rec -> bool)
    ensures Filter(q + [r], keep) == if keep(r) then Filter(q, keep) + [r] else Filter(q, keep)
  {
    assert (q + [r])[..|q|] == q;
  }

  lemma {:induction false} FilterInsert(q: seq<Rec>, r: Rec, keep: Rec -> bool)
    requires Sorted(q)
    ensures Filter(Insert(q, r), keep) == if keep(r) then Insert(Filter(q, keep), r) else Filter(q, keep)
  {
    hide Filter;
    if q == [] || q[|q| - 1].timestamp <= r.timestamp {
      FilterStep(q, r, keep);
      FilterMembers(q, keep);
      var f := Filter(q, keep);
      if f != [] {
        assert f[|f| - 1] in f;
      }
    } else {
      var q0, last := q[..|q| - 1], q[|q| - 1];
      assert q == q0 + [last];
      FilterInsert(q0, r, keep);
      FilterStep(q0, last, keep);
      FilterStep(Insert(q0, r), last, keep);
      assert Insert(q, r) == Insert(q0, r) + [last];
      if keep(last) {
        InsertBeforeLast(Filter(q0, keep), last, r);
      }
    }
  }

  /** Filtering the list filters every queue: survivors keep their order. */
  lemma {:induction false} QueueOfFilter(c: seq<Rec>, o: Handle, keep: Rec -> bool)
    ensures Queue(Filter(c, keep), o) == Filter(Queue(c, o), keep)
  {
    if c != [] {
      hide Queue, Filter, Insert;
      var c0, r := c[..|c| - 1], c[|c| - 1];
      QueueStep(c, o);
      QueueOfFilter(c0, o, keep);
      QueueSorted(c0, o);
      if Visible(r, o) {
        FilterInsert(Queue(c0, o), r, keep);
      }
      assert c == c0 + [r];
      FilterStep(c0, r, keep);
      if keep(r) {
        QueueStep(Filter(c, keep), o);
        assert Filter(c, keep)[..|Filter(c, keep)| - 1] == Filter(c0, keep);
      }
    }
  }

  lemma {:induction false} FilterAll(q: seq<Rec>, keep: Rec -> bool)
    requires forall i :: 0 <= i < |q| ==> keep(q[i])
    ensures Filter(q, keep) == q
  {
    if q != [] {
      var q0, r := q[..|q| - 1], q[|q| - 1];
      assert q == q0 + [r];
      FilterAll(q0, keep);
    }
  }

  lemma {:induction false} FilterNone(q: seq<Rec>, keep: Rec -> bool)
    requires forall i :: 0 <= i < |q| ==> !keep(q[i])
    ensures Filter(q, keep) == []
  {
    if q != [] {
      FilterNone(q[..|q| - 1], keep);
    }
  }

  lemma {:induction false} FilterConcat(p: seq<Rec>, q: seq<Rec>, keep: Rec -> bool)
    ensures Filter(p + q, keep) == Filter(p, keep) + Filter(q, keep)
  {
    if q == [] {
      assert p + q == p;
    } else {
      hide Filter;
      var q0, r := q[..|q| - 1], q[|q| - 1];
      FilterConcat(p, q0, keep);
      FilterStep(q0, r, keep);
      FilterStep(p + q0, r, keep);
      assert q == q0 + [r] && p + q == p + q0 + [r];
    }
  }

  lemma FilterWindow(q: seq<Rec>, a: nat, b: nat, keep: Rec -> bool)
    requires a <= b <= |q| && forall i :: 0 <= i < |q| ==> (keep(q[i]) <==> a <= i < b)
    ensures Filter(q, keep) == q[a..b]
  {
    hide Filter;
    var front, middle, back := q[..a], q[a..b], q[b..];
    FilterNone(front, keep);
    FilterAll(middle, keep);
    FilterNone(back, keep);
    FilterConcat(front, middle, keep);
    FilterConcat(front + middle, back, keep);
    assert q == front + middle + back;
  }

  /** The sweep sweeps every owner's queue. */
  lemma SweepRefinesFilter(c: seq<Rec>, o: Handle, now: Int64)
    ensures Queue(Swept(c, now), o) == Swept(Queue(c, o), now)
  {
    QueueOfFilter(c, o, KeptAt(now));
  }

  /**
   * What the sweep leaves of a queue with one lifespan is a contiguous stretch of it: the expired front is gone, and
   * behind it only messages from the future or with an overflowing end are.
   */
  lemma SweepLeavesWindow(q: seq<Rec>, now: Int64, lifespan: Duration) returns (a: nat, b: nat)
    requires Sorted(q) && forall i :: 0 <= i < |q| ==> q[i].lifespan == lifespan
    ensures a <= b <= |q| && Swept(q, now) == q[a..b]
    ensures forall i :: 0 <= i < |q| ==> (i < a <==> q[i].timestamp + lifespan < now)
    ensures forall i :: b <= i < |q| ==> q[i].timestamp > now || q[i].timestamp + lifespan > INT64_MAX
    ensures b < |q| ==> q[b].timestamp > now || q[b].timestamp + lifespan > INT64_MAX
  {
    hide Filter, Kept;
    a := 0;
    while a < |q| && q[a].timestamp + lifespan < now
      invariant a <= |q|
      invariant forall i :: 0 <= i < a ==> q[i].timestamp + lifespan < now
    {
      a := a + 1;
    }
    assert forall i :: a <= i < |q| ==> q[a].timestamp <= q[i].timestamp;
    b := a;
    while b < |q| && q[b].timestamp <= now && q[b].timestamp + lifespan <= INT64_MAX
      invariant a <= b <= |q|
      invariant forall i :: a <= i < b ==> q[i].timestamp <= now && q[i].timestamp + lifespan <= INT64_MAX
    {
      b := b + 1;
    }
    forall i | 0 <= i < |q|
      ensures KeptAt(now)(q[i]) <==> a <= i < b
    {
      KeptIff(q[i], now);
      if i >= b {
        assert q[b].timestamp <= q[i].timestamp;
      }
    }
    FilterWindow(q, a, b, KeptAt(now));
  }

  /**
   * With a clock that has not run back, and lifespans that fit, the sweep only takes an expired front off the
   * queue.
   */
  lemma SweepDropsFront(q: seq<Rec>, now: Int64, lifespan: Duration) returns (a: nat)
    requires Sorted(q) && forall i :: 0 <= i < |q| ==> q[i].lifespan == lifespan
    requires forall i :: 0 <= i < |q| ==> q[i].timestamp <= now && q[i].timestamp + lifespan <= INT64_MAX
    ensures a <= |q| && Swept(q, now) == q[a..]
    ensures forall i :: 0 <= i < |q| ==> (i < a <==> q[i].timestamp + lifespan < now)
  {
    hide Filter, Kept;
    var b;
    a, b := SweepLeavesWindow(q, now, lifespan);
    assert q[a..|q|] == q[a..];
  }
}
