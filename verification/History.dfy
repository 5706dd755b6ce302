/**
 * The history cache as a list of stored messages, in the order of the allocated list of the buffer pool,
 * and the queue that each owner sees in it.
 */
module History {
  import opened Integers

  /** A length of time in nanoseconds. */
  type Duration = x: int | 0 <= x <= INT64_MAX

  datatype HistoryPolicy = SystemDefault | KeepLast | KeepAll | Unknown | Unrecognized

  /** The part of a QoS profile that the cache looks at; `lifespan` in nanoseconds, 0 when unspecified. */
  datatype Qos = Qos(history: HistoryPolicy, depth: nat, lifespan: Duration)

  /** Address of an entity: a place in one of the static arrays, or the null pointer. */
  datatype Handle = Null | SubscriptionSlot(index: nat) | ServiceSlot(index: nat) | ClientSlot(index: nat)

  datatype EntityType =
    | UnknownEntity | NodeEntity | TopicEntity | ServiceEntity | ClientEntity | SubscriptionEntity | PublisherEntity

  datatype Guid = Guid(prefix: seq<bv8>, key: seq<bv8>, kind: bv8)
  datatype SampleIdentity = SampleIdentity(guid: Guid, high: Int32, low: UInt32)

  /** What a request or a reply carries besides its bytes. */
  datatype Related = NoRelated | ReplyId(reply: Int64) | SampleId(sample: SampleIdentity)

  /** A stored message: `lifespan` is the one in force for its owner. */
  datatype Rec = Rec(owner: Handle, timestamp: Int64, lifespan: Duration,
                     kind: EntityType, bytes: seq<bv8>, related: Related)

  const DEFAULT_LIFESPAN: Duration := 30_000_000_000
  const UNKNOWN_LIFESPAN: Duration := 1

  /** The lifespan the sweep applies to the buffers of an entity. */
  function EffectiveLifespan(lifespan: Duration): Duration {
    if lifespan == 0 then DEFAULT_LIFESPAN else lifespan
  }

  // ---------------------------------------------------------------- scans of the list

  function Without(c: seq<Rec>, i: nat): (r: seq<Rec>)
    requires i < |c|
    ensures |r| == |c| - 1
    ensures forall k {:trigger r[k]} :: 0 <= k < |r| ==> r[k] == if k < i then c[k] else c[k + 1]
  {
    c[..i] + c[i + 1..]
  }

  function Count(c: seq<Rec>, o: Handle): nat {
    if c == [] then 0
    else Count(c[..|c| - 1], o) + if c[|c| - 1].owner == o then 1 else 0
  }

  predicate Visible(r: Rec, o: Handle) {
    r.owner == o && r.timestamp < INT64_MAX
  }

  /** Index of the first buffer of `o` with the least timestamp, or -1: the scan over the allocated list. */
  function Oldest(c: seq<Rec>, o: Handle): (i: int)
    ensures -1 <= i < |c|
    ensures i >= 0 ==> Visible(c[i], o)
  {
    if c == [] then -1
    else
      var n := |c| - 1;
      var best := Oldest(c[..n], o);
      if c[n].owner == o && c[n].timestamp < (if best < 0 then INT64_MAX else c[best].timestamp) then n else best
  }

  /** One turn of the counting loop. */
  lemma CountFold(c: seq<Rec>, i: nat, o: Handle)
    requires i < |c|
    ensures Count(c[..i + 1], o) == Count(c[..i], o) + if c[i].owner == o then 1 else 0
  {
    assert c[..i + 1][..i] == c[..i];
  }

  lemma CountNothing(o: Handle)
    ensures Count([], o) == 0
  {
  }

  lemma OldestNothing(o: Handle)
    ensures Oldest([], o) == -1
  {
  }

  /** One turn of the loop that looks for the oldest buffer. */
  lemma OldestFold(c: seq<Rec>, i: nat, o: Handle)
    requires i < |c|
    ensures var best := Oldest(c[..i], o);
            Oldest(c[..i + 1], o) ==
            if c[i].owner == o && c[i].timestamp < (if best < 0 then INT64_MAX else c[best].timestamp) then i else best
  {
    assert c[..i + 1][..i] == c[..i];
  }

  lemma OldestStep(c: seq<Rec>, o: Handle)
    requires c != []
    ensures var n, best := |c| - 1, Oldest(c[..|c| - 1], o);
            Oldest(c, o) ==
            if c[n].owner == o && c[n].timestamp < (if best < 0 then INT64_MAX else c[best].timestamp) then n else best
  {
  }

  /** Whether the sweep at time `now` leaves a buffer alone; the sum wraps as 64-bit addition does. */
  predicate Kept(r: Rec, now: Int64) {
    !(Wrap64(r.timestamp + r.lifespan) < now || r.timestamp > now)
  }

  function Filter(c: seq<Rec>, keep: Rec -> bool): seq<Rec> {
    if c == [] then []
    else
      var f := Filter(c[..|c| - 1], keep);
      if keep(c[|c| - 1]) then f + [c[|c| - 1]] else f
  }

  function KeptAt(now: Int64): Rec -> bool {
    r => Kept(r, now)
  }

  function Swept(c: seq<Rec>, now: Int64): seq<Rec> {
    Filter(c, KeptAt(now))
  }

  /** One turn of the sweeping loop. */
  lemma FilterFold(c: seq<Rec>, i: nat, keep: Rec -> bool)
    requires i < |c|
    ensures Filter(c[..i + 1], keep) == if keep(c[i]) then Filter(c[..i], keep) + [c[i]] else Filter(c[..i], keep)
  {
    assert c[..i + 1][..i] == c[..i];
  }

  lemma FilterNothing(keep: Rec -> bool)
    ensures Filter([], keep) == []
  {
  }

  // ---------------------------------------------------------------- arrivals

  /** Where an arriving message goes: nowhere, into an unused buffer, or over the `i`-th stored one. */
  datatype Acquired = Nowhere | Unused | Over(i: nat)

  /** The buffer that is found for a message to `o`, with `slots` buffers in the pool. */
  function Acquire(c: seq<Rec>, slots: nat, o: Handle, qos: Qos): (a: Acquired)
    ensures a.Unused? ==> |c| < slots
    ensures a.Over? ==> a.i < |c| && Visible(c[a.i], o)
  {
    var room := if |c| < slots then Unused else Nowhere;
    match qos.history
    case Unrecognized => Nowhere
    case KeepAll => if qos.depth == 0 || Count(c, o) < qos.depth then room else Nowhere
    case _ =>
      if qos.depth == 0 || Count(c, o) < qos.depth then room
      else if Oldest(c, o) < 0 then Nowhere else Over(Oldest(c, o))
  }

  /** The stored messages after `r` arrived; `copied` says whether its bytes could be read into the buffer. */
  function Arrive(c: seq<Rec>, slots: nat, qos: Qos, r: Rec, copied: bool): seq<Rec> {
    match Acquire(c, slots, r.owner, qos)
    case Nowhere => c
    case Unused => if copied then [r] + c else c
    case Over(i) => if copied then c[i := r] else Without(c, i)
  }

  /** The stored messages after `o` took one. */
  function Take(c: seq<Rec>, o: Handle): seq<Rec> {
    if Oldest(c, o) < 0 then c else Without(c, Oldest(c, o))
  }

  // ---------------------------------------------------------------- the queue of an owner

  ghost predicate Sorted(q: seq<Rec>) {
    forall i, j :: 0 <= i < j < |q| ==> q[i].timestamp <= q[j].timestamp
  }

  /** Stable insertion: `r` goes behind every message that is not younger. */
  ghost function Insert(q: seq<Rec>, r: Rec): (s: seq<Rec>)
    ensures |s| == |q| + 1
  {
    if q == [] || q[|q| - 1].timestamp <= r.timestamp then q + [r]
    else Insert(q[..|q| - 1], r) + [q[|q| - 1]]
  }

  /** The messages of `o`, stably sorted by timestamp: what `o` would take, in that order. */
  ghost function Queue(c: seq<Rec>, o: Handle): seq<Rec> {
    if c == [] then []
    else
      var q := Queue(c[..|c| - 1], o);
      if Visible(c[|c| - 1], o) then Insert(q, c[|c| - 1]) else q
  }

  lemma {:induction false} InsertMembers(q: seq<Rec>, r: Rec)
    ensures forall x :: x in Insert(q, r) <==> x in q || x == r
  {
    if q != [] && q[|q| - 1].timestamp > r.timestamp {
      InsertMembers(q[..|q| - 1], r);
      assert q == q[..|q| - 1] + [q[|q| - 1]];
    }
  }

  lemma {:induction false} InsertSorted(q: seq<Rec>, r: Rec)
    requires Sorted(q)
    ensures Sorted(Insert(q, r))
  {
    if q != [] && q[|q| - 1].timestamp > r.timestamp {
      var q0, last := q[..|q| - 1], q[|q| - 1];
      InsertSorted(q0, r);
      InsertMembers(q0, r);
      var s := Insert(q0, r);
      assert forall x :: x in q0 ==> x.timestamp <= last.timestamp;
      forall i | 0 <= i < |s|
        ensures s[i].timestamp <= last.timestamp
      {
        assert s[i] in s;
      }
    }
  }

  /** The queue of `o` holds exactly the messages `o` sees, */
  lemma {:induction false} QueueMembers(c: seq<Rec>, o: Handle)
    ensures forall x :: x in Queue(c, o) <==> x in c && Visible(x, o)
  {
    if c != [] {
      var c0, r := c[..|c| - 1], c[|c| - 1];
      QueueMembers(c0, o);
      InsertMembers(Queue(c0, o), r);
      assert c == c0 + [r];
    }
  }

  /** oldest first. */
  lemma {:induction false} QueueSorted(c: seq<Rec>, o: Handle)
    ensures Sorted(Queue(c, o))
  {
    if c != [] {
      QueueSorted(c[..|c| - 1], o);
      InsertSorted(Queue(c[..|c| - 1], o), c[|c| - 1]);
    }
  }

  lemma PrefixWithout(c: seq<Rec>, i: nat)
    requires i < |c| - 1
    ensures Without(c, i)[..|c| - 2] == Without(c[..|c| - 1], i) && Without(c, i)[|c| - 2] == c[|c| - 1]
  {
  }

  lemma InsertBeforeLast(q: seq<Rec>, last: Rec, r: Rec)
    requires r.timestamp < last.timestamp
    ensures Insert(q + [last], r) == Insert(q, r) + [last]
  {
    assert (q + [last])[..|q|] == q;
  }

  lemma {:induction false} InsertBehindFirst(first: Rec, q: seq<Rec>, r: Rec)
    requires first.timestamp <= r.timestamp
    ensures Insert([first] + q, r) == [first] + Insert(q, r)
  {
    if q != [] && q[|q| - 1].timestamp > r.timestamp {
      assert ([first] + q)[..|q|] == [first] + q[..|q| - 1];
      InsertBehindFirst(first, q[..|q| - 1], r);
    }
  }

  lemma {:induction false} InsertInFront(q: seq<Rec>, r: Rec)
    requires Sorted(q) && (q != [] ==> r.timestamp < q[0].timestamp)
    ensures Insert(q, r) == [r] + q
  {
    if q != [] {
      InsertInFront(q[..|q| - 1], r);
    }
  }

  lemma QueueStep(c: seq<Rec>, o: Handle)
    requires c != []
    ensures var q := Queue(c[..|c| - 1], o);
            Queue(c, o) == if Visible(c[|c| - 1], o) then Insert(q, c[|c| - 1]) else q
  {
  }

  /** The scan finds the head of the queue, and taking the buffer it finds leaves the rest of the queue. */
  lemma {:induction false} OldestIsHead(c: seq<Rec>, o: Handle)
    ensures Oldest(c, o) < 0 ==> Queue(c, o) == []
    ensures Oldest(c, o) >= 0 ==> Queue(c, o) == [c[Oldest(c, o)]] + Queue(Without(c, Oldest(c, o)), o)
  {
    if c != [] {
      hide Queue, Oldest, Insert;
      var n := |c| - 1;
      var c0, r := c[..n], c[n];
      var best := Oldest(c0, o);
      OldestIsHead(c0, o);
      OldestStep(c, o);
      QueueStep(c, o);
      if Oldest(c, o) == n {
        assert Without(c, n) == c0;
        QueueSorted(c0, o);
        InsertInFront(Queue(c0, o), r);
      } else if best >= 0 {
        PrefixWithout(c, best);
        QueueStep(Without(c, best), o);
        if Visible(r, o) {
          InsertBehindFirst(c0[best], Queue(Without(c0, best), o), r);
        }
      }
    }
  }

  /** A buffer that an owner does not see is no part of its queue. */
  lemma {:induction false} InvisibleWithout(c: seq<Rec>, i: nat, o: Handle)
    requires i < |c| && !Visible(c[i], o)
    ensures Queue(Without(c, i), o) == Queue(c, o)
  {
    if i == |c| - 1 {
      assert Without(c, i) == c[..i];
    } else {
      PrefixWithout(c, i);
      InvisibleWithout(c[..|c| - 1], i, o);
    }
  }

  /** Position `k` holds the message that `o` takes last: the youngest, the rearmost of equals. */
  ghost predicate ComesLast(c: seq<Rec>, k: nat, o: Handle) {
    && k < |c| && Visible(c[k], o)
    && forall j {:trigger c[j]} :: 0 <= j < |c| && j != k && Visible(c[j], o) ==>
         c[j].timestamp < c[k].timestamp || (c[j].timestamp == c[k].timestamp && j < k)
  }

  lemma {:induction false} QueueEndsWith(c: seq<Rec>, k: nat, o: Handle)
    requires ComesLast(c, k, o)
    ensures Queue(c, o) == Queue(Without(c, k), o) + [c[k]]
  {
    hide Queue;
    var n := |c| - 1;
    var c0, r := c[..n], c[n];
    QueueStep(c, o);
    if k == n {
      assert Without(c, n) == c0;
      QueueMembers(c0, o);
      forall x | x in Queue(c0, o)
        ensures x.timestamp <= r.timestamp
      {
        assert x in c0 && Visible(x, o);
        var j :| 0 <= j < |c0| && c0[j] == x;
        assert c[j] == x;
      }
    } else {
      PrefixWithout(c, k);
      QueueStep(Without(c, k), o);
      QueueEndsWith(c0, k, o);
      if Visible(r, o) {
        InsertBeforeLast(Queue(Without(c0, k), o), c[k], r);
      }
    }
  }

  /** The position whose message comes last, if `o` sees any. */
  lemma {:induction false} SomeComesLast(c: seq<Rec>, k: nat, o: Handle) returns (m: nat)
    requires k < |c| && Visible(c[k], o)
    ensures ComesLast(c, m, o)
  {
    var n := |c| - 1;
    if forall j :: 0 <= j < n ==> !Visible(c[j], o) {
      m := n;
    } else {
      var j :| 0 <= j < n && Visible(c[j], o);
      m := SomeComesLast(c[..n], j, o);
      assert forall i {:trigger c[i]} :: 0 <= i < n ==> c[i] == c[..n][i];
      if Visible(c[n], o) && c[n].timestamp >= c[m].timestamp {
        m := n;
      }
    }
  }

  /** Whatever else `o` sees is older than position `k`, or as old and in front of it, or the very same message. */
  ghost predicate NoneBehind(c: seq<Rec>, k: nat, o: Handle)
    requires k < |c|
  {
    forall j {:trigger c[j]} :: 0 <= j < |c| && j != k && Visible(c[j], o) ==>
      c[j].timestamp < c[k].timestamp || (c[j].timestamp == c[k].timestamp && j < k) || c[j] == c[k]
  }

  /** Where position `k` is once position `m` is taken out. */
  function Shifted(k: nat, m: nat): (k': nat)
    requires k != m
    ensures k' == if k < m then k else k - 1
  {
    if k < m then k else k - 1
  }

  lemma WithoutAt(c: seq<Rec>, m: nat, k: nat)
    requires k < |c| && m < |c| && k != m
    ensures Without(c, m)[Shifted(k, m)] == c[k]
  {
  }

  lemma WithoutTwice(c: seq<Rec>, k: nat, m: nat)
    requires k < |c| && m < |c| && k != m
    ensures Without(Without(c, m), Shifted(k, m)) == Without(Without(c, k), Shifted(m, k))
  {
  }

  lemma LastStaysLast(c: seq<Rec>, k: nat, m: nat, o: Handle)
    requires k < |c| && m != k && ComesLast(c, m, o)
    ensures ComesLast(Without(c, k), Shifted(m, k), o)
  {
    var e := Without(c, k);
    assert forall j {:trigger e[j]} :: 0 <= j < |e| ==> e[j] == c[if j < k then j else j + 1];
  }

  lemma NoneBehindThen(c: seq<Rec>, k: nat, m: nat, o: Handle)
    requires k < |c| && m != k && Visible(c[k], o) && ComesLast(c, m, o) && NoneBehind(c, k, o)
    ensures c[m] == c[k] && NoneBehind(Without(c, m), Shifted(k, m), o)
  {
    var d, k' := Without(c, m), Shifted(k, m);
    WithoutAt(c, m, k);
    forall j {:trigger d[j]} | 0 <= j < |d| && j != k' && Visible(d[j], o)
      ensures d[j].timestamp < d[k'].timestamp || (d[j].timestamp == d[k'].timestamp && j < k') || d[j] == d[k']
    {
      assert d[j] == c[if j < m then j else j + 1];
    }
  }

  lemma NoneBehindAgain(c: seq<Rec>, k: nat, m: nat, o: Handle)
    requires k < |c| && m < |c| && m != k && c[m] == c[k] && NoneBehind(Without(c, m), Shifted(k, m), o)
    ensures NoneBehind(c, k, o)
  {
    var d, k' := Without(c, m), Shifted(k, m);
    WithoutAt(c, m, k);
    forall j {:trigger c[j]} | 0 <= j < |c| && j != k && Visible(c[j], o)
      ensures c[j].timestamp < c[k].timestamp || (c[j].timestamp == c[k].timestamp && j < k) || c[j] == c[k]
    {
      if j != m {
        WithoutAt(c, m, j);
        assert d[Shifted(j, m)] == c[j];
      }
    }
  }

  /** The message at a position is the last one its owner takes exactly when nothing comes behind it. */
  lemma {:induction false} LastIffComesLast(c: seq<Rec>, k: nat, o: Handle)
    requires k < |c| && Visible(c[k], o)
    ensures Queue(c, o) == Queue(Without(c, k), o) + [c[k]] <==> NoneBehind(c, k, o)
    decreases |c|
  {
    hide Queue, Visible;
    if ComesLast(c, k, o) {
      QueueEndsWith(c, k, o);
    } else {
      hide NoneBehind, ComesLast;
      var m := SomeComesLast(c, k, o);
      LastIsAt(c, m, o);
      var k', m' := Shifted(k, m), Shifted(m, k);
      var d, e := Without(c, m), Without(c, k);
      QueueEndsWith(c, m, o);
      LastStaysLast(c, k, m, o);
      QueueEndsWith(e, m', o);
      WithoutTwice(c, k, m);
      WithoutAt(c, m, k);
      WithoutAt(c, k, m);
      LastIffComesLast(d, k', o);
      if NoneBehind(c, k, o) {
        NoneBehindThen(c, k, m, o);
      } else if c[m] == c[k] && NoneBehind(d, k', o) {
        NoneBehindAgain(c, k, m, o);
      }
      AppendSame(Queue(d, o), c[m], Queue(Without(d, k'), o) + [c[m]], c[k]);
    }
  }

  lemma LastIsAt(c: seq<Rec>, m: nat, o: Handle)
    requires ComesLast(c, m, o)
    ensures m < |c| && Visible(c[m], o)
  {
  }

  lemma AppendSame(p: seq<Rec>, x: Rec, q: seq<Rec>, y: Rec)
    ensures p + [x] == q + [y] <==> p == q && x == y
  {
    if p + [x] == q + [y] {
      assert (p + [x])[..|p|] == p && (q + [y])[..|q|] == q;
      assert (p + [x])[|p|] == (q + [y])[|q|];
    }
  }
}
