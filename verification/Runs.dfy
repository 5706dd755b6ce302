/** Whole runs of the history cache: any interleaving of arrivals, sweeps and takes by any number of owners. */
module Runs {
  import opened Integers
  import opened History
  import opened Refinement

  /** One locked section. Arrivals carry whether the bytes were copied, takes whether they could be decoded. */
  datatype Step =
    | Arrival(r: Rec, copied: bool)
    | Sweep(now: Int64)
    | Taking(taker: Handle, decoded: bool)

  /** A fixed set of entities with fixed QoS profiles, and the size of the shared buffer pool. */
  datatype System = System(slots: nat, qos: Handle -> Qos)

  function Next(sys: System, c: seq<Rec>, step: Step): seq<Rec> {
    match step
    case Arrival(r, copied) => Arrive(c, sys.slots, sys.qos(r.owner), r, copied)
    case Sweep(now) => Swept(c, now)
    case Taking(o, _) => Take(c, o)
  }

  /** The stored messages after a run from the empty cache. */
  function Run(sys: System, steps: seq<Step>): seq<Rec> {
    if steps == [] then []
    else Next(sys, Run(sys, steps[..|steps| - 1]), steps[|steps| - 1])
  }

  /** The messages that arrived for `o`, in order. */
  function Arrived(steps: seq<Step>, o: Handle): seq<Rec> {
    if steps == [] then []
    else
      var step, a := steps[|steps| - 1], Arrived(steps[..|steps| - 1], o);
      if step.Arrival? && step.r.owner == o then a + [step.r] else a
  }

  /** The messages that `o` was handed, in order. */
  function Taken(sys: System, steps: seq<Step>, o: Handle): seq<Rec> {
    if steps == [] then []
    else
      var before, step := steps[..|steps| - 1], steps[|steps| - 1];
      var c, t := Run(sys, before), Taken(sys, before, o);
      if step.Taking? && step.taker == o && step.decoded && Oldest(c, o) >= 0 then t + [c[Oldest(c, o)]] else t
  }

  /** The reference: a single bounded queue for `o`, told only whether the pool has an unused buffer. */
  ghost function FifoRun(sys: System, steps: seq<Step>, o: Handle): seq<Rec> {
    if steps == [] then []
    else
      var before, step := steps[..|steps| - 1], steps[|steps| - 1];
      var q := FifoRun(sys, before, o);
      match step
      case Arrival(r, copied) =>
        if r.owner == o then Offer(q, sys.qos(o), |Run(sys, before)| < sys.slots, r, copied) else q
      case Sweep(now) => Swept(q, now)
      case Taking(p, _) => if p == o && q != [] then q[1..] else q
  }

  /** Every arrival for `o` is stamped later than the one before, and before the end of time. */
  ghost predicate WellTimed(steps: seq<Step>, o: Handle) {
    Increasing(Arrived(steps, o))
  }

  ghost predicate Increasing(q: seq<Rec>) {
    && (forall i, j :: 0 <= i < j < |q| ==> q[i].timestamp < q[j].timestamp)
    && (forall i :: 0 <= i < |q| ==> q[i].timestamp < INT64_MAX)
  }

  // ---------------------------------------------------------------- bounds

  lemma {:induction false} CountWithout(c: seq<Rec>, i: nat, o: Handle)
    requires i < |c|
    ensures Count(c, o) == Count(Without(c, i), o) + if c[i].owner == o then 1 else 0
  {
    if i == |c| - 1 {
      assert Without(c, i) == c[..i];
    } else {
      PrefixWithout(c, i);
      CountWithout(c[..|c| - 1], i, o);
    }
  }

  lemma {:induction false} CountFilter(c: seq<Rec>, keep: Rec -> bool, o: Handle)
    ensures Count(Filter(c, keep), o) <= Count(c, o) && |Filter(c, keep)| <= |c|
  {
    if c != [] {
      var c0, r := c[..|c| - 1], c[|c| - 1];
      CountFilter(c0, keep, o);
      var f := Filter(c0, keep);
      assert (f + [r])[..|f|] == f;
    }
  }

  lemma CountArrive(c: seq<Rec>, slots: nat, qos: Qos, r: Rec, copied: bool, o: Handle)
    requires |c| <= slots
    ensures |Arrive(c, slots, qos, r, copied)| <= slots
    ensures o != r.owner ==> Count(Arrive(c, slots, qos, r, copied), o) == Count(c, o)
    ensures qos.depth > 0 && Count(c, r.owner) <= qos.depth ==>
              Count(Arrive(c, slots, qos, r, copied), r.owner) <= qos.depth
  {
    hide Count, Oldest;
    match Acquire(c, slots, r.owner, qos)
    case Nowhere =>
    case Unused =>
      CountWithout([r] + c, 0, o);
      CountWithout([r] + c, 0, r.owner);
      assert Without([r] + c, 0) == c;
    case Over(i) =>
      CountWithout(c, i, o);
      CountWithout(c, i, r.owner);
      CountWithout(c[i := r], i, o);
      CountWithout(c[i := r], i, r.owner);
      assert Without(c[i := r], i) == Without(c, i);
  }

  /**
   * In every reachable state no more buffers are in use than there are, and no owner with a depth has more than that,
   * whatever the timestamps are and whichever copies fail.
   */
  lemma {:induction false} DepthBound(sys: System, steps: seq<Step>, o: Handle)
    ensures |Run(sys, steps)| <= sys.slots
    ensures sys.qos(o).depth > 0 ==> Count(Run(sys, steps), o) <= sys.qos(o).depth
  {
    if steps != [] {
      var before := steps[..|steps| - 1];
      var c := Run(sys, before);
      DepthBound(sys, before, o);
      match steps[|steps| - 1]
      case Arrival(r, copied) => CountArrive(c, sys.slots, sys.qos(r.owner), r, copied, o);
      case Sweep(now) => CountFilter(c, KeptAt(now), o);
      case Taking(p, _) =>
        if Oldest(c, p) >= 0 {
          CountWithout(c, Oldest(c, p), o);
        }
    }
  }

  // ---------------------------------------------------------------- refinement of one queue per owner

  lemma ArriveMembers(c: seq<Rec>, slots: nat, qos: Qos, r: Rec, copied: bool)
    ensures forall x :: x in Arrive(c, slots, qos, r, copied) ==> x in c || x == r
  {
    hide Count, Oldest;
  }

  /** Whatever is stored has arrived. */
  lemma {:induction false} StoredArrived(sys: System, steps: seq<Step>)
    ensures forall x :: x in Run(sys, steps) ==> x in Arrived(steps, x.owner)
  {
    if steps != [] {
      var before := steps[..|steps| - 1];
      var c := Run(sys, before);
      StoredArrived(sys, before);
      match steps[|steps| - 1]
      case Arrival(r, copied) => ArriveMembers(c, sys.slots, sys.qos(r.owner), r, copied);
      case Sweep(now) => FilterMembers(c, KeptAt(now));
      case Taking(p, _) =>
    }
  }

  lemma IncreasingLast(q: seq<Rec>, r: Rec)
    requires Increasing(q + [r])
    ensures Increasing(q) && r.timestamp < INT64_MAX
    ensures forall x :: x in q ==> x.timestamp < r.timestamp
  {
    assert forall i :: 0 <= i < |q| ==> q[i] == (q + [r])[i];
    assert (q + [r])[|q|] == r;
  }

  lemma WellTimedBefore(steps: seq<Step>, o: Handle)
    requires steps != [] && WellTimed(steps, o)
    ensures WellTimed(steps[..|steps| - 1], o)
  {
    var step := steps[|steps| - 1];
    if step.Arrival? && step.r.owner == o {
      IncreasingLast(Arrived(steps[..|steps| - 1], o), step.r);
    }
  }

  lemma EmptyRun(sys: System, o: Handle)
    ensures Queue(Run(sys, []), o) == [] == Retained([], sys.qos(o))
  {
  }

  lemma FifoStep(sys: System, steps: seq<Step>, o: Handle)
    requires steps != []
    ensures var before, step := steps[..|steps| - 1], steps[|steps| - 1];
            var q := FifoRun(sys, before, o);
            FifoRun(sys, steps, o) ==
            match step
            case Arrival(r, copied) =>
              if r.owner == o then Offer(q, sys.qos(o), |Run(sys, before)| < sys.slots, r, copied) else q
            case Sweep(now) => Swept(q, now)
            case Taking(p, _) => if p == o && q != [] then q[1..] else q
  {
  }

  lemma RunStep(sys: System, steps: seq<Step>)
    requires steps != []
    ensures Run(sys, steps) == Next(sys, Run(sys, steps[..|steps| - 1]), steps[|steps| - 1])
  {
  }

  lemma RunThen(sys: System, steps: seq<Step>, step: Step)
    ensures Run(sys, steps + [step]) == Next(sys, Run(sys, steps), step)
  {
    RunStep(sys, steps + [step]);
    assert (steps + [step])[..|steps|] == steps;
  }

  lemma TakenStep(sys: System, steps: seq<Step>, o: Handle)
    requires steps != []
    ensures var before, step := steps[..|steps| - 1], steps[|steps| - 1];
            var c, t := Run(sys, before), Taken(sys, before, o);
            Taken(sys, steps, o) ==
            if step.Taking? && step.taker == o && step.decoded && Oldest(c, o) >= 0 then t + [c[Oldest(c, o)]] else t
  {
  }

  /** Every arrival for `o` whose bytes are copied joins the end of what is stored for `o` by then. */
  ghost predicate JoinsInOrder(sys: System, steps: seq<Step>, o: Handle) {
    steps == []
    || var before, step := steps[..|steps| - 1], steps[|steps| - 1];
       && JoinsInOrder(sys, before, o)
       && (step.Arrival? && step.r.owner == o && step.copied ==>
             JoinsEnd(Run(sys, before), sys.slots, sys.qos(o), step.r))
  }

  lemma JoinsStep(sys: System, steps: seq<Step>, o: Handle)
    requires steps != []
    ensures var before, step := steps[..|steps| - 1], steps[|steps| - 1];
            JoinsInOrder(sys, steps, o) <==>
              && JoinsInOrder(sys, before, o)
              && (step.Arrival? && step.r.owner == o && step.copied ==>
                    JoinsEnd(Run(sys, before), sys.slots, sys.qos(o), step.r))
  {
  }

  lemma SweptSeen(c: seq<Rec>, now: Int64, o: Handle)
    requires AllSeen(c, o)
    ensures AllSeen(Swept(c, now), o)
  {
    FilterMembers(c, KeptAt(now));
    var s := Swept(c, now);
    forall i {:trigger s[i]} | 0 <= i < |s| && s[i].owner == o
      ensures s[i].timestamp < INT64_MAX
    {
      assert s[i] in c;
    }
  }

  lemma {:induction false} JoinedSeen(sys: System, steps: seq<Step>, o: Handle)
    requires JoinsInOrder(sys, steps, o)
    ensures AllSeen(Run(sys, steps), o)
  {
    if steps != [] {
      hide JoinsEnd, AllSeen, Arrive, Filter, Oldest;
      var before, step := steps[..|steps| - 1], steps[|steps| - 1];
      var c := Run(sys, before);
      JoinedSeen(sys, before, o);
      match step
      case Arrival(r, copied) => ArriveKeepsSeen(c, sys.slots, sys.qos(r.owner), r, copied, o);
      case Sweep(now) => SweptSeen(c, now, o);
      case Taking(p, _) => TakenSeen(c, p, o);
    } else {
      NothingSeen(o);
    }
  }

  lemma NothingSeen(o: Handle)
    ensures AllSeen([], o)
  {
  }

  lemma TakenSeen(c: seq<Rec>, p: Handle, o: Handle)
    requires AllSeen(c, o)
    ensures AllSeen(Take(c, p), o)
  {
    hide Oldest;
  }

  /** One step keeps the owner's view in step with the reference queue exactly if an arrival joins the end. */
  lemma StepRefinesFifoIff(sys: System, steps: seq<Step>, o: Handle)
    requires steps != []
    requires var before := steps[..|steps| - 1];
             JoinsInOrder(sys, before, o) && Queue(Run(sys, before), o) == FifoRun(sys, before, o)
    ensures Queue(Run(sys, steps), o) == FifoRun(sys, steps, o) <==> JoinsInOrder(sys, steps, o)
  {
    hide Queue, Run, FifoRun, Filter, Oldest, Count, Offer, Arrive, JoinsEnd, JoinsInOrder, AllSeen;
    RunStep(sys, steps);
    FifoStep(sys, steps, o);
    JoinsStep(sys, steps, o);
    var before, step := steps[..|steps| - 1], steps[|steps| - 1];
    var c := Run(sys, before);
    match step
    case Arrival(r, copied) =>
      if r.owner == o {
        JoinedSeen(sys, before, o);
        ArriveRefinesOfferIff(c, sys.slots, sys.qos(o), r, copied);
      } else {
        ArriveKeepsOthers(c, sys.slots, sys.qos(r.owner), r, copied, o);
      }
    case Sweep(now) => SweepRefinesFilter(c, o, now);
    case Taking(p, _) => TakeRefinesDequeue(c, p, o);
  }

  /** As long as arrivals join the end, the owner's view of the shared cache is the reference queue. */
  lemma {:induction false} JoinedRefinesFifo(sys: System, steps: seq<Step>, o: Handle)
    requires JoinsInOrder(sys, steps, o)
    ensures Queue(Run(sys, steps), o) == FifoRun(sys, steps, o)
  {
    hide Queue, Run, FifoRun, JoinsInOrder;
    if steps == [] {
      EmptyRun(sys, o);
      EmptyFifo(sys, o);
    } else {
      JoinsStep(sys, steps, o);
      JoinedRefinesFifo(sys, steps[..|steps| - 1], o);
      StepRefinesFifoIff(sys, steps, o);
    }
  }

  lemma EmptyFifo(sys: System, o: Handle)
    ensures FifoRun(sys, [], o) == [] && JoinsInOrder(sys, [], o)
  {
  }

  /** In every state of the run the owner's view is the reference queue. */
  ghost predicate ActsAsFifo(sys: System, steps: seq<Step>, o: Handle) {
    forall n :: 0 <= n <= |steps| ==> Queue(Run(sys, steps[..n]), o) == FifoRun(sys, steps[..n], o)
  }

  lemma ActsAsFifoStep(sys: System, steps: seq<Step>, o: Handle)
    requires steps != []
    ensures ActsAsFifo(sys, steps, o) <==>
              ActsAsFifo(sys, steps[..|steps| - 1], o) && Queue(Run(sys, steps), o) == FifoRun(sys, steps, o)
  {
    hide Queue, Run, FifoRun;
    var before := steps[..|steps| - 1];
    assert forall n {:trigger steps[..n]} {:trigger before[..n]} :: 0 <= n < |steps| ==> steps[..n] == before[..n];
    assert steps[..|steps|] == steps;
  }

  /**
   * Over every run, the owner's view of the shared cache is the reference queue throughout if and only if each of
   * its copied arrivals joins the end of what it finds stored. The other owners, and the order of the buffers,
   * leave no trace.
   */
  lemma {:induction false} RunRefinesFifo(sys: System, steps: seq<Step>, o: Handle)
    ensures ActsAsFifo(sys, steps, o) <==> JoinsInOrder(sys, steps, o)
  {
    hide Queue, Run, FifoRun, JoinsInOrder;
    if steps == [] {
      EmptyRun(sys, o);
      EmptyFifo(sys, o);
    } else {
      var before := steps[..|steps| - 1];
      RunRefinesFifo(sys, before, o);
      ActsAsFifoStep(sys, steps, o);
      JoinsStep(sys, steps, o);
      if JoinsInOrder(sys, before, o) {
        JoinedRefinesFifo(sys, before, o);
        StepRefinesFifoIff(sys, steps, o);
      }
    }
  }

  /** Stamps that increase from arrival to arrival are enough. */
  lemma {:induction false} WellTimedJoins(sys: System, steps: seq<Step>, o: Handle)
    requires WellTimed(steps, o)
    ensures JoinsInOrder(sys, steps, o)
  {
    if steps != [] {
      hide Run, JoinsEnd, Acquire;
      var before, step := steps[..|steps| - 1], steps[|steps| - 1];
      WellTimedBefore(steps, o);
      WellTimedJoins(sys, before, o);
      if step.Arrival? && step.r.owner == o {
        StoredArrived(sys, before);
        IncreasingLast(Arrived(before, o), step.r);
        YoungestJoinsEnd(Run(sys, before), sys.slots, sys.qos(o), step.r);
      }
    }
  }

  // ---------------------------------------------------------------- order of what is taken

  /** `a` arises from `b` by leaving messages out. */
  ghost predicate Subsequence(a: seq<Rec>, b: seq<Rec>) {
    if a == [] then true
    else if b == [] then false
    else if a[|a| - 1] == b[|b| - 1] && Subsequence(a[..|a| - 1], b[..|b| - 1]) then true
    else Subsequence(a, b[..|b| - 1])
  }

  lemma {:induction false} SubsequenceMembers(a: seq<Rec>, b: seq<Rec>)
    requires Subsequence(a, b)
    ensures |a| <= |b| && forall x :: x in a ==> x in b
  {
    if a != [] {
      var a0, b0 := a[..|a| - 1], b[..|b| - 1];
      assert a == a0 + [a[|a| - 1]] && b == b0 + [b[|b| - 1]];
      if a[|a| - 1] == b[|b| - 1] && Subsequence(a0, b0) {
        SubsequenceMembers(a0, b0);
      } else {
        SubsequenceMembers(a, b0);
      }
    }
  }

  lemma {:induction false} SubsequenceRefl(a: seq<Rec>)
    ensures Subsequence(a, a)
  {
    if a != [] {
      SubsequenceRefl(a[..|a| - 1]);
    }
  }

  lemma {:induction false} SubsequenceTrans(a: seq<Rec>, b: seq<Rec>, c: seq<Rec>)
    requires Subsequence(a, b) && Subsequence(b, c)
    ensures Subsequence(a, c)
    decreases |c|
  {
    if a != [] {
      var a0, b0, c0 := a[..|a| - 1], b[..|b| - 1], c[..|c| - 1];
      if b[|b| - 1] == c[|c| - 1] && Subsequence(b0, c0) {
        if a[|a| - 1] == b[|b| - 1] && Subsequence(a0, b0) {
          SubsequenceTrans(a0, b0, c0);
        } else {
          SubsequenceTrans(a, b0, c0);
        }
      } else {
        SubsequenceTrans(a, b, c0);
      }
    }
  }

  lemma {:induction false} SubsequenceAppend(a: seq<Rec>, b: seq<Rec>, s: seq<Rec>, t: seq<Rec>)
    requires Subsequence(a, b) && Subsequence(s, t)
    ensures Subsequence(a + s, b + t)
    decreases |t|
  {
    if t == [] {
      assert a + s == a && b + t == b;
    } else {
      var t0 := t[..|t| - 1];
      assert (b + t)[..|b + t| - 1] == b + t0 && (b + t)[|b + t| - 1] == t[|t| - 1];
      if s != [] && s[|s| - 1] == t[|t| - 1] && Subsequence(s[..|s| - 1], t0) {
        SubsequenceAppend(a, b, s[..|s| - 1], t0);
        assert (a + s)[..|a + s| - 1] == a + s[..|s| - 1] && (a + s)[|a + s| - 1] == s[|s| - 1];
      } else {
        SubsequenceAppend(a, b, s, t0);
      }
    }
  }

  lemma {:induction false} FilterSubsequence(q: seq<Rec>, keep: Rec -> bool)
    ensures Subsequence(Filter(q, keep), q)
  {
    if q != [] {
      var q0, r := q[..|q| - 1], q[|q| - 1];
      FilterSubsequence(q0, keep);
      var f := Filter(q0, keep);
      assert (f + [r])[..|f|] == f;
    }
  }

  lemma TailSubsequence(q: seq<Rec>)
    requires q != []
    ensures Subsequence(q[1..], q)
  {
    SubsequenceRefl(q[1..]);
    SubsequenceAppend([], q[..1], q[1..], q[1..]);
    assert [] + q[1..] == q[1..] && q[..1] + q[1..] == q;
  }

  lemma OfferSubsequence(q: seq<Rec>, qos: Qos, room: bool, r: Rec, copied: bool)
    ensures Subsequence(Offer(q, qos, room, r, copied), q + [r])
  {
    SubsequenceRefl(q);
    SubsequenceRefl([r]);
    SubsequenceAppend(q, q, [r], [r]);
    SubsequenceAppend(q, q, [], [r]);
    assert q + [] == q;
    if q != [] {
      TailSubsequence(q);
      SubsequenceAppend(q[1..], q, [r], [r]);
      SubsequenceAppend(q[1..], q, [], [r]);
      assert q[1..] + [] == q[1..];
    }
  }

  lemma {:induction false} IncreasingSubsequence(a: seq<Rec>, b: seq<Rec>)
    requires Subsequence(a, b) && Increasing(b)
    ensures Increasing(a)
  {
    if a != [] {
      var a0, b0, r := a[..|a| - 1], b[..|b| - 1], b[|b| - 1];
      assert b == b0 + [r];
      IncreasingLast(b0, r);
      if a[|a| - 1] == r && Subsequence(a0, b0) {
        IncreasingSubsequence(a0, b0);
        SubsequenceMembers(a0, b0);
        forall i | 0 <= i < |a0|
          ensures a[i].timestamp < r.timestamp
        {
          assert a0[i] in b0;
        }
        assert forall i :: 0 <= i < |a0| ==> a[i] == a0[i];
      } else {
        IncreasingSubsequence(a, b0);
      }
    }
  }

  /**
   * What an owner has been handed, followed by what it still has queued, arises from what arrived for it by leaving
   * messages out: nothing is reordered, duplicated or invented.
   */
  lemma {:induction false} TakenInArrivalOrder(sys: System, steps: seq<Step>, o: Handle)
    requires JoinsInOrder(sys, steps, o)
    ensures Subsequence(Taken(sys, steps, o) + Queue(Run(sys, steps), o), Arrived(steps, o))
    ensures WellTimed(steps, o) ==> Increasing(Taken(sys, steps, o))
  {
    TakenThenQueued(sys, steps, o);
    JoinedRefinesFifo(sys, steps, o);
    if WellTimed(steps, o) {
      var t := Taken(sys, steps, o);
      IncreasingSubsequence(t + FifoRun(sys, steps, o), Arrived(steps, o));
      assert forall i :: 0 <= i < |t| ==> t[i] == (t + FifoRun(sys, steps, o))[i];
    }
  }

  /** Thinning out the queue keeps it, behind what was taken, a subsequence of what arrived. */
  lemma ThinnedThen(t: seq<Rec>, q': seq<Rec>, q: seq<Rec>, a: seq<Rec>)
    requires Subsequence(q', q) && Subsequence(t + q, a)
    ensures Subsequence(t + q', a)
  {
    hide Subsequence;
    SubsequenceRefl(t);
    SubsequenceAppend(t, t, q', q);
    SubsequenceTrans(t + q', t + q, a);
  }

  lemma OfferedThen(t: seq<Rec>, q: seq<Rec>, a: seq<Rec>, qos: Qos, room: bool, r: Rec, copied: bool)
    requires Subsequence(t + q, a)
    ensures Subsequence(t + Offer(q, qos, room, r, copied), a + [r])
  {
    OfferSubsequence(q, qos, room, r, copied);
    SubsequenceRefl([r]);
    hide Subsequence, Offer;
    SubsequenceAppend(t + q, a, [r], [r]);
    assert t + (q + [r]) == t + q + [r];
    ThinnedThen(t, Offer(q, qos, room, r, copied), q + [r], a + [r]);
  }

  lemma HandedThen(t: seq<Rec>, q: seq<Rec>, a: seq<Rec>)
    requires q != [] && Subsequence(t + q, a)
    ensures Subsequence(t + [q[0]] + q[1..], a) && Subsequence(t + q[1..], a)
  {
    hide Subsequence;
    assert t + [q[0]] + q[1..] == t + q;
    TailSubsequence(q);
    ThinnedThen(t, q[1..], q, a);
  }

  lemma {:induction false} TakenThenQueued(sys: System, steps: seq<Step>, o: Handle)
    requires JoinsInOrder(sys, steps, o)
    ensures Subsequence(Taken(sys, steps, o) + FifoRun(sys, steps, o), Arrived(steps, o))
  {
    if steps != [] {
      hide Subsequence, Queue, Oldest, Run, FifoRun, Taken, Filter, Offer, JoinsEnd, JoinsInOrder;
      JoinsStep(sys, steps, o);
      FifoStep(sys, steps, o);
      TakenStep(sys, steps, o);
      var before, step := steps[..|steps| - 1], steps[|steps| - 1];
      var t, q, a := Taken(sys, before, o), FifoRun(sys, before, o), Arrived(before, o);
      TakenThenQueued(sys, before, o);
      match step
      case Arrival(r, copied) =>
        if r.owner == o {
          OfferedThen(t, q, a, sys.qos(o), |Run(sys, before)| < sys.slots, r, copied);
        }
      case Sweep(now) =>
        FilterSubsequence(q, KeptAt(now));
        ThinnedThen(t, Swept(q, now), q, a);
      case Taking(p, decoded) =>
        var c := Run(sys, before);
        JoinedRefinesFifo(sys, before, o);
        TakeRefinesDequeue(c, o, o);
        if p == o && q != [] {
          HandedThen(t, q, a);
        }
    }
  }

  // ---------------------------------------------------------------- history policies

  /**
   * Nothing but the history policy decides what becomes of an arrival: its bytes are copied if it is to be stored,
   * and the shared pool has an unused buffer if it is to get one. At depth neither KEEP_LAST nor KEEP_ALL asks the
   * pool.
   */
  ghost predicate Served(q: seq<Rec>, qos: Qos, room: bool, copied: bool) {
    if qos.history.Unrecognized? then true
    else if qos.depth == 0 || |q| < qos.depth then room && copied
    else qos.history.KeepAll? || copied
  }

  /** No message of `o` is taken, expires, fails to be copied or lacks a buffer that the policy grants it. */
  ghost predicate Undisturbed(sys: System, steps: seq<Step>, o: Handle) {
    steps == []
    || var before, step := steps[..|steps| - 1], steps[|steps| - 1];
       var q := Queue(Run(sys, before), o);
       && Undisturbed(sys, before, o)
       && match step
          case Arrival(r, copied) => r.owner == o ==> Served(q, sys.qos(o), |Run(sys, before)| < sys.slots, copied)
          case Sweep(now) => forall x :: x in q ==> Kept(x, now)
          case Taking(p, _) => p == o ==> q == []
  }

  ghost function FirstOf(a: seq<Rec>, n: nat): seq<Rec> {
    if |a| <= n then a else a[..n]
  }

  ghost function LastOf(a: seq<Rec>, n: nat): seq<Rec> {
    if |a| <= n then a else a[|a| - n..]
  }

  /** What a history policy retains of the messages that arrived. */
  ghost function Retained(a: seq<Rec>, qos: Qos): seq<Rec> {
    if qos.history.Unrecognized? then []
    else if qos.depth == 0 then a
    else if qos.history.KeepAll? then FirstOf(a, qos.depth)
    else LastOf(a, qos.depth)
  }

  lemma OfferRetains(a: seq<Rec>, qos: Qos, room: bool, r: Rec, copied: bool)
    requires Served(Retained(a, qos), qos, room, copied)
    ensures Offer(Retained(a, qos), qos, room, r, copied) == Retained(a + [r], qos)
  {
  }

  /** Keep-last holds exactly the last `depth` arrivals, keep-all the first `depth`, depth 0 all of them. */
  lemma {:induction false} UndisturbedRetains(sys: System, steps: seq<Step>, o: Handle)
    requires JoinsInOrder(sys, steps, o) && Undisturbed(sys, steps, o)
    ensures Queue(Run(sys, steps), o) == Retained(Arrived(steps, o), sys.qos(o))
  {
    hide Queue, Run, FifoRun, Filter, Offer, Retained, Served, JoinsInOrder, JoinsEnd;
    if steps == [] {
      EmptyRun(sys, o);
    } else {
      var before, step := steps[..|steps| - 1], steps[|steps| - 1];
      JoinsStep(sys, steps, o);
      UndisturbedRetains(sys, before, o);
      JoinedRefinesFifo(sys, before, o);
      JoinedRefinesFifo(sys, steps, o);
      FifoStep(sys, steps, o);
      var q := Queue(Run(sys, before), o);
      match step
      case Arrival(r, copied) =>
        if r.owner == o {
          OfferRetains(Arrived(before, o), sys.qos(o), |Run(sys, before)| < sys.slots, r, copied);
        }
      case Sweep(now) =>
        assert forall i :: 0 <= i < |q| ==> q[i] in q;
        FilterAll(q, KeptAt(now));
      case Taking(p, _) =>
    }
  }

  // ---------------------------------------------------------------- a clock that does not run back

  predicate Timed(step: Step) {
    step.Arrival? || step.Sweep?
  }

  function TimeOf(step: Step): Int64
    requires Timed(step)
  {
    if step.Arrival? then step.r.timestamp else step.now
  }

  /** Arrivals are stamped, and sweeps made, at times that never decrease. */
  ghost predicate ClockRuns(steps: seq<Step>) {
    forall i, j :: 0 <= i < j < |steps| && Timed(steps[i]) && Timed(steps[j]) ==> TimeOf(steps[i]) <= TimeOf(steps[j])
  }

  lemma {:induction false} ArrivedAt(steps: seq<Step>, o: Handle)
    ensures forall x :: x in Arrived(steps, o) ==> exists i :: 0 <= i < |steps| && steps[i].Arrival? && steps[i].r == x
  {
    if steps != [] {
      var before := steps[..|steps| - 1];
      ArrivedAt(before, o);
      forall x | x in Arrived(steps, o)
        ensures exists i :: 0 <= i < |steps| && steps[i].Arrival? && steps[i].r == x
      {
        if x in Arrived(before, o) {
          var i :| 0 <= i < |before| && before[i].Arrival? && before[i].r == x;
          assert steps[i].r == x;
        } else {
          assert steps[|steps| - 1].r == x;
        }
      }
    }
  }

  /**
   * In every run under a clock that does not run back, a sweep takes only an expired front off the queue of an owner
   * whose messages have one lifespan, with ends that 64 bits can hold.
   */
  lemma SweepsDropFronts(sys: System, steps: seq<Step>, now: Int64, o: Handle, lifespan: Duration) returns (a: nat)
    requires ClockRuns(steps + [Sweep(now)])
    requires forall x :: x in Arrived(steps, o) ==> x.lifespan == lifespan && x.timestamp + lifespan <= INT64_MAX
    ensures var q := Queue(Run(sys, steps), o);
            && a <= |q| && Queue(Run(sys, steps + [Sweep(now)]), o) == q[a..]
            && forall i :: 0 <= i < |q| ==> (i < a <==> q[i].timestamp + lifespan < now)
  {
    hide Queue, Run, Filter;
    var q, all := Queue(Run(sys, steps), o), steps + [Sweep(now)];
    StoredArrived(sys, steps);
    ArrivedAt(steps, o);
    QueueMembers(Run(sys, steps), o);
    QueueSorted(Run(sys, steps), o);
    forall k | 0 <= k < |q|
      ensures q[k].timestamp <= now && q[k].lifespan == lifespan && q[k].timestamp + lifespan <= INT64_MAX
    {
      assert q[k] in q && q[k] in Arrived(steps, o);
      var i :| 0 <= i < |steps| && steps[i].Arrival? && steps[i].r == q[k];
      assert all[i] == steps[i] && all[|steps|] == Sweep(now);
    }
    a := SweepDropsFront(q, now, lifespan);
    RunStep(sys, all);
    assert all[..|steps|] == steps;
    SweepRefinesFilter(Run(sys, steps), o, now);
  }
}
