/** Waiting: run the sessions of the entities waited for, then strike out whatever has nothing to offer. */
module Wait {
  import opened Integers
  import opened History
  import opened Mempool
  import opened Entities
  import opened Cache
  import opened Taking
  import opened Runs
  import opened CacheRuns

  class GuardCondition {
    var hasTriggered: bool

    constructor () {
      hasTriggered := false;
    }
  }

  /** How a session was run: until data arrives or the time is up, or once without blocking. */
  datatype SessionRun = UntilData(session: Session) | Spin(session: Session)

  // ---------------------------------------------------------------- entries

  /** The address that buffers for an entity carry as their owner. */
  function HandleOf(x: object?): Handle {
    if x is Subscription then SubscriptionSlot((x as Subscription).entity.index)
    else if x is Service then ServiceSlot((x as Service).entity.index)
    else if x is Client then ClientSlot((x as Client).entity.index)
    else Null
  }

  /** The entries are entities whose nodes have the contexts `cs`. */
  ghost predicate Belong(s: seq<object?>, cs: seq<Session>)
    reads (set x | x in s && Base(x) != null :: Base(x))`ownerNode
    reads (set x | x in s && Base(x) != null && Base(x).ownerNode != null :: Base(x).ownerNode)`context
  {
    |cs| == |s| && forall i {:trigger s[i]} {:trigger cs[i]} :: 0 <= i < |s| ==>
      Base(s[i]) != null && Base(s[i]).ownerNode != null && Base(s[i]).ownerNode.context == cs[i]
  }

  /** The entries of a set that may be null. */
  function Entries(a: array?<object?>): seq<object?>
    reads a
  {
    if a == null then [] else a[..]
  }

  // ---------------------------------------------------------------- sessions

  ghost predicate HoldsSessions(pool: Pool, all: set<Session>)
    reads pool, pool.items
  {
    && pool.Valid()
    && forall x {:trigger x in pool.items} :: x in pool.items ==> x.data is Session && (x.data as Session) in all
  }

  /** Zeroed sessions and the items embedded in them. */
  method NewSessions(n: nat) returns (items: seq<Item>, sessions: seq<Session>)
    ensures |items| == |sessions| == n && NoDup(items) && AllZeroed(items, 0) && fresh(items) && fresh(sessions)
  {
    items, sessions := [], [];
    for i := 0 to n
      invariant |items| == |sessions| == i && NoDup(items) && AllZeroed(items, 0) && fresh(items) && fresh(sessions)
    {
      var session := new Session();
      items, sessions := items + [session.mem], sessions + [session];
    }
  }

  /** The pool of sessions starts with all of them free. */
  method NewSessionPool(n: nat) returns (pool: Pool, ghost all: set<Session>)
    ensures HoldsSessions(pool, all) && pool.alloc == [] && |pool.free| == n
    ensures fresh(pool) && fresh(pool.items) && fresh(all)
  {
    var items, sessions := NewSessions(n);
    var elements: seq<object> := sessions;
    pool := new Pool(false);
    pool.Init(items, elements);
    hide Pool.Valid, NoDup, AllZeroed;
    all := set s | s in sessions;
    forall x {:trigger x in pool.items} | x in pool.items
      ensures x.data is Session && (x.data as Session) in all
    {
      var i :| 0 <= i < |items| && items[i] == x;
      assert x.data == sessions[i];
    }
  }

  function SessionOf(x: Item): Session?
    reads x`data
  {
    if x.data is Session then x.data as Session else null
  }

  lemma SessionAt(pool: Pool, all: set<Session>, i: nat)
    requires HoldsSessions(pool, all) && i <= |pool.alloc|
    ensures i == 0 ==> pool.allocateditems == Nth(pool.alloc, 0)
    ensures i < |pool.alloc| ==> SessionOf(pool.alloc[i]) != null && SessionOf(pool.alloc[i]) in all
    ensures i < |pool.alloc| ==> pool.alloc[i] in pool.items && pool.alloc[i].next == Nth(pool.alloc, i + 1)
  {
    pool.WalkAllocated(i);
  }

  /** The sessions of a list that are in `m`, in order. */
  ghost function Marked(s: seq<Item>, m: set<Session>): seq<Session>
    reads s`data
    decreases |s|
  {
    if s == [] then []
    else
      var front, x := Marked(s[..|s| - 1], m), SessionOf(s[|s| - 1]);
      if x != null && x in m then front + [x] else front
  }

  lemma MarkedStep(s: seq<Item>, m: set<Session>, i: nat)
    requires i < |s|
    ensures Marked(s[..i + 1], m) ==
            if SessionOf(s[i]) != null && SessionOf(s[i]) in m then Marked(s[..i], m) + [SessionOf(s[i])]
            else Marked(s[..i], m)
  {
    assert s[..i + 1][..i] == s[..i];
  }

  ghost function Flagged(all: set<Session>): set<Session>
    reads all`needToBeRan
  {
    set s | s in all && s.needToBeRan
  }

  method ClearFlags(pool: Pool, ghost all: set<Session>)
    requires HoldsSessions(pool, all)
    modifies all`needToBeRan
    ensures forall x :: x in pool.alloc ==> SessionOf(x) != null && !SessionOf(x).needToBeRan
  {
    hide Pool.Valid;
    ghost var i := 0;
    SessionAt(pool, all, 0);
    var item := pool.allocateditems;
    while item != null
      invariant i <= |pool.alloc| && item == Nth(pool.alloc, i)
      invariant forall k {:trigger pool.alloc[k]} :: 0 <= k < i ==>
                  SessionOf(pool.alloc[k]) != null && !SessionOf(pool.alloc[k]).needToBeRan
      decreases |pool.alloc| - i
    {
      SessionAt(pool, all, i);
      (item.data as Session).needToBeRan := false;
      item := item.next;
      i := i + 1;
    }
  }

  /** Flags the session of every entry. */
  method Mark(entries: array?<object?>, ghost cs: seq<Session>, ghost all: set<Session>)
    requires Belong(Entries(entries), cs) && forall s :: s in cs ==> s in all
    modifies all`needToBeRan
    ensures forall s :: s in all ==> (s.needToBeRan <==> old(s.needToBeRan) || s in cs)
  {
    if entries != null {
      for i := 0 to entries.Length
        invariant forall s :: s in all ==> (s.needToBeRan <==> old(s.needToBeRan) || s in cs[..i])
      {
        assert entries[i] == Entries(entries)[i];
        assert cs[..i + 1] == cs[..i] + [cs[i]] && cs[i] in cs;
        Base(entries[i]).ownerNode.context.needToBeRan := true;
      }
      assert cs[..entries.Length] == cs;
    }
  }

  /** The number of flagged sessions, in eight bits. */
  method CountMarked(pool: Pool, ghost all: set<Session>) returns (count: int)
    requires HoldsSessions(pool, all)
    ensures count == |Marked(pool.alloc, Flagged(all))| % 0x100
  {
    hide Pool.Valid, Marked;
    ghost var i, s, m := 0, pool.alloc, Flagged(all);
    SessionAt(pool, all, 0);
    NoneMarked(m);
    count := 0;
    var item := pool.allocateditems;
    while item != null
      invariant i <= |s| && item == Nth(s, i) && count == |Marked(s[..i], m)| % 0x100
      decreases |s| - i
    {
      SessionAt(pool, all, i);
      MarkedStep(s, m, i);
      count := (count + if (item.data as Session).needToBeRan then 1 else 0) % 0x100;
      item := item.next;
      i := i + 1;
    }
    assert s[..i] == s;
  }

  lemma NoneMarked(m: set<Session>)
    ensures Marked([], m) == []
  {
  }

  // ---------------------------------------------------------------- running

  /** A message that the client library hands to a callback: for an entity, at a time, copied or not. */
  datatype Incoming = Incoming(owner: Handle, payload: seq<bv8>, related: Related, now: Int64, copied: bool)

  /** The messages are for entities that the cache serves, and fit its buffers. */
  ghost predicate Receivable(cache: HistoryCache, messages: seq<Incoming>) {
    forall n :: 0 <= n < |messages| ==> Known(cache, messages[n].owner) && |messages[n].payload| <= cache.capacity
  }

  /** The arrivals that the messages amount to, one after the other. */
  ghost function Arrivals(sys: System, messages: seq<Incoming>): (r: seq<Step>)
    ensures |r| == |messages|
    ensures forall n {:trigger r[n]} :: 0 <= n < |r| ==>
              var m := messages[n];
              r[n] == Arrival(RecOf(sys, m.owner, m.payload, m.related, m.now), m.copied)
  {
    seq(|messages|, n requires 0 <= n < |messages| =>
      var m := messages[n];
      Arrival(RecOf(sys, m.owner, m.payload, m.related, m.now), m.copied))
  }

  /** What arrives while the sessions are run in turn, `incoming` saying what each of them receives. */
  ghost function Heard(sys: System, sessions: seq<Session>, incoming: Session -> seq<Incoming>): seq<Step> {
    if sessions == [] then []
    else Heard(sys, sessions[..|sessions| - 1], incoming) + Arrivals(sys, incoming(sessions[|sessions| - 1]))
  }

  lemma HeardStep(sys: System, sessions: seq<Session>, x: Session, incoming: Session -> seq<Incoming>, past: seq<Step>)
    ensures past + Heard(sys, sessions + [x], incoming)
         == past + Heard(sys, sessions, incoming) + Arrivals(sys, incoming(x))
  {
    assert (sessions + [x])[..|sessions|] == sessions;
  }

  /** While a session runs, the callbacks store the messages that arrive for the entities. */
  method Deliver(cache: HistoryCache, messages: seq<Incoming>, ghost sys: System, ghost past: seq<Step>)
    requires cache.Valid() && cache.View() == Run(sys, past) && cache.Slots() == sys.slots && Follows(sys, cache)
    requires Receivable(cache, messages)
    modifies cache`stored, cache.pool, cache.pool.items`prev, cache.pool.items`next, cache.buffers
    ensures cache.Valid() && cache.View() == Run(sys, past + Arrivals(sys, messages)) && cache.Slots() == sys.slots
    ensures cache.pool.items == old(cache.pool.items)
  {
    hide HistoryCache.Valid, HistoryCache.View, HistoryCache.Slots, Run, Pool.Valid, RecOf, Follows;
    ghost var steps := Arrivals(sys, messages);
    assert past + steps[..0] == past;
    for n := 0 to |messages|
      invariant cache.Valid() && cache.View() == Run(sys, past + steps[..n]) && cache.Slots() == sys.slots
      invariant cache.pool.items == old(cache.pool.items)
    {
      var m := messages[n];
      StoreFor(cache, m.owner, m.payload, m.related, m.now, m.copied, sys, past + steps[..n]);
      assert past + steps[..n + 1] == past + steps[..n] + [steps[n]];
    }
    assert steps[..|messages|] == steps;
  }

  function Log(s: seq<Session>, untilData: bool): (r: seq<SessionRun>)
    ensures |r| == |s| && forall i :: 0 <= i < |s| ==> r[i] == if untilData then UntilData(s[i]) else Spin(s[i])
  {
    seq(|s|, i requires 0 <= i < |s| => if untilData then UntilData(s[i]) else Spin(s[i]))
  }

  lemma LogStep(s: seq<Session>, x: Session, untilData: bool)
    ensures Log(s + [x], untilData) == Log(s, untilData) + [if untilData then UntilData(x) else Spin(x)]
  {
  }

  /** Runs the flagged sessions until data arrives, or all of them once if none is flagged. */
  method RunSessions(cache: HistoryCache, pool: Pool, ghost all: set<Session>, untilData: bool,
                     incoming: Session -> seq<Incoming>, ghost sys: System, ghost past: seq<Step>)
      returns (ghost runs: seq<SessionRun>)
    requires HoldsSessions(pool, all) && pool != cache.pool && pool.items !! cache.pool.items
    requires cache.Valid() && cache.View() == Run(sys, past) && cache.Slots() == sys.slots && Follows(sys, cache)
    requires forall s :: s in all ==> Receivable(cache, incoming(s))
    modifies cache`stored, cache.pool, cache.pool.items`prev, cache.pool.items`next, cache.buffers
    ensures cache.Valid() && cache.Slots() == sys.slots && cache.pool.items == old(cache.pool.items)
    ensures var ran := Marked(pool.alloc, if untilData then Flagged(all) else all);
            runs == Log(ran, untilData) && cache.View() == Run(sys, past + Heard(sys, ran, incoming))
  {
    hide HistoryCache.Valid, HistoryCache.View, HistoryCache.Slots, Run, Pool.Valid, Marked, Log, HoldsSessions;
    hide Heard, Receivable, Follows, Arrivals, RecOf;
    ghost var i, s, m := 0, pool.alloc, if untilData then Flagged(all) else all;
    SessionAt(pool, all, 0);
    NoneMarked(m);
    NoneHeard(sys, incoming);
    assert past + [] == past;
    runs := [];
    var item := pool.allocateditems;
    while item != null
      invariant i <= |s| && item == Nth(s, i) && runs == Log(Marked(s[..i], m), untilData)
      invariant cache.Valid() && cache.View() == Run(sys, past + Heard(sys, Marked(s[..i], m), incoming))
      invariant cache.Slots() == sys.slots && cache.pool.items == old(cache.pool.items)
      decreases |s| - i
    {
      SessionAt(pool, all, i);
      MarkedStep(s, m, i);
      var session := item.data as Session;
      if !untilData || session.needToBeRan {
        ghost var before := Marked(s[..i], m);
        HeardStep(sys, before, session, incoming, past);
        Deliver(cache, incoming(session), sys, past + Heard(sys, before, incoming));
        LogStep(before, session, untilData);
        runs := runs + [if untilData then UntilData(session) else Spin(session)];
      }
      item := item.next;
      i := i + 1;
    }
    assert s[..i] == s;
  }

  lemma NoneHeard(sys: System, incoming: Session -> seq<Incoming>)
    ensures Heard(sys, [], incoming) == []
  {
  }

  // ---------------------------------------------------------------- striking out

  ghost predicate AnyLeft(s: seq<object?>) {
    exists i {:trigger s[i]} :: 0 <= i < |s| && s[i] != null
  }

  lemma AnyLeftNothing()
    ensures !AnyLeft([])
  {
  }

  lemma AnyLeftStep(s: seq<object?>, i: nat)
    requires i < |s|
    ensures AnyLeft(s[..i + 1]) <==> AnyLeft(s[..i]) || s[i] != null
  {
    if AnyLeft(s[..i]) {
      var k :| 0 <= k < |s[..i]| && s[..i][k] != null;
      assert s[..i + 1][k] != null;
    }
    assert s[..i + 1][i] == s[i];
    if AnyLeft(s[..i + 1]) && s[i] == null {
      var k :| 0 <= k < |s[..i + 1]| && s[..i + 1][k] != null;
      assert s[..i][k] != null;
    }
  }

  /** Whether an entity owns a message that can be taken. */
  method HasMessage(cache: HistoryCache, owner: Handle) returns (ready: bool)
    requires cache.Valid()
    ensures ready <==> Queue(cache.View(), owner) != []
  {
    hide HistoryCache.Valid, Pool.Valid, Queue, Oldest, Messages;
    var item := cache.FindByOwner(owner);
    OldestIsHead(cache.View(), owner);
    assert Oldest(cache.View(), owner) >= 0 ==> |Queue(cache.View(), owner)| > 0;
    ready := item != null;
  }

  /** There is a message for `o` that a search can find. */
  ghost predicate Offered(c: seq<Rec>, o: Handle) {
    exists m :: m in c && m.owner == o && m.timestamp < 0x7FFF_FFFF_FFFF_FFFF
  }

  /** Of a set of entities, exactly those are left that a stored message is for and can be found for. */
  ghost predicate LeftOver(c: seq<Rec>, before: seq<object?>, after: seq<object?>) {
    |after| == |before| && forall i {:trigger after[i]} {:trigger before[i]} :: 0 <= i < |before| ==>
      && (before[i] is Subscription ==>
            after[i] == if Offered(c, SubscriptionSlot((before[i] as Subscription).entity.index))
                        then before[i] else null)
      && (before[i] is Service ==>
            after[i] == if Offered(c, ServiceSlot((before[i] as Service).entity.index)) then before[i] else null)
      && (before[i] is Client ==>
            after[i] == if Offered(c, ClientSlot((before[i] as Client).entity.index)) then before[i] else null)
  }

  lemma OfferedIff(c: seq<Rec>, o: Handle)
    ensures Offered(c, o) <==> Queue(c, o) != []
  {
    hide Queue;
    QueueMembers(c, o);
    if Queue(c, o) != [] {
      assert Queue(c, o)[0] in Queue(c, o);
    }
    if Offered(c, o) {
      var m :| m in c && m.owner == o && m.timestamp < 0x7FFF_FFFF_FFFF_FFFF;
      assert m in Queue(c, o);
    }
  }

  lemma ReadyIsLeftOver(c: seq<Rec>, s: seq<object?>)
    ensures LeftOver(c, s, Ready(c, s))
  {
    hide Queue, Offered;
    forall o: Handle
      ensures Offered(c, o) <==> Queue(c, o) != []
    {
      OfferedIff(c, o);
    }
  }

  /** Strikes out the entries that own no message; `status` tells whether some earlier entry was kept. */
  method Strike(cache: HistoryCache, entries: array?<object?>, before: bool) returns (status: bool)
    requires cache.Valid() && forall i :: 0 <= i < |Entries(entries)| ==> Entries(entries)[i] != null
    modifies entries
    ensures Entries(entries) == Ready(cache.View(), old(Entries(entries)))
    ensures LeftOver(cache.View(), old(Entries(entries)), Entries(entries))
    ensures status <==> before || AnyLeft(Entries(entries))
  {
    hide HistoryCache.Valid, Pool.Valid, Queue, Messages, AnyLeft, HandleOf, LeftOver;
    ReadyIsLeftOver(cache.View(), Entries(entries));
    AnyLeftNothing();
    status := before;
    if entries != null {
      ghost var s, c := entries[..], cache.View();
      ghost var r := Ready(c, s);
      assert forall k {:trigger s[k]} :: 0 <= k < |s| ==> s[k] == Entries(entries)[k] && s[k] != null;
      assert r[..0] == [];
      for i := 0 to entries.Length
        invariant cache.Valid() && cache.View() == c
        invariant forall k {:trigger entries[k]} :: 0 <= k < entries.Length ==>
                    entries[k] == if k < i then r[k] else s[k]
        invariant status <==> before || AnyLeft(r[..i])
      {
        AnyLeftStep(r, i);
        var ready := HasMessage(cache, HandleOf(entries[i]));
        if !ready {
          entries[i] := null;
        } else {
          status := true;
        }
      }
      assert entries[..] == r == r[..entries.Length];
    }
  }

  /** The entries that own a message that can be taken, the others struck out. */
  ghost function Ready(c: seq<Rec>, s: seq<object?>): (r: seq<object?>)
    ensures |r| == |s| && forall i :: 0 <= i < |s| ==> r[i] == if Queue(c, HandleOf(s[i])) != [] then s[i] else null
  {
    seq(|s|, i requires 0 <= i < |s| => if Queue(c, HandleOf(s[i])) != [] then s[i] else null)
  }

  function Guards(a: array?<GuardCondition?>): seq<GuardCondition?>
    reads a
  {
    if a == null then [] else a[..]
  }

  /** The listed guard conditions whose flag is up. */
  ghost function Raised(s: seq<GuardCondition?>): set<GuardCondition>
    reads s
  {
    set g | g in s && g != null && g.hasTriggered
  }

  /** The guard conditions in `m`, each where it is listed first. */
  ghost function Triggered(s: seq<GuardCondition?>, m: set<GuardCondition>): (r: seq<GuardCondition?>)
    ensures |r| == |s|
    ensures forall i {:trigger r[i]} :: 0 <= i < |r| ==> r[i] == if s[i] in m && s[i] !in s[..i] then s[i] else null
  {
    seq(|s|, i requires 0 <= i < |s| => if s[i] in m && s[i] !in s[..i] then s[i] else null)
  }

  /** Of a guard condition that is listed twice, only the first listing is left. */
  lemma ListedTwice(s: seq<GuardCondition?>, m: set<GuardCondition>, i: nat, j: nat)
    requires i < j < |s| && s[i] != null && s[i] in m && s[j] == s[i] && s[i] !in s[..i]
    ensures Triggered(s, m)[i] == s[i] && Triggered(s, m)[j] == null
  {
    assert s[..j][i] == s[j];
  }

  /** One triggered guard condition, in both places of a set. */
  method StrikeListedTwice() returns (guards: array<GuardCondition?>)
    ensures guards.Length == 2 && guards[0] != null && guards[1] == null
  {
    var guard := new GuardCondition();
    guard.hasTriggered := true;
    guards := new GuardCondition?[2](_ => guard);
    ghost var s := guards[..];
    ListedTwice(s, {guard}, 0, 1);
    assert Raised(s) == {guard};
    var status := StrikeGuards(guards, false);
    assert guards[..] == Triggered(s, {guard});
  }

  /** Whoever else is running triggers guard conditions meanwhile; those in `triggers` that are listed count. */
  method TriggerSome(guards: array?<GuardCondition?>, triggers: set<GuardCondition>)
    modifies Guards(guards)`hasTriggered
    ensures Raised(Guards(guards)) == old(Raised(Guards(guards))) + set g | g in triggers && g in Guards(guards)
  {
    if guards != null {
      ghost var s := guards[..];
      for i := 0 to guards.Length
        invariant forall g :: g in s && g != null ==>
                    (g.hasTriggered <==> old(g.hasTriggered) || (g in triggers && g in s[..i]))
      {
        assert s[..i + 1] == s[..i] + [s[i]];
        if guards[i] != null && guards[i] in triggers {
          guards[i].hasTriggered := true;
        }
      }
      assert s[..guards.Length] == s;
    }
  }

  /** Guard conditions that are not listed make no difference. */
  lemma UnlistedTriggers(s: seq<GuardCondition?>, m: set<GuardCondition>, triggers: set<GuardCondition>)
    ensures Triggered(s, m + set g | g in triggers && g in s) == Triggered(s, m + triggers)
  {
    var r, t := Triggered(s, m + set g | g in triggers && g in s), Triggered(s, m + triggers);
    assert forall i :: 0 <= i < |s| ==> r[i] == t[i];
  }

  /** Strikes out the guard conditions that have not been triggered, and resets the others. */
  method StrikeGuards(guards: array?<GuardCondition?>, before: bool) returns (status: bool)
    requires forall i :: 0 <= i < |Guards(guards)| ==> Guards(guards)[i] != null
    modifies guards, Guards(guards)
    ensures Guards(guards) == Triggered(old(Guards(guards)), old(Raised(Guards(guards))))
    ensures forall g :: g in old(Guards(guards)) ==> g != null && !g.hasTriggered
    ensures status <==> before || AnyLeft(Guards(guards))
  {
    status := before;
    if guards != null {
      ghost var s := guards[..];
      ghost var r := Triggered(s, Raised(s));
      for i := 0 to guards.Length
        invariant forall k {:trigger guards[k]} :: 0 <= k < guards.Length ==> guards[k] == if k < i then r[k] else s[k]
        invariant forall k {:trigger s[k]} :: 0 <= k < |s| ==>
                    s[k] != null && s[k].hasTriggered == (old(s[k].hasTriggered) && s[k] !in s[..i])
        invariant status <==> before || AnyLeft(r[..i])
      {
        AnyLeftStep(r, i);
        assert s[..i + 1] == s[..i] + [s[i]];
        var guard := guards[i];
        if !guard.hasTriggered {
          guards[i] := null;
        } else {
          guard.hasTriggered := false;
          status := true;
        }
      }
      assert s[..guards.Length] == s;
      assert guards[..] == r == r[..guards.Length];
    }
  }

  // ---------------------------------------------------------------- the whole wait

  lemma {:induction false} MarkedAlike(s: seq<Item>, m: set<Session>, m': set<Session>)
    requires forall x :: x in s && SessionOf(x) != null ==> (SessionOf(x) in m <==> SessionOf(x) in m')
    ensures Marked(s, m) == Marked(s, m')
    decreases |s|
  {
    if s != [] {
      MarkedAlike(s[..|s| - 1], m, m');
    }
  }

  method MarkAll(ghost all: set<Session>, services: array?<object?>, ghost serviceSessions: seq<Session>,
                 clients: array?<object?>, ghost clientSessions: seq<Session>,
                 subscriptions: array?<object?>, ghost subscriptionSessions: seq<Session>)
    requires forall s :: s in serviceSessions + clientSessions + subscriptionSessions ==> s in all
    requires Belong(Entries(services), serviceSessions) && Belong(Entries(clients), clientSessions)
    requires Belong(Entries(subscriptions), subscriptionSessions)
    modifies all`needToBeRan
    ensures forall s :: s in all ==>
              (s.needToBeRan <==> old(s.needToBeRan) || s in serviceSessions + clientSessions + subscriptionSessions)
  {
    Mark(services, serviceSessions, all);
    assert Belong(Entries(clients), clientSessions);
    assert Belong(Entries(subscriptions), subscriptionSessions);
    Mark(clients, clientSessions, all);
    assert Belong(Entries(subscriptions), subscriptionSessions);
    Mark(subscriptions, subscriptionSessions, all);
  }

  method FlagSessions(pool: Pool, ghost all: set<Session>, services: array?<object?>,
                      ghost serviceSessions: seq<Session>,
                      clients: array?<object?>, ghost clientSessions: seq<Session>,
                      subscriptions: array?<object?>, ghost subscriptionSessions: seq<Session>)
    requires HoldsSessions(pool, all)
    requires forall s :: s in serviceSessions + clientSessions + subscriptionSessions ==> s in all
    requires Belong(Entries(services), serviceSessions) && Belong(Entries(clients), clientSessions)
    requires Belong(Entries(subscriptions), subscriptionSessions)
    modifies all`needToBeRan
    ensures forall x :: x in pool.alloc && SessionOf(x) != null && SessionOf(x) in all ==>
              (SessionOf(x).needToBeRan <==> SessionOf(x) in serviceSessions + clientSessions + subscriptionSessions)
  {
    hide Pool.Valid;
    ClearFlags(pool, all);
    assert Belong(Entries(services), serviceSessions);
    assert Belong(Entries(clients), clientSessions);
    assert Belong(Entries(subscriptions), subscriptionSessions);
    MarkAll(all, services, serviceSessions, clients, clientSessions, subscriptions, subscriptionSessions);
  }

  /** Flags exactly the allocated sessions waited for, whatever flags were left set before. */
  method MarkSessions(pool: Pool, ghost all: set<Session>, services: array?<object?>,
                      ghost serviceSessions: seq<Session>,
                      clients: array?<object?>, ghost clientSessions: seq<Session>,
                      subscriptions: array?<object?>, ghost subscriptionSessions: seq<Session>)
      returns (count: int)
    requires HoldsSessions(pool, all)
    requires forall s :: s in serviceSessions + clientSessions + subscriptionSessions ==> s in all
    requires Belong(Entries(services), serviceSessions) && Belong(Entries(clients), clientSessions)
    requires Belong(Entries(subscriptions), subscriptionSessions)
    modifies all`needToBeRan
    ensures var marked := Marked(pool.alloc, set s | s in serviceSessions + clientSessions + subscriptionSessions);
            count == |marked| % 0x100 && Marked(pool.alloc, Flagged(all)) == marked
  {
    hide Pool.Valid, Marked, Belong, Base;
    FlagSessions(pool, all, services, serviceSessions, clients, clientSessions, subscriptions, subscriptionSessions);
    FlaggedAlike(pool, all, serviceSessions + clientSessions + subscriptionSessions);
    count := CountMarked(pool, all);
  }

  lemma FlaggedAlike(pool: Pool, all: set<Session>, cs: seq<Session>)
    requires HoldsSessions(pool, all)
    requires forall x :: x in pool.alloc && SessionOf(x) != null && SessionOf(x) in all ==>
               (SessionOf(x).needToBeRan <==> SessionOf(x) in cs)
    ensures Marked(pool.alloc, Flagged(all)) == Marked(pool.alloc, set s | s in cs)
  {
    hide Pool.Valid, Marked;
    forall x | x in pool.alloc
      ensures SessionOf(x) != null && SessionOf(x) in all
    {
      var i :| 0 <= i < |pool.alloc| && pool.alloc[i] == x;
      SessionAt(pool, all, i);
    }
    MarkedAlike(pool.alloc, Flagged(all), set s | s in cs);
  }

  lemma NoneIsNull(s: seq<object?>, cs: seq<Session>)
    requires Belong(s, cs)
    ensures forall i :: 0 <= i < |s| ==> s[i] != null
  {
  }

  /** Two sets of entries are not kept in the same array. */
  predicate Separate(a: array?<object?>, b: array?<object?>) {
    a == null || a != b
  }

  method StrikeEntries(cache: HistoryCache, services: array?<object?>, clients: array?<object?>,
                       subscriptions: array?<object?>)
      returns (status: bool)
    requires cache.Valid()
    requires Separate(services, clients) && Separate(services, subscriptions) && Separate(clients, subscriptions)
    requires forall i :: 0 <= i < |Entries(services)| ==> Entries(services)[i] != null
    requires forall i :: 0 <= i < |Entries(clients)| ==> Entries(clients)[i] != null
    requires forall i :: 0 <= i < |Entries(subscriptions)| ==> Entries(subscriptions)[i] != null
    modifies services, clients, subscriptions
    ensures cache.Valid() && cache.View() == old(cache.View())
    ensures LeftOver(cache.View(), old(Entries(services)), Entries(services))
    ensures LeftOver(cache.View(), old(Entries(clients)), Entries(clients))
    ensures LeftOver(cache.View(), old(Entries(subscriptions)), Entries(subscriptions))
    ensures status <==> AnyLeft(Entries(services)) || AnyLeft(Entries(clients)) || AnyLeft(Entries(subscriptions))
  {
    hide HistoryCache.Valid, HistoryCache.View, Pool.Valid, AnyLeft, Queue, HandleOf, Base, Ready, LeftOver;
    status := Strike(cache, services, false);
    status := Strike(cache, clients, status);
    status := Strike(cache, subscriptions, status);
  }

  method StrikeAll(cache: HistoryCache, services: array?<object?>, clients: array?<object?>,
                   subscriptions: array?<object?>, guards: array?<GuardCondition?>, triggers: set<GuardCondition>)
      returns (status: bool)
    requires cache.Valid()
    requires Separate(services, clients) && Separate(services, subscriptions) && Separate(clients, subscriptions)
    requires forall i :: 0 <= i < |Entries(services)| ==> Entries(services)[i] != null
    requires forall i :: 0 <= i < |Entries(clients)| ==> Entries(clients)[i] != null
    requires forall i :: 0 <= i < |Entries(subscriptions)| ==> Entries(subscriptions)[i] != null
    requires forall i :: 0 <= i < |Guards(guards)| ==> Guards(guards)[i] != null
    modifies services, clients, subscriptions, guards, Guards(guards)
    ensures cache.Valid() && cache.View() == old(cache.View())
    ensures LeftOver(cache.View(), old(Entries(services)), Entries(services))
    ensures LeftOver(cache.View(), old(Entries(clients)), Entries(clients))
    ensures LeftOver(cache.View(), old(Entries(subscriptions)), Entries(subscriptions))
    ensures Guards(guards) == Triggered(old(Guards(guards)), old(Raised(Guards(guards))) + triggers)
    ensures forall g :: g in old(Guards(guards)) ==> g != null && !g.hasTriggered
    ensures status <==> AnyLeft(Entries(services)) || AnyLeft(Entries(clients)) || AnyLeft(Entries(subscriptions))
                        || AnyLeft(Guards(guards))
  {
    hide HistoryCache.Valid, HistoryCache.View, Pool.Valid, AnyLeft, Queue, HandleOf, Base, Ready, Triggered, LeftOver;
    hide Raised, Entries;
    status := StrikeEntries(cache, services, clients, subscriptions);
    UnlistedTriggers(Guards(guards), Raised(Guards(guards)), triggers);
    TriggerSome(guards, triggers);
    status := StrikeGuards(guards, status);
  }

  /** The part of `Wait` before the sessions are run. */
  method Prepare(cache: HistoryCache, pool: Pool, ghost all: set<Session>,
                 services: array?<object?>, ghost serviceSessions: seq<Session>,
                 clients: array?<object?>, ghost clientSessions: seq<Session>,
                 subscriptions: array?<object?>, ghost subscriptionSessions: seq<Session>,
                 now: Int64)
      returns (count: int)
    requires cache.Valid() && HoldsSessions(pool, all) && pool != cache.pool && pool.items !! cache.pool.items
    requires forall s :: s in serviceSessions + clientSessions + subscriptionSessions ==> s in all
    requires Belong(Entries(services), serviceSessions) && Belong(Entries(clients), clientSessions)
    requires Belong(Entries(subscriptions), subscriptionSessions)
    modifies all`needToBeRan, cache.pool, cache.pool.items`prev, cache.pool.items`next
    ensures cache.Valid() && cache.View() == Swept(old(cache.View()), now) && cache.Slots() == old(cache.Slots())
    ensures cache.pool.items == old(cache.pool.items) && HoldsSessions(pool, all) && pool.alloc == old(pool.alloc)
    ensures var marked := Marked(pool.alloc, set s | s in serviceSessions + clientSessions + subscriptionSessions);
            count == |marked| % 0x100 && Marked(pool.alloc, Flagged(all)) == marked
  {
    hide HistoryCache.Valid, HistoryCache.View, Pool.Valid, HoldsSessions, Marked, Filter;
    cache.CleanExpired(now);
    assert Belong(Entries(services), serviceSessions);
    assert Belong(Entries(clients), clientSessions);
    assert Belong(Entries(subscriptions), subscriptionSessions);
    count := MarkSessions(pool, all, services, serviceSessions, clients, clientSessions,
                          subscriptions, subscriptionSessions);
  }

  /**
   * How the sessions are run and what is stored then. Those in `cs` are run until data arrives, in the order of the
   * list; when their number, counted in eight bits, is zero, all are run once instead.
   */
  ghost predicate RunIs(pool: Pool, all: set<Session>, cs: seq<Session>, runs: seq<SessionRun>,
                        sys: System, past: seq<Step>, incoming: Session -> seq<Incoming>, stored: seq<Rec>)
    reads pool, pool.alloc`data
  {
    var marked := Marked(pool.alloc, set s | s in cs);
    var untilData := |marked| % 0x100 != 0;
    var ran := if untilData then marked else Marked(pool.alloc, all);
    runs == Log(ran, untilData) && stored == Run(sys, past + Heard(sys, ran, incoming))
  }

  /** The part of `Wait` up to the end of the session runs. */
  method RunWaiting(cache: HistoryCache, pool: Pool, ghost all: set<Session>,
                    services: array?<object?>, ghost serviceSessions: seq<Session>,
                    clients: array?<object?>, ghost clientSessions: seq<Session>,
                    subscriptions: array?<object?>, ghost subscriptionSessions: seq<Session>,
                    now: Int64, incoming: Session -> seq<Incoming>, ghost sys: System, ghost past: seq<Step>)
      returns (ghost runs: seq<SessionRun>)
    requires cache.Valid() && cache.View() == Run(sys, past) && cache.Slots() == sys.slots && Follows(sys, cache)
    requires HoldsSessions(pool, all) && pool != cache.pool && pool.items !! cache.pool.items
    requires forall s :: s in all ==> Receivable(cache, incoming(s))
    requires forall s :: s in serviceSessions + clientSessions + subscriptionSessions ==> s in all
    requires Belong(Entries(services), serviceSessions) && Belong(Entries(clients), clientSessions)
    requires Belong(Entries(subscriptions), subscriptionSessions)
    modifies all`needToBeRan, cache`stored, cache.pool, cache.pool.items`prev, cache.pool.items`next, cache.buffers
    ensures cache.Valid() && cache.Slots() == sys.slots
    ensures RunIs(pool, all, serviceSessions + clientSessions + subscriptionSessions, runs,
                  sys, past + [Sweep(now)], incoming, cache.View())
  {
    hide HistoryCache.Valid, Pool.Valid, HoldsSessions, Marked, Messages, Run, Filter, Log, Belong;
    hide Heard, Receivable, Follows;
    RunThen(sys, past, Sweep(now));
    var count := Prepare(cache, pool, all, services, serviceSessions, clients, clientSessions,
                         subscriptions, subscriptionSessions, now);
    runs := RunSessions(cache, pool, all, count != 0, incoming, sys, past + [Sweep(now)]);
  }

  /**
   * Waits at time `now`. After a sweep, the sessions of the entities waited for are run; `incoming` says what they
   * receive. Then an entity is left exactly if there is a message for it, and a guard condition if it was triggered
   * before, or is in `triggers`.
   */
  method Wait(cache: HistoryCache, pool: Pool, ghost all: set<Session>,
              subscriptions: array?<object?>, ghost subscriptionSessions: seq<Session>,
              guards: array?<GuardCondition?>,
              services: array?<object?>, ghost serviceSessions: seq<Session>,
              clients: array?<object?>, ghost clientSessions: seq<Session>,
              now: Int64, incoming: Session -> seq<Incoming>, triggers: set<GuardCondition>,
              ghost sys: System, ghost past: seq<Step>)
      returns (ret: Ret, ghost runs: seq<SessionRun>)
    requires cache.Valid() && cache.View() == Run(sys, past) && cache.Slots() == sys.slots && Follows(sys, cache)
    requires HoldsSessions(pool, all) && pool != cache.pool && pool.items !! cache.pool.items
    requires forall s :: s in all ==> Receivable(cache, incoming(s))
    requires forall s :: s in serviceSessions + clientSessions + subscriptionSessions ==> s in all
    requires Belong(Entries(services), serviceSessions) && Belong(Entries(clients), clientSessions)
    requires Belong(Entries(subscriptions), subscriptionSessions)
    requires Separate(services, clients) && Separate(services, subscriptions) && Separate(clients, subscriptions)
    requires forall i :: 0 <= i < |Guards(guards)| ==> Guards(guards)[i] != null
    modifies all`needToBeRan, services, clients, subscriptions, guards, Guards(guards)
    modifies cache`stored, cache.pool, cache.pool.items`prev, cache.pool.items`next, cache.buffers
    ensures cache.Valid() && cache.Slots() == sys.slots
    ensures services == clients == subscriptions == null && guards == null ==>
              ret == Ok && runs == [] && cache.View() == old(cache.View())
    ensures !(services == clients == subscriptions == null && guards == null) ==>
              RunIs(pool, all, serviceSessions + clientSessions + subscriptionSessions, runs,
                    sys, past + [Sweep(now)], incoming, cache.View())
    ensures !(services == clients == subscriptions == null && guards == null) ==>
              && LeftOver(cache.View(), old(Entries(services)), Entries(services))
              && LeftOver(cache.View(), old(Entries(clients)), Entries(clients))
              && LeftOver(cache.View(), old(Entries(subscriptions)), Entries(subscriptions))
              && Guards(guards) == Triggered(old(Guards(guards)), old(Raised(Guards(guards))) + triggers)
              && (forall g :: g in old(Guards(guards)) ==> g != null && !g.hasTriggered)
              && (ret == Ok || ret == Timeout)
              && (ret == Ok <==> AnyLeft(Entries(services)) || AnyLeft(Entries(clients))
                                 || AnyLeft(Entries(subscriptions)) || AnyLeft(Guards(guards)))
  {
    hide HistoryCache.Valid, HistoryCache.View, HistoryCache.Slots, Pool.Valid, HoldsSessions, Marked, Run, AnyLeft;
    hide Triggered, Raised, LeftOver, RunIs, Receivable, Follows, Belong, Base;
    NoneIsNull(Entries(services), serviceSessions);
    NoneIsNull(Entries(clients), clientSessions);
    NoneIsNull(Entries(subscriptions), subscriptionSessions);
    runs := [];
    if services == null && clients == null && subscriptions == null && guards == null {
      ret := Ok;
      return;
    }
    runs := RunWaiting(cache, pool, all, services, serviceSessions, clients, clientSessions,
                       subscriptions, subscriptionSessions, now, incoming, sys, past);
    var status := StrikeAll(cache, services, clients, subscriptions, guards, triggers);
    ret := if status then Ok else Timeout;
  }

  lemma {:induction false} MarkedAll(s: seq<Item>, m: set<Session>)
    requires forall x :: x in s ==> SessionOf(x) != null && SessionOf(x) in m
    ensures |Marked(s, m)| == |s|
    decreases |s|
  {
    if s != [] {
      MarkedAll(s[..|s| - 1], m);
    }
  }

  /** With 256 sessions, each waited for, none of them is run until data arrives. */
  method SpinAll(cache: HistoryCache, pool: Pool, ghost all: set<Session>,
                 services: array?<object?>, ghost serviceSessions: seq<Session>,
                 clients: array?<object?>, ghost clientSessions: seq<Session>,
                 subscriptions: array?<object?>, ghost subscriptionSessions: seq<Session>,
                 now: Int64, incoming: Session -> seq<Incoming>, ghost sys: System, ghost past: seq<Step>)
      returns (ghost runs: seq<SessionRun>)
    requires cache.Valid() && cache.View() == Run(sys, past) && cache.Slots() == sys.slots && Follows(sys, cache)
    requires HoldsSessions(pool, all) && pool != cache.pool && pool.items !! cache.pool.items && |pool.alloc| == 0x100
    requires forall s :: s in all ==> Receivable(cache, incoming(s))
    requires forall s :: s in serviceSessions + clientSessions + subscriptionSessions ==> s in all
    requires forall x :: x in pool.alloc ==>
               SessionOf(x) != null && SessionOf(x) in serviceSessions + clientSessions + subscriptionSessions
    requires Belong(Entries(services), serviceSessions) && Belong(Entries(clients), clientSessions)
    requires Belong(Entries(subscriptions), subscriptionSessions)
    modifies all`needToBeRan, cache`stored, cache.pool, cache.pool.items`prev, cache.pool.items`next, cache.buffers
    ensures |runs| == 0x100 && forall k :: 0 <= k < |runs| ==> runs[k].Spin?
  {
    hide HistoryCache.Valid, HistoryCache.View, HistoryCache.Slots, Pool.Valid, Marked, Run, Belong, Heard, Receivable;
    forall x | x in pool.alloc
      ensures SessionOf(x) in all
    {
    }
    MarkedAll(pool.alloc, set s | s in serviceSessions + clientSessions + subscriptionSessions);
    MarkedAll(pool.alloc, all);
    runs := RunWaiting(cache, pool, all, services, serviceSessions, clients, clientSessions,
                       subscriptions, subscriptionSessions, now, incoming, sys, past);
  }

  /** An entity left by a wait can be taken from exactly as long as a sweep at that time keeps one of its messages. */
  lemma TakeableIff(c: seq<Rec>, o: Handle, now: Int64)
    ensures Queue(c, o) != [] <==> exists r :: r in c && Visible(r, o)
    ensures TakeAt(c, o, now, _ => true).taken <==> exists r :: r in Queue(c, o) && Kept(r, now)
  {
    hide Queue, Filter, Oldest, TakeAt;
    QueueMembers(c, o);
    if Queue(c, o) != [] {
      assert Queue(c, o)[0] in Queue(c, o);
    }
    TakeHandsOverHead(c, o, now, _ => true, System(0, _ => Qos(SystemDefault, 0, 0)));
    Refinement.FilterMembers(Queue(c, o), KeptAt(now));
    var q := Swept(Queue(c, o), now);
    if q != [] {
      assert q[0] in q;
    }
  }
}
