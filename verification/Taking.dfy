/** Taking stored messages: sweep, find the oldest one of the entity, hand it over, release its buffer. */
module Taking {
  import opened Integers
  import opened History
  import opened Mempool
  import opened Cache
  import opened Refinement
  import Runs

  datatype Ret = Ok | Error | Timeout

  /** The outcome of taking from a list of stored messages at time `now`. */
  datatype Outcome = Outcome(ret: Ret, taken: bool, message: seq<bv8>, left: seq<Rec>)

  function TakeAt(c: seq<Rec>, o: Handle, now: Int64, decodes: seq<bv8> -> bool): Outcome {
    var swept := Swept(c, now);
    var i := Oldest(swept, o);
    if i < 0 then Outcome(Error, false, [], swept)
    else if decodes(swept[i].bytes) then Outcome(Ok, true, swept[i].bytes, History.Without(swept, i))
    else Outcome(Error, false, [], History.Without(swept, i))
  }

  /** The part that the three take functions share. */
  method TakeOldest(cache: HistoryCache, owner: Handle, now: Int64, decodes: seq<bv8> -> bool)
      returns (ret: Ret, taken: bool, message: seq<bv8>, related: Related)
    requires cache.Valid()
    modifies cache.pool, cache.pool.items`prev, cache.pool.items`next
    ensures cache.Valid() && cache.Slots() == old(cache.Slots()) && cache.pool.items == old(cache.pool.items)
    ensures Outcome(ret, taken, message, cache.View()) == TakeAt(old(cache.View()), owner, now, decodes)
    ensures var c := Swept(old(cache.View()), now);
            related == if Oldest(c, owner) < 0 then NoRelated else c[Oldest(c, owner)].related
  {
    hide HistoryCache.Valid, Pool.Valid, Messages, Oldest, Filter;
    ret, taken, message, related := Error, false, [], NoRelated;
    cache.CleanExpired(now);
    var item := cache.FindByOwner(owner);
    if item == null {
      return;
    }
    ghost var i := Oldest(cache.View(), owner);
    cache.At(i);
    var buffer := item.data as StaticBuffer;
    var bytes := buffer.buffer[..buffer.length];
    related := buffer.related;
    var deserializeRv := decodes(bytes);
    cache.Release(item, i);
    taken := deserializeRv;
    if !deserializeRv {
      return;
    }
    ret, message := Ok, bytes;
  }

  /** A take is two steps of the cache, and hands over the head of what the sweep leaves of the owner's queue. */
  lemma TakeHandsOverHead(c: seq<Rec>, o: Handle, now: Int64, decodes: seq<bv8> -> bool, sys: Runs.System)
    ensures var q, t := Swept(Queue(c, o), now), TakeAt(c, o, now, decodes);
            && t.left == Runs.Next(sys, Runs.Next(sys, c, Runs.Sweep(now)), Runs.Taking(o, t.taken))
            && t.ret == (if t.taken then Ok else Error) && (t.taken <==> q != [] && decodes(q[0].bytes))
            && (t.taken ==> t.message == q[0].bytes)
            && Queue(t.left, o) == if q == [] then [] else q[1..]
  {
    hide Queue, Filter, Oldest;
    SweepRefinesFilter(c, o, now);
    TakeRefinesDequeue(Swept(c, now), o, o);
  }

  /** A take only sweeps the queues of other entities. */
  lemma TakeSweepsOthers(c: seq<Rec>, o: Handle, now: Int64, decodes: seq<bv8> -> bool, p: Handle)
    requires p != o
    ensures Queue(TakeAt(c, o, now, decodes).left, p) == Swept(Queue(c, p), now)
  {
    hide Queue, Filter, Oldest;
    SweepRefinesFilter(c, p, now);
    TakeRefinesDequeue(Swept(c, now), o, p);
  }

  // ---------------------------------------------------------------- taking a sequence

  datatype Batch = Batch(ret: Ret, messages: seq<seq<bv8>>, left: seq<Rec>)

  /** Up to `|clock|` takes, each at its own time, until one fails. */
  function TakeBatch(c: seq<Rec>, o: Handle, clock: seq<Int64>, decodes: seq<bv8> -> bool): Batch
    decreases |clock|
  {
    if clock == [] then Batch(Ok, [], c)
    else
      var first := TakeAt(c, o, clock[0], decodes);
      if first.ret != Ok || !first.taken then Batch(first.ret, [], first.left)
      else
        var rest := TakeBatch(first.left, o, clock[1..], decodes);
        Batch(rest.ret, [first.message] + rest.messages, rest.left)
  }

  lemma {:induction false} TakeBatchSize(c: seq<Rec>, o: Handle, clock: seq<Int64>, decodes: seq<bv8> -> bool)
    ensures |TakeBatch(c, o, clock, decodes).messages| <= |clock|
    ensures TakeBatch(c, o, clock, decodes).ret
         == if |TakeBatch(c, o, clock, decodes).messages| == |clock| then Ok else Error
    decreases |clock|
  {
    if clock != [] {
      hide Swept, Oldest;
      TakeBatchSize(TakeAt(c, o, clock[0], decodes).left, o, clock[1..], decodes);
    }
  }

  /** What is stored after takes at the given times, whether or not the messages decode. */
  ghost function AfterTakes(c: seq<Rec>, o: Handle, clock: seq<Int64>): seq<Rec>
    decreases |clock|
  {
    if clock == [] then c else AfterTakes(Take(Swept(c, clock[0]), o), o, clock[1..])
  }

  /**
   * Whatever the clock says: the `i`-th message of a batch is the head of what the `i`-th sweep leaves of the queue. A
   * batch that ends early does so because that head does not decode or is not there, and is an error.
   */
  lemma {:induction false} BatchTakesHeads(c: seq<Rec>, o: Handle, clock: seq<Int64>, i: nat, decodes: seq<bv8> -> bool)
    requires i <= |TakeBatch(c, o, clock, decodes).messages|
    ensures i <= |clock|
    ensures var b := TakeBatch(c, o, clock, decodes);
            if i == |clock| then b.ret == Ok && b.left == AfterTakes(c, o, clock)
            else
              var q := Swept(Queue(AfterTakes(c, o, clock[..i]), o), clock[i]);
              if i < |b.messages| then q != [] && decodes(q[0].bytes) && b.messages[i] == q[0].bytes
              else
                && (q == [] || !decodes(q[0].bytes))
                && b.ret == Error && b.left == AfterTakes(c, o, clock[..i + 1])
    decreases |clock|
  {
    hide Queue, Filter, Oldest, TakeAt;
    if clock != [] {
      var t := TakeAt(c, o, clock[0], decodes);
      TakeHandsOverHead(c, o, clock[0], decodes, Runs.System(0, _ => Qos(Unrecognized, 0, 0)));
      TakeLeaves(c, o, clock[0], decodes);
      if i > 0 {
        BatchTakesHeads(t.left, o, clock[1..], i - 1, decodes);
        assert clock[..i][1..] == clock[1..][..i - 1];
        assert i < |clock| ==> clock[..i + 1][1..] == clock[1..][..i];
      } else {
        assert clock[..1][1..] == [];
      }
    }
  }

  lemma TakeLeaves(c: seq<Rec>, o: Handle, now: Int64, decodes: seq<bv8> -> bool)
    ensures TakeAt(c, o, now, decodes).left == Take(Swept(c, now), o)
  {
  }

  /** One turn of the batch loop. */
  lemma TakeBatchTurn(c: seq<Rec>, o: Handle, clock: seq<Int64>, i: nat, done: seq<seq<bv8>>, decodes: seq<bv8> -> bool)
    requires i <= |clock|
    ensures var b := TakeBatch(c, o, clock[i..], decodes);
            if i == |clock| then b == Batch(Ok, [], c)
            else
              var t := TakeAt(c, o, clock[i], decodes);
              if t.ret != Ok || !t.taken then b == Batch(t.ret, [], t.left)
              else
                var rest := TakeBatch(t.left, o, clock[i + 1..], decodes);
                b.ret == rest.ret && b.left == rest.left && done + b.messages == done + [t.message] + rest.messages
  {
    hide TakeAt;
    if i < |clock| {
      assert clock[i..][1..] == clock[i + 1..];
    }
  }

  /** A sequence of messages: an array of which the first `size` places are in use. */
  class MessageSequence {
    const data: array<seq<bv8>>
    var size: nat

    constructor (data: array<seq<bv8>>)
      ensures this.data == data && size == 0
    {
      this.data, size := data, 0;
    }
  }

  /** The sequence that goes with it; nothing is written into its places. */
  class InfoSequence {
    var size: nat

    constructor ()
      ensures size == 0
    {
      size := 0;
    }
  }

  /** Fills `messages` from the front; the result is `Ok` exactly when all `|clock|` takes succeeded. */
  method TakeSequence(cache: HistoryCache, owner: Handle, clock: seq<Int64>,
                      messages: MessageSequence, infos: InfoSequence, decodes: seq<bv8> -> bool)
      returns (ret: Ret, taken: nat)
    requires cache.Valid() && |clock| <= messages.data.Length
    modifies messages.data, messages`size, infos`size, cache.pool, cache.pool.items`prev, cache.pool.items`next
    ensures cache.Valid() && cache.Slots() == old(cache.Slots())
    ensures messages.size == infos.size == taken
    ensures taken <= |clock| && ret == if taken == |clock| then Ok else Error
    ensures Batch(ret, messages.data[..taken], cache.View()) == TakeBatch(old(cache.View()), owner, clock, decodes)
    ensures messages.data[taken..] == old(messages.data[taken..])
  {
    hide HistoryCache.Valid, HistoryCache.View, HistoryCache.Slots, TakeAt, TakeBatch, Oldest, Swept;
    ret, taken := Ok, 0;
    TakeBatchSize(cache.View(), owner, clock, decodes);
    assert clock[0..] == clock;
    ghost var all := TakeBatch(cache.View(), owner, clock, decodes);
    for i := 0 to |clock|
      invariant taken == i && ret == Ok
      invariant cache.Valid() && cache.Slots() == old(cache.Slots()) && cache.pool.items == old(cache.pool.items)
      invariant messages.data[i..] == old(messages.data[i..])
      invariant var rest := TakeBatch(cache.View(), owner, clock[i..], decodes);
                all == Batch(rest.ret, messages.data[..i] + rest.messages, rest.left)
    {
      TakeBatchTurn(cache.View(), owner, clock, i, messages.data[..i], decodes);
      var r, takenFlag, message, _ := TakeOldest(cache, owner, clock[i], decodes);
      ret := r;
      if ret != Ok || !takenFlag {
        break;
      }
      messages.data[taken] := message;
      taken := taken + 1;
    }
    if taken == |clock| {
      TakeBatchTurn(cache.View(), owner, clock, taken, messages.data[..taken], decodes);
    }
    messages.size, infos.size := taken, taken;
  }

  /**
   * With a clock that stands still and messages that decode, a batch takes the unexpired queue from the front, as far
   * as it was asked to, and leaves exactly the rest.
   */
  lemma {:induction false} BatchTakesPrefix(c: seq<Rec>, o: Handle, clock: seq<Int64>, now: Int64,
                                            decodes: seq<bv8> -> bool)
    requires forall i :: 0 <= i < |clock| ==> clock[i] == now
    requires forall x :: x in Queue(c, o) ==> decodes(x.bytes)
    ensures var q, b := Swept(Queue(c, o), now), TakeBatch(c, o, clock, decodes);
            && b.messages == FirstBytes(q, |clock|)
            && (b.ret == Ok <==> |clock| <= |q|)
            && (clock != [] ==> Queue(b.left, o) == if |clock| <= |q| then q[|clock|..] else [])
    decreases |clock|
  {
    hide Queue, Filter, TakeAt;
    if clock != [] {
      var q, t := Swept(Queue(c, o), now), TakeAt(c, o, now, decodes);
      TakeHandsOverHead(c, o, now, decodes, Runs.System(0, _ => Qos(Unrecognized, 0, 0)));
      FilterMembers(Queue(c, o), KeptAt(now));
      if q != [] {
        assert q[0] in q;
        SweptTwice(Queue(c, o), now);
        assert forall x :: x in q[1..] ==> x in q;
        BatchTakesPrefix(t.left, o, clock[1..], now, decodes);
      }
    }
  }

  /** The bytes of the first `n` messages. */
  function FirstBytes(q: seq<Rec>, n: nat): seq<seq<bv8>> {
    if n == 0 || q == [] then [] else [q[0].bytes] + FirstBytes(q[1..], n - 1)
  }

  lemma SweptTwice(q: seq<Rec>, now: Int64)
    ensures var s := Swept(q, now); s != [] ==> Swept(s[1..], now) == s[1..]
  {
    hide Filter;
    FilterMembers(q, KeptAt(now));
    var s := Swept(q, now);
    if s != [] {
      forall i | 0 <= i < |s[1..]|
        ensures KeptAt(now)(s[1..][i])
      {
        assert s[i + 1] in s;
      }
      FilterAll(s[1..], KeptAt(now));
    }
  }
}
