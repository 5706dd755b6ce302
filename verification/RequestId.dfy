/** The identity of a request, as the client library hands it over and as the application sees it. */
module RequestId {
  import opened Integers
  import opened History
  import opened Entities
  import opened Cache
  import opened Taking

  /** A 64-bit sequence number and the sixteen bytes of the writer's identifier. */
  datatype Id = Id(sequenceNumber: Int64, writerGuid: seq<bv8>)

  /** Twelve bytes of prefix and three of key, as the identity of a sample has them. */
  predicate Wellformed(s: SampleIdentity) {
    |s.guid.prefix| == 12 && |s.guid.key| == 3
  }

  /** On 64-bit words, joining with a word below 2^32 fills the bits that a shift by 32 cleared, as an addition does. */
  lemma JoinIsSum(high: bv64, low: bv64)
    requires low < 0x1_0000_0000
    ensures (high << 32) | low == (high << 32) + low
  {
  }

  /** `high << 32 | low` on signed 64-bit numbers. */
  function Join(high: Int32, low: UInt32): Int64 {
    Wrap64(high * TWO_TO_THE_32) + low
  }

  /** The cast to a signed 32-bit number of the arithmetic shift by 32 to the right, which rounds down. */
  function HighPart(x: Int64): Int32 {
    var m := (x / TWO_TO_THE_32) % TWO_TO_THE_32;
    if m <= 0x7FFF_FFFF then m else m - TWO_TO_THE_32
  }

  /** The cast to an unsigned 32-bit number. */
  function LowPart(x: Int64): UInt32 {
    x % TWO_TO_THE_32
  }

  /** What `rmw_take_request` writes into the request header. */
  function Pack(s: SampleIdentity): (r: Id)
    requires Wellformed(s)
    ensures |r.writerGuid| == 16 && r.writerGuid[0] == s.guid.kind
    ensures r.writerGuid[1..4] == s.guid.key && r.writerGuid[4..16] == s.guid.prefix
  {
    Id(Join(s.high, s.low), [s.guid.kind] + s.guid.key + s.guid.prefix)
  }

  /** What `rmw_send_response` reads back out of it. */
  function Unpack(r: Id): (s: SampleIdentity)
    requires |r.writerGuid| == 16
    ensures Wellformed(s)
  {
    SampleIdentity(Guid(r.writerGuid[4..16], r.writerGuid[1..4], r.writerGuid[0]),
                   HighPart(r.sequenceNumber), LowPart(r.sequenceNumber))
  }

  lemma JoinValue(high: Int32, low: UInt32)
    ensures Join(high, low) == high * TWO_TO_THE_32 + low
    ensures HighPart(Join(high, low)) == high && LowPart(Join(high, low)) == low
  {
    assert Wrap64(high * TWO_TO_THE_32) == high * TWO_TO_THE_32;
  }

  /** The response carries the identity of the request, */
  lemma UnpackPack(s: SampleIdentity)
    requires Wellformed(s)
    ensures Unpack(Pack(s)) == s
    ensures Pack(s).sequenceNumber == s.high * 0x1_0000_0000 + s.low
  {
    JoinValue(s.high, s.low);
  }

  /** and no two header values stand for the same identity. */
  lemma PackUnpack(r: Id)
    requires |r.writerGuid| == 16
    ensures Pack(Unpack(r)) == r
  {
    var high, low := HighPart(r.sequenceNumber), LowPart(r.sequenceNumber);
    JoinValue(high, low);
    assert r.sequenceNumber == r.sequenceNumber / TWO_TO_THE_32 * TWO_TO_THE_32 + low;
    var g := r.writerGuid;
    assert [g[0]] + g[1..4] + g[4..16] == g;
  }

  /** Takes a request for a service; the header receives the identity stored with the message. */
  method TakeRequest(cache: HistoryCache, service: Service, now: Int64, decodes: seq<bv8> -> bool)
      returns (ret: Ret, taken: bool, message: seq<bv8>, header: Id)
    requires cache.Valid() && service.entity.index < |cache.services|
    requires forall r :: r in cache.View() && r.owner == ServiceSlot(service.entity.index) ==>
               r.related.SampleId? && Wellformed(r.related.sample)
    modifies cache.pool, cache.pool.items`prev, cache.pool.items`next
    ensures cache.Valid() && cache.Slots() == old(cache.Slots())
    ensures Outcome(ret, taken, message, cache.View())
         == TakeAt(old(cache.View()), ServiceSlot(service.entity.index), now, decodes)
    ensures var c, o := Swept(old(cache.View()), now), ServiceSlot(service.entity.index);
            Oldest(c, o) >= 0 ==>
              && c[Oldest(c, o)].related.SampleId?
              && |header.writerGuid| == 16 && Unpack(header) == c[Oldest(c, o)].related.sample
              && var s := c[Oldest(c, o)].related.sample;
                 && header.sequenceNumber == s.high * 0x1_0000_0000 + s.low
                 && header.writerGuid[0] == s.guid.kind && header.writerGuid[1..4] == s.guid.key
                 && header.writerGuid[4..16] == s.guid.prefix
  {
    hide HistoryCache.Valid, HistoryCache.View, Oldest, Filter, Pack, Unpack;
    ghost var before, o := cache.View(), ServiceSlot(service.entity.index);
    var related;
    ret, taken, message, related := TakeOldest(cache, ServiceSlot(service.entity.index), now, decodes);
    header := Id(0, []);
    ghost var c := Swept(before, now);
    if Oldest(c, o) >= 0 {
      Refinement.FilterMembers(before, KeptAt(now));
      assert c[Oldest(c, o)] in c;
    }
    if related.SampleId? {
      header := Pack(related.sample);
      UnpackPack(related.sample);
    }
  }

  /** Takes a reply for a client; the header receives the number of the request it answers. */
  method TakeResponse(cache: HistoryCache, client: Client, now: Int64, decodes: seq<bv8> -> bool)
      returns (ret: Ret, taken: bool, message: seq<bv8>, sequenceNumber: Int64)
    requires cache.Valid() && client.entity.index < |cache.clients|
    requires forall r :: r in cache.View() && r.owner == ClientSlot(client.entity.index) ==> r.related.ReplyId?
    modifies cache.pool, cache.pool.items`prev, cache.pool.items`next
    ensures cache.Valid() && cache.Slots() == old(cache.Slots())
    ensures Outcome(ret, taken, message, cache.View())
         == TakeAt(old(cache.View()), ClientSlot(client.entity.index), now, decodes)
    ensures var c, o := Swept(old(cache.View()), now), ClientSlot(client.entity.index);
            Oldest(c, o) >= 0 ==> c[Oldest(c, o)].related == ReplyId(sequenceNumber)
  {
    hide HistoryCache.Valid, HistoryCache.View, Oldest, Filter;
    ghost var before, o := cache.View(), ClientSlot(client.entity.index);
    var related;
    ret, taken, message, related := TakeOldest(cache, ClientSlot(client.entity.index), now, decodes);
    sequenceNumber := 0;
    ghost var c := Swept(before, now);
    if Oldest(c, o) >= 0 {
      Refinement.FilterMembers(before, KeptAt(now));
      assert c[Oldest(c, o)] in c;
    }
    if related.ReplyId? {
      sequenceNumber := related.reply;
    }
  }
}
