/** The decoder of graph messages: nested loops over a buffer that remembers where it is. */
module GraphDecoder {
  import opened Integers
  import opened Cdr
  import opened Graph
  import opened Taking

  /** A buffer of the CDR library: once a read has failed, all later ones do. */
  class Buffer {
    const data: seq<Byte>
    var position: nat
    var error: bool

    constructor (data: seq<Byte>)
      ensures this.data == data && position == 0 && !error
    {
      this.data := data;
      position, error := 0, false;
    }

    method DeserializeU8() returns (ok: bool, x: Byte)
      modifies this
      ensures ok == !error == (!old(error) && ReadU8(data, old(position)).Got?)
      ensures ok ==> ReadU8(data, old(position)) == Got(x, position)
    {
      ok, x := false, 0;
      if !error && position < |data| {
        ok, x := true, data[position];
        position := position + 1;
      }
      error := !ok;
    }

    /** A number that cannot be read counts as 0. */
    method DeserializeU32() returns (ok: bool, x: UInt32)
      modifies this
      ensures ok == !error == (!old(error) && ReadU32(data, old(position)).Got?)
      ensures ok ==> ReadU32(data, old(position)) == Got(x, position)
      ensures !ok ==> x == 0
    {
      ok, x := false, 0;
      var q := Align(position);
      if !error && q + 4 <= |data| {
        ok, x := true, Word(data[q], data[q + 1], data[q + 2], data[q + 3]);
        position := q + 4;
      }
      error := !ok;
    }

    method DeserializeString() returns (ok: bool, s: CString)
      modifies this
      ensures ok == !error == (!old(error) && ReadString(data, old(position)).Got?)
      ensures ok ==> ReadString(data, old(position)) == Got(s, position)
    {
      s := [];
      var length;
      ok, length := DeserializeU32();
      if ok && length <= CAPACITY && position + length <= |data| {
        s := ToNul(data[position..position + length]);
        position := position + length;
      } else {
        ok := false;
      }
      error := !ok;
    }
  }

  /** The innermost loop: the types of an entity, unless an earlier read has failed. */
  method FillTypes(b: Buffer, n: nat, before: Ret) returns (ret: Ret, types: seq<CString>)
    requires before == if b.error then Error else Ok
    modifies b
    ensures ret == if b.error then Error else Ok
    ensures old(b.error) ==> b.error
    ensures !old(b.error) ==>
              ReadMany(STRING_READER, b.data, old(b.position), n)
              == if ret == Ok then Got(types, b.position) else Failed
  {
    hide ReadMany, Partly, ReadString;
    var data := new CString[n](_ => []);
    var k := 0;
    ghost var p := b.position;
    PartlyStarts(STRING_READER, b.data, p, n);
    assert data[..0] == [];
    ret := before;
    while k < n && ret == Ok
      invariant k <= n && ret == if b.error then Error else Ok
      invariant old(b.error) ==> ret == Error
      invariant !old(b.error) ==> Partly(STRING_READER, b.data, p, n, ret != Ok, data[..k], b.position)
    {
      if !old(b.error) {
        PartlySteps(STRING_READER, b.data, p, n, data[..k], b.position);
      }
      var ok, s := b.DeserializeString();
      if !ok {
        ret := Error;
      }
      data[k] := s;
      assert data[..k + 1] == data[..k] + [s];
      k := k + 1;
    }
    types := data[..];
    if !old(b.error) && ret == Ok {
      assert data[..k] == types;
      PartlyEnds(STRING_READER, b.data, p, n, types, b.position);
    } else if !old(b.error) {
      PartlyFails(STRING_READER, b.data, p, n, data[..k], b.position);
    }
  }

  method FillEntity(b: Buffer) returns (ret: Ret, entity: GraphEntity)
    requires !b.error
    modifies b
    ensures ret == if b.error then Error else Ok
    ensures ReadEntity(b.data, old(b.position)) == if ret == Ok then Got(entity, b.position) else Failed
  {
    ret := Ok;
    var ok, kind := b.DeserializeU8();
    if !ok {
      ret := Error;
    }
    var name;
    ok, name := b.DeserializeString();
    if !ok {
      ret := Error;
    }
    var size;
    ok, size := b.DeserializeU32();
    if !ok {
      ret := Error;
    }
    var types;
    ret, types := FillTypes(b, size, ret);
    entity := GraphEntity(kind, name, types);
  }

  const NO_ENTITY := GraphEntity(0, [], [])

  method FillEntities(b: Buffer, n: nat, before: Ret) returns (ret: Ret, entities: seq<GraphEntity>)
    requires before == if b.error then Error else Ok
    modifies b
    ensures ret == if b.error then Error else Ok
    ensures old(b.error) ==> b.error
    ensures !old(b.error) ==>
              ReadMany(ENTITY_READER, b.data, old(b.position), n)
              == if ret == Ok then Got(entities, b.position) else Failed
  {
    hide ReadMany, Partly, ReadEntity;
    var data := new GraphEntity[n](_ => NO_ENTITY);
    var j := 0;
    ghost var p := b.position;
    PartlyStarts(ENTITY_READER, b.data, p, n);
    assert data[..0] == [];
    ret := before;
    while j < n && ret == Ok
      invariant j <= n && ret == if b.error then Error else Ok
      invariant old(b.error) ==> ret == Error
      invariant !old(b.error) ==> Partly(ENTITY_READER, b.data, p, n, ret != Ok, data[..j], b.position)
    {
      if !old(b.error) {
        PartlySteps(ENTITY_READER, b.data, p, n, data[..j], b.position);
      }
      var entity;
      ret, entity := FillEntity(b);
      data[j] := entity;
      assert data[..j + 1] == data[..j] + [entity];
      j := j + 1;
    }
    entities := data[..];
    if !old(b.error) && ret == Ok {
      assert data[..j] == entities;
      PartlyEnds(ENTITY_READER, b.data, p, n, entities, b.position);
    } else if !old(b.error) {
      PartlyFails(ENTITY_READER, b.data, p, n, data[..j], b.position);
    }
  }

  method FillNode(b: Buffer) returns (ret: Ret, node: GraphNode)
    requires !b.error
    modifies b
    ensures ret == if b.error then Error else Ok
    ensures ReadNode(b.data, old(b.position)) == if ret == Ok then Got(node, b.position) else Failed
  {
    ret := Ok;
    var ok, namespace := b.DeserializeString();
    if !ok {
      ret := Error;
    }
    var name;
    ok, name := b.DeserializeString();
    if !ok {
      ret := Error;
    }
    var size;
    ok, size := b.DeserializeU32();
    if !ok {
      ret := Error;
    }
    var entities;
    ret, entities := FillEntities(b, size, ret);
    node := GraphNode(namespace, name, entities);
  }

  const NO_NODE := GraphNode([], [], [])

  /** Decodes a message. The result is an error exactly if some part of it cannot be read. */
  method FillData(message: seq<Byte>) returns (ret: Ret, nodes: seq<GraphNode>)
    ensures ret == Ok || ret == Error
    ensures ret == Ok <==> ReadGraph(message).Got?
    ensures ret == Ok ==> nodes == ReadGraph(message).value
  {
    hide ReadMany, Partly, ReadNode;
    var b := new Buffer(message);
    ret := Ok;
    var ok, size := b.DeserializeU32();
    if !ok {
      ret := Error;
    }
    var data := new GraphNode[size](_ => NO_NODE);
    var i := 0;
    ghost var start := b.position;
    PartlyStarts(NODE_READER, message, start, size);
    assert data[..0] == [];
    while i < size && ret == Ok
      invariant i <= size && ret == if b.error then Error else Ok
      invariant ok ==> Partly(NODE_READER, message, start, size, ret != Ok, data[..i], b.position)
      invariant !ok ==> ret == Error
    {
      if ok {
        PartlySteps(NODE_READER, message, start, size, data[..i], b.position);
      }
      var node;
      ret, node := FillNode(b);
      data[i] := node;
      assert data[..i + 1] == data[..i] + [node];
      i := i + 1;
    }
    nodes := data[..];
    if ok && ret == Ok {
      assert data[..i] == nodes;
      PartlyEnds(NODE_READER, message, start, size, nodes, b.position);
    } else if ok {
      PartlyFails(NODE_READER, message, start, size, data[..i], b.position);
    }
  }

  /** The decoder gives back every graph that was encoded, with strings of at most 255 bytes and without NUL. */
  method RoundTrip(g: seq<GraphNode>) returns (ret: Ret, nodes: seq<GraphNode>)
    requires |g| < 0x1_0000_0000 && forall n :: n in g ==> |n.entities| < 0x1_0000_0000
    requires forall n :: n in g ==> |n.namespace| <= 255 && |n.name| <= 255 && 0 !in n.namespace && 0 !in n.name
    requires forall n, e :: n in g && e in n.entities ==>
               |e.types| < 0x1_0000_0000 && |e.name| <= 255 && 0 !in e.name
    requires forall n, e, t :: n in g && e in n.entities && t in e.types ==> |t| <= 255 && 0 !in t
    ensures ret == Ok && nodes == g
  {
    hide ReadGraph, PutGraph;
    GraphInverts(g);
    ret, nodes := FillData(PutGraph(g));
  }
}
