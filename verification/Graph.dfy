/** The graph message: nodes, their entities and the types of these, and its CDR form. */
module Graph {
  import opened Integers
  import opened Cdr

  datatype GraphEntity = GraphEntity(kind: Byte, name: CString, types: seq<CString>)

  datatype GraphNode = GraphNode(namespace: CString, name: CString, entities: seq<GraphEntity>)

  // ---------------------------------------------------------------- reading

  function ReadEntity(d: seq<Byte>, p: nat): Read<GraphEntity> {
    match ReadU8(d, p)
    case Failed => Failed
    case Got(kind, q) =>
      match ReadString(d, q)
      case Failed => Failed
      case Got(name, r) =>
        match ReadList(STRING_READER, d, r)
        case Failed => Failed
        case Got(types, s) => Got(GraphEntity(kind, name, types), s)
  }

  const ENTITY_READER: Reader<GraphEntity> := (d: seq<Byte>, p: nat) => ReadEntity(d, p)

  function ReadNode(d: seq<Byte>, p: nat): Read<GraphNode> {
    match ReadString(d, p)
    case Failed => Failed
    case Got(namespace, q) =>
      match ReadString(d, q)
      case Failed => Failed
      case Got(name, r) =>
        match ReadList(ENTITY_READER, d, r)
        case Failed => Failed
        case Got(entities, s) => Got(GraphNode(namespace, name, entities), s)
  }

  const NODE_READER: Reader<GraphNode> := (d: seq<Byte>, p: nat) => ReadNode(d, p)

  function ReadGraph(d: seq<Byte>): Read<seq<GraphNode>> {
    ReadList(NODE_READER, d, 0)
  }

  // ---------------------------------------------------------------- writing

  function PutEntity(b: seq<Byte>, e: GraphEntity): seq<Byte> {
    PutList(STRING_WRITER, PutString(PutU8(b, e.kind), e.name), e.types)
  }

  const ENTITY_WRITER: Writer<GraphEntity> := (b, e) => PutEntity(b, e)

  function PutNode(b: seq<Byte>, n: GraphNode): seq<Byte> {
    PutList(ENTITY_WRITER, PutString(PutString(b, n.namespace), n.name), n.entities)
  }

  const NODE_WRITER: Writer<GraphNode> := (b, n) => PutNode(b, n)

  function PutGraph(g: seq<GraphNode>): seq<Byte> {
    PutList(NODE_WRITER, [], g)
  }

  const STRING_FITS: CString -> bool := s => Fits(s)

  predicate EntityIn(e: GraphEntity) {
    Fits(e.name) && |e.types| < 0x1_0000_0000 && forall s :: s in e.types ==> STRING_FITS(s)
  }

  const ENTITY_FITS: GraphEntity -> bool := e => EntityIn(e)

  predicate NodeIn(n: GraphNode) {
    Fits(n.namespace) && Fits(n.name) && |n.entities| < 0x1_0000_0000 && forall e :: e in n.entities ==> ENTITY_FITS(e)
  }

  const NODE_FITS: GraphNode -> bool := n => NodeIn(n)

  /** A graph whose strings are free of NUL and at most 255 bytes long. */
  predicate GraphIn(g: seq<GraphNode>) {
    |g| < 0x1_0000_0000 && forall n :: n in g ==> NODE_FITS(n)
  }

  // ---------------------------------------------------------------- reading back

  lemma StringsInvert()
    ensures Inverts(STRING_READER, STRING_WRITER, STRING_FITS) && Grows(STRING_WRITER, STRING_FITS)
  {
    forall b, x, r {:trigger STRING_READER(STRING_WRITER(b, x) + r, |b|)} | STRING_FITS(x)
      ensures |b| <= |STRING_WRITER(b, x)|
      ensures STRING_READER(STRING_WRITER(b, x) + r, |b|) == Got(x, |STRING_WRITER(b, x)|)
    {
      StringInverts(b, x, r);
    }
  }

  lemma EntityInverts(b: seq<Byte>, e: GraphEntity, r: seq<Byte>)
    requires EntityIn(e)
    ensures b <= PutEntity(b, e) && ReadEntity(PutEntity(b, e) + r, |b|) == Got(e, |PutEntity(b, e)|)
  {
    hide PutList, ReadList, PutString, ReadString, PutU8, ReadU8;
    var b1 := PutU8(b, e.kind);
    var b2 := PutString(b1, e.name);
    var d := PutEntity(b, e) + r;
    StringsInvert();
    ListInverts(STRING_READER, STRING_WRITER, STRING_FITS, b2, e.types, r);
    StringInverts(b1, e.name, []);
    assert d == b2 + d[|b2|..] && d == b1 + d[|b1|..];
    StringInverts(b1, e.name, d[|b2|..]);
    U8Inverts(b, e.kind, d[|b1|..]);
  }

  lemma EntitiesInvert()
    ensures Inverts(ENTITY_READER, ENTITY_WRITER, ENTITY_FITS) && Grows(ENTITY_WRITER, ENTITY_FITS)
  {
    hide ReadEntity, PutEntity;
    forall b, x, r {:trigger ENTITY_READER(ENTITY_WRITER(b, x) + r, |b|)} | ENTITY_FITS(x)
      ensures |b| <= |ENTITY_WRITER(b, x)|
      ensures ENTITY_READER(ENTITY_WRITER(b, x) + r, |b|) == Got(x, |ENTITY_WRITER(b, x)|)
    {
      EntityInverts(b, x, r);
    }
    forall b, x {:trigger ENTITY_WRITER(b, x)} | ENTITY_FITS(x)
      ensures b <= ENTITY_WRITER(b, x)
    {
      EntityInverts(b, x, []);
    }
  }

  lemma NodeInverts(b: seq<Byte>, n: GraphNode, r: seq<Byte>)
    requires NodeIn(n)
    ensures b <= PutNode(b, n) && ReadNode(PutNode(b, n) + r, |b|) == Got(n, |PutNode(b, n)|)
  {
    hide PutList, ReadList, PutString, ReadString;
    var b1 := PutString(b, n.namespace);
    var b2 := PutString(b1, n.name);
    var d := PutNode(b, n) + r;
    EntitiesInvert();
    ListInverts(ENTITY_READER, ENTITY_WRITER, ENTITY_FITS, b2, n.entities, r);
    StringInverts(b1, n.name, []);
    assert d == b2 + d[|b2|..] && d == b1 + d[|b1|..];
    StringInverts(b1, n.name, d[|b2|..]);
    StringInverts(b, n.namespace, d[|b1|..]);
  }

  lemma NodesInvert()
    ensures Inverts(NODE_READER, NODE_WRITER, NODE_FITS) && Grows(NODE_WRITER, NODE_FITS)
  {
    hide ReadNode, PutNode;
    forall b, x, r {:trigger NODE_READER(NODE_WRITER(b, x) + r, |b|)} | NODE_FITS(x)
      ensures |b| <= |NODE_WRITER(b, x)|
      ensures NODE_READER(NODE_WRITER(b, x) + r, |b|) == Got(x, |NODE_WRITER(b, x)|)
    {
      NodeInverts(b, x, r);
    }
    forall b, x {:trigger NODE_WRITER(b, x)} | NODE_FITS(x)
      ensures b <= NODE_WRITER(b, x)
    {
      NodeInverts(b, x, []);
    }
  }

  /** Which graphs the laws below are about. */
  lemma GraphInIff(g: seq<GraphNode>)
    ensures GraphIn(g) <==>
            && |g| < 0x1_0000_0000 && (forall n :: n in g ==> |n.entities| < 0x1_0000_0000)
            && (forall n :: n in g ==> |n.namespace| <= 255 && |n.name| <= 255 && 0 !in n.namespace && 0 !in n.name)
            && (forall n, e :: n in g && e in n.entities ==>
                  |e.types| < 0x1_0000_0000 && |e.name| <= 255 && 0 !in e.name)
            && (forall n, e, t :: n in g && e in n.entities && t in e.types ==> |t| <= 255 && 0 !in t)
  {
    forall n | n in g
      ensures NODE_FITS(n) <==>
              && |n.namespace| <= 255 && |n.name| <= 255 && 0 !in n.namespace && 0 !in n.name
              && |n.entities| < 0x1_0000_0000
              && forall e :: e in n.entities ==> ENTITY_FITS(e)
    {
    }
    forall n, e | n in g && e in n.entities
      ensures ENTITY_FITS(e) <==>
              && |e.types| < 0x1_0000_0000 && |e.name| <= 255 && 0 !in e.name
              && forall t :: t in e.types ==> |t| <= 255 && 0 !in t
    {
      assert forall t :: t in e.types ==> (STRING_FITS(t) <==> |t| <= 255 && 0 !in t);
    }
  }

  /** Decoding gives back every graph that was encoded, with strings of at most 255 bytes and without NUL. */
  lemma GraphInverts(g: seq<GraphNode>)
    requires |g| < 0x1_0000_0000 && forall n :: n in g ==> |n.entities| < 0x1_0000_0000
    requires forall n :: n in g ==> |n.namespace| <= 255 && |n.name| <= 255 && 0 !in n.namespace && 0 !in n.name
    requires forall n, e :: n in g && e in n.entities ==>
               |e.types| < 0x1_0000_0000 && |e.name| <= 255 && 0 !in e.name
    requires forall n, e, t :: n in g && e in n.entities && t in e.types ==> |t| <= 255 && 0 !in t
    ensures ReadGraph(PutGraph(g)) == Got(g, |PutGraph(g)|)
  {
    GraphInIff(g);
    EncodedInverts(g);
  }

  lemma EncodedInverts(g: seq<GraphNode>)
    requires GraphIn(g)
    ensures ReadGraph(PutGraph(g)) == Got(g, |PutGraph(g)|)
  {
    hide ReadNode, PutNode;
    NodesInvert();
    ListInverts(NODE_READER, NODE_WRITER, NODE_FITS, [], g, []);
    assert PutGraph(g) + [] == PutGraph(g);
  }

  // ---------------------------------------------------------------- cut messages

  lemma EntityLocal(d: seq<Byte>, p: nat, r: seq<Byte>)
    requires ReadEntity(d, p).Got?
    ensures p <= ReadEntity(d, p).pos <= |d| && ReadEntity(d + r, p) == ReadEntity(d, p)
  {
    StringsLocal();
    var q := ReadU8(d, p).pos;
    StringLocal(d, q, r);
    ListLocal(STRING_READER, d, ReadString(d, q).pos, r);
  }

  lemma EntitiesLocal()
    ensures Local(ENTITY_READER)
  {
    hide ReadEntity;
    forall d, p: nat, r {:trigger ENTITY_READER(d + r, p)}
      ensures ENTITY_READER(d, p).Got? ==>
                p <= ENTITY_READER(d, p).pos <= |d| && ENTITY_READER(d + r, p) == ENTITY_READER(d, p)
    {
      if ENTITY_READER(d, p).Got? {
        EntityLocal(d, p, r);
      }
    }
  }

  lemma NodeLocal(d: seq<Byte>, p: nat, r: seq<Byte>)
    requires ReadNode(d, p).Got?
    ensures p <= ReadNode(d, p).pos <= |d| && ReadNode(d + r, p) == ReadNode(d, p)
  {
    EntitiesLocal();
    StringLocal(d, p, r);
    var q := ReadString(d, p).pos;
    StringLocal(d, q, r);
    ListLocal(ENTITY_READER, d, ReadString(d, q).pos, r);
  }

  lemma NodesLocal()
    ensures Local(NODE_READER)
  {
    hide ReadNode;
    forall d, p: nat, r {:trigger NODE_READER(d + r, p)}
      ensures NODE_READER(d, p).Got? ==> p <= NODE_READER(d, p).pos <= |d| && NODE_READER(d + r, p) == NODE_READER(d, p)
    {
      if NODE_READER(d, p).Got? {
        NodeLocal(d, p, r);
      }
    }
  }

  /** A message that lacks even its last byte is not taken for a graph. */
  lemma CutGraphFails(g: seq<GraphNode>, n: nat)
    requires GraphIn(g) && n < |PutGraph(g)|
    ensures ReadGraph(PutGraph(g)[..n]).Failed?
  {
    var d := PutGraph(g);
    if ReadGraph(d[..n]).Got? {
      NodesLocal();
      ListLocal(NODE_READER, d[..n], 0, d[n..]);
      assert d[..n] + d[n..] == d;
      EncodedInverts(g);
      assert false;
    }
  }

  /** Bytes behind the graph are ignored. */
  lemma TrailingBytesIgnored(d: seq<Byte>, r: seq<Byte>)
    requires ReadGraph(d).Got?
    ensures ReadGraph(d + r) == ReadGraph(d)
  {
    hide ReadNode;
    NodesLocal();
    ListLocal(NODE_READER, d, 0, r);
  }
}
