/** Queries about the endpoints of a topic, answered from the graph message received last. */
module Queries {
  import opened Integers
  import opened Cdr
  import opened Graph
  import GraphDecoder
  import opened Taking
  import opened Entities

  /** What is reported about an endpoint; the remaining fields are left blank. */
  datatype EndpointInfo = EndpointInfo(nodeName: CString, nodeNamespace: CString, topicType: CString)

  /** An entity by the place of its node and its place in the node. */
  datatype Place = Place(node: nat, entity: nat)

  predicate Matches(e: GraphEntity, kind: Byte, topic: CString) {
    topic == e.name && kind == e.kind
  }

  predicate Before(a: Place, b: Place) {
    a.node < b.node || (a.node == b.node && a.entity < b.entity)
  }

  /** The place belongs to an entity of the graph that matches. */
  predicate IsMatch(g: seq<GraphNode>, kind: Byte, topic: CString, a: Place) {
    a.node < |g| && a.entity < |g[a.node].entities| && Matches(g[a.node].entities[a.entity], kind, topic)
  }

  /** The places of the matching entities among the first `j` of node `i` and in the nodes before it. */
  function Found(g: seq<GraphNode>, kind: Byte, topic: CString, i: nat, j: nat): seq<Place>
    requires i <= |g| && (if i < |g| then j <= |g[i].entities| else j == 0)
    decreases i, j
  {
    if j > 0 then
      if Matches(g[i].entities[j - 1], kind, topic) then Found(g, kind, topic, i, j - 1) + [Place(i, j - 1)]
      else Found(g, kind, topic, i, j - 1)
    else if i > 0 then Found(g, kind, topic, i - 1, |g[i - 1].entities|)
    else []
  }

  function AllFound(g: seq<GraphNode>, kind: Byte, topic: CString): seq<Place> {
    Found(g, kind, topic, |g|, 0)
  }

  /** A list of places in node and entity order, without repetition. */
  ghost predicate Ordered(s: seq<Place>) {
    forall k, l :: 0 <= k < l < |s| ==> Before(s[k], s[l])
  }

  lemma {:induction false} FoundIff(g: seq<GraphNode>, kind: Byte, topic: CString, i: nat, j: nat)
    requires i <= |g| && (if i < |g| then j <= |g[i].entities| else j == 0)
    ensures Ordered(Found(g, kind, topic, i, j))
    ensures forall a :: a in Found(g, kind, topic, i, j) <==> IsMatch(g, kind, topic, a) && Before(a, Place(i, j))
    decreases i, j
  {
    if j > 0 {
      FoundIff(g, kind, topic, i, j - 1);
      assert forall a :: Before(a, Place(i, j)) <==> Before(a, Place(i, j - 1)) || a == Place(i, j - 1);
    } else if i > 0 {
      FoundIff(g, kind, topic, i - 1, |g[i - 1].entities|);
    }
  }

  /** The places found are exactly those of the matching entities, each once, in node and entity order. */
  lemma AllFoundIff(g: seq<GraphNode>, kind: Byte, topic: CString)
    ensures forall a :: a in AllFound(g, kind, topic) <==>
              && a.node < |g| && a.entity < |g[a.node].entities|
              && g[a.node].entities[a.entity].kind == kind && g[a.node].entities[a.entity].name == topic
    ensures forall k, l :: 0 <= k < l < |AllFound(g, kind, topic)| ==>
              var a, b := AllFound(g, kind, topic)[k], AllFound(g, kind, topic)[l];
              a.node < b.node || (a.node == b.node && a.entity < b.entity)
  {
    FoundIff(g, kind, topic, |g|, 0);
  }

  /** Every entity that matches states a type. */
  predicate Typed(g: seq<GraphNode>, kind: Byte, topic: CString) {
    forall i, j :: 0 <= i < |g| && 0 <= j < |g[i].entities| && Matches(g[i].entities[j], kind, topic) ==>
      g[i].entities[j].types != []
  }

  /** There is an entity at the place, and it states a type. */
  predicate IsTyped(g: seq<GraphNode>, a: Place) {
    a.node < |g| && a.entity < |g[a.node].entities| && g[a.node].entities[a.entity].types != []
  }

  /** The information about the entity at a place. */
  function InfoAt(g: seq<GraphNode>, a: Place): EndpointInfo
    requires IsTyped(g, a)
  {
    EndpointInfo(g[a.node].name, g[a.node].namespace, g[a.node].entities[a.entity].types[0])
  }

  ghost predicate InfosOf(g: seq<GraphNode>, infos: seq<EndpointInfo>, places: seq<Place>) {
    |infos| == |places| && forall k :: 0 <= k < |infos| ==> IsTyped(g, places[k]) && infos[k] == InfoAt(g, places[k])
  }

  /** The entries are those of the matches, in order: node name, namespace and first type. */
  ghost predicate Lists(g: seq<GraphNode>, kind: Byte, topic: CString, infos: seq<EndpointInfo>) {
    && |infos| == |AllFound(g, kind, topic)|
    && forall k {:trigger infos[k]} :: 0 <= k < |infos| ==>
         var a := AllFound(g, kind, topic)[k];
         && a.node < |g| && a.entity < |g[a.node].entities| && g[a.node].entities[a.entity].types != []
         && infos[k].nodeName == g[a.node].name && infos[k].nodeNamespace == g[a.node].namespace
         && infos[k].topicType == g[a.node].entities[a.entity].types[0]
  }

  lemma InfosAreListed(g: seq<GraphNode>, kind: Byte, topic: CString, infos: seq<EndpointInfo>)
    ensures InfosOf(g, infos, AllFound(g, kind, topic)) ==> Lists(g, kind, topic, infos)
  {
    hide Found;
  }

  lemma FoundFirst(g: seq<GraphNode>, kind: Byte, topic: CString)
    ensures Found(g, kind, topic, 0, 0) == []
  {
  }

  lemma FoundStep(g: seq<GraphNode>, kind: Byte, topic: CString, i: nat, j: nat)
    requires i < |g| && j < |g[i].entities|
    ensures Found(g, kind, topic, i, j + 1)
         == if Matches(g[i].entities[j], kind, topic) then Found(g, kind, topic, i, j) + [Place(i, j)]
            else Found(g, kind, topic, i, j)
  {
  }

  lemma FoundNext(g: seq<GraphNode>, kind: Byte, topic: CString, i: nat)
    requires i < |g|
    ensures Found(g, kind, topic, i + 1, 0) == Found(g, kind, topic, i, |g[i].entities|)
  {
  }

  lemma MatchIsTyped(g: seq<GraphNode>, kind: Byte, topic: CString, i: nat, j: nat)
    requires Typed(g, kind, topic) && i < |g| && j < |g[i].entities| && Matches(g[i].entities[j], kind, topic)
    ensures g[i].entities[j].types != [] && IsTyped(g, Place(i, j))
  {
  }

  lemma InfosGrow(g: seq<GraphNode>, infos: seq<EndpointInfo>, places: seq<Place>, a: Place)
    requires IsTyped(g, a) && InfosOf(g, infos, places)
    ensures InfosOf(g, infos + [InfoAt(g, a)], places + [a])
  {
  }

  lemma NoInfos(g: seq<GraphNode>, kind: Byte, topic: CString)
    ensures InfosOf(g, [], Found(g, kind, topic, 0, 0))
  {
  }

  function Octets(b: seq<bv8>): (s: seq<Byte>)
    ensures |s| == |b| && forall i :: 0 <= i < |b| ==> s[i] == b[i] as int
  {
    seq(|b|, i requires 0 <= i < |b| => b[i] as int)
  }

  /** The graph in the message received last, none before the first one. */
  function GraphOf(info: GraphInfo): Read<seq<GraphNode>>
    reads info
  {
    if info.initialized then ReadGraph(Octets(info.microBuffer)) else Got([], 0)
  }

  /** How many entities match; none before the first message, and an error if the message cannot be read. */
  method CountEntities(info: GraphInfo, kind: Byte, topic: CString) returns (ret: Ret, count: nat)
    ensures !info.initialized ==> ret == Ok && count == 0
    ensures info.initialized ==>
              && ret == (if ReadGraph(Octets(info.microBuffer)).Got? then Ok else Error)
              && (ret == Ok ==> count == |AllFound(ReadGraph(Octets(info.microBuffer)).value, kind, topic)|)
    ensures ret == if GraphOf(info).Got? then Ok else Error
    ensures ret == Ok ==> count == |AllFound(GraphOf(info).value, kind, topic)|
    ensures ret == Error ==> count == 0
  {
    hide ReadGraph, Found;
    FoundFirst([], kind, topic);
    count := 0;
    ret := Ok;
    if !info.initialized {
      return;
    }
    var g;
    ret, g := GraphDecoder.FillData(Octets(info.microBuffer));
    if ret != Ok {
      return;
    }
    FoundFirst(g, kind, topic);
    for i := 0 to |g|
      invariant count == |Found(g, kind, topic, i, 0)|
    {
      FoundNext(g, kind, topic, i);
      for j := 0 to |g[i].entities|
        invariant count == |Found(g, kind, topic, i, j)|
      {
        FoundStep(g, kind, topic, i, j);
        if topic == g[i].entities[j].name && kind == g[i].entities[j].kind {
          count := count + 1;
        }
      }
    }
  }

  /** What is known of each entity that matches; nothing before the first message. */
  method GetEndpointInfo(info: GraphInfo, kind: Byte, topic: CString)
      returns (ret: Ret, infos: seq<EndpointInfo>)
    requires GraphOf(info).Got? ==> Typed(GraphOf(info).value, kind, topic)
    ensures !info.initialized ==> ret == Ok && infos == []
    ensures info.initialized ==>
              && ret == (if ReadGraph(Octets(info.microBuffer)).Got? then Ok else Error)
              && (ret == Ok ==> Lists(ReadGraph(Octets(info.microBuffer)).value, kind, topic, infos))
    ensures ret == if GraphOf(info).Got? then Ok else Error
    ensures ret == Ok ==>
              var g := GraphOf(info).value;
              InfosOf(g, infos, AllFound(g, kind, topic))
    ensures ret == Error ==> infos == []
  {
    hide ReadGraph, Found, InfosOf, Typed, Lists;
    infos := [];
    ret := Ok;
    if !info.initialized {
      NoInfos([], kind, topic);
      return;
    }
    var g;
    ret, g := GraphDecoder.FillData(Octets(info.microBuffer));
    if ret != Ok {
      return;
    }
    NoInfos(g, kind, topic);
    for i := 0 to |g|
      invariant InfosOf(g, infos, Found(g, kind, topic, i, 0))
    {
      FoundNext(g, kind, topic, i);
      for j := 0 to |g[i].entities|
        invariant InfosOf(g, infos, Found(g, kind, topic, i, j))
      {
        FoundStep(g, kind, topic, i, j);
        if topic == g[i].entities[j].name && kind == g[i].entities[j].kind {
          MatchIsTyped(g, kind, topic, i, j);
          InfosGrow(g, infos, Found(g, kind, topic, i, j), Place(i, j));
          infos := infos + [EndpointInfo(g[i].name, g[i].namespace, g[i].entities[j].types[0])];
        }
      }
    }
    InfosAreListed(g, kind, topic, infos);
  }

  /** Both queries agree: as many entries as counted, one for each match, in order. */
  method CountAndList(info: GraphInfo, kind: Byte, topic: CString) returns (count: nat, infos: seq<EndpointInfo>)
    requires GraphOf(info).Got? && Typed(GraphOf(info).value, kind, topic)
    ensures |infos| == count == |AllFound(GraphOf(info).value, kind, topic)|
    ensures forall k :: 0 <= k < count ==>
              var g, a := GraphOf(info).value, AllFound(GraphOf(info).value, kind, topic)[k];
              && a.node < |g| && a.entity < |g[a.node].entities|
              && g[a.node].entities[a.entity].kind == kind && g[a.node].entities[a.entity].name == topic
              && g[a.node].entities[a.entity].types != []
              && infos[k] == EndpointInfo(g[a.node].name, g[a.node].namespace, g[a.node].entities[a.entity].types[0])
  {
    hide Found;
    AllFoundIff(GraphOf(info).value, kind, topic);
    var ret, again;
    ret, count := CountEntities(info, kind, topic);
    again, infos := GetEndpointInfo(info, kind, topic);
    assert forall k :: 0 <= k < count ==>
             AllFound(GraphOf(info).value, kind, topic)[k] in AllFound(GraphOf(info).value, kind, topic);
  }
}
