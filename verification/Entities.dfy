/** The elements of the static arrays: what an entity's slot holds. */
module Entities {
  import opened Integers
  import opened History
  import opened Mempool

  datatype ObjectKind = NoObject | DatareaderObject | OtherObject

  /** Identifier of a remote object: a 16-bit number and a kind. */
  datatype ObjectId = ObjectId(id: UInt16, kind: ObjectKind)

  class Session {
    const mem: Item
    var idDatareader: UInt16
    var needToBeRan: bool

    constructor ()
      ensures fresh(mem) && mem.Detached() && !mem.isDynamic && idDatareader == 0 && !needToBeRan
    {
      mem := new Item();
      idDatareader, needToBeRan := 0, false;
    }

    /** Names the next datareader; the counter is 16 bits wide and wraps around. */
    method NameDatareader() returns (id: ObjectId)
      modifies this`idDatareader
      ensures id == ObjectId(old(idDatareader), DatareaderObject)
      ensures idDatareader == (old(idDatareader) + 1) % 0x1_0000
    {
      id := ObjectId(idDatareader, DatareaderObject);
      idDatareader := (idDatareader + 1) % 0x1_0000;
    }
  }

  class Node {
    const mem: Item
    var context: Session?
    /** Whether the public handle carries the implementation identifier and a data pointer. */
    var live: bool

    constructor ()
      ensures fresh(mem) && mem.Detached() && !mem.isDynamic && context == null && !live
    {
      mem := new Item();
      context, live := null, false;
    }
  }

  class Topic {
    const mem: Item
    var ownerNode: Node?
    /** The publisher or subscription that the topic was created for. */
    ghost var holder: Entity?

    constructor ()
      ensures fresh(mem) && mem.Detached() && !mem.isDynamic && ownerNode == null
    {
      mem := new Item();
      ownerNode, holder := null, null;
    }
  }

  // The pools: nodes, the four kinds of entity, topics
  const NODES := 0
  const PUBLISHERS := 1
  const SUBSCRIPTIONS := 2
  const SERVICES := 3
  const CLIENTS := 4
  const TOPICS := 5

  type EntityKind = k: nat | 1 <= k <= 4 witness 1

  /** Publishers and subscriptions own a topic; services and clients have no use for the field. */
  predicate Topical(kind: EntityKind) {
    kind == PUBLISHERS || kind == SUBSCRIPTIONS
  }

  /** What the structures of publishers, subscriptions, services and clients have in common. */
  class Entity {
    const mem: Item
    const kind: EntityKind
    /** Place of the slot in the static array of its kind. */
    const index: nat
    var topic: Topic?
    var ownerNode: Node?
    /** Whether the public handle carries the implementation identifier and a data pointer. */
    var live: bool

    predicate Zeroed()
      reads this, mem
    {
      mem.Detached() && !mem.isDynamic && topic == null && ownerNode == null && !live
    }

    constructor (kind: EntityKind, index: nat)
      ensures this.kind == kind && this.index == index && fresh(mem) && Zeroed()
    {
      this.kind, this.index := kind, index;
      mem := new Item();
      topic, ownerNode, live := null, null, false;
    }
  }

  class Publisher {
    const entity: Entity

    constructor (index: nat)
      ensures fresh(entity) && fresh(entity.mem) && entity.Zeroed()
      ensures entity.kind == PUBLISHERS && entity.index == index
    {
      entity := new Entity(PUBLISHERS, index);
    }
  }

  class Subscription {
    const entity: Entity
    var qos: Qos
    var datareaderId: ObjectId

    constructor (index: nat)
      ensures fresh(entity) && fresh(entity.mem) && entity.Zeroed()
      ensures entity.kind == SUBSCRIPTIONS && entity.index == index
      ensures datareaderId == ObjectId(0, NoObject)
    {
      entity := new Entity(SUBSCRIPTIONS, index);
      qos, datareaderId := Qos(SystemDefault, 0, 0), ObjectId(0, NoObject);
    }
  }

  class Service {
    const entity: Entity
    var qos: Qos
    var dataRequest: UInt16

    constructor (index: nat)
      ensures fresh(entity) && fresh(entity.mem) && entity.Zeroed()
      ensures entity.kind == SERVICES && entity.index == index
    {
      entity := new Entity(SERVICES, index);
      qos, dataRequest := Qos(SystemDefault, 0, 0), 0;
    }
  }

  class Client {
    const entity: Entity
    var qos: Qos
    var dataRequest: UInt16

    constructor (index: nat)
      ensures fresh(entity) && fresh(entity.mem) && entity.Zeroed()
      ensures entity.kind == CLIENTS && entity.index == index
    {
      entity := new Entity(CLIENTS, index);
      qos, dataRequest := Qos(SystemDefault, 0, 0), 0;
    }
  }

  /** The common part of the structure that a pool item points back to. */
  function Base(data: object?): Entity? {
    if data is Publisher then (data as Publisher).entity
    else if data is Subscription then (data as Subscription).entity
    else if data is Service then (data as Service).entity
    else if data is Client then (data as Client).entity
    else null
  }

  function NodeOf(data: object?): Node? {
    if data is Node then data as Node else null
  }

  function TopicOf(data: object?): Topic? {
    if data is Topic then data as Topic else null
  }

  function SubscriptionOf(data: object?): Subscription? {
    if data is Subscription then data as Subscription else null
  }

  function ServiceOf(data: object?): Service? {
    if data is Service then data as Service else null
  }

  function ClientOf(data: object?): Client? {
    if data is Client then data as Client else null
  }

  /** The graph reader of a session and the last graph message it received. */
  class GraphInfo {
    var datareaderId: ObjectId
    var microBuffer: seq<bv8>
    var initialized: bool
    var hasChanged: bool

    constructor () {
      datareaderId, microBuffer, initialized, hasChanged := ObjectId(0, NoObject), [], false, false;
    }
  }
}
