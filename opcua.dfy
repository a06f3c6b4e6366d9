/**
 An abstract model of the parts of the OPC UA server library that the mirroring
 bridge consumes: node identities, browse names, node classes, node values, the
 address space a server holds, and the data-change subscriptions it records.
 Everything the bridge does not observe (sessions, encoding, sampling) is absent.
 */
module OpcUa {

  /** A node's identity within one server session. */
  type NodeId = nat

  /** A browse name: a namespace index and a string. */
  datatype QualifiedName = QualifiedName(namespaceIndex: nat, name: string)

  /** The node classes of the OPC UA address space model. There is no Property
      class: a property is a Variable-class node reached through a HasProperty
      reference. */
  datatype NodeClass =
    | Unspecified | Object | Variable | Method
    | ObjectType | VariableType | ReferenceType | DataType | View

  /** A value held by a node or by a mirrored field. The bridge only copies values
      around and never inspects them, so the model keeps just enough variants to
      tell values apart. */
  datatype Value =
    | Null
    | Boolean(b: bool)
    | Integer(i: int)
    | Text(s: string)
    | List(items: seq<Value>)

  /** A Variant wraps a value as it travels in a notification. */
  datatype Variant = Variant(value: Value)

  /** A value paired with the timestamp its source gave it (plain ticks). */
  datatype DataValue = DataValue(value: Variant, sourceTimestamp: nat)

  /** One monitored item's report inside a data-change notification. */
  datatype MonitoredItemNotification = MonitoredItemNotification(clientHandle: nat, value: DataValue)

  /** The metadata handed to a subscription handler with every data change. */
  datatype DataChangeNotif = DataChangeNotif(monitoredItem: MonitoredItemNotification)

  /** The static attributes of one node: its browse name, its class, and the
      three ways of enumerating its direct children. */
  datatype NodeInfo = NodeInfo(
    browseName: QualifiedName,
    nodeClass: NodeClass,
    children: seq<NodeId>,
    properties: seq<NodeId>,
    variables: seq<NodeId>)

  /** The address space: every node the server knows, by identity. */
  type AddressSpace = map<NodeId, NodeInfo>

  /** Every node that the address space enumerates as a child, property or
      variable of another node is itself in the address space, and the
      properties and variables of a node are Variable-class children of it. */
  ghost predicate Closed(space: AddressSpace)
  {
    && (forall id, c :: id in space && (c in space[id].children || c in space[id].properties || c in space[id].variables)
         ==> c in space)
    && (forall id, i :: id in space && 0 <= i < |space[id].properties| ==>
         space[id].properties[i] in space[id].children && space[space[id].properties[i]].nodeClass == Variable)
    && (forall id, i :: id in space && 0 <= i < |space[id].variables| ==>
         space[id].variables[i] in space[id].children && space[space[id].variables[i]].nodeClass == Variable)
  }

  /** A data-change subscription: its publishing interval in milliseconds, the
      handler it notifies, and the nodes it monitors in subscription order. */
  datatype Subscription<H> = Subscription(publishingInterval: nat, handler: H, monitored: seq<NodeId>)

  /** A running server: a fixed address space, the current value of each node,
      and the subscriptions created so far. */
  class Server<H> {
    const space: AddressSpace
    var values: map<NodeId, Value>
    var subscriptions: seq<Subscription<H>>

    ghost predicate Valid()
      reads this
    {
      Closed(space) && values.Keys == space.Keys
    }

    constructor (space: AddressSpace, initial: map<NodeId, Value>)
      requires Closed(space) && initial.Keys == space.Keys
      ensures Valid()
      ensures this.space == space && values == initial && subscriptions == []
    {
      this.space := space;
      values := initial;
      subscriptions := [];
    }

    /** Writes the Value attribute of node `id`. */
    method SetValue(id: NodeId, v: Value)
      requires Valid() && id in space
      modifies this`values
      ensures Valid()
      ensures values == old(values)[id := v]
    {
      values := values[id := v];
    }

    /** Creates an empty subscription that will notify `handler`, and returns
        its position among the server's subscriptions. */
    method CreateSubscription(publishingInterval: nat, handler: H) returns (sub: nat)
      modifies this`subscriptions
      ensures sub == |old(subscriptions)|
      ensures subscriptions == old(subscriptions) + [Subscription(publishingInterval, handler, [])]
    {
      sub := |subscriptions|;
      subscriptions := subscriptions + [Subscription(publishingInterval, handler, [])];
    }

    /** Adds one monitored item per node of `nodes` to subscription `sub`. */
    method SubscribeDataChange(sub: nat, nodes: seq<NodeId>)
      requires sub < |subscriptions|
      modifies this`subscriptions
      ensures |subscriptions| == |old(subscriptions)|
      ensures subscriptions == old(subscriptions)[sub := old(subscriptions)[sub].(monitored := old(subscriptions)[sub].monitored + nodes)]
    {
      subscriptions := subscriptions[sub := subscriptions[sub].(monitored := subscriptions[sub].monitored + nodes)];
    }
  }
}
