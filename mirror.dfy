/**
 The mirroring bridge of opcua_server/server.py: a subscription handler that
 forwards data changes into a mirrored object's fields, the mirrored object
 that indexes its node's children, subscribes to them and writes its fields
 back, and the device object that adds a local-only field.

 The mirrored object's dynamic attributes are the map `fields`; the device
 object holds its mirrored object instead of inheriting from it.
 */
module Mirror {
  import opened OpcUa
  import opened NodeTable
  import opened WriteBack
  import opened Notification

  /** The publishing interval, in milliseconds, of every mirror subscription. */
  const SubscriptionInterval: nat := 500

  /** Builds the name-to-node table from `children`, one child at a time. */
  method IndexChildren(space: AddressSpace, children: seq<NodeId>) returns (d: NodeDict)
    requires InSpace(space, children)
    ensures d == Index(space, children)
  {
    d := NodeDict([], map[]);
    for i := 0 to |children|
      invariant d == Index(space, children[..i])
    {
      IndexValid(space, children[..i]);
      var childName := space[children[i]].browseName;
      d := d.Set(childName.name, children[i]);
      assert children[..i + 1][..i] == children[..i];
    }
    assert children[..|children|] == children;
  }

  /** Forwards the data changes of one subscription to the object it was made for. */
  class SubHandler {
    const obj: UaObject

    constructor (obj: UaObject)
      ensures this.obj == obj
    {
      this.obj := obj;
    }

    /** Sets the field named by `node`'s browse-name string to the value in
        `data`; `val` is ignored. */
    method DataChangeNotification(node: NodeId, val: Value, data: DataChangeNotif)
      requires node in obj.server.space
      modifies obj`fields
      ensures obj.fields == Notified(old(obj.fields), NameOf(obj.server.space, node), Payload(data))
    {
      var nodeName := obj.server.space[node].browseName;
      obj.fields := obj.fields[nodeName.name := data.monitoredItem.value.value.value];
    }
  }

  /** A local object mirroring one node of a server's address space. */
  class UaObject {
    const server: Server<SubHandler>
    /** The browse-name string of the mirrored node. */
    const bName: string
    /** The mirrored node's children by browse-name string, taken once at construction. */
    const nodes: NodeDict
    /** The object's dynamic attributes, by name. */
    var fields: map<string, Value>

    ghost predicate Valid()
      reads this, server
    {
      server.Valid() && Table(server.space, nodes) && Covers(server.space, nodes.keys, nodes.entries)
    }

    /** Binds to node `node`: indexes its children, then subscribes its
        properties followed by its variables to one new handler for this object. */
    constructor (server: Server<SubHandler>, node: NodeId)
      requires server.Valid() && node in server.space
      modifies server`subscriptions
      ensures Valid()
      ensures this.server == server
      ensures bName == NameOf(server.space, node)
      ensures nodes == Index(server.space, server.space[node].children)
      ensures fields == map[]
      ensures |server.subscriptions| == |old(server.subscriptions)| + 1
      ensures server.subscriptions[..|old(server.subscriptions)|] == old(server.subscriptions)
      ensures server.subscriptions[|old(server.subscriptions)|].publishingInterval == SubscriptionInterval
      ensures server.subscriptions[|old(server.subscriptions)|].monitored
           == server.space[node].properties + server.space[node].variables
      ensures server.subscriptions[|old(server.subscriptions)|].handler.obj == this
      ensures fresh(server.subscriptions[|old(server.subscriptions)|].handler)
      ensures forall c :: c in server.subscriptions[|old(server.subscriptions)|].monitored ==>
        c in server.space && NameOf(server.space, c) in nodes.entries
    {
      this.server := server;
      var info := server.space[node];
      bName := info.browseName.name;
      assert InSpace(server.space, info.children) by {
        forall i | 0 <= i < |info.children| ensures info.children[i] in server.space {
          assert info.children[i] in server.space[node].children;
        }
      }
      var table := IndexChildren(server.space, info.children);
      IndexValid(server.space, info.children);
      SubscribedChildrenIndexed(server.space, node);
      nodes := table;
      fields := map[];
      new;
      var subChildren := info.properties;
      subChildren := subChildren + info.variables;
      var handler := new SubHandler(this);
      var sub := server.CreateSubscription(SubscriptionInterval, handler);
      server.SubscribeDataChange(sub, subChildren);
    }

    /** `write()` pushes every Variable-class child in table order and stops at
        the first missing field; `write(attr)` pushes the one named child. */
    method Write(attr: Option<string>) returns (outcome: Outcome)
      requires Valid()
      modifies server`values
      ensures Valid()
      ensures attr.None? ==>
        (outcome, server.values) == WriteAll(server.space, nodes.keys, nodes.entries, fields, old(server.values))
      ensures attr.Some? ==>
        (outcome, server.values) == WriteNamed(nodes, fields, old(server.values), attr.value)
    {
      if attr.None? {
        var i := 0;
        while i < |nodes.keys|
          invariant 0 <= i <= |nodes.keys|
          invariant server.values.Keys == server.space.Keys && Closed(server.space)
          invariant Covers(server.space, nodes.keys[i..], nodes.entries)
          invariant WriteAll(server.space, nodes.keys, nodes.entries, fields, old(server.values))
                 == WriteAll(server.space, nodes.keys[i..], nodes.entries, fields, server.values)
        {
          var k := nodes.keys[i];
          var node := nodes.entries[k];
          assert nodes.keys[i..][0] == k && nodes.keys[i..][1..] == nodes.keys[i + 1..];
          var nodeClass := server.space[node].nodeClass;
          if nodeClass == Variable {
            if k !in fields {
              return AttributeError(k);
            }
            server.SetValue(node, fields[k]);
          }
          i := i + 1;
        }
        outcome := Ok;
      } else {
        var a := attr.value;
        if a !in nodes.entries {
          return KeyError(a);
        }
        if a !in fields {
          return AttributeError(a);
        }
        server.SetValue(nodes.entries[a], fields[a]);
        outcome := Ok;
      }
    }
  }

  /** The device object: a mirrored object with the local-only field `testval`. */
  class MyObj {
    const base: UaObject

    constructor (server: Server<SubHandler>, node: NodeId)
      requires server.Valid() && node in server.space
      modifies server`subscriptions
      ensures fresh(base) && base.Valid()
      ensures base.server == server
      ensures base.bName == NameOf(server.space, node)
      ensures base.nodes == Index(server.space, server.space[node].children)
      ensures base.fields == map["testval" := Text("python only")]
      ensures |server.subscriptions| == |old(server.subscriptions)| + 1
      ensures server.subscriptions[..|old(server.subscriptions)|] == old(server.subscriptions)
      ensures server.subscriptions[|old(server.subscriptions)|].publishingInterval == SubscriptionInterval
      ensures server.subscriptions[|old(server.subscriptions)|].monitored
           == server.space[node].properties + server.space[node].variables
      ensures server.subscriptions[|old(server.subscriptions)|].handler.obj == base
      ensures fresh(server.subscriptions[|old(server.subscriptions)|].handler)
    {
      var mirrored := new UaObject(server, node);
      mirrored.fields := mirrored.fields["testval" := Text("python only")];
      base := mirrored;
    }
  }

  /** A named write followed by the server's echo of it: the echoed
      notification leaves the object's fields as they were. */
  method WriteThenEcho(o: UaObject, handler: SubHandler, attr: string, clientHandle: nat, timestamp: nat)
    returns (outcome: Outcome)
    requires o.Valid() && handler.obj == o
    requires attr in o.nodes.entries && attr in o.fields
    modifies o.server`values, o`fields
    ensures outcome == Ok
    ensures o.fields == old(o.fields)
    ensures o.server.values == old(o.server.values)[o.nodes.entries[attr] := o.fields[attr]]
  {
    outcome := o.Write(Some(attr));
    var node := o.nodes.entries[attr];
    var echoed := o.server.values[node];
    var data := DataChangeNotif(MonitoredItemNotification(clientHandle, DataValue(Variant(echoed), timestamp)));
    EchoedWriteIsIdempotent(o.server.space, o.nodes, o.fields, old(o.server.values), attr, data);
    handler.DataChangeNotification(node, echoed, data);
  }
}
