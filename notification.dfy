/**
 What a data-change notification does to a mirrored object's fields. The
 handler resolves the node to its browse-name string and assigns the value
 carried in the notification's metadata to the field of that name, creating the
 field when it does not exist yet. The value passed beside the metadata is not
 used.
 */
module Notification {
  import opened OpcUa
  import opened NodeTable
  import opened WriteBack

  /** The value a notification's metadata carries: the monitored item's data
      value, its variant, and the value inside it. */
  function Payload(data: DataChangeNotif): Value
  {
    data.monitoredItem.value.value.value
  }

  /** The fields after one notification set field `name` to `v`. */
  function Notified(fields: Fields, name: string, v: Value): (r: Fields)
    ensures r.Keys == fields.Keys + {name}
    ensures r[name] == v
    ensures forall f :: f in fields && f != name ==> r[f] == fields[f]
  {
    fields[name := v]
  }

  /** One delivered notification: the arguments of one handler call. */
  datatype Delivery = Delivery(node: NodeId, value: Value, data: DataChangeNotif)

  ghost predicate Delivered(space: AddressSpace, ds: seq<Delivery>)
  {
    forall i :: 0 <= i < |ds| ==> ds[i].node in space
  }

  /** The fields after the notifications `ds` have been handled, in order. */
  function Replay(space: AddressSpace, fields: Fields, ds: seq<Delivery>): Fields
    requires Delivered(space, ds)
    decreases |ds|
  {
    if ds == [] then fields
    else
      var last := ds[|ds| - 1];
      Notified(Replay(space, fields, ds[..|ds| - 1]), NameOf(space, last.node), Payload(last.data))
  }

  /** Last write wins: a field ends up with the value of the last notification
      addressed to a node of its name, whatever came between for other fields. */
  lemma {:induction false} LastNotificationWins(space: AddressSpace, fields: Fields, ds: seq<Delivery>, i: nat)
    requires Delivered(space, ds) && i < |ds|
    requires forall j :: i < j < |ds| ==> NameOf(space, ds[j].node) != NameOf(space, ds[i].node)
    ensures NameOf(space, ds[i].node) in Replay(space, fields, ds)
    ensures Replay(space, fields, ds)[NameOf(space, ds[i].node)] == Payload(ds[i].data)
    decreases |ds|
  {
    var n := |ds|;
    if i < n - 1 {
      var prefix := ds[..n - 1];
      assert prefix[i] == ds[i];
      forall j | i < j < n - 1 ensures NameOf(space, prefix[j].node) != NameOf(space, prefix[i].node) {
        assert prefix[j] == ds[j];
      }
      LastNotificationWins(space, fields, prefix, i);
    }
  }

  /** A field that no notification addresses keeps its presence and its value. */
  lemma {:induction false} UnaddressedFieldKept(space: AddressSpace, fields: Fields, ds: seq<Delivery>, f: string)
    requires Delivered(space, ds)
    requires forall j :: 0 <= j < |ds| ==> NameOf(space, ds[j].node) != f
    ensures f in Replay(space, fields, ds) <==> f in fields
    ensures f in fields ==> Replay(space, fields, ds)[f] == fields[f]
    decreases |ds|
  {
    if ds != [] {
      var prefix := ds[..|ds| - 1];
      forall j | 0 <= j < |prefix| ensures NameOf(space, prefix[j].node) != f {
        assert prefix[j] == ds[j];
      }
      UnaddressedFieldKept(space, fields, prefix, f);
    }
  }

  /** A write of a field followed by the server's echo of it leaves the field as
      it was: the echoed notification carries the value just written, and the
      node's browse-name string is the field's name. */
  lemma EchoedWriteIsIdempotent(space: AddressSpace, d: NodeDict, fields: Fields, values: map<NodeId, Value>,
                                attr: string, data: DataChangeNotif)
    requires Table(space, d)
    requires WriteNamed(d, fields, values, attr).0 == Ok
    requires Payload(data) == WriteNamed(d, fields, values, attr).1[d.entries[attr]]
    ensures d.entries[attr] in space
    ensures Notified(fields, NameOf(space, d.entries[attr]), Payload(data)) == fields
  {
  }
}
