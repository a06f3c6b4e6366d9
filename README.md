# Mirroring bridge of the OPC UA spectrometer simulation server

This project models the part of `opcua_server/server.py` that keeps a Python
object in step with one OPC UA Object node, and proves what each step does.

- A **mirrored object** (`UaObject`) is bound to one node. When it is built, it
  indexes the node's children in a table keyed by browse-name string. The
  namespace index is dropped, so a later child with the same name replaces an
  earlier one. The table keeps Python's dict insertion order. The object also
  records the node's own name. It then creates one subscription, with one
  handler bound to itself, over the node's properties followed by its
  variables.
- The **subscription handler** (`SubHandler`) turns each data change into one
  field assignment on its object. The field name is the node's browse-name
  string. The value comes from the notification metadata
  (`data.monitored_item.Value.Value.Value`), not from the `val` argument. A
  field that does not exist yet is created.
- `write()` walks the table in insertion order. It pushes the field of the
  same name to every Variable-class node. It stops with `AttributeError` at
  the first Variable-class key that has no field. The writes already made
  remain.
- `write(attr)` raises `KeyError` for a name that is not in the table. It raises
  `AttributeError` for a name that is in the table but has no field. Otherwise
  it pushes field `attr` to that node, whatever the node's class.
- The **device object** (`MyObj`) binds like a mirrored object and then adds
  the local-only field `testval = "python only"`.

The OPC UA library is replaced by the module `OpcUa`. That module holds node
identities, browse names, node classes, node values, and a `Server` class. A
`Server` has a fixed address space, a mutable map from node to value, and a
list of recorded subscriptions. Each subscription records its publishing
interval, its handler and the nodes it monitors. Notifications are modelled as
sequential calls to `SubHandler.DataChangeNotification`.

Files:

- `opcua.dfy`: the library abstraction.
- `node_table.dfy`: the insertion-ordered name-to-node dict and the table that
  construction builds.
- `write_back.dfy`: `write()` and `write(attr)` as functions of the table, the
  fields and the node values, with the lemmas about them.
- `notification.dfy`: the field update a notification makes, replay of a
  sequence of notifications, and echo idempotence.
- `mirror.dfy`: the classes `SubHandler`, `UaObject` and `MyObj`.

Behaviour of the code worth stating outright:

- `write(attr)` performs no node-class check (line 69).
- `write()` compares the node class with `Variable` (line 65). The OPC UA
  address space model has no Property node class: a property is a
  Variable-class node reached through a HasProperty reference. The model's
  address space requires every property and variable of a node to be a
  Variable-class child of it, so `write()` treats properties like any other
  Variable-class entry. Every node whose class is not Variable is left alone.
- Binding performs no check of the bound node's class: any node that exists
  can be bound.
- A notification for a name that has no field yet creates the field.

## Model

| member | source | states |
|---|---|---|
| `Mirror.IndexChildren` | opcua_server/server.py:43-49 | The loop that fills `self.nodes` yields exactly `Index` of the children: one insertion per child, in enumeration order, keyed by browse-name string. |
| `NodeTable.NodeDict.Set` | opcua_server/server.py:49 | A dict assignment keeps the dict well formed: keys unique, and iteration order covering exactly the keys. |
| `NodeTable.NodeDict.SetStores` | opcua_server/server.py:49 | What one assignment `d[k] = v` stores: `k` maps to `v`, every other entry stays, the key set gains only `k`, an existing key keeps its position and a new key goes to the end. |
| `NodeTable.IndexValid` | opcua_server/server.py:47-49 | The table is well formed, and every entry is one of the children, whose browse-name string is its key. |
| `NodeTable.SubscribedChildrenIndexed` | opcua_server/server.py:47-53 | Every property and variable of the bound node, the nodes it subscribes to, is a Variable-class child whose browse-name string is a key of the table. |
| `NodeTable.IndexKeys` | opcua_server/server.py:47-49 | The table's keys are exactly the browse-name strings of the children. |
| `NodeTable.IndexLastWins` | opcua_server/server.py:47-49 | When children share a name, the entry for that name is the last such child in enumeration order. |
| `NodeTable.IndexKeyOrder` | opcua_server/server.py:47-49 | The table's iteration order lists names by the position of the first child carrying each name. |
| `Mirror.UaObject.constructor` | opcua_server/server.py:41-58 | After binding, `nodes` is the table of the node's children and `b_name` is the node's browse-name string. No field exists yet and the server's values are untouched. Exactly one subscription is added, with interval 500 ms, a fresh handler bound to this object, and monitored list = properties followed by variables; every monitored node's browse-name string is a key of `nodes`. |
| `Mirror.SubHandler.constructor` | opcua_server/server.py:25-26 | The handler is bound to the object it is created for. |
| `Mirror.SubHandler.DataChangeNotification` | opcua_server/server.py:28-32 | The field named by the node's browse-name string becomes the value carried in the metadata. The field is created if absent. The `val` argument plays no part, and no other field changes. |
| `Notification.Notified` | opcua_server/server.py:32 | One notification adds field `name` if absent, sets it to the carried value, and keeps every other field. |
| `Notification.LastNotificationWins` | opcua_server/server.py:31-32 | After any sequence of notifications, a field holds the value of the last notification addressed to its name, whatever came between for other fields. |
| `Notification.UnaddressedFieldKept` | opcua_server/server.py:31-32 | A field that no notification in a sequence addresses keeps its presence and its value. |
| `Mirror.UaObject.Write` | opcua_server/server.py:60-69 | With no argument, the server's values and the outcome are those of `WriteAll` over the table in iteration order. With a name, they are those of `WriteNamed`. Fields and the table never change. |
| `WriteBack.WriteAll` | opcua_server/server.py:62-66 | `write()` either completes or raises `AttributeError` for one of the table's keys; it never raises `KeyError`. It adds no node to the server. |
| `WriteBack.WriteNamed` | opcua_server/server.py:68-69 | `write(attr)` raises `KeyError` exactly when `attr` is not in the table. It completes exactly when `attr` is in the table and has a field, and then the node `nodes[attr]` holds field `attr`, whatever its class, and every other node keeps its value. When it fails, no node changes. |
| `WriteBack.WriteAllSucceeds` | opcua_server/server.py:62-66 | When every Variable-class key has a field, `write()` completes. Every Variable-class node of the table then holds the field of its name. Every non-Variable node, and every node outside the table, keeps its value. |
| `WriteBack.WriteAllFailFast` | opcua_server/server.py:63-66 | If the k-th key is the first Variable-class key without a field, `write()` raises `AttributeError` for it. The Variable-class nodes before it have been written, and no node at or after it has. |
| `WriteBack.WriteAllOkIff` | opcua_server/server.py:63-66 | `write()` completes if and only if every Variable-class key has a field. |
| `WriteBack.WriteAllFrame` | opcua_server/server.py:63-66 | Whether or not it completes, `write()` changes only Variable-class nodes of the table, and never a node of another class. |
| `WriteBack.WriteAllWrites` | opcua_server/server.py:63-66 | When no Variable-class key lacks a field, each Variable-class node of the table ends up holding the field of its name, even where several keys share a node. |
| `WriteBack.WriteAllStopsAt` | opcua_server/server.py:63-66 | A `write()` stopped at position `p` leaves the server exactly as the completed writes of the keys before `p` would. |
| `Notification.EchoedWriteIsIdempotent` | opcua_server/server.py:28-32 | The echo of a completed `write(attr)` carries the value just written to a node whose name is `attr`, so handling it leaves the fields unchanged. |
| `Mirror.WriteThenEcho` | opcua_server/server.py:60-69 | `write(attr)` followed by the handler's call for the echoed change leaves every field as it was. The only change is node `nodes[attr]`, which now holds field `attr`. |
| `Mirror.MyObj.constructor` | opcua_server/server.py:77-83 | The device object's mirrored state is what binding produces (same table, name and subscription). In addition, the field `testval` holds `"python only"`, and it is the only field. |

## Left out

- The `__main__` block (lines 93-163) is not modelled. It covers endpoint and namespace setup, building the demo address space, historization, and the demo loop with its sleep.
- The demo's random spectra, timestamps and floating-point values are not modelled. The bridge never inspects values, so `OpcUa.Value` keeps only a few variants to tell values apart, and timestamps are plain ticks.
- The OPC UA library's internals are replaced by the `OpcUa` module. Its `Server` methods model `set_value`, `create_subscription` and `subscribe_data_change` by their effect on the server state only.
- The library may reject a write to a node that has no Value attribute (an Object-class child through `write(attr)`). The model's `SetValue` accepts every node, and transport or session errors are not modelled.
- Binding to a node id that is not in the address space raises inside the library. The model requires the node to exist.
- Notifications are delivered asynchronously, and a delivery may race with `write`. This concurrency is not modelled: each notification is one atomic, sequential call.
- The handles returned by `subscribe_data_change` are not kept, because the code never uses them. The handler lives in the server's subscription record, as it does in the library.
- Name collisions between a child's browse-name string and the object's own attributes (`nodes`, `b_name`, `opcua_server`, `write`) are not modelled. In Python, a notification for such a child would replace that attribute, and `getattr(self, k)` in `write()` and `write(attr)` (lines 66 and 69) would read the object's own attribute or method instead of raising `AttributeError`. The model keeps mirrored fields in their own map.
- Discovery of nested sub-objects in `MyObj` (lines 85-90) is not modelled, because the code only describes it in a comment.
- `MyObj` is modelled as a class that holds its mirrored object, not one that inherits from it. Its field `testval` lives in the same attribute map as the mirrored fields, as in Python.
