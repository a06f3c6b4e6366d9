/**
 The name-to-node table a mirrored object builds from the children of the node
 it is bound to. The table is a Python dict: it remembers the order in which its
 keys were first inserted, and assigning to an existing key keeps the key where
 it was and replaces only its value.
 */
module NodeTable {
  import opened OpcUa

  /** A dict from child name to node. `keys` is the iteration order: each key
      once, in the order of its first insertion. */
  datatype NodeDict = NodeDict(keys: seq<string>, entries: map<string, NodeId>)
  {
    ghost predicate Valid()
    {
      && (forall i, j :: 0 <= i < j < |keys| ==> keys[i] != keys[j])
      && (forall k :: k in entries <==> k in keys)
    }

    /** `d[k] = v`: a new key goes to the end, an existing key keeps its place. */
    function Set(k: string, v: NodeId): (d: NodeDict)
      requires Valid()
      ensures d.Valid()
    {
      NodeDict(if k in entries then keys else keys + [k], entries[k := v])
    }

    /** What `d[k] = v` stores: `k` now maps to `v`, every other entry stays, an
        existing key keeps its position and a new key goes to the end. */
    lemma SetStores(k: string, v: NodeId)
      requires Valid()
      ensures k in Set(k, v).entries && Set(k, v).entries[k] == v
      ensures forall j :: j in entries && j != k ==> j in Set(k, v).entries && Set(k, v).entries[j] == entries[j]
      ensures Set(k, v).entries.Keys == entries.Keys + {k}
      ensures k in entries ==> Set(k, v).keys == keys
      ensures k !in entries ==> Set(k, v).keys == keys + [k]
    {
    }
  }

  /** The browse-name string of node `id`, namespace index dropped. */
  function NameOf(space: AddressSpace, id: NodeId): string
    requires id in space
  {
    space[id].browseName.name
  }

  ghost predicate InSpace(space: AddressSpace, ids: seq<NodeId>)
  {
    forall i :: 0 <= i < |ids| ==> ids[i] in space
  }

  /** The table that results from inserting every child, in enumeration order,
      under its browse-name string. */
  function Index(space: AddressSpace, children: seq<NodeId>): NodeDict
    requires InSpace(space, children)
    decreases |children|
  {
    if children == [] then NodeDict([], map[])
    else
      var last := children[|children| - 1];
      Index(space, children[..|children| - 1]).Set(NameOf(space, last), last)
  }

  /** A well-formed table over `space`: every entry is a node of `space` whose
      browse-name string is the entry's key. */
  ghost predicate Table(space: AddressSpace, d: NodeDict)
  {
    d.Valid() && forall k :: k in d.entries ==> d.entries[k] in space && NameOf(space, d.entries[k]) == k
  }

  /** No child after position `i` has the browse-name string of child `i`. */
  ghost predicate LastWithName(space: AddressSpace, children: seq<NodeId>, i: nat)
    requires InSpace(space, children) && i < |children|
  {
    forall j :: i < j < |children| ==> NameOf(space, children[j]) != NameOf(space, children[i])
  }

  /** The position of the first child named `k`, or the number of children when
      no child has that name. */
  function FirstWithName(space: AddressSpace, children: seq<NodeId>, k: string): (i: nat)
    requires InSpace(space, children)
    ensures i <= |children|
    ensures i < |children| ==> NameOf(space, children[i]) == k
    ensures forall j :: 0 <= j < i ==> NameOf(space, children[j]) != k
    decreases |children|
  {
    if children == [] then 0
    else if NameOf(space, children[0]) == k then 0
    else 1 + FirstWithName(space, children[1..], k)
  }

  /** The table is well formed, and every entry is one of the children, filed
      under its own browse-name string. */
  lemma {:induction false} IndexValid(space: AddressSpace, children: seq<NodeId>)
    requires InSpace(space, children)
    ensures Table(space, Index(space, children))
    ensures forall k :: k in Index(space, children).entries ==> Index(space, children).entries[k] in children
    decreases |children|
  {
    if children != [] {
      var prefix := children[..|children| - 1];
      IndexValid(space, prefix);
      forall k | k in Index(space, prefix).entries ensures Index(space, prefix).entries[k] in children {
        var i :| 0 <= i < |prefix| && prefix[i] == Index(space, prefix).entries[k];
        assert children[i] == prefix[i];
      }
    }
  }

  /** The keys of the table are exactly the browse-name strings of the children. */
  lemma {:induction false} IndexKeys(space: AddressSpace, children: seq<NodeId>)
    requires InSpace(space, children)
    ensures Index(space, children).entries.Keys == set i | 0 <= i < |children| :: NameOf(space, children[i])
    decreases |children|
  {
    if children != [] {
      var n := |children|;
      var prefix := children[..n - 1];
      IndexKeys(space, prefix);
      var before := set i | 0 <= i < n - 1 :: NameOf(space, prefix[i]);
      var after := set i | 0 <= i < n :: NameOf(space, children[i]);
      assert after == before + {NameOf(space, children[n - 1])} by {
        forall k | k in after ensures k in before + {NameOf(space, children[n - 1])} {
          var i :| 0 <= i < n && NameOf(space, children[i]) == k;
          if i < n - 1 {
            assert prefix[i] == children[i];
          }
        }
        forall k | k in before ensures k in after {
          var i :| 0 <= i < n - 1 && NameOf(space, prefix[i]) == k;
          assert children[i] == prefix[i];
        }
      }
    }
  }

  /** When several children share a browse-name string, the entry for that
      string is the last of them. */
  lemma {:induction false} IndexLastWins(space: AddressSpace, children: seq<NodeId>, i: nat)
    requires InSpace(space, children) && i < |children| && LastWithName(space, children, i)
    ensures NameOf(space, children[i]) in Index(space, children).entries
    ensures Index(space, children).entries[NameOf(space, children[i])] == children[i]
    decreases |children|
  {
    var n := |children|;
    if i < n - 1 {
      var prefix := children[..n - 1];
      assert prefix[i] == children[i];
      assert LastWithName(space, prefix, i) by {
        forall j | i < j < n - 1 ensures NameOf(space, prefix[j]) != NameOf(space, prefix[i]) {
          assert prefix[j] == children[j];
        }
      }
      IndexLastWins(space, prefix, i);
      assert NameOf(space, children[n - 1]) != NameOf(space, children[i]);
    }
  }

  /** A name found among the first children is first found at the same place
      when more children follow. */
  lemma FirstWithNameExtends(space: AddressSpace, prefix: seq<NodeId>, children: seq<NodeId>, k: string)
    requires InSpace(space, children) && |prefix| <= |children| && prefix == children[..|prefix|]
    requires FirstWithName(space, prefix, k) < |prefix|
    ensures FirstWithName(space, children, k) == FirstWithName(space, prefix, k)
  {
  }

  /** A name the table of the first children lacks is first found at the last child. */
  lemma FirstWithNameNew(space: AddressSpace, children: seq<NodeId>)
    requires InSpace(space, children) && children != []
    requires NameOf(space, children[|children| - 1]) !in Index(space, children[..|children| - 1]).entries
    ensures FirstWithName(space, children, NameOf(space, children[|children| - 1])) == |children| - 1
  {
    var n := |children|;
    var prefix := children[..n - 1];
    var x := NameOf(space, children[n - 1]);
    IndexKeys(space, prefix);
    forall j | 0 <= j < n - 1 ensures NameOf(space, children[j]) != x {
      assert prefix[j] == children[j];
      assert NameOf(space, prefix[j]) in Index(space, prefix).entries.Keys;
    }
  }

  /** One insertion step of `Index`: if the keys of table `d` are listed in
      first-occurrence order over the first children, so are the keys of `e`, the
      table after the last child is inserted, over all of them. */
  lemma KeyOrderStep(space: AddressSpace, children: seq<NodeId>, d: NodeDict, e: NodeDict)
    requires InSpace(space, children) && children != [] && d.Valid()
    requires e == d.Set(NameOf(space, children[|children| - 1]), children[|children| - 1])
    requires NameOf(space, children[|children| - 1]) !in d.entries ==>
      FirstWithName(space, children, NameOf(space, children[|children| - 1])) == |children| - 1
    requires forall a :: 0 <= a < |d.keys| ==> FirstWithName(space, children, d.keys[a]) < |children| - 1
    requires forall a, b :: 0 <= a < b < |d.keys| ==>
      FirstWithName(space, children, d.keys[a]) < FirstWithName(space, children, d.keys[b])
    ensures forall a :: 0 <= a < |e.keys| ==> FirstWithName(space, children, e.keys[a]) < |children|
    ensures forall a, b :: 0 <= a < b < |e.keys| ==>
      FirstWithName(space, children, e.keys[a]) < FirstWithName(space, children, e.keys[b])
  {
    var x := NameOf(space, children[|children| - 1]);
    var keys := e.keys;
    if x !in d.entries {
      assert keys == d.keys + [x];
      forall a, b | 0 <= a < b < |keys|
        ensures FirstWithName(space, children, keys[a]) < FirstWithName(space, children, keys[b])
      {
        assert keys[a] == d.keys[a];
        if b < |d.keys| { assert keys[b] == d.keys[b]; }
      }
    }
  }

  /** The iteration order of the table lists keys by the position of the first
      child carrying each name. */
  lemma {:induction false} IndexKeyOrder(space: AddressSpace, children: seq<NodeId>)
    requires InSpace(space, children)
    ensures forall a :: 0 <= a < |Index(space, children).keys| ==>
      FirstWithName(space, children, Index(space, children).keys[a]) < |children|
    ensures forall a, b :: 0 <= a < b < |Index(space, children).keys| ==>
      FirstWithName(space, children, Index(space, children).keys[a])
        < FirstWithName(space, children, Index(space, children).keys[b])
    decreases |children|
  {
    if children != [] {
      var n := |children|;
      var prefix := children[..n - 1];
      var d := Index(space, prefix);
      IndexKeyOrder(space, prefix);
      IndexValid(space, prefix);
      forall a | 0 <= a < |d.keys|
        ensures FirstWithName(space, children, d.keys[a]) == FirstWithName(space, prefix, d.keys[a])
      {
        FirstWithNameExtends(space, prefix, children, d.keys[a]);
      }
      if NameOf(space, children[n - 1]) !in d.entries {
        FirstWithNameNew(space, children);
      }
      KeyOrderStep(space, children, d, Index(space, children));
    }
  }

  /** Every property and variable of a node, the children it subscribes to, has
      an entry in the table of that node's children under its browse-name
      string. */
  lemma SubscribedChildrenIndexed(space: AddressSpace, node: NodeId)
    requires Closed(space) && node in space
    ensures InSpace(space, space[node].children)
    ensures forall c :: c in space[node].properties + space[node].variables ==>
      c in space && space[c].nodeClass == Variable && NameOf(space, c) in Index(space, space[node].children).entries
  {
    var children := space[node].children;
    assert InSpace(space, children) by {
      forall i | 0 <= i < |children| ensures children[i] in space {
        assert children[i] in space[node].children;
      }
    }
    IndexKeys(space, children);
    forall c | c in space[node].properties + space[node].variables
      ensures c in space && space[c].nodeClass == Variable && NameOf(space, c) in Index(space, children).entries
    {
      var subscribed := space[node].properties + space[node].variables;
      var j :| 0 <= j < |subscribed| && subscribed[j] == c;
      if j < |space[node].properties| {
        assert space[node].properties[j] == c;
      } else {
        assert space[node].variables[j - |space[node].properties|] == c;
      }
      var i :| 0 <= i < |children| && children[i] == c;
    }
  }
}
