/**
 What a mirrored object's `write` does to the server's node values, as functions
 of the node table, the object's fields and the values before the call. The
 no-argument form walks the table in iteration order, pushes only Variable-class
 nodes and stops at the first field it cannot read; the named form looks the
 name up in the table and pushes whatever the node's class.
 */
module WriteBack {
  import opened OpcUa
  import opened NodeTable

  datatype Option<T> = None | Some(value: T)

  /** How a call to `write` ends: normally, or with the exception that aborts it. */
  datatype Outcome = Ok | KeyError(key: string) | AttributeError(name: string)

  /** The mirrored object's own attributes, by name. */
  type Fields = map<string, Value>

  predicate IsVariable(space: AddressSpace, id: NodeId)
    requires id in space
  {
    space[id].nodeClass == Variable
  }

  /** Every key of `keys` is in the table and names a node of the address space. */
  ghost predicate Covers(space: AddressSpace, keys: seq<string>, entries: map<string, NodeId>)
  {
    forall i :: 0 <= i < |keys| ==> keys[i] in entries && entries[keys[i]] in space
  }

  /** Every key of `keys` is the browse-name string of the node it maps to. */
  ghost predicate NamesMatch(space: AddressSpace, keys: seq<string>, entries: map<string, NodeId>)
    requires Covers(space, keys, entries)
  {
    forall i :: 0 <= i < |keys| ==> NameOf(space, entries[keys[i]]) == keys[i]
  }

  /** The Variable-class nodes that the keys of `keys` map to. */
  ghost function Targets(space: AddressSpace, keys: seq<string>, entries: map<string, NodeId>): set<NodeId>
    requires Covers(space, keys, entries)
  {
    set i | 0 <= i < |keys| && IsVariable(space, entries[keys[i]]) :: entries[keys[i]]
  }

  /** Key `keys[i]` maps to a Variable-class node but the object has no field of that name. */
  ghost predicate Missing(space: AddressSpace, keys: seq<string>, entries: map<string, NodeId>, fields: Fields, i: nat)
    requires Covers(space, keys, entries) && i < |keys|
  {
    IsVariable(space, entries[keys[i]]) && keys[i] !in fields
  }

  /** `write()`: for each key in order, a Variable-class node receives the field
      of the same name; a missing field ends the walk with AttributeError and
      keeps the writes already made. */
  function WriteAll(space: AddressSpace, keys: seq<string>, entries: map<string, NodeId>,
                    fields: Fields, values: map<NodeId, Value>): (r: (Outcome, map<NodeId, Value>))
    requires Covers(space, keys, entries)
    ensures r.0 == Ok || (r.0.AttributeError? && r.0.name in keys)
    ensures (forall i :: 0 <= i < |keys| ==> entries[keys[i]] in values) ==> r.1.Keys == values.Keys
    decreases |keys|
  {
    if keys == [] then (Ok, values)
    else
      var k := keys[0];
      var node := entries[k];
      if !IsVariable(space, node) then WriteAll(space, keys[1..], entries, fields, values)
      else if k !in fields then (AttributeError(k), values)
      else WriteAll(space, keys[1..], entries, fields, values[node := fields[k]])
  }

  /** `write(attr)`: an unknown name raises KeyError, a known name without a field
      raises AttributeError, and otherwise the node the name maps to, whatever
      its class, receives the field; no other node changes. */
  function WriteNamed(d: NodeDict, fields: Fields, values: map<NodeId, Value>, attr: string)
    : (r: (Outcome, map<NodeId, Value>))
    ensures r.0 == KeyError(attr) <==> attr !in d.entries
    ensures r.0 == AttributeError(attr) <==> attr in d.entries && attr !in fields
    ensures r.0 == Ok <==> attr in d.entries && attr in fields
    ensures r.0 != Ok ==> r.1 == values
    ensures r.0 == Ok ==> d.entries[attr] in r.1 && r.1[d.entries[attr]] == fields[attr]
    ensures r.0 == Ok ==> forall id :: id in values && id != d.entries[attr] ==> id in r.1 && r.1[id] == values[id]
    ensures r.0 == Ok && d.entries[attr] in values ==> r.1.Keys == values.Keys
  {
    if attr !in d.entries then (KeyError(attr), values)
    else if attr !in fields then (AttributeError(attr), values)
    else (Ok, values[d.entries[attr] := fields[attr]])
  }

  /** A `write()` never changes a node that no key maps to as a Variable-class
      node, in particular no node of another class; it adds no node. */
  lemma {:induction false} WriteAllFrame(space: AddressSpace, keys: seq<string>, entries: map<string, NodeId>,
                                         fields: Fields, values: map<NodeId, Value>)
    requires Covers(space, keys, entries) && values.Keys == space.Keys
    ensures WriteAll(space, keys, entries, fields, values).1.Keys == values.Keys
    ensures forall id :: id in values && id !in Targets(space, keys, entries) ==>
      WriteAll(space, keys, entries, fields, values).1[id] == values[id]
    ensures forall id :: id in values && !IsVariable(space, id) ==>
      WriteAll(space, keys, entries, fields, values).1[id] == values[id]
    decreases |keys|
  {
    if keys != [] {
      var k := keys[0];
      var node := entries[k];
      var rest := keys[1..];
      assert Covers(space, rest, entries) by {
        forall i | 0 <= i < |rest| ensures rest[i] in entries && entries[rest[i]] in space {
          assert rest[i] == keys[i + 1];
        }
      }
      assert Targets(space, rest, entries) <= Targets(space, keys, entries) by {
        forall id | id in Targets(space, rest, entries) ensures id in Targets(space, keys, entries) {
          var i :| 0 <= i < |rest| && IsVariable(space, entries[rest[i]]) && entries[rest[i]] == id;
          assert rest[i] == keys[i + 1];
        }
      }
      if !IsVariable(space, node) {
        WriteAllFrame(space, rest, entries, fields, values);
      } else if k in fields {
        assert node in Targets(space, keys, entries) by { assert keys[0] == k; }
        WriteAllFrame(space, rest, entries, fields, values[node := fields[k]]);
      }
    }
  }

  /** When every Variable-class key has a field, `write()` completes and every
      such node ends up holding the field of its name. */
  lemma {:induction false} WriteAllWrites(space: AddressSpace, keys: seq<string>, entries: map<string, NodeId>,
                                          fields: Fields, values: map<NodeId, Value>)
    requires Covers(space, keys, entries) && NamesMatch(space, keys, entries) && values.Keys == space.Keys
    requires forall i :: 0 <= i < |keys| ==> !Missing(space, keys, entries, fields, i)
    ensures WriteAll(space, keys, entries, fields, values).0 == Ok
    ensures forall i :: 0 <= i < |keys| && IsVariable(space, entries[keys[i]]) ==>
      keys[i] in fields && WriteAll(space, keys, entries, fields, values).1[entries[keys[i]]] == fields[keys[i]]
    decreases |keys|
  {
    if keys != [] {
      var k := keys[0];
      var node := entries[k];
      var rest := keys[1..];
      assert Covers(space, rest, entries) && NamesMatch(space, rest, entries) by {
        forall i | 0 <= i < |rest|
          ensures rest[i] in entries && entries[rest[i]] in space && NameOf(space, entries[rest[i]]) == rest[i]
        {
          assert rest[i] == keys[i + 1];
        }
      }
      forall i | 0 <= i < |rest| ensures !Missing(space, rest, entries, fields, i) {
        assert rest[i] == keys[i + 1];
        assert !Missing(space, keys, entries, fields, i + 1);
      }
      assert !Missing(space, keys, entries, fields, 0);
      var next := if IsVariable(space, node) then values[node := fields[k]] else values;
      WriteAllWrites(space, rest, entries, fields, next);
      WriteAllFrame(space, rest, entries, fields, next);
      var r := WriteAll(space, keys, entries, fields, values);
      forall i | 0 <= i < |keys| && IsVariable(space, entries[keys[i]])
        ensures keys[i] in fields && r.1[entries[keys[i]]] == fields[keys[i]]
      {
        assert !Missing(space, keys, entries, fields, i);
        if i > 0 {
          assert keys[i] == rest[i - 1];
        } else if node in Targets(space, rest, entries) {
          // a later key mapping to the same node has the same name
          var j :| 0 <= j < |rest| && IsVariable(space, entries[rest[j]]) && entries[rest[j]] == node;
          assert rest[j] == keys[j + 1];
          assert rest[j] == k;
        }
      }
    }
  }

  /** `write()` completes exactly when every Variable-class key has a field. */
  lemma {:induction false} WriteAllOkIff(space: AddressSpace, keys: seq<string>, entries: map<string, NodeId>,
                                         fields: Fields, values: map<NodeId, Value>)
    requires Covers(space, keys, entries)
    ensures WriteAll(space, keys, entries, fields, values).0 == Ok <==>
      forall i :: 0 <= i < |keys| ==> !Missing(space, keys, entries, fields, i)
    decreases |keys|
  {
    if keys != [] {
      var k := keys[0];
      var node := entries[k];
      var rest := keys[1..];
      assert Covers(space, rest, entries) by {
        forall i | 0 <= i < |rest| ensures rest[i] in entries && entries[rest[i]] in space {
          assert rest[i] == keys[i + 1];
        }
      }
      var next := if IsVariable(space, node) && k in fields then values[node := fields[k]] else values;
      WriteAllOkIff(space, rest, entries, fields, next);
      assert (forall i :: 0 <= i < |keys| ==> !Missing(space, keys, entries, fields, i)) <==>
        (!Missing(space, keys, entries, fields, 0) && forall i :: 0 <= i < |rest| ==> !Missing(space, rest, entries, fields, i))
      by {
        forall i | 0 <= i < |rest| ensures Missing(space, rest, entries, fields, i) == Missing(space, keys, entries, fields, i + 1) {
          assert rest[i] == keys[i + 1];
        }
        if forall i :: 0 <= i < |rest| ==> !Missing(space, rest, entries, fields, i) {
          forall i | 1 <= i < |keys| ensures !Missing(space, keys, entries, fields, i) {
            assert !Missing(space, rest, entries, fields, i - 1);
          }
        }
      }
    }
  }

  /** `write()` stopped by the first missing field at position `p` leaves the
      server exactly as the writes of the keys before `p` left it. */
  lemma {:induction false} WriteAllStopsAt(space: AddressSpace, keys: seq<string>, entries: map<string, NodeId>,
                                           fields: Fields, values: map<NodeId, Value>, p: nat)
    requires Covers(space, keys, entries) && p < |keys| && Missing(space, keys, entries, fields, p)
    requires forall i :: 0 <= i < p ==> !Missing(space, keys, entries, fields, i)
    ensures Covers(space, keys[..p], entries)
    ensures WriteAll(space, keys[..p], entries, fields, values).0 == Ok
    ensures WriteAll(space, keys, entries, fields, values)
         == (AttributeError(keys[p]), WriteAll(space, keys[..p], entries, fields, values).1)
    decreases p
  {
    var k := keys[0];
    var node := entries[k];
    if p > 0 {
      var rest := keys[1..];
      assert Covers(space, rest, entries) by {
        forall i | 0 <= i < |rest| ensures rest[i] in entries && entries[rest[i]] in space {
          assert rest[i] == keys[i + 1];
        }
      }
      forall i | 0 <= i < p - 1 ensures !Missing(space, rest, entries, fields, i) {
        assert rest[i] == keys[i + 1];
        assert !Missing(space, keys, entries, fields, i + 1);
      }
      assert rest[p - 1] == keys[p];
      assert !Missing(space, keys, entries, fields, 0);
      var next := if IsVariable(space, node) then values[node := fields[k]] else values;
      WriteAllStopsAt(space, rest, entries, fields, next, p - 1);
      assert keys[..p][1..] == rest[..p - 1];
      assert keys[..p][0] == k;
    }
  }

  /** `write()` is fail-fast: when the key at position `p` is the first
      Variable-class key without a field, the call raises AttributeError for it,
      every Variable-class node before `p` has been written, and no node at or
      after `p` has. */
  lemma WriteAllFailFast(space: AddressSpace, d: NodeDict, fields: Fields, values: map<NodeId, Value>, p: nat)
    requires Table(space, d) && values.Keys == space.Keys
    requires p < |d.keys| && Missing(space, d.keys, d.entries, fields, p)
    requires forall i :: 0 <= i < p ==> !Missing(space, d.keys, d.entries, fields, i)
    ensures WriteAll(space, d.keys, d.entries, fields, values).0 == AttributeError(d.keys[p])
    ensures forall i :: 0 <= i < p && IsVariable(space, d.entries[d.keys[i]]) ==>
      d.keys[i] in fields && WriteAll(space, d.keys, d.entries, fields, values).1[d.entries[d.keys[i]]] == fields[d.keys[i]]
    ensures forall i :: p <= i < |d.keys| ==>
      WriteAll(space, d.keys, d.entries, fields, values).1[d.entries[d.keys[i]]] == values[d.entries[d.keys[i]]]
  {
    var keys, entries := d.keys, d.entries;
    var before := keys[..p];
    var r := WriteAll(space, keys, entries, fields, values);
    var w := WriteAll(space, before, entries, fields, values);
    WriteAllStopsAt(space, keys, entries, fields, values, p);
    assert r.1 == w.1;
    assert NamesMatch(space, before, entries) by {
      forall i | 0 <= i < |before| ensures NameOf(space, entries[before[i]]) == before[i] {
        assert before[i] == keys[i];
      }
    }
    forall i | 0 <= i < |before| ensures !Missing(space, before, entries, fields, i) {
      assert before[i] == keys[i];
      assert !Missing(space, keys, entries, fields, i);
    }
    WriteAllWrites(space, before, entries, fields, values);
    WriteAllFrame(space, before, entries, fields, values);
    forall i | 0 <= i < p && IsVariable(space, entries[keys[i]])
      ensures keys[i] in fields && r.1[entries[keys[i]]] == fields[keys[i]]
    {
      assert before[i] == keys[i];
    }
    forall i | p <= i < |keys|
      ensures r.1[entries[keys[i]]] == values[entries[keys[i]]]
    {
      assert entries[keys[i]] !in Targets(space, before, entries);
    }
  }

  /** When every Variable-class key has a field, `write()` completes, each
      Variable-class node of the table holds the field of its name, and every
      other node, of whatever class, keeps its value. */
  lemma WriteAllSucceeds(space: AddressSpace, d: NodeDict, fields: Fields, values: map<NodeId, Value>)
    requires Table(space, d) && values.Keys == space.Keys
    requires forall k :: k in d.entries && IsVariable(space, d.entries[k]) ==> k in fields
    ensures WriteAll(space, d.keys, d.entries, fields, values).0 == Ok
    ensures forall k :: k in d.entries && IsVariable(space, d.entries[k]) ==>
      k in fields && WriteAll(space, d.keys, d.entries, fields, values).1[d.entries[k]] == fields[k]
    ensures forall id :: id in values && !IsVariable(space, id) ==>
      WriteAll(space, d.keys, d.entries, fields, values).1[id] == values[id]
    ensures forall id :: id in values && (forall k :: k in d.entries ==> d.entries[k] != id) ==>
      WriteAll(space, d.keys, d.entries, fields, values).1[id] == values[id]
  {
    var keys, entries := d.keys, d.entries;
    forall i | 0 <= i < |keys| ensures !Missing(space, keys, entries, fields, i) {
      assert keys[i] in entries;
    }
    WriteAllWrites(space, keys, entries, fields, values);
    WriteAllFrame(space, keys, entries, fields, values);
    forall k | k in entries && IsVariable(space, entries[k])
      ensures k in fields && WriteAll(space, keys, entries, fields, values).1[entries[k]] == fields[k]
    {
      var i :| 0 <= i < |keys| && keys[i] == k;
    }
  }
}
