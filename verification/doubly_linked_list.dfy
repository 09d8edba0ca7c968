/** The doubly linked variant in my_data_structures/doubly_linked_list.py.
    Its `insert`, `delete`, `search_min` and `search_max` are the singly
    linked `append`, `remove` and searches with one addition: `insert` also
    sets the new node's `prev`. The `prev` links are a map from node id to
    the id of the node it points back to. */
module DoublyLinkedList {
  import opened Results
  import LinkedList

  type Node = LinkedList.Node

  datatype DList = DList(base: LinkedList.List, prev: map<nat, nat>)

  /** `__init__` (lines 18-23): one node, whose `prev` is `None`. */
  function New(node: Node): (r: DList)
    ensures LinkedList.Valid(r.base) && r.base.nodes == [node] && r.prev == map[]
  {
    DList(LinkedList.New(node), map[])
  }

  /** `insert` (lines 34-46): the new node points back at `last_node`, then
      everything proceeds as in the singly linked `append`. */
  function Insert(d: DList, node: Node): (r: (DList, Option<LinkedList.Error>))
    ensures r.0.prev == d.prev[node.id := d.base.last.id]
    ensures r.0.base == LinkedList.Append(d.base, node).list
    ensures r.1 == LinkedList.Append(d.base, node).error
  {
    var out := LinkedList.Append(d.base, node);
    (DList(out.list, d.prev[node.id := d.base.last.id]), out.error)
  }

  /** `delete` (lines 48-72): the singly linked `remove`; only `next` links
      are rewritten, so no `prev` changes. */
  function Delete(d: DList, index: int): (r: (DList, Option<LinkedList.Error>))
    ensures r.0.prev == d.prev
    ensures r.0.base == LinkedList.Remove(d.base, index).list
    ensures r.1 == LinkedList.Remove(d.base, index).error
  {
    var out := LinkedList.Remove(d.base, index);
    (DList(out.list, d.prev), out.error)
  }

  /** Every node after the head points back at its predecessor. */
  predicate BackLinked(d: DList) {
    var s := d.base.nodes;
    forall i :: 0 < i < |s| ==> s[i].id in d.prev && d.prev[s[i].id] == s[i - 1].id
  }

  /** `search_data` (lines 74-83): the first node holding `data`, `None` for
      the `-1` answer; a missing head raises. */
  function SearchData(d: DList, data: int): (r: Result<Option<Node>, LinkedList.Error>)
    ensures r.Err? <==> d.base.nodes == []
    ensures r.Ok? && r.value.None? ==> forall i :: 0 <= i < |d.base.nodes| ==> d.base.nodes[i].data != data
    ensures r.Ok? && r.value.Some? ==>
      exists k :: 0 <= k < |d.base.nodes| && d.base.nodes[k] == r.value.value && r.value.value.data == data &&
        forall j :: 0 <= j < k ==> d.base.nodes[j].data != data
  {
    if d.base.nodes == [] then Err(LinkedList.AttributeError)
    else
      FirstWithDataSpec(d.base.nodes, data);
      Ok(FirstWithData(d.base.nodes, data))
  }

  function FirstWithData(s: seq<Node>, data: int): Option<Node> {
    if s == [] then None
    else if s[0].data == data then Some(s[0])
    else FirstWithData(s[1..], data)
  }

  /** `search_data` finds the first node with the data, and answers `-1`
      exactly when no node holds it. */
  lemma {:induction false} FirstWithDataSpec(s: seq<Node>, data: int)
    ensures FirstWithData(s, data).None? <==> forall i :: 0 <= i < |s| ==> s[i].data != data
    ensures FirstWithData(s, data).Some? ==>
      exists k :: 0 <= k < |s| && s[k] == FirstWithData(s, data).value && s[k].data == data &&
        forall j :: 0 <= j < k ==> s[j].data != data
  {
    if s != [] && s[0].data != data {
      FirstWithDataSpec(s[1..], data);
      if FirstWithData(s, data).Some? {
        var k :| 0 <= k < |s[1..]| && s[1..][k] == FirstWithData(s[1..], data).value &&
          s[1..][k].data == data && forall j :: 0 <= j < k ==> s[1..][j].data != data;
        assert s[k + 1] == s[1..][k];
        forall j | 0 <= j < k + 1 ensures s[j].data != data {
          if j > 0 { assert s[j] == s[1..][j - 1]; }
        }
      }
      forall i | 0 <= i < |s| && FirstWithData(s, data).None? ensures s[i].data != data {
        if i > 0 { assert s[i] == s[1..][i - 1]; }
      }
    }
  }

  /** A value held by exactly one node is found at that node. */
  lemma {:induction false} FirstWithDataUnique(s: seq<Node>, k: nat)
    requires k < |s| && forall j :: 0 <= j < |s| && j != k ==> s[j].data != s[k].data
    ensures FirstWithData(s, s[k].data) == Some(s[k])
  {
    if k > 0 {
      var t := s[1..];
      assert t[k - 1] == s[k];
      forall j | 0 <= j < |t| && j != k - 1 ensures t[j].data != t[k - 1].data {
        assert t[j] == s[j + 1];
      }
      FirstWithDataUnique(t, k - 1);
    }
  }

  /** Inserting a fresh node into a valid, back-linked list keeps it back
      linked: the new node points at the old end. */
  lemma InsertKeepsBackLinks(d: DList, node: Node)
    requires LinkedList.Valid(d.base) && BackLinked(d)
    requires forall i :: 0 <= i < |d.base.nodes| ==> d.base.nodes[i].id != node.id
    ensures Insert(d, node).1 == None
    ensures Insert(d, node).0.base.nodes == d.base.nodes + [node]
    ensures LinkedList.Valid(Insert(d, node).0.base) && BackLinked(Insert(d, node).0)
  {
    LinkedList.AppendKeepsValid(d.base, node);
    var s := d.base.nodes;
    var r := Insert(d, node).0;
    var t := s + [node];
    assert r.base.nodes == t;
    forall i | 0 < i < |t| ensures t[i].id in r.prev && r.prev[t[i].id] == t[i - 1].id {
      if i < |s| {
        assert t[i] == s[i] && t[i - 1] == s[i - 1];
      }
    }
  }

  /** Deleting a middle node leaves its successor pointing back at the
      deleted node: the list is no longer back linked. */
  lemma DeleteLeavesStalePrev(d: DList, index: int)
    requires LinkedList.Valid(d.base) && BackLinked(d) && 0 < index < |d.base.nodes| - 1
    ensures var r := Delete(d, index).0;
      r.base.nodes[index] == d.base.nodes[index + 1] &&
      r.prev[r.base.nodes[index].id] == d.base.nodes[index].id &&
      !BackLinked(r)
  {
    LinkedList.RemoveKeepsValid(d.base, index);
    var s := d.base.nodes;
    var r := Delete(d, index).0;
    assert r.base.nodes[index] == s[index + 1] && r.base.nodes[index - 1] == s[index - 1];
    assert s[index].id != s[index - 1].id;
  }

  /** `delete` as evidently intended: `last_node` follows the new end (the
      corrected singly linked `remove`), and on success the back links are
      rewritten around the removed node. */
  function DeleteFixed(d: DList, index: int): (r: (DList, Option<LinkedList.Error>))
    ensures r.1 == Delete(d, index).1
    ensures r.0.base == LinkedList.RemoveFixed(d.base, index).list
    ensures r.0.prev == if r.1 == None then Relink(d.prev, d.base.nodes, index) else d.prev
  {
    var out := LinkedList.RemoveFixed(d.base, index);
    (DList(out.list, if out.error == None then Relink(d.prev, d.base.nodes, index) else d.prev), out.error)
  }

  /** The back links after unlinking the node at `index` of `s`: the node
      after it points back at the node before it, and a new head points back
      at nothing. */
  function Relink(prev: map<nat, nat>, s: seq<Node>, index: int): map<nat, nat> {
    if index + 1 >= |s| || index < 0 then prev
    else if index == 0 then prev - {s[1].id}
    else prev[s[index + 1].id := s[index - 1].id]
  }

  /** Deleting any node of a valid, back-linked list with the corrected
      `delete` succeeds, unlinks exactly that node and keeps every node after
      the head pointing back at its predecessor. */
  lemma DeleteFixedKeepsBackLinks(d: DList, index: int)
    requires LinkedList.Valid(d.base) && BackLinked(d) && 0 <= index < |d.base.nodes|
    ensures DeleteFixed(d, index).1 == None
    ensures DeleteFixed(d, index).0.base.nodes == d.base.nodes[..index] + d.base.nodes[index + 1..]
    ensures BackLinked(DeleteFixed(d, index).0)
  {
    DeleteFixedShape(d, index);
    var s := d.base.nodes;
    assert LinkedList.UniqueIds(s);
    var t := s[..index] + s[index + 1..];
    var p := DeleteFixed(d, index).0.prev;
    hide LinkedList.RemoveFixed, LinkedList.Remove, DeleteFixed, LinkedList.Valid, LinkedList.Search,
         LinkedList.AfterUnlink;
    forall i | 0 < i < |t| ensures t[i].id in p && p[t[i].id] == t[i - 1].id {
      RelinkedAt(d.prev, s, index, p, i);
    }
  }

  /** What the corrected `delete` leaves on a valid list: no error, and the
      node unlinked. */
  lemma DeleteFixedShape(d: DList, index: int)
    requires LinkedList.Valid(d.base) && 0 <= index < |d.base.nodes|
    ensures var s := d.base.nodes;
      var r := DeleteFixed(d, index);
      r.1 == None && r.0.base.nodes == s[..index] + s[index + 1..]
  {
    assert d.base.length == |d.base.nodes|;
  }

  /** The link of the `i`-th node left after the corrected `delete`. */
  lemma RelinkedAt(prev: map<nat, nat>, s: seq<Node>, index: int, p: map<nat, nat>, i: int)
    requires LinkedList.UniqueIds(s) && 0 <= index < |s| && 0 < i < |s| - 1
    requires forall j :: 0 < j < |s| ==> s[j].id in prev && prev[s[j].id] == s[j - 1].id
    requires p == Relink(prev, s, index)
    ensures var t := s[..index] + s[index + 1..];
      t[i].id in p && p[t[i].id] == t[i - 1].id
  {
    var t := s[..index] + s[index + 1..];
    if i < index {
      assert t[i] == s[i] && t[i - 1] == s[i - 1];
    } else if i == index {
      assert t[i] == s[index + 1] && t[i - 1] == s[index - 1];
    } else {
      assert t[i] == s[i + 1] && t[i - 1] == s[i];
    }
  }

  /** Inserting a run of fresh nodes into a one-node list. */
  function InsertAll(d: DList, ns: seq<Node>): (r: DList)
    decreases |ns|
  {
    if ns == [] then d else InsertAll(Insert(d, ns[0]).0, ns[1..])
  }

  /** The demonstration's pattern (lines 123-129): nodes with distinct ids
      inserted one after another end up in order, each pointing back at the
      one inserted before it. */
  lemma {:induction false} InsertAllBuilds(d: DList, ns: seq<Node>)
    requires LinkedList.Valid(d.base) && BackLinked(d)
    requires LinkedList.UniqueIds(d.base.nodes + ns)
    ensures InsertAll(d, ns).base.nodes == d.base.nodes + ns
    ensures LinkedList.Valid(InsertAll(d, ns).base) && BackLinked(InsertAll(d, ns))
    decreases |ns|
  {
    if ns != [] {
      InsertStep(d, ns);
      var d1 := Insert(d, ns[0]).0;
      assert InsertAll(d, ns) == InsertAll(d1, ns[1..]);
      InsertAllBuilds(d1, ns[1..]);
    }
  }

  /** One step of `InsertAll`: the list after the first insertion is still
      well formed and back linked, and the remaining nodes are still fresh. */
  lemma InsertStep(d: DList, ns: seq<Node>)
    requires LinkedList.Valid(d.base) && BackLinked(d)
    requires ns != [] && LinkedList.UniqueIds(d.base.nodes + ns)
    ensures LinkedList.Valid(Insert(d, ns[0]).0.base) && BackLinked(Insert(d, ns[0]).0)
    ensures LinkedList.UniqueIds(Insert(d, ns[0]).0.base.nodes + ns[1..])
    ensures Insert(d, ns[0]).0.base.nodes + ns[1..] == d.base.nodes + ns
  {
    FreshHead(d.base.nodes, ns);
    InsertKeepsBackLinks(d, ns[0]);
    assert d.base.nodes + [ns[0]] + ns[1..] == d.base.nodes + ns;
  }

  /** The next node to insert is fresh, and moving it across keeps the ids
      distinct. */
  lemma FreshHead(s: seq<Node>, ns: seq<Node>)
    requires ns != [] && LinkedList.UniqueIds(s + ns)
    ensures forall i :: 0 <= i < |s| ==> s[i].id != ns[0].id
    ensures LinkedList.UniqueIds(s + [ns[0]] + ns[1..])
  {
    var u := s + ns;
    forall i | 0 <= i < |s| ensures s[i].id != ns[0].id {
      assert u[i] == s[i] && u[|s|] == ns[0];
    }
    assert s + [ns[0]] + ns[1..] == u;
  }

  /** In a list built this way `search_data` finds the node holding a value
      that only it holds, and answers `-1` for a value no node holds. */
  lemma InsertAllSearch(n: Node, ns: seq<Node>, k: nat, missing: int)
    requires LinkedList.UniqueIds([n] + ns)
    requires k < |ns| && forall j :: 0 <= j < |ns| && j != k ==> ns[j].data != ns[k].data
    requires n.data != ns[k].data
    requires n.data != missing && forall j :: 0 <= j < |ns| ==> ns[j].data != missing
    ensures SearchData(InsertAll(New(n), ns), ns[k].data) == Ok(Some(ns[k]))
    ensures SearchData(InsertAll(New(n), ns), missing) == Ok(None)
  {
    InsertAllBuilds(New(n), ns);
    var s := [n] + ns;
    assert InsertAll(New(n), ns).base.nodes == s;
    forall j | 0 <= j < |s| && j != k + 1 ensures s[j].data != s[k + 1].data {
      if j > 0 { assert s[j] == ns[j - 1]; }
    }
    FirstWithDataUnique(s, k + 1);
    FirstWithDataSpec(s, missing);
    forall j | 0 <= j < |s| ensures s[j].data != missing {
      if j > 0 { assert s[j] == ns[j - 1]; }
    }
  }
}
