/** `SingleLinkedList` of my_data_structures/linkedlist.py. The reachable
    chain from `head` is a sequence of nodes; `last_node`, `length`, `minimum`
    and `maximum` are the separately stored fields. Node identity is the `id`
    field; the data are integers standing for any ordered values. */
module LinkedList {
  import opened Results

  datatype Node = Node(id: nat, data: int)

  /** Which extreme a search looks for. */
  datatype Extreme = Lowest | Highest

  /** `a` is strictly better than `b` for the extreme sought. */
  predicate Beats(e: Extreme, a: int, b: int) {
    if e == Lowest then a < b else a > b
  }

  /** `k` is the first position of an extreme element: nothing beats it and it
      beats everything before it. */
  predicate FirstExtremeAt(s: seq<Node>, e: Extreme, k: int) {
    0 <= k < |s| &&
    (forall j :: 0 <= j < |s| ==> !Beats(e, s[j].data, s[k].data)) &&
    (forall j :: 0 <= j < k ==> Beats(e, s[k].data, s[j].data))
  }

  /** The left-to-right scan of `search_min` / `search_max` (lines 65-86): the
      candidate is replaced only by a strictly better node, so ties keep the
      earliest. */
  function ExtremeIndex(s: seq<Node>, e: Extreme): (k: nat)
    requires |s| > 0
    ensures FirstExtremeAt(s, e, k)
  {
    if |s| == 1 then 0
    else
      var k := ExtremeIndex(s[..|s| - 1], e);
      if Beats(e, s[|s| - 1].data, s[k].data) then |s| - 1 else k
  }

  /** There is only one first extreme position. */
  lemma FirstExtremeUnique(s: seq<Node>, e: Extreme, k: int, k': int)
    requires FirstExtremeAt(s, e, k) && FirstExtremeAt(s, e, k')
    ensures k == k'
  {
    assert !Beats(e, s[k].data, s[k'].data) && !Beats(e, s[k'].data, s[k].data);
  }

  /** `search_min` / `search_max` on the reachable chain; `None` when the
      head is `None`. */
  function Search(nodes: seq<Node>, e: Extreme): (r: Option<Node>)
    ensures r == None <==> nodes == []
    ensures r.Some? ==> exists k :: FirstExtremeAt(nodes, e, k) && r.value == nodes[k]
  {
    if nodes == [] then None else Some(nodes[ExtremeIndex(nodes, e)])
  }

  datatype List = List(nodes: seq<Node>, last: Node, length: int,
                       minimum: Option<Node>, maximum: Option<Node>)

  datatype Error = AttributeError | UnboundRemovedNode

  /** The state after a call, and the exception it raised, if any. */
  datatype Outcome = Outcome(list: List, error: Option<Error>)

  predicate UniqueIds(nodes: seq<Node>) {
    forall i, j :: 0 <= i < j < |nodes| ==> nodes[i].id != nodes[j].id
  }

  /** The intended shape: `last_node` is the end of the chain, `length`
      counts it, and `minimum`/`maximum` are its first extremes. */
  predicate Valid(l: List) {
    UniqueIds(l.nodes) && |l.nodes| > 0 && l.last == l.nodes[|l.nodes| - 1] &&
    l.length == |l.nodes| &&
    l.minimum == Search(l.nodes, Lowest) && l.maximum == Search(l.nodes, Highest)
  }

  /** `__init__` (lines 13-18). */
  function New(node: Node): (r: List)
    ensures Valid(r) && r.nodes == [node]
  {
    List([node], node, 1, Some(node), Some(node))
  }

  /** Whether `last_node` is still the end of the reachable chain. */
  predicate Attached(l: List) {
    |l.nodes| > 0 && l.last == l.nodes[|l.nodes| - 1]
  }

  /** The stored extreme after a new node: replaced only when strictly beaten. */
  function Track(current: Node, node: Node, e: Extreme): Node {
    if Beats(e, node.data, current.data) then node else current
  }

  /** `append` (lines 29-37). The node is linked after `last_node`; when
      `last_node` no longer ends the chain it hangs off a detached node and
      the chain does not change. Reading `.data` of a `None` extreme raises. */
  function Append(l: List, node: Node): (r: Outcome)
    ensures r.list.length == l.length + 1 && r.list.last == node
    ensures r.list.nodes == if Attached(l) then l.nodes + [node] else l.nodes
    ensures r.error == None <==> l.minimum.Some? && l.maximum.Some?
  {
    var linked := l.(nodes := if Attached(l) then l.nodes + [node] else l.nodes,
                     last := node, length := l.length + 1);
    match l.maximum
    case None => Outcome(linked, Some(AttributeError))
    case Some(mx) =>
      var withMax := linked.(maximum := Some(Track(mx, node, Highest)));
      match l.minimum
      case None => Outcome(withMax, Some(AttributeError))
      case Some(mn) => Outcome(withMax.(minimum := Some(Track(mn, node, Lowest))), None)
  }

  /** Unlinking found the node at `index`: shorten, then recompute a stored
      extreme that was the removed node (lines 55-63). */
  function AfterUnlink(l: List, rest: seq<Node>, removed: Node): List {
    l.(nodes := rest, length := l.length - 1,
       maximum := if l.maximum == Some(removed) then Search(rest, Highest) else l.maximum,
       minimum := if l.minimum == Some(removed) then Search(rest, Lowest) else l.minimum)
  }

  /** `remove` (lines 39-63) as written: `last_node` is never touched. Index 0
      on an empty chain, or an index past the reachable chain, fails on
      `None`; an index outside `0 .. length - 1` decrements `length` and then
      fails because `removed_node` was never bound. */
  function Remove(l: List, index: int): (r: Outcome)
    ensures r.list.last == l.last
    ensures r.error == None <==> 0 <= index < |l.nodes| && (index == 0 || index < l.length)
    ensures r.error == None ==> r.list.nodes == l.nodes[..index] + l.nodes[index + 1..]
    ensures r.error == None ==> r.list.length == l.length - 1
    ensures (index < 0 || (index != 0 && l.length <= index)) ==>
      r == Outcome(l.(length := l.length - 1), Some(UnboundRemovedNode))
  {
    if index == 0 then
      if |l.nodes| == 0 then Outcome(l, Some(AttributeError))
      else Outcome(AfterUnlink(l, l.nodes[1..], l.nodes[0]), None)
    else if 1 <= index < l.length then
      if index >= |l.nodes| then Outcome(l, Some(AttributeError))
      else Outcome(AfterUnlink(l, l.nodes[..index] + l.nodes[index + 1..], l.nodes[index]), None)
    else Outcome(l.(length := l.length - 1), Some(UnboundRemovedNode))
  }

  /** `remove` as evidently intended: `last_node` follows the new end. */
  function RemoveFixed(l: List, index: int): (r: Outcome)
    ensures r.error == Remove(l, index).error
    ensures r.error == None ==> r.list.nodes == l.nodes[..index] + l.nodes[index + 1..]
    ensures r.error == None && |r.list.nodes| > 0 ==> Attached(r.list)
  {
    var r := Remove(l, index);
    if r.error == None && |r.list.nodes| > 0 then
      Outcome(r.list.(last := r.list.nodes[|r.list.nodes| - 1]), None)
    else r
  }

  // ---------------------------------------------------------------------
  // Properties
  // ---------------------------------------------------------------------

  /** Appending a fresh node to a valid list puts it at the end and keeps the
      list valid: the stored extremes are still the first extremes. */
  lemma AppendKeepsValid(l: List, node: Node)
    requires Valid(l)
    requires forall i :: 0 <= i < |l.nodes| ==> l.nodes[i].id != node.id
    ensures Append(l, node).error == None
    ensures Append(l, node).list.nodes == l.nodes + [node]
    ensures Valid(Append(l, node).list)
  {
    var s := l.nodes + [node];
    assert s[..|s| - 1] == l.nodes;
    var r := Append(l, node).list;
    assert r.nodes == s;
    TrackedIsSearch(l.nodes, node, Lowest);
    TrackedIsSearch(l.nodes, node, Highest);
  }

  lemma TrackedIsSearch(s: seq<Node>, node: Node, e: Extreme)
    requires |s| > 0
    ensures Search(s + [node], e) == Some(Track(s[ExtremeIndex(s, e)], node, e))
  {
    var t := s + [node];
    assert t[..|t| - 1] == s;
  }

  /** The first extreme survives the removal of any other node. */
  lemma ExtremeSurvives(s: seq<Node>, i: nat, e: Extreme)
    requires i < |s| && |s| > 1
    requires s[ExtremeIndex(s, e)] != s[i]
    ensures Search(s[..i] + s[i + 1..], e) == Some(s[ExtremeIndex(s, e)])
  {
    var k := ExtremeIndex(s, e);
    ExtremeAfterRemoval(s, i, e, k);
    var t := s[..i] + s[i + 1..];
    hide ExtremeIndex;
    FirstExtremeUnique(t, e, if k < i then k else k - 1, ExtremeIndex(t, e));
  }

  /** Removing another position keeps a first extreme a first extreme, one
      place earlier when it came after the removed one. */
  lemma ExtremeAfterRemoval(s: seq<Node>, i: nat, e: Extreme, k: nat)
    requires i < |s| && FirstExtremeAt(s, e, k) && k != i
    ensures var t, k' := s[..i] + s[i + 1..], if k < i then k else k - 1;
      FirstExtremeAt(t, e, k') && t[k'] == s[k]
  {
    var t := s[..i] + s[i + 1..];
    var k' := if k < i then k else k - 1;
    assert t[k'] == s[k];
    forall j | 0 <= j < |t| ensures !Beats(e, t[j].data, t[k'].data) {
      if j < i { assert t[j] == s[j]; } else { assert t[j] == s[j + 1]; }
    }
    forall j | 0 <= j < k' ensures Beats(e, t[k'].data, t[j].data) {
      if j < i { assert t[j] == s[j]; } else { assert t[j] == s[j + 1]; }
    }
  }

  lemma UniqueIdsWithout(s: seq<Node>, i: nat)
    requires UniqueIds(s) && i < |s|
    ensures UniqueIds(s[..i] + s[i + 1..])
  {
    var t := s[..i] + s[i + 1..];
    forall a, b | 0 <= a < b < |t| ensures t[a].id != t[b].id {
      var a' := if a < i then a else a + 1;
      var b' := if b < i then b else b + 1;
      assert t[a] == s[a'] && t[b] == s[b'];
    }
  }

  /** A stored extreme after unlinking position `i`: recomputed when it was
      the unlinked node, kept otherwise; either way the first extreme of
      what remains. */
  lemma StoredExtreme(s: seq<Node>, i: nat, e: Extreme, stored: Option<Node>)
    requires UniqueIds(s) && i < |s| && |s| > 1 && stored == Search(s, e)
    ensures var t := s[..i] + s[i + 1..];
      (if stored == Some(s[i]) then Search(t, e) else stored) == Search(t, e)
  {
    if stored != Some(s[i]) {
      ExtremeSurvives(s, i, e);
    }
  }

  /** Unlinking any node of a valid list of two or more leaves distinct nodes,
      a matching length and the first extremes of the rest. */
  lemma UnlinkKeepsFields(l: List, index: nat)
    requires Valid(l) && index < |l.nodes| && |l.nodes| > 1
    ensures var t := l.nodes[..index] + l.nodes[index + 1..];
      var u := AfterUnlink(l, t, l.nodes[index]);
      UniqueIds(u.nodes) && u.length == |t| && |t| > 0 &&
      u.minimum == Search(t, Lowest) && u.maximum == Search(t, Highest)
  {
    UniqueIdsWithout(l.nodes, index);
    StoredExtreme(l.nodes, index, Lowest, l.minimum);
    StoredExtreme(l.nodes, index, Highest, l.maximum);
  }

  /** The successful `remove` is the unlink of the node at `index`. */
  lemma RemoveIsUnlink(l: List, index: nat)
    requires index < |l.nodes| && (index == 0 || index < l.length)
    ensures Remove(l, index) ==
      Outcome(AfterUnlink(l, l.nodes[..index] + l.nodes[index + 1..], l.nodes[index]), None)
  {
    if index == 0 {
      assert l.nodes[..0] + l.nodes[1..] == l.nodes[1..];
    }
  }

  /** Removing a node other than the last from a valid list unlinks exactly
      that node, keeps the others in order, and keeps the list valid: a
      removed extreme is recomputed, any other one stays. */
  lemma RemoveKeepsValid(l: List, index: int)
    requires Valid(l) && 0 <= index < |l.nodes| - 1
    ensures Remove(l, index).error == None
    ensures Remove(l, index).list.nodes == l.nodes[..index] + l.nodes[index + 1..]
    ensures Valid(Remove(l, index).list)
  {
    var s := l.nodes;
    var t := s[..index] + s[index + 1..];
    UnlinkKeepsFields(l, index);
    RemoveIsUnlink(l, index);
    assert t[|t| - 1] == s[|s| - 1];
  }

  /** Removing the end node as written leaves `last_node` pointing at the
      unlinked node: the list [a, b] minus index 1 is [a], and a node appended
      afterwards is not reachable, although `length` counts it. */
  lemma RemoveLastLosesAppend(a: Node, b: Node, c: Node)
    requires a.id != b.id
    ensures var l1 := Append(New(a), b).list;
      var l2 := Remove(l1, 1).list;
      var l3 := Append(l2, c).list;
      l2.nodes == [a] && l3.nodes == [a] && l3.length == 2
  {
    var l1 := Append(New(a), b).list;
    AppendKeepsValid(New(a), b);
    assert l1.nodes == [a, b];
    assert l1.nodes[..1] + l1.nodes[2..] == [a];
  }

  /** With `last_node` maintained, the list stays valid after any removal
      that leaves a node, and a node appended afterwards lands at the end. */
  lemma RemoveFixedThenAppend(l: List, index: int, node: Node)
    requires Valid(l) && 0 <= index < |l.nodes| && |l.nodes| > 1
    requires forall i :: 0 <= i < |l.nodes| ==> l.nodes[i].id != node.id
    ensures var r := RemoveFixed(l, index).list;
      Valid(r) && Append(r, node).list.nodes == l.nodes[..index] + l.nodes[index + 1..] + [node]
  {
    var s := l.nodes;
    var t := s[..index] + s[index + 1..];
    UnlinkKeepsFields(l, index);
    RemoveIsUnlink(l, index);
    var u := AfterUnlink(l, t, s[index]);
    assert Remove(l, index).list == u && Remove(l, index).error == None;
    assert u.nodes == t && |t| > 0;
    var r := RemoveFixed(l, index).list;
    assert r == AfterUnlink(l, t, s[index]).(last := t[|t| - 1]);
    assert Valid(r);
    forall i | 0 <= i < |t| ensures t[i].id != node.id {
      if i < index { assert t[i] == s[i]; } else { assert t[i] == s[i + 1]; }
    }
    AppendKeepsValid(r, node);
  }
}
