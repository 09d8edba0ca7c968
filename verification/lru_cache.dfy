/** The LRU cache of xero/lru_cache.py, modelled at the level of its object
    graph: nodes live in a heap `map<NodeId, Node>`, `prev`/`next` are optional
    node ids, and the two sentinel nodes and the key-to-node dictionary are
    class-level attributes, so every cache instance shares them. */
module LruCache {
  import opened Results
  import opened Counting

  type NodeId = nat

  /** The sentinel on the most-recently-used end (created first in the class body). */
  const Right: NodeId := 0
  /** The sentinel on the least-recently-used end. */
  const Left: NodeId := 1

  datatype Node = Node(key: int, value: int, prev: Option<NodeId>, next: Option<NodeId>)

  type Heap = map<NodeId, Node>

  /** `AttributeError` stands for a dereference of `None`, `KeyError` for a
      `dict.pop` of a missing key. */
  datatype Error = AttributeError | KeyError

  /** A raise, together with what the shared object graph holds at that
      moment: Python keeps every write made before the raising statement. */
  datatype Raised<S> = Raised(error: Error, state: S)

  /** One cache instance: the class-level heap, dictionary and next free node id,
      together with the instance's own capacity. */
  datatype State = State(heap: Heap, cache: map<int, NodeId>, nextId: NodeId, capacity: int)

  /** Every pointer of the heap names an allocated node. */
  ghost predicate Linked(h: Heap) {
    Left in h && Right in h &&
    (forall id {:trigger h[id].prev} :: id in h && h[id].prev.Some? ==> h[id].prev.value in h) &&
    (forall id {:trigger h[id].next} :: id in h && h[id].next.Some? ==> h[id].next.value in h)
  }

  /** The structural invariant every reachable state keeps, consistent or not:
      pointers and dictionary entries name allocated nodes, the dictionary never
      names a sentinel, and the allocator is ahead of every node. */
  ghost predicate Allocated(st: State) {
    Linked(st.heap) &&
    (forall id :: id in st.heap ==> id < st.nextId) &&
    (forall k :: k in st.cache ==> st.cache[k] in st.heap && st.cache[k] != Left && st.cache[k] != Right)
  }

  /** Node ids that hold the same key and value in both heaps. */
  ghost predicate SamePayload(h: Heap, h': Heap) {
    h'.Keys == h.Keys &&
    forall id :: id in h ==> h'[id].key == h[id].key && h'[id].value == h[id].value
  }

  /** `_remove` (lines 53-56): unlink `id` by pointing its neighbours at each
      other; the node's own pointers are left stale. */
  function Remove(h: Heap, id: NodeId): (r: Result<Heap, Raised<Heap>>)
    requires Linked(h) && id in h
    ensures r.Ok? ==> Linked(r.value) && SamePayload(h, r.value)
    ensures r.Err? <==> h[id].prev.None? || h[id].next.None?
    ensures r.Err? ==> Linked(r.error.state) && SamePayload(h, r.error.state)
    ensures r.Err? && h[id].prev.Some? ==>
      r.error.state == h[h[id].prev.value := h[h[id].prev.value].(next := None)]
  {
    var n := h[id];
    if n.prev.None? then Err(Raised(AttributeError, h))
    else
      var l := n.prev.value;
      var h1 := h[l := h[l].(next := n.next)];
      if n.next.None? then Err(Raised(AttributeError, h1))
      else
        var r := n.next.value;
        Ok(h1[r := h1[r].(prev := Some(l))])
  }

  /** `_insert` (lines 58-62): link `id` just before the right sentinel. */
  function Insert(h: Heap, id: NodeId): (r: Result<Heap, Raised<Heap>>)
    requires Linked(h) && id in h
    ensures r.Ok? ==> Linked(r.value) && SamePayload(h, r.value)
    ensures r.Err? <==> h[Right].prev.None?
    ensures r.Err? ==> r.error.state == h
  {
    var p := h[Right].prev;
    if p.None? then Err(Raised(AttributeError, h))
    else
      var pv := p.value;
      var h1 := h[pv := h[pv].(next := Some(id))];
      var h2 := h1[Right := h1[Right].(prev := Some(id))];
      var h3 := h2[id := h2[id].(next := Some(Right))];
      Ok(h3[id := h3[id].(prev := p)])
  }

  /** The class body (lines 16-19): both sentinels unlinked, the dictionary empty. */
  function ClassState(): (r: State)
    ensures Allocated(r) && r.cache == map[]
  {
    State(map[Right := Node(0, 0, None, None), Left := Node(0, 0, None, None)], map[], 2, 0)
  }

  /** `__init__` (lines 21-24): link the shared sentinels to each other and set
      the capacity; the shared dictionary and heap are kept as they are. */
  function NewCache(shared: State, capacity: int): (r: State)
    requires Allocated(shared)
    ensures Allocated(r) && Encodes(r.heap, []) && r.cache == shared.cache
  {
    var h1 := shared.heap[Right := shared.heap[Right].(prev := Some(Left))];
    var h2 := h1[Left := h1[Left].(next := Some(Right))];
    State(h2, shared.cache, shared.nextId, capacity)
  }

  /** `get` (lines 26-34): -1 for a missing key, otherwise move the key's node
      to the most-recently-used end and return its value. */
  function Get(st: State, key: int): (r: Result<(int, State), Raised<State>>)
    requires Allocated(st)
    ensures r.Ok? ==> Allocated(r.value.1) && r.value.1.cache == st.cache && SamePayload(st.heap, r.value.1.heap)
    ensures r.Err? ==> key in st.cache && Allocated(r.error.state) && r.error.state.cache == st.cache
  {
    if key !in st.cache then Ok((-1, st))
    else
      var id := st.cache[key];
      var r1 := Remove(st.heap, id);
      if r1.Err? then Err(AtHeap(st, r1.error))
      else
        var r2 := Insert(r1.value, id);
        if r2.Err? then Err(AtHeap(st, r2.error))
        else Ok((r2.value[id].value, st.(heap := r2.value)))
  }

  /** A raise inside a list operation, seen from the whole cache: the heap
      writes made so far stay, everything else is as before. */
  function AtHeap(st: State, e: Raised<Heap>): (r: Raised<State>)
    requires Allocated(st) && Linked(e.state) && SamePayload(st.heap, e.state)
    ensures r.error == e.error && Allocated(r.state) && r.state.cache == st.cache
  {
    Raised(e.error, st.(heap := e.state))
  }

  /** The eviction step of `put` as written (lines 49-51): unlink the node after
      the left sentinel, then pop the key of the node that is after the left
      sentinel once that first node is gone. */
  function EvictAsWritten(h: Heap, cache: map<int, NodeId>): (r: Result<(Heap, map<int, NodeId>), Raised<(Heap, map<int, NodeId>)>>)
    requires Linked(h)
    ensures r.Ok? ==> Linked(r.value.0) && SamePayload(h, r.value.0) && |r.value.1| == |cache| - 1
    ensures r.Ok? ==> forall k :: k in r.value.1 ==> k in cache && r.value.1[k] == cache[k]
    ensures r.Err? ==> Linked(r.error.state.0) && SamePayload(h, r.error.state.0) && r.error.state.1 == cache
  {
    var lru := h[Left].next;
    if lru.None? then Err(Raised(AttributeError, (h, cache)))
    else
      var r1 := Remove(h, lru.value);
      if r1.Err? then Err(Raised(r1.error.error, (r1.error.state, cache)))
      else
        var h1 := r1.value;
        var second := h1[Left].next;
        if second.None? then Err(Raised(AttributeError, (h1, cache)))
        else
          var k := h1[second.value].key;
          if k !in cache then Err(Raised(KeyError, (h1, cache)))
          else Ok((h1, cache - {k}))
  }

  /** The eviction step the method evidently intends: unlink the least recently
      used node and pop that node's own key. */
  function EvictOldest(h: Heap, cache: map<int, NodeId>): (r: Result<(Heap, map<int, NodeId>), Raised<(Heap, map<int, NodeId>)>>)
    requires Linked(h)
    ensures r.Ok? ==> Linked(r.value.0) && SamePayload(h, r.value.0) && |r.value.1| == |cache| - 1
    ensures r.Ok? ==> forall k :: k in r.value.1 ==> k in cache && r.value.1[k] == cache[k]
    ensures r.Err? ==> Linked(r.error.state.0) && SamePayload(h, r.error.state.0) && r.error.state.1 == cache
  {
    var lru := h[Left].next;
    if lru.None? then Err(Raised(AttributeError, (h, cache)))
    else
      var r1 := Remove(h, lru.value);
      if r1.Err? then Err(Raised(r1.error.error, (r1.error.state, cache)))
      else
        var h1 := r1.value;
        var k := h1[lru.value].key;
        if k !in cache then Err(Raised(KeyError, (h1, cache)))
        else Ok((h1, cache - {k}))
  }

  /** `put` of a key already present (lines 37-42): overwrite the node's value
      and move the node to the most-recently-used end. */
  function PutPresent(st: State, key: int, value: int): (r: Result<State, Raised<State>>)
    requires Allocated(st) && key in st.cache
    ensures r.Ok? ==> Allocated(r.value) && r.value.cache == st.cache && r.value.capacity == st.capacity
    ensures r.Err? ==>
      Allocated(r.error.state) && r.error.state.cache == st.cache &&
      r.error.state.heap[st.cache[key]].value == value
  {
    var id := st.cache[key];
    var h0 := st.heap[id := st.heap[id].(value := value)];
    SetValueShape(st.heap, id, value);
    var st0 := st.(heap := h0);
    var r1 := Remove(h0, id);
    if r1.Err? then Err(AtHeap(st0, r1.error))
    else
      var r2 := Insert(r1.value, id);
      if r2.Err? then Err(AtHeap(st0, r2.error))
      else Ok(st.(heap := r2.value))
  }

  /** `put` of a new key (lines 43-51): allocate a node, record it in the
      dictionary, link it at the most-recently-used end, then evict when the
      dictionary has outgrown the capacity; `fixed` selects `EvictOldest`
      instead of the code's `EvictAsWritten`. */
  function PutAbsent(st: State, key: int, value: int, fixed: bool): (r: Result<State, Raised<State>>)
    requires Allocated(st) && key !in st.cache
    ensures r.Ok? ==> Allocated(r.value) && r.value.capacity == st.capacity
    ensures r.Ok? && |st.cache| <= st.capacity ==> |r.value.cache| <= st.capacity
    ensures r.Err? ==>
      Allocated(r.error.state) && r.error.state.capacity == st.capacity &&
      r.error.state.cache == st.cache[key := st.nextId] &&
      st.nextId in r.error.state.heap && r.error.state.heap[st.nextId].key == key
  {
    var id := st.nextId;
    var h0 := st.heap[id := Node(key, value, None, None)];
    var c0 := st.cache[key := id];
    FreshNodeLinked(st, key, value);
    var r1 := Insert(h0, id);
    if r1.Err? then
      PutShape(st, key, value, h0, c0);
      Err(Raised(r1.error.error, State(h0, c0, st.nextId + 1, st.capacity)))
    else
      var h1 := r1.value;
      if |c0| > st.capacity then
        var e := if fixed then EvictOldest(h1, c0) else EvictAsWritten(h1, c0);
        if e.Err? then
          var (h2, c1) := e.error.state;
          PutShape(st, key, value, h2, c1);
          Err(Raised(e.error.error, State(h2, c1, st.nextId + 1, st.capacity)))
        else
          var (h2, c1) := e.value;
          PutShape(st, key, value, h2, c1);
          Ok(State(h2, c1, st.nextId + 1, st.capacity))
      else
        PutShape(st, key, value, h1, c0);
        Ok(State(h1, c0, st.nextId + 1, st.capacity))
  }

  /** The node `put` allocates has no pointers yet, so the heap stays linked. */
  lemma FreshNodeLinked(st: State, key: int, value: int)
    requires Allocated(st)
    ensures st.nextId !in st.heap && Linked(st.heap[st.nextId := Node(key, value, None, None)])
  {
    var h0 := st.heap[st.nextId := Node(key, value, None, None)];
    forall x | x in h0
      ensures (h0[x].prev.Some? ==> h0[x].prev.value in h0) && (h0[x].next.Some? ==> h0[x].next.value in h0)
    {
      if x != st.nextId { assert h0[x] == st.heap[x]; }
    }
  }

  /** A heap over the old nodes and the fresh one, still linked, and a
      dictionary drawn from the grown one, keep the structural invariant. */
  lemma PutShape(st: State, key: int, value: int, h: Heap, c: map<int, NodeId>)
    requires Allocated(st) && key !in st.cache
    requires Linked(h) && h.Keys == st.heap.Keys + {st.nextId}
    requires c == st.cache[key := st.nextId] || forall k :: k in c ==> k in st.cache[key := st.nextId] && c[k] == st.cache[key := st.nextId][k]
    ensures Allocated(State(h, c, st.nextId + 1, st.capacity))
  {
    forall k | k in c ensures c[k] in h && c[k] != Left && c[k] != Right {
      if k != key { assert c[k] == st.cache[k]; }
      else { assert Left in st.heap && Right in st.heap; }
    }
  }

  function PutWith(st: State, key: int, value: int, fixed: bool): (r: Result<State, Raised<State>>)
    requires Allocated(st)
  {
    if key in st.cache then PutPresent(st, key, value) else PutAbsent(st, key, value, fixed)
  }

  function Put(st: State, key: int, value: int): Result<State, Raised<State>>
    requires Allocated(st)
  {
    PutWith(st, key, value, false)
  }

  function PutFixed(st: State, key: int, value: int): Result<State, Raised<State>>
    requires Allocated(st)
  {
    PutWith(st, key, value, true)
  }

  // ---------------------------------------------------------------------
  // The doubly linked list as a sequence of node ids
  // ---------------------------------------------------------------------

  function Before(ids: seq<NodeId>, i: int): NodeId
    requires 0 <= i < |ids|
  {
    if i == 0 then Left else ids[i - 1]
  }

  function After(ids: seq<NodeId>, i: int): NodeId
    requires 0 <= i < |ids|
  {
    if i == |ids| - 1 then Right else ids[i + 1]
  }

  function First(ids: seq<NodeId>): NodeId {
    if |ids| == 0 then Right else ids[0]
  }

  function Last(ids: seq<NodeId>): NodeId {
    if |ids| == 0 then Left else ids[|ids| - 1]
  }

  /** Walking `next` from the left sentinel (and `prev` from the right one)
      visits exactly `ids`, in order. */
  ghost predicate Encodes(h: Heap, ids: seq<NodeId>) {
    Linked(h) &&
    (forall i :: 0 <= i < |ids| ==> ids[i] in h && ids[i] != Left && ids[i] != Right) &&
    h[Left].next == Some(First(ids)) && h[Right].prev == Some(Last(ids)) &&
    forall i {:trigger h[ids[i]].prev} {:trigger h[ids[i]].next} :: 0 <= i < |ids| ==>
      h[ids[i]].prev == Some(Before(ids, i)) && h[ids[i]].next == Some(After(ids, i))
  }

  /** The keys of the listed nodes, least recently used first. */
  function Keys(h: Heap, ids: seq<NodeId>): (r: seq<int>)
    requires forall i :: 0 <= i < |ids| ==> ids[i] in h
    ensures |r| == |ids| && forall i :: 0 <= i < |ids| ==> r[i] == h[ids[i]].key
  {
    if |ids| == 0 then [] else Keys(h, ids[..|ids| - 1]) + [h[ids[|ids| - 1]].key]
  }

  /** The state the cache is meant to keep: the list holds `ids`, and the
      dictionary maps each listed node's key to that node and nothing else. */
  ghost predicate Consistent(st: State, ids: seq<NodeId>) {
    Allocated(st) && Encodes(st.heap, ids) &&
    (forall k :: k in st.cache ==> st.cache[k] in ids && st.heap[st.cache[k]].key == k) &&
    (forall i :: 0 <= i < |ids| ==> st.heap[ids[i]].key in st.cache && st.cache[st.heap[ids[i]].key] == ids[i])
  }

  /** Every listed node has a single successor, so a node listed at two
      positions would reach the right sentinel after two different numbers of
      steps: the list never holds a node twice. */
  lemma {:induction false} EncodesDistinct(h: Heap, ids: seq<NodeId>, p: nat, q: nat)
    requires Encodes(h, ids) && p < q < |ids|
    ensures ids[p] != ids[q]
    decreases |ids| - q
  {
    assert h[ids[p]].next == Some(After(ids, p)) && After(ids, p) == ids[p + 1];
    assert h[ids[q]].next == Some(After(ids, q));
    if q < |ids| - 1 {
      EncodesDistinct(h, ids, p + 1, q + 1);
      assert After(ids, q) == ids[q + 1];
    } else {
      assert After(ids, q) == Right;
      assert ids[p + 1] != Right;
    }
    assert h[ids[p]].next.value != h[ids[q]].next.value;
  }

  lemma EncodesNoDups(h: Heap, ids: seq<NodeId>)
    requires Encodes(h, ids)
    ensures NoDups(ids)
  {
    forall p, q | 0 <= p < q < |ids| ensures ids[p] != ids[q] {
      EncodesDistinct(h, ids, p, q);
    }
  }

  function Without(ids: seq<NodeId>, i: nat): (r: seq<NodeId>)
    requires i < |ids|
    ensures |r| == |ids| - 1
  {
    ids[..i] + ids[i + 1..]
  }

  lemma WithoutMembers(ids: seq<NodeId>, i: nat)
    requires i < |ids| && NoDups(ids)
    ensures forall x :: x in Without(ids, i) <==> x in ids && x != ids[i]
  {
    var w := Without(ids, i);
    forall x | x in ids && x != ids[i]
      ensures x in w
    {
      var j :| 0 <= j < |ids| && ids[j] == x;
      if j < i { assert w[j] == x; } else { assert w[j - 1] == x; }
    }
  }

  /** The heap `_remove` leaves behind when it unlinks the `i`-th listed node. */
  function Unlinked(h: Heap, ids: seq<NodeId>, i: nat): Heap
    requires Encodes(h, ids) && i < |ids|
  {
    var l, r := Before(ids, i), After(ids, i);
    h[l := h[l].(next := Some(r))][r := h[r].(prev := Some(l))]
  }

  lemma UnlinkedAt(h: Heap, ids: seq<NodeId>, i: nat, j: nat)
    requires Encodes(h, ids) && i < |ids| && j < |ids| - 1
    ensures var w, h' := Without(ids, i), Unlinked(h, ids, i);
      w[j] in h' && w[j] != Left && w[j] != Right &&
      h'[w[j]].prev == Some(Before(w, j)) && h'[w[j]].next == Some(After(w, j))
  {
    var w, h' := Without(ids, i), Unlinked(h, ids, i);
    var l, r := Before(ids, i), After(ids, i);
    EncodesNoDups(h, ids);
    if j < i {
      assert w[j] == ids[j];
      assert Before(w, j) == Before(ids, j) by {
        if j > 0 { assert w[j - 1] == ids[j - 1]; }
      }
      if j == i - 1 {
        assert After(w, j) == r by {
          if j < |w| - 1 { assert w[j + 1] == ids[i + 1]; }
        }
        assert h'[w[j]] == h[l].(next := Some(r));
      } else {
        assert After(w, j) == After(ids, j) by { assert w[j + 1] == ids[j + 1]; }
        assert w[j] != l && w[j] != r;
        assert h'[w[j]] == h[ids[j]];
      }
    } else {
      assert w[j] == ids[j + 1];
      assert After(w, j) == After(ids, j + 1) by {
        if j < |w| - 1 { assert w[j + 1] == ids[j + 2]; }
      }
      if j == i {
        assert Before(w, j) == l by {
          if j > 0 { assert w[j - 1] == ids[i - 1]; }
        }
        assert h'[w[j]] == h[r].(prev := Some(l));
      } else {
        assert Before(w, j) == Before(ids, j + 1) by { assert w[j - 1] == ids[j]; }
        assert w[j] != l && w[j] != r;
        assert h'[w[j]] == h[ids[j + 1]];
      }
    }
  }

  /** Unlinking the `i`-th listed node leaves the others linked in order. */
  lemma RemoveEncodes(h: Heap, ids: seq<NodeId>, i: nat)
    requires Encodes(h, ids) && i < |ids|
    ensures Remove(h, ids[i]).Ok?
    ensures Encodes(Remove(h, ids[i]).value, Without(ids, i))
  {
    var w := Without(ids, i);
    var h' := Unlinked(h, ids, i);
    RemoveIsUnlinked(h, ids, i);
    forall j | 0 <= j < |w|
      ensures w[j] in h' && w[j] != Left && w[j] != Right
      ensures h'[w[j]].prev == Some(Before(w, j)) && h'[w[j]].next == Some(After(w, j))
    {
      UnlinkedAt(h, ids, i, j);
    }
    UnlinkedEnds(h, ids, i);
  }

  lemma RemoveIsUnlinked(h: Heap, ids: seq<NodeId>, i: nat)
    requires Encodes(h, ids) && i < |ids|
    ensures Remove(h, ids[i]) == Ok(Unlinked(h, ids, i))
  {
    EncodesNoDups(h, ids);
    assert Before(ids, i) != After(ids, i);
  }

  /** After unlinking, the sentinels point at the new ends of the list. */
  lemma UnlinkedEnds(h: Heap, ids: seq<NodeId>, i: nat)
    requires Encodes(h, ids) && i < |ids|
    ensures var w, h' := Without(ids, i), Unlinked(h, ids, i);
      Linked(h') && h'[Left].next == Some(First(w)) && h'[Right].prev == Some(Last(w))
  {
    var w := Without(ids, i);
    var l, r := Before(ids, i), After(ids, i);
    var h' := Unlinked(h, ids, i);
    EncodesNoDups(h, ids);
    if i == 0 {
      assert h'[Left].next == Some(r);
    } else {
      assert h'[Left] == h[Left];
      assert First(w) == ids[0];
    }
    if i == |ids| - 1 {
      assert h'[Right].prev == Some(l);
    } else {
      assert h'[Right] == h[Right];
      assert Last(w) == ids[|ids| - 1];
    }
    assert Linked(h');
  }

  /** Linking a node that is not listed puts it at the most-recently-used end. */
  lemma InsertEncodes(h: Heap, ids: seq<NodeId>, id: NodeId)
    requires Encodes(h, ids) && id in h && id !in ids && id != Left && id != Right
    ensures Insert(h, id).Ok?
    ensures Encodes(Insert(h, id).value, ids + [id])
  {
    var w := ids + [id];
    var h' := Insert(h, id).value;
    forall j | 0 <= j < |w|
      ensures h'[w[j]].prev == Some(Before(w, j)) && h'[w[j]].next == Some(After(w, j))
    {
      InsertedAt(h, ids, id, j);
    }
  }

  lemma InsertedAt(h: Heap, ids: seq<NodeId>, id: NodeId, j: nat)
    requires Encodes(h, ids) && id in h && id !in ids && id != Left && id != Right && j <= |ids|
    ensures Insert(h, id).Ok?
    ensures var w, h' := ids + [id], Insert(h, id).value;
      h'[w[j]].prev == Some(Before(w, j)) && h'[w[j]].next == Some(After(w, j))
  {
    var w, h' := ids + [id], Insert(h, id).value;
    var pv := Last(ids);
    assert pv != id && pv != Right;
    if j == |ids| {
      assert w[j] == id && Before(w, j) == pv;
      assert h'[id] == h[id].(next := Some(Right), prev := Some(pv));
    } else {
      assert w[j] == ids[j];
      assert Before(w, j) == Before(ids, j) by {
        if j > 0 { assert w[j - 1] == ids[j - 1]; }
      }
      if j == |ids| - 1 {
        assert h'[pv] == h[pv].(next := Some(id));
      } else {
        EncodesNoDups(h, ids);
        assert After(w, j) == After(ids, j) by { assert w[j + 1] == ids[j + 1]; }
        assert h'[ids[j]] == h[ids[j]];
      }
    }
  }

  /** `_remove` followed by `_insert` moves the `i`-th listed node to the
      most-recently-used end and keeps the relative order of the others. */
  lemma MoveToEnd(h: Heap, ids: seq<NodeId>, i: nat)
    requires Encodes(h, ids) && i < |ids|
    ensures Remove(h, ids[i]).Ok?
    ensures Insert(Remove(h, ids[i]).value, ids[i]).Ok?
    ensures Encodes(Insert(Remove(h, ids[i]).value, ids[i]).value, Without(ids, i) + [ids[i]])
  {
    RemoveEncodes(h, ids, i);
    EncodesNoDups(h, ids);
    WithoutMembers(ids, i);
    InsertEncodes(Remove(h, ids[i]).value, Without(ids, i), ids[i]);
  }

  function IndexOf(ids: seq<NodeId>, id: NodeId): (i: nat)
    requires id in ids
    ensures i < |ids| && ids[i] == id
  {
    if ids[0] == id then 0 else 1 + IndexOf(ids[1..], id)
  }

  /** The value the cache associates with `key`. */
  ghost function ValueOf(st: State, key: int): int
    requires Allocated(st) && key in st.cache
  {
    st.heap[st.cache[key]].value
  }

  lemma KeysSamePayload(h: Heap, h': Heap, ids: seq<NodeId>)
    requires forall i :: 0 <= i < |ids| ==> ids[i] in h && ids[i] in h' && h'[ids[i]].key == h[ids[i]].key
    ensures Keys(h', ids) == Keys(h, ids)
  {
  }

  /** `s` with its element at position `i` moved to the end. */
  function ToBack<T>(s: seq<T>, i: nat): (r: seq<T>)
    requires i < |s|
    ensures |r| == |s| && r[|s| - 1] == s[i]
  {
    s[..i] + s[i + 1..] + [s[i]]
  }

  lemma KeysWithout(h: Heap, ids: seq<NodeId>, i: nat)
    requires i < |ids| && forall j :: 0 <= j < |ids| ==> ids[j] in h
    ensures Keys(h, Without(ids, i) + [ids[i]]) == ToBack(Keys(h, ids), i)
  {
    var w := Without(ids, i) + [ids[i]];
    var ks := Keys(h, ids);
    var rhs := ToBack(ks, i);
    forall j | 0 <= j < |w| ensures Keys(h, w)[j] == rhs[j] {
      if j < i { assert w[j] == ids[j]; } else if j < |w| - 1 { assert w[j] == ids[j + 1]; }
    }
  }

  /** A consistent state whose node payloads and dictionary are those of
      another consistent state, listed in the order `ids'`, is consistent. */
  lemma ConsistentRelinked(st: State, ids: seq<NodeId>, st': State, ids': seq<NodeId>)
    requires Consistent(st, ids) && Allocated(st') && Encodes(st'.heap, ids')
    requires SamePayload(st.heap, st'.heap) && st'.cache == st.cache
    requires forall x :: x in ids' <==> x in ids
    ensures Consistent(st', ids')
  {
    forall i | 0 <= i < |ids'|
      ensures st'.heap[ids'[i]].key in st'.cache && st'.cache[st'.heap[ids'[i]].key] == ids'[i]
    {
      var j := IndexOf(ids, ids'[i]);
      assert st.heap[ids[j]].key in st.cache;
    }
  }

  /** `get` on a consistent cache: a missing key answers -1 and changes nothing;
      a present key answers its value and becomes the most recently used, the
      others keeping their relative order. */
  lemma GetSpec(st: State, ids: seq<NodeId>, key: int)
    requires Consistent(st, ids)
    ensures Get(st, key).Ok?
    ensures key !in st.cache ==> Get(st, key).value == (-1, st)
    ensures key in st.cache ==>
      var i, r := IndexOf(ids, st.cache[key]), Get(st, key).value;
      r.0 == ValueOf(st, key) &&
      Consistent(r.1, Without(ids, i) + [ids[i]]) &&
      Keys(r.1.heap, Without(ids, i) + [ids[i]]) == ToBack(Keys(st.heap, ids), i)
  {
    if key in st.cache {
      assert st.cache[key] in ids;
      hide *;
      var i := IndexOf(ids, st.cache[key]);
      GetPresent(st, ids, key);
      MovedIsConsistent(st, ids, i);
      MovedKeys(st.heap, st.heap, ids, i);
    }
  }

  /** The heap after the node at position `i` is moved to the back. */
  function Moved(h: Heap, ids: seq<NodeId>, i: nat): (r: Heap)
    requires Encodes(h, ids) && i < |ids|
    ensures Encodes(r, Without(ids, i) + [ids[i]]) && SamePayload(h, r)
  {
    MoveToEnd(h, ids, i);
    Insert(Remove(h, ids[i]).value, ids[i]).value
  }

  /** Moving a node to the back keeps a consistent state consistent. */
  lemma MovedIsConsistent(st: State, ids: seq<NodeId>, i: nat)
    requires Consistent(st, ids) && i < |ids|
    ensures Consistent(st.(heap := Moved(st.heap, ids, i)), Without(ids, i) + [ids[i]])
  {
    EncodesNoDups(st.heap, ids);
    WithoutMembers(ids, i);
    ConsistentRelinked(st, ids, st.(heap := Moved(st.heap, ids, i)), Without(ids, i) + [ids[i]]);
  }

  /** Moving a node to the back moves its key to the back of the key order,
      also as read through a heap `h` that holds the same keys. */
  lemma MovedKeys(h: Heap, h0: Heap, ids: seq<NodeId>, i: nat)
    requires Encodes(h0, ids) && i < |ids|
    requires forall j :: 0 <= j < |ids| ==> ids[j] in h && h[ids[j]].key == h0[ids[j]].key
    ensures Keys(Moved(h0, ids, i), Without(ids, i) + [ids[i]]) == ToBack(Keys(h, ids), i)
  {
    var ids', h2 := Without(ids, i) + [ids[i]], Moved(h0, ids, i);
    KeysSamePayload(h0, h2, ids');
    KeysWithout(h0, ids, i);
    KeysSamePayload(h, h0, ids);
  }

  /** `get` of a present key answers its node's value and moves that node
      to the back of the list. */
  lemma GetPresent(st: State, ids: seq<NodeId>, key: int)
    requires Consistent(st, ids) && key in st.cache
    ensures var i := IndexOf(ids, st.cache[key]);
      Get(st, key) == Ok((ValueOf(st, key), st.(heap := Moved(st.heap, ids, i))))
  {
    var i := IndexOf(ids, st.cache[key]);
    MoveToEnd(st.heap, ids, i);
  }

  /** Every node of `h` is in `h'` with the same pointers. */
  ghost predicate SameLinks(h: Heap, h': Heap) {
    forall id :: id in h ==> id in h' && h'[id].prev == h[id].prev && h'[id].next == h[id].next
  }

  /** Every node of `h` is in `h'` with the same key. */
  ghost predicate SameKeys(h: Heap, h': Heap) {
    forall id :: id in h ==> id in h' && h'[id].key == h[id].key
  }

  lemma EncodesSameLinks(h: Heap, h': Heap, ids: seq<NodeId>)
    requires Encodes(h, ids) && Linked(h') && SameLinks(h, h')
    ensures Encodes(h', ids)
  {
    forall i | 0 <= i < |ids|
      ensures h'[ids[i]].prev == Some(Before(ids, i)) && h'[ids[i]].next == Some(After(ids, i))
    {
      assert ids[i] in h;
    }
  }

  lemma CacheSameKeys(st: State, ids: seq<NodeId>, h': Heap)
    requires Consistent(st, ids) && SameKeys(st.heap, h')
    ensures forall k :: k in st.cache ==> st.cache[k] in ids && h'[st.cache[k]].key == k
    ensures forall i :: 0 <= i < |ids| ==> h'[ids[i]].key in st.cache && st.cache[h'[ids[i]].key] == ids[i]
  {
    forall i | 0 <= i < |ids|
      ensures h'[ids[i]].key in st.cache && st.cache[h'[ids[i]].key] == ids[i]
    {
      assert ids[i] in st.heap;
    }
  }

  lemma LinkedSameLinks(h: Heap, h': Heap)
    requires Linked(h) && SameLinks(h, h') && h'.Keys == h.Keys
    ensures Linked(h')
  {
    forall x | x in h'
      ensures (h'[x].prev.Some? ==> h'[x].prev.value in h') && (h'[x].next.Some? ==> h'[x].next.value in h')
    {
      assert x in h;
    }
  }

  /** A state with the same nodes, dictionary and allocator, still linked, keeps
      the structural invariant. */
  lemma AllocatedSameShape(st: State, st': State)
    requires Allocated(st) && Linked(st'.heap) && st'.heap.Keys == st.heap.Keys
    requires st'.cache == st.cache && st'.nextId == st.nextId
    ensures Allocated(st')
  {
  }

  /** Overwriting one node's value keeps every pointer and key. */
  lemma SetValueShape(h: Heap, id: NodeId, value: int)
    requires id in h
    ensures var h' := h[id := h[id].(value := value)];
      h'.Keys == h.Keys && SameLinks(h, h') && SameKeys(h, h')
  {
  }

  /** Overwriting a listed node's value keeps the cache consistent. */
  lemma ConsistentSetValue(st: State, ids: seq<NodeId>, id: NodeId, value: int)
    requires Consistent(st, ids) && id in ids
    ensures Consistent(st.(heap := st.heap[id := st.heap[id].(value := value)]), ids)
  {
    var h := st.heap;
    var h' := h[id := h[id].(value := value)];
    SetValueLinks(st, ids, id, value);
    SetValueShape(h, id, value);
    CacheSameKeys(st, ids, h');
  }

  /** Overwriting a listed node's value keeps the structural invariant and the
      list. */
  lemma SetValueLinks(st: State, ids: seq<NodeId>, id: NodeId, value: int)
    requires Allocated(st) && Encodes(st.heap, ids) && id in st.heap
    ensures var h' := st.heap[id := st.heap[id].(value := value)];
      Allocated(st.(heap := h')) && Encodes(h', ids)
  {
    var h := st.heap;
    var h' := h[id := h[id].(value := value)];
    SetValueShape(h, id, value);
    LinkedSameLinks(h, h');
    AllocatedSameShape(st, st.(heap := h'));
    EncodesSameLinks(h, h', ids);
  }

  lemma SamePayloadTrans(h0: Heap, h1: Heap, h2: Heap)
    requires SamePayload(h0, h1) && SamePayload(h1, h2)
    ensures SamePayload(h0, h2)
  {
  }

  /** `put` of a present key on a consistent cache: the key now holds the new
      value and is the most recently used; every other key keeps its value. */
  lemma PutPresentSpec(st: State, ids: seq<NodeId>, key: int, value: int)
    requires Consistent(st, ids) && key in st.cache
    ensures PutPresent(st, key, value).Ok?
    ensures var i, st' := IndexOf(ids, st.cache[key]), PutPresent(st, key, value).value;
      Consistent(st', Without(ids, i) + [ids[i]]) &&
      ValueOf(st', key) == value &&
      forall k :: k in st.cache && k != key ==> ValueOf(st', k) == ValueOf(st, k)
  {
    assert st.cache[key] in ids && st.cache[key] in st.heap;
    hide *;
    var i := IndexOf(ids, st.cache[key]);
    var st0 := st.(heap := st.heap[ids[i] := st.heap[ids[i]].(value := value)]);
    PutPresentMoves(st, ids, key, value);
    Overwritten(st, ids, key, value);
    MovedIsConsistent(st0, ids, i);
    ValuesAfterSet(st, st0.(heap := Moved(st0.heap, ids, i)), key, value);
  }

  /** `put` of a present key moves the key to the back of the key order, the
      other keys keeping their relative order. */
  lemma PutPresentKeys(st: State, ids: seq<NodeId>, key: int, value: int)
    requires Consistent(st, ids) && key in st.cache
    ensures PutPresent(st, key, value).Ok?
    ensures var i, st' := IndexOf(ids, st.cache[key]), PutPresent(st, key, value).value;
      Encodes(st'.heap, Without(ids, i) + [ids[i]]) &&
      Keys(st'.heap, Without(ids, i) + [ids[i]]) == ToBack(Keys(st.heap, ids), i)
  {
    assert st.cache[key] in ids && st.cache[key] in st.heap;
    hide *;
    var i := IndexOf(ids, st.cache[key]);
    var st0 := st.(heap := st.heap[ids[i] := st.heap[ids[i]].(value := value)]);
    PutPresentMoves(st, ids, key, value);
    Overwritten(st, ids, key, value);
    MovedKeys(st.heap, st0.heap, ids, i);
  }

  /** Overwriting the value of `key`'s node keeps the cache consistent and
      every key in place. */
  lemma Overwritten(st: State, ids: seq<NodeId>, key: int, value: int)
    requires Consistent(st, ids) && key in st.cache
    ensures var i := IndexOf(ids, st.cache[key]);
      var st0 := st.(heap := st.heap[ids[i] := st.heap[ids[i]].(value := value)]);
      Consistent(st0, ids) && Encodes(st0.heap, ids) && st0.heap[ids[i]].key == key &&
      forall j :: 0 <= j < |ids| ==> ids[j] in st.heap && st.heap[ids[j]].key == st0.heap[ids[j]].key
  {
    var i := IndexOf(ids, st.cache[key]);
    var id := ids[i];
    var st0 := st.(heap := st.heap[id := st.heap[id].(value := value)]);
    ConsistentSetValue(st, ids, id, value);
    SetValueShape(st.heap, id, value);
  }

  /** `put` of a present key overwrites the value of the key's node and then
      moves that node to the back of the list. */
  lemma PutPresentMoves(st: State, ids: seq<NodeId>, key: int, value: int)
    requires Consistent(st, ids) && key in st.cache
    ensures var i := IndexOf(ids, st.cache[key]);
      var h0 := st.heap[ids[i] := st.heap[ids[i]].(value := value)];
      Encodes(h0, ids) && PutPresent(st, key, value) == Ok(st.(heap := Moved(h0, ids, i)))
  {
    var i := IndexOf(ids, st.cache[key]);
    var h0 := st.heap[ids[i] := st.heap[ids[i]].(value := value)];
    SetValueShape(st.heap, ids[i], value);
    LinkedSameLinks(st.heap, h0);
    EncodesSameLinks(st.heap, h0, ids);
    MoveToEnd(h0, ids, i);
  }

  /** A state whose payloads are those of `st` with the value of `key`'s node
      overwritten answers the new value for `key` and the old one elsewhere. */
  lemma ValuesAfterSet(st: State, st': State, key: int, value: int)
    requires Allocated(st) && Allocated(st') && st'.cache == st.cache && key in st.cache
    requires forall k :: k in st.cache ==> st.heap[st.cache[k]].key == k
    requires SamePayload(st.heap[st.cache[key] := st.heap[st.cache[key]].(value := value)], st'.heap)
    ensures ValueOf(st', key) == value
    ensures forall k :: k in st.cache && k != key ==> ValueOf(st', k) == ValueOf(st, k)
  {
    var id := st.cache[key];
    forall k | k in st.cache && k != key ensures ValueOf(st', k) == ValueOf(st, k) {
      var c := st.cache[k];
      assert c != id;
    }
  }

  /** The new node `put` allocates, recorded but not yet linked. */
  lemma ConsistentAllocate(st: State, ids: seq<NodeId>, key: int, value: int)
    requires Consistent(st, ids) && key !in st.cache
    ensures var n := st.nextId;
      var h0 := st.heap[n := Node(key, value, None, None)];
      n !in ids && n != Left && n != Right && Linked(h0) && Encodes(h0, ids) &&
      Consistent(State(Insert(h0, n).value, st.cache[key := n], st.nextId + 1, st.capacity), ids + [n])
  {
    AllocateEncodes(st, ids, key, value);
    var n := st.nextId;
    var h0 := st.heap[n := Node(key, value, None, None)];
    InsertEncodes(h0, ids, n);
    AllocateLinked(st, ids, key, value, Insert(h0, n).value);
  }

  /** Adding the fresh node leaves the listed nodes as they were. */
  lemma AllocateEncodes(st: State, ids: seq<NodeId>, key: int, value: int)
    requires Consistent(st, ids)
    ensures var n := st.nextId;
      var h0 := st.heap[n := Node(key, value, None, None)];
      n !in st.heap && n !in ids && n != Left && n != Right && Linked(h0) && Encodes(h0, ids)
  {
    var h, n := st.heap, st.nextId;
    assert n !in h;
    assert n !in ids;
    var h0 := h[n := Node(key, value, None, None)];
    assert Linked(h0) by {
      forall x | x in h0
        ensures (h0[x].prev.Some? ==> h0[x].prev.value in h0) && (h0[x].next.Some? ==> h0[x].next.value in h0)
      {
        if x != n { assert h0[x] == h[x]; }
      }
    }
    forall i | 0 <= i < |ids|
      ensures h0[ids[i]].prev == Some(Before(ids, i)) && h0[ids[i]].next == Some(After(ids, i))
    {
      assert h0[ids[i]] == h[ids[i]];
    }
    assert h0[Left] == h[Left] && h0[Right] == h[Right];
  }

  /** Once the fresh node is linked at the back and recorded under `key`, the
      state is consistent with the node appended to the list. */
  lemma AllocateLinked(st: State, ids: seq<NodeId>, key: int, value: int, h1: Heap)
    requires Consistent(st, ids) && key !in st.cache && st.nextId !in st.heap
    requires Encodes(h1, ids + [st.nextId])
    requires SamePayload(st.heap[st.nextId := Node(key, value, None, None)], h1)
    ensures Consistent(State(h1, st.cache[key := st.nextId], st.nextId + 1, st.capacity), ids + [st.nextId])
  {
    var h, n := st.heap, st.nextId;
    var h0 := h[n := Node(key, value, None, None)];
    var c0 := st.cache[key := n];
    var st1 := State(h1, c0, n + 1, st.capacity);
    assert Allocated(st1) by {
      forall k | k in c0 ensures c0[k] in h1 && c0[k] != Left && c0[k] != Right {
        if k != key { assert c0[k] == st.cache[k]; }
      }
    }
    var l := ids + [n];
    forall k | k in c0 ensures c0[k] in l && h1[c0[k]].key == k {
      if k != key {
        assert h1[st.cache[k]].key == h[st.cache[k]].key;
      }
    }
    forall i | 0 <= i < |l|
      ensures h1[l[i]].key in c0 && c0[h1[l[i]].key] == l[i]
    {
      if i < |ids| {
        assert l[i] == ids[i];
        assert h1[ids[i]].key == h[ids[i]].key;
        assert h[ids[i]].key in st.cache;
      } else {
        assert l[i] == n && h1[n].key == h0[n].key;
      }
    }
  }

  lemma ValuesKept(h: Heap, cache: map<int, NodeId>, n: NodeId, node: Node, h': Heap)
    requires forall k :: k in cache ==> cache[k] in h && cache[k] != n
    requires SamePayload(h[n := node], h')
    ensures forall k :: k in cache ==> h'[cache[k]].value == h[cache[k]].value
  {
    forall k | k in cache ensures h'[cache[k]].value == h[cache[k]].value {
      assert h'[cache[k]].value == h[n := node][cache[k]].value;
    }
  }

  lemma KeysAfterAllocate(h: Heap, ids: seq<NodeId>, n: NodeId, node: Node, h': Heap)
    requires forall i :: 0 <= i < |ids| ==> ids[i] in h && ids[i] != n
    requires SamePayload(h[n := node], h')
    ensures Keys(h', ids + [n]) == Keys(h, ids) + [node.key]
  {
    assert (ids + [n])[..|ids|] == ids;
    forall i | 0 <= i < |ids| ensures h'[ids[i]].key == h[ids[i]].key {
      assert h'[ids[i]].key == h[n := node][ids[i]].key;
    }
    KeysSamePayload(h, h', ids);
  }

  /** `put` of a new key that still fits: it is appended as the most recently
      used, with its value, and every other key keeps its value. */
  lemma PutAbsentSpec(st: State, ids: seq<NodeId>, key: int, value: int, fixed: bool)
    requires Consistent(st, ids) && key !in st.cache && |st.cache| + 1 <= st.capacity
    ensures PutAbsent(st, key, value, fixed).Ok?
    ensures var st' := PutAbsent(st, key, value, fixed).value;
      Consistent(st', ids + [st.nextId]) &&
      Keys(st'.heap, ids + [st.nextId]) == Keys(st.heap, ids) + [key] &&
      ValueOf(st', key) == value &&
      forall k :: k in st.cache ==> ValueOf(st', k) == ValueOf(st, k)
  {
    ConsistentAllocate(st, ids, key, value);
    var n := st.nextId;
    var h0 := st.heap[n := Node(key, value, None, None)];
    var c0 := st.cache[key := n];
    assert |c0| == |st.cache| + 1;
    PutAbsentFits(st, key, value, fixed);
    var st' := PutAbsent(st, key, value, fixed).value;
    hide PutAbsent;
    ValuesKept(st.heap, st.cache, n, Node(key, value, None, None), st'.heap);
    KeysAfterAllocate(st.heap, ids, n, Node(key, value, None, None), st'.heap);
  }

  /** A new key that fits is linked in and recorded, with no eviction. */
  lemma PutAbsentFits(st: State, key: int, value: int, fixed: bool)
    requires Allocated(st) && key !in st.cache && |st.cache| + 1 <= st.capacity
    requires Insert(st.heap[st.nextId := Node(key, value, None, None)], st.nextId).Ok?
    ensures PutAbsent(st, key, value, fixed) ==
      Ok(State(Insert(st.heap[st.nextId := Node(key, value, None, None)], st.nextId).value,
               st.cache[key := st.nextId], st.nextId + 1, st.capacity))
  {
    assert |st.cache[key := st.nextId]| == |st.cache| + 1;
  }

  lemma ListedAfterPop(h: Heap, cache: map<int, NodeId>, h': Heap, ids: seq<NodeId>)
    requires |ids| > 0 && Encodes(h, ids) && SamePayload(h, h')
    requires forall i :: 0 <= i < |ids| ==> ids[i] in h && h[ids[i]].key in cache && cache[h[ids[i]].key] == ids[i]
    ensures var c', w := cache - {h[ids[0]].key}, ids[1..];
      forall j :: 0 <= j < |w| ==> h'[w[j]].key in c' && c'[h'[w[j]].key] == w[j]
  {
    var c', w := cache - {h[ids[0]].key}, ids[1..];
    EncodesNoDups(h, ids);
    forall j | 0 <= j < |w| ensures h'[w[j]].key in c' && c'[h'[w[j]].key] == w[j] {
      assert w[j] == ids[j + 1];
      assert ids[0] != ids[j + 1];
    }
  }

  /** The corrected eviction step on a consistent, non-empty list: the oldest
      node is unlinked and its own key leaves the dictionary. */
  lemma EvictOldestSpec(st: State, ids: seq<NodeId>)
    requires Consistent(st, ids) && |ids| > 0
    ensures EvictOldest(st.heap, st.cache).Ok?
    ensures var (h', c') := EvictOldest(st.heap, st.cache).value;
      c' == st.cache - {st.heap[ids[0]].key} && Consistent(State(h', c', st.nextId, st.capacity), ids[1..])
  {
    RemoveEncodes(st.heap, ids, 0);
    assert Without(ids, 0) == ids[1..];
    var h' := Remove(st.heap, ids[0]).value;
    var k := st.heap[ids[0]].key;
    assert h'[ids[0]].key == k;
    var c' := st.cache - {k};
    assert EvictOldest(st.heap, st.cache) == Ok((h', c'));
    var st' := State(h', c', st.nextId, st.capacity);
    var w := ids[1..];
    ListedAfterPop(st.heap, st.cache, h', ids);
    forall x | x in c' ensures c'[x] in w && h'[c'[x]].key == x {
      var id := st.cache[x];
      var i := IndexOf(ids, id);
      assert i != 0;
      assert id == w[i - 1];
      assert h'[id].key == st.heap[id].key;
    }
  }

  /** The corrected `put` of a new key into a full consistent cache: the new
      node joins the list, and the least recently used node leaves it together
      with its key. */
  lemma PutFixedEvicts(st: State, ids: seq<NodeId>, key: int, value: int)
    requires Consistent(st, ids) && key !in st.cache && |st.cache| + 1 > st.capacity
    ensures PutAbsent(st, key, value, true).Ok?
    ensures var l, st' := ids + [st.nextId], PutAbsent(st, key, value, true).value;
      Consistent(st', l[1..]) &&
      st'.cache == st.cache[key := st.nextId] - {if |ids| == 0 then key else st.heap[ids[0]].key}
  {
    ConsistentAllocate(st, ids, key, value);
    var n := st.nextId;
    var l := ids + [n];
    var h1 := Insert(st.heap[n := Node(key, value, None, None)], n).value;
    var st1 := State(h1, st.cache[key := n], n + 1, st.capacity);
    EvictOldestSpec(st1, l);
    assert h1[l[0]].key == (if |ids| == 0 then key else st.heap[ids[0]].key);
    assert Allocated(st);
    hide *;
    PutAbsentOverflow(st, key, value, true);
  }

  /** `put` of a new key that outgrows the capacity links the new node at the
      back and then runs the eviction step on the grown dictionary. */
  lemma PutAbsentOverflow(st: State, key: int, value: int, fixed: bool)
    requires Allocated(st) && key !in st.cache && |st.cache| + 1 > st.capacity
    requires Linked(st.heap[st.nextId := Node(key, value, None, None)])
    ensures var n := st.nextId;
      var h0 := st.heap[n := Node(key, value, None, None)];
      Insert(h0, n).Ok? ==>
      var h1, c0 := Insert(h0, n).value, st.cache[key := n];
      var e := if fixed then EvictOldest(h1, c0) else EvictAsWritten(h1, c0);
      e.Ok? ==> PutAbsent(st, key, value, fixed) == Ok(State(e.value.0, e.value.1, n + 1, st.capacity))
  {
    assert |st.cache[key := st.nextId]| == |st.cache| + 1;
    hide Insert, EvictOldest, EvictAsWritten, Linked, Allocated;
  }

  /** The eviction step as written, on a consistent list of at least two nodes:
      the oldest node is unlinked but the key popped is the second node's, so
      the dictionary keeps a key whose node has left the list and loses a key
      whose node is still listed. */
  lemma EvictAsWrittenSpec(st: State, ids: seq<NodeId>)
    requires Consistent(st, ids) && |ids| >= 2
    ensures EvictAsWritten(st.heap, st.cache).Ok?
    ensures var (h', c') := EvictAsWritten(st.heap, st.cache).value;
      var stale, lost := st.heap[ids[0]].key, st.heap[ids[1]].key;
      Encodes(h', ids[1..]) && c' == st.cache - {lost} &&
      stale in c' && c'[stale] == ids[0] && ids[0] !in ids[1..] &&
      lost !in c' && ids[1] in ids[1..]
  {
    EvictAsWrittenPops(st.heap, st.cache, ids);
    FirstNotInRest(st.heap, ids);
    assert st.cache[st.heap[ids[0]].key] == ids[0] && st.cache[st.heap[ids[1]].key] == ids[1];
  }

  /** On a list of at least two nodes the eviction step as written unlinks the
      first node and pops the second node's key. */
  lemma EvictAsWrittenPops(h: Heap, cache: map<int, NodeId>, ids: seq<NodeId>)
    requires Encodes(h, ids) && |ids| >= 2 && h[ids[1]].key in cache
    ensures Remove(h, ids[0]).Ok? && Encodes(Remove(h, ids[0]).value, ids[1..])
    ensures EvictAsWritten(h, cache) == Ok((Remove(h, ids[0]).value, cache - {h[ids[1]].key}))
  {
    RemoveEncodes(h, ids, 0);
    assert Without(ids, 0) == ids[1..];
    var h' := Remove(h, ids[0]).value;
    assert h'[Left].next == Some(ids[1]);
    assert h'[ids[1]].key == h[ids[1]].key;
  }

  /** The oldest listed node is not listed again further on. */
  lemma FirstNotInRest(h: Heap, ids: seq<NodeId>)
    requires Encodes(h, ids) && |ids| >= 2
    ensures ids[0] != ids[1] && ids[0] !in ids[1..]
  {
    EncodesNoDups(h, ids);
    forall j | 0 <= j < |ids| - 1 ensures ids[1..][j] != ids[0] {
      assert ids[1..][j] == ids[j + 1];
    }
  }

  /** `put` of a new key into a full consistent cache, as written: the new node
      is linked and the oldest node unlinked, but the dictionary still maps the
      oldest node's key to it and no longer holds the key of the node that is
      now least recently used. */
  lemma PutEvictsWrongKey(st: State, ids: seq<NodeId>, key: int, value: int)
    requires Consistent(st, ids) && key !in st.cache && |st.cache| + 1 > st.capacity && |ids| >= 1
    ensures Put(st, key, value).Ok?
    ensures Encodes(Put(st, key, value).value.heap, (ids + [st.nextId])[1..])
    ensures var l, st' := ids + [st.nextId], Put(st, key, value).value;
      var stale, lost := st.heap[ids[0]].key, st'.heap[l[1]].key;
      stale in st'.cache && st'.cache[stale] == ids[0] && ids[0] !in l[1..] &&
      lost !in st'.cache && l[1] in l[1..]
  {
    ConsistentAllocate(st, ids, key, value);
    var n := st.nextId;
    var l := ids + [n];
    var h1 := Insert(st.heap[n := Node(key, value, None, None)], n).value;
    var st1 := State(h1, st.cache[key := n], n + 1, st.capacity);
    EvictAsWrittenSpec(st1, l);
    assert h1[l[0]].key == st.heap[ids[0]].key;
    assert Put(st, key, value) == PutAbsent(st, key, value, false);
    PutAbsentOverflow(st, key, value, false);
    assert Put(st, key, value).value.heap[l[1]].key == h1[l[1]].key;
    hide *;
  }

  /** A consistent state with no linked nodes has an empty dictionary. */
  lemma NoIdsNoKeys(st: State, ids: seq<NodeId>)
    requires Consistent(st, ids)
    ensures ids == [] ==> |st.cache| == 0
  {
    if ids == [] {
      assert forall k :: k !in st.cache.Keys;
      assert st.cache.Keys == {};
    }
  }

  /** The node a `put` of a new key allocates carries the key and value given. */
  lemma NewValueStored(st: State, key: int, value: int, fixed: bool)
    requires Allocated(st) && key !in st.cache
    requires PutAbsent(st, key, value, fixed).Ok?
    ensures var st' := PutAbsent(st, key, value, fixed).value;
      st.nextId in st'.heap && st'.heap[st.nextId].key == key && st'.heap[st.nextId].value == value
  {
    var n := st.nextId;
    var h0 := st.heap[n := Node(key, value, None, None)];
    var h1 := Insert(h0, n).value;
    assert h1[n].value == value && h1[n].key == key;
    if |st.cache[key := n]| > st.capacity {
      var e := if fixed then EvictOldest(h1, st.cache[key := n]) else EvictAsWritten(h1, st.cache[key := n]);
      assert e.value.0[n].value == value && e.value.0[n].key == key;
    }
  }

  /** With the corrected eviction, a `get` right after `put` answers the value
      just stored, whether or not the `put` evicted, as long as the capacity is
      at least one. */
  lemma PutFixedThenGet(st: State, ids: seq<NodeId>, key: int, value: int)
    requires Consistent(st, ids) && |st.cache| <= st.capacity && st.capacity >= 1
    ensures PutFixed(st, key, value).Ok?
    ensures Get(PutFixed(st, key, value).value, key).Ok?
    ensures Get(PutFixed(st, key, value).value, key).value.0 == value
  {
    if key in st.cache {
      PutPresentSpec(st, ids, key, value);
      var i := IndexOf(ids, st.cache[key]);
      GetSpec(PutFixed(st, key, value).value, Without(ids, i) + [ids[i]], key);
    } else if |st.cache| + 1 <= st.capacity {
      PutAbsentSpec(st, ids, key, value, true);
      GetSpec(PutFixed(st, key, value).value, ids + [st.nextId], key);
    } else {
      PutFixedEvicts(st, ids, key, value);
      NoIdsNoKeys(st, ids);
      var l := ids + [st.nextId];
      assert |ids| > 0;
      assert ids[0] != st.nextId;
      assert st.heap[ids[0]].key != key;
      assert PutFixed(st, key, value) == PutAbsent(st, key, value, true);
      var st' := PutFixed(st, key, value).value;
      var c0, old0 := st.cache[key := st.nextId], st.heap[ids[0]].key;
      assert st'.cache == c0 - {old0};
      assert key in c0 && key != old0 && c0[key] == st.nextId;
      assert key in st'.cache && st'.cache[key] == st.nextId;
      NewValueStored(st, key, value, true);
      GetSpec(st', l[1..], key);
    }
  }

  /** Because the sentinels and the dictionary are class attributes, a second
      cache answers a key that was only ever put into the first one. */
  lemma SharedAcrossInstances()
    ensures var a := NewCache(ClassState(), 2);
      var a1 := Put(a, 1, 10);
      a1.Ok? && Get(NewCache(a1.value, 2), 1).Ok? && Get(NewCache(a1.value, 2), 1).value.0 == 10
  {
  }

  /** With capacity 0 the eviction step reads the right sentinel's key and
      `pop` raises `KeyError`; by then the new key is already in the shared
      dictionary and its node is allocated, so a cache built afterwards
      answers it. */
  lemma ZeroCapacityPutRaises()
    ensures var a := Put(NewCache(ClassState(), 0), 1, 1);
      a.Err? && a.error.error == KeyError && 1 in a.error.state.cache &&
      Get(NewCache(a.error.state, 2), 1).Ok? && Get(NewCache(a.error.state, 2), 1).value.0 == 1
  {
  }

  /** The evidently intended construction: each cache gets sentinels and a
      dictionary of its own. */
  function FreshCache(capacity: int): (r: State)
    ensures Consistent(r, [])
  {
    NewCache(ClassState(), capacity)
  }

  /** A cache with state of its own starts empty: every key answers -1,
      whatever was put into another cache, and the same key put into the
      first cache of `SharedAcrossInstances` is unknown here. */
  lemma FreshInstanceEmpty(capacity: int, key: int)
    ensures Get(FreshCache(capacity), key) == Ok((-1, FreshCache(capacity)))
  {
  }
}
