/** `GraphAdjacencyList` and `DirectedGraphAdjacencyList` of
    my_data_structures/graph_adjacency_list.py: a map from each vertex to the
    set of its neighbours. Edges are pairs; the edge collection is walked in
    the order given. */
module Graph {
  import opened Results

  type Adj = map<int, set<int>>

  datatype Error = KeyError

  /** The vertices with empty neighbour sets (lines 6-8 and 78-80). */
  function NoEdges(vs: set<int>): (r: Adj)
    ensures r.Keys == vs && forall v :: v in r ==> r[v] == {}
  {
    map v | v in vs :: {}
  }

  /** Adding `w` to the set of `v`, which must be present. */
  function Link(adj: Adj, v: int, w: int): Adj
    requires v in adj
  {
    adj[v := adj[v] + {w}]
  }

  /** The construction loop (lines 10-14, resp. 82-86): each edge adds its
      directions; an endpoint that is not a listed vertex raises. */
  function AddEdges(adj: Adj, es: seq<(int, int)>, directed: bool): (r: Result<Adj, Error>)
    ensures r.Ok? ==> r.value.Keys == adj.Keys
    decreases |es|
  {
    if es == [] then Ok(adj)
    else
      var (v1, v2) := es[0];
      if v1 !in adj then Err(KeyError)
      else
        var a1 := Link(adj, v1, v2);
        if directed then AddEdges(a1, es[1..], directed)
        else if v2 !in a1 then Err(KeyError)
        else AddEdges(Link(a1, v2, v1), es[1..], directed)
  }

  /** `construct` (lines 5-16 for the undirected graph, 77-88 for the
      directed one). */
  function Construct(vs: set<int>, es: seq<(int, int)>, directed: bool): (r: Result<Adj, Error>)
    ensures r.Ok? ==> r.value.Keys == vs
  {
    AddEdges(NoEdges(vs), es, directed)
  }

  /** The neighbours edge list `es` gives `v`: the heads of its edges out of
      `v`, and when undirected also the tails of its edges into `v`. */
  predicate Adjacent(es: seq<(int, int)>, v: int, w: int, directed: bool) {
    (v, w) in es || (!directed && (w, v) in es)
  }

  predicate Endpoints(es: seq<(int, int)>, vs: set<int>, directed: bool) {
    forall i :: 0 <= i < |es| ==> es[i].0 in vs && (directed || es[i].1 in vs)
  }

  /** The construction loop succeeds exactly when every endpoint it touches
      is a vertex, and then adds to each set exactly the neighbours the edges
      give. */
  lemma {:induction false} AddEdgesSpec(adj: Adj, es: seq<(int, int)>, directed: bool)
    ensures AddEdges(adj, es, directed).Ok? <==> Endpoints(es, adj.Keys, directed)
    ensures AddEdges(adj, es, directed).Ok? ==> forall v, w :: v in adj ==>
      (w in AddEdges(adj, es, directed).value[v] <==> w in adj[v] || Adjacent(es, v, w, directed))
    decreases |es|
  {
    if es != [] {
      var (v1, v2) := es[0];
      if v1 in adj {
        var a1 := Link(adj, v1, v2);
        var a2 := if directed then a1 else if v2 in a1 then Link(a1, v2, v1) else a1;
        AddEdgesSpec(a2, es[1..], directed);
        assert es == [es[0]] + es[1..];
        if !directed && v2 !in a1 {
          assert !Endpoints(es, adj.Keys, directed);
        } else {
          assert Endpoints(es, adj.Keys, directed) <==> Endpoints(es[1..], a2.Keys, directed) by {
            if Endpoints(es[1..], a2.Keys, directed) {
              forall i | 0 <= i < |es| ensures es[i].0 in adj.Keys && (directed || es[i].1 in adj.Keys) {
                if i > 0 { assert es[i] == es[1..][i - 1]; }
              }
            }
          }
          forall v, w | v in adj
            ensures AddEdges(a2, es[1..], directed).Ok? ==>
              (w in AddEdges(adj, es, directed).value[v] <==> w in adj[v] || Adjacent(es, v, w, directed))
          {
            assert (v, w) in es <==> (v, w) == es[0] || (v, w) in es[1..];
            assert (w, v) in es <==> (w, v) == es[0] || (w, v) in es[1..];
          }
        }
      } else {
        assert !Endpoints(es, adj.Keys, directed) by { assert es[0].0 !in adj.Keys; }
      }
    }
  }

  /** Every neighbour set in an undirected graph is mirrored. */
  predicate Symmetric(adj: Adj) {
    forall v, w :: v in adj && w in adj[v] ==> w in adj && v in adj[w]
  }

  /** The undirected construction is symmetric. */
  lemma ConstructSymmetric(vs: set<int>, es: seq<(int, int)>)
    requires Construct(vs, es, false).Ok?
    ensures Symmetric(Construct(vs, es, false).value)
  {
    AddEdgesSpec(NoEdges(vs), es, false);
    var g := Construct(vs, es, false).value;
    forall v, w | v in g && w in g[v] ensures w in g && v in g[w] {
      assert Adjacent(es, v, w, false);
      var i :| 0 <= i < |es| && (es[i] == (v, w) || es[i] == (w, v));
      assert w in vs;
      assert Adjacent(es, w, v, false);
    }
  }

  /** `insert_edge` (lines 18-30 and 90-102): missing endpoints become
      vertices with empty sets, then the edge is added. */
  function InsertEdge(adj: Adj, e: (int, int), directed: bool): (r: Adj)
    ensures r.Keys == adj.Keys + {e.0, e.1}
    ensures r[e.0] == (if e.0 in adj then adj[e.0] else {}) + {e.1}
    ensures !directed ==> r[e.1] == (if e.1 in adj then adj[e.1] else {}) + {e.0}
    ensures forall v :: v in adj && v != e.0 && (directed || v != e.1) ==> r[v] == adj[v]
    ensures directed && e.1 != e.0 ==> r[e.1] == (if e.1 in adj then adj[e.1] else {})
  {
    var (v1, v2) := e;
    var a1 := if v1 in adj then adj else adj[v1 := {}];
    var a2 := if v2 in a1 then a1 else a1[v2 := {}];
    var a3 := Link(a2, v1, v2);
    if directed then a3 else Link(a3, v2, v1)
  }

  /** `delete_edge` (lines 32-43 and 104-115): nothing happens when an
      endpoint is not a vertex; otherwise the edge is discarded, absent or
      not. */
  function DeleteEdge(adj: Adj, e: (int, int), directed: bool): (r: Adj)
    ensures r.Keys == adj.Keys
    ensures e.0 !in adj || e.1 !in adj ==> r == adj
    ensures e.0 in adj && e.1 in adj ==> r[e.0] == adj[e.0] - {e.1}
    ensures e.0 in adj && e.1 in adj && !directed ==> r[e.1] == adj[e.1] - {e.0}
    ensures forall v :: v in adj && v != e.0 && (directed || v != e.1) ==> r[v] == adj[v]
    ensures directed && e.1 != e.0 && e.1 in adj ==> r[e.1] == adj[e.1]
  {
    var (v1, v2) := e;
    if v1 !in adj || v2 !in adj then adj
    else
      var a1 := adj[v1 := adj[v1] - {v2}];
      if directed then a1 else a1[v2 := a1[v2] - {v1}]
  }

  /** Inserting and deleting edges keeps an undirected graph symmetric. */
  lemma InsertKeepsSymmetric(adj: Adj, e: (int, int))
    requires Symmetric(adj)
    ensures Symmetric(InsertEdge(adj, e, false))
  {
  }

  lemma DeleteKeepsSymmetric(adj: Adj, e: (int, int))
    requires Symmetric(adj)
    ensures Symmetric(DeleteEdge(adj, e, false))
  {
  }

  /** In the directed graph an insertion adds only the edge from the first
      endpoint to the second, and a deletion removes only that one. */
  lemma DirectedChangesOneEdge(adj: Adj, e: (int, int), v: int, w: int)
    requires v in adj && (v, w) != e
    ensures w in InsertEdge(adj, e, true)[v] <==> w in adj[v]
    ensures w in DeleteEdge(adj, e, true)[v] <==> w in adj[v]
  {
  }

  /** Deleting an edge just inserted between two existing vertices that were
      not adjacent restores the graph. */
  lemma InsertThenDelete(adj: Adj, e: (int, int), directed: bool)
    requires e.0 in adj && e.1 in adj && e.0 != e.1
    requires e.1 !in adj[e.0] && (directed || e.0 !in adj[e.1])
    ensures DeleteEdge(InsertEdge(adj, e, directed), e, directed) == adj
  {
    var r := DeleteEdge(InsertEdge(adj, e, directed), e, directed);
    assert r.Keys == adj.Keys;
    assert r[e.0] == adj[e.0];
    assert forall v :: v in adj ==> r[v] == adj[v];
  }

  /** An adjacency walked in a fixed order. Python iterates a neighbour set
      in an order the model does not fix, so the searches take each set as a
      sequence; `Lists` says the sequences list exactly the sets. */
  type Ordered = map<int, seq<int>>

  predicate Lists(g: Ordered, adj: Adj) {
    g.Keys == adj.Keys && forall v :: v in g ==> (set w | w in g[v]) == adj[v]
  }

  /** Every vertex named by the adjacency: the keys and their neighbours. */
  function Nodes(g: Ordered): (r: set<int>)
    ensures forall v :: v in g ==> v in r && forall i :: 0 <= i < |g[v]| ==> g[v][i] in r
  {
    g.Keys + (set v, i | v in g && 0 <= i < |g[v]| :: g[v][i])
  }

  /** A walk: each node after the first is a neighbour of the one before. */
  ghost predicate Walk(g: Ordered, p: seq<int>) {
    |p| > 0 && forall i :: 0 <= i < |p| - 1 ==> p[i] in g && p[i + 1] in g[p[i]]
  }

  ghost predicate Reachable(g: Ordered, a: int, b: int) {
    exists p :: Walk(g, p) && p[0] == a && p[|p| - 1] == b
  }

  /** Every node reaches itself, and a reachable node's neighbours are
      reachable. */
  lemma ReachStep(g: Ordered, a: int, b: int, c: int)
    requires Reachable(g, a, b) && b in g && c in g[b]
    ensures Reachable(g, a, a) && Reachable(g, a, c)
  {
    assert Walk(g, [a]);
    var p :| Walk(g, p) && p[0] == a && p[|p| - 1] == b;
    var q := p + [c];
    assert Walk(g, q) by {
      forall i | 0 <= i < |q| - 1 ensures q[i] in g && q[i + 1] in g[q[i]] {
        assert q[i] == p[i];
        if i < |p| - 1 { assert q[i + 1] == p[i + 1]; }
      }
    }
    assert q[0] == a && q[|q| - 1] == c;
  }

  /** Every neighbour of a key is a key. */
  predicate KeysClosed(g: Ordered) {
    forall v, i :: v in g && 0 <= i < |g[v]| ==> g[v][i] in g
  }
}
