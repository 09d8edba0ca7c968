/** `getNeuronStrengths` of microsoft2.py: for every neuron of a tree, each
    branch leaving it is searched depth-first, the best running strength
    found in a branch counts when positive, and the neuron's own +1 or -1
    is added. The `visited` flags of one neuron's search are a set here. */
module NeuronStrengths {

  /** `adj`: the neighbour lists of nodes 0 .. n. */
  type Adj = seq<seq<int>>

  /** Every listed neighbour is a node 1 .. n with a connectivity flag. */
  predicate Valid(adj: Adj, strong: seq<int>) {
    |adj| >= 1 && |strong| >= |adj| - 1 &&
    forall u, k :: 0 <= u < |adj| && 0 <= k < |adj[u]| ==> 1 <= adj[u][k] < |adj|
  }

  /** The neighbour lists of the first `m` edges (lines 4-10). */
  function Edges(n: nat, from: seq<int>, to: seq<int>, m: nat): (adj: Adj)
    requires m <= |from| && m <= |to|
    requires forall i :: 0 <= i < m ==> 1 <= from[i] <= n && 1 <= to[i] <= n
    ensures |adj| == n + 1
  {
    if m == 0 then seq(n + 1, _ => [])
    else
      AddEdge(Edges(n, from, to, m - 1), from[m - 1], to[m - 1])
  }

  /** Adding the edge `x` - `y` appends `y` to the list of `x` and then
      `x` to the list of `y`. */
  function AddEdge(a: Adj, x: int, y: int): Adj
    requires 0 <= x < |a| && 0 <= y < |a|
  {
    var a1 := a[x := a[x] + [y]];
    a1[y := a1[y] + [x]]
  }

  lemma AddEdgeLists(a: Adj, x: int, y: int, w: int)
    requires 0 <= x < |a| && 0 <= y < |a| && 0 <= w < |a|
    ensures |AddEdge(a, x, y)| == |a|
    ensures multiset(AddEdge(a, x, y)[w]) ==
      multiset(a[w]) + (if w == x then multiset{y} else multiset{}) + (if w == y then multiset{x} else multiset{})
    ensures forall k :: 0 <= k < |AddEdge(a, x, y)[w]| ==>
      AddEdge(a, x, y)[w][k] in multiset(a[w]) || AddEdge(a, x, y)[w][k] in {x, y}
  {
    var a1 := a[x := a[x] + [y]];
    var l := AddEdge(a, x, y)[w];
    assert multiset(l) == multiset(a[w]) + (if w == x then multiset{y} else multiset{}) + (if w == y then multiset{x} else multiset{});
    forall k | 0 <= k < |l| ensures l[k] in multiset(a[w]) || l[k] in {x, y} {
      assert l[k] in multiset(l);
    }
  }

  /** Each edge puts each endpoint in the other's list: `v` appears under
      `u` as often as `u` under `v`. */
  lemma {:induction false} EdgesSymmetric(n: nat, from: seq<int>, to: seq<int>, m: nat, u: int, v: int)
    requires m <= |from| && m <= |to|
    requires forall i :: 0 <= i < m ==> 1 <= from[i] <= n && 1 <= to[i] <= n
    requires 0 <= u <= n && 0 <= v <= n
    ensures multiset(Edges(n, from, to, m)[u])[v] == multiset(Edges(n, from, to, m)[v])[u]
  {
    if m > 0 {
      var p := m - 1;
      EdgesSymmetric(n, from, to, p, u, v);
      var a := Edges(n, from, to, p);
      var x, y := from[p], to[p];
      AddEdgeCount(a, x, y, u, v);
      AddEdgeCount(a, x, y, v, u);
    }
  }

  /** How often `z` is listed under `w` after adding the edge `x` - `y`. */
  lemma AddEdgeCount(a: Adj, x: int, y: int, w: int, z: int)
    requires 0 <= x < |a| && 0 <= y < |a| && 0 <= w < |a|
    ensures multiset(AddEdge(a, x, y)[w])[z] ==
      multiset(a[w])[z] + (if w == x && z == y then 1 else 0) + (if w == y && z == x then 1 else 0)
  {
    AddEdgeLists(a, x, y, w);
  }

  /** Only nodes 1 .. n are ever listed. */
  lemma {:induction false} EdgesInRange(n: nat, from: seq<int>, to: seq<int>, m: nat, u: int)
    requires m <= |from| && m <= |to|
    requires forall i :: 0 <= i < m ==> 1 <= from[i] <= n && 1 <= to[i] <= n
    requires 0 <= u <= n
    ensures forall k :: 0 <= k < |Edges(n, from, to, m)[u]| ==> 1 <= Edges(n, from, to, m)[u][k] <= n
  {
    if m > 0 {
      EdgesInRange(n, from, to, m - 1, u);
      var a := Edges(n, from, to, m - 1);
      var x, y := from[m - 1], to[m - 1];
      AddEdgeLists(a, x, y, u);
      var l := AddEdge(a, x, y)[u];
      forall k | 0 <= k < |l| ensures 1 <= l[k] <= n {
        if l[k] in multiset(a[u]) {
          var j :| 0 <= j < |a[u]| && a[u][j] == l[k];
        }
      }
    }
  }

  function Sign(strong: seq<int>, v: int): int
    requires 1 <= v <= |strong|
  {
    if strong[v - 1] == 1 then 1 else -1
  }

  function Max(a: int, b: int): int {
    if a >= b then a else b
  }

  /** The node indices 0 .. n. */
  function Nodes(adj: Adj): set<int> {
    Below(|adj|)
  }

  function Below(n: nat): (r: set<int>)
    ensures forall x :: x in r <==> 0 <= x < n
  {
    if n == 0 then {} else Below(n - 1) + {n - 1}
  }

  lemma Fewer(adj: Adj, v: set<int>, w: set<int>)
    requires v <= w <= Nodes(adj)
    ensures |Nodes(adj) - w| <= |Nodes(adj) - v|
    ensures v < w ==> |Nodes(adj) - w| < |Nodes(adj) - v|
  {
    var a, b := Nodes(adj) - v, Nodes(adj) - w;
    assert b <= a;
    assert a == b + (a - b);
    assert b * (a - b) == {};
    if v < w {
      var x :| x in w && x !in v;
      assert x in a - b;
    }
  }

  /** The inner `dfs` (lines 22-42): the strength starts at the value
      passed, and each unvisited neighbour is marked and searched with the
      current strength plus its own sign; the best answer is kept. Returns
      the strength and the visited set. */
  function Dfs(adj: Adj, strong: seq<int>, node: int, cur: int, visited: set<int>): (r: (int, set<int>))
    requires Valid(adj, strong) && 0 <= node < |adj| && visited <= Nodes(adj)
    ensures visited <= r.1 <= Nodes(adj)
    decreases |Nodes(adj) - visited|, 1, 0
  {
    Walk(adj, strong, node, 0, cur, visited)
  }

  /** The `for` loop of `dfs` (lines 25-40) from the `k`-th neighbour on. */
  function Walk(adj: Adj, strong: seq<int>, node: int, k: nat, strength: int, visited: set<int>)
    : (r: (int, set<int>))
    requires Valid(adj, strong) && 0 <= node < |adj| && k <= |adj[node]| && visited <= Nodes(adj)
    ensures visited <= r.1 <= Nodes(adj)
    decreases |Nodes(adj) - visited|, 0, |adj[node]| - k
  {
    if k == |adj[node]| then (strength, visited)
    else
      var nb := adj[node][k];
      if nb in visited then Walk(adj, strong, node, k + 1, strength, visited)
      else
        Fewer(adj, visited, visited + {nb});
        var (found, after) := Dfs(adj, strong, nb, strength + Sign(strong, nb), visited + {nb});
        Fewer(adj, visited, after);
        Walk(adj, strong, node, k + 1, Max(strength, found), after)
  }

  /** Counting newly visited nodes across nested steps. */
  lemma Grows(v: set<int>, x: int, v2: set<int>, v3: set<int>)
    requires x !in v && v + {x} <= v2 <= v3
    ensures |v3 - v| >= |v3 - v2| + |v2 - (v + {x})| + 1
  {
    var v1 := v + {x};
    assert v3 - v == (v3 - v2) + (v2 - v1) + {x};
    assert (v3 - v2) * (v2 - v1) == {};
    assert ((v3 - v2) + (v2 - v1)) * {x} == {};
  }

  /** The gain of the neighbours from the `k`-th on, as a sum: each
      unvisited neighbour's branch, searched from its own sign, counts when
      positive. Returns the sum and the visited set. */
  function Gain(adj: Adj, strong: seq<int>, node: int, k: nat, visited: set<int>): (r: (int, set<int>))
    requires Valid(adj, strong) && 0 <= node < |adj| && k <= |adj[node]| && visited <= Nodes(adj)
    ensures r.0 >= 0
    decreases |Nodes(adj) - visited|, |adj[node]| - k
  {
    if k == |adj[node]| then (0, visited)
    else
      var nb := adj[node][k];
      if nb in visited then Gain(adj, strong, node, k + 1, visited)
      else
        var (found, after) := Dfs(adj, strong, nb, Sign(strong, nb), visited + {nb});
        Fewer(adj, visited, after);
        var (rest, last) := Gain(adj, strong, node, k + 1, after);
        (Max(0, found) + rest, last)
  }

  /** One step of the neighbour loop of `dfs` into an unvisited
      neighbour, which is searched from `c`, the running strength plus the
      neighbour's sign. */
  lemma WalkStep(adj: Adj, strong: seq<int>, node: int, k: nat, t: int, visited: set<int>, c: int)
    requires Valid(adj, strong) && 0 <= node < |adj| && k < |adj[node]| && visited <= Nodes(adj)
    requires adj[node][k] !in visited && c == t + Sign(strong, adj[node][k])
    ensures var nb := adj[node][k];
      var f := Walk(adj, strong, nb, 0, c, visited + {nb});
      Walk(adj, strong, node, k, t, visited).0 == Walk(adj, strong, node, k + 1, Max(t, f.0), f.1).0 &&
      Walk(adj, strong, node, k, t, visited).1 == Walk(adj, strong, node, k + 1, Max(t, f.0), f.1).1
  {
  }

  /** One step of `Gain` into an unvisited neighbour. */
  lemma GainStep(adj: Adj, strong: seq<int>, node: int, k: nat, visited: set<int>)
    requires Valid(adj, strong) && 0 <= node < |adj| && k < |adj[node]| && visited <= Nodes(adj)
    requires adj[node][k] !in visited
    ensures var nb := adj[node][k];
      var f := Dfs(adj, strong, nb, Sign(strong, nb), visited + {nb});
      var g := Gain(adj, strong, node, k + 1, f.1);
      Gain(adj, strong, node, k, visited) == (Max(0, f.0) + g.0, g.1)
  {
  }

  /** Starting the search `d` higher, at `u`, shifts its answer by `d` and
      visits the same nodes. */
  lemma {:induction false} WalkShift(adj: Adj, strong: seq<int>, node: int, k: nat, t: int, u: int, d: int,
                                     visited: set<int>)
    requires Valid(adj, strong) && 0 <= node < |adj| && k <= |adj[node]| && visited <= Nodes(adj)
    requires u == t + d
    ensures Walk(adj, strong, node, k, u, visited).0 == Walk(adj, strong, node, k, t, visited).0 + d
    ensures Walk(adj, strong, node, k, u, visited).1 == Walk(adj, strong, node, k, t, visited).1
    decreases |Nodes(adj) - visited|, |adj[node]| - k
  {
    if k < |adj[node]| {
      var nb := adj[node][k];
      if nb in visited {
        WalkShift(adj, strong, node, k + 1, t, u, d, visited);
      } else {
        var v1 := visited + {nb};
        var c := t + Sign(strong, nb);
        var cd := c + d;
        Fewer(adj, visited, v1);
        WalkShift(adj, strong, nb, 0, c, cd, d, v1);
        var f := Walk(adj, strong, nb, 0, c, v1);
        var g := Walk(adj, strong, nb, 0, cd, v1);
        WalkStep(adj, strong, node, k, t, visited, c);
        WalkStep(adj, strong, node, k, u, visited, cd);
        Fewer(adj, visited, f.1);
        var m := Max(t, f.0);
        var md := Max(u, g.0);
        WalkShift(adj, strong, node, k + 1, m, md, d, f.1);
      }
    }
  }

  /** The running maximum of `dfs` is the start value plus the sum of the
      positive branch gains: taking the better of "stop here" and "go on
      into the next neighbour" adds exactly that neighbour's gain when it
      is positive. */
  lemma {:induction false} WalkIsGain(adj: Adj, strong: seq<int>, node: int, k: nat, t: int,
                                      visited: set<int>)
    requires Valid(adj, strong) && 0 <= node < |adj| && k <= |adj[node]| && visited <= Nodes(adj)
    ensures Walk(adj, strong, node, k, t, visited).0 == t + Gain(adj, strong, node, k, visited).0
    ensures Walk(adj, strong, node, k, t, visited).1 == Gain(adj, strong, node, k, visited).1
    decreases |Nodes(adj) - visited|, |adj[node]| - k
  {
    if k < |adj[node]| {
      var nb := adj[node][k];
      if nb in visited {
        WalkIsGain(adj, strong, node, k + 1, t, visited);
      } else {
        var v1 := visited + {nb};
        var sg := Sign(strong, nb);
        var c := sg + t;
        Fewer(adj, visited, v1);
        WalkShift(adj, strong, nb, 0, sg, c, t, v1);
        var f := Walk(adj, strong, nb, 0, sg, v1);
        WalkStep(adj, strong, node, k, t, visited, c);
        GainStep(adj, strong, node, k, visited);
        Fewer(adj, visited, f.1);
        var m := Max(t, f.0 + t);
        assert m == t + Max(0, f.0);
        WalkIsGain(adj, strong, node, k + 1, m, f.1);
      }
    }
  }

  /** `dfs` from a node returns the value passed in plus the node's gain. */
  lemma DfsIsGain(adj: Adj, strong: seq<int>, node: int, cur: int, visited: set<int>)
    requires Valid(adj, strong) && 0 <= node < |adj| && visited <= Nodes(adj)
    ensures Dfs(adj, strong, node, cur, visited).0 == cur + Gain(adj, strong, node, 0, visited).0
    ensures Dfs(adj, strong, node, cur, visited).1 == Gain(adj, strong, node, 0, visited).1
  {
    WalkIsGain(adj, strong, node, 0, cur, visited);
  }

  /** A gain never exceeds the number of nodes it newly visits: each
      visited node adds at most its +1. */
  lemma {:induction false} GainBound(adj: Adj, strong: seq<int>, node: int, k: nat, visited: set<int>)
    requires Valid(adj, strong) && 0 <= node < |adj| && k <= |adj[node]| && visited <= Nodes(adj)
    ensures visited <= Gain(adj, strong, node, k, visited).1 <= Nodes(adj)
    ensures Gain(adj, strong, node, k, visited).0 <= |Gain(adj, strong, node, k, visited).1 - visited|
    decreases |Nodes(adj) - visited|, |adj[node]| - k
  {
    if k < |adj[node]| {
      var nb := adj[node][k];
      if nb in visited {
        GainBound(adj, strong, node, k + 1, visited);
      } else {
        var v1 := visited + {nb};
        var sg := Sign(strong, nb);
        Fewer(adj, visited, v1);
        GainBound(adj, strong, nb, 0, v1);
        DfsIsGain(adj, strong, nb, sg, v1);
        var f := Dfs(adj, strong, nb, sg, v1);
        GainStep(adj, strong, node, k, visited);
        Fewer(adj, visited, f.1);
        GainBound(adj, strong, node, k + 1, f.1);
        var g := Gain(adj, strong, node, k + 1, f.1);
        Grows(visited, nb, f.1, g.1);
      }
    }
  }

  /** `dfs` returns at least the value passed in, and at most that plus
      the number of nodes it newly visits. */
  lemma DfsBounds(adj: Adj, strong: seq<int>, node: int, cur: int, visited: set<int>)
    requires Valid(adj, strong) && 0 <= node < |adj| && visited <= Nodes(adj)
    ensures var r := Dfs(adj, strong, node, cur, visited);
      cur <= r.0 <= cur + |r.1 - visited|
  {
    DfsIsGain(adj, strong, node, cur, visited);
    GainBound(adj, strong, node, 0, visited);
  }

  /** The loop over the neighbours of the neuron itself (lines 45-50): each
      is marked, whether seen or not, and its branch counts when positive. */
  function Branches(adj: Adj, strong: seq<int>, node: int, k: nat, total: int, visited: set<int>): (r: int)
    requires Valid(adj, strong) && 0 <= node < |adj| && k <= |adj[node]| && visited <= Nodes(adj)
    ensures r >= total
    decreases |adj[node]| - k
  {
    if k == |adj[node]| then total
    else
      var nb := adj[node][k];
      var (found, after) := Dfs(adj, strong, nb, Sign(strong, nb), visited + {nb});
      Branches(adj, strong, node, k + 1, total + Max(0, found), after)
  }

  /** One neuron's strength (lines 16-56). */
  function Strength(adj: Adj, strong: seq<int>, node: int): (r: int)
    requires Valid(adj, strong) && 1 <= node < |adj|
    ensures r >= Sign(strong, node)
  {
    Branches(adj, strong, node, 0, 0, {node}) + Sign(strong, node)
  }

  /** `getNeuronStrengths` (lines 1-60). */
  function GetNeuronStrengths(n: nat, from: seq<int>, to: seq<int>, strong: seq<int>): (r: seq<int>)
    requires n - 1 <= |from| && n - 1 <= |to| && n <= |strong|
    requires forall i :: 0 <= i < n - 1 ==> 1 <= from[i] <= n && 1 <= to[i] <= n
    ensures |r| == n
  {
    var adj := Edges(n, from, to, if n == 0 then 0 else n - 1);
    EdgesValid(n, from, to, if n == 0 then 0 else n - 1, strong);
    seq(n, i requires 0 <= i < n => Strength(adj, strong, i + 1))
  }

  lemma EdgesValid(n: nat, from: seq<int>, to: seq<int>, m: nat, strong: seq<int>)
    requires m <= |from| && m <= |to| && n <= |strong|
    requires forall i :: 0 <= i < m ==> 1 <= from[i] <= n && 1 <= to[i] <= n
    ensures Valid(Edges(n, from, to, m), strong)
  {
    forall u | 0 <= u <= n {
      EdgesInRange(n, from, to, m, u);
    }
  }

  /** The result lists the strengths of neurons 1 .. n in order. */
  lemma StrengthsInOrder(n: nat, from: seq<int>, to: seq<int>, strong: seq<int>, adj: Adj, r: seq<int>)
    requires n - 1 <= |from| && n - 1 <= |to| && n <= |strong|
    requires forall i :: 0 <= i < n - 1 ==> 1 <= from[i] <= n && 1 <= to[i] <= n
    requires n >= 1 && Edges(n, from, to, n - 1) == adj && Valid(adj, strong)
    requires |r| == n && forall i :: 0 <= i < n ==> r[i] == Strength(adj, strong, i + 1)
    ensures GetNeuronStrengths(n, from, to, strong) == r
  {
  }
}
