/** What a neuron's strength means. On a forest, the strength that
    `getNeuronStrengths` of microsoft2.py computes for neuron `i` is the
    best total of +1 and -1 signs over the connected sets of neurons that
    contain `i`: some such set reaches it and none exceeds it. */
module NeuronBest {
  import opened NeuronStrengths

  /** `y` is listed among the neighbours of `x`. */
  predicate Linked(adj: Adj, x: int, y: int) {
    0 <= x < |adj| && y in adj[x]
  }

  /** Every edge is listed from both of its ends. */
  predicate Symmetric(adj: Adj) {
    forall u, k :: 0 <= u < |adj| && 0 <= k < |adj[u]| ==> Linked(adj, adj[u][k], u)
  }

  /** `B` is the side of the edge `u` - `v` that holds `v`: the only edge
      leaving `B` is that one. */
  predicate Cut(adj: Adj, u: int, v: int, B: set<int>) {
    v in B && u !in B &&
    forall y, k :: y in B && 0 <= y < |adj| && 0 <= k < |adj[y]| && adj[y][k] !in B ==>
      y == v && adj[y][k] == u
  }

  /** A forest: no neighbour is listed twice, and every edge is a bridge,
      splitting the nodes into two sides with no other edge between them. */
  ghost predicate Forest(adj: Adj) {
    (forall u, j, k :: 0 <= u < |adj| && 0 <= j < k < |adj[u]| ==> adj[u][j] != adj[u][k]) &&
    forall u, k :: 0 <= u < |adj| && 0 <= k < |adj[u]| ==> exists B :: Cut(adj, u, adj[u][k], B)
  }

  /** Some node of `T` is linked to `root` or to a node of `S` outside `T`. */
  ghost predicate Touches(adj: Adj, T: set<int>, S: set<int>, root: int) {
    exists x, y :: x in T && (y == root || (y in S && y !in T)) && Linked(adj, x, y)
  }

  /** `S` hangs on `root`: no non-empty part of `S` is cut off from `root`
      and the rest of `S`, so `S + {root}` is connected. */
  ghost predicate Attached(adj: Adj, root: int, S: set<int>) {
    root !in S && forall T :: T <= S && T != {} ==> Touches(adj, T, S, root)
  }

  /** A connected set of nodes that contains `i`. */
  ghost predicate Connected(adj: Adj, i: int, C: set<int>) {
    i in C && Attached(adj, i, C - {i})
  }

  /** The sum of the signs of the neurons 1 .. m - 1 that are in `C`. */
  function WeightBelow(strong: seq<int>, C: set<int>, m: nat): int
    requires m <= |strong| + 1
  {
    if m <= 1 then 0
    else WeightBelow(strong, C, m - 1) + (if m - 1 in C then Sign(strong, m - 1) else 0)
  }

  /** The sum of the signs of the neurons in `C`. */
  function Weight(strong: seq<int>, C: set<int>): int {
    WeightBelow(strong, C, |strong| + 1)
  }

  /** `v` is the best weight of a connected set containing `i`: some such
      set weighs `v`, and none weighs more. */
  ghost predicate Best(adj: Adj, strong: seq<int>, i: int, v: int) {
    (exists C :: Connected(adj, i, C) && Weight(strong, C) == v) &&
    forall C :: Connected(adj, i, C) ==> Weight(strong, C) <= v
  }

  lemma {:induction false} WeightBelowEmpty(strong: seq<int>, m: nat)
    requires m <= |strong| + 1
    ensures WeightBelow(strong, {}, m) == 0
  {
    if m > 1 {
      WeightBelowEmpty(strong, m - 1);
    }
  }

  lemma {:induction false} WeightBelowSplit(strong: seq<int>, A: set<int>, B: set<int>, m: nat)
    requires m <= |strong| + 1 && A * B == {}
    ensures WeightBelow(strong, A + B, m) == WeightBelow(strong, A, m) + WeightBelow(strong, B, m)
  {
    if m > 1 {
      WeightBelowSplit(strong, A, B, m - 1);
      assert m - 1 !in A * B;
    }
  }

  lemma {:induction false} WeightBelowOne(strong: seq<int>, x: int, m: nat)
    requires m <= |strong| + 1 && 1 <= x <= |strong|
    ensures WeightBelow(strong, {x}, m) == if x < m then Sign(strong, x) else 0
  {
    if m > 1 {
      WeightBelowOne(strong, x, m - 1);
      assert (m - 1 in {x}) == (x == m - 1);
    }
  }

  /** Weights of disjoint sets add up. */
  lemma WeightSplit(strong: seq<int>, A: set<int>, B: set<int>)
    requires A * B == {}
    ensures Weight(strong, A + B) == Weight(strong, A) + Weight(strong, B)
  {
    WeightBelowSplit(strong, A, B, |strong| + 1);
  }

  /** Adding a neuron adds its sign. */
  lemma WeightAdd(strong: seq<int>, A: set<int>, x: int)
    requires x !in A && 1 <= x <= |strong|
    ensures Weight(strong, A + {x}) == Weight(strong, A) + Sign(strong, x)
  {
    WeightSplit(strong, A, {x});
    WeightBelowOne(strong, x, |strong| + 1);
  }

  lemma WeightEmpty(strong: seq<int>)
    ensures Weight(strong, {}) == 0
  {
    WeightBelowEmpty(strong, |strong| + 1);
  }

  /** The nodes of `W` outside `V` have all their neighbours in `W`. */
  ghost predicate Closed(adj: Adj, W: set<int>, V: set<int>) {
    forall y, j :: y in W && y !in V && 0 <= y < |adj| && 0 <= j < |adj[y]| ==> adj[y][j] in W
  }

  /** The neighbours of `node` from the `k`-th on are in `W`. */
  ghost predicate Reaches(adj: Adj, node: int, k: nat, W: set<int>)
    requires 0 <= node < |adj|
  {
    forall m :: k <= m < |adj[node]| ==> adj[node][m] in W
  }

  /** Every edge leaving `B` ends in `V`. */
  ghost predicate Sealed(adj: Adj, B: set<int>, V: set<int>) {
    forall y, j :: y in B && 0 <= y < |adj| && 0 <= j < |adj[y]| && adj[y][j] !in B ==> adj[y][j] in V
  }

  /** A search only adds to the visited set. */
  lemma GainGrows(adj: Adj, strong: seq<int>, node: int, k: nat, visited: set<int>)
    requires Valid(adj, strong) && 0 <= node < |adj| && k <= |adj[node]| && visited <= Nodes(adj)
    ensures visited <= Gain(adj, strong, node, k, visited).1 <= Nodes(adj)
  {
    GainBound(adj, strong, node, k, visited);
  }

  /** The search visits everything it can reach: each newly visited node
      has all its neighbours visited, and so do the neighbours of `node`
      from the `k`-th on. */
  lemma {:induction false} GainCloses(adj: Adj, strong: seq<int>, node: int, k: nat, visited: set<int>)
    requires Valid(adj, strong) && 0 <= node < |adj| && k <= |adj[node]| && visited <= Nodes(adj)
    ensures Closed(adj, Gain(adj, strong, node, k, visited).1, visited)
    ensures Reaches(adj, node, k, Gain(adj, strong, node, k, visited).1)
    decreases |Nodes(adj) - visited|, |adj[node]| - k
  {
    var g := Gain(adj, strong, node, k, visited);
    if k < |adj[node]| {
      var nb := adj[node][k];
      if nb in visited {
        GainCloses(adj, strong, node, k + 1, visited);
        GainGrows(adj, strong, node, k + 1, visited);
      } else {
        var v1 := visited + {nb};
        Fewer(adj, visited, v1);
        GainStep(adj, strong, node, k, visited);
        DfsIsGain(adj, strong, nb, Sign(strong, nb), v1);
        var f := Gain(adj, strong, nb, 0, v1);
        GainCloses(adj, strong, nb, 0, v1);
        GainGrows(adj, strong, nb, 0, v1);
        Fewer(adj, visited, f.1);
        GainCloses(adj, strong, node, k + 1, f.1);
        GainGrows(adj, strong, node, k + 1, f.1);
        ClosedJoin(adj, nb, visited, f.1, g.1);
      }
    }
  }

  /** Closing the nodes of `f` (through `nb`) and then the rest of `g`. */
  lemma ClosedJoin(adj: Adj, nb: int, visited: set<int>, f: set<int>, g: set<int>)
    requires 0 <= nb < |adj| && visited + {nb} <= f <= g
    requires Closed(adj, f, visited + {nb}) && Reaches(adj, nb, 0, f) && Closed(adj, g, f)
    ensures Closed(adj, g, visited)
  {
  }

  /** A search that starts inside `B`, where every edge leaving `B` ends
      at a visited node, visits nothing outside `B`. */
  lemma {:induction false} GainStays(adj: Adj, strong: seq<int>, node: int, k: nat, visited: set<int>,
                                     B: set<int>)
    requires Valid(adj, strong) && 0 <= node < |adj| && k <= |adj[node]| && visited <= Nodes(adj)
    requires node in B && Sealed(adj, B, visited)
    ensures Gain(adj, strong, node, k, visited).1 - visited <= B
    decreases |Nodes(adj) - visited|, |adj[node]| - k
  {
    if k < |adj[node]| {
      var nb := adj[node][k];
      if nb in visited {
        GainStays(adj, strong, node, k + 1, visited, B);
      } else {
        var v1 := visited + {nb};
        assert nb in B;
        Fewer(adj, visited, v1);
        GainStep(adj, strong, node, k, visited);
        DfsIsGain(adj, strong, nb, Sign(strong, nb), v1);
        var f := Gain(adj, strong, nb, 0, v1);
        GainStays(adj, strong, nb, 0, v1, B);
        GainGrows(adj, strong, nb, 0, v1);
        Fewer(adj, visited, f.1);
        GainStays(adj, strong, node, k + 1, f.1, B);
      }
    }
  }

  /** The side of the edge `node` - `nb` is sealed once `node` is visited. */
  lemma CutSeals(adj: Adj, node: int, nb: int, B: set<int>, visited: set<int>)
    requires Cut(adj, node, nb, B) && node in visited
    ensures Sealed(adj, B, visited)
  {
  }

  /** Joining a branch hanging on `nb`, itself a neighbour of `node`, to
      a set hanging on `node`. */
  lemma AttachJoin(adj: Adj, node: int, nb: int, Sn: set<int>, S2: set<int>)
    requires Linked(adj, nb, node) && node != nb
    requires Attached(adj, nb, Sn) && Attached(adj, node, S2)
    requires node !in Sn && (Sn + {nb}) * S2 == {}
    ensures Attached(adj, node, Sn + {nb} + S2)
  {
    var S := Sn + {nb} + S2;
    forall T | T <= S && T != {} ensures Touches(adj, T, S, node) {
      if T * S2 != {} {
        var T2 := T * S2;
        assert Touches(adj, T2, S2, node);
        var x, y :| x in T2 && (y == node || (y in S2 && y !in T2)) && Linked(adj, x, y);
        assert x in T && (y == node || (y in S && y !in T));
      } else if nb in T {
        assert Linked(adj, nb, node);
      } else {
        assert T <= Sn;
        assert Touches(adj, T, Sn, nb);
        var x, y :| x in T && (y == nb || (y in Sn && y !in T)) && Linked(adj, x, y);
        assert y in S && y !in T;
      }
    }
  }

  /** A set hanging on `node` keeps hanging on it once the part in `R`
      is taken away, when every neighbour a node of `R` has in `S` is in
      `R` itself. */
  lemma AttachRest(adj: Adj, node: int, S: set<int>, R: set<int>)
    requires Symmetric(adj) && Attached(adj, node, S)
    requires forall y, j :: y in R && 0 <= y < |adj| && 0 <= j < |adj[y]| && adj[y][j] in S ==> adj[y][j] in R
    ensures Attached(adj, node, S - R)
  {
    var S2 := S - R;
    forall T | T <= S2 && T != {} ensures Touches(adj, T, S2, node) {
      assert Touches(adj, T, S, node);
      var x, y :| x in T && (y == node || (y in S && y !in T)) && Linked(adj, x, y);
      if y != node && y in R {
        assert false;
      }
    }
  }

  /** The part in `R` of a set hanging on `node`, when `R` lies on the
      `nb` side of the edge `node` - `nb` and every neighbour a node of
      `R` has in `S` is in `R`: if not empty, it holds `nb`, and the rest
      of it hangs on `nb`. */
  lemma AttachBranch(adj: Adj, node: int, nb: int, S: set<int>, R: set<int>, B: set<int>)
    requires Attached(adj, node, S) && Cut(adj, node, nb, B) && R <= B
    requires forall y, j :: y in R && 0 <= y < |adj| && 0 <= j < |adj[y]| && adj[y][j] in S ==> adj[y][j] in R
    requires S * R != {}
    ensures nb in S * R && Attached(adj, nb, S * R - {nb})
  {
    var S1 := S * R;
    assert Touches(adj, S1, S, node);
    var x, y :| x in S1 && (y == node || (y in S && y !in S1)) && Linked(adj, x, y);
    var j :| 0 <= j < |adj[x]| && adj[x][j] == y;
    assert nb in S1;
    var S0 := S1 - {nb};
    forall T | T <= S0 && T != {} ensures Touches(adj, T, S0, nb) {
      assert Touches(adj, T, S, node);
      var x, y :| x in T && (y == node || (y in S && y !in T)) && Linked(adj, x, y);
      var j :| 0 <= j < |adj[x]| && adj[x][j] == y;
      assert y == nb || (y in S0 && y !in T);
    }
  }

  /** The best attached weight is no more than the gain: every set
      hanging on `node`, avoiding the visited nodes, weighs at most what
      the search from the `k`-th neighbour on finds, when the earlier
      neighbours are visited. */
  lemma {:induction false} GainUpper(adj: Adj, strong: seq<int>, node: int, k: nat, visited: set<int>,
                                     S: set<int>)
    requires Valid(adj, strong) && Symmetric(adj) && Forest(adj)
    requires 0 <= node < |adj| && k <= |adj[node]| && visited <= Nodes(adj) && node in visited
    requires S * visited == {} && Attached(adj, node, S)
    requires forall m :: 0 <= m < k ==> adj[node][m] in visited
    ensures Weight(strong, S) <= Gain(adj, strong, node, k, visited).0
    decreases |Nodes(adj) - visited|, |adj[node]| - k
  {
    hide Forest, Symmetric, Attached, Weight, Gain, Dfs, Walk;
    if k == |adj[node]| {
      NothingHangs(adj, node, visited, S);
      WeightEmpty(strong);
      GainEnds(adj, strong, node, k, visited);
    } else {
      var nb := adj[node][k];
      if nb in visited {
        GainSkips(adj, strong, node, k, visited);
        GainUpper(adj, strong, node, k + 1, visited, S);
      } else {
        var v1 := visited + {nb};
        Fewer(adj, visited, v1);
        GainStep(adj, strong, node, k, visited);
        DfsIsGain(adj, strong, nb, Sign(strong, nb), v1);
        var f := Gain(adj, strong, nb, 0, v1);
        GainGrows(adj, strong, nb, 0, v1);
        var R := SplitAtBranch(adj, strong, node, k, visited, S);
        Fewer(adj, visited, f.1);
        assert (S - R) * f.1 == {} by {
          Disjoint(S, visited, R, f.1);
        }
        assert Attached(adj, node, S - R);
        forall m | 0 <= m < k + 1 ensures adj[node][m] in f.1 {
        }
        GainUpper(adj, strong, node, k + 1, f.1, S - R);
        if S * R != {} {
          GainUpper(adj, strong, nb, 0, v1, S * R - {nb});
        }
        UpperAdds(strong, S, R, nb, f.0, Gain(adj, strong, node, k + 1, f.1).0);
      }
    }
  }

  lemma LinkedBack(adj: Adj, x: int, y: int)
    requires Symmetric(adj) && Linked(adj, x, y)
    ensures Linked(adj, y, x)
  {
    var j :| 0 <= j < |adj[x]| && adj[x][j] == y;
  }

  /** Splitting a set hanging on `node` at its `k`-th neighbour `nb`:
      the part `R` the search into `nb` visits holds `nb` if anything, and
      hangs on `nb`; the rest still hangs on `node`. */
  lemma SplitAtBranch(adj: Adj, strong: seq<int>, node: int, k: nat, visited: set<int>, S: set<int>)
    returns (R: set<int>)
    requires Valid(adj, strong) && Symmetric(adj) && Forest(adj)
    requires 0 <= node < |adj| && k < |adj[node]| && visited <= Nodes(adj) && node in visited
    requires adj[node][k] !in visited && S * visited == {} && Attached(adj, node, S)
    ensures R == Gain(adj, strong, adj[node][k], 0, visited + {adj[node][k]}).1 - visited
    ensures Attached(adj, node, S - R)
    ensures S * R != {} ==> adj[node][k] in S * R && Attached(adj, adj[node][k], S * R - {adj[node][k]})
  {
    var nb := adj[node][k];
    R := Gain(adj, strong, nb, 0, visited + {nb}).1 - visited;
    var B := BranchSide(adj, strong, node, k, visited);
    BranchClosed(adj, strong, nb, visited, S);
    AttachRest(adj, node, S, R);
    if S * R != {} {
      AttachBranch(adj, node, nb, S, R, B);
    }
  }

  lemma GainEnds(adj: Adj, strong: seq<int>, node: int, k: nat, visited: set<int>)
    requires Valid(adj, strong) && 0 <= node < |adj| && k == |adj[node]| && visited <= Nodes(adj)
    ensures Gain(adj, strong, node, k, visited) == (0, visited)
  {
  }

  lemma GainSkips(adj: Adj, strong: seq<int>, node: int, k: nat, visited: set<int>)
    requires Valid(adj, strong) && 0 <= node < |adj| && k < |adj[node]| && visited <= Nodes(adj)
    requires adj[node][k] in visited
    ensures Gain(adj, strong, node, k, visited) == Gain(adj, strong, node, k + 1, visited)
  {
  }

  lemma Disjoint(S: set<int>, visited: set<int>, R: set<int>, F: set<int>)
    requires S * visited == {} && R == F - visited
    ensures (S - R) * F == {}
  {
  }

  /** Adding up the two parts of a split set. */
  lemma UpperAdds(strong: seq<int>, S: set<int>, R: set<int>, nb: int, a: int, b: int)
    requires 1 <= nb <= |strong| && Weight(strong, S - R) <= b
    requires S * R != {} ==> nb in S * R && Weight(strong, S * R - {nb}) <= a
    ensures Weight(strong, S) <= Max(0, Sign(strong, nb) + a) + b
  {
    WeightSplit(strong, S * R, S - R);
    assert S == S * R + (S - R);
    if S * R == {} {
      WeightEmpty(strong);
    } else {
      WeightAdd(strong, S * R - {nb}, nb);
      assert S * R == S * R - {nb} + {nb};
    }
  }

  /** Nothing hangs on a node whose neighbours are all visited. */
  lemma NothingHangs(adj: Adj, node: int, visited: set<int>, S: set<int>)
    requires Symmetric(adj) && 0 <= node < |adj| && S * visited == {} && Attached(adj, node, S)
    requires forall m :: 0 <= m < |adj[node]| ==> adj[node][m] in visited
    ensures S == {}
  {
    if S != {} {
      assert Touches(adj, S, S, node);
      var x :| x in S && Linked(adj, x, node);
      assert x !in S * visited;
      LinkedBack(adj, x, node);
      assert false;
    }
  }

  /** The side of the edge from `node` to its `k`-th neighbour, which
      holds everything the search into that neighbour visits. */
  lemma BranchSide(adj: Adj, strong: seq<int>, node: int, k: nat, visited: set<int>) returns (B: set<int>)
    requires Valid(adj, strong) && Forest(adj)
    requires 0 <= node < |adj| && k < |adj[node]| && visited <= Nodes(adj) && node in visited
    requires adj[node][k] !in visited
    ensures Cut(adj, node, adj[node][k], B)
    ensures Gain(adj, strong, adj[node][k], 0, visited + {adj[node][k]}).1 - visited <= B
  {
    var nb := adj[node][k];
    B :| Cut(adj, node, nb, B);
    CutSeals(adj, node, nb, B, visited + {nb});
    GainStays(adj, strong, nb, 0, visited + {nb}, B);
  }

  /** Whatever neighbour a node reached through `nb` has in `S`, which
      avoids the visited nodes, was reached too. */
  lemma BranchClosed(adj: Adj, strong: seq<int>, nb: int, visited: set<int>, S: set<int>)
    requires Valid(adj, strong) && 0 <= nb < |adj| && nb !in visited && visited <= Nodes(adj)
    requires S * visited == {}
    ensures var R := Gain(adj, strong, nb, 0, visited + {nb}).1 - visited;
      forall y, j :: y in R && 0 <= y < |adj| && 0 <= j < |adj[y]| && adj[y][j] in S ==> adj[y][j] in R
  {
    GainCloses(adj, strong, nb, 0, visited + {nb});
  }

  /** The best attached weight is reached: some set hanging on `node`,
      made of newly visited nodes, weighs exactly what the search from
      the `k`-th neighbour on finds. */
  lemma {:induction false} GainWitness(adj: Adj, strong: seq<int>, node: int, k: nat, visited: set<int>)
    returns (S: set<int>)
    requires Valid(adj, strong) && Symmetric(adj)
    requires 0 <= node < |adj| && k <= |adj[node]| && visited <= Nodes(adj) && node in visited
    ensures S <= Gain(adj, strong, node, k, visited).1 - visited
    ensures Attached(adj, node, S) && Weight(strong, S) == Gain(adj, strong, node, k, visited).0
    decreases |Nodes(adj) - visited|, |adj[node]| - k
  {
    hide Symmetric, Attached, Weight, Gain, Dfs, Walk;
    if k == |adj[node]| {
      S := {};
      WeightEmpty(strong);
      GainEnds(adj, strong, node, k, visited);
      NothingAttached(adj, node);
    } else {
      var nb := adj[node][k];
      if nb in visited {
        GainSkips(adj, strong, node, k, visited);
        S := GainWitness(adj, strong, node, k + 1, visited);
      } else {
        var v1 := visited + {nb};
        Fewer(adj, visited, v1);
        GainStep(adj, strong, node, k, visited);
        DfsIsGain(adj, strong, nb, Sign(strong, nb), v1);
        var f := Gain(adj, strong, nb, 0, v1);
        var sn := GainWitness(adj, strong, nb, 0, v1);
        GainGrows(adj, strong, nb, 0, v1);
        Fewer(adj, visited, f.1);
        var s2 := GainWitness(adj, strong, node, k + 1, f.1);
        GainGrows(adj, strong, node, k + 1, f.1);
        LinkedBack(adj, node, nb);
        S := WitnessJoins(adj, strong, node, nb, sn, s2);
      }
    }
  }

  lemma NothingAttached(adj: Adj, node: int)
    ensures Attached(adj, node, {})
  {
  }

  /** The witness of a step: the branch through `nb` with `nb` itself
      when it gains, and the witness of the later neighbours. */
  lemma WitnessJoins(adj: Adj, strong: seq<int>, node: int, nb: int, sn: set<int>, s2: set<int>)
    returns (S: set<int>)
    requires 1 <= nb <= |strong| && Linked(adj, nb, node) && node != nb
    requires Attached(adj, nb, sn) && Attached(adj, node, s2)
    requires node !in sn && (sn + {nb}) * s2 == {}
    ensures S <= sn + {nb} + s2 && s2 <= S
    ensures Attached(adj, node, S)
    ensures Weight(strong, S) == Max(0, Sign(strong, nb) + Weight(strong, sn)) + Weight(strong, s2)
  {
    if Sign(strong, nb) + Weight(strong, sn) > 0 {
      S := sn + {nb} + s2;
      AttachJoin(adj, node, nb, sn, s2);
      WeightAdd(strong, sn, nb);
      WeightSplit(strong, sn + {nb}, s2);
    } else {
      S := s2;
    }
  }

  /** Around a neuron of a forest, the neighbour loop finds the gain: no
      neighbour was reached through an earlier one. */
  lemma {:induction false} BranchesIsGain(adj: Adj, strong: seq<int>, i: int, k: nat, total: int,
                                          visited: set<int>)
    requires Valid(adj, strong) && Symmetric(adj) && Forest(adj)
    requires 0 <= i < |adj| && k <= |adj[i]| && visited <= Nodes(adj) && i in visited
    requires forall m :: k <= m < |adj[i]| ==> adj[i][m] !in visited
    ensures Branches(adj, strong, i, k, total, visited) == total + Gain(adj, strong, i, k, visited).0
    decreases |adj[i]| - k
  {
    if k < |adj[i]| {
      var nb := adj[i][k];
      var v1 := visited + {nb};
      GainStep(adj, strong, i, k, visited);
      DfsIsGain(adj, strong, nb, Sign(strong, nb), v1);
      var f := Gain(adj, strong, nb, 0, v1);
      GainGrows(adj, strong, nb, 0, v1);
      var B := BranchSide(adj, strong, i, k, visited);
      forall m | k + 1 <= m < |adj[i]| ensures adj[i][m] !in f.1 {
        OtherBranch(adj, i, k, m, B);
      }
      BranchesIsGain(adj, strong, i, k + 1, total + Max(0, Sign(strong, nb) + f.0), f.1);
    }
  }

  /** A later neighbour of `i` is not on the side of an earlier one. */
  lemma OtherBranch(adj: Adj, i: int, k: nat, m: nat, B: set<int>)
    requires Symmetric(adj) && Forest(adj) && 0 <= i < |adj| && k < m < |adj[i]|
    requires Cut(adj, i, adj[i][k], B)
    ensures adj[i][m] !in B
  {
    var w := adj[i][m];
    if w in B {
      assert false;
    }
  }

  /** The strength of neuron `i` of a forest is the best weight of a
      connected set of neurons containing `i`. */
  lemma StrengthIsBest(adj: Adj, strong: seq<int>, i: int)
    requires Valid(adj, strong) && Symmetric(adj) && Forest(adj) && 1 <= i < |adj|
    ensures Best(adj, strong, i, Strength(adj, strong, i))
  {
    var g := Gain(adj, strong, i, 0, {i});
    forall m | 0 <= m < |adj[i]| ensures adj[i][m] !in {i} {
      var B :| Cut(adj, i, adj[i][m], B);
    }
    BranchesIsGain(adj, strong, i, 0, 0, {i});
    var v := Strength(adj, strong, i);
    assert v == g.0 + Sign(strong, i);
    var S := GainWitness(adj, strong, i, 0, {i});
    WeightAdd(strong, S, i);
    assert S + {i} - {i} == S;
    assert Connected(adj, i, S + {i});
    forall C | Connected(adj, i, C) ensures Weight(strong, C) <= v {
      GainUpper(adj, strong, i, 0, {i}, C - {i});
      WeightAdd(strong, C - {i}, i);
      assert C == C - {i} + {i};
    }
  }

  /** The edge lists always list each edge from both ends. */
  lemma EdgesLinkBack(n: nat, from: seq<int>, to: seq<int>, m: nat)
    requires m <= |from| && m <= |to|
    requires forall i :: 0 <= i < m ==> 1 <= from[i] <= n && 1 <= to[i] <= n
    ensures Symmetric(Edges(n, from, to, m))
  {
    var adj := Edges(n, from, to, m);
    forall u, k | 0 <= u < |adj| && 0 <= k < |adj[u]| ensures Linked(adj, adj[u][k], u) {
      var v := adj[u][k];
      EdgesInRange(n, from, to, m, u);
      EdgesSymmetric(n, from, to, m, u, v);
      assert v in multiset(adj[u]);
      assert u in multiset(adj[v]);
    }
  }

  /** `getNeuronStrengths` on a forest: each neuron's entry is the best
      weight of a connected set of neurons containing it. */
  lemma StrengthsAreBest(n: nat, from: seq<int>, to: seq<int>, strong: seq<int>)
    requires n - 1 <= |from| && n - 1 <= |to| && n <= |strong|
    requires forall i :: 0 <= i < n - 1 ==> 1 <= from[i] <= n && 1 <= to[i] <= n
    requires Forest(Edges(n, from, to, if n == 0 then 0 else n - 1))
    ensures var adj := Edges(n, from, to, if n == 0 then 0 else n - 1);
      forall i :: 0 <= i < n ==> Best(adj, strong, i + 1, GetNeuronStrengths(n, from, to, strong)[i])
  {
    var m := if n == 0 then 0 else n - 1;
    var adj := Edges(n, from, to, m);
    EdgesValid(n, from, to, m, strong);
    EdgesLinkBack(n, from, to, m);
    forall i | 0 <= i < n
      ensures Best(adj, strong, i + 1, GetNeuronStrengths(n, from, to, strong)[i])
    {
      StrengthIsBest(adj, strong, i + 1);
    }
  }
}
