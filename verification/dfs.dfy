/** `dfs` of my_data_structures/dfs.py: recursive depth-first search with a
    shared visited list, a shared parent map and a `kill_signal` passed by
    value. The target `my_action` compares with is a parameter; a node
    without an adjacency entry raises `KeyError`, which ends the whole
    search. */
module Dfs {
  import opened Counting
  import opened Graph

  /** The shared state: the visited list, the parent map, and whether the
      search has raised. */
  datatype St = St(visited: seq<int>, parents: map<int, int>, failed: bool)

  /** The part of the graph's nodes not yet visited; every call that visits
      shrinks it. */
  function Unvisited(g: Ordered, visited: seq<int>): set<int> {
    Nodes(g) - Elements(visited)
  }

  lemma UnvisitedShrinks(g: Ordered, visited: seq<int>, node: int)
    requires node in g && node !in visited
    ensures |Unvisited(g, visited + [node])| < |Unvisited(g, visited)|
  {
    var a, b := Unvisited(g, visited), Unvisited(g, visited + [node]);
    assert b == a - {node};
    assert node in a;
  }

  lemma UnvisitedMonotone(g: Ordered, visited: seq<int>, more: seq<int>)
    requires visited <= more
    ensures |Unvisited(g, more)| <= |Unvisited(g, visited)|
  {
    var a, b := Unvisited(g, visited), Unvisited(g, more);
    assert b <= a;
    assert a == b + (a - b);
    assert b * (a - b) == {};
  }

  /** Entries for nodes already visited are never touched again. */
  ghost predicate Frozen(before: St, after: St) {
    forall v :: v in before.visited ==>
      (v in after.parents <==> v in before.parents) &&
      (v in before.parents ==> after.parents[v] == before.parents[v])
  }

  /** Every parent entry written names an edge from a visited node. */
  ghost predicate Edges(g: Ordered, before: St, after: St) {
    forall v :: v in after.parents && (v !in before.parents || after.parents[v] != before.parents[v]) ==>
      after.parents[v] in after.visited && after.parents[v] in g && v in g[after.parents[v]]
  }

  /** `dfs(visited, node, kill_signal)` (lines 14-27). */
  function Visit(g: Ordered, target: int, st: St, node: int, kill: bool): (r: St)
    requires !st.failed
    requires !kill ==> node !in st.visited
    ensures st.visited <= r.visited
    ensures NoDups(st.visited) ==> NoDups(r.visited)
    ensures kill ==> r == st
    ensures !kill ==> |r.visited| > |st.visited| && r.visited[|st.visited|] == node
    ensures Frozen(st, r) && Edges(g, st, r)
    decreases |Unvisited(g, st.visited)|, 0, 0
  {
    if kill then st
    else
      var st1 := st.(visited := st.visited + [node]);
      if node !in g then st1.(failed := true)
      else
        UnvisitedShrinks(g, st.visited, node);
        Loop(g, target, st1, node, 0, node == target)
  }

  /** The `for` loop over the neighbours of `node` (lines 24-27), from the
      `k`-th on. It stops early only when a call below has raised. */
  function Loop(g: Ordered, target: int, st: St, node: int, k: nat, kill: bool): (r: St)
    requires node in g && k <= |g[node]| && node in st.visited
    ensures st.visited <= r.visited
    ensures !st.failed && NoDups(st.visited) ==> NoDups(r.visited)
    ensures Frozen(st, r) && Edges(g, st, r)
    ensures st.failed ==> r == st
    decreases |Unvisited(g, st.visited)|, 1, |g[node]| - k
  {
    if st.failed || k == |g[node]| then st
    else
      var n := g[node][k];
      if n in st.visited then Loop(g, target, st, node, k + 1, kill)
      else
        var st2 := Visit(g, target, st.(parents := st.parents[n := node]), n, kill);
        UnvisitedMonotone(g, st.visited, st2.visited);
        Loop(g, target, st2, node, k + 1, kill)
  }

  /** The module-level call: an empty visited list and no kill signal. */
  function Search(g: Ordered, start: int, target: int): (r: St)
    ensures NoDups(r.visited) && |r.visited| > 0 && r.visited[0] == start
  {
    Visit(g, target, St([], map[], false), start, false)
  }

  // ---------------------------------------------------------------------
  // What the search finds
  // ---------------------------------------------------------------------

  ghost predicate AllReach(g: Ordered, start: int, vs: seq<int>) {
    forall v :: v in vs ==> Reachable(g, start, v)
  }

  /** Every node a call visits is reachable from the start, when the node
      it is called on is. */
  lemma VisitSound(g: Ordered, target: int, st: St, node: int, kill: bool, start: int)
    requires !st.failed && (!kill ==> node !in st.visited)
    requires AllReach(g, start, st.visited) && Reachable(g, start, node)
    ensures AllReach(g, start, Visit(g, target, st, node, kill).visited)
    decreases |Unvisited(g, st.visited)|, 0, 0
  {
    if !kill {
      var st1 := st.(visited := st.visited + [node]);
      assert AllReach(g, start, st1.visited);
      if node in g {
        assert Visit(g, target, st, node, kill) == Loop(g, target, st1, node, 0, node == target);
        assert node in st1.visited;
        UnvisitedShrinks(g, st.visited, node);
        hide *;
        LoopSound(g, target, st1, node, 0, node == target, start);
      }
    }
  }

  lemma LoopSound(g: Ordered, target: int, st: St, node: int, k: nat, kill: bool, start: int)
    requires node in g && k <= |g[node]| && node in st.visited
    requires AllReach(g, start, st.visited)
    ensures AllReach(g, start, Loop(g, target, st, node, k, kill).visited)
    decreases |Unvisited(g, st.visited)|, 1, |g[node]| - k
  {
    if !st.failed && k < |g[node]| {
      var n := g[node][k];
      if n in st.visited {
        LoopSound(g, target, st, node, k + 1, kill, start);
      } else {
        var st0 := st.(parents := st.parents[n := node]);
        var st2 := Visit(g, target, st0, n, kill);
        assert Loop(g, target, st, node, k, kill) == Loop(g, target, st2, node, k + 1, kill);
        hide Loop, Visit;
        ReachStep(g, start, node, n);
        VisitSound(g, target, st0, n, kill, start);
        UnvisitedMonotone(g, st.visited, st2.visited);
        LoopSound(g, target, st2, node, k + 1, kill, start);
      }
    }
  }

  /** Every node visited after `before` other than the target has all its
      neighbours visited. */
  ghost predicate ClosedNew(g: Ordered, target: int, before: seq<int>, after: seq<int>) {
    forall v :: v in after && v !in before && v != target ==>
      v in g && forall i :: 0 <= i < |g[v]| ==> g[v][i] in after
  }

  lemma ClosedTrans(g: Ordered, target: int, a: seq<int>, b: seq<int>, c: seq<int>)
    requires a <= b <= c && ClosedNew(g, target, a, b) && ClosedNew(g, target, b, c)
    ensures ClosedNew(g, target, a, c)
  {
    forall v | v in c && v !in a && v != target
      ensures v in g && forall i :: 0 <= i < |g[v]| ==> g[v][i] in c
    {
      if v in b {
        assert forall w :: w in b ==> w in c;
      }
    }
  }

  /** A call that does not raise expands every node it visits except the
      target, whose calls below return at once; on a graph whose neighbours
      are all keys a call on a key never raises. */
  lemma VisitClosed(g: Ordered, target: int, st: St, node: int, kill: bool)
    requires !st.failed && (!kill ==> node !in st.visited)
    ensures var r := Visit(g, target, st, node, kill);
      (!r.failed ==> ClosedNew(g, target, st.visited, r.visited)) &&
      (KeysClosed(g) && node in g ==> !r.failed)
    decreases |Unvisited(g, st.visited)|, 0, 0
  {
    if !kill {
      var st1 := st.(visited := st.visited + [node]);
      if node in g {
        UnvisitedShrinks(g, st.visited, node);
        LoopClosed(g, target, st1, node, 0, node == target);
        var r := Loop(g, target, st1, node, 0, node == target);
        assert Visit(g, target, st, node, kill) == r;
        assert st1.visited <= r.visited;
        hide Visit, Loop;
        if !r.failed {
          forall v | v in r.visited && v !in st.visited && v != target
            ensures v in g && forall i :: 0 <= i < |g[v]| ==> g[v][i] in r.visited
          {
            if v == node {
              assert forall i :: 0 <= i < |g[v]| ==> g[v][i] in r.visited;
            } else {
              assert v !in st1.visited;
            }
          }
        }
      } else {
        assert Visit(g, target, st, node, kill).failed;
      }
    }
  }

  lemma LoopClosed(g: Ordered, target: int, st: St, node: int, k: nat, kill: bool)
    requires node in g && k <= |g[node]| && node in st.visited
    ensures var r := Loop(g, target, st, node, k, kill);
      (!r.failed ==> (ClosedNew(g, target, st.visited, r.visited) &&
        (!kill ==> forall j :: k <= j < |g[node]| ==> g[node][j] in r.visited))) &&
      (KeysClosed(g) && !st.failed ==> !r.failed)
    decreases |Unvisited(g, st.visited)|, 1, |g[node]| - k
  {
    if !st.failed && k < |g[node]| {
      var n := g[node][k];
      var r := Loop(g, target, st, node, k, kill);
      if n in st.visited {
        assert r == Loop(g, target, st, node, k + 1, kill);
        hide Loop, Visit;
        LoopClosed(g, target, st, node, k + 1, kill);
        assert forall w :: w in st.visited ==> w in r.visited;
      } else {
        var st0 := st.(parents := st.parents[n := node]);
        var st2 := Visit(g, target, st0, n, kill);
        assert r == Loop(g, target, st2, node, k + 1, kill);
        hide Loop, Visit;
        VisitClosed(g, target, st0, n, kill);
        UnvisitedMonotone(g, st.visited, st2.visited);
        LoopClosed(g, target, st2, node, k + 1, kill);
        if !r.failed {
          ClosedTrans(g, target, st.visited, st2.visited, r.visited);
          if !kill {
            assert n == st2.visited[|st.visited|];
            assert forall w :: w in st2.visited ==> w in r.visited;
          }
        }
      }
    }
  }

  /** A walk from a visited node reaches the target or stays inside a closed
      visited list. */
  lemma {:induction false} WalkInside(g: Ordered, target: int, vs: seq<int>, p: seq<int>)
    requires Walk(g, p) && p[0] in vs && ClosedNew(g, target, [], vs)
    ensures target in vs || p[|p| - 1] in vs
  {
    if |p| > 1 {
      var q := p[..|p| - 1];
      assert Walk(g, q) by {
        forall i | 0 <= i < |q| - 1 ensures q[i] in g && q[i + 1] in g[q[i]] {
          assert q[i] == p[i] && q[i + 1] == p[i + 1];
        }
      }
      WalkInside(g, target, vs, q);
      var v := p[|p| - 2];
      assert q[|q| - 1] == v;
      if v in vs && v != target {
        assert p[|p| - 1] in g[v];
        var i :| 0 <= i < |g[v]| && g[v][i] == p[|p| - 1];
      }
    }
  }

  /** What the search finds: every visited node is reachable from the start;
      when the search does not raise, the target is visited exactly when it
      is reachable; and on a graph whose neighbours are all keys, a search
      from a key never raises. */
  lemma SearchFindsReachable(g: Ordered, start: int, target: int)
    ensures var r := Search(g, start, target);
      AllReach(g, start, r.visited) &&
      (!r.failed ==> (target in r.visited <==> Reachable(g, start, target))) &&
      (KeysClosed(g) && start in g ==> !r.failed)
  {
    var st := St([], map[], false);
    var r := Search(g, start, target);
    assert Walk(g, [start]);
    VisitSound(g, target, st, start, false, start);
    VisitClosed(g, target, st, start, false);
    if !r.failed && Reachable(g, start, target) {
      var p :| Walk(g, p) && p[0] == start && p[|p| - 1] == target;
      assert start == r.visited[0];
      WalkInside(g, target, r.visited, p);
    }
  }

  /** Finding the target prunes only below it: with edges 0 -> 1 and 0 -> 2
      and target 1, the loop at 0 goes on to visit 2. */
  lemma SiblingsContinue()
    ensures Search(map[0 := [1, 2], 1 := [], 2 := []], 0, 1).visited == [0, 1, 2]
  {
    var g := map[0 := [1, 2], 1 := [], 2 := []];
    var s1 := St([0, 1], map[1 := 0], false);
    var s2 := St([0, 1, 2], map[1 := 0, 2 := 0], false);
    assert Loop(g, 1, s1, 1, 0, true) == s1;
    assert Visit(g, 1, St([0], map[1 := 0], false), 1, false) == s1;
    assert Loop(g, 1, s2, 2, 0, false) == s2;
    assert Visit(g, 1, s1.(parents := map[1 := 0, 2 := 0]), 2, false) == s2;
    assert Loop(g, 1, s2, 0, 2, false) == s2;
    assert Loop(g, 1, s1, 0, 1, false) == s2;
    assert Loop(g, 1, St([0], map[], false), 0, 0, false) == s2;
    assert [] + [0] == [0];
    assert Visit(g, 1, St([], map[], false), 0, false) == s2;
  }

  /** Below the target the parent entries are still written although the
      calls return at once: with the chain 0 -> 1 -> 2 and target 1, node 2
      gets parent 1 but is never visited. */
  lemma KilledChildGetsParent()
    ensures Search(map[0 := [1], 1 := [2], 2 := []], 0, 1) == St([0, 1], map[1 := 0, 2 := 1], false)
  {
    var g := map[0 := [1], 1 := [2], 2 := []];
    var s := St([0, 1], map[1 := 0, 2 := 1], false);
    assert Loop(g, 1, s, 1, 1, true) == s;
    assert Visit(g, 1, s, 2, true) == s;
    assert Loop(g, 1, St([0, 1], map[1 := 0], false), 1, 0, true) == s;
    assert Visit(g, 1, St([0], map[1 := 0], false), 1, false) == s;
    assert Loop(g, 1, s, 0, 1, false) == s;
    assert Loop(g, 1, St([0], map[], false), 0, 0, false) == s;
    assert [] + [0] == [0];
    assert Visit(g, 1, St([], map[], false), 0, false) == s;
  }
}
