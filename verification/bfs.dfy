/** `bfs` of my_data_structures/bfs.py: breadth-first search from a start
    node with a visited list, a FIFO queue and a map from each discovered node
    to the node it was discovered from. The module-level `parents` dict
    starts empty; the target that `my_action` compares with is a parameter.
    Throughout, the visited list is the dequeued nodes followed by the
    queue. */
module Bfs {
  import opened Counting
  import opened Graph

  /** The end state: the nodes in the order they left the queue, the
      visited list, the parent map, whether the target was reached, and
      whether a dequeued node had no adjacency entry (a `KeyError`). */
  datatype Outcome = Outcome(order: seq<int>, visited: seq<int>, parents: map<int, int>,
                             found: bool, failed: bool)

  /** No node dequeued before position `j` lists `v` as a neighbour. */
  predicate UnseenBefore(g: Ordered, order: seq<int>, j: int, v: int)
    requires 0 <= j <= |order|
  {
    forall i :: 0 <= i < j ==> order[i] in g ==> v !in g[order[i]]
  }

  /** Each parent is the first dequeued node whose neighbours list the child. */
  predicate FirstDiscoverers(g: Ordered, order: seq<int>, parents: map<int, int>) {
    forall v, j :: v in parents && 0 <= j < |order| && order[j] == parents[v] ==>
      UnseenBefore(g, order, j, v)
  }

  /** Every neighbour of the first `n` dequeued nodes has been visited. */
  predicate Closed(g: Ordered, order: seq<int>, n: int, visited: seq<int>)
    requires 0 <= n <= |order|
  {
    forall i, w :: 0 <= i < n && order[i] in g && w in g[order[i]] ==> w in visited
  }

  /** What the search keeps between steps, except the closure. */
  ghost predicate Core(g: Ordered, nodes: set<int>, start: int, target: int,
                 order: seq<int>, queue: seq<int>, parents: map<int, int>)
  {
    var visited := order + queue;
    |visited| > 0 && visited[0] == start &&
    NoDups(visited) && Elements(visited) <= nodes &&
    (forall v :: v in parents <==> v in visited && v != start) &&
    (forall v :: v in parents ==> parents[v] in order && parents[v] in g && v in g[parents[v]]) &&
    FirstDiscoverers(g, order, parents) &&
    (forall i :: 0 <= i < |order| ==> order[i] in g && order[i] != target)
  }

  ghost predicate Inv(g: Ordered, nodes: set<int>, start: int, target: int,
                order: seq<int>, queue: seq<int>, parents: map<int, int>)
  {
    Core(g, nodes, start, target, order, queue, parents) &&
    Closed(g, order, |order|, order + queue)
  }

  /** The `for` loop over the neighbours of the node `u` just dequeued
      (lines 25-30): each neighbour not yet visited is appended to the visited
      list and the queue and gets `u` as parent. Returns the new queue and
      parents; the visited list is `order` followed by the queue. */
  function Expand(order: seq<int>, queue: seq<int>, parents: map<int, int>, u: int,
                  ns: seq<int>): (r: (seq<int>, map<int, int>))
    ensures |r.0| >= |queue|
    decreases |ns|
  {
    if ns == [] then (queue, parents)
    else if ns[0] in order + queue then Expand(order, queue, parents, u, ns[1..])
    else Expand(order, queue + [ns[0]], parents[ns[0] := u], u, ns[1..])
  }

  /** What `bfs` (lines 16-30) leaves behind: the visited list starts with
      the start node and holds no node twice, the dequeued nodes are a prefix
      of it, exactly the visited nodes other than the start have a parent,
      and each parent is the first dequeued node listing the child as a
      neighbour. The target is found exactly when it was dequeued, as the
      last node; a `KeyError` stops the search on a node without an entry;
      a search that runs out has visited every neighbour of every visited
      node. */
  ghost predicate Explored(g: Ordered, start: int, target: int, r: Outcome) {
    |r.visited| > 0 && r.visited[0] == start &&
    NoDups(r.visited) &&
    r.order <= r.visited &&
    start !in r.parents &&
    (forall v :: v in r.parents <==> v in r.visited && v != start) &&
    (forall v :: v in r.parents ==>
      r.parents[v] in r.order && r.parents[v] in g && v in g[r.parents[v]]) &&
    FirstDiscoverers(g, r.order, r.parents) &&
    (r.found <==> target in r.order) &&
    (r.found ==> |r.order| > 0 && r.order[|r.order| - 1] == target) &&
    (r.failed ==> !r.found && |r.order| > 0 && r.order[|r.order| - 1] !in g) &&
    (!r.found && !r.failed ==> r.order == r.visited) &&
    (!r.found && !r.failed ==>
      forall v :: v in r.visited ==> v in g && forall w :: w in g[v] ==> w in r.visited)
  }

  /** `bfs` (lines 16-30). */
  method Search(g: Ordered, start: int, target: int) returns (r: Outcome)
    ensures Explored(g, start, target, r)
  {
    var nodes := Nodes(g) + {start};
    var order: seq<int> := [];
    var queue := [start];
    var parents: map<int, int> := map[];
    while |queue| != 0
      invariant Inv(g, nodes, start, target, order, queue, parents)
      decreases |nodes| - |order + queue|, |queue|
    {
      NoDupsBounded(order + queue, nodes);
      var u := queue[0];
      Dequeue(g, nodes, start, target, order, queue, parents);
      if u == target || u !in g {
        Stops(g, nodes, start, target, order, queue, parents);
        return Outcome(order + [u], order + queue, parents, u == target, u != target);
      }
      ExpandKeeps(g, nodes, start, target, order + [u], queue[1..], parents, g[u]);
      var e := Expand(order + [u], queue[1..], parents, u, g[u]);
      order, queue, parents := order + [u], e.0, e.1;
      NoDupsBounded(order + queue, nodes);
    }
    RunsOut(g, nodes, start, target, order, parents);
    r := Outcome(order, order, parents, false, false);
  }

  /** Dequeuing the target, or a node without an adjacency entry, ends the
      search with everything it has recorded so far. */
  lemma Stops(g: Ordered, nodes: set<int>, start: int, target: int,
              order: seq<int>, queue: seq<int>, parents: map<int, int>)
    requires Inv(g, nodes, start, target, order, queue, parents) && |queue| > 0
    requires queue[0] == target || queue[0] !in g
    ensures Explored(g, start, target,
      Outcome(order + [queue[0]], order + queue, parents, queue[0] == target, queue[0] != target))
  {
    Dequeue(g, nodes, start, target, order, queue, parents);
    var o := order + [queue[0]];
    assert o <= order + queue;
    assert target !in order;
  }

  /** A search whose queue runs dry has visited every neighbour of every
      node it dequeued. */
  lemma RunsOut(g: Ordered, nodes: set<int>, start: int, target: int,
                order: seq<int>, parents: map<int, int>)
    requires Inv(g, nodes, start, target, order, [], parents)
    ensures Explored(g, start, target, Outcome(order, order, parents, false, false))
  {
    assert order + [] == order;
    forall v | v in order ensures v in g && forall w :: w in g[v] ==> w in order {
      var i :| 0 <= i < |order| && order[i] == v;
      forall w | w in g[v] ensures w in order {
        assert order[i] in g && w in g[order[i]];
      }
    }
    assert target !in order;
  }

  /** Taking the head of the queue: it was not dequeued before, the visited
      list is unchanged, and the invariant holds again with the closure
      still owed for the new node. */
  lemma Dequeue(g: Ordered, nodes: set<int>, start: int, target: int,
                order: seq<int>, queue: seq<int>, parents: map<int, int>)
    requires Inv(g, nodes, start, target, order, queue, parents) && |queue| > 0
    ensures queue[0] !in order
    ensures order + queue == (order + [queue[0]]) + queue[1..]
    ensures FirstDiscoverers(g, order + [queue[0]], parents)
    ensures queue[0] in g && queue[0] != target ==>
      Core(g, nodes, start, target, order + [queue[0]], queue[1..], parents) &&
      Closed(g, order + [queue[0]], |order|, order + queue)
  {
    var v := order + queue;
    var o := order + [queue[0]];
    assert queue[0] == v[|order|];
    forall i | 0 <= i < |order| ensures order[i] != queue[0] {
      assert order[i] == v[i];
    }
    forall x, j | x in parents && 0 <= j < |o| && o[j] == parents[x]
      ensures UnseenBefore(g, o, j, x)
    {
      assert j < |order|;
      assert UnseenBefore(g, order, j, x);
    }
  }

  /** Discovering one neighbour `w` of the last dequeued node keeps the
      invariant. */
  lemma Discover(g: Ordered, nodes: set<int>, start: int, target: int,
                 order: seq<int>, queue: seq<int>, parents: map<int, int>, w: int)
    requires Core(g, nodes, start, target, order, queue, parents)
    requires |order| > 0 && Closed(g, order, |order| - 1, order + queue)
    requires order[|order| - 1] in g && w in g[order[|order| - 1]] && w in nodes
    requires w !in order + queue
    ensures Core(g, nodes, start, target, order, queue + [w], parents[w := order[|order| - 1]])
    ensures Closed(g, order, |order| - 1, order + (queue + [w]))
  {
    var u := order[|order| - 1];
    var v := order + queue;
    var v' := order + (queue + [w]);
    assert v' == v + [w];
    forall i, j | 0 <= i < j < |v'| ensures v'[i] != v'[j] {
      if j < |v| { assert v'[i] == v[i] && v'[j] == v[j]; }
      else { assert v'[i] == v[i]; }
    }
  }

  /** The neighbour loop finishes the closure for the node just dequeued,
      provided every neighbour it has not yet met is visited already. */
  lemma {:induction false} ExpandKeeps(g: Ordered, nodes: set<int>, start: int, target: int,
                                       order: seq<int>, queue: seq<int>, parents: map<int, int>,
                                       ns: seq<int>)
    requires Core(g, nodes, start, target, order, queue, parents)
    requires |order| > 0 && Closed(g, order, |order| - 1, order + queue)
    requires order[|order| - 1] in g && Nodes(g) <= nodes
    requires forall i :: 0 <= i < |ns| ==> ns[i] in g[order[|order| - 1]]
    requires forall w :: w in g[order[|order| - 1]] ==> w in order + queue || w in ns
    ensures var e := Expand(order, queue, parents, order[|order| - 1], ns);
      Inv(g, nodes, start, target, order, e.0, e.1)
    decreases |ns|
  {
    var u := order[|order| - 1];
    if ns == [] {
    } else if ns[0] in order + queue {
      ExpandKeeps(g, nodes, start, target, order, queue, parents, ns[1..]);
    } else {
      var w := ns[0];
      assert w in g[u];
      Discover(g, nodes, start, target, order, queue, parents, w);
      assert order + (queue + [w]) == (order + queue) + [w];
      ExpandKeeps(g, nodes, start, target, order, queue + [w], parents[w := u], ns[1..]);
    }
  }
}
