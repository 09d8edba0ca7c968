/** `findRedundantConnection` of leetcoding01.py: edges are read one by one
    into a label map (a `defaultdict(int)`, so an unlabelled vertex reads as
    label 0); an edge whose two ends already carry the same label is
    returned as the one closing a cycle. The labelling is compared with an
    independent definition of connected components. */
module RedundantConnection {
  import opened Results

  type Labels = map<int, int>

  /** `root[v]` on the `defaultdict`: 0 for a vertex never labelled. Reading
      inserts the 0 entry, which no later step can tell from absence. */
  function Label(root: Labels, v: int): int {
    if v in root then root[v] else 0
  }

  /** `union(rootX, rootY, root)` (lines 10-13): every vertex labelled
      `rootY` is relabelled `rootX`. */
  function Merge(root: Labels, rootX: int, rootY: int): (r: Labels)
    ensures r.Keys == root.Keys
    ensures forall v :: Label(r, v) == if Label(root, v) == rootY && v in root then rootX else Label(root, v)
  {
    map i | i in root :: if root[i] == rootY then rootX else root[i]
  }

  /** The loop of `findRedundantConnection` (lines 18-33) from the label map
      `root` on: the edge returned, or `None` when the loop falls through. */
  function Scan(edges: seq<(int, int)>, root: Labels): (r: Option<(int, int)>)
    ensures r.Some? ==> r.value in edges
    decreases |edges|
  {
    if edges == [] then None
    else
      var (x, y) := edges[0];
      var rootX, rootY := Label(root, x), Label(root, y);
      if rootX == 0 && rootY == 0 then Scan(edges[1..], root[x := x][y := x])
      else if rootX == 0 then Scan(edges[1..], root[x := rootY])
      else if rootY == 0 then Scan(edges[1..], root[y := rootX])
      else if rootX == rootY then Some((x, y))
      else Scan(edges[1..], Merge(root, rootX, rootY))
  }

  /** `findRedundantConnection` (lines 15-33). */
  function FindRedundantConnection(edges: seq<(int, int)>): (r: Option<(int, int)>)
    ensures r.Some? ==> r.value in edges
  {
    Scan(edges, map[])
  }

  // ---------------------------------------------------------------------
  // Connected components, defined without labels

  /** The vertices some edge of `es` touches. */
  function Ends(es: seq<(int, int)>): set<int>
    decreases |es|
  {
    if es == [] then {} else Ends(es[..|es| - 1]) + {es[|es| - 1].0, es[|es| - 1].1}
  }

  /** The connected component of `v` in the graph of the edges `es`: adding
      an edge that touches the component joins the components of its two
      ends. */
  function Comp(es: seq<(int, int)>, v: int): set<int>
    decreases |es|
  {
    if es == [] then {v}
    else
      var d, e := es[..|es| - 1], es[|es| - 1];
      var c := Comp(d, v);
      if e.0 in c || e.1 in c then Comp(d, e.0) + Comp(d, e.1) else c
  }

  lemma CompSnoc(d: seq<(int, int)>, e: (int, int), v: int)
    ensures Comp(d + [e], v) ==
      if e.0 in Comp(d, v) || e.1 in Comp(d, v) then Comp(d, e.0) + Comp(d, e.1) else Comp(d, v)
    ensures Ends(d + [e]) == Ends(d) + {e.0, e.1}
  {
    assert (d + [e])[..|d|] == d;
  }

  /** Components are reflexive, lie within the touched vertices, and two
      vertices in one component have the same component. */
  lemma {:induction false} CompFacts(es: seq<(int, int)>)
    ensures forall v :: v in Comp(es, v)
    ensures forall v :: Comp(es, v) <= Ends(es) + {v}
    ensures forall u, v :: u in Comp(es, v) ==> Comp(es, u) == Comp(es, v)
    decreases |es|
  {
    if es != [] {
      var d, e := es[..|es| - 1], es[|es| - 1];
      assert es == d + [e];
      CompFacts(d);
      forall v ensures v in Comp(es, v) && Comp(es, v) <= Ends(es) + {v} {
        CompSnoc(d, e, v);
      }
      forall u, v | u in Comp(es, v) ensures Comp(es, u) == Comp(es, v) {
        CompSnoc(d, e, u);
        CompSnoc(d, e, v);
        var cv := Comp(d, v);
        if e.0 in cv || e.1 in cv {
          assert u in Comp(d, e.0) || u in Comp(d, e.1);
        }
      }
    }
  }

  /** A vertex no edge touches is alone in its component. */
  lemma Isolated(es: seq<(int, int)>, v: int)
    requires v !in Ends(es)
    ensures Comp(es, v) == {v}
  {
    CompFacts(es);
    forall w | w in Comp(es, v) ensures w == v {
      assert v in Comp(es, w);
    }
  }

  /** The edge at the front of `edges` closes a cycle when its second end is
      already in the component of its first. The first such edge, with
      `done` already read: the reference answer. */
  function FirstClosing(edges: seq<(int, int)>, done: seq<(int, int)>): Option<(int, int)>
    decreases |edges|
  {
    if edges == [] then None
    else if edges[0].1 in Comp(done, edges[0].0) then Some(edges[0])
    else FirstClosing(edges[1..], done + [edges[0]])
  }

  /** The problem's vertices are labelled from 1 and no edge is a loop. */
  predicate Proper(edges: seq<(int, int)>) {
    forall i :: 0 <= i < |edges| ==> edges[i].0 != 0 && edges[i].1 != 0 && edges[i].0 != edges[i].1
  }

  /** The label map after reading `done`: exactly the touched vertices are
      labelled, every label is a touched vertex, and two touched vertices
      share a label exactly when they are connected. */
  ghost predicate Represents(root: Labels, done: seq<(int, int)>) {
    (forall v :: Label(root, v) != 0 <==> v in Ends(done)) &&
    (forall v :: Label(root, v) != 0 ==> Label(root, v) in Ends(done)) &&
    (forall u, v :: u in Ends(done) && v in Ends(done) ==>
      (Label(root, u) == Label(root, v) <==> v in Comp(done, u)))
  }

  /** Both ends new: both get the first end as label (lines 21-23). */
  lemma FreshEdge(root: Labels, done: seq<(int, int)>, x: int, y: int)
    requires Represents(root, done) && x != 0 && x != y
    requires x !in Ends(done) && y !in Ends(done)
    ensures Represents(root[x := x][y := x], done + [(x, y)])
  {
    CompFacts(done);
    var r, d := root[x := x][y := x], done + [(x, y)];
    Isolated(done, x);
    Isolated(done, y);
    forall v ensures Comp(d, v) == if v in {x, y} then {x, y} else Comp(done, v) {
      CompSnoc(done, (x, y), v);
    }
    CompSnoc(done, (x, y), x);
  }

  /** One end new: it joins the label of the other (lines 24-27). Stated for
      the new end `a` joining the old end `b`; the edge is `(a, b)` or
      `(b, a)`. */
  lemma JoinEdge(root: Labels, done: seq<(int, int)>, e: (int, int), a: int, b: int)
    requires Represents(root, done)
    requires (e == (a, b) || e == (b, a)) && a != b
    requires a !in Ends(done) && b in Ends(done)
    ensures Represents(root[a := Label(root, b)], done + [e])
  {
    CompFacts(done);
    var r, d := root[a := Label(root, b)], done + [e];
    var cb := Comp(done, b);
    Isolated(done, a);
    forall v ensures Comp(d, v) == if v == a || b in Comp(done, v) then {a} + cb else Comp(done, v) {
      CompSnoc(done, e, v);
    }
    CompSnoc(done, e, a);
    forall u, v | u in Ends(d) && v in Ends(d)
      ensures Label(r, u) == Label(r, v) <==> v in Comp(d, u)
    {
      if u != a && v != a {
        assert Label(root, u) == Label(root, b) <==> b in Comp(done, u);
        assert Label(root, v) == Label(root, b) <==> b in Comp(done, v);
      } else if u != a {
        assert Label(root, u) == Label(root, b) <==> b in Comp(done, u);
      } else if v != a {
        assert Label(root, v) == Label(root, b) <==> v in cb;
      }
    }
  }

  /** Both ends labelled differently: the second label is merged into the
      first (lines 30-31). */
  lemma MergeEdge(root: Labels, done: seq<(int, int)>, x: int, y: int)
    requires Represents(root, done)
    requires x in Ends(done) && y in Ends(done) && Label(root, x) != Label(root, y)
    ensures Represents(Merge(root, Label(root, x), Label(root, y)), done + [(x, y)])
  {
    CompFacts(done);
    var r, d := Merge(root, Label(root, x), Label(root, y)), done + [(x, y)];
    forall v ensures Comp(d, v) ==
      if x in Comp(done, v) || y in Comp(done, v) then Comp(done, x) + Comp(done, y) else Comp(done, v)
    {
      CompSnoc(done, (x, y), v);
    }
    CompSnoc(done, (x, y), x);
    forall u, v | u in Ends(d) && v in Ends(d)
      ensures Label(r, u) == Label(r, v) <==> v in Comp(d, u)
    {
      assert Label(root, u) == Label(root, x) <==> x in Comp(done, u);
      assert Label(root, u) == Label(root, y) <==> y in Comp(done, u);
      assert Label(root, v) == Label(root, x) <==> v in Comp(done, x);
      assert Label(root, v) == Label(root, y) <==> v in Comp(done, y);
    }
  }

  /** From a label map representing the edges read so far, the scan returns
      the first edge closing a cycle, or `None` when there is none. */
  lemma {:induction false} ScanIsFirstClosing(edges: seq<(int, int)>, root: Labels, done: seq<(int, int)>)
    requires Proper(edges) && Represents(root, done)
    ensures Scan(edges, root) == FirstClosing(edges, done)
    decreases |edges|
  {
    if edges != [] {
      var (x, y) := edges[0];
      ProperTail(edges);
      Decides(root, done, x, y);
      hide Represents, Proper, Comp, Ends;
      var rootX, rootY := Label(root, x), Label(root, y);
      if rootX == 0 && rootY == 0 {
        FreshEdge(root, done, x, y);
        ScanIsFirstClosing(edges[1..], root[x := x][y := x], done + [(x, y)]);
      } else if rootX == 0 {
        JoinEdge(root, done, (x, y), x, y);
        ScanIsFirstClosing(edges[1..], root[x := rootY], done + [(x, y)]);
      } else if rootY == 0 {
        JoinEdge(root, done, (x, y), y, x);
        ScanIsFirstClosing(edges[1..], root[y := rootX], done + [(x, y)]);
      } else if rootX != rootY {
        MergeEdge(root, done, x, y);
        ScanIsFirstClosing(edges[1..], Merge(root, rootX, rootY), done + [(x, y)]);
      }
    }
  }

  lemma ProperTail(edges: seq<(int, int)>)
    requires Proper(edges) && edges != []
    ensures edges[0].0 != 0 && edges[0].1 != 0 && edges[0].0 != edges[0].1 && Proper(edges[1..])
  {
    forall i | 0 <= i < |edges[1..]| ensures edges[1..][i] == edges[i + 1] { }
  }

  /** What the labels tell about a new edge `(x, y)`: a vertex is unlabelled
      exactly when no edge read so far touches it, and the edge closes a
      cycle exactly when both ends carry the same label. */
  lemma Decides(root: Labels, done: seq<(int, int)>, x: int, y: int)
    requires Represents(root, done) && x != y
    ensures Label(root, x) == 0 <==> x !in Ends(done)
    ensures Label(root, y) == 0 <==> y !in Ends(done)
    ensures y in Comp(done, x) <==> Label(root, x) != 0 && Label(root, x) == Label(root, y)
  {
    CompFacts(done);
    if x !in Ends(done) {
      Isolated(done, x);
    }
  }

  /** `findRedundantConnection` answers the first edge that closes a cycle,
      and falls through to `None` exactly when no edge does. */
  lemma FindsFirstCycle(edges: seq<(int, int)>)
    requires Proper(edges)
    ensures FindRedundantConnection(edges) == FirstClosing(edges, [])
  {
    ScanIsFirstClosing(edges, map[], []);
  }

  /** The domain boundary behind `Proper`: the problem numbers its vertices
      from 1, and the code uses the label 0 to mean "not seen yet". A vertex
      0 outside that domain is therefore never labelled, and the doubled edge
      between 0 and 1 goes unreported although it closes a cycle. */
  lemma ZeroLabelMissesCycle()
    ensures FindRedundantConnection([(0, 1), (0, 1)]) == None
    ensures FirstClosing([(0, 1), (0, 1)], []) == Some((0, 1))
  {
    assert Scan([(0, 1)], map[0 := 0, 1 := 0]) == None;
    assert Comp([(0, 1)], 0) == {0, 1} by {
      CompSnoc([], (0, 1), 0);
    }
  }

  /** The sample [1, 4], [3, 4], [1, 3], [1, 2], [4, 5] answers [1, 3]. */
  lemma Sample()
    ensures FindRedundantConnection([(1, 4), (3, 4), (1, 3), (1, 2), (4, 5)]) == Some((1, 3))
  {
    var es := [(1, 4), (3, 4), (1, 3), (1, 2), (4, 5)];
    assert es[1..] == [(3, 4), (1, 3), (1, 2), (4, 5)];
    assert es[1..][1..] == [(1, 3), (1, 2), (4, 5)];
    assert Scan([(1, 3), (1, 2), (4, 5)], map[1 := 1, 4 := 1, 3 := 1]) == Some((1, 3));
    assert Scan(es[1..], map[1 := 1, 4 := 1]) == Some((1, 3));
  }
}
