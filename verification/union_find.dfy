/** Union-find by relabelling, my_data_structures/union_find.py: `root[i]`
    is the label of the class of `i`; `find` reads it and `union` rewrites
    every occurrence of one label by the other. Indices follow Python list
    indexing, so a negative index counts from the end and any other index
    out of range raises `IndexError`. */
module UnionFind {
  import opened Results

  datatype Error = IndexError

  /** Python's `s[i]`. */
  function At(s: seq<int>, i: int): (r: Result<int, Error>)
    ensures r.Ok? <==> -|s| <= i < |s|
    ensures 0 <= i < |s| ==> r == Ok(s[i])
  {
    if 0 <= i < |s| then Ok(s[i])
    else if -|s| <= i < 0 then Ok(s[|s| + i])
    else Err(IndexError)
  }

  /** `find` (lines 1-2): the label, with no path following. */
  function Find(root: seq<int>, x: int): Result<int, Error> {
    At(root, x)
  }

  /** Every entry equal to `from` replaced by `to`, the others kept. */
  function Relabel(root: seq<int>, from: int, to: int): (r: seq<int>)
    ensures |r| == |root|
  {
    seq(|root|, i requires 0 <= i < |root| => if root[i] == from then to else root[i])
  }

  /** `union` (lines 4-10): when the labels differ, the loop over the indices
      rewrites the second label to the first. */
  method Union(root: seq<int>, x: int, y: int) returns (r: Result<seq<int>, Error>)
    ensures r.Err? <==> Find(root, x).Err? || Find(root, y).Err?
    ensures r.Ok? ==> r.value == Relabel(root, Find(root, y).value, Find(root, x).value)
  {
    var rootX :- Find(root, x);
    var rootY :- Find(root, y);
    var a := root;
    if rootX != rootY {
      var i := 0;
      while i < |a|
        invariant 0 <= i <= |a| && |a| == |root|
        invariant forall j :: 0 <= j < i ==> a[j] == (if root[j] == rootY then rootX else root[j])
        invariant forall j :: i <= j < |a| ==> a[j] == root[j]
      {
        if a[i] == rootY {
          a := a[i := rootX];
        }
        i := i + 1;
      }
    } else {
      assert Relabel(root, rootY, rootX) == root;
    }
    return Ok(a);
  }

  /** Relabelling merges exactly the two classes: afterwards two indices
      share a label when they did before or when each carried one of the
      two labels. The class labelled `to` keeps its label. */
  lemma RelabelMerges(root: seq<int>, from: int, to: int, i: int, j: int)
    requires 0 <= i < |root| && 0 <= j < |root|
    ensures var r := Relabel(root, from, to);
      r[i] == r[j] <==> root[i] == root[j] || (root[i] in {from, to} && root[j] in {from, to})
    ensures root[i] == to ==> Relabel(root, from, to)[i] == to
    ensures root[i] !in {from, to} ==> Relabel(root, from, to)[i] == root[i]
  {
  }

  /** After a successful union the two arguments share a label, and when
      they already did nothing changes. */
  lemma UnionJoins(root: seq<int>, x: int, y: int)
    requires Find(root, x).Ok? && Find(root, y).Ok?
    ensures var r := Relabel(root, Find(root, y).value, Find(root, x).value);
      Find(r, x) == Find(r, y) == Find(root, x)
    ensures Find(root, x) == Find(root, y) ==>
      Relabel(root, Find(root, y).value, Find(root, x).value) == root
  {
  }
}
