/** The binary search tree of my_data_structures/binary_tree.py. A `Node`
    with its `left`/`right` children is a `Tree`; `None` children are `Nil`.
    The data are integers standing for any ordered values. */
module BinaryTree {
  import opened Results

  datatype Tree = Nil | Node(data: int, left: Tree, right: Tree)

  datatype Error = AlreadyExists | NoneHasNoLeft

  function Elems(t: Tree): set<int> {
    if t.Nil? then {} else Elems(t.left) + {t.data} + Elems(t.right)
  }

  /** The search-tree order: everything left of a node is smaller, everything
      right of it is larger. */
  predicate Bst(t: Tree) {
    t.Node? ==>
      Bst(t.left) && Bst(t.right) &&
      (forall x :: x in Elems(t.left) ==> x < t.data) &&
      (forall x :: x in Elems(t.right) ==> x > t.data)
  }

  function Leaf(x: int): Tree {
    Node(x, Nil, Nil)
  }

  /** `insert` (lines 11-25) on a node holding data: a value equal to the
      node's raises, a smaller one goes left and a larger one right, into a
      new leaf where the child is missing. */
  function Insert(t: Tree, x: int): (r: Result<Tree, Error>)
    requires t.Node?
    ensures r.Ok? ==> r.value.Node? && r.value.data == t.data && Elems(r.value) == Elems(t) + {x}
    decreases t
  {
    if x == t.data then Err(AlreadyExists)
    else if x < t.data then
      if t.left.Nil? then Ok(t.(left := Leaf(x)))
      else
        var l :- Insert(t.left, x);
        Ok(t.(left := l))
    else
      if t.right.Nil? then Ok(t.(right := Leaf(x)))
      else
        var r :- Insert(t.right, x);
        Ok(t.(right := r))
  }

  /** `insert` on a node created as `Node()` (lines 12-15): the data is set
      first and then compares equal, so the call raises with the node now
      holding the value. */
  function InsertIntoBlank(x: int): (r: (Tree, Error))
    ensures r.0 == Leaf(x) && r.1 == AlreadyExists
  {
    (Leaf(x), AlreadyExists)
  }

  /** Inserting into a search tree raises exactly for a value already there,
      and otherwise keeps the search-tree order. */
  lemma {:induction false} InsertSpec(t: Tree, x: int)
    requires t.Node? && Bst(t)
    ensures Insert(t, x).Err? <==> x in Elems(t)
    ensures Insert(t, x).Ok? ==> Bst(Insert(t, x).value)
    decreases t
  {
    if x < t.data && t.left.Node? {
      InsertSpec(t.left, x);
    } else if x > t.data && t.right.Node? {
      InsertSpec(t.right, x);
    }
  }

  /** `search` (lines 35-39): the subtree rooted at the node holding `x`, or
      `None` for the `-1` answer. */
  function Search(t: Tree, x: int): (r: Option<Tree>)
    ensures r.Some? ==> r.value.Node? && r.value.data == x
    decreases t
  {
    if t.Nil? then None
    else if t.data == x then Some(t)
    else if x < t.data then Search(t.left, x)
    else Search(t.right, x)
  }

  /** On a search tree, `search` finds exactly the values present. */
  lemma {:induction false} SearchSpec(t: Tree, x: int)
    requires Bst(t)
    ensures Search(t, x).Some? <==> x in Elems(t)
    decreases t
  {
    if t.Node? && t.data != x {
      if x < t.data { SearchSpec(t.left, x); } else { SearchSpec(t.right, x); }
    }
  }

  /** `inorder_traversal` (lines 42-48). */
  function Inorder(t: Tree): (r: seq<int>)
    ensures |r| > 0 <==> t.Node?
    decreases t
  {
    if t.Nil? then [] else Inorder(t.left) + [t.data] + Inorder(t.right)
  }

  predicate Increasing(s: seq<int>) {
    forall i, j :: 0 <= i < j < |s| ==> s[i] < s[j]
  }

  /** The traversal lists exactly the values of the tree, and for a search
      tree it is strictly increasing. */
  lemma {:induction false} InorderSpec(t: Tree)
    ensures forall i :: 0 <= i < |Inorder(t)| ==> Inorder(t)[i] in Elems(t)
    ensures forall x :: x in Elems(t) ==> x in Inorder(t)
    ensures Bst(t) ==> Increasing(Inorder(t))
    decreases t
  {
    if t.Node? {
      InorderSpec(t.left);
      InorderSpec(t.right);
      var a, b := Inorder(t.left), Inorder(t.right);
      var s := Inorder(t);
      assert s == a + [t.data] + b;
      forall i | 0 <= i < |s| ensures s[i] in Elems(t) {
        if i < |a| { assert s[i] == a[i]; }
        else if i > |a| { assert s[i] == b[i - |a| - 1]; }
      }
      if Bst(t) {
        forall i, j | 0 <= i < j < |s| ensures s[i] < s[j] {
          if j < |a| { assert s[i] == a[i] && s[j] == a[j]; }
          else if i > |a| { assert s[i] == b[i - |a| - 1] && s[j] == b[j - |a| - 1]; }
          else {
            if i < |a| { assert s[i] == a[i]; }
            if j > |a| { assert s[j] == b[j - |a| - 1]; }
          }
        }
      }
    }
  }

  /** The walk of `minimum` (lines 76-80) and of `maximum` (lines 70-74) as
      written: both start at `self.left` and keep following `left`, so both
      raise when that child is missing. */
  function LeftmostBelow(t: Tree): (r: Result<int, Error>)
    requires t.Node?
    ensures r.Err? <==> t.left.Nil?
  {
    if t.left.Nil? then Err(NoneHasNoLeft) else Ok(Leftmost(t.left))
  }

  /** Following `left` from a node down to the last node. */
  function Leftmost(t: Tree): (r: int)
    requires t.Node?
    ensures r in Elems(t)
    decreases t
  {
    if t.left.Nil? then t.data else Leftmost(t.left)
  }

  /** Following `right` from a node down to the last node. */
  function Rightmost(t: Tree): (r: int)
    requires t.Node?
    ensures r in Elems(t)
    decreases t
  {
    if t.right.Nil? then t.data else Rightmost(t.right)
  }

  function MinimumAsWritten(t: Tree): Result<int, Error>
    requires t.Node?
  {
    LeftmostBelow(t)
  }

  function MaximumAsWritten(t: Tree): Result<int, Error>
    requires t.Node?
  {
    LeftmostBelow(t)
  }

  /** `minimum` and `maximum` as evidently intended: walk left, resp. right,
      from the node itself. */
  function Minimum(t: Tree): int
    requires t.Node?
  {
    Leftmost(t)
  }

  function Maximum(t: Tree): int
    requires t.Node?
  {
    Rightmost(t)
  }

  /** On a search tree the corrected walks give the smallest and the largest
      value. */
  lemma {:induction false} MinMaxSpec(t: Tree)
    requires t.Node? && Bst(t)
    ensures forall x :: x in Elems(t) ==> Minimum(t) <= x <= Maximum(t)
    decreases t
  {
    if t.left.Node? { MinMaxSpec(t.left); }
    if t.right.Node? { MinMaxSpec(t.right); }
  }

  /** The walks as written: on the search tree 11 with children 2 and 82,
      `maximum` answers 2 and `minimum` answers 2 (right only by luck); on a
      single node both raise although the tree has a smallest and largest
      value. */
  lemma MinMaxAsWrittenWrong()
    ensures MaximumAsWritten(Node(11, Leaf(2), Leaf(82))) == Ok(2)
    ensures MinimumAsWritten(Node(11, Leaf(2), Leaf(82))) == Ok(2)
    ensures Maximum(Node(11, Leaf(2), Leaf(82))) == 82
    ensures MinimumAsWritten(Leaf(5)).Err? && Minimum(Leaf(5)) == 5
  {
  }

  /** `delete` (lines 50-68) as written: a node with two children takes the
      value of `root.right.minimum()`, which raises when the right child has
      no left child. */
  function Delete(t: Tree, x: int): (r: Result<Tree, Error>)
    decreases t
  {
    if t.Nil? then Ok(t)
    else if x == t.data then
      if t.left.Nil? then Ok(t.right)
      else if t.right.Nil? then Ok(t.left)
      else
        var m :- MinimumAsWritten(t.right);
        var r :- Delete(t.right, m);
        Ok(Node(m, t.left, r))
    else if x < t.data then
      var l :- Delete(t.left, x);
      Ok(t.(left := l))
    else
      var r :- Delete(t.right, x);
      Ok(t.(right := r))
  }

  /** `delete` with the successor taken as the leftmost node of the right
      subtree. */
  function DeleteFixed(t: Tree, x: int): (r: Tree)
    decreases t
  {
    if t.Nil? then t
    else if x == t.data then
      if t.left.Nil? then t.right
      else if t.right.Nil? then t.left
      else
        var m := Minimum(t.right);
        Node(m, t.left, DeleteFixed(t.right, m))
    else if x < t.data then t.(left := DeleteFixed(t.left, x))
    else t.(right := DeleteFixed(t.right, x))
  }

  /** The corrected delete removes exactly `x` and keeps the search-tree
      order. */
  lemma {:induction false} DeleteFixedSpec(t: Tree, x: int)
    requires Bst(t)
    ensures Elems(DeleteFixed(t, x)) == Elems(t) - {x}
    ensures Bst(DeleteFixed(t, x))
    decreases t
  {
    if t.Node? {
      if x == t.data {
        if t.left.Node? && t.right.Node? {
          var m := Minimum(t.right);
          MinMaxSpec(t.right);
          DeleteFixedSpec(t.right, m);
          assert forall y :: y in Elems(t.left) ==> y < m;
        }
      } else if x < t.data {
        DeleteFixedSpec(t.left, x);
      } else {
        DeleteFixedSpec(t.right, x);
      }
    }
  }

  /** Wherever the delete as written succeeds, it agrees with the corrected
      one. */
  lemma {:induction false} DeleteAgrees(t: Tree, x: int)
    ensures Delete(t, x).Ok? ==> Delete(t, x).value == DeleteFixed(t, x)
    decreases t
  {
    if t.Node? {
      if x == t.data {
        if t.left.Node? && t.right.Node? && t.right.left.Node? {
          var m := Leftmost(t.right.left);
          assert Minimum(t.right) == m;
          DeleteAgrees(t.right, m);
        }
      } else if x < t.data {
        DeleteAgrees(t.left, x);
      } else {
        DeleteAgrees(t.right, x);
      }
    }
  }

  /** Deleting the root 11 of the search tree 11 with children 2 and 82
      raises, because 82 has no left child; the corrected delete leaves 82
      with left child 2. */
  lemma DeleteTwoChildrenFails()
    ensures Delete(Node(11, Leaf(2), Leaf(82)), 11).Err?
    ensures DeleteFixed(Node(11, Leaf(2), Leaf(82)), 11) == Node(82, Leaf(2), Nil)
  {
  }

  /** The demonstration (lines 83-97): 11, then 82, 2, 13 and 14 inserted,
      then 82 deleted; the traversal is 2, 11, 13, 14. */
  lemma DemoTree()
    ensures var t1 := Insert(Leaf(11), 82).value;
      var t2 := Insert(t1, 2).value;
      var t3 := Insert(t2, 13).value;
      var t4 := Insert(t3, 14).value;
      t4 == Node(11, Leaf(2), Node(82, Node(13, Nil, Leaf(14)), Nil)) &&
      Delete(t4, 82) == Ok(Node(11, Leaf(2), Node(13, Nil, Leaf(14)))) &&
      Inorder(Delete(t4, 82).value) == [2, 11, 13, 14]
  {
    var t4 := Node(11, Leaf(2), Node(82, Node(13, Nil, Leaf(14)), Nil));
    assert Inorder(Node(13, Nil, Leaf(14))) == [13, 14];
    assert Inorder(Node(11, Leaf(2), Node(13, Nil, Leaf(14)))) == [2] + [11] + [13, 14];
  }
}
