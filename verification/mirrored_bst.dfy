/** `BinarySearchTree` of old/leetcoding02.py: a search tree with the order
    mirrored (a value at least the node's goes left, a smaller one right)
    that stores duplicates. The tree shape is shared with the plain search
    tree model. */
module MirroredBst {
  import opened BinaryTree

  function MElems(t: Tree): multiset<int> {
    if t.Nil? then multiset{} else MElems(t.left) + multiset{t.data} + MElems(t.right)
  }

  lemma {:induction false} MElemsIsElems(t: Tree, x: int)
    ensures x in MElems(t) <==> x in Elems(t)
    decreases t
  {
    if t.Node? {
      MElemsIsElems(t.left, x);
      MElemsIsElems(t.right, x);
    }
  }

  /** The mirrored order: values at least the node's on the left, smaller
      ones on the right. */
  predicate Mirrored(t: Tree) {
    t.Node? ==>
      Mirrored(t.left) && Mirrored(t.right) &&
      (forall x :: x in Elems(t.left) ==> x >= t.data) &&
      (forall x :: x in Elems(t.right) ==> x < t.data)
  }

  /** `add` (lines 22-44): an empty tree gets a root; otherwise the walk goes
      left on `number >= val`, right otherwise, and hangs a new leaf where the
      child is missing. It never rejects a value. */
  function Add(t: Tree, n: int): (r: Tree)
    ensures r.Node?
    ensures MElems(r) == MElems(t) + multiset{n}
    decreases t
  {
    if t.Nil? then Leaf(n)
    else if n >= t.data then t.(left := Add(t.left, n))
    else t.(right := Add(t.right, n))
  }

  /** `exist` (lines 47-62), following the same direction rule. */
  function Exist(t: Tree, n: int): bool
    decreases t
  {
    if t.Nil? then false
    else if t.data == n then true
    else if n >= t.data then Exist(t.left, n)
    else Exist(t.right, n)
  }

  /** Adding keeps the mirrored order. */
  lemma {:induction false} AddKeepsMirrored(t: Tree, n: int)
    requires Mirrored(t)
    ensures Mirrored(Add(t, n))
    ensures Elems(Add(t, n)) == Elems(t) + {n}
    decreases t
  {
    if t.Node? {
      if n >= t.data { AddKeepsMirrored(t.left, n); } else { AddKeepsMirrored(t.right, n); }
    }
  }

  /** On a mirrored tree `exist` answers exactly whether the value is stored. */
  lemma {:induction false} ExistSpec(t: Tree, n: int)
    requires Mirrored(t)
    ensures Exist(t, n) <==> n in Elems(t)
    decreases t
  {
    if t.Node? && t.data != n {
      if n >= t.data { ExistSpec(t.left, n); } else { ExistSpec(t.right, n); }
    }
  }

  /** After `add(n)`, `exist(n)` holds, and every value that existed still
      does. */
  lemma AddThenExist(t: Tree, n: int, m: int)
    requires Mirrored(t)
    ensures Exist(Add(t, n), n)
    ensures Exist(t, m) ==> Exist(Add(t, n), m)
  {
    AddKeepsMirrored(t, n);
    ExistSpec(Add(t, n), n);
    ExistSpec(Add(t, n), m);
    ExistSpec(t, m);
  }

  /** A value added twice is stored twice, the copy to the left of the first. */
  lemma DuplicatesStored(n: int)
    ensures Add(Add(Nil, n), n) == Node(n, Leaf(n), Nil)
    ensures MElems(Add(Add(Nil, n), n))[n] == 2
  {
  }
}
