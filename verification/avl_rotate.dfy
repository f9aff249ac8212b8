/**
 * The single rotations shared by insertion, deletion and join. A rotation
 * relinks three subtrees and recomputes the height and size of exactly the
 * two nodes it moves; everything above them is the caller's business.
 */
module Rotations {
  import opened AvlNode

  /** Height and size of this one node agree with its children. */
  ghost predicate LocallyConsistent(t: Tree) {
    && t.Node?
    && t.height == 1 + Max(Height(t.left), Height(t.right))
    && t.size == Size(t.left) + Size(t.right) + 1
  }

  /** Right rotation of `t` with its left child, which becomes the new root. */
  function RotateRight(t: Tree): (r: Tree)
    requires t.Node? && t.left.Node?
    ensures r.Node? && r.right.Node?
    ensures InOrder(r) == InOrder(t)
    ensures LocallyConsistent(r) && LocallyConsistent(r.right)
    ensures r.key == t.left.key && r.right.key == t.key
    ensures r.left == t.left.left && r.right.left == t.left.right && r.right.right == t.right
  {
    var newRoot := t.left;
    var oldRoot := MakeNode(newRoot.right, t.key, t.value, t.right);
    MakeNode(newRoot.left, newRoot.key, newRoot.value, oldRoot)
  }

  /** Left rotation of `t` with its right child, which becomes the new root. */
  function RotateLeft(t: Tree): (r: Tree)
    requires t.Node? && t.right.Node?
    ensures r.Node? && r.left.Node?
    ensures InOrder(r) == InOrder(t)
    ensures LocallyConsistent(r) && LocallyConsistent(r.left)
    ensures r.key == t.right.key && r.left.key == t.key
    ensures r.left.left == t.left && r.left.right == t.right.left && r.right == t.right.right
  {
    var newRoot := t.right;
    var oldRoot := MakeNode(t.left, t.key, t.value, newRoot.left);
    MakeNode(oldRoot, newRoot.key, newRoot.value, newRoot.right)
  }

  /** A right rotation keeps the pairs, the search order and (over consistent subtrees) the sizes. */
  lemma RotateRightKeeps(t: Tree)
    requires t.Node? && t.left.Node?
    ensures Keys(RotateRight(t)) == Keys(t) && Contents(RotateRight(t)) == Contents(t)
    ensures Bst(RotateRight(t)) <==> Bst(t)
    ensures SizesOk(t.left.left) && SizesOk(t.left.right) && SizesOk(t.right) ==> SizesOk(RotateRight(t))
  {
    SameInOrder(RotateRight(t), t);
  }

  /** A left rotation keeps the pairs, the search order and (over consistent subtrees) the sizes. */
  lemma RotateLeftKeeps(t: Tree)
    requires t.Node? && t.right.Node?
    ensures Keys(RotateLeft(t)) == Keys(t) && Contents(RotateLeft(t)) == Contents(t)
    ensures Bst(RotateLeft(t)) <==> Bst(t)
    ensures SizesOk(t.left) && SizesOk(t.right.left) && SizesOk(t.right.right) ==> SizesOk(RotateLeft(t))
  {
    SameInOrder(RotateLeft(t), t);
  }

  /** A right rotation of a repairable node yields a search tree with consistent sizes. */
  lemma RotateRightOrdered(n: Tree)
    requires n.Node? && n.left.Node? && Bst(n.left) && Bst(n.right) && SizesOk(n.left) && SizesOk(n.right)
    requires AllBelow(Keys(n.left), n.key) && AllAbove(Keys(n.right), n.key)
    requires n.size == Size(n.left) + Size(n.right) + 1
    ensures Bst(RotateRight(n)) && SizesOk(RotateRight(n))
    ensures InOrder(RotateRight(n)) == InOrder(n) && Size(RotateRight(n)) == n.size
  {
    assert Bst(n);
    assert SizesOk(n.left.left) && SizesOk(n.left.right);
    RotateRightKeeps(n);
  }

  /** A left rotation of a repairable node yields a search tree with consistent sizes. */
  lemma RotateLeftOrdered(n: Tree)
    requires n.Node? && n.right.Node? && Bst(n.left) && Bst(n.right) && SizesOk(n.left) && SizesOk(n.right)
    requires AllBelow(Keys(n.left), n.key) && AllAbove(Keys(n.right), n.key)
    requires n.size == Size(n.left) + Size(n.right) + 1
    ensures Bst(RotateLeft(n)) && SizesOk(RotateLeft(n))
    ensures InOrder(RotateLeft(n)) == InOrder(n) && Size(RotateLeft(n)) == n.size
  {
    assert Bst(n);
    assert SizesOk(n.right.left) && SizesOk(n.right.right);
    RotateLeftKeeps(n);
  }
}
