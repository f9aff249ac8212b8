/**
 * Read-only operations: the root-to-leaf positioning walk, search, the
 * extremes, successor and predecessor, emptiness and size.
 */
module Lookup {
  import opened AvlNode

  /**
   * The positioning walk: the node holding `k` when there is one, otherwise
   * the last real node visited, which is where `k` would be attached.
   * An empty tree yields the sentinel.
   */
  function TreePosition(t: Tree, k: int): (p: Tree)
    requires Bst(t)
    ensures t.Node? <==> p.Node?
    ensures p.Node? ==> p.key in Contents(t) && Contents(t)[p.key] == p.value
    ensures p.Node? ==> (p.key == k <==> k in Keys(t))
    ensures p.Node? && k !in Keys(t) ==>
      (k < p.key ==> p.left.Leaf?) && (k > p.key ==> p.right.Leaf?)
  {
    match t
    case Leaf => Leaf
    case Node(l, key, _, r, _, _) =>
      ContentsKeys(l);
      ContentsKeys(r);
      if key == k then t
      else if key < k then (if r.Leaf? then t else TreePosition(r, k))
      else (if l.Leaf? then t else TreePosition(l, k))
  }

  /**
   * The position of an absent key is its attachment point: no key of the
   * tree lies strictly between the key and the position's key, so hanging
   * the key below that node keeps the search order.
   */
  lemma {:induction false} PositionIsAttachPoint(t: Tree, k: int)
    requires Bst(t) && t.Node? && k !in Keys(t)
    ensures NoKeyBetween(Keys(t), k, TreePosition(t, k).key)
    decreases t
  {
    var Node(l, key, _, r, _, _) := t;
    if key < k && r.Node? {
      PositionIsAttachPoint(r, k);
      ContentsKeys(r);
      BetweenFromRight(t, k, TreePosition(r, k).key);
    } else if key > k && l.Node? {
      PositionIsAttachPoint(l, k);
      ContentsKeys(l);
      BetweenFromLeft(t, k, TreePosition(l, k).key);
    }
  }

  /** A gap in the right subtree around `k` is a gap in the whole tree. */
  lemma BetweenFromRight(t: Tree, k: int, pk: int)
    requires t.Node? && Bst(t) && t.key < k && pk in Keys(t.right)
    requires NoKeyBetween(Keys(t.right), k, pk)
    ensures NoKeyBetween(Keys(t), k, pk)
  {
  }

  /** A gap in the left subtree around `k` is a gap in the whole tree. */
  lemma BetweenFromLeft(t: Tree, k: int, pk: int)
    requires t.Node? && Bst(t) && t.key > k && pk in Keys(t.left)
    requires NoKeyBetween(Keys(t.left), k, pk)
    ensures NoKeyBetween(Keys(t), k, pk)
  {
  }

  /**
   * No element of `s` lies strictly between `a` and `b`: attaching `a` as a
   * child of the node holding `b` keeps the search order.
   */
  ghost predicate NoKeyBetween(s: set<int>, a: int, b: int) {
    forall x :: x in s ==> !(a < x < b) && !(b < x < a)
  }

  /** The value stored with `k`, or nothing when `k` is absent. */
  function Search(t: Tree, k: int): (r: Option<string>)
    requires Bst(t)
    ensures r.Some? <==> k in Keys(t)
    ensures r.Some? ==> k in Contents(t) && Contents(t)[k] == r.value
  {
    var p := TreePosition(t, k);
    if p.Node? && p.key == k then Some(p.value) else None
  }

  /** True exactly when the tree holds no key. */
  function Empty(t: Tree): (b: bool)
    ensures b <==> Keys(t) == {}
  {
    t.Leaf?
  }

  /** The number of keys, read from the root's size field. */
  function SizeOf(t: Tree): (n: int)
    requires Valid(t)
    ensures n == |Keys(t)| && n == |Contents(t)|
  {
    SizeCountsKeys(t);
    ContentsKeys(t);
    Size(t)
  }

  /** The leftmost key: the smallest key of a search tree. */
  function MinKey(t: Tree): (m: int)
    requires t.Node? && Bst(t)
    ensures m in Keys(t) && forall x :: x in Keys(t) ==> m <= x
  {
    if t.left.Leaf? then t.key else MinKey(t.left)
  }

  /** The rightmost key: the largest key of a search tree. */
  function MaxKey(t: Tree): (m: int)
    requires t.Node? && Bst(t)
    ensures m in Keys(t) && forall x :: x in Keys(t) ==> x <= m
  {
    if t.right.Leaf? then t.key else MaxKey(t.right)
  }

  /** The value of the smallest key, or nothing for an empty tree. */
  function MinValue(t: Tree): (r: Option<string>)
    requires Bst(t)
    ensures r.None? <==> t.Leaf?
    ensures r.Some? ==> MinKey(t) in Contents(t) && r.value == Contents(t)[MinKey(t)]
  {
    match t
    case Leaf => None
    case Node(l, k, v, r, _, _) =>
      ContentsKeys(l);
      ContentsKeys(r);
      if l.Leaf? then Some(v)
      else
        var m := MinValue(l);
        assert MinKey(t) == MinKey(l) && MinKey(l) in Keys(l);
        m
  }

  /** The value of the largest key, or nothing for an empty tree. */
  function MaxValue(t: Tree): (r: Option<string>)
    requires Bst(t)
    ensures r.None? <==> t.Leaf?
    ensures r.Some? ==> MaxKey(t) in Contents(t) && r.value == Contents(t)[MaxKey(t)]
  {
    match t
    case Leaf => None
    case Node(l, k, v, r, _, _) =>
      ContentsKeys(l);
      ContentsKeys(r);
      if r.Leaf? then Some(v)
      else
        var m := MaxValue(r);
        assert MaxKey(t) == MaxKey(r) && MaxKey(r) in Keys(r);
        m
  }

  /** `r` is the least element of `s` above `k`, or nothing when no element is above `k`. */
  ghost predicate LeastAbove(s: set<int>, k: int, r: Option<int>) {
    if r.Some? then r.value in s && r.value > k && (forall x :: x in s && x > k ==> r.value <= x)
    else forall x :: x in s ==> x <= k
  }

  /** `r` is the greatest element of `s` below `k`, or nothing when no element is below `k`. */
  ghost predicate GreatestBelow(s: set<int>, k: int, r: Option<int>) {
    if r.Some? then r.value in s && r.value < k && (forall x :: x in s && x < k ==> x <= r.value)
    else forall x :: x in s ==> x >= k
  }

  ghost function OptSet(o: Option<int>): set<int> {
    if o.Some? then {o.value} else {}
  }

  /**
   * The successor walk: the leftmost key of the right subtree when there is
   * one, otherwise the nearest ancestor reached from its left side (`turn`).
   */
  function SuccessorFrom(t: Tree, k: int, turn: Option<int>): (r: Option<int>)
    requires Bst(t) && k in Keys(t)
    requires turn.Some? ==> AllBelow(Keys(t), turn.value)
    ensures LeastAbove(Keys(t) + OptSet(turn), k, r)
  {
    var Node(l, key, _, right, _, _) := t;
    if k == key then
      if right.Node? then Some(MinKey(right)) else turn
    else if k < key then SuccessorFrom(l, k, Some(key))
    else SuccessorFrom(right, k, turn)
  }

  /** The mirror walk for the predecessor. */
  function PredecessorFrom(t: Tree, k: int, turn: Option<int>): (r: Option<int>)
    requires Bst(t) && k in Keys(t)
    requires turn.Some? ==> AllAbove(Keys(t), turn.value)
    ensures GreatestBelow(Keys(t) + OptSet(turn), k, r)
  {
    var Node(l, key, _, right, _, _) := t;
    if k == key then
      if l.Node? then Some(MaxKey(l)) else turn
    else if k > key then PredecessorFrom(right, k, Some(key))
    else PredecessorFrom(l, k, turn)
  }

  /** The next larger key after the present key `k`, or nothing when `k` is the largest. */
  function Successor(t: Tree, k: int): (r: Option<int>)
    requires Bst(t) && k in Keys(t)
    ensures LeastAbove(Keys(t), k, r)
  {
    assert Keys(t) + OptSet(None) == Keys(t);
    SuccessorFrom(t, k, None)
  }

  /** The next smaller key before the present key `k`, or nothing when `k` is the smallest. */
  function Predecessor(t: Tree, k: int): (r: Option<int>)
    requires Bst(t) && k in Keys(t)
    ensures GreatestBelow(Keys(t), k, r)
  {
    assert Keys(t) + OptSet(None) == Keys(t);
    PredecessorFrom(t, k, None)
  }
}
