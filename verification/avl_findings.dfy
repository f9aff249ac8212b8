/**
 * Behaviour of AVLTree.java that departs from what its own
 * documentation and invariants promise. Each definition here follows the
 * code as it stands; next to it, a lemma names inputs on which it departs
 * from the corrected definition used by the rest of the model.
 */
module Findings {
  import opened AvlNode
  import opened Lookup
  import opened Deletion
  import opened JoinSplit

  /** A walk over node references either finishes or dereferences a null reference. */
  datatype Walk<T> = Done(result: T) | NullDereference

  // ---------------------------------------------------------------------
  // The small-root shortcut of delete.
  // ---------------------------------------------------------------------

  /**
   * The shortcut as written: the child that becomes the root has its own
   * size decremented, instead of receiving the size of the remaining tree.
   */
  function DeleteSmallRootAsWritten(t: Tree): (res: Tree)
    requires Valid(t) && t.Node? && 2 <= Size(t) <= 3
    ensures res.Node?
    ensures InOrder(res) == InOrder(DeleteSmallRoot(t))
  {
    SmallShapes(t);
    var Node(l, _, _, r, _, _) := t;
    if l.Node? && r.Node? then Node(l, r.key, r.value, r.right, r.height + 1, r.size - 1)
    else if l.Leaf? then r.(size := r.size - 1)
    else l.(size := l.size - 1)
  }

  /**
   * On every input the shortcut applies to, the new root's size is below
   * the number of remaining keys, so the size invariant breaks.
   */
  lemma SmallRootSizeTooSmall(t: Tree)
    requires Valid(t) && t.Node? && 2 <= Size(t) <= 3
    ensures Size(DeleteSmallRootAsWritten(t)) < Size(DeleteSmallRoot(t))
    ensures !SizesOk(DeleteSmallRootAsWritten(t))
  {
    SmallShapes(t);
    var Node(l, _, _, r, _, _) := t;
    if l.Node? && r.Node? {
      assert SizesOk(r) && r.size == 1;
    } else if l.Leaf? {
      assert SizesOk(r);
    } else {
      assert SizesOk(l);
    }
  }

  /**
   * The two-node instances: a root with only a right child; deleting the
   * root leaves the child with size 0 instead of 1.
   */
  lemma SmallRootExample(k1: int, v1: string, k2: int, v2: string)
    requires k1 < k2
    ensures var t := MakeNode(Leaf, k1, v1, NewNode(k2, v2));
      Valid(t) && Size(t) == 2 &&
      DeleteSmallRootAsWritten(t) == Node(Leaf, k2, v2, Leaf, 0, 0) &&
      DeleteSmallRoot(t) == NewNode(k2, v2)
  {
    NewNodeValid(k2, v2);
    SpliceValid(Leaf, k1, v1, NewNode(k2, v2));
  }

  // ---------------------------------------------------------------------
  // The size pass of delete in a two-node tree.
  // ---------------------------------------------------------------------

  /**
   * Deleting the child of a two-node tree as written: the tree's counter has
   * already dropped to 1 when the size pass starts at the root, and that
   * pass returns at once at the root while the counter is 1, so the root
   * keeps size 2; the rebalancing walk then demotes the root to height 0.
   */
  function ChildDeleteAsWritten(t: Tree, k: int): (res: Tree)
    requires Valid(t) && Size(t) == 2 && k in Keys(t) && k != t.key
    ensures res.Node? && res.key == t.key && res.size == Size(t)
  {
    Node(Leaf, t.key, t.value, Leaf, 0, t.size)
  }

  /**
   * On every two-node tree, deleting the child as written leaves exactly
   * the corrected result except for the root's size, which is one too
   * large, so the size invariant breaks.
   */
  lemma ChildDeleteSizeTooLarge(t: Tree, k: int)
    requires Valid(t) && Size(t) == 2 && k in Keys(t) && k != t.key
    ensures Delete(t, k).tree == NewNode(t.key, t.value)
    ensures ChildDeleteAsWritten(t, k) == Delete(t, k).tree.(size := 2)
    ensures !SizesOk(ChildDeleteAsWritten(t, k))
  {
    var d := Delete(t, k).tree;
    assert Valid(d) && Size(d) == 1 && Keys(d) == Keys(t) - {k};
    TwoNodeKeys(t, k);
    assert Keys(d) == {t.key};
    SizePositive(d.left);
    SizePositive(d.right);
    assert RankDiffLegal(d);
    ContentsKeys(t);
    assert t.key in Contents(d) && Contents(d)[t.key] == t.value;
  }

  /** A two-node tree holds its root key and the one other key. */
  lemma TwoNodeKeys(t: Tree, k: int)
    requires Valid(t) && Size(t) == 2 && k in Keys(t) && k != t.key
    ensures Keys(t) == {t.key, k}
  {
    SmallShapes(t);
    var Node(l, _, _, r, _, _) := t;
    SizePositive(l);
    SizePositive(r);
    if l.Node? {
      SizePositive(l.left);
      SizePositive(l.right);
    } else {
      SizePositive(r.left);
      SizePositive(r.right);
    }
  }

  /**
   * The instances: a root k1 with right child k2, delete k2. The corrected
   * result is the single node k1; as written that node keeps size 2.
   */
  lemma ChildDeleteExample(k1: int, v1: string, k2: int, v2: string)
    requires k1 < k2
    ensures var t := MakeNode(Leaf, k1, v1, NewNode(k2, v2));
      Valid(t) && Size(t) == 2 &&
      ChildDeleteAsWritten(t, k2) == Node(Leaf, k1, v1, Leaf, 0, 2) &&
      Delete(t, k2).tree == NewNode(k1, v1)
  {
    NewNodeValid(k2, v2);
    SpliceValid(Leaf, k1, v1, NewNode(k2, v2));
    var t := MakeNode(Leaf, k1, v1, NewNode(k2, v2));
    ChildDeleteSizeTooLarge(t, k2);
  }

  // ---------------------------------------------------------------------
  // The value join returns.
  // ---------------------------------------------------------------------

  /** The value returned for two non-empty trees as written: the heights are added. */
  function JoinCostAsWritten(h1: int, h2: int): int {
    Abs(h1 + h2) + 1
  }

  /**
   * For non-empty trees the returned value agrees with the documented
   * height difference plus one exactly when one of the trees is a single
   * node.
   */
  lemma JoinCostMismatch(h1: int, h2: int)
    requires h1 >= 0 && h2 >= 0
    ensures JoinCostAsWritten(h1, h2) == JoinCost(h1, h2) <==> h1 == 0 || h2 == 0
    ensures JoinCostAsWritten(h1, h2) >= JoinCost(h1, h2)
  {
  }

  /** Joining trees of heights 1 and 2 reports 4; the documented value is 2. */
  lemma JoinCostExample()
    ensures JoinCostAsWritten(1, 2) == 4 && JoinCost(1, 2) == 2
  {
  }

  /**
   * The corrected value bounds the work: the number of spine nodes the join
   * descends is below the height difference plus one.
   */
  lemma JoinCostCoversDescent(lo: Tree, k: int, v: string, hi: Tree)
    requires Valid(lo) && Valid(hi) && AllBelow(Keys(lo), k) && AllAbove(Keys(hi), k)
    requires lo.Node? && hi.Node?
    ensures JoinOrdered(lo, k, v, hi).depth < Join(lo, k, v, hi).count
  {
    assert lo.key < k;
  }

  // ---------------------------------------------------------------------
  // The splice of an unequal-height join.
  // ---------------------------------------------------------------------

  /**
   * The node of the taller tree's left spine whose left child is the first
   * spine node no taller than `h`: the parent of the splice point.
   */
  function SpliceParent(n: Tree, h: int): (p: Tree)
    requires n.Node? && Height(n) > h >= 0
    ensures p.Node? && Height(p) > h >= Height(p.left)
    decreases n
  {
    if Height(n.left) <= h then n else SpliceParent(n.left, h)
  }

  /**
   * The left-spine splice as written, on the path where the splice parent
   * has two children: the displaced node and the pivot each gain one more
   * than their subtree holds, and each ancestor gains two, one from the
   * walk up to the root and one from the size pass of the insertion walk,
   * which returns at once because the parent has two children.
   */
  function SpliceLeftAsWritten(n: Tree, lo: Tree, k: int, v: string): (res: Tree)
    requires n.Node? && Height(n) > Height(lo) >= 0
    requires SpliceParent(n, Height(lo)).left.Node?
    ensures res.Node? && res.key == n.key
    decreases n
  {
    var c := n.left;
    if Height(c) <= Height(lo) then
      var x := Node(lo, k, v, c.(size := c.size + 1), 1 + Max(Height(lo), Height(c)), Size(lo) + Size(c) + 2);
      n.(left := x, size := n.size + 2)
    else
      n.(left := SpliceLeftAsWritten(c, lo, k, v), size := n.size + 2)
  }

  /**
   * Joining a shorter tree of smaller keys into a taller one as written,
   * when the splice parent has two children: the splice, then the root's
   * height raised by one.
   */
  function JoinTallerAsWritten(lo: Tree, k: int, v: string, hi: Tree): (res: Tree)
    requires Valid(lo) && Valid(hi) && Height(hi) > Height(lo) >= 0
    requires SpliceParent(hi, Height(lo)).left.Node? && SpliceParent(hi, Height(lo)).right.Node?
    ensures res.Node?
  {
    var r := SpliceLeftAsWritten(hi, lo, k, v);
    r.(height := r.height + 1)
  }

  /**
   * Whenever the splice applies, the displaced node's size exceeds its
   * subtree's, so the size invariant fails below the root.
   */
  lemma {:induction false} SpliceBreaksSizes(n: Tree, lo: Tree, k: int, v: string)
    requires SizesOk(n) && n.Node? && Height(n) > Height(lo) >= 0
    requires SpliceParent(n, Height(lo)).left.Node?
    ensures !SizesOk(SpliceLeftAsWritten(n, lo, k, v).left)
    decreases n
  {
    var c := n.left;
    if Height(c) > Height(lo) {
      SpliceBreaksSizes(c, lo, k, v);
    }
  }

  /** So no such as-written join yields a tree whose sizes are consistent. */
  lemma JoinTallerBreaksSizes(lo: Tree, k: int, v: string, hi: Tree)
    requires Valid(lo) && Valid(hi) && Height(hi) > Height(lo) >= 0
    requires SpliceParent(hi, Height(lo)).left.Node? && SpliceParent(hi, Height(lo)).right.Node?
    ensures !SizesOk(JoinTallerAsWritten(lo, k, v, hi))
  {
    SpliceBreaksSizes(hi, lo, k, v);
  }

  /**
   * The instances k1 joined around k2 with k4 over k3 and k5: node k3 ends
   * with size 2 and the pivot with size 4, while the corrected join is
   * valid.
   */
  lemma JoinTallerExample(k1: int, k2: int, k3: int, k4: int, k5: int, v: string)
    requires k1 < k2 < k3 < k4 < k5
    ensures var lo := NewNode(k1, v);
      var hi := MakeNode(NewNode(k3, v), k4, v, NewNode(k5, v));
      Valid(lo) && Valid(hi) && Height(hi) > Height(lo) >= 0 &&
      AllBelow(Keys(lo), k2) && AllAbove(Keys(hi), k2) &&
      SpliceParent(hi, Height(lo)).left.Node? && SpliceParent(hi, Height(lo)).right.Node? &&
      JoinTallerAsWritten(lo, k2, v, hi).left == Node(lo, k2, v, Node(Leaf, k3, v, Leaf, 0, 2), 1, 4) &&
      Valid(JoinOrdered(lo, k2, v, hi).tree)
  {
    NewNodeValid(k1, v);
    NewNodeValid(k3, v);
    NewNodeValid(k5, v);
    SpliceValid(NewNode(k3, v), k4, v, NewNode(k5, v));
  }

  /**
   * The instances k1 joined around k2 with k6 over (k4 over k3, k5) and
   * (k8 over k7, k9): the splice leaves node k4 with rank differences
   * (0,1), because the insertion walk returns at once, and the unconditional
   * raise of the root's height leaves the root at (2,2). So the rank rule
   * breaks too.
   */
  lemma JoinTallerRanksExample(k1: int, k2: int, k3: int, k4: int, k5: int,
                               k6: int, k7: int, k8: int, k9: int, v: string)
    requires k1 < k2 < k3 < k4 < k5 < k6 < k7 < k8 < k9
    ensures var lo := NewNode(k1, v);
      var hi := MakeNode(MakeNode(NewNode(k3, v), k4, v, NewNode(k5, v)), k6, v,
                         MakeNode(NewNode(k7, v), k8, v, NewNode(k9, v)));
      Valid(lo) && Valid(hi) && Height(hi) > Height(lo) >= 0 &&
      AllBelow(Keys(lo), k2) && AllAbove(Keys(hi), k2) &&
      SpliceParent(hi, Height(lo)).left.Node? && SpliceParent(hi, Height(lo)).right.Node? &&
      !RanksOk(JoinTallerAsWritten(lo, k2, v, hi)) &&
      Valid(JoinOrdered(lo, k2, v, hi).tree)
  {
    NewNodeValid(k1, v);
    NewNodeValid(k3, v);
    NewNodeValid(k5, v);
    NewNodeValid(k7, v);
    NewNodeValid(k9, v);
    var a := MakeNode(NewNode(k3, v), k4, v, NewNode(k5, v));
    var b := MakeNode(NewNode(k7, v), k8, v, NewNode(k9, v));
    SpliceValid(NewNode(k3, v), k4, v, NewNode(k5, v));
    SpliceValid(NewNode(k7, v), k8, v, NewNode(k9, v));
    assert Keys(a) == {k3, k4, k5} && Keys(b) == {k7, k8, k9};
    SpliceValid(a, k6, v, b);
    var hi := MakeNode(a, k6, v, b);
    assert Height(hi) == 2 && Height(a) == 1;
    assert SpliceParent(hi, 0) == a;
    var x := Node(NewNode(k1, v), k2, v, NewNode(k3, v).(size := 2), 1, 4);
    assert SpliceLeftAsWritten(a, NewNode(k1, v), k2, v) == a.(left := x, size := 5);
    assert SpliceLeftAsWritten(hi, NewNode(k1, v), k2, v) == hi.(left := a.(left := x, size := 5), size := 9);
    var r := JoinTallerAsWritten(NewNode(k1, v), k2, v, hi);
    assert !RankDiffLegal(r.left);
    assert r.height == 3 && Height(r.right) == 1;
    assert !RankDiffLegal(r);
  }

  // ---------------------------------------------------------------------
  // The positioning walk.
  // ---------------------------------------------------------------------

  /**
   * The walk as written: the loop stops at a node whose key is the sentinel
   * key. After a step to the right child, the second test compares that
   * child's key again, so a sentinel child (key -1) above a key below -1
   * leads to the sentinel's absent left child.
   */
  function WalkAsWritten(cur: Tree, prev: Tree, k: int): (res: Walk<Tree>)
    ensures res == NullDereference ==> k < SentinelKey
    ensures res.Done? && prev.Node? ==> res.result.Node?
    decreases cur
  {
    if KeyOf(cur) == SentinelKey then Done(prev)
    else if cur.key == k then Done(cur)
    else if cur.key < k then
      var r := cur.right;
      if KeyOf(r) > k then
        if r.Leaf? then NullDereference else WalkAsWritten(r.left, r, k)
      else WalkAsWritten(r, cur, k)
    else WalkAsWritten(cur.left, cur, k)
  }

  /** treePosition(k) as written: an empty tree has no root to start from. */
  function PositionAsWritten(t: Tree, k: int): (res: Walk<Tree>)
    ensures t.Leaf? ==> res == NullDereference
  {
    if t.Leaf? then NullDereference else WalkAsWritten(t, t, k)
  }

  /**
   * On a non-empty search tree without the sentinel key, and for keys not
   * below the sentinel key, the walk as written finds the same position as
   * the corrected walk.
   */
  lemma {:induction false} WalkAgrees(cur: Tree, prev: Tree, k: int)
    requires Bst(cur) && cur.Node? && SentinelKey !in Keys(cur) && k >= SentinelKey
    ensures WalkAsWritten(cur, prev, k) == Done(TreePosition(cur, k))
    decreases cur
  {
    var Node(l, key, _, r, _, _) := cur;
    if key < k {
      if r.Node? {
        if r.key > k {
          if r.left.Node? {
            WalkAgrees(r.left, r, k);
          }
        } else {
          WalkAgrees(r, cur, k);
        }
      }
    } else if key > k {
      if l.Node? {
        WalkAgrees(l, cur, k);
      }
    }
  }

  /** So on those inputs, treePosition as written agrees with the model. */
  lemma PositionAgrees(t: Tree, k: int)
    requires Bst(t) && t.Node? && SentinelKey !in Keys(t) && k >= SentinelKey
    ensures PositionAsWritten(t, k) == Done(TreePosition(t, k))
  {
    WalkAgrees(t, t, k);
  }

  /**
   * The departures: searching an empty tree dereferences null, and so does
   * looking for a key k in a one-node tree whose key k0 is below it when k
   * is below -1, since the walk steps right onto a sentinel; the corrected
   * search answers "absent" in both cases.
   */
  lemma PositionExamples(k0: int, k: int, v: string)
    requires k0 < k < SentinelKey
    ensures PositionAsWritten(Leaf, k) == NullDereference && Search(Leaf, k) == None
    ensures PositionAsWritten(NewNode(k0, v), k) == NullDereference
    ensures Bst(NewNode(k0, v)) && Search(NewNode(k0, v), k) == None
  {
    NewNodeValid(k0, v);
  }

  // ---------------------------------------------------------------------
  // Successor and predecessor.
  // ---------------------------------------------------------------------

  /**
   * The successor walk as written, for a tree whose root has no parent:
   * without a right subtree the walk climbs while the current node is a
   * right child, and from the root it reads the parent's child, which is
   * null. `turn` is the nearest ancestor entered from its left side.
   */
  function SuccessorAsWritten(t: Tree, k: int, turn: Option<int>): (res: Walk<int>)
    requires Bst(t) && k in Keys(t)
    ensures res == NullDereference ==> turn.None? && forall x :: x in Keys(t) ==> x <= k
  {
    var Node(l, key, _, r, _, _) := t;
    if k == key then
      if r.Node? then Done(MinKey(r))
      else if turn.Some? then Done(turn.value) else NullDereference
    else if k < key then SuccessorAsWritten(l, k, Some(key))
    else SuccessorAsWritten(r, k, turn)
  }

  /** The mirror walk for the predecessor. */
  function PredecessorAsWritten(t: Tree, k: int, turn: Option<int>): (res: Walk<int>)
    requires Bst(t) && k in Keys(t)
    ensures res == NullDereference ==> turn.None? && forall x :: x in Keys(t) ==> x >= k
  {
    var Node(l, key, _, r, _, _) := t;
    if k == key then
      if l.Node? then Done(MaxKey(l))
      else if turn.Some? then Done(turn.value) else NullDereference
    else if k > key then PredecessorAsWritten(r, k, Some(key))
    else PredecessorAsWritten(l, k, turn)
  }

  /** Where the corrected walk finds a successor the walk as written finds the same one. */
  lemma {:induction false} SuccessorWalkAgrees(t: Tree, k: int, turn: Option<int>)
    requires Bst(t) && k in Keys(t)
    requires turn.Some? ==> AllBelow(Keys(t), turn.value)
    ensures SuccessorFrom(t, k, turn).Some? ==> SuccessorAsWritten(t, k, turn) == Done(SuccessorFrom(t, k, turn).value)
    ensures SuccessorFrom(t, k, turn).None? ==> SuccessorAsWritten(t, k, turn) == NullDereference
    decreases t
  {
    var Node(l, key, _, r, _, _) := t;
    if k < key {
      SuccessorWalkAgrees(l, k, Some(key));
    } else if k > key {
      SuccessorWalkAgrees(r, k, turn);
    }
  }

  /** Where the corrected walk finds a predecessor the walk as written finds the same one. */
  lemma {:induction false} PredecessorWalkAgrees(t: Tree, k: int, turn: Option<int>)
    requires Bst(t) && k in Keys(t)
    requires turn.Some? ==> AllAbove(Keys(t), turn.value)
    ensures PredecessorFrom(t, k, turn).Some? ==> PredecessorAsWritten(t, k, turn) == Done(PredecessorFrom(t, k, turn).value)
    ensures PredecessorFrom(t, k, turn).None? ==> PredecessorAsWritten(t, k, turn) == NullDereference
    decreases t
  {
    var Node(l, key, _, r, _, _) := t;
    if k > key {
      PredecessorWalkAgrees(r, k, Some(key));
    } else if k < key {
      PredecessorWalkAgrees(l, k, turn);
    }
  }

  /**
   * The walks as written fail exactly at the extremes: the successor of the
   * largest key and the predecessor of the smallest. Split computes both
   * for its pivot, so splitting at either extreme fails.
   */
  lemma ExtremesFail(t: Tree, k: int)
    requires Bst(t) && k in Keys(t)
    ensures SuccessorAsWritten(t, k, None) == NullDereference <==> k == MaxKey(t)
    ensures PredecessorAsWritten(t, k, None) == NullDereference <==> k == MinKey(t)
  {
    SuccessorWalkAgrees(t, k, None);
    PredecessorWalkAgrees(t, k, None);
    assert Keys(t) + OptSet(None) == Keys(t);
    var s, p := SuccessorFrom(t, k, None), PredecessorFrom(t, k, None);
    if s.Some? {
      assert s.value in Keys(t) && s.value > k;
    }
    if p.Some? {
      assert p.value in Keys(t) && p.value < k;
    }
  }

  // ---------------------------------------------------------------------
  // Split hands join trees rooted at a sentinel.
  // ---------------------------------------------------------------------

  /** The branches of join, chosen as written. */
  datatype JoinCase = BothEmpty | InsertIntoThis | InsertIntoOther | EqualHeight | BiggerKeys | SmallerKeys

  /**
   * The branch choice as written. A tree counts as empty only when its
   * root reference is null (`None`); a root that is a sentinel is a
   * non-empty tree of height -1 and key -1.
   */
  function JoinCaseAsWritten(thisRoot: Option<Tree>, k: int, tRoot: Option<Tree>): (c: JoinCase)
    ensures thisRoot.Some? && tRoot.Some? ==> c in {EqualHeight, BiggerKeys, SmallerKeys}
  {
    if tRoot.None? && thisRoot.None? then BothEmpty
    else if tRoot.None? then InsertIntoThis
    else if thisRoot.None? then InsertIntoOther
    else if Height(thisRoot.value) == Height(tRoot.value) then EqualHeight
    else if k > KeyOf(thisRoot.value) then BiggerKeys
    else SmallerKeys
  }

  /**
   * joinEqualHeight as written: the pivot becomes the root over the two
   * trees ordered by their root keys; when the root keys are equal, which
   * happens for two sentinel roots, neither branch runs and the tree is
   * left as it was.
   */
  function JoinEqualHeightAsWritten(thisRoot: Tree, k: int, v: string, tRoot: Tree): (res: Tree)
    requires Height(thisRoot) == Height(tRoot)
    ensures KeyOf(tRoot) != KeyOf(thisRoot) ==> res.Node? && res.key == k
  {
    if KeyOf(tRoot) < KeyOf(thisRoot) then MakeNode(tRoot, k, v, thisRoot)
    else if KeyOf(tRoot) > KeyOf(thisRoot) then MakeNode(thisRoot, k, v, tRoot)
    else thisRoot
  }

  /**
   * When both trees are sentinel-rooted, as split produces for an empty half
   * and an empty sibling, the equal-height branch is taken and the pivot is
   * not in the result.
   */
  lemma SentinelJoinDropsPivot(k: int, v: string)
    ensures JoinCaseAsWritten(Some(Leaf), k, Some(Leaf)) == EqualHeight
    ensures JoinEqualHeightAsWritten(Leaf, k, v, Leaf) == Leaf
    ensures k !in Keys(JoinEqualHeightAsWritten(Leaf, k, v, Leaf))
    ensures Join(Leaf, k, v, Leaf).tree == NewNode(k, v)
  {
  }

  /**
   * joinBiggerKeyTree as written when this tree's root is a sentinel and
   * the other tree is real: the descent along the other tree's left spine
   * stops at the sentinel left child of its leftmost node, and the pivot,
   * over two sentinels, becomes that node's left child. The size pass and
   * the insertion walk that follow only bump sizes and rotate, which keeps
   * the in-order sequence, so they are not repeated here.
   */
  function SentinelSpliceAsWritten(n: Tree, k: int, v: string): (res: Tree)
    requires n.Node?
    ensures res.Node? && InOrder(res) == [(k, v)] + InOrder(n)
    decreases n
  {
    if n.left.Leaf? then n.(left := NewNode(k, v))
    else n.(left := SentinelSpliceAsWritten(n.left, k, v))
  }

  /**
   * When split's lower half is still sentinel-rooted and the sibling it
   * joins is a real tree of smaller keys, join takes the bigger-keys branch,
   * since the pivot's key is above -1, and the pivot lands in front of the
   * sibling's keys: the result is out of order. The corrected join puts the
   * pivot after them.
   */
  lemma SentinelJoinMisorders(lo: Tree, k: int, v: string)
    requires Valid(lo) && lo.Node? && AllBelow(Keys(lo), k) && k > SentinelKey
    ensures JoinCaseAsWritten(Some(Leaf), k, Some(lo)) == BiggerKeys
    ensures !Bst(SentinelSpliceAsWritten(lo, k, v))
    ensures InOrder(Join(Leaf, k, v, lo).tree) == InOrder(lo) + [(k, v)]
  {
    RanksOkHeight(lo);
    var s := InOrder(SentinelSpliceAsWritten(lo, k, v));
    var j := |InOrder(lo.left)| + 1;
    assert s[j] == (lo.key, lo.value);
    assert s[0].0 > s[j].0;
    BstIffSorted(SentinelSpliceAsWritten(lo, k, v));
    assert InOrder(lo) + [(k, v)] + InOrder(Leaf) == InOrder(lo) + [(k, v)];
  }

  /**
   * The instances k4 over (k1 over -, k2) and k5, split at k2: the first
   * fold of the split joins the pivot k1 with two sentinel-rooted trees and
   * loses it, while the corrected split keeps k1 in the lower half.
   */
  lemma SplitLosesKeyExample(k1: int, k2: int, k4: int, k5: int, v: string)
    requires k1 < k2 < k4 < k5
    ensures var t := MakeNode(MakeNode(Leaf, k1, v, NewNode(k2, v)), k4, v, NewNode(k5, v));
      Valid(t) && k2 in Keys(t) &&
      JoinEqualHeightAsWritten(t.left.right.left, k1, v, t.left.left) == Leaf &&
      k1 in Keys(Split(t, k2).lo)
  {
    NewNodeValid(k2, v);
    NewNodeValid(k5, v);
    var l := MakeNode(Leaf, k1, v, NewNode(k2, v));
    SpliceValid(Leaf, k1, v, NewNode(k2, v));
    assert Keys(l) == {k1, k2};
    SpliceValid(l, k4, v, NewNode(k5, v));
    var t := MakeNode(l, k4, v, NewNode(k5, v));
    assert k1 in Keys(t) && k2 in Keys(t);
    SplitPartitions(t, k2);
  }
}
