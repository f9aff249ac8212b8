/**
 * Deletion: removal of a leaf or a unary node (a node with two children is
 * first swapped with its successor, which is the minimum of its right
 * subtree), followed by the upward rebalancing walk. As for insertion, the
 * walk is the unwinding of the recursion: one step (ShrinkLeft /
 * ShrinkRight) per ancestor either demotes it, rotates once, rotates twice,
 * or leaves it alone.
 */
module Deletion {
  import opened AvlNode
  import opened Rotations
  import opened Lookup
  import opened Insertion

  /** The minimum pair taken out of a subtree, with the repaired subtree and its count. */
  datatype Removed = Removed(tree: Tree, key: int, value: string, steps: int)

  /**
   * Rank differences a parent can show after one child (`sd`) shrank by one
   * under it: the pair was legal before, so the shrunk side is at most 3.
   */
  predicate ShrunkPair(sd: int, od: int) {
    1 <= sd <= 3 && 1 <= od <= 2 && sd + od <= 4
  }

  /**
   * One step of the deletion walk at a parent (stored height `h`) whose left
   * child `l` may have shrunk. (2,2): demotion, counted 1. (3,1) with the
   * right child (1,1) or (2,1): left rotation, counted 3. (3,1) with the
   * right child (1,2): right-left double rotation, counted 6. A legal pair
   * is left alone.
   */
  function ShrinkLeft(l: Tree, k: int, v: string, r: Tree, h: int, sz: int): (res: Step)
    requires Valid(l) && Valid(r) && AllBelow(Keys(l), k) && AllAbove(Keys(r), k)
    requires sz == Size(l) + Size(r) + 1
    requires ShrunkPair(h - Height(l), h - Height(r))
    ensures Valid(res.tree)
    ensures InOrder(res.tree) == InOrder(Node(l, k, v, r, h, sz))
    ensures Size(res.tree) == sz
    ensures Height(res.tree) == h || Height(res.tree) == h - 1
    ensures LegalPair(h - Height(l), h - Height(r)) ==> res == Step(Node(l, k, v, r, h, sz), 0)
    ensures res.steps == 0 <==> LegalPair(h - Height(l), h - Height(r))
    ensures res.steps in {0, 1, 3, 6}
  {
    RanksOkHeight(l);
    RanksOkHeight(r);
    var n := Node(l, k, v, r, h, sz);
    var ld, rd := h - Height(l), h - Height(r);
    if ld == 2 && rd == 2 then
      DemoteRepairs(n);
      Step(Node(l, k, v, r, h - 1, sz), 1)
    else if ld == 3 && rd == 1 && RightDiff(r) == 1 then
      SingleLeftShrinkRanks(n);
      RotateLeftOrdered(n);
      Step(RotateLeft(n), 3)
    else if ld == 3 && rd == 1 then
      assert RankDiffLegal(r);
      DoubleLeftShrinkRanks(n);
      DoubleLeftOrdered(n);
      Step(RotateLeft(Node(l, k, v, RotateRight(r), h, sz)), 6)
    else
      Step(n, 0)
  }

  /** The mirror step for a parent whose right child may have shrunk. */
  function ShrinkRight(l: Tree, k: int, v: string, r: Tree, h: int, sz: int): (res: Step)
    requires Valid(l) && Valid(r) && AllBelow(Keys(l), k) && AllAbove(Keys(r), k)
    requires sz == Size(l) + Size(r) + 1
    requires ShrunkPair(h - Height(r), h - Height(l))
    ensures Valid(res.tree)
    ensures InOrder(res.tree) == InOrder(Node(l, k, v, r, h, sz))
    ensures Size(res.tree) == sz
    ensures Height(res.tree) == h || Height(res.tree) == h - 1
    ensures LegalPair(h - Height(l), h - Height(r)) ==> res == Step(Node(l, k, v, r, h, sz), 0)
    ensures res.steps == 0 <==> LegalPair(h - Height(l), h - Height(r))
    ensures res.steps in {0, 1, 3, 6}
  {
    RanksOkHeight(l);
    RanksOkHeight(r);
    var n := Node(l, k, v, r, h, sz);
    var ld, rd := h - Height(l), h - Height(r);
    if ld == 2 && rd == 2 then
      DemoteRepairs(n);
      Step(Node(l, k, v, r, h - 1, sz), 1)
    else if ld == 1 && rd == 3 && LeftDiff(l) == 1 then
      SingleRightShrinkRanks(n);
      RotateRightOrdered(n);
      Step(RotateRight(n), 3)
    else if ld == 1 && rd == 3 then
      assert RankDiffLegal(l);
      DoubleRightShrinkRanks(n);
      DoubleRightOrdered(n);
      Step(RotateRight(Node(RotateLeft(l), k, v, r, h, sz)), 6)
    else
      Step(n, 0)
  }

  /** A (2,2) node demoted by one is a valid (1,1) node. */
  lemma DemoteRepairs(n: Tree)
    requires Repairable(n) && LeftDiff(n) == 2 && RightDiff(n) == 2
    ensures Valid(Node(n.left, n.key, n.value, n.right, n.height - 1, n.size))
  {
  }

  /** The rank part of a left rotation at a (3,1) node whose right child is (1,1) or (2,1). */
  lemma SingleLeftShrinkRanks(n: Tree)
    requires n.Node? && RanksOk(n.left) && RanksOk(n.right)
    requires LeftDiff(n) == 3 && RightDiff(n) == 1
    requires n.right.Node? && RightDiff(n.right) == 1
    ensures RanksOk(RotateLeft(n))
    ensures Height(RotateLeft(n)) == if LeftDiff(n.right) == 1 then n.height else n.height - 1
  {
    var Node(c, k, v, r, h, sz) := n;
    var Node(a, rk, rv, b, rh, rsz) := r;
    var m := MakeNode(c, k, v, a);
    var t := MakeNode(m, rk, rv, b);
    assert RotateLeft(n) == t;
    assert RanksOk(a) && RanksOk(b);
    RanksOkHeight(a);
    RanksOkHeight(b);
    RanksOkHeight(c);
    assert RanksOk(m);
  }

  /** The rank part of a right rotation at a (1,3) node whose left child is (1,1) or (1,2). */
  lemma SingleRightShrinkRanks(n: Tree)
    requires n.Node? && RanksOk(n.left) && RanksOk(n.right)
    requires LeftDiff(n) == 1 && RightDiff(n) == 3
    requires n.left.Node? && LeftDiff(n.left) == 1
    ensures RanksOk(RotateRight(n))
    ensures Height(RotateRight(n)) == if RightDiff(n.left) == 1 then n.height else n.height - 1
  {
    var Node(l, k, v, c, h, sz) := n;
    var Node(a, lk, lv, b, lh, lsz) := l;
    var m := MakeNode(b, k, v, c);
    var t := MakeNode(a, lk, lv, m);
    assert RotateRight(n) == t;
    assert RanksOk(a) && RanksOk(b);
    RanksOkHeight(a);
    RanksOkHeight(b);
    RanksOkHeight(c);
    assert RanksOk(m);
  }

  /** The rank part of a right-left double rotation at a (3,1) node whose right child is (1,2). */
  lemma DoubleLeftShrinkRanks(n: Tree)
    requires n.Node? && RanksOk(n.left) && RanksOk(n.right)
    requires LeftDiff(n) == 3 && RightDiff(n) == 1
    requires n.right.Node? && LeftDiff(n.right) == 1 && RightDiff(n.right) == 2
    ensures n.right.left.Node?
    ensures var t := RotateLeft(Node(n.left, n.key, n.value, RotateRight(n.right), n.height, n.size));
      RanksOk(t) && Height(t) == n.height - 1
  {
    var Node(d, k, v, r, h, sz) := n;
    var Node(m, rk, rv, a, rh, rsz) := r;
    RanksOkHeight(d);
    RanksOkHeight(m);
    var Node(b, mk, mv, c, mh, msz) := m;
    var t := MakeNode(MakeNode(d, k, v, b), mk, mv, MakeNode(c, rk, rv, a));
    assert RotateLeft(Node(d, k, v, RotateRight(r), h, sz)) == t;
    assert RanksOk(a) && RanksOk(b) && RanksOk(c);
    RanksOkHeight(a);
    RanksOkHeight(b);
    RanksOkHeight(c);
    assert RanksOk(t.left) && RanksOk(t.right);
  }

  /** The rank part of a left-right double rotation at a (1,3) node whose left child is (2,1). */
  lemma DoubleRightShrinkRanks(n: Tree)
    requires n.Node? && RanksOk(n.left) && RanksOk(n.right)
    requires LeftDiff(n) == 1 && RightDiff(n) == 3
    requires n.left.Node? && RightDiff(n.left) == 1 && LeftDiff(n.left) == 2
    ensures n.left.right.Node?
    ensures var t := RotateRight(Node(RotateLeft(n.left), n.key, n.value, n.right, n.height, n.size));
      RanksOk(t) && Height(t) == n.height - 1
  {
    var Node(l, k, v, d, h, sz) := n;
    var Node(a, lk, lv, m, lh, lsz) := l;
    RanksOkHeight(d);
    RanksOkHeight(m);
    var Node(b, mk, mv, c, mh, msz) := m;
    var t := MakeNode(MakeNode(a, lk, lv, b), mk, mv, MakeNode(c, k, v, d));
    assert RotateRight(Node(RotateLeft(l), k, v, d, h, sz)) == t;
    assert RanksOk(a) && RanksOk(b) && RanksOk(c);
    RanksOkHeight(a);
    RanksOkHeight(b);
    RanksOkHeight(c);
    assert RanksOk(t.left) && RanksOk(t.right);
  }

  /** Pairs, key order and sizes of a right-left double rotation. */
  lemma DoubleLeftOrdered(n: Tree)
    requires Repairable(n) && n.right.Node? && n.right.left.Node?
    ensures var t := RotateLeft(Node(n.left, n.key, n.value, RotateRight(n.right), n.height, n.size));
      Bst(t) && SizesOk(t) && InOrder(t) == InOrder(n) && Size(t) == n.size
  {
    var r := n.right;
    var r' := RotateRight(r);
    assert Bst(r) && SizesOk(r.left);
    RotateRightOrdered(r);
    RotateRightKeeps(r);
    RotateLeftOrdered(Node(n.left, n.key, n.value, r', n.height, n.size));
  }

  /** Pairs, key order and sizes of a left-right double rotation. */
  lemma DoubleRightOrdered(n: Tree)
    requires Repairable(n) && n.left.Node? && n.left.right.Node?
    ensures var t := RotateRight(Node(RotateLeft(n.left), n.key, n.value, n.right, n.height, n.size));
      Bst(t) && SizesOk(t) && InOrder(t) == InOrder(n) && Size(t) == n.size
  {
    var l := n.left;
    var l' := RotateLeft(l);
    assert Bst(l) && SizesOk(l.right);
    RotateLeftOrdered(l);
    RotateLeftKeeps(l);
    RotateRightOrdered(Node(l', n.key, n.value, n.right, n.height, n.size));
  }

  /**
   * Removal of the minimum of a non-empty subtree: the leftmost node is
   * replaced by its right child and the walk repairs the left spine. This is
   * the successor half of the swap used for a node with two children.
   */
  function DeleteMin(t: Tree): (res: Removed)
    requires Valid(t) && t.Node?
    ensures Valid(res.tree)
    ensures InOrder(t) == [(res.key, res.value)] + InOrder(res.tree)
    ensures Size(res.tree) == Size(t) - 1
    ensures Height(t) - 1 <= Height(res.tree) <= Height(t)
    ensures 0 <= res.steps <= 6 * (Height(t) + 1)
  {
    RanksOkHeight(t);
    var Node(l, k, v, r, h, sz) := t;
    if l.Leaf? then
      RanksOkHeight(r);
      assert RankDiffLegal(t);
      Removed(r, k, v, 0)
    else
      var m := DeleteMin(l);
      MinRemoved(l, m.tree, (m.key, m.value));
      MinFits(t, m.tree);
      var s := ShrinkLeft(m.tree, k, v, r, h, sz - 1);
      MinSpliced(t, m.tree, s.tree, (m.key, m.value), h, sz - 1);
      Removed(s.tree, m.key, m.value, m.steps + s.steps)
  }

  /** The left subtree with its minimum removed still fits the deletion walk's step at the root. */
  lemma MinFits(t: Tree, u: Tree)
    requires Valid(t) && t.Node? && t.left.Node? && Valid(u)
    requires Keys(t.left) == Keys(u) + {MinKey(t.left)} || Keys(u) <= Keys(t.left)
    requires Size(u) == Size(t.left) - 1
    requires Height(t.left) - 1 <= Height(u) <= Height(t.left)
    ensures Valid(t.right) && AllBelow(Keys(u), t.key) && AllAbove(Keys(t.right), t.key)
    ensures t.size - 1 == Size(u) + Size(t.right) + 1
    ensures ShrunkPair(t.height - Height(u), t.height - Height(t.right))
  {
    assert Bst(t) && SizesOk(t) && RankDiffLegal(t);
    assert Keys(u) <= Keys(t.left);
  }

  /** Splicing the shortened left subtree back under the root drops exactly the first pair. */
  lemma MinSpliced(t: Tree, u: Tree, g: Tree, p: (int, string), h: int, sz: int)
    requires t.Node? && InOrder(t.left) == [p] + InOrder(u)
    requires InOrder(g) == InOrder(Node(u, t.key, t.value, t.right, h, sz))
    ensures InOrder(t) == [p] + InOrder(g)
  {
    var x := (t.key, t.value);
    assert InOrder(Node(u, t.key, t.value, t.right, h, sz)) == InOrder(u) + [x] + InOrder(t.right);
    assert InOrder(t) == InOrder(t.left) + [x] + InOrder(t.right);
    RegroupAfterFirst(p, InOrder(u), x, InOrder(t.right), InOrder(t.left), InOrder(g), InOrder(t));
  }

  lemma RegroupAfterFirst<T>(p: T, us: seq<T>, x: T, rs: seq<T>, ls: seq<T>, gs: seq<T>, ts: seq<T>)
    requires ls == [p] + us && gs == us + [x] + rs && ts == ls + [x] + rs
    ensures ts == [p] + gs
  {
  }

  /** Removing the first in-order pair of a search tree removes its key and nothing else. */
  lemma MinRemoved(t: Tree, u: Tree, p: (int, string))
    requires Bst(t) && InOrder(t) == [p] + InOrder(u)
    ensures Bst(u) && AllAbove(Keys(u), p.0)
    ensures Keys(t) == Keys(u) + {p.0} && p.0 !in Keys(u)
    ensures Contents(u) == Contents(t) - {p.0}
    ensures p.0 in Contents(t) && Contents(t)[p.0] == p.1
  {
    var w := Node(Leaf, p.0, p.1, u, 0, 0);
    assert InOrder(w) == [p] + InOrder(u);
    SameInOrder(w, t);
    assert Bst(w);
    assert Keys(t) == Keys(u) + {p.0};
    FrontRemoved(p.0, p.1, u);
  }

  /** A node with no left subtree holds its own pair ahead of the right subtree's map. */
  lemma FrontRemoved(k: int, v: string, u: Tree)
    requires Bst(Node(Leaf, k, v, u, 0, 0))
    ensures Contents(Node(Leaf, k, v, u, 0, 0)) - {k} == Contents(u)
    ensures k in Contents(Node(Leaf, k, v, u, 0, 0)) && Contents(Node(Leaf, k, v, u, 0, 0))[k] == v
  {
    ContentsKeys(u);
    var m: map<int, string> := map[];
    assert Contents(Node(Leaf, k, v, u, 0, 0)) == m + map[k := v] + Contents(u);
    assert m + map[k := v] == map[k := v];
    MapRemoveFront(k, v, Contents(u));
  }

  /** Taking a fresh key back out of a map it was added to. */
  lemma MapRemoveFront(k: int, v: string, m: map<int, string>)
    requires k !in m
    ensures (map[k := v] + m) - {k} == m
  {
    var lhs := (map[k := v] + m) - {k};
    assert lhs.Keys == m.Keys;
  }

  /** Deleting from the left part of a three-part union, when the key is nowhere else. */
  lemma MapRemoveBefore(a: map<int, string>, nk: int, nv: string, b: map<int, string>, k: int)
    requires k != nk && k !in b
    ensures (a - {k}) + map[nk := nv] + b == (a + map[nk := nv] + b) - {k}
  {
    var lhs, rhs := (a - {k}) + map[nk := nv] + b, (a + map[nk := nv] + b) - {k};
    assert lhs.Keys == rhs.Keys;
    forall x | x in lhs ensures lhs[x] == rhs[x] {
    }
  }

  /** Deleting from the right part of a three-part union, when the key is nowhere else. */
  lemma MapRemoveAfter(a: map<int, string>, nk: int, nv: string, b: map<int, string>, k: int)
    requires k != nk && k !in a
    ensures a + map[nk := nv] + (b - {k}) == (a + map[nk := nv] + b) - {k}
  {
    var lhs, rhs := a + map[nk := nv] + (b - {k}), (a + map[nk := nv] + b) - {k};
    assert lhs.Keys == rhs.Keys;
    forall x | x in lhs ensures lhs[x] == rhs[x] {
    }
  }

  /** Replacing the removed root pair by the successor pair taken from the right part. */
  lemma MapReplaceRoot(a: map<int, string>, nk: int, nv: string, b: map<int, string>, sk: int, sv: string)
    requires nk !in a && nk !in b && sk in b && b[sk] == sv
    ensures a + map[sk := sv] + (b - {sk}) == (a + map[nk := nv] + b) - {nk}
  {
    var lhs, rhs := a + map[sk := sv] + (b - {sk}), (a + map[nk := nv] + b) - {nk};
    assert lhs.Keys == rhs.Keys;
    forall x | x in lhs ensures lhs[x] == rhs[x] {
    }
  }

  /**
   * Deletion of a present key below `t`: search down to the node holding
   * `k`, take it out (RemoveRoot), then repair upwards.
   */
  function DeleteRec(t: Tree, k: int): (res: Step)
    requires Valid(t) && k in Keys(t)
    ensures Valid(res.tree)
    ensures Contents(res.tree) == Contents(t) - {k}
    ensures Keys(res.tree) == Keys(t) - {k}
    ensures Size(res.tree) == Size(t) - 1
    ensures Height(t) - 1 <= Height(res.tree) <= Height(t)
    ensures 0 <= res.steps <= 6 * (Height(t) + 1)
  {
    var Node(l, nk, nv, r, h, sz) := t;
    if k == nk then RemoveRoot(t)
    else
      RanksOkHeight(t);
      assert RankDiffLegal(t);
      RanksOkHeight(l);
      RanksOkHeight(r);
      if k < nk then
        var c := DeleteRec(l, k);
        var s := ShrinkLeft(c.tree, nk, nv, r, h, sz - 1);
        DeletedLeft(t, c.tree, s.tree, k);
        Step(s.tree, c.steps + s.steps)
      else
        var c := DeleteRec(r, k);
        var s := ShrinkRight(l, nk, nv, c.tree, h, sz - 1);
        DeletedRight(t, c.tree, s.tree, k);
        Step(s.tree, c.steps + s.steps)
  }

  /**
   * Taking out the root of a subtree: a leaf or a unary node is replaced by
   * its only real child (or the sentinel); a node with two children takes
   * over its successor's pair, the successor is removed from the right
   * subtree, and the walk continues from there.
   */
  function RemoveRoot(t: Tree): (res: Step)
    requires Valid(t) && t.Node?
    ensures Valid(res.tree)
    ensures Contents(res.tree) == Contents(t) - {t.key}
    ensures Keys(res.tree) == Keys(t) - {t.key}
    ensures Size(res.tree) == Size(t) - 1
    ensures Height(t) - 1 <= Height(res.tree) <= Height(t)
    ensures 0 <= res.steps <= 6 * (Height(t) + 1)
  {
    var Node(l, nk, nv, r, h, sz) := t;
    if l.Leaf? then
      assert RankDiffLegal(t);
      RanksOkHeight(r);
      DeletedRoot(t, r);
      Step(r, 0)
    else if r.Leaf? then
      assert RankDiffLegal(t);
      RanksOkHeight(l);
      DeletedRoot(t, l);
      Step(l, 0)
    else
      SwapWithSuccessor(t)
  }

  /** Taking out a root with two children: its successor's pair moves up into it. */
  function SwapWithSuccessor(t: Tree): (res: Step)
    requires Valid(t) && t.Node? && t.left.Node? && t.right.Node?
    ensures Valid(res.tree)
    ensures Contents(res.tree) == Contents(t) - {t.key}
    ensures Keys(res.tree) == Keys(t) - {t.key}
    ensures Size(res.tree) == Size(t) - 1
    ensures Height(t) - 1 <= Height(res.tree) <= Height(t)
    ensures 0 <= res.steps <= 6 * (Height(t) + 1)
  {
    var Node(l, nk, nv, r, h, sz) := t;
    assert RankDiffLegal(t);
    var m := DeleteMin(r);
    MinRemoved(r, m.tree, (m.key, m.value));
    assert Bst(t);
    var s := ShrinkRight(l, m.key, m.value, m.tree, h, sz - 1);
    SwappedRoot(t, m.tree, s.tree, m.key, m.value);
    Step(s.tree, m.steps + s.steps)
  }

  /** After deleting from the left subtree, the repaired node holds the old pairs minus `k`. */
  lemma DeletedLeft(t: Tree, c: Tree, g: Tree, k: int)
    requires t.Node? && Bst(t) && k in Keys(t.left)
    requires Contents(c) == Contents(t.left) - {k} && Keys(c) == Keys(t.left) - {k}
    requires InOrder(g) == InOrder(Node(c, t.key, t.value, t.right, t.height, t.size - 1))
    ensures Contents(g) == Contents(t) - {k} && Keys(g) == Keys(t) - {k}
  {
    SameInOrder(g, Node(c, t.key, t.value, t.right, t.height, t.size - 1));
    ContentsKeys(t.right);
    MapRemoveBefore(Contents(t.left), t.key, t.value, Contents(t.right), k);
  }

  /** After deleting from the right subtree, the repaired node holds the old pairs minus `k`. */
  lemma DeletedRight(t: Tree, c: Tree, g: Tree, k: int)
    requires t.Node? && Bst(t) && k in Keys(t.right)
    requires Contents(c) == Contents(t.right) - {k} && Keys(c) == Keys(t.right) - {k}
    requires InOrder(g) == InOrder(Node(t.left, t.key, t.value, c, t.height, t.size - 1))
    ensures Contents(g) == Contents(t) - {k} && Keys(g) == Keys(t) - {k}
  {
    SameInOrder(g, Node(t.left, t.key, t.value, c, t.height, t.size - 1));
    ContentsKeys(t.left);
    MapRemoveAfter(Contents(t.left), t.key, t.value, Contents(t.right), k);
  }

  /** A root with at most one real child is replaced by that child. */
  lemma DeletedRoot(t: Tree, c: Tree)
    requires t.Node? && Bst(t) && (c == t.left || c == t.right) && (t.left.Leaf? || t.right.Leaf?)
    requires c == t.left ==> t.right.Leaf?
    requires c == t.right ==> t.left.Leaf?
    ensures Contents(c) == Contents(t) - {t.key} && Keys(c) == Keys(t) - {t.key}
  {
    ContentsKeys(c);
    if c == t.right {
      MapRemoveFront(t.key, t.value, Contents(c));
    } else {
      assert t.key !in Contents(c);
      assert Contents(t) == Contents(c) + map[t.key := t.value];
      var lhs := Contents(t) - {t.key};
      assert lhs.Keys == Contents(c).Keys;
    }
  }

  /** A root with two children replaced by its successor pair holds the old pairs minus the root's. */
  lemma SwappedRoot(t: Tree, u: Tree, g: Tree, sk: int, sv: string)
    requires t.Node? && Bst(t)
    requires Contents(u) == Contents(t.right) - {sk} && Keys(u) == Keys(t.right) - {sk}
    requires sk in Contents(t.right) && Contents(t.right)[sk] == sv
    requires InOrder(g) == InOrder(Node(t.left, sk, sv, u, t.height, t.size - 1))
    ensures Contents(g) == Contents(t) - {t.key} && Keys(g) == Keys(t) - {t.key}
  {
    SameInOrder(g, Node(t.left, sk, sv, u, t.height, t.size - 1));
    ContentsKeys(t.left);
    ContentsKeys(t.right);
    MapReplaceRoot(Contents(t.left), t.key, t.value, Contents(t.right), sk, sv);
  }

  /** A real node of a size-consistent tree counts at least itself. */
  lemma {:induction false} SizePositive(t: Tree)
    requires SizesOk(t)
    ensures Size(t) >= 0
    ensures t.Node? ==> Size(t) >= 1
  {
    match t
    case Leaf =>
    case Node(l, _, _, r, _, _) =>
      SizePositive(l);
      SizePositive(r);
  }

  /**
   * The shortcut for deleting the root of a tree of two or three nodes: the
   * right child (or the only child) becomes the root, the left child is
   * hung under it, and its size and height are set for the remaining nodes.
   * The general removal produces the very same tree.
   */
  function DeleteSmallRoot(t: Tree): (res: Tree)
    requires Valid(t) && t.Node? && 2 <= Size(t) <= 3
    ensures res == RemoveRoot(t).tree
    ensures Valid(res) && Contents(res) == Contents(t) - {t.key} && Size(res) == Size(t) - 1
  {
    SmallShapes(t);
    var Node(l, k, v, r, h, sz) := t;
    if l.Node? && r.Node? then
      Node(l, r.key, r.value, r.right, r.height + 1, sz - 1)
    else if l.Leaf? then
      r.(size := sz - 1)
    else
      l.(size := sz - 1)
  }

  /** The shapes a valid tree of two or three nodes can take. */
  lemma SmallShapes(t: Tree)
    requires Valid(t) && t.Node? && 2 <= Size(t) <= 3
    ensures t.left.Node? || t.right.Node?
    ensures t.left.Node? && t.right.Node? ==>
      && t.left.left.Leaf? && t.left.right.Leaf? && t.right.left.Leaf? && t.right.right.Leaf?
      && t.left.height == 0 && t.right.height == 0 && t.height == 1 && t.size == 3
    ensures t.left.Leaf? ==> t.right.size == t.size - 1
    ensures t.right.Leaf? ==> t.left.size == t.size - 1
  {
    var Node(l, k, v, r, h, sz) := t;
    SizePositive(l);
    SizePositive(r);
    if l.Node? && r.Node? {
      SizePositive(l.left);
      SizePositive(l.right);
      SizePositive(r.left);
      SizePositive(r.right);
      assert RanksOk(l) && RanksOk(r);
      assert RankDiffLegal(l) && RankDiffLegal(r) && RankDiffLegal(t);
    }
  }

  /**
   * delete(k): -1 and no change when `k` is absent; otherwise the tree
   * without `k` and the number of rebalancing operations. A one-node tree
   * becomes empty, and the root of a tree of at most three nodes is taken
   * out by the shortcut, both with count 0.
   */
  function Delete(t: Tree, k: int): (res: Outcome)
    requires Valid(t)
    ensures k !in Keys(t) ==> res == Outcome(t, -1)
    ensures k in Keys(t) ==> Valid(res.tree) && Contents(res.tree) == Contents(t) - {k}
    ensures k in Keys(t) ==> Keys(res.tree) == Keys(t) - {k} && Size(res.tree) == Size(t) - 1
    ensures k in Keys(t) ==> 0 <= res.count <= 6 * (Height(t) + 1)
    ensures k in Keys(t) && Size(t) == 1 ==> res == Outcome(Leaf, 0)
  {
    if Search(t, k).None? then Outcome(t, -1)
    else if Size(t) == 1 then
      OnlyKey(t, k);
      Outcome(Leaf, 0)
    else if t.key == k && Size(t) <= 3 then
      SizePositive(t);
      ContentsKeys(DeleteSmallRoot(t));
      Outcome(DeleteSmallRoot(t), 0)
    else
      RanksOkHeight(t);
      var s := DeleteRec(t, k);
      Outcome(s.tree, s.steps)
  }

  /** In a valid one-node tree the present key is the only one. */
  lemma OnlyKey(t: Tree, k: int)
    requires Valid(t) && Size(t) == 1 && k in Keys(t)
    ensures Keys(t) - {k} == {} && Contents(t) - {k} == map[]
  {
    SizeCountsKeys(t);
    ContentsKeys(t);
    var rest := Keys(t) - {k};
    assert |rest| == 0;
    assert (Contents(t) - {k}).Keys == rest;
  }
}
