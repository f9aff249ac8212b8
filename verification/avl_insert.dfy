/**
 * Insertion: a search-tree insertion of a fresh leaf followed by the upward
 * rebalancing walk. The walk is the unwinding of the recursion: at each
 * ancestor one step of the walk (GrowLeft / GrowRight) either promotes the
 * ancestor, rotates once, rotates twice, or only bumps its size.
 */
module Insertion {
  import opened AvlNode
  import opened Rotations
  import opened Lookup

  /** A repaired subtree together with the rebalancing operations counted while repairing it. */
  datatype Step = Step(tree: Tree, steps: int)

  /** The public result: the new tree and the returned count (-1 on failure). */
  datatype Outcome = Outcome(tree: Tree, count: int)

  /**
   * Rank differences a parent can show after one child (`gd`) grew under it:
   * the grown side may have dropped to 0, the pair was legal before.
   */
  predicate GrownPair(gd: int, od: int) {
    0 <= gd && 1 <= od <= 2 && gd + od <= 3
  }

  /** The root is a (1,1) node. */
  ghost predicate EvenRoot(t: Tree) {
    t.Node? && LeftDiff(t) == 1 && RightDiff(t) == 1
  }

  /**
   * One step of the insertion walk at a parent (stored height `h`) whose left
   * child `l` may have grown. (0,1): promotion, one operation. (0,2) with the
   * child (1,x): single rotation, one operation. (0,2) with the child (x,1):
   * double rotation, two operations. Otherwise only the size changes.
   */
  function GrowLeft(l: Tree, k: int, v: string, r: Tree, h: int, sz: int): (res: Step)
    requires Valid(l) && Valid(r) && AllBelow(Keys(l), k) && AllAbove(Keys(r), k)
    requires sz == Size(l) + Size(r) + 1
    requires GrownPair(h - Height(l), h - Height(r))
    ensures Valid(res.tree)
    ensures InOrder(res.tree) == InOrder(Node(l, k, v, r, h, sz))
    ensures Size(res.tree) == sz
    ensures Height(res.tree) == h || Height(res.tree) == h + 1
    ensures Height(res.tree) == h + 1 ==> res.steps == 1 && !EvenRoot(res.tree)
    ensures LegalPair(h - Height(l), h - Height(r)) ==> res == Step(Node(l, k, v, r, h, sz), 0)
    ensures 0 <= res.steps <= 2
  {
    RanksOkHeight(r);
    RanksOkHeight(l);
    var n := Node(l, k, v, r, h, sz);
    var ld, rd := h - Height(l), h - Height(r);
    if ld + rd == 1 then
      Step(Node(l, k, v, r, h + 1, sz), 1)
    else if ld - rd == -2 && LeftDiff(l) == 1 then
      SingleRightRepairs(n);
      Step(RotateRight(n), 1)
    else if ld - rd == -2 && RightDiff(l) == 1 then
      DoubleRightRepairs(n);
      Step(RotateRight(Node(RotateLeft(l), k, v, r, h, sz)), 2)
    else
      Step(n, 0)
  }

  /** The mirror step for a parent whose right child may have grown. */
  function GrowRight(l: Tree, k: int, v: string, r: Tree, h: int, sz: int): (res: Step)
    requires Valid(l) && Valid(r) && AllBelow(Keys(l), k) && AllAbove(Keys(r), k)
    requires sz == Size(l) + Size(r) + 1
    requires GrownPair(h - Height(r), h - Height(l))
    ensures Valid(res.tree)
    ensures InOrder(res.tree) == InOrder(Node(l, k, v, r, h, sz))
    ensures Size(res.tree) == sz
    ensures Height(res.tree) == h || Height(res.tree) == h + 1
    ensures Height(res.tree) == h + 1 ==> res.steps == 1 && !EvenRoot(res.tree)
    ensures LegalPair(h - Height(l), h - Height(r)) ==> res == Step(Node(l, k, v, r, h, sz), 0)
    ensures 0 <= res.steps <= 2
  {
    RanksOkHeight(r);
    RanksOkHeight(l);
    var n := Node(l, k, v, r, h, sz);
    var ld, rd := h - Height(l), h - Height(r);
    if ld + rd == 1 then
      Step(Node(l, k, v, r, h + 1, sz), 1)
    else if ld - rd == 2 && RightDiff(r) == 1 then
      SingleLeftRepairs(n);
      Step(RotateLeft(n), 1)
    else if ld - rd == 2 && LeftDiff(r) == 1 then
      DoubleLeftRepairs(n);
      Step(RotateLeft(Node(l, k, v, RotateRight(r), h, sz)), 2)
    else
      Step(n, 0)
  }

  /**
   * A node whose children are valid search trees in key order with a
   * consistent size, but whose own height or rank pair may be off.
   */
  ghost predicate Repairable(n: Tree) {
    && n.Node? && Valid(n.left) && Valid(n.right)
    && AllBelow(Keys(n.left), n.key) && AllAbove(Keys(n.right), n.key)
    && n.size == Size(n.left) + Size(n.right) + 1
  }

  /** A (0,2) node whose left child leans left or is even is fixed by one right rotation. */
  lemma SingleRightRepairs(n: Tree)
    requires Repairable(n) && n.height - Height(n.left) == 0 && n.height - Height(n.right) == 2
    requires n.left.Node? && LeftDiff(n.left) == 1
    ensures Valid(RotateRight(n)) && InOrder(RotateRight(n)) == InOrder(n) && Size(RotateRight(n)) == n.size
    ensures Height(RotateRight(n)) == n.height || Height(RotateRight(n)) == n.height + 1
    ensures Height(RotateRight(n)) == n.height + 1 ==> !EvenRoot(RotateRight(n))
  {
    SingleRightRanks(n);
    RotateRightOrdered(n);
  }

  /** The rank part of a single right rotation at a (0,2) node. */
  lemma SingleRightRanks(n: Tree)
    requires n.Node? && RanksOk(n.left) && RanksOk(n.right)
    requires n.height - Height(n.left) == 0 && n.height - Height(n.right) == 2
    requires n.left.Node? && LeftDiff(n.left) == 1
    ensures RanksOk(RotateRight(n))
    ensures Height(RotateRight(n)) == n.height || Height(RotateRight(n)) == n.height + 1
    ensures Height(RotateRight(n)) == n.height + 1 ==> !EvenRoot(RotateRight(n))
  {
    var Node(l, k, v, c, h, sz) := n;
    var Node(a, lk, lv, b, lh, lsz) := l;
    var m := MakeNode(b, k, v, c);
    var t := MakeNode(a, lk, lv, m);
    assert RotateRight(n) == t;
    assert RanksOk(a) && RanksOk(b);
    RanksOkHeight(a);
    RanksOkHeight(b);
    RanksOkHeight(c);
    assert RanksOk(m);
  }

  /** A (2,0) node whose right child leans right or is even is fixed by one left rotation. */
  lemma SingleLeftRepairs(n: Tree)
    requires Repairable(n) && n.height - Height(n.right) == 0 && n.height - Height(n.left) == 2
    requires n.right.Node? && RightDiff(n.right) == 1
    ensures Valid(RotateLeft(n)) && InOrder(RotateLeft(n)) == InOrder(n) && Size(RotateLeft(n)) == n.size
    ensures Height(RotateLeft(n)) == n.height || Height(RotateLeft(n)) == n.height + 1
    ensures Height(RotateLeft(n)) == n.height + 1 ==> !EvenRoot(RotateLeft(n))
  {
    SingleLeftRanks(n);
    RotateLeftOrdered(n);
  }

  /** The rank part of a single left rotation at a (2,0) node. */
  lemma SingleLeftRanks(n: Tree)
    requires n.Node? && RanksOk(n.left) && RanksOk(n.right)
    requires n.height - Height(n.right) == 0 && n.height - Height(n.left) == 2
    requires n.right.Node? && RightDiff(n.right) == 1
    ensures RanksOk(RotateLeft(n))
    ensures Height(RotateLeft(n)) == n.height || Height(RotateLeft(n)) == n.height + 1
    ensures Height(RotateLeft(n)) == n.height + 1 ==> !EvenRoot(RotateLeft(n))
  {
    var Node(c, k, v, r, h, sz) := n;
    var Node(a, rk, rv, b, rh, rsz) := r;
    var m := MakeNode(c, k, v, a);
    var t := MakeNode(m, rk, rv, b);
    assert RotateLeft(n) == t;
    assert RanksOk(a) && RanksOk(b);
    RanksOkHeight(a);
    RanksOkHeight(b);
    RanksOkHeight(c);
    assert RanksOk(m);
  }

  /** A (0,2) node whose left child leans right is fixed by a left-right double rotation, at the same height. */
  lemma DoubleRightRepairs(n: Tree)
    requires Repairable(n) && n.height - Height(n.left) == 0 && n.height - Height(n.right) == 2
    requires n.left.Node? && RightDiff(n.left) == 1 && LeftDiff(n.left) == 2
    ensures n.left.right.Node?
    ensures var t := RotateRight(Node(RotateLeft(n.left), n.key, n.value, n.right, n.height, n.size));
      Valid(t) && InOrder(t) == InOrder(n) && Size(t) == n.size && Height(t) == n.height
  {
    DoubleRightRanks(n);
    var l := n.left;
    var l' := RotateLeft(l);
    assert Bst(l) && SizesOk(l.right);
    RotateLeftOrdered(l);
    RotateLeftKeeps(l);
    RotateRightOrdered(Node(l', n.key, n.value, n.right, n.height, n.size));
  }

  /** The rank part of a left-right double rotation at a (0,2) node. */
  lemma DoubleRightRanks(n: Tree)
    requires n.Node? && RanksOk(n.left) && RanksOk(n.right)
    requires n.height - Height(n.left) == 0 && n.height - Height(n.right) == 2
    requires n.left.Node? && RightDiff(n.left) == 1 && LeftDiff(n.left) == 2
    ensures n.left.right.Node?
    ensures var t := RotateRight(Node(RotateLeft(n.left), n.key, n.value, n.right, n.height, n.size));
      RanksOk(t) && Height(t) == n.height
  {
    var Node(l, k, v, d, h, sz) := n;
    var Node(a, lk, lv, m, lh, lsz) := l;
    RanksOkHeight(d);
    RanksOkHeight(m);
    var Node(b, mk, mv, c, mh, msz) := m;
    var t := MakeNode(MakeNode(a, lk, lv, b), mk, mv, MakeNode(c, k, v, d));
    assert RotateRight(Node(RotateLeft(l), k, v, d, h, sz)) == t;
    assert RanksOk(a) && RanksOk(b) && RanksOk(c);
    RanksOkHeight(a);
    RanksOkHeight(b);
    RanksOkHeight(c);
    assert RanksOk(t.left) && RanksOk(t.right);
  }

  /** A (2,0) node whose right child leans left is fixed by a right-left double rotation, at the same height. */
  lemma DoubleLeftRepairs(n: Tree)
    requires Repairable(n) && n.height - Height(n.right) == 0 && n.height - Height(n.left) == 2
    requires n.right.Node? && LeftDiff(n.right) == 1 && RightDiff(n.right) == 2
    ensures n.right.left.Node?
    ensures var t := RotateLeft(Node(n.left, n.key, n.value, RotateRight(n.right), n.height, n.size));
      Valid(t) && InOrder(t) == InOrder(n) && Size(t) == n.size && Height(t) == n.height
  {
    DoubleLeftRanks(n);
    var r := n.right;
    var r' := RotateRight(r);
    assert Bst(r) && SizesOk(r.left);
    RotateRightOrdered(r);
    RotateRightKeeps(r);
    RotateLeftOrdered(Node(n.left, n.key, n.value, r', n.height, n.size));
  }

  /** The rank part of a right-left double rotation at a (2,0) node. */
  lemma DoubleLeftRanks(n: Tree)
    requires n.Node? && RanksOk(n.left) && RanksOk(n.right)
    requires n.height - Height(n.right) == 0 && n.height - Height(n.left) == 2
    requires n.right.Node? && LeftDiff(n.right) == 1 && RightDiff(n.right) == 2
    ensures n.right.left.Node?
    ensures var t := RotateLeft(Node(n.left, n.key, n.value, RotateRight(n.right), n.height, n.size));
      RanksOk(t) && Height(t) == n.height
  {
    var Node(d, k, v, r, h, sz) := n;
    var Node(m, rk, rv, a, rh, rsz) := r;
    RanksOkHeight(d);
    RanksOkHeight(m);
    var Node(b, mk, mv, c, mh, msz) := m;
    var t := MakeNode(MakeNode(d, k, v, b), mk, mv, MakeNode(c, rk, rv, a));
    assert RotateLeft(Node(d, k, v, RotateRight(r), h, sz)) == t;
    assert RanksOk(a) && RanksOk(b) && RanksOk(c);
    RanksOkHeight(a);
    RanksOkHeight(b);
    RanksOkHeight(c);
    assert RanksOk(t.left) && RanksOk(t.right);
  }

  /**
   * Plain search-tree attachment of a fresh node, before any rebalancing:
   * the node hangs below the last real node of the search path, every
   * existing height stays as it was, and each size on the path grows by one.
   */
  function Attach(t: Tree, k: int, v: string): (res: Tree)
    ensures res.Node? && Keys(res) == Keys(t) + {k}
    ensures t.Node? ==> res.key == t.key && res.height == t.height && res.size == t.size + 1
    decreases t
  {
    match t
    case Leaf => NewNode(k, v)
    case Node(l, nk, nv, r, h, sz) =>
      if k < nk then Node(Attach(l, k, v), nk, nv, r, h, sz + 1)
      else Node(l, nk, nv, Attach(r, k, v), h, sz + 1)
  }

  /**
   * Insertion of an absent key below `t`, with the walk's operation count.
   * Promotions are bounded by the height and at most two rotation
   * operations are added.
   */
  function InsertRec(t: Tree, k: int, v: string): (res: Step)
    requires Valid(t) && k !in Keys(t)
    ensures Valid(res.tree) && res.tree.Node?
    ensures Contents(res.tree) == Contents(t)[k := v]
    ensures Keys(res.tree) == Keys(t) + {k}
    ensures Size(res.tree) == Size(t) + 1
    ensures Height(t) <= Height(res.tree) <= Height(t) + 1
    ensures 0 <= res.steps <= Height(res.tree) + 2
    ensures Height(res.tree) == Height(t) + 1 ==> res.steps <= Height(res.tree)
    ensures t.Leaf? ==> res.steps == 0
    decreases t, 1
  {
    if t.Leaf? then
      NewNodeValid(k, v);
      Step(NewNode(k, v), 0)
    else if k < t.key then
      InsertLeft(t, k, v)
    else
      InsertRight(t, k, v)
  }

  /** One level of the walk when the new key goes left of the node: insert below, then repair. */
  function InsertLeft(t: Tree, k: int, v: string): (res: Step)
    requires Valid(t) && t.Node? && k < t.key && k !in Keys(t)
    ensures Valid(res.tree) && res.tree.Node?
    ensures Contents(res.tree) == Contents(t)[k := v]
    ensures Keys(res.tree) == Keys(t) + {k}
    ensures Size(res.tree) == Size(t) + 1
    ensures Height(t) <= Height(res.tree) <= Height(t) + 1
    ensures 0 <= res.steps <= Height(res.tree) + 2
    ensures Height(res.tree) == Height(t) + 1 ==> res.steps <= Height(res.tree)
    decreases t, 0
  {
    var Node(l, nk, nv, r, h, sz) := t;
    RanksOkHeight(t);
    var c := InsertRec(l, k, v);
    LeftGrowFits(t, c.tree, k);
    var g := GrowLeft(c.tree, nk, nv, r, h, sz + 1);
    InsertedLeft(t, c.tree, g.tree, k, v);
    GrowSteps(h, Height(l), Height(r), Height(c.tree), Height(g.tree), c.steps, g.steps);
    Step(g.tree, c.steps + g.steps)
  }

  /** One level of the walk when the new key goes right of the node. */
  function InsertRight(t: Tree, k: int, v: string): (res: Step)
    requires Valid(t) && t.Node? && k > t.key && k !in Keys(t)
    ensures Valid(res.tree) && res.tree.Node?
    ensures Contents(res.tree) == Contents(t)[k := v]
    ensures Keys(res.tree) == Keys(t) + {k}
    ensures Size(res.tree) == Size(t) + 1
    ensures Height(t) <= Height(res.tree) <= Height(t) + 1
    ensures 0 <= res.steps <= Height(res.tree) + 2
    ensures Height(res.tree) == Height(t) + 1 ==> res.steps <= Height(res.tree)
    decreases t, 0
  {
    var Node(l, nk, nv, r, h, sz) := t;
    RanksOkHeight(t);
    var c := InsertRec(r, k, v);
    RightGrowFits(t, c.tree, k);
    var g := GrowRight(l, nk, nv, c.tree, h, sz + 1);
    InsertedRight(t, c.tree, g.tree, k, v);
    GrowSteps(h, Height(r), Height(l), Height(c.tree), Height(g.tree), c.steps, g.steps);
    Step(g.tree, c.steps + g.steps)
  }

  /** The left subtree with the new key added still fits the insertion walk's repair at the root. */
  lemma LeftGrowFits(t: Tree, c: Tree, k: int)
    requires Valid(t) && t.Node? && k < t.key && Valid(c)
    requires Keys(c) == Keys(t.left) + {k} && Size(c) == Size(t.left) + 1
    requires Height(t.left) <= Height(c) <= Height(t.left) + 1
    ensures Valid(t.right) && AllBelow(Keys(c), t.key) && AllAbove(Keys(t.right), t.key)
    ensures t.size + 1 == Size(c) + Size(t.right) + 1
    ensures GrownPair(t.height - Height(c), t.height - Height(t.right))
    ensures LegalPair(t.height - Height(t.left), t.height - Height(t.right))
  {
    assert Bst(t) && SizesOk(t) && RankDiffLegal(t);
  }

  /** The right subtree with the new key added still fits the insertion walk's repair at the root. */
  lemma RightGrowFits(t: Tree, c: Tree, k: int)
    requires Valid(t) && t.Node? && k > t.key && Valid(c)
    requires Keys(c) == Keys(t.right) + {k} && Size(c) == Size(t.right) + 1
    requires Height(t.right) <= Height(c) <= Height(t.right) + 1
    ensures Valid(t.left) && AllBelow(Keys(t.left), t.key) && AllAbove(Keys(c), t.key)
    ensures t.size + 1 == Size(t.left) + Size(c) + 1
    ensures GrownPair(t.height - Height(c), t.height - Height(t.left))
    ensures LegalPair(t.height - Height(t.right), t.height - Height(t.left))
  {
    assert Bst(t) && SizesOk(t) && RankDiffLegal(t);
  }

  /**
   * Step accounting for one level of the insertion walk: a side of height
   * `hs` grew to `hc` using `cs` steps, and the repair at this node (rank
   * `h`, other side `ho`) used `gs` more and left the node at height `hg`.
   */
  lemma GrowSteps(h: int, hs: int, ho: int, hc: int, hg: int, cs: int, gs: int)
    requires LegalPair(h - hs, h - ho)
    requires hs <= hc <= hs + 1 && 0 <= cs <= hc + 2 && (hc == hs + 1 ==> cs <= hc)
    requires hg == h || hg == h + 1
    requires hg == h + 1 ==> gs == 1
    requires LegalPair(h - hc, h - ho) || LegalPair(h - ho, h - hc) ==> gs == 0 && hg == h
    requires 0 <= gs <= 2
    ensures 0 <= cs + gs <= hg + 2
    ensures hg == h + 1 ==> cs + gs <= hg
  {
  }

  /** After inserting into the left subtree, the repaired node holds the old pairs plus the new one. */
  lemma InsertedLeft(t: Tree, c: Tree, g: Tree, k: int, v: string)
    requires t.Node? && Bst(t) && k !in Keys(t) && k < t.key
    requires Contents(c) == Contents(t.left)[k := v] && Keys(c) == Keys(t.left) + {k}
    requires InOrder(g) == InOrder(Node(c, t.key, t.value, t.right, t.height, t.size + 1))
    ensures Contents(g) == Contents(t)[k := v] && Keys(g) == Keys(t) + {k} && g.Node?
  {
    var n := Node(c, t.key, t.value, t.right, t.height, t.size + 1);
    SameInOrder(g, n);
    ContentsKeys(t.right);
    assert |InOrder(g)| > 0;
    MapUpdateBefore(Contents(t.left), t.key, t.value, Contents(t.right), k, v);
  }

  /** After inserting into the right subtree, the repaired node holds the old pairs plus the new one. */
  lemma InsertedRight(t: Tree, c: Tree, g: Tree, k: int, v: string)
    requires t.Node? && Bst(t) && k !in Keys(t) && k > t.key
    requires Contents(c) == Contents(t.right)[k := v] && Keys(c) == Keys(t.right) + {k}
    requires InOrder(g) == InOrder(Node(t.left, t.key, t.value, c, t.height, t.size + 1))
    ensures Contents(g) == Contents(t)[k := v] && Keys(g) == Keys(t) + {k} && g.Node?
  {
    var n := Node(t.left, t.key, t.value, c, t.height, t.size + 1);
    SameInOrder(g, n);
    assert |InOrder(g)| > 0;
    MapUpdateAfter(Contents(t.left), t.key, t.value, Contents(t.right), k, v);
  }

  /** Updating the left part of a three-part union, when the later parts do not hold the key. */
  lemma MapUpdateBefore(a: map<int, string>, nk: int, nv: string, b: map<int, string>, k: int, v: string)
    requires k != nk && k !in b
    ensures a[k := v] + map[nk := nv] + b == (a + map[nk := nv] + b)[k := v]
  {
    var lhs, rhs := a[k := v] + map[nk := nv] + b, (a + map[nk := nv] + b)[k := v];
    assert lhs.Keys == rhs.Keys;
    forall x | x in lhs ensures lhs[x] == rhs[x] {
    }
  }

  /** Updating the right part of a three-part union. */
  lemma MapUpdateAfter(a: map<int, string>, nk: int, nv: string, b: map<int, string>, k: int, v: string)
    ensures a + map[nk := nv] + b[k := v] == (a + map[nk := nv] + b)[k := v]
  {
    var lhs, rhs := a + map[nk := nv] + b[k := v], (a + map[nk := nv] + b)[k := v];
    assert lhs.Keys == rhs.Keys;
    forall x | x in lhs ensures lhs[x] == rhs[x] {
    }
  }

  /**
   * insert(k, v): -1 and no change when `k` is present; otherwise the tree
   * with the new pair and the number of rebalancing operations (0 for an
   * empty tree).
   */
  function Insert(t: Tree, k: int, v: string): (res: Outcome)
    requires Valid(t) && k != SentinelKey
    ensures k in Keys(t) ==> res == Outcome(t, -1)
    ensures k !in Keys(t) ==> Valid(res.tree) && Contents(res.tree) == Contents(t)[k := v]
    ensures k !in Keys(t) ==> Size(res.tree) == Size(t) + 1
    ensures k !in Keys(t) ==> 0 <= res.count <= Height(res.tree) + 2
    ensures t.Leaf? ==> res.count == 0
  {
    if Search(t, k).Some? then Outcome(t, -1)
    else if t.Leaf? then NewNodeValid(k, v); Outcome(NewNode(k, v), 0)
    else
      var s := InsertRec(t, k, v);
      Outcome(s.tree, s.steps)
  }
}
