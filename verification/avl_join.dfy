/**
 * Join and split. Joining two trees around a pivot whose key separates
 * them descends the taller tree along the side facing the shorter one,
 * splices the pivot in with the shorter tree as its other child, and runs
 * the insertion walk from the pivot upwards. Splitting at a present key
 * folds the sibling subtrees met on the way back to the root into the two
 * halves, one join per ancestor.
 */
module JoinSplit {
  import opened AvlNode
  import opened Lookup
  import opened Insertion

  /** A joined tree and the number of spine nodes descended before the splice. */
  datatype Joined = Joined(tree: Tree, depth: int)

  /** The two halves of a split: keys below and keys above the pivot. */
  datatype Halves = Halves(lo: Tree, hi: Tree)

  function Abs(n: int): int {
    if n < 0 then -n else n
  }

  /** The documented cost of a join: the height difference plus one. */
  function JoinCost(h1: int, h2: int): int {
    Abs(h1 - h2) + 1
  }

  /**
   * The splice: the pivot becomes a node over `tl` and `tr`, whose heights
   * differ by at most one, so the pivot's rank pair is legal.
   */
  lemma SpliceValid(tl: Tree, k: int, v: string, tr: Tree)
    requires Valid(tl) && Valid(tr) && AllBelow(Keys(tl), k) && AllAbove(Keys(tr), k)
    requires -1 <= Height(tl) - Height(tr) <= 1
    ensures Valid(MakeNode(tl, k, v, tr))
    ensures Height(MakeNode(tl, k, v, tr)) == Max(Height(tl), Height(tr)) + 1
  {
    RanksOkHeight(tl);
    RanksOkHeight(tr);
  }

  /** A tree whose in-order sequence is a concatenation holds the keys and count of the parts. */
  lemma ConcatParts(c: Tree, a: Tree, k: int, v: string, b: Tree)
    requires SizesOk(c) && SizesOk(a) && SizesOk(b)
    requires InOrder(c) == InOrder(a) + [(k, v)] + InOrder(b)
    ensures Keys(c) == Keys(a) + {k} + Keys(b)
    ensures Size(c) == Size(a) + Size(b) + 1
  {
    var n := Node(a, k, v, b, 0, Size(a) + Size(b) + 1);
    SameInOrder(c, n);
    SizeIsLength(c);
    SizeIsLength(a);
    SizeIsLength(b);
  }

  /**
   * Join where `tl` (the smaller keys) is at least as tall as `tr`, up to
   * one less: descend the right spine of `tl` while the node is taller than
   * `tr`, splice, and grow back up.
   */
  function JoinRight(tl: Tree, k: int, v: string, tr: Tree): (res: Joined)
    requires Valid(tl) && Valid(tr) && AllBelow(Keys(tl), k) && AllAbove(Keys(tr), k)
    requires Height(tl) >= Height(tr) - 1
    ensures Valid(res.tree)
    ensures InOrder(res.tree) == InOrder(tl) + [(k, v)] + InOrder(tr)
    ensures Max(Height(tl), Height(tr)) <= Height(res.tree) <= Max(Height(tl), Height(tr)) + 1
    ensures 0 <= res.depth <= Max(0, Height(tl) - Height(tr))
    decreases tl
  {
    if Height(tl) <= Height(tr) then
      SpliceValid(tl, k, v, tr);
      Joined(MakeNode(tl, k, v, tr), 0)
    else
      JoinRightDescends(tl, k, tr);
      var Node(a, nk, nv, b, h, sz) := tl;
      var c := JoinRight(b, k, v, tr);
      JoinRightStep(tl, k, v, tr, c.tree);
      JoinRightOrder(tl, k, v, tr, c.tree);
      var g := GrowRight(a, nk, nv, c.tree, h, sz + Size(tr) + 1);
      Joined(g.tree, c.depth + 1)
  }

  /** The mirror join where `tr` (the larger keys) is the taller one: descend its left spine. */
  function JoinLeft(tl: Tree, k: int, v: string, tr: Tree): (res: Joined)
    requires Valid(tl) && Valid(tr) && AllBelow(Keys(tl), k) && AllAbove(Keys(tr), k)
    requires Height(tr) >= Height(tl) - 1
    ensures Valid(res.tree)
    ensures InOrder(res.tree) == InOrder(tl) + [(k, v)] + InOrder(tr)
    ensures Max(Height(tl), Height(tr)) <= Height(res.tree) <= Max(Height(tl), Height(tr)) + 1
    ensures 0 <= res.depth <= Max(0, Height(tr) - Height(tl))
    decreases tr
  {
    if Height(tr) <= Height(tl) then
      SpliceValid(tl, k, v, tr);
      Joined(MakeNode(tl, k, v, tr), 0)
    else
      JoinLeftDescends(tl, k, tr);
      var Node(a, nk, nv, b, h, sz) := tr;
      var c := JoinLeft(tl, k, v, a);
      JoinLeftStep(tl, k, v, tr, c.tree);
      JoinLeftOrder(tl, k, v, tr, c.tree);
      var g := GrowLeft(c.tree, nk, nv, b, h, sz + Size(tl) + 1);
      Joined(g.tree, c.depth + 1)
  }

  /** The right child of a taller `tl` still meets the join's precondition, one level lower. */
  lemma JoinRightDescends(tl: Tree, k: int, tr: Tree)
    requires Valid(tl) && Valid(tr) && AllBelow(Keys(tl), k) && AllAbove(Keys(tr), k)
    requires Height(tl) > Height(tr)
    ensures tl.Node? && Valid(tl.left) && Valid(tl.right)
    ensures AllBelow(Keys(tl.right), k) && Height(tl.right) >= Height(tr) - 1
    ensures Height(tl.right) < Height(tl) && Height(tl.left) < Height(tl)
  {
    RanksOkHeight(tr);
    assert tl.Node?;
    assert RankDiffLegal(tl);
  }

  /** The mirror: the left child of a taller `tr`. */
  lemma JoinLeftDescends(tl: Tree, k: int, tr: Tree)
    requires Valid(tl) && Valid(tr) && AllBelow(Keys(tl), k) && AllAbove(Keys(tr), k)
    requires Height(tr) > Height(tl)
    ensures tr.Node? && Valid(tr.left) && Valid(tr.right)
    ensures AllAbove(Keys(tr.left), k) && Height(tr.left) >= Height(tl) - 1
    ensures Height(tr.left) < Height(tr) && Height(tr.right) < Height(tr)
  {
    RanksOkHeight(tl);
    assert tr.Node?;
    assert RankDiffLegal(tr);
  }

  /**
   * After joining into the right child of `tl`, the grown child and the
   * untouched left child meet the insertion walk's precondition at the
   * node of `tl`.
   */
  lemma JoinRightStep(tl: Tree, k: int, v: string, tr: Tree, c: Tree)
    requires Valid(tl) && Valid(tr) && AllBelow(Keys(tl), k) && AllAbove(Keys(tr), k)
    requires Height(tl) > Height(tr)
    requires tl.Node? && Valid(c) && InOrder(c) == InOrder(tl.right) + [(k, v)] + InOrder(tr)
    requires Max(Height(tl.right), Height(tr)) <= Height(c) <= Max(Height(tl.right), Height(tr)) + 1
    ensures AllAbove(Keys(c), tl.key) && Size(c) == Size(tl.right) + Size(tr) + 1
    ensures tl.size + Size(tr) + 1 == Size(tl.left) + Size(c) + 1
    ensures GrownPair(tl.height - Height(c), tl.height - Height(tl.left))
  {
    var Node(a, nk, nv, b, h, sz) := tl;
    assert SizesOk(b) && SizesOk(tr) && SizesOk(c);
    ConcatParts(c, b, k, v, tr);
    assert Bst(tl) && nk in Keys(tl);
    SpineKeysAbove(Keys(c), Keys(b), nk, k, Keys(tr));
    assert SizesOk(tl);
    assert RankDiffLegal(tl);
    assert LegalPair(h - Height(a), h - Height(b)) && Height(tr) < h;
    SpineHeights(h, Height(a), Height(b), Height(tr), Height(c));
  }

  /** The mirror step for joining into the left child of `tr`. */
  lemma JoinLeftStep(tl: Tree, k: int, v: string, tr: Tree, c: Tree)
    requires Valid(tl) && Valid(tr) && AllBelow(Keys(tl), k) && AllAbove(Keys(tr), k)
    requires Height(tr) > Height(tl)
    requires tr.Node? && Valid(c) && InOrder(c) == InOrder(tl) + [(k, v)] + InOrder(tr.left)
    requires Max(Height(tl), Height(tr.left)) <= Height(c) <= Max(Height(tl), Height(tr.left)) + 1
    ensures AllBelow(Keys(c), tr.key) && Size(c) == Size(tl) + Size(tr.left) + 1
    ensures tr.size + Size(tl) + 1 == Size(c) + Size(tr.right) + 1
    ensures GrownPair(tr.height - Height(c), tr.height - Height(tr.right))
  {
    var Node(a, nk, nv, b, h, sz) := tr;
    assert SizesOk(a) && SizesOk(tl) && SizesOk(c);
    ConcatParts(c, tl, k, v, a);
    assert Bst(tr) && nk in Keys(tr);
    SpineKeysBelow(Keys(c), Keys(tl), k, nk, Keys(a));
    assert SizesOk(tr);
    assert RankDiffLegal(tr);
    assert LegalPair(h - Height(b), h - Height(a)) && Height(tl) < h;
    SpineHeights(h, Height(b), Height(a), Height(tl), Height(c));
  }

  /** Keys of a join spliced into the right subtree of a spine node stay above that node's key. */
  lemma SpineKeysAbove(c: set<int>, b: set<int>, nk: int, k: int, tr: set<int>)
    requires c == b + {k} + tr && AllAbove(b, nk) && nk < k && AllAbove(tr, k)
    ensures AllAbove(c, nk)
  {
    forall x | x in c ensures x > nk {
      if x in tr {
        assert x > k;
      }
    }
  }

  /** Keys of a join spliced into the left subtree of a spine node stay below that node's key. */
  lemma SpineKeysBelow(c: set<int>, tl: set<int>, k: int, nk: int, a: set<int>)
    requires c == tl + {k} + a && AllBelow(a, nk) && k < nk && AllBelow(tl, k)
    ensures AllBelow(c, nk)
  {
    forall x | x in c ensures x < nk {
      if x in tl {
        assert x < k;
      }
    }
  }

  /**
   * Rank arithmetic at a spine node of height `h` with a legal pair, whose
   * child on the descended side (height `hd`) was joined with a tree of
   * height `hs` below `h` into a tree of height `hc`: the node shows a pair
   * the insertion walk accepts.
   */
  lemma SpineHeights(h: int, ho: int, hd: int, hs: int, hc: int)
    requires LegalPair(h - ho, h - hd)
    requires hs < h && Max(hd, hs) <= hc <= Max(hd, hs) + 1
    ensures GrownPair(h - hc, h - ho)
  {
  }

  /** The node over the joined right child lists the joined sequence. */
  lemma JoinRightOrder(tl: Tree, k: int, v: string, tr: Tree, c: Tree)
    requires tl.Node? && InOrder(c) == InOrder(tl.right) + [(k, v)] + InOrder(tr)
    ensures InOrder(Node(tl.left, tl.key, tl.value, c, 0, 0)) == InOrder(tl) + [(k, v)] + InOrder(tr)
  {
    Regroup(InOrder(tl.left), (tl.key, tl.value), InOrder(tl.right), (k, v), InOrder(tr));
  }

  /** The node over the joined left child lists the joined sequence. */
  lemma JoinLeftOrder(tl: Tree, k: int, v: string, tr: Tree, c: Tree)
    requires tr.Node? && InOrder(c) == InOrder(tl) + [(k, v)] + InOrder(tr.left)
    ensures InOrder(Node(c, tr.key, tr.value, tr.right, 0, 0)) == InOrder(tl) + [(k, v)] + InOrder(tr)
  {
    Regroup(InOrder(tl), (k, v), InOrder(tr.left), (tr.key, tr.value), InOrder(tr.right));
  }

  /** Moving the brackets of a five-part concatenation. */
  lemma Regroup<T>(a: seq<T>, p: T, b: seq<T>, q: T, c: seq<T>)
    ensures a + [p] + (b + [q] + c) == (a + [p] + b) + [q] + c
  {
  }

  /**
   * Join of two non-empty trees in key order: equal heights make the pivot
   * the new root; otherwise the taller tree is descended. The number of
   * spine nodes descended is at most the height difference.
   */
  function JoinOrdered(lo: Tree, k: int, v: string, hi: Tree): (res: Joined)
    requires Valid(lo) && Valid(hi) && AllBelow(Keys(lo), k) && AllAbove(Keys(hi), k)
    ensures Valid(res.tree)
    ensures InOrder(res.tree) == InOrder(lo) + [(k, v)] + InOrder(hi)
    ensures Max(Height(lo), Height(hi)) <= Height(res.tree) <= Max(Height(lo), Height(hi)) + 1
    ensures 0 <= res.depth < JoinCost(Height(lo), Height(hi))
  {
    if Height(lo) == Height(hi) then
      SpliceValid(lo, k, v, hi);
      Joined(MakeNode(lo, k, v, hi), 0)
    else if Height(lo) > Height(hi) then JoinRight(lo, k, v, hi)
    else JoinLeft(lo, k, v, hi)
  }

  /** Inserting a key above every key of a search tree appends its pair to the in-order sequence. */
  lemma InsertAtEnd(t: Tree, k: int, v: string)
    requires Valid(t) && AllBelow(Keys(t), k)
    ensures InOrder(InsertRec(t, k, v).tree) == InOrder(t) + [(k, v)]
  {
    EndNode(t, k, v);
    ContentsKeys(t);
    SameContentsSameInOrder(InsertRec(t, k, v).tree, Node(t, k, v, Leaf, 0, 0));
  }

  /** Inserting a key below every key of a search tree prepends its pair to the in-order sequence. */
  lemma InsertAtFront(t: Tree, k: int, v: string)
    requires Valid(t) && AllAbove(Keys(t), k)
    ensures InOrder(InsertRec(t, k, v).tree) == [(k, v)] + InOrder(t)
  {
    FrontNode(t, k, v);
    ContentsKeys(t);
    SameContentsSameInOrder(InsertRec(t, k, v).tree, Node(Leaf, k, v, t, 0, 0));
  }

  /** A node over `t` with no right subtree lists `t` and then its own pair, and holds `t`'s map updated. */
  lemma EndNode(t: Tree, k: int, v: string)
    requires Bst(t) && AllBelow(Keys(t), k)
    ensures Bst(Node(t, k, v, Leaf, 0, 0))
    ensures InOrder(Node(t, k, v, Leaf, 0, 0)) == InOrder(t) + [(k, v)]
    ensures Contents(Node(t, k, v, Leaf, 0, 0)) == Contents(t)[k := v]
  {
    var m: map<int, string> := map[];
    assert Contents(Node(t, k, v, Leaf, 0, 0)) == Contents(t) + map[k := v] + m;
    MapPutLast(Contents(t), k, v);
    var e: seq<(int, string)> := [];
    assert InOrder(Node(t, k, v, Leaf, 0, 0)) == InOrder(t) + [(k, v)] + e;
  }

  /** A node over `t` with no left subtree lists its own pair and then `t`, and holds `t`'s map updated. */
  lemma FrontNode(t: Tree, k: int, v: string)
    requires Bst(t) && AllAbove(Keys(t), k)
    ensures Bst(Node(Leaf, k, v, t, 0, 0))
    ensures InOrder(Node(Leaf, k, v, t, 0, 0)) == [(k, v)] + InOrder(t)
    ensures Contents(Node(Leaf, k, v, t, 0, 0)) == Contents(t)[k := v]
  {
    ContentsKeys(t);
    assert k !in Contents(t);
    var m: map<int, string> := map[];
    var n := Node(Leaf, k, v, t, 0, 0);
    assert Contents(n) == m + map[k := v] + Contents(t);
    MapPutFirst(Contents(t), k, v);
    var e: seq<(int, string)> := [];
    assert InOrder(n) == e + [(k, v)] + InOrder(t);
    assert e + [(k, v)] == [(k, v)];
  }

  /** Both ends at once, for a pivot on either side. */
  lemma InsertAtEnds(t: Tree, k: int, v: string)
    requires Valid(t) && (AllBelow(Keys(t), k) || AllAbove(Keys(t), k))
    ensures AllBelow(Keys(t), k) ==> InOrder(InsertRec(t, k, v).tree) == InOrder(t) + [(k, v)]
    ensures AllAbove(Keys(t), k) ==> InOrder(InsertRec(t, k, v).tree) == [(k, v)] + InOrder(t)
  {
    if AllBelow(Keys(t), k) {
      InsertAtEnd(t, k, v);
    }
    if AllAbove(Keys(t), k) {
      InsertAtFront(t, k, v);
    }
  }

  /** Adding a fresh key between two key-disjoint maps is an update of their union, in either order. */
  lemma MapAddFresh(a: map<int, string>, k: int, v: string, b: map<int, string>)
    requires k !in a && k !in b
    ensures a + map[k := v] + b == (a + b)[k := v]
  {
    var lhs := a + map[k := v] + b;
    assert lhs.Keys == (a + b)[k := v].Keys;
    forall x | x in lhs ensures lhs[x] == (a + b)[k := v][x] {
    }
  }

  /** The union of two maps with disjoint domains does not depend on the order. */
  lemma MapUnionSwap(a: map<int, string>, b: map<int, string>)
    requires a.Keys !! b.Keys
    ensures a + b == b + a
  {
    assert (a + b).Keys == (b + a).Keys;
    forall x | x in a + b ensures (a + b)[x] == (b + a)[x] {
    }
  }

  /** A fresh key added last to a map is an update of the map. */
  lemma MapPutLast(m: map<int, string>, k: int, v: string)
    ensures m + map[k := v] + map[] == m[k := v]
  {
    var lhs := m + map[k := v] + map[];
    assert lhs.Keys == m[k := v].Keys;
  }

  /** A key added first to a map that does not hold it is an update of the map. */
  lemma MapPutFirst(m: map<int, string>, k: int, v: string)
    requires k !in m
    ensures map[] + map[k := v] + m == m[k := v]
  {
    var lhs := map[] + map[k := v] + m;
    assert lhs.Keys == m[k := v].Keys;
  }


  /**
   * Joining with an empty tree inserts the pivot into the other tree; the
   * cost is the height of the result plus one.
   */
  function InsertPivot(t: Tree, k: int, v: string): (res: Outcome)
    requires Valid(t) && (AllBelow(Keys(t), k) || AllAbove(Keys(t), k))
    ensures Valid(res.tree)
    ensures AllBelow(Keys(t), k) ==> InOrder(res.tree) == InOrder(t) + [(k, v)]
    ensures AllAbove(Keys(t), k) ==> InOrder(res.tree) == [(k, v)] + InOrder(t)
    ensures res.count == Height(res.tree) + 1 >= 1
  {
    var s := InsertRec(t, k, v);
    RanksOkHeight(s.tree);
    InsertAtEnds(t, k, v);
    Outcome(s.tree, Height(s.tree) + 1)
  }

  /** The two key orders a pivot can have against the two trees of a join. */
  ghost predicate Separates(a: Tree, k: int, b: Tree) {
    (AllBelow(Keys(a), k) && AllAbove(Keys(b), k)) || (AllAbove(Keys(a), k) && AllBelow(Keys(b), k))
  }

  /**
   * join(x, t) called on tree `t1` with `t2` as t: both empty gives the pivot alone with cost 1; one
   * empty inserts the pivot into the other with cost its new height plus
   * one; otherwise the side is read off the pivot against t1 root's key
   * and the cost is the height difference plus one.
   */
  function Join(t1: Tree, k: int, v: string, t2: Tree): (res: Outcome)
    requires Valid(t1) && Valid(t2) && Separates(t1, k, t2)
    ensures Valid(res.tree)
    ensures AllBelow(Keys(t1), k) && AllAbove(Keys(t2), k) ==>
      InOrder(res.tree) == InOrder(t1) + [(k, v)] + InOrder(t2)
    ensures AllAbove(Keys(t1), k) && AllBelow(Keys(t2), k) ==>
      InOrder(res.tree) == InOrder(t2) + [(k, v)] + InOrder(t1)
    ensures t1.Node? && t2.Node? ==> res.count == JoinCost(Height(t1), Height(t2))
    ensures res.count >= 1
  {
    if t1.Leaf? && t2.Leaf? then
      NewNodeValid(k, v);
      Outcome(NewNode(k, v), 1)
    else if t2.Leaf? then InsertPivot(t1, k, v)
    else if t1.Leaf? then InsertPivot(t2, k, v)
    else if k > t1.key then
      var j := JoinOrdered(t1, k, v, t2);
      Outcome(j.tree, JoinCost(Height(t1), Height(t2)))
    else
      var j := JoinOrdered(t2, k, v, t1);
      Outcome(j.tree, JoinCost(Height(t1), Height(t2)))
  }

  /**
   * The join's in-order law without orientation: the keys and the map of a
   * join are those of both trees plus the pivot.
   */
  lemma JoinContents(t1: Tree, k: int, v: string, t2: Tree)
    requires Valid(t1) && Valid(t2) && Separates(t1, k, t2)
    ensures Keys(Join(t1, k, v, t2).tree) == Keys(t1) + Keys(t2) + {k}
    ensures Contents(Join(t1, k, v, t2).tree) == (Contents(t1) + Contents(t2))[k := v]
  {
    var j := Join(t1, k, v, t2).tree;
    if AllBelow(Keys(t1), k) && AllAbove(Keys(t2), k) {
      JoinedMap(j, t1, k, v, t2);
    } else {
      JoinedMap(j, t2, k, v, t1);
      assert Keys(t2) + Keys(t1) == Keys(t1) + Keys(t2);
    }
  }

  /** A search tree listing `lo`, the pivot and `hi` in order holds their keys and their maps. */
  lemma JoinedMap(j: Tree, lo: Tree, k: int, v: string, hi: Tree)
    requires Bst(lo) && Bst(hi) && AllBelow(Keys(lo), k) && AllAbove(Keys(hi), k)
    requires InOrder(j) == InOrder(lo) + [(k, v)] + InOrder(hi)
    ensures Keys(j) == Keys(lo) + Keys(hi) + {k}
    ensures Contents(j) == (Contents(lo) + Contents(hi))[k := v]
    ensures Contents(j) == (Contents(hi) + Contents(lo))[k := v]
  {
    var n := Node(lo, k, v, hi, 0, 0);
    SameInOrder(j, n);
    var a, b := Contents(lo), Contents(hi);
    assert Contents(n) == a + map[k := v] + b;
    SeparatedMaps(lo, k, hi);
    MapAddFresh(a, k, v, b);
    MapUnionSwap(a, b);
  }

  /** The maps of two trees separated by a key have disjoint domains, neither holding that key. */
  lemma SeparatedMaps(lo: Tree, k: int, hi: Tree)
    requires Bst(lo) && Bst(hi) && AllBelow(Keys(lo), k) && AllAbove(Keys(hi), k)
    ensures k !in Contents(lo) && k !in Contents(hi) && Contents(lo).Keys !! Contents(hi).Keys
  {
    ContentsKeys(lo);
    ContentsKeys(hi);
    forall y | y in Keys(lo) ensures y !in Keys(hi) {
      assert y < k;
    }
  }


  /**
   * split(x) for a present key: the halves are the subtrees below the node
   * of `x`, and on the way back up each ancestor is joined, as pivot, with
   * its other subtree into the half on that ancestor's side.
   */
  function Split(t: Tree, x: int): (res: Halves)
    requires Valid(t) && x in Keys(t)
    ensures Valid(res.lo) && Valid(res.hi)
    ensures InOrder(t) == InOrder(res.lo) + [(x, Search(t, x).value)] + InOrder(res.hi)
    decreases t
  {
    var Node(l, k, v, r, _, _) := t;
    if x == k then Halves(l, r)
    else if x < k then
      SplitBelow(t, x);
      var s := Split(l, x);
      SplitFold(l, x, Search(l, x).value, s.lo, s.hi, k, v, r);
      Halves(s.lo, Join(s.hi, k, v, r).tree)
    else
      SplitAbove(t, x);
      var s := Split(r, x);
      SplitFoldAbove(l, k, v, r, x, Search(r, x).value, s.lo, s.hi);
      Halves(Join(s.lo, k, v, l).tree, s.hi)
  }

  /** A key left of the root is in the left subtree, and search finds it there. */
  lemma SplitBelow(t: Tree, x: int)
    requires Valid(t) && t.Node? && x in Keys(t) && x < t.key
    ensures Valid(t.left) && x in Keys(t.left) && Search(t, x) == Search(t.left, x)
  {
    assert x !in Keys(t.right);
  }

  /** A key right of the root is in the right subtree, and search finds it there. */
  lemma SplitAbove(t: Tree, x: int)
    requires Valid(t) && t.Node? && x in Keys(t) && x > t.key
    ensures Valid(t.right) && x in Keys(t.right) && Search(t, x) == Search(t.right, x)
  {
    assert x !in Keys(t.left);
  }

  /**
   * Folding the root and its right subtree into the upper half of a split of
   * the left subtree: the join is well-oriented and the sequence is kept.
   */
  lemma SplitFold(l: Tree, x: int, xv: string, lo: Tree, hi: Tree, k: int, v: string, r: Tree)
    requires Valid(l) && Valid(r) && Valid(lo) && Valid(hi)
    requires AllBelow(Keys(l), k) && AllAbove(Keys(r), k)
    requires InOrder(l) == InOrder(lo) + [(x, xv)] + InOrder(hi)
    ensures Separates(hi, k, r)
    ensures InOrder(l) + [(k, v)] + InOrder(r) == InOrder(lo) + [(x, xv)] + InOrder(Join(hi, k, v, r).tree)
  {
    ConcatParts(l, lo, x, xv, hi);
    assert AllBelow(Keys(hi), k);
    Regroup(InOrder(lo), (x, xv), InOrder(hi), (k, v), InOrder(r));
  }

  /**
   * Folding the root and its left subtree into the lower half of a split of
   * the right subtree.
   */
  lemma SplitFoldAbove(l: Tree, k: int, v: string, r: Tree, x: int, xv: string, lo: Tree, hi: Tree)
    requires Valid(l) && Valid(r) && Valid(lo) && Valid(hi)
    requires AllBelow(Keys(l), k) && AllAbove(Keys(r), k)
    requires InOrder(r) == InOrder(lo) + [(x, xv)] + InOrder(hi)
    ensures Separates(lo, k, l)
    ensures InOrder(l) + [(k, v)] + InOrder(r) == InOrder(Join(lo, k, v, l).tree) + [(x, xv)] + InOrder(hi)
  {
    ConcatParts(r, lo, x, xv, hi);
    assert AllAbove(Keys(lo), k);
    Regroup(InOrder(l), (k, v), InOrder(lo), (x, xv), InOrder(hi));
  }

  /**
   * The halves of a split partition the other keys by the pivot: the lower
   * half holds exactly the keys below `x`, the upper half exactly those
   * above, and together they hold every pair of the tree except the pivot's.
   */
  lemma SplitPartitions(t: Tree, x: int)
    requires Valid(t) && x in Keys(t)
    ensures forall y :: y in Keys(Split(t, x).lo) <==> y in Keys(t) && y < x
    ensures forall y :: y in Keys(Split(t, x).hi) <==> y in Keys(t) && y > x
    ensures Contents(Split(t, x).lo) + Contents(Split(t, x).hi) == Contents(t) - {x}
  {
    var s := Split(t, x);
    var n := Node(s.lo, x, Search(t, x).value, s.hi, 0, 0);
    SameInOrder(t, n);
    assert AllBelow(Keys(s.lo), x) && AllAbove(Keys(s.hi), x);
    var a, b := Contents(s.lo), Contents(s.hi);
    assert Contents(t) == a + map[x := Search(t, x).value] + b;
    assert x !in a && x !in b by {
      ContentsKeys(s.lo);
      ContentsKeys(s.hi);
    }
    MapDropMiddle(a, x, Search(t, x).value, b);
  }

  /** Removing a key that only the middle map holds leaves the outer two. */
  lemma MapDropMiddle(a: map<int, string>, k: int, v: string, b: map<int, string>)
    requires k !in a && k !in b
    ensures (a + map[k := v] + b) - {k} == a + b
  {
    var lhs := (a + map[k := v] + b) - {k};
    assert lhs.Keys == (a + b).Keys;
    forall y | y in lhs ensures lhs[y] == (a + b)[y] {
    }
  }

  /**
   * Splitting at `x` and joining the halves back around `x` with its stored
   * value gives a tree with the original in-order sequence: the same keys,
   * the same values, the same order.
   */
  lemma SplitJoinRoundTrip(t: Tree, x: int)
    requires Valid(t) && x in Keys(t)
    ensures var s := Split(t, x);
      Separates(s.lo, x, s.hi) &&
      InOrder(Join(s.lo, x, Search(t, x).value, s.hi).tree) == InOrder(t)
  {
    var s := Split(t, x);
    var n := Node(s.lo, x, Search(t, x).value, s.hi, 0, 0);
    SameInOrder(t, n);
  }
}
