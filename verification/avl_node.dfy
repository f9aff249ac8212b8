/**
 * The node model of an AVL tree with distinct integer keys and string values.
 *
 * A real node stores its key, its value, its height (rank) and the number of
 * real nodes in its subtree. `Leaf` is the virtual sentinel node that takes
 * the place of every absent child: its key is -1, its height is -1 and its
 * size is 0, so heights and sizes of children can be read without a check.
 */
module AvlNode {

  datatype Option<T> = None | Some(value: T)

  datatype Tree =
    | Leaf
    | Node(left: Tree, key: int, value: string, right: Tree, height: int, size: int)

  /** The key a sentinel carries; a node with this key is not a real node. */
  const SentinelKey: int := -1

  function Height(t: Tree): int {
    if t.Leaf? then -1 else t.height
  }

  function Size(t: Tree): int {
    if t.Leaf? then 0 else t.size
  }

  function KeyOf(t: Tree): int {
    if t.Leaf? then SentinelKey else t.key
  }

  function Max(a: int, b: int): int {
    if a < b then b else a
  }

  /** A freshly created real node: height 0, size 1 and two sentinel children. */
  function NewNode(k: int, v: string): Tree {
    Node(Leaf, k, v, Leaf, 0, 1)
  }

  /** A node whose height and size are computed from its two children. */
  function MakeNode(l: Tree, k: int, v: string, r: Tree): Tree {
    Node(l, k, v, r, 1 + Max(Height(l), Height(r)), Size(l) + Size(r) + 1)
  }

  /** Rank difference between a node and its left child. */
  function LeftDiff(t: Tree): int
    requires t.Node?
  {
    t.height - Height(t.left)
  }

  /** Rank difference between a node and its right child. */
  function RightDiff(t: Tree): int
    requires t.Node?
  {
    t.height - Height(t.right)
  }

  /** The AVL rule as the source states it: rank differences (1,1), (2,1) or (1,2). */
  predicate LegalPair(ld: int, rd: int) {
    (ld == 1 && rd == 1) || (ld == 2 && rd == 1) || (ld == 1 && rd == 2)
  }

  predicate RankDiffLegal(t: Tree)
    requires t.Node?
  {
    LegalPair(LeftDiff(t), RightDiff(t))
  }

  // ---------------------------------------------------------------------
  // Abstractions of a tree: its keys, its key/value map and its in-order
  // sequence of (key, value) pairs.
  // ---------------------------------------------------------------------

  ghost function Keys(t: Tree): set<int> {
    match t
    case Leaf => {}
    case Node(l, k, _, r, _, _) => Keys(l) + {k} + Keys(r)
  }

  ghost function Contents(t: Tree): map<int, string> {
    match t
    case Leaf => map[]
    case Node(l, k, v, r, _, _) => Contents(l) + map[k := v] + Contents(r)
  }

  function InOrder(t: Tree): seq<(int, string)> {
    match t
    case Leaf => []
    case Node(l, k, v, r, _, _) => InOrder(l) + [(k, v)] + InOrder(r)
  }

  ghost predicate AllBelow(s: set<int>, k: int) {
    forall x :: x in s ==> x < k
  }

  ghost predicate AllAbove(s: set<int>, k: int) {
    forall x :: x in s ==> x > k
  }

  // ---------------------------------------------------------------------
  // The invariants.
  // ---------------------------------------------------------------------

  /** Binary-search-tree order: left keys < key < right keys at every node. */
  ghost predicate Bst(t: Tree) {
    match t
    case Leaf => true
    case Node(l, k, _, r, _, _) =>
      Bst(l) && Bst(r) && AllBelow(Keys(l), k) && AllAbove(Keys(r), k)
  }

  /** Every real node obeys the rank-difference rule. */
  ghost predicate RanksOk(t: Tree) {
    match t
    case Leaf => true
    case Node(l, _, _, r, _, _) => RankDiffLegal(t) && RanksOk(l) && RanksOk(r)
  }

  /** Every real node's size is the sum of its children's sizes plus one. */
  ghost predicate SizesOk(t: Tree) {
    match t
    case Leaf => true
    case Node(l, _, _, r, _, s) => s == Size(l) + Size(r) + 1 && SizesOk(l) && SizesOk(r)
  }

  /** Every real node's height is one more than the larger child height. */
  ghost predicate HeightsOk(t: Tree) {
    match t
    case Leaf => true
    case Node(l, _, _, r, h, _) =>
      h == 1 + Max(Height(l), Height(r)) && HeightsOk(l) && HeightsOk(r)
  }

  /** Classical AVL balance: child heights differ by at most one at every node. */
  ghost predicate Balanced(t: Tree) {
    match t
    case Leaf => true
    case Node(l, _, _, r, _, _) =>
      -1 <= Height(l) - Height(r) <= 1 && Balanced(l) && Balanced(r)
  }

  ghost predicate Valid(t: Tree) {
    Bst(t) && RanksOk(t) && SizesOk(t)
  }

  // ---------------------------------------------------------------------
  // Sequences of pairs.
  // ---------------------------------------------------------------------

  ghost predicate Sorted(s: seq<(int, string)>) {
    forall i, j :: 0 <= i < j < |s| ==> s[i].0 < s[j].0
  }

  ghost function SeqKeys(s: seq<(int, string)>): set<int> {
    set i | 0 <= i < |s| :: s[i].0
  }

  /** The map a sequence of pairs denotes; a later pair overrides an earlier one. */
  ghost function SeqMap(s: seq<(int, string)>): map<int, string> {
    if |s| == 0 then map[] else SeqMap(s[..|s| - 1])[s[|s| - 1].0 := s[|s| - 1].1]
  }

  // ---------------------------------------------------------------------
  // Lemmas about the node model.
  // ---------------------------------------------------------------------

  /** A fresh real node is a valid one-entry tree. */
  lemma NewNodeValid(k: int, v: string)
    ensures Valid(NewNode(k, v))
    ensures Contents(NewNode(k, v)) == map[k := v] && Keys(NewNode(k, v)) == {k}
    ensures Height(NewNode(k, v)) == 0 && Size(NewNode(k, v)) == 1
  {
  }

  /** The rank rule is exactly height consistency plus AVL balance. */
  lemma {:induction false} RankRuleIffBalanced(t: Tree)
    ensures RanksOk(t) <==> HeightsOk(t) && Balanced(t)
  {
    match t
    case Leaf =>
    case Node(l, _, _, r, _, _) =>
      RankRuleIffBalanced(l);
      RankRuleIffBalanced(r);
  }

  /** Under the rank rule, real nodes have non-negative height. */
  lemma {:induction false} RanksOkHeight(t: Tree)
    requires RanksOk(t)
    ensures Height(t) >= -1
    ensures t.Node? ==> Height(t) >= 0
  {
    match t
    case Leaf =>
    case Node(l, _, _, r, _, _) =>
      RanksOkHeight(l);
  }

  /** A node's key set is the domain of its key/value map. */
  lemma {:induction false} ContentsKeys(t: Tree)
    ensures Contents(t).Keys == Keys(t)
  {
    match t
    case Leaf =>
    case Node(l, _, _, r, _, _) =>
      ContentsKeys(l);
      ContentsKeys(r);
  }

  /** With consistent sizes, the stored size is the length of the in-order sequence. */
  lemma {:induction false} SizeIsLength(t: Tree)
    requires SizesOk(t)
    ensures Size(t) == |InOrder(t)|
  {
    match t
    case Leaf =>
    case Node(l, _, _, r, _, _) =>
      SizeIsLength(l);
      SizeIsLength(r);
  }

  lemma SeqKeysAppend(a: seq<(int, string)>, b: seq<(int, string)>)
    ensures SeqKeys(a + b) == SeqKeys(a) + SeqKeys(b)
  {
    var ab := a + b;
    forall x | x in SeqKeys(ab)
      ensures x in SeqKeys(a) + SeqKeys(b)
    {
      var i :| 0 <= i < |ab| && ab[i].0 == x;
      if i < |a| {
        assert a[i].0 == x;
      } else {
        assert b[i - |a|].0 == x;
      }
    }
    forall x | x in SeqKeys(a) + SeqKeys(b)
      ensures x in SeqKeys(ab)
    {
      if x in SeqKeys(a) {
        var i :| 0 <= i < |a| && a[i].0 == x;
        assert ab[i].0 == x;
      } else {
        var i :| 0 <= i < |b| && b[i].0 == x;
        assert ab[|a| + i].0 == x;
      }
    }
  }

  lemma {:induction false} SeqMapAppend(a: seq<(int, string)>, b: seq<(int, string)>)
    ensures SeqMap(a + b) == SeqMap(a) + SeqMap(b)
    decreases |b|
  {
    if |b| == 0 {
      assert a + b == a;
    } else {
      var b' := b[..|b| - 1];
      assert (a + b)[..|a + b| - 1] == a + b';
      SeqMapAppend(a, b');
    }
  }

  /** The key set of a tree is the set of keys in its in-order sequence. */
  lemma {:induction false} KeysOfInOrder(t: Tree)
    ensures Keys(t) == SeqKeys(InOrder(t))
  {
    match t
    case Leaf =>
    case Node(l, k, v, r, _, _) =>
      KeysOfInOrder(l);
      KeysOfInOrder(r);
      SeqKeysAppend(InOrder(l) + [(k, v)], InOrder(r));
      SeqKeysAppend(InOrder(l), [(k, v)]);
      assert SeqKeys([(k, v)]) == {k} by {
        assert [(k, v)][0].0 == k;
      }
  }

  /** The key/value map of a tree is the map its in-order sequence denotes. */
  lemma {:induction false} ContentsOfInOrder(t: Tree)
    ensures Contents(t) == SeqMap(InOrder(t))
  {
    match t
    case Leaf =>
    case Node(l, k, v, r, _, _) =>
      ContentsOfInOrder(l);
      ContentsOfInOrder(r);
      SeqMapAppend(InOrder(l) + [(k, v)], InOrder(r));
      SeqMapAppend(InOrder(l), [(k, v)]);
      assert [(k, v)][..0] == [];
  }

  lemma SortedSplitFrom(a: seq<(int, string)>, p: (int, string), b: seq<(int, string)>)
    requires Sorted(a + [p] + b)
    ensures Sorted(a) && Sorted(b) && AllBelow(SeqKeys(a), p.0) && AllAbove(SeqKeys(b), p.0)
  {
    var s := a + [p] + b;
    forall x | x in SeqKeys(a) ensures x < p.0 {
      var i :| 0 <= i < |a| && a[i].0 == x;
      assert s[i] == a[i] && s[|a|] == p;
      assert s[i].0 < s[|a|].0;
    }
    forall x | x in SeqKeys(b) ensures x > p.0 {
      var i :| 0 <= i < |b| && b[i].0 == x;
      assert s[|a| + 1 + i] == b[i] && s[|a|] == p;
      assert s[|a|].0 < s[|a| + 1 + i].0;
    }
    forall i, j | 0 <= i < j < |a| ensures a[i].0 < a[j].0 {
      assert s[i] == a[i] && s[j] == a[j];
      assert s[i].0 < s[j].0;
    }
    forall i, j | 0 <= i < j < |b| ensures b[i].0 < b[j].0 {
      assert s[|a| + 1 + i] == b[i] && s[|a| + 1 + j] == b[j];
      assert s[|a| + 1 + i].0 < s[|a| + 1 + j].0;
    }
  }

  lemma SortedSplitTo(a: seq<(int, string)>, p: (int, string), b: seq<(int, string)>)
    requires Sorted(a) && Sorted(b) && AllBelow(SeqKeys(a), p.0) && AllAbove(SeqKeys(b), p.0)
    ensures Sorted(a + [p] + b)
  {
    var s := a + [p] + b;
    forall i, j | 0 <= i < j < |s| ensures s[i].0 < s[j].0 {
      if j < |a| {
        assert s[i] == a[i] && s[j] == a[j];
      } else if j == |a| {
        assert s[i] == a[i] && a[i].0 in SeqKeys(a);
      } else if i < |a| {
        assert s[i] == a[i] && a[i].0 in SeqKeys(a);
        assert s[j] == b[j - |a| - 1] && b[j - |a| - 1].0 in SeqKeys(b);
      } else if i == |a| {
        assert s[j] == b[j - |a| - 1] && b[j - |a| - 1].0 in SeqKeys(b);
      } else {
        assert s[i] == b[i - |a| - 1] && s[j] == b[j - |a| - 1];
      }
    }
  }

  lemma SortedSplit(a: seq<(int, string)>, p: (int, string), b: seq<(int, string)>)
    ensures Sorted(a + [p] + b) <==>
      Sorted(a) && Sorted(b) && AllBelow(SeqKeys(a), p.0) && AllAbove(SeqKeys(b), p.0)
  {
    if Sorted(a + [p] + b) {
      SortedSplitFrom(a, p, b);
    }
    if Sorted(a) && Sorted(b) && AllBelow(SeqKeys(a), p.0) && AllAbove(SeqKeys(b), p.0) {
      SortedSplitTo(a, p, b);
    }
  }

  /** BST order is exactly a strictly increasing in-order key sequence. */
  lemma {:induction false} BstIffSorted(t: Tree)
    ensures Bst(t) <==> Sorted(InOrder(t))
  {
    match t
    case Leaf =>
    case Node(l, k, v, r, _, _) =>
      BstIffSorted(l);
      BstIffSorted(r);
      KeysOfInOrder(l);
      KeysOfInOrder(r);
      SortedSplit(InOrder(l), (k, v), InOrder(r));
  }

  /** Two trees with the same in-order sequence have the same keys, map and order. */
  lemma SameInOrder(a: Tree, b: Tree)
    requires InOrder(a) == InOrder(b)
    ensures Keys(a) == Keys(b) && Contents(a) == Contents(b)
    ensures Bst(a) <==> Bst(b)
  {
    KeysOfInOrder(a);
    KeysOfInOrder(b);
    ContentsOfInOrder(a);
    ContentsOfInOrder(b);
    BstIffSorted(a);
    BstIffSorted(b);
  }

  /** The first pair of a strictly sorted sequence has the least key, and is the only pair with it. */
  lemma SortedHead(s: seq<(int, string)>, p: (int, string))
    requires Sorted(s) && p in s
    ensures s[0].0 <= p.0
    ensures s[0].0 == p.0 ==> p == s[0]
  {
    var a :| 0 <= a < |s| && s[a] == p;
    if a > 0 {
      assert s[0].0 < s[a].0;
    }
  }

  /** A strictly sorted sequence of pairs is determined by its elements. */
  lemma {:induction false} SortedUnique(s1: seq<(int, string)>, s2: seq<(int, string)>)
    requires Sorted(s1) && Sorted(s2)
    requires forall p :: p in s1 <==> p in s2
    ensures s1 == s2
    decreases |s1|
  {
    assert |s1| > 0 ==> s1[0] in s1;
    assert |s2| > 0 ==> s2[0] in s2;
    if |s1| > 0 && |s2| > 0 {
      SortedHead(s1, s2[0]);
      SortedHead(s2, s1[0]);
      assert s1[0] == s2[0];
      var t1, t2 := s1[1..], s2[1..];
      forall p ensures p in t1 <==> p in t2 {
        if p in t1 {
          var a :| 0 <= a < |t1| && t1[a] == p;
          assert s1[0].0 < s1[a + 1].0;
          assert p in s1;
        }
        if p in t2 {
          var a :| 0 <= a < |t2| && t2[a] == p;
          assert s2[0].0 < s2[a + 1].0;
          assert p in s2;
        }
      }
      SortedUnique(t1, t2);
      assert s1 == [s1[0]] + t1;
      assert s2 == [s2[0]] + t2;
    }
  }

  /** In a search tree, a pair occurs in order exactly when the map holds it. */
  lemma {:induction false} InOrderMembership(t: Tree, p: (int, string))
    requires Bst(t)
    ensures p in InOrder(t) <==> p.0 in Contents(t) && Contents(t)[p.0] == p.1
  {
    match t
    case Leaf =>
    case Node(l, k, v, r, _, _) =>
      InOrderMembership(l, p);
      InOrderMembership(r, p);
      ContentsKeys(l);
      ContentsKeys(r);
      var c := Contents(t);
      assert p in InOrder(t) <==> p in InOrder(l) || p == (k, v) || p in InOrder(r);
      if p.0 < k {
        assert p.0 !in Keys(r);
        assert p.0 in c <==> p.0 in Contents(l);
        assert p.0 in c ==> c[p.0] == Contents(l)[p.0];
      } else if p.0 > k {
        assert p.0 !in Keys(l);
        assert p.0 in c <==> p.0 in Contents(r);
        assert p.0 in c ==> c[p.0] == Contents(r)[p.0];
      } else {
        assert p.0 !in Keys(l) && p.0 !in Keys(r);
        assert c[k] == v;
      }
  }

  /** Two search trees holding the same map list their pairs in the same order. */
  lemma SameContentsSameInOrder(a: Tree, b: Tree)
    requires Bst(a) && Bst(b)
    requires Contents(a) == Contents(b)
    ensures InOrder(a) == InOrder(b)
  {
    BstIffSorted(a);
    BstIffSorted(b);
    forall p ensures p in InOrder(a) <==> p in InOrder(b) {
      InOrderMembership(a, p);
      InOrderMembership(b, p);
    }
    SortedUnique(InOrder(a), InOrder(b));
  }

  /** In a valid tree the stored size counts the keys. */
  lemma SizeCountsKeys(t: Tree)
    requires Valid(t)
    ensures Size(t) == |Keys(t)|
  {
    SizeIsLength(t);
    BstIffSorted(t);
    KeysOfInOrder(t);
    DistinctKeysCount(InOrder(t));
  }

  lemma {:induction false} DistinctKeysCount(s: seq<(int, string)>)
    requires Sorted(s)
    ensures |SeqKeys(s)| == |s|
    decreases |s|
  {
    if |s| > 0 {
      var n := |s| - 1;
      var s', last := s[..n], s[n];
      assert Sorted(s') by {
        forall i, j | 0 <= i < j < |s'| ensures s'[i].0 < s'[j].0 {
          assert s'[i] == s[i] && s'[j] == s[j];
        }
      }
      DistinctKeysCount(s');
      assert s' + [last] == s;
      SeqKeysAppend(s', [last]);
      assert SeqKeys([last]) == {last.0} by {
        assert [last][0] == last;
      }
      assert last.0 !in SeqKeys(s') by {
        forall i | 0 <= i < |s'| ensures s'[i].0 != last.0 {
          assert s'[i] == s[i];
          assert s[i].0 < s[n].0;
        }
      }
      assert SeqKeys(s) == SeqKeys(s') + {last.0};
    }
  }
}
