/**
 * Laws relating the operations to each other: search is the map lookup,
 * an update is seen by search and nothing else changes, insertion and
 * deletion undo each other, and filling the empty side of a node that
 * already has one child costs no rebalancing.
 */
module Properties {
  import opened AvlNode
  import opened Lookup
  import opened Insertion
  import opened Deletion

  /** Search answers exactly what the stored map holds for the key. */
  lemma SearchIsLookup(t: Tree, j: int)
    requires Bst(t)
    ensures Search(t, j) == if j in Contents(t) then Some(Contents(t)[j]) else None
  {
    ContentsKeys(t);
  }

  /**
   * After insert(k, v), searching `k` finds `v` when `k` was new and the old
   * value when it was already present; every other key is searched as before.
   */
  lemma SearchAfterInsert(t: Tree, k: int, v: string, j: int)
    requires Valid(t) && k != SentinelKey
    ensures Valid(Insert(t, k, v).tree)
    ensures Search(Insert(t, k, v).tree, j) ==
      if j == k && k !in Keys(t) then Some(v) else Search(t, j)
  {
    SearchIsLookup(t, j);
    SearchIsLookup(Insert(t, k, v).tree, j);
    ContentsKeys(t);
  }

  /** After delete(k), `k` is not found and every other key is searched as before. */
  lemma SearchAfterDelete(t: Tree, k: int, j: int)
    requires Valid(t)
    ensures Valid(Delete(t, k).tree)
    ensures Search(Delete(t, k).tree, j) == if j == k then None else Search(t, j)
  {
    SearchIsLookup(t, j);
    SearchIsLookup(Delete(t, k).tree, j);
    ContentsKeys(t);
  }

  /** Taking a just-added key out of an updated map gives back the original map. */
  lemma MapAddRemove(m: map<int, string>, k: int, v: string)
    requires k !in m
    ensures m[k := v] - {k} == m
  {
    var lhs := m[k := v] - {k};
    assert lhs.Keys == m.Keys;
  }

  /** Putting a removed key back with its old value gives back the original map. */
  lemma MapRemoveAdd(m: map<int, string>, k: int)
    requires k in m
    ensures (m - {k})[k := m[k]] == m
  {
    var lhs := (m - {k})[k := m[k]];
    assert lhs.Keys == m.Keys;
  }

  /**
   * Inserting an absent key and deleting it again gives a tree with the
   * original in-order sequence, so the same key and value arrays.
   */
  lemma InsertThenDelete(t: Tree, k: int, v: string)
    requires Valid(t) && k != SentinelKey && k !in Keys(t)
    ensures Valid(Delete(Insert(t, k, v).tree, k).tree)
    ensures InOrder(Delete(Insert(t, k, v).tree, k).tree) == InOrder(t)
  {
    var u := Insert(t, k, v).tree;
    ContentsKeys(t);
    ContentsKeys(u);
    var w := Delete(u, k).tree;
    MapAddRemove(Contents(t), k, v);
    SameContentsSameInOrder(w, t);
  }

  /**
   * Deleting a present key and inserting it again with its old value gives
   * a tree with the original in-order sequence.
   */
  lemma DeleteThenInsert(t: Tree, k: int)
    requires Valid(t) && k != SentinelKey && k in Keys(t)
    ensures k in Contents(t)
    ensures Valid(Insert(Delete(t, k).tree, k, Contents(t)[k]).tree)
    ensures InOrder(Insert(Delete(t, k).tree, k, Contents(t)[k]).tree) == InOrder(t)
  {
    ContentsKeys(t);
    var u := Delete(t, k).tree;
    assert k !in Keys(u);
    var w := Insert(u, k, Contents(t)[k]).tree;
    MapRemoveAdd(Contents(t), k);
    SameContentsSameInOrder(w, t);
  }

  /**
   * When the node where the new key is attached already has a child on its
   * other side, the insertion only fills the empty side: no promotion or
   * rotation happens, the result is the plain attachment of the new node,
   * and only the sizes on the search path change.
   */
  lemma {:induction false} InsertBesideSibling(t: Tree, k: int, v: string)
    requires Valid(t) && t.Node? && k !in Keys(t)
    requires var p := TreePosition(t, k);
      (k < p.key ==> p.right.Node?) && (k > p.key ==> p.left.Node?)
    ensures InsertRec(t, k, v).steps == 0
    ensures InsertRec(t, k, v).tree == Attach(t, k, v)
    ensures Height(InsertRec(t, k, v).tree) == Height(t)
    decreases t
  {
    if k < t.key {
      if t.left.Node? {
        InsertBesideSibling(t.left, k, v);
      }
      BesideLeft(t, k, v);
    } else {
      if t.right.Node? {
        InsertBesideSibling(t.right, k, v);
      }
      BesideRight(t, k, v);
    }
  }

  /** The left-side level of InsertBesideSibling, given its result for the left subtree. */
  lemma BesideLeft(t: Tree, k: int, v: string)
    requires Valid(t) && t.Node? && k < t.key && k !in Keys(t)
    requires t.left.Leaf? ==> t.right.Node?
    requires t.left.Node? ==> var c := InsertRec(t.left, k, v);
      c.steps == 0 && c.tree == Attach(t.left, k, v) && Height(c.tree) == Height(t.left)
    ensures InsertRec(t, k, v).steps == 0 && InsertRec(t, k, v).tree == Attach(t, k, v)
  {
    RanksOkHeight(t);
    RanksOkHeight(t.right);
    assert RankDiffLegal(t);
    var c := InsertRec(t.left, k, v);
    assert LegalPair(t.height - Height(c.tree), t.height - Height(t.right));
  }

  /** The right-side level of InsertBesideSibling, given its result for the right subtree. */
  lemma BesideRight(t: Tree, k: int, v: string)
    requires Valid(t) && t.Node? && k > t.key && k !in Keys(t)
    requires t.right.Leaf? ==> t.left.Node?
    requires t.right.Node? ==> var c := InsertRec(t.right, k, v);
      c.steps == 0 && c.tree == Attach(t.right, k, v) && Height(c.tree) == Height(t.right)
    ensures InsertRec(t, k, v).steps == 0 && InsertRec(t, k, v).tree == Attach(t, k, v)
  {
    RanksOkHeight(t);
    RanksOkHeight(t.left);
    assert RankDiffLegal(t);
    var c := InsertRec(t.right, k, v);
    assert LegalPair(t.height - Height(t.left), t.height - Height(c.tree));
  }
}
