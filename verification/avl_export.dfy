/**
 * Export of the tree as arrays: the in-order node array is filled by placing
 * every node at the index given by the sizes of the subtrees to its left,
 * and the key and value arrays are read from it position by position.
 */
module Export {
  import opened AvlNode

  /** The content of an array cell that has not been filled yet. */
  const Blank: (int, string) := (SentinelKey, "")

  /**
   * The recursive placement: the node of `t` goes to index `i` plus the size
   * of its left subtree, its left subtree to the cells before it and its
   * right subtree to the cells after it; cells outside the range are kept.
   */
  function Place(arr: seq<(int, string)>, t: Tree, i: int): (res: seq<(int, string)>)
    requires t.Node? && SizesOk(t)
    requires 0 <= i <= i + Size(t) <= |arr|
    ensures |res| == |arr|
    ensures res == arr[..i] + InOrder(t) + arr[i + Size(t)..]
    decreases t, 0
  {
    var Node(l, k, v, r, _, _) := t;
    SizeIsLength(t);
    SizeIsLength(l);
    SizeIsLength(r);
    var j := i + Size(l);
    var a1 := PlaceChild(arr, l, i);
    var a2 := a1[j := (k, v)];
    var a3 := PlaceChild(a2, r, j + 1);
    Splice(arr, InOrder(l), (k, v), InOrder(r), i, a1, a3);
    a3
  }

  /** A child is descended into only when it is a real node; a sentinel child places nothing. */
  function PlaceChild(arr: seq<(int, string)>, t: Tree, i: int): (res: seq<(int, string)>)
    requires SizesOk(t)
    requires 0 <= i <= i + Size(t) <= |arr|
    ensures |res| == |arr|
    ensures res == arr[..i] + InOrder(t) + arr[i + Size(t)..]
    decreases t, 1
  {
    if t.Node? then Place(arr, t, i)
    else
      assert arr == arr[..i] + arr[i..];
      arr
  }

  /**
   * The three writes of one placement step, a left block, one cell and a
   * right block, fill consecutive cells and keep everything else.
   */
  lemma Splice(arr: seq<(int, string)>, lo: seq<(int, string)>, p: (int, string), hi: seq<(int, string)>,
               i: int, a1: seq<(int, string)>, a3: seq<(int, string)>)
    requires 0 <= i && i + |lo| + 1 + |hi| <= |arr|
    requires a1 == arr[..i] + lo + arr[i + |lo|..]
    requires var a2 := a1[i + |lo| := p];
      a3 == a2[..i + |lo| + 1] + hi + a2[i + |lo| + 1 + |hi|..]
    ensures a3 == arr[..i] + (lo + [p] + hi) + arr[i + |lo| + 1 + |hi|..]
  {
    var j := i + |lo|;
    var a2 := a1[j := p];
    assert a2[..j + 1] == arr[..i] + lo + [p];
    assert a2[j + 1 + |hi|..] == arr[j + 1 + |hi|..];
  }

  /** The node array of the whole tree: empty for an empty tree, otherwise one cell per node. */
  method InOrderArray(t: Tree) returns (nodes: seq<(int, string)>)
    requires SizesOk(t)
    ensures nodes == InOrder(t)
  {
    SizeIsLength(t);
    if t.Leaf? {
      nodes := [];
    } else {
      var arr := seq(Size(t), _ => Blank);
      nodes := Place(arr, t, 0);
    }
  }

  /** keysToArray(): the keys, read from the node array one position at a time. */
  method KeysToArray(t: Tree) returns (keys: seq<int>)
    requires Valid(t)
    ensures |keys| == Size(t) == |InOrder(t)|
    ensures forall i, j :: 0 <= i < j < |keys| ==> keys[i] < keys[j]
    ensures forall x :: x in keys <==> x in Keys(t)
    ensures forall i :: 0 <= i < |keys| ==> keys[i] == InOrder(t)[i].0
  {
    var nodes := InOrderArray(t);
    keys := [];
    var i := 0;
    while i < |nodes|
      invariant 0 <= i <= |nodes|
      invariant |keys| == i
      invariant forall m :: 0 <= m < i ==> keys[m] == nodes[m].0
    {
      keys := keys + [nodes[i].0];
      i := i + 1;
    }
    KeyColumn(t, keys);
  }

  /** A key column read off the in-order pairs of a valid tree is the tree's sorted key array. */
  lemma KeyColumn(t: Tree, keys: seq<int>)
    requires Valid(t) && |keys| == |InOrder(t)|
    requires forall m :: 0 <= m < |keys| ==> keys[m] == InOrder(t)[m].0
    ensures |keys| == Size(t)
    ensures forall i, j :: 0 <= i < j < |keys| ==> keys[i] < keys[j]
    ensures forall x :: x in keys <==> x in Keys(t)
  {
    SizeIsLength(t);
    BstIffSorted(t);
    KeysOfInOrder(t);
    SortedKeyColumn(InOrder(t), keys);
  }

  /** The key column of a sorted pair sequence is strictly increasing and holds exactly its keys. */
  lemma SortedKeyColumn(s: seq<(int, string)>, keys: seq<int>)
    requires Sorted(s) && |keys| == |s|
    requires forall m :: 0 <= m < |s| ==> keys[m] == s[m].0
    ensures forall i, j :: 0 <= i < j < |keys| ==> keys[i] < keys[j]
    ensures forall x :: x in keys <==> x in SeqKeys(s)
  {
    forall x | x in SeqKeys(s) ensures x in keys {
      var m :| 0 <= m < |s| && s[m].0 == x;
      assert keys[m] == x;
    }
  }

  /** infoToArray(): the values, in the order of their keys. */
  method InfoToArray(t: Tree) returns (info: seq<string>)
    requires Valid(t)
    ensures |info| == Size(t) == |InOrder(t)|
    ensures forall i :: 0 <= i < |info| ==>
      InOrder(t)[i].0 in Contents(t) && info[i] == Contents(t)[InOrder(t)[i].0]
  {
    var nodes := InOrderArray(t);
    info := [];
    var i := 0;
    while i < |nodes|
      invariant 0 <= i <= |nodes|
      invariant |info| == i
      invariant forall m :: 0 <= m < i ==> info[m] == nodes[m].1
    {
      info := info + [nodes[i].1];
      i := i + 1;
    }
    SizeIsLength(t);
    ValueColumn(t, info);
  }

  /** A value column read off the in-order pairs gives, at each index, the value of that index's key. */
  lemma ValueColumn(t: Tree, info: seq<string>)
    requires Bst(t) && |info| == |InOrder(t)|
    requires forall m :: 0 <= m < |info| ==> info[m] == InOrder(t)[m].1
    ensures forall i :: 0 <= i < |info| ==>
      InOrder(t)[i].0 in Contents(t) && info[i] == Contents(t)[InOrder(t)[i].0]
  {
    forall m | 0 <= m < |info|
      ensures InOrder(t)[m].0 in Contents(t) && info[m] == Contents(t)[InOrder(t)[m].0]
    {
      assert InOrder(t)[m] in InOrder(t);
      InOrderMembership(t, InOrder(t)[m]);
    }
  }
}
