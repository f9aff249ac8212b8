# AVL tree with rank differences, join and split — a Dafny model

This project models `AVLTree.java`, an AVL tree that maps distinct `int` keys
to `String` values. It is an immutable, functional model of that tree, and it
proves properties of the model.

Every real node stores:
- its key and value;
- its height (the "rank");
- the number of real nodes in its subtree.

Every absent child is a virtual node with key -1, height -1 and size 0. That
is `Leaf` in the model.

The modelled operations are:
- the positioning walk `treePosition`, and `search`;
- `min`, `max`, `successor`, `predecessor`, `empty` and `size`;
- the single rotations;
- `insert`, with its upward rebalancing walk `insert_rebalance`;
- `delete`, with these parts:
  - the shortcut for a root in a tree of at most three nodes;
  - the swap with the successor;
  - leaf and unary removal;
  - the upward walk `rebalanceDelete`;
- `keysToArray` and `infoToArray`, over the recursive in-order placement `inOrderRec`;
- `join`, with its equal-height case and the four splice helpers;
- `split`.

Each upward walk is the unwinding of a recursion. One walk step at one
ancestor is a function:
- `GrowLeft` and `GrowRight` for insertion. A step promotes, rotates once,
  rotates twice, or only adjusts the size. It is counted 1, 1, 2 or 0.
- `ShrinkLeft` and `ShrinkRight` for deletion. A step demotes, rotates once,
  rotates twice, or does nothing. It is counted 1, 3, 6 or 0, as the code
  counts them.

The tree is described by three abstractions:
- `InOrder`: the in-order sequence of (key, value) pairs;
- `Keys`: the set of keys;
- `Contents`: the key/value map.

`Valid` is the conjunction of three invariants:
- search-tree order;
- the rank rule of the code: every node is (1,1), (1,2) or (2,1);
- consistent subtree sizes.

`AvlNode.RankRuleIffBalanced` proves that the rank rule is exactly the
classical AVL condition.

Files and modules:

| file | module | models |
|---|---|---|
| `avl_node.dfy` | `AvlNode` | nodes, sentinel, invariants, abstractions |
| `avl_rotate.dfy` | `Rotations` | `rotateRight`, `rotateLeft` |
| `avl_lookup.dfy` | `Lookup` | `treePosition`, `search`, `min`/`max`, `successor`/`predecessor`, `empty`, `size` |
| `avl_insert.dfy` | `Insertion` | `insert`, `binaryTreeInsertion`, `insert_rebalance` |
| `avl_delete.dfy` | `Deletion` | `delete`, `swap`, leaf/unary removal, `rebalanceDelete` |
| `avl_export.dfy` | `Export` | `inOrder`, `inOrderRec`, `keysToArray`, `infoToArray` |
| `avl_join.dfy` | `JoinSplit` | `join` and its helpers, `split` |
| `avl_props.dfy` | `Properties` | laws that relate the operations |
| `avl_findings.dfy` | `Findings` | code as written where it departs from its documentation |

## Model

| member | source | states |
|---|---|---|
| AvlNode.NewNodeValid | AVLTree.java:1018-1036 | a new node with two virtual children is a valid tree of height 0 and size 1, holding exactly its pair |
| AvlNode.NewNode | AVLTree.java:1018-1028 | a new real node: height 0, size 1, two virtual children |
| AvlNode.LeftDiff | AVLTree.java:213-216 | the rank difference between a node and its left child, a virtual child counting as height -1 |
| AvlNode.RightDiff | AVLTree.java:204-207 | the rank difference between a node and its right child, a virtual child counting as height -1 |
| AvlNode.RankDiffLegal | AVLTree.java:560-562 | a node's rank differences are (1,1), (2,1) or (1,2) |
| AvlNode.RankRuleIffBalanced | AVLTree.java:560-562 | the legal rank-difference pairs (1,1), (2,1), (1,2) hold at every node exactly when every height is one more than the taller child and sibling heights differ by at most one |
| AvlNode.BstIffSorted | AVLTree.java:591-597 | a tree is in search order exactly when its in-order key sequence is strictly increasing, so the key array is sorted |
| AvlNode.SizeCountsKeys | AVLTree.java:652-661 | in a valid tree the size stored at the root is the number of distinct keys |
| Rotations.RotateRight | AVLTree.java:227-249 | the left child becomes the root, the in-order sequence is unchanged, the middle subtree moves across, and the two moved nodes get heights and sizes consistent with their new children |
| Rotations.RotateLeft | AVLTree.java:251-272 | the mirror of the right rotation |
| Rotations.RotateRightKeeps | AVLTree.java:227-249 | a right rotation keeps the key set, the key/value map and search order (both directions), and keeps sizes consistent |
| Rotations.RotateLeftKeeps | AVLTree.java:251-272 | the same for the left rotation |
| Lookup.TreePosition | AVLTree.java:98-115 | the walk returns a real node exactly when the tree is non-empty; that node is stored in the tree with its value; its key is `k` exactly when `k` is present; otherwise the child on `k`'s side is virtual, where `k` would be attached |
| Lookup.PositionIsAttachPoint | AVLTree.java:98-115 | for an absent key, no key of the tree lies strictly between it and the key of the returned node, so attaching the key below that node keeps search order |
| Lookup.Search | AVLTree.java:45-52 | the result is present exactly when the key is in the tree, and it is then the value the map holds for it |
| Lookup.Empty | AVLTree.java:35-37 | true exactly when the tree holds no key |
| Lookup.SizeOf | AVLTree.java:659-661 | the size equals the number of keys and the number of map entries |
| Lookup.MinKey | AVLTree.java:79-86 | the leftmost key is a key of the tree and no key is smaller |
| Lookup.MaxKey | AVLTree.java:79-86 | the rightmost key is a key of the tree and no key is larger |
| Lookup.MinValue | AVLTree.java:570-575 | nothing exactly for an empty tree, otherwise the value stored with the smallest key |
| Lookup.MaxValue | AVLTree.java:583-588 | nothing exactly for an empty tree, otherwise the value stored with the largest key |
| Lookup.SuccessorFrom | AVLTree.java:470-490 | the leftmost node of the right subtree, or else the nearest ancestor entered from its left, is the least key above `k` among the subtree and that ancestor |
| Lookup.PredecessorFrom | AVLTree.java:497-513 | the mirror walk yields the greatest key below `k` |
| Lookup.Successor | AVLTree.java:470-490 | the successor of a present key is the least key above it, and nothing exactly when no key is above it |
| Lookup.Predecessor | AVLTree.java:497-513 | the predecessor of a present key is the greatest key below it, and nothing exactly when no key is below it |
| Insertion.GrowLeft | AVLTree.java:158-196 | one walk step over a grown left child: the result is valid, keeps the in-order sequence and size, and grows by at most one, and only through a promotion counted 1; a legal pair is left untouched with count 0; at most 2 operations |
| Insertion.GrowRight | AVLTree.java:158-196 | the mirror step over a grown right child |
| Insertion.SingleRightRepairs | AVLTree.java:166-170 | a (0,2) parent over a (1,x) child is repaired by one right rotation: valid, same in-order sequence and size |
| Insertion.DoubleRightRepairs | AVLTree.java:172-177 | a (0,2) parent over an (x,1) child is repaired by a left-right double rotation at the same height |
| Insertion.SingleLeftRepairs | AVLTree.java:179-183 | a (2,0) parent over an (x,1) child is repaired by one left rotation |
| Insertion.DoubleLeftRepairs | AVLTree.java:185-190 | a (2,0) parent over a (1,x) child is repaired by a right-left double rotation at the same height |
| Insertion.InsertRec | AVLTree.java:120-198 | inserting an absent key gives a valid non-empty tree whose map is the old map plus the new pair; the size grows by one, the height by at most one; the count is at most the height plus 2 and is 0 into an empty subtree |
| Insertion.InsertLeft | AVLTree.java:136-138 | a key below the node's key goes into the left subtree and the node is then repaired; the result holds the old map plus the new pair, is valid, one larger, at most one higher, and costs at most the height plus 2 |
| Insertion.InsertRight | AVLTree.java:138-140 | the mirror case for a key above the node's key |
| Insertion.Attach | AVLTree.java:120-144 | plain search-tree attachment of a fresh node: the key set gains the new key, and an existing root keeps its key and height with size one more |
| Insertion.Insert | AVLTree.java:63-76 | for a present key the result is -1 and the tree unchanged; otherwise a valid tree with the new pair added and size one more; for an empty tree the count is 0 |
| Properties.InsertBesideSibling | AVLTree.java:152-155 | when the attachment node already has a child on its other side, no rebalancing happens: the result is exactly the plain attachment, so every height is as it was and only the sizes on the search path grow by one, and the count is 0 |
| Deletion.ShrinkLeft | AVLTree.java:516-554 | one walk step over a shrunk left child: the result is valid with the same in-order sequence and size and a height that drops by at most one; the count is 0 exactly when the pair was legal, and is otherwise 1, 3 or 6 |
| Deletion.ShrinkRight | AVLTree.java:516-554 | the mirror step over a shrunk right child |
| Deletion.DemoteRepairs | AVLTree.java:520-523 | a (2,2) node demoted by one is valid |
| Deletion.DeleteMin | AVLTree.java:357-376 | the successor pair taken out of a subtree is its first in-order pair; the rest is valid and one smaller |
| Deletion.SwapWithSuccessor | AVLTree.java:357-376 | a root with two children takes its successor's pair, and the resulting tree is valid and holds every pair but the root's |
| Deletion.RemoveRoot | AVLTree.java:334-354 | removing a leaf, a unary node or a node with two children leaves a valid tree without exactly that key; the size is one less |
| Deletion.DeleteRec | AVLTree.java:292-354 | deleting a present key leaves a valid tree whose map is the old map without that key; the size is one less and the height drops by at most one |
| Deletion.SmallShapes | AVLTree.java:315-333 | a valid tree of two or three nodes has a real child; with two children both are single nodes of height 0 under a root of height 1 |
| Deletion.DeleteSmallRoot | AVLTree.java:315-333 | the corrected small-root shortcut builds the very tree the general removal builds, so it is valid, holds every pair but the root's, and is one smaller |
| Deletion.Delete | AVLTree.java:292-354 | for an absent key the result is -1 and the tree unchanged; otherwise a valid tree without exactly that key, one smaller, with a count between 0 and 6 times the height plus one; a one-node tree becomes empty with count 0 |
| Export.Place | AVLTree.java:641-649 | placing a subtree at index `i` writes its in-order sequence into exactly the cells from `i` on and leaves every other cell as it was |
| Export.PlaceChild | AVLTree.java:641-649 | a virtual child places nothing; a real child places its in-order sequence |
| Export.InOrderArray | AVLTree.java:629-639 | the node array is empty for an empty tree and is otherwise the in-order sequence |
| Export.KeysToArray | AVLTree.java:597-604 | the key array has one entry per node, is strictly increasing, holds exactly the tree's keys, and follows the in-order sequence |
| Export.KeyColumn | AVLTree.java:597-604 | a key column read off a valid tree's in-order pairs has one entry per node, is strictly increasing and holds exactly the tree's keys |
| Export.SortedKeyColumn | AVLTree.java:597-604 | the key column of a sorted pair sequence is strictly increasing and holds exactly its keys |
| Export.InfoToArray | AVLTree.java:614-621 | the value array has one entry per node, and its `i`-th entry is the value stored with the `i`-th smallest key |
| Export.ValueColumn | AVLTree.java:614-621 | a value column read off the in-order pairs gives, at each index, the value of that index's key |
| JoinSplit.SpliceValid | AVLTree.java:768-789 | the pivot over two trees whose heights differ by at most one is valid, one taller than the taller tree |
| JoinSplit.JoinRight | AVLTree.java:881-902 | descending the right spine of the taller, smaller-keyed tree and splicing there gives a valid tree listing both trees around the pivot; it is as tall as the taller tree or one taller, and descends at most the height difference. It is the corrected splice of both right-spine helpers, `rightLower_other` here and `rightLower_this` at lines 937-957 |
| JoinSplit.JoinLeft | AVLTree.java:852-873 | the mirror descent along the left spine of the taller, larger-keyed tree. It is the corrected splice of both left-spine helpers, `rightHigher_other` here and `rightHigher_this` at lines 910-929 |
| JoinSplit.JoinOrdered | AVLTree.java:798-843 | joining non-empty trees in key order gives a valid tree listing the smaller keys, the pivot and the larger keys; it descends fewer nodes than the height difference plus one |
| JoinSplit.InsertAtEnd | AVLTree.java:734-736 | inserting a key above every key of the tree appends its pair to the in-order sequence |
| JoinSplit.InsertAtFront | AVLTree.java:737-743 | inserting a key below every key of the tree puts its pair first in the in-order sequence |
| JoinSplit.InsertPivot | AVLTree.java:735-747 | joining with an empty tree inserts the pivot at the matching end of the other tree; the count is the new height plus one |
| JoinSplit.Join | AVLTree.java:725-758 | the result is valid and lists the smaller-keyed tree, the pivot and the larger-keyed tree, for either order of the arguments; two non-empty trees cost the height difference plus one |
| JoinSplit.JoinContents | AVLTree.java:718-724 | the joined tree holds the keys of both trees and the pivot, and its map is both maps plus the pivot's pair |
| JoinSplit.Split | AVLTree.java:684-715 | the two halves are valid, and the lower half, the pivot with its stored value, and the upper half list the whole tree |
| JoinSplit.SplitPartitions | AVLTree.java:677-683 | the lower half holds exactly the keys below `x`, the upper half exactly those above, and together they hold every pair except `x`'s |
| JoinSplit.SplitJoinRoundTrip | AVLTree.java:684-715 | joining the two halves back around `x` and its value is legal and restores the original in-order sequence |
| Properties.SearchIsLookup | AVLTree.java:40-52 | search returns the map's value for a present key and nothing for an absent one |
| Properties.SearchAfterInsert | AVLTree.java:55-76 | after an insert, the new key is found with the new value if it was absent, and every other search answers as before |
| Properties.SearchAfterDelete | AVLTree.java:283-292 | after a delete, the key is not found and every other search answers as before |
| Properties.InsertThenDelete | AVLTree.java:55-76 | inserting an absent key and deleting it again restores the in-order sequence, so the same arrays |
| Properties.DeleteThenInsert | AVLTree.java:283-292 | deleting a present key and re-inserting its value restores the in-order sequence |
| Findings.DeleteSmallRootAsWritten | AVLTree.java:315-333 | the shortcut as written lists the same pairs as the corrected one |
| Findings.SmallRootSizeTooSmall | AVLTree.java:315-333 | on every input the shortcut applies to, the new root's size as written is below the remaining count, so sizes become inconsistent |
| Findings.SmallRootExample | AVLTree.java:322-326 | a two-node tree whose root has only a right child: as written the new root has size 0; corrected, size 1 |
| Findings.ChildDeleteAsWritten | AVLTree.java:443-452 | deleting the child of a two-node tree as written leaves the root with the size of the whole old tree |
| Findings.ChildDeleteSizeTooLarge | AVLTree.java:334-340 | on every two-node tree, deleting the child as written gives the corrected single node except for its size, which is 2, so sizes become inconsistent |
| Findings.ChildDeleteExample | AVLTree.java:443-452 | a root with a right child, delete the child: as written the remaining node has size 2; corrected, size 1 |
| Findings.JoinCostMismatch | AVLTree.java:718-757 | the returned value as written equals the documented one exactly when one tree is a single node, and is never below it |
| Findings.JoinCostExample | AVLTree.java:757 | for heights 1 and 2 the code returns 4 where the documentation promises 2 |
| Findings.JoinCostAsWritten | AVLTree.java:757 | the value returned for two non-empty trees as written: the heights added, plus one |
| Findings.JoinCostCoversDescent | AVLTree.java:718-757 | the documented value bounds the number of spine nodes the join descends |
| Findings.SpliceParent | AVLTree.java:801-806 | the spine walk stops at a node taller than the shorter tree whose left child is not |
| Findings.SpliceLeftAsWritten | AVLTree.java:852-873 | the splice as written keeps the root of the taller tree |
| Findings.JoinTallerAsWritten | AVLTree.java:748-752 | the join of a shorter, smaller-keyed tree into a taller one as written yields a non-empty tree |
| Findings.SpliceBreaksSizes | AVLTree.java:852-873 | whenever the splice parent has two children, the sizes below the root become inconsistent |
| Findings.JoinTallerBreaksSizes | AVLTree.java:748-752 | so no such join as written yields a tree with consistent sizes |
| Findings.JoinTallerExample | AVLTree.java:852-873 | a one-node tree joined with a three-node tree: the displaced node has size 2 and the pivot size 4; the corrected join is valid |
| Findings.JoinTallerRanksExample | AVLTree.java:748-756 | a one-node tree joined with a seven-node tree of height 2: the splice leaves the displaced node's parent with rank differences (0,1) and the raised root at (2,2), so the rank rule fails as well; the corrected join is valid |
| Findings.PositionAsWritten | AVLTree.java:98-115 | the walk as written dereferences null on an empty tree |
| Findings.WalkAsWritten | AVLTree.java:98-115 | the walk as written dereferences null only for a key below -1, and started below a real node it ends at a real node |
| Findings.WalkAgrees | AVLTree.java:98-115 | without a real key -1 and for keys not below -1, the walk as written finds the position the corrected walk finds |
| Findings.PositionAgrees | AVLTree.java:98-115 | so on those inputs treePosition as written agrees with the model |
| Findings.PositionExamples | AVLTree.java:45-52 | searching an empty tree, or searching a one-node tree for a key below -1 that is above the node's key, dereferences null; the corrected search answers absent |
| Findings.SuccessorAsWritten | AVLTree.java:470-490 | the successor walk as written dereferences null only when no ancestor was entered from its left and no key of the subtree is above `k` |
| Findings.PredecessorAsWritten | AVLTree.java:497-513 | the predecessor walk as written dereferences null only when no ancestor was entered from its right and no key of the subtree is below `k` |
| Findings.SuccessorWalkAgrees | AVLTree.java:470-490 | the successor walk as written finds the corrected successor wherever there is one, and dereferences null exactly where there is none |
| Findings.PredecessorWalkAgrees | AVLTree.java:497-513 | the same for the predecessor walk |
| Findings.ExtremesFail | AVLTree.java:684-694 | the walks as written fail exactly at the largest key (successor) and the smallest key (predecessor), both of which split computes for its pivot |
| Findings.JoinCaseAsWritten | AVLTree.java:725-752 | two trees with roots are never treated as empty |
| Findings.JoinEqualHeightAsWritten | AVLTree.java:768-789 | with distinct root keys the pivot becomes the root |
| Findings.SentinelJoinDropsPivot | AVLTree.java:725-789 | two virtual-rooted trees take the equal-height branch and the pivot is lost; the corrected join gives the pivot alone |
| Findings.SentinelSpliceAsWritten | AVLTree.java:798-808 | with this tree's root virtual, the bigger-keys splice hangs the pivot below the leftmost node of the other tree, so the pivot comes first in the in-order sequence |
| Findings.SentinelJoinMisorders | AVLTree.java:748-752 | a virtual-rooted tree joined with a real tree of smaller keys takes the bigger-keys branch and the result is out of search order; the corrected join lists the smaller keys, then the pivot |
| Findings.SplitLosesKeyExample | AVLTree.java:684-712 | a four-node tree split at a right child of a leftless node: the first join of the fold loses a key that the corrected split keeps in the lower half |

## Left out

- Parent links, node identity and aliasing are not modelled. A tree is a value, and an upward walk is the unwinding of a recursion. The root's parent is not reset after `rotateRight` at the root (lines 236-237), and this is not modelled either.
- The `min` and `max` node caches are not modelled as references. `Lookup.MinKey`, `Lookup.MaxKey`, `Lookup.MinValue` and `Lookup.MaxValue` compute from the tree what the caches are meant to hold. `split` does not model how it seeds the caches of its halves.
- The tree's own `size` counter is not modelled as a field of its own. The size is the root's size field, which the invariants tie to the key count. Where the code lets the counter decide how the root's size field changes, the findings below record the result.
- The `System.out.println` call in `rightLower_other` is left out, because it is output only.
- `fixRankAfterInsert` is left out, because nothing calls it.
- The complexity comments are left out.
- Java's 32-bit `int` wrap-around is not modelled. Keys and counts are unbounded integers, and no operation does arithmetic on keys.
- Null values are not modelled: a value is always a string.
- Insertion.Insert: requires the key to differ from -1, because a real node with key -1 would be taken for a virtual node by the positioning walk.
- Insertion.Insert: bounds the count by the height plus 2, but does not state its exact value. The walk steps state the count of each case.
- Deletion.Delete: bounds the count between 0 and 6 times the height plus one, and does not state its exact value.
- JoinSplit.Join: returns the documented value, the height difference plus one, not the value the code computes. See the findings below.
- JoinSplit.Split: requires the key to be present, as the source's precondition demands.
- Findings.JoinTallerAsWritten: models the as-written splice only on the path where the splice parent has two children. That is the path where the insertion walk returns at once. The other paths are not modelled as written.

## Findings

| source | as written | input that shows it | evidently intended | confidence | as-written member | corrected member |
|---|---|---|---|---|---|---|
| AVLTree.java:315-333 | deleting the root of a tree of 2 or 3 nodes sets the new root's size to its own size minus one | keys 1 (root) and 2 (right child), delete 1: the new root has size 0 | the new root's size is the number of remaining keys | high, not executed | Findings.DeleteSmallRootAsWritten | Deletion.DeleteSmallRoot |
| AVLTree.java:757 | join returns `abs(h1 + h2) + 1` | trees of heights 1 and 2: returns 4 | `abs(h1 - h2) + 1`, as documented at line 721 | high, not executed | Findings.JoinCostMismatch | JoinSplit.Join |
| AVLTree.java:852-957 | each of the four splice helpers raises the displaced node's size by one and each ancestor's by two, once in its own loop and once more through the size pass of the insertion walk; the root's height is raised unconditionally at lines 752 and 756. The as-written member follows `rightHigher_other`; the other three helpers repeat the same steps on their spines | tree {1} joined around 2 with tree 4 over 3 and 5: node 3 gets size 2 and the pivot size 4; tree {1} joined around 2 with 6 over (4 over 3, 5) and (8 over 7, 9): node 4 is left at rank differences (0,1) and root 6 at (2,2) | sizes and heights recomputed from the children | high, not executed | Findings.JoinTallerBreaksSizes, Findings.JoinTallerRanksExample | JoinSplit.JoinOrdered |
| AVLTree.java:98-115 | treePosition starts from a null root on an empty tree, and re-tests a virtual right child's key, stepping to its null left child | search on an empty tree; search for -3 in the tree {-5} | the last real node visited, or "absent" | high, not executed | Findings.PositionAsWritten | Lookup.TreePosition |
| AVLTree.java:470-513 | successor of the largest key and predecessor of the smallest climb past the root to a null parent | split at the largest or the smallest key | no successor or predecessor | medium, not executed | Findings.ExtremesFail | Lookup.Successor |
| AVLTree.java:768-789 | split hands join trees rooted at a virtual node, which `empty()` does not count as empty; with two such roots joinEqualHeight changes nothing and the pivot is lost. The next row covers one such root | keys 4 over (1 over -, 2) and 5, split at 2: key 1 is lost | the pivot joins the halves | high, not executed | Findings.SentinelJoinDropsPivot | JoinSplit.Split |
| AVLTree.java:748-752 | when split's lower half is still virtual-rooted and the sibling is real, join compares the pivot with key -1, takes the bigger-keys branch, and hangs the pivot in front of the sibling's smaller keys | keys 4 over (2 over 1 and 3) and 5, split at 3: the lower half lists 2 before 1 | the pivot after the smaller keys | high, not executed | Findings.SentinelJoinMisorders | JoinSplit.Split |
| AVLTree.java:443-452 | after a deletion from a two-node tree the counter is already 1, and the size pass returns at once at the root, so the root keeps size 2 | keys 1 (root) and 2 (right child), delete 2: the remaining node has size 2 | the root's size is 1 | high, not executed | Findings.ChildDeleteSizeTooLarge | Deletion.Delete |
