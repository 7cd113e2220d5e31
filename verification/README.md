# Binary trees in Dafny

A model of the core of a small C library of binary-tree routines over one
integer node type (`binary_trees.h`: a key, a parent pointer and two child
pointers). The model covers:

- height and balance factor, where an absent child contributes nothing;
- the binary-search-tree check with its narrowing integer bounds;
- iterative search-tree insertion;
- node deletion with the in-order successor (despite the name `avl_remove`,
  no rebalancing is done);
- breadth-first traversal over a 100-slot array queue;
- the completeness check over the same queue, with its sticky "gap seen" flag;
- the lowest common ancestor of two nodes, by walking parent links.

A tree is the immutable value `Tree = Nil | Node(key, left, right)`. NULL is
`Nil`, or `None` where the C routine returns a NULL pointer. Where the C code
returns a node inside the tree, the model names that node by its path from the
root. The parent link of the C node is therefore not stored. The ancestor query
is the one routine that needs parent links, so it works on a separate model: an
arena of nodes `0 .. n-1` with `parent[i]` (`-1` for NULL). A ghost rank drops
from every node to its parent; any depth function will do, and it makes the
parent chains finite.

The two queue routines are Dafny methods that keep the C loops and the array.
A ghost sequence mirrors the filled part of the queue. The loop invariant ties
it to `Levels.Visit`, a functional first-in-first-out work list. A separate
lemma proves that `Visit` equals the tree listed depth by depth, each depth
left to right (`Levels.LevelOrder`).

Files, one module each:

- `trees.dfy`: the datatype and paths;
- `sorted_seqs.dfy`: strictly increasing sequences;
- `balance.dfy`;
- `bst_check.dfy`;
- `bst_insert.dfy`;
- `avl_remove.dfy`;
- `levels.dfy`: the breadth-first specification;
- `queue.dfy`: the shared array queue;
- `levelorder.dfy`;
- `is_complete.dfy`;
- `ancestor.dfy`.

## Model

| member | source | states |
|---|---|---|
| Balance.Height | 14-binary_tree_balance.c:25-38 | the height of a non-empty tree is smaller than its node count |
| Balance.HeightIsClassic | 14-binary_tree_balance.c:25-38 | the C height is 0 for the empty tree and otherwise equals the textbook height (leaf 0, else 1 + the larger child height) |
| Balance.DeepestPath | 14-binary_tree_balance.c:25-38 | some downward path from the root to a node has exactly `Height` edges |
| Balance.HeightBoundsDepth | 14-binary_tree_balance.c:25-38 | no path to a node has more than `Height` edges, so the height is the longest path |
| Balance.BalanceFactor | 14-binary_tree_balance.c:7-18 | the balance factor lies between minus the height and the height |
| Balance.BalanceIsClassicDifference | 14-binary_tree_balance.c:7-18 | the balance factor is 0 for the empty tree and otherwise the difference of the children's textbook heights, with an empty child counting as -1 |
| Balance.MirrorHeight | 14-binary_tree_balance.c:13-37 | mirroring a tree keeps its height and negates its balance factor |
| BstCheck.InRange | 110-binary_tree_is_bst.c:10-20 | the helper accepts the empty tree for any bounds, and an accepted tree has every key in [lo, hi] |
| BstCheck.InRangeAsWritten | 110-binary_tree_is_bst.c:10-20 | the helper with `n - 1` and `n + 1` wrapping in `int`: it accepts the empty tree, an accepted root lies in [lo, hi], and with `int` bounds every accepted key is an `int` |
| BstCheck.InRangeIffIncreasing | 110-binary_tree_is_bst.c:10-20 | the helper accepts exactly the trees whose in-order keys strictly increase and lie in [lo, hi] |
| BstCheck.InRangeWiden | 110-binary_tree_is_bst.c:14-17 | widening [lo, hi] never turns acceptance into rejection |
| BstCheck.RepeatedKeyRejected | 110-binary_tree_is_bst.c:16-17 | a tree that stores some key twice is rejected for every range |
| BstCheck.DistinctKeys | 110-binary_tree_is_bst.c:16-17 | an accepted tree has as many distinct keys as nodes |
| BstCheck.IsBst | 110-binary_tree_is_bst.c:26-31 | a tree reported as a BST is non-empty and its keys fit a C `int` |
| BstCheck.IsBstIffIncreasing | 110-binary_tree_is_bst.c:26-31 | for `int` keys, the result is 1 exactly when the tree is non-empty and its in-order keys strictly increase |
| BstCheck.Wrap32 | 110-binary_tree_is_bst.c:16-17 | a 32-bit wrapped value lies in the `int` range, equals the input when that fits, and differs from it by a multiple of 2^32 |
| BstCheck.AsWrittenAgrees | 110-binary_tree_is_bst.c:10-20 | with no key at INT_MIN or INT_MAX, the helper with wrapping bounds answers as the mathematical one does |
| BstCheck.WrapAcceptsMisordered | 110-binary_tree_is_bst.c:16-17 | with wrapping bounds, a root INT_MIN with left child 0 (or INT_MAX with right child 0) is accepted although its in-order keys are not increasing |
| BstInsert.InsertRec | 111-bst_insert.c:19-46 | the recursive descent fails only when the value is a key; otherwise the key set gains the value and the size grows by one |
| BstInsert.Insert | 111-bst_insert.c:8-47 | NULL handle gives NULL and no change; an empty tree becomes a single root, which is returned; a duplicate gives NULL and no change; otherwise the new leaf is in the first empty slot of the search path, the tree is the old one with only that slot replaced by the leaf, the key set gains the value and the size grows by one |
| BstInsert.InsertFailsIffPresent | 111-bst_insert.c:22-45 | on a search tree the insertion fails exactly when the value is already stored |
| BstInsert.InsertInOrder | 111-bst_insert.c:22-43 | the in-order sequence afterwards is the old one with the value inserted at its sorted position |
| BstInsert.InsertKeepsInRange | 111-bst_insert.c:22-43 | a tree the helper accepts on [lo, hi] stays accepted after inserting a value of [lo, hi] |
| BstInsert.InsertKeepsBst | 111-bst_insert.c:22-43 | if the input passes binary_tree_is_bst, so does the output |
| AvlRemove.Leftmost | 123-avl_remove.c:31-33 | the leftmost walk ends on the first key of the in-order sequence |
| AvlRemove.Remove | 123-avl_remove.c:8-38 | removing an absent value changes nothing; keys only disappear; the size drops by at most one |
| AvlRemove.RemoveAtMatch | 123-avl_remove.c:20-35 | a matching leaf becomes empty, a one-child node becomes its child, a two-child node keeps its left subtree, takes its in-order successor's key, and has that successor removed from its right subtree |
| AvlRemove.RemoveInOrder | 123-avl_remove.c:14-37 | on a search tree the in-order sequence afterwards is the old one with the value deleted |
| AvlRemove.SuccessorDeletedBelow | 123-avl_remove.c:31-35 | deleting the leftmost key of a search tree drops the first in-order element |
| AvlRemove.RemoveKeepsInRange | 123-avl_remove.c:14-37 | an accepted tree stays accepted, loses exactly the value from its key set, and shrinks by one node exactly when the value was stored |
| AvlRemove.RemoveKeepsBst | 123-avl_remove.c:14-37 | after removal from a BST the result passes binary_tree_is_bst unless it became empty |
| Levels.Visit | 101-binary_tree_levelorder.c:17-25 | the work list emits exactly as many entries as the queued trees have nodes |
| Levels.VisitNodes | 101-binary_tree_levelorder.c:19-23 | the work list emits only nodes, never an empty tree |
| Levels.VisitKeys | 101-binary_tree_levelorder.c:17-25 | the emitted keys are, as a multiset, the keys of the queued trees |
| Levels.VisitIsLevelOrder | 101-binary_tree_levelorder.c:17-25 | the work list from the root emits the tree depth by depth, each depth left to right |
| Levels.PathInLevel | 101-binary_tree_levelorder.c:19-22 | a node reached by a path lies on the depth given by the path length |
| Levels.LevelHasPath | 101-binary_tree_levelorder.c:19-22 | every node on depth d is reached by a path of length d |
| WorkQueue.TraversalStep | 101-binary_tree_levelorder.c:19-24 | one round takes a node off the front and appends its present children, left first; the queue never holds more entries than the tree has nodes |
| WorkQueue.TraversalEnd | 101-binary_tree_levelorder.c:17 | when `front` passes `back` the entries taken are the whole traversal |
| LevelOrderTraversal.LevelOrderKeys | 101-binary_tree_levelorder.c:9-26 | a NULL tree or callback gives no calls, whatever the tree's size; otherwise the callback receives the keys of the tree listed depth by depth, each depth left to right |
| LevelOrderTraversal.Round | 101-binary_tree_levelorder.c:19-24 | one loop pass keeps the invariant: the keys reported are those of the entries taken, in order |
| LevelOrderTraversal.LevelOrderKeyCounts | 101-binary_tree_levelorder.c:17-25 | the level-order keys are one per node: as many as there are nodes, each stored key as often as it is stored, the root's first |
| Completeness.IsComplete | 102-binary_tree_is_complete.c:7-38 | for every tree whose run stays inside the 100-slot queue, the result is 1 exactly when the tree is non-empty and no child slot is filled after an empty one in breadth-first order, so the empty tree gives 0 |
| Completeness.Room | 102-binary_tree_is_complete.c:9-31 | while no slot has been empty the queue holds 1 + 2 * front entries, so each push the routine makes lands inside the array whenever the tree fits the queue |
| Completeness.TreeFilled | 102-binary_tree_is_complete.c:19-34 | a non-empty tree has exactly one filled child slot fewer than nodes |
| Completeness.SmallTreesFit | 102-binary_tree_is_complete.c:9-31 | every tree of at most 100 nodes fits the queue |
| Completeness.NoLeftChildFits | 102-binary_tree_is_complete.c:19-31 | a root without a left child fits the queue whatever its size: nothing is pushed before the routine returns or ends |
| Completeness.CheckRound | 102-binary_tree_is_complete.c:19-35 | a return of 0 inside the loop means the tree is not complete; otherwise the flag is never cleared and the loop state moves on |
| Completeness.RejectLeft | 102-binary_tree_is_complete.c:19-22 | a filled left slot while the flag is set means the tree is not complete |
| Completeness.RejectRight | 102-binary_tree_is_complete.c:27-30 | a filled right slot after an earlier empty slot, or after an empty left slot, means the tree is not complete |
| Completeness.CheckStep | 102-binary_tree_is_complete.c:19-35 | after both slots pass, the flag records whether any slot seen so far was empty |
| Completeness.GapFreeSnoc | 102-binary_tree_is_complete.c:19-34 | appending a slot keeps the slots gap-free exactly when the slot is empty or no earlier slot was |
| Completeness.CompleteIffLevelwise | 102-binary_tree_is_complete.c:7-38 | what the routine checks equals the textbook shape: every depth but the deepest is full, and the deepest nodes are as far left as they can be |
| Completeness.LeafComplete | 102-binary_tree_is_complete.c:16-37 | a single node is complete |
| Completeness.MissingLeftRejected | 102-binary_tree_is_complete.c:25-30 | a node anywhere with a right child but no left child makes the tree incomplete |
| Ancestor.Chain | 100-binary_trees_ancestor.c:19-25 | a node's chain starts at the node and holds only nodes of the arena |
| Ancestor.Lca | 100-binary_trees_ancestor.c:16-26 | a non-NULL answer is an ancestor-or-self of both nodes |
| Ancestor.LowestCommonAncestor | 100-binary_trees_ancestor.c:8-28 | a NULL argument gives NULL; otherwise the result is the first node on `first`'s chain that lies on `second`'s chain, and is `first` whenever `first` is an ancestor-or-self of `second` |
| Ancestor.FirstInAt | 100-binary_trees_ancestor.c:16-27 | the search finds nothing exactly when the two chains share no node, and otherwise stops at the first shared node of the first chain |
| Ancestor.LcaNone | 100-binary_trees_ancestor.c:16-27 | the answer is NULL exactly for nodes with no common ancestor-or-self |
| Ancestor.LcaLowest | 100-binary_trees_ancestor.c:16-27 | given any common ancestor-or-self, the answer is not NULL and that node is an ancestor-or-self of the answer |
| Ancestor.LcaSymmetric | 100-binary_trees_ancestor.c:8-28 | swapping the two arguments gives the same answer |
| Ancestor.ChainRank | 100-binary_trees_ancestor.c:16-25 | ranks strictly drop along a chain, so a chain has at most rank + 1 nodes; this bounds the outer loop by depth(first)+1 and the inner by depth(second)+1 rounds |
| Ancestor.ChainFrom | 100-binary_trees_ancestor.c:23-25 | the rest of a chain from any of its nodes is that node's own chain |

## Left out

- 122-array_to_avl.c and AVL rebalancing: `avl_insert` and the rotations are not part of this model. `avl_remove` calls neither, so no balance bound is claimed after removal.
- binary_trees.h: the helper routines it declares have no bodies here. `binary_tree_node` is modelled only by its effect, a new leaf holding the value.
- malloc and free: allocation failure inside `bst_insert` is not modelled, and freed nodes simply disappear from the value.
- Parent links after insertion and removal: the inserted node's parent is given implicitly, as the node at the returned path minus its last step. Removal works on trees without parent links, so the stale parent pointer of a spliced child is not modelled.
- LevelOrderTraversal.LevelOrderKeys: when the callback is not NULL, requires a tree of at most 100 nodes. The traversal then queues every node, so a larger tree writes past the 100-slot array (undefined behaviour), which is not modelled. A NULL callback or NULL tree returns before the queue is used, so any tree is admitted there.
- Completeness.IsComplete: requires `FitsQueue`, that the first 100 child slots in breadth-first order are not all filled. The routine pushes a child only before the first empty slot, so exactly these trees keep the queue inside its 100 slots. Larger trees that it rejects early are included (`NoLeftChildFits`). What C does on the others, writing past the array, is not modelled.
- The callback of the level-order routine: it becomes the sequence of keys it would receive. What the callback itself does is not modelled.
- Integer width elsewhere: keys, heights and sizes are unbounded integers. `size_t` height cannot overflow for any tree that fits in memory.
- Pointer identity in the ancestor query: nodes are arena indices, and the rank witness is a ghost parameter that the C code does not have.

## Findings

| source | as written | input that shows it | evidently intended | confidence | as-written member | corrected member |
|---|---|---|---|---|---|---|
| 110-binary_tree_is_bst.c:16-17 | the bounds `tree->n - 1` and `tree->n + 1` are computed in `int`; at INT_MIN and INT_MAX they overflow, which is undefined, and usually wraps to the other end of the range | a root holding INT_MIN with a left child holding 0: the left bound wraps to INT_MAX and the tree is reported as a BST | a left subtree of an INT_MIN node (and a right subtree of an INT_MAX node) must be empty, so the result is 1 only for strictly increasing in-order keys | medium, not executed; relies on wrap-around for the undefined overflow | BstCheck.WrapAcceptsMisordered | BstCheck.IsBstIffIncreasing |
