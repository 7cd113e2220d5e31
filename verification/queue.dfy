/** The array queue shared by 101-binary_tree_levelorder.c and
    102-binary_tree_is_complete.c.

    Both routines declare `binary_tree_t *queue[100]` with two indices:
    `front`, the next entry to take, and `back`, the last entry filled
    (`queue[++back] = node` appends). Entries are never overwritten, so the
    filled part `queue[0..back]` is a sequence that only grows; it is
    mirrored here by a ghost sequence `q`. */
module WorkQueue {
  import opened Trees
  import opened Levels

  /** Capacity of the C queue. */
  const QueueSize: nat := 100

  /** `queue[++back] = node`: the filled part grows by one entry. */
  method Push(queue: array<Tree>, back: int, node: Tree) returns (back': int)
    requires -1 <= back < queue.Length - 1
    modifies queue
    ensures back' == back + 1
    ensures queue[..back' + 1] == old(queue[..back + 1]) + [node]
  {
    back' := back + 1;
    queue[back'] := node;
  }

  /** The state of either loop: `q` holds the entries filled so far, the
      first `front` of them already taken. What was taken followed by the
      traversal of what is still queued is the whole traversal, and the
      nodes taken plus those still queued or below them are all the nodes. */
  predicate Traversing(tree: Tree, q: seq<Tree>, front: int)
  {
    && 0 <= front <= |q| <= Size(tree)
    && AllNodes(q)
    && Visit([tree]) == q[..front] + Visit(q[front..])
    && front + SizeSum(q[front..]) == Size(tree)
  }

  /** `queue[back] = tree` on a non-empty tree starts the loop. */
  lemma TraversalStart(tree: Tree)
    requires tree.Node?
    ensures Traversing(tree, [tree], 0)
  {
    assert [tree][0..] == [tree];
    assert SizeSum([tree]) == Size(tree) + SizeSum([]);
  }

  /** How the taken and the queued parts move in one round. */
  lemma QueueSlices(q: seq<Tree>, kids: seq<Tree>, front: nat)
    requires front < |q|
    ensures q[front..] == [q[front]] + q[front + 1..]
    ensures (q + kids)[..front + 1] == q[..front] + [q[front]]
    ensures (q + kids)[front + 1..] == q[front + 1..] + kids
  {
  }

  /** One round: the front entry `x` is taken and its children are queued.
      The queue never needs more room than the tree has nodes. */
  lemma TraversalStep(tree: Tree, q: seq<Tree>, front: int, x: Tree)
    requires Traversing(tree, q, front) && front < |q| && x == q[front]
    ensures x.Node?
    ensures |q| + |Kids(x)| <= Size(tree)
    ensures (q + Kids(x))[..front + 1] == q[..front] + [x]
    ensures (q + Kids(x))[front + 1..] == q[front + 1..] + Kids(x)
    ensures Traversing(tree, q + Kids(x), front + 1)
  {
    var done, rest, kids := q[..front], q[front + 1..], Kids(x);
    QueueSlices(q, kids, front);
    WorkListStep(tree, done, x, rest);
    KidsNodes(x);
    AllNodesConcat(q, kids);
  }

  /** The children pushed one at a time, left first, are `Kids(x)`. */
  lemma KidsPushed(q: seq<Tree>, x: Tree, pushed: seq<Tree>)
    requires x.Node?
    requires pushed == q + (if x.left != Nil then [x.left] else []) + (if x.right != Nil then [x.right] else [])
    ensures pushed == q + Kids(x)
  {
  }

  /** An empty queue: the entries taken are the whole traversal. */
  lemma TraversalEnd(tree: Tree, q: seq<Tree>, front: int)
    requires Traversing(tree, q, front) && front == |q|
    ensures q == Visit([tree])
  {
    var done := q[..front];
    assert q[front..] == [] && Visit([]) == [];
    assert done + [] == done;
    assert done == q;
  }
}
