/** Level-order traversal (101-binary_tree_levelorder.c).

    Each round of the C loop pushes the front node's present children (left,
    then right), calls the callback on the front node's key and advances
    `front`. Here the callback becomes the sequence of keys it would
    receive, in call order. */
module LevelOrderTraversal {
  import opened Trees
  import opened Levels
  import opened WorkQueue

  /** binary_tree_levelorder. `tree` is Nil for a NULL tree, `hasFunc` is
      false for a NULL callback, and `visits` lists the keys handed to the
      callback: depth by depth, each depth left to right (what that amounts
      to is `LevelOrderKeyCounts`). */
  method LevelOrderKeys(tree: Tree, hasFunc: bool) returns (visits: seq<int>)
    requires hasFunc ==> Size(tree) <= QueueSize
    ensures tree == Nil || !hasFunc ==> visits == []
    ensures hasFunc ==> visits == KeysOf(LevelOrder(tree))
  {
    if tree == Nil || !hasFunc {
      return [];
    }
    var queue := new Tree[QueueSize];
    var front, back := 0, -1;
    back := Push(queue, back, tree);
    ghost var q := [tree];
    visits := [];
    TraversalStart(tree);
    assert q[..0] == [];
    while front <= back
      invariant Reported(tree, q, front, visits)
      invariant back + 1 == |q| <= queue.Length && q == queue[..back + 1]
      decreases Size(tree) - front
    {
      back, visits, q := Round(tree, queue, front, back, visits, q);
      front := front + 1;
    }
    TraversalEnd(tree, q, front);
    assert q[..front] == q;
    VisitIsLevelOrder(tree);
  }

  /** One pass of the loop body: push the front node's children, then report
      its key. */
  method Round(tree: Tree, queue: array<Tree>, front: int, back: int, visits: seq<int>, ghost q: seq<Tree>)
    returns (back': int, visits': seq<int>, ghost q': seq<Tree>)
    requires Reported(tree, q, front, visits) && front < |q|
    requires back + 1 == |q| <= queue.Length == QueueSize && q == queue[..back + 1]
    requires Size(tree) <= QueueSize
    modifies queue
    ensures Reported(tree, q', front + 1, visits')
    ensures back' + 1 == |q'| <= queue.Length && q' == queue[..back' + 1]
  {
    var x := queue[front];
    assert x == q[front];
    ReportStep(tree, q, front, visits, x);
    back' := back;
    q' := q;
    if x.left != Nil {
      back' := Push(queue, back', x.left);
      q' := q' + [x.left];
    }
    if x.right != Nil {
      back' := Push(queue, back', x.right);
      q' := q' + [x.right];
    }
    KidsPushed(q, x, q');
    visits' := visits + [x.key];
  }

  /** The loop state: a traversal in progress whose taken entries have all
      been reported, in order. */
  predicate Reported(tree: Tree, q: seq<Tree>, front: int, visits: seq<int>)
  {
    Traversing(tree, q, front) && visits == KeysOf(q[..front])
  }

  lemma ReportStep(tree: Tree, q: seq<Tree>, front: int, visits: seq<int>, x: Tree)
    requires Reported(tree, q, front, visits) && front < |q| && x == q[front]
    ensures x.Node? && |q| + |Kids(x)| <= Size(tree)
    ensures Reported(tree, q + Kids(x), front + 1, visits + [x.key])
  {
    TraversalStep(tree, q, front, x);
    KeysOfConcat(q[..front], [x]);
  }

  /** Every key is reported as often as it is stored, so there are as many
      reports as nodes, and the root's key comes first. */
  lemma LevelOrderKeyCounts(tree: Tree)
    ensures |KeysOf(LevelOrder(tree))| == Size(tree)
    ensures multiset(KeysOf(LevelOrder(tree))) == multiset(InOrder(tree))
    ensures tree.Node? ==> KeysOf(LevelOrder(tree))[0] == tree.key
  {
    VisitNodes([tree]);
    VisitKeys([tree]);
    VisitIsLevelOrder(tree);
    KeysOfNodes(Visit([tree]));
    assert ForestKeys([tree]) == multiset(InOrder(tree));
  }
}
