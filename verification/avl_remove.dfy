/** Node deletion (123-avl_remove.c).

    Despite its name the routine is plain binary-search-tree deletion: it
    searches by comparison, splices out a matching node with at most one
    child, and gives a matching node with two children the key of its
    in-order successor (the leftmost key of its right subtree), which it
    then deletes from the right subtree. No rotation is performed, so no
    balance property is claimed here. */
module AvlRemove {
  import opened Trees
  import opened SortedSeqs
  import opened BstCheck

  /** The key the walk `while (node->left) node = node->left` ends on: the
      first key of the subtree in symmetric order. */
  function Leftmost(t: Tree): (m: int)
    requires t.Node?
    ensures m == InOrder(t)[0]
  {
    if t.left == Nil then t.key else Leftmost(t.left)
  }

  /** avl_remove: the tree with the node holding `v` taken out. */
  function Remove(t: Tree, v: int): (r: Tree)
    ensures v !in Keys(t) ==> r == t
    ensures Keys(r) <= Keys(t)
    ensures Size(t) - 1 <= Size(r) <= Size(t)
  {
    match t
    case Nil => Nil
    case Node(n, l, rt) =>
      if n > v then Node(n, Remove(l, v), rt)
      else if n < v then Node(n, l, Remove(rt, v))
      else if l == Nil && rt == Nil then Nil
      else if l == Nil || rt == Nil then (if l != Nil then l else rt)
      else
        var m := Leftmost(rt);
        Node(m, l, Remove(rt, m))
  }

  /** On a search tree, the in-order sequence of the result is the old one
      with `v` deleted. */
  lemma {:induction false} RemoveInOrder(t: Tree, v: int)
    requires Increasing(InOrder(t))
    ensures InOrder(Remove(t, v)) == Without(InOrder(t), v)
    decreases t, 1
  {
    match t
    case Nil =>
    case Node(n, l, rt) =>
      IncreasingNode(t);
      if n > v {
        RemoveInOrder(l, v);
        DescendStep(n, l, rt, v, Remove(l, v), rt);
      } else if n < v {
        RemoveInOrder(rt, v);
        DescendStep(n, l, rt, v, l, Remove(rt, v));
      } else if l != Nil && rt != Nil {
        SuccessorStep(n, l, rt);
      } else {
        MatchStep(n, l, rt);
      }
  }

  /** The search turned at `n` != `v`: the deletion happened on one side and
      the other side holds no `v`. */
  lemma DescendStep(n: int, l: Tree, rt: Tree, v: int, l': Tree, rt': Tree)
    requires n != v && Below(InOrder(l), n) && Above(InOrder(rt), n)
    requires v < n ==> InOrder(l') == Without(InOrder(l), v) && rt' == rt
    requires n < v ==> InOrder(rt') == Without(InOrder(rt), v) && l' == l
    ensures InOrder(Node(n, l', rt')) == Without(InOrder(Node(n, l, rt)), v)
  {
    var a, b := InOrder(l), InOrder(rt);
    WithoutAround(a, n, b, v);
    if v < n {
      assert v !in b;
      WithoutAbsent(b, v);
    } else {
      assert v !in a;
      WithoutAbsent(a, v);
    }
  }

  /** A matching node with at most one child is replaced by that child. */
  lemma MatchStep(n: int, l: Tree, rt: Tree)
    requires l == Nil || rt == Nil
    requires Below(InOrder(l), n) && Above(InOrder(rt), n)
    ensures InOrder(Remove(Node(n, l, rt), n)) == Without(InOrder(Node(n, l, rt)), n)
  {
    DropMatched(n, l, rt);
    if l == Nil {
      assert [] + InOrder(rt) == InOrder(rt);
    } else {
      assert InOrder(l) + [] == InOrder(l);
    }
  }

  /** A matching node with two children: moving the successor up and deleting
      it below leaves the in-order sequence with only the matched key gone. */
  lemma SuccessorStep(n: int, l: Tree, rt: Tree)
    requires rt.Node? && Increasing(InOrder(rt))
    requires Below(InOrder(l), n) && Above(InOrder(rt), n)
    ensures InOrder(Node(Leftmost(rt), l, Remove(rt, Leftmost(rt)))) ==
      Without(InOrder(Node(n, l, rt)), n)
    decreases rt, 3
  {
    var m := Leftmost(rt);
    var rm := Remove(rt, m);
    SuccessorDeletedBelow(rt);
    InOrderNode(m, l, rm);
    DropMatched(n, l, rt);
  }

  /** Deleting the key of a node from its in-order sequence, when the key
      occurs nowhere else, leaves the two subtrees' sequences side by side. */
  lemma DropMatched(n: int, l: Tree, rt: Tree)
    requires Below(InOrder(l), n) && Above(InOrder(rt), n)
    ensures Without(InOrder(Node(n, l, rt)), n) == InOrder(l) + InOrder(rt)
  {
    InOrderUnfold(n, l, rt);
    WithoutSeparator(InOrder(l), n, InOrder(rt));
  }

  /** Deleting the leftmost key of a search tree drops the first element of
      its in-order sequence. */
  lemma SuccessorDeletedBelow(rt: Tree)
    requires rt.Node? && Increasing(InOrder(rt))
    ensures InOrder(rt) == [Leftmost(rt)] + InOrder(Remove(rt, Leftmost(rt)))
    decreases rt, 2
  {
    var b := InOrder(rt);
    RemoveInOrder(rt, b[0]);
    WithoutFirst(b);
  }

  /** On a tree the helper accepts, the result is accepted too, loses exactly
      the key `v`, and is one node smaller exactly when `v` was stored. */
  lemma RemoveKeepsInRange(t: Tree, v: int, lo: int, hi: int)
    requires InRange(t, lo, hi)
    ensures InRange(Remove(t, v), lo, hi)
    ensures Keys(Remove(t, v)) == Keys(t) - {v}
    ensures Size(Remove(t, v)) == if v in Keys(t) then Size(t) - 1 else Size(t)
  {
    InRangeIffIncreasing(t, lo, hi);
    var s := InOrder(t);
    var s' := InOrder(Remove(t, v));
    RemoveInOrder(t, v);
    WithoutIncreasing(s, v);
    assert Within(s', lo, hi) by {
      forall i | 0 <= i < |s'| ensures lo <= s'[i] <= hi {
        assert s'[i] in s;
      }
    }
    InRangeIffIncreasing(Remove(t, v), lo, hi);
  }

  /** binary_tree_is_bst still holds after removal unless the tree became
      empty (which the check reports as not a BST). */
  lemma RemoveKeepsBst(t: Tree, v: int)
    requires IsBst(t)
    ensures IsBst(Remove(t, v)) <==> Remove(t, v) != Nil
  {
    RemoveKeepsInRange(t, v, IntMin, IntMax);
  }

  /** What happens at the node holding `v`: a leaf is replaced by the empty
      tree, a node with one child by that child, and a node with two children
      stays in place with its left subtree and takes the key that follows
      `t.key` in symmetric order. */
  lemma RemoveAtMatch(t: Tree)
    requires t.Node?
    ensures t.left == Nil && t.right == Nil ==> Remove(t, t.key) == Nil
    ensures t.left == Nil && t.right != Nil ==> Remove(t, t.key) == t.right
    ensures t.left != Nil && t.right == Nil ==> Remove(t, t.key) == t.left
    ensures t.left != Nil && t.right != Nil ==>
      && Remove(t, t.key).Node?
      && Remove(t, t.key).left == t.left
      && InOrder(t)[Size(t.left)] == t.key
      && Remove(t, t.key).key == InOrder(t)[Size(t.left) + 1]
      && Remove(t, t.key).right == Remove(t.right, Leftmost(t.right))
  {
    var a, b := InOrder(t.left), InOrder(t.right);
    assert InOrder(t) == a + [t.key] + b;
    if t.left != Nil && t.right != Nil {
      assert (a + [t.key] + b)[|a| + 1] == b[0];
    }
  }
}
