/** Lowest common ancestor (100-binary_trees_ancestor.c).

    The C routine works on node pointers and `parent` links. Here the nodes
    of a forest are numbered 0 .. |parent| - 1 and `parent[i]` is the number
    of node i's parent, or `NoNode` (NULL) for a root. A ghost `rank` that
    strictly drops from every node to its parent, such as the depth, stands
    for the acyclicity that makes the C walks stop. */
module Ancestor {

  /** The NULL pointer. */
  const NoNode: int := -1

  /** Every parent link names a node or is NULL, and goes down in rank. */
  predicate Ranked(parent: seq<int>, rank: seq<nat>)
  {
    && |rank| == |parent|
    && (forall i | 0 <= i < |parent| :: parent[i] == NoNode || 0 <= parent[i] < |parent|)
    && (forall i | 0 <= i < |parent| && parent[i] != NoNode :: rank[parent[i]] < rank[i])
  }

  predicate IsNode(parent: seq<int>, i: int)
  {
    0 <= i < |parent|
  }

  /** Node `i` followed by its parent, grandparent and so on up to the root:
      `i` and all its ancestors, nearest first. */
  function Chain(parent: seq<int>, rank: seq<nat>, i: int): (c: seq<int>)
    requires Ranked(parent, rank) && IsNode(parent, i)
    ensures c != [] && c[0] == i
    ensures forall j | 0 <= j < |c| :: IsNode(parent, c[j])
    decreases rank[i]
  {
    if parent[i] == NoNode then [i] else [i] + Chain(parent, rank, parent[i])
  }

  /** The first element of `s` that also occurs in `t`, or `NoNode`. */
  function FirstIn(s: seq<int>, t: seq<int>): (r: int)
    ensures r == NoNode || (r in s && r in t)
  {
    if s == [] then NoNode
    else if s[0] in t then s[0]
    else FirstIn(s[1..], t)
  }

  /** The nearest ancestor-or-self of `a` that is also an ancestor-or-self of
      `b`, or `NoNode` when they have none in common. */
  function Lca(parent: seq<int>, rank: seq<nat>, a: int, b: int): (r: int)
    requires Ranked(parent, rank) && IsNode(parent, a) && IsNode(parent, b)
    ensures r != NoNode ==> r in Chain(parent, rank, a) && r in Chain(parent, rank, b)
    ensures r == NoNode || IsNode(parent, r)
  {
    FirstIn(Chain(parent, rank, a), Chain(parent, rank, b))
  }

  /** binary_trees_ancestor. The outer loop walks `first` up its chain; for
      each node on it the inner loop walks the whole chain of `second`
      looking for that node. */
  method LowestCommonAncestor(parent: seq<int>, ghost rank: seq<nat>, first: int, second: int)
    returns (lca: int)
    requires Ranked(parent, rank)
    requires first == NoNode || IsNode(parent, first)
    requires second == NoNode || IsNode(parent, second)
    ensures first == NoNode || second == NoNode ==> lca == NoNode
    ensures first != NoNode && second != NoNode ==> lca == Lca(parent, rank, first, second)
    ensures lca != NoNode ==> lca in Chain(parent, rank, first) && lca in Chain(parent, rank, second)
    ensures first != NoNode && second != NoNode && first in Chain(parent, rank, second) ==> lca == first
  {
    if first == NoNode || second == NoNode {
      return NoNode;
    }
    ghost var target := Chain(parent, rank, second);
    ghost var answer := Lca(parent, rank, first, second);
    var node := first;
    while node != NoNode
      invariant node == NoNode || IsNode(parent, node)
      invariant answer == FirstIn(if node == NoNode then [] else Chain(parent, rank, node), target)
      decreases if node == NoNode then 0 else rank[node] + 1
    {
      var temp := second;
      while temp != NoNode
        invariant temp == NoNode || IsNode(parent, temp)
        invariant node in target <==> temp != NoNode && node in Chain(parent, rank, temp)
        decreases if temp == NoNode then 0 else rank[temp] + 1
      {
        if temp == node {
          return node;
        }
        temp := parent[temp];
      }
      node := parent[node];
    }
    return NoNode;
  }

  /** Where `FirstIn` finds its answer: at index `k` of `s`, with nothing
      before it in `t`; and it finds nothing only when `s` and `t` share no
      element. */
  lemma {:induction false} FirstInAt(s: seq<int>, t: seq<int>) returns (k: int)
    requires NoNode !in s
    ensures FirstIn(s, t) == NoNode <==> forall j | 0 <= j < |s| :: s[j] !in t
    ensures FirstIn(s, t) != NoNode ==>
      0 <= k < |s| && s[k] == FirstIn(s, t) && s[k] in t && forall j | 0 <= j < k :: s[j] !in t
  {
    k := 0;
    if s != [] && s[0] !in t {
      assert NoNode !in s[1..] by {
        forall j | 0 <= j < |s[1..]| ensures s[1..][j] != NoNode {
          assert s[1..][j] == s[j + 1] && s[j + 1] in s;
        }
      }
      var k' := FirstInAt(s[1..], t);
      k := k' + 1;
      forall j | 0 <= j < |s| && j > 0 ensures s[j] == s[1..][j - 1] {
      }
    }
  }

  /** The chain from the `k`-th ancestor on is that ancestor's own chain. */
  lemma {:induction false} ChainFrom(parent: seq<int>, rank: seq<nat>, i: int, k: int)
    requires Ranked(parent, rank) && IsNode(parent, i)
    requires 0 <= k < |Chain(parent, rank, i)|
    ensures Chain(parent, rank, i)[k..] == Chain(parent, rank, Chain(parent, rank, i)[k])
    decreases rank[i]
  {
    if k > 0 {
      var p := parent[i];
      var c := Chain(parent, rank, p);
      assert Chain(parent, rank, i) == [i] + c;
      ChainFrom(parent, rank, p, k - 1);
      assert Chain(parent, rank, i)[k..] == c[k - 1..];
    }
  }

  /** Going up a chain the rank only drops: every proper ancestor of `i` has
      a smaller rank. In particular no node is its own proper ancestor, and a
      chain is no longer than the rank of its first node plus one. */
  lemma {:induction false} ChainRank(parent: seq<int>, rank: seq<nat>, i: int)
    requires Ranked(parent, rank) && IsNode(parent, i)
    ensures forall j | 0 < j < |Chain(parent, rank, i)| :: rank[Chain(parent, rank, i)[j]] < rank[i]
    ensures |Chain(parent, rank, i)| <= rank[i] + 1
    decreases rank[i]
  {
    var c := Chain(parent, rank, i);
    if parent[i] != NoNode {
      var p := parent[i];
      ChainRank(parent, rank, p);
      var cp := Chain(parent, rank, p);
      assert c == [i] + cp;
      forall j | 0 < j < |c| ensures rank[c[j]] < rank[i] {
        assert c[j] == cp[j - 1];
        if j > 1 {
          assert rank[cp[j - 1]] < rank[p];
        }
      }
    }
  }

  /** A node on the chain of `i` is `i` or has a smaller rank. */
  lemma AncestorRank(parent: seq<int>, rank: seq<nat>, i: int, x: int)
    requires Ranked(parent, rank) && IsNode(parent, i)
    requires x in Chain(parent, rank, i)
    ensures x == i || rank[x] < rank[i]
  {
    ChainRank(parent, rank, i);
    var c := Chain(parent, rank, i);
    var j :| 0 <= j < |c| && c[j] == x;
  }

  /** A chain never holds NULL. */
  lemma ChainNodes(parent: seq<int>, rank: seq<nat>, i: int)
    requires Ranked(parent, rank) && IsNode(parent, i)
    ensures NoNode !in Chain(parent, rank, i)
  {
    var c := Chain(parent, rank, i);
    forall j | 0 <= j < |c| ensures c[j] != NoNode {
      assert IsNode(parent, c[j]);
    }
  }

  /** The answer is NULL exactly when the two nodes have no common
      ancestor-or-self, that is when they lie in different trees of the
      forest. */
  lemma LcaNone(parent: seq<int>, rank: seq<nat>, a: int, b: int)
    requires Ranked(parent, rank) && IsNode(parent, a) && IsNode(parent, b)
    ensures Lca(parent, rank, a, b) == NoNode <==>
      forall c | c in Chain(parent, rank, a) :: c !in Chain(parent, rank, b)
  {
    var A, B := Chain(parent, rank, a), Chain(parent, rank, b);
    ChainNodes(parent, rank, a);
    var k := FirstInAt(A, B);
    if Lca(parent, rank, a, b) == NoNode {
      forall c | c in A ensures c !in B {
        var j :| 0 <= j < |A| && A[j] == c;
      }
    }
  }

  /** Every common ancestor-or-self `c` of the two nodes is an
      ancestor-or-self of the answer, so the answer is not NULL and no proper
      descendant of it is a common ancestor. */
  lemma LcaLowest(parent: seq<int>, rank: seq<nat>, a: int, b: int, c: int)
    requires Ranked(parent, rank) && IsNode(parent, a) && IsNode(parent, b)
    requires c in Chain(parent, rank, a) && c in Chain(parent, rank, b)
    ensures Lca(parent, rank, a, b) != NoNode
    ensures c in Chain(parent, rank, Lca(parent, rank, a, b))
  {
    var A, B := Chain(parent, rank, a), Chain(parent, rank, b);
    ChainNodes(parent, rank, a);
    var k := FirstInAt(A, B);
    var j :| 0 <= j < |A| && A[j] == c;
    ChainFrom(parent, rank, a, k);
    assert j >= k;
    assert A[k..][j - k] == c;
  }

  /** The answer does not depend on which node is passed first. */
  lemma LcaSymmetric(parent: seq<int>, rank: seq<nat>, a: int, b: int)
    requires Ranked(parent, rank) && IsNode(parent, a) && IsNode(parent, b)
    ensures Lca(parent, rank, a, b) == Lca(parent, rank, b, a)
  {
    var r1, r2 := Lca(parent, rank, a, b), Lca(parent, rank, b, a);
    if r1 != NoNode {
      LcaLowest(parent, rank, b, a, r1);
      LcaLowest(parent, rank, a, b, Lca(parent, rank, b, a));
      AncestorRank(parent, rank, r2, r1);
      AncestorRank(parent, rank, r1, r2);
    } else if r2 != NoNode {
      LcaLowest(parent, rank, a, b, r2);
    }
  }
}
