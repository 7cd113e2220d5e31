/** The binary-search-tree check (110-binary_tree_is_bst.c).

    The helper narrows an integer range on the way down: a left subtree must
    fit in [lo, n - 1] and a right subtree in [n + 1, hi]. Bounds are
    mathematical integers in `InRange`; the C arithmetic `n - 1` and `n + 1`
    overflows at INT_MIN and INT_MAX, which `InRangeAsWritten` models. */
module BstCheck {
  import opened Trees
  import opened SortedSeqs

  /** bst_tree_helper: every key lies in [lo, hi] and the order is strict. */
  function InRange(t: Tree, lo: int, hi: int): (ok: bool)
    ensures t == Nil ==> ok
    ensures ok ==> forall k | k in Keys(t) :: lo <= k <= hi
  {
    match t
    case Nil => true
    case Node(n, l, r) =>
      if n < lo || n > hi then false
      else InRange(l, lo, n - 1) && InRange(r, n + 1, hi)
  }

  /** binary_tree_is_bst: the empty tree is not a BST; otherwise the helper
      runs over the whole C `int` range. */
  function IsBst(t: Tree): (ok: bool)
    ensures ok ==> t.Node? && AllInt32(t)
  {
    if t == Nil then false else InRange(t, IntMin, IntMax)
  }

  /** The value C `int` arithmetic yields when `x` is out of range, as
      compiled code usually wraps it (in C the overflow itself is
      undefined): `x` moved by a multiple of 2^32 into the `int` range. */
  function Wrap32(x: int): (r: int)
    ensures IsInt32(r)
    ensures IsInt32(x) ==> r == x
    ensures (r - x) % 0x1_0000_0000 == 0
  {
    (x - IntMin) % 0x1_0000_0000 + IntMin
  }

  /** bst_tree_helper with `n - 1` and `n + 1` computed in C `int`, so that
      they wrap at INT_MIN and INT_MAX. */
  function InRangeAsWritten(t: Tree, lo: int, hi: int): (ok: bool)
    ensures t == Nil ==> ok
    ensures ok && IsInt32(lo) && IsInt32(hi) ==> AllInt32(t)
    ensures t.Node? && ok ==> lo <= t.key <= hi
  {
    match t
    case Nil => true
    case Node(n, l, r) =>
      if n < lo || n > hi then false
      else InRangeAsWritten(l, lo, Wrap32(n - 1)) && InRangeAsWritten(r, Wrap32(n + 1), hi)
  }

  /** As long as no key is INT_MIN or INT_MAX nothing wraps, and the helper
      as written answers as `InRange` does. */
  lemma {:induction false} AsWrittenAgrees(t: Tree, lo: int, hi: int)
    requires forall k | k in Keys(t) :: IntMin < k < IntMax
    ensures InRangeAsWritten(t, lo, hi) == InRange(t, lo, hi)
  {
    match t
    case Nil =>
    case Node(n, l, r) =>
      assert n in Keys(t);
      assert Wrap32(n - 1) == n - 1 && Wrap32(n + 1) == n + 1;
      forall k | k in Keys(l) ensures IntMin < k < IntMax {
        assert k in Keys(t);
      }
      forall k | k in Keys(r) ensures IntMin < k < IntMax {
        assert k in Keys(t);
      }
      AsWrittenAgrees(l, lo, n - 1);
      AsWrittenAgrees(r, n + 1, hi);
  }

  /** At INT_MIN the wrapped bound `n - 1` becomes INT_MAX, so a left child
      greater than its parent passes; at INT_MAX the same happens on the
      right. Both trees are rejected by `IsBst`. */
  lemma WrapAcceptsMisordered()
    ensures var t := Node(IntMin, Node(0, Nil, Nil), Nil);
      InRangeAsWritten(t, IntMin, IntMax) && !Increasing(InOrder(t)) && !IsBst(t)
    ensures var t := Node(IntMax, Nil, Node(0, Nil, Nil));
      InRangeAsWritten(t, IntMin, IntMax) && !Increasing(InOrder(t)) && !IsBst(t)
  {
    var leaf := Node(0, Nil, Nil);
    assert InRangeAsWritten(leaf, IntMin, IntMax);
    assert InOrder(leaf) == [0];
    var t := Node(IntMin, leaf, Nil);
    assert Wrap32(IntMin - 1) == IntMax;
    assert InOrder(t) == [0] + [IntMin] + [];
    assert InOrder(t)[0] > InOrder(t)[1];
    var u := Node(IntMax, Nil, leaf);
    assert Wrap32(IntMax + 1) == IntMin;
    assert InOrder(u) == [] + [IntMax] + [0];
    assert InOrder(u)[0] > InOrder(u)[1];
  }

  /** The helper accepts exactly the trees whose in-order key sequence is
      strictly increasing and inside [lo, hi]. */
  lemma {:induction false} InRangeIffIncreasing(t: Tree, lo: int, hi: int)
    ensures InRange(t, lo, hi) <==> Increasing(InOrder(t)) && Within(InOrder(t), lo, hi)
  {
    match t
    case Nil =>
    case Node(n, l, r) =>
      InRangeIffIncreasing(l, lo, n - 1);
      InRangeIffIncreasing(r, n + 1, hi);
      var a, b := InOrder(l), InOrder(r);
      IncreasingAround(a, n, b);
      WithinAround(a, n, b, lo, hi);
      if Increasing(a + [n] + b) && Within(a + [n] + b, lo, hi) {
        assert Within(a, lo, n - 1) by {
          forall i | 0 <= i < |a| ensures a[i] <= n - 1 {
            assert Below(a, n);
          }
        }
        assert Within(b, n + 1, hi) by {
          forall i | 0 <= i < |b| ensures n + 1 <= b[i] {
            assert Above(b, n);
          }
        }
      }
      if InRange(t, lo, hi) {
        assert Below(a, n) by {
          forall i | 0 <= i < |a| ensures a[i] < n {
            assert Within(a, lo, n - 1);
          }
        }
        assert Above(b, n) by {
          forall i | 0 <= i < |b| ensures n < b[i] {
            assert Within(b, n + 1, hi);
          }
        }
      }
  }

  /** For a tree whose keys are C `int`s, binary_tree_is_bst returns 1 exactly
      when the tree is non-empty and its in-order keys strictly increase. */
  lemma IsBstIffIncreasing(t: Tree)
    requires AllInt32(t)
    ensures IsBst(t) <==> t.Node? && Increasing(InOrder(t))
  {
    InRangeIffIncreasing(t, IntMin, IntMax);
    var s := InOrder(t);
    assert Within(s, IntMin, IntMax) by {
      forall i | 0 <= i < |s| ensures IntMin <= s[i] <= IntMax {
        assert s[i] in Keys(t);
      }
    }
  }

  /** Widening the range never turns acceptance into rejection. */
  lemma {:induction false} InRangeWiden(t: Tree, lo: int, hi: int, lo': int, hi': int)
    requires InRange(t, lo, hi) && lo' <= lo && hi <= hi'
    ensures InRange(t, lo', hi')
  {
    match t
    case Nil =>
    case Node(n, l, r) =>
      InRangeWiden(l, lo, n - 1, lo', n - 1);
      InRangeWiden(r, n + 1, hi, n + 1, hi');
  }

  /** A tree that stores some key twice (fewer distinct keys than nodes) is
      rejected for every range. */
  lemma {:induction false} RepeatedKeyRejected(t: Tree, lo: int, hi: int)
    requires |Keys(t)| < Size(t)
    ensures !InRange(t, lo, hi)
  {
    if InRange(t, lo, hi) {
      DistinctKeys(t, lo, hi);
      assert false;
    }
  }

  /** An accepted tree has as many distinct keys as nodes. */
  lemma {:induction false} DistinctKeys(t: Tree, lo: int, hi: int)
    requires InRange(t, lo, hi)
    ensures |Keys(t)| == Size(t)
  {
    match t
    case Nil =>
    case Node(n, l, r) =>
      InRangeNode(n, l, r, lo, hi);
      DistinctKeys(l, lo, n - 1);
      DistinctKeys(r, n + 1, hi);
      SeparatedKeys(l, r, lo, n, hi);
      NodeDistinct(n, l, r);
  }

  /** A node whose key and subtrees share no key, and whose subtrees have
      distinct keys, has distinct keys. */
  lemma NodeDistinct(n: int, l: Tree, r: Tree)
    requires Keys(l) !! Keys(r) && n !in Keys(l) + Keys(r)
    requires |Keys(l)| == Size(l) && |Keys(r)| == Size(r)
    ensures |Keys(Node(n, l, r))| == Size(Node(n, l, r))
  {
    NodeKeyCount(n, Keys(l), Keys(r));
  }

  /** What the helper's acceptance of a node says about its parts. */
  lemma InRangeNode(n: int, l: Tree, r: Tree, lo: int, hi: int)
    requires InRange(Node(n, l, r), lo, hi)
    ensures lo <= n <= hi && InRange(l, lo, n - 1) && InRange(r, n + 1, hi)
  {
  }

  /** The helper accepts a node whose key is in range and whose subtrees are
      accepted on their sides. */
  lemma InRangeBuild(n: int, l: Tree, r: Tree, lo: int, hi: int)
    requires lo <= n <= hi && InRange(l, lo, n - 1) && InRange(r, n + 1, hi)
    ensures InRange(Node(n, l, r), lo, hi)
  {
  }

  /** Subtrees accepted on the two sides of `n` share no key, and neither
      holds `n`. */
  lemma SeparatedKeys(l: Tree, r: Tree, lo: int, n: int, hi: int)
    requires InRange(l, lo, n - 1) && InRange(r, n + 1, hi)
    ensures Keys(l) !! Keys(r) && n !in Keys(l) + Keys(r)
  {
    OutsideRange(l, lo, n - 1, n);
    OutsideRange(r, n + 1, hi, n);
    forall x | x in Keys(l) ensures x !in Keys(r) {
      OutsideRange(r, n + 1, hi, x);
    }
  }

  /** A value outside the accepted range is not a key. */
  lemma OutsideRange(t: Tree, lo: int, hi: int, x: int)
    requires InRange(t, lo, hi) && (x < lo || hi < x)
    ensures x !in Keys(t)
  {
  }

  /** Counting the keys of a node whose key and subtrees share no key. */
  lemma NodeKeyCount(n: int, a: set<int>, b: set<int>)
    requires a !! b && n !in a + b
    ensures |{n} + a + b| == |a| + |b| + 1
  {
    assert a * b == {};
    assert |a + b| == |a| + |b|;
    assert {n} + a + b == (a + b) + {n};
  }

  /** The ordering facts a strictly increasing in-order sequence gives about a
      node and its two subtrees. */
  lemma IncreasingNode(t: Tree)
    requires t.Node? && Increasing(InOrder(t))
    ensures Increasing(InOrder(t.left)) && Increasing(InOrder(t.right))
    ensures forall x | x in Keys(t.left) :: x < t.key
    ensures forall x | x in Keys(t.right) :: t.key < x
    ensures Below(InOrder(t.left), t.key) && Above(InOrder(t.right), t.key)
  {
    var a, b := InOrder(t.left), InOrder(t.right);
    IncreasingAround(a, t.key, b);
    forall x | x in Keys(t.left) ensures x < t.key {
      var i :| 0 <= i < |a| && a[i] == x;
    }
    forall x | x in Keys(t.right) ensures t.key < x {
      var i :| 0 <= i < |b| && b[i] == x;
    }
  }
}
