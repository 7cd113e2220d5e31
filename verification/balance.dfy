/** Height and balance factor of a binary tree (14-binary_tree_balance.c).

    The C routines count edges and let an absent child contribute nothing:
    the empty tree and a single node both have height 0, and a present child
    adds its own height plus one for the edge to it. */
module Balance {
  import opened Trees

  /** What a child slot adds to its parent's height: 0 when empty, its height
      plus the connecting edge when present. */
  function Contribution(t: Tree): nat
  {
    if t == Nil then 0 else Height(t) + 1
  }

  /** binary_tree_height. */
  function Height(t: Tree): (h: nat)
    ensures t.Node? ==> h < Size(t)
  {
    match t
    case Nil => 0
    case Node(_, l, r) =>
      var lh := if l != Nil then Height(l) + 1 else 0;
      var rh := if r != Nil then Height(r) + 1 else 0;
      if lh > rh then lh else rh
  }

  /** binary_tree_balance: left contribution minus right contribution, and 0
      for the empty tree. */
  function BalanceFactor(t: Tree): (b: int)
    ensures -(Height(t) as int) <= b <= Height(t)
  {
    match t
    case Nil => 0
    case Node(_, l, r) => Contribution(l) - Contribution(r)
  }

  function Max(a: int, b: int): int
  {
    if a < b then b else a
  }

  /** The textbook height, in which the empty tree has height -1. */
  function ClassicHeight(t: Tree): int
  {
    match t
    case Nil => -1
    case Node(_, l, r) => 1 + Max(ClassicHeight(l), ClassicHeight(r))
  }

  /** The C height agrees with the textbook height on every non-empty tree;
      only the empty tree differs (0 instead of -1). */
  lemma {:induction false} HeightIsClassic(t: Tree)
    ensures Height(t) == if t == Nil then 0 else ClassicHeight(t)
  {
    match t
    case Nil =>
    case Node(_, l, r) =>
      HeightIsClassic(l);
      HeightIsClassic(r);
  }

  /** Because an absent child contributes 0 rather than height(Nil) + 1, the
      balance factor is the difference of the textbook heights of the two
      children: the two conventions give the same balance factors. */
  lemma BalanceIsClassicDifference(t: Tree)
    ensures t == Nil ==> BalanceFactor(t) == 0
    ensures t.Node? ==> BalanceFactor(t) == ClassicHeight(t.left) - ClassicHeight(t.right)
  {
    if t.Node? {
      HeightIsClassic(t.left);
      HeightIsClassic(t.right);
    }
  }

  /** No path from the root to a node is longer than the height. */
  lemma {:induction false} HeightBoundsDepth(t: Tree, p: Path)
    requires Subtree(t, p).Node?
    ensures |p| <= Height(t)
    decreases |p|
  {
    if p != [] {
      match t
      case Nil =>
        SubtreeOfNil(p);
        assert false;
      case Node(_, l, r) =>
        var c := Child(t, p[0]);
        if c == Nil {
          SubtreeOfNil(p[1..]);
          assert false;
        }
        HeightBoundsDepth(c, p[1..]);
    }
  }

  /** A path to a deepest node: its length is the height, so the height is
      the number of edges on the longest downward path. */
  function DeepestPath(t: Tree): (p: Path)
    requires t.Node?
    ensures Subtree(t, p).Node? && |p| == Height(t)
  {
    var lh := if t.left != Nil then Height(t.left) + 1 else 0;
    var rh := if t.right != Nil then Height(t.right) + 1 else 0;
    if lh > rh then
      var q := DeepestPath(t.left);
      assert ([Left] + q)[1..] == q;
      [Left] + q
    else if t.right != Nil then
      var q := DeepestPath(t.right);
      assert ([Right] + q)[1..] == q;
      [Right] + q
    else
      []
  }

  /** Mirroring keeps the height and negates the balance factor. */
  lemma {:induction false} MirrorHeight(t: Tree)
    ensures Height(Mirror(t)) == Height(t)
    ensures BalanceFactor(Mirror(t)) == -BalanceFactor(t)
  {
    match t
    case Nil =>
    case Node(_, l, r) =>
      MirrorHeight(l);
      MirrorHeight(r);
      assert (Mirror(l) == Nil) == (l == Nil);
      assert (Mirror(r) == Nil) == (r == Nil);
  }
}
