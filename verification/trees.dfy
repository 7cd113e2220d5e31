/** The binary tree node shared by every routine of the library, as an
    immutable value, together with the structural measures the routines are
    specified against.

    The C node (binary_trees.h) holds an `int` key and three pointers:
    parent, left and right. Here a tree owns its two children; the parent
    back-link is not stored. Where a routine reports a node, the node is
    named by the path that leads to it from the root, so its parent is the
    node at that path minus its last step. */
module Trees {

  datatype Tree = Nil | Node(key: int, left: Tree, right: Tree)

  /** A possibly absent value; `None` plays the part of a NULL result. */
  datatype Option<+T> = None | Some(value: T)

  /** One step down from a node. */
  datatype Dir = Left | Right

  /** A downward path from the root; the empty path names the root itself. */
  type Path = seq<Dir>

  /** The range of a C `int` (INT_MIN and INT_MAX of limits.h). */
  const IntMin: int := -0x8000_0000
  const IntMax: int := 0x7fff_ffff

  /** Concatenation regroups freely. */
  lemma Assoc<T>(a: seq<T>, b: seq<T>, c: seq<T>)
    ensures a + (b + c) == (a + b) + c
  {
  }

  predicate IsInt32(x: int)
  {
    IntMin <= x <= IntMax
  }

  /** Number of nodes. */
  function Size(t: Tree): nat
  {
    match t
    case Nil => 0
    case Node(_, l, r) => 1 + Size(l) + Size(r)
  }

  /** The set of keys stored anywhere in the tree. */
  function Keys(t: Tree): set<int>
  {
    match t
    case Nil => {}
    case Node(k, l, r) => {k} + Keys(l) + Keys(r)
  }

  /** Every key fits a C `int`. */
  predicate AllInt32(t: Tree)
  {
    forall k | k in Keys(t) :: IsInt32(k)
  }

  /** The keys in symmetric order: left subtree, node, right subtree. */
  function InOrder(t: Tree): (s: seq<int>)
    ensures |s| == Size(t)
    ensures forall k :: k in s <==> k in Keys(t)
  {
    match t
    case Nil => []
    case Node(k, l, r) => InOrder(l) + [k] + InOrder(r)
  }

  /** The in-order sequence of a node, as a fact to call on. */
  lemma InOrderUnfold(k: int, l: Tree, r: Tree)
    ensures InOrder(Node(k, l, r)) == InOrder(l) + [k] + InOrder(r)
  {
  }

  /** The in-order sequence of a node, grouped to the right. */
  lemma InOrderNode(k: int, l: Tree, r: Tree)
    ensures InOrder(Node(k, l, r)) == InOrder(l) + ([k] + InOrder(r))
  {
    var a, b := InOrder(l), InOrder(r);
    assert (a + [k]) + b == a + ([k] + b);
  }

  /** The child in direction `d`; an empty tree has empty children. */
  function Child(t: Tree, d: Dir): Tree
  {
    match t
    case Nil => Nil
    case Node(_, l, r) => if d == Left then l else r
  }

  /** The subtree reached by following `p` from the root (Nil once the path
      leaves the tree). */
  function Subtree(t: Tree, p: Path): Tree
    decreases |p|
  {
    if p == [] then t else Subtree(Child(t, p[0]), p[1..])
  }

  /** Every proper prefix of `p` reaches a node, so `p` names a slot of the
      tree: a node, or an empty child position of a node. */
  predicate IsSlot(t: Tree, p: Path)
  {
    forall i | 0 <= i < |p| :: Subtree(t, p[..i]).Node?
  }

  /** `t` with its child in direction `d` replaced by `s` (Nil unchanged). */
  function SetChild(t: Tree, d: Dir, s: Tree): Tree
  {
    match t
    case Nil => Nil
    case Node(k, l, r) => if d == Left then Node(k, s, r) else Node(k, l, s)
  }

  /** `t` with the subtree at `p` replaced by `s`; a path that leaves the tree
      changes nothing. */
  function Replace(t: Tree, p: Path, s: Tree): Tree
    decreases |p|
  {
    if p == [] then s
    else match t
      case Nil => Nil
      case Node(k, l, r) =>
        if p[0] == Left then Node(k, Replace(l, p[1..], s), r)
        else Node(k, l, Replace(r, p[1..], s))
  }

  /** Following one more step is taking the child of where the path ends. */
  lemma {:induction false} SubtreeSnoc(t: Tree, p: Path, d: Dir)
    ensures Subtree(t, p + [d]) == Child(Subtree(t, p), d)
    decreases |p|
  {
    if p == [] {
      assert Subtree(t, [d]) == Subtree(Child(t, d), []);
    } else {
      assert (p + [d])[1..] == p[1..] + [d];
      SubtreeSnoc(Child(t, p[0]), p[1..], d);
    }
  }

  /** Replacing a child at the end of a path is replacing one step further. */
  lemma {:induction false} ReplaceSnoc(t: Tree, p: Path, d: Dir, s: Tree)
    ensures Replace(t, p + [d], s) == Replace(t, p, SetChild(Subtree(t, p), d, s))
    decreases |p|
  {
    if p == [] {
      assert Replace(t, [d], s) == SetChild(t, d, s) by {
        match t
        case Nil =>
        case Node(k, l, r) =>
          assert [d][1..] == [];
      }
    } else {
      assert (p + [d])[1..] == p[1..] + [d];
      match t
      case Nil =>
      case Node(k, l, r) =>
        ReplaceSnoc(Child(t, p[0]), p[1..], d, s);
    }
  }

  /** A proper prefix of a slot's path is itself a slot one step shorter. */
  lemma SlotTail(t: Tree, p: Path)
    requires |p| > 0 && IsSlot(t, p)
    ensures t.Node? && IsSlot(Child(t, p[0]), p[1..])
  {
    assert p[..0] == [];
    forall i | 0 <= i < |p[1..]|
      ensures Subtree(Child(t, p[0]), p[1..][..i]).Node?
    {
      assert p[..i + 1][0] == p[0] && p[..i + 1][1..] == p[1..][..i];
      assert Subtree(t, p[..i + 1]).Node?;
    }
  }

  /** Extending a slot through a node gives a slot. */
  lemma {:induction false} SlotSnoc(t: Tree, p: Path, d: Dir)
    requires IsSlot(t, p) && Subtree(t, p).Node?
    ensures IsSlot(t, p + [d])
  {
    forall i | 0 <= i < |p + [d]|
      ensures Subtree(t, (p + [d])[..i]).Node?
    {
      if i < |p| {
        assert (p + [d])[..i] == p[..i];
      } else {
        assert (p + [d])[..i] == p;
      }
    }
  }

  /** Along a slot's path, replacing and then looking up gives back what was
      put there. */
  lemma {:induction false} SubtreeOfReplace(t: Tree, p: Path, s: Tree)
    requires IsSlot(t, p)
    ensures Subtree(Replace(t, p, s), p) == s
    decreases |p|
  {
    if p != [] {
      SlotTail(t, p);
      SubtreeOfReplace(Child(t, p[0]), p[1..], s);
    }
  }

  /** Nothing is below an empty tree. */
  lemma {:induction false} SubtreeOfNil(p: Path)
    ensures Subtree(Nil, p) == Nil
    decreases |p|
  {
    if p != [] {
      SubtreeOfNil(p[1..]);
    }
  }

  /** A path that reaches a node passes through nodes all the way. */
  lemma {:induction false} SubtreePrefix(t: Tree, p: Path, d: nat)
    requires Subtree(t, p).Node? && d <= |p|
    ensures Subtree(t, p[..d]).Node?
    decreases |p|
  {
    if t == Nil {
      SubtreeOfNil(p);
      assert false;
    }
    if d > 0 {
      assert p[..d][1..] == p[1..][..d - 1];
      SubtreePrefix(Child(t, p[0]), p[1..], d - 1);
    }
  }

  /** The left-right mirror image. */
  function Mirror(t: Tree): (m: Tree)
    ensures Size(m) == Size(t)
    ensures Keys(m) == Keys(t)
  {
    match t
    case Nil => Nil
    case Node(k, l, r) => Node(k, Mirror(r), Mirror(l))
  }
}
