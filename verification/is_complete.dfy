/** The completeness check (102-binary_tree_is_complete.c).

    The C routine runs the same array queue as the level-order traversal and
    looks at each taken node's left and then right child slot. An empty slot
    sets a flag that is never cleared; a filled slot met while the flag is
    set makes the result 0. A tree that gets through the whole traversal is
    complete (1); the empty tree is not (0). */
module Completeness {
  import opened Trees
  import opened Levels
  import opened WorkQueue
  import Balance

  /** For each node of `s` in order, whether its left and then its right
      child slot is filled. */
  function Slots(s: seq<Tree>): (b: seq<bool>)
  {
    if s == [] then []
    else (if s[0].Node? then [s[0].left != Nil, s[0].right != Nil] else []) + Slots(s[1..])
  }

  lemma {:induction false} SlotsConcat(s: seq<Tree>, u: seq<Tree>)
    ensures Slots(s + u) == Slots(s) + Slots(u)
  {
    if s == [] {
      assert s + u == u;
    } else {
      assert (s + u)[0] == s[0] && (s + u)[1..] == s[1..] + u;
      SlotsConcat(s[1..], u);
      var h := if s[0].Node? then [s[0].left != Nil, s[0].right != Nil] else [];
      assert h + (Slots(s[1..]) + Slots(u)) == (h + Slots(s[1..])) + Slots(u);
    }
  }

  /** No filled slot comes after an empty one. */
  predicate GapFree(b: seq<bool>)
  {
    forall i, j | 0 <= i < j < |b| :: b[j] ==> b[i]
  }

  /** Complete in the sense the routine checks: a non-empty tree in whose
      breadth-first order no child slot is filled after an empty one. */
  predicate Complete(t: Tree)
  {
    t.Node? && GapFree(Slots(LevelOrder(t)))
  }

  /** binary_tree_is_complete. `tree` is Nil for a NULL tree; the run must
      stay inside the 100-slot queue (`FitsQueue`), which every tree of at
      most 100 nodes does (`SmallTreesFit`). */
  method IsComplete(tree: Tree) returns (complete: bool)
    requires FitsQueue(tree)
    ensures complete <==> Complete(tree)
  {
    if tree == Nil {
      return false;
    }
    var queue := new Tree[QueueSize];
    var front, back := 0, -1;
    back := Push(queue, back, tree);
    ghost var q := [tree];
    var flag := false;
    TraversalStart(tree);
    assert q[..0] == [];
    while front <= back
      invariant Checked(tree, q, front, flag)
      invariant back + 1 == |q| <= queue.Length && q == queue[..back + 1]
      decreases Size(tree) - front
    {
      var ok;
      ok, back, flag, q := CheckRound(tree, queue, front, back, flag, q);
      if !ok {
        return false;
      }
      front := front + 1;
    }
    TraversalEnd(tree, q, front);
    assert q[..front] == q;
    VisitIsLevelOrder(tree);
    return true;
  }

  /** The loop state: a traversal in progress whose taken nodes' slots are
      gap-free so far, with the flag telling whether one of them was empty. */
  predicate Checked(tree: Tree, q: seq<Tree>, front: int, flag: bool)
  {
    && Traversing(tree, q, front)
    && (flag <==> false in Slots(q[..front]))
    && GapFree(Slots(q[..front]))
    && (!flag ==> |q| == 1 + 2 * front)
  }

  /** One pass of the loop body. `ok` is false where the C routine returns 0
      from inside the loop, and then the tree is not complete. */
  method CheckRound(tree: Tree, queue: array<Tree>, front: int, back: int, flag: bool, ghost q: seq<Tree>)
    returns (ok: bool, back': int, flag': bool, ghost q': seq<Tree>)
    requires Checked(tree, q, front, flag) && front < |q|
    requires back + 1 == |q| <= queue.Length == QueueSize && q == queue[..back + 1]
    requires FitsQueue(tree)
    modifies queue
    ensures !ok ==> !Complete(tree)
    ensures ok ==> (flag ==> flag')
    ensures ok ==> Checked(tree, q', front + 1, flag')
    ensures ok ==> back' + 1 == |q'| <= queue.Length && q' == queue[..back' + 1]
  {
    var x := queue[front];
    assert x == q[front];
    TraversalStep(tree, q, front, x);
    Room(tree, q, front, flag, x);
    back', flag', q' := back, flag, q;
    if x.left != Nil {
      if flag' {
        RejectLeft(tree, q, front, flag, x);
        return false, back', flag', q';
      }
      back' := Push(queue, back', x.left);
      q' := q' + [x.left];
    } else {
      flag' := true;
    }
    if x.right != Nil {
      if flag' {
        RejectRight(tree, q, front, flag, x);
        return false, back', flag', q';
      }
      back' := Push(queue, back', x.right);
      q' := q' + [x.right];
    } else {
      flag' := true;
    }
    KidsPushed(q, x, q');
    CheckStep(tree, q, front, flag, x);
    ok := true;
  }

  /** A filled left slot after an empty one: not complete. */
  lemma RejectLeft(tree: Tree, q: seq<Tree>, front: int, flag: bool, x: Tree)
    requires Checked(tree, q, front, flag) && front < |q| && x == q[front]
    requires x.Node? && x.left != Nil && flag
    ensures !Complete(tree)
  {
    var t := SlotsAround(tree, q, front, x);
    RejectAt(Slots(LevelOrder(tree)), Slots(q[..front]), [x.right != Nil] + t);
  }

  /** A filled right slot after an empty one, earlier or just to its left:
      not complete. */
  lemma RejectRight(tree: Tree, q: seq<Tree>, front: int, flag: bool, x: Tree)
    requires Checked(tree, q, front, flag) && front < |q| && x == q[front]
    requires x.Node? && x.right != Nil && (flag || x.left == Nil)
    ensures !Complete(tree)
  {
    var t := SlotsAround(tree, q, front, x);
    var p1 := Slots(q[..front]) + [x.left != Nil];
    assert false in p1 by {
      if !flag {
        assert p1[|p1| - 1] == false;
      }
    }
    RejectAt(Slots(LevelOrder(tree)), p1, t);
  }

  /** Both slots of `x` passed: the loop state moves on by one entry, with
      the flag raised by an empty slot. */
  lemma CheckStep(tree: Tree, q: seq<Tree>, front: int, flag: bool, x: Tree)
    requires Checked(tree, q, front, flag) && front < |q| && x == q[front]
    requires x.Node? && !(x.left != Nil && flag) && !(x.right != Nil && (flag || x.left == Nil))
    ensures Checked(tree, q + Kids(x), front + 1, flag || x.left == Nil || x.right == Nil)
  {
    TraversalStep(tree, q, front, x);
    var l, r := x.left != Nil, x.right != Nil;
    var p := Slots(q[..front]);
    var p1 := p + [l];
    GapFreeSnoc(p, l);
    GapFreeSnoc(p1, r);
    SlotsConcat(q[..front], [x]);
    assert Slots([x]) == [l, r] + Slots([]);
    assert [l, r] + [] == [l, r];
    assert p1 + [r] == p + [l, r];
    assert false in p1 + [r] <==> flag || !l || !r;
  }

  /** The number of filled slots. */
  function Filled(b: seq<bool>): nat
  {
    if b == [] then 0 else (if b[0] then 1 else 0) + Filled(b[1..])
  }

  /** The C queue has room for the whole run. A child is pushed only while no
      slot has been empty (after an empty slot a filled one returns 0 at
      once), so the queue holds the root and one entry per filled slot before
      the first empty one. Its `QueueSize` entries suffice unless the first
      `QueueSize` slots in breadth-first order are all filled. */
  predicate FitsQueue(t: Tree)
  {
    var b := Slots(LevelOrder(t));
    |b| >= QueueSize ==> false in b[..QueueSize]
  }

  /** The pushes of one round stay inside the array: while no slot has been
      empty the queue holds 1 + 2 * front entries, and a push happens only
      when all slots so far, including the new one, are filled. */
  lemma Room(tree: Tree, q: seq<Tree>, front: int, flag: bool, x: Tree)
    requires Checked(tree, q, front, flag) && front < |q| && x == q[front]
    requires FitsQueue(tree)
    ensures !flag && x.left != Nil ==> |q| < QueueSize
    ensures !flag && x.left != Nil && x.right != Nil ==> |q| + 1 < QueueSize
  {
    TraversalStep(tree, q, front, x);
    if !flag && x.left != Nil {
      var t := SlotsAround(tree, q, front, x);
      var b, p := Slots(LevelOrder(tree)), Slots(q[..front]);
      assert AllNodes(q[..front]) by {
        forall i | 0 <= i < front ensures q[..front][i].Node? {
          assert q[..front][i] == q[i];
        }
      }
      SlotsLength(q[..front]);
      var n := if x.right != Nil then |p| + 2 else |p| + 1;
      assert b == p + [true] + [x.right != Nil] + t;
      if n >= QueueSize {
        forall i | 0 <= i < QueueSize ensures b[..QueueSize][i] {
          if i < |p| {
            assert b[i] == p[i] && p[i] in p;
          }
        }
        assert false;
      }
    }
  }

  /** Each node has two slots. */
  lemma {:induction false} SlotsLength(s: seq<Tree>)
    requires AllNodes(s)
    ensures |Slots(s)| == 2 * |s|
  {
    if s != [] {
      SlotsLength(s[1..]);
    }
  }

  lemma {:induction false} FilledConcat(a: seq<bool>, b: seq<bool>)
    ensures Filled(a + b) == Filled(a) + Filled(b)
  {
    if a == [] {
      assert a + b == b;
    } else {
      assert (a + b)[0] == a[0] && (a + b)[1..] == a[1..] + b;
      FilledConcat(a[1..], b);
    }
  }

  lemma {:induction false} FilledAll(b: seq<bool>)
    requires false !in b
    ensures Filled(b) == |b|
  {
    if b != [] {
      assert false !in b[1..] by {
        forall i | 0 <= i < |b| - 1 ensures b[1..][i] {
          assert b[1..][i] == b[i + 1] && b[i + 1] in b;
        }
      }
      FilledAll(b[1..]);
    }
  }

  /** Every node but the roots of the queued trees hangs in exactly one
      filled slot: the work list from queue `q` has as many filled slots as
      the queued trees have nodes, less one per queued tree. */
  lemma {:induction false} SlotsFilled(q: seq<Tree>)
    requires AllNodes(q)
    ensures Filled(Slots(Visit(q))) + |q| == SizeSum(q)
    decreases SizeSum(q), |q|
  {
    if q != [] {
      var x := q[0];
      assert q == [x] + q[1..];
      VisitStep(x, q[1..]);
      var next := q[1..] + Kids(x);
      assert AllNodes(q[1..]) by {
        forall i | 0 <= i < |q| - 1 ensures q[1..][i].Node? {
          assert q[1..][i] == q[i + 1];
        }
      }
      KidsNodes(x);
      AllNodesConcat(q[1..], Kids(x));
      SizeSumConcat(q[1..], Kids(x));
      KidsCount(x);
      SlotsFilled(next);
      var v := Visit(next);
      SlotsConcat([x], v);
      var l, r := x.left != Nil, x.right != Nil;
      assert Slots([x]) == [l, r] + Slots([]);
      assert [l, r] + [] == [l, r];
      assert Filled([l, r]) == |Kids(x)| by {
        assert [l, r][1..] == [r] && [r][1..] == [];
        assert Filled([r]) == (if r then 1 else 0) + Filled([]);
        assert |Kids(x)| == (if l then 1 else 0) + (if r then 1 else 0);
      }
      FilledConcat([l, r], Slots(v));
    }
  }

  /** A non-empty tree has one filled slot fewer than nodes. */
  lemma TreeFilled(t: Tree)
    requires t.Node?
    ensures Filled(Slots(LevelOrder(t))) + 1 == Size(t)
  {
    VisitIsLevelOrder(t);
    SlotsFilled([t]);
    assert SizeSum([t]) == Size(t) + SizeSum([]);
  }

  /** A tree of at most `QueueSize` nodes always fits. */
  lemma SmallTreesFit(t: Tree)
    requires Size(t) <= QueueSize
    ensures FitsQueue(t)
  {
    var b := Slots(LevelOrder(t));
    if t == Nil {
      NilLevelOrder();
    } else if |b| >= QueueSize && false !in b[..QueueSize] {
      TreeFilled(t);
      PrefixFilled(b, QueueSize);
      assert false;
    }
  }

  lemma NilLevelOrder()
    ensures LevelOrder(Nil) == []
  {
    VisitIsLevelOrder(Nil);
    assert Visit([Nil]) == Visit([]);
  }

  /** A run of `n` filled slots at the front counts `n` towards the total. */
  lemma PrefixFilled(b: seq<bool>, n: nat)
    requires n <= |b| && false !in b[..n]
    ensures n <= Filled(b)
  {
    assert b == b[..n] + b[n..];
    FilledConcat(b[..n], b[n..]);
    FilledAll(b[..n]);
  }

  /** A root without a left child fits whatever its size: its first slot is
      empty, and the routine returns at its right child or finishes without
      pushing anything. */
  lemma NoLeftChildFits(t: Tree)
    requires t.Node? && t.left == Nil
    ensures FitsQueue(t)
  {
    VisitIsLevelOrder(t);
    VisitStep(t, []);
    assert [] + Kids(t) == Kids(t);
    SlotsConcat([t], Visit(Kids(t)));
    assert Slots([t]) == [false, t.right != Nil] + Slots([]);
    var b := Slots(LevelOrder(t));
    assert b[0] == false;
    if |b| >= QueueSize {
      assert b[..QueueSize][0] == false;
    }
  }

  /** Where the slots of the front node `x` sit in the slot sequence of the
      whole traversal: after those of the nodes already taken, before `t`. */
  lemma SlotsAround(tree: Tree, q: seq<Tree>, front: int, x: Tree) returns (t: seq<bool>)
    requires Traversing(tree, q, front) && front < |q| && x == q[front] && x.Node?
    ensures Slots(LevelOrder(tree)) == Slots(q[..front]) + [x.left != Nil] + ([x.right != Nil] + t)
    ensures Slots(LevelOrder(tree)) == Slots(q[..front]) + [x.left != Nil] + [x.right != Nil] + t
  {
    var done, rest := q[..front], q[front + 1..];
    QueueSlices(q, [], front);
    VisitIsLevelOrder(tree);
    VisitStep(x, rest);
    var v := Visit(rest + Kids(x));
    assert LevelOrder(tree) == done + ([x] + v);
    t := Slots(v);
    SlotsSplit(done, x, v);
  }

  /** The slots of `done + [x] + v`, cut around the two slots of `x`. */
  lemma SlotsSplit(done: seq<Tree>, x: Tree, v: seq<Tree>)
    requires x.Node?
    ensures Slots(done + ([x] + v)) == Slots(done) + [x.left != Nil] + ([x.right != Nil] + Slots(v))
    ensures Slots(done + ([x] + v)) == Slots(done) + [x.left != Nil] + [x.right != Nil] + Slots(v)
  {
    SlotsConcat(done, [x] + v);
    SlotsConcat([x], v);
    var p, l, r, t := Slots(done), x.left != Nil, x.right != Nil, Slots(v);
    assert Slots([x]) == [l, r] + Slots([]);
    assert [l, r] + [] == [l, r];
    Assoc(p, [l, r], t);
    assert [l, r] + t == [l] + ([r] + t);
    Assoc(p, [l], [r] + t);
    Assoc(p + [l], [r], t);
  }

  /** A filled slot after an empty one breaks the property. */
  lemma RejectAt(s: seq<bool>, p: seq<bool>, t: seq<bool>)
    requires s == p + [true] + t && false in p
    ensures !GapFree(s)
  {
    var i :| 0 <= i < |p| && !p[i];
    assert s[i] == p[i] && s[|p|];
  }

  /** Appending one slot keeps the property exactly when the slot is empty or
      no earlier slot was. */
  lemma GapFreeSnoc(p: seq<bool>, b: bool)
    ensures GapFree(p + [b]) <==> GapFree(p) && (b ==> false !in p)
  {
    var s := p + [b];
    if GapFree(s) {
      assert GapFree(p) by {
        forall i, j | 0 <= i < j < |p| && p[j] ensures p[i] {
          assert s[i] == p[i] && s[j] == p[j];
        }
      }
      if b {
        forall i | 0 <= i < |p| ensures p[i] {
          assert s[i] == p[i] && s[|p|] == b;
        }
      }
    }
    if GapFree(p) && (b ==> false !in p) {
      forall i, j | 0 <= i < j < |s| && s[j] ensures s[i] {
        if j < |p| {
          assert s[i] == p[i] && s[j] == p[j];
        } else {
          assert s[i] == p[i];
          assert p[i] in p;
        }
      }
    }
  }

  /** The textbook shape, depth by depth: above the last two depths every
      node has both children (so every depth but the deepest is full), and
      one above the deepest the filled slots come first (so the deepest
      nodes sit as far left as they can). */
  predicate LevelwiseComplete(t: Tree)
  {
    t.Node? && forall d: nat | d < Balance.Height(t) :: LevelShaped(t, d)
  }

  predicate LevelShaped(t: Tree, d: nat)
  {
    if d + 1 < Balance.Height(t) then false !in Slots(Level(t, d))
    else GapFree(Slots(Level(t, d)))
  }

  /** The routine's answer agrees with the textbook definition. */
  lemma CompleteIffLevelwise(t: Tree)
    ensures Complete(t) <==> LevelwiseComplete(t)
  {
    if t.Node? {
      var h := Balance.Height(t);
      ShapedFrom(t, 0);
      assert LevelOrder(t) == Depths([t], 0, h + 1);
    }
  }

  /** The depths from `d` to the height all have the textbook shape. */
  predicate ShapedBelow(t: Tree, d: nat)
  {
    forall e: nat | d <= e < Balance.Height(t) :: LevelShaped(t, e)
  }

  /** The depths from `d` down to the height are shaped exactly when their
      slots, read in breadth-first order, are gap-free. */
  lemma {:induction false} ShapedFrom(t: Tree, d: nat)
    requires t.Node? && d <= Balance.Height(t)
    ensures GapFree(Slots(Depths([t], d, Balance.Height(t) + 1 - d))) <==> ShapedBelow(t, d)
    decreases Balance.Height(t) - d
  {
    var h := Balance.Height(t);
    var n := h + 1 - d;
    var a := Slots(Level(t, d));
    var rest := Depths([t], d + 1, n - 1);
    OneTreeLevel(t, d);
    SlotsConcat(Level(t, d), rest);
    assert Slots(Depths([t], d, n)) == a + Slots(rest);
    if d == h {
      DeepestSlotsEmpty(t);
      assert rest == [];
      assert a + [] == a;
      GapFreeEmpty(a);
    } else {
      ShapedFrom(t, d + 1);
      LaterSlotsFilled(t, d);
      ShapedStep(t, d);
      ShapedCombine(a, Slots(rest), d + 1 < h);
    }
  }

  /** One depth's slots `a` in front of the deeper ones `b`, when `b` has a
      filled slot exactly when `a` is not one above the deepest depth. */
  lemma ShapedCombine(a: seq<bool>, b: seq<bool>, above: bool)
    requires true in b <==> above
    ensures GapFree(a + b) <==> (if above then false !in a else GapFree(a)) && GapFree(b)
  {
    GapFreeConcat(a, b);
    if false !in a {
      FilledGapFree(a);
    }
  }

  lemma ShapedStep(t: Tree, d: nat)
    requires d < Balance.Height(t)
    ensures ShapedBelow(t, d) <==> LevelShaped(t, d) && ShapedBelow(t, d + 1)
  {
  }

  /** A slot sequence with every slot filled has no gap. */
  lemma FilledGapFree(b: seq<bool>)
    requires false !in b
    ensures GapFree(b)
  {
    forall i | 0 <= i < |b| ensures b[i] {
      assert b[i] in b;
    }
  }

  /** Below depth `d` some slot is filled exactly when `d` is not one of the
      two deepest depths. */
  lemma LaterSlotsFilled(t: Tree, d: nat)
    requires t.Node? && d < Balance.Height(t)
    ensures true in Slots(Depths([t], d + 1, Balance.Height(t) - d)) <==> d + 1 < Balance.Height(t)
  {
    var h := Balance.Height(t);
    var rest := Depths([t], d + 1, h - d);
    var next := Depths([t], d + 2, h - d - 1);
    OneTreeLevel(t, d + 1);
    SlotsConcat(Level(t, d + 1), next);
    if d + 1 < h {
      DepthsReach(t, d + 2);
      LevelNext(t, d + 1);
      SlotsNext(Level(t, d + 1));
      var i :| 0 <= i < |Slots(Level(t, d + 1))| && Slots(Level(t, d + 1))[i];
      assert Slots(rest)[i];
    } else {
      DeepestSlotsEmpty(t);
      assert next == [];
      assert Slots(rest) == Slots(Level(t, h)) + [];
    }
  }

  /** The nodes at the deepest depth are leaves. */
  lemma DeepestSlotsEmpty(t: Tree)
    ensures true !in Slots(Level(t, Balance.Height(t)))
  {
    var h := Balance.Height(t);
    LevelBeyondHeight(t, h + 1);
    LevelNext(t, h);
    SlotsNext(Level(t, h));
  }

  /** A slot sequence with nothing filled has no gap. */
  lemma GapFreeEmpty(b: seq<bool>)
    requires true !in b
    ensures GapFree(b)
  {
    forall j | 0 <= j < |b| ensures !b[j] {
      assert b[j] in b;
    }
  }

  /** Two slot sequences in a row have no gap exactly when neither does and
      the first is full as soon as the second has a filled slot. */
  lemma GapFreeConcat(a: seq<bool>, b: seq<bool>)
    ensures GapFree(a + b) <==> GapFree(a) && GapFree(b) && (true in b ==> false !in a)
  {
    var s := a + b;
    if GapFree(s) {
      forall i, j | 0 <= i < j < |a| && a[j] ensures a[i] {
        assert s[i] == a[i] && s[j] == a[j];
      }
      forall i, j | 0 <= i < j < |b| && b[j] ensures b[i] {
        assert s[|a| + i] == b[i] && s[|a| + j] == b[j];
      }
      if true in b {
        var j :| 0 <= j < |b| && b[j];
        forall i | 0 <= i < |a| ensures a[i] {
          assert s[i] == a[i] && s[|a| + j] == b[j];
        }
      }
    }
    if GapFree(a) && GapFree(b) && (true in b ==> false !in a) {
      forall i, j | 0 <= i < j < |s| && s[j] ensures s[i] {
        if j < |a| {
          assert s[i] == a[i] && s[j] == a[j];
        } else if i < |a| {
          assert s[j] == b[j - |a|];
          assert b[j - |a|] in b;
          assert a[i] in a;
        } else {
          assert s[i] == b[i - |a|] && s[j] == b[j - |a|];
        }
      }
    }
  }

  /** The depths of a one-tree forest are those of the tree. */
  lemma OneTreeLevel(t: Tree, d: nat)
    ensures ForestLevel([t], d) == Level(t, d)
  {
    assert ForestLevel([t], d) == Level(t, d) + ForestLevel([], d);
    assert Level(t, d) + [] == Level(t, d);
  }

  /** The next depth holds the children of this depth's nodes, in order. */
  lemma {:induction false} LevelNext(t: Tree, d: nat)
    ensures Level(t, d + 1) == NextLevel(Level(t, d))
  {
    match t
    case Nil =>
    case Node(_, l, r) =>
      if d == 0 {
        assert NextLevel([t]) == Kids(t) + NextLevel([]);
        assert Kids(t) + [] == Kids(t);
      } else {
        LevelNext(l, d - 1);
        LevelNext(r, d - 1);
        NextLevelConcat(Level(l, d - 1), Level(r, d - 1));
      }
  }

  /** A sequence has a filled slot exactly when its nodes have a child. */
  lemma {:induction false} SlotsNext(f: seq<Tree>)
    ensures true in Slots(f) <==> NextLevel(f) != []
  {
    if f != [] {
      SlotsNext(f[1..]);
      var h := if f[0].Node? then [f[0].left != Nil, f[0].right != Nil] else [];
      assert Slots(f) == h + Slots(f[1..]);
      assert NextLevel(f) == Kids(f[0]) + NextLevel(f[1..]);
      assert true in h <==> Kids(f[0]) != [];
    }
  }

  /** Every depth down to the height holds a node. */
  lemma DepthsReach(t: Tree, d: nat)
    requires t.Node? && d <= Balance.Height(t)
    ensures Level(t, d) != []
  {
    var p := Balance.DeepestPath(t);
    var p' := p[..d];
    SubtreePrefix(t, p, d);
    PathInLevel(t, p');
  }

  /** A single node is complete. */
  lemma LeafComplete(k: int)
    ensures Complete(Node(k, Nil, Nil))
  {
    CompleteIffLevelwise(Node(k, Nil, Nil));
  }

  /** A node anywhere in the tree with a right child but no left child makes
      the tree incomplete. */
  lemma MissingLeftRejected(t: Tree, p: Path)
    requires Subtree(t, p).Node? && Subtree(t, p).left == Nil && Subtree(t, p).right != Nil
    ensures !Complete(t)
  {
    var x := Subtree(t, p);
    var d := |p|;
    PathInLevel(t, p);
    SubtreeSnoc(t, p, Right);
    Balance.HeightBoundsDepth(t, p + [Right]);
    var s := Level(t, d);
    var i :| 0 <= i < |s| && s[i] == x;
    assert s == s[..i] + ([x] + s[i + 1..]);
    SlotsSplit(s[..i], x, s[i + 1..]);
    var before := Slots(s[..i]) + [false];
    RejectAt(Slots(s), before, Slots(s[i + 1..]));
    assert false in Slots(s) by {
      assert Slots(s)[|before| - 1] == false;
    }
    CompleteIffLevelwise(t);
    assert !LevelShaped(t, d);
  }
}
