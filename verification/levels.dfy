/** Breadth-first order, the specification both queue routines
    (101-binary_tree_levelorder.c and 102-binary_tree_is_complete.c) are
    stated against.

    `Visit` is the first-in first-out work list the C loops run: take the
    node at the front, append its present children (left, then right) at the
    back. `LevelOrder`, built from `Depths`, is the independent
    description: the nodes of depth 0, then those of depth 1, and so on,
    each depth read left to right. The central lemma `VisitIsLevelOrder`
    says the two agree. */
module Levels {
  import opened Trees
  import Balance

  /** Total number of nodes in a forest. */
  function SizeSum(f: seq<Tree>): nat
  {
    if f == [] then 0 else Size(f[0]) + SizeSum(f[1..])
  }

  lemma {:induction false} SizeSumConcat(f: seq<Tree>, g: seq<Tree>)
    ensures SizeSum(f + g) == SizeSum(f) + SizeSum(g)
  {
    if f == [] {
      assert f + g == g;
    } else {
      assert (f + g)[0] == f[0] && (f + g)[1..] == f[1..] + g;
      SizeSumConcat(f[1..], g);
    }
  }

  /** The keys of a forest, as a multiset. */
  function ForestKeys(f: seq<Tree>): multiset<int>
  {
    if f == [] then multiset{} else multiset(InOrder(f[0])) + ForestKeys(f[1..])
  }

  lemma {:induction false} ForestKeysConcat(f: seq<Tree>, g: seq<Tree>)
    ensures ForestKeys(f + g) == ForestKeys(f) + ForestKeys(g)
  {
    if f == [] {
      assert f + g == g;
    } else {
      assert (f + g)[0] == f[0] && (f + g)[1..] == f[1..] + g;
      ForestKeysConcat(f[1..], g);
    }
  }

  /** The children a node has, left before right: what one round of either
      C loop appends to its queue. */
  function Kids(t: Tree): seq<Tree>
  {
    match t
    case Nil => []
    case Node(_, l, r) => (if l != Nil then [l] else []) + (if r != Nil then [r] else [])
  }

  /** The forest holding `t` alone when it is a node, and nothing otherwise. */
  function Present(t: Tree): (f: seq<Tree>)
    ensures SizeSum(f) == Size(t)
    ensures ForestKeys(f) == multiset(InOrder(t))
  {
    if t != Nil then [t] else []
  }

  /** A node is itself plus its present children, in count and in keys. */
  lemma KidsCount(t: Tree)
    requires t.Node?
    ensures Size(t) == 1 + SizeSum(Kids(t))
    ensures multiset(InOrder(t)) == multiset{t.key} + ForestKeys(Kids(t))
  {
    var L, R := Present(t.left), Present(t.right);
    assert Kids(t) == L + R;
    SizeSumConcat(L, R);
    ForestKeysConcat(L, R);
    InOrderUnfold(t.key, t.left, t.right);
  }

  /** The keys of a sequence of nodes, in order; empty entries contribute
      nothing. */
  function KeysOf(s: seq<Tree>): (r: seq<int>)
    ensures |r| <= |s|
  {
    if s == [] then []
    else (if s[0].Node? then [s[0].key] else []) + KeysOf(s[1..])
  }

  lemma {:induction false} KeysOfConcat(s: seq<Tree>, u: seq<Tree>)
    ensures KeysOf(s + u) == KeysOf(s) + KeysOf(u)
  {
    if s == [] {
      assert s + u == u;
    } else {
      assert (s + u)[0] == s[0] && (s + u)[1..] == s[1..] + u;
      KeysOfConcat(s[1..], u);
    }
  }

  /** Every entry is a node (the C queues never hold NULL). */
  predicate AllNodes(s: seq<Tree>)
  {
    forall i | 0 <= i < |s| :: s[i].Node?
  }

  /** The work-list traversal: each node is emitted when it reaches the front
      and its present children join the back; empty entries are skipped.
      Emits as many entries as the forest has nodes. */
  function Visit(q: seq<Tree>): (r: seq<Tree>)
    ensures |r| == SizeSum(q)
    decreases SizeSum(q), |q|
  {
    if q == [] then []
    else if q[0] == Nil then Visit(q[1..])
    else
      SizeSumConcat(q[1..], Kids(q[0]));
      KidsCount(q[0]);
      [q[0]] + Visit(q[1..] + Kids(q[0]))
  }

  /** The work list emits only nodes. */
  lemma {:induction false} VisitNodes(q: seq<Tree>)
    ensures AllNodes(Visit(q))
    decreases SizeSum(q), |q|
  {
    if q != [] {
      var x := q[0];
      assert q == [x] + q[1..];
      VisitStep(x, q[1..]);
      if x == Nil {
        VisitNodes(q[1..]);
      } else {
        var next := q[1..] + Kids(x);
        var v := Visit(next);
        SizeSumConcat(q[1..], Kids(x));
        KidsCount(x);
        VisitNodes(next);
        forall i | 0 <= i < |[x] + v|
          ensures ([x] + v)[i].Node?
        {
          if i > 0 {
            assert ([x] + v)[i] == v[i - 1];
          }
        }
      }
    }
  }

  /** The work list emits every key of the forest exactly as often as it is
      stored. */
  lemma {:induction false} VisitKeys(q: seq<Tree>)
    ensures multiset(KeysOf(Visit(q))) == ForestKeys(q)
    decreases SizeSum(q), |q|
  {
    if q != [] {
      var x := q[0];
      assert q == [x] + q[1..];
      VisitStep(x, q[1..]);
      if x == Nil {
        VisitKeys(q[1..]);
        assert ForestKeys(q) == multiset{} + ForestKeys(q[1..]);
      } else {
        var next := q[1..] + Kids(x);
        var v := Visit(next);
        SizeSumConcat(q[1..], Kids(x));
        ForestKeysConcat(q[1..], Kids(x));
        KidsCount(x);
        VisitKeys(next);
        KeysOfConcat([x], v);
        assert KeysOf([x]) == [x.key];
        assert multiset(KeysOf([x] + v)) == multiset{x.key} + multiset(KeysOf(v));
        assert ForestKeys(q) == multiset(InOrder(x)) + ForestKeys(q[1..]);
      }
    }
  }

  /** The nodes at depth `d`, left to right. */
  function Level(t: Tree, d: nat): seq<Tree>
  {
    match t
    case Nil => []
    case Node(_, l, r) => if d == 0 then [t] else Level(l, d - 1) + Level(r, d - 1)
  }

  /** The nodes at depth `d` of each tree of a forest, tree after tree. */
  function ForestLevel(f: seq<Tree>, d: nat): seq<Tree>
  {
    if f == [] then [] else Level(f[0], d) + ForestLevel(f[1..], d)
  }

  /** Depths `d` to `d + n - 1` of a forest, shallowest first. */
  function Depths(f: seq<Tree>, d: nat, n: nat): seq<Tree>
    decreases n
  {
    if n == 0 then [] else ForestLevel(f, d) + Depths(f, d + 1, n - 1)
  }

  /** Breadth-first order of a tree: all its depths, from the root down to
      the height. */
  function LevelOrder(t: Tree): seq<Tree>
  {
    Depths([t], 0, Balance.Height(t) + 1)
  }

  /** The children of all the trees of a forest, in order: the next
      generation of the work list. */
  function NextLevel(f: seq<Tree>): seq<Tree>
  {
    if f == [] then [] else Kids(f[0]) + NextLevel(f[1..])
  }

  lemma {:induction false} ForestLevelConcat(f: seq<Tree>, g: seq<Tree>, d: nat)
    ensures ForestLevel(f + g, d) == ForestLevel(f, d) + ForestLevel(g, d)
  {
    if f == [] {
      assert f + g == g;
    } else {
      assert (f + g)[0] == f[0] && (f + g)[1..] == f[1..] + g;
      ForestLevelConcat(f[1..], g, d);
    }
  }

  lemma {:induction false} NextLevelConcat(f: seq<Tree>, g: seq<Tree>)
    ensures NextLevel(f + g) == NextLevel(f) + NextLevel(g)
  {
    if f == [] {
      assert f + g == g;
    } else {
      assert (f + g)[0] == f[0] && (f + g)[1..] == f[1..] + g;
      NextLevelConcat(f[1..], g);
    }
  }

  /** Depth `d` below the children of a node is depth `d + 1` below the node. */
  lemma KidsLevel(t: Tree, d: nat)
    ensures ForestLevel(Kids(t), d) == Level(t, d + 1)
  {
    if t.Node? {
      var L := if t.left != Nil then [t.left] else [];
      var R := if t.right != Nil then [t.right] else [];
      ForestLevelConcat(L, R, d);
      assert ForestLevel(L, d) == Level(t.left, d);
      assert ForestLevel(R, d) == Level(t.right, d);
    }
  }

  /** One generation down shifts every depth by one. */
  lemma {:induction false} NextLevelShift(f: seq<Tree>, d: nat)
    ensures ForestLevel(NextLevel(f), d) == ForestLevel(f, d + 1)
  {
    if f != [] {
      ForestLevelConcat(Kids(f[0]), NextLevel(f[1..]), d);
      KidsLevel(f[0], d);
      NextLevelShift(f[1..], d);
    }
  }

  lemma {:induction false} DepthsShift(f: seq<Tree>, d: nat, n: nat)
    ensures Depths(NextLevel(f), d, n) == Depths(f, d + 1, n)
    decreases n
  {
    if n > 0 {
      NextLevelShift(f, d);
      DepthsShift(f, d + 1, n - 1);
    }
  }

  /** One round of the work list. */
  lemma VisitStep(x: Tree, rest: seq<Tree>)
    ensures Visit([x] + rest) == if x == Nil then Visit(rest) else [x] + Visit(rest + Kids(x))
  {
    assert ([x] + rest)[0] == x && ([x] + rest)[1..] == rest;
  }

  /** Running the work list on `f + g` first emits the nodes of `f` in order
      and then runs on `g` followed by the children of `f`'s nodes. */
  lemma {:induction false} VisitSplit(f: seq<Tree>, g: seq<Tree>)
    ensures Visit(f + g) == ForestLevel(f, 0) + Visit(g + NextLevel(f))
    decreases |f|
  {
    if f == [] {
      assert f + g == g;
      assert g + NextLevel(f) == g;
    } else {
      var x, f' := f[0], f[1..];
      assert f == [x] + f';
      Assoc([x], f', g);
      VisitStep(x, f' + g);
      assert ForestLevel(f, 0) == Level(x, 0) + ForestLevel(f', 0);
      assert NextLevel(f) == Kids(x) + NextLevel(f');
      if x == Nil {
        VisitSplit(f', g);
        assert [] + ForestLevel(f', 0) == ForestLevel(f', 0);
        assert [] + NextLevel(f') == NextLevel(f');
      } else {
        var g' := g + Kids(x);
        VisitSplit(f', g');
        Assoc(f', g, Kids(x));
        Assoc(g, Kids(x), NextLevel(f'));
        Assoc([x], ForestLevel(f', 0), Visit(g + NextLevel(f)));
      }
    }
  }

  /** A forest with no node at depth 0 has no nodes at all. */
  lemma {:induction false} NoRoots(f: seq<Tree>)
    requires ForestLevel(f, 0) == []
    ensures SizeSum(f) == 0
  {
    if f != [] {
      assert Level(f[0], 0) == [] && ForestLevel(f[1..], 0) == [];
      NoRoots(f[1..]);
    }
  }

  /** If depth `n` of a forest is empty, the work list emits exactly depths
      0 to n - 1, shallowest first. */
  lemma {:induction false} VisitByLevels(f: seq<Tree>, n: nat)
    requires ForestLevel(f, n) == []
    ensures Visit(f) == Depths(f, 0, n)
    decreases n
  {
    if n == 0 {
      NoRoots(f);
    } else {
      VisitSplit(f, []);
      assert f + [] == f && [] + NextLevel(f) == NextLevel(f);
      NextLevelShift(f, n - 1);
      VisitByLevels(NextLevel(f), n - 1);
      DepthsShift(f, 0, n - 1);
    }
  }

  /** Past the height the depth-by-depth listing is empty: `Level` holds
      no node at any depth greater than the height. */
  lemma {:induction false} LevelBeyondHeight(t: Tree, d: nat)
    requires d > Balance.Height(t)
    ensures Level(t, d) == []
  {
    match t
    case Nil =>
    case Node(_, l, r) =>
      if l != Nil {
        LevelBeyondHeight(l, d - 1);
      }
      if r != Nil {
        LevelBeyondHeight(r, d - 1);
      }
  }

  /** The work list started from the root emits the tree depth by depth,
      each depth left to right. */
  lemma VisitIsLevelOrder(t: Tree)
    ensures Visit([t]) == LevelOrder(t)
  {
    var h := Balance.Height(t);
    LevelBeyondHeight(t, h + 1);
    assert ForestLevel([t], h + 1) == Level(t, h + 1) + ForestLevel([], h + 1);
    VisitByLevels([t], h + 1);
  }

  /** Every node reached by a path lies on the level given by the path's
      length. */
  lemma {:induction false} PathInLevel(t: Tree, p: Path)
    requires Subtree(t, p).Node?
    ensures Subtree(t, p) in Level(t, |p|)
    decreases |p|
  {
    if p != [] {
      match t
      case Nil =>
        SubtreeOfNil(p);
        assert false;
      case Node(_, l, r) =>
        PathInLevel(Child(t, p[0]), p[1..]);
    }
  }

  /** Conversely, every node on level `d` is reached by a path of length `d`. */
  lemma {:induction false} LevelHasPath(t: Tree, d: nat, x: Tree) returns (p: Path)
    requires x in Level(t, d)
    ensures |p| == d && Subtree(t, p) == x
  {
    match t
    case Nil =>
    case Node(_, l, r) =>
      if d == 0 {
        p := [];
      } else if x in Level(l, d - 1) {
        var q := LevelHasPath(l, d - 1, x);
        p := [Left] + q;
        assert p[1..] == q;
      } else {
        var q := LevelHasPath(r, d - 1, x);
        p := [Right] + q;
        assert p[1..] == q;
      }
  }

  /** A forest of nodes has at least one node per entry. */
  lemma {:induction false} NodesCount(s: seq<Tree>)
    requires AllNodes(s)
    ensures |s| <= SizeSum(s)
  {
    if s != [] {
      NodesCount(s[1..]);
    }
  }

  /** The keys of a sequence of nodes, position by position. */
  lemma {:induction false} KeysOfNodes(s: seq<Tree>)
    requires AllNodes(s)
    ensures |KeysOf(s)| == |s|
    ensures forall i | 0 <= i < |s| :: KeysOf(s)[i] == s[i].key
  {
    if s != [] {
      KeysOfNodes(s[1..]);
    }
  }

  /** One round of a queue loop on the work list: `done` has left the queue,
      `x` is at its front and `rest` behind it. Taking `x` and appending its
      children keeps the traversal, keeps the node count, and the queue never
      holds more entries than the tree has nodes. */
  lemma WorkListStep(t: Tree, done: seq<Tree>, x: Tree, rest: seq<Tree>)
    requires x.Node? && AllNodes(rest)
    requires Visit([t]) == done + Visit([x] + rest)
    requires |done| + SizeSum([x] + rest) == Size(t)
    ensures Visit([t]) == (done + [x]) + Visit(rest + Kids(x))
    ensures |done + [x]| + SizeSum(rest + Kids(x)) == Size(t)
    ensures |done| + 1 + |rest| + |Kids(x)| <= Size(t)
  {
    VisitStep(x, rest);
    var v := Visit(rest + Kids(x));
    Assoc(done, [x], v);
    assert ([x] + rest)[0] == x && ([x] + rest)[1..] == rest;
    assert SizeSum([x] + rest) == Size(x) + SizeSum(rest);
    SizeSumConcat(rest, Kids(x));
    KidsCount(x);
    NodesCount(rest);
    KidsNodes(x);
    NodesCount(Kids(x));
  }

  lemma AllNodesConcat(s: seq<Tree>, u: seq<Tree>)
    requires AllNodes(s) && AllNodes(u)
    ensures AllNodes(s + u)
  {
    forall i | 0 <= i < |s + u| ensures (s + u)[i].Node? {
      if i >= |s| {
        assert (s + u)[i] == u[i - |s|];
      }
    }
  }

  lemma KidsNodes(t: Tree)
    ensures AllNodes(Kids(t))
  {
  }
}
