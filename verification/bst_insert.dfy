/** Insertion into a binary search tree (111-bst_insert.c).

    The C routine walks down from the root, going left when the value is
    smaller than the current key and right when it is larger, stops with
    NULL on an equal key, and otherwise hangs a new leaf in the first empty
    child slot it meets, with the parent link set to the node it hangs from.
    Here the walk is a loop over a cursor and the path to it; the created
    node is reported by its path, so its parent is the node one step up. */
module BstInsert {
  import opened Trees
  import opened SortedSeqs
  import opened BstCheck

  /** The way the walk turns at a node with key `k` when looking for `v`. */
  function Toward(v: int, k: int): Dir
  {
    if v < k then Left else Right
  }

  /** `p` is followed by the search for `v`: every node on it has a key other
      than `v`, and each step turns the way the comparison says. */
  predicate OnSearchPath(t: Tree, v: int, p: Path)
  {
    forall i | 0 <= i < |p| ::
      Subtree(t, p[..i]).Node? && Subtree(t, p[..i]).key != v &&
      p[i] == Toward(v, Subtree(t, p[..i]).key)
  }

  /** The same descent stated recursively: None when the search meets `v`,
      otherwise the tree with a leaf holding `v` in the empty slot the search
      ends at. */
  function InsertRec(t: Tree, v: int): (r: Option<Tree>)
    ensures r.None? ==> v in Keys(t)
    ensures r.Some? ==> Keys(r.value) == Keys(t) + {v} && Size(r.value) == Size(t) + 1
  {
    match t
    case Nil => Some(Node(v, Nil, Nil))
    case Node(k, l, r) =>
      if v < k then
        match InsertRec(l, v)
        case None => None
        case Some(l') => Some(Node(k, l', r))
      else if v > k then
        match InsertRec(r, v)
        case None => None
        case Some(r') => Some(Node(k, l, r'))
      else None
  }

  /** Put a replacement subtree back at `p`, if there is one. */
  function Graft(t: Tree, p: Path, o: Option<Tree>): Option<Tree>
  {
    match o
    case None => None
    case Some(s) => Some(Replace(t, p, s))
  }

  lemma SearchPathSnoc(t: Tree, v: int, p: Path)
    requires OnSearchPath(t, v, p) && Subtree(t, p).Node? && Subtree(t, p).key != v
    ensures OnSearchPath(t, v, p + [Toward(v, Subtree(t, p).key)])
  {
    var q := p + [Toward(v, Subtree(t, p).key)];
    forall i | 0 <= i < |q|
      ensures Subtree(t, q[..i]).Node? && Subtree(t, q[..i]).key != v &&
        q[i] == Toward(v, Subtree(t, q[..i]).key)
    {
      if i < |p| {
        assert q[..i] == p[..i];
      } else {
        assert q[..i] == p;
      }
    }
  }

  /** bst_insert. `handle` is the `bst_t **tree` argument: None for a NULL
      handle, Some(Nil) for a handle to an empty tree. `after` is what the
      handle refers to afterwards and `created` the path to the new node,
      None where the C routine returns NULL. */
  method Insert(handle: Option<Tree>, value: int) returns (after: Option<Tree>, created: Option<Path>)
    ensures handle == None ==> after == None && created == None
    ensures handle == Some(Nil) ==> after == Some(Node(value, Nil, Nil)) && created == Some([])
    ensures handle.Some? && created == None ==> after == handle && value in Keys(handle.value)
    ensures handle.Some? ==> (created == None <==> InsertRec(handle.value, value) == None)
    ensures created.Some? ==> handle.Some? && after == InsertRec(handle.value, value)
    ensures created.Some? ==>
      var t, t', p := handle.value, after.value, created.value;
      && OnSearchPath(t, value, p)
      && Subtree(t, p) == Nil
      && Subtree(t', p) == Node(value, Nil, Nil)
      && t' == Replace(t, p, Node(value, Nil, Nil))
      && Keys(t') == Keys(t) + {value}
      && Size(t') == Size(t) + 1
  {
    if handle == None {
      return None, None;
    }
    var t := handle.value;
    if t == Nil {
      return Some(Node(value, Nil, Nil)), Some([]);
    }
    var cur := t;
    var path: Path := [];
    while (value < cur.key && cur.left != Nil) || (value > cur.key && cur.right != Nil)
      invariant cur.Node? && cur == Subtree(t, path)
      invariant IsSlot(t, path) && OnSearchPath(t, value, path)
      invariant InsertRec(t, value) == Graft(t, path, InsertRec(cur, value))
      decreases Size(cur)
    {
      var d := Toward(value, cur.key);
      SubtreeSnoc(t, path, d);
      ReplaceSnoc(t, path, d, Child(cur, d));
      SlotSnoc(t, path, d);
      SearchPathSnoc(t, value, path);
      match InsertRec(Child(cur, d), value) {
        case None =>
        case Some(s) => ReplaceSnoc(t, path, d, s);
      }
      assert Size(Child(cur, d)) < Size(cur);
      path := path + [d];
      cur := Child(cur, d);
    }
    if value == cur.key {
      return Some(t), None;
    }
    var d := Toward(value, cur.key);
    var leaf := Node(value, Nil, Nil);
    SubtreeSnoc(t, path, d);
    ReplaceSnoc(t, path, d, leaf);
    SlotSnoc(t, path, d);
    SearchPathSnoc(t, value, path);
    SubtreeOfReplace(t, path + [d], leaf);
    after := Some(Replace(t, path + [d], leaf));
    created := Some(path + [d]);
  }

  /** Insertion keeps every key inside the range the helper checks, so a
      tree the helper accepts stays accepted. */
  lemma {:induction false} InsertKeepsInRange(t: Tree, v: int, lo: int, hi: int)
    requires InRange(t, lo, hi) && lo <= v <= hi
    requires InsertRec(t, v).Some?
    ensures InRange(InsertRec(t, v).value, lo, hi)
  {
    match t
    case Nil =>
      InRangeBuild(v, Nil, Nil, lo, hi);
    case Node(k, l, r) =>
      InRangeNode(k, l, r, lo, hi);
      if v < k {
        InsertKeepsInRange(l, v, lo, k - 1);
        InRangeBuild(k, InsertRec(l, v).value, r, lo, hi);
      } else if v > k {
        InsertKeepsInRange(r, v, k + 1, hi);
        InRangeBuild(k, l, InsertRec(r, v).value, lo, hi);
      }
  }

  /** If the input passes binary_tree_is_bst, so does the output. */
  lemma InsertKeepsBst(t: Tree, v: int)
    requires IsBst(t) && IsInt32(v) && InsertRec(t, v).Some?
    ensures IsBst(InsertRec(t, v).value)
  {
    InsertKeepsInRange(t, v, IntMin, IntMax);
  }

  /** In a search tree the walk stops on an equal key exactly when the value
      is already stored. */
  lemma {:induction false} InsertFailsIffPresent(t: Tree, v: int)
    requires Increasing(InOrder(t))
    ensures InsertRec(t, v).None? <==> v in Keys(t)
  {
    match t
    case Nil =>
    case Node(k, l, r) =>
      IncreasingNode(t);
      if v < k {
        InsertFailsIffPresent(l, v);
      } else if v > k {
        InsertFailsIffPresent(r, v);
      }
  }

  /** Nothing else changes: the in-order sequence of the result is the old
      one with `v` inserted at its sorted position. */
  lemma {:induction false} InsertInOrder(t: Tree, v: int)
    requires Increasing(InOrder(t)) && InsertRec(t, v).Some?
    ensures InOrder(InsertRec(t, v).value) == InsertSorted(InOrder(t), v)
  {
    match t
    case Nil =>
    case Node(k, l, r) =>
      IncreasingNode(t);
      if v < k {
        InsertInOrder(l, v);
        InOrderLeftStep(k, l, r, v, InsertRec(l, v).value);
      } else if v > k {
        InsertInOrder(r, v);
        InOrderRightStep(k, l, r, v, InsertRec(r, v).value);
      }
  }

  lemma InOrderLeftStep(k: int, l: Tree, r: Tree, v: int, l': Tree)
    requires v < k && InOrder(l') == InsertSorted(InOrder(l), v)
    ensures InOrder(Node(k, l', r)) == InsertSorted(InOrder(Node(k, l, r)), v)
  {
    var a, c := InOrder(l), [k] + InOrder(r);
    InsertSortedBefore(a, c, v);
    InOrderNode(k, l, r);
    InOrderNode(k, l', r);
  }

  lemma InOrderRightStep(k: int, l: Tree, r: Tree, v: int, r': Tree)
    requires k < v && Below(InOrder(l), k) && InOrder(r') == InsertSorted(InOrder(r), v)
    ensures InOrder(Node(k, l, r')) == InsertSorted(InOrder(Node(k, l, r)), v)
  {
    var a := InOrder(l) + [k];
    BelowRaise(InOrder(l), k, v);
    BelowSnoc(InOrder(l), k, v);
    InsertSortedAfter(a, InOrder(r), v);
    InOrderUnfold(k, l, r);
    InOrderUnfold(k, l, r');
  }
}
