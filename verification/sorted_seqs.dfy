/** Facts about integer sequences in strictly increasing order: the shape of
    the in-order key sequence of a binary search tree. */
module SortedSeqs {
  import opened Trees

  /** Strictly increasing: ascending, with no key repeated. */
  predicate Increasing(s: seq<int>)
  {
    forall i, j | 0 <= i < j < |s| :: s[i] < s[j]
  }

  /** Every element lies in the closed range [lo, hi]. */
  predicate Within(s: seq<int>, lo: int, hi: int)
  {
    forall i | 0 <= i < |s| :: lo <= s[i] <= hi
  }

  /** Every element is below `k`. */
  predicate Below(s: seq<int>, k: int)
  {
    forall i | 0 <= i < |s| :: s[i] < k
  }

  /** Every element is above `k`. */
  predicate Above(s: seq<int>, k: int)
  {
    forall i | 0 <= i < |s| :: k < s[i]
  }

  /** A bound an element never reaches is not an element. */
  lemma BelowExcludes(s: seq<int>, k: int)
    requires Below(s, k) || Above(s, k)
    ensures k !in s
  {
  }

  /** A bound can be raised. */
  lemma BelowRaise(s: seq<int>, k: int, v: int)
    requires Below(s, k) && k <= v
    ensures Below(s, v)
  {
  }

  /** Appending an element below the bound keeps the bound. */
  lemma BelowSnoc(s: seq<int>, k: int, v: int)
    requires Below(s, v) && k < v
    ensures Below(s + [k], v)
  {
    forall i | 0 <= i < |s + [k]| ensures (s + [k])[i] < v {
      if i < |s| {
        assert (s + [k])[i] == s[i];
      }
    }
  }

  /** A sequence `a + [k] + b` is strictly increasing exactly when both sides
      are, everything in `a` is below `k` and everything in `b` above it. */
  lemma IncreasingAround(a: seq<int>, k: int, b: seq<int>)
    ensures Increasing(a + [k] + b) <==>
      Increasing(a) && Increasing(b) && Below(a, k) && Above(b, k)
  {
    var s := a + [k] + b;
    assert forall i | 0 <= i < |a| :: s[i] == a[i];
    assert s[|a|] == k;
    assert forall i | 0 <= i < |b| :: s[|a| + 1 + i] == b[i];
    if Increasing(a) && Increasing(b) && Below(a, k) && Above(b, k) {
      forall i, j | 0 <= i < j < |s|
        ensures s[i] < s[j]
      {
        if j < |a| {
        } else if j == |a| {
        } else if i < |a| {
          assert a[i] < k < b[j - |a| - 1];
        } else if i == |a| {
          assert k < b[j - |a| - 1];
        } else {
          assert s[i] == b[i - |a| - 1];
        }
      }
    }
  }

  /** Range bounds split the same way. */
  lemma WithinAround(a: seq<int>, k: int, b: seq<int>, lo: int, hi: int)
    ensures Within(a + [k] + b, lo, hi) <==>
      Within(a, lo, hi) && lo <= k <= hi && Within(b, lo, hi)
  {
    var s := a + [k] + b;
    assert forall i | 0 <= i < |a| :: s[i] == a[i];
    assert s[|a|] == k;
    assert forall i | 0 <= i < |b| :: s[|a| + 1 + i] == b[i];
    if Within(a, lo, hi) && lo <= k <= hi && Within(b, lo, hi) {
      forall i | 0 <= i < |s|
        ensures lo <= s[i] <= hi
      {
        if i > |a| {
          assert s[i] == b[i - |a| - 1];
        }
      }
    }
  }

  /** `v` placed in front of the first element it is smaller than, or at the
      end: the position that keeps an ascending sequence ascending. */
  function InsertSorted(s: seq<int>, v: int): (r: seq<int>)
    ensures multiset(r) == multiset(s) + multiset{v}
  {
    if s == [] || v < s[0] then [v] + s
    else
      assert s == [s[0]] + s[1..];
      [s[0]] + InsertSorted(s[1..], v)
  }

  /** Inserting into `a + c`, where `v` comes before the start of `c`, happens
      inside `a`. */
  lemma {:induction false} InsertSortedBefore(a: seq<int>, c: seq<int>, v: int)
    requires c == [] || v < c[0]
    ensures InsertSorted(a + c, v) == InsertSorted(a, v) + c
  {
    if a == [] {
      assert a + c == c;
    } else {
      assert (a + c)[0] == a[0] && (a + c)[1..] == a[1..] + c;
      if v < a[0] {
        Assoc([v], a, c);
      } else {
        InsertSortedBefore(a[1..], c, v);
        Assoc([a[0]], InsertSorted(a[1..], v), c);
      }
    }
  }

  /** Inserting into `a + c`, where `v` is above all of `a`, happens inside `c`. */
  lemma {:induction false} InsertSortedAfter(a: seq<int>, c: seq<int>, v: int)
    requires Below(a, v)
    ensures InsertSorted(a + c, v) == a + InsertSorted(c, v)
  {
    if a != [] {
      assert (a + c)[0] == a[0] && (a + c)[1..] == a[1..] + c;
      assert a[0] < v;
      assert Below(a[1..], v) by {
        forall i | 0 <= i < |a[1..]| ensures a[1..][i] < v {
          assert a[1..][i] == a[i + 1];
        }
      }
      InsertSortedAfter(a[1..], c, v);
      assert InsertSorted(a + c, v) == [a[0]] + InsertSorted(a[1..] + c, v);
      assert a == [a[0]] + a[1..];
      assert a + InsertSorted(c, v) == [a[0]] + (a[1..] + InsertSorted(c, v));
    } else {
      assert a + c == c;
    }
  }

  /** `s` with every occurrence of `v` deleted. */
  function Without(s: seq<int>, v: int): (r: seq<int>)
    ensures forall x :: x in r <==> x in s && x != v
    ensures |r| <= |s|
  {
    if s == [] then []
    else (if s[0] == v then [] else [s[0]]) + Without(s[1..], v)
  }

  lemma {:induction false} WithoutAppend(a: seq<int>, b: seq<int>, v: int)
    ensures Without(a + b, v) == Without(a, v) + Without(b, v)
  {
    if a != [] {
      assert (a + b)[0] == a[0] && (a + b)[1..] == a[1..] + b;
      WithoutAppend(a[1..], b, v);
    } else {
      assert a + b == b;
    }
  }

  /** Deleting from `a + [k] + b` deletes from each part. */
  lemma WithoutAround(a: seq<int>, k: int, b: seq<int>, v: int)
    ensures Without(a + [k] + b, v) == Without(a, v) + (if k == v then [] else [k]) + Without(b, v)
  {
    WithoutAppend(a + [k], b, v);
    WithoutAppend(a, [k], v);
    assert [k][1..] == [];
  }

  /** Deleting the separating key of `a + [k] + b` joins the two sides. */
  lemma WithoutSeparator(a: seq<int>, k: int, b: seq<int>)
    requires Below(a, k) && Above(b, k)
    ensures Without(a + [k] + b, k) == a + b
  {
    WithoutAround(a, k, b, k);
    BelowExcludes(a, k);
    BelowExcludes(b, k);
    WithoutAbsent(a, k);
    WithoutAbsent(b, k);
    assert a + [] == a;
  }

  /** Deleting a value that does not occur changes nothing. */
  lemma {:induction false} WithoutAbsent(s: seq<int>, v: int)
    requires v !in s
    ensures Without(s, v) == s
  {
    if s != [] {
      WithoutAbsent(s[1..], v);
      assert s == [s[0]] + s[1..];
    }
  }

  /** Deleting the first element of a strictly increasing sequence drops
      just that element. */
  lemma WithoutFirst(s: seq<int>)
    requires s != [] && Increasing(s)
    ensures Without(s, s[0]) == s[1..]
  {
    assert s[0] !in s[1..];
    WithoutAbsent(s[1..], s[0]);
  }

  /** Deleting from an increasing sequence keeps it increasing, and removes
      exactly one element when the value occurs. */
  lemma {:induction false} WithoutIncreasing(s: seq<int>, v: int)
    requires Increasing(s)
    ensures Increasing(Without(s, v))
    ensures |Without(s, v)| == if v in s then |s| - 1 else |s|
  {
    if s != [] {
      assert s == [] + [s[0]] + s[1..];
      IncreasingAround([], s[0], s[1..]);
      WithoutIncreasing(s[1..], v);
      var rest := Without(s[1..], v);
      assert Above(rest, s[0]) by {
        forall i | 0 <= i < |rest|
          ensures s[0] < rest[i]
        {
          assert rest[i] in s[1..];
        }
      }
      IncreasingAround([], s[0], rest);
      if s[0] == v {
        assert v !in s[1..];
        WithoutAbsent(s[1..], v);
      }
    }
  }
}
