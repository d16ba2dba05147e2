/**
 * Facts about the reference orders of `NodeTree` that the file-tree operations rely on:
 * which nodes a pre-order, post-order or leaf sequence holds, that it holds each of them
 * once, that a post-order lists every node after its children, the chain of proper
 * ancestors a parent walk visits, and the filter a highlight pass applies to a walk.
 */
module TreeOrders {
  import opened NodeTree
  import opened Traversal

  predicate Distinct<X(==)>(s: seq<X>)
  {
    forall a, b :: 0 <= a < b < |s| ==> s[a] != s[b]
  }

  lemma DistinctConcat<X>(a: seq<X>, b: seq<X>)
    requires Distinct(a) && Distinct(b)
    requires forall x :: x in a ==> x !in b
    ensures Distinct(a + b)
  {
    var c := a + b;
    forall x, y | 0 <= x < y < |c| ensures c[x] != c[y] {
      if y < |a| {
        assert c[x] == a[x] && c[y] == a[y];
      } else if x >= |a| {
        assert c[x] == b[x - |a|] && c[y] == b[y - |a|];
      } else {
        assert c[x] == a[x] && c[y] == b[y - |a|];
        assert a[x] in a;
      }
    }
  }

  // ---------------------------------------------------------------------------------
  // The parent walk
  // ---------------------------------------------------------------------------------

  /** The nodes reached by following `GetParent` from `p`: parent first, the head last. */
  function Ancestors(p: Path): seq<Path>
    decreases |p|
  {
    if p == [] then [] else [Parent(p)] + Ancestors(Parent(p))
  }

  /**
   * The parent walk from `p` visits one node per level: the k-th node is the prefix of `p`
   * that is k + 1 levels shorter, so the walk holds exactly the proper prefixes of `p`.
   */
  lemma {:induction false} AncestorsAreProperPrefixes(p: Path)
    ensures |Ancestors(p)| == |p|
    ensures forall k :: 0 <= k < |p| ==> Ancestors(p)[k] == p[..|p| - 1 - k]
    ensures forall q :: q in Ancestors(p) <==> q < p
    decreases |p|
  {
    if p != [] {
      var a := Ancestors(p);
      AncestorsAreProperPrefixes(Parent(p));
      forall k | 0 <= k < |p| ensures a[k] == p[..|p| - 1 - k] {
        if k > 0 {
          assert a[k] == Ancestors(Parent(p))[k - 1];
        }
      }
      forall q ensures q in a <==> q < p {
        if q in a {
          var k :| 0 <= k < |a| && a[k] == q;
        }
        if q < p {
          assert a[|p| - 1 - |q|] == q;
        }
      }
    }
  }

  /** Every node of the parent walk from a node is itself a node. */
  lemma AncestorsAreNodes<T>(t: Tree<T>, p: Path)
    requires IsNode(t, p)
    ensures forall q :: q in Ancestors(p) ==> IsNode(t, q)
  {
    AncestorsAreProperPrefixes(p);
    forall q | q in Ancestors(p) ensures IsNode(t, q) {
      PrefixIsNode(t, p, q);
    }
  }

  // ---------------------------------------------------------------------------------
  // Leaves
  // ---------------------------------------------------------------------------------

  lemma ChildPrefix(p: Path, i: nat, r: Path)
    requires p + [i] <= r
    ensures p <= r && |p| < |r| && r[|p|] == i
  {
    assert (p + [i])[|p|] == i;
    assert (p + [i])[..|p|] == p;
  }

  /** The leaf walk of `p` holds exactly the leaves of `p`'s subtree. */
  lemma LeavesAtMembers<T>(t: Tree<T>, p: Path, q: Path)
    requires IsNode(t, p)
    ensures q in LeavesAt(t, p) <==> IsNode(t, q) && p <= q && ChildCount(t, q) == 0
  {
    if q in LeavesAt(t, p) {
      LeavesChain(t, p);
    }
    if IsNode(t, q) && p <= q && ChildCount(t, q) == 0 {
      LeafIsInLeavesAt(t, p, q);
    }
  }

  /** Every leaf below `p` is on the leaf walk of `p`. */
  lemma {:induction false} LeafIsInLeavesAt<T>(t: Tree<T>, p: Path, q: Path)
    requires IsNode(t, p) && IsNode(t, q) && p <= q && ChildCount(t, q) == 0
    ensures q in LeavesAt(t, p)
    decreases |q| - |p|
  {
    if q == p {
      assert LeavesAt(t, p) == [p];
    } else {
      var i := q[|p|];
      assert q[..|p| + 1] == p + [i];
      PrefixIsNode(t, q, p + [i]);
      Snoc(t, p, i);
      LeafIsInLeavesAt(t, p + [i], q);
      LeafOfChildIsLeaf(t, p, i, q);
    }
  }

  lemma LeafOfChildIsLeaf<T>(t: Tree<T>, p: Path, i: nat, q: Path)
    requires IsNode(t, p) && i < ChildCount(t, p) && IsNode(t, p + [i]) && q in LeavesAt(t, p + [i])
    ensures q in LeavesAt(t, p)
  {
    LeavesFromHoldsChild(t, p, 0, i);
    assert LeavesAt(t, p) == LeavesFrom(t, p, 0);
  }

  lemma {:induction false} LeavesFromHoldsChild<T>(t: Tree<T>, p: Path, j: nat, i: nat)
    requires IsNode(t, p) && j <= i < ChildCount(t, p)
    ensures IsNode(t, p + [i])
    ensures forall r :: r in LeavesAt(t, p + [i]) ==> r in LeavesFrom(t, p, j)
    decreases i - j
  {
    Snoc(t, p, i);
    Snoc(t, p, j);
    if j < i {
      LeavesFromHoldsChild(t, p, j + 1, i);
    }
  }

  /** The leaf walk of `p` holds every leaf once. */
  lemma {:induction false} LeavesAtDistinct<T>(t: Tree<T>, p: Path)
    requires IsNode(t, p)
    ensures Distinct(LeavesAt(t, p))
    decreases Sub(t, p), 1, 0
  {
    if ChildCount(t, p) > 0 {
      LeavesFromDistinct(t, p, 0);
    }
  }

  lemma {:induction false} LeavesFromDistinct<T>(t: Tree<T>, p: Path, i: nat)
    requires IsNode(t, p) && i <= ChildCount(t, p)
    ensures Distinct(LeavesFrom(t, p, i))
    ensures forall r :: r in LeavesFrom(t, p, i) ==> p <= r && |p| < |r| && r[|p|] >= i
    decreases Sub(t, p), 0, ChildCount(t, p) - i
  {
    if i < ChildCount(t, p) {
      Snoc(t, p, i);
      LeavesAtDistinct(t, p + [i]);
      LeavesFromDistinct(t, p, i + 1);
      LeavesBelow(t, p + [i]);
      ChildBlock(LeavesAt(t, p + [i]), LeavesFrom(t, p, i + 1), p, i);
    }
  }

  lemma LeavesBelow<T>(t: Tree<T>, p: Path)
    requires IsNode(t, p)
    ensures forall r :: r in LeavesAt(t, p) ==> p <= r
  {
    LeavesChain(t, p);
  }

  /**
   * The walk of child `i` followed by the walks of the later children holds each node once
   * when each part does: the parts lie under different children of `p`.
   */
  lemma ChildBlock(a: seq<Path>, b: seq<Path>, p: Path, i: nat)
    requires Distinct(a) && Distinct(b)
    requires forall r :: r in a ==> p + [i] <= r
    requires forall r :: r in b ==> p <= r && |p| < |r| && r[|p|] >= i + 1
    ensures Distinct(a + b)
    ensures forall r :: r in a + b ==> p <= r && |p| < |r| && r[|p|] >= i
  {
    forall r | r in a ensures p <= r && |p| < |r| && r[|p|] == i {
      ChildPrefix(p, i, r);
    }
    DistinctConcat(a, b);
  }

  // ---------------------------------------------------------------------------------
  // Post-order
  // ---------------------------------------------------------------------------------

  /** The post-order of `p` holds exactly the nodes of `p`'s subtree. */
  lemma PostOrderAtMembers<T>(t: Tree<T>, p: Path, q: Path)
    requires IsNode(t, p)
    ensures q in PostOrderAt(t, p) <==> IsNode(t, q) && p <= q
  {
    if q in PostOrderAt(t, p) {
      PostOrderChain(t, p);
    }
    if IsNode(t, q) && p <= q {
      NodeIsInPostOrderAt(t, p, q);
    }
  }

  /** Every node below `p`, `p` included, is in the post-order of `p`. */
  lemma {:induction false} NodeIsInPostOrderAt<T>(t: Tree<T>, p: Path, q: Path)
    requires IsNode(t, p) && IsNode(t, q) && p <= q
    ensures q in PostOrderAt(t, p)
    decreases |q| - |p|
  {
    if q == p {
      PostOrderChain(t, p);
    } else {
      var i := q[|p|];
      assert q[..|p| + 1] == p + [i];
      PrefixIsNode(t, q, p + [i]);
      Snoc(t, p, i);
      NodeIsInPostOrderAt(t, p + [i], q);
      PostOrderFromHoldsChild(t, p, 0, i);
    }
  }

  lemma {:induction false} PostOrderFromHoldsChild<T>(t: Tree<T>, p: Path, j: nat, i: nat)
    requires IsNode(t, p) && j <= i < ChildCount(t, p)
    ensures IsNode(t, p + [i])
    ensures forall r :: r in PostOrderAt(t, p + [i]) ==> r in PostOrderFrom(t, p, j)
    decreases i - j
  {
    Snoc(t, p, i);
    Snoc(t, p, j);
    if j < i {
      PostOrderFromHoldsChild(t, p, j + 1, i);
    }
  }

  /** The post-order of `p` holds every node once. */
  lemma {:induction false} PostOrderAtDistinct<T>(t: Tree<T>, p: Path)
    requires IsNode(t, p)
    ensures Distinct(PostOrderAt(t, p))
    decreases Sub(t, p), 1, 0
  {
    PostOrderFromDistinct(t, p, 0);
    forall r | r in PostOrderFrom(t, p, 0) ensures r !in [p] {
    }
    DistinctConcat(PostOrderFrom(t, p, 0), [p]);
  }

  lemma {:induction false} PostOrderFromDistinct<T>(t: Tree<T>, p: Path, i: nat)
    requires IsNode(t, p) && i <= ChildCount(t, p)
    ensures Distinct(PostOrderFrom(t, p, i))
    ensures forall r :: r in PostOrderFrom(t, p, i) ==> p <= r && |p| < |r| && r[|p|] >= i
    decreases Sub(t, p), 0, ChildCount(t, p) - i
  {
    if i < ChildCount(t, p) {
      Snoc(t, p, i);
      PostOrderAtDistinct(t, p + [i]);
      PostOrderFromDistinct(t, p, i + 1);
      PostOrderBelow(t, p + [i]);
      ChildBlock(PostOrderAt(t, p + [i]), PostOrderFrom(t, p, i + 1), p, i);
    }
  }

  lemma PostOrderBelow<T>(t: Tree<T>, p: Path)
    requires IsNode(t, p)
    ensures forall r :: r in PostOrderAt(t, p) ==> p <= r
  {
    PostOrderChain(t, p);
  }

  /** Every node of `L` comes after all of its children. */
  predicate ChildrenFirst<T>(t: Tree<T>, L: seq<Path>)
  {
    && (forall k :: 0 <= k < |L| ==> IsNode(t, L[k]))
    && (forall k, i :: 0 <= k < |L| && IsNode(t, L[k]) && 0 <= i < ChildCount(t, L[k]) ==> L[k] + [i] in L[..k])
  }

  lemma ChildrenFirstConcat<T>(t: Tree<T>, a: seq<Path>, b: seq<Path>)
    requires ChildrenFirst(t, a) && ChildrenFirst(t, b)
    ensures ChildrenFirst(t, a + b)
  {
    var c := a + b;
    forall k, i | 0 <= k < |c| && IsNode(t, c[k]) && 0 <= i < ChildCount(t, c[k])
      ensures c[k] + [i] in c[..k]
    {
      if k < |a| {
        assert c[k] == a[k] && c[..k] == a[..k];
      } else {
        assert c[k] == b[k - |a|];
        var x := c[k] + [i];
        assert x in b[..k - |a|];
        var m :| 0 <= m < k - |a| && b[m] == x;
        assert c[|a| + m] == x;
      }
    }
  }

  /** A post-order lists every node after all of its children. */
  lemma {:induction false} PostOrderChildrenFirst<T>(t: Tree<T>, p: Path)
    requires IsNode(t, p)
    ensures ChildrenFirst(t, PostOrderAt(t, p))
    decreases Sub(t, p), 1, 0
  {
    var f := PostOrderFrom(t, p, 0);
    var c := f + [p];
    PostOrderFromChildrenFirst(t, p, 0);
    PostOrderChain(t, p);
    forall k, i | 0 <= k < |c| && IsNode(t, c[k]) && 0 <= i < ChildCount(t, c[k])
      ensures c[k] + [i] in c[..k]
    {
      if k < |f| {
        assert c[k] == f[k] && c[..k] == f[..k];
      } else {
        assert c[k] == p && c[..k] == f;
        ChildBeforeParent(t, p, i);
      }
    }
  }

  /** Each child of `p` is on the walk of `p`'s children. */
  lemma ChildBeforeParent<T>(t: Tree<T>, p: Path, i: nat)
    requires IsNode(t, p) && i < ChildCount(t, p)
    ensures p + [i] in PostOrderFrom(t, p, 0)
  {
    PostOrderFromHoldsChild(t, p, 0, i);
    PostOrderChain(t, p + [i]);
    assert PostOrderAt(t, p + [i])[|PostOrderAt(t, p + [i])| - 1] == p + [i];
  }

  lemma {:induction false} PostOrderFromChildrenFirst<T>(t: Tree<T>, p: Path, i: nat)
    requires IsNode(t, p) && i <= ChildCount(t, p)
    ensures ChildrenFirst(t, PostOrderFrom(t, p, i))
    decreases Sub(t, p), 0, ChildCount(t, p) - i
  {
    if i < ChildCount(t, p) {
      Snoc(t, p, i);
      PostOrderChildrenFirst(t, p + [i]);
      PostOrderFromChildrenFirst(t, p, i + 1);
      ChildrenFirstConcat(t, PostOrderAt(t, p + [i]), PostOrderFrom(t, p, i + 1));
    }
  }

  // ---------------------------------------------------------------------------------
  // The filter a highlight pass applies to a walk
  // ---------------------------------------------------------------------------------

  /** The nodes of `L` whose data passes `keep`, in the order of `L`. */
  function Select<T>(t: Tree<T>, L: seq<Path>, keep: T -> bool): (r: seq<Path>)
    requires forall q :: q in L ==> IsNode(t, q)
    ensures forall q :: q in r <==> q in L && keep(At(t, q))
    ensures |r| <= |L|
    decreases |L|
  {
    if L == [] then []
    else
      var r := Select(t, L[..|L| - 1], keep);
      assert L == L[..|L| - 1] + [L[|L| - 1]];
      r + (if keep(At(t, L[|L| - 1])) then [L[|L| - 1]] else [])
  }

  /** Filtering a walk that holds each node once gives each node once. */
  lemma {:induction false} SelectDistinct<T>(t: Tree<T>, L: seq<Path>, keep: T -> bool)
    requires forall q :: q in L ==> IsNode(t, q)
    requires Distinct(L)
    ensures Distinct(Select(t, L, keep))
    decreases |L|
  {
    if L != [] {
      var front := L[..|L| - 1];
      assert L == front + [L[|L| - 1]];
      SelectDistinct(t, front, keep);
      var r := Select(t, front, keep);
      if keep(At(t, L[|L| - 1])) {
        forall x | x in r ensures x !in [L[|L| - 1]] {
        }
        DistinctConcat(r, [L[|L| - 1]]);
      } else {
        assert Select(t, L, keep) == r + [];
      }
    }
  }

  /** When every node of the walk passes, nothing is filtered out. */
  lemma {:induction false} SelectAll<T>(t: Tree<T>, L: seq<Path>, keep: T -> bool)
    requires forall q :: q in L ==> IsNode(t, q) && keep(At(t, q))
    ensures Select(t, L, keep) == L
    decreases |L|
  {
    if L != [] {
      assert L == L[..|L| - 1] + [L[|L| - 1]];
      SelectAll(t, L[..|L| - 1], keep);
    }
  }

  /** Two filters that agree on every node of the walk select the same nodes. */
  lemma {:induction false} SelectAgrees<T>(t: Tree<T>, L: seq<Path>, keep: T -> bool, keep': T -> bool)
    requires forall q :: q in L ==> IsNode(t, q) && keep(At(t, q)) == keep'(At(t, q))
    ensures Select(t, L, keep) == Select(t, L, keep')
    decreases |L|
  {
    if L != [] {
      assert L == L[..|L| - 1] + [L[|L| - 1]];
      SelectAgrees(t, L[..|L| - 1], keep, keep');
    }
  }

  /** One more step of a walk adds the step's node when it passes. */
  lemma SelectStep<T>(t: Tree<T>, L: seq<Path>, n: nat, keep: T -> bool)
    requires forall q :: q in L ==> IsNode(t, q)
    requires n < |L|
    ensures forall q :: q in L[..n + 1] ==> IsNode(t, q)
    ensures Select(t, L[..n + 1], keep) ==
      Select(t, L[..n], keep) + (if keep(At(t, L[n])) then [L[n]] else [])
  {
    assert L[..n + 1][..n] == L[..n];
  }
}
