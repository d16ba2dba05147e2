/**
 * The n-ary tree behind `Tree<VizBlock>`, as a value.  A node is addressed by its
 * path from the head: the sequence of child indices taken from the head down to it.
 * Following `GetFirstChild` appends 0, `GetNextSibling` increments the last index and
 * `GetParent` drops it, so the pointer walks of the iterators become walks on paths.
 */
module NodeTree {
  datatype Tree<T> = Node(data: T, children: seq<Tree<T>>)

  type Path = seq<nat>

  function Parent(p: Path): Path
    requires p != []
  {
    p[..|p| - 1]
  }

  function Last(p: Path): nat
    requires p != []
  {
    p[|p| - 1]
  }

  /** Does `p` address a node of `t`? */
  predicate IsNode<T>(t: Tree<T>, p: Path)
    decreases |p|, 0
  {
    p == [] || (IsNode(t, Parent(p)) && Last(p) < |Sub(t, Parent(p)).children|)
  }

  /** The subtree rooted at the node `p`. */
  function Sub<T>(t: Tree<T>, p: Path): Tree<T>
    requires IsNode(t, p)
    decreases |p|, 1
  {
    if p == [] then t else Sub(t, Parent(p)).children[Last(p)]
  }

  /** The data stored at node `p`. */
  function At<T>(t: Tree<T>, p: Path): T
    requires IsNode(t, p)
  {
    Sub(t, p).data
  }

  /** `GetChildCount` of node `p`. */
  function ChildCount<T>(t: Tree<T>, p: Path): nat
    requires IsNode(t, p)
  {
    |Sub(t, p).children|
  }

  lemma Snoc<T>(t: Tree<T>, p: Path, i: nat)
    requires IsNode(t, p)
    ensures Parent(p + [i]) == p && Last(p + [i]) == i
    ensures IsNode(t, p + [i]) <==> i < ChildCount(t, p)
    ensures i < ChildCount(t, p) ==> Sub(t, p + [i]) == Sub(t, p).children[i]
  {
    assert (p + [i])[..|p|] == p;
  }

  lemma PrefixIsNode<T>(t: Tree<T>, p: Path, q: Path)
    requires IsNode(t, p) && q <= p
    ensures IsNode(t, q)
    decreases |p|
  {
    if q != p {
      assert q <= Parent(p);
      PrefixIsNode(t, Parent(p), q);
    }
  }

  lemma SubCons<T>(t: Tree<T>, i: nat, q: Path)
    requires i < |t.children|
    ensures IsNode(t, [i] + q) <==> IsNode(t.children[i], q)
    ensures IsNode(t.children[i], q) ==> Sub(t, [i] + q) == Sub(t.children[i], q)
    decreases |q|
  {
    if q == [] {
      assert Parent([i]) == [] && Last([i]) == i;
    } else {
      assert Parent([i] + q) == [i] + Parent(q);
      assert Last([i] + q) == Last(q);
      SubCons(t, i, Parent(q));
    }
  }

  /** A node incomparable with `s` is incomparable with everything below `s`. */
  lemma IncomparableBelow(a: Path, s: Path, e: Path)
    ensures s <= e && !(a <= s) && !(s <= a) ==> !(a <= e) && !(e <= a)
  {
    if s <= e && a <= e {
      PrefixesComparable(a, s, e);
    }
  }

  /** Two prefixes of the same path are comparable. */
  lemma PrefixesComparable(a: Path, b: Path, c: Path)
    requires a <= c && b <= c
    ensures a <= b || b <= a
  {
    if |a| <= |b| {
      assert a == c[..|a|] && b[..|a|] == c[..|a|];
    } else {
      assert b == c[..|b|] && a[..|b|] == c[..|b|];
    }
  }

  /** The first leaf reached by following `GetFirstChild` from `p`. */
  function LeftmostLeaf<T>(t: Tree<T>, p: Path): (r: Path)
    requires IsNode(t, p)
    ensures IsNode(t, r) && p <= r && ChildCount(t, r) == 0
    decreases Sub(t, p)
  {
    if ChildCount(t, p) == 0 then p
    else
      Snoc(t, p, 0);
      var r := LeftmostLeaf(t, p + [0]);
      assert p <= p + [0];
      r
  }

  // ---------------------------------------------------------------------------------
  // Reference orders.  They are written by structure (node then children, children then
  // node, leaves only), independently of the iterators' pointer walks.
  // ---------------------------------------------------------------------------------

  function PreOrderAt<T>(t: Tree<T>, p: Path): seq<Path>
    requires IsNode(t, p)
    decreases Sub(t, p), 1, 0
  {
    [p] + PreOrderFrom(t, p, 0)
  }

  function PreOrderFrom<T>(t: Tree<T>, p: Path, i: nat): seq<Path>
    requires IsNode(t, p) && i <= ChildCount(t, p)
    decreases Sub(t, p), 0, ChildCount(t, p) - i
  {
    if i == ChildCount(t, p) then []
    else
      Snoc(t, p, i);
      PreOrderAt(t, p + [i]) + PreOrderFrom(t, p, i + 1)
  }

  function PostOrderAt<T>(t: Tree<T>, p: Path): seq<Path>
    requires IsNode(t, p)
    decreases Sub(t, p), 1, 0
  {
    PostOrderFrom(t, p, 0) + [p]
  }

  function PostOrderFrom<T>(t: Tree<T>, p: Path, i: nat): seq<Path>
    requires IsNode(t, p) && i <= ChildCount(t, p)
    decreases Sub(t, p), 0, ChildCount(t, p) - i
  {
    if i == ChildCount(t, p) then []
    else
      Snoc(t, p, i);
      PostOrderAt(t, p + [i]) + PostOrderFrom(t, p, i + 1)
  }

  function LeavesAt<T>(t: Tree<T>, p: Path): seq<Path>
    requires IsNode(t, p)
    decreases Sub(t, p), 1, 0
  {
    if ChildCount(t, p) == 0 then [p] else LeavesFrom(t, p, 0)
  }

  function LeavesFrom<T>(t: Tree<T>, p: Path, i: nat): seq<Path>
    requires IsNode(t, p) && i <= ChildCount(t, p)
    decreases Sub(t, p), 0, ChildCount(t, p) - i
  {
    if i == ChildCount(t, p) then []
    else
      Snoc(t, p, i);
      LeavesAt(t, p + [i]) + LeavesFrom(t, p, i + 1)
  }

  /** Number of nodes of a tree value, head included. */
  function NodeCount<T>(t: Tree<T>): nat
    decreases t, 1
  {
    1 + NodeCountFrom(t, 0)
  }

  function NodeCountFrom<T>(t: Tree<T>, i: nat): nat
    requires i <= |t.children|
    decreases t, 0, |t.children| - i
  {
    if i == |t.children| then 0 else NodeCount(t.children[i]) + NodeCountFrom(t, i + 1)
  }

  // ---------------------------------------------------------------------------------
  // Writing the data of one node in place.
  // ---------------------------------------------------------------------------------

  /** `node.GetData() = d` for the node at `p`; nothing else changes. */
  function UpdateAt<T>(t: Tree<T>, p: Path, d: T): Tree<T>
    requires IsNode(t, p)
    decreases |p|
  {
    if p == [] then Node(d, t.children)
    else
      assert p == [p[0]] + p[1..];
      FirstIndexInRange(t, p);
      SubCons(t, p[0], p[1..]);
      Node(t.data, t.children[p[0] := UpdateAt(t.children[p[0]], p[1..], d)])
  }

  lemma UpdateAtFacts<T>(t: Tree<T>, p: Path, d: T, q: Path)
    requires IsNode(t, p)
    ensures IsNode(UpdateAt(t, p, d), q) <==> IsNode(t, q)
    ensures IsNode(t, q) ==>
      ChildCount(UpdateAt(t, p, d), q) == ChildCount(t, q) &&
      At(UpdateAt(t, p, d), q) == (if q == p then d else At(t, q))
    decreases |p|
  {
    var u := UpdateAt(t, p, d);
    if p != [] {
      FirstIndexInRange(t, p);
      assert p == [p[0]] + p[1..];
      SubCons(t, p[0], p[1..]);
      assert u == Node(t.data, t.children[p[0] := UpdateAt(t.children[p[0]], p[1..], d)]);
    }
    assert |u.children| == |t.children|;
    if q != [] {
      var j := q[0];
      assert q == [j] + q[1..];
      if j < |t.children| {
        SubCons(t, j, q[1..]);
        SubCons(u, j, q[1..]);
        if p != [] && p[0] == j {
          assert p == [j] + p[1..];
          SubCons(t, j, p[1..]);
          UpdateAtFacts(t.children[j], p[1..], d, q[1..]);
          assert q == p <==> q[1..] == p[1..];
        } else {
          assert u.children[j] == t.children[j];
        }
      } else {
        FirstIndexInRange(t, q);
        FirstIndexInRange(u, q);
      }
    }
  }

  lemma FirstIndexInRange<T>(t: Tree<T>, p: Path)
    requires p != []
    ensures IsNode(t, p) ==> p[0] < |t.children|
  {
    if IsNode(t, p) {
      PrefixIsNode(t, p, [p[0]]);
      assert Parent([p[0]]) == [] && Last([p[0]]) == p[0];
    }
  }
}
