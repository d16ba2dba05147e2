/**
 * The iterators of `Tree<T>` (source/ThirdParty/Tree.hpp): each constructor picks a
 * starting and an ending node, and each `operator++` walks first-child, next-sibling and
 * parent links, turning into the end iterator when it reaches the ending node.  Here the
 * walks are functions on paths, and the chain lemmas prove that stepping from the start
 * visits exactly the reference pre-order, post-order or leaf sequence of the node's subtree.
 */
module Traversal {
  import opened Wrappers
  import opened NodeTree

  /**
   * `AdvanceToNextNonDescendant`: the next sibling, else the next sibling of the nearest
   * ancestor that has one, else nothing.
   */
  function NextNonDescendant<T>(t: Tree<T>, p: Path): (r: Option<Path>)
    requires IsNode(t, p)
    ensures r.Some? ==> IsNode(t, r.value) && !(p <= r.value) && !(r.value <= p)
    decreases |p|
  {
    if p == [] then None
    else if Last(p) + 1 < ChildCount(t, Parent(p)) then
      Snoc(t, Parent(p), Last(p) + 1);
      Snoc(t, Parent(p), Last(p));
      Some(Parent(p) + [Last(p) + 1])
    else
      var r := NextNonDescendant(t, Parent(p));
      assert Parent(p) <= p;
      if r.Some? then IncomparableBelow(r.value, Parent(p), p); r else r
  }

  /** Does node `p` have a next sibling (`GetNextSibling() != nullptr`)? */
  predicate HasNextSibling<T>(t: Tree<T>, p: Path)
    requires IsNode(t, p)
  {
    p != [] && Last(p) + 1 < ChildCount(t, Parent(p))
  }

  function NextSibling<T>(t: Tree<T>, p: Path): (r: Path)
    requires IsNode(t, p) && HasNextSibling(t, p)
    ensures IsNode(t, r) && |r| == |p| && r != p && !(p <= r) && !(r <= p)
  {
    Snoc(t, Parent(p), Last(p) + 1);
    Snoc(t, Parent(p), Last(p));
    Parent(p) + [Last(p) + 1]
  }

  // ---------------------------------------------------------------------------------
  // Pre-order
  // ---------------------------------------------------------------------------------

  /** `PreOrderIterator::operator++` before the comparison with the ending node. */
  function PreOrderIncrement<T>(t: Tree<T>, p: Path): (r: Option<Path>)
    requires IsNode(t, p)
    ensures r.Some? ==> IsNode(t, r.value)
  {
    if ChildCount(t, p) > 0 then Snoc(t, p, 0); Some(p + [0]) else NextNonDescendant(t, p)
  }

  datatype Iterator = Iterator(current: Option<Path>, ending: Option<Path>)

  /** `PreOrderIterator(node)`: starts at the node and ends at its next non-descendant. */
  function BeginPreOrder<T>(t: Tree<T>, p: Path): Iterator
    requires IsNode(t, p)
  {
    Iterator(Some(p), NextNonDescendant(t, p))
  }

  /** The older `PreOrderIterator(node)` (ThirdParty/Tree.hpp) ends at the next sibling only. */
  function BeginPreOrderOlder<T>(t: Tree<T>, p: Path): Iterator
    requires IsNode(t, p)
  {
    Iterator(Some(p), if HasNextSibling(t, p) then Some(NextSibling(t, p)) else None)
  }

  function PreOrderStep<T>(t: Tree<T>, it: Iterator): Iterator
    requires it.current.Some? && IsNode(t, it.current.value)
  {
    var n := PreOrderIncrement(t, it.current.value);
    it.(current := if n == it.ending then None else n)
  }

  /** Every path of `L` lies in the subtree of `p`. */
  predicate AllBelow(L: seq<Path>, p: Path)
  {
    forall k :: 0 <= k < |L| ==> p <= L[k]
  }

  /** Stepping `PreOrderIncrement` from `L[0]` yields `L[1]`, ..., and finally `last`. */
  predicate PreChain<T>(t: Tree<T>, L: seq<Path>, last: Option<Path>)
  {
    && |L| > 0
    && (forall k :: 0 <= k < |L| ==> IsNode(t, L[k]))
    && (forall k :: 0 <= k < |L| - 1 ==> PreOrderIncrement(t, L[k]) == Some(L[k + 1]))
    && PreOrderIncrement(t, L[|L| - 1]) == last
  }

  lemma PreChainAppend<T>(t: Tree<T>, a: seq<Path>, b: seq<Path>, last: Option<Path>)
    requires |b| > 0 && PreChain(t, a, Some(b[0])) && PreChain(t, b, last)
    ensures PreChain(t, a + b, last)
  {
    var c := a + b;
    forall k | 0 <= k < |c| - 1
      ensures PreOrderIncrement(t, c[k]) == Some(c[k + 1])
    {
      if k < |a| - 1 {
      } else if k == |a| - 1 {
        assert c[k + 1] == b[0];
      } else {
        assert c[k] == b[k - |a|] && c[k + 1] == b[k - |a| + 1];
      }
    }
  }

  lemma {:induction false} PreOrderChain<T>(t: Tree<T>, p: Path)
    requires IsNode(t, p)
    ensures PreChain(t, PreOrderAt(t, p), NextNonDescendant(t, p))
    ensures AllBelow(PreOrderAt(t, p), p)
    decreases Sub(t, p), 1, 0
  {
    if ChildCount(t, p) == 0 {
      assert PreOrderAt(t, p) == [p];
    } else {
      Snoc(t, p, 0);
      PreOrderFromChain(t, p, 0);
      PreChainAppend(t, [p], PreOrderFrom(t, p, 0), NextNonDescendant(t, p));
    }
  }

  lemma {:induction false} PreOrderFromChain<T>(t: Tree<T>, p: Path, i: nat)
    requires IsNode(t, p) && i < ChildCount(t, p)
    ensures PreChain(t, PreOrderFrom(t, p, i), NextNonDescendant(t, p))
    ensures PreOrderFrom(t, p, i)[0] == p + [i]
    ensures AllBelow(PreOrderFrom(t, p, i), p)
    decreases Sub(t, p), 0, ChildCount(t, p) - i
  {
    Snoc(t, p, i);
    var head := PreOrderAt(t, p + [i]);
    var rest := PreOrderFrom(t, p, i + 1);
    PreOrderChain(t, p + [i]);
    ChildNextNonDescendant(t, p, i);
    if i + 1 < ChildCount(t, p) {
      PreOrderFromChain(t, p, i + 1);
      PreChainAppend(t, head, rest, NextNonDescendant(t, p));
    } else {
      assert PreOrderFrom(t, p, i) == head + [];
    }
    AllBelowOfChild(head, rest, p, i);
  }

  /** Past child `i` comes child `i + 1`, or past the last child whatever comes past `p`. */
  lemma ChildNextNonDescendant<T>(t: Tree<T>, p: Path, i: nat)
    requires IsNode(t, p) && i < ChildCount(t, p)
    ensures IsNode(t, p + [i])
    ensures NextNonDescendant(t, p + [i]) ==
      (if i + 1 < ChildCount(t, p) then Some(p + [i + 1]) else NextNonDescendant(t, p))
  {
    Snoc(t, p, i);
    assert Parent(p + [i]) == p && Last(p + [i]) == i;
  }

  lemma AllBelowOfChild(head: seq<Path>, rest: seq<Path>, p: Path, i: nat)
    requires AllBelow(head, p + [i]) && AllBelow(rest, p)
    ensures AllBelow(head + rest, p)
  {
    forall k | 0 <= k < |head + rest| ensures p <= (head + rest)[k] {
      if k < |head| {
        assert p <= p + [i] <= head[k];
      } else {
        assert (head + rest)[k] == rest[k - |head|];
      }
    }
  }

  /** The ending node of a pre-order walk from `p` is not one of the nodes walked. */
  lemma PreOrderEndingOutside<T>(t: Tree<T>, p: Path)
    requires IsNode(t, p)
    ensures NextNonDescendant(t, p).Some? ==> NextNonDescendant(t, p).value !in PreOrderAt(t, p)
  {
    PreOrderChain(t, p);
  }

  /**
   * The `for_each` over `PreOrderIterator{node}`: the nodes visited, in order, are
   * exactly the pre-order of the node's subtree.
   */
  method PreOrderVisit<T>(t: Tree<T>, p: Path) returns (visited: seq<Path>)
    requires IsNode(t, p)
    ensures visited == PreOrderAt(t, p)
  {
    ghost var L := PreOrderAt(t, p);
    PreOrderChain(t, p);
    PreOrderEndingOutside(t, p);
    var it := BeginPreOrder(t, p);
    visited := [];
    while it.current.Some?
      invariant |visited| <= |L| && visited == L[..|visited|]
      invariant it.ending == NextNonDescendant(t, p)
      invariant it.current == if |visited| < |L| then Some(L[|visited|]) else None
      decreases |L| - |visited|
    {
      visited := visited + [it.current.value];
      it := PreOrderStep(t, it);
    }
  }

  /**
   * When `p` is the head or has a next sibling, the older pre-order iterator ends where
   * the newer one does; otherwise the older one ends at the tree's end.
   */
  lemma OlderPreOrderEnding<T>(t: Tree<T>, p: Path)
    requires IsNode(t, p)
    ensures p == [] || HasNextSibling(t, p) ==> BeginPreOrderOlder(t, p) == BeginPreOrder(t, p)
    ensures BeginPreOrderOlder(t, p).ending.None? <==> !HasNextSibling(t, p)
  {
  }

  // ---------------------------------------------------------------------------------
  // Post-order
  // ---------------------------------------------------------------------------------

  /**
   * The node a post-order walk reaches after `p`: the leftmost leaf under the next
   * sibling, else the parent.  The iterator built on `p` also ends here.
   */
  function PostOrderSuccessor<T>(t: Tree<T>, p: Path): (r: Option<Path>)
    requires IsNode(t, p)
    ensures r.Some? ==> IsNode(t, r.value)
  {
    if HasNextSibling(t, p) then Some(LeftmostLeaf(t, NextSibling(t, p)))
    else if p == [] then None
    else PrefixIsNode(t, p, Parent(p)); Some(Parent(p))
  }

  datatype PostOrderIterator = PostOrderIterator(current: Option<Path>, ending: Option<Path>, traversingUp: bool)

  /** `PostOrderIterator(node)`: starts at the node's leftmost leaf. */
  function BeginPostOrder<T>(t: Tree<T>, p: Path): PostOrderIterator
    requires IsNode(t, p)
  {
    PostOrderIterator(Some(LeftmostLeaf(t, p)), PostOrderSuccessor(t, p), false)
  }

  /** The older constructor ends at the next sibling's leftmost leaf, or at the tree's end. */
  function BeginPostOrderOlder<T>(t: Tree<T>, p: Path): PostOrderIterator
    requires IsNode(t, p)
  {
    PostOrderIterator(Some(LeftmostLeaf(t, p)),
      if HasNextSibling(t, p) then Some(LeftmostLeaf(t, NextSibling(t, p))) else None, false)
  }

  /** `PostOrderIterator::operator++` before the comparison with the ending node. */
  function PostOrderIncrement<T>(t: Tree<T>, p: Path, up: bool): (r: (Option<Path>, bool))
    requires IsNode(t, p)
    ensures r.0.Some? ==> IsNode(t, r.0.value)
  {
    if ChildCount(t, p) > 0 && !up then (Some(LeftmostLeaf(t, p)), up)
    else if HasNextSibling(t, p) then (Some(LeftmostLeaf(t, NextSibling(t, p))), false)
    else (PostOrderSuccessor(t, p), true)
  }

  function PostOrderStep<T>(t: Tree<T>, it: PostOrderIterator): PostOrderIterator
    requires it.current.Some? && IsNode(t, it.current.value)
  {
    var (n, up) := PostOrderIncrement(t, it.current.value, it.traversingUp);
    PostOrderIterator(if n == it.ending then None else n, it.ending, up)
  }

  /**
   * The walk only reaches a node with children by climbing to it, so the descend branch
   * of `operator++` is never taken and the step is the post-order successor.
   */
  lemma PostOrderIncrementIsSuccessor<T>(t: Tree<T>, p: Path, up: bool)
    requires IsNode(t, p) && (ChildCount(t, p) > 0 ==> up)
    ensures PostOrderIncrement(t, p, up).0 == PostOrderSuccessor(t, p)
    ensures var (n, up') := PostOrderIncrement(t, p, up);
      n.Some? ==> (ChildCount(t, n.value) > 0 ==> up')
  {
  }

  predicate PostChain<T>(t: Tree<T>, L: seq<Path>, last: Option<Path>)
  {
    && |L| > 0
    && (forall k :: 0 <= k < |L| ==> IsNode(t, L[k]))
    && (forall k :: 0 <= k < |L| - 1 ==> PostOrderSuccessor(t, L[k]) == Some(L[k + 1]))
    && PostOrderSuccessor(t, L[|L| - 1]) == last
  }

  lemma PostChainAppend<T>(t: Tree<T>, a: seq<Path>, b: seq<Path>, last: Option<Path>)
    requires |b| > 0 && PostChain(t, a, Some(b[0])) && PostChain(t, b, last)
    ensures PostChain(t, a + b, last)
  {
    var c := a + b;
    forall k | 0 <= k < |c| - 1
      ensures PostOrderSuccessor(t, c[k]) == Some(c[k + 1])
    {
      if k < |a| - 1 {
      } else if k == |a| - 1 {
        assert c[k + 1] == b[0];
      } else {
        assert c[k] == b[k - |a|] && c[k + 1] == b[k - |a| + 1];
      }
    }
  }

  lemma {:induction false} PostOrderChain<T>(t: Tree<T>, p: Path)
    requires IsNode(t, p)
    ensures PostChain(t, PostOrderAt(t, p), PostOrderSuccessor(t, p))
    ensures PostOrderAt(t, p)[0] == LeftmostLeaf(t, p)
    ensures AllBelow(PostOrderAt(t, p), p)
    decreases Sub(t, p), 1, 0
  {
    if ChildCount(t, p) == 0 {
      PostOrderChainLeaf(t, p);
    } else {
      Snoc(t, p, 0);
      PostOrderFromChain(t, p, 0);
      PostOrderChainInner(t, p);
    }
  }

  lemma PostOrderChainLeaf<T>(t: Tree<T>, p: Path)
    requires IsNode(t, p) && ChildCount(t, p) == 0
    ensures PostChain(t, PostOrderAt(t, p), PostOrderSuccessor(t, p))
    ensures PostOrderAt(t, p)[0] == LeftmostLeaf(t, p)
    ensures AllBelow(PostOrderAt(t, p), p)
  {
    assert PostOrderAt(t, p) == [p];
  }

  /** The post-order walk of an inner node: the walk of its children, then the node. */
  lemma PostOrderChainInner<T>(t: Tree<T>, p: Path)
    requires IsNode(t, p) && 0 < ChildCount(t, p) && IsNode(t, p + [0])
    requires PostChain(t, PostOrderFrom(t, p, 0), Some(p))
    requires PostOrderFrom(t, p, 0)[0] == LeftmostLeaf(t, p + [0])
    requires AllBelow(PostOrderFrom(t, p, 0), p)
    ensures PostChain(t, PostOrderAt(t, p), PostOrderSuccessor(t, p))
    ensures PostOrderAt(t, p)[0] == LeftmostLeaf(t, p)
    ensures AllBelow(PostOrderAt(t, p), p)
  {
    var front := PostOrderFrom(t, p, 0);
    assert PostOrderAt(t, p) == front + [p];
    assert PostChain(t, [p], PostOrderSuccessor(t, p));
    PostChainAppend(t, front, [p], PostOrderSuccessor(t, p));
    Snoc(t, p, 0);
    assert LeftmostLeaf(t, p) == LeftmostLeaf(t, p + [0]);
    AllBelowThenSelf(front, p);
  }

  lemma AllBelowThenSelf(front: seq<Path>, p: Path)
    requires AllBelow(front, p)
    ensures AllBelow(front + [p], p)
  {
    forall k | 0 <= k < |front| + 1 ensures p <= (front + [p])[k] {
      if k < |front| { assert (front + [p])[k] == front[k]; }
    }
  }

  lemma {:induction false} PostOrderFromChain<T>(t: Tree<T>, p: Path, i: nat)
    requires IsNode(t, p) && i < ChildCount(t, p)
    ensures PostChain(t, PostOrderFrom(t, p, i), Some(p))
    ensures PostOrderFrom(t, p, i)[0] == LeftmostLeaf(t, p + [i])
    ensures AllBelow(PostOrderFrom(t, p, i), p)
    decreases Sub(t, p), 0, ChildCount(t, p) - i
  {
    Snoc(t, p, i);
    var head := PostOrderAt(t, p + [i]);
    var rest := PostOrderFrom(t, p, i + 1);
    PostOrderChain(t, p + [i]);
    if i + 1 < ChildCount(t, p) {
      Snoc(t, p, i + 1);
      assert NextSibling(t, p + [i]) == p + [i + 1];
      PostOrderFromChain(t, p, i + 1);
      PostChainAppend(t, head, rest, Some(p));
    } else {
      assert PostOrderFrom(t, p, i) == head + [];
    }
    AllBelowOfChild(head, rest, p, i);
  }

  lemma PostOrderEndingOutside<T>(t: Tree<T>, p: Path)
    requires IsNode(t, p)
    ensures PostOrderSuccessor(t, p).Some? ==> PostOrderSuccessor(t, p).value !in PostOrderAt(t, p)
  {
    PostOrderChain(t, p);
    var L := PostOrderAt(t, p);
    if HasNextSibling(t, p) {
      IncomparableBelow(p, NextSibling(t, p), LeftmostLeaf(t, NextSibling(t, p)));
    }
  }

  /** `TreeNode::CountAllDescendants`: the post-order walk from the node, less the node. */
  method CountAllDescendants<T>(t: Tree<T>, p: Path) returns (n: int)
    requires IsNode(t, p)
    ensures n == NodeCount(Sub(t, p)) - 1
  {
    var count := PostOrderWalkLength(t, p);
    n := count - 1;
  }

  /** `Tree::Size`: the length of the post-order walk from the head. */
  method Size<T>(t: Tree<T>) returns (n: nat)
    ensures n == NodeCount(t)
  {
    n := PostOrderWalkLength(t, []);
  }

  /** Counts the steps of a `PostOrderIterator` built on `p` until it reaches the end. */
  method PostOrderWalkLength<T>(t: Tree<T>, p: Path) returns (n: nat)
    requires IsNode(t, p)
    ensures n == NodeCount(Sub(t, p))
  {
    ghost var L := PostOrderAt(t, p);
    PostOrderChain(t, p);
    PostOrderEndingOutside(t, p);
    PostOrderCount(t, p);
    var it := BeginPostOrder(t, p);
    n := 0;
    while it.current.Some?
      invariant n <= |L|
      invariant it.ending == PostOrderSuccessor(t, p)
      invariant it.current == if n < |L| then Some(L[n]) else None
      invariant n < |L| ==> (ChildCount(t, L[n]) > 0 ==> it.traversingUp)
      decreases |L| - n
    {
      PostOrderIncrementIsSuccessor(t, it.current.value, it.traversingUp);
      it := PostOrderStep(t, it);
      n := n + 1;
    }
  }

  lemma {:induction false} PostOrderCount<T>(t: Tree<T>, p: Path)
    requires IsNode(t, p)
    ensures |PostOrderAt(t, p)| == NodeCount(Sub(t, p))
    decreases Sub(t, p), 1, 0
  {
    PostOrderFromCount(t, p, 0);
  }

  lemma {:induction false} PostOrderFromCount<T>(t: Tree<T>, p: Path, i: nat)
    requires IsNode(t, p) && i <= ChildCount(t, p)
    ensures |PostOrderFrom(t, p, i)| == NodeCountFrom(Sub(t, p), i)
    decreases Sub(t, p), 0, ChildCount(t, p) - i
  {
    if i < ChildCount(t, p) {
      Snoc(t, p, i);
      PostOrderCount(t, p + [i]);
      PostOrderFromCount(t, p, i + 1);
    }
  }

  // ---------------------------------------------------------------------------------
  // Leaves
  // ---------------------------------------------------------------------------------

  /** The leaf a leaf walk reaches after leaf `p`: the first leaf past `p`'s subtree. */
  function LeafSuccessor<T>(t: Tree<T>, p: Path): (r: Option<Path>)
    requires IsNode(t, p)
    ensures r.Some? ==> IsNode(t, r.value)
  {
    match NextNonDescendant(t, p)
    case None => None
    case Some(s) => Some(LeftmostLeaf(t, s))
  }

  /** `LeafIterator(node)`: starts at the node's first leaf and ends past its subtree. */
  function BeginLeaves<T>(t: Tree<T>, p: Path): Iterator
    requires IsNode(t, p)
  {
    Iterator(Some(LeftmostLeaf(t, p)), LeafSuccessor(t, p))
  }

  /**
   * `LeafIterator::operator++` as written, in Tree.hpp and in the older tree.h alike: a
   * childless node without a next sibling and without a parent is left where it is.
   */
  function LeafIncrementAsWritten<T>(t: Tree<T>, p: Path): (r: Option<Path>)
    requires IsNode(t, p)
  {
    if ChildCount(t, p) > 0 then Some(LeftmostLeaf(t, p))
    else if HasNextSibling(t, p) then Some(LeftmostLeaf(t, NextSibling(t, p)))
    else if p != [] then LeafSuccessor(t, p)
    else Some(p)
  }

  /** `operator++` with the lone head handled: past the last leaf there is nothing. */
  function LeafIncrement<T>(t: Tree<T>, p: Path): (r: Option<Path>)
    requires IsNode(t, p)
    ensures r.Some? ==> IsNode(t, r.value)
  {
    if ChildCount(t, p) > 0 then Some(LeftmostLeaf(t, p)) else LeafSuccessor(t, p)
  }

  function LeafStep<T>(t: Tree<T>, it: Iterator): Iterator
    requires it.current.Some? && IsNode(t, it.current.value)
  {
    var n := LeafIncrement(t, it.current.value);
    it.(current := if n == it.ending then None else n)
  }

  function LeafStepAsWritten<T>(t: Tree<T>, it: Iterator): Iterator
    requires it.current.Some? && IsNode(t, it.current.value)
  {
    var n := LeafIncrementAsWritten(t, it.current.value);
    it.(current := if n == it.ending then None else n)
  }

  /**
   * On a tree that is only a head, the leaf iterator as written never reaches its end:
   * one step from the first position gives back the same position.
   */
  lemma LoneHeadLeafWalkNeverEnds<T>(t: Tree<T>)
    requires t.children == []
    ensures LeavesAt(t, []) == [[]]
    ensures BeginLeaves(t, []).current == Some([])
    ensures LeafStepAsWritten(t, BeginLeaves(t, [])) == BeginLeaves(t, [])
    ensures LeafStep(t, BeginLeaves(t, [])).current == None
  {
  }

  /** Away from a lone head the two increments agree. */
  lemma LeafIncrementAgrees<T>(t: Tree<T>, p: Path)
    requires IsNode(t, p) && (p != [] || ChildCount(t, p) > 0)
    ensures LeafIncrementAsWritten(t, p) == LeafIncrement(t, p)
  {
  }

  predicate LeafChain<T>(t: Tree<T>, L: seq<Path>, last: Option<Path>)
  {
    && |L| > 0
    && (forall k :: 0 <= k < |L| ==> IsNode(t, L[k]) && ChildCount(t, L[k]) == 0)
    && (forall k :: 0 <= k < |L| - 1 ==> LeafSuccessor(t, L[k]) == Some(L[k + 1]))
    && LeafSuccessor(t, L[|L| - 1]) == last
  }

  lemma LeafChainAppend<T>(t: Tree<T>, a: seq<Path>, b: seq<Path>, last: Option<Path>)
    requires |b| > 0 && LeafChain(t, a, Some(b[0])) && LeafChain(t, b, last)
    ensures LeafChain(t, a + b, last)
  {
    var c := a + b;
    forall k | 0 <= k < |c| - 1
      ensures LeafSuccessor(t, c[k]) == Some(c[k + 1])
    {
      if k < |a| - 1 {
      } else if k == |a| - 1 {
        assert c[k + 1] == b[0];
      } else {
        assert c[k] == b[k - |a|] && c[k + 1] == b[k - |a| + 1];
      }
    }
  }

  lemma {:induction false} LeavesChain<T>(t: Tree<T>, p: Path)
    requires IsNode(t, p)
    ensures LeafChain(t, LeavesAt(t, p), LeafSuccessor(t, p))
    ensures LeavesAt(t, p)[0] == LeftmostLeaf(t, p)
    ensures AllBelow(LeavesAt(t, p), p)
    decreases Sub(t, p), 1, 0
  {
    if ChildCount(t, p) > 0 {
      Snoc(t, p, 0);
      LeavesFromChain(t, p, 0);
    }
  }

  lemma {:induction false} LeavesFromChain<T>(t: Tree<T>, p: Path, i: nat)
    requires IsNode(t, p) && i < ChildCount(t, p)
    ensures LeafChain(t, LeavesFrom(t, p, i), LeafSuccessor(t, p))
    ensures LeavesFrom(t, p, i)[0] == LeftmostLeaf(t, p + [i])
    ensures AllBelow(LeavesFrom(t, p, i), p)
    decreases Sub(t, p), 0, ChildCount(t, p) - i
  {
    Snoc(t, p, i);
    var head := LeavesAt(t, p + [i]);
    var rest := LeavesFrom(t, p, i + 1);
    assert LeavesFrom(t, p, i) == head + rest;
    LeavesChain(t, p + [i]);
    ChildLeafSuccessor(t, p, i);
    if i + 1 < ChildCount(t, p) {
      LeavesFromChain(t, p, i + 1);
    }
    JoinLeafChains(t, head, rest, LeafSuccessor(t, p + [i]), LeafSuccessor(t, p));
    AllBelowOfChild(head, rest, p, i);
  }

  /** A leaf chain followed by the chain it leads to, or by nothing, is a leaf chain. */
  lemma JoinLeafChains<T>(t: Tree<T>, a: seq<Path>, b: seq<Path>, mid: Option<Path>, last: Option<Path>)
    requires LeafChain(t, a, mid)
    requires b == [] ==> mid == last
    requires b != [] ==> mid == Some(b[0]) && LeafChain(t, b, last)
    ensures LeafChain(t, a + b, last) && (a + b)[0] == a[0]
  {
    if b == [] {
      assert a + b == a;
    } else {
      LeafChainAppend(t, a, b, last);
    }
  }

  /** Past the leaves of child `i` come those of child `i + 1`, or what comes past `p`. */
  lemma ChildLeafSuccessor<T>(t: Tree<T>, p: Path, i: nat)
    requires IsNode(t, p) && i < ChildCount(t, p)
    ensures IsNode(t, p + [i])
    ensures i + 1 < ChildCount(t, p) ==> IsNode(t, p + [i + 1])
    ensures LeafSuccessor(t, p + [i]) ==
      (if i + 1 < ChildCount(t, p) then Some(LeftmostLeaf(t, p + [i + 1])) else LeafSuccessor(t, p))
  {
    ChildNextNonDescendant(t, p, i);
  }

  lemma LeafEndingOutside<T>(t: Tree<T>, p: Path)
    requires IsNode(t, p)
    ensures LeafSuccessor(t, p).Some? ==> LeafSuccessor(t, p).value !in LeavesAt(t, p)
  {
    LeavesChain(t, p);
    var L := LeavesAt(t, p);
    var s := NextNonDescendant(t, p);
    if s.Some? {
      IncomparableBelow(p, s.value, LeftmostLeaf(t, s.value));
    }
  }

  /** `Tree::CountLeafNodes` over the leaf walk from `p`. */
  method CountLeaves<T>(t: Tree<T>, p: Path) returns (n: nat)
    requires IsNode(t, p)
    ensures n == |LeavesAt(t, p)|
  {
    ghost var L := LeavesAt(t, p);
    LeavesChain(t, p);
    LeafEndingOutside(t, p);
    var it := BeginLeaves(t, p);
    n := 0;
    while it.current.Some?
      invariant n <= |L|
      invariant it.ending == LeafSuccessor(t, p)
      invariant it.current == if n < |L| then Some(L[n]) else None
      decreases |L| - n
    {
      it := LeafStep(t, it);
      n := n + 1;
    }
  }

  // ---------------------------------------------------------------------------------
  // Sibling walks and depth
  // ---------------------------------------------------------------------------------

  /** `SiblingIterator::operator++`: to the next sibling; the end iterator stays put. */
  function SiblingIncrement<T>(t: Tree<T>, p: Option<Path>): (r: Option<Path>)
    requires p.Some? ==> IsNode(t, p.value)
    ensures r.Some? ==> IsNode(t, r.value)
  {
    if p.None? then None
    else if HasNextSibling(t, p.value) then Some(NextSibling(t, p.value))
    else None
  }

  /**
   * `SiblingIterator::operator--` of tree.h: from the end iterator of a sibling range it
   * moves to the parent's last child, or to the head when the range has no parent; from a
   * node it moves to the previous sibling.
   */
  function SiblingDecrement<T>(t: Tree<T>, p: Option<Path>, parent: Option<Path>): (r: Option<Path>)
    requires p.Some? ==> IsNode(t, p.value)
    requires parent.Some? ==> IsNode(t, parent.value)
  {
    match p
    case None =>
      (match parent
       case None => Some([])
       case Some(q) => if ChildCount(t, q) > 0 then Some(q + [ChildCount(t, q) - 1]) else None)
    case Some(q) => if q != [] && Last(q) > 0 then Some(Parent(q) + [Last(q) - 1]) else None
  }

  /** Decrementing after incrementing inside a sibling range gives back the node. */
  lemma SiblingDecrementUndoesIncrement<T>(t: Tree<T>, p: Path)
    requires IsNode(t, p) && p != []
    ensures IsNode(t, Parent(p))
      && SiblingDecrement(t, SiblingIncrement(t, Some(p)), Some(Parent(p))) == Some(p)
  {
    var q, i := Parent(p), Last(p);
    assert p == q + [i];
    IncrementStep(t, q, i);
    if i + 1 < ChildCount(t, q) {
      Snoc(t, q, i + 1);
    }
  }

  /** Incrementing the `i`-th child of `p` gives the next child, or the end of the range after the last one. */
  lemma IncrementStep<T>(t: Tree<T>, p: Path, i: nat)
    requires IsNode(t, p) && i < ChildCount(t, p)
    ensures IsNode(t, p + [i])
    ensures SiblingIncrement(t, Some(p + [i])) == if i + 1 < ChildCount(t, p) then Some(p + [i + 1]) else None
  {
    Snoc(t, p, i);
  }

  /** `visited` lists the paths of the first `|visited|` children of `p`, in order. */
  predicate FirstChildPaths(visited: seq<Path>, p: Path)
  {
    forall i :: 0 <= i < |visited| ==> visited[i] == p + [i]
  }

  lemma FirstChildPathsGrow(visited: seq<Path>, p: Path)
    requires FirstChildPaths(visited, p)
    ensures FirstChildPaths(visited + [p + [|visited|]], p)
  {
  }

  /** One `++` of the sibling iterator standing on the `k`-th child of `p`. */
  method SiblingStep<T>(t: Tree<T>, p: Path, k: nat) returns (next: Option<Path>)
    requires IsNode(t, p) && k < ChildCount(t, p)
    ensures next == if k + 1 < ChildCount(t, p) then Some(p + [k + 1]) else None
  {
    IncrementStep(t, p, k);
    next := SiblingIncrement(t, Some(p + [k]));
  }

  /** The siblings visited from the first child of `p` to the end, in order. */
  method SiblingVisit<T>(t: Tree<T>, p: Path) returns (visited: seq<Path>)
    requires IsNode(t, p)
    ensures |visited| == ChildCount(t, p)
    ensures forall i :: 0 <= i < |visited| ==> visited[i] == p + [i]
  {
    var n := ChildCount(t, p);
    var cur: Option<Path> := None;
    if n > 0 {
      Snoc(t, p, 0);
      cur := Some(p + [0]);
    }
    visited := [];
    while cur.Some?
      invariant |visited| <= n
      invariant FirstChildPaths(visited, p)
      invariant cur.Some? <==> |visited| < n
      invariant cur.Some? ==> cur.value == p + [|visited|]
      decreases n - |visited|
    {
      var k := |visited|;
      cur := SiblingStep(t, p, k);
      FirstChildPathsGrow(visited, p);
      visited := visited + [p + [k]];
    }
  }

  /** tree.h `Tree::Depth`: the number of parent links from the node up to the head. */
  method Depth<T>(t: Tree<T>, p: Path) returns (depth: nat)
    requires IsNode(t, p)
    ensures depth == |p|
  {
    depth := 0;
    var node := p;
    while node != []
      invariant depth + |node| == |p|
      decreases |node|
    {
      depth := depth + 1;
      node := Parent(node);
    }
  }

  /**
   * `Tree::Depth` of Tree.hpp takes the node by value; the copy constructor builds a fresh
   * head with no parent, so the walk up starts from a node with no parent at all.
   */
  method DepthOfCopy<T>(t: Tree<T>, p: Path) returns (depth: nat)
    requires IsNode(t, p)
    ensures depth == 0
  {
    var copy := Sub(t, p);
    depth := Depth(copy, []);
  }

  /**
   * On the tree of a head with one child, the walk up from the child counts 1, but the
   * by-value walk of the same node reports 0.
   */
  method DepthOfCopyMissesParent() returns (depth: nat, copied: nat)
    ensures depth == 1 && copied == 0
  {
    var t: Tree<int> := Node(0, [Node(0, [])]);
    Snoc(t, [], 0);
    depth := Depth(t, [0]);
    copied := DepthOfCopy(t, [0]);
  }
}
