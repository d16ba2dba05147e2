/**
 * The linked `TreeNode<T>` of source/ThirdParty/Tree.hpp (and its earlier copies in
 * ThirdParty/Tree.hpp and tree.h): every node holds parent, first-child, last-child,
 * previous-sibling and next-sibling links and a child count, and the operations below
 * rewrite those links in place.  The ghost field `children` lists a node's children in
 * sibling order; `ChildrenValid` ties the links of the node and of its children to it.
 */
module LinkedTree {

  /** No element occurs twice. */
  ghost predicate Distinct<X>(s: seq<X>)
  {
    forall i, j :: 0 <= i < j < |s| ==> s[i] != s[j]
  }

  /** The position of `x` in `s`. */
  ghost function IndexOf<X>(s: seq<X>, x: X): (i: nat)
    requires x in s
    ensures i < |s| && s[i] == x
  {
    if s[0] == x then 0 else 1 + IndexOf(s[1..], x)
  }

  /** The node as a frame: nothing when null. */
  ghost function Opt<T>(n: TreeNode?<T>): set<TreeNode<T>>
  {
    if n == null then {} else {n}
  }

  class TreeNode<T> {
    const data: T
    var parent: TreeNode?<T>
    var firstChild: TreeNode?<T>
    var lastChild: TreeNode?<T>
    var previousSibling: TreeNode?<T>
    var nextSibling: TreeNode?<T>
    var childCount: nat
    var visited: bool
    ghost var children: seq<TreeNode<T>>

    /**
     * The count, the first and last child, and every child's parent and sibling links
     * agree with `children`.
     */
    ghost predicate ChildrenValid()
      reads this`childCount, this`firstChild, this`lastChild, this`children
      reads children`parent, children`previousSibling, children`nextSibling
    {
      && childCount == |children|
      && this !in children
      && Distinct(children)
      && (if children == [] then firstChild == null && lastChild == null
          else firstChild == children[0] && lastChild == children[|children| - 1])
      && (forall i :: 0 <= i < |children| ==> children[i].parent == this)
      && (children != [] ==> children[0].previousSibling == null)
      && (children != [] ==> children[|children| - 1].nextSibling == null)
      && (forall i :: 0 < i < |children| ==> children[i].previousSibling == children[i - 1])
      && (forall i :: 0 <= i < |children| - 1 ==> children[i].nextSibling == children[i + 1])
    }

    /** A node that is not linked to any sibling. */
    ghost predicate Unlinked()
      reads this`previousSibling, this`nextSibling
    {
      previousSibling == null && nextSibling == null
    }

    /** `TreeNode(data)`: all links null, no children, not visited. */
    constructor (d: T)
      ensures data == d && !visited
      ensures parent == null && Unlinked()
      ensures children == [] && ChildrenValid()
    {
      data := d;
      parent := null;
      firstChild := null;
      lastChild := null;
      previousSibling := null;
      nextSibling := null;
      childCount := 0;
      visited := false;
      children := [];
    }

    function HasBeenVisited(): bool
      reads this
    {
      visited
    }

    method MarkVisited(v: bool)
      modifies this`visited
      ensures HasBeenVisited() == v
    {
      visited := v;
    }

    /** `HasChildren`: the count is positive exactly when there are children. */
    function HasChildren(): (r: bool)
      reads this, children
      requires ChildrenValid()
      ensures r <==> children != []
      ensures r <==> firstChild != null
    {
      childCount > 0
    }

    /** `GetChildCount`: the number of direct children. */
    function GetChildCount(): (n: nat)
      reads this, children
      requires ChildrenValid()
      ensures n == |children|
      ensures n > 0 <==> HasChildren()
    {
      childCount
    }

    /** `AddFirstChild`: only reached with no children; the child becomes first and last. */
    method AddFirstChild(child: TreeNode<T>) returns (r: TreeNode<T>)
      requires ChildrenValid() && childCount == 0
      requires child != this && child.parent == this && child.Unlinked()
      modifies this`firstChild, this`lastChild, this`childCount, this`children
      ensures r == child && firstChild == child && lastChild == child && childCount == 1
      ensures children == [child] && ChildrenValid()
    {
      firstChild := child;
      lastChild := firstChild;
      childCount := childCount + 1;
      children := [child];
      r := firstChild;
    }

    /**
     * `AppendChild(child)`: the child becomes the last child with this node as parent,
     * the old last child links forward to it, and the earlier children keep their order.
     */
    method AppendChild(child: TreeNode<T>) returns (r: TreeNode<T>)
      requires ChildrenValid()
      requires child != this && child !in children && child.Unlinked()
      modifies this`firstChild, this`lastChild, this`childCount, this`children
      modifies child`parent, child`previousSibling, children`nextSibling
      ensures r == child && child.parent == this
      ensures children == old(children) + [child] && childCount == old(childCount) + 1
      ensures ChildrenValid()
    {
      child.parent := this;
      if lastChild == null {
        r := AddFirstChild(child);
        return;
      }
      ghost var C := children;
      lastChild.nextSibling := child;
      child.previousSibling := lastChild;
      lastChild := child;
      childCount := childCount + 1;
      children := children + [child];
      r := lastChild;
      forall k | 0 <= k < |children|
        ensures children[k].previousSibling == (if k == 0 then null else children[k - 1])
        ensures children[k].nextSibling == (if k == |children| - 1 then null else children[k + 1])
      {
        if k < |C| {
          assert children[k] == C[k];
          assert k > 0 ==> children[k - 1] == C[k - 1];
        } else {
          assert children[k] == child;
          assert child.previousSibling == C[|C| - 1];
          assert children[k - 1] == C[|C| - 1];
        }
      }
    }

    /** `PrependChild(child)`: the mirror image of `AppendChild` at the front. */
    method PrependChild(child: TreeNode<T>) returns (r: TreeNode<T>)
      requires ChildrenValid()
      requires child != this && child !in children && child.Unlinked()
      modifies this`firstChild, this`lastChild, this`childCount, this`children
      modifies child`parent, child`nextSibling, children`previousSibling
      ensures r == child && child.parent == this
      ensures children == [child] + old(children) && childCount == old(childCount) + 1
      ensures ChildrenValid()
    {
      child.parent := this;
      if firstChild == null {
        r := AddFirstChild(child);
        return;
      }
      ghost var C := children;
      firstChild.previousSibling := child;
      child.nextSibling := firstChild;
      firstChild := child;
      childCount := childCount + 1;
      children := [child] + children;
      r := firstChild;
      forall k | 0 <= k < |children|
        ensures children[k].previousSibling == (if k == 0 then null else children[k - 1])
        ensures children[k].nextSibling == (if k == |children| - 1 then null else children[k + 1])
      {
        if k > 0 {
          assert children[k] == C[k - 1];
          assert k < |children| - 1 ==> children[k + 1] == C[k];
        } else {
          assert children[1] == C[0];
        }
      }
    }

    /** `AppendChild(data)`: a new node holding `data` becomes the last child. */
    method AppendData(d: T) returns (r: TreeNode<T>)
      requires ChildrenValid()
      modifies this`firstChild, this`lastChild, this`childCount, this`children, children`nextSibling
      ensures fresh(r) && r.data == d && r.parent == this && r.children == []
      ensures children == old(children) + [r] && ChildrenValid()
    {
      var node := new TreeNode(d);
      r := AppendChild(node);
    }

    /** `PrependChild(data)`: a new node holding `data` becomes the first child. */
    method PrependData(d: T) returns (r: TreeNode<T>)
      requires ChildrenValid()
      modifies this`firstChild, this`lastChild, this`childCount, this`children, children`previousSibling
      ensures fresh(r) && r.data == d && r.parent == this && r.children == []
      ensures children == [r] + old(children) && ChildrenValid()
    {
      var node := new TreeNode(d);
      r := PrependChild(node);
    }

    /**
     * `DetachFromTree`: the siblings on either side are linked to each other, the parent's
     * first or last child moves past this node when it was at an end (both are cleared
     * when it was the only child), and the parent's count drops by one.  The node keeps
     * its own stale links.
     */
    method DetachFromTree() returns (r: TreeNode<T>)
      requires parent == null ==> Unlinked()
      requires parent != null ==> parent.ChildrenValid() && this in parent.children
      modifies Opt(parent)`firstChild, Opt(parent)`lastChild, Opt(parent)`childCount, Opt(parent)`children
      modifies Opt(previousSibling)`nextSibling, Opt(nextSibling)`previousSibling
      ensures r == this
      ensures parent != null ==> DetachedFrom(parent, old(parent.children), this)
    {
      ghost var C := if parent == null then [] else parent.children;
      ghost var i := if parent == null then 0 else IndexOf(C, this);
      RelinkSiblings(C, i);
      r := this;
      if parent == null {
        return;
      }
      parent.DropDetachedChild(this, C, i);
    }

    /**
     * The parent's half of `DetachFromTree`, once the siblings of `x = C[i]` have been
     * linked past it.
     */
    method DropDetachedChild(x: TreeNode<T>, ghost C: seq<TreeNode<T>>, ghost i: nat)
      requires ChildrenOf(this, C) && LinksWithout(C, i) && C[i] == x && IndexOf(C, x) == i
      requires x.previousSibling == (if i == 0 then null else C[i - 1])
      requires x.nextSibling == (if i == |C| - 1 then null else C[i + 1])
      modifies this`firstChild, this`lastChild, this`childCount, this`children
      ensures DetachedFrom(this, C, x)
    {
      if firstChild == lastChild {
        assert |C| == 1;
        firstChild := null;
        lastChild := null;
      } else if firstChild == x {
        firstChild := firstChild.nextSibling;
      } else if lastChild == x {
        lastChild := lastChild.previousSibling;
      }
      childCount := childCount - 1;
      children := C[..i] + C[i + 1..];
      RemovalKeepsLinks(this, C, i);
    }

    /**
     * The sibling half shared by `DetachFromTree` and tree.h `RemoveFromTree`: the
     * previous and next siblings are linked to each other, or the one that exists is
     * made an end of the chain.
     */
    method RelinkSiblings(ghost C: seq<TreeNode<T>>, ghost i: nat)
      requires parent == null ==> Unlinked()
      requires parent != null ==> parent.ChildrenValid() && parent.children == C && i < |C| && C[i] == this
      modifies Opt(previousSibling)`nextSibling, Opt(nextSibling)`previousSibling
      ensures parent != null ==>
        && ChildrenOf(parent, C)
        && LinksWithout(C, i)
        && previousSibling == (if i == 0 then null else C[i - 1])
        && nextSibling == (if i == |C| - 1 then null else C[i + 1])
    {
      if parent == null {
        return;
      }
      NeighbourLinks(parent, i);
      if previousSibling != null && nextSibling != null {
        previousSibling.nextSibling := nextSibling;
        nextSibling.previousSibling := previousSibling;
      } else if previousSibling != null {
        previousSibling.nextSibling := null;
      } else if nextSibling != null {
        nextSibling.previousSibling := null;
      }
      forall k | 0 < k < |C| && k != i + 1 ensures C[k].previousSibling == C[k - 1] {
        assert old(C[k].previousSibling) == C[k - 1];
      }
      forall k | 0 <= k < |C| - 1 && k + 1 != i ensures C[k].nextSibling == C[k + 1] {
        assert old(C[k].nextSibling) == C[k + 1];
      }
    }

    /**
     * tree.h `RemoveFromTree`: clears the parent link of every child, links the siblings
     * on either side to each other, moves the parent's last child back when this node was
     * last (its first child forward when it was first), clears this node's child links
     * and decrements the parent's count.  When this node was the only child, the parent's
     * first and last child still point at it.
     */
    method RemoveFromTree()
      requires ChildrenValid() && parent !in children
      requires parent == null ==> Unlinked()
      requires parent != null ==> parent.ChildrenValid() && this in parent.children
      modifies children`parent, this`firstChild, this`lastChild
      modifies Opt(parent)`firstChild, Opt(parent)`lastChild, Opt(parent)`childCount, Opt(parent)`children
      modifies Opt(previousSibling)`nextSibling, Opt(nextSibling)`previousSibling
      ensures Orphaned(old(children))
      ensures firstChild == null && lastChild == null
      ensures parent != null ==> RemovedFrom(parent, old(parent.children), this)
    {
      OrphanChildren();
      UnlinkFromParent();
    }

    /** The sibling and parent half of tree.h `RemoveFromTree`. */
    method UnlinkFromParent()
      requires parent == null ==> Unlinked()
      requires parent != null ==> parent.ChildrenValid() && this in parent.children
      modifies Opt(parent)`firstChild, Opt(parent)`lastChild, Opt(parent)`childCount, Opt(parent)`children
      modifies Opt(previousSibling)`nextSibling, Opt(nextSibling)`previousSibling
      ensures parent != null ==> RemovedFrom(parent, old(parent.children), this)
    {
      ghost var C := if parent == null then [] else parent.children;
      ghost var i := if parent == null then 0 else IndexOf(C, this);
      RelinkSiblings(C, i);
      if parent != null {
        parent.DropRemovedChild(this, C, i);
        assert C == old(parent.children);
      }
    }

    /**
     * The parent's half of tree.h `RemoveFromTree`, once the siblings of `x = C[i]` have
     * been linked past it: an end moves only when `x` has exactly one sibling link.
     */
    method DropRemovedChild(x: TreeNode<T>, ghost C: seq<TreeNode<T>>, ghost i: nat)
      requires ChildrenOf(this, C) && LinksWithout(C, i) && C[i] == x && IndexOf(C, x) == i
      requires x.previousSibling == (if i == 0 then null else C[i - 1])
      requires x.nextSibling == (if i == |C| - 1 then null else C[i + 1])
      modifies this`firstChild, this`lastChild, this`childCount, this`children
      ensures RemovedFrom(this, C, x)
    {
      if x.previousSibling != null && x.nextSibling == null {
        lastChild := x.previousSibling;
      } else if x.nextSibling != null && x.previousSibling == null {
        firstChild := x.nextSibling;
      }
      childCount := childCount - 1;
      children := C[..i] + C[i + 1..];
      if |C| > 1 {
        RemovalKeepsLinks(this, C, i);
      } else {
        assert firstChild == x;
      }
    }

    /**
     * The child half of `RemoveFromTree`: the walk runs through a reference to the first
     * child field itself, so it clears every child's parent link and leaves that field
     * null; the last child link is cleared too.
     */
    method OrphanChildren()
      requires ChildrenValid() && parent !in children
      requires parent != null ==> parent.ChildrenValid() && this in parent.children
      modifies children`parent, this`firstChild, this`lastChild
      ensures Orphaned(children) && firstChild == null && lastChild == null
      ensures parent != null ==> parent.ChildrenValid()
    {
      ghost var K := children;
      if parent != null {
        forall k | 0 <= k < |K| ensures K[k] !in parent.children {
          assert K[k].parent == this;
        }
      }
      ClearParents(K);
      firstChild := null;
      lastChild := null;
    }

    /** The walk of `RemoveFromTree` down the children, through the first child field. */
    method ClearParents(ghost K: seq<TreeNode<T>>)
      requires firstChild == Head(K)
      requires (forall k :: 0 <= k < |K| - 1 ==> K[k].nextSibling == K[k + 1])
      requires K != [] ==> K[|K| - 1].nextSibling == null
      modifies K`parent, this`firstChild
      ensures Orphaned(K) && firstChild == null
    {
      ghost var n := 0;
      while firstChild != null
        invariant n <= |K|
        invariant firstChild == if n < |K| then K[n] else null
        invariant forall k :: 0 <= k < n ==> K[k].parent == null
        invariant forall k :: 0 <= k < |K| - 1 ==> K[k].nextSibling == K[k + 1]
        invariant K != [] ==> K[|K| - 1].nextSibling == null
        decreases |K| - n
      {
        firstChild.parent := null;
        firstChild := firstChild.nextSibling;
        n := n + 1;
      }
    }

    /**
     * `SortChildren`: a merge sort of the next-sibling chain that starts at the first
     * child.  The first child becomes the head of the sorted chain; the previous-sibling
     * links and the last child are not brought up to date.
     */
    method SortChildren(before: (T, T) -> bool)
      requires ChildrenValid() && AsymmetricOn(children, before)
      modifies this`firstChild, this`children, children`nextSibling, children`previousSibling
      ensures Chain(children) && firstChild == Head(children)
      ensures multiset(children) == multiset(old(children))
      ensures SortedBy(children, before)
    {
      if firstChild == null {
        return;
      }
      firstChild, children := MergeSort(firstChild, children, before);
    }

    /**
     * `MergeSort`: a chain of fewer than two nodes is left alone; a longer one is divided,
     * both halves are sorted, and the sorted halves are merged.
     */
    static method MergeSort(list: TreeNode?<T>, ghost L: seq<TreeNode<T>>, before: (T, T) -> bool)
      returns (sorted: TreeNode?<T>, ghost R: seq<TreeNode<T>>)
      requires Chain(L) && list == Head(L) && AsymmetricOn(L, before)
      modifies L`nextSibling, L`previousSibling
      ensures Chain(R) && sorted == Head(R)
      ensures multiset(R) == multiset(L) && SortedBy(R, before)
      decreases |L|, 0
    {
      ShortChain(L);
      if list == null || list.nextSibling == null {
        return list, L;
      }
      var lhs, rhs, A, B := DivideList(list, L);
      SplitHalves(L, A, B, before);
      ghost var A0, B0 := A, B;
      lhs, A := SortBeside(lhs, A, B, before);
      rhs, B := SortBeside(rhs, B, A, before);
      SortedHalves(L, A0, B0, A, B, before);
      sorted, R := MergeSortedHalves(lhs, rhs, A, B, before);
    }

    /** Sorts the chain `L`, leaving the chain `K`, which shares no node with it, as it was. */
    static method SortBeside(list: TreeNode?<T>, ghost L: seq<TreeNode<T>>, ghost K: seq<TreeNode<T>>,
                             before: (T, T) -> bool)
      returns (sorted: TreeNode?<T>, ghost R: seq<TreeNode<T>>)
      requires Chain(L) && list == Head(L) && AsymmetricOn(L, before)
      requires Chain(K) && forall x :: x in K ==> x !in L
      modifies L`nextSibling, L`previousSibling
      ensures Chain(R) && sorted == Head(R) && Chain(K)
      ensures multiset(R) == multiset(L) && SortedBy(R, before)
      ensures forall x :: x in K ==> x !in R
      decreases |L|, 1
    {
      sorted, R := MergeSort(list, L, before);
      SameElements(R, L);
      forall k | 0 <= k < |K| ensures K[k].nextSibling == old(K[k].nextSibling) {
        assert K[k] in K;
      }
    }

    /**
     * `DivideList`: the hare moves two links for every one of the tortoise, so the
     * tortoise stops at the last node of the first half, whose next link is cut.  A chain
     * of fewer than two nodes is not divided.
     */
    static method DivideList(head: TreeNode?<T>, ghost L: seq<TreeNode<T>>)
      returns (lhs: TreeNode?<T>, rhs: TreeNode?<T>, ghost A: seq<TreeNode<T>>, ghost B: seq<TreeNode<T>>)
      requires Chain(L) && head == Head(L)
      modifies L`nextSibling
      ensures |L| < 2 ==> lhs == null && rhs == null && A == L && B == []
      ensures |L| >= 2 ==>
        && A == L[..(|L| + 1) / 2] && B == L[(|L| + 1) / 2..]
        && Chain(A) && Chain(B) && lhs == A[0] && rhs == B[0]
    {
      lhs, rhs, A, B := null, null, L, [];
      assert |L| >= 2 ==> head.nextSibling == L[1];
      if head == null || head.nextSibling == null {
        return;
      }
      var tortoise := head;
      var hare := head.nextSibling;
      ghost var t, h := 0, 1;
      while hare != null
        invariant t < h <= |L|
        invariant h == 2 * t + 1 || (h == 2 * t + 2 && h == |L|)
        invariant tortoise == L[t] && hare == (if h < |L| then L[h] else null)
        decreases |L| - h
      {
        assert hare == L[h] && h == 2 * t + 1;
        hare := hare.nextSibling;
        h := h + 1;
        assert hare == (if h < |L| then L[h] else null);
        if hare != null {
          assert tortoise.nextSibling == L[t + 1];
          tortoise := tortoise.nextSibling;
          hare := hare.nextSibling;
          t, h := t + 1, h + 1;
        }
      }
      lhs := head;
      rhs := tortoise.nextSibling;
      tortoise.nextSibling := null;
      A, B := L[..t + 1], L[t + 1..];
      forall k | 0 <= k < |A| - 1 ensures A[k].nextSibling == A[k + 1] {
        assert A[k] == L[k] && A[k + 1] == L[k + 1];
      }
      forall k | 0 <= k < |B| - 1 ensures B[k].nextSibling == B[k + 1] {
        assert B[k] == L[t + 1 + k] && B[k + 1] == L[t + 2 + k];
      }
    }

    /**
     * `MergeSortedHalves`: repeatedly moves the lesser head of the two sorted chains to the
     * tail of the result (the left one unless the comparator puts the right one first),
     * then appends what is left of either chain.
     */
    static method MergeSortedHalves(lhs0: TreeNode<T>, rhs0: TreeNode<T>, ghost A: seq<TreeNode<T>>,
                                    ghost B: seq<TreeNode<T>>, before: (T, T) -> bool)
      returns (result: TreeNode<T>, ghost R: seq<TreeNode<T>>)
      requires Chain(A) && Chain(B) && A != [] && B != [] && lhs0 == A[0] && rhs0 == B[0]
      requires MergeInputs(A, B, before)
      modifies A`nextSibling, A`previousSibling, B`nextSibling, B`previousSibling
      ensures Chain(R) && R != [] && result == R[0]
      ensures multiset(R) == multiset(A + B) && SortedBy(R, before)
    {
      var lhs, rhs;
      ghost var i, j;
      result, lhs, rhs, i, j, R := TakeFirst(lhs0, rhs0, A, B, before);
      result.previousSibling := null;
      var tail := result;
      tail, lhs, rhs, i, j, R := MergeWhileBoth(tail, lhs, rhs, A, B, i, j, R, before);
      tail, lhs, rhs, i, j, R := AppendRemaining(tail, lhs, rhs, A, B, i, j, R, before);
      MergeDone(A, B, i, j, R, tail, before);
    }

    /** The head of the merged chain: the head of the left half unless the right one goes first. */
    static method TakeFirst(lhs0: TreeNode<T>, rhs0: TreeNode<T>, ghost A: seq<TreeNode<T>>,
                            ghost B: seq<TreeNode<T>>, before: (T, T) -> bool)
      returns (result: TreeNode<T>, lhs: TreeNode?<T>, rhs: TreeNode?<T>,
               ghost i: nat, ghost j: nat, ghost R: seq<TreeNode<T>>)
      requires Chain(A) && Chain(B) && A != [] && B != [] && lhs0 == A[0] && rhs0 == B[0]
      requires MergeInputs(A, B, before)
      ensures Merging(A, B, i, j, R, result, lhs, rhs, before) && R == [result]
    {
      if before(lhs0.data, rhs0.data) {
        TakeLeft(A, B, 0, 0, [], before);
        result, lhs, rhs, i, j := lhs0, lhs0.nextSibling, rhs0, 1, 0;
      } else {
        TakeRight(A, B, 0, 0, [], before);
        result, lhs, rhs, i, j := rhs0, lhs0, rhs0.nextSibling, 0, 1;
      }
      R := [result];
    }

    /** The first loop of the merge: runs while both halves have nodes left. */
    static method MergeWhileBoth(tail0: TreeNode<T>, lhs0: TreeNode?<T>, rhs0: TreeNode?<T>,
                                 ghost A: seq<TreeNode<T>>, ghost B: seq<TreeNode<T>>,
                                 ghost i0: nat, ghost j0: nat, ghost R0: seq<TreeNode<T>>, before: (T, T) -> bool)
      returns (tail: TreeNode<T>, lhs: TreeNode?<T>, rhs: TreeNode?<T>,
               ghost i: nat, ghost j: nat, ghost R: seq<TreeNode<T>>)
      requires MergeInputs(A, B, before) && Merging(A, B, i0, j0, R0, tail0, lhs0, rhs0, before)
      modifies A`nextSibling, A`previousSibling, B`nextSibling, B`previousSibling
      ensures Merging(A, B, i, j, R, tail, lhs, rhs, before) && R[0] == R0[0]
      ensures lhs == null || rhs == null
    {
      tail, lhs, rhs, i, j, R := tail0, lhs0, rhs0, i0, j0, R0;
      while lhs != null && rhs != null
        invariant Merging(A, B, i, j, R, tail, lhs, rhs, before) && R[0] == R0[0]
        decreases |A| + |B| - |R|
      {
        var takeLeft := before(lhs.data, rhs.data);
        tail, lhs, rhs, i, j, R := MoveToTail(tail, lhs, rhs, A, B, i, j, R, takeLeft, before);
      }
    }

    /** The last two loops of the merge: whichever half still has nodes is linked on whole. */
    static method AppendRemaining(tail0: TreeNode<T>, lhs0: TreeNode?<T>, rhs0: TreeNode?<T>,
                                  ghost A: seq<TreeNode<T>>, ghost B: seq<TreeNode<T>>,
                                  ghost i0: nat, ghost j0: nat, ghost R0: seq<TreeNode<T>>, before: (T, T) -> bool)
      returns (tail: TreeNode<T>, lhs: TreeNode?<T>, rhs: TreeNode?<T>,
               ghost i: nat, ghost j: nat, ghost R: seq<TreeNode<T>>)
      requires MergeInputs(A, B, before) && Merging(A, B, i0, j0, R0, tail0, lhs0, rhs0, before)
      requires lhs0 == null || rhs0 == null
      modifies A`nextSibling, A`previousSibling, B`nextSibling, B`previousSibling
      ensures Merging(A, B, i, j, R, tail, lhs, rhs, before) && R[0] == R0[0]
      ensures lhs == null && rhs == null
    {
      tail, lhs, rhs, i, j, R := tail0, lhs0, rhs0, i0, j0, R0;
      while lhs != null
        invariant Merging(A, B, i, j, R, tail, lhs, rhs, before) && R[0] == R0[0]
        invariant lhs != null ==> rhs == null
        decreases |A| + |B| - |R|
      {
        tail, lhs, rhs, i, j, R := MoveToTail(tail, lhs, rhs, A, B, i, j, R, true, before);
      }
      while rhs != null
        invariant Merging(A, B, i, j, R, tail, lhs, rhs, before) && R[0] == R0[0]
        invariant lhs == null
        decreases |A| + |B| - |R|
      {
        tail, lhs, rhs, i, j, R := MoveToTail(tail, lhs, rhs, A, B, i, j, R, false, before);
      }
    }

    /**
     * One step of a merge loop: the head of the half named by `fromLeft` is linked after
     * the tail and becomes the new tail, and that half moves on to its next node.
     */
    static method MoveToTail(tail0: TreeNode<T>, lhs0: TreeNode?<T>, rhs0: TreeNode?<T>,
                             ghost A: seq<TreeNode<T>>, ghost B: seq<TreeNode<T>>,
                             ghost i0: nat, ghost j0: nat, ghost R0: seq<TreeNode<T>>,
                             fromLeft: bool, before: (T, T) -> bool)
      returns (tail: TreeNode<T>, lhs: TreeNode?<T>, rhs: TreeNode?<T>,
               ghost i: nat, ghost j: nat, ghost R: seq<TreeNode<T>>)
      requires MergeInputs(A, B, before) && Merging(A, B, i0, j0, R0, tail0, lhs0, rhs0, before)
      requires fromLeft ==> lhs0 != null && (rhs0 != null ==> before(lhs0.data, rhs0.data))
      requires !fromLeft ==> rhs0 != null && (lhs0 != null ==> !before(lhs0.data, rhs0.data))
      modifies A`nextSibling, A`previousSibling, B`nextSibling, B`previousSibling
      ensures Merging(A, B, i, j, R, tail, lhs, rhs, before)
      ensures R == R0 + [tail] && tail == (if fromLeft then lhs0 else rhs0)
      ensures fromLeft ==> rhs == rhs0
      ensures !fromLeft ==> lhs == lhs0
    {
      if fromLeft {
        tail, lhs, i, R := MoveLeftHead(tail0, lhs0, rhs0, A, B, i0, j0, R0, before);
        rhs, j := rhs0, j0;
      } else {
        tail, rhs, j, R := MoveRightHead(tail0, lhs0, rhs0, A, B, i0, j0, R0, before);
        lhs, i := lhs0, i0;
      }
    }

    /** `MoveToTail` taking the head of the left half. */
    static method MoveLeftHead(tail0: TreeNode<T>, lhs0: TreeNode?<T>, rhs0: TreeNode?<T>,
                               ghost A: seq<TreeNode<T>>, ghost B: seq<TreeNode<T>>,
                               ghost i0: nat, ghost j0: nat, ghost R0: seq<TreeNode<T>>, before: (T, T) -> bool)
      returns (tail: TreeNode<T>, lhs: TreeNode?<T>, ghost i: nat, ghost R: seq<TreeNode<T>>)
      requires MergeInputs(A, B, before) && Merging(A, B, i0, j0, R0, tail0, lhs0, rhs0, before)
      requires lhs0 != null && (rhs0 != null ==> before(lhs0.data, rhs0.data))
      modifies A`nextSibling, A`previousSibling, B`nextSibling, B`previousSibling
      ensures Merging(A, B, i, j0, R, tail, lhs, rhs0, before)
      ensures R == R0 + [tail] && tail == lhs0
    {
      assert lhs0 == A[i0];
      TakeLeft(A, B, i0, j0, R0, before);
      i, R := i0 + 1, R0 + [A[i0]];
      tail, lhs := LinkHead(tail0, lhs0, A, B, i0, j0, R0, true);
    }

    /** `MoveToTail` taking the head of the right half. */
    static method MoveRightHead(tail0: TreeNode<T>, lhs0: TreeNode?<T>, rhs0: TreeNode?<T>,
                                ghost A: seq<TreeNode<T>>, ghost B: seq<TreeNode<T>>,
                                ghost i0: nat, ghost j0: nat, ghost R0: seq<TreeNode<T>>, before: (T, T) -> bool)
      returns (tail: TreeNode<T>, rhs: TreeNode?<T>, ghost j: nat, ghost R: seq<TreeNode<T>>)
      requires MergeInputs(A, B, before) && Merging(A, B, i0, j0, R0, tail0, lhs0, rhs0, before)
      requires rhs0 != null && (lhs0 != null ==> !before(lhs0.data, rhs0.data))
      modifies A`nextSibling, A`previousSibling, B`nextSibling, B`previousSibling
      ensures Merging(A, B, i0, j, R, tail, lhs0, rhs, before)
      ensures R == R0 + [tail] && tail == rhs0
    {
      assert rhs0 == B[j0];
      TakeRight(A, B, i0, j0, R0, before);
      j, R := j0 + 1, R0 + [B[j0]];
      tail, rhs := LinkHead(tail0, rhs0, A, B, i0, j0, R0, false);
    }

    /**
     * The links of one merge step: `head` goes after the tail and becomes the new tail,
     * and the node after it, if any, has its previous link cleared.
     */
    static method LinkHead(tail: TreeNode<T>, head: TreeNode<T>, ghost A: seq<TreeNode<T>>,
                           ghost B: seq<TreeNode<T>>, ghost i: nat, ghost j: nat,
                           ghost R: seq<TreeNode<T>>, ghost fromLeft: bool)
      returns (newTail: TreeNode<T>, rest: TreeNode?<T>)
      requires Distinct(A + B) && Distinct(R) && MergeLinks(A, B, i, j, R)
      requires R != [] && tail == R[|R| - 1] && Apart(tail, A, B, i, j) && (tail in A || tail in B)
      requires fromLeft ==> i < |A| && head == A[i]
      requires !fromLeft ==> j < |B| && head == B[j]
      modifies A`nextSibling, A`previousSibling, B`nextSibling, B`previousSibling
      ensures newTail == head && newTail.nextSibling == rest
      ensures fromLeft ==> MergeLinks(A, B, i + 1, j, R + [head]) && rest == At(A, i + 1)
      ensures !fromLeft ==> MergeLinks(A, B, i, j + 1, R + [head]) && rest == At(B, j + 1)
    {
      ghost var next := if fromLeft then At(A, i + 1) else At(B, j + 1);
      assert head.nextSibling == next && (next == null || next in A || next in B);
      tail.nextSibling := head;
      newTail := tail.nextSibling;
      rest := head.nextSibling;
      if rest != null {
        rest.previousSibling := null;
      }
    }
  }

  /** `p` is the parent of each of the distinct nodes `C`, and their count and ends agree. */
  ghost predicate ChildrenOf<T>(p: TreeNode<T>, C: seq<TreeNode<T>>)
    reads p`childCount, p`firstChild, p`lastChild, p`children, C`parent
  {
    && C != [] && p.children == C && p.childCount == |C|
    && p.firstChild == C[0] && p.lastChild == C[|C| - 1]
    && ParentLinks(p, C)
  }

  /** `p` is the parent of each of the distinct nodes `C`. */
  ghost predicate ParentLinks<T>(p: TreeNode<T>, C: seq<TreeNode<T>>)
    reads C`parent
  {
    Distinct(C) && p !in C && (forall k :: 0 <= k < |C| ==> C[k].parent == p)
  }

  /** None of `K` has a parent any more. */
  ghost predicate Orphaned<T>(K: seq<TreeNode<T>>)
    reads K`parent
  {
    forall k :: 0 <= k < |K| ==> K[k].parent == null
  }

  /**
   * The sibling links of `C` once `C[i]` has been bypassed: every link is as in `C`
   * except that `C[i]`'s neighbours now point at each other.
   */
  ghost predicate LinksWithout<T>(C: seq<TreeNode<T>>, i: nat)
    reads C`previousSibling, C`nextSibling
  {
    && i < |C|
    && C[0].previousSibling == null && C[|C| - 1].nextSibling == null
    && (forall k :: 0 < k < |C| && k != i + 1 ==> C[k].previousSibling == C[k - 1])
    && (forall k :: 0 <= k < |C| - 1 && k + 1 != i ==> C[k].nextSibling == C[k + 1])
    && (i + 1 < |C| ==> C[i + 1].previousSibling == (if i == 0 then null else C[i - 1]))
    && (i > 0 ==> C[i - 1].nextSibling == (if i + 1 < |C| then C[i + 1] else null))
  }

  /** `p` is valid over the children `C` it had, less `x`, and its count dropped by one. */
  ghost predicate DetachedFrom<T>(p: TreeNode<T>, C: seq<TreeNode<T>>, x: TreeNode<T>)
    reads p`childCount, p`firstChild, p`lastChild, p`children
    reads p.children`parent, p.children`previousSibling, p.children`nextSibling
  {
    && x in C
    && var i := IndexOf(C, x);
    && p.children == C[..i] + C[i + 1..] && p.childCount == |C| - 1 && p.ChildrenValid()
  }

  /**
   * What tree.h leaves in `p` once `x`, one of its children `C`, has been removed: with
   * siblings left, as `DetachedFrom`; as the only child, `x` is still `p`'s first and last
   * child although the count is zero.
   */
  ghost predicate RemovedFrom<T>(p: TreeNode<T>, C: seq<TreeNode<T>>, x: TreeNode<T>)
    reads p`childCount, p`firstChild, p`lastChild, p`children
    reads p.children`parent, p.children`previousSibling, p.children`nextSibling
  {
    if |C| > 1 then DetachedFrom(p, C, x)
    else x in C && p.childCount == 0 && p.firstChild == x && p.lastChild == x && !p.ChildrenValid()
  }

  /** The siblings of the `i`-th child are its neighbours in the parent's list. */
  lemma NeighbourLinks<T>(p: TreeNode<T>, i: nat)
    requires p.ChildrenValid() && i < |p.children|
    ensures var C := p.children;
      && C[i].previousSibling == (if i == 0 then null else C[i - 1])
      && C[i].nextSibling == (if i == |C| - 1 then null else C[i + 1])
      && (forall k :: 0 <= k < |C| && k != i ==> C[k] != C[i])
  {
  }

  /**
   * Once the neighbours of `C[i]` point past it, and the first and last child have been
   * moved past it, the links agree with `C` without `C[i]`.
   */
  lemma RemovalKeepsLinks<T>(p: TreeNode<T>, C: seq<TreeNode<T>>, i: nat)
    requires i < |C| && ParentLinks(p, C) && LinksWithout(C, i)
    requires p.children == C[..i] + C[i + 1..] && p.childCount == |C| - 1
    requires |C| == 1 ==> p.firstChild == null && p.lastChild == null
    requires |C| > 1 ==> p.firstChild == (if i == 0 then C[1] else C[0])
    requires |C| > 1 ==> p.lastChild == (if i == |C| - 1 then C[|C| - 2] else C[|C| - 1])
    ensures IndexOf(C, C[i]) == i ==> DetachedFrom(p, C, C[i])
  {
    RemovedIndexing(C, i);
    LinksAfterRemoval(C, i);
  }

  /** Once the neighbours of `C[i]` point past it, `C` without `C[i]` is linked in order. */
  lemma LinksAfterRemoval<T>(C: seq<TreeNode<T>>, i: nat)
    requires i < |C| && LinksWithout(C, i)
    ensures var D := C[..i] + C[i + 1..];
      && (D != [] ==> D[0].previousSibling == null && D[|D| - 1].nextSibling == null)
      && (forall k :: 0 < k < |D| ==> D[k].previousSibling == D[k - 1])
      && (forall k :: 0 <= k < |D| - 1 ==> D[k].nextSibling == D[k + 1])
  {
    var D := C[..i] + C[i + 1..];
    forall k | 0 <= k < |D|
      ensures D[k] == (if k < i then C[k] else C[k + 1])
    {
    }
    forall k | 0 < k < |D| ensures D[k].previousSibling == D[k - 1] {
      assert D[k - 1] == (if k - 1 < i then C[k - 1] else C[k]);
    }
    forall k | 0 <= k < |D| - 1 ensures D[k].nextSibling == D[k + 1] {
      assert D[k + 1] == (if k + 1 < i then C[k + 1] else C[k + 2]);
    }
  }

  /** Dropping the `i`-th element shifts the later ones down and keeps them distinct. */
  lemma RemovedIndexing<X>(C: seq<X>, i: nat)
    requires i < |C| && Distinct(C)
    ensures var D := C[..i] + C[i + 1..];
      && |D| == |C| - 1
      && (forall k :: 0 <= k < |D| ==> D[k] == (if k < i then C[k] else C[k + 1]))
      && Distinct(D)
      && (forall x :: x in D ==> x in C)
  {
    var D := C[..i] + C[i + 1..];
    forall a, b | 0 <= a < b < |D| ensures D[a] != D[b] {
      var a' := if a < i then a else a + 1;
      var b' := if b < i then b else b + 1;
      assert D[a] == C[a'] && D[b] == C[b'];
    }
  }

  // ---------------------------------------------------------------------------------
  // Merge sort of a next-sibling chain
  // ---------------------------------------------------------------------------------

  /** On the nodes `L`, `before` is a strict order in the comparator's sense: never both ways round. */
  ghost predicate AsymmetricOn<T>(L: seq<TreeNode<T>>, before: (T, T) -> bool)
  {
    forall x, y :: x in L && y in L && before(x.data, y.data) ==> !before(y.data, x.data)
  }

  /** The distinct nodes `L`, each linked to the next, the last to nothing. */
  ghost predicate Chain<T>(L: seq<TreeNode<T>>)
    reads L`nextSibling
  {
    && Distinct(L)
    && (forall k :: 0 <= k < |L| - 1 ==> L[k].nextSibling == L[k + 1])
    && (L != [] ==> L[|L| - 1].nextSibling == null)
  }

  /** The node a chain starts from: null for the empty chain. */
  ghost function Head<T>(L: seq<TreeNode<T>>): TreeNode?<T>
  {
    if L == [] then null else L[0]
  }

  /** No node of `L` is put before the node just ahead of it. */
  ghost predicate SortedBy<T>(L: seq<TreeNode<T>>, before: (T, T) -> bool)
  {
    forall k :: 0 < k < |L| ==> !before(L[k].data, L[k - 1].data)
  }

  /**
   * Mid-merge, as far as the order goes: `R` holds the first `i` nodes of `A` and the first
   * `j` of `B`, sorted, and neither remaining head goes before the last node of `R`.
   */
  ghost predicate MergeOrder<T>(A: seq<TreeNode<T>>, B: seq<TreeNode<T>>, i: nat, j: nat,
                                R: seq<TreeNode<T>>, before: (T, T) -> bool)
  {
    && i <= |A| && j <= |B| && |R| == i + j
    && multiset(R) == multiset(A[..i]) + multiset(B[..j]) && Distinct(R)
    && SortedBy(R, before)
    && (R != [] && i < |A| ==> !before(A[i].data, R[|R| - 1].data))
    && (R != [] && j < |B| ==> !before(B[j].data, R[|R| - 1].data))
  }

  /** Mid-merge, as far as the links go: `R` and what is left of `A` and `B` are chains. */
  ghost predicate MergeLinks<T>(A: seq<TreeNode<T>>, B: seq<TreeNode<T>>, i: nat, j: nat,
                                R: seq<TreeNode<T>>)
    reads A`nextSibling, B`nextSibling, R`nextSibling
  {
    && i <= |A| && j <= |B|
    && (forall k :: 0 <= k < |R| - 1 ==> R[k].nextSibling == R[k + 1])
    && (forall k :: i <= k < |A| - 1 ==> A[k].nextSibling == A[k + 1])
    && (i < |A| ==> A[|A| - 1].nextSibling == null)
    && (forall k :: j <= k < |B| - 1 ==> B[k].nextSibling == B[k + 1])
    && (j < |B| ==> B[|B| - 1].nextSibling == null)
  }

  /** Mid-merge, the whole state: `tail` ends `R`, and `lhs` and `rhs` are what is left of each half. */
  ghost predicate Merging<T>(A: seq<TreeNode<T>>, B: seq<TreeNode<T>>, i: nat, j: nat, R: seq<TreeNode<T>>,
                             tail: TreeNode<T>, lhs: TreeNode?<T>, rhs: TreeNode?<T>, before: (T, T) -> bool)
    reads A`nextSibling, B`nextSibling, R`nextSibling, tail`nextSibling
  {
    && MergeOrder(A, B, i, j, R, before) && MergeLinks(A, B, i, j, R)
    && R != [] && tail == R[|R| - 1] && lhs == At(A, i) && rhs == At(B, j)
    && (tail.nextSibling == lhs || tail.nextSibling == rhs)
  }

  /** The halves to be merged: disjoint, each sorted, and ordered asymmetrically. */
  ghost predicate MergeInputs<T>(A: seq<TreeNode<T>>, B: seq<TreeNode<T>>, before: (T, T) -> bool)
  {
    Distinct(A + B) && SortedBy(A, before) && SortedBy(B, before) && AsymmetricOn(A + B, before)
  }

  /** The node at position `i` of `A`, or null past its end. */
  ghost function At<T>(A: seq<TreeNode<T>>, i: nat): TreeNode?<T>
  {
    if i < |A| then A[i] else null
  }

  /** `x` is none of the nodes still to be merged. */
  ghost predicate Apart<T>(x: TreeNode<T>, A: seq<TreeNode<T>>, B: seq<TreeNode<T>>, i: nat, j: nat)
  {
    (forall k :: i <= k < |A| ==> A[k] != x) && (forall k :: j <= k < |B| ==> B[k] != x)
  }

  /** Taking the head of `A` keeps the merge in order, and the old tail is not still to be merged. */
  lemma TakeLeft<T>(A: seq<TreeNode<T>>, B: seq<TreeNode<T>>, i: nat, j: nat,
                    R: seq<TreeNode<T>>, before: (T, T) -> bool)
    requires MergeInputs(A, B, before) && MergeOrder(A, B, i, j, R, before) && i < |A|
    requires j < |B| ==> before(A[i].data, B[j].data)
    ensures MergeOrder(A, B, i + 1, j, R + [A[i]], before)
    ensures R != [] ==> Apart(R[|R| - 1], A, B, i, j) && (R[|R| - 1] in A || R[|R| - 1] in B)
  {
    assert A[..i + 1] == A[..i] + [A[i]];
    RemainingApart(A, B, i, j, R);
    AppendDistinct(R, A[i]);
    if R != [] {
      assert R[|R| - 1] in R;
    }
  }

  /** Taking the head of `B` keeps the merge in order, and the old tail is not still to be merged. */
  lemma TakeRight<T>(A: seq<TreeNode<T>>, B: seq<TreeNode<T>>, i: nat, j: nat,
                     R: seq<TreeNode<T>>, before: (T, T) -> bool)
    requires MergeInputs(A, B, before) && MergeOrder(A, B, i, j, R, before) && j < |B|
    requires i < |A| ==> !before(A[i].data, B[j].data)
    ensures MergeOrder(A, B, i, j + 1, R + [B[j]], before)
    ensures R != [] ==> Apart(R[|R| - 1], A, B, i, j) && (R[|R| - 1] in A || R[|R| - 1] in B)
  {
    assert B[..j + 1] == B[..j] + [B[j]];
    RemainingApart(A, B, i, j, R);
    AppendDistinct(R, B[j]);
    if R != [] {
      assert R[|R| - 1] in R;
    }
  }

  /** Adding an element that is not there yet keeps a sequence free of repeats. */
  lemma AppendDistinct<X>(R: seq<X>, x: X)
    requires Distinct(R) && x !in R
    ensures Distinct(R + [x])
  {
    var S := R + [x];
    forall a, b | 0 <= a < b < |S| ensures S[a] != S[b] {
      assert S[a] == R[a];
      if b < |R| {
        assert S[b] == R[b];
      }
    }
  }

  /** The merged nodes are none of the nodes still to be merged. */
  lemma RemainingApart<T>(A: seq<TreeNode<T>>, B: seq<TreeNode<T>>, i: nat, j: nat, R: seq<TreeNode<T>>)
    requires i <= |A| && j <= |B| && Distinct(A + B)
    requires multiset(R) == multiset(A[..i]) + multiset(B[..j])
    ensures forall x :: x in R ==> Apart(x, A, B, i, j) && (x in A || x in B)
  {
    forall x | x in R ensures Apart(x, A, B, i, j) && (x in A || x in B) {
      assert x in multiset(R);
      assert x in A[..i] || x in B[..j];
      forall k | i <= k < |A| ensures A[k] != x {
        if x in A[..i] {
          var m :| 0 <= m < i && A[m] == x;
          assert (A + B)[m] == x && (A + B)[k] == A[k];
        } else {
          var m :| 0 <= m < j && B[m] == x;
          assert (A + B)[|A| + m] == x && (A + B)[k] == A[k];
        }
      }
      forall k | j <= k < |B| ensures B[k] != x {
        if x in A[..i] {
          var m :| 0 <= m < i && A[m] == x;
          assert (A + B)[m] == x && (A + B)[|A| + k] == B[k];
        } else {
          var m :| 0 <= m < j && B[m] == x;
          assert (A + B)[|A| + m] == x && (A + B)[|A| + k] == B[k];
        }
      }
    }
  }

  /** A finished merge is a sorted chain holding exactly the nodes of both halves. */
  lemma MergeDone<T>(A: seq<TreeNode<T>>, B: seq<TreeNode<T>>, i: nat, j: nat, R: seq<TreeNode<T>>,
                     tail: TreeNode<T>, before: (T, T) -> bool)
    requires Merging(A, B, i, j, R, tail, null, null, before)
    ensures Chain(R) && multiset(R) == multiset(A + B) && SortedBy(R, before)
  {
    assert A[..|A|] == A && B[..|B|] == B;
  }

  /** A chain whose head has no next node holds at most one node. */
  lemma ShortChain<T>(L: seq<TreeNode<T>>)
    requires Chain(L)
    ensures (Head(L) == null || Head(L).nextSibling == null) <==> |L| < 2
  {
    if |L| >= 2 {
      assert L[0].nextSibling == L[1];
    }
  }

  /** The halves of a chain without repeats are apart, and each inherits the asymmetry of the order. */
  lemma SplitHalves<T>(L: seq<TreeNode<T>>, A: seq<TreeNode<T>>, B: seq<TreeNode<T>>, before: (T, T) -> bool)
    requires Distinct(L) && AsymmetricOn(L, before)
    requires |A| <= |L| && A == L[..|A|] && B == L[|A|..]
    ensures A + B == L && AsymmetricOn(A, before) && AsymmetricOn(B, before)
    ensures forall x :: x in A ==> x !in B
    ensures forall x :: x in B ==> x !in A
  {
    assert A + B == L;
    DisjointHalves(L, |A|);
  }

  /** Two sequences that are rearrangements of each other hold the same elements. */
  lemma SameElements<X>(s: seq<X>, t: seq<X>)
    requires multiset(s) == multiset(t)
    ensures |s| == |t| && forall x :: x in s <==> x in t
  {
    assert |multiset(s)| == |s| && |multiset(t)| == |t|;
    forall x ensures x in s <==> x in t {
      assert x in s <==> x in multiset(s);
      assert x in t <==> x in multiset(t);
    }
  }

  /** Sorted rearrangements of the two halves of a chain are fit to be merged back into it. */
  lemma SortedHalves<T>(L: seq<TreeNode<T>>, A0: seq<TreeNode<T>>, B0: seq<TreeNode<T>>,
                        A: seq<TreeNode<T>>, B: seq<TreeNode<T>>, before: (T, T) -> bool)
    requires A0 + B0 == L && Distinct(L) && AsymmetricOn(L, before)
    requires multiset(A) == multiset(A0) && multiset(B) == multiset(B0)
    requires SortedBy(A, before) && SortedBy(B, before)
    ensures MergeInputs(A, B, before) && multiset(A + B) == multiset(L)
    ensures forall k :: 0 <= k < |A| ==> A[k] in L
    ensures forall k :: 0 <= k < |B| ==> B[k] in L
  {
    assert multiset(A + B) == multiset(L);
    PermutationDistinct(A + B, L);
    SameElements(A + B, L);
    forall k | 0 <= k < |A| ensures A[k] in L {
      assert A[k] in A + B;
    }
    forall k | 0 <= k < |B| ensures B[k] in L {
      assert B[k] in A + B;
    }
  }

  /** The two parts of a sequence without repeats share no element. */
  lemma DisjointHalves<X>(L: seq<X>, m: nat)
    requires Distinct(L) && m <= |L|
    ensures forall x :: x in L[..m] ==> x !in L[m..]
  {
    forall x | x in L[..m] ensures x !in L[m..] {
      var a :| 0 <= a < m && L[a] == x;
      forall b | 0 <= b < |L| - m ensures L[m..][b] != x {
        assert L[m..][b] == L[m + b];
      }
    }
  }

  /** A rearrangement of a sequence without repeats has no repeats. */
  lemma PermutationDistinct<X>(s: seq<X>, t: seq<X>)
    requires multiset(s) == multiset(t) && Distinct(t)
    ensures Distinct(s)
  {
    forall a, b | 0 <= a < b < |s| ensures s[a] != s[b] {
      RepeatCounted(s, a, b);
      DistinctCount(t, s[a]);
    }
  }

  /** An element at two positions occurs at least twice. */
  lemma RepeatCounted<X>(s: seq<X>, a: nat, b: nat)
    requires a < b < |s|
    ensures s[a] == s[b] ==> multiset(s)[s[a]] >= 2
  {
    assert s == s[..a] + [s[a]] + s[a + 1..b] + [s[b]] + s[b + 1..];
  }

  /** In a sequence without repeats nothing occurs twice. */
  lemma {:induction false} DistinctCount<X>(t: seq<X>, x: X)
    requires Distinct(t)
    ensures multiset(t)[x] <= 1
  {
    if t != [] {
      assert t == [t[0]] + t[1..];
      assert Distinct(t[1..]) by {
        forall a, b | 0 <= a < b < |t| - 1 ensures t[1..][a] != t[1..][b] {
          assert t[1..][a] == t[a + 1] && t[1..][b] == t[b + 1];
        }
      }
      DistinctCount(t[1..], x);
      assert t[0] !in t[1..] by {
        forall b | 0 <= b < |t| - 1 ensures t[1..][b] != t[0] {
          assert t[1..][b] == t[b + 1];
        }
      }
    }
  }
}
