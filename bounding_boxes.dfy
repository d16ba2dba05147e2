/**
 * `UpdateBoundingBoxes` (Source/Model/baseModel.cpp, Source/Core/Visualizations/visualization.cpp):
 * one post-order pass over the file tree.  A leaf's bounding box is its block; any other
 * node's bounding box is its block stretched upwards by the tallest bounding box among its
 * children, which the post-order has already computed.
 */
module BoundingBoxes {
  import opened Wrappers
  import opened Blocks
  import opened FileData
  import opened NodeTree
  import opened Traversal
  import opened TreeOrders

  /** One step of the search for the tallest child: keep `tallest` unless `height` exceeds it. */
  function Taller(tallest: real, height: real): real
  {
    if height > tallest then height else tallest
  }

  // ---------------------------------------------------------------------------------
  // The reference definition, by structure
  // ---------------------------------------------------------------------------------

  /** The bounding box of a subtree's head. */
  function BoxOf(s: Tree<VizBlock>): Cuboid
    decreases s, 1
  {
    var b := s.data.block;
    if s.children == [] then b
    else Cuboid(b.origin, b.width, b.height + TallestUpTo(s, |s.children|), b.depth)
  }

  /** The tallest bounding box among the first `i` children, and 0 if none is taller. */
  function TallestUpTo(s: Tree<VizBlock>, i: nat): real
    requires i <= |s.children|
    decreases s, 0, i
  {
    if i == 0 then 0.0 else Taller(TallestUpTo(s, i - 1), BoxOf(s.children[i - 1]).height)
  }

  /** `t` with every node's bounding box replaced by the reference one, and nothing else changed. */
  ghost predicate HasBoxes(t: Tree<VizBlock>, u: Tree<VizBlock>)
  {
    && (forall q :: IsNode(u, q) <==> IsNode(t, q))
    && (forall q :: IsNode(t, q) ==>
          ChildCount(u, q) == ChildCount(t, q) && At(u, q) == At(t, q).(boundingBox := BoxOf(Sub(t, q))))
  }

  /**
   * The running maximum is the largest child height, or 0 when every child is lower:
   * it is at least 0 and at least every child's height, and it is 0 or one of them.
   */
  ghost predicate IsTallest(tallest: real, heights: seq<real>)
  {
    && tallest >= 0.0
    && (forall j :: 0 <= j < |heights| ==> heights[j] <= tallest)
    && (tallest == 0.0 || exists j :: 0 <= j < |heights| && heights[j] == tallest)
  }

  lemma TallestUnique(a: real, b: real, heights: seq<real>)
    requires IsTallest(a, heights) && IsTallest(b, heights)
    ensures a == b
  {
  }

  function ChildHeights(s: Tree<VizBlock>, i: nat): (h: seq<real>)
    requires i <= |s.children|
    ensures |h| == i && forall j :: 0 <= j < i ==> h[j] == BoxOf(s.children[j]).height
  {
    seq(i, j requires 0 <= j < i => BoxOf(s.children[j]).height)
  }

  lemma {:induction false} TallestUpToIsTallest(s: Tree<VizBlock>, i: nat)
    requires i <= |s.children|
    ensures IsTallest(TallestUpTo(s, i), ChildHeights(s, i))
    decreases i
  {
    if i > 0 {
      TallestUpToIsTallest(s, i - 1);
      var h, h' := ChildHeights(s, i), ChildHeights(s, i - 1);
      assert h == h' + [h[i - 1]];
      var prev := TallestUpTo(s, i - 1);
      if prev != 0.0 && prev >= h[i - 1] {
        var j :| 0 <= j < i - 1 && h'[j] == prev;
        assert h[j] == prev;
      }
    }
  }

  /**
   * The bounding box keeps the block's origin, width and depth; it is never lower than the
   * block, and it reaches at least the block's height plus every child's bounding-box height.
   */
  lemma BoxEnclosesChildren(s: Tree<VizBlock>)
    ensures BoxOf(s).origin == s.data.block.origin
    ensures BoxOf(s).width == s.data.block.width && BoxOf(s).depth == s.data.block.depth
    ensures BoxOf(s).height >= s.data.block.height
    ensures forall i :: 0 <= i < |s.children| ==>
      BoxOf(s).height >= s.data.block.height + BoxOf(s.children[i]).height
  {
    if s.children != [] {
      TallestUpToIsTallest(s, |s.children|);
    }
  }

  /** A leaf's bounding box is its block. */
  lemma LeafBoxIsBlock(s: Tree<VizBlock>)
    requires s.children == []
    ensures BoxOf(s) == s.data.block
  {
  }

  // ---------------------------------------------------------------------------------
  // The highest point of the treemap
  // ---------------------------------------------------------------------------------

  function Top(b: Cuboid): real
  {
    b.origin.y + b.height
  }

  /** Every child's block sits on its parent's block, and no block has a negative height. */
  ghost predicate Stacked(s: Tree<VizBlock>)
    decreases s
  {
    && s.data.block.height >= 0.0
    && forall i :: 0 <= i < |s.children| ==>
         s.children[i].data.block.origin.y == Top(s.data.block) && Stacked(s.children[i])
  }

  /** The top of the highest leaf block of a subtree. */
  function HighestLeafTop(s: Tree<VizBlock>): real
    decreases s, 1
  {
    if s.children == [] then Top(s.data.block) else HighestFrom(s, |s.children|)
  }

  function HighestFrom(s: Tree<VizBlock>, i: nat): real
    requires 1 <= i <= |s.children|
    decreases s, 0, i
  {
    if i == 1 then HighestLeafTop(s.children[0])
    else Taller(HighestFrom(s, i - 1), HighestLeafTop(s.children[i - 1]))
  }

  /**
   * When blocks are stacked, a node's bounding box reaches exactly the top of the highest
   * leaf block below it; for the root this is the highest point of the whole treemap.
   */
  lemma {:induction false} BoxReachesHighestLeaf(s: Tree<VizBlock>)
    requires Stacked(s)
    ensures s.data.block.origin.y + BoxOf(s).height == HighestLeafTop(s)
    decreases s, 1
  {
    if s.children != [] {
      forall i | 0 <= i < |s.children|
        ensures BoxOf(s.children[i]).height == HighestLeafTop(s.children[i]) - Top(s.data.block)
        ensures BoxOf(s.children[i]).height >= 0.0
      {
        BoxReachesHighestLeaf(s.children[i]);
        BoxEnclosesChildren(s.children[i]);
      }
      TallestTracksHighest(s, |s.children|);
    }
  }

  lemma {:induction false} TallestTracksHighest(s: Tree<VizBlock>, i: nat)
    requires 1 <= i <= |s.children|
    requires forall j :: 0 <= j < |s.children| ==>
      BoxOf(s.children[j]).height == HighestLeafTop(s.children[j]) - Top(s.data.block) &&
      BoxOf(s.children[j]).height >= 0.0
    ensures TallestUpTo(s, i) == HighestFrom(s, i) - Top(s.data.block)
    decreases i
  {
    if i > 1 {
      TallestTracksHighest(s, i - 1);
    }
  }

  // ---------------------------------------------------------------------------------
  // The pass as written: a post-order walk that writes each node's box in place
  // ---------------------------------------------------------------------------------

  /**
   * The `while (currentChild)` loop: the running maximum of the children's stored
   * bounding-box heights, starting from 0.
   */
  method TallestChild(u: Tree<VizBlock>, p: Path) returns (tallest: real)
    requires IsNode(u, p)
    ensures IsTallest(tallest, StoredHeights(u, p))
  {
    ghost var h := StoredHeights(u, p);
    tallest := 0.0;
    var i := 0;
    while i < ChildCount(u, p)
      invariant i <= ChildCount(u, p)
      invariant IsTallest(tallest, h[..i])
    {
      Snoc(u, p, i);
      var height := At(u, p + [i]).boundingBox.height;
      TallestExtends(tallest, h[..i], height);
      assert h[..i + 1] == h[..i] + [height];
      if height > tallest {
        tallest := height;
      }
      i := i + 1;
    }
    assert h[..i] == h;
  }

  /** One more height: the running maximum becomes the larger of the two. */
  lemma TallestExtends(tallest: real, heights: seq<real>, height: real)
    requires IsTallest(tallest, heights)
    ensures IsTallest(Taller(tallest, height), heights + [height])
  {
    var h := heights + [height];
    if height <= tallest && tallest != 0.0 {
      var j :| 0 <= j < |heights| && heights[j] == tallest;
      assert h[j] == tallest;
    } else if height > tallest {
      assert h[|heights|] == height;
    }
  }

  /** The bounding-box heights stored in the children of `p`. */
  function StoredHeights(u: Tree<VizBlock>, p: Path): (h: seq<real>)
    requires IsNode(u, p)
    ensures |h| == ChildCount(u, p)
    ensures forall i :: 0 <= i < |h| ==> IsNode(u, p + [i]) && h[i] == At(u, p + [i]).boundingBox.height
  {
    forall i | 0 <= i < ChildCount(u, p) ensures IsNode(u, p + [i]) {
      Snoc(u, p, i);
    }
    seq(ChildCount(u, p), i requires 0 <= i < ChildCount(u, p) => At(u, p + [i]).boundingBox.height)
  }

  /** The nodes `L[..n]` hold their reference boxes; all else is as in `t`. */
  ghost predicate Visited(t: Tree<VizBlock>, u: Tree<VizBlock>, L: seq<Path>, n: nat)
  {
    && n <= |L|
    && (forall q :: IsNode(u, q) <==> IsNode(t, q))
    && (forall q :: IsNode(t, q) ==>
          ChildCount(u, q) == ChildCount(t, q) &&
          At(u, q).file == At(t, q).file && At(u, q).block == At(t, q).block)
    && (forall k :: 0 <= k < n && IsNode(t, L[k]) ==> At(u, L[k]).boundingBox == BoxOf(Sub(t, L[k])))
  }

  /** `UpdateBoundingBoxes`: every node ends up with its reference bounding box. */
  method UpdatedBoundingBoxes(t: Tree<VizBlock>) returns (u: Tree<VizBlock>)
    ensures HasBoxes(t, u)
  {
    ghost var L := PostOrderAt(t, []);
    PostOrderChain(t, []);
    PostOrderEndingOutside(t, []);
    PostOrderChildrenFirst(t, []);
    PostOrderAtDistinct(t, []);
    var it := BeginPostOrder(t, []);
    u := t;
    ghost var n := 0;
    while it.current.Some?
      invariant Visited(t, u, L, n)
      invariant it.ending == PostOrderSuccessor(t, [])
      invariant it.current == if n < |L| then Some(L[n]) else None
      invariant n < |L| ==> (ChildCount(t, L[n]) > 0 ==> it.traversingUp)
      decreases |L| - n
    {
      u := VisitNode(t, u, it.current.value, L, n);
      PostOrderIncrementIsSuccessor(t, it.current.value, it.traversingUp);
      it := PostOrderStep(t, it);
      n := n + 1;
    }
    forall q | IsNode(t, q)
      ensures ChildCount(u, q) == ChildCount(t, q) && At(u, q) == At(t, q).(boundingBox := BoxOf(Sub(t, q)))
    {
      PostOrderAtMembers(t, [], q);
      var k :| 0 <= k < |L| && L[k] == q;
    }
  }

  /** The body of the `for_each`: the node `L[n]` gets its bounding box. */
  method VisitNode(t: Tree<VizBlock>, u: Tree<VizBlock>, p: Path, ghost L: seq<Path>, ghost n: nat)
    returns (v: Tree<VizBlock>)
    requires Visited(t, u, L, n) && n < |L| && p == L[n]
    requires ChildrenFirst(t, L) && Distinct(L)
    ensures Visited(t, v, L, n + 1)
  {
    var data := At(u, p);
    var box: Cuboid;
    if ChildCount(u, p) == 0 {
      box := data.block;
    } else {
      var tallest := TallestChild(u, p);
      box := Cuboid(data.block.origin, data.block.width, data.block.height + tallest, data.block.depth);
      StoredTallestIsReference(t, u, L, n, tallest);
    }
    v := UpdateAt(u, p, data.(boundingBox := box));
    VisitedAfterUpdate(t, u, L, n, box);
  }

  /** The running maximum over the stored heights is the one the reference box uses. */
  lemma StoredTallestIsReference(t: Tree<VizBlock>, u: Tree<VizBlock>, L: seq<Path>, n: nat, tallest: real)
    requires Visited(t, u, L, n) && n < |L| && ChildrenFirst(t, L)
    requires IsNode(u, L[n]) && IsTallest(tallest, StoredHeights(u, L[n]))
    ensures tallest == TallestUpTo(Sub(t, L[n]), ChildCount(t, L[n]))
  {
    var p := L[n];
    StoredHeightsAreBoxes(t, u, L, n);
    TallestUpToIsTallest(Sub(t, p), ChildCount(t, p));
    TallestUnique(tallest, TallestUpTo(Sub(t, p), ChildCount(t, p)), StoredHeights(u, p));
  }

  /** Writing the reference box into `L[n]` extends the visited prefix by one node. */
  lemma VisitedAfterUpdate(t: Tree<VizBlock>, u: Tree<VizBlock>, L: seq<Path>, n: nat, box: Cuboid)
    requires Visited(t, u, L, n) && n < |L| && ChildrenFirst(t, L) && Distinct(L)
    requires box == BoxOf(Sub(t, L[n]))
    ensures IsNode(u, L[n])
    ensures Visited(t, UpdateAt(u, L[n], At(u, L[n]).(boundingBox := box)), L, n + 1)
  {
    var p := L[n];
    var d := At(u, p).(boundingBox := box);
    var v := UpdateAt(u, p, d);
    forall q ensures IsNode(v, q) <==> IsNode(u, q)
      ensures IsNode(u, q) ==> ChildCount(v, q) == ChildCount(u, q) && At(v, q) == (if q == p then d else At(u, q))
    {
      UpdateAtFacts(u, p, d, q);
    }
  }

  /** The children of the node being visited already hold their reference boxes. */
  lemma StoredHeightsAreBoxes(t: Tree<VizBlock>, u: Tree<VizBlock>, L: seq<Path>, n: nat)
    requires Visited(t, u, L, n) && n < |L| && ChildrenFirst(t, L)
    ensures IsNode(t, L[n]) && StoredHeights(u, L[n]) == ChildHeights(Sub(t, L[n]), ChildCount(t, L[n]))
  {
    var p := L[n];
    var h := StoredHeights(u, p);
    forall i | 0 <= i < ChildCount(t, p) ensures h[i] == BoxOf(Sub(t, p).children[i]).height {
      Snoc(t, p, i);
      assert p + [i] in L[..n];
      var k :| 0 <= k < n && L[k] == p + [i];
    }
  }
}
