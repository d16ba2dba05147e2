/**
 * `UpdateAncestorSizes` (Source/Model/baseModel.cpp, Source/Core/Visualizations/visualization.cpp):
 * after a file's size changes, climb from its node to the head and give every parent the
 * total of its children's sizes, summed over the sibling chain from the first child.
 */
module AncestorSizes {
  import opened Wrappers
  import opened FileData
  import opened NodeTree

  /** The total of the sizes of the first `i` children of `q`, accumulated left to right. */
  function SizesUpTo(u: Tree<VizBlock>, q: Path, i: nat): nat
    requires IsNode(u, q) && i <= ChildCount(u, q)
    decreases i
  {
    if i == 0 then 0
    else
      Snoc(u, q, i - 1);
      SizesUpTo(u, q, i - 1) + At(u, q + [i - 1]).file.size
  }

  /** The total of the sizes of all children of `q`. */
  function ChildSizes(u: Tree<VizBlock>, q: Path): nat
    requires IsNode(u, q)
  {
    SizesUpTo(u, q, ChildCount(u, q))
  }

  /** Every node with children is as large as its children together. */
  ghost predicate Consistent(u: Tree<VizBlock>)
  {
    forall q :: IsNode(u, q) && ChildCount(u, q) > 0 ==> At(u, q).file.size == ChildSizes(u, q)
  }

  /**
   * `u` is `t` with only sizes changed, and only at the proper ancestors of `p` from depth
   * `level` down; each of those holds the total of its children.
   */
  ghost predicate SummedFrom(t: Tree<VizBlock>, u: Tree<VizBlock>, p: Path, level: nat)
  {
    OnlySizesChanged(t, u, p, level) && TotalsHeld(t, u, p, level)
  }

  ghost predicate OnlySizesChanged(t: Tree<VizBlock>, u: Tree<VizBlock>, p: Path, level: nat)
  {
    && (forall q :: IsNode(u, q) <==> IsNode(t, q))
    && (forall q :: IsNode(t, q) ==> ChildCount(u, q) == ChildCount(t, q))
    && (forall q :: IsNode(t, q) ==>
          At(u, q) == At(t, q).(file := At(t, q).file.(size := At(u, q).file.size)))
    && (forall q :: IsNode(t, q) && !(q < p && |q| >= level) ==> At(u, q) == At(t, q))
  }

  ghost predicate TotalsHeld(t: Tree<VizBlock>, u: Tree<VizBlock>, p: Path, level: nat)
  {
    forall q :: IsNode(t, q) && IsNode(u, q) && q < p && |q| >= level ==> At(u, q).file.size == ChildSizes(u, q)
  }

  /** A total only depends on the children's sizes. */
  lemma {:induction false} SizesAgree(u: Tree<VizBlock>, v: Tree<VizBlock>, q: Path, i: nat)
    requires IsNode(u, q) && IsNode(v, q) && i <= ChildCount(u, q) && ChildCount(u, q) == ChildCount(v, q)
    requires forall j :: 0 <= j < i && IsNode(u, q + [j]) && IsNode(v, q + [j]) ==>
      At(u, q + [j]).file.size == At(v, q + [j]).file.size
    ensures SizesUpTo(u, q, i) == SizesUpTo(v, q, i)
    decreases i
  {
    if i > 0 {
      Snoc(u, q, i - 1);
      Snoc(v, q, i - 1);
      SizesAgree(u, v, q, i - 1);
    }
  }

  // ---------------------------------------------------------------------------------
  // The climb as written
  // ---------------------------------------------------------------------------------

  /**
   * The sizes the climb relies on: every child of a proper ancestor of `p` that is not itself
   * an ancestor of `p` (the siblings summed at each step, `p` itself among them) is non-empty.
   * The ancestors on the path are re-totalled before they are summed, so their sizes as
   * given are never read.
   */
  ghost predicate SiblingsNonEmpty(u: Tree<VizBlock>, p: Path)
  {
    forall c :: IsNode(u, c) && c != [] && Parent(c) < p && !(c < p) ==> At(u, c).file.size > 0
  }

  /**
   * What the climb keeps from depth `level` on: the siblings are non-empty, and so are the
   * ancestors of `p` it has already re-totalled, those at depth `level` or deeper.
   */
  ghost predicate ClimbNonEmpty(u: Tree<VizBlock>, p: Path, level: nat)
  {
    forall c :: IsNode(u, c) && c != [] && Parent(c) < p && (c < p ==> |c| >= level) ==> At(u, c).file.size > 0
  }

  /** Before the first step no ancestor has been re-totalled, and none is relied on. */
  lemma ClimbBegins(u: Tree<VizBlock>, p: Path)
    requires SiblingsNonEmpty(u, p)
    ensures ClimbNonEmpty(u, p, |p|)
  {
    forall c | IsNode(u, c) && c != [] && Parent(c) < p && (c < p ==> |c| >= |p|)
      ensures At(u, c).file.size > 0
    {
      assert c < p ==> |c| < |p|;
    }
  }

  /**
   * The `std::accumulate` over the sibling chain from `q`'s first child.  Every child summed
   * must be non-empty, and then a node with children gets a positive total.
   */
  method SumChildSizes(u: Tree<VizBlock>, q: Path) returns (total: nat)
    requires IsNode(u, q)
    requires forall c :: IsNode(u, c) && c != [] && Parent(c) == q ==> At(u, c).file.size > 0
    ensures total == ChildSizes(u, q)
    ensures ChildCount(u, q) > 0 ==> total > 0
  {
    total := 0;
    var i := 0;
    while i < ChildCount(u, q)
      invariant i <= ChildCount(u, q) && total == SizesUpTo(u, q, i)
      invariant i > 0 ==> total > 0
    {
      Snoc(u, q, i);
      total := total + At(u, q + [i]).file.size;
      i := i + 1;
    }
  }

  /** The state of the climb once the ancestors of `p` from depth `level` on are re-totalled. */
  ghost predicate Climbed(t: Tree<VizBlock>, u: Tree<VizBlock>, p: Path, level: nat)
  {
    level <= |p| && SummedFrom(t, u, p, level) && ClimbNonEmpty(u, p, level)
  }

  /** `UpdateAncestorSizes(node)`: walks from `p` up to the head, summing into each parent. */
  method UpdatedAncestorSizes(t: Tree<VizBlock>, p: Path) returns (u: Tree<VizBlock>)
    requires IsNode(t, p) && SiblingsNonEmpty(t, p)
    ensures SummedFrom(t, u, p, 0)
  {
    u := t;
    ClimbBegins(t, p);
    var node: Option<Path> := Some(p);
    ghost var level: nat := |p|;
    while node.Some?
      invariant Climbed(t, u, p, level)
      invariant node.Some? ==> node.value == p[..level]
      invariant node.None? ==> level == 0
      decreases level, node.Some?
    {
      var n := node.value;
      if n != [] {
        ParentOfPrefix(p, level);
        var parent := Parent(n);
        u := SumIntoParent(t, u, p, parent, level);
        level := level - 1;
        node := Some(parent);
        assert node.value == p[..level];
      } else {
        node := None;
      }
    }
  }

  /** One level up from the prefix of length `level` is the prefix one shorter. */
  lemma ParentOfPrefix(p: Path, level: nat)
    requires 0 < level <= |p|
    ensures p[..level] != [] && Parent(p[..level]) == p[..level - 1]
  {
    assert |p[..level]| == level;
  }

  /**
   * One turn of the climb: the parent of `p[..level]` gets the total of its children, which
   * is positive because `p[..level]` is one of them.
   */
  method SumIntoParent(t: Tree<VizBlock>, u: Tree<VizBlock>, p: Path, parent: Path, ghost level: nat)
    returns (v: Tree<VizBlock>)
    requires IsNode(t, p) && 0 < level <= |p| && parent == p[..level - 1]
    requires Climbed(t, u, p, level)
    ensures Climbed(t, v, p, level - 1)
  {
    ParentOnClimb(t, u, p, parent, level);
    var total := SumChildSizes(u, parent);
    var data := At(u, parent);
    var updated := data.(file := data.file.(size := total));
    v := UpdateAt(u, parent, updated);
    SumStep(t, u, v, p, parent, updated, level);
    ClimbStaysNonEmpty(u, p, parent, updated, level);
  }

  /** The parent reached by the climb has `p[..level]` among its children, all of them non-empty. */
  lemma ParentOnClimb(t: Tree<VizBlock>, u: Tree<VizBlock>, p: Path, parent: Path, level: nat)
    requires IsNode(t, p) && 0 < level <= |p| && parent == p[..level - 1]
    requires forall q :: IsNode(u, q) <==> IsNode(t, q)
    requires ClimbNonEmpty(u, p, level)
    ensures IsNode(u, parent) && ChildCount(u, parent) > 0
    ensures forall c :: IsNode(u, c) && c != [] && Parent(c) == parent ==> At(u, c).file.size > 0
  {
    PrefixIsNode(t, p, p[..level]);
    PrefixHasChild(u, p, level);
    ChildrenOnClimbNonEmpty(u, p, parent, level);
  }

  /** Every child of the parent reached is summed non-empty: a sibling, or re-totalled already. */
  lemma ChildrenOnClimbNonEmpty(u: Tree<VizBlock>, p: Path, parent: Path, level: nat)
    requires 0 < level <= |p| && parent == p[..level - 1] && ClimbNonEmpty(u, p, level)
    ensures forall c :: IsNode(u, c) && c != [] && Parent(c) == parent ==> At(u, c).file.size > 0
  {
    assert parent < p;
    forall c | IsNode(u, c) && c != [] && Parent(c) == parent
      ensures At(u, c).file.size > 0
    {
      assert |c| == level;
    }
  }

  /** The node one level up the path has at least that child. */
  lemma PrefixHasChild(u: Tree<VizBlock>, p: Path, level: nat)
    requires 0 < level <= |p| && IsNode(u, p[..level])
    ensures IsNode(u, p[..level - 1]) && ChildCount(u, p[..level - 1]) > 0
  {
    assert p[..level] == p[..level - 1] + [p[level - 1]];
    PrefixIsNode(u, p[..level], p[..level - 1]);
    Snoc(u, p[..level - 1], p[level - 1]);
  }

  /** Writing a positive total at the parent adds it to the re-totalled ancestors relied on. */
  lemma ClimbStaysNonEmpty(u: Tree<VizBlock>, p: Path, parent: Path, updated: VizBlock, level: nat)
    requires 0 < level <= |p| && parent == p[..level - 1]
    requires ClimbNonEmpty(u, p, level) && IsNode(u, parent) && updated.file.size > 0
    ensures ClimbNonEmpty(UpdateAt(u, parent, updated), p, level - 1)
  {
    var v := UpdateAt(u, parent, updated);
    forall c | IsNode(v, c) && c != [] && Parent(c) < p && (c < p ==> |c| >= level - 1)
      ensures At(v, c).file.size > 0
    {
      UpdateAtFacts(u, parent, updated, c);
      if c != parent && c < p {
        assert c == p[..|c|];
        assert |c| != level - 1;
      }
    }
  }

  lemma SumStep(t: Tree<VizBlock>, u: Tree<VizBlock>, v: Tree<VizBlock>, p: Path, parent: Path, updated: VizBlock, level: nat)
    requires IsNode(t, p) && 0 < level <= |p| && parent == p[..level - 1]
    requires SummedFrom(t, u, p, level) && IsNode(u, parent)
    requires v == UpdateAt(u, parent, updated)
    requires updated == At(u, parent).(file := At(u, parent).file.(size := ChildSizes(u, parent)))
    ensures SummedFrom(t, v, p, level - 1)
  {
    forall q ensures IsNode(v, q) <==> IsNode(u, q)
      ensures IsNode(u, q) ==> ChildCount(v, q) == ChildCount(u, q) && At(v, q) == (if q == parent then updated else At(u, q))
    {
      UpdateAtFacts(u, parent, updated, q);
    }
    SumStepTotals(t, u, v, p, parent, updated, level);
  }

  lemma SumStepTotals(t: Tree<VizBlock>, u: Tree<VizBlock>, v: Tree<VizBlock>, p: Path, parent: Path, updated: VizBlock, level: nat)
    requires 0 < level <= |p| && parent == p[..level - 1]
    requires TotalsHeld(t, u, p, level) && IsNode(u, parent)
    requires forall q :: IsNode(v, q) <==> IsNode(u, q)
    requires forall q :: IsNode(u, q) ==> ChildCount(v, q) == ChildCount(u, q) && At(v, q) == (if q == parent then updated else At(u, q))
    requires updated.file.size == ChildSizes(u, parent)
    ensures TotalsHeld(t, v, p, level - 1)
  {
    forall q: Path | IsNode(t, q) && IsNode(v, q) && q < p && |q| >= level - 1
      ensures At(v, q).file.size == ChildSizes(v, q)
    {
      ChildSizesOffParent(u, v, q, parent, updated);
      if |q| == level - 1 {
        assert q == p[..|q|] == parent;
      } else {
        assert At(v, q) == At(u, q);
      }
    }
  }

  /** Replacing the data of `parent` leaves the children's total of a node no higher than it unchanged. */
  lemma ChildSizesOffParent(u: Tree<VizBlock>, v: Tree<VizBlock>, q: Path, parent: Path, updated: VizBlock)
    requires IsNode(u, q) && IsNode(v, q) && |q| >= |parent|
    requires forall r :: IsNode(v, r) <==> IsNode(u, r)
    requires forall r :: IsNode(u, r) ==> ChildCount(v, r) == ChildCount(u, r) && At(v, r) == (if r == parent then updated else At(u, r))
    ensures ChildSizes(v, q) == ChildSizes(u, q)
  {
    forall j | 0 <= j < ChildCount(v, q) && IsNode(u, q + [j]) && IsNode(v, q + [j])
      ensures At(u, q + [j]).file.size == At(v, q + [j]).file.size
    {
      assert q + [j] != parent;
    }
    SizesAgree(u, v, q, ChildCount(v, q));
  }

  /**
   * When every node off the climbed path was already as large as its children together,
   * the climb makes the whole tree consistent again: a node off the path has no child on it.
   */
  lemma RestoresConsistency(t: Tree<VizBlock>, u: Tree<VizBlock>, p: Path)
    requires SummedFrom(t, u, p, 0)
    requires forall q :: IsNode(t, q) && !(q < p) && ChildCount(t, q) > 0 ==> At(t, q).file.size == ChildSizes(t, q)
    ensures Consistent(u)
  {
    forall q: Path | IsNode(u, q) && ChildCount(u, q) > 0 && !(q < p)
      ensures At(u, q).file.size == ChildSizes(u, q)
    {
      forall j | 0 <= j < ChildCount(t, q) && IsNode(t, q + [j]) && IsNode(u, q + [j])
        ensures At(t, q + [j]).file.size == At(u, q + [j]).file.size
      {
      }
      SizesAgree(t, u, q, ChildCount(t, q));
    }
  }
}
