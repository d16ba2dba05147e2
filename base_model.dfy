/**
 * `BaseModel` (Source/Model/baseModel.cpp) and its two predecessors `VisualizationModel`
 * (Source/Core/Visualizations/visualization.cpp, Source/Visualizations/visualization.cpp):
 * the scanned file tree, the list of highlighted nodes and the selected node.
 *
 * A node is named by its path from the head of the tree, so the highlighted list is a
 * sequence of paths and the selection an optional path.  The highlight passes walk the
 * tree with the leaf and post-order iterators and append every node that passes their
 * filter; each one's result is stated as the matching sub-sequence of the walk.
 */
module FileModel {
  import opened Wrappers
  import opened FileData
  import opened NodeTree
  import opened Traversal
  import opened TreeOrders
  import BoundingBoxes
  import AncestorSizes
  import SizeSort

  // ---------------------------------------------------------------------------------
  // What each highlight pass keeps
  // ---------------------------------------------------------------------------------

  /** `HighlightDescendants`: skip a node that the parameters hide. */
  function ShownFilter(parameters: VisualizationParameters): VizBlock -> bool
  {
    (b: VizBlock) => IsShown(b.file, parameters)
  }

  /** `HighlightMatchingFileExtensions`: also skip a node with another extension. */
  function ExtensionFilter(extension: string, parameters: VisualizationParameters): VizBlock -> bool
  {
    (b: VizBlock) => IsShown(b.file, parameters) && b.file.extension == extension
  }

  /**
   * `HighlightMatchingFileNames`: skip a node below the minimum size or of a type not
   * searched, then keep it when its lower-cased name and extension contain the lower-cased query.
   */
  predicate NameMatches(file: FileInfo, query: string, parameters: VisualizationParameters,
                        shouldSearchFiles: bool, shouldSearchDirectories: bool)
  {
    && !(file.size < parameters.minimumFileSize
         || (!shouldSearchDirectories && file.fileType == Directory)
         || (!shouldSearchFiles && file.fileType == Regular))
    && Contains(Lower(FullName(file)), Lower(query))
  }

  function NameFilter(query: string, parameters: VisualizationParameters,
                      shouldSearchFiles: bool, shouldSearchDirectories: bool): VizBlock -> bool
  {
    (b: VizBlock) => NameMatches(b.file, query, parameters, shouldSearchFiles, shouldSearchDirectories)
  }

  // ---------------------------------------------------------------------------------
  // What each highlight pass appends
  // ---------------------------------------------------------------------------------

  lemma LeavesAreNodes<T>(t: Tree<T>, p: Path)
    requires IsNode(t, p)
    ensures forall q :: q in LeavesAt(t, p) ==> IsNode(t, q)
  {
    LeavesChain(t, p);
  }

  lemma PostOrderAreNodes<T>(t: Tree<T>, p: Path)
    requires IsNode(t, p)
    ensures forall q :: q in PostOrderAt(t, p) ==> IsNode(t, q)
  {
    PostOrderChain(t, p);
  }

  /** The leaves below `p` (in leaf order) that pass `keep`: each such leaf exactly once. */
  function KeptLeaves(t: Tree<VizBlock>, p: Path, keep: VizBlock -> bool): (r: seq<Path>)
    requires IsNode(t, p)
    ensures Distinct(r)
    ensures forall q :: q in r <==> IsNode(t, q) && p <= q && ChildCount(t, q) == 0 && keep(At(t, q))
  {
    LeavesAreNodes(t, p);
    LeavesAtDistinct(t, p);
    SelectDistinct(t, LeavesAt(t, p), keep);
    forall q ensures q in LeavesAt(t, p) <==> IsNode(t, q) && p <= q && ChildCount(t, q) == 0 {
      LeavesAtMembers(t, p, q);
    }
    Select(t, LeavesAt(t, p), keep)
  }

  /** The nodes below `p` (in post-order) that pass `keep`: each such node exactly once. */
  function KeptNodes(t: Tree<VizBlock>, p: Path, keep: VizBlock -> bool): (r: seq<Path>)
    requires IsNode(t, p)
    ensures Distinct(r)
    ensures forall q :: q in r <==> IsNode(t, q) && p <= q && keep(At(t, q))
  {
    PostOrderAreNodes(t, p);
    PostOrderAtDistinct(t, p);
    SelectDistinct(t, PostOrderAt(t, p), keep);
    forall q ensures q in PostOrderAt(t, p) <==> IsNode(t, q) && p <= q {
      PostOrderAtMembers(t, p, q);
    }
    Select(t, PostOrderAt(t, p), keep)
  }

  /** Without a size or directory filter, `HighlightDescendants` appends every leaf below the node, in leaf order. */
  lemma UnfilteredDescendantsAreAllLeaves(t: Tree<VizBlock>, p: Path, parameters: VisualizationParameters)
    requires IsNode(t, p)
    requires !parameters.onlyShowDirectories && parameters.minimumFileSize == 0
    ensures KeptLeaves(t, p, ShownFilter(parameters)) == LeavesAt(t, p)
  {
    LeavesAreNodes(t, p);
    SelectAll(t, LeavesAt(t, p), ShownFilter(parameters));
  }

  /** An extension match is a descendant highlight of the head narrowed to one extension. */
  lemma ExtensionMatchesAreShownLeaves(t: Tree<VizBlock>, extension: string, parameters: VisualizationParameters)
    ensures forall q :: q in KeptLeaves(t, [], ExtensionFilter(extension, parameters)) <==>
      q in KeptLeaves(t, [], ShownFilter(parameters)) && At(t, q).file.extension == extension
  {
  }

  // ---------------------------------------------------------------------------------
  // Node lookups
  // ---------------------------------------------------------------------------------

  /** Child `j` of `p` exists and its name and extension together are `name`. */
  predicate Matches(t: Tree<VizBlock>, p: Path, j: nat, name: string)
  {
    IsNode(t, p + [j]) && FullName(At(t, p + [j]).file) == name
  }

  /** Child `j` is the first child of `p` (in sibling order) whose full name is `name`. */
  ghost predicate IsFirstMatch(t: Tree<VizBlock>, p: Path, j: nat, name: string)
  {
    Matches(t, p, j, name) && forall i: nat :: i < j ==> !Matches(t, p, i, name)
  }

  /** No child of `p` has the full name `name`. */
  ghost predicate NoMatch(t: Tree<VizBlock>, p: Path, name: string)
  {
    forall j: nat :: !Matches(t, p, j, name)
  }

  /** `std::find_if` over the sibling chain from `p`'s first child. */
  method FindChild(t: Tree<VizBlock>, p: Path, name: string) returns (r: Option<nat>)
    requires IsNode(t, p)
    ensures r.Some? ==> IsFirstMatch(t, p, r.value, name)
    ensures r.None? ==> NoMatch(t, p, name)
  {
    var i := 0;
    while i < ChildCount(t, p)
      invariant i <= ChildCount(t, p)
      invariant forall j: nat :: j < i ==> !Matches(t, p, j, name)
    {
      Snoc(t, p, i);
      if FullName(At(t, p + [i]).file) == name {
        return Some(i);
      }
      i := i + 1;
    }
    forall j: nat ensures !Matches(t, p, j, name) {
      if j >= ChildCount(t, p) {
        Snoc(t, p, j);
      }
    }
    return None;
  }

  /**
   * The lookup loop shared by `FindNodeUsingPath` and `FindNodeViaRelativePath`: from `start`,
   * step to the first child whose full name is the next component, until a component has
   * no such child or the components run out.
   */
  method DescendMatching(t: Tree<VizBlock>, start: Path, components: seq<string>) returns (node: Path)
    requires IsNode(t, start)
    ensures IsNode(t, node) && start <= node && |node| <= |start| + |components|
    ensures forall k :: |start| <= k < |node| ==> IsFirstMatch(t, node[..k], node[k], components[k - |start|])
    ensures |node| < |start| + |components| ==> NoMatch(t, node, components[|node| - |start|])
  {
    node := start;
    var stop := false;
    while |node| < |start| + |components| && !stop
      invariant MatchedDown(t, start, node, components)
      invariant stop ==> |node| < |start| + |components| && NoMatch(t, node, components[|node| - |start|])
      decreases |start| + |components| - |node|, !stop
    {
      var m := FindChild(t, node, components[|node| - |start|]);
      if m.None? {
        stop := true;
      } else {
        MatchedDownStep(t, start, node, m.value, components);
        node := node + [m.value];
      }
    }
  }

  /** The descent from `start` to `node` took, at each level, the first child named by the next component. */
  ghost predicate MatchedDown(t: Tree<VizBlock>, start: Path, node: Path, components: seq<string>)
  {
    && IsNode(t, node) && start <= node && |node| <= |start| + |components|
    && forall k :: |start| <= k < |node| ==> IsFirstMatch(t, node[..k], node[k], components[k - |start|])
  }

  /** Taking the first matching child extends the descent by one level. */
  lemma MatchedDownStep(t: Tree<VizBlock>, start: Path, node: Path, m: nat, components: seq<string>)
    requires MatchedDown(t, start, node, components) && |node| < |start| + |components|
    requires IsFirstMatch(t, node, m, components[|node| - |start|])
    ensures MatchedDown(t, start, node + [m], components)
  {
    var next := node + [m];
    assert next[..|node|] == node;
    forall k | 0 <= k < |node| ensures next[..k] == node[..k] && next[k] == node[k] { }
  }

  /** `AdvanceToNextNonDescendant`: climbs while the parent has no next sibling. */
  method AdvanceToNextNonDescendant(t: Tree<VizBlock>, p: Path) returns (r: Option<Path>)
    requires IsNode(t, p)
    ensures r == NextNonDescendant(t, p)
  {
    if HasNextSibling(t, p) {
      return Some(NextSibling(t, p));
    }
    var node := p;
    while node != [] && (PrefixIsNode(t, node, Parent(node)); !HasNextSibling(t, Parent(node)))
      invariant IsNode(t, node) && !HasNextSibling(t, node)
      invariant NextNonDescendant(t, node) == NextNonDescendant(t, p)
      decreases |node|
    {
      node := Parent(node);
    }
    if node == [] {
      r := None;
    } else {
      PrefixIsNode(t, node, Parent(node));
      r := Some(NextSibling(t, Parent(node)));
    }
  }

  /** A leaf walk from `root` has visited the first `n` leaves of `L`, its leaf order. */
  ghost predicate LeafWalk(t: Tree<VizBlock>, root: Path, L: seq<Path>, it: Iterator, n: nat)
  {
    && IsNode(t, root) && L == LeavesAt(t, root) && n <= |L|
    && (forall q :: q in L ==> IsNode(t, q))
    && LeafChain(t, L, LeafSuccessor(t, root))
    && (LeafSuccessor(t, root).Some? ==> LeafSuccessor(t, root).value !in L)
    && it.ending == LeafSuccessor(t, root)
    && it.current == (if n < |L| then Some(L[n]) else None)
  }

  /** A post-order walk from `root` has visited the first `n` nodes of `L`, its post-order. */
  ghost predicate PostOrderWalk(t: Tree<VizBlock>, root: Path, L: seq<Path>, it: PostOrderIterator, n: nat)
  {
    && IsNode(t, root) && L == PostOrderAt(t, root) && n <= |L|
    && (forall q :: q in L ==> IsNode(t, q))
    && PostChain(t, L, PostOrderSuccessor(t, root))
    && (PostOrderSuccessor(t, root).Some? ==> PostOrderSuccessor(t, root).value !in L)
    && it.ending == PostOrderSuccessor(t, root)
    && it.current == (if n < |L| then Some(L[n]) else None)
    && (n < |L| ==> (ChildCount(t, L[n]) > 0 ==> it.traversingUp))
  }

  /**
   * The leaf walk from `root` collecting into a list: `start`, then every kept leaf in leaf
   * order.  The older controllers and `MainModel` run this loop into their own lists.
   */
  method CollectLeaves(t: Tree<VizBlock>, root: Path, keep: VizBlock -> bool, start: seq<Path>) returns (r: seq<Path>)
    requires IsNode(t, root)
    ensures r == start + KeptLeaves(t, root, keep)
  {
    ghost var L := LeavesAt(t, root);
    LeafWalkBegins(t, root);
    var it := BeginLeaves(t, root);
    var n := 0;
    r := start;
    while it.current.Some?
      invariant LeafWalk(t, root, L, it, n)
      invariant r == start + Select(t, L[..n], keep)
      decreases |L| - n
    {
      LeafWalkAdvances(t, root, L, it, n);
      it, r := CollectLeaf(t, L, it, n, keep, start, r);
      n := n + 1;
    }
    assert L[..n] == L;
  }

  /** One turn of the collecting leaf walk. */
  method CollectLeaf(t: Tree<VizBlock>, ghost L: seq<Path>, it: Iterator, n: nat,
                     keep: VizBlock -> bool, ghost start: seq<Path>, acc: seq<Path>) returns (next: Iterator, r: seq<Path>)
    requires (forall q :: q in L ==> IsNode(t, q)) && n < |L| && it.current == Some(L[n])
    requires acc == start + Select(t, L[..n], keep)
    ensures next == LeafStep(t, it)
    ensures r == start + Select(t, L[..n + 1], keep)
  {
    var q := it.current.value;
    SelectStep(t, L, n, keep);
    r := if keep(At(t, q)) then acc + [q] else acc;
    next := LeafStep(t, it);
  }

  /** A fresh leaf iterator stands at the first leaf of the walk. */
  lemma LeafWalkBegins(t: Tree<VizBlock>, root: Path)
    requires IsNode(t, root)
    ensures LeafWalk(t, root, LeavesAt(t, root), BeginLeaves(t, root), 0)
  {
    LeavesChain(t, root);
    LeafEndingOutside(t, root);
  }

  /** One step of the iterator moves a leaf walk on by one leaf. */
  lemma LeafWalkAdvances(t: Tree<VizBlock>, root: Path, L: seq<Path>, it: Iterator, n: nat)
    requires LeafWalk(t, root, L, it, n) && it.current.Some?
    ensures LeafWalk(t, root, L, LeafStep(t, it), n + 1)
  {
  }

  /** The post-order walk of the whole tree collecting into a list: `start`, then every kept node. */
  method CollectPostOrder(t: Tree<VizBlock>, keep: VizBlock -> bool, start: seq<Path>) returns (r: seq<Path>)
    ensures r == start + KeptNodes(t, [], keep)
  {
    ghost var L := PostOrderAt(t, []);
    PostOrderWalkBegins(t, []);
    var it := BeginPostOrder(t, []);
    var n := 0;
    r := start;
    while it.current.Some?
      invariant PostOrderWalk(t, [], L, it, n)
      invariant r == start + Select(t, L[..n], keep)
      decreases |L| - n
    {
      PostOrderWalkAdvances(t, [], L, it, n);
      it, r := CollectNode(t, L, it, n, keep, start, r);
      n := n + 1;
    }
    assert L[..n] == L;
  }

  /** One turn of the collecting post-order walk. */
  method CollectNode(t: Tree<VizBlock>, ghost L: seq<Path>, it: PostOrderIterator, n: nat,
                     keep: VizBlock -> bool, ghost start: seq<Path>, acc: seq<Path>) returns (next: PostOrderIterator, r: seq<Path>)
    requires (forall q :: q in L ==> IsNode(t, q)) && n < |L| && it.current == Some(L[n])
    requires acc == start + Select(t, L[..n], keep)
    ensures next == PostOrderStep(t, it)
    ensures r == start + Select(t, L[..n + 1], keep)
  {
    var q := it.current.value;
    SelectStep(t, L, n, keep);
    r := if keep(At(t, q)) then acc + [q] else acc;
    next := PostOrderStep(t, it);
  }

  /** A fresh post-order iterator stands at the first node of the walk. */
  lemma PostOrderWalkBegins(t: Tree<VizBlock>, root: Path)
    requires IsNode(t, root)
    ensures PostOrderWalk(t, root, PostOrderAt(t, root), BeginPostOrder(t, root), 0)
  {
    PostOrderChain(t, root);
    PostOrderEndingOutside(t, root);
  }

  /** One step of the iterator moves a post-order walk on by one node. */
  lemma PostOrderWalkAdvances(t: Tree<VizBlock>, root: Path, L: seq<Path>, it: PostOrderIterator, n: nat)
    requires PostOrderWalk(t, root, L, it, n) && it.current.Some?
    ensures PostOrderWalk(t, root, L, PostOrderStep(t, it), n + 1)
  {
    PostOrderIncrementIsSuccessor(t, it.current.value, it.traversingUp);
  }

  // ---------------------------------------------------------------------------------
  // The model
  // ---------------------------------------------------------------------------------

  /** The nodes the ancestor walk has still to highlight when it stands at `current`. */
  function StillToHighlight(current: Option<Path>): seq<Path>
  {
    if current.Some? then [current.value] + Ancestors(current.value) else []
  }

  lemma HighlightStep(highlighted: seq<Path>, n: Path, next: Option<Path>)
    requires next == if n == [] then None else Some(Parent(n))
    ensures highlighted + StillToHighlight(Some(n)) == (highlighted + [n]) + StillToHighlight(next)
  {
  }

  class BaseModel {
    var tree: Tree<VizBlock>
    var highlighted: seq<Path>
    var selected: Option<Path>
    var hasDataBeenParsed: bool

    /** A model over a scanned tree, before any layout has been parsed into it. */
    constructor(scanned: Tree<VizBlock>)
      ensures tree == scanned && highlighted == [] && selected == None && !hasDataBeenParsed
    {
      tree := scanned;
      highlighted := [];
      selected := None;
      hasDataBeenParsed := false;
    }

    /** The bookkeeping half of `Parse`: the laid-out tree is stored and marked as parsed. */
    method Parse(laidOut: Tree<VizBlock>)
      modifies this
      ensures tree == laidOut && hasDataBeenParsed
      ensures highlighted == old(highlighted) && selected == old(selected)
    {
      tree := laidOut;
      hasDataBeenParsed := true;
    }

    method ClearHighlightedNodes()
      modifies this`highlighted
      ensures highlighted == []
    {
      if |highlighted| == 0 {
        return;
      }
      highlighted := [];
    }

    method SelectNode(node: Path)
      modifies this
      ensures selected == Some(node)
      ensures tree == old(tree) && highlighted == old(highlighted) && hasDataBeenParsed == old(hasDataBeenParsed)
    {
      selected := Some(node);
    }

    method ClearSelectedNode()
      modifies this
      ensures selected == None
      ensures tree == old(tree) && highlighted == old(highlighted) && hasDataBeenParsed == old(hasDataBeenParsed)
    {
      selected := None;
    }

    method HighlightNode(node: Path)
      modifies this`highlighted
      ensures highlighted == old(highlighted) + [node]
    {
      highlighted := highlighted + [node];
    }

    /** Appends the parent, the grandparent, ... up to the head; never the node itself. */
    method HighlightAncestors(node: Path)
      requires IsNode(tree, node)
      modifies this`highlighted
      ensures highlighted == old(highlighted) + Ancestors(node)
    {
      var current: Option<Path> := if node == [] then None else Some(Parent(node));
      while current.Some?
        invariant highlighted + StillToHighlight(current) == old(highlighted) + Ancestors(node)
        decreases if current.Some? then |current.value| + 1 else 0
      {
        var n := current.value;
        var next := if n == [] then None else Some(Parent(n));
        HighlightStep(highlighted, n, next);
        HighlightNode(n);
        current := next;
      }
    }

    /** Appends, in leaf order, every leaf below `node` that the parameters show. */
    method HighlightDescendants(node: Path, parameters: VisualizationParameters)
      requires IsNode(tree, node)
      modifies this`highlighted
      ensures highlighted == old(highlighted) + KeptLeaves(old(tree), node, ShownFilter(parameters))
    {
      HighlightLeaves(node, ShownFilter(parameters));
    }

    /** Appends, in leaf order, every shown leaf of the whole tree with the given extension. */
    method HighlightMatchingFileExtensions(extension: string, parameters: VisualizationParameters)
      modifies this`highlighted
      ensures highlighted == old(highlighted) + KeptLeaves(old(tree), [], ExtensionFilter(extension, parameters))
    {
      HighlightLeaves([], ExtensionFilter(extension, parameters));
    }

    /** The `VisualizationModel` form: the extension is taken from a sample node. */
    method HighlightMatchingFileExtension(sampleNode: Path, parameters: VisualizationParameters)
      requires IsNode(tree, sampleNode)
      modifies this`highlighted
      ensures highlighted == old(highlighted) +
        KeptLeaves(old(tree), [], ExtensionFilter(At(old(tree), sampleNode).file.extension, parameters))
    {
      HighlightLeaves([], ExtensionFilter(At(tree, sampleNode).file.extension, parameters));
    }

    /** The leaf walk shared by the descendant and extension passes. */
    method HighlightLeaves(root: Path, keep: VizBlock -> bool)
      requires IsNode(tree, root)
      modifies this`highlighted
      ensures highlighted == old(highlighted) + KeptLeaves(old(tree), root, keep)
    {
      var t := tree;
      ghost var L := LeavesAt(t, root);
      LeafWalkBegins(t, root);
      var it := BeginLeaves(t, root);
      var n := 0;
      while it.current.Some?
        invariant LeafWalk(t, root, L, it, n)
        invariant highlighted == old(highlighted) + Select(t, L[..n], keep)
        decreases |L| - n
      {
        LeafWalkAdvances(t, root, L, it, n);
        it := VisitLeaf(t, L, it, n, keep, old(highlighted));
        n := n + 1;
      }
      assert L[..n] == L;
    }

    /** One turn of the leaf walk: highlight the current leaf if it is kept, then step. */
    method VisitLeaf(t: Tree<VizBlock>, ghost L: seq<Path>, it: Iterator, n: nat,
                     keep: VizBlock -> bool, ghost start: seq<Path>) returns (next: Iterator)
      requires tree == t && (forall q :: q in L ==> IsNode(t, q)) && n < |L| && it.current == Some(L[n])
      requires highlighted == start + Select(t, L[..n], keep)
      modifies this`highlighted
      ensures next == LeafStep(t, it)
      ensures highlighted == start + Select(t, L[..n + 1], keep)
    {
      var q := it.current.value;
      SelectStep(t, L, n, keep);
      if keep(At(t, q)) {
        HighlightNode(q);
      }
      next := LeafStep(t, it);
    }

    /** Appends, in post-order, every node of the tree whose name matches the query. */
    method HighlightMatchingFileNames(searchQuery: string, parameters: VisualizationParameters,
                                      shouldSearchFiles: bool, shouldSearchDirectories: bool)
      modifies this`highlighted
      ensures highlighted == old(highlighted) +
        KeptNodes(old(tree), [], NameFilter(searchQuery, parameters, shouldSearchFiles, shouldSearchDirectories))
    {
      var t := tree;
      var keep := NameFilter(searchQuery, parameters, shouldSearchFiles, shouldSearchDirectories);
      ghost var L := PostOrderAt(t, []);
      PostOrderWalkBegins(t, []);
      var it := BeginPostOrder(t, []);
      var n := 0;
      while it.current.Some?
        invariant PostOrderWalk(t, [], L, it, n)
        invariant highlighted == old(highlighted) + Select(t, L[..n], keep)
        decreases |L| - n
      {
        PostOrderWalkAdvances(t, [], L, it, n);
        it := VisitNode(t, L, it, n, keep, old(highlighted));
        n := n + 1;
      }
      assert L[..n] == L;
    }

    /** One turn of the post-order walk: highlight the current node if it is kept, then step. */
    method VisitNode(t: Tree<VizBlock>, ghost L: seq<Path>, it: PostOrderIterator, n: nat,
                     keep: VizBlock -> bool, ghost start: seq<Path>) returns (next: PostOrderIterator)
      requires tree == t && (forall q :: q in L ==> IsNode(t, q)) && n < |L| && it.current == Some(L[n])
      requires highlighted == start + Select(t, L[..n], keep)
      modifies this`highlighted
      ensures next == PostOrderStep(t, it)
      ensures highlighted == start + Select(t, L[..n + 1], keep)
    {
      var q := it.current.value;
      SelectStep(t, L, n, keep);
      if keep(At(t, q)) {
        HighlightNode(q);
      }
      next := PostOrderStep(t, it);
    }

    /** Only a parsed tree gets its bounding boxes recomputed. */
    method UpdateBoundingBoxes()
      modifies this
      ensures old(hasDataBeenParsed) ==> BoundingBoxes.HasBoxes(old(tree), tree)
      ensures !old(hasDataBeenParsed) ==> tree == old(tree)
      ensures highlighted == old(highlighted) && selected == old(selected) && hasDataBeenParsed == old(hasDataBeenParsed)
    {
      if !hasDataBeenParsed {
        return;
      }
      tree := BoundingBoxes.UpdatedBoundingBoxes(tree);
    }

    /** Re-totals every ancestor of `node` from its children, climbing to the head. */
    method UpdateAncestorSizes(node: Path)
      requires IsNode(tree, node) && AncestorSizes.SiblingsNonEmpty(tree, node)
      modifies this
      ensures AncestorSizes.SummedFrom(old(tree), tree, node, 0)
      ensures highlighted == old(highlighted) && selected == old(selected) && hasDataBeenParsed == old(hasDataBeenParsed)
    {
      tree := AncestorSizes.UpdatedAncestorSizes(tree, node);
    }

    /** Sorts every node's children largest first. */
    method SortNodes()
      modifies this
      ensures tree == SizeSort.SortNodes(old(tree))
      ensures highlighted == old(highlighted) && selected == old(selected) && hasDataBeenParsed == old(hasDataBeenParsed)
    {
      tree := SizeSort.SortNodes(tree);
    }

    /**
     * `FindNodeUsingPath`: follows the components from the head while some child's full name
     * matches, and returns the deepest node reached (the head when nothing matches).
     */
    method FindNodeUsingPath(components: seq<string>) returns (node: Path)
      ensures IsNode(tree, node) && |node| <= |components|
      ensures forall k :: 0 <= k < |node| ==> IsFirstMatch(tree, node[..k], node[k], components[k])
      ensures |node| < |components| ==> NoMatch(tree, node, components[|node|])
    {
      node := DescendMatching(tree, [], components);
    }
  }
}
