/**
 * The scanner's pure steps (Source/Model/Scanner/scanningUtilities.cpp and
 * Source/Model/Scanner/scanningWorker.cpp): which paths are scanned and what each adds to
 * the tree, the post-order pass that gives every directory its size, and the pruning of
 * everything of size zero.
 */
module Scanning {
  import opened Wrappers
  import opened FileData
  import opened NodeTree
  import opened Traversal
  import opened TreeOrders
  import FileModel
  import AncestorSizes
  import SanitizePaths

  /** `ScanningWorker::UndefinedFileSize`: the size every directory starts with. */
  const UndefinedFileSize: nat := 0

  // ---------------------------------------------------------------------------------
  // File sizes from the two 32-bit halves reported by the Windows API
  // ---------------------------------------------------------------------------------

  /** The range of one 32-bit half. */
  const WordRange: nat := 0x1_0000_0000

  /**
   * `(highWord << 32) | lowWord` in a 64-bit unsigned integer: the shift and the disjoint
   * `|` are written as arithmetic.  The result fits in 64 bits, and both halves can be read
   * back from it.
   */
  function CombinedFileSize(highWord: nat, lowWord: nat): (size: nat)
    requires highWord < WordRange && lowWord < WordRange
    ensures size < WordRange * WordRange
    ensures size / WordRange == highWord && size % WordRange == lowWord
  {
    highWord * WordRange + lowWord
  }

  // ---------------------------------------------------------------------------------
  // The reference definition of the directory sizes
  // ---------------------------------------------------------------------------------

  /**
   * The size a node ends with: its own size, plus, for a directory, the final sizes of its
   * children.  A parent that is not a directory receives nothing.
   */
  function ComputedSize(s: Tree<VizBlock>): nat
    decreases s, 1
  {
    s.data.file.size + (if s.data.file.fileType == Directory then ComputedChildSizes(s, |s.children|) else 0)
  }

  /** The final sizes of the first `i` children together. */
  function ComputedChildSizes(s: Tree<VizBlock>, i: nat): nat
    requires i <= |s.children|
    decreases s, 0, i
  {
    if i == 0 then 0 else ComputedChildSizes(s, i - 1) + ComputedSize(s.children[i - 1])
  }

  /** `u` is `t` with every node's size replaced by its computed size, and nothing else changed. */
  ghost predicate HasComputedSizes(t: Tree<VizBlock>, u: Tree<VizBlock>)
  {
    && (forall q :: IsNode(u, q) <==> IsNode(t, q))
    && (forall q :: IsNode(t, q) ==>
          ChildCount(u, q) == ChildCount(t, q) &&
          At(u, q) == At(t, q).(file := At(t, q).file.(size := ComputedSize(Sub(t, q)))))
  }

  /** Every directory of a subtree still has its starting size of zero. */
  ghost predicate UnsizedDirectories(s: Tree<VizBlock>)
    decreases s
  {
    && (s.data.file.fileType == Directory ==> s.data.file.size == UndefinedFileSize)
    && forall i :: 0 <= i < |s.children| ==> UnsizedDirectories(s.children[i])
  }

  /**
   * The bytes of the regular files of a subtree: a regular file counts its own size, a
   * directory the bytes of its children.
   */
  function RegularBytes(s: Tree<VizBlock>): nat
    decreases s, 1
  {
    if s.data.file.fileType == Directory then RegularChildBytes(s, |s.children|) else s.data.file.size
  }

  function RegularChildBytes(s: Tree<VizBlock>, i: nat): nat
    requires i <= |s.children|
    decreases s, 0, i
  {
    if i == 0 then 0 else RegularChildBytes(s, i - 1) + RegularBytes(s.children[i - 1])
  }

  /** With directories starting at zero, every node ends with the bytes of the regular files below it. */
  lemma {:induction false} ComputedSizeIsRegularBytes(s: Tree<VizBlock>)
    requires UnsizedDirectories(s)
    ensures ComputedSize(s) == RegularBytes(s)
    decreases s, 1
  {
    if s.data.file.fileType == Directory {
      ComputedChildSizesAreRegularBytes(s, |s.children|);
    }
  }

  lemma {:induction false} ComputedChildSizesAreRegularBytes(s: Tree<VizBlock>, i: nat)
    requires UnsizedDirectories(s) && i <= |s.children|
    ensures ComputedChildSizes(s, i) == RegularChildBytes(s, i)
    decreases s, 0, i
  {
    if i > 0 {
      ComputedChildSizesAreRegularBytes(s, i - 1);
      ComputedSizeIsRegularBytes(s.children[i - 1]);
    }
  }

  /** A node that is not a directory keeps its data, its size included. */
  lemma NonDirectoriesKeepTheirSize(t: Tree<VizBlock>, u: Tree<VizBlock>, q: Path)
    requires HasComputedSizes(t, u) && IsNode(t, q) && At(t, q).file.fileType != Directory
    ensures At(u, q) == At(t, q)
  {
  }

  /**
   * After the pass, with directories starting at zero and only directories holding
   * children, every node with children is as large as its children together: the state
   * `UpdateAncestorSizes` keeps.
   */
  lemma ComputedSizesAreConsistent(t: Tree<VizBlock>, u: Tree<VizBlock>)
    requires HasComputedSizes(t, u)
    requires forall q :: IsNode(t, q) && At(t, q).file.fileType == Directory ==> At(t, q).file.size == UndefinedFileSize
    requires forall q :: IsNode(t, q) && ChildCount(t, q) > 0 ==> At(t, q).file.fileType == Directory
    ensures AncestorSizes.Consistent(u)
  {
    forall q | IsNode(u, q) && ChildCount(u, q) > 0
      ensures At(u, q).file.size == AncestorSizes.ChildSizes(u, q)
    {
      ChildSizesAreComputed(t, u, q, ChildCount(t, q));
    }
  }

  lemma ChildSizesAreComputed(t: Tree<VizBlock>, u: Tree<VizBlock>, q: Path, i: nat)
    requires HasComputedSizes(t, u) && IsNode(t, q) && i <= ChildCount(t, q)
    ensures AncestorSizes.SizesUpTo(u, q, i) == ComputedChildSizes(Sub(t, q), i)
  {
    forall j | 0 <= j < ChildCount(t, q)
      ensures IsNode(u, q + [j]) && At(u, q + [j]).file.size == ComputedSize(Sub(t, q).children[j])
    {
      Snoc(t, q, j);
    }
    StoredChildSizes(t, u, q, i);
  }

  /** The stored sizes of the first `i` children add up to their computed sizes. */
  lemma {:induction false} StoredChildSizes(t: Tree<VizBlock>, u: Tree<VizBlock>, q: Path, i: nat)
    requires IsNode(t, q) && IsNode(u, q) && ChildCount(u, q) == ChildCount(t, q) && i <= ChildCount(t, q)
    requires forall j :: 0 <= j < ChildCount(t, q) ==>
      IsNode(u, q + [j]) && At(u, q + [j]).file.size == ComputedSize(Sub(t, q).children[j])
    ensures AncestorSizes.SizesUpTo(u, q, i) == ComputedChildSizes(Sub(t, q), i)
    decreases i
  {
    if i > 0 {
      StoredChildSizes(t, u, q, i - 1);
    }
  }

  // ---------------------------------------------------------------------------------
  // `ComputeDirectorySizes`: the post-order walk adding each node into its parent
  // ---------------------------------------------------------------------------------

  /** The final sizes of those of the first `i` children of `q` that are listed in `V`. */
  function VisitedChildSizes(t: Tree<VizBlock>, q: Path, V: seq<Path>, i: nat): nat
    requires IsNode(t, q) && i <= ChildCount(t, q)
  {
    if i == 0 then 0
    else
      Snoc(t, q, i - 1);
      VisitedChildSizes(t, q, V, i - 1) + (if q + [i - 1] in V then ComputedSize(Sub(t, q + [i - 1])) else 0)
  }

  lemma {:induction false} VisitedOtherChild(t: Tree<VizBlock>, q: Path, V: seq<Path>, x: Path, i: nat)
    requires IsNode(t, q) && i <= ChildCount(t, q) && (x == [] || Parent(x) != q)
    ensures VisitedChildSizes(t, q, V + [x], i) == VisitedChildSizes(t, q, V, i)
    decreases i
  {
    if i > 0 {
      VisitedOtherChild(t, q, V, x, i - 1);
      Snoc(t, q, i - 1);
    }
  }

  lemma {:induction false} VisitedNewChild(t: Tree<VizBlock>, q: Path, V: seq<Path>, j: nat, i: nat)
    requires IsNode(t, q) && i <= ChildCount(t, q) && IsNode(t, q + [j]) && q + [j] !in V
    ensures VisitedChildSizes(t, q, V + [q + [j]], i) ==
      VisitedChildSizes(t, q, V, i) + (if j < i then ComputedSize(Sub(t, q + [j])) else 0)
    decreases i
  {
    if i > 0 {
      VisitedNewChild(t, q, V, j, i - 1);
      Snoc(t, q, i - 1);
      Snoc(t, q, j);
    }
  }

  lemma {:induction false} VisitedAllChildren(t: Tree<VizBlock>, q: Path, V: seq<Path>, i: nat)
    requires IsNode(t, q) && i <= ChildCount(t, q)
    requires forall j :: 0 <= j < i ==> q + [j] in V
    ensures VisitedChildSizes(t, q, V, i) == ComputedChildSizes(Sub(t, q), i)
    decreases i
  {
    if i > 0 {
      VisitedAllChildren(t, q, V, i - 1);
      Snoc(t, q, i - 1);
    }
  }

  /**
   * After visiting `L[..n]`: only sizes differ from `t`, and every node holds its own size
   * plus, for a directory, the final sizes of its children visited so far.
   */
  ghost predicate SizedUpTo(t: Tree<VizBlock>, u: Tree<VizBlock>, L: seq<Path>, n: nat)
  {
    && n <= |L|
    && (forall q :: IsNode(u, q) <==> IsNode(t, q))
    && (forall q :: IsNode(t, q) ==>
          ChildCount(u, q) == ChildCount(t, q) &&
          At(u, q) == At(t, q).(file := At(t, q).file.(size := At(u, q).file.size)))
    && (forall q :: IsNode(t, q) ==>
          At(u, q).file.size == At(t, q).file.size +
            (if At(t, q).file.fileType == Directory then VisitedChildSizes(t, q, L[..n], ChildCount(t, q)) else 0))
  }

  /**
   * `ComputeDirectorySizes`: walks the tree in post-order and adds each node's size to its
   * parent when the parent is a directory, stopping at the node without a parent, which is
   * the head and comes last.  The walk runs over the shape of `t`, which the pass never changes.
   */
  method ComputeDirectorySizes(t: Tree<VizBlock>) returns (u: Tree<VizBlock>)
    ensures HasComputedSizes(t, u)
  {
    ghost var L := PostOrderAt(t, []);
    FileModel.PostOrderWalkBegins(t, []);
    SizingBegins(t);
    var it := BeginPostOrder(t, []);
    u := t;
    ghost var n := 0;
    while it.current.Some?
      invariant FileModel.PostOrderWalk(t, [], L, it, n)
      invariant SizedUpTo(t, u, L, n)
      invariant ChildrenFirst(t, L) && Distinct(L)
      decreases |L| - n
    {
      var node := it.current.value;
      if node == [] {
        HeadComesLast(t, L, n);
        AllSized(t, u, L, n);
        return;
      }
      u := AddToParent(t, u, L, n, node);
      FileModel.PostOrderWalkAdvances(t, [], L, it, n);
      it := PostOrderStep(t, it);
      n := n + 1;
    }
    SizingFinishes(t, u, L, n);
  }

  /** Before the walk, the tree is its own partly sized copy, with no child visited. */
  lemma SizingBegins(t: Tree<VizBlock>)
    ensures SizedUpTo(t, t, PostOrderAt(t, []), 0)
    ensures ChildrenFirst(t, PostOrderAt(t, [])) && Distinct(PostOrderAt(t, []))
  {
    PostOrderChildrenFirst(t, []);
    PostOrderAtDistinct(t, []);
    forall q | IsNode(t, q) && At(t, q).file.fileType == Directory
      ensures VisitedChildSizes(t, q, PostOrderAt(t, [])[..0], ChildCount(t, q)) == 0
    {
      NoneVisited(t, q, PostOrderAt(t, [])[..0], ChildCount(t, q));
    }
  }

  /** A walk that visited every node has computed every size. */
  lemma SizingFinishes(t: Tree<VizBlock>, u: Tree<VizBlock>, L: seq<Path>, n: nat)
    requires L == PostOrderAt(t, []) && n == |L| && SizedUpTo(t, u, L, n)
    ensures HasComputedSizes(t, u)
  {
    forall q | IsNode(t, q) && q != [] ensures q in L[..n] {
      PostOrderAtMembers(t, [], q);
      assert L[..n] == L;
    }
    AllSized(t, u, L, n);
  }

  lemma {:induction false} NoneVisited(t: Tree<VizBlock>, q: Path, V: seq<Path>, i: nat)
    requires IsNode(t, q) && i <= ChildCount(t, q) && V == []
    ensures VisitedChildSizes(t, q, V, i) == 0
    decreases i
  {
    if i > 0 {
      NoneVisited(t, q, V, i - 1);
    }
  }

  /** When the walk reaches the head, every other node has been visited. */
  lemma HeadComesLast(t: Tree<VizBlock>, L: seq<Path>, n: nat)
    requires Distinct(L) && L == PostOrderAt(t, []) && n < |L| && L[n] == []
    ensures forall q :: IsNode(t, q) && q != [] ==> q in L[..n]
  {
    forall q | IsNode(t, q) && q != []
      ensures q in L[..n]
    {
      PostOrderAtMembers(t, [], q);
      var k :| 0 <= k < |L| && L[k] == q;
      assert L == PostOrderFrom(t, [], 0) + [[]];
      assert L[|L| - 1] == [];
      assert n == |L| - 1;
      assert k != n;
    }
  }

  /** Once every node but the head has been visited, every node holds its computed size. */
  lemma AllSized(t: Tree<VizBlock>, u: Tree<VizBlock>, L: seq<Path>, n: nat)
    requires SizedUpTo(t, u, L, n)
    requires forall q :: IsNode(t, q) && q != [] ==> q in L[..n]
    ensures HasComputedSizes(t, u)
  {
    forall q: Path | IsNode(t, q)
      ensures At(u, q).file.size == ComputedSize(Sub(t, q))
    {
      forall j | 0 <= j < ChildCount(t, q) ensures q + [j] in L[..n] {
        Snoc(t, q, j);
      }
      VisitedAllChildren(t, q, L[..n], ChildCount(t, q));
    }
  }

  /** One turn of the walk: the visited node's size, now final, goes into a directory parent. */
  method AddToParent(t: Tree<VizBlock>, u: Tree<VizBlock>, ghost L: seq<Path>, ghost n: nat, node: Path)
    returns (v: Tree<VizBlock>)
    requires SizedUpTo(t, u, L, n) && n < |L| && L[n] == node && node != []
    requires ChildrenFirst(t, L) && Distinct(L)
    ensures SizedUpTo(t, v, L, n + 1)
  {
    var parent := Parent(node);
    NodeSizeIsFinal(t, u, L, n);
    PrefixIsNode(t, node, parent);
    VisitedSizesStep(t, L, n, node);
    var parentData := At(u, parent);
    if parentData.file.fileType == Directory {
      var updated := parentData.(file := parentData.file.(size := parentData.file.size + At(u, node).file.size));
      v := UpdateAt(u, parent, updated);
      AddedToDirectory(t, u, L, n, updated);
    } else {
      v := u;
      SkippedOtherParent(t, u, L, n);
    }
  }

  /** A directory parent grows by the visited node's final size, which brings it up to date. */
  lemma AddedToDirectory(t: Tree<VizBlock>, u: Tree<VizBlock>, L: seq<Path>, n: nat, updated: VizBlock)
    requires SizedUpTo(t, u, L, n) && n < |L| && L[n] != [] && IsNode(t, L[n]) && IsNode(t, Parent(L[n]))
    requires At(u, L[n]).file.size == ComputedSize(Sub(t, L[n]))
    requires forall q :: IsNode(t, q) ==>
      VisitedChildSizes(t, q, L[..n + 1], ChildCount(t, q)) ==
        VisitedChildSizes(t, q, L[..n], ChildCount(t, q)) + (if q == Parent(L[n]) then ComputedSize(Sub(t, L[n])) else 0)
    requires At(u, Parent(L[n])).file.fileType == Directory
    requires updated == At(u, Parent(L[n])).(file := At(u, Parent(L[n])).file.(size := At(u, Parent(L[n])).file.size + At(u, L[n]).file.size))
    ensures SizedUpTo(t, UpdateAt(u, Parent(L[n]), updated), L, n + 1)
  {
    var parent := Parent(L[n]);
    var v := UpdateAt(u, parent, updated);
    forall q ensures IsNode(v, q) <==> IsNode(u, q)
      ensures IsNode(u, q) ==> ChildCount(v, q) == ChildCount(u, q) && At(v, q) == (if q == parent then updated else At(u, q))
    {
      UpdateAtFacts(u, parent, updated, q);
    }
  }

  /** A parent that is not a directory keeps its size, and its visited total does not count. */
  lemma SkippedOtherParent(t: Tree<VizBlock>, u: Tree<VizBlock>, L: seq<Path>, n: nat)
    requires SizedUpTo(t, u, L, n) && n < |L| && L[n] != [] && IsNode(t, L[n]) && IsNode(t, Parent(L[n]))
    requires forall q :: IsNode(t, q) ==>
      VisitedChildSizes(t, q, L[..n + 1], ChildCount(t, q)) ==
        VisitedChildSizes(t, q, L[..n], ChildCount(t, q)) + (if q == Parent(L[n]) then ComputedSize(Sub(t, L[n])) else 0)
    requires At(u, Parent(L[n])).file.fileType != Directory
    ensures SizedUpTo(t, u, L, n + 1)
  {
  }

  /** The node being visited already holds its computed size: its children came before it. */
  lemma NodeSizeIsFinal(t: Tree<VizBlock>, u: Tree<VizBlock>, L: seq<Path>, n: nat)
    requires SizedUpTo(t, u, L, n) && n < |L| && ChildrenFirst(t, L)
    ensures IsNode(t, L[n]) && At(u, L[n]).file.size == ComputedSize(Sub(t, L[n]))
  {
    var p := L[n];
    forall j | 0 <= j < ChildCount(t, p) ensures p + [j] in L[..n] {
    }
    VisitedAllChildren(t, p, L[..n], ChildCount(t, p));
  }

  /** Visiting `L[n]` adds its computed size to its parent's visited total and to no other. */
  lemma VisitedSizesStep(t: Tree<VizBlock>, L: seq<Path>, n: nat, node: Path)
    requires n < |L| && L[n] == node && node != [] && IsNode(t, node) && Distinct(L)
    ensures forall q :: IsNode(t, q) ==>
      VisitedChildSizes(t, q, L[..n + 1], ChildCount(t, q)) ==
        VisitedChildSizes(t, q, L[..n], ChildCount(t, q)) + (if q == Parent(node) then ComputedSize(Sub(t, node)) else 0)
  {
    assert L[..n + 1] == L[..n] + [node];
    assert node !in L[..n];
    var parent := Parent(node);
    assert node == parent + [Last(node)];
    PrefixIsNode(t, node, parent);
    Snoc(t, parent, Last(node));
    forall q | IsNode(t, q)
      ensures VisitedChildSizes(t, q, L[..n + 1], ChildCount(t, q)) ==
        VisitedChildSizes(t, q, L[..n], ChildCount(t, q)) + (if q == parent then ComputedSize(Sub(t, node)) else 0)
    {
      if q == parent {
        VisitedNewChild(t, q, L[..n], Last(node), ChildCount(t, q));
      } else {
        VisitedOtherChild(t, q, L[..n], node, ChildCount(t, q));
      }
    }
  }

  // ---------------------------------------------------------------------------------
  // Which paths are scanned, and what each adds
  // ---------------------------------------------------------------------------------

  /** Whether some component of the path is "." or "..". */
  predicate IsProblematic(components: seq<string>)
  {
    exists i :: 0 <= i < |components| &&
      (components[i] == SanitizePaths.ParentDirectory || components[i] == SanitizePaths.CurrentDirectory)
  }

  /** `ContainsProblematicPathElements`: scans the components and stops at the first "." or "..". */
  method ContainsProblematicPathElements(components: seq<string>) returns (problematic: bool)
    ensures problematic <==> IsProblematic(components)
  {
    for i := 0 to |components|
      invariant forall j :: 0 <= j < i ==>
        components[j] != SanitizePaths.ParentDirectory && components[j] != SanitizePaths.CurrentDirectory
    {
      var data := components[i];
      if data == SanitizePaths.ParentDirectory || data == SanitizePaths.CurrentDirectory {
        return true;
      }
    }
    return false;
  }

  /** A path the scanner accepts is one that sanitising leaves as it is. */
  lemma AcceptedPathsAreSanitized(components: seq<string>)
    requires !IsProblematic(components)
    ensures SanitizePaths.Sanitized(components) == components
  {
    SanitizePaths.CleanIsFixedPoint(components);
  }

  /**
   * What the file system reports about a path: a regular file with its name, extension and
   * size; a directory with its name, whether it is empty and whether it may be entered (not a
   * symbolic link or reparse point); anything else; or an error while asking.
   */
  datatype Entry =
    | RegularFileEntry(name: string, extension: string, size: nat)
    | DirectoryEntry(name: string, isEmpty: bool, isScannable: bool)
    | OtherEntry
    | UnreadableEntry

  /** `ProcessFile`: the node to append for a regular file, none for an empty one. */
  function ProcessFile(name: string, extension: string, fileSize: nat): (r: Option<FileInfo>)
    ensures r.Some? <==> fileSize != 0
    ensures r.Some? ==> r.value == FileInfo(name, extension, fileSize, Regular)
  {
    if fileSize == 0 then None else Some(FileInfo(name, extension, fileSize, Regular))
  }

  /**
   * `ProcessPath`: the node appended under the current one, if any.  Nothing is appended for a
   * problematic path, after cancellation, for an empty regular file, for an empty or
   * unenterable directory, or when the file system cannot answer.  A directory's node starts
   * with no extension and the undefined size; its contents are queued next.
   */
  function ProcessPath(components: seq<string>, cancelled: bool, entry: Entry): (r: Option<FileInfo>)
    ensures IsProblematic(components) || cancelled ==> r == None
    ensures r.Some? && r.value.fileType == Regular ==>
      entry.RegularFileEntry? && r.value == FileInfo(entry.name, entry.extension, entry.size, Regular) && entry.size > 0
    ensures r.Some? && r.value.fileType == Directory ==>
      entry.DirectoryEntry? && !entry.isEmpty && entry.isScannable &&
      r.value == FileInfo(entry.name, [], UndefinedFileSize, Directory)
    ensures !IsProblematic(components) && !cancelled ==>
      (entry.RegularFileEntry? && entry.size > 0 ==> r.Some?) &&
      (entry.DirectoryEntry? && !entry.isEmpty && entry.isScannable ==> r.Some?)
  {
    if IsProblematic(components) || cancelled then None
    else
      match entry
      case RegularFileEntry(name, extension, size) => ProcessFile(name, extension, size)
      case DirectoryEntry(name, isEmpty, isScannable) =>
        if !isScannable || isEmpty then None else Some(FileInfo(name, [], UndefinedFileSize, Directory))
      case OtherEntry => None
      case UnreadableEntry => None
  }

  // ---------------------------------------------------------------------------------
  // `PruneEmptyFilesAndDirectories`
  // ---------------------------------------------------------------------------------

  function EmptyFilter(): VizBlock -> bool
  {
    (b: VizBlock) => b.file.size == 0
  }

  /** The tree after deleting every node of size zero with everything below it; the head stays. */
  function Pruned(s: Tree<VizBlock>): (r: Tree<VizBlock>)
    ensures r.data == s.data
    decreases s, 1
  {
    Node(s.data, PrunedChildren(s, |s.children|))
  }

  /** The first `i` children, pruned, less those of size zero. */
  function PrunedChildren(s: Tree<VizBlock>, i: nat): (r: seq<Tree<VizBlock>>)
    requires i <= |s.children|
    ensures |r| <= i
    decreases s, 0, i
  {
    if i == 0 then []
    else
      var c := s.children[i - 1];
      PrunedChildren(s, i - 1) + (if c.data.file.size == 0 then [] else [Pruned(c)])
  }

  /** No node below the head has size zero. */
  ghost predicate NoEmptyBelow(s: Tree<VizBlock>)
    decreases s
  {
    forall i :: 0 <= i < |s.children| ==> s.children[i].data.file.size != 0 && NoEmptyBelow(s.children[i])
  }

  /**
   * Each directory is as large as its children together, as `ComputeDirectorySizes` leaves
   * a tree whose directories start at zero.
   */
  ghost predicate DirectoriesSummed(s: Tree<VizBlock>)
    decreases s
  {
    && (s.data.file.fileType == Directory ==> s.data.file.size == ChildSizeTotal(s, |s.children|))
    && forall i :: 0 <= i < |s.children| ==> DirectoriesSummed(s.children[i])
  }

  function ChildSizeTotal(s: Tree<VizBlock>, i: nat): nat
    requires i <= |s.children|
  {
    if i == 0 then 0 else ChildSizeTotal(s, i - 1) + s.children[i - 1].data.file.size
  }

  /** After pruning, nothing below the head has size zero. */
  lemma {:induction false} PrunedHasNoEmptyNodes(s: Tree<VizBlock>)
    ensures NoEmptyBelow(Pruned(s))
    decreases s, 1
  {
    PrunedChildrenNotEmpty(s, |s.children|);
  }

  lemma {:induction false} PrunedChildrenNotEmpty(s: Tree<VizBlock>, i: nat)
    requires i <= |s.children|
    ensures forall k :: 0 <= k < |PrunedChildren(s, i)| ==>
      PrunedChildren(s, i)[k].data.file.size != 0 && NoEmptyBelow(PrunedChildren(s, i)[k])
    decreases s, 0, i
  {
    if i > 0 {
      PrunedChildrenNotEmpty(s, i - 1);
      var c := s.children[i - 1];
      if c.data.file.size != 0 {
        PrunedHasNoEmptyNodes(c);
      }
    }
  }

  /** When directories hold their children's total, every node is as large as its regular bytes. */
  lemma {:induction false} SummedSizeIsRegularBytes(s: Tree<VizBlock>)
    requires DirectoriesSummed(s)
    ensures s.data.file.size == RegularBytes(s)
    decreases s, 1
  {
    if s.data.file.fileType == Directory {
      ChildTotalsAreRegularBytes(s, |s.children|);
    }
  }

  lemma {:induction false} ChildTotalsAreRegularBytes(s: Tree<VizBlock>, i: nat)
    requires DirectoriesSummed(s) && i <= |s.children|
    ensures ChildSizeTotal(s, i) == RegularChildBytes(s, i)
    decreases s, 0, i
  {
    if i > 0 {
      ChildTotalsAreRegularBytes(s, i - 1);
      SummedSizeIsRegularBytes(s.children[i - 1]);
    }
  }

  /**
   * Pruning a tree whose directories hold their children's total loses no regular bytes:
   * a node of size zero has no bytes below it.
   */
  lemma {:induction false} PruningKeepsRegularBytes(s: Tree<VizBlock>)
    requires DirectoriesSummed(s)
    ensures RegularBytes(Pruned(s)) == RegularBytes(s)
    decreases s, 1
  {
    if s.data.file.fileType == Directory {
      var kept := PrunedChildren(s, |s.children|);
      PruningKeepsChildBytes(s, |s.children|);
      ChildBytesAreForestBytes(Pruned(s), |kept|);
      assert Pruned(s).children[..|kept|] == kept;
    }
  }

  /** The regular bytes of a sequence of subtrees together. */
  function ForestBytes(cs: seq<Tree<VizBlock>>): nat
  {
    if cs == [] then 0 else ForestBytes(cs[..|cs| - 1]) + RegularBytes(cs[|cs| - 1])
  }

  lemma {:induction false} ChildBytesAreForestBytes(s: Tree<VizBlock>, i: nat)
    requires i <= |s.children|
    ensures RegularChildBytes(s, i) == ForestBytes(s.children[..i])
    decreases i
  {
    if i > 0 {
      ChildBytesAreForestBytes(s, i - 1);
      assert s.children[..i][..i - 1] == s.children[..i - 1];
    }
  }

  lemma {:induction false} PruningKeepsChildBytes(s: Tree<VizBlock>, i: nat)
    requires DirectoriesSummed(s) && i <= |s.children|
    ensures ForestBytes(PrunedChildren(s, i)) == RegularChildBytes(s, i)
    decreases s, 0, i
  {
    if i > 0 {
      PruningKeepsChildBytes(s, i - 1);
      var c := s.children[i - 1];
      var before := PrunedChildren(s, i - 1);
      if c.data.file.size == 0 {
        SummedSizeIsRegularBytes(c);
        assert PrunedChildren(s, i) == before;
      } else {
        PruningKeepsRegularBytes(c);
        assert PrunedChildren(s, i) == before + [Pruned(c)];
        assert (before + [Pruned(c)])[..|before|] == before;
      }
    }
  }

  /** Directories that hold their children's total, node by node, do so subtree by subtree. */
  lemma {:induction false} SummedBelow(u: Tree<VizBlock>, q: Path)
    requires IsNode(u, q)
    requires forall r :: IsNode(u, r) && At(u, r).file.fileType == Directory ==>
      At(u, r).file.size == AncestorSizes.ChildSizes(u, r)
    ensures DirectoriesSummed(Sub(u, q))
    decreases Sub(u, q)
  {
    var s := Sub(u, q);
    forall i | 0 <= i < |s.children|
      ensures DirectoriesSummed(s.children[i])
    {
      Snoc(u, q, i);
      SummedBelow(u, q + [i]);
    }
    ChildTotalsAreStored(u, q, |s.children|);
  }

  lemma {:induction false} ChildTotalsAreStored(u: Tree<VizBlock>, q: Path, i: nat)
    requires IsNode(u, q) && i <= ChildCount(u, q)
    ensures ChildSizeTotal(Sub(u, q), i) == AncestorSizes.SizesUpTo(u, q, i)
    decreases i
  {
    if i > 0 {
      ChildTotalsAreStored(u, q, i - 1);
      Snoc(u, q, i - 1);
    }
  }

  /**
   * The scan's two passes together: once every directory, starting at zero, has been given
   * its size, pruning loses no regular bytes, and the head's size is still the bytes of the
   * regular files that remain.
   */
  lemma PruningAfterSizingKeepsBytes(t: Tree<VizBlock>, u: Tree<VizBlock>)
    requires HasComputedSizes(t, u)
    requires forall q :: IsNode(t, q) && At(t, q).file.fileType == Directory ==> At(t, q).file.size == UndefinedFileSize
    ensures RegularBytes(Pruned(u)) == RegularBytes(u)
    ensures Pruned(u).data.file.size == RegularBytes(Pruned(u))
  {
    forall r | IsNode(u, r) && At(u, r).file.fileType == Directory
      ensures At(u, r).file.size == AncestorSizes.ChildSizes(u, r)
    {
      ChildSizesAreComputed(t, u, r, ChildCount(t, r));
    }
    SummedBelow(u, []);
    PruningKeepsRegularBytes(u);
    SummedSizeIsRegularBytes(u);
  }

  /**
   * `PruneEmptyFilesAndDirectories`: the post-order walk lists every node of size zero,
   * children before parents, and the count of that list is what the source logs; deleting
   * the listed nodes leaves the pruned tree.
   */
  method PruneEmptyFilesAndDirectories(t: Tree<VizBlock>) returns (u: Tree<VizBlock>, nodesRemoved: nat)
    ensures nodesRemoved == |FileModel.KeptNodes(t, [], EmptyFilter())|
    ensures u == Pruned(t)
  {
    var toBeDeleted := FileModel.CollectPostOrder(t, EmptyFilter(), []);
    nodesRemoved := |toBeDeleted|;
    u := Pruned(t);
  }
}
