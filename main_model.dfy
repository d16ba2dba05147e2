/**
 * `MainModel` (source/mainModel.cpp): the oldest owner of the file tree and the highlighted
 * list.  Each highlight pass starts by clearing the list (the canvas restores the colours of
 * the nodes it held), and the search returns its matches instead of highlighting them.
 */
module MainModels {
  import opened Wrappers
  import opened FileData
  import opened NodeTree
  import opened TreeOrders
  import opened Traversal
  import FileModel
  import Controllers

  /** The descendant filter as `MainModel` writes it: only directories shown and a regular file, or too small. */
  predicate SkippedByMainModel(file: FileInfo, parameters: VisualizationParameters)
  {
    (parameters.onlyShowDirectories && file.fileType == Regular) || file.size < parameters.minimumFileSize
  }

  function DescendantFilter(parameters: VisualizationParameters): VizBlock -> bool
  {
    (b: VizBlock) => !SkippedByMainModel(b.file, parameters)
  }

  function MatchingExtensionFilter(extension: string, parameters: VisualizationParameters): VizBlock -> bool
  {
    (b: VizBlock) => !(SkippedByMainModel(b.file, parameters) || b.file.extension != extension)
  }

  /**
   * With only two file types, "is a regular file" and "is not a directory" agree, so
   * `MainModel` highlights exactly what the newer models highlight.
   */
  lemma MainModelHighlightsAsNewer(t: Tree<VizBlock>, p: Path, extension: string, parameters: VisualizationParameters)
    requires IsNode(t, p)
    ensures forall file :: SkippedByMainModel(file, parameters) <==> !IsShown(file, parameters)
    ensures FileModel.KeptLeaves(t, p, DescendantFilter(parameters)) == FileModel.KeptLeaves(t, p, FileModel.ShownFilter(parameters))
    ensures FileModel.KeptLeaves(t, [], MatchingExtensionFilter(extension, parameters)) ==
      FileModel.KeptLeaves(t, [], FileModel.ExtensionFilter(extension, parameters))
  {
    FileModel.LeavesAreNodes(t, p);
    SelectAgrees(t, LeavesAt(t, p), DescendantFilter(parameters), FileModel.ShownFilter(parameters));
    FileModel.LeavesAreNodes(t, []);
    SelectAgrees(t, LeavesAt(t, []), MatchingExtensionFilter(extension, parameters), FileModel.ExtensionFilter(extension, parameters));
  }

  class MainModel {
    var tree: Tree<VizBlock>
    /** `m_treeMap != nullptr`: a scan has been started. */
    var hasTreeMap: bool
    /** The tree map holds a parsed tree, so `GetTree` passes its assertion. */
    var parsed: bool
    var highlighted: seq<Path>
    var parameters: VisualizationParameters

    constructor(parameters: VisualizationParameters)
      ensures !hasTreeMap && !parsed && highlighted == [] && this.parameters == parameters
    {
      tree := Node(EmptyHead, []);
      hasTreeMap := false;
      parsed := false;
      highlighted := [];
      this.parameters := parameters;
    }

    /** `HasVisualizationBeenLoaded`: true as soon as a scan has been started, parsed or not. */
    predicate HasVisualizationBeenLoaded()
      reads this
    {
      hasTreeMap
    }

    /**
     * `GenerateNewVisualization(parameters)`: with a root directory in the given parameters,
     * and with no tree map yet or a forced new scan, a fresh tree map without a tree replaces
     * the old one and the scan starts.  The model's own parameters are not consulted.
     */
    method GenerateNewVisualization(scanParameters: VisualizationParameters) returns (scanStarted: bool)
      modifies this
      ensures scanStarted <==> scanParameters.rootDirectory != [] && (!old(hasTreeMap) || scanParameters.forceNewScan)
      ensures scanStarted ==> hasTreeMap && !parsed && tree == Node(EmptyHead, [])
      ensures !scanStarted ==> hasTreeMap == old(hasTreeMap) && parsed == old(parsed) && tree == old(tree)
      ensures highlighted == old(highlighted) && parameters == old(parameters)
    {
      if scanParameters.rootDirectory == [] {
        return false;
      }
      scanStarted := !HasVisualizationBeenLoaded() || scanParameters.forceNewScan;
      if scanStarted {
        tree := Node(EmptyHead, []);
        hasTreeMap := true;
        parsed := false;
      }
    }

    /**
     * The bookkeeping half of `ParseResults`: the laid-out tree becomes the tree map's tree.
     * The tree map is dereferenced, so a scan must have been started.
     */
    method ParseResults(laidOut: Tree<VizBlock>)
      requires hasTreeMap
      modifies this
      ensures tree == laidOut && parsed && hasTreeMap
      ensures highlighted == old(highlighted) && parameters == old(parameters)
    {
      tree := laidOut;
      parsed := true;
    }

    method SetVisualizationParameters(p: VisualizationParameters)
      modifies this
      ensures parameters == p
      ensures tree == old(tree) && hasTreeMap == old(hasTreeMap) && parsed == old(parsed) && highlighted == old(highlighted)
    {
      parameters := p;
    }

    /** The canvas restores the listed nodes' colours, then the list is emptied. */
    method ClearHighlightedNodes() returns (restored: seq<Path>)
      modifies this
      ensures restored == old(highlighted) && highlighted == []
      ensures tree == old(tree) && hasTreeMap == old(hasTreeMap) && parsed == old(parsed) && parameters == old(parameters)
    {
      restored := highlighted;
      highlighted := [];
    }

    /** Replaces the list with the node itself, its parent, ... up to the head. */
    method HighlightAncestors(selectedNode: Path) returns (restored: seq<Path>)
      modifies this
      ensures restored == old(highlighted)
      ensures highlighted == Controllers.SelfAndAncestors(selectedNode)
      ensures tree == old(tree) && hasTreeMap == old(hasTreeMap) && parsed == old(parsed) && parameters == old(parameters)
    {
      restored := ClearHighlightedNodes();
      var current := selectedNode;
      highlighted := highlighted + [current];
      while current != []
        invariant highlighted + Ancestors(current) == Controllers.SelfAndAncestors(selectedNode)
        invariant tree == old(tree) && hasTreeMap == old(hasTreeMap) && parsed == old(parsed) && parameters == old(parameters)
        decreases |current|
      {
        current := Parent(current);
        highlighted := highlighted + [current];
      }
    }

    /** Replaces the list with the leaves below the node that the parameters show, in leaf order. */
    method HighlightDescendants(selectedNode: Path) returns (restored: seq<Path>)
      requires IsNode(tree, selectedNode)
      modifies this
      ensures tree == old(tree) && hasTreeMap == old(hasTreeMap) && parsed == old(parsed) && parameters == old(parameters)
      ensures restored == old(highlighted)
      ensures highlighted == FileModel.KeptLeaves(tree, selectedNode, DescendantFilter(parameters))
    {
      restored := ClearHighlightedNodes();
      highlighted := FileModel.CollectLeaves(tree, selectedNode, DescendantFilter(parameters), highlighted);
    }

    /** Replaces the list with the shown leaves of the whole tree that share the node's extension. */
    method HighlightAllMatchingExtension(selectedNode: Path) returns (restored: seq<Path>)
      requires IsNode(tree, selectedNode)
      modifies this
      ensures tree == old(tree) && hasTreeMap == old(hasTreeMap) && parsed == old(parsed) && parameters == old(parameters)
      ensures restored == old(highlighted)
      ensures highlighted ==
        FileModel.KeptLeaves(tree, [], MatchingExtensionFilter(At(tree, selectedNode).file.extension, parameters))
    {
      var extension := At(tree, selectedNode).file.extension;
      restored := ClearHighlightedNodes();
      highlighted := FileModel.CollectLeaves(tree, [], MatchingExtensionFilter(extension, parameters), highlighted);
    }

    /**
     * `SearchTreeMap`, given the window's query: nothing for an empty query, before a scan
     * has been started, or when neither files nor directories are searched.  Otherwise, when
     * the tree map holds no parsed tree yet, `GetTree`'s assertion fails (`treeMissing`) and
     * nothing is found; with a parsed tree, every node, in post-order, that passes the filters
     * and whose name and extension contain the query ignoring case.  The model itself does
     * not change.
     */
    method SearchTreeMap(searchQuery: string, shouldSearchFiles: bool, shouldSearchDirectories: bool)
      returns (results: seq<Path>, treeMissing: bool)
      ensures treeMissing <==> searchQuery != [] && hasTreeMap && !parsed && (shouldSearchFiles || shouldSearchDirectories)
      ensures searchQuery == [] || !hasTreeMap || !parsed || (!shouldSearchFiles && !shouldSearchDirectories) ==> results == []
      ensures searchQuery != [] && hasTreeMap && parsed && (shouldSearchFiles || shouldSearchDirectories) ==>
        results == FileModel.KeptNodes(tree, [], FileModel.NameFilter(searchQuery, parameters, shouldSearchFiles, shouldSearchDirectories))
    {
      if searchQuery == [] || !HasVisualizationBeenLoaded() || (!shouldSearchFiles && !shouldSearchDirectories) {
        return [], false;
      }
      if !parsed {
        return [], true;
      }
      results := FileModel.CollectPostOrder(tree, FileModel.NameFilter(searchQuery, parameters, shouldSearchFiles, shouldSearchDirectories), []);
      treeMissing := false;
    }
  }

  /** The search finds each node once, and only nodes that pass the filters and contain the query. */
  lemma SearchResultsAreMatches(t: Tree<VizBlock>, query: string, parameters: VisualizationParameters,
                                shouldSearchFiles: bool, shouldSearchDirectories: bool)
    ensures var r := FileModel.KeptNodes(t, [], FileModel.NameFilter(query, parameters, shouldSearchFiles, shouldSearchDirectories));
      && Distinct(r)
      && (forall q :: q in r ==> IsNode(t, q) && ContainsIgnoringCase(FullName(At(t, q).file), query))
      && (forall q :: q in r && At(t, q).file.fileType == Directory ==> shouldSearchDirectories)
      && (forall q :: q in r && At(t, q).file.fileType == Regular ==> shouldSearchFiles)
  {
  }
}
