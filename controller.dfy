/**
 * The controllers: the layer between the window and the model.
 *
 * `Controller` (Source/controller.cpp) owns the model once a scan has been loaded, the colours
 * registered for individual nodes, the active colour scheme and the session settings.  It
 * decides each node's colour, forwards highlight and search requests to the model, hands the
 * resulting list to the window's callback and reports the total on the status bar.
 *
 * The newer `Controller` of Source/Core/controller.cpp differs in the order in which it clears
 * the highlighted list; `ClearHighlightedNodesAfterCallback` models that order.
 *
 * The oldest `Controller` (source/controller.cpp), modelled by `LegacyController`, keeps the
 * highlighted list and the selection itself, highlights a node together with its ancestors
 * and searches case-sensitively.
 *
 * A callback into the window is code outside the model: each method returns the list the
 * callback receives, and where the order matters, what the model holds while it runs.
 */
module Controllers {
  import opened Wrappers
  import opened FileData
  import opened NodeTree
  import opened TreeOrders
  import opened SizeUnits
  import FilePaths
  import FileModel

  // ---------------------------------------------------------------------------------
  // Node colours
  // ---------------------------------------------------------------------------------

  /** The three fixed colours, and any other colour a scheme or a registration supplies. */
  datatype Color = HighlightedColor | DirectoryColor | FileColor | Rgb(red: real, green: real, blue: real)

  const DefaultScheme: string := "Default"

  /**
   * `DetermineNodeColor`: a colour registered for the node, else the highlight colour when
   * the node is highlighted, else the scheme's colour for its extension unless the scheme is
   * the default one, else the directory or the file colour.
   */
  function NodeColor(registered: map<Path, Color>, node: Path, isHighlighted: bool,
                     scheme: string, schemeColors: map<string, Color>, file: FileInfo): Color
  {
    if node in registered then registered[node]
    else if isHighlighted then HighlightedColor
    else if scheme != DefaultScheme && file.extension in schemeColors then schemeColors[file.extension]
    else if file.fileType == Directory then DirectoryColor
    else FileColor
  }

  /** A reference rule: the first colour offered, in order, and the fallback when none is. */
  function FirstOffered(offers: seq<Option<Color>>, fallback: Color): (r: Color)
    ensures r == fallback || exists i :: 0 <= i < |offers| && offers[i] == Some(r)
    ensures forall i :: 0 <= i < |offers| && offers[i].Some? && (forall j :: 0 <= j < i ==> offers[j].None?) ==>
      r == offers[i].value
    decreases |offers|
  {
    if offers == [] then fallback
    else if offers[0].Some? then offers[0].value
    else
      var r := FirstOffered(offers[1..], fallback);
      assert forall i :: 1 <= i < |offers| ==> offers[i] == offers[1..][i - 1];
      r
  }

  /** What each rule of `DetermineNodeColor` offers, highest priority first. */
  function Offers(registered: map<Path, Color>, node: Path, isHighlighted: bool,
                  scheme: string, schemeColors: map<string, Color>, file: FileInfo): seq<Option<Color>>
  {
    [ if node in registered then Some(registered[node]) else None,
      if isHighlighted then Some(HighlightedColor) else None,
      if scheme != DefaultScheme && file.extension in schemeColors then Some(schemeColors[file.extension]) else None,
      if file.fileType == Directory then Some(DirectoryColor) else None ]
  }

  /** The colour rule is "the first rule that applies", with the file colour as the last resort. */
  lemma NodeColorIsFirstOffered(registered: map<Path, Color>, node: Path, isHighlighted: bool,
                                scheme: string, schemeColors: map<string, Color>, file: FileInfo)
    ensures NodeColor(registered, node, isHighlighted, scheme, schemeColors, file) ==
      FirstOffered(Offers(registered, node, isHighlighted, scheme, schemeColors, file), FileColor)
  {
    var o0 := Offers(registered, node, isHighlighted, scheme, schemeColors, file);
    var o1 := o0[1..];
    var o2 := o1[1..];
    var o3 := o2[1..];
    assert o3[1..] == [];
    assert FirstOffered(o3, FileColor) == if o3[0].Some? then o3[0].value else FileColor;
    assert FirstOffered(o2, FileColor) == if o2[0].Some? then o2[0].value else FirstOffered(o3, FileColor);
    assert FirstOffered(o1, FileColor) == if o1[0].Some? then o1[0].value else FirstOffered(o2, FileColor);
  }

  /** After `RegisterNodeColor(node, c)` the node is drawn in `c`; a later registration replaces it. */
  lemma RegisteredColorWins(registered: map<Path, Color>, node: Path, c: Color, d: Color, isHighlighted: bool,
                            scheme: string, schemeColors: map<string, Color>, file: FileInfo)
    ensures NodeColor(registered[node := c], node, isHighlighted, scheme, schemeColors, file) == c
    ensures NodeColor(registered[node := c][node := d], node, isHighlighted, scheme, schemeColors, file) == d
  {
  }

  /**
   * Why the newer `ClearHighlightedNodes` clears the list before calling back: a node the
   * window repaints afterwards is no longer drawn highlighted, while one repainted before the
   * list is cleared (the order of Source/Core/controller.cpp) still is, unless a colour was
   * registered for it.
   */
  lemma RepaintSeesClearedList(registered: map<Path, Color>, node: Path, passed: seq<Path>,
                               scheme: string, schemeColors: map<string, Color>, file: FileInfo)
    requires node in passed && node !in registered
    requires scheme == DefaultScheme || file.extension !in schemeColors
    ensures NodeColor(registered, node, node in [], scheme, schemeColors, file) in {DirectoryColor, FileColor}
    ensures NodeColor(registered, node, node in passed, scheme, schemeColors, file) == HighlightedColor
  {
  }

  // ---------------------------------------------------------------------------------
  // Highlight details
  // ---------------------------------------------------------------------------------

  /** The bytes the highlighted nodes present together. */
  function TotalSize(t: Tree<VizBlock>, nodes: seq<Path>): nat
    requires forall q :: q in nodes ==> IsNode(t, q)
    decreases |nodes|
  {
    if nodes == [] then 0 else TotalSize(t, nodes[..|nodes| - 1]) + At(t, nodes[|nodes| - 1]).file.size
  }

  /** Totals add up over a concatenation, so a node highlighted later only adds its size. */
  lemma {:induction false} TotalSizeConcat(t: Tree<VizBlock>, a: seq<Path>, b: seq<Path>)
    requires forall q :: q in a + b ==> IsNode(t, q)
    ensures TotalSize(t, a + b) == TotalSize(t, a) + TotalSize(t, b)
    decreases |b|
  {
    if b != [] {
      assert (a + b)[..|a + b| - 1] == a + b[..|b| - 1];
      TotalSizeConcat(t, a, b[..|b| - 1]);
    } else {
      assert a + b == a;
    }
  }

  /** Every highlighted node's size is part of the total. */
  lemma {:induction false} TotalSizeBoundsEach(t: Tree<VizBlock>, nodes: seq<Path>, i: nat)
    requires forall q :: q in nodes ==> IsNode(t, q)
    requires i < |nodes|
    ensures At(t, nodes[i]).file.size <= TotalSize(t, nodes)
    decreases |nodes|
  {
    if i < |nodes| - 1 {
      TotalSizeBoundsEach(t, nodes[..|nodes| - 1], i);
    }
  }

  /** What `DisplayHighlightDetails` reports: how many nodes, and the bytes they present in the active units. */
  datatype Details = Details(count: nat, total: nat, shown: (real, Unit))

  /** What `SelectNodeAndUpdateStatusBar` reports: the node's path and its size in the active units. */
  datatype Status = Status(path: string, shown: (real, Unit))

  // ---------------------------------------------------------------------------------
  // Controller (Source/controller.cpp)
  // ---------------------------------------------------------------------------------

  class Controller {
    /** `m_model`: null until a scan has been loaded. */
    var model: FileModel.BaseModel?
    /** `m_nodeColorMap`, keyed by node. */
    var nodeColors: map<Path, Color>
    var allowInteraction: bool
    /** The node painter's active scheme and its extension colours. */
    var scheme: string
    var schemeColors: map<string, Color>
    /** The session settings consulted by the highlight passes and the status bar. */
    var parameters: VisualizationParameters
    var prefix: Prefix

    /** Every highlighted node is a node of the model's tree. */
    ghost predicate Valid()
      reads this, model
    {
      model != null ==> forall q :: q in model.highlighted ==> IsNode(model.tree, q)
    }

    constructor(parameters: VisualizationParameters, prefix: Prefix, scheme: string, schemeColors: map<string, Color>)
      ensures model == null && nodeColors == map[] && !allowInteraction
      ensures this.parameters == parameters && this.prefix == prefix
      ensures this.scheme == scheme && this.schemeColors == schemeColors
      ensures Valid()
    {
      model := null;
      nodeColors := map[];
      allowInteraction := false;
      this.parameters := parameters;
      this.prefix := prefix;
      this.scheme := scheme;
      this.schemeColors := schemeColors;
    }

    /** The bookkeeping half of `ScanDrive`: the freshly created model replaces the old one. */
    method LoadModel(m: FileModel.BaseModel)
      requires forall q :: q in m.highlighted ==> IsNode(m.tree, q)
      modifies this
      ensures model == m && Valid()
      ensures nodeColors == old(nodeColors) && allowInteraction == old(allowInteraction)
      ensures scheme == old(scheme) && schemeColors == old(schemeColors)
      ensures parameters == old(parameters) && prefix == old(prefix)
    {
      model := m;
    }

    method AllowUserInteractionWithModel(allow: bool)
      modifies this
      ensures allowInteraction == allow && IsUserAllowedToInteractWithModel() == allow
      ensures model == old(model) && nodeColors == old(nodeColors)
      ensures scheme == old(scheme) && schemeColors == old(schemeColors)
      ensures parameters == old(parameters) && prefix == old(prefix)
    {
      allowInteraction := allow;
    }

    predicate IsUserAllowedToInteractWithModel()
      reads this
    {
      allowInteraction
    }

    /** `std::any_of` over the model's highlighted list. */
    method IsNodeHighlighted(node: Path) returns (r: bool)
      requires model != null
      ensures r <==> node in model.highlighted
    {
      var nodes := model.highlighted;
      var i := 0;
      while i < |nodes|
        invariant i <= |nodes| && node !in nodes[..i]
      {
        if nodes[i] == node {
          return true;
        }
        i := i + 1;
      }
      assert nodes[..i] == nodes;
      return false;
    }

    method DetermineNodeColor(node: Path) returns (c: Color)
      requires model != null && IsNode(model.tree, node)
      ensures c == NodeColor(nodeColors, node, node in model.highlighted, scheme, schemeColors, At(model.tree, node).file)
    {
      if node in nodeColors {
        return nodeColors[node];
      }
      var highlighted := IsNodeHighlighted(node);
      if highlighted {
        return HighlightedColor;
      }
      var file := At(model.tree, node).file;
      if scheme != DefaultScheme {
        var fileColor := if file.extension in schemeColors then Some(schemeColors[file.extension]) else None;
        if fileColor.Some? {
          return fileColor.value;
        }
      }
      if file.fileType == Directory {
        return DirectoryColor;
      }
      return FileColor;
    }

    /** `insert_or_assign`: the node's colour is now `color`, whatever it was. */
    method RegisterNodeColor(node: Path, color: Color)
      modifies this
      ensures nodeColors == old(nodeColors)[node := color]
      ensures model == old(model) && allowInteraction == old(allowInteraction)
      ensures scheme == old(scheme) && schemeColors == old(schemeColors)
      ensures parameters == old(parameters) && prefix == old(prefix)
    {
      nodeColors := nodeColors[node := color];
    }

    /**
     * Copies the list, clears the model's, then calls back with the copy: while the callback
     * runs, the model reports nothing highlighted.
     */
    method ClearHighlightedNodes() returns (passed: seq<Path>, highlightedDuringCallback: seq<Path>)
      requires model != null
      modifies model
      ensures passed == old(model.highlighted) && highlightedDuringCallback == []
      ensures model.highlighted == [] && Valid()
      ensures model.tree == old(model.tree) && model.selected == old(model.selected)
      ensures model.hasDataBeenParsed == old(model.hasDataBeenParsed)
    {
      passed := model.highlighted;
      model.ClearHighlightedNodes();
      highlightedDuringCallback := model.highlighted;
    }

    method ClearSelectedNode()
      requires model != null
      modifies model
      ensures model.selected == None
      ensures model.tree == old(model.tree) && model.highlighted == old(model.highlighted)
      ensures model.hasDataBeenParsed == old(model.hasDataBeenParsed)
    {
      model.ClearSelectedNode();
    }

    /** `DisplayHighlightDetails`: the number of highlighted nodes and their total size. */
    method DisplayHighlightDetails() returns (details: Details)
      requires model != null && Valid()
      ensures details.count == |model.highlighted|
      ensures details.total == TotalSize(model.tree, model.highlighted)
      ensures details.shown == ConvertFileSizeToNumericPrefix(details.total, prefix)
    {
      var nodes := model.highlighted;
      var totalBytes := 0;
      var i := 0;
      while i < |nodes|
        invariant i <= |nodes| && totalBytes == TotalSize(model.tree, nodes[..i])
      {
        assert nodes[..i + 1][..i] == nodes[..i];
        totalBytes := totalBytes + At(model.tree, nodes[i]).file.size;
        i := i + 1;
      }
      assert nodes[..i] == nodes;
      details := Details(|nodes|, totalBytes, ConvertFileSizeToNumericPrefix(totalBytes, prefix));
    }

    /** `ProcessHighlightedNodes` after its selector: the callback gets the model's list, then the details are shown. */
    method ProcessHighlightedNodes() returns (passed: seq<Path>, details: Details)
      requires model != null && Valid()
      ensures passed == model.highlighted
      ensures details == Details(|passed|, TotalSize(model.tree, passed),
                                 ConvertFileSizeToNumericPrefix(TotalSize(model.tree, passed), prefix))
    {
      passed := model.highlighted;
      details := DisplayHighlightDetails();
    }

    method HighlightAncestors(node: Path) returns (passed: seq<Path>, details: Details)
      requires model != null && Valid() && IsNode(model.tree, node)
      modifies model
      ensures Valid()
      ensures model.highlighted == old(model.highlighted) + Ancestors(node) && passed == model.highlighted
      ensures model.tree == old(model.tree) && model.selected == old(model.selected)
      ensures model.hasDataBeenParsed == old(model.hasDataBeenParsed)
      ensures details.count == |passed| && details.total == TotalSize(model.tree, passed)
    {
      AncestorsAreNodes(model.tree, node);
      model.HighlightAncestors(node);
      passed, details := ProcessHighlightedNodes();
    }

    method HighlightDescendants(node: Path) returns (passed: seq<Path>, details: Details)
      requires model != null && Valid() && IsNode(model.tree, node)
      modifies model
      ensures Valid()
      ensures model.tree == old(model.tree) && model.selected == old(model.selected)
      ensures model.highlighted == old(model.highlighted) + FileModel.KeptLeaves(model.tree, node, FileModel.ShownFilter(parameters))
      ensures passed == model.highlighted
      ensures model.hasDataBeenParsed == old(model.hasDataBeenParsed)
      ensures details.count == |passed| && details.total == TotalSize(model.tree, passed)
    {
      model.HighlightDescendants(node, parameters);
      passed, details := ProcessHighlightedNodes();
    }

    method HighlightAllMatchingExtensions(extension: string) returns (passed: seq<Path>, details: Details)
      requires model != null && Valid()
      modifies model
      ensures Valid()
      ensures model.highlighted == old(model.highlighted) +
        FileModel.KeptLeaves(model.tree, [], FileModel.ExtensionFilter(extension, parameters))
      ensures passed == model.highlighted
      ensures model.tree == old(model.tree) && model.selected == old(model.selected)
      ensures model.hasDataBeenParsed == old(model.hasDataBeenParsed)
      ensures details.count == |passed| && details.total == TotalSize(model.tree, passed)
    {
      model.HighlightMatchingFileExtensions(extension, parameters);
      passed, details := ProcessHighlightedNodes();
    }

    /**
     * `SearchTreeMap`: nothing happens for an empty query, without a model, or when neither
     * files nor directories are searched.  Otherwise the highlighted list is cleared (the
     * deselection callback gets the old one) and refilled with the search's matches.
     */
    method SearchTreeMap(query: string, searchFiles: bool, searchDirectories: bool)
      returns (deselected: Option<seq<Path>>, selected: Option<seq<Path>>)
      requires Valid()
      modifies model
      ensures Valid()
      ensures query == [] || model == null || (!searchFiles && !searchDirectories) ==>
        deselected.None? && selected.None? && (model != null ==> unchanged(model))
      ensures query != [] && model != null && (searchFiles || searchDirectories) ==>
        && deselected == Some(old(model.highlighted))
        && model.highlighted == FileModel.KeptNodes(model.tree, [], FileModel.NameFilter(query, parameters, searchFiles, searchDirectories))
        && selected == Some(model.highlighted)
        && model.tree == old(model.tree) && model.selected == old(model.selected)
        && model.hasDataBeenParsed == old(model.hasDataBeenParsed)
    {
      if query == [] || model == null || (!searchFiles && !searchDirectories) {
        return None, None;
      }
      var cleared, _ := ClearHighlightedNodes();
      deselected := Some(cleared);
      model.HighlightMatchingFileNames(query, parameters, searchFiles, searchDirectories);
      var passed, _ := ProcessHighlightedNodes();
      selected := Some(passed);
    }

    /** `SelectNode`: the model selects the node and the callback is told about it. */
    method SelectNode(node: Path)
      requires model != null
      modifies model
      ensures model.selected == Some(node)
      ensures model.tree == old(model.tree) && model.highlighted == old(model.highlighted)
      ensures model.hasDataBeenParsed == old(model.hasDataBeenParsed)
    {
      model.SelectNode(node);
    }

    /**
     * Selects a non-empty node and reports its path and size in the active units; the names
     * on the node's path must not all be empty.
     */
    method SelectNodeAndUpdateStatusBar(node: Path) returns (status: Status)
      requires model != null && IsNode(model.tree, node) && At(model.tree, node).file.size > 0
      requires FilePaths.JoinPath(FilePaths.NamesDownTo(model.tree, node), '/') != []
      modifies model
      ensures model.selected == Some(node)
      ensures model.tree == old(model.tree) && model.highlighted == old(model.highlighted)
      ensures model.hasDataBeenParsed == old(model.hasDataBeenParsed)
      ensures status.path == FilePaths.JoinPath(FilePaths.NamesDownTo(model.tree, node), '/') + At(model.tree, node).file.extension
      ensures status.shown == ConvertFileSizeToNumericPrefix(At(model.tree, node).file.size, prefix)
    {
      SelectNode(node);
      var path := FilePaths.ResolveCompleteFilePath(model.tree, node, '/');
      status := Status(path, ConvertFileSizeToNumericPrefix(At(model.tree, node).file.size, prefix));
    }

    /**
     * `SelectNodeViaRay`, given the node the ray hits first (the intersection itself is not
     * modelled): nothing happens without a model or while interaction is disallowed;
     * otherwise the old selection is dropped (the deselection callback gets it) and the hit
     * node, if any, is selected.
     */
    method SelectNodeViaRay(hit: Option<Path>) returns (deselected: Option<Path>, status: Option<Status>)
      requires Valid()
      requires model != null && hit.Some? ==> IsNode(model.tree, hit.value) && At(model.tree, hit.value).file.size > 0
      requires model != null && hit.Some? && IsNode(model.tree, hit.value) ==>
        FilePaths.JoinPath(FilePaths.NamesDownTo(model.tree, hit.value), '/') != []
      modifies model
      ensures Valid()
      ensures model == null || !allowInteraction ==>
        deselected.None? && status.None? && (model != null ==> unchanged(model))
      ensures model != null && allowInteraction ==>
        && deselected == old(model.selected) && model.selected == hit
        && (status.Some? <==> hit.Some?)
        && model.tree == old(model.tree) && model.highlighted == old(model.highlighted)
        && model.hasDataBeenParsed == old(model.hasDataBeenParsed)
    {
      if model == null || !IsUserAllowedToInteractWithModel() {
        return None, None;
      }
      deselected := model.selected;
      if deselected.Some? {
        model.ClearSelectedNode();
      }
      status := None;
      if hit.Some? {
        var s := SelectNodeAndUpdateStatusBar(hit.value);
        status := Some(s);
      }
    }
  }

  // ---------------------------------------------------------------------------------
  // Source/Core/controller.cpp
  // ---------------------------------------------------------------------------------

  /** The other order: the callback gets the model's own list first, and only then is it cleared. */
  method ClearHighlightedNodesAfterCallback(model: FileModel.BaseModel)
    returns (passed: seq<Path>, highlightedDuringCallback: seq<Path>)
    modifies model
    ensures passed == old(model.highlighted) && highlightedDuringCallback == old(model.highlighted)
    ensures model.highlighted == []
    ensures model.tree == old(model.tree) && model.selected == old(model.selected)
    ensures model.hasDataBeenParsed == old(model.hasDataBeenParsed)
  {
    passed := model.highlighted;
    highlightedDuringCallback := model.highlighted;
    model.ClearHighlightedNodes();
  }

  // ---------------------------------------------------------------------------------
  // The oldest controller (source/controller.cpp)
  // ---------------------------------------------------------------------------------

  /** The self-inclusive parent walk: the node, its parent, ... up to the head. */
  function SelfAndAncestors(p: Path): (r: seq<Path>)
  {
    [p] + Ancestors(p)
  }

  /** The self-inclusive walk holds one entry per level: exactly the prefixes of the node, deepest first. */
  lemma SelfAndAncestorsArePrefixes(p: Path)
    ensures |SelfAndAncestors(p)| == |p| + 1
    ensures forall k :: 0 <= k <= |p| ==> SelfAndAncestors(p)[k] == p[..|p| - k]
    ensures forall q :: q in SelfAndAncestors(p) <==> q <= p
  {
    AncestorsAreProperPrefixes(p);
    var r := SelfAndAncestors(p);
    forall q ensures q in r <==> q <= p {
      assert q in r <==> q == p || q in Ancestors(p);
    }
    forall k | 0 <= k <= |p| ensures r[k] == p[..|p| - k] {
      if k == 0 {
        assert p[..|p|] == p;
      } else {
        assert r[k] == Ancestors(p)[k - 1];
      }
    }
  }

  /** The search filter of the oldest controller: as the newer one, but the name must contain the query as it is. */
  predicate SensitiveNameMatches(file: FileInfo, query: string, parameters: VisualizationParameters,
                                 shouldSearchFiles: bool, shouldSearchDirectories: bool)
  {
    && !(file.size < parameters.minimumFileSize
         || (!shouldSearchDirectories && file.fileType == Directory)
         || (!shouldSearchFiles && file.fileType == Regular))
    && Contains(FullName(file), query)
  }

  function SensitiveNameFilter(query: string, parameters: VisualizationParameters,
                               shouldSearchFiles: bool, shouldSearchDirectories: bool): VizBlock -> bool
  {
    (b: VizBlock) => SensitiveNameMatches(b.file, query, parameters, shouldSearchFiles, shouldSearchDirectories)
  }

  /** Every node the case-sensitive search finds, the case-insensitive search of the newer model finds too. */
  lemma SensitiveSearchFindsNoMore(t: Tree<VizBlock>, query: string, parameters: VisualizationParameters,
                                   shouldSearchFiles: bool, shouldSearchDirectories: bool)
    ensures forall q :: q in FileModel.KeptNodes(t, [], SensitiveNameFilter(query, parameters, shouldSearchFiles, shouldSearchDirectories)) ==>
      q in FileModel.KeptNodes(t, [], FileModel.NameFilter(query, parameters, shouldSearchFiles, shouldSearchDirectories))
  {
    forall q | q in FileModel.KeptNodes(t, [], SensitiveNameFilter(query, parameters, shouldSearchFiles, shouldSearchDirectories))
      ensures q in FileModel.KeptNodes(t, [], FileModel.NameFilter(query, parameters, shouldSearchFiles, shouldSearchDirectories))
    {
      ContainsIgnoringCaseWeaker(FullName(At(t, q).file), query);
    }
  }

  class LegacyController {
    var tree: Tree<VizBlock>
    /** `m_treeMap != nullptr`: a scan has been started. */
    var hasTreeMap: bool
    /** The tree map holds a parsed tree, so `GetTree` passes its assertion. */
    var parsed: bool
    var highlighted: seq<Path>
    var selected: Option<Path>
    var parameters: VisualizationParameters

    constructor(parameters: VisualizationParameters)
      ensures !hasTreeMap && !parsed && highlighted == [] && selected == None && this.parameters == parameters
    {
      tree := Node(EmptyHead, []);
      hasTreeMap := false;
      parsed := false;
      highlighted := [];
      selected := None;
      this.parameters := parameters;
    }

    /** `HasVisualizationBeenLoaded`: true as soon as a scan has been started, parsed or not. */
    predicate HasVisualizationBeenLoaded()
      reads this
    {
      hasTreeMap
    }

    /**
     * `GenerateNewVisualization`: with a root directory, and with no tree map yet or a forced
     * new scan, a fresh tree map without a tree replaces the old one and the scan starts.
     */
    method GenerateNewVisualization() returns (scanStarted: bool)
      modifies this
      ensures scanStarted <==> parameters.rootDirectory != [] && (!old(hasTreeMap) || parameters.forceNewScan)
      ensures scanStarted ==> hasTreeMap && !parsed && tree == Node(EmptyHead, [])
      ensures !scanStarted ==> hasTreeMap == old(hasTreeMap) && parsed == old(parsed) && tree == old(tree)
      ensures highlighted == old(highlighted) && selected == old(selected) && parameters == old(parameters)
    {
      if parameters.rootDirectory == [] {
        return false;
      }
      scanStarted := !HasVisualizationBeenLoaded() || parameters.forceNewScan;
      if scanStarted {
        tree := Node(EmptyHead, []);
        hasTreeMap := true;
        parsed := false;
      }
    }

    /**
     * The bookkeeping half of `ParseResults`: the laid-out tree becomes the tree map's tree.
     * The tree map is dereferenced, so a scan must have been started.
     */
    method ParseResults(laidOut: Tree<VizBlock>)
      requires hasTreeMap
      modifies this
      ensures tree == laidOut && parsed && hasTreeMap
      ensures highlighted == old(highlighted) && selected == old(selected) && parameters == old(parameters)
    {
      tree := laidOut;
      parsed := true;
    }

    /**
     * A null node changes nothing; otherwise it becomes the selection and the status bar
     * shows its path (joined the oldest way) and its size in binary units.
     */
    method SelectNodeAndUpdateStatusBar(node: Option<Path>) returns (status: Option<Status>)
      requires node.Some? ==> IsNode(tree, node.value) && At(tree, node.value).file.size > 0
      modifies this
      ensures tree == old(tree) && hasTreeMap == old(hasTreeMap) && parsed == old(parsed) && highlighted == old(highlighted) && parameters == old(parameters)
      ensures node.None? ==> selected == old(selected) && status.None?
      ensures node.Some? ==> selected == node && status == Some(Status(
        FilePaths.JoinPathAsWritten(FilePaths.NamesDownTo(tree, node.value)) + At(tree, node.value).file.extension,
        ConvertToBinaryPrefix(At(tree, node.value).file.size as real)))
    {
      if node.None? {
        return None;
      }
      selected := node;
      var path := FilePaths.ResolveCompleteFilePathAsWritten(tree, node.value);
      status := Some(Status(path, ConvertToBinaryPrefix(At(tree, node.value).file.size as real)));
    }

    method ClearSelectedNode()
      modifies this
      ensures selected == None
      ensures tree == old(tree) && hasTreeMap == old(hasTreeMap) && parsed == old(parsed) && highlighted == old(highlighted) && parameters == old(parameters)
    {
      selected := None;
    }

    /**
     * `ClearHighlightedNodes(callback, clearSelected)`: with `clearSelected` and a selection,
     * the selected node joins the list the callback gets and the selection is dropped; the
     * list is emptied in every case.
     */
    method ClearHighlightedNodes(clearSelected: bool) returns (passed: seq<Path>)
      modifies this
      ensures passed == old(highlighted) + (if clearSelected && old(selected).Some? then [old(selected).value] else [])
      ensures highlighted == []
      ensures selected == (if clearSelected then None else old(selected))
      ensures tree == old(tree) && hasTreeMap == old(hasTreeMap) && parsed == old(parsed) && parameters == old(parameters)
    {
      if clearSelected && selected.Some? {
        highlighted := highlighted + [selected.value];
      }
      passed := highlighted;
      highlighted := [];
      if clearSelected && selected.Some? {
        selected := None;
      }
    }

    /** Appends the node itself, then its parent, ... up to the head. */
    method HighlightAncestors(node: Path) returns (passed: seq<Path>)
      modifies this
      ensures highlighted == old(highlighted) + SelfAndAncestors(node) && passed == highlighted
      ensures tree == old(tree) && hasTreeMap == old(hasTreeMap) && parsed == old(parsed) && selected == old(selected) && parameters == old(parameters)
    {
      var current := node;
      highlighted := highlighted + [current];
      while current != []
        invariant highlighted + Ancestors(current) == old(highlighted) + SelfAndAncestors(node)
        invariant tree == old(tree) && hasTreeMap == old(hasTreeMap) && parsed == old(parsed) && selected == old(selected) && parameters == old(parameters)
        decreases |current|
      {
        current := Parent(current);
        highlighted := highlighted + [current];
      }
      passed := highlighted;
    }

    /** Appends, in leaf order, every leaf below the node that the parameters show. */
    method HighlightDescendants(node: Path) returns (passed: seq<Path>)
      requires IsNode(tree, node)
      modifies this
      ensures tree == old(tree) && hasTreeMap == old(hasTreeMap) && parsed == old(parsed) && selected == old(selected) && parameters == old(parameters)
      ensures highlighted == old(highlighted) + FileModel.KeptLeaves(tree, node, FileModel.ShownFilter(parameters))
      ensures passed == highlighted
    {
      highlighted := FileModel.CollectLeaves(tree, node, FileModel.ShownFilter(parameters), highlighted);
      passed := highlighted;
    }

    /** Appends, in leaf order, every shown leaf of the tree with the target node's extension. */
    method HighlightAllMatchingExtensions(targetNode: Path) returns (passed: seq<Path>)
      requires IsNode(tree, targetNode)
      modifies this
      ensures tree == old(tree) && hasTreeMap == old(hasTreeMap) && parsed == old(parsed) && selected == old(selected) && parameters == old(parameters)
      ensures highlighted == old(highlighted) +
        FileModel.KeptLeaves(tree, [], FileModel.ExtensionFilter(At(tree, targetNode).file.extension, parameters))
      ensures passed == highlighted
    {
      var extension := At(tree, targetNode).file.extension;
      highlighted := FileModel.CollectLeaves(tree, [], FileModel.ExtensionFilter(extension, parameters), highlighted);
      passed := highlighted;
    }

    /**
     * `SearchTreeMap`: nothing happens for an empty query, before a scan has been started,
     * or when neither files nor directories are searched.  Otherwise the list and the
     * selection are cleared; then, when the tree map holds no parsed tree yet, `GetTree`'s
     * assertion fails (`treeMissing`) and nothing is found.  With a parsed tree, every node,
     * in post-order, whose name and extension contain the query (case-sensitively) and that
     * passes the filters is highlighted.
     */
    method SearchTreeMap(query: string, searchFiles: bool, searchDirectories: bool)
      returns (deselected: Option<seq<Path>>, found: Option<seq<Path>>, treeMissing: bool)
      modifies this
      ensures query == [] || !hasTreeMap || (!searchFiles && !searchDirectories) ==>
        deselected.None? && found.None? && !treeMissing && highlighted == old(highlighted) && selected == old(selected)
      ensures query != [] && hasTreeMap && (searchFiles || searchDirectories) ==>
        && deselected == Some(old(highlighted) + (if old(selected).Some? then [old(selected).value] else []))
        && selected == None
        && treeMissing == !parsed
      ensures query != [] && hasTreeMap && (searchFiles || searchDirectories) && !parsed ==>
        highlighted == [] && found.None?
      ensures query != [] && hasTreeMap && (searchFiles || searchDirectories) && parsed ==>
        && highlighted == FileModel.KeptNodes(tree, [], SensitiveNameFilter(query, parameters, searchFiles, searchDirectories))
        && found == Some(highlighted)
      ensures tree == old(tree) && hasTreeMap == old(hasTreeMap) && parsed == old(parsed) && parameters == old(parameters)
    {
      if query == [] || !HasVisualizationBeenLoaded() || (!searchFiles && !searchDirectories) {
        return None, None, false;
      }
      var cleared := ClearHighlightedNodes(true);
      deselected := Some(cleared);
      if !parsed {
        return deselected, None, true;
      }
      highlighted := FileModel.CollectPostOrder(tree, SensitiveNameFilter(query, parameters, searchFiles, searchDirectories), highlighted);
      found := Some(highlighted);
      treeMissing := false;
    }
  }
}
