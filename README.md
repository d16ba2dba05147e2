# D-Viz core, modelled in Dafny

D-Viz scans a drive and draws it as a three-dimensional treemap. Every file and directory becomes a block. A directory's block carries its children's blocks. The user can select a block, highlight related blocks, and search by name. This project models the sequential core under the renderer:

- **The n-ary tree container.** `TreeNode<T>` and `Tree<T>` come in three generations: source/ThirdParty/Tree.hpp, ThirdParty/Tree.hpp and tree.h.
  - `linked_tree.dfy` keeps the linked representation as a class. Each node has parent, first-child, last-child and sibling links and a child count. It holds the operations that rewrite those links in place: append and prepend a child, detach or remove a node, and the in-place merge sort of a node's children.
  - `node_tree.dfy` is the same tree as a value. A node is named by its path of child indices from the head.
  - `traversal.dfy` turns each iterator's `operator++` into a step on paths. Its chain lemmas prove that stepping from an iterator's start visits exactly the reference pre-order, post-order, leaf or sibling sequence.
  - `tree_orders.dfy` proves what those sequences hold.
- **The file model.** The model holds the scanned file tree, the list of highlighted nodes and the selected node. It has three generations: `BaseModel`, and the two `VisualizationModel`s before it (`base_model.dfy`).
  - Its operations:
    - the highlight passes for ancestors, descendants, a matching extension and a name search;
    - selection;
    - the bounding-box pass (`bounding_boxes.dfy`);
    - the ancestor-size update (`ancestor_sizes.dfy`);
    - sorting children by size (`size_sort.dfy`). This is the same `SortChildren` merge sort as the one in `linked_tree.dfy`, run on the value tree:
      - `linked_tree.dfy` proves the in-place sort on the sibling links, for any asymmetric comparator;
      - `size_sort.dfy` states what `SortNodes` leaves in every node of the value tree, under the largest-first comparator;
      - the two are not related by a lemma, because they work on different representations of the tree;
    - path lookup (`file_paths.dfy`).
  - The scanner's pure steps (`scanning.dfy`) decide which paths are scanned, sum directory sizes in post-order, and prune what is empty.
- **The controllers** (`controller.dfy`, `main_model.dfy`). These are the node colour rule, the highlight and search requests forwarded to the model, and the status-bar report. There are three generations of controller and the oldest `MainModel`.
- **Small utilities.** Human-readable sizes (`size_units.dfy`), `SanitizePath` (`sanitize_path.dfy`), `PreferencesMap` (`preferences_map.dfy`), the bump allocator `MemoryArena` (`memory_arena.dfy`), the per-extension tallies of `ScanBreakdownModel` (`scan_breakdown.dfy`), and the treemap `Block` (`block.dfy`).
- **Small state machines.** The camera's clamps and viewport flip (`camera.dfy`), the gamepad's button edge detector (`gamepad.dfy`), and the two settings classes (`settings.dfy`).

The form follows the code:
- An object whose methods update its fields is a `class`, and its methods state the new state in terms of the old one.
- Pure queries are functions.
- Each pass that walks the tree with an iterator is a method with a loop. It is proved against a reference order, and lemmas state what that order holds.

Some comments in the code disagree with the code. One example is `SanitizePath`'s promise of a path "without parent elements". In those cases the model follows the code, and the disagreement is listed under Findings.

## Model

| member | source | states |
|---|---|---|
| FileData.LowerChar | Source/Model/baseModel.cpp:491-507 | an ASCII capital becomes its small letter; every other character is kept |
| FileData.Lower | Source/Model/baseModel.cpp:491-507 | the lower-cased name has the same length and is lower-cased character by character |
| FileData.LowerIdempotent | Source/Model/baseModel.cpp:491-507 | lower-casing an already lower-cased name changes nothing |
| FileData.EmptyQueryFound | Source/Model/baseModel.cpp:510-512 | the empty query occurs in every name |
| FileData.ContainsIgnoringCaseWeaker | source/mainModel.cpp:194-198 | a case-sensitive match is also a case-insensitive match |
| SizeUnits.ConvertToBinaryPrefix | Source/Core/controller.cpp:45-66 | the unit is bytes exactly below 1024, otherwise the largest binary unit not above the size (TiB from 1 TiB on); the number times the unit is the size |
| SizeUnits.ConvertToDecimalPrefix | Source/Core/controller.cpp:75-96 | the same choice with powers of 1000 and the units KB, MB, GB, TB |
| SizeUnits.ConvertFileSizeToNumericPrefix | Source/Core/controller.cpp:485-498 | the prefix picks the unit family, and the number times the unit is the size |
| SizeUnits.ShownNumberInRange | Include/Utilities/utilities.h:80-131 | the number shown is at least 1 except in bytes, and below 1024 (1000) except in the largest unit |
| LinkedTree.TreeNode.constructor | source/ThirdParty/Tree.hpp:113-123 | a new node holds the given data, has every link null, no children and is not visited |
| LinkedTree.TreeNode.MarkVisited | source/ThirdParty/Tree.hpp:233-244 | the visited flag afterwards reads back as the value given |
| LinkedTree.TreeNode.HasChildren | source/ThirdParty/Tree.hpp:404-407 | a positive count means exactly that the node has children, and exactly that it has a first child |
| LinkedTree.TreeNode.GetChildCount | source/ThirdParty/Tree.hpp:414-417 | the count is the number of children in sibling order, and is positive exactly when `HasChildren` holds |
| LinkedTree.TreeNode.AddFirstChild | source/ThirdParty/Tree.hpp:623-633 | on a node without children, the child becomes its first and last and only child, with a count of one, and the links stay consistent |
| LinkedTree.TreeNode.AppendChild | source/ThirdParty/Tree.hpp:303-320 | the child is parented to the node and appended after the old children, which keep their order; the count grows by one and every link stays consistent |
| LinkedTree.TreeNode.PrependChild | source/ThirdParty/Tree.hpp:253-270 | the child is parented to the node and put before the old children, which keep their order; the count grows by one and every link stays consistent |
| LinkedTree.TreeNode.AppendData | source/ThirdParty/Tree.hpp:330-343 | a fresh childless node holding the data becomes the last child, after the old children in order |
| LinkedTree.TreeNode.PrependData | source/ThirdParty/Tree.hpp:281-294 | a fresh childless node holding the data becomes the first child, before the old children in order |
| LinkedTree.TreeNode.DetachFromTree | source/ThirdParty/Tree.hpp:676-716 | the parent's children become the old ones without this node, in order, its count drops by one, and all of its links stay consistent |
| LinkedTree.TreeNode.DropDetachedChild | source/ThirdParty/Tree.hpp:692-713 | once the siblings point past the child, the parent's first and last child and count are moved so that the parent is consistent over the remaining children |
| LinkedTree.TreeNode.RelinkSiblings | source/ThirdParty/Tree.hpp:678-690 | the neighbours of the node point at each other, or the one that exists becomes an end of the chain; the node itself keeps its links |
| LinkedTree.TreeNode.RemoveFromTree | tree.h:407-449 | every child loses its parent, the node's child links are cleared, and the parent is left as `RemovedFrom` describes: consistent over the remaining children, or, when the node was an only child, with its first and last child still pointing at it |
| LinkedTree.TreeNode.UnlinkFromParent | tree.h:417-449 | the sibling and parent half of the removal leaves the parent as `RemovedFrom` describes |
| LinkedTree.TreeNode.DropRemovedChild | tree.h:425-449 | an end of the parent moves only when the node had exactly one sibling link, and the count drops by one |
| LinkedTree.TreeNode.OrphanChildren | tree.h:409-415 | every child loses its parent link and the node's first and last child become null; the parent stays consistent |
| LinkedTree.TreeNode.ClearParents | tree.h:409-415 | walking the chain through the first-child field clears every parent link and leaves that field null |
| LinkedTree.TreeNode.SortChildren | source/ThirdParty/Tree.hpp:445-455 | the children afterwards form a next-sibling chain from the first child that is a permutation of the old children, sorted by the comparator |
| LinkedTree.TreeNode.MergeSort | source/ThirdParty/Tree.hpp:467-490 | the chain from the given head is replaced by a chain of the same nodes sorted by the comparator, returned through its head |
| LinkedTree.TreeNode.SortBeside | source/ThirdParty/Tree.hpp:486-487 | sorting one half leaves the other, disjoint half as it was and does not take any of its nodes |
| LinkedTree.TreeNode.DivideList | source/ThirdParty/Tree.hpp:499-522 | a chain of two or more nodes is cut into its first ceil(n/2) and its remaining nodes, both chains; a shorter chain is left undivided with both outputs null |
| LinkedTree.TreeNode.MergeSortedHalves | source/ThirdParty/Tree.hpp:537-614 | two sorted disjoint chains become one chain holding exactly their nodes, sorted by the comparator, returned through its head |
| LinkedTree.TreeNode.TakeFirst | source/ThirdParty/Tree.hpp:543-557 | the merged chain starts with the left head unless the comparator puts the right head first |
| LinkedTree.TreeNode.MergeWhileBoth | source/ThirdParty/Tree.hpp:559-585 | the first merge loop keeps the merge invariant and stops once one half is used up |
| LinkedTree.TreeNode.AppendRemaining | source/ThirdParty/Tree.hpp:587-611 | the last two loops keep the merge invariant and use up both halves |
| LinkedTree.TreeNode.MoveToTail | source/ThirdParty/Tree.hpp:561-584 | one merge step appends the chosen head to the result, keeps the merge invariant, and leaves the other half's head alone |
| LinkedTree.TreeNode.MoveLeftHead | source/ThirdParty/Tree.hpp:561-572 | taking the left head appends it to the result and keeps the merge invariant |
| LinkedTree.TreeNode.MoveRightHead | source/ThirdParty/Tree.hpp:573-584 | taking the right head appends it to the result and keeps the merge invariant |
| LinkedTree.TreeNode.LinkHead | source/ThirdParty/Tree.hpp:563-571 | the head is linked after the tail and becomes the new tail, and the half it came from moves on to its next node |
| Traversal.NextNonDescendant | source/ThirdParty/Tree.hpp:1059-1078 | the node the pre-order walk of a subtree ends at, when there is one, is a node neither above nor below the start |
| Traversal.NextSibling | source/ThirdParty/Tree.hpp:1390-1398 | the next sibling is a different node at the same depth, neither above nor below |
| Traversal.PreOrderIncrement | source/ThirdParty/Tree.hpp:1085-1120 | the step of the pre-order iterator lands on a node of the tree, or on nothing |
| Traversal.PreOrderChain | source/ThirdParty/Tree.hpp:1051-1120 | stepping the pre-order iterator from a node visits exactly the subtree's pre-order and then reaches the ending node its constructor computes; every node visited lies in the subtree |
| Traversal.PreOrderFromChain | source/ThirdParty/Tree.hpp:1085-1090 | from a node's `i`-th child the walk visits the children from `i` on, in pre-order, and then reaches the node's ending node |
| Traversal.ChildNextNonDescendant | source/ThirdParty/Tree.hpp:1059-1078 | past a child comes the next child, or, past the last one, whatever comes past the parent |
| Traversal.PreOrderEndingOutside | source/ThirdParty/Tree.hpp:1051-1079 | the ending node of a pre-order walk is not one of the nodes walked, so the walk stops exactly after the subtree |
| Traversal.PreOrderVisit | source/ThirdParty/Tree.hpp:1085-1120 | looping the pre-order iterator until it reaches the end visits exactly the pre-order of the subtree |
| Traversal.OlderPreOrderEnding | ThirdParty/Tree.hpp:1041-1049 | the older iterator, ending at the next sibling only, agrees with the newer one for the head and for a node with a next sibling; it runs to the tree's end exactly when the node has no next sibling |
| Traversal.PostOrderSuccessor | source/ThirdParty/Tree.hpp:1163-1180 | the node after `p` in post-order, when there is one, is a node of the tree |
| Traversal.PostOrderIncrement | source/ThirdParty/Tree.hpp:1186-1220 | the step of the post-order iterator lands on a node of the tree, or on nothing |
| Traversal.PostOrderIncrementIsSuccessor | source/ThirdParty/Tree.hpp:1186-1220 | as long as inner nodes are reached only by climbing, the step is the post-order successor, and that remains so after the step |
| Traversal.PostOrderChain | source/ThirdParty/Tree.hpp:1146-1220 | stepping the post-order iterator from a node's leftmost leaf visits exactly the subtree's post-order and then reaches the ending node its constructor computes; every node visited lies in the subtree |
| Traversal.PostOrderChainLeaf | source/ThirdParty/Tree.hpp:1159-1180 | the post-order walk of a leaf is the leaf alone, followed by its successor |
| Traversal.PostOrderChainInner | source/ThirdParty/Tree.hpp:1209-1215 | the post-order walk of an inner node is the walk of its children followed by the node, reached by climbing from the last child |
| Traversal.PostOrderFromChain | source/ThirdParty/Tree.hpp:1198-1208 | from a node's `i`-th child, the walk starts at that child's leftmost leaf, visits the children from `i` on, and climbs to the node |
| Traversal.PostOrderEndingOutside | source/ThirdParty/Tree.hpp:1168-1180 | the ending node of a post-order walk is not one of the nodes walked |
| Traversal.CountAllDescendants | source/ThirdParty/Tree.hpp:421-434 | the post-order walk from a node, less the node, counts the nodes strictly below it |
| Traversal.Size | source/ThirdParty/Tree.hpp:825-832 | the post-order walk from the head counts every node of the tree |
| Traversal.PostOrderWalkLength | source/ThirdParty/Tree.hpp:1146-1220 | the number of steps a post-order iterator takes before reaching its end is the number of nodes in the subtree |
| Traversal.PostOrderCount | source/ThirdParty/Tree.hpp:1146-1220 | the post-order of a subtree has one entry per node |
| Traversal.LeafSuccessor | source/ThirdParty/Tree.hpp:1320-1349 | the leaf reached after a leaf, when there is one, is a node of the tree |
| Traversal.LeafIncrement | source/ThirdParty/Tree.hpp:1308-1356 | the step of the leaf iterator, with the lone head ending the walk, lands on a node of the tree or on nothing |
| Traversal.LoneHeadLeafWalkNeverEnds | source/ThirdParty/Tree.hpp:1308-1353 | on a tree that is only a head, the leaf iterator as written (and tree.h:1626-1668, which takes the same step) goes from the head back to the head, so a loop up to the end never ends; the corrected step ends the walk |
| Traversal.LeafIncrementAgrees | source/ThirdParty/Tree.hpp:1313-1349 | on every node other than a lone head, the step as written and the corrected step agree |
| Traversal.LeavesChain | source/ThirdParty/Tree.hpp:1249-1356 | stepping the leaf iterator from a node's leftmost leaf visits exactly the leaves of its subtree, in order, and then reaches the ending node; every leaf visited lies in the subtree |
| Traversal.LeavesFromChain | source/ThirdParty/Tree.hpp:1320-1328 | from a node's `i`-th child the walk visits the leaves of the children from `i` on and then reaches the node's leaf successor |
| Traversal.ChildLeafSuccessor | source/ThirdParty/Tree.hpp:1320-1349 | past the leaves of a child come those of the next child, or, past the last child, what comes past the parent |
| Traversal.LeafEndingOutside | source/ThirdParty/Tree.hpp:1249-1305 | the ending node of a leaf walk is not one of the leaves walked |
| Traversal.CountLeaves | tree.h:909-918 | counted with the corrected leaf step, the leaf count is the number of leaves in the subtree; on a tree that is only a head the loop as written never returns (see Findings) |
| Traversal.SiblingIncrement | source/ThirdParty/Tree.hpp:1390-1398 | the sibling step lands on a node of the tree, or stays at the end |
| Traversal.SiblingStep | source/ThirdParty/Tree.hpp:1390-1398 | one `++` from the k-th child of a node lands on the next child, or on the end of the range after the last child |
| Traversal.SiblingDecrementUndoesIncrement | tree.h:1232-1253 | within a sibling range, decrementing after incrementing gives back the node, also from the end iterator past the last child |
| Traversal.IncrementStep | source/ThirdParty/Tree.hpp:1390-1398 | from the `i`-th child the sibling step reaches child `i + 1`, or the end after the last child |
| Traversal.SiblingVisit | source/ThirdParty/Tree.hpp:1382-1398 | the sibling iterator from the first child visits every child once, in order |
| Traversal.Depth | tree.h:945-957 | a node's depth is the number of parent links up to the head, its path length |
| Traversal.DepthOfCopy | source/ThirdParty/Tree.hpp:837-849 | the depth as written, on the parentless copy made by the by-value parameter, is always zero |
| Traversal.DepthOfCopyMissesParent | source/ThirdParty/Tree.hpp:837-849 | on a head with one child, `Depth` of the child by reference gives 1 and the by-value `Depth` of the same child gives 0, because the copy constructor (131-136) leaves the copy without a parent |
| TreeOrders.AncestorsAreProperPrefixes | Source/Model/baseModel.cpp:444-452 | the parent walk from a node has one entry per level, parent first and head last, and holds exactly the nodes above it |
| TreeOrders.AncestorsAreNodes | Source/Model/baseModel.cpp:446-451 | every node the parent walk reaches is a node of the tree |
| TreeOrders.LeavesAtMembers | source/ThirdParty/Tree.hpp:1249-1356 | the leaf walk of a node holds exactly the childless nodes of its subtree |
| TreeOrders.LeafIsInLeavesAt | source/ThirdParty/Tree.hpp:1249-1356 | every childless node below a node is on that node's leaf walk |
| TreeOrders.LeavesAtDistinct | source/ThirdParty/Tree.hpp:1249-1356 | the leaf walk visits every leaf at most once |
| TreeOrders.LeavesBelow | source/ThirdParty/Tree.hpp:1249-1356 | every leaf on a node's leaf walk lies in its subtree |
| TreeOrders.PostOrderAtMembers | source/ThirdParty/Tree.hpp:1146-1220 | the post-order walk of a node holds exactly the nodes of its subtree, the node included |
| TreeOrders.NodeIsInPostOrderAt | source/ThirdParty/Tree.hpp:1146-1220 | every node of a subtree is on the post-order walk of its top |
| TreeOrders.PostOrderAtDistinct | source/ThirdParty/Tree.hpp:1146-1220 | the post-order walk visits every node at most once |
| TreeOrders.PostOrderBelow | source/ThirdParty/Tree.hpp:1146-1220 | every node on the post-order walk of a node lies in its subtree |
| TreeOrders.PostOrderChildrenFirst | source/ThirdParty/Tree.hpp:1186-1220 | the post-order walk lists every node after all of its children, the order that bottom-up passes such as bounding boxes rely on |
| TreeOrders.Select | Source/Model/baseModel.cpp:454-517 | filtering a walk keeps exactly the walked nodes that pass the filter and never lengthens the walk |
| TreeOrders.SelectDistinct | Source/Model/baseModel.cpp:454-517 | filtering a walk that visits each node once appends each kept node once |
| TreeOrders.SelectAll | Source/Model/baseModel.cpp:454-467 | when every walked node passes, the filtered walk is the walk itself |
| TreeOrders.SelectAgrees | Source/Visualizations/visualization.cpp:509-527 | two filters that agree on every walked node keep the same nodes |
| TreeOrders.SelectStep | Source/Model/baseModel.cpp:519-524 | one more step of the walk appends the step's node exactly when it passes |
| FileModel.KeptLeaves | Source/Model/baseModel.cpp:454-482 | the leaves kept by a leaf walk are exactly the childless nodes below the start that pass the filter, each once |
| FileModel.KeptNodes | Source/Model/baseModel.cpp:484-517 | the nodes kept by a post-order walk are exactly the nodes below the start that pass the filter, each once |
| FileModel.UnfilteredDescendantsAreAllLeaves | Source/Model/baseModel.cpp:454-467 | without the directory-only switch and with a zero minimum size, highlighting descendants appends every leaf below the node in leaf order |
| FileModel.ExtensionMatchesAreShownLeaves | Source/Model/baseModel.cpp:469-482 | a leaf is highlighted by extension exactly when the descendant pass from the head would show it and its extension is the one asked for |
| FileModel.FindChild | Source/Visualizations/visualization.cpp:618-628 | the search returns the first child, in sibling order, whose name and extension together equal the component, and returns nothing only when no child matches |
| FileModel.DescendMatching | Include/Utilities/utilities.h:31-48 | each level of the descent takes the first child named by the next component; it stops early only where no child matches, and never goes deeper than the components allow |
| FileModel.MatchedDownStep | Include/Utilities/utilities.h:43-45 | taking the first matching child extends a matched descent by one level |
| FileModel.AdvanceToNextNonDescendant | Source/Model/baseModel.cpp:214-225 | the climbing loop lands on the node the pre-order walk of the subtree ends at, or on nothing |
| FileModel.CollectLeaves | Source/Model/baseModel.cpp:454-467 | looping a leaf iterator and appending the kept leaves gives the list followed by exactly the kept leaves below the root, in leaf order |
| FileModel.CollectLeaf | Source/Model/baseModel.cpp:458-466 | one turn appends the current leaf exactly when it is kept and steps the iterator |
| FileModel.LeafWalkBegins | source/ThirdParty/Tree.hpp:1249-1305 | a fresh leaf iterator stands at the first leaf of the walk and will end where the walk ends |
| FileModel.LeafWalkAdvances | source/ThirdParty/Tree.hpp:1308-1356 | one step of the leaf iterator moves to the next leaf of the walk, or to the end after the last |
| FileModel.CollectPostOrder | Source/Model/baseModel.cpp:484-517 | looping the post-order iterator over the whole tree and appending the kept nodes gives the list followed by exactly the kept nodes, in post-order |
| FileModel.CollectNode | Source/Model/baseModel.cpp:491-516 | one turn appends the current node exactly when it is kept and steps the iterator |
| FileModel.PostOrderWalkBegins | source/ThirdParty/Tree.hpp:1146-1180 | a fresh post-order iterator stands at the first node of the walk |
| FileModel.PostOrderWalkAdvances | source/ThirdParty/Tree.hpp:1186-1220 | one step of the post-order iterator moves to the next node of the walk, or to the end after the last |
| FileModel.HighlightStep | Source/Model/baseModel.cpp:446-451 | appending the current node and moving to its parent leaves the still-to-highlight nodes as they were, shifted by one |
| FileModel.BaseModel.constructor | Source/Model/baseModel.cpp:307-311 | a new model holds the scanned tree, nothing highlighted or selected, and no parsed layout |
| FileModel.BaseModel.Parse | Source/Model/squarifiedTreemap.cpp:375-406 | the laid-out tree is stored and marked as parsed; highlights and selection are kept |
| FileModel.BaseModel.ClearHighlightedNodes | Source/Model/baseModel.cpp:410-417 | the highlight list becomes empty |
| FileModel.BaseModel.SelectNode | Source/Model/baseModel.cpp:419-422 | the node becomes the selection; nothing else changes |
| FileModel.BaseModel.ClearSelectedNode | Source/Model/baseModel.cpp:429-432 | nothing is selected afterwards; nothing else changes |
| FileModel.BaseModel.HighlightNode | Source/Model/baseModel.cpp:519-524 | the node is appended to the highlight list |
| FileModel.BaseModel.HighlightAncestors | Source/Model/baseModel.cpp:444-452 | the parent, grandparent and so on up to the head are appended, in that order, and never the node itself |
| FileModel.BaseModel.HighlightDescendants | Source/Model/baseModel.cpp:454-467 | the leaves below the node that the parameters show are appended in leaf order, each once |
| FileModel.BaseModel.HighlightMatchingFileExtensions | Source/Model/baseModel.cpp:469-482 | the shown leaves of the whole tree with the given extension are appended in leaf order, each once |
| FileModel.BaseModel.HighlightMatchingFileExtension | Source/Visualizations/visualization.cpp:509-527 | the same pass with the extension read from the sample node |
| FileModel.BaseModel.HighlightLeaves | Source/Model/baseModel.cpp:456-466 | the leaf walk from the root appends exactly the kept leaves below it, in leaf order |
| FileModel.BaseModel.VisitLeaf | Source/Model/baseModel.cpp:458-466 | one turn of the walk highlights the current leaf exactly when it is kept, then steps the iterator |
| FileModel.BaseModel.HighlightMatchingFileNames | Source/Model/baseModel.cpp:484-517 | every node of the tree, in post-order, that is large enough, of a searched type, and whose lower-cased name and extension contain the lower-cased query is appended, each once |
| FileModel.BaseModel.VisitNode | Source/Model/baseModel.cpp:491-516 | one turn of the post-order walk highlights the current node exactly when it is kept, then steps the iterator |
| FileModel.BaseModel.UpdateBoundingBoxes | Source/Model/baseModel.cpp:318-348 | on a parsed model every node gets the bounding box computed from its children; an unparsed model is left as it was |
| FileModel.BaseModel.UpdateAncestorSizes | Source/Model/baseModel.cpp:680-700 | given that the node and every sibling off its path up to the head are non-empty, which is what the `Expects` at line 690 meets on the way up (the ancestors on the path are re-totalled before they are summed, so their old sizes are free), every ancestor of the node, climbing to the head, is re-totalled as the sum of its children's sizes |
| FileModel.BaseModel.SortNodes | Source/Model/baseModel.cpp:736-743 | every node's children are sorted largest first |
| FileModel.BaseModel.FindNodeUsingPath | Source/Visualizations/visualization.cpp:610-642 | from the head, each level takes the first child named by the next component, stopping where none matches; the deepest node reached is returned, the head when nothing matches |
| BoundingBoxes.TallestUnique | Source/Model/baseModel.cpp:333-340 | the tallest child height, with 0 when every child is lower, is determined by the heights alone |
| BoundingBoxes.ChildHeights | Source/Model/baseModel.cpp:335-340 | one height per child, each the height of that child's bounding box |
| BoundingBoxes.TallestUpToIsTallest | Source/Model/baseModel.cpp:333-340 | the reference running maximum over the first `i` children is at least 0 and every one of their heights, and is 0 or one of them |
| BoundingBoxes.BoxEnclosesChildren | Source/Model/baseModel.cpp:328-346 | a node's bounding box keeps its block's origin, width and depth, is never lower than the block, and reaches at least the block's height plus every child's box height |
| BoundingBoxes.LeafBoxIsBlock | Source/Model/baseModel.cpp:328-331 | a leaf's bounding box is its block |
| BoundingBoxes.BoxReachesHighestLeaf | Source/Model/baseModel.cpp:318-348 | when every child's block sits on its parent's block, a node's bounding box reaches exactly the top of the highest leaf block below it |
| BoundingBoxes.TallestTracksHighest | Source/Model/baseModel.cpp:333-340 | with stacked blocks, the running maximum over the children is the highest leaf top among them, measured from the parent's top |
| BoundingBoxes.TallestChild | Source/Model/baseModel.cpp:333-340 | the loop over the sibling chain yields the tallest stored child height, or 0 when every child is lower |
| BoundingBoxes.TallestExtends | Source/Model/baseModel.cpp:336-338 | one more child keeps the running value the tallest so far |
| BoundingBoxes.StoredHeights | Source/Model/baseModel.cpp:335-340 | one stored height per child, read from that child's bounding box |
| BoundingBoxes.UpdatedBoundingBoxes | Source/Model/baseModel.cpp:327-347 | the post-order pass gives every node its reference bounding box and changes nothing else |
| BoundingBoxes.VisitNode | Source/Model/baseModel.cpp:327-347 | visiting the next node of the post-order gives it its reference box, its children having theirs already |
| BoundingBoxes.StoredTallestIsReference | Source/Model/baseModel.cpp:333-340 | the running maximum over the stored child heights equals the reference one |
| BoundingBoxes.VisitedAfterUpdate | Source/Model/baseModel.cpp:343-346 | writing the reference box into the visited node extends the finished prefix by one |
| BoundingBoxes.StoredHeightsAreBoxes | Source/Model/baseModel.cpp:327-347 | when a node is visited in post-order, its children already hold their reference boxes |
| AncestorSizes.SizesAgree | Source/Model/baseModel.cpp:685-691 | a children's total depends only on the children's sizes |
| AncestorSizes.SumChildSizes | Source/Model/baseModel.cpp:685-694 | with every child non-empty, as `Expects` demands, the accumulation over the sibling chain gives the total of the children's sizes, and that total is positive when there is a child |
| AncestorSizes.UpdatedAncestorSizes | Source/Model/baseModel.cpp:680-700 | when the node and every sibling off its path are non-empty, which is what the `Expects` at line 690 meets on the way up (the ancestors on the path are re-totalled before they are summed, so their old sizes are free), only the sizes of the proper ancestors of the node change, and each of them becomes the total of its children |
| AncestorSizes.SumIntoParent | Source/Model/baseModel.cpp:681-698 | one turn of the climb sums the children into the parent, whose total is positive as the `Expects` at line 694 demands, extends the re-totalled ancestors by one level, and keeps every child still to be summed non-empty, the freshly re-totalled parent included |
| AncestorSizes.SumStep | Source/Model/baseModel.cpp:693-697 | storing the children's total in the parent keeps everything else as it was and adds the parent to the re-totalled levels |
| AncestorSizes.SumStepTotals | Source/Model/baseModel.cpp:693-697 | the totals already held below the parent stay held after the parent's size changes |
| AncestorSizes.ChildSizesOffParent | Source/Model/baseModel.cpp:693-697 | changing the parent's data leaves the children's total of the parent and of every node at its level or deeper unchanged |
| AncestorSizes.RestoresConsistency | Source/Model/baseModel.cpp:680-700 | when every node off the climbed path was already as large as its children together, the climb makes every inner node as large as its children together |
| Scanning.CombinedFileSize | Source/Model/Scanner/scanningUtilities.cpp:39-40 | the high and low 32-bit words give a size below 2^64 from which both words can be read back |
| Scanning.ComputedSizeIsRegularBytes | Source/Model/Scanner/scanningUtilities.cpp:60-74 | with directories starting at zero, the size a node ends with is the bytes of the regular files below it |
| Scanning.NonDirectoriesKeepTheirSize | Source/Model/Scanner/scanningUtilities.cpp:70-72 | a node that is not a directory keeps its data, its size included |
| Scanning.ComputedSizesAreConsistent | Source/Model/Scanner/scanningUtilities.cpp:60-74 | after the pass, with directories starting at zero and only directories holding children, every inner node is as large as its children together |
| Scanning.ChildSizesAreComputed | Source/Model/Scanner/scanningUtilities.cpp:60-74 | after the pass, the stored sizes of a node's children add up to their computed sizes |
| Scanning.ComputeDirectorySizes | Source/Model/Scanner/scanningUtilities.cpp:60-74 | the post-order pass, adding each node's size into a directory parent, gives every node its computed size and changes nothing else |
| Scanning.SizingBegins | Source/Model/Scanner/scanningUtilities.cpp:62 | before the walk no child has been visited, and the walk lists children before parents, each node once |
| Scanning.SizingFinishes | Source/Model/Scanner/scanningUtilities.cpp:60-74 | a walk that visited every node has computed every size |
| Scanning.HeadComesLast | Source/Model/Scanner/scanningUtilities.cpp:65-68 | when the walk reaches the node without a parent, every other node has been visited, so stopping there loses nothing |
| Scanning.AllSized | Source/Model/Scanner/scanningUtilities.cpp:65-68 | once every node but the head has been visited, every node holds its computed size |
| Scanning.AddToParent | Source/Model/Scanner/scanningUtilities.cpp:63-72 | one turn of the walk adds the visited node's final size into a directory parent and keeps the sizing invariant |
| Scanning.AddedToDirectory | Source/Model/Scanner/scanningUtilities.cpp:70-72 | a directory parent grown by the visited node's size is up to date with the children visited so far |
| Scanning.SkippedOtherParent | Source/Model/Scanner/scanningUtilities.cpp:70-72 | a parent that is not a directory keeps its size |
| Scanning.NodeSizeIsFinal | Source/Model/Scanner/scanningUtilities.cpp:62-64 | the node being visited already holds its final size, its children having come before it |
| Scanning.ContainsProblematicPathElements | Source/Model/Scanner/scanningWorker.cpp:82-96 | the scan answers true exactly when some component of the path is "." or ".." |
| Scanning.AcceptedPathsAreSanitized | Source/Model/Scanner/scanningWorker.cpp:82-96 | a path the scanner accepts is one that sanitising leaves unchanged |
| Scanning.ProcessFile | Source/Model/Scanner/scanningWorker.cpp:118-133 | a regular file gets a node exactly when its size is not zero, holding its name, extension and size |
| Scanning.ProcessPath | Source/Model/Scanner/scanningWorker.cpp:135-176 | nothing is added for a problematic path or after cancellation; a regular file is added only with a nonzero size and always then; a directory is added, with no extension and the undefined size, exactly when it is enterable and not empty |
| Scanning.Pruned | Source/Model/Scanner/scanningWorker.cpp:30-50 | pruning keeps the head's data |
| Scanning.PrunedHasNoEmptyNodes | Source/Model/Scanner/scanningWorker.cpp:30-50 | after pruning, no node below the head has size zero |
| Scanning.SummedSizeIsRegularBytes | Source/Model/Scanner/scanningUtilities.cpp:60-74 | when every directory holds its children's total, every node's size is the bytes of the regular files below it |
| Scanning.PruningKeepsRegularBytes | Source/Model/Scanner/scanningWorker.cpp:30-50 | pruning a tree whose directories hold their children's totals loses no regular bytes |
| Scanning.SummedBelow | Source/Model/Scanner/scanningUtilities.cpp:60-74 | directories that hold their children's total, node by node, do so in every subtree |
| Scanning.PruningAfterSizingKeepsBytes | Source/Model/Scanner/scanningWorker.cpp:212-213 | sizing and then pruning loses no regular bytes, and the head still holds the bytes of the regular files that remain |
| Scanning.PruneEmptyFilesAndDirectories | Source/Model/Scanner/scanningWorker.cpp:30-50 | the count logged is the number of nodes of size zero, and the tree left is the pruned tree |
| SizeSort.Merge | source/ThirdParty/Tree.hpp:537-614 | merging two halves in non-increasing size order gives a sequence in that order holding exactly the elements of both |
| SizeSort.TakeHead | source/ThirdParty/Tree.hpp:543-553 | putting the larger head before the merge of what is left keeps the order and the contents |
| SizeSort.SortBySize | source/ThirdParty/Tree.hpp:467-490 | the merge sort of the children is a permutation of them in non-increasing size order |
| SizeSort.SortNodes | Source/Model/baseModel.cpp:736-743 | every node keeps its data, and its children are a permutation of its sorted children, in non-increasing size order |
| SizeSort.SortEach | Source/Model/baseModel.cpp:737-742 | each child subtree is sorted in place, position by position |
| SizeSort.SortNodesOrdersEverywhere | Source/Model/baseModel.cpp:736-743 | after the pass, the children of every node of the tree are in non-increasing size order |
| SizeSort.SortNodesKeepsCount | Source/Model/baseModel.cpp:736-743 | sorting rearranges children but neither adds nor loses a node |
| FilePaths.FindNodeViaRelativePath | Include/Utilities/utilities.hpp:49-81 | the path "." names the start node; otherwise a node is returned only when every component was matched, one level each, and nothing is returned only when some component had no matching child on the way down |
| FilePaths.FirstMatchUnique | Include/Utilities/utilities.hpp:59-66 | at each level the first matching child is unique |
| FilePaths.MatchedWalksAgree | Include/Utilities/utilities.hpp:57-74 | two matched descents from the same node agree as far as both go, so the descent is determined by the path |
| FilePaths.NotFoundMeansNoFullMatch | Include/Utilities/utilities.hpp:76-78 | when the lookup gives up, no node at all is reached by matching every component |
| FilePaths.UpwardNames | Source/Core/controller.cpp:502-510 | the climb collects one name per level, the node's own name first |
| FilePaths.NamesDownTo | Source/Core/controller.cpp:512-513 | read head first, name `k` is the name of the node's ancestor at depth `k`, the node's own name last |
| FilePaths.UpwardNamesAt | Source/Core/controller.cpp:502-510 | counting from the node, entry "depth of the node minus `k`" of the climb is the name of the ancestor at depth `k` |
| FilePaths.JoinPathNoDoubledSlash | Source/Core/controller.cpp:512-520 | the newer join never puts two separators in a row when the names themselves do not, and no name after the head's starts with one |
| FilePaths.JoinPathIsIntercalate | Source/Core/controller.cpp:512-520 | with non-empty names that do not end in a separator, the newer join puts exactly one separator between every two names |
| FilePaths.AsWrittenIsIntercalate | source/controller.cpp:429-433 | the oldest join puts exactly one '/' between every two names when the head's name is not empty |
| FilePaths.AsWrittenDoublesRootSlash | source/controller.cpp:429-433 | for a head named "/" the oldest join gives "//home" where the newer one gives "/home" |
| FilePaths.CollectUpwardNames | Source/Core/controller.cpp:502-510 | the loop collects the names from the node up to the head |
| FilePaths.ResolveCompleteFilePath | Source/Core/controller.cpp:500-524 | for a node whose joined names are not empty, as the `Expects` at Source/Core/controller.cpp:522 demands, the path is the names from the head down joined without doubled separators, followed by the node's extension; `NodeToFilePath` (Source/controller.cpp:476-505) is the same with '/' |
| FilePaths.ResolveCompleteFilePathAsWritten | source/controller.cpp:415-437 | the oldest path is the names from the head down with a '/' after every non-empty prefix, followed by the extension |
| Controllers.FirstOffered | Source/controller.cpp:162-188 | the colour chosen is the first colour any rule offers, in priority order, or the fallback when no rule offers one |
| Controllers.NodeColorIsFirstOffered | Source/controller.cpp:162-188 | a node's colour follows these priorities: a colour registered for it, then the highlight colour when it is highlighted, then its extension's colour under a non-default scheme, then the directory or file colour |
| Controllers.RegisteredColorWins | Source/controller.cpp:543-549 | once a colour is registered for a node, the node is drawn in it whatever else holds; registering again replaces the colour |
| Controllers.RepaintSeesClearedList | Source/controller.cpp:381-394 | a node repainted after the highlighted list is cleared falls back to its directory or file colour; repainted before, it would still be drawn highlighted |
| Controllers.TotalSizeConcat | Source/controller.cpp:331-339 | the total size of the highlighted nodes adds up over concatenation, so highlighting more nodes only adds their sizes |
| Controllers.TotalSizeBoundsEach | Source/controller.cpp:331-339 | the total is at least the size of each highlighted node |
| Controllers.Controller.constructor | Include/controller.h:342-358 | a new controller has no model and no registered colours, and it does not allow interaction |
| Controllers.Controller.LoadModel | Source/controller.cpp:111-142 | the model a scan creates replaces the old one; the colours, the interaction flag and the settings stay as they were |
| Controllers.Controller.AllowUserInteractionWithModel | Source/controller.cpp:357-365 | after the call, the controller reports that interaction is allowed exactly when the argument says so; nothing else changes |
| Controllers.Controller.IsNodeHighlighted | Source/controller.cpp:254-264 | true exactly when the node is in the model's highlighted list |
| Controllers.Controller.DetermineNodeColor | Source/controller.cpp:162-188 | returns the colour that the priority rule gives for the node's registration, highlight state, scheme and extension |
| Controllers.Controller.RegisterNodeColor | Source/controller.cpp:543-549 | the node's colour is set to the given colour (insert or replace); nothing else changes |
| Controllers.Controller.ClearHighlightedNodes | Source/controller.cpp:381-394 | the callback gets the old highlighted list while the model already reports an empty one; afterwards the list is empty and the tree and selection are unchanged |
| Controllers.Controller.ClearSelectedNode | Source/controller.cpp:375-379 | the selection is dropped; the tree and the highlighted list are unchanged |
| Controllers.Controller.DisplayHighlightDetails | Source/controller.cpp:331-355 | reports how many nodes are highlighted, their total size, and that total in the active units |
| Controllers.Controller.ProcessHighlightedNodes | Source/controller.cpp:396-407 | the callback gets the model's highlighted list, then the details of that list are shown |
| Controllers.Controller.HighlightAncestors | Source/controller.cpp:409-418 | the node's proper ancestors are appended to the highlighted list; the callback and the details see the new list |
| Controllers.Controller.HighlightDescendants | Source/controller.cpp:420-431 | the leaves below the node that the parameters show are appended in leaf order; the callback and the details see the new list |
| Controllers.Controller.HighlightAllMatchingExtensions | Source/controller.cpp:433-443 | every shown leaf of the tree with the given extension is appended in leaf order; the callback and the details see the new list |
| Controllers.Controller.SearchTreeMap | Source/controller.cpp:445-474 | nothing happens for an empty query, without a model, or when neither files nor directories are searched; otherwise the old list goes to the deselection callback and the list becomes every matching node in post-order |
| Controllers.Controller.SelectNode | Source/controller.cpp:266-274 | the model selects the node; the tree and the highlighted list are unchanged |
| Controllers.Controller.SelectNodeAndUpdateStatusBar | Source/controller.cpp:276-294 | for a node whose joined path is not empty, as the `Expects` at Source/controller.cpp:500 demands, the node is selected, and the status shows its slash-joined path plus extension and its size in the active units |
| Controllers.Controller.SelectNodeViaRay | Source/controller.cpp:296-320 | without a model, or while interaction is disallowed, nothing changes; otherwise the old selection is handed back and the node hit, if any, becomes the selection with a status line; a node hit must have a non-empty joined path, as `NodeToFilePath` demands |
| Controllers.ClearHighlightedNodesAfterCallback | Source/Core/controller.cpp:398-407 | in this version the callback runs first, so it still sees the full highlighted list; the list is emptied afterwards |
| Controllers.SelfAndAncestorsArePrefixes | source/controller.cpp:260-276 | the self-inclusive parent walk has one entry per level, the k-th being the node's prefix k levels up, and holds exactly the prefixes of the node |
| Controllers.SensitiveSearchFindsNoMore | source/controller.cpp:327-383 | every node the oldest, case-sensitive search finds is also found by the newer case-insensitive search |
| Controllers.LegacyController.constructor | source/controller.h:219-227 | a new controller has no tree map and no parsed tree, no highlighted nodes and no selection |
| Controllers.LegacyController.GenerateNewVisualization | source/controller.cpp:42-53 | a scan starts exactly when the parameters name a root directory and there is no tree map yet or a new scan is forced; it leaves a fresh tree map with no parsed tree, so the controller counts as loaded before any tree exists; otherwise nothing changes |
| Controllers.LegacyController.ParseResults | source/controller.cpp:94-97 | with a tree map (it is dereferenced), the laid-out tree becomes its parsed tree; the highlights and the selection are kept |
| Controllers.LegacyController.SelectNodeAndUpdateStatusBar | source/controller.cpp:104-135 | a null node changes nothing; otherwise it becomes the selection and the status shows its path, joined the oldest way, and its size in binary units |
| Controllers.LegacyController.ClearSelectedNode | source/controller.cpp:224-227 | the selection is dropped and nothing else changes |
| Controllers.LegacyController.ClearHighlightedNodes | source/controller.cpp:229-246 | the callback gets the list, plus the selected node when asked to clear the selection and one exists; the list is emptied, and the selection is dropped when asked |
| Controllers.LegacyController.HighlightAncestors | source/controller.cpp:260-276 | appends the node itself, then each ancestor up to the head |
| Controllers.LegacyController.HighlightDescendants | source/controller.cpp:278-300 | appends, in leaf order, every leaf below the node that the parameters show |
| Controllers.LegacyController.HighlightAllMatchingExtensions | source/controller.cpp:302-325 | appends, in leaf order, every shown leaf of the tree with the target node's extension |
| Controllers.LegacyController.SearchTreeMap | source/controller.cpp:327-383 | nothing happens for an empty query, without a tree map, or when neither files nor directories are searched; otherwise the list and the selection are cleared, then a tree map with no parsed tree fails `GetTree`'s assertion (visualization.cpp:403-412) and nothing is found, while with a parsed tree every node in post-order that passes the filters and contains the query, case-sensitively, is highlighted |
| Cameras.ClampedPitch | Source/View/Viewport/camera.cpp:20-26 | the stored pitch lies in [-90, 90] and is the point of that range nearest to the requested pitch |
| Cameras.ClampedFieldOfView | Source/View/Viewport/camera.cpp:228-237 | the stored field of view lies in [5, 85] and is the angle of that range nearest to the requested one |
| Cameras.ClampsAreIdempotent | Source/View/Viewport/camera.cpp:20-26 | a pitch or field of view already in range is kept, so clamping twice is clamping once |
| Cameras.FlipIntoViewport | Source/View/Viewport/camera.cpp:164-168 | x is kept and the two y coordinates add up to the viewport's y plus its height |
| Cameras.FlipIsAnInvolution | Source/View/Viewport/camera.cpp:164-168 | flipping twice gives back the point, so distinct points map to distinct points |
| Cameras.Camera.constructor | Include/Viewport/camera.h:265-272 | a new camera is valid, at the origin, level, with a 45-degree field of view |
| Cameras.Camera.SetPosition | Source/View/Viewport/camera.cpp:35-38 | `GetPosition` then returns the new position; pitch, field of view and viewport are unchanged |
| Cameras.Camera.OffsetPosition | Source/View/Viewport/camera.cpp:40-43 | the position moves by the offset component by component; nothing else changes |
| Cameras.Camera.SetOrientation | Source/View/Viewport/camera.cpp:45-51 | the pitch is the requested one clamped to [-90, 90]; validity is kept |
| Cameras.Camera.OffsetOrientation | Source/View/Viewport/camera.cpp:62-68 | the pitch moves by the offset and is clamped to [-90, 90]; validity is kept |
| Cameras.Camera.NormalizePitch | Source/View/Viewport/camera.cpp:11-28 | the pitch half of `NormalizeAngles`: the field becomes its clamped value |
| Cameras.Camera.SetViewport | Source/View/Viewport/camera.cpp:192-196 | the viewport is stored; position, pitch and field of view are unchanged |
| Cameras.Camera.MapToOpenGLViewport | Source/View/Viewport/camera.cpp:164-168 | x is kept and y is reflected into the current viewport |
| Cameras.Camera.SetFieldOfView | Source/View/Viewport/camera.cpp:228-237 | the angle is stored clamped to [5, 85]; validity is kept |
| Cameras.Camera.IncreaseFieldOfView | Source/View/Viewport/camera.cpp:244-251 | five degrees wider, capped at 85; strictly wider unless already at 85 |
| Cameras.Camera.DecreaseFieldOfView | Source/View/Viewport/camera.cpp:253-260 | five degrees narrower, floored at 5; strictly narrower unless already at 5 |
| Cameras.WidenThenNarrow | Source/View/Viewport/camera.cpp:244-260 | widening then narrowing gives back the field of view when the first step was not capped |
| Gamepads.ButtonAfter | Source/View/HID/xboxGamepad.cpp:8-27 | a rising edge makes the state Down, a falling edge Up, an unchanged bit leaves the entry as it was; the handlers are never changed |
| Gamepads.HandlerFired | Source/View/HID/xboxGamepad.cpp:15-26 | a handler fires only on an edge: the down handler on a rising edge, the up handler on a falling one, and a present handler always fires on its edge |
| Gamepads.FiredOneMore | Source/View/HID/xboxGamepad.cpp:29-36 | handling one more button of the map adds exactly its fired handler, if any |
| Gamepads.UpdatedOneMore | Source/View/HID/xboxGamepad.cpp:29-36 | updating one more button in place extends the updated part of the map by that button's new entry |
| Gamepads.EveryButtonUpdated | Source/View/HID/xboxGamepad.cpp:29-36 | with no button handled the map is the old one, with every button handled it is the map after the poll |
| Gamepads.PollingKeepsTrack | Source/View/HID/xboxGamepad.cpp:8-36 | when every recorded state agreed with the previous reading, after a poll every state agrees with the current reading |
| Gamepads.InitialMapTracks | Include/View/HID/xboxGamepad.h:232-246 | a map of buttons that are all up agrees with a reading of no bits |
| Gamepads.IsDownIn | Source/View/HID/xboxGamepad.cpp:124-132 | down exactly when the button is in the map and its state is Down |
| Gamepads.Capped | Source/View/HID/xboxGamepad.cpp:183-196 | the stored value is the request or the maximum, whichever is smaller |
| Gamepads.XboxGamepad.constructor | Include/View/HID/xboxGamepad.h:223-246 | the fourteen buttons are all Up with no handlers, dead zones and threshold are at their maxima, no pad was seen |
| Gamepads.XboxGamepad.IsButtonDown | Source/View/HID/xboxGamepad.cpp:124-132 | false for a button not in the map, otherwise true exactly when its state is Down |
| Gamepads.XboxGamepad.UpdateSingleButton | Source/View/HID/xboxGamepad.cpp:8-27 | the button's entry, inserted as Up when missing, is replaced by its entry after the poll and nothing else in the map changes; the fired handler is returned |
| Gamepads.XboxGamepad.UpdateAllButtons | Source/View/HID/xboxGamepad.cpp:29-36 | each button already in the map is updated once from its own old entry; the handlers fired are those of the buttons whose bit changed |
| Gamepads.XboxGamepad.Update | Source/View/HID/xboxGamepad.cpp:134-181 | a change of connection is reported; without a pad nothing else changes; with one every button is updated against the previous reading, which the new one replaces; the states stay in step with the pad |
| Gamepads.XboxGamepad.SetDownHandler | Source/View/HID/xboxGamepad.cpp:114-117 | only the button's down handler is replaced, inserting a default entry when missing; its state is kept |
| Gamepads.XboxGamepad.SetUpHandler | Source/View/HID/xboxGamepad.cpp:119-122 | only the button's up handler is replaced, inserting a default entry when missing; its state is kept |
| Gamepads.XboxGamepad.SetLeftStickDeadZone | Source/View/HID/xboxGamepad.cpp:183-186 | stores the request capped at 32767 |
| Gamepads.XboxGamepad.SetRightStickDeadZone | Source/View/HID/xboxGamepad.cpp:188-191 | stores the request capped at 32767 |
| Gamepads.XboxGamepad.SetTriggerThreshold | Source/View/HID/xboxGamepad.cpp:193-196 | stores the request capped at 127 |
| Gamepads.PressThenRelease | Source/View/HID/xboxGamepad.cpp:8-27 | a press then a release seen by two polls fires the down handler then the up handler and leaves the button Down then Up |
| Settings.BlockPassesFilter | Source/Settings/sessionSettings.cpp:85-97 | a block is hidden exactly when it is below the minimum size, or when only directories are shown and it is not one; the same filter as the highlight passes |
| Settings.StricterParametersHideMore | Source/Core/Settings/settingsManager.cpp:181-193 | a larger minimum size or a directories-only restriction never shows a block that the looser parameters hid |
| Settings.DirectoriesNeedOnlyTheMinimum | Source/Core/Settings/settingsManager.cpp:181-193 | a directory passes exactly when it reaches the minimum size |
| Settings.SessionSettings.constructor | Include/Settings/sessionSettings.h:160-173 | the field defaults: speed 0.25, sensitivity 0.20, ambient 0.2, attenuation 0, shininess 80, light detached, files searched, directories not, binary prefix |
| Settings.SessionSettings.SetCameraSpeed | Source/Settings/sessionSettings.cpp:5-13 | `GetCameraSpeed` returns the speed just set; no other field changes |
| Settings.SessionSettings.OnMouseSensitivityChanged | Source/Settings/sessionSettings.cpp:50-53 | the getter returns the value just set; no other field changes |
| Settings.SessionSettings.OnAmbientLightCoefficientChanged | Source/Settings/sessionSettings.cpp:55-58 | the getter returns the value just set; no other field changes |
| Settings.SessionSettings.OnLightAttenuationChanged | Source/Settings/sessionSettings.cpp:60-63 | the getter returns the value just set; no other field changes |
| Settings.SessionSettings.OnAttachLightToCameraStateChanged | Source/Settings/sessionSettings.cpp:65-68 | the getter returns the value just set; no other field changes |
| Settings.SessionSettings.OnFieldOfViewChanged | Source/Settings/sessionSettings.cpp:70-73 | the field of view is the value just set; no other field changes |
| Settings.SessionSettings.OnShouldSearchFilesChanged | Source/Settings/sessionSettings.cpp:75-78 | the flag is the value just set; no other field changes |
| Settings.SessionSettings.OnShouldSearchDirectoriesChanged | Source/Settings/sessionSettings.cpp:80-83 | the flag is the value just set; no other field changes |
| Settings.SessionSettings.IsBlockVisible | Source/Settings/sessionSettings.cpp:85-97 | visible exactly when the block passes the filter of the current parameters |
| Settings.SessionSettings.SetVisualizationParameters | Source/Settings/sessionSettings.cpp:99-114 | the argument is stored and handed back, and the getter returns it |
| Settings.SessionSettings.SetActiveNumericPrefix | Source/Settings/sessionSettings.cpp:116-124 | the getter returns the prefix just set |
| Settings.Manager.constructor | Source/Core/Settings/settingsManager.h:266-295 | the field defaults of the manager, the "Default" colour scheme and the binary prefix |
| Settings.Manager.OnCameraSpeedChanged | Source/Core/Settings/settingsManager.cpp:126-129 | `GetCameraSpeed` returns the speed just set; `SetCameraSpeed` (lines 200-203) does the same |
| Settings.Manager.OnMouseSensitivityChanged | Source/Core/Settings/settingsManager.cpp:131-134 | the getter returns the value just set |
| Settings.Manager.OnAmbientLightCoefficientChanged | Source/Core/Settings/settingsManager.cpp:136-139 | the getter returns the value just set |
| Settings.Manager.OnLightAttenuationChanged | Source/Core/Settings/settingsManager.cpp:141-144 | `GetLightAttentuationFactor` returns the value just set |
| Settings.Manager.OnAttachLightToCameraStateChanged | Source/Core/Settings/settingsManager.cpp:146-149 | the getter returns the value just set |
| Settings.Manager.OnFieldOfViewChanged | Source/Core/Settings/settingsManager.cpp:151-154 | the field of view is the value just set |
| Settings.Manager.OnShouldSearchFilesChanged | Source/Core/Settings/settingsManager.cpp:156-159 | the flag is the value just set |
| Settings.Manager.OnShouldSearchDirectoriesChanged | Source/Core/Settings/settingsManager.cpp:161-164 | the flag is the value just set |
| Settings.Manager.OnShowCascadeSplitsToggled | Source/Core/Settings/settingsManager.cpp:166-169 | `ShouldShowCascadeSplits` returns the value just set |
| Settings.Manager.OnShowShadowsToggled | Source/Core/Settings/settingsManager.cpp:171-174 | `ShouldRenderShadows` returns the value just set |
| Settings.Manager.OnMonitoringOptionToggled | Source/Core/Settings/settingsManager.cpp:176-179 | `ShouldMonitorFileSystem` returns the value just set |
| Settings.Manager.ShouldBlockBeProcessed | Source/Core/Settings/settingsManager.cpp:181-193 | processed exactly when the block passes the filter of the current parameters |
| Settings.Manager.SetColorScheme | Source/Core/Settings/settingsManager.cpp:245-253 | `GetActiveColorScheme` returns the scheme just set |
| Settings.Manager.SetVisualizationParameters | Source/Core/Settings/settingsManager.cpp:255-270 | the argument is stored and handed back, and the getter returns it |
| Settings.Manager.SetActiveNumericPrefix | Source/Core/Settings/settingsManager.cpp:272-280 | the getter returns the prefix just set |
| Settings.ManagerAgreesWithSession | Source/Core/Settings/settingsManager.cpp:181-193 | the manager and the session settings show the same blocks under the same parameters |
| MainModels.MainModelHighlightsAsNewer | source/mainModel.cpp:118-159 | testing "regular file" where newer code tests "not a directory" changes nothing: both filters skip the same files, so the descendant and extension highlights are the same lists |
| MainModels.MainModel.constructor | source/mainModel.cpp:15-17 | a new model has no tree map, no parsed tree and nothing highlighted |
| MainModels.MainModel.GenerateNewVisualization | source/mainModel.cpp:24-37 | a scan starts exactly when the given parameters name a root directory and there is no tree map yet or a new scan is forced; it leaves a fresh tree map with no parsed tree, so the model counts as loaded before any tree exists; otherwise nothing changes |
| MainModels.MainModel.ParseResults | source/mainModel.cpp:78-81 | with a tree map (it is dereferenced), the laid-out tree becomes its parsed tree; the highlights and the parameters are kept |
| MainModels.MainModel.SetVisualizationParameters | source/mainModel.cpp:60-63 | the parameters are replaced; nothing else changes |
| MainModels.MainModel.ClearHighlightedNodes | source/mainModel.cpp:93-98 | the canvas restores the old list's colours, and the list is emptied |
| MainModels.MainModel.HighlightAncestors | source/mainModel.cpp:100-116 | the old list is restored and replaced by the node itself followed by each ancestor up to the head |
| MainModels.MainModel.HighlightDescendants | source/mainModel.cpp:118-137 | the old list is restored and replaced by the leaves below the node that the parameters show, in leaf order |
| MainModels.MainModel.HighlightAllMatchingExtension | source/mainModel.cpp:139-159 | the old list is restored and replaced by the shown leaves of the whole tree with the node's extension |
| MainModels.MainModel.SearchTreeMap | source/mainModel.cpp:161-200 | returns nothing for an empty query, without a tree map, or when neither files nor directories are searched; a tree map with no parsed tree fails `GetTree`'s assertion (visualization.cpp:403-412), which the result reports; otherwise every node in post-order that passes the filters and whose name and extension contain the query, ignoring case |
| MainModels.SearchResultsAreMatches | source/mainModel.cpp:161-200 | the search finds each node at most once, and only nodes that contain the query; it finds directories only when they are searched, and files only when they are searched |
| Preferences.PreferencesMap.constructor | source/Settings/preferencesMap.hpp:95-105 | a new map holds no entries |
| Preferences.PreferencesMap.Emplace | source/Settings/preferencesMap.hpp:95-105 | an existing name keeps its entry whatever its kind; a new name is added, and a lookup of it with a default of the same kind returns the inserted value |
| Preferences.PreferencesMap.GetValueOrDefault | source/Settings/preferencesMap.hpp:107-145 | the result has the default's kind; it is the stored value when the name is present with that kind, and the default when the name is missing or holds another kind |
| SanitizePaths.SanitizePath | Tests/testUtilities.hpp:45-75 | the pushes and pops of the loop leave exactly the components of the fold `Sanitized` |
| SanitizePaths.SanitizedIsClean | Tests/testUtilities.hpp:56-67 | the result holds no "." and holds ".." only as its first component |
| SanitizePaths.SanitizedIsSubsequence | Tests/testUtilities.hpp:56-72 | every kept component comes from the input, in the input's order |
| SanitizePaths.CleanIsFixedPoint | Tests/testUtilities.hpp:56-67 | a path that is already clean comes back unchanged |
| SanitizePaths.SanitizeIdempotent | Tests/testUtilities.hpp:56-72 | sanitising twice is sanitising once |
| SanitizePaths.LeadingParentSurvives | Tests/testUtilities.hpp:43-67 | against the documented promise, a leading ".." is kept and "/.." pops the root, leaving an empty path |
| SanitizePaths.KeepingRootIsClean | Tests/testUtilities.hpp:43 | the corrected fold, where ".." never pops the root and is never kept, yields no "." and no "..", and a rooted path stays rooted |
| Arenas.RoundUpIsLeastMultiple | source/ThirdParty/ArenaAllocator.hpp:159-162 | the rounded size is a multiple of the alignment, at least the request, less than the request plus the alignment, and no larger than any other such multiple |
| Arenas.MemoryArena.constructor | source/ThirdParty/ArenaAllocator.hpp:84-87 | a new arena's free pointer is at the start of its buffer, so `Used()` is 0 |
| Arenas.MemoryArena.Used | source/ThirdParty/ArenaAllocator.hpp:141-144 | the bytes handed out since the last reset never exceed the buffer size |
| Arenas.MemoryArena.Allocate | source/ThirdParty/ArenaAllocator.hpp:98-114 | when the rounded size fits in what is left, the block starts at the old free pointer with the requested length, lies in the buffer, and `Used()` grows by the rounded size; otherwise the heap serves the request and the arena is unchanged |
| Arenas.MemoryArena.Deallocate | source/ThirdParty/ArenaAllocator.hpp:116-134 | as written: an owned block rolls the free pointer back to its start only when its address plus its rounded-up address is the free pointer; anything else leaves the arena unchanged |
| Arenas.AsWrittenNeverRollsBack | source/ThirdParty/ArenaAllocator.hpp:124-128 | for any buffer whose address exceeds its size, the test as written never holds for an owned block |
| Arenas.AsWrittenKeepsLatestBlock | source/ThirdParty/ArenaAllocator.hpp:124-128 | in a 1024-byte arena at address 4096 with alignment 16, the first 16-byte block is not given back, though the corrected test gives it back |
| Arenas.MemoryArena.DeallocateLatest | source/ThirdParty/ArenaAllocator.hpp:116-134 | the corrected roll-back: an owned block whose start plus its rounded length is the free pointer rolls the pointer back to its start |
| Arenas.LatestBlockRollsBack | source/ThirdParty/ArenaAllocator.hpp:118-123 | the corrected test holds for the block served last, at its start plus its rounded length |
| Arenas.AllocateThenDeallocate | source/ThirdParty/ArenaAllocator.hpp:98-134 | allocating a block that fits and giving it back with the corrected test leaves the free pointer where it was |
| Arenas.MemoryArena.Reset | source/ThirdParty/ArenaAllocator.hpp:146-149 | the free pointer returns to the start of the buffer, so `Used()` is 0 |
| Blocks.Block.constructor | Source/Model/block.cpp:3-68 | the block keeps its origin and extents, has no coverage, its next row starts on top of it, and its vertex list is empty unless requested, in which case it is the face list |
| Blocks.Block.ComputeNextChildOrigin | Source/Model/block.cpp:75-78 | the origin raised by the block's height |
| Blocks.Block.SetNextRowOrigin | Source/Model/block.cpp:105-108 | only the next-row origin changes, to the given point |
| Blocks.Block.IncreaseCoverageBy | Source/Model/block.cpp:115-118 | only the coverage changes, by the given amount |
| Blocks.WithNormal | Source/Model/block.cpp:26-67 | a face's list holds two entries per corner |
| Blocks.Faces | Source/Model/block.cpp:26-67 | five faces (front, right, back, left, top) of six corners each |
| Blocks.Interleave | Source/Model/block.cpp:26-67 | with six corners per face the list holds twelve entries per face |
| Blocks.FaceVertices | Source/Model/block.cpp:13-15 | the vertex list of a block holds 60 entries |
| Blocks.InterleaveAt | Source/Model/block.cpp:26-67 | entry k of the list is entry k mod 12 of face k div 12 |
| Blocks.WithNormalAt | Source/Model/block.cpp:26-67 | entry 2i of a face's list is its i-th corner and entry 2i+1 its normal |
| Blocks.VerticesAlternate | Source/Model/block.cpp:26-67 | even entries are corners of the block and odd entries are unit axis normals |
| Blocks.FaceCornersAreCorners | Source/Model/block.cpp:26-67 | every corner listed for a face is a corner of the block |
| Blocks.UnitBlockVertices | Tests/modelTests.cpp:156-175 | the unit block at the origin has the expected vertices at entries 0, 6, 10, 48, 54 and 58 |
| ScanBreakdown.KeyOf | Source/View/Dialogs/scanBreakdownModel.cpp:100 | a file is tallied under its extension, or under "No Extension" when it has none; the key is never empty |
| ScanBreakdown.Counted | Source/View/Dialogs/scanBreakdownModel.cpp:93-107 | the number of regular files inserted under a key never exceeds the number of insertions |
| ScanBreakdown.TalliedAllCounts | Source/View/Dialogs/scanBreakdownModel.cpp:93-107 | from an empty map, a key is present exactly when a regular file was inserted under it, and its tally holds the count and bytes of those files, all of them and the visible ones |
| ScanBreakdown.CountedVisibleWithinAll | Source/View/Dialogs/scanBreakdownModel.cpp:103-106 | the visible count and bytes under a key never exceed the totals |
| ScanBreakdown.SummedWithoutFiles | Source/View/Dialogs/scanBreakdownModel.cpp:103-106 | with no file under a key, no bytes are summed under it |
| ScanBreakdown.TalliedKeepsVisibleWithinTotal | Source/View/Dialogs/scanBreakdownModel.cpp:101-106 | every insertion keeps each tally's visible share within its total |
| ScanBreakdown.TalliedKeys | Source/View/Dialogs/scanBreakdownModel.cpp:93-101 | a file that is not regular leaves the map as it was; a regular one adds at most its own key and removes none |
| ScanBreakdown.ScanBreakdownModel.constructor | Include/View/Dialogs/scanBreakdownModel.h:79-83 | a new model holds no tallies and no rows |
| ScanBreakdown.ScanBreakdownModel.Insert | Source/View/Dialogs/scanBreakdownModel.cpp:93-107 | the map becomes the old map with the file tallied; the rows and the prefix are unchanged and the visible shares stay within the totals |
| ScanBreakdown.ScanBreakdownModel.ClearData | Source/View/Dialogs/scanBreakdownModel.cpp:109-113 | the map and the rows are emptied |
| ScanBreakdown.ScanBreakdownModel.BuildModel | Source/View/Dialogs/scanBreakdownModel.cpp:115-127 | the prefix is stored, the rows hold each key of the map once with its tally copied, and the row count is the number of keys; the map, outside the method's frame, is unchanged |
| ScanBreakdown.RowsExceptStep | Source/View/Dialogs/scanBreakdownModel.cpp:121-126 | appending the row of one more key keeps the rows one per key built so far, each once |
| ScanBreakdown.Projected | Source/Windows/scanBreakdownModel.cpp:77-85 | the older tally keeps exactly the keys of the newer one |
| ScanBreakdown.LegacyAgreesWithNewer | Source/Windows/scanBreakdownModel.cpp:70-86 | tallying a file in the older model is tallying it in the newer one and dropping the visible share |
| ScanBreakdown.LegacyScanBreakdownModel.constructor | Include/Windows/scanBreakdownModel.h:89-93 | a new model holds no tallies and no rows |
| ScanBreakdown.LegacyScanBreakdownModel.Insert | Source/Windows/scanBreakdownModel.cpp:70-86 | a regular file adds its size and a count of one to its key's entry; other files change nothing; the rows are unchanged |
| ScanBreakdown.LegacyScanBreakdownModel.ClearData | Source/Windows/scanBreakdownModel.cpp:88-92 | the map and the rows are emptied |
| ScanBreakdown.LegacyScanBreakdownModel.Process | Source/Windows/scanBreakdownModel.cpp:94-107 | one row per key, each key once, with the size and count copied; the row count is the number of keys and the map is unchanged |

## Left out

- Rendering, the Qt windows and dialogs, the OpenGL assets, and everything painted: these have no state that a model can state.
- Ray and block intersection (`FindNearestIntersection`): floating-point geometry. `Controllers.Controller.SelectNodeViaRay` takes the node hit as a parameter.
- The squarified and slice-and-dice layouts that `Parse` and `ParseResults` run: floating-point geometry. The model receives the laid-out tree.
- Camera matrices, `LookAt`, `Unproject`, the yaw `fmod` and the aspect ratio: floating point. The camera model keeps position, pitch, field of view and viewport.
- The gamepad's stick dead-zone and trigger normalisation, XInput polling, vibration and its timer: floating point and foreign calls. `Gamepads.XboxGamepad.Update` takes the reading as a parameter.
- Threads: the scanning workers, the file-system monitors, the thread-safe queue, and monitoring start and stop.
- File-system and OS calls: file sizes, reparse points, disk space, the file explorer and the trash. Filesystem errors appear as fields of a scanned entry. `FindNodeViaAbsolutePath` needs `std::filesystem::relative`.
- The JSON preferences and colour files, `PersistentSettings`, logging and timers: library calls that cannot be seen from here. The node painter's colour map is a `map` parameter.
- The deep copy (`TreeNode` copy constructor and `Copy`) of the linked tree: only its effect on `Depth` is modelled, in `Traversal.DepthOfCopy`.
- LinkedTree.SortChildren: states the next-sibling chain and the first child only. The source leaves the previous-sibling links and the last child stale, so nothing is claimed about them.
- Callbacks into the window: each method returns the list a callback receives, and, where the order matters, what the model holds while the callback runs. The window's own reaction is not modelled.
- The order in which an `unordered_map` visits its entries: `Gamepads.XboxGamepad.UpdateAllButtons` and the breakdown tables state their results for any visiting order. Handlers are opaque identifiers.
- Status-bar text formatting (`ToPrefixedSize`'s string, the precision of the number): `SizeUnits.ConvertFileSizeToNumericPrefix` models the unit chosen and the exact number.
- `double` is `real` throughout, and C++ fixed-width integers are unbounded `int`/`nat`. No modelled operation relies on wrap-around. The int16 and uint8 widths of the settings setters are not modelled.
- FileData.Lower: lower-cases ASCII letters only. `std::tolower` in the "C" locale does the same, but other locales are not modelled.
- Path components are strings, and the root directory of an absolute path is the component "/". `make_preferred` and wide strings are not modelled.
- GSL `Expects` preconditions are `requires` clauses. Where the source checks the same condition again with an `if`, the model follows the `if`.
- Traversal.CountLeaves: counts with the corrected leaf step. On a tree that is only a head, `CountLeafNodes` as written (tree.h:909-918, starting from `beginLeaf`, tree.h:1070-1076) never returns, because tree.h's `operator++` (1626-1668) leaves a lone head where it is; `Traversal.LoneHeadLeafWalkNeverEnds` shows this for the identical step.
- FileModel.CollectLeaves: walks the leaves with the corrected leaf step (`Traversal.LeafStep`). When the walk starts at a head that has no children, such as the scan of an empty directory, the source's loop over `LeafIterator` never returns, because `operator++` (source/ThirdParty/Tree.hpp:1308-1356) leaves a lone head where it is. The model instead takes the head as the only leaf, kept if the filter passes. Walks that start below the head, or at a head with children, agree with the source (`Traversal.LeafIncrementAgrees`); see Findings.
- FileModel.CollectLeaf: takes one turn of the walk with the corrected leaf step; at a lone head the source's step stays in place, so its loop never ends (see `FileModel.CollectLeaves`).
- FileModel.LeafWalkAdvances: states the corrected leaf step. At a head with no children the source's `operator++` (source/ThirdParty/Tree.hpp:1308-1356) does not advance; see Findings.
- FileModel.BaseModel.HighlightDescendants: walks the leaves with the corrected leaf step (`Traversal.LeafStep`). When the walk starts at a head that has no children, such as the scan of an empty directory, the source's loop over `LeafIterator` never returns, because `operator++` (source/ThirdParty/Tree.hpp:1308-1356) leaves a lone head where it is. The model instead takes the head as the only leaf, kept if the filter passes. Walks that start below the head, or at a head with children, agree with the source (`Traversal.LeafIncrementAgrees`); see Findings.
- FileModel.BaseModel.HighlightMatchingFileExtensions: walks the leaves with the corrected leaf step (`Traversal.LeafStep`). When the walk starts at a head that has no children, such as the scan of an empty directory, the source's loop over `LeafIterator` never returns, because `operator++` (source/ThirdParty/Tree.hpp:1308-1356) leaves a lone head where it is. The model instead takes the head as the only leaf, kept if the filter passes. Walks that start below the head, or at a head with children, agree with the source (`Traversal.LeafIncrementAgrees`); see Findings.
- FileModel.BaseModel.HighlightMatchingFileExtension: walks the leaves with the corrected leaf step (`Traversal.LeafStep`). When the walk starts at a head that has no children, such as the scan of an empty directory, the source's loop over `LeafIterator` never returns, because `operator++` (source/ThirdParty/Tree.hpp:1308-1356) leaves a lone head where it is. The model instead takes the head as the only leaf, kept if the filter passes. Walks that start below the head, or at a head with children, agree with the source (`Traversal.LeafIncrementAgrees`); see Findings.
- FileModel.BaseModel.HighlightLeaves: walks the leaves with the corrected leaf step (`Traversal.LeafStep`). When the walk starts at a head that has no children, such as the scan of an empty directory, the source's loop over `LeafIterator` never returns, because `operator++` (source/ThirdParty/Tree.hpp:1308-1356) leaves a lone head where it is. The model instead takes the head as the only leaf, kept if the filter passes. Walks that start below the head, or at a head with children, agree with the source (`Traversal.LeafIncrementAgrees`); see Findings.
- FileModel.BaseModel.VisitLeaf: takes one turn of the walk with the corrected leaf step; at a lone head the source's step stays in place, so its loop never ends (see `FileModel.CollectLeaves`).
- Controllers.Controller.HighlightDescendants: walks the leaves with the corrected leaf step (`Traversal.LeafStep`). When the walk starts at a head that has no children, such as the scan of an empty directory, the source's loop over `LeafIterator` never returns, because `operator++` (source/ThirdParty/Tree.hpp:1308-1356) leaves a lone head where it is. The model instead takes the head as the only leaf, kept if the filter passes. Walks that start below the head, or at a head with children, agree with the source (`Traversal.LeafIncrementAgrees`); see Findings.
- Controllers.Controller.HighlightAllMatchingExtensions: walks the leaves with the corrected leaf step (`Traversal.LeafStep`). When the walk starts at a head that has no children, such as the scan of an empty directory, the source's loop over `LeafIterator` never returns, because `operator++` (source/ThirdParty/Tree.hpp:1308-1356) leaves a lone head where it is. The model instead takes the head as the only leaf, kept if the filter passes. Walks that start below the head, or at a head with children, agree with the source (`Traversal.LeafIncrementAgrees`); see Findings.
- Controllers.LegacyController.HighlightDescendants: walks the leaves with the corrected leaf step (`Traversal.LeafStep`). When the walk starts at a head that has no children, such as the scan of an empty directory, the source's loop over `LeafIterator` never returns, because `operator++` (source/ThirdParty/Tree.hpp:1308-1356) leaves a lone head where it is. The model instead takes the head as the only leaf, kept if the filter passes. Walks that start below the head, or at a head with children, agree with the source (`Traversal.LeafIncrementAgrees`); see Findings.
- Controllers.LegacyController.HighlightAllMatchingExtensions: walks the leaves with the corrected leaf step (`Traversal.LeafStep`). When the walk starts at a head that has no children, such as the scan of an empty directory, the source's loop over `LeafIterator` never returns, because `operator++` (source/ThirdParty/Tree.hpp:1308-1356) leaves a lone head where it is. The model instead takes the head as the only leaf, kept if the filter passes. Walks that start below the head, or at a head with children, agree with the source (`Traversal.LeafIncrementAgrees`); see Findings.
- MainModels.MainModel.HighlightDescendants: walks the leaves with the corrected leaf step (`Traversal.LeafStep`). When the walk starts at a head that has no children, such as the scan of an empty directory, the source's loop over `LeafIterator` never returns, because `operator++` (source/ThirdParty/Tree.hpp:1308-1356) leaves a lone head where it is. The model instead takes the head as the only leaf, kept if the filter passes. Walks that start below the head, or at a head with children, agree with the source (`Traversal.LeafIncrementAgrees`); see Findings.
- MainModels.MainModel.HighlightAllMatchingExtension: walks the leaves with the corrected leaf step (`Traversal.LeafStep`). When the walk starts at a head that has no children, such as the scan of an empty directory, the source's loop over `LeafIterator` never returns, because `operator++` (source/ThirdParty/Tree.hpp:1308-1356) leaves a lone head where it is. The model instead takes the head as the only leaf, kept if the filter passes. Walks that start below the head, or at a head with children, agree with the source (`Traversal.LeafIncrementAgrees`); see Findings.
- Controllers.LegacyController.SearchTreeMap: `treeMissing` marks the point where `GetTree`'s assertion fails, after the list has been cleared. The abort that follows, or the null dereference with assertions compiled out, is not modelled.
- MainModels.MainModel.SearchTreeMap: `treeMissing` marks the failed `GetTree` assertion. The abort itself is not modelled.
- Controllers.LegacyController.HighlightAllMatchingExtensions and MainModels.MainModel.HighlightAllMatchingExtension take a node of the current tree. The `GetTree` assertion that fails when no tree has been parsed is not modelled there.
- The window's `ScanDrive`, which `GenerateNewVisualization` starts: `scanStarted` reports the call, and the scan's result arrives through `ParseResults`.
- Arenas.MemoryArena.Allocate: the heap's answer to a request that does not fit is a parameter, and alignment rounding is stated arithmetically rather than with the power-of-two bit mask.
- Scanning.PruneEmptyFilesAndDirectories: the loop that deletes the collected nodes one by one is modelled by its net effect, the pruned tree. The head is kept even when its size is zero.
- `Settings.DefaultParameters` holds the member defaults of `VisualizationParameters` (source/Visualizations/visualization.h:22-33), and both settings constructors store it. `isolatedExtension` is left out because no modelled operation reads it.

## Findings

| source | as written | input that shows it | evidently intended | confidence | as-written member | corrected member |
|---|---|---|---|---|---|---|
| source/ThirdParty/Tree.hpp:1308-1356 | the leaf iterator's `++` on a node with no child, no next sibling and no parent leaves the iterator where it is | a tree that is only a head: `++` on the first leaf gives the head again, so a loop up to the end never ends | the walk ends after the only leaf | high, not executed | Traversal.LoneHeadLeafWalkNeverEnds | Traversal.LeafIncrement |
| tree.h:1626-1668 | the older tree's leaf `++` takes the same step, and `CountLeafNodes` (909-918) loops from `beginLeaf` (1070-1076) until the end | a tree that is only a head: `CountLeafNodes` never returns | a count of 1 | high, not executed | Traversal.LoneHeadLeafWalkNeverEnds | Traversal.CountLeaves |
| source/ThirdParty/Tree.hpp:837-849 | `Depth` takes its node by value, and the copy constructor (131-136) gives the copy no parent, so the loop up the parent chain never runs | any node one level below the head: depth 0 instead of 1 | the number of parent links up to the head, as tree.h:945-957 computes | high, not executed | Traversal.DepthOfCopyMissesParent | Traversal.Depth |
| source/controller.cpp:429-433 | the oldest path join adds "/" after every name, including one that already ends in "/" | a head named "/" with a child "home": "//home" | "/home", as the newer joins produce | high, not executed | FilePaths.AsWrittenDoublesRootSlash | FilePaths.JoinPathNoDoubledSlash |
| source/ThirdParty/ArenaAllocator.hpp:124-128 | `Deallocate` rounds up the block's address where it should round up its length, so the roll-back test compares the wrong sum | a 1024-byte arena at address 4096 with alignment 16: the first 16-byte block is not given back | the latest block rolls the free pointer back to its start | medium, not executed | Arenas.AsWrittenKeepsLatestBlock | Arenas.LatestBlockRollsBack |
| Tests/testUtilities.hpp:43-67 | a ".." with nothing left to pop is kept, and "/.." pops the root | ".." gives ".."; "/" followed by ".." gives an empty path | a path without parent elements, as documented, that stays rooted | medium, not executed | SanitizePaths.LeadingParentSurvives | SanitizePaths.KeepingRootIsClean |
