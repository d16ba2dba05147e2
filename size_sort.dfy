/**
 * `SortNodes` (Source/Model/baseModel.cpp, Source/Core/Visualizations/visualization.cpp,
 * Source/Visualizations/visualization.cpp): every node's children are merge-sorted with the
 * comparator "left is larger than right", so that the largest children come first.
 *
 * The merge sort follows `TreeNode::MergeSort`: the first half takes the extra element of an
 * odd count, and the merge takes from the left half exactly when the comparator holds, so
 * of two equally large children the one from the right half comes first.
 */
module SizeSort {
  import opened FileData
  import opened NodeTree

  function SizeOf(s: Tree<VizBlock>): nat
  {
    s.data.file.size
  }

  /** The comparator passed to `SortChildren`. */
  predicate LargerFirst(lhs: Tree<VizBlock>, rhs: Tree<VizBlock>)
  {
    SizeOf(lhs) > SizeOf(rhs)
  }

  ghost predicate NonIncreasing(s: seq<Tree<VizBlock>>)
  {
    forall i, j :: 0 <= i < j < |s| ==> SizeOf(s[i]) >= SizeOf(s[j])
  }

  /** `MergeSortedHalves`: the result is ordered and holds exactly the children of both halves. */
  function Merge(a: seq<Tree<VizBlock>>, b: seq<Tree<VizBlock>>): (r: seq<Tree<VizBlock>>)
    requires NonIncreasing(a) && NonIncreasing(b)
    ensures multiset(r) == multiset(a) + multiset(b)
    ensures NonIncreasing(r)
    decreases |a| + |b|
  {
    if a == [] then b
    else if b == [] then a
    else if LargerFirst(a[0], b[0]) then
      var rest := Merge(a[1..], b);
      TakeHead(a, b, rest);
      [a[0]] + rest
    else
      var rest := Merge(a, b[1..]);
      TakeHead(b, a, rest);
      [b[0]] + rest
  }

  /** Putting the larger of the two heads before the merge of what is left keeps the order and the contents. */
  lemma TakeHead(a: seq<Tree<VizBlock>>, b: seq<Tree<VizBlock>>, rest: seq<Tree<VizBlock>>)
    requires a != [] && NonIncreasing(a) && NonIncreasing(b)
    requires b != [] ==> SizeOf(b[0]) <= SizeOf(a[0])
    requires NonIncreasing(rest) && multiset(rest) == multiset(a[1..]) + multiset(b)
    ensures NonIncreasing([a[0]] + rest)
    ensures multiset([a[0]] + rest) == multiset(a) + multiset(b)
  {
    assert a == [a[0]] + a[1..];
    forall y | y in a[1..] ensures SizeOf(y) <= SizeOf(a[0]) {
      var k :| 0 <= k < |a[1..]| && a[1..][k] == y;
      assert y == a[k + 1];
    }
    forall y | y in b ensures SizeOf(y) <= SizeOf(a[0]) {
      var k :| 0 <= k < |b| && b[k] == y;
      assert SizeOf(b[k]) <= SizeOf(b[0]);
    }
    HeadBound(a[0], rest, a[1..], b);
  }

  /** A head no smaller than everything it is put before keeps the sequence ordered. */
  lemma HeadBound(x: Tree<VizBlock>, rest: seq<Tree<VizBlock>>, a: seq<Tree<VizBlock>>, b: seq<Tree<VizBlock>>)
    requires NonIncreasing(rest) && multiset(rest) == multiset(a) + multiset(b)
    requires forall y :: y in a ==> SizeOf(y) <= SizeOf(x)
    requires forall y :: y in b ==> SizeOf(y) <= SizeOf(x)
    ensures NonIncreasing([x] + rest)
  {
    var r := [x] + rest;
    forall i, j | 0 <= i < j < |r| ensures SizeOf(r[i]) >= SizeOf(r[j]) {
      if i == 0 {
        assert r[j] == rest[j - 1];
        assert rest[j - 1] in multiset(rest);
      } else {
        assert r[i] == rest[i - 1] && r[j] == rest[j - 1];
      }
    }
  }

  /** `TreeNode::MergeSort` on the children: ordered, and a permutation of them. */
  function SortBySize(s: seq<Tree<VizBlock>>): (r: seq<Tree<VizBlock>>)
    ensures multiset(r) == multiset(s)
    ensures NonIncreasing(r)
    decreases |s|
  {
    if |s| < 2 then s
    else
      var half := (|s| + 1) / 2;
      assert s == s[..half] + s[half..];
      Merge(SortBySize(s[..half]), SortBySize(s[half..]))
  }

  /** `SortNodes`: every node's children sorted, each of them already sorted below. */
  function SortNodes(s: Tree<VizBlock>): (r: Tree<VizBlock>)
    ensures r.data == s.data
    ensures multiset(r.children) == multiset(SortEach(s.children))
    ensures NonIncreasing(r.children)
    decreases s, 1
  {
    Node(s.data, SortBySize(SortEach(s.children)))
  }

  function SortEach(children: seq<Tree<VizBlock>>): (r: seq<Tree<VizBlock>>)
    ensures |r| == |children|
    ensures forall i :: 0 <= i < |children| ==> r[i] == SortNodes(children[i])
    decreases children, 0
  {
    seq(|children|, i requires 0 <= i < |children| => SortNodes(children[i]))
  }

  /** Children in non-increasing size order at every node of the tree. */
  ghost predicate OrderedEverywhere(s: Tree<VizBlock>)
    decreases s
  {
    NonIncreasing(s.children) && forall i :: 0 <= i < |s.children| ==> OrderedEverywhere(s.children[i])
  }

  /** After `SortNodes` every node's children are in non-increasing size order. */
  lemma {:induction false} SortNodesOrdersEverywhere(s: Tree<VizBlock>)
    ensures OrderedEverywhere(SortNodes(s))
    decreases s
  {
    var r := SortNodes(s);
    var sorted := SortEach(s.children);
    forall i | 0 <= i < |r.children| ensures OrderedEverywhere(r.children[i]) {
      assert r.children[i] in multiset(sorted);
      var k :| 0 <= k < |sorted| && sorted[k] == r.children[i];
      SortNodesOrdersEverywhere(s.children[k]);
    }
  }

  /** Sorting rearranges a node's children but keeps the number of nodes. */
  lemma {:induction false} SortNodesKeepsCount(s: Tree<VizBlock>)
    ensures NodeCount(SortNodes(s)) == NodeCount(s)
    decreases s
  {
    var sorted := SortEach(s.children);
    forall i | 0 <= i < |s.children| ensures NodeCount(sorted[i]) == NodeCount(s.children[i]) {
      SortNodesKeepsCount(s.children[i]);
    }
    CountFromSum(s, 0);
    CountFromSum(SortNodes(s), 0);
    CountFromSum(Node(s.data, sorted), 0);
    SumOfPermutation(SortNodes(s).children, sorted);
    SumPointwise(sorted, s.children);
  }

  function SumCounts(s: seq<Tree<VizBlock>>): nat
  {
    if s == [] then 0 else NodeCount(s[0]) + SumCounts(s[1..])
  }

  lemma {:induction false} CountFromSum(s: Tree<VizBlock>, i: nat)
    requires i <= |s.children|
    ensures NodeCountFrom(s, i) == SumCounts(s.children[i..])
    decreases |s.children| - i
  {
    if i < |s.children| {
      CountFromSum(s, i + 1);
      assert s.children[i..][1..] == s.children[i + 1..];
    }
  }

  lemma {:induction false} SumPointwise(a: seq<Tree<VizBlock>>, b: seq<Tree<VizBlock>>)
    requires |a| == |b| && forall i :: 0 <= i < |a| ==> NodeCount(a[i]) == NodeCount(b[i])
    ensures SumCounts(a) == SumCounts(b)
    decreases |a|
  {
    if a != [] {
      SumPointwise(a[1..], b[1..]);
    }
  }

  lemma {:induction false} SumOfPermutation(a: seq<Tree<VizBlock>>, b: seq<Tree<VizBlock>>)
    requires multiset(a) == multiset(b)
    ensures SumCounts(a) == SumCounts(b)
    decreases |a|
  {
    if a != [] {
      var k := PositionOf(b, a[0]);
      var b' := b[..k] + b[k + 1..];
      RemoveOne(b, k);
      RemoveHead(a);
      SumOfPermutation(a[1..], b');
      SumRemove(b, k);
    }
  }

  lemma PositionOf(s: seq<Tree<VizBlock>>, x: Tree<VizBlock>) returns (k: nat)
    requires x in multiset(s)
    ensures k < |s| && s[k] == x
  {
    assert x in s;
    k :| k < |s| && s[k] == x;
  }

  lemma RemoveHead(s: seq<Tree<VizBlock>>)
    requires s != []
    ensures multiset(s[1..]) == multiset(s) - multiset{s[0]}
  {
    assert s == [s[0]] + s[1..];
  }

  lemma RemoveOne(s: seq<Tree<VizBlock>>, k: nat)
    requires k < |s|
    ensures multiset(s[..k] + s[k + 1..]) == multiset(s) - multiset{s[k]}
  {
    assert s == s[..k] + [s[k]] + s[k + 1..];
  }

  lemma {:induction false} SumRemove(b: seq<Tree<VizBlock>>, k: nat)
    requires k < |b|
    ensures SumCounts(b) == NodeCount(b[k]) + SumCounts(b[..k] + b[k + 1..])
    decreases k
  {
    if k > 0 {
      SumRemove(b[1..], k - 1);
      assert b[1..][..k - 1] + b[1..][k..] == (b[..k] + b[k + 1..])[1..];
    } else {
      assert b[..k] + b[k + 1..] == b[1..];
    }
  }
}
