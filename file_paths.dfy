/**
 * From paths to nodes and back.
 *
 * `FindNodeViaRelativePath` (Include/Utilities/utilities.h, Include/Utilities/utilities.hpp)
 * descends from a node one path component at a time, matching each component against a
 * child's name and extension, and only answers when every component matched.
 *
 * `NodeToFilePath` (Source/controller.cpp) and `ResolveCompleteFilePath`
 * (Source/Core/controller.cpp, source/controller.cpp) climb from a node to the head
 * collecting names, then join them head first with a separator and append the node's
 * extension.  The two newer versions add no separator after a name that already ends in
 * one; the oldest adds one between every two names.
 */
module FilePaths {
  import opened Wrappers
  import opened FileData
  import opened NodeTree
  import FileModel

  // ---------------------------------------------------------------------------------
  // Path to node
  // ---------------------------------------------------------------------------------

  /**
   * `q` is reached from `root` by following, for each component in turn, the first child
   * whose full name is that component.
   */
  ghost predicate MatchedUpTo(t: Tree<VizBlock>, root: Path, q: Path, components: seq<string>)
  {
    && IsNode(t, q) && root <= q && |q| <= |root| + |components|
    && forall k :: |root| <= k < |q| ==> FileModel.IsFirstMatch(t, q[..k], q[k], components[k - |root|])
  }

  /**
   * `FindNodeViaRelativePath`: the path "." names `root` itself; otherwise the answer is the
   * node reached by matching every component, and there is none when some component has no
   * matching child on the way down.
   */
  method FindNodeViaRelativePath(t: Tree<VizBlock>, root: Path, components: seq<string>) returns (r: Option<Path>)
    requires IsNode(t, root)
    ensures components == ["."] ==> r == Some(root)
    ensures components != ["."] && r.Some? ==>
      MatchedUpTo(t, root, r.value, components) && |r.value| == |root| + |components|
    ensures r.None? ==> (components != ["."] &&
      exists q :: MatchedUpTo(t, root, q, components) && |q| < |root| + |components| &&
        FileModel.NoMatch(t, q, components[|q| - |root|]))
  {
    if components == ["."] {
      return Some(root);
    }
    var node := FileModel.DescendMatching(t, root, components);
    assert MatchedUpTo(t, root, node, components);
    if |node| < |root| + |components| {
      return None;
    }
    return Some(node);
  }

  /** The first matching child is unique. */
  lemma FirstMatchUnique(t: Tree<VizBlock>, p: Path, i: nat, j: nat, name: string)
    requires FileModel.IsFirstMatch(t, p, i, name) && FileModel.IsFirstMatch(t, p, j, name)
    ensures i == j
  {
  }

  /** A matched walk cut short is still a matched walk. */
  lemma MatchedPrefix(t: Tree<VizBlock>, root: Path, q: Path, components: seq<string>, n: nat)
    requires MatchedUpTo(t, root, q, components) && |root| <= n <= |q|
    ensures MatchedUpTo(t, root, q[..n], components)
  {
    PrefixIsNode(t, q, q[..n]);
    forall m | |root| <= m < n ensures q[..n][..m] == q[..m] && q[..n][m] == q[m] { }
  }

  /** Two matched walks from the same node agree as far as both go: the walk is determined. */
  lemma {:induction false} MatchedWalksAgree(t: Tree<VizBlock>, root: Path, q1: Path, q2: Path, components: seq<string>)
    requires MatchedUpTo(t, root, q1, components) && MatchedUpTo(t, root, q2, components)
    requires |q1| <= |q2|
    ensures q1 <= q2
    decreases |q1|
  {
    if |q1| > |root| {
      var k := |q1| - 1;
      MatchedPrefix(t, root, q1, components, k);
      MatchedPrefix(t, root, q2, components, k);
      MatchedWalksAgree(t, root, q1[..k], q2[..k], components);
      assert q1[..k] == q2[..k];
      FirstMatchUnique(t, q1[..k], q1[k], q2[k], components[k - |root|]);
      assert q1 == q2[..k] + [q2[k]];
    }
  }

  /**
   * When the lookup gives up, no node at all is reached by matching every component: the
   * walk that stopped is the only one, and it stopped for lack of a matching child.
   */
  lemma NotFoundMeansNoFullMatch(t: Tree<VizBlock>, root: Path, q: Path, full: Path, components: seq<string>)
    requires MatchedUpTo(t, root, q, components) && |q| < |root| + |components|
    requires FileModel.NoMatch(t, q, components[|q| - |root|])
    requires MatchedUpTo(t, root, full, components)
    ensures |full| < |root| + |components|
  {
    if |full| == |root| + |components| {
      MatchedWalksAgree(t, root, q, full, components);
      NextOnWalk(t, root, q, full, components);
      assert false;
    }
  }

  /** Along a matched walk, the next node is a child of the current one matching the next component. */
  lemma NextOnWalk(t: Tree<VizBlock>, root: Path, q: Path, full: Path, components: seq<string>)
    requires MatchedUpTo(t, root, full, components) && q <= full && |root| <= |q| < |full|
    ensures FileModel.Matches(t, q, full[|q|], components[|q| - |root|])
  {
    assert full[..|q|] == q;
  }

  // ---------------------------------------------------------------------------------
  // Node to path
  // ---------------------------------------------------------------------------------

  /** The names met climbing from `p` to the head: `p`'s own name first, the head's last. */
  function UpwardNames(t: Tree<VizBlock>, p: Path): (r: seq<string>)
    requires IsNode(t, p)
    ensures |r| == |p| + 1
    decreases |p|
  {
    [At(t, p).file.name] + (if p == [] then [] else PrefixIsNode(t, p, Parent(p)); UpwardNames(t, Parent(p)))
  }

  function Reverse<X>(s: seq<X>): (r: seq<X>)
    ensures |r| == |s| && forall i :: 0 <= i < |s| ==> r[i] == s[|s| - 1 - i]
  {
    if s == [] then [] else Reverse(s[1..]) + [s[0]]
  }

  /** The names from the head down to `p`: name `k` is the name of `p`'s ancestor at depth `k`. */
  function NamesDownTo(t: Tree<VizBlock>, p: Path): (r: seq<string>)
    requires IsNode(t, p)
    ensures |r| == |p| + 1
    ensures forall k :: 0 <= k <= |p| ==> IsNode(t, p[..k]) && r[k] == At(t, p[..k]).file.name
  {
    UpwardNamesAt(t, p);
    Reverse(UpwardNames(t, p))
  }

  lemma {:induction false} UpwardNamesAt(t: Tree<VizBlock>, p: Path)
    requires IsNode(t, p)
    ensures forall k :: 0 <= k <= |p| ==> IsNode(t, p[..k]) && UpwardNames(t, p)[|p| - k] == At(t, p[..k]).file.name
    decreases |p|
  {
    forall k | 0 <= k <= |p| ensures IsNode(t, p[..k]) {
      PrefixIsNode(t, p, p[..k]);
    }
    if p != [] {
      PrefixIsNode(t, p, Parent(p));
      UpwardNamesAt(t, Parent(p));
      forall k | 0 <= k < |p| ensures Parent(p)[..k] == p[..k] { }
    }
    assert p[..|p|] == p;
  }

  /** The separator rule of the newer versions: none after an empty path or a trailing separator. */
  function JoinStep(path: string, file: string, slash: char): string
  {
    if path != [] && path[|path| - 1] != slash then path + [slash] + file else path + file
  }

  /** `std::accumulate` with `JoinStep`, head first. */
  function JoinPath(names: seq<string>, slash: char): string
  {
    if names == [] then [] else JoinStep(JoinPath(names[..|names| - 1], slash), names[|names| - 1], slash)
  }

  /** The oldest rule: a '/' after every non-empty path. */
  function JoinStepAsWritten(path: string, file: string): string
  {
    path + (if path != [] then "/" else "") + file
  }

  function JoinPathAsWritten(names: seq<string>): string
  {
    if names == [] then [] else JoinStepAsWritten(JoinPathAsWritten(names[..|names| - 1]), names[|names| - 1])
  }

  /** The names with exactly one separator between every two (the reference join). */
  function Intercalate(names: seq<string>, slash: char): (r: string)
    ensures |names| > 0 ==> |r| >= |names[0]| && |r| >= |names[|names| - 1]|
    ensures |names| > 0 ==> r[|r| - |names[|names| - 1]|..] == names[|names| - 1]
  {
    if names == [] then []
    else if |names| == 1 then names[0]
    else Intercalate(names[..|names| - 1], slash) + [slash] + names[|names| - 1]
  }

  /** `s` never holds two separators in a row. */
  predicate NoDoubledSlash(s: string, slash: char)
  {
    forall i :: 0 <= i < |s| - 1 ==> !(s[i] == slash && s[i + 1] == slash)
  }

  lemma ConcatNoDoubledSlash(a: string, b: string, slash: char)
    requires NoDoubledSlash(a, slash) && NoDoubledSlash(b, slash)
    requires !(a != [] && b != [] && a[|a| - 1] == slash && b[0] == slash)
    ensures NoDoubledSlash(a + b, slash)
  {
    var c := a + b;
    forall i | 0 <= i < |c| - 1 ensures !(c[i] == slash && c[i + 1] == slash) {
      if i + 1 < |a| {
        assert c[i] == a[i] && c[i + 1] == a[i + 1];
      } else if i >= |a| {
        assert c[i] == b[i - |a|] && c[i + 1] == b[i + 1 - |a|];
      }
    }
  }

  /**
   * The newer join never doubles the separator: when no name holds a doubled separator and
   * no name after the head's starts with one, neither does the joined path.
   */
  lemma {:induction false} JoinPathNoDoubledSlash(names: seq<string>, slash: char)
    requires forall k :: 0 <= k < |names| ==> NoDoubledSlash(names[k], slash)
    requires forall k :: 1 <= k < |names| ==> names[k] == [] || names[k][0] != slash
    ensures NoDoubledSlash(JoinPath(names, slash), slash)
    decreases |names|
  {
    if names != [] {
      var init := names[..|names| - 1];
      var f := names[|names| - 1];
      var j := JoinPath(init, slash);
      JoinPathNoDoubledSlash(init, slash);
      if j != [] && j[|j| - 1] != slash {
        ConcatNoDoubledSlash(j, [slash], slash);
        ConcatNoDoubledSlash(j + [slash], f, slash);
      } else {
        if j != [] {
          assert init != [];
        }
        ConcatNoDoubledSlash(j, f, slash);
      }
    }
  }

  /** With non-empty names that do not end in a separator, the newer join is the reference join. */
  lemma {:induction false} JoinPathIsIntercalate(names: seq<string>, slash: char)
    requires forall k :: 0 <= k < |names| ==> names[k] != [] && names[k][|names[k]| - 1] != slash
    ensures JoinPath(names, slash) == Intercalate(names, slash)
    decreases |names|
  {
    if |names| > 1 {
      var init := names[..|names| - 1];
      var l := names[|names| - 2];
      assert init[|init| - 1] == l;
      assert l != [] && l[|l| - 1] != slash;
      JoinPathIsIntercalate(init, slash);
      var j := Intercalate(init, slash);
      assert j[|j| - |l|..] == l;
      assert j != [] && j[|j| - 1] != slash;
      assert JoinPath(names, slash) == JoinStep(j, names[|names| - 1], slash);
    }
  }

  /** The oldest join is the reference join with '/' whenever the head's name is not empty. */
  lemma {:induction false} AsWrittenIsIntercalate(names: seq<string>)
    requires |names| > 0 && names[0] != []
    ensures JoinPathAsWritten(names) == Intercalate(names, '/')
    decreases |names|
  {
    if |names| > 1 {
      var init := names[..|names| - 1];
      assert init[0] == names[0];
      AsWrittenIsIntercalate(init);
    }
  }

  /** A head named "/" (the file-system root): the oldest join doubles the separator. */
  lemma AsWrittenDoublesRootSlash()
    ensures JoinPathAsWritten(["/", "home"]) == "//home"
    ensures !NoDoubledSlash(JoinPathAsWritten(["/", "home"]), '/')
    ensures JoinPath(["/", "home"], '/') == "/home"
  {
    assert ["/", "home"][..1] == ["/"];
    assert [["/"][0]][..0] == [];
    var s := JoinPathAsWritten(["/", "home"]);
    assert s[0] == '/' && s[1] == '/';
  }

  /** The climb: collects the names from `p` up to the head. */
  method CollectUpwardNames(t: Tree<VizBlock>, p: Path) returns (reversePath: seq<string>)
    requires IsNode(t, p)
    ensures reversePath == UpwardNames(t, p)
  {
    reversePath := [At(t, p).file.name];
    var current := p;
    while current != []
      invariant IsNode(t, current)
      invariant reversePath + (if current == [] then [] else UpwardNames(t, Parent(current))) == UpwardNames(t, p)
      decreases |current|
    {
      PrefixIsNode(t, current, Parent(current));
      current := Parent(current);
      reversePath := reversePath + [At(t, current).file.name];
    }
  }

  /**
   * `NodeToFilePath` (with '/') and `ResolveCompleteFilePath` (with the platform's preferred
   * separator): the head-first names joined without doubling the separator, then the extension.
   * The joined names must not be empty (`Expects`).
   */
  method ResolveCompleteFilePath(t: Tree<VizBlock>, p: Path, slash: char) returns (path: string)
    requires IsNode(t, p) && JoinPath(NamesDownTo(t, p), slash) != []
    ensures path == JoinPath(NamesDownTo(t, p), slash) + At(t, p).file.extension
  {
    var reversePath := CollectUpwardNames(t, p);
    path := JoinPath(Reverse(reversePath), slash) + At(t, p).file.extension;
  }

  /** The oldest `ResolveCompleteFilePath`: a '/' between every two names. */
  method ResolveCompleteFilePathAsWritten(t: Tree<VizBlock>, p: Path) returns (path: string)
    requires IsNode(t, p)
    ensures path == JoinPathAsWritten(NamesDownTo(t, p)) + At(t, p).file.extension
  {
    var reversePath := CollectUpwardNames(t, p);
    path := JoinPathAsWritten(Reverse(reversePath)) + At(t, p).file.extension;
  }
}
