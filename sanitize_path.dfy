/**
 * `SanitizePath` (Tests/testUtilities.hpp): removes "." and ".." components from a path.
 * A path is taken as the sequence of its components; the root directory of an absolute
 * path is the component "/".  Each ".." pops the component before it when there is one.
 */
module SanitizePaths {
  const CurrentDirectory: string := "."
  const ParentDirectory: string := ".."
  const RootDirectory: string := "/"

  // ---------------------------------------------------------------------------------
  // The reference definition: a left fold of one step per component
  // ---------------------------------------------------------------------------------

  /** What one component does to the queue of kept components. */
  function Step(queue: seq<string>, token: string): seq<string>
  {
    if token == ParentDirectory && queue != [] then queue[..|queue| - 1]
    else if token == CurrentDirectory then queue
    else queue + [token]
  }

  /** The components kept after reading all of `tokens`, in order. */
  function Sanitized(tokens: seq<string>): seq<string>
  {
    if tokens == [] then [] else Step(Sanitized(tokens[..|tokens| - 1]), tokens[|tokens| - 1])
  }

  /**
   * The loop of `SanitizePath`: a queue that each component pushes or pops.  The second loop
   * of the source rebuilds a path from the queue, whose components are the queue itself.
   */
  method SanitizePath(unsanitizedPath: seq<string>) returns (sanitizedPath: seq<string>)
    ensures sanitizedPath == Sanitized(unsanitizedPath)
  {
    var queue: seq<string> := [];
    for i := 0 to |unsanitizedPath|
      invariant queue == Sanitized(unsanitizedPath[..i])
    {
      assert unsanitizedPath[..i + 1][..i] == unsanitizedPath[..i];
      var token := unsanitizedPath[i];
      if token == ParentDirectory && queue != [] {
        queue := queue[..|queue| - 1];
        continue;
      }
      if token == CurrentDirectory {
        continue;
      }
      queue := queue + [token];
    }
    assert unsanitizedPath[..|unsanitizedPath|] == unsanitizedPath;
    sanitizedPath := queue;
  }

  // ---------------------------------------------------------------------------------
  // What the result looks like
  // ---------------------------------------------------------------------------------

  /** No "." anywhere, and ".." at most as the first component. */
  ghost predicate IsClean(s: seq<string>)
  {
    && (forall j :: 0 <= j < |s| ==> s[j] != CurrentDirectory)
    && (forall j :: 0 < j < |s| ==> s[j] != ParentDirectory)
  }

  /**
   * The result holds no "." and holds ".." only in front: a ".." is kept only when nothing
   * before it is left to pop.
   */
  lemma {:induction false} SanitizedIsClean(tokens: seq<string>)
    ensures IsClean(Sanitized(tokens))
    decreases |tokens|
  {
    if tokens != [] {
      SanitizedIsClean(tokens[..|tokens| - 1]);
    }
  }

  /** `a` is `b` with some components left out. */
  predicate IsSubsequence(a: seq<string>, b: seq<string>)
    decreases |b|
  {
    a == [] ||
    (b != [] &&
      (IsSubsequence(a, b[..|b| - 1]) ||
       (a[|a| - 1] == b[|b| - 1] && IsSubsequence(a[..|a| - 1], b[..|b| - 1]))))
  }

  lemma {:induction false} SubsequenceDropLast(a: seq<string>, b: seq<string>)
    requires a != [] && IsSubsequence(a, b)
    ensures IsSubsequence(a[..|a| - 1], b)
    decreases |b|
  {
    var b' := b[..|b| - 1];
    if IsSubsequence(a, b') {
      SubsequenceDropLast(a, b');
    } else if a[..|a| - 1] != [] {
      SubsequenceDropLast(a[..|a| - 1], b');
    }
  }

  lemma SubsequenceExtend(a: seq<string>, b: seq<string>, x: string)
    requires IsSubsequence(a, b)
    ensures IsSubsequence(a, b + [x])
    ensures IsSubsequence(a + [x], b + [x])
  {
    assert (b + [x])[..|b|] == b;
    assert (a + [x])[..|a|] == a;
  }

  /** Every kept component comes from the input, in the input's order. */
  lemma {:induction false} SanitizedIsSubsequence(tokens: seq<string>)
    ensures IsSubsequence(Sanitized(tokens), tokens)
    decreases |tokens|
  {
    if tokens != [] {
      var init, last := tokens[..|tokens| - 1], tokens[|tokens| - 1];
      SanitizedIsSubsequence(init);
      assert tokens == init + [last];
      var q := Sanitized(init);
      SubsequenceExtend(q, init, last);
      if last == ParentDirectory && q != [] {
        SubsequenceDropLast(q, tokens);
      }
    }
  }

  /** Sanitising a clean path changes nothing, so sanitising twice is sanitising once. */
  lemma {:induction false} CleanIsFixedPoint(s: seq<string>)
    requires IsClean(s)
    ensures Sanitized(s) == s
    decreases |s|
  {
    if s != [] {
      var init := s[..|s| - 1];
      assert IsClean(init);
      CleanIsFixedPoint(init);
    }
  }

  lemma SanitizeIdempotent(tokens: seq<string>)
    ensures Sanitized(Sanitized(tokens)) == Sanitized(tokens)
  {
    SanitizedIsClean(tokens);
    CleanIsFixedPoint(Sanitized(tokens));
  }

  // ---------------------------------------------------------------------------------
  // A ".." with nothing before it survives, and ".." pops the root
  // ---------------------------------------------------------------------------------

  /**
   * The result is documented as holding no parent components, but a leading ".." is kept,
   * and "/.." pops the root, leaving an empty path.
   */
  lemma LeadingParentSurvives()
    ensures Sanitized([ParentDirectory]) == [ParentDirectory]
    ensures Sanitized([ParentDirectory, "a"]) == [ParentDirectory, "a"]
    ensures Sanitized([RootDirectory, ParentDirectory]) == []
  {
    assert [ParentDirectory, "a"][..1] == [ParentDirectory];
    assert [RootDirectory, ParentDirectory][..1] == [RootDirectory];
  }

  /** The step that keeps the documented promise: ".." never pops the root and is never kept. */
  function StepKeepingRoot(queue: seq<string>, token: string): seq<string>
  {
    if token == ParentDirectory then
      (if queue != [] && queue[|queue| - 1] != RootDirectory then queue[..|queue| - 1] else queue)
    else if token == CurrentDirectory then queue
    else queue + [token]
  }

  function SanitizedKeepingRoot(tokens: seq<string>): seq<string>
  {
    if tokens == [] then [] else StepKeepingRoot(SanitizedKeepingRoot(tokens[..|tokens| - 1]), tokens[|tokens| - 1])
  }

  /**
   * The corrected fold yields no "." and no "..", and a path that starts at the root still
   * starts at the root.
   */
  lemma {:induction false} KeepingRootIsClean(tokens: seq<string>)
    ensures var s := SanitizedKeepingRoot(tokens);
      forall j :: 0 <= j < |s| ==> s[j] != CurrentDirectory && s[j] != ParentDirectory
    ensures tokens != [] && tokens[0] == RootDirectory && (forall j :: 0 < j < |tokens| ==> tokens[j] != RootDirectory) ==>
      |SanitizedKeepingRoot(tokens)| > 0 && SanitizedKeepingRoot(tokens)[0] == RootDirectory
    decreases |tokens|
  {
    if tokens != [] {
      var init := tokens[..|tokens| - 1];
      KeepingRootIsClean(init);
      if tokens[0] == RootDirectory && (forall j :: 0 < j < |tokens| ==> tokens[j] != RootDirectory) && |tokens| > 1 {
        assert init[0] == RootDirectory;
        assert forall j :: 0 < j < |init| ==> init[j] != RootDirectory by {
          forall j | 0 < j < |init| ensures init[j] != RootDirectory {
            assert init[j] == tokens[j];
          }
        }
        var q := SanitizedKeepingRoot(init);
        assert |q| > 0 && q[0] == RootDirectory;
        if |q| == 1 {
          assert q[|q| - 1] == RootDirectory;
        }
      }
    }
  }
}
