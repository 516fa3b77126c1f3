/**
 * Path scoring (`Evaluator.evaluate_path`, Agents/evaluator.py): the mean
 * score of a root-to-node path with the root left out.
 */
module Evaluator {
  import opened Nodes

  /** Left-to-right sum, the order in which the loop accumulates `node_sum`. */
  function Sum(s: seq<real>): real
    decreases |s|
  {
    if s == [] then 0.0 else Sum(s[..|s| - 1]) + s[|s| - 1]
  }

  /** Every node after the root carries a score (the root's score is never read). */
  predicate ScoredAfterRoot(path: seq<Node>)
  {
    forall i :: 1 <= i < |path| ==> path[i].score.Some?
  }

  /** The scores of `path[1:]`. */
  function TailScores(path: seq<Node>): (s: seq<real>)
    requires |path| >= 1 && ScoredAfterRoot(path)
    ensures |s| == |path| - 1
    ensures forall i :: 0 <= i < |s| ==> s[i] == path[i + 1].score.value
  {
    seq(|path| - 1, i requires 0 <= i < |path| - 1 => path[i + 1].score.value)
  }

  /** The mean score of the path, root excluded. */
  function PathMean(path: seq<Node>): real
    requires |path| >= 2 && ScoredAfterRoot(path)
  {
    Sum(TailScores(path)) / (|path| - 1) as real
  }

  /**
   * `evaluate_path`. The source divides by `len(node_path) - 1` without a
   * guard, so a root-only path is an error its callers must avoid.
   */
  method EvaluatePath(path: seq<Node>) returns (pathScore: real)
    requires |path| >= 2 && ScoredAfterRoot(path)
    ensures pathScore == PathMean(path)
  {
    var nodeSum := 0.0;
    var i := 1;
    ghost var scores := TailScores(path);
    while i < |path|
      invariant 1 <= i <= |path|
      invariant nodeSum == Sum(scores[..i - 1])
    {
      assert scores[..i] == scores[..i - 1] + [path[i].score.value];
      assert scores[..i][..i - 1] == scores[..i - 1];
      nodeSum := nodeSum + path[i].score.value;
      i := i + 1;
    }
    assert scores[..i - 1] == scores;
    pathScore := nodeSum / (|path| - 1) as real;
  }

  /** A sum of n values of at least lo is at least n * lo. */
  lemma {:induction false} SumAtLeast(s: seq<real>, lo: real)
    requires forall i :: 0 <= i < |s| ==> lo <= s[i]
    ensures |s| as real * lo <= Sum(s)
    decreases |s|
  {
    if s != [] {
      SumAtLeast(s[..|s| - 1], lo);
    }
  }

  /** A sum of n values of at most hi is at most n * hi. */
  lemma {:induction false} SumAtMost(s: seq<real>, hi: real)
    requires forall i :: 0 <= i < |s| ==> s[i] <= hi
    ensures Sum(s) <= |s| as real * hi
    decreases |s|
  {
    if s != [] {
      SumAtMost(s[..|s| - 1], hi);
    }
  }

  /** If every non-root score is at least lo, so is the path's mean. */
  lemma PathMeanAtLeast(path: seq<Node>, lo: real)
    requires |path| >= 2 && ScoredAfterRoot(path)
    requires forall i :: 1 <= i < |path| ==> lo <= path[i].score.value
    ensures lo <= PathMean(path)
  {
    var s := TailScores(path);
    SumAtLeast(s, lo);
    var n := |s| as real;
    var q := Sum(s) / n;
    assert Sum(s) == q * n;
    assert (q - lo) * n == Sum(s) - n * lo;
  }

  /** If every non-root score is at most hi, so is the path's mean. */
  lemma PathMeanAtMost(path: seq<Node>, hi: real)
    requires |path| >= 2 && ScoredAfterRoot(path)
    requires forall i :: 1 <= i < |path| ==> path[i].score.value <= hi
    ensures PathMean(path) <= hi
  {
    var s := TailScores(path);
    SumAtMost(s, hi);
    var n := |s| as real;
    var q := Sum(s) / n;
    assert Sum(s) == q * n;
    assert (hi - q) * n == n * hi - Sum(s);
  }

  /** The root's own score (None in practice) never enters the mean. */
  lemma PathMeanIgnoresRoot(path: seq<Node>, root: Node)
    requires |path| >= 2 && ScoredAfterRoot(path)
    ensures ScoredAfterRoot([root] + path[1..])
    ensures PathMean([root] + path[1..]) == PathMean(path)
  {
    assert TailScores([root] + path[1..]) == TailScores(path);
  }
}
