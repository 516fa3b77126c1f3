/**
 * The gating rule of `expand_node` (Graph/graph_manager.py) as functions:
 * the oracle records that stand for the generator and evaluator calls, the
 * score of an evaluation, the accepted prefix of a candidate chain, and
 * `ChainFrom`, the node table that walking the chain produces. The method
 * `GraphManager.ExpandNode` is proved to produce exactly `ChainFrom`; the
 * lemmas here state what that table looks like.
 */
module Expansion {
  import opened Text
  import opened Nodes
  import opened Tree
  import opened Parser

  /** A parsed evaluator answer: the `\d+` capture of 'Final Score' and the 'Hint' text. */
  datatype Evaluation = Evaluation(finalScore: nat, hint: string)

  /**
   * The arguments of `generator.generate`. `call` numbers the calls, so that
   * an oracle may answer the same prompt differently on a later attempt.
   */
  datatype GenRequest = GenRequest(initialPrompt: string, domain: string, reasoningStates: string,
                                   rejectedActions: string, stepNumber: nat, hint: string, call: nat)

  /** The arguments of `evaluator.evaluate`, numbered like `GenRequest`. */
  datatype EvalRequest = EvalRequest(inputData: string, thought: string, domain: string,
                                     reasoningStates: string, call: nat)

  /** The generator followed by `parse_output`: a candidate chain for a request. */
  type Generator = GenRequest -> seq<Record>

  /** The evaluator followed by `parse_output`: a score and a hint for a request. */
  type Judge = EvalRequest -> Evaluation

  /** `float(parsed_eval[0]['Final Score']) / 100`. */
  function Score(e: Evaluation): (s: real)
    ensures s >= 0.0 && s * 100.0 == e.finalScore as real
  {
    e.finalScore as real / 100.0
  }

  /** The node built from a candidate, once it has been scored. */
  function CandidateNode(r: Record, id: Id, score: real): Node
  {
    Node(id, Some(r.thought), Some(r.action), Some(r.result), Some(score), "", None, [], 0, false)
  }

  /** `child_node.as_dict()`, as logged to `visited`. */
  function CandidateState(r: Record): State
  {
    Step(Some(r.thought), Some(r.action), Some(r.result))
  }

  /** `child_node.as_string()`, the text the evaluator is shown. */
  function CandidateText(r: Record): string
  {
    "Thought: " + r.thought + "\nAction: " + r.action + "\nResult: " + r.result
  }

  /** A node holding a candidate's three fields renders and logs as the candidate, whatever its id and score. */
  lemma CandidateFields(n: Node, r: Record)
    requires n.thought == Some(r.thought) && n.action == Some(r.action) && n.result == Some(r.result)
    ensures AsString(n) == CandidateText(r) && AsState(n) == CandidateState(r)
  {
  }

  /**
   * The `hint` argument: `'Hint: ' + node.hint` when the node has a hint,
   * empty otherwise.
   */
  function HintText(hint: string): (r: string)
    ensures (r == "") <==> (hint == "")
    ensures hint != "" ==> |r| == |hint| + 6 && r[..6] == "Hint: " && r[6..] == hint
  {
    if hint != "" then "Hint: " + hint else ""
  }

  /**
   * The generator request `expand_node` issues for node `nid`: the task's
   * prompt and domain, the rendered reasoning path from the root, the
   * observations, the step number one past the node's path, and its hint.
   */
  function ExpansionRequest(g: Arena, root: Id, priorKnowledge: string, initialPrompt: string, domain: string,
                            visited: seq<State>, nid: Id, call: nat): (r: GenRequest)
    requires TreeValid(g, root) && nid in g
    requires forall i :: 0 <= i < |visited| ==> visited[i].Step?
    ensures r.initialPrompt == initialPrompt && r.domain == domain && r.call == call
    ensures r.stepNumber == g[nid].depth + 2
    ensures (r.hint == "") <==> (g[nid].hint == "")
    ensures var head := "Step 1:\nInitial State: " + priorKnowledge;
      |head| <= |r.reasoningStates| && r.reasoningStates[..|head|] == head
  {
    var path := ReasoningPath(g, root, nid, priorKnowledge);
    RenderedPathStartsWithInitialState(g, root, nid, priorKnowledge);
    GenRequest(initialPrompt, domain, RenderPath(path), Observations(visited, path), |path| + 1, HintText(g[nid].hint), call)
  }

  /**
   * The evaluator's answers for the whole chain, had every candidate been
   * evaluated: each against the same reasoning path `state`, numbered from
   * `firstCall`. `expand_node` asks for a prefix of these.
   */
  function Evaluations(judge: Judge, initialPrompt: string, domain: string, state: string,
                       cands: seq<Record>, firstCall: nat): (evals: seq<Evaluation>)
    ensures |evals| == |cands|
  {
    seq(|cands|, j requires 0 <= j < |cands| =>
      Judged(judge, initialPrompt, domain, state, cands[j], firstCall + j))
  }

  /** The evaluator's answer, as call number `call`, for candidate `r` against the reasoning path `state`. */
  function Judged(judge: Judge, initialPrompt: string, domain: string, state: string, r: Record, call: nat): Evaluation
  {
    judge(EvalRequest(initialPrompt, CandidateText(r), domain, state, call))
  }

  /** How many candidates from position `i` on clear the gate before the first that does not. */
  function AcceptedFrom(evals: seq<Evaluation>, threshold: real, i: nat): (k: nat)
    requires i <= |evals|
    ensures i + k <= |evals|
    ensures forall j :: i <= j < i + k ==> Score(evals[j]) >= threshold
    ensures i + k < |evals| ==> Score(evals[i + k]) < threshold
    decreases |evals| - i
  {
    if i == |evals| || Score(evals[i]) < threshold then 0 else 1 + AcceptedFrom(evals, threshold, i + 1)
  }

  /** A run of `i - lo` passing scores from `lo`, ended by a failing one or by the end, is what `AcceptedFrom` counts. */
  lemma {:induction false} AcceptedFromRun(evals: seq<Evaluation>, threshold: real, lo: nat, i: nat)
    requires lo <= i <= |evals|
    requires forall j :: lo <= j < i ==> Score(evals[j]) >= threshold
    requires i < |evals| ==> Score(evals[i]) < threshold
    ensures AcceptedFrom(evals, threshold, lo) == i - lo
    decreases i - lo
  {
    if lo < i {
      AcceptedFromRun(evals, threshold, lo + 1, i);
    }
  }

  /** The candidates from position `i` on that get evaluated: the accepted ones, plus the one that stopped the chain if any. */
  function EvaluatedFrom(evals: seq<Evaluation>, threshold: real, i: nat): (n: nat)
    requires i <= |evals|
    ensures i + n <= |evals|
    ensures AcceptedFrom(evals, threshold, i) <= n <= AcceptedFrom(evals, threshold, i) + 1
  {
    var k := AcceptedFrom(evals, threshold, i);
    if i + k < |evals| then k + 1 else k
  }

  /** The ids the counter hands out from `base` on to `k` accepted candidates, in order. */
  function AcceptedIds(base: nat, k: nat): (ids: seq<Id>)
    ensures |ids| == k
  {
    seq(k, j requires 0 <= j < k => NodeId(base + j))
  }

  /** The states logged for the `n` candidates from position `i` on. */
  function LoggedStates(cands: seq<Record>, i: nat, n: nat): (states: seq<State>)
    requires i + n <= |cands|
    ensures |states| == n && forall j :: 0 <= j < n ==> states[j] == CandidateState(cands[i + j])
  {
    seq(n, j requires 0 <= j < n => CandidateState(cands[i + j]))
  }

  lemma AcceptedIdsHead(base: nat, k: nat)
    ensures AcceptedIds(base, k + 1) == [NodeId(base)] + AcceptedIds(base + 1, k)
  {
    var a, b := AcceptedIds(base + 1, k), AcceptedIds(base, k + 1);
    forall j | 0 <= j < k + 1 ensures ([NodeId(base)] + a)[j] == b[j] {
      if j > 0 {
        assert a[j - 1] == NodeId(base + 1 + (j - 1));
      }
    }
  }

  lemma AcceptedIdsSnoc(order: seq<Id>, base: nat, k: nat)
    ensures order + AcceptedIds(base, k) + [NodeId(base + k)] == order + AcceptedIds(base, k + 1)
  {
  }

  lemma LoggedStatesSnoc(visited: seq<State>, cands: seq<Record>, i: nat, n: nat)
    requires i + n + 1 <= |cands|
    ensures visited + LoggedStates(cands, i, n) + [CandidateState(cands[i + n])] == visited + LoggedStates(cands, i, n + 1)
  {
  }

  /**
   * The node table after the loop of `expand_node` has handled candidates
   * `i..` with `tip` as the current `parent_node`: the tip takes the hint of
   * the candidate's evaluation; an accepted candidate becomes the tip's new
   * last child and the next tip; a rejected one ends the walk; a walk that
   * consumes every candidate marks its tip as a leaf. Candidate `j` gets the
   * id `NodeId(base + j)`.
   */
  function ChainFrom(g: Arena, tip: Id, cands: seq<Record>, evals: seq<Evaluation>, threshold: real,
                     base: nat, i: nat): Arena
    requires |evals| == |cands| && i <= |cands| && tip in g
    decreases |cands| - i
  {
    if i == |cands| then g[tip := g[tip].(isLeaf := true)]
    else if Score(evals[i]) >= threshold then
      ChainFrom(Attach(g, tip, cands[i], evals[i], NodeId(base + i)), NodeId(base + i), cands, evals, threshold, base, i + 1)
    else g[tip := g[tip].(hint := evals[i].hint)]
  }

  /** No id the counter hands out from `next` on is in the table yet. */
  ghost predicate FreshFrom(g: Arena, next: nat)
  {
    forall k :: k >= next ==> NodeId(k) !in g
  }

  /** The table one step into an accepted walk, before it moves to the new tip. */
  function Attach(g: Arena, tip: Id, r: Record, e: Evaluation, id: Id): Arena
    requires tip in g
  {
    var g1 := g[tip := g[tip].(hint := e.hint)];
    var child := AddParent(CandidateNode(r, id, Score(e)), g1[tip]);
    g1[tip := AddChild(g1[tip], id)][id := child]
  }

  /** One accepted step of the walk. */
  lemma ChainFromStep(g: Arena, tip: Id, cands: seq<Record>, evals: seq<Evaluation>,
                      threshold: real, base: nat, i: nat)
    requires |evals| == |cands| && i < |cands| && tip in g
    requires Score(evals[i]) >= threshold
    requires FreshFrom(g, base + i)
    ensures var g2 := Attach(g, tip, cands[i], evals[i], NodeId(base + i));
      && NodeId(base + i) in g2
      && FreshFrom(g2, base + i + 1)
      && ChainFrom(g, tip, cands, evals, threshold, base, i)
         == ChainFrom(g2, NodeId(base + i), cands, evals, threshold, base, i + 1)
      && AcceptedFrom(evals, threshold, i) == 1 + AcceptedFrom(evals, threshold, i + 1)
      && EvaluatedFrom(evals, threshold, i) == 1 + EvaluatedFrom(evals, threshold, i + 1)
  {
  }

  /** How a walk ends at candidate `j`: a leaf mark past the last candidate, otherwise the rejected candidate's hint. */
  function Finish(g: Arena, tip: Id, cands: seq<Record>, evals: seq<Evaluation>, j: nat): Arena
    requires |evals| == |cands| && j <= |cands| && tip in g
  {
    if j == |cands| then g[tip := g[tip].(isLeaf := true)] else g[tip := g[tip].(hint := evals[j].hint)]
  }

  /** Candidates `i..j` all clear the threshold and the walk stops at `j`. */
  ghost predicate RunTo(evals: seq<Evaluation>, threshold: real, i: nat, j: nat)
    requires i <= j <= |evals|
  {
    && (forall k :: i <= k < j ==> Score(evals[k]) >= threshold)
    && (j == |evals| || Score(evals[j]) < threshold)
  }

  /** Entry `j + 1` is entry `j` with candidate `j` attached below its tip, which is the next tip. */
  ghost predicate Linked(tables: seq<Arena>, tips: seq<Id>, cands: seq<Record>, evals: seq<Evaluation>, base: nat, j: nat)
    requires |evals| == |cands| && j < |cands| && |tables| == |tips| == |cands| + 1 && tips[j] in tables[j]
  {
    tables[j + 1] == Attach(tables[j], tips[j], cands[j], evals[j], NodeId(base + j)) && tips[j + 1] == NodeId(base + j)
  }

  /**
   * The tables and tips the walk from candidate `i` passes through: entry
   * `j` is the table after candidates `i..j` were attached one below the
   * other, and finishing the walk at any `j` it stops at gives the walk.
   */
  lemma {:induction false} WalkTables(g: Arena, tip: Id, cands: seq<Record>, evals: seq<Evaluation>,
                                      threshold: real, base: nat, i: nat)
    returns (tables: seq<Arena>, tips: seq<Id>)
    requires |evals| == |cands| && i <= |cands| && tip in g
    ensures |tables| == |cands| + 1 && |tips| == |cands| + 1
    ensures tables[i] == g && tips[i] == tip
    ensures forall j :: i <= j <= |cands| ==> tips[j] in tables[j]
    ensures forall j :: i <= j < |cands| ==> Linked(tables, tips, cands, evals, base, j)
    ensures forall j {:trigger Finish(tables[j], tips[j], cands, evals, j)} :: i <= j <= |cands| && RunTo(evals, threshold, i, j) ==>
      Finish(tables[j], tips[j], cands, evals, j) == ChainFrom(g, tip, cands, evals, threshold, base, i)
    decreases |cands| - i
  {
    if i == |cands| {
      tables, tips := seq(|cands| + 1, _ => g), seq(|cands| + 1, _ => tip);
    } else {
      var g2 := Attach(g, tip, cands[i], evals[i], NodeId(base + i));
      var t, p := WalkTables(g2, NodeId(base + i), cands, evals, threshold, base, i + 1);
      tables, tips := t[i := g], p[i := tip];
      forall j | i <= j < |cands|
        ensures Linked(tables, tips, cands, evals, base, j)
      {
        if j > i {
          assert Linked(t, p, cands, evals, base, j);
        }
      }
      forall j | i <= j <= |cands| && RunTo(evals, threshold, i, j)
        ensures Finish(tables[j], tips[j], cands, evals, j) == ChainFrom(g, tip, cands, evals, threshold, base, i)
      {
        if j > i {
          assert RunTo(evals, threshold, i + 1, j);
        }
      }
    }
  }

  /** The walk adds exactly the ids of the accepted candidates. */
  lemma {:induction false} ChainFromKeys(g: Arena, tip: Id, cands: seq<Record>, evals: seq<Evaluation>,
                                         threshold: real, base: nat, i: nat)
    requires |evals| == |cands| && i <= |cands| && tip in g
    requires FreshFrom(g, base + i)
    ensures var r, k := ChainFrom(g, tip, cands, evals, threshold, base, i), AcceptedFrom(evals, threshold, i);
      forall id :: id in r <==> id in g || id in AcceptedIds(base + i, k)
    decreases |cands| - i
  {
    if i < |cands| && Score(evals[i]) >= threshold {
      ChainFromStep(g, tip, cands, evals, threshold, base, i);
      var g2 := Attach(g, tip, cands[i], evals[i], NodeId(base + i));
      ChainFromKeys(g2, NodeId(base + i), cands, evals, threshold, base, i + 1);
      AcceptedIdsHead(base + i, AcceptedFrom(evals, threshold, i + 1));
    }
  }

  /** The walk keeps the table a gated tree and only extends it. */
  lemma {:induction false} ChainFromKeepsTree(g: Arena, root: Id, tip: Id, cands: seq<Record>, evals: seq<Evaluation>,
                                              threshold: real, base: nat, i: nat)
    requires |evals| == |cands| && i <= |cands| && tip in g
    requires TreeValid(g, root) && Gated(g, root, threshold) && FreshFrom(g, base + i)
    ensures var r := ChainFrom(g, tip, cands, evals, threshold, base, i);
      TreeValid(r, root) && Gated(r, root, threshold) && Extends(g, r)
    decreases |cands| - i
  {
    if i == |cands| {
      RelabelPreservesTree(g, root, threshold, tip, g[tip].(isLeaf := true));
    } else if Score(evals[i]) < threshold {
      RelabelPreservesTree(g, root, threshold, tip, g[tip].(hint := evals[i].hint));
    } else {
      var c := NodeId(base + i);
      ChainFromStep(g, tip, cands, evals, threshold, base, i);
      AttachPreservesTree(g, root, threshold, tip, cands[i], evals[i], c);
      var g2 := Attach(g, tip, cands[i], evals[i], c);
      ChainFromKeepsTree(g2, root, c, cands, evals, threshold, base, i + 1);
      ExtendsTransitive(g, g2, ChainFrom(g, tip, cands, evals, threshold, base, i));
    }
  }

  /** The walk keeps every node listed among its parent's children. */
  lemma {:induction false} ChainFromKeepsListed(g: Arena, root: Id, tip: Id, cands: seq<Record>, evals: seq<Evaluation>,
                                                threshold: real, base: nat, i: nat)
    requires |evals| == |cands| && i <= |cands| && tip in g
    requires TreeValid(g, root) && Gated(g, root, threshold) && ListedByParent(g) && FreshFrom(g, base + i)
    ensures ListedByParent(ChainFrom(g, tip, cands, evals, threshold, base, i))
    decreases |cands| - i
  {
    if i == |cands| {
      RelabelKeepsListed(g, tip, g[tip].(isLeaf := true));
    } else if Score(evals[i]) < threshold {
      RelabelKeepsListed(g, tip, g[tip].(hint := evals[i].hint));
    } else {
      var c := NodeId(base + i);
      ChainFromStep(g, tip, cands, evals, threshold, base, i);
      AttachPreservesTree(g, root, threshold, tip, cands[i], evals[i], c);
      var g1 := g[tip := g[tip].(hint := evals[i].hint)];
      RelabelKeepsListed(g, tip, g1[tip]);
      RelabelPreservesTree(g, root, threshold, tip, g1[tip]);
      var child := AddParent(CandidateNode(cands[i], c, Score(evals[i])), g1[tip]);
      AddLeafKeepsListed(g1, root, tip, child);
      var g2 := Attach(g, tip, cands[i], evals[i], c);
      assert g2 == AddLeaf(g1, tip, child);
      ChainFromKeepsListed(g2, root, c, cands, evals, threshold, base, i + 1);
    }
  }

  /** Every node the walk found, other than the tip, is left as it was. */
  lemma {:induction false} ChainFromFrame(g: Arena, tip: Id, cands: seq<Record>, evals: seq<Evaluation>,
                                          threshold: real, base: nat, i: nat)
    requires |evals| == |cands| && i <= |cands| && tip in g
    requires FreshFrom(g, base + i)
    ensures var r := ChainFrom(g, tip, cands, evals, threshold, base, i);
      forall id :: id in g && id != tip ==> id in r && r[id] == g[id]
    decreases |cands| - i
  {
    if i < |cands| && Score(evals[i]) >= threshold {
      ChainFromStep(g, tip, cands, evals, threshold, base, i);
      var g2 := Attach(g, tip, cands[i], evals[i], NodeId(base + i));
      ChainFromFrame(g2, NodeId(base + i), cands, evals, threshold, base, i + 1);
    }
  }

  /**
   * The tip changes only in its hint (the first evaluation's), its children
   * (the first candidate appended when accepted) and its leaf flag (set when
   * there was nothing left to walk).
   */
  lemma {:induction false} ChainFromTip(g: Arena, tip: Id, cands: seq<Record>, evals: seq<Evaluation>,
                                        threshold: real, base: nat, i: nat)
    requires |evals| == |cands| && i <= |cands| && tip in g
    requires FreshFrom(g, base + i)
    ensures var r, k := ChainFrom(g, tip, cands, evals, threshold, base, i), AcceptedFrom(evals, threshold, i);
      && tip in r
      && r[tip] == g[tip].(hint := if i < |cands| then evals[i].hint else g[tip].hint,
                           children := if k > 0 then g[tip].children + [NodeId(base + i)] else g[tip].children,
                           isLeaf := if i == |cands| then true else g[tip].isLeaf)
  {
    if i < |cands| && Score(evals[i]) >= threshold {
      ChainFromStep(g, tip, cands, evals, threshold, base, i);
      var g2 := Attach(g, tip, cands[i], evals[i], NodeId(base + i));
      ChainFromFrame(g2, NodeId(base + i), cands, evals, threshold, base, i + 1);
    }
  }

  /**
   * Node `NodeId(n)` of `r` is candidate `n - base` as a walk that starts
   * at candidate `i` below `tip` and accepts `k` candidates attaches it:
   * below `tip` when it is the first of the chain and below `NodeId(n - 1)`
   * otherwise, at depth `depth0 + (n - base - i) + 1`, with its evaluation's
   * score; it carries the hint of the next evaluation, the next node of the
   * chain as its only child, and is a leaf exactly when it is the last
   * candidate of all.
   */
  ghost predicate ChainLink(r: Arena, tip: Id, depth0: nat, cands: seq<Record>, evals: seq<Evaluation>,
                            base: nat, i: nat, k: nat, n: nat)
    requires |evals| == |cands| && base + i <= n < base + |cands|
  {
    && NodeId(n) in r
    && r[NodeId(n)] == CandidateNode(cands[n - base], NodeId(n), Score(evals[n - base])).(
         parent := Some(if n == base + i then tip else NodeId(n - 1)),
         depth := depth0 + (n - base - i) + 1,
         children := if n + 1 < base + i + k then [NodeId(n + 1)] else [],
         hint := if n + 1 - base < |cands| then evals[n + 1 - base].hint else "",
         isLeaf := n + 1 - base == |cands|)
  }

  /** The accepted candidates form one chain below the tip, each as `ChainLink` describes. */
  lemma {:induction false} ChainFromNodes(g: Arena, tip: Id, cands: seq<Record>, evals: seq<Evaluation>,
                                          threshold: real, base: nat, i: nat)
    requires |evals| == |cands| && i <= |cands| && tip in g
    requires g[tip].id == tip && FreshFrom(g, base + i)
    ensures var r, k := ChainFrom(g, tip, cands, evals, threshold, base, i), AcceptedFrom(evals, threshold, i);
      forall n :: base + i <= n < base + i + k ==> ChainLink(r, tip, g[tip].depth, cands, evals, base, i, k, n)
    decreases |cands| - i
  {
    if i < |cands| && Score(evals[i]) >= threshold {
      ChainFromStep(g, tip, cands, evals, threshold, base, i);
      var g2 := Attach(g, tip, cands[i], evals[i], NodeId(base + i));
      var c := NodeId(base + i);
      var r := ChainFrom(g, tip, cands, evals, threshold, base, i);
      var k := AcceptedFrom(evals, threshold, i);
      assert g2[c] == CandidateNode(cands[i], c, Score(evals[i])).(parent := Some(tip), depth := g[tip].depth + 1);
      ChainFromTip(g2, c, cands, evals, threshold, base, i + 1);
      ChainFromNodes(g2, c, cands, evals, threshold, base, i + 1);
      var r2, k2 := ChainFrom(g2, c, cands, evals, threshold, base, i + 1), AcceptedFrom(evals, threshold, i + 1);
      assert r2 == r && k2 == k - 1;
      assert r[c] == g2[c].(hint := if i + 1 < |cands| then evals[i + 1].hint else g2[c].hint,
                            children := if k2 > 0 then g2[c].children + [NodeId(base + i + 1)] else g2[c].children,
                            isLeaf := if i + 1 == |cands| then true else g2[c].isLeaf);
      ChainLinksGrow(r, tip, c, g[tip].depth, g2[c].depth, cands, evals, base, i, i + 1, k, k2);
    }
  }

  /**
   * The links of the chain that starts one candidate later, below the first
   * node of the chain, together with that node, are the links of the whole
   * chain.
   */
  lemma ChainLinksGrow(r: Arena, tip: Id, c: Id, depth0: nat, depth1: nat, cands: seq<Record>, evals: seq<Evaluation>,
                       base: nat, i: nat, i1: nat, k: nat, k1: nat)
    requires |evals| == |cands| && i < |cands| && 0 < k && i + k <= |cands|
    requires c == NodeId(base + i) && depth1 == depth0 + 1 && i1 == i + 1 && k1 == k - 1
    requires c in r
    requires r[c] == CandidateNode(cands[i], c, Score(evals[i])).(
      parent := Some(tip), depth := depth1,
      hint := if i1 < |cands| then evals[i1].hint else "",
      children := if k1 > 0 then [NodeId(base + i1)] else [],
      isLeaf := i1 == |cands|)
    requires forall n :: base + i1 <= n < base + i + k ==> ChainLink(r, c, depth1, cands, evals, base, i1, k1, n)
    ensures forall n :: base + i <= n < base + i + k ==> ChainLink(r, tip, depth0, cands, evals, base, i, k, n)
  {
    forall n | base + i <= n < base + i + k
      ensures ChainLink(r, tip, depth0, cands, evals, base, i, k, n)
    {
      if n > base + i {
        ChainLinkShift(r, tip, depth0, cands, evals, base, i, k, n);
      } else {
        ChainLinkHead(r, tip, depth0, cands, evals, base, i, k);
      }
    }
  }

  /** A link of the chain that starts one candidate later is a link of the whole chain. */
  lemma ChainLinkShift(r: Arena, tip: Id, depth0: nat, cands: seq<Record>, evals: seq<Evaluation>,
                       base: nat, i: nat, k: nat, n: nat)
    requires |evals| == |cands| && base + i < n < base + |cands| && k > 0
    requires ChainLink(r, NodeId(base + i), depth0 + 1, cands, evals, base, i + 1, k - 1, n)
    ensures ChainLink(r, tip, depth0, cands, evals, base, i, k, n)
  {
  }

  /** The first node of the chain, as the walk one candidate later leaves it, is its first link. */
  lemma ChainLinkHead(r: Arena, tip: Id, depth0: nat, cands: seq<Record>, evals: seq<Evaluation>,
                      base: nat, i: nat, k: nat)
    requires |evals| == |cands| && i < |cands| && k > 0
    requires var c := NodeId(base + i);
      && c in r
      && r[c] == CandidateNode(cands[i], c, Score(evals[i])).(
           parent := Some(tip), depth := depth0 + 1,
           hint := if i + 1 < |cands| then evals[i + 1].hint else "",
           children := if k > 1 then [NodeId(base + i + 1)] else [],
           isLeaf := i + 1 == |cands|)
    ensures ChainLink(r, tip, depth0, cands, evals, base, i, k, base + i)
  {
  }

  /**
   * Attaching a candidate that cleared the gate, under a fresh id, keeps the
   * table a gated tree that extends the old one.
   */
  lemma AttachPreservesTree(g: Arena, root: Id, threshold: real, tip: Id, r: Record, e: Evaluation, id: Id)
    requires TreeValid(g, root) && Gated(g, root, threshold) && tip in g && id !in g
    requires Score(e) >= threshold
    ensures var g2 := Attach(g, tip, r, e, id);
      TreeValid(g2, root) && Gated(g2, root, threshold) && Extends(g, g2)
  {
    var g1 := g[tip := g[tip].(hint := e.hint)];
    RelabelPreservesTree(g, root, threshold, tip, g1[tip]);
    var child := AddParent(CandidateNode(r, id, Score(e)), g1[tip]);
    var g2 := Attach(g, tip, r, e, id);
    AddLeafPreservesTree(g1, root, threshold, tip, child);
    assert g2 == AddLeaf(g1, tip, child);
  }
  /**
   * Neither step of the walk, the hint a rejected candidate leaves on the
   * tip nor the attachment of an accepted one, changes the reasoning path of
   * a node already in the table: the loop of `expand_node`, which renders
   * the path of the expanded node once per candidate, renders the same text
   * each time.
   */
  lemma StepKeepsReasoningPath(g: Arena, root: Id, threshold: real, tip: Id, r: Record, e: Evaluation, id: Id,
                               nid: Id, priorKnowledge: string)
    requires TreeValid(g, root) && Gated(g, root, threshold) && tip in g && id !in g && nid in g
    ensures var g1 := g[tip := g[tip].(hint := e.hint)];
      TreeValid(g1, root) && ReasoningPath(g1, root, nid, priorKnowledge) == ReasoningPath(g, root, nid, priorKnowledge)
    ensures Score(e) >= threshold ==>
      var g2 := Attach(g, tip, r, e, id);
      TreeValid(g2, root) && ReasoningPath(g2, root, nid, priorKnowledge) == ReasoningPath(g, root, nid, priorKnowledge)
  {
    var g1 := g[tip := g[tip].(hint := e.hint)];
    RelabelPreservesTree(g, root, threshold, tip, g1[tip]);
    ReasoningPathStable(g, g1, root, nid, priorKnowledge);
    if Score(e) >= threshold {
      var g2 := Attach(g, tip, r, e, id);
      AttachPreservesTree(g, root, threshold, tip, r, e, id);
      ReasoningPathStable(g, g2, root, nid, priorKnowledge);
    }
  }

}
