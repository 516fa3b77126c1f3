/**
 * The node table `graph_dict` of Graph/graph_manager.py as an arena: a map
 * from node id to node record, with parent and children stored as ids. This
 * module holds the tree invariant and the two parent-chain walks,
 * `create_solution_path` and `create_reasoning_path`, with the rendering of
 * the reasoning path and of the observation log shown to the generator.
 */
module Tree {
  import opened Text
  import opened Nodes

  type Arena = map<Id, Node>

  /**
   * The table is a tree rooted at `root`: every node is stored under its own
   * id, only the root lacks a parent, depth is parent depth plus one, and a
   * listed child points back to the node listing it.
   */
  ghost predicate TreeValid(g: Arena, root: Id)
  {
    && root in g
    && g[root].depth == 0
    && (forall id {:trigger g[id].id} :: id in g ==> g[id].id == id)
    && (forall id {:trigger g[id].parent} :: id in g ==> (g[id].parent.None? <==> id == root))
    && (forall id {:trigger g[id].parent} :: id in g && g[id].parent.Some? ==>
          g[id].parent.value in g && g[id].depth == g[g[id].parent.value].depth + 1)
    && (forall id, i :: id in g && 0 <= i < |g[id].children| ==>
          g[id].children[i] in g && g[g[id].children[i]].parent == Some(id))
  }

  /**
   * Each node is listed among its parent's children: `add_child` runs with
   * every `add_parent`. Kept apart from `TreeValid`; the lemmas below show
   * that the table operations keep it.
   */
  ghost predicate ListedByParent(g: Arena)
  {
    forall id {:trigger g[id].parent} :: id in g && g[id].parent.Some? && g[id].parent.value in g ==>
      id in g[g[id].parent.value].children
  }

  /** Every node but the root was attached through the gate: it has a score of at least `threshold`. */
  ghost predicate Gated(g: Arena, root: Id, threshold: real)
  {
    forall id {:trigger g[id].score} :: id in g && id != root ==> g[id].score.Some? && g[id].score.value >= threshold
  }

  /** `create_solution_path`: the nodes from the root down to `id`. */
  function SolutionPath(g: Arena, root: Id, id: Id): (path: seq<Node>)
    requires TreeValid(g, root) && id in g
    ensures |path| == g[id].depth + 1
    ensures path[0] == g[root] && path[|path| - 1] == g[id]
    ensures forall i :: 0 <= i < |path| ==> path[i].id in g && g[path[i].id] == path[i]
    ensures forall i :: 0 <= i < |path| - 1 ==> path[i + 1].parent == Some(path[i].id)
    decreases g[id].depth
  {
    match g[id].parent
    case None => [g[id]]
    case Some(p) => SolutionPath(g, root, p) + [g[id]]
  }

  /** A path of length one is the root alone. */
  lemma SolutionPathOfRootOnly(g: Arena, root: Id, id: Id)
    requires TreeValid(g, root) && id in g
    ensures (|SolutionPath(g, root, id)| == 1) == (id == root)
  {
  }

  /** The entry a node contributes to the reasoning path: the root shows the prior knowledge instead of its fields. */
  function StateOf(n: Node, priorKnowledge: string): State
  {
    if n.parent.None? then Initial(priorKnowledge) else AsState(n)
  }

  /** The third result of `create_reasoning_path`: the states from `id` up to the root. */
  function ReasoningPath(g: Arena, root: Id, id: Id, priorKnowledge: string): (path: seq<State>)
    requires TreeValid(g, root) && id in g
    ensures |path| == g[id].depth + 1
    ensures path[|path| - 1] == Initial(priorKnowledge)
    ensures forall i :: 0 <= i < |path| - 1 ==> path[i].Step?
    decreases g[id].depth
  {
    match g[id].parent
    case None => [Initial(priorKnowledge)]
    case Some(p) => [AsState(g[id])] + ReasoningPath(g, root, p, priorKnowledge)
  }

  /** The reasoning path is the solution path read backwards, node by node. */
  lemma {:induction false} ReasoningPathReversesSolutionPath(g: Arena, root: Id, id: Id, priorKnowledge: string)
    requires TreeValid(g, root) && id in g
    ensures var r, s := ReasoningPath(g, root, id, priorKnowledge), SolutionPath(g, root, id);
      |r| == |s| && forall i :: 0 <= i < |r| ==> r[i] == StateOf(s[|s| - 1 - i], priorKnowledge)
    decreases g[id].depth
  {
    match g[id].parent
    case None =>
    case Some(p) =>
      ReasoningPathReversesSolutionPath(g, root, p, priorKnowledge);
      ReversedCons(ReasoningPath(g, root, p, priorKnowledge), SolutionPath(g, root, p), g[id], priorKnowledge);
  }

  /** Putting a node's state in front of one path and the node behind the other keeps them reverses of each other. */
  lemma ReversedCons(r: seq<State>, s: seq<Node>, n: Node, priorKnowledge: string)
    requires n.parent.Some? && |r| == |s|
    requires forall i :: 0 <= i < |r| ==> r[i] == StateOf(s[|s| - 1 - i], priorKnowledge)
    ensures var r', s' := [AsState(n)] + r, s + [n];
      |r'| == |s'| && forall i :: 0 <= i < |r'| ==> r'[i] == StateOf(s'[|s'| - 1 - i], priorKnowledge)
  {
    var r', s' := [AsState(n)] + r, s + [n];
    forall i | 0 <= i < |r'| ensures r'[i] == StateOf(s'[|s'| - 1 - i], priorKnowledge) {
      if i > 0 {
        assert r'[i] == r[i - 1];
        assert s'[|s'| - 1 - i] == s[|s| - 1 - (i - 1)];
      }
    }
  }

  /** `' '.join(f'{k}: {v}' ...)` over a state's keys, in their insertion order. */
  function StateText(s: State): string
  {
    match s
    case Initial(pk) => "Initial State: " + pk
    case Step(t, a, r) => "Thought: " + Render(t) + " Action: " + Render(a) + " Result: " + Render(r)
  }

  function StepText(number: nat, s: State): string
  {
    "Step " + NatToString(number) + ":\n" + StateText(s)
  }

  /** The first result of `create_reasoning_path`: numbered steps from the root down. */
  function RenderPath(path: seq<State>): string
  {
    Join("\n", seq(|path|, i requires 0 <= i < |path| => StepText(i + 1, path[|path| - 1 - i])))
  }

  /** The rendered path opens with the Initial State step, carrying the prior knowledge. */
  lemma RenderedPathStartsWithInitialState(g: Arena, root: Id, id: Id, priorKnowledge: string)
    requires TreeValid(g, root) && id in g
    ensures var text := RenderPath(ReasoningPath(g, root, id, priorKnowledge));
      var head := "Step 1:\nInitial State: " + priorKnowledge;
      |head| <= |text| && text[..|head|] == head
  {
    var path := ReasoningPath(g, root, id, priorKnowledge);
    var lines := seq(|path|, i requires 0 <= i < |path| => StepText(i + 1, path[|path| - 1 - i]));
    assert lines[0] == StepText(1, Initial(priorKnowledge));
    FirstStepText(priorKnowledge);
    JoinStartsWithFirst("\n", lines);
  }

  lemma FirstStepText(priorKnowledge: string)
    ensures StepText(1, Initial(priorKnowledge)) == "Step 1:\nInitial State: " + priorKnowledge
  {
    assert NatToString(1) == "1";
    assert "Step " + "1" + ":\n" == "Step 1:\n";
    assert "Step 1:\n" + "Initial State: " == "Step 1:\nInitial State: ";
    assert StepText(1, Initial(priorKnowledge)) == "Step 1:\n" + "Initial State: " + priorKnowledge;
  }

  /** A node with no children exists in every valid table: a deepest node has none. */
  lemma ExistsChildless(g: Arena, root: Id)
    requires TreeValid(g, root)
    ensures exists id :: id in g && g[id].children == []
  {
    var deepest := Deepest(g, g.Keys);
    if g[deepest].children != [] {
      HasDeeper(g, root, deepest);
      assert false;
    }
  }

  /** A node with a child is not a deepest node. */
  lemma HasDeeper(g: Arena, root: Id, id: Id)
    requires TreeValid(g, root) && id in g && g[id].children != []
    ensures exists c :: c in g && g[c].depth > g[id].depth
  {
    var c := g[id].children[0];
    assert c in g && g[c].parent == Some(id);
  }

  /** A node of greatest depth among `ids`. */
  ghost function Deepest(g: Arena, ids: set<Id>): (d: Id)
    requires ids != {} && ids <= g.Keys
    ensures d in ids && forall id :: id in ids ==> g[id].depth <= g[d].depth
    decreases ids
  {
    var x :| x in ids;
    if ids == {x} then x
    else
      var e := Deepest(g, ids - {x});
      if g[x].depth >= g[e].depth then x else e
  }

  /**
   * `g` grows `g0`: every node of `g0` is still there with the same parent,
   * the same content and score, and at least as many children. Hints and
   * leaf flags may differ.
   */
  ghost predicate Extends(g0: Arena, g: Arena)
  {
    && (forall id :: id in g0 ==> id in g)
    && forall id {:trigger g0[id].parent} :: id in g0 ==>
      && id in g
      && g[id].parent == g0[id].parent
      && g[id].score == g0[id].score
      && AsState(g[id]) == AsState(g0[id])
      && |g0[id].children| <= |g[id].children|
  }

  lemma ExtendsTransitive(g0: Arena, g1: Arena, g2: Arena)
    requires Extends(g0, g1) && Extends(g1, g2)
    ensures Extends(g0, g2)
  {
    forall id | id in g0 ensures g1[id].parent == g0[id].parent {
    }
  }

  /** Growing the table does not change the reasoning path of a node it already had. */
  lemma {:induction false} ReasoningPathStable(g0: Arena, g: Arena, root: Id, id: Id, priorKnowledge: string)
    requires TreeValid(g0, root) && TreeValid(g, root) && Extends(g0, g) && id in g0
    ensures ReasoningPath(g, root, id, priorKnowledge) == ReasoningPath(g0, root, id, priorKnowledge)
    decreases g0[id].depth
  {
    match g0[id].parent
    case None =>
    case Some(p) =>
      ReasoningPathStable(g0, g, root, p, priorKnowledge);
  }

  /** Growing the table keeps a node's solution path node for node in id, score and content. */
  lemma {:induction false} SolutionPathStable(g0: Arena, g: Arena, root: Id, id: Id)
    requires TreeValid(g0, root) && TreeValid(g, root) && Extends(g0, g) && id in g0
    ensures var p0, p := SolutionPath(g0, root, id), SolutionPath(g, root, id);
      && |p| == |p0|
      && forall i :: 0 <= i < |p| ==> p[i].id == p0[i].id && p[i].score == p0[i].score && AsState(p[i]) == AsState(p0[i])
    decreases g0[id].depth
  {
    match g0[id].parent
    case None =>
    case Some(par) =>
      SolutionPathStable(g0, g, root, par);
      var p0, p := SolutionPath(g0, root, id), SolutionPath(g, root, id);
      var q0, q := SolutionPath(g0, root, par), SolutionPath(g, root, par);
      assert p0 == q0 + [g0[id]] && p == q + [g[id]];
      forall i | 0 <= i < |p| ensures p[i].id == p0[i].id && p[i].score == p0[i].score && AsState(p[i]) == AsState(p0[i]) {
        if i < |q| {
          assert p[i] == q[i] && p0[i] == q0[i];
        }
      }
  }

  /** Changing only a node's hint and leaf flag keeps the table a gated tree that extends the old one. */
  lemma RelabelPreservesTree(g: Arena, root: Id, threshold: real, id: Id, n: Node)
    requires TreeValid(g, root) && Gated(g, root, threshold) && id in g
    requires n == g[id].(hint := n.hint, isLeaf := n.isLeaf)
    ensures TreeValid(g[id := n], root) && Gated(g[id := n], root, threshold) && Extends(g, g[id := n])
  {
  }

  /** Changing a node's hint or leaf flag keeps every node listed by its parent. */
  lemma RelabelKeepsListed(g: Arena, id: Id, n: Node)
    requires ListedByParent(g) && id in g
    requires n == g[id].(hint := n.hint, isLeaf := n.isLeaf)
    ensures ListedByParent(g[id := n])
  {
    var g' := g[id := n];
    forall x | x in g' && g'[x].parent.Some? && g'[x].parent.value in g'
      ensures x in g'[g'[x].parent.value].children
    {
      assert g'[x].parent == g[x].parent;
    }
  }

  /** `tip` with `child` hung below it, as its last child. */
  function AddLeaf(g: Arena, tip: Id, child: Node): Arena
    requires tip in g
  {
    g[tip := g[tip].(children := g[tip].children + [child.id])][child.id := child]
  }

  /**
   * Hanging a new childless node below `tip`, as its last child and one
   * level deeper, with a score that clears the gate, keeps the table a gated
   * tree that extends the old one.
   */
  lemma AddLeafPreservesTree(g: Arena, root: Id, threshold: real, tip: Id, child: Node)
    requires TreeValid(g, root) && Gated(g, root, threshold) && tip in g && child.id !in g
    requires child.parent == Some(tip) && child.depth == g[tip].depth + 1 && child.children == []
    requires child.score.Some? && child.score.value >= threshold
    ensures TreeValid(AddLeaf(g, tip, child), root)
    ensures Gated(AddLeaf(g, tip, child), root, threshold)
    ensures Extends(g, AddLeaf(g, tip, child))
  {
    AddLeafKeepsTree(g, root, tip, child);
    AddLeafKeepsGate(g, root, threshold, tip, child);
    AddLeafExtends(g, tip, child);
  }

  lemma AddLeafKeepsTree(g: Arena, root: Id, tip: Id, child: Node)
    requires TreeValid(g, root) && tip in g && child.id !in g
    requires child.parent == Some(tip) && child.depth == g[tip].depth + 1 && child.children == []
    ensures TreeValid(AddLeaf(g, tip, child), root)
  {
    var g' := AddLeaf(g, tip, child);
    forall x, i | x in g' && 0 <= i < |g'[x].children|
      ensures g'[x].children[i] in g' && g'[g'[x].children[i]].parent == Some(x)
    {
      if x == tip && i < |g[tip].children| {
        assert g'[x].children[i] == g[tip].children[i];
      }
    }
  }

  /** Hanging a new node below `tip`, as its last child, keeps every node listed by its parent. */
  lemma AddLeafKeepsListed(g: Arena, root: Id, tip: Id, child: Node)
    requires TreeValid(g, root) && ListedByParent(g) && tip in g && child.id !in g
    requires child.parent == Some(tip)
    ensures ListedByParent(AddLeaf(g, tip, child))
  {
    var g' := AddLeaf(g, tip, child);
    forall x | x in g' && g'[x].parent.Some? && g'[x].parent.value in g'
      ensures x in g'[g'[x].parent.value].children
    {
      if x == child.id {
        assert g'[tip].children[|g[tip].children|] == child.id;
      } else {
        var p := g[x].parent.value;
        assert g'[x].parent == g[x].parent && p in g && x in g[p].children;
        if p == tip {
          var k :| 0 <= k < |g[tip].children| && g[tip].children[k] == x;
          assert g'[tip].children[k] == x;
        }
      }
    }
  }

  lemma AddLeafKeepsGate(g: Arena, root: Id, threshold: real, tip: Id, child: Node)
    requires Gated(g, root, threshold) && root in g && tip in g && child.id !in g
    requires child.score.Some? && child.score.value >= threshold
    ensures Gated(AddLeaf(g, tip, child), root, threshold)
  {
  }

  lemma AddLeafExtends(g: Arena, tip: Id, child: Node)
    requires tip in g && child.id !in g
    ensures Extends(g, AddLeaf(g, tip, child))
  {
  }

  // ---------------------------------------------------------------------
  // The observation log shown to the generator

  const NoObservations: string := "There is no observations yet!"

  /** `frozen_state`: the dictionaries of the path's states. */
  function PathDicts(path: seq<State>): set<map<string, Option<string>>>
  {
    set s | s in path :: ToDict(s)
  }

  /** `filtered_list`: one line `- <Result>` per logged step whose dictionary is not on the path. */
  function ObservationLines(visited: seq<State>, frozen: set<map<string, Option<string>>>): (lines: seq<string>)
    requires forall i :: 0 <= i < |visited| ==> visited[i].Step?
    ensures forall i :: 0 <= i < |lines| ==> |lines[i]| >= 2 && lines[i][..2] == "- "
    ensures |lines| == 0 <==> forall i :: 0 <= i < |visited| ==> ToDict(visited[i]) in frozen
    decreases |visited|
  {
    if visited == [] then []
    else
      var rest := ObservationLines(visited[1..], frozen);
      assert forall i :: 1 <= i < |visited| ==> visited[i] == visited[1..][i - 1];
      if ToDict(visited[0]) in frozen then rest
      else
        var line := "- " + Render(visited[0].result) + "\n";
        assert line[..2] == "- ";
        [line] + rest
  }

  /** `visited_states_str`: the observation lines joined, or a fixed sentence when there are none. */
  function Observations(visited: seq<State>, path: seq<State>): string
    requires forall i :: 0 <= i < |visited| ==> visited[i].Step?
  {
    var lines := ObservationLines(visited, PathDicts(path));
    if lines == [] then NoObservations else Join("\n", lines)
  }

  /** The generator is told there is nothing to avoid exactly when every logged step lies on the current path. */
  lemma ObservationsEmptyIff(visited: seq<State>, path: seq<State>)
    requires forall i :: 0 <= i < |visited| ==> visited[i].Step?
    ensures (Observations(visited, path) == NoObservations) <==> forall i :: 0 <= i < |visited| ==> visited[i] in path
  {
    forall i | 0 <= i < |visited| ensures (ToDict(visited[i]) in PathDicts(path)) <==> (visited[i] in path) {
      if ToDict(visited[i]) in PathDicts(path) {
        var s :| s in path && ToDict(s) == ToDict(visited[i]);
        ToDictInjective(s, visited[i]);
      }
    }
    var lines := ObservationLines(visited, PathDicts(path));
    if lines != [] {
      JoinStartsWithFirst("\n", lines);
      var text := Join("\n", lines);
      assert text[0] == lines[0][0] == '-';
      assert NoObservations[0] == 'T';
    }
  }
}
