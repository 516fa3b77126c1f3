/**
 * One reasoning step of the tree (Graph/node.py). A node is a value kept in
 * the scheduler's node table: its parent and its children are node ids, not
 * references, so `add_parent` and `add_child` return the updated record that
 * the table then stores under the node's id.
 */
module Nodes {
  import opened Text

  datatype Option<T> = None | Some(value: T)

  /**
   * A node id: the string `'node_' + N` for the counter value N it was made
   * from, kept as that value. `IdText` gives the string; it is injective, so
   * comparing ids is comparing their strings.
   */
  datatype Id = NodeId(serial: nat)

  /** The id as the string the source builds. */
  function IdText(id: Id): (s: string)
    ensures |s| > 5 && s[..5] == "node_"
  {
    "node_" + NatToString(id.serial)
  }

  /** Two ids with the same string are the same id: ids are never reused. */
  lemma IdTextInjective(a: Id, b: Id)
    requires IdText(a) == IdText(b)
    ensures a == b
  {
    assert NatToString(a.serial) == IdText(a)[5..];
    assert NatToString(b.serial) == IdText(b)[5..];
    NatToStringInjective(a.serial, b.serial);
  }

  /**
   * Ids compare as strings, so the counter's order is not the id order:
   * `'node_10'` sorts before `'node_2'`.
   */
  lemma IdOrderIsNotCreationOrder()
    ensures LexLess(IdText(NodeId(10)), IdText(NodeId(2)))
  {
    assert NatToString(1) == "1";
    assert NatToString(10) == "1" + "0";
    assert NatToString(2) == "2";
    assert IdText(NodeId(10)) == "node_10";
    assert IdText(NodeId(2)) == "node_2";
    assert "node_10"[5..] == "10" && "node_2"[5..] == "2";
    assert LexLess("10", "2");
  }

  /**
   * A node. `thought`, `action` and `result` are None where the source
   * leaves the keyword argument at its None default; `score` is None on the
   * root, which is never evaluated.
   */
  datatype Node = Node(
    id: Id,
    thought: Option<string>,
    action: Option<string>,
    result: Option<string>,
    score: Option<real>,
    hint: string,
    parent: Option<Id>,
    children: seq<Id>,
    depth: nat,
    isLeaf: bool)

  /** The process-wide counter `_next_id_counter`, as an object the scheduler is given. */
  class IdCounter {
    var next: nat

    /** The counter as the class defines it before any node exists. */
    constructor ()
      ensures next == 1
    {
      next := 1;
    }

    /** `_next_id`: hand out the current value as an id and advance. */
    method NextId() returns (id: Id)
      modifies this
      ensures id == NodeId(old(next))
      ensures next == old(next) + 1
    {
      id := NodeId(next);
      next := next + 1;
    }
  }

  /**
   * The constructor `Node(node_id, thought, action, result, score, hint)`:
   * an explicit id is used as given and leaves the counter alone; otherwise
   * the node takes the counter's next id.
   */
  method NewNode(counter: IdCounter, nodeId: Option<Id>, thought: Option<string>, action: Option<string>,
                 result: Option<string>, score: Option<real>, hint: string) returns (n: Node)
    modifies counter
    ensures nodeId.Some? ==> n.id == nodeId.value && counter.next == old(counter.next)
    ensures nodeId.None? ==> n.id == NodeId(old(counter.next)) && counter.next == old(counter.next) + 1
    ensures n.thought == thought && n.action == action && n.result == result
    ensures n.score == score && n.hint == hint
    ensures n.parent == None && n.children == [] && n.depth == 0 && !n.isLeaf
  {
    var id: Id;
    if nodeId.Some? {
      id := nodeId.value;
    } else {
      id := counter.NextId();
    }
    n := Node(id, thought, action, result, score, hint, None, [], 0, false);
  }

  /** `add_parent`: link to the parent and take its depth plus one; nothing else changes. */
  function AddParent(n: Node, p: Node): (r: Node)
    ensures r.parent == Some(p.id) && r.depth == p.depth + 1
  {
    n.(parent := Some(p.id), depth := p.depth + 1)
  }

  /** `add_parent` changes nothing but the parent link and the depth. */
  lemma AddParentFrame(n: Node, p: Node)
    ensures AddParent(n, p).(parent := n.parent, depth := n.depth) == n
  {
  }

  /** `add_child`: append at the end, earlier children keep their places; nothing else changes. */
  function AddChild(n: Node, c: Id): (r: Node)
    ensures |r.children| == |n.children| + 1 && r.children[|n.children|] == c
  {
    n.(children := n.children + [c])
  }

  /** `add_child` keeps the earlier children in their places and changes nothing else. */
  lemma AddChildFrame(n: Node, c: Id)
    ensures AddChild(n, c).children[..|n.children|] == n.children
    ensures AddChild(n, c).(children := n.children) == n
  {
  }

  /** What `as_dict` and a rendered path step carry: a node's content, or the root's prior knowledge. */
  datatype State = Initial(priorKnowledge: string) | Step(thought: Option<string>, action: Option<string>, result: Option<string>)

  /** The content of a node, in the shape `as_dict` produces. */
  function AsState(n: Node): State
  {
    Step(n.thought, n.action, n.result)
  }

  /** The dictionary a state stands for: `{'Initial State': pk}` or the three keys of `as_dict`. */
  function ToDict(s: State): (d: map<string, Option<string>>)
    ensures s.Initial? ==> d.Keys == {"Initial State"} && d["Initial State"] == Some(s.priorKnowledge)
    ensures s.Step? ==> d.Keys == {"Thought", "Action", "Result"}
    ensures s.Step? ==> d["Thought"] == s.thought && d["Action"] == s.action && d["Result"] == s.result
  {
    match s
    case Initial(pk) => map["Initial State" := Some(pk)]
    case Step(t, a, r) => map["Thought" := t, "Action" := a, "Result" := r]
  }

  /** `as_dict`: exactly the keys Thought, Action and Result, holding the node's fields. */
  function AsDict(n: Node): (d: map<string, Option<string>>)
    ensures d.Keys == {"Thought", "Action", "Result"}
    ensures d["Thought"] == n.thought && d["Action"] == n.action && d["Result"] == n.result
  {
    ToDict(AsState(n))
  }

  /** Comparing dictionaries (as the source does through `frozenset(d.items())`) is comparing states. */
  lemma ToDictInjective(a: State, b: State)
    requires ToDict(a) == ToDict(b)
    ensures a == b
  {
    var da, db := ToDict(a), ToDict(b);
    if a.Initial? {
      assert "Initial State" in db;
      assert da["Initial State"] == db["Initial State"];
    } else {
      assert "Thought" in db;
      assert da["Thought"] == db["Thought"] && da["Action"] == db["Action"] && da["Result"] == db["Result"];
    }
  }

  /** How Python's f-string renders an optional text: `None` for None. */
  function Render(o: Option<string>): string
  {
    match o
    case None => "None"
    case Some(s) => s
  }

  /**
   * `as_string`: `Thought: ...`, `Action: ...` and `Result: ...` on three
   * lines, so the text opens with the thought label and closes with the
   * rendered result.
   */
  function AsString(n: Node): (s: string)
    ensures |s| >= 9 && s[..9] == "Thought: "
    ensures |Render(n.result)| <= |s| && s[|s| - |Render(n.result)|..] == Render(n.result)
  {
    var head := "Thought: " + Render(n.thought) + "\nAction: " + Render(n.action) + "\nResult: ";
    assert (head + Render(n.result))[..9] == head[..9];
    assert (head + Render(n.result))[|head| ..] == Render(n.result);
    head + Render(n.result)
  }
}
