/**
 * `GraphManager` (Graph/graph_manager.py): the thought tree, its expansion
 * by generator and evaluator, and the priority-queue search over it.
 *
 * The node table is an arena (`Tree.Arena`); `keyOrder` is the insertion
 * order of the Python dictionary, which decides ties in `max` and the order
 * of the final sweep. The generator and evaluator are function parameters
 * over numbered requests (`Expansion.GenRequest`, `Expansion.EvalRequest`);
 * `genCalls` and `evalCalls` count the requests issued so far.
 */
module Manager {
  import opened Text
  import opened Nodes
  import opened Tree
  import opened Evaluator
  import opened Parser
  import opened Queue
  import opened Expansion

  /** An entry of `potential_solutions`: the leaf whose path was scored, and the score. */
  datatype Candidate = Candidate(leaf: Id, score: real)

  /** What `search` does with a node it pops. */
  datatype Action = ScoreLeaf | Expand | Skip

  /** The state of `search` as a pop finds it: the table, the key order, `enqueued_nodes` and the queue's contents. */
  datatype Snapshot = Snapshot(table: Arena, order: seq<Id>, enqueued: set<Id>, queue: seq<Entry>)

  /** The parts of the manager's state that `expand_node` changes, besides the generator call count. */
  datatype Growth = Growth(table: Arena, visited: seq<State>, order: seq<Id>, next: nat, evalCalls: nat)

  /**
   * A record of one pop: the state it started from, the entry `get`
   * returned, the node that entry named as it was then, and what was done
   * with it.
   */
  datatype Pop = Pop(at: Snapshot, entry: Entry, node: Node, action: Action)

  /**
   * How `solve` ends: an accepted path, the best-scoring path of the final
   * sweep, the `ZeroDivisionError` that `evaluate_path` raises on the root
   * alone, or the `ValueError` for an unknown algorithm name.
   */
  datatype Outcome =
    | Accepted(path: seq<Node>)
    | BestEffort(path: seq<Node>)
    | ZeroDivisionError
    | UnsupportedAlgorithm(name: string)

  /** A pool entry is the scored path of a non-root node of the table. */
  ghost predicate Scored(g: Arena, root: Id, c: Candidate)
    requires TreeValid(g, root)
  {
    && c.leaf in g && c.leaf != root
    && ScoredAfterRoot(SolutionPath(g, root, c.leaf))
    && c.score == PathMean(SolutionPath(g, root, c.leaf))
  }

  /** Every node below the root of a gated tree has a score, so its path can be averaged. */
  lemma GatedPathIsScored(g: Arena, root: Id, threshold: real, id: Id)
    requires TreeValid(g, root) && Gated(g, root, threshold) && id in g
    ensures ScoredAfterRoot(SolutionPath(g, root, id))
  {
    var path := SolutionPath(g, root, id);
    forall i | 1 <= i < |path| ensures path[i].score.Some? {
      assert path[i].parent == Some(path[i - 1].id);
    }
  }

  /** The mean of a path through gated nodes is at least the node threshold. */
  lemma GatedPathMeanAtLeastThreshold(g: Arena, root: Id, threshold: real, id: Id)
    requires TreeValid(g, root) && Gated(g, root, threshold) && id in g && id != root
    ensures ScoredAfterRoot(SolutionPath(g, root, id))
    ensures PathMean(SolutionPath(g, root, id)) >= threshold
  {
    GatedPathIsScored(g, root, threshold, id);
    var path := SolutionPath(g, root, id);
    SolutionPathOfRootOnly(g, root, id);
    forall i | 1 <= i < |path| ensures threshold <= path[i].score.value {
      assert path[i].parent == Some(path[i - 1].id);
    }
    PathMeanAtLeast(path, threshold);
  }

  /** A grown table keeps the score of every path it already had. */
  lemma PathMeanStable(g0: Arena, g: Arena, root: Id, threshold: real, id: Id)
    requires TreeValid(g0, root) && TreeValid(g, root) && Gated(g0, root, threshold) && Gated(g, root, threshold)
    requires Extends(g0, g) && id in g0 && id != root
    ensures ScoredAfterRoot(SolutionPath(g0, root, id)) && ScoredAfterRoot(SolutionPath(g, root, id))
    ensures PathMean(SolutionPath(g, root, id)) == PathMean(SolutionPath(g0, root, id))
  {
    GatedPathIsScored(g0, root, threshold, id);
    GatedPathIsScored(g, root, threshold, id);
    SolutionPathOfRootOnly(g0, root, id);
    SolutionPathStable(g0, g, root, id);
    assert TailScores(SolutionPath(g, root, id)) == TailScores(SolutionPath(g0, root, id));
  }

  // ---------------------------------------------------------------------
  // Choosing from the pool: `max(self.potential_solutions, key=lambda x: x[1])`

  /** `k` is where `max` stops: a greatest score, and the first one. */
  predicate IsBest(pool: seq<Candidate>, k: nat)
  {
    && k < |pool|
    && (forall j :: 0 <= j < |pool| ==> pool[j].score <= pool[k].score)
    && (forall j :: 0 <= j < k ==> pool[j].score < pool[k].score)
  }

  /** `max` with a key: the first entry of greatest score. */
  method BestIndex(pool: seq<Candidate>) returns (k: nat)
    requires |pool| > 0
    ensures IsBest(pool, k)
  {
    k := 0;
    for i := 1 to |pool|
      invariant k < i
      invariant forall j :: 0 <= j < i ==> pool[j].score <= pool[k].score
      invariant forall j :: 0 <= j < k ==> pool[j].score < pool[k].score
    {
      if pool[i].score > pool[k].score {
        k := i;
      }
    }
  }

  /** Ties never make the choice ambiguous: there is one first maximum. */
  lemma BestIsUnique(pool: seq<Candidate>, a: nat, b: nat)
    requires IsBest(pool, a) && IsBest(pool, b)
    ensures a == b
  {
    if a < b {
      FirstBestBefore(pool, a, b);
    } else if b < a {
      FirstBestBefore(pool, b, a);
    }
  }

  /** Every entry before the first maximum scores strictly less. */
  lemma FirstBestBefore(pool: seq<Candidate>, a: nat, b: nat)
    requires IsBest(pool, b) && a < b
    ensures pool[a].score < pool[b].score
  {
  }

  // ---------------------------------------------------------------------
  // The queue of `search`

  /** The queue priority of a node: `-depth` searching bottom-up, `depth` otherwise. */
  function Priority(depth: nat, downUp: bool): int
  {
    if downUp then -(depth as int) else depth
  }

  /** Bottom-up, a deeper node has the smaller priority and leaves the queue first; top-down, a shallower one. */
  lemma PriorityOrder(d1: nat, d2: nat, downUp: bool)
    ensures Priority(d1, downUp) < Priority(d2, downUp) <==> if downUp then d1 > d2 else d1 < d2
    ensures Priority(d1, downUp) == Priority(d2, downUp) <==> d1 == d2
  {
  }

  /** A queued entry pairs a node of the table with that node's priority. */
  ghost predicate QueuedFaithfully(entries: seq<Entry>, g: Arena, downUp: bool)
  {
    forall j :: 0 <= j < |entries| ==> entries[j].id in g && entries[j].priority == Priority(g[entries[j].id].depth, downUp)
  }

  /**
   * The least entry names a node of greatest depth among the queued ones when
   * searching bottom-up, and of least depth otherwise.
   */
  lemma PoppedDepth(entries: seq<Entry>, e: Entry, g: Arena, downUp: bool)
    requires QueuedFaithfully(entries, g, downUp)
    requires e.id in g && e.priority == Priority(g[e.id].depth, downUp)
    requires forall j :: 0 <= j < |entries| ==> !Less(entries[j], e)
    ensures forall j :: 0 <= j < |entries| ==>
      if downUp then g[entries[j].id].depth <= g[e.id].depth else g[e.id].depth <= g[entries[j].id].depth
  {
    forall j | 0 <= j < |entries|
      ensures if downUp then g[entries[j].id].depth <= g[e.id].depth else g[e.id].depth <= g[entries[j].id].depth
    {
      assert !Less(entries[j], e);
    }
  }

  /** The ids among the first `n` of `order` whose nodes have reached `maxWidth` children. */
  function Saturated(order: seq<Id>, g: Arena, maxWidth: int, n: nat): (s: set<Id>)
    requires n <= |order| && forall i :: 0 <= i < |order| ==> order[i] in g
  {
    if n == 0 then {}
    else Saturated(order, g, maxWidth, n - 1) + (if |g[order[n - 1]].children| >= maxWidth then {order[n - 1]} else {})
  }

  /** `Saturated` holds exactly the full nodes among the first `n` ids. */
  lemma {:induction false} SaturatedMembers(order: seq<Id>, g: Arena, maxWidth: int, n: nat)
    requires n <= |order| && forall i :: 0 <= i < |order| ==> order[i] in g
    ensures forall id :: id in Saturated(order, g, maxWidth, n) <==> id in order[..n] && |g[id].children| >= maxWidth
  {
    if n > 0 {
      SaturatedMembers(order, g, maxWidth, n - 1);
      assert order[..n] == order[..n - 1] + [order[n - 1]];
    }
  }

  /**
   * What the first `n` steps of one `enqueue_nodes` pass put on the queue:
   * an entry for each id that is not in the set as the pass reaches it, the
   * set having gained the full nodes among the earlier ids.
   */
  function Pending(order: seq<Id>, g: Arena, enqueued: set<Id>, downUp: bool, maxWidth: int, n: nat): (p: seq<Entry>)
    requires n <= |order| && forall i :: 0 <= i < |order| ==> order[i] in g
    ensures |p| <= n
  {
    if n == 0 then []
    else
      var id := order[n - 1];
      Pending(order, g, enqueued, downUp, maxWidth, n - 1)
        + (if id in enqueued + Saturated(order, g, maxWidth, n - 1) then [] else [Entry(Priority(g[id].depth, downUp), id)])
  }

  /**
   * For ids listed once each, the set grown during the pass never matters:
   * an entry is put exactly for each of the first `n` ids that was not
   * enqueued before the pass, with its node's priority.
   */
  lemma {:induction false} PendingEntries(order: seq<Id>, g: Arena, enqueued: set<Id>, downUp: bool, maxWidth: int, n: nat)
    requires n <= |order| && forall i :: 0 <= i < |order| ==> order[i] in g
    requires forall i, j :: 0 <= i < j < |order| ==> order[i] != order[j]
    ensures forall e :: e in Pending(order, g, enqueued, downUp, maxWidth, n) <==>
      e.id in order[..n] && e.id !in enqueued && e.priority == Priority(g[e.id].depth, downUp)
  {
    if n > 0 {
      PendingEntries(order, g, enqueued, downUp, maxWidth, n - 1);
      SaturatedMembers(order, g, maxWidth, n - 1);
      assert order[..n] == order[..n - 1] + [order[n - 1]];
      assert order[n - 1] !in order[..n - 1];
    }
  }

  /** Every entry of one pass names a node of the table and carries that node's priority. */
  lemma {:induction false} PendingQueued(order: seq<Id>, g: Arena, enqueued: set<Id>, downUp: bool, maxWidth: int, n: nat)
    requires n <= |order| && forall i :: 0 <= i < |order| ==> order[i] in g
    ensures QueuedFaithfully(Pending(order, g, enqueued, downUp, maxWidth, n), g, downUp)
  {
    if n > 0 {
      PendingQueued(order, g, enqueued, downUp, maxWidth, n - 1);
    }
  }

  /** Removing one entry keeps the others faithful. */
  lemma QueuedAfterGet(entries: seq<Entry>, rest: seq<Entry>, e: Entry, g: Arena, downUp: bool)
    requires QueuedFaithfully(entries, g, downUp)
    requires multiset(rest) + multiset{e} == multiset(entries)
    ensures e in entries && QueuedFaithfully(rest, g, downUp)
  {
    assert e in multiset(entries);
    forall j | 0 <= j < |rest| ensures rest[j] in entries {
      assert rest[j] in multiset(rest);
      assert rest[j] in multiset(entries);
    }
  }

  /** Entries queued faithfully one batch after another are queued faithfully. */
  lemma QueuedConcat(a: seq<Entry>, b: seq<Entry>, g: Arena, downUp: bool)
    requires QueuedFaithfully(a, g, downUp) && QueuedFaithfully(b, g, downUp)
    ensures QueuedFaithfully(a + b, g, downUp)
  {
  }

  /** A grown tree keeps every node's depth, so the queued priorities stay faithful. */
  lemma QueuedStable(entries: seq<Entry>, g0: Arena, g: Arena, root: Id, downUp: bool)
    requires TreeValid(g0, root) && TreeValid(g, root) && Extends(g0, g)
    requires QueuedFaithfully(entries, g0, downUp)
    ensures QueuedFaithfully(entries, g, downUp)
  {
    forall j | 0 <= j < |entries| ensures g[entries[j].id].depth == g0[entries[j].id].depth {
      SolutionPathStable(g0, g, root, entries[j].id);
    }
  }

  // ---------------------------------------------------------------------
  // The decisions of `search`

  /**
   * What `search` does with a popped node: score the path of a leaf; expand
   * a node that is neither too deep nor full; leave any other node alone.
   */
  function Decide(n: Node, maxExpandDepth: int, maxWidth: int): (a: Action)
    ensures a == ScoreLeaf <==> n.isLeaf
    ensures a == Expand ==> n.depth <= maxExpandDepth && |n.children| < maxWidth
  {
    if n.isLeaf then ScoreLeaf
    else if n.depth <= maxExpandDepth && |n.children| < maxWidth then Expand
    else Skip
  }

  /** The number of pops that expanded their node. */
  function Expansions(pops: seq<Pop>): (k: nat)
    ensures k <= |pops|
  {
    if pops == [] then 0 else Expansions(pops[..|pops| - 1]) + (if pops[|pops| - 1].action == Expand then 1 else 0)
  }

  lemma ExpansionsSnoc(pops: seq<Pop>, p: Pop)
    ensures Expansions(pops + [p]) == Expansions(pops) + (if p.action == Expand then 1 else 0)
  {
    assert (pops + [p])[..|pops|] == pops;
  }

  /**
   * Pop `p` took a least entry off its queue, looked up the node it names
   * in its table, and acted on that node as `Decide` says.
   */
  ghost predicate PoppedLeast(p: Pop, maxExpandDepth: int, maxWidth: int)
  {
    && p.entry in p.at.queue
    && (forall j :: 0 <= j < |p.at.queue| ==> !Less(p.at.queue[j], p.entry))
    && p.entry.id in p.at.table && p.node == p.at.table[p.entry.id] && p.node.id == p.entry.id
    && p.action == Decide(p.node, maxExpandDepth, maxWidth)
  }

  /**
   * `next` is the state pop `p` left behind. The queue lost the popped
   * entry. An expansion grew the table and then ran `enqueue_nodes` over
   * the new key order; any other pop left the table, the order and the set
   * as they were.
   */
  ghost predicate Leads(p: Pop, next: Snapshot, downUp: bool, maxWidth: int)
  {
    var rest := multiset(p.at.queue) - multiset{p.entry};
    if p.action == Expand then
      && Extends(p.at.table, next.table)
      && (forall i :: 0 <= i < |next.order| ==> next.order[i] in next.table)
      && multiset(next.queue) == rest + multiset(Pending(next.order, next.table, p.at.enqueued, downUp, maxWidth, |next.order|))
      && next.enqueued == p.at.enqueued + Saturated(next.order, next.table, maxWidth, |next.order|)
    else
      && next.table == p.at.table && next.order == p.at.order && next.enqueued == p.at.enqueued
      && multiset(next.queue) == rest
  }

  /**
   * The queue `afterGet` is the one of the pop's state without the popped
   * entry; on expansion the next queue is it followed by the pending entries
   * of the grown table, and otherwise it is the next queue and nothing else
   * changed.
   */
  ghost predicate Stepped(p: Pop, afterGet: seq<Entry>, next: Snapshot, downUp: bool, maxWidth: int)
    requires forall i :: 0 <= i < |next.order| ==> next.order[i] in next.table
  {
    && multiset(afterGet) == multiset(p.at.queue) - multiset{p.entry}
    && (p.action == Expand ==>
         && next.queue == afterGet + Pending(next.order, next.table, p.at.enqueued, downUp, maxWidth, |next.order|)
         && next.enqueued == p.at.enqueued + Saturated(next.order, next.table, maxWidth, |next.order|))
    && (p.action != Expand ==>
         next.table == p.at.table && next.order == p.at.order && next.enqueued == p.at.enqueued && next.queue == afterGet)
  }

  /** What a pop did to the queue, the table and the set, in the terms of `Leads`. */
  lemma PopLeads(p: Pop, afterGet: seq<Entry>, next: Snapshot, downUp: bool, maxWidth: int)
    requires forall i :: 0 <= i < |next.order| ==> next.order[i] in next.table
    requires Stepped(p, afterGet, next, downUp, maxWidth) && Extends(p.at.table, next.table)
    ensures Leads(p, next, downUp, maxWidth)
  {
  }

  /** The state after the first `enqueue_nodes` of `search` over the table `g` with key order `order`. */
  ghost function Start(g: Arena, order: seq<Id>, downUp: bool, maxWidth: int): Snapshot
    requires Listed(order, g)
  {
    Snapshot(g, order, Saturated(order, g, maxWidth, |order|), Pending(order, g, {}, downUp, maxWidth, |order|))
  }

  /**
   * The pops `pops` of the loop of `search` lead from `start` to `final`:
   * each one pops a least entry of the state the previous one left, and the
   * last one leaves `final`.
   */
  ghost predicate Run(start: Snapshot, pops: seq<Pop>, final: Snapshot, maxExpandDepth: int, maxWidth: int, downUp: bool)
    decreases |pops|
  {
    if pops == [] then final == start
    else
      var p := pops[|pops| - 1];
      && Run(start, pops[..|pops| - 1], p.at, maxExpandDepth, maxWidth, downUp)
      && PoppedLeast(p, maxExpandDepth, maxWidth)
      && Leads(p, final, downUp, maxWidth)
  }

  lemma RunSnoc(start: Snapshot, pops: seq<Pop>, p: Pop, final: Snapshot, maxExpandDepth: int, maxWidth: int, downUp: bool)
    requires Run(start, pops, p.at, maxExpandDepth, maxWidth, downUp)
    requires PoppedLeast(p, maxExpandDepth, maxWidth) && Leads(p, final, downUp, maxWidth)
    ensures Run(start, pops + [p], final, maxExpandDepth, maxWidth, downUp)
  {
    assert (pops + [p])[..|pops|] == pops;
  }

  /**
   * The pops of `search` from `start`, at most `iterationLimit` of them,
   * lead to `final`; each pop took a least entry and found its node in a
   * table that extends the start's and that the final one extends.
   */
  ghost predicate Searched(start: Snapshot, iterationLimit: nat, pops: seq<Pop>, final: Snapshot,
                           maxExpandDepth: int, maxWidth: int, downUp: bool)
  {
    && |pops| <= iterationLimit
    && Run(start, pops, final, maxExpandDepth, maxWidth, downUp)
    && forall j :: 0 <= j < |pops| ==>
         && PoppedLeast(pops[j], maxExpandDepth, maxWidth)
         && Extends(start.table, pops[j].at.table) && Extends(pops[j].at.table, final.table)
  }

  /** One more pop, below the limit, from where the pops so far led. */
  lemma SearchedSnoc(start: Snapshot, iterationLimit: nat, pops: seq<Pop>, p: Pop, afterGet: seq<Entry>, final: Snapshot,
                     maxExpandDepth: int, maxWidth: int, downUp: bool)
    requires Searched(start, iterationLimit, pops, p.at, maxExpandDepth, maxWidth, downUp) && |pops| < iterationLimit
    requires Extends(start.table, p.at.table) && Extends(p.at.table, final.table)
    requires forall i :: 0 <= i < |final.order| ==> final.order[i] in final.table
    requires PoppedLeast(p, maxExpandDepth, maxWidth) && Stepped(p, afterGet, final, downUp, maxWidth)
    ensures Searched(start, iterationLimit, pops + [p], final, maxExpandDepth, maxWidth, downUp)
  {
    PopLeads(p, afterGet, final, downUp, maxWidth);
    RunSnoc(start, pops, p, final, maxExpandDepth, maxWidth, downUp);
    var ps := pops + [p];
    forall j | 0 <= j < |ps|
      ensures PoppedLeast(ps[j], maxExpandDepth, maxWidth)
      ensures Extends(start.table, ps[j].at.table) && Extends(ps[j].at.table, final.table)
    {
      if j < |pops| {
        assert ps[j] == pops[j];
        ExtendsTransitive(pops[j].at.table, p.at.table, final.table);
      }
    }
  }

  /**
   * A pop that scored a leaf declined it: the leaf is not the root and its
   * path, in the table the pop found, averages at most the path threshold.
   */
  ghost predicate Declined(p: Pop, root: Id, pathThreshold: real)
  {
    p.action == ScoreLeaf ==>
      && TreeValid(p.at.table, root) && p.node.id in p.at.table && p.node.id != root
      && ScoredAfterRoot(SolutionPath(p.at.table, root, p.node.id))
      && PathMean(SolutionPath(p.at.table, root, p.node.id)) <= pathThreshold
  }

  /** Every pop of `pops` that scored a leaf declined it. */
  ghost predicate AllDeclined(pops: seq<Pop>, root: Id, pathThreshold: real)
  {
    forall j :: 0 <= j < |pops| ==> Declined(pops[j], root, pathThreshold)
  }

  lemma AllDeclinedSnoc(pops: seq<Pop>, p: Pop, root: Id, pathThreshold: real)
    requires AllDeclined(pops, root, pathThreshold) && Declined(p, root, pathThreshold)
    ensures AllDeclined(pops + [p], root, pathThreshold)
  {
    var ps := pops + [p];
    assert forall j :: 0 <= j < |pops| ==> ps[j] == pops[j];
  }

  /** `create_solution_path` then `evaluate_path` for a node below the root: the pool entry of its path. */
  method ScorePath(g: Arena, root: Id, threshold: real, id: Id) returns (entry: Candidate)
    requires TreeValid(g, root) && Gated(g, root, threshold) && id in g && id != root
    ensures entry.leaf == id && Scored(g, root, entry)
  {
    var path := SolutionPath(g, root, id);
    GatedPathIsScored(g, root, threshold, id);
    SolutionPathOfRootOnly(g, root, id);
    var pathScore := EvaluatePath(path);
    entry := Candidate(id, pathScore);
  }

  /**
   * The ids the sweep after the loop of `search` scores among the first `n`
   * ids of `order`: each node without children, in key order. The root is
   * left out: its path cannot be averaged.
   */
  function SweepLeaves(g: Arena, root: Id, order: seq<Id>, n: nat): (leaves: seq<Id>)
    requires n <= |order| && forall i :: 0 <= i < |order| ==> order[i] in g
    ensures |leaves| <= n
    ensures forall c :: 0 <= c < |leaves| ==> leaves[c] in g && g[leaves[c]].children == [] && leaves[c] != root
  {
    if n == 0 then []
    else
      SweepLeaves(g, root, order, n - 1)
        + if g[order[n - 1]].children == [] && order[n - 1] != root then [order[n - 1]] else []
  }

  /** The sweep scores every childless node among the first `n` ids but the root: `c` is its place. */
  lemma {:induction false} SweepLeavesCover(g: Arena, root: Id, order: seq<Id>, n: nat, j: nat) returns (c: nat)
    requires n <= |order| && forall i :: 0 <= i < |order| ==> order[i] in g
    requires j < n && g[order[j]].children == [] && order[j] != root
    ensures c < |SweepLeaves(g, root, order, n)| && SweepLeaves(g, root, order, n)[c] == order[j]
  {
    var s0 := SweepLeaves(g, root, order, n - 1);
    if j < n - 1 {
      c := SweepLeavesCover(g, root, order, n - 1, j);
      assert SweepLeaves(g, root, order, n)[c] == s0[c];
    } else {
      c := |s0|;
    }
  }

  /** When the keys are distinct, the sweep scores each node at most once. */
  lemma {:induction false} SweepLeavesDistinct(g: Arena, root: Id, order: seq<Id>, n: nat)
    requires n <= |order| && forall i :: 0 <= i < |order| ==> order[i] in g
    requires forall i, j :: 0 <= i < j < |order| ==> order[i] != order[j]
    ensures forall c, d :: 0 <= c < d < |SweepLeaves(g, root, order, n)| ==>
      SweepLeaves(g, root, order, n)[c] != SweepLeaves(g, root, order, n)[d]
    ensures forall c :: 0 <= c < |SweepLeaves(g, root, order, n)| ==> SweepLeaves(g, root, order, n)[c] in order[..n]
  {
    if n > 0 {
      SweepLeavesDistinct(g, root, order, n - 1);
      var s0, s := SweepLeaves(g, root, order, n - 1), SweepLeaves(g, root, order, n);
      forall c | 0 <= c < |s| ensures s[c] in order[..n] {
        if c < |s0| {
          assert s[c] == s0[c] && order[..n - 1] <= order[..n];
        } else {
          assert s[c] == order[n - 1];
        }
      }
      forall c, d | 0 <= c < d < |s| ensures s[c] != s[d] {
        if d < |s0| {
          assert s[c] == s0[c] && s[d] == s0[d];
        } else {
          assert s[c] == s0[c] && s0[c] in order[..n - 1];
        }
      }
    }
  }

  /** `pool` is `pool0` followed by one entry per id of `leaves`, in that order, each the scored path of its id. */
  ghost predicate SweptInto(g: Arena, root: Id, pool0: seq<Candidate>, pool: seq<Candidate>, leaves: seq<Id>)
    requires TreeValid(g, root)
  {
    && Appended(pool0, pool, leaves)
    && forall c :: |pool0| <= c < |pool| ==> Scored(g, root, pool[c])
  }

  /** `pool` is `pool0` followed by one entry per id of `leaves`, in that order. */
  ghost predicate Appended(pool0: seq<Candidate>, pool: seq<Candidate>, leaves: seq<Id>)
  {
    && |pool| == |pool0| + |leaves| && pool[..|pool0|] == pool0
    && forall c :: 0 <= c < |leaves| ==> pool[|pool0| + c].leaf == leaves[c]
  }

  /**
   * The sweep after the loop of `search`: in the order of `order`, append the
   * scored path of every node without children to the pool. A root without
   * children makes `evaluate_path` divide by zero, which ends the sweep with
   * `ok` false; the entries appended before it stay in the pool. `swept` is
   * the number of ids the sweep got through.
   */
  method SweepPool(g: Arena, root: Id, threshold: real, order: seq<Id>, pool: seq<Candidate>)
    returns (ok: bool, pool': seq<Candidate>, ghost swept: nat)
    requires TreeValid(g, root) && Gated(g, root, threshold)
    requires (forall i :: 0 <= i < |order| ==> order[i] in g) && forall id :: id in g ==> id in order
    ensures ok <==> g[root].children != []
    ensures swept <= |order| && SweptInto(g, root, pool, pool', SweepLeaves(g, root, order, swept))
    ensures ok ==> swept == |order|
    ensures !ok ==> swept < |order| && order[swept] == root
    ensures forall c :: |pool| <= c < |pool'| ==> Scored(g, root, pool'[c]) && g[pool'[c].leaf].children == []
    ensures ok ==> forall id :: id in g && g[id].children == [] ==>
      exists c :: 0 <= c < |pool'| && pool'[c].leaf == id
  {
    ok, pool', swept := SweepOrder(g, root, threshold, order, pool);
    SweptChildless(g, root, order, swept, pool, pool');
    if ok {
      SweptCovers(g, root, order, pool, pool');
    }
  }

  /** The loop of the sweep; `SweepPool` states what it gives. */
  method SweepOrder(g: Arena, root: Id, threshold: real, order: seq<Id>, pool: seq<Candidate>)
    returns (ok: bool, pool': seq<Candidate>, ghost swept: nat)
    requires TreeValid(g, root) && Gated(g, root, threshold)
    requires (forall i :: 0 <= i < |order| ==> order[i] in g) && forall id :: id in g ==> id in order
    ensures ok <==> g[root].children != []
    ensures swept <= |order| && SweptInto(g, root, pool, pool', SweepLeaves(g, root, order, swept))
    ensures ok ==> swept == |order|
    ensures !ok ==> swept < |order| && order[swept] == root
  {
    pool', ok, swept := pool, true, |order|;
    for i := 0 to |order|
      invariant SweptInto(g, root, pool, pool', SweepLeaves(g, root, order, i))
      invariant forall j :: 0 <= j < i && order[j] == root ==> g[root].children != []
    {
      var id := order[i];
      if |g[id].children| < 1 {
        if id == root {
          ok, swept := false, i;
          break;
        }
        var entry := ScorePath(g, root, threshold, id);
        SweptIntoSnoc(g, root, order, i, pool, pool', entry);
        pool' := pool' + [entry];
      } else {
        assert SweepLeaves(g, root, order, i + 1) == SweepLeaves(g, root, order, i);
      }
    }
  }

  /** Scoring the next childless id of the order extends a sweep by one entry. */
  lemma SweptIntoSnoc(g: Arena, root: Id, order: seq<Id>, i: nat, pool0: seq<Candidate>, pool: seq<Candidate>, entry: Candidate)
    requires TreeValid(g, root) && i < |order| && forall j :: 0 <= j < |order| ==> order[j] in g
    requires SweptInto(g, root, pool0, pool, SweepLeaves(g, root, order, i))
    requires g[order[i]].children == [] && order[i] != root && entry.leaf == order[i] && Scored(g, root, entry)
    ensures SweptInto(g, root, pool0, pool + [entry], SweepLeaves(g, root, order, i + 1))
  {
    var leaves := SweepLeaves(g, root, order, i + 1);
    assert leaves == SweepLeaves(g, root, order, i) + [order[i]];
    assert (pool + [entry])[..|pool0|] == pool[..|pool0|];
  }

  /** Every entry a sweep appended is the scored path of a childless node. */
  lemma SweptChildless(g: Arena, root: Id, order: seq<Id>, n: nat, pool0: seq<Candidate>, pool: seq<Candidate>)
    requires TreeValid(g, root) && n <= |order| && forall i :: 0 <= i < |order| ==> order[i] in g
    requires SweptInto(g, root, pool0, pool, SweepLeaves(g, root, order, n))
    ensures forall c :: |pool0| <= c < |pool| ==> Scored(g, root, pool[c]) && g[pool[c].leaf].children == []
  {
    var leaves := SweepLeaves(g, root, order, n);
    forall c | |pool0| <= c < |pool| ensures g[pool[c].leaf].children == [] {
      assert pool[|pool0| + (c - |pool0|)].leaf == leaves[c - |pool0|];
    }
  }

  /** A sweep over every id of the table appends an entry for each childless node but the root. */
  lemma SweptCovers(g: Arena, root: Id, order: seq<Id>, pool0: seq<Candidate>, pool: seq<Candidate>)
    requires (forall i :: 0 <= i < |order| ==> order[i] in g) && forall id :: id in g ==> id in order
    requires Appended(pool0, pool, SweepLeaves(g, root, order, |order|))
    ensures forall id :: id in g && g[id].children == [] && id != root ==> exists c :: 0 <= c < |pool| && pool[c].leaf == id
  {
    forall id | id in g && g[id].children == [] && id != root ensures exists c :: 0 <= c < |pool| && pool[c].leaf == id {
      var j :| 0 <= j < |order| && order[j] == id;
      var c := SweepLeavesCover(g, root, order, |order|, j);
      assert pool[|pool0| + c].leaf == id;
    }
  }

  /**
   * The answer of the sweep over `g` in the order `order`: the path of a
   * first best entry of `pool`, the pool ending with one entry per id the
   * sweep scores, in order, and every childless node of the table in the
   * pool.
   */
  ghost predicate BestEffortAnswer(g: Arena, root: Id, order: seq<Id>, pool: seq<Candidate>, path: seq<Node>)
  {
    && TreeValid(g, root) && (forall i :: 0 <= i < |order| ==> order[i] in g)
    && (var leaves := SweepLeaves(g, root, order, |order|);
        |leaves| <= |pool| && Appended(pool[..|pool| - |leaves|], pool, leaves))
    && (exists k: nat :: IsBest(pool, k) && pool[k].leaf in g && path == SolutionPath(g, root, pool[k].leaf))
    && (forall id :: id in g && g[id].children == [] ==> exists c :: 0 <= c < |pool| && pool[c].leaf == id)
  }

  /**
   * `max(potential_solutions, key=...)` after a complete sweep, then
   * `create_solution_path` for its node: the path of a first best entry.
   */
  method PickBest(g: Arena, root: Id, order: seq<Id>, ghost pool0: seq<Candidate>, pool: seq<Candidate>)
    returns (path: seq<Node>)
    requires TreeValid(g, root) && forall i :: 0 <= i < |order| ==> order[i] in g
    requires Appended(pool0, pool, SweepLeaves(g, root, order, |order|))
    requires forall i :: 0 <= i < |pool| ==> Scored(g, root, pool[i])
    requires forall id :: id in g && g[id].children == [] ==> exists c :: 0 <= c < |pool| && pool[c].leaf == id
    ensures BestEffortAnswer(g, root, order, pool, path)
  {
    ExistsChildless(g, root);
    var k := BestIndex(pool);
    path := SolutionPath(g, root, pool[k].leaf);
    var leaves := SweepLeaves(g, root, order, |order|);
    assert pool[..|pool| - |leaves|] == pool0;
  }

  /** `pool` is `pool0` with entries appended. */
  predicate PoolGrows(pool0: seq<Candidate>, pool: seq<Candidate>)
  {
    |pool0| <= |pool| && pool[..|pool0|] == pool0
  }

  lemma PoolGrowsTransitive(a: seq<Candidate>, b: seq<Candidate>, c: seq<Candidate>)
    requires PoolGrows(a, b) && PoolGrows(b, c)
    ensures PoolGrows(a, c)
  {
    assert c[..|a|] == c[..|b|][..|a|];
  }

  /**
   * `path` is the accepted answer of a pop of `id`: a leaf other than the
   * root whose reasoning path `path` is, scored strictly above the path
   * threshold.
   */
  ghost predicate Answers(g: Arena, root: Id, pathThreshold: real, id: Id, path: seq<Node>)
  {
    && TreeValid(g, root) && id in g && id != root && g[id].isLeaf
    && path == SolutionPath(g, root, id)
    && ScoredAfterRoot(path) && PathMean(path) > pathThreshold
  }

  // ---------------------------------------------------------------------
  // The manager's table invariant, on values

  /** `order` lists the ids of `g`, each exactly once. */
  ghost predicate Listed(order: seq<Id>, g: Arena)
  {
    && (forall id :: id in g <==> id in order)
    && (forall i, j :: 0 <= i < j < |order| ==> order[i] != order[j])
  }

  /** Each listed id is a key of the table. */
  lemma ListedMembers(order: seq<Id>, g: Arena)
    requires Listed(order, g)
    ensures forall i :: 0 <= i < |order| ==> order[i] in g
  {
  }

  /**
   * The table is a gated tree; no id the counter hands out from `next` on is
   * in it; `order` lists each of its ids exactly once; the log holds step
   * states only.
   */
  ghost predicate Table(g: Arena, root: Id, threshold: real, order: seq<Id>, visited: seq<State>, next: nat)
  {
    && TreeValid(g, root)
    && Gated(g, root, threshold)
    && FreshFrom(g, next)
    && Listed(order, g)
    && (forall i :: 0 <= i < |visited| ==> visited[i].Step?)
  }


  /** Changing only a node's hint and leaf flag keeps the invariant. */
  lemma RelabelKeepsTable(g: Arena, root: Id, threshold: real, order: seq<Id>, visited: seq<State>, next: nat,
                          id: Id, n: Node)
    requires Table(g, root, threshold, order, visited, next) && id in g
    requires n == g[id].(hint := n.hint, isLeaf := n.isLeaf)
    ensures Table(g[id := n], root, threshold, order, visited, next) && Extends(g, g[id := n])
  {
    RelabelPreservesTree(g, root, threshold, id, n);
  }

  /**
   * A candidate of `expand_node` that clears the threshold keeps the
   * invariant: it takes id `next`, logs its state, gives its hint to the tip
   * and is attached below it, its id appended to the order.
   */
  lemma AcceptedKeepsTable(g: Arena, root: Id, threshold: real, order: seq<Id>, visited: seq<State>, next: nat,
                           tip: Id, r: Record, e: Evaluation)
    requires Table(g, root, threshold, order, visited, next) && tip in g && Score(e) >= threshold
    ensures Table(Attach(g, tip, r, e, NodeId(next)), root, threshold, order + [NodeId(next)], visited + [CandidateState(r)], next + 1)
    ensures Extends(g, Attach(g, tip, r, e, NodeId(next)))
  {
    AttachPreservesTree(g, root, threshold, tip, r, e, NodeId(next));
  }

  /** A rejected candidate keeps the invariant: it uses up id `next`, logs its state and gives its hint to the tip. */
  lemma RejectedKeepsTable(g: Arena, root: Id, threshold: real, order: seq<Id>, visited: seq<State>, next: nat,
                           tip: Id, r: Record, hint: string)
    requires Table(g, root, threshold, order, visited, next) && tip in g
    ensures Table(g[tip := g[tip].(hint := hint)], root, threshold, order, visited + [CandidateState(r)], next + 1)
    ensures Extends(g, g[tip := g[tip].(hint := hint)])
  {
    RelabelPreservesTree(g, root, threshold, tip, g[tip].(hint := hint));
  }

  /**
   * The whole walk of `expand_node` keeps the invariant: the accepted
   * candidates' ids are appended to the order, every evaluated candidate's
   * state is logged and uses up one id, and the table grows.
   */
  lemma {:induction false} ChainFromKeepsTable(g: Arena, root: Id, threshold: real, order: seq<Id>, visited: seq<State>,
                            tip: Id, cands: seq<Record>, evals: seq<Evaluation>, base: nat)
    requires |evals| == |cands| && tip in g
    requires Table(g, root, threshold, order, visited, base)
    ensures var r, k, n := ChainFrom(g, tip, cands, evals, threshold, base, 0), AcceptedFrom(evals, threshold, 0), EvaluatedFrom(evals, threshold, 0);
      && Table(r, root, threshold, order + AcceptedIds(base, k), visited + LoggedStates(cands, 0, n), base + n)
      && Extends(g, r)
  {
    ChainFromKeepsTree(g, root, tip, cands, evals, threshold, base, 0);
    ChainFromKeys(g, tip, cands, evals, threshold, base, 0);
    var r := ChainFrom(g, tip, cands, evals, threshold, base, 0);
    GrownKeepsTable(g, r, root, threshold, order, visited, base, AcceptedFrom(evals, threshold, 0),
                    LoggedStates(cands, 0, EvaluatedFrom(evals, threshold, 0)));
  }

  /** A gated tree grown by `k` fresh ids from `base` on, with `logged` states logged and `|logged|` ids used up, keeps the invariant. */
  lemma GrownKeepsTable(g: Arena, r: Arena, root: Id, threshold: real, order: seq<Id>, visited: seq<State>,
                        base: nat, k: nat, logged: seq<State>)
    requires Table(g, root, threshold, order, visited, base)
    requires TreeValid(r, root) && Gated(r, root, threshold)
    requires forall id :: id in r <==> id in g || id in AcceptedIds(base, k)
    requires k <= |logged| && forall j :: 0 <= j < |logged| ==> logged[j].Step?
    ensures Table(r, root, threshold, order + AcceptedIds(base, k), visited + logged, base + |logged|)
  {
    var ids := AcceptedIds(base, k);
    forall m | m >= base + |logged| ensures NodeId(m) !in r {
      assert NodeId(m) !in ids;
    }
    assert forall j :: 0 <= j < |visited + logged| ==> (visited + logged)[j].Step? by {
      forall j | 0 <= j < |visited + logged| ensures (visited + logged)[j].Step? {
        if j >= |visited| {
          assert (visited + logged)[j] == logged[j - |visited|];
        }
      }
    }
  }

  /** Growing a gated tree leaves every pool entry the scored path it was. */
  lemma PoolStable(g0: Arena, g: Arena, root: Id, threshold: real, pool: seq<Candidate>)
    requires TreeValid(g0, root) && TreeValid(g, root) && Gated(g0, root, threshold) && Gated(g, root, threshold)
    requires Extends(g0, g)
    requires forall c :: 0 <= c < |pool| ==> Scored(g0, root, pool[c])
    ensures forall c :: 0 <= c < |pool| ==> Scored(g, root, pool[c])
  {
    forall c | 0 <= c < |pool| ensures Scored(g, root, pool[c]) {
      PathMeanStable(g0, g, root, threshold, pool[c].leaf);
    }
  }

  /**
   * `expand_node` keeps the invariant and the pool: the expanded node loses
   * its leaf flag, then the walk of the chain grows the table.
   */
  lemma {:induction false} ExpansionKeepsInvariant(g0: Arena, root: Id, threshold: real, order: seq<Id>, visited: seq<State>,
                                                   base: nat, nid: Id, cands: seq<Record>, evals: seq<Evaluation>,
                                                   pool: seq<Candidate>, r: Arena, order': seq<Id>, visited': seq<State>, next': nat)
    requires |evals| == |cands| && nid in g0
    requires Table(g0, root, threshold, order, visited, base)
    requires forall c :: 0 <= c < |pool| ==> Scored(g0, root, pool[c])
    requires r == ChainFrom(g0[nid := g0[nid].(isLeaf := false)], nid, cands, evals, threshold, base, 0)
    requires order' == order + AcceptedIds(base, AcceptedFrom(evals, threshold, 0))
    requires visited' == visited + LoggedStates(cands, 0, EvaluatedFrom(evals, threshold, 0))
    requires next' == base + EvaluatedFrom(evals, threshold, 0)
    ensures Table(r, root, threshold, order', visited', next')
    ensures Extends(g0, r)
    ensures forall c :: 0 <= c < |pool| ==> Scored(r, root, pool[c])
  {
    var gStart := g0[nid := g0[nid].(isLeaf := false)];
    RelabelKeepsTable(g0, root, threshold, order, visited, base, nid, gStart[nid]);
    ChainFromKeepsTable(gStart, root, threshold, order, visited, nid, cands, evals, base);
    ExtendsTransitive(g0, gStart, r);
    PoolStable(g0, r, root, threshold, pool);
  }

  // ---------------------------------------------------------------------
  // The manager

  class GraphManager {
    const initialPrompt: string
    const domain: string
    const priorKnowledge: string
    const rootId: Id
    const counter: IdCounter
    const maxWidth: int
    const maxExpandDepth: int
    const scoreThreshold: real
    const pathThreshold: real

    var graphDict: Arena
    var keyOrder: seq<Id>
    var visited: seq<State>
    var potentialSolutions: seq<Candidate>
    var finalAnswer: Option<seq<Node>>
    var genCalls: nat
    var evalCalls: nat

    /**
     * The table is a gated tree rooted at the root node; the counter has not
     * handed out any id the table holds from its current value on; the key
     * order lists each id of the table once; `visited` holds step states only;
     * each pool entry is the score of a non-root node's path.
     */
    ghost predicate Valid()
      reads this, counter
    {
      && Shaped()
      && (forall i :: 0 <= i < |potentialSolutions| ==> Scored(graphDict, rootId, potentialSolutions[i]))
    }

    /** `Valid` without the pool. */
    ghost predicate Shaped()
      reads this, counter
    {
      Table(graphDict, rootId, scoreThreshold, keyOrder, visited, counter.next)
    }

    /**
     * `__init__`. The prior knowledge, question and domain are what the
     * parser extracts from the prompt; the root node carries the prior
     * knowledge as its thought and the question as its action.
     */
    constructor (initialPrompt: string, priorKnowledge: string, question: string, domain: string,
                 counter: IdCounter, nodeThreshold: real, pathThreshold: real, maxWidth: int, maxDepth: int)
      modifies counter
      ensures Valid()
      ensures this.initialPrompt == Strip(initialPrompt) && this.priorKnowledge == priorKnowledge && this.domain == domain
      ensures this.counter == counter && this.scoreThreshold == nodeThreshold && this.pathThreshold == pathThreshold
      ensures this.maxWidth == maxWidth && this.maxExpandDepth == maxDepth
      ensures rootId == NodeId(old(counter.next)) && counter.next == old(counter.next) + 1
      ensures graphDict == map[rootId := Node(rootId, Some(priorKnowledge), Some(question), None, None, "", None, [], 0, false)]
      ensures keyOrder == [rootId] && visited == [] && potentialSolutions == [] && finalAnswer == None
      ensures ListedByParent(graphDict)
      ensures genCalls == 0 && evalCalls == 0
    {
      this.initialPrompt := Strip(initialPrompt);
      this.priorKnowledge := priorKnowledge;
      this.domain := domain;
      this.counter := counter;
      this.maxWidth := maxWidth;
      this.maxExpandDepth := maxDepth;
      this.scoreThreshold := nodeThreshold;
      this.pathThreshold := pathThreshold;
      var root := NewNode(counter, None, Some(priorKnowledge), Some(question), None, None, "");
      this.rootId := root.id;
      graphDict := map[root.id := root];
      keyOrder := [root.id];
      visited := [];
      potentialSolutions := [];
      finalAnswer := None;
      genCalls := 0;
      evalCalls := 0;
    }

    /**
     * The table, log, key order, counter and call counts are what
     * `expand_node` of `nid` makes of the table `g0`, the log `visited0`, the
     * order `order0`, the counter value `next0` and the call counts `gen0` and
     * `eval0`: one generator request for the reasoning path of `nid`, its
     * chain with repeated thoughts dropped, evaluated until the first
     * candidate below the node threshold, walked by `ChainFrom`.
     */
    ghost predicate ExpandedFrom(g0: Arena, visited0: seq<State>, order0: seq<Id>, next0: nat, gen0: nat, eval0: nat,
                                 nid: Id, generate: Generator, judge: Judge)
      reads this, counter
      requires TreeValid(g0, rootId) && nid in g0 && forall i :: 0 <= i < |visited0| ==> visited0[i].Step?
    {
      && Growth(graphDict, visited, keyOrder, counter.next, evalCalls)
           == Grown(g0, visited0, order0, next0, gen0, eval0, nid, generate, judge)
      && genCalls == gen0 + 1
    }

    /** The table, log, key order, counter value and evaluator call count that `ExpandedFrom` describes. */
    ghost function Grown(g0: Arena, visited0: seq<State>, order0: seq<Id>, next0: nat, gen0: nat, eval0: nat,
                         nid: Id, generate: Generator, judge: Judge): Growth
      requires TreeValid(g0, rootId) && nid in g0 && forall i :: 0 <= i < |visited0| ==> visited0[i].Step?
    {
      var request := ExpansionRequest(g0, rootId, priorKnowledge, initialPrompt, domain, visited0, nid, gen0);
      Walked(g0, visited0, order0, next0, eval0, nid, Dedup(generate(request)), request.reasoningStates, judge)
    }

    /**
     * What walking `cands` below `nid` makes of the table, log, key order,
     * counter value and evaluator call count: `nid` is marked expanded, each
     * candidate is evaluated against `state` until the first one below the
     * node threshold, and the table becomes the `ChainFrom` walk; one step
     * state is logged per evaluated candidate and the accepted ones take the
     * next ids.
     */
    ghost function Walked(g0: Arena, visited0: seq<State>, order0: seq<Id>, next0: nat, eval0: nat,
                          nid: Id, cands: seq<Record>, state: string, judge: Judge): Growth
      requires nid in g0
    {
      var evals := Evaluations(judge, initialPrompt, domain, state, cands, eval0);
      var k, n := AcceptedFrom(evals, scoreThreshold, 0), EvaluatedFrom(evals, scoreThreshold, 0);
      Growth(ChainFrom(g0[nid := g0[nid].(isLeaf := false)], nid, cands, evals, scoreThreshold, next0, 0),
             visited0 + LoggedStates(cands, 0, n), order0 + AcceptedIds(next0, k), next0 + n, eval0 + n)
    }

    /** A walk keeps the table invariant and the scores of the pool. */
    lemma WalkedKeepsInvariant(g0: Arena, visited0: seq<State>, order0: seq<Id>, next0: nat, eval0: nat,
                               nid: Id, cands: seq<Record>, state: string, judge: Judge, pool: seq<Candidate>)
      requires nid in g0 && Table(g0, rootId, scoreThreshold, order0, visited0, next0)
      requires forall c :: 0 <= c < |pool| ==> Scored(g0, rootId, pool[c])
      ensures var w := Walked(g0, visited0, order0, next0, eval0, nid, cands, state, judge);
              && Table(w.table, rootId, scoreThreshold, w.order, w.visited, w.next) && Extends(g0, w.table)
              && forall c :: 0 <= c < |pool| ==> Scored(w.table, rootId, pool[c])
    {
      var evals := Evaluations(judge, initialPrompt, domain, state, cands, eval0);
      var w := Walked(g0, visited0, order0, next0, eval0, nid, cands, state, judge);
      ExpansionKeepsInvariant(g0, rootId, scoreThreshold, order0, visited0, next0, nid, cands, evals, pool,
                              w.table, w.order, w.visited, w.next);
    }

    /** A walk keeps every node listed among its parent's children. */
    lemma WalkedKeepsListed(g0: Arena, visited0: seq<State>, order0: seq<Id>, next0: nat, eval0: nat,
                            nid: Id, cands: seq<Record>, state: string, judge: Judge)
      requires nid in g0 && Table(g0, rootId, scoreThreshold, order0, visited0, next0) && ListedByParent(g0)
      ensures ListedByParent(Walked(g0, visited0, order0, next0, eval0, nid, cands, state, judge).table)
    {
      var evals := Evaluations(judge, initialPrompt, domain, state, cands, eval0);
      var gStart := g0[nid := g0[nid].(isLeaf := false)];
      RelabelKeepsTable(g0, rootId, scoreThreshold, order0, visited0, next0, nid, gStart[nid]);
      RelabelKeepsListed(g0, nid, gStart[nid]);
      ChainFromKeepsListed(gStart, rootId, nid, cands, evals, scoreThreshold, next0, 0);
    }

    /**
     * `expand_node`: ask the generator for a chain continuing the reasoning
     * path of `nid`, drop repeated thoughts, then walk the chain, evaluating
     * each candidate against the path of `nid` and attaching it below the
     * previous one while it clears the node threshold. The table becomes the
     * `ChainFrom` walk of the chain; one step state is logged per evaluated
     * candidate; the accepted ones take the next ids of the counter.
     */
    method ExpandNode(nid: Id, generate: Generator, judge: Judge)
      requires Valid() && nid in graphDict
      modifies this, counter
      ensures Valid()
      ensures ExpandedFrom(old(graphDict), old(visited), old(keyOrder), old(counter.next), old(genCalls), old(evalCalls),
                           nid, generate, judge)
      ensures Extends(old(graphDict), graphDict)
      ensures potentialSolutions == old(potentialSolutions) && finalAnswer == old(finalAnswer)
    {
      ghost var g0, base, e0, visited0, order0 := graphDict, counter.next, evalCalls, visited, keyOrder;
      var request := ExpansionRequest(graphDict, rootId, priorKnowledge, initialPrompt, domain, visited, nid, genCalls);
      var generated := generate(request);
      genCalls := genCalls + 1;
      var chain := FilterDuplicateThoughts(generated);
      WalkChain(nid, chain, request.reasoningStates, judge);
      WalkedKeepsInvariant(g0, visited0, order0, base, e0, nid, chain, request.reasoningStates, judge, potentialSolutions);
    }

    /**
     * The loop of `expand_node` over the deduplicated chain, starting below
     * `nid`. The loop asks for the reasoning path of `nid` once per
     * candidate; the candidates are added below `nid`, so that path is the
     * rendered `state` throughout (`StepKeepsReasoningPath`).
     */
    method WalkChain(nid: Id, chain: seq<Record>, state: string, judge: Judge)
      requires nid in graphDict && FreshFrom(graphDict, counter.next)
      modifies this, counter
      ensures Growth(graphDict, visited, keyOrder, counter.next, evalCalls)
        == Walked(old(graphDict), old(visited), old(keyOrder), old(counter.next), old(evalCalls), nid, chain, state, judge)
      ensures genCalls == old(genCalls) && potentialSolutions == old(potentialSolutions) && finalAnswer == old(finalAnswer)
    {
      graphDict := graphDict[nid := graphDict[nid].(isLeaf := false)];
      ghost var gStart, base, e0, visited0, order0 := graphDict, counter.next, evalCalls, visited, keyOrder;
      ghost var evals := Evaluations(judge, initialPrompt, domain, state, chain, e0);
      ghost var tables, tips := WalkTables(gStart, nid, chain, evals, scoreThreshold, base, 0);
      var parentId := nid;
      var loopCompleted := true;
      var i := 0;
      while i < |chain|
        invariant 0 <= i <= |chain| && graphDict == tables[i] && parentId == tips[i]
        invariant counter.next == base + i && evalCalls == e0 + i && genCalls == old(genCalls)
        invariant visited == visited0 + LoggedStates(chain, 0, i)
        invariant keyOrder == order0 + AcceptedIds(base, i)
        invariant forall j :: 0 <= j < i ==> Score(evals[j]) >= scoreThreshold
        invariant potentialSolutions == old(potentialSolutions) && finalAnswer == old(finalAnswer)
        invariant loopCompleted
      {
        var accepted, childId, eval := ConsiderCandidate(parentId, chain[i], state, judge);
        assert eval == evals[i] && Linked(tables, tips, chain, evals, base, i);
        LoggedStatesSnoc(visited0, chain, 0, i);
        if accepted {
          AcceptedIdsSnoc(order0, base, i);
          parentId := childId;
        } else {
          loopCompleted := false;
          break;
        }
        i := i + 1;
      }
      if loopCompleted {
        graphDict := graphDict[parentId := graphDict[parentId].(isLeaf := true)];
      }
      assert RunTo(evals, scoreThreshold, 0, i);
      assert graphDict == Finish(tables[i], tips[i], chain, evals, i);
      AcceptedFromRun(evals, scoreThreshold, 0, i);
      assert EvaluatedFrom(evals, scoreThreshold, 0) == if loopCompleted then i else i + 1;
      ghost var w := Walked(old(graphDict), visited0, order0, base, e0, nid, chain, state, judge);
      assert w.table == graphDict && w.order == keyOrder;
    }

    /**
     * `enqueue_nodes`, the closure of `search` over its queue and its
     * `enqueued_nodes` set: one pass over the ids in insertion order puts
     * `(priority, id)` for every id not yet in the set, and adds to the set
     * every id whose node has reached `maxWidth` children.
     */
    method EnqueueNodes(q: PriorityQueue, enqueued: set<Id>, downUp: bool) returns (enqueued': set<Id>)
      requires forall i :: 0 <= i < |keyOrder| ==> keyOrder[i] in graphDict
      modifies q
      ensures q.entries == old(q.entries) + Pending(keyOrder, graphDict, enqueued, downUp, maxWidth, |keyOrder|)
      ensures enqueued' == enqueued + Saturated(keyOrder, graphDict, maxWidth, |keyOrder|)
    {
      var order, g, width := keyOrder, graphDict, maxWidth;
      enqueued' := enqueued;
      for i := 0 to |order|
        invariant q.entries == old(q.entries) + Pending(order, g, enqueued, downUp, width, i)
        invariant enqueued' == enqueued + Saturated(order, g, width, i)
      {
        var nodeId := order[i];
        if nodeId !in enqueued' {
          q.Put(Entry(Priority(g[nodeId].depth, downUp), nodeId));
        }
        if |g[nodeId].children| >= width {
          enqueued' := enqueued' + {nodeId};
        }
      }
    }

    /**
     * `solve`. The only registered algorithm is `search`: any other name is
     * refused and nothing changes. Otherwise the root is expanded first, then
     * `search` runs from `start`, the state after its first `enqueue_nodes`.
     * The synthesis of the final text from the answer path by the generator
     * is not part of this model.
     */
    method Solve(searchAlgorithm: string, iterationLimit: nat, downUp: bool, generate: Generator, judge: Judge)
      returns (outcome: Outcome, ghost start: Snapshot, ghost pops: seq<Pop>, ghost final: Snapshot)
      requires Valid()
      modifies this, counter
      ensures Valid() && Extends(old(graphDict), graphDict)
      ensures searchAlgorithm != "search" ==>
        outcome == UnsupportedAlgorithm(searchAlgorithm) && pops == []
        && unchanged(this) && counter.next == old(counter.next)
      ensures searchAlgorithm == "search" ==>
        && !outcome.UnsupportedAlgorithm?
        && (var e := Grown(old(graphDict), old(visited), old(keyOrder), old(counter.next), old(genCalls),
                           old(evalCalls), rootId, generate, judge);
            start.table == e.table && start.order == e.order)
        && Listed(start.order, start.table) && start == Start(start.table, start.order, downUp, maxWidth)
        && Searched(start, iterationLimit, pops, final, maxExpandDepth, maxWidth, downUp)
        && final.table == graphDict && final.order == keyOrder
        && genCalls == old(genCalls) + 1 + Expansions(pops)
      ensures outcome.Accepted? ==>
        && |pops| > 0 && pops[|pops| - 1].action == ScoreLeaf
        && Answers(graphDict, rootId, pathThreshold, pops[|pops| - 1].node.id, outcome.path)
        && finalAnswer == Some(outcome.path)
        && AllDeclined(pops[..|pops| - 1], rootId, pathThreshold)
      ensures outcome.BestEffort? ==>
        && (|pops| == iterationLimit || final.queue == []) && AllDeclined(pops, rootId, pathThreshold)
        && BestEffortAnswer(graphDict, rootId, keyOrder, potentialSolutions, outcome.path) && finalAnswer == Some(outcome.path)
      ensures outcome.ZeroDivisionError? ==> RootDividesByZero(iterationLimit, pops, final)
    {
      if searchAlgorithm != "search" {
        start := Snapshot(graphDict, keyOrder, {}, []);
        return UnsupportedAlgorithm(searchAlgorithm), start, [], start;
      }
      ghost var g0 := graphDict;
      ExpandNode(rootId, generate, judge);
      ghost var g1 := graphDict;
      start := Start(graphDict, keyOrder, downUp, maxWidth);
      outcome, pops, final := Search(iterationLimit, downUp, generate, judge);
      ExtendsTransitive(g0, g1, graphDict);
    }

    /**
     * Why `search` divided by zero: its last pop scored the root as a leaf,
     * or the loop ran out of pops or of queue and the sweep met a root
     * without children.
     */
    ghost predicate RootDividesByZero(iterationLimit: nat, pops: seq<Pop>, final: Snapshot)
      reads this
      requires rootId in graphDict
    {
      || (|pops| > 0 && pops[|pops| - 1].action == ScoreLeaf && pops[|pops| - 1].node.id == rootId)
      || ((|pops| == iterationLimit || final.queue == []) && graphDict[rootId].children == [])
    }

    /**
     * `search`. Enqueue every node, then pop at most `iterationLimit` times,
     * stopping early only when the queue runs empty or a pop gives an
     * answer. Without an answer from the pops, the sweep adds the path of
     * every childless node to the pool and the answer is the first best
     * entry's path. `pops` records every pop, `final` the state the loop
     * ended in.
     */
    method Search(iterationLimit: nat, downUp: bool, generate: Generator, judge: Judge)
      returns (outcome: Outcome, ghost pops: seq<Pop>, ghost final: Snapshot)
      requires Valid()
      modifies this, counter
      ensures Valid() && Extends(old(graphDict), graphDict)
      ensures Searched(Start(old(graphDict), old(keyOrder), downUp, maxWidth), iterationLimit, pops, final,
                       maxExpandDepth, maxWidth, downUp)
      ensures final.table == graphDict && final.order == keyOrder
      ensures genCalls == old(genCalls) + Expansions(pops)
      ensures PoolGrows(old(potentialSolutions), potentialSolutions)
      ensures outcome.Accepted? ==>
        && |pops| > 0 && pops[|pops| - 1].action == ScoreLeaf
        && Answers(graphDict, rootId, pathThreshold, pops[|pops| - 1].node.id, outcome.path)
        && finalAnswer == Some(outcome.path)
        && AllDeclined(pops[..|pops| - 1], rootId, pathThreshold)
      ensures outcome.BestEffort? ==>
        && (|pops| == iterationLimit || final.queue == []) && AllDeclined(pops, rootId, pathThreshold)
        && BestEffortAnswer(graphDict, rootId, keyOrder, potentialSolutions, outcome.path) && finalAnswer == Some(outcome.path)
      ensures outcome.ZeroDivisionError? ==> RootDividesByZero(iterationLimit, pops, final)
      ensures !outcome.UnsupportedAlgorithm?
    {
      ghost var start := Start(graphDict, keyOrder, downUp, maxWidth);
      var nodeQueue := new PriorityQueue();
      var enqueued := EnqueueNodes(nodeQueue, {}, downUp);
      PendingQueued(keyOrder, graphDict, {}, downUp, maxWidth, |keyOrder|);
      assert nodeQueue.entries == start.queue && enqueued == start.enqueued;
      var answer;
      answer, pops, final := PopLoop(nodeQueue, enqueued, iterationLimit, downUp, generate, judge);
      if answer.Some? {
        return answer.value, pops, final;
      }
      ghost var pool1 := potentialSolutions;
      outcome := Conclude();
      PoolGrowsTransitive(old(potentialSolutions), pool1, potentialSolutions);
    }

    /**
     * The loop of `search`: pop at most `iterationLimit` times, stopping
     * early when the queue runs empty or a pop gives an answer. The pops
     * lead from the state the loop starts in to `final`.
     */
    method PopLoop(nodeQueue: PriorityQueue, enqueued: set<Id>, iterationLimit: nat, downUp: bool,
                   generate: Generator, judge: Judge)
      returns (answer: Option<Outcome>, ghost pops: seq<Pop>, ghost final: Snapshot)
      requires Valid() && QueuedFaithfully(nodeQueue.entries, graphDict, downUp)
      modifies this, counter, nodeQueue
      ensures Valid() && Extends(old(graphDict), graphDict)
      ensures Searched(Snapshot(old(graphDict), old(keyOrder), enqueued, old(nodeQueue.entries)), iterationLimit, pops, final,
                       maxExpandDepth, maxWidth, downUp)
      ensures final == Snapshot(graphDict, keyOrder, final.enqueued, nodeQueue.entries)
      ensures answer == None && |pops| < iterationLimit ==> nodeQueue.entries == []
      ensures genCalls == old(genCalls) + Expansions(pops)
      ensures PoolGrows(old(potentialSolutions), potentialSolutions)
      ensures answer == None ==> finalAnswer == old(finalAnswer)
      ensures answer.Some? ==>
        |pops| > 0 && pops[|pops| - 1].action == ScoreLeaf && Answered(pops[|pops| - 1].node.id, answer.value)
      ensures answer == None ==> AllDeclined(pops, rootId, pathThreshold)
      ensures answer.Some? ==> AllDeclined(pops[..|pops| - 1], rootId, pathThreshold)
    {
      ghost var g0, pool0 := graphDict, potentialSolutions;
      ghost var start := Snapshot(graphDict, keyOrder, enqueued, nodeQueue.entries);
      var queued := enqueued;
      answer, pops := None, [];
      var t := 0;
      while t < iterationLimit
        invariant answer == None
        invariant t <= iterationLimit && |pops| == t
        invariant Valid() && Extends(g0, graphDict)
        invariant QueuedFaithfully(nodeQueue.entries, graphDict, downUp)
        invariant Searched(start, iterationLimit, pops, Snapshot(graphDict, keyOrder, queued, nodeQueue.entries),
                           maxExpandDepth, maxWidth, downUp)
        invariant genCalls == old(genCalls) + Expansions(pops)
        invariant PoolGrows(pool0, potentialSolutions)
        invariant finalAnswer == old(finalAnswer)
        invariant AllDeclined(pops, rootId, pathThreshold)
      {
        if nodeQueue.Empty() {
          break;
        }
        ghost var poolBefore := potentialSolutions;
        answer, queued, pops := PopRound(nodeQueue, queued, start, pops, old(genCalls), iterationLimit, downUp, generate, judge);
        if answer.Some? {
          break;
        }
        PoolGrowsTransitive(pool0, poolBefore, potentialSolutions);
        t := t + 1;
      }
      final := Snapshot(graphDict, keyOrder, queued, nodeQueue.entries);
    }

    /**
     * One turn of the loop of `search`: a pop (`PopNext`) from where the
     * pops so far led, recorded after them.
     */
    method PopRound(nodeQueue: PriorityQueue, queued: set<Id>, ghost start: Snapshot, ghost pops: seq<Pop>,
                    ghost gen0: nat, iterationLimit: nat, downUp: bool, generate: Generator, judge: Judge)
      returns (answer: Option<Outcome>, queued': set<Id>, ghost pops': seq<Pop>)
      requires Valid() && nodeQueue.entries != [] && QueuedFaithfully(nodeQueue.entries, graphDict, downUp)
      requires |pops| < iterationLimit && Extends(start.table, graphDict) && genCalls == gen0 + Expansions(pops)
      requires Searched(start, iterationLimit, pops, Snapshot(graphDict, keyOrder, queued, nodeQueue.entries),
                        maxExpandDepth, maxWidth, downUp)
      modifies this, counter, nodeQueue
      ensures Valid() && Extends(start.table, graphDict) && Extends(old(graphDict), graphDict)
      ensures QueuedFaithfully(nodeQueue.entries, graphDict, downUp)
      ensures |pops'| == |pops| + 1 && genCalls == gen0 + Expansions(pops')
      ensures Searched(start, iterationLimit, pops', Snapshot(graphDict, keyOrder, queued', nodeQueue.entries),
                       maxExpandDepth, maxWidth, downUp)
      ensures answer == None ==> PoolGrows(old(potentialSolutions), potentialSolutions) && finalAnswer == old(finalAnswer)
      ensures answer.Some? ==>
        && potentialSolutions == old(potentialSolutions)
        && pops'[|pops'| - 1].action == ScoreLeaf && Answered(pops'[|pops'| - 1].node.id, answer.value)
      ensures pops'[..|pops|] == pops
      ensures answer == None ==> Declined(pops'[|pops|], rootId, pathThreshold)
      ensures AllDeclined(pops, rootId, pathThreshold) ==>
        AllDeclined(pops'[..|pops'| - 1], rootId, pathThreshold) && (answer == None ==> AllDeclined(pops', rootId, pathThreshold))
    {
      ghost var before := graphDict;
      ghost var pop, afterGet;
      answer, queued', pop, afterGet := PopNext(nodeQueue, queued, downUp, generate, judge);
      ExtendsTransitive(start.table, before, graphDict);
      ListedMembers(keyOrder, graphDict);
      SearchedSnoc(start, iterationLimit, pops, pop, afterGet, Snapshot(graphDict, keyOrder, queued', nodeQueue.entries),
                   maxExpandDepth, maxWidth, downUp);
      ExpansionsSnoc(pops, pop);
      pops' := pops + [pop];
      assert pops'[..|pops|] == pops;
      if AllDeclined(pops, rootId, pathThreshold) && answer == None {
        AllDeclinedSnoc(pops, pop, rootId, pathThreshold);
      }
    }

    /**
     * One pop of the loop of `search`: take the least entry off the queue,
     * then score the popped node's path when it is a leaf, expand it when
     * it is neither deeper than the expansion depth nor full, and drop it
     * otherwise.
     */
    method PopNext(nodeQueue: PriorityQueue, enqueued: set<Id>, downUp: bool, generate: Generator, judge: Judge)
      returns (answer: Option<Outcome>, enqueued': set<Id>, ghost pop: Pop, ghost afterGet: seq<Entry>)
      requires Valid() && nodeQueue.entries != [] && QueuedFaithfully(nodeQueue.entries, graphDict, downUp)
      modifies this, counter, nodeQueue
      ensures Valid() && Extends(old(graphDict), graphDict)
      ensures QueuedFaithfully(nodeQueue.entries, graphDict, downUp)
      ensures pop.at == Snapshot(old(graphDict), old(keyOrder), enqueued, old(nodeQueue.entries))
      ensures PoppedLeast(pop, maxExpandDepth, maxWidth)
      ensures Stepped(pop, afterGet, Snapshot(graphDict, keyOrder, enqueued', nodeQueue.entries), downUp, maxWidth)
      ensures pop.action == Expand ==>
        ExpandedFrom(old(graphDict), old(visited), old(keyOrder), old(counter.next), old(genCalls), old(evalCalls),
                     pop.entry.id, generate, judge)
      ensures genCalls == old(genCalls) + (if pop.action == Expand then 1 else 0)
      ensures pop.action != ScoreLeaf ==> answer == None && potentialSolutions == old(potentialSolutions)
      ensures answer == None ==> finalAnswer == old(finalAnswer)
      ensures pop.action == ScoreLeaf ==> LeafScored(old(potentialSolutions), pop.entry.id, answer)
      ensures answer == None ==> PoolGrows(old(potentialSolutions), potentialSolutions)
      ensures answer == None ==> Declined(pop, rootId, pathThreshold)
    {
      ghost var queued := nodeQueue.entries;
      var e := nodeQueue.Get();
      QueuedAfterGet(queued, nodeQueue.entries, e, graphDict, downUp);
      assert multiset(nodeQueue.entries) == multiset(queued) - multiset{e};
      afterGet := nodeQueue.entries;
      var current := graphDict[e.id];
      var action := Decide(current, maxExpandDepth, maxWidth);
      pop := Pop(Snapshot(graphDict, keyOrder, enqueued, queued), e, current, action);
      ghost var pool0 := potentialSolutions;
      answer, enqueued' := ActOn(nodeQueue, enqueued, e.id, action, downUp, generate, judge);
      if action == ScoreLeaf && answer == None {
        assert Scored(graphDict, rootId, potentialSolutions[|pool0|]);
      }
    }

    /**
     * What a pop of `search` does with the popped node `id` once `action`
     * is decided: score its path, expand it, or drop it.
     */
    method ActOn(nodeQueue: PriorityQueue, enqueued: set<Id>, id: Id, action: Action, downUp: bool,
                 generate: Generator, judge: Judge)
      returns (answer: Option<Outcome>, enqueued': set<Id>)
      requires Valid() && id in graphDict && QueuedFaithfully(nodeQueue.entries, graphDict, downUp)
      requires action == Decide(graphDict[id], maxExpandDepth, maxWidth)
      modifies this, counter, nodeQueue
      ensures Valid() && Extends(old(graphDict), graphDict)
      ensures QueuedFaithfully(nodeQueue.entries, graphDict, downUp)
      ensures action == Expand ==>
        && ExpandedFrom(old(graphDict), old(visited), old(keyOrder), old(counter.next), old(genCalls), old(evalCalls),
                        id, generate, judge)
        && nodeQueue.entries == old(nodeQueue.entries) + Pending(keyOrder, graphDict, enqueued, downUp, maxWidth, |keyOrder|)
        && enqueued' == enqueued + Saturated(keyOrder, graphDict, maxWidth, |keyOrder|)
        && genCalls == old(genCalls) + 1
      ensures action != Expand ==>
        && graphDict == old(graphDict) && keyOrder == old(keyOrder) && enqueued' == enqueued
        && nodeQueue.entries == old(nodeQueue.entries) && genCalls == old(genCalls)
      ensures action != ScoreLeaf ==> answer == None && potentialSolutions == old(potentialSolutions)
      ensures answer == None ==> finalAnswer == old(finalAnswer)
      ensures action == ScoreLeaf ==> LeafScored(old(potentialSolutions), id, answer)
      ensures answer == None ==> PoolGrows(old(potentialSolutions), potentialSolutions)
    {
      answer, enqueued' := None, enqueued;
      if action == ScoreLeaf {
        answer := ScoreLeafPop(id);
      } else if action == Expand {
        enqueued' := ExpandPop(nodeQueue, enqueued, id, downUp, generate, judge);
      }
    }

    /**
     * What scoring the popped leaf `id` did, against the pool `pool0` before
     * it: the root alone divides by zero; a path scoring strictly above the
     * path threshold is the answer; any other path joins the pool.
     */
    ghost predicate LeafScored(pool0: seq<Candidate>, id: Id, answer: Option<Outcome>)
      reads this, counter
      requires Valid()
    {
      && (answer.Some? ==> potentialSolutions == pool0 && Answered(id, answer.value))
      && (answer == None ==>
            && id != rootId
            && |potentialSolutions| == |pool0| + 1
            && potentialSolutions[..|pool0|] == pool0
            && potentialSolutions[|pool0|].leaf == id
            && potentialSolutions[|pool0|].score <= pathThreshold)
    }

    /**
     * The answer a popped leaf `id` gave: the root alone divides by zero;
     * any other leaf answers with its path, which clears the path threshold
     * and is recorded as the final answer.
     */
    ghost predicate Answered(id: Id, answer: Outcome)
      reads this, counter
      requires Valid()
    {
      && (answer.ZeroDivisionError? <==> id == rootId)
      && (answer.ZeroDivisionError? || answer.Accepted?)
      && (answer.Accepted? ==> Answers(graphDict, rootId, pathThreshold, id, answer.path) && finalAnswer == Some(answer.path))
    }

    /** The leaf branch of a pop of `search`, on the popped leaf `id`. */
    method ScoreLeafPop(id: Id) returns (answer: Option<Outcome>)
      requires Valid() && id in graphDict && graphDict[id].isLeaf
      modifies this
      ensures Valid()
      ensures graphDict == old(graphDict) && keyOrder == old(keyOrder) && visited == old(visited)
      ensures genCalls == old(genCalls) && evalCalls == old(evalCalls)
      ensures answer == None ==> finalAnswer == old(finalAnswer)
      ensures LeafScored(old(potentialSolutions), id, answer)
    {
      if id == rootId {
        return Some(ZeroDivisionError);
      }
      var entry := ScorePath(graphDict, rootId, scoreThreshold, id);
      if entry.score > pathThreshold {
        var path := SolutionPath(graphDict, rootId, id);
        finalAnswer := Some(path);
        return Some(Accepted(path));
      }
      potentialSolutions := potentialSolutions + [entry];
      answer := None;
    }

    /**
     * The expansion branch of a pop of `search`: expand `id`, then run
     * `enqueue_nodes` again over the grown key order.
     */
    method ExpandPop(nodeQueue: PriorityQueue, enqueued: set<Id>, id: Id, downUp: bool, generate: Generator, judge: Judge)
      returns (enqueued': set<Id>)
      requires Valid() && id in graphDict && QueuedFaithfully(nodeQueue.entries, graphDict, downUp)
      modifies this, counter, nodeQueue
      ensures Valid() && Extends(old(graphDict), graphDict)
      ensures ExpandedFrom(old(graphDict), old(visited), old(keyOrder), old(counter.next), old(genCalls), old(evalCalls),
                           id, generate, judge)
      ensures nodeQueue.entries == old(nodeQueue.entries) + Pending(keyOrder, graphDict, enqueued, downUp, maxWidth, |keyOrder|)
      ensures enqueued' == enqueued + Saturated(keyOrder, graphDict, maxWidth, |keyOrder|)
      ensures QueuedFaithfully(nodeQueue.entries, graphDict, downUp)
      ensures potentialSolutions == old(potentialSolutions) && finalAnswer == old(finalAnswer)
    {
      ghost var before, beforeQueue := graphDict, nodeQueue.entries;
      ExpandNode(id, generate, judge);
      QueuedStable(beforeQueue, before, graphDict, rootId, downUp);
      enqueued' := EnqueueNodes(nodeQueue, enqueued, downUp);
      PendingQueued(keyOrder, graphDict, enqueued, downUp, maxWidth, |keyOrder|);
      QueuedConcat(beforeQueue, Pending(keyOrder, graphDict, enqueued, downUp, maxWidth, |keyOrder|), graphDict, downUp);
    }

    /**
     * The end of `search` when no pop gave an answer: the sweep, then the
     * first best pool entry's path as the answer. A childless root divides
     * by zero in the sweep.
     */
    method Conclude() returns (outcome: Outcome)
      requires Valid()
      modifies this
      ensures Valid()
      ensures graphDict == old(graphDict) && keyOrder == old(keyOrder) && visited == old(visited)
      ensures genCalls == old(genCalls) && evalCalls == old(evalCalls)
      ensures PoolGrows(old(potentialSolutions), potentialSolutions)
      ensures outcome.ZeroDivisionError? <==> graphDict[rootId].children == []
      ensures outcome.ZeroDivisionError? ==> finalAnswer == old(finalAnswer)
      ensures outcome.ZeroDivisionError? || outcome.BestEffort?
      ensures outcome.BestEffort? ==>
        Appended(old(potentialSolutions), potentialSolutions, SweepLeaves(graphDict, rootId, keyOrder, |keyOrder|))
      ensures outcome.BestEffort? ==> BestEffortAnswer(graphDict, rootId, keyOrder, potentialSolutions, outcome.path) && finalAnswer == Some(outcome.path)
    {
      var ok, swept := FinalSweep();
      if !ok {
        outcome := ZeroDivisionError;
      } else {
        var path := PickBest(graphDict, rootId, keyOrder, old(potentialSolutions), potentialSolutions);
        finalAnswer := Some(path);
        outcome := BestEffort(path);
      }
    }

    /**
     * The sweep after the loop of `search` over the table, appending to the
     * pool (`SweepPool`); `ok` is false when the childless root ended it
     * after `swept` ids.
     */
    method FinalSweep() returns (ok: bool, ghost swept: nat)
      requires Valid()
      modifies this
      ensures Valid()
      ensures ok <==> graphDict[rootId].children != []
      ensures graphDict == old(graphDict) && keyOrder == old(keyOrder) && visited == old(visited)
      ensures finalAnswer == old(finalAnswer) && genCalls == old(genCalls) && evalCalls == old(evalCalls)
      ensures swept <= |keyOrder|
      ensures SweptInto(graphDict, rootId, old(potentialSolutions), potentialSolutions, SweepLeaves(graphDict, rootId, keyOrder, swept))
      ensures ok ==> swept == |keyOrder|
      ensures !ok ==> swept < |keyOrder| && keyOrder[swept] == rootId
      ensures forall c :: |old(potentialSolutions)| <= c < |potentialSolutions| ==>
        graphDict[potentialSolutions[c].leaf].children == []
      ensures ok ==> forall id :: id in graphDict && graphDict[id].children == [] ==>
        exists c :: 0 <= c < |potentialSolutions| && potentialSolutions[c].leaf == id
    {
      ghost var pool0 := potentialSolutions;
      ok, potentialSolutions, swept := SweepPool(graphDict, rootId, scoreThreshold, keyOrder, potentialSolutions);
      forall c | 0 <= c < |potentialSolutions| ensures Scored(graphDict, rootId, potentialSolutions[c]) {
        if c < |pool0| {
          assert potentialSolutions[c] == pool0[c];
        }
      }
    }

    /**
     * One pass of the loop of `expand_node`: build the candidate's node
     * (taking the next id), evaluate it against `childState`, the rendered
     * reasoning path of the expanded node, give its evaluation's hint to
     * `parentId`, log its state, and attach it below `parentId` when its
     * score clears the node threshold.
     */
    method ConsiderCandidate(parentId: Id, r: Record, childState: string, judge: Judge)
      returns (accepted: bool, childId: Id, eval: Evaluation)
      requires parentId in graphDict
      modifies this, counter
      ensures eval == Judged(judge, initialPrompt, domain, childState, r, old(evalCalls))
      ensures accepted == (Score(eval) >= scoreThreshold)
      ensures childId == NodeId(old(counter.next))
      ensures accepted ==> graphDict == Attach(old(graphDict), parentId, r, eval, childId) && keyOrder == old(keyOrder) + [childId]
      ensures !accepted ==> graphDict == old(graphDict)[parentId := old(graphDict)[parentId].(hint := eval.hint)] && keyOrder == old(keyOrder)
      ensures visited == old(visited) + [CandidateState(r)]
      ensures counter.next == old(counter.next) + 1 && evalCalls == old(evalCalls) + 1
      ensures genCalls == old(genCalls)
      ensures potentialSolutions == old(potentialSolutions)
      ensures finalAnswer == old(finalAnswer)
    {
      var child := NewNode(counter, None, Some(r.thought), Some(r.action), Some(r.result), None, "");
      childId := child.id;
      CandidateFields(child, r);
      eval := judge(EvalRequest(initialPrompt, AsString(child), domain, childState, evalCalls));
      evalCalls := evalCalls + 1;
      visited := visited + [AsState(child)];
      accepted := Score(eval) >= scoreThreshold;
      if accepted {
        graphDict := Attach(graphDict, parentId, r, eval, childId);
        keyOrder := keyOrder + [childId];
      } else {
        graphDict := graphDict[parentId := graphDict[parentId].(hint := eval.hint)];
      }
    }
  }
}
