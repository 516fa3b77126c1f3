# GoAT search core in Dafny

GoAT builds a tree of reasoning steps for a question, using a language model.
The root holds the prior knowledge and the question. Expanding a node asks
a generator model for a chain of candidate steps. Repeated thoughts are
dropped, then each candidate is scored by an evaluator model. Candidates
are attached one below the other while their scores clear the node
threshold. The walk stops at the first candidate that fails.

The scheduler, `search`, works from a priority queue of nodes ordered by
depth. A popped leaf has its root-to-leaf path averaged; an average
strictly above the path threshold ends the search. A popped node that is
neither too deep nor full is expanded, and the nodes are enqueued again.
When the pop budget runs out without an answer, every childless node's
path joins a fallback pool. The first best path of the pool is the
answer.

The model follows the source file by file:

- `node.dfy` (module `Nodes`): nodes and ids.
  - Nodes are values: parent and children are ids.
  - The process-wide id counter is a class, `IdCounter`.
- `tree.dfy` (module `Tree`): the node table, `graph_dict`.
  - The table is a map from ids to nodes, with its shape invariant `TreeValid`.
  - Also here: `create_solution_path`, `create_reasoning_path` with its rendering, and the observation text built from the visited states.
- `expansion.dfy` (module `Expansion`): the gating walk of `expand_node` as the function `ChainFrom`, with lemmas about the table it yields.
- `graph_manager.dfy` (module `Manager`): the class `GraphManager`.
  - `ExpandNode` is proved to produce exactly `ChainFrom`.
  - `Search` works through its parts: `EnqueueNodes`, `PopLoop`, `PopNext`, `ScoreLeafPop`, `ExpandPop`, `FinalSweep` and `Conclude`.
  - Also here: `Solve`.
- `queue.dfy` (module `Queue`): `queue.PriorityQueue` over `(priority, node_id)` pairs, by behaviour.
- `evaluator.dfy` (module `Evaluator`): `evaluate_path`, a loop proved against a recursive sum.
- `parser.dfy` (module `Parser`): `filter_duplicate_thoughts`, `validate_dicts` and the row assembly of `parse_output`.
- `text.dfy` (module `Text`): the Python string operations the rest needs.
  - `str(n)`, string order, `'\n'.join`, `strip` and `lower`.

The two language models are function parameters: `Generator` and `Judge`.
A model request carries a call number, so the same prompt may get a
different answer on a later call. The manager counts its calls in
`genCalls` and `evalCalls`.

Where the code and the design disagree, the model follows the code:

- **Path acceptance:** a path is accepted when its score is strictly
  above the path threshold.
- **Queue ties:** entries of equal priority leave the queue in the
  string order of their ids. Creation order is not used, so `node_10`
  leaves before `node_2` (`Nodes.IdOrderIsNotCreationOrder`).
- **Root-only path:** scoring it divides by zero. The model gives the
  outcome `ZeroDivisionError`, with no score of 0 put in its place.
  - In the code it can only happen in the final sweep, when the root has
    no children (the root was expanded, and every candidate of its chain
    failed the gate).
  - The root cannot become a leaf there. `validate_dicts` refuses an empty
    parse, so `parse_output` reparses, and `filter_duplicate_thoughts`
    always keeps the first record. A chain is therefore never empty.
  - The model's `Generator` may return an empty chain, so the model also
    covers a root popped as a leaf. That over-approximates the code.
- **Pool:** it can hold a leaf twice, once from its pop and once from the
  sweep.

As written, `validate_dicts` returns at the first dict that holds
'Final Score'. Dicts after it are never checked, although its comment says
every dict is (`Parser.LaterDictsUnchecked`).

## Model

| member | source | states |
|---|---|---|
| Nodes.IdCounter.constructor | Graph/node.py:15 | The counter starts at 1. |
| Nodes.IdCounter.NextId | Graph/node.py:17-21 | Returns the id for the counter's current value and advances the counter by one, so ids are never reused. |
| Nodes.IdText | Graph/node.py:21 | An id's text is `node_` followed by at least one character. |
| Nodes.IdTextInjective | Graph/node.py:18-21 | Two ids with the same text are the same id, so comparing ids compares their strings. |
| Nodes.IdOrderIsNotCreationOrder | Graph/node.py:21 | In string order `node_10` comes before `node_2`: id order is not creation order. |
| Nodes.NewNode | Graph/node.py:2-13 | An explicit id is used as given and leaves the counter alone; otherwise the node takes the counter's value, which advances. The fields are as passed. Parent none, no children, depth 0, not a leaf. |
| Nodes.AddParent | Graph/node.py:23-25 | Parent is the given node and depth is its depth plus one. |
| Nodes.AddParentFrame | Graph/node.py:23-25 | `add_parent` changes no field but parent and depth. |
| Nodes.AddChild | Graph/node.py:27-28 | The child list grows by one, with the new child last. |
| Nodes.AddChildFrame | Graph/node.py:27-28 | The earlier children keep their order, and no other field changes. |
| Nodes.AsDict | Graph/node.py:30-35 | Exactly the keys Thought, Action and Result, holding the node's fields. |
| Nodes.ToDict | Graph/graph_manager.py:160-165 | The root's state is `{'Initial State': prior knowledge}`; any other node's state is its `as_dict`. |
| Nodes.ToDictInjective | Graph/graph_manager.py:81-83 | Equal state dicts mean equal states, so the frozen-set test of the observation filter compares states. |
| Nodes.AsString | Graph/node.py:37-38 | `as_string` opens with `Thought: ` and ends with the rendered result. |
| Tree.ListedByParent | Graph/graph_manager.py:135-141 | Each node is among its parent's children: `add_child` runs with every `add_parent`. |
| Tree.RelabelKeepsListed | Graph/graph_manager.py:130 | Changing a node's hint or leaf flag keeps every node listed by its parent. |
| Tree.AddLeafKeepsListed | Graph/graph_manager.py:135-141 | Hanging a new node below a node, as its last child, keeps every node listed by its parent. |
| Tree.SolutionPath | Graph/graph_manager.py:267-274 | The path runs from the root to the node, with length depth + 1. Each entry is the table's node, and each entry's parent is the entry before it. |
| Tree.SolutionPathOfRootOnly | Graph/graph_manager.py:267-274 | The path has one node exactly when it is the path of the root. |
| Tree.ReasoningPath | Graph/graph_manager.py:158-166 | The states run from the node up to the root: one per level, ending in the Initial State, all others steps. |
| Tree.ReasoningPathReversesSolutionPath | Graph/graph_manager.py:158-166 | The reasoning path is the solution path reversed, each node read as its state. |
| Tree.RenderedPathStartsWithInitialState | Graph/graph_manager.py:171-174 | The rendered path opens with `Step 1:\nInitial State: ` and the prior knowledge. |
| Tree.ObservationLines | Graph/graph_manager.py:81-83 | Each line starts with `- `. There are no lines exactly when every visited state is on the path. |
| Tree.ObservationsEmptyIff | Graph/graph_manager.py:81-85 | The observation text is the "no observations" text exactly when every visited state lies on the current path. |
| Tree.ExistsChildless | Graph/graph_manager.py:256-260 | Every valid table has a childless node, so the sweep always adds something to the pool. |
| Tree.SolutionPathStable | Graph/graph_manager.py:267-274 | A grown table gives every old node the same path: same ids, scores and states. |
| Tree.ReasoningPathStable | Graph/graph_manager.py:153-166 | A grown table gives every old node the same reasoning path. |
| Tree.AddLeafPreservesTree | Graph/graph_manager.py:134-141 | Attaching a fresh scored child below a node keeps the table a gated tree that extends the old one. |
| Tree.RelabelPreservesTree | Graph/graph_manager.py:110-151 | Changing only a node's hint or leaf flag keeps the table a gated tree that extends the old one. |
| Expansion.HintText | Graph/graph_manager.py:100 | The hint argument is empty exactly when the node has no hint; otherwise it is `Hint: ` followed by the hint. |
| Expansion.ExpansionRequest | Graph/graph_manager.py:94-101 | The generator request carries the prompt and domain. The step number is the node's depth plus two, one past its path. The hint argument is empty exactly when the node's hint is. The reasoning states open with the Initial State step. |
| Expansion.Score | Graph/graph_manager.py:128 | The score is the evaluator's integer 'Final Score' divided by 100, never negative. |
| Expansion.CandidateFields | Graph/graph_manager.py:115-132 | A candidate's node renders for the evaluator, and logs to `visited`, as the candidate's three fields. |
| Expansion.AcceptedFrom | Graph/graph_manager.py:114-147 | The walk from candidate i accepts a run of candidates that all clear the threshold, followed by the end of the chain or a candidate that fails. |
| Expansion.AcceptedFromRun | Graph/graph_manager.py:134-147 | A run of passing scores ended by the chain's end or by a failing score is exactly the accepted count. |
| Expansion.EvaluatedFrom | Graph/graph_manager.py:114-147 | The walk evaluates the accepted candidates plus at most one more, the one that fails. |
| Expansion.ChainFromStep | Graph/graph_manager.py:134-143 | An accepted candidate is attached under the next id, and the walk goes on below it with one more accepted and one more evaluated. |
| Expansion.WalkTables | Graph/graph_manager.py:114-151 | The tables and tips the loop passes through: each step attaches the next candidate below the last tip. Stopping where the run of passing scores ends gives the walk's table. |
| Expansion.ChainFromKeys | Graph/graph_manager.py:140-141 | After the walk the table holds the old ids and the accepted candidates' ids, nothing else. |
| Expansion.ChainFromKeepsTree | Graph/graph_manager.py:134-141 | The walk keeps the table a gated tree and only grows it. |
| Expansion.ChainFromKeepsListed | Graph/graph_manager.py:134-141 | The walk keeps every node listed among its parent's children. |
| Expansion.ChainFromFrame | Graph/graph_manager.py:130-141 | The walk changes no node other than the expanded one and the new ones. |
| Expansion.ChainFromTip | Graph/graph_manager.py:110-151 | The expanded node gets the first evaluation's hint. It gets the first accepted child appended, and becomes a leaf only if the chain is empty. |
| Expansion.ChainFromNodes | Graph/graph_manager.py:115-151 | The accepted candidates form one chain below the expanded node, each at the next depth with its own score. Each carries the next evaluation's hint and has the next node as its only child. Only the last candidate of a fully accepted chain is a leaf. |
| Expansion.AttachPreservesTree | Graph/graph_manager.py:130-141 | Attaching an accepted candidate keeps the table a gated tree that extends the old one. |
| Expansion.StepKeepsReasoningPath | Graph/graph_manager.py:117 | Neither a rejected candidate's hint nor an attachment changes an existing node's reasoning path. So the path rendered once per candidate is the same every time. |
| Manager.GatedPathMeanAtLeastThreshold | Agents/evaluator.py:61-67 | The path of any non-root node of a gated tree is scored and averages at least the node threshold. |
| Manager.PathMeanStable | Graph/graph_manager.py:242-243 | A grown table gives a node's path the same average. |
| Manager.BestIndex | Graph/graph_manager.py:263 | Returns the first index of a maximum score, as `max` with a key does. |
| Manager.BestIsUnique | Graph/graph_manager.py:263 | There is exactly one first maximum. |
| Manager.FirstBestBefore | Graph/graph_manager.py:263 | Every entry before the first maximum scores strictly less than it. |
| Manager.GatedPathIsScored | Graph/graph_manager.py:242-243 | Every node below the root of a gated tree has a score, so its path can be averaged. |
| Manager.PriorityOrder | Graph/graph_manager.py:213 | Bottom-up, a deeper node has the smaller priority; top-down, a shallower one. Equal priorities mean equal depths. |
| Manager.PoppedDepth | Graph/graph_manager.py:213-236 | The least entry names a node of greatest depth when searching bottom-up, and of least depth otherwise. |
| Manager.SaturatedMembers | Graph/graph_manager.py:216-217 | One pass marks as saturated exactly the listed nodes with at least `max_width` children. |
| Manager.PendingEntries | Graph/graph_manager.py:210-214 | One pass enqueues exactly the listed nodes not marked before, each with priority minus its depth (bottom-up) or its depth. |
| Manager.PendingQueued | Graph/graph_manager.py:212-214 | Every entry a pass enqueues carries its node's current priority. |
| Manager.QueuedAfterGet | Graph/graph_manager.py:236 | The entry `get` took was queued, and the entries left keep their nodes' priorities. |
| Manager.QueuedConcat | Graph/graph_manager.py:214 | Entries put by one pass after another keep their nodes' priorities. |
| Manager.QueuedStable | Graph/graph_manager.py:253-254 | Expansion never changes a queued node's depth, so queued priorities stay faithful. |
| Manager.Decide | Graph/graph_manager.py:241-254 | A popped node is scored exactly when it is a leaf. It is expanded only when its depth is at most `max_expand_depth` and it has fewer than `max_width` children. |
| Manager.ScorePath | Graph/graph_manager.py:242-243 | The entry is the node's path and that path's average. |
| Manager.PopLeads | Graph/graph_manager.py:236-254 | A pop whose queue lost the popped entry, and whose expansion (if any) grew the table and enqueued again, leads to the next state. |
| Manager.RunSnoc | Graph/graph_manager.py:231-254 | A run of pops followed by one more pop of a least entry is a run to the state that pop left. |
| Manager.SearchedSnoc | Graph/graph_manager.py:231-254 | One more pop below `iteration_limit`, of a least entry, extends the pops of `search` to the state it left. |
| Manager.AllDeclinedSnoc | Graph/graph_manager.py:241-247 | Pops that each declined their scored leaf, followed by one more such pop, all declined. |
| Manager.SweepLeavesCover | Graph/graph_manager.py:256-260 | Every childless node other than the root among the first ids of the order is scored by the sweep. |
| Manager.SweepLeavesDistinct | Graph/graph_manager.py:256-260 | When the key order lists each id once, the sweep scores each node at most once, and only listed ones. |
| Manager.SweepPool | Graph/graph_manager.py:256-260 | The sweep appends, in key order, exactly one scored path for each childless node it passes. It divides by zero exactly when the root is childless, stopping at the root's place with the earlier entries kept. When it completes, every childless node has an entry. |
| Manager.SweepOrder | Graph/graph_manager.py:256-260 | The loop of the sweep appends the scored paths of the childless ids it passes, in order, and stops at a childless root. |
| Manager.SweptIntoSnoc | Graph/graph_manager.py:257-260 | Scoring the next childless id of the order appends exactly its entry to the sweep. |
| Manager.SweptChildless | Graph/graph_manager.py:257-260 | Every entry a sweep appended is the scored path of a childless node. |
| Manager.SweptCovers | Graph/graph_manager.py:256-260 | A sweep over every id of the table appends an entry for each childless node other than the root. |
| Manager.PickBest | Graph/graph_manager.py:263 | After a complete sweep the answer is the path of the first best pool entry, and every childless node is in the pool. |
| Manager.RelabelKeepsTable | Graph/graph_manager.py:110-151 | Changing a node's hint or leaf flag keeps the manager's table invariant. |
| Manager.AcceptedKeepsTable | Graph/graph_manager.py:128-143 | An accepted candidate takes the next id, logs its state and joins the key order, keeping the invariant. |
| Manager.RejectedKeepsTable | Graph/graph_manager.py:128-147 | A rejected candidate uses up an id, logs its state and leaves its hint on the tip, keeping the invariant. |
| Manager.ChainFromKeepsTable | Graph/graph_manager.py:114-151 | The whole walk keeps the invariant, with the accepted ids appended to the key order and one logged state per evaluation. |
| Manager.GrownKeepsTable | Graph/graph_manager.py:134-141 | A gated tree grown by fresh ids, with the accepted ids appended to the order and the evaluated states logged, keeps the invariant. |
| Manager.PoolStable | Graph/graph_manager.py:242-260 | Growing the table leaves every pool entry the scored path it was. |
| Manager.ExpansionKeepsInvariant | Graph/graph_manager.py:67-151 | An expansion keeps the manager's invariant and every pool entry's score. |
| Manager.GraphManager.constructor | Graph/graph_manager.py:18-65 | Strips the prompt. The root takes the counter's id and holds the prior knowledge and the question. The table holds the root alone, listed by no parent; the log, the pool and the answer start empty. |
| Manager.GraphManager.ExpandNode | Graph/graph_manager.py:67-151 | One generator call, on the node's rendered path, the filtered observations, the step number and the hint. The table becomes `ChainFrom` over the deduplicated chain. One state is logged and one id used per evaluated candidate. |
| Manager.GraphManager.WalkedKeepsInvariant | Graph/graph_manager.py:109-151 | The walk of a chain keeps the table invariant and every pool entry's score, and only grows the table. |
| Manager.GraphManager.WalkedKeepsListed | Graph/graph_manager.py:130-141 | The walk of a chain keeps every node listed among its parent's children. |
| Manager.GraphManager.WalkChain | Graph/graph_manager.py:109-151 | The expanded node loses its leaf flag. The table becomes the `ChainFrom` walk over the candidates, evaluated until the first below the node threshold. One state is logged and one id used per evaluated candidate, the accepted ids join the key order, and the pool and answer are unchanged. |
| Manager.GraphManager.ConsiderCandidate | Graph/graph_manager.py:115-147 | One evaluation against the expanded node's path. The tip takes the hint and the state is logged. The candidate is attached exactly when its score reaches the node threshold. |
| Manager.GraphManager.EnqueueNodes | Graph/graph_manager.py:209-217 | The queue grows by the pending entries in table order, and the saturated set grows by the full nodes. |
| Manager.GraphManager.Solve | Graph/graph_manager.py:176-198 | A name other than the one registered algorithm, `search`, is refused and nothing changes. Otherwise the root is expanded, then `search` runs. An accepted path comes from the first popped leaf whose path scores above the path threshold: every earlier scored leaf was declined. A best-effort answer comes only after every scored leaf was declined. |
| Manager.GraphManager.Search | Graph/graph_manager.py:200-265 | At most `iteration_limit` pops, each acting as `Decide` says. An accepted path is the last popped leaf's path, strictly above the path threshold, and every earlier scored leaf was a non-root leaf whose path averaged at most the threshold. Otherwise every scored leaf was declined that way, and the answer is the first best pool path, with every childless node in the pool. The pool only grows. |
| Manager.GraphManager.PopLoop | Graph/graph_manager.py:231-254 | At most `iteration_limit` pops, each taking a least entry off the queue it found and acting on its node as `Decide` says. Stopping early without an answer means the queue ran empty. One generator call per expansion. Any answer is an accepted path or the division by zero of a root-only path, and every pop before the answering one declined the leaf it scored. Without an answer, every pop declined. |
| Manager.GraphManager.PopRound | Graph/graph_manager.py:231-254 | One turn of the loop: one more pop, from where the earlier pops led, recorded after them. A pop that gives no answer declined any leaf it scored: not the root, path average at most the path threshold. |
| Manager.GraphManager.PopNext | Graph/graph_manager.py:236-254 | Takes a least entry off the queue and looks its node up in the table as it stands. A leaf is scored, an expandable node expanded and enqueued again, anything else left alone. Without an answer, a scored leaf is not the root and its path averages at most the path threshold. |
| Manager.GraphManager.ActOn | Graph/graph_manager.py:241-254 | Acts on the popped node as decided. An expansion grows the table, then enqueues the pending entries and marks the full nodes. Any other action leaves the table, order, queue and set alone. Only scoring can answer. |
| Manager.GraphManager.ScoreLeafPop | Graph/graph_manager.py:241-249 | The root alone divides by zero. A path above the threshold becomes the final answer; any other path joins the pool with its score. |
| Manager.GraphManager.ExpandPop | Graph/graph_manager.py:251-254 | Expands the node, then enqueues again. Queued priorities stay faithful. |
| Manager.GraphManager.FinalSweep | Graph/graph_manager.py:256-260 | The sweep over the manager's table, in key order, as `SweepPool`: exactly one scored entry per childless node passed, stopping at a childless root. |
| Manager.GraphManager.Conclude | Graph/graph_manager.py:256-265 | A childless root divides by zero. Otherwise the pool gains exactly one entry per childless node, in key order. The answer is the first best pool entry's path, recorded as the final answer. |
| Text.LexLess | Graph/graph_manager.py:214 | Python's string `<`: a proper prefix comes before the longer text. |
| Text.LexLessIrreflexive | Graph/graph_manager.py:214 | No text is less than itself. |
| Text.LexLessTransitive | Graph/graph_manager.py:214 | String order is transitive. |
| Text.LexLessTotal | Graph/graph_manager.py:214 | Of two different texts one is less. |
| Queue.LessByPriority | Graph/graph_manager.py:214 | Tuple order compares priorities first; the id only breaks ties. |
| Queue.LessIrreflexive | Graph/graph_manager.py:214 | No entry is less than itself. |
| Queue.LessTransitive | Graph/graph_manager.py:214 | The order on `(priority, id)` entries is transitive. |
| Queue.LessTotal | Graph/graph_manager.py:214 | Any two different entries are ordered. |
| Queue.LeastIsUnique | Graph/graph_manager.py:236 | There is only one least entry. |
| Queue.MinIndex | Graph/graph_manager.py:236 | Finds an entry that no other entry is less than. |
| Queue.PriorityQueue.Put | Graph/graph_manager.py:214 | The entry is added to the queue's contents. |
| Queue.PriorityQueue.Get | Graph/graph_manager.py:236 | Removes and returns a least entry; the rest of the queue is unchanged as a multiset. |
| Queue.PriorityQueue.Empty | Graph/graph_manager.py:233 | True exactly when nothing is queued. |
| Evaluator.TailScores | Agents/evaluator.py:63-64 | The scores of the path after the root, in order. |
| Evaluator.EvaluatePath | Agents/evaluator.py:61-67 | The loop's result is the sum of the non-root scores divided by the path length minus one. |
| Evaluator.PathMeanIgnoresRoot | Agents/evaluator.py:63 | Replacing the root changes nothing. |
| Evaluator.PathMeanAtLeast | Agents/evaluator.py:61-67 | Non-root scores all at least `lo` give an average of at least `lo`. |
| Evaluator.PathMeanAtMost | Agents/evaluator.py:61-67 | Non-root scores all at most `hi` give an average of at most `hi`. |
| Parser.Without | Agents/parser.py:124 | `replace(c, '')` leaves no `c` and does not lengthen the text. |
| Parser.WithoutCounts | Agents/parser.py:124 | Every other character is kept as often as it occurred, and a text without `c` is unchanged. |
| Parser.WithoutConcat | Agents/parser.py:124 | Removing `c` from a concatenation removes it from each part in place, so the kept characters stay in order. |
| Parser.QuotesGone | Agents/parser.py:124 | After both `replace` calls neither quote is left. |
| Parser.NormalizeKey | Agents/parser.py:124 | A comparison key holds no quote and no capital letter, and has no white space at either end. |
| Text.TrimLeftSuffix | Agents/parser.py:124 | Trimming the front keeps a suffix that does not start with white space. |
| Text.TrimRightPrefix | Agents/parser.py:124 | Trimming the back keeps a prefix that does not end with white space. |
| Text.StripShape | Agents/parser.py:124 | `strip` gives an infix of the text with no white space at either end, and a text without white space at its ends is its own strip. |
| Text.StripAbsent | Agents/parser.py:124 | `strip` brings in no character that was not there. |
| Text.LowerShape | Agents/parser.py:124 | `lower` leaves no capital ASCII letter, keeps every other character in place, and changes a character only to a small letter. |
| Parser.FilterDuplicateThoughts | Agents/parser.py:109-130 | The loop keeps a record exactly when its normalised thought is new, as `Dedup` does. |
| Parser.DedupIsSubsequence | Agents/parser.py:122-128 | The output is a subsequence of the input, in the input's order, and no longer than it. |
| Parser.DedupDistinct | Agents/parser.py:124-128 | No two output records share a normalised thought. |
| Parser.DedupKeepsFirst | Agents/parser.py:119-128 | The first record carrying each normalised thought is kept. |
| Parser.DedupIdempotent | Agents/parser.py:109-130 | Filtering twice is filtering once. |
| Parser.ValidateDicts | Agents/parser.py:54-78 | False on an empty list; otherwise the verdict of the in-order scan. |
| Parser.ScanDecidedAtFirstStop | Agents/parser.py:62-77 | The first dict that lacks a key or holds 'Final Score' decides. It gives False for a missing key, else whether the score parses. |
| Parser.ScanTrueWithoutStop | Agents/parser.py:62-78 | When every dict has every key and none holds 'Final Score', the verdict is True. |
| Parser.LaterDictsUnchecked | Agents/parser.py:66-74 | Dicts after the first deciding one are never looked at. |
| Parser.MaxLength | Agents/parser.py:96 | The largest match count over the keys: no key has more, and some key has that many. |
| Parser.RowCells | Agents/parser.py:100 | A row has exactly the keys. Each holds the stripped match at that index, or `N/A` when the key has fewer matches. |
| Parser.AssembleRows | Agents/parser.py:99-101 | Builds as many rows as the largest match count, row i being the i-th comprehension row. |
| Parser.EveryRowHasAMatch | Agents/parser.py:96-101 | Every row holds a real match for at least one key. |
| Parser.ColumnReadsBack | Agents/parser.py:99-101 | Reading one key down the rows gives back its stripped matches, then `N/A`. |
| Text.NatToStringInjective | Graph/node.py:21 | Different counter values give different decimal texts. |
| Text.JoinStartsWithFirst | Graph/graph_manager.py:174 | A `'\n'.join` of lines starts with its first line. |

## Left out

- The language models and their clients (Agents/LLM.py, Agents/agent.py, Agents/generator.py, `Evaluator.evaluate`, `Parser.parse`) are the parameters `Generator` and `Judge`.
  - A generator answer is taken as already parsed into records.
  - An evaluator answer is taken as its 'Final Score' digits and its 'Hint'.
- The regular expressions and `re.findall` of `parse_output` are left out, because they are a foreign matcher: the match lists are an input.
- Its reparse through the model is left out, because it is a network call.
- `float()` in `validate_dicts` is the parameter `isNumber`, because it is a foreign numeric parser.
- Scores and thresholds are exact reals; floating-point rounding is not modelled.
- The networkx/pyvis graph (Graph/graph.py), `highlight_solution`, all `print` output and `tokens_count` are left out, because they do not affect the search.
  - `enqueue_nodes` walks the graph's node list, which mirrors the table in insertion order, so the model walks the key order.
- The final synthesis of an answer text by the generator in `solve` (Graph/graph_manager.py:192-194) is left out, because it is a model call: `Solve` returns the search outcome.
- The `ValueError` of `solve` and the `ZeroDivisionError` of `evaluate_path` are the outcomes `UnsupportedAlgorithm` and `ZeroDivisionError`, not exceptions.
  - The table keeps the state it had when the error arose.
- `queue.PriorityQueue` is modelled by what it returns, not as a heap.
- `lower` covers ASCII letters only, not all of Unicode. `strip` uses the white space set of Python's `str.isspace`.
- Python's shared node objects become table entries keyed by id.
  - A pool entry keeps the leaf's id and score instead of a list of node objects.
  - The path is rebuilt from the table when needed, which shows each node in its current state, as the shared objects do.
- Evaluator.EvaluatePath: requires a path of at least two nodes, because the source divides by zero on the root alone. The callers in the model take that case out first and report `ZeroDivisionError`.
- Manager.GraphManager.PopLoop: each recorded expansion says that the table grew (`Extends`) and that `enqueue_nodes` ran again. Which chain it grew by (`ExpandedFrom`) is stated for one pop by `PopNext`, `ActOn` and `ExpandPop`, not carried into the recorded trace, because doing so would need the generator's answers inside the trace.
- Tree.ListedByParent: holds for the table the constructor builds and is kept by every walk of `expand_node` (`WalkedKeepsListed`), but it is not part of `Valid`, so the method contracts of `search` do not carry it.
- Manager.GraphManager.Search: for `ZeroDivisionError` it states only that the root is a leaf or childless, not which of the two arose.
- The default arguments of `search` (`iteration_limit=50`, `down_up=True`, Graph/graph_manager.py:200) are left out: `Search` and `Solve` take both as explicit parameters.
