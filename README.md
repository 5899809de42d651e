# graph_match in Dafny

A model of the core of `graph_match`, a small Rust library that answers whether
a query graph appears inside a larger graph. It has two parts.

- **The arena graph** (`src/graph.rs`; `src/lib.rs` holds the same code).
  - A graph owns a vector of nodes and a vector of edges, and refers to both by index.
  - `add_node` appends a node with no outgoing edge.
  - `add_edge` appends an edge and *prepends* it to its source node's singly linked chain.
    The new edge keeps the old chain head in `next_outgoing_edge`, and it becomes the new `first_outgoing_edge`.
  - The `Successors` iterator walks one chain, so a node's successors come out newest first.
- **The matcher** `recusive_node_match` (`src/matching.rs`).
  - It checks that the two root nodes match.
  - It then takes the *first* outgoing edge of the query root and commits to the first graph edge that matches it.
  - It recurses on the two edge targets, with no backtracking.

Files:

- `wrappers.dfy`: `Option`.
- `arena.dfy`, module `Arena`:
  - the chain walk `EdgeChain` and the successor function `SuccessorsOf`, on plain sequences, with their lemmas;
  - the classes `Graph` and `Successors`, which keep the source's fields and in-place updates.
  - The ghost field `Graph.successorLists` is the public view: what `successors(n)` yields for each node `n`.
    `Graph.Valid()` ties it to `SuccessorsOf`.
- `arena_tests.dfy`, module `ArenaTests`: the inline tests of both files, as client methods. Their postconditions are the values the tests assert; for `it_works`, which asserts nothing, they are the successor lists that `g.print()` would print.
- `matching.dfy`, module `Matching`:
  - the attributed `Node`/`Edge` records of `src/node.rs` and `src/edge.rs`;
  - `edges_for_node`, modelled as the same chain walk;
  - the matcher as the function `NodeMatch` and as the method `RecursiveNodeMatch`, which has the source's loops;
  - the lemmas about the matcher's behaviour.
- `matching_examples.dfy`, module `MatchingExamples`: three concrete lemmas. They show the lack of backtracking, the ignored later query edges, and a cyclic query the matcher answers.

Parameters and preconditions of the matcher:

- `Node::matches` and `Edge::matches` are not part of this model. They are a parameter `m: Matcher` holding two arbitrary functions. Every property holds for every choice of them, except `OnlyFirstQueryEdgeMatters`, which needs `IgnoresChainLinks`.
- The source recurses with no visited set, so it recurses without bound where the pairs it visits cycle. The model therefore takes a ghost bound `depth` and the precondition `RecursionBounded`: the recursion the matcher actually runs from the two roots stops within `depth` levels.
  - The recursion stops at a pair whose nodes do not match, at a query node without outgoing edges, or where no graph edge matches.
  - A query with a cycle is therefore inside the model wherever the matcher stops on it (`StopsNeedNoBound`, `CyclicQueryExample`).
  - `DepthIrrelevant` shows that the bound does not affect the result.
- The model requires both graphs to be `WellFormed`.
  - Their chain fields must satisfy the arena's chain invariant, which `Arena.Graph.Valid()` keeps, and every edge target must be an existing node. `WellFormed` is defined as exactly these two conditions.
  - Graphs built only through `add_node`/`add_edge` with in-range targets have both properties. `add_edge` itself does not check its target.

## Model

| member | source | states |
|---|---|---|
| Arena.Graph.constructor | src/graph.rs:80 | the empty graph `Graph { nodes: vec![], edges: vec![] }` satisfies the chain invariant and has no successor lists |
| Arena.Graph.AddNode | src/graph.rs:9-13 | returns the previous node count; appends exactly `NodeData(None)`; `edges` unchanged; the new node's successor list is empty and every other list is unchanged; the chain invariant is kept (src/lib.rs:9-13 is the same code) |
| Arena.Graph.AddEdge | src/graph.rs:15-23 | requires `source < |nodes|`, where the source panics otherwise; `target` is stored unchecked. Appends exactly one edge, at index `old |edges|`, linking to the old chain head. Changes only `nodes[source]`, which now points at the new edge. `successors(source)` becomes `[target] + old successors(source)`, every other node's successors are unchanged, and the chain invariant is kept (src/lib.rs:15-23 is the same code) |
| Arena.AddNodeStep | src/graph.rs:9-13 | on the vectors alone: appending a node without edges keeps the chain invariant, the new node has no successors, and old nodes keep theirs |
| Arena.AddEdgeStep | src/graph.rs:16-22 | on the vectors alone: after the push and head overwrite, the chain invariant holds; `source`'s chain is the new edge followed by its old chain; its successors gain `target` at the front; all other nodes keep their successors |
| Arena.ChainUnchangedByPush | src/lib.rs:16-22 | appending an edge whose link points to an existing edge keeps links pointing backwards and leaves every existing chain unchanged |
| Arena.EdgeChain | src/graph.rs:63-71 | the walk from a cursor is empty exactly at `None`, starts at the cursor, and stays within `edges`; it terminates because links point to strictly earlier edges |
| Arena.EdgeChainFollowsLinks | src/graph.rs:66-68 | the walk is exactly the linked list: each listed edge's `next_outgoing_edge` is the next listed edge, and the last one's is `None` |
| Arena.EdgeChainDecreasing | src/lib.rs:52-61 | the walk visits strictly decreasing edge indices: newest first, and never the same edge twice |
| Arena.Graph.Successors | src/graph.rs:25-28 | returns a fresh iterator positioned on `source`'s chain, whose remaining output is exactly `successors(source)` |
| Arena.Successors.Next | src/graph.rs:63-72 | on an exhausted chain returns `None` and stays exhausted; otherwise returns `Some` of the head of the remaining targets and drops that head; the iterator's invariant is kept (src/lib.rs:52-61 is the same code) |
| ArenaTests.CollectSuccessors | src/graph.rs:118-125 | draining a fresh iterator with `loop { match next() }` collects exactly the node's successor list |
| ArenaTests.CreateSmallGraph | src/graph.rs:79-91 | `create_small_graph`: 2 nodes, 1 edge, and node 0's head edge targets node 1 |
| ArenaTests.CreateListGraph | src/graph.rs:94-109 | `create_list_graph`: the edge vector lists targets `[1, 2, 3]` in insertion order |
| ArenaTests.ListNodeEdges | src/graph.rs:112-127 | `list_node_edges`: three self-loops on node 0 give successors `[0, 0, 0]` |
| ArenaTests.ItWorks | src/lib.rs:79-88 | after the `it_works` edges, the successors of nodes 0, 1, 2, 3 are `[2, 1]`, `[]`, `[3, 1]`, `[]` (newest first) |
| Arena.SuccessorsOf | src/graph.rs:25-28 | what `successors(source)` yields: the targets along `source`'s chain, empty exactly when the node has no first edge, and headed by the target of that first edge |
| Matching.EdgesForNode | src/node.rs:9 | `edges_for_node` is the chain walk from `first_outgoing_edge`. It is empty exactly when the node has no first edge, it starts at that edge, and it lists existing edges |
| Matching.FirstMatchingEdge | src/matching.rs:15-21 | the scan as a function over the candidate list; a chosen edge exists and matches the query edge |
| Matching.FirstMatchingEdgeIsFirst | src/matching.rs:15-21 | the scan yields `None` exactly when no candidate matches; otherwise it yields the earliest candidate that matches, and no candidate before it matches |
| Matching.ScanForMatchingEdge | src/matching.rs:14-21 | the inner `for`/`break` loop computes that first matching graph edge |
| Matching.NextPair | src/matching.rs:10-21 | where the matcher goes next: a query leaf exactly when the query node has no outgoing edge; otherwise the first query edge and, if one matches it, the graph edge the scan chose, which matches it |
| Matching.NodeMatch | src/matching.rs:4-38 | the value of `recusive_node_match` as a recursive function following the source's branches; `true` only when the roots match, and at a query leaf exactly when they do |
| Matching.RecursiveNodeMatch | src/matching.rs:4-38 | the source's control flow, including the outer loop whose body always returns; the result equals `NodeMatch` |
| Matching.RootAndLeafCases | src/matching.rs:7-12 | mismatched roots give `false`; matching roots with a leaf query root give `true`; no graph edge matching the first query edge gives `false` |
| Matching.StopsNeedNoBound | src/matching.rs:7-12 | where the matcher stops at once (mismatched roots, query leaf, no matching graph edge) every query is admitted, cyclic ones included |
| Matching.NoBacktracking | src/matching.rs:22-34 | once the first matching graph edge is chosen, matching roots give exactly the result of the recursive call through that edge, whatever later graph edges would give |
| Matching.DepthIrrelevant | src/matching.rs:25-29 | the result does not depend on the ghost recursion bound |
| Matching.MatchIffPathMatches | src/matching.rs:7-29 | `true` exactly when every pair along the greedy path matches and the path ends at a query node with no outgoing edge. The greedy path follows first query edges and first matching graph edges |
| Matching.TargetCheckRedundant | src/matching.rs:24-31 | the result equals that of the matcher without the target check at line 24, because the recursive call checks the same pair first |
| Matching.OnlyFirstQueryEdgeMatters | src/matching.rs:14-37 | cutting every query edge off from the older edges behind it changes nothing, so only the first query edge of each node affects the result (for an edge matcher that ignores chain links) |
| Matching.FirstEdgesOnlyEdges | src/edge.rs:10 | in the cut-down query each node's edge list is the head of its original list |
| MatchingExamples.NoBacktrackingExample | src/matching.rs:15-33 | a graph containing `a -e-> b` through its older edge is rejected, because the newer edge `e` leads to `c` |
| MatchingExamples.LaterQueryEdgeIgnoredExample | src/matching.rs:14-37 | a query whose older edge `x` has no counterpart in the graph is still accepted |
| MatchingExamples.CyclicQueryExample | src/matching.rs:7-9 | a query whose node has an edge to itself is admitted and rejected both by a mismatched root and by a graph root with no matching edge |

## Left out

- `Graph::print` (src/graph.rs:30-41, src/lib.rs:30-41) and the printing at the end of `it_works`: both write to stdout.
- `Node::matches`, `Edge::matches` and `Graph::edges_for_node` are not part of this model.
  - `matches` is an arbitrary parameter; no attribute semantics are assumed.
  - `edges_for_node` is modelled as the walk along `first_outgoing_edge`/`next_outgoing_edge`, in chain order.
- `match_graph`, `expand_subgraph`, the matched-component types and the `add_node(identifier, attributes)` signature used by the integration tests are not part of this model.
- Matching.NodeMatch: does not model divergence. It requires `RecursionBounded`, and the inputs on which the source would recurse without bound are outside the model.
- Matching.RecursiveNodeMatch: requires both graphs to be `WellFormed` as a whole. The source reads only the nodes and edges it visits. A graph that breaks the chain invariant or holds an out-of-range target where the matcher never looks is outside the model, though the source answers on it. On the chains the matcher walks, an out-of-range index makes the source panic and a cyclic chain makes it loop. A forward link that does neither, such as an in-range `next_outgoing_edge` pointing to a later edge, is answered by the source, yet `WellFormed` still excludes it.
- Matching.RecursiveNodeMatch: requires `q < |query.nodes|` and `g < |graph.nodes|`; the source panics at src/matching.rs:7 otherwise.
- Matching.OnlyFirstQueryEdgeMatters: stated for edge matchers that ignore the chain link `next_outgoing_edge` of the query edge. The matcher can see that field, and cutting the chain changes it.
- Arena.Graph.AddEdge: does not model the panic on an out-of-range `source`; it requires `source < |nodes|`.
- Arena.Graph.Successors: does not model the panic on an out-of-range `source` at src/graph.rs:26; it requires `source < |nodes|`.
- Indices are unbounded naturals: `usize` overflow of the vector lengths is not modelled.
- Lifetimes, borrowing and the `Iterator` trait are not modelled. The iterator is a class holding a reference to the graph and a cursor, and the matcher reads both graphs as immutable values, so it changes neither.
- The `create_list_graph` test moves `graph.edges` out of the graph. `ArenaTests.CreateListGraph` reads a copy of the sequence instead.
