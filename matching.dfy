/**
 * `recusive_node_match` of src/matching.rs over the attributed graphs of
 * src/node.rs and src/edge.rs.
 *
 * The matcher reads two graphs and never changes them, so here they are
 * immutable values.  `Node::matches` and `Edge::matches` are not part of
 * this model; they are parameters (a `Matcher`), and every result holds for
 * every choice of them, except `OnlyFirstQueryEdgeMatters` and its helpers,
 * which need `IgnoresChainLinks`.
 */
module Matching {
  import opened Wrappers
  import Arena

  type NodeIndex = Arena.NodeIndex
  type EdgeIndex = Arena.EdgeIndex
  type Attributes = Option<map<string, string>>

  /** src/node.rs */
  datatype Node = Node(identifier: string, attributes: Attributes, firstOutgoingEdge: Option<EdgeIndex>)

  /** src/edge.rs */
  datatype Edge = Edge(identifier: string, target: NodeIndex, attributes: Attributes,
                       nextOutgoingEdge: Option<EdgeIndex>)

  datatype Graph = Graph(nodes: seq<Node>, edges: seq<Edge>)

  /** `query_element.matches(&graph_element)`, for nodes and for edges. */
  datatype Matcher = Matcher(node: (Node, Node) -> bool, edge: (Edge, Edge) -> bool)

  /** The chain fields of a graph's edges, as the arena stores them. */
  function EdgeLinks(edges: seq<Edge>): seq<Arena.EdgeData> {
    seq(|edges|, e requires 0 <= e < |edges| => Arena.EdgeData(edges[e].target, edges[e].nextOutgoingEdge))
  }

  /** The chain heads of a graph's nodes, as the arena stores them. */
  function NodeLinks(nodes: seq<Node>): seq<Arena.NodeData> {
    seq(|nodes|, n requires 0 <= n < |nodes| => Arena.NodeData(nodes[n].firstOutgoingEdge))
  }

  /**
   * The graph's chain fields satisfy the arena's chain invariant, the one
   * `Arena.Graph.Valid()` keeps, and every edge target names an existing
   * node, which `add_edge` does not check.
   */
  predicate WellFormed(g: Graph) {
    && Arena.ChainInvariant(NodeLinks(g.nodes), EdgeLinks(g.edges))
    && (forall e :: 0 <= e < |g.edges| ==> g.edges[e].target < |g.nodes|)
  }

  /**
   * `edges_for_node`: the node's outgoing edges, walked along its chain from
   * `first_outgoing_edge` through `next_outgoing_edge`, newest first.
   */
  function EdgesForNode(g: Graph, n: NodeIndex): (r: seq<EdgeIndex>)
    requires WellFormed(g) && n < |g.nodes|
    ensures forall i :: 0 <= i < |r| ==> r[i] < |g.edges|
    ensures r == [] <==> g.nodes[n].firstOutgoingEdge.None?
    ensures r != [] ==> Some(r[0]) == g.nodes[n].firstOutgoingEdge
  {
    assert NodeLinks(g.nodes)[n].firstOutgoingEdge == g.nodes[n].firstOutgoingEdge;
    Arena.EdgeChain(EdgeLinks(g.edges), g.nodes[n].firstOutgoingEdge)
  }

  /**
   * The scan of src/matching.rs:15-21: the first graph edge, in the order of
   * `candidates`, that the query edge matches, or `None` if it matches none
   * (`FirstMatchingEdgeIsFirst`).
   */
  function FirstMatchingEdge(m: Matcher, query: Graph, graph: Graph, queryEdge: EdgeIndex,
                             candidates: seq<EdgeIndex>): (r: Option<EdgeIndex>)
    requires queryEdge < |query.edges|
    requires forall i :: 0 <= i < |candidates| ==> candidates[i] < |graph.edges|
    ensures r.Some? ==> r.value < |graph.edges| && m.edge(query.edges[queryEdge], graph.edges[r.value])
  {
    if candidates == [] then None
    else if m.edge(query.edges[queryEdge], graph.edges[candidates[0]]) then Some(candidates[0])
    else FirstMatchingEdge(m, query, graph, queryEdge, candidates[1..])
  }

  /** `None` exactly when no candidate matches; otherwise the earliest candidate that matches. */
  lemma {:induction false} FirstMatchingEdgeIsFirst(m: Matcher, query: Graph, graph: Graph, queryEdge: EdgeIndex,
                                                    candidates: seq<EdgeIndex>)
    requires queryEdge < |query.edges|
    requires forall i :: 0 <= i < |candidates| ==> candidates[i] < |graph.edges|
    ensures var r := FirstMatchingEdge(m, query, graph, queryEdge, candidates);
      && (r.None? <==>
          forall i :: 0 <= i < |candidates| ==> !m.edge(query.edges[queryEdge], graph.edges[candidates[i]]))
      && (r.Some? ==>
          exists k :: 0 <= k < |candidates| && candidates[k] == r.value
            && m.edge(query.edges[queryEdge], graph.edges[candidates[k]])
            && forall j :: 0 <= j < k ==> !m.edge(query.edges[queryEdge], graph.edges[candidates[j]]))
  {
    if candidates != [] && !m.edge(query.edges[queryEdge], graph.edges[candidates[0]]) {
      var rest := candidates[1..];
      FirstMatchingEdgeIsFirst(m, query, graph, queryEdge, rest);
      var r := FirstMatchingEdge(m, query, graph, queryEdge, rest);
      if r.Some? {
        var k :| 0 <= k < |rest| && rest[k] == r.value
          && m.edge(query.edges[queryEdge], graph.edges[rest[k]])
          && forall j :: 0 <= j < k ==> !m.edge(query.edges[queryEdge], graph.edges[rest[j]]);
        assert candidates[k + 1] == rest[k];
        forall j | 0 <= j < k + 1 ensures !m.edge(query.edges[queryEdge], graph.edges[candidates[j]]) {
          if j > 0 { assert candidates[j] == rest[j - 1]; }
        }
      } else {
        forall i | 0 <= i < |candidates| ensures !m.edge(query.edges[queryEdge], graph.edges[candidates[i]]) {
          if i > 0 { assert candidates[i] == rest[i - 1]; }
        }
      }
    }
  }

  /** Where the matcher goes from a pair of roots whose nodes match. */
  datatype Descent =
    | QueryLeaf                                         // the query node has no outgoing edge
    | NoMatchingEdge                                    // no graph edge matches the first query edge
    | Descend(queryEdge: EdgeIndex, graphEdge: EdgeIndex) // the first query edge and its first match

  /** src/matching.rs:10-21: the first query edge and the first graph edge that matches it. */
  function NextPair(m: Matcher, query: Graph, graph: Graph, q: NodeIndex, g: NodeIndex): (d: Descent)
    requires WellFormed(query) && WellFormed(graph) && q < |query.nodes| && g < |graph.nodes|
    ensures d == QueryLeaf <==> EdgesForNode(query, q) == []
    ensures d.Descend? ==> d.queryEdge == EdgesForNode(query, q)[0] && d.graphEdge < |graph.edges|
    ensures d.Descend? ==> m.edge(query.edges[d.queryEdge], graph.edges[d.graphEdge])
  {
    var queryEdges := EdgesForNode(query, q);
    if queryEdges == [] then QueryLeaf
    else
      match FirstMatchingEdge(m, query, graph, queryEdges[0], EdgesForNode(graph, g))
      case None => NoMatchingEdge
      case Some(graphEdge) => Descend(queryEdges[0], graphEdge)
  }

  /** The roots match and the matcher goes on to the targets of a chosen pair of edges. */
  predicate Advances(m: Matcher, query: Graph, graph: Graph, q: NodeIndex, g: NodeIndex)
    requires WellFormed(query) && WellFormed(graph) && q < |query.nodes| && g < |graph.nodes|
  {
    m.node(query.nodes[q], graph.nodes[g]) && NextPair(m, query, graph, q, g).Descend?
  }

  /**
   * The recursion that the matcher runs from `(q, g)` stops within `depth`
   * levels: at a pair whose nodes do not match, at a query node with no
   * outgoing edge, or where no graph edge matches.  The source has no
   * visited set, so where these pairs cycle it recurses without bound.
   */
  predicate RecursionBounded(m: Matcher, query: Graph, graph: Graph, q: NodeIndex, g: NodeIndex, depth: nat)
    requires WellFormed(query) && WellFormed(graph) && q < |query.nodes| && g < |graph.nodes|
    decreases depth
  {
    !Advances(m, query, graph, q, g) ||
    (var d := NextPair(m, query, graph, q, g);
     depth > 0 &&
     RecursionBounded(m, query, graph, query.edges[d.queryEdge].target, graph.edges[d.graphEdge].target, depth - 1))
  }

  /** The precondition the matcher shares with every function about it. */
  predicate MatchArguments(m: Matcher, query: Graph, graph: Graph, q: NodeIndex, g: NodeIndex, depth: nat) {
    && WellFormed(query) && WellFormed(graph)
    && q < |query.nodes| && g < |graph.nodes|
    && RecursionBounded(m, query, graph, q, g, depth)
  }

  /** The arguments of the recursive call are in range, and the bound shrinks. */
  lemma DescendArguments(m: Matcher, query: Graph, graph: Graph, q: NodeIndex, g: NodeIndex, depth: nat)
    requires MatchArguments(m, query, graph, q, g, depth) && Advances(m, query, graph, q, g)
    ensures var d := NextPair(m, query, graph, q, g);
      depth > 0 &&
      MatchArguments(m, query, graph, query.edges[d.queryEdge].target, graph.edges[d.graphEdge].target, depth - 1)
  {
  }

  /** What `recusive_node_match(q, g, query, graph)` returns. */
  function NodeMatch(m: Matcher, query: Graph, graph: Graph, q: NodeIndex, g: NodeIndex, ghost depth: nat): (b: bool)
    requires MatchArguments(m, query, graph, q, g, depth)
    ensures b ==> m.node(query.nodes[q], graph.nodes[g])
    ensures EdgesForNode(query, q) == [] ==> (b <==> m.node(query.nodes[q], graph.nodes[g]))
    decreases depth
  {
    if !m.node(query.nodes[q], graph.nodes[g]) then false
    else
      match NextPair(m, query, graph, q, g)
      case QueryLeaf => true
      case NoMatchingEdge => false
      case Descend(queryEdge, graphEdge) =>
        DescendArguments(m, query, graph, q, g, depth);
        var queryTarget, graphTarget := query.edges[queryEdge].target, graph.edges[graphEdge].target;
        if m.node(query.nodes[queryTarget], graph.nodes[graphTarget])
        then NodeMatch(m, query, graph, queryTarget, graphTarget, depth - 1)
        else false
  }

  /** One step of the matcher: from matching roots, the result is the recursive call at the chosen targets. */
  lemma NodeMatchStep(m: Matcher, query: Graph, graph: Graph, q: NodeIndex, g: NodeIndex, depth: nat)
    requires MatchArguments(m, query, graph, q, g, depth) && Advances(m, query, graph, q, g)
    ensures var d := NextPair(m, query, graph, q, g);
      var queryTarget, graphTarget := query.edges[d.queryEdge].target, graph.edges[d.graphEdge].target;
      depth > 0 && MatchArguments(m, query, graph, queryTarget, graphTarget, depth - 1) &&
      NodeMatch(m, query, graph, q, g, depth) == NodeMatch(m, query, graph, queryTarget, graphTarget, depth - 1)
  {
    DescendArguments(m, query, graph, q, g, depth);
  }

  /** The `for ... { if ... { ...; break; } }` scan of src/matching.rs:15-21. */
  method ScanForMatchingEdge(m: Matcher, query: Graph, graph: Graph, queryEdgeIndex: EdgeIndex,
                             graphEdges: seq<EdgeIndex>) returns (matchingEdgeInGraph: Option<EdgeIndex>)
    requires queryEdgeIndex < |query.edges|
    requires forall i :: 0 <= i < |graphEdges| ==> graphEdges[i] < |graph.edges|
    ensures matchingEdgeInGraph == FirstMatchingEdge(m, query, graph, queryEdgeIndex, graphEdges)
  {
    matchingEdgeInGraph := None;
    var j := 0;
    while j < |graphEdges|
      invariant 0 <= j <= |graphEdges|
      invariant FirstMatchingEdge(m, query, graph, queryEdgeIndex, graphEdges)
             == FirstMatchingEdge(m, query, graph, queryEdgeIndex, graphEdges[j..])
    {
      if m.edge(query.edges[queryEdgeIndex], graph.edges[graphEdges[j]]) {
        matchingEdgeInGraph := Some(graphEdges[j]);
        break;
      }
      assert graphEdges[j..][1..] == graphEdges[j + 1..];
      j := j + 1;
    }
  }

  /**
   * `recusive_node_match`, with the source's loop over the query edges: its
   * body returns on every path, so it runs at most once and the final
   * `return true` is unreachable.
   */
  method RecursiveNodeMatch(m: Matcher, q: NodeIndex, g: NodeIndex, query: Graph, graph: Graph, ghost depth: nat)
    returns (b: bool)
    requires MatchArguments(m, query, graph, q, g, depth)
    ensures b == NodeMatch(m, query, graph, q, g, depth)
    decreases depth
  {
    if !m.node(query.nodes[q], graph.nodes[g]) {
      return false;
    }
    var queryEdges := EdgesForNode(query, q);
    if |queryEdges| == 0 {
      return true;
    }
    for i := 0 to |queryEdges|
      invariant i == 0
    {
      var queryEdgeIndex := queryEdges[i];
      var matchingEdgeInGraph := ScanForMatchingEdge(m, query, graph, queryEdgeIndex, EdgesForNode(graph, g));
      match matchingEdgeInGraph {
        case Some(edge) =>
          assert NextPair(m, query, graph, q, g) == Descend(queryEdgeIndex, edge);
          NodeMatchStep(m, query, graph, q, g, depth);
          var queryTarget := query.edges[queryEdgeIndex].target;
          if m.node(query.nodes[queryTarget], graph.nodes[graph.edges[edge].target]) {
            b := RecursiveNodeMatch(m, queryTarget, graph.edges[matchingEdgeInGraph.value].target, query, graph, depth - 1);
            return;
          } else {
            return false;
          }
        case None =>
          return false;
      }
    }
    assert false;
    return true;
  }

  /** The immediate outcomes: mismatched roots fail, a leaf query succeeds, no candidate edge fails. */
  lemma RootAndLeafCases(m: Matcher, query: Graph, graph: Graph, q: NodeIndex, g: NodeIndex, depth: nat)
    requires MatchArguments(m, query, graph, q, g, depth)
    ensures !m.node(query.nodes[q], graph.nodes[g]) ==> !NodeMatch(m, query, graph, q, g, depth)
    ensures m.node(query.nodes[q], graph.nodes[g]) && EdgesForNode(query, q) == [] ==>
      NodeMatch(m, query, graph, q, g, depth)
    ensures (EdgesForNode(query, q) != [] &&
             FirstMatchingEdge(m, query, graph, EdgesForNode(query, q)[0], EdgesForNode(graph, g)) == None)
      ==> !NodeMatch(m, query, graph, q, g, depth)
  {
  }

  /** The three immediate outcomes need no bound on the recursion: depth 0 admits them for every query. */
  lemma StopsNeedNoBound(m: Matcher, query: Graph, graph: Graph, q: NodeIndex, g: NodeIndex)
    requires WellFormed(query) && WellFormed(graph) && q < |query.nodes| && g < |graph.nodes|
    requires !m.node(query.nodes[q], graph.nodes[g]) || EdgesForNode(query, q) == [] ||
             FirstMatchingEdge(m, query, graph, EdgesForNode(query, q)[0], EdgesForNode(graph, g)) == None
    ensures MatchArguments(m, query, graph, q, g, 0)
  {
  }

  /**
   * No backtracking: once the scan has picked `edge`, the first graph edge
   * that matches the first query edge, matching roots give exactly the
   * result of the recursive call through `edge`, however many later graph
   * edges would also match.
   */
  lemma NoBacktracking(m: Matcher, query: Graph, graph: Graph, q: NodeIndex, g: NodeIndex, depth: nat,
                       edge: EdgeIndex)
    requires MatchArguments(m, query, graph, q, g, depth)
    requires EdgesForNode(query, q) != []
    requires FirstMatchingEdge(m, query, graph, EdgesForNode(query, q)[0], EdgesForNode(graph, g)) == Some(edge)
    ensures edge < |graph.edges|
    ensures var queryTarget := query.edges[EdgesForNode(query, q)[0]].target;
      m.node(query.nodes[q], graph.nodes[g]) ==>
        depth > 0 && MatchArguments(m, query, graph, queryTarget, graph.edges[edge].target, depth - 1) &&
        NodeMatch(m, query, graph, q, g, depth) ==
          NodeMatch(m, query, graph, queryTarget, graph.edges[edge].target, depth - 1)
  {
    assert NextPair(m, query, graph, q, g) == Descend(EdgesForNode(query, q)[0], edge);
    if m.node(query.nodes[q], graph.nodes[g]) {
      NodeMatchStep(m, query, graph, q, g, depth);
    }
  }

  /** The ghost bound only licenses the recursion; it does not change the result. */
  lemma {:induction false} DepthIrrelevant(m: Matcher, query: Graph, graph: Graph, q: NodeIndex, g: NodeIndex,
                                           depth: nat, depth': nat)
    requires MatchArguments(m, query, graph, q, g, depth) && MatchArguments(m, query, graph, q, g, depth')
    ensures NodeMatch(m, query, graph, q, g, depth) == NodeMatch(m, query, graph, q, g, depth')
    decreases depth
  {
    if Advances(m, query, graph, q, g) {
      var d := NextPair(m, query, graph, q, g);
      NodeMatchStep(m, query, graph, q, g, depth);
      NodeMatchStep(m, query, graph, q, g, depth');
      DepthIrrelevant(m, query, graph, query.edges[d.queryEdge].target, graph.edges[d.graphEdge].target,
                      depth - 1, depth' - 1);
    }
  }

  /**
   * The pairs (query node, graph node) whose nodes the matcher compares: it
   * follows the first query edge and the first graph edge that matches it,
   * and stops at a pair that does not match, at a query leaf or when no
   * graph edge matches.
   */
  function GreedyPath(m: Matcher, query: Graph, graph: Graph, q: NodeIndex, g: NodeIndex, ghost depth: nat)
    : (path: seq<(NodeIndex, NodeIndex)>)
    requires MatchArguments(m, query, graph, q, g, depth)
    ensures |path| >= 1 && path[0] == (q, g)
    ensures forall i :: 0 <= i < |path| ==> path[i].0 < |query.nodes| && path[i].1 < |graph.nodes|
    decreases depth
  {
    if Advances(m, query, graph, q, g) then
      var d := NextPair(m, query, graph, q, g);
      DescendArguments(m, query, graph, q, g, depth);
      [(q, g)] + GreedyPath(m, query, graph, query.edges[d.queryEdge].target, graph.edges[d.graphEdge].target, depth - 1)
    else
      [(q, g)]
  }

  /** From matching roots the greedy path takes one step to the chosen targets. */
  lemma GreedyPathStep(m: Matcher, query: Graph, graph: Graph, q: NodeIndex, g: NodeIndex, depth: nat)
    requires MatchArguments(m, query, graph, q, g, depth) && Advances(m, query, graph, q, g)
    ensures var d := NextPair(m, query, graph, q, g);
      var queryTarget, graphTarget := query.edges[d.queryEdge].target, graph.edges[d.graphEdge].target;
      depth > 0 && MatchArguments(m, query, graph, queryTarget, graphTarget, depth - 1) &&
      GreedyPath(m, query, graph, q, g, depth) == [(q, g)] + GreedyPath(m, query, graph, queryTarget, graphTarget, depth - 1)
  {
    DescendArguments(m, query, graph, q, g, depth);
  }

  /** Every pair on the path is a pair of matching nodes. */
  predicate AllPairsMatch(m: Matcher, query: Graph, graph: Graph, path: seq<(NodeIndex, NodeIndex)>)
    requires forall i :: 0 <= i < |path| ==> path[i].0 < |query.nodes| && path[i].1 < |graph.nodes|
  {
    forall i :: 0 <= i < |path| ==> m.node(query.nodes[path[i].0], graph.nodes[path[i].1])
  }

  lemma LastOfCons<T>(x: T, s: seq<T>)
    requires s != []
    ensures ([x] + s)[|[x] + s| - 1] == s[|s| - 1]
  {
  }

  /** A path with one more pair in front matches when that pair and the rest match. */
  lemma AllPairsMatchCons(m: Matcher, query: Graph, graph: Graph, pair: (NodeIndex, NodeIndex),
                          rest: seq<(NodeIndex, NodeIndex)>)
    requires pair.0 < |query.nodes| && pair.1 < |graph.nodes|
    requires forall i :: 0 <= i < |rest| ==> rest[i].0 < |query.nodes| && rest[i].1 < |graph.nodes|
    ensures AllPairsMatch(m, query, graph, [pair] + rest) <==>
      m.node(query.nodes[pair.0], graph.nodes[pair.1]) && AllPairsMatch(m, query, graph, rest)
  {
    var path := [pair] + rest;
    if AllPairsMatch(m, query, graph, path) {
      assert m.node(query.nodes[path[0].0], graph.nodes[path[0].1]);
      forall i | 0 <= i < |rest| ensures m.node(query.nodes[rest[i].0], graph.nodes[rest[i].1]) {
        assert rest[i] == path[i + 1];
      }
    }
  }

  /** The step of `MatchIffPathAtStep` on the paths alone, away from the recursive definitions. */
  lemma PathCons(m: Matcher, query: Graph, graph: Graph, pair: (NodeIndex, NodeIndex),
                 rest: seq<(NodeIndex, NodeIndex)>, matches: bool, restMatches: bool)
    requires pair.0 < |query.nodes| && pair.1 < |graph.nodes| && rest != []
    requires forall i :: 0 <= i < |rest| ==> rest[i].0 < |query.nodes| && rest[i].1 < |graph.nodes|
    requires matches == (m.node(query.nodes[pair.0], graph.nodes[pair.1]) && restMatches)
    requires restMatches <==>
      AllPairsMatch(m, query, graph, rest) && query.nodes[rest[|rest| - 1].0].firstOutgoingEdge.None?
    ensures var path := [pair] + rest;
      (forall i :: 0 <= i < |path| ==> path[i].0 < |query.nodes| && path[i].1 < |graph.nodes|) &&
      (matches <==>
         AllPairsMatch(m, query, graph, path) && query.nodes[path[|path| - 1].0].firstOutgoingEdge.None?)
  {
    AllPairsMatchCons(m, query, graph, pair, rest);
    LastOfCons(pair, rest);
  }

  /** The statement of `MatchIffPathMatches` for one pair of roots. */
  predicate MatchIffPath(m: Matcher, query: Graph, graph: Graph, q: NodeIndex, g: NodeIndex, depth: nat)
    requires MatchArguments(m, query, graph, q, g, depth)
  {
    var path := GreedyPath(m, query, graph, q, g, depth);
    NodeMatch(m, query, graph, q, g, depth) <==>
      AllPairsMatch(m, query, graph, path) && query.nodes[path[|path| - 1].0].firstOutgoingEdge.None?
  }

  /** Where the greedy path stops at once, the statement holds outright. */
  lemma MatchIffPathAtStop(m: Matcher, query: Graph, graph: Graph, q: NodeIndex, g: NodeIndex, depth: nat)
    requires MatchArguments(m, query, graph, q, g, depth) && !Advances(m, query, graph, q, g)
    ensures MatchIffPath(m, query, graph, q, g, depth)
  {
    assert GreedyPath(m, query, graph, q, g, depth) == [(q, g)];
    AllPairsMatchCons(m, query, graph, (q, g), []);
  }

  /** Where the greedy path takes a step, the statement carries over from the next pair. */
  lemma {:induction false} MatchIffPathAtStep(m: Matcher, query: Graph, graph: Graph, q: NodeIndex, g: NodeIndex,
                                              depth: nat)
    requires MatchArguments(m, query, graph, q, g, depth) && Advances(m, query, graph, q, g)
    ensures MatchIffPath(m, query, graph, q, g, depth)
    decreases depth, 0
  {
    var d := NextPair(m, query, graph, q, g);
    NodeMatchStep(m, query, graph, q, g, depth);
    GreedyPathStep(m, query, graph, q, g, depth);
    var queryTarget, graphTarget := query.edges[d.queryEdge].target, graph.edges[d.graphEdge].target;
    MatchIffPathMatches(m, query, graph, queryTarget, graphTarget, depth - 1);
    var rest := GreedyPath(m, query, graph, queryTarget, graphTarget, depth - 1);
    PathCons(m, query, graph, (q, g), rest, NodeMatch(m, query, graph, q, g, depth),
             NodeMatch(m, query, graph, queryTarget, graphTarget, depth - 1));
  }

  /**
   * The matcher succeeds exactly when every pair along its greedy path
   * matches and the path ends at a query node with no outgoing edge.
   */
  lemma {:induction false} MatchIffPathMatches(m: Matcher, query: Graph, graph: Graph, q: NodeIndex, g: NodeIndex,
                                               depth: nat)
    requires MatchArguments(m, query, graph, q, g, depth)
    ensures var path := GreedyPath(m, query, graph, q, g, depth);
      NodeMatch(m, query, graph, q, g, depth) <==>
        AllPairsMatch(m, query, graph, path) && query.nodes[path[|path| - 1].0].firstOutgoingEdge.None?
    decreases depth, 1
  {
    if Advances(m, query, graph, q, g) {
      MatchIffPathAtStep(m, query, graph, q, g, depth);
    } else {
      MatchIffPathAtStop(m, query, graph, q, g, depth);
    }
  }

  /** The matcher with the target check of src/matching.rs:24 left out. */
  function NodeMatchWithoutTargetCheck(m: Matcher, query: Graph, graph: Graph, q: NodeIndex, g: NodeIndex,
                                       ghost depth: nat): bool
    requires MatchArguments(m, query, graph, q, g, depth)
    decreases depth
  {
    if !m.node(query.nodes[q], graph.nodes[g]) then false
    else
      match NextPair(m, query, graph, q, g)
      case QueryLeaf => true
      case NoMatchingEdge => false
      case Descend(queryEdge, graphEdge) =>
        DescendArguments(m, query, graph, q, g, depth);
        NodeMatchWithoutTargetCheck(m, query, graph, query.edges[queryEdge].target,
                                    graph.edges[graphEdge].target, depth - 1)
  }

  /** The target check is redundant: the recursive call checks the same node pair first. */
  lemma {:induction false} TargetCheckRedundant(m: Matcher, query: Graph, graph: Graph, q: NodeIndex, g: NodeIndex,
                                                depth: nat)
    requires MatchArguments(m, query, graph, q, g, depth)
    ensures NodeMatch(m, query, graph, q, g, depth) == NodeMatchWithoutTargetCheck(m, query, graph, q, g, depth)
    decreases depth
  {
    if Advances(m, query, graph, q, g) {
      var d := NextPair(m, query, graph, q, g);
      NodeMatchStep(m, query, graph, q, g, depth);
      TargetCheckRedundant(m, query, graph, query.edges[d.queryEdge].target, graph.edges[d.graphEdge].target,
                           depth - 1);
    }
  }

  /** The edge matcher looks at a query edge's payload, not at its chain link. */
  ghost predicate IgnoresChainLinks(m: Matcher) {
    forall a: Edge, b: Edge :: m.edge(a, b) == m.edge(a.(nextOutgoingEdge := None), b)
  }

  /** The query with every edge cut off from the older edges behind it in its chain. */
  function FirstEdgesOnly(query: Graph): (r: Graph)
    ensures r.nodes == query.nodes && |r.edges| == |query.edges|
    ensures forall e :: 0 <= e < |r.edges| ==> r.edges[e] == query.edges[e].(nextOutgoingEdge := None)
  {
    Graph(query.nodes, seq(|query.edges|, e requires 0 <= e < |query.edges| => query.edges[e].(nextOutgoingEdge := None)))
  }

  /** In `FirstEdgesOnly(query)` each node's edge list is the head of its list in `query`. */
  lemma FirstEdgesOnlyEdges(query: Graph, n: NodeIndex)
    requires WellFormed(query) && n < |query.nodes|
    ensures WellFormed(FirstEdgesOnly(query))
    ensures var queryEdges := EdgesForNode(query, n);
      EdgesForNode(FirstEdgesOnly(query), n) == if queryEdges == [] then [] else [queryEdges[0]]
  {
    var query' := FirstEdgesOnly(query);
    assert forall e :: 0 <= e < |query'.edges| ==> EdgeLinks(query'.edges)[e].nextOutgoingEdge == None;
    var first := query.nodes[n].firstOutgoingEdge;
    assert NodeLinks(query.nodes)[n].firstOutgoingEdge == first;
    if first.Some? {
      assert EdgeLinks(query'.edges)[first.value].nextOutgoingEdge == None;
      assert EdgesForNode(query', n) == [first.value] + Arena.EdgeChain(EdgeLinks(query'.edges), None);
    }
  }

  /** The scan does not see the chain link of the query edge. */
  lemma {:induction false} FirstMatchingEdgeIgnoresLink(m: Matcher, query: Graph, graph: Graph, queryEdge: EdgeIndex,
                                                        candidates: seq<EdgeIndex>)
    requires IgnoresChainLinks(m) && queryEdge < |query.edges|
    requires forall i :: 0 <= i < |candidates| ==> candidates[i] < |graph.edges|
    ensures FirstMatchingEdge(m, FirstEdgesOnly(query), graph, queryEdge, candidates)
         == FirstMatchingEdge(m, query, graph, queryEdge, candidates)
  {
    if candidates != [] {
      assert m.edge(FirstEdgesOnly(query).edges[queryEdge], graph.edges[candidates[0]])
          == m.edge(query.edges[queryEdge], graph.edges[candidates[0]]);
      FirstMatchingEdgeIgnoresLink(m, query, graph, queryEdge, candidates[1..]);
    }
  }

  /** Cutting the query down to first edges does not change where the matcher goes next. */
  lemma FirstEdgesOnlyNextPair(m: Matcher, query: Graph, graph: Graph, q: NodeIndex, g: NodeIndex)
    requires IgnoresChainLinks(m)
    requires WellFormed(query) && WellFormed(graph) && q < |query.nodes| && g < |graph.nodes|
    ensures WellFormed(FirstEdgesOnly(query))
    ensures NextPair(m, FirstEdgesOnly(query), graph, q, g) == NextPair(m, query, graph, q, g)
  {
    FirstEdgesOnlyEdges(query, q);
    var queryEdges := EdgesForNode(query, q);
    if queryEdges != [] {
      FirstMatchingEdgeIgnoresLink(m, query, graph, queryEdges[0], EdgesForNode(graph, g));
    }
  }

  /** Cutting the query down to first edges keeps the recursion's bound. */
  lemma {:induction false} FirstEdgesOnlyBounded(m: Matcher, query: Graph, graph: Graph, q: NodeIndex, g: NodeIndex,
                                                 depth: nat)
    requires IgnoresChainLinks(m) && MatchArguments(m, query, graph, q, g, depth)
    ensures MatchArguments(m, FirstEdgesOnly(query), graph, q, g, depth)
    decreases depth
  {
    FirstEdgesOnlyNextPair(m, query, graph, q, g);
    if Advances(m, query, graph, q, g) {
      var d := NextPair(m, query, graph, q, g);
      DescendArguments(m, query, graph, q, g, depth);
      FirstEdgesOnlyBounded(m, query, graph, query.edges[d.queryEdge].target, graph.edges[d.graphEdge].target,
                            depth - 1);
      assert FirstEdgesOnly(query).edges[d.queryEdge].target == query.edges[d.queryEdge].target;
    }
  }

  /**
   * Only the first query edge of each node counts: removing every later
   * query edge from the chains leaves the result unchanged.
   */
  lemma {:induction false} OnlyFirstQueryEdgeMatters(m: Matcher, query: Graph, graph: Graph, q: NodeIndex, g: NodeIndex,
                                                     depth: nat)
    requires IgnoresChainLinks(m) && MatchArguments(m, query, graph, q, g, depth)
    ensures MatchArguments(m, FirstEdgesOnly(query), graph, q, g, depth)
    ensures NodeMatch(m, FirstEdgesOnly(query), graph, q, g, depth) == NodeMatch(m, query, graph, q, g, depth)
    decreases depth
  {
    var query' := FirstEdgesOnly(query);
    FirstEdgesOnlyBounded(m, query, graph, q, g, depth);
    FirstEdgesOnlyNextPair(m, query, graph, q, g);
    if Advances(m, query, graph, q, g) {
      var d := NextPair(m, query, graph, q, g);
      NodeMatchStep(m, query, graph, q, g, depth);
      NodeMatchStep(m, query', graph, q, g, depth);
      OnlyFirstQueryEdgeMatters(m, query, graph, query.edges[d.queryEdge].target, graph.edges[d.graphEdge].target,
                                depth - 1);
    }
  }
}
