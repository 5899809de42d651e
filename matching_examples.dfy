/**
 * Concrete inputs on which the matcher's result is proved, showing its
 * greedy, first-edge-only behaviour.
 */
module MatchingExamples {
  import opened Wrappers
  import opened Matching

  /**
   * An example instance of the matcher: nodes and edges match when their
   * identifiers are equal.  The library's own `matches` is not part of this
   * model, and every lemma of `Matching` holds for any matcher, except
   * `OnlyFirstQueryEdgeMatters`, which needs `IgnoresChainLinks`.
   */
  function ByIdentifier(): (m: Matcher)
    ensures forall a: Node, b: Node :: m.node(a, b) <==> a.identifier == b.identifier
    ensures forall a: Edge, b: Edge :: m.edge(a, b) <==> a.identifier == b.identifier
  {
    Matcher((a: Node, b: Node) => a.identifier == b.identifier, (a: Edge, b: Edge) => a.identifier == b.identifier)
  }

  /** The query a -e-> b. */
  function PairQuery(): Graph {
    Graph([Node("a", None, Some(0)), Node("b", None, None)], [Edge("e", 1, None, None)])
  }

  /**
   * Node a has two edges labelled e: the older one (0) to b and the newer
   * one (1) to c.  The chain of a starts at the newer edge.
   */
  function TwoChoiceGraph(): Graph {
    Graph([Node("a", None, Some(1)), Node("c", None, None), Node("b", None, None)],
          [Edge("e", 2, None, None), Edge("e", 1, None, Some(0))])
  }

  /** The two graphs are well formed, and the chain of a lists the newer edge first. */
  lemma TwoChoiceShape()
    ensures WellFormed(PairQuery()) && WellFormed(TwoChoiceGraph())
    ensures EdgesForNode(PairQuery(), 0) == [0] && EdgesForNode(PairQuery(), 1) == []
    ensures EdgesForNode(TwoChoiceGraph(), 0) == [1, 0]
  {
    var query, graph := PairQuery(), TwoChoiceGraph();
    var links := EdgeLinks(graph.edges);
    assert links == [Arena.EdgeData(2, None), Arena.EdgeData(1, Some(0))];
    assert EdgeLinks(query.edges) == [Arena.EdgeData(1, None)];
    assert Arena.EdgeChain(links, Some(0)) == [0] + Arena.EdgeChain(links, None);
    assert EdgesForNode(graph, 0) == [1] + Arena.EdgeChain(links, Some(0));
    assert EdgesForNode(query, 0) == [0] + Arena.EdgeChain(EdgeLinks(query.edges), None);
  }

  /**
   * The graph contains a -e-> b, through its older edge 0, yet the matcher
   * answers false: it commits to the newest matching edge, whose target c
   * does not match b, and never tries edge 0.
   */
  lemma NoBacktrackingExample()
    ensures MatchArguments(ByIdentifier(), PairQuery(), TwoChoiceGraph(), 0, 0, 1)
    ensures ByIdentifier().edge(PairQuery().edges[0], TwoChoiceGraph().edges[0])
    ensures MatchArguments(ByIdentifier(), PairQuery(), TwoChoiceGraph(), 1, 2, 0)
    ensures NodeMatch(ByIdentifier(), PairQuery(), TwoChoiceGraph(), 1, 2, 0)
    ensures !NodeMatch(ByIdentifier(), PairQuery(), TwoChoiceGraph(), 0, 0, 1)
  {
    var m, query, graph := ByIdentifier(), PairQuery(), TwoChoiceGraph();
    TwoChoiceShape();
    assert FirstMatchingEdge(m, query, graph, 0, [1, 0]) == Some(1);
    assert NextPair(m, query, graph, 0, 0) == Descend(0, 1);
    StopsNeedNoBound(m, query, graph, 1, 1);
    StopsNeedNoBound(m, query, graph, 1, 2);
    RootAndLeafCases(m, query, graph, 1, 2, 0);
    RootAndLeafCases(m, query, graph, 1, 1, 0);
    NoBacktracking(m, query, graph, 0, 0, 1, 1);
  }

  /**
   * Node a of the query has two edges: the older one (0) x to b and the
   * newer one (1) y to c.
   */
  function ForkQuery(): Graph {
    Graph([Node("a", None, Some(1)), Node("b", None, None), Node("c", None, None)],
          [Edge("x", 1, None, None), Edge("y", 2, None, Some(0))])
  }

  /** The graph a -y-> c, with no edge x. */
  function SingleEdgeGraph(): Graph {
    Graph([Node("a", None, Some(0)), Node("c", None, None)], [Edge("y", 1, None, None)])
  }

  /** The two graphs are well formed, and the chain of a in the query lists y before x. */
  lemma ForkShape()
    ensures WellFormed(ForkQuery()) && WellFormed(SingleEdgeGraph())
    ensures EdgesForNode(ForkQuery(), 0) == [1, 0] && EdgesForNode(ForkQuery(), 2) == []
    ensures EdgesForNode(SingleEdgeGraph(), 0) == [0]
  {
    var query, graph := ForkQuery(), SingleEdgeGraph();
    var links := EdgeLinks(query.edges);
    assert links == [Arena.EdgeData(1, None), Arena.EdgeData(2, Some(0))];
    assert EdgeLinks(graph.edges) == [Arena.EdgeData(1, None)];
    assert Arena.EdgeChain(links, Some(0)) == [0] + Arena.EdgeChain(links, None);
    assert EdgesForNode(query, 0) == [1] + Arena.EdgeChain(links, Some(0));
    assert EdgesForNode(graph, 0) == [0] + Arena.EdgeChain(EdgeLinks(graph.edges), None);
  }

  /**
   * The matcher answers true although the query edge x has no counterpart
   * in the graph: only the newest query edge of a node is followed.
   */
  lemma LaterQueryEdgeIgnoredExample()
    ensures MatchArguments(ByIdentifier(), ForkQuery(), SingleEdgeGraph(), 0, 0, 1)
    ensures FirstMatchingEdge(ByIdentifier(), ForkQuery(), SingleEdgeGraph(), 0, EdgesForNode(SingleEdgeGraph(), 0))
         == None
    ensures NodeMatch(ByIdentifier(), ForkQuery(), SingleEdgeGraph(), 0, 0, 1)
  {
    var m, query, graph := ByIdentifier(), ForkQuery(), SingleEdgeGraph();
    ForkShape();
    assert FirstMatchingEdge(m, query, graph, 1, [0]) == Some(0);
    assert FirstMatchingEdge(m, query, graph, 0, [0]) == None;
    assert NextPair(m, query, graph, 0, 0) == Descend(1, 0);
    StopsNeedNoBound(m, query, graph, 2, 1);
    RootAndLeafCases(m, query, graph, 2, 1, 0);
    NoBacktracking(m, query, graph, 0, 0, 1, 0);
  }

  /** A query whose only node a has an edge back to itself. */
  function SelfLoopQuery(): Graph {
    Graph([Node("a", None, Some(0))], [Edge("e", 0, None, None)])
  }

  /** A graph with one node a and no edges. */
  function LoneNodeGraph(): Graph {
    Graph([Node("a", None, None)], [])
  }

  /**
   * A query with a cycle is inside the model wherever the matcher stops: a
   * mismatched root gives false, and so does a graph root without a
   * matching edge.
   */
  lemma CyclicQueryExample()
    ensures MatchArguments(ByIdentifier(), SelfLoopQuery(), LoneNodeGraph(), 0, 0, 0)
    ensures !NodeMatch(ByIdentifier(), SelfLoopQuery(), LoneNodeGraph(), 0, 0, 0)
    ensures MatchArguments(ByIdentifier(), SelfLoopQuery(), Graph([Node("b", None, None)], []), 0, 0, 0)
    ensures !NodeMatch(ByIdentifier(), SelfLoopQuery(), Graph([Node("b", None, None)], []), 0, 0, 0)
  {
    var m, query, graph := ByIdentifier(), SelfLoopQuery(), LoneNodeGraph();
    assert EdgeLinks(query.edges) == [Arena.EdgeData(0, None)];
    assert EdgeLinks(graph.edges) == [];
    assert EdgesForNode(query, 0) == [0] + Arena.EdgeChain(EdgeLinks(query.edges), None);
    assert EdgesForNode(graph, 0) == [];
    StopsNeedNoBound(m, query, graph, 0, 0);
    RootAndLeafCases(m, query, graph, 0, 0, 0);
    var other := Graph([Node("b", None, None)], []);
    assert EdgeLinks(other.edges) == [];
    StopsNeedNoBound(m, query, other, 0, 0);
    RootAndLeafCases(m, query, other, 0, 0, 0);
  }
}
