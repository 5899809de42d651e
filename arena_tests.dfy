/**
 * The inline tests of src/graph.rs and src/lib.rs, written as client
 * methods whose postconditions are the tests' expected values.
 */
module ArenaTests {
  import opened Wrappers
  import opened Arena

  /** Drains a fresh `successors(source)` iterator, as the `loop { match next() }` of the tests does. */
  method CollectSuccessors(g: Graph, source: NodeIndex) returns (targets: seq<NodeIndex>)
    requires g.Valid() && source < |g.nodes|
    ensures targets == g.successorLists[source]
  {
    var successors := g.Successors(source);
    targets := [];
    while true
      invariant successors.graph == g && successors.Valid()
      invariant targets + successors.Remaining() == g.successorLists[source]
      decreases |successors.Remaining()|
    {
      ghost var remaining := successors.Remaining();
      var next := successors.Next();
      if next.None? {
        break;
      }
      assert (targets + [remaining[0]]) + remaining[1..] == targets + remaining;
      targets := targets + [next.value];
    }
  }

  /** `create_small_graph`: two nodes, one edge, and node 0's head edge leads to node 1. */
  method CreateSmallGraph() returns (nodeCount: nat, edgeCount: nat, headTarget: Option<NodeIndex>)
    ensures nodeCount == 2 && edgeCount == 1 && headTarget == Some(1)
  {
    var graph := new Graph();
    var node0 := graph.AddNode();
    var node1 := graph.AddNode();
    graph.AddEdge(node0, node1);
    nodeCount, edgeCount := |graph.nodes|, |graph.edges|;
    match graph.nodes[0].firstOutgoingEdge {
      case Some(index) => headTarget := Some(graph.edges[index].target);
      case None => headTarget := None;
    }
  }

  /** `create_list_graph`: the edge vector keeps targets in insertion order. */
  method CreateListGraph() returns (targets: seq<NodeIndex>)
    ensures targets == [1, 2, 3]
  {
    var graph := new Graph();
    var node0 := graph.AddNode();
    var node1 := graph.AddNode();
    var node2 := graph.AddNode();
    var node3 := graph.AddNode();
    graph.AddEdge(node0, node1);
    graph.AddEdge(node1, node2);
    graph.AddEdge(node2, node3);
    var edges := graph.edges;
    assert edges == [EdgeData(1, None), EdgeData(2, None), EdgeData(3, None)];
    targets := [];
    for e := 0 to |edges|
      invariant targets == seq(e, i requires 0 <= i < e => edges[i].target)
    {
      targets := targets + [edges[e].target];
    }
  }

  /** `list_node_edges`: three self-loops on node 0 give successors `[0, 0, 0]`. */
  method ListNodeEdges() returns (targets: seq<NodeIndex>)
    ensures targets == [0, 0, 0]
  {
    var graph := new Graph();
    var node0 := graph.AddNode();
    graph.AddEdge(node0, node0);
    graph.AddEdge(node0, node0);
    graph.AddEdge(node0, node0);
    targets := CollectSuccessors(graph, 0);
  }

  /** The graph built by `it_works` in src/lib.rs, with each node's successors. */
  method ItWorks() returns (s0: seq<NodeIndex>, s1: seq<NodeIndex>, s2: seq<NodeIndex>, s3: seq<NodeIndex>)
    ensures s0 == [2, 1] && s1 == [] && s2 == [3, 1] && s3 == []
  {
    var g := new Graph();
    var node0 := g.AddNode();
    var node1 := g.AddNode();
    var node2 := g.AddNode();
    var node3 := g.AddNode();
    g.AddEdge(node0, node1);
    assert [1] + [] == [1];
    g.AddEdge(node0, node2);
    assert [2] + [1] == [2, 1];
    g.AddEdge(node2, node1);
    g.AddEdge(node2, node3);
    assert [3] + [1] == [3, 1];
    s0 := CollectSuccessors(g, node0);
    s1 := CollectSuccessors(g, node1);
    s2 := CollectSuccessors(g, node2);
    s3 := CollectSuccessors(g, node3);
  }
}
