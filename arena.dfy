/**
 * The index-based arena graph of src/graph.rs (src/lib.rs holds the same code).
 *
 * A graph owns two append-only vectors.  Each node stores the index of the
 * most recently added edge leaving it; each edge stores its target and the
 * edge that was the head of its source's chain before it was added.  So each
 * node's outgoing edges form a singly linked list that is built by prepending,
 * and a walk along it yields the node's successors newest first.
 *
 * The chain walk and the facts about it are stated on plain sequences; the
 * classes `Graph` and `Successors` keep the source's fields and in-place
 * updates and are specified by those functions.
 */
module Arena {
  import opened Wrappers

  type NodeIndex = nat
  type EdgeIndex = nat

  datatype NodeData = NodeData(firstOutgoingEdge: Option<EdgeIndex>)
  datatype EdgeData = EdgeData(target: NodeIndex, nextOutgoingEdge: Option<EdgeIndex>)

  /** A chain position: the end of the chain, or an existing edge. */
  predicate CursorInBounds(edges: seq<EdgeData>, cursor: Option<EdgeIndex>) {
    cursor.None? || cursor.value < |edges|
  }

  /** Every chain link points to a strictly earlier edge. */
  predicate LinksBackward(edges: seq<EdgeData>) {
    forall e :: 0 <= e < |edges| ==>
      edges[e].nextOutgoingEdge.None? || edges[e].nextOutgoingEdge.value < e
  }

  /** The chain invariant: links point backwards and every chain head is an existing edge. */
  predicate ChainInvariant(nodes: seq<NodeData>, edges: seq<EdgeData>) {
    && LinksBackward(edges)
    && forall n :: 0 <= n < |nodes| ==> CursorInBounds(edges, nodes[n].firstOutgoingEdge)
  }

  /**
   * The edge indices met when the chain is walked from `cursor`, as
   * `Successors::next` walks it.  The walk stays in bounds, follows the
   * links and visits strictly decreasing indices, hence terminates.
   */
  function EdgeChain(edges: seq<EdgeData>, cursor: Option<EdgeIndex>): (chain: seq<EdgeIndex>)
    requires LinksBackward(edges) && CursorInBounds(edges, cursor)
    ensures cursor.None? <==> chain == []
    ensures cursor.Some? ==> chain[0] == cursor.value
    ensures forall i :: 0 <= i < |chain| ==> chain[i] < |edges|
    decreases if cursor.Some? then cursor.value + 1 else 0
  {
    match cursor
    case None => []
    case Some(e) => [e] + EdgeChain(edges, edges[e].nextOutgoingEdge)
  }

  /**
   * The chain is exactly the linked list: each edge links to the next one
   * listed, and the last edge has no link.
   */
  lemma {:induction false} EdgeChainFollowsLinks(edges: seq<EdgeData>, cursor: Option<EdgeIndex>, i: nat)
    requires LinksBackward(edges) && CursorInBounds(edges, cursor)
    requires i < |EdgeChain(edges, cursor)|
    ensures var chain := EdgeChain(edges, cursor);
      edges[chain[i]].nextOutgoingEdge == if i + 1 < |chain| then Some(chain[i + 1]) else None
    decreases i
  {
    var e := cursor.value;
    var rest := EdgeChain(edges, edges[e].nextOutgoingEdge);
    if i > 0 {
      EdgeChainFollowsLinks(edges, edges[e].nextOutgoingEdge, i - 1);
    }
  }

  /**
   * The chain lists edge indices strictly decreasing: from the newest edge
   * to the oldest, the reverse of insertion order, and never an edge twice.
   */
  lemma {:induction false} EdgeChainDecreasing(edges: seq<EdgeData>, cursor: Option<EdgeIndex>)
    requires LinksBackward(edges) && CursorInBounds(edges, cursor)
    ensures forall i, j :: 0 <= i < j < |EdgeChain(edges, cursor)| ==>
      EdgeChain(edges, cursor)[j] < EdgeChain(edges, cursor)[i]
    decreases if cursor.Some? then cursor.value + 1 else 0
  {
    if cursor.Some? {
      var e := cursor.value;
      var rest := EdgeChain(edges, edges[e].nextOutgoingEdge);
      EdgeChainDecreasing(edges, edges[e].nextOutgoingEdge);
      var chain := EdgeChain(edges, cursor);
      assert chain == [e] + rest;
      assert forall k :: 0 <= k < |rest| ==> rest[k] < e by {
        if rest != [] {
          assert rest[0] == edges[e].nextOutgoingEdge.value < e;
          assert forall k :: 0 < k < |rest| ==> rest[k] < rest[0];
        }
      }
      forall i, j | 0 <= i < j < |chain| ensures chain[j] < chain[i] {
        assert chain[j] == rest[j - 1];
        if i > 0 {
          assert chain[i] == rest[i - 1];
        }
      }
    }
  }

  /** The targets of the edges `chain`, in order. */
  function Targets(edges: seq<EdgeData>, chain: seq<EdgeIndex>): seq<NodeIndex>
    requires forall i :: 0 <= i < |chain| ==> chain[i] < |edges|
  {
    seq(|chain|, i requires 0 <= i < |chain| => edges[chain[i]].target)
  }

  /** What `successors(source)` yields: the targets along `source`'s chain. */
  function SuccessorsOf(nodes: seq<NodeData>, edges: seq<EdgeData>, source: NodeIndex): (successors: seq<NodeIndex>)
    requires ChainInvariant(nodes, edges) && source < |nodes|
    ensures successors == [] <==> nodes[source].firstOutgoingEdge.None?
    ensures successors != [] ==> successors[0] == edges[nodes[source].firstOutgoingEdge.value].target
  {
    Targets(edges, EdgeChain(edges, nodes[source].firstOutgoingEdge))
  }

  /** Appending an edge whose link points backwards leaves every existing chain as it was. */
  lemma {:induction false} ChainUnchangedByPush(edges: seq<EdgeData>, edge: EdgeData, cursor: Option<EdgeIndex>)
    requires LinksBackward(edges) && CursorInBounds(edges, cursor)
    requires edge.nextOutgoingEdge.None? || edge.nextOutgoingEdge.value < |edges|
    ensures LinksBackward(edges + [edge])
    ensures EdgeChain(edges + [edge], cursor) == EdgeChain(edges, cursor)
    decreases if cursor.Some? then cursor.value + 1 else 0
  {
    var edges' := edges + [edge];
    assert LinksBackward(edges') by {
      forall e | 0 <= e < |edges'|
        ensures edges'[e].nextOutgoingEdge.None? || edges'[e].nextOutgoingEdge.value < e
      {
        if e < |edges| { assert edges'[e] == edges[e]; }
      }
    }
    match cursor
    case None =>
    case Some(e) =>
      assert edges'[e] == edges[e];
      ChainUnchangedByPush(edges, edge, edges[e].nextOutgoingEdge);
  }

  /**
   * `add_node`: a fresh node has no successors, the chain invariant is kept,
   * and every existing node keeps its successors.
   */
  lemma AddNodeStep(nodes: seq<NodeData>, edges: seq<EdgeData>)
    requires ChainInvariant(nodes, edges)
    ensures ChainInvariant(nodes + [NodeData(None)], edges)
    ensures SuccessorsOf(nodes + [NodeData(None)], edges, |nodes|) == []
    ensures forall n :: 0 <= n < |nodes| ==>
      SuccessorsOf(nodes + [NodeData(None)], edges, n) == SuccessorsOf(nodes, edges, n)
  {
    var nodes' := nodes + [NodeData(None)];
    forall n | 0 <= n < |nodes|
      ensures SuccessorsOf(nodes', edges, n) == SuccessorsOf(nodes, edges, n)
    {
      assert nodes'[n] == nodes[n];
    }
  }

  /** Targets are read only at the listed edges, so appending an edge does not change them. */
  lemma TargetsUnchangedByPush(edges: seq<EdgeData>, edge: EdgeData, chain: seq<EdgeIndex>)
    requires forall i :: 0 <= i < |chain| ==> chain[i] < |edges|
    ensures Targets(edges + [edge], chain) == Targets(edges, chain)
  {
    assert forall i :: 0 <= i < |chain| ==> (edges + [edge])[chain[i]] == edges[chain[i]];
  }

  /** The targets of a chain with one more edge at its head. */
  lemma TargetsCons(edges: seq<EdgeData>, e: EdgeIndex, chain: seq<EdgeIndex>)
    requires e < |edges| && forall i :: 0 <= i < |chain| ==> chain[i] < |edges|
    ensures Targets(edges, [e] + chain) == [edges[e].target] + Targets(edges, chain)
  {
    assert forall i :: 0 < i < |chain| + 1 ==> ([e] + chain)[i] == chain[i - 1];
  }

  /**
   * `add_edge(source, target)`: the new edge becomes the head of `source`'s
   * chain, so `source`'s successors gain `target` at the front; every other
   * node keeps its successors and the chain invariant is kept.
   */
  lemma AddEdgeStep(nodes: seq<NodeData>, edges: seq<EdgeData>, source: NodeIndex, target: NodeIndex)
    requires ChainInvariant(nodes, edges) && source < |nodes|
    ensures var nodes', edges' :=
              nodes[source := NodeData(Some(|edges|))],
              edges + [EdgeData(target, nodes[source].firstOutgoingEdge)];
      && ChainInvariant(nodes', edges')
      && EdgeChain(edges', nodes'[source].firstOutgoingEdge)
         == [|edges|] + EdgeChain(edges, nodes[source].firstOutgoingEdge)
      && SuccessorsOf(nodes', edges', source) == [target] + SuccessorsOf(nodes, edges, source)
      && forall n :: 0 <= n < |nodes| && n != source ==>
           SuccessorsOf(nodes', edges', n) == SuccessorsOf(nodes, edges, n)
  {
    var edge := EdgeData(target, nodes[source].firstOutgoingEdge);
    var nodes', edges' := nodes[source := NodeData(Some(|edges|))], edges + [edge];
    ChainUnchangedByPush(edges, edge, edge.nextOutgoingEdge);
    var before := EdgeChain(edges, edge.nextOutgoingEdge);
    assert EdgeChain(edges', Some(|edges|)) == [|edges|] + before;
    TargetsCons(edges', |edges|, before);
    TargetsUnchangedByPush(edges, edge, before);
    forall n | 0 <= n < |nodes| && n != source
      ensures SuccessorsOf(nodes', edges', n) == SuccessorsOf(nodes, edges, n)
    {
      ChainUnchangedByPush(edges, edge, nodes[n].firstOutgoingEdge);
      TargetsUnchangedByPush(edges, edge, EdgeChain(edges, nodes[n].firstOutgoingEdge));
    }
  }

  /**
   * `Graph` of src/graph.rs: the two vectors, updated in place.  The ghost
   * field `successorLists` is the public view: what `successors(n)` yields
   * for each node `n`.
   */
  class Graph {
    var nodes: seq<NodeData>
    var edges: seq<EdgeData>
    ghost var successorLists: seq<seq<NodeIndex>>

    ghost predicate Valid()
      reads this
    {
      && ChainInvariant(nodes, edges)
      && |successorLists| == |nodes|
      && forall n {:trigger SuccessorsOf(nodes, edges, n)} ::
           0 <= n < |nodes| ==> successorLists[n] == SuccessorsOf(nodes, edges, n)
    }

    /** `Graph { nodes: vec![], edges: vec![] }` */
    constructor ()
      ensures Valid() && nodes == [] && edges == [] && successorLists == []
    {
      nodes, edges := [], [];
      successorLists := [];
    }

    /** A fresh node with no outgoing edge; its index is the previous node count. */
    method AddNode() returns (index: NodeIndex)
      requires Valid()
      modifies this
      ensures Valid()
      ensures index == old(|nodes|)
      ensures nodes == old(nodes) + [NodeData(None)] && edges == old(edges)
      ensures successorLists == old(successorLists) + [[]]
    {
      AddNodeStep(nodes, edges);
      index := |nodes|;
      nodes := nodes + [NodeData(None)];
      successorLists := successorLists + [[]];
    }

    /**
     * Appends an edge and makes it the head of `source`'s chain.  Indexing
     * `nodes[source]` panics when `source` is out of range; `target` is
     * stored unchecked.
     */
    method AddEdge(source: NodeIndex, target: NodeIndex)
      requires Valid() && source < |nodes|
      modifies this
      ensures Valid()
      ensures nodes == old(nodes)[source := NodeData(Some(old(|edges|)))]
      ensures edges == old(edges) + [EdgeData(target, old(nodes[source].firstOutgoingEdge))]
      ensures successorLists == old(successorLists)[source := [target] + old(successorLists[source])]
    {
      AddEdgeStep(nodes, edges, source, target);
      var edgeIndex := |edges|;
      var nodeData := nodes[source];
      edges := edges + [EdgeData(target, nodeData.firstOutgoingEdge)];
      nodes := nodes[source := NodeData(Some(edgeIndex))];
      successorLists := successorLists[source := [target] + successorLists[source]];
    }

    /** An iterator positioned at the head of `source`'s chain. */
    method Successors(source: NodeIndex) returns (it: Successors)
      requires Valid() && source < |nodes|
      ensures fresh(it) && it.graph == this && it.Valid()
      ensures it.Remaining() == successorLists[source]
    {
      assert successorLists[source] == SuccessorsOf(nodes, edges, source);
      it := new Successors(this, nodes[source].firstOutgoingEdge);
    }
  }

  /** The `Successors` iterator: a borrowed graph and a cursor into one chain. */
  class Successors {
    const graph: Graph
    var currentEdgeIndex: Option<EdgeIndex>

    ghost predicate Valid()
      reads this, graph
    {
      graph.Valid() && CursorInBounds(graph.edges, currentEdgeIndex)
    }

    /** The targets the iterator has still to yield. */
    ghost function Remaining(): seq<NodeIndex>
      reads this, graph
      requires Valid()
    {
      Targets(graph.edges, EdgeChain(graph.edges, currentEdgeIndex))
    }

    constructor (graph: Graph, currentEdgeIndex: Option<EdgeIndex>)
      requires graph.Valid() && CursorInBounds(graph.edges, currentEdgeIndex)
      ensures this.graph == graph && this.currentEdgeIndex == currentEdgeIndex && Valid()
    {
      this.graph := graph;
      this.currentEdgeIndex := currentEdgeIndex;
    }

    /** `next`: yields the head of the remaining targets and advances along the chain. */
    method Next() returns (next: Option<NodeIndex>)
      requires Valid()
      modifies this
      ensures Valid()
      ensures old(Remaining()) == [] ==> next == None && Remaining() == []
      ensures old(Remaining()) != [] ==>
        next == Some(old(Remaining())[0]) && Remaining() == old(Remaining())[1..]
    {
      match currentEdgeIndex
      case None =>
        next := None;
      case Some(edgeNum) =>
        var edge := graph.edges[edgeNum];
        currentEdgeIndex := edge.nextOutgoingEdge;
        next := Some(edge.target);
    }
  }
}
