/**
 * The flow graph model: nodes, capacitated edges with their current flow,
 * and the first-match edge lookup that augmentation relies on.
 */
module FlowGraph {
  import opened Wrappers

  // Node identifiers are strings in the program; the model only ever compares
  // them for equality, so it is generic over the identifier type `N`.

  /** A directed edge `u -> v` with its capacity and the flow currently pushed along it. */
  datatype Edge<N> = Edge(u: N, v: N, capacity: int, flow: int)

  /** The loaded graph; an edge is identified by its position in `edges`. */
  datatype Graph<N> = Graph(nodes: seq<N>, edges: seq<Edge<N>>)

  /** An edge as it is handed to the loader: endpoints and capacity, no flow yet. */
  datatype EdgeSpec<N> = EdgeSpec(from: N, to: N, capacity: int)

  /** The source is the first node of the node sequence. */
  function Source<N(==)>(nodes: seq<N>): (s: N)
    requires |nodes| > 0
    ensures s in nodes
  {
    nodes[0]
  }

  /** The sink is the last node of the node sequence. */
  function Sink<N(==)>(nodes: seq<N>): (t: N)
    requires |nodes| > 0
    ensures t in nodes
  {
    nodes[|nodes| - 1]
  }

  /** The declared nodes as a set. */
  function NodeSet<N>(nodes: seq<N>): set<N> {
    set x | x in nodes
  }

  /** Edge `e` goes from `x` to `y`. */
  predicate Joins<N(==)>(e: Edge<N>, x: N, y: N) {
    e.u == x && e.v == y
  }

  /** Some edge goes from `x` to `y`. */
  predicate HasEdge<N(==)>(edges: seq<Edge<N>>, x: N, y: N) {
    exists j :: 0 <= j < |edges| && Joins(edges[j], x, y)
  }

  /** Every edge endpoint is a declared node. */
  predicate EndpointsIn<N(==)>(nodes: seq<N>, edges: seq<Edge<N>>) {
    forall i :: 0 <= i < |edges| ==> edges[i].u in nodes && edges[i].v in nodes
  }

  predicate EndpointsDeclared<N(==)>(g: Graph<N>) {
    EndpointsIn(g.nodes, g.edges)
  }

  /** `0 <= flow <= capacity` on every edge. */
  predicate WithinCapacity<N(==)>(edges: seq<Edge<N>>) {
    forall k :: 0 <= k < |edges| ==> 0 <= edges[k].flow <= edges[k].capacity
  }

  /** Every capacity is non-negative. */
  predicate CapacitiesNonNegative<N(==)>(edges: seq<Edge<N>>) {
    forall k :: 0 <= k < |edges| ==> 0 <= edges[k].capacity
  }

  /** No ordered pair of nodes is joined by two edges. */
  predicate NoParallel<N(==)>(edges: seq<Edge<N>>) {
    forall i, j :: 0 <= i < j < |edges| ==> !Joins(edges[j], edges[i].u, edges[i].v)
  }

  /** No edge has a partner in the opposite direction; in particular there are no self-loops. */
  predicate NoAntiparallel<N(==)>(edges: seq<Edge<N>>) {
    forall i, j :: 0 <= i < |edges| && 0 <= j < |edges| ==> !Joins(edges[j], edges[i].v, edges[i].u)
  }

  /** Same edges up to their flows: endpoints and capacities agree position by position. */
  predicate SameShape<N(==)>(a: seq<Edge<N>>, b: seq<Edge<N>>) {
    && |a| == |b|
    && forall k :: 0 <= k < |a| ==> a[k].u == b[k].u && a[k].v == b[k].v && a[k].capacity == b[k].capacity
  }

  /**
   * `edges.find(e => e.u === x && e.v === y)`: the position of the FIRST edge
   * from `x` to `y`, or `None` when there is none.
   */
  function FindEdge<N(==)>(edges: seq<Edge<N>>, x: N, y: N): (r: Option<nat>)
    ensures r.Some? ==> r.value < |edges| && Joins(edges[r.value], x, y)
    ensures r.Some? ==> forall j :: 0 <= j < r.value ==> !Joins(edges[j], x, y)
    ensures r.None? <==> !HasEdge(edges, x, y)
  {
    if |edges| == 0 then None
    else if Joins(edges[0], x, y) then Some(0)
    else match FindEdge(edges[1..], x, y)
      case Some(i) => Some(i + 1)
      case None => None
  }

  /** First-match lookup sees only endpoints, so it cannot tell apart two edge sequences of the same shape. */
  lemma {:induction false} FindEdgeShape<N>(a: seq<Edge<N>>, b: seq<Edge<N>>, x: N, y: N)
    requires SameShape(a, b)
    ensures FindEdge(a, x, y) == FindEdge(b, x, y)
  {
    if |a| > 0 {
      FindEdgeShape(a[1..], b[1..], x, y);
    }
  }

  /** `edges.forEach(e => e.flow = 0)`. */
  function ZeroFlows<N(==)>(edges: seq<Edge<N>>): (r: seq<Edge<N>>)
    ensures SameShape(edges, r)
    ensures forall k :: 0 <= k < |r| ==> r[k].flow == 0
    ensures CapacitiesNonNegative(edges) ==> WithinCapacity(r)
  {
    seq(|edges|, k requires 0 <= k < |edges| => edges[k].(flow := 0))
  }

  /** The edges `loadGraph` creates: one per spec, in order, with flow 0. */
  function EdgesFromSpecs<N(==)>(specs: seq<EdgeSpec<N>>): (r: seq<Edge<N>>)
    ensures |r| == |specs|
    ensures forall k :: 0 <= k < |r| ==>
      r[k] == Edge(specs[k].from, specs[k].to, specs[k].capacity, 0)
  {
    seq(|specs|, k requires 0 <= k < |specs| => Edge(specs[k].from, specs[k].to, specs[k].capacity, 0))
  }

  /** Zeroing flows that are already zero changes nothing. */
  lemma ZeroFlowsFixed<N>(edges: seq<Edge<N>>)
    requires forall k :: 0 <= k < |edges| ==> edges[k].flow == 0
    ensures ZeroFlows(edges) == edges
  {
    var z := ZeroFlows(edges);
    assert forall k :: 0 <= k < |edges| ==> z[k] == edges[k];
  }
}
