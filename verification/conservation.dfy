/**
 * Net flow at a node, and how augmentation moves it: along a path every
 * inner node gains and loses the same amount, so only the two ends change.
 */
module Conservation {
  import opened Wrappers
  import opened FlowGraph
  import opened Residual
  import opened Search
  import opened Augment

  /** The change in net outflow at `z` when `d` more units flow from `x` to `y`. */
  function Shift<N(==)>(z: N, x: N, y: N, d: int): int {
    (if z == x then d else 0) - (if z == y then d else 0)
  }

  /** What edge `e` contributes to the net outflow of `x`; a self-loop contributes nothing. */
  function Contribution<N(==)>(e: Edge<N>, x: N): int {
    (if e.u == x then e.flow else 0) - (if e.v == x then e.flow else 0)
  }

  /** Flow on the edges leaving `x` minus flow on the edges entering it. */
  function Net<N(==)>(edges: seq<Edge<N>>, x: N): int
    decreases |edges|
  {
    if |edges| == 0 then 0 else Contribution(edges[0], x) + Net(edges[1..], x)
  }

  /** With every flow zero, every node's net outflow is zero. */
  lemma {:induction false} NetZero<N>(edges: seq<Edge<N>>, x: N)
    requires forall k :: 0 <= k < |edges| ==> edges[k].flow == 0
    ensures Net(edges, x) == 0
    decreases |edges|
  {
    if |edges| > 0 {
      assert forall k :: 0 <= k < |edges[1..]| ==> edges[1..][k] == edges[k + 1];
      NetZero(edges[1..], x);
    }
  }

  /** Changing the flow of edge `k` by `f - flow` moves its tail's net outflow up and its head's down by that much. */
  lemma {:induction false} NetUpdate<N>(edges: seq<Edge<N>>, k: nat, f: int, x: N)
    requires k < |edges|
    ensures Net(edges[k := edges[k].(flow := f)], x)
         == Net(edges, x) + Shift(x, edges[k].u, edges[k].v, f - edges[k].flow)
    decreases |edges|
  {
    var updated := edges[k := edges[k].(flow := f)];
    if k == 0 {
      assert updated[1..] == edges[1..];
    } else {
      assert updated[1..] == edges[1..][k - 1 := edges[k].(flow := f)];
      NetUpdate(edges[1..], k - 1, f, x);
    }
  }

  /** Consecutive path nodes are joined by an edge in one direction or the other. */
  predicate Linked<N(==)>(edges: seq<Edge<N>>, path: seq<N>) {
    forall i :: 0 <= i < |path| - 1 ==> HasEdge(edges, path[i], path[i + 1]) || HasEdge(edges, path[i + 1], path[i])
  }

  /** One augmentation pass over a joined pair moves `b` of net outflow from `y` to `x`. */
  lemma NetPair<N>(edges: seq<Edge<N>>, x: N, y: N, b: int, z: N)
    requires HasEdge(edges, x, y) || HasEdge(edges, y, x)
    ensures Net(AugmentPair(edges, x, y, b), z) == Net(edges, z) + Shift(z, x, y, b)
  {
    if Choose(edges, x, y).Forward? {
      NetForward(edges, x, y, b, z);
    } else {
      NetBackward(edges, x, y, b, z);
    }
  }

  lemma NetForward<N>(edges: seq<Edge<N>>, x: N, y: N, b: int, z: N)
    requires Choose(edges, x, y).Forward?
    ensures Net(AugmentPair(edges, x, y, b), z) == Net(edges, z) + Shift(z, x, y, b)
  {
    var k := Choose(edges, x, y).index;
    NetShift(edges, k, b, z);
  }

  lemma NetBackward<N>(edges: seq<Edge<N>>, x: N, y: N, b: int, z: N)
    requires Choose(edges, x, y).Backward?
    ensures Net(AugmentPair(edges, x, y, b), z) == Net(edges, z) + Shift(z, x, y, b)
  {
    var k := Choose(edges, x, y).index;
    NetShift(edges, k, -b, z);
  }

  /** `NetUpdate` for a change of `d`. */
  lemma NetShift<N>(edges: seq<Edge<N>>, k: nat, d: int, z: N)
    requires k < |edges|
    ensures Net(edges[k := edges[k].(flow := edges[k].flow + d)], z)
         == Net(edges, z) + Shift(z, edges[k].u, edges[k].v, d)
  {
    NetUpdate(edges, k, edges[k].flow + d, z);
  }

  /**
   * Augmenting along a linked path moves exactly `b` of net outflow to the
   * first node from the last one; every node strictly inside the path, and
   * every node off it, keeps its net outflow.
   */
  lemma {:induction false} AugmentNet<N>(edges: seq<Edge<N>>, path: seq<N>, b: int, z: N)
    requires |path| > 0 && Linked(edges, path)
    ensures Net(AugmentFlow(edges, path, b), z)
         == Net(edges, z) + Shift(z, path[0], path[|path| - 1], b)
    decreases |path|
  {
    if |path| >= 2 {
      var next := AugmentPair(edges, path[0], path[1], b);
      var tail := path[1..];
      LinkedTail(edges, next, path);
      AugmentNet(next, tail, b, z);
      NetPair(edges, path[0], path[1], b, z);
      AugmentFlowStep(edges, path, b);
    }
  }

  /** Flow is conserved through augmentation at every node other than the two ends of the path. */
  lemma AugmentKeepsNet<N>(edges: seq<Edge<N>>, path: seq<N>, b: int, z: N)
    requires |path| > 0 && Linked(edges, path)
    requires z != path[0] && z != path[|path| - 1]
    ensures Net(AugmentFlow(edges, path, b), z) == Net(edges, z)
  {
    AugmentNet(edges, path, b, z);
  }

  /** Augmenting by `b` from a source to a different sink raises the source's net outflow by exactly `b`. */
  lemma AugmentRaisesSource<N>(edges: seq<Edge<N>>, path: seq<N>, b: int)
    requires |path| > 0 && Linked(edges, path)
    requires path[0] != path[|path| - 1]
    ensures Net(AugmentFlow(edges, path, b), path[0]) == Net(edges, path[0]) + b
  {
    AugmentNet(edges, path, b, path[0]);
  }

  /** Linking sees only endpoints, and survives dropping the first node. */
  lemma LinkedTail<N>(edges: seq<Edge<N>>, other: seq<Edge<N>>, path: seq<N>)
    requires SameShape(edges, other) && Linked(edges, path) && |path| > 0
    ensures Linked(other, path[1..])
  {
    var tail := path[1..];
    forall i | 0 <= i < |tail| - 1
      ensures HasEdge(other, tail[i], tail[i + 1]) || HasEdge(other, tail[i + 1], tail[i])
    {
      assert tail[i] == path[i + 1] && tail[i + 1] == path[i + 2];
      ChooseShape(edges, other, tail[i], tail[i + 1]);
    }
  }

  /** A path of positive residual arcs in the rebuilt graph only uses pairs that some edge joins. */
  lemma AugmentingPathLinked<N>(nodes: seq<N>, edges: seq<Edge<N>>, s: N, t: N, path: seq<N>)
    requires EndpointsIn(nodes, edges)
    requires IsAugmentingPath(Build(nodes, edges), s, t, path)
    ensures Linked(edges, path)
  {
    var r := Build(nodes, edges);
    forall i | 0 <= i < |path| - 1
      ensures HasEdge(edges, path[i], path[i + 1]) || HasEdge(edges, path[i + 1], path[i])
    {
      assert ResidualOf(r, path[i], path[i + 1]) > 0;
      assert path[i] in NodeSet(nodes);
      EntryIffEdge(nodes, edges, path[i], path[i + 1]);
    }
  }
}
