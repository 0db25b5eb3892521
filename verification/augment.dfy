/**
 * The bottleneck of an augmenting path and the augmentation that pushes it
 * along the path, edge by edge, through first-match edge lookups.
 */
module Augment {
  import opened Wrappers
  import opened FlowGraph
  import opened Residual
  import opened Search

  /** A JavaScript number as the engine uses it: an integer, or `Infinity`. */
  datatype Amount = Finite(value: int) | Infinite

  /** `Math.min`. */
  function Min(a: Amount, b: Amount): (m: Amount)
    ensures m == a || m == b
    ensures AtMost(m, a) && AtMost(m, b)
  {
    match (a, b)
    case (Infinite, _) => b
    case (_, Infinite) => a
    case (Finite(x), Finite(y)) => if x <= y then a else b
  }

  /** `+` on amounts: anything plus `Infinity` is `Infinity`. */
  function Plus(a: Amount, b: Amount): (c: Amount)
    ensures c.Infinite? <==> a.Infinite? || b.Infinite?
  {
    match (a, b)
    case (Finite(x), Finite(y)) => Finite(x + y)
    case _ => Infinite
  }

  /** Adding a non-negative amount never lowers a total; adding `Infinity` gives `Infinity`. */
  lemma PlusGrows(a: Amount, b: Amount)
    requires b.Finite? ==> b.value >= 0
    ensures AtMost(a, Plus(a, b))
    ensures a.Finite? && b.Finite? ==> Plus(a, b).value - a.value == b.value
  {
  }

  /** `a <= b`, with `Infinity` above every integer. */
  predicate AtMost(a: Amount, b: Amount) {
    match (a, b)
    case (_, Infinite) => true
    case (Infinite, Finite(_)) => false
    case (Finite(x), Finite(y)) => x <= y
  }

  /** Every consecutive pair of `path` has an entry in the residual graph. */
  predicate HasEntries<N(==)>(r: ResidualGraph<N>, path: seq<N>) {
    forall i :: 0 <= i < |path| - 1 ==> path[i] in r && Get(r[path[i]], path[i + 1]).Some?
  }

  /**
   * `calculateBottleneck`: `Math.min` of `Infinity` and the residual of every
   * consecutive pair. A path of fewer than two nodes has no pair, so the
   * result stays `Infinity`; otherwise it is the smallest residual on the path.
   */
  function Bottleneck<N(==)>(r: ResidualGraph<N>, path: seq<N>): (b: Amount)
    requires HasEntries(r, path)
    ensures b.Infinite? <==> |path| < 2
    ensures b.Finite? ==> forall i :: 0 <= i < |path| - 1 ==> b.value <= ResidualOf(r, path[i], path[i + 1])
    ensures b.Finite? ==> exists i :: 0 <= i < |path| - 1 && b.value == ResidualOf(r, path[i], path[i + 1])
  {
    if |path| < 2 then Infinite
    else
      var rest := Bottleneck(r, path[1..]);
      Min(Finite(ResidualOf(r, path[0], path[1])), rest)
  }

  /** Every pair of an augmenting path has an entry, since a missing entry reads as zero. */
  lemma PathEntries<N>(r: ResidualGraph<N>, s: N, t: N, path: seq<N>)
    requires IsAugmentingPath(r, s, t, path)
    ensures HasEntries(r, path)
  {
    forall i | 0 <= i < |path| - 1
      ensures path[i] in r && Get(r[path[i]], path[i + 1]).Some?
    {
      assert ResidualOf(r, path[i], path[i + 1]) > 0;
    }
  }

  /** Along an augmenting path of two or more nodes the bottleneck is a positive integer. */
  lemma BottleneckPositive<N>(r: ResidualGraph<N>, s: N, t: N, path: seq<N>)
    requires IsAugmentingPath(r, s, t, path) && |path| >= 2
    ensures HasEntries(r, path)
    ensures Bottleneck(r, path).Finite? && Bottleneck(r, path).value > 0
  {
    PathEntries(r, s, t, path);
    var b := Bottleneck(r, path);
    var i :| 0 <= i < |path| - 1 && b.value == ResidualOf(r, path[i], path[i + 1]);
  }

  /** Which edge a consecutive pair of the path updates, and in which direction. */
  datatype Choice = Forward(index: nat) | Backward(index: nat) | Neither

  /**
   * The lookups of `augmentFlow` for the pair `(x, y)`: the first edge
   * `x -> y` when there is one, otherwise the first edge `y -> x`.
   */
  function Choose<N(==)>(edges: seq<Edge<N>>, x: N, y: N): (c: Choice)
    ensures c.Forward? ==> c.index < |edges| && Joins(edges[c.index], x, y)
    ensures c.Forward? ==> forall j :: 0 <= j < c.index ==> !Joins(edges[j], x, y)
    ensures c.Backward? ==> !HasEdge(edges, x, y)
    ensures c.Backward? ==> c.index < |edges| && Joins(edges[c.index], y, x)
    ensures c.Backward? ==> forall j :: 0 <= j < c.index ==> !Joins(edges[j], y, x)
    ensures c.Neither? <==> !HasEdge(edges, x, y) && !HasEdge(edges, y, x)
  {
    match FindEdge(edges, x, y)
    case Some(i) => Forward(i)
    case None =>
      match FindEdge(edges, y, x)
      case Some(j) => Backward(j)
      case None => Neither
  }

  lemma ChooseShape<N>(a: seq<Edge<N>>, b: seq<Edge<N>>, x: N, y: N)
    requires SameShape(a, b)
    ensures Choose(a, x, y) == Choose(b, x, y)
  {
    FindEdgeShape(a, b, x, y);
    FindEdgeShape(a, b, y, x);
  }

  /** The signed number of times choice `c` pushes along edge `k`. */
  function Sign(c: Choice, k: nat): int {
    match c
    case Forward(i) => if i == k then 1 else 0
    case Backward(i) => if i == k then -1 else 0
    case Neither => 0
  }

  /** One pass of the augmentation loop for the pair `(x, y)`. */
  function AugmentPair<N(==)>(edges: seq<Edge<N>>, x: N, y: N, b: int): (r: seq<Edge<N>>)
    ensures SameShape(edges, r)
    ensures forall k :: 0 <= k < |edges| ==> r[k].flow == edges[k].flow + b * Sign(Choose(edges, x, y), k)
  {
    match Choose(edges, x, y)
    case Forward(i) => edges[i := edges[i].(flow := edges[i].flow + b)]
    case Backward(j) => edges[j := edges[j].(flow := edges[j].flow - b)]
    case Neither => edges
  }

  /**
   * The signed number of pairs of `path` whose lookups select edge `k`:
   * +1 for each forward selection, -1 for each backward one.
   */
  function Delta<N(==)>(edges: seq<Edge<N>>, path: seq<N>, k: nat): int
    decreases |path|
  {
    if |path| < 2 then 0
    else Sign(Choose(edges, path[0], path[1]), k) + Delta(edges, path[1..], k)
  }

  lemma {:induction false} DeltaShape<N>(a: seq<Edge<N>>, b: seq<Edge<N>>, path: seq<N>, k: nat)
    requires SameShape(a, b)
    ensures Delta(a, path, k) == Delta(b, path, k)
    decreases |path|
  {
    if |path| >= 2 {
      ChooseShape(a, b, path[0], path[1]);
      DeltaShape(a, b, path[1..], k);
    }
  }

  /** Pair `(x, y)` of the path selects edge `k`, forwards or backwards. */
  predicate Selects<N(==)>(edges: seq<Edge<N>>, x: N, y: N, k: nat) {
    match Choose(edges, x, y)
    case Forward(i) => i == k
    case Backward(i) => i == k
    case Neither => false
  }

  /**
   * `augmentFlow` without the final rebuild: for every consecutive pair, in
   * path order, `+b` on the first forward edge or else `-b` on the first
   * backward edge. Endpoints and capacities never change, and each edge's
   * flow moves by `b` times its signed selection count.
   */
  function AugmentFlow<N(==)>(edges: seq<Edge<N>>, path: seq<N>, b: int): (r: seq<Edge<N>>)
    ensures SameShape(edges, r)
    ensures forall k :: 0 <= k < |edges| ==> r[k].flow == edges[k].flow + b * Delta(edges, path, k)
    decreases |path|
  {
    if |path| < 2 then edges
    else
      var next := AugmentPair(edges, path[0], path[1], b);
      var r := AugmentFlow(next, path[1..], b);
      assert forall k :: 0 <= k < |edges| ==> r[k].flow == edges[k].flow + b * Delta(edges, path, k) by {
        forall k | 0 <= k < |edges|
          ensures r[k].flow == edges[k].flow + b * Delta(edges, path, k)
        {
          DeltaShape(next, edges, path[1..], k);
          Distribute(b, Sign(Choose(edges, path[0], path[1]), k), Delta(edges, path[1..], k));
        }
      }
      r
  }

  lemma Distribute(b: int, x: int, y: int)
    ensures b * (x + y) == b * x + b * y
  {
  }

  /** Augmentation handles the first pair, then the rest of the path. */
  lemma AugmentFlowStep<N>(edges: seq<Edge<N>>, path: seq<N>, b: int)
    requires |path| >= 2
    ensures AugmentFlow(edges, path, b) == AugmentFlow(AugmentPair(edges, path[0], path[1], b), path[1..], b)
  {
  }

  /** An edge that no pair of the path selects keeps its count at zero. */
  lemma {:induction false} DeltaUnselected<N>(edges: seq<Edge<N>>, path: seq<N>, k: nat)
    requires forall i :: 0 <= i < |path| - 1 ==> !Selects(edges, path[i], path[i + 1], k)
    ensures Delta(edges, path, k) == 0
    decreases |path|
  {
    if |path| >= 2 {
      assert !Selects(edges, path[0], path[1], k);
      forall i | 0 <= i < |path[1..]| - 1
        ensures !Selects(edges, path[1..][i], path[1..][i + 1], k)
      {
        assert path[1..][i] == path[i + 1] && path[1..][i + 1] == path[i + 2];
      }
      DeltaUnselected(edges, path[1..], k);
    }
  }

  /** Augmentation leaves every edge that no pair of the path selects exactly as it was. */
  lemma AugmentFrame<N>(edges: seq<Edge<N>>, path: seq<N>, b: int, k: nat)
    requires k < |edges|
    requires forall i :: 0 <= i < |path| - 1 ==> !Selects(edges, path[i], path[i + 1], k)
    ensures AugmentFlow(edges, path, b)[k] == edges[k]
  {
    DeltaUnselected(edges, path, k);
  }

  /** A path of fewer than two nodes leaves every edge as it is. */
  lemma ShortPathChangesNothing<N>(edges: seq<Edge<N>>, path: seq<N>, b: int)
    requires |path| < 2
    ensures AugmentFlow(edges, path, b) == edges
  {
  }

  /** A pair selects edge `k` only when it is that edge's endpoints, in one order or the other. */
  lemma SelectsEndpoints<N>(edges: seq<Edge<N>>, x: N, y: N, k: nat)
    requires Selects(edges, x, y, k)
    ensures k < |edges|
    ensures Joins(edges[k], x, y) || Joins(edges[k], y, x)
  {
  }

  /**
   * Along a path without repeated nodes at most one pair selects a given
   * edge, so its signed count is 0, or +1 with a forward selection, or -1
   * with a backward one.
   */
  lemma {:induction false} DeltaRange<N>(edges: seq<Edge<N>>, path: seq<N>, k: nat)
    requires NoRepeats(path)
    ensures var d := Delta(edges, path, k);
      || d == 0
      || (d == 1 && exists i :: 0 <= i < |path| - 1 && Choose(edges, path[i], path[i + 1]) == Forward(k))
      || (d == -1 && exists i :: 0 <= i < |path| - 1 && Choose(edges, path[i], path[i + 1]) == Backward(k))
    decreases |path|
  {
    if |path| >= 2 {
      var tail := path[1..];
      assert NoRepeats(tail) by {
        forall i, j | 0 <= i < j < |tail| ensures tail[i] != tail[j] {
          assert tail[i] == path[i + 1] && tail[j] == path[j + 1];
        }
      }
      if Selects(edges, path[0], path[1], k) {
        SelectsEndpoints(edges, path[0], path[1], k);
        forall i | 0 <= i < |tail| - 1
          ensures !Selects(edges, tail[i], tail[i + 1], k)
        {
          assert tail[i] == path[i + 1] && tail[i + 1] == path[i + 2];
          assert path[i + 2] != path[0] && path[i + 2] != path[1];
          if Selects(edges, tail[i], tail[i + 1], k) {
            SelectsEndpoints(edges, tail[i], tail[i + 1], k);
            assert false;
          }
        }
        DeltaUnselected(edges, tail, k);
      } else {
        DeltaRange(edges, tail, k);
        var d := Delta(edges, tail, k);
        if d == 1 {
          var i :| 0 <= i < |tail| - 1 && Choose(edges, tail[i], tail[i + 1]) == Forward(k);
          assert tail[i] == path[i + 1] && tail[i + 1] == path[i + 2];
        } else if d == -1 {
          var i :| 0 <= i < |tail| - 1 && Choose(edges, tail[i], tail[i + 1]) == Backward(k);
          assert tail[i] == path[i + 1] && tail[i + 1] == path[i + 2];
        }
      }
    }
  }

  /**
   * The residual capacity of the pair `(x, y)` when edge `k` is the one its
   * lookups select, for a graph without parallel or antiparallel edges:
   * `capacity - flow` forwards and `flow` backwards.
   */
  lemma ChosenResidual<N>(nodes: seq<N>, edges: seq<Edge<N>>, x: N, y: N, k: nat)
    requires EndpointsIn(nodes, edges) && NoParallel(edges) && NoAntiparallel(edges)
    requires Selects(edges, x, y, k)
    ensures k < |edges|
    ensures Choose(edges, x, y).Forward? ==> ResidualOf(Build(nodes, edges), x, y) == edges[k].capacity - edges[k].flow
    ensures Choose(edges, x, y).Backward? ==> ResidualOf(Build(nodes, edges), x, y) == edges[k].flow
  {
    var e := edges[k];
    assert !HasEdge(edges, e.v, e.u) by {
      forall j | 0 <= j < |edges| ensures !Joins(edges[j], e.v, e.u) {
        assert !Joins(edges[j], edges[k].v, edges[k].u);
      }
    }
    forall j | 0 <= j < |edges| && j != k
      ensures !Joins(edges[j], e.u, e.v)
    {
      if j < k {
        assert !Joins(edges[k], edges[j].u, edges[j].v);
      } else {
        assert !Joins(edges[j], edges[k].u, edges[k].v);
      }
    }
    IsolatedEdgeResiduals(nodes, edges, k);
    assert e.u in nodes && e.v in nodes;
  }

  /**
   * When the graph has neither parallel nor antiparallel edges, the flows
   * are within capacity, the path repeats no node, and `b` is at most the
   * residual capacity of every pair of the path (as the bottleneck is),
   * augmenting by `b` keeps every flow within its capacity.
   */
  lemma AugmentWithinCapacity<N>(nodes: seq<N>, edges: seq<Edge<N>>, path: seq<N>, b: int)
    requires EndpointsIn(nodes, edges) && NoParallel(edges) && NoAntiparallel(edges)
    requires WithinCapacity(edges) && NoRepeats(path) && 0 <= b
    requires forall i :: 0 <= i < |path| - 1 ==> b <= ResidualOf(Build(nodes, edges), path[i], path[i + 1])
    ensures WithinCapacity(AugmentFlow(edges, path, b))
  {
    var r := AugmentFlow(edges, path, b);
    forall k | 0 <= k < |r|
      ensures 0 <= r[k].flow <= r[k].capacity
    {
      EdgeWithinCapacity(nodes, edges, path, b, k);
    }
  }

  lemma EdgeWithinCapacity<N>(nodes: seq<N>, edges: seq<Edge<N>>, path: seq<N>, b: int, k: nat)
    requires EndpointsIn(nodes, edges) && NoParallel(edges) && NoAntiparallel(edges)
    requires WithinCapacity(edges) && NoRepeats(path) && 0 <= b && k < |edges|
    requires forall i :: 0 <= i < |path| - 1 ==> b <= ResidualOf(Build(nodes, edges), path[i], path[i + 1])
    ensures 0 <= edges[k].flow + b * Delta(edges, path, k) <= edges[k].capacity
  {
    DeltaRange(edges, path, k);
    var d := Delta(edges, path, k);
    if d == 1 {
      var i :| 0 <= i < |path| - 1 && Choose(edges, path[i], path[i + 1]) == Forward(k);
      ForwardWithin(nodes, edges, path[i], path[i + 1], b, k);
      Scale(b, d);
    } else if d == -1 {
      var i :| 0 <= i < |path| - 1 && Choose(edges, path[i], path[i + 1]) == Backward(k);
      BackwardWithin(nodes, edges, path[i], path[i + 1], b, k);
      Scale(b, d);
    } else {
      Scale(b, d);
    }
  }

  lemma Scale(b: int, d: int)
    ensures d == 1 ==> b * d == b
    ensures d == -1 ==> b * d == -b
    ensures d == 0 ==> b * d == 0
  {
  }

  /** Pushing at most the forward residual of the selected edge keeps it within capacity. */
  lemma ForwardWithin<N>(nodes: seq<N>, edges: seq<Edge<N>>, x: N, y: N, b: int, k: nat)
    requires EndpointsIn(nodes, edges) && NoParallel(edges) && NoAntiparallel(edges)
    requires WithinCapacity(edges) && 0 <= b && Choose(edges, x, y) == Forward(k)
    requires b <= ResidualOf(Build(nodes, edges), x, y)
    ensures k < |edges| && 0 <= edges[k].flow + b <= edges[k].capacity
  {
    ChosenResidual(nodes, edges, x, y, k);
  }

  /** Cancelling at most the backward residual of the selected edge keeps its flow non-negative. */
  lemma BackwardWithin<N>(nodes: seq<N>, edges: seq<Edge<N>>, x: N, y: N, b: int, k: nat)
    requires EndpointsIn(nodes, edges) && NoParallel(edges) && NoAntiparallel(edges)
    requires WithinCapacity(edges) && 0 <= b && Choose(edges, x, y) == Backward(k)
    requires b <= ResidualOf(Build(nodes, edges), x, y)
    ensures k < |edges| && 0 <= edges[k].flow - b <= edges[k].capacity
  {
    ChosenResidual(nodes, edges, x, y, k);
  }

  /**
   * Without the antiparallel restriction the capacity bound fails. The empty
   * edge `0 -> 1` of capacity 1 comes first and writes the entry `0 -> 1` as
   * 1; the saturated edge `1 -> 0` (capacity 5, flow 5) comes later and its
   * reverse write adds its flow onto that entry, which becomes 6. The
   * bottleneck is 6, and augmentation adds all of it to the first edge
   * `0 -> 1`, of capacity 1.
   */
  lemma AntiparallelOverflow()
    ensures var nodes, edges, path := [0, 1], [Edge(0, 1, 1, 0), Edge(1, 0, 5, 5)], [0, 1];
      && EndpointsIn(nodes, edges) && WithinCapacity(edges) && NoParallel(edges)
      && IsAugmentingPath(Build(nodes, edges), Source(nodes), Sink(nodes), path)
      && HasEntries(Build(nodes, edges), path)
      && Bottleneck(Build(nodes, edges), path) == Finite(6)
      && AugmentFlow(edges, path, 6)[0].flow == 6 > edges[0].capacity
  {
    AntiparallelShape();
    AntiparallelResidual();
    SingleArc(Build([0, 1], [Edge(0, 1, 1, 0), Edge(1, 0, 5, 5)]), 0, 1, 6);
    AntiparallelPush();
  }

  /** The example's edges are declared, within capacity and not parallel. */
  lemma AntiparallelShape()
    ensures var nodes, edges := [0, 1], [Edge(0, 1, 1, 0), Edge(1, 0, 5, 5)];
      EndpointsIn(nodes, edges) && WithinCapacity(edges) && NoParallel(edges)
  {
    var nodes, edges := [0, 1], [Edge(0, 1, 1, 0), Edge(1, 0, 5, 5)];
    assert 0 in NodeSet(nodes) && 1 in NodeSet(nodes);
  }

  /** Augmenting the example by 6 along `[0, 1]` puts 6 on the first edge. */
  lemma AntiparallelPush()
    ensures AugmentFlow([Edge(0, 1, 1, 0), Edge(1, 0, 5, 5)], [0, 1], 6)[0].flow == 6
  {
    var edges, path := [Edge(0, 1, 1, 0), Edge(1, 0, 5, 5)], [0, 1];
    assert Choose(edges, 0, 1) == Forward(0);
    assert Delta(edges, path, 0) == 1;
  }

  /** A node whose only neighbour entry is `(y, c)` with `c > 0` is joined to `y` by a one-arc path of bottleneck `c`. */
  lemma SingleArc<N>(r: ResidualGraph<N>, x: N, y: N, c: int)
    requires x in r && r[x] == [(y, c)] && c > 0
    ensures IsAugmentingPath(r, x, y, [x, y]) && HasEntries(r, [x, y])
    ensures Bottleneck(r, [x, y]) == Finite(c)
  {
    assert Get(r[x], y) == Some(c);
  }

  /** The rebuilt neighbour map of node 0 in the antiparallel example. */
  lemma AntiparallelResidual()
    ensures EndpointsIn([0, 1], [Edge(0, 1, 1, 0), Edge(1, 0, 5, 5)])
    ensures Build([0, 1], [Edge(0, 1, 1, 0), Edge(1, 0, 5, 5)])[0] == [(1, 6)]
  {
    var nodes, edges := [0, 1], [Edge(0, 1, 1, 0), Edge(1, 0, 5, 5)];
    assert 0 in NodeSet(nodes) && 1 in NodeSet(nodes);
    var r0 := Build(nodes, []);
    assert r0[0] == [] && r0[1] == [];
    assert edges[..1] == [edges[0]] && [edges[0]][..0] == [];
    var r1 := Build(nodes, [edges[0]]);
    assert r1 == AddEdge(r0, edges[0]);
    assert r1[0] == [(1, 1)];
    var r2 := Build(nodes, edges);
    assert r2 == AddEdge(r1, edges[1]);
    assert Get(r1[0], 1) == Some(1);
  }

  /**
   * In the other order the credit is lost: the forward write of the later
   * edge `0 -> 1` overwrites the credit 5 that the earlier edge `1 -> 0`
   * left on the entry `0 -> 1`, so the flow on `1 -> 0` cannot be cancelled.
   */
  lemma AntiparallelDiscard()
    ensures EndpointsIn([0, 1], [Edge(1, 0, 5, 5), Edge(0, 1, 1, 0)])
    ensures Build([0, 1], [Edge(1, 0, 5, 5), Edge(0, 1, 1, 0)])[0] == [(1, 1)]
  {
    var nodes, edges := [0, 1], [Edge(1, 0, 5, 5), Edge(0, 1, 1, 0)];
    assert 0 in NodeSet(nodes) && 1 in NodeSet(nodes);
    var r0 := Build(nodes, []);
    assert r0[0] == [] && r0[1] == [];
    assert edges[..1] == [edges[0]] && [edges[0]][..0] == [];
    var r1 := Build(nodes, [edges[0]]);
    assert r1 == AddEdge(r0, edges[0]);
    assert r1[0] == [(1, 5)];
    var r2 := Build(nodes, edges);
    assert r2 == AddEdge(r1, edges[1]);
  }

  /**
   * Without the parallel restriction the capacity bound fails too. Of two
   * empty edges `0 -> 1` with capacities 1 and 10, the later one writes the
   * entry `0 -> 1` last, so the residual and the bottleneck are 10; the
   * first-match lookup then adds all of it to the edge of capacity 1.
   */
  lemma ParallelOverflow()
    ensures var nodes, edges, path := [0, 1], [Edge(0, 1, 1, 0), Edge(0, 1, 10, 0)], [0, 1];
      && EndpointsIn(nodes, edges) && WithinCapacity(edges) && NoAntiparallel(edges)
      && IsAugmentingPath(Build(nodes, edges), Source(nodes), Sink(nodes), path)
      && HasEntries(Build(nodes, edges), path)
      && Bottleneck(Build(nodes, edges), path) == Finite(10)
      && AugmentFlow(edges, path, 10)[0].flow == 10 > edges[0].capacity
  {
    ParallelShape();
    ParallelResidual();
    SingleArc(Build([0, 1], [Edge(0, 1, 1, 0), Edge(0, 1, 10, 0)]), 0, 1, 10);
    ParallelPush();
  }

  /** The parallel example's edges are declared, within capacity and not antiparallel. */
  lemma ParallelShape()
    ensures var nodes, edges := [0, 1], [Edge(0, 1, 1, 0), Edge(0, 1, 10, 0)];
      EndpointsIn(nodes, edges) && WithinCapacity(edges) && NoAntiparallel(edges)
  {
    var nodes, edges := [0, 1], [Edge(0, 1, 1, 0), Edge(0, 1, 10, 0)];
    assert 0 in NodeSet(nodes) && 1 in NodeSet(nodes);
  }

  /** Augmenting the parallel example by 10 along `[0, 1]` puts 10 on the first edge. */
  lemma ParallelPush()
    ensures AugmentFlow([Edge(0, 1, 1, 0), Edge(0, 1, 10, 0)], [0, 1], 10)[0].flow == 10
  {
    var edges, path := [Edge(0, 1, 1, 0), Edge(0, 1, 10, 0)], [0, 1];
    assert Choose(edges, 0, 1) == Forward(0);
    assert Delta(edges, path, 0) == 1;
  }

  /** The rebuilt neighbour map of node 0 in the parallel example. */
  lemma ParallelResidual()
    ensures EndpointsIn([0, 1], [Edge(0, 1, 1, 0), Edge(0, 1, 10, 0)])
    ensures Build([0, 1], [Edge(0, 1, 1, 0), Edge(0, 1, 10, 0)])[0] == [(1, 10)]
  {
    var nodes, edges := [0, 1], [Edge(0, 1, 1, 0), Edge(0, 1, 10, 0)];
    assert 0 in NodeSet(nodes) && 1 in NodeSet(nodes);
    var r0 := Build(nodes, []);
    assert r0[0] == [] && r0[1] == [];
    assert edges[..1] == [edges[0]] && [edges[0]][..0] == [];
    var r1 := Build(nodes, [edges[0]]);
    assert r1 == AddEdge(r0, edges[0]);
    assert r1[0] == [(1, 1)];
    var r2 := Build(nodes, edges);
    assert r2 == AddEdge(r1, edges[1]);
  }
}
