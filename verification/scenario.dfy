/**
 * The "simple" preset worked through: nodes s, a, b, t and edges s->a:10,
 * s->b:5, a->t:10, b->t:10. Pushing 10 along s-a-t and then 5 along s-b-t
 * saturates both edges out of the source, leaves no augmenting path, and
 * reports a maximum flow of 15 after two paths.
 */
module Scenario {
  import opened Wrappers
  import opened FlowGraph
  import opened Residual
  import opened Search
  import opened Augment
  import opened Engine

  /** The preset's four node names, pairwise distinct. */
  datatype Names<N> = Names(s: N, a: N, b: N, t: N)

  predicate Distinct<N(==)>(n: Names<N>) {
    n.s != n.a && n.s != n.b && n.s != n.t && n.a != n.b && n.a != n.t && n.b != n.t
  }

  function PresetNodes<N>(n: Names<N>): seq<N> {
    [n.s, n.a, n.b, n.t]
  }

  function PresetSpecs<N>(n: Names<N>): seq<EdgeSpec<N>> {
    [EdgeSpec(n.s, n.a, 10), EdgeSpec(n.s, n.b, 5), EdgeSpec(n.a, n.t, 10), EdgeSpec(n.b, n.t, 10)]
  }

  /** Edge `e` goes from `u` to `v` with capacity `c` and flow `f`. */
  predicate Carries<N(==)>(e: Edge<N>, u: N, v: N, c: int, f: int) {
    e.u == u && e.v == v && e.capacity == c && e.flow == f
  }

  /** `edges` is the preset's edge list with flows `sa`, `sb`, `at`, `bt` on s->a, s->b, a->t, b->t. */
  predicate Preset<N(==)>(n: Names<N>, edges: seq<Edge<N>>, sa: int, sb: int, at: int, bt: int) {
    && |edges| == 4
    && Carries(edges[0], n.s, n.a, 10, sa)
    && Carries(edges[1], n.s, n.b, 5, sb)
    && Carries(edges[2], n.a, n.t, 10, at)
    && Carries(edges[3], n.b, n.t, 10, bt)
  }

  /** The residual graph of the preset with the given flows, neighbours in insertion order. */
  function PresetResidual<N>(n: Names<N>, sa: int, sb: int, at: int, bt: int): ResidualGraph<N> {
    map[n.s := [(n.a, 10 - sa), (n.b, 5 - sb)], n.a := [(n.s, sa), (n.t, 10 - at)],
        n.b := [(n.s, sb), (n.t, 10 - bt)], n.t := [(n.a, at), (n.b, bt)]]
  }

  /** Loading the preset's specs gives its edges with zero flow. */
  lemma PresetLoaded<N>(n: Names<N>)
    ensures Preset(n, EdgesFromSpecs(PresetSpecs(n)), 0, 0, 0, 0)
  {
    var specs, edges := PresetSpecs(n), EdgesFromSpecs(PresetSpecs(n));
    assert edges[0] == Edge(specs[0].from, specs[0].to, specs[0].capacity, 0);
    assert edges[1] == Edge(specs[1].from, specs[1].to, specs[1].capacity, 0);
    assert edges[2] == Edge(specs[2].from, specs[2].to, specs[2].capacity, 0);
    assert edges[3] == Edge(specs[3].from, specs[3].to, specs[3].capacity, 0);
  }

  /** Which preset edge joins which pair: the four edges are told apart by their endpoints. */
  lemma PresetJoins<N>(n: Names<N>, edges: seq<Edge<N>>, sa: int, sb: int, at: int, bt: int, x: N, y: N)
    requires Preset(n, edges, sa, sb, at, bt)
    ensures forall j :: 0 <= j < |edges| && Joins(edges[j], x, y) ==>
      || (j == 0 && x == n.s && y == n.a)
      || (j == 1 && x == n.s && y == n.b)
      || (j == 2 && x == n.a && y == n.t)
      || (j == 3 && x == n.b && y == n.t)
  {
    forall j | 0 <= j < |edges| && Joins(edges[j], x, y)
      ensures || (j == 0 && x == n.s && y == n.a)
              || (j == 1 && x == n.s && y == n.b)
              || (j == 2 && x == n.a && y == n.t)
              || (j == 3 && x == n.b && y == n.t)
    {
      if j == 0 {
      } else if j == 1 {
      } else if j == 2 {
      } else {
      }
    }
  }

  /** The preset has no parallel and no antiparallel edges, and its endpoints are declared. */
  lemma PresetSimple<N>(n: Names<N>, edges: seq<Edge<N>>, sa: int, sb: int, at: int, bt: int)
    requires Distinct(n) && Preset(n, edges, sa, sb, at, bt)
    ensures EndpointsIn(PresetNodes(n), edges)
    ensures NoParallel(edges) && NoAntiparallel(edges)
  {
    forall i | 0 <= i < |edges| ensures edges[i].u in PresetNodes(n) && edges[i].v in PresetNodes(n) {
      if i == 0 {
      } else if i == 1 {
      } else if i == 2 {
      } else {
      }
    }
  }

  /** The rebuild prefix by prefix: the first `k + 1` edges are the first `k` plus one more rebuild step. */
  lemma BuildPrefix<N>(nodes: seq<N>, edges: seq<Edge<N>>, k: nat)
    requires EndpointsIn(nodes, edges) && k < |edges|
    ensures EndpointsIn(nodes, edges[..k]) && EndpointsIn(nodes, edges[..k + 1])
    ensures edges[k].u in Build(nodes, edges[..k]) && edges[k].v in Build(nodes, edges[..k])
    ensures Build(nodes, edges[..k + 1]) == AddEdge(Build(nodes, edges[..k]), edges[k])
  {
    assert edges[..k + 1][..k] == edges[..k];
    assert edges[k].u in NodeSet(nodes) && edges[k].v in NodeSet(nodes);
  }

  /** Rebuild step for s->a on the empty maps. */
  lemma StepSA<N>(n: Names<N>, r: ResidualGraph<N>, e: Edge<N>, sa: int)
    requires Distinct(n) && r == map[n.s := [], n.a := [], n.b := [], n.t := []] && Carries(e, n.s, n.a, 10, sa)
    ensures e.u in r && e.v in r
    ensures AddEdge(r, e) == map[n.s := [(n.a, 10 - sa)], n.a := [(n.s, sa)], n.b := [], n.t := []]
  {
  }

  /** Rebuild step for s->b. */
  lemma StepSB<N>(n: Names<N>, r: ResidualGraph<N>, e: Edge<N>, sa: int, sb: int)
    requires Distinct(n) && r == map[n.s := [(n.a, 10 - sa)], n.a := [(n.s, sa)], n.b := [], n.t := []]
    requires Carries(e, n.s, n.b, 5, sb)
    ensures e.u in r && e.v in r
    ensures AddEdge(r, e) == map[n.s := [(n.a, 10 - sa), (n.b, 5 - sb)], n.a := [(n.s, sa)], n.b := [(n.s, sb)], n.t := []]
  {
    PutAppends(r[n.s], n.b, 5 - sb);
    var r1 := r[n.s := Put(r[n.s], n.b, 5 - sb)];
    assert r1[n.s] == [(n.a, 10 - sa), (n.b, 5 - sb)];
    assert r1[n.b] == [];
    assert Put(r1[n.b], n.s, Get(r1[n.b], n.s).GetOr(0) + sb) == [(n.s, sb)];
    var r2 := r1[n.b := [(n.s, sb)]];
    assert r2 == AddEdge(r, e);
  }

  /** Rebuild step for a->t. */
  lemma StepAT<N>(n: Names<N>, r: ResidualGraph<N>, e: Edge<N>, sa: int, sb: int, at: int)
    requires Distinct(n) && r == map[n.s := [(n.a, 10 - sa), (n.b, 5 - sb)], n.a := [(n.s, sa)], n.b := [(n.s, sb)], n.t := []]
    requires Carries(e, n.a, n.t, 10, at)
    ensures e.u in r && e.v in r
    ensures AddEdge(r, e) == map[n.s := [(n.a, 10 - sa), (n.b, 5 - sb)], n.a := [(n.s, sa), (n.t, 10 - at)], n.b := [(n.s, sb)], n.t := [(n.a, at)]]
  {
    PutAppends(r[n.a], n.t, 10 - at);
    var r1 := r[n.a := Put(r[n.a], n.t, 10 - at)];
    assert r1[n.a] == [(n.s, sa), (n.t, 10 - at)];
    assert r1[n.t] == [];
    assert Put(r1[n.t], n.a, Get(r1[n.t], n.a).GetOr(0) + at) == [(n.a, at)];
    var r2 := r1[n.t := [(n.a, at)]];
    assert r2 == AddEdge(r, e);
  }

  /** Rebuild step for b->t, which completes the preset's residual graph. */
  lemma StepBT<N>(n: Names<N>, r: ResidualGraph<N>, e: Edge<N>, sa: int, sb: int, at: int, bt: int)
    requires Distinct(n) && r == map[n.s := [(n.a, 10 - sa), (n.b, 5 - sb)], n.a := [(n.s, sa), (n.t, 10 - at)], n.b := [(n.s, sb)], n.t := [(n.a, at)]]
    requires Carries(e, n.b, n.t, 10, bt)
    ensures e.u in r && e.v in r
    ensures AddEdge(r, e) == PresetResidual(n, sa, sb, at, bt)
  {
    PutAppends(r[n.b], n.t, 10 - bt);
    var r1 := r[n.b := Put(r[n.b], n.t, 10 - bt)];
    assert r1[n.b] == [(n.s, sb), (n.t, 10 - bt)];
    assert r1[n.t] == [(n.a, at)];
    assert Get(r1[n.t], n.b) == None;
    PutAppends(r1[n.t], n.b, bt);
    assert Put(r1[n.t], n.b, Get(r1[n.t], n.b).GetOr(0) + bt) == [(n.a, at), (n.b, bt)];
    var r2 := r1[n.t := [(n.a, at), (n.b, bt)]];
    assert r2 == AddEdge(r, e);
  }

  /** The empty maps the rebuild starts from. */
  lemma PresetEmpty<N>(n: Names<N>, nodes: seq<N>)
    requires Distinct(n) && nodes == PresetNodes(n)
    ensures Build(nodes, []) == map[n.s := [], n.a := [], n.b := [], n.t := []]
  {
    assert NodeSet(nodes) == {n.s, n.a, n.b, n.t};
  }

  /** Rebuilding the preset with any flows gives `PresetResidual`. */
  lemma PresetBuild<N>(n: Names<N>, nodes: seq<N>, edges: seq<Edge<N>>, sa: int, sb: int, at: int, bt: int)
    requires Distinct(n) && nodes == PresetNodes(n) && Preset(n, edges, sa, sb, at, bt)
    ensures EndpointsIn(nodes, edges)
    ensures Build(nodes, edges) == PresetResidual(n, sa, sb, at, bt)
  {
    PresetSimple(n, edges, sa, sb, at, bt);
    PresetSteps(n, nodes, edges, sa, sb, at, bt);
    assert edges[..4] == edges;
  }

  lemma PresetSteps<N>(n: Names<N>, nodes: seq<N>, edges: seq<Edge<N>>, sa: int, sb: int, at: int, bt: int)
    requires Distinct(n) && nodes == PresetNodes(n) && Preset(n, edges, sa, sb, at, bt)
    requires EndpointsIn(nodes, edges)
    ensures EndpointsIn(nodes, edges[..4])
    ensures Build(nodes, edges[..4]) == PresetResidual(n, sa, sb, at, bt)
  {
    BuildPrefix(nodes, edges, 0);
    assert edges[..0] == [];
    PresetEmpty(n, nodes);
    StepSA(n, Build(nodes, edges[..0]), edges[0], sa);
    BuildPrefix(nodes, edges, 1);
    StepSB(n, Build(nodes, edges[..1]), edges[1], sa, sb);
    BuildPrefix(nodes, edges, 2);
    StepAT(n, Build(nodes, edges[..2]), edges[2], sa, sb, at);
    BuildPrefix(nodes, edges, 3);
    StepBT(n, Build(nodes, edges[..3]), edges[3], sa, sb, at, bt);
  }

  /** Every lookup the two paths make picks the edge that runs along the path. */
  lemma PresetChoices<N>(n: Names<N>, edges: seq<Edge<N>>, sa: int, sb: int, at: int, bt: int)
    requires Distinct(n) && Preset(n, edges, sa, sb, at, bt)
    ensures Choose(edges, n.s, n.a) == Forward(0) && Choose(edges, n.a, n.t) == Forward(2)
    ensures Choose(edges, n.s, n.b) == Forward(1) && Choose(edges, n.b, n.t) == Forward(3)
  {
    PresetJoins(n, edges, sa, sb, at, bt, n.s, n.a);
    PresetJoins(n, edges, sa, sb, at, bt, n.a, n.t);
    PresetJoins(n, edges, sa, sb, at, bt, n.s, n.b);
    PresetJoins(n, edges, sa, sb, at, bt, n.b, n.t);
    assert Joins(edges[0], n.s, n.a) && Joins(edges[2], n.a, n.t);
    assert Joins(edges[1], n.s, n.b) && Joins(edges[3], n.b, n.t);
  }

  /** Along a three-node path, each edge's count is what the two lookups select. */
  lemma DeltaTwoHop<N>(edges: seq<Edge<N>>, x: N, y: N, z: N, k: nat)
    ensures Delta(edges, [x, y, z], k) == Sign(Choose(edges, x, y), k) + Sign(Choose(edges, y, z), k)
  {
    var path := [x, y, z];
    assert path[1..] == [y, z] && path[1..][1..] == [z];
    assert Delta(edges, [z], k) == 0;
    assert Delta(edges, [y, z], k) == Sign(Choose(edges, y, z), k);
  }

  /** Augmenting by `d` along s-a-t adds `d` to s->a and a->t and leaves the rest. */
  lemma PushSAT<N>(n: Names<N>, edges: seq<Edge<N>>, sa: int, sb: int, at: int, bt: int, d: int)
    requires Distinct(n) && Preset(n, edges, sa, sb, at, bt)
    ensures Preset(n, AugmentFlow(edges, [n.s, n.a, n.t], d), sa + d, sb, at + d, bt)
  {
    PresetChoices(n, edges, sa, sb, at, bt);
    DeltaTwoHop(edges, n.s, n.a, n.t, 0);
    DeltaTwoHop(edges, n.s, n.a, n.t, 1);
    DeltaTwoHop(edges, n.s, n.a, n.t, 2);
    DeltaTwoHop(edges, n.s, n.a, n.t, 3);
    assert d * 1 == d && d * 0 == 0;
  }

  /** Augmenting by `d` along s-b-t adds `d` to s->b and b->t and leaves the rest. */
  lemma PushSBT<N>(n: Names<N>, edges: seq<Edge<N>>, sa: int, sb: int, at: int, bt: int, d: int)
    requires Distinct(n) && Preset(n, edges, sa, sb, at, bt)
    ensures Preset(n, AugmentFlow(edges, [n.s, n.b, n.t], d), sa, sb + d, at, bt + d)
  {
    PresetChoices(n, edges, sa, sb, at, bt);
    DeltaTwoHop(edges, n.s, n.b, n.t, 0);
    DeltaTwoHop(edges, n.s, n.b, n.t, 1);
    DeltaTwoHop(edges, n.s, n.b, n.t, 2);
    DeltaTwoHop(edges, n.s, n.b, n.t, 3);
    assert d * 1 == d && d * 0 == 0;
  }

  /** A three-node path whose two arcs have positive residuals `c1` and `c2` is augmenting, with bottleneck the smaller one. */
  lemma TwoHop<N>(r: ResidualGraph<N>, x: N, y: N, z: N, c1: int, c2: int)
    requires x != y && y != z && x != z && x in r && y in r
    requires Get(r[x], y) == Some(c1) && Get(r[y], z) == Some(c2) && c1 > 0 && c2 > 0
    ensures IsAugmentingPath(r, x, z, [x, y, z]) && NoRepeats([x, y, z]) && HasEntries(r, [x, y, z])
    ensures Bottleneck(r, [x, y, z]) == Finite(if c1 <= c2 then c1 else c2)
  {
    var path := [x, y, z];
    assert path[1..] == [y, z] && path[1..][1..] == [z];
  }

  /** Looking up either key of a two-entry neighbour list. */
  lemma GetPair<N>(x: N, c: int, y: N, d: int)
    requires x != y
    ensures Get([(x, c), (y, d)], x) == Some(c) && Get([(x, c), (y, d)], y) == Some(d)
  {
    assert [(x, c), (y, d)][1..] == [(y, d)];
  }

  /** With no flow yet, s-a-t is augmenting with bottleneck 10. */
  lemma FirstPath<N>(n: Names<N>)
    requires Distinct(n)
    ensures var r := PresetResidual(n, 0, 0, 0, 0);
      && IsAugmentingPath(r, n.s, n.t, [n.s, n.a, n.t]) && NoRepeats([n.s, n.a, n.t])
      && HasEntries(r, [n.s, n.a, n.t]) && Bottleneck(r, [n.s, n.a, n.t]) == Finite(10)
  {
    var r := PresetResidual(n, 0, 0, 0, 0);
    GetPair(n.a, 10, n.b, 5);
    GetPair(n.s, 0, n.t, 10);
    assert r[n.s] == [(n.a, 10), (n.b, 5)] && r[n.a] == [(n.s, 0), (n.t, 10)];
    TwoHop(r, n.s, n.a, n.t, 10, 10);
  }

  /** Once s-a-t is full, s-b-t is augmenting with bottleneck 5. */
  lemma SecondPath<N>(n: Names<N>)
    requires Distinct(n)
    ensures var r := PresetResidual(n, 10, 0, 10, 0);
      && IsAugmentingPath(r, n.s, n.t, [n.s, n.b, n.t]) && NoRepeats([n.s, n.b, n.t])
      && HasEntries(r, [n.s, n.b, n.t]) && Bottleneck(r, [n.s, n.b, n.t]) == Finite(5)
  {
    var r := PresetResidual(n, 10, 0, 10, 0);
    GetPair(n.a, 0, n.b, 5);
    GetPair(n.s, 0, n.t, 10);
    assert r[n.s] == [(n.a, 0), (n.b, 5)] && r[n.b] == [(n.s, 0), (n.t, 10)];
    TwoHop(r, n.s, n.b, n.t, 5, 10);
  }

  /** With s->a and s->b full, every arc out of the source has residual 0, so no augmenting path is left. */
  lemma Saturated<N>(n: Names<N>)
    requires Distinct(n)
    ensures forall p :: !IsAugmentingPath(PresetResidual(n, 10, 5, 10, 5), n.s, n.t, p)
  {
    var r := PresetResidual(n, 10, 5, 10, 5);
    assert WellFormed(r);
    assert Closed(r, {n.s}) by {
      forall x | x in {n.s} ensures Expanded(r, x, {n.s}) {
        assert r[n.s] == [(n.a, 0), (n.b, 0)];
      }
    }
    forall p ensures !IsAugmentingPath(r, n.s, n.t, p) {
      ClosedBlocksPaths(r, {n.s}, n.s, n.t, p);
    }
  }

  /** An initialised preset session with no pending path, flows `sa`, `sb`, `at`, `bt`, and the given counters. */
  predicate PresetSession<N(==)>(n: Names<N>, s: Session<N>, sa: int, sb: int, at: int, bt: int, total: int, paths: int) {
    && s.graph.nodes == PresetNodes(n)
    && Preset(n, s.graph.edges, sa, sb, at, bt)
    && Consistent(s) && s.initialized && s.stepState.None?
    && s.maxFlow == Finite(total) && s.pathCount == paths
  }

  /** Initialising the loaded preset gives the session with no flow. */
  lemma PresetStart<N>(n: Names<N>)
    requires Distinct(n)
    ensures Initialize(Load(Start<N>(), PresetNodes(n), PresetSpecs(n))).Success?
    ensures PresetSession(n, Initialize(Load(Start<N>(), PresetNodes(n), PresetSpecs(n))).value, 0, 0, 0, 0, 0, 0)
  {
    PresetLoaded(n);
    PresetSimple(n, EdgesFromSpecs(PresetSpecs(n)), 0, 0, 0, 0);
    LoadThenInitialize(Start<N>(), PresetNodes(n), PresetSpecs(n));
  }

  /** A path that is augmenting in the preset's residual graph, with its bottleneck, is a valid pending path. */
  lemma PresetPending<N>(n: Names<N>, s: Session<N>, path: seq<N>, b: int,
                         sa: int, sb: int, at: int, bt: int, total: int, paths: int)
    requires Distinct(n) && PresetSession(n, s, sa, sb, at, bt, total, paths)
    requires var r := PresetResidual(n, sa, sb, at, bt);
      && IsAugmentingPath(r, n.s, n.t, path) && NoRepeats(path)
      && HasEntries(r, path) && Bottleneck(r, path) == Finite(b)
    ensures Consistent(s.(stepState := Some(Pending(path, Finite(b)))))
  {
    PresetBuild(n, s.graph.nodes, s.graph.edges, sa, sb, at, bt);
  }

  /** Applying a finite pending path rebuilds from the augmented edges. */
  lemma AppliedEdges<N>(s: Session<N>, path: seq<N>, b: int)
    requires Consistent(s.(stepState := Some(Pending(path, Finite(b)))))
    ensures ApplyPending(s.(stepState := Some(Pending(path, Finite(b))))).graph.edges == AugmentFlow(s.graph.edges, path, b)
  {
  }

  /** Applying a finite pending path adds its bottleneck to a finite maximum flow. */
  lemma AppliedTotal<N>(s: Session<N>, path: seq<N>, b: int, total: int)
    requires s.maxFlow == Finite(total - b)
    requires Consistent(s.(stepState := Some(Pending(path, Finite(b)))))
    ensures ApplyPending(s.(stepState := Some(Pending(path, Finite(b))))).maxFlow == Finite(total)
  {
    assert Plus(Finite(total - b), Finite(b)).value == total - b + b;
  }

  /** Applying a pending path whose augmentation gives the preset with new flows adds its bottleneck and counts it. */
  lemma PresetApply<N>(n: Names<N>, s: Session<N>, path: seq<N>, b: int,
                       sa: int, sb: int, at: int, bt: int, total: int, paths: int)
    requires s.graph.nodes == PresetNodes(n) && s.maxFlow == Finite(total - b) && s.pathCount == paths - 1
    requires Consistent(s.(stepState := Some(Pending(path, Finite(b)))))
    requires Preset(n, AugmentFlow(s.graph.edges, path, b), sa, sb, at, bt)
    ensures PresetSession(n, ApplyPending(s.(stepState := Some(Pending(path, Finite(b))))), sa, sb, at, bt, total, paths)
  {
    AppliedEdges(s, path, b);
    AppliedTotal(s, path, b, total);
  }

  /** s-a-t is a valid pending path of the session with no flow. */
  lemma FirstPending<N>(n: Names<N>, s: Session<N>)
    requires Distinct(n) && PresetSession(n, s, 0, 0, 0, 0, 0, 0)
    ensures Consistent(s.(stepState := Some(Pending([n.s, n.a, n.t], Finite(10)))))
  {
    FirstPath(n);
    PresetPending(n, s, [n.s, n.a, n.t], 10, 0, 0, 0, 0, 0, 0);
  }

  /** Applying s-a-t fills both of its edges. */
  lemma FirstApplied<N>(n: Names<N>, s: Session<N>)
    requires Distinct(n) && PresetSession(n, s, 0, 0, 0, 0, 0, 0)
    requires Consistent(s.(stepState := Some(Pending([n.s, n.a, n.t], Finite(10)))))
    ensures PresetSession(n, ApplyPending(s.(stepState := Some(Pending([n.s, n.a, n.t], Finite(10))))), 10, 0, 10, 0, 10, 1)
  {
    PushSAT(n, s.graph.edges, 0, 0, 0, 0, 10);
    PresetApply(n, s, [n.s, n.a, n.t], 10, 10, 0, 10, 0, 10, 1);
  }

  /** s-b-t is a valid pending path once s-a-t is full. */
  lemma SecondPending<N>(n: Names<N>, s: Session<N>)
    requires Distinct(n) && PresetSession(n, s, 10, 0, 10, 0, 10, 1)
    ensures Consistent(s.(stepState := Some(Pending([n.s, n.b, n.t], Finite(5)))))
  {
    SecondPath(n);
    PresetPending(n, s, [n.s, n.b, n.t], 5, 10, 0, 10, 0, 10, 1);
  }

  /** Applying s-b-t fills the edge s-b, leaving b-t with 5 to spare. */
  lemma SecondApplied<N>(n: Names<N>, s: Session<N>)
    requires Distinct(n) && PresetSession(n, s, 10, 0, 10, 0, 10, 1)
    requires Consistent(s.(stepState := Some(Pending([n.s, n.b, n.t], Finite(5)))))
    ensures PresetSession(n, ApplyPending(s.(stepState := Some(Pending([n.s, n.b, n.t], Finite(5))))), 10, 5, 10, 5, 15, 2)
  {
    PushSBT(n, s.graph.edges, 10, 0, 10, 0, 5);
    PresetApply(n, s, [n.s, n.b, n.t], 5, 10, 5, 10, 5, 15, 2);
  }

  /** In the final session the search has nothing left to find. */
  lemma PresetDone<N>(n: Names<N>, s: Session<N>)
    requires Distinct(n) && PresetSession(n, s, 10, 5, 10, 5, 15, 2)
    ensures forall p :: !IsAugmentingPath(s.residual, Source(s.graph.nodes), Sink(s.graph.nodes), p)
  {
    PresetBuild(n, s.graph.nodes, s.graph.edges, 10, 5, 10, 5);
    Saturated(n);
  }

  /** From the session with no flow, s-a-t is valid when found, and applying it reports a flow of 10 after one path. */
  lemma PresetFirst<N>(n: Names<N>, s0: Session<N>)
    requires Distinct(n) && PresetSession(n, s0, 0, 0, 0, 0, 0, 0)
    ensures var p0 := s0.(stepState := Some(Pending([n.s, n.a, n.t], Finite(10))));
      && Consistent(p0) && PresetSession(n, ApplyPending(p0), 10, 0, 10, 0, 10, 1)
  {
    FirstPending(n, s0);
    FirstApplied(n, s0);
  }

  /**
   * From the session after s-a-t, s-b-t is valid when found; applying it
   * reports a maximum flow of 15 after two paths, and the next search finds
   * nothing.
   */
  lemma PresetSecond<N>(n: Names<N>, s1: Session<N>)
    requires Distinct(n) && PresetSession(n, s1, 10, 0, 10, 0, 10, 1)
    ensures var p1 := s1.(stepState := Some(Pending([n.s, n.b, n.t], Finite(5))));
      && Consistent(p1)
      && var s2 := ApplyPending(p1);
      && s2.maxFlow == Finite(15) && s2.pathCount == 2
      && forall p :: !IsAugmentingPath(s2.residual, Source(s2.graph.nodes), Sink(s2.graph.nodes), p)
  {
    SecondPending(n, s1);
    SecondApplied(n, s1);
    PresetDone(n, ApplyPending(s1.(stepState := Some(Pending([n.s, n.b, n.t], Finite(5))))));
  }

  /** Loading and initialising the preset, then applying s-a-t, gives the session `PresetSecond` starts from. */
  lemma PresetRun<N>(n: Names<N>)
    requires Distinct(n)
    ensures Initialize(Load(Start<N>(), PresetNodes(n), PresetSpecs(n))).Success?
    ensures var s0 := Initialize(Load(Start<N>(), PresetNodes(n), PresetSpecs(n))).value;
      && s0.maxFlow == Finite(0) && s0.pathCount == 0 && s0.stepState.None?
      && var p0 := s0.(stepState := Some(Pending([n.s, n.a, n.t], Finite(10))));
      && Consistent(p0) && PresetSession(n, ApplyPending(p0), 10, 0, 10, 0, 10, 1)
  {
    PresetStart(n);
    PresetFirst(n, Initialize(Load(Start<N>(), PresetNodes(n), PresetSpecs(n))).value);
  }
}
