/**
 * The step-by-step driver of the visualisation: load, initialise, step and
 * reset, over an immutable session value. A step either applies the pending
 * augmentation or runs one search and keeps its result pending.
 */
module Engine {
  import opened Wrappers
  import opened FlowGraph
  import opened Residual
  import opened Search
  import opened Augment
  import opened Conservation

  /** A path found by the last search, waiting to be applied by the next step. */
  datatype Pending<N> = Pending(path: seq<N>, bottleneck: Amount)

  /** The engine's share of the page state. */
  datatype Session<N> = Session(
    graph: Graph<N>,
    residual: ResidualGraph<N>,
    maxFlow: Amount,
    pathCount: int,
    initialized: bool,
    stepState: Option<Pending<N>>)

  /** What a step reports in its log line and toast. */
  datatype Event<N> =
    | NotInitialized
    | Augmented(path: seq<N>, bottleneck: Amount, maxFlow: Amount, pathCount: int)
    | PathFound(path: seq<N>, bottleneck: Amount)
    | Complete(maxFlow: Amount)

  /** Why initialisation refused to start. */
  datatype EngineError = NoGraphLoaded

  /** The state when the page loads: no graph, nothing initialised. */
  function Start<N>(): (s: Session<N>)
    ensures !s.initialized && s.stepState.None?
    ensures s.graph == Graph([], []) && s.residual == map[]
    ensures s.maxFlow == Finite(0) && s.pathCount == 0
  {
    Session(Graph([], []), map[], Finite(0), 0, false, None)
  }

  /** Every node other than the source and the sink has net outflow zero. */
  predicate Conserving<N(==)>(nodes: seq<N>, edges: seq<Edge<N>>)
    requires |nodes| > 0
  {
    forall i :: 0 <= i < |nodes| && nodes[i] != Source(nodes) && nodes[i] != Sink(nodes) ==> Net(edges, nodes[i]) == 0
  }

  /** A graph with neither parallel nor antiparallel edges and no negative capacity. */
  predicate Simple<N(==)>(edges: seq<Edge<N>>) {
    NoParallel(edges) && NoAntiparallel(edges) && CapacitiesNonNegative(edges)
  }

  /** The facts that hold of an initialised session between steps. */
  predicate Running<N(==)>(s: Session<N>) {
    && |s.graph.nodes| > 0
    && EndpointsDeclared(s.graph)
    && s.residual == Build(s.graph.nodes, s.graph.edges)
    && Conserving(s.graph.nodes, s.graph.edges)
    && (s.maxFlow.Finite? ==> s.maxFlow.value == Net(s.graph.edges, Source(s.graph.nodes)))
    && (Simple(s.graph.edges) ==> WithinCapacity(s.graph.edges))
    && s.pathCount >= 0
  }

  /** A pending path is an augmenting path of the current residual graph, with its bottleneck. */
  predicate PendingValid<N(==)>(s: Session<N>, p: Pending<N>)
    requires |s.graph.nodes| > 0
  {
    && IsAugmentingPath(s.residual, Source(s.graph.nodes), Sink(s.graph.nodes), p.path)
    && NoRepeats(p.path)
    && HasEntries(s.residual, p.path)
    && p.bottleneck == Bottleneck(s.residual, p.path)
  }

  /**
   * The invariant of every reachable session: once initialised, the residual
   * graph is the rebuild of the current flows, flow is conserved at inner
   * nodes, a finite reported maximum flow is the net outflow of the source,
   * and on a simple graph every flow is within capacity; a pending path is
   * only ever held by an initialised session and is valid for it.
   */
  predicate Consistent<N(==)>(s: Session<N>) {
    && (s.initialized ==> Running(s))
    && (s.stepState.Some? ==> s.initialized && PendingValid(s, s.stepState.value))
  }

  /**
   * `reset`: leave the initialised state, zero the counters and every flow and
   * drop any pending path. The residual graph is not rebuilt; it is rebuilt
   * by the next initialisation before anything reads it.
   */
  function Reset<N(==)>(s: Session<N>): (s': Session<N>)
    ensures Consistent(s')
    ensures !s'.initialized && s'.stepState.None?
    ensures s'.maxFlow == Finite(0) && s'.pathCount == 0
    ensures s'.graph.nodes == s.graph.nodes && SameShape(s.graph.edges, s'.graph.edges)
    ensures forall k :: 0 <= k < |s'.graph.edges| ==> s'.graph.edges[k].flow == 0
    ensures s'.residual == s.residual
  {
    Session(s.graph.(edges := ZeroFlows(s.graph.edges)), s.residual, Finite(0), 0, false, None)
  }

  /** `loadGraph`: replace the graph by the given nodes and edges, with flow 0, then reset. */
  function Load<N(==)>(s: Session<N>, nodes: seq<N>, specs: seq<EdgeSpec<N>>): (s': Session<N>)
    ensures Consistent(s') && !s'.initialized && s'.stepState.None?
    ensures s'.graph == Graph(nodes, EdgesFromSpecs(specs))
    ensures s'.maxFlow == Finite(0) && s'.pathCount == 0
    ensures s'.residual == s.residual
  {
    ZeroFlowsFixed(EdgesFromSpecs(specs));
    Reset(s.(graph := Graph(nodes, EdgesFromSpecs(specs))))
  }

  /** Zero flows are conserved everywhere and give the source a net outflow of zero. */
  lemma ZeroConserving<N>(nodes: seq<N>, edges: seq<Edge<N>>)
    requires |nodes| > 0
    requires forall k :: 0 <= k < |edges| ==> edges[k].flow == 0
    ensures Conserving(nodes, edges)
    ensures Net(edges, Source(nodes)) == 0
  {
    forall i | 0 <= i < |nodes| ensures Net(edges, nodes[i]) == 0 {
      NetZero(edges, nodes[i]);
    }
    NetZero(edges, Source(nodes));
  }

  /**
   * `initialize`: with no nodes it refuses; otherwise it marks the session
   * initialised, zeroes the counters and every flow, drops any pending path
   * and rebuilds the residual graph.
   */
  function Initialize<N(==)>(s: Session<N>): (r: Result<Session<N>, EngineError>)
    requires |s.graph.nodes| > 0 ==> EndpointsDeclared(s.graph)
    ensures r.Failure? <==> |s.graph.nodes| == 0
    ensures r.Failure? ==> r.error == NoGraphLoaded
    ensures r.Success? ==> Consistent(r.value) && r.value.initialized && r.value.stepState.None?
    ensures r.Success? ==> r.value.maxFlow == Finite(0) && r.value.pathCount == 0
    ensures r.Success? ==> r.value.graph.nodes == s.graph.nodes && SameShape(s.graph.edges, r.value.graph.edges)
    ensures r.Success? ==> forall k :: 0 <= k < |r.value.graph.edges| ==> r.value.graph.edges[k].flow == 0
  {
    if |s.graph.nodes| == 0 then Failure(NoGraphLoaded)
    else
      var edges := ZeroFlows(s.graph.edges);
      ZeroConserving(s.graph.nodes, edges);
      Success(Session(s.graph.(edges := edges), Build(s.graph.nodes, edges), Finite(0), 0, true, None))
  }

  /** Resetting twice is resetting once. */
  lemma ResetIdempotent<N>(s: Session<N>)
    ensures Reset(Reset(s)) == Reset(s)
  {
    ZeroFlowsFixed(Reset(s).graph.edges);
  }

  /** Initialising after a reset is initialising: the reset leaves nothing the initialisation reads. */
  lemma InitializeAfterReset<N>(s: Session<N>)
    requires |s.graph.nodes| > 0 ==> EndpointsDeclared(s.graph)
    ensures Initialize(Reset(s)) == Initialize(s)
  {
    ZeroFlowsFixed(Reset(s).graph.edges);
  }

  /** Initialising an initialised session that has not stepped changes nothing. */
  lemma InitializeIdempotent<N>(s: Session<N>)
    requires |s.graph.nodes| > 0 && EndpointsDeclared(s.graph)
    ensures Initialize(s).Success? && Initialize(Initialize(s).value) == Initialize(s)
  {
    ZeroFlowsFixed(Initialize(s).value.graph.edges);
  }

  /**
   * Loading a graph with declared endpoints and then initialising yields the
   * loaded edges with flow 0, the residual graph rebuilt from them, and
   * counters at zero, whatever the session held before.
   */
  lemma LoadThenInitialize<N>(s: Session<N>, nodes: seq<N>, specs: seq<EdgeSpec<N>>)
    requires |nodes| > 0 && EndpointsIn(nodes, EdgesFromSpecs(specs))
    ensures Initialize(Load(s, nodes, specs)).Success?
    ensures var t := Initialize(Load(s, nodes, specs)).value;
      && t.graph == Graph(nodes, EdgesFromSpecs(specs))
      && t.residual == Build(nodes, EdgesFromSpecs(specs))
      && t.maxFlow == Finite(0) && t.pathCount == 0 && t.initialized && t.stepState.None?
  {
    ZeroFlowsFixed(EdgesFromSpecs(specs));
  }

  /** The flows after applying the pending path: an infinite bottleneck comes with a path that has no pair. */
  function PushedEdges<N(==)>(s: Session<N>): seq<Edge<N>>
    requires Consistent(s) && s.stepState.Some?
  {
    match s.stepState.value.bottleneck
    case Finite(b) => AugmentFlow(s.graph.edges, s.stepState.value.path, b)
    case Infinite => s.graph.edges
  }

  /** A path of the search repeats no node, so it has a single node exactly when source and sink coincide. */
  lemma PathLength<N>(r: ResidualGraph<N>, s: N, t: N, path: seq<N>)
    requires IsAugmentingPath(r, s, t, path) && NoRepeats(path)
    ensures |path| < 2 <==> s == t
  {
  }

  /** Simplicity sees only endpoints and capacities. */
  lemma SimpleShape<N>(a: seq<Edge<N>>, b: seq<Edge<N>>)
    requires SameShape(a, b)
    ensures Simple(a) <==> Simple(b)
  {
    assert forall i :: 0 <= i < |a| ==> a[i].u == b[i].u && a[i].v == b[i].v && a[i].capacity == b[i].capacity;
  }

  /**
   * Pushing `b > 0` along an augmenting path of the rebuilt graph from the
   * source to a different sink keeps inner nodes conserved and adds exactly
   * `b` to the net outflow of the source.
   */
  lemma PushConserves<N>(nodes: seq<N>, edges: seq<Edge<N>>, path: seq<N>, b: int)
    requires |nodes| > 0 && EndpointsIn(nodes, edges) && Conserving(nodes, edges)
    requires IsAugmentingPath(Build(nodes, edges), Source(nodes), Sink(nodes), path)
    requires NoRepeats(path) && |path| >= 2
    ensures Conserving(nodes, AugmentFlow(edges, path, b))
    ensures Net(AugmentFlow(edges, path, b), Source(nodes)) == Net(edges, Source(nodes)) + b
  {
    var source, sink := Source(nodes), Sink(nodes);
    var edges' := AugmentFlow(edges, path, b);
    AugmentingPathLinked(nodes, edges, source, sink, path);
    forall i | 0 <= i < |nodes| && nodes[i] != source && nodes[i] != sink
      ensures Net(edges', nodes[i]) == 0
    {
      AugmentKeepsNet(edges, path, b, nodes[i]);
    }
    assert path[0] != path[|path| - 1];
    AugmentRaisesSource(edges, path, b);
  }

  /** Pushing a finite bottleneck along a pending path. */
  lemma FinitePush<N>(nodes: seq<N>, edges: seq<Edge<N>>, path: seq<N>, b: int)
    requires |nodes| > 0 && EndpointsIn(nodes, edges) && Conserving(nodes, edges)
    requires Simple(edges) ==> WithinCapacity(edges)
    requires IsAugmentingPath(Build(nodes, edges), Source(nodes), Sink(nodes), path) && NoRepeats(path)
    requires HasEntries(Build(nodes, edges), path) && Bottleneck(Build(nodes, edges), path) == Finite(b)
    ensures 0 < b
    ensures EndpointsIn(nodes, AugmentFlow(edges, path, b))
    ensures Conserving(nodes, AugmentFlow(edges, path, b))
    ensures Net(AugmentFlow(edges, path, b), Source(nodes)) == Net(edges, Source(nodes)) + b
    ensures Simple(AugmentFlow(edges, path, b)) ==> WithinCapacity(AugmentFlow(edges, path, b))
  {
    var r := Build(nodes, edges);
    var edges' := AugmentFlow(edges, path, b);
    BottleneckPositive(r, Source(nodes), Sink(nodes), path);
    PushConserves(nodes, edges, path, b);
    SimpleShape(edges, edges');
    if Simple(edges) {
      AugmentWithinCapacity(nodes, edges, path, b);
    }
  }

  /** Applying the pending path keeps the graph's shape, conservation, the flow value and the capacity bound. */
  lemma PushPreserves<N>(s: Session<N>)
    requires Consistent(s) && s.stepState.Some?
    ensures var edges' := PushedEdges(s);
      && SameShape(s.graph.edges, edges')
      && EndpointsIn(s.graph.nodes, edges')
      && Conserving(s.graph.nodes, edges')
      && (Plus(s.maxFlow, s.stepState.value.bottleneck).Finite? ==>
            Plus(s.maxFlow, s.stepState.value.bottleneck).value == Net(edges', Source(s.graph.nodes)))
      && (Simple(edges') ==> WithinCapacity(edges'))
  {
    if s.stepState.value.bottleneck.Finite? {
      PushFinite(s);
    } else {
      PushInfinite(s);
    }
  }

  lemma PushFinite<N>(s: Session<N>)
    requires Consistent(s) && s.stepState.Some? && s.stepState.value.bottleneck.Finite?
    ensures var edges' := PushedEdges(s);
      && SameShape(s.graph.edges, edges')
      && EndpointsIn(s.graph.nodes, edges')
      && Conserving(s.graph.nodes, edges')
      && (Plus(s.maxFlow, s.stepState.value.bottleneck).Finite? ==>
            Plus(s.maxFlow, s.stepState.value.bottleneck).value == Net(edges', Source(s.graph.nodes)))
      && (Simple(edges') ==> WithinCapacity(edges'))
  {
    var p := s.stepState.value;
    FinitePush(s.graph.nodes, s.graph.edges, p.path, p.bottleneck.value);
  }

  lemma PushInfinite<N>(s: Session<N>)
    requires Consistent(s) && s.stepState.Some? && s.stepState.value.bottleneck.Infinite?
    ensures var edges' := PushedEdges(s);
      && SameShape(s.graph.edges, edges')
      && EndpointsIn(s.graph.nodes, edges')
      && Conserving(s.graph.nodes, edges')
      && Plus(s.maxFlow, s.stepState.value.bottleneck).Infinite?
      && (Simple(edges') ==> WithinCapacity(edges'))
  {
  }

  /**
   * The augmenting half of `step`: push the pending bottleneck along its
   * path, rebuild the residual graph, add the bottleneck to the maximum flow,
   * count the path and clear the pending state.
   */
  function ApplyPending<N(==)>(s: Session<N>): (s': Session<N>)
    requires Consistent(s) && s.stepState.Some?
    ensures Consistent(s') && s'.initialized && s'.stepState.None?
    ensures s'.maxFlow == Plus(s.maxFlow, s.stepState.value.bottleneck)
    ensures AtMost(s.maxFlow, s'.maxFlow)
    ensures s'.pathCount == s.pathCount + 1
    ensures s'.graph.nodes == s.graph.nodes && SameShape(s.graph.edges, s'.graph.edges)
    ensures s.stepState.value.bottleneck.Infinite? ==> s'.graph.edges == s.graph.edges
    ensures s.stepState.value.bottleneck.Finite? ==> forall k :: 0 <= k < |s.graph.edges| ==>
      s'.graph.edges[k].flow == s.graph.edges[k].flow + s.stepState.value.bottleneck.value * Delta(s.graph.edges, s.stepState.value.path, k)
  {
    var p := s.stepState.value;
    var edges' := PushedEdges(s);
    AppliedConsistent(s);
    PendingPositive(s);
    Session(s.graph.(edges := edges'), Build(s.graph.nodes, edges'), Plus(s.maxFlow, p.bottleneck), s.pathCount + 1, true, None)
  }

  /** The session after the push satisfies the invariant. */
  lemma AppliedConsistent<N>(s: Session<N>)
    requires Consistent(s) && s.stepState.Some?
    ensures var edges' := PushedEdges(s);
      Consistent(Session(s.graph.(edges := edges'), Build(s.graph.nodes, edges'), Plus(s.maxFlow, s.stepState.value.bottleneck), s.pathCount + 1, true, None))
  {
    PushPreserves(s);
  }

  /** A pending finite bottleneck is positive. */
  lemma PendingPositive<N>(s: Session<N>)
    requires Consistent(s) && s.stepState.Some?
    ensures s.stepState.value.bottleneck.Finite? ==> s.stepState.value.bottleneck.value > 0
  {
    var p := s.stepState.value;
    if p.bottleneck.Finite? {
      BottleneckPositive(s.residual, Source(s.graph.nodes), Sink(s.graph.nodes), p.path);
    }
  }

  /**
   * `step`. Before initialisation it does nothing. With a pending path it
   * applies it. Otherwise it searches once: with no augmenting path it
   * reports completion and changes nothing; with one it stores the path and
   * its bottleneck as pending and changes nothing else.
   */
  method Step<N(==)>(s: Session<N>) returns (s': Session<N>, ev: Event<N>)
    requires Consistent(s)
    ensures Consistent(s')
    ensures !s.initialized ==> s' == s && ev == NotInitialized
    ensures s.initialized && s.stepState.Some? ==>
      s' == ApplyPending(s) && ev == Augmented(s.stepState.value.path, s.stepState.value.bottleneck, s'.maxFlow, s'.pathCount)
    ensures s.initialized && s.stepState.None? ==> ev.PathFound? || ev.Complete?
    ensures s.initialized && s.stepState.None? ==>
      (ev.Complete? <==> forall p :: !IsAugmentingPath(s.residual, Source(s.graph.nodes), Sink(s.graph.nodes), p))
    ensures ev.Complete? ==> s' == s && ev.maxFlow == s.maxFlow
    ensures ev.PathFound? ==> s' == s.(stepState := Some(Pending(ev.path, ev.bottleneck)))
    ensures ev.PathFound? ==> (ev.bottleneck.Infinite? <==> Source(s.graph.nodes) == Sink(s.graph.nodes))
    ensures ev.PathFound? && ev.bottleneck.Finite? ==> ev.bottleneck.value > 0
    ensures AtMost(s.maxFlow, s'.maxFlow)
    ensures s'.pathCount == s.pathCount + (if ev.Augmented? then 1 else 0)
    ensures s'.graph.nodes == s.graph.nodes && SameShape(s.graph.edges, s'.graph.edges)
  {
    if !s.initialized {
      return s, NotInitialized;
    }
    if s.stepState.Some? {
      s' := ApplyPending(s);
      ev := Augmented(s.stepState.value.path, s.stepState.value.bottleneck, s'.maxFlow, s'.pathCount);
      return;
    }
    var source, sink := Source(s.graph.nodes), Sink(s.graph.nodes);
    var found, _ := FindAugmentingPath(s.graph.nodes, s.residual);
    match found
    case None =>
      s', ev := s, Complete(s.maxFlow);
    case Some(path) =>
      PathLength(s.residual, source, sink, path);
      PathEntries(s.residual, source, sink, path);
      if |path| >= 2 {
        BottleneckPositive(s.residual, source, sink, path);
      }
      var b := Bottleneck(s.residual, path);
      s' := s.(stepState := Some(Pending(path, b)));
      ev := PathFound(path, b);
  }
}
