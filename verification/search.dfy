/**
 * The breadth-first search for an augmenting path in the residual graph,
 * following only arcs of positive residual capacity.
 */
module Search {
  import opened Wrappers
  import opened FlowGraph
  import opened Residual

  /** `p` leads from `s` to `t` and every consecutive arc has positive residual capacity. */
  predicate IsAugmentingPath<N(==)>(r: ResidualGraph<N>, s: N, t: N, p: seq<N>) {
    && |p| > 0
    && p[0] == s
    && p[|p| - 1] == t
    && forall i :: 0 <= i < |p| - 1 ==> ResidualOf(r, p[i], p[i + 1]) > 0
  }

  /** No node occurs twice. */
  predicate NoRepeats<N(==)>(p: seq<N>) {
    forall i, j :: 0 <= i < j < |p| ==> p[i] != p[j]
  }

  /** Every node that appears as a neighbour in some neighbour map. */
  ghost function Targets<N>(r: ResidualGraph<N>): set<N> {
    set x, k | x in r && 0 <= k < |r[x]| :: r[x][k].0
  }

  /** Every positive-residual neighbour of `x` is already in `visited`. */
  ghost predicate Expanded<N>(r: ResidualGraph<N>, x: N, visited: set<N>) {
    x in r ==> forall k :: 0 <= k < |r[x]| && r[x][k].1 > 0 ==> r[x][k].0 in visited
  }

  /** `visited` is closed under positive-residual arcs. */
  ghost predicate Closed<N>(r: ResidualGraph<N>, visited: set<N>) {
    forall x :: x in visited ==> Expanded(r, x, visited)
  }

  /** A positive arc out of a closed set stays inside it. */
  lemma ClosedStep<N>(r: ResidualGraph<N>, visited: set<N>, x: N, y: N)
    requires WellFormed(r) && Closed(r, visited) && x in visited
    requires ResidualOf(r, x, y) > 0
    ensures y in visited
  {
    var k := GetFound(r[x], y);
    assert Expanded(r, x, visited);
  }

  /** No augmenting path leaves a closed set that holds the source but not the sink. */
  lemma {:induction false} ClosedBlocksPaths<N>(r: ResidualGraph<N>, visited: set<N>, s: N, t: N, p: seq<N>)
    requires WellFormed(r) && Closed(r, visited) && s in visited && t !in visited
    ensures !IsAugmentingPath(r, s, t, p)
  {
    if IsAugmentingPath(r, s, t, p) {
      var i := 0;
      while i < |p| - 1
        invariant 0 <= i < |p| && p[i] in visited
      {
        ClosedStep(r, visited, p[i], p[i + 1]);
        i := i + 1;
      }
    }
  }

  /**
   * The search tree built so far: `queue` lists every visited node once, in
   * visiting order, starting at the source, and every later node hangs off an
   * earlier one (`from[i]` is its parent's position) by a positive arc.
   */
  ghost predicate Tree<N>(r: ResidualGraph<N>, source: N, visited: set<N>, parent: map<N, N>, queue: seq<N>, from: seq<nat>) {
    && 0 < |queue|
    && |from| == |queue|
    && queue[0] == source
    && (forall i :: 0 <= i < |queue| ==> queue[i] in visited)
    && (forall x :: x in visited ==> x in queue)
    && (forall i, j :: 0 <= i < j < |queue| ==> queue[i] != queue[j])
    && forall i :: 1 <= i < |queue| ==>
      && from[i] < i
      && queue[i] in parent
      && parent[queue[i]] == queue[from[i]]
      && ResidualOf(r, queue[from[i]], queue[i]) > 0
  }

  /** Visiting a new node `v` through a positive arc from `queue[h]` extends the tree. */
  lemma TreeExtend<N>(r: ResidualGraph<N>, source: N, visited: set<N>, parent: map<N, N>, queue: seq<N>, from: seq<nat>, h: nat, v: N)
    requires Tree(r, source, visited, parent, queue, from)
    requires h < |queue| && v !in visited && ResidualOf(r, queue[h], v) > 0
    ensures Tree(r, source, visited + {v}, parent[v := queue[h]], queue + [v], from + [h])
  {
    var queue', from' := queue + [v], from + [h];
    forall i | 1 <= i < |queue'|
      ensures from'[i] < i && queue'[i] in parent[v := queue[h]]
      ensures parent[v := queue[h]][queue'[i]] == queue'[from'[i]]
      ensures ResidualOf(r, queue'[from'[i]], queue'[i]) > 0
    {
      if i < |queue| {
        assert queue'[i] == queue[i] != v;
      }
    }
  }

  /** Growing the visited set keeps every expanded node expanded. */
  lemma ExpandedGrow<N>(r: ResidualGraph<N>, queue: seq<N>, n: nat, visited: set<N>, visited': set<N>)
    requires n <= |queue| && visited <= visited'
    requires forall i :: 0 <= i < n ==> Expanded(r, queue[i], visited)
    ensures forall i :: 0 <= i < n ==> Expanded(r, queue[i], visited')
  {
  }

  /**
   * The path walked back so far: `current` sits at queue position `at`,
   * `trail` leads from just after `current` to the sink along positive arcs,
   * and `where[j]`, the queue position of `trail[j]`, increases along it.
   */
  ghost predicate Trail<N>(r: ResidualGraph<N>, queue: seq<N>, sink: N, at: nat, current: N, trail: seq<N>, where: seq<nat>) {
    && at < |queue| && queue[at] == current
    && |where| == |trail|
    && (forall j :: 0 <= j < |trail| ==> at < where[j] < |queue| && queue[where[j]] == trail[j])
    && (forall j, j' :: 0 <= j < j' < |trail| ==> where[j] < where[j'])
    && (|trail| == 0 ==> current == sink)
    && (|trail| > 0 ==> trail[|trail| - 1] == sink && ResidualOf(r, current, trail[0]) > 0)
    && (forall j :: 0 <= j < |trail| - 1 ==> ResidualOf(r, trail[j], trail[j + 1]) > 0)
  }

  /** Stepping back to the parent `next`, at an earlier position, puts `current` in front of the trail. */
  lemma TrailGrow<N>(r: ResidualGraph<N>, queue: seq<N>, sink: N, at: nat, current: N, trail: seq<N>, where: seq<nat>,
                     at': nat, next: N)
    requires Trail(r, queue, sink, at, current, trail, where)
    requires at' < at && queue[at'] == next && ResidualOf(r, next, current) > 0
    ensures Trail(r, queue, sink, at', next, [current] + trail, [at] + where)
  {
    var trail', where' := [current] + trail, [at] + where;
    assert forall j :: 1 <= j < |trail'| ==> trail'[j] == trail[j - 1] && where'[j] == where[j - 1];
  }

  /** Walk the parent pointers back from the sink, found at queue position `at0`, to the source. */
  method TracePath<N(==)>(r: ResidualGraph<N>, source: N, sink: N, parent: map<N, N>,
                          ghost queue: seq<N>, ghost from: seq<nat>, ghost at0: nat)
    returns (path: seq<N>)
    requires 0 < |queue| && |from| == |queue| && queue[0] == source
    requires NoRepeats(queue)
    requires forall i :: 1 <= i < |queue| ==>
      && from[i] < i
      && queue[i] in parent
      && parent[queue[i]] == queue[from[i]]
      && ResidualOf(r, queue[from[i]], queue[i]) > 0
    requires at0 < |queue| && queue[at0] == sink
    ensures IsAugmentingPath(r, source, sink, path)
    ensures NoRepeats(path)
  {
    var current := sink;
    ghost var at := at0;
    var trail: seq<N> := [];
    ghost var where: seq<nat> := [];
    while current != source
      invariant Trail(r, queue, sink, at, current, trail, where)
      decreases at
    {
      assert at != 0 by {
        assert queue[0] == source != current;
      }
      var next := parent[current];
      TrailGrow(r, queue, sink, at, current, trail, where, from[at], next);
      trail := [current] + trail;
      where := [at] + where;
      current := next;
      at := from[at];
    }
    path := [source] + trail;
    ConsTrail(queue, source, trail, where, at);
  }

  /**
   * A trail read off the queue at strictly increasing positions, all after
   * the source's own, repeats no node once the source is put in front.
   */
  lemma ConsTrail<N>(queue: seq<N>, source: N, trail: seq<N>, where: seq<nat>, at: nat)
    requires NoRepeats(queue) && at < |queue| && queue[at] == source && |where| == |trail|
    requires forall j :: 0 <= j < |trail| ==> at < where[j] < |queue| && queue[where[j]] == trail[j]
    requires forall j, j' :: 0 <= j < j' < |trail| ==> where[j] < where[j']
    ensures NoRepeats([source] + trail)
  {
    var path, where' := [source] + trail, [at] + where;
    assert forall j :: 0 <= j < |path| ==> where'[j] < |queue| && path[j] == queue[where'[j]];
    forall j, j' | 0 <= j < j' < |path| ensures path[j] != path[j'] {
      assert where'[j] < where'[j'];
    }
  }

  /**
   * The search state only grows: `visited` gains nodes within `universe`,
   * the queue gains nodes at its end, and it gains some only when `visited`
   * does.
   */
  ghost predicate Grows<N>(visited: set<N>, queue: seq<N>, visited': set<N>, queue': seq<N>, universe: set<N>) {
    && visited <= visited' <= universe
    && (visited' == visited ==> queue' == queue)
    && |queue| <= |queue'|
    && forall i :: 0 <= i < |queue| ==> queue'[i] == queue[i]
  }

  lemma GrowsTrans<N>(v0: set<N>, q0: seq<N>, v1: set<N>, q1: seq<N>, v2: set<N>, q2: seq<N>, universe: set<N>)
    requires Grows(v0, q0, v1, q1, universe) && Grows(v1, q1, v2, q2, universe)
    ensures Grows(v0, q0, v2, q2, universe)
  {
  }

  /** Every entry of a neighbour map names one of the graph's targets. */
  lemma TargetAt<N>(r: ResidualGraph<N>, u: N, k: nat)
    requires u in r && k < |r[u]|
    ensures r[u][k].0 in Targets(r)
  {
  }

  /** Every positive-residual entry among the first `k` of `a` is in `visited`. */
  ghost predicate Scanned<N>(a: Adjacency<N>, k: nat, visited: set<N>) {
    forall j :: 0 <= j < k && j < |a| && a[j].1 > 0 ==> a[j].0 in visited
  }

  lemma ScannedStep<N>(a: Adjacency<N>, k: nat, visited: set<N>, visited': set<N>)
    requires k < |a| && Scanned(a, k, visited) && visited <= visited'
    requires a[k].1 > 0 ==> a[k].0 in visited'
    ensures Scanned(a, k + 1, visited')
  {
  }

  /**
   * One iteration of the inner `for (const [v, residual] of neighbors)` loop
   * for the node `u` at position `head - 1`: an unvisited `v` with positive
   * residual is marked visited, given `u` as parent and queued; otherwise
   * nothing changes.
   */
  method Offer<N(==)>(r: ResidualGraph<N>, source: N, u: N, head: nat, v: N, residual: int,
                      visited: set<N>, parent: map<N, N>, queue: seq<N>, ghost from: seq<nat>, ghost universe: set<N>)
    returns (visited': set<N>, parent': map<N, N>, queue': seq<N>, ghost from': seq<nat>)
    requires Tree(r, source, visited, parent, queue, from)
    requires 0 < head <= |queue| && queue[head - 1] == u
    requires residual > 0 ==> ResidualOf(r, u, v) == residual && v in universe
    requires visited <= universe
    ensures Tree(r, source, visited', parent', queue', from')
    ensures Grows(visited, queue, visited', queue', universe)
    ensures residual > 0 ==> v in visited'
  {
    if v !in visited && residual > 0 {
      TreeExtend(r, source, visited, parent, queue, from, head - 1, v);
      visited', parent', queue', from' := visited + {v}, parent[v := u], queue + [v], from + [head - 1];
      assert v in visited' && v !in visited;
      assert forall i :: 0 <= i < |queue| ==> queue'[i] == queue[i];
    } else {
      visited', parent', queue', from' := visited, parent, queue, from;
    }
  }

  /**
   * The inner `for (const [v, residual] of neighbors)` loop for the node `u`
   * just taken from position `head - 1`: every unvisited neighbour with
   * positive residual is marked visited, given `u` as parent and queued.
   */
  method ScanNeighbours<N(==)>(r: ResidualGraph<N>, source: N, u: N, head: nat,
                               visited: set<N>, parent: map<N, N>, queue: seq<N>, ghost from: seq<nat>, ghost universe: set<N>)
    returns (visited': set<N>, parent': map<N, N>, queue': seq<N>, ghost from': seq<nat>)
    requires WellFormed(r) && u in r
    requires Tree(r, source, visited, parent, queue, from)
    requires 0 < head <= |queue| && queue[head - 1] == u
    requires visited <= universe && Targets(r) <= universe
    ensures Tree(r, source, visited', parent', queue', from')
    ensures Grows(visited, queue, visited', queue', universe)
    ensures Expanded(r, u, visited')
  {
    var neighbours := r[u];
    visited', parent', queue', from' := visited, parent, queue, from;
    var k := 0;
    while k < |neighbours|
      invariant 0 <= k <= |neighbours|
      invariant Tree(r, source, visited', parent', queue', from')
      invariant Grows(visited, queue, visited', queue', universe)
      invariant Scanned(neighbours, k, visited')
    {
      var v, residual := neighbours[k].0, neighbours[k].1;
      if residual > 0 {
        TargetAt(r, u, k);
        GetAt(neighbours, k);
      }
      ghost var visited1, queue1 := visited', queue';
      visited', parent', queue', from' := Offer(r, source, u, head, v, residual, visited', parent', queue', from', universe);
      GrowsTrans(visited, queue, visited1, queue1, visited', queue', universe);
      ScannedStep(neighbours, k, visited1, visited');
      k := k + 1;
    }
  }

  /** Removing more elements of a finite set from it leaves fewer behind. */
  lemma ShrinkRemainder<N>(universe: set<N>, visited: set<N>, visited': set<N>)
    requires visited <= visited' <= universe && visited' != visited
    ensures |universe - visited'| < |universe - visited|
  {
    var gone := universe - visited';
    var left := universe - visited;
    var x :| x in visited' && x !in visited;
    assert left == gone + (left - gone);
    assert gone * (left - gone) == {};
    assert x in left - gone;
  }

  /** Once every queued node is expanded and the sink was never queued, no augmenting path exists. */
  lemma Exhausted<N>(r: ResidualGraph<N>, source: N, sink: N, visited: set<N>, parent: map<N, N>, queue: seq<N>, from: seq<nat>)
    requires WellFormed(r) && Tree(r, source, visited, parent, queue, from)
    requires forall i :: 0 <= i < |queue| ==> Expanded(r, queue[i], visited)
    requires forall i :: 0 <= i < |queue| ==> queue[i] != sink
    ensures forall p :: !IsAugmentingPath(r, source, sink, p)
  {
    assert Closed(r, visited) by {
      forall x | x in visited ensures Expanded(r, x, visited) {
        var i :| 0 <= i < |queue| && queue[i] == x;
      }
    }
    assert sink !in visited;
    forall p ensures !IsAugmentingPath(r, source, sink, p) {
      ClosedBlocksPaths(r, visited, source, sink, p);
    }
  }

  /**
   * One round of the outer loop for a dequeued node `queue[head]` that is not
   * the sink: scan its neighbour map (absent maps are skipped), after which
   * every node up to and including it is expanded.
   */
  method ExpandNext<N(==)>(r: ResidualGraph<N>, source: N, sink: N, head: nat,
                           visited: set<N>, parent: map<N, N>, queue: seq<N>, ghost from: seq<nat>, ghost universe: set<N>)
    returns (visited': set<N>, parent': map<N, N>, queue': seq<N>, ghost from': seq<nat>)
    requires WellFormed(r)
    requires Tree(r, source, visited, parent, queue, from)
    requires head < |queue| && queue[head] != sink
    requires visited <= universe && Targets(r) <= universe
    requires forall i :: 0 <= i < head ==> Expanded(r, queue[i], visited) && queue[i] != sink
    ensures Tree(r, source, visited', parent', queue', from')
    ensures Grows(visited, queue, visited', queue', universe)
    ensures forall i :: 0 <= i <= head ==> Expanded(r, queue'[i], visited') && queue'[i] != sink
  {
    var u := queue[head];
    if u in r {
      visited', parent', queue', from' := ScanNeighbours(r, source, u, head + 1, visited, parent, queue, from, universe);
      ExpandedGrow(r, queue, head, visited, visited');
      forall i | 0 <= i <= head ensures Expanded(r, queue'[i], visited') && queue'[i] != sink {
        assert queue'[i] == queue[i];
      }
    } else {
      visited', parent', queue', from' := visited, parent, queue, from;
      assert Expanded(r, u, visited);
    }
  }

  /** A queue without repeats, drawn from a set, is no longer than the set. */
  lemma {:induction false} DistinctBound<N>(q: seq<N>, bound: set<N>)
    requires forall i, j :: 0 <= i < j < |q| ==> q[i] != q[j]
    requires forall i :: 0 <= i < |q| ==> q[i] in bound
    ensures |q| <= |bound|
    decreases |q|
  {
    if |q| > 0 {
      var last := q[|q| - 1];
      var front := q[..|q| - 1];
      assert forall i :: 0 <= i < |front| ==> front[i] == q[i] && front[i] != last;
      DistinctBound(front, bound - {last});
    }
  }

  /** When every neighbour is a declared node, the queue never holds more nodes than are declared. */
  lemma QueueBound<N>(nodes: seq<N>, r: ResidualGraph<N>, visited: set<N>, parent: map<N, N>, queue: seq<N>, from: seq<nat>)
    requires |nodes| > 0 && NeighboursIn(r, nodes)
    requires Tree(r, nodes[0], visited, parent, queue, from)
    requires visited <= {nodes[0]} + Targets(r)
    ensures |queue| <= |NodeSet(nodes)|
  {
    assert visited <= NodeSet(nodes);
    DistinctBound(queue, NodeSet(nodes));
  }

  /**
   * `findAugmentingPath`: breadth-first search from `nodes[0]` towards
   * `nodes[last]`, visiting every node at most once and scanning each
   * neighbour map in insertion order. On reaching the sink the path is
   * rebuilt by walking parent pointers back to the source. It returns
   * `None` exactly when no augmenting path exists. `dequeues` counts the
   * nodes taken from the queue, at most one per declared node when every
   * neighbour is declared.
   */
  method FindAugmentingPath<N(==)>(nodes: seq<N>, r: ResidualGraph<N>) returns (path: Option<seq<N>>, dequeues: nat)
    requires |nodes| > 0
    requires WellFormed(r)
    ensures path.Some? ==> IsAugmentingPath(r, Source(nodes), Sink(nodes), path.value)
    ensures path.Some? ==> NoRepeats(path.value)
    ensures path.None? ==> forall p :: !IsAugmentingPath(r, Source(nodes), Sink(nodes), p)
    ensures 1 <= dequeues
    ensures NeighboursIn(r, nodes) ==> dequeues <= |NodeSet(nodes)|
  {
    var source := nodes[0];
    var sink := nodes[|nodes| - 1];

    var visited := {source};
    var parent: map<N, N> := map[];
    // The whole queue ever built; `queue[head..]` is what `queue.shift()` has not yet taken.
    var queue := [source];
    var head := 0;
    ghost var from: seq<nat> := [0];
    ghost var universe := {source} + Targets(r);

    while head < |queue|
      invariant head <= |queue|
      invariant Tree(r, source, visited, parent, queue, from)
      invariant visited <= universe
      invariant forall i :: 0 <= i < head ==> Expanded(r, queue[i], visited) && queue[i] != sink
      decreases |universe - visited|, |queue| - head
    {
      var u := queue[head];
      if u == sink {
        var found := TracePath(r, source, sink, parent, queue, from, head);
        path, dequeues := Some(found), head + 1;
        if NeighboursIn(r, nodes) {
          QueueBound(nodes, r, visited, parent, queue, from);
        }
        return;
      }
      ghost var visited0 := visited;
      visited, parent, queue, from := ExpandNext(r, source, sink, head, visited, parent, queue, from, universe);
      if visited != visited0 {
        ShrinkRemainder(universe, visited0, visited);
      }
      head := head + 1;
    }

    Exhausted(r, source, sink, visited, parent, queue, from);
    path, dequeues := None, head;
    if NeighboursIn(r, nodes) {
      QueueBound(nodes, r, visited, parent, queue, from);
    }
  }
}
