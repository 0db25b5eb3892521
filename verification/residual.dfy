/**
 * The residual graph: for every node, an insertion-ordered neighbour map
 * (a JavaScript `Map`) from neighbour to residual capacity, rebuilt from the
 * current flows by one pass over the edges.
 */
module Residual {
  import opened Wrappers
  import opened FlowGraph

  /** A neighbour map; iteration order is insertion order, keys are distinct. */
  type Adjacency<N> = seq<(N, int)>

  /** Node -> neighbour map. Only `get` is ever used on the outer map. */
  type ResidualGraph<N> = map<N, Adjacency<N>>

  predicate DistinctKeys<N(==)>(a: Adjacency<N>) {
    forall i, j :: 0 <= i < j < |a| ==> a[i].0 != a[j].0
  }

  /** Every neighbour map has distinct keys, as a JavaScript `Map` does. */
  predicate WellFormed<N(==)>(r: ResidualGraph<N>) {
    forall x :: x in r ==> DistinctKeys(r[x])
  }

  predicate NonNegativeEntries<N(==)>(a: Adjacency<N>) {
    forall k :: 0 <= k < |a| ==> a[k].1 >= 0
  }

  predicate AllNonNegative<N(==)>(r: ResidualGraph<N>) {
    forall x :: x in r ==> NonNegativeEntries(r[x])
  }

  /** `Map.prototype.get`: the value stored under `y`, if any. */
  function Get<N(==)>(a: Adjacency<N>, y: N): Option<int> {
    if |a| == 0 then None
    else if a[0].0 == y then Some(a[0].1)
    else Get(a[1..], y)
  }

  /** `get` finds nothing exactly when no position holds the key. */
  lemma {:induction false} GetNone<N>(a: Adjacency<N>, y: N)
    ensures Get(a, y).None? <==> forall k :: 0 <= k < |a| ==> a[k].0 != y
  {
    if |a| > 0 {
      GetNone(a[1..], y);
      assert forall k :: 1 <= k < |a| ==> a[k] == a[1..][k - 1];
    }
  }

  /** In a map of non-negative values, `get` reads a non-negative value or nothing. */
  lemma {:induction false} GetNonNegative<N>(a: Adjacency<N>, y: N)
    requires NonNegativeEntries(a)
    ensures Get(a, y).GetOr(0) >= 0
  {
    if |a| > 0 && a[0].0 != y {
      assert forall k :: 1 <= k < |a| ==> a[k] == a[1..][k - 1];
      GetNonNegative(a[1..], y);
    }
  }

  /** With distinct keys, the value `Get` finds is the one stored at the key's position. */
  lemma {:induction false} GetAt<N>(a: Adjacency<N>, k: nat)
    requires DistinctKeys(a) && k < |a|
    ensures Get(a, a[k].0) == Some(a[k].1)
  {
    if k > 0 {
      assert a[0].0 != a[k].0;
      assert a[1..][k - 1] == a[k];
      GetAt(a[1..], k - 1);
    }
  }

  /** A value `Get` finds is stored at some position. */
  lemma {:induction false} GetFound<N>(a: Adjacency<N>, y: N) returns (k: nat)
    requires Get(a, y).Some?
    ensures k < |a| && a[k] == (y, Get(a, y).value)
  {
    if a[0].0 == y {
      k := 0;
    } else {
      var k' := GetFound(a[1..], y);
      k := k' + 1;
    }
  }

  /**
   * `Map.prototype.set`: overwrite the value in place when `y` is present,
   * otherwise append `(y, c)`, so existing keys keep their iteration position.
   */
  function Put<N(==)>(a: Adjacency<N>, y: N, c: int): (r: Adjacency<N>)
    ensures |r| == if Get(a, y).Some? then |a| else |a| + 1
    ensures forall k :: 0 <= k < |a| ==> r[k].0 == a[k].0
    ensures Get(a, y).None? ==> r[|a|] == (y, c)
  {
    if |a| == 0 then [(y, c)]
    else if a[0].0 == y then [(y, c)] + a[1..]
    else [a[0]] + Put(a[1..], y, c)
  }

  /** After `set(y, c)`, `get(y)` is `c` and every other key reads as before. */
  lemma {:induction false} PutGet<N>(a: Adjacency<N>, y: N, c: int, z: N)
    ensures Get(Put(a, y, c), z) == if z == y then Some(c) else Get(a, z)
  {
    if |a| > 0 && a[0].0 != y {
      PutGet(a[1..], y, c, z);
    }
  }

  /** Setting a key that is not there appends it, as a JavaScript `Map` does. */
  lemma {:induction false} PutAppends<N>(a: Adjacency<N>, y: N, c: int)
    requires Get(a, y).None?
    ensures Put(a, y, c) == a + [(y, c)]
  {
    if |a| > 0 {
      PutAppends(a[1..], y, c);
      assert a == [a[0]] + a[1..];
    }
  }

  /** `set` keeps the keys distinct. */
  lemma PutDistinct<N>(a: Adjacency<N>, y: N, c: int)
    requires DistinctKeys(a)
    ensures DistinctKeys(Put(a, y, c))
  {
    var r := Put(a, y, c);
    forall i, j | 0 <= i < j < |r| ensures r[i].0 != r[j].0 {
      if j < |a| {
        assert r[i].0 == a[i].0 && r[j].0 == a[j].0;
      } else {
        assert Get(a, y).None? && r[j] == (y, c) && r[i].0 == a[i].0;
      }
    }
  }

  /** Storing a non-negative value keeps every value non-negative. */
  lemma {:induction false} PutNonNegative<N>(a: Adjacency<N>, y: N, c: int)
    requires NonNegativeEntries(a) && c >= 0
    ensures NonNegativeEntries(Put(a, y, c))
  {
    if |a| > 0 && a[0].0 != y {
      PutNonNegative(a[1..], y, c);
      assert Put(a, y, c) == [a[0]] + Put(a[1..], y, c);
    }
  }

  /** The residual capacity of the arc `x -> y`, zero when there is no entry. */
  function ResidualOf<N(==)>(r: ResidualGraph<N>, x: N, y: N): int {
    if x in r then Get(r[x], y).GetOr(0) else 0
  }

  /** One empty neighbour map per node. */
  function EmptyFor<N(==)>(nodes: seq<N>): (r: ResidualGraph<N>)
    ensures r.Keys == NodeSet(nodes)
    ensures forall x :: x in r ==> r[x] == []
  {
    map x | x in nodes :: []
  }

  /** `r.get(x).set(y, c)`: store `c` under `y` in the neighbour map of `x`. */
  function SetEntry<N(==)>(r: ResidualGraph<N>, x: N, y: N, c: int): (r': ResidualGraph<N>)
    requires x in r
    ensures r'.Keys == r.Keys
  {
    r[x := Put(r[x], y, c)]
  }

  /**
   * The body of the edge loop of the rebuild: the forward entry `r[u][v]` is
   * OVERWRITTEN with `capacity - flow`, then the reverse entry `r[v][u]`
   * (read after the forward write, which matters for a self-loop) is
   * INCREMENTED by `flow`.
   */
  function AddEdge<N(==)>(r: ResidualGraph<N>, e: Edge<N>): (r': ResidualGraph<N>)
    requires e.u in r && e.v in r
    ensures r'.Keys == r.Keys
  {
    var r1 := SetEntry(r, e.u, e.v, e.capacity - e.flow);
    SetEntry(r1, e.v, e.u, Get(r1[e.v], e.u).GetOr(0) + e.flow)
  }

  /** Setting an entry of `x` keeps neighbour keys distinct, whatever is stored. */
  lemma SetEntryWellFormed<N>(r: ResidualGraph<N>, x: N)
    requires WellFormed(r) && x in r
    ensures forall y, c :: WellFormed(SetEntry(r, x, y, c))
  {
    forall y, c ensures WellFormed(SetEntry(r, x, y, c)) {
      PutDistinct(r[x], y, c);
      var r' := SetEntry(r, x, y, c);
      forall z | z in r' ensures DistinctKeys(r'[z]) {
        if z != x {
          assert r'[z] == r[z];
        }
      }
    }
  }

  /** Setting an entry of `x` to a non-negative value keeps every value non-negative. */
  lemma SetEntryNonNegative<N>(r: ResidualGraph<N>, x: N)
    requires AllNonNegative(r) && x in r
    ensures forall y, c :: c >= 0 ==> AllNonNegative(SetEntry(r, x, y, c))
  {
    forall y, c | c >= 0 ensures AllNonNegative(SetEntry(r, x, y, c)) {
      PutNonNegative(r[x], y, c);
      var r' := SetEntry(r, x, y, c);
      forall z | z in r' ensures NonNegativeEntries(r'[z]) {
        if z != x {
          assert r'[z] == r[z];
        }
      }
    }
  }

  /** One rebuild step keeps neighbour keys distinct. */
  lemma AddEdgeWellFormed<N>(r: ResidualGraph<N>, e: Edge<N>)
    requires e.u in r && e.v in r && WellFormed(r)
    ensures WellFormed(AddEdge(r, e))
  {
    SetEntryWellFormed(r, e.u);
    SetEntryWellFormed(SetEntry(r, e.u, e.v, e.capacity - e.flow), e.v);
  }

  /** One rebuild step, for a flow within capacity, keeps every value non-negative. */
  lemma AddEdgeNonNegative<N>(r: ResidualGraph<N>, e: Edge<N>)
    requires e.u in r && e.v in r
    ensures AllNonNegative(r) && 0 <= e.flow <= e.capacity ==> AllNonNegative(AddEdge(r, e))
  {
    if AllNonNegative(r) && 0 <= e.flow <= e.capacity {
      var r1 := SetEntry(r, e.u, e.v, e.capacity - e.flow);
      SetEntryNonNegative(r, e.u);
      assert NonNegativeEntries(r1[e.v]);
      GetNonNegative(r1[e.v], e.u);
      SetEntryNonNegative(r1, e.v);
    }
  }

  /** `buildResidualGraph`: start from empty maps and fold `AddEdge` over the edges in order. */
  function Build<N(==)>(nodes: seq<N>, edges: seq<Edge<N>>): (r: ResidualGraph<N>)
    requires EndpointsIn(nodes, edges)
    ensures r.Keys == NodeSet(nodes)
    ensures WellFormed(r)
    decreases |edges|
  {
    if |edges| == 0 then EmptyFor(nodes)
    else
      var prefix := edges[..|edges| - 1];
      assert forall i :: 0 <= i < |prefix| ==> prefix[i] == edges[i];
      var r0 := Build(nodes, prefix);
      AddEdgeWellFormed(r0, edges[|edges| - 1]);
      AddEdge(r0, edges[|edges| - 1])
  }

  /** While every flow is within its capacity, every residual value is non-negative. */
  lemma {:induction false} BuildNonNegative<N>(nodes: seq<N>, edges: seq<Edge<N>>)
    requires EndpointsIn(nodes, edges) && WithinCapacity(edges)
    ensures AllNonNegative(Build(nodes, edges))
    decreases |edges|
  {
    if |edges| > 0 {
      var prefix := edges[..|edges| - 1];
      assert forall i :: 0 <= i < |prefix| ==> prefix[i] == edges[i];
      BuildNonNegative(nodes, prefix);
      AddEdgeNonNegative(Build(nodes, prefix), edges[|edges| - 1]);
    }
  }

  /** Every neighbour that appears in some neighbour map is a declared node. */
  predicate NeighboursIn<N(==)>(r: ResidualGraph<N>, nodes: seq<N>) {
    forall x :: x in r ==> forall k :: 0 <= k < |r[x]| ==> r[x][k].0 in nodes
  }

  /** Setting a declared neighbour of `x` keeps every neighbour declared. */
  lemma SetEntryNeighboursIn<N>(r: ResidualGraph<N>, nodes: seq<N>, x: N, y: N)
    requires NeighboursIn(r, nodes) && x in r && y in nodes
    ensures forall c :: NeighboursIn(SetEntry(r, x, y, c), nodes)
  {
    forall c ensures NeighboursIn(SetEntry(r, x, y, c), nodes) {
      var a := Put(r[x], y, c);
      forall k | 0 <= k < |a| ensures a[k].0 in nodes {
        if k < |r[x]| {
          assert a[k].0 == r[x][k].0;
        }
      }
    }
  }

  /** A rebuild only ever inserts edge endpoints as neighbours. */
  lemma {:induction false} BuildNeighboursIn<N>(nodes: seq<N>, edges: seq<Edge<N>>)
    requires EndpointsIn(nodes, edges)
    ensures NeighboursIn(Build(nodes, edges), nodes)
    decreases |edges|
  {
    if |edges| > 0 {
      var prefix := edges[..|edges| - 1];
      var e := edges[|edges| - 1];
      assert forall i :: 0 <= i < |prefix| ==> prefix[i] == edges[i];
      BuildNeighboursIn(nodes, prefix);
      AddEdgeNeighboursIn(Build(nodes, prefix), nodes, e);
    }
  }

  lemma AddEdgeNeighboursIn<N>(r: ResidualGraph<N>, nodes: seq<N>, e: Edge<N>)
    requires NeighboursIn(r, nodes) && e.u in r && e.v in r && e.u in nodes && e.v in nodes
    ensures NeighboursIn(AddEdge(r, e), nodes)
  {
    SetEntryNeighboursIn(r, nodes, e.u, e.v);
    SetEntryNeighboursIn(SetEntry(r, e.u, e.v, e.capacity - e.flow), nodes, e.v, e.u);
  }

  // ---------------------------------------------------------------------------
  // An independent, closed-form description of every residual entry.
  // ---------------------------------------------------------------------------

  /** Total flow on the edges `y -> x`: what the rebuild credits to the reverse entry `r[x][y]`. */
  function Credit<N(==)>(edges: seq<Edge<N>>, x: N, y: N): int
    decreases |edges|
  {
    if |edges| == 0 then 0
    else
      var e := edges[|edges| - 1];
      Credit(edges[..|edges| - 1], x, y) + (if Joins(e, y, x) then e.flow else 0)
  }

  /** The position of the LAST edge `x -> y`, the one whose overwrite survives. */
  function LastJoin<N(==)>(edges: seq<Edge<N>>, x: N, y: N): (r: Option<nat>)
    ensures r.Some? ==> r.value < |edges| && Joins(edges[r.value], x, y)
    ensures r.Some? ==> forall j :: r.value < j < |edges| ==> !Joins(edges[j], x, y)
    ensures r.None? <==> !HasEdge(edges, x, y)
    decreases |edges|
  {
    if |edges| == 0 then None
    else if Joins(edges[|edges| - 1], x, y) then Some(|edges| - 1)
    else
      var prefix := edges[..|edges| - 1];
      assert forall i :: 0 <= i < |prefix| ==> prefix[i] == edges[i];
      LastJoin(prefix, x, y)
  }

  /**
   * What the entry `r[x][y]` holds after the rebuild: the last `x -> y` edge's
   * `capacity - flow` plus the flow of every `y -> x` edge processed from that
   * edge on; with no `x -> y` edge, the flow of all `y -> x` edges; and no
   * entry at all when no edge joins the two nodes.
   */
  function ReferenceResidual<N(==)>(edges: seq<Edge<N>>, x: N, y: N): Option<int> {
    match LastJoin(edges, x, y)
    case Some(k) => Some(edges[k].capacity - edges[k].flow + Credit(edges[k..], x, y))
    case None => if HasEdge(edges, y, x) then Some(Credit(edges, x, y)) else None
  }

  /** Without `y -> x` edges there is nothing to credit. */
  lemma {:induction false} CreditNone<N>(edges: seq<Edge<N>>, x: N, y: N)
    requires !HasEdge(edges, y, x)
    ensures Credit(edges, x, y) == 0
    decreases |edges|
  {
    if |edges| > 0 {
      var prefix := edges[..|edges| - 1];
      assert forall i :: 0 <= i < |prefix| ==> prefix[i] == edges[i];
      assert !Joins(edges[|edges| - 1], y, x);
      CreditNone(prefix, x, y);
    }
  }

  /** With exactly one `y -> x` edge, the credit is that edge's flow. */
  lemma {:induction false} CreditSingle<N>(edges: seq<Edge<N>>, x: N, y: N, k: nat)
    requires k < |edges| && Joins(edges[k], y, x)
    requires forall j :: 0 <= j < |edges| && j != k ==> !Joins(edges[j], y, x)
    ensures Credit(edges, x, y) == edges[k].flow
    decreases |edges|
  {
    var prefix := edges[..|edges| - 1];
    assert forall i :: 0 <= i < |prefix| ==> prefix[i] == edges[i];
    if k == |edges| - 1 {
      CreditNone(prefix, x, y);
    } else {
      CreditSingle(prefix, x, y, k);
    }
  }

  /** How one edge `e` changes an entry `(x, y)`: the forward overwrite, then the reverse increment. */
  function EdgeEffect<N(==)>(e: Edge<N>, x: N, y: N, before: Option<int>): Option<int> {
    var afterForward := if Joins(e, x, y) then Some(e.capacity - e.flow) else before;
    if Joins(e, y, x) then Some(afterForward.GetOr(0) + e.flow) else afterForward
  }

  /** Setting `r[u][v]` changes the entry `(x, y)` only when it is `(u, v)`. */
  lemma SetEntryGet<N>(r: ResidualGraph<N>, u: N, v: N, c: int, x: N, y: N)
    requires u in r && x in r
    ensures Get(SetEntry(r, u, v, c)[x], y) == if x == u && y == v then Some(c) else Get(r[x], y)
  {
    if x == u {
      PutGet(r[u], v, c, y);
    }
  }

  /** Two entry writes, forward then reverse, compose to `EdgeEffect`. */
  lemma EffectOfWrites<N>(e: Edge<N>, x: N, y: N, before: Option<int>, mid: Option<int>, back: Option<int>, after: Option<int>)
    requires mid == if x == e.u && y == e.v then Some(e.capacity - e.flow) else before
    requires x == e.v && y == e.u ==> back == mid
    requires after == if x == e.v && y == e.u then Some(back.GetOr(0) + e.flow) else mid
    ensures after == EdgeEffect(e, x, y, before)
  {
  }

  /** One rebuild step changes the entry `(x, y)` as `EdgeEffect` says. */
  lemma AddEdgeGet<N>(r: ResidualGraph<N>, e: Edge<N>, x: N, y: N)
    requires e.u in r && e.v in r && x in r
    ensures Get(AddEdge(r, e)[x], y) == EdgeEffect(e, x, y, Get(r[x], y))
  {
    var r1 := SetEntry(r, e.u, e.v, e.capacity - e.flow);
    var back := Get(r1[e.v], e.u);
    SetEntryGet(r, e.u, e.v, e.capacity - e.flow, x, y);
    SetEntryGet(r1, e.v, e.u, back.GetOr(0) + e.flow, x, y);
    EffectOfWrites(e, x, y, Get(r[x], y), Get(r1[x], y), back, Get(AddEdge(r, e)[x], y));
  }

  /** The closed form obeys the same one-edge recurrence. */
  lemma ReferenceStep<N>(edges: seq<Edge<N>>, x: N, y: N)
    requires |edges| > 0
    ensures ReferenceResidual(edges, x, y)
         == EdgeEffect(edges[|edges| - 1], x, y, ReferenceResidual(edges[..|edges| - 1], x, y))
  {
    var prefix := edges[..|edges| - 1];
    assert forall i :: 0 <= i < |prefix| ==> prefix[i] == edges[i];
    if Joins(edges[|edges| - 1], x, y) {
      StepLastJoins(edges, x, y);
    } else if LastJoin(prefix, x, y).Some? {
      StepEarlierJoin(edges, x, y);
    } else {
      StepNoJoin(edges, x, y);
    }
  }

  /** The last edge is itself `x -> y`: its overwrite is what survives. */
  lemma StepLastJoins<N>(edges: seq<Edge<N>>, x: N, y: N)
    requires |edges| > 0 && Joins(edges[|edges| - 1], x, y)
    ensures ReferenceResidual(edges, x, y)
         == EdgeEffect(edges[|edges| - 1], x, y, ReferenceResidual(edges[..|edges| - 1], x, y))
  {
    var n := |edges|;
    var e := edges[n - 1];
    assert LastJoin(edges, x, y) == Some(n - 1);
    assert edges[n - 1..][..0] == [];
    assert Credit(edges[n - 1..], x, y) == if Joins(e, y, x) then e.flow else 0;
  }

  /** An earlier edge is the last `x -> y`: the new edge can only add to its credit. */
  lemma StepEarlierJoin<N>(edges: seq<Edge<N>>, x: N, y: N)
    requires |edges| > 0 && !Joins(edges[|edges| - 1], x, y)
    requires LastJoin(edges[..|edges| - 1], x, y).Some?
    ensures ReferenceResidual(edges, x, y)
         == EdgeEffect(edges[|edges| - 1], x, y, ReferenceResidual(edges[..|edges| - 1], x, y))
  {
    var n := |edges|;
    var prefix, e := edges[..n - 1], edges[n - 1];
    var k := LastJoin(prefix, x, y).value;
    assert LastJoin(edges, x, y) == Some(k);
    assert edges[k..][..|edges[k..]| - 1] == prefix[k..];
    assert edges[k..][|edges[k..]| - 1] == e;
    assert Credit(edges[k..], x, y) == Credit(prefix[k..], x, y) + (if Joins(e, y, x) then e.flow else 0);
  }

  /** No edge is `x -> y`: the entry is the credit, present once some `y -> x` edge is seen. */
  lemma StepNoJoin<N>(edges: seq<Edge<N>>, x: N, y: N)
    requires |edges| > 0 && !Joins(edges[|edges| - 1], x, y)
    requires LastJoin(edges[..|edges| - 1], x, y).None?
    ensures ReferenceResidual(edges, x, y)
         == EdgeEffect(edges[|edges| - 1], x, y, ReferenceResidual(edges[..|edges| - 1], x, y))
  {
    var n := |edges|;
    var prefix, e := edges[..n - 1], edges[n - 1];
    assert forall i :: 0 <= i < |prefix| ==> prefix[i] == edges[i];
    assert LastJoin(edges, x, y).None?;
    assert HasEdge(edges, y, x) <==> HasEdge(prefix, y, x) || Joins(e, y, x);
    if !HasEdge(prefix, y, x) {
      CreditNone(prefix, x, y);
    }
  }

  /** The rebuild computes exactly the closed-form residual of every declared node's entries. */
  lemma {:induction false} BuildMatchesReference<N>(nodes: seq<N>, edges: seq<Edge<N>>, x: N, y: N)
    requires EndpointsIn(nodes, edges) && x in nodes
    ensures Get(Build(nodes, edges)[x], y) == ReferenceResidual(edges, x, y)
    decreases |edges|
  {
    if |edges| > 0 {
      var prefix := edges[..|edges| - 1];
      assert forall i :: 0 <= i < |prefix| ==> prefix[i] == edges[i];
      BuildMatchesReference(nodes, prefix, x, y);
      AddEdgeGet(Build(nodes, prefix), edges[|edges| - 1], x, y);
      ReferenceStep(edges, x, y);
    }
  }

  /** An entry `r[x][y]` exists exactly when some edge joins `x` and `y` in either direction. */
  lemma EntryIffEdge<N>(nodes: seq<N>, edges: seq<Edge<N>>, x: N, y: N)
    requires EndpointsIn(nodes, edges) && x in nodes
    ensures Get(Build(nodes, edges)[x], y).Some? <==> HasEdge(edges, x, y) || HasEdge(edges, y, x)
  {
    BuildMatchesReference(nodes, edges, x, y);
  }

  /** With no edge `v -> u`, the entry `r[v][u]` is the total flow of the edges `u -> v`. */
  lemma ReverseEntryIsFlowSum<N>(nodes: seq<N>, edges: seq<Edge<N>>, u: N, v: N)
    requires EndpointsIn(nodes, edges) && v in nodes
    requires HasEdge(edges, u, v) && !HasEdge(edges, v, u)
    ensures Get(Build(nodes, edges)[v], u) == Some(Credit(edges, v, u))
  {
    BuildMatchesReference(nodes, edges, v, u);
  }

  /**
   * For an edge `u -> v` with neither a parallel nor an antiparallel partner,
   * the forward entry is `capacity - flow` and the reverse entry is `flow`.
   */
  lemma IsolatedEdgeResiduals<N>(nodes: seq<N>, edges: seq<Edge<N>>, i: nat)
    requires EndpointsIn(nodes, edges) && i < |edges|
    requires !HasEdge(edges, edges[i].v, edges[i].u)
    requires forall j :: 0 <= j < |edges| && j != i ==> !Joins(edges[j], edges[i].u, edges[i].v)
    ensures Get(Build(nodes, edges)[edges[i].u], edges[i].v) == Some(edges[i].capacity - edges[i].flow)
    ensures Get(Build(nodes, edges)[edges[i].v], edges[i].u) == Some(edges[i].flow)
  {
    IsolatedForward(nodes, edges, i);
    IsolatedReverse(nodes, edges, i);
  }

  lemma IsolatedForward<N>(nodes: seq<N>, edges: seq<Edge<N>>, i: nat)
    requires EndpointsIn(nodes, edges) && i < |edges|
    requires !HasEdge(edges, edges[i].v, edges[i].u)
    requires forall j :: 0 <= j < |edges| && j != i ==> !Joins(edges[j], edges[i].u, edges[i].v)
    ensures Get(Build(nodes, edges)[edges[i].u], edges[i].v) == Some(edges[i].capacity - edges[i].flow)
  {
    BuildMatchesReference(nodes, edges, edges[i].u, edges[i].v);
    ReferenceForward(edges, i);
  }

  lemma IsolatedReverse<N>(nodes: seq<N>, edges: seq<Edge<N>>, i: nat)
    requires EndpointsIn(nodes, edges) && i < |edges|
    requires !HasEdge(edges, edges[i].v, edges[i].u)
    requires forall j :: 0 <= j < |edges| && j != i ==> !Joins(edges[j], edges[i].u, edges[i].v)
    ensures Get(Build(nodes, edges)[edges[i].v], edges[i].u) == Some(edges[i].flow)
  {
    BuildMatchesReference(nodes, edges, edges[i].v, edges[i].u);
    ReferenceReverse(edges, i);
  }

  /** The closed form of the forward entry of an isolated edge. */
  lemma ReferenceForward<N>(edges: seq<Edge<N>>, i: nat)
    requires i < |edges|
    requires !HasEdge(edges, edges[i].v, edges[i].u)
    requires forall j :: 0 <= j < |edges| && j != i ==> !Joins(edges[j], edges[i].u, edges[i].v)
    ensures ReferenceResidual(edges, edges[i].u, edges[i].v) == Some(edges[i].capacity - edges[i].flow)
  {
    var u, v := edges[i].u, edges[i].v;
    assert Joins(edges[i], u, v);
    var last := LastJoin(edges, u, v);
    assert last.Some? && Joins(edges[last.value], u, v);
    assert last.value == i;
    var tail := edges[i..];
    assert !HasEdge(tail, v, u) by {
      forall j | 0 <= j < |tail| ensures !Joins(tail[j], v, u) {
        assert tail[j] == edges[i + j];
      }
    }
    CreditNone(tail, u, v);
  }

  /** The closed form of the reverse entry of an isolated edge. */
  lemma ReferenceReverse<N>(edges: seq<Edge<N>>, i: nat)
    requires i < |edges|
    requires !HasEdge(edges, edges[i].v, edges[i].u)
    requires forall j :: 0 <= j < |edges| && j != i ==> !Joins(edges[j], edges[i].u, edges[i].v)
    ensures ReferenceResidual(edges, edges[i].v, edges[i].u) == Some(edges[i].flow)
  {
    var u, v := edges[i].u, edges[i].v;
    assert LastJoin(edges, v, u).None?;
    assert Joins(edges[i], u, v);
    CreditSingle(edges, v, u, i);
  }
}
