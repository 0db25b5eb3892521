# Edmonds-Karp step engine of the network-flow visualisation

The visualisation in `build/simulation/js/main.js` runs the Edmonds-Karp
maximum-flow algorithm one visible step at a time. Its engine has five parts,
and this project models each of them in Dafny:

- **Residual construction** (`buildResidualGraph`). Every node gets an empty,
  insertion-ordered neighbour map. Then each edge `u -> v`, in edge order:
  - overwrites the forward entry `u -> v` with `capacity - flow`;
  - adds `flow` to the reverse entry `v -> u`, or creates it.
- **Search** (`findAugmentingPath`). A breadth-first search runs from the
  first node (the source) over entries with positive residual. It keeps a
  visited set and parent pointers, and traces the path back from the last
  node (the sink). It returns no path when the queue runs dry.
- **Bottleneck** (`calculateBottleneck`). The minimum of `Infinity` and the
  residuals of consecutive pairs.
- **Augmentation** (`augmentFlow`). For each pair of the path it adds the
  bottleneck to the first edge `u -> v`, or else subtracts it from the first
  edge `v -> u`. Then it rebuilds the residual graph.
- **Driver** (`loadGraph`, `initialize`, `step`, `reset`). A step does one of
  three things:
  - applies a pending path;
  - searches once and keeps the path it finds pending;
  - reports completion.

The model is generic over the node identifier type; only equality is used.
JavaScript numbers are integers here. `Infinity` is kept as a value of its
own (`Amount`), because the code can produce it (see below). Sessions are
immutable values, so each operation returns a new session.

Modules, in dependency order:

- `Wrappers`: `Option` and `Result`.
- `FlowGraph`: edges, graphs and first-match edge lookup.
- `Residual`: neighbour maps, `get`/`set`, the rebuild, and an independent
  reference definition of every residual entry.
- `Search`: the breadth-first search.
- `Augment`: the bottleneck, augmentation and the capacity bound.
- `Conservation`: net outflow per node.
- `Engine`: the session and its operations.
- `Scenario`: the `simple` preset worked through to its maximum flow of 15.

Behaviour of the code that the model keeps:

- **Loading does not validate.** `loadGraph` accepts any node list. With a
  single node the source is the sink. The search then returns the one-node
  path, its bottleneck is `Infinity`, and `step` adds `Infinity` to the
  maximum flow.
- **Undeclared endpoints make the rebuild throw.** `buildResidualGraph` calls
  `set` on the `undefined` result of `get` for an endpoint that is not a
  declared node. The model makes declared endpoints a precondition of
  building.
- **The capacity bound is proved for simple graphs.** `0 <= flow <= capacity`
  is proved to survive augmentation when no two edges join the same pair in
  either direction. Without that condition it can fail in two ways:
  - *Antiparallel edges.* The reverse write of a later edge `v -> u` adds its
    flow onto the entry `u -> v` that an earlier edge `u -> v` wrote. The
    augmentation then adds the whole bottleneck to that first edge
    (`Augment.AntiparallelOverflow`). In the opposite order, the forward
    write of the later edge overwrites the credit, and the flow on `v -> u`
    can no longer be cancelled (`Augment.AntiparallelDiscard`).
  - *Parallel edges.* The last edge `u -> v` decides the residual, but the
    augmentation adds the bottleneck to the first one
    (`Augment.ParallelOverflow`).
- **Completion only stops the buttons.** The completion branch of `step`
  changes no engine state. It disables the step and auto-run buttons and
  clears the auto-run timer (lines 513-521). The keyboard shortcuts check
  those buttons, so nothing calls `step` again until a reset or a load.
  If `step` were called anyway, it would search again, find nothing and
  change nothing; `Engine.Step` states this.

## Model

| member | source | states |
|---|---|---|
| FlowGraph.Source | build/simulation/js/main.js:405 | the source is a declared node: the first of the node list |
| FlowGraph.Sink | build/simulation/js/main.js:406 | the sink is a declared node: the last of the node list |
| FlowGraph.FindEdge | build/simulation/js/main.js:461-466 | `Array.find` on endpoints: the result is the first index whose edge goes from `x` to `y`, and it is absent exactly when no edge does |
| FlowGraph.FindEdgeShape | build/simulation/js/main.js:461-466 | the lookup depends only on endpoints, so changing flows never changes which edge a pair selects |
| FlowGraph.ZeroFlows | build/simulation/js/main.js:369 | zeroing flows keeps every endpoint and capacity, sets every flow to 0, and puts every edge of non-negative capacity within capacity |
| FlowGraph.ZeroFlowsFixed | build/simulation/js/main.js:369 | zeroing edges whose flows are already 0 changes nothing |
| FlowGraph.EdgesFromSpecs | build/simulation/js/main.js:305-311 | one edge per loaded spec, in order, with the spec's endpoints and capacity and flow 0 |
| Residual.Get | build/simulation/js/main.js:398 | `Map.get` on a neighbour map, first entry with the key; its contract is stated by `GetNone`, `GetAt` and `GetFound` |
| Residual.GetNone | build/simulation/js/main.js:398 | `get` misses exactly when no entry of the neighbour map has that key |
| Residual.GetNonNegative | build/simulation/js/main.js:398 | `get(..) \|\| 0` on a map of non-negative entries is non-negative |
| Residual.GetAt | build/simulation/js/main.js:448 | in a map with distinct keys, looking up the key at any position yields the value stored there |
| Residual.GetFound | build/simulation/js/main.js:398 | a successful `get` comes from an entry that holds that key and that value |
| Residual.Put | build/simulation/js/main.js:396-399 | `set` keeps the key order; it updates in place when the key is present and appends `(y, c)` at the end otherwise |
| Residual.PutGet | build/simulation/js/main.js:396-399 | after `set(y, c)`, `get(y)` is `c` and every other key reads as before |
| Residual.PutAppends | build/simulation/js/main.js:396-399 | setting a new key appends it as the last entry |
| Residual.PutDistinct | build/simulation/js/main.js:396-399 | `set` keeps the keys of a neighbour map distinct |
| Residual.PutNonNegative | build/simulation/js/main.js:396-399 | setting a non-negative value keeps every entry non-negative |
| Residual.EmptyFor | build/simulation/js/main.js:386-390 | the residual graph starts with exactly the declared nodes, each with an empty neighbour map |
| Residual.SetEntry | build/simulation/js/main.js:396 | writing one neighbour entry of a node adds or removes no node of the residual graph |
| Residual.SetEntryWellFormed | build/simulation/js/main.js:396-399 | writing one entry keeps every neighbour map free of duplicate keys |
| Residual.SetEntryNonNegative | build/simulation/js/main.js:396-399 | writing a non-negative entry keeps every residual non-negative |
| Residual.SetEntryNeighboursIn | build/simulation/js/main.js:396-399 | writing an entry for a declared neighbour keeps every neighbour a declared node |
| Residual.SetEntryGet | build/simulation/js/main.js:396-399 | after writing `c` at `u -> v`, that entry reads `c` and every other entry reads as before |
| Residual.AddEdge | build/simulation/js/main.js:392-400 | processing one edge adds or removes no node of the residual graph |
| Residual.AddEdgeGet | build/simulation/js/main.js:392-400 | processing edge `u -> v` makes `u -> v` read `capacity - flow` and makes `v -> u` read its previous value (or 0) plus `flow`, the reverse write seeing the forward one; every other entry is unchanged |
| Residual.AddEdgeWellFormed | build/simulation/js/main.js:392-400 | processing an edge keeps neighbour keys distinct |
| Residual.AddEdgeNonNegative | build/simulation/js/main.js:392-400 | processing an edge with `0 <= flow <= capacity` keeps every residual non-negative |
| Residual.AddEdgeNeighboursIn | build/simulation/js/main.js:392-400 | processing an edge between declared nodes keeps every neighbour a declared node |
| Residual.Build | build/simulation/js/main.js:384-401 | the rebuilt residual graph has exactly the declared nodes as keys, and no neighbour map repeats a key |
| Residual.BuildNonNegative | build/simulation/js/main.js:384-401 | when every flow is within capacity, every residual is non-negative |
| Residual.BuildNeighboursIn | build/simulation/js/main.js:384-401 | every neighbour in the rebuilt graph is a declared node |
| Residual.LastJoin | build/simulation/js/main.js:392-396 | the last edge from `x` to `y` in edge order, which decides the last forward overwrite of `x -> y`; absent exactly when there is no such edge |
| Residual.CreditNone | build/simulation/js/main.js:398-399 | with no edge `y -> x` the reverse credit of `x -> y` is 0 |
| Residual.CreditSingle | build/simulation/js/main.js:398-399 | with exactly one edge `y -> x` the reverse credit of `x -> y` is that edge's flow |
| Residual.ReferenceStep | build/simulation/js/main.js:392-400 | the independent reference residual of a pair follows from the reference of the edge prefix and the effect of the last edge |
| Residual.StepLastJoins | build/simulation/js/main.js:392-400 | when the last edge is `x -> y`, the pair reads its `capacity - flow` plus the reverse credit of the later edges `y -> x` |
| Residual.StepEarlierJoin | build/simulation/js/main.js:392-400 | when an earlier edge is the last `x -> y`, the last edge only adds its reverse credit |
| Residual.StepNoJoin | build/simulation/js/main.js:392-400 | with no edge `x -> y`, the pair is present only if some edge `y -> x` exists, and then reads the sum of their flows |
| Residual.BuildMatchesReference | build/simulation/js/main.js:384-401 | every entry of the rebuilt graph equals the reference: `capacity - flow` of the last edge `x -> y`, plus the flows of the edges `y -> x` after it; absent when no edge joins the pair |
| Residual.EntryIffEdge | build/simulation/js/main.js:384-401 | the rebuilt graph has an entry `x -> y` exactly when some edge joins `x` and `y` in one direction or the other |
| Residual.ReverseEntryIsFlowSum | build/simulation/js/main.js:384-401 | for an edge `u -> v` with no edge `v -> u`, the entry `v -> u` is the sum of the flows on the edges `u -> v` |
| Residual.IsolatedEdgeResiduals | build/simulation/js/main.js:384-401 | an edge with no parallel and no antiparallel edge has forward residual `capacity - flow` and reverse residual `flow` |
| Residual.IsolatedForward | build/simulation/js/main.js:384-401 | the forward half of the previous row |
| Residual.IsolatedReverse | build/simulation/js/main.js:384-401 | the reverse half of the previous row |
| Residual.ReferenceForward | build/simulation/js/main.js:392-400 | the reference definition gives an isolated edge the forward residual `capacity - flow` |
| Residual.ReferenceReverse | build/simulation/js/main.js:392-400 | the reference definition gives an isolated edge the reverse residual `flow` |
| Search.ClosedStep | build/simulation/js/main.js:426-435 | from a visited node of a set closed under positive residuals, every positive-residual neighbour is visited too |
| Search.ClosedBlocksPaths | build/simulation/js/main.js:426-438 | no positive-residual path leaves a closed visited set, so a sink outside it is unreachable |
| Search.TreeExtend | build/simulation/js/main.js:429-433 | visiting `v` from the dequeued `u` (mark it, record `u` as its parent, enqueue it) keeps the parent tree: every enqueued node is distinct and hangs off an earlier one by a positive residual |
| Search.ExpandedGrow | build/simulation/js/main.js:426-435 | a node whose positive neighbours are all visited stays so as the visited set grows |
| Search.TrailGrow | build/simulation/js/main.js:418-421 | stepping to the parent keeps the traced suffix a positive-residual path to the sink, through strictly later queue positions |
| Search.TracePath | build/simulation/js/main.js:415-424 | walking parents back from the sink yields a path from the source to the sink, with positive residual on every pair and no repeated node |
| Search.ConsTrail | build/simulation/js/main.js:416-422 | nodes taken from strictly increasing positions of a duplicate-free queue, after the source, repeat no node |
| Search.GrowsTrans | build/simulation/js/main.js:429-433 | the search state only grows: visited set and queue extend and never shrink, over several visits too |
| Search.TargetAt | build/simulation/js/main.js:428 | every neighbour the inner loop reads is a target of the residual graph, so the visited set stays inside a finite universe |
| Search.ScannedStep | build/simulation/js/main.js:428-434 | after the inner loop reads an entry, every positive entry read so far has a visited neighbour |
| Search.Offer | build/simulation/js/main.js:429-433 | one neighbour: an unvisited neighbour with positive residual is visited, parented and enqueued, and the tree is kept; any other neighbour changes nothing |
| Search.ScanNeighbours | build/simulation/js/main.js:426-435 | after the inner loop, every positive-residual neighbour of `u` is visited, and the search state has only grown |
| Search.ShrinkRemainder | build/simulation/js/main.js:412-436 | visiting a node shrinks the set of unvisited nodes, which bounds the outer loop |
| Search.Exhausted | build/simulation/js/main.js:412-438 | when the queue runs dry without meeting the sink, no augmenting path from source to sink exists |
| Search.ExpandNext | build/simulation/js/main.js:412-436 | one dequeue of a node that is not the sink expands it and keeps all earlier dequeued nodes expanded |
| Search.DistinctBound | build/simulation/js/main.js:408-433 | a duplicate-free queue drawn from a finite set is no longer than that set |
| Search.QueueBound | build/simulation/js/main.js:408-433 | every node is enqueued at most once, so the queue never exceeds the number of declared nodes |
| Search.FindAugmentingPath | build/simulation/js/main.js:404-439 | a returned path goes from the first node to the last with positive residual on each pair and no repeated node; no path is returned exactly when none exists; at least one and at most \|nodes\| dequeues |
| Augment.Min | build/simulation/js/main.js:449 | `Math.min` with `Infinity`: the result is one of the two arguments and at most both |
| Augment.Plus | build/simulation/js/main.js:490 | `maxFlow += bottleneck`: the sum is `Infinity` exactly when an operand is |
| Augment.PlusGrows | build/simulation/js/main.js:490 | adding a non-negative bottleneck never lowers the maximum flow, and a finite sum grows by exactly the bottleneck |
| Augment.Bottleneck | build/simulation/js/main.js:442-453 | `Infinity` exactly for a path without a pair; otherwise at most every pair's residual and equal to one of them |
| Augment.PathEntries | build/simulation/js/main.js:445-448 | every pair of an augmenting path has an entry, so the bottleneck's lookups succeed |
| Augment.BottleneckPositive | build/simulation/js/main.js:442-453 | the bottleneck of an augmenting path with a pair is finite and positive |
| Augment.Choose | build/simulation/js/main.js:461-470 | the first edge `u -> v` if there is one; else the first edge `v -> u`; else neither, exactly when no edge joins the pair |
| Augment.ChooseShape | build/simulation/js/main.js:461-466 | the selection ignores flows |
| Augment.AugmentPair | build/simulation/js/main.js:457-470 | one pair moves only the selected edge: `+b` when forward, `-b` when backward, nothing when neither |
| Augment.DeltaShape | build/simulation/js/main.js:456-471 | an edge's signed selection count along a path ignores flows |
| Augment.AugmentFlow | build/simulation/js/main.js:456-471 | endpoints and capacities are kept, and each edge's flow moves by `b` times its signed selection count along the path |
| Augment.AugmentFlowStep | build/simulation/js/main.js:456-471 | augmentation handles the first pair, then the rest of the path |
| Augment.DeltaUnselected | build/simulation/js/main.js:456-471 | an edge no pair selects has count 0 |
| Augment.AugmentFrame | build/simulation/js/main.js:456-471 | an edge no pair selects is left exactly as it was |
| Augment.ShortPathChangesNothing | build/simulation/js/main.js:457 | a path without a pair changes no edge |
| Augment.SelectsEndpoints | build/simulation/js/main.js:461-470 | a selected edge joins the pair in one order or the other |
| Augment.DeltaRange | build/simulation/js/main.js:456-471 | along a path without repeated nodes, an edge's count is 0, or +1 with a forward selection, or -1 with a backward one |
| Augment.ChosenResidual | build/simulation/js/main.js:392-400 | in a graph without parallel or antiparallel edges, the pair's residual is `capacity - flow` of its forward edge, or `flow` of its backward edge |
| Augment.AugmentWithinCapacity | build/simulation/js/main.js:456-474 | without parallel or antiparallel edges, pushing at most every residual along a simple path keeps `0 <= flow <= capacity` on every edge |
| Augment.EdgeWithinCapacity | build/simulation/js/main.js:456-471 | the capacity bound for a single edge |
| Augment.ForwardWithin | build/simulation/js/main.js:463-464 | adding at most the forward residual keeps the flow within capacity |
| Augment.BackwardWithin | build/simulation/js/main.js:467-468 | subtracting at most the backward residual keeps the flow non-negative |
| Augment.AntiparallelOverflow | build/simulation/js/main.js:392-400 | with edges `0 -> 1` (capacity 1, flow 0) and `1 -> 0` (capacity 5, flow 5), the residual `0 -> 1` is 6, the bottleneck is 6, and augmenting puts flow 6 on the edge of capacity 1 |
| Augment.AntiparallelPush | build/simulation/js/main.js:461-464 | in that example the pair `0, 1` selects the first edge, which receives the whole push |
| Augment.AntiparallelResidual | build/simulation/js/main.js:396-399 | in that example, node 0's neighbour map is the single entry `1 -> 6`: the forward write of 1, then the later edge's reverse credit of 5 |
| Augment.AntiparallelDiscard | build/simulation/js/main.js:396-399 | with the two edges in the other order, node 0's neighbour map is the single entry `1 -> 1`: the later forward write discards the credit 5 |
| Augment.ParallelOverflow | build/simulation/js/main.js:392-400 | with two empty edges `0 -> 1` of capacities 1 and 10 (declared, within capacity, not antiparallel), the residual and the bottleneck are 10, and augmenting puts flow 10 on the edge of capacity 1 |
| Augment.ParallelPush | build/simulation/js/main.js:461-464 | in that example the pair `0, 1` selects the first edge, which receives the whole push |
| Augment.ParallelResidual | build/simulation/js/main.js:396 | in that example, node 0's neighbour map is the single entry `1 -> 10`: the later forward write wins |
| Augment.SingleArc | build/simulation/js/main.js:442-453 | a node whose only entry is `y` with positive `c` has the one-pair augmenting path to `y`, with bottleneck `c` |
| Conservation.NetZero | build/simulation/js/main.js:369 | with every flow zero, every node's net outflow is zero |
| Conservation.NetUpdate | build/simulation/js/main.js:464 | changing one edge's flow moves its tail's net outflow up by the change and its head's down by it |
| Conservation.NetPair | build/simulation/js/main.js:461-470 | one pair of the path, whichever edge it selects, moves `b` of net outflow from the pair's second node to its first |
| Conservation.NetForward | build/simulation/js/main.js:463-464 | the same for a forward selection |
| Conservation.NetBackward | build/simulation/js/main.js:466-469 | the same for a backward selection |
| Conservation.NetShift | build/simulation/js/main.js:464 | changing one edge's flow by `d` shifts net outflow by `d` between its endpoints |
| Conservation.AugmentNet | build/simulation/js/main.js:456-471 | along a path whose pairs are all joined, augmentation moves exactly `b` of net outflow to the first node from the last; every other node keeps its value |
| Conservation.AugmentKeepsNet | build/simulation/js/main.js:456-471 | nodes strictly inside the path and nodes off it keep their net outflow |
| Conservation.AugmentRaisesSource | build/simulation/js/main.js:456-471 | the source's net outflow rises by exactly `b` when source and sink differ |
| Conservation.LinkedTail | build/simulation/js/main.js:456-471 | whether pairs are joined ignores flows, and survives dropping the first node |
| Conservation.AugmentingPathLinked | build/simulation/js/main.js:392-400 | a positive-residual path of the rebuilt graph only uses pairs that some edge joins |
| Engine.Start | build/simulation/js/main.js:19-32 | the page starts with an empty graph, an empty residual graph, maximum flow 0, path count 0, uninitialised and with nothing pending |
| Engine.Reset | build/simulation/js/main.js:568-582 | `reset`: uninitialised, nothing pending, counters 0, every flow 0, endpoints and capacities kept; the residual graph is left as it was; the invariant holds |
| Engine.Load | build/simulation/js/main.js:298-319 | `loadGraph`: the graph becomes the loaded nodes and edges with flow 0; the `reset` it calls leaves the session uninitialised with nothing pending, maximum flow 0 and path count 0, and does not touch the residual graph; the invariant holds |
| Engine.ZeroConserving | build/simulation/js/main.js:369 | zero flows conserve every node and give the source net outflow 0 |
| Engine.Initialize | build/simulation/js/main.js:357-371 | `initialize` fails with `NoGraphLoaded` exactly when there are no nodes; otherwise the session is initialised, nothing is pending, counters and flows are 0, the shape is kept and the invariant holds |
| Engine.ResetIdempotent | build/simulation/js/main.js:568-582 | resetting twice is resetting once |
| Engine.InitializeAfterReset | build/simulation/js/main.js:357-371 | a reset before `initialize` makes no difference |
| Engine.InitializeIdempotent | build/simulation/js/main.js:357-371 | initialising an initialised session that has not stepped changes nothing |
| Engine.LoadThenInitialize | build/simulation/js/main.js:357-371 | after loading a graph with declared endpoints, `initialize` yields the loaded edges, their rebuilt residual graph and zero counters, whatever came before |
| Engine.PathLength | build/simulation/js/main.js:415-423 | a found path has a single node exactly when the source is the sink |
| Engine.SimpleShape | build/simulation/js/main.js:456-471 | whether a graph is simple ignores flows |
| Engine.PushConserves | build/simulation/js/main.js:456-474 | pushing along an augmenting path of the rebuilt graph keeps inner nodes conserved and raises the source's net outflow by the amount pushed |
| Engine.FinitePush | build/simulation/js/main.js:483-491 | pushing a finite pending bottleneck: it is positive; endpoints stay declared; conservation holds; the source gains exactly the bottleneck; a simple graph stays within capacity |
| Engine.PushFinite | build/simulation/js/main.js:483-491 | the finite case of the next row |
| Engine.PushInfinite | build/simulation/js/main.js:483-491 | an `Infinity` bottleneck moves no flow, keeps conservation and the capacity bound, and makes the maximum flow `Infinity` |
| Engine.PushPreserves | build/simulation/js/main.js:483-491 | applying a pending path keeps the shape and conservation; a finite running maximum flow equals the source's net outflow; a simple graph stays within capacity |
| Engine.ApplyPending | build/simulation/js/main.js:483-500 | the pending branch of `step`: the maximum flow grows by exactly the bottleneck, the path count by 1, nothing is left pending, and the flows move as augmentation moves them (none for `Infinity`) |
| Engine.AppliedConsistent | build/simulation/js/main.js:483-500 | the session after applying a pending path satisfies the invariant |
| Engine.PendingPositive | build/simulation/js/main.js:527-533 | a stored finite bottleneck is positive |
| Engine.Step | build/simulation/js/main.js:477-535 | `step`: does nothing before initialisation. With a path pending it applies it. Otherwise it reports completion, changing nothing, exactly when no augmenting path exists, or stores the found path and its bottleneck as pending, changing nothing else. It keeps the invariant, and the maximum flow never decreases |
| Scenario.PresetLoaded | build/simulation/js/main.js:36-44 | loading the `simple` preset gives its four edges with flow 0 |
| Scenario.PresetJoins | build/simulation/js/main.js:36-44 | each preset edge joins only its own pair of nodes |
| Scenario.PresetSimple | build/simulation/js/main.js:36-44 | the preset's endpoints are declared and it has no parallel or antiparallel edges |
| Scenario.BuildPrefix | build/simulation/js/main.js:392-400 | the rebuild processes the edges one after another, in order |
| Scenario.StepSA | build/simulation/js/main.js:392-400 | processing `s -> a` on the empty maps |
| Scenario.StepSB | build/simulation/js/main.js:392-400 | then processing `s -> b` appends to `s` and creates `b -> s` |
| Scenario.StepAT | build/simulation/js/main.js:392-400 | then processing `a -> t` |
| Scenario.StepBT | build/simulation/js/main.js:392-400 | then processing `b -> t` gives the preset's residual graph in insertion order |
| Scenario.PresetEmpty | build/simulation/js/main.js:386-390 | the four empty neighbour maps of the preset |
| Scenario.PresetBuild | build/simulation/js/main.js:384-401 | the preset's rebuilt residual graph for any flows on its four edges |
| Scenario.PresetSteps | build/simulation/js/main.js:384-401 | the same, as the four edge steps |
| Scenario.PresetChoices | build/simulation/js/main.js:461-466 | each pair of the two paths selects its own forward edge |
| Scenario.DeltaTwoHop | build/simulation/js/main.js:456-471 | a path of three nodes counts its two selections |
| Scenario.PushSAT | build/simulation/js/main.js:456-471 | pushing along `s, a, t` adds to `s -> a` and `a -> t` only |
| Scenario.PushSBT | build/simulation/js/main.js:456-471 | pushing along `s, b, t` adds to `s -> b` and `b -> t` only |
| Scenario.TwoHop | build/simulation/js/main.js:442-453 | a three-node path of positive entries is augmenting, and its bottleneck is the smaller entry |
| Scenario.FirstPath | build/simulation/js/main.js:442-453 | with no flow, `s, a, t` is augmenting with bottleneck 10 |
| Scenario.SecondPath | build/simulation/js/main.js:442-453 | once `s, a, t` is full, `s, b, t` is augmenting with bottleneck 5 |
| Scenario.Saturated | build/simulation/js/main.js:404-438 | with both source edges full, no augmenting path exists |
| Scenario.PresetStart | build/simulation/js/main.js:298-371 | loading and initialising the preset gives the session with no flow |
| Scenario.PresetPending | build/simulation/js/main.js:533 | a found path with its bottleneck is a valid pending state of the preset session |
| Scenario.AppliedEdges | build/simulation/js/main.js:489 | applying a finite pending path sets the flows to its augmentation |
| Scenario.AppliedTotal | build/simulation/js/main.js:490 | applying a pending bottleneck `b` to a running flow of `total - b` reports `total` |
| Scenario.PresetApply | build/simulation/js/main.js:483-500 | applying a pending path to a preset session gives the preset session of the augmented flows |
| Scenario.FirstPending | build/simulation/js/main.js:526-534 | `s, a, t` with bottleneck 10 is a valid pending state of the session with no flow |
| Scenario.FirstApplied | build/simulation/js/main.js:483-500 | applying it fills `s -> a` and `a -> t`: flow 10 after one path |
| Scenario.SecondPending | build/simulation/js/main.js:526-534 | `s, b, t` with bottleneck 5 is a valid pending state after the first path |
| Scenario.SecondApplied | build/simulation/js/main.js:483-500 | applying it: flow 15 after two paths |
| Scenario.PresetDone | build/simulation/js/main.js:506-523 | in the final session the search finds nothing, so the next step reports completion |
| Scenario.PresetFirst | build/simulation/js/main.js:36-44 | the preset's first step pair: `s, a, t` is valid when found, and applying it reports a flow of 10 after one path |
| Scenario.PresetSecond | build/simulation/js/main.js:36-44 | the second step pair: `s, b, t` is valid when found, applying it reports 15 after two paths, and no augmenting path remains |
| Scenario.PresetRun | build/simulation/js/main.js:36-44 | loading and initialising the preset starts at flow 0 with no path, and the first pair of steps leads to the session `PresetSecond` starts from |

## Left out

- Rendering, theme, layout, log, toast and timeline code: DOM and SVG side effects with no algorithmic content.
- `positionNodes` and node coordinates: floating-point geometry.
- `toggleAuto` and the auto-run timer: they only call `step` on a cadence.
- `generateRandom`: it depends on `Math.random`.
- `loadPreset`, `loadCustomGraph`, `parseSimpleFormat`, `parseMatrixFormat`, `graphToFormats` and `exportGraph`: text parsing, JSON, locale-dependent sorting and file download. The model starts from the node list and edge specs that `loadGraph` receives.
- The state fields `startTime`, `currentStep`, `currentPath`, `running` and `autoInterval`, and edge ids: wall-clock time and display state that the engine's results do not depend on.
- Non-integer capacities and flows: JavaScript numbers are modelled as integers plus `Infinity`.
- Edges whose endpoints are not declared nodes. In the code the rebuild throws on them. `Residual.Build` requires declared endpoints instead of modelling the exception.
- Search.FindAugmentingPath: the contract does not state that the path found is a shortest one, nor which of several shortest paths the neighbour order picks.
- Scenario.PresetFirst: the scenario takes the paths `s, a, t` and `s, b, t` as the ones the search returns. It proves them valid pending paths; it does not derive them from the search's neighbour order.
- Termination of repeated steps, and maximum flow equals minimum cut. Only the per-step facts are proved: the invariant, conservation, the capacity bound and a non-decreasing maximum flow.
- Engine.Step: when the source is the sink, the found path has one node and the pending bottleneck is `Infinity`. Applying it adds `Infinity` to the maximum flow. The model keeps this, but states no relation between an infinite running maximum flow and the source's net outflow.
