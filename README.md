# Max-flow engine: residual network, four algorithms and the flow validators

This project models the core of a Java max-flow engine (package `ega`) and proves properties
of that model.

- **The residual network.** `Edge` records sit in the adjacency lists of a `Graph`. Each
  input edge u→v is stored as a forward record in `adj[u]` and a reverse record in `adj[v]`,
  and the two `rev` fields name each other's positions.
- **Four algorithms**, each mutating the network in place:
  - Ford–Fulkerson: iterative DFS augmenting paths.
  - Edmonds–Karp: BFS shortest augmenting paths.
  - Dinic: level graph plus blocking flow, with current-arc pointers and pruning of dead ends.
  - Goldberg–Tarjan: FIFO push–relabel with heights, excesses, an active queue with `inQ`
    flags, and current-arc pointers.
- **Three read-only validators**: capacity constraints, flow conservation and the
  saturated-cut certificate.

## How the model is built

- **Records and networks.**
  - `Residual.Edge` is a datatype. A network value is `Net = seq<seq<Edge>>`.
  - `FlowGraph.Graph` is a class holding `adj: array<seq<Edge>>`. An in-place field write
    on a Java `Edge` becomes a write of the updated list into `adj[u]`.
- **One residual update.** `Residual.PushNet` is the four-line update that every algorithm
  performs on a record and its pair.
- **The invariant.** Every update keeps `Residual.ValidNet`:
  - the links are mutual;
  - `cap >= 0`;
  - `cap + flow == origCap`;
  - the pair's total `cap` is constant;
  - at most one record of a pair is an original edge.
- **Flow value.** A result is stated with `Conservation.FlowMoved(init, final, s, t, v)`:
  - the record layout is unchanged;
  - the net outflow `FlowOut` of s rose by v, that of t fell by v, and every other vertex
    kept its own;
  - the validators' `Balance` (inflow minus outflow over original records) moved the
    opposite way.
- **Algorithm results.** FF, EK and Dinic prove three things on exit: the network is
  valid, `FlowMoved` holds for the returned flow, and t is unreachable from s in the
  residual network. Push–relabel proves the same once its queue is empty, plus zero excess
  at every vertex other than s and t. `Validators.MaxFlowCertified` turns these facts into
  the three validators answering true.
- **Maximum and agreement.** Module `Duality` proves what makes the returned value the
  maximum flow value.
  - The value moved from s to t equals the residual capacity the flow used up on the records
    leaving any set that holds s but not t. So it never exceeds the capacity of that cut.
  - When t is unreachable at the end, the records leaving the set that s still reaches are
    saturated, so the value equals that cut's capacity.
  - Hence the four algorithms return the same value on clones of one network.
- **Loops and helpers.**
  - Every loop of the source is a `while` or `for` loop with its invariants.
  - Inner loops and loop bodies are separate methods (`TryAdvance`, `ScanAdjacency`,
    `ScanLevels`, `TryArc`, `DischargeStep`, …).
  - Each such method is proved against value-level predicates (`DfsInv`, `BfsAt`/`Scan`,
    `PhaseInv`/`DfsPost`, `PushRelabel.Inv`).
  - Push–relabel's fields form the value `PushRelabel.PR`. The class methods ensure that
    `State(g)` equals the matching step function of the old state, and the lemmas of
    module `PushRelabel` prove the invariants on those values.
- **Termination.**
  - FF, EK and Dinic decrease the residual capacity out of s, `CapOut(net, s)`, by at
    least 1 per augmentation or phase.
  - `discharge` decreases, lexicographically: whether u has excess, the number of residual
    records of u, whether an admissible record lies ahead of the current arc, and the
    records left behind the arc.
- **addEdge with u == v.**
  - `addEdge(u, u, cap)` is not guarded in the source: the forward record names its own
    position as its reverse.
  - `FlowGraph.Graph.AddEdge` models that case as written. `FlowGraph.SelfLoopUnpaired`
    shows the pairing it breaks.
  - The algorithms start from a `Valid()` network, which has no such records.

## Model

| member | source | states |
|---|---|---|
| Residual.NewEdge | src/main/java/ega/core/Edge.java:58-64 | the new record holds `to`, `rev`, `cap` and `origCap` as given, with `flow == 0` |
| Residual.PushNet | src/main/java/ega/algorithms/FordFulkerson.java:64-71 | the residual update of a record and its pair: only the tail's and the head's lists change, and every record keeps its position, `to`, `rev` and `origCap` |
| Residual.PushKeepsValid | src/main/java/ega/algorithms/FordFulkerson.java:67-71 | sending 0..cap over a record of a valid network gives a valid one: caps stay >= 0, `cap + flow` per record, the pair's total cap and the mutual links are kept |
| Residual.PushSums | src/main/java/ega/algorithms/FordFulkerson.java:67-71 | sending amt moves amt of net outflow from the tail to the head, and amt of residual capacity out of the head back to the tail; every other list keeps its sums |
| Residual.AugmentPath | src/main/java/ega/algorithms/FordFulkerson.java:62-72 | augmenting a walk keeps the record layout and the links, and leaves the lists of vertices off the walk unchanged |
| Residual.AugmentKeepsValid | src/main/java/ega/algorithms/FordFulkerson.java:62-72 | augmenting a simple path whose caps are all >= b by b keeps the network valid |
| Residual.AugmentSums | src/main/java/ega/algorithms/FordFulkerson.java:62-72 | augmenting by b raises the net outflow of the first vertex by b and lowers that of the last by b; inner vertices keep theirs; residual capacity moves the other way |
| Residual.CapOutNonneg | src/main/java/ega/core/Edge.java:31-35 | in a valid network the residual capacity out of any vertex is not negative |
| Conservation.PushBalance | src/main/java/ega/algorithms/FordFulkerson.java:67-71 | a push of amt lowers the balance (inflow minus outflow over original records) of the tail by amt and raises that of the head by amt |
| Conservation.AugmentBalance | src/main/java/ega/algorithms/FordFulkerson.java:62-72 | augmenting a simple path by b moves b of balance from its first vertex to its last |
| Conservation.AugmentMoves | src/main/java/ega/algorithms/FordFulkerson.java:62-74 | augmenting a simple s–t path by b keeps the network valid and moves b units from s to t |
| Conservation.MovedTrans | src/main/java/ega/algorithms/FordFulkerson.java:74 | flow moved in two rounds adds up (`flow += bottleneck`) |
| Conservation.MovedConserved | src/main/java/ega/core/FlowValidators.java:76-79 | conservation at every vertex other than s and t survives any amount moved from s to t |
| Conservation.NoFlowConserved | src/main/java/ega/core/Graph.java:83-92 | a network without flow conserves flow at every vertex |
| FlowGraph.AddPairValid | src/main/java/ega/core/Graph.java:73-76 | appending a forward/reverse pair between distinct vertices with cap >= 0 to a valid network gives a valid network |
| FlowGraph.AddPairNoFlow | src/main/java/ega/core/Graph.java:85-91 | the appended records carry no flow |
| FlowGraph.SelfLoopUnpaired | src/main/java/ega/core/Graph.java:83-92 | with u == v both records go into adj[u] and both `rev` fields name the forward record's own position, so the network is not linked |
| FlowGraph.Graph.constructor | src/main/java/ega/core/Graph.java:37-50 | n vertices, each with an empty list; the graph is valid and carries no flow |
| FlowGraph.Graph.AddEdge | src/main/java/ega/core/Graph.java:83-92 | appends the forward record (to v, rev the old length of adj[v], cap and origCap both cap, flow 0) to adj[u] and the reverse record (to u, rev the old length of adj[u], cap and origCap 0) to adj[v]; other lists unchanged; validity kept when u != v and cap >= 0 |
| FlowGraph.Graph.CloneGraph | src/main/java/ega/core/Graph.java:117-138 | a new graph with a new list array, the same n and every record equal in all five fields |
| FlowGraph.UpdateResidual | src/main/java/ega/algorithms/GoldbergTarjan.java:267-273 | the in-place writes `e.cap -= a; rev.cap += a; e.flow += a; rev.flow -= a` leave exactly `PushNet` of the old network |
| Validators.CapacityConstraints | src/main/java/ega/core/FlowValidators.java:34-48 | true exactly when every record with origCap > 0 has 0 <= flow <= origCap |
| Validators.FlowConservation | src/main/java/ega/core/FlowValidators.java:61-81 | true exactly when every vertex other than s and t has inflow equal to outflow over original records |
| Validators.ResidualReachable | src/main/java/ega/core/FlowValidators.java:125-143 | `vis[s]` holds, and `vis[v]` holds exactly when v is reachable from s over records with cap > 0 |
| Validators.FrontierExhausted | src/main/java/ega/core/FlowValidators.java:133-141 | once the BFS queue is empty the marks are exactly the reachable vertices |
| Validators.SaturatedCutExists | src/main/java/ega/core/FlowValidators.java:98-117 | true exactly when t is unreachable and no original record from the reachable side to the other side has cap > 0 |
| Validators.SaturatedCutIff | src/main/java/ega/core/FlowValidators.java:83-97 | the saturated-cut certificate holds exactly when t is unreachable from s (the reachable set is closed under residual records) |
| Validators.ValidCapacity | src/main/java/ega/core/FlowValidators.java:27-33 | every valid network meets the capacity constraints |
| Validators.OverfilledFails | src/main/java/ega/core/FlowValidators.java:43-44 | setting one original record's flow to origCap + 123 makes the capacity check fail |
| Duality.FlowAcrossCut | src/main/java/ega/core/FlowValidators.java:84-97 | for any vertex set holding s but not t, the flow value equals the start capacity minus the final capacity summed over the records leaving the set (records inside it cancel in pairs) |
| Duality.WeakDuality | src/main/java/ega/core/FlowValidators.java:84-97 | no valid network reached from the start moves more from s to t than the start capacity of the records leaving any s–t cut |
| Duality.MinCut | src/main/java/ega/algorithms/EdmondsKarp.java:79-81 | when t is unreachable at the end, the value equals the start capacity of the cut formed by the vertices s reaches |
| Duality.MaxFlowIsMaximum | src/main/java/ega/algorithms/FordFulkerson.java:28-33 | the value of a final network with t unreachable is the maximum s–t flow value: any valid network reached from the same start moves at most as much |
| Duality.MaxFlowUnique | src/main/java/ega/testbed/TestEnvironment.java:136-152 | two valid final networks reached from one start, both with t unreachable, carry the same value, so the four algorithms agree on clones of one network |
| Validators.MaxFlowCertified | src/main/java/ega/core/FlowValidators.java:34-117 | a valid final network with t unreachable, reached by moving flow from s to t out of a conserving start, passes all three validators |
| AugmentingPaths.TreePathFacts | src/main/java/ega/algorithms/FordFulkerson.java:209-218 | following the parent links from a discovered vertex gives a simple path from s whose every hop is a record with cap >= 1 |
| AugmentingPaths.TreeReach | src/main/java/ega/algorithms/FordFulkerson.java:198 | a vertex with a parent link is reachable from s |
| AugmentingPaths.DiscoverKeepsTree | src/main/java/ega/algorithms/FordFulkerson.java:215-216 | hanging an undiscovered head of a residual record below a discovered tail keeps the parent links a search tree |
| AugmentingPaths.Bottleneck | src/main/java/ega/algorithms/FordFulkerson.java:54-59 | the bottleneck is positive, at most INF, no larger than any cap on the path, and equal to one of them or to INF (the minimum) |
| AugmentingPaths.Augment | src/main/java/ega/algorithms/FordFulkerson.java:62-72 | the t→s loop of residual updates leaves the network augmented along the whole path by b |
| AugmentingPaths.AugmentRound | src/main/java/ega/algorithms/FordFulkerson.java:61-74 | one augmentation by b >= 1 keeps the network valid, moves b from s to t and lowers the residual capacity out of s by b (the termination measure) |
| AugmentingPaths.BuildPathNodes | src/main/java/ega/algorithms/FordFulkerson.java:239-254 | the array read off the parent links starts at s, ends at t, and each entry is the parent of the next |
| AugmentingPaths.PathLength | src/main/java/ega/algorithms/FordFulkerson.java:241-242 | the counting loop returns the number of hops of the tree path |
| FordFulkerson.FindAugmentingPathDFS | src/main/java/ega/algorithms/FordFulkerson.java:183-229 | the result is true exactly when t is reachable from s; the parent arrays form a search tree, and on success t is in it |
| FordFulkerson.TryAdvance | src/main/java/ega/algorithms/FordFulkerson.java:200-224 | the cursor scan at the top vertex either discovers an unseen head (which goes on the stack) or exhausts the list; the DFS invariant holds either way |
| FordFulkerson.DfsDiscover | src/main/java/ega/algorithms/FordFulkerson.java:214-218 | taking a record with cap > 0 to an undiscovered vertex keeps the DFS invariant with that vertex pushed |
| FordFulkerson.DfsPop | src/main/java/ega/algorithms/FordFulkerson.java:222-225 | popping an exhausted vertex keeps the DFS invariant |
| FordFulkerson.DfsExhausted | src/main/java/ega/algorithms/FordFulkerson.java:196-228 | an empty stack means the discovered set is closed under residual records, so t is unreachable |
| FordFulkerson.MaxFlow | src/main/java/ega/algorithms/FordFulkerson.java:35-78 | s == t gives 0 with the network untouched; otherwise the network stays valid, the returned flow equals the flow moved from s to t, and t is unreachable on exit |
| Layers.LayerBound | src/main/java/ega/algorithms/EdmondsKarp.java:55-77 | while the layers below F are finished, an undiscovered vertex is more than F hops away from s |
| Layers.BfsPoll | src/main/java/ega/algorithms/EdmondsKarp.java:60-61 | dequeuing the head keeps the BFS state, with the head's depth as the new current layer |
| Layers.BfsDiscover | src/main/java/ega/algorithms/EdmondsKarp.java:66-76 | discovering a vertex one layer below u and enqueuing it keeps the queue sorted by depth and the finished layers finished |
| Layers.BfsFinish | src/main/java/ega/algorithms/EdmondsKarp.java:62-77 | u is finished once its whole list is scanned |
| EdmondsKarp.BfsReachT | src/main/java/ega/algorithms/EdmondsKarp.java:69-75 | discovering t hangs it below u, and no residual walk reaches t in fewer hops |
| EdmondsKarp.BfsExhausted | src/main/java/ega/algorithms/EdmondsKarp.java:60-81 | an empty queue without t discovered means t is unreachable |
| EdmondsKarp.ScanAdjacency | src/main/java/ega/algorithms/EdmondsKarp.java:62-77 | the scan of u's list discovers every unseen head of a residual record, stopping at once with a shortest path when that head is t |
| EdmondsKarp.Bfs | src/main/java/ega/algorithms/EdmondsKarp.java:50-78 | reachedT holds exactly when t is reachable; on success the parent links lead to t along a path of depth[t] hops, and no residual path is shorter |
| EdmondsKarp.BfsPathShortest | src/main/java/ega/algorithms/EdmondsKarp.java:16-18 | the path Bfs leaves is a residual s–t path no longer than any other |
| EdmondsKarp.MaxFlow | src/main/java/ega/algorithms/EdmondsKarp.java:41-108 | s == t gives 0 with the network untouched; otherwise the network stays valid, the returned flow equals the flow moved from s to t, and t is unreachable on exit |
| EdmondsKarp.MakePathFrame | src/main/java/ega/algorithms/EdmondsKarp.java:228-245 | the frame's node sequence has depth[t] + 1 entries, starts at s and ends at t |
| BlockingFlow.TreeLevelPath | src/main/java/ega/algorithms/Dinic.java:50 | when the level search reaches t, its tree path to t lies in the level graph |
| BlockingFlow.PushShrinks | src/main/java/ega/algorithms/Dinic.java:194-199 | sending flow over a record that climbs one level adds no record to the level graph |
| BlockingFlow.PruneDead | src/main/java/ega/algorithms/Dinic.java:207-208 | setting level[u] = -1 for a u that cannot reach t keeps every level-graph walk to t |
| BlockingFlow.DfsExhausted | src/main/java/ega/algorithms/Dinic.java:182-209 | when every record of u has been passed, no level-graph walk leads from u to t, and pruning u keeps the phase state |
| BlockingFlow.ArcSucceed | src/main/java/ega/algorithms/Dinic.java:191-201 | when the head of the current arc returns c > 0, updating the arc by c completes a route from u to t of bottleneck c |
| BlockingFlow.ArcFail | src/main/java/ega/algorithms/Dinic.java:203-204 | when the head returns 0, the arc is useless and moving past it keeps the loop state |
| BlockingFlow.ArcExhausted | src/main/java/ega/algorithms/Dinic.java:207-209 | after the last arc, pruning u and returning 0 meets the search's contract |
| Dinic.BuildLevelGraph | src/main/java/ega/algorithms/Dinic.java:146-163 | level[s] = 0; level[v] != -1 exactly when v is reachable, and then it is its residual distance from s (below n); the result says whether t has a level |
| Dinic.ScanLevels | src/main/java/ega/algorithms/Dinic.java:155-160 | scanning u gives level[u] + 1 to every unlevelled head of a residual record and enqueues it |
| Dinic.LevelsDone | src/main/java/ega/algorithms/Dinic.java:153-162 | with the queue empty, levels are exactly the residual distances of reachable vertices |
| Dinic.DfsBlockingFlow | src/main/java/ega/algorithms/Dinic.java:179-210 | at t it returns `pushed`; otherwise it returns at most `pushed`. A positive amount is the bottleneck of a level-graph route from u to t, augmented in place. Zero leaves the network as it was, prunes u to level -1, and proves no level-graph walk from u to t. Pointers only move forward |
| Dinic.TryArc | src/main/java/ega/algorithms/Dinic.java:183-204 | one turn at the current arc: skip it if it is out of the level graph; otherwise recurse with min(pushed, cap), then update the arc or move past it |
| Dinic.SendBack | src/main/java/ega/algorithms/Dinic.java:194-199 | the residual update on the way back completes the augmentation of the route |
| Dinic.BlockingPhase | src/main/java/ega/algorithms/Dinic.java:54-58 | the phase moves total >= 1 from s to t and lowers the residual capacity out of s by it; the level graph only shrinks, pointers only grow, and at the end no level-graph walk leads from s to t |
| Dinic.StartPhase | src/main/java/ega/algorithms/Dinic.java:50-51 | more holds exactly when t is reachable; then every pointer is 0 and the level graph has an s–t walk |
| Dinic.ResetArcs | src/main/java/ega/algorithms/Dinic.java:51 | every current-arc pointer becomes 0 |
| Dinic.FreshPhase | src/main/java/ega/algorithms/Dinic.java:51 | pointers at 0 with levels in range form a phase state |
| Dinic.SourceIsSinkNeverBlocks | src/main/java/ega/algorithms/Dinic.java:179-180 | a search from t returns INF, never 0, and changes nothing |
| Dinic.MaxFlow | src/main/java/ega/algorithms/Dinic.java:41-61 | s == t returns 0 with the network untouched (see Findings); otherwise the network stays valid, the returned flow equals the flow moved from s to t, and t is unreachable on exit |
| PushRelabel.TotalMove | src/main/java/ega/algorithms/GoldbergTarjan.java:275-276 | moving an amount from one excess to another keeps the sum of all excesses |
| PushRelabel.SendPreflow | src/main/java/ega/algorithms/GoldbergTarjan.java:263-276 | a send within the residual capacity, and within u's excess unless u is s, keeps the preflow: excesses account for the flow moved, sum to 0, and only s can be negative |
| PushRelabel.SendQueued | src/main/java/ega/algorithms/GoldbergTarjan.java:278-281 | after a send, inQ still marks exactly the queued vertices; the queue has no duplicates and never holds s or t; every other vertex with excess is queued |
| PushRelabel.SendLabelled | src/main/java/ega/algorithms/GoldbergTarjan.java:307-309 | a send over an admissible record keeps the height labelling valid |
| PushRelabel.PushKeeps | src/main/java/ega/algorithms/GoldbergTarjan.java:263-282 | push on an admissible record of u keeps the invariant and leaves heights and pointers; afterwards u has no excess or one residual record fewer |
| PushRelabel.AdvanceKeeps | src/main/java/ega/algorithms/GoldbergTarjan.java:310-311 | moving the current arc past a record that is not admissible keeps the invariant |
| PushRelabel.ExcessResidual | src/main/java/ega/algorithms/GoldbergTarjan.java:292 | a vertex with positive excess has a residual record, so relabel's assumption holds whenever discharge calls it |
| PushRelabel.RelabelLabelled | src/main/java/ega/algorithms/GoldbergTarjan.java:287-294 | relabel to one above the lowest residual neighbour keeps the labelling and strictly raises u, and an admissible record of u then exists |
| PushRelabel.RelabelKeeps | src/main/java/ega/algorithms/GoldbergTarjan.java:301-304 | relabel followed by ptr[u] = 0 keeps the invariant with an admissible record ahead of the arc |
| PushRelabel.PollKeeps | src/main/java/ega/algorithms/GoldbergTarjan.java:108-111 | the polled vertex is neither s nor t and was marked; removing it keeps the invariant |
| PushRelabel.Settled | src/main/java/ega/algorithms/GoldbergTarjan.java:300 | once u has no excess it needs no exemption from the queue rule |
| PushRelabel.SaturateStart | src/main/java/ega/algorithms/GoldbergTarjan.java:74-82 | the fresh arrays with height[s] = n start the saturation |
| PushRelabel.SaturateSkip | src/main/java/ega/algorithms/GoldbergTarjan.java:84 | a record of s without residual capacity is passed over |
| PushRelabel.SaturateSend | src/main/java/ega/algorithms/GoldbergTarjan.java:86-103 | sending a record's whole capacity out of s keeps the saturation state with that record now saturated |
| PushRelabel.SaturatedRecords | src/main/java/ega/algorithms/GoldbergTarjan.java:83-104 | once the saturation has passed every record of s, each of them has residual capacity exactly 0 |
| PushRelabel.SaturateDone | src/main/java/ega/algorithms/GoldbergTarjan.java:82-104 | once every record of s is saturated, the start heights are a valid labelling and the full invariant holds |
| PushRelabel.Finished | src/main/java/ega/algorithms/GoldbergTarjan.java:122-123 | with the queue empty every vertex other than s and t has zero excess, excess[t] >= 0 is the flow moved from s to t, s == t gives 0, and t is unreachable from s |
| PushRelabel.NoResidualPath | src/main/java/ega/algorithms/GoldbergTarjan.java:122 | a valid labelling with h[s] = n and h[t] = 0 leaves no residual path from s to t (an unused height separates them) |
| PushRelabel.Gap | src/main/java/ega/algorithms/GoldbergTarjan.java:82 | some height between 1 and n - 1 is taken by no vertex other than s and t |
| GoldbergTarjan.GoldbergTarjan.constructor | src/main/java/ega/algorithms/GoldbergTarjan.java:35-50 | empty arrays and an empty queue |
| GoldbergTarjan.GoldbergTarjan.Send | src/main/java/ega/algorithms/GoldbergTarjan.java:267-281 | the fields and the network become `SendStep` of the old state |
| GoldbergTarjan.GoldbergTarjan.Push | src/main/java/ega/algorithms/GoldbergTarjan.java:263-282 | the fields and the network become `PushStep` of the old state: send min(excess[u], cap), nothing if that is <= 0 |
| GoldbergTarjan.GoldbergTarjan.LowestResidual | src/main/java/ega/algorithms/GoldbergTarjan.java:288-291 | the least height over the heads of u's residual records |
| GoldbergTarjan.GoldbergTarjan.Relabel | src/main/java/ega/algorithms/GoldbergTarjan.java:287-294 | height[u] becomes one above its lowest residual neighbour; no other height changes |
| GoldbergTarjan.GoldbergTarjan.Discharge | src/main/java/ega/algorithms/GoldbergTarjan.java:299-314 | the loop ends with excess[u] == 0, u unqueued and the invariant restored |
| GoldbergTarjan.GoldbergTarjan.DischargeStep | src/main/java/ega/algorithms/GoldbergTarjan.java:300-312 | one pass keeps the invariant and strictly decreases the discharge measure |
| GoldbergTarjan.GoldbergTarjan.RelabelArc | src/main/java/ega/algorithms/GoldbergTarjan.java:301-304 | relabel and arc reset: invariant kept, an admissible record ahead, excess and residual count unchanged |
| GoldbergTarjan.GoldbergTarjan.PushArc | src/main/java/ega/algorithms/GoldbergTarjan.java:307-309 | push on the admissible current arc: invariant kept; u loses all its excess or a residual record |
| GoldbergTarjan.GoldbergTarjan.AdvanceArc | src/main/java/ega/algorithms/GoldbergTarjan.java:310-311 | ptr[u]++ past a non-admissible record: invariant kept, fewer records left |
| GoldbergTarjan.GoldbergTarjan.Allocate | src/main/java/ega/algorithms/GoldbergTarjan.java:74-82 | fresh arrays of length n: height n at s and 0 elsewhere, no excess, nothing queued, pointers at 0 |
| GoldbergTarjan.GoldbergTarjan.SaturateSource | src/main/java/ega/algorithms/GoldbergTarjan.java:83-104 | every record of s ends with residual capacity 0; heights stay n at s and 0 elsewhere, and every pointer stays 0; the push–relabel invariant holds |
| GoldbergTarjan.GoldbergTarjan.Poll | src/main/java/ega/algorithms/GoldbergTarjan.java:108-109 | takes the head of the queue and clears its mark; the rest of the queue stays; the polled vertex is neither s nor t |
| GoldbergTarjan.GoldbergTarjan.Drain | src/main/java/ega/algorithms/GoldbergTarjan.java:107-120 | the FIFO loop keeps the invariant; done holds exactly when the queue is empty |
| GoldbergTarjan.GoldbergTarjan.MaxFlow | src/main/java/ega/algorithms/GoldbergTarjan.java:73-124 | the network stays valid with its layout; once the queue empties, the result is excess[t] >= 0, it is the flow moved from s to t (0 when s == t), every other vertex has zero excess, and t is unreachable |

## Left out

- Tracing:
  - The tracing overloads are not modelled: `maxFlow(g, s, t, out)` in all four
    algorithms, `dfsBlockingFlowVis`, and the `*Vis` twins of push, relabel and discharge.
  - Nor are their `VisFrame` events (`Path`, `Push`, `Cut`, level overlays). Tracing only
    observes.
  - `Dinic.DfsBlockingFlow` returns its route as `path`, which is where the tracing
    variant's `pathStack` ends up.
  - `EdmondsKarp.MakePathFrame` and `AugmentingPaths.BuildPathNodes` model the two
    path-building helpers.
- Integer widths: capacities, flows and excesses are unbounded integers, and heights are
  too, so 64-bit and 32-bit overflow is not modelled. `Long.MAX_VALUE / 4` appears as the
  constant `Residual.INF`.
- Aliasing: Java `Edge` objects are mutated through aliases; here a record is a value, and
  a write replaces the updated list in `adj[u]`.
- `reachableFromS`: the copies in FordFulkerson, EdmondsKarp and Dinic are the same BFS as
  `residualReachable`. It is modelled once, as `Validators.ResidualReachable`. The
  algorithms' postconditions state unreachability directly, through `Paths.Reachable`.
- GoldbergTarjan.GoldbergTarjan.Drain: the FIFO main loop runs for at most `fuel` polls,
  and `done` reports that the queue emptied. Termination of FIFO push–relabel (heights
  bounded by 2n − 1) is not proved.
- GoldbergTarjan.GoldbergTarjan.MaxFlow:
  - It passes `fuel` on to `Drain`. Its max-flow facts, and the agreement with the other
    three algorithms that `Duality.MaxFlowUnique` gives, hold when `done` is true.
  - The source's check that re-queues u after `discharge` is not modelled as a branch.
    `Discharge` proves that u is left with no excess, so that branch is never taken.
- GoldbergTarjan.GoldbergTarjan.LowestResidual: the `Integer.MAX_VALUE` start value
  becomes a flag "no residual record seen yet". It requires a residual record to exist, as
  the comment at GoldbergTarjan.java:292 assumes. `PushRelabel.ExcessResidual` proves that
  discharge only relabels when one exists.
- Preconditions about the shape of the input:
  - FF, EK, Dinic and push–relabel require a `Valid()` network: mutual links, caps not
    negative, `cap + flow == origCap`.
  - The validators require `InRange` or a `Shaped` graph; there the source would throw an
    index exception.
  - Vertex numbers must lie in 0..n−1; the source throws otherwise.
- Dinic.BlockingPhase: blocking is stated for the pruned level graph that the phase ends
  with. Every level-graph walk to t is kept by pruning, and walks through pruned vertices
  cannot reach t.
- The GUI, the graph generator, and the test bed (`TestEnvironment`, `Main`) are not part
  of this model.

## Findings

| source | as written | input that shows it | evidently intended | confidence | as-written member | corrected member |
|---|---|---|---|---|---|---|
| src/main/java/ega/algorithms/Dinic.java:41-61 | `maxFlow` has no `s == t` guard: `buildLevelGraph` reaches t (it is s), and `dfsBlockingFlow(g, s, s, INF, …)` returns INF at line 180 without changing the network, so the inner loop's exit `pushed == 0` is never taken | any graph with s == t | return 0 at once, as FordFulkerson.java:36 and EdmondsKarp.java:42 do | not executed | Dinic.SourceIsSinkNeverBlocks | Dinic.MaxFlow |
