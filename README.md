# Region growing over an adjacency-set graph, in Dafny

This project models the core of a Sybil-region detector written in Java. It
has three parts:

- `Graph`: an undirected graph kept as a map from vertex id to neighbour set.
  The graph changes in place. It has edge counting, degree and clustering
  counts, a breadth-first and a depth-first search.
- `ADC`: the detector itself. It splits the vertex ids `0 .. n - 1` into an
  honest candidate region A (the seeds) and a suspect region B (the rest).
  It then tries every vertex of B in A, one at a time. It keeps a move only
  when the score strictly improves, and otherwise rolls both graphs back.
  Edges of B that cannot yet enter A wait in a deferred-edge ledger.
- `util/Math`: a factorial loop and the quotient `n1! / n2!` as a product.

## Layout

- `graph_spec.dfy` (module `GraphSpec`): the graph state as a value
  (`Adjacency = map<nat, set<nat>>`). It has one pure function per mutator
  and the structural lemmas about them: symmetry, removal, counting pairs.
- `measure_spec.dfy` (module `GraphMeasures`): the integer counts behind the
  average degree and the clustering coefficient.
- `search_spec.dfy` (module `Search`): the node records of the searches and
  the invariants of `bfs` and `DFS_Visit`.
- `graph.dfy` (module `Graphs`): class `Graph` with the field `adj`. Every
  mutator is a method proved against its `GraphSpec` function. Every loop
  of the source is a loop with invariants here.
- `adc_spec.dfy` (module `AdcSpec`): the partition at value level.
  - The split by seeds and the cross graph.
  - The score, as a `real`; `None` stands for NaN.
  - A move and its rollback.
  - The ledger.
  - The region invariant `Regions`.
  - The counts of the correctness ratios.
- `adc.dfy` (module `Adc`): the methods of ADC.java over `Graph` objects.
  `AdcSpec.Run` is the reference run of `processRegions`: one `Step` per
  vertex, in the order they were tried. `ProcessRegions` is proved to end
  in the state `Run` gives for the order it used. `RunKeepsRegions` proves
  that every such run keeps `Regions` and a strictly increasing trail of
  accepted scores.
- `math.dfy` (module `FactorialMath`): the two accumulator loops, proved
  against recursive definitions.

## How the model reads the source

- **Vertex ids.** Ids are `nat`. Sybil ids in the ground-truth list are
  `int`; a negative one is never a vertex.
- **Failure paths.** `null` results become `Option`. A float division by
  zero (NaN or infinity) becomes `None`.
- **Set iteration order.** The source iterates hash sets in an unspecified
  order, so the model picks elements with `:|`. Every contract holds for
  every order. This covers the snapshot of B's vertices in `processRegions`.
- **The seed set.** It is a parameter; `getSeeds` draws it at random.
- **Preconditions of `processRegions`.** It is proved for an input list
  that is symmetric, has no self-loops, and lists only ids below `n`
  (`WellFormed`). Under these:
  - Every B-neighbour of the vertex being moved lies outside A
    (`AdcSpec.MoveFacts`).
  - So the branch at ADC.java:175-176, which would put an edge straight
    into A, never runs. Edges enter A only through `addRemainingEdges`.
  - `removeVertex` is only called where it cannot fail. It needs every
    neighbour to be a vertex, and the vertex not to be its own neighbour.
- **Two behaviours of `processRegions` that the model keeps:**
  - The score of a tentative move is computed against the cross graph of
    the partition *before* the move (ADC.java:185). The cross graph is
    rebuilt only afterwards (ADC.java:194). `Adc.TryMove` states exactly
    that.
  - A rejected move restores A and B exactly, but not the ledger. Entries
    that `addRemainingEdges` took out (ADC.java:219) stay out. Entries
    recorded for the move (ADC.java:179-180) stay in. `AdcSpec.MovedLedger`
    is the ledger after a move either way.
- **A is sound, not exact.** An input edge between a seed and a non-seed is
  dropped when the regions are built (ADC.java:242-261). It is never added
  back, even when both ends later sit in A. So the invariant proved for A
  is: every edge of A is an input edge between vertices of A
  (`AdcSpec.Sound`). For B the proved invariant is: B holds exactly the
  input edges among its vertices (`AdcSpec.Exact`).
- **`bfs` uses a stack.** It pushes and pops at the head of an
  `ArrayDeque`, so it is a LIFO search. No shortest-distance claim is made.
  What is proved:
  - Every vertex reachable from the start ends black.
  - Every discovered vertex hangs by an arc from a black predecessor.
  - Without a self-loop at the start, every discovered vertex lies one
    level below its predecessor.
- **`DFS_Visit` passes `time` by value.** So a vertex is discovered at
  `time + 1` and finished at `time + 2`, whatever its descendants do.
  `Graphs.Graph.DfsVisit` states exactly that.

## Model

| member | source | states |
|---|---|---|
| FactorialMath.Factorial | src/br/ufmg/dcc/paa/tp2/util/Math.java:4-10 | the loop's result is `Fact(n)`: n! for n >= 0 and 1 for every n <= 0 |
| FactorialMath.FactIsProductFromOne | src/br/ufmg/dcc/paa/tp2/util/Math.java:4-10 | the factorial is the product of the integers in (0, n], the range the loop runs over |
| FactorialMath.SimplifyFactorialDivision | src/br/ufmg/dcc/paa/tp2/util/Math.java:23-31 | -1 when n2 > n1; otherwise the product (n2 + 1) * ... * n1, which is 1 when n1 == n2 |
| FactorialMath.QuotientTimesFact | src/br/ufmg/dcc/paa/tp2/util/Math.java:12-31 | the doc comment's promise: for 0 <= n2 <= n1 the result times n2! is n1! |
| FactorialMath.QuotientOfTwoBelow | src/br/ufmg/dcc/paa/tp2/util/Math.java:27-29 | for (n, n - 2) the result is n * (n - 1) for every n >= 0, so 0 for n = 0 and n = 1 |
| FactorialMath.PairCountIsEven | src/br/ufmg/dcc/paa/tp2/Graph.java:402 | n * (n - 1) is even, so the halving that gives the pair count c loses nothing |
| GraphSpec.WithVertex | src/br/ufmg/dcc/paa/tp2/Graph.java:214-218 | `addVertex(v)` adds v to the keys, gives an absent v the empty set and leaves every existing set as it was |
| GraphSpec.AddVertexIdempotent | src/br/ufmg/dcc/paa/tp2/Graph.java:214-218 | adding a vertex twice is adding it once, and adding an existing vertex changes nothing |
| GraphSpec.WithArcs | src/br/ufmg/dcc/paa/tp2/Graph.java:183-206 | inserting arcs creates exactly their missing sources as vertices |
| GraphSpec.NbrsWithArcs | src/br/ufmg/dcc/paa/tp2/Graph.java:183-206 | after inserting arcs, each vertex's set is its old set plus the targets of the inserted arcs from it, and nothing else |
| GraphSpec.WithOneArc | src/br/ufmg/dcc/paa/tp2/Graph.java:186-190 | a directed `addEdge(u, v)` only touches u's set, adding v (and creating u if missing) |
| GraphSpec.WithArcsTwice | src/br/ufmg/dcc/paa/tp2/Graph.java:200-206 | inserting two batches of arcs in turn is inserting their union, so the order of `addEdges` does not matter |
| GraphSpec.DirectedAddEdgeKeys | src/br/ufmg/dcc/paa/tp2/Graph.java:183-194 | a directed `addEdge(u, v)` creates no vertex other than u |
| GraphSpec.AddEdgeKeepsSymmetry | src/br/ufmg/dcc/paa/tp2/Graph.java:183-194 | an undirected `addEdge(u, v)` on a symmetric graph puts v in u's set and u in v's set, and the graph stays symmetric |
| GraphSpec.WithoutArc | src/br/ufmg/dcc/paa/tp2/Graph.java:228-236 | the private `removeEdge(u, v)`: the key u is deleted exactly when its set was {v}; only u's set loses v; a no-op when u is absent or v is not its neighbour |
| GraphSpec.RemovedArcIsGone | src/br/ufmg/dcc/paa/tp2/Graph.java:228-236 | after `removeEdge(u, v)` the arc u -> v is absent |
| GraphSpec.RemoveEdgeKeepsSymmetry | src/br/ufmg/dcc/paa/tp2/Graph.java:238-242 | an undirected `removeEdge(e, true)` keeps a symmetric graph symmetric and removes e, even when it deletes an emptied vertex |
| GraphSpec.WithoutVertex | src/br/ufmg/dcc/paa/tp2/Graph.java:250-264 | `removeVertex(u)` removes the key u; only u's own neighbours lose u; a neighbour whose set empties stays a vertex; a no-op when u is absent |
| GraphSpec.RemoveVertexClearsReferences | src/br/ufmg/dcc/paa/tp2/Graph.java:250-264 | on a symmetric graph, after `removeVertex(u)` no set mentions u and the graph stays symmetric |
| GraphSpec.StarCard | src/br/ufmg/dcc/paa/tp2/Graph.java:163-173 | `getAdjEdges(u)` returns exactly one edge per neighbour of u |
| GraphSpec.SeenStep | src/br/ufmg/dcc/paa/tp2/Graph.java:106-135 | one arc u -> v of the edge count: the pair {u, v} joins the pairs seen, and the count grows exactly when the pair is new |
| GraphSpec.MarkBoth | src/br/ufmg/dcc/paa/tp2/Graph.java:108-134 | marking a new pair in both orientations keeps the `counted` map equal to the pairs seen |
| GraphSpec.MarkedWhenSeen | src/br/ufmg/dcc/paa/tp2/Graph.java:109-127 | a pair already seen is marked in both orientations, so neither branch of the source counts it again |
| GraphSpec.IndexAdjacency | src/br/ufmg/dcc/paa/tp2/Graph.java:75-84 | the list constructor as written: keys 0 .. n - 1, and u's set is the positions 0 .. size - 1 of list u rather than the ids stored there |
| GraphSpec.NeighbourAdjacency | src/br/ufmg/dcc/paa/tp2/Graph.java:75-84 | the graph a list describes: keys 0 .. n - 1, and u's set is exactly the ids listed for u |
| GraphSpec.NeighbourAdjacencyWellFormed | src/br/ufmg/dcc/paa/tp2/ADC.java:281-298 | a well-formed list (symmetric, loop-free, ids below n) describes a symmetric, loop-free graph whose neighbours are all vertices |
| GraphSpec.IndexAdjacencyCounterexample | src/br/ufmg/dcc/paa/tp2/Graph.java:80-82 | for the well-formed list of the single edge 0 - 1, the list constructor builds {0: {0}, 1: {0}}, which is not symmetric, instead of {0: {1}, 1: {0}} |
| Graphs.Graph.FromMap | src/br/ufmg/dcc/paa/tp2/Graph.java:65-67 | the map constructor adopts the given map unchanged |
| Graphs.Graph.FromLists | src/br/ufmg/dcc/paa/tp2/Graph.java:75-84 | the list constructor's loops build `IndexAdjacency(input)` |
| Graphs.Graph.FromNeighbourLists | src/br/ufmg/dcc/paa/tp2/Graph.java:75-84 | the corrected list constructor builds `NeighbourAdjacency(input)` |
| Graphs.Graph.VertexCount | src/br/ufmg/dcc/paa/tp2/Graph.java:86-88 | the number of vertices |
| Graphs.Graph.Contains | src/br/ufmg/dcc/paa/tp2/Graph.java:288-290 | `contains(u)` holds exactly when u is a vertex, with or without edges |
| Graphs.Graph.ContainsEdge | src/br/ufmg/dcc/paa/tp2/Graph.java:273-279 | `contains(e)` holds exactly when e.v is in e.u's set; false when e.u is not a vertex |
| Graphs.Graph.Vertices | src/br/ufmg/dcc/paa/tp2/Graph.java:140-142 | the key set: u is in it exactly when `contains(u)` |
| Graphs.Graph.AddVertex | src/br/ufmg/dcc/paa/tp2/Graph.java:214-218 | the new state is `WithVertex(old, v)` |
| Graphs.Graph.AddEdge | src/br/ufmg/dcc/paa/tp2/Graph.java:183-194 | the new state is the old one with the arc u -> v, and v -> u when undirected, inserted (through the recursive call) |
| Graphs.Graph.AddEdgeOf | src/br/ufmg/dcc/paa/tp2/Graph.java:196-198 | `addEdge(e, undirected)` has the effect of `addEdge(e.u, e.v, undirected)` |
| Graphs.Graph.AddEdges | src/br/ufmg/dcc/paa/tp2/Graph.java:200-206 | the loop inserts every edge of the set, and its reverse when undirected, whatever the iteration order |
| Graphs.Graph.RemoveArc | src/br/ufmg/dcc/paa/tp2/Graph.java:228-236 | the new state is `WithoutArc(old, u, v)` |
| Graphs.Graph.RemoveEdgeOf | src/br/ufmg/dcc/paa/tp2/Graph.java:238-242 | removes u -> v, then v -> u when undirected, each with the emptied-vertex deletion |
| Graphs.Graph.RemoveVertex | src/br/ufmg/dcc/paa/tp2/Graph.java:250-264 | the loop over u's set followed by the deletion of u gives `WithoutVertex(old, u)`, when every neighbour of u is a vertex and u is not its own neighbour |
| Graphs.Graph.AdjEdges | src/br/ufmg/dcc/paa/tp2/Graph.java:163-173 | None exactly when u is not a vertex; otherwise the set holds e exactly when e.u == u and `contains(e)`, one edge per neighbour |
| Graphs.Graph.EdgeCount | src/br/ufmg/dcc/paa/tp2/Graph.java:97-138 | the number of distinct unordered pairs {u, v} with v in u's set: each undirected edge once, a self-loop once |
| Graphs.Graph.CountArcsFrom | src/br/ufmg/dcc/paa/tp2/Graph.java:105-135 | the inner loop adds to the count exactly the pairs of u not seen before, and `counted` marks exactly the pairs seen |
| Graphs.CountNeighbour | src/br/ufmg/dcc/paa/tp2/Graph.java:107-134 | one neighbour v of u: the seen pairs grow by {u, v} and the count stays their number |
| Graphs.CountArc | src/br/ufmg/dcc/paa/tp2/Graph.java:108-134 | both branches together add 1 exactly when {u, v} is a new pair, and leave `counted` marking exactly the seen pairs |
| Graphs.Graph.VertexDegree | src/br/ufmg/dcc/paa/tp2/Graph.java:367-374 | the inner loop of `avgDegree`: 2 for a self-loop and 1 for each other neighbour |
| Graphs.Graph.DegreeSum | src/br/ufmg/dcc/paa/tp2/Graph.java:363-375 | the sum over all vertices: one per arc plus one more per self-loop |
| Graphs.Graph.AvgDegree | src/br/ufmg/dcc/paa/tp2/Graph.java:360-377 | the degree sum over the vertex count; None (NaN) exactly for the empty graph |
| GraphMeasures.DegreeAll | src/br/ufmg/dcc/paa/tp2/Graph.java:364-375 | summing the per-vertex degrees over every vertex gives the arcs plus the self-loops |
| GraphMeasures.AverageDegree | src/br/ufmg/dcc/paa/tp2/Graph.java:376 | None exactly when there is no vertex; otherwise the value times the vertex count is the degree sum |
| Graphs.Graph.CountClosersAt | src/br/ufmg/dcc/paa/tp2/Graph.java:407-413 | the innermost loop counts the neighbours t of v with t != u that are neighbours of u |
| Graphs.Graph.ClosedPairCount | src/br/ufmg/dcc/paa/tp2/Graph.java:404-414 | the middle loop counts the pairs (v, t) of neighbours of u with t a neighbour of v |
| GraphMeasures.ClosedPairsStep | src/br/ufmg/dcc/paa/tp2/Graph.java:404-414 | one more neighbour v adds exactly its closers to the pair count, with no overlap |
| GraphMeasures.OffDiagonalCard | src/br/ufmg/dcc/paa/tp2/Graph.java:402 | a set of k elements has k * (k - 1) ordered pairs of distinct members |
| GraphMeasures.ClosedPairsBound | src/br/ufmg/dcc/paa/tp2/Graph.java:399-414 | without self-loops, the count for a vertex with n neighbours is at most n * (n - 1), twice the pair count c |
| GraphMeasures.LocalCoefficient | src/br/ufmg/dcc/paa/tp2/Graph.java:415-418 | 0 when c is 0; otherwise the value times 2c is the count (count / 2 / c) |
| GraphMeasures.LocalCoefficientBounds | src/br/ufmg/dcc/paa/tp2/Graph.java:415-418 | with a count of at most 2c the local coefficient lies in [0, 1] |
| Graphs.Graph.LocalClustering | src/br/ufmg/dcc/paa/tp2/Graph.java:398-418 | the coefficient stored for u, with c from `simplifyFactorialDivision(n, n - 2) / 2`; in [0, 1] without self-loops |
| Graphs.Graph.LocalCoefficients | src/br/ufmg/dcc/paa/tp2/Graph.java:395-419 | `coefByVertex` has every vertex as a key and its local coefficient as value; each in [0, 1] without self-loops |
| Graphs.SumValues | src/br/ufmg/dcc/paa/tp2/Graph.java:421-425 | a value between 0 and the number of coefficients when each coefficient lies in [0, 1] |
| Graphs.Graph.ClustCoefficient | src/br/ufmg/dcc/paa/tp2/Graph.java:392-428 | 0 for the empty graph; the mean of the local coefficients lies in [0, 1] without self-loops |
| Graphs.Graph.InitNodes | src/br/ufmg/dcc/paa/tp2/Graph.java:513-518 | a fresh array of one white record per vertex id 0 .. V - 1 |
| Search.WhiteCountShrinks | src/br/ufmg/dcc/paa/tp2/Graph.java:494-501 | no node turns white again, so the white count never grows and drops when a node is discovered: the recursion ends |
| Search.FinishVisit | src/br/ufmg/dcc/paa/tp2/Graph.java:503-505 | blackening u at time + 2 once no neighbour is white completes a visit: f = d + 1, and every node it changed was white |
| Graphs.Graph.DfsVisit | src/br/ufmg/dcc/paa/tp2/Graph.java:492-506 | u ends black with d = time + 1 and f = time + 2; every node the visit changed was white and ends black with f = d + 1; no node it finished keeps a white neighbour |
| Graphs.Graph.Dfs | src/br/ufmg/dcc/paa/tp2/Graph.java:466-475 | afterwards every vertex is black with f = d + 1 and d >= 1, and its id and predecessor are those of `initNodes` |
| Graphs.Graph.DfsFrom | src/br/ufmg/dcc/paa/tp2/Graph.java:484-490 | s ends black with d = 1 and f = 2; no node is gray; untouched nodes are as initialised; every neighbour of a black node is black |
| Search.BfsStart | src/br/ufmg/dcc/paa/tp2/Graph.java:439-441 | the all-white array with the deque [s] satisfies the search invariant |
| Search.BfsPop | src/br/ufmg/dcc/paa/tp2/Graph.java:443 | popping the head of the deque keeps the invariant; the popped node is white only if it is s |
| Search.DiscoverStep | src/br/ufmg/dcc/paa/tp2/Graph.java:449-454 | graying a white neighbour v one level below u with predecessor u and pushing it keeps the invariant and removes exactly one white node |
| Graphs.Graph.BfsDiscover | src/br/ufmg/dcc/paa/tp2/Graph.java:448-454 | one neighbour: it is no longer white afterwards, no node turns white, and the deque grows by the number of nodes that stopped being white |
| Graphs.Graph.BfsScan | src/br/ufmg/dcc/paa/tp2/Graph.java:444-455 | after scanning u, no neighbour of u is white and the invariant holds |
| Search.BfsFinish | src/br/ufmg/dcc/paa/tp2/Graph.java:456 | blackening u once no neighbour is white keeps the invariant |
| Graphs.Graph.BfsBlacken | src/br/ufmg/dcc/paa/tp2/Graph.java:456 | only u changes, to black, and the invariant holds for the next pop |
| Graphs.Graph.BfsLoop | src/br/ufmg/dcc/paa/tp2/Graph.java:442-457 | the outer loop ends with an empty deque and the invariant intact |
| Search.BfsDone | src/br/ufmg/dcc/paa/tp2/Graph.java:442-458 | with the deque empty no node is gray, s is black and every neighbour of a black node is black |
| Graphs.Graph.Bfs | src/br/ufmg/dcc/paa/tp2/Graph.java:437-459 | s ends black, no node is gray, untouched nodes are as initialised, black nodes are closed under neighbours, discovered nodes hang from black predecessors and, without a self-loop at s, lie one level below them |
| Search.ReachableIsBlack | src/br/ufmg/dcc/paa/tp2/Graph.java:437-506 | with black nodes closed under neighbours, every vertex reachable from a black vertex is black |
| AdcSpec.SeedPart | src/br/ufmg/dcc/paa/tp2/ADC.java:242-251 | A's vertices are exactly the seed ids below n, each with its listed neighbours that are seeds |
| AdcSpec.RestPart | src/br/ufmg/dcc/paa/tp2/ADC.java:252-261 | B's vertices are exactly the other ids below n, each with its listed neighbours that are not seeds |
| Adc.FilterBySeeds | src/br/ufmg/dcc/paa/tp2/ADC.java:247-260 | the inner loops keep a listed neighbour exactly when it is on the same side as the vertex |
| Adc.CreateGraphsAB | src/br/ufmg/dcc/paa/tp2/ADC.java:234-264 | two new graphs holding `SeedPart` and `RestPart` |
| AdcSpec.SplitRegions | src/br/ufmg/dcc/paa/tp2/ADC.java:242-262 | on a well-formed list A and B are disjoint, cover 0 .. n - 1, and each holds exactly the input edges among its vertices |
| AdcSpec.ExactSymmetric | src/br/ufmg/dcc/paa/tp2/ADC.java:252-261 | a region that holds exactly the input edges among its vertices is symmetric |
| Adc.AddCrossArcs | src/br/ufmg/dcc/paa/tp2/ADC.java:286-295 | the inner loop gives u the listed neighbours on the other side, creating u's set only when there is one |
| AdcSpec.ListedCrossingStep | src/br/ufmg/dcc/paa/tp2/ADC.java:288-294 | one more listed neighbour joins the crossing set exactly when it crosses |
| AdcSpec.CrossUpToAll | src/br/ufmg/dcc/paa/tp2/ADC.java:284-296 | scanning all lists gives the cross graph of the input graph |
| Adc.GetABEdges | src/br/ufmg/dcc/paa/tp2/ADC.java:281-298 | a new graph equal to the cross graph of the input for the current A and B |
| AdcSpec.CrossAdjacencyArcs | src/br/ufmg/dcc/paa/tp2/ADC.java:281-298 | u -> v is a cross arc exactly when it is an input arc with one end in A and the other in B; only vertices with a cross arc are keys; the cross graph of a symmetric graph is symmetric |
| AdcSpec.Score | src/br/ufmg/dcc/paa/tp2/ADC.java:392-400 | None (NaN) exactly when eAA + eAB is 0 |
| Adc.CalculateCN | src/br/ufmg/dcc/paa/tp2/ADC.java:392-400 | the score of the edge counts of A, B and the cross graph |
| AdcSpec.ScoreBounds | src/br/ufmg/dcc/paa/tp2/ADC.java:396-399 | the score is eAA / (eAA + eAB) minus (eBB + eAB) / (eAA + eBB + 2 eAB), so it lies in (-1, 1] |
| AdcSpec.ScoreForm | src/br/ufmg/dcc/paa/tp2/ADC.java:399 | the second term eA * eB / (eA * eA + eA * eB) equals eB / (eA + eB) |
| AdcSpec.ScoreRange | src/br/ufmg/dcc/paa/tp2/ADC.java:396-399 | a share in [0, 1] minus a share in [0, 1) lies in (-1, 1] |
| Adc.AddRemainingEdge | src/br/ufmg/dcc/paa/tp2/ADC.java:199-208 | v joins u's ledger set, which is created when missing |
| AdcSpec.RecordBoth | src/br/ufmg/dcc/paa/tp2/ADC.java:179-180 | the two calls with swapped ends record the edge in both directions |
| Adc.DeferEdge | src/br/ufmg/dcc/paa/tp2/ADC.java:178-180 | one edge of u in B is recorded both ways in the ledger |
| Adc.DeferEdges | src/br/ufmg/dcc/paa/tp2/ADC.java:171-182 | when no other end is in A, the loop records every edge of u in B both ways |
| AdcSpec.MoveFacts | src/br/ufmg/dcc/paa/tp2/ADC.java:175-176 | under the region invariant, u's B-neighbours are outside A and other than u, so this branch never runs; also u may be removed from B, and no set of A holds u |
| Adc.MaterialiseOne | src/br/ufmg/dcc/paa/tp2/ADC.java:215-220 | a ledger entry v of u becomes the undirected edge u - v of A exactly when v is a vertex of A |
| AdcSpec.MaterialiseStep | src/br/ufmg/dcc/paa/tp2/ADC.java:215-220 | handling one more entry extends the set of materialised neighbours by it when it is in A, and adds no vertex |
| Adc.Materialise | src/br/ufmg/dcc/paa/tp2/ADC.java:213-221 | A gains the undirected edges from u to exactly those ledger entries that are vertices of A; the entries kept are the others |
| Adc.AddRemainingEdges | src/br/ufmg/dcc/paa/tp2/ADC.java:210-223 | A gains the edges from u to its ledger entries already in A; exactly those entries leave the ledger; an emptied set stays |
| AdcSpec.TakenSound | src/br/ufmg/dcc/paa/tp2/ADC.java:219 | taking entries out of the ledger keeps it holding only input arcs |
| AdcSpec.DeferredSound | src/br/ufmg/dcc/paa/tp2/ADC.java:179-180 | recording u's input edges both ways keeps the ledger holding only input arcs |
| Adc.MoveIn | src/br/ufmg/dcc/paa/tp2/ADC.java:166-184 | u joins A with edges to exactly its ledger entries in A; u's edges in B are kept for a rollback and recorded; u leaves B |
| AdcSpec.JoinedShape | src/br/ufmg/dcc/paa/tp2/ADC.java:166-168 | after u joins with neighbours L, u's set is L, every member of L gains u, and nothing else changes |
| AdcSpec.JoinedSound | src/br/ufmg/dcc/paa/tp2/ADC.java:166-168 | A stays symmetric and holds only input edges when u brings input neighbours already in A |
| AdcSpec.ExactWithoutVertex | src/br/ufmg/dcc/paa/tp2/ADC.java:183 | removing u keeps B exact |
| AdcSpec.RollbackA | src/br/ufmg/dcc/paa/tp2/ADC.java:189 | `removeVertex(u)` may run on A after the move and gives back A exactly as before |
| AdcSpec.RollbackB | src/br/ufmg/dcc/paa/tp2/ADC.java:190-192 | re-adding u to B with its saved edges gives back B exactly as before |
| Adc.Rollback | src/br/ufmg/dcc/paa/tp2/ADC.java:189-192 | the rollback restores both A and B exactly |
| AdcSpec.AcceptedRegions | src/br/ufmg/dcc/paa/tp2/ADC.java:166-187 | an accepted move keeps the region invariant: partition of the same vertices, A sound and symmetric, B exact, ledger of input arcs |
| AdcSpec.RejectedRegions | src/br/ufmg/dcc/paa/tp2/ADC.java:188-192 | a rejected move keeps the region invariant with the graphs restored and the ledger changed |
| AdcSpec.MovedLedgerSound | src/br/ufmg/dcc/paa/tp2/ADC.java:168-180 | however a move ends, the ledger holds only input arcs |
| Adc.TryMove | src/br/ufmg/dcc/paa/tp2/ADC.java:165-193 | the move is kept exactly when its score, over the cross graph from before the move, strictly beats the current score (NaN never does); kept: the graphs are moved and the score is the new one; rejected: the graphs and the score are unchanged; either way the ledger is `MovedLedger`, so a rejection does not restore it, and the invariant holds |
| AdcSpec.TrailAccept | src/br/ufmg/dcc/paa/tp2/ADC.java:186-187 | an accepted score extends the trail of accepted scores, which stays strictly increasing and ends in the current score |
| AdcSpec.StepKeepsRegions | src/br/ufmg/dcc/paa/tp2/ADC.java:165-193 | one iteration on a vertex of B keeps the region invariant and the score trail, only grows A, and removes from B at most the vertex tried |
| AdcSpec.RunTakesOnlyTried | src/br/ufmg/dcc/paa/tp2/ADC.java:164-195 | a vertex of B that the run does not try is still in B at the end |
| AdcSpec.RunKeepsRegions | src/br/ufmg/dcc/paa/tp2/ADC.java:164-195 | a run over distinct vertices of B, in any order, keeps A and B a partition with A sound and symmetric, B exact and the ledger sound; only grows A; and extends a strictly increasing trail of accepted scores that ends in the current score |
| AdcSpec.RunSnoc | src/br/ufmg/dcc/paa/tp2/ADC.java:164-195 | trying one more vertex is one more `Step` after the run so far |
| Adc.ProcessVertex | src/br/ufmg/dcc/paa/tp2/ADC.java:165-194 | one loop iteration: the new A, B, ledger, score and trail are exactly `Step` of the old ones, and the invariant and the score trail hold |
| Adc.ProcessRegions | src/br/ufmg/dcc/paa/tp2/ADC.java:153-197 | returns the order it tried B's vertices in, each vertex of the old B exactly once; the final A, B, score and accepted trail are exactly those of `Run` over that order from the old A and B, an empty ledger and the initial score; hence A and B still partition the input's vertices with A sound, B exact and both symmetric, A only grows, the accepted scores strictly increase from the initial one and the result is the last; when the initial score is NaN nothing is accepted and both graphs are unchanged |
| Adc.SeparateRegions | src/br/ufmg/dcc/paa/tp2/ADC.java:34-41 | the regions `execute` produces: disjoint, covering 0 .. n - 1, every seed below n in A, A sound and symmetric, B exact and symmetric |
| AdcSpec.Hits | src/br/ufmg/dcc/paa/tp2/ADC.java:106-109 | the number of list positions whose id is a vertex of the region, at most the list's length |
| AdcSpec.HitsDisjoint | src/br/ufmg/dcc/paa/tp2/ADC.java:104-133 | the hits in A and the hits in B add up to at most the list's length |
| AdcSpec.HitsDistinct | src/br/ufmg/dcc/paa/tp2/ADC.java:106-109 | with distinct ids, the hits are the number of listed ids in the region |
| AdcSpec.IdsCard | src/br/ufmg/dcc/paa/tp2/ADC.java:104-111 | distinct non-negative ids: as many ids as entries |
| AdcSpec.HonestCountBounds | src/br/ufmg/dcc/paa/tp2/ADC.java:127-131 | with distinct sybil ids below n and A within 0 .. n - 1, the honest count lies between 0 and n - |sybil| |
| AdcSpec.Ratio | src/br/ufmg/dcc/paa/tp2/ADC.java:110 | None exactly for a zero denominator; otherwise the value times the denominator is the numerator |
| AdcSpec.RatioBounds | src/br/ufmg/dcc/paa/tp2/ADC.java:110 | a count between 0 and its positive denominator gives a ratio in [0, 1] |
| Adc.SybilCorrectness | src/br/ufmg/dcc/paa/tp2/ADC.java:104-111 | the ratio of the sybil list positions found in B to the list's length |
| Adc.HonestCorrectness | src/br/ufmg/dcc/paa/tp2/ADC.java:125-133 | the ratio of A's vertex count minus its sybil hits to the original vertex count minus the list's length |

## Left out

- `getSeeds`: the unseeded random draw of 20 seed ids is replaced by a seed-set parameter.
- Floating point: the `float` and `double` results are modelled as `real`. Rounding, and the distinction between NaN and infinity (both `None`), are not modelled.
- `conductance`, `modularity` and `calculateMetrics`: float metrics of the final partition. Only the counts of the two correctness ratios are modelled.
- `execute`, `endProcessing`, `saveToFile`, `print`: timing, console output and files. `Adc.SeparateRegions` models the computing part of `execute`.
- `Metrics.java`, `Main.java` and `GraphReader.java` are not part of this model: they are setters, the command line and text-file parsing.
- `Graph.getEdges()` and `getEdges(Integer)`: not used by the region growing. The first has the same index-for-id pattern as the list constructor.
- Java `Integer` reference equality in `Edge.equals` and in the `v == u` and `t != u` tests: the model compares ids by value.
- Java 32-bit `int` overflow in `factorial` and `simplifyFactorialDivision`: integers are unbounded.
- `adjList == null` guards: the field is never null in the model.
- FactorialMath.Factorial: does not model the overflow of `fact` for n >= 13, because integers are unbounded.
- Graphs.Graph.ClustCoefficient: states the range of the mean and the empty case, not the mean's exact value, because a sum over a map's values has no closed form here. Each term is exact in `Graphs.Graph.LocalCoefficients`, and the sum's loop is `Graphs.SumValues`.
- Graphs.SumValues: states only the range of the sum, not its value, because a sum over a map's values has no closed form here.
- Graphs.Graph.CountClosersAt: requires v to be a vertex. `clustCoeficient` calls `adjList.get(v).iterator()` and throws a NullPointerException when a neighbour v is not a key (Graph.java:407); that input is outside the model.
- Graphs.Graph.ClosedPairCount: requires `Closed(adj)`, every neighbour a vertex. Without it `clustCoeficient` throws a NullPointerException at Graph.java:407; that input is outside the model.
- Graphs.Graph.LocalClustering: requires `Closed(adj)`, which rules out the same NullPointerException at Graph.java:407.
- Graphs.Graph.LocalCoefficients: requires `Closed(adj)`, which rules out the same NullPointerException at Graph.java:407.
- Graphs.Graph.ClustCoefficient: requires `Closed(adj)`, which rules out the same NullPointerException at Graph.java:407.
- Graphs.Graph.DfsVisit: requires `Numbered(adj, nodes.Length)`, vertices exactly 0 .. n - 1 and every neighbour one of them. This rules out the index exception at `nodes[v]` and the null dereference at `adjList.get(u)` (Graph.java:494-497), and also inputs with unreachable stray vertices that the Java would complete.
- Graphs.Graph.Dfs: requires `Numbered(adj, |adj|)`, which rules out the same exceptions in `DFS_Visit` (Graph.java:494-497); `dfs()` starts a visit from every index below n, so every vertex is touched.
- Graphs.Graph.DfsFrom: requires the whole graph to be numbered 0 .. n - 1 with every neighbour a vertex, although `dfs(s)` only touches vertices reachable from s. Inputs such as {0: {1}, 1: {0}, 5: {}} with s = 0, which the Java completes, are outside the model.
- Graphs.Graph.Bfs: requires the whole graph to be numbered 0 .. n - 1 with every neighbour a vertex, although `bfs(s)` only indexes vertices reachable from s. Inputs such as {0: {1}, 1: {0}, 5: {}} with s = 0, which the Java completes, are outside the model.
- Graphs.Graph.RemoveVertex: requires `CanRemoveVertex(adj, u)`: every neighbour of u is a vertex, or `adjList.get(v).remove(u)` throws a NullPointerException (Graph.java:259), and u has no self-loop, or the loop removes from the set it is iterating. Those inputs are outside the model.
- Adc.DeferEdges: requires that no edge's other end is in A, rather than modelling the branch that would insert the edge into A. `AdcSpec.MoveFacts` proves the requirement at the only call site, so that branch is dead.
- Adc.ProcessRegions: assumes a well-formed input list (symmetric, loop-free, ids below n). On other inputs the source can fail: for instance `removeVertex` on a vertex with a self-loop changes the set it is iterating.
- The ledger (`remainingEdges`) is a map value passed in and out of the methods, not a shared mutable object. Only `processRegions` uses it.
- Concrete runs are not modelled.

## Findings

| source | as written | input that shows it | evidently intended | confidence | as-written member | corrected member |
|---|---|---|---|---|---|---|
| src/br/ufmg/dcc/paa/tp2/Graph.java:80-82 | the list constructor adds the loop index `v` to u's set instead of the id `input.get(u).get(v)` | the list [[1], [0]] of the edge 0 - 1 gives {0: {0}, 1: {0}}: a self-loop at 0 and an arc 1 -> 0 with no reverse | u's set holds the listed ids, {0: {1}, 1: {0}}, which is symmetric for every well-formed list (GraphSpec.NeighbourAdjacencyWellFormed) | high; not executed | GraphSpec.IndexAdjacencyCounterexample | Graphs.Graph.FromNeighbourLists |
