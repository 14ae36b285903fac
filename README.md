# Shortest-path kernel of `algo/graph.py`, modelled in Dafny

The repository's `algo/graph.py` has two graph representations and one shortest-path
algorithm for each:

- **`Graph`** is sparse. It keeps one edge list per vertex, and `add_edge(s, t, w=1)` adds an
  `Edge(target, weight)` record to the list of `s`.
- **`DenseGraph`** is a `size×size` weight matrix that starts all zero. `add_edge` overwrites
  one cell, and a 0 off the diagonal means "no edge".
- **`FloydAllPairsSP`** runs Floyd–Warshall once, at construction time:
  - it copies the matrix and turns every off-diagonal 0 into +infinity, leaving the diagonal
    as written;
  - it runs the k-outermost triple loop of in-place `min` relaxations;
  - `dist(s, t)` then looks the answer up.
- **`DijkstraSP`** runs Dijkstra from a source `s` once, at construction time:
  - `d` starts at +infinity everywhere except `d[s] = 0`;
  - an indexable priority queue is popped until it is empty;
  - each edge is relaxed strictly (`d[u] + w >= d[t]` skips);
  - an improved vertex is re-prioritised if it is queued and inserted otherwise;
  - `dist(t)` then looks the answer up.

The model follows the code's own form, file by file:

| file | module | contents |
|---|---|---|
| `distances.dfy` | `Distances` | Python's `float('inf')` arithmetic as `Dist = Fin(n) \| Inf`, with `Add` (infinity absorbs) and `Min` (Python's `min`) |
| `dense.dfy` | `DenseGraphs` | `DenseGraph` as a class whose matrix field `AddEdge` reassigns; walks, walk weights and shortest walks under the zero-means-no-edge rule |
| `sparse.dfy` | `SparseGraphs` | `Graph` as a class whose edge lists `AddEdge` appends to; paths, path weights and shortest distances |
| `floyd.dfy` | `FloydWarshall` | `_floyd` as a method over an `array2` updated in place; the recurrence `FW(m, k, i, j)` it computes level by level; the proof that the recurrence gives shortest walks when no cycle is negative |
| `pq.dfy` | `PriorityQueues` | the queue as a class over a vertex-to-priority map, specified by insert, pop-min, edit (decrease-key), membership and size |
| `dijkstra.dfy` | `DijkstraSingleSource` | `_dijkstra` as a method over an array and the queue; its loop invariant and the transition lemmas that keep it |
| `scenarios.dfy` | `Scenarios` | the path graph, the diamond, the disconnected pair, the zero-weight dense edge and a self-loop, built through the public operations, with their distances |
| `crosscheck.dfy` | `CrossValidation` | a matrix without negative cells, read as edge lists, gives the same answers under Floyd–Warshall and under Dijkstra, except for `dist(s, s)` when cell `[s][s]` is not 0 |

Distances are integers. A walk of the matrix has at least one step, and it may use a diagonal
cell as a step. The initialisation pass skips the diagonal, so a self-loop weight written there
stays in the table. With no negative cell, `dist(s, s)` is 0 exactly when cell `[s][s]` holds 0
(`FloydWarshall.DistSelfExactly`).

On a graph without negative weights the two algorithms agree on every pair but one kind.
When cell `[s][s]` holds a non-zero self-loop weight, the table's `dist(s, s)` is finite and positive.
Dijkstra's `dist(s)` from source `s` is 0 (`CrossValidation.SelfLoopDisagrees`).
`CrossValidation.AlgorithmsAgree` proves agreement on every other pair.

The tables are built once and are never written again: `dists` is a `const` of both classes.
`Dist` is a function, so repeated calls return the same value.

## Model

| member | source | states |
|---|---|---|
| Distances.Min | algo/graph.py:73 | `min(a, b)` is no greater than either argument and is one of them |
| Distances.Add | algo/graph.py:96 | `a + b` with `float('inf')`: infinite exactly when an operand is, otherwise the integer sum; adding a non-negative weight never lowers a distance |
| SparseGraphs.Graph.constructor | algo/graph.py:8-10 | one empty edge list per vertex; a negative size gives no lists, as `range` does |
| SparseGraphs.Graph.AddEdge | algo/graph.py:12-14 | exactly one `Edge(t, w)` (w defaults to 1) is appended to the list of `s`; earlier entries stay, so parallel edges are kept and the multiset grows by that edge; every other list is unchanged |
| DenseGraphs.DenseGraph.constructor | algo/graph.py:30-32 | the matrix is the `size×size` all-zero matrix |
| DenseGraphs.DenseGraph.AddEdge | algo/graph.py:34-35 | cell `[s][t]` becomes `w` (last write wins) and every other cell keeps its value |
| DenseGraphs.NonNegativeHasNoNegativeCycle | algo/graph.py:70-75 | a matrix without negative cells has no closed walk of negative weight, which is what the Floyd–Warshall results need |
| DenseGraphs.ShortestWalkUnique | algo/graph.py:77-78 | a pair of vertices has only one shortest-walk value, so `dist(s, t)` is determined by the matrix |
| FloydWarshall.FloydAllPairsSP.BlankMissingEdges | algo/graph.py:63-68 | after the pass, every off-diagonal 0 is +infinity and every other cell, the diagonal included, keeps its matrix value |
| FloydWarshall.FloydAllPairsSP.RelaxThrough | algo/graph.py:70-73 | round k of the relaxation never raises a cell; with no negative cycle it turns the level-k table into the level-(k+1) table, even though it updates in place |
| FloydWarshall.FloydAllPairsSP.RelaxRow | algo/graph.py:72-73 | row i of round k: only row i changes, no cell of it rises, and with no negative cycle it moves from level k to level k+1 while reading the pivot row in place |
| FloydWarshall.FWPivotStable | algo/graph.py:71-73 | with no negative cycle, round k leaves the pivot row k and column k unchanged, so reading them mid-round is harmless |
| FloydWarshall.FWSound | algo/graph.py:70-75 | every finite level-k cell (i, j) is the weight of a walk from i to j whose intermediate vertices are all below k |
| FloydWarshall.FWOptimal | algo/graph.py:70-75 | with no negative cycle, the level-k cell (i, j) is no heavier than any walk from i to j whose intermediate vertices are all below k |
| FloydWarshall.FloydExact | algo/graph.py:70-75 | with no negative cycle, the final cell (i, j) is the least walk weight from i to j, and +infinity exactly when no walk exists |
| FloydWarshall.FloydSelfDistance | algo/graph.py:63-75 | with no negative cycle, a vertex whose diagonal cell holds 0 ends at distance 0 from itself |
| FloydWarshall.FloydAllPairsSP.Floyd | algo/graph.py:60-75 | returns an n×n table whose cells never exceed their initialised values; with no negative cycle each cell is the shortest-walk value (and its level-n recurrence value); it has no `modifies` clause, so it works on a copy and the graph's matrix is never written |
| FloydWarshall.FloydAllPairsSP.constructor | algo/graph.py:55-57 | stores the graph and the table computed from its matrix at construction time |
| FloydWarshall.FloydAllPairsSP.Dist | algo/graph.py:77-78 | the cached cell: never above the initialised cell, and the shortest-walk value from s to t when no cycle is negative |
| FloydWarshall.DistSelf | algo/graph.py:77-78 | with no negative cycle, `dist(s, s)` is 0 when the diagonal cell of s holds 0 |
| FloydWarshall.DistSelfExactly | algo/graph.py:63-78 | with no negative cell, `dist(s, s)` is 0 if and only if the diagonal cell of s holds 0; a non-zero diagonal cell makes it finite and positive |
| FloydWarshall.Init | algo/graph.py:63-68 | a cell after the initialisation pass is +infinity exactly when it is an off-diagonal 0, and otherwise the matrix value |
| DenseGraphs.LoopedStartPositive | algo/graph.py:65-66 | with no negative cell, every walk out of a vertex whose diagonal cell is not 0 weighs more than 0 |
| SparseGraphs.RelaxedLowerBound | algo/graph.py:95-98 | once no edge can be relaxed and d[s] <= 0, no path from s is lighter than the entry of its end |
| SparseGraphs.ShortestPathCertificate | algo/graph.py:93-103 | a vector with d[s] = 0, no relaxable edge and every finite entry witnessed by a path holds the shortest distances, +infinity exactly for unreachable vertices |
| SparseGraphs.PathWeightNonNegative | algo/graph.py:95-98 | when every edge weighs at least 0, so does every path |
| SparseGraphs.ShortestDistUnique | algo/graph.py:105-106 | a target has only one shortest distance, so `dist(t)` is determined by the graph and the source |
| PriorityQueues.MinPriorityExists | algo/graph.py:94 | a non-empty queue has a key of least priority, so pop-min is always defined |
| PriorityQueues.PQ.constructor | algo/graph.py:91 | a new queue is empty |
| PriorityQueues.PQ.Len | algo/graph.py:93 | `len(pq)` is 0 exactly when no key is queued |
| PriorityQueues.PQ.Contains | algo/graph.py:99 | `t in pq` is true exactly when `t` is queued, and then the queue is not empty |
| PriorityQueues.PQ.Insert | algo/graph.py:102 | queues a key that was not queued with the given priority; every other entry is unchanged |
| PriorityQueues.PQ.Edit | algo/graph.py:100 | gives a queued key a strictly lower priority; every other entry is unchanged |
| PriorityQueues.PQ.Pop | algo/graph.py:94 | removes and returns a key whose priority is minimal among the queued keys, with that priority |
| DijkstraSingleSource.InvInit | algo/graph.py:89-92 | `d = [inf] * n; d[s] = 0; pq.insert(s, 0)` establishes the loop invariant |
| DijkstraSingleSource.InvPop | algo/graph.py:94 | popping a key of least priority yields a vertex that was never popped, whose entry equals its priority, and starts the scan of its edges with the invariant intact |
| DijkstraSingleSource.ScanEdgeValid | algo/graph.py:95 | each edge of the popped vertex points into the graph, weighs at least 0 and extends the recorded path to that vertex |
| DijkstraSingleSource.ScanSkip | algo/graph.py:96-97 | an edge with `d[u] + w >= d[t]` (ties included) is already relaxed and is skipped |
| DijkstraSingleSource.RelaxTargetUnpopped | algo/graph.py:96-98 | a vertex that an edge improves has never been popped and is not the source, so a popped vertex is never queued again |
| DijkstraSingleSource.LowerKeepsQueue | algo/graph.py:98-102 | setting `d[t]` and queueing `t` with that priority keeps every queued priority equal to its entry and every popped entry below every queued one |
| DijkstraSingleSource.LowerKeepsWitnessed | algo/graph.py:98 | the new entry of `t` is the weight of the path to `u` extended by the edge, so every finite entry stays the weight of a path from s |
| DijkstraSingleSource.LowerKeepsScan | algo/graph.py:98 | lowering the target keeps every popped vertex's edges relaxed and relaxes the current edge |
| DijkstraSingleSource.LowerKeepsCommon | algo/graph.py:98-102 | lowering the target and queueing it keeps the phase-independent part of the invariant |
| DijkstraSingleSource.ScanRelax | algo/graph.py:96-102 | a strict improvement followed by edit-or-insert keeps the invariant and relaxes one more edge of the popped vertex |
| DijkstraSingleSource.ScanDone | algo/graph.py:95-102 | once every edge of the popped vertex is scanned, the main-loop invariant holds again |
| DijkstraSingleSource.InvExit | algo/graph.py:93-103 | when the queue is empty every entry is the shortest distance from s, and +infinity exactly for vertices with no path from s |
| DijkstraSingleSource.ScanAllDistances | algo/graph.py:95-98 | scanning the edges of `u` lowers each entry to the least of its old value and `d[u] + w` over the edges `(v, w)` pointing at it: no entry rises, no scanned edge is left improvable, and a changed entry is `d[u] + w` for one of its edges |
| DijkstraSingleSource.ScanAllQueue | algo/graph.py:95-102 | scanning the edges of `u` queues exactly the vertices whose entry changed, each with its new distance as priority, and keeps every other queue entry |
| DijkstraSingleSource.DijkstraSP.RelaxEdge | algo/graph.py:96-102 | one edge `(t, w)`: if `d[t] <= d[u] + w`, d and the queue are unchanged; otherwise `d[t]` becomes `d[u] + w` and `t` is queued with exactly that priority; `d[u]` is untouched, no entry rises and the scan invariant advances by one edge |
| DijkstraSingleSource.DijkstraSP.ScanEdges | algo/graph.py:95-102 | the new distances and queue are those of the edges of `u` applied in list order (`ScanAll`, characterised by `ScanAllDistances` and `ScanAllQueue`); the main-loop invariant is restored |
| DijkstraSingleSource.DijkstraSP.Dijkstra | algo/graph.py:88-103 | terminates with `d[s] = 0` and every `d[t]` the shortest distance from s to t, +infinity exactly when t is unreachable, provided every edge reachable from s points into the graph and weighs at least 0 |
| DijkstraSingleSource.DijkstraSP.constructor | algo/graph.py:82-85 | stores the graph, the source and the distance vector computed at construction time |
| DijkstraSingleSource.DijkstraSP.Dist | algo/graph.py:105-106 | the cached entry is the shortest distance from the source to t |
| Scenarios.BuildPathGraph | algo/graph.py:8-14 | `Graph(4)` and three `add_edge` calls give the edge lists of the path 0→1→2→3 |
| Scenarios.BuildDiamond | algo/graph.py:8-14 | `Graph(4)` and five `add_edge` calls give the edge lists of the diamond |
| Scenarios.BuildDenseDiamond | algo/graph.py:30-35 | `DenseGraph(4)` and five `add_edge` calls give the diamond's weight matrix |
| Scenarios.PathGraphDistances | algo/graph.py:88-103 | from 0 in the path graph with weights 2, 3, 1, the distances are 0, 2, 5, 6 |
| Scenarios.DiamondDistances | algo/graph.py:88-103 | from 0 in the diamond, the distances are 0, 1, 2, 3 |
| Scenarios.DiamondWalks | algo/graph.py:70-75 | in the diamond matrix the least weight of a walk from 0 to 3 is 3 |
| Scenarios.DisconnectedPair | algo/graph.py:88-103 | with two vertices and no edges, 1 is unreachable from 0 |
| Scenarios.ZeroMatrixNoWalk | algo/graph.py:63-75 | in the all-zero 2×2 matrix there is no walk from 0 to 1 |
| Scenarios.SelfLoopWalk | algo/graph.py:63-75 | with a self-loop of weight 5 on the only vertex, the shortest closed walk weighs 5 |
| Scenarios.PathGraphScenario | algo/graph.py:82-106 | `DijkstraSP(G, 0)` on the path graph answers `dist(1) = 2`, `dist(2) = 5`, `dist(3) = 6` |
| Scenarios.DiamondDijkstraScenario | algo/graph.py:82-106 | `DijkstraSP(G, 0).dist(3)` on the diamond is 3 |
| Scenarios.DiamondFloydScenario | algo/graph.py:55-78 | `FloydAllPairsSP(G).dist(0, 3)` on the dense diamond is 3 |
| Scenarios.DisconnectedScenario | algo/graph.py:55-106 | with two vertices and no edges, both algorithms report `dist(0, 1)` as +infinity |
| Scenarios.ZeroWeightEdgeScenario | algo/graph.py:34-35 | after `add_edge(0, 1, 0)` the dense matrix has no edge 0→1, and `dist(0, 1)` is +infinity |
| Scenarios.SelfLoopScenario | algo/graph.py:63-68 | a self-loop weight written on the diagonal is kept: `dist(0, 0)` is 5 |
| CrossValidation.AsSparseEdge | algo/graph.py:29-35 | an edge of vertex i in the sparse form is exactly a non-zero cell of row i, with that cell as its weight |
| CrossValidation.AsSparseValid | algo/graph.py:88-103 | the sparse form of a matrix without negative cells meets Dijkstra's requirement on edges from every source |
| CrossValidation.PathAsWalk | algo/graph.py:55-106 | every non-empty path of the sparse form is a walk of the matrix between the same ends, with the same weight; a self-loop edge becomes a diagonal step |
| CrossValidation.WalkAsPath | algo/graph.py:55-106 | every walk of the matrix is a path of the sparse form between the same ends, with the same weight; a diagonal step of weight 0 is dropped |
| CrossValidation.ZeroLoop | algo/graph.py:63-68 | a diagonal cell holding 0 is a one-step walk from a vertex to itself of weight 0, matching the sparse form's empty path |
| CrossValidation.SameShortest | algo/graph.py:55-106 | for every pair except (s, s) with a non-zero cell `[s][s]`, a value is a shortest distance of the sparse form if and only if it is a shortest-walk value of the matrix |
| CrossValidation.AlgorithmsAgree | algo/graph.py:52-106 | for a matrix without negative cells, `FloydAllPairsSP(G).dist(s, t)` equals `DijkstraSP(G_as_sparse, s).dist(t)` for every t, except t = s when cell `[s][s]` is not 0 |
| CrossValidation.SelfLoopDisagrees | algo/graph.py:63-68 | the excluded pair really differs: when cell `[s][s]` is not 0, the sparse form's distance from s to s is 0 while no walk of the matrix from s back to s weighs 0 |

## Left out

- `Graph._repr_svg_` and `DenseGraph._repr_svg_` (algo/graph.py:16-26 and 37-49) are left out. They render through Graphviz for display only.
- `algo/heap.py` is not part of this model. The queue is specified by its contract over a key-to-priority map, with no heap slots.
- Tie order is left out. `PriorityQueues.PQ.Pop` returns some key of least priority, and Dijkstra is proved for every such choice.
- PriorityQueues.PQ.Edit: requires the new priority to be strictly lower, as decrease-key does. Dijkstra only calls it after a strict improvement.
- `algo/linked.py` is not part of this model. An edge list is a `seq<Edge>`, and `insert` is modelled as an append. Paths use list membership only, so the distances do not depend on that order.
- Floating point is left out. Weights are integers, `float('inf')` is `Inf`, and there is no rounding.
- Negative weights are left out for Dijkstra. `DijkstraSP` requires every edge on a path from `s` to point into the graph and to weigh at least 0; the code does not check this.
- FloydWarshall.FloydAllPairsSP.Floyd: with a negative cycle it only promises that no cell exceeds its initialised value, because the code gives no meaningful result there.
- FloydWarshall.FloydAllPairsSP.Dist: with a negative cycle it only promises that the cell does not exceed the initialised cell, for the same reason.
- Negative vertex indices are left out. The code wraps an index in `-size..-1` to `size + s`, so `add_edge(-1, 0)` writes to the last vertex (algo/graph.py:14, 35, 78, 90, 106). Any other out-of-range index raises `IndexError`. The model requires `0 <= s < size` on `add_edge`, `dist` and the Dijkstra source, and so models neither.
- A negative graph size is not rejected. The code builds `range(size)` lists, which are empty for a negative size, and the model does the same.
- `Graph.add_edge` does not check its target or weight, and neither does `SparseGraphs.Graph.AddEdge`. Only Dijkstra's precondition constrains the edges.
- The path records Dijkstra keeps are ghost. The code reconstructs no paths and neither does the model.
- Running time is left out: O(v³) for Floyd–Warshall and O(log n) queue operations are not modelled.
- The nested loops of `_floyd` and `_dijkstra` are each split into small methods: `BlankMissingEdges`, `RelaxThrough`, `RelaxRow`, `ScanEdges` and `RelaxEdge`. The statements and their order are the code's own.
- The conversion of a matrix into edge lists, `CrossValidation.AsSparse`, is not a function of the code. It gives each non-zero cell one edge, in column order, and serves only to state the cross-validation.
