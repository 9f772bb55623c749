# Dijkstra's algorithm visualization — a verified model of its shortest-path core

The program is a WinForms form. It reads a node count, builds a complete
undirected graph with random edge weights 1..9, then runs Dijkstra's single-source
shortest-path algorithm from node 0. It runs the list version: in each of N rounds,
a scan over all nodes for the nearest unvisited one, then a pass relaxing that
node's edges. Each of the two inner scans checks membership with `visited.Contains`,
itself a linear scan, so the code as written does O(N³) work. Finally it
walks each node's `previous` chain back to node 0 and draws the edges it passes.

This project models that core as imperative Dafny. It proves that the algorithm
computes shortest paths.

- `graph.dfy` (module `Graph`) covers the adjacency matrix.
  - C# `int` arithmetic with `Inf = int.MaxValue` as the "no edge" sentinel.
  - The empty N×N matrix of `Inf` built by `GenerateGraphButton_Click`.
  - `GenerateRandomGraph`. The random source is replaced by a sequence of drawn
    weights, one per pair i < j, in the order the nested loops draw them.
  - Paths and their weights.
- `dijkstra.dfy` (module `Dijkstra`) covers `DijkstraButton_Click`.
  - Three methods: the initialisation, the selection scan and the relaxation loop.
  - One outer iteration and the outer loop itself, proved against the loop
    invariant `LoopInvariant`.
  - Each round settles the node the scan picks and relaxes its edges.
    Nodes settle in order of distance, lower index first on ties. Each predecessor
    is the first settled node that offers the node's final distance.
    Together these fix the run's whole output, not only its distances:
    `RunIsDetermined` shows this.
  - The lemmas that turn the final loop state into a shortest-path result:
    - the triangle inequality;
    - the lower bound over all paths;
    - predecessor paths of exact weight;
    - finite distance exactly for reachable nodes.
- `paths.dfy` (module `ShortestPaths`) covers `ShowShortestPaths` without the
  drawing.
  - The predecessor walk of every node, with the weight of each edge it passes.
  - Proofs that the walk reaches node 0 in at most N−1 steps, and that its weights
    sum to the node's distance.
  - A proof that the walk, reversed, is a lightest path of the graph.
- `form.dfy` (module `Visualization`) holds the form's fields `numNodes`,
  `adjacencyMatrix`, `distances` and `previous` as a class.
  - Its two button handlers are methods that reassign those fields.
- `wrappers.dfy` holds `Option`.

The form's `List` fields are modelled as `seq` values that the methods rebuild.
`visited` keeps its list form, a `seq<int>` in settlement order, so
membership is `in`.

## Model

| member | source | states |
|---|---|---|
| Graph.NewMatrix | DijkstraAlgorithmVisualization/Form1.cs:46-54 | the new matrix has n rows of n entries, and every entry is `Inf` |
| Graph.GenerateRandomGraph | DijkstraAlgorithmVisualization/Form1.cs:145-160 | the result is n×n, both `m[i][j]` and `m[j][i]` hold the weight drawn for pair i < j (the k-th draw in loop order), and the diagonal is left as it was |
| Graph.PairIndex | DijkstraAlgorithmVisualization/Form1.cs:149-153 | the draw number of pair (i, j) lies inside row i's block of draws and below the total number of pairs |
| Graph.PairIndexInjective | DijkstraAlgorithmVisualization/Form1.cs:149-153 | two different pairs never get the same draw |
| Graph.PairIndexSurjective | DijkstraAlgorithmVisualization/Form1.cs:149-153 | every draw in the weight sequence is used for some pair i < j |
| Graph.PairCountIsRowStart | DijkstraAlgorithmVisualization/Form1.cs:149-151 | the nested loops draw exactly n(n−1)/2 weights |
| Graph.RowStartClosedForm | DijkstraAlgorithmVisualization/Form1.cs:149-151 | the number of draws made before row i is i(2n−i−1)/2 |
| Graph.RowStartMonotone | DijkstraAlgorithmVisualization/Form1.cs:149-151 | later rows start at later draws |
| Graph.SetPair | DijkstraAlgorithmVisualization/Form1.cs:156-157 | storing a weight in both directions changes exactly the entries (i, j) and (j, i) |
| Graph.DrawStep | DijkstraAlgorithmVisualization/Form1.cs:153-157 | drawing the next pair's weight extends the drawn prefix by one pair and leaves every later pair untouched |
| Graph.GeneratedFromIsGenerated | DijkstraAlgorithmVisualization/Form1.cs:46-60 | with draws in [1, 9], the built matrix is symmetric, its diagonal is `Inf`, and every off-diagonal weight is in [1, 9] |
| Graph.GeneratedGraphIsComplete | DijkstraAlgorithmVisualization/Form1.cs:149-157 | a generated graph is complete, symmetric and within the weight range |
| Graph.PathWeightAppend | DijkstraAlgorithmVisualization/Form1.cs:200 | extending a path by one edge adds that edge's weight to the path's weight |
| Graph.EdgeSumPrefix | DijkstraAlgorithmVisualization/Form1.cs:200 | the weight of a path's first k edges does not depend on what follows them |
| Dijkstra.InitialDistances | DijkstraAlgorithmVisualization/Form1.cs:165-172 | n distances and n predecessors: node 0 at distance 0, every other node at `Inf`, and every predecessor −1 |
| Dijkstra.InitialState | DijkstraAlgorithmVisualization/Form1.cs:165-175 | the initial state, with nothing visited, satisfies the loop invariant and the first-predecessor rule |
| Dijkstra.SelectMinDistanceNode | DijkstraAlgorithmVisualization/Form1.cs:181-190 | −1 exactly when no unvisited node has a finite distance; otherwise the `Nearest` node: unvisited, finite, minimal among unvisited nodes and strictly below every unvisited node before it (the lowest index on ties) |
| Dijkstra.Relax | DijkstraAlgorithmVisualization/Form1.cs:196-207 | `RelaxedFrom`: each unvisited neighbour whose distance strictly improves through the node gets the new distance and the node as predecessor, and every other entry is unchanged; no distance grows; visited nodes are untouched; every sum fits a C# int |
| Dijkstra.SettleNearest | DijkstraAlgorithmVisualization/Form1.cs:181-207 | one outer iteration appends to `visited` exactly the node the scan picks (`Nearest`: nearest unvisited, lowest index on ties); the new distances and predecessors are the relaxation from that node (`RelaxedFrom`); settled nodes keep their distances and predecessors; the loop invariant and the first-predecessor rule are kept; when no node is found, nothing changes and every unvisited node is at `Inf` |
| Dijkstra.SettleStep | DijkstraAlgorithmVisualization/Form1.cs:193-207 | settling the node the scan picks and relaxing its edges keeps the loop invariant |
| Dijkstra.StepKeepsFirst | DijkstraAlgorithmVisualization/Form1.cs:196-204 | after the pass, every predecessor is still the first settled node offering the node's distance, because relaxation needs a strict improvement |
| Dijkstra.StepKeepsTree | DijkstraAlgorithmVisualization/Form1.cs:198-204 | relaxation keeps `previous` a predecessor tree, keeps node 0 at distance 0, and only ever points at settled nodes |
| Dijkstra.StepKeepsBounds | DijkstraAlgorithmVisualization/Form1.cs:193-204 | after settling, `visited` is still distinct nodes, each settled node is finite and at most 9 per round from node 0 |
| Dijkstra.StepKeepsRelaxed | DijkstraAlgorithmVisualization/Form1.cs:196-207 | after the pass, every edge out of a settled node satisfies the triangle inequality |
| Dijkstra.StepKeepsOrder | DijkstraAlgorithmVisualization/Form1.cs:181-193 | the newly settled node is no nearer than any settled node and settles before every unsettled one; the settlement order stays by distance, then by index |
| Dijkstra.SettledInOrderFrame | DijkstraAlgorithmVisualization/Form1.cs:198 | the settlement order survives relaxation, which never changes a visited node's distance |
| Dijkstra.SettledInOrderPairs | DijkstraAlgorithmVisualization/Form1.cs:178-193 | for every pair of rounds, not only consecutive ones, the earlier node is nearer, or as near with a lower index |
| Dijkstra.ComputeShortestPaths | DijkstraAlgorithmVisualization/Form1.cs:162-213 | `DijkstraRun`: the result is a shortest-path result; node 0 is at 0 with no predecessor; the settled nodes are distinct and are exactly the finite ones; they were settled by distance, then by index; each predecessor is the first settled node offering the node's distance |
| Dijkstra.RunOutcome | DijkstraAlgorithmVisualization/Form1.cs:178-213 | the loop's final state, together with the first-predecessor rule, meets `DijkstraRun` and is a shortest-path result from node 0 |
| Dijkstra.Outcome | DijkstraAlgorithmVisualization/Form1.cs:178-213 | the loop's final state, after N rounds or an early stop, is a shortest-path result whose settled nodes are exactly the finite ones |
| Dijkstra.Finish | DijkstraAlgorithmVisualization/Form1.cs:178-213 | once every unvisited node is at `Inf`, the state is a shortest-path result |
| Dijkstra.FinalSettled | DijkstraAlgorithmVisualization/Form1.cs:193 | at the end, a node is visited exactly when its distance is finite |
| Dijkstra.FinalTriangle | DijkstraAlgorithmVisualization/Form1.cs:196-207 | at termination, `distances[v] <= distances[u] + W[u][v]` for every edge |
| Dijkstra.FinalLowerBound | DijkstraAlgorithmVisualization/Form1.cs:178-207 | at termination, no path from node 0 is lighter than its end node's distance |
| Dijkstra.FinalReachable | DijkstraAlgorithmVisualization/Form1.cs:178-207 | at termination, a distance is finite exactly when a path from node 0 reaches the node |
| Dijkstra.PathStaysSettled | DijkstraAlgorithmVisualization/Form1.cs:193-207 | after the loop stops, every node on a path from node 0 was settled |
| Dijkstra.PathLowerBound | DijkstraAlgorithmVisualization/Form1.cs:196-207 | with node 0 at 0 and the triangle inequality, every path from node 0 weighs at least its end node's distance |
| Dijkstra.PredecessorPath | DijkstraAlgorithmVisualization/Form1.cs:203-204 | following `previous` from a reached node gives a path from node 0 whose weight is that node's distance |
| Dijkstra.CompleteGraphSettlesAll | DijkstraAlgorithmVisualization/Form1.cs:178-193 | on a complete graph every distance is finite and all N rounds settle a node, so the selection never returns −1 |
| Dijkstra.DistanceIsShortest | DijkstraAlgorithmVisualization/Form1.cs:162-213 | each finite distance is the weight of a lightest path from node 0 |
| Dijkstra.DistancesUnique | DijkstraAlgorithmVisualization/Form1.cs:162-213 | any two shortest-path results for the same graph have the same distances |
| Dijkstra.RunIsDetermined | DijkstraAlgorithmVisualization/Form1.cs:162-213 | two results meeting `DijkstraRun` for one graph have the same distances, the same visited list and the same predecessors, so `ComputeShortestPaths`'s contract fixes its whole output |
| Dijkstra.SameSettled | DijkstraAlgorithmVisualization/Form1.cs:181-193 | with equal distances, two visited lists in settlement order are equal |
| Dijkstra.SameOrderSameList | DijkstraAlgorithmVisualization/Form1.cs:181-193 | two lists of the same nodes, both ordered by distance then index, are equal |
| Dijkstra.SamePredecessors | DijkstraAlgorithmVisualization/Form1.cs:201-204 | with equal distances and visited list, the first-predecessor rule gives equal `previous` lists |
| Dijkstra.SamePredecessor | DijkstraAlgorithmVisualization/Form1.cs:201-204 | the same for one node |
| Dijkstra.PredecessorNoLater | DijkstraAlgorithmVisualization/Form1.cs:201-204 | a settled node that offers v's distance was settled no earlier than v's predecessor |
| Dijkstra.AllSettled | DijkstraAlgorithmVisualization/Form1.cs:178-193 | N distinct visited nodes out of N include every node |
| Dijkstra.CoversAll | DijkstraAlgorithmVisualization/Form1.cs:193 | a distinct list that contains every node has at least N entries |
| Dijkstra.DistinctCard | DijkstraAlgorithmVisualization/Form1.cs:193 | a list of distinct nodes has as many elements as entries |
| ShortestPaths.TracePath | DijkstraAlgorithmVisualization/Form1.cs:225-244 | the walk from a node returns nothing exactly when the node is unreached; otherwise each edge leaves `previous[to]` with the matrix weight, the walk ends at node 0 after fewer than N edges, and its weights sum to the node's distance |
| ShortestPaths.ShowShortestPaths | DijkstraAlgorithmVisualization/Form1.cs:219-246 | one walk for each node 1..N−1, each with the guarantees of `TracePath` |
| ShortestPaths.TotalWeightAppend | DijkstraAlgorithmVisualization/Form1.cs:236 | one more edge adds its weight to the walk's total |
| ShortestPaths.ChainAppend | DijkstraAlgorithmVisualization/Form1.cs:228-243 | one more step of the walk, from `currentNode` to `previous[currentNode]`, extends the chain |
| ShortestPaths.PathOf | DijkstraAlgorithmVisualization/Form1.cs:226-243 | the walked nodes in path order: one more node than edges, ending at the starting node |
| ShortestPaths.ChainIsPath | DijkstraAlgorithmVisualization/Form1.cs:226-243 | a walk to node 0, reversed, is a path of the graph from node 0 with the same total weight |
| ShortestPaths.TracedIsShortest | DijkstraAlgorithmVisualization/Form1.cs:219-246 | on a result of the algorithm, every walk shown is a lightest path from node 0 to its node |
| Visualization.DijkstraForm.constructor | DijkstraAlgorithmVisualization/Form1.cs:27-34 | the form starts with no nodes, an empty matrix and no results, and that empty graph is a valid generated graph |
| Visualization.DijkstraForm.GenerateGraph | DijkstraAlgorithmVisualization/Form1.cs:36-64 | the matrix becomes the generated graph for the draws, with node count n, and the previous results are kept |
| Visualization.RunOnGraph | DijkstraAlgorithmVisualization/Form1.cs:162-246 | on a generated graph, the run meets `DijkstraRun`, every node is reached, and every node 1..N−1 gets a walk to node 0 |
| Visualization.DijkstraForm.RunDijkstra | DijkstraAlgorithmVisualization/Form1.cs:162-246 | the graph is unchanged; the new `distances` and `previous` meet `DijkstraRun`, so by `RunIsDetermined` they are the ones the button computes; every node is reached, and every node 1..N−1 gets a walk to node 0 |

## Left out

- Drawing is left out: `DrawNodes`, `DrawEdges`, `GraphPictureBox_Paint`, and the lines and labels in `ShowShortestPaths`. They only render; `TracePath` returns the edges and weights they would draw.
- `CalculateNodePositions` and `nodePositions` are left out. They are floating-point screen layout.
- `int.TryParse` and the `MessageBox` are left out. `numNodes` is a `nat` parameter of `GenerateGraph`, which models a successful parse only. Two cases are not modelled:
  - A failed parse. `TryParse` then writes 0 into the field `numNodes` (Form1.cs:39) and the handler returns with the old matrix still there. The form is then out of step with `DijkstraForm.Valid()`.
  - A negative count. The code accepts it and builds an empty matrix.
- `Refresh` and `Thread.Sleep(500)` are left out. They only animate.
- Re-entry through `Application.DoEvents` (Form1.cs:211) is left out. It runs queued clicks in the middle of the loop. A click on either button there reassigns `numNodes`, `adjacencyMatrix`, `distances` or `previous`, fields that the running loop reads again at lines 178-204. `RunDijkstra` models one uninterrupted run.
- `System.Random` is replaced by the parameter `weights`. It holds the values `random.Next(1, 10)` returns, in drawing order, each in [1, 9].
- Dijkstra.InitialDistances: with N = 0 Form1 throws at `distances[0] = 0`; the model skips that assignment and returns empty lists.
- Dijkstra.SettleNearest: when the selection finds no node, Form1 appends −1 to `visited` and indexes the matrix with it, which throws. The model stops the loop there instead. On the generated (complete) graphs this never happens, as `Dijkstra.CompleteGraphSettlesAll` shows.
- ShortestPaths.TracePath: for an unreached node Form1 indexes `nodePositions` with −1; the model returns `None` instead.
- Dijkstra.ComputeShortestPaths: requires N·9 < int.MaxValue, so that no distance overflows a C# `int`. The overflowing wrap-around is not modelled. The generator's graphs meet the bound for every realistic N.
- Dijkstra.ComputeShortestPaths: the conclusion "every node is settled and every distance is finite on a complete graph" is not one of its postconditions. It is stated separately in `Dijkstra.CompleteGraphSettlesAll`, which `Visualization.RunOnGraph` applies.
- `visited.Contains` is modelled as membership in a `seq`, as in Form1. Its linear cost, which makes the code O(N³), is not modelled.
