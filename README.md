# graph-api: matrix builders and the all-shortest-paths search, in Dafny

This project models the algorithmic core of the graph-api service (Go) and
proves what it computes:

- `model.dfy` (module `Model`): the value types `Node`, `Edge`, `Graph` and
  `Angle`. They are compared field by field, as Go compares structs, so two
  nodes with the same ID but a different name, colour, shape or position are
  different nodes.
- `matrices.dfy` (module `Matrices`): `Graph.IncidenceMatrix` and
  `Graph.AdjacencyMatrix` of package `graph`.
  - Each Go loop is a Dafny loop. Go's unspecified map iteration order is a
    choice with `:|`, so every property holds for every visiting order.
  - Each builder is proved equal to a reference table (`IncidenceOf`,
    `AdjacencyOf`). The properties of the tables are stated as lemmas.
- `paths.dfy` (module `Paths`): `rec` and `AllShortestPathsFind` of package
  `paths`.
  - The package variables `allPaths` and `shortestCost` are fields of the
    class `SearchState`. So is the `visitedEdges` map, which
    `AllShortestPathsFind` allocates and `rec` updates through its reference.
  - The main result is the postcondition of `AllShortestPathsFind`. For every
    visiting order, it returns exactly the shortest routes from the start node
    to a node carrying the target ID. It returns nothing exactly when no such
    route exists.
  - A route, as the search defines it, may pass a node carrying the target ID
    only at its end, and each step needs a non-zero matrix entry.
- `seqs.dfy` (module `SeqFacts`): counting facts about sequences that the
  two other modules use.

Three points deserve a note:

- For a directed edge the tests at `pkg/service/graph/graph_test.go:110-117`
  and `:333-339` expect −1 at the `To` end of an incidence row and an
  adjacency matrix holding only `From→To`. The code never reads `IsDirected`.
  It writes 1 at both ends and builds a symmetric matrix. The model follows
  the code, and `Matrices.DirectedTestDisagreement` shows the difference on
  the incidence test's edge list. The adjacency test has the same end points
  with unnamed edges, and the adjacency table depends only on the end points,
  so the adjacency half holds for that list too.
- Keeping only the candidates as long as the last one could miss the minimum
  if ties arrived out of order. In this code it cannot:
  - a candidate is appended only when its cost is at most the best so far, so
    the lengths of the candidates never increase;
  - every shortest route is appended (`Paths.PrefixesFinished`);
  - so the last candidate always has the minimal length
    (`Paths.SearchOutcome`).
- No route is listed twice: `rec` is called at most once with each path, so
  the candidates, and the routes kept from them, are all different.

`rec`'s loop body is the method `SearchState.Neighbour`, which calls back into
`SearchState.Rec`. This keeps each proof obligation small; the statements are
those of lines 26-35 of `shortestPath.go`. In the proofs, two ghost fields
record the search's history:

- `finished`: the paths with which `rec` has returned;
- `via`: for each node, the path that last set its record.

## Model

| member | source | states |
|---|---|---|
| Matrices.CollectEndPoints | pkg/service/graph/graph.go:19-23 | the collected node set is exactly the `From` and `To` nodes of the edges; isolated entries of `Graph.Nodes` are not in it |
| Matrices.IncidenceRowOf | pkg/service/graph/graph.go:27-36 | the row has an entry for every node of the set: 1 when the node is the edge's `From` or `To` (whole-struct equality), else 0 |
| Matrices.IncidenceMatrix | pkg/service/graph/graph.go:18-40 | for every iteration order the table built is IncidenceOf(edges): one row per distinct edge value, dense over the end points |
| Matrices.IncidenceRows | pkg/service/graph/graph.go:25-38 | the row keys are exactly the distinct edge values; there are at most \|edges\| rows, and exactly \|edges\| iff no two edges are equal |
| Matrices.IncidenceRowEnds | pkg/service/graph/graph.go:27-36 | every row is keyed by exactly the end-point set, its entries are 0 or 1, and its 1s are exactly {From, To}: two 1s, or one for a self-loop |
| Matrices.IncidenceIgnoresDirection | pkg/service/graph/graph.go:29-35 | setting or clearing an edge's `IsDirected` flag leaves its incidence row unchanged |
| Matrices.NeighbourLists | pkg/service/graph/graph.go:43-51 | the lists are keyed by exactly the end points, and b is in a's list iff some edge joins a and b in either direction |
| Matrices.AdjacencyRowOf | pkg/service/graph/graph.go:54-63 | the row has an entry for every key: 1 iff the key occurs in the neighbour list (the scan breaks at the first hit), else 0 |
| Matrices.AdjacencyMatrix | pkg/service/graph/graph.go:42-67 | for every iteration order the table built is AdjacencyOf(edges) |
| Matrices.AdjacencySquare | pkg/service/graph/graph.go:43-64 | the table is dense and square over the end-point set, with entries 0 or 1 |
| Matrices.AdjacencySymmetric | pkg/service/graph/graph.go:48-51 | adj[a][b] == adj[b][a] for all end points, directed edges included |
| Matrices.AdjacencyDiagonal | pkg/service/graph/graph.go:48-60 | adj[n][n] == 1 iff some edge is a self-loop on n |
| Matrices.AdjacencyAgreesWithIncidence | pkg/service/graph/graph.go:18-67 | for two different end points, adj[a][b] == 1 iff some incidence row has a 1 in both their columns |
| Matrices.AdjacencyIgnoresDirection | pkg/service/graph/graph.go:48-51 | setting an edge's `IsDirected` flag, or swapping its `From` and `To`, leaves the whole adjacency table unchanged |
| Matrices.DirectedTestDisagreement | pkg/service/graph/graph.go:29-35 | on the incidence test's directed edge list (the adjacency test's differs only in edge names) the code puts 1 (not −1) at the `To` end of edge 1→2, and adj[2][1] == 1 (not 0) |
| Matrices.SameIdDistinctRows | pkg/model/model.go:12-19 | a node named "First" with ID 1 and the bare node with ID 1 are different rows of the adjacency table, each with its own neighbours |
| Paths.MatrixAt | pkg/service/graph/paths/shortestPath.go:26 | Go's read `matrix[currentNode][nextNode]`: a present entry reads as itself, and a non-zero read means the row and column are present (a missing one reads as 0) |
| Paths.RecordOf | pkg/service/graph/paths/shortestPath.go:30 | Go's read `visitedEdges[nextNode]`: a node with a record reads its record, and a non-zero read means the node has one (no record reads as 0) |
| Paths.StartIsTarget | pkg/service/graph/paths/shortestPath.go:12-19 | when the start node carries the target ID, the only shortest route is the start node alone |
| Paths.StackBound | pkg/service/graph/paths/shortestPath.go:30-34 | when each node past the start carries its position as its record, no node past the start appears twice on the path, so the path is at most \|nodes\| + 1 long, which bounds the recursion depth |
| Paths.EnterLowered | pkg/service/graph/paths/shortestPath.go:30-32 | entering a neighbour whose record is 0 or ≥ the new cost sets a fresh record or lowers it, never raises it |
| Paths.StackKept | pkg/service/graph/paths/shortestPath.go:30-34 | a deeper call, which only sets records above its own cost, leaves the records of the current path unchanged |
| Paths.UnvisitedChild | pkg/service/graph/paths/shortestPath.go:24-34 | a neighbour the loop has not reached yet has no finished call below it, so `rec(path + [nextNode])` is its first call with that path |
| Paths.BranchStep | pkg/service/graph/paths/shortestPath.go:24-37 | one turn of the loop over `nodes` adds only calls below `path + [nextNode]` and takes `nextNode` out of the neighbours still to try |
| Paths.KeepStep | pkg/service/graph/paths/shortestPath.go:14-17 | appending a route of cost ≤ shortestCost that is not yet a finished call, and lowering shortestCost to it, keeps the search invariant (no candidate twice): candidate lengths never increase, and shortestCost is the last candidate's cost |
| Paths.SkipStep | pkg/service/graph/paths/shortestPath.go:12-19 | dropping a route dearer than shortestCost keeps the search invariant, since a cheaper candidate is already known |
| Paths.EnterStep | pkg/service/graph/paths/shortestPath.go:30-33 | setting the record of an entered neighbour to the new cost keeps the search invariant |
| Paths.FinishStep | pkg/service/graph/paths/shortestPath.go:24-37 | a call that tried every neighbour keeps the invariant: for each neighbour it entered it, or the neighbour's record was already below the cost it would have had |
| Paths.TriedKept | pkg/service/graph/paths/shortestPath.go:30-34 | a neighbour that counted as tried before a child call still counts as tried after it |
| Paths.PrefixesFinished | pkg/service/graph/paths/shortestPath.go:24-35 | after the search every prefix of every shortest route was a call of `rec`: pruning never cuts a shortest route |
| Paths.SearchOutcome | pkg/service/graph/paths/shortestPath.go:10-38 | after the search there are candidates iff a route exists, and the candidates as long as the last one are exactly the shortest routes |
| Paths.KeepLengthDistinct | pkg/service/graph/paths/shortestPath.go:60-64 | the filter lists no path twice when the candidates do not |
| Paths.KeepLengthMembers | pkg/service/graph/paths/shortestPath.go:60-64 | a path is kept by the filter iff it is a candidate of the given length |
| Paths.KeepLastLength | pkg/service/graph/paths/shortestPath.go:60-64 | the filter loop returns, in order, the candidates whose length equals the last candidate's (nothing for no candidates) |
| Paths.SearchState.constructor | pkg/service/graph/paths/shortestPath.go:7-8 | the package state starts empty: no candidates, cost 0, no records |
| Paths.SearchState.Neighbour | pkg/service/graph/paths/shortestPath.go:26-35 | one turn of `rec`'s loop keeps the invariant and the current path's records. A non-neighbour, or a neighbour whose record is in 1..cost, changes nothing. A neighbour with record 0 or > cost is entered: `rec` is called with `path + [nextNode]` and its record ends at cost + 1. A record it changes becomes greater than the current cost and, if it was set, smaller than before. Afterwards the neighbour counts as tried. |
| Paths.SearchState.Rec | pkg/service/graph/paths/shortestPath.go:10-38 | given len(path) == cost + 1, the current path's records and no earlier call with `path` or below it, `rec` keeps the search invariant and ends up in `finished`, having added only calls below `path`. The invariant includes that no candidate is appended twice. It only lowers records, and only to values above `cost`. It terminates because depth ≤ \|nodes\| + 1. |
| Paths.SearchState.AllShortestPathsFind | pkg/service/graph/paths/shortestPath.go:40-67 | whatever the earlier state and the visiting order, the result holds exactly the shortest routes from `currentNode` to a node with ID `toNode`. It lists no route twice, it is empty iff no route exists, it is [[currentNode]] when `currentNode` has the target ID, and it is the last-length filter of the candidates. |

## Left out

- Float `Angle` fields are a datatype of two reals compared with `==`. IEEE NaN and −0 equality are not modelled. The algorithms never read the fields; they matter only to edge equality.
- Go slice aliasing is not modelled. `path := append(path, nextNode)` can share a backing array between sibling calls and overwrite a stored candidate. Paths here are immutable sequences, so the model shows the behaviour the code intends.
- Go's nil and empty slice are both the empty sequence. The filter never produces an empty non-nil result, because the last candidate always survives.
- Integer widths: the costs and records are unbounded naturals. `uint64(len(nodes)) + 2` cannot wrap for any node set that fits in memory.
- The caller that builds `nodes` and `matrix` for `AllShortestPathsFind` is outside the modelled files `graph.go` and `shortestPath.go`. The search takes both as inputs, and any non-zero matrix entry counts as a link.
- Paths.SearchState.Rec does not state that `allPaths` only grows by appending. The candidates' order matters only through the last one, and the invariant fixes that.
- `Graph.Methods` (the interface) and the empty `Graph` receiver are not modelled; the builders are plain methods of the module.
- The HTTP server and authentication, the repository (`sync.Map`, mutex, UUIDs), the service layer and `cmd/main.go` are not part of this model: they are I/O, concurrency and delegation.
- `PlanarCheck`, `ShortestPath`, `AllShortestPaths`, `HamiltonianPath`, `EulerianCycle`, `FindDiameter`, `FindRadius` and `FindCenter` are called by the service and the tests, but they are implemented outside the modelled files `graph.go` and `shortestPath.go`, so they are not part of this model.
- The directed-edge behaviour the tests expect is not modelled as code, because the code does not have it. `Matrices.DirectedTestDisagreement` records the difference.
- The specific path order asserted by the tests depends on Go's map iteration order and is not reproduced. Every property is proved for every order.
