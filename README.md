# Campus route finder: shortest-path core

The app finds walking routes between the points of interest on a school
campus. It keeps the campus as a weighted graph: every place name maps to
its neighbours, and each neighbour maps to a walking distance in metres.
`dijkstra(graph, source, target)` returns the length of the shortest route
and the route itself. This project models three parts of the app and
proves properties of each:

- **the shortest-path engine** (`ShortestPath`, `dijkstra.dfy`). The model
  has the same state as the original: tentative distances, predecessors,
  and the unvisited set, which is a sequence in the graph's key order. It
  also has the same loop structure. Each round scans for the first
  unvisited node of smallest finite distance, deletes it, stops at the
  target and otherwise relaxes the node's outgoing edges. Path
  reconstruction walks the predecessor links back and reverses the result.
  The proofs show that:
  - the returned path runs from source to target along edges of the graph;
  - its weight is the returned distance;
  - no path from source to target is lighter;
  - a route from a place to itself is `[place]` of length 0;
  - with an unreachable target no pass of the loop ever breaks, so the loop does not end. For a target that is a key, the `distance[target] !== Infinity` check before path reconstruction therefore always passes.
- **the curated campus graph** (`Campus`, `campus.dfy`). This is the
  hand-written adjacency literal, with its exact weights. It is proved
  symmetric (each edge has a reverse edge of the same weight), free of
  self-loops, closed (every neighbour is a node) and non-negative. It is
  also connected, so a search between any two places ends.
- **the complete-mesh builder** (`Mesh`, `mesh.dfy`). This is the nested
  loop that connects every location to every other location, weighted by a
  distance function of their coordinates. The model shows that the result
  has the following properties:
  - its nodes are exactly the locations;
  - no node is adjacent to itself;
  - each node has N − 1 neighbours;
  - each weight is the distance between the two endpoints;
  - it is symmetric whenever the distance function is;
  - with a metric distance, the direct hop is the shortest route.

`Graphs` (`graphs.dfy`) defines the pieces the three parts share: the
graph type, paths and their weights, and the structural properties.

JavaScript's `Infinity` is `Dist.Inf`, `null` is `Option.None`, and
numbers are exact reals.

## Model

| member | source | states |
|---|---|---|
| ShortestPath.Add | App.js:46 | `distance[current] + w`: finite exactly when the distance is finite (Infinity plus anything is Infinity), and adding a non-negative weight never lowers a distance |
| ShortestPath.Lt | App.js:32 | JavaScript `<` on numbers and Infinity: `a < b` holds exactly when `b <= a` fails, and only a finite value is less than anything, so `Infinity < Infinity` is false |
| ShortestPath.InitTables | App.js:15-21 | every key of the graph gets distance Infinity and predecessor null, then the source gets distance 0; nothing else is in the tables |
| ShortestPath.SelectMin | App.js:29-36 | the scan returns null exactly when every unvisited node is at Infinity; otherwise it returns an unvisited node of finite distance that is no farther than any unvisited node, and it is the first such node in scan order (strict `<`) |
| ShortestPath.Without | App.js:37 | deleting x leaves exactly the other elements and keeps them distinct; deleting a present element shortens by one; deleting an absent one (null) changes nothing |
| ShortestPath.WithoutAt | App.js:37 | deleting a node cuts it out at its position: the nodes before it and after it stay in their order, so the next scan's first-minimum tie-break sees the same order |
| ShortestPath.RelaxNeighbours | App.js:45-51 | a neighbour's distance is lowered exactly when going through the current node is strictly shorter, and its predecessor becomes the current node in the same step; every other entry is unchanged; no distance increases; each neighbour ends at most the distance through the current node |
| ShortestPath.Round | App.js:29-51 | one loop body: a null selection changes nothing, so the loop makes no progress when every unvisited node is at Infinity; otherwise the selected node leaves unvisited, reaching the target stops with the tables unchanged, and any other node has its edges relaxed, leaving each neighbour at most the selected node's distance plus the edge |
| ShortestPath.InitialSearchInv | App.js:15-24 | the state right after initialisation satisfies the loop invariant |
| ShortestPath.FrontierBound | App.js:27-52 | every path from the source that ends at an unvisited node passes an unvisited node whose tentative distance is at most the path's weight |
| ShortestPath.SelectedIsSettled | App.js:29-37 | with non-negative weights, the node the scan selects already has its final distance: no path from the source is lighter |
| ShortestPath.ReachableLeavesCandidate | App.js:27-37 | while the target is reachable and unvisited, some unvisited node has a finite distance, so the scan never returns null |
| ShortestPath.VisitedUnchanged | App.js:45-51 | relaxing the nearest node's edges never changes a visited node, the node itself or the source; no distance increases |
| ShortestPath.VisitKeepsLink | App.js:47-50 | after a round, a node whose distance was lowered has the visited current node as predecessor, one edge back; any other node keeps its sound link |
| ShortestPath.VisitKeepsLinks | App.js:45-51 | after a round, every predecessor link is sound |
| ShortestPath.VisitKeepsDistances | App.js:46-48 | after a round, finite distances are still non-negative and a node other than the source without a predecessor is still at Infinity |
| ShortestPath.VisitKeepsShape | App.js:37-51 | after a round, the tables have the same keys, the source still has distance 0 and no predecessor, and the visited nodes, now including the current one, have finite distances |
| ShortestPath.VisitKeepsChainInv | App.js:44-51 | after a round, every predecessor link still points to a visited node one edge back whose distance plus the edge gives this node's distance |
| ShortestPath.VisitKeepsOrder | App.js:29-51 | after a round, unvisited and visited nodes still partition the graph, and no visited node is farther than an unvisited one |
| ShortestPath.VisitKeepsSettled | App.js:29-51 | after a round, every visited node, including the new one, has its final, minimal distance |
| ShortestPath.VisitKeepsRelaxed | App.js:45-51 | after a round, every edge out of a visited node is relaxed |
| ShortestPath.VisitKeepsSearchInv | App.js:27-52 | one round that visits the nearest node keeps the whole loop invariant |
| ShortestPath.StopKeepsChainInv | App.js:40-42 | stopping at the target leaves the predecessor links consistent, with the target visited last |
| ShortestPath.FiniteMeansReachable | App.js:45-51 | a node with a finite distance is reached from the source by a path whose weight is that distance and in which each node's predecessor is the node before it |
| ShortestPath.UnreachableIsInf | App.js:45-51 | a node that no path from the source reaches has distance Infinity |
| ShortestPath.UnreachableRound | App.js:27-52 | with an unreachable target, a pass of the loop body never breaks, the target stays unvisited at Infinity so `unvisited.size > 0` still holds, and the loop invariant is kept: the loop never ends |
| Graphs.Reversed | App.js:62 | `path.reverse()`: same length, element i is element n-1-i of the input |
| ShortestPath.ReconstructPath | App.js:54-63 | a target at Infinity gives the empty path; otherwise the path starts at the source, ends at the target, follows edges and weighs exactly the target's distance; the path for source = target is `[source]` |
| ShortestPath.Dijkstra | App.js:13-66 | for a reachable target, the distance is finite and equals the weight of the returned path; the path runs from source to target along edges; no path from source to target is lighter; `dijkstra(g, X, X)` gives 0 and `[X]` |
| Graphs.RowsMakeGraph | App.js:94-157 | a graph whose every row is well formed is symmetric, closed, loop-free and non-negative |
| Graphs.AppendEdge | App.js:46 | extending a path by one edge adds that edge's weight |
| Graphs.PrependEdge | App.js:58-62 | extending a path at its start by one edge adds that edge's weight |
| Graphs.ReversePath | App.js:94-157 | in a symmetric graph a path walked backwards is a path between the same two ends, swapped |
| Graphs.JoinPaths | App.js:94-157 | a path to a node followed by a path from that node is a path between the outer ends |
| Campus.CampusGraph | App.js:94-157 | the literal row by row with the source's weights; its keys are exactly the eleven places |
| Campus.Name | App.js:94-157 | each place stands for a non-empty key of the literal |
| Campus.NamesDistinct | App.js:94-157 | different places have different key strings |
| Campus.EveryPlaceIsNode | App.js:94-157 | each of the eleven places is a key of the graph |
| Campus.CampusRowsWellFormed | App.js:94-157 | each row of the literal is well formed: it does not list its own key, and each neighbour is a key that lists the row back with the same non-negative weight |
| Campus.CampusWellFormed | App.js:94-157 | the curated graph is symmetric with equal weights both ways, has no self-loops, mentions only its own keys and has non-negative weights |
| Campus.FromLibrary | App.js:94-157 | every place is reached from the Library along edges of the curated graph |
| Campus.Route | App.js:94-157 | the curated graph is connected: between any two places there is a path, so the engine's reachability requirement holds for every pair of places |
| Mesh.BuildMesh | graph.js:30-45 | the built graph's keys are exactly the locations; each row lists exactly the other locations, each at the distance between the two coordinates |
| Mesh.MeshShape | graph.js:32-35 | the nodes are the locations, no node is its own neighbour, every neighbour is a node, and any two different locations are adjacent |
| Mesh.MeshDegree | graph.js:34-44 | every node has N − 1 neighbours |
| Mesh.MeshSymmetric | graph.js:34-43 | a symmetric distance function gives a symmetric mesh: every edge has a reverse edge of the same weight |
| Mesh.MeshNonNegative | graph.js:36-42 | a non-negative distance function gives a mesh with non-negative weights |
| Mesh.DirectIsShortest | graph.js:36-42 | with a distance that satisfies the triangle inequality, no path is shorter than the distance between its endpoints |
| Mesh.DirectHop | graph.js:36-42 | between two different locations the direct hop is a path weighing their distance, and no path between them is lighter |

## Left out

- Floating point: weights and distances are exact reals. Round-off in `distance[current] + graph[current][neighbor]` is not modelled.
- `haversine` (graph.js:1-14) is a parameter of `Mesh.BuildMesh`, because it is floating-point trigonometry. `MeshSymmetric`, `MeshNonNegative`, `DirectIsShortest` and `DirectHop` assume symmetry, non-negativity or the triangle inequality of the distance function as hypotheses.
- `isUserWithinRadius`, `toRadians` and the radius demo output (graph.js:49-86) are floating-point trigonometry and console output.
- The coordinate literals (App.js:80-92, graph.js:16-28) are float data. Locations are abstract coordinates.
- The React Native component is left out: map rendering, camera, the pitch slider, the tap handler, location-permission requests and logging (App.js:68-79, 159-258).
- The place names in the graph literal are the constructors of `Campus.Place`. `Campus.Name` gives the string of each, and `Campus.NamesDistinct` shows the correspondence is one to one.
- Node names are otherwise abstract. JavaScript's `while (temp)` stops on any falsy name, for example an empty string. The model stops only at `null`, so keys are taken to be truthy.
- ShortestPath.Dijkstra: it requires non-negative edge weights, and so do `RelaxNeighbours`, `Round` and the loop invariant. The JavaScript also runs on negative weights, but then its result need not be a shortest path. That case is not modelled. `Campus.CampusWellFormed` shows that the curated graph meets the requirement.
- ShortestPath.Dijkstra: it requires the source and the target to be keys. The model does not cover a source or target outside the graph.
- ShortestPath.Dijkstra: it requires a route from source to target, because with an unreachable target the JavaScript loop never ends. That case is described by `UnreachableRound`: every pass keeps the target unvisited at Infinity and never breaks. For the curated campus graph, `Campus.Route` supplies the route for every pair of places.
- The order in which `for...in` visits a node's neighbours during relaxation is left arbitrary. The model picks any remaining neighbour, and the proved result holds for every order.
- The unvisited `Set` is a sequence in `Object.keys` order. Its deletion is a function on that sequence (`Without`), not an update in place.
