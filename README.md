# Graph traversals and searches, modelled in Dafny

This project models the `Graph` class of `projects/graph/graph.py`. The class is a
directed graph stored as a dictionary from each vertex to the set of its
out-neighbours. It has two mutators, `add_vertex` and `add_edge`, and a
neighbour lookup, `get_neighbors`, which raises `ValueError` for an unknown
vertex. On top of these sit three traversals, which print the vertices they
visit: `bft`, `dft` and `dft_recursive`. There are also three searches, which
return a path or `None`: `bfs`, `dfs` and `dfs_recursive`.

The files are:

- `walks.dfy` (module `Walks`) defines walks, reachability and shortest
  distance. These definitions are independent of the algorithms, and
  everything else is proved against them.
- `frontier.dfy` (module `Frontiers`) holds the loop invariants of the
  breadth-first loops and their step lemmas. The invariant says that every
  visited vertex has a shortest walk on record, that the queue is ordered by
  walk length, and that every edge out of a visited vertex has been handled.
- `depthfirst.dfy` (module `DepthFirst`) holds the same for the stack-based
  loops.
- `graph.dfy` (module `Graphs`) has the class `Graph`. The mutators, the
  lookup, `bft`, `dft`, `bfs` and `dfs` are one method each. `dft_recursive`
  and `dfs_recursive` are each two methods: the recursive call with its
  `visited` set (`DftFrom`, `DfsFrom`) and the entry point (`DftRecursive`,
  `DfsRecursive`). The neighbour loops are the module-level methods
  `AppendEach` and `AppendExtensions`.
- `demo.dfy` (module `GraphDemo`) covers the script at the end of
  `graph.py`. It builds the seven-vertex graph and proves what each traversal
  and search gives on it.

How the Python is rendered:

- The dictionary is the field `vertices: map<V, set<V>>`.
- Each error (`ValueError`) becomes `Err(MissingVertex)`. For a traversal, the
  sequence returned with the error is what Python printed before it raised.
- `Stack` and `Queue` from `util` are sequences. A stack pushes and pops at
  the end. A queue enqueues at the end and dequeues at the front. The file
  `util.py` is not part of this model.
- A `for` loop over a neighbour set picks elements with `:|`. Each contract
  therefore holds for every iteration order.
- In the recursive variants, Python shares one mutable `visited` set across
  the calls. Here each call takes the set in and returns the updated set.

The class invariant is `Valid()`: every neighbour is itself a key of the
dictionary. Both mutators preserve it. Nothing else requires it, because the
Python methods run on any dictionary. Where it matters, the contracts state
their results conditionally:

- If `Valid()` holds and the start is a vertex, no traversal or search raises.
- Whether or not it holds, everything a traversal emits is reachable from the
  start. Whatever a search returns is a real path in the current dictionary.

The contracts also say when a missing vertex makes an operation raise.
`NoMissingFrom(g, s)` holds when every vertex reachable from `s` is a key.

- A traversal raises exactly when `NoMissingFrom` fails for its start. When it
  raises, the last vertex it printed is the missing one. So `bft(s)` with a
  missing `s` prints `s` and then raises, as in Python.
- A search raises only when `NoMissingFrom` fails. It answers `None` only when
  `NoMissingFrom` holds, so "no path" is never given in place of an error.
- A search from a missing start to a different destination raises.
- `bfs(s, s)` returns `[s]` even when `s` is not a vertex, because the
  destination test comes before `get_neighbors`.

## Model

| member | source | states |
|---|---|---|
| Graphs.WithVertex | projects/graph/graph.py:12-17 | `add_vertex(id)` makes `id` a key with no neighbours, also when `id` was already there, and leaves every other entry as it was |
| Graphs.WithEdge | projects/graph/graph.py:19-28 | `add_edge(v1, v2)` succeeds exactly when both endpoints are vertices; it then adds `v2` to the neighbours of `v1`, keeps the key set, and changes no other entry |
| Graphs.WithVertexKeepsClosed | projects/graph/graph.py:12-17 | adding a vertex keeps every neighbour a vertex |
| Graphs.WithEdgeKeepsClosed | projects/graph/graph.py:25-26 | adding an edge between two vertices keeps every neighbour a vertex |
| Graphs.WithEdgeIdempotent | projects/graph/graph.py:25-26 | adding the same edge a second time changes nothing |
| Graphs.AppendEach | projects/graph/graph.py:61-62 | the neighbour loop of `bft` and `dft` appends every neighbour exactly once and nothing else |
| Graphs.AppendExtensions | projects/graph/graph.py:134-140 | the neighbour loop of `bfs` and `dfs` appends `path + [w]` once for every neighbour `w` and nothing else |
| Graphs.Graph.constructor | projects/graph/graph.py:9-10 | a new graph has no vertices and satisfies the invariant |
| Graphs.Graph.AddVertex | projects/graph/graph.py:12-17 | the new dictionary is `WithVertex` of the old one, and the invariant is kept |
| Graphs.Graph.AddEdge | projects/graph/graph.py:19-28 | on success the new dictionary is `WithEdge` of the old one; on a missing endpoint the call fails and the dictionary is unchanged; the invariant is kept |
| Graphs.Graph.GetNeighbors | projects/graph/graph.py:30-37 | returns the neighbour set exactly when the vertex exists, and fails otherwise |
| Graphs.Graph.Bft | projects/graph/graph.py:39-62 | the emitted order starts at the start vertex, repeats no vertex, consists of reachable vertices in non-decreasing distance from the start, and on success contains every reachable vertex; it fails exactly when some reachable vertex is missing, and then its last vertex is the missing one; with the invariant and an existing start it cannot fail |
| Graphs.Graph.Bfs | projects/graph/graph.py:109-140 | a returned path is a shortest walk from start to destination and repeats no vertex; `None` only when the destination is unreachable and no reachable vertex is missing; failure only when some reachable vertex is missing, and always for a missing start other than the destination; `[start]` when start equals destination; with the invariant and an existing start it cannot fail |
| Graphs.Graph.Dft | projects/graph/graph.py:64-87 | the emitted order starts at the start vertex, repeats no vertex, consists of reachable vertices, and on success contains every reachable vertex; it fails exactly when some reachable vertex is missing, and then its last vertex is the missing one; with the invariant and an existing start it cannot fail |
| Graphs.Graph.DftFrom | projects/graph/graph.py:89-107 | one call of `dft_recursive` with a shared visited set: it emits its vertex first and then only vertices not visited before, each reachable from it along a walk that meets no vertex visited before the call; the visited set grows by exactly what it emits; on success every newly visited vertex has all its neighbours visited |
| Graphs.Graph.DftRecursive | projects/graph/graph.py:89-107 | the same guarantees as `Dft`: start first, no repetition, exactly the reachable vertices on success, failure exactly when some reachable vertex is missing |
| Graphs.Graph.Dfs | projects/graph/graph.py:142-173 | a returned path is a walk from start to destination that repeats no vertex; `None` only when the destination is unreachable and no reachable vertex is missing; failure only when some reachable vertex is missing, and always for a missing start other than the destination; `[start]` when start equals destination; with the invariant and an existing start it cannot fail |
| Graphs.Graph.DfsFrom | projects/graph/graph.py:175-205 | one call of `dfs_recursive`: a find is the given path extended by a walk from the vertex to the destination through vertices not visited before; every vertex it adds to the shared visited set is reachable from the call's vertex along a walk that meets no vertex visited before the call; the vertex itself as destination gives `path + [vertex]`; `None` means every vertex the call visited is present with all its neighbours visited, and none of them is the destination; failure only when a vertex reachable from the call's vertex is missing |
| Graphs.Graph.DfsRecursive | projects/graph/graph.py:175-205 | a returned path is a walk from start to destination repeating no vertex; `None` only when the destination is unreachable and no reachable vertex is missing; failure only when some reachable vertex is missing, and always for a missing start other than the destination; `[start]` when start equals destination |
| Walks.ShortestIsSimple | projects/graph/graph.py:109-114 | a shortest walk repeats no vertex, so the path `bfs` returns is simple |
| Walks.ShortestDist | projects/graph/graph.py:109-114 | a shortest walk from `s` to `t` makes `t` reachable and has one vertex more than the distance from `s` to `t`, which is how a returned path's length relates to the distance |
| Walks.ReachableAvoidingPrepend | projects/graph/graph.py:103-107 | a walk from a neighbour that avoids the visited set, entered from a vertex along an unvisited edge, is a walk from that vertex avoiding any smaller visited set |
| Walks.ClosedSetHoldsReachable | projects/graph/graph.py:103-107 | a set that holds the start and is closed under edges contains every vertex reachable from the start; this makes the recursive variants complete |
| Walks.ReachableInClosed | projects/graph/graph.py:30-37 | in a graph whose neighbours are all vertices, everything reachable from a vertex is a vertex, so `get_neighbors` cannot fail |
| Frontiers.FrontFound | projects/graph/graph.py:127-130 | the path at the front of the queue whose end is unvisited is a shortest walk to its end and repeats no vertex |
| Frontiers.FrontierStep | projects/graph/graph.py:132-140 | marking the front vertex visited and enqueueing every one-edge extension of its path, in any order, keeps the breadth-first invariant |
| Frontiers.FrontierDiscard | projects/graph/graph.py:123-127 | dropping a path whose end is already visited keeps the breadth-first invariant |
| Frontiers.FrontierDone | projects/graph/graph.py:121-140 | when the queue runs empty the visited set is exactly the set of vertices reachable from the start |
| Frontiers.ByWalkLengthInDistOrder | projects/graph/graph.py:51-62 | listing visited vertices by the length of their shortest walks lists them by distance from the start |
| Frontiers.BftVisit | projects/graph/graph.py:56-62 | emitting a new vertex and enqueueing all its neighbours keeps the traversal invariant of `bft` |
| Frontiers.BftDiscard | projects/graph/graph.py:53-56 | dequeuing an already-visited vertex keeps the traversal invariant of `bft` |
| Frontiers.BftStop | projects/graph/graph.py:56-61 | when `bft` fails on a new, missing vertex, what it printed, that vertex included, is still in distance order without repetition, and a vertex reachable from the start is missing |
| Frontiers.BftDone | projects/graph/graph.py:51-62 | when the queue of `bft` runs empty it has emitted exactly the reachable vertices, in distance order, and none of them is missing |
| DepthFirst.DftVisit | projects/graph/graph.py:81-87 | emitting a new vertex and pushing all its neighbours keeps the traversal invariant of `dft` |
| DepthFirst.DftDiscard | projects/graph/graph.py:78-81 | popping an already-visited vertex keeps the traversal invariant of `dft` |
| DepthFirst.DftDone | projects/graph/graph.py:76-87 | when the stack of `dft` runs empty it has emitted exactly the reachable vertices |
| DepthFirst.DfsVisit | projects/graph/graph.py:160-173 | marking the top vertex visited and pushing every one-edge extension of its path keeps the invariant of `dfs` |
| DepthFirst.DfsDiscard | projects/graph/graph.py:156-160 | popping a path whose end is already visited keeps the invariant of `dfs` |
| DepthFirst.SettledPathSimple | projects/graph/graph.py:160-163 | a path on the stack whose end is unvisited repeats no vertex |
| DepthFirst.DfsDone | projects/graph/graph.py:154-173 | when the stack of `dfs` runs empty without reaching the destination, every vertex reachable from the start is visited, so the destination is unreachable |
| DepthFirst.ExtendsWithPrepend | projects/graph/graph.py:197-203 | a path found by a nested call of `dfs_recursive` through a neighbour is also a find of the calling call |
| GraphDemo.AddDemoEdge | projects/graph/graph.py:217-226 | an `add_edge` call of the driver, whose endpoints were added before it, succeeds and adds the one edge |
| GraphDemo.BuildDemo | projects/graph/graph.py:208-232 | the driver's seven `add_vertex` and ten `add_edge` calls, each of the latter made through `AddDemoEdge` and so succeeding, produce the dictionary the driver says it prints |
| GraphDemo.DemoShortestWalk | projects/graph/graph.py:261-265 | every walk from 1 to 6 in the driver's graph has at least four vertices, and `[1, 2, 4, 6]` is the only one with four |
| GraphDemo.DemoSimplePaths | projects/graph/graph.py:267-273 | the walks from 1 to 6 that repeat no vertex are `[1, 2, 4, 6]` and `[1, 2, 4, 7, 6]` |
| GraphDemo.DemoDist | projects/graph/graph.py:234-248 | the distances from 1 are 0 for 1, 1 for 2, 2 for 3 and 4, and 3 for 5, 6 and 7 |
| GraphDemo.DemoAllReachable | projects/graph/graph.py:234-259 | exactly the seven vertices are reachable from 1 |
| GraphDemo.DemoBftOrders | projects/graph/graph.py:234-248 | an order that lists the seven vertices once each by distance from 1 is one of the twelve orders the driver lists as valid |
| GraphDemo.DemoBft | projects/graph/graph.py:234-249 | `bft(1)` emits one of the twelve valid orders the driver lists |
| GraphDemo.DemoDft | projects/graph/graph.py:251-258 | `dft(1)` emits all seven vertices once each, starting at 1 |
| GraphDemo.DemoDftRecursive | projects/graph/graph.py:251-259 | `dft_recursive(1)` emits all seven vertices once each, starting at 1 |
| GraphDemo.DemoBfs | projects/graph/graph.py:261-265 | `bfs(1, 6)` returns `[1, 2, 4, 6]` |
| GraphDemo.DemoDfs | projects/graph/graph.py:267-272 | `dfs(1, 6)` returns `[1, 2, 4, 6]` or `[1, 2, 4, 7, 6]` |
| GraphDemo.DemoDfsRecursive | projects/graph/graph.py:267-273 | `dfs_recursive(1, 6)` returns `[1, 2, 4, 6]` or `[1, 2, 4, 7, 6]` |
| GraphDemo.DemoMissingStart | projects/graph/graph.py:30-37 | from a start that is not a vertex of the driver's graph, each of the six traversals and searches raises |
| GraphDemo.DemoSharedVisited | projects/graph/graph.py:89-107 | on the chain `0 -> 1 -> 2` with 1 already visited, `dft_recursive(0, {1})` prints only 0, and both it and `dfs_recursive(0, 2, {1})` leave the visited set `{0, 1}` |

## Left out

- Printing. Each traversal returns the sequence of vertices it would print. The driver's `print(graph.vertices)` and its printing of the search results are not modelled.
- `util.Stack` and `util.Queue`. They are modelled as sequences with the behaviour their use in `graph.py` shows: push or enqueue at the end, pop from the end, dequeue from the front.
- Iteration order of Python sets, and hashing. Neighbours are chosen arbitrarily, so no particular order is fixed. Every contract holds for all orders.
- Recursion depth. Python's recursion limit on `dft_recursive` and `dfs_recursive` is a resource limit, not part of their logic.
- Graphs.Graph.GetNeighbors: returns a copy of the stored neighbour set, not the live set `self.vertices[vertex_id]` that Python returns. In Python a caller holding that set sees later `add_edge` calls. It can also `.add()` to the set directly, skipping the endpoint check of `add_edge`, which is one way a Python graph can come to have a neighbour that is not a vertex. The model captures neither this aliasing nor that way of breaking `Valid()`.
- Aliasing of the shared `visited` set in the recursive methods. It is passed in and handed back, which gives the same sequence of values the shared set takes.
- Graphs.Graph.Dft: states which vertices are emitted, not the depth-first shape of the order. The four "valid DFT paths" the driver lists are not checked against it.
- Graphs.Graph.DftRecursive: states which vertices are emitted and that the start comes first. It does not state that the order is a pre-order of a depth-first tree.
- Graphs.Graph.Dfs: states that the path is a simple walk, not which of several paths the stack discipline picks. The source does not promise a shortest path here either.
- Graphs.Graph.DfsRecursive: like `Dfs`, which path is found first depends on the set iteration order and is not stated.
- GraphDemo.DemoDft: states the emitted set and the first vertex, not that the order is one of the four the driver lists.
- GraphDemo.DemoDftRecursive: states the emitted set and the first vertex, not that the order is one of the four the driver lists.
