# Breadth-first search over a directed graph, modelled in Dafny

This project models `Graph.bfs` from the HW2-BFS repository. This is the
search behind both queries the repository answers over a directed graph
loaded from an adjacency-list file:

- **traversal**: called without `end`, it returns every node reachable
  from `start`, in breadth-first order;
- **pathfinding**: called with `end`, it returns a shortest path from
  `start` to `end`, or `None`.

The graph is given as a map from each node to its out-neighbours, in the
order the adjacency list records them. Every listed neighbour is itself a
key (`Graphs.Closed`), just as a loaded `DiGraph` holds every target-only
node. Node identifiers are strings, compared exactly.

Modules:

- `Wrappers` (wrappers.dfy): `Option`, standing for Python's `None` /
  value.
- `Graphs` (graphs.dfy): the graph, walks, reachability, reachability
  within `k` edges, breadth-first distance (`IsDistance`) and shortest
  walks, with lemmas relating them.
- `BfsOrder` (order.dfy): what it means for a sequence to be *the*
  breadth-first order from a start (`IsBfsOrder`), independent of any
  queue. Each later node is discovered by the earliest node listing it,
  discoverers come in order, and ties follow neighbour order.
  `InLevelOrder` says distances never decrease. `BfsOrderUnique` proves the
  order is determined by the graph, the start and the node set.
- `SearchState` (search_state.dfy): the invariants of the search loop and
  one lemma per step of the loop. The ghost state is:
  - `head`, the number of nodes dequeued, so the queue is always
    `order[head..]`;
  - `level`, each visited node's distance;
  - `disc`, each node's discoverer.
- `Search` (search.dfy): the search itself.
  - `Bfs`: the guards and the `while queue` loop.
  - `VisitNeighbours` and `VisitNeighbour`: the `for neighbor` loop and
    its body.
  - `Visit` and `Expand`: what one neighbour, and a whole neighbour list,
    does to the record `SearchStep` of queue, visited set, order and parent
    map. `NewNeighbours` lists the neighbours an expansion appends, and the
    `Expand…` lemmas say what an expansion does to each of the four values.
  - `ReconstructPath`: the walk back along `parent`, then the reversal.

  The queue, visited set, order list and parent map are local variables of
  immutable values. Each step reassigns them to updated values, where the
  source mutates its objects in place. The deque is a sequence: `popleft`
  drops its first element and `append` extends it.
- `Scenarios` (scenarios.dfy): worked queries, each derived from `Bfs`'s
  contract alone:
  - the diamond graph A→[B, C], B→[D], C→[D], D→[] (adjacency lines
    `A;B;C`, `B;D`, `C;D`, `D`);
  - two isolated nodes;
  - the empty graph.

`Bfs`'s contract states each of these:

- the guard results;
- that the traversal is exactly the set of reachable nodes, in the
  breadth-first order and in level order;
- that a returned path is a shortest walk from `start` to `end`;
- that `None` (`NoPath`) is returned exactly when `end` is unreachable.

Termination is proved by the measure "unvisited nodes plus queue length".

The guard for an empty graph (search/graph.py:57-58) cannot be reached
once `start` is a node. The model keeps it, and proves it dead with
`assert false` in that branch.

## Model

| member | source | states |
|---|---|---|
| Search.Bfs | search/graph.py:20-100 | Traversal exactly when `end` is absent. A missing start gives `[]` in traversal mode and `NoPath` in path mode. A missing end gives `NoPath`. `start == end` gives `[start]`. A traversal is the breadth-first order and in level order, and lists exactly the nodes reachable from start. A path is a shortest walk from start to end. `NoPath` in path mode iff end is unreachable. The loop terminates. |
| Search.ReconstructPath | search/graph.py:79-85 | Following `parent` back from `end` and reversing gives a walk from the root to `end` with one more node than `end`'s level. |
| Search.Reverse | search/graph.py:85 | The reversal keeps the length and swaps the first and last node. |
| Search.VisitNeighbours | search/graph.py:87-93 | The new queue, visited set, order and parent map are `Expand` of the old ones by the dequeued node's stored neighbour list. The search invariant still holds, the queue is still the undequeued suffix of the order, and "unvisited plus queued" is unchanged. |
| Search.VisitNeighbour | search/graph.py:88-93 | An unvisited neighbour is added to the visited set, appended to the queue and to the order, and gets the dequeued node as its parent. A visited neighbour leaves every value unchanged. Either way the invariant holds with one more neighbour examined. |
| Search.NewNeighbours | search/graph.py:88-92 | Lists exactly the neighbours not yet visited, each once. |
| Search.ExpandVisits | search/graph.py:88-90 | After an expansion the visited set is the old one plus every neighbour, and nothing else. |
| Search.ExpandListsNew | search/graph.py:88-92 | An expansion appends `NewNeighbours` (the unvisited neighbours, once each, in stored order) to both the order and the queue, leaving their old contents in front. |
| Search.ExpandParents | search/graph.py:88-93 | For a parent map that covers only visited nodes, as the search keeps it, an expansion keeps every existing parent entry, gives each newly discovered node the expanded node as parent, and adds no other key. |
| SearchState.StartSearch | search/graph.py:70-73 | The initial queue, visited set, order and parent map satisfy the search invariants. |
| SearchState.BeginScan | search/graph.py:75-79 | Dequeuing a node that is not `end` keeps the invariants and opens the scan of its neighbours. |
| SearchState.DiscoverNeighbour | search/graph.py:89-93 | Discovering an unvisited neighbour keeps `order` repetition-free and equal to `visited`. Its level is its exact distance (one more than its parent's) and levels stay non-decreasing. `end` is still undequeued. The new node's discoverer is the earliest node listing it. |
| SearchState.ScanningAppend | search/graph.py:89-93 | After a discovery, the neighbours examined so far are visited, and the discovered ones are in neighbour order. |
| SearchState.SkipNeighbour | search/graph.py:89 | Skipping an already visited neighbour keeps the scan invariant. |
| SearchState.LevelledAppend | search/graph.py:93 | Giving a first-reached neighbour the dequeued node as parent keeps the parent map a breadth-first tree with exact distances. |
| SearchState.FrontierAdvance | search/graph.py:75-93 | When the queue moves on to the next level, every node within that level's distance has already been visited. |
| SearchState.FinishScan | search/graph.py:75-93 | After a node's neighbours are all examined, every dequeued node is expanded. The queue spans at most two adjacent levels, and all nodes within the head's level are visited. |
| SearchState.SearchExhausted | search/graph.py:75-100 | Once the queue is empty, the visited nodes are exactly those reachable from start. The order is the breadth-first order and in level order. |
| BfsOrder.DiscoveryOrderIsBfs | search/graph.py:88-93 | Recording each node's discoverer, in non-decreasing order with ties in neighbour order, makes the order the breadth-first order. |
| BfsOrder.LevelOrderFromLevels | search/graph.py:75-93 | Exact, non-decreasing distances along the order put it in level order. |
| BfsOrder.BfsOrderUnique | search/graph.py:75-93 | Any two breadth-first orders from the same start that list the same nodes are equal. |
| BfsOrder.BfsOrdersAgree | search/graph.py:75-93 | Two breadth-first orders over the same nodes agree position by position. |
| BfsOrder.FirstAgreement | search/graph.py:88-93 | Two such orders that agree before a position agree at it. |
| BfsOrder.IndexOf | search/graph.py:88 | The position of a neighbour's first occurrence in the stored neighbour list. |
| Graphs.DistanceGivesShortest | search/graph.py:36-37 | A walk whose edge count is the distance is a shortest walk. |
| Graphs.ShortestIsDistance | search/graph.py:36-37 | A shortest walk's edge count is the breadth-first distance. |
| Graphs.ClosedSetHoldsReachable | search/graph.py:45 | A node set closed under out-edges that holds start holds every reachable node. This is why only what is reachable is traversed. |
| Graphs.LastStep | search/graph.py:88-93 | A node within `k + 1` edges is within `k` edges, or is a neighbour of a node within `k` edges. |
| Scenarios.DiamondTraversal | search/graph.py:75-100 | On the diamond A→[B, C], B→[D], C→[D], D→[], traversal from A returns exactly `A, B, C, D`. |
| Scenarios.DiamondPath | search/graph.py:79-85 | On the diamond, the path from A to D is `A, B, D` or `A, C, D`. |
| Scenarios.IsolatedNoPath | search/graph.py:95-97 | With two isolated nodes, pathfinding from one to the other returns `NoPath`. |
| Scenarios.EmptyTraversal | search/graph.py:53-54 | Traversal of the empty graph returns the empty order. |

## Left out

- `Graph.__init__` and `nx.read_adjlist` (search/graph.py:18): file
  reading, delimiter parsing and UTF-8 decoding happen in networkx. The
  model takes the loaded adjacency map as input and requires `Closed`, the
  property a loaded `DiGraph` has.
- The corrupted-file test (test/test_bfs.py:83-99): it exercises decoding
  errors raised while loading, not the search.
- The data files the tests load: their contents are not part of this
  model. The tests on them are covered by the general contract of `Bfs`
  (start node first, nodes of the graph, endpoints of a path, missing
  nodes, same start and end).
- networkx `DiGraph` internals: only membership (`in`) and ordered
  `neighbors` are modelled.
- Search.Bfs: does not state which of several shortest paths is returned,
  only that the path is shortest. That choice is the parent map's earliest
  discoverer.
- Scenarios.DiamondPath: for the same reason, it states one of the two
  shortest paths rather than exactly `A, B, D`.
- Time and space complexity (search/graph.py:49-50): not modelled.
- Node values: any hashable Python value in the source, modelled as
  strings compared by equality.
