# Weighted graph algorithms and a linked stack, modelled in Dafny

This project models three small Java programs and proves properties of the
models.

- **`CA/GraphLists.java`** is an adjacency-list store for weighted,
  undirected graphs. It supports depth-first and breadth-first traversal,
  Prim's minimum spanning tree, and Dijkstra's single-source distances. Prim
  and Dijkstra share one pattern: a `java.util.PriorityQueue` of
  `(vertex, weight)` entries with lazy deletion, where a polled entry whose
  vertex is already visited is dropped.
- **`CA/Kruskal.java`** is an edge-list graph. Its Kruskal algorithm sorts
  the edges by weight. It keeps a disjoint-set forest in a `parent` array,
  where `-1` marks a root, using a non-compressing `find` and a root-to-root
  `union`. An edge is accepted exactly when its two ends have different
  roots.
- **`StackTest.java`** is a singly linked integer stack with `push`, and a
  `pop` that returns 0 on an empty stack. `display` walks it from the top.

Each Java file's `Graph` and `Edge` classes get their own Dafny module, since
the names clash.

Where the source prints a result, the model returns it instead:

| source output | modelled as |
|---|---|
| DFS/BFS print line | the visit order |
| Prim's printed lines | a list of `(parent, child, weight)` records |
| Dijkstra's printed table | the whole `distances` array |
| Kruskal's printed lines | the accepted edges, in order |
| `display` | the stack's values, top first |

The models are pure functions over immutable values:

- The Prim and Dijkstra loops are a pure `Step` function applied by a
  `while` loop, with an invariant predicate that lemmas prove each step
  preserves.
- The priority queue is a multiset. `poll` removes *some* entry of minimum
  weight, so ties are left open.
- The `Integer.MAX_VALUE` "infinity" is an explicit `Inf` value.

| module | file | models |
|---|---|---|
| `GraphLists` | `graph_lists.dfy` | the store, `Edge.compareTo`, walks and reachability |
| `PriorityFrontier` | `frontier.dfy` | `poll` |
| `GraphTraversal` | `traversal.dfy` | DFS and BFS |
| `GraphPrim` | `prim.dfy` | Prim |
| `GraphDijkstra` | `dijkstra.dfy` | Dijkstra |
| `DisjointSet` | `disjoint_set.dfy` | `find` and `union` |
| `KruskalMst` | `kruskal.dfy` | the edge-list graph, the sort and `kruskal` |
| `LinkedStack` | `stack.dfy` | the stack |

Four details of the source that the model follows exactly:

- `prim` relaxes the neighbours of a newly visited vertex *before* it
  records that vertex's edge. The recorded key and parent cannot change in
  between, because relaxation never touches a visited vertex.
- `prim` relaxes only on a strictly lower weight. So when several tree
  vertices offer a vertex the same weight, the first of them to join the
  tree stays its parent (`FirstOffer`).
- The sort in `kruskal` is `Collections.sort`, which is stable, so
  equal-weight edges keep their input order. The model's sort is stable and
  proved so (`SortStable`).
- The adjacency store has `vertices + 1` lists, with index 0 unused by the
  input format. In the Kruskal forest, vertex 0 is an ordinary slot.

## Model

| member | source | states |
|---|---|---|
| `GraphLists.CompareTo` | CA/GraphLists.java:209-212 | the sign of the result is negative, zero or positive exactly when the first entry's weight is below, equal to or above the second's; the vertex plays no part |
| `GraphLists.CompareToPreorder` | CA/GraphLists.java:209-212 | the ordering is antisymmetric and transitive, with ties exactly between equal weights, as the `Comparable` contract requires |
| `GraphLists.NewGraph` | CA/GraphLists.java:71-78 | a new graph has `vertices + 1` neighbour lists, all empty |
| `GraphLists.AddEdge` | CA/GraphLists.java:85-88 | `(v2, w)` is appended to `v1`'s list and `(v1, w)` to `v2`'s (both to one list for a self-loop); every other list is unchanged |
| `GraphLists.BuildSymmetric` | CA/GraphLists.java:49-56 | after the constructor and one `addEdge` per input edge, `(v, w)` is in `u`'s list exactly when some input edge joins `u` and `v` with weight `w`, in either order |
| `PriorityFrontier.Poll` | CA/GraphLists.java:142-143 | exactly one entry is removed, and no remaining entry has a smaller weight |
| `PriorityFrontier.DropKeepsCover` | CA/GraphLists.java:143-146 | when the polled entry's vertex becomes visited and no other vertex changes, every unvisited vertex with a finite key or distance still has an entry carrying exactly that value in the queue without the polled entry |
| `GraphTraversal.DepthChild` | CA/GraphLists.java:101-104 | when the loop reaches an unmarked neighbour, every vertex emitted since the current one has all its neighbours marked, so that neighbour is the next vertex by the depth-first rule |
| `GraphTraversal.DepthLoopStep` | CA/GraphLists.java:101-105 | appending what the recursive call emitted keeps the loop invariant: marks and emitted vertices agree, no repeats, all reachable, earlier neighbours marked, depth-first rule kept |
| `GraphTraversal.DepthFirstTraversalHelper` | CA/GraphLists.java:97-106 | the vertex is emitted first; the emitted vertices are exactly the newly marked ones, are distinct, and are reachable from the vertex; every neighbour of an emitted vertex ends up marked; each emitted vertex after the first is the first not-yet-emitted entry in the list of the *latest* earlier vertex whose list still has one |
| `GraphTraversal.DepthFirstTraversal` | CA/GraphLists.java:90-95 | the start comes first, no vertex is emitted twice, a vertex is emitted exactly when it is reachable from the start, and the whole order follows the depth-first rule |
| `GraphTraversal.EnqueueNext` | CA/GraphLists.java:119-124 | when the entries before entry `i` are all emitted or queued and entry `i` is not, enqueueing it appends the first such entry of the list |
| `GraphTraversal.EnqueueStep` | CA/GraphLists.java:119-124 | one inner iteration keeps the marks in step with the queue, keeps old marks, and leaves every entry up to `i` emitted or queued |
| `GraphTraversal.EnqueueNeighbours` | CA/GraphLists.java:119-124 | afterwards every neighbour of the dequeued vertex is marked; a vertex is marked exactly when it has been enqueued, nothing is enqueued twice, and the old queue stays in front; each appended vertex is the first entry of the list that is neither emitted nor queued before it, so the list's unmarked entries are appended in list order, once each, and no entry is left out |
| `GraphTraversal.BreadthExtends` | CA/GraphLists.java:113-125 | enqueueing the neighbours of the last emitted vertex keeps the breadth-first rule over the emitted vertices followed by the queue |
| `GraphTraversal.BreadthFirstTraversal` | CA/GraphLists.java:108-127 | the start comes first, no vertex is emitted twice, a vertex is emitted exactly when it is reachable from the start, and each vertex after the first is the first not-yet-emitted entry in the list of the *earliest* vertex whose list still has one |
| `GraphTraversal.BreadthNextUnique` | CA/GraphLists.java:108-127 | the breadth-first rule leaves one choice for the next vertex |
| `GraphTraversal.DepthNextUnique` | CA/GraphLists.java:97-106 | the depth-first rule leaves one choice for the next vertex |
| `GraphTraversal.OrderUnique` | CA/GraphLists.java:90-127 | two repetition-free orders with the same start and the same vertices that both follow the breadth-first rule, or both the depth-first rule, are equal, so the contracts of the two traversals fix their output |
| `GraphTraversal.ForkScenario` | CA/GraphLists.java:85-127 | on the graph with edges 1-2, 1-3, 2-4 added in that order, from vertex 1, depth-first is 1 2 4 3 and breadth-first is 1 2 3 4 |
| `GraphPrim.Init` | CA/GraphLists.java:131-140 | the loop invariant holds at entry: nothing is visited, the queue holds only `(start, 0)`, `key[start]` is 0, every other key is infinite, and every parent is 0 |
| `GraphPrim.RelaxFrom` | CA/GraphLists.java:147-153 | relaxing a list never raises a key, never changes a visited vertex's key or parent, and only adds queue entries |
| `GraphPrim.Finalise` | CA/GraphLists.java:145-156 | handling an unvisited vertex marks exactly that vertex, never raises a key, and only adds queue entries; the recorded edge, present exactly when `parent[u]` is not 0, is `(parent[u], u, key[u])` with the parent and key as they were before the relaxation |
| `GraphPrim.Step` | CA/GraphLists.java:142-157 | a stale entry is dropped and nothing else changes; otherwise its vertex is marked; keys never rise; the pair (unvisited count, queue size) decreases |
| `GraphPrim.RelaxFromPending` | CA/GraphLists.java:147-153 | after a visited vertex's list is relaxed, every keyed vertex's `(v, key[v])` is an entry of a visited parent's list, and every neighbour of that vertex is visited or keyed |
| `GraphPrim.MarkPending` | CA/GraphLists.java:143-146 | marking a polled unvisited vertex keeps every key and queue fact; its parent is the start or an already recorded child |
| `GraphPrim.PollLightest` | CA/GraphLists.java:142-150 | the vertex of a minimum queue entry, when unvisited and with a parent, is attached by an edge no heavier than any list entry leading from the tree built so far to a vertex outside it |
| `GraphPrim.LightEdgesSnoc` | CA/GraphLists.java:154-156 | appending a lightest leaving edge keeps every recorded edge a lightest edge leaving the tree built before it |
| `GraphPrim.RecordInv` | CA/GraphLists.java:154-156 | recording `(parent[u], u, key[u])` when `parent[u]` is not 0 restores the loop invariant: one recorded edge per visited vertex other than the start, each hanging from the start or an earlier child, each a lightest edge leaving the tree built before it |
| `GraphPrim.DropStale` | CA/GraphLists.java:143-145 | dropping an entry whose vertex is visited keeps the loop invariant |
| `GraphPrim.StepPreserves` | CA/GraphLists.java:142-158 | one iteration of the outer loop, polling a minimum entry, keeps the loop invariant, including that every recorded edge is a lightest edge leaving the tree built before it |
| `GraphPrim.RelaxOneOffers` | CA/GraphLists.java:147-153 | relaxing one entry keeps every unvisited vertex's parent the first tree vertex offering its key: an earlier, fully relaxed tree vertex cannot hold the strictly lower weight that `<` demands |
| `GraphPrim.RelaxFromOffers` | CA/GraphLists.java:147-153 | relaxing the whole list of the newly visited vertex keeps every parent the first offering tree vertex |
| `GraphPrim.MarkOffers` | CA/GraphLists.java:143-146 | marking the polled vertex and appending it to the tree keeps every parent the first offering tree vertex |
| `GraphPrim.VisitOffers` | CA/GraphLists.java:143-153 | after marking the polled unvisited vertex and relaxing its list, every unvisited vertex's parent is the first vertex of the grown tree whose list holds the vertex with its key; the polled vertex has parent 0 exactly when it is the start |
| `GraphPrim.RecordOffers` | CA/GraphLists.java:154-156 | recording `(parent[u], u, key[u])` makes the recorded parent the first tree vertex holding that entry, and the grown tree the tree of the recorded edges |
| `GraphPrim.StepFirstOffers` | CA/GraphLists.java:142-158 | one iteration of the outer loop keeps both first-offer facts: for unvisited vertices and for the recorded edges |
| `GraphPrim.PrimLoop` | CA/GraphLists.java:142-158 | the loop ends with an empty queue and the loop invariant; the parent of every recorded edge is the first vertex of the tree before it whose list holds the edge |
| `GraphPrim.PrimDone` | CA/GraphLists.java:142-158 | with the queue empty, the visited vertices are exactly the vertices reachable from the start; the recorded children are those vertices minus the start; there is one edge fewer than reachable vertices |
| `GraphPrim.PrimResult` | CA/GraphLists.java:142-158 | at the end of the loop the recorded edges form a tree over the reachable vertices; each is a lightest edge leaving the tree built before it, with the first offering tree vertex as its parent |
| `GraphPrim.Prim` | CA/GraphLists.java:130-165 | each recorded `(parent, child, weight)` is an entry `(child, weight)` of `parent`'s list and hangs from the start or an earlier child; no child repeats; the children are exactly the reachable vertices other than the start; each recorded edge weighs no more than any list entry from the tree built before it (the start and the earlier children) to a vertex outside that tree; the parent of each recorded edge is the first vertex of that tree, in the order the vertices joined it, whose list holds the edge |
| `GraphPrim.TriangleScenario` | CA/GraphLists.java:142-157 | on the triangle 1-2 (1), 2-3 (2), 1-3 (3) from vertex 1, the contract of `Prim` leaves one answer: 1-2, then 2-3 |
| `GraphPrim.TieScenario` | CA/GraphLists.java:147-157 | on edges 1-2 (1), 1-3 (5), 2-3 (5) from vertex 1, the contract of `Prim` leaves one answer: 1-2, then 1-3, because vertex 2's equal offer does not replace vertex 1's |
| `GraphDijkstra.RelaxedBoundsWalks` | CA/GraphLists.java:182-187 | in a table with no edge left to relax and the start at 0, the distance of the end of any walk from the start is at most the walk's weight |
| `GraphDijkstra.Init` | CA/GraphLists.java:168-175 | the loop invariant holds at entry: `distances[start]` is 0, every other distance is infinite, and the queue holds only `(start, 0)` |
| `GraphDijkstra.RelaxFrom` | CA/GraphLists.java:182-188 | relaxing a list never raises a distance, never changes a visited vertex's distance, and only adds queue entries |
| `GraphDijkstra.Step` | CA/GraphLists.java:177-189 | a stale entry is dropped and nothing else changes; otherwise its vertex is marked; distances never rise; the pair (unvisited count, queue size) decreases |
| `GraphDijkstra.RelaxFromPending` | CA/GraphLists.java:182-188 | after the list of the polled vertex is relaxed, every finite distance is the weight of a walk from the start, and every entry of that vertex's list is relaxed |
| `GraphDijkstra.MarkPending` | CA/GraphLists.java:178-181 | marking the vertex of a minimum entry starts the relaxation phase: its distance is no larger than any remaining entry, and no visited vertex is farther than it |
| `GraphDijkstra.DropStale` | CA/GraphLists.java:178-180 | dropping an entry whose vertex is visited keeps the loop invariant |
| `GraphDijkstra.StepPreserves` | CA/GraphLists.java:177-190 | one iteration of the outer loop keeps the loop invariant |
| `GraphDijkstra.DijkstraDone` | CA/GraphLists.java:177-190 | with the queue empty, a distance is finite exactly for the reachable vertices and is then the weight of a walk; for every vertex `u` with a finite distance and every entry `(v, w)` of its list, `distances[v] <= distances[u] + w` |
| `GraphDijkstra.Dijkstra` | CA/GraphLists.java:167-197 | with non-negative weights, `distances[start]` is 0; a distance is finite exactly when the vertex is reachable; each finite distance is the weight of some walk from the start and at most the weight of every such walk |
| `DisjointSet.Find` | CA/Kruskal.java:70-75 | on an acyclic parent array, returns the root that the vertex's parent links reach, whose entry is -1 |
| `DisjointSet.Union` | CA/Kruskal.java:77-81 | only the entry of `find(x)` changes, and it becomes `find(y)` |
| `DisjointSet.UnionMerges` | CA/Kruskal.java:77-81 | joining two different trees keeps the array acyclic; exactly the vertices of `x`'s tree move to `y`'s root; one root disappears; afterwards `find(x) == find(y)` |
| `DisjointSet.UnionSameRootCycles` | CA/Kruskal.java:77-81 | joining a tree with itself makes its root its own parent, after which `find` no longer terminates |
| `KruskalMst.CompareTo` | CA/Kruskal.java:123-126 | the sign of the result is negative, zero or positive exactly when the first edge's weight is below, equal to or above the second's |
| `KruskalMst.CompareToPreorder` | CA/Kruskal.java:123-126 | the ordering is antisymmetric and transitive, with ties exactly between equal weights |
| `KruskalMst.NewGraph` | CA/Kruskal.java:56-59 | a new graph has an empty edge list |
| `KruskalMst.AddEdge` | CA/Kruskal.java:66-68 | exactly one `Edge(v1, v2, w)` is appended and the earlier edges are unchanged |
| `KruskalMst.BuildKeepsOrder` | CA/Kruskal.java:33-40 | the edge list holds exactly the edges read, in reading order |
| `KruskalMst.SortByWeight` | CA/Kruskal.java:85 | the result is sorted by weight and is a permutation of the input |
| `KruskalMst.SortStable` | CA/Kruskal.java:85 | for every weight, the edges of that weight keep their input order |
| `KruskalMst.InitialForest` | CA/Kruskal.java:87-90 | all entries -1: every vertex is its own root, and no edge is accepted yet |
| `KruskalMst.RejectLinked` | CA/Kruskal.java:94-98 | an edge whose ends have the same root is already connected by the accepted edges |
| `KruskalMst.AcceptForest` | CA/Kruskal.java:94-101 | an edge whose ends have different roots is not connected yet; after accepting it and joining the trees, the roots still describe exactly the components of the accepted edges |
| `KruskalMst.ConsiderEdge` | CA/Kruskal.java:94-101 | an edge is accepted exactly when its ends have different roots; the loop invariant is kept |
| `KruskalMst.SpareRoots` | CA/Kruskal.java:94-101 | when no accepted edge touches vertex 0 and there is a vertex 1, at most `vertices - 1` edges are accepted |
| `KruskalMst.LinkedLift` | CA/Kruskal.java:94-101 | vertices connected by the input edges are connected by the accepted edges once every input edge's ends are |
| `KruskalMst.OneTree` | CA/Kruskal.java:94-101 | when no accepted edge touches vertex 0 and the accepted edges connect vertex 1 to every vertex, exactly `vertices - 1` edges are accepted |
| `KruskalMst.ConsiderAll` | CA/Kruskal.java:88-102 | starting from every parent at -1 and no accepted edge, considering each sorted edge in turn ends with the whole invariant at the end of the list: a forest of the accepted edges that is the greedy choice, with every considered edge's ends connected |
| `KruskalMst.GreedySorted` | CA/Kruskal.java:85-102 | the greedy choice from a weight-sorted list keeps only edges of that list, and is itself sorted by weight |
| `KruskalMst.KruskalDone` | CA/Kruskal.java:94-102 | after the pass over a weight-sorted permutation of the input: accepted weights are nondecreasing; no accepted edge closes a cycle with earlier ones; accepted edges come from the input; every input edge's ends are connected by the accepted edges |
| `KruskalMst.KruskalSize` | CA/Kruskal.java:94-102 | after the pass: at most `vertices` edges are accepted, at most `vertices - 1` when no input edge touches vertex 0, and exactly `vertices - 1` when in addition every vertex 1..`vertices` is connected to vertex 1 by the input edges |
| `KruskalMst.Kruskal` | CA/Kruskal.java:83-109 | the list is left sorted by the stable sort; the accepted edges are exactly the greedy choice from that sorted list, in sorted order; they come from the input with nondecreasing weights; none closes a cycle; the ends of every input edge are connected; at most `vertices - 1` edges when ids start at 1, and exactly `vertices - 1` when vertices 1..`vertices` are connected |
| `KruskalMst.TriangleScenario` | CA/Kruskal.java:94-101 | on the triangle 1-2 (1), 2-3 (2), 1-3 (3) the accepted edges are 1-2 and 2-3, and 1-3 is rejected |
| `LinkedStack.NewStack` | StackTest.java:12-15 | a new stack is empty |
| `LinkedStack.Push` | StackTest.java:17-22 | the pushed value is on top, with the previous contents unchanged beneath it |
| `LinkedStack.Pop` | StackTest.java:39-46 | on a non-empty stack, returns the top value and leaves exactly the rest; on an empty stack, reports the empty list, returns 0 and leaves the stack unchanged |
| `LinkedStack.Display` | StackTest.java:51-60 | emits the values from top to bottom |
| `LinkedStack.PopPush` | StackTest.java:17-46 | `pop` right after `push(x)` returns `x` and restores the previous stack |
| `LinkedStack.PushAllReverses` | StackTest.java:17-22 | after a series of pushes the stack shows the pushed values in reverse order, above the old contents |
| `LinkedStack.PopAllAfterPushAll` | StackTest.java:39-42 | after a series of pushes, `pop` returns the last value pushed and leaves the stack as it was before that push |
| `LinkedStack.MainScenario` | StackTest.java:72-78 | pushing 10, 3, 11, 7 shows 7 11 3 10; `pop` then returns 7 and leaves 11 3 10 |

## Left out

- `main` and `readGraphFromFile` of both graph programs, and `main` of the
  stack program, are left out: they are console and file input plus a
  `null` result when the file is missing. `Build` models only the
  constructor followed by the `addEdge` calls.
- `toChar` and all printed formatting are left out: results are returned as
  values.
- `Integer.MAX_VALUE` becomes the explicit `Inf`, and all integers are
  unbounded. The overflow of `distances[vertex] + edge.weight` is not
  modelled.
- Java's `PriorityQueue` internals are left out. `poll` returns some
  minimum-weight entry, and ties are left open.
- `GraphPrim.Prim` requires every vertex id to be at least 1 (no entry
  names vertex 0, and the start is at least 1), because the source uses
  parent 0 to mean "no parent". It also requires the start and every list
  entry to be at most `vertices`; the source would throw
  `ArrayIndexOutOfBoundsException` otherwise. It states that each recorded
  edge is a lightest edge leaving the tree built before it (the cut
  property of each step), but not that the whole tree has minimum total
  weight: that needs an exchange argument over all spanning trees.
- `KruskalMst.Kruskal` does not state that the accepted edges have minimum
  total weight, nor that their weight equals Prim's, for the same reason.
  It requires every edge end to lie in `0..vertices`; the source would throw
  `ArrayIndexOutOfBoundsException` otherwise.
- `GraphDijkstra.Dijkstra` requires non-negative weights, which the source
  does not check. With negative weights the source's distances would still
  be weights of walks from the start, finite exactly for reachable
  vertices; only their minimality and the final relaxation inequality
  would fail. The model's loop invariant (a visited vertex is no farther
  than any queue entry) needs non-negative weights, so it covers none of
  that case. It also requires the start and every list entry to lie in
  `0..vertices`; the source would throw `ArrayIndexOutOfBoundsException`
  otherwise.
- `GraphLists.AddEdge` and `GraphLists.Build` require both ends of an
  edge to lie in `0..vertices`. The source throws
  `IndexOutOfBoundsException` otherwise; when only `v2` is out of range,
  `v1`'s list has already been extended. The exception and that partly
  updated graph are not modelled.
- The traversals require the start to lie in `0..vertices` and every list
  entry to name such a vertex. The source would throw otherwise.
- The recursion depth of `depthFirstTraversalHelper` and `find` is not
  modelled (a very deep graph could overflow the Java stack).
- The exception mechanics in `pop` are modelled as an emptiness check,
  which yields the same result. The printed message becomes the
  `reportedEmpty` flag.
