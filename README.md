# A* search over an indexable min-heap, in Dafny

This project models the A* shortest-path search of the repository and the
binary min-heap it uses as its open list. The repository writes both twice,
once in Go (`astar_algo.go`) and once in Python (`astar_algo.py`,
`min_heap.py`). The model then proves what the search promises.

- `wrappers.dfy` (module `Wrappers`) defines `Option`. It models `nil`/`None`,
  the empty result of `remove` and a missing predecessor.
- `min_heap.dfy` (module `IndexedMinHeap`) defines the class `MinHeap`. Its
  fields are the slots `heap` (`array` / `heap`) and the id-to-slot map
  `position` (`nodePositionInHeap`). The methods update them in place, as
  the source's methods do. The ghost map `Contents` (id to priority `f`) is
  the heap's public view. Two invariants are kept:
  - `Indexed()`: `position` is exactly the inverse of `heap`, and both agree
    with `Contents`. `Swap` and `SiftDown` keep it.
  - `Valid()`: `Indexed()` and the min-heap order on `f`. `Remove`, `Insert`
    and `Update` keep it. The constructor and `BuildHeap` establish it from
    any indexed slots. `SiftUp` establishes it from slots that are out of
    order at one slot only. `SiftDown` orders only the range it works on,
    and a single `Swap` can break the order.

  The loops of `siftDown` and `siftUp` are `while` loops. Each is proved
  through a step lemma that keeps its invariant.
- `astar.dfy` (module `AStar`) defines the driver:
  - `initializeNodes`;
  - the relaxation of one edge;
  - the search loop, split into the outer loop `RunSearch` and the
    neighbour loop `RelaxNeighbors`;
  - `backtrackPath`;
  - Go's in-place `reverse` over an `array`.

  The search records live in a sequence indexed by vertex id, and a
  predecessor is the id of another record. The graph is an adjacency list
  of `Edge(to, distance)` entries with non-negative integer weights. The
  heuristic is a table of non-negative integers.

What is proved about the search (`AStar.AStarSearch`):

- **Termination.** Every relaxation lowers the number of unreached vertices
  or the sum of the finite `g` values. Otherwise the open list shrinks.
- **The returned path is well formed.** It is empty exactly when the target
  has no predecessor, and otherwise:
  - it runs from the start (`g = 0`) to the target;
  - each node is the final record of its vertex;
  - consecutive nodes are predecessor links along real edges;
  - no vertex repeats;
  - its edge weights add up to at most the target's `g`.
- **Completeness.** If the target is reachable from a different start
  vertex, the path is not empty. The source's early exit is taken into
  account.
- **Optimality under a consistent heuristic.** The heuristic is consistent
  when `h(u) <= w + h(v)` for every edge and `h(target) = 0`. Then:
  - the target's final `g` is at most the cost of every walk from the start;
  - the returned path is a shortest walk;
  - its cost equals that `g`.

  The key invariant, `FrontierOnWalk`, holds between two expansions: every
  walk from the start either is already matched by `g`, or crosses the open
  list at a vertex that `g` matches. Popping the target with the least `f`
  therefore settles it. This is the source's early exit at
  astar_algo.go:26-28.

The search records are acyclic through predecessor links. This follows
from two ghost sequences:

- `via` names the edge each link uses;
- `rank` orders links made at equal `g`.

Along a link, the pair `(g, rank)` strictly decreases. This is also what
makes the walk of `backtrackPath` terminate.

## Model

| member | source | states |
|---|---|---|
| IndexedMinHeap.Parent | astar_algo.go:179-184 | the parent slot is below its child, and the child is `2p+1` or `2p+2` |
| IndexedMinHeap.RootIsMinimum | min_heap.py:14-22 | in a min-heap no slot has a smaller `f` than the root |
| IndexedMinHeap.InverseHasDistinctIds | astar_algo.go:109-112 | when the position map is the inverse of the slots, no id sits in two slots |
| IndexedMinHeap.RootIsMinimal | astar_algo.go:135-147 | the root's `f` is the smallest priority of all ids in the heap |
| IndexedMinHeap.DropLastKeepsRepresents | astar_algo.go:141-144 | dropping the last slot and deleting its id from the map keeps slots, map and contents in agreement |
| IndexedMinHeap.ReplaceKeepsRepresents | astar_algo.go:197-200 | writing a lower `f` into a node's own slot keeps the views in agreement and breaks the order only above that slot |
| IndexedMinHeap.RootSwappedOut | astar_algo.go:140-145 | after the root is swapped to the end and dropped, only pairs whose parent is the root can be out of order |
| IndexedMinHeap.MinHeap.constructor | astar_algo.go:114-126 | given nodes with distinct ids, the map records every slot and the result is a valid min-heap holding exactly those ids with their `f` |
| IndexedMinHeap.MinHeap.BuildHeap | astar_algo.go:128-133 | sifting down every parent from the last one back to the root turns any indexed slots into a min-heap with the same contents |
| IndexedMinHeap.MinHeap.Remove | astar_algo.go:135-147 | on an empty heap: no result and no change; otherwise returns the old root, which has the least `f` of all ids, and removes exactly that id, keeping the heap valid |
| IndexedMinHeap.MinHeap.Insert | astar_algo.go:149-153 | adds exactly the new id with its `f` and keeps the heap valid |
| IndexedMinHeap.MinHeap.SiftDown | astar_algo.go:155-176 | orders the subtree below `currentIdx` within `endIdx`, leaves the slots outside `currentIdx..endIdx` and the contents untouched, and keeps the map the inverse of the slots |
| IndexedMinHeap.MinHeap.SiftUp | astar_algo.go:178-186 | repairs a heap that is out of order only at one slot, keeping its contents |
| IndexedMinHeap.MinHeap.ContainsNode | astar_algo.go:188-191 | true exactly when some slot holds the id, that is, when the id is in the contents |
| IndexedMinHeap.MinHeap.IsEmpty | astar_algo.go:193-195 | true exactly when there are no slots, that is, no ids |
| IndexedMinHeap.MinHeap.Update | astar_algo.go:197-200 | given a queued id whose `f` has not grown, the contents map that id to the new `f` and the heap stays valid |
| IndexedMinHeap.MinHeap.Swap | astar_algo.go:202-206 | exchanges two slots and their two map entries; the map stays the inverse of the slots and the contents do not change |
| IndexedMinHeap.SmallerChild | astar_algo.go:158-166 | the chosen child is within `endIdx` and has the least `f` of the children there |
| IndexedMinHeap.SiftDownStep | astar_algo.go:168-171 | swapping with the smaller child when it is strictly smaller keeps the sift-down invariant one level lower |
| IndexedMinHeap.SiftDownDone | astar_algo.go:172-174 | stopping when no child is smaller leaves the whole subtree ordered |
| IndexedMinHeap.SiftUpStep | astar_algo.go:180-184 | swapping a slot with its larger parent moves the only disorder up to the parent |
| IndexedMinHeap.SiftDownAsWritten | min_heap.py:31-44 | the Python sift-down as written only permutes the slots |
| IndexedMinHeap.PythonBuildHeapNotAHeap | min_heap.py:7-11 | with `f` values 3, 2, 1 the Python heap construction leaves 2 above 1, so the result is not a min-heap |
| AStar.InitializeNodes | astar_algo.go:65-77 | one record per vertex, with its own id, `h` from the table, `g` and `f` infinite, and no predecessor |
| AStar.Relax | astar_algo.go:42-50 | no change exactly when `g(current) + w` is not below the neighbour's `g`; otherwise the neighbour's `g` strictly drops to `g(current) + w`, with `f = g + h` and `current` as predecessor |
| AStar.ReplaceShifts | astar_algo.go:48 | rewriting one record changes the count of unreached vertices and the sum of finite `g` values by exactly its own share |
| AStar.LowerGLowersMeasure | astar_algo.go:42-48 | lowering one vertex's `g` lowers the pair (unreached count, sum of `g`) lexicographically |
| AStar.HeuristicAlongWalk | astar_algo.go:104 | under a consistent heuristic, cost so far plus estimate never decreases along a walk |
| AStar.InitialState | astar_algo.go:9-19 | the start with `g = 0`, `f = h` and alone in the open list satisfies the search invariant |
| AStar.PopKeeps | astar_algo.go:25 | removing an id from the open list begins its expansion, with no edge relaxed, and the invariant holds |
| AStar.SkipKeeps | astar_algo.go:42-45 | an edge that does not improve its target is settled, and the invariant holds one edge further |
| AStar.RelaxKeeps | astar_algo.go:47-57 | an improving edge leads to another vertex whose new `f` is not above its queued priority; the updated records and open list keep the invariant, and the termination measure drops |
| AStar.FrontierOnWalk | astar_algo.go:23-61 | between expansions, every walk from the start is matched by `g` at its end, or crosses the open list at a vertex that `g` matches |
| AStar.ExhaustedSearchBoundsWalks | astar_algo.go:23 | once the open list is empty, each vertex's `g` is finite and at most the cost of every walk from the start to it |
| AStar.TargetPoppedBoundsWalks | astar_algo.go:25-28 | under a consistent heuristic, a target of least `f` in the open list has a `g` at most the cost of every walk from the start |
| AStar.Reversed | astar_algo.py:79 | the result has the same length, and element `i` is element `n-1-i` of the input |
| AStar.Reverse | astar_algo.go:94-99 | the array afterwards holds its old contents reversed |
| AStar.PredecessorLink | astar_algo.go:86-89 | following a predecessor link is a step along an edge to a record strictly lower in `(g, rank)`; a reached record without a predecessor is the start |
| AStar.ReverseOf | astar_algo.go:91 | returns the reversal of the collected nodes |
| AStar.BacktrackStep | astar_algo.go:86-89 | appending the current record and moving to its predecessor keeps the backtracking invariant |
| AStar.BacktrackPath | astar_algo.go:79-92 | empty exactly when the target has no predecessor; otherwise runs from the start's record to the target's, every node being its vertex's record, consecutive nodes linked along an edge, no vertex repeated |
| AStar.ReversedChain | astar_algo.go:91 | reversing a target-first chain of predecessor links gives a start-first chain with the same distinct ids |
| AStar.AStarSearch | astar_algo.go:8-63 | the path is empty exactly when the target has no predecessor, and otherwise runs from the start to the target along edges, with no repeated vertex and a cost at most the target's `g`; if the target is reachable from a different start, the path is not empty; under a consistent heuristic the path is a shortest walk whose cost is the target's `g` |
| AStar.RunSearch | astar_algo.go:9-61 | ends with well-formed records and acyclic predecessor links; the target is reached or no walk reaches it; under a consistent heuristic the target's `g` is at most every walk's cost |
| AStar.RelaxNeighbors | astar_algo.go:30-58 | relaxes every edge of the expanded vertex, keeping the search invariant and the heap valid, without raising the termination measure; afterwards the expanded vertex's record is unchanged, every untouched record keeps its open-list membership and priority, and every changed record has a strictly lower `g`, equal to `g` of the expanded vertex plus the weight of one of its edges to it, that vertex as predecessor, and sits in the open list with its new `f` |
| AStar.RelaxedSkip | astar_algo.go:42-45 | an edge that improves nothing leaves the changes of the neighbour loop as they were |
| AStar.RelaxedStep | astar_algo.go:47-57 | relaxing an improving edge and queueing its target with the new `f` adds exactly that change to the changes of the neighbour loop |
| AStar.PathIsWalk | astar_algo.go:79-92 | the ids of a chain of predecessor links form a walk whose cost is at most the rise in `g` along it |
| AStar.ChainEdges | astar_algo.go:86-89 | every step of a chain of predecessor links uses an edge of the graph that keeps `g(a) + w <= g(b)` |
| AStar.PrefixCostBelowRise | astar_algo.go:42-50 | along such a walk, the cost of every prefix is at most the rise in `g` up to there |

## Left out

- I/O and the two `main` demos (astar_algo.go:208-243, astar_algo.py:82-125) are not modelled. Their printed result for the six-vertex example is not proved either: the search is a method over a heap object, so a proof cannot evaluate it.
- Weights are non-negative integers and the sentinel is `Inf`. Python's `float("inf")` and Go's `math.MaxInt32` are both modelled as `Inf`. The model does not capture Go's 32-bit overflow, or the case where a finite `g` reaches `math.MaxInt32`. Negative weights are not modelled.
- Nodes are compared by id rather than by pointer identity. The heap holds `(id, f)` copies, not pointers into the records. So `IndexedMinHeap.MinHeap.Update` receives the new `f` and writes it into the slot before sifting up, where the source's heap already sees the changed node through the pointer. Aliasing between the heap and the records is not modelled.
- `AStar.AStarSearch` returns copies of the final records instead of pointers to them. The final records are exposed only as the ghost `records`.
- Ids out of range of the graph or the heuristic table are excluded by preconditions, where the source would fail at run time.
- `IndexedMinHeap.MinHeap.constructor` requires distinct ids. The source is only ever called with a single node, and with a repeated id its map would be wrong.
- `IndexedMinHeap.MinHeap.Insert` requires an id that is not yet queued, and `IndexedMinHeap.MinHeap.Update` requires one that is, with an `f` that has not grown. These are the source's unstated preconditions; the driver meets them.
- `IndexedMinHeap.MinHeap.BuildHeap` starts at `(len - 2) / 2` with Euclidean division. For a single node this gives `-1`, as Python's floor division does; Go's truncating division gives `0`, which only adds a sift-down that does nothing.
- `AStar.AStarSearch`: each step of the path is only proved to keep `g(u) + w <= g(v)`, and the path's cost to be at most the target's `g`. This is the invariant that holds for all records during the search, where a predecessor's `g` can drop after the link was made. Equality of the path's cost with the target's `g` is only proved under a consistent heuristic, where it follows from optimality. For the returned path, equality is expected for any heuristic, but proving it needs an argument over the order of the pops, which the model does not carry.
- The commented-out closed list and the complexity annotations are not modelled.

## Findings

| source | as written | input that shows it | evidently intended | confidence | as-written member | corrected member |
|---|---|---|---|---|---|---|
| min_heap.py:34 | the second child index is `currentIdx*2 + 1`, the same slot as the first child, so the right child is never compared | three nodes with `f` values 3, 2, 1: `buildHeap` swaps the root with the left child only and leaves `f = 2` above `f = 1` | `currentIdx*2 + 2`, as astar_algo.go:158 has | high; not executed | IndexedMinHeap.PythonBuildHeapNotAHeap | IndexedMinHeap.MinHeap.SiftDown |
