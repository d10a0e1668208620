# Pathfinding grid, priority queue and searches — a Dafny model

This project models the logic of a Unity pathfinding demo. Three pieces are covered:

- **The grid.** `NodeGrid` holds a row-major list of `Node` records. Node (x, y) sits at position `x + y * width`. `AlterSize` rebuilds the list for new dimensions. It keeps the nodes of the overlapping rectangle and gives every node its position and four edge references (`NodePoint`s). Each edge's `connected` flag is false at the border.
- **The priority queue.** `PriorityQueue<T>` is an unbalanced binary search tree, not a heap:
  - an entry goes left only below a node of strictly greater priority;
  - `Dequeue` detaches the leftmost node and splices its right subtree into the parent's left link, or into the root.
- **The four searches.**
  - Breadth-first: a FIFO queue; neighbours are checked Right, Down, Left, Up.
  - Depth-first: a LIFO stack; neighbours are pushed in the reverse of `GetDirection`'s order.
  - Dijkstra: the priority queue keyed by `CostToStart`, pruned with `distanceToEnd`; it drains the whole queue.
  - A\*: priority is `CostToStart` plus the Manhattan distance; it stops at the first goal dequeue.

  Each search writes the two transient fields of the nodes, `PathfindingNode` and `CostToStart`. It then walks the predecessors back from the goal.

How the model is laid out:

- Node records are a `datatype`. The grid is a `class NodeGrid` whose `grid` field (a `seq<Node>`), `width` and `height` are updated in place.
- A node's `PathfindingNode` is held as the node's position in the list (`Option<nat>`).
- The priority queue is a `class PriorityQueue<T>` holding a value tree and `Count`. `Dequeue` keeps the source's `current`/`previous` walk down the left spine.
- The searches are methods with loop invariants:
  - breadth-first and depth-first keep a claim invariant;
  - Dijkstra and A\* keep a relaxation invariant.
- Each search ends in one of three outcomes:
  - `PathFound(path)`, a route from the goal back to the start along `PathfindingNode`;
  - `NoPath`, the frontier ran empty;
  - `NullReference`, the reconstruction dereferences a null predecessor. The source does this when the goal equals the start in breadth-first and depth-first search, and when the goal is unreachable in Dijkstra's search.

Modules and files:

| file | module | models |
|---|---|---|
| wrappers.dfy | Wrappers | `Option`, `Result` |
| entries.dfy | PriorityOrder | queue entries as a priority-sorted sequence; stable insertion |
| priority_queue.dfy | PriorityQueues | `PriorityNode<T>` tree, `FindNodePosition`, `PriorityQueue<T>` |
| node.dfy | Nodes | `Node`, `NodePoint`, defaults, the transient search fields |
| grid_index.dfy | GridIndex | the row-major index `x + y * width` |
| node_grid.dfy | Grid | `NodeGrid`: `GetNode`, `Clear`, `Count`, `AlterSize`, the reset loop |
| direction.dfy | Directions | `GetDirection`, `Heuristic` |
| search_state.dfy | SearchState | edges, predecessor chains, path reconstruction, walks, route cost |
| unweighted_search.dfy | UnweightedSearch | `BreadthFirstSearch`, `DepthFirstSearch` |
| weighted_search.dfy | WeightedSearch | `DijkstraSearch`/`DijkstraNodeCheck`, `AStar`/`AStarNodeCheck` |

## Model

| member | source | states |
|---|---|---|
| PriorityOrder.InsertSortedKeepsSorted | Assets/Scripts/PriorityQueue.cs:45-71 | placing an entry after every entry of priority at most its own keeps a priority-sorted sequence sorted |
| PriorityOrder.InsertSortedAdds | Assets/Scripts/PriorityQueue.cs:24-37 | an insertion adds exactly the new entry: the multiset grows by that entry and by nothing else |
| PriorityOrder.InsertSortedIsStable | Assets/Scripts/PriorityQueue.cs:17-21 | "if the same priority, works like a regular queue": among entries of any one priority the new entry comes after all earlier ones, and their order is kept |
| PriorityOrder.SortByPriorityIsStableSort | Assets/Scripts/PriorityQueue.cs:17-37 | entries enqueued one after another into an empty queue end up sorted by priority, as a permutation of the input, with equal priorities in insertion order |
| PriorityOrder.InsertSortedBounds | Assets/Scripts/PriorityQueue.cs:47-70 | an insertion keeps every priority below a bound (or at least a bound) when the new entry's is too; this is the left and right subtree condition |
| PriorityQueues.SearchTreeIsSorted | Assets/Scripts/PriorityQueue.cs:45-71 | the in-order sequence of a tree with left priorities strictly below and right priorities at or above each node is sorted |
| PriorityQueues.HangLeft | Assets/Scripts/PriorityQueue.cs:47-58 | descending left under a node of strictly greater priority adds the entry to the node's in-order sequence at its sorted place and keeps the search-tree condition |
| PriorityQueues.HangRight | Assets/Scripts/PriorityQueue.cs:59-70 | descending right under a node of lower or equal priority does the same, placing the entry after the node's equal priorities |
| PriorityQueues.FindNodePosition | Assets/Scripts/PriorityQueue.cs:45-71 | the recursive descent adds exactly one entry; on a search tree the result is a search tree whose in-order sequence is the old one with the entry inserted stably |
| PriorityQueues.FrontAtMost | Assets/Scripts/PriorityQueue.cs:85-92 | in a search tree the node and everything left of it are at most the node's priority |
| PriorityQueues.LeftAtStep | Assets/Scripts/PriorityQueue.cs:86-92 | one step of the `current = current.Left` walk moves one level down the left spine |
| PriorityQueues.SetLeftAtChangesOneLink | Assets/Scripts/PriorityQueue.cs:108-120 | rewriting `previous.Left` changes only that link: every node on the spine above keeps its item, priority and right subtree |
| PriorityQueues.SpliceLeftmost | Assets/Scripts/PriorityQueue.cs:108-120 | replacing the parent's left link with the leftmost node's right subtree removes exactly the first in-order entry |
| PriorityQueues.SpliceKeepsSearchTree | Assets/Scripts/PriorityQueue.cs:108-120 | that splice keeps the search-tree condition |
| PriorityQueues.LeftmostIsMinimal | Assets/Scripts/PriorityQueue.cs:85-92 | the leftmost entry of a search tree has a priority at most every stored priority |
| PriorityQueues.PriorityQueue.constructor | Assets/Scripts/PriorityQueue.cs:6-16 | a new queue is empty with Count 0 and satisfies the search-tree invariant |
| PriorityQueues.PriorityQueue.Enqueue | Assets/Scripts/PriorityQueue.cs:24-37 | the contents become the old contents with the entry inserted stably by priority, at the root when empty; Count grows by one; the invariant is kept |
| PriorityQueues.PriorityQueue.Dequeue | Assets/Scripts/PriorityQueue.cs:78-125 | on an empty queue it returns the default (None) and changes nothing; otherwise it returns the first entry's item, of minimal priority, the contents lose exactly that entry, Count drops by one, and the invariant is kept |
| Nodes.NewNode | Assets/Scripts/Node.cs:6-45 | a new node is traversable with travel cost 1, has no predecessor, CostToStart int.MaxValue, and null position and edges |
| Nodes.ClearSearchStateRestoresDefaults | Assets/Scripts/Node.cs:28-44 | clearing the transient fields keeps the configuration, restores the new-node defaults, and changes a node iff it had search state |
| GridIndex.IndexInRange | Assets/Scripts/NodeGrid.cs:582-585 | an in-bounds coordinate maps to a position inside a width-by-height list |
| GridIndex.IndexInjective | Assets/Scripts/NodeGrid.cs:582-585 | distinct in-bounds coordinates map to distinct positions |
| GridIndex.Coordinates | Assets/Scripts/NodeGrid.cs:582-585 | every position of the list is the index of exactly the coordinate (k % width, k / width) |
| GridIndex.CoordinatesOfIndex | Assets/Scripts/NodeGrid.cs:582-585 | the index of (x, y) gives back x and y |
| Grid.ResizedCell | Assets/Scripts/NodeGrid.cs:610-675 | after a resize, cell (x, y) holds the carried node placed at (x, y) |
| Grid.ResizedKeepsOverlap | Assets/Scripts/NodeGrid.cs:622-631 | inside the overlap a resized cell keeps the old node's traversability, travel cost and search state; outside it is a new node's |
| Grid.ResizedIsLaidOut | Assets/Scripts/NodeGrid.cs:612-673 | a resized list has width * height nodes (none if a dimension is below 1), each at its own coordinates with edges to its four neighbours, connected exactly inside the grid |
| Grid.ClearedKeepsLayout | Assets/Scripts/NodeGrid.cs:147-150 | the reset loop keeps the layout and the size invariant |
| Grid.NodeGrid.constructor | Assets/Scripts/NodeGrid.cs:13-27 | a new grid is empty with width and height -1 |
| Grid.NodeGrid.GetNode | Assets/Scripts/NodeGrid.cs:582-585 | GetNode(x, y) succeeds exactly when x + y * width is a position of the list, and returns that node; otherwise it is the out-of-range error |
| Grid.NodeGrid.GetNodeAtPoint | Assets/Scripts/NodeGrid.cs:592-595 | GetNode(point) is GetNode(point.x, point.y) |
| Grid.NodeGrid.Count | Assets/Scripts/NodeGrid.cs:681-684 | the number of nodes, which is width * height once the grid is laid out |
| Grid.NodeGrid.Clear | Assets/Scripts/NodeGrid.cs:600-603 | the list becomes empty and the dimensions are kept |
| Grid.NodeGrid.ResetSearchState | Assets/Scripts/NodeGrid.cs:147-150 | every node's predecessor becomes null and CostToStart int.MaxValue; nothing else changes, and the layout invariant is kept |
| Grid.NodeGrid.AlterSize | Assets/Scripts/NodeGrid.cs:610-675 | the dimensions become the requested ones and the list becomes the resized list; with both dimensions at least 1 the grid is laid out |
| Grid.NodeGrid.NewNodes | Assets/Scripts/NodeGrid.cs:612-620 | the first pass fills newWidth * newHeight new nodes |
| Grid.NodeGrid.CopyShared | Assets/Scripts/NodeGrid.cs:622-631 | the copy pass puts the old node at each overlapping coordinate, keeping the new nodes elsewhere |
| Grid.NodeGrid.Connect | Assets/Scripts/NodeGrid.cs:639-673 | the connection pass leaves exactly the resized list: positions and four edges of every node, with the border flags |
| SearchState.LaidOutIsWellLinked | Assets/Scripts/NodeGrid.cs:639-673 | after a resize every node's position and edges are set, and each connected edge leads to the node one cell away in that direction |
| SearchState.ClearedIsReset | Assets/Scripts/NodeGrid.cs:147-150 | after the reset loop no node has search state, and every edge still leads where it did |
| SearchState.ClaimCountsDown | Assets/Scripts/NodeGrid.cs:205-224 | claiming an unclaimed node leaves one unclaimed node fewer |
| SearchState.TraceToStart | Assets/Scripts/NodeGrid.cs:359-363 | following PathfindingNode from a node back to the start dereferences null exactly when the node was never reached; otherwise the walk is a repetition-free route along predecessor links |
| SearchState.TraceFromPredecessor | Assets/Scripts/NodeGrid.cs:182-195 | the reconstruction from the goal's predecessor fails on a goal without a predecessor, and for a reached goal other than the start yields a route from the goal back to the start with at most rank(goal) + 1 cells, where rank counts the predecessor steps to the start |
| SearchState.RankDescendsBound | Assets/Scripts/NodeGrid.cs:187-192 | a sequence of cells whose ranks fall by one per step, from a cell of rank r, has at most r + 1 cells |
| SearchState.RouteIsWalk | Assets/Scripts/NodeGrid.cs:187-192 | a reconstructed route, read from the start, is a walk along connected edges into traversable nodes from the start to the goal |
| SearchState.ClosedBlocksWalks | Assets/Scripts/NodeGrid.cs:178-229 | once every reached node has been expanded, every walk from the start ends at a reached node |
| SearchState.RouteCostBound | Assets/Scripts/NodeGrid.cs:359-363 | when costs descend along predecessor links, a route's total travel cost is at most the goal's CostToStart |
| SearchState.RouteCostIsWalkCost | Assets/Scripts/NodeGrid.cs:359-363 | a route's travel cost equals the travel cost of the same cells read from the start as a walk, each step paying for the cell it enters |
| Directions.GetDirection | Assets/Scripts/NodeGrid.cs:484-571 | the order is a permutation of the four directions, the last two opposite the first two; the first is on the x-axis iff abs(dx) < abs(dy), and the second is on the other axis; Left or Up is among the first two iff its delta is negative |
| Directions.Heuristic | Assets/Scripts/NodeGrid.cs:473-476 | the Manhattan distance is zero exactly at the same coordinates |
| Directions.HeuristicAlongSteps | Assets/Scripts/NodeGrid.cs:473-476 | the Manhattan distance never exceeds the number of unit steps of a walk to the target, so the estimate is admissible for travel costs of at least 1 |
| UnweightedSearch.StartExploring | Assets/Scripts/NodeGrid.cs:173-174 | a reset grid with only the start in the frontier satisfies the claim invariant |
| UnweightedSearch.TakeKeepsExploring | Assets/Scripts/NodeGrid.cs:178-181 | taking a node other than the goal off the frontier keeps the invariant, with that node pending |
| UnweightedSearch.ClaimKeepsLinks | Assets/Scripts/NodeGrid.cs:205-209 | setting a predecessor changes no edge and loses no reached node |
| UnweightedSearch.ClaimKeepsForest | Assets/Scripts/NodeGrid.cs:205-209 | a claim extends the predecessor chains: the claimed node ranks one above its claimer |
| UnweightedSearch.ClaimKeepsClosure | Assets/Scripts/NodeGrid.cs:205-209 | after a claim the claimed node is in the frontier, so the checked direction is covered |
| UnweightedSearch.UnclaimableIsCovered | Assets/Scripts/NodeGrid.cs:205-224 | a failed claim guard (unconnected, blocked, claimed or queued) leaves that direction covered |
| UnweightedSearch.ClaimKeepsExploring | Assets/Scripts/NodeGrid.cs:205-224 | one neighbour check keeps the claim invariant and does not raise the termination measure |
| UnweightedSearch.CheckNeighbour | Assets/Scripts/NodeGrid.cs:205-209 | when the edge is connected to a traversable, unclaimed node not in the frontier, that node is appended and takes the current node as predecessor; otherwise nothing changes |
| UnweightedSearch.ClaimNeighbour | Assets/Scripts/NodeGrid.cs:205-224 | one neighbour check keeps the invariant with that direction done, and does not raise the measure |
| UnweightedSearch.ClaimKeepsFrontier | Assets/Scripts/NodeGrid.cs:205-209 | every frontier node stays reached after a claim |
| UnweightedSearch.GoalTaken | Assets/Scripts/NodeGrid.cs:182-195 | when the goal is taken off the frontier it is reached, and the predecessors lead back to the start |
| UnweightedSearch.NoWalkToUnreached | Assets/Scripts/NodeGrid.cs:178-229 | with the frontier empty, the goal is unreached and no walk from the start ends at it |
| UnweightedSearch.ExpansionDone | Assets/Scripts/NodeGrid.cs:204-224 | a pending node with all four directions checked is expanded |
| UnweightedSearch.ExpandBreadthFirst | Assets/Scripts/NodeGrid.cs:204-224 | the Right, Down, Left, Up checks of one step keep the claim invariant and the breadth-first layers, and do not raise the measure |
| UnweightedSearch.StartLayered | Assets/Scripts/NodeGrid.cs:173-174 | the start alone in the queue, at rank 0, satisfies the layer invariant |
| UnweightedSearch.TakeKeepsLayers | Assets/Scripts/NodeGrid.cs:178-181 | taking the front of the queue keeps the layers: a node other than the start raises the level to its own rank, which is the smallest rank queued |
| UnweightedSearch.ClaimKeepsLayers | Assets/Scripts/NodeGrid.cs:205-209 | a claim ranks the claimed node one above its claimer, keeping the queue in rank order and every reached rank at most one above the level |
| UnweightedSearch.ClaimInLayers | Assets/Scripts/NodeGrid.cs:205-224 | one neighbour check keeps both the claim invariant and the layers, with that direction's edge leading at most one rank up |
| UnweightedSearch.LayersDone | Assets/Scripts/NodeGrid.cs:204-224 | once the four directions are checked, every edge of the expanded node leads at most one rank up |
| UnweightedSearch.LayersBoundWalk | Assets/Scripts/NodeGrid.cs:178-229 | a walk of k steps from the start ends at a reached node of rank at most k, or some queued node other than the start has rank at most k |
| UnweightedSearch.GoalIsNearest | Assets/Scripts/NodeGrid.cs:182-195 | when the goal is at the front of the queue, its rank is at most the step count of every walk from the start to it |
| UnweightedSearch.ExpandDepthFirst | Assets/Scripts/NodeGrid.cs:274-309 | the checks in the reverse of the direction order keep the invariant and do not raise the measure |
| UnweightedSearch.BreadthFirstSearch | Assets/Scripts/NodeGrid.cs:166-229 | the search terminates and changes only predecessors; it fails on a null predecessor exactly when the goal is the start; a found path is a route from the goal to the start; with no path the goal is unreached and no walk from the start reaches it; a found path has no more cells than any walk from the start to the goal, so it takes the fewest steps |
| UnweightedSearch.DepthFirstSearch | Assets/Scripts/NodeGrid.cs:237-312 | the same outcomes for the stack-based search |
| WeightedSearch.CostForestIsForest | Assets/Scripts/NodeGrid.cs:375-389 | with travel costs of at least 1, relaxed predecessor links form chains back to the start along which CostToStart strictly falls |
| WeightedSearch.TotalCostNonNegative | Assets/Scripts/NodeGrid.cs:334-357 | the termination measure's cost sum is non-negative while all costs are |
| WeightedSearch.TotalCostUpdate | Assets/Scripts/NodeGrid.cs:384 | changing one node's cost changes the cost sum by exactly the difference |
| WeightedSearch.RelaxKeepsLinks | Assets/Scripts/NodeGrid.cs:384-385 | a relaxation changes only search state, no edge and no travel cost |
| WeightedSearch.RelaxKeepsForest | Assets/Scripts/NodeGrid.cs:375-389 | a relaxation never touches the start or the current node, keeps the cost forest, strictly lowers the cost sum, and loses no reached node |
| WeightedSearch.RelaxKeepsLink | Assets/Scripts/NodeGrid.cs:384-385 | after a relaxation every predecessor link is still relaxed |
| WeightedSearch.EnqueueKeepsQueued | Assets/Scripts/NodeGrid.cs:386 | enqueuing keeps every queued node queued and reached, adds the new one and grows the queue by one |
| WeightedSearch.RelaxKeepsRelaxing | Assets/Scripts/NodeGrid.cs:375-389 | a relaxation and its enqueue keep the weighted invariant, strictly lower the termination measure, and queue the relaxed node at a strictly lower cost |
| WeightedSearch.DequeueKeepsQueued | Assets/Scripts/NodeGrid.cs:336-337 | the dequeued node is reached, and every other queued node stays queued |
| WeightedSearch.StartRelaxing | Assets/Scripts/NodeGrid.cs:326-332 | setting the start's cost to 0 and queuing it establishes the invariant, with the goal reached iff it is the start |
| WeightedSearch.StartSettled | Assets/Scripts/NodeGrid.cs:326-332 | a reset grid with the start at cost 0 and queued satisfies the settle invariant: every reached node with an unchecked edge is still queued at a priority at most its cost plus its estimate |
| WeightedSearch.DequeueKeepsSettled | Assets/Scripts/NodeGrid.cs:336-337 | taking the front entry off keeps the settle invariant, with the dequeued node's four edges pending |
| WeightedSearch.RelaxKeepsSettled | Assets/Scripts/NodeGrid.cs:375-389 | a relaxation queued at no more than the new cost plus the estimate keeps the settle invariant with that edge checked |
| WeightedSearch.SkipKeepsSettled | Assets/Scripts/NodeGrid.cs:375-389 | a check that does not relax keeps the settle invariant, provided any cheaper cost it skips is at least the bound (Dijkstra's distanceToEnd cut-off) |
| WeightedSearch.SettledBoundsWalk | Assets/Scripts/NodeGrid.cs:334-357 | for every walk from the start, the last cell's CostToStart is at most the walk's travel cost, or the bound is, or some queued priority is at most that cost plus the cell's estimate |
| WeightedSearch.NoEstimateConsistent | Assets/Scripts/NodeGrid.cs:375-389 | Dijkstra's priority, CostToStart alone, is a consistent estimate (zero everywhere) |
| WeightedSearch.DijkstraNodeCheck | Assets/Scripts/NodeGrid.cs:375-389 | when the edge is connected to a traversable node whose cost through the current node is below both its CostToStart and distanceToEnd, that node takes the lower cost and the current predecessor and is queued at that cost; otherwise nothing changes |
| WeightedSearch.DijkstraCheckKeeps | Assets/Scripts/NodeGrid.cs:375-389 | one Dijkstra check keeps the invariant and does not raise the measure |
| WeightedSearch.DijkstraRelax | Assets/Scripts/NodeGrid.cs:375-389 | a check with its proof: the invariant is kept and the measure does not rise |
| WeightedSearch.DijkstraExpand | Assets/Scripts/NodeGrid.cs:351-354 | the Right, Left, Up, Down checks keep the invariant and do not raise the measure |
| WeightedSearch.DijkstraDequeueKeeps | Assets/Scripts/NodeGrid.cs:336-343 | dequeuing keeps the invariant, with distanceToEnd reset to the goal's cost on each goal dequeue |
| WeightedSearch.DijkstraDrained | Assets/Scripts/NodeGrid.cs:334-357 | once the queue is empty, distanceToEnd is the goal's CostToStart and no walk from the start to the goal costs less |
| WeightedSearch.DijkstraSearch | Assets/Scripts/NodeGrid.cs:321-366 | the search drains the queue and terminates, changing only search state; it fails on a null predecessor exactly when the goal is unreached; distanceToEnd is the goal's final CostToStart (int.MaxValue if unreached) and is at most the travel cost of every walk from the start to the goal; if some walk to the goal costs less than int.MaxValue a path is found; a found path is a route whose travel cost is at most distanceToEnd, so it is a cheapest one |
| WeightedSearch.AStarNodeCheck | Assets/Scripts/NodeGrid.cs:451-465 | when the edge is connected to a traversable node whose cost through the current node is below its CostToStart, that node takes the lower cost and the current predecessor and is queued at that cost plus the Manhattan distance from the edge's point to the end; otherwise nothing changes |
| WeightedSearch.EdgeEstimate | Assets/Scripts/NodeGrid.cs:451-465 | the Manhattan distance A\* computes from the edge's point is the estimate of the edge's target cell, and the current cell's estimate exceeds it by at most 1 |
| WeightedSearch.ManhattanConsistent | Assets/Scripts/NodeGrid.cs:473-476 | with travel costs of at least 1, the Manhattan distance to the end never drops by more than an edge's travel cost, so it is a consistent estimate |
| WeightedSearch.AStarCheckKeeps | Assets/Scripts/NodeGrid.cs:451-465 | one A\* check keeps the invariant and does not raise the measure |
| WeightedSearch.AStarRelax | Assets/Scripts/NodeGrid.cs:451-465 | a check with its proof: the invariant is kept and the measure does not rise |
| WeightedSearch.AStarExpand | Assets/Scripts/NodeGrid.cs:435-438 | the Right, Left, Up, Down checks keep the invariant and do not raise the measure |
| WeightedSearch.AStarDequeueKeeps | Assets/Scripts/NodeGrid.cs:412-427 | the dequeued node is reached, and if it is not the goal the invariant holds for the rest of the queue |
| WeightedSearch.AStarGoalIsCheapest | Assets/Scripts/NodeGrid.cs:412-427 | when the goal is dequeued at the least priority, its CostToStart is at most the travel cost of every walk from the start to it |
| WeightedSearch.AStarExhausted | Assets/Scripts/NodeGrid.cs:410-442 | when the queue empties without a goal dequeue, the goal is unreached and every walk to it costs at least int.MaxValue |
| WeightedSearch.AStar | Assets/Scripts/NodeGrid.cs:398-442 | the search terminates, changing only search state, and never dereferences a null predecessor; with no path the goal is unreached and every walk to it costs at least int.MaxValue, so a walk costing less always yields a path; a found path is a route whose travel cost is at most the travel cost of every walk from the start to the goal |

## Left out

- Rendering is not modelled: tile spawning in `Start`, material and label assignments, TextMeshPro text and `Debug.Log` have no effect on the logic.
- Input polling and the `searching` flag in `Update` are not modelled. The key dispatch always passes `grid[0]` and `grid[grid.Count - 1]`; the searches here take any two in-range positions. Only the reset loop of `Update` is modelled, as `ResetSearchState`.
- Coroutine pacing (`yield return new WaitForSeconds`) is left out: one loop iteration is one step.
- The inspector editor (Assets/Editor/GridEditor.cs) is not part of this model. `AlterSize` accepts any dimensions, so its clamp to at least 1 is not needed.
- Priorities are `int`, not `float`. Every priority the searches use is an integer cost plus an integer Manhattan distance. A `float` holds such a value exactly below 2^24; rounding of larger priorities, which can reorder or merge them, is not modelled.
- C# `int` overflow of `CostToStart + TravelCost` is not modelled. Costs are unbounded integers, kept between 0 and int.MaxValue by the invariant.
- Grid.NodeGrid.GetNode, Grid.NodeGrid.GetNodeAtPoint: the index `x + y * width` is computed with unbounded integers, not C# `int`. Where the source's sum wraps around (width 3, GetNode(1, 1431655765) reads position 0), the model reports the index as out of range. The searches never pass such coordinates: they look up only the points of connected edges, which lie inside the grid.
- The public `Grid` setter (NodeGrid.cs line 14) is not modelled. It can install a list inconsistent with the dimensions.
- `PathfindingNode` is the predecessor's position in the list, not an object reference. Aliasing between node objects is not modelled; the grid owns its nodes. After a width change, `Grid.ResizedKeepsOverlap` carries that position over unchanged, so it may name a different cell than the node the source's reference points to; the searches reset the field before use, so no search reads such a stale value.
- The `!Contains` test of the breadth-first and depth-first claim guard is modelled as membership in the frontier sequence, which compares positions, not references.
- DijkstraSearch: `distanceToEnd` is a local in the source. Here it is returned as a second result, so its final value can be stated.
- PriorityQueues.PriorityQueue.Dequeue: `default(T)` on an empty queue is modelled as `None`.
- DijkstraSearch, AStar: both require every traversable node to have a travel cost of at least 1 (`PositiveCosts`); the editor permits any integer. Zero is excluded only to keep the proof simple: the predecessor chains are ordered by strictly falling CostToStart. Negative costs change the source's behaviour: two adjacent cells a and b with TravelCost(a) + TravelCost(b) < 0 keep lowering each other's CostToStart, so the search only stops when the C# `int` arithmetic wraps around, which is not modelled.
- BreadthFirstSearch, DepthFirstSearch, DijkstraSearch: all require a grid whose edges lead to the neighbouring cells and whose transient fields are reset (`WellLinked`, `Reset`). AStar requires the grid to be laid out by `AlterSize` (`LaidOut`), because its estimate is read off each cell's coordinates.
- DijkstraSearch, AStar: completeness and optimality hold only for walks costing less than int.MaxValue. This is the source's own cut-off: a cost is accepted only below the initial CostToStart and distanceToEnd, both int.MaxValue.
- DepthFirstSearch: no optimality is stated, as the source promises none.
- ExpandBreadthFirst, ExpandDepthFirst, DijkstraExpand, AStarExpand: the order of the neighbour checks (Right, Down, Left, Up for breadth-first; the reverse of `GetDirection`'s order for depth-first; Right, Left, Up, Down for Dijkstra and A\*) is the order of the calls in their bodies. No contract states it. Among entries of equal priority this order decides which of several cheapest paths Dijkstra and A\* return.
- `NodePoint(x, y)` is modelled by `Nodes.NewPoint`, which stores x and y with `connected` true. It has no contract of its own; `Grid.ResizedIsLaidOut` states the positions it produces.
