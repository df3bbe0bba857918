# Perfect mazes and shortest paths, in Dafny

This project models the core of a small maze laboratory and proves what it
promises:

- **The labyrinth grid.** The class `PrimLabyrinthe` holds a `taille` by
  `taille` grid: `1` is a wall and `0` an open cell. `_voisin` enumerates its
  in-bounds 4-neighbours.
- **The maze generator.** `_generer` is a randomized Prim. It grows a tree of
  cells at odd coordinates and breaks exactly the wall halfway between a
  visited cell and a newly reached one.
- **Breadth-first search.** `bfs` runs on the grid and reads its path back
  along a parent map.
- **A\* search.** `astar_manhattan` and `astar_euclidienne` share one loop: a
  heap of `(f, g, tie, node)` entries with lazy deletion of stale entries, a
  `gscore` table, and a parent map read back by `reconstruire_chemin`.

Modules follow the program:

- `Grid`: cells, adjacency, walks, the neighbour list, the Manhattan distance.
- `Frontier`: the generator's `(wall, source, target)` records and the
  odd/even layout.
- `PrimInvariant`: the generator's loop invariant and what it yields.
- `BfsInvariant`: the breadth-first search's invariant.
- `Labyrinth`: the class `PrimLabyrinth` with `grid`, the neighbour method,
  the generator and `Bfs`.
- `Heap`: the open list.
- `AStarSteps`: one pop of the A\* loop as a relation between two states
  (`Step`), the relaxation of a popped cell's neighbours (`Relax`), and runs of
  the loop as sequences of states (`Trace`).
- `AStarSearch`: the invariant of the A\* loop, parameterised by the
  heuristic, the relaxation loop `Expand`, and the path read-back.
- `AStarLoop`: the A\* loop itself (`Pops`) and its driver (`Search`).
- `AStar`: the two heuristics, their admissibility, and the two entry points.
- `Wrappers`: `Option`.

The grid is a field `grid: seq<seq<int>>` of the class. Each write replaces
one entry. Randomness is an oracle `choose(k, n)` that answers the `k`-th draw
among `n` choices. The maze generator's result is stated on ghost outputs:

- the visited cells;
- the tree map (each cell to the cell it was reached from);
- the broken walls;
- the order of the visits.

Together they describe the spanning tree the generator builds.

## Model

| member | source | states |
|---|---|---|
| Labyrinth.PrimLabyrinth.constructor | PrimLabytinthe.py:6-12 | the grid is `taille` by `taille` and every entry is a wall (1) |
| Labyrinth.PrimLabyrinth.Neighbours | PrimLabytinthe.py:14-21 | the result is the in-bounds cells among `(0,1),(0,-1),(1,0),(-1,0)` in that order; at most 4 distinct cells; a cell is listed exactly when it is in bounds and shares a side with `(x, y)` |
| Grid.NeighbourListMembers | PrimLabytinthe.py:14-21 | the neighbour list has at most four distinct cells, and membership is equivalent to being in bounds and adjacent |
| Grid.KeepInBoundsMembers | PrimLabytinthe.py:17-20 | the bounds filter keeps exactly the in-bounds members, never lengthens the list, and keeps distinct cells distinct |
| Grid.Manhattan | AStar_Manhattan.py:12-16 | the distance is non-negative and is zero exactly when the two cells are equal |
| AStar.ManhattanSymmetric | AStar_Manhattan.py:12-16 | the distance is symmetric |
| AStar.ManhattanStep | AStar_Manhattan.py:12-16 | between adjacent cells the distance to a third cell changes by at most one |
| AStar.WalkLowerBound | AStar_Manhattan.py:12-16 | every walk from `c` to the goal has at least `manhattan(c, goal)` steps |
| AStar.ManhattanAdmissible | AStar_Manhattan.py:54-55 | the Manhattan heuristic never overestimates the steps of a walk to the goal |
| AStar.ManhattanSquare | AStar_Euclidienne.py:15-21 | `dx² + dy²` is at most the square of the Manhattan distance |
| AStar.EuclideanBelowManhattan | AStar_Euclidienne.py:15-21 | an exact straight-line distance lies between 0 and the Manhattan distance |
| AStar.EuclideanAdmissible | AStar_Euclidienne.py:59-60 | an exact straight-line heuristic never overestimates the steps of a walk to the goal |
| Frontier.KeepInteriorTargetsMembers | PrimLabytinthe.py:50-51 | the border filter keeps exactly the records whose target is strictly inside the border, never lengthens the list, and yields nothing when no target is inside |
| Frontier.FrontierRecordsShape | PrimLabytinthe.py:46-51 | at most four records are pushed around `c`; each leaves `c`, has its target two steps away strictly inside the border, and has the midpoint as its wall; every interior cell two steps from `c` is the target of one of them |
| Frontier.MidpointShape | PrimLabytinthe.py:49 | the wall between two maze cells is not a maze cell and shares a side with both of them |
| Frontier.MidpointDeterminesEnds | PrimLabytinthe.py:49 | a wall determines the two maze cells it separates |
| Frontier.CoverInterior | PrimLabytinthe.py:39-65 | a set closed under two-step jumps that holds an odd start other than the far corner holds every interior maze cell |
| Frontier.CornerStartHasNoFrontier | PrimLabytinthe.py:39-53 | on an even grid, a start at `(N-1, N-1)` pushes no record |
| Labyrinth.StartCellInRange | PrimLabytinthe.py:39-40 | the start drawn by `randrange(1, N, 2)` twice is a cell with odd coordinates in `[1, N)` |
| Labyrinth.PrimLabyrinth.AddWallsAround | PrimLabytinthe.py:46-51 | `ajouter_murs_autour` appends, in jump order, the records around `(cx, cy)` whose target is strictly inside the border, each well formed and leaving `(cx, cy)` |
| Labyrinth.PrimLabyrinth.OpenCell | PrimLabytinthe.py:41 | the entry of `c` becomes 0 and no other entry changes |
| Labyrinth.PrimLabyrinth.OpenPassage | PrimLabytinthe.py:62-63 | the wall and the target become 0 and no other entry changes |
| Labyrinth.PrimLabyrinth.CarveTowards | PrimLabytinthe.py:60-65 | a popped record with a new target opens exactly its wall and target, adds the target to the visited set, appends the records around the target, keeps the invariant, and shrinks the set of unvisited interior cells |
| PrimInvariant.PrimInit | PrimLabytinthe.py:39-53 | after the start is opened and its records pushed, the loop invariant holds with the start alone visited |
| PrimInvariant.DropVisitedTarget | PrimLabytinthe.py:57-60 | popping a record whose target is already visited keeps the invariant without touching the grid |
| PrimInvariant.NewWallIsUnbroken | PrimLabytinthe.py:60-62 | the wall of a record towards a new target has not been broken before |
| PrimInvariant.VisitNewTarget | PrimLabytinthe.py:60-65 | visiting a new target gives the tree one more edge and one more broken wall, and keeps the invariant |
| PrimInvariant.EmptyFrontierIsClosed | PrimLabytinthe.py:56 | when the frontier is empty, every interior cell two steps from a visited cell is visited |
| PrimInvariant.TreeWalkIsWalk | PrimLabytinthe.py:62-64 | the path down the tree to a visited cell is a walk from the start through open cells |
| PrimInvariant.OpenTreeIsConnected | PrimLabytinthe.py:56-67 | every visited cell and every broken wall is reached by a walk from the start |
| PrimInvariant.OpenCellsCount | PrimLabytinthe.py:56-65 | on a grid of walls, the open cells are exactly the visited cells and the broken walls, `2·\|visites\| − 1` of them |
| PrimInvariant.OpenCellsFormTree | PrimLabytinthe.py:56-65 | on a grid of walls, two open cells that share a side are a tree cell and the wall towards its parent |
| PrimInvariant.PrimOutcome | PrimLabytinthe.py:56-67 | once the frontier is empty: connectivity; every interior maze cell visited unless the start is the far corner; on a grid of walls, the open-cell count and adjacency only along tree edges |
| Labyrinth.PrimLabyrinth.Generate | PrimLabytinthe.py:23-67 | with `N < 3` only `grille[0][0]` is opened (when `N >= 1`); otherwise the grid is the old grid with the visited cells and the broken walls opened, it is connected from the start, it covers the interior unless the start is the far corner, and on a grid of walls it holds `2·\|visites\| − 1` open cells adjacent only along tree edges |
| BfsInvariant.BfsInit | PrimLabytinthe.py:98-100 | the queue holding the start alone satisfies the search invariant |
| BfsInvariant.ExpandVisit | PrimLabytinthe.py:114-118 | an open neighbour seen first is discovered one level deeper than the popped cell, with it as parent, at the back of the queue |
| BfsInvariant.GoalAtFrontIsNearest | PrimLabytinthe.py:103-104 | when the goal leaves the queue, no walk to it is shorter than its depth |
| BfsInvariant.EmptyQueueMeansNoWalk | PrimLabytinthe.py:102-120 | when the queue is empty and the goal was never popped, no walk reaches the goal |
| BfsInvariant.BackChainComplete | PrimLabytinthe.py:106-112 | the chain read back to the start, reversed, is a walk without repeated cells, one cell longer than the goal's depth |
| Grid.ReverseIsWalk | PrimLabytinthe.py:112 | reversing a chain read back from the goal gives a walk from the start and keeps distinct cells distinct |
| Labyrinth.PrimLabyrinth.TracePath | PrimLabytinthe.py:105-112 | the path read back along `parent` is a walk from `depart` to `arrivee` without repeated cells, with one cell more than the goal's depth |
| Labyrinth.PrimLabyrinth.Bfs | PrimLabytinthe.py:93-120 | a path returned is a walk from `depart` to `arrivee` without repeated cells and no walk is shorter; `None` means no walk exists; the grid is not changed |
| Heap.FirstLeast | AStar_Manhattan.py:60 | the index taken is of a least entry in the `(f, g, tie)` order, and every entry before it is strictly greater |
| Heap.HeapPop | AStar_Manhattan.py:60 | `heappop` returns the entry at `FirstLeast`, a least entry in the `(f, g, tie)` order, and the heap without it |
| Heap.LeastIsUnique | AStar_Manhattan.py:53 | with distinct ties the least entry is unique |
| Heap.RemoveEntry | AStar_Manhattan.py:60 | removing an entry keeps every other entry and keeps the ties increasing |
| Heap.PushEntry | AStar_Manhattan.py:81-83 | pushing an entry whose tie exceeds every tie in the heap keeps the ties increasing |
| AStarSearch.ReconstructPath | AStar_Manhattan.py:19-26 | given a parent chain along which the costs fall, the result starts at `start`, ends at `goal`, has `parent[next] == prev` at each step, has no repeated cell, and has at most `gscore[goal]` steps |
| AStarSearch.ParentPathUnique | AStar_Manhattan.py:19-26 | a path that starts at a `start` without a parent and has `parent[next] == prev` at each step is determined by its last cell |
| AStarSearch.ReversedTrail | AStar_Euclidienne.py:24-31 | the trail read from the goal to the start, reversed, is a parent path without repeated cells and no longer than the cost gained |
| AStarSearch.CostBelowCount | AStar_Manhattan.py:78-80 | no recorded cost reaches the number of recorded cells |
| AStarSearch.BoundedGrows | AStar_Manhattan.py:78-80 | recording one more than the cost of `cur` for a neighbour it improves keeps every cost bounded by the cells recorded cheaper |
| AStarSearch.SearchInit | AStar_Manhattan.py:48-57 | the single start entry `(h(start, goal), 0, 0, start)` with `gscore = {start: 0}` satisfies the search invariant |
| AStarSearch.PopStale | AStar_Manhattan.py:60-65 | popping a stale entry changes only the heap and the pop count, and keeps the invariant |
| AStarSearch.PopExpand | AStar_Manhattan.py:60-72 | popping the current entry of a cell other than the goal starts its expansion with the invariant in place |
| AStarSearch.WalkMeetsFrontier | AStar_Manhattan.py:59-83 | with an admissible heuristic, every walk from the start to the goal meets a heap entry whose `f` is at most the walk's length |
| AStarSearch.GoalPopIsOptimal | AStar_Manhattan.py:59-69 | when the goal's current entry is least and the heuristic admissible, no walk to the goal is shorter than `gscore[goal]` |
| AStarSearch.ExpandPush | AStar_Manhattan.py:78-83 | a strict improvement records `parent`, `gscore` and a heap entry with the next tie together, and keeps the expansion invariant |
| AStarSearch.PushShrinksBudget | AStar_Manhattan.py:78-83 | a strict improvement removes a pair from the finite budget of possible improvements |
| AStarSearch.ExhaustedMeansNoWalk | AStar_Manhattan.py:85-86 | when the heap is empty, no walk reaches the goal |
| AStarSearch.GoalPath | AStar_Manhattan.py:67-69 | the path read back at the goal follows `parent` (`parent[next] == prev` at each step, and the start has no parent), is a walk without repeated cells and at most `gscore[goal]` steps long; with an admissible heuristic it is exactly `gscore[goal]` steps and a shortest walk; with `start == goal` it is `[start]` |
| AStarSteps.PushesShape | AStar_Manhattan.py:78-83 | the entries pushed while relaxing carry the ties `tie + 1, tie + 2, …` in order, the cost `gc + 1` and `f = g + h`; each is for an improved neighbour, every improved neighbour has one, and there are no more of them than neighbours |
| AStarSteps.RelaxedUnique | AStar_Manhattan.py:72-83 | the pointwise description of a relaxation (`Relaxed`) determines the new state |
| AStarSteps.RelaxNext | AStar_Manhattan.py:72 | relaxing one neighbour more, in `_voisin` order, is one more single-neighbour step |
| AStarSteps.RelaxMeans | AStar_Manhattan.py:72-83 | relaxing distinct neighbours in order gives exactly what `Relaxed` describes: a neighbour is improved exactly when it is open and `gc + 1` beats its recorded cost; an improved neighbour gets cost `gc + 1` and parent `c`; every other cost and parent stays; the heap gains the pushed entries after the old ones and the tie counter their number; no other state meets that description |
| AStarSteps.StaleStep | AStar_Manhattan.py:60-65 | popping a stale first-least entry is a step that removes it from the heap and changes nothing else |
| AStarSteps.ExpandStep | AStar_Manhattan.py:60-83 | popping the current entry of a cell other than the goal and relaxing its neighbours is a step |
| AStarSteps.StepUnique | AStar_Manhattan.py:59-83 | a state determines the state after the next pop, and a search that has stopped (empty heap, or the goal's current entry least) makes no step |
| AStarSteps.TraceGrows | AStar_Manhattan.py:59-83 | a run extended by a step from its last state is a run |
| AStarSteps.TracesAgree | AStar_Manhattan.py:59-83 | two runs from the same grid, ends and heuristic agree at every position both reach |
| AStarSteps.TraceDetermined | AStar_Manhattan.py:59-86 | two runs that have both stopped are equal: the number of pops, the final `gscore` and the final parent map are determined by the grid, the ends and the heuristic |
| AStarSearch.RelaxWitnessed | AStar_Manhattan.py:75-80 | relaxing the neighbours of a cell reached by a walk of `gc` steps keeps every recorded cost the length of some walk from the start |
| AStarSearch.SearchLoopInit | AStar_Manhattan.py:48-57 | before the first pop, the run is the initial state alone and the loop invariant holds with no pops and one push |
| AStarSearch.SearchLoopStale | AStar_Manhattan.py:60-65 | passing over a stale entry extends the run by a step and counts one more pop |
| AStarSearch.SearchLoopExpand | AStar_Manhattan.py:60-83 | expanding the current entry of a cell other than the goal extends the run by a step, counts one more pop and keeps every cost witnessed by a walk |
| AStarSearch.SearchLoopExhausted | AStar_Manhattan.py:59-86 | when the heap runs empty, the run has stopped without reaching the goal, every push has been popped, and no walk reaches the goal |
| AStarSearch.SearchLoopGoal | AStar_Manhattan.py:67-69 | when the goal's current entry is least, the run has stopped at the goal, the pops so far are one fewer than the states of the run, and `gscore[start] == 0` |
| AStarSearch.Expand | AStar_Manhattan.py:71-83 | the new heap, `gscore`, `parent` and tie counter are exactly `Relax` of the neighbours, in `_voisin` order, from the state after the pop; the loop invariant holds again; either nothing was pushed or the improvement budget shrank |
| AStarLoop.ExpandPopped | AStar_Manhattan.py:71-83 | expanding a popped current entry extends the run by one step, to the new state, and keeps the loop invariant |
| AStarLoop.Pops | AStar_Manhattan.py:59-69 | the loop stops with the loop invariant at the last state of a run; with `found`, the first least entry is the goal's current one; otherwise the heap is empty |
| AStarLoop.Search | AStar_Manhattan.py:48-86 | a path returned is a walk without repeated cells, at most `gscore[goal]` steps; with an admissible heuristic exactly `gscore[goal]` steps and shortest; `None` means no walk exists; `trace` is a run of the loop that has stopped, at the goal exactly when a path is returned; the path follows the run's final parent map, so it is the chain `reconstruire_chemin` reads back; `explores` is the number of its pops; `gscore` is the final cost table, with `gscore[start] == 0` and every cost the length of a walk; `explores` equals the number of pushes when the heap runs empty; `start == goal` gives `([start], 1)` |
| AStar.OpenEnds | AStar_Manhattan.py:42-46 | a start or goal that holds 1 becomes 0, and no other entry changes |
| AStar.AStarManhattan | AStar_Manhattan.py:29-86 | only the start and goal may change, from 1 to 0; a path returned is a shortest walk without repeated cells; `None` means no walk exists; `trace` is the run of the loop with the Manhattan heuristic, stopped at the goal exactly when a path is returned; the path follows the run's final parent map; `explores` is its number of pops; `start == goal` gives `([start], 1)` |
| AStar.AStarEuclidean | AStar_Euclidienne.py:34-91 | only the start and goal may change, from 1 to 0; a path returned is a walk without repeated cells, and a shortest one when the heuristic is the exact distance; `None` means no walk exists; `trace` is the run of the loop with that heuristic; the path follows the run's final parent map; `explores` is its number of pops; `start == goal` gives `([start], 1)` |
| Labyrinth.ShortestPathsAgree | PrimLabytinthe.py:93-120 | two results that are each a shortest walk or `None` only when no walk exists, as `Bfs` and both A\* searches return on one grid, both find a path or neither does, and the paths have equal length |

## Left out

- `_afficher`, the `__main__` blocks, `analyzer.py` and `scalability_analysis.py`: plotting, timing, statistics and script wiring, with no algorithmic content.
- `random.randrange`: replaced by the oracle `choose(k, n)`, constrained only to answer in `[0, n)`. Draws 0 and 1 pick the start; draw `k >= 2` picks the record popped in iteration `k - 1`.
- Labyrinth.PrimLabyrinth.Generate: the uniqueness of the path between two open cells is stated through its ingredients, not derived. The ingredients are connectivity, the open-cell count `2·|visites| − 1`, and open cells adjacent only along tree edges. The count and the adjacency are stated for a grid that starts as all walls, as the constructor makes it.
- Start cell on an even grid: the comment at PrimLabytinthe.py:38 places the start inside the border, but `randrange(1, N, 2)` may return `N - 1`. The model follows the code. All interior maze cells (odd coordinates) are visited unless the start is the far corner `(N - 1, N - 1)`, from which nothing is pushed (`CornerStartHasNoFrontier`).
- AStar.AStarEuclidean: `math.hypot` and its floating-point rounding are not modelled. The heuristic is a parameter `euclid`, and optimality is proved only when it is the exact distance. Exact means non-negative with square `dx² + dy²`. Without that, the path is still a walk without repeated cells and `None` still means no walk.
- AStar.AStarManhattan: the Manhattan `f = g + manhattan` is compared as a real rather than an integer, which orders entries exactly as the integer tuple does.
- Heap.HeapPop: `heapq`'s binary-heap array is not modelled; a pop scans a sequence for the least `(f, g, tie)` entry. Ties are distinct, so the least entry is unique (`LeastIsUnique`), and the node, the last tuple component, is never compared.
- AStarLoop.Search: the edge count equals `gscore[goal]` only under an admissible heuristic. For an arbitrary heuristic the path has at most `gscore[goal]` steps. Both heuristics of the source are admissible.
- AStar.AStarManhattan, AStar.AStarEuclidean: the start and the goal must be in bounds. Python's negative indexing and its `IndexError` are not modelled.
- Labyrinth.PrimLabyrinth.Bfs: no explored count. The callers at AStar_Manhattan.py:110 and AStar_Euclidienne.py:109 unpack `laby.bfs(start, goal)` into a path and an explored count, but `bfs` (PrimLabytinthe.py:93-120) returns only a path or `None`. The model follows `bfs`. The callers are script code outside this model.
- Heuristic dominance and comparisons of exploration counts between searches are not modelled.
- The lemmas that split one loop step into pieces (the frontier, tree and cost-table updates, and one neighbour of a relaxation) have no row; they serve the rows above.

## Proof notes

- **Generator termination.** The generator's loop decreases on the pair (unvisited interior cells, frontier length).
- **A\* termination.** The A\* loop decreases on the pair (the finite set of cost improvements still possible, heap length). Each push removes one pair `(cell, cost)` from that set below the number of reachable cells. A cost never reaches the number of recorded cells (`CostBelowCount`).
- **A\* runs.** A pop is a relation `Step` between two states of the loop (heap, `gscore`, `parent`, tie counter). The heap pops its first least entry, and ties are distinct, so the state determines the next one (`StepUnique`). The ghost `trace` returned by the searches is a run of such steps from the initial state, and `explores` is tied to its length. So the number of pops is the one the loop makes, stale pops included (`TraceDetermined`).
