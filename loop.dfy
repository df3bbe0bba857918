/**
 The loop of the A* search and its driver: the run of pops until the goal is
 reached or the heap is empty, and the path read back from the goal.
 */
module AStarLoop {
  import opened Wrappers
  import opened Grid
  import opened Heap
  import opened Labyrinth
  import opened AStarSteps
  import opened AStarSearch

  /** The expansion of a popped current entry of a cell other than the goal:
      relax its neighbours in the order `_voisin` lists them, extending the
      run by a step. The cost table shrinks the budget, or nothing was pushed. */
  method ExpandPopped(laby: PrimLabyrinth, start: Cell, goal: Cell, h: (Cell, Cell) -> real,
                      ghost trace: seq<SearchState>, heap: seq<Entry>, gs: map<Cell, int>,
                      parent: map<Cell, Cell>, tie: int, explores: nat, ghost pushes: nat,
                      ghost k: nat, e: Entry, rest: seq<Entry>)
    returns (heap': seq<Entry>, gs': map<Cell, int>, parent': map<Cell, Cell>, tie': int, ghost pushes': nat)
    requires laby.Valid()
    requires SearchLoop(laby.grid, laby.size, start, goal, h, trace, SearchState(heap, gs, parent, tie), explores, pushes)
    requires |heap| > 0 && k == FirstLeast(heap) && e == heap[k] && rest == heap[..k] + heap[k + 1..]
    requires e.node in gs && e.g == gs[e.node] && e.node != goal
    ensures SearchLoop(laby.grid, laby.size, start, goal, h, trace + [SearchState(heap', gs', parent', tie')],
                       SearchState(heap', gs', parent', tie'), explores + 1, pushes')
    ensures (gs' == gs && heap' == rest) || Budget(laby.size, start, gs') < Budget(laby.size, start, gs)
  {
    var ns := laby.Neighbours(e.node.x, e.node.y);
    assert Cell(e.node.x, e.node.y) == e.node;
    PopExpand(laby.grid, laby.size, start, goal, h, heap, gs, parent, tie, explores, pushes, e, k, rest, ns);
    heap', gs', parent', tie', pushes' := Expand(laby, start, goal, h, e.node, e.g, ns, rest, gs, parent, tie, explores + 1, pushes);
    SearchLoopExpand(laby.grid, laby.size, start, goal, h, trace, explores, pushes, SearchState(heap, gs, parent, tie),
                     k, e, rest, ns, SearchState(heap', gs', parent', tie'), pushes');
  }

  /** The loop of `astar_manhattan` and `astar_euclidienne`: pop the least
      entry, pass over a stale one, stop at the goal's current entry, and
      otherwise expand the popped cell. It returns the state at which the
      loop stops, with `found` when that is the goal's entry `heap[k]`; the
      ghost `trace` is the run up to there. */
  method Pops(laby: PrimLabyrinth, start: Cell, goal: Cell, h: (Cell, Cell) -> real)
    returns (found: bool, heap: seq<Entry>, gs: map<Cell, int>, parent: map<Cell, Cell>, tie: int,
             explores: nat, ghost pushes: nat, ghost trace: seq<SearchState>, ghost k: nat)
    requires laby.Valid()
    ensures SearchLoop(laby.grid, laby.size, start, goal, h, trace, SearchState(heap, gs, parent, tie), explores, pushes)
    ensures trace[|trace| - 1] == SearchState(heap, gs, parent, tie)
    ensures found ==> |heap| > 0 && k == FirstLeast(heap) && heap[k].node == goal && goal in gs && heap[k].g == gs[goal]
    ensures !found ==> heap == []
  {
    var grid, size := laby.grid, laby.size;
    gs, parent, tie := map[start := 0], map[], 0;
    heap := [Entry(h(start, goal), 0, tie, start)];
    explores, pushes, k := 0, 1, 0;
    trace := [Initial(start, goal, h)];
    SearchLoopInit(grid, size, start, goal, h);
    while heap != []
      invariant SearchLoop(grid, size, start, goal, h, trace, SearchState(heap, gs, parent, tie), explores, pushes)
      decreases Budget(size, start, gs), |heap|
    {
      var e: Entry, rest: seq<Entry>;
      ghost var s := SearchState(heap, gs, parent, tie);
      e, rest, k := HeapPop(heap);
      if e.node !in gs || e.g != gs[e.node] {
        SearchLoopStale(grid, size, start, goal, h, trace, explores, pushes, s, k, SearchState(rest, gs, parent, tie));
        heap, explores := rest, explores + 1;
        trace := trace + [SearchState(heap, gs, parent, tie)];
        continue;
      }
      if e.node == goal {
        found := true;
        return;
      }
      heap, gs, parent, tie, pushes := ExpandPopped(laby, start, goal, h, trace, heap, gs, parent, tie, explores, pushes, k, e, rest);
      explores := explores + 1;
      trace := trace + [SearchState(heap, gs, parent, tie)];
    }
    found := false;
  }

  /** `astar_manhattan` and `astar_euclidienne` after the start and the goal
      have been opened: run the loop and read the path back from the goal
      when it is reached. The ghost `trace` is the run: one state per pop,
      each the step of the one before, ending at an exhausted heap or at the
      goal's current entry. `explores` counts the pops, `gscore` is the
      final cost table and `pushes` counts the pushes. */
  method Search(laby: PrimLabyrinth, start: Cell, goal: Cell, h: (Cell, Cell) -> real)
    returns (path: Option<seq<Cell>>, explores: nat, ghost gscore: map<Cell, int>, ghost pushes: nat,
             ghost trace: seq<SearchState>)
    requires laby.Valid()
    ensures path.Some? ==> IsWalk(laby.grid, laby.size, path.value, start, goal) && Distinct(path.value)
    ensures path.Some? ==> goal in gscore && |path.value| - 1 <= gscore[goal]
    ensures path.Some? && Admissible(laby.grid, laby.size, goal, h) ==>
              |path.value| - 1 == gscore[goal]
              && forall w :: IsWalk(laby.grid, laby.size, w, start, goal) ==> |path.value| <= |w|
    ensures path.None? ==> forall w :: !IsWalk(laby.grid, laby.size, w, start, goal)
    ensures Trace(laby.grid, laby.size, start, goal, h, trace) && Ended(goal, trace[|trace| - 1])
    ensures path.Some? <==> GoalReached(goal, trace[|trace| - 1])
    ensures explores == if path.Some? then |trace| else |trace| - 1
    ensures gscore == trace[|trace| - 1].g && pushes == trace[|trace| - 1].tie + 1
    ensures path.Some? ==> ParentPath(path.value, trace[|trace| - 1].parent)
    ensures start !in trace[|trace| - 1].parent
    ensures start in gscore && gscore[start] == 0 && Witnessed(laby.grid, laby.size, start, gscore)
    ensures 1 <= explores <= pushes && (path.None? ==> explores == pushes)
    ensures start == goal ==> path == Some([start]) && explores == 1
  {
    var found, heap, gs, parent, tie;
    ghost var k;
    found, heap, gs, parent, tie, explores, pushes, trace, k := Pops(laby, start, goal, h);
    gscore := gs;
    if found {
      SearchLoopGoal(laby.grid, laby.size, start, goal, h, trace, explores, pushes, SearchState(heap, gs, parent, tie), k);
      var p := GoalPath(laby, start, goal, h, heap, gs, parent, tie, explores, pushes, heap[k]);
      path, explores := Some(p), explores + 1;
    } else {
      SearchLoopExhausted(laby.grid, laby.size, start, goal, h, trace, explores, pushes, SearchState(heap, gs, parent, tie));
      path := None;
    }
  }

}
