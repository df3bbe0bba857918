/**
 The two A* searches of the labyrinth: `astar_manhattan`, whose heuristic is
 the Manhattan distance, and `astar_euclidienne`, whose heuristic is the
 straight-line distance. Both open the start and the goal if they are walls
 and then run the search shared in `AStarSearch`; both heuristics underestimate
 the length of every walk, so both return shortest paths.
 */
module AStar {
  import opened Wrappers
  import opened Grid
  import opened Labyrinth
  import opened AStarSearch
  import opened AStarLoop
  import opened AStarSteps

  // ---------------------------------------------------------------------
  // The Manhattan heuristic

  /** The Manhattan distance does not depend on the order of its arguments. */
  lemma ManhattanSymmetric(a: Cell, b: Cell)
    ensures Manhattan(a, b) == Manhattan(b, a)
  {
  }

  /** One step changes the Manhattan distance to `t` by at most one. */
  lemma ManhattanStep(a: Cell, b: Cell, t: Cell)
    requires Adjacent(a, b)
    ensures Manhattan(a, t) <= Manhattan(b, t) + 1
  {
  }

  /** A walk from `c` to `goal` has at least `manhattan(c, goal)` steps. */
  lemma {:induction false} WalkLowerBound(grid: seq<seq<int>>, size: int, w: seq<Cell>, c: Cell, goal: Cell)
    requires IsWalk(grid, size, w, c, goal)
    ensures Manhattan(c, goal) <= |w| - 1
    decreases |w|
  {
    if |w| > 1 {
      WalkSuffix(grid, size, w, c, goal, 1);
      WalkLowerBound(grid, size, w[1..], w[1], goal);
      ManhattanStep(c, w[1], goal);
    }
  }

  /** The Manhattan distance, as the search's heuristic, is admissible. */
  lemma ManhattanAdmissible(grid: seq<seq<int>>, size: int, goal: Cell, h: (Cell, Cell) -> real)
    requires forall a, b :: h(a, b) == Manhattan(a, b) as real
    ensures Admissible(grid, size, goal, h)
  {
    forall c, w | IsWalk(grid, size, w, c, goal) ensures h(c, goal) <= (|w| - 1) as real {
      WalkLowerBound(grid, size, w, c, goal);
    }
  }

  // ---------------------------------------------------------------------
  // The Euclidean heuristic

  /** `e` is the straight-line distance `hypot(dx, dy)` computed exactly: not
      negative, and its square is `dx * dx + dy * dy`. */
  ghost predicate IsEuclidean(e: (Cell, Cell) -> real)
  {
    forall a, b :: e(a, b) >= 0.0 && e(a, b) * e(a, b) == SquaredDistance(a, b)
  }

  function SquaredDistance(a: Cell, b: Cell): real
  {
    var dx, dy := (a.x - b.x) as real, (a.y - b.y) as real;
    dx * dx + dy * dy
  }

  /** Squaring is increasing on the non-negative reals. */
  lemma SquareGrows(m: real, r: real)
    requires 0.0 <= m < r
    ensures m * m < r * r
  {
    assert r * (r - m) > 0.0 && r * (r - m) == r * r - r * m;
    assert m * (r - m) >= 0.0 && m * (r - m) == r * m - m * m;
  }

  /** Of two non-negative reals, the one with the smaller square is the smaller. */
  lemma SquareMonotone(r: real, m: real)
    requires 0.0 <= r && 0.0 <= m && r * r <= m * m
    ensures r <= m
  {
    if m < r {
      SquareGrows(m, r);
      assert false;
    }
  }

  /** The square of the Manhattan distance is at least the squared distance. */
  lemma ManhattanSquare(a: Cell, b: Cell)
    ensures SquaredDistance(a, b) <= (Manhattan(a, b) as real) * (Manhattan(a, b) as real)
  {
    var dx, dy := (a.x - b.x) as real, (a.y - b.y) as real;
    var ax := if dx < 0.0 then -dx else dx;
    var ay := if dy < 0.0 then -dy else dy;
    var m := Manhattan(a, b) as real;
    assert m == ax + ay;
    assert ax * ax == dx * dx && ay * ay == dy * dy;
    assert 0.0 <= ax * ay;
    assert m * m == ax * ax + ay * ay + 2.0 * (ax * ay);
  }

  /** The straight-line distance never exceeds the Manhattan distance. */
  lemma EuclideanBelowManhattan(e: (Cell, Cell) -> real, a: Cell, b: Cell)
    requires IsEuclidean(e)
    ensures 0.0 <= e(a, b) <= Manhattan(a, b) as real
  {
    ManhattanSquare(a, b);
    SquareMonotone(e(a, b), Manhattan(a, b) as real);
  }

  /** The straight-line distance, as the search's heuristic, is admissible. */
  lemma EuclideanAdmissible(grid: seq<seq<int>>, size: int, goal: Cell, e: (Cell, Cell) -> real)
    requires IsEuclidean(e)
    ensures Admissible(grid, size, goal, e)
  {
    EuclideanBelowManhattan(e, goal, goal);
    forall c, w | IsWalk(grid, size, w, c, goal) ensures e(c, goal) <= (|w| - 1) as real {
      EuclideanBelowManhattan(e, c, goal);
      WalkLowerBound(grid, size, w, c, goal);
    }
  }

  // ---------------------------------------------------------------------
  // The searches

  /** The grid after opening the start and the goal: each of them that holds
      a 1 becomes 0, and every other entry is as before. */
  ghost predicate OpenedEnds(size: int, g: seq<seq<int>>, g1: seq<seq<int>>, start: Cell, goal: Cell)
  {
    && IsGrid(g, size) && IsGrid(g1, size)
    && forall x, y :: 0 <= x < size && 0 <= y < size ==>
         g1[x][y] == if (Cell(x, y) == start || Cell(x, y) == goal) && g[x][y] == 1 then 0 else g[x][y]
  }

  /** The guard both searches run first: a start or a goal that is a wall is opened. */
  method OpenEnds(laby: PrimLabyrinth, start: Cell, goal: Cell)
    requires laby.Valid() && InBounds(laby.size, start) && InBounds(laby.size, goal)
    modifies laby
    ensures laby.Valid() && OpenedEnds(laby.size, old(laby.grid), laby.grid, start, goal)
  {
    if laby.grid[start.x][start.y] == 1 {
      laby.OpenCell(start);
    }
    if laby.grid[goal.x][goal.y] == 1 {
      laby.OpenCell(goal);
    }
  }

  /** The heuristic of `astar_manhattan`: the Manhattan distance as a real. */
  function ManhattanHeuristic(a: Cell, b: Cell): real
  {
    Manhattan(a, b) as real
  }

  /** `astar_manhattan`: a shortest path from `start` to `goal` in the grid
      with its ends opened, or `None` when there is none, and the number of
      entries popped from the heap, which is the length of the run `trace`
      of the search on that grid (one less when the heap runs empty). */
  method AStarManhattan(laby: PrimLabyrinth, start: Cell, goal: Cell)
    returns (path: Option<seq<Cell>>, explores: nat, ghost trace: seq<SearchState>)
    requires laby.Valid() && InBounds(laby.size, start) && InBounds(laby.size, goal)
    modifies laby
    ensures laby.Valid() && OpenedEnds(laby.size, old(laby.grid), laby.grid, start, goal)
    ensures path.Some? ==> IsWalk(laby.grid, laby.size, path.value, start, goal) && Distinct(path.value)
    ensures ShortestOrNone(laby.grid, laby.size, start, goal, path)
    ensures Trace(laby.grid, laby.size, start, goal, ManhattanHeuristic, trace) && Ended(goal, trace[|trace| - 1])
    ensures path.Some? <==> GoalReached(goal, trace[|trace| - 1])
    ensures path.Some? ==> ParentPath(path.value, trace[|trace| - 1].parent) && start !in trace[|trace| - 1].parent
    ensures explores == if path.Some? then |trace| else |trace| - 1
    ensures explores >= 1 && (start == goal ==> path == Some([start]) && explores == 1)
  {
    OpenEnds(laby, start, goal);
    ManhattanAdmissible(laby.grid, laby.size, goal, ManhattanHeuristic);
    ghost var gscore: map<Cell, int>, pushes: nat;
    path, explores, gscore, pushes, trace := Search(laby, start, goal, ManhattanHeuristic);
  }

  /** `astar_euclidienne`, with the straight-line distance `euclid` as the
      heuristic: the path found is a walk without repeated cells, it is a
      shortest one when `euclid` is the exact distance, and `None` means no
      walk exists. `explores` is the length of the run `trace` of the search
      with that heuristic (one less when the heap runs empty). */
  method AStarEuclidean(laby: PrimLabyrinth, start: Cell, goal: Cell, euclid: (Cell, Cell) -> real)
    returns (path: Option<seq<Cell>>, explores: nat, ghost trace: seq<SearchState>)
    requires laby.Valid() && InBounds(laby.size, start) && InBounds(laby.size, goal)
    modifies laby
    ensures laby.Valid() && OpenedEnds(laby.size, old(laby.grid), laby.grid, start, goal)
    ensures path.Some? ==> IsWalk(laby.grid, laby.size, path.value, start, goal) && Distinct(path.value)
    ensures path.Some? && IsEuclidean(euclid) ==>
              forall w :: IsWalk(laby.grid, laby.size, w, start, goal) ==> |path.value| <= |w|
    ensures path.None? ==> forall w :: !IsWalk(laby.grid, laby.size, w, start, goal)
    ensures IsEuclidean(euclid) ==> ShortestOrNone(laby.grid, laby.size, start, goal, path)
    ensures Trace(laby.grid, laby.size, start, goal, euclid, trace) && Ended(goal, trace[|trace| - 1])
    ensures path.Some? <==> GoalReached(goal, trace[|trace| - 1])
    ensures path.Some? ==> ParentPath(path.value, trace[|trace| - 1].parent) && start !in trace[|trace| - 1].parent
    ensures explores == if path.Some? then |trace| else |trace| - 1
    ensures explores >= 1 && (start == goal ==> path == Some([start]) && explores == 1)
  {
    OpenEnds(laby, start, goal);
    if IsEuclidean(euclid) {
      EuclideanAdmissible(laby.grid, laby.size, goal, euclid);
    }
    ghost var gscore: map<Cell, int>, pushes: nat;
    path, explores, gscore, pushes, trace := Search(laby, start, goal, euclid);
  }

}
