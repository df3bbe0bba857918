/**
 The labyrinth object: a square grid of walls and open cells, its neighbour
 enumeration, the randomized Prim generator that carves a perfect maze into
 it, and the breadth-first search for a shortest walk between two cells.
 */
module Labyrinth {
  import opened Wrappers
  import opened Grid
  import opened Frontier
  import opened PrimInvariant
  import opened BfsInvariant

  /** The first cell the generator opens: `randrange(1, N, 2)` drawn twice,
      as `1 + 2 * i` for the oracle's answers `i < N / 2` to draws 0 and 1. */
  function StartCell(size: int, choose: (nat, nat) -> nat): Cell
    requires size >= 3
  {
    Cell(1 + 2 * choose(0, size / 2), 1 + 2 * choose(1, size / 2))
  }

  /** The first cell is a maze cell of the grid, odd coordinates in `[1, size)`. */
  lemma StartCellInRange(size: int, choose: (nat, nat) -> nat)
    requires size >= 3 && IsOracle(choose)
    ensures var c := StartCell(size, choose); OddCell(c) && 1 <= c.x < size && 1 <= c.y < size
  {
    var i, j := choose(0, size / 2), choose(1, size / 2);
    assert i < size / 2 && j < size / 2;
    assert 2 * (size / 2) <= size;
  }

  /** What the breadth-first search and both A* searches promise of a result
      on one grid: a path found is a shortest walk, and none is found only
      when there is no walk. */
  ghost predicate ShortestOrNone(grid: seq<seq<int>>, size: int, start: Cell, goal: Cell, path: Option<seq<Cell>>)
  {
    && (path.Some? ==> IsWalk(grid, size, path.value, start, goal)
                       && forall w :: IsWalk(grid, size, w, start, goal) ==> |path.value| <= |w|)
    && (path.None? ==> forall w :: !IsWalk(grid, size, w, start, goal))
  }

  /** Two such results agree: both find a path or neither does, and the paths
      have the same number of steps. */
  lemma ShortestPathsAgree(grid: seq<seq<int>>, size: int, start: Cell, goal: Cell,
                           p: Option<seq<Cell>>, q: Option<seq<Cell>>)
    requires ShortestOrNone(grid, size, start, goal, p) && ShortestOrNone(grid, size, start, goal, q)
    ensures p.Some? <==> q.Some?
    ensures p.Some? && q.Some? ==> |p.value| == |q.value|
  {
    if p.Some? {
      assert IsWalk(grid, size, p.value, start, goal);
    }
    if q.Some? {
      assert IsWalk(grid, size, q.value, start, goal);
    }
  }

  /** The oracle answers every draw among `n > 0` choices with one of them. */
  ghost predicate IsOracle(choose: (nat, nat) -> nat)
  {
    forall k, n :: 0 < n ==> choose(k, n) < n
  }

  class PrimLabyrinth {
    const size: int
    var grid: seq<seq<int>>

    ghost predicate Valid()
      reads this
    {
      IsGrid(grid, size)
    }

    /** A `taille` by `taille` grid of walls. */
    constructor (taille: int)
      ensures size == taille && Valid()
      ensures forall x, y :: 0 <= x < size && 0 <= y < size ==> grid[x][y] == 1
    {
      size := taille;
      grid := seq(Dim(taille), _ => seq(Dim(taille), _ => 1));
    }

    /** The in-bounds cells next to `(x, y)`, in the order of `Directions`. */
    method Neighbours(x: int, y: int) returns (r: seq<Cell>)
      ensures r == NeighbourList(size, Cell(x, y))
      ensures |r| <= 4 && Distinct(r)
      ensures forall d :: d in r <==> InBounds(size, d) && Adjacent(Cell(x, y), d)
    {
      var moves := Moves(Cell(x, y));
      r := [];
      for i := 0 to 4
        invariant r == KeepInBounds(size, moves[..i])
      {
        var dx, dy := Directions[i].0, Directions[i].1;
        var nx, ny := x + dx, y + dy;
        assert moves[..i + 1][..i] == moves[..i];
        if 0 <= nx < size && 0 <= ny < size {
          r := r + [Cell(nx, ny)];
        }
      }
      assert moves[..4] == moves;
      NeighbourListMembers(size, Cell(x, y));
    }

    /** `walls` followed by the records around `(cx, cy)` whose target is
        strictly inside the border, in the order of `Jumps`. */
    method AddWallsAround(walls: seq<WallRecord>, cx: int, cy: int) returns (r: seq<WallRecord>)
      ensures r == walls + FrontierRecords(size, Cell(cx, cy))
      ensures forall rec {:trigger rec in r[|walls|..]} :: rec in r[|walls|..] ==> rec.source == Cell(cx, cy) && WellFormedRecord(size, rec)
    {
      var c := Cell(cx, cy);
      var jumps := AllJumps(c);
      r := walls;
      for i := 0 to 4
        invariant r == walls + KeepInteriorTargets(size, jumps[..i])
      {
        var dx, dy := Jumps[i].0, Jumps[i].1;
        var nx, ny := cx + dx, cy + dy;
        var wx, wy := cx + dx / 2, cy + dy / 2;
        assert jumps[..i + 1][..i] == jumps[..i];
        assert jumps[i] == WallRecord(Cell(wx, wy), c, Cell(nx, ny));
        if 0 < nx < size - 1 && 0 < ny < size - 1 {
          r := r + [WallRecord(Cell(wx, wy), c, Cell(nx, ny))];
        }
      }
      assert jumps[..4] == jumps;
      FrontierRecordsShape(size, c);
      assert r[|walls|..] == FrontierRecords(size, c);
    }

    /** Sets the entry of `c` to 0 and changes no other entry. */
    method OpenCell(c: Cell)
      requires Valid() && InBounds(size, c)
      modifies this
      ensures Valid() && OpenedExactly(size, old(grid), grid, {c})
    {
      grid := SetCell(grid, c, 0);
    }

    /** Breaks the wall and opens the cell behind it: the two entries become 0
        and no other entry changes. */
    method OpenPassage(wall: Cell, target: Cell)
      requires Valid() && InBounds(size, wall) && InBounds(size, target)
      modifies this
      ensures Valid() && OpenedExactly(size, old(grid), grid, {wall, target})
    {
      grid := SetCell(grid, wall, 0);
      grid := SetCell(grid, target, 0);
    }

    /** One step of the generator on a popped record whose target is new: the
        wall and the target are opened, the target is visited, and the records
        around it join the frontier. */
    method CarveTowards(ghost g0: seq<seq<int>>, start: Cell, visits: set<Cell>, ghost walls0: seq<WallRecord>,
                        ghost idx: nat, r: WallRecord, walls: seq<WallRecord>,
                        ghost tree: map<Cell, Cell>, ghost broken: map<Cell, Cell>, ghost rank: map<Cell, nat>)
      returns (visits': set<Cell>, walls': seq<WallRecord>,
               ghost tree': map<Cell, Cell>, ghost broken': map<Cell, Cell>, ghost rank': map<Cell, nat>)
      requires Valid() && PrimInv(size, g0, grid, start, visits, walls0, tree, broken, rank)
      requires idx < |walls0| && r == walls0[idx] && walls == walls0[..idx] + walls0[idx + 1..] && r.target !in visits
      modifies this
      ensures Valid() && PrimInv(size, g0, grid, start, visits', walls', tree', broken', rank')
      ensures OpenedExactly(size, old(grid), grid, {r.wall, r.target})
      ensures visits' == visits + {r.target}
      ensures walls' == walls + FrontierRecords(size, r.target)
      ensures InteriorSet(size) - visits' < InteriorSet(size) - visits
    {
      ghost var g := grid;
      PendingRecordInBounds(size, g0, g, start, visits, walls0, tree, broken, rank, idx);
      OpenPassage(r.wall, r.target);
      visits' := visits + {r.target};
      walls' := AddWallsAround(walls, r.target.x, r.target.y);
      assert Cell(r.target.x, r.target.y) == r.target;
      tree', broken', rank' := tree[r.target := r.source], broken[r.wall := r.target], rank[r.target := |visits|];
      VisitNewTarget(size, g0, g, grid, start, visits, walls0, tree, broken, rank, idx,
                     visits', walls', tree', broken', rank');
    }

    /** Randomized Prim. With `N < 3` only `grid[0][0]` is opened (when `N >= 1`).
        Otherwise, starting from an odd cell, the loop removes one chosen
        frontier record per iteration and, when its target is new, opens the
        wall and the target and pushes the records around the target. The
        result is the old grid with the visited cells and the broken walls
        opened; every visited cell and broken wall is reached from the start;
        away from the far corner every interior odd cell is visited; and on a
        grid of walls the open cells are the visited cells and the broken
        walls, `2 * |visited| - 1` of them, adjacent only along tree edges. */
    method Generate(choose: (nat, nat) -> nat)
      returns (result: seq<seq<int>>, ghost visited: set<Cell>, ghost tree: map<Cell, Cell>,
               ghost broken: map<Cell, Cell>, ghost rank: map<Cell, nat>)
      requires Valid() && IsOracle(choose)
      modifies this
      ensures Valid() && result == grid
      ensures size < 3 ==> OpenedExactly(size, old(grid), grid, if size >= 1 then {Cell(0, 0)} else {})
      ensures size >= 3 ==> GeneratedMaze(size, old(grid), grid, StartCell(size, choose), visited, tree, broken, rank)
    {
      var n := size;
      visited, tree, broken, rank := {}, map[], map[], map[];
      if n < 3 {
        if n >= 1 {
          OpenCell(Cell(0, 0));
        }
        result := grid;
        return;
      }
      ghost var g0 := grid;
      var x0 := 1 + 2 * choose(0, n / 2);
      var y0 := 1 + 2 * choose(1, n / 2);
      var start := Cell(x0, y0);
      assert start == StartCell(size, choose);
      StartCellInRange(size, choose);
      OpenCell(start);
      var visits := {start};
      var walls := AddWallsAround([], x0, y0);
      tree, broken, rank := map[], map[], map[start := 0];
      PrimInit(size, g0, grid, start);
      var draw := 2;
      while walls != []
        invariant PrimInv(size, g0, grid, start, visits, walls, tree, broken, rank)
        decreases InteriorSet(size) - visits, |walls|
      {
        var idx := choose(draw, |walls|);
        draw := draw + 1;
        ghost var walls0 := walls;
        var r := walls[idx];
        walls := walls[..idx] + walls[idx + 1..];
        if r.target !in visits {
          visits, walls, tree, broken, rank := CarveTowards(g0, start, visits, walls0, idx, r, walls, tree, broken, rank);
        } else {
          DropVisitedTarget(size, g0, grid, start, visits, walls0, tree, broken, rank, idx, walls);
        }
      }
      visited := visits;
      result := grid;
      PrimOutcome(size, g0, grid, start, visited, tree, broken, rank);
    }


    /** The path read back from `goal` along `parent` until `start`, then put
        in walking order: a walk without repeated cells, one cell longer than
        the goal is deep. */
    method TracePath(start: Cell, goal: Cell, visited: set<Cell>, parent: map<Cell, Cell>, ghost depth: map<Cell, nat>)
      returns (path: seq<Cell>)
      requires ParentTree(grid, size, start, visited, parent, depth) && goal in visited
      ensures IsWalk(grid, size, path, start, goal) && Distinct(path)
      ensures |path| == depth[goal] + 1
    {
      var chemin: seq<Cell> := [];
      var cur := goal;
      BackChainInit(grid, size, start, visited, parent, depth, goal);
      while cur != start
        invariant cur in visited && BackChain(grid, size, goal, depth, chemin + [cur])
        decreases depth[cur]
      {
        BackChainStep(grid, size, start, visited, parent, depth, goal, chemin + [cur]);
        assert (chemin + [cur]) + [parent[cur]] == chemin + [cur] + [parent[cur]];
        chemin := chemin + [cur];
        cur := parent[cur];
      }
      chemin := chemin + [start];
      BackChainComplete(grid, size, start, goal, depth, chemin);
      return Reverse(chemin);
    }

    /** Breadth-first search from `start`: the goal is tested when a cell
        leaves the queue, and the path is read back along the parent map.
        A path returned is a walk from `start` to `goal` through open cells
        with no repeated cell, and no walk between them is shorter; `None`
        means that no walk exists. The grid is not changed. */
    method Bfs(start: Cell, goal: Cell) returns (path: Option<seq<Cell>>)
      requires Valid()
      ensures path.Some? ==> IsWalk(grid, size, path.value, start, goal) && Distinct(path.value)
      ensures path.Some? ==> forall w :: IsWalk(grid, size, w, start, goal) ==> |path.value| <= |w|
      ensures path.None? ==> forall w :: !IsWalk(grid, size, w, start, goal)
      ensures ShortestOrNone(grid, size, start, goal, path)
    {
      var queue := [start];
      var visited := {start};
      var parent: map<Cell, Cell> := map[];
      ghost var depth: map<Cell, nat> := map[start := 0];
      ghost var done: set<Cell> := {};
      BfsInit(grid, size, start, goal);
      while queue != []
        invariant BfsInv(grid, size, start, goal, queue, visited, parent, depth, done)
        decreases Discoverable(size, start) - done
      {
        ghost var queue0 := queue;
        var c := queue[0];
        queue := queue[1..];
        if c == goal {
          GoalAtFrontIsNearest(grid, size, start, goal, queue0, visited, parent, depth, done);
          var p := TracePath(start, goal, visited, parent, depth);
          return Some(p);
        }
        ExpandBegin(grid, size, start, goal, queue0, visited, parent, depth, done);
        done := done + {c};
        var ns := Neighbours(c.x, c.y);
        assert Cell(c.x, c.y) == c;
        for i := 0 to |ns|
          invariant ExpandInv(grid, size, start, goal, c, ns, i, queue, visited, parent, depth, done)
        {
          var d := ns[i];
          assert d in ns;
          if grid[d.x][d.y] == 0 && d !in visited {
            ExpandVisit(grid, size, start, goal, c, ns, i, queue, visited, parent, depth, done);
            visited := visited + {d};
            parent := parent[d := c];
            queue := queue + [d];
            depth := depth[d := depth[c] + 1];
          } else {
            if IsOpen(grid, size, d) {
              SeenNeighbourDepth(grid, size, start, goal, c, ns, i, queue, visited, parent, depth, done);
            }
            ExpandSkip(grid, size, start, goal, c, ns, i, queue, visited, parent, depth, done);
          }
        }
        ExpandEnd(grid, size, start, goal, c, ns, queue, visited, parent, depth, done);
      }
      EmptyQueueMeansNoWalk(grid, size, start, goal, visited, parent, depth, done);
      return None;
    }
  }

}
