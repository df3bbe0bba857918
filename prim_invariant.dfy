/**
 The invariant of the randomized Prim loop, its preservation by one
 iteration, and what it gives once the frontier is empty: the visited cells
 and the broken walls form a spanning tree of the open cells.
 */
module PrimInvariant {
  import opened Grid
  import opened Frontier

  /** The visited cells are maze cells in bounds; all but the start are interior. */
  ghost predicate VisitedShape(size: int, start: Cell, visited: set<Cell>)
  {
    && start in visited
    && forall v {:trigger v in visited} :: v in visited ==>
         OddCell(v) && 1 <= v.x < size && 1 <= v.y < size && (v != start ==> Interior(size, v))
  }

  /** `tree` maps each visited cell but the start to the cell it was reached
      from, `rank` records the order of the visits, and `broken` maps each
      broken wall to the cell whose visit broke it: one wall per visit. */
  ghost predicate TreeShape(start: Cell, visited: set<Cell>, tree: map<Cell, Cell>,
                            broken: map<Cell, Cell>, rank: map<Cell, nat>)
  {
    && tree.Keys == visited - {start}
    && rank.Keys == visited
    && (forall v :: v in visited ==> rank[v] < |visited|)
    && (forall u :: u in tree ==>
          && tree[u] in visited && TwoApart(tree[u], u) && rank[tree[u]] < rank[u]
          && Midpoint(tree[u], u) in broken && broken[Midpoint(tree[u], u)] == u)
    && (forall w :: w in broken ==> broken[w] in tree && w == Midpoint(tree[broken[w]], broken[w]))
    && |broken| == |visited| - 1
  }

  /** Every pending record is well formed and leaves a visited cell; every
      record around a visited cell is pending or leads to a visited cell. */
  ghost predicate FrontierShape(size: int, visited: set<Cell>, walls: seq<WallRecord>)
  {
    && (forall r {:trigger r in walls} :: r in walls ==> r.source in visited && WellFormedRecord(size, r))
    && (forall v, r :: v in visited && r in FrontierRecords(size, v) ==> r.target in visited || r in walls)
  }

  /** `g` is `g0` with the visited cells and the broken walls set to 0. */
  ghost predicate Carved(size: int, g0: seq<seq<int>>, g: seq<seq<int>>,
                         visited: set<Cell>, broken: map<Cell, Cell>)
  {
    && IsGrid(g0, size) && IsGrid(g, size)
    && forall x, y :: 0 <= x < size && 0 <= y < size ==>
         g[x][y] == if Cell(x, y) in visited || Cell(x, y) in broken then 0 else g0[x][y]
  }

  /** The invariant at the head of the generator's main loop. */
  ghost predicate PrimInv(size: int, g0: seq<seq<int>>, g: seq<seq<int>>, start: Cell,
                          visited: set<Cell>, walls: seq<WallRecord>,
                          tree: map<Cell, Cell>, broken: map<Cell, Cell>, rank: map<Cell, nat>)
  {
    && size >= 3
    && VisitedShape(size, start, visited)
    && TreeShape(start, visited, tree, broken, rank)
    && FrontierShape(size, visited, walls)
    && Carved(size, g0, g, visited, broken)
  }

  /** `g1` is `g` with the cells of `cs` set to 0 and nothing else changed. */
  ghost predicate OpenedExactly(size: int, g: seq<seq<int>>, g1: seq<seq<int>>, cs: set<Cell>)
  {
    && IsGrid(g, size) && IsGrid(g1, size)
    && forall x, y :: 0 <= x < size && 0 <= y < size ==>
         g1[x][y] == if Cell(x, y) in cs then 0 else g[x][y]
  }

  /** The start cell opened and its records pushed establish the invariant. */
  lemma PrimInit(size: int, g0: seq<seq<int>>, g: seq<seq<int>>, start: Cell)
    requires size >= 3 && OpenedExactly(size, g0, g, {start})
    requires OddCell(start) && 1 <= start.x < size && 1 <= start.y < size
    ensures PrimInv(size, g0, g, start, {start}, FrontierRecords(size, start), map[], map[], map[start := 0])
  {
    FrontierRecordsShape(size, start);
  }

  lemma RemoveAt(walls: seq<WallRecord>, idx: nat)
    requires idx < |walls|
    ensures forall r {:trigger r in walls[..idx] + walls[idx + 1..]} :: r in walls[..idx] + walls[idx + 1..] ==> r in walls
    ensures forall r :: r in walls && r != walls[idx] ==> r in walls[..idx] + walls[idx + 1..]
    ensures |walls[..idx] + walls[idx + 1..]| == |walls| - 1
  {
    assert walls == walls[..idx] + [walls[idx]] + walls[idx + 1..];
  }

  /** Popping a record whose target is already visited keeps the invariant:
      this is what keeps the maze free of cycles. */
  lemma DropVisitedTarget(size: int, g0: seq<seq<int>>, g: seq<seq<int>>, start: Cell,
                          visited: set<Cell>, walls: seq<WallRecord>,
                          tree: map<Cell, Cell>, broken: map<Cell, Cell>, rank: map<Cell, nat>, idx: nat,
                          rest: seq<WallRecord>)
    requires PrimInv(size, g0, g, start, visited, walls, tree, broken, rank)
    requires idx < |walls| && walls[idx].target in visited
    requires rest == walls[..idx] + walls[idx + 1..]
    ensures PrimInv(size, g0, g, start, visited, rest, tree, broken, rank)
  {
    RemoveAt(walls, idx);
    assert FrontierShape(size, visited, rest) by {
      forall v, r | v in visited && r in FrontierRecords(size, v)
        ensures r.target in visited || r in rest
      {
        assert r.target in visited || r in walls;
      }
    }
  }

  /** The wall of a record whose target is new has not been broken before:
      a broken wall separates two visited cells. */
  lemma NewWallIsUnbroken(size: int, start: Cell, visited: set<Cell>, tree: map<Cell, Cell>,
                          broken: map<Cell, Cell>, rank: map<Cell, nat>, r: WallRecord)
    requires VisitedShape(size, start, visited) && TreeShape(start, visited, tree, broken, rank)
    requires r.source in visited && WellFormedRecord(size, r) && r.target !in visited
    ensures r.wall !in broken
  {
    if r.wall in broken {
      var u := broken[r.wall];
      OddTwoApart(tree[u], u);
      MidpointDeterminesEnds(r.source, r.target, tree[u], u);
      assert false;
    }
  }

  /** The tree edges, one of the conjuncts of the tree shape, survive adding the edge `r`. */
  lemma TreeEdgesGrow(size: int, start: Cell, visited: set<Cell>, tree: map<Cell, Cell>,
                      broken: map<Cell, Cell>, rank: map<Cell, nat>, r: WallRecord,
                      tree': map<Cell, Cell>, broken': map<Cell, Cell>, rank': map<Cell, nat>)
    requires VisitedShape(size, start, visited) && TreeShape(start, visited, tree, broken, rank)
    requires r.source in visited && WellFormedRecord(size, r) && r.target !in visited
    requires tree' == tree[r.target := r.source] && broken' == broken[r.wall := r.target]
    requires rank' == rank[r.target := |visited|]
    ensures forall u :: u in tree' ==>
              && tree'[u] in visited + {r.target} && TwoApart(tree'[u], u) && rank'[tree'[u]] < rank'[u]
              && Midpoint(tree'[u], u) in broken' && broken'[Midpoint(tree'[u], u)] == u
  {
    forall u | u in tree'
      ensures && tree'[u] in visited + {r.target} && TwoApart(tree'[u], u) && rank'[tree'[u]] < rank'[u]
              && Midpoint(tree'[u], u) in broken' && broken'[Midpoint(tree'[u], u)] == u
    {
      if u != r.target {
        OldTreeEdgeKept(size, start, visited, tree, broken, rank, r, tree', broken', rank', u);
      } else {
        NewTreeEdge(size, start, visited, tree, broken, rank, r, tree', broken', rank');
      }
    }
  }

  /** The new edge joins the target to its visited source through the new wall. */
  lemma NewTreeEdge(size: int, start: Cell, visited: set<Cell>, tree: map<Cell, Cell>,
                    broken: map<Cell, Cell>, rank: map<Cell, nat>, r: WallRecord,
                    tree': map<Cell, Cell>, broken': map<Cell, Cell>, rank': map<Cell, nat>)
    requires VisitedShape(size, start, visited) && TreeShape(start, visited, tree, broken, rank)
    requires r.source in visited && WellFormedRecord(size, r) && r.target !in visited
    requires tree' == tree[r.target := r.source] && broken' == broken[r.wall := r.target]
    requires rank' == rank[r.target := |visited|]
    ensures var u := r.target;
            && tree'[u] in visited + {r.target} && TwoApart(tree'[u], u) && rank'[tree'[u]] < rank'[u]
            && Midpoint(tree'[u], u) in broken' && broken'[Midpoint(tree'[u], u)] == u
  {
    assert tree'[r.target] == r.source && r.source != r.target;
  }

  /** An old tree edge keeps its wall: the new wall lies between the new
      target and its source, and so differs from every old edge's wall. */
  lemma OldTreeEdgeKept(size: int, start: Cell, visited: set<Cell>, tree: map<Cell, Cell>,
                        broken: map<Cell, Cell>, rank: map<Cell, nat>, r: WallRecord,
                        tree': map<Cell, Cell>, broken': map<Cell, Cell>, rank': map<Cell, nat>, u: Cell)
    requires VisitedShape(size, start, visited) && TreeShape(start, visited, tree, broken, rank)
    requires r.source in visited && WellFormedRecord(size, r) && r.target !in visited
    requires tree' == tree[r.target := r.source] && broken' == broken[r.wall := r.target]
    requires rank' == rank[r.target := |visited|]
    requires u in tree' && u != r.target
    ensures && tree'[u] in visited + {r.target} && TwoApart(tree'[u], u) && rank'[tree'[u]] < rank'[u]
            && Midpoint(tree'[u], u) in broken' && broken'[Midpoint(tree'[u], u)] == u
  {
    assert u in tree;
    OddTwoApart(tree[u], u);
    if Midpoint(tree[u], u) == r.wall {
      MidpointDeterminesEnds(r.source, r.target, tree[u], u);
    }
  }

  /** Every broken wall, the new one included, still sits between a tree cell and its parent. */
  lemma TreeWallsGrow(start: Cell, visited: set<Cell>, tree: map<Cell, Cell>,
                      broken: map<Cell, Cell>, rank: map<Cell, nat>, r: WallRecord,
                      tree': map<Cell, Cell>, broken': map<Cell, Cell>)
    requires TreeShape(start, visited, tree, broken, rank)
    requires r.target !in visited && r.wall == Midpoint(r.source, r.target)
    requires tree' == tree[r.target := r.source] && broken' == broken[r.wall := r.target]
    ensures forall w :: w in broken' ==> broken'[w] in tree' && w == Midpoint(tree'[broken'[w]], broken'[w])
  {
    forall w' | w' in broken'
      ensures broken'[w'] in tree' && w' == Midpoint(tree'[broken'[w']], broken'[w'])
    {
      if w' != r.wall {
        var u := broken[w'];
        assert u in tree && u != r.target;
      }
    }
  }

  /** The new cell gets the next rank and joins the keys of both maps. */
  lemma TreeKeysGrow(start: Cell, visited: set<Cell>, tree: map<Cell, Cell>, rank: map<Cell, nat>,
                     s: Cell, t: Cell, visited': set<Cell>, tree': map<Cell, Cell>, rank': map<Cell, nat>)
    requires start in visited && t !in visited
    requires tree.Keys == visited - {start} && rank.Keys == visited
    requires forall v :: v in visited ==> rank[v] < |visited|
    requires visited' == visited + {t} && tree' == tree[t := s] && rank' == rank[t := |visited|]
    ensures tree'.Keys == visited' - {start} && rank'.Keys == visited'
    ensures forall v :: v in visited' ==> rank'[v] < |visited'|
  {
    assert |visited'| == |visited| + 1;
  }

  lemma TreeGrows(size: int, start: Cell, visited: set<Cell>, tree: map<Cell, Cell>,
                  broken: map<Cell, Cell>, rank: map<Cell, nat>, r: WallRecord,
                  visited': set<Cell>, tree': map<Cell, Cell>, broken': map<Cell, Cell>, rank': map<Cell, nat>)
    requires VisitedShape(size, start, visited) && TreeShape(start, visited, tree, broken, rank)
    requires r.source in visited && WellFormedRecord(size, r) && r.target !in visited
    requires visited' == visited + {r.target} && tree' == tree[r.target := r.source]
    requires broken' == broken[r.wall := r.target] && rank' == rank[r.target := |visited|]
    ensures TreeShape(start, visited', tree', broken', rank')
  {
    NewWallIsUnbroken(size, start, visited, tree, broken, rank, r);
    TreeKeysGrow(start, visited, tree, rank, r.source, r.target, visited', tree', rank');
    TreeEdgesGrow(size, start, visited, tree, broken, rank, r, tree', broken', rank');
    TreeWallsGrow(start, visited, tree, broken, rank, r, tree', broken');
    assert |broken'| == |broken| + 1;
    assert |visited'| == |visited| + 1;
  }

  lemma FrontierGrows(size: int, visited: set<Cell>, walls: seq<WallRecord>, idx: nat,
                       visited': set<Cell>, walls': seq<WallRecord>)
    requires FrontierShape(size, visited, walls)
    requires idx < |walls|
    requires visited' == visited + {walls[idx].target}
    requires walls' == walls[..idx] + walls[idx + 1..] + FrontierRecords(size, walls[idx].target)
    ensures FrontierShape(size, visited', walls')
  {
    var r := walls[idx];
    var t := r.target;
    RemoveAt(walls, idx);
    FrontierRecordsShape(size, t);
    forall r' {:trigger r' in walls'} | r' in walls' ensures r'.source in visited' && WellFormedRecord(size, r') {
      if r' !in FrontierRecords(size, t) {
        assert r' in walls;
      }
    }
    forall v, r' | v in visited' && r' in FrontierRecords(size, v)
      ensures r'.target in visited' || r' in walls'
    {
      if v != t && r'.target !in visited' {
        assert r' in walls && r' != r;
      }
    }
  }

  lemma CarvedGrows(size: int, g0: seq<seq<int>>, g: seq<seq<int>>, g1: seq<seq<int>>,
                    visited: set<Cell>, broken: map<Cell, Cell>, w: Cell, t: Cell,
                    visited': set<Cell>, broken': map<Cell, Cell>)
    requires Carved(size, g0, g, visited, broken)
    requires OpenedExactly(size, g, g1, {w, t})
    requires visited' == visited + {t} && broken' == broken[w := t]
    ensures Carved(size, g0, g1, visited', broken')
  {
  }

  /** The target of a pending record that is not yet visited is a new interior maze cell. */
  lemma VisitedGrows(size: int, start: Cell, visited: set<Cell>, r: WallRecord, visited': set<Cell>)
    requires VisitedShape(size, start, visited)
    requires r.source in visited && WellFormedRecord(size, r) && r.target !in visited
    requires visited' == visited + {r.target}
    ensures VisitedShape(size, start, visited')
    ensures r.target in InteriorSet(size) - visited
    ensures InteriorSet(size) - visited' < InteriorSet(size) - visited
  {
    var t := r.target;
    OddTwoApart(r.source, t);
    assert t == Cell(t.x, t.y);
  }

  /** The wall and the target of a pending record are cells of the grid. */
  lemma PendingRecordInBounds(size: int, g0: seq<seq<int>>, g: seq<seq<int>>, start: Cell,
                              visited: set<Cell>, walls: seq<WallRecord>,
                              tree: map<Cell, Cell>, broken: map<Cell, Cell>, rank: map<Cell, nat>, idx: nat)
    requires PrimInv(size, g0, g, start, visited, walls, tree, broken, rank)
    requires idx < |walls|
    ensures InBounds(size, walls[idx].wall) && InBounds(size, walls[idx].target)
    ensures IsGrid(g, size) && |g| == size
  {
    var r := walls[idx];
    assert r in walls;
    OddTwoApart(r.source, r.target);
  }

  /** Popping a record whose target is new, opening its wall and its target,
      and pushing the records around the target keeps the invariant, with one
      more visited cell and one more broken wall. */
  lemma VisitNewTarget(size: int, g0: seq<seq<int>>, g: seq<seq<int>>, g1: seq<seq<int>>, start: Cell,
                       visited: set<Cell>, walls: seq<WallRecord>,
                       tree: map<Cell, Cell>, broken: map<Cell, Cell>, rank: map<Cell, nat>, idx: nat,
                       visited': set<Cell>, walls': seq<WallRecord>,
                       tree': map<Cell, Cell>, broken': map<Cell, Cell>, rank': map<Cell, nat>)
    requires PrimInv(size, g0, g, start, visited, walls, tree, broken, rank)
    requires idx < |walls| && walls[idx].target !in visited
    requires OpenedExactly(size, g, g1, {walls[idx].wall, walls[idx].target})
    requires visited' == visited + {walls[idx].target}
    requires walls' == walls[..idx] + walls[idx + 1..] + FrontierRecords(size, walls[idx].target)
    requires tree' == tree[walls[idx].target := walls[idx].source]
    requires broken' == broken[walls[idx].wall := walls[idx].target]
    requires rank' == rank[walls[idx].target := |visited|]
    ensures walls[idx].target in InteriorSet(size) - visited
    ensures InteriorSet(size) - visited' < InteriorSet(size) - visited
    ensures PrimInv(size, g0, g1, start, visited', walls', tree', broken', rank')
  {
    var r := walls[idx];
    assert r in walls;
    VisitedGrows(size, start, visited, r, visited');
    TreeGrows(size, start, visited, tree, broken, rank, r, visited', tree', broken', rank');
    FrontierGrows(size, visited, walls, idx, visited', walls');
    CarvedGrows(size, g0, g, g1, visited, broken, r.wall, r.target, visited', broken');
  }

  /** Once the frontier is empty, every interior cell two steps from a visited cell is visited. */
  lemma EmptyFrontierIsClosed(size: int, visited: set<Cell>)
    requires FrontierShape(size, visited, [])
    ensures ClosedUnderJumps(size, visited)
  {
    forall v, t | v in visited && Interior(size, t) && TwoApart(v, t) ensures t in visited {
      FrontierRecordsShape(size, v);
      assert WallRecord(Midpoint(v, t), v, t) in FrontierRecords(size, v);
    }
  }

  ghost predicate RankedTree(tree: map<Cell, Cell>, rank: map<Cell, nat>)
  {
    forall u :: u in tree ==> u in rank && tree[u] in rank && rank[tree[u]] < rank[u]
  }

  /** The walk from the root of the tree down to `u` through the broken walls. */
  ghost function TreeWalk(tree: map<Cell, Cell>, rank: map<Cell, nat>, u: Cell): seq<Cell>
    requires RankedTree(tree, rank) && u in rank
    decreases rank[u]
  {
    if u !in tree then [u]
    else TreeWalk(tree, rank, tree[u]) + [Midpoint(tree[u], u), u]
  }

  /** The tree read on the grid: ranks decrease towards the root `start`, and
      every tree cell and the wall towards its parent are open. */
  ghost predicate OpenTree(g: seq<seq<int>>, size: int, start: Cell, tree: map<Cell, Cell>, rank: map<Cell, nat>)
  {
    && RankedTree(tree, rank)
    && (forall v :: v in rank && v !in tree ==> v == start)
    && forall u :: u in tree ==>
         && OddCell(tree[u]) && TwoApart(tree[u], u)
         && IsOpen(g, size, u) && IsOpen(g, size, Midpoint(tree[u], u))
  }

  lemma CarvedTreeIsOpen(size: int, g0: seq<seq<int>>, g: seq<seq<int>>, start: Cell,
                         visited: set<Cell>, tree: map<Cell, Cell>, broken: map<Cell, Cell>, rank: map<Cell, nat>)
    requires VisitedShape(size, start, visited) && TreeShape(start, visited, tree, broken, rank)
    requires Carved(size, g0, g, visited, broken)
    ensures OpenTree(g, size, start, tree, rank)
  {
    forall u | u in tree
      ensures && OddCell(tree[u]) && TwoApart(tree[u], u)
              && IsOpen(g, size, u) && IsOpen(g, size, Midpoint(tree[u], u))
    {
      var p := tree[u];
      var m := Midpoint(p, u);
      MidpointShape(p, u);
      assert m == Cell(m.x, m.y) && u == Cell(u.x, u.y);
    }
  }

  /** Every visited cell is reached from the start through open cells. */
  lemma {:induction false} TreeWalkIsWalk(g: seq<seq<int>>, size: int, start: Cell,
                                          tree: map<Cell, Cell>, rank: map<Cell, nat>, u: Cell)
    requires OpenTree(g, size, start, tree, rank) && u in rank
    ensures IsWalk(g, size, TreeWalk(tree, rank, u), start, u)
    decreases rank[u]
  {
    if u in tree {
      var p := tree[u];
      var m := Midpoint(p, u);
      TreeWalkIsWalk(g, size, start, tree, rank, p);
      var w0 := TreeWalk(tree, rank, p);
      var w := w0 + [m, u];
      assert TreeWalk(tree, rank, u) == w;
      MidpointShape(p, u);
      assert forall i :: 0 <= i < |w0| ==> w[i] == w0[i];
    }
  }

  /** A broken wall is reached by the walk to the cell whose visit broke it, stopped one short. */
  lemma BrokenWallIsReached(g: seq<seq<int>>, size: int, start: Cell,
                            tree: map<Cell, Cell>, broken: map<Cell, Cell>, rank: map<Cell, nat>, c: Cell)
    requires OpenTree(g, size, start, tree, rank)
    requires c in broken && broken[c] in tree && broken[c] in rank && c == Midpoint(tree[broken[c]], broken[c])
    ensures exists w :: IsWalk(g, size, w, start, c)
  {
    var u := broken[c];
    TreeWalkIsWalk(g, size, start, tree, rank, u);
    var w := TreeWalk(tree, rank, u);
    assert w[|w| - 2] == c;
    var w' := w[..|w| - 1];
    assert forall i :: 0 <= i < |w'| ==> w'[i] == w[i];
    assert IsWalk(g, size, w', start, c);
  }

  /** Every visited cell and every broken wall is reached from the start. */
  lemma OpenTreeIsConnected(size: int, g0: seq<seq<int>>, g: seq<seq<int>>, start: Cell,
                             visited: set<Cell>, tree: map<Cell, Cell>, broken: map<Cell, Cell>, rank: map<Cell, nat>)
    requires VisitedShape(size, start, visited) && TreeShape(start, visited, tree, broken, rank)
    requires Carved(size, g0, g, visited, broken)
    ensures forall c :: c in visited || c in broken ==> exists w :: IsWalk(g, size, w, start, c)
  {
    CarvedTreeIsOpen(size, g0, g, start, visited, tree, broken, rank);
    forall c | c in visited || c in broken ensures exists w :: IsWalk(g, size, w, start, c) {
      if c in visited {
        TreeWalkIsWalk(g, size, start, tree, rank, c);
        assert IsWalk(g, size, TreeWalk(tree, rank, c), start, c);
      } else {
        BrokenWallIsReached(g, size, start, tree, broken, rank, c);
      }
    }
  }

  /** Every cell of a grid of side `size` holds 1. */
  ghost predicate AllWalls(size: int, g: seq<seq<int>>)
  {
    IsGrid(g, size) && forall x, y :: 0 <= x < size && 0 <= y < size ==> g[x][y] == 1
  }

  ghost function OpenSet(size: int, g: seq<seq<int>>): set<Cell>
    requires IsGrid(g, size)
  {
    set x, y | 0 <= x < size && 0 <= y < size && g[x][y] == 0 :: Cell(x, y)
  }

  /** The broken wall `w` and the cell `c` are joined by an edge of the tree. */
  ghost predicate TreeEdge(tree: map<Cell, Cell>, broken: map<Cell, Cell>, w: Cell, c: Cell)
  {
    w in broken && broken[w] in tree && (c == broken[w] || c == tree[broken[w]])
  }

  /** A broken wall is an in-bounds cell with exactly one odd coordinate, so it is not a visited cell. */
  lemma BrokenWallsAreNotCells(size: int, start: Cell, visited: set<Cell>,
                               tree: map<Cell, Cell>, broken: map<Cell, Cell>, rank: map<Cell, nat>)
    requires VisitedShape(size, start, visited) && TreeShape(start, visited, tree, broken, rank)
    ensures forall w {:trigger w in broken} :: w in broken ==> w !in visited && Odd(w.x) != Odd(w.y) && InBounds(size, w)
  {
    forall w {:trigger w in broken} | w in broken ensures w !in visited && Odd(w.x) != Odd(w.y) && InBounds(size, w) {
      var u := broken[w];
      MidpointShape(tree[u], u);
    }
  }

  /** Carved out of a grid of walls, the open cells are the visited cells and the broken walls. */
  lemma OpenSetOfCarved(size: int, g0: seq<seq<int>>, g: seq<seq<int>>,
                        visited: set<Cell>, broken: map<Cell, Cell>)
    requires Carved(size, g0, g, visited, broken) && AllWalls(size, g0)
    requires forall c :: c in visited || c in broken ==> InBounds(size, c)
    ensures OpenSet(size, g) == visited + broken.Keys
  {
    forall c | c in visited + broken.Keys ensures c in OpenSet(size, g) {
      assert c == Cell(c.x, c.y);
    }
  }

  /** A step to a side flips the parity of exactly one coordinate. */
  lemma AdjacentParity(a: Cell, b: Cell)
    requires Adjacent(a, b)
    ensures !(OddCell(a) && OddCell(b))
    ensures (Odd(a.x) != Odd(a.y)) ==> (Odd(b.x) == Odd(b.y))
  {
  }

  /** Two adjacent open cells of the carved grid are a broken wall and one of the cells it joins. */
  lemma AdjacentOpenCells(size: int, start: Cell, visited: set<Cell>,
                          tree: map<Cell, Cell>, broken: map<Cell, Cell>, rank: map<Cell, nat>, a: Cell, b: Cell)
    requires VisitedShape(size, start, visited) && TreeShape(start, visited, tree, broken, rank)
    requires forall w {:trigger w in broken} :: w in broken ==> w !in visited && Odd(w.x) != Odd(w.y)
    requires a in visited || a in broken
    requires b in visited || b in broken
    requires Adjacent(a, b)
    ensures TreeEdge(tree, broken, a, b) || TreeEdge(tree, broken, b, a)
  {
    AdjacentParity(a, b);
    if a in broken {
      assert b in visited;
      var u := broken[a];
      OddTwoApart(tree[u], u);
      OddNeighbourOfMidpoint(tree[u], u, b);
    } else {
      assert b in broken;
      var u := broken[b];
      OddTwoApart(tree[u], u);
      OddNeighbourOfMidpoint(tree[u], u, a);
    }
  }

  /** Carved out of a grid of walls, the open cells are exactly the visited
      cells and the broken walls, 2 * |visited| - 1 of them. */
  lemma OpenCellsCount(size: int, g0: seq<seq<int>>, g: seq<seq<int>>, start: Cell, visited: set<Cell>,
                       tree: map<Cell, Cell>, broken: map<Cell, Cell>, rank: map<Cell, nat>)
    requires VisitedShape(size, start, visited) && TreeShape(start, visited, tree, broken, rank)
    requires Carved(size, g0, g, visited, broken) && AllWalls(size, g0)
    ensures visited !! broken.Keys
    ensures OpenSet(size, g) == visited + broken.Keys
    ensures |OpenSet(size, g)| == 2 * |visited| - 1
  {
    BrokenWallsAreNotCells(size, start, visited, tree, broken, rank);
    OpenSetOfCarved(size, g0, g, visited, broken);
  }

  /** Carved out of a grid of walls, the only open cells that share a side are
      a broken wall and one of the two cells it joins: the open cells and their
      adjacencies form the tree. */
  lemma OpenCellsFormTree(size: int, g0: seq<seq<int>>, g: seq<seq<int>>, start: Cell, visited: set<Cell>,
                          tree: map<Cell, Cell>, broken: map<Cell, Cell>, rank: map<Cell, nat>)
    requires VisitedShape(size, start, visited) && TreeShape(start, visited, tree, broken, rank)
    requires Carved(size, g0, g, visited, broken) && AllWalls(size, g0)
    ensures forall a, b :: IsOpen(g, size, a) && IsOpen(g, size, b) && Adjacent(a, b) ==>
              TreeEdge(tree, broken, a, b) || TreeEdge(tree, broken, b, a)
  {
    BrokenWallsAreNotCells(size, start, visited, tree, broken, rank);
    forall a, b | IsOpen(g, size, a) && IsOpen(g, size, b) && Adjacent(a, b)
      ensures TreeEdge(tree, broken, a, b) || TreeEdge(tree, broken, b, a)
    {
      assert a == Cell(a.x, a.y) && b == Cell(b.x, b.y);
      AdjacentOpenCells(size, start, visited, tree, broken, rank, a, b);
    }
  }

  /** The generator's final state: the invariant with an empty frontier, every
      visited cell and broken wall reached from the start, every interior maze
      cell visited unless the start is the far corner, and, carved into a grid
      of walls, the open cells are exactly the tree's cells and walls and are
      adjacent only along tree edges. */
  ghost predicate GeneratedMaze(size: int, g0: seq<seq<int>>, g: seq<seq<int>>, start: Cell,
                                visited: set<Cell>, tree: map<Cell, Cell>, broken: map<Cell, Cell>, rank: map<Cell, nat>)
  {
    && PrimInv(size, g0, g, start, visited, [], tree, broken, rank)
    && (forall c :: c in visited || c in broken ==> exists w :: IsWalk(g, size, w, start, c))
    && (start != Cell(size - 1, size - 1) ==> forall b :: Interior(size, b) && OddCell(b) ==> b in visited)
    && (AllWalls(size, g0) ==>
          && OpenSet(size, g) == visited + broken.Keys
          && |OpenSet(size, g)| == 2 * |visited| - 1
          && forall a, b :: IsOpen(g, size, a) && IsOpen(g, size, b) && Adjacent(a, b) ==>
               TreeEdge(tree, broken, a, b) || TreeEdge(tree, broken, b, a))
  }

  /** What the generator guarantees once the frontier is empty. */
  lemma PrimOutcome(size: int, g0: seq<seq<int>>, g: seq<seq<int>>, start: Cell,
                    visited: set<Cell>, tree: map<Cell, Cell>, broken: map<Cell, Cell>, rank: map<Cell, nat>)
    requires PrimInv(size, g0, g, start, visited, [], tree, broken, rank)
    ensures GeneratedMaze(size, g0, g, start, visited, tree, broken, rank)
    ensures forall c :: c in visited || c in broken ==> exists w :: IsWalk(g, size, w, start, c)
    ensures start != Cell(size - 1, size - 1) ==> forall b :: Interior(size, b) && OddCell(b) ==> b in visited
    ensures AllWalls(size, g0) ==>
              && OpenSet(size, g) == visited + broken.Keys
              && |OpenSet(size, g)| == 2 * |visited| - 1
              && forall a, b :: IsOpen(g, size, a) && IsOpen(g, size, b) && Adjacent(a, b) ==>
                   TreeEdge(tree, broken, a, b) || TreeEdge(tree, broken, b, a)
  {
    OpenTreeIsConnected(size, g0, g, start, visited, tree, broken, rank);
    EmptyFrontierIsClosed(size, visited);
    if start != Cell(size - 1, size - 1) {
      CoverInterior(size, visited, start);
    }
    if AllWalls(size, g0) {
      OpenCellsCount(size, g0, g, start, visited, tree, broken, rank);
      OpenCellsFormTree(size, g0, g, start, visited, tree, broken, rank);
    }
  }

}
