/**
 The A* search shared by the Manhattan and the Euclidean variants: a heap of
 `(f, g, tie, node)` entries with lazy deletion, a table `gscore` of the best
 cost found so far, and a parent map from which the path is read back. The
 heuristic is a parameter.
 */
module AStarSearch {
  import opened Wrappers
  import opened Grid
  import opened Heap
  import opened Labyrinth
  import opened AStarSteps

  /** `h` never overestimates the length of a walk to the goal, and is not
      negative at the goal itself. */
  ghost predicate Admissible(grid: seq<seq<int>>, size: int, goal: Cell, h: (Cell, Cell) -> real)
  {
    && h(goal, goal) >= 0.0
    && forall c, w :: IsWalk(grid, size, w, c, goal) ==> h(c, goal) <= (|w| - 1) as real
  }

  // ---------------------------------------------------------------------
  // Reading the path back

  /** Every recorded cell other than `start` has a parent, which is recorded
      with a strictly smaller cost; costs are not negative. */
  ghost predicate ParentChain(parent: map<Cell, Cell>, start: Cell, gs: map<Cell, int>)
  {
    && start in gs
    && (forall c :: c in gs ==> gs[c] >= 0)
    && (forall c :: c in gs && c != start ==> c in parent)
    && forall c :: c in parent ==> c in gs && parent[c] in gs && gs[parent[c]] < gs[c]
  }

  /** `s` is read from `goal` along `parent`: costs fall by at least one per step. */
  ghost predicate BackTrail(parent: map<Cell, Cell>, gs: map<Cell, int>, goal: Cell, s: seq<Cell>)
  {
    && |s| >= 1 && s[0] == goal && goal in gs
    && (forall i :: 0 <= i < |s| ==> s[i] in gs && gs[s[i]] + i <= gs[goal])
    && (forall i, j :: 0 <= i < j < |s| ==> gs[s[j]] < gs[s[i]])
    && forall i :: 0 <= i < |s| - 1 ==> s[i] in parent && parent[s[i]] == s[i + 1]
  }

  lemma BackTrailStep(parent: map<Cell, Cell>, start: Cell, gs: map<Cell, int>, goal: Cell, s: seq<Cell>)
    requires ParentChain(parent, start, gs) && BackTrail(parent, gs, goal, s) && s[|s| - 1] != start
    ensures s[|s| - 1] in parent && BackTrail(parent, gs, goal, s + [parent[s[|s| - 1]]])
  {
    var cur := s[|s| - 1];
    var s' := s + [parent[cur]];
    forall i | 0 <= i < |s'| ensures s'[i] in gs && gs[s'[i]] + i <= gs[goal] {
      if i < |s| { assert s'[i] == s[i]; }
    }
    forall i, j | 0 <= i < j < |s'| ensures gs[s'[j]] < gs[s'[i]] {
      assert s'[i] == s[i];
      if j < |s| { assert s'[j] == s[j]; }
    }
    forall i | 0 <= i < |s'| - 1 ensures s'[i] in parent && parent[s'[i]] == s'[i + 1] {
      if i < |s| - 1 { assert s'[i] == s[i] && s'[i + 1] == s[i + 1]; }
    }
  }

  /** A trail that reached `start`, reversed, runs from `start` to `goal` along
      `parent`, without repeated cells and with no more steps than the cost gained. */
  lemma ReversedTrail(parent: map<Cell, Cell>, start: Cell, gs: map<Cell, int>, goal: Cell, s: seq<Cell>)
    requires BackTrail(parent, gs, goal, s) && s[|s| - 1] == start
    ensures var r := Reverse(s);
      && |r| >= 1 && r[0] == start && r[|r| - 1] == goal
      && (forall i :: 0 < i < |r| ==> r[i] in parent && parent[r[i]] == r[i - 1])
      && Distinct(r)
      && gs[start] + |r| - 1 <= gs[goal]
  {
    var r := Reverse(s);
    forall i | 0 < i < |r| ensures r[i] in parent && parent[r[i]] == r[i - 1] {
      assert r[i] == s[|s| - 1 - i] && r[i - 1] == s[|s| - i];
    }
    forall i, j | 0 <= i < j < |r| ensures r[i] != r[j] {
      assert gs[s[|s| - 1 - i]] < gs[s[|s| - 1 - j]];
    }
  }

  /** Each cell of `p` after the first has the cell before it as its parent. */
  ghost predicate ParentPath(p: seq<Cell>, parent: map<Cell, Cell>)
  {
    forall i :: 0 < i < |p| ==> p[i] in parent && parent[p[i]] == p[i - 1]
  }

  /** A path along `parent` from a `start` without a parent is determined by
      its last cell: it is the chain read back from there. */
  lemma {:induction false} ParentPathUnique(parent: map<Cell, Cell>, start: Cell, p: seq<Cell>, q: seq<Cell>)
    requires start !in parent
    requires |p| >= 1 && p[0] == start && ParentPath(p, parent)
    requires |q| >= 1 && q[0] == start && ParentPath(q, parent)
    requires p[|p| - 1] == q[|q| - 1]
    ensures p == q
    decreases |p| + |q|
  {
    if |p| > 1 && |q| > 1 {
      var p', q' := p[..|p| - 1], q[..|q| - 1];
      assert p[|p| - 2] == parent[p[|p| - 1]] == parent[q[|q| - 1]] == q[|q| - 2];
      assert ParentPath(p', parent) by {
        forall i | 0 < i < |p'| ensures p'[i] in parent && parent[p'[i]] == p'[i - 1] {
          assert p'[i] == p[i] && p'[i - 1] == p[i - 1];
        }
      }
      assert ParentPath(q', parent) by {
        forall i | 0 < i < |q'| ensures q'[i] in parent && parent[q'[i]] == q'[i - 1] {
          assert q'[i] == q[i] && q'[i - 1] == q[i - 1];
        }
      }
      ParentPathUnique(parent, start, p', q');
      assert p == p' + [p[|p| - 1]] && q == q' + [q[|q| - 1]];
    }
  }

  /** `reconstruire_chemin`: from `goal`, follow `parent` until `start`, then
      reverse. The ghost `gs` holds the costs that make the walk terminate. */
  method ReconstructPath(parent: map<Cell, Cell>, start: Cell, goal: Cell, ghost gs: map<Cell, int>)
    returns (chemin: seq<Cell>)
    requires ParentChain(parent, start, gs) && goal in gs
    ensures |chemin| >= 1 && chemin[0] == start && chemin[|chemin| - 1] == goal
    ensures ParentPath(chemin, parent)
    ensures Distinct(chemin)
    ensures gs[start] + |chemin| - 1 <= gs[goal]
  {
    var cur := goal;
    var trail := [cur];
    while cur != start
      invariant BackTrail(parent, gs, goal, trail) && trail[|trail| - 1] == cur
      decreases gs[cur]
    {
      BackTrailStep(parent, start, gs, goal, trail);
      cur := parent[cur];
      trail := trail + [cur];
    }
    ReversedTrail(parent, start, gs, goal, trail);
    chemin := Reverse(trail);
  }

  // ---------------------------------------------------------------------
  // The search invariant

  /** The cells whose recorded cost is below `v`. */
  ghost function Below(g: map<Cell, int>, v: int): set<Cell>
  {
    set d | d in g && g[d] < v
  }

  /** Every recorded cost `v` is witnessed by at least `v` cells recorded
      cheaper; hence no cost reaches the number of recorded cells. */
  ghost predicate Bounded(g: map<Cell, int>)
  {
    forall c {:trigger Below(g, g[c])} :: c in g ==> 0 <= g[c] <= |Below(g, g[c])|
  }

  /** The pairs `(c, v)` with `v` below `B` that a strict improvement could
      still record: the search pushes only when this set shrinks. */
  ghost function Avail(g: map<Cell, int>, cells: set<Cell>, B: int): set<(Cell, int)>
  {
    set c, v | c in cells && 0 <= v < B && (c !in g || v < g[c]) :: (c, v)
  }

  ghost function Budget(size: int, start: Cell, g: map<Cell, int>): set<(Cell, int)>
  {
    Avail(g, Discoverable(size, start), |Discoverable(size, start)|)
  }

  /** A current heap entry carries the recorded cost of `c`. */
  ghost predicate Live(heap: seq<Entry>, g: map<Cell, int>, c: Cell)
    requires c in g
  {
    exists e {:trigger e in heap} :: e in heap && e.node == c && e.g == g[c]
  }

  /** Every open neighbour of `c` is recorded at most one step dearer. */
  ghost predicate Closed(grid: seq<seq<int>>, size: int, g: map<Cell, int>, c: Cell)
    requires c in g
  {
    forall d {:trigger Adjacent(c, d)} :: InBounds(size, d) && Adjacent(c, d) && IsOpen(grid, size, d) ==> d in g && g[d] <= g[c] + 1
  }

  /** The cost table and the parent map: the start costs 0, every other
      recorded cell has a recorded parent next to it, is open, and costs more. */
  ghost predicate Costs(grid: seq<seq<int>>, size: int, start: Cell, g: map<Cell, int>, parent: map<Cell, Cell>)
  {
    && start in g && g[start] == 0
    && g.Keys <= Discoverable(size, start)
    && (forall c :: c in g ==> g[c] >= 0)
    && Bounded(g)
    && parent.Keys == g.Keys - {start}
    && forall c {:trigger c in parent} :: c in parent ==>
         parent[c] in g && g[parent[c]] < g[c] && Adjacent(parent[c], c) && IsOpen(grid, size, c)
  }

  /** Each entry's `f` is its `g` plus the heuristic, and ties grow up to `tie`. */
  ghost predicate Entries(h: (Cell, Cell) -> real, goal: Cell, heap: seq<Entry>, tie: int)
  {
    && TiesIncreasing(heap)
    && forall e {:trigger e in heap} :: e in heap ==> e.f == e.g as real + h(e.node, goal) && e.tie <= tie
  }

  /** Every recorded cost is the length of some walk from the start. */
  ghost predicate Witnessed(grid: seq<seq<int>>, size: int, start: Cell, g: map<Cell, int>)
  {
    forall c :: c in g ==> exists w :: IsWalk(grid, size, w, start, c) && |w| - 1 == g[c]
  }

  /** Relaxing neighbours of `c`, reached from the start by the walk `w` of
      `gc` steps, keeps every cost witnessed: an improved neighbour is reached
      by `w` extended by it. */
  lemma {:induction false} RelaxWitnessed(grid: seq<seq<int>>, size: int, start: Cell, goal: Cell, h: (Cell, Cell) -> real,
                                          c: Cell, gc: int, ns: seq<Cell>, s: SearchState, w: seq<Cell>)
    requires Witnessed(grid, size, start, s.g)
    requires IsWalk(grid, size, w, start, c) && |w| - 1 == gc
    requires forall d :: d in ns ==> Adjacent(c, d)
    ensures Witnessed(grid, size, start, Relax(grid, size, goal, h, c, gc, ns, s).g)
    decreases |ns|
  {
    if ns != [] {
      var init, n := ns[..|ns| - 1], ns[|ns| - 1];
      assert forall d :: d in init ==> d in ns;
      RelaxWitnessed(grid, size, start, goal, h, c, gc, init, s, w);
      var s1 := Relax(grid, size, goal, h, c, gc, init, s);
      if IsOpen(grid, size, n) && (n !in s1.g || gc + 1 < s1.g[n]) {
        var w' := w + [n];
        assert forall i :: 0 <= i < |w| ==> w'[i] == w[i];
        assert IsWalk(grid, size, w', start, n);
        var g' := s1.g[n := gc + 1];
        forall d | d in g' ensures exists v :: IsWalk(grid, size, v, start, d) && |v| - 1 == g'[d] {
          if d == n {
            assert IsWalk(grid, size, w', start, d) && |w'| - 1 == g'[d];
          } else {
            var v :| IsWalk(grid, size, v, start, d) && |v| - 1 == s1.g[d];
            assert IsWalk(grid, size, v, start, d) && |v| - 1 == g'[d];
          }
        }
      }
    }
  }

  /** The invariant at the head of the search loop. */
  ghost predicate SearchInv(grid: seq<seq<int>>, size: int, start: Cell, goal: Cell, h: (Cell, Cell) -> real,
                            heap: seq<Entry>, g: map<Cell, int>, parent: map<Cell, Cell>, tie: int,
                            explores: nat, pushes: nat)
  {
    && Costs(grid, size, start, g, parent)
    && Entries(h, goal, heap, tie)
    && explores + |heap| == pushes
    && (forall c :: c in g ==> Live(heap, g, c) || Closed(grid, size, g, c))
    && (goal in g ==> Live(heap, g, goal))
    && (start == goal ==> explores == 0 && heap == [Entry(h(start, goal), 0, 0, start)] && g == map[start := 0])
  }

  /** Every recorded cell other than `c` is live or closed, and the goal, once
      recorded, is live. */
  ghost predicate LiveOrClosedExcept(grid: seq<seq<int>>, size: int, goal: Cell, heap: seq<Entry>,
                                     g: map<Cell, int>, c: Cell)
  {
    && (forall d :: d in g && d != c ==> Live(heap, g, d) || Closed(grid, size, g, d))
    && (goal in g ==> Live(heap, g, goal))
  }

  /** `ns` lists exactly the in-bounds cells next to `c`, and of its first `i`
      members every open one is recorded at most at `gc + 1`. */
  ghost predicate Scanned(grid: seq<seq<int>>, size: int, c: Cell, gc: int, ns: seq<Cell>, i: nat, g: map<Cell, int>)
  {
    && (forall d {:trigger d in ns} :: d in ns <==> InBounds(size, d) && Adjacent(c, d))
    && i <= |ns|
    && forall j :: 0 <= j < i && IsOpen(grid, size, ns[j]) ==> ns[j] in g && g[ns[j]] <= gc + 1
  }

  /** The invariant while the neighbours `ns` of the expanded cell `c`, of
      cost `gc`, are relaxed: the first `i` of them are settled. */
  ghost predicate ExpandInv(grid: seq<seq<int>>, size: int, start: Cell, goal: Cell, h: (Cell, Cell) -> real,
                            c: Cell, gc: int, ns: seq<Cell>, i: nat,
                            heap: seq<Entry>, g: map<Cell, int>, parent: map<Cell, Cell>, tie: int,
                            explores: nat, pushes: nat)
  {
    && Costs(grid, size, start, g, parent)
    && Entries(h, goal, heap, tie)
    && explores + |heap| == pushes
    && start != goal && c != goal && c in g && g[c] == gc
    && LiveOrClosedExcept(grid, size, goal, heap, g, c)
    && Scanned(grid, size, c, gc, ns, i, g)
  }

  // ---------------------------------------------------------------------
  // Cost bounds and termination

  lemma {:induction false} SubsetCard(a: set<Cell>, b: set<Cell>)
    requires a <= b
    ensures |a| <= |b|
    decreases |b|
  {
    if b != {} {
      var x :| x in b;
      SubsetCard(a - {x}, b - {x});
    }
  }

  /** No recorded cost reaches the number of recorded cells. */
  lemma CostBelowCount(g: map<Cell, int>, c: Cell)
    requires Bounded(g) && c in g
    ensures 0 <= g[c] < |g.Keys|
  {
    assert Below(g, g[c]) <= g.Keys - {c};
    SubsetCard(Below(g, g[c]), g.Keys - {c});
  }

  /** Recording `n` at one more than the cost of `c`, when that improves on it, keeps the bound. */
  lemma BoundedGrows(g: map<Cell, int>, c: Cell, n: Cell, g': map<Cell, int>)
    requires Bounded(g) && c in g && n != c && (n !in g || g[c] + 1 < g[n])
    requires g' == g[n := g[c] + 1]
    ensures Bounded(g')
  {
    forall d | d in g' ensures 0 <= g'[d] <= |Below(g', g'[d])| {
      if d == n {
        assert Below(g, g[c]) + {c} <= Below(g', g'[n]);
        SubsetCard(Below(g, g[c]) + {c}, Below(g', g'[n]));
      } else {
        assert Below(g, g[d]) <= Below(g', g'[d]);
        SubsetCard(Below(g, g[d]), Below(g', g'[d]));
      }
    }
  }

  /** A strict improvement below the bound removes a pair from the budget. */
  lemma AvailShrinks(g: map<Cell, int>, cells: set<Cell>, B: int, n: Cell, v: int, g': map<Cell, int>)
    requires n in cells && 0 <= v < B && (n !in g || v < g[n]) && g' == g[n := v]
    ensures Avail(g', cells, B) < Avail(g, cells, B)
  {
    assert (n, v) in Avail(g, cells, B);
    assert (n, v) !in Avail(g', cells, B);
  }

  // ---------------------------------------------------------------------
  // Steps of the search loop

  /** The heap holds the start entry `(h(start, goal), 0, 0, start)` and the
      cost table the start at 0. */
  lemma SearchInit(grid: seq<seq<int>>, size: int, start: Cell, goal: Cell, h: (Cell, Cell) -> real)
    ensures SearchInv(grid, size, start, goal, h, [Entry(h(start, goal), 0, 0, start)], map[start := 0], map[], 0, 0, 1)
    ensures Witnessed(grid, size, start, map[start := 0])
  {
    assert IsWalk(grid, size, [start], start, start);
    var e := Entry(h(start, goal), 0, 0, start);
    var g := map[start := 0];
    assert Below(g, 0) == {};
    assert e in [e] && Live([e], g, start);
  }

  /** Removing an entry keeps the remaining entries well formed. */
  lemma EntriesAfterPop(h: (Cell, Cell) -> real, goal: Cell, heap: seq<Entry>, tie: int, k: nat, rest: seq<Entry>)
    requires Entries(h, goal, heap, tie) && k < |heap| && rest == heap[..k] + heap[k + 1..]
    ensures Entries(h, goal, rest, tie)
  {
    RemoveEntry(heap, k);
    forall e | e in rest ensures e in heap {
    }
  }

  /** Removing an entry keeps every cell live whose current entry it is not. */
  lemma LiveAfterPop(heap: seq<Entry>, g: map<Cell, int>, k: nat, rest: seq<Entry>)
    requires k < |heap| && rest == heap[..k] + heap[k + 1..]
    ensures forall c :: c in g && Live(heap, g, c) && (heap[k].node != c || heap[k].g != g[c]) ==> Live(rest, g, c)
  {
    RemoveEntry(heap, k);
    forall c | c in g && Live(heap, g, c) && (heap[k].node != c || heap[k].g != g[c]) ensures Live(rest, g, c) {
      var x :| x in heap && x.node == c && x.g == g[c];
      assert x in rest;
    }
  }

  /** Popping an entry whose cost is stale (or whose cell has no cost) changes
      nothing but the heap and the number of pops. */
  lemma PopStale(grid: seq<seq<int>>, size: int, start: Cell, goal: Cell, h: (Cell, Cell) -> real,
                 heap: seq<Entry>, g: map<Cell, int>, parent: map<Cell, Cell>, tie: int,
                 explores: nat, pushes: nat, e: Entry, k: nat, rest: seq<Entry>)
    requires SearchInv(grid, size, start, goal, h, heap, g, parent, tie, explores, pushes)
    requires k < |heap| && e == heap[k] && rest == heap[..k] + heap[k + 1..]
    requires e.node !in g || e.g != g[e.node]
    ensures SearchInv(grid, size, start, goal, h, rest, g, parent, tie, explores + 1, pushes)
  {
    EntriesAfterPop(h, goal, heap, tie, k, rest);
    LiveAfterPop(heap, g, k, rest);
    if start == goal {
      assert false;
    }
  }

  /** Popping the current entry of a cell other than the goal starts its expansion. */
  lemma PopExpand(grid: seq<seq<int>>, size: int, start: Cell, goal: Cell, h: (Cell, Cell) -> real,
                  heap: seq<Entry>, g: map<Cell, int>, parent: map<Cell, Cell>, tie: int,
                  explores: nat, pushes: nat, e: Entry, k: nat, rest: seq<Entry>, ns: seq<Cell>)
    requires SearchInv(grid, size, start, goal, h, heap, g, parent, tie, explores, pushes)
    requires k < |heap| && e == heap[k] && rest == heap[..k] + heap[k + 1..]
    requires e.node in g && e.g == g[e.node] && e.node != goal
    requires forall d :: d in ns <==> InBounds(size, d) && Adjacent(e.node, d)
    ensures ExpandInv(grid, size, start, goal, h, e.node, e.g, ns, 0, rest, g, parent, tie, explores + 1, pushes)
  {
    EntriesAfterPop(h, goal, heap, tie, k, rest);
    LiveAfterPop(heap, g, k, rest);
  }

  /** With an admissible heuristic, a walk from the start to the goal meets a
      heap entry whose `f` is at most the walk's length: the first cell of the
      walk that still has a current entry, all cells before it being closed. */
  lemma {:induction false} WalkMeetsFrontier(grid: seq<seq<int>>, size: int, start: Cell, goal: Cell,
                                             h: (Cell, Cell) -> real, heap: seq<Entry>, g: map<Cell, int>,
                                             parent: map<Cell, Cell>, tie: int, explores: nat, pushes: nat,
                                             w: seq<Cell>, i: nat)
    requires SearchInv(grid, size, start, goal, h, heap, g, parent, tie, explores, pushes)
    requires Admissible(grid, size, goal, h)
    requires IsWalk(grid, size, w, start, goal) && i < |w| && w[i] in g && g[w[i]] <= i
    ensures exists x {:trigger x in heap} :: x in heap && x.f <= (|w| - 1) as real
    decreases |w| - i
  {
    var c := w[i];
    WalkSuffix(grid, size, w, start, goal, i);
    if Live(heap, g, c) {
      var x :| x in heap && x.node == c && x.g == g[c];
      assert h(c, goal) <= (|w[i..]| - 1) as real;
      assert x.f <= (|w| - 1) as real;
    } else {
      assert c != goal;
      var d := w[i + 1];
      assert Adjacent(c, d) && IsOpen(grid, size, d);
      WalkMeetsFrontier(grid, size, start, goal, h, heap, g, parent, tie, explores, pushes, w, i + 1);
    }
  }

  /** When the least entry is the goal's current one and the heuristic is
      admissible, no walk from the start to the goal is shorter than its cost. */
  lemma GoalPopIsOptimal(grid: seq<seq<int>>, size: int, start: Cell, goal: Cell, h: (Cell, Cell) -> real,
                         heap: seq<Entry>, g: map<Cell, int>, parent: map<Cell, Cell>, tie: int,
                         explores: nat, pushes: nat, e: Entry)
    requires SearchInv(grid, size, start, goal, h, heap, g, parent, tie, explores, pushes)
    requires IsLeast(e, heap) && e.node == goal && goal in g && e.g == g[goal]
    requires Admissible(grid, size, goal, h)
    ensures forall w :: IsWalk(grid, size, w, start, goal) ==> g[goal] <= |w| - 1
  {
    forall w | IsWalk(grid, size, w, start, goal) ensures g[goal] <= |w| - 1 {
      WalkMeetsFrontier(grid, size, start, goal, h, heap, g, parent, tie, explores, pushes, w, 0);
      var x :| x in heap && x.f <= (|w| - 1) as real;
      assert EntryLe(e, x);
      assert e.f == e.g as real + h(goal, goal);
    }
  }

  /** The cost table yields the parent chain that reading the path back needs. */
  lemma CostsGiveChain(grid: seq<seq<int>>, size: int, start: Cell, g: map<Cell, int>, parent: map<Cell, Cell>)
    requires Costs(grid, size, start, g, parent)
    ensures ParentChain(parent, start, g)
  {
  }

  /** A path read back along the parent map is a walk through open cells. */
  lemma ParentPathIsWalk(grid: seq<seq<int>>, size: int, start: Cell, goal: Cell,
                         g: map<Cell, int>, parent: map<Cell, Cell>, p: seq<Cell>)
    requires Costs(grid, size, start, g, parent)
    requires |p| >= 1 && p[0] == start && p[|p| - 1] == goal
    requires ParentPath(p, parent)
    ensures IsWalk(grid, size, p, start, goal)
  {
    forall i | 0 <= i < |p| - 1 ensures Adjacent(p[i], p[i + 1]) {
      assert parent[p[i + 1]] == p[i];
    }
  }

  /** The neighbour about to be relaxed is in bounds, next to `c`, and its
      grid entry is 0 exactly when it is open. */
  lemma ExpandNext(grid: seq<seq<int>>, size: int, start: Cell, goal: Cell, h: (Cell, Cell) -> real,
                   c: Cell, gc: int, ns: seq<Cell>, i: nat,
                   heap: seq<Entry>, g: map<Cell, int>, parent: map<Cell, Cell>, tie: int,
                   explores: nat, pushes: nat)
    requires IsGrid(grid, size)
    requires ExpandInv(grid, size, start, goal, h, c, gc, ns, i, heap, g, parent, tie, explores, pushes) && i < |ns|
    ensures InBounds(size, ns[i]) && Adjacent(c, ns[i]) && ns[i] != c
    ensures 0 <= ns[i].x < |grid| && 0 <= ns[i].y < |grid[ns[i].x]|
    ensures IsOpen(grid, size, ns[i]) <==> grid[ns[i].x][ns[i].y] == 0
  {
    assert ns[i] in ns;
  }

  /** A neighbour that is a wall, or that gains nothing, is passed over. */
  lemma ExpandSkip(grid: seq<seq<int>>, size: int, start: Cell, goal: Cell, h: (Cell, Cell) -> real,
                   c: Cell, gc: int, ns: seq<Cell>, i: nat,
                   heap: seq<Entry>, g: map<Cell, int>, parent: map<Cell, Cell>, tie: int,
                   explores: nat, pushes: nat)
    requires ExpandInv(grid, size, start, goal, h, c, gc, ns, i, heap, g, parent, tie, explores, pushes)
    requires i < |ns| && (!IsOpen(grid, size, ns[i]) || (ns[i] in g && g[ns[i]] <= gc + 1))
    ensures ExpandInv(grid, size, start, goal, h, c, gc, ns, i + 1, heap, g, parent, tie, explores, pushes)
  {
  }

  /** Recording the neighbour `n` of `c` at one more than the cost of `c`,
      with `c` as its parent, keeps the cost table and the parent map. */
  lemma CostsGrow(grid: seq<seq<int>>, size: int, start: Cell, g: map<Cell, int>, parent: map<Cell, Cell>,
                  c: Cell, n: Cell, g': map<Cell, int>, parent': map<Cell, Cell>)
    requires Costs(grid, size, start, g, parent) && c in g
    requires InBounds(size, n) && Adjacent(c, n) && IsOpen(grid, size, n) && (n !in g || g[c] + 1 < g[n])
    requires g' == g[n := g[c] + 1] && parent' == parent[n := c]
    ensures Costs(grid, size, start, g', parent') && n in Discoverable(size, start)
  {
    assert n == Cell(n.x, n.y);
    assert n in InBoundsSet(size);
    assert n != c;
    BoundedGrows(g, c, n, g');
  }

  /** Pushing an entry with the next tie keeps the entries well formed. */
  lemma EntriesGrow(h: (Cell, Cell) -> real, goal: Cell, heap: seq<Entry>, tie: int, e: Entry)
    requires Entries(h, goal, heap, tie)
    requires e.tie == tie + 1 && e.f == e.g as real + h(e.node, goal)
    ensures Entries(h, goal, heap + [e], tie + 1)
  {
    PushEntry(heap, e);
  }

  /** Lowering the cost of `n` and pushing its entry keeps every other cell
      live or closed, and makes `n` live. */
  lemma LiveOrClosedGrow(grid: seq<seq<int>>, size: int, goal: Cell, c: Cell,
                         heap: seq<Entry>, g: map<Cell, int>, n: Cell, v: int, e: Entry,
                         heap': seq<Entry>, g': map<Cell, int>)
    requires LiveOrClosedExcept(grid, size, goal, heap, g, c)
    requires n in g ==> v < g[n]
    requires g' == g[n := v] && e == Entry(e.f, v, e.tie, n) && heap' == heap + [e]
    ensures LiveOrClosedExcept(grid, size, goal, heap', g', c)
  {
    assert e in heap' && Live(heap', g', n);
    forall d | d in g && d != n && Live(heap, g, d) ensures Live(heap', g', d) {
      var x :| x in heap && x.node == d && x.g == g[d];
      assert x in heap';
    }
    forall d | d in g && d != n && Closed(grid, size, g, d) ensures Closed(grid, size, g', d) {
    }
  }

  /** The neighbours scanned so far stay settled when `n` is recorded at `gc + 1`. */
  lemma SettledGrow(grid: seq<seq<int>>, size: int, c: Cell, gc: int, ns: seq<Cell>, i: nat,
                    g: map<Cell, int>, g': map<Cell, int>)
    requires Scanned(grid, size, c, gc, ns, i, g)
    requires i < |ns| && (ns[i] !in g || gc + 1 < g[ns[i]]) && g' == g[ns[i] := gc + 1]
    ensures Scanned(grid, size, c, gc, ns, i + 1, g')
    ensures InBounds(size, ns[i]) && Adjacent(c, ns[i])
  {
    assert ns[i] in ns;
  }

  /** Recording a strict improvement of a reachable cell lowers no cost and
      shrinks the budget. */
  lemma PushShrinksBudget(grid: seq<seq<int>>, size: int, start: Cell, g: map<Cell, int>, parent': map<Cell, Cell>,
                          n: Cell, v: int, g': map<Cell, int>)
    requires Costs(grid, size, start, g', parent') && n in Discoverable(size, start)
    requires (n !in g || v < g[n]) && g' == g[n := v]
    ensures forall d :: d in g ==> d in g' && g'[d] <= g[d]
    ensures Budget(size, start, g') < Budget(size, start, g)
  {
    CostBelowCount(g', n);
    SubsetCard(g'.Keys, Discoverable(size, start));
    AvailShrinks(g, Discoverable(size, start), |Discoverable(size, start)|, n, v, g');
  }

  /** Improving the neighbour `ns[i]` of `c`: the cost is lowered, the parent
      set and an entry pushed with the next tie, and the invariant moves on to
      the next neighbour. */
  lemma ExpandPush(grid: seq<seq<int>>, size: int, start: Cell, goal: Cell, h: (Cell, Cell) -> real,
                   c: Cell, gc: int, ns: seq<Cell>, i: nat,
                   heap: seq<Entry>, g: map<Cell, int>, parent: map<Cell, Cell>, tie: int,
                   explores: nat, pushes: nat,
                   e: Entry, heap': seq<Entry>, g': map<Cell, int>, parent': map<Cell, Cell>)
    requires ExpandInv(grid, size, start, goal, h, c, gc, ns, i, heap, g, parent, tie, explores, pushes)
    requires i < |ns| && IsOpen(grid, size, ns[i]) && (ns[i] !in g || gc + 1 < g[ns[i]])
    requires g' == g[ns[i] := gc + 1] && parent' == parent[ns[i] := c]
    requires e == Entry((gc + 1) as real + h(ns[i], goal), gc + 1, tie + 1, ns[i]) && heap' == heap + [e]
    ensures ExpandInv(grid, size, start, goal, h, c, gc, ns, i + 1, heap', g', parent', tie + 1, explores, pushes + 1)
  {
    var n := ns[i];
    SettledGrow(grid, size, c, gc, ns, i, g, g');
    CostsGrow(grid, size, start, g, parent, c, n, g', parent');
    EntriesGrow(h, goal, heap, tie, e);
    LiveOrClosedGrow(grid, size, goal, c, heap, g, n, gc + 1, e, heap', g');
  }

  /** With every neighbour settled the expanded cell is closed. */
  lemma ExpandEnd(grid: seq<seq<int>>, size: int, start: Cell, goal: Cell, h: (Cell, Cell) -> real,
                  c: Cell, gc: int, ns: seq<Cell>,
                  heap: seq<Entry>, g: map<Cell, int>, parent: map<Cell, Cell>, tie: int,
                  explores: nat, pushes: nat)
    requires ExpandInv(grid, size, start, goal, h, c, gc, ns, |ns|, heap, g, parent, tie, explores, pushes)
    ensures SearchInv(grid, size, start, goal, h, heap, g, parent, tie, explores, pushes)
  {
    assert Closed(grid, size, g, c) by {
      forall d | InBounds(size, d) && Adjacent(c, d) && IsOpen(grid, size, d) ensures d in g && g[d] <= g[c] + 1 {
        assert d in ns;
        var j :| 0 <= j < |ns| && ns[j] == d;
      }
    }
  }

  /** The invariant of the relaxation loop of `Expand` after the first `i`
      neighbours, from the state `s0` of before the expansion to the current
      state `s`: the search invariant with the first `i` neighbours settled,
      `s` the relaxation of those `i`, and progress made. */
  ghost predicate RelaxLoop(grid: seq<seq<int>>, size: int, start: Cell, goal: Cell, h: (Cell, Cell) -> real,
                            c: Cell, gc: int, ns: seq<Cell>, i: nat, s0: SearchState,
                            explores: nat, pushes: nat, s: SearchState, pushes': nat)
  {
    && ExpandInv(grid, size, start, goal, h, c, gc, ns, i, s.heap, s.g, s.parent, s.tie, explores, pushes')
    && i <= |ns| && s == Relax(grid, size, goal, h, c, gc, ns[..i], s0)
    && ((s.g == s0.g && s.heap == s0.heap) || Budget(size, start, s.g) < Budget(size, start, s0.g))
    && pushes' >= pushes && s.tie - s0.tie == pushes' - pushes
  }

  /** Passing over a wall, or a neighbour that gains nothing, moves the loop on. */
  lemma RelaxLoopSkip(grid: seq<seq<int>>, size: int, start: Cell, goal: Cell, h: (Cell, Cell) -> real,
                      c: Cell, gc: int, ns: seq<Cell>, i: nat, s0: SearchState,
                      explores: nat, pushes: nat, s: SearchState, pushes': nat)
    requires Distinct(ns) && i < |ns|
    requires RelaxLoop(grid, size, start, goal, h, c, gc, ns, i, s0, explores, pushes, s, pushes')
    requires !IsOpen(grid, size, ns[i]) || (ns[i] in s.g && gc + 1 >= s.g[ns[i]])
    ensures RelaxLoop(grid, size, start, goal, h, c, gc, ns, i + 1, s0, explores, pushes, s, pushes')
  {
    ExpandSkip(grid, size, start, goal, h, c, gc, ns, i, s.heap, s.g, s.parent, s.tie, explores, pushes');
    RelaxNext(grid, size, goal, h, c, gc, ns, i, s0);
    assert RelaxOne(grid, size, goal, h, c, gc, s, ns[i]) == s;
  }

  /** Improving the neighbour `ns[i]` and pushing its entry `e` moves the loop on. */
  lemma RelaxLoopPush(grid: seq<seq<int>>, size: int, start: Cell, goal: Cell, h: (Cell, Cell) -> real,
                      c: Cell, gc: int, ns: seq<Cell>, i: nat, s0: SearchState,
                      explores: nat, pushes: nat, s: SearchState, pushes': nat, e: Entry, s': SearchState)
    requires Distinct(ns) && i < |ns|
    requires RelaxLoop(grid, size, start, goal, h, c, gc, ns, i, s0, explores, pushes, s, pushes')
    requires IsOpen(grid, size, ns[i]) && (ns[i] !in s.g || gc + 1 < s.g[ns[i]])
    requires e == Entry((gc + 1) as real + h(ns[i], goal), gc + 1, s.tie + 1, ns[i])
    requires s' == SearchState(s.heap + [e], s.g[ns[i] := gc + 1], s.parent[ns[i] := c], s.tie + 1)
    ensures RelaxLoop(grid, size, start, goal, h, c, gc, ns, i + 1, s0, explores, pushes, s', pushes' + 1)
  {
    PushKeepsInv(grid, size, start, goal, h, c, gc, ns, i, s.heap, s.g, s.parent, s.tie, explores, pushes', e, s');
    PushIsRelaxation(grid, size, goal, h, c, gc, ns, i, s0, s, e, s');
  }

  /** The push of `RelaxLoopPush` is the next step of the relaxation. */
  lemma PushIsRelaxation(grid: seq<seq<int>>, size: int, goal: Cell, h: (Cell, Cell) -> real,
                         c: Cell, gc: int, ns: seq<Cell>, i: nat, s0: SearchState, s: SearchState, e: Entry, s': SearchState)
    requires i < |ns| && s == Relax(grid, size, goal, h, c, gc, ns[..i], s0)
    requires IsOpen(grid, size, ns[i]) && (ns[i] !in s.g || gc + 1 < s.g[ns[i]])
    requires e == Entry((gc + 1) as real + h(ns[i], goal), gc + 1, s.tie + 1, ns[i])
    requires s' == SearchState(s.heap + [e], s.g[ns[i] := gc + 1], s.parent[ns[i] := c], s.tie + 1)
    ensures s' == Relax(grid, size, goal, h, c, gc, ns[..i + 1], s0)
  {
    RelaxNext(grid, size, goal, h, c, gc, ns, i, s0);
    assert RelaxOne(grid, size, goal, h, c, gc, s, ns[i]) == s';
  }

  /** The push of `RelaxLoopPush` keeps the invariant and shrinks the budget. */
  lemma PushKeepsInv(grid: seq<seq<int>>, size: int, start: Cell, goal: Cell, h: (Cell, Cell) -> real,
                     c: Cell, gc: int, ns: seq<Cell>, i: nat,
                     heap: seq<Entry>, g: map<Cell, int>, parent: map<Cell, Cell>, tie: int,
                     explores: nat, pushes: nat, e: Entry, s': SearchState)
    requires Distinct(ns) && i < |ns|
    requires ExpandInv(grid, size, start, goal, h, c, gc, ns, i, heap, g, parent, tie, explores, pushes)
    requires IsOpen(grid, size, ns[i]) && (ns[i] !in g || gc + 1 < g[ns[i]])
    requires e == Entry((gc + 1) as real + h(ns[i], goal), gc + 1, tie + 1, ns[i])
    requires s' == SearchState(heap + [e], g[ns[i] := gc + 1], parent[ns[i] := c], tie + 1)
    ensures ExpandInv(grid, size, start, goal, h, c, gc, ns, i + 1, s'.heap, s'.g, s'.parent, s'.tie, explores, pushes + 1)
    ensures Budget(size, start, s'.g) < Budget(size, start, g)
  {
    ExpandPush(grid, size, start, goal, h, c, gc, ns, i, heap, g, parent, tie, explores, pushes,
               e, s'.heap, s'.g, s'.parent);
    assert Costs(grid, size, start, s'.g, s'.parent) && ns[i] in s'.g;
    PushShrinksBudget(grid, size, start, g, s'.parent, ns[i], gc + 1, s'.g);
  }

  /** Once the heap is exhausted the recorded cells are closed under open
      neighbours and hold the start but not the goal: no walk reaches it. */
  lemma ExhaustedMeansNoWalk(grid: seq<seq<int>>, size: int, start: Cell, goal: Cell, h: (Cell, Cell) -> real,
                             g: map<Cell, int>, parent: map<Cell, Cell>, tie: int, explores: nat, pushes: nat)
    requires SearchInv(grid, size, start, goal, h, [], g, parent, tie, explores, pushes)
    ensures goal !in g
    ensures forall w :: !IsWalk(grid, size, w, start, goal)
  {
    assert ClosedUnderNeighbours(grid, size, g.Keys) by {
      forall c, d | c in g.Keys && d in NeighbourList(size, c) && IsOpen(grid, size, d) ensures d in g.Keys {
        assert !Live([], g, c);
        NeighbourListMembers(size, c);
      }
    }
    forall w ensures !IsWalk(grid, size, w, start, goal) {
      if IsWalk(grid, size, w, start, goal) {
        WalkStaysInClosedSet(grid, size, g.Keys, w, start, goal);
        assert false;
      }
    }
  }

  // ---------------------------------------------------------------------
  // The search

  /** The goal's current entry is the least: read the path back along the
      parent map. It is a walk without repeated cells, no longer than the
      recorded cost, and with an admissible heuristic a shortest one. */
  method GoalPath(laby: PrimLabyrinth, start: Cell, goal: Cell, h: (Cell, Cell) -> real,
                  ghost heap: seq<Entry>, gs: map<Cell, int>, parent: map<Cell, Cell>, ghost tie: int,
                  ghost explores: nat, ghost pushes: nat, ghost e: Entry)
    returns (p: seq<Cell>)
    requires laby.Valid()
    requires SearchInv(laby.grid, laby.size, start, goal, h, heap, gs, parent, tie, explores, pushes)
    requires IsLeast(e, heap) && e.node == goal && goal in gs && e.g == gs[goal]
    ensures IsWalk(laby.grid, laby.size, p, start, goal) && Distinct(p) && |p| - 1 <= gs[goal]
    ensures ParentPath(p, parent) && start !in parent
    ensures Admissible(laby.grid, laby.size, goal, h) ==>
              |p| - 1 == gs[goal] && forall w :: IsWalk(laby.grid, laby.size, w, start, goal) ==> |p| <= |w|
    ensures start == goal ==> p == [start]
  {
    var grid, size := laby.grid, laby.size;
    if Admissible(grid, size, goal, h) {
      GoalPopIsOptimal(grid, size, start, goal, h, heap, gs, parent, tie, explores, pushes, e);
    }
    CostsGiveChain(grid, size, start, gs, parent);
    p := ReconstructPath(parent, start, goal, gs);
    ParentPathIsWalk(grid, size, start, goal, gs, parent, p);
    if start == goal {
      assert p == [start];
    }
  }

  /** The invariant of the search loop over the run `trace` so far: it is a
      run ending at `s`, which satisfies the search invariant with every cost
      witnessed, `explores` counts its pops and `pushes` its pushes. */
  ghost predicate SearchLoop(grid: seq<seq<int>>, size: int, start: Cell, goal: Cell, h: (Cell, Cell) -> real,
                             trace: seq<SearchState>, s: SearchState, explores: nat, pushes: nat)
  {
    match s
    case SearchState(heap, g, parent, tie) =>
      && Trace(grid, size, start, goal, h, trace) && trace[|trace| - 1] == s
      && SearchInv(grid, size, start, goal, h, heap, g, parent, tie, explores, pushes)
      && Witnessed(grid, size, start, g)
      && explores == |trace| - 1 && pushes == tie + 1
  }

  /** The run starts at the initial state. */
  lemma SearchLoopInit(grid: seq<seq<int>>, size: int, start: Cell, goal: Cell, h: (Cell, Cell) -> real)
    ensures SearchLoop(grid, size, start, goal, h, [Initial(start, goal, h)], Initial(start, goal, h), 0, 1)
  {
    SearchInit(grid, size, start, goal, h);
  }

  /** Popping a stale entry extends the run by a step. */
  lemma SearchLoopStale(grid: seq<seq<int>>, size: int, start: Cell, goal: Cell, h: (Cell, Cell) -> real,
                        trace: seq<SearchState>, explores: nat, pushes: nat, s: SearchState, k: nat, s': SearchState)
    requires SearchLoop(grid, size, start, goal, h, trace, s, explores, pushes)
    requires |s.heap| > 0 && k == FirstLeast(s.heap)
    requires s.heap[k].node !in s.g || s.heap[k].g != s.g[s.heap[k].node]
    requires s' == SearchState(s.heap[..k] + s.heap[k + 1..], s.g, s.parent, s.tie)
    ensures SearchLoop(grid, size, start, goal, h, trace + [s'], s', explores + 1, pushes)
  {
    PopStale(grid, size, start, goal, h, s.heap, s.g, s.parent, s.tie, explores, pushes, s.heap[k], k, s'.heap);
    StaleStep(grid, size, goal, h, s, k);
    TraceGrows(grid, size, start, goal, h, trace, s');
  }

  /** Popping the current entry of a cell other than the goal and relaxing
      its neighbours extends the run by a step. */
  lemma SearchLoopExpand(grid: seq<seq<int>>, size: int, start: Cell, goal: Cell, h: (Cell, Cell) -> real,
                         trace: seq<SearchState>, explores: nat, pushes: nat, s: SearchState,
                         k: nat, e: Entry, rest: seq<Entry>, ns: seq<Cell>, s': SearchState, pushes': nat)
    requires SearchLoop(grid, size, start, goal, h, trace, s, explores, pushes)
    requires |s.heap| > 0 && k == FirstLeast(s.heap) && e == s.heap[k] && rest == s.heap[..k] + s.heap[k + 1..]
    requires e.node in s.g && e.g == s.g[e.node] && e.node != goal && ns == NeighbourList(size, e.node)
    requires s' == Relax(grid, size, goal, h, e.node, e.g, ns, SearchState(rest, s.g, s.parent, s.tie))
    requires pushes' - pushes == s'.tie - s.tie
    requires SearchInv(grid, size, start, goal, h, s'.heap, s'.g, s'.parent, s'.tie, explores + 1, pushes')
    ensures SearchLoop(grid, size, start, goal, h, trace + [s'], s', explores + 1, pushes')
  {
    NeighbourListMembers(size, e.node);
    var w :| IsWalk(grid, size, w, start, e.node) && |w| - 1 == e.g;
    RelaxWitnessed(grid, size, start, goal, h, e.node, e.g, ns, SearchState(rest, s.g, s.parent, s.tie), w);
    ExpandStep(grid, size, goal, h, s, k, s');
    TraceGrows(grid, size, start, goal, h, trace, s');
  }

  /** A run that exhausts the heap has ended without reaching the goal, has
      popped every entry pushed, and leaves no walk from the start to the goal. */
  lemma SearchLoopExhausted(grid: seq<seq<int>>, size: int, start: Cell, goal: Cell, h: (Cell, Cell) -> real,
                            trace: seq<SearchState>, explores: nat, pushes: nat, s: SearchState)
    requires IsGrid(grid, size)
    requires SearchLoop(grid, size, start, goal, h, trace, s, explores, pushes) && s.heap == []
    ensures Trace(grid, size, start, goal, h, trace) && Ended(goal, s) && !GoalReached(goal, s)
    ensures explores == |trace| - 1 && pushes == s.tie + 1 && 1 <= explores == pushes && start != goal
    ensures start in s.g && s.g[start] == 0 && Witnessed(grid, size, start, s.g)
    ensures start !in s.parent
    ensures forall w :: !IsWalk(grid, size, w, start, goal)
  {
    ExhaustedMeansNoWalk(grid, size, start, goal, h, s.g, s.parent, s.tie, explores, pushes);
  }

  /** A run whose least entry is the goal's current one has ended there. */
  lemma SearchLoopGoal(grid: seq<seq<int>>, size: int, start: Cell, goal: Cell, h: (Cell, Cell) -> real,
                       trace: seq<SearchState>, explores: nat, pushes: nat, s: SearchState, k: nat)
    requires SearchLoop(grid, size, start, goal, h, trace, s, explores, pushes)
    requires |s.heap| > 0 && k == FirstLeast(s.heap)
    requires s.heap[k].node == goal && goal in s.g && s.heap[k].g == s.g[goal]
    ensures Trace(grid, size, start, goal, h, trace) && Ended(goal, s) && GoalReached(goal, s)
    ensures explores + 1 == |trace| && pushes == s.tie + 1 && 1 <= explores + 1 <= pushes
    ensures start in s.g && s.g[start] == 0 && Witnessed(grid, size, start, s.g)
    ensures start == goal ==> explores == 0
  {
    assert s.heap[k] in s.heap;
  }

  /** The expansion of `c`, of cost `gc`: every open neighbour in `ns` whose
      cost improves on its recorded one gets `c` as parent, the cost `gc + 1`
      and a heap entry with the next tie, and nothing else changes. Afterwards
      `c` is closed, and either nothing changed or the budget of possible
      improvements shrank. */
  method Expand(laby: PrimLabyrinth, start: Cell, goal: Cell, h: (Cell, Cell) -> real,
                c: Cell, gc: int, ns: seq<Cell>,
                heap: seq<Entry>, gs: map<Cell, int>, parent: map<Cell, Cell>, tie: int,
                ghost explores: nat, ghost pushes: nat)
    returns (heap': seq<Entry>, gs': map<Cell, int>, parent': map<Cell, Cell>, tie': int, ghost pushes': nat)
    requires laby.Valid() && Distinct(ns)
    requires ExpandInv(laby.grid, laby.size, start, goal, h, c, gc, ns, 0, heap, gs, parent, tie, explores, pushes)
    ensures SearchState(heap', gs', parent', tie') == Relax(laby.grid, laby.size, goal, h, c, gc, ns, SearchState(heap, gs, parent, tie))
    ensures SearchInv(laby.grid, laby.size, start, goal, h, heap', gs', parent', tie', explores, pushes')
    ensures (gs' == gs && heap' == heap) || Budget(laby.size, start, gs') < Budget(laby.size, start, gs)
    ensures pushes' >= pushes && tie' - tie == pushes' - pushes
  {
    var grid, size := laby.grid, laby.size;
    ghost var s0 := SearchState(heap, gs, parent, tie);
    heap', gs', parent', tie', pushes' := heap, gs, parent, tie, pushes;
    for i := 0 to |ns|
      invariant RelaxLoop(grid, size, start, goal, h, c, gc, ns, i, s0, explores, pushes,
                          SearchState(heap', gs', parent', tie'), pushes')
    {
      var n := ns[i];
      ExpandNext(grid, size, start, goal, h, c, gc, ns, i, heap', gs', parent', tie', explores, pushes');
      if grid[n.x][n.y] != 0 {
        RelaxLoopSkip(grid, size, start, goal, h, c, gc, ns, i, s0, explores, pushes,
                      SearchState(heap', gs', parent', tie'), pushes');
        continue;
      }
      var tentative := gc + 1;
      if n !in gs' || tentative < gs'[n] {
        ghost var s := SearchState(heap', gs', parent', tie');
        parent' := parent'[n := c];
        gs' := gs'[n := tentative];
        var entry := Entry(tentative as real + h(n, goal), tentative, tie' + 1, n);
        heap' := heap' + [entry];
        RelaxLoopPush(grid, size, start, goal, h, c, gc, ns, i, s0, explores, pushes, s, pushes',
                      entry, SearchState(heap', gs', parent', tie' + 1));
        tie', pushes' := tie' + 1, pushes' + 1;
      } else {
        RelaxLoopSkip(grid, size, start, goal, h, c, gc, ns, i, s0, explores, pushes,
                      SearchState(heap', gs', parent', tie'), pushes');
      }
    }
    assert ns[..|ns|] == ns;
    ExpandEnd(grid, size, start, goal, h, c, gc, ns, heap', gs', parent', tie', explores, pushes');
  }

}
