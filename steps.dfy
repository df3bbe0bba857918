/**
 One iteration of the A* loop as a relation between two states, and runs of
 the loop as sequences of states. Each state determines the next one, so a
 run that ends, at an empty heap or at the goal's current entry, is
 determined by its first state: the number of pops, the final `gscore` and
 the final parent map are functions of the grid, the two ends and the
 heuristic.
 */
module AStarSteps {
  import opened Grid
  import opened Heap

  /** The state of the loop: the heap, `gscore`, `parent` and the tie counter. */
  datatype SearchState = SearchState(heap: seq<Entry>, g: map<Cell, int>, parent: map<Cell, Cell>, tie: int)

  /** The state before the first pop: the start entry `(h(start, goal), 0, 0, start)`
      and the start recorded at cost 0. */
  function Initial(start: Cell, goal: Cell, h: (Cell, Cell) -> real): SearchState
  {
    SearchState([Entry(h(start, goal), 0, 0, start)], map[start := 0], map[], 0)
  }

  /** The neighbour `d`, listed in `ns`, is open and `gc + 1` beats its recorded cost. */
  predicate Improves(grid: seq<seq<int>>, size: int, gc: int, ns: seq<Cell>, g: map<Cell, int>, d: Cell)
  {
    d in ns && IsOpen(grid, size, d) && (d !in g || gc + 1 < g[d])
  }

  /** Relaxing the neighbour `n` of the expanded cell `c`, of cost `gc`: a
      wall, or a neighbour whose recorded cost `gc + 1` does not beat, is
      passed over; otherwise `n` gets the cost `gc + 1` and the parent `c`,
      and its entry `(gc + 1 + h(n, goal), gc + 1, tie + 1, n)` is pushed
      with the next tie. */
  function RelaxOne(grid: seq<seq<int>>, size: int, goal: Cell, h: (Cell, Cell) -> real,
                    c: Cell, gc: int, s: SearchState, n: Cell): SearchState
  {
    if IsOpen(grid, size, n) && (n !in s.g || gc + 1 < s.g[n]) then
      SearchState(s.heap + [Entry((gc + 1) as real + h(n, goal), gc + 1, s.tie + 1, n)],
                  s.g[n := gc + 1], s.parent[n := c], s.tie + 1)
    else s
  }

  /** The neighbours `ns` relaxed one after the other, in their order. */
  function Relax(grid: seq<seq<int>>, size: int, goal: Cell, h: (Cell, Cell) -> real,
                 c: Cell, gc: int, ns: seq<Cell>, s: SearchState): SearchState
  {
    if ns == [] then s
    else RelaxOne(grid, size, goal, h, c, gc, Relax(grid, size, goal, h, c, gc, ns[..|ns| - 1], s), ns[|ns| - 1])
  }

  /** Relaxing one neighbour more is one more `RelaxOne`. */
  lemma RelaxNext(grid: seq<seq<int>>, size: int, goal: Cell, h: (Cell, Cell) -> real,
                  c: Cell, gc: int, ns: seq<Cell>, i: nat, s: SearchState)
    requires i < |ns|
    ensures Relax(grid, size, goal, h, c, gc, ns[..i + 1], s)
            == RelaxOne(grid, size, goal, h, c, gc, Relax(grid, size, goal, h, c, gc, ns[..i], s), ns[i])
  {
    assert ns[..i + 1][..i] == ns[..i];
  }

  /** The entries pushed while the neighbours `ns` are relaxed in order with
      the costs `g` of before the expansion: one per improved neighbour, each
      with the next tie. */
  function Pushes(grid: seq<seq<int>>, size: int, goal: Cell, h: (Cell, Cell) -> real,
                  gc: int, ns: seq<Cell>, g: map<Cell, int>, tie: int): seq<Entry>
  {
    if ns == [] then []
    else
      var p := Pushes(grid, size, goal, h, gc, ns[..|ns| - 1], g, tie);
      var n := ns[|ns| - 1];
      p + (if IsOpen(grid, size, n) && (n !in g || gc + 1 < g[n])
           then [Entry((gc + 1) as real + h(n, goal), gc + 1, tie + |p| + 1, n)] else [])
  }

  /** The pushed entries carry the ties `tie + 1, tie + 2, ...`, the cost
      `gc + 1` and `f = g + h`, each for an improved neighbour; each improved
      neighbour gets one; there are no more of them than neighbours. */
  lemma {:induction false} PushesShape(grid: seq<seq<int>>, size: int, goal: Cell, h: (Cell, Cell) -> real,
                                       gc: int, ns: seq<Cell>, g: map<Cell, int>, tie: int)
    ensures var p := Pushes(grid, size, goal, h, gc, ns, g, tie);
      && |p| <= |ns|
      && (forall k :: 0 <= k < |p| ==>
            && p[k].tie == tie + 1 + k && p[k].g == gc + 1
            && p[k].f == (gc + 1) as real + h(p[k].node, goal)
            && Improves(grid, size, gc, ns, g, p[k].node))
      && (forall d :: Improves(grid, size, gc, ns, g, d) ==> exists k :: 0 <= k < |p| && p[k].node == d)
  {
    if ns != [] {
      var init := ns[..|ns| - 1];
      var n := ns[|ns| - 1];
      PushesShape(grid, size, goal, h, gc, init, g, tie);
      assert ns == init + [n];
      var p := Pushes(grid, size, goal, h, gc, ns, g, tie);
      var q := Pushes(grid, size, goal, h, gc, init, g, tie);
      assert forall k :: 0 <= k < |q| ==> p[k] == q[k];
      forall d | Improves(grid, size, gc, ns, g, d) ensures exists k :: 0 <= k < |p| && p[k].node == d {
        if d != n {
          assert Improves(grid, size, gc, init, g, d);
          var k :| 0 <= k < |q| && q[k].node == d;
          assert p[k].node == d;
        } else {
          assert p[|p| - 1].node == d;
        }
      }
    }
  }

  /** `s'` is `s` after the neighbours `ns` of `c`, of cost `gc`, are relaxed:
      exactly the improved neighbours get the cost `gc + 1` and the parent `c`,
      every other entry of `gscore` and `parent` stays, and the heap and the
      tie counter gain exactly the pushed entries. */
  ghost predicate Relaxed(grid: seq<seq<int>>, size: int, goal: Cell, h: (Cell, Cell) -> real,
                          c: Cell, gc: int, ns: seq<Cell>, s: SearchState, s': SearchState)
  {
    && (forall d :: d in s'.g <==> d in s.g || Improves(grid, size, gc, ns, s.g, d))
    && (forall d :: d in s'.g ==> s'.g[d] == if Improves(grid, size, gc, ns, s.g, d) then gc + 1 else s.g[d])
    && (forall d :: d in s'.parent <==> d in s.parent || Improves(grid, size, gc, ns, s.g, d))
    && (forall d :: d in s'.parent ==> s'.parent[d] == if Improves(grid, size, gc, ns, s.g, d) then c else s.parent[d])
    && s'.heap == s.heap + Pushes(grid, size, goal, h, gc, ns, s.g, s.tie)
    && s'.tie == s.tie + |Pushes(grid, size, goal, h, gc, ns, s.g, s.tie)|
  }

  /** The relaxation determines the new state. */
  lemma RelaxedUnique(grid: seq<seq<int>>, size: int, goal: Cell, h: (Cell, Cell) -> real,
                      c: Cell, gc: int, ns: seq<Cell>, s: SearchState, a: SearchState, b: SearchState)
    requires Relaxed(grid, size, goal, h, c, gc, ns, s, a) && Relaxed(grid, size, goal, h, c, gc, ns, s, b)
    ensures a == b
  {
    assert a.g.Keys == b.g.Keys;
    assert a.g == b.g;
    assert a.parent.Keys == b.parent.Keys;
    assert a.parent == b.parent;
  }

  /** Relaxing one more neighbour `ns[i]`, not among the earlier ones, adds
      at most that neighbour to the improved ones and its entry to the pushes. */
  lemma PrefixExtends(grid: seq<seq<int>>, size: int, goal: Cell, h: (Cell, Cell) -> real,
                      gc: int, ns: seq<Cell>, i: nat, g: map<Cell, int>, tie: int)
    requires Distinct(ns) && i < |ns|
    ensures ns[i] !in ns[..i]
    ensures forall d :: Improves(grid, size, gc, ns[..i + 1], g, d) <==>
      Improves(grid, size, gc, ns[..i], g, d) || (d == ns[i] && IsOpen(grid, size, d) && (d !in g || gc + 1 < g[d]))
    ensures var p := Pushes(grid, size, goal, h, gc, ns[..i], g, tie);
      Pushes(grid, size, goal, h, gc, ns[..i + 1], g, tie) ==
        p + (if IsOpen(grid, size, ns[i]) && (ns[i] !in g || gc + 1 < g[ns[i]])
             then [Entry((gc + 1) as real + h(ns[i], goal), gc + 1, tie + |p| + 1, ns[i])] else [])
  {
    assert ns[..i + 1][..i] == ns[..i] && ns[..i + 1] == ns[..i] + [ns[i]];
  }

  /** Passing over the neighbour `ns[i]`, a wall or no improvement on its
      current cost, relaxes one more neighbour. */
  lemma RelaxSkip(grid: seq<seq<int>>, size: int, goal: Cell, h: (Cell, Cell) -> real,
                  c: Cell, gc: int, ns: seq<Cell>, i: nat, s: SearchState, s': SearchState)
    requires Distinct(ns) && i < |ns| && Relaxed(grid, size, goal, h, c, gc, ns[..i], s, s')
    requires !IsOpen(grid, size, ns[i]) || (ns[i] in s'.g && gc + 1 >= s'.g[ns[i]])
    ensures Relaxed(grid, size, goal, h, c, gc, ns[..i + 1], s, s')
  {
    var n := ns[i];
    PrefixExtends(grid, size, goal, h, gc, ns, i, s.g, s.tie);
    assert !Improves(grid, size, gc, ns[..i], s.g, n);
    assert !(IsOpen(grid, size, n) && (n !in s.g || gc + 1 < s.g[n]));
  }

  /** Improving the neighbour `n = ns[i]`: its cost becomes `gc + 1`, its
      parent `c`, and its entry is pushed with the next tie. */
  lemma RelaxPush(grid: seq<seq<int>>, size: int, goal: Cell, h: (Cell, Cell) -> real,
                  c: Cell, gc: int, ns: seq<Cell>, i: nat, s: SearchState, s': SearchState, e: Entry)
    requires Distinct(ns) && i < |ns| && Relaxed(grid, size, goal, h, c, gc, ns[..i], s, s')
    requires IsOpen(grid, size, ns[i]) && (ns[i] !in s'.g || gc + 1 < s'.g[ns[i]])
    requires e == Entry((gc + 1) as real + h(ns[i], goal), gc + 1, s'.tie + 1, ns[i])
    ensures Relaxed(grid, size, goal, h, c, gc, ns[..i + 1], s,
                    SearchState(s'.heap + [e], s'.g[ns[i] := gc + 1], s'.parent[ns[i] := c], s'.tie + 1))
  {
    var n := ns[i];
    PrefixExtends(grid, size, goal, h, gc, ns, i, s.g, s.tie);
    assert !Improves(grid, size, gc, ns[..i], s.g, n);
    assert IsOpen(grid, size, n) && (n !in s.g || gc + 1 < s.g[n]);
  }

  /** Relaxing one more neighbour `ns[i]`, not among the earlier ones. */
  lemma RelaxStep(grid: seq<seq<int>>, size: int, goal: Cell, h: (Cell, Cell) -> real,
                  c: Cell, gc: int, ns: seq<Cell>, i: nat, s: SearchState, s': SearchState)
    requires Distinct(ns) && i < |ns| && Relaxed(grid, size, goal, h, c, gc, ns[..i], s, s')
    ensures Relaxed(grid, size, goal, h, c, gc, ns[..i + 1], s, RelaxOne(grid, size, goal, h, c, gc, s', ns[i]))
  {
    var n := ns[i];
    if IsOpen(grid, size, n) && (n !in s'.g || gc + 1 < s'.g[n]) {
      var e := Entry((gc + 1) as real + h(n, goal), gc + 1, s'.tie + 1, n);
      assert RelaxOne(grid, size, goal, h, c, gc, s', n)
             == SearchState(s'.heap + [e], s'.g[n := gc + 1], s'.parent[n := c], s'.tie + 1);
      RelaxPush(grid, size, goal, h, c, gc, ns, i, s, s', e);
    } else {
      assert RelaxOne(grid, size, goal, h, c, gc, s', n) == s';
      RelaxSkip(grid, size, goal, h, c, gc, ns, i, s, s');
    }
  }

  /** Relaxing a prefix of distinct neighbours meets the characterisation. */
  lemma {:induction false} RelaxPrefix(grid: seq<seq<int>>, size: int, goal: Cell, h: (Cell, Cell) -> real,
                                       c: Cell, gc: int, ns: seq<Cell>, i: nat, s: SearchState)
    requires Distinct(ns) && i <= |ns|
    ensures Relaxed(grid, size, goal, h, c, gc, ns[..i], s, Relax(grid, size, goal, h, c, gc, ns[..i], s))
    decreases i
  {
    if i == 0 {
      assert ns[..0] == [];
    } else {
      RelaxPrefix(grid, size, goal, h, c, gc, ns, i - 1, s);
      RelaxNext(grid, size, goal, h, c, gc, ns, i - 1, s);
      RelaxStep(grid, size, goal, h, c, gc, ns, i - 1, s, Relax(grid, size, goal, h, c, gc, ns[..i - 1], s));
    }
  }

  /** Relaxing distinct neighbours in order is the relaxation `Relaxed`
      describes, and the only state it describes. */
  lemma RelaxMeans(grid: seq<seq<int>>, size: int, goal: Cell, h: (Cell, Cell) -> real,
                   c: Cell, gc: int, ns: seq<Cell>, s: SearchState)
    requires Distinct(ns)
    ensures Relaxed(grid, size, goal, h, c, gc, ns, s, Relax(grid, size, goal, h, c, gc, ns, s))
    ensures forall s' :: Relaxed(grid, size, goal, h, c, gc, ns, s, s') ==> s' == Relax(grid, size, goal, h, c, gc, ns, s)
  {
    RelaxPrefix(grid, size, goal, h, c, gc, ns, |ns|, s);
    assert ns[..|ns|] == ns;
    forall s' | Relaxed(grid, size, goal, h, c, gc, ns, s, s') ensures s' == Relax(grid, size, goal, h, c, gc, ns, s) {
      RelaxedUnique(grid, size, goal, h, c, gc, ns, s, s', Relax(grid, size, goal, h, c, gc, ns, s));
    }
  }

  /** One pop that does not end the search: the first least entry leaves the
      heap; a stale one changes nothing else, and the current entry of a cell
      other than the goal has that cell's neighbours relaxed. */
  ghost predicate Step(grid: seq<seq<int>>, size: int, goal: Cell, h: (Cell, Cell) -> real,
                       s: SearchState, s': SearchState)
  {
    && |s.heap| > 0
    && var k := FirstLeast(s.heap);
       var e := s.heap[k];
       var rest := SearchState(s.heap[..k] + s.heap[k + 1..], s.g, s.parent, s.tie);
       if e.node !in s.g || e.g != s.g[e.node] then s' == rest
       else e.node != goal && s' == Relax(grid, size, goal, h, e.node, e.g, NeighbourList(size, e.node), rest)
  }

  /** The least entry is the goal's current one: the search stops with a path. */
  ghost predicate GoalReached(goal: Cell, s: SearchState)
  {
    && |s.heap| > 0
    && var e := s.heap[FirstLeast(s.heap)];
       e.node == goal && e.node in s.g && e.g == s.g[e.node]
  }

  /** Popping a stale entry is a step that changes nothing but the heap. */
  lemma StaleStep(grid: seq<seq<int>>, size: int, goal: Cell, h: (Cell, Cell) -> real, s: SearchState, k: nat)
    requires |s.heap| > 0 && k == FirstLeast(s.heap)
    requires s.heap[k].node !in s.g || s.heap[k].g != s.g[s.heap[k].node]
    ensures Step(grid, size, goal, h, s, SearchState(s.heap[..k] + s.heap[k + 1..], s.g, s.parent, s.tie))
  {
  }

  /** Popping the current entry of a cell other than the goal and relaxing
      that cell's neighbours is a step. */
  lemma ExpandStep(grid: seq<seq<int>>, size: int, goal: Cell, h: (Cell, Cell) -> real, s: SearchState, k: nat, s': SearchState)
    requires |s.heap| > 0 && k == FirstLeast(s.heap)
    requires var e := s.heap[k]; e.node in s.g && e.g == s.g[e.node] && e.node != goal
    requires var e := s.heap[k];
      s' == Relax(grid, size, goal, h, e.node, e.g, NeighbourList(size, e.node),
                  SearchState(s.heap[..k] + s.heap[k + 1..], s.g, s.parent, s.tie))
    ensures Step(grid, size, goal, h, s, s')
  {
  }

  /** The search stops: the heap is exhausted or the goal is reached. */
  ghost predicate Ended(goal: Cell, s: SearchState)
  {
    s.heap == [] || GoalReached(goal, s)
  }

  /** The state after `t[k]` in `t` is a step from it. */
  ghost predicate StepAt(grid: seq<seq<int>>, size: int, goal: Cell, h: (Cell, Cell) -> real,
                         t: seq<SearchState>, k: int)
  {
    0 <= k < |t| - 1 && Step(grid, size, goal, h, t[k], t[k + 1])
  }

  /** A run of the loop from its initial state, one step per pop. */
  ghost predicate Trace(grid: seq<seq<int>>, size: int, start: Cell, goal: Cell, h: (Cell, Cell) -> real,
                        t: seq<SearchState>)
  {
    && |t| >= 1 && t[0] == Initial(start, goal, h)
    && forall k {:trigger StepAt(grid, size, goal, h, t, k)} :: 0 <= k < |t| - 1 ==> StepAt(grid, size, goal, h, t, k)
  }

  /** A state determines the next one, and an ended search makes no step. */
  lemma StepUnique(grid: seq<seq<int>>, size: int, goal: Cell, h: (Cell, Cell) -> real,
                   s: SearchState, a: SearchState, b: SearchState)
    requires Step(grid, size, goal, h, s, a)
    ensures Step(grid, size, goal, h, s, b) ==> a == b
    ensures !Ended(goal, s)
  {
  }

  /** Appending a step to a run gives a run. */
  lemma TraceGrows(grid: seq<seq<int>>, size: int, start: Cell, goal: Cell, h: (Cell, Cell) -> real,
                   t: seq<SearchState>, s: SearchState)
    requires Trace(grid, size, start, goal, h, t) && Step(grid, size, goal, h, t[|t| - 1], s)
    ensures Trace(grid, size, start, goal, h, t + [s])
  {
    var t' := t + [s];
    forall k | 0 <= k < |t'| - 1 ensures StepAt(grid, size, goal, h, t', k) {
      assert t'[k] == t[k];
      if k + 1 < |t| {
        assert StepAt(grid, size, goal, h, t, k);
        assert t'[k + 1] == t[k + 1];
      }
    }
  }

  /** Two runs agree as far as both go. */
  lemma {:induction false} TracesAgree(grid: seq<seq<int>>, size: int, start: Cell, goal: Cell, h: (Cell, Cell) -> real,
                                       t1: seq<SearchState>, t2: seq<SearchState>, k: nat)
    requires Trace(grid, size, start, goal, h, t1) && Trace(grid, size, start, goal, h, t2)
    requires k < |t1| && k < |t2|
    ensures t1[k] == t2[k]
  {
    if k > 0 {
      TracesAgree(grid, size, start, goal, h, t1, t2, k - 1);
      assert StepAt(grid, size, goal, h, t1, k - 1) && StepAt(grid, size, goal, h, t2, k - 1);
      StepUnique(grid, size, goal, h, t1[k - 1], t1[k], t2[k]);
    }
  }

  /** A run that has ended is determined by the grid, the two ends and the
      heuristic: so are its length, its final costs and its parent map. */
  lemma TraceDetermined(grid: seq<seq<int>>, size: int, start: Cell, goal: Cell, h: (Cell, Cell) -> real,
                        t1: seq<SearchState>, t2: seq<SearchState>)
    requires Trace(grid, size, start, goal, h, t1) && Ended(goal, t1[|t1| - 1])
    requires Trace(grid, size, start, goal, h, t2) && Ended(goal, t2[|t2| - 1])
    ensures t1 == t2
  {
    if |t1| < |t2| {
      TracesAgree(grid, size, start, goal, h, t1, t2, |t1| - 1);
      assert StepAt(grid, size, goal, h, t2, |t1| - 1);
      StepUnique(grid, size, goal, h, t2[|t1| - 1], t2[|t1|], t2[|t1|]);
    } else if |t2| < |t1| {
      TracesAgree(grid, size, start, goal, h, t1, t2, |t2| - 1);
      assert StepAt(grid, size, goal, h, t1, |t2| - 1);
      StepUnique(grid, size, goal, h, t1[|t2| - 1], t1[|t2|], t1[|t2|]);
    }
    forall k | 0 <= k < |t1| ensures t1[k] == t2[k] {
      TracesAgree(grid, size, start, goal, h, t1, t2, k);
    }
  }

}
