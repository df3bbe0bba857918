/**
 The invariant of the breadth-first search over the open cells: a queue of
 cells sorted by depth whose depths span at most one level, a parent map that
 lowers the depth by exactly one, and the expanded cells whose open
 neighbours are all discovered. From it follows that the first time the goal
 leaves the queue its depth is that of a shortest walk.
 */
module BfsInvariant {
  import opened Grid

  /** `depth` and `parent` describe a tree of walks rooted at `start`. */
  ghost predicate ParentTree(g: seq<seq<int>>, size: int, start: Cell, visited: set<Cell>,
                             parent: map<Cell, Cell>, depth: map<Cell, nat>)
  {
    && start in visited && depth.Keys == visited && depth[start] == 0
    && parent.Keys == visited - {start}
    && visited <= Discoverable(size, start)
    && forall c {:trigger c in parent} :: c in parent ==>
         && parent[c] in visited && depth[parent[c]] + 1 == depth[c]
         && Adjacent(parent[c], c) && IsOpen(g, size, c)
  }

  /** Along the queue depths do not decrease and differ by at most one. */
  ghost predicate QueueLevels(queue: seq<Cell>, depth: map<Cell, nat>)
  {
    && (forall i :: 0 <= i < |queue| ==> queue[i] in depth)
    && forall i, j :: 0 <= i <= j < |queue| ==>
         depth[queue[i]] <= depth[queue[j]] <= depth[queue[i]] + 1
  }

  /** Every open neighbour of an expanded cell was discovered at most one level deeper. */
  ghost predicate ExpandedClosed(g: seq<seq<int>>, size: int, done: set<Cell>,
                                 visited: set<Cell>, depth: map<Cell, nat>)
    requires depth.Keys == visited
  {
    forall c, d {:trigger d in NeighbourList(size, c), c in done} :: c in done && d in NeighbourList(size, c) && IsOpen(g, size, d) ==>
      d in visited && c in visited && depth[d] <= depth[c] + 1
  }

  /** The invariant at the head of the search loop. */
  ghost predicate BfsInv(g: seq<seq<int>>, size: int, start: Cell, goal: Cell, queue: seq<Cell>,
                         visited: set<Cell>, parent: map<Cell, Cell>, depth: map<Cell, nat>,
                         done: set<Cell>)
  {
    && ParentTree(g, size, start, visited, parent, depth)
    && QueueLevels(queue, depth)
    && (forall i :: 0 <= i < |queue| ==> queue[i] in visited && queue[i] !in done)
    && Distinct(queue)
    && done <= visited
    && (forall d, i {:trigger d in done, queue[i]} :: d in done && 0 <= i < |queue| ==> depth[d] <= depth[queue[i]])
    && (forall c {:trigger c in visited} :: c in visited ==> c in done || c in queue)
    && goal !in done
    && ExpandedClosed(g, size, done, visited, depth)
  }

  /** Walking from the start through expanded cells only, the `i`-th cell of a
      walk has been discovered at depth at most `i`. */
  lemma {:induction false} WalkPrefixDepth(g: seq<seq<int>>, size: int, start: Cell, visited: set<Cell>,
                                           depth: map<Cell, nat>, done: set<Cell>,
                                           w: seq<Cell>, to: Cell, i: nat)
    requires depth.Keys == visited && start in visited && depth[start] == 0
    requires ExpandedClosed(g, size, done, visited, depth)
    requires IsWalk(g, size, w, start, to) && i < |w|
    requires forall j :: 0 <= j < i ==> w[j] in done
    ensures w[i] in visited && depth[w[i]] <= i
  {
    if i > 0 {
      WalkPrefixDepth(g, size, start, visited, depth, done, w, to, i - 1);
      var a, b := w[i - 1], w[i];
      assert a in done && Adjacent(a, b) && IsOpen(g, size, b);
      NeighbourListMembers(size, a);
      assert b in NeighbourList(size, a);
      assert b in visited && depth[b] <= depth[a] + 1;
    }
  }

  /** The first cell of the walk that is not expanded is in the queue, so the
      front of the queue is no deeper than the walk is long. */
  lemma {:induction false} FrontNoDeeperThanWalk(g: seq<seq<int>>, size: int, start: Cell, goal: Cell,
                                                 queue: seq<Cell>, visited: set<Cell>, parent: map<Cell, Cell>,
                                                 depth: map<Cell, nat>, done: set<Cell>,
                                                 w: seq<Cell>, i: nat)
    requires BfsInv(g, size, start, goal, queue, visited, parent, depth, done)
    requires IsWalk(g, size, w, start, goal) && i < |w|
    requires forall j :: 0 <= j < i ==> w[j] in done
    requires |queue| > 0
    ensures depth[queue[0]] <= |w| - 1
    decreases |w| - i
  {
    WalkPrefixDepth(g, size, start, visited, depth, done, w, goal, i);
    if w[i] in done {
      FrontNoDeeperThanWalk(g, size, start, goal, queue, visited, parent, depth, done, w, i + 1);
    } else {
      var m :| 0 <= m < |queue| && queue[m] == w[i];
      assert depth[queue[0]] <= depth[queue[m]];
    }
  }

  /** When the goal is at the front of the queue, no walk from the start to
      the goal is shorter than its depth. */
  lemma GoalAtFrontIsNearest(g: seq<seq<int>>, size: int, start: Cell, goal: Cell,
                             queue: seq<Cell>, visited: set<Cell>, parent: map<Cell, Cell>,
                             depth: map<Cell, nat>, done: set<Cell>)
    requires BfsInv(g, size, start, goal, queue, visited, parent, depth, done)
    requires |queue| > 0 && queue[0] == goal
    ensures forall w :: IsWalk(g, size, w, start, goal) ==> depth[goal] <= |w| - 1
  {
    forall w | IsWalk(g, size, w, start, goal) ensures depth[goal] <= |w| - 1 {
      FrontNoDeeperThanWalk(g, size, start, goal, queue, visited, parent, depth, done, w, 0);
    }
  }

  /** With the queue empty every discovered cell is expanded. */
  lemma EmptyQueueExpandedAll(g: seq<seq<int>>, size: int, start: Cell, goal: Cell,
                              visited: set<Cell>, parent: map<Cell, Cell>,
                              depth: map<Cell, nat>, done: set<Cell>)
    requires BfsInv(g, size, start, goal, [], visited, parent, depth, done)
    ensures start in done && goal !in done && ClosedUnderNeighbours(g, size, done)
  {
    EmptyQueueCover(visited, done, []);
    ExpandedAllIsClosed(g, size, visited, depth, done);
  }

  lemma EmptyQueueCover(visited: set<Cell>, done: set<Cell>, queue: seq<Cell>)
    requires queue == [] && forall v :: v in visited ==> v in done || v in queue
    ensures visited <= done
  {
  }

  /** Expanded cells that include every discovered cell are closed under open neighbours. */
  lemma ExpandedAllIsClosed(g: seq<seq<int>>, size: int, visited: set<Cell>, depth: map<Cell, nat>, done: set<Cell>)
    requires depth.Keys == visited && visited <= done
    requires ExpandedClosed(g, size, done, visited, depth)
    ensures ClosedUnderNeighbours(g, size, done)
  {
  }

  /** Once the queue is empty the expanded cells hold the start and are
      closed under open neighbours, and the goal is not among them: no walk
      reaches it. */
  lemma EmptyQueueMeansNoWalk(g: seq<seq<int>>, size: int, start: Cell, goal: Cell,
                              visited: set<Cell>, parent: map<Cell, Cell>,
                              depth: map<Cell, nat>, done: set<Cell>)
    requires BfsInv(g, size, start, goal, [], visited, parent, depth, done)
    ensures forall w :: !IsWalk(g, size, w, start, goal)
  {
    EmptyQueueExpandedAll(g, size, start, goal, visited, parent, depth, done);
    forall w ensures !IsWalk(g, size, w, start, goal) {
      if IsWalk(g, size, w, start, goal) {
        WalkStaysInClosedSet(g, size, done, w, start, goal);
        assert false;
      }
    }
  }

  /** The search starts with the start cell alone in the queue. */
  lemma BfsInit(g: seq<seq<int>>, size: int, start: Cell, goal: Cell)
    ensures BfsInv(g, size, start, goal, [start], {start}, map[], map[start := 0], {})
  {
  }

  /** The invariant while the neighbours `ns` of the popped cell `c` are
      scanned: the first `i` of them are settled. */
  ghost predicate ExpandInv(g: seq<seq<int>>, size: int, start: Cell, goal: Cell, c: Cell,
                            ns: seq<Cell>, i: nat, queue: seq<Cell>,
                            visited: set<Cell>, parent: map<Cell, Cell>, depth: map<Cell, nat>,
                            done: set<Cell>)
  {
    && ParentTree(g, size, start, visited, parent, depth)
    && ns == NeighbourList(size, c) && i <= |ns|
    && c in done && done <= visited && goal !in done
    && QueueLevels(queue, depth)
    && (forall k :: 0 <= k < |queue| ==> queue[k] in visited && queue[k] !in done)
    && (forall k :: 0 <= k < |queue| ==> depth[c] <= depth[queue[k]] <= depth[c] + 1)
    && Distinct(queue)
    && (forall d :: d in done ==> depth[d] <= depth[c])
    && (forall v :: v in visited ==> v in done || v in queue)
    && ExpandedClosed(g, size, done - {c}, visited, depth)
    && forall j :: 0 <= j < i && IsOpen(g, size, ns[j]) ==> ns[j] in visited && depth[ns[j]] <= depth[c] + 1
  }

  /** Dropping the front of a duplicate-free queue moves it from the queued
      cells to the expanded ones. */
  lemma QueuePop(queue: seq<Cell>, visited: set<Cell>, depth: map<Cell, nat>, done: set<Cell>)
    requires |queue| > 0 && QueueLevels(queue, depth) && Distinct(queue)
    requires forall k :: 0 <= k < |queue| ==> queue[k] in visited && queue[k] !in done
    requires forall v :: v in visited ==> v in done || v in queue
    ensures QueueLevels(queue[1..], depth) && Distinct(queue[1..])
    ensures forall k :: 0 <= k < |queue[1..]| ==> queue[1..][k] in visited && queue[1..][k] !in done + {queue[0]}
    ensures forall k :: 0 <= k < |queue[1..]| ==> depth[queue[0]] <= depth[queue[1..][k]] <= depth[queue[0]] + 1
    ensures forall v :: v in visited ==> v in done + {queue[0]} || v in queue[1..]
  {
    var c, rest := queue[0], queue[1..];
    forall k | 0 <= k < |rest| ensures rest[k] == queue[k + 1] { }
    forall v | v in visited ensures v in done + {c} || v in rest {
      if v !in done && v != c {
        var k :| 0 <= k < |queue| && queue[k] == v;
        assert rest[k - 1] == v;
      }
    }
  }

  /** Popping a cell other than the goal starts its expansion. */
  lemma ExpandBegin(g: seq<seq<int>>, size: int, start: Cell, goal: Cell, queue: seq<Cell>,
                    visited: set<Cell>, parent: map<Cell, Cell>, depth: map<Cell, nat>, done: set<Cell>)
    requires BfsInv(g, size, start, goal, queue, visited, parent, depth, done)
    requires |queue| > 0 && queue[0] != goal
    ensures queue[0] in Discoverable(size, start) - done
    ensures ExpandInv(g, size, start, goal, queue[0], NeighbourList(size, queue[0]), 0, queue[1..],
                      visited, parent, depth, done + {queue[0]})
  {
    var c := queue[0];
    assert (done + {c}) - {c} == done;
    QueuePop(queue, visited, depth, done);
  }

  /** A neighbour that is a wall or already discovered is passed over. */
  lemma ExpandSkip(g: seq<seq<int>>, size: int, start: Cell, goal: Cell, c: Cell, ns: seq<Cell>, i: nat,
                   queue: seq<Cell>, visited: set<Cell>, parent: map<Cell, Cell>, depth: map<Cell, nat>,
                   done: set<Cell>)
    requires ExpandInv(g, size, start, goal, c, ns, i, queue, visited, parent, depth, done)
    requires i < |ns| && (!IsOpen(g, size, ns[i]) || ns[i] in visited)
    requires IsOpen(g, size, ns[i]) ==> depth[ns[i]] <= depth[c] + 1
    ensures ExpandInv(g, size, start, goal, c, ns, i + 1, queue, visited, parent, depth, done)
  {
  }

  /** A discovered neighbour of `c` that is open: since `c` was dequeued, the
      neighbour is expanded or still queued, hence at most one level deeper. */
  lemma SeenNeighbourDepth(g: seq<seq<int>>, size: int, start: Cell, goal: Cell, c: Cell, ns: seq<Cell>, i: nat,
                           queue: seq<Cell>, visited: set<Cell>, parent: map<Cell, Cell>, depth: map<Cell, nat>,
                           done: set<Cell>)
    requires ExpandInv(g, size, start, goal, c, ns, i, queue, visited, parent, depth, done)
    requires i < |ns| && ns[i] in visited
    ensures depth[ns[i]] <= depth[c] + 1
  {
    var d := ns[i];
    if d !in done {
      var k :| 0 <= k < |queue| && queue[k] == d;
    }
  }

  /** Adding `d` as a child of `c` keeps the tree of walks. */
  lemma ParentTreeGrows(g: seq<seq<int>>, size: int, start: Cell, c: Cell, d: Cell,
                        visited: set<Cell>, parent: map<Cell, Cell>, depth: map<Cell, nat>)
    requires ParentTree(g, size, start, visited, parent, depth)
    requires c in visited && d !in visited && d in NeighbourList(size, c) && IsOpen(g, size, d)
    ensures ParentTree(g, size, start, visited + {d}, parent[d := c], depth[d := depth[c] + 1])
  {
    NeighbourListMembers(size, c);
  }

  /** Appending a cell one level deeper than `c`, which every queued cell is
      at least as deep as, keeps the queue sorted by levels. */
  lemma QueueGrows(c: Cell, d: Cell, queue: seq<Cell>, depth: map<Cell, nat>, depth': map<Cell, nat>)
    requires QueueLevels(queue, depth) && c in depth && d !in depth
    requires forall k :: 0 <= k < |queue| ==> depth[c] <= depth[queue[k]] <= depth[c] + 1
    requires depth' == depth[d := depth[c] + 1]
    ensures QueueLevels(queue + [d], depth')
    ensures forall k :: 0 <= k < |queue + [d]| ==> depth'[c] <= depth'[(queue + [d])[k]] <= depth'[c] + 1
  {
    var queue' := queue + [d];
    forall k | 0 <= k < |queue'| ensures queue'[k] in depth' {
      if k < |queue| { assert queue'[k] == queue[k]; }
    }
    forall k, l | 0 <= k <= l < |queue'|
      ensures depth'[queue'[k]] <= depth'[queue'[l]] <= depth'[queue'[k]] + 1
    {
      if l < |queue| { assert queue'[k] == queue[k] && queue'[l] == queue[l]; }
      else if k < |queue| { assert queue'[k] == queue[k]; }
    }
    forall k | 0 <= k < |queue'| ensures depth'[c] <= depth'[queue'[k]] <= depth'[c] + 1 {
      if k < |queue| { assert queue'[k] == queue[k]; }
    }
  }

  /** Appending a cell not yet discovered keeps the queue duplicate-free and
      keeps every discovered cell expanded or queued. */
  lemma QueueCoverGrows(d: Cell, queue: seq<Cell>, visited: set<Cell>, done: set<Cell>)
    requires forall k :: 0 <= k < |queue| ==> queue[k] in visited && queue[k] !in done
    requires Distinct(queue) && d !in visited && done <= visited
    requires forall v :: v in visited ==> v in done || v in queue
    ensures forall k :: 0 <= k < |queue + [d]| ==> (queue + [d])[k] in visited + {d} && (queue + [d])[k] !in done
    ensures Distinct(queue + [d])
    ensures forall v :: v in visited + {d} ==> v in done || v in queue + [d]
  {
    var queue' := queue + [d];
    forall k | 0 <= k < |queue'| ensures queue'[k] in visited + {d} && queue'[k] !in done {
      if k < |queue| { assert queue'[k] == queue[k]; }
    }
    forall k, l | 0 <= k < l < |queue'| ensures queue'[k] != queue'[l] {
      if l < |queue| { assert queue'[k] == queue[k] && queue'[l] == queue[l]; }
      else { assert queue'[k] == queue[k]; }
    }
    forall v | v in visited + {d} ensures v in done || v in queue' {
      if v == d { assert queue'[|queue|] == d; }
      else if v !in done {
        var k :| 0 <= k < |queue| && queue[k] == v;
        assert queue'[k] == v;
      }
    }
  }

  /** Discovering a new cell keeps the expanded cells closed and the scanned
      neighbours settled. */
  lemma SettledGrows(g: seq<seq<int>>, size: int, c: Cell, ns: seq<Cell>, i: nat,
                     visited: set<Cell>, depth: map<Cell, nat>, done: set<Cell>,
                     visited': set<Cell>, depth': map<Cell, nat>)
    requires depth.Keys == visited && c in visited && i < |ns| && ns[i] !in visited && IsOpen(g, size, ns[i])
    requires ExpandedClosed(g, size, done - {c}, visited, depth)
    requires forall j :: 0 <= j < i && IsOpen(g, size, ns[j]) ==> ns[j] in visited && depth[ns[j]] <= depth[c] + 1
    requires visited' == visited + {ns[i]} && depth' == depth[ns[i] := depth[c] + 1]
    ensures depth'.Keys == visited'
    ensures ExpandedClosed(g, size, done - {c}, visited', depth')
    ensures forall j :: 0 <= j < i + 1 && IsOpen(g, size, ns[j]) ==> ns[j] in visited' && depth'[ns[j]] <= depth'[c] + 1
  {
    forall a, e | a in done - {c} && e in NeighbourList(size, a) && IsOpen(g, size, e)
      ensures e in visited' && a in visited' && depth'[e] <= depth'[a] + 1
    {
      assert e in visited && a in visited;
    }
    forall j | 0 <= j < i + 1 && IsOpen(g, size, ns[j])
      ensures ns[j] in visited' && depth'[ns[j]] <= depth'[c] + 1
    {
      if j < i { assert ns[j] in visited; }
    }
  }

  /** An open neighbour seen for the first time is discovered one level
      deeper than `c`, with `c` as its parent, at the back of the queue. */
  lemma ExpandVisit(g: seq<seq<int>>, size: int, start: Cell, goal: Cell, c: Cell, ns: seq<Cell>, i: nat,
                    queue: seq<Cell>, visited: set<Cell>, parent: map<Cell, Cell>, depth: map<Cell, nat>,
                    done: set<Cell>)
    requires ExpandInv(g, size, start, goal, c, ns, i, queue, visited, parent, depth, done)
    requires i < |ns| && IsOpen(g, size, ns[i]) && ns[i] !in visited
    ensures ExpandInv(g, size, start, goal, c, ns, i + 1, queue + [ns[i]], visited + {ns[i]},
                      parent[ns[i] := c], depth[ns[i] := depth[c] + 1], done)
  {
    var d := ns[i];
    assert d in ns;
    var visited', depth' := visited + {d}, depth[d := depth[c] + 1];
    ParentTreeGrows(g, size, start, c, d, visited, parent, depth);
    QueueGrows(c, d, queue, depth, depth');
    QueueCoverGrows(d, queue, visited, done);
    SettledGrows(g, size, c, ns, i, visited, depth, done, visited', depth');
    assert forall e :: e in done ==> depth'[e] <= depth'[c];
  }

  /** Once every neighbour of `c` is settled, `c` may join the expanded cells. */
  lemma ExpandedClosedGrows(g: seq<seq<int>>, size: int, c: Cell, ns: seq<Cell>,
                            visited: set<Cell>, depth: map<Cell, nat>, done: set<Cell>)
    requires depth.Keys == visited && c in done && done <= visited && ns == NeighbourList(size, c)
    requires ExpandedClosed(g, size, done - {c}, visited, depth)
    requires forall j :: 0 <= j < |ns| && IsOpen(g, size, ns[j]) ==> ns[j] in visited && depth[ns[j]] <= depth[c] + 1
    ensures ExpandedClosed(g, size, done, visited, depth)
  {
    forall a, d | a in done && d in NeighbourList(size, a) && IsOpen(g, size, d)
      ensures d in visited && a in visited && depth[d] <= depth[a] + 1
    {
      if a == c {
        var j :| 0 <= j < |ns| && ns[j] == d;
      } else {
        assert a in done - {c};
      }
    }
  }

  /** With every neighbour of `c` settled, `c` joins the expanded cells. */
  lemma ExpandEnd(g: seq<seq<int>>, size: int, start: Cell, goal: Cell, c: Cell, ns: seq<Cell>,
                  queue: seq<Cell>, visited: set<Cell>, parent: map<Cell, Cell>, depth: map<Cell, nat>,
                  done: set<Cell>)
    requires ExpandInv(g, size, start, goal, c, ns, |ns|, queue, visited, parent, depth, done)
    ensures BfsInv(g, size, start, goal, queue, visited, parent, depth, done)
  {
    ExpandedClosedGrows(g, size, c, ns, visited, depth, done);
    assert forall d, i :: d in done && 0 <= i < |queue| ==> depth[d] <= depth[queue[i]];
  }

  /** `s` is read from the goal back towards the start along `parent`: its
      `i`-th cell is `i` levels above the goal, each cell is adjacent to the
      next one, and all but the last are open. */
  ghost predicate BackChain(g: seq<seq<int>>, size: int, goal: Cell, depth: map<Cell, nat>, s: seq<Cell>)
  {
    && |s| >= 1 && s[0] == goal && goal in depth
    && (forall i :: 0 <= i < |s| ==> s[i] in depth && depth[s[i]] + i == depth[goal])
    && (forall i :: 0 <= i < |s| - 1 ==> Adjacent(s[i + 1], s[i]) && IsOpen(g, size, s[i]))
  }

  lemma BackChainInit(g: seq<seq<int>>, size: int, start: Cell, visited: set<Cell>,
                      parent: map<Cell, Cell>, depth: map<Cell, nat>, goal: Cell)
    requires ParentTree(g, size, start, visited, parent, depth) && goal in visited
    ensures BackChain(g, size, goal, depth, [goal])
  {
  }

  /** One step up the parent map extends the chain. */
  lemma BackChainStep(g: seq<seq<int>>, size: int, start: Cell, visited: set<Cell>,
                      parent: map<Cell, Cell>, depth: map<Cell, nat>, goal: Cell, s: seq<Cell>)
    requires ParentTree(g, size, start, visited, parent, depth)
    requires BackChain(g, size, goal, depth, s) && s[|s| - 1] in visited && s[|s| - 1] != start
    ensures s[|s| - 1] in parent && parent[s[|s| - 1]] in visited
    ensures depth[parent[s[|s| - 1]]] < depth[s[|s| - 1]]
    ensures BackChain(g, size, goal, depth, s + [parent[s[|s| - 1]]])
  {
    var cur := s[|s| - 1];
    var s' := s + [parent[cur]];
    forall i | 0 <= i < |s'| ensures s'[i] in depth && depth[s'[i]] + i == depth[goal] {
      if i < |s| { assert s'[i] == s[i]; }
    }
    forall i | 0 <= i < |s'| - 1 ensures Adjacent(s'[i + 1], s'[i]) && IsOpen(g, size, s'[i]) {
      if i < |s| - 1 { assert s'[i] == s[i] && s'[i + 1] == s[i + 1]; }
    }
  }

  /** A chain that has reached the start is, reversed, a walk from the start
      to the goal without repeated cells, one cell longer than the goal is deep. */
  lemma BackChainComplete(g: seq<seq<int>>, size: int, start: Cell, goal: Cell,
                          depth: map<Cell, nat>, s: seq<Cell>)
    requires BackChain(g, size, goal, depth, s) && s[|s| - 1] == start
    ensures IsWalk(g, size, Reverse(s), start, goal) && Distinct(Reverse(s))
    ensures |Reverse(s)| == depth[goal] - depth[start] + 1
  {
    assert Distinct(s) by {
      forall i, j | 0 <= i < j < |s| ensures s[i] != s[j] {
        assert depth[s[i]] != depth[s[j]];
      }
    }
    ReverseIsWalk(g, size, s, start, goal);
  }

}
