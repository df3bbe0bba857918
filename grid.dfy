/**
 The labyrinth's square grid of walls (1) and open cells (0), the cells that
 are 4-adjacent to a cell in the order the labyrinth lists them, and walks
 through open cells, which are the paths the searches return.
 */
module Grid {

  /** A cell, addressed as `grid[x][y]`. */
  datatype Cell = Cell(x: int, y: int)

  /** The number of rows (and of columns) of the grid built for `size`:
      `range(size)` is empty when `size` is not positive. */
  function Dim(size: int): nat
  {
    if size < 0 then 0 else size
  }

  /** `g` is a `Dim(size)` by `Dim(size)` matrix. */
  predicate IsGrid(g: seq<seq<int>>, size: int)
  {
    |g| == Dim(size) && forall i :: 0 <= i < |g| ==> |g[i]| == Dim(size)
  }

  predicate InBounds(size: int, c: Cell)
  {
    0 <= c.x < size && 0 <= c.y < size
  }

  /** Every cell of a grid of side `size`. */
  ghost function InBoundsSet(size: int): set<Cell>
  {
    set x, y | 0 <= x < size && 0 <= y < size :: Cell(x, y)
  }

  /** The cells a search from `start` can ever discover or record: the cells
      of the grid and the start itself. */
  ghost function Discoverable(size: int, start: Cell): set<Cell>
  {
    InBoundsSet(size) + {start}
  }

  /** The cell is inside the grid and holds 0. */
  predicate IsOpen(g: seq<seq<int>>, size: int, c: Cell)
  {
    InBounds(size, c) && c.x < |g| && c.y < |g[c.x]| && g[c.x][c.y] == 0
  }

  /** The two cells share a side. */
  predicate Adjacent(a: Cell, b: Cell)
  {
    || (a.x == b.x && (a.y - b.y == 1 || b.y - a.y == 1))
    || (a.y == b.y && (a.x - b.x == 1 || b.x - a.x == 1))
  }

  predicate Distinct(s: seq<Cell>)
  {
    forall i, j :: 0 <= i < j < |s| ==> s[i] != s[j]
  }

  /** The Manhattan distance `|a.x - b.x| + |a.y - b.y|`: never negative, zero
      exactly between a cell and itself. */
  function Manhattan(a: Cell, b: Cell): (r: int)
    ensures r >= 0
    ensures r == 0 <==> a == b
  {
    (if a.x < b.x then b.x - a.x else a.x - b.x) + (if a.y < b.y then b.y - a.y else a.y - b.y)
  }

  /** `g` with the entry `g[c.x][c.y]` replaced by `v`. */
  function SetCell(g: seq<seq<int>>, c: Cell, v: int): (r: seq<seq<int>>)
    requires 0 <= c.x < |g| && 0 <= c.y < |g[c.x]|
    ensures |r| == |g| && forall i :: 0 <= i < |g| ==> |r[i]| == |g[i]|
    ensures forall i, j :: 0 <= i < |g| && 0 <= j < |g[i]| ==>
              r[i][j] == if i == c.x && j == c.y then v else g[i][j]
  {
    g[c.x := g[c.x][c.y := v]]
  }

  /** The four unit displacements, in the labyrinth's enumeration order. */
  const Directions: seq<(int, int)> := [(0, 1), (0, -1), (1, 0), (-1, 0)]

  /** The four cells next to `c`, in enumeration order, whether or not they are in bounds. */
  function Moves(c: Cell): seq<Cell>
  {
    seq(4, i requires 0 <= i < 4 => Cell(c.x + Directions[i].0, c.y + Directions[i].1))
  }

  /** The in-bounds cells of `cs`, in their order. */
  function KeepInBounds(size: int, cs: seq<Cell>): seq<Cell>
  {
    if cs == [] then []
    else KeepInBounds(size, cs[..|cs| - 1])
         + (if InBounds(size, cs[|cs| - 1]) then [cs[|cs| - 1]] else [])
  }

  /** The neighbours the labyrinth enumerates for `c`. */
  function NeighbourList(size: int, c: Cell): seq<Cell>
  {
    KeepInBounds(size, Moves(c))
  }

  lemma {:induction false} KeepInBoundsMembers(size: int, cs: seq<Cell>)
    ensures |KeepInBounds(size, cs)| <= |cs|
    ensures forall d :: d in KeepInBounds(size, cs) <==> d in cs && InBounds(size, d)
    ensures Distinct(cs) ==> Distinct(KeepInBounds(size, cs))
  {
    if cs != [] {
      var init := cs[..|cs| - 1];
      KeepInBoundsMembers(size, init);
      assert cs == init + [cs[|cs| - 1]];
      if Distinct(cs) {
        assert Distinct(init);
        assert cs[|cs| - 1] !in init;
      }
    }
  }

  /** The neighbour list holds at most four distinct cells, and a cell is in
      it exactly when it is in bounds and shares a side with `c`. */
  lemma NeighbourListMembers(size: int, c: Cell)
    ensures |NeighbourList(size, c)| <= 4
    ensures Distinct(NeighbourList(size, c))
    ensures forall d :: d in NeighbourList(size, c) <==> InBounds(size, d) && Adjacent(c, d)
  {
    var m := Moves(c);
    assert m == [Cell(c.x, c.y + 1), Cell(c.x, c.y - 1), Cell(c.x + 1, c.y), Cell(c.x - 1, c.y)];
    KeepInBoundsMembers(size, m);
    forall d | Adjacent(c, d) ensures d in m {
      if d.x == c.x && d.y == c.y + 1 { assert d == m[0]; }
      else if d.x == c.x && d.y == c.y - 1 { assert d == m[1]; }
      else if d.x == c.x + 1 { assert d == m[2]; }
      else { assert d == m[3]; }
    }
  }

  /** A walk from `from` to `to`: consecutive cells share a side and every
      cell after the first is an open cell of the grid. */
  predicate IsWalk(g: seq<seq<int>>, size: int, w: seq<Cell>, from: Cell, to: Cell)
  {
    && |w| >= 1 && w[0] == from && w[|w| - 1] == to
    && (forall i :: 0 <= i < |w| - 1 ==> Adjacent(w[i], w[i + 1]))
    && (forall i :: 0 < i < |w| ==> IsOpen(g, size, w[i]))
  }

  /** No open neighbour of a member of `s` lies outside `s`. */
  ghost predicate ClosedUnderNeighbours(g: seq<seq<int>>, size: int, s: set<Cell>)
  {
    forall c, d :: c in s && d in NeighbourList(size, c) && IsOpen(g, size, d) ==> d in s
  }

  /** A set closed under open neighbours that holds the start of a walk holds all of the walk. */
  lemma {:induction false} WalkStaysInClosedSet(g: seq<seq<int>>, size: int, s: set<Cell>,
                                               w: seq<Cell>, from: Cell, to: Cell)
    requires IsWalk(g, size, w, from, to)
    requires from in s && ClosedUnderNeighbours(g, size, s)
    ensures forall i :: 0 <= i < |w| ==> w[i] in s
  {
    if |w| > 1 {
      var init := w[..|w| - 1];
      assert IsWalk(g, size, init, from, w[|w| - 2]);
      WalkStaysInClosedSet(g, size, s, init, from, w[|w| - 2]);
      var c, d := w[|w| - 2], w[|w| - 1];
      assert c in s && IsOpen(g, size, d);
      NeighbourListMembers(size, c);
      assert d in NeighbourList(size, c);
      assert forall i :: 0 <= i < |w| - 1 ==> w[i] == init[i];
    }
  }

  /** A cut of a walk at index `i` leaves a walk from `w[i]` to the end. */
  lemma WalkSuffix(g: seq<seq<int>>, size: int, w: seq<Cell>, from: Cell, to: Cell, i: nat)
    requires IsWalk(g, size, w, from, to) && i < |w|
    ensures IsWalk(g, size, w[i..], w[i], to)
  {
    var s := w[i..];
    assert forall j :: 0 <= j < |s| ==> s[j] == w[i + j];
  }

  /** The cells of `s` in the opposite order. */
  function Reverse(s: seq<Cell>): (r: seq<Cell>)
    ensures |r| == |s|
    ensures forall i :: 0 <= i < |s| ==> r[i] == s[|s| - 1 - i]
  {
    seq(|s|, i requires 0 <= i < |s| => s[|s| - 1 - i])
  }

  /** A chain read from `to` back to `from`, each cell adjacent to the next and
      open except the last, is, reversed, a walk from `from` to `to`; reversing
      keeps the cells distinct. */
  lemma ReverseIsWalk(g: seq<seq<int>>, size: int, s: seq<Cell>, from: Cell, to: Cell)
    requires |s| >= 1 && s[0] == to && s[|s| - 1] == from
    requires forall i :: 0 <= i < |s| - 1 ==> Adjacent(s[i + 1], s[i]) && IsOpen(g, size, s[i])
    ensures IsWalk(g, size, Reverse(s), from, to)
    ensures Distinct(s) ==> Distinct(Reverse(s))
  {
    var r := Reverse(s);
    forall i | 0 <= i < |r| - 1 ensures Adjacent(r[i], r[i + 1]) {
      assert r[i] == s[|s| - 1 - i] && r[i + 1] == s[|s| - 2 - i];
    }
    forall i | 0 < i < |r| ensures IsOpen(g, size, r[i]) {
      assert r[i] == s[|s| - 1 - i];
    }
  }

}
