/**
 The generator's frontier records and the odd/even layout of the perfect
 maze: cells live at odd coordinates, and the wall between two cells two
 steps apart is the cell halfway between them.
 */
module Frontier {
  import opened Grid

  /** The record `(wx, wy, cx, cy, nx, ny)`: breaking `wall` joins the
      visited `source` to `target`. */
  datatype WallRecord = WallRecord(wall: Cell, source: Cell, target: Cell)

  /** The four jumps of two cells, in the generator's enumeration order. */
  const Jumps: seq<(int, int)> := [(0, 2), (0, -2), (2, 0), (-2, 0)]

  predicate Odd(n: int)
  {
    n % 2 == 1
  }

  /** Both coordinates are odd: the cells of the maze proper. */
  predicate OddCell(c: Cell)
  {
    Odd(c.x) && Odd(c.y)
  }

  /** Strictly inside the border of a grid of side `size`. */
  predicate Interior(size: int, c: Cell)
  {
    0 < c.x < size - 1 && 0 < c.y < size - 1
  }

  ghost function InteriorSet(size: int): set<Cell>
  {
    set x, y | 0 < x < size - 1 && 0 < y < size - 1 :: Cell(x, y)
  }

  predicate TwoApart(a: Cell, b: Cell)
  {
    || (a.x == b.x && (b.y == a.y + 2 || b.y == a.y - 2))
    || (a.y == b.y && (b.x == a.x + 2 || b.x == a.x - 2))
  }

  function Midpoint(a: Cell, b: Cell): Cell
  {
    Cell((a.x + b.x) / 2, (a.y + b.y) / 2)
  }

  /** The record for jump `d` from `c`: the wall is at `c + d // 2`, the target at `c + d`. */
  function Jump(c: Cell, d: (int, int)): WallRecord
  {
    WallRecord(Cell(c.x + d.0 / 2, c.y + d.1 / 2), c, Cell(c.x + d.0, c.y + d.1))
  }

  function AllJumps(c: Cell): seq<WallRecord>
  {
    seq(4, i requires 0 <= i < 4 => Jump(c, Jumps[i]))
  }

  /** The records of `rs` whose target is strictly inside the border, in their order. */
  function KeepInteriorTargets(size: int, rs: seq<WallRecord>): seq<WallRecord>
  {
    if rs == [] then []
    else KeepInteriorTargets(size, rs[..|rs| - 1])
         + (if Interior(size, rs[|rs| - 1].target) then [rs[|rs| - 1]] else [])
  }

  /** The records the generator appends around `c`. */
  function FrontierRecords(size: int, c: Cell): seq<WallRecord>
  {
    KeepInteriorTargets(size, AllJumps(c))
  }

  /** A record of the shape the generator pushes: its target is two steps from
      its source, strictly inside the border, and its wall is the midpoint. */
  predicate WellFormedRecord(size: int, r: WallRecord)
  {
    TwoApart(r.source, r.target) && r.wall == Midpoint(r.source, r.target) && Interior(size, r.target)
  }

  lemma {:induction false} KeepInteriorTargetsMembers(size: int, rs: seq<WallRecord>)
    ensures |KeepInteriorTargets(size, rs)| <= |rs|
    ensures forall r :: r in KeepInteriorTargets(size, rs) <==> r in rs && Interior(size, r.target)
    ensures (forall r {:trigger r in rs} :: r in rs ==> !Interior(size, r.target)) ==> KeepInteriorTargets(size, rs) == []
  {
    if rs != [] {
      KeepInteriorTargetsMembers(size, rs[..|rs| - 1]);
      assert rs == rs[..|rs| - 1] + [rs[|rs| - 1]];
    }
  }

  /** At most four records around `c`, each from `c`, well formed; and every
      interior cell two steps from `c` is the target of one of them. */
  lemma FrontierRecordsShape(size: int, c: Cell)
    ensures |FrontierRecords(size, c)| <= 4
    ensures forall r {:trigger r in FrontierRecords(size, c)} :: r in FrontierRecords(size, c) ==> r.source == c && WellFormedRecord(size, r)
    ensures forall t :: Interior(size, t) && TwoApart(c, t) ==>
              WallRecord(Midpoint(c, t), c, t) in FrontierRecords(size, c)
  {
    AllJumpsShape(c);
    AllJumpsCover(c);
    KeepInteriorTargetsMembers(size, AllJumps(c));
  }

  /** The four jumps from `c`, written out. */
  lemma AllJumpsListed(c: Cell)
    ensures AllJumps(c) == [WallRecord(Cell(c.x, c.y + 1), c, Cell(c.x, c.y + 2)),
                            WallRecord(Cell(c.x, c.y - 1), c, Cell(c.x, c.y - 2)),
                            WallRecord(Cell(c.x + 1, c.y), c, Cell(c.x + 2, c.y)),
                            WallRecord(Cell(c.x - 1, c.y), c, Cell(c.x - 2, c.y))]
  {
  }

  /** Every jump from `c` goes two steps and breaks the wall halfway. */
  lemma AllJumpsShape(c: Cell)
    ensures forall r {:trigger r in AllJumps(c)} :: r in AllJumps(c) ==>
              r.source == c && TwoApart(c, r.target) && r.wall == Midpoint(c, r.target)
  {
    AllJumpsListed(c);
  }

  /** Every cell two steps from `c` is the target of a jump from `c`. */
  lemma AllJumpsCover(c: Cell)
    ensures forall t :: TwoApart(c, t) ==> WallRecord(Midpoint(c, t), c, t) in AllJumps(c)
  {
    AllJumpsListed(c);
    var js := AllJumps(c);
    forall t | TwoApart(c, t)
      ensures WallRecord(Midpoint(c, t), c, t) in js
    {
      if t.y == c.y + 2 && t.x == c.x { assert WallRecord(Midpoint(c, t), c, t) == js[0]; }
      else if t.y == c.y - 2 && t.x == c.x { assert WallRecord(Midpoint(c, t), c, t) == js[1]; }
      else if t.x == c.x + 2 { assert WallRecord(Midpoint(c, t), c, t) == js[2]; }
      else { assert WallRecord(Midpoint(c, t), c, t) == js[3]; }
    }
  }

  lemma OddTwoApart(a: Cell, b: Cell)
    requires OddCell(a) && TwoApart(a, b)
    ensures OddCell(b) && TwoApart(b, a) && Midpoint(b, a) == Midpoint(a, b)
  {
  }

  /** The wall between two maze cells has exactly one even coordinate, so it is
      not itself a maze cell, and it shares a side with both of them. */
  lemma MidpointShape(a: Cell, b: Cell)
    requires OddCell(a) && TwoApart(a, b)
    ensures !OddCell(Midpoint(a, b))
    ensures Odd(Midpoint(a, b).x) || Odd(Midpoint(a, b).y)
    ensures Adjacent(a, Midpoint(a, b)) && Adjacent(Midpoint(a, b), b)
  {
  }

  /** A wall determines the two maze cells it separates. */
  lemma MidpointDeterminesEnds(a: Cell, b: Cell, c: Cell, d: Cell)
    requires OddCell(a) && TwoApart(a, b) && OddCell(c) && TwoApart(c, d)
    requires Midpoint(a, b) == Midpoint(c, d)
    ensures (c == a && d == b) || (c == b && d == a)
  {
  }

  /** The only maze cells that share a side with a wall are the two it separates. */
  lemma OddNeighbourOfMidpoint(a: Cell, b: Cell, c: Cell)
    requires OddCell(a) && TwoApart(a, b) && OddCell(c)
    requires Adjacent(c, Midpoint(a, b))
    ensures c == a || c == b
  {
  }

  /** Every interior cell two steps from a member of `s` is in `s`. */
  ghost predicate ClosedUnderJumps(size: int, s: set<Cell>)
  {
    forall v, t :: v in s && Interior(size, t) && TwoApart(v, t) ==> t in s
  }

  /** Jumps of two connect any two interior maze cells without leaving the interior. */
  lemma {:induction false} JumpsReachInterior(size: int, s: set<Cell>, a: Cell, b: Cell)
    requires ClosedUnderJumps(size, s) && a in s
    requires Interior(size, a) && OddCell(a) && Interior(size, b) && OddCell(b)
    ensures b in s
    decreases Manhattan(a, b)
  {
    if a != b {
      var next :=
        if a.x < b.x then Cell(a.x + 2, a.y)
        else if a.x > b.x then Cell(a.x - 2, a.y)
        else if a.y < b.y then Cell(a.x, a.y + 2)
        else Cell(a.x, a.y - 2);
      assert TwoApart(a, next) && Interior(size, next);
      JumpsReachInterior(size, s, next, b);
    }
  }

  /** A set closed under jumps that holds a maze cell other than the far corner
      `(size - 1, size - 1)` holds every interior maze cell. */
  lemma CoverInterior(size: int, s: set<Cell>, start: Cell)
    requires size >= 3 && ClosedUnderJumps(size, s) && start in s
    requires OddCell(start) && 1 <= start.x < size && 1 <= start.y < size
    requires !(start.x == size - 1 && start.y == size - 1)
    ensures forall b :: Interior(size, b) && OddCell(b) ==> b in s
  {
    var a := start;
    if start.x == size - 1 {
      a := Cell(size - 3, start.y);
      assert TwoApart(start, a) && Interior(size, a);
    } else if start.y == size - 1 {
      a := Cell(start.x, size - 3);
      assert TwoApart(start, a) && Interior(size, a);
    }
    forall b | Interior(size, b) && OddCell(b) ensures b in s {
      JumpsReachInterior(size, s, a, b);
    }
  }

  /** With the start in the far corner of an even grid no record is ever pushed:
      the generator then opens the start cell and nothing else. */
  lemma CornerStartHasNoFrontier(size: int)
    requires size >= 4 && !Odd(size)
    ensures OddCell(Cell(size - 1, size - 1))
    ensures FrontierRecords(size, Cell(size - 1, size - 1)) == []
    ensures Interior(size, Cell(1, 1)) && OddCell(Cell(1, 1))
  {
    var c := Cell(size - 1, size - 1);
    var js := AllJumps(c);
    assert js == [Jump(c, (0, 2)), Jump(c, (0, -2)), Jump(c, (2, 0)), Jump(c, (-2, 0))];
    assert forall i :: 0 <= i < 4 ==> !Interior(size, js[i].target);
    KeepInteriorTargetsMembers(size, js);
  }

}
