/**
  The rule asking for a fixed amount of a tile in every column of the grid.
 */
module PerColumn {
  import opened Cells
  import opened Grids
  import opened Rules
  import opened Counting

  /** The other cells of column `x`: every row but `y`. */
  ghost function ColumnNeighbours(g: Grid, x: int, y: int): (n: set<Coord>)
    requires g.Valid() && 0 <= x < g.width
    ensures Inside(g, n)
    ensures forall c :: c in n <==> c.x == x && 0 <= c.y < g.height && c.y != y
  {
    set Y | 0 <= Y < g.height && Y != y :: Coord(x, Y)
  }

  ghost function ColumnCensus(g: Grid, x: int, y: int, t: int): Tally
    requires g.Valid() && 0 <= x < g.width
  {
    Census(g, ColumnNeighbours(g, x, y), t)
  }

  /** Walks column `x` from the top, skipping row `y`, and tallies the cells for tile `t`. */
  method CountColumn(g: Grid, x: int, y: int, t: int) returns (c: Tally)
    requires g.Valid() && 0 <= x < g.width
    ensures c == ColumnCensus(g, x, y, t)
    ensures c.collapsed + c.possible <= if 0 <= y < g.height then g.height - 1 else g.height
  {
    c := Tally(0, 0);
    ghost var visited: set<Coord> := {};
    var Y := 0;
    while Y < g.height
      invariant 0 <= Y <= g.height
      invariant forall d :: d in visited <==> d.x == x && 0 <= d.y < Y && d.y != y
      invariant |visited| == Y - (if 0 <= y < Y then 1 else 0)
      invariant Inside(g, visited)
      invariant c == Census(g, visited, t)
      invariant c.collapsed + c.possible <= |visited|
    {
      if Y != y {
        var s := g.At(Coord(x, Y));
        CensusAdd(g, visited, Coord(x, Y), t);
        c := Visit(c, s, t);
        visited := visited + {Coord(x, Y)};
      }
      Y := Y + 1;
    }
    assert visited == ColumnNeighbours(g, x, y);
  }

  /** The verdict of the column rule `r` on tile `t` at cell (x, y). */
  method GetState(r: Rule, g: Grid, x: int, y: int, t: int) returns (v: State)
    requires r.PerColumn? && g.Valid() && 0 <= x < g.width
    ensures var n := ColumnCensus(g, x, y, t); v == Decide(n.collapsed, n.possible, r.amount)
  {
    var c := CountColumn(g, x, y, t);
    v := Decide(c.collapsed, c.possible, r.amount);
  }

  /**
    The census, and with it the verdict, depends only on the other cells of
    column `x`: edits anywhere else, or to (x, y) itself, leave it unchanged.
   */
  lemma ColumnLocal(g1: Grid, g2: Grid, x: int, y: int, t: int)
    requires g1.Valid() && g2.Valid() && g1.width == g2.width && g1.height == g2.height
    requires 0 <= x < g1.width
    requires forall Y :: 0 <= Y < g1.height && Y != y ==> g1.cells[x][Y] == g2.cells[x][Y]
    ensures ColumnCensus(g1, x, y, t) == ColumnCensus(g2, x, y, t)
  {
    var n := ColumnNeighbours(g1, x, y);
    assert n == ColumnNeighbours(g2, x, y);
    CensusLocal(g1, g2, n, t);
  }
}
