/**
  The rule asking for a fixed amount of a tile in every row of the grid. It
  answers two yes/no questions instead of giving a four-way verdict.
 */
module PerRow {
  import opened Cells
  import opened Grids
  import opened Rules
  import opened Counting

  /** The other cells of row `y`: every column but `x`. */
  ghost function RowNeighbours(g: Grid, x: int, y: int): (n: set<Coord>)
    requires g.Valid() && 0 <= y < g.height
    ensures Inside(g, n)
    ensures forall c :: c in n <==> c.y == y && 0 <= c.x < g.width && c.x != x
  {
    set X | 0 <= X < g.width && X != x :: Coord(X, y)
  }

  ghost function RowCensus(g: Grid, x: int, y: int, t: int): Tally
    requires g.Valid() && 0 <= y < g.height
  {
    Census(g, RowNeighbours(g, x, y), t)
  }

  /** Whether the tile may still go here: the row holds fewer collapsed copies than asked for. */
  predicate RowPossible(c: Tally, amount: int) {
    c.collapsed < amount
  }

  /** Whether the tile must go here: the rest of the row cannot reach the amount on its own. */
  predicate RowForced(c: Tally, amount: int) {
    c.collapsed + c.possible <= amount - 1
  }

  /** Walks row `y` from the left, skipping column `x`, and tallies the cells for tile `t`. */
  method CountRow(g: Grid, x: int, y: int, t: int) returns (c: Tally)
    requires g.Valid() && 0 <= y < g.height
    ensures c == RowCensus(g, x, y, t)
    ensures c.collapsed + c.possible <= if 0 <= x < g.width then g.width - 1 else g.width
  {
    c := Tally(0, 0);
    ghost var visited: set<Coord> := {};
    var X := 0;
    while X < g.width
      invariant 0 <= X <= g.width
      invariant forall d :: d in visited <==> d.y == y && 0 <= d.x < X && d.x != x
      invariant |visited| == X - (if 0 <= x < X then 1 else 0)
      invariant Inside(g, visited)
      invariant c == Census(g, visited, t)
      invariant c.collapsed + c.possible <= |visited|
    {
      if X != x {
        var s := g.At(Coord(X, y));
        CensusAdd(g, visited, Coord(X, y), t);
        c := Visit(c, s, t);
        visited := visited + {Coord(X, y)};
      }
      X := X + 1;
    }
    assert visited == RowNeighbours(g, x, y);
  }

  method IsPossible(r: Rule, g: Grid, x: int, y: int, t: int) returns (possible: bool)
    requires r.PerRow? && g.Valid() && 0 <= y < g.height
    ensures possible <==> RowCensus(g, x, y, t).collapsed < r.amount
  {
    var c := CountRow(g, x, y, t);
    possible := RowPossible(c, r.amount);
  }

  method IsForced(r: Rule, g: Grid, x: int, y: int, t: int) returns (forced: bool)
    requires r.PerRow? && g.Valid() && 0 <= y < g.height
    ensures forced <==> var n := RowCensus(g, x, y, t); n.collapsed + n.possible <= r.amount - 1
  {
    var c := CountRow(g, x, y, t);
    forced := RowForced(c, r.amount);
  }

  /** A tile the row rule forces is one the row rule also allows. */
  lemma ForcedIsPossible(r: Rule, g: Grid, x: int, y: int, t: int)
    requires r.PerRow? && g.Valid() && 0 <= y < g.height
    ensures RowForced(RowCensus(g, x, y, t), r.amount) ==> RowPossible(RowCensus(g, x, y, t), r.amount)
  {
  }

  /**
    The row rule's forcing test is looser than the decision table of the
    column and block rules: it also answers yes where the table finds the
    grid impossible to complete, and only there.
   */
  lemma RowForcedAgainstTable(c: Tally, amount: int)
    ensures Decide(c.collapsed, c.possible, amount) == Forced ==> RowForced(c, amount)
    ensures RowForced(c, amount) && Decide(c.collapsed, c.possible, amount) != Forced ==>
              Decide(c.collapsed, c.possible, amount) == Forbidden
    ensures RowPossible(c, amount) <==> Decide(c.collapsed, c.possible, amount) in {Forced, Possible} ||
                                        (c.collapsed < amount && c.collapsed + c.possible < amount - 1)
  {
  }

  /** The verdict depends only on the other cells of row `y`. */
  lemma RowLocal(g1: Grid, g2: Grid, x: int, y: int, t: int)
    requires g1.Valid() && g2.Valid() && g1.width == g2.width && g1.height == g2.height
    requires 0 <= y < g1.height
    requires forall X :: 0 <= X < g1.width && X != x ==> g1.cells[X][y] == g2.cells[X][y]
    ensures RowCensus(g1, x, y, t) == RowCensus(g2, x, y, t)
  {
    var n := RowNeighbours(g1, x, y);
    assert n == RowNeighbours(g2, x, y);
    CensusLocal(g1, g2, n, t);
  }
}
