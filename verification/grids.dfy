/**
  The grid of cells the rules read: `width` columns of `height` cells each,
  indexed `cells[x][y]`, with an accessor for in-range coordinates.
 */
module Grids {
  import opened Cells

  datatype Coord = Coord(x: int, y: int)

  datatype Grid = Grid(width: nat, height: nat, cells: seq<seq<Superposition>>) {

    predicate Valid() {
      |cells| == width && forall X :: 0 <= X < |cells| ==> |cells[X]| == height
    }

    predicate Contains(c: Coord) {
      0 <= c.x < width && 0 <= c.y < height
    }

    function At(c: Coord): Superposition
      requires Valid() && Contains(c)
    {
      cells[c.x][c.y]
    }
  }

  /** Every coordinate of `n` lies inside the valid grid `g`. */
  ghost predicate Inside(g: Grid, n: set<Coord>) {
    g.Valid() && forall c | c in n :: g.Contains(c)
  }
}
