/**
  The rule asking for a fixed amount of a tile in every block of
  `blockWidth` by `blockHeight` cells; blocks tile the grid from (0, 0).
 */
module PerBlock {
  import opened Cells
  import opened Grids
  import opened Rules
  import opened Counting

  /** Left or top edge of the block holding coordinate `v`, for blocks of size `size`. */
  function BlockStart(v: nat, size: nat): (b: nat)
    requires size > 0
    ensures b <= v < b + size
  {
    DivisionBounds(v, size);
    (v / size) * size
  }

  lemma DivisionBounds(v: nat, size: nat)
    requires size > 0
    ensures 0 <= (v / size) * size <= v < (v / size) * size + size
  {
    var q, r := v / size, v % size;
    assert v == q * size + r;
    assert 0 <= r < size;
    assert q >= 0;
  }

  /** The block of (x, y) lies inside the grid. */
  predicate BlockInGrid(g: Grid, x: nat, y: nat, w: nat, h: nat)
    requires w > 0 && h > 0
  {
    BlockStart(x, w) + w <= g.width && BlockStart(y, h) + h <= g.height
  }

  /** The cells of column `X` of the block with top row `y0` and height `h`, other than (x, y). */
  ghost function BlockColumn(X: int, y0: int, h: int, x: int, y: int): (n: set<Coord>)
    ensures forall d :: d in n <==> d.x == X && y0 <= d.y < y0 + h && d != Coord(x, y)
  {
    set Y | y0 <= Y < y0 + h && Coord(X, Y) != Coord(x, y) :: Coord(X, Y)
  }

  /** The other cells of the block holding (x, y). */
  ghost function BlockNeighbours(g: Grid, x: nat, y: nat, w: nat, h: nat): (n: set<Coord>)
    requires g.Valid() && w > 0 && h > 0 && BlockInGrid(g, x, y, w, h)
    ensures Inside(g, n)
    ensures forall c :: c in n <==>
              BlockStart(x, w) <= c.x < BlockStart(x, w) + w &&
              BlockStart(y, h) <= c.y < BlockStart(y, h) + h && c != Coord(x, y)
  {
    var x0, y0 := BlockStart(x, w), BlockStart(y, h);
    set X, Y | x0 <= X < x0 + w && y0 <= Y < y0 + h && Coord(X, Y) != Coord(x, y) :: Coord(X, Y)
  }

  ghost function BlockCensus(g: Grid, x: nat, y: nat, w: nat, h: nat, t: int): Tally
    requires g.Valid() && w > 0 && h > 0 && BlockInGrid(g, x, y, w, h)
  {
    Census(g, BlockNeighbours(g, x, y, w, h), t)
  }

  /**
    Walks the block holding (x, y) column by column, skipping (x, y) itself,
    and tallies the cells for tile `t`.
   */
  method CountBlock(g: Grid, x: nat, y: nat, w: nat, h: nat, t: int) returns (c: Tally)
    requires g.Valid() && w > 0 && h > 0 && BlockInGrid(g, x, y, w, h)
    ensures c == BlockCensus(g, x, y, w, h, t)
    ensures c.collapsed + c.possible <= w * h - 1
  {
    var blockX := x / w;
    var blockY := y / h;
    ghost var x0 := BlockStart(x, w);
    var y0 := blockY * h;
    c := Tally(0, 0);
    ghost var visited: set<Coord> := {};
    var X := blockX * w;
    assert (blockX + 1) * w == x0 + w;
    while X < (blockX + 1) * w
      invariant x0 <= X <= x0 + w
      invariant forall d :: d in visited <==> x0 <= d.x < X && y0 <= d.y < y0 + h && d != Coord(x, y)
      invariant |visited| == (X - x0) * h - (if X > x then 1 else 0)
      invariant Inside(g, visited)
      invariant c == Census(g, visited, t)
      invariant c.collapsed + c.possible <= |visited|
    {
      c := CountBlockColumn(g, x, y, y0, h, X, t, c, visited);
      visited := visited + BlockColumn(X, y0, h, x, y);
      MulStep(X - x0, h);
      X := X + 1;
    }
    assert (X - x0) * h == w * h;
    assert visited == BlockNeighbours(g, x, y, w, h);
  }

  lemma MulStep(k: int, h: int)
    ensures (k + 1) * h == k * h + h
  {
  }

  /**
    The inner walk of `CountBlock`: column `X` of the block, from its top row
    down, added to the tally `c0` of the cells `visited` walked before it.
   */
  method CountBlockColumn(g: Grid, x: nat, y: nat, y0: nat, h: nat, X: nat, t: int,
                          c0: Tally, ghost visited: set<Coord>)
    returns (c: Tally)
    requires g.Valid() && h > 0 && X < g.width && y0 + h <= g.height
    requires Inside(g, visited) && forall d :: d in visited ==> d.x < X
    requires c0 == Census(g, visited, t) && c0.collapsed + c0.possible <= |visited|
    ensures Inside(g, visited + BlockColumn(X, y0, h, x, y))
    ensures c == Census(g, visited + BlockColumn(X, y0, h, x, y), t)
    ensures |visited + BlockColumn(X, y0, h, x, y)| == |visited| + h - (if X == x && y0 <= y < y0 + h then 1 else 0)
    ensures c.collapsed + c.possible <= |visited + BlockColumn(X, y0, h, x, y)|
  {
    c := c0;
    ghost var walked := visited;
    var Y := y0;
    while Y < y0 + h
      invariant y0 <= Y <= y0 + h
      invariant forall d :: d in walked <==> d in visited || (d.x == X && y0 <= d.y < Y && d != Coord(x, y))
      invariant |walked| == |visited| + (Y - y0) - (if X == x && y0 <= y < Y then 1 else 0)
      invariant Inside(g, walked)
      invariant c == Census(g, walked, t)
      invariant c.collapsed + c.possible <= |walked|
    {
      if !(x == X && y == Y) {
        var s := g.At(Coord(X, Y));
        CensusAdd(g, walked, Coord(X, Y), t);
        c := Visit(c, s, t);
        walked := walked + {Coord(X, Y)};
      }
      Y := Y + 1;
    }
    assert walked == visited + BlockColumn(X, y0, h, x, y);
  }

  /** The verdict of the block rule `r` on tile `t` at cell (x, y). */
  method GetState(r: Rule, g: Grid, x: nat, y: nat, t: int) returns (v: State)
    requires r.PerBlock? && r.blockWidth > 0 && r.blockHeight > 0
    requires g.Valid() && BlockInGrid(g, x, y, r.blockWidth, r.blockHeight)
    ensures var n := BlockCensus(g, x, y, r.blockWidth, r.blockHeight, t);
            v == Decide(n.collapsed, n.possible, r.amount)
  {
    var c := CountBlock(g, x, y, r.blockWidth, r.blockHeight, t);
    v := Decide(c.collapsed, c.possible, r.amount);
  }

  /** The verdict depends only on the other cells of the block holding (x, y). */
  lemma BlockLocal(g1: Grid, g2: Grid, x: nat, y: nat, w: nat, h: nat, t: int)
    requires g1.Valid() && g2.Valid() && g1.width == g2.width && g1.height == g2.height
    requires w > 0 && h > 0 && BlockInGrid(g1, x, y, w, h)
    requires forall X, Y :: BlockStart(x, w) <= X < BlockStart(x, w) + w &&
                            BlockStart(y, h) <= Y < BlockStart(y, h) + h && Coord(X, Y) != Coord(x, y)
                            ==> g1.cells[X][Y] == g2.cells[X][Y]
    ensures BlockCensus(g1, x, y, w, h, t) == BlockCensus(g2, x, y, w, h, t)
  {
    var n := BlockNeighbours(g1, x, y, w, h);
    assert n == BlockNeighbours(g2, x, y, w, h);
    forall c | c in n
      ensures g1.At(c) == g2.At(c)
    {
      assert g1.cells[c.x][c.y] == g2.cells[c.x][c.y];
    }
    CensusLocal(g1, g2, n, t);
  }
}
