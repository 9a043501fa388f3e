/**
  What the counting rules share: how a neighbouring cell is classified for a
  tile, the census of a set of neighbours, and the decision table that turns
  a census into a verdict.
 */
module Counting {
  import opened Cells
  import opened Grids
  import opened Rules

  /** Neighbours already collapsed onto the tile, and neighbours still open to it. */
  datatype Tally = Tally(collapsed: nat, possible: nat)

  /** A neighbour that still allows the tile and is collapsed counts as collapsed. */
  predicate CountsCollapsed(s: Superposition, t: int) {
    TilePossible(s, t) && IsCollapsed(s)
  }

  /** A neighbour that still allows the tile and is not collapsed counts as possible. */
  predicate CountsPossible(s: Superposition, t: int) {
    TilePossible(s, t) && !IsCollapsed(s)
  }

  /** The tally after one more neighbour `s` has been looked at. */
  function Visit(c: Tally, s: Superposition, t: int): (r: Tally)
    ensures r.collapsed + r.possible <= c.collapsed + c.possible + 1
  {
    if TilePossible(s, t) then
      if IsCollapsed(s) then Tally(c.collapsed + 1, c.possible) else Tally(c.collapsed, c.possible + 1)
    else c
  }

  /** The census of the neighbour set `n`: how many cells fall in each class. */
  ghost function Census(g: Grid, n: set<Coord>, t: int): Tally
    requires Inside(g, n)
  {
    Tally(|set c | c in n && CountsCollapsed(g.At(c), t)|,
          |set c | c in n && CountsPossible(g.At(c), t)|)
  }

  /** Adding one new neighbour to a census is one `Visit`. */
  lemma CensusAdd(g: Grid, n: set<Coord>, c: Coord, t: int)
    requires Inside(g, n + {c}) && c !in n
    ensures Census(g, n + {c}, t) == Visit(Census(g, n, t), g.At(c), t)
  {
    var m := n + {c};
    var col := set d | d in n && CountsCollapsed(g.At(d), t);
    var pos := set d | d in n && CountsPossible(g.At(d), t);
    var col' := set d | d in m && CountsCollapsed(g.At(d), t);
    var pos' := set d | d in m && CountsPossible(g.At(d), t);
    if CountsCollapsed(g.At(c), t) {
      assert col' == col + {c};
      assert pos' == pos;
    } else if CountsPossible(g.At(c), t) {
      assert col' == col;
      assert pos' == pos + {c};
    } else {
      assert col' == col;
      assert pos' == pos;
    }
  }

  /** The census reads nothing but the cells of the neighbour set. */
  lemma CensusLocal(g1: Grid, g2: Grid, n: set<Coord>, t: int)
    requires Inside(g1, n) && Inside(g2, n)
    requires forall c | c in n :: g1.At(c) == g2.At(c)
    ensures Census(g1, n, t) == Census(g2, n, t)
  {
    assert (set c | c in n && CountsCollapsed(g1.At(c), t)) == (set c | c in n && CountsCollapsed(g2.At(c), t));
    assert (set c | c in n && CountsPossible(g1.At(c), t)) == (set c | c in n && CountsPossible(g2.At(c), t));
  }

  /**
    The verdict of the column and block rules for one cell, from the census of
    its neighbours and the amount the rule asks for.
   */
  function Decide(collapsed: nat, possible: nat, amount: int): (v: State)
    ensures v == Forbidden <==> collapsed > amount || collapsed + possible < amount - 1
    ensures v == Impossible <==> v != Forbidden && collapsed == amount
    ensures v == Forced <==> collapsed + possible == amount - 1
    ensures v == Possible <==> collapsed < amount && collapsed + possible >= amount
  {
    if collapsed > amount || collapsed + possible < amount - 1 then Forbidden
    else if collapsed == amount then Impossible
    else if collapsed + possible == amount - 1 then Forced
    else Possible
  }

  /** A rule asking for none of a tile can only forbid the grid or rule the tile out. */
  lemma DecideZeroAmount(collapsed: nat, possible: nat)
    ensures Decide(collapsed, possible, 0) in {Forbidden, Impossible}
    ensures Decide(collapsed, possible, 0) == Forbidden <==> collapsed > 0
  {
  }
}
