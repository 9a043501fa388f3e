# Wave Function Collapse core, modelled in Dafny

This project models the core of a small Wave Function Collapse engine (a
grid is filled with tiles so that every tile's counting rules hold; the
search propagates constraints, picks random branches, and backtracks through
a history stack). It covers:

- **Cells** (`cells.dfy`): a cell's *superposition*. This is a mask with one
  flag per tile of the shared tileset, plus a cached count of possible
  tiles. The model has both constructors, narrowing by a tile-verdict
  predicate (`collapsePossibilities`), collapse to the k-th remaining tile
  (`collapseTo`), `isCollapsed` and `clone`. `Consistent` states the
  count/mask invariant; each operation states whether it keeps it.
- **Grids** (`grids.dfy`): the grid the rules read. It is a `width` by
  `height` sequence of cells indexed `[x][y]`, read through an in-range
  accessor.
- **Rules** (`rules.dfy`): the four-valued verdict, the three counting
  rule kinds as one datatype, their rotate/mirror transforms, and the
  identity transforms a rule inherits when it does not override them.
- **Counting** (`counting.dfy`): how a neighbour cell is classified for a
  tile (collapsed, possible, or neither). It also defines `Census`, the
  declarative count over a set of neighbour coordinates, and `Decide`, the
  decision table shared by the column and block rules.
- **PerRow / PerColumn / PerBlock** (`per_row.dfy`, `per_column.dfy`,
  `per_block.dfy`): the counting loops `countRow`, `countColumn` and
  `countBlock`, each proved equal to the census of its neighbour set and
  bounded by the neighbourhood size. Also the column/block `getState`, the
  row rule's older boolean `isPossible`/`isForced`, and locality: a verdict
  reads only its own neighbourhood.
- **Tiles / LegacyTiles** (`tiles.dfy`, `legacy_tiles.dfy`): a tile is
  possible at a cell iff all its rules are fulfilled. Rules are checked in
  order and checking stops at the first failure. The rule predicate is a
  parameter. In `Tiles` it receives the asking tile. In `LegacyTiles` (the
  older `math.wfc.tiles` package) it does not.
- **Search** (`search.dfy`): the `wfc` loop as a step function over (current
  grid, history stack, random source). `collapse`, `isFinished` and
  `makeRandomChoice` are oracles over an abstract grid type. `Run` iterates
  the step with fuel.

The repository is mid-refactor, and the model follows each file as written.
`FixedAmountPerColumn` and `FixedAmountPerBlock` give a four-valued
`getState`. `FixedAmountPerRow` answers two yes/no questions instead. In
those, "forced" uses `<=` where the table uses `==`. `Tile.isPossible` is a
plain conjunction of boolean rule checks, not an aggregation of verdicts.
A complete WFC engine would also have the following; this code does not, and
the model follows the code:

- a four-way tile aggregation with FORCED/FORBIDDEN short-circuits;
- FORCED/FORBIDDEN handling while narrowing;
- `collapseTo` by absolute tile index (the code only collapses by ordinal);
- a looping or clamped border policy;
- a `clone` that copies the count.

## Model

| member | source | states |
|---|---|---|
| Cells.Fresh | src/math/wfc/Superposition.java:18-26 | a fresh cell over n tiles has n flags, all true, and count n, so its count agrees with its mask |
| Cells.FromPossibilities | src/math/wfc/Superposition.java:37-50 | the mask is the given flags when their length matches the tileset and all true otherwise; the count is the tileset size in both cases |
| Cells.Clone | src/math/wfc/Superposition.java:110-112 | the copy has the same position and mask, and its count is reset to the tileset size, not the number of possible tiles |
| Cells.CloneLosesCount | src/math/wfc/Superposition.java:41 | a consistent cell with one of two tiles possible clones into a cell whose count disagrees with its mask and which no longer reads as collapsed |
| Cells.FromPossibilitiesCounted | src/math/wfc/Superposition.java:37-50 | the constructor with given flags, counting the flags it keeps: same mask choice as the original, and the result is always consistent |
| Cells.CloneCounted | src/math/wfc/Superposition.java:110-112 | the corrected copy keeps the mask, is consistent, and equals the original whenever the original was consistent |
| Cells.CollapsePossibilities | src/math/wfc/Superposition.java:57-67 | narrowing only clears flags: exactly the possible tiles the predicate rejects; it reports a change iff some flag was cleared, iff the number of possible tiles dropped; the count drops by exactly the number cleared, so consistency is kept |
| Cells.CollapseTo | src/math/wfc/Superposition.java:70-88 | afterwards tile i is possible iff it was the k-th possible tile before; the cell is always consistent; with 0 <= k < possible tiles it is collapsed onto that single tile, otherwise it is empty with count 0 |
| Cells.CollapsedIffSingleTile | src/math/wfc/Superposition.java:98-104 | for a consistent cell, `isCollapsed` (count == 1) holds iff exactly one tile is possible |
| Rules.DefaultTransformsAreIdentity | src/math/wfc/rules/Rule.java:23-39 | the inherited rotate, mirrorX and mirrorY hand back the rule itself, so any chain of them is the identity |
| Rules.TransformsKeepAmount | src/math/wfc/rules/FixedAmountPerRow.java:55-65 | no chain of rotations and mirrorings changes the amount a counting rule asks for |
| Rules.RowTransforms | src/math/wfc/rules/FixedAmountPerRow.java:55-65 | a row rule becomes a column rule after an odd number of rotations and stays a row rule after an even number (mirrors keep it), with the same amount |
| Rules.ColumnTransforms | src/math/wfc/rules/FixedAmountPerColumn.java:56-66 | a column rule becomes a row rule after an odd number of rotations and stays a column rule otherwise, with the same amount |
| Rules.BlockTransforms | src/math/wfc/rules/FixedAmountPerBlock.java:63-73 | every chain of transforms returns a block rule with the same amount, width and height |
| Counting.Decide | src/math/wfc/rules/FixedAmountPerColumn.java:20-29 | FORBIDDEN iff collapsed > amount or collapsed + possible < amount - 1; IMPOSSIBLE iff not forbidden and collapsed == amount; FORCED exactly when collapsed + possible == amount - 1 (no earlier branch pre-empts it); POSSIBLE exactly when collapsed < amount <= collapsed + possible |
| Counting.DecideZeroAmount | src/math/wfc/rules/FixedAmountPerColumn.java:22-28 | with amount 0 the verdict is FORBIDDEN (some collapsed copy exists) or IMPOSSIBLE, never FORCED or POSSIBLE |
| Counting.CensusAdd | src/math/wfc/rules/FixedAmountPerColumn.java:43-50 | one more neighbour adds one to the collapsed count if it allows the tile and is collapsed, one to the possible count if it allows the tile and is not, and nothing otherwise |
| PerColumn.CountColumn | src/math/wfc/rules/FixedAmountPerColumn.java:39-54 | the walk over column x skipping row y yields the census of the other cells of the column, and collapsed + possible <= height - 1 |
| PerColumn.GetState | src/math/wfc/rules/FixedAmountPerColumn.java:20-29 | the column verdict is the decision table applied to the census of the other cells of column x |
| PerColumn.ColumnLocal | src/math/wfc/rules/FixedAmountPerColumn.java:39-54 | two grids that agree on column x outside row y give the same census, so edits elsewhere or at (x, y) never change the verdict |
| PerRow.CountRow | src/math/wfc/rules/FixedAmountPerRow.java:38-53 | the walk over row y skipping column x yields the census of the other cells of the row, and collapsed + possible <= width - 1 |
| PerRow.IsPossible | src/math/wfc/rules/FixedAmountPerRow.java:20-23 | true iff fewer than `amount` other cells of the row are collapsed onto the tile |
| PerRow.IsForced | src/math/wfc/rules/FixedAmountPerRow.java:25-28 | true iff the collapsed and possible other cells of the row number at most amount - 1 |
| PerRow.ForcedIsPossible | src/math/wfc/rules/FixedAmountPerRow.java:20-28 | whenever the row rule forces a tile at a cell it also allows it there |
| PerRow.RowForcedAgainstTable | src/math/wfc/rules/FixedAmountPerRow.java:25-28 | the row rule's `<=` forcing test holds wherever the table says FORCED, and where they differ the table says FORBIDDEN |
| PerRow.RowLocal | src/math/wfc/rules/FixedAmountPerRow.java:38-53 | two grids that agree on row y outside column x give the same census |
| PerBlock.BlockStart | src/math/wfc/rules/FixedAmountPerBlock.java:44-47 | for x >= 0 and a positive block size, the block origin (x / size) * size satisfies origin <= x < origin + size, so the walked block contains the cell |
| PerBlock.CountBlock | src/math/wfc/rules/FixedAmountPerBlock.java:42-61 | the walk over the block holding (x, y) skipping (x, y) yields the census of the other cells of that block, and collapsed + possible <= width * height - 1 |
| PerBlock.CountBlockColumn | src/math/wfc/rules/FixedAmountPerBlock.java:47-58 | the inner walk down one column of the block adds exactly that column's cells (less (x, y)) to the census |
| PerBlock.GetState | src/math/wfc/rules/FixedAmountPerBlock.java:23-32 | the block verdict is the decision table applied to the census of the other cells of the block |
| PerBlock.BlockLocal | src/math/wfc/rules/FixedAmountPerBlock.java:42-61 | two grids that agree on the block outside (x, y) give the same census |
| Tiles.NoRulesPossibleEverywhere | src/math/wfc/Tile.java:12-14 | a tile from the default constructor has no rules, so it is possible everywhere |
| Tiles.WithRules | src/math/wfc/Tile.java:20-24 | the element-wise copy gives the tile exactly the argument's rules, in order |
| Tiles.IsPossible | src/math/wfc/Tile.java:33-38 | true iff every rule is fulfilled for this tile; on false, the last rule consulted is the first failing one and all earlier ones held |
| Tiles.AddedRuleOnlyNarrows | src/math/wfc/Tile.java:33-38 | with one more rule the tile is possible iff it was before and the new rule holds, so adding a rule never makes a tile possible |
| LegacyTiles.IsPossible | src/math/wfc/tiles/Tile.java:33-38 | same conjunction with early exit, over rules judged without the tile |
| LegacyTiles.NoRulesPossibleEverywhere | src/math/wfc/tiles/Tile.java:12-14 | a tile without rules is possible everywhere |
| Search.ChooseOrBacktrack | src/math/wfc/WFC_Handler.java:40-48 | never returns true; returns false only after the current grid and every ancestor had no choice left; otherwise the new history is a prefix of the old one plus the grid the successful choice came from, the branch is current, and every grid passed over on the way (the current one, then the ancestors above the source) had no choice left |
| Search.StepSucceeds | src/math/wfc/WFC_Handler.java:31-38 | a pass returns true exactly when `collapse` met no contradiction and the collapsed grid is finished |
| Search.StepFails | src/math/wfc/WFC_Handler.java:31-46 | a contradiction with empty history returns false; a pass returns false only on such a contradiction or when every ancestor on the stack had no choice left; after a clean propagation, false also means the propagated grid is unfinished and had no choice left |
| Search.StepOnContradiction | src/math/wfc/WFC_Handler.java:31-40 | on a contradiction the popped ancestor goes straight to the choice without another collapse; the contradicted grid is never pushed and the history does not grow |
| Search.StepHistory | src/math/wfc/WFC_Handler.java:31-48 | a pass that continues pops some ancestors and pushes one grid, the one the choice came from: depth changes by +1 minus the pops |
| Search.RunSucceedsOnlyWhenFinished | src/math/wfc/WFC_Handler.java:29-50 | a run returns true only from a reachable state whose propagation met no contradiction on a finished grid |

## Left out

- `Gridstate` is a stub in the source: fields and a constructor. The model
  reads the grid through an in-range accessor. Propagation, border policy,
  tried-choice tracking, `isFinished` and `makeRandomChoice` are not defined
  anywhere in the repository at this revision. They enter `Search` only as oracles.
- `java.util.Random` is part of the `makeRandomChoice` oracle, as an
  abstract random source that the oracle advances.
- `wfc` need not terminate. `Search.Run` runs with fuel, and the properties
  are stated per pass of the outer loop. Each pass is total, because the
  inner pop loop shrinks the history.
- The `WFC_Handler` constructor is left out: it calls a `Gridstate`
  constructor that does not exist.
- `src/math/testing/Sudoku.java` is a console usage example. Its I/O and
  argument handling are left out.
- `src/math/wfc/tiles/Rule.java` is an interface with no behaviour. Its
  `isFullfilled` is the predicate parameter of `LegacyTiles.IsPossible`.
  Its mutating `void` transforms are not modelled.
- `tilePossible(t)` is called but not defined anywhere in the repository at
  this revision. It is
  modelled as the mask flag at the tile's index. Tiles are identified by
  index rather than by object identity.
- Java `int` overflow is not modelled. Counts and coordinates are small.
- Cells.CollapsePossibilities: the tile-verdict predicate is fixed for the
  whole pass. In the source each `isPossible` call reads the grid, which
  holds the cell being narrowed. This is exact for the three counting
  rules, because they skip the cell itself.
- PerBlock.CountBlock: requires the block of (x, y) to lie inside the grid,
  x, y >= 0, and positive block sizes. Out-of-grid lookups depend on
  `getPosition`, which is not part of this model. Non-negative operands make
  Dafny's division agree with Java's.
- PerColumn.CountColumn: requires column x to exist in the grid, for the
  same reason.
- PerRow.CountRow: requires row y to exist in the grid, for the same reason.
- Tiles.AddedRuleOnlyNarrows: the tile the rules are asked about is held
  fixed. In the source, appending a rule also changes the tile that rules
  receive as `this`.

## Findings

| source | as written | input that shows it | evidently intended | confidence | as-written member | corrected member |
|---|---|---|---|---|---|---|
| src/math/wfc/Superposition.java:41 | the constructor with given flags sets the count to the tileset size whatever the flags say, and `clone` builds its copy through it | a cell over two tiles with flags [true, false] and count 1 (collapsed), cloned | the copy's count equals its number of possible tiles (1), so the copy is still collapsed | high; not executed | Cells.CloneLosesCount | Cells.CloneCounted |
