# Cubes game rules engine in Dafny

A model of the rules engine of a small tile-matching puzzle (the `Controller`
class of the Cubes game). The engine owns a 9x9 grid of cells. Each cell is
empty or holds a cube of one of seven colours. A click on a cube selects it.
A click on an empty cell while a cube is selected moves that cube there.
After a move, one pass finds every 2x2 block of cells that hold the same
colour and empties all of them at once. If that pass cleared nothing, three
new cubes are placed on random empty cells and one more pass runs.

The project has two files:

- `grid.dfy`, module `Grid`: the grid as a value (`Board = seq<seq<Cell>>`,
  indexed `g[x][y]`), the game's constants, the palette, the 2x2 match rule
  (`IsMatch`, `Block`), the scan in the loop order of `checkAllField`
  (`ScannedBefore`, `WinningUpTo`, `WinningSet`), one pass (`Clear`, `Pass`), moves and placements (`Put`, `MoveCube`), the
  sets of filled and empty cells, and the lemmas about them.
- `controller.dfy`, module `Game`: class `Controller`. It holds the grid as
  an `array2<Cell>` that is updated in place, the `winningCells` set and the
  optional `selectedCell`. Each method of the Java class that works on the
  grid is a method here. `checkAllField`, `checkOneSquare`,
  `clearWinningCells` and `generateCubes` keep their loops; the retry loop
  of `placeCube` is replaced by a choice (see "Left out"). The
  postconditions tie the new array contents (`Board()`) and fields to the
  functions of `Grid`.

Modelling choices:

- `null` in the colour array is `Cell.Empty`. An AWT colour is one of the
  seven constructors of `Color`, listed in palette order in `Colors`.
- `Point` is a pair of integers, and `HashSet<Point>` is a `set<Point>`.
  The for-each loop over the set in `clearWinningCells` takes the points in
  an arbitrary order.
- `random(max)` is an oracle that returns some integer in `[0, max)`.
- Java's `/` truncates toward zero, so the pixel-to-cell mapping uses
  `JavaDiv`. As a result, pixels -59..-1 also map to index 0. The
  precondition of `HandleMouseClick` is therefore the exact condition under
  which the array access does not fail: both quotients lie in `0..8`.
  `PixelToCell` proves that this means `-60 < mouseX < 540` and
  `-60 < mouseY < 540`: pixels -59..-1 are accepted as well as 0..539.
- A move may go to any empty cell, not only a neighbour of the selected
  one: `handleMouseClick` does not compare the two positions.

## Model

| member | source | states |
|---|---|---|
| `Grid.JavaDiv` | src/com/company/Controller.java:30-31 | The quotient is truncated toward zero: for a non-negative pixel `q*b <= a < q*b + b`, and for a negative one `q*b - b < a <= q*b` with `q <= 0`. |
| `Grid.PixelToCell` | src/com/company/Controller.java:30-32 | The cell computed from a pixel is inside the 9x9 array iff `-60 < mouseX < 540` and `-60 < mouseY < 540`. For pixels inside the 540x540 image, the cell's square contains the pixel. |
| `Grid.PaletteIsColorType` | src/com/company/Controller.java:15 | `Colors` has seven distinct entries, and every colour a cell can hold is one of them. |
| `Grid.PlaceFillsOneCell` | src/com/company/Controller.java:101 | Writing a cube into an empty cell adds exactly that point to the filled set and removes it from the empty set. The filled count goes up by one and the empty count goes down by one. |
| `Grid.EmptyFreesOneCell` | src/com/company/Controller.java:38 | Writing null into a filled cell removes exactly that point from the filled set and adds it to the empty set. |
| `Grid.MoveKeepsCount` | src/com/company/Controller.java:37-38 | A move from a filled cell to an empty one gives `to` the colour of `from` and empties `from`. The filled set loses `from` and gains `to`, so the numbers of filled and empty cells are unchanged. |
| `Grid.ScanStep` | src/com/company/Controller.java:55 | Checking anchor (x, y) adds its block's four points exactly when the block matches. Otherwise the collected set is unchanged. |
| `Grid.ScanFindsAllMatches` | src/com/company/Controller.java:51-58 | The point where the scan ends, (8, 0), lies past every anchor in the order of the two loops. Hence a point is collected iff it lies in the block of some matching anchor. |
| `Grid.WinningCellsFilled` | src/com/company/Controller.java:67-83 | Every collected point is inside the grid and holds a cube. |
| `Grid.ClearFreesCells` | src/com/company/Controller.java:61-65 | Emptying a set of filled cells removes exactly those points from the filled set and adds them to the empty set. |
| `Grid.PassEmptiesWinning` | src/com/company/Controller.java:51-65 | After a pass, the filled set is the old filled set minus the winning set, and the empty set gains the winning set. The filled count drops by the size of the winning set. |
| `Grid.NoMatchAfterPass` | src/com/company/Controller.java:51-84 | After one pass, no 2x2 block anywhere in the grid holds one uniform colour. |
| `Grid.SecondPassIsIdle` | src/com/company/Controller.java:51-59 | A pass run right after another pass collects nothing and leaves the grid unchanged. |
| `Grid.MatchNeedsFourCubes` | src/com/company/Controller.java:67-84 | A grid with fewer than four cubes has an empty winning set. A non-empty winning set has at least four points. |
| `Grid.EmptyBoardHasRoom` | src/com/company/Controller.java:19 | The initial all-null grid has at least `NUMBER_OF_CUBES` empty cells, so the first refill can finish. |
| `Grid.FirstRefillHasNoMatch` | src/com/company/Controller.java:23-27 | After the first refill of an empty grid, the winning set is empty. So `start` needs no pass. |
| `Grid.SingleBlockCleared` | src/com/company/Controller.java:51-84 | On a grid whose only cubes form one 2x2 block of one colour, the winning set is exactly that block, and a pass leaves the grid empty. |
| `Grid.OverlappingBlocksCleared` | src/com/company/Controller.java:79-83 | On a grid whose only cubes form one 3x2 area of one colour, the two overlapping matches collect the area's six points once each, and a pass leaves the grid empty. |
| `Game.Controller.constructor` | src/com/company/Controller.java:19-21 | A new controller has a fresh 9x9 grid of empty cells, no winning cells and no selection. |
| `Game.Controller.Random` | src/com/company/Controller.java:86-88 | The random source returns an integer in `[0, max)`. |
| `Game.Controller.RandomColor` | src/com/company/Controller.java:90-92 | The colour drawn is an entry of `Colors`. |
| `Game.Controller.PlaceCube` | src/com/company/Controller.java:94-102 | The new grid is the old one with one cell that was empty now holding a cube. No other cell changes. |
| `Game.Controller.GenerateCubes` | src/com/company/Controller.java:104-108 | Requires at least three empty cells. Every existing cube stays in place, and the filled count rises by exactly `NUMBER_OF_CUBES`. Only cells that were empty get cubes. |
| `Game.Controller.CheckOneSquare` | src/com/company/Controller.java:67-84 | Requires (x, y) to be an anchor with `0 <= x, y <= 7`, so every cell it reads, up to (x+1, y+1), is inside the array. Adds the block's four points iff the anchor is non-null and all four cells equal it. Otherwise the set is unchanged. |
| `Game.Controller.ClearWinningCells` | src/com/company/Controller.java:61-65 | The new grid is the old one with every winning cell set to null. No other cell changes. |
| `Game.Controller.CheckAllField` | src/com/company/Controller.java:51-59 | `winningCells` is exactly the winning set of the grid as it was before the pass. Stale entries are gone. Those cells are null afterwards, every other cell is unchanged, and no 2x2 match remains. |
| `Game.Controller.Start` | src/com/company/Controller.java:23-27 | The grid after `start` is the old grid after one refill. The selection invariant is kept. |
| `Game.Controller.HandleMouseClick` | src/com/company/Controller.java:29-49 | A click on a cube selects it, replacing any earlier selection, and changes nothing else. A click on an empty cell with no selection changes nothing. A click on an empty cell with a selection does four things. First, it moves the selected cube there: the target gets the colour, the selected cell becomes null and the filled count stays the same. Second, it clears the selection. Third, it runs a pass. Fourth, only if that pass cleared nothing, it refills and runs a second pass. Afterwards the selection again names a filled cell. |

## Left out

- Rendering: `renderImage`, `drawField`, `drawCubes`, `drawHighlightedCell`, `draw`, `createSelectionHighlight`, `createSquare`, `createCube` and the `graphics` field are presentation over AWT images. The calls to `renderImage` in `start` and `handleMouseClick` are left out with them.
- The `View` collaborator: `view.create`, `view.setImage` and `setView` are calls into a class that is not part of this model.
- `Math.random`: the floating-point product in `random` is replaced by a choice of some integer in `[0, max)`. Uniformity is not modelled.
- PlaceCube: the `do … while` retry loop is modelled by the cell where it stops, which can be any empty cell. The number of retries is not modelled. Neither is the fact that the loop ends with probability 1 when an empty cell exists.
- GenerateCubes: the model requires at least three empty cells. With fewer, the `placeCube` call that finds no empty cell left never ends, and the game hangs. `HandleMouseClick` therefore requires three empty cells, but only on the path that refills: a move whose first pass clears nothing.
- RandomColor: its contract "the colour is in `Colors`" holds for every `Color`, because the colour type is exactly the palette (`PaletteIsColorType`). Which entry is drawn is left to the oracle.
- AWT colour equality: `Color.equals` compares RGB values. The seven palette colours are pairwise distinct, so equality of the `Color` constructors agrees with it.
