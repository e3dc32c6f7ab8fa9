/** The 9x9 board of the Cubes game as a value: its constants, its cells, the
    2x2 match rule, one clearing pass, moves and placements, and the facts
    proved about them. The class in module Game is specified in these terms. */
module Grid {

  // ---------------------------------------------------------------------
  // Constants of the game
  // ---------------------------------------------------------------------

  const SquareSize := 60            // side of one cell, in pixels
  const Width := 9                  // cells per row (x)
  const Height := Width             // cells per column (y)
  const ResolutionX := Width * SquareSize
  const ResolutionY := Height * SquareSize
  const NumberOfCubes := 3          // cubes placed by one refill

  /** The seven colours a cube can have, in palette order. */
  datatype Color = Green | Red | Yellow | Blue | Cyan | Pink | Magenta

  const Colors: seq<Color> := [Green, Red, Yellow, Blue, Cyan, Pink, Magenta]

  /** A cell of the grid; `Empty` stands for the null entry of the array. */
  datatype Cell = Empty | Filled(color: Color)

  datatype Point = Point(x: int, y: int)

  /** An optional value, for the selection that may be absent. */
  datatype Option<T> = None | Some(value: T)

  /** The grid as a value, indexed `g[x][y]` like the array it models. */
  type Board = seq<seq<Cell>>

  predicate WellFormed(g: Board) {
    |g| == Width && forall x :: 0 <= x < |g| ==> |g[x]| == Height
  }

  predicate InBounds(p: Point) {
    0 <= p.x < Width && 0 <= p.y < Height
  }

  function EmptyBoard(): (g: Board)
    ensures WellFormed(g)
  {
    seq(Width, _ => seq(Height, _ => Empty))
  }

  // ---------------------------------------------------------------------
  // Mapping a pixel to a cell
  // ---------------------------------------------------------------------

  /** Integer division as Java computes it: the quotient is truncated toward
      zero, so the remainder takes the sign of the dividend. */
  function JavaDiv(a: int, b: int): (q: int)
    requires b > 0
    ensures a >= 0 ==> q >= 0 && q * b <= a < q * b + b
    ensures a < 0 ==> q <= 0 && q * b - b < a <= q * b
  {
    if a >= 0 then a / b else -((-a) / b)
  }

  /** The cell under the pixel (mouseX, mouseY). */
  function ToCell(mouseX: int, mouseY: int): Point {
    Point(JavaDiv(mouseX, SquareSize), JavaDiv(mouseY, SquareSize))
  }

  /** A click lands on a cell of the grid exactly when both coordinates lie
      strictly above -SquareSize and below the resolution: truncation sends
      the pixels -59..-1 to index 0 as well. */
  lemma PixelToCell(mouseX: int, mouseY: int)
    ensures InBounds(ToCell(mouseX, mouseY)) <==>
      -SquareSize < mouseX < ResolutionX && -SquareSize < mouseY < ResolutionY
    ensures 0 <= mouseX < ResolutionX && 0 <= mouseY < ResolutionY ==>
      var p := ToCell(mouseX, mouseY);
      p.x * SquareSize <= mouseX < (p.x + 1) * SquareSize &&
      p.y * SquareSize <= mouseY < (p.y + 1) * SquareSize
  {
  }

  // ---------------------------------------------------------------------
  // Single-cell updates, moves and placements
  // ---------------------------------------------------------------------

  /** `g` with cell `p` set to `c`. */
  function Put(g: Board, p: Point, c: Cell): (h: Board)
    requires WellFormed(g) && InBounds(p)
    ensures WellFormed(h)
  {
    g[p.x := g[p.x][p.y := c]]
  }

  /** The move of a click on an empty cell while a cube is selected: the
      target receives the colour of the selected cell, then the selected cell
      is emptied. */
  function MoveCube(g: Board, from: Point, to: Point): (h: Board)
    requires WellFormed(g) && InBounds(from) && InBounds(to)
    ensures WellFormed(h)
  {
    Put(Put(g, to, g[from.x][from.y]), from, Empty)
  }

  /** The points whose cells hold a cube. */
  function FilledPoints(g: Board): set<Point>
    requires WellFormed(g)
  {
    set x, y | 0 <= x < Width && 0 <= y < Height && g[x][y].Filled? :: Point(x, y)
  }

  /** The points whose cells are empty. */
  function EmptyPoints(g: Board): set<Point>
    requires WellFormed(g)
  {
    set x, y | 0 <= x < Width && 0 <= y < Height && g[x][y] == Empty :: Point(x, y)
  }

  /** Writing a cube into an empty cell fills exactly that cell. */
  lemma PlaceFillsOneCell(g: Board, p: Point, c: Color)
    requires WellFormed(g) && p in EmptyPoints(g)
    ensures InBounds(p)
    ensures FilledPoints(Put(g, p, Filled(c))) == FilledPoints(g) + {p}
    ensures EmptyPoints(Put(g, p, Filled(c))) == EmptyPoints(g) - {p}
    ensures |FilledPoints(Put(g, p, Filled(c)))| == |FilledPoints(g)| + 1
    ensures |EmptyPoints(Put(g, p, Filled(c)))| == |EmptyPoints(g)| - 1
  {
    assert p !in FilledPoints(g);
    PlaceFilled(g, p, c);
    PlaceEmpty(g, p, c);
  }

  lemma PlaceFilled(g: Board, p: Point, c: Color)
    requires WellFormed(g) && InBounds(p)
    ensures FilledPoints(Put(g, p, Filled(c))) == FilledPoints(g) + {p}
  {
    var h := Put(g, p, Filled(c));
    forall q | q in FilledPoints(h) ensures q in FilledPoints(g) + {p} {
      if q != p { assert g[q.x][q.y] == h[q.x][q.y]; }
    }
    forall q | q in FilledPoints(g) + {p} ensures q in FilledPoints(h) {
      if q != p { assert g[q.x][q.y] == h[q.x][q.y]; }
    }
  }

  lemma PlaceEmpty(g: Board, p: Point, c: Color)
    requires WellFormed(g) && InBounds(p)
    ensures EmptyPoints(Put(g, p, Filled(c))) == EmptyPoints(g) - {p}
  {
    var h := Put(g, p, Filled(c));
    forall q | q in EmptyPoints(g) && q != p ensures q in EmptyPoints(h) {
      assert g[q.x][q.y] == h[q.x][q.y];
    }
  }

  /** Emptying a cell that holds a cube frees exactly that cell. */
  lemma EmptyFreesOneCell(g: Board, p: Point)
    requires WellFormed(g) && p in FilledPoints(g)
    ensures InBounds(p)
    ensures FilledPoints(Put(g, p, Empty)) == FilledPoints(g) - {p}
    ensures EmptyPoints(Put(g, p, Empty)) == EmptyPoints(g) + {p}
  {
    var h := Put(g, p, Empty);
    assert FilledPoints(h) == FilledPoints(g) - {p} by {
      forall q | q in FilledPoints(g) && q != p ensures q in FilledPoints(h) {
        assert g[q.x][q.y] == h[q.x][q.y];
      }
    }
    assert EmptyPoints(h) == EmptyPoints(g) + {p} by {
      forall q | q in EmptyPoints(h) ensures q in EmptyPoints(g) + {p} {
        if q != p { assert h[q.x][q.y] == g[q.x][q.y]; }
      }
      forall q | q in EmptyPoints(g) ensures q in EmptyPoints(h) {
        assert q != p;
        assert g[q.x][q.y] == h[q.x][q.y];
      }
    }
  }

  /** A move takes the cube out of `from` and puts it into `to`: the set of
      filled cells loses `from`, gains `to`, and keeps its size. */
  lemma MoveKeepsCount(g: Board, from: Point, to: Point)
    requires WellFormed(g) && from in FilledPoints(g) && to in EmptyPoints(g)
    ensures InBounds(from) && InBounds(to) && from != to
    ensures MoveCube(g, from, to)[to.x][to.y] == g[from.x][from.y]
    ensures MoveCube(g, from, to)[from.x][from.y] == Empty
    ensures FilledPoints(MoveCube(g, from, to)) == FilledPoints(g) - {from} + {to}
    ensures EmptyPoints(MoveCube(g, from, to)) == EmptyPoints(g) - {to} + {from}
    ensures |FilledPoints(MoveCube(g, from, to))| == |FilledPoints(g)|
    ensures |EmptyPoints(MoveCube(g, from, to))| == |EmptyPoints(g)|
  {
    var c := g[from.x][from.y].color;
    var g1 := Put(g, to, Filled(c));
    PlaceFillsOneCell(g, to, c);
    assert from in FilledPoints(g1);
    EmptyFreesOneCell(g1, from);
    assert MoveCube(g, from, to) == Put(g1, from, Empty);
  }

  /** `h` is `g` after one refill: every cube of `g` is still in place and
      exactly NumberOfCubes cells that were empty now hold a cube. */
  ghost predicate IsRefill(g: Board, h: Board)
    requires WellFormed(g) && WellFormed(h)
  {
    && (forall x, y :: 0 <= x < Width && 0 <= y < Height && g[x][y].Filled? ==> h[x][y] == g[x][y])
    && FilledPoints(g) <= FilledPoints(h)
    && |FilledPoints(h)| == |FilledPoints(g)| + NumberOfCubes
  }

  // ---------------------------------------------------------------------
  // The 2x2 match rule and one clearing pass
  // ---------------------------------------------------------------------

  /** (x, y) is the top-left corner of a 2x2 block lying inside the grid:
      the anchors the scan visits. */
  predicate IsAnchor(x: int, y: int) {
    0 <= x <= Width - 2 && 0 <= y <= Height - 2
  }

  /** The four points of the 2x2 block anchored at (x, y). */
  function Block(x: int, y: int): set<Point> {
    {Point(x, y), Point(x, y + 1), Point(x + 1, y), Point(x + 1, y + 1)}
  }

  /** The block anchored at (x, y) matches: its anchor holds a cube and all
      four of its cells hold that same colour. */
  predicate IsMatch(g: Board, x: int, y: int)
    requires WellFormed(g)
  {
    && IsAnchor(x, y)
    && g[x][y].Filled?
    && g[x + 1][y] == g[x][y]
    && g[x][y + 1] == g[x][y]
    && g[x + 1][y + 1] == g[x][y]
  }

  /** Anchor (a, b) comes before (x, y) in the scan, which runs over x in the
      outer loop and over y in the inner one. */
  predicate ScannedBefore(a: int, b: int, x: int, y: int) {
    a < x || (a == x && b < y)
  }

  /** The points collected by the scan before it reaches anchor (x, y): the
      union of the blocks of every matching anchor visited so far. */
  ghost function WinningUpTo(g: Board, x: int, y: int): set<Point>
    requires WellFormed(g)
  {
    set a, b, p | 0 <= a <= Width - 2 && 0 <= b <= Height - 2 && ScannedBefore(a, b, x, y)
                  && IsMatch(g, a, b) && p in Block(a, b) :: p
  }

  /** The points collected by a full scan. */
  ghost function WinningSet(g: Board): set<Point>
    requires WellFormed(g)
  {
    WinningUpTo(g, Width - 1, 0)
  }

  /** `g` with every cell named in `w` emptied. */
  function Clear(g: Board, w: set<Point>): (h: Board)
    requires WellFormed(g)
    ensures WellFormed(h)
  {
    seq(Width, x requires 0 <= x < Width =>
      seq(Height, y requires 0 <= y < Height =>
        if Point(x, y) in w then Empty else g[x][y]))
  }

  /** One full pass: scan, then empty every collected point. */
  ghost function Pass(g: Board): (h: Board)
    requires WellFormed(g)
    ensures WellFormed(h)
  {
    Clear(g, WinningSet(g))
  }

  /** No 2x2 block of the grid matches. */
  ghost predicate NoMatch(g: Board)
    requires WellFormed(g)
  {
    forall a, b :: !IsMatch(g, a, b)
  }

  // ---------------------------------------------------------------------
  // Facts about the scan and the pass
  // ---------------------------------------------------------------------

  /** The scan starts with nothing collected. */
  lemma ScanStart(g: Board)
    requires WellFormed(g)
    ensures WinningUpTo(g, 0, 0) == {}
  {
  }

  /** Visiting anchor (x, y) adds its block exactly when it matches, and
      leaves the collected points as they are otherwise. */
  lemma ScanStep(g: Board, x: int, y: int)
    requires WellFormed(g) && IsAnchor(x, y)
    ensures WinningUpTo(g, x, y + 1) ==
      WinningUpTo(g, x, y) + (if IsMatch(g, x, y) then Block(x, y) else {})
  {
  }

  /** Finishing column x of anchors is the same as starting column x + 1. */
  lemma ScanNextColumn(g: Board, x: int)
    requires WellFormed(g)
    ensures WinningUpTo(g, x, Height - 1) == WinningUpTo(g, x + 1, 0)
  {
  }

  /** The scan ends past every anchor of the grid, so a point is collected
      exactly when it lies in the block of some matching anchor. */
  lemma ScanFindsAllMatches(g: Board)
    requires WellFormed(g)
    ensures forall a, b :: IsAnchor(a, b) ==> ScannedBefore(a, b, Width - 1, 0)
    ensures forall p :: p in WinningSet(g) <==> exists a, b :: IsMatch(g, a, b) && p in Block(a, b)
  {
  }

  /** Every collected point lies inside the grid and holds a cube. */
  lemma WinningCellsFilled(g: Board)
    requires WellFormed(g)
    ensures forall p :: p in WinningSet(g) ==> InBounds(p)
    ensures WinningSet(g) <= FilledPoints(g)
  {
  }

  /** Emptying a set of cells that all hold cubes frees exactly those cells. */
  lemma ClearFreesCells(g: Board, w: set<Point>)
    requires WellFormed(g) && w <= FilledPoints(g)
    ensures FilledPoints(Clear(g, w)) == FilledPoints(g) - w
    ensures EmptyPoints(Clear(g, w)) == EmptyPoints(g) + w
  {
    var h := Clear(g, w);
    assert FilledPoints(h) == FilledPoints(g) - w by {
      forall q | q in FilledPoints(g) - w ensures q in FilledPoints(h) {
        assert h[q.x][q.y] == g[q.x][q.y];
      }
    }
    forall q | q in EmptyPoints(h) ensures q in EmptyPoints(g) + w {
      if q !in w { assert h[q.x][q.y] == g[q.x][q.y]; }
    }
    forall q | q in w ensures q in EmptyPoints(h) {
      assert InBounds(q);
    }
  }

  /** A pass empties exactly the collected cells and nothing else, so the
      number of cubes drops by the number of collected points. */
  lemma PassEmptiesWinning(g: Board)
    requires WellFormed(g)
    ensures FilledPoints(Pass(g)) == FilledPoints(g) - WinningSet(g)
    ensures EmptyPoints(Pass(g)) == EmptyPoints(g) + WinningSet(g)
    ensures |FilledPoints(Pass(g))| == |FilledPoints(g)| - |WinningSet(g)|
  {
    var w := WinningSet(g);
    WinningCellsFilled(g);
    ClearFreesCells(g, w);
    assert FilledPoints(g) == (FilledPoints(g) - w) + w;
  }

  /** Emptying no cell leaves the grid as it is. */
  lemma ClearNothing(g: Board)
    requires WellFormed(g)
    ensures Clear(g, {}) == g
  {
    forall x | 0 <= x < Width ensures Clear(g, {})[x] == g[x] { }
  }

  /** The block of a matching anchor is collected by the scan. */
  lemma MatchCollected(g: Board, a: int, b: int)
    requires WellFormed(g)
    ensures IsMatch(g, a, b) ==> Block(a, b) <= WinningSet(g)
  {
  }

  /** A block that matches after a pass held the same cubes before it, none
      of them collected. */
  lemma MatchAfterPassUntouched(g: Board, a: int, b: int)
    requires WellFormed(g)
    ensures IsMatch(Pass(g), a, b) ==> IsMatch(g, a, b) && Point(a, b) !in WinningSet(g)
  {
  }

  /** No match survives a pass: a block that matches after the pass holds
      only cubes the pass did not touch, so it matched before the pass and
      its cells were collected and emptied. */
  lemma NoMatchAfterPass(g: Board)
    requires WellFormed(g)
    ensures NoMatch(Pass(g))
  {
    forall a, b
      ensures !IsMatch(Pass(g), a, b)
    {
      MatchCollected(g, a, b);
      MatchAfterPassUntouched(g, a, b);
    }
  }

  /** Hence a second pass straight after a first one finds nothing and
      changes nothing. */
  lemma SecondPassIsIdle(g: Board)
    requires WellFormed(g)
    ensures WinningSet(Pass(g)) == {}
    ensures Pass(Pass(g)) == Pass(g)
  {
    NoMatchAfterPass(g);
    var h := Pass(g);
    ClearNothing(h);
  }

  // ---------------------------------------------------------------------
  // Counting cubes
  // ---------------------------------------------------------------------

  lemma SubsetSize(a: set<Point>, b: set<Point>)
    requires a <= b
    ensures |a| <= |b|
  {
    assert b == a + (b - a);
  }

  /** The four points of a block are distinct. */
  lemma BlockSize(x: int, y: int)
    ensures |Block(x, y)| == 4
  {
  }

  /** A matching block holds four cubes, so a grid with fewer than four cubes
      has no match, and a pass that clears anything clears at least four. */
  lemma MatchNeedsFourCubes(g: Board)
    requires WellFormed(g)
    ensures |FilledPoints(g)| < 4 ==> WinningSet(g) == {}
    ensures WinningSet(g) != {} ==> |WinningSet(g)| >= 4
  {
    if p :| p in WinningSet(g) {
      var a, b :| 0 <= a <= Width - 2 && 0 <= b <= Height - 2 && IsMatch(g, a, b) && p in Block(a, b);
      MatchCollected(g, a, b);
      WinningCellsFilled(g);
      BlockSize(a, b);
      SubsetSize(Block(a, b), WinningSet(g));
      SubsetSize(WinningSet(g), FilledPoints(g));
    }
  }

  /** The empty grid has room for a refill. */
  lemma EmptyBoardHasRoom()
    ensures |EmptyPoints(EmptyBoard())| >= NumberOfCubes
  {
    var three := {Point(0, 0), Point(0, 1), Point(0, 2)};
    assert three <= EmptyPoints(EmptyBoard());
    SubsetSize(three, EmptyPoints(EmptyBoard()));
  }

  /** The first refill of an empty grid cannot produce a match, so starting a
      game needs no pass. */
  lemma FirstRefillHasNoMatch(h: Board)
    requires WellFormed(h) && IsRefill(EmptyBoard(), h)
    ensures WinningSet(h) == {}
  {
    assert FilledPoints(EmptyBoard()) == {};
    MatchNeedsFourCubes(h);
  }

  // ---------------------------------------------------------------------
  // What a click leads to
  // ---------------------------------------------------------------------

  /** A click on `p` with selection `sel` moves a cube and, the first pass
      finding nothing, goes on to a refill. */
  ghost predicate MoveRefills(g: Board, sel: Option<Point>, p: Point)
    requires WellFormed(g) && InBounds(p)
    requires sel.Some? ==> InBounds(sel.value)
  {
    g[p.x][p.y] == Empty && sel.Some? && WinningSet(MoveCube(g, sel.value, p)) == {}
  }

  // ---------------------------------------------------------------------
  // Worked cases
  // ---------------------------------------------------------------------

  /** The grid whose cells in `area` hold colour `c` and whose other cells are
      empty. */
  function Paint(area: set<Point>, c: Color): (g: Board)
    ensures WellFormed(g)
  {
    seq(Width, x requires 0 <= x < Width =>
      seq(Height, y requires 0 <= y < Height =>
        if Point(x, y) in area then Filled(c) else Empty))
  }

  /** On a grid whose only cubes form the painted area, every matching block
      lies inside the area, and so does every collected point. */
  lemma WinningInsidePaint(area: set<Point>, c: Color)
    ensures WinningSet(Paint(area, c)) <= area
  {
    var g := Paint(area, c);
    forall p | p in WinningSet(g)
      ensures p in area
    {
      var a, b :| 0 <= a <= Width - 2 && 0 <= b <= Height - 2 && IsMatch(g, a, b) && p in Block(a, b);
      assert Block(a, b) <= area;
    }
  }

  /** Emptying the painted area leaves an empty grid. */
  lemma ClearPaint(area: set<Point>, c: Color)
    ensures Clear(Paint(area, c), area) == EmptyBoard()
  {
    forall x | 0 <= x < Width
      ensures Clear(Paint(area, c), area)[x] == EmptyBoard()[x]
    {
    }
  }

  /** A single 2x2 block of one colour on an otherwise empty grid is the whole
      winning set, and a pass leaves the grid empty. */
  lemma SingleBlockCleared(x: int, y: int, c: Color)
    requires IsAnchor(x, y)
    ensures WinningSet(Paint(Block(x, y), c)) == Block(x, y)
    ensures Pass(Paint(Block(x, y), c)) == EmptyBoard()
  {
    var area := Block(x, y);
    var g := Paint(area, c);
    assert IsMatch(g, x, y);
    MatchCollected(g, x, y);
    WinningInsidePaint(area, c);
    assert WinningSet(g) == area;
    ClearPaint(area, c);
  }

  /** Two horizontally adjacent blocks share one column: six cells. */
  lemma AreaSize(x: int, y: int)
    ensures |Block(x, y) + Block(x + 1, y)| == 6
  {
    assert Block(x, y) + Block(x + 1, y) ==
      {Point(x, y), Point(x, y + 1), Point(x + 1, y), Point(x + 1, y + 1), Point(x + 2, y), Point(x + 2, y + 1)};
  }

  /** Two overlapping matches, a 3x2 area of one colour, collect all six
      cells once, and a pass empties each of them. */
  lemma OverlappingBlocksCleared(x: int, y: int, c: Color)
    requires IsAnchor(x, y) && IsAnchor(x + 1, y)
    ensures WinningSet(Paint(Block(x, y) + Block(x + 1, y), c)) == Block(x, y) + Block(x + 1, y)
    ensures |Block(x, y) + Block(x + 1, y)| == 6
    ensures Pass(Paint(Block(x, y) + Block(x + 1, y), c)) == EmptyBoard()
  {
    var area := Block(x, y) + Block(x + 1, y);
    var g := Paint(area, c);
    assert IsMatch(g, x, y) && IsMatch(g, x + 1, y);
    MatchCollected(g, x, y);
    MatchCollected(g, x + 1, y);
    WinningInsidePaint(area, c);
    assert WinningSet(g) == area;
    ClearPaint(area, c);
    AreaSize(x, y);
  }

  /** The colour type is exactly the palette: seven distinct colours. */
  lemma PaletteIsColorType(c: Color)
    ensures c in Colors
    ensures |Colors| == 7
    ensures forall i, j :: 0 <= i < j < |Colors| ==> Colors[i] != Colors[j]
  {
  }
}
