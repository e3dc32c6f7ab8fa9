/** The rules engine of the Cubes game: one controller owns the 9x9 grid of
    cells, the set of winning cells of the latest pass and the selected cell,
    and changes them in place in answer to mouse clicks. */
module Game {
  import opened Grid

  class Controller {
    /** The grid, indexed `cells[x, y]`; never replaced, only written to. */
    const cells: array2<Cell>
    /** The points collected by the latest pass. */
    var winningCells: set<Point>
    /** The cell picked as the source of the next move, if any. */
    var selectedCell: Option<Point>

    /** The grid has its fixed size. */
    predicate Sized() {
      cells.Length0 == Width && cells.Length1 == Height
    }

    /** Structural invariant: fixed size, and every winning cell is a cell
        of the grid. */
    ghost predicate Valid()
      reads this
    {
      Sized() && forall p :: p in winningCells ==> InBounds(p)
    }

    /** The selection, when present, names a cell that holds a cube. */
    ghost predicate SelectionHeld()
      reads this, cells
    {
      Sized() &&
      (selectedCell.Some? ==>
        InBounds(selectedCell.value) && cells[selectedCell.value.x, selectedCell.value.y].Filled?)
    }

    /** The grid as a value. */
    ghost function Board(): (g: Board)
      reads cells
      requires Sized()
      ensures WellFormed(g)
    {
      seq(Width, x requires 0 <= x < Width reads cells =>
        seq(Height, y requires 0 <= y < Height reads cells => cells[x, y]))
    }

    /** The array holds exactly the cells of `h`. */
    lemma BoardIs(h: Board)
      requires Sized() && WellFormed(h)
      requires forall x, y :: 0 <= x < Width && 0 <= y < Height ==> cells[x, y] == h[x][y]
      ensures Board() == h
    {
      forall x | 0 <= x < Width
        ensures Board()[x] == h[x]
      {
        assert forall y :: 0 <= y < Height ==> Board()[x][y] == h[x][y];
      }
    }

    /** A new controller: an all-empty grid, nothing won, nothing selected. */
    constructor ()
      ensures Valid() && SelectionHeld() && fresh(cells)
      ensures Board() == EmptyBoard() && winningCells == {} && selectedCell == None
    {
      cells := new Cell[Width, Height]((_, _) => Empty);
      winningCells := {};
      selectedCell := None;
      new;
      BoardIs(EmptyBoard());
    }

    /** The random source: some integer in [0, max). */
    method Random(max: int) returns (r: int)
      requires max > 0
      ensures 0 <= r < max
    {
      r :| 0 <= r < max;
    }

    /** A colour drawn from the palette. */
    method RandomColor() returns (c: Color)
      ensures c in Colors
    {
      var i := Random(|Colors|);
      c := Colors[i];
    }

    /** Puts one cube of a random colour into a cell that was empty. The
        draws of the retry loop in `placeCube` are modelled by the cell it stops
        on: any empty cell. */
    method PlaceCube()
      requires Valid() && |EmptyPoints(Board())| >= 1
      modifies cells
      ensures exists p, c :: p in EmptyPoints(old(Board())) && Board() == Put(old(Board()), p, Filled(c))
    {
      ghost var g := Board();
      ghost var q :| q in EmptyPoints(g);
      assert cells[q.x, q.y] == Empty;
      var x: int, y: int :| 0 <= x < Width && 0 <= y < Height && cells[x, y] == Empty;
      var color := RandomColor();
      cells[x, y] := Filled(color);
      BoardIs(Put(g, Point(x, y), Filled(color)));
      assert Point(x, y) in EmptyPoints(g);
    }

    /** Places NumberOfCubes cubes, each into a cell that was empty. */
    method GenerateCubes()
      requires Valid() && |EmptyPoints(Board())| >= NumberOfCubes
      modifies cells
      ensures IsRefill(old(Board()), Board())
    {
      ghost var g := Board();
      for i := 0 to NumberOfCubes
        invariant |FilledPoints(Board())| == |FilledPoints(g)| + i
        invariant |EmptyPoints(Board())| == |EmptyPoints(g)| - i
        invariant FilledPoints(g) <= FilledPoints(Board())
        invariant forall x, y :: 0 <= x < Width && 0 <= y < Height && g[x][y].Filled? ==>
          Board()[x][y] == g[x][y]
      {
        ghost var before := Board();
        PlaceCube();
        ghost var p, c :| p in EmptyPoints(before) && Board() == Put(before, p, Filled(c));
        PlaceFillsOneCell(before, p, c);
      }
    }

    /** The points of column i of a block, rows y up to j - 1: what the
        inner loop of CheckOneSquare has added before reaching row j. */
    static ghost function ColumnPrefix(i: int, y: int, j: int): set<Point> {
      if j <= y then {} else if j == y + 1 then {Point(i, y)} else {Point(i, y), Point(i, y + 1)}
    }

    /** The points of the block anchored at (x, y), columns x up to i - 1:
        what the outer loop of CheckOneSquare has added before column i. */
    static ghost function BlockPrefix(x: int, y: int, i: int): set<Point> {
      if i <= x then {} else if i == x + 1 then ColumnPrefix(x, y, y + 2) else Block(x, y)
    }

    /** Collects the block anchored at (x, y) when it matches. Every cell it
        reads, up to (x + 1, y + 1), lies inside the grid. */
    method CheckOneSquare(x: int, y: int)
      requires Valid() && IsAnchor(x, y)
      modifies this`winningCells
      ensures Valid()
      ensures winningCells == old(winningCells) + (if IsMatch(Board(), x, y) then Block(x, y) else {})
    {
      var color := cells[x, y];
      if color == Empty {
        return;
      }
      for i := x to x + 2
        invariant forall a, b :: x <= a < i && y <= b <= y + 1 ==> cells[a, b] == color
      {
        for j := y to y + 2
          invariant forall b :: y <= b < j ==> cells[i, b] == color
        {
          if cells[i, j] != color {
            return;
          }
        }
      }
      for i := x to x + 2
        invariant winningCells == old(winningCells) + BlockPrefix(x, y, i)
        invariant Valid()
      {
        for j := y to y + 2
          invariant winningCells == old(winningCells) + BlockPrefix(x, y, i) + ColumnPrefix(i, y, j)
          invariant Valid()
        {
          winningCells := winningCells + {Point(i, j)};
        }
      }
    }

    /** Empties every cell named in `winningCells`. */
    method ClearWinningCells()
      requires Valid()
      modifies cells
      ensures Board() == Clear(old(Board()), winningCells)
    {
      ghost var g := Board();
      var rest := winningCells;
      while rest != {}
        invariant rest <= winningCells
        invariant forall x, y :: 0 <= x < Width && 0 <= y < Height ==>
          cells[x, y] == if Point(x, y) in winningCells - rest then Empty else g[x][y]
        decreases rest
      {
        var p :| p in rest;
        cells[p.x, p.y] := Empty;
        rest := rest - {p};
      }
      BoardIs(Clear(g, winningCells));
    }

    /** One pass: forget the previous winning cells, scan every anchor,
        then empty what was collected. */
    method CheckAllField()
      requires Valid()
      modifies this`winningCells, cells
      ensures Valid()
      ensures winningCells == WinningSet(old(Board()))
      ensures Board() == Pass(old(Board()))
      ensures NoMatch(Board())
    {
      ghost var g := Board();
      winningCells := {};
      ScanStart(g);
      for x := 0 to Width - 1
        invariant Valid() && Board() == g
        invariant winningCells == WinningUpTo(g, x, 0)
      {
        for y := 0 to Height - 1
          invariant Valid() && Board() == g
          invariant winningCells == WinningUpTo(g, x, y)
        {
          CheckOneSquare(x, y);
          ScanStep(g, x, y);
        }
        ScanNextColumn(g, x);
      }
      WinningCellsFilled(g);
      ClearWinningCells();
      NoMatchAfterPass(g);
    }

    /** The grid part of starting a game: one refill. */
    method Start()
      requires Valid() && SelectionHeld() && |EmptyPoints(Board())| >= NumberOfCubes
      modifies cells
      ensures Valid() && SelectionHeld()
      ensures IsRefill(old(Board()), Board())
    {
      GenerateCubes();
    }

    /** Handles a click at pixel (mouseX, mouseY). A click on a cube selects
        it; a click on an empty cell with nothing selected does nothing; a
        click on an empty cell while a cube is selected moves that cube
        there (any empty cell, adjacent or not), clears the selection and
        runs a pass, and when the pass clears nothing, refills and runs one
        more pass. */
    method HandleMouseClick(mouseX: int, mouseY: int)
      requires Valid() && SelectionHeld()
      requires InBounds(ToCell(mouseX, mouseY))
      requires MoveRefills(Board(), selectedCell, ToCell(mouseX, mouseY)) ==>
        |EmptyPoints(Board())| >= NumberOfCubes
      modifies this, cells
      ensures Valid() && SelectionHeld()
      // a click on a cube selects it and changes nothing else
      ensures var p := ToCell(mouseX, mouseY);
        old(Board())[p.x][p.y].Filled? ==>
          selectedCell == Some(p) && Board() == old(Board()) && winningCells == old(winningCells)
      // a click on an empty cell with nothing selected changes nothing
      ensures var p := ToCell(mouseX, mouseY);
        old(Board())[p.x][p.y] == Empty && old(selectedCell) == None ==>
          selectedCell == None && Board() == old(Board()) && winningCells == old(winningCells)
      // a move, a pass, and a refill with a second pass if the first found nothing
      ensures var p := ToCell(mouseX, mouseY);
        old(Board())[p.x][p.y] == Empty && old(selectedCell).Some? ==>
          var m := MoveCube(old(Board()), old(selectedCell).value, p);
          && selectedCell == None
          && |FilledPoints(m)| == |FilledPoints(old(Board()))|
          && (WinningSet(m) != {} ==> winningCells == WinningSet(m) && Board() == Pass(m))
          && (WinningSet(m) == {} ==>
                exists r :: WellFormed(r) && IsRefill(m, r) && winningCells == WinningSet(r) && Board() == Pass(r))
    {
      var x := JavaDiv(mouseX, SquareSize);
      var y := JavaDiv(mouseY, SquareSize);
      var cell := cells[x, y];
      if cell == Empty {
        if selectedCell == None {
          return;
        }
        ghost var g := Board();
        var from := selectedCell.value;
        cells[x, y] := cells[from.x, from.y];
        cells[from.x, from.y] := Empty;
        selectedCell := None;
        BoardIs(MoveCube(g, from, Point(x, y)));
        assert from in FilledPoints(g) && Point(x, y) in EmptyPoints(g);
        MoveKeepsCount(g, from, Point(x, y));
        ghost var m := Board();
        CheckAllField();
        if winningCells == {} {
          ClearNothing(m);
          GenerateCubes();
          ghost var r := Board();
          CheckAllField();
          assert IsRefill(m, r) && winningCells == WinningSet(r) && Board() == Pass(r);
        }
      } else {
        selectedCell := Some(Point(x, y));
      }
    }
  }
}
