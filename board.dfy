/**
 * The board of ReversiModel: a jagged list of rows of disc colours. Row r of a board
 * with edge length E has (2E - 1) - |r - (E - 1)| cells; the shape never changes after
 * setupGrid, only cell contents do.
 */
module Board {
  import opened Wrappers
  import opened Errors
  import opened Colors
  import opened Coords

  type Grid = seq<seq<DiscColor>>

  function Abs(x: int): nat { if x < 0 then -x else x }

  /** The number of cells in a row of the hexagon (setupGrid's rowLength). */
  function RowLength(edgeLength: int, row: int): int
  {
    ((2 * edgeLength) - 1) - Abs(row - (edgeLength - 1))
  }

  /** The grid has 2E - 1 rows and row r has RowLength(E, r) cells. */
  ghost predicate WellShaped(edgeLength: int, grid: Grid)
  {
    && edgeLength >= 2
    && |grid| == 2 * edgeLength - 1
    && forall r :: 0 <= r < |grid| ==> |grid[r]| == RowLength(edgeLength, r)
  }

  ghost predicate SameShape(g1: Grid, g2: Grid)
  {
    |g1| == |g2| && forall r :: 0 <= r < |g1| ==> |g1[r]| == |g2[r]|
  }

  /** The negation of throwIfInvalidCoords: the cell exists in this jagged grid. */
  predicate InBounds(grid: Grid, c: Coord)
  {
    0 <= c.row < |grid| && 0 <= c.col < |grid[c.row]|
  }

  function At(grid: Grid, c: Coord): DiscColor
    requires InBounds(grid, c)
  {
    grid[c.row][c.col]
  }

  /** getColorAt: the colour of an existing cell, InvalidCoords otherwise. */
  function GetColorAt(grid: Grid, c: Coord): (r: Result<DiscColor, Error>)
    ensures r.Err? <==> !InBounds(grid, c)
    ensures r.Err? ==> r.error == InvalidCoords
    ensures r.Ok? ==> r.value == grid[c.row][c.col]
  {
    if c.row < 0 || c.row >= |grid| || c.col < 0 || c.col >= |grid[c.row]| then Err(InvalidCoords)
    else Ok(grid[c.row][c.col])
  }

  /** placeDisc: overwrite one cell; the shape and every other cell stay as they were. */
  function PlaceDisc(grid: Grid, c: Coord, color: DiscColor): (g: Grid)
    requires InBounds(grid, c)
    ensures SameShape(grid, g)
    ensures At(g, c) == color
    ensures forall d :: InBounds(grid, d) && d != c ==> At(g, d) == At(grid, d)
  {
    grid[c.row := grid[c.row][c.col := color]]
  }

  /** The grid with every cell of `cells` set to `color` and every other cell unchanged. */
  function Paint(grid: Grid, cells: set<Coord>, color: DiscColor): (g: Grid)
    ensures SameShape(grid, g)
    ensures forall d :: InBounds(grid, d) ==> At(g, d) == if d in cells then color else At(grid, d)
  {
    seq(|grid|, r requires 0 <= r < |grid| =>
      seq(|grid[r]|, c requires 0 <= c < |grid[r]| =>
        if Coord(r, c) in cells then color else grid[r][c]))
  }

  lemma SameShapeInBounds(g1: Grid, g2: Grid, c: Coord)
    requires SameShape(g1, g2)
    ensures InBounds(g1, c) <==> InBounds(g2, c)
  {
  }

  /** grid is g0 with exactly the cells of `done` set to color. */
  ghost predicate Painted(g0: Grid, grid: Grid, done: seq<Coord>, color: DiscColor)
  {
    && SameShape(g0, grid)
    && forall x :: InBounds(g0, x) ==> At(grid, x) == if x in done then color else At(g0, x)
  }

  /** Setting one more, not yet painted, cell extends the painted part by that cell. */
  lemma PaintStep(g0: Grid, grid: Grid, done: seq<Coord>, y: Coord, color: DiscColor)
    requires Painted(g0, grid, done, color) && InBounds(g0, y) && y !in done
    ensures InBounds(grid, y) && At(grid, y) == At(g0, y)
    ensures Painted(g0, PlaceDisc(grid, y, color), done + [y], color)
  {
  }

  /** Two boards of the same shape that agree on every cell are the same board. */
  lemma GridExtensionality(g1: Grid, g2: Grid)
    requires SameShape(g1, g2)
    requires forall c :: InBounds(g1, c) ==> At(g1, c) == At(g2, c)
    ensures g1 == g2
  {
    forall r | 0 <= r < |g1| ensures g1[r] == g2[r] {
      forall k | 0 <= k < |g1[r]| ensures g1[r][k] == g2[r][k] {
        assert InBounds(g1, Coord(r, k));
      }
    }
  }

  /** A board painted cell by cell along `done` is the board with those cells painted at once. */
  lemma PaintedIsPaint(g0: Grid, grid: Grid, done: seq<Coord>, color: DiscColor)
    requires Painted(g0, grid, done, color)
    ensures grid == Paint(g0, (set x | x in done), color)
  {
    var cells := set x | x in done;
    var painted := Paint(g0, cells, color);
    forall c | InBounds(grid, c) ensures At(grid, c) == At(painted, c) {
      SameShapeInBounds(g0, grid, c);
      assert c in cells <==> c in done;
    }
    GridExtensionality(grid, painted);
  }

  lemma WellShapedSameShape(edgeLength: int, g1: Grid, g2: Grid)
    requires WellShaped(edgeLength, g1) && SameShape(g1, g2)
    ensures WellShaped(edgeLength, g2)
  {
  }

  /** Number of cells of a row holding `color`. */
  function CountInRow(row: seq<DiscColor>, color: DiscColor): nat
  {
    if row == [] then 0
    else CountInRow(row[..|row| - 1], color) + (if row[|row| - 1] == color then 1 else 0)
  }

  /** Number of cells of the grid holding `color`, counted row by row. */
  function CountColor(grid: Grid, color: DiscColor): nat
  {
    if grid == [] then 0
    else CountColor(grid[..|grid| - 1], color) + CountInRow(grid[|grid| - 1], color)
  }

  function CellCount(grid: Grid): nat
  {
    if grid == [] then 0 else CellCount(grid[..|grid| - 1]) + |grid[|grid| - 1]|
  }

  lemma {:induction false} RowCountsPartition(row: seq<DiscColor>)
    ensures CountInRow(row, BLACK) + CountInRow(row, WHITE) + CountInRow(row, NONE) == |row|
  {
    if row != [] {
      RowCountsPartition(row[..|row| - 1]);
    }
  }

  /** score(BLACK) + score(WHITE) + number of empty cells == number of cells. */
  lemma {:induction false} CountsPartitionCells(grid: Grid)
    ensures CountColor(grid, BLACK) + CountColor(grid, WHITE) + CountColor(grid, NONE) == CellCount(grid)
  {
    if grid != [] {
      CountsPartitionCells(grid[..|grid| - 1]);
      RowCountsPartition(grid[|grid| - 1]);
    }
  }

  lemma {:induction false} CountInRowUpdate(row: seq<DiscColor>, i: nat, color: DiscColor, x: DiscColor)
    requires i < |row|
    ensures CountInRow(row[i := color], x)
         == CountInRow(row, x) - (if row[i] == x then 1 else 0) + (if color == x then 1 else 0)
  {
    var n := |row|;
    if i == n - 1 {
      assert row[i := color][..n - 1] == row[..n - 1];
    } else {
      assert row[i := color][..n - 1] == row[..n - 1][i := color];
      CountInRowUpdate(row[..n - 1], i, color, x);
    }
  }

  /** Overwriting one cell changes each colour's count by at most the one cell. */
  lemma {:induction false} CountAfterPlace(grid: Grid, c: Coord, color: DiscColor, x: DiscColor)
    requires InBounds(grid, c)
    ensures CountColor(PlaceDisc(grid, c, color), x)
         == CountColor(grid, x) - (if At(grid, c) == x then 1 else 0) + (if color == x then 1 else 0)
  {
    var n := |grid|;
    var g := PlaceDisc(grid, c, color);
    if c.row == n - 1 {
      assert g[..n - 1] == grid[..n - 1];
      CountInRowUpdate(grid[n - 1], c.col, color, x);
    } else {
      assert g[..n - 1] == PlaceDisc(grid[..n - 1], c, color);
      CountAfterPlace(grid[..n - 1], c, color, x);
    }
  }

  /** setupGrid: 2E - 1 rows of empty cells. */
  function EmptyGrid(edgeLength: int): Grid
  {
    seq(if edgeLength >= 1 then edgeLength * 2 - 1 else 0, row =>
      seq(if RowLength(edgeLength, row) >= 0 then RowLength(edgeLength, row) else 0, col => NONE))
  }

  /** The six cells around the centre and their opening colours (placeStartingPieces). */
  function StartingPieces(edgeLength: int): seq<(Coord, DiscColor)>
  {
    var center := Coord(edgeLength - 1, edgeLength - 1);
    [ (Coord(center.row - 1, center.col - 1), BLACK),
      (Coord(center.row - 1, center.col), WHITE),
      (Coord(center.row, center.col - 1), WHITE),
      (Coord(center.row, center.col + 1), BLACK),
      (Coord(center.row + 1, center.col - 1), BLACK),
      (Coord(center.row + 1, center.col), WHITE) ]
  }

  /** Places each (cell, colour) pair in turn, as a sequence of placeDisc calls. */
  function PlacePieces(grid: Grid, pieces: seq<(Coord, DiscColor)>): (r: Grid)
    requires forall i :: 0 <= i < |pieces| ==> InBounds(grid, pieces[i].0)
    ensures SameShape(grid, r)
    decreases |pieces|
  {
    if pieces == [] then grid
    else
      var g := PlaceDisc(grid, pieces[0].0, pieces[0].1);
      assert forall i :: 0 <= i < |pieces[1..]| ==> InBounds(g, pieces[1..][i].0);
      PlacePieces(g, pieces[1..])
  }

  /** Placing a list of pieces is placing the first one, then the rest. */
  lemma PlacePiecesFirst(grid: Grid, pieces: seq<(Coord, DiscColor)>)
    requires pieces != [] && forall i :: 0 <= i < |pieces| ==> InBounds(grid, pieces[i].0)
    ensures InBounds(grid, pieces[0].0)
    ensures var g := PlaceDisc(grid, pieces[0].0, pieces[0].1);
      && (forall i :: 0 <= i < |pieces[1..]| ==> InBounds(g, pieces[1..][i].0))
      && PlacePieces(grid, pieces) == PlacePieces(g, pieces[1..])
  {
  }

  /** The board of a new game: setupGrid followed by placeStartingPieces. */
  function StartingGrid(edgeLength: int): Grid
    requires edgeLength >= 2
  {
    StartingPiecesInBounds(edgeLength);
    PlacePieces(EmptyGrid(edgeLength), StartingPieces(edgeLength))
  }

  lemma StartingPiecesInBounds(edgeLength: int)
    requires edgeLength >= 2
    ensures var p := StartingPieces(edgeLength);
      forall i :: 0 <= i < |p| ==> InBounds(EmptyGrid(edgeLength), p[i].0)
  {
  }

  ghost predicate DistinctCells(pieces: seq<(Coord, DiscColor)>)
  {
    forall i, j :: 0 <= i < j < |pieces| ==> pieces[i].0 != pieces[j].0
  }

  /** Number of pieces of a given colour. */
  function PiecesOf(pieces: seq<(Coord, DiscColor)>, x: DiscColor): nat
  {
    if pieces == [] then 0 else (if pieces[0].1 == x then 1 else 0) + PiecesOf(pieces[1..], x)
  }

  /** Placed on distinct cells, every piece is still there at the end. */
  lemma {:induction false} PlacePiecesPlaced(grid: Grid, pieces: seq<(Coord, DiscColor)>)
    requires forall i :: 0 <= i < |pieces| ==> InBounds(grid, pieces[i].0)
    requires DistinctCells(pieces)
    ensures forall i :: 0 <= i < |pieces| ==> At(PlacePieces(grid, pieces), pieces[i].0) == pieces[i].1
    decreases |pieces|
  {
    if pieces != [] {
      PlacePiecesFirst(grid, pieces);
      var g, rest := PlaceDisc(grid, pieces[0].0, pieces[0].1), pieces[1..];
      PlacePiecesPlaced(g, rest);
      PlacePiecesElsewhere(g, rest);
      forall i | 0 <= i < |pieces|
        ensures At(PlacePieces(grid, pieces), pieces[i].0) == pieces[i].1
      {
        if i > 0 {
          assert rest[i - 1] == pieces[i];
        } else {
          assert forall k :: 0 <= k < |rest| ==> rest[k].0 != pieces[0].0 by {
            forall k | 0 <= k < |rest| ensures rest[k].0 != pieces[0].0 {
              assert rest[k] == pieces[k + 1];
            }
          }
        }
      }
    }
  }

  /** A cell no piece names keeps its colour. */
  lemma {:induction false} PlacePiecesElsewhere(grid: Grid, pieces: seq<(Coord, DiscColor)>)
    requires forall i :: 0 <= i < |pieces| ==> InBounds(grid, pieces[i].0)
    ensures forall c :: InBounds(grid, c) && (forall i :: 0 <= i < |pieces| ==> pieces[i].0 != c)
                    ==> At(PlacePieces(grid, pieces), c) == At(grid, c)
    decreases |pieces|
  {
    if pieces != [] {
      PlacePiecesFirst(grid, pieces);
      var g, rest := PlaceDisc(grid, pieces[0].0, pieces[0].1), pieces[1..];
      PlacePiecesElsewhere(g, rest);
      forall c | InBounds(grid, c) && (forall i :: 0 <= i < |pieces| ==> pieces[i].0 != c)
        ensures At(PlacePieces(grid, pieces), c) == At(grid, c)
      {
        assert pieces[0].0 != c;
        forall k | 0 <= k < |rest| ensures rest[k].0 != c {
          assert rest[k] == pieces[k + 1];
        }
      }
    }
  }

  /** Placed on distinct empty cells, each colour's count grows by its number of pieces. */
  lemma {:induction false} PlacePiecesCount(grid: Grid, pieces: seq<(Coord, DiscColor)>, x: DiscColor)
    requires forall i :: 0 <= i < |pieces| ==> InBounds(grid, pieces[i].0)
    requires DistinctCells(pieces)
    requires x != NONE && forall i :: 0 <= i < |pieces| ==> At(grid, pieces[i].0) == NONE
    ensures CountColor(PlacePieces(grid, pieces), x) == CountColor(grid, x) + PiecesOf(pieces, x)
    decreases |pieces|
  {
    if pieces != [] {
      PlacePiecesFirst(grid, pieces);
      var g, rest := PlaceDisc(grid, pieces[0].0, pieces[0].1), pieces[1..];
      CountAfterPlace(grid, pieces[0].0, pieces[0].1, x);
      forall i | 0 <= i < |rest| ensures At(g, rest[i].0) == NONE {
        assert rest[i] == pieces[i + 1];
      }
      PlacePiecesCount(g, rest, x);
    }
  }

  /**
   * Placing pieces on distinct cells: each named cell gets its piece's colour, the rest is
   * unchanged; placed on empty cells, each colour's count grows by its number of pieces.
   */
  lemma PlacePiecesEffect(grid: Grid, pieces: seq<(Coord, DiscColor)>, x: DiscColor)
    requires forall i :: 0 <= i < |pieces| ==> InBounds(grid, pieces[i].0)
    requires DistinctCells(pieces)
    ensures SameShape(grid, PlacePieces(grid, pieces))
    ensures forall i :: 0 <= i < |pieces| ==> At(PlacePieces(grid, pieces), pieces[i].0) == pieces[i].1
    ensures forall c :: InBounds(grid, c) && (forall i :: 0 <= i < |pieces| ==> pieces[i].0 != c)
                    ==> At(PlacePieces(grid, pieces), c) == At(grid, c)
    ensures x != NONE && (forall i :: 0 <= i < |pieces| ==> At(grid, pieces[i].0) == NONE)
            ==> CountColor(PlacePieces(grid, pieces), x) == CountColor(grid, x) + PiecesOf(pieces, x)
  {
    PlacePiecesPlaced(grid, pieces);
    PlacePiecesElsewhere(grid, pieces);
    if x != NONE && (forall i :: 0 <= i < |pieces| ==> At(grid, pieces[i].0) == NONE) {
      PlacePiecesCount(grid, pieces, x);
    }
  }

  lemma EmptyGridShape(edgeLength: int)
    requires edgeLength >= 2
    ensures WellShaped(edgeLength, EmptyGrid(edgeLength))
    ensures forall c :: InBounds(EmptyGrid(edgeLength), c) ==> At(EmptyGrid(edgeLength), c) == NONE
  {
  }

  lemma {:induction false} EmptyCounts(grid: Grid, x: DiscColor)
    requires x != NONE
    requires forall r, c :: 0 <= r < |grid| && 0 <= c < |grid[r]| ==> grid[r][c] == NONE
    ensures CountColor(grid, x) == 0
  {
    if grid != [] {
      EmptyCounts(grid[..|grid| - 1], x);
      EmptyRowCount(grid[|grid| - 1], x);
    }
  }

  lemma {:induction false} EmptyRowCount(row: seq<DiscColor>, x: DiscColor)
    requires x != NONE
    requires forall c :: 0 <= c < |row| ==> row[c] == NONE
    ensures CountInRow(row, x) == 0
  {
    if row != [] {
      EmptyRowCount(row[..|row| - 1], x);
    }
  }

  lemma StartingPiecesDistinct(edgeLength: int)
    ensures DistinctCells(StartingPieces(edgeLength))
  {
  }

  lemma StartingPiecesCount(edgeLength: int)
    ensures PiecesOf(StartingPieces(edgeLength), BLACK) == 3
    ensures PiecesOf(StartingPieces(edgeLength), WHITE) == 3
  {
    var p := StartingPieces(edgeLength);
    assert p[5..][1..] == [];
    assert p[4..][1..] == p[5..];
    assert p[3..][1..] == p[4..];
    assert p[2..][1..] == p[3..];
    assert p[1..][1..] == p[2..];
    assert PiecesOf(p[5..], BLACK) == 0 && PiecesOf(p[5..], WHITE) == 1;
    assert PiecesOf(p[4..], BLACK) == 1 && PiecesOf(p[4..], WHITE) == 1;
    assert PiecesOf(p[3..], BLACK) == 2 && PiecesOf(p[3..], WHITE) == 1;
    assert PiecesOf(p[2..], BLACK) == 2 && PiecesOf(p[2..], WHITE) == 2;
    assert PiecesOf(p[1..], BLACK) == 2 && PiecesOf(p[1..], WHITE) == 3;
  }

  /** A new board is well shaped. */
  lemma StartingGridShape(edgeLength: int)
    requires edgeLength >= 2
    ensures WellShaped(edgeLength, StartingGrid(edgeLength))
  {
    var g0 := EmptyGrid(edgeLength);
    EmptyGridShape(edgeLength);
    StartingPiecesInBounds(edgeLength);
    WellShapedSameShape(edgeLength, g0, StartingGrid(edgeLength));
  }

  /**
   * On a new board BLACK sits at (E-2,E-2), (E-1,E), (E,E-2) and WHITE at (E-2,E-1),
   * (E-1,E-2), (E,E-1).
   */
  lemma StartingGridLayout(edgeLength: int)
    requires edgeLength >= 2
    ensures var g, e := StartingGrid(edgeLength), edgeLength;
      && WellShaped(e, g)
      && At(g, Coord(e - 2, e - 2)) == BLACK && At(g, Coord(e - 1, e)) == BLACK
      && At(g, Coord(e, e - 2)) == BLACK
      && At(g, Coord(e - 2, e - 1)) == WHITE && At(g, Coord(e - 1, e - 2)) == WHITE
      && At(g, Coord(e, e - 1)) == WHITE
  {
    var e := edgeLength;
    var p := StartingPieces(e);
    StartingGridShape(e);
    assert p == [(Coord(e - 2, e - 2), BLACK), (Coord(e - 2, e - 1), WHITE), (Coord(e - 1, e - 2), WHITE),
                 (Coord(e - 1, e), BLACK), (Coord(e, e - 2), BLACK), (Coord(e, e - 1), WHITE)];
    StartingPiecePlaced(e, 0);
    StartingPiecePlaced(e, 1);
    StartingPiecePlaced(e, 2);
    StartingPiecePlaced(e, 3);
    StartingPiecePlaced(e, 4);
    StartingPiecePlaced(e, 5);
  }

  /** Each of the six opening pieces is on the new board. */
  lemma StartingPiecePlaced(edgeLength: int, i: int)
    requires edgeLength >= 2 && 0 <= i < 6
    ensures var p, g := StartingPieces(edgeLength), StartingGrid(edgeLength);
      InBounds(g, p[i].0) && At(g, p[i].0) == p[i].1
  {
    var p := StartingPieces(edgeLength);
    var g0 := EmptyGrid(edgeLength);
    StartingPiecesInBounds(edgeLength);
    StartingPiecesDistinct(edgeLength);
    PlacePiecesPlaced(g0, p);
  }

  /** Every other cell of a new board is empty. */
  lemma StartingGridEmptyElsewhere(edgeLength: int, c: Coord)
    requires edgeLength >= 2
    requires InBounds(StartingGrid(edgeLength), c) && c !in StartingCells(edgeLength)
    ensures At(StartingGrid(edgeLength), c) == NONE
  {
    var e := edgeLength;
    var p := StartingPieces(e);
    var g0 := EmptyGrid(e);
    EmptyGridShape(e);
    StartingGridShape(e);
    StartingPiecesInBounds(e);
    PlacePiecesElsewhere(g0, p);
    forall i | 0 <= i < |p| ensures p[i].0 != c {
      assert p[i].0 in StartingCells(e);
    }
  }

  /** The new board of edge length 3 written out row by row. */
  function EdgeThreeRows(): Grid
  {
    [ [NONE, NONE, NONE],
      [NONE, BLACK, WHITE, NONE],
      [NONE, WHITE, NONE, BLACK, NONE],
      [NONE, BLACK, WHITE, NONE],
      [NONE, NONE, NONE] ]
  }

  /** The cells of the new edge-3 board that hold a disc. */
  lemma EdgeThreeStartingCells(e: int)
    requires e == 3
    ensures StartingCells(e) == {Coord(1, 1), Coord(1, 2), Coord(2, 1), Coord(2, 3), Coord(3, 1), Coord(3, 2)}
  {
    var p := StartingPieces(e);
    assert p[0].0 == Coord(1, 1) && p[1].0 == Coord(1, 2) && p[2].0 == Coord(2, 1);
    assert p[3].0 == Coord(2, 3) && p[4].0 == Coord(3, 1) && p[5].0 == Coord(3, 2);
  }

  /** Each cell of the new edge-3 board holds what EdgeThreeRows shows. */
  lemma StartingGridEdgeThreeCell(e: int, c: Coord)
    requires e == 3 && InBounds(StartingGrid(e), c)
    ensures InBounds(EdgeThreeRows(), c) && At(StartingGrid(e), c) == At(EdgeThreeRows(), c)
  {
    StartingGridShape(e);
    EdgeThreeStartingCells(e);
    if c in StartingCells(e) {
      EdgeThreeDiscCell(e, c);
    } else {
      EdgeThreeEmptyCell(e, c);
    }
  }

  /** The six disc cells of the new edge-3 board. */
  lemma EdgeThreeDiscCell(e: int, c: Coord)
    requires e == 3
    requires c in {Coord(1, 1), Coord(1, 2), Coord(2, 1), Coord(2, 3), Coord(3, 1), Coord(3, 2)}
    ensures InBounds(StartingGrid(e), c) && InBounds(EdgeThreeRows(), c)
    ensures At(StartingGrid(e), c) == At(EdgeThreeRows(), c)
  {
    StartingGridLayout(e);
  }

  /** The other cells of the new edge-3 board. */
  lemma EdgeThreeEmptyCell(e: int, c: Coord)
    requires e == 3 && InBounds(StartingGrid(e), c) && c !in StartingCells(e)
    ensures InBounds(EdgeThreeRows(), c) && At(StartingGrid(e), c) == At(EdgeThreeRows(), c)
  {
    StartingGridShape(e);
    EdgeThreeStartingCells(e);
    StartingGridEmptyElsewhere(e, c);
    assert InBounds(EdgeThreeRows(), c);
    EdgeThreeRowsEmpty(c);
  }

  /** EdgeThreeRows is empty away from the six disc cells. */
  lemma EdgeThreeRowsEmpty(c: Coord)
    requires InBounds(EdgeThreeRows(), c)
    requires c !in {Coord(1, 1), Coord(1, 2), Coord(2, 1), Coord(2, 3), Coord(3, 1), Coord(3, 2)}
    ensures At(EdgeThreeRows(), c) == NONE
  {
    var r, k := c.row, c.col;
    assert r == 1 || r == 3 ==> k == 0 || k == 3;
    assert r == 2 ==> k == 0 || k == 2 || k == 4;
  }

  /** The new board of edge length 3, row by row. */
  lemma StartingGridEdgeThreeRows(e: int)
    requires e == 3
    ensures StartingGrid(e) == EdgeThreeRows()
  {
    StartingGridLayout(e);
    forall c | InBounds(StartingGrid(e), c)
      ensures At(StartingGrid(e), c) == At(EdgeThreeRows(), c)
    {
      StartingGridEdgeThreeCell(e, c);
    }
    GridExtensionality(StartingGrid(e), EdgeThreeRows());
  }

  /** In particular the centre (E-1, E-1) starts empty. */
  lemma StartingCenterEmpty(edgeLength: int)
    requires edgeLength >= 2
    ensures InBounds(StartingGrid(edgeLength), Coord(edgeLength - 1, edgeLength - 1))
    ensures At(StartingGrid(edgeLength), Coord(edgeLength - 1, edgeLength - 1)) == NONE
  {
    var e := edgeLength;
    var center := Coord(e - 1, e - 1);
    StartingGridShape(e);
    var p := StartingPieces(e);
    forall i | 0 <= i < 6 ensures p[i].0 != center { }
    assert center !in StartingCells(e);
    StartingGridEmptyElsewhere(e, center);
  }

  /** Each colour scores 3 on a new board. */
  lemma StartingScores(edgeLength: int)
    requires edgeLength >= 2
    ensures CountColor(StartingGrid(edgeLength), BLACK) == 3
    ensures CountColor(StartingGrid(edgeLength), WHITE) == 3
  {
    var e := edgeLength;
    var p := StartingPieces(e);
    var g0 := EmptyGrid(e);
    EmptyGridShape(e);
    StartingPiecesInBounds(e);
    StartingPiecesDistinct(e);
    StartingPiecesCount(e);
    PlacePiecesCount(g0, p, BLACK);
    PlacePiecesCount(g0, p, WHITE);
    EmptyCounts(g0, BLACK);
    EmptyCounts(g0, WHITE);
  }

  /** The six opening cells. */
  function StartingCells(edgeLength: int): set<Coord>
  {
    set i | 0 <= i < 6 :: StartingPieces(edgeLength)[i].0
  }
}
