/**
 * The first move of the AI on a new board of edge 3: with no filters, BLACK chooses the
 * top row's cell (0, 1), the upper-leftmost cell that captures (the corner (0, 0) captures
 * nothing), which is the answer the repository's test suite expects from chooseCell.
 */
module FirstMove {
  import opened Wrappers
  import opened Colors
  import opened Coords
  import opened Geometry
  import opened Board
  import opened Capture
  import opened Engine
  import opened StrategyUtils
  import opened AIStrategy

  /** The cells of a new edge-3 board that the choice of BLACK's first move looks at. */
  ghost predicate EdgeThreeOpening(grid: Grid)
  {
    && |grid| == 5 && |grid[0]| == 3 && |grid[1]| == 4 && |grid[2]| == 5
    && At(grid, Coord(1, 1)) == BLACK && At(grid, Coord(2, 3)) == BLACK
    && At(grid, Coord(1, 2)) == WHITE
    && At(grid, Coord(0, 1)) == NONE && At(grid, Coord(1, 0)) == NONE
  }

  /** On a new board the two cells (E-3, E-2) and (E-2, E-3) are empty. */
  lemma StartingGridEmptyAboveCenter(e: int)
    requires e >= 3
    ensures InBounds(StartingGrid(e), Coord(e - 3, e - 2)) && InBounds(StartingGrid(e), Coord(e - 2, e - 3))
    ensures At(StartingGrid(e), Coord(e - 3, e - 2)) == NONE
    ensures At(StartingGrid(e), Coord(e - 2, e - 3)) == NONE
  {
    var above, left := Coord(e - 3, e - 2), Coord(e - 2, e - 3);
    StartingGridShape(e);
    var p := StartingPieces(e);
    forall i | 0 <= i < 6 ensures p[i].0 != above && p[i].0 != left { }
    assert above !in StartingCells(e) && left !in StartingCells(e);
    StartingGridEmptyElsewhere(e, above);
    StartingGridEmptyElsewhere(e, left);
  }

  /** A new edge-3 board has that layout. */
  lemma StartingGridEdgeThree(e: int)
    requires e == 3
    ensures EdgeThreeOpening(StartingGrid(e))
  {
    StartingGridLayout(e);
    StartingGridEmptyAboveCenter(e);
    var grid := StartingGrid(e);
    assert |grid[0]| == RowLength(3, 0) && |grid[1]| == RowLength(3, 1) && |grid[2]| == RowLength(3, 2);
  }

  /** On such a board BLACK captures from (0, 1) towards the bottom right. */
  lemma EdgeThreeTopMoveLegal(e: int, grid: Grid, o: Coord)
    requires e == 3 && o == Coord(0, 1) && EdgeThreeOpening(grid)
    ensures InBounds(grid, o) && ValidMoveAt(e, grid, BLACK, o).legal
  {
    assert Step(e, o, BottomRight, 1) == Coord(1, 2);
    assert Step(e, o, BottomRight, 2) == Coord(2, 3);
    assert CapturesAt(e, grid, BLACK, o, BottomRight, 1);
    assert HasCapture(e, grid, BLACK, o, BottomRight);
    assert InBounds(grid, o) && At(grid, o) == NONE;
    ValidMoveSpec(e, grid, BLACK, o);
  }

  /** On a board of edge 3 the neighbours of (0, 0) inside the grid are (0, 1), (1, 0) and (1, 1). */
  lemma EdgeThreeCornerNeighbours(e: int, o: Coord, d: Direction, first: Coord)
    requires e == 3 && o == Coord(0, 0) && first == Step(e, o, d, 1)
    ensures first == Coord(0, 1) || first == Coord(1, 0) || first == Coord(1, 1) || first.row < 0 || first.col < 0
  {
    assert first == NextInLine(e, o, d);
  }

  /** On such a board none of the neighbours of (0, 0) holds a WHITE disc. */
  lemma EdgeThreeNeighbourNotWhite(grid: Grid, c: Coord)
    requires EdgeThreeOpening(grid)
    requires c == Coord(0, 1) || c == Coord(1, 0) || c == Coord(1, 1) || c.row < 0 || c.col < 0
    ensures !InBounds(grid, c) || At(grid, c) != WHITE
  {
  }

  /** A line whose first cell is not the opponent's captures nothing. */
  lemma NoCaptureWithoutOpponentNext(e: int, grid: Grid, mover: DiscColor, o: Coord, d: Direction)
    requires mover != NONE
    requires !InBounds(grid, Step(e, o, d, 1)) || At(grid, Step(e, o, d, 1)) != Opponent(mover)
    ensures !HasCapture(e, grid, mover, o, d)
  {
  }

  /** For BLACK: a line whose first cell holds no WHITE disc captures nothing. */
  lemma NoCaptureWithoutWhiteNext(e: int, grid: Grid, o: Coord, d: Direction, first: Coord)
    requires first == Step(e, o, d, 1) && (!InBounds(grid, first) || At(grid, first) != WHITE)
    ensures !HasCapture(e, grid, BLACK, o, d)
  {
    assert Opponent(BLACK) == WHITE;
    NoCaptureWithoutOpponentNext(e, grid, BLACK, o, d);
  }

  /** A cell none of whose neighbours holds a WHITE disc is not a legal move for BLACK. */
  lemma NoWhiteNeighbourIllegal(e: int, grid: Grid, o: Coord)
    requires InBounds(grid, o)
    requires forall d: Direction :: !InBounds(grid, Step(e, o, d, 1)) || At(grid, Step(e, o, d, 1)) != WHITE
    ensures !ValidMoveAt(e, grid, BLACK, o).legal
  {
    forall d: Direction
      ensures !HasCapture(e, grid, BLACK, o, d)
    {
      NoCaptureWithoutWhiteNext(e, grid, o, d, Step(e, o, d, 1));
    }
    ValidMoveSpec(e, grid, BLACK, o);
  }

  /** On such a board BLACK cannot play the top-left corner (0, 0). */
  lemma EdgeThreeCornerIllegal(e: int, grid: Grid, o: Coord)
    requires e == 3 && o == Coord(0, 0) && EdgeThreeOpening(grid)
    ensures InBounds(grid, o) && !ValidMoveAt(e, grid, BLACK, o).legal
  {
    forall d: Direction
      ensures !InBounds(grid, Step(e, o, d, 1)) || At(grid, Step(e, o, d, 1)) != WHITE
    {
      var first := Step(e, o, d, 1);
      EdgeThreeCornerNeighbours(e, o, d, first);
      EdgeThreeNeighbourNotWhite(grid, first);
    }
    NoWhiteNeighbourIllegal(e, grid, o);
  }

  /** A legal cell lies on the board and matches validMove's answer for the player to move. */
  lemma LegalCellInBounds(g: Game, c: Coord)
    requires g.gameState == BLACKMOVE && IsLegal(g, c)
    ensures InBounds(g.grid, c) && ValidMoveAt(g.edgeLength, g.grid, BLACK, c).legal
  {
  }

  /** In an edge-3 game that opens that way with BLACK to move, (0, 1) is legal. */
  lemma EdgeThreeTopIsLegal(g: Game)
    requires g.edgeLength == 3 && g.gameState == BLACKMOVE && EdgeThreeOpening(g.grid)
    ensures IsLegal(g, Coord(0, 1))
  {
    EdgeThreeTopMoveLegal(g.edgeLength, g.grid, Coord(0, 1));
    assert ValidMove(g, Coord(0, 1)) == Ok(ValidMoveAt(g.edgeLength, g.grid, BLACK, Coord(0, 1)));
  }

  /** ... and every legal cell is (0, 1) or lies after it in row-major order. */
  lemma EdgeThreeLegalAfterTop(g: Game, c: Coord)
    requires g.edgeLength == 3 && g.gameState == BLACKMOVE && EdgeThreeOpening(g.grid)
    requires IsLegal(g, c)
    ensures UpperLeftOf(Coord(0, 1), c)
  {
    LegalCellInBounds(g, c);
    EdgeThreeCornerIllegal(g.edgeLength, g.grid, Coord(0, 0));
    assert c != Coord(0, 0);
  }

  /** Hence (0, 1) is the upper-leftmost legal move. */
  lemma EdgeThreeUpperLeftLegal(g: Game)
    requires g.edgeLength == 3 && g.gameState == BLACKMOVE && EdgeThreeOpening(g.grid)
    ensures IsLegal(g, Coord(0, 1)) && forall c :: IsLegal(g, c) ==> UpperLeftOf(Coord(0, 1), c)
  {
    EdgeThreeTopIsLegal(g);
    forall c | IsLegal(g, c)
      ensures UpperLeftOf(Coord(0, 1), c)
    {
      EdgeThreeLegalAfterTop(g, c);
    }
  }

  /** A new game, once started, is the opening board with BLACK to move. */
  lemma StartedGame(e: int)
    requires e >= 2
    ensures Engine.Create(e).Ok? && Engine.StartGame(Engine.Create(e).value).Ok?
    ensures Engine.StartGame(Engine.Create(e).value).value == Game(e, StartingGrid(e), BLACKMOVE, 0)
    ensures Engine.Valid(Game(e, StartingGrid(e), BLACKMOVE, 0))
  {
    StartGameSpec(Engine.Create(e).value);
  }

  /**
   * With no filters, on an edge-3 board that opens that way, BLACK chooses (0, 1). A new
   * edge-3 game once started is such a game: see StartedGame and StartingGridEdgeThree.
   */
  lemma EdgeThreeChoice(g: Game)
    requires Engine.Valid(g) && g.edgeLength == 3 && g.gameState == BLACKMOVE
    requires EdgeThreeOpening(g.grid)
    ensures ChooseCellSpec([], g, BLACK) == Ok(Coord(0, 1))
  {
    EdgeThreeUpperLeftLegal(g);
    UnfilteredChoice(g, Coord(0, 1));
  }
}
