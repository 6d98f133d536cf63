/**
 * StrategyUtils: the corner cells of the hexagon, the cells next to them, and the map of
 * every legal move of the active player to the count validMove gives for it.
 */
module StrategyUtils {
  import opened Wrappers
  import opened Errors
  import opened Colors
  import opened Coords
  import opened Geometry
  import opened Board
  import opened Capture
  import opened Engine
  import opened MoveMaps
  import opened Model

  /**
   * getCornersAndAdjacentCells: the six corners (top left, top right, centre left, centre
   * right, bottom left, bottom right), then the three neighbours of each corner, grouped
   * in the same corner order.
   */
  function CornersAndAdjacentCells(edgeLength: int): (cells: seq<Coord>)
    ensures |cells| == 24
  {
    var e := edgeLength;
    [Coord(0, 0), Coord(0, e - 1), Coord(e - 1, 0),
     Coord(e - 1, e * 2 - 2), Coord(e * 2 - 2, 0), Coord(e * 2 - 2, e - 1),
     Coord(0, 1), Coord(1, 0), Coord(1, 1),
     Coord(0, e - 2), Coord(1, e - 1), Coord(1, e),
     Coord(e - 2, 0), Coord(e - 1, 1), Coord(e, 0),
     Coord(e - 2, e * 2 - 3), Coord(e - 1, e * 2 - 3), Coord(e, e * 2 - 3),
     Coord(e * 2 - 3, 0), Coord(e * 2 - 3, 1), Coord(e * 2 - 2, 1),
     Coord(e * 2 - 3, e), Coord(e * 2 - 3, e - 1), Coord(e * 2 - 2, e - 2)]
  }

  /** getCornerCells: the first six entries, the corners of the hexagon. */
  function CornerCells(edgeLength: int): (corners: seq<Coord>)
    ensures var e := edgeLength;
      corners == [Coord(0, 0), Coord(0, e - 1), Coord(e - 1, 0),
                  Coord(e - 1, 2 * e - 2), Coord(2 * e - 2, 0), Coord(2 * e - 2, e - 1)]
  {
    CornersAndAdjacentCells(edgeLength)[..6]
  }

  /** getCellsAdjacentToCorners: the remaining 18 entries, three per corner. */
  function CellsAdjacentToCorners(edgeLength: int): (adjacent: seq<Coord>)
    ensures |adjacent| == 18
  {
    CornersAndAdjacentCells(edgeLength)[6..24]
  }

  /** The direction from its corner to each of the 18 corner-adjacent cells. */
  const AdjacentDirections: seq<Direction> :=
    [CenterRight, BottomLeft, BottomRight,
     CenterLeft, BottomLeft, BottomRight,
     TopRight, CenterRight, BottomRight,
     TopLeft, CenterLeft, BottomLeft,
     TopLeft, TopRight, CenterRight,
     TopRight, TopLeft, CenterLeft]

  /** The lengths of the rows the corners and their neighbours lie on. */
  lemma CornerRowLengths(edgeLength: int, grid: Grid)
    requires WellShaped(edgeLength, grid)
    ensures var e := edgeLength;
      && |grid| == 2 * e - 1 && e >= 2
      && |grid[0]| == e && |grid[1]| == e + 1 && |grid[e - 2]| == 2 * e - 2
      && |grid[e - 1]| == 2 * e - 1 && |grid[e]| == 2 * e - 2
      && |grid[2 * e - 3]| == e + 1 && |grid[2 * e - 2]| == e
  {
    var e := edgeLength;
    assert RowLength(e, 0) == e && RowLength(e, 1) == e + 1 && RowLength(e, e - 2) == 2 * e - 2;
    assert RowLength(e, e - 1) == 2 * e - 1 && RowLength(e, e) == 2 * e - 2;
    assert RowLength(e, 2 * e - 3) == e + 1 && RowLength(e, 2 * e - 2) == e;
  }

  /** On any board of the right shape, the corners and their neighbours are cells of the board. */
  lemma CornersInBounds(edgeLength: int, grid: Grid)
    requires WellShaped(edgeLength, grid)
    ensures forall k :: 0 <= k < 24 ==> InBounds(grid, CornersAndAdjacentCells(edgeLength)[k])
  {
    var e := edgeLength;
    CornerRowLengths(e, grid);
    assert InBounds(grid, Coord(0, 0)) && InBounds(grid, Coord(0, e - 1));
    assert InBounds(grid, Coord(e - 1, 0)) && InBounds(grid, Coord(e - 1, e * 2 - 2));
    assert InBounds(grid, Coord(e * 2 - 2, 0)) && InBounds(grid, Coord(e * 2 - 2, e - 1));
    assert InBounds(grid, Coord(0, 1)) && InBounds(grid, Coord(1, 0)) && InBounds(grid, Coord(1, 1));
    assert InBounds(grid, Coord(0, e - 2)) && InBounds(grid, Coord(1, e - 1)) && InBounds(grid, Coord(1, e));
    assert InBounds(grid, Coord(e - 2, 0)) && InBounds(grid, Coord(e - 1, 1)) && InBounds(grid, Coord(e, 0));
    assert InBounds(grid, Coord(e - 2, e * 2 - 3)) && InBounds(grid, Coord(e - 1, e * 2 - 3));
    assert InBounds(grid, Coord(e, e * 2 - 3));
    assert InBounds(grid, Coord(e * 2 - 3, 0)) && InBounds(grid, Coord(e * 2 - 3, 1));
    assert InBounds(grid, Coord(e * 2 - 2, 1));
    assert InBounds(grid, Coord(e * 2 - 3, e)) && InBounds(grid, Coord(e * 2 - 3, e - 1));
    assert InBounds(grid, Coord(e * 2 - 2, e - 2));
    var cells := CornersAndAdjacentCells(e);
    assert forall c :: c in cells ==> InBounds(grid, c);
  }

  /**
   * Entry k of the corner-adjacent list is the neighbour of corner k / 3 in direction
   * AdjacentDirections[k], under the board's own adjacency.
   */
  lemma AdjacentCellsAreNeighbours(edgeLength: int)
    requires edgeLength >= 2
    ensures forall k :: 0 <= k < 18 ==>
      NextInLine(edgeLength, CornerCells(edgeLength)[k / 3], AdjacentDirections[k])
        == CellsAdjacentToCorners(edgeLength)[k]
  {
    var e := edgeLength;
    var corners := CornerCells(e);
    var adjacent := CellsAdjacentToCorners(e);
    forall k | 0 <= k < 18
      ensures NextInLine(e, corners[k / 3], AdjacentDirections[k]) == adjacent[k]
    {
      if k < 3 {
        assert k / 3 == 0;
      } else if k < 6 {
        assert k / 3 == 1;
      } else if k < 9 {
        assert k / 3 == 2;
      } else if k < 12 {
        assert k / 3 == 3;
      } else if k < 15 {
        assert k / 3 == 4;
      } else {
        assert k / 3 == 5;
      }
    }
  }

  /** With an edge of at least 3 no corner-adjacent cell is a corner. */
  lemma CornersAndNeighboursDisjoint(edgeLength: int)
    requires edgeLength >= 3
    ensures forall k, j :: 0 <= k < 18 && 0 <= j < 6 ==>
      CellsAdjacentToCorners(edgeLength)[k] != CornerCells(edgeLength)[j]
  {
  }

  // ---------------------------------------------------------------------------------------
  // getAllValidMoves

  /** Every cell of a jagged grid. */
  function Cells(grid: Grid): (cells: set<Coord>)
    ensures forall c :: c in cells <==> InBounds(grid, c)
  {
    set r, c | 0 <= r < |grid| && 0 <= c < |grid[r]| :: Coord(r, c)
  }

  /** The cells where `mover` may play, each mapped to its validMove count. */
  function LegalMoves(edgeLength: int, grid: Grid, mover: DiscColor): Moves
    requires mover != NONE
  {
    map c | c in Cells(grid) && ValidMoveAt(edgeLength, grid, mover, c).legal
      :: ValidMoveAt(edgeLength, grid, mover, c).count
  }

  /**
   * The value of getAllValidMoves: the first validMove call fails when the game is not in
   * progress, unless the grid has no cell at all and validMove is never called.
   */
  function AllValidMoves(g: Game): Result<Moves, Error>
  {
    match ActivePlayerColor(g.gameState)
    case Err(e) => if Cells(g.grid) == {} then Ok(map[]) else Err(e)
    case Ok(mover) => Ok(LegalMoves(g.edgeLength, g.grid, mover))
  }

  /** Whether validMove reports the cell as a legal move. */
  ghost predicate IsLegal(g: Game, c: Coord)
  {
    Engine.ValidMove(g, c).Ok? && Engine.ValidMove(g, c).value.legal
  }

  /**
   * The keys of the map are exactly the cells that validMove calls legal, each with its
   * validMove count, which is at least 1; it fails exactly when the game is not in
   * progress (on a board with cells) and then with validMove's error.
   */
  lemma AllValidMovesSpec(g: Game)
    ensures var r := AllValidMoves(g);
      && (r.Err? <==> ActivePlayerColor(g.gameState).Err? && Cells(g.grid) != {})
      && (r.Err? ==> r.error == ActivePlayerColor(g.gameState).error)
      && (r.Ok? ==> forall c :: c in r.value <==> IsLegal(g, c))
      && (r.Ok? ==> forall c :: c in r.value ==>
            r.value[c] == Engine.ValidMove(g, c).value.count && r.value[c] >= 1)
  {
    var r := AllValidMoves(g);
    if r.Ok? {
      forall c | c in r.value
        ensures r.value[c] == Engine.ValidMove(g, c).value.count && r.value[c] >= 1
      {
        var mover := ActivePlayerColor(g.gameState).value;
        ValidMoveSpec(g.edgeLength, g.grid, mover, c);
      }
    }
  }

  /** The map is non-empty exactly when anyLegalMoves answers true. */
  lemma AllValidMovesNonEmpty(g: Game)
    requires AllValidMoves(g).Ok? && ActivePlayerColor(g.gameState).Ok?
    ensures AllValidMoves(g).value != map[] <==> AnyLegalMoves(g) == Ok(true)
  {
    var m := AllValidMoves(g).value;
    var mover := ActivePlayerColor(g.gameState).value;
    if m != map[] {
      assert m.Keys != {};
      var c :| c in m;
      assert InBounds(g.grid, c) && ValidMoveAt(g.edgeLength, g.grid, mover, c).legal;
    }
    if AnyLegalMoves(g) == Ok(true) {
      var c :| InBounds(g.grid, c) && ValidMoveAt(g.edgeLength, g.grid, mover, c).legal;
      assert c in m;
    }
  }

  /** One cell's entry in the map agrees with validMove's answer for that cell. */
  lemma AllValidMovesAt(g: Game, c: Coord)
    requires ActivePlayerColor(g.gameState).Ok? && InBounds(g.grid, c)
    ensures var m := AllValidMoves(g).value; var v := Engine.ValidMove(g, c);
      && v.Ok? && (c in m <==> v.value.legal) && (c in m ==> m[c] == v.value.count)
  {
  }

  /** Cell c comes before (row, col) in row-major order. */
  predicate Before(c: Coord, row: int, col: int)
  {
    c.row < row || (c.row == row && c.col < col)
  }

  /** The legal-move map getAllValidMoves builds, or the empty map when it fails. */
  ghost function Legal(g: Game): Moves
  {
    if AllValidMoves(g).Ok? then AllValidMoves(g).value else map[]
  }

  /** moves holds exactly the legal cells before (row, col), with their counts. */
  ghost predicate FilledUpTo(moves: Moves, g: Game, row: int, col: int)
  {
    && (forall c :: c in moves <==> c in Legal(g) && Before(c, row, col))
    && (forall c :: c in moves ==> moves[c] == Legal(g)[c])
  }

  /** Taking in the cell at (row, col) extends the filled prefix by one cell. */
  lemma FillStep(moves: Moves, g: Game, row: int, col: int)
    requires FilledUpTo(moves, g, row, col)
    requires ActivePlayerColor(g.gameState).Ok? && InBounds(g.grid, Coord(row, col))
    ensures var v := Engine.ValidMove(g, Coord(row, col));
      && v.Ok?
      && FilledUpTo(if v.value.legal then moves[Coord(row, col) := v.value.count] else moves, g, row, col + 1)
  {
    var cell := Coord(row, col);
    AllValidMovesAt(g, cell);
    var v := Engine.ValidMove(g, cell).value;
    var legal := Legal(g);
    assert cell in legal <==> v.legal;
    assert cell in legal ==> legal[cell] == v.count;
    var next := if v.legal then moves[cell := v.count] else moves;
    forall c | true
      ensures c in next <==> c in legal && Before(c, row, col + 1)
      ensures c in next ==> next[c] == legal[c]
    {
      if c != cell {
        assert Before(c, row, col + 1) <==> Before(c, row, col);
      }
    }
  }

  /** A prefix filled to the end of a row is filled to the start of the next. */
  lemma RowDone(moves: Moves, g: Game, row: int)
    requires 0 <= row < |g.grid| && FilledUpTo(moves, g, row, |g.grid[row]|)
    ensures FilledUpTo(moves, g, row + 1, 0)
  {
    assert forall c :: c in Legal(g) ==> InBounds(g.grid, c);
  }

  /**
   * The inner loop of getAllValidMoves: ask validMove about each cell of one row and add the
   * legal ones; the first call fails when the game is not in progress.
   */
  method AddRowMoves(model: ReversiModel, row: int, moves: Moves) returns (r: Result<Moves, Error>)
    requires 0 <= row < |model.grid| && FilledUpTo(moves, model.State(), row, 0)
    ensures r.Err? <==> ActivePlayerColor(model.gameState).Err? && |model.grid[row]| > 0
    ensures r.Err? ==> r.error == ActivePlayerColor(model.gameState).error
    ensures r.Ok? ==> FilledUpTo(r.value, model.State(), row + 1, 0)
  {
    ghost var g := model.State();
    var width := |model.grid[row]|;
    var acc := moves;
    for col := 0 to width
      invariant FilledUpTo(acc, g, row, col)
      invariant ActivePlayerColor(g.gameState).Err? ==> col == 0
    {
      var cell := Coord(row, col);
      var valid := model.ValidMove(cell);
      if valid.Err? {
        return Err(valid.error);
      }
      FillStep(acc, g, row, col);
      if valid.value.legal {
        acc := acc[cell := valid.value.count];
      }
    }
    RowDone(acc, g, row);
    return Ok(acc);
  }

  /**
   * getAllValidMoves: ask validMove about every cell in row-major order and keep the legal
   * ones with their counts. The model is only read.
   */
  method GetAllValidMoves(model: ReversiModel) returns (r: Result<Moves, Error>)
    ensures r == AllValidMoves(model.State())
  {
    ghost var g := model.State();
    var moves: Moves := map[];
    for row := 0 to |model.grid|
      invariant FilledUpTo(moves, g, row, 0)
      invariant ActivePlayerColor(g.gameState).Err? ==> forall i :: 0 <= i < row ==> model.grid[i] == []
    {
      var added := AddRowMoves(model, row, moves);
      if added.Err? {
        assert Coord(row, 0) in Cells(g.grid);
        return Err(added.error);
      }
      moves := added.value;
    }
    if ActivePlayerColor(g.gameState).Err? {
      assert Cells(g.grid) == {};
    } else {
      assert forall c :: c in Legal(g) ==> InBounds(g.grid, c);
      assert moves == Legal(g);
    }
    return Ok(moves);
  }
}
