/**
 * ReversiModel as a class: the fields the source updates in place (grid, gameState,
 * passCounter) and its broadcaster. Every public method is proved against the matching
 * function of Engine; State() is the abstract value.
 */
module Model {
  import opened Wrappers
  import opened Errors
  import opened Colors
  import opened Coords
  import opened Geometry
  import opened Board
  import opened Capture
  import opened Engine
  import opened Broadcast

  class ReversiModel {
    const edgeLength: int
    var grid: Grid
    var gameState: GameState
    var passCounter: int
    const broadcaster: ModelMutatedBroadcaster

    function State(): Game
      reads this
    {
      Game(edgeLength, grid, gameState, passCounter)
    }

    ghost predicate Valid()
      reads this
    {
      Engine.Valid(State())
    }

    /** The private ReversiModel(int): an empty board, then the opening pieces. */
    constructor (edgeLength: int)
      requires edgeLength >= 2
      ensures Valid() && State() == Engine.Create(edgeLength).value
      ensures fresh(broadcaster) && broadcaster.listeners == [] && broadcaster.trace == []
    {
      this.edgeLength := edgeLength;
      this.grid := [];
      this.passCounter := 0;
      this.gameState := UNSTARTED;
      this.broadcaster := new ModelMutatedBroadcaster();
      new;
      SetupGrid();
      PlaceStartingPieces();
      StartingGridShape(edgeLength);
    }

    /** The private ReversiModel(int, grid, state, passCounter) used by createCopy. */
    constructor FromFields(edgeLength: int, grid: Grid, gameState: GameState, passCounter: int)
      ensures State() == Game(edgeLength, grid, gameState, passCounter)
      ensures fresh(broadcaster) && broadcaster.listeners == [] && broadcaster.trace == []
    {
      this.edgeLength := edgeLength;
      this.grid := grid;
      this.gameState := gameState;
      this.passCounter := passCounter;
      this.broadcaster := new ModelMutatedBroadcaster();
    }

    /** create: InvalidEdgeLength below 2, otherwise a new unstarted game. */
    static method Create(edgeLength: int) returns (r: Result<ReversiModel, Error>)
      ensures r.Err? <==> Engine.Create(edgeLength).Err?
      ensures r.Err? ==> r.error == Engine.Create(edgeLength).error
      ensures r.Ok? ==> fresh(r.value) && r.value.Valid() && r.value.State() == Engine.Create(edgeLength).value
    {
      if edgeLength < 2 {
        return Err(InvalidEdgeLength);
      }
      var model := new ReversiModel(edgeLength);
      return Ok(model);
    }

    /**
     * createCopy: a new model with a row-by-row copy of the grid and the same state and
     * counter, and a broadcaster of its own with no listeners.
     */
    static method CreateCopy(model: ReversiModel) returns (copy: ReversiModel)
      ensures fresh(copy) && fresh(copy.broadcaster)
      ensures copy.State() == model.State()
      ensures copy.broadcaster.listeners == []
    {
      var gridCopy: Grid := [];
      var i := 0;
      while i < |model.grid|
        invariant 0 <= i <= |model.grid|
        invariant gridCopy == model.grid[..i]
      {
        gridCopy := gridCopy + [model.grid[i]];
        i := i + 1;
      }
      assert model.grid[..i] == model.grid;
      copy := new ReversiModel.FromFields(model.edgeLength, gridCopy, model.gameState, model.passCounter);
    }

    method SetBroadcastListener(controller: Listener)
      modifies broadcaster
      ensures broadcaster.listeners == old(broadcaster.listeners) + [controller]
      ensures broadcaster.trace == old(broadcaster.trace)
    {
      broadcaster.AddListener(controller);
    }

    method RemoveBroadcastListener(controller: Listener)
      modifies broadcaster
      ensures broadcaster.listeners == RemoveFirst(old(broadcaster.listeners), controller)
      ensures broadcaster.trace == old(broadcaster.trace)
    {
      broadcaster.RemoveListener(controller);
    }

    /** setupGrid: 2E - 1 rows, row r holding (2E - 1) - |r - (E - 1)| empty cells. */
    method SetupGrid()
      requires grid == [] && edgeLength >= 2
      modifies this`grid
      ensures grid == EmptyGrid(edgeLength)
    {
      var row := 0;
      while row < edgeLength * 2 - 1
        invariant 0 <= row <= edgeLength * 2 - 1
        invariant grid == EmptyGrid(edgeLength)[..row]
      {
        var rowLength := ((2 * edgeLength) - 1) - Abs(row - (edgeLength - 1));
        var gridRow: seq<DiscColor> := [];
        var col := 0;
        while col < rowLength
          invariant 0 <= col <= rowLength
          invariant gridRow == seq(col, _ => NONE)
        {
          gridRow := gridRow + [NONE];
          col := col + 1;
        }
        assert gridRow == EmptyGrid(edgeLength)[row];
        grid := grid + [gridRow];
        assert grid == EmptyGrid(edgeLength)[..row + 1];
        row := row + 1;
      }
    }

    /** placeStartingPieces: the six cells around the centre, in the source's order. */
    method PlaceStartingPieces()
      requires edgeLength >= 2 && grid == EmptyGrid(edgeLength)
      modifies this`grid
      ensures grid == StartingGrid(edgeLength)
    {
      ghost var rest := StartingPieces(edgeLength);
      ghost var target := StartingGrid(edgeLength);
      StartingPiecesInBounds(edgeLength);
      assert PlacePieces(grid, rest) == target;
      var gridCenter := Coord(edgeLength - 1, edgeLength - 1);
      var topLeft := Coord(gridCenter.row - 1, gridCenter.col - 1);
      var topRight := Coord(gridCenter.row - 1, gridCenter.col);
      var centerLeft := Coord(gridCenter.row, gridCenter.col - 1);
      var centerRight := Coord(gridCenter.row, gridCenter.col + 1);
      var bottomLeft := Coord(gridCenter.row + 1, gridCenter.col - 1);
      var bottomRight := Coord(gridCenter.row + 1, gridCenter.col);
      assert rest == [(topLeft, BLACK), (topRight, WHITE), (centerLeft, WHITE),
                      (centerRight, BLACK), (bottomLeft, BLACK), (bottomRight, WHITE)];
      // each call places the first of the pieces still to place
      PlacePiecesFirst(grid, rest);
      PlaceDisc(topLeft, BLACK);
      rest := rest[1..];
      PlacePiecesFirst(grid, rest);
      PlaceDisc(topRight, WHITE);
      rest := rest[1..];
      PlacePiecesFirst(grid, rest);
      PlaceDisc(centerLeft, WHITE);
      rest := rest[1..];
      PlacePiecesFirst(grid, rest);
      PlaceDisc(centerRight, BLACK);
      rest := rest[1..];
      PlacePiecesFirst(grid, rest);
      PlaceDisc(bottomLeft, BLACK);
      rest := rest[1..];
      PlacePiecesFirst(grid, rest);
      PlaceDisc(bottomRight, WHITE);
      assert rest[1..] == [] && PlacePieces(grid, rest[1..]) == target;
    }

    /** startGame: only from UNSTARTED, then BLACK's turn is broadcast. */
    method StartGame() returns (r: Outcome<Error>)
      requires Valid()
      modifies this, broadcaster
      ensures Valid() && broadcaster.listeners == old(broadcaster.listeners)
      ensures var spec := Engine.StartGame(old(State()));
        && (spec.Err? ==> r == Fail(spec.error) && State() == old(State())
                          && broadcaster.trace == old(broadcaster.trace))
        && (spec.Ok? ==> r.Pass? && State() == spec.value
                         && broadcaster.trace == old(broadcaster.trace) + MutatedEvents(broadcaster.listeners))
    {
      if gameState != UNSTARTED {
        return Fail(GameAlreadyStarted);
      }
      NextPlayerTurn();
      r := Outcome.Pass;
    }

    /**
     * pass: count the pass; a second pass in a row ends the game and broadcasts gameOver,
     * any other pass hands the turn over and broadcasts modelMutated.
     */
    method Pass() returns (r: Outcome<Error>)
      requires Valid()
      modifies this, broadcaster
      ensures Valid() && broadcaster.listeners == old(broadcaster.listeners)
      ensures var spec := Engine.Pass(old(State()));
        && (spec.Err? ==> r == Fail(spec.error) && State() == old(State())
                          && broadcaster.trace == old(broadcaster.trace))
        && (spec.Ok? ==> r.Pass? && State() == spec.value
                         && broadcaster.trace == old(broadcaster.trace) +
                              (if gameState == GAMEOVER then GameOverEvents(broadcaster.listeners)
                               else MutatedEvents(broadcaster.listeners)))
    {
      PassSpec(State());
      if gameState == UNSTARTED {
        return Fail(GameNotStarted);
      }
      if gameState == GAMEOVER {
        return Fail(GameEnded);
      }
      passCounter := passCounter + 1;
      var over := IsGameOver();
      if over {
        broadcaster.GameOver();
      } else {
        NextPlayerTurn();
      }
      r := Outcome.Pass;
    }

    /**
     * placeDiscInCell: the four checks, then the disc, the captures, a reset counter and the
     * other player's turn (broadcast). A failed check changes nothing.
     */
    method PlaceDiscInCell(cell: Coord) returns (r: Outcome<Error>)
      requires Valid()
      modifies this, broadcaster
      ensures Valid() && broadcaster.listeners == old(broadcaster.listeners)
      ensures var spec := Engine.PlaceDiscInCell(old(State()), cell);
        && (spec.Err? ==> r == Fail(spec.error) && State() == old(State())
                          && broadcaster.trace == old(broadcaster.trace))
        && (spec.Ok? ==> r.Pass? && State() == spec.value
                         && broadcaster.trace == old(broadcaster.trace) + MutatedEvents(broadcaster.listeners))
    {
      PlaceDiscInCellSpec(State(), cell);
      if gameState == UNSTARTED {
        return Fail(GameNotStarted);
      }
      if gameState == GAMEOVER {
        return Fail(GameEnded);
      }
      if cell.row < 0 || cell.row >= |grid| || cell.col < 0 || cell.col >= |grid[cell.row]| {
        return Fail(InvalidCoords);
      }
      var check := ValidMove(cell);
      if !check.value.legal {
        return Fail(InvalidMove);
      }
      var mover := GetActivePlayerColor();
      PlaceDisc(cell, mover.value);
      CaptureDiscs(cell);
      passCounter := 0;
      NextPlayerTurn();
      r := Outcome.Pass;
    }

    /** anyLegalMoves: scan the board row by row for a cell where validMove is legal. */
    method AnyLegalMoves() returns (r: Result<bool, Error>)
      ensures r == Engine.AnyLegalMoves(State())
    {
      if gameState == UNSTARTED {
        return Err(GameNotStarted);
      }
      if gameState == GAMEOVER {
        return Err(GameEnded);
      }
      ghost var mover := ActivePlayerColor(gameState).value;
      var row := 0;
      while row < |grid|
        invariant 0 <= row <= |grid|
        invariant forall c :: InBounds(grid, c) && c.row < row ==>
                    !ValidMoveAt(edgeLength, grid, mover, c).legal
      {
        var col := 0;
        while col < |grid[row]|
          invariant 0 <= col <= |grid[row]|
          invariant forall c :: InBounds(grid, c) && (c.row < row || (c.row == row && c.col < col)) ==>
                      !ValidMoveAt(edgeLength, grid, mover, c).legal
        {
          var check := ValidMove(Coord(row, col));
          if check.value.legal {
            return Ok(true);
          }
          col := col + 1;
        }
        row := row + 1;
      }
      return Ok(false);
    }

    /** validMove: (false, 0) on an occupied cell, else (some line non-empty, number of lines). */
    method ValidMove(coords: Coord) returns (r: Result<MoveCheck, Error>)
      ensures r == Engine.ValidMove(State(), coords)
    {
      if gameState == UNSTARTED {
        return Err(GameNotStarted);
      }
      if gameState == GAMEOVER {
        return Err(GameEnded);
      }
      if coords.row < 0 || coords.row >= |grid| || coords.col < 0 || coords.col >= |grid[coords.row]| {
        return Err(InvalidCoords);
      }
      if grid[coords.row][coords.col] != NONE {
        return Ok(MoveCheck(false, 0));
      }
      var toCapture := DiscsToCapture(coords);
      var lines := toCapture.value;
      var empty := true;
      var i := 0;
      while i < |lines|
        invariant 0 <= i <= |lines|
        invariant empty && forall k :: 0 <= k < i ==> lines[k] == []
      {
        if lines[i] != [] {
          empty := false;
          break;
        }
        i := i + 1;
      }
      return Ok(MoveCheck(!empty, |lines|));
    }

    /** discsToCapture: one walk per adjacent opponent disc, keeping the non-empty lines. */
    method DiscsToCapture(coords: Coord) returns (r: Result<seq<seq<Coord>>, Error>)
      ensures r == Engine.DiscsToCapture(State(), coords)
    {
      var active := GetActivePlayerColor();
      if active.Err? {
        return Err(active.error);
      }
      var mover := active.value;
      var adjacentOppositeColor := CheckAdjacent(edgeLength, grid, mover, coords);
      var discs := CollectLines(mover, adjacentOppositeColor);
      return Ok(discs);
    }

    /** The loop of discsToCapture: the walk from each adjacent disc, empty walks dropped. */
    method CollectLines(mover: DiscColor, adjacentOppositeColor: seq<(Coord, Direction)>)
      returns (discs: seq<seq<Coord>>)
      requires mover != NONE
      ensures discs == LinesFrom(edgeLength, grid, mover, adjacentOppositeColor)
    {
      discs := [];
      for i := 0 to |adjacentOppositeColor|
        invariant discs + LinesFrom(edgeLength, grid, mover, adjacentOppositeColor[i..])
               == LinesFrom(edgeLength, grid, mover, adjacentOppositeColor)
      {
        var cell := adjacentOppositeColor[i].0;
        var discsInLine := DiscsToCaptureInLine(edgeLength, grid, mover, cell, cell,
                                                adjacentOppositeColor[i].1, []);
        LinesFromStep(edgeLength, grid, mover, adjacentOppositeColor, i, discs, discsInLine);
        if discsInLine != [] {
          discs := discs + [discsInLine];
        }
      }
      assert adjacentOppositeColor[|adjacentOppositeColor|..] == [];
      assert discs + [] == discs;
    }

    /**
     * captureDiscs: flip every cell of every line, in order. The lines are computed after
     * the disc is placed; every listed cell holds the opponent's colour until it is flipped.
     */
    method CaptureDiscs(coords: Coord)
      requires gameState == BLACKMOVE || gameState == WHITEMOVE
      requires InBounds(grid, coords)
      modifies this`grid
      ensures grid == Paint(old(grid),
                            (set x | x in Flatten(Capture.DiscsToCapture(edgeLength, old(grid),
                                                    ActivePlayerColor(gameState).value, coords))),
                            ActivePlayerColor(gameState).value)
    {
      var discs := DiscsToCapture(coords);
      var lines := discs.value;
      ghost var mover := ActivePlayerColor(gameState).value;
      ghost var g0 := grid;
      ghost var flat := Flatten(lines);
      CapturedCells(edgeLength, g0, mover, coords);
      for i := 0 to |lines|
        invariant Painted(g0, grid, Flatten(lines[..i]), mover)
      {
        FlipLine(lines, i, g0, mover);
      }
      assert lines[..|lines|] == lines;
      PaintedIsPaint(g0, grid, flat, mover);
    }

    /**
     * The inner loop of captureDiscs: flip each cell of line i in order. Every cell of the
     * lines is distinct and starts with the opponent's colour, so each flip paints it the
     * mover's colour.
     */
    method FlipLine(lines: seq<seq<Coord>>, i: int, ghost g0: Grid, ghost mover: DiscColor)
      requires 0 <= i < |lines| && mover != NONE && Distinct(Flatten(lines))
      requires forall x :: x in Flatten(lines) ==> InBounds(g0, x) && At(g0, x) == Opponent(mover)
      requires Painted(g0, grid, Flatten(lines[..i]), mover)
      modifies this`grid
      ensures Painted(g0, grid, Flatten(lines[..i + 1]), mover)
    {
      for j := 0 to |lines[i]|
        invariant Painted(g0, grid, Flatten(lines[..i]) + lines[i][..j], mover)
      {
        var disc := lines[i][j];
        FlipOrder(lines, i, j);
        PaintStep(g0, grid, Flatten(lines[..i]) + lines[i][..j], disc, mover);
        FlipDisc(disc);
      }
      FlattenPrefixStep(lines, i);
      assert lines[i][..|lines[i]|] == lines[i];
    }

    /** flipDisc: the cell takes the opposite of its colour; it must exist and hold a disc. */
    method FlipDisc(coords: Coord)
      requires InBounds(grid, coords) && At(grid, coords) != NONE
      modifies this`grid
      ensures grid == Board.PlaceDisc(old(grid), coords, Opponent(old(At(grid, coords))))
    {
      var discColor := grid[coords.row][coords.col];
      PlaceDisc(coords, Opponent(discColor));
    }

    /** placeDisc: overwrite one cell. */
    method PlaceDisc(coords: Coord, c: DiscColor)
      requires InBounds(grid, coords)
      modifies this`grid
      ensures grid == Board.PlaceDisc(old(grid), coords, c)
    {
      grid := grid[coords.row := grid[coords.row][coords.col := c]];
    }

    /** isGameOver: a pass counter of 2 or more ends the game; reports whether it is over. */
    method IsGameOver() returns (over: bool)
      modifies this`gameState
      ensures (State(), over) == Engine.IsGameOver(old(State()))
    {
      if passCounter >= 2 {
        gameState := GAMEOVER;
      }
      return gameState == GAMEOVER;
    }

    /** nextPlayerTurn: advance the state, then broadcast modelMutated. */
    method NextPlayerTurn()
      modifies this`gameState, broadcaster
      ensures gameState == Engine.NextPlayerTurn(old(gameState))
      ensures broadcaster.listeners == old(broadcaster.listeners)
      ensures broadcaster.trace == old(broadcaster.trace) + MutatedEvents(broadcaster.listeners)
    {
      if gameState == UNSTARTED {
        gameState := BLACKMOVE;
      } else {
        SwitchGameState();
      }
      broadcaster.ModelMutated();
    }

    method SwitchGameState()
      requires gameState != UNSTARTED
      modifies this`gameState
      ensures gameState == Engine.NextPlayerTurn(old(gameState))
    {
      if gameState == BLACKMOVE {
        gameState := WHITEMOVE;
      } else if gameState == WHITEMOVE {
        gameState := BLACKMOVE;
      }
    }

    method GetGameState() returns (s: GameState)
      ensures s == gameState
    {
      return gameState;
    }

    /** getGrid: a read-only view of the rows, equal to the board. */
    method GetGrid() returns (g: Grid)
      ensures g == grid
    {
      return grid;
    }

    method GetActivePlayerColor() returns (r: Result<DiscColor, Error>)
      ensures r == ActivePlayerColor(gameState)
    {
      if gameState == BLACKMOVE {
        return Ok(BLACK);
      } else if gameState == WHITEMOVE {
        return Ok(WHITE);
      } else if gameState == UNSTARTED {
        return Err(GameNotStarted);
      } else {
        return Err(GameEnded);
      }
    }

    /** getPlayerScore: count the player's cells row by row; NONE is rejected. */
    method GetPlayerScore(c: DiscColor) returns (r: Result<nat, Error>)
      ensures r == PlayerScore(State(), c)
    {
      if c == NONE {
        return Err(InvalidPlayer);
      }
      var playerScore := 0;
      var row := 0;
      while row < |grid|
        invariant 0 <= row <= |grid|
        invariant playerScore == CountColor(grid[..row], c)
      {
        var col := 0;
        while col < |grid[row]|
          invariant 0 <= col <= |grid[row]|
          invariant playerScore == CountColor(grid[..row], c) + CountInRow(grid[row][..col], c)
        {
          var here := GetColorAt(Coord(row, col));
          if here.value == c {
            playerScore := playerScore + 1;
          }
          assert grid[row][..col + 1][..col] == grid[row][..col];
          col := col + 1;
        }
        assert grid[row][..col] == grid[row];
        assert grid[..row + 1][..row] == grid[..row];
        row := row + 1;
      }
      assert grid[..row] == grid;
      return Ok(playerScore);
    }

    method GetColorAt(coords: Coord) returns (r: Result<DiscColor, Error>)
      ensures r == Board.GetColorAt(grid, coords)
    {
      if coords.row < 0 || coords.row >= |grid| || coords.col < 0 || coords.col >= |grid[coords.row]| {
        return Err(InvalidCoords);
      }
      return Ok(grid[coords.row][coords.col]);
    }

    /** getWinner: GameNotOver unless the game is over, then the higher score or NONE. */
    method GetWinner() returns (r: Result<DiscColor, Error>)
      ensures r == Winner(State())
    {
      if gameState != GAMEOVER {
        return Err(GameNotOver);
      }
      var p1Score := GetPlayerScore(BLACK);
      var p2Score := GetPlayerScore(WHITE);
      if p1Score.value > p2Score.value {
        return Ok(BLACK);
      } else if p2Score.value > p1Score.value {
        return Ok(WHITE);
      } else {
        return Ok(NONE);
      }
    }

    method GetEdgeLength() returns (e: int)
      ensures e == edgeLength
    {
      return edgeLength;
    }

    method GetPassCounter() returns (n: int)
      ensures n == passCounter
    {
      return passCounter;
    }
  }
}
