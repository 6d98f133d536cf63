/**
 * The game of ReversiModel as a value: edge length, grid, game state and pass counter, with
 * each public operation as a function to a Result (the thrown exceptions become error tags).
 * The ReversiModel class (model.dfy) is proved against these functions.
 */
module Engine {
  import opened Wrappers
  import opened Errors
  import opened Colors
  import opened Coords
  import opened Geometry
  import opened Board
  import opened Capture

  datatype Game = Game(edgeLength: int, grid: Grid, gameState: GameState, passCounter: int)

  /**
   * The class invariant: a well-shaped board, a pass counter in 0..2 that is 2 exactly when
   * the game is over, and no passes before the game starts.
   */
  ghost predicate Valid(g: Game)
  {
    && WellShaped(g.edgeLength, g.grid)
    && 0 <= g.passCounter <= 2
    && (g.passCounter == 2 <==> g.gameState == GAMEOVER)
    && (g.gameState == UNSTARTED ==> g.passCounter == 0)
  }

  /** create: a new unstarted game on the opening board, or InvalidEdgeLength below 2. */
  function Create(edgeLength: int): (r: Result<Game, Error>)
    ensures r.Err? <==> edgeLength < 2
    ensures r.Err? ==> r.error == InvalidEdgeLength
    ensures r.Ok? ==> Valid(r.value) && r.value.edgeLength == edgeLength
                      && r.value.gameState == UNSTARTED && r.value.passCounter == 0
  {
    if edgeLength < 2 then Err(InvalidEdgeLength)
    else
      StartingGridShape(edgeLength);
      Ok(Game(edgeLength, StartingGrid(edgeLength), UNSTARTED, 0))
  }

  /** getActivePlayerColor. */
  function ActivePlayerColor(state: GameState): (r: Result<DiscColor, Error>)
    ensures r.Ok? <==> state == BLACKMOVE || state == WHITEMOVE
    ensures r.Ok? ==> r.value != NONE
    ensures state == UNSTARTED ==> r == Err(GameNotStarted)
    ensures state == GAMEOVER ==> r == Err(GameEnded)
  {
    match state
    case BLACKMOVE => Ok(BLACK)
    case WHITEMOVE => Ok(WHITE)
    case UNSTARTED => Err(GameNotStarted)
    case GAMEOVER => Err(GameEnded)
  }

  /** nextPlayerTurn and switchGameState: the state change only (the broadcast is in the class). */
  function NextPlayerTurn(state: GameState): (s: GameState)
    ensures state == UNSTARTED ==> s == BLACKMOVE
    ensures state == BLACKMOVE ==> s == WHITEMOVE
    ensures state == WHITEMOVE ==> s == BLACKMOVE
    ensures state == GAMEOVER ==> s == GAMEOVER
  {
    if state == UNSTARTED then BLACKMOVE
    else if state == BLACKMOVE then WHITEMOVE
    else if state == WHITEMOVE then BLACKMOVE
    else state
  }

  /** throwIfGameUnstarted followed by throwIfGameOver. */
  function CheckPlaying(state: GameState): (r: Outcome<Error>)
    ensures r.Pass? <==> ActivePlayerColor(state).Ok?
    ensures r.Fail? ==> r.error == ActivePlayerColor(state).error
  {
    if state == UNSTARTED then Fail(GameNotStarted)
    else if state == GAMEOVER then Fail(GameEnded)
    else Outcome.Pass
  }

  /** startGame: UNSTARTED to BLACKMOVE; any other state is GameAlreadyStarted. */
  function StartGame(g: Game): (r: Result<Game, Error>)
  {
    if g.gameState != UNSTARTED then Err(GameAlreadyStarted)
    else Ok(g.(gameState := NextPlayerTurn(g.gameState)))
  }

  /** isGameOver: two passes in a row end the game (this query writes the state). */
  function IsGameOver(g: Game): (r: (Game, bool))
  {
    var g' := if g.passCounter >= 2 then g.(gameState := GAMEOVER) else g;
    (g', g'.gameState == GAMEOVER)
  }

  /** pass: count the pass, then either end the game or hand the turn over. */
  function Pass(g: Game): (r: Result<Game, Error>)
  {
    var check := CheckPlaying(g.gameState);
    if check.Fail? then Err(check.error)
    else
      var (g', over) := IsGameOver(g.(passCounter := g.passCounter + 1));
      if over then Ok(g') else Ok(g'.(gameState := NextPlayerTurn(g'.gameState)))
  }

  /** validMove: state, then coordinates, then the capture check. */
  function ValidMove(g: Game, coords: Coord): (r: Result<MoveCheck, Error>)
  {
    match ActivePlayerColor(g.gameState)
    case Err(e) => Err(e)
    case Ok(mover) =>
      if !InBounds(g.grid, coords) then Err(InvalidCoords)
      else Ok(ValidMoveAt(g.edgeLength, g.grid, mover, coords))
  }

  /** discsToCapture: needs a player to move, but no bounds check on the cell. */
  function DiscsToCapture(g: Game, coords: Coord): (r: Result<seq<seq<Coord>>, Error>)
    ensures r.Err? <==> ActivePlayerColor(g.gameState).Err?
  {
    match ActivePlayerColor(g.gameState)
    case Err(e) => Err(e)
    case Ok(mover) => Ok(Capture.DiscsToCapture(g.edgeLength, g.grid, mover, coords))
  }

  /** The board after the mover plays at coords: placeDisc, then captureDiscs. */
  function AfterMove(edgeLength: int, grid: Grid, mover: DiscColor, coords: Coord): Grid
    requires mover != NONE && InBounds(grid, coords)
  {
    var placed := PlaceDisc(grid, coords, mover);
    var flips := Flatten(Capture.DiscsToCapture(edgeLength, placed, mover, coords));
    Paint(placed, (set x | x in flips), mover)
  }

  /**
   * placeDiscInCell: the four checks in the source's order, then the move, a reset pass
   * counter and the other player's turn.
   */
  function PlaceDiscInCell(g: Game, coords: Coord): (r: Result<Game, Error>)
  {
    match ActivePlayerColor(g.gameState)
    case Err(e) => Err(e)
    case Ok(mover) =>
      if !InBounds(g.grid, coords) then Err(InvalidCoords)
      else if !ValidMoveAt(g.edgeLength, g.grid, mover, coords).legal then Err(InvalidMove)
      else Ok(Game(g.edgeLength, AfterMove(g.edgeLength, g.grid, mover, coords),
                   NextPlayerTurn(g.gameState), 0))
  }

  /** anyLegalMoves: whether some cell of the board is a legal move for the player to move. */
  ghost function AnyLegalMoves(g: Game): (r: Result<bool, Error>)
  {
    match ActivePlayerColor(g.gameState)
    case Err(e) => Err(e)
    case Ok(mover) =>
      Ok(exists c :: InBounds(g.grid, c) && ValidMoveAt(g.edgeLength, g.grid, mover, c).legal)
  }

  /** getPlayerScore: the number of cells of a colour; NONE is not a player. */
  function PlayerScore(g: Game, c: DiscColor): (r: Result<nat, Error>)
    ensures r.Err? <==> c == NONE
    ensures r.Err? ==> r.error == InvalidPlayer
    ensures r.Ok? ==> r.value <= CellCount(g.grid)
  {
    if c == NONE then Err(InvalidPlayer)
    else
      CountsPartitionCells(g.grid);
      assert c == BLACK || c == WHITE;
      Ok(CountColor(g.grid, c))
  }

  /** getWinner: only when the game is over; the strictly higher score, NONE on a tie. */
  function Winner(g: Game): (r: Result<DiscColor, Error>)
    ensures r.Err? <==> g.gameState != GAMEOVER
    ensures r.Err? ==> r.error == GameNotOver
    ensures r.Ok? ==>
      var black, white := CountColor(g.grid, BLACK), CountColor(g.grid, WHITE);
      && (r.value == BLACK <==> black > white)
      && (r.value == WHITE <==> white > black)
      && (r.value == NONE <==> black == white)
  {
    if g.gameState != GAMEOVER then Err(GameNotOver)
    else
      var p1Score := PlayerScore(g, BLACK).value;
      var p2Score := PlayerScore(g, WHITE).value;
      if p1Score > p2Score then Ok(BLACK)
      else if p2Score > p1Score then Ok(WHITE)
      else Ok(NONE)
  }

  // ---------------------------------------------------------------------------------------
  // Properties

  /** A new game: each player has 3 discs, placed as in placeStartingPieces, the centre empty. */
  lemma CreateOpening(edgeLength: int)
    requires edgeLength >= 2
    ensures var g := Create(edgeLength).value; var e := edgeLength;
      && PlayerScore(g, BLACK) == Ok(3) && PlayerScore(g, WHITE) == Ok(3)
      && At(g.grid, Coord(e - 2, e - 2)) == BLACK && At(g.grid, Coord(e - 1, e)) == BLACK
      && At(g.grid, Coord(e, e - 2)) == BLACK
      && At(g.grid, Coord(e - 2, e - 1)) == WHITE && At(g.grid, Coord(e - 1, e - 2)) == WHITE
      && At(g.grid, Coord(e, e - 1)) == WHITE
      && At(g.grid, Coord(e - 1, e - 1)) == NONE
  {
    StartingScores(edgeLength);
    StartingGridLayout(edgeLength);
    StartingCenterEmpty(edgeLength);
  }

  /** startGame succeeds only on an unstarted game, making it BLACK's turn and nothing else. */
  lemma StartGameSpec(g: Game)
    requires Valid(g)
    ensures StartGame(g).Ok? <==> g.gameState == UNSTARTED
    ensures StartGame(g).Err? ==> StartGame(g).error == GameAlreadyStarted
    ensures StartGame(g).Ok? ==> var g' := StartGame(g).value;
      Valid(g') && g' == g.(gameState := BLACKMOVE) && ActivePlayerColor(g'.gameState) == Ok(BLACK)
  {
  }

  /** On a valid game isGameOver writes nothing: the counter already agrees with the state. */
  lemma IsGameOverOnValid(g: Game)
    requires Valid(g)
    ensures IsGameOver(g) == (g, g.gameState == GAMEOVER)
  {
  }

  /**
   * pass fails before the start and after the end; otherwise it counts the pass, ends the
   * game at the second pass in a row, and hands the turn over otherwise. The board is kept.
   */
  lemma PassSpec(g: Game)
    requires Valid(g)
    ensures Pass(g).Err? <==> g.gameState == UNSTARTED || g.gameState == GAMEOVER
    ensures Pass(g).Err? ==> Pass(g).error == ActivePlayerColor(g.gameState).error
    ensures Pass(g).Ok? ==> var g' := Pass(g).value;
      && Valid(g')
      && g'.grid == g.grid && g'.edgeLength == g.edgeLength
      && g'.passCounter == g.passCounter + 1
      && (g'.gameState == GAMEOVER <==> g.passCounter == 1)
      && (g.passCounter == 0 ==> ActivePlayerColor(g'.gameState).value
                                 == Opponent(ActivePlayerColor(g.gameState).value))
  {
  }

  /** Two passes in a row from a game in progress end it. */
  lemma TwoPassesEndGame(g: Game)
    requires Valid(g) && (g.gameState == BLACKMOVE || g.gameState == WHITEMOVE)
    ensures Pass(g).Ok?
    ensures Pass(g).value.gameState != GAMEOVER ==>
      Pass(Pass(g).value).Ok? && Pass(Pass(g).value).value.gameState == GAMEOVER
  {
  }

  /** The placed cell, the six rays and the painted board agree on their bounds. */
  lemma AfterMoveEffect(edgeLength: int, grid: Grid, mover: DiscColor, coords: Coord)
    requires mover != NONE && InBounds(grid, coords)
    ensures var g' := AfterMove(edgeLength, grid, mover, coords);
      && SameShape(grid, g')
      && At(g', coords) == mover
      && (forall x :: InBounds(grid, x) && x != coords ==>
            At(g', x) == (if InCaptureOf(edgeLength, grid, mover, coords, CheckOrder, x)
                          then mover else At(grid, x)))
      && (forall x :: InCaptureOf(edgeLength, grid, mover, coords, CheckOrder, x) ==>
            x != coords && InBounds(grid, x) && At(grid, x) == Opponent(mover))
  {
    var placed := PlaceDisc(grid, coords, mover);
    LinesAfterPlacing(edgeLength, grid, mover, coords);
    CapturedCells(edgeLength, grid, mover, coords);
    var g' := AfterMove(edgeLength, grid, mover, coords);
    forall x | InBounds(grid, x) ensures InBounds(placed, x) {
      SameShapeInBounds(grid, placed, x);
    }
    assert SameShape(placed, g');
  }

  /**
   * placeDiscInCell fails, in this order, before the start, after the end, off the board and
   * on an illegal move; it succeeds exactly when validMove reports a legal move, and then
   * resets the pass counter and hands the turn to the other player.
   */
  lemma PlaceDiscInCellSpec(g: Game, coords: Coord)
    requires Valid(g)
    ensures var r := PlaceDiscInCell(g, coords);
      && (g.gameState == UNSTARTED ==> r == Err(GameNotStarted))
      && (g.gameState == GAMEOVER ==> r == Err(GameEnded))
      && (ActivePlayerColor(g.gameState).Ok? && !InBounds(g.grid, coords) ==> r == Err(InvalidCoords))
      && (r.Ok? <==> ValidMove(g, coords).Ok? && ValidMove(g, coords).value.legal)
      && (ValidMove(g, coords).Ok? && !ValidMove(g, coords).value.legal ==> r == Err(InvalidMove))
      && (r.Ok? ==> && Valid(r.value) && r.value.passCounter == 0
                    && r.value.edgeLength == g.edgeLength
                    && ActivePlayerColor(r.value.gameState).value
                       == Opponent(ActivePlayerColor(g.gameState).value))
  {
    var r := PlaceDiscInCell(g, coords);
    if r.Ok? {
      var mover := ActivePlayerColor(g.gameState).value;
      AfterMoveEffect(g.edgeLength, g.grid, mover, coords);
      WellShapedSameShape(g.edgeLength, g.grid, r.value.grid);
    }
  }

  /**
   * A successful placement puts the mover's disc on the (empty) target and turns to the
   * mover's colour exactly the cells bracketed from it, all of which held the opponent's
   * colour; every other cell is unchanged.
   */
  lemma PlacementFlipsExactlyCaptured(g: Game, coords: Coord)
    requires Valid(g) && PlaceDiscInCell(g, coords).Ok?
    ensures var mover := ActivePlayerColor(g.gameState).value;
      var g' := PlaceDiscInCell(g, coords).value;
      && SameShape(g.grid, g'.grid)
      && At(g.grid, coords) == NONE && At(g'.grid, coords) == mover
      && (exists d :: HasCapture(g.edgeLength, g.grid, mover, coords, d))
      && (forall x :: InBounds(g.grid, x) && x != coords ==>
            At(g'.grid, x) == (if InCaptureOf(g.edgeLength, g.grid, mover, coords, CheckOrder, x)
                               then mover else At(g.grid, x)))
      && (forall x :: InCaptureOf(g.edgeLength, g.grid, mover, coords, CheckOrder, x) ==>
            InBounds(g.grid, x) && At(g.grid, x) == Opponent(mover))
  {
    var mover := ActivePlayerColor(g.gameState).value;
    AfterMoveEffect(g.edgeLength, g.grid, mover, coords);
    ValidMoveSpec(g.edgeLength, g.grid, mover, coords);
  }

  /** anyLegalMoves is true exactly when validMove reports a legal move at some cell. */
  lemma AnyLegalMovesSpec(g: Game)
    ensures AnyLegalMoves(g).Err? <==> ActivePlayerColor(g.gameState).Err?
    ensures AnyLegalMoves(g) == Ok(true) <==>
      exists c :: ValidMove(g, c).Ok? && ValidMove(g, c).value.legal
  {
    if AnyLegalMoves(g) == Ok(true) {
      var mover := ActivePlayerColor(g.gameState).value;
      var c :| InBounds(g.grid, c) && ValidMoveAt(g.edgeLength, g.grid, mover, c).legal;
      assert ValidMove(g, c).Ok? && ValidMove(g, c).value.legal;
    }
  }
}
