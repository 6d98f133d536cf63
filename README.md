# Hexagonal Reversi: engine, move filters and text view

This project is a Dafny model of a hexagonal Reversi game:

- **The engine.** `ReversiModel` keeps a jagged grid of discs, the game state and a pass counter. The grid has edge length E, 2E−1 rows, and row r has (2E−1)−|r−(E−1)| cells. The engine handles:
  - the opening position;
  - the turn and pass state machine (UNSTARTED → BLACKMOVE ⇄ WHITEMOVE → GAMEOVER);
  - capture search along the six hexagonal directions;
  - placing a disc, which flips every captured line;
  - scores and the winner;
  - deep copies.
- **The AI's move selection.** `StrategyUtils` builds the map from legal cells to their `validMove` counts. `AIStrategy` folds its filters over that map and then picks the upper-leftmost cell. The filters are `MaxCapture`, `AvoidNextToCorners`, `PlayToCorners` and `MinimizeOpponentMaxCapture`.
- **Smaller pieces:**
  - the listener broadcaster of the model;
  - the text view;
  - the coordinate and colour conversions of the adapter to the provider's cubic board;
  - the provider's `PrioritizeCorners` filter.

Layout:

- **Pure parts** are datatypes and functions with lemmas:
  - `Colors`, `Coords`, `AdapterUtils` and `Geometry` model the value types, the conversions and adjacency;
  - `Board` models the grid;
  - `Capture` models the capture search;
  - `Engine` holds the rules as functions on a `Game` value.
- **Stateful parts** are classes whose methods are proved against those functions:
  - `Model.ReversiModel` has fields `edgeLength`, `grid`, `gameState`, `passCounter` and `broadcaster`;
  - `Broadcast.ModelMutatedBroadcaster` keeps a `listeners` list and a ghost `trace` of the notifications sent, in order;
  - `TextView.ReversiTextView` builds the text with loops;
  - `PrioritizeCorners.PosnList` is a list that is narrowed in place.
- **The filters** are methods over the value `map<Coord, int>`. Each one is proved equal to a specification function, and the function's properties (sub-map, non-emptiness, exact contents, idempotence) are proved as lemmas.
- **Errors.** Exceptions become `Result`/`Outcome` values carrying distinct error tags (`Errors.Error`).

## Model

| member | source | states |
|---|---|---|
| Colors.OppositeColor | src/cs3500/reversi/model/DiscColor.java:17-25 | fails exactly on NONE; otherwise the result is a player colour different from the argument |
| Colors.OppositeColorOfPlayers | src/cs3500/reversi/model/DiscColor.java:17-22 | BLACK maps to WHITE and WHITE to BLACK |
| Colors.OppositeColorInvolution | src/cs3500/reversi/model/DiscColor.java:17-22 | applying oppositeColor twice to a player colour gives it back |
| Colors.ThreeColors | src/cs3500/reversi/model/DiscColor.java:6-25 | every cell colour is NONE, the mover's or the opponent's, and never both of the last two |
| Coords.Equals | src/cs3500/reversi/model/RowColCoords.java:39-46 | equals holds exactly when the other object is a coordinate with the same value |
| Coords.EqualsIsValueEquality | src/cs3500/reversi/model/RowColCoords.java:39-46 | two coordinates are equal iff their rows and columns are equal |
| Coords.EqualsIsSymmetric | src/cs3500/reversi/model/RowColCoords.java:39-46 | equals is symmetric |
| Coords.NeverEqualsOtherType | src/cs3500/reversi/model/RowColCoords.java:40-42 | a coordinate never equals an object of another type |
| Coords.WrapInt32 | src/cs3500/reversi/model/RowColCoords.java:49-51 | the Java int wrap-around: the result is in 32-bit range and congruent to the input modulo 2^32 |
| Coords.HashCode | src/cs3500/reversi/model/RowColCoords.java:49-51 | the hash is a 32-bit int |
| Coords.EqualCoordsEqualHashes | src/cs3500/reversi/model/RowColCoords.java:49-51 | coordinates that are equal have equal hash codes |
| AdapterUtils.MoveOrigin | src/cs3500/reversi/adapters/AdapterUtils.java:53-57 | shifts both components by E−1, toward the centre or back |
| AdapterUtils.MoveOriginRoundTrip | src/cs3500/reversi/adapters/AdapterUtils.java:53-57 | moving the origin to the centre and back, or back and to the centre, is the identity |
| AdapterUtils.CenterIsCubicOrigin | src/cs3500/reversi/adapters/AdapterUtils.java:20-43 | the centre cell (E−1,E−1) and cubic (0,0) correspond in both directions |
| AdapterUtils.RowColToCubicFormula | src/cs3500/reversi/adapters/AdapterUtils.java:36-43 | rows at or below the centre map to (col−(E−1), row−(E−1)); rows above also subtract the negative row offset from x |
| AdapterUtils.RowColRoundTrip | src/cs3500/reversi/adapters/AdapterUtils.java:20-43 | cubicToRowCol(rowColToCubic(c)) is c for every coordinate |
| AdapterUtils.CubicRoundTrip | src/cs3500/reversi/adapters/AdapterUtils.java:20-43 | rowColToCubic(cubicToRowCol(p)) is p for every cubic position |
| AdapterUtils.RowColToCubicInjective | src/cs3500/reversi/adapters/AdapterUtils.java:36-43 | distinct cells get distinct cubic positions |
| AdapterUtils.ColorStateBijection | src/cs3500/reversi/adapters/AdapterUtils.java:64-93 | colorToState and stateToColor are mutually inverse: WHITE↔WHITE, BLACK↔BLACK, NONE↔EMPTY |
| Geometry.AdjacentModifier | src/cs3500/reversi/model/ReversiModel.java:385-418 | the row offset is −1 for the top directions, 0 for the centre ones and +1 for the bottom ones; the column offset is in −1..1 and never both zero |
| Geometry.OppositeUndoes | src/cs3500/reversi/model/ReversiModel.java:385-461 | a step in a direction followed by a step in the opposite direction returns to the start, on every row |
| Geometry.NextInLineCubic | src/cs3500/reversi/model/ReversiModel.java:457-461 | nextInLine is a constant translation in cubic coordinates, so the row-dependent column offsets describe a proper hexagonal adjacency |
| Geometry.StepCubic | src/cs3500/reversi/model/ReversiModel.java:457-461 | k steps in one direction are k times that translation |
| Geometry.RaysDisjoint | src/cs3500/reversi/model/ReversiModel.java:385-461 | cells reached from one origin by different directions or distances are different |
| Geometry.StepNeverOrigin | src/cs3500/reversi/model/ReversiModel.java:457-461 | walking one or more steps never returns to the origin |
| Board.GetColorAt | src/cs3500/reversi/model/ReversiModel.java:525-528 | fails with invalid coordinates exactly for cells out of bounds; otherwise returns that cell's colour |
| Board.PlaceDisc | src/cs3500/reversi/model/ReversiModel.java:582-584 | the target cell gets the colour, no other cell changes, and the shape is kept |
| Board.Paint | src/cs3500/reversi/model/ReversiModel.java:466-473 | every listed cell gets the colour, every other cell keeps its colour, and the shape is kept |
| Board.PaintedIsPaint | src/cs3500/reversi/model/ReversiModel.java:466-473 | a grid in which the flipped cells hold the mover's colour and all other cells are unchanged is the original grid painted over exactly those cells |
| Board.CountsPartitionCells | src/cs3500/reversi/model/ReversiModel.java:511-522 | the BLACK, WHITE and NONE counts add up to the number of cells |
| Board.CountAfterPlace | src/cs3500/reversi/model/ReversiModel.java:582-584 | placing one disc changes each colour's count by exactly that cell's old and new colour |
| Board.PlacePiecesEffect | src/cs3500/reversi/model/ReversiModel.java:158-185 | placing distinct pieces sets exactly those cells, leaves the rest and adds the pieces to the counts |
| Board.PlacePiecesPlaced | src/cs3500/reversi/model/ReversiModel.java:158-185 | after placing pieces at distinct in-bounds cells, each piece's cell holds that piece's colour |
| Board.PlacePiecesElsewhere | src/cs3500/reversi/model/ReversiModel.java:158-185 | placing pieces leaves every cell that no piece names unchanged |
| Board.PlacePiecesCount | src/cs3500/reversi/model/ReversiModel.java:158-185 | placing pieces on empty distinct cells raises each colour's count by the number of pieces of that colour |
| Board.StartingPiecePlaced | src/cs3500/reversi/model/ReversiModel.java:158-185 | each of the six opening discs sits on its cell in the opening grid with its colour |
| Board.EmptyGridShape | src/cs3500/reversi/model/ReversiModel.java:144-153 | setupGrid's grid has 2E−1 rows of (2E−1)−\|r−(E−1)\| cells, all empty |
| Board.StartingGridShape | src/cs3500/reversi/model/ReversiModel.java:144-185 | the opening grid keeps the hexagonal shape |
| Board.StartingGridLayout | src/cs3500/reversi/model/ReversiModel.java:158-185 | BLACK is at (E−2,E−2), (E−1,E) and (E,E−2); WHITE is at (E−2,E−1), (E−1,E−2) and (E,E−1) |
| Board.StartingGridEmptyElsewhere | src/cs3500/reversi/model/ReversiModel.java:158-185 | every other cell of the opening grid is empty |
| Board.StartingCenterEmpty | src/cs3500/reversi/model/ReversiModel.java:158-185 | the centre cell is in bounds and empty |
| Board.StartingScores | src/cs3500/reversi/model/ReversiModel.java:158-185 | each colour scores 3 at the opening |
| Board.StartingGridEdgeThreeRows | src/cs3500/reversi/model/ReversiModel.java:144-185 | the new board of edge length 3 is, row by row, _ _ _ / _ X O _ / _ O _ X _ / _ X O _ / _ _ _ |
| Capture.CaptureLine | src/cs3500/reversi/model/ReversiModel.java:292-327 | a capture line of n discs has n cells |
| Capture.CaptureUnique | src/cs3500/reversi/model/ReversiModel.java:292-327 | a direction captures at most one line, whose length is determined |
| Capture.WalkMatchesSpec | src/cs3500/reversi/model/ReversiModel.java:292-327 | the recursive walk returns a non-empty line iff the run of opponent discs ends at a mover disc, and that line is exactly the run |
| Capture.BlockedLineCapturesNothing | src/cs3500/reversi/model/ReversiModel.java:292-327 | a run of opponent discs that ends at the edge or at an empty cell captures nothing in that direction |
| Capture.ClosedLineCaptures | src/cs3500/reversi/model/ReversiModel.java:292-327 | a run of j opponent discs closed by a mover's disc captures exactly those j discs, and no other length captures |
| Capture.CaptureLength | src/cs3500/reversi/model/ReversiModel.java:292-327 | a capturing direction has a line length satisfying the capture condition |
| Capture.LinesMatchSpec | src/cs3500/reversi/model/ReversiModel.java:266-378 | following the adjacent opponent discs gives one line per capturing direction, listed in checkAdjacent's insertion order |
| Capture.DiscsToCaptureSpec | src/cs3500/reversi/model/ReversiModel.java:266-279 | discsToCapture equals the reference list of capture lines, listed in checkAdjacent's insertion order |
| Capture.SpecLinesShape | src/cs3500/reversi/model/ReversiModel.java:266-327 | there is one non-empty line per capturing direction, and the list is non-empty iff some direction captures |
| Capture.CheckOrderComplete | src/cs3500/reversi/model/ReversiModel.java:338-360 | checkAdjacent examines all six directions |
| Capture.ValidMoveSpec | src/cs3500/reversi/model/ReversiModel.java:232-251 | legal iff the cell is empty and some direction captures; the count is the number of capturing directions on an empty cell and 0 on an occupied one |
| Capture.CaptureLineMembers | src/cs3500/reversi/model/ReversiModel.java:292-327 | a capture line holds exactly the first n cells along its ray |
| Capture.CaptureLineDistinct | src/cs3500/reversi/model/ReversiModel.java:292-327 | no cell repeats within a capture line |
| Capture.FlattenSpecLines | src/cs3500/reversi/model/ReversiModel.java:266-327 | no cell appears in two capture lines, and the flattened lines are exactly the cells captured in some direction |
| Capture.CapturedCells | src/cs3500/reversi/model/ReversiModel.java:266-327 | the cells to flip are distinct and in bounds, are not the target, and all hold the opponent's colour |
| Capture.LinesAfterPlacing | src/cs3500/reversi/model/ReversiModel.java:206-215 | placing the mover's disc first does not change the lines that captureDiscs then computes |
| Capture.FlipOrder | src/cs3500/reversi/model/ReversiModel.java:466-473 | while flipping in order, the next cell has not been flipped yet, so it still holds the opponent's disc |
| Engine.Create | src/cs3500/reversi/model/ReversiModel.java:47-57 | fails exactly for edge length < 2; otherwise gives a valid, unstarted game with pass counter 0 |
| Engine.ActivePlayerColor | src/cs3500/reversi/model/ReversiModel.java:498-508 | BLACK or WHITE while a player is to move; game-not-started or game-ended errors otherwise |
| Engine.NextPlayerTurn | src/cs3500/reversi/model/ReversiModel.java:557-575 | UNSTARTED→BLACKMOVE, BLACKMOVE⇄WHITEMOVE, GAMEOVER stays |
| Engine.CheckPlaying | src/cs3500/reversi/model/ReversiModel.java:606-616 | passes exactly when a player is to move, with the matching error otherwise |
| Engine.DiscsToCapture | src/cs3500/reversi/model/ReversiModel.java:266-279 | fails exactly when no player is to move |
| Engine.PlayerScore | src/cs3500/reversi/model/ReversiModel.java:511-522 | rejects NONE; a player's score is at most the number of cells |
| Engine.Winner | src/cs3500/reversi/model/ReversiModel.java:531-542 | fails unless the game is over; otherwise the colour with the strictly higher count, or NONE on a tie |
| Engine.CreateOpening | src/cs3500/reversi/model/ReversiModel.java:158-185 | a new game has the six opening discs, an empty centre and a score of 3 for each colour |
| Engine.StartGameSpec | src/cs3500/reversi/model/ReversiModel.java:188-191 | succeeds iff the game is unstarted and only moves it to BLACKMOVE; fails as already started otherwise |
| Engine.IsGameOverOnValid | src/cs3500/reversi/model/ReversiModel.java:476-481 | on a valid game, isGameOver reports GAMEOVER and changes nothing |
| Engine.PassSpec | src/cs3500/reversi/model/ReversiModel.java:194-203 | fails when unstarted or over; otherwise increments the counter, keeps the grid, ends the game at the second consecutive pass and hands the turn to the opponent after a first pass |
| Engine.TwoPassesEndGame | src/cs3500/reversi/model/ReversiModel.java:194-203 | two consecutive passes end the game |
| Engine.AfterMoveEffect | src/cs3500/reversi/model/ReversiModel.java:466-473 | the target becomes the mover's, exactly the captured cells become the mover's, and every other cell is unchanged |
| Engine.PlaceDiscInCellSpec | src/cs3500/reversi/model/ReversiModel.java:206-215 | errors are checked in the order unstarted, game over, bad coordinates, illegal move; success iff validMove is legal, and then the counter is reset and the turn passes to the opponent |
| Engine.PlacementFlipsExactlyCaptured | src/cs3500/reversi/model/ReversiModel.java:206-215 | a successful placement was on an empty cell with a capture; it colours the target and flips exactly the captured opponent discs, and nothing else changes |
| Engine.AnyLegalMovesSpec | src/cs3500/reversi/model/ReversiModel.java:218-229 | fails exactly when no player is to move; true iff some cell's validMove is legal |
| Broadcast.FirstIndex | src/cs3500/reversi/model/ModelMutatedBroadcaster.java:28-30 | the position of the first occurrence of a listener |
| Broadcast.RemoveFirst | src/cs3500/reversi/model/ModelMutatedBroadcaster.java:28-30 | removes only the first equal listener, and nothing if it is absent |
| Broadcast.Notify | src/cs3500/reversi/model/ModelMutatedBroadcaster.java:48-61 | one event per listener, in list order |
| Broadcast.ModelMutatedBroadcaster.constructor | src/cs3500/reversi/model/ModelMutatedBroadcaster.java:18-20 | a new broadcaster has no listeners and has sent nothing |
| Broadcast.ModelMutatedBroadcaster.AddListener | src/cs3500/reversi/model/ModelMutatedBroadcaster.java:23-25 | appends the listener at the end and sends nothing |
| Broadcast.ModelMutatedBroadcaster.RemoveListener | src/cs3500/reversi/model/ModelMutatedBroadcaster.java:28-30 | removes the first equal listener and sends nothing |
| Broadcast.ModelMutatedBroadcaster.ModelMutated | src/cs3500/reversi/model/ModelMutatedBroadcaster.java:33-36 | sends updateView to every listener in order, then nextPlayerTurn to every listener in order; the list is unchanged |
| Broadcast.ModelMutatedBroadcaster.GameOver | src/cs3500/reversi/model/ModelMutatedBroadcaster.java:39-43 | sends endGame to every listener in order; the list is unchanged |
| Broadcast.ModelMutatedBroadcaster.UpdateListenerViews | src/cs3500/reversi/model/ModelMutatedBroadcaster.java:48-52 | one updateView per listener, in list order |
| Broadcast.ModelMutatedBroadcaster.NextPlayerTurnAll | src/cs3500/reversi/model/ModelMutatedBroadcaster.java:57-61 | one nextPlayerTurn per listener, in list order |
| Broadcast.AddThenRemove | src/cs3500/reversi/model/ModelMutatedBroadcaster.java:23-30 | adding a new listener and removing it restores the list |
| Broadcast.RemoveFirstMultiset | src/cs3500/reversi/model/ModelMutatedBroadcaster.java:28-30 | removal takes away at most one occurrence |
| Broadcast.MutatedEventsOrder | src/cs3500/reversi/model/ModelMutatedBroadcaster.java:33-61 | a model mutation sends two events per listener, all updateViews before any nextPlayerTurn, each listener getting one of each per registration |
| Broadcast.GameOverEventsOnly | src/cs3500/reversi/model/ModelMutatedBroadcaster.java:39-43 | game over sends only endGame, once per registration |
| Broadcast.NotifyCount | src/cs3500/reversi/model/ModelMutatedBroadcaster.java:48-61 | a listener receives as many events of a kind as it has registrations |
| Model.ReversiModel.constructor | src/cs3500/reversi/model/ReversiModel.java:47-57 | a new model is the engine's new game, with a fresh broadcaster and no listeners |
| Model.ReversiModel.FromFields | src/cs3500/reversi/model/ReversiModel.java:66-75 | the model holds exactly the given fields |
| Model.ReversiModel.Create | src/cs3500/reversi/model/ReversiModel.java:83-85 | fails with the engine's error for edge length < 2, otherwise a fresh valid model of the new game |
| Model.ReversiModel.CreateCopy | src/cs3500/reversi/model/ReversiModel.java:92-102 | a fresh model with the same state and its own listener-free broadcaster |
| Model.ReversiModel.SetBroadcastListener | src/cs3500/reversi/model/ReversiModel.java:105-107 | appends the listener |
| Model.ReversiModel.RemoveBroadcastListener | src/cs3500/reversi/model/ReversiModel.java:110-112 | removes the first equal listener |
| Model.ReversiModel.SetupGrid | src/cs3500/reversi/model/ReversiModel.java:144-153 | the nested loops build the empty hexagonal grid |
| Model.ReversiModel.PlaceStartingPieces | src/cs3500/reversi/model/ReversiModel.java:158-185 | the grid becomes the opening grid |
| Model.ReversiModel.StartGame | src/cs3500/reversi/model/ReversiModel.java:188-191 | on failure nothing changes and nothing is sent; on success the state is the engine's and listeners get the mutation events |
| Model.ReversiModel.Pass | src/cs3500/reversi/model/ReversiModel.java:194-203 | on failure nothing changes; on success the state is the engine's, with game-over events after the second pass and mutation events otherwise |
| Model.ReversiModel.PlaceDiscInCell | src/cs3500/reversi/model/ReversiModel.java:206-215 | on failure grid, state and counter are unchanged and nothing is sent; on success the state is the engine's and listeners get the mutation events |
| Model.ReversiModel.AnyLegalMoves | src/cs3500/reversi/model/ReversiModel.java:218-229 | the nested loops give the engine's answer |
| Model.ReversiModel.ValidMove | src/cs3500/reversi/model/ReversiModel.java:232-251 | gives the engine's (legal, count) |
| Model.ReversiModel.DiscsToCapture | src/cs3500/reversi/model/ReversiModel.java:266-279 | gives the engine's capture lines |
| Model.ReversiModel.CollectLines | src/cs3500/reversi/model/ReversiModel.java:266-279 | the loop over the adjacent opponent cells gathers exactly the non-empty capture lines, listed in checkAdjacent's insertion order |
| Model.ReversiModel.CaptureDiscs | src/cs3500/reversi/model/ReversiModel.java:466-473 | paints every cell of every capture line in the mover's colour |
| Model.ReversiModel.FlipLine | src/cs3500/reversi/model/ReversiModel.java:466-473 | flipping one more captured line extends the painted prefix: those cells now hold the mover's colour and the rest of the grid is unchanged |
| Model.ReversiModel.FlipDisc | src/cs3500/reversi/model/ReversiModel.java:594-599 | an occupied cell takes the opposite colour |
| Model.ReversiModel.PlaceDisc | src/cs3500/reversi/model/ReversiModel.java:582-584 | the cell takes the colour |
| Model.ReversiModel.IsGameOver | src/cs3500/reversi/model/ReversiModel.java:476-481 | matches the engine's isGameOver, including its write to gameState |
| Model.ReversiModel.NextPlayerTurn | src/cs3500/reversi/model/ReversiModel.java:557-564 | switches the state and sends the mutation events |
| Model.ReversiModel.SwitchGameState | src/cs3500/reversi/model/ReversiModel.java:569-575 | BLACKMOVE⇄WHITEMOVE, GAMEOVER stays |
| Model.ReversiModel.GetGameState | src/cs3500/reversi/model/ReversiModel.java:484-486 | returns the state |
| Model.ReversiModel.GetGrid | src/cs3500/reversi/model/ReversiModel.java:489-495 | returns the grid's contents |
| Model.ReversiModel.GetActivePlayerColor | src/cs3500/reversi/model/ReversiModel.java:498-508 | the engine's active colour or error |
| Model.ReversiModel.GetPlayerScore | src/cs3500/reversi/model/ReversiModel.java:511-522 | the nested loops count the player's cells |
| Model.ReversiModel.GetColorAt | src/cs3500/reversi/model/ReversiModel.java:525-528 | the cell's colour, or invalid coordinates |
| Model.ReversiModel.GetWinner | src/cs3500/reversi/model/ReversiModel.java:531-542 | the engine's winner |
| Model.ReversiModel.GetEdgeLength | src/cs3500/reversi/model/ReversiModel.java:545-547 | returns the edge length |
| Model.ReversiModel.GetPassCounter | src/cs3500/reversi/model/ReversiModel.java:550-552 | returns the pass counter |
| MoveMaps.MaxValue | src/cs3500/reversi/strategy/MaxCapture.java:21-26 | the largest value of a non-empty move map: attained, and no smaller than any value |
| MoveMaps.MinValue | src/cs3500/reversi/strategy/MinimizeOpponentMaxCapture.java:62-86 | the smallest value of a non-empty map: attained, and no larger than any value |
| MoveMaps.MaxValueUnique | src/cs3500/reversi/strategy/MaxCapture.java:21-26 | an attained upper bound is the maximum |
| MoveMaps.MinValueUnique | src/cs3500/reversi/strategy/MinimizeOpponentMaxCapture.java:62-86 | an attained lower bound is the minimum |
| StrategyUtils.CornersAndAdjacentCells | src/cs3500/reversi/strategy/StrategyUtils.java:63-104 | 24 cells: six corners, then three neighbours per corner |
| StrategyUtils.CornerCells | src/cs3500/reversi/strategy/StrategyUtils.java:63-104 | exactly (0,0), (0,E−1), (E−1,0), (E−1,2E−2), (2E−2,0), (2E−2,E−1), in that order |
| StrategyUtils.CellsAdjacentToCorners | src/cs3500/reversi/strategy/StrategyUtils.java:97-103 | the 18 entries after the corners |
| StrategyUtils.CornersInBounds | src/cs3500/reversi/strategy/StrategyUtils.java:63-104 | on a hexagonal grid all 24 cells are in bounds |
| StrategyUtils.AdjacentCellsAreNeighbours | src/cs3500/reversi/strategy/StrategyUtils.java:66-95 | each of the 18 cells is one step from its corner under the model's adjacency |
| StrategyUtils.CornersAndNeighboursDisjoint | src/cs3500/reversi/strategy/StrategyUtils.java:63-104 | for E ≥ 3 no corner-adjacent cell is a corner |
| StrategyUtils.Cells | src/cs3500/reversi/strategy/StrategyUtils.java:44-53 | exactly the cells in bounds |
| StrategyUtils.AllValidMovesSpec | src/cs3500/reversi/strategy/StrategyUtils.java:40-56 | fails (with validMove's error) iff no player is to move on a non-empty grid; keys are exactly the legal cells, each mapped to its validMove count ≥ 1 |
| StrategyUtils.AllValidMovesNonEmpty | src/cs3500/reversi/strategy/StrategyUtils.java:40-56 | the map is non-empty iff anyLegalMoves is true |
| StrategyUtils.AllValidMovesAt | src/cs3500/reversi/strategy/StrategyUtils.java:40-56 | for each cell in bounds: present iff legal, with validMove's count |
| StrategyUtils.GetAllValidMoves | src/cs3500/reversi/strategy/StrategyUtils.java:40-56 | the nested loops build the reference map, or fail as it does |
| StrategyUtils.AddRowMoves | src/cs3500/reversi/strategy/StrategyUtils.java:44-53 | scanning one row adds every legal cell of that row with its capture count, or fails exactly when there is no active player and the row is non-empty |
| StrategyUtils.FillStep | src/cs3500/reversi/strategy/StrategyUtils.java:44-53 | one cell step keeps the map equal to the legal moves seen so far, with their counts |
| MaxCapture.Threshold | src/cs3500/reversi/strategy/MaxCapture.java:18-26 | the running maximum starting at 0: ≥ 0, no smaller than any count, attained unless 0 |
| MaxCapture.ThresholdUnique | src/cs3500/reversi/strategy/MaxCapture.java:18-26 | the threshold is determined by those properties |
| MaxCapture.FilterMoves | src/cs3500/reversi/strategy/MaxCapture.java:15-35 | both loops give the reference result |
| MaxCapture.KeepMaxSubMap | src/cs3500/reversi/strategy/MaxCapture.java:27-32 | kept entries keep their values, and nothing is added |
| MaxCapture.KeepMaxExactly | src/cs3500/reversi/strategy/MaxCapture.java:18-32 | keeps exactly the entries equal to the maximum; empty input gives empty output |
| MaxCapture.KeepMaxNonEmpty | src/cs3500/reversi/strategy/MaxCapture.java:21-32 | a non-empty map of counts gives a non-empty result |
| MaxCapture.KeepMaxIdempotent | src/cs3500/reversi/strategy/MaxCapture.java:15-35 | filtering twice is filtering once |
| AvoidNextToCorners.FilterMoves | src/cs3500/reversi/strategy/AvoidNextToCorners.java:15-35 | the copy-and-remove loop and the fallback give the reference result |
| AvoidNextToCorners.AvoidSubMap | src/cs3500/reversi/strategy/AvoidNextToCorners.java:18-27 | the result is part of the input, with values unchanged |
| AvoidNextToCorners.AvoidCases | src/cs3500/reversi/strategy/AvoidNextToCorners.java:18-34 | if some candidate is not corner-adjacent, exactly those candidates remain; otherwise the input is returned |
| AvoidNextToCorners.AvoidNonEmpty | src/cs3500/reversi/strategy/AvoidNextToCorners.java:28-34 | a non-empty input gives a non-empty result |
| AvoidNextToCorners.AvoidIdempotent | src/cs3500/reversi/strategy/AvoidNextToCorners.java:15-35 | filtering twice is filtering once |
| PlayToCorners.FilterMoves | src/cs3500/reversi/strategy/PlayToCorners.java:15-36 | the copy-and-remove loop and the fallback give the reference result |
| PlayToCorners.PreferCornersSubMap | src/cs3500/reversi/strategy/PlayToCorners.java:18-29 | the result is part of the input, with values unchanged |
| PlayToCorners.PreferCornersCases | src/cs3500/reversi/strategy/PlayToCorners.java:18-35 | if some candidate is a corner, exactly the corner candidates remain; otherwise the input is returned |
| PlayToCorners.PreferCornersNonEmpty | src/cs3500/reversi/strategy/PlayToCorners.java:30-35 | a non-empty input gives a non-empty result |
| PlayToCorners.PreferCornersIdempotent | src/cs3500/reversi/strategy/PlayToCorners.java:15-36 | filtering twice is filtering once |
| MinimizeOpponentMaxCapture.ReplyValue | src/cs3500/reversi/strategy/MinimizeOpponentMaxCapture.java:104-110 | the opponent's best count, no smaller than any of its counts and attained when it has a move |
| MinimizeOpponentMaxCapture.StreamMax | src/cs3500/reversi/strategy/MinimizeOpponentMaxCapture.java:68-70 | the stream maximum: none on an empty map, the maximum otherwise |
| MinimizeOpponentMaxCapture.GetAllOpponentMoves | src/cs3500/reversi/strategy/MinimizeOpponentMaxCapture.java:36-51 | for every candidate, the opponent's legal-move map after playing it on a copy; fails as soon as a copy fails |
| MinimizeOpponentMaxCapture.GetMinMaxOpponentCapture | src/cs3500/reversi/strategy/MinimizeOpponentMaxCapture.java:62-86 | −1 for no candidates, 0 as soon as a candidate leaves the opponent no move, otherwise the minimum reply value |
| MinimizeOpponentMaxCapture.MinValueIsZero | src/cs3500/reversi/strategy/MinimizeOpponentMaxCapture.java:62-86 | a candidate with no opponent reply makes the minimum 0 |
| MinimizeOpponentMaxCapture.RemoveNonMinimizingMoves | src/cs3500/reversi/strategy/MinimizeOpponentMaxCapture.java:98-118 | removes exactly the candidates whose reply value exceeds the threshold; survivors keep their values |
| MinimizeOpponentMaxCapture.Trials | src/cs3500/reversi/strategy/MinimizeOpponentMaxCapture.java:36-51 | one reply map per candidate |
| MinimizeOpponentMaxCapture.OpponentMovesNonNegative | src/cs3500/reversi/strategy/MinimizeOpponentMaxCapture.java:40-48 | every opponent reply count is at least 1 |
| MinimizeOpponentMaxCapture.FilterMoves | src/cs3500/reversi/strategy/MinimizeOpponentMaxCapture.java:19-27 | fails iff some candidate cannot be played on a copy; otherwise the survivors of the trials |
| MinimizeOpponentMaxCapture.TrialsNonNegative | src/cs3500/reversi/strategy/MinimizeOpponentMaxCapture.java:36-51 | a complete set of opponent replies is the trials map, with non-negative counts |
| MinimizeOpponentMaxCapture.ThresholdGivesSurvivors | src/cs3500/reversi/strategy/MinimizeOpponentMaxCapture.java:98-118 | removing above the minimum gives the survivors |
| MinimizeOpponentMaxCapture.SurvivorsSubMap | src/cs3500/reversi/strategy/MinimizeOpponentMaxCapture.java:98-118 | survivors are part of the input, with values unchanged |
| MinimizeOpponentMaxCapture.SurvivorsAreMinimisers | src/cs3500/reversi/strategy/MinimizeOpponentMaxCapture.java:62-118 | the survivors are exactly the candidates attaining the minimum reply value, so there is at least one |
| MinimizeOpponentMaxCapture.EqualRepliesAllSurvive | src/cs3500/reversi/strategy/MinimizeOpponentMaxCapture.java:98-118 | when every move allows the same opponent maximum, no move is removed |
| MinimizeOpponentMaxCapture.SurvivorsIdempotent | src/cs3500/reversi/strategy/MinimizeOpponentMaxCapture.java:98-118 | filtering the survivors again keeps them all |
| AIStrategy.CandidatesPlayable | src/cs3500/reversi/strategy/AIStrategy.java:47-52 | every legal candidate can be tried on a copy |
| AIStrategy.CandidatesPositive | src/cs3500/reversi/strategy/AIStrategy.java:47-52 | every candidate's count is at least 1 |
| AIStrategy.NarrowedShrinks | src/cs3500/reversi/strategy/AIStrategy.java:49-52 | each filter returns part of its input, non-empty when the input is |
| AIStrategy.MaxCaptureShrinks | src/cs3500/reversi/strategy/MaxCapture.java:15-35 | MaxCapture keeps a non-empty part of the candidates |
| AIStrategy.MinimizeShrinks | src/cs3500/reversi/strategy/MinimizeOpponentMaxCapture.java:19-27 | MinimizeOpponentMaxCapture succeeds on candidates and keeps a non-empty part of them |
| AIStrategy.ApplyFilters | src/cs3500/reversi/strategy/AIStrategy.java:49-52 | folding the filters in order gives part of the candidates, non-empty when they are |
| AIStrategy.UpperLeft | src/cs3500/reversi/strategy/AIStrategy.java:66-80 | fails on no cells; otherwise a cell with the smallest row and, among those, the smallest column |
| AIStrategy.UpperLeftExists | src/cs3500/reversi/strategy/AIStrategy.java:66-80 | every non-empty set of cells has an upper-left cell |
| AIStrategy.UpperLeftUnique | src/cs3500/reversi/strategy/AIStrategy.java:66-80 | the upper-left cell is unique, so the choice does not depend on iteration order |
| AIStrategy.ChooseCellProperties | src/cs3500/reversi/strategy/AIStrategy.java:39-98 | wrong player, no game in progress and no legal moves fail in that order; otherwise the result is legal, in the filtered map and upper-left of it |
| FirstMove.StartingGridEmptyAboveCenter | src/cs3500/reversi/model/ReversiModel.java:158-185 | for E ≥ 3 the two cells above the opening's top discs are empty |
| FirstMove.StartingGridEdgeThree | src/cs3500/reversi/model/ReversiModel.java:144-185 | the edge-3 opening grid has the layout the choice lemmas use |
| FirstMove.EdgeThreeTopMoveLegal | src/cs3500/reversi/model/ReversiModel.java:232-251 | on that opening (0,1) is a legal move for BLACK |
| FirstMove.EdgeThreeTopIsLegal | src/cs3500/reversi/model/ReversiModel.java:218-251 | in a game on that opening with BLACK to move, (0,1) is legal |
| FirstMove.EdgeThreeLegalAfterTop | src/cs3500/reversi/strategy/AIStrategy.java:66-80 | on that opening every legal cell is (0,1) or comes after it in row-then-column order |
| FirstMove.EdgeThreeCornerIllegal | src/cs3500/reversi/model/ReversiModel.java:232-251 | on that opening the corner (0,0) is not legal for BLACK |
| FirstMove.NoWhiteNeighbourIllegal | src/cs3500/reversi/model/ReversiModel.java:232-251 | a cell with no WHITE neighbour is never a legal move for BLACK |
| AIStrategy.UnfilteredChoice | src/cs3500/reversi/strategy/AIStrategy.java:39-56 | with no filters the choice is the upper-left legal cell |
| FirstMove.EdgeThreeUpperLeftLegal | src/cs3500/reversi/strategy/AIStrategy.java:66-80 | on that opening (0,1) is the upper-left legal cell |
| FirstMove.StartedGame | src/cs3500/reversi/model/ReversiModel.java:188-191 | creating and starting a game gives the opening grid with BLACK to move |
| FirstMove.EdgeThreeChoice | test/cs3500/reversi/model/NewReversiModelTests.java:55-64 | with no filters, on the edge-3 opening with BLACK to move, the choice is (0,1) |
| AIStrategy.AIStrategy.constructor | src/cs3500/reversi/strategy/AIStrategy.java:33-36 | keeps the filters in order |
| AIStrategy.AIStrategy.Narrow | src/cs3500/reversi/strategy/AIStrategy.java:49-52 | runs one filter as its reference function |
| AIStrategy.AIStrategy.ChooseUpperLeft | src/cs3500/reversi/strategy/AIStrategy.java:66-80 | the upper-left cell, or an error on no cells |
| AIStrategy.AIStrategy.ChooseCell | src/cs3500/reversi/strategy/AIStrategy.java:39-56 | the loop over the filters meets the reference choice |
| TextView.ColorToCharacter | src/cs3500/reversi/view/ReversiTextView.java:53-64 | one visible character per colour, never a space or newline |
| TextView.CharacterReadsBack | src/cs3500/reversi/view/ReversiTextView.java:53-64 | X, O and _ read back as BLACK, WHITE and NONE, so colours are drawn distinctly |
| TextView.Spaces | src/cs3500/reversi/view/ReversiTextView.java:72-77 | n spaces |
| TextView.SplitJoined | src/cs3500/reversi/view/ReversiTextView.java:30-43 | splitting at the separator recovers the joined lines |
| TextView.JoinedCells | src/cs3500/reversi/view/ReversiTextView.java:32-38 | cell i is at position 2i with single spaces between cells and none after the last |
| TextView.LineHasNoNewline | src/cs3500/reversi/view/ReversiTextView.java:30-43 | no row's line contains a newline |
| TextView.LineReadsBack | src/cs3500/reversi/view/ReversiTextView.java:27-39 | a line is \|r−(E−1)\| spaces, the row's cells readable at every other position, and the same spaces |
| TextView.RenderSplitsIntoLines | src/cs3500/reversi/view/ReversiTextView.java:23-46 | the view splits at newlines into exactly one line per row, with no trailing newline |
| TextView.LinesAreEqualWidth | src/cs3500/reversi/view/ReversiTextView.java:23-46 | on a hexagonal grid every line is 4E−3 characters wide |
| TextView.EdgeThreeRowsLines | src/cs3500/reversi/view/ReversiTextView.java:23-46 | the five lines drawn for the new edge-3 board, each with its padding and cell characters |
| TextView.EdgeThreeOpeningText | test/cs3500/reversi/view/TextViewTests.java:16-25 | a new board of edge length 3 renders as exactly the text the view test expects |
| TextView.ReversiTextView.constructor | src/cs3500/reversi/view/ReversiTextView.java:19-21 | keeps the model |
| TextView.ReversiTextView.AddSpaces | src/cs3500/reversi/view/ReversiTextView.java:72-77 | appends max(times, 0) spaces |
| TextView.ReversiTextView.AppendCells | src/cs3500/reversi/view/ReversiTextView.java:32-38 | the inner loop appends the row's cells separated by spaces |
| TextView.ReversiTextView.ToString | src/cs3500/reversi/view/ReversiTextView.java:23-46 | the loops produce the reference rendering |
| PrioritizeCorners.PosnList.constructor | src/cs3500/reversi/provider/strategy/PrioritizeCorners.java:20-21 | the list holds the given positions |
| PrioritizeCorners.LastCornerSpec | src/cs3500/reversi/provider/strategy/PrioritizeCorners.java:24-35 | none iff no position is a corner; otherwise a corner of the list with no corner after it |
| PrioritizeCorners.Filter | src/cs3500/reversi/provider/strategy/PrioritizeCorners.java:20-40 | the list is narrowed in place to the reference result |
| PrioritizeCorners.PrioritizedCases | src/cs3500/reversi/provider/strategy/PrioritizeCorners.java:24-39 | no corner leaves the list unchanged; otherwise it becomes the last corner alone |
| PrioritizeCorners.PrioritizedIdempotent | src/cs3500/reversi/provider/strategy/PrioritizeCorners.java:20-40 | filtering twice is filtering once |
| PrioritizeCorners.PrioritizedKeepsMembers | src/cs3500/reversi/provider/strategy/PrioritizeCorners.java:20-40 | only positions of the list remain, and a non-empty list stays non-empty |
| PrioritizeCorners.CornersAgree | src/cs3500/reversi/provider/strategy/PrioritizeCorners.java:26-31 | with size E−1, the provider's six corners are exactly the cubic positions of this engine's corner cells |

## Left out

- Swing views, mouse and key handling, the controller, the player wrappers, the CLI and the adapter classes that only delegate are not part of this model.
- ReversiModel.equals and hashCode (src/cs3500/reversi/model/ReversiModel.java:115-128) are not modelled. The model compares whole states by value instead.
- Listeners are modelled as plain handles. A notification is recorded as an event in a ghost trace; the listener code that runs on it, including re-entrant moves by an AI player, is not modelled.
- HashMap iteration order is not modelled. In the filters, loops over maps pick keys in any order, and every filter is proved to give the same result for every order. chooseUpperLeft's sort is modelled as choosing the unique upper-left cell.
- Capture.DiscsToCapture, Model.ReversiModel.DiscsToCapture and Model.ReversiModel.CollectLines list the capture lines in checkAdjacent's insertion order (centerLeft, centerRight, topLeft, topRight, bottomLeft, bottomRight). The Java code iterates the keySet of a HashMap keyed by RowColCoords (src/cs3500/reversi/model/ReversiModel.java:271), whose order follows the hash buckets and differs from insertion order (for the target (2,2) at edge length 3 a bottomRight line comes before a centerRight line). The set of lines and each line's contents are the same. validMove uses only their total size, and captureDiscs flips disjoint lines, so neither depends on the order. The order that the public discsToCapture hands to its callers is not modelled.
- The filters return the narrowed map as a value. The Java versions that mutate the argument map in place, and the aliasing between argument and result, are not modelled.
- MinimizeOpponentMaxCapture.GetMinMaxOpponentCapture: the minimum is stated only for reply counts that are non-negative. These are the only counts validMove produces.
- Model.ReversiModel.FlipDisc: its exceptions on out-of-bounds coordinates and on an empty cell are preconditions. captureDiscs only calls it on in-bounds opponent discs (Capture.CapturedCells).
- Model.ReversiModel.GetGrid returns the grid as a value, so the unmodifiable list view is not modelled.
- Null checks are not modelled; an IPlayer is modelled as its colour.
- TextView.ReversiTextView.ToString requires at least one row. The Java code throws on an empty grid, and a model never has one.
- TextView.ReversiTextView.AppendCells is toString's inner loop written as its own method.
- StrategyUtils.AddRowMoves, Model.ReversiModel.CollectLines and Model.ReversiModel.FlipLine are loop bodies of getAllValidMoves, discsToCapture and captureDiscs written as their own methods; the Java code has them inline.
- PrioritizeCorners.Filter takes the provider's board size as a parameter; through the adapter it is E−1. The player argument of filter is unused in the source and is dropped.
- The edge-3 AI choice is stated for any valid game on the edge-3 opening with BLACK to move (FirstMove.EdgeThreeChoice). It is linked to a freshly created and started game by FirstMove.StartedGame and FirstMove.StartingGridEdgeThree, not by one combined lemma.
- Coords.HashCode: only its range and consistency with equals are stated, not the exact Java hash value.
