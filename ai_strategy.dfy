/**
 * AIStrategy: check that it is the player's turn and that a move exists, narrow the legal
 * moves through the filters in the order they were given, and pick the upper-leftmost
 * remaining cell (smallest row, then smallest column).
 */
module AIStrategy {
  import opened Wrappers
  import opened Errors
  import opened Colors
  import opened Coords
  import opened Geometry
  import opened Board
  import opened Capture
  import opened Engine
  import opened MoveMaps
  import opened StrategyUtils
  import opened Model
  import MaxCapture
  import AvoidNextToCorners
  import PlayToCorners
  import MinimizeOpponentMaxCapture

  /** The filtering strategies an AIStrategy can be built from. */
  datatype Filter =
    | MaxCaptureFilter
    | AvoidNextToCornersFilter
    | PlayToCornersFilter
    | MinimizeOpponentMaxCaptureFilter

  /**
   * Candidate moves as the filters receive them: some of the active player's legal moves
   * in a game in progress, each with its validMove count.
   */
  ghost predicate Candidates(m: Moves, g: Game)
  {
    && Engine.Valid(g)
    && ActivePlayerColor(g.gameState).Ok?
    && SubMap(m, AllValidMoves(g).value)
  }

  /** Legal moves can be played, and the opponent then has a map of replies. */
  lemma CandidatesPlayable(m: Moves, g: Game)
    requires Candidates(m, g)
    ensures MinimizeOpponentMaxCapture.AllPlayable(m, g)
  {
    AllValidMovesSpec(g);
    forall c | c in m
      ensures MinimizeOpponentMaxCapture.OpponentMoves(g, c).Ok?
    {
      PlaceDiscInCellSpec(g, c);
      var after := Engine.PlaceDiscInCell(g, c).value;
      assert after.gameState == BLACKMOVE || after.gameState == WHITEMOVE;
    }
  }

  /** Candidate counts are validMove counts, so at least 1. */
  lemma CandidatesPositive(m: Moves, g: Game)
    requires Candidates(m, g)
    ensures forall c :: c in m ==> m[c] >= 1
  {
    AllValidMovesSpec(g);
  }

  /** What one filter leaves of the candidates. */
  ghost function Narrowed(f: Filter, m: Moves, g: Game): Moves
    requires Candidates(m, g)
  {
    match f
    case MaxCaptureFilter => MaxCapture.KeepMax(m)
    case AvoidNextToCornersFilter => AvoidNextToCorners.Avoid(m, g.edgeLength)
    case PlayToCornersFilter => PlayToCorners.PreferCorners(m, g.edgeLength)
    case MinimizeOpponentMaxCaptureFilter =>
      CandidatesPlayable(m, g);
      MinimizeOpponentMaxCapture.Survivors(m, MinimizeOpponentMaxCapture.Trials(m, g))
  }

  /** Every filter keeps part of the candidates, and never leaves nothing of something. */
  lemma NarrowedShrinks(f: Filter, m: Moves, g: Game)
    requires Candidates(m, g)
    ensures SubMap(Narrowed(f, m, g), m)
    ensures m != map[] ==> Narrowed(f, m, g) != map[]
  {
    match f
    case MaxCaptureFilter => MaxCaptureShrinks(m, g);
    case AvoidNextToCornersFilter =>
      AvoidNextToCorners.AvoidSubMap(m, g.edgeLength);
      if m != map[] {
        AvoidNextToCorners.AvoidNonEmpty(m, g.edgeLength);
      }
    case PlayToCornersFilter =>
      PlayToCorners.PreferCornersSubMap(m, g.edgeLength);
      if m != map[] {
        PlayToCorners.PreferCornersNonEmpty(m, g.edgeLength);
      }
    case MinimizeOpponentMaxCaptureFilter => MinimizeShrinks(m, g);
  }

  lemma MaxCaptureShrinks(m: Moves, g: Game)
    requires Candidates(m, g)
    ensures SubMap(MaxCapture.KeepMax(m), m)
    ensures m != map[] ==> MaxCapture.KeepMax(m) != map[]
  {
    CandidatesPositive(m, g);
    MaxCapture.KeepMaxSubMap(m);
    if m != map[] {
      MaxCapture.KeepMaxNonEmpty(m);
    }
  }

  lemma MinimizeShrinks(m: Moves, g: Game)
    requires Candidates(m, g)
    ensures MinimizeOpponentMaxCapture.AllPlayable(m, g)
    ensures var r := MinimizeOpponentMaxCapture.Survivors(m, MinimizeOpponentMaxCapture.Trials(m, g));
      SubMap(r, m) && (m != map[] ==> r != map[])
  {
    CandidatesPlayable(m, g);
    var all := MinimizeOpponentMaxCapture.Trials(m, g);
    MinimizeOpponentMaxCapture.SurvivorsSubMap(m, all);
    if m != map[] {
      MinimizeOpponentMaxCapture.SurvivorsAreMinimisers(m, all);
    }
  }

  /** Sub-maps of sub-maps are sub-maps. */
  lemma SubMapTransitive(a: Moves, b: Moves, c: Moves)
    requires SubMap(a, b) && SubMap(b, c)
    ensures SubMap(a, c)
  {
  }

  /**
   * The filters applied in list order, each to the previous one's output: the result is
   * part of the candidates and is non-empty when they are.
   */
  ghost function ApplyFilters(filters: seq<Filter>, m: Moves, g: Game): (r: Moves)
    requires Candidates(m, g)
    ensures SubMap(r, m)
    ensures m != map[] ==> r != map[]
    decreases |filters|
  {
    if filters == [] then m
    else
      var next := Narrowed(filters[0], m, g);
      NarrowedShrinks(filters[0], m, g);
      SubMapTransitive(next, m, AllValidMoves(g).value);
      var r := ApplyFilters(filters[1..], next, g);
      SubMapTransitive(r, next, m);
      r
  }

  /** Cell a is at least as far up and left as b: a smaller row, or the same row and no larger column. */
  predicate UpperLeftOf(a: Coord, b: Coord)
  {
    a.row < b.row || (a.row == b.row && a.col <= b.col)
  }

  /** The upper-leftmost cell of a set, or NoCellsToChoose for the empty set. */
  ghost function UpperLeft(cells: set<Coord>): (r: Result<Coord, Error>)
    ensures r.Err? <==> cells == {}
    ensures r.Err? ==> r.error == NoCellsToChoose
    ensures r.Ok? ==> r.value in cells && forall c :: c in cells ==> UpperLeftOf(r.value, c)
  {
    if cells == {} then Err(NoCellsToChoose)
    else
      UpperLeftExists(cells);
      var c :| c in cells && forall d :: d in cells ==> UpperLeftOf(c, d);
      Ok(c)
  }

  /** Every non-empty finite set of cells has an upper-leftmost cell. */
  lemma {:induction false} UpperLeftExists(cells: set<Coord>)
    requires cells != {}
    ensures exists c :: c in cells && forall d :: d in cells ==> UpperLeftOf(c, d)
    decreases |cells|
  {
    var x :| x in cells;
    var rest := cells - {x};
    if rest != {} {
      UpperLeftExists(rest);
      var y :| y in rest && forall d :: d in rest ==> UpperLeftOf(y, d);
      assert forall d :: d in cells ==> d == x || d in rest;
      if UpperLeftOf(x, y) {
        assert forall d :: d in cells ==> UpperLeftOf(x, d);
      } else {
        assert forall d :: d in cells ==> UpperLeftOf(y, d);
      }
    } else {
      assert forall d :: d in cells ==> d == x || d in rest;
    }
  }

  /** Two upper-leftmost cells of the same set are the same cell. */
  lemma UpperLeftUnique(cells: set<Coord>, a: Coord, b: Coord)
    requires a in cells && forall d :: d in cells ==> UpperLeftOf(a, d)
    requires b in cells && forall d :: d in cells ==> UpperLeftOf(b, d)
    ensures a == b
  {
    assert UpperLeftOf(a, b) && UpperLeftOf(b, a);
  }

  /** throwIfNotPlayersTurn: the game is waiting for the other colour. */
  predicate NotPlayersTurn(state: GameState, player: DiscColor)
  {
    (state == BLACKMOVE && player != BLACK) || (state == WHITEMOVE && player != WHITE)
  }

  /** The cell chooseCell returns, or the error it throws, for the filters on the game g. */
  ghost function ChooseCellSpec(filters: seq<Filter>, g: Game, player: DiscColor): Result<Coord, Error>
    requires Engine.Valid(g)
  {
    if NotPlayersTurn(g.gameState, player) then Err(Errors.NotPlayersTurn)
    else match AnyLegalMoves(g)
      case Err(e) => Err(e)
      case Ok(any) =>
        if !any then Err(NoLegalMoves)
        else
          assert Candidates(AllValidMoves(g).value, g);
          UpperLeft(ApplyFilters(filters, AllValidMoves(g).value, g).Keys)
  }

  /**
   * What chooseCell promises: the wrong player is refused first, then a game not in
   * progress, then a position with no legal move. Otherwise it never fails, and the cell it
   * returns is a legal move that survived every filter and is upper-leftmost among the
   * survivors.
   */
  lemma ChooseCellProperties(filters: seq<Filter>, g: Game, player: DiscColor)
    requires Engine.Valid(g)
    ensures var r := ChooseCellSpec(filters, g, player);
      && (NotPlayersTurn(g.gameState, player) ==> r == Err(Errors.NotPlayersTurn))
      && (!NotPlayersTurn(g.gameState, player) && ActivePlayerColor(g.gameState).Err? ==>
            r == Err(ActivePlayerColor(g.gameState).error))
      && (!NotPlayersTurn(g.gameState, player) && AnyLegalMoves(g) == Ok(false) ==> r == Err(NoLegalMoves))
      && (!NotPlayersTurn(g.gameState, player) && AnyLegalMoves(g) == Ok(true) ==>
            && r.Ok?
            && IsLegal(g, r.value)
            && r.value in ApplyFilters(filters, AllValidMoves(g).value, g)
            && forall c :: c in ApplyFilters(filters, AllValidMoves(g).value, g) ==> UpperLeftOf(r.value, c))
  {
    AnyLegalMovesSpec(g);
    if !NotPlayersTurn(g.gameState, player) && AnyLegalMoves(g) == Ok(true) {
      var all := AllValidMoves(g).value;
      AllValidMovesNonEmpty(g);
      AllValidMovesSpec(g);
      assert Candidates(all, g);
      var final := ApplyFilters(filters, all, g);
      assert final != map[];
      assert final.Keys != {};
    }
  }

  /**
   * With no filters the player to move gets the upper-leftmost legal move: a legal cell
   * that is upper-left of every legal cell is the one chosen.
   */
  lemma UnfilteredChoice(g: Game, o: Coord)
    requires Engine.Valid(g) && (g.gameState == BLACKMOVE || g.gameState == WHITEMOVE)
    requires IsLegal(g, o) && forall c :: IsLegal(g, c) ==> UpperLeftOf(o, c)
    ensures ChooseCellSpec([], g, ActivePlayerColor(g.gameState).value) == Ok(o)
  {
    var m := AllValidMoves(g).value;
    AllValidMovesSpec(g);
    AnyLegalMovesSpec(g);
    assert o in m;
    var r := UpperLeft(m.Keys);
    UpperLeftUnique(m.Keys, r.value, o);
  }

  class AIStrategy {
    /** The filters, in the order they are applied. */
    const strategiesToApply: seq<Filter>

    /** The constructor: an empty list, then every given filter appended in order. */
    constructor (strategies: seq<Filter>)
      ensures strategiesToApply == strategies
    {
      var filters: seq<Filter> := [];
      for i := 0 to |strategies|
        invariant filters == strategies[..i]
      {
        filters := filters + [strategies[i]];
      }
      assert strategies[..|strategies|] == strategies;
      strategiesToApply := filters;
    }

    /** One filter's filterMoves on the current candidates. */
    static method Narrow(f: Filter, possibleMoves: Moves, model: ReversiModel) returns (r: Moves)
      requires model.Valid() && Candidates(possibleMoves, model.State())
      ensures r == Narrowed(f, possibleMoves, model.State())
    {
      match f
      case MaxCaptureFilter =>
        r := MaxCapture.FilterMoves(possibleMoves);
      case AvoidNextToCornersFilter =>
        r := AvoidNextToCorners.FilterMoves(possibleMoves, model);
      case PlayToCornersFilter =>
        r := PlayToCorners.FilterMoves(possibleMoves, model);
      case MinimizeOpponentMaxCaptureFilter =>
        CandidatesPlayable(possibleMoves, model.State());
        var result := MinimizeOpponentMaxCapture.FilterMoves(possibleMoves, model);
        r := result.value;
    }

    /** chooseUpperLeft: the upper-leftmost candidate, or NoCellsToChoose when there is none. */
    static method ChooseUpperLeft(cells: set<Coord>) returns (r: Result<Coord, Error>)
      ensures r == UpperLeft(cells)
    {
      if cells == {} {
        return Err(NoCellsToChoose);
      }
      var remaining := cells;
      var best :| best in remaining;
      remaining := remaining - {best};
      while remaining != {}
        invariant remaining <= cells && best in cells && best !in remaining
        invariant forall d :: d in cells && d !in remaining ==> UpperLeftOf(best, d)
        decreases |remaining|
      {
        var cell :| cell in remaining;
        if !UpperLeftOf(best, cell) {
          best := cell;
        }
        remaining := remaining - {cell};
      }
      UpperLeftUnique(cells, best, UpperLeft(cells).value);
      return Ok(best);
    }

    /**
     * chooseCell: the turn check, the legal-move check, the legal moves narrowed by each
     * filter in turn, then the upper-leftmost survivor. The model is only read.
     */
    method ChooseCell(model: ReversiModel, player: DiscColor) returns (r: Result<Coord, Error>)
      requires model.Valid()
      ensures r == ChooseCellSpec(strategiesToApply, model.State(), player)
    {
      ghost var g := model.State();
      var state := model.GetGameState();
      if (state == BLACKMOVE && player != BLACK) || (state == WHITEMOVE && player != WHITE) {
        return Err(Errors.NotPlayersTurn);
      }
      var anyLegal := model.AnyLegalMoves();
      if anyLegal.Err? {
        return Err(anyLegal.error);
      }
      if !anyLegal.value {
        return Err(NoLegalMoves);
      }
      var allMoves := GetAllValidMoves(model);
      var filteredMoves := allMoves.value;
      assert Candidates(filteredMoves, g);
      ghost var final := ApplyFilters(strategiesToApply, filteredMoves, g);
      for i := 0 to |strategiesToApply|
        invariant model.State() == g
        invariant Candidates(filteredMoves, g)
        invariant ApplyFilters(strategiesToApply[i..], filteredMoves, g) == final
      {
        assert strategiesToApply[i..][1..] == strategiesToApply[i + 1..];
        ghost var previous := filteredMoves;
        NarrowedShrinks(strategiesToApply[i], filteredMoves, g);
        filteredMoves := Narrow(strategiesToApply[i], filteredMoves, model);
        SubMapTransitive(filteredMoves, previous, AllValidMoves(g).value);
      }
      r := ChooseUpperLeft(filteredMoves.Keys);
    }
  }
}
