/**
 * MinimizeOpponentMaxCapture: play each candidate on a copy of the game, look at the best
 * count the opponent could then reach, and keep only the candidates for which that best
 * reply is smallest. The live model is only read; each trial runs on a fresh copy.
 */
module MinimizeOpponentMaxCapture {
  import opened Wrappers
  import opened Errors
  import opened Coords
  import opened Engine
  import opened MoveMaps
  import opened StrategyUtils
  import opened Model

  /** For each candidate of the player, the opponent's candidate map after it. */
  type Replies = map<Coord, Moves>

  /** The opponent's legal moves once `cell` has been played on a copy of the game. */
  function OpponentMoves(g: Game, cell: Coord): Result<Moves, Error>
  {
    match Engine.PlaceDiscInCell(g, cell)
    case Err(e) => Err(e)
    case Ok(after) => AllValidMoves(after)
  }

  /** The largest count in the opponent's map, or 0 when the opponent has no move. */
  ghost function ReplyValue(opponent: Moves): (v: int)
    ensures opponent != map[] ==> exists c :: c in opponent && opponent[c] == v
    ensures forall c :: c in opponent ==> opponent[c] <= v
  {
    if opponent == map[] then 0 else MaxValue(opponent)
  }

  /** Every count in every opponent map is non-negative (true of validMove counts). */
  ghost predicate NonNegative(all: Replies)
  {
    forall c, d :: c in all && d in all[c] ==> all[c][d] >= 0
  }

  /** Each candidate's reply value. */
  ghost function ReplyValues(all: Replies): Moves
  {
    map c | c in all :: ReplyValue(all[c])
  }

  /** Stream.max over the values of a map: empty for an empty map, else the largest value. */
  method StreamMax(m: Moves) returns (r: Option<int>)
    ensures m == map[] ==> r == None
    ensures m != map[] ==> r == Some(MaxValue(m))
  {
    if m == map[] {
      return None;
    }
    var keys := m.Keys;
    var c :| c in keys;
    var best := m[c];
    keys := keys - {c};
    while keys != {}
      invariant keys <= m.Keys && c in m && c !in keys
      invariant exists d :: d in m && d !in keys && m[d] == best
      invariant forall d :: d in m && d !in keys ==> m[d] <= best
      decreases |keys|
    {
      var d :| d in keys;
      best := Max(best, m[d]);
      keys := keys - {d};
    }
    MaxValueUnique(m, best);
    return Some(best);
  }

  /**
   * getAllOpponentMoves: for each candidate, a fresh copy of the model, the candidate
   * played on it, and the opponent's legal moves there. A failing placement stops the
   * loop with its error.
   */
  method GetAllOpponentMoves(possibleMoves: Moves, model: ReversiModel) returns (r: Result<Replies, Error>)
    requires model.Valid()
    ensures r.Ok? <==> forall c :: c in possibleMoves ==> OpponentMoves(model.State(), c).Ok?
    ensures r.Err? ==> exists c :: c in possibleMoves && OpponentMoves(model.State(), c) == Err(r.error)
    ensures r.Ok? ==> r.value.Keys == possibleMoves.Keys
    ensures r.Ok? ==> forall c :: c in r.value ==> OpponentMoves(model.State(), c) == Ok(r.value[c])
  {
    ghost var g := model.State();
    var replies: Replies := map[];
    var cells := possibleMoves.Keys;
    while cells != {}
      invariant cells <= possibleMoves.Keys && model.State() == g
      invariant replies.Keys == possibleMoves.Keys - cells
      invariant forall c :: c in replies ==> OpponentMoves(g, c) == Ok(replies[c])
      decreases |cells|
    {
      var cell :| cell in cells;
      var copyModel := ReversiModel.CreateCopy(model);
      var placed := copyModel.PlaceDiscInCell(cell);
      if placed.Fail? {
        return Err(placed.error);
      }
      var opponentPossibleMoves := GetAllValidMoves(copyModel);
      if opponentPossibleMoves.Err? {
        return Err(opponentPossibleMoves.error);
      }
      replies := replies[cell := opponentPossibleMoves.value];
      cells := cells - {cell};
    }
    return Ok(replies);
  }

  /**
   * getMinMaxOpponentCapture: -1 when there is no candidate, 0 as soon as some candidate
   * leaves the opponent without a move, otherwise the smallest of the opponent's best
   * counts. With non-negative counts that is the smallest reply value in every case.
   */
  method GetMinMaxOpponentCapture(all: Replies) returns (r: int)
    ensures all == map[] ==> r == -1
    ensures (exists c :: c in all && all[c] == map[]) ==> r == 0
    ensures all != map[] && NonNegative(all) ==> r == MinValue(ReplyValues(all))
  {
    ghost var nonNegative := NonNegative(all);
    var minMaxOpponentCapture := -1;
    var playerMoves := all.Keys;
    while playerMoves != {}
      invariant playerMoves <= all.Keys
      invariant forall c :: c in all && c !in playerMoves ==> all[c] != map[]
      invariant playerMoves == all.Keys ==> minMaxOpponentCapture == -1
      invariant nonNegative && playerMoves != all.Keys ==>
        && (exists c :: c in all && c !in playerMoves && ReplyValue(all[c]) == minMaxOpponentCapture)
        && (forall c :: c in all && c !in playerMoves ==> minMaxOpponentCapture <= ReplyValue(all[c]))
      decreases |playerMoves|
    {
      var playerMove :| playerMove in playerMoves;
      var opponentMoves := all[playerMove];
      var maxValue := StreamMax(opponentMoves);
      if maxValue.Some? {
        if minMaxOpponentCapture == -1 {
          minMaxOpponentCapture := maxValue.value;
        } else {
          minMaxOpponentCapture := Min(minMaxOpponentCapture, maxValue.value);
        }
      } else {
        if nonNegative {
          MinValueIsZero(all, playerMove);
        }
        return 0;
      }
      playerMoves := playerMoves - {playerMove};
    }
    if nonNegative && all != map[] {
      assert all.Keys != {};
      var c :| c in all && ReplyValue(all[c]) == minMaxOpponentCapture;
      assert c in ReplyValues(all) && ReplyValues(all)[c] == minMaxOpponentCapture;
      MinValueUnique(ReplyValues(all), minMaxOpponentCapture);
    }
    return minMaxOpponentCapture;
  }

  /** With non-negative counts, a candidate that leaves the opponent no move has the minimum reply, 0. */
  lemma MinValueIsZero(all: Replies, c: Coord)
    requires NonNegative(all) && c in all && all[c] == map[]
    ensures ReplyValues(all) != map[] && MinValue(ReplyValues(all)) == 0
  {
    var values := ReplyValues(all);
    forall d | d in values
      ensures 0 <= values[d]
    {
      if all[d] != map[] {
        assert all[d].Keys != {};
        var e :| e in all[d];
      }
    }
    assert c in values && values[c] == 0;
    MinValueUnique(values, 0);
  }

  /**
   * removeNonMinimizingMoves: drop every candidate whose reply value exceeds the
   * threshold; the others keep their counts.
   */
  method RemoveNonMinimizingMoves(possibleMoves: Moves, all: Replies, threshold: int) returns (r: Moves)
    ensures forall c :: c in r <==> c in possibleMoves && !(c in all && ReplyValue(all[c]) > threshold)
    ensures SubMap(r, possibleMoves)
  {
    r := possibleMoves;
    var playerMoves := all.Keys;
    while playerMoves != {}
      invariant playerMoves <= all.Keys
      invariant forall c :: c in r <==>
        c in possibleMoves && !(c in all && c !in playerMoves && ReplyValue(all[c]) > threshold)
      invariant SubMap(r, possibleMoves)
      decreases |playerMoves|
    {
      var playerMove :| playerMove in playerMoves;
      var maxValue := StreamMax(all[playerMove]);
      if maxValue.None? {
        maxValue := Some(0);
      }
      if maxValue.value > threshold {
        r := r - {playerMove};
      }
      playerMoves := playerMoves - {playerMove};
    }
  }

  /** Every candidate can be played and answered. */
  ghost predicate AllPlayable(m: Moves, g: Game)
  {
    forall c :: c in m ==> OpponentMoves(g, c).Ok?
  }

  /** The opponent's candidate map after each candidate, each played on the game g. */
  ghost function Trials(m: Moves, g: Game): (all: Replies)
    requires AllPlayable(m, g)
    ensures all.Keys == m.Keys
  {
    map c | c in m :: OpponentMoves(g, c).value
  }

  /** The candidates whose reply value is the smallest one, with their counts. */
  ghost function Survivors(m: Moves, all: Replies): Moves
    requires m.Keys == all.Keys
  {
    if m == map[] then m
    else
      assert all.Keys != {};
      map c | c in m && ReplyValue(all[c]) <= MinValue(ReplyValues(all)) :: m[c]
  }

  /** Opponent maps hold validMove counts, so they are never negative. */
  lemma OpponentMovesNonNegative(g: Game, c: Coord)
    requires OpponentMoves(g, c).Ok?
    ensures forall d :: d in OpponentMoves(g, c).value ==> OpponentMoves(g, c).value[d] >= 1
  {
    AllValidMovesSpec(Engine.PlaceDiscInCell(g, c).value);
  }

  /**
   * filterMoves: gather the opponent's replies to every candidate on copies of the game,
   * find the threshold, and remove the candidates above it.
   */
  method FilterMoves(possibleMoves: Moves, model: ReversiModel) returns (r: Result<Moves, Error>)
    requires model.Valid()
    ensures r.Ok? <==> AllPlayable(possibleMoves, model.State())
    ensures r.Err? ==> exists c :: c in possibleMoves && OpponentMoves(model.State(), c) == Err(r.error)
    ensures r.Ok? ==> r.value == Survivors(possibleMoves, Trials(possibleMoves, model.State()))
  {
    ghost var g := model.State();
    var allOpponentMovesForEachPlayerMove := GetAllOpponentMoves(possibleMoves, model);
    if allOpponentMovesForEachPlayerMove.Err? {
      return Err(allOpponentMovesForEachPlayerMove.error);
    }
    var all := allOpponentMovesForEachPlayerMove.value;
    TrialsNonNegative(possibleMoves, g, all);
    var minMaxOpponentCapture := GetMinMaxOpponentCapture(all);
    var kept := RemoveNonMinimizingMoves(possibleMoves, all, minMaxOpponentCapture);
    ThresholdGivesSurvivors(possibleMoves, all, minMaxOpponentCapture, kept);
    return Ok(kept);
  }

  /** The replies gathered by getAllOpponentMoves are the trials, and never negative. */
  lemma TrialsNonNegative(m: Moves, g: Game, all: Replies)
    requires all.Keys == m.Keys
    requires forall c :: c in all ==> OpponentMoves(g, c) == Ok(all[c])
    ensures AllPlayable(m, g) && all == Trials(m, g) && NonNegative(all)
  {
    assert AllPlayable(m, g);
    var trials := Trials(m, g);
    assert forall c :: c in all ==> all[c] == trials[c];
    forall c, d | c in all && d in all[c]
      ensures all[c][d] >= 0
    {
      OpponentMovesNonNegative(g, c);
    }
  }

  /** Removing the candidates above the smallest reply value leaves the survivors. */
  lemma ThresholdGivesSurvivors(m: Moves, all: Replies, threshold: int, kept: Moves)
    requires m.Keys == all.Keys
    requires m != map[] ==> threshold == MinValue(ReplyValues(all))
    requires forall c :: c in kept <==> c in m && !(c in all && ReplyValue(all[c]) > threshold)
    requires SubMap(kept, m)
    ensures kept == Survivors(m, all)
  {
    if m == map[] {
      assert kept.Keys == {};
    }
  }

  /** The result is part of the candidates, with the same counts. */
  lemma SurvivorsSubMap(m: Moves, all: Replies)
    requires m.Keys == all.Keys
    ensures SubMap(Survivors(m, all), m)
  {
  }

  /**
   * A candidate survives exactly when its reply value is the smallest among the
   * candidates; a candidate attaining that minimum always exists, so a non-empty
   * candidate map gives a non-empty result.
   */
  lemma SurvivorsAreMinimisers(m: Moves, all: Replies)
    requires m.Keys == all.Keys && m != map[]
    ensures forall c :: c in Survivors(m, all) <==>
      c in m && ReplyValue(all[c]) == MinValue(ReplyValues(all))
    ensures Survivors(m, all) != map[]
  {
    var values := ReplyValues(all);
    assert forall d :: d in m ==> d in values && values[d] == ReplyValue(all[d]);
    var c :| c in values && values[c] == MinValue(values);
    assert c in Survivors(m, all);
  }

  /** The replies to the candidates of k only. */
  ghost function RepliesTo(all: Replies, k: Moves): (r: Replies)
    requires k.Keys <= all.Keys
    ensures r.Keys == k.Keys && forall c :: c in r ==> r[c] == all[c]
  {
    map c | c in k :: all[c]
  }

  /** When every candidate has the same reply value, every candidate survives. */
  lemma EqualRepliesAllSurvive(k: Moves, replies: Replies, best: int)
    requires k.Keys == replies.Keys && k != map[]
    requires forall d :: d in replies ==> ReplyValue(replies[d]) == best
    ensures Survivors(k, replies) == k
  {
    var values := ReplyValues(replies);
    assert forall d :: d in values ==> values[d] == best;
    var c :| c in k;
    assert c in values;
    MinValueUnique(values, best);
  }

  /** Filtering the survivors a second time, against the same replies, changes nothing. */
  lemma SurvivorsIdempotent(m: Moves, all: Replies)
    requires m.Keys == all.Keys
    ensures Survivors(m, all).Keys <= all.Keys
    ensures Survivors(Survivors(m, all), RepliesTo(all, Survivors(m, all))) == Survivors(m, all)
  {
    var k := Survivors(m, all);
    var kept := RepliesTo(all, k);
    if m != map[] {
      SurvivorsAreMinimisers(m, all);
      EqualRepliesAllSurvive(k, kept, MinValue(ReplyValues(all)));
    }
  }
}
