/** DiscColor (the contents of a cell) and GameState (the turn state machine's states). */
module Colors {
  import opened Wrappers
  import opened Errors

  datatype DiscColor = BLACK | WHITE | NONE

  datatype GameState = UNSTARTED | BLACKMOVE | WHITEMOVE | GAMEOVER

  /** oppositeColor: swaps the two players' colours and rejects NONE. */
  function OppositeColor(c: DiscColor): (r: Result<DiscColor, Error>)
    ensures r.Err? <==> c == NONE
    ensures r.Err? ==> r.error == NoOppositeColor
    ensures r.Ok? ==> r.value != c && r.value != NONE
  {
    match c
    case BLACK => Ok(WHITE)
    case WHITE => Ok(BLACK)
    case NONE => Err(NoOppositeColor)
  }

  /** The opponent of a player colour (the successful case of OppositeColor). */
  function Opponent(c: DiscColor): (r: DiscColor)
    requires c != NONE
    ensures OppositeColor(c) == Ok(r)
  {
    OppositeColor(c).value
  }

  lemma OppositeColorOfPlayers()
    ensures OppositeColor(BLACK) == Ok(WHITE) && OppositeColor(WHITE) == Ok(BLACK)
  {
  }

  /** On the two player colours oppositeColor is an involution. */
  lemma OppositeColorInvolution(c: DiscColor)
    requires c != NONE
    ensures OppositeColor(c).Ok? && OppositeColor(OppositeColor(c).value) == Ok(c)
  {
  }

  /** Every colour is exactly one of: NONE, a player, or that player's opponent. */
  lemma ThreeColors(mover: DiscColor, c: DiscColor)
    requires mover != NONE
    ensures c == NONE || c == mover || c == Opponent(mover)
    ensures (c == mover) != (c == Opponent(mover)) || c == NONE
  {
  }
}
