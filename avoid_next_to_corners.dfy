/**
 * AvoidNextToCorners: drop the candidate moves next to a corner, unless that would leave
 * no candidate, in which case the candidates are returned as they were. The removals go
 * to a copy; the given map is not changed.
 */
module AvoidNextToCorners {
  import opened Coords
  import opened MoveMaps
  import opened StrategyUtils
  import opened Model

  /** The candidates that are not next to a corner. */
  ghost function AwayFromCorners(m: Moves, edgeLength: int): Moves
  {
    map c | c in m && c !in CellsAdjacentToCorners(edgeLength) :: m[c]
  }

  /** The result of the filter: the candidates away from corners, or all of them if there are none. */
  ghost function Avoid(m: Moves, edgeLength: int): Moves
  {
    var rest := AwayFromCorners(m, edgeLength);
    if rest == map[] then m else rest
  }

  /**
   * filterMoves: copy the candidates, remove each of the 18 corner-adjacent cells from the
   * copy, and fall back to the original when the copy is left empty.
   */
  method FilterMoves(possibleMoves: Moves, model: ReversiModel) returns (r: Moves)
    ensures r == Avoid(possibleMoves, model.edgeLength)
  {
    var copyOfMoves := possibleMoves;
    var edgeLength := model.GetEdgeLength();
    var adjacentToCorners := CellsAdjacentToCorners(edgeLength);
    for i := 0 to |adjacentToCorners|
      invariant forall c :: c in copyOfMoves <==> c in possibleMoves && c !in adjacentToCorners[..i]
      invariant SubMap(copyOfMoves, possibleMoves)
    {
      copyOfMoves := copyOfMoves - {adjacentToCorners[i]};
      assert adjacentToCorners[..i + 1] == adjacentToCorners[..i] + [adjacentToCorners[i]];
    }
    assert adjacentToCorners[..|adjacentToCorners|] == adjacentToCorners;
    assert copyOfMoves == AwayFromCorners(possibleMoves, edgeLength);
    if copyOfMoves == map[] {
      r := possibleMoves;
    } else {
      r := copyOfMoves;
    }
  }

  /** The result is part of the candidates, with the same counts. */
  lemma AvoidSubMap(m: Moves, edgeLength: int)
    ensures SubMap(Avoid(m, edgeLength), m)
  {
  }

  /**
   * If some candidate is not next to a corner, the result is exactly the candidates that
   * are not; otherwise it is the whole candidate map.
   */
  lemma AvoidCases(m: Moves, edgeLength: int)
    ensures (exists c :: c in m && c !in CellsAdjacentToCorners(edgeLength)) ==>
      forall c :: c in Avoid(m, edgeLength) <==> c in m && c !in CellsAdjacentToCorners(edgeLength)
    ensures (forall c :: c in m ==> c in CellsAdjacentToCorners(edgeLength)) ==>
      Avoid(m, edgeLength) == m
  {
    var rest := AwayFromCorners(m, edgeLength);
    if exists c :: c in m && c !in CellsAdjacentToCorners(edgeLength) {
      var c :| c in m && c !in CellsAdjacentToCorners(edgeLength);
      assert c in rest;
    } else {
      assert rest.Keys == {};
    }
  }

  /** A non-empty candidate map gives a non-empty result. */
  lemma AvoidNonEmpty(m: Moves, edgeLength: int)
    requires m != map[]
    ensures Avoid(m, edgeLength) != map[]
  {
  }

  /** Filtering a second time changes nothing. */
  lemma AvoidIdempotent(m: Moves, edgeLength: int)
    ensures Avoid(Avoid(m, edgeLength), edgeLength) == Avoid(m, edgeLength)
  {
    var rest := AwayFromCorners(m, edgeLength);
    if rest != map[] {
      assert AwayFromCorners(rest, edgeLength) == rest;
    }
  }
}
