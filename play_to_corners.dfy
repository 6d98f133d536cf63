/**
 * PlayToCorners: keep only the candidate moves on a corner, unless there is none, in which
 * case the candidates are returned as they were. The removals go to a copy; the given map
 * is not changed.
 */
module PlayToCorners {
  import opened Coords
  import opened MoveMaps
  import opened StrategyUtils
  import opened Model

  /** The candidates on a corner. */
  ghost function OnCorners(m: Moves, edgeLength: int): Moves
  {
    map c | c in m && c in CornerCells(edgeLength) :: m[c]
  }

  /** The result of the filter: the corner candidates, or all of them if there are none. */
  ghost function PreferCorners(m: Moves, edgeLength: int): Moves
  {
    var corners := OnCorners(m, edgeLength);
    if corners == map[] then m else corners
  }

  /**
   * filterMoves: copy the candidates, remove from the copy each candidate that is not a
   * corner, and fall back to the original when the copy is left empty.
   */
  method FilterMoves(possibleMoves: Moves, model: ReversiModel) returns (r: Moves)
    ensures r == PreferCorners(possibleMoves, model.edgeLength)
  {
    var copyOfMoves := possibleMoves;
    var edgeLength := model.GetEdgeLength();
    var corners := CornerCells(edgeLength);
    var cells := possibleMoves.Keys;
    while cells != {}
      invariant cells <= possibleMoves.Keys
      invariant forall c :: c in copyOfMoves <==> c in possibleMoves && (c in cells || c in corners)
      invariant SubMap(copyOfMoves, possibleMoves)
      decreases |cells|
    {
      var cell :| cell in cells;
      if cell !in corners {
        copyOfMoves := copyOfMoves - {cell};
      }
      cells := cells - {cell};
    }
    assert copyOfMoves == OnCorners(possibleMoves, edgeLength);
    if copyOfMoves == map[] {
      r := possibleMoves;
    } else {
      r := copyOfMoves;
    }
  }

  /** The result is part of the candidates, with the same counts. */
  lemma PreferCornersSubMap(m: Moves, edgeLength: int)
    ensures SubMap(PreferCorners(m, edgeLength), m)
  {
  }

  /**
   * If some candidate is a corner, the result is exactly the corner candidates; otherwise
   * it is the whole candidate map.
   */
  lemma PreferCornersCases(m: Moves, edgeLength: int)
    ensures (exists c :: c in m && c in CornerCells(edgeLength)) ==>
      forall c :: c in PreferCorners(m, edgeLength) <==> c in m && c in CornerCells(edgeLength)
    ensures (forall c :: c in m ==> c !in CornerCells(edgeLength)) ==> PreferCorners(m, edgeLength) == m
  {
    var corners := OnCorners(m, edgeLength);
    if exists c :: c in m && c in CornerCells(edgeLength) {
      var c :| c in m && c in CornerCells(edgeLength);
      assert c in corners;
    } else {
      assert corners.Keys == {};
    }
  }

  /** A non-empty candidate map gives a non-empty result. */
  lemma PreferCornersNonEmpty(m: Moves, edgeLength: int)
    requires m != map[]
    ensures PreferCorners(m, edgeLength) != map[]
  {
  }

  /** Filtering a second time changes nothing. */
  lemma PreferCornersIdempotent(m: Moves, edgeLength: int)
    ensures PreferCorners(PreferCorners(m, edgeLength), edgeLength) == PreferCorners(m, edgeLength)
  {
    var corners := OnCorners(m, edgeLength);
    if corners != map[] {
      assert OnCorners(corners, edgeLength) == corners;
    }
  }
}
