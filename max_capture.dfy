/**
 * MaxCapture: keep only the candidate moves whose count is the largest. The running
 * maximum starts at 0, so when every count is negative nothing is kept.
 */
module MaxCapture {
  import opened Coords
  import opened MoveMaps

  /** The bar a move must reach: the largest count, or 0 if that is larger. */
  ghost function Threshold(m: Moves): (t: int)
    ensures t >= 0 && forall c :: c in m ==> m[c] <= t
    ensures t == 0 || exists c :: c in m && m[c] == t
  {
    if m == map[] then 0 else Max(0, MaxValue(m))
  }

  /** The moves that reach the bar, with their counts. */
  ghost function KeepMax(m: Moves): Moves
  {
    map c | c in m && m[c] >= Threshold(m) :: m[c]
  }

  /** The bar is fixed by its three defining properties. */
  lemma ThresholdUnique(m: Moves, t: int)
    requires t >= 0 && forall c :: c in m ==> m[c] <= t
    requires t == 0 || exists c :: c in m && m[c] == t
    ensures t == Threshold(m)
  {
    if t != 0 {
      MaxValueUnique(m, t);
    } else if m != map[] {
      assert MaxValue(m) <= 0;
    }
  }

  /**
   * filterMoves: one loop finds the largest count (from 0), a second walks the cells and
   * drops each one whose count is below it.
   */
  method FilterMoves(possibleMoves: Moves) returns (r: Moves)
    ensures r == KeepMax(possibleMoves)
  {
    var currentMax := 0;
    var scores := possibleMoves.Keys;
    while scores != {}
      invariant scores <= possibleMoves.Keys
      invariant currentMax >= 0
      invariant forall c :: c in possibleMoves && c !in scores ==> possibleMoves[c] <= currentMax
      invariant currentMax == 0 || exists c :: c in possibleMoves && c !in scores && possibleMoves[c] == currentMax
      decreases |scores|
    {
      var c :| c in scores;
      currentMax := Max(currentMax, possibleMoves[c]);
      scores := scores - {c};
    }
    ThresholdUnique(possibleMoves, currentMax);

    r := possibleMoves;
    var cells := possibleMoves.Keys;
    while cells != {}
      invariant cells <= possibleMoves.Keys
      invariant forall c :: c in r <==> c in possibleMoves && (c in cells || possibleMoves[c] >= currentMax)
      invariant SubMap(r, possibleMoves)
      decreases |cells|
    {
      var cell :| cell in cells;
      if r[cell] < currentMax {
        r := r - {cell};
      }
      cells := cells - {cell};
    }
  }

  /** Kept moves keep their counts and nothing is added. */
  lemma KeepMaxSubMap(m: Moves)
    ensures SubMap(KeepMax(m), m)
  {
  }

  /**
   * When some count is non-negative, the moves kept are exactly those whose count equals
   * the largest count; otherwise none is kept.
   */
  lemma KeepMaxExactly(m: Moves)
    ensures m != map[] && MaxValue(m) >= 0 ==>
      forall c :: c in KeepMax(m) <==> c in m && m[c] == MaxValue(m)
    ensures (m == map[] || MaxValue(m) < 0) ==> KeepMax(m) == map[]
  {
    if m != map[] && MaxValue(m) >= 0 {
      assert Threshold(m) == MaxValue(m);
    } else if m != map[] {
      assert Threshold(m) == 0;
      assert KeepMax(m).Keys == {};
    }
  }

  /** A non-empty map of non-negative counts (such as validMove's) stays non-empty. */
  lemma KeepMaxNonEmpty(m: Moves)
    requires m != map[] && forall c :: c in m ==> m[c] >= 0
    ensures KeepMax(m) != map[]
  {
    var c :| c in m && m[c] == MaxValue(m);
    assert c in KeepMax(m);
  }

  /** Filtering a second time changes nothing. */
  lemma KeepMaxIdempotent(m: Moves)
    ensures KeepMax(KeepMax(m)) == KeepMax(m)
  {
    var k := KeepMax(m);
    if k != map[] {
      var c :| c in k;
      ThresholdUnique(k, Threshold(m));
    }
  }
}
