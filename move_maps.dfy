/**
 * The candidate-move maps the strategies pass along (Map<RowColCoords, Integer>): from a
 * cell to the count validMove gives for it. The filters take the largest or the smallest
 * value of such maps (Math.max loops, Stream.max, Math.min).
 */
module MoveMaps {
  import opened Coords

  type Moves = map<Coord, int>

  function Max(a: int, b: int): int { if a < b then b else a }

  function Min(a: int, b: int): int { if a < b then a else b }

  /** The largest value of a non-empty map. */
  ghost function MaxValue(m: Moves): (v: int)
    requires m != map[]
    ensures exists c :: c in m && m[c] == v
    ensures forall c :: c in m ==> m[c] <= v
    decreases |m|
  {
    assert m.Keys != {};
    var c :| c in m;
    var rest := m - {c};
    assert rest.Keys == m.Keys - {c};
    assert forall d :: d in m ==> d == c || d in rest;
    if rest == map[] then m[c] else Max(m[c], MaxValue(rest))
  }

  /** The smallest value of a non-empty map. */
  ghost function MinValue(m: Moves): (v: int)
    requires m != map[]
    ensures exists c :: c in m && m[c] == v
    ensures forall c :: c in m ==> v <= m[c]
    decreases |m|
  {
    assert m.Keys != {};
    var c :| c in m;
    var rest := m - {c};
    assert rest.Keys == m.Keys - {c};
    assert forall d :: d in m ==> d == c || d in rest;
    if rest == map[] then m[c] else Min(m[c], MinValue(rest))
  }

  /** A value that is attained and bounds every value from above is the maximum. */
  lemma MaxValueUnique(m: Moves, v: int)
    requires exists c :: c in m && m[c] == v
    requires forall c :: c in m ==> m[c] <= v
    ensures m != map[] && MaxValue(m) == v
  {
    var c :| c in m && m[c] == v;
    assert c in m.Keys;
  }

  /** A value that is attained and bounds every value from below is the minimum. */
  lemma MinValueUnique(m: Moves, v: int)
    requires exists c :: c in m && m[c] == v
    requires forall c :: c in m ==> v <= m[c]
    ensures m != map[] && MinValue(m) == v
  {
    var c :| c in m && m[c] == v;
    assert c in m.Keys;
  }

  /** Every entry of `r` is an entry of `m` with the same value. */
  ghost predicate SubMap(r: Moves, m: Moves)
  {
    forall c :: c in r ==> c in m && r[c] == m[c]
  }
}
