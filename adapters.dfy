/**
 * AdapterUtils: conversions between this engine's (row, column) coordinates and
 * colours and the provider's cubic positions and disk states.
 */
module AdapterUtils {
  import opened Colors
  import opened Coords

  /** The provider's position: x along a row, y the row measured from the centre row. */
  datatype CubicPosn = CubicPosn(x: int, y: int)

  /** The provider's cell state. */
  datatype DiskState = EMPTY | BLACK_DISK | WHITE_DISK

  /** moveOrigin: shifts both components by E - 1, towards the centre or back to the top left. */
  function MoveOrigin(coords: Coord, edgeLength: int, toCenter: bool): (r: Coord)
    ensures toCenter ==> r == Coord(coords.row - (edgeLength - 1), coords.col - (edgeLength - 1))
    ensures !toCenter ==> r == Coord(coords.row + (edgeLength - 1), coords.col + (edgeLength - 1))
  {
    var offset := (edgeLength - 1) * (if toCenter then -1 else 1);
    Coord(coords.row + offset, coords.col + offset)
  }

  /** rowColToCubic */
  function RowColToCubic(coords: Coord, edgeLength: int): CubicPosn
  {
    var centerOrigin := MoveOrigin(coords, edgeLength, true);
    if centerOrigin.row >= 0 then CubicPosn(centerOrigin.col, centerOrigin.row)
    else CubicPosn(centerOrigin.col - centerOrigin.row, centerOrigin.row)
  }

  /** cubicToRowCol */
  function CubicToRowCol(posn: CubicPosn, edgeLength: int): Coord
  {
    var centerOriginCoords :=
      if posn.y >= 0 then Coord(posn.y, posn.x) else Coord(posn.y, posn.x + posn.y);
    MoveOrigin(centerOriginCoords, edgeLength, false)
  }

  /** colorToState */
  function ColorToState(color: DiscColor): DiskState
  {
    match color
    case WHITE => WHITE_DISK
    case BLACK => BLACK_DISK
    case NONE => EMPTY
  }

  /** stateToColor */
  function StateToColor(state: DiskState): DiscColor
  {
    match state
    case WHITE_DISK => WHITE
    case BLACK_DISK => BLACK
    case EMPTY => NONE
  }

  lemma MoveOriginRoundTrip(coords: Coord, edgeLength: int)
    ensures MoveOrigin(MoveOrigin(coords, edgeLength, true), edgeLength, false) == coords
    ensures MoveOrigin(MoveOrigin(coords, edgeLength, false), edgeLength, true) == coords
  {
  }

  /** The centre cell (E - 1, E - 1) is the cubic origin. */
  lemma CenterIsCubicOrigin(edgeLength: int)
    ensures RowColToCubic(Coord(edgeLength - 1, edgeLength - 1), edgeLength) == CubicPosn(0, 0)
    ensures CubicToRowCol(CubicPosn(0, 0), edgeLength) == Coord(edgeLength - 1, edgeLength - 1)
  {
  }

  /**
   * Rows at or below the centre map to (col - (E - 1), row - (E - 1)); rows above it
   * subtract the (negative) row offset from x.
   */
  lemma RowColToCubicFormula(coords: Coord, edgeLength: int)
    ensures var dr, dc := coords.row - (edgeLength - 1), coords.col - (edgeLength - 1);
      RowColToCubic(coords, edgeLength) == if dr >= 0 then CubicPosn(dc, dr) else CubicPosn(dc - dr, dr)
  {
  }

  lemma RowColRoundTrip(coords: Coord, edgeLength: int)
    ensures CubicToRowCol(RowColToCubic(coords, edgeLength), edgeLength) == coords
  {
  }

  lemma CubicRoundTrip(posn: CubicPosn, edgeLength: int)
    ensures RowColToCubic(CubicToRowCol(posn, edgeLength), edgeLength) == posn
  {
  }

  /** Distinct cells have distinct cubic positions. */
  lemma RowColToCubicInjective(a: Coord, b: Coord, edgeLength: int)
    requires RowColToCubic(a, edgeLength) == RowColToCubic(b, edgeLength)
    ensures a == b
  {
    RowColRoundTrip(a, edgeLength);
    RowColRoundTrip(b, edgeLength);
  }

  lemma ColorStateBijection(color: DiscColor, state: DiskState)
    ensures StateToColor(ColorToState(color)) == color
    ensures ColorToState(StateToColor(state)) == state
    ensures ColorToState(color) == state <==> StateToColor(state) == color
  {
  }
}
