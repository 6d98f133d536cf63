/**
 * The six directions around a pointy-top hexagon and the jagged-grid adjacency of
 * ReversiModel (adjacentModifier, nextInLine). The diagonal column offset depends on
 * whether a row is above, on or below the middle row E - 1.
 */
module Geometry {
  import opened Coords
  import opened AdapterUtils

  datatype Direction = TopLeft | TopRight | CenterLeft | CenterRight | BottomLeft | BottomRight

  /** The order in which checkAdjacent looks at the six neighbours. */
  const CheckOrder: seq<Direction> :=
    [CenterLeft, CenterRight, TopLeft, TopRight, BottomLeft, BottomRight]

  /** adjacentModifier: the (row, column) offset from a cell to its neighbour in a direction. */
  function AdjacentModifier(edgeLength: int, dir: Direction, coords: Coord): (m: Coord)
    ensures m.row == (if dir.TopLeft? || dir.TopRight? then -1
                      else if dir.CenterLeft? || dir.CenterRight? then 0 else 1)
    ensures -1 <= m.col <= 1 && m != Coord(0, 0)
  {
    match dir
    case TopLeft => if coords.row > edgeLength - 1 then Coord(-1, 0) else Coord(-1, -1)
    case TopRight => if coords.row <= edgeLength - 1 then Coord(-1, 0) else Coord(-1, 1)
    case CenterLeft => Coord(0, -1)
    case CenterRight => Coord(0, 1)
    case BottomLeft => if coords.row >= edgeLength - 1 then Coord(1, -1) else Coord(1, 0)
    case BottomRight => if coords.row >= edgeLength - 1 then Coord(1, 0) else Coord(1, 1)
  }

  /** nextInLine: the neighbour of a cell in a direction (no bounds check). */
  function NextInLine(edgeLength: int, cell: Coord, dir: Direction): Coord
  {
    var modifiers := AdjacentModifier(edgeLength, dir, cell);
    Coord(cell.row + modifiers.row, cell.col + modifiers.col)
  }

  /** The cell k steps from o in direction d. */
  function Step(edgeLength: int, o: Coord, d: Direction, k: nat): Coord
    decreases k
  {
    if k == 0 then o else NextInLine(edgeLength, Step(edgeLength, o, d, k - 1), d)
  }

  function Opposite(d: Direction): Direction
  {
    match d
    case TopLeft => BottomRight
    case TopRight => BottomLeft
    case CenterLeft => CenterRight
    case CenterRight => CenterLeft
    case BottomLeft => TopRight
    case BottomRight => TopLeft
  }

  /** The constant cubic displacement of one step in a direction. */
  function Offset(d: Direction): CubicPosn
  {
    match d
    case TopLeft => CubicPosn(0, -1)
    case TopRight => CubicPosn(1, -1)
    case CenterLeft => CubicPosn(-1, 0)
    case CenterRight => CubicPosn(1, 0)
    case BottomLeft => CubicPosn(-1, 1)
    case BottomRight => CubicPosn(0, 1)
  }

  /** The cubic position k steps from p in direction d. */
  function RayPoint(p: CubicPosn, d: Direction, k: int): CubicPosn
  {
    match d
    case TopLeft => CubicPosn(p.x, p.y - k)
    case TopRight => CubicPosn(p.x + k, p.y - k)
    case CenterLeft => CubicPosn(p.x - k, p.y)
    case CenterRight => CubicPosn(p.x + k, p.y)
    case BottomLeft => CubicPosn(p.x - k, p.y + k)
    case BottomRight => CubicPosn(p.x, p.y + k)
  }

  /** Opposite directions undo each other, from any cell, on either side of the middle row. */
  lemma OppositeUndoes(edgeLength: int, c: Coord, d: Direction)
    ensures NextInLine(edgeLength, NextInLine(edgeLength, c, d), Opposite(d)) == c
    ensures Opposite(Opposite(d)) == d
  {
  }

  /**
   * The jagged adjacency is a translation in the adapter's cubic coordinates: one step in
   * direction d adds Offset(d), wherever the cell is.
   */
  lemma NextInLineCubic(edgeLength: int, c: Coord, d: Direction)
    ensures RowColToCubic(NextInLine(edgeLength, c, d), edgeLength)
         == RayPoint(RowColToCubic(c, edgeLength), d, 1)
    ensures RayPoint(RowColToCubic(c, edgeLength), d, 1).x == RowColToCubic(c, edgeLength).x + Offset(d).x
    ensures RayPoint(RowColToCubic(c, edgeLength), d, 1).y == RowColToCubic(c, edgeLength).y + Offset(d).y
  {
  }

  lemma {:induction false} StepCubic(edgeLength: int, o: Coord, d: Direction, k: nat)
    ensures RowColToCubic(Step(edgeLength, o, d, k), edgeLength)
         == RayPoint(RowColToCubic(o, edgeLength), d, k)
    decreases k
  {
    if k > 0 {
      StepCubic(edgeLength, o, d, k - 1);
      NextInLineCubic(edgeLength, Step(edgeLength, o, d, k - 1), d);
    }
  }

  /** Two rays from one cell meet only where they are the same ray at the same distance. */
  lemma RaysDisjoint(edgeLength: int, o: Coord, d1: Direction, i: nat, d2: Direction, j: nat)
    requires i >= 1 && j >= 1
    requires Step(edgeLength, o, d1, i) == Step(edgeLength, o, d2, j)
    ensures d1 == d2 && i == j
  {
    StepCubic(edgeLength, o, d1, i);
    StepCubic(edgeLength, o, d2, j);
  }

  /** Walking outward never comes back to the starting cell. */
  lemma StepNeverOrigin(edgeLength: int, o: Coord, d: Direction, i: nat)
    requires i >= 1
    ensures Step(edgeLength, o, d, i) != o
  {
    StepCubic(edgeLength, o, d, i);
    assert Step(edgeLength, o, d, 0) == o;
    StepCubic(edgeLength, o, d, 0);
  }
}
