/** RowColCoords: an immutable (row, column) pair compared by value. */
module Coords {

  datatype Coord = Coord(row: int, col: int)

  /** What a RowColCoords can be compared with in equals(Object). */
  datatype Value = CoordValue(coords: Coord) | OtherValue

  /** equals: another RowColCoords with the same row and column; nothing else. */
  function Equals(c: Coord, other: Value): (r: bool)
    ensures r <==> other == CoordValue(c)
  {
    match other
    case CoordValue(that) => c.row == that.row && c.col == that.col
    case OtherValue => false
  }

  /** Java int arithmetic: reduce an integer to the 32-bit two's complement range. */
  function WrapInt32(x: int): (r: int)
    ensures -0x8000_0000 <= r < 0x8000_0000
    ensures (r - x) % 0x1_0000_0000 == 0
  {
    var m := x % 0x1_0000_0000;
    if m >= 0x8000_0000 then m - 0x1_0000_0000 else m
  }

  /** hashCode: Objects.hash(row, col), that is 31 * (31 * 1 + row) + col in int arithmetic. */
  function HashCode(c: Coord): (h: int)
    ensures -0x8000_0000 <= h < 0x8000_0000
  {
    WrapInt32(31 * WrapInt32(31 + c.row) + c.col)
  }

  lemma EqualsIsValueEquality(c: Coord, d: Coord)
    ensures Equals(c, CoordValue(d)) <==> c.row == d.row && c.col == d.col
  {
  }

  lemma EqualsIsSymmetric(c: Coord, d: Coord)
    ensures Equals(c, CoordValue(d)) == Equals(d, CoordValue(c))
  {
  }

  lemma NeverEqualsOtherType(c: Coord)
    ensures !Equals(c, OtherValue)
  {
  }

  lemma EqualCoordsEqualHashes(c: Coord, d: Coord)
    requires Equals(c, CoordValue(d))
    ensures HashCode(c) == HashCode(d)
  {
  }
}
