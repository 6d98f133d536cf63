/**
 * The capture engine of ReversiModel: checkAdjacent/addToAdjacent, discsToCaptureInLine,
 * discsToCapture and the legality check of validMove, as functions of the board, the edge
 * length and the mover's colour; beside them a declarative reference (CapturesAt) of what
 * a capture line is, and the proofs that the two agree.
 */
module Capture {
  import opened Wrappers
  import opened Colors
  import opened Coords
  import opened Geometry
  import opened Board

  /** A measure that shrinks with every step of a walk that stays on the grid. */
  function Remaining(grid: Grid, c: Coord, dir: Direction): int
  {
    match dir
    case TopLeft => c.row
    case TopRight => c.row
    case BottomLeft => |grid| - c.row
    case BottomRight => |grid| - c.row
    case CenterLeft => c.col
    case CenterRight => (if 0 <= c.row < |grid| then |grid[c.row]| else 0) - c.col
  }

  /**
   * addToAdjacent over a list of directions: the neighbours of `coords` that hold the
   * opponent's colour, each with its direction, in the order of `dirs`.
   */
  function AdjacentOpposite(edgeLength: int, grid: Grid, mover: DiscColor, coords: Coord,
                            dirs: seq<Direction>): seq<(Coord, Direction)>
    requires mover != NONE
  {
    if dirs == [] then []
    else
      var modifiers := AdjacentModifier(edgeLength, dirs[0], coords);
      var cell := Coord(coords.row + modifiers.row, coords.col + modifiers.col);
      var rest := AdjacentOpposite(edgeLength, grid, mover, coords, dirs[1..]);
      match GetColorAt(grid, cell)
      case Err(_) => rest
      case Ok(colorAtCoords) => if colorAtCoords == Opponent(mover) then [(cell, dirs[0])] + rest else rest
  }

  /** checkAdjacent: the six directions, looked at in the source's order. */
  function CheckAdjacent(edgeLength: int, grid: Grid, mover: DiscColor, coords: Coord): seq<(Coord, Direction)>
    requires mover != NONE
  {
    AdjacentOpposite(edgeLength, grid, mover, coords, CheckOrder)
  }

  /**
   * discsToCaptureInLine: walk outward from currentCell collecting opponent discs in
   * tempDiscs; off the grid or on an empty cell the line is dropped, on a mover's disc it is
   * complete and the adjacent cell is added last.
   */
  function DiscsToCaptureInLine(edgeLength: int, grid: Grid, mover: DiscColor, adjacentCell: Coord,
                                currentCell: Coord, dir: Direction, tempDiscs: seq<Coord>): seq<Coord>
    requires mover != NONE
    decreases Remaining(grid, currentCell, dir)
  {
    var nextCell := NextInLine(edgeLength, currentCell, dir);
    match GetColorAt(grid, nextCell)
    case Err(_) => []
    case Ok(nextColor) =>
      if nextColor == NONE then []
      else if nextColor == mover then tempDiscs + [adjacentCell]
      // the only colour left is the opponent's: the line continues
      else DiscsToCaptureInLine(edgeLength, grid, mover, adjacentCell, nextCell, dir, tempDiscs + [nextCell])
  }

  /** The loop of discsToCapture: one walk per adjacent opponent disc, empty lines dropped. */
  function LinesFrom(edgeLength: int, grid: Grid, mover: DiscColor,
                     adjacent: seq<(Coord, Direction)>): seq<seq<Coord>>
    requires mover != NONE
  {
    if adjacent == [] then []
    else
      var cell := adjacent[0].0;
      var discsInLine := DiscsToCaptureInLine(edgeLength, grid, mover, cell, cell, adjacent[0].1, []);
      (if discsInLine != [] then [discsInLine] else []) + LinesFrom(edgeLength, grid, mover, adjacent[1..])
  }

  /**
   * One step of discsToCapture's loop: with the lines of the first i adjacent discs
   * collected, adding the i-th walk when it is non-empty collects the first i + 1.
   */
  lemma LinesFromStep(edgeLength: int, grid: Grid, mover: DiscColor, adjacent: seq<(Coord, Direction)>,
                      i: int, collected: seq<seq<Coord>>, line: seq<Coord>)
    requires mover != NONE && 0 <= i < |adjacent|
    requires collected + LinesFrom(edgeLength, grid, mover, adjacent[i..]) == LinesFrom(edgeLength, grid, mover, adjacent)
    requires line == DiscsToCaptureInLine(edgeLength, grid, mover, adjacent[i].0, adjacent[i].0, adjacent[i].1, [])
    ensures (if line != [] then collected + [line] else collected) + LinesFrom(edgeLength, grid, mover, adjacent[i + 1..])
            == LinesFrom(edgeLength, grid, mover, adjacent)
  {
    assert adjacent[i..][0] == adjacent[i];
    assert adjacent[i..][1..] == adjacent[i + 1..];
    var rest := LinesFrom(edgeLength, grid, mover, adjacent[i + 1..]);
    assert LinesFrom(edgeLength, grid, mover, adjacent[i..]) == (if line != [] then [line] else []) + rest;
    if line != [] {
      assert collected + ([line] + rest) == (collected + [line]) + rest;
    } else {
      assert [] + rest == rest;
    }
  }

  /** discsToCapture: the capture lines of a cell for the mover. */
  function DiscsToCapture(edgeLength: int, grid: Grid, mover: DiscColor, coords: Coord): seq<seq<Coord>>
    requires mover != NONE
  {
    LinesFrom(edgeLength, grid, mover, CheckAdjacent(edgeLength, grid, mover, coords))
  }

  /** validMove's result: whether the move is legal and its capture count. */
  datatype MoveCheck = MoveCheck(legal: bool, count: int)

  /**
   * The body of validMove once the state and coordinates are checked: an occupied cell is
   * (false, 0); otherwise legal iff some line is non-empty, and the count is the NUMBER OF
   * LINES (toCapture.size()), not the number of discs.
   */
  function ValidMoveAt(edgeLength: int, grid: Grid, mover: DiscColor, coords: Coord): MoveCheck
    requires mover != NONE && InBounds(grid, coords)
  {
    if At(grid, coords) != NONE then MoveCheck(false, 0)
    else
      var toCapture := DiscsToCapture(edgeLength, grid, mover, coords);
      MoveCheck(exists i :: 0 <= i < |toCapture| && toCapture[i] != [], |toCapture|)
  }

  // ---------------------------------------------------------------------------------------
  // The reference definition of a capture line

  /**
   * Placing at o captures n >= 1 discs in direction d: the cells 1..n steps away are on the
   * grid and hold the opponent's colour, and the cell n + 1 steps away holds the mover's.
   */
  ghost predicate CapturesAt(edgeLength: int, grid: Grid, mover: DiscColor, o: Coord, d: Direction, n: nat)
    requires mover != NONE
  {
    && n >= 1
    && (forall i :: 1 <= i <= n ==>
          InBounds(grid, Step(edgeLength, o, d, i)) && At(grid, Step(edgeLength, o, d, i)) == Opponent(mover))
    && InBounds(grid, Step(edgeLength, o, d, n + 1))
    && At(grid, Step(edgeLength, o, d, n + 1)) == mover
  }

  ghost predicate HasCapture(edgeLength: int, grid: Grid, mover: DiscColor, o: Coord, d: Direction)
    requires mover != NONE
  {
    exists n :: CapturesAt(edgeLength, grid, mover, o, d, n)
  }

  /** The cells of a capture of length n, in the order the walk lists them. */
  function CaptureLine(edgeLength: int, o: Coord, d: Direction, n: nat): (line: seq<Coord>)
    requires n >= 1
    ensures |line| == n
  {
    seq(n - 1, k requires 0 <= k < n - 1 => Step(edgeLength, o, d, k + 2)) + [Step(edgeLength, o, d, 1)]
  }

  /** A capture in one direction has exactly one length. */
  lemma CaptureUnique(edgeLength: int, grid: Grid, mover: DiscColor, o: Coord, d: Direction, n: nat, m: nat)
    requires mover != NONE
    requires CapturesAt(edgeLength, grid, mover, o, d, n) && CapturesAt(edgeLength, grid, mover, o, d, m)
    ensures n == m
  {
  }

  /** A line of opponent discs that runs into an empty cell or off the board captures nothing. */
  lemma BlockedLineCapturesNothing(edgeLength: int, grid: Grid, mover: DiscColor, o: Coord, d: Direction, j: nat)
    requires mover != NONE && j >= 1
    requires forall i :: 1 <= i <= j ==>
      InBounds(grid, Step(edgeLength, o, d, i)) && At(grid, Step(edgeLength, o, d, i)) == Opponent(mover)
    requires !InBounds(grid, Step(edgeLength, o, d, j + 1)) || At(grid, Step(edgeLength, o, d, j + 1)) == NONE
    ensures !HasCapture(edgeLength, grid, mover, o, d)
  {
    forall n | n >= 1 ensures !CapturesAt(edgeLength, grid, mover, o, d, n) {
      // the two runs of opponent discs first disagree at step min(n, j) + 1
      var k := if n < j then n + 1 else j + 1;
      var c := Step(edgeLength, o, d, k);
      assert 1 <= k <= n + 1 && 1 <= k <= j + 1;
    }
  }

  /** A line of opponent discs closed by the mover's disc is the capture, and the only one. */
  lemma ClosedLineCaptures(edgeLength: int, grid: Grid, mover: DiscColor, o: Coord, d: Direction, j: nat)
    requires mover != NONE && j >= 1
    requires forall i :: 1 <= i <= j ==>
      InBounds(grid, Step(edgeLength, o, d, i)) && At(grid, Step(edgeLength, o, d, i)) == Opponent(mover)
    requires InBounds(grid, Step(edgeLength, o, d, j + 1)) && At(grid, Step(edgeLength, o, d, j + 1)) == mover
    ensures CapturesAt(edgeLength, grid, mover, o, d, j)
    ensures forall n :: CapturesAt(edgeLength, grid, mover, o, d, n) ==> n == j
  {
    forall n | CapturesAt(edgeLength, grid, mover, o, d, n) ensures n == j {
      CaptureUnique(edgeLength, grid, mover, o, d, n, j);
    }
  }

  /** The cells 2..j collected so far, extended by the cell j + 1 steps away. */
  lemma CollectedStep(edgeLength: int, o: Coord, d: Direction, j: nat, temp: seq<Coord>)
    requires j >= 1 && temp == seq(j - 1, k requires 0 <= k < j - 1 => Step(edgeLength, o, d, k + 2))
    ensures temp + [Step(edgeLength, o, d, j + 1)] == seq(j, k requires 0 <= k < j => Step(edgeLength, o, d, k + 2))
  {
  }

  /** The cells 2..j collected so far, followed by the adjacent cell, are the capture line. */
  lemma CollectedLine(edgeLength: int, o: Coord, d: Direction, j: nat, temp: seq<Coord>)
    requires j >= 1 && temp == seq(j - 1, k requires 0 <= k < j - 1 => Step(edgeLength, o, d, k + 2))
    ensures temp + [Step(edgeLength, o, d, 1)] == CaptureLine(edgeLength, o, d, j)
  {
  }

  /**
   * A walk's result agrees with the reference in direction d: non-empty iff there is a
   * capture, and then exactly the capture's cells.
   */
  ghost predicate AgreesWithReference(edgeLength: int, grid: Grid, mover: DiscColor, o: Coord, d: Direction,
                                      r: seq<Coord>)
    requires mover != NONE
  {
    && (r != [] <==> HasCapture(edgeLength, grid, mover, o, d))
    && (forall n :: CapturesAt(edgeLength, grid, mover, o, d, n) ==> r == CaptureLine(edgeLength, o, d, n))
  }

  /**
   * The walk agrees with the reference: started on the adjacent cell with the cells 2..j
   * already collected, it returns a non-empty line iff a capture exists in that direction,
   * and then exactly that capture's cells.
   */
  lemma {:induction false} WalkMatchesSpec(edgeLength: int, grid: Grid, mover: DiscColor, o: Coord,
                                           d: Direction, j: nat, temp: seq<Coord>)
    requires mover != NONE && j >= 1
    requires forall i :: 1 <= i <= j ==>
      InBounds(grid, Step(edgeLength, o, d, i)) && At(grid, Step(edgeLength, o, d, i)) == Opponent(mover)
    requires temp == seq(j - 1, k requires 0 <= k < j - 1 => Step(edgeLength, o, d, k + 2))
    ensures AgreesWithReference(edgeLength, grid, mover, o, d,
              DiscsToCaptureInLine(edgeLength, grid, mover, Step(edgeLength, o, d, 1), Step(edgeLength, o, d, j), d, temp))
    decreases Remaining(grid, Step(edgeLength, o, d, j), d)
  {
    var cur := Step(edgeLength, o, d, j);
    var next := NextInLine(edgeLength, cur, d);
    assert next == Step(edgeLength, o, d, j + 1);
    var r := DiscsToCaptureInLine(edgeLength, grid, mover, Step(edgeLength, o, d, 1), cur, d, temp);
    if !InBounds(grid, next) || At(grid, next) == NONE {
      BlockedLineCapturesNothing(edgeLength, grid, mover, o, d, j);
      assert r == [];
    } else if At(grid, next) == mover {
      CollectedLine(edgeLength, o, d, j, temp);
      ClosedLineCaptures(edgeLength, grid, mover, o, d, j);
      assert r == CaptureLine(edgeLength, o, d, j);
    } else {
      var temp' := temp + [next];
      CollectedStep(edgeLength, o, d, j, temp);
      assert r == DiscsToCaptureInLine(edgeLength, grid, mover, Step(edgeLength, o, d, 1), next, d, temp');
      WalkMatchesSpec(edgeLength, grid, mover, o, d, j + 1, temp');
    }
  }

  // ---------------------------------------------------------------------------------------
  // All six directions

  ghost predicate Distinct<T>(s: seq<T>)
  {
    forall a, b :: 0 <= a < b < |s| ==> s[a] != s[b]
  }

  /** The length of the capture in a direction that has one. */
  ghost function CaptureLength(edgeLength: int, grid: Grid, mover: DiscColor, o: Coord, d: Direction): (n: nat)
    requires mover != NONE && HasCapture(edgeLength, grid, mover, o, d)
    ensures CapturesAt(edgeLength, grid, mover, o, d, n)
  {
    var n :| CapturesAt(edgeLength, grid, mover, o, d, n); n
  }

  /** The reference capture lines: one per direction of `dirs` that has a capture, in order. */
  ghost function SpecLines(edgeLength: int, grid: Grid, mover: DiscColor, o: Coord,
                           dirs: seq<Direction>): seq<seq<Coord>>
    requires mover != NONE
  {
    if dirs == [] then []
    else
      (if HasCapture(edgeLength, grid, mover, o, dirs[0])
       then [CaptureLine(edgeLength, o, dirs[0], CaptureLength(edgeLength, grid, mover, o, dirs[0]))]
       else [])
      + SpecLines(edgeLength, grid, mover, o, dirs[1..])
  }

  /** The directions of `dirs` in which placing at o captures, in order. */
  ghost function CapturingDirections(edgeLength: int, grid: Grid, mover: DiscColor, o: Coord,
                                     dirs: seq<Direction>): seq<Direction>
    requires mover != NONE
  {
    if dirs == [] then []
    else
      (if HasCapture(edgeLength, grid, mover, o, dirs[0]) then [dirs[0]] else [])
      + CapturingDirections(edgeLength, grid, mover, o, dirs[1..])
  }

  /** x is bracketed by the move at o in one of the directions `dirs`. */
  ghost predicate InCaptureOf(edgeLength: int, grid: Grid, mover: DiscColor, o: Coord,
                              dirs: seq<Direction>, x: Coord)
    requires mover != NONE
  {
    exists d, n: nat, i: nat :: d in dirs && CapturesAt(edgeLength, grid, mover, o, d, n)
                                && 1 <= i <= n && x == Step(edgeLength, o, d, i)
  }

  /**
   * The computed lines of checkAdjacent + discsToCaptureInLine over any list of directions are
   * exactly the reference lines of those directions.
   */
  lemma {:induction false} LinesMatchSpec(edgeLength: int, grid: Grid, mover: DiscColor, o: Coord,
                                          dirs: seq<Direction>)
    requires mover != NONE
    ensures LinesFrom(edgeLength, grid, mover, AdjacentOpposite(edgeLength, grid, mover, o, dirs))
         == SpecLines(edgeLength, grid, mover, o, dirs)
  {
    if dirs != [] {
      var d := dirs[0];
      var cell := NextInLine(edgeLength, o, d);
      assert cell == Step(edgeLength, o, d, 1);
      LinesMatchSpec(edgeLength, grid, mover, o, dirs[1..]);
      var ao := AdjacentOpposite(edgeLength, grid, mover, o, dirs);
      var rest := AdjacentOpposite(edgeLength, grid, mover, o, dirs[1..]);
      if InBounds(grid, cell) && At(grid, cell) == Opponent(mover) {
        assert ao == [(cell, d)] + rest;
        assert ao[1..] == rest;
        WalkMatchesSpec(edgeLength, grid, mover, o, d, 1, []);
      } else {
        assert ao == rest;
      }
    }
  }

  /** discsToCapture computes the reference lines of the six directions in checkAdjacent order. */
  lemma DiscsToCaptureSpec(edgeLength: int, grid: Grid, mover: DiscColor, o: Coord)
    requires mover != NONE
    ensures DiscsToCapture(edgeLength, grid, mover, o) == SpecLines(edgeLength, grid, mover, o, CheckOrder)
  {
    LinesMatchSpec(edgeLength, grid, mover, o, CheckOrder);
  }

  /** One non-empty line per capturing direction, and some line iff some direction captures. */
  lemma {:induction false} SpecLinesShape(edgeLength: int, grid: Grid, mover: DiscColor, o: Coord,
                                          dirs: seq<Direction>)
    requires mover != NONE
    ensures var lines := SpecLines(edgeLength, grid, mover, o, dirs);
      && |lines| == |CapturingDirections(edgeLength, grid, mover, o, dirs)|
      && (forall k :: 0 <= k < |lines| ==> lines[k] != [])
      && (lines != [] <==> exists d :: d in dirs && HasCapture(edgeLength, grid, mover, o, d))
  {
    if dirs != [] {
      SpecLinesShape(edgeLength, grid, mover, o, dirs[1..]);
      var lines := SpecLines(edgeLength, grid, mover, o, dirs);
      var tail := SpecLines(edgeLength, grid, mover, o, dirs[1..]);
      if HasCapture(edgeLength, grid, mover, o, dirs[0]) {
        assert lines[1..] == tail;
      } else {
        assert lines == tail;
        forall d | d in dirs && HasCapture(edgeLength, grid, mover, o, d) ensures d in dirs[1..] {
          assert d != dirs[0];
        }
      }
    }
  }

  /** Every direction is looked at by checkAdjacent. */
  lemma CheckOrderComplete(d: Direction)
    ensures d in CheckOrder
  {
  }

  /**
   * validMove on an empty in-bounds cell: legal iff the move captures in some direction,
   * and then the count is the number of capturing directions (at least one). An occupied
   * cell is (false, 0).
   */
  lemma ValidMoveSpec(edgeLength: int, grid: Grid, mover: DiscColor, o: Coord)
    requires mover != NONE && InBounds(grid, o)
    ensures var m := ValidMoveAt(edgeLength, grid, mover, o);
      && (m.legal <==> At(grid, o) == NONE && exists d :: HasCapture(edgeLength, grid, mover, o, d))
      && m.count == (if At(grid, o) == NONE
                     then |CapturingDirections(edgeLength, grid, mover, o, CheckOrder)| else 0)
      && (m.legal ==> m.count >= 1)
  {
    DiscsToCaptureSpec(edgeLength, grid, mover, o);
    SpecLinesShape(edgeLength, grid, mover, o, CheckOrder);
    var lines := DiscsToCapture(edgeLength, grid, mover, o);
    if At(grid, o) == NONE {
      if exists d :: HasCapture(edgeLength, grid, mover, o, d) {
        var d :| HasCapture(edgeLength, grid, mover, o, d);
        CheckOrderComplete(d);
        assert lines[0] != [];
      }
    }
  }

  // ---------------------------------------------------------------------------------------
  // The captured cells

  /** The order in which captureDiscs flips: line after line, each in the walk's order. */
  function Flatten(lines: seq<seq<Coord>>): seq<Coord>
  {
    if lines == [] then [] else lines[0] + Flatten(lines[1..])
  }

  /** x lies 1..n steps from o in direction d. */
  ghost predicate OnRay(edgeLength: int, o: Coord, d: Direction, n: nat, x: Coord)
  {
    exists i: nat :: 1 <= i <= n && x == Step(edgeLength, o, d, i)
  }

  lemma CaptureLineMembers(edgeLength: int, o: Coord, d: Direction, n: nat)
    requires n >= 1
    ensures forall x :: x in CaptureLine(edgeLength, o, d, n) <==> OnRay(edgeLength, o, d, n, x)
  {
    forall x | x in CaptureLine(edgeLength, o, d, n) ensures OnRay(edgeLength, o, d, n, x) {
      var k :| 0 <= k < n && CaptureLine(edgeLength, o, d, n)[k] == x;
      var i: nat := if k < n - 1 then k + 2 else 1;
      assert CaptureLine(edgeLength, o, d, n)[k] == Step(edgeLength, o, d, i);
    }
    forall x | OnRay(edgeLength, o, d, n, x) ensures x in CaptureLine(edgeLength, o, d, n) {
      var i: nat :| 1 <= i <= n && x == Step(edgeLength, o, d, i);
      if i == 1 {
        assert CaptureLine(edgeLength, o, d, n)[n - 1] == x;
      } else {
        assert CaptureLine(edgeLength, o, d, n)[i - 2] == x;
      }
    }
  }

  lemma CaptureLineDistinct(edgeLength: int, o: Coord, d: Direction, n: nat)
    requires n >= 1
    ensures Distinct(CaptureLine(edgeLength, o, d, n))
  {
    var line := CaptureLine(edgeLength, o, d, n);
    forall a, b | 0 <= a < b < n ensures line[a] != line[b] {
      var ia := if a < n - 1 then a + 2 else 1;
      var ib := if b < n - 1 then b + 2 else 1;
      assert line[a] == Step(edgeLength, o, d, ia);
      assert line[b] == Step(edgeLength, o, d, ib);
      if line[a] == line[b] {
        RaysDisjoint(edgeLength, o, d, ia, d, ib);
      }
    }
  }

  lemma DistinctConcat<T>(a: seq<T>, b: seq<T>)
    requires Distinct(a) && Distinct(b)
    requires forall x :: x in a ==> x !in b
    ensures Distinct(a + b)
  {
    var s := a + b;
    forall i, j | 0 <= i < j < |s| ensures s[i] != s[j] {
      if i < |a| && j >= |a| {
        assert s[i] in a && s[j] == b[j - |a|];
      } else if i >= |a| {
        assert s[i] == b[i - |a|] && s[j] == b[j - |a|];
      }
    }
  }

  /** The flipped cells of `dirs` are distinct and are the bracketed cells of `dirs`. */
  ghost predicate FlattenMatches(edgeLength: int, grid: Grid, mover: DiscColor, o: Coord, dirs: seq<Direction>)
    requires mover != NONE
  {
    && Distinct(Flatten(SpecLines(edgeLength, grid, mover, o, dirs)))
    && forall x :: x in Flatten(SpecLines(edgeLength, grid, mover, o, dirs)) <==>
                   InCaptureOf(edgeLength, grid, mover, o, dirs, x)
  }

  /** A first direction with a capture: its line, then the lines of the other directions. */
  lemma CapturedHeadMatches(edgeLength: int, grid: Grid, mover: DiscColor, o: Coord, dirs: seq<Direction>)
    requires mover != NONE && dirs != [] && dirs[0] !in dirs[1..]
    requires HasCapture(edgeLength, grid, mover, o, dirs[0])
    requires FlattenMatches(edgeLength, grid, mover, o, dirs[1..])
    ensures FlattenMatches(edgeLength, grid, mover, o, dirs)
  {
    var d := dirs[0];
    var rest := dirs[1..];
    var lines := SpecLines(edgeLength, grid, mover, o, dirs);
    var tail := Flatten(SpecLines(edgeLength, grid, mover, o, rest));
    var n := CaptureLength(edgeLength, grid, mover, o, d);
    var line := CaptureLine(edgeLength, o, d, n);
    assert lines[0] == line && lines[1..] == SpecLines(edgeLength, grid, mover, o, rest);
    assert Flatten(lines) == line + tail;
    CaptureLineMembers(edgeLength, o, d, n);
    CaptureLineDistinct(edgeLength, o, d, n);
    forall x | x in line ensures x !in tail {
      var i: nat :| 1 <= i <= n && x == Step(edgeLength, o, d, i);
      if x in tail {
        var d', n': nat, i': nat :| d' in rest && CapturesAt(edgeLength, grid, mover, o, d', n')
                                    && 1 <= i' <= n' && x == Step(edgeLength, o, d', i');
        RaysDisjoint(edgeLength, o, d, i, d', i');
      }
    }
    DistinctConcat(line, tail);
    forall x ensures x in Flatten(lines) <==> InCaptureOf(edgeLength, grid, mover, o, dirs, x) {
      if InCaptureOf(edgeLength, grid, mover, o, dirs, x) {
        var d', n': nat, i': nat :| d' in dirs && CapturesAt(edgeLength, grid, mover, o, d', n')
                                    && 1 <= i' <= n' && x == Step(edgeLength, o, d', i');
        if d' == d {
          CaptureUnique(edgeLength, grid, mover, o, d, n, n');
        } else {
          assert d' in rest;
        }
      }
    }
  }

  /** A first direction without a capture contributes nothing. */
  lemma SkippedHeadMatches(edgeLength: int, grid: Grid, mover: DiscColor, o: Coord, dirs: seq<Direction>)
    requires mover != NONE && dirs != []
    requires !HasCapture(edgeLength, grid, mover, o, dirs[0])
    requires FlattenMatches(edgeLength, grid, mover, o, dirs[1..])
    ensures FlattenMatches(edgeLength, grid, mover, o, dirs)
  {
    var rest := dirs[1..];
    assert SpecLines(edgeLength, grid, mover, o, dirs) == SpecLines(edgeLength, grid, mover, o, rest);
    forall x ensures InCaptureOf(edgeLength, grid, mover, o, dirs, x) ==> InCaptureOf(edgeLength, grid, mover, o, rest, x) {
      if InCaptureOf(edgeLength, grid, mover, o, dirs, x) {
        var d', n': nat, i': nat :| d' in dirs && CapturesAt(edgeLength, grid, mover, o, d', n')
                                    && 1 <= i' <= n' && x == Step(edgeLength, o, d', i');
        assert d' != dirs[0];
      }
    }
  }

  /**
   * The cells flipped by a move are pairwise distinct, and they are exactly the cells
   * bracketed in a direction of `dirs` (given distinct directions).
   */
  lemma {:induction false} FlattenSpecLines(edgeLength: int, grid: Grid, mover: DiscColor, o: Coord,
                                            dirs: seq<Direction>)
    requires mover != NONE && Distinct(dirs)
    ensures Distinct(Flatten(SpecLines(edgeLength, grid, mover, o, dirs)))
    ensures forall x :: x in Flatten(SpecLines(edgeLength, grid, mover, o, dirs)) <==>
                        InCaptureOf(edgeLength, grid, mover, o, dirs, x)
  {
    if dirs != [] {
      var rest := dirs[1..];
      assert Distinct(rest) by {
        forall a, b | 0 <= a < b < |rest| ensures rest[a] != rest[b] {
          assert rest[a] == dirs[a + 1] && rest[b] == dirs[b + 1];
        }
      }
      assert dirs[0] !in rest;
      FlattenSpecLines(edgeLength, grid, mover, o, rest);
      if HasCapture(edgeLength, grid, mover, o, dirs[0]) {
        CapturedHeadMatches(edgeLength, grid, mover, o, dirs);
      } else {
        SkippedHeadMatches(edgeLength, grid, mover, o, dirs);
      }
    }
  }

  /** What a move flips: distinct cells, exactly the bracketed ones, each on the grid, an opponent disc, not the placed cell. */
  lemma CapturedCells(edgeLength: int, grid: Grid, mover: DiscColor, o: Coord)
    requires mover != NONE
    ensures var flips := Flatten(DiscsToCapture(edgeLength, grid, mover, o));
      && Distinct(flips)
      && (forall x :: x in flips <==> InCaptureOf(edgeLength, grid, mover, o, CheckOrder, x))
      && (forall x :: x in flips ==> x != o && InBounds(grid, x) && At(grid, x) == Opponent(mover))
  {
    DiscsToCaptureSpec(edgeLength, grid, mover, o);
    FlattenSpecLines(edgeLength, grid, mover, o, CheckOrder);
    forall x | InCaptureOf(edgeLength, grid, mover, o, CheckOrder, x)
      ensures x != o && InBounds(grid, x) && At(grid, x) == Opponent(mover)
    {
      var d, n: nat, i: nat :| d in CheckOrder && CapturesAt(edgeLength, grid, mover, o, d, n)
                               && 1 <= i <= n && x == Step(edgeLength, o, d, i);
      StepNeverOrigin(edgeLength, o, d, i);
    }
  }

  /**
   * Placing the mover's disc on o first (as placeDiscInCell does before captureDiscs) leaves
   * the capture lines unchanged: no ray from o passes through o.
   */
  lemma LinesAfterPlacing(edgeLength: int, grid: Grid, mover: DiscColor, o: Coord)
    requires mover != NONE && InBounds(grid, o)
    ensures DiscsToCapture(edgeLength, PlaceDisc(grid, o, mover), mover, o)
         == DiscsToCapture(edgeLength, grid, mover, o)
  {
    var g := PlaceDisc(grid, o, mover);
    forall d, n: nat ensures CapturesAt(edgeLength, g, mover, o, d, n) <==> CapturesAt(edgeLength, grid, mover, o, d, n) {
      forall i: nat | i >= 1 ensures InBounds(g, Step(edgeLength, o, d, i)) <==> InBounds(grid, Step(edgeLength, o, d, i)) {
        StepNeverOrigin(edgeLength, o, d, i);
      }
      forall i: nat | i >= 1 && InBounds(grid, Step(edgeLength, o, d, i))
        ensures At(g, Step(edgeLength, o, d, i)) == At(grid, Step(edgeLength, o, d, i))
      {
        StepNeverOrigin(edgeLength, o, d, i);
      }
    }
    SameLines(edgeLength, grid, g, mover, o, CheckOrder);
    DiscsToCaptureSpec(edgeLength, grid, mover, o);
    DiscsToCaptureSpec(edgeLength, g, mover, o);
  }

  /** Two boards with the same captures from o have the same reference lines. */
  lemma {:induction false} SameLines(edgeLength: int, g1: Grid, g2: Grid, mover: DiscColor, o: Coord,
                                     dirs: seq<Direction>)
    requires mover != NONE
    requires forall d, n: nat :: CapturesAt(edgeLength, g1, mover, o, d, n) <==> CapturesAt(edgeLength, g2, mover, o, d, n)
    ensures SpecLines(edgeLength, g1, mover, o, dirs) == SpecLines(edgeLength, g2, mover, o, dirs)
  {
    if dirs != [] {
      SameLines(edgeLength, g1, g2, mover, o, dirs[1..]);
      var d := dirs[0];
      if HasCapture(edgeLength, g1, mover, o, d) {
        var n1 := CaptureLength(edgeLength, g1, mover, o, d);
        var n2 := CaptureLength(edgeLength, g2, mover, o, d);
        CaptureUnique(edgeLength, g1, mover, o, d, n1, n2);
      }
    }
  }

  lemma {:induction false} FlattenConcat(a: seq<seq<Coord>>, b: seq<seq<Coord>>)
    ensures Flatten(a + b) == Flatten(a) + Flatten(b)
    decreases |a|
  {
    if a != [] {
      assert (a + b)[1..] == a[1..] + b;
      FlattenConcat(a[1..], b);
    } else {
      assert a + b == b;
    }
  }

  /** Where the j-th cell of line i sits in the flip order. */
  lemma FlattenAt(lines: seq<seq<Coord>>, i: nat, j: nat)
    requires i < |lines| && j < |lines[i]|
    ensures Flatten(lines) == (Flatten(lines[..i]) + lines[i][..j]) + [lines[i][j]]
                              + (lines[i][j + 1..] + Flatten(lines[i + 1..]))
  {
    assert lines == lines[..i] + [lines[i]] + lines[i + 1..];
    FlattenConcat(lines[..i] + [lines[i]], lines[i + 1..]);
    FlattenConcat(lines[..i], [lines[i]]);
    assert Flatten([lines[i]]) == lines[i];
    assert lines[i] == lines[i][..j] + [lines[i][j]] + lines[i][j + 1..];
  }

  lemma FlattenPrefixStep(lines: seq<seq<Coord>>, i: nat)
    requires i < |lines|
    ensures Flatten(lines[..i + 1]) == Flatten(lines[..i]) + lines[i]
  {
    assert lines[..i + 1] == lines[..i] + [lines[i]];
    FlattenConcat(lines[..i], [lines[i]]);
    assert Flatten([lines[i]]) == lines[i];
  }

  /**
   * The j-th cell of line i is flipped after, and is distinct from, every cell flipped
   * before it.
   */
  lemma FlipOrder(lines: seq<seq<Coord>>, i: nat, j: nat)
    requires i < |lines| && j < |lines[i]| && Distinct(Flatten(lines))
    ensures lines[i][j] in Flatten(lines)
    ensures lines[i][j] !in Flatten(lines[..i]) + lines[i][..j]
    ensures Flatten(lines[..i]) + lines[i][..j + 1] == (Flatten(lines[..i]) + lines[i][..j]) + [lines[i][j]]
  {
    var a := Flatten(lines[..i]) + lines[i][..j];
    var y := lines[i][j];
    FlattenAt(lines, i, j);
    var s := Flatten(lines);
    assert s[|a|] == y;
    assert forall k :: 0 <= k < |a| ==> a[k] == s[k] && s[k] != s[|a|];
    assert lines[i][..j + 1] == lines[i][..j] + [y];
  }
}
