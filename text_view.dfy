/**
 * ReversiTextView: the board as text. Each row of the grid becomes one line: the row's
 * offset |row - (E - 1)| in spaces, the cells as X (BLACK), O (WHITE) or _ (NONE) separated
 * by single spaces, the same number of spaces again; lines are joined by newlines with no
 * newline at the end. E is the length of the first row.
 */
module TextView {
  import opened Wrappers
  import opened Colors
  import opened Coords
  import opened Board
  import opened Model

  /** colorToCharacter: one visible character per colour, never a space or a newline. */
  function ColorToCharacter(c: DiscColor): (s: string)
    ensures |s| == 1 && s[0] != ' ' && s[0] != '\n'
  {
    match c
    case BLACK => "X"
    case WHITE => "O"
    case NONE => "_"
  }

  /** Reading a character of the view back as a colour. */
  function CharacterToColor(ch: char): Option<DiscColor>
  {
    if ch == 'X' then Some(BLACK)
    else if ch == 'O' then Some(WHITE)
    else if ch == '_' then Some(NONE)
    else None
  }

  /** Each colour reads back as itself, so distinct colours are drawn differently. */
  lemma CharacterReadsBack(c: DiscColor)
    ensures CharacterToColor(ColorToCharacter(c)[0]) == Some(c)
  {
  }

  /** n spaces. */
  function Spaces(n: nat): (s: string)
    ensures |s| == n && forall i :: 0 <= i < n ==> s[i] == ' '
  {
    seq(n, i => ' ')
  }

  /** The parts in order, with sep between each two neighbours and nowhere else. */
  function Joined(parts: seq<string>, sep: string): string
  {
    if |parts| == 0 then ""
    else if |parts| == 1 then parts[0]
    else Joined(parts[..|parts| - 1], sep) + sep + parts[|parts| - 1]
  }

  /** The text split at every occurrence of ch (there is always at least one piece). */
  function Split(s: string, ch: char): (pieces: seq<string>)
    ensures |pieces| >= 1
  {
    if |s| == 0 then [""]
    else
      var rest := Split(s[1..], ch);
      if s[0] == ch then [""] + rest else [[s[0]] + rest[0]] + rest[1..]
  }

  /** The leading and trailing spaces of a row: its distance from the middle row. */
  function Pad(edgeLength: int, row: int): nat
  {
    Abs(row - (edgeLength - 1))
  }

  /** The characters of a row's cells, one string each. */
  function CellChars(cells: seq<DiscColor>): (chars: seq<string>)
    ensures |chars| == |cells|
  {
    seq(|cells|, i requires 0 <= i < |cells| => ColorToCharacter(cells[i]))
  }

  /** The line for one row of the grid. */
  function Line(grid: Grid, edgeLength: int, row: int): string
    requires 0 <= row < |grid|
  {
    Spaces(Pad(edgeLength, row)) + Joined(CellChars(grid[row]), " ") + Spaces(Pad(edgeLength, row))
  }

  /** All the lines, E being the length of the first row. */
  function Lines(grid: Grid): (lines: seq<string>)
    requires |grid| > 0
    ensures |lines| == |grid|
  {
    seq(|grid|, row requires 0 <= row < |grid| => Line(grid, |grid[0]|, row))
  }

  /** The whole view. */
  function Render(grid: Grid): string
    requires |grid| > 0
  {
    Joined(Lines(grid), "\n")
  }

  /** Writing a row's padding, cells and padding after some text appends the row's line. */
  lemma AppendLine(grid: Grid, row: int, before: string, after: string)
    requires 0 <= row < |grid|
    requires var pad := Spaces(Abs(row - (|grid[0]| - 1)));
      after == before + pad + Joined(CellChars(grid[row]), " ") + pad
    ensures after == before + Lines(grid)[row]
  {
    var pad := Spaces(Abs(row - (|grid[0]| - 1)));
    var cells := Joined(CellChars(grid[row]), " ");
    assert Lines(grid)[row] == pad + cells + pad;
    assert before + pad + cells + pad == before + (pad + cells + pad);
  }

  /**
   * One row of toString: the text so far is the earlier lines joined, with a newline after
   * them when there are some; appending the row's line, and a newline unless it is the last
   * row, gives the same for one more row.
   */
  lemma RenderStep(lines: seq<string>, row: int, before: string, after: string)
    requires 0 <= row < |lines|
    requires before == Joined(lines[..row], "\n") + (if 0 < row then "\n" else "")
    requires after == before + lines[row]
    ensures (if row != |lines| - 1 then after + "\n" else after)
         == Joined(lines[..row + 1], "\n") + (if 0 < row + 1 < |lines| then "\n" else "")
  {
    JoinedSnoc(lines, row, "\n");
  }

  /** Appending one more part: a separator only if something came before. */
  lemma JoinedSnoc(parts: seq<string>, k: int, sep: string)
    requires 0 <= k < |parts|
    ensures Joined(parts[..k + 1], sep) == Joined(parts[..k], sep) + (if k > 0 then sep else "") + parts[k]
  {
    assert parts[..k + 1][..k] == parts[..k];
  }

  /** Splitting where the last piece has no ch in it. */
  lemma SplitNoSeparator(s: string, ch: char)
    requires ch !in s
    ensures Split(s, ch) == [s]
  {
    if |s| > 0 {
      SplitNoSeparator(s[1..], ch);
      assert [s[0]] + s[1..] == s;
    }
  }

  /** Splitting a text with ch followed by a piece free of ch. */
  lemma {:induction false} SplitSnoc(s: string, ch: char, t: string)
    requires ch !in t
    ensures Split(s + [ch] + t, ch) == Split(s, ch) + [t]
    decreases |s|
  {
    if |s| == 0 {
      assert s + [ch] + t == [ch] + t;
      assert ([ch] + t)[1..] == t;
      SplitNoSeparator(t, ch);
    } else {
      var whole := s + [ch] + t;
      assert whole[0] == s[0];
      assert whole[1..] == s[1..] + [ch] + t;
      SplitSnoc(s[1..], ch, t);
    }
  }

  /** Splitting a join on a one-character separator gives the parts back. */
  lemma {:induction false} SplitJoined(parts: seq<string>, ch: char)
    requires |parts| >= 1 && forall i :: 0 <= i < |parts| ==> ch !in parts[i]
    ensures Split(Joined(parts, [ch]), ch) == parts
    decreases |parts|
  {
    if |parts| == 1 {
      SplitNoSeparator(parts[0], ch);
    } else {
      var init := parts[..|parts| - 1];
      SplitJoined(init, ch);
      SplitSnoc(Joined(init, [ch]), ch, parts[|parts| - 1]);
    }
  }

  /**
   * The joined cells of a non-empty row: the character of cell i at position 2i, a space
   * between each two.
   */
  lemma {:induction false} JoinedCells(cells: seq<DiscColor>)
    requires |cells| > 0
    ensures var s := Joined(CellChars(cells), " ");
      && |s| == 2 * |cells| - 1
      && (forall i :: 0 <= i < |cells| ==> s[2 * i] == ColorToCharacter(cells[i])[0])
      && (forall i :: 0 <= i < |cells| - 1 ==> s[2 * i + 1] == ' ')
      && '\n' !in s
    decreases |cells|
  {
    var n := |cells|;
    var chars := CellChars(cells);
    if n > 1 {
      var init := cells[..n - 1];
      JoinedCells(init);
      assert chars[..n - 1] == CellChars(init);
      var s0 := Joined(CellChars(init), " ");
      var s := Joined(chars, " ");
      assert s == s0 + " " + ColorToCharacter(cells[n - 1]);
      forall i | 0 <= i < n
        ensures s[2 * i] == ColorToCharacter(cells[i])[0]
      {
        if i < n - 1 {
          assert s[2 * i] == s0[2 * i] && init[i] == cells[i];
        }
      }
    }
  }

  /** No line holds a newline. */
  lemma LineHasNoNewline(grid: Grid, edgeLength: int, row: int)
    requires 0 <= row < |grid|
    ensures '\n' !in Line(grid, edgeLength, row)
  {
    if |grid[row]| > 0 {
      JoinedCells(grid[row]);
    }
  }

  /**
   * A line is the row's padding, then the row's cells readable back at every other
   * position, then the padding again.
   */
  lemma LineReadsBack(grid: Grid, edgeLength: int, row: int)
    requires 0 <= row < |grid|
    ensures var line, pad, cells := Line(grid, edgeLength, row), Pad(edgeLength, row), grid[row];
      && |line| == 2 * pad + (if |cells| == 0 then 0 else 2 * |cells| - 1)
      && line[..pad] == Spaces(pad) && line[|line| - pad..] == Spaces(pad)
      && forall col :: 0 <= col < |cells| ==> CharacterToColor(line[pad + 2 * col]) == Some(cells[col])
  {
    var line, pad, cells := Line(grid, edgeLength, row), Pad(edgeLength, row), grid[row];
    var middle := Joined(CellChars(cells), " ");
    assert line == Spaces(pad) + middle + Spaces(pad);
    assert line[..pad] == Spaces(pad);
    assert line[|line| - pad..] == Spaces(pad);
    if |cells| > 0 {
      JoinedCells(cells);
      forall col | 0 <= col < |cells|
        ensures CharacterToColor(line[pad + 2 * col]) == Some(cells[col])
      {
        assert line[pad + 2 * col] == middle[2 * col];
        CharacterReadsBack(cells[col]);
      }
    }
  }

  /** The view splits at its newlines into exactly the lines, one per row. */
  lemma RenderSplitsIntoLines(grid: Grid)
    requires |grid| > 0
    ensures Split(Render(grid), '\n') == Lines(grid)
  {
    var lines := Lines(grid);
    forall row | 0 <= row < |lines|
      ensures '\n' !in lines[row]
    {
      LineHasNoNewline(grid, |grid[0]|, row);
    }
    SplitJoined(lines, '\n');
  }

  /** On a well-shaped board of edge E every line is 4E - 3 characters wide. */
  lemma LinesAreEqualWidth(edgeLength: int, grid: Grid, row: int)
    requires WellShaped(edgeLength, grid) && 0 <= row < |grid|
    ensures |grid[0]| == edgeLength
    ensures |Line(grid, |grid[0]|, row)| == 4 * edgeLength - 3
  {
    assert |grid[0]| == RowLength(edgeLength, 0);
    assert |grid[row]| == RowLength(edgeLength, row) > 0;
    JoinedCells(grid[row]);
  }

  /** Joining three, four or five parts, written out. */
  lemma JoinedThree(a: string, b: string, c: string, sep: string)
    ensures Joined([a, b, c], sep) == a + sep + b + sep + c
  {
    assert [a, b][..1] == [a];
    assert Joined([a, b], sep) == a + sep + b;
    assert [a, b, c][..2] == [a, b];
  }

  lemma JoinedFour(a: string, b: string, c: string, d: string, sep: string)
    ensures Joined([a, b, c, d], sep) == a + sep + b + sep + c + sep + d
  {
    assert [a, b, c, d][..3] == [a, b, c];
    JoinedThree(a, b, c, sep);
  }

  lemma JoinedFive(a: string, b: string, c: string, d: string, f: string, sep: string)
    ensures Joined([a, b, c, d, f], sep) == a + sep + b + sep + c + sep + d + sep + f
  {
    assert [a, b, c, d, f][..4] == [a, b, c, d];
    JoinedFour(a, b, c, d, sep);
  }

  /** The five lines of a new board of edge length 3, as the repository's view test expects them. */
  function EdgeThreeLines(): seq<string>
  {
    ["  _ _ _  ", " _ X O _ ", "_ O _ X _", " _ X O _ ", "  _ _ _  "]
  }

  /** A line built from its padding and its cell characters. */
  lemma LineText(grid: Grid, row: int, pad: string, cells: seq<string>, text: string)
    requires 0 <= row < |grid| && pad == Spaces(Pad(|grid[0]|, row))
    requires CellChars(grid[row]) == cells && text == pad + Joined(cells, " ") + pad
    ensures Line(grid, |grid[0]|, row) == text
  {
  }

  /** Rows 0 and 4 of the new edge-3 board: three empty cells. */
  lemma EdgeThreeOuterLine(r: int)
    requires r == 0 || r == 4
    ensures Line(EdgeThreeRows(), 3, r) == "  _ _ _  "
  {
    JoinedThree("_", "_", "_", " ");
    LineText(EdgeThreeRows(), r, "  ", ["_", "_", "_"], "  _ _ _  ");
  }

  /** Rows 1 and 3 of the new edge-3 board: BLACK then WHITE between empty cells. */
  lemma EdgeThreeInnerLine(r: int)
    requires r == 1 || r == 3
    ensures Line(EdgeThreeRows(), 3, r) == " _ X O _ "
  {
    JoinedFour("_", "X", "O", "_", " ");
    LineText(EdgeThreeRows(), r, " ", ["_", "X", "O", "_"], " _ X O _ ");
  }

  /** Row 2 of the new edge-3 board: WHITE and BLACK either side of the empty centre. */
  lemma EdgeThreeMiddleLine()
    ensures Line(EdgeThreeRows(), 3, 2) == "_ O _ X _"
  {
    JoinedFive("_", "O", "_", "X", "_", " ");
    LineText(EdgeThreeRows(), 2, "", ["_", "O", "_", "X", "_"], "_ O _ X _");
  }

  /** The lines of the new edge-3 board are EdgeThreeLines. */
  lemma EdgeThreeRowsLines()
    ensures Lines(EdgeThreeRows()) == EdgeThreeLines()
  {
    var g, lines := EdgeThreeRows(), Lines(EdgeThreeRows());
    assert |g[0]| == 3;
    EdgeThreeOuterLine(0);
    EdgeThreeInnerLine(1);
    EdgeThreeMiddleLine();
    EdgeThreeInnerLine(3);
    EdgeThreeOuterLine(4);
    assert lines[0] == EdgeThreeLines()[0] && lines[1] == EdgeThreeLines()[1];
    assert lines[2] == EdgeThreeLines()[2];
    assert lines[3] == EdgeThreeLines()[3] && lines[4] == EdgeThreeLines()[4];
  }

  /** EdgeThreeLines joined by newlines. */
  lemma EdgeThreeLinesJoined()
    ensures Joined(EdgeThreeLines(), "\n") == "  _ _ _  \n _ X O _ \n_ O _ X _\n _ X O _ \n  _ _ _  "
  {
    var lines := EdgeThreeLines();
    assert lines[..2][..1] == lines[..1] && lines[..3][..2] == lines[..2];
    assert lines[..4][..3] == lines[..3] && lines[..5][..4] == lines[..4] && lines[..5] == lines;
    assert Joined(lines[..2], "\n") == "  _ _ _  \n _ X O _ ";
    assert Joined(lines[..3], "\n") == "  _ _ _  \n _ X O _ \n_ O _ X _";
    assert Joined(lines[..4], "\n") == "  _ _ _  \n _ X O _ \n_ O _ X _\n _ X O _ ";
  }

  /**
   * A new board of edge length 3 is drawn as five lines of nine characters: the six discs
   * X O / O _ X / X O around the empty centre, every other cell _.
   */
  lemma EdgeThreeOpeningText(e: int)
    requires e == 3
    ensures Render(StartingGrid(e)) == "  _ _ _  \n _ X O _ \n_ O _ X _\n _ X O _ \n  _ _ _  "
  {
    StartingGridEdgeThreeRows(e);
    EdgeThreeRowsLines();
    EdgeThreeLinesJoined();
  }

  class ReversiTextView {
    const m: ReversiModel

    constructor(m: ReversiModel)
      ensures this.m == m
    {
      this.m := m;
    }

    /** addSpaces: the view with times spaces appended (none when times is not positive). */
    static method AddSpaces(view: string, times: int) returns (r: string)
      ensures r == view + Spaces(if times > 0 then times else 0)
    {
      r := view;
      var i := 0;
      while i < times
        invariant 0 <= i && (i == 0 || i <= times)
        invariant r == view + Spaces(i)
      {
        assert Spaces(i + 1) == Spaces(i) + " ";
        r := r + " ";
        i := i + 1;
      }
      assert i == (if times > 0 then times else 0);
    }

    /**
     * The inner loop of toString: each cell of the row through getColorAt and
     * colorToCharacter, with a space after every cell but the last.
     */
    method AppendCells(view: string, row: int, width: int) returns (r: string)
      requires 0 <= row < |m.grid| && width == |m.grid[row]|
      ensures r == view + Joined(CellChars(m.grid[row]), " ")
    {
      r := view;
      ghost var chars := CellChars(m.grid[row]);
      for col := 0 to width
        invariant r == view + Joined(chars[..col], " ") + (if 0 < col < width then " " else "")
      {
        var color := m.GetColorAt(Coord(row, col));
        r := r + ColorToCharacter(color.value);
        if col != width - 1 {
          r := r + " ";
        }
        JoinedSnoc(chars, col, " ");
      }
      assert chars[..width] == chars;
    }

    /**
     * toString: read the grid once, then write each row's padding, its cells, the padding
     * again and a newline between rows. The first row must exist (its length is E).
     */
    method ToString() returns (view: string)
      requires |m.grid| > 0
      ensures view == Render(m.grid)
    {
      view := "";
      var grid := m.GetGrid();
      var edgeLength := |grid[0]|;
      var height := |grid|;
      ghost var lines := Lines(grid);
      for row := 0 to height
        invariant view == Joined(lines[..row], "\n") + (if 0 < row < height then "\n" else "")
      {
        ghost var before := view;
        view := AddSpaces(view, Abs(row - (edgeLength - 1)));
        view := AppendCells(view, row, |grid[row]|);
        view := AddSpaces(view, Abs(row - (edgeLength - 1)));
        AppendLine(grid, row, before, view);
        RenderStep(lines, row, before, view);
        if row != height - 1 {
          view := view + "\n";
        }
      }
      assert lines[..height] == lines;
    }
  }
}
