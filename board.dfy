/**
 * The Board class: a 9x9 grid of ints (0 for an empty square) that can be cleared,
 * indexed, printed, read from text, checked for contradictions and solved in place
 * by backtracking.  Each method is proved against the value-level definitions of the
 * Grid, Backtrack and Text modules.
 */
module Sudoku {
  import opened Grid
  import opened Backtrack
  import opened Text

  /** The first n steps of the row-and-column scan of valid() find no peer holding entry. */
  ghost predicate LineClean(g: seq<seq<int>>, row: int, col: int, entry: int, n: int)
    requires IsGrid(g) && InRange(row, col) && 0 <= n <= 9
  {
    forall i :: 0 <= i < n ==> !(g[row][i] == entry && i != col) && !(g[i][col] == entry && i != row)
  }

  /**
   * The box scan of valid(), up to box row `a0` and box column `b0`, finds entry in no
   * cell of the box of (row, col) that lies off its row and off its column.
   */
  ghost predicate BoxClean(g: seq<seq<int>>, row: int, col: int, entry: int, a0: int, b0: int)
    requires IsGrid(g) && InRange(row, col)
  {
    forall r, c ::
      (InRange(r, c) && r / 3 == row / 3 && c / 3 == col / 3 && r != row && c != col &&
       (r % 3 < a0 || (r % 3 == a0 && c % 3 < b0))) ==>
      g[r][c] != entry
  }

  /** One more cell of the box scan: the cell the scan skips or finds free extends BoxClean. */
  lemma BoxCleanNext(g: seq<seq<int>>, row: int, col: int, entry: int, a: int, b: int)
    requires IsGrid(g) && InRange(row, col) && 0 <= a < 3 && 0 <= b < 3
    requires BoxClean(g, row, col, entry, a, b)
    requires row / 3 * 3 + a == row || col / 3 * 3 + b == col || g[row / 3 * 3 + a][col / 3 * 3 + b] != entry
    ensures BoxClean(g, row, col, entry, a, b + 1)
  {
    forall r, c | InRange(r, c) && r / 3 == row / 3 && c / 3 == col / 3 && r % 3 == a && c % 3 == b
      ensures r == row / 3 * 3 + a && c == col / 3 * 3 + b
    {
    }
  }

  /** The two scans of valid() together look at exactly the peers of (row, col). */
  lemma ScansCoverPeers(g: seq<seq<int>>, row: int, col: int, entry: int)
    requires IsGrid(g) && InRange(row, col)
    ensures Placeable(g, row, col, entry) <==>
      LineClean(g, row, col, entry, 9) && BoxClean(g, row, col, entry, 3, 0)
  {
    if LineClean(g, row, col, entry, 9) && BoxClean(g, row, col, entry, 3, 0) {
      forall r, c | InRange(r, c) && Peers(row, col, r, c) ensures g[r][c] != entry {
        if r == row {
          assert !(g[row][c] == entry && c != col);
        } else if c == col {
          assert !(g[r][col] == entry && r != row);
        }
      }
    }
    if Placeable(g, row, col, entry) {
      forall i | 0 <= i < 9
        ensures !(g[row][i] == entry && i != col) && !(g[i][col] == entry && i != row)
      {
        assert i != col ==> Peers(row, col, row, i);
        assert i != row ==> Peers(row, col, i, col);
      }
    }
  }

  class Board {
    /** The cells, row by row; 0 marks an empty square. */
    const grid: array2<int>

    /** The grid array has nine rows and nine columns. */
    predicate WellFormed() {
      grid.Length0 == 9 && grid.Length1 == 9
    }

    /** The cells as a value. */
    function Cells(): (g: seq<seq<int>>)
      requires WellFormed()
      reads grid
      ensures IsGrid(g)
      ensures forall r, c :: InRange(r, c) ==> g[r][c] == grid[r, c]
    {
      seq(9, r requires 0 <= r < 9 reads grid =>
        seq(9, c requires 0 <= c < 9 reads grid => grid[r, c]))
    }

    /** An empty board: every square holds 0. */
    constructor ()
      ensures WellFormed() && fresh(grid)
      ensures Cells() == EmptyGrid()
    {
      grid := new int[9, 9];
      new;
      for row := 0 to 9
        invariant forall r, c :: 0 <= r < row && 0 <= c < 9 ==> grid[r, c] == 0
      {
        for col := 0 to 9
          invariant forall r, c :: ((0 <= r < row && 0 <= c < 9) || (r == row && 0 <= c < col)) ==> grid[r, c] == 0
        {
          grid[row, col] := 0;
        }
      }
      SameCells(Cells(), EmptyGrid());
    }

    /** A board holding the given cells. */
    constructor FromGrid(g: seq<seq<int>>)
      requires IsGrid(g)
      ensures WellFormed() && fresh(grid)
      ensures Cells() == g
    {
      grid := new int[9, 9]((r, c) requires 0 <= r < 9 && 0 <= c < 9 => g[r][c]);
      new;
      SameCells(Cells(), g);
    }

    /** Read access to one row, as the const operator[] gives it. */
    method Row(row: int) returns (r: seq<int>)
      requires WellFormed() && 0 <= row < 9
      ensures |r| == 9 && forall c :: 0 <= c < 9 ==> r[c] == grid[row, c]
    {
      r := seq(9, c requires 0 <= c < 9 reads grid => grid[row, c]);
    }

    /** A write through the row reference that the non-const operator[] hands out. */
    method SetCell(row: int, col: int, v: int)
      requires WellFormed() && InRange(row, col)
      modifies grid
      ensures Cells() == Place(old(Cells()), row, col, v)
    {
      grid[row, col] := v;
      SameCells(Cells(), Place(old(Cells()), row, col, v));
    }

    /** Empty every square. */
    method Clear()
      requires WellFormed()
      modifies grid
      ensures Cells() == EmptyGrid()
    {
      for row := 0 to 9
        invariant forall r, c :: 0 <= r < row && 0 <= c < 9 ==> grid[r, c] == 0
      {
        for col := 0 to 9
          invariant forall r, c :: ((0 <= r < row && 0 <= c < 9) || (r == row && 0 <= c < col)) ==> grid[r, c] == 0
        {
          grid[row, col] := 0;
        }
      }
      SameCells(Cells(), EmptyGrid());
    }

    /**
     * Whether `entry` may go at (row, col) of `g`: no other cell in its row, its
     * column or its 3x3 box holds it.  The cell itself is not looked at.
     */
    static method Valid(g: seq<seq<int>>, row: int, col: int, entry: int) returns (valid: bool)
      requires IsGrid(g) && InRange(row, col)
      ensures valid == Placeable(g, row, col, entry)
    {
      valid := true;
      for i := 0 to 9
        invariant valid && LineClean(g, row, col, entry, i)
      {
        if (g[row][i] == entry && i != col) || (g[i][col] == entry && i != row) {
          assert Peers(row, col, row, i) || Peers(row, col, i, col);
          valid := false;
          break;
        }
      }
      var rowGroup := row / 3;
      var colGroup := col / 3;
      for iRow := 0 to 3
        invariant valid ==> LineClean(g, row, col, entry, 9) && BoxClean(g, row, col, entry, iRow, 0)
        invariant !valid ==> !Placeable(g, row, col, entry)
      {
        if !valid { break; }
        for iCol := 0 to 3
          invariant valid ==> LineClean(g, row, col, entry, 9) && BoxClean(g, row, col, entry, iRow, iCol)
          invariant !valid ==> !Placeable(g, row, col, entry)
        {
          if colGroup * 3 + iCol == col || rowGroup * 3 + iRow == row {
            if valid { BoxCleanNext(g, row, col, entry, iRow, iCol); }
            continue;
          }
          if !valid { break; }
          if g[rowGroup * 3 + iRow][colGroup * 3 + iCol] == entry {
            assert Peers(row, col, rowGroup * 3 + iRow, colGroup * 3 + iCol);
            valid := false;
          } else {
            BoxCleanNext(g, row, col, entry, iRow, iCol);
          }
        }
      }
      ScansCoverPeers(g, row, col, entry);
    }

    /** Whether two peers of the board hold the same nonzero value. */
    method Contradictory() returns (contradictory: bool)
      requires WellFormed()
      ensures contradictory == Conflicting(Cells())
    {
      var g := Cells();
      ConflictingIffMisplaced(g);
      for row := 0 to 9
        invariant forall r, c :: 0 <= r < row && 0 <= c < 9 && g[r][c] != 0 ==> Placeable(g, r, c, g[r][c])
      {
        for col := 0 to 9
          invariant forall r, c :: ((0 <= r < row && 0 <= c < 9) || (r == row && 0 <= c < col)) && g[r][c] != 0 ==>
            Placeable(g, r, c, g[r][c])
        {
          if grid[row, col] != 0 {
            var ok := Valid(g, row, col, grid[row, col]);
            if !ok {
              return true;
            }
          }
        }
      }
      return false;
    }

    /**
     * The scan at the start of the recursive solve: the first empty cell in row-major
     * order, if there is one.
     */
    static method FindEmpty(g: seq<seq<int>>) returns (found: bool, row: int, col: int)
      requires IsGrid(g)
      ensures found == (FirstEmpty(g, 0) < 81)
      ensures found ==> InRange(row, col) && row * 9 + col == FirstEmpty(g, 0) && g[row][col] == 0
      ensures found ==> forall r, c :: InRange(r, c) && r * 9 + c < row * 9 + col ==> g[r][c] != 0
      ensures !found ==> Full(g)
    {
      row, col := 0, 0;
      found := false;
      while row < 9
        invariant 0 <= row <= 9 && !found
        invariant forall r, c :: 0 <= r < row && 0 <= c < 9 ==> g[r][c] != 0
      {
        col := 0;
        while col < 9
          invariant 0 <= col <= 9 && !found
          invariant forall c :: 0 <= c < col ==> g[row][c] != 0
        {
          if g[row][col] == 0 { found := true; }
          if found { break; }
          col := col + 1;
        }
        if found { break; }
        row := row + 1;
      }
      if found {
        FirstEmptyUnique(g, row, col);
      }
    }

    /** The assignment `m_grid = grid`: copy all 81 cells of `g` into the board. */
    method Assign(g: seq<seq<int>>)
      requires WellFormed() && IsGrid(g)
      modifies grid
      ensures Cells() == g
    {
      forall r, c | 0 <= r < 9 && 0 <= c < 9 {
        grid[r, c] := g[r][c];
      }
      SameCells(Cells(), g);
    }

    /**
     * The recursive search on a copy `g` of a grid: on success the board holds the
     * completion that the reference search returns; on failure it is left alone.
     */
    method SolveFrom(g: seq<seq<int>>) returns (solved: bool)
      requires WellFormed() && IsGrid(g)
      modifies grid
      ensures solved == Search(g).Some?
      ensures solved ==> Cells() == Search(g).value
      ensures !solved ==> unchanged(grid)
      decreases ZeroCount(g)
    {
      var found, row, col := FindEmpty(g);
      if !found {
        Assign(g);
        SearchOnFullGrid(g);
        return true;
      }
      SearchAtFirstEmpty(g, row, col);
      var cur := g;
      PlaceSame(g, row, col);
      for entry := 1 to 10
        invariant IsGrid(cur) && cur == Place(g, row, col, cur[row][col])
        invariant TryFrom(g, row, col, entry) == Search(g)
        invariant unchanged(grid)
      {
        var ok := Valid(cur, row, col, entry);
        assert ok == Placeable(g, row, col, entry) by {
          PlaceableIgnoresOwnCell(g, row, col, cur[row][col], entry);
        }
        if ok {
          ghost var prev := cur;
          cur := cur[row := cur[row][col := entry]];
          assert cur == Place(g, row, col, entry) && ZeroCount(cur) < ZeroCount(g) by {
            PlaceTwice(g, row, col, prev[row][col], entry);
            PlaceDecreasesZeroCount(g, row, col, entry);
          }
          var s := SolveFrom(cur);
          if s {
            assert Search(cur) == Search(g) by { TryFromHit(g, row, col, entry); }
            return true;
          }
        }
        assert TryFrom(g, row, col, entry + 1) == Search(g) by { TryFromMiss(g, row, col, entry); }
      }
      return false;
    }

    /**
     * Solve the board in place.  A board with a contradiction is refused; otherwise the
     * search runs, and it succeeds exactly when the board has a solution.
     */
    method Solve() returns (solved: bool)
      requires WellFormed()
      modifies grid
      ensures solved <==> !Conflicting(old(Cells())) && Solvable(old(Cells()))
      ensures solved ==> Search(old(Cells())).Some? && Cells() == Search(old(Cells())).value
      ensures solved ==> IsSolutionOf(old(Cells()), Cells())
      ensures !solved ==> unchanged(grid)
    {
      ghost var g0 := Cells();
      var contradictory := Contradictory();
      if contradictory {
        forall s ensures !IsSolutionOf(g0, s) {
          ConflictingUnsolvable(g0, s);
        }
        return false;
      }
      SearchCorrect(g0);
      solved := SolveFrom(Cells());
    }

    /** The boxed text of the board, as Board::str writes it. */
    method Str() returns (s: string)
      requires WellFormed()
      ensures s == Render(Cells())
    {
      ghost var g := Cells();
      s := "";
      for row := 0 to 9
        invariant s == Join(RenderLines(g)[..LinesBefore(row)])
      {
        ghost var before := s;
        if row == 0 { s := s + Border + "\n"; }
        var line := RowLine(row);
        s := s + line + "\n";
        if row != 0 && row != 9 - 1 && (row + 1) % 3 == 0 { s := s + Separator + "\n"; }
        if row == 9 - 1 { s := s + Border + "\n"; }
        RowStep(g, row, before, line);
      }
      assert RenderLines(g)[..13] == RenderLines(g);
    }

    /** The content line of one row, as the column loop of Board::str writes it. */
    method RowLine(row: int) returns (line: string)
      requires WellFormed() && 0 <= row < 9
      ensures line == ContentLine(Cells()[row])
    {
      ghost var cells := Cells()[row];
      line := "";
      for col := 0 to 9
        invariant line == RowText(cells, col)
      {
        CellStep(cells, col);
        if col == 0 { line := line + "| "; }
        line := line + Decimal(grid[row, col]) + " ";
        if col != 0 && (col + 1) % 3 == 0 { line := line + "| "; }
      }
    }

    /**
     * The digit loop of operator>> on one content line: white space and '|' are passed
     * over, each digit is written to the next column of row `row` of `cells`, and any
     * other character fails the read.  No other row is touched.
     */
    static method ReadRow(line: string, cells: array2<int>, row: int) returns (scan: RowScan)
      requires cells.Length0 == 9 && cells.Length1 == 9 && 0 <= row < 9
      modifies cells
      ensures scan == ScanRow(line, [])
      ensures scan.Row? ==> |scan.digits| <= 9
      ensures scan.Row? ==> forall c :: 0 <= c < |scan.digits| ==> cells[row, c] == scan.digits[c]
      ensures forall r, c :: 0 <= r < 9 && r != row && 0 <= c < 9 ==> cells[r, c] == old(cells[r, c])
    {
      ghost var ds: seq<int> := [];
      var column := 0;
      var k := 0;
      while k < |line|
        invariant 0 <= k <= |line|
        invariant column == |ds| <= 9
        invariant ScanRow(line[k..], ds) == ScanRow(line, [])
        invariant forall c :: 0 <= c < column ==> cells[row, c] == ds[c]
        invariant forall r, c :: 0 <= r < 9 && r != row && 0 <= c < 9 ==> cells[r, c] == old(cells[r, c])
      {
        var ch := line[k];
        assert line[k..][1..] == line[k + 1..];
        k := k + 1;
        // The extraction `ss >> ch` passes over white space.
        if IsSpace(ch) { continue; }
        if ch == ' ' || ch == '|' { continue; }
        if !IsDigit(ch) { return Bad; }
        // The source writes past the end of the row here.
        if column > 9 - 1 { return Overflow; }
        cells[row, column] := ch as int - '0' as int;
        ds := ds + [ch as int - '0' as int];
        column := column + 1;
      }
      assert line[k..] == [];
      var digits := seq(column, c requires 0 <= c < column reads cells => cells[row, c]);
      assert digits == ds;
      return RowScan.Row(digits);
    }

    /**
     * operator>>: read a board from the text of a stream.  Lines whose second
     * character is a dash are skipped, the first nine other lines give the rows
     * (white space and '|' are passed over, and any other character that is not a
     * digit fails the read), and whatever follows is ignored.  Only a successful read
     * replaces the cells; on any other outcome the board is left alone.
     */
    method Read(input: string) returns (r: ReadResult)
      requires WellFormed()
      modifies grid
      ensures r == ParseLines(Lines(input))
      ensures r.Parsed? ==> Cells() == r.grid
      ensures !r.Parsed? ==> unchanged(grid)
    {
      var lines := Lines(input);
      var cells := new int[9, 9];
      ghost var rows: seq<seq<int>> := [];
      var allFilled := true;
      var row := 0;
      var i := 0;
      while i < |lines|
        invariant 0 <= i <= |lines|
        invariant row == |rows| <= 9
        invariant ParseFrom(lines[i..], rows) == ParseLines(lines)
        invariant forall k :: 0 <= k < |rows| ==> |rows[k]| <= 9
        invariant forall k, c :: 0 <= k < |rows| && 0 <= c < |rows[k]| ==> cells[k, c] == rows[k][c]
        invariant allFilled == forall k :: 0 <= k < |rows| ==> |rows[k]| == 9
        invariant unchanged(grid)
      {
        var line := lines[i];
        assert lines[i..][1..] == lines[i + 1..];
        i := i + 1;
        if |line| == 0 { return EmptyLine; }
        // Skip formatting lines.
        if |line| >= 2 && line[1] == '-' { continue; }
        // Only nine content lines are read.
        if row > 9 - 1 { break; }
        var scan := ReadRow(line, cells, row);
        match scan
        case Bad => return BadCharacter;
        case Overflow => return TooManyDigits;
        case Row(ds) =>
          ghost var before := rows;
          rows := rows + [ds];
          assert forall k :: 0 <= k < |before| ==> rows[k] == before[k];
          assert rows[|before|] == ds;
          if |ds| < 9 { allFilled := false; }
          row := row + 1;
      }
      if row < 9 || !allFilled { return MissingCells; }
      var g := seq(9, r requires 0 <= r < 9 reads cells =>
        seq(9, c requires 0 <= c < 9 reads cells => cells[r, c]));
      SameCells(g, rows);
      forall r, c | 0 <= r < 9 && 0 <= c < 9 {
        grid[r, c] := cells[r, c];
      }
      SameCells(Cells(), g);
      return Parsed(g);
    }
  }

  /** How many lines of the rendering precede the content line of `row`, once row > 0. */
  function LinesBefore(row: int): int {
    if row == 0 then 0 else 1 + row + row / 3
  }

  /** Appending one cell's text to a row regroups into the three writes of the column loop. */
  lemma Regroup(t: string, first: bool, d: string, boxEnd: bool)
    ensures t + ((if first then "| " else "") + d + " " + (if boxEnd then "| " else "")) ==
      var u := (if first then t + "| " else t) + d + " ";
      if boxEnd then u + "| " else u
  {
    if first {
      assert "| " + d + " " + (if boxEnd then "| " else "") == "| " + (d + " " + (if boxEnd then "| " else ""));
    } else {
      assert "" + d == d;
    }
    if boxEnd {
      assert t + ((if first then "| " else "") + d + " " + "| ") == (if first then t + "| " else t) + d + " " + "| ";
    } else {
      assert t + ((if first then "| " else "") + d + " " + "") == (if first then t + "| " else t) + d + " ";
    }
  }

  /** The "| " after a cell: str() writes it when col != 0 && (col + 1) % 3 == 0, that is after columns 2, 5 and 8. */
  lemma CellTextShape(row: seq<int>, col: int)
    requires |row| == 9 && 0 <= col < 9
    ensures CellText(row, col) ==
      (if col == 0 then "| " else "") + Decimal(row[col]) + " " +
      (if col != 0 && (col + 1) % 3 == 0 then "| " else "")
  {
    assert (col != 0 && (col + 1) % 3 == 0) == BoxEnd(col) by {
      assert col == 0 || col == 1 || col == 2 || col == 3 || col == 4 || col == 5 || col == 6 || col == 7 || col == 8;
    }
  }

  /** One more column of a row, written the way the column loop of str() writes it. */
  lemma CellStep(row: seq<int>, col: int)
    requires |row| == 9 && 0 <= col < 9
    ensures RowText(row, col + 1) ==
      var t := (if col == 0 then RowText(row, col) + "| " else RowText(row, col)) + Decimal(row[col]) + " ";
      if col != 0 && (col + 1) % 3 == 0 then t + "| " else t
  {
    CellTextShape(row, col);
    Regroup(RowText(row, col), col == 0, Decimal(row[col]), col != 0 && (col + 1) % 3 == 0);
  }

  /**
   * One pass of the row loop of str(): the top border before row 0, the content line of
   * the row, a separator after rows 2 and 5 and the bottom border after row 8 extend the
   * lines written so far by the next lines of the rendering.
   */
  lemma RowStep(g: seq<seq<int>>, row: int, s: string, line: string)
    requires IsGrid(g) && 0 <= row < 9
    requires s == Join(RenderLines(g)[..LinesBefore(row)]) && line == ContentLine(g[row])
    ensures
      var s0 := if row == 0 then s + Border + "\n" else s;
      var s1 := s0 + line + "\n";
      var s2 := if row != 0 && row != 9 - 1 && (row + 1) % 3 == 0 then s1 + Separator + "\n" else s1;
      var s3 := if row == 9 - 1 then s2 + Border + "\n" else s2;
      s3 == Join(RenderLines(g)[..LinesBefore(row + 1)])
  {
    var ls := RenderLines(g);
    var k, sep, last := ContentIndex(row);
    var s0 := if row == 0 then s + Border + "\n" else s;
    if row == 0 {
      FrameLineAt(g, 0);
      AppendLine(ls, 0, s, Border);
    }
    assert s0 == Join(ls[..k]);
    ContentLineAt(g, k);
    AppendLine(ls, k, s0, line);
    var s1 := s0 + line + "\n";
    if sep {
      FrameLineAt(g, k + 1);
      AppendLine(ls, k + 1, s1, Separator);
    }
    if last {
      FrameLineAt(g, k + 1);
      AppendLine(ls, k + 1, s1, Border);
    }
  }

  /** Where the content line of each row sits among the 13 lines, and what follows it. */
  lemma ContentIndex(row: int) returns (k: int, sep: bool, last: bool)
    requires 0 <= row < 9
    ensures k == 1 + row + row / 3 && 0 < k < 12 && k != 4 && k != 8 && k - 1 - k / 4 == row
    ensures LinesBefore(row) == if row == 0 then 0 else k
    ensures sep == (row != 0 && row != 9 - 1 && (row + 1) % 3 == 0) && last == (row == 9 - 1)
    ensures sep ==> k + 1 == 4 || k + 1 == 8
    ensures last ==> k + 1 == 12
    ensures LinesBefore(row + 1) == if sep || last then k + 2 else k + 1
  {
    k := 1 + row + row / 3;
    sep := row != 0 && row != 9 - 1 && (row + 1) % 3 == 0;
    last := row == 9 - 1;
    assert row == 0 || row == 1 || row == 2 || row == 3 || row == 4 || row == 5 || row == 6 || row == 7 || row == 8;
  }

}
