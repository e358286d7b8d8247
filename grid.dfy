/**
 * Value-level view of a Sudoku grid: nine rows of nine integers, where 0 marks an
 * empty square and any other value is a filled square.  The board's rules (which
 * cells are peers, when a value may be placed, when a grid contradicts itself and
 * what counts as a solution) are stated here once, independently of the loops in
 * the Board class that compute them.
 */
module Grid {

  /** A grid has nine rows of nine cells. */
  predicate IsGrid(g: seq<seq<int>>) {
    |g| == 9 && forall i :: 0 <= i < 9 ==> |g[i]| == 9
  }

  /** (r, c) addresses a cell of the 9x9 grid. */
  predicate InRange(r: int, c: int) {
    0 <= r < 9 && 0 <= c < 9
  }

  /** Two different cells are peers when they share a row, a column or a 3x3 box. */
  predicate Peers(r1: int, c1: int, r2: int, c2: int) {
    (r1 != r2 || c1 != c2) &&
    (r1 == r2 || c1 == c2 || (r1 / 3 == r2 / 3 && c1 / 3 == c2 / 3))
  }

  lemma PeersSymmetric(r1: int, c1: int, r2: int, c2: int)
    ensures Peers(r1, c1, r2, c2) == Peers(r2, c2, r1, c1)
  {
  }

  /** No peer of (row, col) holds `entry`; the cell itself is not looked at. */
  ghost predicate Placeable(g: seq<seq<int>>, row: int, col: int, entry: int)
    requires IsGrid(g) && InRange(row, col)
  {
    forall r, c :: InRange(r, c) && Peers(row, col, r, c) ==> g[r][c] != entry
  }

  /** Two peer cells hold the same nonzero value. */
  ghost predicate Conflicting(g: seq<seq<int>>)
    requires IsGrid(g)
  {
    exists r1, c1, r2, c2 ::
      InRange(r1, c1) && InRange(r2, c2) && Peers(r1, c1, r2, c2) &&
      g[r1][c1] != 0 && g[r1][c1] == g[r2][c2]
  }

  /** The grid with cell (row, col) set to `v` and nothing else changed. */
  function Place(g: seq<seq<int>>, row: int, col: int, v: int): (h: seq<seq<int>>)
    requires IsGrid(g) && InRange(row, col)
    ensures IsGrid(h)
    ensures h[row][col] == v
    ensures forall r, c :: InRange(r, c) && (r != row || c != col) ==> h[r][c] == g[r][c]
  {
    g[row := g[row][col := v]]
  }

  /** Writing the same cell twice keeps only the second value. */
  lemma PlaceTwice(g: seq<seq<int>>, row: int, col: int, a: int, b: int)
    requires IsGrid(g) && InRange(row, col)
    ensures Place(Place(g, row, col, a), row, col, b) == Place(g, row, col, b)
  {
    assert g[row][col := a][col := b] == g[row][col := b];
  }

  /** Placing a cell's own value back changes nothing. */
  lemma PlaceSame(g: seq<seq<int>>, row: int, col: int)
    requires IsGrid(g) && InRange(row, col)
    ensures Place(g, row, col, g[row][col]) == g
  {
    assert g[row][col := g[row][col]] == g[row];
  }

  /** Whether `entry` may go at (row, col) does not depend on what (row, col) holds. */
  lemma PlaceableIgnoresOwnCell(g: seq<seq<int>>, row: int, col: int, v: int, entry: int)
    requires IsGrid(g) && InRange(row, col)
    ensures Placeable(Place(g, row, col, v), row, col, entry) == Placeable(g, row, col, entry)
  {
  }

  /** Two grids with the same 81 cells are equal. */
  lemma SameCells(g: seq<seq<int>>, h: seq<seq<int>>)
    requires IsGrid(g) && IsGrid(h)
    requires forall r, c :: InRange(r, c) ==> g[r][c] == h[r][c]
    ensures g == h
  {
    forall r | 0 <= r < 9 ensures g[r] == h[r] {
      assert forall c :: 0 <= c < 9 ==> g[r][c] == h[r][c];
    }
  }

  /** The grid of 81 zeros. */
  function EmptyGrid(): (g: seq<seq<int>>)
    ensures IsGrid(g)
    ensures forall r, c :: InRange(r, c) ==> g[r][c] == 0
  {
    seq(9, _ => seq(9, _ => 0))
  }

  /** The cells of the grid that hold 0. */
  ghost function EmptyCells(g: seq<seq<int>>): set<(int, int)>
    requires IsGrid(g)
  {
    set r, c | 0 <= r < 9 && 0 <= c < 9 && g[r][c] == 0 :: (r, c)
  }

  /** The number of empty cells: the measure that the search decreases. */
  ghost function ZeroCount(g: seq<seq<int>>): nat
    requires IsGrid(g)
  {
    |EmptyCells(g)|
  }

  /** Filling an empty cell with a nonzero value leaves exactly one empty cell fewer. */
  lemma PlaceDecreasesZeroCount(g: seq<seq<int>>, row: int, col: int, v: int)
    requires IsGrid(g) && InRange(row, col) && g[row][col] == 0 && v != 0
    ensures ZeroCount(Place(g, row, col, v)) == ZeroCount(g) - 1
  {
    var h := Place(g, row, col, v);
    assert (row, col) in EmptyCells(g);
    assert EmptyCells(h) == EmptyCells(g) - {(row, col)} by {
      forall p | p in EmptyCells(h) ensures p in EmptyCells(g) - {(row, col)} {
        var (r, c) := p;
        assert h[r][c] == 0;
      }
      forall p | p in EmptyCells(g) - {(row, col)} ensures p in EmptyCells(h) {
        var (r, c) := p;
        assert h[r][c] == g[r][c];
      }
    }
  }

  /** Every cell is filled. */
  ghost predicate Full(g: seq<seq<int>>)
    requires IsGrid(g)
  {
    forall r, c :: InRange(r, c) ==> g[r][c] != 0
  }

  /** Every filled cell of `g` keeps its value in `s`. */
  ghost predicate Extends(g: seq<seq<int>>, s: seq<seq<int>>)
    requires IsGrid(g) && IsGrid(s)
  {
    forall r, c :: InRange(r, c) && g[r][c] != 0 ==> s[r][c] == g[r][c]
  }

  /** Every empty cell of `g` holds a digit 1..9 in `s`. */
  ghost predicate FillsWithDigits(g: seq<seq<int>>, s: seq<seq<int>>)
    requires IsGrid(g) && IsGrid(s)
  {
    forall r, c :: InRange(r, c) && g[r][c] == 0 ==> 1 <= s[r][c] <= 9
  }

  /**
   * `s` solves the puzzle `g`: it is complete, keeps every clue, puts a digit in
   * every empty square, and no two peers share a value.
   */
  ghost predicate IsSolutionOf(g: seq<seq<int>>, s: seq<seq<int>>)
    requires IsGrid(g)
  {
    IsGrid(s) && Full(s) && Extends(g, s) && FillsWithDigits(g, s) && !Conflicting(s)
  }

  /** The puzzle has at least one solution. */
  ghost predicate Solvable(g: seq<seq<int>>)
    requires IsGrid(g)
  {
    exists s :: IsSolutionOf(g, s)
  }

  /** No value occurs twice in vs. */
  ghost predicate Distinct(vs: seq<int>) {
    forall i, j :: 0 <= i < j < |vs| ==> vs[i] != vs[j]
  }

  /** A sequence without repetitions has as many distinct values as elements. */
  lemma {:induction false} DistinctCard(vs: seq<int>)
    requires Distinct(vs)
    ensures |set x | x in vs| == |vs|
    decreases |vs|
  {
    if vs != [] {
      var front := vs[..|vs| - 1];
      assert Distinct(front);
      DistinctCard(front);
      assert (set x | x in vs) == (set x | x in front) + {vs[|vs| - 1]};
      assert vs[|vs| - 1] !in front;
    }
  }

  /** Nine different digits 1..9 are all of them. */
  lemma Pigeonhole(vs: seq<int>)
    requires |vs| == 9 && Distinct(vs) && forall i :: 0 <= i < 9 ==> 1 <= vs[i] <= 9
    ensures forall d :: 1 <= d <= 9 ==> d in vs
  {
    var values := set x | x in vs;
    assert |values| == 9 by { DistinctCard(vs); }
    forall d | 1 <= d <= 9 ensures d in vs {
      AllDigits(values, d);
    }
  }

  /** Nine values among the digits 1..9 include every digit. */
  lemma AllDigits(values: set<int>, d: int)
    requires |values| == 9 && forall x :: x in values ==> 1 <= x <= 9
    requires 1 <= d <= 9
    ensures d in values
  {
    var digits := {1, 2, 3, 4, 5, 6, 7, 8, 9};
    if d !in values {
      forall x | x in values ensures x in digits - {d} {
        assert x == 1 || x == 2 || x == 3 || x == 4 || x == 5 || x == 6 || x == 7 || x == 8 || x == 9;
      }
      assert |digits - {d}| == 8 by {
        assert d in digits;
      }
      SubsetCard(values, digits - {d});
    }
  }

  lemma SubsetCard(a: set<int>, b: set<int>)
    requires a <= b
    ensures |a| <= |b|
  {
    assert b == a + (b - a);
  }

  /** The nine cells of column c, top to bottom. */
  function ColumnUnit(s: seq<seq<int>>, c: int): (u: seq<int>)
    requires IsGrid(s) && 0 <= c < 9
    ensures |u| == 9 && forall i :: 0 <= i < 9 ==> u[i] == s[i][c]
  {
    seq(9, i requires 0 <= i < 9 => s[i][c])
  }

  /** The nine cells of box b (numbered row-major), row by row. */
  function BoxUnit(s: seq<seq<int>>, b: int): (u: seq<int>)
    requires IsGrid(s) && 0 <= b < 9
    ensures |u| == 9 && forall i :: 0 <= i < 9 ==> u[i] == s[b / 3 * 3 + i / 3][b % 3 * 3 + i % 3]
  {
    seq(9, i requires 0 <= i < 9 => s[b / 3 * 3 + i / 3][b % 3 * 3 + i % 3])
  }

  /**
   * In a solution of a puzzle whose clues are digits, every row, every column and
   * every box holds each of the digits 1..9 (exactly once, as no two peers share one).
   */
  lemma SolutionUnits(g: seq<seq<int>>, s: seq<seq<int>>)
    requires IsGrid(g) && IsSolutionOf(g, s)
    requires forall r, c :: InRange(r, c) && g[r][c] != 0 ==> 1 <= g[r][c] <= 9
    ensures forall k, d :: 0 <= k < 9 && 1 <= d <= 9 ==> d in s[k] && d in ColumnUnit(s, k) && d in BoxUnit(s, k)
  {
    forall k | 0 <= k < 9
      ensures forall d :: 1 <= d <= 9 ==> d in s[k] && d in ColumnUnit(s, k) && d in BoxUnit(s, k)
    {
      UnitsDigits(g, s, k);
      UnitsDistinct(s, k);
      Pigeonhole(s[k]);
      Pigeonhole(ColumnUnit(s, k));
      Pigeonhole(BoxUnit(s, k));
    }
  }

  lemma UnitsDigits(g: seq<seq<int>>, s: seq<seq<int>>, k: int)
    requires IsGrid(g) && IsSolutionOf(g, s) && 0 <= k < 9
    requires forall r, c :: InRange(r, c) && g[r][c] != 0 ==> 1 <= g[r][c] <= 9
    ensures forall i :: 0 <= i < 9 ==> 1 <= s[k][i] <= 9 && 1 <= ColumnUnit(s, k)[i] <= 9 && 1 <= BoxUnit(s, k)[i] <= 9
  {
    forall r, c | InRange(r, c) ensures 1 <= s[r][c] <= 9 {
      if g[r][c] != 0 {
        assert s[r][c] == g[r][c];
      }
    }
    forall i | 0 <= i < 9 ensures InRange(k / 3 * 3 + i / 3, k % 3 * 3 + i % 3) {
    }
  }

  lemma UnitsDistinct(s: seq<seq<int>>, k: int)
    requires IsGrid(s) && !Conflicting(s) && Full(s) && 0 <= k < 9
    ensures Distinct(s[k]) && Distinct(ColumnUnit(s, k)) && Distinct(BoxUnit(s, k))
  {
    RowDistinct(s, k);
    ColumnDistinct(s, k);
    BoxDistinct(s, k);
  }

  lemma RowDistinct(s: seq<seq<int>>, k: int)
    requires IsGrid(s) && !Conflicting(s) && Full(s) && 0 <= k < 9
    ensures Distinct(s[k])
  {
    forall i, j | 0 <= i < j < 9 ensures s[k][i] != s[k][j] {
      NoConflictAt(s, k, i, k, j);
    }
  }

  lemma ColumnDistinct(s: seq<seq<int>>, k: int)
    requires IsGrid(s) && !Conflicting(s) && Full(s) && 0 <= k < 9
    ensures Distinct(ColumnUnit(s, k))
  {
    var u := ColumnUnit(s, k);
    forall i, j | 0 <= i < j < 9 ensures u[i] != u[j] {
      NoConflictAt(s, i, k, j, k);
    }
  }

  lemma BoxDistinct(s: seq<seq<int>>, k: int)
    requires IsGrid(s) && !Conflicting(s) && Full(s) && 0 <= k < 9
    ensures Distinct(BoxUnit(s, k))
  {
    var u := BoxUnit(s, k);
    forall i, j | 0 <= i < j < 9 ensures u[i] != u[j] {
      BoxPeers(k, i, j);
      NoConflictAt(s, k / 3 * 3 + i / 3, k % 3 * 3 + i % 3, k / 3 * 3 + j / 3, k % 3 * 3 + j % 3);
    }
  }

  /** Two different positions of box k are peer cells. */
  lemma BoxPeers(k: int, i: int, j: int)
    requires 0 <= k < 9 && 0 <= i < j < 9
    ensures InRange(k / 3 * 3 + i / 3, k % 3 * 3 + i % 3) && InRange(k / 3 * 3 + j / 3, k % 3 * 3 + j % 3)
    ensures Peers(k / 3 * 3 + i / 3, k % 3 * 3 + i % 3, k / 3 * 3 + j / 3, k % 3 * 3 + j % 3)
  {
    var r1, c1 := k / 3 * 3 + i / 3, k % 3 * 3 + i % 3;
    var r2, c2 := k / 3 * 3 + j / 3, k % 3 * 3 + j % 3;
    assert r1 / 3 == k / 3 && r2 / 3 == k / 3 && c1 / 3 == k % 3 && c2 / 3 == k % 3;
    assert r1 != r2 || c1 != c2;
  }

  /** Two peers of a full grid without conflicts hold different values. */
  lemma NoConflictAt(s: seq<seq<int>>, r1: int, c1: int, r2: int, c2: int)
    requires IsGrid(s) && !Conflicting(s) && Full(s)
    requires InRange(r1, c1) && InRange(r2, c2) && Peers(r1, c1, r2, c2)
    ensures s[r1][c1] != s[r2][c2]
  {
  }

  /** How far row r of Pattern shifts the digits 1..9: three places per row, one more per band. */
  function Shift(r: int): int
    requires 0 <= r < 9
  {
    3 * (r % 3) + r / 3
  }

  /** A completed grid: row r holds the digits 1..9 rotated by Shift(r) places. */
  function Pattern(): (s: seq<seq<int>>)
    ensures IsGrid(s)
    ensures forall r, c :: InRange(r, c) ==> s[r][c] == (Shift(r) + c) % 9 + 1
  {
    seq(9, r requires 0 <= r < 9 => seq(9, c => (Shift(r) + c) % 9 + 1))
  }

  /** The empty puzzle has a solution, so solve() on an empty board succeeds. */
  lemma EmptyGridSolvable()
    ensures Solvable(EmptyGrid())
  {
    var s := Pattern();
    PatternConsistent();
    assert Full(s) && FillsWithDigits(EmptyGrid(), s);
    assert IsSolutionOf(EmptyGrid(), s);
  }

  /** No two peers of Pattern hold the same digit. */
  lemma PatternConsistent()
    ensures !Conflicting(Pattern())
  {
    forall r1, c1, r2, c2 | InRange(r1, c1) && InRange(r2, c2) && Peers(r1, c1, r2, c2)
      ensures Pattern()[r1][c1] != Pattern()[r2][c2]
    {
      PeersDiffer(r1, c1, r2, c2);
    }
  }

  lemma PeersDiffer(r1: int, c1: int, r2: int, c2: int)
    requires InRange(r1, c1) && InRange(r2, c2) && Peers(r1, c1, r2, c2)
    ensures (Shift(r1) + c1) % 9 != (Shift(r2) + c2) % 9
  {
    if r1 == r2 {
      RotationDistinct(Shift(r1), c1, c2);
    } else {
      ShiftsApart(r1, r2);
      if c1 == c2 {
        SameColumnDistinct(Shift(r1), Shift(r2), c1);
      } else {
        SameBoxDistinct(Shift(r1), Shift(r2), c1, c2);
      }
    }
  }

  lemma RotationDistinct(a: int, c1: int, c2: int)
    requires 0 <= a < 9 && 0 <= c1 < 9 && 0 <= c2 < 9 && c1 != c2
    ensures (a + c1) % 9 != (a + c2) % 9
  {
  }

  /** The shifts of two different rows differ by 1 to 8; by 3 or 6 within one band. */
  lemma ShiftsApart(r1: int, r2: int)
    requires 0 <= r1 < 9 && 0 <= r2 < 9 && r1 != r2
    ensures 0 <= Shift(r1) < 9 && 0 <= Shift(r2) < 9 && Shift(r1) != Shift(r2)
    ensures r1 / 3 == r2 / 3 ==> Shift(r1) - Shift(r2) in {3, 6, -3, -6}
  {
  }

  lemma SameColumnDistinct(a1: int, a2: int, c: int)
    requires 0 <= a1 < 9 && 0 <= a2 < 9 && a1 != a2 && 0 <= c < 9
    ensures (a1 + c) % 9 != (a2 + c) % 9
  {
  }

  lemma SameBoxDistinct(a1: int, a2: int, c1: int, c2: int)
    requires 0 <= a1 < 9 && 0 <= a2 < 9 && a1 - a2 in {3, 6, -3, -6}
    requires 0 <= c1 < 9 && 0 <= c2 < 9 && c1 / 3 == c2 / 3
    ensures (a1 + c1) % 9 != (a2 + c2) % 9
  {
  }

  /** Placing a value no peer holds into an empty cell cannot create a conflict. */
  lemma PlacePreservesConsistency(g: seq<seq<int>>, row: int, col: int, v: int)
    requires IsGrid(g) && InRange(row, col) && g[row][col] == 0
    requires !Conflicting(g) && Placeable(g, row, col, v)
    ensures !Conflicting(Place(g, row, col, v))
  {
    var h := Place(g, row, col, v);
    forall r1, c1, r2, c2 | InRange(r1, c1) && InRange(r2, c2) && Peers(r1, c1, r2, c2) && h[r1][c1] != 0
      ensures h[r1][c1] != h[r2][c2]
    {
      PeersSymmetric(r1, c1, r2, c2);
      if r1 == row && c1 == col {
        assert h[r2][c2] == g[r2][c2];
      } else if r2 == row && c2 == col {
        assert h[r1][c1] == g[r1][c1];
      }
    }
  }

  /** A grid that contains a conflict has no solution. */
  lemma ConflictingUnsolvable(g: seq<seq<int>>, s: seq<seq<int>>)
    requires IsGrid(g) && Conflicting(g)
    ensures !IsSolutionOf(g, s)
  {
    if IsGrid(s) && Extends(g, s) {
      var r1, c1, r2, c2 :| InRange(r1, c1) && InRange(r2, c2) && Peers(r1, c1, r2, c2) &&
        g[r1][c1] != 0 && g[r1][c1] == g[r2][c2];
      assert s[r1][c1] == g[r1][c1] && s[r2][c2] == g[r2][c2];
      assert Conflicting(s);
    }
  }

  /** A conflict is a filled cell whose value could not have been placed there. */
  lemma ConflictingIffMisplaced(g: seq<seq<int>>)
    requires IsGrid(g)
    ensures Conflicting(g) <==>
      exists r, c :: InRange(r, c) && g[r][c] != 0 && !Placeable(g, r, c, g[r][c])
  {
  }
}
