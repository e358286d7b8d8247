/**
 * A functional reference for the backtracking search that Board's private, recursive
 * solve performs: take the first empty cell in row-major order, try the candidates
 * 1..9 in ascending order, keep a candidate only if no peer already holds it, and
 * return the first completion that the recursion finds.  The lemmas prove that this
 * search is sound (what it returns solves the puzzle), complete (it fails only when
 * nothing solves the puzzle) and that it returns the solution reached through the
 * smallest candidate that leads to one.
 */
module Backtrack {
  import opened Grid

  datatype Option<T> = None | Some(value: T)

  /**
   * The row-major index (row * 9 + col) of the first empty cell at index `k` or later,
   * or 81 when every such cell is filled.
   */
  function FirstEmpty(g: seq<seq<int>>, k: int): (i: int)
    requires IsGrid(g) && 0 <= k <= 81
    ensures k <= i <= 81
    ensures i < 81 ==> InRange(i / 9, i % 9) && g[i / 9][i % 9] == 0
    ensures forall r, c :: InRange(r, c) && k <= r * 9 + c < i ==> g[r][c] != 0
    decreases 81 - k
  {
    if k == 81 then 81
    else if g[k / 9][k % 9] == 0 then k
    else RowMajor(g, k); FirstEmpty(g, k + 1)
  }

  /** Index k in row-major order names the cell (k / 9, k % 9). */
  lemma RowMajor(g: seq<seq<int>>, k: int)
    requires IsGrid(g) && 0 <= k < 81
    ensures InRange(k / 9, k % 9)
    ensures forall r, c :: InRange(r, c) && r * 9 + c == k ==> g[r][c] == g[k / 9][k % 9]
  {
    forall r, c | InRange(r, c) && r * 9 + c == k ensures r == k / 9 && c == k % 9 {
    }
  }

  /** The search itself: fill the first empty cell, or succeed on a full grid. */
  ghost function Search(g: seq<seq<int>>): Option<seq<seq<int>>>
    requires IsGrid(g)
    decreases ZeroCount(g), 1
  {
    var k := FirstEmpty(g, 0);
    if k == 81 then Some(g) else TryFrom(g, k / 9, k % 9, 1)
  }

  /** Try the candidates entry..9 at the empty cell (row, col), in ascending order. */
  ghost function TryFrom(g: seq<seq<int>>, row: int, col: int, entry: int): Option<seq<seq<int>>>
    requires IsGrid(g) && InRange(row, col) && g[row][col] == 0 && 1 <= entry <= 10
    decreases ZeroCount(g), 0, 10 - entry
  {
    if entry == 10 then None
    else if Placeable(g, row, col, entry) then
      PlaceDecreasesZeroCount(g, row, col, entry);
      var found := Search(Place(g, row, col, entry));
      if found.Some? then found else TryFrom(g, row, col, entry + 1)
    else TryFrom(g, row, col, entry + 1)
  }

  /** What a successful search guarantees about its result `s` for the puzzle `g`. */
  ghost predicate SoundFor(g: seq<seq<int>>, s: seq<seq<int>>)
    requires IsGrid(g)
  {
    IsGrid(s) && Full(s) && Extends(g, s) && FillsWithDigits(g, s) &&
    (!Conflicting(g) ==> !Conflicting(s))
  }

  /** The first empty cell in row-major order is the one `FirstEmpty` finds. */
  lemma FirstEmptyUnique(g: seq<seq<int>>, row: int, col: int)
    requires IsGrid(g) && InRange(row, col) && g[row][col] == 0
    requires forall r, c :: InRange(r, c) && r * 9 + c < row * 9 + col ==> g[r][c] != 0
    ensures FirstEmpty(g, 0) == row * 9 + col
  {
    var i := FirstEmpty(g, 0);
    if i < 81 {
      var r, c := i / 9, i % 9;
      assert r * 9 + c == i && InRange(r, c) && g[r][c] == 0;
    }
  }

  /** On a grid with an empty cell, the search tries the candidates at the first one. */
  lemma SearchAtFirstEmpty(g: seq<seq<int>>, row: int, col: int)
    requires IsGrid(g) && InRange(row, col) && g[row][col] == 0
    requires forall r, c :: InRange(r, c) && r * 9 + c < row * 9 + col ==> g[r][c] != 0
    ensures Search(g) == TryFrom(g, row, col, 1)
  {
    FirstEmptyUnique(g, row, col);
    assert (row * 9 + col) / 9 == row && (row * 9 + col) % 9 == col;
  }

  /** A grid without empty cells is returned as it is. */
  lemma SearchOnFullGrid(g: seq<seq<int>>)
    requires IsGrid(g) && Full(g)
    ensures Search(g) == Some(g)
  {
  }

  /** A search that succeeds returns a full grid that keeps the clues and adds digits only. */
  lemma {:induction false} SearchSound(g: seq<seq<int>>)
    requires IsGrid(g)
    ensures Search(g).Some? ==> SoundFor(g, Search(g).value)
    decreases ZeroCount(g), 1
  {
    var k := FirstEmpty(g, 0);
    if k == 81 {
      forall r, c | InRange(r, c) ensures g[r][c] != 0 {
        assert 0 <= r * 9 + c < 81;
      }
    } else {
      TryFromSound(g, k / 9, k % 9, 1);
    }
  }

  lemma {:induction false} TryFromSound(g: seq<seq<int>>, row: int, col: int, entry: int)
    requires IsGrid(g) && InRange(row, col) && g[row][col] == 0 && 1 <= entry <= 10
    ensures TryFrom(g, row, col, entry).Some? ==> SoundFor(g, TryFrom(g, row, col, entry).value)
    decreases ZeroCount(g), 0, 10 - entry
  {
    if entry < 10 {
      if CandidateFails(g, row, col, entry) {
        TryFromMiss(g, row, col, entry);
        TryFromSound(g, row, col, entry + 1);
      } else {
        TryFromHit(g, row, col, entry);
        var h := Place(g, row, col, entry);
        PlaceDecreasesZeroCount(g, row, col, entry);
        SearchSound(h);
        StepSound(g, row, col, entry, Search(h).value);
      }
    }
  }

  /** A result that is sound for the grid with one more digit placed is sound for the grid. */
  lemma StepSound(g: seq<seq<int>>, row: int, col: int, entry: int, s: seq<seq<int>>)
    requires IsGrid(g) && InRange(row, col) && g[row][col] == 0 && 1 <= entry <= 9
    requires Placeable(g, row, col, entry)
    requires SoundFor(Place(g, row, col, entry), s)
    ensures SoundFor(g, s)
  {
    var h := Place(g, row, col, entry);
    assert s[row][col] == entry;
    if !Conflicting(g) {
      PlacePreservesConsistency(g, row, col, entry);
    }
  }

  /** Every solution of `g` makes the search succeed. */
  lemma {:induction false} SearchComplete(g: seq<seq<int>>, s: seq<seq<int>>)
    requires IsGrid(g) && IsSolutionOf(g, s)
    ensures Search(g).Some?
    decreases ZeroCount(g)
  {
    var k := FirstEmpty(g, 0);
    if k < 81 {
      var row, col := k / 9, k % 9;
      var v := s[row][col];
      forall r, c | InRange(r, c) && Peers(row, col, r, c) ensures g[r][c] != v {
        assert !(InRange(row, col) && InRange(r, c) && Peers(row, col, r, c) &&
                 s[row][col] != 0 && s[row][col] == s[r][c]);
      }
      var h := Place(g, row, col, v);
      assert IsSolutionOf(h, s);
      PlaceDecreasesZeroCount(g, row, col, v);
      SearchComplete(h, s);
      assert !CandidateFails(g, row, col, v);
      TryFromReaches(g, row, col, 1, v);
    }
  }

  /** When candidate `v` leads to a solution, trying from any smaller candidate succeeds. */
  lemma TryFromReaches(g: seq<seq<int>>, row: int, col: int, entry: int, v: int)
    requires IsGrid(g) && InRange(row, col) && g[row][col] == 0 && 1 <= entry <= v <= 9
    requires !CandidateFails(g, row, col, v)
    ensures TryFrom(g, row, col, entry).Some?
  {
    TryFromAllFail(g, row, col, entry);
  }

  /**
   * For a puzzle without conflicts, the search succeeds exactly when the puzzle has a
   * solution, and what it returns is one.
   */
  lemma SearchCorrect(g: seq<seq<int>>)
    requires IsGrid(g) && !Conflicting(g)
    ensures Search(g).Some? <==> Solvable(g)
    ensures Search(g).Some? ==> IsSolutionOf(g, Search(g).value)
  {
    SearchSound(g);
    if Search(g).Some? {
      assert IsSolutionOf(g, Search(g).value);
    }
    if Solvable(g) {
      var s :| IsSolutionOf(g, s);
      SearchComplete(g, s);
    }
  }

  /** No placeable candidate in lo..hi-1 at (row, col) leads to a solution. */
  ghost predicate CandidatesFail(g: seq<seq<int>>, row: int, col: int, lo: int, hi: int)
    requires IsGrid(g) && InRange(row, col)
  {
    forall e :: lo <= e < hi ==> CandidateFails(g, row, col, e)
  }

  /** Candidate `e` at (row, col) cannot be placed, or the search from it fails. */
  ghost predicate CandidateFails(g: seq<seq<int>>, row: int, col: int, e: int)
    requires IsGrid(g) && InRange(row, col)
  {
    Placeable(g, row, col, e) ==> Search(Place(g, row, col, e)).None?
  }

  /**
   * `s` is what the search reaches through candidate s[row][col], the smallest candidate
   * from `lo` on whose search succeeds.
   */
  ghost predicate FirstSuccess(g: seq<seq<int>>, row: int, col: int, lo: int, s: seq<seq<int>>)
    requires IsGrid(g) && InRange(row, col)
  {
    IsGrid(s) && lo <= s[row][col] <= 9 && Placeable(g, row, col, s[row][col]) &&
    Search(Place(g, row, col, s[row][col])) == Some(s) &&
    CandidatesFail(g, row, col, lo, s[row][col])
  }

  /** A candidate whose search succeeds decides TryFrom. */
  lemma TryFromHit(g: seq<seq<int>>, row: int, col: int, entry: int)
    requires IsGrid(g) && InRange(row, col) && g[row][col] == 0 && 1 <= entry <= 9
    requires !CandidateFails(g, row, col, entry)
    ensures Placeable(g, row, col, entry) && Search(Place(g, row, col, entry)).Some?
    ensures TryFrom(g, row, col, entry) == Search(Place(g, row, col, entry))
  {
  }

  /** A candidate that cannot be placed, or whose search fails, passes on to the next. */
  lemma TryFromMiss(g: seq<seq<int>>, row: int, col: int, entry: int)
    requires IsGrid(g) && InRange(row, col) && g[row][col] == 0 && 1 <= entry <= 9
    requires CandidateFails(g, row, col, entry)
    ensures TryFrom(g, row, col, entry) == TryFrom(g, row, col, entry + 1)
  {
  }

  lemma CandidatesFailExtend(g: seq<seq<int>>, row: int, col: int, lo: int, hi: int)
    requires IsGrid(g) && InRange(row, col)
    requires CandidatesFail(g, row, col, lo + 1, hi)
    requires CandidateFails(g, row, col, lo)
    ensures CandidatesFail(g, row, col, lo, hi)
  {
  }

  /** The first candidate whose search succeeds is the first success from that candidate on. */
  lemma FirstSuccessHit(g: seq<seq<int>>, row: int, col: int, entry: int)
    requires IsGrid(g) && InRange(row, col) && g[row][col] == 0 && 1 <= entry <= 9
    requires Placeable(g, row, col, entry) && Search(Place(g, row, col, entry)).Some?
    ensures FirstSuccess(g, row, col, entry, Search(Place(g, row, col, entry)).value)
  {
    var h := Place(g, row, col, entry);
    SearchSound(h);
    assert Search(h).value[row][col] == entry;
  }

  /** A failing candidate in front of the first success leaves it the first success. */
  lemma FirstSuccessMiss(g: seq<seq<int>>, row: int, col: int, entry: int, s: seq<seq<int>>)
    requires IsGrid(g) && InRange(row, col) && 1 <= entry <= 9
    requires CandidateFails(g, row, col, entry)
    requires FirstSuccess(g, row, col, entry + 1, s)
    ensures FirstSuccess(g, row, col, entry, s)
  {
    CandidatesFailExtend(g, row, col, entry, s[row][col]);
  }

  /**
   * The candidates at (row, col) are tried in ascending order and the first one whose
   * recursive search succeeds decides the result: on success with solution `s`, the
   * candidate `s[row][col]` is placeable, the search from it returns `s`, and every
   * smaller placeable candidate from `entry` on fails.
   */
  lemma {:induction false} TryFromFirstSuccess(g: seq<seq<int>>, row: int, col: int, entry: int)
    requires IsGrid(g) && InRange(row, col) && g[row][col] == 0 && 1 <= entry <= 10
    ensures TryFrom(g, row, col, entry).Some? ==> FirstSuccess(g, row, col, entry, TryFrom(g, row, col, entry).value)
    decreases 10 - entry
  {
    if entry < 10 {
      if !CandidateFails(g, row, col, entry) {
        TryFromHit(g, row, col, entry);
        FirstSuccessHit(g, row, col, entry);
      } else {
        TryFromMiss(g, row, col, entry);
        TryFromFirstSuccess(g, row, col, entry + 1);
        var r := TryFrom(g, row, col, entry + 1);
        if r.Some? {
          FirstSuccessMiss(g, row, col, entry, r.value);
        }
      }
    }
  }

  /** When trying the candidates from `entry` on fails, every placeable one among them fails. */
  lemma {:induction false} TryFromAllFail(g: seq<seq<int>>, row: int, col: int, entry: int)
    requires IsGrid(g) && InRange(row, col) && g[row][col] == 0 && 1 <= entry <= 10
    ensures TryFrom(g, row, col, entry).None? ==> CandidatesFail(g, row, col, entry, 10)
    decreases 10 - entry
  {
    if entry < 10 {
      if !CandidateFails(g, row, col, entry) {
        TryFromHit(g, row, col, entry);
      } else {
        TryFromMiss(g, row, col, entry);
        TryFromAllFail(g, row, col, entry + 1);
        if TryFrom(g, row, col, entry + 1).None? {
          CandidatesFailExtend(g, row, col, entry, 10);
        }
      }
    }
  }

  /**
   * The search decides on the first empty cell in row-major order and returns what
   * the first successful candidate there leads to.
   */
  lemma SearchDecidesFirstEmpty(g: seq<seq<int>>, row: int, col: int)
    requires IsGrid(g) && InRange(row, col) && g[row][col] == 0
    requires forall r, c :: InRange(r, c) && r * 9 + c < row * 9 + col ==> g[r][c] != 0
    ensures Search(g).Some? ==> FirstSuccess(g, row, col, 1, Search(g).value)
    ensures Search(g).None? ==> CandidatesFail(g, row, col, 1, 10)
  {
    SearchAtFirstEmpty(g, row, col);
    TryFromFirstSuccess(g, row, col, 1);
    TryFromAllFail(g, row, col, 1);
  }
}
