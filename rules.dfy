/** The Sudoku rules over board values: where a digit may go, which cells
    conflict, what a solution and a completion of a puzzle are, and the
    facts the placement check, the solver and the validator rest on. */
module SudokuRules {
  import opened SudokuBoard

  /** n appears somewhere in row r (the cell being asked about included). */
  ghost predicate InRow(g: Grid, r: int, n: int)
    requires IsBoard(g) && 0 <= r < 9
  {
    exists j :: 0 <= j < 9 && g[r][j] == n
  }

  /** n appears somewhere in column c. */
  ghost predicate InColumn(g: Grid, c: int, n: int)
    requires IsBoard(g) && 0 <= c < 9
  {
    exists i :: 0 <= i < 9 && g[i][c] == n
  }

  /** n appears somewhere in the 3x3 block whose top-left corner is
      (BlockStart(r), BlockStart(c)). */
  ghost predicate InBlock(g: Grid, r: int, c: int, n: int)
    requires IsBoard(g) && InGrid(r, c)
  {
    exists i, j :: BlockStart(r) <= i < BlockStart(r) + 3 && BlockStart(c) <= j < BlockStart(c) + 3 && g[i][j] == n
  }

  /** The placement rule: n is absent from the row, the column and the
      block of (r, c). The cell (r, c) itself is part of all three. */
  ghost predicate CanPlace(g: Grid, r: int, c: int, n: int)
    requires IsBoard(g) && InGrid(r, c)
  {
    !InRow(g, r, n) && !InColumn(g, c, n) && !InBlock(g, r, c, n)
  }

  /** n appears at some other cell sharing a row, column or block with (r, c). */
  ghost predicate OccursElsewhere(g: Grid, r: int, c: int, n: int)
    requires IsBoard(g)
  {
    exists i, j :: Peer(r, c, i, j) && g[i][j] == n
  }

  /** Cell (r, c) holds a digit that some other cell of its row, column or
      block holds too. */
  ghost predicate Conflict(g: Grid, r: int, c: int)
    requires IsBoard(g) && InGrid(r, c)
  {
    g[r][c] != 0 && OccursElsewhere(g, r, c, g[r][c])
  }

  /** No filled cell conflicts with another. */
  ghost predicate ConflictFree(g: Grid)
    requires IsBoard(g)
  {
    forall i, j :: InGrid(i, j) ==> !Conflict(g, i, j)
  }

  /** A finished Sudoku: every cell holds 1..9 and nothing conflicts. */
  ghost predicate Solved(g: Grid)
    requires IsBoard(g)
  {
    (forall i, j :: InGrid(i, j) ==> 1 <= g[i][j] <= 9) && ConflictFree(g)
  }

  /** s assigns a digit 1..9 to every empty cell of g, keeps every filled
      cell of g, and has no duplicate in any row, column or block. */
  ghost predicate ValidCompletion(s: Grid, g: Grid)
  {
    IsBoard(s) && IsBoard(g) &&
    (forall i, j :: InGrid(i, j) ==> if g[i][j] == 0 then 1 <= s[i][j] <= 9 else s[i][j] == g[i][j]) &&
    ConflictFree(s)
  }

  /** Some valid completion of g exists. */
  ghost predicate Solvable(g: Grid)
    requires IsBoard(g)
  {
    exists s :: ValidCompletion(s, g)
  }

  /** What a successful search leaves behind: every filled cell of g is
      kept, and every empty cell of g now holds a digit 1..9 that no other
      cell of its row, column or block holds. */
  ghost predicate FilledFrom(f: Grid, g: Grid)
  {
    IsBoard(f) && IsBoard(g) &&
    forall i, j :: InGrid(i, j) ==>
      if g[i][j] != 0 then f[i][j] == g[i][j]
      else 1 <= f[i][j] <= 9 && !OccursElsewhere(f, i, j, f[i][j])
  }

  /** Some sound filling of g exists: what the search answers true for. */
  ghost predicate Fillable(g: Grid)
    requires IsBoard(g)
  {
    exists f :: FilledFrom(f, g)
  }

  /** Row i lies in the three rows starting at BlockStart(r) exactly when
      it has the same block start as r (likewise for columns). */
  lemma BlockRange(r: int, i: int)
    requires 0 <= r < 9 && 0 <= i < 9
    ensures BlockStart(r) <= i < BlockStart(r) + 3 <==> BlockStart(i) == BlockStart(r)
  {
  }

  /** For a cell not already holding n, the check "n is absent from the row,
      the column and the block" says exactly that no other cell sharing a
      unit with the cell holds n. */
  lemma CanPlaceIffAbsentFromPeers(g: Grid, r: int, c: int, n: int)
    requires IsBoard(g) && InGrid(r, c) && g[r][c] != n
    ensures CanPlace(g, r, c, n) <==> !OccursElsewhere(g, r, c, n)
  {
    if !CanPlace(g, r, c, n) {
      if InRow(g, r, n) {
        var j :| 0 <= j < 9 && g[r][j] == n;
        assert Peer(r, c, r, j);
      } else if InColumn(g, c, n) {
        var i :| 0 <= i < 9 && g[i][c] == n;
        assert Peer(r, c, i, c);
      } else {
        var i, j :| BlockStart(r) <= i < BlockStart(r) + 3 && BlockStart(c) <= j < BlockStart(c) + 3 && g[i][j] == n;
        BlockRange(r, i);
        BlockRange(c, j);
        assert Peer(r, c, i, j);
      }
    }
    if OccursElsewhere(g, r, c, n) {
      var i, j :| Peer(r, c, i, j) && g[i][j] == n;
      if i == r {
        assert InRow(g, r, n);
      } else if j == c {
        assert InColumn(g, c, n);
      } else {
        BlockRange(r, i);
        BlockRange(c, j);
        assert InBlock(g, r, c, n);
      }
    }
  }

  /** The validator's test for a filled cell (empty the cell, then ask
      whether its own value could be placed there) fails exactly when the
      cell conflicts with another cell. */
  lemma ScanTestIffConflict(g: Grid, r: int, c: int)
    requires IsBoard(g) && InGrid(r, c) && g[r][c] != 0
    ensures !CanPlace(Write(g, r, c, 0), r, c, g[r][c]) <==> Conflict(g, r, c)
  {
    var h := Write(g, r, c, 0);
    CanPlaceIffAbsentFromPeers(h, r, c, g[r][c]);
    if OccursElsewhere(h, r, c, g[r][c]) {
      var i, j :| Peer(r, c, i, j) && h[i][j] == g[r][c];
      assert g[i][j] == g[r][c];
    }
    if OccursElsewhere(g, r, c, g[r][c]) {
      var i, j :| Peer(r, c, i, j) && g[i][j] == g[r][c];
      assert h[i][j] == g[r][c];
    }
  }

  /** Two different cells of one row, column or block holding the same
      digit both conflict: neither is reported alone. */
  lemma DuplicatesBothConflict(g: Grid, r: int, c: int, i: int, j: int)
    requires IsBoard(g) && Peer(r, c, i, j) && g[r][c] != 0 && g[i][j] == g[r][c]
    ensures Conflict(g, r, c) && Conflict(g, i, j)
  {
    assert Peer(i, j, r, c);
  }

  /** One step of the search is sound: if placing d in the empty cell
      (r, c) passed the check, and the search of the remaining board
      filled it into f, then f is a sound filling of the board before the
      placement too. */
  lemma PlacementStepSound(g: Grid, f: Grid, r: int, c: int, d: int)
    requires IsBoard(g) && InGrid(r, c) && g[r][c] == 0 && 1 <= d <= 9
    requires CanPlace(g, r, c, d)
    requires FilledFrom(f, Write(g, r, c, d))
    ensures FilledFrom(f, g)
  {
    var h := Write(g, r, c, d);
    assert f[r][c] == d;
    CanPlaceIffAbsentFromPeers(g, r, c, d);
    forall i, j | Peer(r, c, i, j)
      ensures f[i][j] != d
    {
      if g[i][j] == 0 {
        assert h[i][j] == 0;
        assert Peer(i, j, r, c);
        assert !OccursElsewhere(f, i, j, f[i][j]);
      } else {
        assert f[i][j] == g[i][j];
      }
    }
    assert !OccursElsewhere(f, r, c, d);
  }

  /** Completeness of one step: if the board has a valid completion and
      (r, c) is empty, some digit d passes the placement check at (r, c)
      and the board with d placed still has a valid completion. */
  lemma SolvableHasFittingDigit(g: Grid, r: int, c: int)
    requires IsBoard(g) && InGrid(r, c) && g[r][c] == 0 && Solvable(g)
    ensures exists d :: 1 <= d <= 9 && CanPlace(g, r, c, d) && Solvable(Write(g, r, c, d))
  {
    var s :| ValidCompletion(s, g);
    var d := s[r][c];
    var h := Write(g, r, c, d);
    assert ValidCompletion(s, h);
    assert !Conflict(s, r, c);
    forall i, j | Peer(r, c, i, j)
      ensures g[i][j] != d
    {
      if g[i][j] != 0 {
        assert s[i][j] == g[i][j];
      }
    }
    CanPlaceIffAbsentFromPeers(g, r, c, d);
  }

  /** The search's completeness step: if g has a sound filling f and (r, c)
      is empty, the digit f puts at (r, c) passes the placement check, and
      f is a sound filling of the board with that digit placed. */
  lemma FillingHasFittingDigit(f: Grid, g: Grid, r: int, c: int)
    requires FilledFrom(f, g) && InGrid(r, c) && g[r][c] == 0
    ensures 1 <= f[r][c] <= 9 && CanPlace(g, r, c, f[r][c])
    ensures FilledFrom(f, Write(g, r, c, f[r][c]))
  {
    var d := f[r][c];
    forall i, j | Peer(r, c, i, j)
      ensures g[i][j] != d
    {
      if g[i][j] != 0 {
        assert f[i][j] == g[i][j];
      }
    }
    CanPlaceIffAbsentFromPeers(g, r, c, d);
  }

  /** A valid completion is a sound filling, so a solvable board is fillable. */
  lemma CompletionIsFilling(s: Grid, g: Grid)
    requires ValidCompletion(s, g)
    ensures FilledFrom(s, g) && Fillable(g)
  {
    forall i, j | InGrid(i, j) && g[i][j] == 0
      ensures !OccursElsewhere(s, i, j, s[i][j])
    {
      assert !Conflict(s, i, j);
    }
    assert FilledFrom(s, g);
  }

  /** If the filled cells of the puzzle g do not conflict, a sound filling
      of g conflicts nowhere, so it is a valid completion of g (and g is
      solvable); when the filled cells hold digits 0..9 it is a finished
      Sudoku. */
  lemma FillingOfConsistentPuzzleIsSolution(f: Grid, g: Grid)
    requires FilledFrom(f, g) && ConflictFree(g)
    ensures ValidCompletion(f, g) && Solvable(g)
    ensures InRange(g) ==> Solved(f)
  {
    forall r, c | InGrid(r, c)
      ensures !Conflict(f, r, c)
    {
      if g[r][c] != 0 {
        forall i, j | Peer(r, c, i, j)
          ensures f[i][j] != f[r][c]
        {
          if g[i][j] != 0 {
            assert !Conflict(g, r, c);
          } else {
            assert Peer(i, j, r, c);
            assert !OccursElsewhere(f, i, j, f[i][j]);
          }
        }
      }
    }
    assert ValidCompletion(f, g);
  }

  /** Placing a digit in an empty cell removes exactly that cell from the
      empty cells, so each recursive search has one empty cell fewer. */
  lemma PlacementRemovesOneZero(g: Grid, r: int, c: int, d: int)
    requires IsBoard(g) && InGrid(r, c) && g[r][c] == 0 && d != 0
    ensures ZeroCells(Write(g, r, c, d)) == ZeroCells(g) - {(r, c)}
    ensures |ZeroCells(Write(g, r, c, d))| == |ZeroCells(g)| - 1
  {
    var h := Write(g, r, c, d);
    assert (r, c) in ZeroCells(g);
    forall p | p in ZeroCells(h)
      ensures p in ZeroCells(g) - {(r, c)}
    {
      var i, j :| InGrid(i, j) && h[i][j] == 0 && p == (i, j);
    }
    forall p | p in ZeroCells(g) - {(r, c)}
      ensures p in ZeroCells(h)
    {
      var i, j :| InGrid(i, j) && g[i][j] == 0 && p == (i, j);
      assert h[i][j] == 0;
    }
  }
}
