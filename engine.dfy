/** The constraint engine of the Sudoku window: the placement check, the
    backtracking solver that works in place on the board, and the scan
    that flags conflicting cells. The board is a 9x9 array of ints. */
module SudokuEngine {
  import opened SudokuBoard
  import opened SudokuRules

  /** Whether n may be placed at (row, col): scans the row, then the column,
      then the 3x3 block, and answers false at the first cell holding n.
      The cell (row, col) itself is among the cells scanned. */
  method IsValidMove(a: array2<int>, row: int, col: int, n: int) returns (ok: bool)
    requires a.Length0 == 9 && a.Length1 == 9 && InGrid(row, col)
    ensures ok == CanPlace(Snapshot(a), row, col, n)
    ensures a[row, col] == n ==> !ok
  {
    ghost var g := Snapshot(a);
    for j := 0 to 9
      invariant forall k :: 0 <= k < j ==> a[row, k] != n
    {
      if a[row, j] == n {
        assert g[row][j] == n;
        return false;
      }
    }
    for i := 0 to 9
      invariant forall k :: 0 <= k < i ==> a[k, col] != n
    {
      if a[i, col] == n {
        assert g[i][col] == n;
        return false;
      }
    }
    var startRow := (row / 3) * 3;
    var startCol := (col / 3) * 3;
    for i := startRow to startRow + 3
      invariant forall k, l :: startRow <= k < i && startCol <= l < startCol + 3 ==> a[k, l] != n
    {
      for j := startCol to startCol + 3
        invariant forall l :: startCol <= l < j ==> a[i, l] != n
      {
        if a[i, j] == n {
          assert g[i][j] == n;
          return false;
        }
      }
    }
    return true;
  }

  /** Backtracking search in place: finds the first empty cell in row-major
      order and lets TryDigits fill it; answers true when no empty cell is
      left. */
  method Solve(a: array2<int>) returns (solved: bool)
    requires a.Length0 == 9 && a.Length1 == 9
    modifies a
    decreases ZeroCells(Snapshot(a)), 2
    ensures solved ==> NoZeros(Snapshot(a)) && FilledFrom(Snapshot(a), old(Snapshot(a)))
    ensures !solved ==> Snapshot(a) == old(Snapshot(a))
    ensures solved <==> Fillable(old(Snapshot(a)))
    ensures Solvable(old(Snapshot(a))) ==> solved
    ensures NoZeros(old(Snapshot(a))) ==> solved && Snapshot(a) == old(Snapshot(a))
  {
    ghost var g := Snapshot(a);
    if Solvable(g) {
      var s :| ValidCompletion(s, g);
      CompletionIsFilling(s, g);
    }
    for row := 0 to 9
      invariant Snapshot(a) == g
      invariant forall i, j :: 0 <= i < row && 0 <= j < 9 ==> g[i][j] != 0
    {
      for col := 0 to 9
        invariant Snapshot(a) == g
        invariant forall j :: 0 <= j < col ==> g[row][j] != 0
      {
        if a[row, col] == 0 {
          assert g[row][col] == 0;
          solved := TryDigits(a, row, col);
          return;
        }
      }
    }
    return true;
  }

  /** The search step at the empty cell (row, col): tries 1..9 in ascending
      order and hands each digit that passes the check to PlaceAndSearch,
      answering true as soon as that succeeds. Answers false, with the
      board as on entry, when no digit leads to a solution. */
  method TryDigits(a: array2<int>, row: int, col: int) returns (solved: bool)
    requires a.Length0 == 9 && a.Length1 == 9 && InGrid(row, col) && a[row, col] == 0
    modifies a
    decreases ZeroCells(Snapshot(a)), 1
    ensures solved ==> FilledFrom(Snapshot(a), old(Snapshot(a)))
    ensures !solved ==> Snapshot(a) == old(Snapshot(a)) && !Fillable(old(Snapshot(a)))
  {
    ghost var g := Snapshot(a);
    for n := 1 to 10
      invariant Snapshot(a) == g
      invariant forall d :: 1 <= d < n ==> !(CanPlace(g, row, col, d) && Fillable(Write(g, row, col, d)))
    {
      var ok := IsValidMove(a, row, col, n);
      if ok {
        var done := PlaceAndSearch(a, row, col, n);
        if done {
          return true;
        }
      }
    }
    if Fillable(g) {
      var f :| FilledFrom(f, g);
      FillingHasFittingDigit(f, g, row, col);
    }
    return false;
  }

  /** Places n at the empty cell (row, col) and searches the rest of the
      board; when that search fails, empties the cell again. */
  method PlaceAndSearch(a: array2<int>, row: int, col: int, n: int) returns (solved: bool)
    requires a.Length0 == 9 && a.Length1 == 9 && InGrid(row, col) && a[row, col] == 0
    requires 1 <= n <= 9 && CanPlace(Snapshot(a), row, col, n)
    modifies a
    decreases ZeroCells(Snapshot(a)), 0
    ensures solved ==> FilledFrom(Snapshot(a), old(Snapshot(a)))
    ensures !solved ==> Snapshot(a) == old(Snapshot(a)) && !Fillable(Write(old(Snapshot(a)), row, col, n))
  {
    ghost var g := Snapshot(a);
    a[row, col] := n;
    BoardsEqual(Snapshot(a), Write(g, row, col, n));
    PlacementRemovesOneZero(g, row, col, n);
    solved := Solve(a);
    if solved {
      PlacementStepSound(g, Snapshot(a), row, col, n);
    } else {
      a[row, col] := 0;
      BoardsEqual(Snapshot(a), g);
    }
  }

  /** The conflict scan: for every filled cell, empties it, asks the
      placement check about the cell's own value, flags the cell when the
      check fails, and puts the value back. Answers the flagged cells and
      whether any cell was flagged. */
  method ValidateBoard(a: array2<int>) returns (flagged: set<(int, int)>, errors: bool)
    requires a.Length0 == 9 && a.Length1 == 9
    modifies a
    ensures Snapshot(a) == old(Snapshot(a))
    ensures forall i, j :: (i, j) in flagged <==> InGrid(i, j) && Conflict(old(Snapshot(a)), i, j)
    ensures errors <==> flagged != {}
  {
    ghost var g := Snapshot(a);
    flagged, errors := {}, false;
    for row := 0 to 9
      invariant Snapshot(a) == g
      invariant forall i, j :: (i, j) in flagged <==> InGrid(i, j) && i < row && Conflict(g, i, j)
      invariant errors <==> flagged != {}
    {
      for col := 0 to 9
        invariant Snapshot(a) == g
        invariant forall i, j :: (i, j) in flagged <==>
                    InGrid(i, j) && (i < row || (i == row && j < col)) && Conflict(g, i, j)
        invariant errors <==> flagged != {}
      {
        var value := a[row, col];
        if value != 0 {
          a[row, col] := 0;
          BoardsEqual(Snapshot(a), Write(g, row, col, 0));
          var ok := IsValidMove(a, row, col, value);
          ScanTestIffConflict(g, row, col);
          if !ok {
            flagged := flagged + {(row, col)};
            errors := true;
          }
          a[row, col] := value;
          BoardsEqual(Snapshot(a), g);
        }
      }
    }
  }
}
