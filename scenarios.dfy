/** Particular boards (the empty board, two 1s in a row, boards of 1s)
    and the bound on the depth of the search. */
module SudokuScenarios {
  import opened SudokuBoard
  import opened SudokuRules

  /** The board with every cell empty. */
  function EmptyGrid(): (g: Grid)
    ensures IsBoard(g)
  {
    seq(9, i => seq(9, j => 0))
  }

  /** The digit the shifted-rows board holds at (i, j). */
  function Shifted(i: int, j: int): int
  {
    (3 * (i % 3) + i / 3 + j) % 9 + 1
  }

  /** A finished Sudoku: row i is the digits 1..9 rotated by 3 * (i % 3) + i / 3. */
  function ShiftedRows(): (g: Grid)
    ensures IsBoard(g)
    ensures forall i, j :: InGrid(i, j) ==> g[i][j] == Shifted(i, j)
  {
    seq(9, i => seq(9, j => Shifted(i, j)))
  }

  /** Two numbers less than 9 apart and different leave different remainders. */
  lemma RemaindersDiffer(x: int, y: int)
    requires 0 <= x && 0 <= y && x != y && -9 < x - y < 9
    ensures x % 9 != y % 9
  {
  }

  /** Two different cells sharing a row, column or block get different
      digits on the shifted-rows board. */
  lemma ShiftedPeersDiffer(r: int, c: int, i: int, j: int)
    requires Peer(r, c, i, j)
    ensures Shifted(i, j) != Shifted(r, c)
  {
    var di := 3 * (i % 3) + i / 3;
    var dr := 3 * (r % 3) + r / 3;
    assert 0 <= di < 9 && 0 <= dr < 9;
    if i != r {
      assert i / 3 != r / 3 || i % 3 != r % 3;
      assert di != dr;
    }
    if i != r && j != c {
      assert i / 3 == r / 3 && j / 3 == c / 3;
      assert di - dr == 3 * (i % 3 - r % 3);
      assert -2 <= j - c <= 2;
    }
    RemaindersDiffer(di + j, dr + c);
  }

  /** The shifted-rows board has no duplicate in any row, column or block. */
  lemma ShiftedRowsSolved()
    ensures Solved(ShiftedRows())
  {
    var s := ShiftedRows();
    forall r, c | InGrid(r, c)
      ensures !Conflict(s, r, c)
    {
      forall i, j | Peer(r, c, i, j)
        ensures s[i][j] != s[r][c]
      {
        ShiftedPeersDiffer(r, c, i, j);
      }
    }
  }

  /** The empty board has a valid completion, so the search on it answers
      true. */
  lemma EmptyBoardSolvable()
    ensures Solvable(EmptyGrid())
  {
    ShiftedRowsSolved();
    assert ValidCompletion(ShiftedRows(), EmptyGrid());
  }

  /** Row 0 starts with two 1s; every other cell is empty. */
  function TwoOnesInRow(): (g: Grid)
    ensures IsBoard(g)
  {
    seq(9, i => seq(9, j => if i == 0 && j < 2 then 1 else 0))
  }

  /** On that board exactly cells (0, 0) and (0, 1) conflict, so the scan
      flags those two and nothing else. */
  lemma TwoOnesInRowConflicts()
    ensures forall i, j :: InGrid(i, j) ==> (Conflict(TwoOnesInRow(), i, j) <==> i == 0 && j < 2)
  {
    var g := TwoOnesInRow();
    DuplicatesBothConflict(g, 0, 0, 0, 1);
  }

  /** A board whose every cell holds 1. */
  function AllOnes(): (g: Grid)
    ensures IsBoard(g)
  {
    seq(9, i => seq(9, j => 1))
  }

  /** A board with no empty cell need not be a Sudoku: the search answers
      true on it at once and leaves it as it is, conflicts included. */
  lemma FullBoardNeedNotBeSolved()
    ensures NoZeros(AllOnes()) && !Solved(AllOnes())
  {
    DuplicatesBothConflict(AllOnes(), 0, 0, 0, 1);
  }

  /** A board of 1s with only cell (8, 8) empty. */
  function OnesWithOneHole(): (g: Grid)
    ensures IsBoard(g)
  {
    seq(9, i => seq(9, j => if i == 8 && j == 8 then 0 else 1))
  }

  /** That board has a sound filling (2 at (8, 8)), so the search answers
      true on it, yet it has no valid completion: the search does not
      repair conflicting filled cells. */
  lemma OnesWithOneHoleFillableNotSolvable()
    ensures Fillable(OnesWithOneHole()) && !Solvable(OnesWithOneHole())
  {
    var g := OnesWithOneHole();
    var f := Write(g, 8, 8, 2);
    forall i, j | Peer(8, 8, i, j)
      ensures f[i][j] != 2
    {
    }
    assert FilledFrom(f, g);
    if Solvable(g) {
      var s :| ValidCompletion(s, g);
      assert s[0][0] == 1 && s[0][1] == 1;
      DuplicatesBothConflict(s, 0, 0, 0, 1);
    }
  }

  /** The cells whose row-major index i * 9 + j is below k. */
  ghost function CellsBefore(k: int): set<(int, int)>
  {
    set i, j | 0 <= i < 9 && 0 <= j < 9 && i * 9 + j < k :: (i, j)
  }

  lemma {:induction false} CellsBeforeSize(k: int)
    requires 0 <= k <= 81
    ensures |CellsBefore(k)| == k
  {
    if k > 0 {
      CellsBeforeSize(k - 1);
      var p := ((k - 1) / 9, (k - 1) % 9);
      assert CellsBefore(k) == CellsBefore(k - 1) + {p} by {
        forall q | q in CellsBefore(k)
          ensures q in CellsBefore(k - 1) + {p}
        {
          var i, j :| InGrid(i, j) && i * 9 + j < k && q == (i, j);
          if i * 9 + j == k - 1 {
            assert i == (k - 1) / 9 && j == (k - 1) % 9;
          }
        }
      }
      assert p !in CellsBefore(k - 1);
    } else {
      assert CellsBefore(0) == {};
    }
  }

  /** At most 81 cells are empty, so the search nests at most 81 deep. */
  lemma ZeroCellsAtMost81(g: Grid)
    requires IsBoard(g)
    ensures |ZeroCells(g)| <= 81
  {
    CellsBeforeSize(81);
    SubsetSize(ZeroCells(g), CellsBefore(81));
  }

  lemma {:induction false} SubsetSize<T>(a: set<T>, b: set<T>)
    requires a <= b
    ensures |a| <= |b|
    decreases a
  {
    if a != {} {
      var x :| x in a;
      SubsetSize(a - {x}, b - {x});
    }
  }
}
