/** The 9x9 Sudoku board: the value the rules talk about, the mutable
    array the engine works on, and the row, column and block geometry. */
module SudokuBoard {

  /** A board as a value: nine rows of nine cells, 0 meaning "empty". */
  type Grid = seq<seq<int>>

  /** (i, j) is a cell coordinate, row and column both 0..8. */
  predicate InGrid(i: int, j: int)
  {
    0 <= i < 9 && 0 <= j < 9
  }

  /** The board has exactly nine rows of exactly nine cells. */
  predicate IsBoard(g: Grid)
  {
    |g| == 9 && forall i :: 0 <= i < 9 ==> |g[i]| == 9
  }

  /** First row (or column) of the 3x3 block holding row (or column) x,
      computed as (x // 3) * 3; floor division and Dafny's division agree
      on the non-negative coordinates used here. */
  function BlockStart(x: int): (s: int)
    requires 0 <= x
    ensures s % 3 == 0 && s <= x < s + 3
  {
    (x / 3) * 3
  }

  /** (i, j) is another cell in the same row, the same column or the same
      block as (r, c). */
  predicate Peer(r: int, c: int, i: int, j: int)
  {
    InGrid(r, c) && InGrid(i, j) && (i != r || j != c) &&
    (i == r || j == c || (BlockStart(i) == BlockStart(r) && BlockStart(j) == BlockStart(c)))
  }

  /** The board g with cell (r, c) overwritten by v. */
  function Write(g: Grid, r: int, c: int, v: int): (h: Grid)
    requires IsBoard(g) && InGrid(r, c)
    ensures IsBoard(h)
    ensures forall i, j :: InGrid(i, j) ==> h[i][j] == if i == r && j == c then v else g[i][j]
  {
    g[r := g[r][c := v]]
  }

  /** The value currently held by the 9x9 array a. */
  ghost function Snapshot(a: array2<int>): (g: Grid)
    reads a
    requires a.Length0 == 9 && a.Length1 == 9
    ensures IsBoard(g)
    ensures forall i, j :: InGrid(i, j) ==> g[i][j] == a[i, j]
  {
    seq(9, i requires 0 <= i < 9 reads a => seq(9, j requires 0 <= j < 9 reads a => a[i, j]))
  }

  /** Two boards that agree on every cell are the same board. */
  lemma BoardsEqual(x: Grid, y: Grid)
    requires IsBoard(x) && IsBoard(y)
    requires forall i, j :: InGrid(i, j) ==> x[i][j] == y[i][j]
    ensures x == y
  {
    forall i | 0 <= i < 9
      ensures x[i] == y[i]
    {
      assert forall j :: 0 <= j < 9 ==> x[i][j] == y[i][j];
    }
  }

  /** The empty cells of g. */
  ghost function ZeroCells(g: Grid): set<(int, int)>
    requires IsBoard(g)
  {
    set i, j | 0 <= i < 9 && 0 <= j < 9 && g[i][j] == 0 :: (i, j)
  }

  /** No cell of g is empty. */
  ghost predicate NoZeros(g: Grid)
    requires IsBoard(g)
  {
    forall i, j :: InGrid(i, j) ==> g[i][j] != 0
  }

  /** Every cell holds 0..9, the range the input cells admit. */
  ghost predicate InRange(g: Grid)
    requires IsBoard(g)
  {
    forall i, j :: InGrid(i, j) ==> 0 <= g[i][j] <= 9
  }
}
