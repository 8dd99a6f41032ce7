/** `SudokuSolver.is_valid`: may `num` go into cell (row, col)? The three scans
    follow the source's loops and return early on the first clash. */
module Validity {
  import opened Board

  /** The row scan `for x in range(9): if board[row][x] == num: return False`,
      from column `x` on. */
  function RowFree(b: seq<seq<int>>, row: nat, num: int, x: nat): bool
    requires IsGrid(b) && row < 9 && x <= 9
    decreases 9 - x
  {
    if x == 9 then true
    else if b[row][x] == num then false
    else RowFree(b, row, num, x + 1)
  }

  lemma {:induction false} RowFreeSpec(b: seq<seq<int>>, row: nat, num: int, x: nat)
    requires IsGrid(b) && row < 9 && x <= 9
    ensures RowFree(b, row, num, x) <==> forall k :: x <= k < 9 ==> b[row][k] != num
    decreases 9 - x
  {
    if x < 9 { RowFreeSpec(b, row, num, x + 1); }
  }

  /** The column scan `for x in range(9): if board[x][col] == num: return False`,
      from row `x` on. */
  function ColFree(b: seq<seq<int>>, col: nat, num: int, x: nat): bool
    requires IsGrid(b) && col < 9 && x <= 9
    decreases 9 - x
  {
    if x == 9 then true
    else if b[x][col] == num then false
    else ColFree(b, col, num, x + 1)
  }

  lemma {:induction false} ColFreeSpec(b: seq<seq<int>>, col: nat, num: int, x: nat)
    requires IsGrid(b) && col < 9 && x <= 9
    ensures ColFree(b, col, num, x) <==> forall k :: x <= k < 9 ==> b[k][col] != num
    decreases 9 - x
  {
    if x < 9 { ColFreeSpec(b, col, num, x + 1); }
  }

  /** The box scan `for i in range(3): for j in range(3): if board[i + start_row][j + start_col] == num`,
      from offset (i, j) on, in row-major order. The indices it reads,
      `i + startRow` and `j + startCol`, stay inside 0..8 because a box origin is
      at most 6. */
  function BoxFree(b: seq<seq<int>>, startRow: nat, startCol: nat, num: int, i: nat, j: nat): bool
    requires IsGrid(b) && startRow <= 6 && startCol <= 6 && i <= 3 && j <= 3
    decreases 3 - i, 3 - j
  {
    if i == 3 then true
    else if j == 3 then BoxFree(b, startRow, startCol, num, i + 1, 0)
    else if b[i + startRow][j + startCol] == num then false
    else BoxFree(b, startRow, startCol, num, i, j + 1)
  }

  lemma {:induction false} BoxFreeSpec(b: seq<seq<int>>, startRow: nat, startCol: nat, num: int, i: nat, j: nat)
    requires IsGrid(b) && startRow <= 6 && startCol <= 6 && i <= 3 && j <= 3
    ensures BoxFree(b, startRow, startCol, num, i, j) <==> forall p, q ::
      (startRow <= p < startRow + 3 && startCol <= q < startCol + 3 &&
       3 * i + j <= 3 * (p - startRow) + (q - startCol)) ==> b[p][q] != num
    decreases 3 - i, 3 - j
  {
    if i < 3 {
      if j == 3 {
        BoxFreeSpec(b, startRow, startCol, num, i + 1, 0);
      } else {
        BoxFreeSpec(b, startRow, startCol, num, i, j + 1);
      }
    }
  }

  /** `is_valid(row, col, num)` on board `b`: the row scan, then the column scan,
      then the scan of the box whose origin is (row - row % 3, col - col % 3). */
  function IsValid(b: seq<seq<int>>, row: nat, col: nat, num: int): bool
    requires IsGrid(b) && row < 9 && col < 9
  {
    RowFree(b, row, num, 0) && ColFree(b, col, num, 0) &&
    BoxFree(b, BoxStart(row), BoxStart(col), num, 0, 0)
  }

  /** `is_valid` accepts `num` at (row, col) exactly when no cell sharing a row, a
      column or a box with it holds `num`. The scans include the cell itself, so
      a value already sitting there is rejected. Nothing is written. */
  lemma IsValidSpec(b: seq<seq<int>>, row: nat, col: nat, num: int)
    requires IsGrid(b) && row < 9 && col < 9
    ensures IsValid(b, row, col, num) <==>
      forall p, q :: InGrid(p, q) && SameUnit(row, col, p, q) ==> b[p][q] != num
  {
    RowFreeSpec(b, row, num, 0);
    ColFreeSpec(b, col, num, 0);
    BoxFreeSpec(b, BoxStart(row), BoxStart(col), num, 0, 0);
    UnitCells(row, col);
  }

  /** The cells sharing a unit with (row, col) are its row, its column and the
      3x3 block whose corner is (BoxStart(row), BoxStart(col)). */
  lemma UnitCells(row: nat, col: nat)
    requires row < 9 && col < 9
    ensures forall p, q :: InGrid(p, q) ==>
      (SameUnit(row, col, p, q) <==>
       p == row || q == col ||
       (BoxStart(row) <= p < BoxStart(row) + 3 && BoxStart(col) <= q < BoxStart(col) + 3))
  {
    forall p, q | InGrid(p, q)
      ensures SameUnit(row, col, p, q) <==>
        p == row || q == col ||
        (BoxStart(row) <= p < BoxStart(row) + 3 && BoxStart(col) <= q < BoxStart(col) + 3)
    {
      SameBand(row, p);
      SameBand(col, q);
    }
  }
}
