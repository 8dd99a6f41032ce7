/** The 9x9 Sudoku board: its shape, single-cell updates, the units (row, column,
    3x3 box) a cell belongs to, and the row-major search for the first empty cell.
    A cell holding 0 is empty. */
module Board {

  datatype Option<T> = None | Some(value: T)

  /** A non-empty sequence is its prefix followed by its last element. */
  lemma SplitLast<T>(s: seq<T>)
    requires |s| > 0
    ensures s[..|s| - 1] + [s[|s| - 1]] == s
  {
  }

  /** A board is a list of 9 rows of 9 integers, as the solver keeps it. */
  predicate IsGrid(b: seq<seq<int>>)
  {
    |b| == 9 && forall r :: 0 <= r < 9 ==> |b[r]| == 9
  }

  /** No entry is negative (rows of any number and length). */
  predicate NonNegative(b: seq<seq<int>>)
  {
    forall r, c :: 0 <= r < |b| && 0 <= c < |b[r]| ==> b[r][c] >= 0
  }

  predicate InGrid(r: int, c: int)
  {
    0 <= r < 9 && 0 <= c < 9
  }

  /** Two 9x9 grids that agree cell by cell are equal. */
  lemma GridEqual<T>(a: seq<seq<T>>, b: seq<seq<T>>)
    requires |a| == 9 && |b| == 9
    requires forall r :: 0 <= r < 9 ==> |a[r]| == 9 && |b[r]| == 9
    requires forall r, c :: InGrid(r, c) ==> a[r][c] == b[r][c]
    ensures a == b
  {
    forall r | 0 <= r < 9
      ensures a[r] == b[r]
    {
      assert forall c :: 0 <= c < 9 ==> a[r][c] == b[r][c];
    }
  }

  /** `board[i][j] = v` */
  function Place(b: seq<seq<int>>, i: nat, j: nat, v: int): (r: seq<seq<int>>)
    requires IsGrid(b) && i < 9 && j < 9
    ensures IsGrid(r) && r[i][j] == v
    ensures forall p, q :: InGrid(p, q) && (p != i || q != j) ==> r[p][q] == b[p][q]
  {
    b[i := b[i][j := v]]
  }

  /** Writing back the value a cell held before undoes a write to it. */
  lemma PlaceUndo(b: seq<seq<int>>, i: nat, j: nat, v: int)
    requires IsGrid(b) && i < 9 && j < 9
    ensures Place(Place(b, i, j, v), i, j, b[i][j]) == b
  {
    var r := Place(Place(b, i, j, v), i, j, b[i][j]);
    forall p | 0 <= p < 9
      ensures r[p] == b[p]
    {
      assert forall q :: 0 <= q < 9 ==> r[p][q] == b[p][q];
    }
  }

  /** Origin of the 3x3 box along one axis: `k - k % 3`. Every index the box scan
      touches, `BoxStart(k) + d` with `d` in 0..2, stays inside 0..8. */
  function BoxStart(k: int): (s: int)
    requires 0 <= k < 9
    ensures 0 <= s <= k < s + 3 <= 9 && s % 3 == 0
  {
    k - k % 3
  }

  /** Two indices lie in the same band of three exactly when one lies in the band
      that starts at the other's `BoxStart`. */
  lemma SameBand(k: int, p: int)
    requires 0 <= k < 9 && 0 <= p < 9
    ensures BoxStart(k) == BoxStart(p) <==> BoxStart(k) <= p < BoxStart(k) + 3
  {
  }

  /** Two cells share a row, a column or a 3x3 box. */
  predicate SameUnit(r1: int, c1: int, r2: int, c2: int)
    requires InGrid(r1, c1) && InGrid(r2, c2)
  {
    r1 == r2 || c1 == c2 || (BoxStart(r1) == BoxStart(r2) && BoxStart(c1) == BoxStart(c2))
  }

  /** No filled value is repeated in a row, a column or a box. */
  ghost predicate ConflictFree(b: seq<seq<int>>)
    requires IsGrid(b)
  {
    forall r1, c1, r2, c2 ::
      (InGrid(r1, c1) && InGrid(r2, c2) && (r1 != r2 || c1 != c2) &&
       SameUnit(r1, c1, r2, c2) && b[r1][c1] != 0) ==> b[r1][c1] != b[r2][c2]
  }

  /** No cell is empty. */
  ghost predicate Complete(b: seq<seq<int>>)
    requires IsGrid(b)
  {
    forall r, c :: InGrid(r, c) ==> b[r][c] != 0
  }

  /** `s` keeps every filled cell of `b` and holds a digit 1..9 in every empty one. */
  ghost predicate Extends(b: seq<seq<int>>, s: seq<seq<int>>)
    requires IsGrid(b) && IsGrid(s)
  {
    forall r, c :: InGrid(r, c) ==>
      (b[r][c] != 0 ==> s[r][c] == b[r][c]) && (b[r][c] == 0 ==> 1 <= s[r][c] <= 9)
  }

  /** `s` is a solution of the puzzle `b`. */
  ghost predicate IsSolutionOf(b: seq<seq<int>>, s: seq<seq<int>>)
    requires IsGrid(b)
  {
    IsGrid(s) && Extends(b, s) && ConflictFree(s)
  }

  function RowZeros(row: seq<int>): nat
  {
    if row == [] then 0
    else RowZeros(row[..|row| - 1]) + (if row[|row| - 1] == 0 then 1 else 0)
  }

  /** Number of empty cells: the measure that every recursive search call lowers. */
  function ZeroCount(b: seq<seq<int>>): nat
  {
    if b == [] then 0 else ZeroCount(b[..|b| - 1]) + RowZeros(b[|b| - 1])
  }

  lemma {:induction false} RowZerosFill(row: seq<int>, j: nat, v: int)
    requires j < |row| && row[j] == 0 && v != 0
    ensures RowZeros(row[j := v]) + 1 == RowZeros(row)
  {
    var n := |row| - 1;
    var w := row[j := v];
    assert w[..n] == if j == n then row[..n] else row[..n][j := v];
    if j < n {
      RowZerosFill(row[..n], j, v);
    }
  }

  lemma {:induction false} ZeroCountUpdateRow(b: seq<seq<int>>, i: nat, row: seq<int>)
    requires i < |b| && RowZeros(row) + 1 == RowZeros(b[i])
    ensures ZeroCount(b[i := row]) + 1 == ZeroCount(b)
  {
    var n := |b| - 1;
    var w := b[i := row];
    assert w[..n] == if i == n then b[..n] else b[..n][i := row];
    if i < n {
      ZeroCountUpdateRow(b[..n], i, row);
    }
  }

  /** Filling an empty cell with a non-zero value removes exactly one empty cell. */
  lemma ZeroCountPlace(b: seq<seq<int>>, i: nat, j: nat, v: int)
    requires IsGrid(b) && i < 9 && j < 9 && b[i][j] == 0 && v != 0
    ensures ZeroCount(Place(b, i, j, v)) + 1 == ZeroCount(b)
  {
    RowZerosFill(b[i], j, v);
    ZeroCountUpdateRow(b, i, b[i][j := v]);
  }

  /** The first empty cell at or after (i, j) in row-major order: the nested
      `for i in range(9): for j in range(9): if board[i][j] == 0` scan. */
  function FirstEmptyFrom(b: seq<seq<int>>, i: nat, j: nat): (r: Option<(nat, nat)>)
    requires IsGrid(b) && i <= 9 && j <= 9
    ensures r.Some? ==> r.value.0 < 9 && r.value.1 < 9 && b[r.value.0][r.value.1] == 0
    decreases 9 - i, 9 - j
  {
    if i == 9 then None
    else if j == 9 then FirstEmptyFrom(b, i + 1, 0)
    else if b[i][j] == 0 then Some((i, j))
    else FirstEmptyFrom(b, i, j + 1)
  }

  /** The scan from (i, j) finds nothing exactly when every cell from (i, j) on is
      filled, and otherwise stops at an empty cell with only filled cells between. */
  lemma {:induction false} FirstEmptyFromSpec(b: seq<seq<int>>, i: nat, j: nat)
    requires IsGrid(b) && i <= 9 && j <= 9
    ensures var r := FirstEmptyFrom(b, i, j);
      r.None? ==> forall p, q :: InGrid(p, q) && 9 * i + j <= 9 * p + q ==> b[p][q] != 0
    ensures var r := FirstEmptyFrom(b, i, j);
      r.Some? ==>
        9 * i + j <= 9 * r.value.0 + r.value.1 &&
        forall p, q :: InGrid(p, q) && 9 * i + j <= 9 * p + q < 9 * r.value.0 + r.value.1 ==> b[p][q] != 0
    decreases 9 - i, 9 - j
  {
    if i < 9 {
      if j == 9 {
        assert FirstEmptyFrom(b, i, j) == FirstEmptyFrom(b, i + 1, 0);
        FirstEmptyFromSpec(b, i + 1, 0);
      } else if b[i][j] != 0 {
        assert FirstEmptyFrom(b, i, j) == FirstEmptyFrom(b, i, j + 1);
        FirstEmptyFromSpec(b, i, j + 1);
        assert forall p, q :: InGrid(p, q) && 9 * p + q == 9 * i + j ==> p == i && q == j;
      }
    }
  }

  function FirstEmpty(b: seq<seq<int>>): (r: Option<(nat, nat)>)
    requires IsGrid(b)
  {
    FirstEmptyFrom(b, 0, 0)
  }

  /** The board has no empty cell exactly when the scan finds none; otherwise the
      scan stops at an empty cell with only filled cells before it. */
  lemma FirstEmptySpec(b: seq<seq<int>>)
    requires IsGrid(b)
    ensures FirstEmpty(b).None? <==> Complete(b)
    ensures FirstEmpty(b).Some? ==>
      var (i, j) := FirstEmpty(b).value;
      InGrid(i, j) && b[i][j] == 0 &&
      forall p, q :: InGrid(p, q) && 9 * p + q < 9 * i + j ==> b[p][q] != 0
  {
    FirstEmptyFromSpec(b, 0, 0);
    if FirstEmpty(b).Some? {
      var (i, j) := FirstEmpty(b).value;
      assert !Complete(b) by { assert b[i][j] == 0; }
    }
  }
}
