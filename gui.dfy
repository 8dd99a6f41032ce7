/** The board logic of `SudokuMainWindow`, without the widgets: the grid of cell
    texts, reading it into the solver's board, the contradiction check run before
    solving, the check-then-solve order of the Solve button, and the Clear button. */
module Gui {
  import opened Board
  import opened Text
  import opened Validity
  import opened Backtrack
  import opened Solver
  import opened EmptyBoard

  /** The texts of the 9x9 cell widgets. */
  predicate IsTextGrid(cells: seq<seq<string>>)
  {
    |cells| == 9 && forall r :: 0 <= r < 9 ==> |cells[r]| == 9
  }

  /** The value one cell's text stands for: `int(text)` when `text.isdigit()`,
      and 0 (empty) for anything else, including the empty text. */
  function CellValue(text: string): nat
  {
    if IsDigitString(text) then DecimalValue(text) else 0
  }

  /** The board read off the cell texts, row by row. */
  function CellsToBoard(cells: seq<seq<string>>): (b: seq<seq<int>>)
    requires IsTextGrid(cells)
    ensures IsGrid(b) && NonNegative(b)
    ensures forall r, c :: InGrid(r, c) ==> b[r][c] == CellValue(cells[r][c])
  {
    seq(9, r requires 0 <= r < 9 => seq(9, c requires 0 <= c < 9 => CellValue(cells[r][c]) as int))
  }

  /** The cell texts after a solved board is shown: `str(val)` in every cell. */
  function BoardText(b: seq<seq<int>>): (cells: seq<seq<string>>)
    requires IsGrid(b) && NonNegative(b)
    ensures IsTextGrid(cells)
  {
    seq(9, r requires 0 <= r < 9 => seq(9, c requires 0 <= c < 9 => DecimalString(b[r][c])))
  }

  /** Reading the shown board back from the cells gives the board again. */
  lemma SyncAfterShow(b: seq<seq<int>>)
    requires IsGrid(b) && NonNegative(b)
    ensures CellsToBoard(BoardText(b)) == b
  {
    var back := CellsToBoard(BoardText(b));
    forall r, c | InGrid(r, c)
      ensures back[r][c] == b[r][c]
    {
      DecimalRoundTrip(b[r][c]);
    }
    GridEqual(back, b);
  }

  function BlankCells(): (cells: seq<seq<string>>)
    ensures IsTextGrid(cells)
  {
    seq(9, r => seq(9, c => ""))
  }

  /** The cleared grid reads as the all-zero board, and that board passes the
      contradiction check. */
  lemma ClearedGrid()
    ensures CellsToBoard(BlankCells()) == ZeroBoard()
    ensures NoContradiction(ZeroBoard()) && ConflictFree(ZeroBoard())
  {
    GridEqual(CellsToBoard(BlankCells()), ZeroBoard());
    NoContradictionIffConflictFree(ZeroBoard());
  }

  /** The test `self_check_isvalid` applies to cell (r, c): an empty cell passes;
      a filled one passes when `is_valid` accepts its value with the cell itself
      cleared. */
  predicate CellPasses(b: seq<seq<int>>, r: int, c: int)
    requires IsGrid(b) && InGrid(r, c)
  {
    b[r][c] == 0 || IsValid(Place(b, r, c, 0), r, c, b[r][c])
  }

  ghost predicate NoContradiction(b: seq<seq<int>>)
    requires IsGrid(b)
  {
    forall r, c :: InGrid(r, c) ==> CellPasses(b, r, c)
  }

  /** A filled cell passes exactly when no other cell of its row, column or box
      holds the same value. */
  lemma CellPassesSpec(b: seq<seq<int>>, r: int, c: int)
    requires IsGrid(b) && InGrid(r, c)
    ensures CellPasses(b, r, c) <==>
      b[r][c] == 0 ||
      forall p, q :: (InGrid(p, q) && (p != r || q != c) && SameUnit(r, c, p, q)) ==> b[p][q] != b[r][c]
  {
    var v := b[r][c];
    if v != 0 {
      var cleared := Place(b, r, c, 0);
      IsValidSpec(cleared, r, c, v);
      assert SameUnit(r, c, r, c);
    }
  }

  /** The check passes exactly on conflict-free boards. */
  lemma NoContradictionIffConflictFree(b: seq<seq<int>>)
    requires IsGrid(b)
    ensures NoContradiction(b) <==> ConflictFree(b)
  {
    forall r, c | InGrid(r, c) {
      CellPassesSpec(b, r, c);
    }
  }

  /** A solution of a puzzle read from the cells holds no negative value. */
  lemma SolvedNonNegative(b: seq<seq<int>>, s: seq<seq<int>>)
    requires IsGrid(b) && NonNegative(b) && IsSolutionOf(b, s)
    ensures NonNegative(s)
  {
    forall p, q | InGrid(p, q)
      ensures s[p][q] >= 0
    {
      if b[p][q] == 0 {
        assert 1 <= s[p][q];
      }
    }
  }

  /** How `solve_puzzle` ends: solved and shown, stopped by the contradiction
      check, or stopped because the search failed. */
  datatype PuzzleStatus = Solved | Contradiction | Unsolvable

  class SudokuMainWindow {
    const solver: SudokuSolver
    var cells: seq<seq<string>>

    constructor ()
      ensures fresh(solver) && cells == BlankCells()
      ensures solver.board == [] && solver.steps == 0 && solver.recursiveCalls == 0 && solver.backtracks == 0
    {
      solver := new SudokuSolver();
      cells := BlankCells();
    }

    /** `sync_gui_to_backend`: build the board row by row from the cell texts and
        hand it to the solver. */
    method SyncGuiToBackend()
      requires IsTextGrid(cells)
      modifies solver`board
      ensures solver.board == CellsToBoard(cells)
    {
      var currentBoard: seq<seq<int>> := [];
      for r := 0 to 9
        invariant |currentBoard| == r
        invariant forall p :: 0 <= p < r ==> currentBoard[p] == CellsToBoard(cells)[p]
      {
        var rowData: seq<int> := [];
        for c := 0 to 9
          invariant |rowData| == c
          invariant forall q :: 0 <= q < c ==> rowData[q] == CellValue(cells[r][q])
        {
          var text := cells[r][c];
          if IsDigitString(text) {
            rowData := rowData + [DecimalValue(text)];
          } else {
            rowData := rowData + [0];
          }
        }
        assert rowData == CellsToBoard(cells)[r];
        currentBoard := currentBoard + [rowData];
      }
      solver.board := currentBoard;
    }

    /** `self_check_isvalid`: visit the cells in row-major order; for each filled
        one, clear it, ask `is_valid` for its value, and put the value back; stop
        with false at the first cell that fails. On either return the board is
        as it was, and the answer is true exactly when the board is conflict-free. */
    method SelfCheckIsValid() returns (ok: bool)
      requires IsGrid(solver.board)
      modifies solver`board
      ensures solver.board == old(solver.board)
      ensures ok <==> NoContradiction(old(solver.board))
      ensures ok <==> ConflictFree(old(solver.board))
    {
      ghost var b0 := solver.board;
      NoContradictionIffConflictFree(b0);
      for r := 0 to 9
        invariant solver.board == b0
        invariant forall p, q :: InGrid(p, q) && p < r ==> CellPasses(b0, p, q)
      {
        for c := 0 to 9
          invariant solver.board == b0
          invariant forall p, q :: InGrid(p, q) && (p < r || (p == r && q < c)) ==> CellPasses(b0, p, q)
        {
          var num := solver.board[r][c];
          if num != 0 {
            PlaceUndo(b0, r, c, 0);
            solver.board := Place(solver.board, r, c, 0);
            if !IsValid(solver.board, r, c, num) {
              assert !CellPasses(b0, r, c);
              solver.board := Place(solver.board, r, c, num);
              return false;
            }
            solver.board := Place(solver.board, r, c, num);
          }
        }
      }
      return true;
    }

    /** `solve_puzzle`: read the cells into the board, refuse a board the
        contradiction check rejects before the solver runs, otherwise run the
        solver and, when it succeeds, show the solved board in the cells. */
    method SolvePuzzle() returns (status: PuzzleStatus)
      requires IsTextGrid(cells)
      modifies this, solver
      ensures status == Contradiction <==> !ConflictFree(CellsToBoard(old(cells)))
      ensures status == Contradiction ==>
        solver.board == CellsToBoard(old(cells)) && cells == old(cells) &&
        solver.steps == old(solver.steps) && solver.recursiveCalls == old(solver.recursiveCalls) &&
        solver.backtracks == old(solver.backtracks)
      ensures status != Contradiction ==>
        var o := Solve(CellsToBoard(old(cells)));
        solver.board == o.board && solver.steps == o.steps &&
        solver.recursiveCalls == o.calls && solver.backtracks == o.backtracks
      ensures status == Solved <==> ConflictFree(CellsToBoard(old(cells))) && exists s :: IsSolutionOf(CellsToBoard(old(cells)), s)
      ensures status == Solved ==>
        IsSolutionOf(CellsToBoard(old(cells)), solver.board) && NonNegative(solver.board) &&
        cells == BoardText(solver.board)
      ensures status == Unsolvable ==> solver.board == CellsToBoard(old(cells)) && cells == old(cells)
    {
      SyncGuiToBackend();
      ghost var b := solver.board;
      var consistent := SelfCheckIsValid();
      if !consistent {
        return Contradiction;
      }
      var success := solver.RunSolver();
      if !success {
        return Unsolvable;
      }
      SolvedNonNegative(b, solver.board);
      ShowSolvedBoard();
      return Solved;
    }

    /** The display loop of `solve_puzzle`: every cell shows `str` of the board's
        value there. */
    method ShowSolvedBoard()
      requires IsTextGrid(cells) && IsGrid(solver.board) && NonNegative(solver.board)
      modifies this`cells
      ensures cells == BoardText(solver.board)
    {
      for r := 0 to 9
        invariant IsTextGrid(cells)
        invariant forall p, q :: InGrid(p, q) && p < r ==> cells[p][q] == DecimalString(solver.board[p][q])
      {
        for c := 0 to 9
          invariant IsTextGrid(cells)
          invariant forall p, q :: InGrid(p, q) && (p < r || (p == r && q < c)) ==> cells[p][q] == DecimalString(solver.board[p][q])
        {
          cells := cells[r := cells[r][c := DecimalString(solver.board[r][c])]];
        }
      }
      GridEqual(cells, BoardText(solver.board));
    }

    /** `clear_board`: the solver's board becomes nine rows of nine zeros and
        every cell text is cleared. */
    method ClearBoard()
      requires IsTextGrid(cells)
      modifies this, solver`board
      ensures solver.board == ZeroBoard() && cells == BlankCells()
    {
      solver.board := ZeroBoard();
      for r := 0 to 9
        invariant IsTextGrid(cells) && solver.board == ZeroBoard()
        invariant forall p, q :: InGrid(p, q) && p < r ==> cells[p][q] == ""
      {
        for c := 0 to 9
          invariant IsTextGrid(cells) && solver.board == ZeroBoard()
          invariant forall p, q :: InGrid(p, q) && (p < r || (p == r && q < c)) ==> cells[p][q] == ""
        {
          cells := cells[r := cells[r][c := ""]];
        }
      }
      GridEqual(cells, BlankCells());
    }
  }
}
