/** `SudokuSolver`: the board and the three search counters, the CSV loader that
    fills the board, the recursive backtracking search that changes it in place,
    and the wrapper that resets the counters before a search. */
module Solver {
  import opened Board
  import opened Validity
  import opened Backtrack
  import opened Loader

  /** What the CSV reader delivers: the rows it produced, each split into its
      tokens, and whether opening or reading the file raised an error after them. */
  datatype CsvFile = CsvFile(rows: seq<seq<string>>, failed: bool)

  /** Part way through the candidate loop, the counters have moved from
      (s0, c0, k0) to (s, c, k), and what the loop still does from here, `rest`,
      makes up the rest of what the whole loop `t` does. */
  ghost predicate Accounts(t: Outcome, rest: Outcome, s0: int, c0: int, k0: int, s: int, c: int, k: int)
  {
    t.solved == rest.solved && t.board == rest.board &&
    s0 + t.steps == s + rest.steps && c0 + t.calls == c + rest.calls && k0 + t.backtracks == k + rest.backtracks
  }

  /** A digit `is_valid` rejects costs one step. */
  lemma CandidateRejected(b: seq<seq<int>>, i: nat, j: nat, num: nat, t: Outcome,
                          s0: int, c0: int, k0: int, s: int, c: int, k: int)
    requires IsGrid(b) && i < 9 && j < 9 && b[i][j] == 0 && 1 <= num < 10
    requires !IsValid(b, i, j, num)
    requires Accounts(t, TryFrom(b, i, j, num), s0, c0, k0, s, c, k)
    ensures Accounts(t, TryFrom(b, i, j, num + 1), s0, c0, k0, s + 1, c, k)
  {
    TryFromStep(b, i, j, num);
  }

  /** A digit whose search fails costs one step, what the search added, and one
      backtrack. */
  lemma CandidateFailed(b: seq<seq<int>>, i: nat, j: nat, num: nat, t: Outcome,
                        s0: int, c0: int, k0: int, s: int, c: int, k: int)
    requires IsGrid(b) && i < 9 && j < 9 && b[i][j] == 0 && 1 <= num < 10
    requires IsValid(b, i, j, num) && !Solve(Place(b, i, j, num)).solved
    requires Accounts(t, TryFrom(b, i, j, num), s0, c0, k0, s, c, k)
    ensures var sub := Solve(Place(b, i, j, num));
      Accounts(t, TryFrom(b, i, j, num + 1), s0, c0, k0, s + 1 + sub.steps, c + sub.calls, k + sub.backtracks + 1)
  {
    TryFromBacktrack(b, i, j, num);
  }

  /** A digit whose search succeeds ends the loop: the whole loop succeeded, with
      the board and the counters that search left. */
  lemma CandidateSolved(b: seq<seq<int>>, i: nat, j: nat, num: nat, t: Outcome,
                        s0: int, c0: int, k0: int, s: int, c: int, k: int)
    requires IsGrid(b) && i < 9 && j < 9 && b[i][j] == 0 && 1 <= num < 10
    requires IsValid(b, i, j, num) && Solve(Place(b, i, j, num)).solved
    requires Accounts(t, TryFrom(b, i, j, num), s0, c0, k0, s, c, k)
    ensures var sub := Solve(Place(b, i, j, num));
      t.solved && t.board == sub.board && s0 + t.steps == s + 1 + sub.steps &&
      c0 + t.calls == c + sub.calls && k0 + t.backtracks == k + sub.backtracks
  {
    TryFromStep(b, i, j, num);
  }

  class SudokuSolver {
    var board: seq<seq<int>>
    var steps: nat
    var recursiveCalls: nat
    var backtracks: nat

    constructor ()
      ensures board == [] && steps == 0 && recursiveCalls == 0 && backtracks == 0
    {
      board := [];
      steps := 0;
      recursiveCalls := 0;
      backtracks := 0;
    }

    /** `load_from_csv`: empty the board, append every row whose filter yields
        nine values, and succeed when the file was read without error and exactly
        nine rows were kept. The rows kept before a read error stay on the board. */
    method LoadFromCsv(file: CsvFile) returns (ok: bool)
      modifies this`board
      ensures board == KeptRows(file.rows)
      ensures ok <==> !file.failed && |board| == 9
      ensures ok ==> IsGrid(board) && NonNegative(board)
    {
      board := [];
      for k := 0 to |file.rows|
        invariant board == KeptRows(file.rows[..k])
      {
        assert file.rows[..k + 1][..k] == file.rows[..k];
        var index := ParseRow(file.rows[k]);
        if |index| == 9 {
          board := board + [index];
        }
      }
      assert file.rows[..|file.rows|] == file.rows;
      ok := !file.failed && |board| == 9;
    }

    /** `solve_algorithm`: count the call, scan for the first empty cell in
        row-major order, and run the candidate loop there; a board with no empty
        cell is solved. Its result, the board it leaves and what it adds to each
        counter are those of `Solve` on the board it started from; the lemmas of
        module `Backtrack` say what that means. */
    method SolveAlgorithm() returns (solved: bool)
      requires IsGrid(board)
      modifies this
      ensures var o := Solve(old(board));
        solved == o.solved && board == o.board &&
        steps == old(steps) + o.steps && recursiveCalls == old(recursiveCalls) + o.calls &&
        backtracks == old(backtracks) + o.backtracks
      decreases ZeroCount(board), 2
    {
      ghost var b0 := board;
      recursiveCalls := recursiveCalls + 1;
      for i := 0 to 9
        invariant board == b0 && FirstEmptyFrom(b0, i, 0) == FirstEmpty(b0)
        invariant steps == old(steps) && recursiveCalls == old(recursiveCalls) + 1 && backtracks == old(backtracks)
      {
        for j := 0 to 9
          invariant board == b0 && FirstEmptyFrom(b0, i, j) == FirstEmpty(b0)
          invariant steps == old(steps) && recursiveCalls == old(recursiveCalls) + 1 && backtracks == old(backtracks)
        {
          if board[i][j] == 0 {
            assert FirstEmpty(b0) == Some((i, j));
            SolveAtFirstEmpty(b0, i, j);
            solved := TryCandidates(i, j);
            return;
          }
        }
        assert FirstEmptyFrom(b0, i, 9) == FirstEmptyFrom(b0, i + 1, 0);
      }
      return true;
    }

    /** The candidate loop of `solve_algorithm` at the empty cell (i, j): for each
        digit 1..9 count a step, and when `is_valid` accepts it, attempt it; stop
        with true at the first attempt that succeeds, and return false once all
        nine digits are spent. The result, the board and the counters follow
        `TryFrom` from the first digit. */
    method TryCandidates(i: nat, j: nat) returns (solved: bool)
      requires IsGrid(board) && i < 9 && j < 9 && board[i][j] == 0
      modifies this
      ensures var o := TryFrom(old(board), i, j, 1);
        solved == o.solved && board == o.board &&
        steps == old(steps) + o.steps && recursiveCalls == old(recursiveCalls) + o.calls &&
        backtracks == old(backtracks) + o.backtracks
      decreases ZeroCount(board), 1
    {
      ghost var b0, t := old(board), TryFrom(old(board), i, j, 1);
      ghost var steps0, calls0, backtracks0 := steps, recursiveCalls, backtracks;
      for num := 1 to 10
        invariant board == b0
        invariant Accounts(t, TryFrom(b0, i, j, num), steps0, calls0, backtracks0, steps, recursiveCalls, backtracks)
      {
        ghost var s, c, k := steps, recursiveCalls, backtracks;
        steps := steps + 1;
        if IsValid(board, i, j, num) {
          var found := Attempt(i, j, num);
          if found {
            CandidateSolved(b0, i, j, num, t, steps0, calls0, backtracks0, s, c, k);
            return true;
          }
          CandidateFailed(b0, i, j, num, t, steps0, calls0, backtracks0, s, c, k);
        } else {
          CandidateRejected(b0, i, j, num, t, steps0, calls0, backtracks0, s, c, k);
        }
      }
      return false;
    }

    /** One digit that `is_valid` accepted at the empty cell (i, j): write it,
        search on, and when that search fails write 0 back and count a backtrack.
        The recursive search starts with one empty cell fewer, which is why the
        recursion ends. A failed attempt leaves the board as it found it. */
    method Attempt(i: nat, j: nat, num: nat) returns (found: bool)
      requires IsGrid(board) && i < 9 && j < 9 && board[i][j] == 0 && 1 <= num <= 9
      modifies this
      ensures var sub := Solve(Place(old(board), i, j, num));
        found == sub.solved && board == (if found then sub.board else old(board)) &&
        steps == old(steps) + sub.steps && recursiveCalls == old(recursiveCalls) + sub.calls &&
        backtracks == old(backtracks) + sub.backtracks + (if found then 0 else 1)
      decreases ZeroCount(board), 0
    {
      ghost var b0 := board;
      ZeroCountPlace(b0, i, j, num);
      board := Place(board, i, j, num);
      found := SolveAlgorithm();
      if !found {
        PlaceUndo(b0, i, j, num);
        board := Place(board, i, j, 0);
        backtracks := backtracks + 1;
      }
    }

    /** `run_solver`: reset the three counters and run the search, returning its
        result. Afterwards the counters hold exactly what this search added. A
        failed search leaves the board as it was; a successful one leaves a
        complete board that keeps every filled cell; a conflict-free board stays
        conflict-free, and for one the search succeeds exactly when the puzzle has
        a solution. */
    method RunSolver() returns (success: bool)
      requires IsGrid(board)
      modifies this
      ensures var o := Solve(old(board));
        success == o.solved && board == o.board &&
        steps == o.steps && recursiveCalls == o.calls && backtracks == o.backtracks
      ensures !success ==> board == old(board)
      ensures success ==> Extends(old(board), board) && Complete(board)
      ensures ConflictFree(old(board)) ==> ConflictFree(board)
      ensures ConflictFree(old(board)) ==> (success <==> exists s :: IsSolutionOf(old(board), s))
    {
      ghost var b0 := board;
      steps := 0;
      recursiveCalls := 0;
      backtracks := 0;
      success := SolveAlgorithm();
      SolveFills(b0);
      if ConflictFree(b0) {
        SolveKeepsConflictFree(b0);
        SolveSucceedsIffSolvable(b0);
      }
    }
  }
}
