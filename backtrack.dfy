/** What `SudokuSolver.solve_algorithm` computes, as functions of the board it starts
    from, and what is proved about it: failed searches restore the board, successful
    ones fill exactly the empty cells, the conflict-free invariant is kept, the
    counters stay in proportion, and (for a conflict-free start) the search succeeds
    exactly when the puzzle has a solution. */
module Backtrack {
  import opened Board
  import opened Validity

  /** The result of one call of `solve_algorithm`, the board it leaves behind and how
      much it adds to `steps`, `recursive_calls` and `backtracks`. */
  datatype Outcome = Outcome(solved: bool, board: seq<seq<int>>, steps: nat, calls: nat, backtracks: nat)

  /** One call of `solve_algorithm` on board `b`: count the call, find the first
      empty cell in row-major order, and succeed at once if there is none. */
  function Solve(b: seq<seq<int>>): (o: Outcome)
    requires IsGrid(b)
    ensures IsGrid(o.board)
    ensures !o.solved ==> o.board == b
    decreases ZeroCount(b), 1
  {
    match FirstEmpty(b)
    case None => Outcome(true, b, 0, 1, 0)
    case Some((i, j)) =>
      var t := TryFrom(b, i, j, 1);
      Outcome(t.solved, t.board, t.steps, t.calls + 1, t.backtracks)
  }

  /** The candidate loop `for num in range(1, 10)` at the empty cell (i, j), from
      candidate `num` on: count a step, skip a digit `is_valid` rejects, otherwise
      place it and recurse; on failure reset the cell on the board the recursive call
      left, count a backtrack and go on with the next digit. */
  function TryFrom(b: seq<seq<int>>, i: nat, j: nat, num: nat): (o: Outcome)
    requires IsGrid(b) && i < 9 && j < 9 && b[i][j] == 0 && 1 <= num <= 10
    ensures IsGrid(o.board)
    ensures !o.solved ==> o.board == b
    decreases ZeroCount(b), 0, 10 - num
  {
    if num == 10 then Outcome(false, b, 0, 0, 0)
    else if IsValid(b, i, j, num) then
      ZeroCountPlace(b, i, j, num);
      var sub := Solve(Place(b, i, j, num));
      if sub.solved then Outcome(true, sub.board, 1 + sub.steps, sub.calls, sub.backtracks)
      else
        var back := Place(sub.board, i, j, 0);
        PlaceUndo(b, i, j, num);
        var rest := TryFrom(back, i, j, num + 1);
        Outcome(rest.solved, rest.board, 1 + sub.steps + rest.steps,
                sub.calls + rest.calls, sub.backtracks + 1 + rest.backtracks)
    else
      var rest := TryFrom(b, i, j, num + 1);
      Outcome(rest.solved, rest.board, 1 + rest.steps, rest.calls, rest.backtracks)
  }

  /** One candidate of the loop, with the board reset after a failed recursive call
      recognised as the board the loop started from. */
  lemma TryFromStep(b: seq<seq<int>>, i: nat, j: nat, num: nat)
    requires IsGrid(b) && i < 9 && j < 9 && b[i][j] == 0 && 1 <= num < 10
    ensures var o, rest := TryFrom(b, i, j, num), TryFrom(b, i, j, num + 1);
      !IsValid(b, i, j, num) ==>
        o == Outcome(rest.solved, rest.board, 1 + rest.steps, rest.calls, rest.backtracks)
    ensures var o, sub := TryFrom(b, i, j, num), Solve(Place(b, i, j, num));
      IsValid(b, i, j, num) && sub.solved ==>
        o == Outcome(true, sub.board, 1 + sub.steps, sub.calls, sub.backtracks)
    ensures var o, rest, sub := TryFrom(b, i, j, num), TryFrom(b, i, j, num + 1), Solve(Place(b, i, j, num));
      IsValid(b, i, j, num) && !sub.solved ==>
        o == Outcome(rest.solved, rest.board, 1 + sub.steps + rest.steps,
                     sub.calls + rest.calls, sub.backtracks + 1 + rest.backtracks)
  {
    if IsValid(b, i, j, num) {
      var sub := Solve(Place(b, i, j, num));
      if !sub.solved {
        TryFromBacktrack(b, i, j, num);
      }
    }
  }

  lemma TryFromBacktrack(b: seq<seq<int>>, i: nat, j: nat, num: nat)
    requires IsGrid(b) && i < 9 && j < 9 && b[i][j] == 0 && 1 <= num < 10
    requires IsValid(b, i, j, num) && !Solve(Place(b, i, j, num)).solved
    ensures var o, rest, sub := TryFrom(b, i, j, num), TryFrom(b, i, j, num + 1), Solve(Place(b, i, j, num));
        o == Outcome(rest.solved, rest.board, 1 + sub.steps + rest.steps,
                     sub.calls + rest.calls, sub.backtracks + 1 + rest.backtracks)
  {
    PlaceUndo(b, i, j, num);
  }

  /** A board without empty cells is reported solved at once: the board, `steps`
      and `backtracks` are untouched and only the call itself is counted, whether
      or not the filled values clash. */
  lemma SolveCompleteBoard(b: seq<seq<int>>)
    requires IsGrid(b) && Complete(b)
    ensures Solve(b) == Outcome(true, b, 0, 1, 0)
  {
    FirstEmptySpec(b);
  }

  /** On a board with an empty cell, the search is the candidate loop at the
      first one, plus the call itself. */
  lemma SolveAtFirstEmpty(b: seq<seq<int>>, i: nat, j: nat)
    requires IsGrid(b) && i < 9 && j < 9 && FirstEmpty(b) == Some((i, j))
    ensures b[i][j] == 0
    ensures var o, t := Solve(b), TryFrom(b, i, j, 1);
      o == Outcome(t.solved, t.board, t.steps, t.calls + 1, t.backtracks)
  {
  }

  /** Counters: every call is counted, every backtrack undoes a placement that was
      first counted as a step, at most one backtrack per recursive call (each
      placement makes one), and at most nine steps per call. */
  lemma {:induction false} SolveCounters(b: seq<seq<int>>)
    requires IsGrid(b)
    ensures var o := Solve(b);
      o.calls >= 1 && o.backtracks <= o.steps && o.backtracks < o.calls && o.steps <= 9 * o.calls
    decreases ZeroCount(b), 1
  {
    match FirstEmpty(b)
    case None =>
    case Some((i, j)) => TryCounters(b, i, j, 1);
  }

  lemma {:induction false} TryCounters(b: seq<seq<int>>, i: nat, j: nat, num: nat)
    requires IsGrid(b) && i < 9 && j < 9 && b[i][j] == 0 && 1 <= num <= 10
    ensures var o := TryFrom(b, i, j, num);
      o.backtracks <= o.steps && o.backtracks <= o.calls && o.steps <= (10 - num) + 9 * o.calls
    decreases ZeroCount(b), 0, 10 - num
  {
    if num < 10 {
      TryFromStep(b, i, j, num);
      TryCounters(b, i, j, num + 1);
      if IsValid(b, i, j, num) {
        ZeroCountPlace(b, i, j, num);
        SolveCounters(Place(b, i, j, num));
      }
    }
  }

  /** A successful search keeps every filled cell and writes a digit 1..9 into
      every empty one, so no cell is left empty. */
  lemma {:induction false} SolveFills(b: seq<seq<int>>)
    requires IsGrid(b)
    ensures Solve(b).solved ==> Extends(b, Solve(b).board) && Complete(Solve(b).board)
    decreases ZeroCount(b), 1
  {
    match FirstEmpty(b)
    case None =>
      FirstEmptySpec(b);
    case Some((i, j)) =>
      TryFills(b, i, j, 1);
  }

  lemma {:induction false} TryFills(b: seq<seq<int>>, i: nat, j: nat, num: nat)
    requires IsGrid(b) && i < 9 && j < 9 && b[i][j] == 0 && 1 <= num <= 10
    ensures var o := TryFrom(b, i, j, num);
      o.solved ==> Extends(b, o.board) && Complete(o.board) && num <= o.board[i][j]
    decreases ZeroCount(b), 0, 10 - num
  {
    if num < 10 {
      if IsValid(b, i, j, num) {
        var placed := Place(b, i, j, num);
        ZeroCountPlace(b, i, j, num);
        SolveFills(placed);
        var sub := Solve(placed);
        if sub.solved {
          assert sub.board[i][j] == num;
          return;
        }
        PlaceUndo(b, i, j, num);
      }
      TryFills(b, i, j, num + 1);
    }
  }

  /** Placing a digit that `is_valid` accepts into an empty cell keeps a
      conflict-free board conflict-free. */
  lemma PlaceKeepsConflictFree(b: seq<seq<int>>, i: nat, j: nat, v: int)
    requires IsGrid(b) && i < 9 && j < 9 && b[i][j] == 0 && v != 0
    requires ConflictFree(b) && IsValid(b, i, j, v)
    ensures ConflictFree(Place(b, i, j, v))
  {
    var n := Place(b, i, j, v);
    forall r1, c1, r2, c2 |
      InGrid(r1, c1) && InGrid(r2, c2) && (r1 != r2 || c1 != c2) &&
      SameUnit(r1, c1, r2, c2) && n[r1][c1] != 0
      ensures n[r1][c1] != n[r2][c2]
    {
      IsValidSpec(b, i, j, v);
      if r1 == i && c1 == j {
        assert n[r2][c2] == b[r2][c2];
      } else if r2 == i && c2 == j {
        assert SameUnit(i, j, r1, c1);
        assert n[r1][c1] == b[r1][c1];
      } else {
        assert n[r1][c1] == b[r1][c1] && n[r2][c2] == b[r2][c2];
      }
    }
  }

  /** Every write the search makes keeps the filled cells conflict-free, so the
      board it leaves is conflict-free when the board it started from was. */
  lemma {:induction false} SolveKeepsConflictFree(b: seq<seq<int>>)
    requires IsGrid(b) && ConflictFree(b)
    ensures ConflictFree(Solve(b).board)
    decreases ZeroCount(b), 1
  {
    match FirstEmpty(b)
    case None =>
    case Some((i, j)) => TryKeepsConflictFree(b, i, j, 1);
  }

  lemma {:induction false} TryKeepsConflictFree(b: seq<seq<int>>, i: nat, j: nat, num: nat)
    requires IsGrid(b) && i < 9 && j < 9 && b[i][j] == 0 && 1 <= num <= 10
    requires ConflictFree(b)
    ensures ConflictFree(TryFrom(b, i, j, num).board)
    decreases ZeroCount(b), 0, 10 - num
  {
    if num < 10 {
      if IsValid(b, i, j, num) {
        ZeroCountPlace(b, i, j, num);
        PlaceKeepsConflictFree(b, i, j, num);
        SolveKeepsConflictFree(Place(b, i, j, num));
        PlaceUndo(b, i, j, num);
      }
      TryKeepsConflictFree(b, i, j, num + 1);
    }
  }

  /** A candidate that `is_valid` accepts at (i, j) and from which the search succeeds. */
  ghost predicate Succeeds(b: seq<seq<int>>, i: nat, j: nat, e: int)
    requires IsGrid(b) && i < 9 && j < 9
  {
    1 <= e <= 9 && IsValid(b, i, j, e) && Solve(Place(b, i, j, e)).solved
  }

  /** The digit the search leaves in cell (i, j) is a candidate from `num` on that
      `is_valid` accepts and from which the recursive search succeeds, and the
      board is the one that search returned. */
  lemma {:induction false} TryFirstSuccess(b: seq<seq<int>>, i: nat, j: nat, num: nat)
    requires IsGrid(b) && i < 9 && j < 9 && b[i][j] == 0 && 1 <= num <= 10
    requires TryFrom(b, i, j, num).solved
    ensures var o := TryFrom(b, i, j, num);
      var d := o.board[i][j];
      num <= d && Succeeds(b, i, j, d) && o.board == Solve(Place(b, i, j, d)).board
    decreases 10 - num
  {
    TryFromStep(b, i, j, num);
    var o := TryFrom(b, i, j, num);
    if Succeeds(b, i, j, num) {
      SucceedsHere(b, i, j, num);
      assert o.board[i][j] == num;
    } else {
      var rest := TryFrom(b, i, j, num + 1);
      assert o.board == rest.board;
      TryFirstSuccess(b, i, j, num + 1);
      assert o.board[i][j] == rest.board[i][j];
    }
  }

  /** No candidate between `num` and the digit the loop settles on succeeds:
      candidates are tried in ascending order. */
  lemma {:induction false} TryNoEarlierSuccess(b: seq<seq<int>>, i: nat, j: nat, num: nat, e: int)
    requires IsGrid(b) && i < 9 && j < 9 && b[i][j] == 0 && 1 <= num <= 10
    requires TryFrom(b, i, j, num).solved && num <= e < TryFrom(b, i, j, num).board[i][j]
    ensures !Succeeds(b, i, j, e)
    decreases 10 - num
  {
    TryFromStep(b, i, j, num);
    if Succeeds(b, i, j, num) {
      SucceedsHere(b, i, j, num);
    } else if e > num {
      TryNoEarlierSuccess(b, i, j, num + 1, e);
    }
  }

  /** When the candidate `num` succeeds, the loop stops there with the board the
      recursive search returned, which holds `num` at (i, j). */
  lemma SucceedsHere(b: seq<seq<int>>, i: nat, j: nat, num: nat)
    requires IsGrid(b) && i < 9 && j < 9 && b[i][j] == 0 && 1 <= num < 10
    requires Succeeds(b, i, j, num)
    ensures TryFrom(b, i, j, num) == Solve(Place(b, i, j, num)).(steps := 1 + Solve(Place(b, i, j, num)).steps)
    ensures TryFrom(b, i, j, num).board[i][j] == num
  {
    var placed := Place(b, i, j, num);
    TryFromStep(b, i, j, num);
    ZeroCountPlace(b, i, j, num);
    SolveFills(placed);
  }

  /** When the candidate loop fails, no candidate `e` from `num` on is accepted
      by `is_valid` with a successful recursive search. */
  lemma {:induction false} TryExhausted(b: seq<seq<int>>, i: nat, j: nat, num: nat, e: int)
    requires IsGrid(b) && i < 9 && j < 9 && b[i][j] == 0 && 1 <= num <= e <= 9
    requires !TryFrom(b, i, j, num).solved
    ensures !Succeeds(b, i, j, e)
    decreases 10 - num
  {
    FailedCandidate(b, i, j, num);
    if e > num {
      TryExhausted(b, i, j, num + 1, e);
    }
  }

  /** A failed loop failed on its first candidate and on the rest. */
  lemma FailedCandidate(b: seq<seq<int>>, i: nat, j: nat, num: nat)
    requires IsGrid(b) && i < 9 && j < 9 && b[i][j] == 0 && 1 <= num < 10
    requires !TryFrom(b, i, j, num).solved
    ensures !Succeeds(b, i, j, num) && !TryFrom(b, i, j, num + 1).solved
  {
    TryFromStep(b, i, j, num);
  }

  /** The first empty cell ends up holding the smallest digit that `is_valid`
      accepts there and from which the search succeeds: digits are tried in
      ascending order and only accepted ones are written. */
  lemma FirstPlacement(b: seq<seq<int>>)
    requires IsGrid(b) && Solve(b).solved && FirstEmpty(b).Some?
    ensures var (i, j) := FirstEmpty(b).value;
      var d := Solve(b).board[i][j];
      Succeeds(b, i, j, d) && forall e :: 1 <= e < d ==> !Succeeds(b, i, j, e)
  {
    var (i, j) := FirstEmpty(b).value;
    TryFirstSuccess(b, i, j, 1);
    forall e | 1 <= e < Solve(b).board[i][j]
      ensures !Succeeds(b, i, j, e)
    {
      TryNoEarlierSuccess(b, i, j, 1, e);
    }
  }

  /** Soundness: from a conflict-free board, a successful search leaves a solution
      of the puzzle. */
  lemma SolveSound(b: seq<seq<int>>)
    requires IsGrid(b) && ConflictFree(b)
    ensures Solve(b).solved ==> IsSolutionOf(b, Solve(b).board)
  {
    SolveFills(b);
    SolveKeepsConflictFree(b);
  }

  /** A solution of the puzzle puts into the first empty cell a digit that
      `is_valid` accepts on the current board, and is still a solution after that
      digit is placed. */
  lemma SolutionStep(b: seq<seq<int>>, s: seq<seq<int>>, i: nat, j: nat)
    requires IsGrid(b) && IsSolutionOf(b, s) && i < 9 && j < 9 && b[i][j] == 0
    ensures 1 <= s[i][j] <= 9 && IsValid(b, i, j, s[i][j])
    ensures IsSolutionOf(Place(b, i, j, s[i][j]), s)
  {
    var d := s[i][j];
    IsValidSpec(b, i, j, d);
    forall p, q | InGrid(p, q) && SameUnit(i, j, p, q)
      ensures b[p][q] != d
    {
      if (p != i || q != j) && b[p][q] != 0 {
        assert s[p][q] == b[p][q];
      }
    }
  }

  /** Completeness: the search succeeds on every board that has a solution. */
  lemma {:induction false} SolveComplete(b: seq<seq<int>>, s: seq<seq<int>>)
    requires IsGrid(b) && IsSolutionOf(b, s)
    ensures Solve(b).solved
    decreases ZeroCount(b)
  {
    match FirstEmpty(b)
    case None =>
    case Some((i, j)) =>
      SolutionStep(b, s, i, j);
      var d := s[i][j];
      ZeroCountPlace(b, i, j, d);
      SolveComplete(Place(b, i, j, d), s);
      if !TryFrom(b, i, j, 1).solved {
        TryExhausted(b, i, j, 1, d);
      }
  }

  /** For a conflict-free board the search succeeds exactly when the puzzle has a
      solution, and a failed search leaves the board as it found it. */
  lemma SolveSucceedsIffSolvable(b: seq<seq<int>>)
    requires IsGrid(b) && ConflictFree(b)
    ensures Solve(b).solved <==> exists s :: IsSolutionOf(b, s)
    ensures !Solve(b).solved ==> Solve(b).board == b
  {
    if Solve(b).solved {
      SolveSound(b);
    } else if s :| IsSolutionOf(b, s) {
      SolveComplete(b, s);
    }
  }

  /** Running the search again on a board it solved succeeds at once with no
      further steps or backtracks. */
  lemma SolveIdempotent(b: seq<seq<int>>)
    requires IsGrid(b) && Solve(b).solved
    ensures Solve(Solve(b).board) == Outcome(true, Solve(b).board, 0, 1, 0)
  {
    SolveFills(b);
    SolveCompleteBoard(Solve(b).board);
  }
}
