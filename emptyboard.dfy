/** The puzzle with every cell empty: a standard filled grid is a solution of
    it, so the backtracking search always solves it. */
module EmptyBoard {
  import opened Board
  import opened Backtrack

  /** The board `[[0]*9 for _ in range(9)]`: every cell empty. */
  function ZeroBoard(): (b: seq<seq<int>>)
    ensures IsGrid(b) && NonNegative(b)
    ensures forall r, c :: InGrid(r, c) ==> b[r][c] == 0
  {
    seq(9, r => seq(9, c => 0))
  }

  /** Row offsets of a standard filled grid: 0, 3, 6, 1, 4, 7, 2, 5, 8. Rows of
      one band are three apart, and bands are one apart. */
  function Offset(r: int): (o: int)
    requires 0 <= r < 9
    ensures 0 <= o < 9
  {
    3 * (r - BoxStart(r)) + BoxStart(r) / 3
  }

  /** The digit of the standard grid at (r, c): the row's offset plus the column,
      taken round 1..9. */
  function Pattern(r: int, c: int): (d: int)
    requires InGrid(r, c)
    ensures 1 <= d <= 9
  {
    var s := Offset(r) + c;
    if s < 9 then s + 1 else s - 8
  }

  /** Two distinct cells of one unit hold different digits of the standard grid. */
  lemma PatternDistinct(r1: int, c1: int, r2: int, c2: int)
    requires InGrid(r1, c1) && InGrid(r2, c2) && (r1 != r2 || c1 != c2)
    requires SameUnit(r1, c1, r2, c2)
    ensures Pattern(r1, c1) != Pattern(r2, c2)
  {
    // Offset(r) = 3 * m + q, with m the row within its band and q the band.
    var m1, q1 := r1 - BoxStart(r1), BoxStart(r1) / 3;
    var m2, q2 := r2 - BoxStart(r2), BoxStart(r2) / 3;
    assert BoxStart(r1) == 3 * q1 && BoxStart(r2) == 3 * q2;
    assert 0 <= q1 <= 2 && 0 <= q2 <= 2;
    assert Offset(r1) == 3 * m1 + q1 && Offset(r2) == 3 * m2 + q2;
    var s1, s2 := Offset(r1) + c1, Offset(r2) + c2;
    var d := s1 - s2;
    if r1 == r2 {
      assert d == c1 - c2;
    } else if BoxStart(r1) == BoxStart(r2) && BoxStart(c1) == BoxStart(c2) {
      assert q1 == q2 && m1 != m2 && -2 <= c1 - c2 <= 2;
      assert d == 3 * (m1 - m2) + (c1 - c2);
    } else {
      assert c1 == c2 && (q1 != q2 || m1 != m2);
      assert d == 3 * (m1 - m2) + (q1 - q2);
    }
    // The sums differ by less than nine, so their digits differ.
    assert d != 0 && -9 < d < 9;
  }

  /** The standard grid as a board. */
  function Filled(): (s: seq<seq<int>>)
    ensures IsGrid(s)
    ensures forall r, c :: InGrid(r, c) ==> s[r][c] == Pattern(r, c)
  {
    seq(9, r requires 0 <= r < 9 => seq(9, c requires 0 <= c < 9 => Pattern(r, c)))
  }

  /** The empty board has a solution, so the search always solves it. */
  lemma EmptyBoardSolves()
    ensures IsSolutionOf(ZeroBoard(), Filled())
    ensures Solve(ZeroBoard()).solved
  {
    var s := Filled();
    forall r1, c1, r2, c2 |
      InGrid(r1, c1) && InGrid(r2, c2) && (r1 != r2 || c1 != c2) && SameUnit(r1, c1, r2, c2)
      ensures s[r1][c1] != s[r2][c2]
    {
      PatternDistinct(r1, c1, r2, c2);
    }
    SolveComplete(ZeroBoard(), s);
  }
}
