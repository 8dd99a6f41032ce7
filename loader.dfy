/** The pure part of `SudokuSolver.load_from_csv`: the per-row token filter
    `[int(num.strip()) for num in row if num.strip().isdigit()]` and the rule that
    keeps a row only when the filter yields exactly nine values. Rows arrive already
    split into their comma-separated tokens. */
module Loader {
  import opened Board
  import opened Text

  /** The row filter: strip each token, keep those that are digit strings, and
      convert them, in order. */
  function ParseRow(tokens: seq<string>): (r: seq<int>)
    ensures |r| <= |tokens|
    ensures forall k :: 0 <= k < |r| ==> r[k] >= 0
  {
    if tokens == [] then []
    else
      var t := Strip(tokens[|tokens| - 1]);
      ParseRow(tokens[..|tokens| - 1]) + (if IsDigitString(t) then [DecimalValue(t)] else [])
  }

  /** Filtering a row token by token: the values of a concatenation are the
      values of its parts, in order. */
  lemma {:induction false} ParseRowAppend(a: seq<string>, c: seq<string>)
    ensures ParseRow(a + c) == ParseRow(a) + ParseRow(c)
    decreases |c|
  {
    if c != [] {
      var n := |c| - 1;
      assert (a + c)[..|a + c| - 1] == a + c[..n];
      ParseRowAppend(a, c[..n]);
    } else {
      assert a + c == a;
    }
  }

  /** A token that is not a digit string after stripping (a blank field, a stray
      word) is dropped, not rejected: the row's values are as if it were absent. */
  lemma ParseRowSkips(a: seq<string>, t: string, c: seq<string>)
    requires !IsDigitString(Strip(t))
    ensures ParseRow(a + [t] + c) == ParseRow(a + c)
  {
    ParseRowAppend(a + [t], c);
    ParseRowAppend(a, [t]);
    ParseRowAppend(a, c);
    assert ParseRow([t]) == ParseRow([]) + [];
  }

  /** The rows `load_from_csv` appends to the board, in file order: those whose
      filter yields exactly nine values. */
  function KeptRows(rows: seq<seq<string>>): (kept: seq<seq<int>>)
    ensures |kept| <= |rows|
    ensures forall k :: 0 <= k < |kept| ==> |kept[k]| == 9
    ensures NonNegative(kept)
  {
    if rows == [] then []
    else
      var row := ParseRow(rows[|rows| - 1]);
      KeptRows(rows[..|rows| - 1]) + (if |row| == 9 then [row] else [])
  }

  /** Every row is kept exactly when each row yields nine values; so a file with
      nine rows, one of which yields fewer or more, ends with fewer than nine rows
      kept and fails to load. */
  lemma {:induction false} KeptRowsAll(rows: seq<seq<string>>)
    ensures |KeptRows(rows)| == |rows| <==> forall k :: 0 <= k < |rows| ==> |ParseRow(rows[k])| == 9
  {
    if rows != [] {
      var n := |rows| - 1;
      var prefix, row := rows[..n], ParseRow(rows[n]);
      KeptRowsAll(prefix);
      assert KeptRows(rows) == KeptRows(prefix) + (if |row| == 9 then [row] else []);
      if |row| == 9 {
        assert forall k :: 0 <= k < n ==> prefix[k] == rows[k];
        assert |KeptRows(rows)| == |KeptRows(prefix)| + 1;
      } else {
        assert |KeptRows(rows)| <= n;
        assert |ParseRow(rows[n])| != 9;
      }
    }
  }

  /** Rows are kept one at a time: the rows kept from a concatenation are those
      kept from its parts, in order. */
  lemma {:induction false} KeptRowsAppend(a: seq<seq<string>>, c: seq<seq<string>>)
    ensures KeptRows(a + c) == KeptRows(a) + KeptRows(c)
    decreases |c|
  {
    if c != [] {
      var n := |c| - 1;
      assert (a + c)[..|a + c| - 1] == a + c[..n];
      KeptRowsAppend(a, c[..n]);
    } else {
      assert a + c == a;
    }
  }

  /** A row that does not yield nine values is dropped silently: the other rows
      are kept as if it were absent. */
  lemma KeptRowsDrops(a: seq<seq<string>>, t: seq<string>, c: seq<seq<string>>)
    requires |ParseRow(t)| != 9
    ensures KeptRows(a + [t] + c) == KeptRows(a + c)
  {
    KeptRowsAppend(a + [t], c);
    KeptRowsAppend(a, [t]);
    KeptRowsAppend(a, c);
    assert KeptRows([t]) == KeptRows([]) + [];
  }

  /** A row that yields nine values is kept, in its place among the others. */
  lemma KeptRowsKeeps(a: seq<seq<string>>, t: seq<string>, c: seq<seq<string>>)
    requires |ParseRow(t)| == 9
    ensures KeptRows(a + [t] + c) == KeptRows(a) + [ParseRow(t)] + KeptRows(c)
  {
    KeptRowsAppend(a + [t], c);
    KeptRowsAppend(a, [t]);
    assert KeptRows([t]) == KeptRows([]) + [ParseRow(t)];
  }

  /** A board written out as CSV text: each value rendered with `str`. */
  function CsvRow(row: seq<int>): (tokens: seq<string>)
    requires forall k :: 0 <= k < |row| ==> row[k] >= 0
    ensures |tokens| == |row|
    ensures forall k :: 0 <= k < |row| ==> IsDigitString(tokens[k])
  {
    if row == [] then []
    else
      DecimalRoundTrip(row[|row| - 1]);
      CsvRow(row[..|row| - 1]) + [DecimalString(row[|row| - 1])]
  }

  function ToCsv(rows: seq<seq<int>>): (file: seq<seq<string>>)
    requires NonNegative(rows)
    ensures |file| == |rows|
  {
    if rows == [] then []
    else ToCsv(rows[..|rows| - 1]) + [CsvRow(rows[|rows| - 1])]
  }

  /** Reading back a written row gives the row. */
  lemma {:induction false} ParseCsvRow(row: seq<int>)
    requires forall k :: 0 <= k < |row| ==> row[k] >= 0
    ensures ParseRow(CsvRow(row)) == row
  {
    if row != [] {
      var n := |row| - 1;
      var tokens := CsvRow(row);
      assert tokens[..n] == CsvRow(row[..n]);
      DecimalRoundTrip(row[n]);
      StripDigits(tokens[n]);
      ParseCsvRow(row[..n]);
    }
  }

  /** Round trip: a board of non-negative values written as CSV, one line per row
      and nine values per line, loads back as the same rows. */
  lemma {:induction false} LoadRoundTrip(rows: seq<seq<int>>)
    requires forall k :: 0 <= k < |rows| ==> |rows[k]| == 9
    requires NonNegative(rows)
    ensures KeptRows(ToCsv(rows)) == rows
  {
    if rows != [] {
      var n := |rows| - 1;
      var file := ToCsv(rows);
      assert file[..n] == ToCsv(rows[..n]);
      assert file[n] == CsvRow(rows[n]);
      ParseCsvRow(rows[n]);
      LoadRoundTrip(rows[..n]);
      assert KeptRows(file) == KeptRows(file[..n]) + [ParseRow(file[n])];
      SplitLast(rows);
    }
  }

  /** The filter on a single token. */
  lemma ParseToken(t: string)
    ensures ParseRow([t]) == if IsDigitString(Strip(t)) then [DecimalValue(Strip(t))] else []
  {
    assert [t][..0] == [];
  }

  /** Any all-digit token is accepted, not only single digits: a padded "12"
      becomes the value 12. */
  lemma MultiDigitToken()
    ensures ParseRow([" 12 "]) == [12]
  {
    var t := " 12 ";
    assert Strip(t) == "12" by {
      assert TrimLeft(t) == TrimLeft("12 ");
      assert TrimRight("12 ") == TrimRight("12");
    }
    assert DecimalValue("12") == 12 by { assert "12"[..1] == "1"; }
    ParseToken(t);
  }
}
