/**
 * The table layout pass of the renderer: when the token walk meets the
 * first run of a table, it scans forward to collect the table's cells row
 * by row, decides whether every row has the same number of cells, and if
 * so measures each column's widest cell, so that every cell can later be
 * padded by the difference to its column's width.
 */
module TableLayout {
  import opened Bytes
  import opened Markup

  /** A run carrying the Table bit. */
  predicate IsTableRun(t: Token) {
    t.FormattedString? && t.format & Table != 0
  }

  /** A table run that is a cell, not a `|` separator. */
  predicate IsCell(t: Token) {
    IsTableRun(t) && t.value != [PIPE]
  }

  /** Where the scan stops: the token at `k` ends the table. */
  predicate EndsTable(ts: seq<Token>, k: nat) {
    k < |ts| &&
    match ts[k]
    case Image(_) => true
    case FormattedString(f, _) => f & Table == 0
    case NewLine => k + 1 < |ts| && !IsTableRun(ts[k + 1])
  }

  /** The cells of the rows, read row after row. */
  function Concat(rows: seq<seq<seq<byte>>>): seq<seq<byte>>
  {
    if |rows| == 0 then [] else rows[0] + Concat(rows[1..])
  }

  lemma {:induction false} ConcatSnoc(rows: seq<seq<seq<byte>>>, row: seq<seq<byte>>)
    ensures Concat(rows + [row]) == Concat(rows) + row
  {
    if |rows| > 0 {
      assert (rows + [row])[1..] == rows[1..] + [row];
      ConcatSnoc(rows[1..], row);
    }
  }

  /** The rows with the open row closed, when it holds a cell. */
  function Closed(rows: seq<seq<seq<byte>>>, row: seq<seq<byte>>): seq<seq<seq<byte>>> {
    if |row| > 0 then rows + [row] else rows
  }

  /** No line break lies strictly between the tokens at `a` and `b`. */
  predicate NoBreak(ts: seq<Token>, a: nat, b: nat) {
    forall k :: a < k < b && k < |ts| ==> !ts[k].NewLine?
  }

  /** The row that holds the `m`-th cell read row after row. */
  function RowOf(rows: seq<seq<seq<byte>>>, m: nat): (r: nat)
    requires m < |Concat(rows)|
    ensures r < |rows|
    decreases |rows|
  {
    if m < |rows[0]| then 0 else 1 + RowOf(rows[1..], m - |rows[0]|)
  }

  /** Appending a row keeps the row of every earlier cell, and its own cells are in the new last row. */
  lemma {:induction false} RowOfSnoc(rows: seq<seq<seq<byte>>>, row: seq<seq<byte>>, m: nat)
    requires m < |Concat(rows + [row])|
    ensures m < |Concat(rows)| ==> RowOf(rows + [row], m) == RowOf(rows, m)
    ensures m >= |Concat(rows)| ==> RowOf(rows + [row], m) == |rows|
    decreases |rows|
  {
    if |rows| == 0 {
      assert rows + [row] == [row];
      assert Concat([row]) == row + Concat([]);
    } else {
      assert (rows + [row])[0] == rows[0];
      assert (rows + [row])[1..] == rows[1..] + [row];
      if m >= |rows[0]| {
        RowOfSnoc(rows[1..], row, m - |rows[0]|);
      }
    }
  }

  /**
   * The result of the scan: the rows of cell strings (`table`), the token
   * indices of the cells in reading order (`table_elems`), and the index of
   * the token the scan stopped at.
   */
  datatype Scan = Scan(rows: seq<seq<seq<byte>>>, elems: seq<nat>, end: nat)

  /**
   * What the scan loop keeps: the tokens passed so far belong to the table
   * and none of them ends it, the closed rows are non-empty, and the closed
   * rows followed by the open row are the values of the cells passed so far,
   * in order.
   */
  predicate ScanInv(ts: seq<Token>, i: nat, idx: nat, rows: seq<seq<seq<byte>>>, row: seq<seq<byte>>, elems: seq<nat>) {
    && i <= idx && (idx == i || idx <= |ts|)
    && (forall k :: i <= k < idx ==> ts[k].NewLine? || IsTableRun(ts[k]))
    && (forall k :: i <= k < idx ==> !EndsTable(ts, k))
    && (forall r :: 0 <= r < |rows| ==> |rows[r]| > 0)
    && (forall m :: 0 <= m < |elems| ==> i <= elems[m] < idx && elems[m] < |ts| && IsCell(ts[elems[m]]))
    && (forall m, n :: 0 <= m < n < |elems| ==> elems[m] < elems[n])
    && (forall k :: i <= k < idx && IsCell(ts[k]) ==> k in elems)
    && |Concat(rows) + row| == |elems|
    && (forall m :: 0 <= m < |elems| ==> (Concat(rows) + row)[m] == TokenText(ts[elems[m]]))
  }

  /**
   * Where the loop has split the rows so far: two consecutive cells share a
   * row exactly when no line break lies between them, and the open row
   * holds a cell exactly when no line break has come since the last cell.
   */
  predicate RowsInv(ts: seq<Token>, idx: nat, rows: seq<seq<seq<byte>>>, row: seq<seq<byte>>, elems: seq<nat>) {
    && |Concat(rows) + row| == |elems|
    && Concat(Closed(rows, row)) == Concat(rows) + row
    && (forall m :: 0 <= m < |elems| ==> elems[m] < idx)
    && (forall m :: 0 < m < |elems| ==>
         (RowOf(Closed(rows, row), m - 1) == RowOf(Closed(rows, row), m) <==> NoBreak(ts, elems[m - 1], elems[m])))
    && (|row| > 0 ==> |elems| > 0 && NoBreak(ts, elems[|elems| - 1], idx))
    && (|row| == 0 && |elems| > 0 ==> !NoBreak(ts, elems[|elems| - 1], idx))
  }

  /**
   * What the scan from the table's first token `i` promises: it stops at the
   * first token that ends the table, passing only line breaks and table
   * runs; the rows are non-empty, and read row after row they are the values
   * of the passed cells in order; and two consecutive cells share a row
   * exactly when no line break lies between them.
   */
  predicate Scanned(ts: seq<Token>, i: nat, s: Scan) {
    && i <= s.end && (s.end == i || s.end <= |ts|)
    && (s.end >= |ts| || EndsTable(ts, s.end))
    && (forall k :: i <= k < s.end ==> ts[k].NewLine? || IsTableRun(ts[k]))
    && (forall k :: i <= k < s.end ==> !EndsTable(ts, k))
    && (forall r :: 0 <= r < |s.rows| ==> |s.rows[r]| > 0)
    && (forall m :: 0 <= m < |s.elems| ==> i <= s.elems[m] < s.end && s.elems[m] < |ts| && IsCell(ts[s.elems[m]]))
    && (forall m, n :: 0 <= m < n < |s.elems| ==> s.elems[m] < s.elems[n])
    && (forall k :: i <= k < s.end && IsCell(ts[k]) ==> k in s.elems)
    && |Concat(s.rows)| == |s.elems|
    && (forall m :: 0 <= m < |s.elems| ==> Concat(s.rows)[m] == TokenText(ts[s.elems[m]]))
    && (forall m :: 0 < m < |s.elems| ==>
         (RowOf(s.rows, m - 1) == RowOf(s.rows, m) <==> NoBreak(ts, s.elems[m - 1], s.elems[m])))
  }

  /** A line break inside the table closes the open row when it is non-empty. */
  lemma NewLineStep(ts: seq<Token>, i: nat, idx: nat, rows: seq<seq<seq<byte>>>, row: seq<seq<byte>>, elems: seq<nat>)
    requires ScanInv(ts, i, idx, rows, row, elems) && idx < |ts| && ts[idx].NewLine? && !EndsTable(ts, idx)
    ensures |row| > 0 ==> ScanInv(ts, i, idx + 1, rows + [row], [], elems)
    ensures |row| == 0 ==> ScanInv(ts, i, idx + 1, rows, row, elems)
  {
    assert !IsCell(ts[idx]);
    if |row| > 0 {
      ConcatSnoc(rows, row);
      assert Concat(rows + [row]) + [] == Concat(rows) + row;
    }
  }

  /** Closing the open row at a line break keeps the rows read in order, and the break now follows the last cell. */
  lemma NewLineRows(ts: seq<Token>, idx: nat, rows: seq<seq<seq<byte>>>, row: seq<seq<byte>>, elems: seq<nat>)
    requires RowsInv(ts, idx, rows, row, elems) && idx < |ts| && ts[idx].NewLine?
    ensures |row| > 0 ==> RowsInv(ts, idx + 1, rows + [row], [], elems)
    ensures |row| == 0 ==> RowsInv(ts, idx + 1, rows, row, elems)
  {
    if |row| > 0 {
      ConcatSnoc(rows, row);
      assert Concat(rows + [row]) + [] == Concat(rows) + row;
      assert Closed(rows + [row], []) == Closed(rows, row);
      assert elems[|elems| - 1] < idx;
    }
  }

  /** A `|` run is skipped. */
  lemma PipeStep(ts: seq<Token>, i: nat, idx: nat, rows: seq<seq<seq<byte>>>, row: seq<seq<byte>>, elems: seq<nat>)
    requires ScanInv(ts, i, idx, rows, row, elems) && idx < |ts| && IsTableRun(ts[idx]) && !IsCell(ts[idx])
    ensures ScanInv(ts, i, idx + 1, rows, row, elems)
  {
    assert !EndsTable(ts, idx);
  }

  /** Any other table run is a cell, appended to the open row. */
  lemma CellStep(ts: seq<Token>, i: nat, idx: nat, rows: seq<seq<seq<byte>>>, row: seq<seq<byte>>, elems: seq<nat>)
    requires ScanInv(ts, i, idx, rows, row, elems) && idx < |ts| && IsCell(ts[idx])
    ensures ScanInv(ts, i, idx + 1, rows, row + [ts[idx].value], elems + [idx])
  {
    assert !EndsTable(ts, idx);
    assert Concat(rows) + (row + [ts[idx].value]) == (Concat(rows) + row) + [ts[idx].value];
  }

  /** Before the first token nothing is passed: no rows, no cells. */
  lemma ScanStart(ts: seq<Token>, i: nat)
    ensures ScanInv(ts, i, i, [], [], []) && RowsInv(ts, i, [], [], [])
  {
    assert Concat([]) == [];
  }

  /** A table run is no line break, so the rows split as before; a cell joins the open row. */
  lemma RunRows(ts: seq<Token>, idx: nat, rows: seq<seq<seq<byte>>>, row: seq<seq<byte>>, elems: seq<nat>)
    requires RowsInv(ts, idx, rows, row, elems) && idx < |ts| && IsTableRun(ts[idx])
    ensures IsCell(ts[idx]) ==> RowsInv(ts, idx + 1, rows, row + [ts[idx].value], elems + [idx])
    ensures !IsCell(ts[idx]) ==> RowsInv(ts, idx + 1, rows, row, elems)
  {
    var v := ts[idx].value;
    if IsCell(ts[idx]) {
      assert Concat(rows) + (row + [v]) == (Concat(rows) + row) + [v];
      CellRows(ts, idx, rows, row, elems, v);
    }
  }

  /**
   * A cell appended to the open row keeps the row of every earlier cell, and
   * shares a row with the previous cell exactly when no line break came
   * between them.
   */
  lemma CellRows(ts: seq<Token>, idx: nat, rows: seq<seq<seq<byte>>>, row: seq<seq<byte>>, elems: seq<nat>, v: seq<byte>)
    requires |Concat(rows) + row| == |elems|
    requires Concat(Closed(rows, row)) == Concat(rows) + row
    requires forall m :: 0 <= m < |elems| ==> elems[m] < idx
    requires forall m :: 0 < m < |elems| ==>
      (RowOf(Closed(rows, row), m - 1) == RowOf(Closed(rows, row), m) <==> NoBreak(ts, elems[m - 1], elems[m]))
    requires |row| > 0 ==> |elems| > 0 && NoBreak(ts, elems[|elems| - 1], idx)
    requires |row| == 0 && |elems| > 0 ==> !NoBreak(ts, elems[|elems| - 1], idx)
    ensures Concat(Closed(rows, row + [v])) == Concat(rows) + (row + [v])
    ensures forall m :: 0 < m < |elems + [idx]| ==>
      (RowOf(Closed(rows, row + [v]), m - 1) == RowOf(Closed(rows, row + [v]), m) <==> NoBreak(ts, (elems + [idx])[m - 1], (elems + [idx])[m]))
  {
    var c, c' := Closed(rows, row), Closed(rows, row + [v]);
    var e' := elems + [idx];
    ConcatSnoc(rows, row + [v]);
    assert c' == rows + [row + [v]];
    forall m | 0 <= m < |elems|
      ensures RowOf(c', m) == RowOf(c, m)
    {
      RowOfSnoc(rows, row + [v], m);
      if |row| > 0 {
        ConcatSnoc(rows, row);
        RowOfSnoc(rows, row, m);
      }
    }
    RowOfSnoc(rows, row + [v], |elems|);
    if |elems| > 0 {
      RowOfSnoc(rows, row + [v], |elems| - 1);
    }
    forall m | 0 < m < |e'|
      ensures RowOf(c', m - 1) == RowOf(c', m) <==> NoBreak(ts, e'[m - 1], e'[m])
    {
      if m < |elems| {
        assert e'[m - 1] == elems[m - 1] && e'[m] == elems[m];
      } else {
        assert e'[m - 1] == elems[|elems| - 1] && e'[m] == idx;
      }
    }
  }

  /** Closing the last open row, if non-empty, yields the scan's result. */
  lemma ScanDone(ts: seq<Token>, i: nat, idx: nat, rows: seq<seq<seq<byte>>>, row: seq<seq<byte>>, elems: seq<nat>)
    requires ScanInv(ts, i, idx, rows, row, elems) && RowsInv(ts, idx, rows, row, elems)
    requires idx >= |ts| || EndsTable(ts, idx)
    ensures Scanned(ts, i, Scan(Closed(rows, row), elems, idx))
  {
    ConcatSnoc(rows, row);
    if |row| == 0 {
      assert Concat(rows) + row == Concat(rows);
    }
  }

  /**
   * One step of the scan at token `idx`: a line break followed by anything
   * but a table run ends the table, as does an image or a run without the
   * Table bit; `|` runs are skipped; every other run is a cell of the open
   * row; a line break closes a non-empty row.
   */
  method ScanStep(ts: seq<Token>, i: nat, idx: nat, rows: seq<seq<seq<byte>>>, row: seq<seq<byte>>, elems: seq<nat>)
    returns (stop: bool, rows': seq<seq<seq<byte>>>, row': seq<seq<byte>>, elems': seq<nat>)
    requires idx < |ts| && ScanInv(ts, i, idx, rows, row, elems) && RowsInv(ts, idx, rows, row, elems)
    ensures stop <==> EndsTable(ts, idx)
    ensures stop ==> rows' == rows && row' == row && elems' == elems
    ensures !stop ==> ScanInv(ts, i, idx + 1, rows', row', elems') && RowsInv(ts, idx + 1, rows', row', elems')
  {
    rows', row', elems' := rows, row, elems;
    match ts[idx]
    case NewLine =>
      stop := idx != |ts| - 1 && !IsTableRun(ts[idx + 1]);
      if !stop {
        NewLineStep(ts, i, idx, rows, row, elems);
        NewLineRows(ts, idx, rows, row, elems);
        if |row| > 0 {
          rows', row' := rows + [row], [];
        }
      }
    case Image(_) =>
      stop := true;
    case FormattedString(f, v) =>
      stop := f & Table == 0;
      if !stop {
        RunRows(ts, idx, rows, row, elems);
        if v != [PIPE] {
          CellStep(ts, i, idx, rows, row, elems);
          row', elems' := row + [v], elems + [idx];
        } else {
          PipeStep(ts, i, idx, rows, row, elems);
        }
      }
  }

  /** The scan from the table's first token `i`, one `ScanStep` per token until the table ends. */
  method ScanTable(ts: seq<Token>, i: nat) returns (s: Scan)
    ensures Scanned(ts, i, s)
  {
    var idx := i;
    var rows: seq<seq<seq<byte>>> := [];
    var row: seq<seq<byte>> := [];
    var elems: seq<nat> := [];
    ScanStart(ts, i);
    while idx < |ts|
      invariant ScanInv(ts, i, idx, rows, row, elems)
      invariant RowsInv(ts, idx, rows, row, elems)
    {
      var stop;
      stop, rows, row, elems := ScanStep(ts, i, idx, rows, row, elems);
      if stop {
        break;
      }
      idx := idx + 1;
    }
    ScanDone(ts, i, idx, rows, row, elems);
    s := Scan(Closed(rows, row), elems, idx);
  }

  /** The row-size check as the loop over `table` writes it: the first row sets `col_count`. */
  function CheckRows(rows: seq<seq<seq<byte>>>, k: nat, colCount: nat, mismatched: bool): (r: (nat, bool))
    requires k <= |rows|
    decreases |rows| - k
  {
    if k == |rows| then (colCount, mismatched)
    else if colCount == 0 then CheckRows(rows, k + 1, |rows[k]|, mismatched)
    else CheckRows(rows, k + 1, colCount, mismatched || colCount != |rows[k]|)
  }

  /** Every row has exactly `n` cells. */
  predicate Uniform(rows: seq<seq<seq<byte>>>, n: nat) {
    forall r :: 0 <= r < |rows| ==> |rows[r]| == n
  }

  /** The widest `c`-th cell over the rows, in bytes. */
  function ColumnWidth(rows: seq<seq<seq<byte>>>, c: nat): (w: nat)
    requires forall r :: 0 <= r < |rows| ==> c < |rows[r]|
    ensures forall r :: 0 <= r < |rows| ==> |rows[r][c]| <= w
    ensures |rows| == 0 ==> w == 0
    ensures |rows| > 0 ==> exists r :: 0 <= r < |rows| && |rows[r][c]| == w
  {
    if |rows| == 0 then 0
    else
      var w0 := ColumnWidth(rows[..|rows| - 1], c);
      var last := |rows[|rows| - 1][c]|;
      assert forall r :: 0 <= r < |rows| - 1 ==> rows[..|rows| - 1][r] == rows[r];
      if w0 <= last then last else w0
  }

  /** `col_count`, `is_mismatched` and `col_lengths` after the layout pass. */
  datatype Layout = Layout(colCount: nat, mismatched: bool, colLengths: seq<nat>)

  /**
   * The layout of scanned rows: the first row's size is the column count;
   * the table is mismatched when some row differs from it; only a table
   * that is not mismatched gets column widths.
   */
  function LayOut(rows: seq<seq<seq<byte>>>): (l: Layout)
    requires forall r :: 0 <= r < |rows| ==> |rows[r]| > 0
    ensures l.colCount == (if |rows| == 0 then 0 else |rows[0]|)
    ensures l.mismatched <==> !Uniform(rows, l.colCount)
    ensures l.mismatched ==> l.colLengths == []
    ensures !l.mismatched ==> |l.colLengths| == l.colCount
    ensures !l.mismatched ==> forall r, c :: 0 <= r < |rows| && 0 <= c < l.colCount ==> |rows[r][c]| <= l.colLengths[c]
    ensures !l.mismatched ==> forall c :: 0 <= c < l.colCount ==> exists r :: 0 <= r < |rows| && |rows[r][c]| == l.colLengths[c]
  {
    var check := CheckRows(rows, 0, 0, false);
    CheckRowsFinds(rows);
    if check.1 then Layout(check.0, true, [])
    else Layout(check.0, false, seq(check.0, c requires 0 <= c < check.0 => ColumnWidth(rows, c)))
  }

  /**
   * On rows that are never empty, the loop keeps the first row's size and
   * flags a mismatch exactly when some row's size differs from it.
   */
  lemma CheckRowsFinds(rows: seq<seq<seq<byte>>>)
    requires forall r :: 0 <= r < |rows| ==> |rows[r]| > 0
    ensures var check := CheckRows(rows, 0, 0, false);
      && check.0 == (if |rows| == 0 then 0 else |rows[0]|)
      && (check.1 <==> !Uniform(rows, check.0))
  {
    if |rows| > 0 {
      CheckRowsFrom(rows, 1, |rows[0]|, false);
    }
  }

  lemma {:induction false} CheckRowsFrom(rows: seq<seq<seq<byte>>>, k: nat, n: nat, mismatched: bool)
    requires 0 < k <= |rows| && n > 0
    ensures var check := CheckRows(rows, k, n, mismatched);
      && check.0 == n
      && (check.1 <==> mismatched || exists r :: k <= r < |rows| && |rows[r]| != n)
    decreases |rows| - k
  {
    if k < |rows| {
      CheckRowsFrom(rows, k + 1, n, mismatched || n != |rows[k]|);
    }
  }

  /** In rows of `n > 0` cells each, the `m`-th cell read in order sits in column `m % n` of some row. */
  lemma {:induction false} ConcatCell(rows: seq<seq<seq<byte>>>, n: nat, m: nat) returns (r: nat)
    requires n > 0 && Uniform(rows, n) && m < |Concat(rows)|
    ensures r < |rows| && Concat(rows)[m] == rows[r][m % n]
  {
    if m < n {
      ModSmall(m, n);
      r := 0;
    } else {
      var tail := rows[1..];
      assert Uniform(tail, n);
      var r' := ConcatCell(tail, n, m - n);
      ModStep(m, n);
      r := r' + 1;
    }
  }

  lemma ModSmall(m: nat, n: nat)
    requires m < n
    ensures m % n == m
  {
  }

  lemma MulAtLeast(a: int, n: nat)
    requires a >= 1
    ensures a * n >= n
  {
    var b := a - 1;
    assert a * n == b * n + n;
    assert b * n >= 0;
  }

  /** Quotient and remainder are unique: `q * n + r` with `r < n` leaves remainder `r`. */
  lemma ModUnique(m: nat, n: nat, q: nat, r: nat)
    requires r < n && m == q * n + r
    ensures m % n == r
  {
    var q2, r2 := m / n, m % n;
    assert m == q2 * n + r2;
    assert (q - q2) * n == r2 - r;
    if q > q2 {
      MulAtLeast(q - q2, n);
    } else if q < q2 {
      MulAtLeast(q2 - q, n);
    }
  }

  /** Taking one `n` off `m` keeps the remainder. */
  lemma ModStep(m: nat, n: nat)
    requires 0 < n <= m
    ensures (m - n) % n == m % n
  {
    var q, r := (m - n) / n, (m - n) % n;
    assert m - n == q * n + r;
    assert m == (q + 1) * n + r;
    ModUnique(m, n, q + 1, r);
  }

  /**
   * The padding of the `m`-th cell as the renderer computes it:
   * `col_lengths[m % col_count] - size`, in `size_t` arithmetic.
   */
  function Gap(l: Layout, m: nat, size: nat): (g: nat)
    requires l.colCount > 0 && |l.colLengths| == l.colCount
    ensures g <= SIZE_MAX
  {
    SizeSub(l.colLengths[m % l.colCount], size)
  }

  /** Every cell of rows of `n` cells each appears in their concatenation. */
  lemma {:induction false} CellInConcat(rows: seq<seq<seq<byte>>>, n: nat, r: nat, c: nat) returns (m: nat)
    requires Uniform(rows, n) && r < |rows| && c < n
    ensures m < |Concat(rows)| && Concat(rows)[m] == rows[r][c]
  {
    if r == 0 {
      m := c;
    } else {
      assert Uniform(rows[1..], n);
      var m' := CellInConcat(rows[1..], n, r - 1, c);
      m := n + m';
    }
  }

  /**
   * Every cell of a table that is not mismatched fits in its column: the
   * padding never wraps around, and padding plus cell is the column width.
   */
  lemma GapFits(rows: seq<seq<seq<byte>>>, m: nat)
    requires forall r :: 0 <= r < |rows| ==> |rows[r]| > 0
    requires !LayOut(rows).mismatched && m < |Concat(rows)|
    requires forall k :: 0 <= k < |Concat(rows)| ==> |Concat(rows)[k]| <= SIZE_MAX
    ensures var l := LayOut(rows);
      && l.colCount > 0 && |l.colLengths| == l.colCount
      && |Concat(rows)[m]| <= l.colLengths[m % l.colCount]
      && Gap(l, m, |Concat(rows)[m]|) + |Concat(rows)[m]| == l.colLengths[m % l.colCount]
  {
    var l := LayOut(rows);
    var n := l.colCount;
    var cells := Concat(rows);
    assert |rows| > 0;
    var r := ConcatCell(rows, n, m);
    var c := m % n;
    var w := l.colLengths[c];
    assert |cells[m]| <= w;
    var r' :| 0 <= r' < |rows| && |rows[r'][c]| == w;
    var k := CellInConcat(rows, n, r', c);
    assert w <= SIZE_MAX;
  }

  /**
   * Lay out scanned rows and pad every cell, in reading order. On a table
   * that is not mismatched every padding is the column width minus the
   * cell's size, so the `size_t` subtraction never wraps.
   */
  method PadRows(rows: seq<seq<seq<byte>>>) returns (l: Layout, gaps: seq<nat>)
    requires forall r :: 0 <= r < |rows| ==> |rows[r]| > 0
    requires forall k :: 0 <= k < |Concat(rows)| ==> |Concat(rows)[k]| <= SIZE_MAX
    ensures l == LayOut(rows)
    ensures l.mismatched ==> gaps == []
    ensures !l.mismatched ==> |gaps| == |Concat(rows)|
    ensures !l.mismatched && |gaps| > 0 ==> l.colCount > 0 && |l.colLengths| == l.colCount
    ensures !l.mismatched ==> forall m :: 0 <= m < |gaps| ==>
      gaps[m] + |Concat(rows)[m]| == l.colLengths[m % l.colCount]
  {
    l := LayOut(rows);
    gaps := [];
    if !l.mismatched {
      var cells := Concat(rows);
      var m := 0;
      while m < |cells|
        invariant m <= |cells| && |gaps| == m
        invariant |cells| > 0 ==> l.colCount > 0
        invariant forall p :: 0 <= p < m ==> gaps[p] + |cells[p]| == l.colLengths[p % l.colCount]
      {
        GapFits(rows, m);
        gaps := gaps + [Gap(l, m, |cells[m]|)];
        m := m + 1;
      }
    }
  }

  /**
   * The whole pass from the first table token `i`: scan, lay out, and pad
   * every cell; the `m`-th padding belongs to the token `elems[m]`.
   */
  method PadCells(ts: seq<Token>, i: nat) returns (s: Scan, l: Layout, gaps: seq<nat>)
    requires forall k :: 0 <= k < |ts| && ts[k].FormattedString? ==> |ts[k].value| <= SIZE_MAX
    ensures Scanned(ts, i, s)
    ensures forall r :: 0 <= r < |s.rows| ==> |s.rows[r]| > 0
    ensures forall m :: 0 <= m < |s.elems| ==> s.elems[m] < |ts| && IsCell(ts[s.elems[m]])
    ensures l == LayOut(s.rows)
    ensures l.mismatched ==> gaps == []
    ensures !l.mismatched ==> |gaps| == |s.elems|
    ensures !l.mismatched && |gaps| > 0 ==> l.colCount > 0 && |l.colLengths| == l.colCount
    ensures !l.mismatched ==> forall m :: 0 <= m < |s.elems| ==>
      gaps[m] + |TokenText(ts[s.elems[m]])| == l.colLengths[m % l.colCount]
  {
    s := ScanTable(ts, i);
    l, gaps := PadRows(s.rows);
  }

  /** The runs `a`, `|`, `b`, a line break and the run `c`, all with the Table bit. */
  function SplitTokens(): seq<Token> {
    [FormattedString(Table, [0x61]), FormattedString(Table, [PIPE]), FormattedString(Table, [0x62]),
     NewLine, FormattedString(Table, [0x63])]
  }

  /** Every token of `SplitTokens()` belongs to the table, and its cells are at 0, 2 and 4. */
  lemma SplitTokensPass()
    ensures forall k :: 0 <= k < 5 ==> !EndsTable(SplitTokens(), k)
    ensures forall k :: 0 <= k < 5 ==> SplitTokens()[k].NewLine? || IsTableRun(SplitTokens()[k])
    ensures forall k :: 0 <= k < 5 && IsCell(SplitTokens()[k]) ==> k in [0, 2, 4]
    ensures forall m :: 0 <= m < 3 ==> IsCell(SplitTokens()[[0, 2, 4][m]])
  {
    var ts := SplitTokens();
    assert IsTableRun(ts[4]);
  }

  /**
   * The rows (a, b) and (c) read the cells of `SplitTokens()` at 0, 2 and 4
   * in order, and split exactly at its line break.
   */
  lemma SplitRows()
    ensures var good: seq<seq<seq<byte>>> := [[[0x61], [0x62]], [[0x63]]];
      && |Concat(good)| == 3
      && (forall m :: 0 <= m < 3 ==> Concat(good)[m] == TokenText(SplitTokens()[[0, 2, 4][m]]))
      && (forall m :: 0 < m < 3 ==>
           (RowOf(good, m - 1) == RowOf(good, m) <==> NoBreak(SplitTokens(), [0, 2, 4][m - 1], [0, 2, 4][m])))
  {
    var ts := SplitTokens();
    var good: seq<seq<seq<byte>>> := [[[0x61], [0x62]], [[0x63]]];
    assert good[1..] == [[[0x63]]];
    assert Concat(good[1..]) == [[0x63]] + Concat([]);
    assert Concat(good) == [[0x61], [0x62], [0x63]];
    assert RowOf(good, 0) == 0 && RowOf(good, 1) == 0 && RowOf(good, 2) == 1;
    assert NoBreak(ts, 0, 2);
    assert ts[3].NewLine? && !NoBreak(ts, 2, 4);
  }

  /** Scanning `SplitTokens()`, the cells `a` and `b` share the first row and `c` opens the second. */
  lemma RowSplitExample()
    ensures Scanned(SplitTokens(), 0, Scan([[[0x61], [0x62]], [[0x63]]], [0, 2, 4], 5))
  {
    SplitTokensPass();
    SplitRows();
  }

  /** The rows `SplitTokens()` scans to are mismatched: two cells, then one. */
  lemma RowSplitMismatched()
    ensures LayOut([[[0x61], [0x62]], [[0x63]]]).mismatched
  {
    var good: seq<seq<seq<byte>>> := [[[0x61], [0x62]], [[0x63]]];
    assert |good[1]| != 2;
  }

  /** Reading the cells of `SplitTokens()` as three one-cell rows breaks the row-split promise. */
  lemma RowSplitExampleRejects()
    ensures !Scanned(SplitTokens(), 0, Scan([[[0x61]], [[0x62]], [[0x63]]], [0, 2, 4], 5))
  {
    var ts := SplitTokens();
    var bad: seq<seq<seq<byte>>> := [[[0x61]], [[0x62]], [[0x63]]];
    assert Concat(bad[2..]) == [[0x63]] + Concat([]);
    assert Concat(bad[1..]) == [[0x62]] + Concat(bad[2..]);
    assert Concat(bad) == [[0x61]] + Concat(bad[1..]);
    assert RowOf(bad, 0) == 0 && RowOf(bad, 1) == 1;
    assert NoBreak(ts, 0, 2);
  }

  /** Rows `a | bb` and `ccc | d` lay out as two columns of widths 3 and 2; the first cell is padded by 2. */
  lemma LayOutExample()
    ensures var rows := [[[0x61], [0x62, 0x62]], [[0x63, 0x63, 0x63], [0x64]]];
      var l := LayOut(rows);
      && l == Layout(2, false, [3, 2])
      && Gap(l, 0, 1) == 2
  {
    var rows: seq<seq<seq<byte>>> := [[[0x61], [0x62, 0x62]], [[0x63, 0x63, 0x63], [0x64]]];
    assert Uniform(rows, 2);
    assert ColumnWidth(rows, 0) == 3;
    assert ColumnWidth(rows, 1) == 2;
  }

  /** A second row with one cell fewer makes the table mismatched, and it gets no column widths. */
  lemma MismatchExample()
    ensures LayOut([[[0x61], [0x62]], [[0x63]]]) == Layout(2, true, [])
  {
    var rows: seq<seq<seq<byte>>> := [[[0x61], [0x62]], [[0x63]]];
    assert |rows[1]| != 2;
  }
}
