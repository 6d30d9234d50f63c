/**
  The table printing and argument helpers of the Kudu command-line tool
  (src/kudu/tools/tool_action_common.cc and .h): the column-major DataTable
  that AddRow and AddColumn grow in place, its separated and "pretty"
  renderings, the --format choice of PrintTo, MatchesAnyPattern and the '@'
  cluster-name rule. An output stream is modelled as the string written to it.
*/
module ToolTables {
  import opened Wrappers
  import opened KuduStatus
  import opened AsciiStrings

  // ---------------------------------------------------------------------------
  // Lines written piece by piece
  // ---------------------------------------------------------------------------

  /** n copies of c: what setw(n) << "" writes with fill character c. */
  function Fill(c: char, n: nat): (s: string)
    ensures |s| == n
  {
    seq(n, _ => c)
  }

  /** Piece k of a separated line: element k, then the separator unless k is the last. */
  function Piece(xs: seq<string>, sep: string, k: nat): string
    requires k < |xs|
  {
    if k == |xs| - 1 then xs[k] else xs[k] + sep
  }

  /** What a loop that writes Piece(xs, sep, 0), Piece(xs, sep, 1), ... has written after k rounds. */
  function Written(xs: seq<string>, sep: string, k: nat): string
    requires k <= |xs|
  {
    if k == 0 then "" else Written(xs, sep, k - 1) + Piece(xs, sep, k - 1)
  }

  lemma {:induction false} JoinSnoc(xs: seq<string>, x: string, sep: string)
    requires |xs| >= 1
    ensures Join(xs + [x], sep) == Join(xs, sep) + sep + x
  {
    if |xs| == 1 {
      assert (xs + [x])[1..] == [x];
    } else {
      assert (xs + [x])[1..] == xs[1..] + [x];
      JoinSnoc(xs[1..], x, sep);
    }
  }

  lemma {:induction false} WrittenBefore(xs: seq<string>, sep: string, k: nat)
    requires 0 < k < |xs|
    ensures Written(xs, sep, k) == Join(xs[..k], sep) + sep
  {
    if k == 1 {
      assert xs[..1] == [xs[0]];
    } else {
      var init := xs[..k - 1];
      var x := xs[k - 1];
      WrittenBefore(xs, sep, k - 1);
      assert Written(xs, sep, k) == (Join(init, sep) + sep) + (x + sep);
      assert xs[..k] == init + [x];
      JoinSnoc(init, x, sep);
      Assoc(Join(init, sep) + sep, x, sep);
    }
  }

  /** Writing every piece writes the elements joined by the separator. */
  lemma WrittenAll(xs: seq<string>, sep: string)
    ensures Written(xs, sep, |xs|) == Join(xs, sep)
  {
    if |xs| > 1 {
      var n := |xs| - 1;
      WrittenBefore(xs, sep, n);
      assert xs == xs[..n] + [xs[n]];
      JoinSnoc(xs[..n], xs[n], sep);
    }
  }

  /** One round of a writing loop: the element, then the separator unless it is the last. */
  lemma WrittenStep(xs: seq<string>, sep: string, k: nat)
    requires k < |xs|
    ensures k != |xs| - 1 ==> Written(xs, sep, k + 1) == Written(xs, sep, k) + xs[k] + sep
    ensures k == |xs| - 1 ==> Written(xs, sep, k + 1) == Written(xs, sep, k) + xs[k]
  {
    if k != |xs| - 1 {
      Assoc(Written(xs, sep, k), xs[k], sep);
    }
  }

  lemma Assoc(a: string, b: string, c: string)
    ensures a + (b + c) == a + b + c
  {
  }

  /** The middle and last of three concatenated strings, found by their lengths. */
  lemma Parts(a: string, b: string, c: string)
    ensures (a + b + c)[|a|..|a| + |b|] == b
    ensures (a + b + c)[|a| + |b|..] == c
  {
    var s := a + b + c;
    var mid := s[|a|..|a| + |b|];
    var last := s[|a| + |b|..];
    assert forall i :: 0 <= i < |b| ==> mid[i] == b[i];
    assert forall i :: 0 <= i < |c| ==> last[i] == c[i];
  }

  lemma {:induction false} WrittenPrefix(xs: seq<string>, sep: string, k: nat, m: nat)
    requires k <= m <= |xs|
    ensures Written(xs, sep, k) <= Written(xs, sep, m)
    decreases m
  {
    if k < m {
      WrittenPrefix(xs, sep, k, m - 1);
    }
  }

  /** What the loop has written after k rounds begins the joined line. */
  lemma WrittenInLine(xs: seq<string>, sep: string, k: nat, line: string)
    requires k <= |xs| && line == Join(xs, sep)
    ensures Written(xs, sep, k) <= line
  {
    WrittenPrefix(xs, sep, k, |xs|);
    WrittenAll(xs, sep);
  }

  // ---------------------------------------------------------------------------
  // Column alignment
  // ---------------------------------------------------------------------------

  /** Where column k starts in every line of a pretty table: each column before it takes its width plus three. */
  function Offset(widths: seq<nat>, k: nat): nat
    requires k <= |widths|
  {
    if k == 0 then 0 else Offset(widths, k - 1) + widths[k - 1] + 3
  }

  /** Every piece but the last, together with the separator after it, fills its column's width plus three. */
  predicate Aligned(xs: seq<string>, sep: string, widths: seq<nat>)
  {
    |xs| == |widths| && forall i :: 0 <= i < |xs| - 1 ==> |xs[i]| + |sep| == widths[i] + 3
  }

  lemma {:induction false} WrittenLength(xs: seq<string>, sep: string, widths: seq<nat>, k: nat)
    requires Aligned(xs, sep, widths) && k < |xs|
    ensures |Written(xs, sep, k)| == Offset(widths, k)
  {
    if k > 0 {
      WrittenLength(xs, sep, widths, k - 1);
    }
  }

  lemma PrefixSlice(a: string, b: string, i: nat, j: nat)
    requires a <= b && i <= j <= |a|
    ensures b[i..j] == a[i..j]
  {
  }

  /** Piece k as the loop writes it: the pieces before it fill Offset(widths, k). */
  lemma {:induction false} PieceWritten(xs: seq<string>, sep: string, widths: seq<nat>, k: nat)
    requires Aligned(xs, sep, widths) && k < |xs|
    ensures Offset(widths, k) + |xs[k]| <= |Written(xs, sep, k + 1)|
    ensures Written(xs, sep, k + 1)[Offset(widths, k)..Offset(widths, k) + |xs[k]|] == xs[k]
    ensures k < |xs| - 1 ==>
              Offset(widths, k + 1) == |Written(xs, sep, k + 1)| &&
              Written(xs, sep, k + 1)[Offset(widths, k) + |xs[k]|..Offset(widths, k + 1)] == sep
  {
    WrittenLength(xs, sep, widths, k);
    WrittenStep(xs, sep, k);
    var before := Written(xs, sep, k);
    if k < |xs| - 1 {
      Parts(before, xs[k], sep);
    } else {
      Parts(before, xs[k], "");
      assert before + xs[k] + "" == before + xs[k];
    }
  }

  /**
    In a line joined from aligned pieces, piece k starts at Offset(widths, k)
    and, unless it is the last, is followed by the separator, which ends where
    the next column starts.
  */
  lemma PieceAt(xs: seq<string>, sep: string, widths: seq<nat>, k: nat, line: string)
    requires Aligned(xs, sep, widths) && k < |xs| && line == Join(xs, sep)
    ensures Offset(widths, k) + |xs[k]| <= |line|
    ensures line[Offset(widths, k)..Offset(widths, k) + |xs[k]|] == xs[k]
    ensures k < |xs| - 1 ==>
              Offset(widths, k + 1) <= |line| &&
              line[Offset(widths, k) + |xs[k]|..Offset(widths, k + 1)] == sep
  {
    var upto := Written(xs, sep, k + 1);
    WrittenInLine(xs, sep, k + 1, line);
    PieceWritten(xs, sep, widths, k);
    var o := Offset(widths, k);
    var e := o + |xs[k]|;
    PrefixSlice(upto, line, o, e);
    if k < |xs| - 1 {
      PrefixSlice(upto, line, e, Offset(widths, k + 1));
    }
  }

  // ---------------------------------------------------------------------------
  // Column-major tables
  // ---------------------------------------------------------------------------

  /** Every column holds as many cells as the first. */
  predicate Rectangular(columns: seq<seq<string>>)
  {
    forall c :: 0 <= c < |columns| ==> |columns[c]| == |columns[0]|
  }

  /** The row count the printers use: the first column's length, or none without columns. */
  function NumRows(columns: seq<seq<string>>): nat
  {
    if |columns| == 0 then 0 else |columns[0]|
  }

  /** Row r read across the columns. */
  function Row(columns: seq<seq<string>>, r: nat): (cells: seq<string>)
    requires Rectangular(columns) && r < NumRows(columns)
    ensures |cells| == |columns|
  {
    seq(|columns|, c requires 0 <= c < |columns| => columns[c][r])
  }

  /** The columns after AddRow: cell c of the row appended to column c. */
  function AppendRow(columns: seq<seq<string>>, row: seq<string>): (r: seq<seq<string>>)
    requires |row| == |columns|
    ensures |r| == |columns|
  {
    seq(|columns|, c requires 0 <= c < |columns| => columns[c] + [row[c]])
  }

  /**
    Adding a row keeps the table rectangular; with at least one column it adds
    one row that reads back as the row given, and leaves the earlier rows as
    they were.
  */
  lemma AddRowReadsBack(columns: seq<seq<string>>, row: seq<string>)
    requires Rectangular(columns) && |row| == |columns|
    ensures Rectangular(AppendRow(columns, row))
    ensures |columns| > 0 ==> NumRows(AppendRow(columns, row)) == NumRows(columns) + 1
    ensures |columns| > 0 ==> Row(AppendRow(columns, row), NumRows(columns)) == row
    ensures forall r :: 0 <= r < NumRows(columns) ==> Row(AppendRow(columns, row), r) == Row(columns, r)
  {
    var a := AppendRow(columns, row);
    forall r | 0 <= r < NumRows(columns)
      ensures Row(a, r) == Row(columns, r)
    {
      assert forall c :: 0 <= c < |columns| ==> Row(a, r)[c] == Row(columns, r)[c];
    }
  }

  /**
    Adding a column whose length matches the rows keeps the table rectangular
    and the row count, and extends every row by the new column's cell.
  */
  lemma AddColumnExtendsRows(columns: seq<seq<string>>, column: seq<string>)
    requires Rectangular(columns) && (|columns| > 0 ==> |column| == |columns[0]|)
    ensures Rectangular(columns + [column])
    ensures NumRows(columns + [column]) == if |columns| > 0 then NumRows(columns) else |column|
    ensures forall r :: 0 <= r < NumRows(columns) ==> Row(columns + [column], r) == Row(columns, r) + [column[r]]
  {
    forall r | 0 <= r < NumRows(columns)
      ensures Row(columns + [column], r) == Row(columns, r) + [column[r]]
    {
      assert forall c :: 0 <= c < |columns| + 1 ==> Row(columns + [column], r)[c] == (Row(columns, r) + [column[r]])[c];
    }
  }

  // ---------------------------------------------------------------------------
  // PrintTable: separated values
  // ---------------------------------------------------------------------------

  /** The first k rows as PrintTable writes them: cells joined by the separator, each line newline-terminated. */
  function TableText(columns: seq<seq<string>>, sep: string, k: nat): string
    requires Rectangular(columns) && k <= NumRows(columns)
  {
    if k == 0 then "" else TableText(columns, sep, k - 1) + Join(Row(columns, k - 1), sep) + "\n"
  }

  /** PrintTable: one line per row, the cells in column order with the separator between them. */
  method PrintTable(columns: seq<seq<string>>, sep: string) returns (out: string)
    requires Rectangular(columns)
    ensures out == TableText(columns, sep, NumRows(columns))
  {
    out := "";
    var numColumns := |columns|;
    var numRows := if |columns| == 0 then 0 else |columns[0]|;
    for row := 0 to numRows
      invariant out == TableText(columns, sep, row)
    {
      ghost var before := out;
      ghost var cells := Row(columns, row);
      for col := 0 to numColumns
        invariant out == before + Written(cells, sep, col)
      {
        WrittenStep(cells, sep, col);
        assert columns[col][row] == cells[col];
        Assoc(before, Written(cells, sep, col), cells[col]);
        out := out + columns[col][row];
        if col != numColumns - 1 {
          Assoc(before, Written(cells, sep, col) + cells[col], sep);
          out := out + sep;
        }
      }
      WrittenAll(cells, sep);
      assert TableText(columns, sep, row + 1) == TableText(columns, sep, row) + Join(cells, sep) + "\n";
      Assoc(before, Join(cells, sep), "\n");
      out := out + "\n";
    }
  }

  /** The lines of PrintTable's output, without their newlines. */
  function Lines(columns: seq<seq<string>>, sep: string): (ls: seq<string>)
    requires Rectangular(columns)
    ensures |ls| == NumRows(columns)
  {
    seq(NumRows(columns), r requires 0 <= r < NumRows(columns) => Join(Row(columns, r), sep))
  }

  lemma {:induction false} TableTextLines(columns: seq<seq<string>>, sep: string, k: nat)
    requires Rectangular(columns) && 0 < k <= NumRows(columns)
    ensures TableText(columns, sep, k) == Join(Lines(columns, sep)[..k], "\n") + "\n"
  {
    var ls := Lines(columns, sep);
    if k == 1 {
      assert ls[..1] == [ls[0]];
    } else {
      TableTextLines(columns, sep, k - 1);
      assert ls[..k] == ls[..k - 1] + [ls[k - 1]];
      JoinSnoc(ls[..k - 1], ls[k - 1], "\n");
    }
  }

  /** s does not contain d. */
  predicate Avoids(s: string, d: char)
  {
    forall i :: 0 <= i < |s| ==> s[i] != d
  }

  lemma {:induction false} JoinAvoids(xs: seq<string>, sep: string, d: char)
    requires Avoids(sep, d) && forall j :: 0 <= j < |xs| ==> Avoids(xs[j], d)
    ensures Avoids(Join(xs, sep), d)
  {
    if |xs| > 1 {
      JoinAvoids(xs[1..], sep, d);
    }
  }

  /**
    When no cell holds the one-character separator or a newline, PrintTable's
    output reads back as the table: split at newlines it gives one line per
    row, and each line split at the separator gives that row's cells.
  */
  lemma PrintTableParses(columns: seq<seq<string>>, c: char)
    requires Rectangular(columns) && NumRows(columns) > 0 && c != '\n'
    requires forall col, r :: 0 <= col < |columns| && 0 <= r < |columns[col]| ==>
               Avoids(columns[col][r], c) && Avoids(columns[col][r], '\n')
    ensures TableText(columns, [c], NumRows(columns)) == Join(Lines(columns, [c]), "\n") + "\n"
    ensures Split(Join(Lines(columns, [c]), "\n"), '\n') == Lines(columns, [c])
    ensures forall r :: 0 <= r < NumRows(columns) ==> Split(Lines(columns, [c])[r], c) == Row(columns, r)
  {
    var ls := Lines(columns, [c]);
    TableTextLines(columns, [c], NumRows(columns));
    assert ls[..NumRows(columns)] == ls;
    forall r | 0 <= r < NumRows(columns)
      ensures Avoids(ls[r], '\n') && Split(ls[r], c) == Row(columns, r)
    {
      JoinAvoids(Row(columns, r), [c], '\n');
      SplitJoin(Row(columns, r), c);
    }
    SplitJoin(ls, '\n');
  }

  // ---------------------------------------------------------------------------
  // PrettyPrintTable
  // ---------------------------------------------------------------------------

  /** The accumulate of PrettyPrintTable: the larger of acc and the longest cell. */
  function MaxLength(acc: nat, cells: seq<string>): (w: nat)
    ensures w >= acc && forall i :: 0 <= i < |cells| ==> |cells[i]| <= w
    ensures w == acc || exists i :: 0 <= i < |cells| && w == |cells[i]|
    decreases |cells|
  {
    if |cells| == 0 then acc
    else
      var w := MaxLength(if |cells[0]| > acc then |cells[0]| else acc, cells[1..]);
      assert forall i :: 1 <= i < |cells| ==> cells[i] == cells[1..][i - 1];
      w
  }

  /** The width of column col: the longer of its header and its longest cell. */
  function Width(headers: seq<string>, columns: seq<seq<string>>, col: nat): (w: nat)
    requires |headers| == |columns| && col < |headers|
    ensures w >= |headers[col]| && forall r :: 0 <= r < |columns[col]| ==> |columns[col][r]| <= w
  {
    MaxLength(|headers[col]|, columns[col])
  }

  function Widths(headers: seq<string>, columns: seq<seq<string>>): (ws: seq<nat>)
    requires |headers| == |columns|
    ensures |ws| == |headers|
  {
    seq(|headers|, col requires 0 <= col < |headers| => Width(headers, columns, col))
  }

  /** A header centred in its column: half the padding (rounded down) before it, the rest after it unless it is the last. */
  function HeaderCell(headers: seq<string>, columns: seq<seq<string>>, col: nat): string
    requires |headers| == |columns| && col < |headers|
  {
    Fill(' ', Half(Width(headers, columns, col) - |headers[col]|)) + " " + headers[col] +
    (if col == |headers| - 1 then "" else Fill(' ', Width(headers, columns, col) - |headers[col]| - Half(Width(headers, columns, col) - |headers[col]|)))
  }

  /** n / 2, rounded down. */
  function Half(n: nat): (h: nat)
    ensures h <= n
  {
    if n < 2 then 0 else 1 + Half(n - 2)
  }

  lemma {:induction false} HalfIsDiv(n: nat)
    ensures Half(n) == n / 2 && n - Half(n) == (n + 1) / 2
  {
    if n >= 2 {
      HalfIsDiv(n - 2);
    }
  }

  function HeaderCells(headers: seq<string>, columns: seq<seq<string>>): (cs: seq<string>)
    requires |headers| == |columns|
    ensures |cs| == |headers|
  {
    seq(|headers|, col requires 0 <= col < |headers| => HeaderCell(headers, columns, col))
  }

  /** The dash runs of the separator row: width plus two per column. */
  function DashRuns(headers: seq<string>, columns: seq<seq<string>>): (ds: seq<string>)
    requires |headers| == |columns|
    ensures |ds| == |headers|
  {
    seq(|headers|, col requires 0 <= col < |headers| => Fill('-', Width(headers, columns, col) + 2))
  }

  /** A data cell left-aligned in its column, padded to the width unless it is the last. */
  function DataCell(headers: seq<string>, columns: seq<seq<string>>, r: nat, col: nat): string
    requires |headers| == |columns| && Rectangular(columns) && r < NumRows(columns) && col < |headers|
  {
    " " + columns[col][r] +
    (if col == |headers| - 1 then "" else Fill(' ', Width(headers, columns, col) - |columns[col][r]|))
  }

  function DataCells(headers: seq<string>, columns: seq<seq<string>>, r: nat): (cs: seq<string>)
    requires |headers| == |columns| && Rectangular(columns) && r < NumRows(columns)
    ensures |cs| == |headers|
  {
    seq(|headers|, col requires 0 <= col < |headers| => DataCell(headers, columns, r, col))
  }

  /** The header row: header cells separated by " |". */
  function PrettyHeader(headers: seq<string>, columns: seq<seq<string>>): string
    requires |headers| == |columns|
  {
    Join(HeaderCells(headers, columns), " |")
  }

  /** The separator row: dash runs joined by '+'. */
  function PrettySeparator(headers: seq<string>, columns: seq<seq<string>>): string
    requires |headers| == |columns|
  {
    Join(DashRuns(headers, columns), "+")
  }

  /** Data row r: its cells separated by " |". */
  function PrettyRow(headers: seq<string>, columns: seq<seq<string>>, r: nat): string
    requires |headers| == |columns| && Rectangular(columns) && r < NumRows(columns)
  {
    Join(DataCells(headers, columns, r), " |")
  }

  /** The first k data rows of a pretty table. */
  function DataText(headers: seq<string>, columns: seq<seq<string>>, k: nat): string
    requires |headers| == |columns| && Rectangular(columns) && k <= NumRows(columns)
  {
    if k == 0 then "" else DataText(headers, columns, k - 1) + PrettyRow(headers, columns, k - 1) + "\n"
  }

  /**
    The psql-style table: the header row with cells separated by " |", a row of
    dash runs joined by '+', then the data rows; nothing at all without columns.
  */
  function PrettyText(headers: seq<string>, columns: seq<seq<string>>): string
    requires |headers| == |columns| && Rectangular(columns)
  {
    if |headers| == 0 then ""
    else PrettyHeader(headers, columns) + "\n" + PrettySeparator(headers, columns) + "\n" + DataText(headers, columns, NumRows(columns))
  }

  /** The text one round of the header loop writes: the centred header, then the rest of the padding and " |" unless it is the last. */
  lemma HeaderPiece(headers: seq<string>, columns: seq<seq<string>>, col: nat, padding: nat)
    requires |headers| == |columns| && col < |headers| && padding == Width(headers, columns, col) - |headers[col]|
    ensures col != |headers| - 1 ==>
              Piece(HeaderCells(headers, columns), " |", col) ==
                Fill(' ', padding / 2) + " " + headers[col] + Fill(' ', (padding + 1) / 2) + " |"
    ensures col == |headers| - 1 ==>
              Piece(HeaderCells(headers, columns), " |", col) == Fill(' ', padding / 2) + " " + headers[col]
  {
    HalfIsDiv(padding);
    var cell := Fill(' ', padding / 2) + " " + headers[col];
    if col == |headers| - 1 {
      assert HeaderCells(headers, columns)[col] == cell + "";
      assert cell + "" == cell;
    }
  }

  /** The text one round of the separator loop writes: width plus two dashes, then '+' unless it is the last. */
  lemma DashPiece(headers: seq<string>, columns: seq<seq<string>>, col: nat)
    requires |headers| == |columns| && col < |headers|
    ensures col != |headers| - 1 ==> Piece(DashRuns(headers, columns), "+", col) == Fill('-', Width(headers, columns, col) + 2) + "+"
    ensures col == |headers| - 1 ==> Piece(DashRuns(headers, columns), "+", col) == Fill('-', Width(headers, columns, col) + 2)
  {
  }

  /** The text one round of a data row's loop writes: a space and the cell, then padding and " |" unless it is the last. */
  lemma DataPiece(headers: seq<string>, columns: seq<seq<string>>, r: nat, col: nat, padding: nat)
    requires |headers| == |columns| && Rectangular(columns) && r < NumRows(columns) && col < |headers|
    requires padding == Width(headers, columns, col) - |columns[col][r]|
    ensures col != |headers| - 1 ==>
              Piece(DataCells(headers, columns, r), " |", col) == " " + columns[col][r] + Fill(' ', padding) + " |"
    ensures col == |headers| - 1 ==>
              Piece(DataCells(headers, columns, r), " |", col) == " " + columns[col][r]
  {
    var cell := " " + columns[col][r];
    if col == |headers| - 1 {
      assert DataCells(headers, columns, r)[col] == cell + "";
      assert cell + "" == cell;
    }
  }

  /** The header row of PrettyPrintTable: each header centred in its column. */
  method HeaderRow(headers: seq<string>, columns: seq<seq<string>>, widths: seq<nat>) returns (line: string)
    requires |headers| == |columns| && widths == Widths(headers, columns)
    ensures line == PrettyHeader(headers, columns)
  {
    line := "";
    var numColumns := |headers|;
    for col := 0 to numColumns
      invariant line == Written(HeaderCells(headers, columns), " |", col)
    {
      assert widths[col] == Width(headers, columns, col);
      var padding := widths[col] - |headers[col]|;
      var cell := Fill(' ', padding / 2) + " " + headers[col];
      if col != numColumns - 1 {
        cell := cell + Fill(' ', (padding + 1) / 2) + " |";
      }
      HeaderPiece(headers, columns, col, padding);
      assert cell == Piece(HeaderCells(headers, columns), " |", col);
      assert Written(HeaderCells(headers, columns), " |", col + 1) == Written(HeaderCells(headers, columns), " |", col) + cell;
      line := line + cell;
    }
    WrittenAll(HeaderCells(headers, columns), " |");
  }

  /** The separator row of PrettyPrintTable: a run of dashes two longer than each column's width. */
  method SeparatorRow(headers: seq<string>, columns: seq<seq<string>>, widths: seq<nat>) returns (line: string)
    requires |headers| == |columns| && widths == Widths(headers, columns)
    ensures line == PrettySeparator(headers, columns)
  {
    line := "";
    var numColumns := |headers|;
    for col := 0 to numColumns
      invariant line == Written(DashRuns(headers, columns), "+", col)
    {
      assert widths[col] == Width(headers, columns, col);
      var dashes := Fill('-', widths[col] + 2);
      if col != numColumns - 1 {
        dashes := dashes + "+";
      }
      DashPiece(headers, columns, col);
      assert dashes == Piece(DashRuns(headers, columns), "+", col);
      assert Written(DashRuns(headers, columns), "+", col + 1) == Written(DashRuns(headers, columns), "+", col) + dashes;
      line := line + dashes;
    }
    WrittenAll(DashRuns(headers, columns), "+");
  }

  /** Data row r of PrettyPrintTable: each cell after a space, padded to its column's width. */
  method DataRow(headers: seq<string>, columns: seq<seq<string>>, widths: seq<nat>, row: nat) returns (line: string)
    requires |headers| == |columns| && Rectangular(columns) && row < NumRows(columns)
    requires widths == Widths(headers, columns)
    ensures line == PrettyRow(headers, columns, row)
  {
    line := "";
    var numColumns := |headers|;
    for col := 0 to numColumns
      invariant line == Written(DataCells(headers, columns, row), " |", col)
    {
      assert widths[col] == Width(headers, columns, col);
      var value := columns[col][row];
      var cell := " " + value;
      var padding := widths[col] - |value|;
      if col != numColumns - 1 {
        cell := cell + Fill(' ', padding) + " |";
      }
      DataPiece(headers, columns, row, col, padding);
      assert cell == Piece(DataCells(headers, columns, row), " |", col);
      assert Written(DataCells(headers, columns, row), " |", col + 1) == Written(DataCells(headers, columns, row), " |", col) + cell;
      line := line + cell;
    }
    WrittenAll(DataCells(headers, columns, row), " |");
  }

  /** PrettyPrintTable: column widths first, then the header, separator and data rows. */
  method PrettyPrintTable(headers: seq<string>, columns: seq<seq<string>>) returns (out: string)
    requires |headers| == |columns| && Rectangular(columns)
    ensures out == PrettyText(headers, columns)
  {
    out := "";
    if |headers| == 0 {
      return;
    }
    var numColumns := |headers|;

    var widths: seq<nat> := [];
    for col := 0 to numColumns
      invariant widths == Widths(headers, columns)[..col]
    {
      widths := widths + [MaxLength(|headers[col]|, columns[col])];
    }
    assert widths == Widths(headers, columns)[..numColumns];

    var header := HeaderRow(headers, columns, widths);
    out := out + header + "\n";
    var separator := SeparatorRow(headers, columns, widths);
    out := out + separator + "\n";

    ghost var top := out;
    assert top == PrettyHeader(headers, columns) + "\n" + PrettySeparator(headers, columns) + "\n";
    var numRows := |columns[0]|;
    for row := 0 to numRows
      invariant out == top + DataText(headers, columns, row)
    {
      var line := DataRow(headers, columns, widths, row);
      assert DataText(headers, columns, row + 1) == DataText(headers, columns, row) + line + "\n";
      Assoc(top, DataText(headers, columns, row), line);
      Assoc(top, DataText(headers, columns, row) + line, "\n");
      out := out + line + "\n";
    }
    assert out == top + DataText(headers, columns, NumRows(columns));
  }

  lemma HeadersAligned(headers: seq<string>, columns: seq<seq<string>>)
    requires |headers| == |columns|
    ensures Aligned(HeaderCells(headers, columns), " |", Widths(headers, columns))
  {
    var hs := HeaderCells(headers, columns);
    forall i | 0 <= i < |hs| - 1
      ensures |hs[i]| + 2 == Widths(headers, columns)[i] + 3
    {
      var pad := Width(headers, columns, i) - |headers[i]|;
      assert |hs[i]| == Half(pad) + 1 + |headers[i]| + (pad - Half(pad));
    }
  }

  lemma DashesAligned(headers: seq<string>, columns: seq<seq<string>>)
    requires |headers| == |columns|
    ensures Aligned(DashRuns(headers, columns), "+", Widths(headers, columns))
  {
  }

  lemma DataAligned(headers: seq<string>, columns: seq<seq<string>>, r: nat)
    requires |headers| == |columns| && Rectangular(columns) && r < NumRows(columns)
    ensures Aligned(DataCells(headers, columns, r), " |", Widths(headers, columns))
  {
    var ds := DataCells(headers, columns, r);
    forall i | 0 <= i < |ds| - 1
      ensures |ds[i]| + 2 == Widths(headers, columns)[i] + 3
    {
      assert |ds[i]| == 1 + |columns[i][r]| + (Width(headers, columns, i) - |columns[i][r]|);
    }
  }

  /** text occurs in line starting at position o. */
  predicate OccursAt(line: string, o: nat, text: string)
  {
    o + |text| <= |line| && line[o..o + |text|] == text
  }

  /** Text at position 1 of a piece that sits at position o of a line sits at o + 1 of the line. */
  lemma TextInLine(line: string, piece: string, text: string, o: nat)
    requires OccursAt(line, o, piece) && OccursAt(piece, 1, text)
    ensures OccursAt(line, o + 1, text)
  {
    var inLine := line[o + 1..o + 1 + |text|];
    var inPiece := piece[1..1 + |text|];
    assert forall k :: 0 <= k < |text| ==> inLine[k] == inPiece[k];
  }

  /** Text one character into piece k of an aligned line sits one character after Offset(widths, k). */
  lemma TextAt(xs: seq<string>, sep: string, widths: seq<nat>, k: nat, text: string, line: string)
    requires Aligned(xs, sep, widths) && k < |xs| && line == Join(xs, sep) && OccursAt(xs[k], 1, text)
    ensures OccursAt(line, Offset(widths, k) + 1, text)
  {
    PieceAt(xs, sep, widths, k, line);
    TextInLine(line, xs[k], text, Offset(widths, k));
  }

  /** A data cell holds its text after one space. */
  lemma DataCellText(headers: seq<string>, columns: seq<seq<string>>, r: nat, col: nat)
    requires |headers| == |columns| && Rectangular(columns) && r < NumRows(columns) && col < |headers|
    ensures OccursAt(DataCells(headers, columns, r)[col], 1, columns[col][r])
  {
    var v := columns[col][r];
    var tail := if col == |headers| - 1 then "" else Fill(' ', Width(headers, columns, col) - |v|);
    assert DataCells(headers, columns, r)[col] == " " + v + tail;
    assert (" " + v + tail)[1..1 + |v|] == v;
  }

  /** In every data row of a pretty table, the text of cell col starts one space after Offset(widths, col). */
  lemma PrettyCellAt(headers: seq<string>, columns: seq<seq<string>>, r: nat, col: nat)
    requires |headers| == |columns| && Rectangular(columns) && r < NumRows(columns) && col < |headers|
    ensures OccursAt(PrettyRow(headers, columns, r), Offset(Widths(headers, columns), col) + 1, columns[col][r])
  {
    var cells := DataCells(headers, columns, r);
    var line := PrettyRow(headers, columns, r);
    DataAligned(headers, columns, r);
    DataCellText(headers, columns, r, col);
    TextAt(cells, " |", Widths(headers, columns), col, columns[col][r], line);
  }

  /**
    The columns of a pretty table line up: where column col ends, the header
    row and every data row have their '|' and the separator row its '+', all
    at Offset(widths, col + 1) - 1.
  */
  lemma PrettyBarsAlign(headers: seq<string>, columns: seq<seq<string>>, r: nat, col: nat)
    requires |headers| == |columns| && Rectangular(columns) && r < NumRows(columns) && col < |headers| - 1
    ensures Offset(Widths(headers, columns), col + 1) <= |PrettyHeader(headers, columns)|
    ensures Offset(Widths(headers, columns), col + 1) <= |PrettySeparator(headers, columns)|
    ensures Offset(Widths(headers, columns), col + 1) <= |PrettyRow(headers, columns, r)|
    ensures PrettyHeader(headers, columns)[Offset(Widths(headers, columns), col + 1) - 1] == '|'
    ensures PrettySeparator(headers, columns)[Offset(Widths(headers, columns), col + 1) - 1] == '+'
    ensures PrettyRow(headers, columns, r)[Offset(Widths(headers, columns), col + 1) - 1] == '|'
  {
    HeaderBar(headers, columns, col);
    SeparatorPlus(headers, columns, col);
    RowBar(headers, columns, r, col);
  }

  lemma HeaderBar(headers: seq<string>, columns: seq<seq<string>>, col: nat)
    requires |headers| == |columns| && col < |headers| - 1
    ensures Offset(Widths(headers, columns), col + 1) <= |PrettyHeader(headers, columns)|
    ensures PrettyHeader(headers, columns)[Offset(Widths(headers, columns), col + 1) - 1] == '|'
  {
    var cells := HeaderCells(headers, columns);
    var line := PrettyHeader(headers, columns);
    HeadersAligned(headers, columns);
    BarAt(cells, " |", Widths(headers, columns), col, line, '|');
  }

  lemma SeparatorPlus(headers: seq<string>, columns: seq<seq<string>>, col: nat)
    requires |headers| == |columns| && col < |headers| - 1
    ensures Offset(Widths(headers, columns), col + 1) <= |PrettySeparator(headers, columns)|
    ensures PrettySeparator(headers, columns)[Offset(Widths(headers, columns), col + 1) - 1] == '+'
  {
    var runs := DashRuns(headers, columns);
    var line := PrettySeparator(headers, columns);
    DashesAligned(headers, columns);
    BarAt(runs, "+", Widths(headers, columns), col, line, '+');
  }

  lemma RowBar(headers: seq<string>, columns: seq<seq<string>>, r: nat, col: nat)
    requires |headers| == |columns| && Rectangular(columns) && r < NumRows(columns) && col < |headers| - 1
    ensures Offset(Widths(headers, columns), col + 1) <= |PrettyRow(headers, columns, r)|
    ensures PrettyRow(headers, columns, r)[Offset(Widths(headers, columns), col + 1) - 1] == '|'
  {
    var cells := DataCells(headers, columns, r);
    var line := PrettyRow(headers, columns, r);
    DataAligned(headers, columns, r);
    BarAt(cells, " |", Widths(headers, columns), col, line, '|');
  }

  /** The last character of the separator after piece k ends the column. */
  lemma BarAt(xs: seq<string>, sep: string, widths: seq<nat>, k: nat, line: string, bar: char)
    requires Aligned(xs, sep, widths) && k < |xs| - 1 && |sep| > 0 && sep[|sep| - 1] == bar
    requires line == Join(xs, sep)
    ensures Offset(widths, k + 1) <= |line|
    ensures line[Offset(widths, k + 1) - 1] == bar
  {
    PieceAt(xs, sep, widths, k, line);
    var o := Offset(widths, k) + |xs[k]|;
    assert line[o..Offset(widths, k + 1)][|sep| - 1] == sep[|sep| - 1];
  }

  // ---------------------------------------------------------------------------
  // DataTable
  // ---------------------------------------------------------------------------

  /** The output formats of --format. */
  datatype Format = Pretty | Separated(sep: string) | Json

  /** The --format flag, compared without regard to case; anything else is an InvalidArgument. */
  function ParseFormat(flag: string): (r: Result<Format, Status>)
    ensures r.Err? ==> r.error == InvalidArgument("unknown format (--format): " + flag)
  {
    if IEquals(flag, "pretty") then Ok(Pretty)
    else if IEquals(flag, "space") then Ok(Separated(" "))
    else if IEquals(flag, "tsv") then Ok(Separated("\t"))
    else if IEquals(flag, "csv") then Ok(Separated(","))
    else if IEquals(flag, "json") then Ok(Json)
    else Err(InvalidArgument("unknown format (--format): " + flag))
  }

  /**
    The flag is accepted exactly when it is one of the five format names up to
    case, and flags that differ only in case choose the same format.
  */
  lemma ParseFormatAccepts(flag: string, other: string)
    ensures ParseFormat(flag).Ok? <==>
              IEquals(flag, "pretty") || IEquals(flag, "space") || IEquals(flag, "tsv") ||
              IEquals(flag, "csv") || IEquals(flag, "json")
    ensures IEquals(flag, other) && ParseFormat(flag).Ok? ==> ParseFormat(other) == ParseFormat(flag)
  {
  }

  /** A table of named columns, stored column by column. */
  class DataTable {
    var columnNames: seq<string>
    var columns: seq<seq<string>>

    /** One name per column, and every column as long as the others. */
    predicate Valid()
      reads this
    {
      |columnNames| == |columns| && Rectangular(columns)
    }

    /** A table with the given column names and no rows. */
    constructor(colNames: seq<string>)
      ensures columnNames == colNames && |columns| == |colNames| && NumRows(columns) == 0
      ensures forall c :: 0 <= c < |columns| ==> columns[c] == []
      ensures Valid()
    {
      columnNames := colNames;
      columns := seq(|colNames|, _ => []);
    }

    /** AddRow: the row must have a cell per column; cell i goes to the end of column i. */
    method AddRow(row: seq<string>)
      requires Valid() && |row| == |columns|
      modifies this
      ensures columnNames == old(columnNames)
      ensures columns == AppendRow(old(columns), row)
      ensures Valid()
    {
      for i := 0 to |row|
        invariant |columns| == |old(columns)| && columnNames == old(columnNames)
        invariant forall c :: 0 <= c < i ==> columns[c] == old(columns)[c] + [row[c]]
        invariant forall c :: i <= c < |columns| ==> columns[c] == old(columns)[c]
      {
        columns := columns[i := columns[i] + [row[i]]];
      }
      AddRowReadsBack(old(columns), row);
    }

    /** AddColumn: once there are columns the new one must match their length; it goes on the right. */
    method AddColumn(name: string, column: seq<string>)
      requires Valid() && (|columns| > 0 ==> |column| == |columns[0]|)
      modifies this
      ensures columnNames == old(columnNames) + [name]
      ensures columns == old(columns) + [column]
      ensures Valid()
    {
      AddColumnExtendsRows(columns, column);
      columnNames := columnNames + [name];
      columns := columns + [column];
    }

    /**
      PrintTo: renders the table in the format the flag names, or fails with
      InvalidArgument for an unknown one. It changes nothing. The JSON writer
      is the parameter json.
    */
    method PrintTo(format: string, json: (seq<string>, seq<seq<string>>) -> string) returns (r: Result<string, Status>)
      requires Valid()
      ensures ParseFormat(format) == Ok(Pretty) ==> r == Ok(PrettyText(columnNames, columns))
      ensures ParseFormat(format).Ok? && ParseFormat(format).value.Separated? ==>
                r == Ok(TableText(columns, ParseFormat(format).value.sep, NumRows(columns)))
      ensures ParseFormat(format) == Ok(Json) ==> r == Ok(json(columnNames, columns))
      ensures ParseFormat(format).Err? ==> r == Err(ParseFormat(format).error)
    {
      var out: string;
      if IEquals(format, "pretty") {
        out := PrettyPrintTable(columnNames, columns);
      } else if IEquals(format, "space") {
        out := PrintTable(columns, " ");
      } else if IEquals(format, "tsv") {
        out := PrintTable(columns, "\t");
      } else if IEquals(format, "csv") {
        out := PrintTable(columns, ",");
      } else if IEquals(format, "json") {
        out := json(columnNames, columns);
      } else {
        return Err(InvalidArgument("unknown format (--format): " + format));
      }
      r := Ok(out);
    }
  }

  // ---------------------------------------------------------------------------
  // Argument helpers
  // ---------------------------------------------------------------------------

  /** Whether some pattern of the list matches s. */
  function AnyMatches(patterns: seq<string>, s: string, matchPattern: (string, string) -> bool): (r: bool)
    ensures r <==> exists i :: 0 <= i < |patterns| && matchPattern(s, patterns[i])
  {
    if |patterns| == 0 then false
    else if matchPattern(s, patterns[0]) then true
    else
      var r := AnyMatches(patterns[1..], s, matchPattern);
      assert forall i :: 1 <= i < |patterns| ==> patterns[i] == patterns[1..][i - 1];
      r
  }

  /**
    MatchesAnyPattern: an empty pattern list is a wildcard; otherwise s must
    match one of the patterns. MatchPattern is the parameter matchPattern.
  */
  function MatchesAnyPattern(patterns: seq<string>, s: string, matchPattern: (string, string) -> bool): (r: bool)
    ensures r <==> |patterns| == 0 || exists i :: 0 <= i < |patterns| && matchPattern(s, patterns[i])
  {
    if |patterns| == 0 then true else AnyMatches(patterns, s, matchPattern)
  }

  /**
    GetClusterName: a master-address argument that starts with '@' names a
    cluster, and the name is the rest of the argument; anything else is an
    address list.
  */
  function GetClusterName(masterAddresses: string): (r: Option<string>)
    ensures r.Some? <==> |masterAddresses| > 0 && masterAddresses[0] == '@'
    ensures r.Some? ==> "@" + r.value == masterAddresses
  {
    if |masterAddresses| > 0 && masterAddresses[0] == '@' then Some(masterAddresses[1..]) else None
  }

  /** '@' followed by a name is read back as that name. */
  lemma ClusterNameRoundTrip(name: string)
    ensures GetClusterName("@" + name) == Some(name)
  {
    assert ("@" + name)[1..] == name;
  }
}
