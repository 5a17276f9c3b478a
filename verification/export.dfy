/** The spreadsheet export: a header row `키워드 | 블로거 ID` in row 1, and
    table row `i` (from 0) in sheet row `i + 2`, keyword in column 1 and id
    in column 2. Cells are addressed `(row, column)` from 1, as the
    spreadsheet library does. */
module Export {
  import opened Table

  /** Cell contents by `(row, column)`. */
  type Sheet = map<(int, int), string>

  const KeywordHeader: string := "키워드"
  const IdHeader: string := "블로거 ID"

  /** The cells a table of `n` rows fills: two columns, the header row and
      `n` data rows. */
  predicate InLayout(cell: (int, int), n: nat) {
    1 <= cell.0 <= n + 1 && 1 <= cell.1 <= 2
  }

  /** The sheet holding `table` under the header. */
  function WriteSheet(table: seq<Row>): (sheet: Sheet)
    ensures forall cell :: cell in sheet <==> InLayout(cell, |table|)
    ensures (1, 1) in sheet && sheet[(1, 1)] == KeywordHeader
    ensures (1, 2) in sheet && sheet[(1, 2)] == IdHeader
    ensures forall i :: 0 <= i < |table| ==>
              && (i + 2, 1) in sheet && sheet[(i + 2, 1)] == table[i].keyword
              && (i + 2, 2) in sheet && sheet[(i + 2, 2)] == table[i].bloggerId
  {
    if |table| == 0 then map[(1, 1) := KeywordHeader, (1, 2) := IdHeader]
    else
      var last := table[|table| - 1];
      var row := |table| + 1;
      WriteSheet(table[..|table| - 1])[(row, 1) := last.keyword][(row, 2) := last.bloggerId]
  }

  /** The first `n` data rows of a sheet, read back. */
  function ReadTable(sheet: Sheet, n: nat): (table: seq<Row>)
    requires forall i :: 2 <= i < n + 2 ==> (i, 1) in sheet && (i, 2) in sheet
    ensures |table| == n
  {
    if n == 0 then []
    else ReadTable(sheet, n - 1) + [Row(sheet[(n + 1, 1)], sheet[(n + 1, 2)])]
  }

  /** Reading the data rows back gives the table written, in order. */
  lemma {:induction false} ReadWritten(table: seq<Row>, sheet: Sheet, n: nat)
    requires n <= |table|
    requires forall cell :: cell in sheet <==> InLayout(cell, |table|)
    requires forall i :: 0 <= i < |table| ==>
               && (i + 2, 1) in sheet && sheet[(i + 2, 1)] == table[i].keyword
               && (i + 2, 2) in sheet && sheet[(i + 2, 2)] == table[i].bloggerId
    ensures forall i :: 2 <= i < n + 2 ==> (i, 1) in sheet && (i, 2) in sheet
    ensures ReadTable(sheet, n) == table[..n]
  {
    assert forall i :: 2 <= i < n + 2 ==> InLayout((i, 1), |table|) && InLayout((i, 2), |table|);
    if n > 0 {
      ReadWritten(table, sheet, n - 1);
      assert table[..n] == table[..n - 1] + [table[n - 1]];
    }
  }

  /** The export round trip: the sheet's data rows are the table. */
  lemma SheetRoundTrip(table: seq<Row>)
    ensures forall i :: 2 <= i < |table| + 2 ==> (i, 1) in WriteSheet(table) && (i, 2) in WriteSheet(table)
    ensures ReadTable(WriteSheet(table), |table|) == table
  {
    ReadWritten(table, WriteSheet(table), |table|);
  }

  /** An empty table exports the header row alone. */
  lemma EmptyTableHeaderOnly()
    ensures WriteSheet([]) == map[(1, 1) := KeywordHeader, (1, 2) := IdHeader]
  {
  }
}
