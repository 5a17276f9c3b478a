/** The result table the driver builds: for each keyword, in input order, a
    frame pairing the keyword with each id found for it, and all frames
    concatenated with a fresh index (`pd.concat(..., ignore_index=True)`).
    The success message reports the table's length, its number of rows. */
module Table {

  /** One row: the keyword (column `검색어`) and one blogger id (column
      `블로거 ID`). */
  datatype Row = Row(keyword: string, bloggerId: string)

  /** One keyword's frame: the keyword repeated next to each of its ids. */
  function Batch(keyword: string, ids: seq<string>): (rows: seq<Row>)
    ensures |rows| == |ids|
    ensures forall i :: 0 <= i < |rows| ==> rows[i] == Row(keyword, ids[i])
  {
    if |ids| == 0 then []
    else [Row(keyword, ids[0])] + Batch(keyword, ids[1..])
  }

  /** The number of ids over all keywords. */
  function TotalLength(lists: seq<seq<string>>): nat {
    if |lists| == 0 then 0
    else TotalLength(lists[..|lists| - 1]) + |lists[|lists| - 1]|
  }

  /** Where the rows of keyword `k` begin: after the rows of every earlier
      keyword. */
  function Offset(lists: seq<seq<string>>, k: nat): nat
    requires k <= |lists|
  {
    TotalLength(lists[..k])
  }

  /** The concatenated table for keywords with their id lists. */
  function KeywordTable(keywords: seq<string>, lists: seq<seq<string>>): (table: seq<Row>)
    requires |keywords| == |lists|
    ensures |table| == TotalLength(lists)
  {
    if |lists| == 0 then []
    else
      var n := |lists| - 1;
      KeywordTable(keywords[..n], lists[..n]) + Batch(keywords[n], lists[n])
  }

  /** Keyword `k`'s `i`-th id sits in row `Offset(lists, k) + i`: the rows
      are grouped keyword by keyword, in input order, each group in the
      order of its list. */
  lemma {:induction false} KeywordTableIndex(keywords: seq<string>, lists: seq<seq<string>>, k: nat, i: nat)
    requires |keywords| == |lists|
    requires k < |lists| && i < |lists[k]|
    ensures Offset(lists, k) + i < |KeywordTable(keywords, lists)|
    ensures KeywordTable(keywords, lists)[Offset(lists, k) + i] == Row(keywords[k], lists[k][i])
  {
    var n := |lists| - 1;
    var prefix := KeywordTable(keywords[..n], lists[..n]);
    assert KeywordTable(keywords, lists) == prefix + Batch(keywords[n], lists[n]);
    if k == n {
      assert lists[..k] == lists[..n];
      assert TotalLength(lists) == TotalLength(lists[..n]) + |lists[n]|;
    } else {
      assert lists[..n][..k] == lists[..k];
      assert keywords[..n][k] == keywords[k] && lists[..n][k] == lists[k];
      KeywordTableIndex(keywords[..n], lists[..n], k, i);
    }
  }

  /** Conversely every row is some keyword's id, at the position the index
      lemma gives. */
  lemma {:induction false} KeywordTableSource(keywords: seq<string>, lists: seq<seq<string>>, p: nat)
    requires |keywords| == |lists|
    requires p < |KeywordTable(keywords, lists)|
    ensures exists k, i :: 0 <= k < |lists| && 0 <= i < |lists[k]| && p == Offset(lists, k) + i
                           && KeywordTable(keywords, lists)[p] == Row(keywords[k], lists[k][i])
  {
    var n := |lists| - 1;
    var prefix := KeywordTable(keywords[..n], lists[..n]);
    var table := KeywordTable(keywords, lists);
    assert table == prefix + Batch(keywords[n], lists[n]);
    if p < |prefix| {
      KeywordTableSource(keywords[..n], lists[..n], p);
      var k, i :| 0 <= k < n && 0 <= i < |lists[..n][k]| && p == Offset(lists[..n], k) + i
                  && prefix[p] == Row(keywords[..n][k], lists[..n][k][i]);
      assert lists[..n][..k] == lists[..k];
      assert table[p] == Row(keywords[k], lists[k][i]);
    } else {
      var i := p - |prefix|;
      assert table[p] == Row(keywords[n], lists[n][i]);
      assert p == Offset(lists, n) + i;
    }
  }

  /** A row is in the table exactly when its id is in the list of its
      keyword (for some occurrence of that keyword). */
  lemma KeywordTableRows(keywords: seq<string>, lists: seq<seq<string>>, row: Row)
    requires |keywords| == |lists|
    ensures row in KeywordTable(keywords, lists) <==>
              exists k :: 0 <= k < |lists| && keywords[k] == row.keyword && row.bloggerId in lists[k]
  {
    var table := KeywordTable(keywords, lists);
    if row in table {
      var p :| 0 <= p < |table| && table[p] == row;
      KeywordTableSource(keywords, lists, p);
    }
    if exists k :: 0 <= k < |lists| && keywords[k] == row.keyword && row.bloggerId in lists[k] {
      var k :| 0 <= k < |lists| && keywords[k] == row.keyword && row.bloggerId in lists[k];
      var i :| 0 <= i < |lists[k]| && lists[k][i] == row.bloggerId;
      KeywordTableIndex(keywords, lists, k, i);
    }
  }

  /** The count is of rows, not of distinct ids: one id found for two
      keywords is counted twice. */
  lemma SameIdCountedTwice()
    ensures |KeywordTable(["x", "y"], [["a"], ["a"]])| == 2
    ensures forall row :: row in KeywordTable(["x", "y"], [["a"], ["a"]]) ==> row.bloggerId == "a"
  {
    var table := KeywordTable(["x", "y"], [["a"], ["a"]]);
    assert ["x", "y"][..1] == ["x"] && [["a"], ["a"]][..1] == [["a"]];
    assert ["x"][..0] == [] && [["a"]][..0] == [];
    assert table == [Row("x", "a"), Row("y", "a")];
  }
}
