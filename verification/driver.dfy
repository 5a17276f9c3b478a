/** The button handler: an empty input gives a warning; otherwise every
    keyword of the input is extracted in turn with the default cap, the
    per-keyword frames are concatenated, and the success message reports the
    number of rows. */
module Driver {
  import opened Keywords
  import opened Extraction
  import opened Listing
  import opened Table

  /** The outcome of one press of the button. */
  datatype Submission =
    | Warned
    | Extracted(keywords: seq<string>, lists: seq<seq<string>>, traces: seq<seq<Event>>,
                table: seq<Row>, total: nat)

  /** `ids` is what `get_blogger_ids(keyword)` may return against `server`:
      distinct ids of the extraction, cut to the default cap. */
  predicate ListedFor(server: Server, keyword: string, ids: seq<string>) {
    var found := Extract(server, keyword, DefaultMaxResults).ids;
    && Distinct(ids)
    && (forall id :: id in ids ==> id in found)
    && |ids| == SliceLength(|found|, DefaultMaxResults)
  }

  /** Every row pairs one of the keywords with an id that keyword's
      extraction found. */
  lemma RowsFound(servers: nat -> Server, keywords: seq<string>, lists: seq<seq<string>>)
    requires |keywords| == |lists|
    requires forall k :: 0 <= k < |keywords| ==> ListedFor(servers(k), keywords[k], lists[k])
    ensures forall row :: row in KeywordTable(keywords, lists) ==>
              exists k :: 0 <= k < |keywords| && row.keyword == keywords[k]
                          && row.bloggerId in Extract(servers(k), keywords[k], DefaultMaxResults).ids
  {
    forall row | row in KeywordTable(keywords, lists)
      ensures exists k :: 0 <= k < |keywords| && row.keyword == keywords[k]
                          && row.bloggerId in Extract(servers(k), keywords[k], DefaultMaxResults).ids
    {
      KeywordTableRows(keywords, lists, row);
      var k :| 0 <= k < |lists| && keywords[k] == row.keyword && row.bloggerId in lists[k];
      assert ListedFor(servers(k), keywords[k], lists[k]);
    }
  }

  /** Keywords `0..i-1` have their id lists and messages. */
  predicate AllDone(servers: nat -> Server, keywords: seq<string>, lists: seq<seq<string>>, traces: seq<seq<Event>>, i: nat)
    requires i <= |keywords| && |lists| == i && |traces| == i
  {
    forall k :: 0 <= k < i ==>
      && ListedFor(servers(k), keywords[k], lists[k])
      && traces[k] == Extract(servers(k), keywords[k], DefaultMaxResults).trace
  }

  lemma DoneOneMore(servers: nat -> Server, keywords: seq<string>, lists: seq<seq<string>>, traces: seq<seq<Event>>,
                    i: nat, ids: seq<string>, trace: seq<Event>)
    requires i < |keywords| && |lists| == i && |traces| == i
    requires AllDone(servers, keywords, lists, traces, i)
    requires ListedFor(servers(i), keywords[i], ids)
    requires trace == Extract(servers(i), keywords[i], DefaultMaxResults).trace
    ensures AllDone(servers, keywords, lists + [ids], traces + [trace], i + 1)
  {
  }

  /** The keyword loop: `get_blogger_ids(keyword)` for every keyword in
      turn, with the default cap; the lists are the frames' id columns.
      Keyword `k` is answered by `servers(k)`: a keyword typed twice is
      searched twice, and the endpoint need not answer both alike. */
  method ExtractAll(servers: nat -> Server, keywords: seq<string>) returns (lists: seq<seq<string>>, traces: seq<seq<Event>>)
    ensures |lists| == |keywords| && |traces| == |keywords|
    ensures AllDone(servers, keywords, lists, traces, |keywords|)
  {
    lists, traces := [], [];
    var i := 0;
    while i < |keywords|
      invariant 0 <= i <= |keywords|
      invariant |lists| == i && |traces| == i
      invariant AllDone(servers, keywords, lists, traces, i)
    {
      var ids, trace := GetBloggerIds(servers(i), keywords[i], DefaultMaxResults);
      DoneOneMore(servers, keywords, lists, traces, i, ids, trace);
      lists := lists + [ids];
      traces := traces + [trace];
      i := i + 1;
    }
  }

  /** One press of the button with `raw` in the text box; `servers(k)`
      answers the requests for the `k`-th keyword. */
  method Submit(servers: nat -> Server, raw: string) returns (result: Submission)
    ensures raw == [] <==> result == Warned
    ensures result.Extracted? ==>
              && result.keywords == SplitKeywords(raw)
              && |result.lists| == |result.keywords| && |result.traces| == |result.keywords|
              && (forall k :: 0 <= k < |result.keywords| ==>
                    && ListedFor(servers(k), result.keywords[k], result.lists[k])
                    && result.traces[k] == Extract(servers(k), result.keywords[k], DefaultMaxResults).trace)
              && result.table == KeywordTable(result.keywords, result.lists)
              && result.total == |result.table|
    ensures result.Extracted? ==>
              forall row :: row in result.table ==>
                exists k :: 0 <= k < |result.keywords| && row.keyword == result.keywords[k]
                            && row.bloggerId in Extract(servers(k), result.keywords[k], DefaultMaxResults).ids
  {
    if raw == [] {
      return Warned;
    }
    var keywords := SplitKeywords(raw);
    var lists, traces := ExtractAll(servers, keywords);
    var table := KeywordTable(keywords, lists);
    RowsFound(servers, keywords, lists);
    result := Extracted(keywords, lists, traces, table, |table|);
  }
}
