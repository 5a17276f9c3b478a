/** `get_blogger_ids` as the loop it is written as: the page loop with its
    three `break`s, the inner loop over a page's results, and the final
    `list(blogger_ids)[:max_results]`. The loop is proved to compute the
    closed-form extraction `Extract`. */
module Listing {
  import opened Paths
  import opened Extraction

  /** No element occurs twice. */
  predicate Distinct<T(==)>(xs: seq<T>) {
    forall i, j :: 0 <= i < j < |xs| ==> xs[i] != xs[j]
  }

  /** How many elements Python's `xs[:stop]` keeps from a list of `n`: a
      negative `stop` counts from the end. */
  function SliceLength(n: nat, stop: int): (k: nat)
    ensures k <= n
    ensures 0 <= stop ==> (k == n <==> n <= stop)
    ensures 0 <= stop < n ==> k == stop
    ensures stop < 0 ==> k == if n + stop >= 0 then n + stop else 0
  {
    if stop >= 0 then (if stop <= n then stop else n)
    else if n + stop >= 0 then n + stop else 0
  }

  /** Python's `xs[:stop]`. */
  function SliceEnd<T>(xs: seq<T>, stop: int): (r: seq<T>)
    ensures |r| == SliceLength(|xs|, stop)
    ensures forall i :: 0 <= i < |r| ==> r[i] == xs[i]
  {
    xs[..SliceLength(|xs|, stop)]
  }

  /** Python's `list(s)` for a set: every element once, in an order the
      language leaves open. */
  method ListOfSet(s: set<string>) returns (xs: seq<string>)
    ensures |xs| == |s|
    ensures forall x :: x in xs <==> x in s
    ensures Distinct(xs)
  {
    xs := [];
    var rest := s;
    while rest != {}
      invariant rest <= s
      invariant forall x :: x in xs <==> x in s && x !in rest
      invariant Distinct(xs)
      invariant |xs| + |rest| == |s|
      decreases |rest|
    {
      var x :| x in rest;
      xs := xs + [x];
      rest := rest - {x};
    }
  }

  /** The ids of one page's results added to `ids`, result after result. */
  method AddPage(idOf: string -> string, ids: set<string>, paths: seq<string>) returns (next: set<string>)
    ensures next == ids + PageIds(idOf, paths)
  {
    next := ids;
    var j := 0;
    while j < |paths|
      invariant 0 <= j <= |paths|
      invariant next == ids + PageIds(idOf, paths[..j])
    {
      var id := idOf(paths[j]);
      if |id| > 0 {
        next := next + {id};
      }
      assert paths[..j + 1][..j] == paths[..j];
      j := j + 1;
    }
    assert paths[..j] == paths;
  }

  /** A failed request ends the loop after the error message. */
  lemma FailedRequestStops(q: Search, s: State)
    requires s.page <= TotalPages && |s.ids| < q.maxResults && s.phase == Running
    requires q.server(Request(q.keyword, PageSize, s.start)) == Fail
    ensures Crawl(q, s) == s.(trace := s.trace + [Requested(Request(q.keyword, PageSize, s.start)), RequestError],
                              phase := Stopped(RequestFailed))
  {
  }

  /** A page without results ends the loop without a progress message. */
  lemma EmptyResultStops(q: Search, s: State)
    requires s.page <= TotalPages && |s.ids| < q.maxResults && s.phase == Running
    requires q.server(Request(q.keyword, PageSize, s.start)) == Items([])
    ensures Crawl(q, s) == s.(trace := s.trace + [Requested(Request(q.keyword, PageSize, s.start))],
                              phase := Stopped(EmptyPage))
  {
  }

  /** A page with results moves the loop on. */
  lemma ResultsContinue(q: Search, s: State, paths: seq<string>)
    requires s.page <= TotalPages && |s.ids| < q.maxResults
    requires q.server(Request(q.keyword, PageSize, s.start)) == Items(paths) && |paths| > 0
    ensures Crawl(q, s) == Crawl(q, Advance(q, s, Request(q.keyword, PageSize, s.start), paths))
  {
  }

  /** Any other state with no page left or the cap reached stops as it
      is. */
  lemma CheckStops(q: Search, s: State)
    requires s.page > TotalPages || |s.ids| >= q.maxResults
    ensures Crawl(q, s).ids == s.ids && Crawl(q, s).trace == s.trace
  {
  }

  /** The page loop of `get_blogger_ids`, with its three `break`s: it ends
      with the id set and the messages of the closed-form extraction. */
  method Collect(q: Search) returns (collected: set<string>, trace: seq<Event>)
    ensures collected == Run(q).ids && trace == Run(q).trace
  {
    collected := {};
    var page: nat := 1;
    var start := 1;
    trace := [];
    while true
      invariant 1 <= page <= TotalPages + 1
      invariant Crawl(q, State(page, start, collected, trace, Running)) == Crawl(q, Initial)
      decreases TotalPages + 1 - page
    {
      ghost var s := State(page, start, collected, trace, Running);
      if page > TotalPages || |collected| >= q.maxResults {
        CheckStops(q, s);
        break;
      }
      var request := Request(q.keyword, PageSize, start);
      match q.server(request) {
        case Fail =>
          FailedRequestStops(q, s);
          trace := trace + [Requested(request), RequestError];
          break;
        case Items(paths) =>
          if |paths| == 0 {
            EmptyResultStops(q, s);
            trace := trace + [Requested(request)];
            break;
          }
          ResultsContinue(q, s, paths);
          collected := AddPage(q.idOf, collected, paths);
          trace := trace + [Requested(request), Progress(page, TotalPages, |collected|)];
          page := page + 1;
          start := start + PageSize;
      }
    }
  }

  /** `get_blogger_ids(keyword, max_results)` against `server`: distinct
      ids drawn from the extraction's id set, as many as `max_results`
      allows, all of them when the set fits under the cap, and the messages
      it shows. */
  method GetBloggerIds(server: Server, keyword: string, maxResults: int) returns (ids: seq<string>, trace: seq<Event>)
    ensures trace == Extract(server, keyword, maxResults).trace
    ensures Distinct(ids)
    ensures forall id :: id in ids ==> id in Extract(server, keyword, maxResults).ids
    ensures |ids| == SliceLength(|Extract(server, keyword, maxResults).ids|, maxResults)
    ensures 0 <= maxResults ==> |ids| <= maxResults
    ensures |Extract(server, keyword, maxResults).ids| <= maxResults ==>
              forall id :: id in Extract(server, keyword, maxResults).ids ==> id in ids
  {
    var collected;
    collected, trace := Collect(Search(server, BloggerId, keyword, maxResults));
    var all := ListOfSet(collected);
    ids := SliceEnd(all, maxResults);
    if |collected| <= maxResults {
      assert ids == all;
    }
  }
}
