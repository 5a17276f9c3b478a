/** One keyword's extraction, `get_blogger_ids`: up to ten paged search
    requests, the blogger id of every result collected into a set, and the
    stops for a reached cap, an empty page and a failed request.

    The search endpoint is a parameter, a total function from the request
    parameters to the page's outcome; the progress and error messages shown
    to the user are an event trace. The loop is stated for any rule that
    turns a result's link path into an id: it only adds the non-empty ids
    the rule yields, and `Extract` fixes the rule to `BloggerId`. */
module Extraction {
  import opened Paths

  /** The fixed page ceiling per keyword. */
  const TotalPages: nat := 10
  /** The `display` parameter: results asked for per page. */
  const PageSize: nat := 100
  /** The cap the driver uses, `max_results`' default. */
  const DefaultMaxResults: int := 1000

  /** The query parameters of one search request. */
  datatype Request = Request(query: string, display: int, start: int)

  /** What one request brought back: a request error, or the path component
      of every result's `bloggerlink`. */
  datatype PageOutcome = Fail | Items(paths: seq<string>)

  type Server = Request -> PageOutcome

  /** One extraction's inputs: the endpoint, the rule from a link path to an
      id, the keyword and the cap `max_results`. */
  datatype Search = Search(server: Server, idOf: string -> string, keyword: string, maxResults: int)

  /** What the extraction does that can be observed: each request issued,
      each progress message `(page/total) count`, and the error message. */
  datatype Event =
    | Requested(request: Request)
    | Progress(page: nat, totalPages: nat, count: nat)
    | RequestError

  datatype Stop = AllPagesRead | CapReached | EmptyPage | RequestFailed

  datatype Phase = Running | Stopped(reason: Stop)

  /** The loop's variables: the page about to be processed, the `start`
      offset, the id set, the events so far. */
  datatype State = State(page: nat, start: int, ids: set<string>, trace: seq<Event>, phase: Phase)

  /** The request for page `page` (counted from 1). */
  function RequestFor(keyword: string, page: nat): Request {
    Request(keyword, PageSize, 1 + PageSize * (page - 1))
  }

  /** What page `page` brought back. */
  function Outcome(q: Search, page: nat): PageOutcome {
    q.server(RequestFor(q.keyword, page))
  }

  /** The ids of one page's results, added one result after another; an
      empty id is skipped. */
  function PageIds(idOf: string -> string, paths: seq<string>): (ids: set<string>)
    ensures forall id :: id in ids ==> |id| > 0
    ensures |ids| <= |paths|
  {
    if |paths| == 0 then {}
    else
      var id := idOf(paths[|paths| - 1]);
      PageIds(idOf, paths[..|paths| - 1]) + (if |id| > 0 then {id} else {})
  }

  function OutcomeIds(idOf: string -> string, outcome: PageOutcome): set<string> {
    match outcome
    case Fail => {}
    case Items(paths) => PageIds(idOf, paths)
  }

  /** Page `page` answered with at least one result. */
  predicate Served(q: Search, page: nat) {
    var outcome := Outcome(q, page);
    outcome.Items? && |outcome.paths| > 0
  }

  /** All ids found on pages 1 to `n`. */
  function IdsThrough(q: Search, n: nat): set<string> {
    if n == 0 then {}
    else IdsThrough(q, n - 1) + OutcomeIds(q.idOf, Outcome(q, n))
  }

  /** The events of `n` pages that all came back with results. */
  function ServedTrace(q: Search, n: nat): seq<Event> {
    if n == 0 then []
    else ServedTrace(q, n - 1) + [Requested(RequestFor(q.keyword, n)), Progress(n, TotalPages, |IdsThrough(q, n)|)]
  }

  /** Page `page` was requested with fewer than `maxResults` ids in hand and
      came back with results. */
  predicate ServedBelowCap(q: Search, page: nat)
    requires page >= 1
  {
    Served(q, page) && |IdsThrough(q, page - 1)| < q.maxResults
  }

  /** Pages 1 to `n` were each requested below the cap and came back with
      results. */
  ghost predicate ServedThrough(q: Search, n: nat) {
    forall k :: 1 <= k <= n ==> ServedBelowCap(q, k)
  }

  /** One iteration of the page loop after another, until a stop. */
  function Crawl(q: Search, s: State): (r: State)
    ensures r.phase.Stopped?
    ensures s.page <= r.page && s.ids <= r.ids && s.trace <= r.trace
    decreases TotalPages + 1 - s.page
  {
    if s.page > TotalPages then s.(phase := Stopped(AllPagesRead))
    else if |s.ids| >= q.maxResults then s.(phase := Stopped(CapReached))
    else
      var request := Request(q.keyword, PageSize, s.start);
      match q.server(request)
      case Fail =>
        s.(trace := s.trace + [Requested(request), RequestError], phase := Stopped(RequestFailed))
      case Items(paths) =>
        if |paths| == 0 then
          s.(trace := s.trace + [Requested(request)], phase := Stopped(EmptyPage))
        else
          Crawl(q, Advance(q, s, request, paths))
  }

  /** The state after serving page `s.page` with `paths`. */
  function Advance(q: Search, s: State, request: Request, paths: seq<string>): (t: State)
    ensures t.phase == Running && t.page == s.page + 1 && t.start == s.start + PageSize
    ensures s.ids <= t.ids && |t.ids| <= |s.ids| + |paths|
    ensures |t.trace| == |s.trace| + 2 && s.trace <= t.trace
    ensures t.trace[|s.trace|] == Requested(request)
    ensures t.trace[|s.trace| + 1] == Progress(s.page, TotalPages, |t.ids|)
  {
    var ids := s.ids + PageIds(q.idOf, paths);
    State(s.page + 1, s.start + PageSize, ids,
          s.trace + [Requested(request), Progress(s.page, TotalPages, |ids|)], Running)
  }

  /** The loop state before page `s.page`: every earlier page was served. */
  ghost predicate Inv(q: Search, s: State) {
    && 1 <= s.page <= TotalPages + 1
    && s.phase == Running
    && s.start == 1 + PageSize * (s.page - 1)
    && s.ids == IdsThrough(q, s.page - 1)
    && s.trace == ServedTrace(q, s.page - 1)
    && ServedThrough(q, s.page - 1)
  }

  /** Why the loop stops after `n` served pages: the loop's own tests, in
      its order. */
  function StopAfter(q: Search, n: nat): Stop {
    if n >= TotalPages then AllPagesRead
    else if |IdsThrough(q, n)| >= q.maxResults then CapReached
    else if Outcome(q, n + 1).Fail? then RequestFailed
    else EmptyPage
  }

  /** The events after `n` served pages: nothing, the request that came
      back empty, or the failed request and its error message. */
  function StopEvents(keyword: string, n: nat, reason: Stop): seq<Event> {
    match reason
    case AllPagesRead => []
    case CapReached => []
    case EmptyPage => [Requested(RequestFor(keyword, n + 1))]
    case RequestFailed => [Requested(RequestFor(keyword, n + 1)), RequestError]
  }

  /** How an extraction ends, in closed form: `n` pages were served below
      the cap, page `n + 1` was not (or there is none), and the state holds
      the ids of pages `1..n`, the reason for stopping and the events of the
      served pages followed by those of the stop. */
  ghost predicate Final(q: Search, r: State) {
    && 1 <= r.page <= TotalPages + 1
    && var n := r.page - 1;
       && ServedThrough(q, n)
       && !(n < TotalPages && ServedBelowCap(q, n + 1))
       && r.start == 1 + PageSize * n
       && r.ids == IdsThrough(q, n)
       && r.phase == Stopped(StopAfter(q, n))
       && r.trace == ServedTrace(q, n) + StopEvents(q.keyword, n, StopAfter(q, n))
  }

  lemma ServedOneMore(q: Search, n: nat)
    requires ServedThrough(q, n)
    requires n + 1 <= TotalPages && |IdsThrough(q, n)| < q.maxResults && Served(q, n + 1)
    ensures ServedThrough(q, n + 1)
  {
  }

  lemma AdvanceKeepsInv(q: Search, s: State)
    requires Inv(q, s)
    requires s.page <= TotalPages && |s.ids| < q.maxResults
    requires Served(q, s.page)
    ensures Inv(q, Advance(q, s, RequestFor(q.keyword, s.page), Outcome(q, s.page).paths))
  {
    var next := Advance(q, s, RequestFor(q.keyword, s.page), Outcome(q, s.page).paths);
    AdvanceStart(q, s);
    AdvanceIds(q, s);
    AdvanceTrace(q, s);
    ServedOneMore(q, s.page - 1);
    InvIntro(q, next, s.page);
  }

  lemma InvIntro(q: Search, t: State, n: nat)
    requires 1 <= t.page <= TotalPages + 1 && t.page == n + 1 && t.phase == Running
    requires t.start == 1 + PageSize * n
    requires t.ids == IdsThrough(q, n) && t.trace == ServedTrace(q, n)
    requires ServedThrough(q, n)
    ensures Inv(q, t)
  {
  }

  lemma AdvanceStart(q: Search, s: State)
    requires 1 <= s.page && s.start == 1 + PageSize * (s.page - 1)
    requires Outcome(q, s.page).Items?
    ensures Advance(q, s, RequestFor(q.keyword, s.page), Outcome(q, s.page).paths).start == 1 + PageSize * s.page
  {
    assert PageSize * s.page == PageSize * (s.page - 1) + PageSize;
  }

  lemma AdvanceIds(q: Search, s: State)
    requires 1 <= s.page && s.ids == IdsThrough(q, s.page - 1)
    requires Outcome(q, s.page).Items?
    ensures Advance(q, s, RequestFor(q.keyword, s.page), Outcome(q, s.page).paths).ids == IdsThrough(q, s.page)
  {
  }

  lemma AdvanceTrace(q: Search, s: State)
    requires 1 <= s.page && s.ids == IdsThrough(q, s.page - 1) && s.trace == ServedTrace(q, s.page - 1)
    requires Outcome(q, s.page).Items?
    ensures Advance(q, s, RequestFor(q.keyword, s.page), Outcome(q, s.page).paths).trace == ServedTrace(q, s.page)
  {
    AdvanceIds(q, s);
  }

  /** The four ways the loop stops, each taken from an invariant state. */
  lemma StopIsFinal(q: Search, s: State)
    requires Inv(q, s)
    requires s.page > TotalPages || |s.ids| >= q.maxResults || !Served(q, s.page)
    ensures Final(q, Crawl(q, s))
  {
    if s.page > TotalPages {
      StopAllPages(q, s);
    } else if |s.ids| >= q.maxResults {
      StopCap(q, s);
    } else if Outcome(q, s.page).Fail? {
      StopFailed(q, s);
    } else {
      StopEmpty(q, s);
    }
  }

  lemma StopAllPages(q: Search, s: State)
    requires Inv(q, s) && s.page > TotalPages
    ensures Final(q, Crawl(q, s))
  {
    assert Crawl(q, s) == s.(phase := Stopped(AllPagesRead));
    assert s.trace + [] == s.trace;
  }

  lemma StopCap(q: Search, s: State)
    requires Inv(q, s) && s.page <= TotalPages && |s.ids| >= q.maxResults
    ensures Final(q, Crawl(q, s))
  {
    assert Crawl(q, s) == s.(phase := Stopped(CapReached));
    assert s.trace + [] == s.trace;
  }

  lemma StopFailed(q: Search, s: State)
    requires Inv(q, s) && s.page <= TotalPages && |s.ids| < q.maxResults
    requires Outcome(q, s.page).Fail?
    ensures Final(q, Crawl(q, s))
  {
    var n := s.page - 1;
    var request := RequestFor(q.keyword, s.page);
    assert Request(q.keyword, PageSize, s.start) == request;
    assert Crawl(q, s) == s.(trace := s.trace + [Requested(request), RequestError], phase := Stopped(RequestFailed));
    assert StopAfter(q, n) == RequestFailed;
    FinalIntro(q, Crawl(q, s), n);
  }

  lemma StopEmpty(q: Search, s: State)
    requires Inv(q, s) && s.page <= TotalPages && |s.ids| < q.maxResults
    requires Outcome(q, s.page) == Items([])
    ensures Final(q, Crawl(q, s))
  {
    var n := s.page - 1;
    var request := RequestFor(q.keyword, s.page);
    assert Request(q.keyword, PageSize, s.start) == request;
    assert Crawl(q, s) == s.(trace := s.trace + [Requested(request)], phase := Stopped(EmptyPage));
    assert StopAfter(q, n) == EmptyPage;
    FinalIntro(q, Crawl(q, s), n);
  }

  /** `Final`, one conjunct at a time. */
  lemma FinalIntro(q: Search, r: State, n: nat)
    requires r.page == n + 1 && n <= TotalPages
    requires ServedThrough(q, n) && !(n < TotalPages && ServedBelowCap(q, n + 1))
    requires r.start == 1 + PageSize * n && r.ids == IdsThrough(q, n)
    requires r.phase == Stopped(StopAfter(q, n))
    requires r.trace == ServedTrace(q, n) + StopEvents(q.keyword, n, StopAfter(q, n))
    ensures Final(q, r)
  {
  }

  /** A served page below the cap moves the loop on to the next page. */
  lemma CrawlStep(q: Search, s: State)
    requires s.page <= TotalPages && |s.ids| < q.maxResults
    requires s.start == 1 + PageSize * (s.page - 1)
    requires Served(q, s.page)
    ensures Crawl(q, s) == Crawl(q, Advance(q, s, RequestFor(q.keyword, s.page), Outcome(q, s.page).paths))
  {
    assert Request(q.keyword, PageSize, s.start) == RequestFor(q.keyword, s.page);
  }

  lemma {:induction false} CrawlFinal(q: Search, s: State)
    requires Inv(q, s)
    ensures Final(q, Crawl(q, s))
    decreases TotalPages + 1 - s.page
  {
    if s.page > TotalPages || |s.ids| >= q.maxResults || !Served(q, s.page) {
      StopIsFinal(q, s);
    } else {
      var next := Advance(q, s, RequestFor(q.keyword, s.page), Outcome(q, s.page).paths);
      AdvanceKeepsInv(q, s);
      CrawlStep(q, s);
      CrawlFinal(q, next);
    }
  }

  /** The loop's state before the first page. */
  const Initial: State := State(1, 1, {}, [], Running)

  /** The whole extraction, from page 1 with no ids, for any id rule. */
  function Run(q: Search): State {
    Crawl(q, Initial)
  }

  /** The loop ends, and in the closed form `Final`. */
  lemma RunIsFinal(q: Search)
    ensures Final(q, Run(q))
  {
    CrawlFinal(q, Initial);
  }

  /** `get_blogger_ids(keyword, max_results)` against `server`, before the
      final `list(...)[:max_results]`. */
  function Extract(server: Server, keyword: string, maxResults: int): (r: State)
    ensures Final(Search(server, BloggerId, keyword, maxResults), r)
  {
    var q := Search(server, BloggerId, keyword, maxResults);
    RunIsFinal(q);
    Run(q)
  }

  lemma ExtractIsFinal(server: Server, keyword: string, maxResults: int)
    ensures Final(Search(server, BloggerId, keyword, maxResults), Extract(server, keyword, maxResults))
  {
    RunIsFinal(Search(server, BloggerId, keyword, maxResults));
  }
}
