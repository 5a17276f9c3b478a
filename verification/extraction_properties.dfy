/** What one keyword's extraction promises, derived from its closed form
    `Final`: the requests it issues, the progress and error messages it
    shows, where it stops, and where each collected id comes from. The
    lemmas hold for every state satisfying `Final`, hence for `Extract`'s
    result. */
module ExtractionProperties {
  import opened Paths
  import opened Extraction

  /** The requests an event trace records, in order. */
  function Requests(trace: seq<Event>): seq<Request> {
    if |trace| == 0 then []
    else Requests(trace[..|trace| - 1]) + (if trace[|trace| - 1].Requested? then [trace[|trace| - 1].request] else [])
  }

  /** The progress messages an event trace records, in order. */
  function Reports(trace: seq<Event>): seq<Event> {
    if |trace| == 0 then []
    else Reports(trace[..|trace| - 1]) + (if trace[|trace| - 1].Progress? then [trace[|trace| - 1]] else [])
  }

  /** How many error messages an event trace records. */
  function ErrorCount(trace: seq<Event>): nat {
    if |trace| == 0 then 0
    else ErrorCount(trace[..|trace| - 1]) + (if trace[|trace| - 1].RequestError? then 1 else 0)
  }

  lemma {:induction false} RequestsAppend(a: seq<Event>, b: seq<Event>)
    ensures Requests(a + b) == Requests(a) + Requests(b)
    decreases |b|
  {
    if |b| == 0 {
      assert a + b == a;
    } else {
      assert (a + b)[..|a + b| - 1] == a + b[..|b| - 1];
      RequestsAppend(a, b[..|b| - 1]);
    }
  }

  lemma {:induction false} ReportsAppend(a: seq<Event>, b: seq<Event>)
    ensures Reports(a + b) == Reports(a) + Reports(b)
    decreases |b|
  {
    if |b| == 0 {
      assert a + b == a;
    } else {
      assert (a + b)[..|a + b| - 1] == a + b[..|b| - 1];
      ReportsAppend(a, b[..|b| - 1]);
    }
  }

  lemma {:induction false} ErrorCountAppend(a: seq<Event>, b: seq<Event>)
    ensures ErrorCount(a + b) == ErrorCount(a) + ErrorCount(b)
    decreases |b|
  {
    if |b| == 0 {
      assert a + b == a;
    } else {
      assert (a + b)[..|a + b| - 1] == a + b[..|b| - 1];
      ErrorCountAppend(a, b[..|b| - 1]);
    }
  }

  /** The events of one served page, of a page that came back empty, and of
      a failed request. */
  lemma TwoEventViews(request: Request, second: Event)
    ensures Requests([Requested(request), second]) == [request] + Requests([second])
    ensures Reports([Requested(request), second]) == Reports([second])
    ensures ErrorCount([Requested(request), second]) == ErrorCount([second])
  {
    var one := [Requested(request)];
    assert [Requested(request), second][..1] == one;
    assert one[..0] == [];
    assert [second][..0] == [];
  }

  lemma OneEventViews(e: Event)
    ensures Requests([e]) == if e.Requested? then [e.request] else []
    ensures Reports([e]) == if e.Progress? then [e] else []
    ensures ErrorCount([e]) == if e.RequestError? then 1 else 0
  {
    assert [e][..0] == [];
  }

  /** The events of page `n` when it was served. */
  function PageEvents(q: Search, n: nat): seq<Event> {
    [Requested(RequestFor(q.keyword, n)), Progress(n, TotalPages, |IdsThrough(q, n)|)]
  }

  lemma {:induction false} ServedTraceStep(q: Search, n: nat)
    requires n > 0
    ensures ServedTrace(q, n) == ServedTrace(q, n - 1) + PageEvents(q, n)
  {
  }

  /** What one more served page adds to each view of the trace: its
      request, ... */
  lemma RequestsOfPage(q: Search, n: nat)
    requires n > 0
    ensures Requests(ServedTrace(q, n)) == Requests(ServedTrace(q, n - 1)) + [RequestFor(q.keyword, n)]
  {
    var page := PageEvents(q, n);
    ServedTraceStep(q, n);
    RequestsAppend(ServedTrace(q, n - 1), page);
    TwoEventViews(RequestFor(q.keyword, n), page[1]);
    OneEventViews(page[1]);
  }

  /** ... its progress message, ... */
  lemma ReportsOfPage(q: Search, n: nat)
    requires n > 0
    ensures Reports(ServedTrace(q, n)) == Reports(ServedTrace(q, n - 1)) + [Progress(n, TotalPages, |IdsThrough(q, n)|)]
  {
    var page := PageEvents(q, n);
    ServedTraceStep(q, n);
    ReportsAppend(ServedTrace(q, n - 1), page);
    TwoEventViews(RequestFor(q.keyword, n), page[1]);
    OneEventViews(page[1]);
  }

  /** ... and no error message. */
  lemma ErrorsOfPage(q: Search, n: nat)
    requires n > 0
    ensures ErrorCount(ServedTrace(q, n)) == ErrorCount(ServedTrace(q, n - 1))
  {
    var page := PageEvents(q, n);
    ServedTraceStep(q, n);
    ErrorCountAppend(ServedTrace(q, n - 1), page);
    TwoEventViews(RequestFor(q.keyword, n), page[1]);
    OneEventViews(page[1]);
  }

  /** `rs` are the requests for pages `1..n`, in page order. */
  predicate Scheduled(rs: seq<Request>, keyword: string, n: nat) {
    |rs| == n && forall k :: 0 <= k < n ==> rs[k] == RequestFor(keyword, k + 1)
  }

  /** `n` served pages: one request per page, in page order, ... */
  lemma {:induction false} ServedRequests(q: Search, n: nat)
    ensures Scheduled(Requests(ServedTrace(q, n)), q.keyword, n)
  {
    if n > 0 {
      ServedRequests(q, n - 1);
      RequestsOfPage(q, n);
      ScheduleStep(Requests(ServedTrace(q, n - 1)), q.keyword, n);
    } else {
      assert ServedTrace(q, n) == [];
    }
  }

  lemma ScheduleStep(rs: seq<Request>, keyword: string, n: nat)
    requires n >= 1 && Scheduled(rs, keyword, n - 1)
    ensures Scheduled(rs + [RequestFor(keyword, n)], keyword, n)
  {
  }

  /** `reports` are the progress messages of pages `1..n`, each with the
      size of the id set after its page. */
  predicate ReportedThrough(q: Search, reports: seq<Event>, n: nat) {
    |reports| == n && forall k :: 0 <= k < n ==> reports[k] == Progress(k + 1, TotalPages, |IdsThrough(q, k + 1)|)
  }

  /** ... one progress message per page, with the id count after it, ... */
  lemma {:induction false} ServedReports(q: Search, n: nat)
    ensures ReportedThrough(q, Reports(ServedTrace(q, n)), n)
  {
    if n > 0 {
      ServedReports(q, n - 1);
      ReportsOfPage(q, n);
      ReportsStep(q, Reports(ServedTrace(q, n - 1)), n);
    } else {
      assert ServedTrace(q, n) == [];
    }
  }

  lemma ReportsStep(q: Search, reports: seq<Event>, n: nat)
    requires n >= 1 && ReportedThrough(q, reports, n - 1)
    ensures ReportedThrough(q, reports + [Progress(n, TotalPages, |IdsThrough(q, n)|)], n)
  {
  }

  /** ... and no error message. */
  lemma {:induction false} ServedErrors(q: Search, n: nat)
    ensures ErrorCount(ServedTrace(q, n)) == 0
  {
    if n > 0 {
      ServedErrors(q, n - 1);
      ErrorsOfPage(q, n);
    } else {
      assert ServedTrace(q, n) == [];
    }
  }

  /** The ids found on pages `1..m` are among those found on pages `1..n`. */
  lemma {:induction false} IdsGrow(q: Search, m: nat, n: nat)
    requires m <= n
    ensures IdsThrough(q, m) <= IdsThrough(q, n)
    decreases n
  {
    if m < n {
      IdsGrow(q, m, n - 1);
    }
  }

  /** The number of ids collected never decreases from page to page. */
  lemma CountsGrow(q: Search, m: nat, n: nat)
    requires m <= n
    ensures |IdsThrough(q, m)| <= |IdsThrough(q, n)|
  {
    var a := IdsThrough(q, m);
    var b := IdsThrough(q, n);
    IdsGrow(q, m, n);
    assert b == a + (b - a);
  }

  lemma StopEventsViews(keyword: string, n: nat, reason: Stop)
    ensures Requests(StopEvents(keyword, n, reason))
            == if reason == EmptyPage || reason == RequestFailed then [RequestFor(keyword, n + 1)] else []
    ensures Reports(StopEvents(keyword, n, reason)) == []
    ensures ErrorCount(StopEvents(keyword, n, reason)) == if reason == RequestFailed then 1 else 0
  {
    match reason {
      case AllPagesRead =>
      case CapReached =>
      case EmptyPage =>
        OneEventViews(Requested(RequestFor(keyword, n + 1)));
      case RequestFailed =>
        TwoEventViews(RequestFor(keyword, n + 1), RequestError);
        OneEventViews(RequestError);
    }
  }

  /** The stops after which the last request found no results. */
  predicate StoppedOnRequest(phase: Phase) {
    phase == Stopped(EmptyPage) || phase == Stopped(RequestFailed)
  }

  /** A final trace's requests: those of the served pages, then the one
      that came back empty or failed. The final state is given by its parts:
      `n` served pages, the stop phase and the trace. */
  lemma FinalRequests(q: Search, n: nat, trace: seq<Event>, phase: Phase)
    requires phase == Stopped(StopAfter(q, n))
    requires trace == ServedTrace(q, n) + StopEvents(q.keyword, n, StopAfter(q, n))
    ensures Requests(trace) == Requests(ServedTrace(q, n))
                               + (if StoppedOnRequest(phase) then [RequestFor(q.keyword, n + 1)] else [])
  {
    RequestsAppend(ServedTrace(q, n), StopEvents(q.keyword, n, StopAfter(q, n)));
    StopEventsViews(q.keyword, n, StopAfter(q, n));
  }

  /** A stop on an empty or failed request happens only before page ten's
      successor and below the cap. */
  lemma StoppedOnRequestBelowCap(q: Search, n: nat)
    ensures StoppedOnRequest(Stopped(StopAfter(q, n))) ==> n < TotalPages && |IdsThrough(q, n)| < q.maxResults
  {
  }

  lemma ScheduleTail(served: seq<Request>, keyword: string, n: nat, extra: bool)
    requires Scheduled(served, keyword, n)
    ensures var rs := served + (if extra then [RequestFor(keyword, n + 1)] else []);
            forall k :: 0 <= k < |rs| ==> rs[k] == Request(keyword, PageSize, 1 + PageSize * k)
  {
  }

  /** One request per served page, plus the one that came back empty or
      failed; never more than ten. */
  lemma RequestCount(q: Search, n: nat, trace: seq<Event>, phase: Phase)
    requires n <= TotalPages
    requires phase == Stopped(StopAfter(q, n))
    requires trace == ServedTrace(q, n) + StopEvents(q.keyword, n, StopAfter(q, n))
    ensures |Requests(trace)| == n + (if StoppedOnRequest(phase) then 1 else 0)
    ensures |Requests(trace)| <= TotalPages
  {
    FinalRequests(q, n, trace, phase);
    ServedRequestCount(q, n);
    StoppedOnRequestBelowCap(q, n);
  }

  lemma ServedRequestCount(q: Search, n: nat)
    ensures |Requests(ServedTrace(q, n))| == n
  {
    ServedRequests(q, n);
  }

  /** The requests: at most ten, the `k`-th (from 0) asking for 100 results
      from `start = 1 + 100 * k`; one request per served page, plus the one
      that came back empty or failed. */
  lemma RequestSchedule(q: Search, r: State)
    requires Final(q, r)
    ensures var rs := Requests(r.trace);
            && |rs| <= TotalPages
            && |rs| == r.page - 1 + (if StoppedOnRequest(r.phase) then 1 else 0)
            && (forall k :: 0 <= k < |rs| ==> rs[k] == Request(q.keyword, PageSize, 1 + PageSize * k))
  {
    var n := r.page - 1;
    RequestCount(q, n, r.trace, r.phase);
    FinalRequests(q, n, r.trace, r.phase);
    ServedRequests(q, n);
    ScheduleTail(Requests(ServedTrace(q, n)), q.keyword, n, StoppedOnRequest(r.phase));
  }

  /** Every request is issued while fewer than `maxResults` ids are
      collected. */
  lemma RequestsBelowCap(q: Search, r: State)
    requires Final(q, r)
    ensures forall k :: 0 <= k < |Requests(r.trace)| ==> |IdsThrough(q, k)| < q.maxResults
  {
    var n := r.page - 1;
    RequestCount(q, n, r.trace, r.phase);
    StoppedOnRequestBelowCap(q, n);
    BelowCapThrough(q, n);
  }

  lemma BelowCapThrough(q: Search, n: nat)
    requires ServedThrough(q, n)
    ensures forall k :: 0 <= k < n ==> |IdsThrough(q, k)| < q.maxResults
  {
    forall k | 0 <= k < n ensures |IdsThrough(q, k)| < q.maxResults {
      assert ServedBelowCap(q, k + 1);
    }
  }

  /** A final trace's progress messages are those of its served pages. */
  lemma FinalReports(q: Search, n: nat, trace: seq<Event>)
    requires trace == ServedTrace(q, n) + StopEvents(q.keyword, n, StopAfter(q, n))
    ensures ReportedThrough(q, Reports(trace), n)
  {
    ServedReports(q, n);
    ReportsAppend(ServedTrace(q, n), StopEvents(q.keyword, n, StopAfter(q, n)));
    StopEventsViews(q.keyword, n, StopAfter(q, n));
  }

  /** The progress messages: one per served page, `(page/10) count` with the
      size of the id set after that page, so the counts never decrease and
      the last one is the final set size. */
  lemma ProgressReports(q: Search, r: State)
    requires Final(q, r)
    ensures var reports := Reports(r.trace);
            && |reports| == r.page - 1
            && (forall k :: 0 <= k < |reports| ==>
                  reports[k] == Progress(k + 1, TotalPages, |IdsThrough(q, k + 1)|))
            && (|reports| > 0 ==> reports[|reports| - 1] == Progress(|reports|, TotalPages, |r.ids|))
  {
    FinalReports(q, r.page - 1, r.trace);
  }

  /** The counts the progress messages show never decrease. */
  lemma ProgressCountsGrow(q: Search, r: State)
    requires Final(q, r)
    ensures var reports := Reports(r.trace);
            forall j, k :: 0 <= j <= k < |reports| ==>
              reports[j].Progress? && reports[k].Progress? && reports[j].count <= reports[k].count
  {
    FinalReports(q, r.page - 1, r.trace);
    CountsOrdered(q, Reports(r.trace), r.page - 1);
  }

  lemma CountsOrdered(q: Search, reports: seq<Event>, n: nat)
    requires ReportedThrough(q, reports, n)
    ensures forall j, k :: 0 <= j <= k < |reports| ==>
              reports[j].Progress? && reports[k].Progress? && reports[j].count <= reports[k].count
  {
    forall j, k | 0 <= j <= k < |reports|
      ensures reports[j].Progress? && reports[k].Progress? && reports[j].count <= reports[k].count
    {
      CountPair(q, reports[j], reports[k], j, k);
    }
  }

  lemma CountPair(q: Search, a: Event, b: Event, j: nat, k: nat)
    requires j <= k
    requires a == Progress(j + 1, TotalPages, |IdsThrough(q, j + 1)|)
    requires b == Progress(k + 1, TotalPages, |IdsThrough(q, k + 1)|)
    ensures a.Progress? && b.Progress? && a.count <= b.count
  {
    CountsGrow(q, j + 1, k + 1);
  }

  /** The error message is shown exactly once when a request failed, and
      never otherwise; it is then the last event. */
  lemma ErrorReportedOnce(q: Search, r: State)
    requires Final(q, r)
    ensures && ErrorCount(r.trace) == (if r.phase == Stopped(RequestFailed) then 1 else 0)
            && (r.phase == Stopped(RequestFailed) ==> r.trace[|r.trace| - 1] == RequestError)
  {
    var n := r.page - 1;
    ServedErrors(q, n);
    ErrorCountAppend(ServedTrace(q, n), StopEvents(q.keyword, n, StopAfter(q, n)));
    StopEventsViews(q.keyword, n, StopAfter(q, n));
  }

  /** An extraction that stopped after `n` served pages cannot have stopped
      before page `m + 1` when pages `1..m` are all served below the cap, ... */
  lemma StopsNoEarlier(q: Search, m: nat, n: nat)
    requires !(n < TotalPages && ServedBelowCap(q, n + 1))
    requires m <= TotalPages && ServedThrough(q, m)
    ensures n >= m
  {
    if n < m {
      assert false;
    }
  }

  /** ... nor served page `p` when that page is not served below the cap. */
  lemma StopsNoLater(q: Search, p: nat, n: nat)
    requires ServedThrough(q, n)
    requires 1 <= p && !ServedBelowCap(q, p)
    ensures n < p
  {
  }

  /** Pages `1..p-1` served below the cap and page `p` not: the extraction
      stops after `p - 1` served pages.
      The premises sit on the left of the `ensures` implication rather than
      in `requires`: a caller then gets the fact without re-proving `Final`
      conjunct by conjunct, which a `requires Final(q, r)` makes it do. */
  lemma StopsAt(q: Search, p: nat, r: State)
    ensures Final(q, r) && 1 <= p <= TotalPages && ServedThrough(q, p - 1) && !ServedBelowCap(q, p) ==>
              r.page == p
  {
    if Final(q, r) && 1 <= p <= TotalPages && ServedThrough(q, p - 1) && !ServedBelowCap(q, p) {
      StopsNoEarlier(q, p - 1, r.page - 1);
      StopsNoLater(q, p, r.page - 1);
    }
  }

  /** Served pages below the cap and then an empty page `p`: the extraction
      stops there with the ids of pages `1..p-1`, no progress message for
      `p`. */
  lemma EmptyPageStops(q: Search, p: nat, r: State)
    requires Final(q, r)
    requires 1 <= p <= TotalPages
    requires ServedThrough(q, p - 1)
    requires |IdsThrough(q, p - 1)| < q.maxResults
    requires Outcome(q, p) == Items([])
    ensures && r.phase == Stopped(EmptyPage)
            && r.ids == IdsThrough(q, p - 1)
            && r.trace == ServedTrace(q, p - 1) + [Requested(RequestFor(q.keyword, p))]
  {
    StopsAt(q, p, r);
    EmptyStopEvents(q, p, r);
  }

  /** A final state stopped at page `p`, which came back empty, holds the
      request for `p` and no progress message for it.
      The premises sit on the left of the `ensures` implication rather than
      in `requires`: a caller then gets the fact without re-proving `Final`
      conjunct by conjunct, which a `requires Final(q, r)` makes it do. */
  lemma EmptyStopEvents(q: Search, p: nat, r: State)
    ensures Final(q, r) && r.page == p && 1 <= p <= TotalPages && |IdsThrough(q, p - 1)| < q.maxResults
            && Outcome(q, p) == Items([]) ==>
              r.phase == Stopped(EmptyPage) && r.trace == ServedTrace(q, p - 1) + [Requested(RequestFor(q.keyword, p))]
  {
  }

  /** A failed request for page `p`: the extraction stops with the ids of
      pages `1..p-1` kept, after one error message. */
  lemma FailureKeepsPartial(q: Search, p: nat, r: State)
    requires Final(q, r)
    requires 1 <= p <= TotalPages
    requires ServedThrough(q, p - 1)
    requires |IdsThrough(q, p - 1)| < q.maxResults
    requires Outcome(q, p) == Fail
    ensures && r.phase == Stopped(RequestFailed)
            && r.ids == IdsThrough(q, p - 1)
            && r.trace == ServedTrace(q, p - 1) + [Requested(RequestFor(q.keyword, p)), RequestError]
  {
    StopsAt(q, p, r);
    FailedStopEvents(q, p, r);
  }

  /** A final state stopped at page `p`, whose request failed, ends in
      that request and one error message.
      The premises sit on the left of the `ensures` implication rather than
      in `requires`: a caller then gets the fact without re-proving `Final`
      conjunct by conjunct, which a `requires Final(q, r)` makes it do. */
  lemma FailedStopEvents(q: Search, p: nat, r: State)
    ensures Final(q, r) && r.page == p && 1 <= p <= TotalPages && |IdsThrough(q, p - 1)| < q.maxResults
            && Outcome(q, p) == Fail ==>
              && r.phase == Stopped(RequestFailed)
              && r.trace == ServedTrace(q, p - 1) + [Requested(RequestFor(q.keyword, p)), RequestError]
  {
  }

  /** Once pages `1..p-1` have brought `q.maxResults` ids or more, page `p` is
      never requested. */
  lemma CapStops(q: Search, p: nat, r: State)
    requires Final(q, r)
    requires 1 <= p <= TotalPages
    requires ServedThrough(q, p - 1)
    requires |IdsThrough(q, p - 1)| >= q.maxResults
    ensures && r.phase == Stopped(CapReached)
            && r.ids == IdsThrough(q, p - 1)
            && r.trace == ServedTrace(q, p - 1)
  {
    StopsAt(q, p, r);
    CapStopEvents(q, p, r);
  }

  /** A final state stopped at page `p` with the cap reached holds no
      event for `p`.
      The premises sit on the left of the `ensures` implication rather than
      in `requires`: a caller then gets the fact without re-proving `Final`
      conjunct by conjunct, which a `requires Final(q, r)` makes it do. */
  lemma CapStopEvents(q: Search, p: nat, r: State)
    ensures Final(q, r) && r.page == p && 1 <= p <= TotalPages && |IdsThrough(q, p - 1)| >= q.maxResults ==>
              r.phase == Stopped(CapReached) && r.trace == ServedTrace(q, p - 1)
  {
    if Final(q, r) && r.page == p && 1 <= p <= TotalPages && |IdsThrough(q, p - 1)| >= q.maxResults {
      assert r.trace == ServedTrace(q, p - 1) + [];
    }
  }

  /** All ten pages served below the cap: the loop runs out of pages. */
  lemma AllPagesServed(q: Search, r: State)
    requires Final(q, r)
    requires ServedThrough(q, TotalPages)
    ensures && r.phase == Stopped(AllPagesRead)
            && r.ids == IdsThrough(q, TotalPages)
            && r.trace == ServedTrace(q, TotalPages)
  {
    StopsNoEarlier(q, TotalPages, r.page - 1);
    assert r.trace == ServedTrace(q, TotalPages) + [];
  }

  /** A cap of zero or less stops the loop before the first request. */
  lemma NonPositiveCap(q: Search, r: State)
    requires Final(q, r)
    requires q.maxResults <= 0
    ensures r.phase == Stopped(CapReached) && r.ids == {} && r.trace == []
  {
    StopsAt(q, 1, r);
    CapStopEvents(q, 1, r);
  }

  /** Every id a page contributes is the non-empty id of one of its
      results, ... */
  lemma {:induction false} PageIdsSound(idOf: string -> string, paths: seq<string>)
    ensures forall id :: id in PageIds(idOf, paths) ==>
              |id| > 0 && exists j :: 0 <= j < |paths| && idOf(paths[j]) == id
  {
    if |paths| > 0 {
      var init := paths[..|paths| - 1];
      PageIdsSound(idOf, init);
      forall id | id in PageIds(idOf, paths)
        ensures |id| > 0 && exists j :: 0 <= j < |paths| && idOf(paths[j]) == id
      {
        if id in PageIds(idOf, init) {
          var j :| 0 <= j < |init| && idOf(init[j]) == id;
          assert paths[j] == init[j];
        }
      }
    }
  }

  /** ... and every result with a non-empty id contributes it. */
  lemma {:induction false} PageIdsComplete(idOf: string -> string, paths: seq<string>)
    ensures forall j :: 0 <= j < |paths| && |idOf(paths[j])| > 0 ==> idOf(paths[j]) in PageIds(idOf, paths)
  {
    if |paths| > 0 {
      var init := paths[..|paths| - 1];
      PageIdsComplete(idOf, init);
      forall j | 0 <= j < |paths| && |idOf(paths[j])| > 0 ensures idOf(paths[j]) in PageIds(idOf, paths) {
        if j < |init| {
          assert paths[j] == init[j];
        }
      }
    }
  }

  /** A page contributes at most one id per result. */
  lemma {:induction false} PageIdsSize(idOf: string -> string, paths: seq<string>)
    ensures |PageIds(idOf, paths)| <= |paths|
  {
    if |paths| > 0 {
      PageIdsSize(idOf, paths[..|paths| - 1]);
    }
  }

  /** Where the collected ids come from: an id is collected by page `n`
      exactly when one of pages `1..n` contributed it. */
  lemma {:induction false} IdsProvenance(q: Search, n: nat)
    ensures forall id :: id in IdsThrough(q, n) <==>
              exists p :: 1 <= p <= n && id in OutcomeIds(q.idOf, Outcome(q, p))
  {
    if n > 0 {
      IdsProvenance(q, n - 1);
    }
  }

  /** With an id rule that never yields a `/`, every collected id is
      non-empty and holds no `/`. */
  lemma {:induction false} IdsWellFormed(q: Search, n: nat)
    requires forall path :: '/' !in q.idOf(path)
    ensures forall id :: id in IdsThrough(q, n) ==> |id| > 0 && '/' !in id
  {
    if n > 0 {
      IdsWellFormed(q, n - 1);
      match Outcome(q, n) {
        case Fail =>
        case Items(paths) =>
          PageIdsSound(q.idOf, paths);
      }
    }
  }

  lemma FinalIdsWellFormed(q: Search, r: State)
    requires Final(q, r)
    requires forall path :: '/' !in q.idOf(path)
    ensures forall id :: id in r.ids ==> |id| > 0 && '/' !in id
  {
    IdsWellFormed(q, r.page - 1);
  }

  /** With an id rule that never yields a slash, every collected id is a
      non-empty single path segment. */
  lemma RunIdsWellFormed(q: Search)
    requires forall path :: '/' !in q.idOf(path)
    ensures forall id :: id in Run(q).ids ==> |id| > 0 && '/' !in id
  {
    RunIsFinal(q);
    FinalIdsWellFormed(q, Run(q));
  }

  /** The ids `get_blogger_ids` collects are non-empty single path
      segments. */
  lemma ExtractedIdsWellFormed(server: Server, keyword: string, maxResults: int)
    ensures forall id :: id in Extract(server, keyword, maxResults).ids ==> |id| > 0 && '/' !in id
  {
    var q := Search(server, BloggerId, keyword, maxResults);
    forall path ensures '/' !in q.idOf(path) {
      assert q.idOf(path) == BloggerId(path);
    }
    RunIdsWellFormed(q);
  }

  /** Page `page` brings at most `PageSize` results, as `display=100`
      asks. */
  predicate PageFits(q: Search, page: nat) {
    var outcome := Outcome(q, page);
    outcome.Items? ==> |outcome.paths| <= PageSize
  }

  lemma {:induction false} IdsBound(q: Search, n: nat)
    requires forall k :: 1 <= k <= n ==> PageFits(q, k)
    ensures |IdsThrough(q, n)| <= PageSize * n
  {
    if n > 0 {
      IdsBound(q, n - 1);
      PageBound(q, n);
      assert PageSize * n == PageSize * (n - 1) + PageSize;
    }
  }

  lemma PageBound(q: Search, page: nat)
    requires PageFits(q, page)
    ensures |OutcomeIds(q.idOf, Outcome(q, page))| <= PageSize
  {
    match Outcome(q, page)
    case Fail =>
    case Items(paths) =>
      PageIdsSize(q.idOf, paths);
  }

  /** With pages of at most 100 results, one keyword yields at most 1000
      ids, whatever the cap. */
  lemma ResultCeiling(q: Search, r: State)
    requires Final(q, r)
    requires forall k :: 1 <= k <= TotalPages ==> PageFits(q, k)
    ensures |r.ids| <= TotalPages * PageSize
  {
    IdsBound(q, r.page - 1);
  }

  /** A search endpoint whose first page holds two profiles and whose next
      page is empty. */
  function TwoProfiles(request: Request): PageOutcome {
    if request.start == 1 then Items(["/a", "/b"]) else Items([])
  }

  lemma TwoProfilesFirstPage(q: Search)
    requires q == Search(TwoProfiles, BloggerId, "k", 1)
    ensures IdsThrough(q, 1) == {"a", "b"} && ServedThrough(q, 1)
  {
    TwoProfilesIds();
    assert Outcome(q, 1) == Items(["/a", "/b"]);
    assert ServedBelowCap(q, 1);
  }

  lemma TwoProfilesIds()
    ensures PageIds(BloggerId, ["/a", "/b"]) == {"a", "b"}
  {
    SingleSegmentId("a");
    SingleSegmentId("b");
    assert ["/a", "/b"][..1] == ["/a"];
    assert ["/a"][..0] == [];
  }

  /** The cap is checked only between pages: with `maxResults = 1` a first
      page holding two ids is taken whole, and the set exceeds the cap. */
  lemma CapOvershoot()
    ensures Extract(TwoProfiles, "k", 1).ids == {"a", "b"}
    ensures Extract(TwoProfiles, "k", 1).phase == Stopped(CapReached)
  {
    var q := Search(TwoProfiles, BloggerId, "k", 1);
    TwoProfilesFirstPage(q);
    ExtractIsFinal(TwoProfiles, "k", 1);
    CapStops(q, 2, Extract(TwoProfiles, "k", 1));
  }
}
