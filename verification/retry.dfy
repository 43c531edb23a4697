/**
 The retry loop of `scrape_hike`: up to five attempts to fetch and read a trail page.
 The network is not modelled: `fetch(k)` is what attempt `k` (counted from 0) runs into.
 The random pauses and the random choice of a new user agent are not modelled either; the
 run records them as events, with the bounds of each pause in seconds.
 */
module RetryController {
  import opened Text
  import opened FieldExtractor

  const MaxRetries: nat := 5

  /** What one attempt runs into: a page that was fetched and parsed, an HTTP error status, or
      any other failure, each with the text of its exception. */
  datatype FetchOutcome =
    | Fetched(page: Page)
    | HttpError(status: nat, detail: string)
    | OtherError(detail: string)

  /** The side effects of a run, in order. A pause is drawn uniformly from `lo` to `hi`
      seconds. */
  datatype Event = Pause(lo: nat, hi: nat) | Request | RotateUserAgent

  /** Why a run gives up. */
  datatype ScrapeError =
    | AccessDenied
    | HttpFailure(status: nat, detail: string)
    | GaveUp(detail: string)

  /** How the loop ends: with the page it fetched, or with an error. */
  datatype Outcome = Scraped(page: Page) | Failed(error: ScrapeError)

  const AccessDeniedMessage: string :=
    "Access denied (403). " + "AllTrails may be blocking automated requests. " + "Try again later or use a different URL."

  function DigitChar(d: nat): (c: char)
    requires d < 10
    ensures IsDigit(c)
  {
    ('0' as int + d) as char
  }

  /** The value of a decimal digit. */
  function DigitValue(c: char): nat
    requires IsDigit(c)
  {
    c as int - '0' as int
  }

  /** The number a string of decimal digits spells, read most significant digit first. */
  function DigitsValue(s: string): nat
    requires forall i :: 0 <= i < |s| ==> IsDigit(s[i])
  {
    if s == [] then 0 else 10 * DigitsValue(s[..|s| - 1]) + DigitValue(s[|s| - 1])
  }

  /** The decimal digits of `n`, as Python's `str` writes a non-negative integer: they spell
      `n`, and there is no leading zero except in "0" itself. */
  function NatToString(n: nat): (s: string)
    ensures |s| >= 1 && forall i :: 0 <= i < |s| ==> IsDigit(s[i])
    ensures DigitsValue(s) == n
    ensures s[0] == '0' ==> n == 0
    ensures n < 10 <==> |s| == 1
    decreases n
  {
    if n < 10 then [DigitChar(n)]
    else
      var s := NatToString(n / 10) + [DigitChar(n % 10)];
      assert s[..|s| - 1] == NatToString(n / 10);
      s
  }

  /** The message of the `ScrapingError` a run raises. */
  function Message(e: ScrapeError): (m: string)
    ensures m != []
  {
    match e
    case AccessDenied => AccessDeniedMessage
    case HttpFailure(status, detail) => "HTTP Error " + NatToString(status) + ": " + detail
    case GaveUp(detail) => "Failed to scrape hike data: " + detail
  }

  lemma MessageInitial(e: ScrapeError)
    ensures Message(e)[0] == match e { case AccessDenied => 'A' case HttpFailure(_, _) => 'H' case GaveUp(_) => 'F' }
  {
    match e
    case AccessDenied =>
      assert "Access denied (403). "[0] == 'A';
    case HttpFailure(status, detail) =>
      assert Message(e) == "HTTP Error " + (NatToString(status) + ": " + detail);
    case GaveUp(detail) =>
      assert Message(e) == "Failed to scrape hike data: " + detail;
  }

  /** A status other than 403 is reported by its number, followed by the text of the HTTP
      library's error: for a 404 that text reads "404 Client Error: Not Found for url: " and the
      URL, so the caller sees "HTTP Error 404: 404 Client Error: Not Found for url: …". */
  lemma NotFoundMessage(detail: string)
    ensures Message(HttpFailure(404, detail)) == "HTTP Error 404: " + detail
  {
    assert NatToString(4) == "4";
    assert NatToString(40) == "40";
    assert NatToString(404) == "404";
    assert Message(HttpFailure(404, detail)) == "HTTP Error " + "404" + ": " + detail;
  }

  /** The three kinds of failure never share a message. */
  lemma MessageTellsKind(e1: ScrapeError, e2: ScrapeError)
    requires Message(e1) == Message(e2)
    ensures e1.AccessDenied? <==> e2.AccessDenied?
    ensures e1.HttpFailure? <==> e2.HttpFailure?
    ensures e1.GaveUp? <==> e2.GaveUp?
  {
    MessageInitial(e1);
    MessageInitial(e2);
  }

  /** An outcome the loop retries, as long as attempts remain. */
  predicate Retryable(o: FetchOutcome) {
    (o.HttpError? && o.status == 403) || o.OtherError?
  }

  /** What the loop does after one attempt: stop with an outcome, or go on to the next attempt
      after the given events. */
  datatype Step = Stop(outcome: Outcome) | Retry(pause: seq<Event>)

  /** One attempt's `try`/`except`. A page ends the run. A 403 pauses 5 to 15 seconds and
      rotates the user agent before the next attempt, and is fatal on the last one. Any other
      HTTP status is fatal at once. Any other failure pauses 2 to 5 seconds before the next
      attempt, and is fatal on the last one. */
  function Attempt(o: FetchOutcome, last: bool): (s: Step)
    ensures s.Retry? <==> Retryable(o) && !last
    ensures s.Stop? && s.outcome.Failed? && s.outcome.error.HttpFailure? ==> s.outcome.error.status != 403
  {
    match o
    case Fetched(page) => Stop(Scraped(page))
    case HttpError(status, detail) =>
      if status != 403 then Stop(Failed(HttpFailure(status, detail)))
      else if last then Stop(Failed(AccessDenied))
      else Retry([Pause(5, 15), RotateUserAgent])
    case OtherError(detail) =>
      if last then Stop(Failed(GaveUp(detail))) else Retry([Pause(2, 5)])
  }

  /** The loop from attempt `attempt` on: the outcome of the run and its events. Each attempt
      first pauses 3 to 8 seconds and requests the page. */
  function RunFrom(fetch: nat -> FetchOutcome, attempt: nat): (r: (Outcome, seq<Event>))
    requires attempt < MaxRetries
    ensures |r.1| >= 2 && r.1[..2] == [Pause(3, 8), Request]
    ensures r.0.Failed? && r.0.error.HttpFailure? ==> r.0.error.status != 403
    decreases MaxRetries - attempt
  {
    var tried := [Pause(3, 8), Request];
    match Attempt(fetch(attempt), attempt == MaxRetries - 1)
    case Stop(outcome) => (outcome, tried)
    case Retry(pause) =>
      var rest := RunFrom(fetch, attempt + 1);
      (rest.0, tried + pause + rest.1)
  }

  /** The whole loop, from the first attempt. */
  function Run(fetch: nat -> FetchOutcome): (Outcome, seq<Event>) {
    RunFrom(fetch, 0)
  }

  /** What `scrape_hike` hands its caller: the record read from the page, or the message of the
      `ScrapingError` it raises. */
  datatype ScrapeResult = Hike(data: HikeData) | Raised(message: string)

  /** `scrape_hike`. */
  function ScrapeHike(fetch: nat -> FetchOutcome): (r: ScrapeResult)
    ensures r.Raised? ==> r.message != []
    ensures r.Hike? ==> r.data.routeType == ""
  {
    match Run(fetch).0
    case Scraped(page) => Hike(ExtractHikeData(page))
    case Failed(e) => Raised(Message(e))
  }

  /** What the attempt that ends the run leaves behind. */
  function Verdict(o: FetchOutcome): Outcome {
    match o
    case Fetched(page) => Scraped(page)
    case HttpError(status, detail) =>
      if status == 403 then Failed(AccessDenied) else Failed(HttpFailure(status, detail))
    case OtherError(detail) => Failed(GaveUp(detail))
  }

  /** Attempt `d` ends a run started at `a`: every attempt before it is retried, and it is
      either the last attempt or one that is not retried. */
  predicate Decisive(fetch: nat -> FetchOutcome, a: nat, d: nat) {
    a <= d < MaxRetries
    && (forall k :: a <= k < d ==> Retryable(fetch(k)))
    && (d == MaxRetries - 1 || !Retryable(fetch(d)))
  }

  /** How many attempts from `a` up to `d` are refused with 403. */
  function Blocked(fetch: nat -> FetchOutcome, a: nat, d: nat): nat
    decreases d - a
  {
    if d <= a then 0
    else (if fetch(a).HttpError? && fetch(a).status == 403 then 1 else 0) + Blocked(fetch, a + 1, d)
  }

  /** How many times `e` occurs in `evs`. */
  function Occurrences(evs: seq<Event>, e: Event): nat {
    if evs == [] then 0 else (if evs[0] == e then 1 else 0) + Occurrences(evs[1..], e)
  }

  lemma {:induction false} OccurrencesAppend(xs: seq<Event>, ys: seq<Event>, e: Event)
    ensures Occurrences(xs + ys, e) == Occurrences(xs, e) + Occurrences(ys, e)
  {
    if xs != [] {
      assert (xs + ys)[0] == xs[0];
      assert (xs + ys)[1..] == xs[1..] + ys;
      OccurrencesAppend(xs[1..], ys, e);
    } else {
      assert xs + ys == ys;
    }
  }

  /** The run from `a` on, when attempt `a` is retried: that attempt's events, then the rest. */
  lemma RunFromRetried(fetch: nat -> FetchOutcome, a: nat)
    requires a < MaxRetries - 1 && Retryable(fetch(a))
    ensures RunFrom(fetch, a).0 == RunFrom(fetch, a + 1).0
    ensures RunFrom(fetch, a).1 == [Pause(3, 8), Request] + Attempt(fetch(a), false).pause + RunFrom(fetch, a + 1).1
  {
  }

  /** The events between a retried attempt and the next: one rotation after a 403, a pause
      only after any other failure, and never a request. */
  lemma RetryEvents(o: FetchOutcome)
    requires Retryable(o)
    ensures Occurrences(Attempt(o, false).pause, Request) == 0
    ensures Occurrences(Attempt(o, false).pause, RotateUserAgent) == if o.HttpError? then 1 else 0
    ensures |Attempt(o, false).pause| >= 1
    ensures Attempt(o, false).pause[0] == if o.HttpError? then Pause(5, 15) else Pause(2, 5)
  {
    if o.HttpError? {
      assert Attempt(o, false).pause == [Pause(5, 15), RotateUserAgent];
      assert [Pause(5, 15), RotateUserAgent][1..] == [RotateUserAgent];
    } else {
      assert Attempt(o, false).pause == [Pause(2, 5)];
    }
  }

  /** The run is decided by its decisive attempt: its outcome is that attempt's verdict. */
  lemma {:induction false} RunFromVerdict(fetch: nat -> FetchOutcome, a: nat, d: nat)
    requires Decisive(fetch, a, d)
    ensures RunFrom(fetch, a).0 == Verdict(fetch(d))
    decreases d - a
  {
    if a < d {
      RunFromRetried(fetch, a);
      RunFromVerdict(fetch, a + 1, d);
    }
  }

  /** The events of a retried attempt followed by the rest of the run. */
  lemma CountsAfterRetry(pause: seq<Event>, rest: seq<Event>, e: Event)
    requires e != Pause(3, 8)
    ensures Occurrences([Pause(3, 8), Request] + pause + rest, e) ==
      (if e == Request then 1 else 0) + Occurrences(pause, e) + Occurrences(rest, e)
  {
    var tried := [Pause(3, 8), Request];
    assert tried + pause + rest == tried + (pause + rest);
    OccurrencesAppend(tried, pause + rest, e);
    OccurrencesAppend(pause, rest, e);
    assert tried[1..][1..] == [];
  }

  /** A retried attempt adds one request, and one rotation when it was refused with 403. */
  lemma RetriedCounts(fetch: nat -> FetchOutcome, a: nat)
    requires a < MaxRetries - 1 && Retryable(fetch(a))
    ensures Occurrences(RunFrom(fetch, a).1, Request) == 1 + Occurrences(RunFrom(fetch, a + 1).1, Request)
    ensures Occurrences(RunFrom(fetch, a).1, RotateUserAgent) ==
      (if fetch(a).HttpError? then 1 else 0) + Occurrences(RunFrom(fetch, a + 1).1, RotateUserAgent)
  {
    var pause := Attempt(fetch(a), false).pause;
    var rest := RunFrom(fetch, a + 1).1;
    RunFromRetried(fetch, a);
    RetryEvents(fetch(a));
    CountsAfterRetry(pause, rest, Request);
    CountsAfterRetry(pause, rest, RotateUserAgent);
  }

  /** A run requests the page once per attempt up to and including the decisive one, and
      rotates the user agent once for every 403 before it. */
  lemma {:induction false} RunFromCounts(fetch: nat -> FetchOutcome, a: nat, d: nat)
    requires Decisive(fetch, a, d)
    ensures Occurrences(RunFrom(fetch, a).1, Request) == d - a + 1
    ensures Occurrences(RunFrom(fetch, a).1, RotateUserAgent) == Blocked(fetch, a, d)
    decreases d - a
  {
    if a < d {
      RetriedCounts(fetch, a);
      RunFromCounts(fetch, a + 1, d);
    } else {
      var tried := [Pause(3, 8), Request];
      assert RunFrom(fetch, a).1 == tried;
      assert tried[1..][1..] == [];
    }
  }

  /** The whole run, as decided by its decisive attempt. */
  lemma RunFromDecided(fetch: nat -> FetchOutcome, a: nat, d: nat)
    requires Decisive(fetch, a, d)
    ensures RunFrom(fetch, a).0 == Verdict(fetch(d))
    ensures Occurrences(RunFrom(fetch, a).1, Request) == d - a + 1
    ensures Occurrences(RunFrom(fetch, a).1, RotateUserAgent) == Blocked(fetch, a, d)
  {
    RunFromVerdict(fetch, a, d);
    RunFromCounts(fetch, a, d);
  }

  /** Exactly one attempt is decisive for a whole run. */
  lemma DecisiveUnique(fetch: nat -> FetchOutcome, d1: nat, d2: nat)
    requires Decisive(fetch, 0, d1) && Decisive(fetch, 0, d2)
    ensures d1 == d2
  {
  }

  /** Every run has a decisive attempt. */
  lemma {:induction false} DecisiveExists(fetch: nat -> FetchOutcome, a: nat) returns (d: nat)
    requires a < MaxRetries
    ensures Decisive(fetch, a, d)
    decreases MaxRetries - a
  {
    if a == MaxRetries - 1 || !Retryable(fetch(a)) {
      d := a;
    } else {
      d := DecisiveExists(fetch, a + 1);
    }
  }

  /** Every run requests the page at least once and at most five times. */
  lemma RequestsBounded(fetch: nat -> FetchOutcome)
    ensures 1 <= Occurrences(Run(fetch).1, Request) <= MaxRetries
  {
    var d := DecisiveExists(fetch, 0);
    RunFromCounts(fetch, 0, d);
  }

  /** What `scrape_hike` hands back is decided by the decisive attempt: the record read from
      the page that attempt fetched, returned at once, or the message of the error it ends in. */
  lemma ScrapeHikeDecided(fetch: nat -> FetchOutcome, d: nat)
    requires Decisive(fetch, 0, d)
    ensures fetch(d).Fetched? ==> ScrapeHike(fetch) == Hike(ExtractHikeData(fetch(d).page))
    ensures !fetch(d).Fetched? ==> ScrapeHike(fetch) == Raised(Message(Verdict(fetch(d)).error))
  {
    RunFromDecided(fetch, 0, d);
  }

  /** Four refusals and then a page: the page is read after five requests and four rotations. */
  lemma FourBlocksThenPage(fetch: nat -> FetchOutcome, page: Page)
    requires forall k: nat :: k < 4 ==> fetch(k).HttpError? && fetch(k).status == 403
    requires fetch(4) == Fetched(page)
    ensures Run(fetch).0 == Scraped(page)
    ensures Occurrences(Run(fetch).1, Request) == 5
    ensures Occurrences(Run(fetch).1, RotateUserAgent) == 4
  {
    assert Decisive(fetch, 0, 4);
    RunFromDecided(fetch, 0, 4);
  }

  /** Four refusals and then a page: `scrape_hike` returns the record read from that page. */
  lemma FourBlocksThenRecord(fetch: nat -> FetchOutcome, page: Page)
    requires forall k: nat :: k < 4 ==> fetch(k).HttpError? && fetch(k).status == 403
    requires fetch(4) == Fetched(page)
    ensures ScrapeHike(fetch) == Hike(ExtractHikeData(page))
  {
    assert Decisive(fetch, 0, 4);
    ScrapeHikeDecided(fetch, 4);
  }

  /** A page refused every time: access is denied after five requests and four rotations. */
  lemma AlwaysBlocked(fetch: nat -> FetchOutcome)
    requires forall k: nat :: k < MaxRetries ==> fetch(k).HttpError? && fetch(k).status == 403
    ensures ScrapeHike(fetch) == Raised(AccessDeniedMessage)
    ensures Occurrences(Run(fetch).1, Request) == 5
    ensures Occurrences(Run(fetch).1, RotateUserAgent) == 4
  {
    assert Decisive(fetch, 0, 4);
    RunFromDecided(fetch, 0, 4);
  }

  /** An HTTP status other than 403 on the first attempt ends the run there, unretried. */
  lemma OtherStatusIsFatal(fetch: nat -> FetchOutcome)
    requires fetch(0).HttpError? && fetch(0).status != 403
    ensures ScrapeHike(fetch) ==
      Raised("HTTP Error " + NatToString(fetch(0).status) + ": " + fetch(0).detail)
    ensures Occurrences(Run(fetch).1, Request) == 1
    ensures Occurrences(Run(fetch).1, RotateUserAgent) == 0
  {
    assert Decisive(fetch, 0, 0);
    RunFromDecided(fetch, 0, 0);
  }

  /** Failing some other way every time: the run gives up with the last failure after five
      requests, never rotating the user agent. */
  lemma AlwaysFailing(fetch: nat -> FetchOutcome)
    requires forall k: nat :: k < MaxRetries ==> fetch(k).OtherError?
    ensures ScrapeHike(fetch) == Raised("Failed to scrape hike data: " + fetch(4).detail)
    ensures Occurrences(Run(fetch).1, Request) == 5
    ensures Occurrences(Run(fetch).1, RotateUserAgent) == 0
  {
    assert Decisive(fetch, 0, 4);
    RunFromDecided(fetch, 0, 4);
  }
}
