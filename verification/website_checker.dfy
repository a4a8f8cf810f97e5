/**
 * The per-job logic of the concurrent website checker: how one HTTP
 * answer is classified, how a job retries, which lines of the URL file
 * become jobs, how many workers run, and what a log line records.
 *
 * The network is replaced by the sequence of answers the successive
 * requests would get, each with the time it took; times are durations in
 * nanoseconds and the wall-clock timestamp is a parameter.
 */
module WebsiteChecker {
  import opened Wrappers
  import opened RustInt
  import opened Text

  /** A `std::time::Duration`, in nanoseconds. */
  type Duration = nat

  /** What one request returns: a 2xx/3xx answer, an HTTP error status, or a failure below HTTP. */
  datatype Response = Answered(code: uint16) | StatusError(code: uint16) | TransportError(detail: string)

  /** A status code, or a message saying why there is none. */
  type Status = Result<uint16, string>

  datatype Job = Job(url: string, maxRetries: uint32)

  datatype WebsiteStatus = WebsiteStatus(url: string, status: Status, responseTime: Duration, timestamp: string)

  /** One request of a job: what it got back and how long it took. */
  datatype Attempt = Attempt(response: Response, elapsed: Duration)

  /** How a job ended: the number of requests made, the last status and the last request's time. */
  datatype Report = Report(made: nat, status: Status, elapsed: Duration)

  const TransportPrefix: string := "transport error: "
  const Unattempted: string := "unattempted"

  /**
   * `check_once`: every answer that carries an HTTP status, error
   * statuses included, is that status; only a transport failure is an
   * error, whose message is the failure's text after a fixed prefix.
   */
  function CheckOnce(response: Response): (r: Status)
    ensures r.Ok? <==> !response.TransportError?
    ensures r.Ok? ==> r.value == response.code
    ensures r.Err? ==> r.error == TransportPrefix + response.detail
  {
    match response
    case Answered(code) => Ok(code)
    case StatusError(code) => Ok(code)
    case TransportError(detail) => Err(TransportPrefix + detail)
  }

  /**
   * The number of requests a job may make: one more than its retries,
   * saturating at `u32::MAX`, so never zero and never an overflow.
   */
  function AttemptBudget(maxRetries: uint32): (n: uint32)
    ensures 1 <= n <= maxRetries + 1
    ensures maxRetries < U32_MAX ==> n == maxRetries + 1
    ensures maxRetries == U32_MAX ==> n == U32_MAX
  {
    SaturatingAddU32(maxRetries, 1)
  }

  /**
   * The retry rule: make requests in order until one has a status or the
   * budget is spent. The report keeps the last request's status and time.
   */
  function Retry(tries: seq<Attempt>, budget: nat): (r: Report)
    requires 1 <= budget <= |tries|
    ensures 1 <= r.made <= budget
    ensures r.status == CheckOnce(tries[r.made - 1].response)
    ensures r.elapsed == tries[r.made - 1].elapsed
    ensures forall i :: 0 <= i < r.made - 1 ==> CheckOnce(tries[i].response).Err?
    ensures r.made < budget ==> r.status.Ok?
    decreases budget
  {
    var first := CheckOnce(tries[0].response);
    if first.Ok? || budget == 1 then Report(1, first, tries[0].elapsed)
    else
      var rest := Retry(tries[1..], budget - 1);
      assert forall i :: 1 <= i < |tries| ==> tries[i] == tries[1..][i - 1];
      Report(rest.made + 1, rest.status, rest.elapsed)
  }

  /**
   * The report is determined by its properties: the number of requests is
   * one past the first request with a status, or the whole budget if
   * there is none.
   */
  lemma RetryMade(tries: seq<Attempt>, budget: nat, m: nat)
    requires 1 <= m <= budget <= |tries|
    requires forall i :: 0 <= i < m - 1 ==> CheckOnce(tries[i].response).Err?
    requires m < budget ==> CheckOnce(tries[m - 1].response).Ok?
    ensures Retry(tries, budget).made == m
  {
  }

  /** A request with a status ends the job: nothing after it is requested, and its status is kept. */
  lemma RetryStopsAtFirstStatus(tries: seq<Attempt>, budget: nat, k: nat)
    requires k < budget <= |tries|
    requires CheckOnce(tries[k].response).Ok?
    requires forall i :: 0 <= i < k ==> CheckOnce(tries[i].response).Err?
    ensures Retry(tries, budget) == Report(k + 1, CheckOnce(tries[k].response), tries[k].elapsed)
  {
    RetryMade(tries, budget, k + 1);
  }

  /** When every request fails, all of the budget is spent and the last failure is kept. */
  lemma RetryExhausted(tries: seq<Attempt>, budget: nat)
    requires 1 <= budget <= |tries|
    requires forall i :: 0 <= i < budget ==> CheckOnce(tries[i].response).Err?
    ensures Retry(tries, budget)
            == Report(budget, CheckOnce(tries[budget - 1].response), tries[budget - 1].elapsed)
  {
    RetryMade(tries, budget, budget);
  }

  /** The time reported is the last request's alone, not the sum over the retries. */
  lemma RetryTimeIsLastAttempt()
    ensures var tries := [Attempt(TransportError("reset"), 5), Attempt(Answered(200), 7)];
            Retry(tries, 2) == Report(2, Ok(200), 7)
  {
    var tries := [Attempt(TransportError("reset"), 5), Attempt(Answered(200), 7)];
    RetryStopsAtFirstStatus(tries, 2, 1);
  }

  /** With one retry, a job answered at once makes one request. */
  lemma RetryScenarioAnswered()
    ensures var tries := [Attempt(Answered(200), 3), Attempt(Answered(200), 3)];
            Retry(tries, 2) == Report(1, Ok(200), 3)
  {
    var tries := [Attempt(Answered(200), 3), Attempt(Answered(200), 3)];
    RetryStopsAtFirstStatus(tries, 2, 0);
  }

  /** With one retry, a 503 after a refused connection still ends the job, with the 503. */
  lemma RetryScenarioErrorStatus()
    ensures var tries := [Attempt(TransportError("refused"), 4), Attempt(StatusError(503), 6)];
            Retry(tries, 2) == Report(2, Ok(503), 6)
  {
    var tries := [Attempt(TransportError("refused"), 4), Attempt(StatusError(503), 6)];
    RetryStopsAtFirstStatus(tries, 2, 1);
  }

  /** With one retry, a job that never connects makes two requests and keeps the second failure. */
  lemma RetryScenarioUnreachable(first: string, second: string)
    ensures var tries := [Attempt(TransportError(first), 4), Attempt(TransportError(second), 5)];
            Retry(tries, 2) == Report(2, Err(TransportPrefix + second), 5)
  {
    var tries := [Attempt(TransportError(first), 4), Attempt(TransportError(second), 5)];
    RetryExhausted(tries, 2);
  }

  /** At least one request is always made, so the placeholder status is never reported. */
  lemma RetryNeverUnattempted(tries: seq<Attempt>, budget: nat)
    requires 1 <= budget <= |tries|
    ensures Retry(tries, budget).status != Err(Unattempted)
  {
    var r := Retry(tries, budget);
    if r.status.Err? {
      assert r.status.error[0] == TransportPrefix[0] == 't';
      assert Unattempted[0] == 'u';
    }
  }

  /**
   * One job as a worker runs it: the status starts as the placeholder
   * error and the time as zero, each request overwrites both, and the
   * first request with a status ends the loop.
   */
  method RunJob(job: Job, tries: seq<Attempt>, now: string) returns (ws: WebsiteStatus)
    requires AttemptBudget(job.maxRetries) <= |tries|
    ensures var report := Retry(tries, AttemptBudget(job.maxRetries));
            ws == WebsiteStatus(job.url, report.status, report.elapsed, now)
    ensures ws.status != Err(Unattempted)
  {
    var lastResult: Status := Err(Unattempted);
    var lastTime: Duration := 0;
    var attempts := AttemptBudget(job.maxRetries);
    var k := 0;
    while k < attempts
      invariant 0 <= k <= attempts
      invariant forall i :: 0 <= i < k ==> CheckOnce(tries[i].response).Err?
      invariant k == 0 ==> lastResult == Err(Unattempted)
      invariant k > 0 ==> lastResult == CheckOnce(tries[k - 1].response) && lastTime == tries[k - 1].elapsed
    {
      var res := CheckOnce(tries[k].response);
      lastTime := tries[k].elapsed;
      lastResult := res;
      k := k + 1;
      if res.Ok? {
        break;
      }
    }
    RetryMade(tries, attempts, k);
    RetryNeverUnattempted(tries, attempts);
    ws := WebsiteStatus(job.url, lastResult, lastTime, now);
  }

  /** `f` applied to each element, in order. */
  function Map<A, B>(f: A -> B, xs: seq<A>): (ys: seq<B>)
    ensures |ys| == |xs|
    ensures forall i :: 0 <= i < |xs| ==> ys[i] == f(xs[i])
  {
    seq(|xs|, i requires 0 <= i < |xs| => f(xs[i]))
  }

  lemma MapConcat<A, B>(f: A -> B, a: seq<A>, b: seq<A>)
    ensures Map(f, a + b) == Map(f, a) + Map(f, b)
  {
  }

  /** Each line with the whitespace at both ends removed. */
  function TrimAll(lines: seq<string>): (r: seq<string>)
    ensures |r| == |lines|
    ensures forall i :: 0 <= i < |r| ==> r[i] == Trim(lines[i])
    ensures forall i :: 0 <= i < |r| ==> IsTrimmed(r[i])
  {
    var r := Map(Trim, lines);
    assert forall i :: 0 <= i < |r| ==> r[i] == Trim(lines[i]);
    r
  }

  /** The non-empty strings of a sequence, in order. */
  function DropEmpty(strs: seq<string>): (r: seq<string>)
    ensures |r| <= |strs|
    ensures forall i :: 0 <= i < |r| ==> r[i] != [] && r[i] in strs
  {
    if strs == [] then []
    else
      var rest := DropEmpty(strs[1..]);
      if strs[0] == [] then rest else [strs[0]] + rest
  }

  /** The URLs in a list of lines: each line trimmed, blank lines dropped, order kept. */
  function UrlsOf(lines: seq<string>): (urls: seq<string>)
    ensures |urls| <= |lines|
    ensures forall i :: 0 <= i < |urls| ==> urls[i] != [] && IsTrimmed(urls[i])
  {
    var trimmed := TrimAll(lines);
    var urls := DropEmpty(trimmed);
    assert forall i :: 0 <= i < |urls| ==> IsTrimmed(urls[i]) by {
      forall i | 0 <= i < |urls| ensures IsTrimmed(urls[i]) {
        var j :| 0 <= j < |trimmed| && trimmed[j] == urls[i];
      }
    }
    urls
  }

  /** `load_urls` on the contents of the URL file. */
  function LoadUrls(contents: string): (urls: seq<string>)
    ensures forall i :: 0 <= i < |urls| ==> urls[i] != [] && IsTrimmed(urls[i])
  {
    UrlsOf(Lines(contents))
  }

  lemma {:induction false} DropEmptyConcat(a: seq<string>, b: seq<string>)
    ensures DropEmpty(a + b) == DropEmpty(a) + DropEmpty(b)
    decreases |a|
  {
    if a == [] {
      assert a + b == b;
    } else {
      DropEmptyConcat(a[1..], b);
      var head := if a[0] == [] then [] else [a[0]];
      DropEmptyCons(a);
      DropEmptyCons(a + b);
      assert (a + b)[0] == a[0];
      assert (a + b)[1..] == a[1..] + b;
      assert head + (DropEmpty(a[1..]) + DropEmpty(b)) == (head + DropEmpty(a[1..])) + DropEmpty(b);
    }
  }

  lemma DropEmptyCons(a: seq<string>)
    requires a != []
    ensures DropEmpty(a) == (if a[0] == [] then [] else [a[0]]) + DropEmpty(a[1..])
  {
  }

  /** Filtering keeps the order of the lines: the URLs of two runs of lines, one after the other. */
  lemma UrlsOfConcat(a: seq<string>, b: seq<string>)
    ensures UrlsOf(a + b) == UrlsOf(a) + UrlsOf(b)
  {
    TrimAllConcat(a, b);
    DropEmptyConcat(TrimAll(a), TrimAll(b));
  }

  lemma TrimAllConcat(a: seq<string>, b: seq<string>)
    ensures TrimAll(a + b) == TrimAll(a) + TrimAll(b)
  {
    MapConcat(Trim, a, b);
  }

  /** A single line gives its trimmed text, or nothing when it is blank. */
  lemma UrlsOfLine(line: string)
    ensures UrlsOf([line]) == if AllWhitespace(line) then [] else [Trim(line)]
  {
    TrimEmptyIffBlank(line);
    assert TrimAll([line]) == [Trim(line)];
  }

  /** Blank lines contribute no URL. */
  lemma {:induction false} UrlsOfBlank(lines: seq<string>)
    requires forall i :: 0 <= i < |lines| ==> AllWhitespace(lines[i])
    ensures UrlsOf(lines) == []
  {
    var trimmed := TrimAll(lines);
    forall i | 0 <= i < |lines| ensures trimmed[i] == [] {
      TrimEmptyIffBlank(lines[i]);
    }
    DropEmptyOfEmpties(trimmed);
  }

  lemma {:induction false} DropEmptyOfEmpties(strs: seq<string>)
    requires forall i :: 0 <= i < |strs| ==> strs[i] == []
    ensures DropEmpty(strs) == []
    decreases |strs|
  {
    if strs != [] {
      DropEmptyOfEmpties(strs[1..]);
    }
  }

  /** Non-empty strings pass the filter unchanged. */
  lemma {:induction false} DropEmptyKeeps(strs: seq<string>)
    requires forall i :: 0 <= i < |strs| ==> strs[i] != []
    ensures DropEmpty(strs) == strs
    decreases |strs|
  {
    if strs != [] {
      DropEmptyKeeps(strs[1..]);
      assert strs == [strs[0]] + strs[1..];
    }
  }

  /** Already trimmed, non-empty URLs pass through unchanged. */
  lemma UrlsOfKeeps(urls: seq<string>)
    requires forall i :: 0 <= i < |urls| ==> urls[i] != [] && IsTrimmed(urls[i])
    ensures UrlsOf(urls) == urls
  {
    forall i | 0 <= i < |urls| ensures TrimAll(urls)[i] == urls[i] {
      TrimOfTrimmed(urls[i]);
    }
    assert TrimAll(urls) == urls;
    DropEmptyKeeps(urls);
  }

  /** A URL file written one URL per line reads back as the same URLs. */
  lemma LoadUrlsUnlines(urls: seq<string>)
    requires forall i :: 0 <= i < |urls| ==> urls[i] != [] && IsTrimmed(urls[i]) && '\n' !in urls[i]
    ensures LoadUrls(Unlines(urls)) == urls
  {
    assert forall i :: 0 <= i < |urls| ==> IsPlainLine(urls[i]) by {
      forall i | 0 <= i < |urls| ensures IsPlainLine(urls[i]) {
        assert IsWhitespace('\r');
      }
    }
    LinesUnlines(urls);
    UrlsOfKeeps(urls);
  }

  /** `worker_threads.max(1)`: a configured count of zero still runs one worker. */
  function EffectiveWorkers(configured: nat): (n: nat)
    ensures n >= 1 && n >= configured
    ensures configured >= 1 ==> n == configured
    ensures n == configured || n == 1
  {
    if configured < 1 then 1 else configured
  }

  /** The values a log line holds. */
  datatype Json = JNumber(n: nat) | JString(s: string)

  const NanosPerMilli: nat := 1_000_000

  /**
   * The object `to_json_line` writes for one result: the URL, the status
   * code as a number or the error text as a string under the same key,
   * the response time in whole milliseconds, and the timestamp.
   */
  function ToJson(ws: WebsiteStatus): (obj: map<string, Json>)
    ensures obj.Keys == {"url", "status", "response_time_ms", "timestamp"}
    ensures obj["url"] == JString(ws.url) && obj["timestamp"] == JString(ws.timestamp)
    ensures obj["status"].JNumber? <==> ws.status.Ok?
    ensures var ms := obj["response_time_ms"];
            ms.JNumber? && ms.n * NanosPerMilli <= ws.responseTime < (ms.n + 1) * NanosPerMilli
  {
    var status := match ws.status
      case Ok(code) => JNumber(code)
      case Err(err) => JString(err);
    map["url" := JString(ws.url), "status" := status,
        "response_time_ms" := JNumber(ws.responseTime / NanosPerMilli), "timestamp" := JString(ws.timestamp)]
  }

  /** Reads the status back from a log line's object. */
  function StatusOfJson(obj: map<string, Json>): (r: Option<Status>)
    ensures r.Some? <==> "status" in obj && (obj["status"].JString? || obj["status"].n <= U16_MAX)
  {
    if "status" !in obj then None
    else match obj["status"]
      case JNumber(n) => if n <= U16_MAX then Some(Ok(n)) else None
      case JString(s) => Some(Err(s))
  }

  /** A log line records the status faithfully: a code and an error text cannot be confused. */
  lemma StatusOfToJson(ws: WebsiteStatus)
    ensures StatusOfJson(ToJson(ws)) == Some(ws.status)
  {
  }
}
