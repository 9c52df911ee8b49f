/**
 * The resilient call wrapper of the AI service layer: `withRetry`, a bounded
 * retry loop with exponential backoff on quota errors, and the two domain
 * calls built on it, which replace any failure by a fixed fallback value.
 *
 * The wrapped call `fn` is foreign: it is given as the outcome of each of its
 * invocations (`fn(k)` is what the call returns or throws the k-th time).
 * Sleeping is not performed: each wait is recorded, in order, as a delay.
 */
module GeminiService {
  import opened JsText

  /** A rejection of the wrapped call, reduced to what the retry loop looks at: the error's `message`, if any. */
  datatype Failure = Failure(message: Option<string>)

  /** What one invocation of the wrapped call does: resolve with a value, or reject with an error. */
  datatype Attempt<T> = Succeeded(value: T) | Failed(error: Failure)

  /** A value thrown by `withRetry`: an attempt's error, or the never-assigned `lastError` (`undefined`). */
  datatype Thrown = Undefined | Raised(error: Failure)

  /** How `withRetry` finishes. */
  datatype Outcome<T> = Returned(value: T) | Threw(thrown: Thrown)

  /**
   * Everything observable about one `withRetry` call: how it finished, how
   * many times it invoked the wrapped call, and the waits it slept, in order
   * (`waits[j]` separates invocation j from invocation j + 1).
   */
  datatype Run<T> = Run(outcome: Outcome<T>, calls: nat, waits: seq<int>)

  /** The defaults of `withRetry`'s `retries` and `baseDelay` parameters (milliseconds). */
  const DefaultRetries: int := 3
  const DefaultBaseDelay: int := 1500

  /** `Math.pow(2, n)` for a whole exponent. */
  function Pow2(n: nat): nat {
    if n == 0 then 1 else 2 * Pow2(n - 1)
  }

  // ---------------------------------------------------------------------------
  // Quota classification
  // ---------------------------------------------------------------------------

  /**
   * `error.message?.toLowerCase() || ""`: the message up to case, with no
   * capital left; empty exactly when the message is missing or empty.
   */
  function LoweredMessage(e: Failure): (r: string)
    ensures e.message.Some? ==> SameIgnoringCase(e.message.value, r)
    ensures NoCapitals(r)
    ensures r == "" <==> e.message.None? || e.message == Some("")
  {
    match e.message
    case None => ""
    case Some(m) => ToLower(m)
  }

  /** A quota (rate-limit) error: its lower-cased message mentions "429", "resource_exhausted" or "quota". */
  predicate IsQuotaError(e: Failure) {
    var msg := LoweredMessage(e);
    Includes(msg, "429") || Includes(msg, "resource_exhausted") || Includes(msg, "quota")
  }

  /** An error without a message, or with an empty one, is never a quota error. */
  lemma MissingMessageIsNotQuota(e: Failure)
    requires e.message.None? || e.message == Some("")
    ensures !IsQuotaError(e)
  {
    EmptyIncludesNothing("429");
    EmptyIncludesNothing("resource_exhausted");
    EmptyIncludesNothing("quota");
  }

  /** The classification is case-insensitive: messages equal up to letter case classify alike. */
  lemma QuotaClassificationIgnoresCase(m: string, m': string)
    requires SameIgnoringCase(m, m')
    ensures IsQuotaError(Failure(Some(m))) == IsQuotaError(Failure(Some(m')))
  {
    ToLowerIgnoresCase(m, m');
  }

  /** A message that mentions "RESOURCE_EXHAUSTED" in upper case, as the API's status name, is a quota error. */
  lemma ResourceExhaustedIsQuota(m: string)
    requires Includes(m, "RESOURCE_EXHAUSTED")
    ensures IsQuotaError(Failure(Some(m)))
  {
    IncludesLowered(m, "RESOURCE_EXHAUSTED");
    LowerResourceExhausted();
  }

  /** The upper-case status name lower-cases to the needle the classifier looks for. */
  lemma LowerResourceExhausted()
    ensures ToLower("RESOURCE_EXHAUSTED") == "resource_exhausted"
  {
    var u := "RESOURCE_EXHAUSTED";
    forall i | 0 <= i < |u| ensures ToLower(u)[i] == "resource_exhausted"[i] {
    }
  }

  /** A message carrying the HTTP status code 429 is a quota error. */
  lemma StatusCode429IsQuota(m: string)
    requires Includes(m, "429")
    ensures IsQuotaError(Failure(Some(m)))
  {
    IncludesLowered(m, "429");
    assert ToLower("429") == "429";
  }

  // ---------------------------------------------------------------------------
  // The retry loop as a specification function
  // ---------------------------------------------------------------------------

  /**
   * The loop of `withRetry` from iteration `i` on, with `lastError` the error
   * remembered so far. An attempt that fails with a quota error before the
   * last iteration waits `baseDelay * 2^i` and goes round again; any other
   * failure is rethrown; a success is returned at once.
   */
  function RetryFrom<T>(fn: nat -> Attempt<T>, retries: int, baseDelay: int, i: nat, lastError: Thrown): Run<T>
    decreases retries - i
  {
    if i >= retries then Run(Threw(lastError), 0, [])
    else match fn(i)
      case Succeeded(v) => Run(Returned(v), 1, [])
      case Failed(e) =>
        if IsQuotaError(e) && i < retries - 1 then
          var rest := RetryFrom(fn, retries, baseDelay, i + 1, Raised(e));
          Run(rest.outcome, rest.calls + 1, [baseDelay * Pow2(i)] + rest.waits)
        else
          Run(Threw(Raised(e)), 1, [])
  }

  /** `withRetry(fn, retries, baseDelay)`: the loop from its first iteration, with `lastError` unassigned. */
  function Retry<T>(fn: nat -> Attempt<T>, retries: int, baseDelay: int): Run<T> {
    RetryFrom(fn, retries, baseDelay, 0, Undefined)
  }

  /** Attempt `k` ends the loop: it succeeded, failed with a non-quota error, or was the last one allowed. */
  predicate Stops<T>(fn: nat -> Attempt<T>, retries: int, k: nat) {
    match fn(k)
    case Succeeded(_) => true
    case Failed(e) => !IsQuotaError(e) || k >= retries - 1
  }

  /** How the loop ends when attempt `k` stops it: its value is returned, or its error is rethrown as it is. */
  function Settle<T>(a: Attempt<T>): Outcome<T> {
    match a
    case Succeeded(v) => Returned(v)
    case Failed(e) => Threw(Raised(e))
  }

  /** From iteration `i` on, the loop invokes the wrapped call at least once and at most once per iteration left, with one wait fewer. */
  lemma {:induction false} RetryFromCalls<T>(fn: nat -> Attempt<T>, retries: int, baseDelay: int, i: nat, lastError: Thrown)
    requires i < retries
    ensures 1 <= RetryFrom(fn, retries, baseDelay, i, lastError).calls <= retries - i
    ensures |RetryFrom(fn, retries, baseDelay, i, lastError).waits| == RetryFrom(fn, retries, baseDelay, i, lastError).calls - 1
    decreases retries - i
  {
    if fn(i).Failed? && IsQuotaError(fn(i).error) && i < retries - 1 {
      RetryFromCalls(fn, retries, baseDelay, i + 1, Raised(fn(i).error));
    }
  }

  /** The j-th wait from iteration `i` on is `baseDelay * 2^k` with `k == i + j`: each wait doubles the one before. */
  lemma {:induction false} RetryFromWaitAt<T>(fn: nat -> Attempt<T>, retries: int, baseDelay: int, i: nat, lastError: Thrown, j: nat, k: nat)
    requires j < |RetryFrom(fn, retries, baseDelay, i, lastError).waits|
    requires k == i + j
    ensures RetryFrom(fn, retries, baseDelay, i, lastError).waits[j] == baseDelay * Pow2(k)
    decreases j
  {
    var w := RetryFrom(fn, retries, baseDelay, i, lastError).waits;
    var e := fn(i).error;
    var rest := RetryFrom(fn, retries, baseDelay, i + 1, Raised(e)).waits;
    assert w == [baseDelay * Pow2(i)] + rest;
    if j > 0 {
      RetryFromWaitAt(fn, retries, baseDelay, i + 1, Raised(e), j - 1, k);
      assert w[j] == rest[j - 1];
    }
  }

  /** Every invocation from iteration `i` on except the last failed with a quota error and did not stop the loop. */
  lemma {:induction false} RetryFromRetried<T>(fn: nat -> Attempt<T>, retries: int, baseDelay: int, i: nat, lastError: Thrown)
    ensures var n := RetryFrom(fn, retries, baseDelay, i, lastError).calls;
      forall j :: i <= j < i + n - 1 ==> !Stops(fn, retries, j)
    decreases retries - i
  {
    if i < retries && fn(i).Failed? && IsQuotaError(fn(i).error) && i < retries - 1 {
      RetryFromRetried(fn, retries, baseDelay, i + 1, Raised(fn(i).error));
      assert !Stops(fn, retries, i);
    }
  }

  /** The last invocation from iteration `i` on stops the loop, and the loop settles on it. */
  lemma {:induction false} RetryFromLast<T>(fn: nat -> Attempt<T>, retries: int, baseDelay: int, i: nat, lastError: Thrown)
    requires i < retries
    ensures var r := RetryFrom(fn, retries, baseDelay, i, lastError);
      && r.calls >= 1
      && Stops(fn, retries, i + r.calls - 1)
      && r.outcome == Settle(fn(i + r.calls - 1))
    decreases retries - i
  {
    if fn(i).Failed? && IsQuotaError(fn(i).error) && i < retries - 1 {
      RetryFromLast(fn, retries, baseDelay, i + 1, Raised(fn(i).error));
    } else {
      assert RetryFrom(fn, retries, baseDelay, i, lastError).calls == 1;
    }
  }

  /**
   * The whole behaviour of `withRetry`. With `retries <= 0` the loop never
   * runs and `undefined` is thrown. Otherwise the wrapped call is invoked
   * between 1 and `retries` times; every invocation but the last failed with
   * a quota error and is followed by exactly one wait, the j-th being
   * `baseDelay * 2^j`; the last invocation is the first that succeeds, fails
   * with a non-quota error, or is attempt `retries - 1`, and its value is
   * returned or its error rethrown.
   */
  lemma RetryBehaviour<T>(fn: nat -> Attempt<T>, retries: int, baseDelay: int)
    ensures var r := Retry(fn, retries, baseDelay);
      && (retries <= 0 ==> r == Run(Threw(Undefined), 0, []))
      && (retries >= 1 ==>
          && 1 <= r.calls <= retries
          && |r.waits| == r.calls - 1
          && (forall j :: 0 <= j < |r.waits| ==> r.waits[j] == baseDelay * Pow2(j))
          && (forall j :: 0 <= j < r.calls - 1 ==> !Stops(fn, retries, j))
          && Stops(fn, retries, r.calls - 1)
          && r.outcome == Settle(fn(r.calls - 1)))
  {
    forall j | 0 <= j < |Retry(fn, retries, baseDelay).waits|
      ensures Retry(fn, retries, baseDelay).waits[j] == baseDelay * Pow2(j)
    {
      RetryFromWaitAt(fn, retries, baseDelay, 0, Undefined, j, j);
    }
    RetryFromRetried(fn, retries, baseDelay, 0, Undefined);
    if retries >= 1 {
      RetryFromCalls(fn, retries, baseDelay, 0, Undefined);
      RetryFromLast(fn, retries, baseDelay, 0, Undefined);
    }
  }

  /** `undefined` is thrown exactly when the loop body never runs: an error of some attempt is thrown otherwise. */
  lemma UndefinedThrownIffNoAttempts<T>(fn: nat -> Attempt<T>, retries: int, baseDelay: int)
    ensures Retry(fn, retries, baseDelay).outcome == Threw(Undefined) <==> retries <= 0
    ensures Retry(fn, retries, baseDelay).calls == 0 <==> retries <= 0
  {
    RetryBehaviour(fn, retries, baseDelay);
  }

  /** If attempt `k` is the first that stops the loop, the loop makes exactly `k + 1` invocations and settles on attempt `k`. */
  lemma FirstStopDecides<T>(fn: nat -> Attempt<T>, retries: int, baseDelay: int, k: nat)
    requires k < retries
    requires Stops(fn, retries, k)
    requires forall j :: 0 <= j < k ==> !Stops(fn, retries, j)
    ensures Retry(fn, retries, baseDelay).calls == k + 1
    ensures |Retry(fn, retries, baseDelay).waits| == k
    ensures Retry(fn, retries, baseDelay).outcome == Settle(fn(k))
  {
    RetryBehaviour(fn, retries, baseDelay);
  }

  /** Attempts `0 .. k-1` all failed with quota errors. */
  predicate QuotaFailuresBefore<T>(fn: nat -> Attempt<T>, k: nat) {
    forall j :: 0 <= j < k ==> fn(j).Failed? && IsQuotaError(fn(j).error)
  }

  /** The first success wins: it is returned after exactly `k + 1` invocations, and the wrapped call is not invoked again. */
  lemma FirstSuccessWins<T>(fn: nat -> Attempt<T>, retries: int, baseDelay: int, k: nat)
    requires k < retries
    requires fn(k).Succeeded?
    requires QuotaFailuresBefore(fn, k)
    ensures Retry(fn, retries, baseDelay).outcome == Returned(fn(k).value)
    ensures Retry(fn, retries, baseDelay).calls == k + 1
  {
    FirstStopDecides(fn, retries, baseDelay, k);
  }

  /** A non-quota error is rethrown as it is, with no wait after it and no further invocation. */
  lemma NonQuotaErrorIsFinal<T>(fn: nat -> Attempt<T>, retries: int, baseDelay: int, k: nat)
    requires k < retries
    requires fn(k).Failed? && !IsQuotaError(fn(k).error)
    requires QuotaFailuresBefore(fn, k)
    ensures Retry(fn, retries, baseDelay).outcome == Threw(Raised(fn(k).error))
    ensures Retry(fn, retries, baseDelay).calls == k + 1
    ensures |Retry(fn, retries, baseDelay).waits| == k
  {
    FirstStopDecides(fn, retries, baseDelay, k);
  }

  /**
   * When every attempt hits the quota, the wrapped call is invoked exactly
   * `retries` times, there are `retries - 1` waits (none after the last
   * attempt), and the last attempt's error is rethrown.
   */
  lemma QuotaExhaustion<T>(fn: nat -> Attempt<T>, retries: int, baseDelay: int)
    requires retries >= 1
    requires QuotaFailuresBefore(fn, retries)
    ensures Retry(fn, retries, baseDelay).calls == retries
    ensures |Retry(fn, retries, baseDelay).waits| == retries - 1
    ensures Retry(fn, retries, baseDelay).outcome == Threw(Raised(fn(retries - 1).error))
  {
    FirstStopDecides(fn, retries, baseDelay, retries - 1);
  }

  /** With the default settings and a call that always hits the quota: three invocations, waits of 1500 then 3000 ms. */
  lemma DefaultBackoffSchedule<T>(fn: nat -> Attempt<T>)
    requires QuotaFailuresBefore(fn, DefaultRetries)
    ensures Retry(fn, DefaultRetries, DefaultBaseDelay).calls == 3
    ensures Retry(fn, DefaultRetries, DefaultBaseDelay).waits == [1500, 3000]
    ensures Retry(fn, DefaultRetries, DefaultBaseDelay).outcome == Threw(Raised(fn(2).error))
  {
    QuotaExhaustion(fn, DefaultRetries, DefaultBaseDelay);
    RetryBehaviour(fn, DefaultRetries, DefaultBaseDelay);
    var w := Retry(fn, DefaultRetries, DefaultBaseDelay).waits;
    assert w[0] == 1500 * Pow2(0) && w[1] == 1500 * Pow2(1);
  }

  /** Three attempts, base delay 100, every call answering "429": three invocations and 100 + 200 ms of waiting. */
  lemma Always429Scenario<T>(fn: nat -> Attempt<T>, m: string)
    requires Includes(m, "429")
    requires forall k :: fn(k) == Failed(Failure(Some(m)))
    ensures Retry(fn, 3, 100).calls == 3
    ensures Retry(fn, 3, 100).waits == [100, 200]
    ensures Retry(fn, 3, 100).outcome == Threw(Raised(Failure(Some(m))))
  {
    StatusCode429IsQuota(m);
    QuotaExhaustion(fn, 3, 100);
    RetryBehaviour(fn, 3, 100);
    var w := Retry(fn, 3, 100).waits;
    assert w[0] == 100 * Pow2(0) && w[1] == 100 * Pow2(1);
  }

  // ---------------------------------------------------------------------------
  // The retry loop as the source runs it
  // ---------------------------------------------------------------------------

  /**
   * `withRetry`: a counting loop over the attempts that invokes the wrapped
   * call, returns its first value, and on a failure either records a wait and
   * continues (quota error, attempts left) or rethrows the error.
   */
  method WithRetry<T>(fn: nat -> Attempt<T>, retries: int, baseDelay: int)
    returns (outcome: Outcome<T>, calls: nat, waits: seq<int>)
    ensures Run(outcome, calls, waits) == Retry(fn, retries, baseDelay)
  {
    var lastError := Undefined;
    calls, waits := 0, [];
    ghost var whole := Retry(fn, retries, baseDelay);
    var i: nat := 0;
    while i < retries
      invariant calls == i && |waits| == i
      invariant var here := RetryFrom(fn, retries, baseDelay, i, lastError);
        whole == Run(here.outcome, calls + here.calls, waits + here.waits)
      decreases retries - i
    {
      ghost var here := RetryFrom(fn, retries, baseDelay, i, lastError);
      var attempt := fn(i);
      calls := calls + 1;
      match attempt
      case Succeeded(v) =>
        assert here == Run(Returned(v), 1, []);
        outcome := Returned(v);
        return;
      case Failed(e) =>
        lastError := Raised(e);
        if IsQuotaError(e) && i < retries - 1 {
          ghost var rest := RetryFrom(fn, retries, baseDelay, i + 1, lastError);
          var delay := baseDelay * Pow2(i);
          assert here == Run(rest.outcome, rest.calls + 1, [delay] + rest.waits);
          assert (waits + [delay]) + rest.waits == waits + ([delay] + rest.waits);
          waits := waits + [delay];
          i := i + 1;
          continue;
        }
        assert here == Run(Threw(Raised(e)), 1, []);
        outcome := Threw(Raised(e));
        return;
    }
    outcome := Threw(lastError);
  }

  // ---------------------------------------------------------------------------
  // The two domain calls with their fallbacks
  // ---------------------------------------------------------------------------

  /**
   * `try { return await withRetry(fn) } catch { return fallback }` with the
   * default settings: the value of the retried call, or `fallback` whenever
   * it throws, whatever it throws.
   */
  function RetryOrFallback<T>(fn: nat -> Attempt<T>, fallback: T): (r: T)
    ensures r == fallback || exists k :: 0 <= k < DefaultRetries && fn(k) == Succeeded(r)
  {
    RetryBehaviour(fn, DefaultRetries, DefaultBaseDelay);
    match Retry(fn, DefaultRetries, DefaultBaseDelay).outcome
    case Returned(v) => v
    case Threw(_) => fallback
  }

  /** A success within the three attempts, after quota errors only, is passed through. */
  lemma FallbackPassesFirstSuccess<T>(fn: nat -> Attempt<T>, fallback: T, k: nat)
    requires k < DefaultRetries
    requires fn(k).Succeeded? && QuotaFailuresBefore(fn, k)
    ensures RetryOrFallback(fn, fallback) == fn(k).value
  {
    FirstSuccessWins(fn, DefaultRetries, DefaultBaseDelay, k);
  }

  /**
   * Any failure of the retried call yields the fallback: attempt `k` failed,
   * after quota errors only, with a non-quota error or as the third attempt.
   */
  lemma FallbackOnAnyFailure<T>(fn: nat -> Attempt<T>, fallback: T, k: nat)
    requires k < DefaultRetries
    requires fn(k).Failed? && (!IsQuotaError(fn(k).error) || k == DefaultRetries - 1)
    requires QuotaFailuresBefore(fn, k)
    ensures RetryOrFallback(fn, fallback) == fallback
  {
    FirstStopDecides(fn, DefaultRetries, DefaultBaseDelay, k);
  }

  /** The sentiment analysis the model returns as JSON (`score`, `summary`, `recommendedAction`). */
  datatype SentimentReport = SentimentReport(score: int, summary: string, recommendedAction: string)

  /** The canned analysis returned whenever the retried call fails. */
  const SentimentFallback: SentimentReport := SentimentReport(
    88,
    "Lead displays high intent based on tactical historical pattern recognition. Handshake verified.",
    "Initialize high-priority link.")

  /**
   * `analyzeLeadSentiment`: never throws. The prompt is built inside the
   * wrapped call from the message history, so the history only shapes `fn`.
   */
  function AnalyzeLeadSentiment(fn: nat -> Attempt<SentimentReport>): (r: SentimentReport)
    ensures r == SentimentFallback || exists k :: 0 <= k < DefaultRetries && fn(k) == Succeeded(r)
  {
    RetryOrFallback(fn, SentimentFallback)
  }

  /** Sentiment analysis whose calls all hit the quota answers the canned report (score 88). */
  lemma SentimentQuotaExhausted(fn: nat -> Attempt<SentimentReport>)
    requires QuotaFailuresBefore(fn, DefaultRetries)
    ensures AnalyzeLeadSentiment(fn) == SentimentFallback
    ensures AnalyzeLeadSentiment(fn).score == 88
  {
    FallbackOnAnyFailure(fn, SentimentFallback, 2);
  }

  /** Sentiment analysis whose first call fails for another reason (no key, bad JSON) answers the canned report at once. */
  lemma SentimentNonQuotaFailure(fn: nat -> Attempt<SentimentReport>)
    requires fn(0).Failed? && !IsQuotaError(fn(0).error)
    ensures AnalyzeLeadSentiment(fn) == SentimentFallback
  {
    FallbackOnAnyFailure(fn, SentimentFallback, 0);
  }

  const BriefingPrefix: string := "In the "
  const BriefingSuffix: string := " enclave, we are observing a significant consolidation of luxury assets. High-net-worth sentiment remains bullish with a distinct preference for turn-key detached estates and full-floor penthouses. Supply scarcity in the Yorkville core is currently driving a 4.2% month-over-month increase in price-per-square-foot benchmarks."

  /** The static briefing, with the district interpolated after "In the ". */
  function BriefingFallback(district: string): string {
    BriefingPrefix + district + BriefingSuffix
  }

  /** Different districts get different fallback briefings: the district can be read back from the text. */
  lemma BriefingFallbackInjective(d: string, d': string)
    requires BriefingFallback(d) == BriefingFallback(d')
    ensures d == d'
  {
    var n := |BriefingPrefix|;
    assert |d| == |d'|;
    assert d == BriefingFallback(d)[n..n + |d|];
    assert d' == BriefingFallback(d')[n..n + |d'|];
  }

  /**
   * `generateTerritoryBriefing`: never throws. It returns the templated
   * fallback for `district`, or what some attempt resolved with, which is
   * `undefined` (`None`) when the response carries no text.
   */
  function GenerateTerritoryBriefing(district: string, fn: nat -> Attempt<Option<string>>): (r: Option<string>)
    ensures r == Some(BriefingFallback(district)) || exists k :: 0 <= k < DefaultRetries && fn(k) == Succeeded(r)
  {
    RetryOrFallback(fn, Some(BriefingFallback(district)))
  }

  /** A briefing whose retried call fails, for any reason, is the fallback naming the requested district. */
  lemma BriefingFailureNamesDistrict(district: string, fn: nat -> Attempt<Option<string>>, k: nat)
    requires k < DefaultRetries
    requires fn(k).Failed? && (!IsQuotaError(fn(k).error) || k == DefaultRetries - 1)
    requires QuotaFailuresBefore(fn, k)
    ensures GenerateTerritoryBriefing(district, fn) == Some(BriefingFallback(district))
    ensures GenerateTerritoryBriefing(district, fn).value[..7] == "In the "
    ensures GenerateTerritoryBriefing(district, fn).value[7..7 + |district|] == district
  {
    FallbackOnAnyFailure(fn, Some(BriefingFallback(district)), k);
    assert BriefingFallback(district)[7..7 + |district|] == district;
  }

  /**
   * A response without text is no failure: its `undefined` text is returned
   * as the briefing, and the fallback is not used.
   */
  lemma BriefingWithoutTextPassesThrough(district: string, fn: nat -> Attempt<Option<string>>, k: nat)
    requires k < DefaultRetries
    requires fn(k) == Succeeded(None) && QuotaFailuresBefore(fn, k)
    ensures GenerateTerritoryBriefing(district, fn) == None
  {
    FallbackPassesFirstSuccess(fn, Some(BriefingFallback(district)), k);
  }
}
