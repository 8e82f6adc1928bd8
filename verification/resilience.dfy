/** The single-retry policy that wraps every remote call. Instants and delays are integer
    milliseconds. The per-call context holds at most one value, the reset instant of a
    rate-limit exception; it is created fresh for every call. */
module Resilience {
  import opened Wrappers

  /** The exceptions a remote call can throw, as the retry policy tells them apart. */
  datatype Error =
    | RateLimitExceeded(reset: int)  // `RateLimitExceededException`, carrying its reset instant
    | ApiError(status: int)          // any other `ApiException`, with its HTTP status code
    | OtherError                     // an exception that is not an `ApiException`
    | Canceled                       // `OperationCanceledException`

  /** What one invocation of the wrapped action does. */
  datatype Attempt = Returned | Threw(error: Error)

  /** The two retry policies of the repository: the factory's (used by the repository
      service) and the one the files service builds in its constructor. */
  datatype Policy = RateLimitExceededPolicy | ServiceRetryPolicy

  /** One call through the policy: how it ended, how often the action ran, and the
      delays slept between runs. */
  datatype Run = Run(outcome: Outcome<Error>, invocations: nat, sleeps: seq<int>)

  const OneSecond: int := 1000
  const ServiceUnavailable: int := 503

  /** Both policies are configured with `retryCount: 1`. */
  const RetryCount: nat := 1

  /** Which exceptions a policy retries: the factory handles every `ApiException`; the
      files service only rate-limit exceptions and status 503. */
  predicate Handles(p: Policy, e: Error)
  {
    match p
    case RateLimitExceededPolicy => e.RateLimitExceeded? || e.ApiError?
    case ServiceRetryPolicy => e.RateLimitExceeded? || (e.ApiError? && e.status == ServiceUnavailable)
  }

  /** The action wrapper's catch clause: a rate-limit exception stores its reset instant in
      the context (the exception itself is rethrown unchanged); nothing else touches it. */
  function RecordReset(ctx: Option<int>, e: Error): (r: Option<int>)
    ensures e.RateLimitExceeded? ==> r == Some(e.reset)
    ensures r != ctx ==> e.RateLimitExceeded?
  {
    if e.RateLimitExceeded? then Some(e.reset) else ctx
  }

  /** The sleep-duration provider: one second without a recorded reset instant, otherwise
      the time left until the reset, but never less than one second. */
  function SleepDuration(ctx: Option<int>, now: int): (d: int)
    ensures d >= OneSecond
    ensures ctx.None? ==> d == OneSecond
    ensures ctx.Some? ==> now + d >= ctx.value
    ensures d == OneSecond || (ctx.Some? && now + d == ctx.value)
  {
    match ctx
    case None => OneSecond
    case Some(reset) => if reset - now > OneSecond then reset - now else OneSecond
  }

  /** Polly's retry loop: check cancellation, run the action; on a handled exception with
      retries left, record the context, sleep and run again; otherwise rethrow.
      `attempt(k)` is what the k-th invocation does and `clock(k)` the instant at which the
      k-th sleep is computed. */
  function RetryLoop(p: Policy, retriesLeft: nat, tries: nat, ctx: Option<int>, cancelled: bool,
                     attempt: nat -> Attempt, clock: nat -> int): (r: Run)
    ensures r.invocations <= retriesLeft + 1
    ensures |r.sleeps| == if r.invocations == 0 then 0 else r.invocations - 1
    ensures forall i :: 0 <= i < |r.sleeps| ==> r.sleeps[i] >= OneSecond
    ensures cancelled <==> r.invocations == 0
    ensures r.invocations > 0 && r.outcome.Pass? ==> attempt(tries + r.invocations - 1) == Returned
    ensures r.invocations > 0 && r.outcome.Fail? ==> attempt(tries + r.invocations - 1) == Threw(r.outcome.error)
    ensures r.invocations == 0 ==> r.outcome == Fail(Canceled)
    decreases retriesLeft
  {
    if cancelled then Run(Fail(Canceled), 0, [])
    else
      match attempt(tries)
      case Returned => Run(Pass, 1, [])
      case Threw(e) =>
        var ctx' := RecordReset(ctx, e);
        if Handles(p, e) && retriesLeft > 0 then
          var rest := RetryLoop(p, retriesLeft - 1, tries + 1, ctx', cancelled, attempt, clock);
          Run(rest.outcome, 1 + rest.invocations, [SleepDuration(ctx', clock(tries))] + rest.sleeps)
        else
          Run(Fail(e), 1, [])
  }

  /** `ExecuteWithPolicyWrap` / `ExecuteWithRetry`: one call through the policy, starting
      from a fresh, empty context. */
  function Execute(p: Policy, cancelled: bool, attempt: nat -> Attempt, clock: nat -> int): (r: Run)
    ensures r.invocations <= 2
    ensures forall i :: 0 <= i < |r.sleeps| ==> r.sleeps[i] >= OneSecond
    ensures cancelled <==> r.invocations == 0
    ensures r.invocations == 0 ==> r.outcome == Fail(Canceled)
  {
    RetryLoop(p, RetryCount, 0, None, cancelled, attempt, clock)
  }

  /** The whole behaviour of one call with `retryCount` 1. */
  lemma ExecuteSingleRetry(p: Policy, cancelled: bool, attempt: nat -> Attempt, clock: nat -> int)
    ensures var r := Execute(p, cancelled, attempt, clock);
      if cancelled then
        r == Run(Fail(Canceled), 0, [])
      else if attempt(0).Returned? then
        r == Run(Pass, 1, [])
      else if !Handles(p, attempt(0).error) then
        r == Run(Fail(attempt(0).error), 1, [])
      else
        && r.invocations == 2
        && r.sleeps == [SleepDuration(RecordReset(None, attempt(0).error), clock(0))]
        && r.outcome == (if attempt(1).Returned? then Pass else Fail(attempt(1).error))
  {
  }

  /** The context is fresh per call: the delay before the retry depends only on the first
      invocation's exception, never on an earlier call. */
  lemma FirstDelayComesFromFirstException(p: Policy, attempt: nat -> Attempt, clock: nat -> int)
    requires attempt(0).Threw? && Handles(p, attempt(0).error)
    ensures Execute(p, false, attempt, clock).sleeps ==
      [if attempt(0).error.RateLimitExceeded? then SleepDuration(Some(attempt(0).error.reset), clock(0))
       else OneSecond]
  {
  }

  /** A rate-limit reset at or before "now" gives a delay of exactly one second; a reset
      later than one second from now is waited for exactly. */
  lemma RateLimitDelay(reset: int, now: int)
    ensures reset <= now + OneSecond ==> SleepDuration(Some(reset), now) == OneSecond
    ensures reset > now + OneSecond ==> now + SleepDuration(Some(reset), now) == reset
  {
  }

  /** The files service's policy retries a subset of what the factory's policy retries:
      both retry rate limits and 503, only the factory's retries e.g. 404. */
  lemma ServicePolicyIsNarrower(e: Error)
    ensures Handles(ServiceRetryPolicy, e) ==> Handles(RateLimitExceededPolicy, e)
    ensures Handles(RateLimitExceededPolicy, ApiError(404)) && !Handles(ServiceRetryPolicy, ApiError(404))
    ensures !Handles(RateLimitExceededPolicy, OtherError) && !Handles(RateLimitExceededPolicy, Canceled)
  {
  }

  /** A 503 on the first invocation followed by success ends like a call that never
      failed, after one second's sleep. */
  lemma UnavailableThenSuccess(p: Policy, attempt: nat -> Attempt, clock: nat -> int)
    requires attempt(0) == Threw(ApiError(ServiceUnavailable)) && attempt(1) == Returned
    ensures Execute(p, false, attempt, clock) == Run(Pass, 2, [OneSecond])
  {
  }

  /** A 503 on every invocation surfaces as that same exception after exactly two runs. */
  lemma UnavailableTwiceFails(p: Policy, attempt: nat -> Attempt, clock: nat -> int)
    requires forall k :: attempt(k) == Threw(ApiError(ServiceUnavailable))
    ensures Execute(p, false, attempt, clock).outcome == Fail(ApiError(ServiceUnavailable))
    ensures Execute(p, false, attempt, clock).invocations == 2
  {
    assert attempt(0) == Threw(ApiError(ServiceUnavailable));
    assert attempt(1) == Threw(ApiError(ServiceUnavailable));
  }
}
