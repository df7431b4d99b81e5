/** The Polly resilience policies configured in this repository, as data,
    plus the behaviour of the configured numbers: the retry back-off
    schedule, which attempts can start before the outer timeout, and how
    the circuit breaker counts failures under each nesting order.

    Three controllers/services wrap remote calls in
    `Policy.WrapAsync(timeout, breaker, retry)`: the timeout outermost, the
    retry innermost, so the breaker sees one outcome per execution.
    OrderService's HTTP client registers the retry handler before the
    breaker handler, so there the breaker sits inside the retry and sees
    every attempt. Time is in seconds, as exact reals. */
module Resilience {

  // ---------------------------------------------------------------------
  // Outcomes and what each policy handles
  // ---------------------------------------------------------------------

  datatype Exn =
    | BrokenCircuitExn
    | TimeoutRejectedExn
    | ReplyTimeoutExn   // the RabbitMQ client's own 30 s `TimeoutException`
    | InvalidCastExn
    | HttpRequestExn
    | OtherExn

  /** What one attempt of the wrapped operation produced: a value, a
      non-success HTTP response (the HTTP client returns those rather than
      throwing), or an exception. */
  datatype Outcome = Success | HttpStatus(code: int) | Threw(exn: Exn)

  /** The `Handle<..>` / `OrResult(..)` clauses used in the repository. */
  datatype Handles =
    | AnyException                   // Handle<Exception>()
    | AnyExceptionButBrokenCircuit   // Handle<Exception>(ex => ex is not BrokenCircuitException)
    | TransientHttp                  // HandleTransientHttpError()
    | TransientHttpOrNotFound        // HandleTransientHttpError().OrResult(404)

  /** `HandleTransientHttpError`: `HttpRequestException`, any 5xx, or 408. */
  predicate IsTransientHttp(o: Outcome) {
    (o.Threw? && o.exn == HttpRequestExn) || (o.HttpStatus? && (o.code >= 500 || o.code == 408))
  }

  predicate Handled(h: Handles, o: Outcome) {
    match h
    case AnyException => o.Threw?
    case AnyExceptionButBrokenCircuit => o.Threw? && o.exn != BrokenCircuitExn
    case TransientHttp => IsTransientHttp(o)
    case TransientHttpOrNotFound => IsTransientHttp(o) || (o.HttpStatus? && o.code == 404)
  }

  // ---------------------------------------------------------------------
  // Configuration
  // ---------------------------------------------------------------------

  /** `WaitAndRetryAsync(retries, n => base^n seconds)`. */
  datatype RetryPolicy = RetryPolicy(retries: nat, base: real, handles: Handles)

  /** `CircuitBreakerAsync(threshold, breakSeconds)`. */
  datatype BreakerPolicy = BreakerPolicy(threshold: nat, breakSeconds: real, handles: Handles)

  /** `TimeoutAsync(seconds, strategy)`. */
  datatype TimeoutPolicy = TimeoutPolicy(seconds: real, pessimistic: bool)

  datatype Layer = TimeoutLayer(timeout: TimeoutPolicy) | BreakerLayer(breaker: BreakerPolicy) | RetryLayer(retry: RetryPolicy)

  /** A policy chain, outermost layer first (the argument order of
      `Policy.WrapAsync`, and the registration order of `AddPolicyHandler`). */
  type Pipeline = seq<Layer>

  /** `ResiliencePolicyService.GetResiliencePolicy` (BooksService) and
      `ResilencePolicyService.GetPolicy` (AuthorService). */
  const ServicePipeline: Pipeline := [
    TimeoutLayer(TimeoutPolicy(10.0, true)),
    BreakerLayer(BreakerPolicy(5, 30.0, AnyException)),
    RetryLayer(RetryPolicy(3, 2.0, AnyException))
  ]

  /** `BookController.CreateResiliencePolicy`. */
  const BookControllerPipeline: Pipeline := [
    TimeoutLayer(TimeoutPolicy(5.0, true)),
    BreakerLayer(BreakerPolicy(5, 30.0, AnyException)),
    RetryLayer(RetryPolicy(3, 2.0, AnyExceptionButBrokenCircuit))
  ]

  /** `CategoryController.CreateResiliencePolicy`. */
  const CategoryControllerPipeline: Pipeline := [
    TimeoutLayer(TimeoutPolicy(3.0, true)),
    BreakerLayer(BreakerPolicy(3, 20.0, AnyException)),
    RetryLayer(RetryPolicy(2, 1.5, AnyExceptionButBrokenCircuit))
  ]

  /** OrderService's "BooksService" HTTP client: `GetRetryPolicy` then
      `GetCircuitBreakerPolicy`, and no timeout policy. */
  const OrderHttpPipeline: Pipeline := [
    RetryLayer(RetryPolicy(3, 2.0, TransientHttpOrNotFound)),
    BreakerLayer(BreakerPolicy(5, 30.0, TransientHttp))
  ]

  /** Timeout outside breaker outside retry. */
  predicate IsTimeoutBreakerRetry(p: Pipeline) {
    |p| == 3 && p[0].TimeoutLayer? && p[1].BreakerLayer? && p[2].RetryLayer?
  }

  /** The three wrapped policies nest timeout, breaker, retry with a
      pessimistic timeout; the HTTP client nests retry outside breaker and
      has no timeout at all. */
  lemma NestingOrders()
    ensures IsTimeoutBreakerRetry(ServicePipeline) && ServicePipeline[0].timeout.pessimistic
    ensures IsTimeoutBreakerRetry(BookControllerPipeline) && BookControllerPipeline[0].timeout.pessimistic
    ensures IsTimeoutBreakerRetry(CategoryControllerPipeline) && CategoryControllerPipeline[0].timeout.pessimistic
    ensures OrderHttpPipeline[0].RetryLayer? && OrderHttpPipeline[1].BreakerLayer?
    ensures forall k :: 0 <= k < |OrderHttpPipeline| ==> !OrderHttpPipeline[k].TimeoutLayer?
  {
  }

  // ---------------------------------------------------------------------
  // Back-off schedule
  // ---------------------------------------------------------------------

  function Pow(b: real, n: nat): (r: real)
    ensures b > 0.0 ==> r > 0.0
  {
    if n == 0 then 1.0 else b * Pow(b, n - 1)
  }

  /** The wait before retry `n` (1-based): `base^n` seconds. */
  function Delay(r: RetryPolicy, n: nat): real {
    Pow(r.base, n)
  }

  /** The total wait before attempt `k + 1`, i.e. after `k` retries. */
  function Backoff(r: RetryPolicy, k: nat): (b: real)
    ensures r.base > 0.0 ==> b >= 0.0
  {
    if k == 0 then 0.0 else Backoff(r, k - 1) + Delay(r, k)
  }

  lemma {:induction false} BackoffMonotone(r: RetryPolicy, j: nat, k: nat)
    requires r.base > 0.0 && j <= k
    ensures Backoff(r, j) <= Backoff(r, k)
    decreases k - j
  {
    if j < k {
      BackoffMonotone(r, j, k - 1);
    }
  }

  /** How many attempts can start strictly before `budget` seconds, given
      only the back-off waits (every attempt also takes time). */
  function AttemptsWithin(r: RetryPolicy, budget: real): (n: nat)
    requires r.base > 0.0
    ensures n <= r.retries + 1
    ensures budget > 0.0 ==> n >= 1
    ensures forall k: nat :: k < n ==> Backoff(r, k) < budget
    ensures n == r.retries + 1 || Backoff(r, n) >= budget
  {
    AttemptsFrom(r, budget, 0)
  }

  function AttemptsFrom(r: RetryPolicy, budget: real, k: nat): (n: nat)
    requires r.base > 0.0
    requires forall j: nat :: j < k ==> Backoff(r, j) < budget
    requires k <= r.retries + 1
    ensures k <= n <= r.retries + 1
    ensures forall j: nat :: j < n ==> Backoff(r, j) < budget
    ensures n == r.retries + 1 || Backoff(r, n) >= budget
    decreases r.retries + 1 - k
  {
    if k == r.retries + 1 || Backoff(r, k) >= budget then k
    else AttemptsFrom(r, budget, k + 1)
  }

  /** BooksService's and AuthorService's policy waits 2, 4 and 8 s; the
      fourth attempt could start no earlier than 14 s, after the 10 s
      timeout, so at most 3 attempts start. */
  lemma ServicePolicySchedule()
    ensures var r := ServicePipeline[2].retry;
      && Delay(r, 1) == 2.0 && Delay(r, 2) == 4.0 && Delay(r, 3) == 8.0
      && Backoff(r, 3) == 14.0
      && AttemptsWithin(r, ServicePipeline[0].timeout.seconds) == 3
  {
    var r := ServicePipeline[2].retry;
    assert Backoff(r, 2) == 6.0;
    assert Backoff(r, 3) == 14.0;
  }

  /** BookController's policy: 2 + 4 = 6 > 5, so at most 2 attempts start. */
  lemma BookControllerPolicySchedule()
    ensures var r := BookControllerPipeline[2].retry;
      && Backoff(r, 1) == 2.0 && Backoff(r, 2) == 6.0
      && AttemptsWithin(r, BookControllerPipeline[0].timeout.seconds) == 2
  {
    var r := BookControllerPipeline[2].retry;
    assert Backoff(r, 2) == 6.0;
  }

  /** CategoryController's policy waits 1.5 and 2.25 s; 1.5 + 2.25 = 3.75 > 3,
      so at most 2 attempts start. */
  lemma CategoryControllerPolicySchedule()
    ensures var r := CategoryControllerPipeline[2].retry;
      && Delay(r, 1) == 1.5 && Delay(r, 2) == 2.25
      && Backoff(r, 2) == 3.75
      && AttemptsWithin(r, CategoryControllerPipeline[0].timeout.seconds) == 2
  {
    var r := CategoryControllerPipeline[2].retry;
    assert Backoff(r, 2) == 3.75;
  }

  // ---------------------------------------------------------------------
  // The retry loop against an oracle of attempts
  // ---------------------------------------------------------------------

  /** What attempt `i` (from 0) produced and how long it ran. */
  datatype Attempt = Attempt(outcome: Outcome, duration: real)

  /** Attempts take no negative time. */
  ghost predicate Durations(run: nat -> Attempt) {
    forall i: nat :: run(i).duration >= 0.0
  }

  /** The retry loop stops after the first outcome it does not handle, or
      after its last retry: the number of attempts made, counting from
      attempt `i`. */
  function AttemptsMade(r: RetryPolicy, run: nat -> Attempt, i: nat): (n: nat)
    requires i <= r.retries
    ensures i < n <= r.retries + 1
    ensures forall j: nat :: i <= j < n - 1 ==> Handled(r.handles, run(j).outcome)
    ensures n - 1 == r.retries || !Handled(r.handles, run(n - 1).outcome)
    decreases r.retries - i
  {
    if i == r.retries || !Handled(r.handles, run(i).outcome) then i + 1
    else AttemptsMade(r, run, i + 1)
  }

  /** When attempt `k` starts: every earlier attempt ran, then waited. */
  function StartTime(r: RetryPolicy, run: nat -> Attempt, k: nat): real {
    if k == 0 then 0.0 else StartTime(r, run, k - 1) + run(k - 1).duration + Delay(r, k)
  }

  /** No attempt starts before its accumulated back-off. */
  lemma {:induction false} StartTimeAtLeastBackoff(r: RetryPolicy, run: nat -> Attempt, k: nat)
    requires Durations(run)
    ensures StartTime(r, run, k) >= Backoff(r, k)
  {
    if k > 0 {
      StartTimeAtLeastBackoff(r, run, k - 1);
      assert run(k - 1).duration >= 0.0;
    }
  }

  /** An attempt that starts before the timeout is one of the first
      `AttemptsWithin` attempts, whatever the attempts' durations. */
  lemma StartsWithinBudget(r: RetryPolicy, run: nat -> Attempt, k: nat, budget: real)
    requires Durations(run) && r.base > 0.0 && k <= r.retries
    requires StartTime(r, run, k) < budget
    ensures k < AttemptsWithin(r, budget)
  {
    StartTimeAtLeastBackoff(r, run, k);
    var n := AttemptsWithin(r, budget);
    if n <= k {
      BackoffMonotone(r, n, k);
    }
  }

  // ---------------------------------------------------------------------
  // Circuit breaker (consecutive-failure count)
  // ---------------------------------------------------------------------

  /** `Closed(n)`: `n` consecutive handled failures so far. `Open(t)`: broken
      at time `t`. `HalfOpen`: the break has elapsed and one trial call is
      running. */
  datatype BreakerState = Closed(failures: nat) | Open(openedAt: real) | HalfOpen

  /** A call is let through unless the circuit is open and the break has
      not yet elapsed. */
  predicate Admits(bp: BreakerPolicy, s: BreakerState, now: real) {
    !(s.Open? && now < s.openedAt + bp.breakSeconds)
  }

  /** The state a call that was let through runs in. */
  function Enter(bp: BreakerPolicy, s: BreakerState, now: real): BreakerState {
    if s.Open? then HalfOpen else s
  }

  /** The state after the call's outcome, seen at time `at`. A handled
      failure counts (and breaks at the threshold, or re-breaks a trial). A
      result the breaker does not handle, success included, resets the
      count and closes a trial. An exception it does not handle is
      rethrown without touching the state. */
  function Record(bp: BreakerPolicy, s: BreakerState, o: Outcome, at: real): (r: BreakerState)
    ensures !Handled(bp.handles, o) && !o.Threw? && !s.Open? ==> r == Closed(0)
    ensures !Handled(bp.handles, o) && o.Threw? ==> r == s
    ensures Handled(bp.handles, o) && s.Closed? ==>
      r == if s.failures + 1 >= bp.threshold then Open(at) else Closed(s.failures + 1)
    ensures Handled(bp.handles, o) && s.HalfOpen? ==> r == Open(at)
  {
    match s
    case Closed(n) =>
      if !Handled(bp.handles, o) then (if o.Threw? then s else Closed(0))
      else if n + 1 >= bp.threshold then Open(at)
      else Closed(n + 1)
    case HalfOpen => if Handled(bp.handles, o) then Open(at) else if o.Threw? then s else Closed(0)
    case Open(_) => s
  }

  /** One call through the breaker: admitted at `now`, outcome seen at `at`. */
  datatype Observation = Observation(now: real, outcome: Outcome, at: real)

  /** Runs calls through a breaker; yields whether each was admitted and the
      final state. */
  function ObserveAll(bp: BreakerPolicy, s: BreakerState, obs: seq<Observation>): (r: (seq<bool>, BreakerState))
    ensures |r.0| == |obs|
    decreases |obs|
  {
    if obs == [] then ([], s)
    else
      var o := obs[0];
      var admitted := Admits(bp, s, o.now);
      var s1 := if admitted then Record(bp, Enter(bp, s, o.now), o.outcome, o.at) else s;
      var rest := ObserveAll(bp, s1, obs[1..]);
      ([admitted] + rest.0, rest.1)
  }

  /** A closed breaker that has seen fewer calls than its threshold admits
      every one of them and is still closed: fewer calls than the threshold
      can never break the circuit, whatever their outcomes. */
  lemma {:induction false} BelowThresholdNeverBreaks(bp: BreakerPolicy, m: nat, obs: seq<Observation>)
    requires m + |obs| < bp.threshold
    ensures var r := ObserveAll(bp, Closed(m), obs);
      (forall k :: 0 <= k < |obs| ==> r.0[k]) && r.1.Closed? && r.1.failures <= m + |obs|
    decreases |obs|
  {
    if obs != [] {
      var o := obs[0];
      var s1 := Record(bp, Closed(m), o.outcome, o.at);
      assert s1.Closed? && s1.failures <= m + 1;
      BelowThresholdNeverBreaks(bp, s1.failures, obs[1..]);
      var r := ObserveAll(bp, Closed(m), obs);
      var rest := ObserveAll(bp, s1, obs[1..]);
      assert r.0 == [true] + rest.0;
    }
  }

  /** `threshold` consecutive handled failures from a closed breaker break
      the circuit; a call arriving before the break has elapsed is refused. */
  lemma {:induction false} ThresholdFailuresBreak(bp: BreakerPolicy, m: nat, obs: seq<Observation>, later: real)
    requires 1 <= bp.threshold && m + |obs| == bp.threshold && |obs| >= 1
    requires forall k :: 0 <= k < |obs| ==> Handled(bp.handles, obs[k].outcome)
    requires forall k :: 0 <= k < |obs| ==> obs[k].now < obs[k].at
    requires forall k :: 0 <= k < |obs| - 1 ==> obs[k].at <= obs[k + 1].now
    requires obs[|obs| - 1].at <= later < obs[|obs| - 1].at + bp.breakSeconds
    ensures ObserveAll(bp, Closed(m), obs).1 == Open(obs[|obs| - 1].at)
    ensures !Admits(bp, ObserveAll(bp, Closed(m), obs).1, later)
    decreases |obs|
  {
    if |obs| > 1 {
      assert forall k :: 0 <= k < |obs[1..]| ==> obs[1..][k] == obs[k + 1];
      ThresholdFailuresBreak(bp, m + 1, obs[1..], later);
    }
  }

  // ---------------------------------------------------------------------
  // Timeout(breaker(retry(op))): one breaker observation per execution
  // ---------------------------------------------------------------------

  /** What the caller of `ExecuteAsync` sees. */
  datatype Verdict = Completed(outcome: Outcome) | TimeoutRejected | CircuitRejected

  datatype Execution = Execution(verdict: Verdict, after: BreakerState, attempts: nat)

  /** The retry loop's final outcome and when it finished. */
  function RetryOutcome(r: RetryPolicy, run: nat -> Attempt): Outcome {
    run(AttemptsMade(r, run, 0) - 1).outcome
  }

  function RetryFinish(r: RetryPolicy, run: nat -> Attempt): real {
    var n := AttemptsMade(r, run, 0);
    StartTime(r, run, n - 1) + run(n - 1).duration
  }

  /** One `ExecuteAsync` of `WrapAsync(timeout, breaker, retry)` at time
      `now`. An open breaker refuses at once. Otherwise the retry loop runs;
      the pessimistic timeout hands the caller `TimeoutRejectedException`
      if the loop has not finished by then, while the abandoned loop runs
      on and the breaker still records its final outcome when it ends. */
  function ExecuteWrapped(t: TimeoutPolicy, bp: BreakerPolicy, r: RetryPolicy, s: BreakerState, now: real,
                          run: nat -> Attempt): (e: Execution)
    ensures !Admits(bp, s, now) <==> e.verdict == CircuitRejected
    ensures e.verdict.Completed? ==> RetryFinish(r, run) <= t.seconds
  {
    if !Admits(bp, s, now) then Execution(CircuitRejected, s, 0)
    else
      var o := RetryOutcome(r, run);
      var finish := RetryFinish(r, run);
      var after := Record(bp, Enter(bp, s, now), o, now + finish);
      Execution(if finish > t.seconds then TimeoutRejected else Completed(o), after, AttemptsMade(r, run, 0))
  }

  /** However many attempts an execution makes, the breaker counts it once:
      a failing execution adds exactly one to a closed breaker's count (or
      breaks it at the threshold), a successful one resets it. */
  lemma OneObservationPerExecution(t: TimeoutPolicy, bp: BreakerPolicy, r: RetryPolicy, m: nat, now: real,
                                   run: nat -> Attempt)
    requires bp.handles == AnyException
    ensures var e := ExecuteWrapped(t, bp, r, Closed(m), now, run);
      && (RetryOutcome(r, run).Threw? && m + 1 < bp.threshold ==> e.after == Closed(m + 1))
      && (RetryOutcome(r, run).Threw? && m + 1 >= bp.threshold ==> e.after.Open?)
      && (!RetryOutcome(r, run).Threw? ==> e.after == Closed(0))
  {
  }

  /** The RabbitMQ client's own `TimeoutException` comes only after its
      30 s wait. Every wrapped policy's timeout is shorter, so that
      exception never reaches a caller: by then the caller has had
      `TimeoutRejectedException`, and no retry after it started in time. */
  lemma ReplyTimeoutNeverReachesCaller(t: TimeoutPolicy, bp: BreakerPolicy, r: RetryPolicy, s: BreakerState,
                                       now: real, run: nat -> Attempt)
    requires Durations(run) && r.base > 0.0 && t.seconds < 30.0
    requires forall i: nat :: run(i).outcome == Threw(ReplyTimeoutExn) ==> run(i).duration >= 30.0
    ensures ExecuteWrapped(t, bp, r, s, now, run).verdict != Completed(Threw(ReplyTimeoutExn))
  {
    var n := AttemptsMade(r, run, 0);
    StartTimeAtLeastBackoff(r, run, n - 1);
  }

  /** The outer timeouts of all three wrapped policies are shorter than the
      client's 30 s wait. */
  lemma OuterTimeoutsShorterThanReplyWait()
    ensures ServicePipeline[0].timeout.seconds < 30.0
    ensures BookControllerPipeline[0].timeout.seconds < 30.0
    ensures CategoryControllerPipeline[0].timeout.seconds < 30.0
  {
  }

  /** Policies built fresh for each use start closed, so an execution on a
      fresh policy is never refused by its breaker (AuthorService builds one
      per remote call). */
  lemma FreshPolicyNeverRefuses(t: TimeoutPolicy, bp: BreakerPolicy, r: RetryPolicy, now: real, run: nat -> Attempt)
    ensures ExecuteWrapped(t, bp, r, Closed(0), now, run).verdict != CircuitRejected
  {
  }

  // ---------------------------------------------------------------------
  // Retry(breaker(op)): the HTTP client counts every attempt
  // ---------------------------------------------------------------------

  datatype HttpExecution = HttpExecution(outcome: Outcome, after: BreakerState, attempts: nat)

  /** OrderService's HTTP pipeline from attempt `i`, starting at time `now`
      with breaker state `s`. Each attempt passes through the breaker: an
      open breaker throws `BrokenCircuitException`, which the retry does
      not handle. */
  function HttpExecuteFrom(r: RetryPolicy, bp: BreakerPolicy, s: BreakerState, now: real,
                           run: nat -> Attempt, i: nat): (e: HttpExecution)
    requires i <= r.retries
    ensures i < e.attempts <= r.retries + 1
    decreases r.retries - i
  {
    if !Admits(bp, s, now) then HttpExecution(Threw(BrokenCircuitExn), s, i + 1)
    else
      var a := run(i);
      var s1 := Record(bp, Enter(bp, s, now), a.outcome, now + a.duration);
      if i == r.retries || !Handled(r.handles, a.outcome) then HttpExecution(a.outcome, s1, i + 1)
      else HttpExecuteFrom(r, bp, s1, now + a.duration + Delay(r, i + 1), run, i + 1)
  }

  function HttpExecute(s: BreakerState, now: real, run: nat -> Attempt): HttpExecution {
    HttpExecuteFrom(OrderHttpPipeline[0].retry, OrderHttpPipeline[1].breaker, s, now, run, 0)
  }

  /** One request whose four attempts all get 503 makes four attempts and
      leaves the shared breaker four failures from closed. */
  lemma HttpBreakerCountsEachAttempt(now: real, run: nat -> Attempt)
    requires forall i: nat :: run(i) == Attempt(HttpStatus(503), 1.0)
    ensures HttpExecute(Closed(0), now, run) == HttpExecution(HttpStatus(503), Closed(4), 4)
  {
    var r := OrderHttpPipeline[0].retry;
    var bp := OrderHttpPipeline[1].breaker;
    assert IsTransientHttp(HttpStatus(503));
    var t1 := now + 1.0 + 2.0;
    var t2 := t1 + 1.0 + 4.0;
    var t3 := t2 + 1.0 + 8.0;
    assert HttpExecuteFrom(r, bp, Closed(3), t3, run, 3) == HttpExecution(HttpStatus(503), Closed(4), 4);
    assert HttpExecuteFrom(r, bp, Closed(2), t2, run, 2) == HttpExecution(HttpStatus(503), Closed(4), 4);
    assert HttpExecuteFrom(r, bp, Closed(1), t1, run, 1) == HttpExecution(HttpStatus(503), Closed(4), 4);
  }

  /** The next such request breaks the circuit on its first attempt; its
      second attempt is refused with `BrokenCircuitException`, which the
      retry does not handle, so it makes only two attempts. */
  lemma HttpSecondFailingRequestBreaks(now: real, run: nat -> Attempt)
    requires forall i: nat :: run(i) == Attempt(HttpStatus(503), 1.0)
    ensures HttpExecute(Closed(4), now, run) == HttpExecution(Threw(BrokenCircuitExn), Open(now + 1.0), 2)
  {
    var r := OrderHttpPipeline[0].retry;
    var bp := OrderHttpPipeline[1].breaker;
    assert IsTransientHttp(HttpStatus(503));
    assert !Admits(bp, Open(now + 1.0), now + 1.0 + 2.0);
  }

  /** An exception outside `HandleTransientHttpError`, such as the
      cancellation an HttpClient timeout raises, is handled by neither the
      retry nor the breaker: the request makes one attempt and the
      breaker's count stays where it was. */
  lemma HttpUnhandledExceptionKeepsCount(m: nat, now: real, run: nat -> Attempt)
    requires m < 5
    requires run(0).outcome == Threw(OtherExn)
    ensures HttpExecute(Closed(m), now, run) == HttpExecution(Threw(OtherExn), Closed(m), 1)
  {
  }

  /** A 404 is retried to the end, but the breaker does not handle it and
      treats it as a success: the count is reset. */
  lemma HttpNotFoundRetriedButNotCounted(m: nat, now: real, run: nat -> Attempt)
    requires m < 5
    requires forall i: nat :: run(i) == Attempt(HttpStatus(404), 1.0)
    ensures HttpExecute(Closed(m), now, run) == HttpExecution(HttpStatus(404), Closed(0), 4)
  {
    var r := OrderHttpPipeline[0].retry;
    var bp := OrderHttpPipeline[1].breaker;
    assert Handled(r.handles, HttpStatus(404)) && !Handled(bp.handles, HttpStatus(404));
    var t1 := now + 1.0 + 2.0;
    var t2 := t1 + 1.0 + 4.0;
    var t3 := t2 + 1.0 + 8.0;
    assert HttpExecuteFrom(r, bp, Closed(0), t3, run, 3) == HttpExecution(HttpStatus(404), Closed(0), 4);
    assert HttpExecuteFrom(r, bp, Closed(0), t2, run, 2) == HttpExecution(HttpStatus(404), Closed(0), 4);
    assert HttpExecuteFrom(r, bp, Closed(0), t1, run, 1) == HttpExecution(HttpStatus(404), Closed(0), 4);
  }
}
