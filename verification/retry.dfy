/** The retry executor (`exponential_backoff`, `retry_with_backoff`) and the
    circuit breaker of utils/retry.py.

    The wrapped operation is a script: `script[i]` is what its (i+1)-th
    invocation does. Calls of `random.random()` are the successive `draws`,
    `time.time()` is the `now` argument, and every `time.sleep(d)` appends `d`
    to the returned `sleeps`. */
module Retry {
  import opened Outcomes

  // ---------------------------------------------------------------------
  // Policy
  // ---------------------------------------------------------------------

  /** The RETRY_* settings that exponential_backoff falls back on. */
  datatype RetrySettings = RetrySettings(
    maxAttempts: int, baseDelay: real, maxDelay: real, exponentialBase: real)

  /** The values the settings take when the environment does not set them. */
  const DefaultRetrySettings := RetrySettings(3, 1.0, 60.0, 2.0)

  datatype Policy = Policy(
    maxAttempts: int, baseDelay: real, maxDelay: real, exponentialBase: real, jitter: bool)

  /** Python's `x or fallback` on an optional integer: None and 0 are falsy. */
  function IntOr(x: Option<int>, fallback: int): (r: int)
    ensures x.Some? && x.value != 0 ==> r == x.value
    ensures x.None? || x.value == 0 ==> r == fallback
  {
    if x.Some? && x.value != 0 then x.value else fallback
  }

  /** Python's `x or fallback` on an optional float. */
  function RealOr(x: Option<real>, fallback: real): (r: real)
    ensures x.Some? && x.value != 0.0 ==> r == x.value
    ensures x.None? || x.value == 0.0 ==> r == fallback
  {
    if x.Some? && x.value != 0.0 then x.value else fallback
  }

  /** The policy exponential_backoff runs with: every argument that is None
      or zero is replaced by its setting, so a zero attempt count or a zero
      delay can never be asked for; a negative attempt count is kept. */
  function ResolvePolicy(s: RetrySettings, maxAttempts: Option<int>, baseDelay: Option<real>,
                         maxDelay: Option<real>, exponentialBase: Option<real>, jitter: bool): (p: Policy)
    ensures p.maxAttempts != 0 || s.maxAttempts == 0
    ensures p.baseDelay != 0.0 || s.baseDelay == 0.0
    ensures maxAttempts == Some(0) ==> p.maxAttempts == s.maxAttempts
    ensures p.maxAttempts == IntOr(maxAttempts, s.maxAttempts)
    ensures p.baseDelay == RealOr(baseDelay, s.baseDelay)
    ensures p.maxDelay == RealOr(maxDelay, s.maxDelay)
    ensures p.exponentialBase == RealOr(exponentialBase, s.exponentialBase)
    ensures p.jitter == jitter
  {
    Policy(IntOr(maxAttempts, s.maxAttempts), RealOr(baseDelay, s.baseDelay),
           RealOr(maxDelay, s.maxDelay), RealOr(exponentialBase, s.exponentialBase), jitter)
  }

  /** How many times the loop `for attempt in range(1, max_attempts + 1)` runs. */
  function Attempts(p: Policy): (n: nat)
    ensures p.maxAttempts >= 1 ==> n == p.maxAttempts
    ensures p.maxAttempts <= 0 ==> n == 0
  {
    if p.maxAttempts > 0 then p.maxAttempts else 0
  }

  // ---------------------------------------------------------------------
  // Delays
  // ---------------------------------------------------------------------

  function Pow(b: real, n: nat): real
  {
    if n == 0 then 1.0 else b * Pow(b, n - 1)
  }

  /** `min(base_delay * exponential_base ** (attempt - 1), max_delay)`. */
  function CappedDelay(p: Policy, attempt: nat): (d: real)
    requires attempt >= 1
    ensures d <= p.maxDelay
    ensures d <= p.baseDelay * Pow(p.exponentialBase, attempt - 1)
    ensures d == p.maxDelay || d == p.baseDelay * Pow(p.exponentialBase, attempt - 1)
  {
    var grown := p.baseDelay * Pow(p.exponentialBase, attempt - 1);
    if grown <= p.maxDelay then grown else p.maxDelay
  }

  /** The sleep after failed attempt `attempt`: the capped delay, scaled by
      `0.75 + draw * 0.5` when jitter is on. */
  function BackoffDelay(p: Policy, attempt: nat, draw: real): (delay: real)
    requires attempt >= 1
    ensures !p.jitter ==> delay == CappedDelay(p, attempt)
    ensures p.jitter && 0.0 <= draw < 1.0 && CappedDelay(p, attempt) > 0.0 ==>
      0.75 * CappedDelay(p, attempt) <= delay < 1.25 * CappedDelay(p, attempt)
  {
    var d := CappedDelay(p, attempt);
    if !p.jitter then d
    else if 0.0 <= draw < 1.0 && d > 0.0 then ScaleBounds(d, draw); Jittered(d, draw)
    else Jittered(d, draw)
  }

  /** `delay * (0.75 + random.random() * 0.5)`. */
  function Jittered(d: real, draw: real): real
  {
    d * (0.75 + draw * 0.5)
  }

  /** The sleeps after the first `n` failed attempts, in order. */
  function Delays(p: Policy, draws: seq<real>, n: nat): (ds: seq<real>)
    requires n <= |draws|
    ensures |ds| == n
    ensures forall i :: 0 <= i < n ==> ds[i] == BackoffDelay(p, i + 1, draws[i])
  {
    if n == 0 then [] else Delays(p, draws, n - 1) + [BackoffDelay(p, n, draws[n - 1])]
  }

  /** Without jitter no sleep exceeds max_delay. */
  lemma DelaysBounded(p: Policy, draws: seq<real>, n: nat)
    requires n <= |draws| && !p.jitter
    ensures forall i :: 0 <= i < n ==> Delays(p, draws, n)[i] <= p.maxDelay
  {
  }

  lemma {:induction false} PowAtLeastOne(b: real, n: nat)
    requires b >= 1.0
    ensures Pow(b, n) >= 1.0
    ensures Pow(b, n + 1) >= Pow(b, n)
  {
    if n > 0 {
      PowAtLeastOne(b, n - 1);
    }
    assert Pow(b, n + 1) == b * Pow(b, n);
  }

  lemma {:induction false} PowMonotone(b: real, m: nat, n: nat)
    requires b >= 1.0 && m <= n
    ensures Pow(b, m) <= Pow(b, n)
    decreases n - m
  {
    if m < n {
      PowMonotone(b, m, n - 1);
      PowAtLeastOne(b, n - 1);
    }
  }

  /** With exponential_base >= 1 and a non-negative base delay the capped
      delays never decrease from one attempt to a later one. */
  lemma CappedDelayMonotone(p: Policy, i: nat, j: nat)
    requires p.exponentialBase >= 1.0 && p.baseDelay >= 0.0
    requires 1 <= i <= j
    ensures CappedDelay(p, i) <= CappedDelay(p, j)
  {
    PowMonotone(p.exponentialBase, i - 1, j - 1);
    var a, b := Pow(p.exponentialBase, i - 1), Pow(p.exponentialBase, j - 1);
    assert p.baseDelay * a <= p.baseDelay * b by {
      assert p.baseDelay * (b - a) >= 0.0;
    }
  }

  /** Without jitter the sleep sequence is non-decreasing. */
  lemma DelaysNonDecreasing(p: Policy, draws: seq<real>, n: nat)
    requires n <= |draws| && !p.jitter
    requires p.exponentialBase >= 1.0 && p.baseDelay >= 0.0
    ensures forall i, j :: 0 <= i <= j < n ==> Delays(p, draws, n)[i] <= Delays(p, draws, n)[j]
  {
    forall i, j | 0 <= i <= j < n ensures Delays(p, draws, n)[i] <= Delays(p, draws, n)[j] {
      CappedDelayMonotone(p, i + 1, j + 1);
    }
  }

  /** With jitter and a draw from [0, 1) the sleep lies in [0.75 d, 1.25 d)
      around the capped delay d (for d > 0). */
  lemma JitterBounds(p: Policy, attempt: nat, draw: real)
    requires attempt >= 1 && p.jitter
    requires 0.0 <= draw < 1.0
    requires CappedDelay(p, attempt) > 0.0
    ensures 0.75 * CappedDelay(p, attempt) <= BackoffDelay(p, attempt, draw) < 1.25 * CappedDelay(p, attempt)
  {
    ScaleBounds(CappedDelay(p, attempt), draw);
  }

  lemma ScaleBounds(d: real, r: real)
    requires d > 0.0 && 0.0 <= r < 1.0
    ensures 0.75 * d <= Jittered(d, r) < 1.25 * d
  {
    assert Jittered(d, r) == 0.75 * d + 0.5 * (r * d);
    assert r * d >= 0.0;
    assert d - r * d == (1.0 - r) * d;
    assert (1.0 - r) * d > 0.0;
  }

  /** max_attempts=3, base_delay=1, max_delay=10, exponential_base=2 and no
      jitter: the two sleeps before the third attempt are 1 and 2 seconds. */
  lemma ExampleSleeps(draws: seq<real>)
    requires |draws| >= 2
    ensures Delays(Policy(3, 1.0, 10.0, 2.0, false), draws, 2) == [1.0, 2.0]
  {
    var p := Policy(3, 1.0, 10.0, 2.0, false);
    assert Pow(2.0, 1) == 2.0;
    assert CappedDelay(p, 1) == 1.0 && CappedDelay(p, 2) == 2.0;
  }

  // ---------------------------------------------------------------------
  // The retry loop
  // ---------------------------------------------------------------------

  /** How a wrapped call ends: with the operation's value, with
      RetryExhausted (the attempt count of its message and its
      last_exception), or with an error the wrapper does not catch. */
  datatype RetryResult<T, E> =
    | Succeeded(value: T)
    | Exhausted(attempts: int, lastError: Option<E>)
    | Propagated(error: E)

  /** One call of the on_retry callback, and whether the callback raised
      (which is only logged). */
  datatype HookCall<E> = HookCall(attempt: nat, error: E, delay: real, raised: bool)

  function HookLog<T, E>(p: Policy, script: seq<Outcome<T, E>>, draws: seq<real>, hookRaises: seq<bool>, n: nat)
    : (log: seq<HookCall<E>>)
    requires n <= |script| && n <= |draws| && n <= |hookRaises|
    requires forall i :: 0 <= i < n ==> script[i].Raised?
    ensures |log| == n
    ensures forall i :: 0 <= i < n ==>
      log[i] == HookCall(i + 1, script[i].error, BackoffDelay(p, i + 1, draws[i]), hookRaises[i])
  {
    if n == 0 then []
    else HookLog(p, script, draws, hookRaises, n - 1)
         + [HookCall(n, script[n - 1].error, BackoffDelay(p, n, draws[n - 1]), hookRaises[n - 1])]
  }

  /** The number of sleeps in a run whose first `k` attempts raised a caught
      error out of `n` allowed: one after each of them, except after the last
      allowed attempt. */
  function SleepCount(k: nat, n: nat): nat
  {
    if k < n then k else if n > 0 then n - 1 else 0
  }

  /** What the wrapper of exponential_backoff does with `script`, as a
      relation between its inputs and what it returned. */
  ghost predicate RetryRun<T, E>(p: Policy, retryable: E -> bool, script: seq<Outcome<T, E>>, draws: seq<real>,
                                result: RetryResult<T, E>, calls: nat, sleeps: seq<real>)
    requires Attempts(p) <= |script| && Attempts(p) <= |draws| + 1
    ensures RetryRun(p, retryable, script, draws, result, calls, sleeps) ==>
      calls <= Attempts(p) && |sleeps| == (if calls == 0 then 0 else calls - 1)
  {
    var n := Attempts(p);
    var k := FirstStop(script, retryable, n);
    && calls == (if k < n then k + 1 else n)
    && (k < n && script[k].Returned? ==> result == Succeeded(script[k].value))
    && (k < n && script[k].Raised? ==> result == Propagated(script[k].error))
    && (k == n && n > 0 ==> result == Exhausted(p.maxAttempts, Some(script[n - 1].error)))
    && (n == 0 ==> result == Exhausted(p.maxAttempts, None))
    && sleeps == Delays(p, draws, SleepCount(k, n))
  }

  /** What a run promises: at most max_attempts calls; a value is the one the
      last call returned; an escaping error is the last call's and is not
      caught; RetryExhausted comes after max_attempts caught failures and
      carries the last of them; and there is one sleep between consecutive
      calls, none after the last. */
  lemma RetryRunShape<T, E>(p: Policy, retryable: E -> bool, script: seq<Outcome<T, E>>, draws: seq<real>,
                            result: RetryResult<T, E>, calls: nat, sleeps: seq<real>)
    requires Attempts(p) <= |script| && Attempts(p) <= |draws| + 1
    requires RetryRun(p, retryable, script, draws, result, calls, sleeps)
    ensures calls <= Attempts(p)
    ensures |sleeps| == if calls == 0 then 0 else calls - 1
    ensures result.Succeeded? ==> calls >= 1 && script[calls - 1] == Returned(result.value)
    ensures result.Propagated? ==> calls >= 1 && script[calls - 1] == Raised(result.error) && !retryable(result.error)
    ensures result.Exhausted? ==> calls == Attempts(p) && result.attempts == p.maxAttempts
    ensures result.Exhausted? ==> forall i :: 0 <= i < calls ==> FailsWith(script[i], retryable)
    ensures result.Exhausted? && calls > 0 ==> result.lastError == Some(script[calls - 1].error)
  {
  }

  /** The pause before attempt `attempt + 1`: `base_delay * base **
      (attempt - 1)` capped at `max_delay`, then jittered when asked. */
  method NextDelay(p: Policy, attempt: nat, draw: real) returns (delay: real)
    requires attempt >= 1
    ensures delay == BackoffDelay(p, attempt, draw)
  {
    delay := p.baseDelay * Pow(p.exponentialBase, attempt - 1);
    if delay > p.maxDelay {
      delay := p.maxDelay;
    }
    if p.jitter {
      delay := delay * (0.75 + draw * 0.5);
    }
  }

  /** The wrapper built by `exponential_backoff(...)(func)`. Each attempt
      calls the operation; a value is returned at once; an error outside
      `retryable` escapes at once; a caught error on the last attempt becomes
      RetryExhausted; any other caught error is followed by the on_retry
      callback (its own failure swallowed) and a sleep. */
  method ExponentialBackoff<T, E>(p: Policy, retryable: E -> bool, script: seq<Outcome<T, E>>,
                                  draws: seq<real>, hook: bool, hookRaises: seq<bool>)
    returns (result: RetryResult<T, E>, calls: nat, sleeps: seq<real>, hookCalls: seq<HookCall<E>>)
    requires Attempts(p) <= |script| && Attempts(p) <= |draws| + 1
    requires hook ==> Attempts(p) <= |hookRaises| + 1
    ensures RetryRun(p, retryable, script, draws, result, calls, sleeps)
    ensures hookCalls == if hook then HookLog(p, script, draws, hookRaises, |sleeps|) else []
  {
    ghost var n := Attempts(p);
    var lastError: Option<E> := None;
    calls, sleeps, hookCalls := 0, [], [];
    var attempt := 1;
    while attempt <= p.maxAttempts
      invariant 1 <= attempt && (attempt <= p.maxAttempts || attempt == 1)
      invariant calls == attempt - 1
      invariant forall i :: 0 <= i < attempt - 1 ==> FailsWith(script[i], retryable)
      invariant sleeps == Delays(p, draws, attempt - 1)
      invariant hookCalls == if hook then HookLog(p, script, draws, hookRaises, attempt - 1) else []
      invariant lastError == if attempt == 1 then None else Some(script[attempt - 2].error)
    {
      var outcome := script[attempt - 1];
      calls := calls + 1;
      if outcome.Returned? {
        result := Succeeded(outcome.value);
        RunStopped(p, retryable, script, draws, attempt - 1, result, sleeps);
        return;
      }
      var e := outcome.error;
      if !retryable(e) {
        result := Propagated(e);
        RunStopped(p, retryable, script, draws, attempt - 1, result, sleeps);
        return;
      }
      lastError := Some(e);
      if attempt == p.maxAttempts {
        result := Exhausted(p.maxAttempts, Some(e));
        RunExhausted(p, retryable, script, draws, result, sleeps);
        return;
      }
      var delay := NextDelay(p, attempt, draws[attempt - 1]);
      if hook {
        hookCalls := hookCalls + [HookCall(attempt, e, delay, hookRaises[attempt - 1])];
      }
      sleeps := sleeps + [delay];
      attempt := attempt + 1;
    }
    result := Exhausted(p.maxAttempts, lastError);
    RunExhausted(p, retryable, script, draws, result, sleeps);
  }

  /** A run that stops at attempt `k + 1` with its value or an uncaught
      error. */
  lemma RunStopped<T, E>(p: Policy, retryable: E -> bool, script: seq<Outcome<T, E>>, draws: seq<real>,
                         k: nat, result: RetryResult<T, E>, sleeps: seq<real>)
    requires Attempts(p) <= |script| && Attempts(p) <= |draws| + 1
    requires k < Attempts(p)
    requires forall i :: 0 <= i < k ==> FailsWith(script[i], retryable)
    requires !FailsWith(script[k], retryable)
    requires script[k].Returned? ==> result == Succeeded(script[k].value)
    requires script[k].Raised? ==> result == Propagated(script[k].error)
    requires sleeps == Delays(p, draws, k)
    ensures RetryRun(p, retryable, script, draws, result, k + 1, sleeps)
  {
    FirstStopUnique(script, retryable, Attempts(p), k);
  }

  /** A run in which every attempt raised a caught error. */
  lemma RunExhausted<T, E>(p: Policy, retryable: E -> bool, script: seq<Outcome<T, E>>, draws: seq<real>,
                           result: RetryResult<T, E>, sleeps: seq<real>)
    requires Attempts(p) <= |script| && Attempts(p) <= |draws| + 1
    requires forall i :: 0 <= i < Attempts(p) ==> FailsWith(script[i], retryable)
    requires Attempts(p) > 0 ==> script[Attempts(p) - 1].Raised?
    requires result == Exhausted(p.maxAttempts, if Attempts(p) == 0 then None else Some(script[Attempts(p) - 1].error))
    requires sleeps == Delays(p, draws, if Attempts(p) == 0 then 0 else Attempts(p) - 1)
    ensures RetryRun(p, retryable, script, draws, result, Attempts(p), sleeps)
  {
    FirstStopUnique(script, retryable, Attempts(p), Attempts(p));
  }

  /** `retry_with_backoff(func, ...)`: the same loop with the exponential
      base from the settings, jitter on and no callback. */
  method RetryWithBackoff<T, E>(s: RetrySettings, maxAttempts: Option<int>, baseDelay: Option<real>,
                                maxDelay: Option<real>, retryable: E -> bool,
                                script: seq<Outcome<T, E>>, draws: seq<real>)
    returns (result: RetryResult<T, E>, calls: nat, sleeps: seq<real>)
    requires Attempts(ResolvePolicy(s, maxAttempts, baseDelay, maxDelay, None, true)) <= |script|
    requires Attempts(ResolvePolicy(s, maxAttempts, baseDelay, maxDelay, None, true)) <= |draws| + 1
    ensures RetryRun(ResolvePolicy(s, maxAttempts, baseDelay, maxDelay, None, true),
                     retryable, script, draws, result, calls, sleeps)
  {
    var p := ResolvePolicy(s, maxAttempts, baseDelay, maxDelay, None, true);
    var hookCalls;
    result, calls, sleeps, hookCalls := ExponentialBackoff(p, retryable, script, draws, false, []);
  }

  // ---------------------------------------------------------------------
  // Circuit breaker
  // ---------------------------------------------------------------------

  datatype BreakerState = Closed | Open | HalfOpen

  datatype BreakerConfig = BreakerConfig(failureThreshold: int, recoveryTimeout: real)

  /** The breaker used for CACTI connectivity. */
  const CactiBreakerConfig := BreakerConfig(5, 120.0)

  /** The mutable part of a breaker: _state, _failure_count,
      _last_failure_time and _lock_time. */
  datatype Breaker = Breaker(state: BreakerState, failureCount: nat,
                             lastFailureTime: Option<real>, lockTime: Option<real>)

  const InitialBreaker := Breaker(Closed, 0, None, None)

  /** The recovery window has passed. A lock time of 0.0 is falsy in Python
      and counts as never tripped. */
  predicate RecoveryElapsed(b: Breaker, cfg: BreakerConfig, now: real)
  {
    b.lockTime.Some? && b.lockTime.value != 0.0 && now - b.lockTime.value >= cfg.recoveryTimeout
  }

  /** Reading the `state` property: OPEN becomes HALF_OPEN once the recovery
      window has passed; nothing else changes. */
  function Observe(b: Breaker, cfg: BreakerConfig, now: real): (r: Breaker)
    ensures r.failureCount == b.failureCount && r.lockTime == b.lockTime
    ensures r.lastFailureTime == b.lastFailureTime
    ensures r.state == HalfOpen <==> b.state == HalfOpen || (b.state == Open && RecoveryElapsed(b, cfg, now))
    ensures r.state == Closed <==> b.state == Closed
  {
    if b.state == Open && RecoveryElapsed(b, cfg, now) then b.(state := HalfOpen) else b
  }

  /** `_on_success` and `reset`: CLOSED, no failures, no lock time. */
  function Cleared(b: Breaker): (r: Breaker)
    ensures r.state == Closed && r.failureCount == 0 && r.lockTime == None
    ensures r.lastFailureTime == b.lastFailureTime
  {
    b.(state := Closed, failureCount := 0, lockTime := None)
  }

  /** `_on_failure`: one more failure; at the threshold the breaker opens and
      the lock time is stamped. */
  function AfterFailure(b: Breaker, cfg: BreakerConfig, now: real): (r: Breaker)
    ensures r.failureCount == b.failureCount + 1 && r.lastFailureTime == Some(now)
    ensures r.failureCount >= cfg.failureThreshold ==> r.state == Open && r.lockTime == Some(now)
    ensures r.failureCount < cfg.failureThreshold ==> r.state == b.state && r.lockTime == b.lockTime
  {
    var counted := b.(failureCount := b.failureCount + 1, lastFailureTime := Some(now));
    if counted.failureCount >= cfg.failureThreshold then counted.(state := Open, lockTime := Some(now))
    else counted
  }

  /** How `call` ends: the operation's value, its error, or the RuntimeError
      raised while the circuit is open. */
  datatype CallResult<T, E> = Passed(value: T) | Failed(error: E) | Unavailable

  /** One `call`: read the state at `now`; fail fast while OPEN without
      invoking the operation; otherwise invoke it and record a success, or an
      expected failure stamped `failedAt` (an unexpected error propagates and
      is not counted). */
  function CallStep<T, E>(b: Breaker, cfg: BreakerConfig, now: real, failedAt: real,
                          outcome: Outcome<T, E>, expected: E -> bool)
    : (r: (Breaker, CallResult<T, E>))
    ensures r.1.Unavailable? <==> Observe(b, cfg, now).state == Open
    ensures r.1.Unavailable? ==> r.0 == Observe(b, cfg, now)
    ensures r.1.Passed? <==> Observe(b, cfg, now).state != Open && outcome.Returned?
    ensures r.1.Passed? ==> outcome == Returned(r.1.value) && r.0.state == Closed && r.0.failureCount == 0
    ensures r.1.Failed? ==> outcome == Raised(r.1.error)
    ensures r.1.Failed? && expected(r.1.error) ==>
      r.0.failureCount == b.failureCount + 1 && r.0.lastFailureTime == Some(failedAt)
    ensures r.1.Failed? && !expected(r.1.error) ==> r.0 == Observe(b, cfg, now)
  {
    var o := Observe(b, cfg, now);
    if o.state == Open then (o, Unavailable)
    else match outcome
      case Returned(v) => (Cleared(o), Passed(v))
      case Raised(e) => if expected(e) then (AfterFailure(o, cfg, failedAt), Failed(e)) else (o, Failed(e))
  }

  /** The breaker's invariant: CLOSED carries no lock time and fewer failures
      than the threshold (or none); OPEN and HALF_OPEN carry a lock time and at
      least the threshold. */
  predicate Consistent(cfg: BreakerConfig, b: Breaker)
  {
    && (b.state == Closed ==> b.lockTime.None? && (b.failureCount == 0 || b.failureCount < cfg.failureThreshold))
    && (b.state != Closed ==> b.lockTime.Some? && b.failureCount >= cfg.failureThreshold)
  }

  lemma ConsistentInitially(cfg: BreakerConfig)
    ensures Consistent(cfg, InitialBreaker)
  {
  }

  /** Every operation on the breaker keeps it consistent. */
  lemma CallStepConsistent<T, E>(b: Breaker, cfg: BreakerConfig, now: real, failedAt: real,
                                 outcome: Outcome<T, E>, expected: E -> bool)
    requires Consistent(cfg, b)
    ensures Consistent(cfg, Observe(b, cfg, now))
    ensures Consistent(cfg, CallStep(b, cfg, now, failedAt, outcome, expected).0)
    ensures Consistent(cfg, Cleared(b))
  {
  }

  /** While the breaker reads OPEN, `call` raises the unavailable error, does
      not consult the operation, and changes nothing. */
  lemma FastFailChangesNothing<T, E>(b: Breaker, cfg: BreakerConfig, now: real, failedAt: real,
                                     o1: Outcome<T, E>, o2: Outcome<T, E>, expected: E -> bool)
    requires Observe(b, cfg, now).state == Open
    ensures CallStep(b, cfg, now, failedAt, o1, expected) == (b, Unavailable)
    ensures CallStep(b, cfg, now, failedAt, o1, expected) == CallStep(b, cfg, now, failedAt, o2, expected)
  {
  }

  /** A caught failure while HALF_OPEN re-opens the breaker at once and
      restarts the recovery window. */
  lemma HalfOpenFailureReopens<T, E>(b: Breaker, cfg: BreakerConfig, now: real, failedAt: real,
                                     e: E, expected: E -> bool)
    requires Consistent(cfg, b)
    requires Observe(b, cfg, now).state == HalfOpen && expected(e)
    ensures CallStep<T, E>(b, cfg, now, failedAt, Raised(e), expected).0.state == Open
    ensures CallStep<T, E>(b, cfg, now, failedAt, Raised(e), expected).0.lockTime == Some(failedAt)
  {
  }

  /** A lock time of 0.0 never expires: such a breaker stays OPEN whatever the
      clock says, until `reset`. */
  lemma ZeroLockTimeNeverRecovers<T, E>(b: Breaker, cfg: BreakerConfig, now: real, failedAt: real,
                                        o: Outcome<T, E>, expected: E -> bool)
    requires b.state == Open && b.lockTime == Some(0.0)
    ensures CallStep(b, cfg, now, failedAt, o, expected) == (b, Unavailable)
  {
  }

  /** One call of `call`: the clock when the state is read, the clock when a
      failure is recorded, and what the operation does. */
  datatype CallEvent<T, E> = CallEvent(now: real, failedAt: real, outcome: Outcome<T, E>)

  /** Successive calls. */
  function RunCalls<T, E>(b: Breaker, cfg: BreakerConfig, calls: seq<CallEvent<T, E>>, expected: E -> bool)
    : Breaker
    decreases |calls|
  {
    if calls == [] then b
    else RunCalls(CallStep(b, cfg, calls[0].now, calls[0].failedAt, calls[0].outcome, expected).0,
                  cfg, calls[1..], expected)
  }

  /** From CLOSED with `c` failures, `threshold - c` consecutive caught
      failures open the breaker, with exactly `threshold` failures counted
      and the lock time of the last one. */
  lemma {:induction false} ConsecutiveFailuresOpen<T, E>(b: Breaker, cfg: BreakerConfig,
                                                         calls: seq<CallEvent<T, E>>, expected: E -> bool)
    requires b.state == Closed && b.failureCount < cfg.failureThreshold
    requires |calls| == cfg.failureThreshold - b.failureCount
    requires forall i :: 0 <= i < |calls| ==> FailsWith(calls[i].outcome, expected)
    ensures RunCalls(b, cfg, calls, expected).state == Open
    ensures RunCalls(b, cfg, calls, expected).failureCount == cfg.failureThreshold
    ensures RunCalls(b, cfg, calls, expected).lockTime == Some(calls[|calls| - 1].failedAt)
    decreases |calls|
  {
    var next := CallStep(b, cfg, calls[0].now, calls[0].failedAt, calls[0].outcome, expected).0;
    assert next == AfterFailure(b, cfg, calls[0].failedAt);
    if |calls| > 1 {
      ConsecutiveFailuresOpen(next, cfg, calls[1..], expected);
    }
  }

  /** Threshold 2, recovery 60 s: failures at t=10 and t=20 open the
      breaker; a call at t=50 fails fast; a call at t=80 goes through, and
      its success closes the breaker while its failure re-opens it. */
  lemma ExampleTrip(v: int, e: int)
    ensures var cfg := BreakerConfig(2, 60.0);
            var always := (x: int) => true;
            var fail := Outcome<int, int>.Raised(e);
            var tripped := RunCalls(InitialBreaker, cfg, [CallEvent(10.0, 10.0, fail), CallEvent(20.0, 20.0, fail)], always);
            && tripped.state == Open
            && CallStep(tripped, cfg, 50.0, 50.0, Returned(v), always) == (tripped, Unavailable)
            && CallStep(tripped, cfg, 80.0, 80.0, Returned(v), always).1 == Passed(v)
            && CallStep(tripped, cfg, 80.0, 80.0, Returned(v), always).0.state == Closed
            && CallStep(tripped, cfg, 80.0, 80.0, fail, always).0.state == Open
            && CallStep(tripped, cfg, 80.0, 80.0, fail, always).0.lockTime == Some(80.0)
  {
    var cfg := BreakerConfig(2, 60.0);
    var always := (x: int) => true;
    var fail := Outcome<int, int>.Raised(e);
    ConsecutiveFailuresOpen(InitialBreaker, cfg, [CallEvent(10.0, 10.0, fail), CallEvent(20.0, 20.0, fail)], always);
  }

  /** The breaker object. Its methods are the Python methods of the same
      names; each states its new state as the function above applied to the
      old one. */
  class CircuitBreaker {
    const failureThreshold: int
    const recoveryTimeout: real
    var state: BreakerState
    var failureCount: nat
    var lastFailureTime: Option<real>
    var lockTime: Option<real>

    function Config(): BreakerConfig
    {
      BreakerConfig(failureThreshold, recoveryTimeout)
    }

    function Snapshot(): Breaker
      reads this
    {
      Breaker(state, failureCount, lastFailureTime, lockTime)
    }

    constructor (failureThreshold: int, recoveryTimeout: real)
      ensures Config() == BreakerConfig(failureThreshold, recoveryTimeout)
      ensures Snapshot() == InitialBreaker
    {
      this.failureThreshold := failureThreshold;
      this.recoveryTimeout := recoveryTimeout;
      state := Closed;
      failureCount := 0;
      lastFailureTime := None;
      lockTime := None;
    }

    /** The `state` property, with its lazy OPEN to HALF_OPEN transition. */
    method State(now: real) returns (s: BreakerState)
      modifies this
      ensures Snapshot() == Observe(old(Snapshot()), Config(), now)
      ensures s == state
    {
      if state == Open && lockTime.Some? && lockTime.value != 0.0 {
        if now - lockTime.value >= recoveryTimeout {
          state := HalfOpen;
        }
      }
      s := state;
    }

    /** `call(func)`: the clock reads `now` when the state is read and
        `failedAt` when a failure is recorded. */
    method Call<T, E>(now: real, failedAt: real, outcome: Outcome<T, E>, expected: E -> bool)
      returns (r: CallResult<T, E>, invoked: bool)
      modifies this
      ensures (Snapshot(), r) == CallStep(old(Snapshot()), Config(), now, failedAt, outcome, expected)
      ensures invoked <==> Observe(old(Snapshot()), Config(), now).state != Open
    {
      var s := State(now);
      if s == Open {
        r, invoked := Unavailable, false;
        return;
      }
      invoked := true;
      match outcome {
        case Returned(v) =>
          OnSuccess();
          r := Passed(v);
        case Raised(e) =>
          if expected(e) {
            OnFailure(failedAt);
          }
          r := Failed(e);
      }
    }

    method OnSuccess()
      modifies this
      ensures Snapshot() == Cleared(old(Snapshot()))
    {
      failureCount := 0;
      state := Closed;
      lockTime := None;
    }

    method OnFailure(now: real)
      modifies this
      ensures Snapshot() == AfterFailure(old(Snapshot()), Config(), now)
    {
      failureCount := failureCount + 1;
      lastFailureTime := Some(now);
      if failureCount >= failureThreshold {
        state := Open;
        lockTime := Some(now);
      }
    }

    method Reset()
      modifies this
      ensures Snapshot() == Cleared(old(Snapshot()))
    {
      state := Closed;
      failureCount := 0;
      lockTime := None;
    }
  }
}
