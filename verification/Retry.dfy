/** The retry loop (`src/rpc/retry.rs`): bounded attempts, capped backoff, one overall deadline.
    Times and durations are nanoseconds of one monotonic clock; timers are exact and the code
    between them takes no time. */
module Retry {
  import opened AppErrors
  import opened Arithmetic
  import opened Wrappers

  const SECOND := 1_000_000_000
  const BASE_RETRY_DELAY := 500_000_000
  const MAX_RETRY_DELAY := 60 * SECOND

  /** The sub-second part of the wall clock, which seeds the jitter. */
  type Seed = n: nat | n < SECOND witness 0

  /** What the world does on one attempt: how long the operation takes, what it returns, and the
      jitter seed read afterwards. */
  datatype Turn<T> = Turn(duration: nat, outcome: Result<T, AppError>, seed: Seed)

  // ----- Backoff -----

  function RandomBelow(max: nat, seed: Seed): nat {
    Min(seed * max / SECOND, 0xffff_ffff_ffff_ffff)
  }

  function RetryDelay(error: AppError, attempt: nat, seed: Seed): nat {
    if error.HttpStatus? && error.retryAfter.Some? then Min(error.retryAfter.value, MAX_RETRY_DELAY)
    else
      var exponential := BASE_RETRY_DELAY * Pow2(Min(attempt, 16));
      Min(exponential + RandomBelow(exponential, seed), MAX_RETRY_DELAY)
  }

  lemma JitterIsSmall(max: nat, seed: Seed)
    ensures RandomBelow(max, seed) <= max
  {
    if max > 0 {
      ProductMonotone(seed, SECOND - 1, max, max);
      DivBounds(seed * max, SECOND, max);
    }
  }

  /** Without a `Retry-After` hint, the wait after attempt `i` lies between `500ms * 2^i` and
      `1s * 2^i`, both capped at a minute; with one, it is the hint, capped likewise. */
  lemma DelayBounds(error: AppError, attempt: nat, seed: Seed)
    ensures RetryDelay(error, attempt, seed) <= 60_000_000_000
    ensures var hinted := error.HttpStatus? && error.retryAfter.Some?;
            && (hinted ==> RetryDelay(error, attempt, seed) == Min(error.retryAfter.value, 60_000_000_000))
            && (!hinted ==>
                  Min(500_000_000 * Pow2(attempt), 60_000_000_000)
                  <= RetryDelay(error, attempt, seed)
                  <= Min(1_000_000_000 * Pow2(attempt), 60_000_000_000))
  {
    hide Pow2, RandomBelow;
    JitterIsSmall(BASE_RETRY_DELAY * Pow2(Min(attempt, 16)), seed);
    if attempt > 16 {
      assert Pow2(7) == 128 by { PowerOfSeven(); }
      Pow2Monotone(7, 16);
      Pow2Monotone(16, attempt);
    }
  }

  /** Within those bounds the wait is the backoff and the share of it that the nanoseconds of the clock
      are of a second. */
  lemma JitterIsShareOfClock(error: AppError, attempt: nat, seed: Seed) returns (jitter: nat)
    requires !(error.HttpStatus? && error.retryAfter.Some?)
    ensures var backoff := 500_000_000 * Pow2(Min(attempt, 16));
            && jitter * 1_000_000_000 <= seed * backoff < (jitter + 1) * 1_000_000_000
            && RetryDelay(error, attempt, seed) == Min(backoff + jitter, 60_000_000_000)
  {
    hide Pow2;
    var backoff := 500_000_000 * Pow2(Min(attempt, 16));
    assert Pow2(Min(attempt, 16)) <= 65_536 by {
      Pow2Monotone(Min(attempt, 16), 16);
      PowerOfSixteen();
    }
    jitter := seed * backoff / SECOND;
    JitterIsBelow(backoff, seed);
  }

  lemma JitterIsBelow(backoff: nat, seed: Seed)
    requires backoff <= 500_000_000 * 65_536
    ensures 0 <= seed * backoff / SECOND <= backoff
    ensures RandomBelow(backoff, seed) == seed * backoff / SECOND
  {
    if backoff > 0 {
      ProductMonotone(seed, SECOND - 1, backoff, backoff);
      DivBounds(seed * backoff, SECOND, backoff);
    }
  }

  lemma PowerOfSixteen()
    ensures Pow2(16) == 65_536
  {
    Pow2Sum(8, 8);
    assert Pow2(4) == 16;
    Pow2Sum(4, 4);
  }

  lemma PowerOfSeven()
    ensures Pow2(7) == 128
  {
    assert Pow2(4) == 16;
  }

  // ----- What the loop should do, with no deadline -----

  predicate IsFinal<T>(env: nat -> Turn<T>, k: nat, maxRetries: nat) {
    match env(k).outcome
    case Ok(_) => true
    case Err(e) => e.TotalTimeout? || k >= maxRetries || !IsRetryable(e)
  }

  /** The first attempt from `k` on that is not retried. */
  function FinalAttempt<T>(env: nat -> Turn<T>, k: nat, maxRetries: nat): (last: nat)
    requires k <= maxRetries
    ensures k <= last <= maxRetries && IsFinal(env, last, maxRetries)
    ensures forall i :: k <= i < last ==> !IsFinal(env, i, maxRetries)
    decreases maxRetries - k
  {
    if IsFinal(env, k, maxRetries) then k else FinalAttempt(env, k + 1, maxRetries)
  }

  function DelayAfter<T>(env: nat -> Turn<T>, k: nat): nat {
    match env(k).outcome
    case Ok(_) => 0
    case Err(e) => RetryDelay(e, k, env(k).seed)
  }

  /** When attempt `k` starts, if attempts keep being retried. */
  function StartOf<T>(env: nat -> Turn<T>, start: nat, k: nat): nat
    decreases k, 0
  {
    if k == 0 then start else FinishOf(env, start, k - 1) + DelayAfter(env, k - 1)
  }

  function FinishOf<T>(env: nat -> Turn<T>, start: nat, k: nat): nat
    decreases k, 1
  {
    StartOf(env, start, k) + env(k).duration
  }

  /** Whether the attempt failed in a way worth another one. */
  predicate IsWorthRetrying<T>(turn: Turn<T>) {
    turn.outcome.Err? && IsRetryable(turn.outcome.error)
  }

  /** The attempt whose outcome stands is the first not worth retrying, or the last one allowed. */
  lemma {:induction false} FinalAttemptIs<T>(env: nat -> Turn<T>, k: nat, maxRetries: nat, last: nat)
    requires k <= maxRetries
    ensures FinalAttempt(env, k, maxRetries) == last <==>
              && k <= last <= maxRetries
              && (forall i :: k <= i < last ==> IsWorthRetrying(env(i)))
              && (last == maxRetries || !IsWorthRetrying(env(last)))
    decreases maxRetries - k
  {
    if k == maxRetries || IsFinal(env, k, maxRetries) {
      if k < last {
        assert !IsWorthRetrying(env(k)) || k == maxRetries;
      }
    } else {
      FinalAttemptIs(env, k + 1, maxRetries, last);
      assert IsWorthRetrying(env(k));
    }
  }

  /** Between the end of a failed attempt and the start of the next lies the wait for that attempt: the
      hint if there is one, and otherwise at least the backoff of the attempts so far. */
  lemma WaitBetweenAttempts<T>(env: nat -> Turn<T>, start: nat, i: nat)
    requires env(i).outcome.Err?
    ensures var wait := StartOf(env, start, i + 1) - (StartOf(env, start, i) + env(i).duration);
            match env(i).outcome.error
            case HttpStatus(_, Some(hint)) => wait == Min(hint, 60_000_000_000)
            case _ => Min(500_000_000 * Pow2(i), 60_000_000_000) <= wait <= Min(1_000_000_000 * Pow2(i), 60_000_000_000)
  {
    hide Pow2, RetryDelay;
    DelayBounds(env(i).outcome.error, i, env(i).seed);
  }

  lemma {:induction false} StartsGrow<T>(env: nat -> Turn<T>, start: nat, i: nat, j: nat)
    requires i < j
    ensures FinishOf(env, start, i) + DelayAfter(env, i) <= StartOf(env, start, j)
    decreases j
  {
    if i < j - 1 {
      StartsGrow(env, start, i, j - 1);
    }
  }

  // ----- The loop -----

  /** The result, the start times of the attempts made, the time of return, and the value left in
      the attempt counter. With no deadline the result is the outcome of the first attempt that is
      not retried. A deadline changes nothing else: the result is the same if that attempt starts
      before the deadline and finishes by it, and a timeout otherwise. */
  method WithRetryDeadline<T>(maxRetries: nat, deadline: Option<nat>, timeoutMs: nat, start: nat, env: nat -> Turn<T>)
    returns (r: Result<T, AppError>, starts: seq<nat>, end: nat, counter: nat)
    ensures var last := FinalAttempt(env, 0, maxRetries);
            && |starts| <= last + 1 <= maxRetries + 1
            && (forall i :: 0 <= i < |starts| ==> starts[i] == StartOf(env, start, i))
            && match deadline
               case None =>
                 && r == env(last).outcome
                 && |starts| == last + 1
                 && end == FinishOf(env, start, last)
               case Some(d) =>
                 && (forall i :: 0 <= i < |starts| ==> starts[i] < d)
                 && end <= Max(start, d)
                 && (|starts| <= last ==> StartOf(env, start, |starts|) >= d)
                 && if StartOf(env, start, last) < d && FinishOf(env, start, last) <= d
                    then r == env(last).outcome && |starts| == last + 1 && end == FinishOf(env, start, last)
                    else r == Err(TotalTimeout(timeoutMs)) && end == Max(start, d)
    // The counter holds the attempts that ran to the end, as far as eight bits can.
    ensures var cut := starts != [] && deadline.Some? && FinishOf(env, start, |starts| - 1) > deadline.value;
            counter == Min(if cut then |starts| - 1 else |starts|, 255)
  {
    hide RetryDelay, IsRetryable;
    ghost var last := FinalAttempt(env, 0, maxRetries);
    var attempts, now := 0, start;
    starts, counter := [], 0;
    while true
      invariant attempts <= last
      invariant now == StartOf(env, start, attempts)
      invariant |starts| == attempts && counter == Min(attempts, 255)
      invariant forall i :: 0 <= i < |starts| ==> starts[i] == StartOf(env, start, i)
      invariant deadline.Some? ==> forall i :: 0 <= i < |starts| ==> starts[i] < deadline.value
      invariant deadline.Some? && attempts > 0 ==> now < deadline.value
      decreases last - attempts
    {
      if attempts < last {
        assert !IsFinal(env, attempts, maxRetries);
        StartsGrow(env, start, attempts, last);
      }
      if deadline.Some? && now >= deadline.value {
        return Err(TotalTimeout(timeoutMs)), starts, now, counter;
      }
      starts := starts + [now];
      var turn := env(attempts);
      if deadline.Some? && now + turn.duration > deadline.value {
        return Err(TotalTimeout(timeoutMs)), starts, deadline.value, counter;
      }
      now := now + turn.duration;
      counter := Min(attempts + 1, 255);
      match turn.outcome {
        case Ok(value) =>
          return Ok(value), starts, now, counter;
        case Err(error) =>
          if error.TotalTimeout? || attempts >= maxRetries || !IsRetryable(error) {
            return Err(error), starts, now, counter;
          }
          var delay := RetryDelay(error, attempts, turn.seed);
          if deadline.Some? && delay >= deadline.value - now {
            return Err(TotalTimeout(timeoutMs)), starts, deadline.value, counter;
          }
          now := now + delay;
          attempts := attempts + 1;
      }
    }
  }

  /** Every attempt but the last ended in an error worth retrying, and within the retry budget. */
  lemma EarlierAttemptsRetryable<T>(env: nat -> Turn<T>, maxRetries: nat, k: nat)
    requires k < FinalAttempt(env, 0, maxRetries)
    ensures env(k).outcome.Err? && IsRetryable(env(k).outcome.error) && k < maxRetries
  {
    assert !IsFinal(env, k, maxRetries);
  }

  function Durations<T>(env: nat -> Turn<T>, k: nat): nat {
    if k == 0 then 0 else Durations(env, k - 1) + env(k - 1).duration
  }

  /** Waiting adds at most a minute per retry to the time the attempts themselves take. */
  lemma {:induction false} TotalWaitIsBounded<T>(env: nat -> Turn<T>, start: nat, k: nat)
    ensures start + Durations(env, k) <= StartOf(env, start, k) <= start + Durations(env, k) + k * MAX_RETRY_DELAY
  {
    if k == 0 {
    } else {
      TotalWaitIsBounded(env, start, k - 1);
      if env(k - 1).outcome.Err? {
        DelayBounds(env(k - 1).outcome.error, k - 1, env(k - 1).seed);
      }
    }
  }
}
