/** The retry controller: repeated single download attempts with
    exponential backoff between failures. A single attempt is an oracle,
    `once(n)` being the outcome of the n-th call. */
module Retry {
  import opened Common

  /** The outcome of one download attempt. */
  datatype Attempt<E> = Done | Failed(error: E)

  /** The error reported once retrying gives up: the last attempt's error,
      or the fallback used when no attempt recorded one. */
  datatype RetryError<E> = LastAttempt(cause: E) | UnknownError

  /** What a run of the controller did: its result, how many attempts it
      made, and the sleeps it requested, in milliseconds, in order. */
  datatype Trace<E> = Trace(result: Result<(), RetryError<E>>, attempts: nat, sleeps: seq<nat>)

  /** 2 to the power `k`. */
  function Pow2(k: nat): (r: nat)
    ensures r > k
  {
    if k == 0 then 1 else 2 * Pow2(k - 1)
  }

  /** The attempt budget: `retries`, but never fewer than one attempt. */
  function MaxAttempts(retries: nat): (m: nat)
    ensures m >= 1 && m >= retries
    ensures m == 1 || m == retries
  {
    if retries < 1 then 1 else retries
  }

  /** The sleep requested after failed attempt `attempt`. */
  function Delay(backoffMs: nat, attempt: nat): (d: nat)
    requires attempt >= 1
    ensures attempt == 1 ==> d == backoffMs
    ensures d >= backoffMs
    ensures backoffMs > 0 ==> d >= attempt
  {
    backoffMs * Pow2(attempt - 1)
  }

  /** The state the controller is in before attempt `attempt`: every earlier
      attempt failed, `lastErr` holds the previous attempt's error, and one
      sleep of the schedule was requested after each earlier attempt that
      was not the last one allowed. */
  ghost predicate Reached<E>(once: nat -> Attempt<E>, retries: nat, backoffMs: nat,
                             attempt: nat, lastErr: Option<E>, sleeps: seq<nat>) {
    && 1 <= attempt <= MaxAttempts(retries) + 1
    && (forall n :: 1 <= n < attempt ==> once(n).Failed?)
    && lastErr == (if attempt == 1 then None else Some(once(attempt - 1).error))
    && |sleeps| == (if attempt <= MaxAttempts(retries) then attempt - 1 else MaxAttempts(retries) - 1)
    && (forall k :: 0 <= k < |sleeps| ==> sleeps[k] == Delay(backoffMs, k + 1))
  }

  /** The facts every completed run satisfies. */
  ghost predicate WellFormedTrace<E>(once: nat -> Attempt<E>, retries: nat, backoffMs: nat, t: Trace<E>) {
    && 1 <= t.attempts <= MaxAttempts(retries)
    && (forall n :: 1 <= n < t.attempts ==> once(n).Failed?)
    && (t.result.Ok? <==> once(t.attempts).Done?)
    && (t.result.Err? ==> t.attempts == MaxAttempts(retries))
    && (t.result.Err? ==> t.result.error == LastAttempt(once(t.attempts).error))
    && |t.sleeps| == t.attempts - 1
    && (forall k :: 0 <= k < |t.sleeps| ==> t.sleeps[k] == Delay(backoffMs, k + 1))
  }

  /** The controller as a state machine whose state is the attempt number
      (with the last error and the sleeps so far as its record). */
  function RunFrom<E>(once: nat -> Attempt<E>, retries: nat, backoffMs: nat,
                      attempt: nat, lastErr: Option<E>, sleeps: seq<nat>): (t: Trace<E>)
    requires Reached(once, retries, backoffMs, attempt, lastErr, sleeps)
    ensures WellFormedTrace(once, retries, backoffMs, t)
    decreases MaxAttempts(retries) + 1 - attempt
  {
    if attempt > MaxAttempts(retries) then
      Trace(Err(if lastErr.Some? then LastAttempt(lastErr.value) else UnknownError), attempt - 1, sleeps)
    else
      match once(attempt)
      case Done => Trace(Ok(()), attempt, sleeps)
      case Failed(e) =>
        var sleeps' := if attempt < retries then sleeps + [Delay(backoffMs, attempt)] else sleeps;
        RunFrom(once, retries, backoffMs, attempt + 1, Some(e), sleeps')
  }

  /** A whole run of the controller, from attempt 1. It makes at least one
      and at most `max(retries, 1)` attempts, stops at the first success,
      gives up only when every allowed attempt failed and then reports the
      last attempt's error, and sleeps `backoffMs * 2^(n-1)` after each
      failed attempt n except the last allowed one. */
  function Retry<E>(once: nat -> Attempt<E>, retries: nat, backoffMs: nat): (t: Trace<E>)
    ensures 1 <= t.attempts <= MaxAttempts(retries)
    ensures forall n :: 1 <= n < t.attempts ==> once(n).Failed?
    ensures t.result.Ok? <==> once(t.attempts).Done?
    ensures t.result.Err? ==> t.attempts == MaxAttempts(retries)
    ensures t.result.Err? ==> t.result.error == LastAttempt(once(t.attempts).error)
    ensures t.result != Err(UnknownError)
    ensures |t.sleeps| == t.attempts - 1
    ensures forall k :: 0 <= k < |t.sleeps| ==> t.sleeps[k] == backoffMs * Pow2(k)
    ensures retries <= 1 ==> t.sleeps == []
  {
    RunFrom(once, retries, backoffMs, 1, None, [])
  }

  /** The controller succeeds exactly when some allowed attempt succeeds. */
  lemma SucceedsIffSomeAttemptSucceeds<E>(once: nat -> Attempt<E>, retries: nat, backoffMs: nat)
    ensures Retry(once, retries, backoffMs).result.Ok? <==>
            exists n :: 1 <= n <= MaxAttempts(retries) && once(n).Done?
  {
    var t := Retry(once, retries, backoffMs);
    if !t.result.Ok? {
      assert forall n :: 1 <= n <= MaxAttempts(retries) ==> once(n).Failed? by {
        assert once(t.attempts).Failed?;
      }
    }
  }

  /** The controller loop: attempt, and on failure remember the error and,
      unless this was the last allowed attempt, sleep before the next. */
  method DownloadWithRetries<E>(once: nat -> Attempt<E>, retries: nat, backoffMs: nat)
    returns (result: Result<(), RetryError<E>>, attempts: nat, sleeps: seq<nat>)
    ensures Trace(result, attempts, sleeps) == Retry(once, retries, backoffMs)
  {
    var lastErr: Option<E> := None;
    sleeps := [];
    attempts := 0;
    var attempt := 1;
    while attempt <= MaxAttempts(retries)
      invariant Reached(once, retries, backoffMs, attempt, lastErr, sleeps)
      invariant RunFrom(once, retries, backoffMs, attempt, lastErr, sleeps) == Retry(once, retries, backoffMs)
      invariant attempts == attempt - 1
      decreases MaxAttempts(retries) + 1 - attempt
    {
      attempts := attempt;
      match once(attempt) {
        case Done =>
          result := Ok(());
          return;
        case Failed(e) =>
          lastErr := Some(e);
          if attempt < retries {
            sleeps := sleeps + [Delay(backoffMs, attempt)];
          }
      }
      attempt := attempt + 1;
    }
    result := Err(if lastErr.Some? then LastAttempt(lastErr.value) else UnknownError);
  }

  /** Failing twice and then succeeding, with three attempts allowed,
      succeeds on attempt 3 after sleeping `backoffMs` and `2 * backoffMs`. */
  lemma FailTwiceThenSucceed(backoffMs: nat)
    ensures var t := Retry((n: nat) => if n <= 2 then Failed("transient") else Done, 3, backoffMs);
            t.result == Ok(()) && t.attempts == 3 && t.sleeps == [backoffMs, 2 * backoffMs]
  {
    var once := (n: nat) => if n <= 2 then Failed("transient") else Done;
    var t := Retry(once, 3, backoffMs);
    assert once(1).Failed? && once(2).Failed? && once(3).Done?;
    assert Pow2(1) == 2;
  }

  /** Always failing, with two attempts allowed, reports attempt 2's error
      after two attempts and one sleep. */
  lemma AlwaysFailTwice(backoffMs: nat)
    ensures var t := Retry((n: nat) => Failed(n), 2, backoffMs);
            t.result == Err(LastAttempt(2)) && t.attempts == 2 && t.sleeps == [backoffMs]
  {
  }

  /** Each requested sleep is twice the one before it. */
  lemma BackoffDoubles(backoffMs: nat, attempt: nat)
    requires attempt >= 1
    ensures Delay(backoffMs, attempt + 1) == 2 * Delay(backoffMs, attempt)
  {
    calc {
      Delay(backoffMs, attempt + 1);
      backoffMs * (2 * Pow2(attempt - 1));
      2 * (backoffMs * Pow2(attempt - 1));
    }
  }

  /** 2^64, the modulus of `u64` arithmetic. */
  const U64Modulus: nat := 0x1_0000_0000_0000_0000

  /** The delay as the source computes it in `u64` when overflow checks are
      off: the shift `1 << (attempt - 1)` takes its amount modulo 64 and the
      product wraps modulo 2^64. */
  function DelayAsWritten(backoffMs: nat, attempt: nat): (d: nat)
    requires attempt >= 1
    ensures d < U64Modulus
    ensures attempt <= 64 && backoffMs * Pow2(attempt - 1) < U64Modulus ==> d == Delay(backoffMs, attempt)
  {
    var wide := backoffMs * Pow2((attempt - 1) % 64);
    NoWrapBelowModulus(backoffMs, attempt);
    wide % U64Modulus
  }

  /** Below 64 attempts and 2^64 the wrapped delay is the plain one. */
  lemma NoWrapBelowModulus(backoffMs: nat, attempt: nat)
    requires attempt >= 1
    ensures attempt <= 64 && backoffMs * Pow2(attempt - 1) < U64Modulus ==>
              (backoffMs * Pow2((attempt - 1) % 64)) % U64Modulus == backoffMs * Pow2(attempt - 1)
  {
    if attempt <= 64 {
      assert (attempt - 1) % 64 == attempt - 1;
    }
  }

  /** As written, the delay schedule starts over every 64 attempts. */
  lemma DelayAsWrittenRepeats(backoffMs: nat, attempt: nat)
    requires attempt >= 1
    ensures DelayAsWritten(backoffMs, attempt + 64) == DelayAsWritten(backoffMs, attempt)
  {
    assert (attempt + 64 - 1) % 64 == (attempt - 1) % 64;
  }

  /** With `backoffMs` 1, failed attempt 65 asks for a 1 ms sleep instead of
      2^64 ms, and so a shorter sleep than after attempt 64. */
  lemma DelayAsWrittenCounterexample()
    ensures DelayAsWritten(1, 65) == 1
    ensures Delay(1, 65) > 64
    ensures DelayAsWritten(1, 65) < DelayAsWritten(1, 64)
  {
    assert (65 - 1) % 64 == 0;
    assert (64 - 1) % 64 == 63;
    Pow2Of63();
  }

  /** 2^7, by unfolding. */
  lemma Pow2Of7()
    ensures Pow2(7) == 0x80
  {
  }

  /** Eight more doublings multiply by 256. */
  lemma Pow2Shift8(k: nat)
    ensures Pow2(k + 8) == 0x100 * Pow2(k)
  {
    assert Pow2(k + 8) == 2 * Pow2(k + 7);
    assert Pow2(k + 7) == 2 * Pow2(k + 6);
    assert Pow2(k + 6) == 2 * Pow2(k + 5);
    assert Pow2(k + 5) == 2 * Pow2(k + 4);
    assert Pow2(k + 4) == 2 * Pow2(k + 3);
    assert Pow2(k + 3) == 2 * Pow2(k + 2);
    assert Pow2(k + 2) == 2 * Pow2(k + 1);
  }

  /** 2^63, from 2^7 by seven steps of eight doublings. */
  lemma Pow2Of63()
    ensures Pow2(63) == 0x8000_0000_0000_0000
  {
    Pow2Of7();
    Pow2Shift8(7);
    Pow2Shift8(15);
    Pow2Shift8(23);
    Pow2Shift8(31);
    Pow2Shift8(39);
    Pow2Shift8(47);
    Pow2Shift8(55);
  }
}
