/** The retry layer of the storage clients (storage_clients/retry.go). Durations are int64 nanoseconds. */
module Retry {
  import opened Base
  import opened PartSize

  datatype Policy = Policy(maxAttempts: int, maxStatusAttempts: int, baseDelay: int64, maxDelay: int64,
                           maxRetryAfter: int64)

  const SECOND: int := 1000000000

  const DEFAULT_POLICY: Policy := Policy(4, 8, 500000000, 20000000000, 60000000000)

  /** What the loop can tell about a failure. */
  datatype Failure = Failure(permanent: bool, attemptTimeout: bool, retryable: bool, retryableStatus: bool,
                             retryAfter: int64)

  /** One round: the outcome of the attempt, and whether the caller's context is done right after it or
      during the wait that may follow. */
  datatype Attempt = Attempt(err: Option<Failure>, doneAfter: bool, doneInWait: bool)

  // ---- backoff ----

  /** The delay the documentation promises: doubling, capped by a positive maximum. */
  function Documented(p: Policy, retry: nat): int
    requires retry >= 1
  {
    if p.baseDelay <= 0 then 0
    else if p.maxDelay > 0 then Min(p.baseDelay * Pow2(retry - 1), p.maxDelay)
    else p.baseDelay * Pow2(retry - 1)
  }

  /** Before jitter: the shift is a 64-bit one and is skipped from the 33rd retry on. */
  function Ceiling(p: Policy, retry: nat): int64
    requires retry >= 1
  {
    if p.baseDelay <= 0 then 0
    else
      var v := Wrap64(p.baseDelay * Pow2(retry - 1));
      var d := if retry - 1 < 32 && v > 0 && (p.maxDelay <= 0 || v < p.maxDelay) then v else p.maxDelay;
      if d <= 0 then 0 else d
  }

  method Backoff(p: Policy, retry: nat) returns (d: int64)
    requires retry >= 1
    ensures Ceiling(p, retry) / 2 <= d <= Ceiling(p, retry)
    ensures p.maxDelay > 0 ==> d <= p.maxDelay
  {
    if p.baseDelay <= 0 {
      return 0;
    }
    var c: int := p.maxDelay;
    var shift := retry - 1;
    if shift < 32 {
      var v := Wrap64(p.baseDelay * Pow2(shift));
      if v > 0 && (p.maxDelay <= 0 || v < p.maxDelay) {
        c := v;
      }
    }
    if c <= 0 {
      return 0;
    }
    var jitter: int := *;
    return c / 2 + (if 0 <= jitter <= c / 2 then jitter else 0);
  }

  /** A wrapped shift that lands between zero and the cap goes unnoticed. */
  predicate WrapsBelowCap(p: Policy, retry: nat)
    requires retry >= 1
  {
    0 < Wrap64(p.baseDelay * Pow2(retry - 1)) < p.maxDelay
  }

  /** The code meets its documentation exactly when: below the cap the shift is still taken; at or above
      the cap a shift that is taken does not wrap to something below it; and without a cap, the shift is
      taken and does not wrap. */
  lemma DocumentedIff(p: Policy, retry: nat)
    requires retry >= 1 && p.baseDelay > 0
    ensures Ceiling(p, retry) == Documented(p, retry) <==>
              if p.maxDelay <= 0 then retry <= 32 && p.baseDelay * Pow2(retry - 1) < 0x8000_0000_0000_0000
              else if p.baseDelay * Pow2(retry - 1) < p.maxDelay then retry <= 32
              else retry > 32 || !WrapsBelowCap(p, retry)
  {
    ScaledPositive(p.baseDelay, Pow2(retry - 1));
    DocumentedFor(p, retry, p.baseDelay * Pow2(retry - 1));
  }

  lemma ScaledPositive(a: int, b: int)
    requires a > 0 && b > 0
    ensures a * b > 0
  {
  }

  lemma DocumentedFor(p: Policy, retry: nat, v: int)
    requires retry >= 1 && p.baseDelay > 0 && v == p.baseDelay * Pow2(retry - 1) && v > 0
    ensures Ceiling(p, retry) == Documented(p, retry) <==>
              if p.maxDelay <= 0 then retry <= 32 && v < 0x8000_0000_0000_0000
              else if v < p.maxDelay then retry <= 32
              else retry > 32 || !(0 < Wrap64(v) < p.maxDelay)
  {
  }

  /** An uncapped policy stops waiting at all from the 33rd retry on, where it is documented to wait at
      least its base delay times 2^32. */
  lemma UncappedFallsToZero(p: Policy, retry: nat)
    requires p.maxDelay <= 0 && p.baseDelay > 0 && retry > 32
    ensures Ceiling(p, retry) == 0 && Documented(p, retry) >= p.baseDelay * Pow2(32) > 0
  {
    Pow2Grows(32, retry - 1);
    ScaledGrows(p.baseDelay, Pow2(32), Pow2(retry - 1));
    ScaledPositive(p.baseDelay, Pow2(32));
  }

  lemma ScaledGrows(a: int, b: int, c: int)
    requires a > 0 && b <= c
    ensures a * b <= a * c
  {
  }

  /** Half a second, doubling without a cap: the 34th retry does not wait at all. A two-second cap makes
      the 35th wait its two seconds. */
  lemma UncappedExample()
    ensures var p := Policy(50, 0, 500000000, 0, 0); Ceiling(p, 34) == 0 && Documented(p, 34) > SECOND
    ensures var p := Policy(50, 0, 500000000, 2 * SECOND, 0); Ceiling(p, 35) == Documented(p, 35) == 2 * SECOND
  {
    Pow2Grows(1, 33);
    Pow2Grows(2, 34);
    assert Pow2(2) == 4;
  }

  /** Before that the shift can wrap to a wrong positive delay: nine seconds, doubling without a cap, at
      the 32nd retry. */
  lemma WrappedDelayExample()
    ensures var p := Policy(50, 0, 9 * SECOND, 0, 0); 0 < Ceiling(p, 32) < Documented(p, 32)
  {
    Pow2At31();
  }

  /** Nor does a cap help: at the 32nd retry this policy is documented to wait 20 seconds and waits
      about two, because the shift wraps to something below the cap. */
  lemma CappedExample()
    ensures var p := Policy(50, 0, 8589934593, 20 * SECOND, 0);
            Ceiling(p, 32) == 2147483648 && Documented(p, 32) == 20 * SECOND
  {
    Pow2At31();
  }

  /** The default policy always waits as documented. */
  lemma DefaultIsDocumented(retry: nat)
    requires retry >= 1
    ensures Ceiling(DEFAULT_POLICY, retry) == Documented(DEFAULT_POLICY, retry)
  {
    DocumentedIff(DEFAULT_POLICY, retry);
    assert Pow2(6) == 64;
    if retry - 1 >= 6 {
      Pow2Grows(6, retry - 1);
    }
    if retry <= 32 {
      Pow2Grows(retry - 1, 31);
      Pow2At31();
    }
  }

  lemma Pow2At31()
    ensures Pow2(31) == 0x8000_0000
  {
    assert Pow2(10) == 1024;
    assert Pow2(20) == 1024 * 1024;
    assert Pow2(30) == 1024 * 1024 * 1024;
  }

  // ---- The loop ----

  function AttemptLimit(p: Policy, f: Failure): (r: int)
    ensures r >= 1
  {
    Max(if p.maxStatusAttempts > 0 && f.retryableStatus then p.maxStatusAttempts else p.maxAttempts, 1)
  }

  /** No run makes more attempts than this. */
  function AttemptBound(p: Policy): nat
  {
    Max(1, Max(p.maxAttempts, p.maxStatusAttempts))
  }

  predicate Retries(p: Policy, attempt: nat, f: Failure)
  {
    !f.permanent && (f.attemptTimeout || f.retryable) && attempt < AttemptLimit(p, f)
  }

  /** Another attempt follows this one. */
  predicate Continues(p: Policy, attempt: nat, a: Attempt)
  {
    a.err.Some? && !a.doneAfter && Retries(p, attempt, a.err.value) && !a.doneInWait
  }

  datatype Result = Success | ContextDone | NotRetryable(f: Failure) | GaveUp(f: Failure)

  /** What the run returns at its last attempt. */
  predicate Returns(p: Policy, attempt: nat, a: Attempt, r: Result)
  {
    match a.err
    case None => r == Success
    case Some(f) =>
      if a.doneAfter then r == ContextDone
      else if f.permanent || (!f.attemptTimeout && !f.retryable) then r == NotRetryable(f)
      else if attempt >= AttemptLimit(p, f) then r == GaveUp(f)
      else a.doneInWait && r == ContextDone
  }

  /** What the server asked for, as far as the policy grants it. */
  function Hint(p: Policy, f: Failure): int
  {
    if p.maxRetryAfter > 0 && f.retryAfter > 0 then Min(f.retryAfter, p.maxRetryAfter) else 0
  }

  function HintOf(p: Policy, a: Attempt): int
  {
    if a.err.Some? then Hint(p, a.err.value) else 0
  }

  method Wait(p: Policy, retry: nat, f: Failure) returns (d: int64)
    requires retry >= 1
    ensures Max(Ceiling(p, retry) / 2, Hint(p, f)) <= d <= Max(Ceiling(p, retry), Hint(p, f))
  {
    d := Backoff(p, retry);
    if p.maxRetryAfter > 0 && f.retryAfter > 0 {
      d := Max(d, Min(f.retryAfter, p.maxRetryAfter));
    }
  }

  /** The most a run of n waits without server hints can sleep. */
  function Slept(p: Policy, n: nat): nat
  {
    if n == 0 then 0 else Slept(p, n - 1) + Max(0, Ceiling(p, n))
  }

  /** The first attempt after which the policy does not go on. */
  ghost predicate StopsAfter(p: Policy, trace: nat -> Attempt, attempts: nat)
  {
    && attempts >= 1 && (forall i | 1 <= i < attempts :: Continues(p, i, trace(i)))
    && !Continues(p, attempts, trace(attempts))
  }

  /** The least and the most the waits after the first n attempts of a trace can take. */
  function Least(p: Policy, trace: nat -> Attempt, n: nat): int
  {
    if n == 0 then 0 else Least(p, trace, n - 1) + Max(Ceiling(p, n) / 2, HintOf(p, trace(n)))
  }

  function Most(p: Policy, trace: nat -> Attempt, n: nat): int
  {
    if n == 0 then 0 else Most(p, trace, n - 1) + Max(Ceiling(p, n), HintOf(p, trace(n)))
  }

  /** The loop stops at the first attempt after which the policy does not continue, whatever the trace:
      within the attempt bound, with no wait after the last attempt. */
  method Do(p: Policy, trace: nat -> Attempt) returns (r: Result, attempts: nat, slept: int)
    ensures attempts <= AttemptBound(p) && StopsAfter(p, trace, attempts)
    ensures Returns(p, attempts, trace(attempts), r)
    ensures p.maxRetryAfter <= 0 || (forall i :: trace(i).err.Some? ==> trace(i).err.value.retryAfter <= 0) ==>
              slept <= Slept(p, attempts - 1)
    ensures Least(p, trace, attempts - 1) <= slept <= Most(p, trace, attempts - 1)
  {
    attempts, slept := 1, 0;
    while true
      invariant 1 <= attempts <= AttemptBound(p)
      invariant forall i | 1 <= i < attempts :: Continues(p, i, trace(i))
      invariant p.maxRetryAfter <= 0 || (forall i :: trace(i).err.Some? ==> trace(i).err.value.retryAfter <= 0) ==>
                  slept <= Slept(p, attempts - 1)
      invariant Least(p, trace, attempts - 1) <= slept <= Most(p, trace, attempts - 1)
      decreases AttemptBound(p) - attempts
    {
      var a := trace(attempts);
      if a.err.None? {
        return Success, attempts, slept;
      }
      var f := a.err.value;
      if a.doneAfter {
        return ContextDone, attempts, slept;
      }
      if f.permanent || (!f.attemptTimeout && !f.retryable) {
        return NotRetryable(f), attempts, slept;
      }
      if attempts >= AttemptLimit(p, f) {
        return GaveUp(f), attempts, slept;
      }
      if a.doneInWait {
        return ContextDone, attempts, slept;
      }
      var d := Wait(p, attempts, f);
      slept := slept + d;
      attempts := attempts + 1;
    }
  }

  /** An attempt that failed in a way worth retrying, with a caller that is still there. */
  predicate Transient(a: Attempt, status: bool)
  {
    && a.err.Some? && !a.doneAfter && !a.doneInWait && !a.err.value.permanent
    && (a.err.value.retryable || a.err.value.attemptTimeout) && a.err.value.retryableStatus == status
  }

  /** In numbers: a run of retryable statuses is tried maxStatusAttempts times if that is positive, any other run
      of transient errors maxAttempts times, and every run at least once. */
  lemma AttemptsMade(p: Policy, trace: nat -> Attempt, attempts: nat, status: bool)
    requires StopsAfter(p, trace, attempts) && forall i | i >= 1 :: Transient(trace(i), status)
    ensures attempts == if status && p.maxStatusAttempts > 0 then p.maxStatusAttempts
                        else if p.maxAttempts > 1 then p.maxAttempts else 1
  {
    var limit := if status && p.maxStatusAttempts > 0 then p.maxStatusAttempts
                 else if p.maxAttempts > 1 then p.maxAttempts else 1;
    assert Transient(trace(attempts), status);
    if attempts > limit {
      assert Transient(trace(limit), status) && Continues(p, limit, trace(limit));
    }
  }

  /** By default eight tries for a retryable status, four for any other transient error. */
  lemma DefaultAttempts(trace: nat -> Attempt, attempts: nat, status: bool)
    requires StopsAfter(DEFAULT_POLICY, trace, attempts) && forall i | i >= 1 :: Transient(trace(i), status)
    ensures attempts == if status then 8 else 4
  {
    AttemptsMade(DEFAULT_POLICY, trace, attempts, status);
  }

  /** The documented worst case of the default policy: 51.5 seconds of sleep over at most 8 attempts. */
  lemma DefaultWorstCase(attempts: nat)
    requires 1 <= attempts <= AttemptBound(DEFAULT_POLICY)
    ensures Slept(DEFAULT_POLICY, attempts - 1) <= 51500000000
  {
    SleptGrows(DEFAULT_POLICY, attempts - 1, 7);
    DefaultCeilings();
  }

  lemma {:induction false} SleptGrows(p: Policy, m: nat, n: nat)
    requires m <= n
    ensures Slept(p, m) <= Slept(p, n)
  {
    if m < n {
      SleptGrows(p, m, n - 1);
    }
  }

  lemma DefaultCeilings()
    ensures Slept(DEFAULT_POLICY, 7) == 51500000000
  {
    assert Pow2(2) == 4 && Pow2(4) == 16 && Pow2(6) == 64;
    assert Ceiling(DEFAULT_POLICY, 1) == 500000000 && Ceiling(DEFAULT_POLICY, 2) == 1000000000;
    assert Ceiling(DEFAULT_POLICY, 3) == 2000000000 && Ceiling(DEFAULT_POLICY, 4) == 4000000000;
    assert Ceiling(DEFAULT_POLICY, 5) == 8000000000 && Ceiling(DEFAULT_POLICY, 6) == 16000000000;
    assert Ceiling(DEFAULT_POLICY, 7) == 20000000000;
    assert Slept(DEFAULT_POLICY, 3) == 3500000000;
  }
}
