/** Bounded retry with doubling timeouts (network-daemon/src/dhcp/utils.rs). */
module Attempt {
  import opened Prelude

  /** The longest `Duration`, in nanoseconds. */
  const MAX_DURATION: nat := 0xFFFF_FFFF_FFFF_FFFF * 1_000_000_000 + 999_999_999

  /** `Duration::from_secs(u64::MAX)`, used when no timeout is given. */
  const NO_TIMEOUT: nat := 0xFFFF_FFFF_FFFF_FFFF * 1_000_000_000

  /** One run of the body: it breaks with a result, or it goes on, be it by
      its own choice or because its window closed. */
  datatype Flow<R, E> = Break(result: Result<R, E>) | Continue

  datatype Outcome<R, E> =
    | Done(value: R)
    | Critical(error: E)
    | RetriesExhausted
    | Panicked   // doubling the timeout overflowed

  function Started(timeout: Option<nat>): nat {
    if timeout.Some? then timeout.value else NO_TIMEOUT
  }

  /** The window of attempt `k`: each is twice the one before. */
  function Window(first: nat, k: nat): nat {
    if k == 0 then first else 2 * Window(first, k - 1)
  }

  /** All windows of the first `k` attempts together. */
  function Total(first: nat, k: nat): nat {
    if k == 0 then 0 else Total(first, k - 1) + Window(first, k - 1)
  }

  lemma {:induction false} WindowIs(first: nat, k: nat)
    ensures Window(first, k) == first * Pow2(k)
  {
    if k > 0 {
      WindowIs(first, k - 1);
      var p := Pow2(k - 1);
      assert 2 * (first * p) == first * (2 * p);
    }
  }

  lemma SumOfWindows(first: nat, p: nat)
    requires p > 0
    ensures first * (p - 1) + first * p == first * (2 * p - 1)
  {
  }

  /** `k` attempts never get more than `2^k - 1` times the first window. */
  lemma {:induction false} TotalIs(first: nat, k: nat)
    ensures Total(first, k) == first * (Pow2(k) - 1)
  {
    if k > 0 {
      TotalIs(first, k - 1);
      WindowIs(first, k - 1);
      SumOfWindows(first, Pow2(k - 1));
    }
  }

  lemma {:induction false} WindowGrows(first: nat, k: nat, n: nat)
    requires k <= n
    ensures Window(first, k) <= Window(first, n)
  {
    if k < n {
      WindowGrows(first, k, n - 1);
    }
  }

  function OutcomeOf<R, E>(result: Result<R, E>): Outcome<R, E> {
    match result case Success(v) => Done(v) case Failure(e) => Critical(e)
  }

  /** Attempt `i` did not break and the retry action after it succeeded. */
  predicate Passed<R, E>(body: nat -> Flow<R, E>, retryOk: nat -> bool, i: nat) {
    body(i).Continue? && retryOk(i)
  }

  /** The result of the first attempt, from `k` on, that breaks before the
      retry action fails or `n` attempts are over. */
  function FirstBreak<R, E>(body: nat -> Flow<R, E>, retryOk: nat -> bool, k: nat, n: nat): Option<Result<R, E>>
    decreases n - k
  {
    if k >= n then None
    else if body(k).Break? then Some(body(k).result)
    else if retryOk(k) then FirstBreak(body, retryOk, k + 1, n) else None
  }

  /** `attempts` counts runs of the body, `retries` runs of the retry action,
      `windows` sums the timeouts granted. */
  method Attempt<R, E>(timeout: Option<nat>, retryCount: nat, body: nat -> Flow<R, E>, retryOk: nat -> bool)
    returns (r: Outcome<R, E>, attempts: nat, retries: nat, windows: nat)
    requires timeout.Some? ==> timeout.value <= MAX_DURATION
    ensures attempts <= retryCount && (retryCount > 0 ==> attempts > 0)
    ensures windows == Total(Started(timeout), attempts)
    // every attempt but the last went on
    ensures forall i :: 0 <= i < attempts - 1 ==> Passed(body, retryOk, i)
    // the last one decides
    ensures attempts > 0 && body(attempts - 1).Break? ==>
              r == OutcomeOf(body(attempts - 1).result) && retries == attempts - 1
    ensures attempts > 0 && body(attempts - 1).Continue? ==>
              retries == attempts && (r == RetriesExhausted || r == Panicked)
    ensures r == Panicked <==>
              attempts > 0 && Passed(body, retryOk, attempts - 1) && Window(Started(timeout), attempts) > MAX_DURATION
    ensures r == RetriesExhausted ==>
              attempts == retryCount || (body(attempts - 1).Continue? && !retryOk(attempts - 1))
    ensures attempts > 0 ==> Window(Started(timeout), attempts - 1) <= MAX_DURATION
    ensures r != Panicked ==>
              match FirstBreak(body, retryOk, 0, retryCount)
              case Some(result) => r == OutcomeOf(result)
              case None => r == RetriesExhausted
    // a timeout that can be doubled every time never overflows
    ensures Window(Started(timeout), retryCount) <= MAX_DURATION ==> r != Panicked
  {
    attempts, retries, windows := 0, 0, 0;
    var window := Started(timeout);
    ghost var first := window;
    while attempts < retryCount
      invariant attempts <= retryCount && retries == attempts
      invariant window == Window(first, attempts)
      invariant windows == Total(first, attempts)
      invariant window <= MAX_DURATION
      invariant FirstBreak(body, retryOk, attempts, retryCount) == FirstBreak(body, retryOk, 0, retryCount)
      invariant attempts > 0 ==> Window(first, attempts - 1) <= MAX_DURATION
      invariant forall i :: 0 <= i < attempts ==> Passed(body, retryOk, i)
    {
      var flow := body(attempts);
      windows := windows + window;
      attempts := attempts + 1;
      if flow.Break? {
        return OutcomeOf(flow.result), attempts, retries, windows;
      }
      var ok := retryOk(attempts - 1);
      retries := retries + 1;
      if !ok {
        return RetriesExhausted, attempts, retries, windows;
      }
      if window * 2 > MAX_DURATION {
        WindowGrows(first, attempts, retryCount);
        return Panicked, attempts, retries, windows;
      }
      window := window * 2;
    }
    assert attempts > 0 ==> Passed(body, retryOk, attempts - 1);
    r := RetriesExhausted;
  }

  /** Without a timeout the very first retry overflows. */
  lemma NoTimeoutCannotDouble()
    ensures Window(Started(None), 1) > MAX_DURATION
  {
  }

  /** So without a timeout there is a single attempt, however many are allowed. */
  lemma NoTimeoutAllowsOne(attempts: nat)
    requires attempts > 0 && Window(Started(None), attempts - 1) <= MAX_DURATION
    ensures attempts == 1
  {
    if attempts > 1 {
      WindowGrows(Started(None), 1, attempts - 1);
      NoTimeoutCannotDouble();
    }
  }
}
