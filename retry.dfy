/** `retryUntil(fn, { timeout, interval })` of lib/Functions.js.

    The function being retried is given as `attempt`: `attempt(k)` is what
    its k-th call returns or throws (the language server's answer at that
    moment is outside this model). Waiting `interval` milliseconds between
    calls has no effect on the outcome and is not modelled. */
module Retry {
  import opened Js

  /** What one call of the retried function does. */
  datatype Outcome<T> = Returned(value: T) | Threw(error: Exception)

  /** How the promise that retryUntil returns settles. `ResolvedUndefined`
      is the `undefined` a swallowed error leaves behind. */
  datatype Settlement<T> = Resolved(value: T) | ResolvedUndefined | Rejected(error: Exception)

  /** The settlement and how many times the function was called. */
  datatype Run<T> = Run(settlement: Settlement<T>, calls: nat)

  predicate IsAssertionFailure<T>(o: Outcome<T>) {
    o.Threw? && o.error.name == AssertionErrorName
  }

  /** How a single call that is NOT retried settles the promise: a value
      resolves it, an AssertionError is rethrown, any other error falls out
      of the `catch` and leaves `undefined`. */
  function FinalSettlement<T>(o: Outcome<T>): Settlement<T> {
    match o
    case Returned(v) => Resolved(v)
    case Threw(e) => if e.name == AssertionErrorName then Rejected(e) else ResolvedUndefined
  }

  /** `Math.round(timeout / 10)`, the interval the queries use. */
  function RetryInterval(timeout: int): int {
    (timeout + 5) / 10
  }

  /** The recursion of retryUntil, starting with call number `first`.
      When interval <= 0 and timeout > 0 the remaining timeout never
      shrinks, so the source keeps retrying for as long as the function
      keeps failing its assertion (it still ends at the first call that
      returns or throws anything else); that case is excluded here. */
  function RetryUntil<T>(attempt: nat -> Outcome<T>, first: nat, timeout: int, interval: int): (r: Run<T>)
    requires interval > 0 || timeout <= 0
    ensures r.calls >= 1
    // every call but the last failed an assertion and was retried
    ensures forall k :: first <= k < first + r.calls - 1 ==> IsAssertionFailure(attempt(k))
    // the last call decides the settlement
    ensures r.settlement == FinalSettlement(attempt(first + r.calls - 1))
    // the budget: a call is retried only while the remaining timeout is positive
    ensures timeout <= 0 ==> r.calls == 1
    ensures timeout > 0 ==> (r.calls - 2) * interval < timeout
    decreases if timeout > 0 then timeout else 0
  {
    match attempt(first)
    case Returned(v) => Run(Resolved(v), 1)
    case Threw(e) =>
      if e.name == AssertionErrorName then
        if timeout <= 0 then Run(Rejected(e), 1)
        else
          var rest := RetryUntil(attempt, first + 1, timeout - interval, interval);
          assert (rest.calls - 2) * interval < timeout - interval
              || (rest.calls == 1 && timeout - interval <= 0);
          Run(rest.settlement, rest.calls + 1)
      else Run(ResolvedUndefined, 1)
  }

  /** Rounding the interval to 0 is what leaves timeouts 1 to 4 without a
      bound on the retries: the number of retries is bounded exactly when
      the timeout is not positive or the rounded interval is positive.
      Without the bound, a function that fails its assertion on every call
      is retried without end, while one that returns or throws anything
      else still ends the recursion. */
  lemma SmallTimeoutsRoundIntervalToZero(timeout: int)
    ensures 1 <= timeout <= 4 ==> RetryInterval(timeout) == 0
    ensures timeout >= 5 ==> RetryInterval(timeout) >= 1
    ensures (RetryInterval(timeout) > 0 || timeout <= 0) <==> !(1 <= timeout <= 4)
  {
  }

  /** A resolved value is what one of the calls returned. */
  lemma ResolvedByACall<T>(attempt: nat -> Outcome<T>, first: nat, timeout: int, interval: int)
    requires interval > 0 || timeout <= 0
    ensures var r := RetryUntil(attempt, first, timeout, interval);
      r.settlement.Resolved? ==> attempt(first + r.calls - 1) == Returned(r.settlement.value)
  {
  }

  /** A call that throws anything but an AssertionError is never retried,
      and the error is swallowed. */
  lemma OtherErrorsAreSwallowed<T>(attempt: nat -> Outcome<T>, first: nat, timeout: int, interval: int)
    requires interval > 0 || timeout <= 0
    requires attempt(first).Threw? && attempt(first).error.name != AssertionErrorName
    ensures RetryUntil(attempt, first, timeout, interval) == Run(ResolvedUndefined, 1)
  {
  }

  /** An AssertionError is rethrown unchanged once the remaining timeout is
      not positive; otherwise the function is called again with the
      timeout reduced by the interval. */
  lemma AssertionFailureRetried<T>(attempt: nat -> Outcome<T>, first: nat, timeout: int, interval: int)
    requires interval > 0 || timeout <= 0
    requires IsAssertionFailure(attempt(first))
    ensures timeout <= 0 ==> RetryUntil(attempt, first, timeout, interval) == Run(Rejected(attempt(first).error), 1)
    ensures timeout > 0 ==>
      var rest := RetryUntil(attempt, first + 1, timeout - interval, interval);
      RetryUntil(attempt, first, timeout, interval) == Run(rest.settlement, rest.calls + 1)
  {
  }

  /** The same step seen from the settlement alone, from the first call. */
  lemma AssertionFailureSettles<T>(attempt: nat -> Outcome<T>, timeout: int, interval: int)
    requires interval > 0 || timeout <= 0
    requires IsAssertionFailure(attempt(0))
    ensures timeout <= 0 ==> RetryUntil(attempt, 0, timeout, interval).settlement == Rejected(attempt(0).error)
    ensures timeout > 0 ==> RetryUntil(attempt, 0, timeout, interval).settlement
                            == RetryUntil(attempt, 1, timeout - interval, interval).settlement
  {
    AssertionFailureRetried(attempt, 0, timeout, interval);
  }

  /** A function that fails its assertion on every call is called exactly
      ceil(timeout / interval) + 1 times, and the last AssertionError is
      what the promise rejects with. Stated without division:
      (calls - 2) * interval < timeout <= (calls - 1) * interval. */
  lemma {:induction false} PermanentFailureCalls<T>(attempt: nat -> Outcome<T>, first: nat, timeout: int, interval: int)
    requires interval > 0 && timeout > 0
    requires forall k :: first <= k ==> IsAssertionFailure(attempt(k))
    ensures var r := RetryUntil(attempt, first, timeout, interval);
      && (r.calls - 2) * interval < timeout <= (r.calls - 1) * interval
      && IsAssertionFailure(attempt(first + r.calls - 1))
      && r.settlement == Rejected(attempt(first + r.calls - 1).error)
    decreases timeout
  {
    assert IsAssertionFailure(attempt(first));
    var r := RetryUntil(attempt, first, timeout, interval);
    var rest := RetryUntil(attempt, first + 1, timeout - interval, interval);
    var n := rest.calls;
    assert r == Run(rest.settlement, n + 1);
    assert first + r.calls - 1 == first + 1 + n - 1;
    if timeout - interval <= 0 {
      assert n == 1;
    } else {
      PermanentFailureCalls(attempt, first + 1, timeout - interval, interval);
      MulStep(n - 2, interval);
      MulStep(n - 1, interval);
    }
  }

  lemma MulStep(n: int, i: int)
    ensures (n + 1) * i == n * i + i
  {
  }

  /** ceil(timeout / interval) + 1, the number of calls a positive timeout
      allows. */
  function RetryCalls(timeout: int, interval: int): int
    requires interval > 0
  {
    (timeout + interval - 1) / interval + 1
  }

  /** The same count written with the division of the source's terms; a
      positive timeout always leaves room for at least one retry. */
  lemma PermanentFailureCallsCeil<T>(attempt: nat -> Outcome<T>, first: nat, timeout: int, interval: int)
    requires interval > 0 && timeout > 0
    requires forall k :: first <= k ==> IsAssertionFailure(attempt(k))
    ensures RetryUntil(attempt, first, timeout, interval).calls == RetryCalls(timeout, interval)
    ensures RetryUntil(attempt, first, timeout, interval).calls >= 2
  {
    var n := RetryUntil(attempt, first, timeout, interval).calls - 1;
    PermanentFailureCalls(attempt, first, timeout, interval);
    CeilUnique(timeout, interval, n);
    if n < 1 {
      MulMonotone(n, 0, interval);
    }
  }

  lemma CeilUnique(t: int, i: int, n: int)
    requires i > 0 && (n - 1) * i < t <= n * i
    ensures n == (t + i - 1) / i
  {
    var q := (t + i - 1) / i;
    assert q * i <= t + i - 1 < (q + 1) * i;
    if n < q {
      MulMonotone(n, q - 1, i);
      assert false;
    } else if n > q {
      MulMonotone(q, n - 1, i);
      assert false;
    }
  }

  lemma MulMonotone(a: int, b: int, i: int)
    requires a <= b && i > 0
    ensures a * i <= b * i
  {
  }
}
