/** The pure parts of the retry policy: which failures are retried, how long
    the wrapper waits before the next attempt, and the rounded number of
    seconds the notification shows. */
module RetryPolicy {
  import opened RetryConfig

  /** A failure, reduced to the two fields the classifier looks at. */
  datatype Error = Error(message: Option<string>, status: Option<int>)

  /** The text whose presence in a message marks a rate-limit failure. */
  const RateLimitText: string := "rate limit"

  /** The HTTP status that marks a rate-limit failure. */
  const RateLimitStatus: int := 429

  /** `sub` occurs in `s` starting at index `i`. */
  ghost predicate OccursAt(s: string, sub: string, i: int) {
    0 <= i && i + |sub| <= |s| && s[i..i + |sub|] == sub
  }

  /** Case-sensitive substring test, as a string's `includes` does it. */
  function Includes(s: string, sub: string): (r: bool)
    ensures r <==> exists i :: OccursAt(s, sub, i)
    decreases |s|
  {
    if |sub| <= |s| && s[..|sub|] == sub then
      assert OccursAt(s, sub, 0);
      true
    else if |s| == 0 then
      false
    else
      var r := Includes(s[1..], sub);
      ShiftOccurrence(s, sub);
      r
  }

  /** Occurrences in `s` away from the front are the occurrences in `s[1..]`,
      shifted by one. */
  lemma ShiftOccurrence(s: string, sub: string)
    requires |s| > 0
    requires !OccursAt(s, sub, 0)
    ensures (exists i :: OccursAt(s, sub, i)) <==> (exists j :: OccursAt(s[1..], sub, j))
  {
    if i :| OccursAt(s, sub, i) {
      assert i > 0;
      assert s[1..][i - 1..i - 1 + |sub|] == s[i..i + |sub|];
      assert OccursAt(s[1..], sub, i - 1);
    }
    if j :| OccursAt(s[1..], sub, j) {
      assert s[1..][j..j + |sub|] == s[j + 1..j + 1 + |sub|];
      assert OccursAt(s, sub, j + 1);
    }
  }

  /** A rate-limit failure: its message contains "rate limit" or its status is 429. */
  function IsRateLimit(e: Error): (r: bool)
    ensures r <==> (e.message.Some? && exists i :: OccursAt(e.message.value, "rate limit", i))
                   || e.status == Some(429)
  {
    (e.message.Some? && Includes(e.message.value, RateLimitText)) || e.status == Some(RateLimitStatus)
  }

  /** A failure the policy retries: a rate-limit failure, or any failure when
      the policy retries all errors. */
  function IsRetryable(p: Policy, e: Error): (r: bool)
    ensures !p.retryAllErrors ==> (r <==> IsRateLimit(e))
    ensures p.retryAllErrors ==> r
  {
    IsRateLimit(e) || p.retryAllErrors
  }

  /** Two to the power `k`. */
  function Pow2(k: nat): (r: nat)
    ensures r >= 1
  {
    if k == 0 then 1 else 2 * Pow2(k - 1)
  }

  /** The delay in milliseconds after failed attempt `attempt` (counted from 0):
      the exponential delay `baseDelay * 2^attempt`, capped at `maxDelay`. */
  function Backoff(p: Policy, attempt: nat): (d: nat)
    ensures d <= p.maxDelay && d <= p.baseDelay * Pow2(attempt)
    ensures d == p.maxDelay || d == p.baseDelay * Pow2(attempt)
  {
    var exponential := p.baseDelay * Pow2(attempt);
    if exponential < p.maxDelay then exponential else p.maxDelay
  }

  /** A delay in milliseconds rounded to the nearest whole second, halves
      rounded up (as rounding `d / 1000` does for a non-negative `d`). */
  function RoundedSeconds(d: nat): (s: nat)
    ensures s * 1000 <= d + 500 < s * 1000 + 1000
  {
    (d + 500) / 1000
  }

  /** There is only one whole number of seconds that `d` rounds to. */
  lemma RoundedSecondsUnique(d: nat, s: nat)
    requires s * 1000 <= d + 500 < s * 1000 + 1000
    ensures s == RoundedSeconds(d)
  {
  }

  lemma {:induction false} Pow2Monotone(i: nat, j: nat)
    requires i <= j
    ensures Pow2(i) <= Pow2(j)
  {
    if i < j {
      Pow2Monotone(i, j - 1);
    }
  }

  /** The delay never shrinks as the attempt number grows. */
  lemma BackoffMonotone(p: Policy, i: nat, j: nat)
    requires i <= j
    ensures Backoff(p, i) <= Backoff(p, j)
  {
    Pow2Monotone(i, j);
    MulMonotone(p.baseDelay, Pow2(i), Pow2(j));
  }

  lemma MulMonotone(a: nat, x: nat, y: nat)
    requires x <= y
    ensures a * x <= a * y
  {
  }

  /** An independent description of the delays: the first is the base delay
      capped, and each next one doubles the previous one, capped again. */
  lemma BackoffRecurrence(p: Policy, k: nat)
    ensures Backoff(p, 0) == if p.baseDelay < p.maxDelay then p.baseDelay else p.maxDelay
    ensures Backoff(p, k + 1) == if 2 * Backoff(p, k) < p.maxDelay then 2 * Backoff(p, k) else p.maxDelay
  {
  }

  /** With the defaults, attempts 0 to 4 wait 1, 2, 4, 8 and 10 seconds, and
      every later attempt waits the 10-second cap. */
  lemma DefaultBackoffs(k: nat)
    ensures Backoff(DefaultPolicy, 0) == 1000
    ensures Backoff(DefaultPolicy, 1) == 2000
    ensures Backoff(DefaultPolicy, 2) == 4000
    ensures Backoff(DefaultPolicy, 3) == 8000
    ensures Backoff(DefaultPolicy, 4) == 10000
    ensures k >= 4 ==> Backoff(DefaultPolicy, k) == 10000
  {
    assert Pow2(4) == 16;
    if k >= 4 {
      BackoffMonotone(DefaultPolicy, 4, k);
    }
  }
}
