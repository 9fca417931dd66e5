/** The wrapper's attempt loop. The wrapped streaming operation is replaced by
    `op`, which gives for each invocation (counted from 0) the elements that
    invocation yields and how it ends. Notifying and sleeping are recorded as
    events of a trace; what the wrapper forwards to its caller is `emitted`. */
module RetryLoop {
  import opened RetryConfig
  import opened RetryPolicy

  /** How one invocation of the wrapped operation ends. */
  datatype End = Success | Fail(error: Error)

  /** One invocation: the elements it yields, then how it ends. */
  datatype Attempt<T> = Attempt(elements: seq<T>, end: End)

  /** The wrapper's side effects, in the order they happen. */
  datatype Event =
    | Invoke(attempt: nat)
    | Notify(retry: nat, total: int, seconds: nat)
    | Sleep(ms: nat)

  /** How the wrapped operation ends for its caller. */
  datatype Termination = Done | Threw(error: Error)

  /** Everything a run of the wrapper does. */
  datatype Run<T> = Run(emitted: seq<T>, trace: seq<Event>, result: Termination)

  function Outcome(e: End): (t: Termination)
    ensures e.Success? <==> t == Done
    ensures e.Fail? ==> t == Threw(e.error)
  {
    match e
    case Success => Done
    case Fail(err) => Threw(err)
  }

  /** Attempt `k`, ending as `a` does, is the one the loop stops at: it
      succeeded, its failure is not retried, or it was the last allowed one. */
  predicate StopsAt(p: Policy, a: Attempt, k: nat): (r: bool)
    ensures a.end.Success? ==> r
    ensures a.end.Fail? ==>
      (r <==> (!IsRateLimit(a.end.error) && !p.retryAllErrors) || k == p.maxRetries - 1)
  {
    a.end.Success? || !IsRetryable(p, a.end.error) || k == p.maxRetries - 1
  }

  /** What happens between a retried failure of attempt `k` and attempt `k + 1`:
      a notification when enabled, then the sleep. */
  function Pause(p: Policy, k: nat): (t: seq<Event>)
    ensures |t| == if p.showNotification then 2 else 1
    ensures t[|t| - 1] == Sleep(Backoff(p, k))
    ensures p.showNotification ==> t[0] == Notify(k + 1, p.maxRetries, RoundedSeconds(Backoff(p, k)))
  {
    var d := Backoff(p, k);
    (if p.showNotification then [Notify(k + 1, p.maxRetries, RoundedSeconds(d))] else []) + [Sleep(d)]
  }

  /** The loop from attempt `k` on, when `emitted` has been forwarded and
      `trace` recorded so far. */
  function Loop<T>(p: Policy, op: nat -> Attempt<T>, k: nat, emitted: seq<T>, trace: seq<Event>): (r: Run<T>)
    ensures k >= p.maxRetries ==> r == Run(emitted, trace, Done)
    ensures |emitted| <= |r.emitted| && |trace| <= |r.trace|
    ensures k < p.maxRetries ==> |trace| < |r.trace|
    decreases if k < p.maxRetries then p.maxRetries - k else 0
  {
    if k >= p.maxRetries then
      Run(emitted, trace, Done)
    else
      var a := op(k);
      if StopsAt(p, a, k) then
        Run(emitted + a.elements, trace + [Invoke(k)], Outcome(a.end))
      else
        Loop(p, op, k + 1, emitted + a.elements, trace + [Invoke(k)] + Pause(p, k))
  }

  /** What the wrapped operation does under policy `p`. */
  function Wrapped<T>(p: Policy, op: nat -> Attempt<T>): (r: Run<T>)
    ensures p.maxRetries <= 0 ==> r == Run([], [], Done)
    ensures p.maxRetries >= 1 ==> |r.trace| >= 1
  {
    Loop(p, op, 0, [], [])
  }

  /** The wrapped operation: resolve the options, then run attempts until one
      succeeds, fails in a way that is not retried, or is the last allowed. */
  method WithRetry<T>(options: RetryOptions, op: nat -> Attempt<T>) returns (r: Run<T>)
    ensures r == Wrapped(Resolve(options), op)
  {
    var p := Resolve(options);
    var emitted: seq<T> := [];
    var trace: seq<Event> := [];
    var attempt: nat := 0;
    while attempt < p.maxRetries
      invariant Loop(p, op, attempt, emitted, trace) == Wrapped(p, op)
      decreases p.maxRetries - attempt
    {
      ghost var traceBefore := trace;
      var a := op(attempt);
      trace := trace + [Invoke(attempt)];
      emitted := emitted + a.elements;
      if a.end.Success? {
        return Run(emitted, trace, Done);
      }
      var error := a.end.error;
      var isRateLimit := IsRateLimit(error);
      var isLastAttempt := attempt == p.maxRetries - 1;
      if (!isRateLimit && !p.retryAllErrors) || isLastAttempt {
        return Run(emitted, trace, Threw(error));
      }
      var delay := Backoff(p, attempt);
      if p.showNotification {
        trace := trace + [Notify(attempt + 1, p.maxRetries, RoundedSeconds(delay))];
      }
      trace := trace + [Sleep(delay)];
      assert trace == traceBefore + [Invoke(attempt)] + Pause(p, attempt);
      attempt := attempt + 1;
    }
    return Run(emitted, trace, Done);
  }
}
