# Retry wrapper for streaming operations — Dafny model

This project models `withRetry`, the retry policy that wraps a streaming
operation (an async generator) in `src/api/retry.ts`. When an invocation of
the wrapped operation fails, the wrapper decides:

- whether to invoke it again from scratch (rate-limit failures, or every
  failure when `retryAllErrors` is set);
- how long to sleep first (exponential backoff, capped at `maxDelay`);
- when to give up and rethrow the original error unchanged (a failure that is
  not retried, or a failure on the last allowed attempt).

Every element an invocation yields is forwarded at once, so the elements of a
failed invocation stay forwarded when the next one starts.

The model has four parts:

- `RetryConfig` (`options.dfy`): the caller's options, the defaults (3 retries,
  1000 ms base delay, 10000 ms cap, `retryAllErrors = false`,
  `showNotification = true`) and how they are merged.
- `RetryPolicy` (`policy.dfy`): the rate-limit classifier (the case-sensitive
  substring `"rate limit"` in the message, or status 429), the retry decision,
  the backoff `min(maxDelay, baseDelay * 2^attempt)` and the rounding of the
  delay to whole seconds for the notification. Rounding is
  `Math.round(delay / 1000)` on a non-negative integer, that is
  `(delay + 500) / 1000`.
- `RetryLoop` (`wrapper.dfy`): the attempt loop. `WithRetry` is a method with
  a `while` loop over the attempt counter. It returns early on success and
  on a failure it does not retry. It is proved equal to `Wrapped`, which
  is `Loop` started at attempt 0 with nothing forwarded or recorded. `Loop`
  is a recursive description of the same loop.
- `RetryProperties` (`properties.dfy`): what the loop promises, stated about
  `Wrapped`. This covers a closed form of a whole run, the invocation,
  notification and sleep counts, the sleeps' bounds and order, and the
  concrete cases: zero retries, immediate rethrow, exhaustion, stop on
  success and the retained prefix.

The wrapped operation is a parameter `op: nat -> Attempt<T>`. `op(k)` is
what the `k`-th invocation (counted from 0) does: the elements it yields,
then `Success` or `Fail(error)`. An error carries an optional message and
an optional status. Side effects become events of a trace, in order:

- `Invoke(k)` for invocation `k`;
- `Notify(k + 1, maxRetries, seconds)` for the notification;
- `Sleep(ms)` for the delay.

A run's result is the forwarded elements, the trace and the termination
(`Done` or `Threw(error)`). The forwarded elements of attempt `k` always
come right after `Invoke(k)`, so two separate sequences lose nothing.

Points about the code that the model keeps as they are:

- `maxRetries` is any integer. The code does not reject values below 1:
  with `maxRetries <= 0` the loop body never runs, the operation is never
  invoked, and the wrapper completes with no elements and no error.
- The options are resolved once, when the wrapper is built. The code has no
  settings provider that re-reads them per invocation.
- The sleep cannot be cancelled.
- A notification that fails is not guarded against.

## Model

| member | source | states |
|---|---|---|
| `RetryConfig.Resolve` | src/api/retry.ts:11-20 | each option the caller supplies is used as given; each option left out takes its default (3, 1000, 10000, false, true) |
| `RetryConfig.ResolveNothing` | src/api/retry.ts:11-20 | supplying no option yields exactly the defaults: 3 retries, 1000 ms, 10000 ms, no retry of all errors, notifications on |
| `RetryConfig.ResolveSupplied` | src/api/retry.ts:20 | supplying every option yields exactly those values; no default overrides the caller |
| `RetryPolicy.Includes` | src/api/retry.ts:31 | the substring test is true exactly when `sub` occurs at some index of `s` |
| `RetryPolicy.IsRateLimit` | src/api/retry.ts:31 | an error is a rate-limit error exactly when its message contains "rate limit" at some index or its status is 429 |
| `RetryPolicy.IsRetryable` | src/api/retry.ts:34 | without `retryAllErrors`, a failure is retried exactly when it is a rate-limit failure; with it, every failure is retried |
| `RetryPolicy.Backoff` | src/api/retry.ts:38 | the delay is the smaller of `maxDelay` and `baseDelay * 2^attempt`; it never exceeds either one |
| `RetryPolicy.BackoffMonotone` | src/api/retry.ts:38 | the delay never decreases as the attempt number grows |
| `RetryPolicy.BackoffRecurrence` | src/api/retry.ts:38 | the first delay is the capped base delay; each next delay is twice the previous one, capped at `maxDelay` |
| `RetryPolicy.DefaultBackoffs` | src/api/retry.ts:38 | with the defaults, attempts 0 to 4 wait 1000, 2000, 4000, 8000 and 10000 ms, and every later attempt waits 10000 ms |
| `RetryPolicy.RoundedSeconds` | src/api/retry.ts:44 | the seconds shown are the delay rounded to the nearest second, halves up: `1000 s <= d + 500 < 1000 s + 1000` |
| `RetryPolicy.RoundedSecondsUnique` | src/api/retry.ts:44 | that rounding has exactly one answer |
| `RetryLoop.Pause` | src/api/retry.ts:40-48 | between a retried failure of attempt `k` and attempt `k + 1`: a notification with `k + 1`, `maxRetries` and the rounded seconds when notifications are on, then a sleep of the backoff of `k` |
| `RetryLoop.StopsAt` | src/api/retry.ts:32-34 | a successful attempt always ends the loop; a failed one ends it exactly when it is neither a rate-limit failure nor covered by `retryAllErrors`, or when it is the last allowed attempt |
| `RetryLoop.Loop` | src/api/retry.ts:26-50 | the loop from attempt `k` on: with no attempt left it completes with exactly what it has forwarded and recorded; it never ends with fewer forwarded elements or recorded events than it started with; with an attempt left it records at least one more event |
| `RetryLoop.Wrapped` | src/api/retry.ts:19-51 | with `maxRetries <= 0` the operation is never invoked and the run completes with nothing forwarded; with `maxRetries >= 1` at least one event is recorded |
| `RetryLoop.WithRetry` | src/api/retry.ts:19-51 | the loop forwards, records and ends exactly as the recursive description `Wrapped` of the resolved policy does |
| `RetryProperties.LastAttempt` | src/api/retry.ts:26-36 | the attempt the loop stops at is below `maxRetries`; it succeeded, failed without retry, or was the last allowed attempt; every earlier attempt failed and was retried |
| `RetryProperties.LoopClosedForm` | src/api/retry.ts:26-50 | from attempt `lo` to the attempt `s` it stops at, the loop adds the elements of attempts `lo` to `s`, the retries of `lo` to `s - 1` and the invocation of `s` to what it already holds, and ends as attempt `s` does |
| `RetryProperties.RunClosedForm` | src/api/retry.ts:26-50 | a run is the elements of attempts 0 to `s`, the retries of attempts 0 to `s - 1` followed by the invocation of `s`, and the outcome of attempt `s`, where `s` is the stopping attempt |
| `RetryProperties.RethrowsUnchanged` | src/api/retry.ts:31-35 | an error that reaches the caller is, unchanged, the error of one of the allowed attempts, and that failure was either not retried or on the last allowed attempt |
| `RetryProperties.Behaviour` | src/api/retry.ts:26-50 | the invocations are 0 to `s` in order; the sleeps are the backoffs of 0 to `s - 1`; the notifications are the matching ones when enabled, none otherwise; every yielded element is forwarded; the result is attempt `s`'s outcome |
| `RetryProperties.TraceCounts` | src/api/retry.ts:26-48 | between 1 and `maxRetries` invocations; one sleep fewer than invocations; as many notifications as sleeps when enabled, zero otherwise |
| `RetryProperties.SleepsBoundedAndNonDecreasing` | src/api/retry.ts:38-48 | every sleep lasts at most `maxDelay`, and no sleep is shorter than an earlier one |
| `RetryProperties.PausesInOrder` | src/api/retry.ts:40-48 | every sleep comes right after the invocation it answers, or after that invocation's notification; it lasts that attempt's backoff; the notification carries `attempt + 1`, `maxRetries` and the sleep in rounded seconds |
| `RetryProperties.ZeroRetries` | src/api/retry.ts:26 | with `maxRetries <= 0` the operation is never invoked, nothing is forwarded, and the wrapper completes without error |
| `RetryProperties.ImmediateRethrow` | src/api/retry.ts:31-35 | a failure with no "rate limit" in its message and no status 429, under `retryAllErrors = false`: one invocation, no notification, no sleep, and the same error rethrown |
| `RetryProperties.Exhaustion` | src/api/retry.ts:26-35 | when every attempt fails with a retried error: exactly `maxRetries` invocations, `maxRetries - 1` sleeps, and the last attempt's error rethrown unchanged |
| `RetryProperties.StopOnSuccess` | src/api/retry.ts:28-29 | when attempt `k` succeeds after `k` retried failures: done after exactly `k + 1` invocations, and the trace ends with that invocation (no later notification or sleep) |
| `RetryProperties.NeverRetracted` | src/api/retry.ts:28 | for each attempt up to the stopping one, the elements of the attempts so far are a prefix of what is forwarded |
| `RetryProperties.DefaultsTwoRateLimitsThenSuccess` | src/api/retry.ts:11-48 | with the defaults, two 429 failures and then a success give 3 invocations, notifications of 1 and 2 seconds, sleeps of 1000 and 2000 ms, all elements of the three attempts forwarded, and success |

## Left out

- The decorator plumbing (property descriptor, `descriptor.value` and binding `this` with `apply`) is left out. The wrapper is a plain method taking the options and the operation.
- Async-generator and promise semantics are left out, and so is real time. `setTimeout` becomes a `Sleep` event of the trace, and awaiting the notification becomes a `Notify` event.
- Abandoning the stream midway is not modelled. The consumer is assumed to read the whole stream, and the code has no cancellation of the delay.
- `showSystemNotification` is outside code; only the numbers it shows are modelled. The fixed title "Rate Limit" and the localised subtitle and message text are left out. A notification that throws is not modelled: in the code its error would escape the loop.
- JavaScript number details are left out: float `Math.pow` and `Math.round`, infinite or NaN delays, non-integer or negative delay options, and a non-integer `maxRetries`. Delays are natural numbers and `maxRetries` is an integer.
- An option key passed explicitly as `undefined` is not modelled. The object spread would let `undefined` override the default; the model only has "supplied" or "left out".
- An error that is null, not an object, or whose `message` is not a string is not modelled. An error is a record with an optional string message and an optional integer status.
- A variant that re-reads its options from a settings provider on every call is not part of this model; it is not in `src/api/retry.ts`.
- RetryLoop.Loop: beyond the case with no attempt left, its own contract states only lengths. The exact contents of what it forwards and records are stated by `RetryProperties.LoopClosedForm`, because a content clause on the recursive function itself makes every proof that unfolds it too costly.
