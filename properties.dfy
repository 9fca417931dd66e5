/** What the attempt loop promises: how many times the operation is invoked,
    which error reaches the caller, which elements are forwarded, and which
    notifications and sleeps happen in between. */
module RetryProperties {
  import opened RetryConfig
  import opened RetryPolicy
  import opened RetryLoop

  // ---------------------------------------------------------------------
  // Reference descriptions of a run, written without the loop.
  // ---------------------------------------------------------------------

  /** The elements yielded by attempts `lo` to `hi - 1`, one after the other. */
  function YieldsBetween<T>(op: nat -> Attempt<T>, lo: nat, hi: nat): (r: seq<T>)
    decreases hi - lo
  {
    if lo >= hi then [] else op(lo).elements + YieldsBetween(op, lo + 1, hi)
  }

  /** The trace of attempts `lo` to `hi - 1` when every one of them is retried. */
  function RetriedBetween(p: Policy, lo: nat, hi: nat): (r: seq<Event>)
    decreases hi - lo
  {
    if lo >= hi then [] else [Invoke(lo)] + Pause(p, lo) + RetriedBetween(p, lo + 1, hi)
  }

  /** Attempt `s` is the first attempt from `lo` on at which the loop stops. */
  ghost predicate StopsFirstAt<T>(p: Policy, op: nat -> Attempt<T>, lo: nat, s: nat) {
    lo <= s < p.maxRetries && StopsAt(p, op(s), s) &&
    forall k :: lo <= k < s ==> !StopsAt(p, op(k), k)
  }

  /** The attempt the loop stops at when it starts from attempt `lo`. */
  function LastAttempt<T>(p: Policy, op: nat -> Attempt<T>, lo: nat): (s: nat)
    requires lo < p.maxRetries
    ensures StopsFirstAt(p, op, lo, s)
    decreases p.maxRetries - lo
  {
    if StopsAt(p, op(lo), lo) then lo else LastAttempt(p, op, lo + 1)
  }

  /** The loop stops at exactly one attempt. */
  lemma StopsFirstAtUnique<T>(p: Policy, op: nat -> Attempt<T>, lo: nat, s: nat, s': nat)
    requires StopsFirstAt(p, op, lo, s) && StopsFirstAt(p, op, lo, s')
    ensures s == s'
  {
  }

  /** From attempt `lo` to the attempt `s` it stops at, the loop forwards what
      every attempt yields, records the retries of attempts `lo` to `s - 1`
      and the invocation of `s`, and ends as attempt `s` does. */
  lemma {:induction false} LoopClosedForm<T>(p: Policy, op: nat -> Attempt<T>, lo: nat, s: nat,
                                             emitted: seq<T>, trace: seq<Event>)
    requires StopsFirstAt(p, op, lo, s)
    ensures Loop(p, op, lo, emitted, trace) ==
      Run(emitted + YieldsBetween(op, lo, s + 1),
          trace + RetriedBetween(p, lo, s) + [Invoke(s)],
          Outcome(op(s).end))
    decreases s - lo
  {
    if lo == s {
      LoopStops(p, op, lo, emitted, trace);
    } else {
      assert !StopsAt(p, op(lo), lo);
      LoopRetries(p, op, lo, emitted, trace);
      LoopClosedForm(p, op, lo + 1, s, emitted + op(lo).elements, trace + [Invoke(lo)] + Pause(p, lo));
      YieldsUnfold(op, lo, s + 1, emitted);
      RetriedUnfold(p, lo, s, trace);
    }
  }

  /** The loop at the attempt it stops at. */
  lemma LoopStops<T>(p: Policy, op: nat -> Attempt<T>, k: nat, emitted: seq<T>, trace: seq<Event>)
    requires k < p.maxRetries && StopsAt(p, op(k), k)
    ensures Loop(p, op, k, emitted, trace) ==
      Run(emitted + YieldsBetween(op, k, k + 1), trace + RetriedBetween(p, k, k) + [Invoke(k)], Outcome(op(k).end))
  {
    assert YieldsBetween(op, k, k + 1) == op(k).elements;
  }

  /** The loop at an attempt it retries. */
  lemma LoopRetries<T>(p: Policy, op: nat -> Attempt<T>, k: nat, emitted: seq<T>, trace: seq<Event>)
    requires k < p.maxRetries && !StopsAt(p, op(k), k)
    ensures Loop(p, op, k, emitted, trace) ==
      Loop(p, op, k + 1, emitted + op(k).elements, trace + [Invoke(k)] + Pause(p, k))
  {
  }

  /** One step of `YieldsBetween`, after a prefix. */
  lemma YieldsUnfold<T>(op: nat -> Attempt<T>, lo: nat, hi: nat, emitted: seq<T>)
    requires lo < hi
    ensures emitted + op(lo).elements + YieldsBetween(op, lo + 1, hi) == emitted + YieldsBetween(op, lo, hi)
  {
  }

  /** One step of `RetriedBetween`, after a prefix. */
  lemma RetriedUnfold(p: Policy, lo: nat, hi: nat, trace: seq<Event>)
    requires lo < hi
    ensures trace + [Invoke(lo)] + Pause(p, lo) + RetriedBetween(p, lo + 1, hi) == trace + RetriedBetween(p, lo, hi)
  {
  }

  /** The whole run in closed form: the elements of attempts 0 to `s`, the
      retries of attempts 0 to `s - 1` followed by the invocation of `s`, and
      the outcome of `s`, where `s` is the attempt the loop stops at. */
  lemma RunClosedForm<T>(p: Policy, op: nat -> Attempt<T>, s: nat)
    requires StopsFirstAt(p, op, 0, s)
    ensures Wrapped(p, op) ==
      Run(YieldsBetween(op, 0, s + 1), RetriedBetween(p, 0, s) + [Invoke(s)], Outcome(op(s).end))
  {
    LoopClosedForm(p, op, 0, s, [], []);
  }

  /** An error that reaches the caller is the error some allowed attempt
      failed with, unchanged, and that failure was either not retried or
      happened on the last allowed attempt. */
  lemma RethrowsUnchanged<T>(p: Policy, op: nat -> Attempt<T>)
    ensures Wrapped(p, op).result.Threw? ==>
      exists j :: 0 <= j < p.maxRetries && op(j).end == Fail(Wrapped(p, op).result.error) &&
                  (!IsRetryable(p, op(j).end.error) || j == p.maxRetries - 1)
  {
    if p.maxRetries >= 1 {
      var s := LastAttempt(p, op, 0);
      RunClosedForm(p, op, s);
      if Wrapped(p, op).result.Threw? {
        assert op(s).end == Fail(Wrapped(p, op).result.error);
      }
    }
  }

  // ---------------------------------------------------------------------
  // Events of one kind in a trace.
  // ---------------------------------------------------------------------

  datatype Kind = InvokeKind | NotifyKind | SleepKind

  function KindOf(e: Event): (k: Kind) {
    match e
    case Invoke(_) => InvokeKind
    case Notify(_, _, _) => NotifyKind
    case Sleep(_) => SleepKind
  }

  /** The events of kind `k` in `t`, in their order. */
  function OfKind(t: seq<Event>, k: Kind): (r: seq<Event>)
    ensures |r| <= |t|
    ensures forall i :: 0 <= i < |r| ==> KindOf(r[i]) == k
  {
    if t == [] then [] else (if KindOf(t[0]) == k then [t[0]] else []) + OfKind(t[1..], k)
  }

  lemma {:induction false} OfKindAppend(a: seq<Event>, b: seq<Event>, k: Kind)
    ensures OfKind(a + b, k) == OfKind(a, k) + OfKind(b, k)
  {
    if a == [] {
      assert a + b == b;
    } else {
      assert (a + b)[0] == a[0];
      assert (a + b)[1..] == a[1..] + b;
      OfKindAppend(a[1..], b, k);
    }
  }

  lemma OfKindSingle(e: Event, k: Kind)
    ensures OfKind([e], k) == if KindOf(e) == k then [e] else []
  {
  }

  /** Invocations of attempts `lo` to `hi - 1`, in order. */
  function InvokesBetween(lo: nat, hi: nat): (r: seq<Event>)
    ensures |r| == if lo < hi then hi - lo else 0
    ensures forall i :: 0 <= i < |r| ==> r[i] == Invoke(lo + i)
    decreases hi - lo
  {
    if lo >= hi then [] else [Invoke(lo)] + InvokesBetween(lo + 1, hi)
  }

  /** The sleeps after failed attempts `lo` to `hi - 1`, in order. */
  function SleepsBetween(p: Policy, lo: nat, hi: nat): (r: seq<Event>)
    ensures |r| == if lo < hi then hi - lo else 0
    ensures forall i :: 0 <= i < |r| ==> r[i] == Sleep(Backoff(p, lo + i))
    decreases hi - lo
  {
    if lo >= hi then [] else [Sleep(Backoff(p, lo))] + SleepsBetween(p, lo + 1, hi)
  }

  /** The notifications after failed attempts `lo` to `hi - 1`, in order. */
  function NoticesBetween(p: Policy, lo: nat, hi: nat): (r: seq<Event>)
    ensures |r| == if lo < hi then hi - lo else 0
    ensures forall i :: 0 <= i < |r| ==>
      r[i] == Notify(lo + i + 1, p.maxRetries, RoundedSeconds(Backoff(p, lo + i)))
    decreases hi - lo
  {
    if lo >= hi then []
    else [Notify(lo + 1, p.maxRetries, RoundedSeconds(Backoff(p, lo)))] + NoticesBetween(p, lo + 1, hi)
  }

  /** The events of each kind in the pause after attempt `k`. */
  lemma PauseKinds(p: Policy, k: nat)
    ensures OfKind(Pause(p, k), InvokeKind) == []
    ensures OfKind(Pause(p, k), SleepKind) == [Sleep(Backoff(p, k))]
    ensures OfKind(Pause(p, k), NotifyKind) ==
      if p.showNotification then [Notify(k + 1, p.maxRetries, RoundedSeconds(Backoff(p, k)))] else []
  {
  }

  /** The events of kind `k` among retried attempts `lo` to `hi - 1`: those of
      the first attempt and its pause, then those of the rest. */
  lemma RetriedStep(p: Policy, lo: nat, hi: nat, k: Kind)
    requires lo < hi
    ensures OfKind(RetriedBetween(p, lo, hi), k) ==
      OfKind([Invoke(lo)], k) + OfKind(Pause(p, lo), k) + OfKind(RetriedBetween(p, lo + 1, hi), k)
  {
    var seg := [Invoke(lo)] + Pause(p, lo);
    OfKindAppend([Invoke(lo)], Pause(p, lo), k);
    OfKindAppend(seg, RetriedBetween(p, lo + 1, hi), k);
  }

  lemma {:induction false} RetriedInvokes(p: Policy, lo: nat, hi: nat)
    ensures OfKind(RetriedBetween(p, lo, hi), InvokeKind) == InvokesBetween(lo, hi)
    decreases hi - lo
  {
    if lo < hi {
      RetriedInvokes(p, lo + 1, hi);
      RetriedStep(p, lo, hi, InvokeKind);
      PauseKinds(p, lo);
      OfKindSingle(Invoke(lo), InvokeKind);
    }
  }

  lemma {:induction false} RetriedSleeps(p: Policy, lo: nat, hi: nat)
    ensures OfKind(RetriedBetween(p, lo, hi), SleepKind) == SleepsBetween(p, lo, hi)
    decreases hi - lo
  {
    if lo < hi {
      RetriedSleeps(p, lo + 1, hi);
      RetriedStep(p, lo, hi, SleepKind);
      PauseKinds(p, lo);
      OfKindSingle(Invoke(lo), SleepKind);
    }
  }

  lemma {:induction false} RetriedNotices(p: Policy, lo: nat, hi: nat)
    ensures OfKind(RetriedBetween(p, lo, hi), NotifyKind) ==
      if p.showNotification then NoticesBetween(p, lo, hi) else []
    decreases hi - lo
  {
    if lo < hi {
      RetriedNotices(p, lo + 1, hi);
      RetriedStep(p, lo, hi, NotifyKind);
      PauseKinds(p, lo);
      OfKindSingle(Invoke(lo), NotifyKind);
    }
  }

  // ---------------------------------------------------------------------
  // The wrapper's whole behaviour.
  // ---------------------------------------------------------------------

  /** With at least one attempt allowed, the loop stops at attempt
      `s = LastAttempt(p, op, 0)`. It has invoked attempts 0 to `s` in order,
      slept after each of attempts 0 to `s - 1` for that attempt's backoff,
      notified before each sleep exactly when notifications are on,
      forwarded everything every attempt yielded, and ends as attempt `s` did. */
  lemma Behaviour<T>(p: Policy, op: nat -> Attempt<T>)
    requires p.maxRetries >= 1
    ensures var s := LastAttempt(p, op, 0); var r := Wrapped(p, op);
      && r.emitted == YieldsBetween(op, 0, s + 1)
      && r.result == Outcome(op(s).end)
      && OfKind(r.trace, InvokeKind) == InvokesBetween(0, s + 1)
      && OfKind(r.trace, SleepKind) == SleepsBetween(p, 0, s)
      && OfKind(r.trace, NotifyKind) == (if p.showNotification then NoticesBetween(p, 0, s) else [])
  {
    var s := LastAttempt(p, op, 0);
    RunClosedForm(p, op, s);
    RetriedInvokes(p, 0, s);
    RetriedSleeps(p, 0, s);
    RetriedNotices(p, 0, s);
    var t := RetriedBetween(p, 0, s);
    OfKindAppend(t, [Invoke(s)], InvokeKind);
    OfKindAppend(t, [Invoke(s)], SleepKind);
    OfKindAppend(t, [Invoke(s)], NotifyKind);
    assert OfKind([Invoke(s)], InvokeKind) == [Invoke(s)];
    assert InvokesBetween(0, s) + [Invoke(s)] == InvokesBetween(0, s + 1);
  }

  /** The counts that follow: `s + 1` invocations, one sleep fewer, and as many
      notifications as sleeps when they are on, none when they are off. */
  lemma TraceCounts<T>(p: Policy, op: nat -> Attempt<T>)
    requires p.maxRetries >= 1
    ensures var s := LastAttempt(p, op, 0); var t := Wrapped(p, op).trace;
      && 1 <= |OfKind(t, InvokeKind)| == s + 1 <= p.maxRetries
      && |OfKind(t, SleepKind)| == |OfKind(t, InvokeKind)| - 1
      && |OfKind(t, NotifyKind)| == (if p.showNotification then |OfKind(t, SleepKind)| else 0)
  {
    Behaviour(p, op);
  }

  /** Every sleep lasts at most `maxDelay`, and no sleep is shorter than an
      earlier one. */
  lemma SleepsBoundedAndNonDecreasing<T>(p: Policy, op: nat -> Attempt<T>)
    ensures var sl := OfKind(Wrapped(p, op).trace, SleepKind);
      && (forall i :: 0 <= i < |sl| ==> sl[i].Sleep? && sl[i].ms <= p.maxDelay)
      && (forall i, j :: 0 <= i <= j < |sl| ==> sl[i].ms <= sl[j].ms)
  {
    if p.maxRetries >= 1 {
      Behaviour(p, op);
      SleepsBetweenOrdered(p, 0, LastAttempt(p, op, 0));
    } else {
      assert OfKind([], SleepKind) == [];
    }
  }

  /** The backoff sleeps of a range of attempts are capped and in order. */
  lemma SleepsBetweenOrdered(p: Policy, lo: nat, hi: nat)
    ensures var sl := SleepsBetween(p, lo, hi);
      && (forall i :: 0 <= i < |sl| ==> sl[i].Sleep? && sl[i].ms <= p.maxDelay)
      && (forall i, j :: 0 <= i <= j < |sl| ==> sl[i].ms <= sl[j].ms)
  {
    var sl := SleepsBetween(p, lo, hi);
    forall i, j | 0 <= i <= j < |sl|
      ensures sl[i].ms <= sl[j].ms
    {
      BackoffMonotone(p, lo + i, lo + j);
    }
  }

  /** If `t[i]` is a sleep, it follows the invocation whose failure it
      answers, directly or with only the notification in between, and the
      notification carries the retry number, the attempt limit and the sleep
      in whole seconds. */
  ghost predicate PauseWellPlaced(p: Policy, t: seq<Event>, i: nat)
    requires i < |t|
  {
    t[i].Sleep? ==>
      var g := if p.showNotification then 2 else 1;
      && g <= i
      && t[i - g].Invoke?
      && t[i] == Sleep(Backoff(p, t[i - g].attempt))
      && (p.showNotification ==>
            t[i - 1] == Notify(t[i - g].attempt + 1, p.maxRetries, RoundedSeconds(t[i].ms)))
  }

  ghost predicate PausesFollowAttempts(p: Policy, t: seq<Event>) {
    forall i :: 0 <= i < |t| ==> PauseWellPlaced(p, t, i)
  }

  lemma PauseWellPlacedShift(p: Policy, seg: seq<Event>, rest: seq<Event>, i: nat)
    requires |seg| <= i < |seg| + |rest|
    requires PauseWellPlaced(p, rest, i - |seg|)
    ensures PauseWellPlaced(p, seg + rest, i)
  {
  }

  lemma {:induction false} RetriedPausesFollowAttempts(p: Policy, lo: nat, hi: nat, s: nat)
    ensures PausesFollowAttempts(p, RetriedBetween(p, lo, hi) + [Invoke(s)])
    decreases hi - lo
  {
    if lo >= hi {
      assert RetriedBetween(p, lo, hi) + [Invoke(s)] == [Invoke(s)];
      assert PauseWellPlaced(p, [Invoke(s)], 0);
    } else {
      RetriedPausesFollowAttempts(p, lo + 1, hi, s);
      var seg := [Invoke(lo)] + Pause(p, lo);
      var rest := RetriedBetween(p, lo + 1, hi) + [Invoke(s)];
      var t := RetriedBetween(p, lo, hi) + [Invoke(s)];
      assert t == seg + rest;
      forall i | 0 <= i < |t|
        ensures PauseWellPlaced(p, t, i)
      {
        if i < |seg| {
          assert t[i] == seg[i];
          assert t[0] == Invoke(lo);
        } else {
          assert PauseWellPlaced(p, rest, i - |seg|);
          PauseWellPlacedShift(p, seg, rest, i);
        }
      }
    }
  }

  /** In every run, each sleep answers the attempt just before it. */
  lemma PausesInOrder<T>(p: Policy, op: nat -> Attempt<T>)
    ensures PausesFollowAttempts(p, Wrapped(p, op).trace)
  {
    if p.maxRetries >= 1 {
      var s := LastAttempt(p, op, 0);
      RunClosedForm(p, op, s);
      RetriedPausesFollowAttempts(p, 0, s, s);
    }
  }

  // ---------------------------------------------------------------------
  // The cases the wrapper is built for.
  // ---------------------------------------------------------------------

  /** With no attempt allowed the operation is never invoked, and the wrapper
      completes with nothing forwarded and no error. */
  lemma ZeroRetries<T>(p: Policy, op: nat -> Attempt<T>)
    requires p.maxRetries <= 0
    ensures Wrapped(p, op) == Run([], [], Done)
  {
  }

  /** A failure that is not a rate-limit failure, under a policy that does not
      retry all errors, reaches the caller unchanged after one invocation,
      with no notification and no sleep. */
  lemma ImmediateRethrow<T>(p: Policy, op: nat -> Attempt<T>)
    requires p.maxRetries >= 1 && !p.retryAllErrors
    requires op(0).end.Fail?
    requires op(0).end.error.message.None? ||
             forall i :: !OccursAt(op(0).end.error.message.value, "rate limit", i)
    requires op(0).end.error.status != Some(429)
    ensures Wrapped(p, op) == Run(op(0).elements, [Invoke(0)], Threw(op(0).end.error))
  {
  }

  /** When every allowed attempt fails in a way that is retried, the
      operation is invoked exactly `maxRetries` times and the caller gets the
      last attempt's error, unchanged. */
  lemma Exhaustion<T>(p: Policy, op: nat -> Attempt<T>)
    requires p.maxRetries >= 1
    requires forall k :: 0 <= k < p.maxRetries ==> op(k).end.Fail? && IsRetryable(p, op(k).end.error)
    ensures var r := Wrapped(p, op);
      && OfKind(r.trace, InvokeKind) == InvokesBetween(0, p.maxRetries)
      && |OfKind(r.trace, SleepKind)| == p.maxRetries - 1
      && r.result == Threw(op(p.maxRetries - 1).end.error)
      && r.emitted == YieldsBetween(op, 0, p.maxRetries)
  {
    var s := LastAttempt(p, op, 0);
    assert StopsFirstAt(p, op, 0, p.maxRetries - 1);
    StopsFirstAtUnique(p, op, 0, s, p.maxRetries - 1);
    Behaviour(p, op);
  }

  /** When attempt `k` succeeds after `k` retried failures, the wrapper is done
      after exactly `k + 1` invocations, and nothing follows the last one: no
      further notification and no further sleep. */
  lemma StopOnSuccess<T>(p: Policy, op: nat -> Attempt<T>, k: nat)
    requires k < p.maxRetries
    requires op(k).end.Success?
    requires forall j :: 0 <= j < k ==> op(j).end.Fail? && IsRetryable(p, op(j).end.error)
    ensures var r := Wrapped(p, op);
      && r.result == Done
      && r.trace == RetriedBetween(p, 0, k) + [Invoke(k)]
      && OfKind(r.trace, InvokeKind) == InvokesBetween(0, k + 1)
      && r.emitted == YieldsBetween(op, 0, k + 1)
  {
    assert StopsFirstAt(p, op, 0, k);
    StopsFirstAtUnique(p, op, 0, LastAttempt(p, op, 0), k);
    RunClosedForm(p, op, k);
    Behaviour(p, op);
  }

  lemma {:induction false} YieldsSplit<T>(op: nat -> Attempt<T>, lo: nat, mid: nat, hi: nat)
    requires lo <= mid <= hi
    ensures YieldsBetween(op, lo, hi) == YieldsBetween(op, lo, mid) + YieldsBetween(op, mid, hi)
    decreases mid - lo
  {
    if lo < mid {
      YieldsSplit(op, lo + 1, mid, hi);
    }
  }

  /** Elements forwarded before a failure are never taken back: what attempts
      0 to `j` yielded is a prefix of what the wrapper forwards, for every
      attempt `j` up to the one it stops at. */
  lemma NeverRetracted<T>(p: Policy, op: nat -> Attempt<T>, j: nat)
    requires p.maxRetries >= 1
    requires j <= LastAttempt(p, op, 0)
    ensures YieldsBetween(op, 0, j + 1) <= Wrapped(p, op).emitted
  {
    var s := LastAttempt(p, op, 0);
    Behaviour(p, op);
    YieldsSplit(op, 0, j + 1, s + 1);
  }

  /** The run described with the defaults: two 429 failures, then a success.
      Three invocations, two notifications (1 and 2 seconds), sleeps of 1000
      and 2000 ms, and every element of all three attempts forwarded. */
  lemma DefaultsTwoRateLimitsThenSuccess<T>(op: nat -> Attempt<T>)
    requires op(0).end == Fail(Error(None, Some(429)))
    requires op(1).end == Fail(Error(None, Some(429)))
    requires op(2).end == Success
    ensures var r := Wrapped(Resolve(NoOptions), op);
      && r.trace == [Invoke(0), Notify(1, 3, 1), Sleep(1000),
                     Invoke(1), Notify(2, 3, 2), Sleep(2000), Invoke(2)]
      && r.emitted == op(0).elements + op(1).elements + op(2).elements
      && r.result == Done
  {
  }
}
