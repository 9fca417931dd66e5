/** The options a caller passes to the retry wrapper, the defaults, and how
    the two are merged into the policy one wrapper runs with. */
module RetryConfig {

  datatype Option<+T> = None | Some(value: T) {

    /** The value carried, or the given default when there is none. */
    function GetOr(default: T): (r: T)
      ensures Some? ==> r == value
      ensures None? ==> r == default
    {
      match this
      case Some(v) => v
      case None => default
    }
  }

  /** What a caller may supply; a field the caller leaves out is None. */
  datatype RetryOptions = RetryOptions(
    maxRetries: Option<int>,
    baseDelay: Option<nat>,
    maxDelay: Option<nat>,
    retryAllErrors: Option<bool>,
    showNotification: Option<bool>)

  /** The resolved policy: every field has a value. Delays are in milliseconds. */
  datatype Policy = Policy(
    maxRetries: int,
    baseDelay: nat,
    maxDelay: nat,
    retryAllErrors: bool,
    showNotification: bool)

  /** The options of a caller that supplies nothing. */
  const NoOptions := RetryOptions(None, None, None, None, None)

  /** The defaults the wrapper falls back on. */
  const DefaultPolicy := Policy(3, 1000, 10000, false, true)

  /** Merges the caller's options over the defaults: a supplied field wins,
      a missing one takes its default. */
  function Resolve(o: RetryOptions): (p: Policy)
    ensures o.maxRetries.Some? ==> p.maxRetries == o.maxRetries.value
    ensures o.maxRetries.None? ==> p.maxRetries == 3
    ensures o.baseDelay.Some? ==> p.baseDelay == o.baseDelay.value
    ensures o.baseDelay.None? ==> p.baseDelay == 1000
    ensures o.maxDelay.Some? ==> p.maxDelay == o.maxDelay.value
    ensures o.maxDelay.None? ==> p.maxDelay == 10000
    ensures o.retryAllErrors.Some? ==> p.retryAllErrors == o.retryAllErrors.value
    ensures o.retryAllErrors.None? ==> !p.retryAllErrors
    ensures o.showNotification.Some? ==> p.showNotification == o.showNotification.value
    ensures o.showNotification.None? ==> p.showNotification
  {
    Policy(
      o.maxRetries.GetOr(DefaultPolicy.maxRetries),
      o.baseDelay.GetOr(DefaultPolicy.baseDelay),
      o.maxDelay.GetOr(DefaultPolicy.maxDelay),
      o.retryAllErrors.GetOr(DefaultPolicy.retryAllErrors),
      o.showNotification.GetOr(DefaultPolicy.showNotification))
  }

  /** The options that supply every field of the given policy. */
  function Supplying(p: Policy): (o: RetryOptions)
    ensures o.maxRetries.Some? && o.baseDelay.Some? && o.maxDelay.Some?
    ensures o.retryAllErrors.Some? && o.showNotification.Some?
  {
    RetryOptions(Some(p.maxRetries), Some(p.baseDelay), Some(p.maxDelay),
                 Some(p.retryAllErrors), Some(p.showNotification))
  }

  /** Supplying nothing gives exactly the defaults. */
  lemma ResolveNothing()
    ensures Resolve(NoOptions) == Policy(3, 1000, 10000, false, true)
  {
  }

  /** Supplying every field gives exactly what was supplied: the defaults
      never override a caller's choice. */
  lemma ResolveSupplied(p: Policy)
    ensures Resolve(Supplying(p)) == p
  {
  }
}
