/** The circuit breaker and the retry loop (core/resilience.py). Clock readings are reals. */
module Resilience {
  import opened Prelude

  datatype Mode = Closed | Open | HalfOpen

  datatype Config = Config(threshold: int, cooldown: real)

  /** `_BreakerState`, without the last error text. */
  datatype Breaker = Breaker(
    mode: Mode,
    failures: nat,
    openedAt: Option<real>,
    nextProbeAt: Option<real>,
    inFlightProbe: bool)

  const FRESH := Breaker(Closed, 0, None, None, false)

  datatype Verdict = Admitted | AdmittedAsProbe | Rejected

  function Opened(cfg: Config, b: Breaker, now: real): Breaker {
    b.(mode := Open, openedAt := Some(now), nextProbeAt := Some(now + cfg.cooldown))
  }

  function AfterFailure(cfg: Config, b: Breaker, now: real): Breaker {
    var counted := b.(failures := b.failures + 1);
    var moved :=
      if counted.mode.HalfOpen? || (counted.mode.Closed? && counted.failures >= cfg.threshold)
      then Opened(cfg, counted, now)
      else counted;
    moved.(inFlightProbe := false)
  }

  function AfterSuccess(b: Breaker): Breaker {
    b.(mode := Closed, failures := 0, openedAt := None, nextProbeAt := None, inFlightProbe := false)
  }

  function Judge(b: Breaker, now: real): Verdict {
    match b.mode
    case Closed => Admitted
    case Open =>
      if b.nextProbeAt.Some? && now >= b.nextProbeAt.value && !b.inFlightProbe then AdmittedAsProbe else Rejected
    case HalfOpen => Rejected
  }

  function AfterJudge(b: Breaker, now: real): Breaker {
    if Judge(b, now).AdmittedAsProbe? then b.(mode := HalfOpen, inFlightProbe := true) else b
  }

  function AfterProbeExit(b: Breaker): Breaker { b.(inFlightProbe := false) }

  /** Each method is one critical section under the breaker's lock. */
  class CircuitBreaker {
    const cfg: Config
    var mode: Mode
    var consecutiveFailures: nat
    var openedAt: Option<real>
    var nextProbeAt: Option<real>
    var inFlightProbe: bool

    constructor (threshold: int, cooldown: real)
      ensures cfg == Config(threshold, cooldown) && State() == FRESH
    {
      cfg := Config(threshold, cooldown);
      mode, consecutiveFailures, openedAt, nextProbeAt, inFlightProbe := Closed, 0, None, None, false;
    }

    function State(): Breaker
      reads this
    {
      Breaker(mode, consecutiveFailures, openedAt, nextProbeAt, inFlightProbe)
    }

    method OpenLocked(now: real)
      modifies this
      ensures State() == Opened(cfg, old(State()), now)
    {
      mode := Open;
      openedAt := Some(now);
      nextProbeAt := Some(now + cfg.cooldown);
    }

    method RecordFailure(now: real)
      modifies this
      ensures State() == AfterFailure(cfg, old(State()), now)
    {
      consecutiveFailures := consecutiveFailures + 1;
      if mode.HalfOpen? {
        OpenLocked(now);
      } else if mode.Closed? && consecutiveFailures >= cfg.threshold {
        OpenLocked(now);
      }
      inFlightProbe := false;
    }

    method RecordSuccess()
      modifies this
      ensures State() == AfterSuccess(old(State()))
    {
      consecutiveFailures := 0;
      mode := Closed;
      openedAt := None;
      nextProbeAt := None;
      inFlightProbe := false;
    }

    /** The entry half of `acquire_admission`. */
    method Acquire(now: real) returns (v: Verdict)
      modifies this
      ensures v == Judge(old(State()), now) && State() == AfterJudge(old(State()), now)
    {
      if mode.Open? {
        if nextProbeAt.Some? && now >= nextProbeAt.value && !inFlightProbe {
          mode := HalfOpen;
          inFlightProbe := true;
          return AdmittedAsProbe;
        }
        return Rejected;
      } else if mode.HalfOpen? {
        return Rejected;
      }
      return Admitted;
    }

    /** The exit half: only a probe touches the breaker. */
    method Release(v: Verdict)
      modifies this
      ensures State() == if v.AdmittedAsProbe? then AfterProbeExit(old(State())) else old(State())
    {
      if v.AdmittedAsProbe? {
        inFlightProbe := false;
      }
    }
  }

  // -------------------------------------------------------------- retries

  /** What a wrapped call can raise. Cancellation is not an `Exception` in the source. */
  datatype Fault = Exc(name: string) | Status(code: int) | BreakerOpen | Cancelled

  datatype Outcome = Return(value: int) | Raise(fault: Fault)

  datatype RetryPolicy = RetryPolicy(
    maxAttempts: int,
    retryableStatusCodes: set<int>,
    retryableExceptions: set<string>)

  const DEFAULT_HTTP_RETRY_POLICY := RetryPolicy(
    3,
    {408, 425, 429, 500, 502, 503, 504},
    {"ConnectTimeout", "ReadTimeout", "WriteTimeout", "PoolTimeout", "ConnectError", "RemoteProtocolError"})

  predicate IsRetryable(f: Fault, policy: RetryPolicy) {
    match f
    case Exc(name) => name in policy.retryableExceptions
    case Status(code) => code in policy.retryableStatusCodes
    case _ => false
  }

  predicate IsAvailabilityFailure(f: Fault, policy: RetryPolicy) {
    IsRetryable(f, policy) || f.BreakerOpen?
  }

  predicate WantsRetry(o: Outcome, policy: RetryPolicy) {
    o.Raise? && IsRetryable(o.fault, policy)
  }

  /** How often the wrapped function runs, given what its runs would produce. */
  function AttemptsFrom(policy: RetryPolicy, tries: nat -> Outcome, n: nat): (k: nat)
    requires n >= 1
    ensures k >= n
    decreases policy.maxAttempts - n
  {
    if WantsRetry(tries(n - 1), policy) && n < policy.maxAttempts
    then AttemptsFrom(policy, tries, n + 1)
    else n
  }

  lemma {:induction false} AttemptsShape(policy: RetryPolicy, tries: nat -> Outcome, n: nat)
    requires n >= 1
    ensures var k := AttemptsFrom(policy, tries, n);
      && k <= Max(n, policy.maxAttempts)
      && (forall i :: n - 1 <= i < k - 1 ==> WantsRetry(tries(i), policy))
      && (WantsRetry(tries(k - 1), policy) ==> k >= policy.maxAttempts)
    decreases policy.maxAttempts - n
  {
    if WantsRetry(tries(n - 1), policy) && n < policy.maxAttempts {
      AttemptsShape(policy, tries, n + 1);
    }
  }

  /** The retry loop's guard decides one attempt at a time. */
  lemma AttemptsStep(policy: RetryPolicy, tries: nat -> Outcome, n: nat)
    requires n >= 1
    ensures AttemptsFrom(policy, tries, n)
         == if WantsRetry(tries(n - 1), policy) && n < policy.maxAttempts then AttemptsFrom(policy, tries, n + 1) else n
  {
  }

  function Attempts(policy: RetryPolicy, tries: nat -> Outcome): (k: nat)
    ensures k >= 1
  {
    AttemptsFrom(policy, tries, 1)
  }

  function Final(policy: RetryPolicy, tries: nat -> Outcome): Outcome {
    tries(Attempts(policy, tries) - 1)
  }

  datatype Update = Success | Failure | Untouched

  /** The one breaker update a guarded call makes. */
  function UpdateFor(policy: RetryPolicy, o: Outcome): Update {
    match o
    case Return(_) => Success
    case Raise(f) => if IsAvailabilityFailure(f, policy) then Failure else Untouched
  }

  function AfterUpdate(cfg: Config, b: Breaker, u: Update, now: real): Breaker {
    match u
    case Success => AfterSuccess(b)
    case Failure => AfterFailure(cfg, b, now)
    case Untouched => b
  }

  /** The retry loop stops at the first outcome it may not retry, or at the attempt limit: exactly. */
  lemma RetryStopsExactly(policy: RetryPolicy, tries: nat -> Outcome, k: nat)
    requires k >= 1
    ensures Attempts(policy, tries) == k
       <==> && k <= Max(1, policy.maxAttempts)
            && (forall i :: 0 <= i < k - 1 ==> WantsRetry(tries(i), policy))
            && (k < policy.maxAttempts ==> !WantsRetry(tries(k - 1), policy))
  {
    var n := Attempts(policy, tries);
    AttemptsShape(policy, tries, 1);
    if k < n {
      assert WantsRetry(tries(k - 1), policy);
    }
  }

  /** Hitting another breaker that is open is never retried, yet counts against this breaker, under every policy. */
  lemma NestedRejectionCountsOnce(policy: RetryPolicy, tries: nat -> Outcome)
    requires tries(0) == Raise(BreakerOpen)
    ensures Attempts(policy, tries) == 1 && UpdateFor(policy, Final(policy, tries)) == Failure
  {
    AttemptsStep(policy, tries, 1);
  }

  /** `_run_with_retry`: the loop, then one update. */
  method RunWithRetry(breaker: CircuitBreaker, policy: RetryPolicy, tries: nat -> Outcome, finish: real)
    returns (o: Outcome, ghost attempts: nat)
    modifies breaker
    ensures attempts == Attempts(policy, tries) && o == Final(policy, tries)
    ensures breaker.State() == AfterUpdate(breaker.cfg, old(breaker.State()), UpdateFor(policy, o), finish)
  {
    hide AttemptsFrom;
    var n := 1;
    o := tries(0);
    while WantsRetry(o, policy) && n < policy.maxAttempts
      invariant n >= 1 && o == tries(n - 1)
      invariant Attempts(policy, tries) == AttemptsFrom(policy, tries, n)
      invariant breaker.State() == old(breaker.State())
      decreases policy.maxAttempts - n
    {
      AttemptsStep(policy, tries, n);
      o := tries(n);
      n := n + 1;
    }
    AttemptsStep(policy, tries, n);
    attempts := n;
    match o {
      case Return(_) => breaker.RecordSuccess();
      case Raise(f) =>
        if IsAvailabilityFailure(f, policy) {
          breaker.RecordFailure(finish);
        }
    }
  }

  /** The breaker after one whole call through `resilient_http`, with no other caller in between. */
  function AfterGuarded(cfg: Config, b: Breaker, policy: RetryPolicy, tries: nat -> Outcome, arrive: real,
      finish: real): Breaker {
    if Judge(b, arrive).Rejected? then b
    else
      var done := AfterUpdate(cfg, AfterJudge(b, arrive), UpdateFor(policy, Final(policy, tries)), finish);
      if Judge(b, arrive).AdmittedAsProbe? then AfterProbeExit(done) else done
  }

  method GuardedCall(breaker: CircuitBreaker, policy: RetryPolicy, tries: nat -> Outcome, arrive: real, finish: real)
    returns (o: Outcome, ghost attempts: nat)
    modifies breaker
    ensures breaker.State() == AfterGuarded(breaker.cfg, old(breaker.State()), policy, tries, arrive, finish)
    ensures Judge(old(breaker.State()), arrive).Rejected? ==> o == Raise(BreakerOpen) && attempts == 0
    ensures !Judge(old(breaker.State()), arrive).Rejected? ==>
        o == Final(policy, tries) && attempts == Attempts(policy, tries)
  {
    var v := breaker.Acquire(arrive);
    if v.Rejected? {
      return Raise(BreakerOpen), 0;
    }
    o, attempts := RunWithRetry(breaker, policy, tries, finish);
    breaker.Release(v);
  }

  /** A lone probe leaves the breaker half-open exactly when it ends without a verdict on availability. */
  lemma ProbeWedgesExactly(cfg: Config, b: Breaker, policy: RetryPolicy, tries: nat -> Outcome, arrive: real,
      finish: real)
    requires Judge(b, arrive).AdmittedAsProbe?
    ensures AfterGuarded(cfg, b, policy, tries, arrive, finish).mode.HalfOpen?
       <==> var o := Final(policy, tries); o.Raise? && !IsAvailabilityFailure(o.fault, policy)
    ensures AfterGuarded(cfg, b, policy, tries, arrive, finish).mode.HalfOpen?
        ==> forall t :: Judge(AfterGuarded(cfg, b, policy, tries, arrive, finish), t).Rejected?
  {
  }

  /**
   * A whole call, from any state of the breaker: rejected, it changes nothing; otherwise a result
   * closes the breaker, a fault of availability adds a failure and opens it if it was half-open or has
   * reached the threshold, and any other fault changes nothing but the probe flag, which a probe clears.
   */
  lemma GuardedExactly(cfg: Config, b: Breaker, policy: RetryPolicy, tries: nat -> Outcome, arrive: real, finish: real)
    ensures var v, o, after :=
        Judge(b, arrive), Final(policy, tries), AfterGuarded(cfg, b, policy, tries, arrive, finish);
      if v.Rejected? then after == b
      else if o.Return? then after == FRESH
      else if IsAvailabilityFailure(o.fault, policy) then
        && after.failures == b.failures + 1 && !after.inFlightProbe
        && if v.AdmittedAsProbe? || b.failures + 1 >= cfg.threshold
           then after.mode.Open? && after.openedAt == Some(finish) && after.nextProbeAt == Some(finish + cfg.cooldown)
           else after.mode.Closed? && after.openedAt == b.openedAt && after.nextProbeAt == b.nextProbeAt
      else if v.AdmittedAsProbe? then after == b.(mode := HalfOpen, inFlightProbe := false)
      else after == b
  {
  }
}
