/** The breaker shared by concurrent callers: every run, not one call. */
module BreakerRuns {
  import opened Prelude
  import opened Resilience

  /** An admitted caller: was it the probe, and has it reported to the breaker yet? */
  datatype Caller = Caller(probe: bool, reported: bool)

  /** What an observer sees, in order. `Trip` marks each move to open. */
  datatype Entry = Admit(at: real, probe: bool) | Reject(at: real) | Good(at: real) | Bad(at: real) | Trip(at: real)

  datatype System = System(b: Breaker, clock: real, callers: map<nat, Caller>, log: seq<Entry>)

  /**
   * The steps of the interleaving. Each is one critical section under the breaker's lock, or the
   * passage of time. `Leave` without a report is a cancellation or a fault that says nothing about
   * availability. A step that does not apply changes nothing.
   */
  datatype Event =
    | Tick(dt: real)
    | Arrive(id: nat)
    | Succeed(id: nat)
    | Fail(id: nat)
    | Leave(id: nat)

  function Init(start: real): System { System(FRESH, start, map[], []) }

  predicate CanReport(s: System, id: nat) { id in s.callers && !s.callers[id].reported }

  function Step(cfg: Config, s: System, e: Event): System {
    match e
    case Tick(dt) => if dt > 0.0 then s.(clock := s.clock + dt) else s
    case Arrive(id) =>
      if id in s.callers then s
      else
        var v := Judge(s.b, s.clock);
        if v.Rejected? then s.(log := s.log + [Reject(s.clock)])
        else
          s.(b := AfterJudge(s.b, s.clock),
             callers := s.callers[id := Caller(v.AdmittedAsProbe?, false)],
             log := s.log + [Admit(s.clock, v.AdmittedAsProbe?)])
    case Succeed(id) =>
      if !CanReport(s, id) then s
      else
        s.(b := AfterSuccess(s.b),
           callers := s.callers[id := s.callers[id].(reported := true)],
           log := s.log + [Good(s.clock)])
    case Fail(id) =>
      if !CanReport(s, id) then s
      else
        var b := AfterFailure(cfg, s.b, s.clock);
        s.(b := b,
           callers := s.callers[id := s.callers[id].(reported := true)],
           log := s.log + [Bad(s.clock)] + (if b.mode.Open? && !s.b.mode.Open? then [Trip(s.clock)] else []))
    case Leave(id) =>
      if id !in s.callers then s
      else
        s.(b := if s.callers[id].probe then AfterProbeExit(s.b) else s.b,
           callers := s.callers - {id})
  }

  function Run(cfg: Config, s: System, es: seq<Event>): System
    decreases |es|
  {
    if es == [] then s else Run(cfg, Step(cfg, s, es[0]), es[1..])
  }

  // ------------------------------------------------- what the log says

  /** Failures reported since the last success. */
  function FailureStreak(log: seq<Entry>): nat {
    if log == [] then 0
    else
      var n := FailureStreak(log[..|log| - 1]);
      match log[|log| - 1]
      case Good(_) => 0
      case Bad(_) => n + 1
      case _ => n
  }

  /** When the breaker first opened since the last success. */
  function OpeningTime(log: seq<Entry>): Option<real> {
    if log == [] then None
    else
      var before := OpeningTime(log[..|log| - 1]);
      match log[|log| - 1]
      case Good(_) => None
      case Trip(t) => if before.None? then Some(t) else before
      case _ => before
  }

  /** Admission times since that opening. */
  function AdmittedSinceOpening(log: seq<Entry>): seq<real> {
    if log == [] then []
    else
      var before := AdmittedSinceOpening(log[..|log| - 1]);
      match log[|log| - 1]
      case Good(_) => []
      case Admit(t, _) => if OpeningTime(log[..|log| - 1]).Some? then before + [t] else before
      case _ => before
  }

  /** Admissions since the last move to open: the current cooldown plus half-open epoch. */
  function AdmittedThisEpoch(log: seq<Entry>): nat {
    if log == [] then 0
    else
      var n := AdmittedThisEpoch(log[..|log| - 1]);
      match log[|log| - 1]
      case Good(_) => 0
      case Trip(_) => 0
      case Admit(_, _) => if OpeningTime(log[..|log| - 1]).Some? then n + 1 else n
      case _ => n
  }

  /** Each admission comes at least one cooldown after the one before, the first after the opening. */
  predicate Spaced(opening: real, admits: seq<real>, cooldown: real) {
    && (admits != [] ==> admits[0] >= opening + cooldown)
    && forall i :: 0 <= i < |admits| - 1 ==> admits[i + 1] >= admits[i] + cooldown
  }

  predicate BreakerInv(cfg: Config, b: Breaker) {
    && (b.mode.Closed? <==> b.failures < cfg.threshold)
    && (b.mode.Closed? <==> b.openedAt.None?)
    && (b.mode.Closed? <==> b.nextProbeAt.None?)
    && (b.inFlightProbe ==> b.mode.HalfOpen?)
    && (b.openedAt.Some? ==> b.nextProbeAt == Some(b.openedAt.value + cfg.cooldown))
  }

  predicate LogInv(cfg: Config, s: System) {
    var opening, admits := OpeningTime(s.log), AdmittedSinceOpening(s.log);
    && s.b.failures == FailureStreak(s.log)
    && (s.b.mode.Closed? <==> opening.None?)
    && AdmittedThisEpoch(s.log) == (if s.b.mode.HalfOpen? then 1 else 0)
    && (opening.None? ==> admits == [])
    && (opening.Some? ==>
          && opening.value <= s.clock
          && Spaced(opening.value, admits, cfg.cooldown)
          && (admits != [] ==> admits[|admits| - 1] <= s.clock)
          && s.b.openedAt.Some?
          && s.b.openedAt.value <= s.clock
          && opening.value <= s.b.openedAt.value
          && (s.b.mode.Open? && admits != [] ==> admits[|admits| - 1] <= s.b.openedAt.value)
          && (s.b.mode.HalfOpen? ==> admits != []))
  }

  predicate Sane(cfg: Config) { cfg.threshold >= 1 && cfg.cooldown > 0.0 }

  lemma Appended(log: seq<Entry>, e: Entry)
    ensures var opening, admits := OpeningTime(log), AdmittedSinceOpening(log);
      && FailureStreak(log + [e]) == (if e.Good? then 0 else FailureStreak(log) + if e.Bad? then 1 else 0)
      && OpeningTime(log + [e]) == (if e.Good? then None else if e.Trip? && opening.None? then Some(e.at) else opening)
      && AdmittedSinceOpening(log + [e])
         == (if e.Good? then [] else if e.Admit? && opening.Some? then admits + [e.at] else admits)
      && AdmittedThisEpoch(log + [e])
         == (if e.Good? || e.Trip? then 0 else AdmittedThisEpoch(log) + if e.Admit? && opening.Some? then 1 else 0)
  {
    assert (log + [e])[..|log|] == log;
  }

  lemma StepKeepsInv(cfg: Config, s: System, e: Event)
    requires Sane(cfg) && BreakerInv(cfg, s.b) && LogInv(cfg, s)
    ensures BreakerInv(cfg, Step(cfg, s, e).b) && LogInv(cfg, Step(cfg, s, e))
  {
    hide FailureStreak, OpeningTime, AdmittedSinceOpening, AdmittedThisEpoch;
    match e {
      case Arrive(_) =>
        Appended(s.log, Reject(s.clock));
        Appended(s.log, Admit(s.clock, Judge(s.b, s.clock).AdmittedAsProbe?));
      case Succeed(_) =>
        Appended(s.log, Good(s.clock));
      case Fail(_) =>
        Appended(s.log, Bad(s.clock));
        Appended(s.log + [Bad(s.clock)], Trip(s.clock));
        assert s.log + [Bad(s.clock)] + [] == s.log + [Bad(s.clock)];
      case _ =>
    }
  }

  lemma {:induction false} RunKeepsInv(cfg: Config, s: System, es: seq<Event>)
    requires Sane(cfg) && BreakerInv(cfg, s.b) && LogInv(cfg, s)
    ensures BreakerInv(cfg, Run(cfg, s, es).b) && LogInv(cfg, Run(cfg, s, es))
    decreases |es|
  {
    if es == [] {
    } else {
      StepKeepsInv(cfg, s, es[0]);
      RunKeepsInv(cfg, Step(cfg, s, es[0]), es[1..]);
    }
  }

  /**
   * The breaker invariant, over every interleaving of a fresh breaker: closed iff the failure
   * streak is under the threshold iff both timestamps are unset; the counter is the streak since
   * the last success; a half-open epoch has admitted exactly one caller and an open one none;
   * admissions since the opening are at least a cooldown apart.
   */
  lemma EveryRun(cfg: Config, start: real, es: seq<Event>)
    requires Sane(cfg)
    ensures var s := Run(cfg, Init(start), es);
      && (s.b.mode.Closed? <==> s.b.failures < cfg.threshold)
      && (s.b.mode.Closed? <==> s.b.openedAt.None?)
      && (s.b.mode.Closed? <==> s.b.nextProbeAt.None?)
      && (s.b.inFlightProbe ==> s.b.mode.HalfOpen?)
      && s.b.failures == FailureStreak(s.log)
      && (s.b.mode.Closed? <==> OpeningTime(s.log).None?)
      && AdmittedThisEpoch(s.log) == (if s.b.mode.HalfOpen? then 1 else 0)
      && (OpeningTime(s.log).Some? ==> Spaced(OpeningTime(s.log).value, AdmittedSinceOpening(s.log), cfg.cooldown))
  {
    RunKeepsInv(cfg, Init(start), es);
  }

  // ------------------------------------------------------- load bounds

  function CountWithin(times: seq<real>, lo: real, hi: real): nat {
    if times == [] then 0
    else CountWithin(times[..|times| - 1], lo, hi) + (if lo <= times[|times| - 1] <= hi then 1 else 0)
  }

  lemma {:induction false} SpacedGap(opening: real, admits: seq<real>, cooldown: real, i: nat, n: nat)
    requires Spaced(opening, admits, cooldown) && i + n < |admits|
    ensures admits[i + n] >= admits[i] + n as real * cooldown
  {
    if n == 0 {
    } else {
      SpacedGap(opening, admits, cooldown, i, n - 1);
      assert n as real * cooldown == (n - 1) as real * cooldown + cooldown;
    }
  }

  /** A window that catches n admissions of a spaced sequence catches two that are n - 1 cooldowns apart. */
  lemma {:induction false} WindowSpread(opening: real, admits: seq<real>, cooldown: real, lo: real, hi: real)
    returns (i: nat, j: nat)
    requires cooldown > 0.0 && Spaced(opening, admits, cooldown) && CountWithin(admits, lo, hi) >= 1
    ensures i <= j < |admits| && lo <= admits[i] && admits[j] <= hi
    ensures j - i >= CountWithin(admits, lo, hi) - 1
    ensures j >= CountWithin(admits, lo, hi) - 1
  {
    var init, last := admits[..|admits| - 1], |admits| - 1;
    if CountWithin(init, lo, hi) == 0 {
      i, j := last, last;
    } else {
      i, j := WindowSpread(opening, init, cooldown, lo, hi);
      if lo <= admits[last] <= hi {
        j := last;
      }
    }
  }

  lemma MulGrows(x: real, y: real, c: real)
    requires x > y && c > 0.0
    ensures x * c > y * c
  {
    assert (x - y) * c > 0.0;
  }

  /** n cooldowns fit into t seconds only if n is at most floor(t / cooldown). */
  lemma FloorBound(n: int, t: real, cooldown: real)
    requires cooldown > 0.0 && n as real * cooldown <= t
    ensures n <= (t / cooldown).Floor
  {
    if n as real > t / cooldown {
      MulGrows(n as real, t / cooldown, cooldown);
    }
  }

  lemma FewerCooldowns(n: int, m: int, cooldown: real, t: real)
    requires n <= m && cooldown > 0.0 && m as real * cooldown <= t
    ensures n as real * cooldown <= t
  {
    if n < m {
      MulGrows(m as real, n as real, cooldown);
    }
  }

  lemma SpacedLoadAnywhere(opening: real, admits: seq<real>, cooldown: real, lo: real, T: real)
    requires cooldown > 0.0 && Spaced(opening, admits, cooldown) && T >= 0.0
    ensures CountWithin(admits, lo, lo + T) <= (T / cooldown).Floor + 1
  {
    var n := CountWithin(admits, lo, lo + T);
    if n >= 1 {
      var i, j := WindowSpread(opening, admits, cooldown, lo, lo + T);
      var gap := j - i;
      SpacedGap(opening, admits, cooldown, i, gap);
      assert admits[i] + gap as real * cooldown <= admits[j];
      FewerCooldowns(n - 1, gap, cooldown, T);
      FloorBound(n - 1, T, cooldown);
    } else {
      FloorBound(0, T, cooldown);
    }
  }

  lemma SpacedLoadSinceOpening(opening: real, admits: seq<real>, cooldown: real, T: real)
    requires cooldown > 0.0 && Spaced(opening, admits, cooldown) && T >= 0.0
    ensures CountWithin(admits, opening, opening + T) <= (T / cooldown).Floor
  {
    var n := CountWithin(admits, opening, opening + T);
    if n >= 1 {
      var _, j := WindowSpread(opening, admits, cooldown, opening, opening + T);
      SpacedGap(opening, admits, cooldown, 0, j);
      OneMoreCooldown(j, cooldown, T);
      FewerCooldowns(n, j + 1, cooldown, T);
      FloorBound(n, T, cooldown);
    } else {
      FloorBound(0, T, cooldown);
    }
  }

  lemma OneMoreCooldown(j: int, cooldown: real, t: real)
    requires cooldown + j as real * cooldown <= t
    ensures (j + 1) as real * cooldown <= t
  {
    assert (j as real + 1.0) * cooldown == j as real * cooldown + cooldown;
  }

  /**
   * Load bound, over every interleaving. From the moment the breaker opens until the next recorded
   * success, at most floor(T / cooldown) calls are admitted in the first T seconds; in a window of
   * T seconds placed anywhere, at most one more.
   */
  lemma LoadBound(cfg: Config, start: real, es: seq<Event>, lo: real, T: real)
    requires Sane(cfg) && T >= 0.0
    ensures var log := Run(cfg, Init(start), es).log;
      OpeningTime(log).Some? ==>
        && CountWithin(AdmittedSinceOpening(log), OpeningTime(log).value, OpeningTime(log).value + T)
            <= (T / cfg.cooldown).Floor
        && CountWithin(AdmittedSinceOpening(log), lo, lo + T) <= (T / cfg.cooldown).Floor + 1
  {
    RunKeepsInv(cfg, Init(start), es);
    var log := Run(cfg, Init(start), es).log;
    if OpeningTime(log).Some? {
      SpacedLoadSinceOpening(OpeningTime(log).value, AdmittedSinceOpening(log), cfg.cooldown, T);
      SpacedLoadAnywhere(OpeningTime(log).value, AdmittedSinceOpening(log), cfg.cooldown, lo, T);
    }
  }

  // ------------------------------------------- work done against a dead backend

  /** One sequential guarded call: when it arrives and ends, and what each attempt would produce. */
  datatype Call = Call(arrive: real, finish: real, tries: nat -> Outcome)

  /** How often the wrapped functions run over a sequence of calls, one after another. */
  function Executions(cfg: Config, policy: RetryPolicy, b: Breaker, calls: seq<Call>): nat
    decreases |calls|
  {
    if calls == [] then 0
    else
      var c := calls[0];
      (if Judge(b, c.arrive).Rejected? then 0 else Attempts(policy, c.tries))
      + Executions(cfg, policy, AfterGuarded(cfg, b, policy, c.tries, c.arrive, c.finish), calls[1..])
  }

  /** Calls follow one another from time t and arrive no later than the horizon. */
  predicate Sequential(calls: seq<Call>, t: real, horizon: real)
    decreases |calls|
  {
    calls == [] ||
    (t <= calls[0].arrive <= horizon && calls[0].arrive <= calls[0].finish
        && Sequential(calls[1..], calls[0].finish, horizon))
  }

  ghost predicate AlwaysDown(policy: RetryPolicy, calls: seq<Call>) {
    forall c, i: nat | c in calls :: c.tries(i).Raise? && IsAvailabilityFailure(c.tries(i).fault, policy)
  }

  function Cooldowns(cfg: Config, span: real): int
    requires cfg.cooldown > 0.0
  {
    if span < 0.0 then 0 else (span / cfg.cooldown).Floor
  }

  /** Admissions still possible until the horizon if every call fails. */
  function Budget(cfg: Config, b: Breaker, t: real, horizon: real): int
    requires Sane(cfg) && BreakerInv(cfg, b)
  {
    if b.mode.Closed? then cfg.threshold - b.failures + Cooldowns(cfg, horizon - t)
    else Cooldowns(cfg, horizon - (b.nextProbeAt.value - cfg.cooldown))
  }

  lemma OneMoreQuotient(x: real, c: real)
    requires c > 0.0
    ensures (x + c) / c == x / c + 1.0
  {
    var r, q := (x + c) / c, x / c + 1.0;
    assert r * c == x + c;
    assert (x / c + 1.0) * c == x / c * c + c;
    if r > q {
      MulGrows(r, q, c);
    } else if q > r {
      MulGrows(q, r, c);
    }
  }

  lemma CooldownsShrink(cfg: Config, small: real, big: real)
    requires cfg.cooldown > 0.0 && small <= big
    ensures 0 <= Cooldowns(cfg, small) <= Cooldowns(cfg, big)
    ensures small >= 0.0 ==> Cooldowns(cfg, small + cfg.cooldown) == Cooldowns(cfg, small) + 1
  {
    if small >= 0.0 {
      FloorBound(0, small, cfg.cooldown);
      OneMoreQuotient(small, cfg.cooldown);
      if small / cfg.cooldown > big / cfg.cooldown {
        MulGrows(small / cfg.cooldown, big / cfg.cooldown, cfg.cooldown);
      }
    } else if big >= 0.0 {
      FloorBound(0, big, cfg.cooldown);
    }
  }

  /** One failing call uses up at most the admissions it takes. */
  lemma FailingCallCost(cfg: Config, policy: RetryPolicy, b: Breaker, c: Call, t: real, horizon: real)
    requires Sane(cfg) && BreakerInv(cfg, b) && !b.mode.HalfOpen?
    requires t <= c.arrive <= horizon && c.arrive <= c.finish
    requires forall i: nat :: c.tries(i).Raise? && IsAvailabilityFailure(c.tries(i).fault, policy)
    ensures var after := AfterGuarded(cfg, b, policy, c.tries, c.arrive, c.finish);
      && BreakerInv(cfg, after) && !after.mode.HalfOpen?
      && Budget(cfg, after, c.finish, horizon) + (if Judge(b, c.arrive).Rejected? then 0 else 1)
          <= Budget(cfg, b, t, horizon)
  {
    CooldownsShrink(cfg, horizon - c.finish, horizon - t);
    if b.mode.Open? && !Judge(b, c.arrive).Rejected? {
      CooldownsShrink(cfg, horizon - c.finish, horizon - b.nextProbeAt.value);
      CooldownsShrink(cfg, horizon - b.nextProbeAt.value, horizon - b.nextProbeAt.value);
    }
  }

  /**
   * Against a backend that is always down, sequential callers starting at time t with a fresh
   * breaker run the wrapped function at most max_attempts * (threshold + floor(T / cooldown))
   * times in T seconds. A max_attempts below one still means one attempt.
   */
  lemma {:induction false} WorkAgainstDeadBackend(cfg: Config, policy: RetryPolicy, calls: seq<Call>, t: real, T: real)
    requires Sane(cfg) && T >= 0.0
    requires Sequential(calls, t, t + T) && AlwaysDown(policy, calls)
    ensures Executions(cfg, policy, FRESH, calls)
        <= Max(1, policy.maxAttempts) * (cfg.threshold + (T / cfg.cooldown).Floor)
  {
    WorkWithin(cfg, policy, FRESH, calls, t, t + T);
    assert t + T - t == T;
  }

  lemma {:induction false} WorkWithin(cfg: Config, policy: RetryPolicy, b: Breaker, calls: seq<Call>, t: real,
      horizon: real)
    requires Sane(cfg) && BreakerInv(cfg, b) && !b.mode.HalfOpen?
    requires Sequential(calls, t, horizon) && AlwaysDown(policy, calls)
    ensures Executions(cfg, policy, b, calls) <= Max(1, policy.maxAttempts) * Budget(cfg, b, t, horizon)
    decreases |calls|
  {
    var m := Max(1, policy.maxAttempts);
    if calls == [] {
      CooldownsShrink(cfg, horizon - t, horizon - t);
      if b.mode.Open? {
        var span := horizon - (b.nextProbeAt.value - cfg.cooldown);
        CooldownsShrink(cfg, span, span);
      }
      NonNegative(m, Budget(cfg, b, t, horizon));
    } else {
      var c := calls[0];
      var after := AfterGuarded(cfg, b, policy, c.tries, c.arrive, c.finish);
      AttemptsShape(policy, c.tries, 1);
      FailingCallCost(cfg, policy, b, c, t, horizon);
      WorkWithin(cfg, policy, after, calls[1..], c.finish, horizon);
      var used := if Judge(b, c.arrive).Rejected? then 0 else 1;
      Distribute(m, Budget(cfg, after, c.finish, horizon), used, Budget(cfg, b, t, horizon));
    }
  }

  lemma NonNegative(m: int, x: int)
    requires m >= 0 && x >= 0
    ensures m * x >= 0
  {
  }

  lemma Distribute(m: int, x: int, y: int, z: int)
    requires m >= 0 && x + y <= z
    ensures m * x + m * y <= m * z
  {
    NonNegative(m, z - x - y);
    assert m * (z - x - y) == m * z - m * x - m * y;
  }

  // ----------------------------------------------------- recoverability

  /** Half-open with nobody left who could still report. */
  ghost predicate Wedged(s: System) {
    s.b.mode.HalfOpen? && forall id :: !CanReport(s, id)
  }

  /** A wedged breaker rejects every later call and never leaves half-open. */
  lemma {:induction false} WedgeIsAbsorbing(cfg: Config, s: System, es: seq<Event>)
    requires Wedged(s)
    ensures Wedged(Run(cfg, s, es))
    ensures forall t :: Judge(Run(cfg, s, es).b, t).Rejected?
    decreases |es|
  {
    if es == [] {
    } else {
      var after := Step(cfg, s, es[0]);
      forall id ensures !CanReport(after, id) { assert !CanReport(s, id); }
      WedgeIsAbsorbing(cfg, after, es[1..]);
    }
  }

  /** The way out: an outstanding report, or a probe after the cooldown. */
  lemma Recovery(cfg: Config, s: System) returns (es: seq<Event>)
    requires Sane(cfg) && BreakerInv(cfg, s.b) && !Wedged(s)
    ensures Run(cfg, s, es).b.mode.Closed?
  {
    match s.b.mode {
      case Closed => es := [];
      case HalfOpen =>
        var id :| CanReport(s, id);
        es := [Succeed(id)];
        LinkedRun(cfg, es, [s, Step(cfg, s, es[0])], 0);
        assert es[0..] == es;
      case Open =>
        var id := FreshId(s.callers.Keys);
        es := [Tick(s.b.nextProbeAt.value - s.clock), Arrive(id), Succeed(id)];
        var s1 := Step(cfg, s, es[0]);
        var s2 := Step(cfg, s1, es[1]);
        LinkedRun(cfg, es, [s, s1, s2, Step(cfg, s2, es[2])], 0);
        assert id !in s.callers;
        assert es[0..] == es;
    }
  }

  /** Recoverability, exactly: some continuation closes the breaker if and only if it is not wedged. */
  lemma RecoverableUnlessWedged(cfg: Config, s: System)
    requires Sane(cfg) && BreakerInv(cfg, s.b)
    ensures (exists es :: Run(cfg, s, es).b.mode.Closed?) <==> !Wedged(s)
  {
    if Wedged(s) {
      forall es ensures !Run(cfg, s, es).b.mode.Closed? { WedgeIsAbsorbing(cfg, s, es); }
    } else {
      var es := Recovery(cfg, s);
    }
  }

  predicate RunningProbe(s: System, id: nat) { id in s.callers && s.callers[id] == Caller(true, false) }

  /** Every admitted probe reports a success or a failure before it leaves. */
  predicate ProbesReport(cfg: Config, s: System, es: seq<Event>)
    decreases |es|
  {
    es == []
    || ((es[0].Leave? ==> !RunningProbe(s, es[0].id)) && ProbesReport(cfg, Step(cfg, s, es[0]), es[1..]))
  }

  ghost predicate ProbeOnItsWay(s: System) { s.b.mode.HalfOpen? ==> exists id :: RunningProbe(s, id) }

  lemma StepKeepsProbe(cfg: Config, s: System, e: Event)
    requires ProbeOnItsWay(s) && (e.Leave? ==> !RunningProbe(s, e.id))
    ensures ProbeOnItsWay(Step(cfg, s, e))
  {
    var after := Step(cfg, s, e);
    if after.b.mode.HalfOpen? {
      if s.b.mode.HalfOpen? {
        var id :| RunningProbe(s, id);
        assert RunningProbe(after, id);
      } else {
        assert RunningProbe(after, e.id);
      }
    }
  }

  lemma {:induction false} RunKeepsProbe(cfg: Config, s: System, es: seq<Event>)
    requires ProbeOnItsWay(s) && ProbesReport(cfg, s, es)
    ensures ProbeOnItsWay(Run(cfg, s, es))
    decreases |es|
  {
    if es == [] {
    } else {
      StepKeepsProbe(cfg, s, es[0]);
      RunKeepsProbe(cfg, Step(cfg, s, es[0]), es[1..]);
    }
  }

  /** If every admitted probe reports, then from every state a run reaches some continuation closes the breaker. */
  lemma RecoversIfProbesReport(cfg: Config, start: real, es: seq<Event>)
    requires Sane(cfg) && ProbesReport(cfg, Init(start), es)
    ensures exists more :: Run(cfg, Run(cfg, Init(start), es), more).b.mode.Closed?
  {
    var s := Run(cfg, Init(start), es);
    RunKeepsInv(cfg, Init(start), es);
    RunKeepsProbe(cfg, Init(start), es);
    if s.b.mode.HalfOpen? {
      var id :| RunningProbe(s, id);
      assert CanReport(s, id);
    }
    RecoverableUnlessWedged(cfg, s);
  }

  // ------------------------------------------------------- a second probe

  predicate NeverLeaves(es: seq<Event>, id: nat) { forall i :: 0 <= i < |es| ==> es[i] != Leave(id) }

  /** The probe is still running at the end, and a caller admitted on the way runs as a probe beside it. */
  predicate Joins(cfg: Config, s: System, probe: nat, es: seq<Event>, late: nat) {
    && NeverLeaves(es, probe) && late != probe && late !in s.callers
    && RunningProbe(Run(cfg, s, es), probe) && RunningProbe(Run(cfg, s, es), late)
  }

  predicate OnlyProbe(s: System, probe: nat) {
    s.b.mode.HalfOpen? && RunningProbe(s, probe) && forall id :: id in s.callers && id != probe ==> !CanReport(s, id)
  }

  predicate HasReported(s: System, id: nat) { id in s.callers && s.callers[id].reported }

  /** With nobody else to report, the probe stays alone until it reports itself; a caller that reported stays so. */
  lemma {:induction false} AloneUntilReport(cfg: Config, s: System, probe: nat, es: seq<Event>)
    requires (OnlyProbe(s, probe) || HasReported(s, probe)) && NeverLeaves(es, probe)
    ensures OnlyProbe(Run(cfg, s, es), probe) || HasReported(Run(cfg, s, es), probe)
    decreases |es|
  {
    if es == [] {
    } else {
      assert es[0] != Leave(probe);
      assert NeverLeaves(es[1..], probe);
      var after := Step(cfg, s, es[0]);
      if OnlyProbe(s, probe) && !HasReported(after, probe) {
        assert forall id :: id in after.callers ==> id in s.callers;
      }
      AloneUntilReport(cfg, after, probe, es[1..]);
    }
  }

  /** The failure of another outstanding caller reopens the breaker; a cooldown later a second probe is let in. */
  lemma SecondProbeJoins(cfg: Config, s: System, probe: nat, other: nat, late: nat)
    requires Sane(cfg) && s.b.mode.HalfOpen? && RunningProbe(s, probe)
    requires other != probe && CanReport(s, other) && late !in s.callers
    ensures Joins(cfg, s, probe, [Fail(other), Tick(cfg.cooldown), Arrive(late)], late)
  {
    var es := [Fail(other), Tick(cfg.cooldown), Arrive(late)];
    var s1 := Step(cfg, s, es[0]);
    var s2 := Step(cfg, s1, es[1]);
    LinkedRun(cfg, es, [s, s1, s2, Step(cfg, s2, es[2])], 0);
    assert es[0..] == es;
  }

  /**
   * At most one running probe, exactly: a second one can join a running probe if and only if some
   * other admitted caller has still to report.
   */
  lemma SecondProbeExactly(cfg: Config, s: System, probe: nat)
    requires Sane(cfg) && s.b.mode.HalfOpen? && RunningProbe(s, probe)
    ensures (exists es, late :: Joins(cfg, s, probe, es, late)) <==> exists id :: id != probe && CanReport(s, id)
  {
    if other :| other != probe && CanReport(s, other) {
      var late := FreshId(s.callers.Keys);
      assert late !in s.callers;
      SecondProbeJoins(cfg, s, probe, other, late);
    } else {
      forall es, late ensures !Joins(cfg, s, probe, es, late) {
        if NeverLeaves(es, probe) {
          AloneUntilReport(cfg, s, probe, es);
        }
      }
    }
  }

  // ------------------------------------------------- concrete divergences

  const ONE := Config(1, 30.0)

  function Tripped(rest: map<nat, Caller>, clock: real, log: seq<Entry>): System {
    System(Breaker(Open, 1, Some(0.0), Some(30.0), false), clock, rest, log)
  }

  /** The first failure opens a threshold-one breaker; one cooldown later a caller is let in as the probe. */
  lemma OpenThenProbe()
    ensures Run(ONE, Init(0.0), [Arrive(0), Fail(0), Tick(30.0), Arrive(1)])
         == System(
              Breaker(HalfOpen, 1, Some(0.0), Some(30.0), true), 30.0,
              map[0 := Caller(false, true), 1 := Caller(true, false)],
              [Admit(0.0, false), Bad(0.0), Trip(0.0), Admit(30.0, true)])
  {
    var es := [Arrive(0), Fail(0), Tick(30.0), Arrive(1)];
    var s1 := System(FRESH, 0.0, map[0 := Caller(false, false)], [Admit(0.0, false)]);
    var s2 := Tripped(map[0 := Caller(false, true)], 0.0, [Admit(0.0, false), Bad(0.0), Trip(0.0)]);
    var s3 := Tripped(map[0 := Caller(false, true)], 30.0, [Admit(0.0, false), Bad(0.0), Trip(0.0)]);
    assert Step(ONE, s1, es[1]) == s2;
    LinkedRun(ONE, es, [Init(0.0), s1, s2, s3, Step(ONE, s3, es[3])], 0);
    assert es[0..] == es;
  }

  /** A probe that ends without reporting wedges the breaker, although its exit clears the probe flag. */
  lemma ProbeExitWedges()
    ensures var s := Step(ONE, Run(ONE, Init(0.0), [Arrive(0), Fail(0), Tick(30.0), Arrive(1)]), Leave(1));
      Wedged(s) && !s.b.inFlightProbe
  {
    OpenThenProbe();
  }

  /** Two probes run at once in a run of a fresh breaker: caller 2 is admitted while closed and outlasts the opening. */
  lemma TwoProbesReached()
    ensures var s :=
        Run(ONE, Init(0.0), [Arrive(0), Arrive(2), Fail(0), Tick(30.0), Arrive(1), Fail(2), Tick(30.0), Arrive(3)]);
      RunningProbe(s, 1) && RunningProbe(s, 3)
  {
    var lead, rest := [Arrive(0), Arrive(2), Fail(0), Tick(30.0), Arrive(1)], [Fail(2), Tick(30.0), Arrive(3)];
    var s1 := Step(ONE, Init(0.0), lead[0]);
    var s2 := Step(ONE, s1, lead[1]);
    var s3 := Step(ONE, s2, lead[2]);
    var s4 := Step(ONE, s3, lead[3]);
    var s5 := Step(ONE, s4, lead[4]);
    LinkedRun(ONE, lead, [Init(0.0), s1, s2, s3, s4, s5], 0);
    assert lead[0..] == lead;
    assert s1.callers == map[0 := Caller(false, false)]
        && s2.callers == map[0 := Caller(false, false), 2 := Caller(false, false)];
    SecondProbeJoins(ONE, s5, 1, 2, 3);
    RunInTwo(ONE, Init(0.0), lead, rest);
    assert lead + rest == [Arrive(0), Arrive(2), Fail(0), Tick(30.0), Arrive(1), Fail(2), Tick(30.0), Arrive(3)];
  }

  lemma {:induction false} RunInTwo(cfg: Config, s: System, first: seq<Event>, second: seq<Event>)
    ensures Run(cfg, s, first + second) == Run(cfg, Run(cfg, s, first), second)
    decreases |first|
  {
    if first == [] {
      assert first + second == second;
    } else {
      assert (first + second)[1..] == first[1..] + second;
      RunInTwo(cfg, Step(cfg, s, first[0]), first[1..], second);
    }
  }

  /** A run ends where any list of states linked by its steps ends. */
  lemma {:induction false} LinkedRun(cfg: Config, es: seq<Event>, states: seq<System>, i: nat)
    requires |states| == |es| + 1 && i <= |es|
    requires forall k :: 0 <= k < |es| ==> states[k + 1] == Step(cfg, states[k], es[k])
    ensures Run(cfg, states[i], es[i..]) == states[|es|]
    decreases |es| - i
  {
    if i < |es| {
      LinkedRun(cfg, es, states, i + 1);
      assert es[i..][1..] == es[i + 1..];
    }
  }

  /** Without the extra one the any-window bound is false: a window of no length can hold an admission. */
  lemma AnyWindowNeedsOneMore()
    ensures var log := Run(ONE, Init(0.0), [Arrive(0), Fail(0), Tick(30.0), Arrive(1)]).log;
      CountWithin(AdmittedSinceOpening(log), 30.0, 30.0 + 0.0) > (0.0 / ONE.cooldown).Floor
  {
    OpenThenProbe();
    var one := [Admit(0.0, false)];
    var two := one + [Bad(0.0)];
    var three := two + [Trip(0.0)];
    var log := three + [Admit(30.0, true)];
    assert log[..3] == three && three[..2] == two && two[..1] == one && one[..0] == [];
    assert OpeningTime(one).None? && OpeningTime(two).None? && OpeningTime(three) == Some(0.0);
    assert AdmittedSinceOpening(one) == [] && AdmittedSinceOpening(two) == [] && AdmittedSinceOpening(three) == [];
    assert AdmittedSinceOpening(log) == [30.0];
    assert [30.0][..0] == [];
  }

  // ------------------------------------------------- undisturbed calls

  /** The step in which a caller reports the outcome of its call, if it reports at all. */
  function ReportOf(id: nat, u: Update): seq<Event> {
    match u
    case Success => [Succeed(id)]
    case Failure => [Fail(id)]
    case Untouched => []
  }

  lemma RunOne(cfg: Config, s: System, e: Event, more: seq<Event>)
    ensures Run(cfg, s, [e] + more) == Run(cfg, Step(cfg, s, e), more)
  {
    assert ([e] + more)[1..] == more;
  }

  /** With nothing in between, the steps of a caller are one guarded call: entry, time, report and exit. */
  lemma StepsMakeTheCall(cfg: Config, s: System, policy: RetryPolicy, tries: nat -> Outcome, id: nat, dt: real)
    requires id !in s.callers && dt > 0.0 && !Judge(s.b, s.clock).Rejected?
    ensures var report := ReportOf(id, UpdateFor(policy, Final(policy, tries)));
      Run(cfg, s, [Arrive(id)] + ([Tick(dt)] + (report + [Leave(id)]))).b
      == AfterGuarded(cfg, s.b, policy, tries, s.clock, s.clock + dt)
  {
    hide Run, Final, UpdateFor;
    var u := UpdateFor(policy, Final(policy, tries));
    var s1 := Step(cfg, s, Arrive(id));
    var s2 := Step(cfg, s1, Tick(dt));
    var report := ReportOf(id, u);
    RunOne(cfg, s, Arrive(id), [Tick(dt)] + (report + [Leave(id)]));
    RunOne(cfg, s1, Tick(dt), report + [Leave(id)]);
    assert [Leave(id)] + [] == [Leave(id)];
    if report == [] {
      assert report + [Leave(id)] == [Leave(id)];
      RunOne(cfg, s2, Leave(id), []);
      RunNone(cfg, Step(cfg, s2, Leave(id)));
    } else {
      var s3 := Step(cfg, s2, report[0]);
      RunOne(cfg, s2, report[0], [Leave(id)]);
      assert [report[0]] + [Leave(id)] == report + [Leave(id)];
      RunOne(cfg, s3, Leave(id), []);
      RunNone(cfg, Step(cfg, s3, Leave(id)));
    }
  }

  lemma RunNone(cfg: Config, s: System)
    ensures Run(cfg, s, []) == s
  {
  }

  /** A caller that was turned away changes nothing but the log, however often it says it reported or left. */
  lemma RejectedTouchesNothing(cfg: Config, s: System, id: nat)
    requires id !in s.callers && Judge(s.b, s.clock).Rejected?
    ensures var after := Step(cfg, s, Arrive(id));
      && after.b == s.b && after.callers == s.callers
      && Step(cfg, after, Succeed(id)) == after && Step(cfg, after, Fail(id)) == after
      && Step(cfg, after, Leave(id)) == after
  {
  }
}
