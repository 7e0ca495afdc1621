/** Concurrent delegations (delegation/spawner.py): every interleaving of `delegate` bodies. */
module SpawnerRuns {
  import opened Prelude
  import opened SpawnerState

  datatype Outcome = Success(result: string) | Error(error: string) | CeilingReached | CancelledOutcome

  /**
   * Where one call stands. Each phase other than the last ends at an `await`: queued on the
   * semaphore, building the context (ceiling already checked, not yet counted), running the
   * sub-agent (counted), recording the outcome of a success (still counted, no longer running).
   */
  datatype Phase = Queued | Building | Running | Recording(result: string) | Finished(outcome: Outcome)

  /** The spawner's counter, its calls and its records; the record of call i has id i. */
  datatype Fan = Fan(active: int, phases: seq<Phase>, records: seq<Record>)

  /** roleLimit is the role's ceiling; permits is the semaphore size. */
  datatype Limits = Limits(roleLimit: int, permits: nat)

  datatype Step =
    | Enter(i: nat, rejected: Option<string>)
    | Built(i: nat, subRole: string, now: int)
    | Returned(i: nat, result: string)
    | Raised(i: nat, error: string, now: int)
    | Recorded(i: nat, now: int)
    | Cancel(i: nat, now: int)

  predicate Holds(p: Phase) { p.Building? || p.Running? || p.Recording? }

  predicate Counted(p: Phase) { p.Running? || p.Recording? }

  function CountHolding(ps: seq<Phase>): nat {
    if ps == [] then 0 else (if Holds(ps[0]) then 1 else 0) + CountHolding(ps[1..])
  }

  function CountActive(ps: seq<Phase>): nat {
    if ps == [] then 0 else (if Counted(ps[0]) then 1 else 0) + CountActive(ps[1..])
  }

  function Move(f: Fan, i: nat, p: Phase, delta: int, records: seq<Record>): Fan
    requires i < |f.phases|
  {
    Fan(f.active + delta, f.phases[i := p], records)
  }

  /** The `finally` block: stamp, then trim. */
  function Closed(records: seq<Record>, i: nat, now: int): seq<Record> { Trimmed(Stamped(records, i, now)) }

  predicate Enabled(lim: Limits, f: Fan, s: Step) {
    && s.i < |f.phases|
    && var p := f.phases[s.i];
    match s
    case Enter(_, _) => p.Queued? && CountHolding(f.phases) < lim.permits
    case Built(_, _, _) => p.Building?
    case Returned(_, _) => p.Running?
    case Raised(_, _, _) => p.Running?
    case Recorded(_, _) => p.Recording?
    case Cancel(_, _) => !p.Finished?
  }

  /** One atomic section; a step that is not enabled changes nothing. */
  function Next(lim: Limits, f: Fan, s: Step): Fan {
    if !Enabled(lim, f, s) then f
    else
      match s
      case Enter(i, rejected) =>
        if rejected.Some? then Move(f, i, Finished(Error(rejected.value)), 0, f.records)
        else if f.active >= lim.roleLimit then Move(f, i, Finished(CeilingReached), 0, f.records)
        else Move(f, i, Building, 0, f.records)
      case Built(i, subRole, now) => Move(f, i, Running, 1, f.records + [Record(i, subRole, now, Live, None)])
      case Returned(i, result) => Move(f, i, Recording(result), 0, Marked(f.records, i, Succeeded))
      case Raised(i, error, now) =>
        Move(f, i, Finished(Error(error)), -1, Closed(Marked(f.records, i, Failed), i, now))
      case Recorded(i, now) => Move(f, i, Finished(Success(f.phases[i].result)), -1, Closed(f.records, i, now))
      case Cancel(i, now) =>
        match f.phases[i]
        case Running => Move(f, i, Finished(CancelledOutcome), -1, Closed(Marked(f.records, i, Cancelled), i, now))
        case Recording(_) => Move(f, i, Finished(CancelledOutcome), -1, Closed(f.records, i, now))
        case _ => Move(f, i, Finished(CancelledOutcome), 0, f.records)
  }

  function Run(lim: Limits, f: Fan, steps: seq<Step>): Fan
    decreases |steps|
  {
    if steps == [] then f else Run(lim, Next(lim, f, steps[0]), steps[1..])
  }

  /** n calls on a spawner that is idle but keeps the records of earlier delegations. */
  function Start(n: nat, past: seq<Record>): Fan { Fan(0, seq(n, _ => Queued), past) }

  lemma {:induction false} CountsMove(ps: seq<Phase>, i: nat, p: Phase)
    requires i < |ps|
    ensures CountHolding(ps[i := p]) == CountHolding(ps) - (if Holds(ps[i]) then 1 else 0) + (if Holds(p) then 1 else 0)
    ensures CountActive(ps[i := p])
        == CountActive(ps) - (if Counted(ps[i]) then 1 else 0) + (if Counted(p) then 1 else 0)
  {
    if i > 0 {
      CountsMove(ps[1..], i - 1, p);
      assert ps[i := p][1..] == ps[1..][i - 1 := p];
    } else {
      assert ps[i := p][1..] == ps[1..];
    }
  }

  lemma {:induction false} ActiveWithinHolding(ps: seq<Phase>)
    ensures CountActive(ps) <= CountHolding(ps) <= |ps|
  {
    if ps == [] {
    } else {
      ActiveWithinHolding(ps[1..]);
    }
  }

  predicate Inv(lim: Limits, f: Fan) {
    f.active == CountActive(f.phases) && CountHolding(f.phases) <= lim.permits
  }

  lemma NextKeepsInv(lim: Limits, f: Fan, s: Step)
    requires Inv(lim, f)
    ensures Inv(lim, Next(lim, f, s)) && |Next(lim, f, s).phases| == |f.phases|
  {
    if Enabled(lim, f, s) {
      CountsMove(f.phases, s.i, Next(lim, f, s).phases[s.i]);
    }
  }

  lemma {:induction false} StartCounts(n: nat, ps: seq<Phase>)
    requires ps == seq(n, _ => Queued)
    ensures CountActive(ps) == 0 && CountHolding(ps) == 0
  {
    if n == 0 {
    } else {
      assert ps[1..] == seq(n - 1, _ => Queued);
      StartCounts(n - 1, ps[1..]);
    }
  }

  lemma {:induction false} RunKeepsInv(lim: Limits, f: Fan, steps: seq<Step>)
    requires Inv(lim, f)
    ensures Inv(lim, Run(lim, f, steps)) && |Run(lim, f, steps).phases| == |f.phases|
    decreases |steps|
  {
    if steps == [] {
    } else {
      NextKeepsInv(lim, f, steps[0]);
      RunKeepsInv(lim, Next(lim, f, steps[0]), steps[1..]);
    }
  }

  predicate Tripped(f: Fan) { exists i :: 0 <= i < |f.phases| && f.phases[i] == Finished(CeilingReached) }

  lemma {:induction false} NeverTrips(lim: Limits, f: Fan, steps: seq<Step>)
    requires lim.permits <= lim.roleLimit && Inv(lim, f) && !Tripped(f)
    ensures !Tripped(Run(lim, f, steps))
    decreases |steps|
  {
    if steps == [] {
    } else {
      var s, g := steps[0], Next(lim, f, steps[0]);
      ActiveWithinHolding(f.phases);
      NextKeepsInv(lim, f, s);
      forall i | 0 <= i < |g.phases| ensures g.phases[i] != Finished(CeilingReached) {
        if !Enabled(lim, f, s) || i != s.i { assert g.phases[i] == f.phases[i]; }
      }
      NeverTrips(lim, g, steps[1..]);
    }
  }

  // ------------------------------------------------------- delegate_parallel

  /** The semaphore size `delegate_parallel` computes. */
  function ParallelLimits(roleLimit: int, argument: Option<int>): (lim: Limits)
    ensures lim.permits >= 1
  {
    Limits(roleLimit, Max(if argument.Some? then Min(roleLimit, argument.value) else roleLimit, 1))
  }

  /**
   * In every interleaving of `delegate_parallel` on an idle spawner, whatever its sub-agents raise,
   * the counter equals the bodies between their increment and decrement and stays within the
   * semaphore, so it is zero once all bodies have finished; and with a role ceiling of at least one
   * that semaphore is min(ceiling, max(1, argument)) and the ceiling check never fails.
   */
  lemma ParallelStaysWithinCeiling(roleLimit: int, argument: Option<int>, n: nat, past: seq<Record>, steps: seq<Step>)
    ensures var lim := ParallelLimits(roleLimit, argument);
      var f := Run(lim, Start(n, past), steps);
      && |f.phases| == n
      && f.active == CountActive(f.phases)
      && 0 <= f.active <= lim.permits
      && ((forall i :: 0 <= i < n ==> f.phases[i].Finished?) ==> f.active == 0)
      && (roleLimit >= 1 ==>
            && lim.permits == Min(roleLimit, Max(1, if argument.Some? then argument.value else roleLimit))
            && !Tripped(f))
  {
    var lim := ParallelLimits(roleLimit, argument);
    StartCounts(n, Start(n, past).phases);
    RunKeepsInv(lim, Start(n, past), steps);
    var f := Run(lim, Start(n, past), steps);
    ActiveWithinHolding(f.phases);
    if forall i :: 0 <= i < n ==> f.phases[i].Finished? {
      AllFinished(f.phases);
    }
    if roleLimit >= 1 {
      NeverTrips(lim, Start(n, past), steps);
    }
  }

  lemma {:induction false} AllFinished(ps: seq<Phase>)
    requires forall i :: 0 <= i < |ps| ==> ps[i].Finished?
    ensures CountActive(ps) == 0 && CountHolding(ps) == 0
  {
    if ps == [] {
    } else {
      AllFinished(ps[1..]);
    }
  }

  /** Some interleaving of n calls fails the ceiling check. */
  ghost predicate CanTrip(lim: Limits, n: nat, past: seq<Record>) {
    exists steps :: Tripped(Run(lim, Start(n, past), steps))
  }

  /** The ceiling check can fail under `delegate_parallel` exactly when the role ceiling is below one. */
  lemma ParallelTripsExactly(roleLimit: int, argument: Option<int>, n: nat, past: seq<Record>)
    requires n >= 1
    ensures CanTrip(ParallelLimits(roleLimit, argument), n, past) <==> roleLimit < 1
  {
    var lim := ParallelLimits(roleLimit, argument);
    if roleLimit >= 1 {
      forall steps ensures !Tripped(Run(lim, Start(n, past), steps)) {
        ParallelStaysWithinCeiling(roleLimit, argument, n, past, steps);
      }
    } else {
      LowCeilingTrips(lim, n, past);
    }
  }

  lemma LowCeilingTrips(lim: Limits, n: nat, past: seq<Record>)
    requires n >= 1 && lim.permits >= 1 && lim.roleLimit < 1
    ensures CanTrip(lim, n, past)
  {
    var steps := [Enter(0, None)];
    StartCounts(n, Start(n, past).phases);
    var f := Next(lim, Start(n, past), steps[0]);
    assert f.phases[0] == Finished(CeilingReached);
    assert steps[1..] == [];
    assert Run(lim, Start(n, past), steps) == f;
    assert Tripped(Run(lim, Start(n, past), steps));
  }

  // --------------------------------------------------------------- progress

  function Rank(p: Phase): nat {
    match p
    case Queued => 4
    case Building => 3
    case Running => 2
    case Recording(_) => 1
    case Finished(_) => 0
  }

  function Work(ps: seq<Phase>): nat {
    if ps == [] then 0 else Rank(ps[0]) + Work(ps[1..])
  }

  lemma {:induction false} WorkMove(ps: seq<Phase>, i: nat, p: Phase)
    requires i < |ps|
    ensures Work(ps[i := p]) == Work(ps) - Rank(ps[i]) + Rank(p)
  {
    if i > 0 {
      WorkMove(ps[1..], i - 1, p);
      assert ps[i := p][1..] == ps[1..][i - 1 := p];
    } else {
      assert ps[i := p][1..] == ps[1..];
    }
  }

  /** Every enabled step uses up work. */
  lemma StepsUseWork(lim: Limits, f: Fan, s: Step)
    requires Enabled(lim, f, s)
    ensures Work(Next(lim, f, s).phases) < Work(f.phases)
  {
    hide Work, Closed, Marked, CountHolding;
    WorkMove(f.phases, s.i, Next(lim, f, s).phases[s.i]);
  }

  function EnabledSteps(lim: Limits, f: Fan, steps: seq<Step>): nat
    decreases |steps|
  {
    if steps == [] then 0
    else (if Enabled(lim, f, steps[0]) then 1 else 0) + EnabledSteps(lim, Next(lim, f, steps[0]), steps[1..])
  }

  lemma {:induction false} WorkBoundsSteps(lim: Limits, f: Fan, steps: seq<Step>)
    ensures EnabledSteps(lim, f, steps) <= Work(f.phases)
    decreases |steps|
  {
    if steps == [] {
    } else {
      if Enabled(lim, f, steps[0]) {
        StepsUseWork(lim, f, steps[0]);
      }
      WorkBoundsSteps(lim, Next(lim, f, steps[0]), steps[1..]);
    }
  }

  lemma {:induction false} WorkOfQueued(n: nat)
    ensures Work(seq(n, _ => Queued)) == 4 * n
  {
    if n == 0 {
    } else {
      WorkOfQueued(n - 1);
      assert seq(n, _ => Queued)[1..] == seq(n - 1, _ => Queued);
    }
  }

  /** A fan-out ends: of n calls, in every interleaving, at most 4n steps change anything. */
  lemma FanOutEnds(lim: Limits, n: nat, past: seq<Record>, steps: seq<Step>)
    ensures EnabledSteps(lim, Start(n, past), steps) <= 4 * n
  {
    WorkBoundsSteps(lim, Start(n, past), steps);
    WorkOfQueued(n);
  }

  /**
   * Queued tasks wait but never starve: while one call is unfinished, some step other than a
   * cancellation is enabled.
   */
  lemma NoDeadlock(lim: Limits, f: Fan, i: nat)
    requires lim.permits >= 1 && i < |f.phases| && !f.phases[i].Finished?
    ensures exists s :: Enabled(lim, f, s) && !s.Cancel?
  {
    if CountHolding(f.phases) > 0 {
      var k := SomeHolder(f.phases);
      var s :=
          match f.phases[k] case Building => Built(k, "", 0) case Running => Returned(k, "") case _ => Recorded(k, 0);
      assert Enabled(lim, f, s);
    } else {
      NoHolder(f.phases, i);
      assert Enabled(lim, f, Enter(i, None));
    }
  }

  lemma {:induction false} SomeHolder(ps: seq<Phase>) returns (k: nat)
    requires CountHolding(ps) > 0
    ensures k < |ps| && Holds(ps[k])
  {
    if Holds(ps[0]) {
      k := 0;
    } else {
      k := SomeHolder(ps[1..]);
      k := k + 1;
    }
  }

  lemma {:induction false} NoHolder(ps: seq<Phase>, i: nat)
    requires CountHolding(ps) == 0 && i < |ps|
    ensures !Holds(ps[i])
  {
    if i == 0 {
    } else {
      NoHolder(ps[1..], i - 1);
    }
  }

  // ------------------------------------------------------- the record registry

  function CountRunning(ps: seq<Phase>): nat {
    if ps == [] then 0 else (if ps[0].Running? then 1 else 0) + CountRunning(ps[1..])
  }

  lemma {:induction false} RunningMove(ps: seq<Phase>, i: nat, p: Phase)
    requires i < |ps|
    ensures CountRunning(ps[i := p])
        == CountRunning(ps) - (if ps[i].Running? then 1 else 0) + (if p.Running? then 1 else 0)
  {
    if i == 0 {
      assert ps[i := p][1..] == ps[1..];
    } else {
      RunningMove(ps[1..], i - 1, p);
      assert ps[i := p][1..] == ps[1..][i - 1 := p];
    }
  }

  predicate HasLive(rs: seq<Record>, i: nat) { exists r :: r in rs && r.id == i && r.status.Live? }

  predicate Known(rs: seq<Record>, i: nat) { exists r :: r in rs && r.id == i }

  /** Ids are distinct; a call has a record only once it is past its context; a running one has a live record. */
  ghost predicate Filed(f: Fan) {
    && DistinctIds(f.records)
    && (forall i :: 0 <= i < |f.phases| && Known(f.records, i) ==> !f.phases[i].Queued? && !f.phases[i].Building?)
    && (forall i :: 0 <= i < |f.phases| && f.phases[i].Running? ==> HasLive(f.records, i))
  }

  /**
   * Records still running are as many as running calls; finished ones exceed the cap only by bodies
   * still recording.
   */
  predicate Bounded(f: Fan) {
    && |f.records| == CountRunning(f.phases) + FinishedCount(f.records)
    && FinishedCount(f.records) <= MAX_FINISHED_RECORDS + (CountActive(f.phases) - CountRunning(f.phases))
  }

  /** From one registry to the next nothing appears but a record of i, and no live record but that of i is lost. */
  ghost predicate Changes(rs: seq<Record>, out: seq<Record>, i: nat) {
    && DistinctIds(out)
    && (forall k: nat :: Known(out, k) ==> k == i || Known(rs, k))
    && (forall k: nat :: k != i && HasLive(rs, k) ==> HasLive(out, k))
  }

  lemma StampKeeps(rs: seq<Record>, i: nat, now: int)
    requires DistinctIds(rs)
    ensures var out := Stamped(rs, i, now);
      Changes(rs, out, i) && |out| == |rs| && FinishedCount(out) == FinishedCount(rs)
      && (Known(out, i) ==> Known(rs, i))
  {
    var out := Stamped(rs, i, now);
    SameStatusSameCount(rs, out);
    SameIds(rs, out, i);
  }

  lemma SameIds(rs: seq<Record>, out: seq<Record>, i: nat)
    requires |out| == |rs| && forall j :: 0 <= j < |rs| ==> out[j].id == rs[j].id && (rs[j].id == i || out[j] == rs[j])
    ensures forall k: nat :: Known(out, k) ==> Known(rs, k)
    ensures forall k: nat :: k != i && HasLive(rs, k) ==> HasLive(out, k)
  {
    forall k: nat | Known(out, k) ensures Known(rs, k) {
      var j :| 0 <= j < |out| && out[j].id == k;
      assert rs[j] in rs;
    }
    forall k: nat | k != i && HasLive(rs, k) ensures HasLive(out, k) {
      var j :| 0 <= j < |rs| && rs[j].id == k && rs[j].status.Live?;
      assert out[j] in out;
    }
  }

  lemma MarkKeeps(rs: seq<Record>, i: nat, status: Status)
    requires DistinctIds(rs) && HasLive(rs, i) && !status.Live?
    ensures var out := Marked(rs, i, status);
      Changes(rs, out, i) && |out| == |rs| && FinishedCount(out) == FinishedCount(rs) + 1
  {
    var k :| 0 <= k < |rs| && rs[k].id == i && rs[k].status.Live?;
    MarkedCount(rs, k, status);
    SameIds(rs, Marked(rs, i, status), i);
  }

  lemma TrimKeeps(rs: seq<Record>)
    requires DistinctIds(rs)
    ensures var out := Trimmed(rs);
      && DistinctIds(out) && |out| - FinishedCount(out) == |rs| - FinishedCount(rs)
      && FinishedCount(out) <= MAX_FINISHED_RECORDS
      && (forall k: nat :: Known(out, k) ==> Known(rs, k)) && (forall k: nat :: HasLive(rs, k) ==> HasLive(out, k))
  {
    TrimKeepsDistinct(rs);
    TrimIsExact(rs);
    LiveAndFinished(rs);
    LiveAndFinished(Trimmed(rs));
    forall k: nat | HasLive(rs, k) ensures HasLive(Trimmed(rs), k) {
      var r :| r in rs && r.id == k && r.status.Live?;
      TrimKeepsLive(rs, r);
    }
  }

  lemma CloseKeeps(rs: seq<Record>, i: nat, now: int)
    requires DistinctIds(rs)
    ensures var out := Closed(rs, i, now);
      && Changes(rs, out, i) && |out| - FinishedCount(out) == |rs| - FinishedCount(rs)
      && FinishedCount(out) <= MAX_FINISHED_RECORDS
  {
    hide Trimmed, DistinctIds, HasLive, Known;
    StampKeeps(rs, i, now);
    TrimKeeps(Stamped(rs, i, now));
  }

  lemma FileKeeps(rs: seq<Record>, r: Record)
    requires DistinctIds(rs) && r.status.Live? && !Known(rs, r.id)
    ensures var out := rs + [r];
      Changes(rs, out, r.id) && FinishedCount(out) == FinishedCount(rs) && HasLive(out, r.id)
  {
    var out := rs + [r];
    assert out[|rs|] == r;
    assert forall q :: q in rs ==> q in out;
    FinishedAdds(rs, r);
  }

  lemma {:induction false} FinishedAdds(rs: seq<Record>, r: Record)
    ensures FinishedCount(rs + [r]) == FinishedCount(rs) + if r.status.Live? then 0 else 1
  {
    if rs == [] {
      assert rs + [r] == [r];
    } else {
      FinishedAdds(rs[1..], r);
      assert (rs + [r])[1..] == rs[1..] + [r];
    }
  }

  lemma Refiled(f: Fan, g: Fan, i: nat)
    requires Filed(f) && i < |f.phases| == |g.phases| && g.phases == f.phases[i := g.phases[i]]
    requires Changes(f.records, g.records, i)
    requires !g.phases[i].Queued? && !g.phases[i].Building? && (g.phases[i].Running? ==> HasLive(g.records, i))
    ensures Filed(g)
  {
    hide HasLive, Known, DistinctIds;
  }

  lemma NextKeepsFiled(lim: Limits, f: Fan, s: Step)
    requires Filed(f)
    ensures Filed(Next(lim, f, s))
  {
    hide Trimmed, DistinctIds, HasLive, Known, CountHolding, Closed, Changes;
    if Enabled(lim, f, s) {
      RecordsMove(lim, f, s);
      if Next(lim, f, s).records != f.records {
        Refiled(f, Next(lim, f, s), s.i);
      }
    }
  }

  lemma NextKeepsBounded(lim: Limits, f: Fan, s: Step)
    requires Filed(f) && Bounded(f)
    ensures Bounded(Next(lim, f, s))
  {
    hide Filed, Trimmed, Marked, FinishedCount, CountHolding, Closed, Changes;
    if Enabled(lim, f, s) {
      var g := Next(lim, f, s);
      CountsMove(f.phases, s.i, g.phases[s.i]);
      RunningMove(f.phases, s.i, g.phases[s.i]);
      RunningIsActive(g.phases);
      RecordsMove(lim, f, s);
    }
  }

  lemma {:induction false} RunningIsActive(ps: seq<Phase>)
    ensures CountRunning(ps) <= CountActive(ps)
  {
    if ps == [] {
    } else {
      RunningIsActive(ps[1..]);
    }
  }

  /** What each step does to the registry. */
  lemma RecordsMove(lim: Limits, f: Fan, s: Step)
    requires Filed(f) && Enabled(lim, f, s)
    ensures var g := Next(lim, f, s);
      && (g.records == f.records || Changes(f.records, g.records, s.i))
      && (g.phases[s.i].Running? ==> HasLive(g.records, s.i))
      && |g.records| - FinishedCount(g.records) == |f.records| - FinishedCount(f.records)
           - (if f.phases[s.i].Running? then 1 else 0) + (if g.phases[s.i].Running? then 1 else 0)
      && FinishedCount(g.records) <= Max(MAX_FINISHED_RECORDS, FinishedCount(f.records) + if s.Returned? then 1 else 0)
      && (Counted(f.phases[s.i]) && !Counted(g.phases[s.i]) ==> FinishedCount(g.records) <= MAX_FINISHED_RECORDS)
  {
    hide Trimmed, DistinctIds, HasLive, Known, CountHolding, Closed;
    match s {
      case Enter(_, _) =>
      case Built(i, subRole, now) => FileKeeps(f.records, Record(i, subRole, now, Live, None));
      case Returned(i, _) => MarkKeeps(f.records, i, Succeeded);
      case Raised(i, _, now) =>
        MarkKeeps(f.records, i, Failed);
        CloseKeeps(Marked(f.records, i, Failed), i, now);
      case Recorded(i, now) => CloseKeeps(f.records, i, now);
      case Cancel(i, now) =>
        if f.phases[i].Running? {
          MarkKeeps(f.records, i, Cancelled);
          CloseKeeps(Marked(f.records, i, Cancelled), i, now);
        } else if f.phases[i].Recording? {
          CloseKeeps(f.records, i, now);
        }
    }
  }

  lemma {:induction false} RunKeepsFiled(lim: Limits, f: Fan, steps: seq<Step>)
    requires Filed(f) && Bounded(f)
    ensures Filed(Run(lim, f, steps)) && Bounded(Run(lim, f, steps))
    decreases |steps|
  {
    if steps == [] {
    } else {
      NextKeepsFiled(lim, f, steps[0]);
      NextKeepsBounded(lim, f, steps[0]);
      RunKeepsFiled(lim, Next(lim, f, steps[0]), steps[1..]);
    }
  }

  /** The records an idle spawner may have kept: finished, within the cap, of other delegations. */
  predicate Idle(n: nat, past: seq<Record>) {
    && DistinctIds(past) && |past| <= MAX_FINISHED_RECORDS
    && forall j :: 0 <= j < |past| ==> past[j].id >= n && !past[j].status.Live?
  }

  lemma {:induction false} AllFinishedRecords(rs: seq<Record>)
    requires forall j :: 0 <= j < |rs| ==> !rs[j].status.Live?
    ensures FinishedCount(rs) == |rs|
  {
    if rs == [] {
    } else {
      AllFinishedRecords(rs[1..]);
    }
  }

  lemma StartIsFiled(n: nat, past: seq<Record>)
    requires Idle(n, past)
    ensures Filed(Start(n, past)) && Bounded(Start(n, past))
  {
    AllFinishedRecords(past);
    StartCounts(n, Start(n, past).phases);
    RunningIsActive(Start(n, past).phases);
  }

  /**
   * In every interleaving the registry holds at most the cap of finished records plus one per
   * counted body, and a body that is still running never loses its record.
   */
  lemma RegistryIsBounded(lim: Limits, n: nat, past: seq<Record>, steps: seq<Step>)
    requires Idle(n, past)
    ensures var f := Run(lim, Start(n, past), steps);
      && |f.records| <= f.active + MAX_FINISHED_RECORDS
      && forall i :: 0 <= i < |f.phases| && f.phases[i].Running? ==> HasLive(f.records, i)
  {
    StartIsFiled(n, past);
    StartCounts(n, Start(n, past).phases);
    RunKeepsFiled(lim, Start(n, past), steps);
    RunKeepsInv(lim, Start(n, past), steps);
  }

  // ------------------------------- a counted body can lose its finished record

  /**
   * The record of call 0, which succeeded but is still recording, then those of k calls that failed
   * after it started.
   */
  function Behind(k: nat): (rs: seq<Record>)
    ensures |rs| == k + 1 && forall j :: 0 <= j <= k ==> rs[j] == RecordOf(j)
  {
    seq(k + 1, j requires 0 <= j => RecordOf(j))
  }

  function RecordOf(j: nat): Record {
    if j == 0 then Record(0, "", 0, Succeeded, None) else Record(j, "", j, Failed, Some(j))
  }

  function Calls(n: nat, k: nat): seq<Phase> {
    seq(n, i => if i == 0 then Recording("") else if i <= k then Finished(Error("")) else Queued)
  }

  function FailOne(k: nat): seq<Step> { [Enter(k, None), Built(k, "", k), Raised(k, "", k)] }

  lemma {:induction false} OneHolder(n: nat, k: nat)
    requires 0 < n
    ensures CountHolding(Calls(n, k)) == 1
  {
    NoneHold(Calls(n, k)[1..]);
  }

  lemma {:induction false} NoneHold(ps: seq<Phase>)
    requires forall i :: 0 <= i < |ps| ==> !Holds(ps[i])
    ensures CountHolding(ps) == 0
  {
    if ps == [] {
    } else {
      NoneHold(ps[1..]);
    }
  }

  lemma FailedRecord(k: nat)
    ensures Stamped(Marked(Behind(k) + [Record(k + 1, "", k + 1, Live, None)], k + 1, Failed), k + 1, k + 1)
         == Behind(k + 1)
  {
    hide Marked, Stamped, Behind;
    var filed := Behind(k) + [Record(k + 1, "", k + 1, Live, None)];
    var stamped := Stamped(Marked(filed, k + 1, Failed), k + 1, k + 1);
    forall j | 0 <= j <= k + 1 ensures stamped[j] == RecordOf(j) {
      assert filed[j] == if j <= k then RecordOf(j) else Record(k + 1, "", k + 1, Live, None);
    }
  }

  /** One more call starts and fails behind call 0. */
  lemma FailBehind(lim: Limits, n: nat, k: nat)
    requires lim.roleLimit >= 2 && lim.permits >= 2 && k + 1 < n
    ensures Run(lim, Fan(1, Calls(n, k), Behind(k)), FailOne(k + 1)) == Fan(1, Calls(n, k + 1), Trimmed(Behind(k + 1)))
  {
    hide Trimmed, Marked, Stamped, Behind;
    var f, steps := Fan(1, Calls(n, k), Behind(k)), FailOne(k + 1);
    OneHolder(n, k);
    var f1 := Next(lim, f, steps[0]);
    var f2 := Next(lim, f1, steps[1]);
    var f3 := Next(lim, f2, steps[2]);
    assert f3.phases == Calls(n, k + 1);
    FailedRecord(k);
    assert steps[1..][1..][1..] == [] && steps[1..][0] == steps[1] && steps[1..][1..][0] == steps[2];
    assert Run(lim, f, steps) == Run(lim, f1, steps[1..]) == Run(lim, f2, steps[1..][1..]) == Run(lim, f3, []);
  }

  lemma {:induction false} FailAllBehind(lim: Limits, n: nat, k: nat) returns (steps: seq<Step>)
    requires lim.roleLimit >= 2 && lim.permits >= 2 && k < n && k < MAX_FINISHED_RECORDS
    ensures Run(lim, Fan(1, Calls(n, 0), Behind(0)), steps) == Fan(1, Calls(n, k), Behind(k))
  {
    if k == 0 {
      steps := [];
    } else {
      var before := FailAllBehind(lim, n, k - 1);
      FailBehind(lim, n, k - 1);
      AllFinishedRecords(Behind(k));
      steps := before + FailOne(k);
      RunConcat(lim, Fan(1, Calls(n, 0), Behind(0)), before, FailOne(k));
    }
  }

  /**
   * The status is set before the outcome summary is awaited, so a body that is still counted can
   * lose its record: once as many later calls as the cap have failed meanwhile.
   */
  lemma CountedBodyLosesRecord(lim: Limits, n: nat) returns (steps: seq<Step>)
    requires lim.roleLimit >= 2 && lim.permits >= 2 && n > MAX_FINISHED_RECORDS
    ensures Loses(Run(lim, Start(n, []), steps), 0)
  {
    hide Trimmed;
    var lead := [Enter(0, None), Built(0, "", 0), Returned(0, "")];
    StartCounts(n, Start(n, []).phases);
    var f1 := Next(lim, Start(n, []), lead[0]);
    var f2 := Next(lim, f1, lead[1]);
    var f3 := Next(lim, f2, lead[2]);
    assert f3.phases == Calls(n, 0) && f3.records == Behind(0);
    assert lead[1..][1..][1..] == [] && lead[1..][0] == lead[1] && lead[1..][1..][0] == lead[2];
    assert Run(lim, Start(n, []), lead) == Run(lim, f1, lead[1..]) == Run(lim, f2, lead[1..][1..]) == Run(lim, f3, []);
    var k := MAX_FINISHED_RECORDS - 1;
    var most := FailAllBehind(lim, n, k);
    FailBehind(lim, n, k);
    RunConcat(lim, f3, most, FailOne(k + 1));
    RunConcat(lim, Start(n, []), lead, most + FailOne(k + 1));
    steps := lead + (most + FailOne(k + 1));
    OldestGoes(k + 1);
  }

  lemma OldestGoes(k: nat)
    requires k == MAX_FINISHED_RECORDS
    ensures !Known(Trimmed(Behind(k)), 0)
  {
    var rs := Behind(k);
    AllFinishedRecords(rs);
    assert Oldest(rs) == 0 by { assert IsOldestFinished(rs, Oldest(rs)); assert rs[0].startedAt == 0; }
    var out := Without(rs, 0);
    AllFinishedRecords(out);
    assert Trimmed(rs) == Trimmed(out) == out;
    assert forall j :: 0 <= j < |out| ==> out[j] == rs[j + 1];
  }

  /** A body that is counted has no record any more. */
  predicate Loses(f: Fan, i: nat) { i < |f.phases| && Counted(f.phases[i]) && !Known(f.records, i) }

  predicate IdsBelow(rs: seq<Record>, n: nat) { forall j :: 0 <= j < |rs| ==> rs[j].id < n }

  predicate NobodyLoses(f: Fan) { forall i :: 0 <= i < |f.phases| ==> !Loses(f, i) }

  lemma {:induction false} Below(n: nat) returns (ids: set<nat>)
    ensures |ids| == n && forall k: nat :: k in ids <==> k < n
  {
    if n == 0 {
      ids := {};
    } else {
      ids := Below(n - 1);
      ids := ids + {n - 1};
    }
  }

  lemma FewRecords(rs: seq<Record>, n: nat)
    requires DistinctIds(rs) && IdsBelow(rs, n)
    ensures |rs| <= n
  {
    var ids := Below(n);
    Pigeonhole(seq(|rs|, j requires 0 <= j < |rs| => rs[j].id), ids);
  }

  lemma {:induction false} OnlyHolder(ps: seq<Phase>, i: nat, j: nat)
    requires CountHolding(ps) <= 1 && i < |ps| && j < |ps| && i != j && Holds(ps[i])
    ensures !Holds(ps[j])
    decreases |ps|
  {
    if i == 0 {
      NoHolder(ps[1..], j - 1);
    } else if j == 0 {
      HolderCounts(ps[1..], i - 1);
    } else {
      OnlyHolder(ps[1..], i - 1, j - 1);
    }
  }

  lemma {:induction false} HolderCounts(ps: seq<Phase>, i: nat)
    requires i < |ps| && Holds(ps[i])
    ensures CountHolding(ps) >= 1
  {
    if i == 0 {
    } else {
      HolderCounts(ps[1..], i - 1);
    }
  }

  lemma SameKnown(rs: seq<Record>, out: seq<Record>, k: nat)
    requires |out| == |rs| && forall j :: 0 <= j < |rs| ==> out[j].id == rs[j].id
    ensures Known(out, k) <==> Known(rs, k)
  {
    if j :| 0 <= j < |rs| && rs[j].id == k {
      assert out[j] in out;
    }
    if j :| 0 <= j < |out| && out[j].id == k {
      assert rs[j] in rs;
    }
  }

  /** Closing a body evicts nothing while all ids together fit under the cap. */
  lemma CloseEvictsNothing(rs: seq<Record>, n: nat, i: nat, now: int)
    requires DistinctIds(rs) && IdsBelow(rs, n) && n <= MAX_FINISHED_RECORDS
    ensures Closed(rs, i, now) == Stamped(rs, i, now)
  {
    FewRecords(rs, n);
    LiveAndFinished(Stamped(rs, i, now));
  }

  lemma CloseKeepsBelow(rs: seq<Record>, n: nat, i: nat, now: int)
    requires IdsBelow(rs, n)
    ensures IdsBelow(Closed(rs, i, now), n)
  {
    var stamped := Stamped(rs, i, now);
    TrimIsExact(stamped);
    forall j | 0 <= j < |Closed(rs, i, now)| ensures Closed(rs, i, now)[j].id < n {
      assert Closed(rs, i, now)[j] in stamped;
      var k :| 0 <= k < |stamped| && stamped[k] == Closed(rs, i, now)[j];
    }
  }

  /** What a closing body was before it was stamped and trimmed. */
  function BeforeClosing(f: Fan, s: Step): seq<Record> {
    if s.Raised? then Marked(f.records, s.i, Failed)
    else if s.Cancel? && s.i < |f.phases| && f.phases[s.i].Running? then Marked(f.records, s.i, Cancelled)
    else f.records
  }

  predicate Closes(f: Fan, s: Step) {
    s.i < |f.phases| && Counted(f.phases[s.i]) && (s.Raised? || s.Recorded? || s.Cancel?)
  }

  lemma NextKeepsBelow(lim: Limits, f: Fan, s: Step)
    requires IdsBelow(f.records, |f.phases|)
    ensures IdsBelow(Next(lim, f, s).records, |f.phases|)
  {
    hide Trimmed, Closed, CountHolding;
    if Enabled(lim, f, s) && Closes(f, s) {
      CloseKeepsBelow(BeforeClosing(f, s), |f.phases|, s.i, s.now);
    }
  }

  /** With one permit, nobody else is counted when a body closes. */
  lemma LastOneCloses(lim: Limits, f: Fan, s: Step, j: nat)
    requires Enabled(lim, f, s) && Closes(f, s) && Inv(lim, f) && lim.permits <= 1
    ensures !Loses(Next(lim, f, s), j)
  {
    hide Trimmed, Closed, CountHolding, Known;
    if j < |f.phases| && j != s.i {
      OnlyHolder(f.phases, s.i, j);
    }
  }

  lemma BeforeClosingKeepsIds(f: Fan, s: Step, n: nat)
    requires DistinctIds(f.records) && IdsBelow(f.records, n)
    ensures var rs := BeforeClosing(f, s);
      && |rs| == |f.records| && DistinctIds(rs) && IdsBelow(rs, n)
      && forall j :: 0 <= j < |rs| ==> rs[j].id == f.records[j].id
  {
  }

  lemma ClosingRecords(lim: Limits, f: Fan, s: Step)
    requires Enabled(lim, f, s) && Closes(f, s)
    ensures Next(lim, f, s).records == Closed(BeforeClosing(f, s), s.i, s.now)
  {
    hide Closed, CountHolding;
  }

  lemma ClosingKeepsAll(lim: Limits, f: Fan, s: Step, j: nat)
    requires Enabled(lim, f, s) && Closes(f, s) && DistinctIds(f.records)
    requires IdsBelow(f.records, |f.phases|) && |f.phases| <= MAX_FINISHED_RECORDS
    ensures Known(Next(lim, f, s).records, j) <==> Known(f.records, j)
  {
    hide Closed, Known, DistinctIds, IdsBelow, Next, BeforeClosing;
    var rs := BeforeClosing(f, s);
    ClosingRecords(lim, f, s);
    BeforeClosingKeepsIds(f, s, |f.phases|);
    CloseEvictsNothing(rs, |f.phases|, s.i, s.now);
    SameKnown(f.records, Stamped(rs, s.i, s.now), j);
  }

  lemma ClosingLosesNobody(lim: Limits, f: Fan, s: Step, j: nat)
    requires Enabled(lim, f, s) && Closes(f, s) && Filed(f) && Inv(lim, f)
    requires NobodyLoses(f) && IdsBelow(f.records, |f.phases|)
    requires |f.phases| <= MAX_FINISHED_RECORDS || lim.permits <= 1
    ensures !Loses(Next(lim, f, s), j)
  {
    hide Trimmed, Closed, CountHolding, Known, IdsBelow;
    if lim.permits <= 1 {
      LastOneCloses(lim, f, s, j);
    } else if j < |f.phases| && j != s.i {
      ClosingKeepsAll(lim, f, s, j);
      assert !Loses(f, j);
    }
  }

  lemma NextLosesNobody(lim: Limits, f: Fan, s: Step)
    requires Filed(f) && Inv(lim, f) && NobodyLoses(f) && IdsBelow(f.records, |f.phases|)
    requires |f.phases| <= MAX_FINISHED_RECORDS || lim.permits <= 1
    ensures NobodyLoses(Next(lim, f, s))
  {
    hide Trimmed, Closed, CountHolding, Known, Filed, Inv;
    if Enabled(lim, f, s) {
      var g := Next(lim, f, s);
      forall j | 0 <= j < |g.phases| ensures !Loses(g, j) {
        assert !Loses(f, j);
        if Closes(f, s) {
          ClosingLosesNobody(lim, f, s, j);
        } else {
          OpenStepKeepsKnown(lim, f, s, j);
        }
      }
    }
  }

  /** A step that closes no body takes no record away, and the body it starts to count has one. */
  lemma OpenStepKeepsKnown(lim: Limits, f: Fan, s: Step, j: nat)
    requires Enabled(lim, f, s) && !Closes(f, s)
    ensures Known(f.records, j) ==> Known(Next(lim, f, s).records, j)
    ensures s.Built? ==> Known(Next(lim, f, s).records, s.i)
  {
    hide CountHolding;
    var g := Next(lim, f, s);
    if s.Returned? {
      SameKnown(f.records, g.records, j);
    } else if s.Built? {
      assert g.records[|f.records|] in g.records;
      assert forall r :: r in f.records ==> r in g.records;
    }
  }

  lemma {:induction false} RunLosesNobody(lim: Limits, f: Fan, steps: seq<Step>)
    requires Filed(f) && Inv(lim, f) && NobodyLoses(f) && IdsBelow(f.records, |f.phases|)
    requires |f.phases| <= MAX_FINISHED_RECORDS || lim.permits <= 1
    ensures NobodyLoses(Run(lim, f, steps))
    decreases |steps|
  {
    if steps == [] {
    } else {
      hide Filed, Inv, NobodyLoses, IdsBelow;
      NextKeepsFiled(lim, f, steps[0]);
      NextKeepsInv(lim, f, steps[0]);
      NextKeepsBelow(lim, f, steps[0]);
      NextLosesNobody(lim, f, steps[0]);
      RunLosesNobody(lim, Next(lim, f, steps[0]), steps[1..]);
    }
  }

  /** Some interleaving of n calls on a fresh spawner leaves a counted body without its record. */
  ghost predicate CanLose(lim: Limits, n: nat) {
    exists steps, i: nat :: Loses(Run(lim, Start(n, []), steps), i)
  }

  /**
   * A body keeps its record as long as it is counted, in every interleaving of n calls on a fresh
   * spawner, unless there are more calls than the cap and at least two can run at a time: exactly.
   */
  lemma CountedBodyLosesRecordExactly(lim: Limits, n: nat)
    requires lim.permits <= lim.roleLimit
    ensures CanLose(lim, n) <==> n > MAX_FINISHED_RECORDS && lim.permits >= 2
  {
    if n > MAX_FINISHED_RECORDS && lim.permits >= 2 {
      var steps := CountedBodyLosesRecord(lim, n);
      assert Loses(Run(lim, Start(n, []), steps), 0);
    } else {
      StartIsFiled(n, []);
      StartCounts(n, Start(n, []).phases);
      forall steps, i: nat ensures !Loses(Run(lim, Start(n, []), steps), i) {
        RunLosesNobody(lim, Start(n, []), steps);
      }
    }
  }

  // ------------------------------------------------------------ the spawner

  /** The spawner's fields, with where each `delegate` body stands; a method is what runs between two awaits. */
  class DelegationSpawner {
    var active: int
    var phases: seq<Phase>
    var records: seq<Record>

    constructor (n: nat)
      ensures State() == Start(n, [])
    {
      active, records, phases := 0, [], seq(n, _ => Queued);
    }

    function State(): Fan
      reads this
    {
      Fan(active, phases, records)
    }

    /** `_trim_records`: the overflow is computed once, then the oldest finished records go one by one. */
    method TrimRecords()
      modifies this`records
      ensures records == Trimmed(old(records))
    {
      var overflow := FinishedCount(records) - MAX_FINISHED_RECORDS;
      while overflow > 0
        invariant Max(overflow, 0) == Max(FinishedCount(records) - MAX_FINISHED_RECORDS, 0)
        invariant Trimmed(records) == Trimmed(old(records))
      {
        WithoutFinished(records, Oldest(records));
        records := Without(records, Oldest(records));
        overflow := overflow - 1;
      }
    }

    /** From the semaphore to the first await: the checks, then the ceiling. */
    method EnterBody(lim: Limits, i: nat, rejected: Option<string>)
      requires Enabled(lim, State(), Enter(i, rejected))
      modifies this
      ensures State() == Next(lim, old(State()), Enter(i, rejected))
    {
      if rejected.Some? {
        phases := phases[i := Finished(Error(rejected.value))];
        return;
      }
      if active >= lim.roleLimit {
        phases := phases[i := Finished(CeilingReached)];
        return;
      }
      phases := phases[i := Building];
    }

    /** After the context await: register and count. */
    method BeginBody(lim: Limits, i: nat, subRole: string, now: int)
      requires Enabled(lim, State(), Built(i, subRole, now))
      modifies this
      ensures State() == Next(lim, old(State()), Built(i, subRole, now))
    {
      records := records + [Record(i, subRole, now, Live, None)];
      active := active + 1;
      phases := phases[i := Running];
    }

    /** The sub-agent returned: the status is set, then the summary is awaited. */
    method BodyReturned(lim: Limits, i: nat, result: string)
      requires Enabled(lim, State(), Returned(i, result))
      modifies this
      ensures State() == Next(lim, old(State()), Returned(i, result))
    {
      records := Marked(records, i, Succeeded);
      phases := phases[i := Recording(result)];
    }

    /** The `finally` block. */
    method CloseBody(i: nat, now: int)
      modifies this`active, this`records
      ensures active == old(active) - 1 && records == Closed(old(records), i, now)
    {
      records := Stamped(records, i, now);
      active := active - 1;
      TrimRecords();
    }

    method BodyRaised(lim: Limits, i: nat, error: string, now: int)
      requires Enabled(lim, State(), Raised(i, error, now))
      modifies this
      ensures State() == Next(lim, old(State()), Raised(i, error, now))
    {
      records := Marked(records, i, Failed);
      CloseBody(i, now);
      phases := phases[i := Finished(Error(error))];
    }

    method BodyRecorded(lim: Limits, i: nat, now: int)
      requires Enabled(lim, State(), Recorded(i, now))
      modifies this
      ensures State() == Next(lim, old(State()), Recorded(i, now))
    {
      CloseBody(i, now);
      phases := phases[i := Finished(Success(phases[i].result))];
    }

    /** Cancelled while the sub-agent runs, while its summary is recorded, or before it was counted. */
    method BodyCancelled(lim: Limits, i: nat, now: int)
      requires Enabled(lim, State(), Cancel(i, now))
      modifies this
      ensures State() == Next(lim, old(State()), Cancel(i, now))
    {
      if phases[i].Running? {
        records := Marked(records, i, Cancelled);
        CloseBody(i, now);
      } else if phases[i].Recording? {
        CloseBody(i, now);
      }
      phases := phases[i := Finished(CancelledOutcome)];
    }
  }

  // --------------------------------------------------- direct delegate calls

  /** Concurrent direct `delegate` calls: no semaphore, so every caller may enter. */
  function DirectLimits(roleLimit: int, n: nat): Limits { Limits(roleLimit, n) }

  function EnterAll(n: nat): seq<Step> { seq(n, i requires 0 <= i => Enter(i, None)) }

  function BuildAll(n: nat): seq<Step> { seq(n, i requires 0 <= i => Built(i, "", 0)) }

  function Partly(n: nat, k: nat, done: Phase, todo: Phase): seq<Phase> {
    seq(n, i => if i < k then done else todo)
  }

  lemma {:induction false} AllEnter(lim: Limits, n: nat, k: nat, rs: seq<Record>)
    requires lim.roleLimit >= 1 && lim.permits == n && k <= n
    ensures Run(lim, Fan(0, Partly(n, k, Building, Queued), rs), EnterAll(n)[k..])
         == Fan(0, Partly(n, n, Building, Queued), rs)
    decreases n - k
  {
    if k == n {
      assert EnterAll(n)[k..] == [];
    } else {
      var f := Fan(0, Partly(n, k, Building, Queued), rs);
      HoldersBelow(n, k);
      assert EnterAll(n)[k..][0] == Enter(k, None);
      assert Next(lim, f, Enter(k, None)).phases == Partly(n, k + 1, Building, Queued);
      assert EnterAll(n)[k..][1..] == EnterAll(n)[k + 1..];
      AllEnter(lim, n, k + 1, rs);
    }
  }

  lemma {:induction false} HoldersBelow(n: nat, k: nat)
    requires k <= n
    ensures CountHolding(Partly(n, k, Building, Queued)) == k
    decreases k
  {
    var ps := Partly(n, k, Building, Queued);
    if k == 0 {
      StartCounts(n, ps);
    } else {
      var before := Partly(n, k - 1, Building, Queued);
      HoldersBelow(n, k - 1);
      CountsMove(before, k - 1, Building);
      assert before[k - 1 := Building] == ps;
    }
  }

  lemma {:induction false} AllBuild(lim: Limits, n: nat, k: nat, rs: seq<Record>)
    requires k <= n
    ensures Run(lim, Fan(k, Partly(n, k, Running, Building), rs), BuildAll(n)[k..]).active == n
    decreases n - k
  {
    if k == n {
      assert BuildAll(n)[k..] == [];
    } else {
      var f := Fan(k, Partly(n, k, Running, Building), rs);
      assert BuildAll(n)[k..][0] == Built(k, "", 0);
      assert Next(lim, f, Built(k, "", 0)).phases == Partly(n, k + 1, Running, Building);
      assert BuildAll(n)[k..][1..] == BuildAll(n)[k + 1..];
      AllBuild(lim, n, k + 1, Next(lim, f, Built(k, "", 0)).records);
    }
  }

  lemma {:induction false} RunConcat(lim: Limits, f: Fan, a: seq<Step>, b: seq<Step>)
    ensures Run(lim, f, a + b) == Run(lim, Run(lim, f, a), b)
    decreases |a|
  {
    if a == [] {
      assert a + b == b;
    } else {
      assert (a + b)[1..] == a[1..] + b;
      RunConcat(lim, Next(lim, f, a[0]), a[1..], b);
    }
  }

  predicate AllOutside(f: Fan) { f.active == 0 && forall i :: 0 <= i < |f.phases| ==> !Holds(f.phases[i]) }

  /** Under a role ceiling below one nobody gets past the check. */
  lemma {:induction false} NobodyEnters(lim: Limits, f: Fan, steps: seq<Step>)
    requires lim.roleLimit <= 0 && AllOutside(f)
    ensures AllOutside(Run(lim, f, steps))
    decreases |steps|
  {
    if steps == [] {
    } else {
      NobodyEnters(lim, Next(lim, f, steps[0]), steps[1..]);
    }
  }

  /**
   * The check and the increment are separated by an await, so n direct calls can exceed the role
   * ceiling exactly when the ceiling lets anyone in at all and n is above it.
   */
  lemma DirectExceedsExactly(roleLimit: int, n: nat, past: seq<Record>)
    ensures (exists steps :: Run(DirectLimits(roleLimit, n), Start(n, past), steps).active > Max(roleLimit, 0))
       <==> 1 <= roleLimit < n
  {
    var lim := DirectLimits(roleLimit, n);
    if 1 <= roleLimit < n {
      assert Start(n, past).phases == Partly(n, 0, Building, Queued);
      assert EnterAll(n)[0..] == EnterAll(n) && BuildAll(n)[0..] == BuildAll(n);
      AllEnter(lim, n, 0, past);
      assert Partly(n, n, Building, Queued) == Partly(n, 0, Running, Building);
      AllBuild(lim, n, 0, past);
      RunConcat(lim, Start(n, past), EnterAll(n), BuildAll(n));
      assert Run(lim, Start(n, past), EnterAll(n) + BuildAll(n)).active > Max(roleLimit, 0);
    } else {
      forall steps ensures Run(lim, Start(n, past), steps).active <= Max(roleLimit, 0) {
        if roleLimit <= 0 {
          NobodyEnters(lim, Start(n, past), steps);
        } else {
          StartCounts(n, Start(n, past).phases);
          RunKeepsInv(lim, Start(n, past), steps);
          ActiveWithinHolding(Run(lim, Start(n, past), steps).phases);
        }
      }
    }
  }

  // ---------------------------------------------------------------- outcomes

  datatype Marker = Marker(subRole: string, task: string, status: string, result: string, error: string)

  function MarkerFor(task: (string, string), o: Outcome): Marker {
    match o
    case Success(r) => Marker(task.0, task.1, "success", r, "")
    case Error(e) => Marker(task.0, task.1, "error", "", e)
    case CeilingReached => Marker(task.0, task.1, "error", "", "RuntimeError")
    case CancelledOutcome => Marker(task.0, task.1, "cancelled", "", "CancelledError")
  }

  /** Each outcome shows as one of three statuses, with a result exactly for a success and an error name otherwise. */
  predicate Tells(m: Marker, o: Outcome) {
    && (m.status == "success" <==> o.Success?) && (m.status == "cancelled" <==> o.CancelledOutcome?)
    && (m.status == "error" <==> o.Error? || o.CeilingReached?)
    && m.result == (if o.Success? then o.result else "")
    && m.error == (match o
                   case Success(_) => ""
                   case Error(e) => e
                   case CeilingReached => "RuntimeError"
                   case CancelledOutcome => "CancelledError")
  }

  /** The zip at the end of `delegate_parallel`: one marker per input, in input order. */
  method Collect(tasks: seq<(string, string)>, f: Fan) returns (out: seq<Marker>)
    requires |f.phases| == |tasks| && forall i :: 0 <= i < |tasks| ==> f.phases[i].Finished?
    ensures |out| == |tasks|
    ensures forall i :: 0 <= i < |tasks| ==> out[i] == MarkerFor(tasks[i], f.phases[i].outcome)
    ensures forall i :: 0 <= i < |tasks| ==> out[i].subRole == tasks[i].0 && out[i].task == tasks[i].1
    ensures forall i :: 0 <= i < |tasks| ==> Tells(out[i], f.phases[i].outcome)
  {
    out := [];
    for i := 0 to |tasks|
      invariant |out| == i
      invariant forall k :: 0 <= k < i ==> out[k] == MarkerFor(tasks[k], f.phases[k].outcome)
    {
      match f.phases[i].outcome {
        case CancelledOutcome => out := out + [Marker(tasks[i].0, tasks[i].1, "cancelled", "", "CancelledError")];
        case Error(e) => out := out + [Marker(tasks[i].0, tasks[i].1, "error", "", e)];
        case CeilingReached => out := out + [Marker(tasks[i].0, tasks[i].1, "error", "", "RuntimeError")];
        case Success(r) => out := out + [Marker(tasks[i].0, tasks[i].1, "success", r, "")];
      }
    }
  }

  predicate Succeeds(f: Fan, i: nat) {
    i < |f.phases| && f.phases[i].Finished? && f.phases[i].outcome.Success?
  }

  /** A success marker carries the very text its own sub-agent returned. */
  lemma {:induction false} SuccessIsOwnResult(lim: Limits, f: Fan, steps: seq<Step>, i: nat)
    requires i < |f.phases| && f.phases[i] == Queued
    ensures var g := Run(lim, f, steps);
      Succeeds(g, i) ==> Returned(i, g.phases[i].outcome.result) in steps
  {
    RunTracksResult(lim, f, steps, i);
  }

  lemma {:induction false} RunTracksResult(lim: Limits, f: Fan, steps: seq<Step>, i: nat)
    requires i < |f.phases|
    ensures var g := Run(lim, f, steps);
      && |g.phases| == |f.phases|
      && (Succeeds(g, i) ==>
            || Returned(i, g.phases[i].outcome.result) in steps
            || f.phases[i] == Recording(g.phases[i].outcome.result)
            || f.phases[i] == g.phases[i])
    decreases |steps|
  {
    if steps == [] {
    } else {
      RunTracksResult(lim, Next(lim, f, steps[0]), steps[1..], i);
      var g := Run(lim, f, steps);
      if Succeeds(g, i) && Returned(i, g.phases[i].outcome.result) in steps[1..] {
        assert Returned(i, g.phases[i].outcome.result) in steps;
      }
    }
  }

  // ------------------------------------------------------- refused calls

  lemma {:induction false} FinishedStays(lim: Limits, f: Fan, steps: seq<Step>, i: nat)
    requires i < |f.phases| && f.phases[i].Finished?
    ensures i < |Run(lim, f, steps).phases| && Run(lim, f, steps).phases[i] == f.phases[i]
    decreases |steps|
  {
    if steps == [] {
    } else {
      FinishedStays(lim, Next(lim, f, steps[0]), steps[1..], i);
    }
  }

  /** A call refused at its checks ends with that refusal, whatever runs later, and touches no record and no counter. */
  lemma RefusedStaysRefused(lim: Limits, f: Fan, i: nat, refusal: string, steps: seq<Step>)
    requires Enabled(lim, f, Enter(i, Some(refusal)))
    ensures var refused := Next(lim, f, Enter(i, Some(refusal)));
      && refused.active == f.active && refused.records == f.records
      && i < |Run(lim, refused, steps).phases| && Run(lim, refused, steps).phases[i] == Finished(Error(refusal))
  {
    FinishedStays(lim, Next(lim, f, Enter(i, Some(refusal))), steps, i);
  }

  /** Past its checks: it holds or held a permit, so its sub-agent may run or has run. */
  predicate PastChecks(p: Phase) { Holds(p) || (p.Finished? && p.outcome.Success?) }

  /** Only a call that entered without a refusal ever gets past its checks. */
  lemma {:induction false} OnlyPermittedRuns(lim: Limits, f: Fan, steps: seq<Step>, i: nat)
    requires i < |f.phases| && !PastChecks(f.phases[i])
    ensures var g := Run(lim, f, steps);
      i < |g.phases| && (PastChecks(g.phases[i]) ==> Enter(i, None) in steps)
    decreases |steps|
  {
    if steps == [] {
    } else if PastChecks(Next(lim, f, steps[0]).phases[i]) {
      assert steps[0] == Enter(i, None);
      PhasesStay(lim, f, steps);
    } else {
      OnlyPermittedRuns(lim, Next(lim, f, steps[0]), steps[1..], i);
    }
  }

  lemma {:induction false} PhasesStay(lim: Limits, f: Fan, steps: seq<Step>)
    ensures |Run(lim, f, steps).phases| == |f.phases|
    decreases |steps|
  {
    if steps == [] {
    } else {
      PhasesStay(lim, Next(lim, f, steps[0]), steps[1..]);
    }
  }
}
