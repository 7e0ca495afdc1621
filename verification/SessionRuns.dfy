/** The session registry under concurrent callers: a step is what runs between two awaits (harnesses/sessions.py). */
module SessionRuns {
  import opened Prelude
  import opened Sessions

  /**
   * What a caller suspended at an await goes on to do: the factory's in `create`, the rebind factory's
   * in `resolve`.
   */
  datatype Waiting = Creating | Rebinding(tid: string)

  /** The history of a thread id: registrations, requests for it (lookups and resolves) and explicit releases. */
  datatype Entry = Registered(tid: string, at: int) | Asked(tid: string, at: int) | Freed(tid: string)

  datatype World = World(reg: Registry, clock: int, waiting: map<nat, Waiting>, log: seq<Entry>)

  /** A step that does not apply changes nothing and answers nothing. */
  datatype Event =
    | Wait(dt: nat)
    | SweepIdle
    | Ask(tid: string)
    | Free(tid: string)
    | BeginCreate(caller: nat)
    | EndCreate(caller: nat, made: string)
    | BeginResolve(caller: nat, tid: string)
    | EndResolve(caller: nat, rebound: string)
    | Drop(caller: nat)

  /** The code sweeps when it is called; the reference loses each session the moment its idle time is over. */
  datatype Mode = Opportunistic | Timer

  predicate IsCreating(w: World, caller: nat) { caller in w.waiting && w.waiting[caller].Creating? }

  predicate IsRebinding(w: World, caller: nat) { caller in w.waiting && w.waiting[caller].Rebinding? }

  /** Does the step begin with a sweep of idle sessions? */
  predicate Sweeps(w: World, e: Event) {
    e.SweepIdle? || e.Ask? || ((e.BeginCreate? || e.BeginResolve?) && e.caller !in w.waiting)
  }

  function Tidied(mode: Mode, cfg: Config, w: World): Registry {
    if mode.Timer? then w.reg else Sweep(cfg, w.reg, w.clock)
  }

  function Step(mode: Mode, cfg: Config, w: World, e: Event): (World, Option<Obs>) {
    match e
    case Wait(dt) =>
      var later := w.clock + dt;
      (w.(clock := later, reg := if mode.Timer? then Sweep(cfg, w.reg, later) else w.reg), None)
    case SweepIdle => (w.(reg := Tidied(mode, cfg, w)), None)
    case Ask(tid) =>
      var (r, found) := Use(cfg, Tidied(mode, cfg, w), tid, w.clock);
      (w.(reg := r, log := w.log + [Asked(tid, w.clock)]), Some(Found(found)))
    case Free(tid) =>
      (w.(reg := w.reg.(sessions := w.reg.sessions - {tid}), log := w.log + [Freed(tid)]),
       Some(Released(tid in w.reg.sessions)))
    case BeginCreate(c) =>
      if c in w.waiting then (w, None)
      else (w.(reg := Tidied(mode, cfg, w), waiting := w.waiting[c := Creating]), None)
    case EndCreate(c, tid) =>
      if !IsCreating(w, c) then (w, None)
      else
        var (r, o) := FinishCreate(cfg, w.reg, tid, w.clock);
        (w.(reg := r, waiting := w.waiting - {c}, log := w.log + if o.made.Ok? then [Registered(tid, w.clock)] else []),
         Some(o))
    case BeginResolve(c, tid) =>
      if c in w.waiting then (w, None)
      else
        var (r, d) := Decide(cfg, Tidied(mode, cfg, w), tid, w.clock);
        var asked := w.(reg := r, log := w.log + [Asked(tid, w.clock)]);
        (match d
         case Live(s) => (asked, Some(Found(Some(s))))
         case Unresumable => (asked, Some(Found(None)))
         case Rebind => (asked.(waiting := w.waiting[c := Rebinding(tid)]), None))
    case EndResolve(c, rebound) =>
      if !IsRebinding(w, c) then (w, None)
      else
        var tid := w.waiting[c].tid;
        var (r, o) := FinishResolve(cfg, w.reg, tid, rebound, w.clock);
        (w.(reg := r, waiting := w.waiting - {c}, log := w.log + if o.Found? then [Registered(tid, w.clock)] else []),
         Some(o))
    case Drop(c) => (w.(waiting := w.waiting - {c}), None)
  }

  function Next(cfg: Config, w: World, e: Event): World { Step(Opportunistic, cfg, w, e).0 }

  function Run(cfg: Config, w: World, es: seq<Event>): World {
    if es == [] then w else Next(cfg, Run(cfg, w, es[..|es| - 1]), es[|es| - 1])
  }

  lemma {:induction false} RunInTwo(cfg: Config, w: World, first: seq<Event>, second: seq<Event>)
    ensures Run(cfg, w, first + second) == Run(cfg, Run(cfg, w, first), second)
  {
    if second == [] {
      assert first + second == first;
    } else {
      assert (first + second)[..|first + second| - 1] == first + second[..|second| - 1];
      RunInTwo(cfg, w, first, second[..|second| - 1]);
    }
  }

  // ---------------------------------------------- sweeping against a timer

  /** Answers, with that of `expire` masked: it is treated apart. */
  function Answers(mode: Mode, cfg: Config, w: World, es: seq<Event>): seq<Option<Obs>>
    decreases |es|
  {
    if es == [] then []
    else
      var (w', o) := Step(mode, cfg, w, es[0]);
      [Masked(o)] + Answers(mode, cfg, w', es[1..])
  }

  function Masked(o: Option<Obs>): Option<Obs> { if o.Some? then Some(Visible(o.value)) else None }

  /**
   * The factory's await outlasted the sweep of `create`: the id it returns belongs to a session that is
   * idle but unswept.
   */
  predicate MeetsStaleId(cfg: Config, w: World, e: Event) {
    e.EndCreate? && IsCreating(w, e.caller) && e.made != ""
    && e.made in w.reg.sessions && Idle(cfg, w.reg.sessions[e.made], w.clock)
  }

  predicate NoStaleId(cfg: Config, w: World, es: seq<Event>)
    decreases |es|
  {
    es == [] || (!MeetsStaleId(cfg, w, es[0]) && NoStaleId(cfg, Next(cfg, w, es[0]), es[1..]))
  }

  function Swept(cfg: Config, w: World): World { w.(reg := Sweep(cfg, w.reg, w.clock)) }

  lemma PutThenSweep(cfg: Config, r: Registry, now: int, tid: string, s: Session)
    requires Sane(cfg) && s.lastUsed == now
    ensures Sweep(cfg, r.(sessions := r.sessions[tid := s]), now).sessions == Sweep(cfg, r, now).sessions[tid := s]
  {
  }

  lemma TouchThenSweep(cfg: Config, r: Registry, now: int, tid: string)
    requires Sane(cfg)
    ensures var swept := Sweep(cfg, r, now);
      Sweep(cfg, Use(cfg, swept, tid, now).0, now) == Use(cfg, swept, tid, now).0
  {
    var swept := Sweep(cfg, r, now);
    SweepTwice(cfg, r, now, now);
    if tid in swept.sessions {
      UsedSurvives(cfg, swept, now, tid, swept.sessions[tid].(lastUsed := now));
    }
  }

  /** One step of the code and of the timer, from worlds that differ by a sweep. */
  predicate Coupled(cfg: Config, w: World, e: Event) {
    && Masked(Step(Opportunistic, cfg, w, e).1) == Masked(Step(Timer, cfg, Swept(cfg, w), e).1)
    && Swept(cfg, Next(cfg, w, e)) == Step(Timer, cfg, Swept(cfg, w), e).0
  }

  lemma EndsCoupled(cfg: Config, w: World, e: Event)
    requires Sane(cfg) && !MeetsStaleId(cfg, w, e) && (e.EndCreate? || e.EndResolve?)
    ensures Coupled(cfg, w, e)
  {
    if e.EndCreate? {
      PutThenSweep(cfg, w.reg, w.clock, e.made, Session(e.made, w.reg.next, w.clock, w.clock));
    } else if IsRebinding(w, e.caller) {
      var tid := w.waiting[e.caller].tid;
      PutThenSweep(cfg, w.reg, w.clock, tid, Session(tid, w.reg.next, w.clock, w.clock));
    }
  }

  lemma AsksCoupled(cfg: Config, w: World, e: Event)
    requires Sane(cfg) && (e.Ask? || e.BeginResolve?)
    ensures Coupled(cfg, w, e)
  {
    SweepTwice(cfg, w.reg, w.clock, w.clock);
    TouchThenSweep(cfg, w.reg, w.clock, e.tid);
  }

  lemma StepCoupled(cfg: Config, w: World, e: Event)
    requires Sane(cfg) && !MeetsStaleId(cfg, w, e)
    ensures Coupled(cfg, w, e)
  {
    if e.EndCreate? || e.EndResolve? {
      EndsCoupled(cfg, w, e);
    } else if e.Ask? || e.BeginResolve? {
      AsksCoupled(cfg, w, e);
    } else {
      SweepTwice(cfg, w.reg, w.clock, if e.Wait? then w.clock + e.dt else w.clock);
      if e.Free? {
        assert Sweep(cfg, Next(cfg, w, e).reg, w.clock).sessions
            == Sweep(cfg, w.reg, w.clock).sessions - {e.tid};
      }
    }
  }

  lemma StaleIdTells(cfg: Config, w: World, e: Event)
    requires MeetsStaleId(cfg, w, e)
    ensures Masked(Step(Opportunistic, cfg, w, e).1) != Masked(Step(Timer, cfg, Swept(cfg, w), e).1)
  {
  }

  /**
   * With create and resolve split at their awaits, sweeping cannot be told from a timer if and only
   * if no create ends with the id of a session that went idle while its factory was awaited and has
   * not been swept: `create` does not sweep again after its await. `expire` aside, every other
   * answer is the timer's.
   */
  lemma {:induction false} SweepingIsTimerExactly(cfg: Config, w: World, es: seq<Event>)
    requires Sane(cfg)
    ensures Answers(Opportunistic, cfg, w, es) == Answers(Timer, cfg, Swept(cfg, w), es) <==> NoStaleId(cfg, w, es)
    decreases |es|
  {
    if es == [] {
    } else {
      hide Step, MeetsStaleId;
      var mine, reference := Answers(Opportunistic, cfg, w, es), Answers(Timer, cfg, Swept(cfg, w), es);
      if MeetsStaleId(cfg, w, es[0]) {
        StaleIdTells(cfg, w, es[0]);
        assert mine[0] != reference[0];
      } else {
        StepCoupled(cfg, w, es[0]);
        SweepingIsTimerExactly(cfg, Next(cfg, w, es[0]), es[1..]);
        assert mine[1..] == Answers(Opportunistic, cfg, Next(cfg, w, es[0]), es[1..]);
        assert reference[1..] == Answers(Timer, cfg, Step(Timer, cfg, Swept(cfg, w), es[0]).0, es[1..]);
        assert mine == [mine[0]] + mine[1..] && reference == [reference[0]] + reference[1..];
      }
    }
  }

  /** The answer of `expire` differs from the timer's exactly for a session that is idle but not yet swept. */
  lemma ExpireAnswerExactly(cfg: Config, w: World, tid: string)
    ensures Step(Opportunistic, cfg, w, Free(tid)).1 != Step(Timer, cfg, Swept(cfg, w), Free(tid)).1
       <==> tid in w.reg.sessions && Idle(cfg, w.reg.sessions[tid], w.clock)
  {
  }

  // ----------------------------------------------- histories of one thread

  function Start(store: map<string, Meta>, clock: int): World {
    World(Registry(map[], store, 0), clock, map[], [])
  }

  /**
   * The signs of life of a thread since it was last registered: that moment and every request since;
   * none once released.
   */
  function Since(log: seq<Entry>, tid: string): Option<seq<int>> {
    if log == [] then None
    else
      var before, e := Since(log[..|log| - 1], tid), log[|log| - 1];
      if e.tid != tid then before
      else match e
        case Registered(_, at) => Some([at])
        case Freed(_) => None
        case Asked(_, at) => if before.Some? then Some(before.value + [at]) else None
  }

  /** No two consecutive signs of life are further apart than the TTL. */
  predicate Gapless(times: seq<int>, ttl: int) {
    forall k :: 0 < k < |times| ==> times[k] - times[k - 1] <= ttl
  }

  /** Registered, not released since, and never silent for longer than the TTL up to now. */
  predicate KeptAlive(log: seq<Entry>, tid: string, ttl: int, now: int) {
    var times := Since(log, tid);
    times.Some? && times.value != [] && Gapless(times.value, ttl) && now - times.value[|times.value| - 1] <= ttl
  }

  /** What the registry knows of a thread fits its history. */
  predicate Remembers(cfg: Config, w: World, tid: string) {
    var times := Since(w.log, tid);
    && (times.Some? ==> times.value != [])
    && if tid in w.reg.sessions
       then times.Some? && Gapless(times.value, cfg.idleTtl)
            && w.reg.sessions[tid].lastUsed == times.value[|times.value| - 1]
       else !KeptAlive(w.log, tid, cfg.idleTtl, w.clock)
  }

  lemma SinceAdds(log: seq<Entry>, e: Entry, tid: string)
    ensures Since(log + [e], tid)
         == if e.tid != tid then Since(log, tid)
            else match e
              case Registered(_, at) => Some([at])
              case Freed(_) => None
              case Asked(_, at) => if Since(log, tid).Some? then Some(Since(log, tid).value + [at]) else None
  {
    assert (log + [e])[..|log|] == log;
  }

  lemma GaplessAdds(times: seq<int>, at: int, ttl: int)
    requires times != []
    ensures Gapless(times + [at], ttl) <==> Gapless(times, ttl) && at - times[|times| - 1] <= ttl
  {
    var more := times + [at];
    assert forall k :: 0 <= k < |times| ==> more[k] == times[k];
    if Gapless(more, ttl) {
      assert more[|times|] - more[|times| - 1] <= ttl;
      forall k | 0 < k < |times| ensures times[k] - times[k - 1] <= ttl { assert more[k] - more[k - 1] <= ttl; }
    }
  }

  lemma AskRemembers(cfg: Config, w: World, after: World, asked: string, tid: string)
    requires Remembers(cfg, w, tid) && after.clock == w.clock && after.log == w.log + [Asked(asked, w.clock)]
    requires after.reg.sessions == Use(cfg, Sweep(cfg, w.reg, w.clock), asked, w.clock).0.sessions
    ensures Remembers(cfg, after, tid)
  {
    hide Since, Gapless;
    SinceAdds(w.log, Asked(asked, w.clock), tid);
    if Since(w.log, tid).Some? {
      GaplessAdds(Since(w.log, tid).value, w.clock, cfg.idleTtl);
    }
  }

  lemma RegisterRemembers(cfg: Config, w: World, after: World, made: string, tid: string)
    requires Remembers(cfg, w, tid) && after.clock == w.clock
    requires after.log == w.log + [Registered(made, w.clock)]
    requires after.reg.sessions == w.reg.sessions[made := Session(made, w.reg.next, w.clock, w.clock)]
    ensures Remembers(cfg, after, tid)
  {
    SinceAdds(w.log, Registered(made, w.clock), tid);
  }

  lemma NextRemembers(cfg: Config, w: World, e: Event, tid: string)
    requires Remembers(cfg, w, tid)
    ensures Remembers(cfg, Next(cfg, w, e), tid)
  {
    hide Since, Gapless;
    var after := Next(cfg, w, e);
    match e {
      case Ask(asked) => AskRemembers(cfg, w, after, asked, tid);
      case BeginResolve(c, asked) =>
        if c !in w.waiting {
          AskRemembers(cfg, w, after, asked, tid);
        }
      case EndCreate(c, made) =>
        if after.log != w.log {
          RegisterRemembers(cfg, w, after, made, tid);
        }
      case EndResolve(c, rebound) =>
        if after.log != w.log {
          RegisterRemembers(cfg, w, after, w.waiting[c].tid, tid);
        }
      case Free(freed) => SinceAdds(w.log, Freed(freed), tid);
      case _ =>
    }
  }

  lemma {:induction false} RunRemembers(cfg: Config, store: map<string, Meta>, clock: int, es: seq<Event>, tid: string)
    ensures Remembers(cfg, Run(cfg, Start(store, clock), es), tid)
  {
    if es == [] {
    } else {
      RunRemembers(cfg, store, clock, es[..|es| - 1], tid);
      NextRemembers(cfg, Run(cfg, Start(store, clock), es[..|es| - 1]), es[|es| - 1], tid);
    }
  }

  /**
   * Over every run of a fresh registry, whatever else its callers do: lookup answers for a thread if
   * and only if its last create or re-bind was not followed by a release, and no two requests for it
   * since, nor the last one and this, are further apart than the idle TTL.
   */
  lemma LookupOverHistory(cfg: Config, store: map<string, Meta>, clock: int, es: seq<Event>, tid: string)
    ensures var w := Run(cfg, Start(store, clock), es);
      Step(Opportunistic, cfg, w, Ask(tid)).1.value.session.Some? <==> KeptAlive(w.log, tid, cfg.idleTtl, w.clock)
  {
    RunRemembers(cfg, store, clock, es, tid);
  }

  // ---------------------------------------------------------- dead records

  predicate CreatesNo(es: seq<Event>, tid: string) {
    forall i :: 0 <= i < |es| && es[i].EndCreate? ==> es[i].made != tid
  }

  predicate RebindWaits(w: World, tid: string) { exists c :: c in w.waiting && w.waiting[c] == Rebinding(tid) }

  /** A rebind waits only after a resolve that found the row fit for it. */
  lemma WaitsMove(cfg: Config, w: World, e: Event, tid: string)
    requires RebindWaits(Next(cfg, w, e), tid)
    ensures || RebindWaits(w, tid)
            || (e.BeginResolve? && e.tid == tid && Decide(cfg, Sweep(cfg, w.reg, w.clock), tid, w.clock).1.Rebind?)
  {
    hide Decide, Use, Sweep, FinishCreate, FinishResolve;
    var after := Next(cfg, w, e);
    var c :| c in after.waiting && after.waiting[c] == Rebinding(tid);
    assert c in w.waiting && w.waiting[c] == Rebinding(tid) ==> RebindWaits(w, tid);
  }

  lemma NextKeepsDead(cfg: Config, w: World, e: Event, tid: string)
    requires Dead(w.reg, tid, w.clock) && !RebindWaits(w, tid) && (e.EndCreate? ==> e.made != tid)
    ensures Dead(Next(cfg, w, e).reg, tid, Next(cfg, w, e).clock)
  {
    hide RebindWaits;
    if e.EndResolve? && IsRebinding(w, e.caller) {
      NotWaiting(w, e.caller, tid);
    }
  }

  lemma NotWaiting(w: World, caller: nat, tid: string)
    requires !RebindWaits(w, tid) && caller in w.waiting
    ensures w.waiting[caller] != Rebinding(tid)
  {
  }

  lemma {:induction false} DeadLasts(cfg: Config, w: World, es: seq<Event>, tid: string)
    requires Dead(w.reg, tid, w.clock) && !RebindWaits(w, tid) && CreatesNo(es, tid)
    ensures var v := Run(cfg, w, es); Dead(v.reg, tid, v.clock) && !RebindWaits(v, tid)
  {
    if es == [] {
    } else {
      hide Next, RebindWaits;
      DeadLasts(cfg, w, es[..|es| - 1], tid);
      var v, e := Run(cfg, w, es[..|es| - 1]), es[|es| - 1];
      NextKeepsDead(cfg, v, e, tid);
      if RebindWaits(Next(cfg, v, e), tid) {
        WaitsMove(cfg, v, e, tid);
      }
    }
  }

  /**
   * A record that is marked expired or past its window is never revived without a create of its id,
   * over every run, if and only if no resolve of it is waiting at the rebind await: one that decided
   * before the record lapsed still installs its session.
   */
  lemma StaysDeadExactly(cfg: Config, w: World, tid: string)
    requires Dead(w.reg, tid, w.clock)
    ensures (forall es :: CreatesNo(es, tid) ==> Dead(Run(cfg, w, es).reg, tid, Run(cfg, w, es).clock))
       <==> !RebindWaits(w, tid)
  {
    if RebindWaits(w, tid) {
      var c :| c in w.waiting && w.waiting[c] == Rebinding(tid);
      var es := [EndResolve(c, tid)];
      assert es[..0] == [];
      assert Run(cfg, w, es) == Next(cfg, w, es[0]);
      assert CreatesNo(es, tid) && !Dead(Run(cfg, w, es).reg, tid, Run(cfg, w, es).clock);
    } else {
      forall es | CreatesNo(es, tid) ensures Dead(Run(cfg, w, es).reg, tid, Run(cfg, w, es).clock) {
        DeadLasts(cfg, w, es, tid);
      }
    }
  }

  /** While it stays dead, it resolves to nothing. */
  lemma DeadResolvesToNothing(cfg: Config, w: World, es: seq<Event>, tid: string, caller: nat)
    requires Dead(w.reg, tid, w.clock) && !RebindWaits(w, tid) && CreatesNo(es, tid)
    requires caller !in Run(cfg, w, es).waiting
    ensures Step(Opportunistic, cfg, Run(cfg, w, es), BeginResolve(caller, tid)).1 == Some(Found(None))
  {
    DeadLasts(cfg, w, es, tid);
  }

  /** The run behind a revival, up to the moment the record is marked expired. */
  lemma LapseWhileWaiting(cfg: Config, w: World, tid: string, dt: nat)
    requires Sane(cfg) && w.waiting == map[] && Decide(cfg, Sweep(cfg, w.reg, w.clock), tid, w.clock).1.Rebind?
    requires Expired(w.reg.store[tid], w.clock + dt)
    ensures var v := Run(cfg, w, [BeginResolve(0, tid), Wait(dt), BeginResolve(1, tid)]);
      && v.waiting == map[0 := Rebinding(tid)]
      && tid !in v.reg.sessions && tid in v.reg.store && v.reg.store[tid].status.Lapsed?
  {
    var w1 := Next(cfg, w, BeginResolve(0, tid));
    var w2 := Next(cfg, w1, Wait(dt));
    RunAdds(cfg, w, [], BeginResolve(0, tid));
    RunAdds(cfg, w, [BeginResolve(0, tid)], Wait(dt));
    RunAdds(cfg, w, [BeginResolve(0, tid), Wait(dt)], BeginResolve(1, tid));
    assert [] + [BeginResolve(0, tid)] == [BeginResolve(0, tid)];
    assert [BeginResolve(0, tid)] + [Wait(dt)] == [BeginResolve(0, tid), Wait(dt)];
    assert [BeginResolve(0, tid), Wait(dt)] + [BeginResolve(1, tid)]
        == [BeginResolve(0, tid), Wait(dt), BeginResolve(1, tid)];
  }

  /** The revival happens: one resolve decides in time, a second finds the record lapsed, the first installs. */
  lemma LapsedRecordRevived(cfg: Config, w: World, tid: string, dt: nat)
    requires Sane(cfg) && w.waiting == map[] && Decide(cfg, Sweep(cfg, w.reg, w.clock), tid, w.clock).1.Rebind?
    requires Expired(w.reg.store[tid], w.clock + dt)
    ensures var es := [BeginResolve(0, tid), Wait(dt), BeginResolve(1, tid)];
      && Dead(Run(cfg, w, es).reg, tid, Run(cfg, w, es).clock)
      && var v := Run(cfg, w, es + [EndResolve(0, tid)]);
         tid in v.reg.sessions && v.reg.store[tid].status.Lapsed?
         && Step(Opportunistic, cfg, v, Ask(tid)).1.value.session.Some?
  {
    hide Run;
    LapseWhileWaiting(cfg, w, tid, dt);
    RunAdds(cfg, w, [BeginResolve(0, tid), Wait(dt), BeginResolve(1, tid)], EndResolve(0, tid));
  }

  // -------------------------------------------------- one session per thread

  /** The answer hands out a session that was not in the registry before. */
  predicate HandsOutNew(cfg: Config, w: World, e: Event, tid: string) {
    var o := Step(Opportunistic, cfg, w, e).1;
    && o.Some?
    && ((e.EndCreate? && o.value.Created? && o.value.made.Ok? && e.made == tid)
        || (e.EndResolve? && o.value.Found? && w.waiting[e.caller] == Rebinding(tid)))
  }

  /** The step releases the thread: by `expire`, or by a sweep that finds it idle. */
  predicate Releases(cfg: Config, w: World, e: Event, tid: string) {
    e == Free(tid) || (Sweeps(w, e) && tid in w.reg.sessions && Idle(cfg, w.reg.sessions[tid], w.clock))
  }

  /** Over the run, some caller was handed a new session of the thread and nothing released it afterwards. */
  ghost predicate Stands(cfg: Config, w: World, es: seq<Event>, tid: string) {
    exists k :: 0 <= k < |es| && HandsOutNew(cfg, Run(cfg, w, es[..k]), es[k], tid)
                && forall j :: k < j < |es| ==> !Releases(cfg, Run(cfg, w, es[..j]), es[j], tid)
  }

  /**
   * `expire` answers True over a run of a fresh registry if and only if the thread was handed out and
   * nothing released it since, and no second call finds it again.
   */
  lemma ExpireOverHistory(cfg: Config, store: map<string, Meta>, clock: int, es: seq<Event>, tid: string)
    ensures var w := Run(cfg, Start(store, clock), es);
      && Step(Opportunistic, cfg, w, Free(tid)).1 == Some(Released(Stands(cfg, Start(store, clock), es, tid)))
      && Step(Opportunistic, cfg, Next(cfg, w, Free(tid)), Free(tid)).1 == Some(Released(false))
  {
    hide Stands, Run;
    PresentIffStands(cfg, Start(store, clock), es, tid);
  }

  /** A call ends once: after its end nothing that is said in its name ends it again. */
  lemma EndsOnce(cfg: Config, w: World, e: Event, again: Event)
    requires (e.EndCreate? || e.EndResolve?) && (again.EndCreate? || again.EndResolve?) && again.caller == e.caller
    requires Step(Opportunistic, cfg, w, e).1.Some?
    ensures Step(Opportunistic, cfg, Next(cfg, w, e), again) == (Next(cfg, w, e), None)
  {
  }

  predicate NotOf(es: seq<Event>, caller: nat) {
    forall i :: 0 <= i < |es| ==>
      match es[i]
      case BeginCreate(c) => c != caller
      case EndCreate(c, _) => c != caller
      case BeginResolve(c, _) => c != caller
      case EndResolve(c, _) => c != caller
      case Drop(c) => c != caller
      case _ => true
  }

  lemma PresenceMoves(cfg: Config, w: World, e: Event, tid: string)
    ensures tid in Next(cfg, w, e).reg.sessions
       <==> HandsOutNew(cfg, w, e, tid) || (tid in w.reg.sessions && !Releases(cfg, w, e, tid))
  {
  }

  lemma NothingStandsYet(cfg: Config, w: World, tid: string)
    ensures Run(cfg, w, []) == w && !Stands(cfg, w, [], tid)
  {
  }

  lemma RunAdds(cfg: Config, w: World, init: seq<Event>, e: Event)
    ensures Run(cfg, w, init + [e]) == Next(cfg, Run(cfg, w, init), e)
  {
    hide Next;
    assert (init + [e])[..|init|] == init;
  }

  lemma {:induction false} PresentIffStands(cfg: Config, w: World, es: seq<Event>, tid: string)
    requires tid !in w.reg.sessions
    ensures tid in Run(cfg, w, es).reg.sessions <==> Stands(cfg, w, es, tid)
  {
    hide HandsOutNew, Releases, Next, Stands, Run;
    if es == [] {
      NothingStandsYet(cfg, w, tid);
    } else {
      var init, e := es[..|es| - 1], es[|es| - 1];
      assert es == init + [e];
      PresentIffStands(cfg, w, init, tid);
      PresenceMoves(cfg, Run(cfg, w, init), e, tid);
      RunAdds(cfg, w, init, e);
      StandsAdds(cfg, w, init, e, tid);
    }
  }

  lemma StandsAdds(cfg: Config, w: World, init: seq<Event>, e: Event, tid: string)
    ensures Stands(cfg, w, init + [e], tid)
       <==> HandsOutNew(cfg, Run(cfg, w, init), e, tid)
            || (Stands(cfg, w, init, tid) && !Releases(cfg, Run(cfg, w, init), e, tid))
  {
    hide HandsOutNew, Releases, Run;
    var es := init + [e];
    assert es[..|init|] == init;
    assert forall k :: 0 <= k < |init| ==> es[..k] == init[..k] && es[k] == init[k];
    if Stands(cfg, w, es, tid) {
      var k :| 0 <= k < |es| && HandsOutNew(cfg, Run(cfg, w, es[..k]), es[k], tid)
               && forall j :: k < j < |es| ==> !Releases(cfg, Run(cfg, w, es[..j]), es[j], tid);
      if k < |init| {
        assert !Releases(cfg, Run(cfg, w, es[..|init|]), es[|init|], tid);
      }
    }
  }

  lemma {:induction false} WaitsOn(cfg: Config, w: World, es: seq<Event>, caller: nat)
    requires caller in w.waiting && NotOf(es, caller) && SerialsBelow(w.reg)
    ensures var v := Run(cfg, w, es);
      caller in v.waiting && v.waiting[caller] == w.waiting[caller] && SerialsBelow(v.reg)
  {
    if es == [] {
    } else {
      assert NotOf(es[..|es| - 1], caller);
      WaitsOn(cfg, w, es[..|es| - 1], caller);
      var v, e := Run(cfg, w, es[..|es| - 1]), es[|es| - 1];
      assert es[|es| - 1] == e;
      NextSerials(cfg, v, e);
    }
  }

  lemma NextSerials(cfg: Config, w: World, e: Event)
    requires SerialsBelow(w.reg)
    ensures SerialsBelow(Next(cfg, w, e).reg)
  {
  }

  /** The end of a caller's resolve puts another session where one is registered. */
  predicate Replaces(cfg: Config, w: World, caller: nat, tid: string) {
    var after := Next(cfg, w, EndResolve(caller, tid));
    && tid in w.reg.sessions && tid in after.reg.sessions
    && after.reg.sessions[tid].serial != w.reg.sessions[tid].serial
  }

  lemma EndReplacesPresent(cfg: Config, w: World, caller: nat, tid: string)
    requires caller in w.waiting && w.waiting[caller] == Rebinding(tid) && SerialsBelow(w.reg)
    ensures Replaces(cfg, w, caller, tid) <==> tid in w.reg.sessions
  {
  }

  /**
   * One session per thread, exactly. A resolve that waited at the rebind await replaces a session
   * that others were handed and still hold registered if and only if, between its two halves, some
   * create or resolve of the thread handed one out and nothing released the thread afterwards.
   */
  lemma ReplacesIffOverlapped(cfg: Config, w: World, caller: nat, tid: string, es: seq<Event>)
    requires caller !in w.waiting && SerialsBelow(w.reg) && NotOf(es, caller)
    requires Decide(cfg, Sweep(cfg, w.reg, w.clock), tid, w.clock).1.Rebind?
    ensures var begun := Next(cfg, w, BeginResolve(caller, tid));
      Replaces(cfg, Run(cfg, begun, es), caller, tid) <==> Stands(cfg, begun, es, tid)
  {
    var begun := Next(cfg, w, BeginResolve(caller, tid));
    NextSerials(cfg, w, BeginResolve(caller, tid));
    WaitsOn(cfg, begun, es, caller);
    EndReplacesPresent(cfg, Run(cfg, begun, es), caller, tid);
    PresentIffStands(cfg, begun, es, tid);
  }

  // ------------------------------------------------------------- own role

  predicate RowIsOwn(cfg: Config, store: map<string, Meta>, tid: string) {
    tid in store && store[tid].role == cfg.role
  }

  /** Every registered thread, and every one waiting to be re-bound, has a row of the registry's own role. */
  ghost predicate OwnRole(cfg: Config, w: World) {
    cfg.hasStore && cfg.role != "" ==>
      forall tid :: tid in w.reg.sessions || RebindWaits(w, tid) ==> RowIsOwn(cfg, w.reg.store, tid)
  }

  lemma NextKeepsRows(cfg: Config, w: World, e: Event, tid: string)
    requires cfg.hasStore && RowIsOwn(cfg, w.reg.store, tid)
    ensures RowIsOwn(cfg, Next(cfg, w, e).reg.store, tid)
  {
  }

  lemma NewSessionsOwnRole(cfg: Config, w: World, e: Event, tid: string)
    requires cfg.hasStore && tid in Next(cfg, w, e).reg.sessions && tid !in w.reg.sessions
    ensures RebindWaits(w, tid) || RowIsOwn(cfg, Next(cfg, w, e).reg.store, tid)
  {
    if e.EndResolve? && IsRebinding(w, e.caller) {
      assert w.waiting[e.caller] == Rebinding(tid);
    }
  }

  lemma NextKeepsOwnRole(cfg: Config, w: World, e: Event)
    requires OwnRole(cfg, w)
    ensures OwnRole(cfg, Next(cfg, w, e))
  {
    hide Next, RebindWaits;
    var after := Next(cfg, w, e);
    if cfg.hasStore && cfg.role != "" {
      forall tid | tid in after.reg.sessions || RebindWaits(after, tid) ensures RowIsOwn(cfg, after.reg.store, tid) {
        if RebindWaits(after, tid) {
          WaitsMove(cfg, w, e, tid);
        }
        if tid in after.reg.sessions && tid !in w.reg.sessions {
          NewSessionsOwnRole(cfg, w, e, tid);
        }
        if RowIsOwn(cfg, w.reg.store, tid) {
          NextKeepsRows(cfg, w, e, tid);
        }
      }
    }
  }

  /** Over every run, whatever rows other roles left in the store, no thread of another role is ever continued. */
  lemma {:induction false} ForeignRoleNeverContinued(cfg: Config, store: map<string, Meta>, clock: int, es: seq<Event>)
    ensures OwnRole(cfg, Run(cfg, Start(store, clock), es))
  {
    if es == [] {
    } else {
      ForeignRoleNeverContinued(cfg, store, clock, es[..|es| - 1]);
      NextKeepsOwnRole(cfg, Run(cfg, Start(store, clock), es[..|es| - 1]), es[|es| - 1]);
    }
  }

  // ------------------------------------------------- uninterrupted calls

  /** With nothing between its halves, a call is the single step of `Sessions`; lookup and expire have no halves. */
  lemma HalvesMakeTheCall(cfg: Config, w: World, caller: nat, tid: string, made: string)
    requires caller !in w.waiting
    ensures var asked, freed := Step(Opportunistic, cfg, w, Ask(tid)), Step(Opportunistic, cfg, w, Free(tid));
      && (asked.0.reg, asked.1)
          == (Call(cfg, w.reg, w.clock, Lookup(tid)).0, Some(Call(cfg, w.reg, w.clock, Lookup(tid)).1))
      && (freed.0.reg, freed.1)
          == (Call(cfg, w.reg, w.clock, Expire(tid)).0, Some(Call(cfg, w.reg, w.clock, Expire(tid)).1))
    ensures var created := Step(Opportunistic, cfg, Next(cfg, w, BeginCreate(caller)), EndCreate(caller, made));
      (created.0.reg, created.1) == (Call(cfg, w.reg, w.clock, Create(made)).0,
                                     Some(Call(cfg, w.reg, w.clock, Create(made)).1))
    ensures var begun := Step(Opportunistic, cfg, w, BeginResolve(caller, tid));
      var done := if begun.1.Some? then begun else Step(Opportunistic, cfg, begun.0, EndResolve(caller, made));
      (done.0.reg, done.1) == (Call(cfg, w.reg, w.clock, Resolve(tid, made)).0,
                               Some(Call(cfg, w.reg, w.clock, Resolve(tid, made)).1))
  {
  }
}
