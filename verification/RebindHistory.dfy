/** When a released thread can be re-bound, told from what was asked of its registry (harnesses/sessions.py). */
module RebindHistory {
  import opened Prelude
  import opened Sessions
  import opened SessionRuns

  /** The last create, successful lookup or resolve, or re-bind of a thread. */
  function LastUse(log: seq<Entry>, tid: string, idleTtl: int): Option<int> {
    if log == [] then None
    else
      var init, e := log[..|log| - 1], log[|log| - 1];
      if e.Registered? && e.tid == tid then Some(e.at)
      else if e.Asked? && e.tid == tid && KeptAlive(init, tid, idleTtl, e.at) then Some(e.at)
      else LastUse(init, tid, idleTtl)
  }

  /** When the window of a thread's row ends: a session TTL after its last use, or as found at the start. */
  function WindowEnd(cfg: Config, store: map<string, Meta>, log: seq<Entry>, tid: string): Option<int> {
    match LastUse(log, tid, cfg.idleTtl)
    case Some(t) => Some(t + cfg.durableTtl)
    case None => if tid in store then store[tid].expiresAt else None
  }

  /** A resolve of a thread that is no longer kept alive comes after the end of its window. */
  predicate ComesTooLate(cfg: Config, store: map<string, Meta>, w: World, e: Event, tid: string) {
    && e.BeginResolve? && e.tid == tid && e.caller !in w.waiting && !KeptAlive(w.log, tid, cfg.idleTtl, w.clock)
    && var end := WindowEnd(cfg, store, w.log, tid); end.Some? && end.value <= w.clock
  }

  predicate CreatesAnew(cfg: Config, w: World, e: Event, tid: string) { e.EndCreate? && HandsOutNew(cfg, w, e, tid) }

  /** Some resolve came too late, and no create of the thread since. */
  ghost predicate GivenUp(cfg: Config, store: map<string, Meta>, clock: int, es: seq<Event>, tid: string) {
    exists k :: 0 <= k < |es| && ComesTooLate(cfg, store, Run(cfg, Start(store, clock), es[..k]), es[k], tid)
                && forall j :: k < j < |es| ==> !CreatesAnew(cfg, Run(cfg, Start(store, clock), es[..j]), es[j], tid)
  }

  predicate RoleFits(cfg: Config, m: Meta) { cfg.role == "" || m.role == cfg.role }

  /** What the row of a thread says fits its history. */
  predicate RowTold(cfg: Config, store: map<string, Meta>, w: World, tid: string, givenUp: bool) {
    var used, now := LastUse(w.log, tid, cfg.idleTtl).Some?, w.reg.store;
    && (tid in now <==> used || tid in store)
    && (tid in w.reg.sessions ==> used)
    && (used ==> RoleFits(cfg, now[tid]))
    && (!used && tid in store ==> now[tid].role == store[tid].role)
    && (RebindWaits(w, tid) ==> tid in now && RoleFits(cfg, now[tid]) && (used || store[tid].status.Active?))
    && (tid in now ==> now[tid].expiresAt == WindowEnd(cfg, store, w.log, tid))
    && (tid in now ==> (now[tid].status.Active? <==> (used || store[tid].status.Active?) && !givenUp))
  }

  lemma LastUseAdds(log: seq<Entry>, e: Entry, tid: string, idleTtl: int)
    ensures LastUse(log + [e], tid, idleTtl)
         == if e.Registered? && e.tid == tid then Some(e.at)
            else if e.Asked? && e.tid == tid && KeptAlive(log, tid, idleTtl, e.at) then Some(e.at)
            else LastUse(log, tid, idleTtl)
  {
    assert (log + [e])[..|log|] == log;
  }

  /** A thread is live after a sweep exactly if its history kept it alive. */
  lemma LiveIsKept(cfg: Config, w: World, tid: string)
    requires Remembers(cfg, w, tid)
    ensures tid in Sweep(cfg, w.reg, w.clock).sessions <==> KeptAlive(w.log, tid, cfg.idleTtl, w.clock)
  {
  }

  predicate Durable(cfg: Config) { cfg.hasStore && cfg.hasRebind && cfg.durableTtl > 0 }

  /** The rows of a thread before and after a step, where only its own entry matters. */
  lemma AskKeepsRow(cfg: Config, store: map<string, Meta>, w: World, asked: string, tid: string, givenUp: bool)
    requires Durable(cfg) && Remembers(cfg, w, tid) && RowTold(cfg, store, w, tid, givenUp)
    ensures RowTold(cfg, store, Next(cfg, w, Ask(asked)), tid, givenUp)
  {
    hide KeptAlive, LastUse, Remembers;
    LiveIsKept(cfg, w, tid);
    LastUseAdds(w.log, Asked(asked, w.clock), tid, cfg.idleTtl);
    WaitsStay(cfg, w, Ask(asked), tid);
  }

  lemma WaitsStay(cfg: Config, w: World, e: Event, tid: string)
    requires !e.BeginResolve?
    ensures RebindWaits(Next(cfg, w, e), tid) ==> RebindWaits(w, tid)
  {
    if RebindWaits(Next(cfg, w, e), tid) {
      WaitsMove(cfg, w, e, tid);
    }
  }

  lemma OtherResolveKeepsRow(cfg: Config, store: map<string, Meta>, w: World, e: Event, tid: string, givenUp: bool)
    requires Durable(cfg) && RowTold(cfg, store, w, tid, givenUp)
    requires e.BeginResolve? && e.caller !in w.waiting && e.tid != tid
    ensures RowTold(cfg, store, Next(cfg, w, e), tid, givenUp)
  {
    hide KeptAlive, LastUse, RebindWaits;
    LastUseAdds(w.log, Asked(e.tid, w.clock), tid, cfg.idleTtl);
    if RebindWaits(Next(cfg, w, e), tid) {
      WaitsMove(cfg, w, e, tid);
    }
  }

  lemma OwnResolveKeepsRow(cfg: Config, store: map<string, Meta>, w: World, e: Event, tid: string, givenUp: bool)
    requires Durable(cfg) && Remembers(cfg, w, tid) && RowTold(cfg, store, w, tid, givenUp)
    requires e.BeginResolve? && e.caller !in w.waiting && e.tid == tid
    ensures RowTold(cfg, store, Next(cfg, w, e), tid, givenUp || ComesTooLate(cfg, store, w, e, tid))
  {
    hide KeptAlive, LastUse, Remembers, RebindWaits;
    LiveIsKept(cfg, w, tid);
    LastUseAdds(w.log, Asked(tid, w.clock), tid, cfg.idleTtl);
    if RebindWaits(Next(cfg, w, e), tid) {
      WaitsMove(cfg, w, e, tid);
    }
  }

  lemma ResolveKeepsRow(cfg: Config, store: map<string, Meta>, w: World, e: Event, tid: string, givenUp: bool)
    requires Durable(cfg) && Remembers(cfg, w, tid) && RowTold(cfg, store, w, tid, givenUp)
    requires e.BeginResolve? && e.caller !in w.waiting
    ensures RowTold(cfg, store, Next(cfg, w, e), tid, givenUp || ComesTooLate(cfg, store, w, e, tid))
  {
    hide RowTold, Next, Remembers, WindowEnd, KeptAlive;
    if e.tid == tid {
      OwnResolveKeepsRow(cfg, store, w, e, tid, givenUp);
    } else {
      OtherResolveKeepsRow(cfg, store, w, e, tid, givenUp);
    }
  }

  lemma CreateKeepsRow(cfg: Config, store: map<string, Meta>, w: World, e: Event, tid: string, givenUp: bool)
    requires Durable(cfg) && RowTold(cfg, store, w, tid, givenUp) && e.EndCreate? && IsCreating(w, e.caller)
    ensures RowTold(cfg, store, Next(cfg, w, e), tid, givenUp && !CreatesAnew(cfg, w, e, tid))
  {
    hide KeptAlive, LastUse, RebindWaits;
    LastUseAdds(w.log, Registered(e.made, w.clock), tid, cfg.idleTtl);
    WaitsStay(cfg, w, e, tid);
    assert w.log + [] == w.log;
  }

  lemma RebindKeepsRow(cfg: Config, store: map<string, Meta>, w: World, e: Event, tid: string, givenUp: bool)
    requires Durable(cfg) && RowTold(cfg, store, w, tid, givenUp) && e.EndResolve? && IsRebinding(w, e.caller)
    ensures RowTold(cfg, store, Next(cfg, w, e), tid, givenUp)
  {
    hide KeptAlive, LastUse;
    LastUseAdds(w.log, Registered(w.waiting[e.caller].tid, w.clock), tid, cfg.idleTtl);
    WaitsStay(cfg, w, e, tid);
    assert w.log + [] == w.log;
    assert w.waiting[e.caller] == Rebinding(w.waiting[e.caller].tid);
    assert w.waiting[e.caller].tid == tid ==> RebindWaits(w, tid);
  }

  function GivenUpAfter(cfg: Config, store: map<string, Meta>, w: World, e: Event, tid: string, before: bool): bool {
    !CreatesAnew(cfg, w, e, tid) && (before || ComesTooLate(cfg, store, w, e, tid))
  }

  lemma NextKeepsRow(cfg: Config, store: map<string, Meta>, w: World, e: Event, tid: string, givenUp: bool)
    requires Durable(cfg) && Remembers(cfg, w, tid) && RowTold(cfg, store, w, tid, givenUp)
    ensures RowTold(cfg, store, Next(cfg, w, e), tid, GivenUpAfter(cfg, store, w, e, tid, givenUp))
  {
    hide KeptAlive, LastUse, Remembers;
    if e.Ask? {
      AskKeepsRow(cfg, store, w, e.tid, tid, givenUp);
    } else if e.BeginResolve? && e.caller !in w.waiting {
      ResolveKeepsRow(cfg, store, w, e, tid, givenUp);
    } else if e.EndCreate? && IsCreating(w, e.caller) {
      CreateKeepsRow(cfg, store, w, e, tid, givenUp);
    } else if e.EndResolve? && IsRebinding(w, e.caller) {
      RebindKeepsRow(cfg, store, w, e, tid, givenUp);
    } else if e.Free? {
      LastUseAdds(w.log, Freed(e.tid), tid, cfg.idleTtl);
      WaitsStay(cfg, w, e, tid);
    } else if !e.BeginResolve? {
      WaitsStay(cfg, w, e, tid);
    }
  }

  lemma GivenUpAdds(cfg: Config, store: map<string, Meta>, clock: int, init: seq<Event>, e: Event, tid: string)
    ensures GivenUp(cfg, store, clock, init + [e], tid)
         == GivenUpAfter(cfg, store, Run(cfg, Start(store, clock), init), e, tid, GivenUp(cfg, store, clock, init, tid))
  {
    TooLateIsNoCreate(cfg, store, Run(cfg, Start(store, clock), init), e, tid);
    hide CreatesAnew, ComesTooLate, Run;
    var es, w0 := init + [e], Start(store, clock);
    assert es[..|init|] == init && es[|init|] == e;
    assert forall k :: 0 <= k < |init| ==> es[..k] == init[..k] && es[k] == init[k];
    if GivenUp(cfg, store, clock, es, tid) {
      var k :| 0 <= k < |es| && ComesTooLate(cfg, store, Run(cfg, w0, es[..k]), es[k], tid)
               && forall j :: k < j < |es| ==> !CreatesAnew(cfg, Run(cfg, w0, es[..j]), es[j], tid);
      if k < |init| {
        assert !CreatesAnew(cfg, Run(cfg, w0, es[..|init|]), es[|init|], tid);
        assert ComesTooLate(cfg, store, Run(cfg, w0, init[..k]), init[k], tid);
        forall j | k < j < |init| ensures !CreatesAnew(cfg, Run(cfg, w0, init[..j]), init[j], tid) {
          assert !CreatesAnew(cfg, Run(cfg, w0, es[..j]), es[j], tid);
        }
      }
    }
  }

  lemma TooLateIsNoCreate(cfg: Config, store: map<string, Meta>, w: World, e: Event, tid: string)
    ensures !(ComesTooLate(cfg, store, w, e, tid) && CreatesAnew(cfg, w, e, tid))
  {
  }

  lemma {:induction false} RunKeepsRow(cfg: Config, store: map<string, Meta>, clock: int, es: seq<Event>, tid: string)
    requires Durable(cfg)
    ensures RowTold(cfg, store, Run(cfg, Start(store, clock), es), tid, GivenUp(cfg, store, clock, es, tid))
  {
    hide RowTold, GivenUp, GivenUpAfter, Remembers, Next;
    if es == [] {
      RowAtStart(cfg, store, clock, tid);
    } else {
      var init, e := es[..|es| - 1], es[|es| - 1];
      assert es == init + [e];
      RunKeepsRow(cfg, store, clock, init, tid);
      RunRemembers(cfg, store, clock, init, tid);
      NextKeepsRow(cfg, store, Run(cfg, Start(store, clock), init), e, tid, GivenUp(cfg, store, clock, init, tid));
      GivenUpAdds(cfg, store, clock, init, e, tid);
    }
  }

  lemma RowAtStart(cfg: Config, store: map<string, Meta>, clock: int, tid: string)
    ensures RowTold(cfg, store, Run(cfg, Start(store, clock), []), tid, GivenUp(cfg, store, clock, [], tid))
  {
  }

  /** The row a thread was found with at the start allows it to be re-bound. */
  predicate FitAtStart(cfg: Config, store: map<string, Meta>, tid: string) {
    tid in store && store[tid].status.Active? && RoleFits(cfg, store[tid])
  }

  /**
   * Over every run of a registry with a store, a rebind factory and a session TTL: a resolve goes on
   * to re-bind a thread if and only if its history did not keep it alive, it was used in this run or
   * its row was fit from the start, its window is not over (a session TTL after the last create,
   * successful lookup or resolve, or re-bind), and no resolve has come too late since the last create.
   */
  lemma RebindOverHistory(cfg: Config, store: map<string, Meta>, clock: int, es: seq<Event>, tid: string, caller: nat)
    requires Durable(cfg) && caller !in Run(cfg, Start(store, clock), es).waiting
    ensures var w := Run(cfg, Start(store, clock), es);
      var end := WindowEnd(cfg, store, w.log, tid);
      caller in Next(cfg, w, BeginResolve(caller, tid)).waiting
      <==>
      && !KeptAlive(w.log, tid, cfg.idleTtl, w.clock)
      && (LastUse(w.log, tid, cfg.idleTtl).Some? || FitAtStart(cfg, store, tid))
      && (end.Some? ==> w.clock < end.value)
      && !GivenUp(cfg, store, clock, es, tid)
  {
    hide KeptAlive, LastUse, GivenUp, RebindWaits, Remembers, Run;
    var w := Run(cfg, Start(store, clock), es);
    RunRemembers(cfg, store, clock, es, tid);
    RunKeepsRow(cfg, store, clock, es, tid);
    LiveIsKept(cfg, w, tid);
  }

  // ------------------------------------------------- without a session TTL

  predicate Lasts(cfg: Config, w: World, tid: string) {
    && tid in w.reg.store && w.reg.store[tid].status.Active? && w.reg.store[tid].expiresAt.None?
    && RoleFits(cfg, w.reg.store[tid])
  }

  lemma NextLasts(cfg: Config, w: World, e: Event, tid: string)
    requires cfg.hasStore && cfg.durableTtl <= 0 && (Lasts(cfg, w, tid) || CreatesAnew(cfg, w, e, tid))
    ensures Lasts(cfg, Next(cfg, w, e), tid)
  {
  }

  lemma {:induction false} RunLasts(cfg: Config, w: World, es: seq<Event>, k: nat, tid: string)
    requires cfg.hasStore && cfg.durableTtl <= 0 && k < |es| && CreatesAnew(cfg, Run(cfg, w, es[..k]), es[k], tid)
    ensures Lasts(cfg, Run(cfg, w, es), tid)
  {
    hide Lasts, CreatesAnew, Next;
    var init, e := es[..|es| - 1], es[|es| - 1];
    assert k < |init| ==> init[..k] == es[..k] && init[k] == es[k];
    if k < |init| {
      RunLasts(cfg, w, init, k, tid);
    }
    NextLasts(cfg, Run(cfg, w, init), e, tid);
  }

  /** Without a session TTL a thread created in the run can be re-bound whenever its history does not keep it alive. */
  lemma CreatedWithoutTtl(cfg: Config, store: map<string, Meta>, clock: int, es: seq<Event>, k: nat, tid: string,
      caller: nat)
    requires cfg.hasStore && cfg.hasRebind && cfg.durableTtl <= 0
    requires k < |es| && CreatesAnew(cfg, Run(cfg, Start(store, clock), es[..k]), es[k], tid)
    requires caller !in Run(cfg, Start(store, clock), es).waiting
    ensures var w := Run(cfg, Start(store, clock), es);
      caller in Next(cfg, w, BeginResolve(caller, tid)).waiting <==> !KeptAlive(w.log, tid, cfg.idleTtl, w.clock)
  {
    hide KeptAlive, Remembers, Run, CreatesAnew;
    RunRemembers(cfg, store, clock, es, tid);
    RunLasts(cfg, Start(store, clock), es, k, tid);
    LiveIsKept(cfg, Run(cfg, Start(store, clock), es), tid);
  }

  // ---------------------------------------------------- without a durable tier

  lemma NextInMemory(cfg: Config, w: World, e: Event, tid: string)
    requires !(cfg.hasStore && cfg.hasRebind)
    ensures RebindWaits(Next(cfg, w, e), tid) ==> RebindWaits(w, tid)
    ensures !cfg.hasStore ==> Next(cfg, w, e).reg.store == w.reg.store
  {
    if RebindWaits(Next(cfg, w, e), tid) {
      WaitsMove(cfg, w, e, tid);
    }
  }

  /** Without a store or a rebind factory no resolve ever goes on to re-bind, and without a store no row is written. */
  lemma {:induction false} InMemoryNeverRebinds(cfg: Config, store: map<string, Meta>, clock: int, es: seq<Event>,
      tid: string)
    requires !(cfg.hasStore && cfg.hasRebind)
    ensures var w := Run(cfg, Start(store, clock), es);
      !RebindWaits(w, tid) && (!cfg.hasStore ==> w.reg.store == store)
  {
    if es == [] {
    } else {
      hide Next, RebindWaits;
      InMemoryNeverRebinds(cfg, store, clock, es[..|es| - 1], tid);
      NextInMemory(cfg, Run(cfg, Start(store, clock), es[..|es| - 1]), es[|es| - 1], tid);
    }
  }

  lemma NobodyWaits(store: map<string, Meta>, clock: int, tid: string)
    ensures !RebindWaits(Start(store, clock), tid)
  {
  }
}
