/**
 * One approval row seen by several processes, each SQL statement its own step. The lock of the
 * store is per process, so it does not order statements of different processes.
 */
module ApprovalStatements {
  import opened Prelude
  import opened Approvals

  /**
   * deciders: transactions of `decide` that have read the row as pending and not yet written.
   * consulted: callers of `consume_or_suspend` that have read the row as approved.
   */
  datatype World = World(
    status: Status,
    deciders: set<nat>,
    consulted: set<nat>,
    consumptions: nat,
    proceeded: nat)

  const FILED := World(Pending, {}, {}, 0, 0)

  /**
   * guardedDecide: the UPDATE of `decide` carries `AND status = 'pending'` (the source's does not).
   * checkedConsume: `consume_or_suspend` heeds what `consume` returns (the source's does not).
   */
  datatype Discipline = Discipline(guardedDecide: bool, checkedConsume: bool)

  const AS_WRITTEN := Discipline(false, false)

  datatype Statement =
    | Lapse
    | ReadPending(txn: nat)
    | WriteDecision(txn: nat, approved: bool)
    | UpdateConsumed
    | ReadResolved(caller: nat)
    | ConsumeAndProceed(caller: nat)

  function Consumed1(w: World): World {
    if Resolved(w.status) then w.(status := Status.Consumed, consumptions := w.consumptions + 1) else w
  }

  function Exec(d: Discipline, w: World, s: Statement): World {
    match s
    case Lapse => if w.status.Pending? then w.(status := Expired) else w
    case ReadPending(txn) => if w.status.Pending? then w.(deciders := w.deciders + {txn}) else w
    case WriteDecision(txn, approved) =>
      if txn !in w.deciders then w
      else
        var done := w.(deciders := w.deciders - {txn});
        if d.guardedDecide && !w.status.Pending? then done
        else done.(status := if approved then Approved else Denied)
    case UpdateConsumed => Consumed1(w)
    case ReadResolved(caller) => if w.status.Approved? then w.(consulted := w.consulted + {caller}) else w
    case ConsumeAndProceed(caller) =>
      if caller !in w.consulted then w
      else
        var after := Consumed1(w).(consulted := w.consulted - {caller});
        if d.checkedConsume && !Resolved(w.status) then after else after.(proceeded := w.proceeded + 1)
  }

  function ExecAll(d: Discipline, w: World, ss: seq<Statement>): World
    decreases |ss|
  {
    if ss == [] then w else ExecAll(d, Exec(d, w, ss[0]), ss[1..])
  }

  /** Decision writes that land on a row no longer pending. */
  function StaleWrites(d: Discipline, w: World, ss: seq<Statement>): nat
    decreases |ss|
  {
    if ss == [] then 0
    else
      (if ss[0].WriteDecision? && ss[0].txn in w.deciders && !w.status.Pending? && !d.guardedDecide then 1 else 0)
      + StaleWrites(d, Exec(d, w, ss[0]), ss[1..])
  }

  predicate CanConsume(s: Status) { s.Pending? || Resolved(s) }

  /** Each extra consumption is paid for by a decision written over a row that was no longer pending. */
  lemma {:induction false} ConsumptionsBounded(d: Discipline, w: World, ss: seq<Statement>)
    ensures ExecAll(d, w, ss).consumptions
         <= w.consumptions + (if CanConsume(w.status) then 1 else 0) + StaleWrites(d, w, ss)
    decreases |ss|
  {
    if ss == [] {
    } else {
      ConsumptionsBounded(d, Exec(d, w, ss[0]), ss[1..]);
    }
  }

  lemma {:induction false} GuardedHasNoStale(d: Discipline, w: World, ss: seq<Statement>)
    requires d.guardedDecide
    ensures StaleWrites(d, w, ss) == 0
    decreases |ss|
  {
    if ss == [] {
    } else {
      GuardedHasNoStale(d, Exec(d, w, ss[0]), ss[1..]);
    }
  }

  /** A run ends where any list of worlds linked by its statements ends. */
  lemma {:induction false} LinkedExec(d: Discipline, ss: seq<Statement>, worlds: seq<World>, i: nat)
    requires |worlds| == |ss| + 1 && i <= |ss|
    requires forall k :: 0 <= k < |ss| ==> worlds[k + 1] == Exec(d, worlds[k], ss[k])
    ensures ExecAll(d, worlds[i], ss[i..]) == worlds[|ss|]
    decreases |ss| - i
  {
    if i < |ss| {
      LinkedExec(d, ss, worlds, i + 1);
      assert ss[i..][1..] == ss[i + 1..];
    }
  }

  /**
   * Exactly-once consumption at statement level holds exactly when the decision UPDATE is guarded.
   * As written, a second decider that read the row earlier can bring a consumed row back.
   */
  lemma ConsumedOnceIffGuarded(d: Discipline)
    ensures (forall ss :: ExecAll(d, FILED, ss).consumptions <= 1) <==> d.guardedDecide
  {
    if d.guardedDecide {
      forall ss ensures ExecAll(d, FILED, ss).consumptions <= 1 {
        GuardedHasNoStale(d, FILED, ss);
        ConsumptionsBounded(d, FILED, ss);
      }
    } else {
      var ss := [ReadPending(1), ReadPending(2), WriteDecision(1, true), UpdateConsumed, WriteDecision(2, false),
          UpdateConsumed];
      var worlds := [
        FILED,
        FILED.(deciders := {1}),
        FILED.(deciders := {1, 2}),
        World(Approved, {2}, {}, 0, 0),
        World(Status.Consumed, {2}, {}, 1, 0),
        World(Denied, {}, {}, 1, 0),
        World(Status.Consumed, {}, {}, 2, 0)];
      LinkedExec(d, ss, worlds, 0);
      assert ss[0..] == ss;
      assert ExecAll(d, FILED, ss).consumptions == 2;
    }
  }

  /** Any world a second consumption comes from has seen a stale decision, whatever the discipline. */
  lemma TwiceNeedsStaleDecision(d: Discipline, ss: seq<Statement>)
    requires ExecAll(d, FILED, ss).consumptions >= 2
    ensures !d.guardedDecide && StaleWrites(d, FILED, ss) >= 1
  {
    ConsumptionsBounded(d, FILED, ss);
    if d.guardedDecide {
      GuardedHasNoStale(d, FILED, ss);
    }
  }

  lemma {:induction false} ProceedsAreConsumptions(d: Discipline, w: World, ss: seq<Statement>)
    requires d.checkedConsume && w.proceeded <= w.consumptions
    ensures ExecAll(d, w, ss).proceeded <= ExecAll(d, w, ss).consumptions
    decreases |ss|
  {
    if ss == [] {
    } else {
      ProceedsAreConsumptions(d, Exec(d, w, ss[0]), ss[1..]);
    }
  }

  /**
   * An approval lets at most one operation proceed exactly when decisions are guarded and `consume`'s
   * answer is heeded.
   */
  lemma OneProceedIffChecked(d: Discipline)
    ensures (forall ss :: ExecAll(d, FILED, ss).proceeded <= 1) <==> d.guardedDecide && d.checkedConsume
  {
    if d.guardedDecide && d.checkedConsume {
      forall ss ensures ExecAll(d, FILED, ss).proceeded <= 1 {
        ProceedsAreConsumptions(d, FILED, ss);
        ConsumedOnceIffGuarded(d);
      }
    } else if d.checkedConsume {
      var ss := SecondDecision(d, 1, 2, 1);
    } else {
      var ss := SecondConsult(d, 1, 1, 2);
    }
  }

  /** Two callers consult one approval before either consumes it. */
  lemma SecondConsult(d: Discipline, t: nat, c: nat, c': nat) returns (ss: seq<Statement>)
    requires !d.checkedConsume && c != c'
    ensures ExecAll(d, FILED, ss).proceeded == 2 && DecidersIn(ss, {t}) && ConsultersIn(ss, {c, c'})
  {
    ss := [ReadPending(t), WriteDecision(t, true), ReadResolved(c), ReadResolved(c'),
           ConsumeAndProceed(c), ConsumeAndProceed(c')];
    var worlds := [
      FILED,
      FILED.(deciders := {t}),
      World(Approved, {}, {}, 0, 0),
      World(Approved, {}, {c}, 0, 0),
      World(Approved, {}, {c, c'}, 0, 0),
      World(Status.Consumed, {}, {c'}, 1, 1),
      World(Status.Consumed, {}, {}, 1, 2)];
    LinkedExec(d, ss, worlds, 0);
    assert ss[0..] == ss;
  }

  /** A second decision approves again what one caller has already consumed. */
  lemma SecondDecision(d: Discipline, t: nat, t': nat, c: nat) returns (ss: seq<Statement>)
    requires !d.guardedDecide && t != t'
    ensures ExecAll(d, FILED, ss).proceeded == 2 && ExecAll(d, FILED, ss).consumptions == 2
    ensures DecidersIn(ss, {t, t'}) && ConsultersIn(ss, {c})
  {
    ss := [ReadPending(t), ReadPending(t'), WriteDecision(t, true), ReadResolved(c), ConsumeAndProceed(c),
           WriteDecision(t', true), ReadResolved(c), ConsumeAndProceed(c)];
    var worlds := [
      FILED,
      FILED.(deciders := {t}),
      FILED.(deciders := {t, t'}),
      World(Approved, {t'}, {}, 0, 0),
      World(Approved, {t'}, {c}, 0, 0),
      World(Status.Consumed, {t'}, {}, 1, 1),
      World(Approved, {}, {}, 1, 1),
      World(Approved, {}, {c}, 1, 1),
      World(Status.Consumed, {}, {}, 2, 2)];
    LinkedExec(d, ss, worlds, 0);
    assert ss[0..] == ss;
  }

  // ---------------------------------------------- the statements as written

  /** Only these transactions of `decide` read the row. */
  predicate DecidersIn(ss: seq<Statement>, deciders: set<nat>) {
    forall i :: 0 <= i < |ss| && ss[i].ReadPending? ==> ss[i].txn in deciders
  }

  /** Only these callers consult the approval. */
  predicate ConsultersIn(ss: seq<Statement>, callers: set<nat>) {
    forall i :: 0 <= i < |ss| && ss[i].ReadResolved? ==> ss[i].caller in callers
  }

  /** What a run can still consume: a resolved row once, and once more for every decision still to be written. */
  predicate ConsumesWithin(w: World, deciders: set<nat>) {
    && w.deciders <= deciders
    && if w.status.Pending? then w.consumptions == 0
       else w.consumptions + (if Resolved(w.status) then 1 else 0) + |w.deciders| <= |deciders|
  }

  lemma SmallerSet(a: set<nat>, b: set<nat>)
    requires a <= b
    ensures |a| <= |b|
  {
    if a == {} {
    } else {
      var x :| x in a;
      SmallerSet(a - {x}, b - {x});
    }
  }

  lemma {:induction false} ConsumptionsWithinDeciders(w: World, ss: seq<Statement>, deciders: set<nat>)
    requires DecidersIn(ss, deciders) && ConsumesWithin(w, deciders)
    ensures ExecAll(AS_WRITTEN, w, ss).consumptions <= |deciders|
    decreases |ss|
  {
    SmallerSet(w.deciders, deciders);
    if ss == [] {
    } else {
      ConsumptionsWithinDeciders(Exec(AS_WRITTEN, w, ss[0]), ss[1..], deciders);
    }
  }

  /** As written, a row is consumed at most once in every interleaving if and only if at most one decision reads it. */
  lemma ConsumedOnceIffOneDecider(deciders: set<nat>)
    ensures (forall ss :: DecidersIn(ss, deciders) ==> ExecAll(AS_WRITTEN, FILED, ss).consumptions <= 1)
       <==> |deciders| <= 1
  {
    if |deciders| <= 1 {
      forall ss | DecidersIn(ss, deciders) ensures ExecAll(AS_WRITTEN, FILED, ss).consumptions <= 1 {
        ConsumptionsWithinDeciders(FILED, ss, deciders);
      }
    } else {
      var t, t' := TwoOf(deciders);
      var ss := SecondDecision(AS_WRITTEN, t, t', 0);
      assert DecidersIn(ss, deciders);
    }
  }

  lemma TwoOf(s: set<nat>) returns (a: nat, b: nat)
    requires |s| >= 2
    ensures a in s && b in s && a != b
  {
    a :| a in s;
    assert |s - {a}| >= 1;
    b :| b in s - {a};
  }

  /**
   * What a run can still let proceed: each caller once while the row is approved, and once more per
   * decision to come.
   */
  predicate ProceedsWithin(w: World, deciders: set<nat>, callers: set<nat>) {
    && w.deciders <= deciders && w.consulted <= callers
    && if w.status.Pending? then w.proceeded == 0 && w.consulted == {}
       else w.proceeded + (if w.status.Approved? then |callers| else |w.consulted|) + |w.deciders| * |callers|
            <= |deciders| * |callers|
  }

  lemma TimesGrows(a: nat, b: nat, c: nat)
    requires a <= b
    ensures a * c <= b * c
  {
  }

  lemma OneFewer(a: nat, c: nat)
    requires a >= 1
    ensures (a - 1) * c == a * c - c
  {
  }

  lemma StepProceedsWithin(w: World, s: Statement, deciders: set<nat>, callers: set<nat>)
    requires ProceedsWithin(w, deciders, callers)
    requires (s.ReadPending? ==> s.txn in deciders) && (s.ReadResolved? ==> s.caller in callers)
    ensures ProceedsWithin(Exec(AS_WRITTEN, w, s), deciders, callers)
  {
    SmallerSet(w.deciders, deciders);
    SmallerSet(w.consulted, callers);
    TimesGrows(|w.deciders|, |deciders|, |callers|);
    match s {
      case WriteDecision(txn, _) =>
        if txn in w.deciders {
          OneFewer(|w.deciders|, |callers|);
          assert |w.deciders - {txn}| == |w.deciders| - 1;
        }
      case _ =>
    }
  }

  lemma {:induction false} ProceedsWithinProduct(w: World, ss: seq<Statement>, deciders: set<nat>, callers: set<nat>)
    requires DecidersIn(ss, deciders) && ConsultersIn(ss, callers) && ProceedsWithin(w, deciders, callers)
    ensures ExecAll(AS_WRITTEN, w, ss).proceeded <= |deciders| * |callers|
    decreases |ss|
  {
    if ss == [] {
      TimesGrows(0, |w.deciders|, |callers|);
    } else {
      StepProceedsWithin(w, ss[0], deciders, callers);
      ProceedsWithinProduct(Exec(AS_WRITTEN, w, ss[0]), ss[1..], deciders, callers);
    }
  }

  /**
   * As written, at most one operation proceeds on an approval in every interleaving if and only if
   * deciders times consulting callers is at most one.
   */
  lemma OneProceedIffAlone(deciders: set<nat>, callers: set<nat>)
    ensures (forall ss :: DecidersIn(ss, deciders) && ConsultersIn(ss, callers) ==>
               ExecAll(AS_WRITTEN, FILED, ss).proceeded <= 1)
       <==> |deciders| * |callers| <= 1
  {
    if |deciders| * |callers| <= 1 {
      forall ss | DecidersIn(ss, deciders) && ConsultersIn(ss, callers)
        ensures ExecAll(AS_WRITTEN, FILED, ss).proceeded <= 1
      {
        ProceedsWithinProduct(FILED, ss, deciders, callers);
      }
    } else {
      assert |deciders| != 0 && |callers| != 0;
      var t :| t in deciders;
      var c :| c in callers;
      if |callers| >= 2 {
        var a, b := TwoOf(callers);
        var ss := SecondConsult(AS_WRITTEN, t, a, b);
        assert DecidersIn(ss, deciders) && ConsultersIn(ss, callers);
      } else {
        var a, b := TwoOf(deciders);
        var ss := SecondDecision(AS_WRITTEN, a, b, c);
        assert DecidersIn(ss, deciders) && ConsultersIn(ss, callers);
      }
    }
  }

  /**
   * Statements of one transaction or one consult run back to back: what a single process's lock or lone
   * caller gives.
   */
  predicate Undisturbed(ss: seq<Statement>)
    decreases |ss|
  {
    ss == [] ||
    (match ss[0]
     case ReadPending(t) => |ss| >= 2 && ss[1].WriteDecision? && ss[1].txn == t && Undisturbed(ss[2..])
     case ReadResolved(c) => |ss| >= 2 && ss[1] == ConsumeAndProceed(c) && Undisturbed(ss[2..])
     case _ => Undisturbed(ss[1..]))
  }

  /** In one process, as written: an approval is consumed at most once and lets at most one operation proceed. */
  lemma {:induction false} UndisturbedIsExactlyOnce(w: World, ss: seq<Statement>)
    requires Undisturbed(ss) && w.deciders == {} && w.consulted == {}
    ensures var v := ExecAll(AS_WRITTEN, w, ss);
      && v.consumptions <= w.consumptions + (if CanConsume(w.status) then 1 else 0)
      && v.proceeded - w.proceeded <= v.consumptions - w.consumptions
    decreases |ss|
  {
    if ss == [] {
    } else {
      var w1 := Exec(AS_WRITTEN, w, ss[0]);
      if ss[0].ReadPending? || ss[0].ReadResolved? {
        var w2 := Exec(AS_WRITTEN, w1, ss[1]);
        assert ss[1..][1..] == ss[2..];
        assert ExecAll(AS_WRITTEN, w, ss) == ExecAll(AS_WRITTEN, w2, ss[2..]);
        UndisturbedIsExactlyOnce(w2, ss[2..]);
      } else {
        UndisturbedIsExactlyOnce(w1, ss[1..]);
      }
    }
  }

  lemma {:induction false} NeverConsumed(d: Discipline, w: World, ss: seq<Statement>)
    requires w.status.Expired? && (d.guardedDecide || w.deciders == {})
    ensures ExecAll(d, w, ss).consumptions == w.consumptions
    decreases |ss|
  {
    if ss == [] {
    } else {
      NeverConsumed(d, Exec(d, w, ss[0]), ss[1..]);
    }
  }

  /**
   * A lapse expires a pending row and no other. The row is then never consumed, whatever runs, if and
   * only if the decision UPDATE tests the status or no decision read the row before it lapsed.
   */
  lemma LapsedIsDeadExactly(d: Discipline, w: World)
    requires w.status.Pending?
    ensures var lapsed := Exec(d, w, Lapse);
      && lapsed.status.Expired?
      && ((forall ss :: ExecAll(d, lapsed, ss).consumptions == w.consumptions) <==> d.guardedDecide || w.deciders == {})
  {
    var lapsed := Exec(d, w, Lapse);
    if d.guardedDecide || w.deciders == {} {
      forall ss ensures ExecAll(d, lapsed, ss).consumptions == w.consumptions {
        NeverConsumed(d, lapsed, ss);
      }
    } else {
      var txn :| txn in w.deciders;
      var ss := [WriteDecision(txn, true), UpdateConsumed];
      var decided := Exec(d, lapsed, ss[0]);
      assert ss[1..] == [UpdateConsumed] && ss[1..][1..] == [];
      assert ExecAll(d, decided, [UpdateConsumed]) == Exec(d, decided, UpdateConsumed);
      assert ExecAll(d, lapsed, ss) == Exec(d, decided, UpdateConsumed);
    }
  }

  lemma LapseOnlyPending(d: Discipline, w: World)
    requires !w.status.Pending?
    ensures Exec(d, w, Lapse) == w
  {
  }
}
