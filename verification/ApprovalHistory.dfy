/** What the approvals store answers, told from the operations it has seen (core/durable.py). */
module ApprovalHistory {
  import opened Prelude
  import opened Approvals

  predicate Creates(op: Op, id: string) { op.Create? && op.request.id == id }

  predicate Decides(op: Op, id: string) { op.Decide? && op.id == id }

  predicate Consumes(op: Op, id: string) { op.Consume? && op.id == id }

  /** The clock before operation k. */
  function ClockAt(now: int, ops: seq<Op>, k: nat): int
    requires k <= |ops|
  {
    if k == 0 then now else Later(ClockAt(now, ops, k - 1), ops[k - 1])
  }

  /** The first operation from `from` on that is asked for, or the number of operations. */
  function First(ops: seq<Op>, from: nat, asked: Op -> bool): (i: nat)
    requires from <= |ops|
    ensures from <= i <= |ops| && (i < |ops| ==> asked(ops[i]))
    ensures forall j :: from <= j < i ==> !asked(ops[j])
    decreases |ops| - from
  {
    if from == |ops| || asked(ops[from]) then from else First(ops, from + 1, asked)
  }

  predicate DueBy(r: Request, now: int) { r.expiresAt.Some? && r.expiresAt.value <= now }

  /** The decision that counts: the first one after the creation, if the request is still pending then. */
  function DecisionOf(now: int, ops: seq<Op>, id: string, c: nat): Option<nat>
    requires c < |ops| && ops[c].Create?
  {
    var d := First(ops, c + 1, op => Decides(op, id));
    if d < |ops| && ops[c].request.status.Pending? && !DueBy(ops[c].request, ClockAt(now, ops, d))
    then Some(d) else None
  }

  /** The row of an id, told from the operations alone. */
  function Told(now: int, ops: seq<Op>, id: string): Option<Request> {
    var c := First(ops, 0, op => Creates(op, id));
    if c == |ops| then None
    else
      var r, decision := ops[c].request, DecisionOf(now, ops, id, c);
      match decision
      case None =>
        var u := First(ops, c + 1, op => Consumes(op, id));
        if r.status.Pending? && DueBy(r, ClockAt(now, ops, |ops|)) then Some(r.(status := Expired))
        else if Resolved(r.status) && u < |ops| then Some(Used(r, ClockAt(now, ops, u)))
        else Some(r)
      case Some(d) =>
        var u := First(ops, d + 1, op => Consumes(op, id));
        var signed := r.(
          status := if ops[d].approved then Approved else Denied,
          decidedBy := ops[d].who,
          justification := ops[d].why,
          decidedAt := Some(ClockAt(now, ops, d)));
        if u < |ops| then Some(Used(signed, ClockAt(now, ops, u))) else Some(signed)
  }

  function Used(r: Request, at: int): Request { r.(status := Status.Consumed, consumedAt := Some(at)) }

  // ------------------------------------------------------- one more operation

  lemma {:induction false} ClockGrows(now: int, ops: seq<Op>, j: nat, k: nat)
    requires j <= k <= |ops|
    ensures ClockAt(now, ops, j) <= ClockAt(now, ops, k)
  {
    if j < k {
      ClockGrows(now, ops, j, k - 1);
    }
  }

  lemma {:induction false} ClockOfPrefix(now: int, ops: seq<Op>, op: Op, k: nat)
    requires k <= |ops|
    ensures ClockAt(now, ops + [op], k) == ClockAt(now, ops, k)
  {
    if k > 0 {
      ClockOfPrefix(now, ops, op, k - 1);
    }
  }

  lemma {:induction false} ClockOfRest(now: int, ops: seq<Op>, k: nat)
    requires k < |ops|
    ensures ClockAt(Later(now, ops[0]), ops[1..], k) == ClockAt(now, ops, k + 1)
  {
    if k > 0 {
      ClockOfRest(now, ops, k - 1);
    }
  }

  lemma {:induction false} RunAdds(t: Table, now: int, ops: seq<Op>, op: Op)
    ensures LazyRun(t, now, ops + [op]) == LazyStep(LazyRun(t, now, ops), ClockAt(now, ops, |ops|), op).0
    decreases |ops|
  {
    hide LazyStep;
    if ops == [] {
      assert LazyRun(LazyStep(t, now, op).0, Later(now, op), []) == LazyStep(t, now, op).0;
      assert ([op])[1..] == [];
      assert ops + [op] == [op];
    } else {
      RunAdds(LazyStep(t, now, ops[0]).0, Later(now, ops[0]), ops[1..], op);
      assert (ops + [op])[1..] == ops[1..] + [op] && (ops + [op])[0] == ops[0];
      ClockOfRest(now, ops, |ops| - 1);
    }
  }

  lemma FirstAdds(ops: seq<Op>, op: Op, from: nat, asked: Op -> bool)
    requires from <= |ops|
    ensures First(ops + [op], from, asked)
         == if First(ops, from, asked) < |ops| || asked(op) then First(ops, from, asked) else |ops| + 1
  {
    var i, j := First(ops, from, asked), First(ops + [op], from, asked);
    assert forall k :: 0 <= k < |ops| ==> (ops + [op])[k] == ops[k];
    if i < |ops| || asked(op) {
      assert asked((ops + [op])[i]);
    }
    if j < |ops| {
      assert asked(ops[j]);
    }
  }

  /** What one operation does to the row of an id, in a store whose rows expire by themselves. */
  function AfterOp(row: Option<Request>, now: int, op: Op, id: string): Option<Request> {
    match row
    case None => if Creates(op, id) then Some(SweepRow(op.request, now)) else None
    case Some(r) =>
      if Decides(op, id) && r.status.Pending? then Some(Decision(r, op.approved, op.who, op.why, now))
      else if Consumes(op, id) && Resolved(r.status) then Some(Used(r, now))
      else Some(SweepRow(r, Later(now, op)))
  }

  lemma DecisionAdds(now: int, ops: seq<Op>, op: Op, id: string, c: nat)
    requires c < |ops| && ops[c].Create?
    ensures DecisionOf(now, ops + [op], id, c)
         == if DecisionOf(now, ops, id, c).Some? then DecisionOf(now, ops, id, c)
            else if Decides(op, id) && ops[c].request.status.Pending?
                    && !DueBy(ops[c].request, ClockAt(now, ops, |ops|)) then Some(|ops|)
            else None
  {
    var d := First(ops, c + 1, op => Decides(op, id));
    FirstAdds(ops, op, c + 1, op => Decides(op, id));
    assert (ops + [op])[c] == ops[c];
    ClockOfPrefix(now, ops, op, d);
    ClockOfPrefix(now, ops, op, |ops|);
    ClockGrows(now, ops, d, |ops|);
  }

  lemma ClockNext(now: int, ops: seq<Op>, op: Op)
    ensures ClockAt(now, ops + [op], |ops| + 1) == Later(ClockAt(now, ops, |ops|), op)
  {
    ClockOfPrefix(now, ops, op, |ops|);
  }

  /** The row of a request that no decision settled. */
  function Unsettled(r: Request, clock: int, used: Option<int>): Request {
    if r.status.Pending? && DueBy(r, clock) then r.(status := Expired)
    else if Resolved(r.status) && used.Some? then Used(r, used.value)
    else r
  }

  lemma ToldUnsettled(now: int, ops: seq<Op>, id: string, c: nat)
    requires c == First(ops, 0, op => Creates(op, id)) < |ops| && DecisionOf(now, ops, id, c).None?
    ensures var u := First(ops, c + 1, op => Consumes(op, id));
      var used := if u < |ops| then Some(ClockAt(now, ops, u)) else None;
      Told(now, ops, id) == Some(Unsettled(ops[c].request, ClockAt(now, ops, |ops|), used))
  {
    hide DecisionOf, ClockAt;
  }

  lemma ToldAddsUndecided(now: int, ops: seq<Op>, op: Op, id: string, c: nat)
    requires c == First(ops, 0, op => Creates(op, id)) < |ops|
    requires DecisionOf(now, ops, id, c).None? && DecisionOf(now, ops + [op], id, c).None?
    ensures Told(now, ops + [op], id) == AfterOp(Told(now, ops, id), ClockAt(now, ops, |ops|), op, id)
  {
    hide DecisionOf, ClockAt, First, Told;
    var u := First(ops, c + 1, op => Consumes(op, id));
    FirstAdds(ops, op, 0, op => Creates(op, id));
    DecisionAdds(now, ops, op, id, c);
    FirstAdds(ops, op, c + 1, op => Consumes(op, id));
    assert (ops + [op])[c] == ops[c];
    ClockOfPrefix(now, ops, op, u);
    ClockOfPrefix(now, ops, op, |ops|);
    ClockNext(now, ops, op);
    ToldUnsettled(now, ops, id, c);
    ToldUnsettled(now, ops + [op], id, c);
  }

  lemma ToldAddsDecision(now: int, ops: seq<Op>, op: Op, id: string, c: nat)
    requires c == First(ops, 0, op => Creates(op, id)) < |ops|
    requires DecisionOf(now, ops, id, c).None? && DecisionOf(now, ops + [op], id, c).Some?
    ensures Told(now, ops + [op], id) == AfterOp(Told(now, ops, id), ClockAt(now, ops, |ops|), op, id)
  {
    hide DecisionOf, ClockAt;
    FirstAdds(ops, op, 0, op => Creates(op, id));
    DecisionAdds(now, ops, op, id, c);
    assert (ops + [op])[c] == ops[c] && (ops + [op])[|ops|] == op;
    ClockOfPrefix(now, ops, op, |ops|);
    ToldUnsettled(now, ops, id, c);
    assert First(ops + [op], |ops| + 1, op => Consumes(op, id)) == |ops| + 1;
  }

  lemma DecisionBounds(now: int, ops: seq<Op>, id: string, c: nat)
    requires c < |ops| && ops[c].Create? && DecisionOf(now, ops, id, c).Some?
    ensures c < DecisionOf(now, ops, id, c).value < |ops| && Decides(ops[DecisionOf(now, ops, id, c).value], id)
  {
  }

  lemma ToldAddsDecided(now: int, ops: seq<Op>, op: Op, id: string, c: nat)
    requires c == First(ops, 0, op => Creates(op, id)) < |ops| && DecisionOf(now, ops, id, c).Some?
    ensures Told(now, ops + [op], id) == AfterOp(Told(now, ops, id), ClockAt(now, ops, |ops|), op, id)
  {
    hide DecisionOf, ClockAt, First;
    DecisionBounds(now, ops, id, c);
    var d := DecisionOf(now, ops, id, c).value;
    var u := First(ops, d + 1, op => Consumes(op, id));
    FirstAdds(ops, op, 0, op => Creates(op, id));
    DecisionAdds(now, ops, op, id, c);
    FirstAdds(ops, op, d + 1, op => Consumes(op, id));
    assert (ops + [op])[c] == ops[c] && (ops + [op])[d] == ops[d];
    ClockOfPrefix(now, ops, op, d);
    ClockOfPrefix(now, ops, op, u);
    ClockOfPrefix(now, ops, op, |ops|);
  }

  lemma ToldAdds(now: int, ops: seq<Op>, op: Op, id: string)
    ensures Told(now, ops + [op], id) == AfterOp(Told(now, ops, id), ClockAt(now, ops, |ops|), op, id)
  {
    var c := First(ops, 0, op => Creates(op, id));
    if c < |ops| {
      if DecisionOf(now, ops, id, c).None? {
        if DecisionOf(now, ops + [op], id, c).None? {
          ToldAddsUndecided(now, ops, op, id, c);
        } else {
          ToldAddsDecision(now, ops, op, id, c);
        }
      } else {
        ToldAddsDecided(now, ops, op, id, c);
      }
    } else {
      FirstAdds(ops, op, 0, op => Creates(op, id));
      if Creates(op, id) {
        assert (ops + [op])[|ops|] == op;
        ClockOfPrefix(now, ops, op, |ops|);
      }
    }
  }

  lemma SweepSelects(t: Table, now: int, id: string)
    ensures Select(Sweep(t, now), id)
         == match Select(t, id) case None => None case Some(r) => Some(SweepRow(r, now))
  {
    SweepKeepsIds(t, now, id);
  }

  /** The row of an id after one step of the store whose rows expire by themselves. */
  lemma SelectAfter(t: Table, now: int, op: Op, id: string)
    requires Sweep(t, now) == t
    ensures Select(EagerStep(t, now, op).0, id) == AfterOp(Select(t, id), now, op, id)
  {
    hide SelectList, SelectMatch, Sweep, Has, IndexOf, SweepRow;
    SweepSelects(t, now, id);
    match op
    case Tick(dt) => SweepSelects(t, now + dt, id);
    case Create(r) =>
      if !Has(t, r.id) {
        SweptId(r, now);
        AppendSelects(t, SweepRow(r, now), id);
      }
    case Decide(at, approved, who, why) =>
      if Has(t, at) && t[IndexOf(t, at)].status.Pending? {
        UpdateSelects(t, at, Decision(t[IndexOf(t, at)], approved, who, why, now), id);
      }
    case Consume(at) =>
      if Has(t, at) && Resolved(t[IndexOf(t, at)].status) {
        UpdateSelects(t, at, Used(t[IndexOf(t, at)], now), id);
      }
    case _ =>
  }

  lemma SweptId(r: Request, now: int)
    ensures SweepRow(r, now).id == r.id
  {
  }

  lemma AppendSelects(t: Table, r: Request, id: string)
    requires !Has(t, r.id)
    ensures Select(t + [r], id) == if id == r.id then Some(r) else Select(t, id)
  {
    var u := t + [r];
    if id == r.id {
      assert u[|t|].id == id;
    } else if Has(t, id) {
      assert u[IndexOf(t, id)].id == id;
    }
  }

  lemma UpdateSelects(t: Table, at: string, r: Request, id: string)
    requires Has(t, at) && r.id == at
    ensures Select(t[IndexOf(t, at) := r], id) == if id == at then Some(r) else Select(t, id)
  {
    var u := t[IndexOf(t, at) := r];
    assert u[IndexOf(t, at)].id == at;
    if Has(t, id) {
      assert u[IndexOf(t, id)].id == id;
    }
    if Has(u, id) {
      assert t[IndexOf(u, id)].id == id;
    }
  }

  /** The store after operations on an empty table, seen as it would answer. */
  function Seen(now: int, ops: seq<Op>): Table { Sweep(LazyRun([], now, ops), ClockAt(now, ops, |ops|)) }

  lemma {:induction false} SeenIsTold(now: int, ops: seq<Op>, id: string)
    ensures Select(Seen(now, ops), id) == Told(now, ops, id)
  {
    hide Select, Told, AfterOp, LazyStep, EagerStep;
    if ops == [] {
      NothingYet(now, id);
    } else {
      var init, op := ops[..|ops| - 1], ops[|ops| - 1];
      assert ops == init + [op];
      SeenIsTold(now, init, id);
      var t, clock := LazyRun([], now, init), ClockAt(now, init, |init|);
      RunAdds([], now, init, op);
      ClockOfPrefix(now, init, op, |init|);
      StepRefines(t, clock, op);
      SweepTwice(t, clock, clock);
      SelectAfter(Seen(now, init), clock, op, id);
      ToldAdds(now, init, op, id);
    }
  }

  lemma NothingYet(now: int, id: string)
    ensures Select(Seen(now, []), id) == Told(now, [], id)
  {
  }

  /**
   * What the store answers after any operations, told from them alone: the row is the one first
   * created under the id; the first decision while it was pending and in time gave it its status and
   * its author, justification and time; the first consumption after that consumed it; and without a
   * decision it reads as expired from `expires_at` on.
   */
  lemma AnswersOverHistory(now: int, ops: seq<Op>, id: string, approved: bool, who: string, why: string)
    ensures var (t, clock, row) := (LazyRun([], now, ops), ClockAt(now, ops, |ops|), Told(now, ops, id));
      var op := Decide(id, approved, who, why);
      var decided := LazyStep(t, clock, op).1;
      && LazyStep(t, clock, Get(id)).1 == Row(row)
      && LazyStep(t, clock, Consume(id)).1 == DidConsume(row.Some? && Resolved(row.value.status))
      && (row.None? ==> decided == Unknown)
      && (row.Some? && !row.value.status.Pending? ==> decided == AlreadyDecided(row.value.status))
      && (row.Some? && row.value.status.Pending? ==>
            decided.Decided? && Told(now, ops + [op], id) == Some(decided.decision))
  {
    hide Told, ClockAt;
    var t, clock := LazyRun([], now, ops), ClockAt(now, ops, |ops|);
    var op := Decide(id, approved, who, why);
    SeenIsTold(now, ops, id);
    ToldAdds(now, ops, op, id);
    StepRefines(t, clock, Consume(id));
  }

  /** Operation d decided a pending request. */
  ghost predicate Accepted(now: int, ops: seq<Op>, d: nat)
    requires d < |ops|
  {
    LazyStep(LazyRun([], now, ops[..d]), ClockAt(now, ops[..d], d), ops[d]).1.Decided?
  }

  lemma {:induction false} ClockOfTake(now: int, ops: seq<Op>, n: nat, k: nat)
    requires k <= n <= |ops|
    ensures ClockAt(now, ops[..n], k) == ClockAt(now, ops, k)
  {
    if k > 0 {
      ClockOfTake(now, ops, n, k - 1);
    }
  }

  lemma FirstOfTake(ops: seq<Op>, n: nat, from: nat, asked: Op -> bool)
    requires from <= n <= |ops|
    ensures First(ops[..n], from, asked) == if First(ops, from, asked) < n then First(ops, from, asked) else n
  {
    var i, j := First(ops, from, asked), First(ops[..n], from, asked);
    if j < n {
      assert asked(ops[j]);
    }
    if i < n {
      assert asked(ops[..n][i]);
    }
  }

  /** A decision of the id was accepted, and the row bears its author, justification and time. */
  ghost predicate SignedBy(now: int, ops: seq<Op>, d: nat, r: Request) {
    && d < |ops| && Decides(ops[d], r.id) && Accepted(now, ops, d)
    && r.decidedBy == ops[d].who && r.justification == ops[d].why && r.decidedAt == Some(ClockAt(now, ops, d))
  }

  predicate CreatedAs(ops: seq<Op>, r: Request) {
    exists c :: 0 <= c < |ops| && Creates(ops[c], r.id) && ops[c].request.status == r.status
  }

  lemma DecisionIsAccepted(now: int, ops: seq<Op>, id: string, c: nat)
    requires c == First(ops, 0, op => Creates(op, id)) < |ops| && DecisionOf(now, ops, id, c).Some?
    ensures Accepted(now, ops, DecisionOf(now, ops, id, c).value)
  {
    var d := DecisionOf(now, ops, id, c).value;
    var before := ops[..d];
    FirstOfTake(ops, d, 0, op => Creates(op, id));
    FirstOfTake(ops, d, c + 1, op => Decides(op, id));
    ClockOfTake(now, ops, d, d);
    assert before[c] == ops[c] && DecisionOf(now, before, id, c).None?;
    assert Told(now, before, id) == Some(ops[c].request);
    AnswersOverHistory(now, before, id, ops[d].approved, ops[d].who, ops[d].why);
    assert ops[d] == Decide(id, ops[d].approved, ops[d].who, ops[d].why);
  }

  /**
   * A request reads as approved only if it was created so or a decision accepted before said so, and
   * as denied only if one said the opposite; author, justification and time are that decision's.
   */
  lemma DecidedAsAsked(now: int, ops: seq<Op>, id: string, r: Request)
    requires LazyStep(LazyRun([], now, ops), ClockAt(now, ops, |ops|), Get(id)).1 == Row(Some(r))
    ensures r.id == id
    ensures r.status.Approved? ==>
        CreatedAs(ops, r) || exists d: nat :: SignedBy(now, ops, d, r) && ops[d].approved
    ensures r.status.Denied? ==>
        CreatedAs(ops, r) || exists d: nat :: SignedBy(now, ops, d, r) && !ops[d].approved
  {
    hide LazyStep, LazyRun, ClockAt, Accepted;
    AnswersOverHistory(now, ops, id, true, "", "");
    var c := First(ops, 0, op => Creates(op, id));
    if DecisionOf(now, ops, id, c).Some? {
      DecisionIsAccepted(now, ops, id, c);
      DecisionBounds(now, ops, id, c);
      assert !Resolved(r.status) || SignedBy(now, ops, DecisionOf(now, ops, id, c).value, r);
    }
  }

  // ------------------------------------------------------------- listings

  predicate DistinctIds(t: Table) { forall i, j :: 0 <= i < j < |t| ==> t[i].id != t[j].id }

  lemma StepKeepsDistinct(t: Table, now: int, op: Op)
    requires DistinctIds(t)
    ensures DistinctIds(LazyStep(t, now, op).0)
  {
    hide SelectList, SelectMatch;
    var u := LazyStep(t, now, op).0;
    forall i | 0 <= i < |t| ensures i < |u| && u[i].id == t[i].id { StepMoves(t, now, op, i); }
    assert op.Create? && !Has(t, op.request.id) ==> forall i :: 0 <= i < |t| ==> t[i].id != op.request.id;
  }

  lemma {:induction false} RunKeepsDistinct(t: Table, now: int, ops: seq<Op>)
    requires DistinctIds(t)
    ensures DistinctIds(LazyRun(t, now, ops))
    decreases |ops|
  {
    if ops == [] {
    } else {
      StepKeepsDistinct(t, now, ops[0]);
      RunKeepsDistinct(LazyStep(t, now, ops[0]).0, Later(now, ops[0]), ops[1..]);
    }
  }

  lemma {:induction false} OnceIfSelected(t: Table, r: Request)
    requires DistinctIds(t)
    ensures multiset(t)[r] == if Select(t, r.id) == Some(r) then 1 else 0
  {
    if t == [] {
    } else {
      var init, last := t[..|t| - 1], t[|t| - 1];
      assert t == init + [last];
      assert forall i :: 0 <= i < |init| ==> init[i] == t[i];
      OnceIfSelected(init, r);
      assert !Has(init, last.id);
      AppendSelects(init, last, r.id);
    }
  }

  /** A listing over a run: every request that reads as matching, once, in creation order. */
  lemma ListOverHistory(now: int, ops: seq<Op>, persona: string, status: Option<Status>, r: Request)
    ensures var answer := LazyStep(LazyRun([], now, ops), ClockAt(now, ops, |ops|), ListRequests(persona, status)).1;
      && answer.Rows? && Sorted(answer.rows)
      && multiset(answer.rows)[r]
          == if Told(now, ops, r.id) == Some(r) && r.persona == persona && (status.None? || r.status == status.value)
             then 1 else 0
  {
    hide Told, SelectList;
    var seen := Seen(now, ops);
    RunKeepsDistinct([], now, ops);
    assert DistinctIds(seen);
    SeenIsTold(now, ops, r.id);
    OnceIfSelected(seen, r);
    ListExactly(seen, persona, status, r);
  }
}
