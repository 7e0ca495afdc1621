/** The durable approvals store (core/durable.py, core/capabilities/approvals.py). */
module Approvals {
  import opened Prelude

  datatype Status = Pending | Approved | Denied | Expired | Consumed

  /** One row; `body` stands for the columns no operation looks at or changes. */
  datatype Request = Request(
    id: string,
    persona: string,
    actionType: string,
    resource: string,
    body: string,
    createdAt: int,
    expiresAt: Option<int>,
    status: Status,
    decidedBy: string,
    justification: string,
    decidedAt: Option<int>,
    consumedAt: Option<int>)

  type Table = seq<Request>

  datatype Op =
    | Create(request: Request)
    | Get(id: string)
    | ListRequests(persona: string, status: Option<Status>)
    | Find(persona: string, actionType: string, resource: string, statuses: set<Status>)
    | Decide(id: string, approved: bool, who: string, why: string)
    | Consume(id: string)
    | Tick(dt: nat)

  datatype Obs =
    | Done
    | Duplicate
    | Row(row: Option<Request>)
    | Rows(rows: seq<Request>)
    | Decided(decision: Request)
    | Unknown
    | AlreadyDecided(found: Status)
    | DidConsume(did: bool)

  // ---------------------------------------------------------- SQL pieces

  function SweepRow(r: Request, now: int): Request {
    if r.status.Pending? && r.expiresAt.Some? && r.expiresAt.value <= now then r.(status := Expired) else r
  }

  /** `_expire_lapsed`. */
  function Sweep(t: Table, now: int): Table {
    seq(|t|, i requires 0 <= i < |t| => SweepRow(t[i], now))
  }

  predicate Has(t: Table, id: string) { exists i :: 0 <= i < |t| && t[i].id == id }

  function IndexOf(t: Table, id: string): (i: nat)
    requires Has(t, id)
    ensures i < |t| && t[i].id == id && forall j :: 0 <= j < i ==> t[j].id != id
  {
    if t[0].id == id then 0 else 1 + IndexOf(t[1..], id)
  }

  function Select(t: Table, id: string): Option<Request> {
    if Has(t, id) then Some(t[IndexOf(t, id)]) else None
  }

  function Filter(t: Table, keep: Request -> bool): Table {
    if t == [] then [] else (if keep(t[0]) then [t[0]] else []) + Filter(t[1..], keep)
  }

  function InsertByCreated(r: Request, sorted: Table): Table {
    if sorted == [] || r.createdAt <= sorted[0].createdAt then [r] + sorted
    else [sorted[0]] + InsertByCreated(r, sorted[1..])
  }

  /** `ORDER BY created_at`; rows created at the same moment keep their insertion order. */
  function ByCreated(t: Table): Table {
    if t == [] then [] else InsertByCreated(t[0], ByCreated(t[1..]))
  }

  function SelectList(t: Table, persona: string, status: Option<Status>): seq<Request> {
    ByCreated(Filter(t, (r: Request) => r.persona == persona && (status.None? || r.status == status.value)))
  }

  predicate Matches(r: Request, persona: string, actionType: string, resource: string, statuses: set<Status>) {
    r.persona == persona && r.actionType == actionType && r.resource == resource && r.status in statuses
  }

  function SelectMatch(t: Table, persona: string, actionType: string, resource: string,
      statuses: set<Status>): Option<Request> {
    var rows := ByCreated(Filter(t, (r: Request) => Matches(r, persona, actionType, resource, statuses)));
    if rows == [] then None else Some(rows[0])
  }

  predicate Sorted(t: Table) { forall i, j :: 0 <= i < j < |t| ==> t[i].createdAt <= t[j].createdAt }

  lemma {:induction false} InsertKeepsSorted(r: Request, sorted: Table)
    requires Sorted(sorted)
    ensures var out := InsertByCreated(r, sorted);
      Sorted(out) && out[0].createdAt == if sorted == [] then r.createdAt else Min(r.createdAt, sorted[0].createdAt)
  {
    if sorted != [] && r.createdAt > sorted[0].createdAt {
      InsertKeepsSorted(r, sorted[1..]);
    }
  }

  lemma {:induction false} InsertKeepsRows(r: Request, sorted: Table)
    ensures multiset(InsertByCreated(r, sorted)) == multiset{r} + multiset(sorted)
  {
    if sorted == [] {
    } else {
      InsertKeepsRows(r, sorted[1..]);
      assert sorted == [sorted[0]] + sorted[1..];
    }
  }

  lemma StartsSorted()
    ensures Sorted([])
  {
  }

  lemma {:induction false} ByCreatedSorts(t: Table)
    ensures Sorted(ByCreated(t)) && multiset(ByCreated(t)) == multiset(t)
  {
    hide InsertByCreated, Sorted;
    StartsSorted();
    if t == [] {
    } else {
      ByCreatedSorts(t[1..]);
      InsertKeepsSorted(t[0], ByCreated(t[1..]));
      InsertKeepsRows(t[0], ByCreated(t[1..]));
      assert t == [t[0]] + t[1..];
    }
  }

  lemma {:induction false} FilterExactly(t: Table, keep: Request -> bool, r: Request)
    ensures multiset(Filter(t, keep))[r] == if keep(r) then multiset(t)[r] else 0
  {
    if t == [] {
    } else {
      FilterExactly(t[1..], keep, r);
      assert t == [t[0]] + t[1..];
    }
  }

  /** A listing holds exactly the persona's rows of the asked status, each as often as stored, in order of creation. */
  lemma ListExactly(t: Table, persona: string, status: Option<Status>, r: Request)
    ensures Sorted(SelectList(t, persona, status))
    ensures multiset(SelectList(t, persona, status))[r]
         == if r.persona == persona && (status.None? || r.status == status.value) then multiset(t)[r] else 0
  {
    var keep := (r: Request) => r.persona == persona && (status.None? || r.status == status.value);
    ByCreatedSorts(Filter(t, keep));
    FilterExactly(t, keep, r);
  }

  lemma SelectedRows(t: Table, keep: Request -> bool, r: Request)
    ensures r in ByCreated(Filter(t, keep)) <==> r in t && keep(r)
  {
    ByCreatedSorts(Filter(t, keep));
    FilterExactly(t, keep, r);
    assert r in ByCreated(Filter(t, keep)) <==> multiset(ByCreated(Filter(t, keep)))[r] > 0;
    assert r in t <==> multiset(t)[r] > 0;
  }

  /** A find answers with an earliest matching row, and with none exactly when no row matches. */
  lemma FindIsEarliest(t: Table, persona: string, actionType: string, resource: string, statuses: set<Status>,
      r: Request)
    requires r in t && Matches(r, persona, actionType, resource, statuses)
    ensures var found := SelectMatch(t, persona, actionType, resource, statuses);
      found.Some? && found.value.createdAt <= r.createdAt
  {
    var keep := (r: Request) => Matches(r, persona, actionType, resource, statuses);
    var rows := ByCreated(Filter(t, keep));
    SelectedRows(t, keep, r);
    ByCreatedSorts(Filter(t, keep));
    var k :| 0 <= k < |rows| && rows[k] == r;
  }

  lemma FindMatches(t: Table, persona: string, actionType: string, resource: string, statuses: set<Status>)
    ensures var found := SelectMatch(t, persona, actionType, resource, statuses);
      found.Some? ==> found.value in t && Matches(found.value, persona, actionType, resource, statuses)
  {
    var keep := (r: Request) => Matches(r, persona, actionType, resource, statuses);
    var rows := ByCreated(Filter(t, keep));
    if rows != [] {
      SelectedRows(t, keep, rows[0]);
    }
  }

  function Decision(r: Request, approved: bool, who: string, why: string, now: int): Request {
    r.(status := if approved then Approved else Denied, decidedBy := who, justification := why, decidedAt := Some(now))
  }

  predicate Resolved(s: Status) { s.Approved? || s.Denied? }

  // ------------------------------------------------- the two machines

  /**
   * The store as written: reads sweep first, `decide` sweeps inside a transaction that a rejected
   * decision rolls back, `create` and `consume` never sweep.
   */
  function LazyStep(t: Table, now: int, op: Op): (Table, Obs) {
    match op
    case Create(r) => if Has(t, r.id) then (t, Duplicate) else (t + [r], Done)
    case Get(id) => (Sweep(t, now), Row(Select(Sweep(t, now), id)))
    case ListRequests(p, s) => (Sweep(t, now), Rows(SelectList(Sweep(t, now), p, s)))
    case Find(p, a, res, ss) => (Sweep(t, now), Row(SelectMatch(Sweep(t, now), p, a, res, ss)))
    case Decide(id, approved, who, why) =>
      var swept := Sweep(t, now);
      if !Has(swept, id) then (t, Unknown)
      else
        var i := IndexOf(swept, id);
        if !swept[i].status.Pending? then (t, AlreadyDecided(swept[i].status))
        else
          var d := Decision(swept[i], approved, who, why, now);
          (swept[i := d], Decided(d))
    case Consume(id) =>
      if Has(t, id) && Resolved(t[IndexOf(t, id)].status)
      then (t[IndexOf(t, id) := t[IndexOf(t, id)].(status := Status.Consumed, consumedAt := Some(now))],
          DidConsume(true))
      else (t, DidConsume(false))
    case Tick(_) => (t, Done)
  }

  /** The reference: rows expire by themselves the moment they are due, and nothing ever sweeps. */
  function EagerStep(t: Table, now: int, op: Op): (Table, Obs) {
    match op
    case Create(r) => if Has(t, r.id) then (t, Duplicate) else (t + [SweepRow(r, now)], Done)
    case Get(id) => (t, Row(Select(t, id)))
    case ListRequests(p, s) => (t, Rows(SelectList(t, p, s)))
    case Find(p, a, res, ss) => (t, Row(SelectMatch(t, p, a, res, ss)))
    case Decide(id, approved, who, why) =>
      if !Has(t, id) then (t, Unknown)
      else
        var i := IndexOf(t, id);
        if !t[i].status.Pending? then (t, AlreadyDecided(t[i].status))
        else
          var d := Decision(t[i], approved, who, why, now);
          (t[i := d], Decided(d))
    case Consume(id) =>
      if Has(t, id) && Resolved(t[IndexOf(t, id)].status)
      then (t[IndexOf(t, id) := t[IndexOf(t, id)].(status := Status.Consumed, consumedAt := Some(now))],
          DidConsume(true))
      else (t, DidConsume(false))
    case Tick(dt) => (Sweep(t, now + dt), Done)
  }

  function Later(now: int, op: Op): int { if op.Tick? then now + op.dt else now }

  function LazyObs(t: Table, now: int, ops: seq<Op>): seq<Obs>
    decreases |ops|
  {
    if ops == [] then []
    else
      var (t', o) := LazyStep(t, now, ops[0]);
      [o] + LazyObs(t', Later(now, ops[0]), ops[1..])
  }

  function EagerObs(t: Table, now: int, ops: seq<Op>): seq<Obs>
    decreases |ops|
  {
    if ops == [] then []
    else
      var (t', o) := EagerStep(t, now, ops[0]);
      [o] + EagerObs(t', Later(now, ops[0]), ops[1..])
  }

  function LazyRun(t: Table, now: int, ops: seq<Op>): Table
    decreases |ops|
  {
    if ops == [] then t else LazyRun(LazyStep(t, now, ops[0]).0, Later(now, ops[0]), ops[1..])
  }

  // ------------------------------------------------------ refinement

  lemma SweepTwice(t: Table, now: int, later: int)
    requires now <= later
    ensures Sweep(Sweep(t, now), later) == Sweep(t, later)
  {
  }

  lemma SweepKeepsIds(t: Table, now: int, id: string)
    ensures Has(Sweep(t, now), id) <==> Has(t, id)
    ensures Has(t, id) ==> IndexOf(Sweep(t, now), id) == IndexOf(t, id)
  {
    assert forall j :: 0 <= j < |t| ==> Sweep(t, now)[j].id == t[j].id;
    if Has(Sweep(t, now), id) {
      assert t[IndexOf(Sweep(t, now), id)].id == id;
    }
    if Has(t, id) {
      assert Sweep(t, now)[IndexOf(t, id)].id == id;
    }
  }

  /** One operation: equal observations, and the coupling survives. */
  lemma StepRefines(t: Table, now: int, op: Op)
    ensures LazyStep(t, now, op).1 == EagerStep(Sweep(t, now), now, op).1
    ensures Sweep(LazyStep(t, now, op).0, Later(now, op)) == EagerStep(Sweep(t, now), now, op).0
  {
    hide SelectList, SelectMatch;
    SweepTwice(t, now, now);
    match op
    case Create(r) =>
      SweepKeepsIds(t, now, r.id);
      assert Sweep(t + [r], now) == Sweep(t, now) + [SweepRow(r, now)];
    case Decide(id, approved, who, why) =>
      SweepKeepsIds(t, now, id);
      var swept := Sweep(t, now);
      if Has(swept, id) && swept[IndexOf(swept, id)].status.Pending? {
        var i := IndexOf(swept, id);
        var d := Decision(swept[i], approved, who, why, now);
        assert Sweep(swept[i := d], now) == swept[i := d];
      }
    case Consume(id) =>
      SweepKeepsIds(t, now, id);
      if Has(t, id) && Resolved(t[IndexOf(t, id)].status) {
        var i := IndexOf(t, id);
        var r := t[i].(status := Status.Consumed, consumedAt := Some(now));
        assert Sweep(t[i := r], now) == Sweep(t, now)[i := r];
      }
    case Tick(dt) => SweepTwice(t, now, now + dt);
    case _ =>
  }

  /**
   * Lazy expiry cannot be told from eager expiry: over every sequence of operations and clock
   * ticks, the store answers exactly as one whose rows expire on their own at `expires_at`.
   */
  lemma {:induction false} LazyRefinesEager(t: Table, now: int, ops: seq<Op>)
    ensures LazyObs(t, now, ops) == EagerObs(Sweep(t, now), now, ops)
    decreases |ops|
  {
    if ops == [] {
    } else {
      StepRefines(t, now, ops[0]);
      LazyRefinesEager(LazyStep(t, now, ops[0]).0, Later(now, ops[0]), ops[1..]);
    }
  }

  // -------------------------------------------------- status discipline

  predicate Moves(a: Status, b: Status) {
    a == b || (a.Pending? && (b.Approved? || b.Denied? || b.Expired?)) || (Resolved(a) && b.Consumed?)
  }

  /** A row after any number of steps: same identity, and nothing about a decision is rewritten. */
  predicate Descends(a: Request, b: Request) {
    && a.id == b.id && a.persona == b.persona && a.actionType == b.actionType && a.resource == b.resource
    && a.createdAt == b.createdAt && a.expiresAt == b.expiresAt && a.body == b.body
    && (Moves(a.status, b.status) || (a.status.Pending? && b.status.Consumed?))
    && (!a.status.Pending? ==>
        a.decidedBy == b.decidedBy && a.justification == b.justification && a.decidedAt == b.decidedAt)
    && (a.status.Consumed? ==> a == b)
  }

  /** One operation never removes a row and moves a status only along the state diagram. */
  lemma StepMoves(t: Table, now: int, op: Op, i: nat)
    requires i < |t|
    ensures var u := LazyStep(t, now, op).0;
      i < |u| && Moves(t[i].status, u[i].status) && Descends(t[i], u[i])
  {
    hide SelectList, SelectMatch;
  }

  /**
   * Status only moves pending to decided or expired, and decided to consumed, along every run; the first
   * decision stands.
   */
  lemma {:induction false} RunMoves(t: Table, now: int, ops: seq<Op>, i: nat)
    requires i < |t|
    ensures i < |LazyRun(t, now, ops)| && Descends(t[i], LazyRun(t, now, ops)[i])
    decreases |ops|
  {
    if ops == [] {
    } else {
      StepMoves(t, now, ops[0], i);
      RunMoves(LazyStep(t, now, ops[0]).0, Later(now, ops[0]), ops[1..], i);
    }
  }

  /** Successful decisions of an id along a run. */
  function Decisions(t: Table, now: int, ops: seq<Op>, id: string): nat
    decreases |ops|
  {
    if ops == [] then 0
    else
      var (t', o) := LazyStep(t, now, ops[0]);
      (if ops[0].Decide? && ops[0].id == id && o.Decided? then 1 else 0)
      + Decisions(t', Later(now, ops[0]), ops[1..], id)
  }

  /** Successful consumptions of an id along a run. */
  function Consumptions(t: Table, now: int, ops: seq<Op>, id: string): nat
    decreases |ops|
  {
    if ops == [] then 0
    else
      var (t', o) := LazyStep(t, now, ops[0]);
      (if ops[0].Consume? && ops[0].id == id && o == DidConsume(true) then 1 else 0)
      + Consumptions(t', Later(now, ops[0]), ops[1..], id)
  }

  function DecisionsLeft(t: Table, id: string): nat {
    if !Has(t, id) || t[IndexOf(t, id)].status.Pending? then 1 else 0
  }

  function ConsumptionsLeft(t: Table, id: string): nat {
    if !Has(t, id) || t[IndexOf(t, id)].status.Pending? || Resolved(t[IndexOf(t, id)].status) then 1 else 0
  }

  lemma StepKeepsIndex(t: Table, now: int, op: Op, id: string)
    requires Has(t, id)
    ensures var u := LazyStep(t, now, op).0; Has(u, id) && IndexOf(u, id) == IndexOf(t, id)
  {
    var u := LazyStep(t, now, op).0;
    var i := IndexOf(t, id);
    StepMoves(t, now, op, i);
    assert u[i].id == id;
    forall j | 0 <= j < i ensures u[j].id != id { StepMoves(t, now, op, j); }
  }

  lemma StepSpends(t: Table, now: int, op: Op, id: string)
    ensures var (u, o) := LazyStep(t, now, op);
      && DecisionsLeft(u, id) + (if op.Decide? && op.id == id && o.Decided? then 1 else 0) <= DecisionsLeft(t, id)
      && ConsumptionsLeft(u, id) + (if op.Consume? && op.id == id && o == DidConsume(true) then 1 else 0)
          <= ConsumptionsLeft(t, id)
  {
    SweepKeepsIds(t, now, id);
    if Has(t, id) {
      StepKeepsIndex(t, now, op, id);
      StepMoves(t, now, op, IndexOf(t, id));
    }
  }

  /** With each transaction atomic: an id is decided at most once and consumed at most once, over every run. */
  lemma {:induction false} AtMostOnce(t: Table, now: int, ops: seq<Op>, id: string)
    ensures Decisions(t, now, ops, id) <= DecisionsLeft(t, id) <= 1
    ensures Consumptions(t, now, ops, id) <= ConsumptionsLeft(t, id) <= 1
    decreases |ops|
  {
    if ops == [] {
    } else {
      StepSpends(t, now, ops[0], id);
      AtMostOnce(LazyStep(t, now, ops[0]).0, Later(now, ops[0]), ops[1..], id);
    }
  }

  // ----------------------------------------------------------- the store

  /** Each method is one transaction; `now` is the clock reading it makes. */
  class ApprovalStore {
    var rows: Table

    constructor ()
      ensures rows == []
    {
      rows := [];
    }

    method ExpireLapsed(now: int)
      modifies this
      ensures rows == Sweep(old(rows), now)
    {
      var i := 0;
      ghost var was := rows;
      while i < |rows|
        invariant 0 <= i <= |rows| == |was|
        invariant forall k :: 0 <= k < i ==> rows[k] == SweepRow(was[k], now)
        invariant forall k :: i <= k < |was| ==> rows[k] == was[k]
      {
        if rows[i].status.Pending? && rows[i].expiresAt.Some? && rows[i].expiresAt.value <= now {
          rows := rows[i := rows[i].(status := Expired)];
        }
        i := i + 1;
      }
    }

    /** Creating looks at no clock. */
    method Insert(request: Request) returns (o: Obs)
      modifies this
      ensures forall now :: (rows, o) == LazyStep(old(rows), now, Create(request))
    {
      if Has(rows, request.id) {
        return Duplicate;
      }
      rows := rows + [request];
      return Done;
    }

    method Lookup(id: string, now: int) returns (o: Obs)
      modifies this
      ensures (rows, o) == LazyStep(old(rows), now, Get(id))
    {
      ExpireLapsed(now);
      return Row(Select(rows, id));
    }

    method List(persona: string, status: Option<Status>, now: int) returns (o: Obs)
      modifies this
      ensures (rows, o) == LazyStep(old(rows), now, ListRequests(persona, status))
    {
      ExpireLapsed(now);
      return Rows(SelectList(rows, persona, status));
    }

    method FindFirst(persona: string, actionType: string, resource: string, statuses: set<Status>, now: int)
      returns (o: Obs)
      modifies this
      ensures (rows, o) == LazyStep(old(rows), now, Find(persona, actionType, resource, statuses))
    {
      ExpireLapsed(now);
      return Row(SelectMatch(rows, persona, actionType, resource, statuses));
    }

    method Resolve(id: string, approved: bool, who: string, why: string, now: int) returns (o: Obs)
      modifies this
      ensures (rows, o) == LazyStep(old(rows), now, Decide(id, approved, who, why))
    {
      var before := rows;
      ExpireLapsed(now);
      if !Has(rows, id) {
        rows := before;  // the raise rolls the transaction back
        return Unknown;
      }
      var i := IndexOf(rows, id);
      if !rows[i].status.Pending? {
        var found := rows[i].status;
        rows := before;
        return AlreadyDecided(found);
      }
      rows := rows[i := Decision(rows[i], approved, who, why, now)];
      return Decided(rows[i]);
    }

    method TakeOnce(id: string, now: int) returns (o: Obs)
      modifies this
      ensures (rows, o) == LazyStep(old(rows), now, Consume(id))
    {
      if !Has(rows, id) {
        return DidConsume(false);
      }
      var i := IndexOf(rows, id);
      if !Resolved(rows[i].status) {
        return DidConsume(false);
      }
      rows := rows[i := rows[i].(status := Status.Consumed, consumedAt := Some(now))];
      return DidConsume(true);
    }
  }
}
