/** The session registry and its durable metadata (harnesses/sessions.py, core/durable.py). */
module Sessions {
  import opened Prelude

  /** `serial` stands for the identity of the Session object, and so of its lock. */
  datatype Session = Session(threadId: string, serial: nat, createdAt: int, lastUsed: int)

  datatype Validity = Active | Lapsed

  /** The columns of a metadata row that the registry reads or changes. */
  datatype Meta = Meta(role: string, lastUsed: int, expiresAt: Option<int>, status: Validity)

  datatype Config = Config(idleTtl: int, durableTtl: int, role: string, hasStore: bool, hasRebind: bool)

  datatype Registry = Registry(sessions: map<string, Session>, store: map<string, Meta>, next: nat)

  // ------------------------------------------------------ the session store

  function Window(ttl: int, now: int): Option<int> { if ttl > 0 then Some(now + ttl) else None }

  /** Delete-then-insert. */
  function RecordMeta(cfg: Config, store: map<string, Meta>, tid: string, now: int): map<string, Meta> {
    if cfg.hasStore then store[tid := Meta(cfg.role, now, Window(cfg.durableTtl, now), Active)] else store
  }

  function TouchMeta(cfg: Config, store: map<string, Meta>, tid: string, now: int): map<string, Meta> {
    if !cfg.hasStore || tid !in store then store
    else
      store[tid := store[tid].(
        lastUsed := now,
        expiresAt := if cfg.durableTtl > 0 then Some(now + cfg.durableTtl) else store[tid].expiresAt)]
  }

  function MarkLapsed(store: map<string, Meta>, tid: string): map<string, Meta> {
    if tid in store then store[tid := store[tid].(status := Lapsed)] else store
  }

  // ----------------------------------------------------------- operations

  predicate Idle(cfg: Config, s: Session, now: int) { now - s.lastUsed > cfg.idleTtl }

  /** `expire_idle`. */
  function Sweep(cfg: Config, r: Registry, now: int): Registry {
    r.(sessions := map tid | tid in r.sessions && !Idle(cfg, r.sessions[tid], now) :: r.sessions[tid])
  }

  datatype Refusal = EmptyId | DuplicateId | WrongId

  datatype Obs =
    | Created(made: Result<Session, Refusal>)
    | Found(session: Option<Session>)
    | Rejected(reason: Refusal)
    | Released(was: bool)

  function Register(cfg: Config, r: Registry, tid: string, now: int): (Registry, Session) {
    var s := Session(tid, r.next, now, now);
    (r.(sessions := r.sessions[tid := s], next := r.next + 1), s)
  }

  /** The end of `create`, after the factory's await. */
  function FinishCreate(cfg: Config, r: Registry, tid: string, now: int): (Registry, Obs) {
    if tid == "" then (r, Created(Err(EmptyId)))
    else if tid in r.sessions then (r, Created(Err(DuplicateId)))
    else
      var (r', s) := Register(cfg, r, tid, now);
      (r'.(store := RecordMeta(cfg, r.store, tid, now)), Created(Ok(s)))
  }

  /** `lookup` on a registry whose idle sessions are already gone. */
  function Use(cfg: Config, r: Registry, tid: string, now: int): (Registry, Option<Session>) {
    if tid !in r.sessions then (r, None)
    else
      var s := r.sessions[tid].(lastUsed := now);
      (r.(sessions := r.sessions[tid := s], store := TouchMeta(cfg, r.store, tid, now)), Some(s))
  }

  datatype Decision = Live(session: Session) | Rebind | Unresumable

  predicate Expired(m: Meta, now: int) { m.expiresAt.Some? && m.expiresAt.value <= now }

  /** `resolve` up to the rebind factory's await. */
  function Decide(cfg: Config, r: Registry, tid: string, now: int): (Registry, Decision) {
    var (r', found) := Use(cfg, r, tid, now);
    if found.Some? then (r', Live(found.value))
    else if !cfg.hasStore || !cfg.hasRebind then (r', Unresumable)
    else if tid !in r'.store || !r'.store[tid].status.Active? then (r', Unresumable)
    else if Expired(r'.store[tid], now) then (r'.(store := MarkLapsed(r'.store, tid)), Unresumable)
    else if cfg.role != "" && r'.store[tid].role != cfg.role then (r', Unresumable)
    else (r', Rebind)
  }

  /** The end of `resolve`: no second look at the map. */
  function Install(cfg: Config, r: Registry, tid: string, now: int): (Registry, Session) {
    var (r', s) := Register(cfg, r, tid, now);
    (r'.(store := TouchMeta(cfg, r.store, tid, now)), s)
  }

  /** `resolve` after the rebind factory's await: reboundId is what the factory produced. */
  function FinishResolve(cfg: Config, r: Registry, tid: string, reboundId: string, now: int): (Registry, Obs) {
    if reboundId != tid then (r, Rejected(WrongId))
    else
      var (r', s) := Install(cfg, r, tid, now);
      (r', Found(Some(s)))
  }

  /** `resolve` with nothing interleaved; reboundId is what the rebind factory produced. */
  function ResolveAll(cfg: Config, r: Registry, tid: string, reboundId: string, now: int): (Registry, Obs) {
    var (r', d) := Decide(cfg, r, tid, now);
    match d
    case Live(s) => (r', Found(Some(s)))
    case Unresumable => (r', Found(None))
    case Rebind => FinishResolve(cfg, r', tid, reboundId, now)
  }

  datatype Op =
    | Create(id: string)
    | Lookup(id: string)
    | Resolve(id: string, reboundId: string)
    | Expire(id: string)

  /**
   * The registry as written, for calls that no other call interrupts: create, lookup and resolve
   * sweep first, expire does not. `SessionRuns` splits create and resolve at their awaits and
   * compares the registry with a timer.
   */
  function Call(cfg: Config, r: Registry, now: int, op: Op): (Registry, Obs) {
    match op
    case Create(tid) => FinishCreate(cfg, Sweep(cfg, r, now), tid, now)
    case Lookup(tid) =>
      var (r', found) := Use(cfg, Sweep(cfg, r, now), tid, now);
      (r', Found(found))
    case Resolve(tid, reboundId) => ResolveAll(cfg, Sweep(cfg, r, now), tid, reboundId, now)
    case Expire(tid) => (r.(sessions := r.sessions - {tid}), Released(tid in r.sessions))
  }

  /** What callers of create, lookup and resolve see; the answer of expire is treated apart. */
  function Visible(o: Obs): Obs { if o.Released? then Released(false) else o }

  // -------------------------------------------------------------- sweeping

  predicate Sane(cfg: Config) { cfg.idleTtl >= 0 }

  lemma SweepTwice(cfg: Config, r: Registry, now: int, later: int)
    requires now <= later
    ensures Sweep(cfg, Sweep(cfg, r, now), later) == Sweep(cfg, r, later)
  {
  }

  /** Sessions used just now survive a sweep. */
  lemma UsedSurvives(cfg: Config, r: Registry, now: int, tid: string, s: Session)
    requires Sane(cfg) && Sweep(cfg, r, now) == r && s.lastUsed == now
    ensures Sweep(cfg, r.(sessions := r.sessions[tid := s]), now).sessions == r.sessions[tid := s]
  {
    assert Sweep(cfg, r, now).sessions == r.sessions;
    forall t | t in r.sessions ensures !Idle(cfg, r.sessions[t], now) {
      assert t in Sweep(cfg, r, now).sessions;
    }
  }

  /** Lookup answers exactly for a registered session used within the TTL, and renews it. */
  lemma LookupExactly(cfg: Config, r: Registry, now: int, tid: string)
    ensures Call(cfg, r, now, Lookup(tid)).1
         == Found(if tid in r.sessions && now - r.sessions[tid].lastUsed <= cfg.idleTtl
                  then Some(r.sessions[tid].(lastUsed := now)) else None)
  {
  }

  /** The end of `create` never replaces an entry, however long the factory took. */
  lemma CreateNeverOverwrites(cfg: Config, r: Registry, now: int, tid: string, other: string)
    requires other in r.sessions
    ensures var (r', o) := FinishCreate(cfg, r, tid, now);
      && other in r'.sessions && r'.sessions[other] == r.sessions[other]
      && (tid == other ==> o.made.Err?)
  {
  }

  /**
   * What the end of `create` answers: an empty id and a registered one are refused, each as such, and
   * any other id is registered as a session born now whose object no earlier one is.
   */
  lemma CreateAnswersExactly(cfg: Config, r: Registry, now: int, tid: string)
    requires SerialsBelow(r)
    ensures var (r', o) := FinishCreate(cfg, r, tid, now);
      && (o == Created(Err(EmptyId)) <==> tid == "")
      && (o == Created(Err(DuplicateId)) <==> tid != "" && tid in r.sessions)
      && (o.Created? && o.made.Ok? <==> tid != "" && tid !in r.sessions)
      && (o.Created? && o.made.Ok? ==>
            && o.made.value == Session(tid, o.made.value.serial, now, now)
            && tid in r'.sessions && r'.sessions[tid] == o.made.value
            && forall t :: t in r.sessions ==> r.sessions[t].serial != o.made.value.serial)
  {
  }

  /**
   * What the end of `resolve` answers after a re-bind: another id is refused and changes nothing; the
   * asked one is handed out as a session born now, registered whether or not another one was.
   */
  lemma ResolveAnswersExactly(cfg: Config, r: Registry, tid: string, reboundId: string, now: int)
    requires SerialsBelow(r)
    ensures var (r', o) := FinishResolve(cfg, r, tid, reboundId, now);
      && (reboundId != tid ==> o == Rejected(WrongId) && r' == r)
      && (reboundId == tid ==>
            && o.Found? && o.session.Some? && tid in r'.sessions && r'.sessions[tid] == o.session.value
            && o.session.value == Session(tid, o.session.value.serial, now, now)
            && forall t :: t in r.sessions ==> r.sessions[t].serial != o.session.value.serial)
  {
  }

  // ------------------------------------------------------ durable re-bind

  /**
   * The durable window slides with use: a session looked up at t and then released can be re-bound
   * exactly until t plus the session TTL, and without a TTL as long as before.
   */
  lemma RebindWindowExactly(cfg: Config, r: Registry, t: int, u: int, tid: string)
    requires cfg.hasStore && cfg.hasRebind && t <= u
    requires Call(cfg, r, t, Lookup(tid)).1.session.Some?
    requires tid in r.store && r.store[tid].status.Active? && (cfg.role == "" || r.store[tid].role == cfg.role)
    ensures var released := Call(cfg, Call(cfg, r, t, Lookup(tid)).0, t, Expire(tid)).0;
      Decide(cfg, Sweep(cfg, released, u), tid, u).1.Rebind?
      <==> if cfg.durableTtl > 0 then u < t + cfg.durableTtl else !Expired(r.store[tid], u)
  {
    var used := Call(cfg, r, t, Lookup(tid)).0;
    assert used.store == TouchMeta(cfg, r.store, tid, t);
  }

  /** Neither live nor resumable: the row is marked expired, or its window is over. */
  predicate Dead(r: Registry, tid: string, now: int) {
    tid !in r.sessions && tid in r.store && (r.store[tid].status.Lapsed? || Expired(r.store[tid], now))
  }

  // -------------------------------------------------- overlapping resolves

  /**
   * Two resolves of one thread that overlap at the rebind await hand out two different sessions,
   * and so two locks; the registry keeps only the later one.
   */
  lemma OverlappingResolvesSplit(cfg: Config, r: Registry, tid: string, t1: int, t2: int, t3: int, t4: int)
    requires Sane(cfg) && Decide(cfg, Sweep(cfg, r, t1), tid, t1).1.Rebind?
    requires t1 <= t2 <= t3 <= t4
    requires tid in r.store && !Expired(r.store[tid], t2)
    ensures var r1 := Decide(cfg, Sweep(cfg, r, t1), tid, t1).0;
      var r2 := Decide(cfg, Sweep(cfg, r1, t2), tid, t2).0;
      var (r3, first) := Install(cfg, r2, tid, t3);
      var (r4, second) := Install(cfg, r3, tid, t4);
      && Decide(cfg, Sweep(cfg, r1, t2), tid, t2).1.Rebind?
      && first.threadId == second.threadId == tid
      && first.serial != second.serial
      && r3.sessions[tid] == first && r4.sessions[tid] == second
  {
  }

  predicate SerialsBelow(r: Registry) { forall t :: t in r.sessions ==> r.sessions[t].serial < r.next }

  // ---------------------------------------------------------- the registry

  class SessionRegistry {
    const cfg: Config
    var sessions: map<string, Session>
    var store: map<string, Meta>
    var next: nat

    constructor (cfg: Config)
      ensures this.cfg == cfg && State() == Registry(map[], map[], 0)
    {
      this.cfg := cfg;
      sessions, store, next := map[], map[], 0;
    }

    function State(): Registry
      reads this
    {
      Registry(sessions, store, next)
    }

    method ExpireIdle(now: int) returns (expired: set<string>)
      modifies this
      ensures State() == Sweep(cfg, old(State()), now)
      ensures expired == set tid | tid in old(sessions) && Idle(cfg, old(sessions)[tid], now)
    {
      expired := set tid | tid in sessions && Idle(cfg, sessions[tid], now);
      var todo := expired;
      while todo != {}
        invariant todo <= expired
        invariant sessions == old(sessions) - (expired - todo)
        invariant store == old(store) && next == old(next)
        decreases |todo|
      {
        var tid :| tid in todo;
        sessions := sessions - {tid};
        todo := todo - {tid};
      }
      assert sessions == old(sessions) - expired;
      assert forall tid :: tid in sessions <==> tid in old(sessions) && !Idle(cfg, old(sessions)[tid], now);
      assert sessions == Sweep(cfg, old(State()), now).sessions;
    }

    /** `create` after the factory's await. */
    method CompleteCreate(tid: string, now: int) returns (o: Obs)
      modifies this
      ensures (State(), o) == FinishCreate(cfg, old(State()), tid, now)
    {
      if tid == "" {
        return Created(Err(EmptyId));
      }
      if tid in sessions {
        return Created(Err(DuplicateId));
      }
      var s := Session(tid, next, now, now);
      next := next + 1;
      sessions := sessions[tid := s];
      store := RecordMeta(cfg, store, tid, now);
      return Created(Ok(s));
    }

    /** The factory produced tid without yielding to another operation. */
    method CreateSession(tid: string, now: int) returns (o: Obs)
      modifies this
      ensures (State(), o) == Call(cfg, old(State()), now, Create(tid))
    {
      var _ := ExpireIdle(now);
      o := CompleteCreate(tid, now);
    }

    method LookupSession(tid: string, now: int) returns (o: Obs)
      modifies this
      ensures (State(), o) == Call(cfg, old(State()), now, Lookup(tid))
    {
      var _ := ExpireIdle(now);
      if tid !in sessions {
        return Found(None);
      }
      sessions := sessions[tid := sessions[tid].(lastUsed := now)];
      store := TouchMeta(cfg, store, tid, now);
      return Found(Some(sessions[tid]));
    }

    /** `resolve` up to the rebind factory's await. */
    method DecideResolve(tid: string, now: int) returns (d: Decision)
      modifies this
      ensures (State(), d) == Decide(cfg, Sweep(cfg, old(State()), now), tid, now)
    {
      var o := LookupSession(tid, now);
      if o.session.Some? {
        return Live(o.session.value);
      }
      if !cfg.hasStore || !cfg.hasRebind {
        return Unresumable;
      }
      if tid !in store || !store[tid].status.Active? {
        return Unresumable;
      }
      if Expired(store[tid], now) {
        store := MarkLapsed(store, tid);
        return Unresumable;
      }
      if cfg.role != "" && store[tid].role != cfg.role {
        return Unresumable;
      }
      return Rebind;
    }

    /** `resolve` after the rebind factory's await. */
    method CompleteResolve(tid: string, reboundId: string, now: int) returns (o: Obs)
      modifies this
      ensures (State(), o) == FinishResolve(cfg, old(State()), tid, reboundId, now)
    {
      if reboundId != tid {
        return Rejected(WrongId);
      }
      var s := Session(tid, next, now, now);
      next := next + 1;
      sessions := sessions[tid := s];
      store := TouchMeta(cfg, store, tid, now);
      return Found(Some(s));
    }

    /** The rebind factory did not yield to another operation. */
    method ResolveSession(tid: string, reboundId: string, now: int) returns (o: Obs)
      modifies this
      ensures (State(), o) == Call(cfg, old(State()), now, Resolve(tid, reboundId))
    {
      var d := DecideResolve(tid, now);
      match d {
        case Live(s) => return Found(Some(s));
        case Unresumable => return Found(None);
        case Rebind => o := CompleteResolve(tid, reboundId, now);
      }
    }

    method ExpireSession(tid: string) returns (was: bool)
      modifies this
      ensures forall now :: (State(), Released(was)) == Call(cfg, old(State()), now, Expire(tid))
    {
      was := tid in sessions;
      sessions := sessions - {tid};
    }
  }
}
