/** The reflection pass and its watermark (core/learning.py, over the lists core/memory.py returns). */
module Learning {
  import opened Prelude

  /** ISO timestamps of one offset compare as text the way the instants compare; here they are integers. */
  datatype Row = Row(id: nat, createdAt: Option<int>)

  datatype Key = Watermark | Other(n: nat)

  datatype Fact = Fact(key: Key, until: Option<int>)

  /**
   * Facts with the most recently updated first, rows as they became visible, and the rows named by the
   * stored reflections.
   */
  datatype Memory = Memory(facts: seq<Fact>, rows: seq<Row>, consolidated: seq<Row>)

  const FACTS_READ: nat := 200

  function Upsert(facts: seq<Fact>, f: Fact): seq<Fact> { [f] + Without(facts, f.key) }

  function Without(facts: seq<Fact>, key: Key): seq<Fact> {
    if facts == [] then []
    else (if facts[0].key == key then [] else [facts[0]]) + Without(facts[1..], key)
  }

  function Read(facts: seq<Fact>): seq<Fact> { facts[..Min(FACTS_READ, |facts|)] }

  /** The first watermark fact in the list. */
  function LastUntil(facts: seq<Fact>): Option<int> {
    if facts == [] then None
    else if facts[0].key == Watermark then facts[0].until
    else LastUntil(facts[1..])
  }

  function Reverse(s: seq<Row>): seq<Row> { seq(|s|, i requires 0 <= i < |s| => s[|s| - 1 - i]) }

  predicate AtLeastAsNew(a: Row, b: Row) {
    a.createdAt.None? || (b.createdAt.Some? && a.createdAt.value >= b.createdAt.value)
  }

  function Place(row: Row, sorted: seq<Row>): seq<Row> {
    if sorted == [] || AtLeastAsNew(row, sorted[0]) then [row] + sorted else [sorted[0]] + Place(row, sorted[1..])
  }

  /** `ORDER BY created_at DESC`; of rows with one date the last to arrive comes first. */
  function NewestFirst(rows: seq<Row>): seq<Row> {
    if rows == [] then [] else Place(rows[|rows| - 1], NewestFirst(rows[..|rows| - 1]))
  }

  /** The newest rows first, at most `limit` of them, none for a limit that is not positive. */
  function Listed(rows: seq<Row>, limit: int): seq<Row> {
    if limit <= 0 then [] else NewestFirst(rows)[..Min(limit, |NewestFirst(rows)|)]
  }

  predicate IsNew(row: Row, until: Option<int>) {
    until.None? || row.createdAt.None? || row.createdAt.value > until.value
  }

  function Fresh(listed: seq<Row>, until: Option<int>): seq<Row> {
    if listed == [] then []
    else
      var last := listed[|listed| - 1];
      Fresh(listed[..|listed| - 1], until) + if IsNew(last, until) then [last] else []
  }

  function Later(a: Option<int>, b: Option<int>): Option<int> {
    if a.None? then b else if b.None? then a else Some(Max(a.value, b.value))
  }

  function NewestStamp(rows: seq<Row>): Option<int> {
    if rows == [] then None
    else Later(NewestStamp(rows[..|rows| - 1]), rows[|rows| - 1].createdAt)
  }

  /** One completed pass; `stamp` makes the key of the reflection fact unique. */
  function Pass(m: Memory, limit: int, stamp: nat): Memory {
    var unseen := Fresh(Listed(m.rows, limit), LastUntil(Read(m.facts)));
    if unseen == [] then m
    else
      var facts := Upsert(m.facts, Fact(Other(stamp), None));
      var newest := NewestStamp(unseen);
      Memory(if newest.Some? then Upsert(facts, Fact(Watermark, newest)) else facts, m.rows, m.consolidated + unseen)
  }

  method FindUntil(read: seq<Fact>) returns (until: Option<int>)
    ensures until == LastUntil(read)
  {
    for i := 0 to |read|
      invariant LastUntil(read) == LastUntil(read[i..])
    {
      if read[i].key == Watermark {
        return read[i].until;
      }
      assert read[i..][1..] == read[i + 1..];
    }
    return None;
  }

  method DropConsolidated(listed: seq<Row>, until: Option<int>) returns (unseen: seq<Row>)
    ensures unseen == Fresh(listed, until)
  {
    unseen := [];
    for i := 0 to |listed|
      invariant unseen == Fresh(listed[..i], until)
    {
      assert listed[..i + 1][..i] == listed[..i];
      if until.Some? && listed[i].createdAt.Some? && listed[i].createdAt.value <= until.value {
        assert unseen + [] == unseen;
        continue;
      }
      unseen := unseen + [listed[i]];
    }
    assert listed[..|listed|] == listed;
  }

  method FindNewest(rows: seq<Row>) returns (newest: Option<int>)
    ensures newest == NewestStamp(rows)
  {
    newest := None;
    for i := 0 to |rows|
      invariant newest == NewestStamp(rows[..i])
    {
      assert rows[..i + 1][..i] == rows[..i];
      newest := Later(newest, rows[i].createdAt);
    }
    assert rows[..|rows|] == rows;
  }

  /** The persona's memory, as the pass reads and writes it. */
  class MemoryStore {
    var facts: seq<Fact>
    var rows: seq<Row>
    var consolidated: seq<Row>

    function State(): Memory
      reads this
    {
      Memory(facts, rows, consolidated)
    }

    method StoreFact(f: Fact)
      modifies this`facts
      ensures facts == Upsert(old(facts), f)
    {
      facts := Upsert(facts, f);
    }

    method RunReflection(limit: int, stamp: nat) returns (count: Option<nat>)
      modifies this
      ensures State() == Pass(old(State()), limit, stamp)
      ensures count == if |consolidated| == |old(consolidated)| then None
          else Some(|consolidated| - |old(consolidated)|)
    {
      hide Upsert, Fresh, NewestStamp, Listed, LastUntil, Read;
      var until := FindUntil(Read(facts));
      var unseen := DropConsolidated(Listed(rows, limit), until);
      if unseen == [] {
        return None;
      }
      StoreFact(Fact(Other(stamp), None));
      var newest := FindNewest(unseen);
      if newest.Some? {
        StoreFact(Fact(Watermark, newest));
      }
      consolidated := consolidated + unseen;
      return Some(|unseen|);
    }
  }

  // ----------------------------------------------------------------- runs

  datatype Event = Arrive(row: Row) | Write(n: nat) | Reflect(limit: int, stamp: nat)

  const EMPTY := Memory([], [], [])

  function Step(m: Memory, e: Event): Memory {
    match e
    case Arrive(row) => m.(rows := m.rows + [row])
    case Write(n) => m.(facts := Upsert(m.facts, Fact(Other(n), None)))
    case Reflect(limit, stamp) => Pass(m, limit, stamp)
  }

  function Run(m: Memory, es: seq<Event>): Memory
    decreases |es|
  {
    if es == [] then m else Run(Step(m, es[0]), es[1..])
  }

  /** Fewer than 200 facts are more recent than the watermark, or there is none yet. */
  predicate WatermarkInSight(m: Memory) { LastUntil(Read(m.facts)) == LastUntil(m.facts) }

  predicate NextInTime(rows: seq<Row>, row: Row) {
    row.createdAt.Some?
        && (rows != [] ==> rows[|rows| - 1].createdAt.Some? && row.createdAt.value > rows[|rows| - 1].createdAt.value)
  }

  /** Rows arrive dated, in strictly increasing order, and every pass sees the watermark. */
  predicate Orderly(m: Memory, es: seq<Event>)
    decreases |es|
  {
    es == []
    || ((es[0].Arrive? ==> NextInTime(m.rows, es[0].row))
        && (es[0].Reflect? ==> WatermarkInSight(m))
        && Orderly(Step(m, es[0]), es[1..]))
  }

  /** Rows that arrived since the last pass that read any. */
  function Backlog(es: seq<Event>): nat {
    if es == [] then 0
    else
      var before := Backlog(es[..|es| - 1]);
      match es[|es| - 1]
      case Arrive(_) => before + 1
      case Write(_) => before
      case Reflect(limit, _) => if limit > 0 then 0 else before
  }

  /** No pass finds more waiting rows than it reads. */
  predicate WithinLimits(es: seq<Event>) {
    es == []
    || (WithinLimits(es[..|es| - 1])
        && (es[|es| - 1].Reflect? && es[|es| - 1].limit > 0 ==> Backlog(es[..|es| - 1]) <= es[|es| - 1].limit))
  }

  predicate Increasing(rows: seq<Row>) {
    (forall i :: 0 <= i < |rows| ==> rows[i].createdAt.Some?)
    && forall i, j :: 0 <= i < j < |rows| ==> rows[i].createdAt.value < rows[j].createdAt.value
  }

  /** The first `seen` rows are behind the watermark. */
  predicate Inv(m: Memory, seen: nat) {
    && seen <= |m.rows| && Increasing(m.rows)
    && LastUntil(m.facts) == (if seen == 0 then None else m.rows[seen - 1].createdAt)
    && (forall r :: r in m.consolidated ==> r in m.rows[..seen])
    && (forall i, j :: 0 <= i < j < |m.consolidated| ==> m.consolidated[i] != m.consolidated[j])
  }

  predicate Covered(m: Memory, seen: nat)
    requires seen <= |m.rows|
  {
    forall i :: 0 <= i < seen ==> m.rows[i] in m.consolidated
  }

  lemma {:induction false} WithoutKeepsWatermark(facts: seq<Fact>, key: Key)
    requires key != Watermark
    ensures LastUntil(Without(facts, key)) == LastUntil(facts)
  {
    if facts == [] {
    } else {
      WithoutKeepsWatermark(facts[1..], key);
      var tail := Without(facts[1..], key);
      assert facts[0].key != key ==> Without(facts, key)[1..] == tail;
      assert [] + tail == tail;
    }
  }

  /** Only a watermark write moves the watermark. */
  lemma UpsertWatermark(facts: seq<Fact>, f: Fact)
    ensures LastUntil(Upsert(facts, f)) == if f.key == Watermark then f.until else LastUntil(facts)
  {
    assert Upsert(facts, f)[1..] == Without(facts, f.key);
    if f.key != Watermark {
      WithoutKeepsWatermark(facts, f.key);
    }
  }

  lemma ReverseStep(rows: seq<Row>, lo: nat)
    requires lo < |rows|
    ensures Reverse(rows[lo..]) == Reverse(rows[lo + 1..]) + [rows[lo]]
  {
  }

  lemma FreshStep(listed: seq<Row>, row: Row, until: Option<int>)
    ensures Fresh(listed + [row], until) == Fresh(listed, until) + if IsNew(row, until) then [row] else []
  {
    assert (listed + [row])[..|listed|] == listed;
  }

  lemma NewAfterSeen(rows: seq<Row>, i: nat, seen: nat)
    requires Increasing(rows) && i < |rows| && seen <= |rows|
    ensures IsNew(rows[i], if seen == 0 then None else rows[seen - 1].createdAt) <==> i >= seen
  {
  }

  lemma {:induction false} FreshIsUnseen(rows: seq<Row>, lo: nat, seen: nat)
    requires Increasing(rows) && lo <= |rows| && seen <= |rows|
    ensures Fresh(Reverse(rows[lo..]), if seen == 0 then None else rows[seen - 1].createdAt)
         == Reverse(rows[Max(lo, seen)..])
    decreases |rows| - lo
  {
    hide Fresh, Reverse, Increasing, IsNew;
    var until := if seen == 0 then None else rows[seen - 1].createdAt;
    if lo == |rows| {
      assert rows[lo..] == [];
      NothingIsFresh(until);
    } else {
      FreshIsUnseen(rows, lo + 1, seen);
      ReverseStep(rows, lo);
      FreshStep(Reverse(rows[lo + 1..]), rows[lo], until);
      NewAfterSeen(rows, lo, seen);
      assert Reverse(rows[Max(lo + 1, seen)..]) + [] == Reverse(rows[Max(lo + 1, seen)..]);
    }
  }

  lemma NothingIsFresh(until: Option<int>)
    ensures Reverse([]) == [] && Fresh([], until) == []
  {
  }

  lemma {:induction false} NewestIsLast(rows: seq<Row>, lo: nat)
    requires Increasing(rows) && lo < |rows|
    ensures NewestStamp(Reverse(rows[lo..])) == rows[|rows| - 1].createdAt
    decreases |rows| - lo
  {
    ReverseStep(rows, lo);
    assert Reverse(rows[lo..])[..|rows| - lo - 1] == Reverse(rows[lo + 1..]);
    if lo + 1 < |rows| {
      NewestIsLast(rows, lo + 1);
    }
  }

  lemma {:induction false} IncreasingReversed(rows: seq<Row>)
    requires Increasing(rows)
    ensures NewestFirst(rows) == Reverse(rows)
  {
    if rows == [] {
    } else {
      var init, last := rows[..|rows| - 1], rows[|rows| - 1];
      IncreasingReversed(init);
      ReverseHead(init, last);
      assert rows == init + [last];
    }
  }

  lemma ReverseHead(init: seq<Row>, last: Row)
    ensures Reverse(init + [last]) == [last] + Reverse(init)
    ensures init != [] ==> Reverse(init) != [] && Reverse(init)[0] == init[|init| - 1]
  {
  }

  lemma ListedWhenIncreasing(rows: seq<Row>, limit: int)
    requires Increasing(rows) && limit > 0
    ensures Listed(rows, limit) == Reverse(rows[Max(0, |rows| - limit)..])
  {
    IncreasingReversed(rows);
  }

  lemma PassReads(m: Memory, seen: nat, limit: int)
    requires Inv(m, seen) && limit > 0
    ensures Fresh(Listed(m.rows, limit), LastUntil(m.facts)) == Reverse(m.rows[Max(|m.rows| - limit, seen)..])
  {
    hide Fresh, Reverse, LastUntil, Listed;
    var lo := Max(0, |m.rows| - limit);
    ListedWhenIncreasing(m.rows, limit);
    FreshIsUnseen(m.rows, lo, seen);
    assert Max(lo, seen) == Max(|m.rows| - limit, seen);
  }

  /**
   * What one pass does: it takes the unseen rows it can read, newest first, and puts the watermark on
   * the newest row.
   */
  lemma PassTakesUnseen(m: Memory, seen: nat, limit: int, stamp: nat)
    requires Inv(m, seen) && WatermarkInSight(m) && limit > 0
    ensures var after := Pass(m, limit, stamp);
      && after.rows == m.rows
      && after.consolidated == m.consolidated + Reverse(m.rows[Max(|m.rows| - limit, seen)..])
      && LastUntil(after.facts) == (if m.rows == [] then None else m.rows[|m.rows| - 1].createdAt)
  {
    hide Fresh, LastUntil, Listed, Upsert;
    PassReads(m, seen, limit);
    var from := Max(|m.rows| - limit, seen);
    if from < |m.rows| {
      NewestIsLast(m.rows, from);
      UpsertWatermark(m.facts, Fact(Other(stamp), None));
      UpsertWatermark(Upsert(m.facts, Fact(Other(stamp), None)), Fact(Watermark, m.rows[|m.rows| - 1].createdAt));
    } else {
      assert Reverse(m.rows[from..]) == [];
    }
  }

  lemma RowsDiffer(rows: seq<Row>, i: nat, from: nat)
    requires Increasing(rows) && i < |rows| && from <= |rows|
    ensures rows[i] in Reverse(rows[from..]) <==> from <= i
    ensures rows[i] in rows[..from] <==> i < from
  {
    var tail := Reverse(rows[from..]);
    assert forall k :: 0 <= k < |tail| ==> tail[k] == rows[|rows| - 1 - k];
    if from <= i {
      assert tail[|rows| - 1 - i] == rows[i];
    } else {
      assert rows[..from][i] == rows[i];
    }
  }

  lemma PassKeepsInv(m: Memory, seen: nat, limit: int, stamp: nat)
    requires Inv(m, seen) && WatermarkInSight(m) && limit > 0
    ensures Inv(Pass(m, limit, stamp), |m.rows|)
  {
    hide Pass, WatermarkInSight, LastUntil;
    var after := Pass(m, limit, stamp);
    PassTakesUnseen(m, seen, limit, stamp);
    var from := Max(|m.rows| - limit, seen);
    var taken := Reverse(m.rows[from..]);
    assert m.rows[..|m.rows|] == m.rows;
    assert forall i :: 0 <= i < |taken| ==> taken[i] == m.rows[|m.rows| - 1 - i];
    forall i | 0 <= i < |taken| ensures taken[i] in m.rows && taken[i] !in m.consolidated {
      RowsDiffer(m.rows, |m.rows| - 1 - i, seen);
    }
    assert forall r :: r in m.consolidated ==> r in m.rows;
  }

  lemma PassCovers(m: Memory, seen: nat, limit: int, stamp: nat)
    requires Inv(m, seen) && WatermarkInSight(m) && limit > 0
    ensures Pass(m, limit, stamp).rows == m.rows
    ensures Covered(Pass(m, limit, stamp), |m.rows|) <==> Covered(m, seen) && |m.rows| - seen <= limit
  {
    hide Pass, WatermarkInSight, LastUntil;
    var after := Pass(m, limit, stamp);
    PassTakesUnseen(m, seen, limit, stamp);
    var from := Max(|m.rows| - limit, seen);
    forall i | 0 <= i < |m.rows|
      ensures m.rows[i] in after.consolidated <==> m.rows[i] in m.consolidated || from <= i
      ensures seen <= i ==> m.rows[i] !in m.consolidated
    {
      RowsDiffer(m.rows, i, from);
      RowsDiffer(m.rows, i, seen);
    }
    if Covered(after, |m.rows|) {
      forall i | 0 <= i < seen ensures m.rows[i] in m.consolidated {
        assert m.rows[i] in after.consolidated;
      }
      assert seen < |m.rows| ==> m.rows[seen] in after.consolidated;
    }
  }

  predicate Reads(e: Event) { e.Reflect? && e.limit > 0 }

  lemma StepKeepsInv(m: Memory, seen: nat, e: Event)
    requires Inv(m, seen) && Orderly(m, [e])
    ensures Inv(Step(m, e), if Reads(e) then |m.rows| else seen)
    ensures |Step(m, e).rows| == |m.rows| + if e.Arrive? then 1 else 0
    ensures if Reads(e) then Covered(Step(m, e), |m.rows|) <==> Covered(m, seen) && |m.rows| - seen <= e.limit
            else Covered(Step(m, e), seen) <==> Covered(m, seen)
  {
    match e {
      case Arrive(row) =>
        assert Step(m, e).rows[..seen] == m.rows[..seen];
        assert forall i :: 0 <= i < seen ==> Step(m, e).rows[i] == m.rows[i];
      case Write(n) =>
        UpsertWatermark(m.facts, Fact(Other(n), None));
      case Reflect(limit, stamp) =>
        if limit > 0 {
          PassKeepsInv(m, seen, limit, stamp);
          PassCovers(m, seen, limit, stamp);
        }
    }
  }

  lemma {:induction false} RunOneMore(m: Memory, es: seq<Event>)
    requires es != []
    ensures Run(m, es) == Step(Run(m, es[..|es| - 1]), es[|es| - 1])
    ensures Orderly(m, es) ==> Orderly(m, es[..|es| - 1]) && Orderly(Run(m, es[..|es| - 1]), [es[|es| - 1]])
    decreases |es|
  {
    hide Pass, WatermarkInSight, NextInTime;
    if |es| > 1 {
      RunOneMore(Step(m, es[0]), es[1..]);
      assert es[1..][..|es| - 2] == es[..|es| - 1][1..];
    } else {
      assert es[1..] == [] && es[..0] == [];
      assert [es[0]] == es;
    }
  }

  lemma CountOneMore(es: seq<Event>)
    requires es != []
    ensures var init, e := es[..|es| - 1], es[|es| - 1];
      && Backlog(es) == (if Reads(e) then 0 else if e.Arrive? then Backlog(init) + 1 else Backlog(init))
      && (WithinLimits(es) <==> WithinLimits(init) && (Reads(e) ==> Backlog(init) <= e.limit))
  {
  }

  lemma StartKeepsInv()
    ensures Run(EMPTY, []) == EMPTY && Inv(EMPTY, 0) && Covered(EMPTY, 0) && Backlog([]) == 0 && WithinLimits([])
  {
  }

  /**
   * Over every orderly run: the watermark is the newest row any pass has read, no row is
   * consolidated twice, and all rows up to the watermark are consolidated exactly when no pass
   * found more waiting rows than it reads.
   */
  lemma {:induction false} EveryRowOnceWithinLimits(es: seq<Event>)
    requires Orderly(EMPTY, es)
    ensures var m := Run(EMPTY, es);
      && Backlog(es) <= |m.rows|
      && Inv(m, |m.rows| - Backlog(es))
      && (Covered(m, |m.rows| - Backlog(es)) <==> WithinLimits(es))
    decreases |es|
  {
    hide Step, Inv, Covered, Orderly, Run, Backlog, WithinLimits;
    if es == [] {
      StartKeepsInv();
    } else {
      CountOneMore(es);
      var init, e := es[..|es| - 1], es[|es| - 1];
      RunOneMore(EMPTY, es);
      EveryRowOnceWithinLimits(init);
      var m := Run(EMPTY, init);
      StepKeepsInv(m, |m.rows| - Backlog(init), e);
    }
  }

  lemma StepMovesWatermark(m: Memory, seen: nat, e: Event)
    requires Inv(m, seen) && Orderly(m, [e])
    ensures var before, after := LastUntil(m.facts), LastUntil(Step(m, e).facts);
      before.Some? ==> after.Some? && before.value <= after.value
  {
    if Reads(e) {
      PassTakesUnseen(m, seen, e.limit, e.stamp);
    } else {
      StepKeepsInv(m, seen, e);
      assert seen > 0 && e.Arrive? ==> Step(m, e).rows[seen - 1] == m.rows[seen - 1];
    }
  }

  /** The watermark only moves forward. */
  lemma WatermarkNeverDecreases(es: seq<Event>, e: Event)
    requires Orderly(EMPTY, es + [e])
    ensures var before, after := LastUntil(Run(EMPTY, es).facts), LastUntil(Run(EMPTY, es + [e]).facts);
      before.Some? ==> after.Some? && before.value <= after.value
  {
    hide Step, Inv, Orderly, Run, LastUntil, Covered, WithinLimits;
    assert (es + [e])[..|es|] == es;
    RunOneMore(EMPTY, es + [e]);
    EveryRowOnceWithinLimits(es);
    var m := Run(EMPTY, es);
    StepMovesWatermark(m, |m.rows| - Backlog(es), e);
  }

  /** The newest date among the rows, if one is dated. */
  lemma {:induction false} NewestStampExactly(rows: seq<Row>)
    ensures NewestStamp(rows).None? <==> forall r :: r in rows ==> r.createdAt.None?
    ensures NewestStamp(rows).Some? ==>
        && (exists r :: r in rows && r.createdAt == NewestStamp(rows))
        && forall r :: r in rows && r.createdAt.Some? ==> r.createdAt.value <= NewestStamp(rows).value
  {
    if rows == [] {
    } else {
      var init, last := rows[..|rows| - 1], rows[|rows| - 1];
      assert rows == init + [last];
      NewestStampExactly(init);
      if NewestStamp(rows) == last.createdAt {
        assert last in rows;
      } else {
        var r :| r in init && r.createdAt == NewestStamp(init);
        assert r in rows;
      }
    }
  }

  /**
   * Where one pass leaves the watermark, for every memory: at the newest date among the rows it took,
   * and where it was if none of them is dated.
   */
  lemma PassMovesWatermark(m: Memory, limit: int, stamp: nat)
    ensures var after := Pass(m, limit, stamp);
      && |after.consolidated| >= |m.consolidated| && after.consolidated[..|m.consolidated|] == m.consolidated
      && var taken, until := after.consolidated[|m.consolidated|..], LastUntil(after.facts);
         if forall r :: r in taken ==> r.createdAt.None? then until == LastUntil(m.facts)
         else && until.Some? && (exists r :: r in taken && r.createdAt == until)
              && forall r :: r in taken && r.createdAt.Some? ==> r.createdAt.value <= until.value
  {
    hide Upsert, LastUntil, Read, Fresh, Listed, NewestStamp;
    var unseen := Fresh(Listed(m.rows, limit), LastUntil(Read(m.facts)));
    var facts := Upsert(m.facts, Fact(Other(stamp), None));
    NewestStampExactly(unseen);
    UpsertWatermark(m.facts, Fact(Other(stamp), None));
    UpsertWatermark(facts, Fact(Watermark, NewestStamp(unseen)));
    assert (m.consolidated + unseen)[|m.consolidated|..] == unseen;
    assert m.consolidated[|m.consolidated|..] == [];
  }

  // ------------------------------------------------------ one fact per key

  predicate OnePerKey(facts: seq<Fact>) { forall i, j :: 0 <= i < j < |facts| ==> facts[i].key != facts[j].key }

  lemma {:induction false} WithoutExactly(facts: seq<Fact>, key: Key, f: Fact)
    ensures f in Without(facts, key) <==> f in facts && f.key != key
  {
    if facts == [] {
    } else {
      WithoutExactly(facts[1..], key, f);
      assert facts == [facts[0]] + facts[1..];
    }
  }

  lemma {:induction false} WithoutKeepsOnePerKey(facts: seq<Fact>, key: Key)
    requires OnePerKey(facts)
    ensures OnePerKey(Without(facts, key))
  {
    if facts == [] {
    } else {
      WithoutKeepsOnePerKey(facts[1..], key);
      forall f | f in Without(facts[1..], key) ensures f.key != facts[0].key {
        WithoutExactly(facts[1..], key, f);
        var i :| 0 <= i < |facts| - 1 && facts[1..][i] == f;
        assert facts[i + 1] == f;
      }
    }
  }

  /** Storing a fact puts it first and drops what its key held; no other fact goes. */
  lemma UpsertExactly(facts: seq<Fact>, f: Fact, other: Fact)
    requires OnePerKey(facts)
    ensures var out := Upsert(facts, f);
      && out[0] == f && OnePerKey(out)
      && (other in out <==> other == f || (other in facts && other.key != f.key))
  {
    var rest := Without(facts, f.key);
    WithoutKeepsOnePerKey(facts, f.key);
    WithoutExactly(facts, f.key, other);
    forall g | g in rest ensures g.key != f.key { WithoutExactly(facts, f.key, g); }
    assert forall i :: 0 < i < |[f] + rest| ==> ([f] + rest)[i] == rest[i - 1] && rest[i - 1] in rest;
  }

  /** Over every run the memory holds one fact per key, so one watermark. */
  lemma {:induction false} RunKeepsOnePerKey(m: Memory, es: seq<Event>)
    requires OnePerKey(m.facts)
    ensures OnePerKey(Run(m, es).facts)
    decreases |es|
  {
    hide OnePerKey, Upsert;
    if es == [] {
    } else {
      forall facts, f | OnePerKey(facts) ensures OnePerKey(Upsert(facts, f)) { UpsertExactly(facts, f, f); }
      RunKeepsOnePerKey(Step(m, es[0]), es[1..]);
    }
  }

  // --------------------------------------------- how long it stays in sight

  /** The keys more recent than the watermark. */
  function Ahead(facts: seq<Fact>): set<Key> {
    if facts == [] || facts[0].key == Watermark then {} else {facts[0].key} + Ahead(facts[1..])
  }

  predicate HasWatermark(facts: seq<Fact>) { exists i :: 0 <= i < |facts| && facts[i].key == Watermark }

  lemma {:induction false} AheadAreKeys(facts: seq<Fact>, key: Key)
    requires key in Ahead(facts)
    ensures key != Watermark && exists i :: 0 <= i < |facts| && facts[i].key == key
  {
    if facts[0].key != key {
      AheadAreKeys(facts[1..], key);
      var i :| 0 <= i < |facts| - 1 && facts[1..][i].key == key;
      assert facts[i + 1].key == key;
    } else {
      assert facts[0].key == key;
    }
  }

  /** Reading n facts finds the watermark exactly if fewer than n keys are more recent. */
  lemma {:induction false} SightExactly(facts: seq<Fact>, n: nat)
    requires OnePerKey(facts) && HasWatermark(facts)
    ensures LastUntil(facts[..Min(n, |facts|)]) == if |Ahead(facts)| < n then LastUntil(facts) else None
  {
    var read := facts[..Min(n, |facts|)];
    if n > 0 && facts[0].key != Watermark {
      var rest := facts[1..];
      var i :| 0 <= i < |facts| && facts[i].key == Watermark;
      assert rest[i - 1].key == Watermark;
      assert read[1..] == rest[..Min(n - 1, |rest|)];
      if facts[0].key in Ahead(rest) {
        AheadAreKeys(rest, facts[0].key);
        assert false;
      }
      SightExactly(rest, n - 1);
    }
  }

  lemma {:induction false} AheadWithout(facts: seq<Fact>, key: Key)
    requires key != Watermark
    ensures Ahead(Without(facts, key)) == Ahead(facts) - {key}
    ensures HasWatermark(facts) ==> HasWatermark(Without(facts, key))
  {
    if facts == [] {
    } else {
      var rest := Without(facts[1..], key);
      AheadWithout(facts[1..], key);
      assert [] + rest == rest;
      assert facts[0].key != key ==> Without(facts, key)[1..] == rest;
      if HasWatermark(facts) && facts[0].key != Watermark {
        var i :| 0 <= i < |facts| && facts[i].key == Watermark;
        assert facts[1..][i - 1].key == Watermark;
        var j :| 0 <= j < |rest| && rest[j].key == Watermark;
        assert Without(facts, key)[if facts[0].key == key then j else j + 1].key == Watermark;
      } else if facts[0].key == Watermark {
        assert Without(facts, key)[0].key == Watermark;
      }
    }
  }

  lemma WriteGetsAhead(facts: seq<Fact>, key: Key)
    requires OnePerKey(facts) && HasWatermark(facts) && key != Watermark
    ensures var out := Upsert(facts, Fact(key, None));
      OnePerKey(out) && HasWatermark(out) && LastUntil(out) == LastUntil(facts) && Ahead(out) == Ahead(facts) + {key}
  {
    hide OnePerKey;
    var f := Fact(key, None);
    UpsertExactly(facts, f, f);
    UpsertWatermark(facts, f);
    AheadWithout(facts, key);
    var i :| 0 <= i < |Without(facts, key)| && Without(facts, key)[i].key == Watermark;
    assert Upsert(facts, f)[i + 1].key == Watermark;
    assert Upsert(facts, f)[1..] == Without(facts, key);
  }

  /** The names of the facts other writers stored. */
  function Written(es: seq<Event>): set<Key> { set e | e in es && e.Write? :: Other(e.n) }

  lemma {:induction false} RunGetsAhead(m: Memory, es: seq<Event>)
    requires OnePerKey(m.facts) && HasWatermark(m.facts) && forall e :: e in es ==> !e.Reflect?
    ensures var facts := Run(m, es).facts;
      && OnePerKey(facts) && HasWatermark(facts)
      && LastUntil(facts) == LastUntil(m.facts) && Ahead(facts) == Ahead(m.facts) + Written(es)
    decreases |es|
  {
    hide OnePerKey, HasWatermark, LastUntil, Ahead, Upsert;
    if es == [] {
    } else {
      assert es == [es[0]] + es[1..];
      assert Written(es) == (if es[0].Write? then {Other(es[0].n)} else {}) + Written(es[1..]);
      if es[0].Write? {
        WriteGetsAhead(m.facts, Other(es[0].n));
      }
      RunGetsAhead(Step(m, es[0]), es[1..]);
    }
  }

  /**
   * How long a watermark stays in sight: after it was written, until 200 facts of different names have
   * been; from then on a pass reads as if there had never been one.
   */
  lemma InSightExactly(m: Memory, es: seq<Event>)
    requires OnePerKey(m.facts) && m.facts != [] && m.facts[0].key == Watermark
    requires forall e :: e in es ==> !e.Reflect?
    ensures LastUntil(Read(Run(m, es).facts)) == if |Written(es)| < 200 then m.facts[0].until else None
  {
    hide OnePerKey;
    assert HasWatermark(m.facts);
    RunGetsAhead(m, es);
    SightExactly(Run(m, es).facts, FACTS_READ);
    assert Ahead(m.facts) + Written(es) == Written(es);
  }

  // ------------------------------------------------ outside those bounds

  /** A row is passed over by the watermark test for good exactly when it is dated and not newer than the watermark. */
  lemma {:induction false} FreshExactly(listed: seq<Row>, until: Option<int>, row: Row)
    ensures row in Fresh(listed, until) <==> row in listed && IsNew(row, until)
  {
    if listed == [] {
    } else {
      FreshExactly(listed[..|listed| - 1], until, row);
      assert listed == listed[..|listed| - 1] + [listed[|listed| - 1]];
    }
  }

  /**
   * A pass that cannot see the watermark consolidates the newest row again, exactly when it reads past
   * the waiting rows.
   */
  lemma HiddenWatermarkRepeats(m: Memory, seen: nat, limit: int, stamp: nat)
    requires Inv(m, seen) && seen > 0 && LastUntil(Read(m.facts)).None? && m.rows[seen - 1] in m.consolidated
    ensures var again := Pass(m, limit, stamp).consolidated[|m.consolidated|..];
      m.rows[seen - 1] in again <==> |m.rows| - seen < limit
  {
    hide NewestFirst, LastUntil, Upsert, NewestStamp;
    var listed := Listed(m.rows, limit);
    if limit > 0 {
      ListedWhenIncreasing(m.rows, limit);
    }
    FreshExactly(listed, None, m.rows[seen - 1]);
    var unseen := Fresh(listed, None);
    assert (m.consolidated + unseen)[|m.consolidated|..] == unseen;
    if |m.rows| - seen < limit {
      assert listed[|m.rows| - seen] == m.rows[seen - 1];
    } else if limit > 0 {
      assert forall i :: 0 <= i < |listed| ==> listed[i] == m.rows[|m.rows| - 1 - i];
    }
  }

  // -------------------------------------------- rows in any order of dates

  predicate Dated(rows: seq<Row>) { forall r :: r in rows ==> r.createdAt.Some? }

  /** From here on rows arrive dated but in any order, none of them `row` again, and every pass sees the watermark. */
  predicate Fits(m: Memory, es: seq<Event>, row: Row)
    decreases |es|
  {
    es == []
    || ((es[0].Arrive? ==> es[0].row.createdAt.Some? && es[0].row != row)
        && (es[0].Reflect? ==> WatermarkInSight(m))
        && Fits(Step(m, es[0]), es[1..], row))
  }

  /** The first pass that reads any rows. */
  function FirstReading(es: seq<Event>): (k: Option<nat>)
    ensures k.Some? ==> k.value < |es| && Reads(es[k.value])
  {
    if es == [] then None
    else if Reads(es[0]) then Some(0)
    else match FirstReading(es[1..])
      case None => None
      case Some(k) => Some(k + 1)
  }

  lemma {:induction false} PlaceKeeps(row: Row, sorted: seq<Row>)
    ensures forall r :: r in Place(row, sorted) <==> r == row || r in sorted
  {
    if sorted == [] {
    } else {
      PlaceKeeps(row, sorted[1..]);
      assert sorted == [sorted[0]] + sorted[1..];
    }
  }

  lemma {:induction false} NewestFirstKeeps(rows: seq<Row>)
    ensures forall r :: r in NewestFirst(rows) <==> r in rows
    ensures Dated(rows) && rows != [] ==>
              NewestFirst(rows) != [] && forall r :: r in rows ==>
                  r.createdAt.value <= NewestFirst(rows)[0].createdAt.value
  {
    if rows == [] {
    } else {
      var init, last := rows[..|rows| - 1], rows[|rows| - 1];
      NewestFirstKeeps(init);
      PlaceKeeps(last, NewestFirst(init));
      assert rows == init + [last];
    }
  }

  lemma {:induction false} StampIsNewest(rows: seq<Row>, row: Row)
    requires row in rows && row.createdAt.Some?
    ensures NewestStamp(rows).Some? && NewestStamp(rows).value >= row.createdAt.value
  {
    if row == rows[|rows| - 1] {
    } else {
      assert rows == rows[..|rows| - 1] + [rows[|rows| - 1]];
      StampIsNewest(rows[..|rows| - 1], row);
    }
  }

  lemma PassInGeneral(m: Memory, limit: int, stamp: nat)
    requires WatermarkInSight(m) && Dated(m.rows)
    ensures var unseen := Fresh(Listed(m.rows, limit), LastUntil(m.facts));
      var after := Pass(m, limit, stamp);
      && after.rows == m.rows && after.consolidated == m.consolidated + unseen
      && LastUntil(after.facts) == if unseen == [] then LastUntil(m.facts) else NewestStamp(unseen)
  {
    var unseen := Fresh(Listed(m.rows, limit), LastUntil(m.facts));
    if unseen == [] {
    } else {
      var row := unseen[0];
      FreshExactly(Listed(m.rows, limit), LastUntil(m.facts), row);
      NewestFirstKeeps(m.rows);
      StampIsNewest(unseen, row);
      UpsertWatermark(m.facts, Fact(Other(stamp), None));
      UpsertWatermark(Upsert(m.facts, Fact(Other(stamp), None)), Fact(Watermark, NewestStamp(unseen)));
    }
  }

  /** A reading pass takes a stored row exactly if it lists it and it is new, and leaves it old either way. */
  lemma ReadingPassSettles(m: Memory, limit: int, stamp: nat, row: Row)
    requires WatermarkInSight(m) && Dated(m.rows) && row in m.rows && row !in m.consolidated && limit > 0
    ensures var after := Pass(m, limit, stamp);
      && (row in after.consolidated <==> IsNew(row, LastUntil(m.facts)) && row in Listed(m.rows, limit))
      && !IsNew(row, LastUntil(after.facts))
  {
    hide Fresh, NewestFirst, LastUntil;
    var until, listed := LastUntil(m.facts), Listed(m.rows, limit);
    PassInGeneral(m, limit, stamp);
    FreshExactly(listed, until, row);
    NewestFirstKeeps(m.rows);
    var newest := NewestFirst(m.rows)[0];
    assert newest == listed[0];
    FreshExactly(listed, until, newest);
    if IsNew(newest, until) {
      StampIsNewest(Fresh(listed, until), newest);
    } else if Fresh(listed, until) != [] {
      var some := Fresh(listed, until)[0];
      FreshExactly(listed, until, some);
      StampIsNewest(Fresh(listed, until), some);
    }
  }

  /** An old row stays old, and is neither taken nor given back. */
  lemma OldStaysOld(m: Memory, e: Event, row: Row)
    requires Dated(m.rows) && row.createdAt.Some? && !IsNew(row, LastUntil(m.facts)) && Fits(m, [e], row)
    ensures var after := Step(m, e);
      && Dated(after.rows) && !IsNew(row, LastUntil(after.facts))
      && (row in after.consolidated <==> row in m.consolidated)
  {
    hide Fresh, LastUntil, Listed;
    match e {
      case Arrive(_) =>
      case Write(n) => UpsertWatermark(m.facts, Fact(Other(n), None));
      case Reflect(limit, stamp) =>
        PassInGeneral(m, limit, stamp);
        var unseen := Fresh(Listed(m.rows, limit), LastUntil(m.facts));
        FreshExactly(Listed(m.rows, limit), LastUntil(m.facts), row);
        if unseen != [] {
          FreshExactly(Listed(m.rows, limit), LastUntil(m.facts), unseen[0]);
          ListedAreStored(m.rows, limit, unseen[0]);
          StampIsNewest(unseen, unseen[0]);
        }
    }
  }

  lemma ListedAreStored(rows: seq<Row>, limit: int, row: Row)
    requires row in Listed(rows, limit)
    ensures row in rows
  {
    NewestFirstKeeps(rows);
  }

  lemma {:induction false} OldForever(m: Memory, es: seq<Event>, row: Row)
    requires Dated(m.rows) && row.createdAt.Some? && !IsNew(row, LastUntil(m.facts)) && Fits(m, es, row)
    ensures row in Run(m, es).consolidated <==> row in m.consolidated
    decreases |es|
  {
    if es == [] {
    } else {
      OldStaysOld(m, es[0], row);
      OldForever(Step(m, es[0]), es[1..], row);
    }
  }

  lemma {:induction false} WaitingRow(m: Memory, es: seq<Event>, row: Row)
    requires Dated(m.rows) && row in m.rows && row !in m.consolidated && Fits(m, es, row)
    ensures row in Run(m, es).consolidated
       <==> && IsNew(row, LastUntil(m.facts)) && FirstReading(es).Some?
            && var k := FirstReading(es).value;
               row in Listed(Run(m, es[..k]).rows, es[k].limit)
    decreases |es|
  {
    if es == [] {
    } else {
      hide Fresh, LastUntil, Listed, IsNew, Upsert;
      var e, after := es[0], Step(m, es[0]);
      if Reads(e) {
        ReadingPassSettles(m, e.limit, e.stamp, row);
        PassInGeneral(m, e.limit, e.stamp);
        OldForever(after, es[1..], row);
        assert es[..0] == [];
      } else {
        QuietStep(m, e);
        WaitingRow(after, es[1..], row);
        if FirstReading(es).Some? {
          var k := FirstReading(es).value;
          assert es[..k][1..] == es[1..][..k - 1];
        }
      }
    }
  }

  lemma QuietStep(m: Memory, e: Event)
    requires !Reads(e)
    ensures var after := Step(m, e);
      && LastUntil(after.facts) == LastUntil(m.facts) && after.consolidated == m.consolidated
      && after.rows == if e.Arrive? then m.rows + [e.row] else m.rows
  {
    if e.Write? {
      UpsertWatermark(m.facts, Fact(Other(e.n), None));
    }
  }

  /**
   * Whatever the order of dates: a row is ever consolidated if and only if it is newer than the
   * watermark when it becomes visible and the first pass after that which reads anything lists it.
   * A row that ties with the watermark or is committed late is passed over for good.
   */
  lemma RowTakenExactly(m: Memory, row: Row, es: seq<Event>)
    requires Dated(m.rows) && row.createdAt.Some? && row !in m.consolidated && Fits(m.(rows := m.rows + [row]), es, row)
    ensures var arrived := Step(m, Arrive(row));
      row in Run(arrived, es).consolidated
      <==> && IsNew(row, LastUntil(m.facts)) && FirstReading(es).Some?
           && var k := FirstReading(es).value;
              row in Listed(Run(arrived, es[..k]).rows, es[k].limit)
  {
    WaitingRow(Step(m, Arrive(row)), es, row);
  }
}
