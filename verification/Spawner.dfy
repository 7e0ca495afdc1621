/** Sub-agent delegation (delegation/spawner.py): the chain checks of one hop and of nested hops. */
module DelegationChain {
  import opened Prelude

  /** The acting role and the roles that delegated down to it, root first. */
  datatype Identity = Identity(role: string, chain: seq<string>)

  function DelegateTo(id: Identity, sub: string): Identity { Identity(sub, id.chain + [id.role]) }

  datatype RoleSection = RoleSection(allowedSubRoles: seq<string>, allowRecursive: bool)

  datatype Setting = Setting(available: set<string>, maxDepth: int, sections: map<string, RoleSection>)

  datatype Denial = NotAllowed | NotAvailable | CycleDenied | TooDeep | GuardrailDenied

  function SectionOf(st: Setting, role: string): RoleSection {
    if role in st.sections then st.sections[role] else RoleSection([], false)
  }

  /** The checks of `delegate`, in source order; `permitted` is the guardrail verdict. */
  function Hop(st: Setting, id: Identity, sub: string, permitted: bool): Result<Identity, Denial> {
    var section := SectionOf(st, id.role);
    var child := DelegateTo(id, sub);
    if sub !in section.allowedSubRoles then Err(NotAllowed)
    else if sub !in st.available then Err(NotAvailable)
    else if (sub == id.role || sub in id.chain) && !section.allowRecursive then Err(CycleDenied)
    else if st.maxDepth != 0 && |child.chain| > st.maxDepth then Err(TooDeep)
    else if !permitted then Err(GuardrailDenied)
    else Ok(child)
  }

  /** Nested delegation: each sub-agent may delegate again. */
  function Descend(st: Setting, root: string, path: seq<(string, bool)>): Result<Identity, Denial> {
    if path == [] then Ok(Identity(root, []))
    else
      var parent :- Descend(st, root, path[..|path| - 1]);
      Hop(st, parent, path[|path| - 1].0, path[|path| - 1].1)
  }

  function Roles(id: Identity): seq<string> { id.chain + [id.role] }

  // ------------------------------------------------------ what a hop needs

  /** The role has a section that lists the sub-role. */
  predicate Lists(st: Setting, role: string, sub: string) {
    role in st.sections && sub in st.sections[role].allowedSubRoles
  }

  /** The role's section opts into recursive delegation. */
  predicate Recursive(st: Setting, role: string) { role in st.sections && st.sections[role].allowRecursive }

  /** The roles met on the way down, root first. */
  function Names(root: string, path: seq<(string, bool)>): (names: seq<string>)
    ensures |names| == |path| + 1 && names[0] == root
    ensures forall i :: 0 <= i < |path| ==> names[i + 1] == path[i].0
  {
    [root] + seq(|path|, i requires 0 <= i < |path| => path[i].0)
  }

  predicate Repeats(names: seq<string>, k: nat)
    requires k < |names|
  {
    exists i :: 0 <= i < k && names[i] == names[k]
  }

  /** What the refusal e of the k-th hop says of it: its own check failed, and the checks before it did not. */
  predicate Refuses(st: Setting, root: string, path: seq<(string, bool)>, k: nat, e: Denial)
    requires k < |path|
  {
    var names := Names(root, path);
    var (role, sub) := (names[k], names[k + 1]);
    match e
    case NotAllowed => !Lists(st, role, sub)
    case NotAvailable => Lists(st, role, sub) && sub !in st.available
    case CycleDenied =>
      Lists(st, role, sub) && sub in st.available && Repeats(names, k + 1) && !Recursive(st, role)
    case TooDeep =>
      && Lists(st, role, sub) && sub in st.available && (Repeats(names, k + 1) ==> Recursive(st, role))
      && st.maxDepth != 0 && k + 1 > st.maxDepth
    case GuardrailDenied =>
      && Lists(st, role, sub) && sub in st.available && (Repeats(names, k + 1) ==> Recursive(st, role))
      && (st.maxDepth != 0 ==> k + 1 <= st.maxDepth) && !path[k].1
  }

  /** The k-th hop goes to a listed, available and permitted role, no deeper than allowed, and not back up. */
  predicate Passes(st: Setting, root: string, path: seq<(string, bool)>, k: nat)
    requires k < |path|
  {
    var names := Names(root, path);
    && Lists(st, names[k], names[k + 1]) && names[k + 1] in st.available && path[k].1
    && (Repeats(names, k + 1) ==> Recursive(st, names[k]))
    && (st.maxDepth != 0 ==> k + 1 <= st.maxDepth)
  }

  lemma PrefixNames(root: string, path: seq<(string, bool)>, n: nat)
    requires n <= |path|
    ensures Names(root, path[..n]) == Names(root, path)[..n + 1]
  {
  }

  lemma HopsOfPrefix(st: Setting, root: string, path: seq<(string, bool)>, n: nat, k: nat)
    requires k < n <= |path|
    ensures Passes(st, root, path[..n], k) <==> Passes(st, root, path, k)
    ensures forall e :: Refuses(st, root, path[..n], k, e) <==> Refuses(st, root, path, k, e)
  {
    PrefixNames(root, path, n);
    assert forall i :: 0 <= i <= n ==> Names(root, path[..n])[i] == Names(root, path)[i];
    assert Repeats(Names(root, path[..n]), k + 1) <==> Repeats(Names(root, path), k + 1);
  }

  lemma LastHop(st: Setting, root: string, path: seq<(string, bool)>, parent: Identity)
    requires path != [] && Roles(parent) == Names(root, path)[..|path|]
    ensures var (k, hop) := (|path| - 1, Hop(st, parent, path[|path| - 1].0, path[|path| - 1].1));
      && (hop.Ok? <==> Passes(st, root, path, k))
      && (hop.Ok? ==> Roles(hop.value) == Names(root, path))
      && forall e :: hop == Err(e) <==> Refuses(st, root, path, k, e)
  {
    var names, sub := Names(root, path), path[|path| - 1].0;
    assert parent.role == Roles(parent)[|path| - 1] == names[|path| - 1];
    assert Repeats(names, |path|) <==> sub == parent.role || sub in parent.chain by {
      assert sub in Roles(parent) <==> sub == parent.role || sub in parent.chain;
      assert sub in Roles(parent) <==> Repeats(names, |path|);
    }
  }

  /**
   * When nested delegation goes through: exactly if every hop goes to a role that the role above
   * lists, that is available and permitted, within the depth ceiling, and repeats no role above it
   * unless the delegating role opts into recursion. The identity then carries the roles of the path.
   */
  lemma {:induction false} DescendsExactly(st: Setting, root: string, path: seq<(string, bool)>)
    ensures Descend(st, root, path).Ok? <==> forall k :: 0 <= k < |path| ==> Passes(st, root, path, k)
    ensures Descend(st, root, path).Ok? ==> Roles(Descend(st, root, path).value) == Names(root, path)
  {
    hide Passes, Refuses, Hop;
    if path == [] {
    } else {
      var n := |path| - 1;
      DescendsExactly(st, root, path[..n]);
      forall k: nat | k < n ensures Passes(st, root, path[..n], k) <==> Passes(st, root, path, k) {
        HopsOfPrefix(st, root, path, n, k);
      }
      PrefixNames(root, path, n);
      if Descend(st, root, path[..n]).Ok? {
        LastHop(st, root, path, Descend(st, root, path[..n]).value);
      }
    }
  }

  /** Which refusal a descent ends in: that of the first hop that does not pass, for the first check it fails. */
  lemma {:induction false} DenialExactly(st: Setting, root: string, path: seq<(string, bool)>, e: Denial)
    ensures Descend(st, root, path) == Err(e)
       <==> exists k: nat :: && k < |path| && Refuses(st, root, path, k, e)
                             && forall j: nat :: j < k ==> Passes(st, root, path, j)
  {
    hide Passes, Refuses, Hop;
    if path == [] {
    } else {
      var n := |path| - 1;
      DenialExactly(st, root, path[..n], e);
      DescendsExactly(st, root, path[..n]);
      forall k: nat | k < n
        ensures Passes(st, root, path[..n], k) <==> Passes(st, root, path, k)
        ensures Refuses(st, root, path[..n], k, e) <==> Refuses(st, root, path, k, e)
      {
        HopsOfPrefix(st, root, path, n, k);
      }
      PrefixNames(root, path, n);
      if Descend(st, root, path[..n]).Ok? {
        LastHop(st, root, path, Descend(st, root, path[..n]).value);
      }
    }
  }

  ghost predicate NoneRecursive(st: Setting, id: Identity) { forall r :: r in id.chain ==> !Recursive(st, r) }

  lemma DescentShape(st: Setting, root: string, path: seq<(string, bool)>)
    requires Descend(st, root, path).Ok?
    ensures var id := Descend(st, root, path).value;
      && |id.chain| == |path|
      && Roles(id)[0] == root
      && (forall i :: 1 <= i <= |path| ==> Roles(id)[i] == path[i - 1].0 && Roles(id)[i] in st.available)
      && (st.maxDepth != 0 && path != [] ==> |id.chain| <= st.maxDepth)
      && (NoneRecursive(st, id) ==> Distinct(Roles(id)))
  {
    DescendsExactly(st, root, path);
    var id := Descend(st, root, path).value;
    assert |Roles(id)| == |id.chain| + 1;
    assert path != [] ==> Passes(st, root, path, |path| - 1);
    forall i | 1 <= i <= |path| ensures Roles(id)[i] == path[i - 1].0 && Roles(id)[i] in st.available {
      assert Passes(st, root, path, i - 1);
    }
    if NoneRecursive(st, id) {
      forall i, j | 0 <= i < j < |Roles(id)| ensures Roles(id)[i] != Roles(id)[j] {
        assert Passes(st, root, path, j - 1);
        assert Roles(id)[j - 1] == id.chain[j - 1];
      }
    }
  }

  /**
   * Nested delegation is bounded. The chain depth never exceeds a nonzero ceiling, and when no
   * delegating role opts into recursion the roles are pairwise distinct, so the depth is at most
   * the number of available roles other than the root.
   */
  lemma NestedDelegationIsBounded(st: Setting, root: string, path: seq<(string, bool)>)
    requires Descend(st, root, path).Ok?
    ensures var id := Descend(st, root, path).value;
      && (st.maxDepth != 0 && path != [] ==> |id.chain| <= st.maxDepth)
      && (NoneRecursive(st, id) ==> Distinct(Roles(id)) && |id.chain| <= |st.available - {root}|)
  {
    DescentShape(st, root, path);
    var id := Descend(st, root, path).value;
    if NoneRecursive(st, id) {
      var below := Roles(id)[1..];
      forall x | x in below ensures x in st.available - {root} {
        var i :| 0 <= i < |below| && below[i] == x;
        assert below[i] == Roles(id)[i + 1];
        assert Roles(id)[0] != Roles(id)[i + 1];
      }
      Pigeonhole(below, st.available - {root});
    }
  }
}

/** The spawner's registry of delegation records. */
module SpawnerState {
  import opened Prelude

  datatype Status = Live | Succeeded | Failed | Cancelled

  datatype Record = Record(id: nat, subRole: string, startedAt: int, status: Status, finishedAt: Option<int>)

  const MAX_FINISHED_RECORDS: nat := 256

  function FinishedCount(rs: seq<Record>): nat {
    if rs == [] then 0 else (if rs[0].status.Live? then 0 else 1) + FinishedCount(rs[1..])
  }

  predicate IsOldestFinished(rs: seq<Record>, k: nat) {
    && k < |rs| && !rs[k].status.Live?
    && (forall j :: 0 <= j < k && !rs[j].status.Live? ==> rs[k].startedAt < rs[j].startedAt)
    && (forall j :: k < j < |rs| && !rs[j].status.Live? ==> rs[k].startedAt <= rs[j].startedAt)
  }

  /** The front of the finished records in the stable order of their start. */
  function Oldest(rs: seq<Record>): (k: nat)
    requires FinishedCount(rs) > 0
    ensures IsOldestFinished(rs, k)
  {
    if rs[0].status.Live? then
      var k := Oldest(rs[1..]);
      assert forall j :: 1 <= j < |rs| ==> rs[j] == rs[1..][j - 1];
      k + 1
    else if FinishedCount(rs[1..]) == 0 then
      NoneFinished(rs[1..]);
      assert forall j :: 1 <= j < |rs| ==> rs[j] == rs[1..][j - 1];
      0
    else
      var k := Oldest(rs[1..]);
      assert forall j :: 1 <= j < |rs| ==> rs[j] == rs[1..][j - 1];
      if rs[0].startedAt <= rs[k + 1].startedAt then 0 else k + 1
  }

  lemma {:induction false} NoneFinished(rs: seq<Record>)
    ensures FinishedCount(rs) == 0 <==> forall j :: 0 <= j < |rs| ==> rs[j].status.Live?
  {
    if rs == [] {
    } else {
      NoneFinished(rs[1..]);
      assert forall j :: 1 <= j < |rs| ==> rs[j] == rs[1..][j - 1];
    }
  }

  function Without(rs: seq<Record>, k: nat): (out: seq<Record>)
    requires k < |rs|
    ensures |out| == |rs| - 1
    ensures forall j :: 0 <= j < k ==> out[j] == rs[j]
    ensures forall j :: k <= j < |out| ==> out[j] == rs[j + 1]
  {
    rs[..k] + rs[k + 1..]
  }

  /** Evicts the oldest finished record as long as there are too many. */
  function Trimmed(rs: seq<Record>): seq<Record>
    decreases |rs|
  {
    if FinishedCount(rs) <= MAX_FINISHED_RECORDS then rs else Trimmed(Without(rs, Oldest(rs)))
  }

  function LiveOnes(rs: seq<Record>): seq<Record> {
    if rs == [] then [] else (if rs[0].status.Live? then [rs[0]] else []) + LiveOnes(rs[1..])
  }

  lemma {:induction false} LiveAndFinished(rs: seq<Record>)
    ensures |rs| == |LiveOnes(rs)| + FinishedCount(rs)
  {
    if rs == [] {
    } else {
      LiveAndFinished(rs[1..]);
    }
  }

  lemma {:induction false} WithoutFinished(rs: seq<Record>, k: nat)
    requires k < |rs| && !rs[k].status.Live?
    ensures FinishedCount(Without(rs, k)) == FinishedCount(rs) - 1
    ensures LiveOnes(Without(rs, k)) == LiveOnes(rs)
  {
    if k == 0 {
      assert Without(rs, 0) == rs[1..];
    } else {
      WithoutFinished(rs[1..], k - 1);
      assert Without(rs, k)[1..] == Without(rs[1..], k - 1);
    }
  }

  /** Trimming keeps every live record in order, leaves at most the cap, and evicts no more than the overflow. */
  lemma {:induction false} TrimIsExact(rs: seq<Record>)
    ensures LiveOnes(Trimmed(rs)) == LiveOnes(rs)
    ensures FinishedCount(Trimmed(rs)) == Min(FinishedCount(rs), MAX_FINISHED_RECORDS)
    ensures forall r :: r in Trimmed(rs) ==> r in rs
    decreases |rs|
  {
    if FinishedCount(rs) <= MAX_FINISHED_RECORDS {
    } else {
      WithoutFinished(rs, Oldest(rs));
      TrimIsExact(Without(rs, Oldest(rs)));
    }
  }

  /** Only the oldest go: whatever was evicted was finished and started no later than any finished record that stays. */
  lemma {:induction false} TrimEvictsOldest(rs: seq<Record>, gone: Record, kept: Record)
    requires gone in rs && gone !in Trimmed(rs) && kept in Trimmed(rs) && !kept.status.Live?
    ensures !gone.status.Live? && gone.startedAt <= kept.startedAt
    decreases |rs|
  {
    var k := Oldest(rs);
    TrimIsExact(Without(rs, k));
    var j :| 0 <= j < |rs| && rs[j] == kept;
    if gone == rs[k] {
    } else {
      StaysWithout(rs, k, gone);
      TrimEvictsOldest(Without(rs, k), gone, kept);
    }
  }

  lemma StaysWithout(rs: seq<Record>, k: nat, r: Record)
    requires k < |rs| && r in rs && r != rs[k]
    ensures r in Without(rs, k)
  {
    var i :| 0 <= i < |rs| && rs[i] == r;
    assert Without(rs, k)[if i < k then i else i - 1] == r;
  }

  lemma {:induction false} TrimKeepsLive(rs: seq<Record>, r: Record)
    requires r in rs && r.status.Live?
    ensures r in Trimmed(rs)
    decreases |rs|
  {
    if FinishedCount(rs) <= MAX_FINISHED_RECORDS {
    } else {
      StaysWithout(rs, Oldest(rs), r);
      TrimKeepsLive(Without(rs, Oldest(rs)), r);
    }
  }

  // -------------------------------------------------- marking and stamping

  predicate DistinctIds(rs: seq<Record>) { forall i, j :: 0 <= i < j < |rs| ==> rs[i].id != rs[j].id }

  lemma {:induction false} TrimKeepsDistinct(rs: seq<Record>)
    requires DistinctIds(rs)
    ensures DistinctIds(Trimmed(rs))
    decreases |rs|
  {
    if FinishedCount(rs) <= MAX_FINISHED_RECORDS {
    } else {
      TrimKeepsDistinct(Without(rs, Oldest(rs)));
    }
  }

  /** `record.status = ...`; the record may have left the registry meanwhile. */
  function Marked(rs: seq<Record>, id: nat, status: Status): (out: seq<Record>)
    ensures |out| == |rs|
    ensures forall j :: 0 <= j < |rs| ==> out[j] == if rs[j].id == id then rs[j].(status := status) else rs[j]
  {
    if rs == [] then []
    else [if rs[0].id == id then rs[0].(status := status) else rs[0]] + Marked(rs[1..], id, status)
  }

  /** `record.finished_at = now`. */
  function Stamped(rs: seq<Record>, id: nat, now: int): (out: seq<Record>)
    ensures |out| == |rs|
    ensures forall j :: 0 <= j < |rs| ==> out[j] == if rs[j].id == id then rs[j].(finishedAt := Some(now)) else rs[j]
  {
    if rs == [] then []
    else [if rs[0].id == id then rs[0].(finishedAt := Some(now)) else rs[0]] + Stamped(rs[1..], id, now)
  }

  lemma {:induction false} SameStatusSameCount(a: seq<Record>, b: seq<Record>)
    requires |a| == |b| && forall j :: 0 <= j < |a| ==> a[j].status.Live? == b[j].status.Live?
    ensures FinishedCount(a) == FinishedCount(b)
  {
    if a == [] {
    } else {
      SameStatusSameCount(a[1..], b[1..]);
    }
  }

  /** Marking the live record of an id finished changes one record. */
  lemma {:induction false} MarkedCount(rs: seq<Record>, k: nat, status: Status)
    requires DistinctIds(rs) && k < |rs| && rs[k].status.Live? && !status.Live?
    ensures FinishedCount(Marked(rs, rs[k].id, status)) == FinishedCount(rs) + 1
  {
    var id := rs[k].id;
    assert Marked(rs, id, status)[1..] == Marked(rs[1..], id, status);
    if k == 0 {
      assert forall j :: 0 <= j < |rs[1..]| ==> rs[1..][j].id != id;
      SameStatusSameCount(Marked(rs[1..], id, status), rs[1..]);
    } else {
      assert rs[0].id != id;
      MarkedCount(rs[1..], k - 1, status);
    }
  }
}
