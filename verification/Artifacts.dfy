/** Folding stream events into a task (a2a/task_handler.py). */
module TaskArtifacts {
  import opened Prelude

  datatype Artifact = Artifact(id: string, parts: seq<string>)

  datatype Event = Status(state: string) | Update(artifact: Artifact, append: bool)

  /** Position of the first artifact with this id, or the length. */
  function Find(artifacts: seq<Artifact>, id: string): (k: nat)
    ensures k <= |artifacts|
    ensures k < |artifacts| ==> artifacts[k].id == id
    ensures forall i :: 0 <= i < k ==> artifacts[i].id != id
  {
    if artifacts == [] || artifacts[0].id == id then 0 else 1 + Find(artifacts[1..], id)
  }

  function Apply(artifacts: seq<Artifact>, e: Event): seq<Artifact> {
    if e.Status? then artifacts
    else
      var k := Find(artifacts, e.artifact.id);
      if k == |artifacts| then artifacts + [e.artifact]
      else if !e.append then Removed(artifacts, k) + [e.artifact]
      else artifacts[k := artifacts[k].(parts := artifacts[k].parts + e.artifact.parts)]
  }

  function ApplyAll(events: seq<Event>): seq<Artifact> {
    if events == [] then [] else Apply(ApplyAll(events[..|events| - 1]), events[|events| - 1])
  }

  function LastStatus(initial: string, events: seq<Event>): string {
    if events == [] then initial
    else
      var e := events[|events| - 1];
      if e.Status? then e.state else LastStatus(initial, events[..|events| - 1])
  }

  /** The task is in the last state the stream told, or as it was if the stream told none. */
  lemma {:induction false} StatusIsLastTold(initial: string, events: seq<Event>, k: nat)
    ensures (forall i :: 0 <= i < |events| ==> !events[i].Status?) ==> LastStatus(initial, events) == initial
    ensures k < |events| && events[k].Status? && (forall i :: k < i < |events| ==> !events[i].Status?) ==>
        LastStatus(initial, events) == events[k].state
  {
    if events == [] {
    } else if events[|events| - 1].Status? {
      assert k < |events| - 1 ==> events[|events| - 1].Status?;
    } else {
      StatusIsLastTold(initial, events[..|events| - 1], k);
    }
  }

  class Task {
    var status: string
    var artifacts: seq<Artifact>

    method ApplyEvent(e: Event)
      modifies this
      ensures artifacts == Apply(old(artifacts), e)
      ensures status == if e.Status? then e.state else old(status)
    {
      if e.Status? {
        status := e.state;
        return;
      }
      var k := 0;
      while k < |artifacts| && artifacts[k].id != e.artifact.id
        invariant k <= |artifacts|
        invariant forall i :: 0 <= i < k ==> artifacts[i].id != e.artifact.id
      {
        k := k + 1;
      }
      assert k == Find(artifacts, e.artifact.id);
      if k == |artifacts| || !e.append {
        if k < |artifacts| {
          artifacts := artifacts[..k] + artifacts[k + 1..];
        }
        artifacts := artifacts + [e.artifact];
      } else {
        artifacts := artifacts[k := artifacts[k].(parts := artifacts[k].parts + e.artifact.parts)];
      }
    }

    method ApplyStream(events: seq<Event>)
      requires artifacts == []
      modifies this
      ensures artifacts == ApplyAll(events) && status == LastStatus(old(status), events)
    {
      for i := 0 to |events|
        invariant artifacts == ApplyAll(events[..i]) && status == LastStatus(old(status), events[..i])
      {
        assert events[..i + 1][..i] == events[..i];
        ApplyEvent(events[i]);
      }
      assert events[..|events|] == events;
    }
  }

  // -------------------------------------- what a reader of the stream expects

  predicate Names(e: Event, id: string) { e.Update? && e.artifact.id == id }

  /** Event k starts the artifact over: it replaces, or it is the first one to name it. */
  predicate Starts(events: seq<Event>, id: string, k: nat) {
    k < |events| && Names(events[k], id) && (!events[k].append || forall i :: 0 <= i < k ==> !Names(events[i], id))
  }

  /** Event k is the last one that starts the artifact over. */
  predicate LastStart(events: seq<Event>, id: string, k: nat) {
    Starts(events, id, k) && forall i :: k < i < |events| ==> !Starts(events, id, i)
  }

  /** All parts sent for the artifact from event k on. */
  function PartsSince(events: seq<Event>, id: string, k: nat): seq<string> {
    if |events| <= k then []
    else
      var e := events[|events| - 1];
      PartsSince(events[..|events| - 1], id, k) + if Names(e, id) then e.artifact.parts else []
  }

  /** The last event that starts the artifact over, or -1. */
  function Start(events: seq<Event>, id: string): (k: int)
    ensures -1 <= k < |events|
  {
    if events == [] then -1
    else
      var e, before := events[|events| - 1], Start(events[..|events| - 1], id);
      if Names(e, id) && (!e.append || before == -1) then |events| - 1 else before
  }

  lemma {:induction false} StartIsLastStart(events: seq<Event>, id: string)
    ensures Start(events, id) == -1 <==> forall i :: 0 <= i < |events| ==> !Names(events[i], id)
    ensures Start(events, id) >= 0 ==> LastStart(events, id, Start(events, id))
  {
    if events == [] {
    } else {
      var init := events[..|events| - 1];
      StartIsLastStart(init, id);
      assert forall i :: 0 <= i < |init| ==> init[i] == events[i];
      assert forall k: nat :: k < |init| ==> (Starts(init, id, k) <==> Starts(events, id, k));
      if Start(init, id) >= 0 {
        assert Names(events[Start(init, id)], id);
      }
    }
  }

  lemma LastStartIsUnique(events: seq<Event>, id: string, k: nat)
    requires LastStart(events, id, k)
    ensures Start(events, id) == k
  {
    StartIsLastStart(events, id);
  }

  /** Artifacts stand in the order they were last started, and each holds exactly the parts sent since then. */
  ghost predicate Faithful(artifacts: seq<Artifact>, events: seq<Event>) {
    && (forall i :: 0 <= i < |artifacts| ==> Current(artifacts[i], events))
    && (forall i, j :: 0 <= i < j < |artifacts| ==> Start(events, artifacts[i].id) < Start(events, artifacts[j].id))
    && (forall id :: Start(events, id) >= 0 ==> Find(artifacts, id) < |artifacts|)
  }

  predicate Current(a: Artifact, events: seq<Event>) {
    Start(events, a.id) >= 0 && a.parts == PartsSince(events, a.id, Start(events, a.id))
  }

  lemma OneMore(init: seq<Event>, e: Event, id: string)
    ensures var events := init + [e];
      Start(events, id) == (if Names(e, id) && (!e.append || Start(init, id) == -1) then |init| else Start(init, id))
    ensures forall k: nat :: k <= |init| ==>
              PartsSince(init + [e], id, k) == PartsSince(init, id, k) + if Names(e, id) then e.artifact.parts else []
    ensures PartsSince(init, id, |init|) == []
  {
    assert (init + [e])[..|init|] == init;
  }

  lemma OthersStay(a: Artifact, init: seq<Event>, e: Event)
    requires Current(a, init) && !Names(e, a.id)
    ensures Current(a, init + [e]) && Start(init + [e], a.id) == Start(init, a.id)
  {
    OneMore(init, e, a.id);
  }

  lemma FindsIt(artifacts: seq<Artifact>, id: string, k: nat)
    requires k < |artifacts| && artifacts[k].id == id
    ensures Find(artifacts, id) < |artifacts|
  {
  }

  lemma StatusIsFaithful(artifacts: seq<Artifact>, init: seq<Event>, e: Event)
    requires Faithful(artifacts, init) && e.Status?
    ensures Faithful(artifacts, init + [e])
  {
    hide PartsSince, Start;
    forall i | 0 <= i < |artifacts|
      ensures Current(artifacts[i], init + [e]) && Start(init + [e], artifacts[i].id) == Start(init, artifacts[i].id)
    {
      OthersStay(artifacts[i], init, e);
    }
    forall id ensures Start(init + [e], id) == Start(init, id) { OneMore(init, e, id); }
  }

  /** The event starts its artifact over; `others` are the artifacts it leaves alone, in their order. */
  lemma RestartIsFaithful(artifacts: seq<Artifact>, others: seq<Artifact>, init: seq<Event>, e: Event)
    requires Faithful(artifacts, init) && e.Update? && (!e.append || Start(init, e.artifact.id) == -1)
    requires forall i :: 0 <= i < |others| ==> Current(others[i], init) && others[i].id != e.artifact.id
    requires forall i, j :: 0 <= i < j < |others| ==> Start(init, others[i].id) < Start(init, others[j].id)
    requires forall a :: a in artifacts && a.id != e.artifact.id ==> a in others
    ensures Faithful(others + [e.artifact], init + [e])
  {
    hide PartsSince, Start, Find, Current;
    var after, events := others + [e.artifact], init + [e];
    RestartedIsCurrent(init, e);
    forall i | 0 <= i < |others|
      ensures Current(after[i], events) && Start(events, after[i].id) == Start(init, others[i].id) < |init|
    {
      OthersStay(others[i], init, e);
    }
    forall id | Start(events, id) >= 0 ensures Find(after, id) < |after| {
      StillFound(artifacts, others, init, e, id);
    }
  }

  lemma RestartedIsCurrent(init: seq<Event>, e: Event)
    requires e.Update? && (!e.append || Start(init, e.artifact.id) == -1)
    ensures Current(e.artifact, init + [e]) && Start(init + [e], e.artifact.id) == |init|
  {
    hide PartsSince, Start;
    OneMore(init, e, e.artifact.id);
  }

  lemma StillFound(artifacts: seq<Artifact>, others: seq<Artifact>, init: seq<Event>, e: Event, id: string)
    requires Faithful(artifacts, init) && e.Update? && Start(init + [e], id) >= 0
    requires forall a :: a in artifacts && a.id != e.artifact.id ==> a in others
    ensures Find(others + [e.artifact], id) < |others| + 1
  {
    hide PartsSince, Start, Current;
    OneMore(init, e, id);
    if id == e.artifact.id {
      FindsIt(others + [e.artifact], id, |others|);
    } else {
      var a := artifacts[Find(artifacts, id)];
      var k :| 0 <= k < |others| && others[k] == a;
      FindsIt(others + [e.artifact], id, k);
    }
  }

  lemma ExtendIsFaithful(artifacts: seq<Artifact>, init: seq<Event>, e: Event, k: nat)
    requires Faithful(artifacts, init) && e.Update? && e.append
    requires k < |artifacts| && artifacts[k].id == e.artifact.id
    ensures Faithful(artifacts[k := artifacts[k].(parts := artifacts[k].parts + e.artifact.parts)], init + [e])
  {
    hide PartsSince, Start;
    var after, events := artifacts[k := artifacts[k].(parts := artifacts[k].parts + e.artifact.parts)], init + [e];
    OneMore(init, e, e.artifact.id);
    forall i | 0 <= i < |after|
      ensures Current(after[i], events) && Start(events, after[i].id) == Start(init, artifacts[i].id)
      ensures after[i].id == artifacts[i].id
    {
      if i != k {
        assert artifacts[i].id != e.artifact.id by { OrderTells(artifacts, init, i, k); }
        OthersStay(artifacts[i], init, e);
      }
    }
    forall id | Start(events, id) >= 0 ensures Find(after, id) < |after| {
      OneMore(init, e, id);
      FindsIt(after, id, Find(artifacts, id));
    }
  }

  lemma OrderTells(artifacts: seq<Artifact>, events: seq<Event>, i: nat, k: nat)
    requires Faithful(artifacts, events) && i < |artifacts| && k < |artifacts| && i != k
    ensures artifacts[i].id != artifacts[k].id
  {
    hide Start;
  }

  function Removed(artifacts: seq<Artifact>, k: nat): (others: seq<Artifact>)
    requires k < |artifacts|
    ensures |others| == |artifacts| - 1
    ensures forall i :: 0 <= i < k ==> others[i] == artifacts[i]
    ensures forall i :: k <= i < |others| ==> others[i] == artifacts[i + 1]
  {
    artifacts[..k] + artifacts[k + 1..]
  }

  lemma RestAfterRemoval(artifacts: seq<Artifact>, init: seq<Event>, k: nat)
    requires Faithful(artifacts, init) && k < |artifacts|
    ensures var others := Removed(artifacts, k);
      && (forall i :: 0 <= i < |others| ==> Current(others[i], init) && others[i].id != artifacts[k].id)
      && (forall i, j :: 0 <= i < j < |others| ==> Start(init, others[i].id) < Start(init, others[j].id))
  {
    hide PartsSince, Start, Current, Find;
    var others := Removed(artifacts, k);
    forall i | 0 <= i < |others| ensures Current(others[i], init) && others[i].id != artifacts[k].id {
      OrderTells(artifacts, init, if i < k then i else i + 1, k);
    }
  }

  lemma ReplaceIsFaithful(artifacts: seq<Artifact>, init: seq<Event>, e: Event, k: nat)
    requires Faithful(artifacts, init) && e.Update? && !e.append
    requires k < |artifacts| && artifacts[k].id == e.artifact.id
    ensures Faithful(Removed(artifacts, k) + [e.artifact], init + [e])
  {
    hide PartsSince, Start, Current, Find, Faithful;
    var others := Removed(artifacts, k);
    RestAfterRemoval(artifacts, init, k);
    forall i | 0 <= i < |artifacts| && artifacts[i].id != e.artifact.id ensures artifacts[i] in others {
      assert artifacts[i] == others[if i < k then i else i - 1];
    }
    RestartIsFaithful(artifacts, others, init, e);
  }

  lemma ApplyIsFaithful(artifacts: seq<Artifact>, init: seq<Event>, e: Event)
    requires Faithful(artifacts, init)
    ensures Faithful(Apply(artifacts, e), init + [e])
  {
    hide PartsSince, Start, Current;
    if e.Status? {
      StatusIsFaithful(artifacts, init, e);
    } else {
      var k := Find(artifacts, e.artifact.id);
      if k == |artifacts| {
        assert Start(init, e.artifact.id) == -1;
        RestartIsFaithful(artifacts, artifacts, init, e);
      } else if e.append {
        ExtendIsFaithful(artifacts, init, e, k);
      } else {
        ReplaceIsFaithful(artifacts, init, e, k);
      }
    }
  }

  lemma {:induction false} FoldIsFaithful(events: seq<Event>)
    ensures Faithful(ApplyAll(events), events)
  {
    if events == [] {
    } else {
      var init, e := events[..|events| - 1], events[|events| - 1];
      FoldIsFaithful(init);
      ApplyIsFaithful(ApplyAll(init), init, e);
      assert init + [e] == events;
    }
  }

  predicate Holds(artifacts: seq<Artifact>, id: string) { exists i :: 0 <= i < |artifacts| && artifacts[i].id == id }

  predicate Named(events: seq<Event>, id: string) { exists k :: 0 <= k < |events| && Names(events[k], id) }

  ghost predicate StartedBefore(events: seq<Event>, x: string, y: string) {
    forall k: nat, n: nat :: LastStart(events, x, k) && LastStart(events, y, n) ==> k < n
  }

  /**
   * For every event stream: the task holds one artifact for every id that was ever named, ids stay
   * distinct, each artifact's parts are those sent since it was last started over, and artifacts
   * stand in the order of those starts.
   */
  lemma TaskTellsTheStream(events: seq<Event>)
    ensures var artifacts := ApplyAll(events);
      && (forall i, j :: 0 <= i < j < |artifacts| ==>
            artifacts[i].id != artifacts[j].id && StartedBefore(events, artifacts[i].id, artifacts[j].id))
      && (forall id :: Holds(artifacts, id) <==> Named(events, id))
      && (forall i, k: nat :: 0 <= i < |artifacts| && LastStart(events, artifacts[i].id, k) ==>
            artifacts[i].parts == PartsSince(events, artifacts[i].id, k))
  {
    hide PartsSince, Start, LastStart;
    var artifacts := ApplyAll(events);
    FoldIsFaithful(events);
    forall i, j | 0 <= i < j < |artifacts| ensures artifacts[i].id != artifacts[j].id {
      OrderTells(artifacts, events, i, j);
    }
    forall id, k: nat | LastStart(events, id, k) ensures Start(events, id) == k { LastStartIsUnique(events, id, k); }
    forall id ensures Holds(artifacts, id) <==> Named(events, id) {
      StartIsLastStart(events, id);
    }
  }
}
