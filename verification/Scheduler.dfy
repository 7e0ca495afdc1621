/** Calendar-triggered jobs (core/scheduler.py). Times are seconds. */
module CalendarTriggers {
  import opened Prelude

  /** One listed event as a poll of one job looks at it: `now` is read once per poll. */
  datatype Look = Look(job: string, lead: int, now: int, event: string, start: int)

  type Key = (string, string)

  datatype State = State(fired: set<Key>, runs: seq<Key>)

  function KeyOf(l: Look): Key { (l.job, l.event) }

  predicate Due(l: Look) { 0 <= l.start - l.now <= l.lead * 60 }

  function AfterLook(s: State, l: Look): State {
    if KeyOf(l) in s.fired || !Due(l) then s else State(s.fired + {KeyOf(l)}, s.runs + [KeyOf(l)])
  }

  /** Looks of one poll, of later polls and of other jobs' polls: a job run is awaited between two of them. */
  function AfterLooks(s: State, looks: seq<Look>): State {
    if looks == [] then s else AfterLook(AfterLooks(s, looks[..|looks| - 1]), looks[|looks| - 1])
  }

  class AssistantScheduler {
    var firedEvents: set<Key>
    var runs: seq<Key>

    constructor ()
      ensures CurrentState() == State({}, [])
    {
      firedEvents, runs := {}, [];
    }

    function CurrentState(): State
      reads this
    {
      State(firedEvents, runs)
    }

    /** One cycle of the calendar loop; a source that fails has listed nothing. */
    method CalendarCycle(job: string, lead: int, listed: Option<seq<(string, int)>>, now: int)
      modifies this
      ensures CurrentState() == AfterLooks(old(CurrentState()), LooksOf(job, lead, now, listed))
    {
      var events := if listed.Some? then listed.value else [];
      ghost var looks := LooksOf(job, lead, now, listed);
      for i := 0 to |events|
        invariant CurrentState() == AfterLooks(old(CurrentState()), looks[..i])
      {
        assert looks[..i + 1][..i] == looks[..i];
        var key := (job, events[i].0);
        if key in firedEvents {
          continue;
        }
        var secondsToStart := events[i].1 - now;
        if 0 <= secondsToStart <= lead * 60 {
          firedEvents := firedEvents + {key};
          runs := runs + [key];
        }
      }
      assert looks[..|events|] == looks;
    }
  }

  /** A poll looks at every listed event in order, and at none if the source failed. */
  function LooksOf(job: string, lead: int, now: int, listed: Option<seq<(string, int)>>): (looks: seq<Look>)
    ensures |looks| == match listed { case Some(events) => |events| case None => 0 }
    ensures forall i :: 0 <= i < |looks| ==> KeyOf(looks[i]) == (job, listed.value[i].0)
    ensures forall i :: 0 <= i < |looks| ==>
        looks[i].lead == lead && looks[i].now == now && looks[i].start == listed.value[i].1
  {
    var events := if listed.Some? then listed.value else [];
    seq(|events|, i requires 0 <= i < |events| => Look(job, lead, now, events[i].0, events[i].1))
  }

  /** The poll of the job listed the event no earlier than its lead time in minutes before the start, nor after it. */
  predicate SawInWindow(l: Look, key: Key) {
    l.job == key.0 && l.event == key.1 && l.start - 60 * l.lead <= l.now <= l.start
  }

  lemma {:induction false} FiresWhenDue(looks: seq<Look>, key: Key)
    ensures var s := AfterLooks(State({}, []), looks);
      && multiset(s.runs)[key] <= 1
      && (key in s.runs <==> key in s.fired)
      && (key in s.runs <==> exists i :: 0 <= i < |looks| && KeyOf(looks[i]) == key && Due(looks[i]))
  {
    if looks == [] {
    } else {
      var init, l := looks[..|looks| - 1], looks[|looks| - 1];
      FiresWhenDue(init, key);
      var before := AfterLooks(State({}, []), init);
      assert looks == init + [l];
      assert forall i :: 0 <= i < |init| ==> init[i] == looks[i];
      assert multiset(before.runs + [KeyOf(l)])[key] == multiset(before.runs)[key] + multiset([KeyOf(l)])[key];
      assert KeyOf(l) == key && key !in before.runs ==> multiset(before.runs)[key] == 0;
    }
  }

  /**
   * Over every interleaving of polls, a job runs for an event at most once, and exactly if some poll saw
   * it in its window.
   */
  lemma FiresExactly(looks: seq<Look>, key: Key)
    ensures var s := AfterLooks(State({}, []), looks);
      && multiset(s.runs)[key] <= 1
      && (key in s.runs <==> key in s.fired)
      && (key in s.runs <==> exists i :: 0 <= i < |looks| && SawInWindow(looks[i], key))
  {
    FiresWhenDue(looks, key);
    forall i | 0 <= i < |looks| ensures KeyOf(looks[i]) == key && Due(looks[i]) <==> SawInWindow(looks[i], key) {
    }
  }

  /**
   * The looks at `at` see one event with one start, the first in time for it, the last not before its
   * window, none later than a window after the one before.
   */
  predicate Covers(looks: seq<Look>, at: seq<nat>, key: Key, lead: int, start: int) {
    && at != []
    && (forall k :: 0 <= k < |at| ==> at[k] < |looks| && KeyOf(looks[at[k]]) == key
                                      && looks[at[k]].lead == lead && looks[at[k]].start == start)
    && looks[at[0]].now <= start
    && looks[at[|at| - 1]].now >= start - lead * 60
    && forall k :: 0 < k < |at| ==> looks[at[k]].now <= looks[at[k - 1]].now + lead * 60
  }

  lemma {:induction false} SomeLookIsDue(looks: seq<Look>, at: seq<nat>, key: Key, lead: int, start: int)
    returns (i: nat)
    requires Covers(looks, at, key, lead, start)
    ensures i < |looks| && KeyOf(looks[i]) == key && Due(looks[i])
  {
    var last := |at| - 1;
    if looks[at[last]].now <= start {
      i := at[last];
    } else {
      assert looks[at[last - 1]].now >= start - lead * 60;
      i := SomeLookIsDue(looks, at[..last], key, lead, start);
    }
  }

  /** Polls that return the event at most a window apart fire its job exactly once. */
  lemma CoveredFiresOnce(looks: seq<Look>, at: seq<nat>, key: Key, lead: int, start: int)
    requires Covers(looks, at, key, lead, start)
    ensures multiset(AfterLooks(State({}, []), looks).runs)[key] == 1
  {
    var i := SomeLookIsDue(looks, at, key, lead, start);
    FiresWhenDue(looks, key);
  }
}
