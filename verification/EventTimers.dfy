/** No event of a common-timeout list is forgotten: the list's timer is set for it, or is being run. */
module EventTimers {
  import opened Common
  import opened EventState
  import opened EventSteps

  // ---- The invariant

  /** The timer of a list with events is on the heap no later than the first of them, or active, or taken from its
      queue with its callback still to run. */
  ghost predicate Ready(s: State, running: set<Event>, i: nat)
    requires Good(s) && i < |s.lists|
  {
    AboutTimer(s, i);
    var t := s.timers[i];
    && (s.lists[i] != [] ==>
          || (s.flags[t].timeout && s.flags[t].deadline <= s.flags[s.lists[i][0]].deadline)
          || s.flags[t].active || t in running)
  }

  ghost predicate ReadyBut(s: State, running: set<Event>, k: int)
    requires Good(s)
  {
    forall i :: 0 <= i < |s.lists| && i != k ==> Ready(s, running, i)
  }

  /** No list is stranded. */
  ghost predicate Watched(s: State, running: set<Event>)
    requires Good(s)
  {
    ReadyBut(s, running, -1)
  }

  /** A timer's flag says that it is on the heap. */
  lemma ReadyMeans(s: State, running: set<Event>, i: nat)
    requires Good(s) && Watched(s, running) && i < |s.lists| && s.lists[i] != []
    ensures |s.timers| == |s.lists| && s.timers[i] in s.flags && s.lists[i][0] in s.flags
    ensures var t := s.timers[i];
      (t in s.heap && s.flags[t].deadline <= s.flags[s.lists[i][0]].deadline)
      || (t.pri < |s.active| && t in s.active[t.pri]) || t in running
    ensures forall k :: 0 <= k < |s.lists[i]| ==>
      s.lists[i][k] in s.flags && s.flags[s.lists[i][0]].deadline <= s.flags[s.lists[i][k]].deadline
  {
    AboutTimer(s, i);
    assert Ready(s, running, i) && Placed(s, s.timers[i]) && Sorted(s.lists[i], s.flags);
    assert s.lists[i][0] in s.lists[i];
  }

  // ---- Steps that do not touch the timers

  /** No list has become due earlier. */
  ghost predicate HeadsLater(s: State, r: State)
    requires Good(s) && Good(r) && |s.lists| == |r.lists|
  {
    forall i :: 0 <= i < |s.lists| && r.lists[i] != [] ==>
      s.lists[i] != [] && s.lists[i][0] in s.flags && r.lists[i][0] in r.flags
      && s.flags[s.lists[i][0]].deadline <= r.flags[r.lists[i][0]].deadline
  }

  lemma StillReady(s: State, r: State, e: Event, running: set<Event>, k: int)
    requires Good(s) && Good(r) && Only(s, r, e) && e !in s.timers && HeadsLater(s, r) && ReadyBut(s, running, k)
    ensures ReadyBut(r, running, k)
  {
    hide Good;
    forall i | 0 <= i < |r.lists| && i != k ensures Ready(r, running, i) {
      AboutTimer(s, i);
      AboutTimer(r, i);
      assert Ready(s, running, i) && s.timers[i] != e;
    }
  }

  lemma SameHeads(s: State, r: State, e: Event)
    requires Good(s) && Good(r) && Only(s, r, e) && r.lists == s.lists
    requires r.flags[e].deadline == s.flags[e].deadline || forall i :: 0 <= i < |s.lists| ==> e !in s.lists[i]
    ensures HeadsLater(s, r)
  {
    hide Good;
    forall i | 0 <= i < |s.lists| && r.lists[i] != []
      ensures s.lists[i][0] in s.flags && s.flags[s.lists[i][0]].deadline <= r.flags[r.lists[i][0]].deadline
    {
      AboutTimer(s, i);
      assert s.lists[i][0] in s.lists[i];
    }
  }

  /** Taking an event from its list makes the list due later, or leaves it as it was. */
  lemma UntimedHeads(s: State, e: Event)
    requires Good(s) && e in s.flags
    ensures HeadsLater(s, Untimed(s, e)) && (s.flags[e].common == NO_LIST ==> Untimed(s, e).lists == s.lists)
  {
    var r := Untimed(s, e);
    AboutEvent(s, e);
    var c := s.flags[e].common;
    if s.flags[e].timeout && c >= 0 {
      assert Within(s.lists[c], s.flags) && Sorted(s.lists[c], s.flags);
      GoodNoTimeout(s, e);
      RemovedSorted(s.lists[c], e, s.flags);
      hide Good, Removed;
      forall i | 0 <= i < |s.lists| && r.lists[i] != []
        ensures s.lists[i] != [] && s.lists[i][0] in s.flags && r.lists[i][0] in r.flags
        ensures s.flags[s.lists[i][0]].deadline <= r.flags[r.lists[i][0]].deadline
      {
        AboutTimer(s, i);
        AboutTimer(r, i);
        assert (s.lists[i] != [] ==> s.lists[i][0] in s.lists[i]) && r.lists[i][0] in r.lists[i];
      }
    } else {
      SameHeads(s, r, e);
    }
  }

  lemma DeletedReady(s: State, e: Event, running: set<Event>, k: int)
    requires Good(s) && e in s.flags && e !in s.timers && ReadyBut(s, running, k)
    ensures ReadyBut(Deleted(s, e), running, k)
  {
    hide Good, Untimed, Deleted, ReadyBut;
    DeletedFlags(s, e);
    UntimedHeads(s, e);
    var a, r := Untimed(s, e), Deleted(s, e);
    assert HeadsLater(s, r) by { HeadsTransfer(s, a, r, e); }
    StillReady(s, r, e, running, k);
  }

  /** States with the same lists and deadlines are due at the same times. */
  lemma HeadsTransfer(s: State, a: State, r: State, e: Event)
    requires Good(s) && Good(a) && Good(r) && e in a.flags && |s.lists| == |a.lists| && HeadsLater(s, a)
    requires a.lists == r.lists && a.flags.Keys == r.flags.Keys
    requires forall x :: x in a.flags ==> r.flags[x].deadline == a.flags[x].deadline
    ensures HeadsLater(s, r)
  {
    hide Good;
  }

  lemma ActivatedReady(s: State, e: Event, res: bool, running: set<Event>, k: int)
    requires Good(s) && e in s.flags && e !in s.timers && ReadyBut(s, running, k)
    ensures ReadyBut(Activated(s, e, res), running, k)
  {
    hide Good, Activated, ReadyBut;
    ActivatedFlags(s, e, res);
    SameHeads(s, Activated(s, e, res), e);
    StillReady(s, Activated(s, e, res), e, running, k);
  }

  lemma ActivatedLaterReady(s: State, e: Event, res: bool, running: set<Event>)
    requires Good(s) && e in s.flags && e !in s.timers && Watched(s, running)
    ensures Watched(ActivatedLater(s, e, res), running)
  {
    hide Good, ActivatedLater, ReadyBut;
    ActivatedLaterFlags(s, e, res);
    SameHeads(s, ActivatedLater(s, e, res), e);
    StillReady(s, ActivatedLater(s, e, res), e, running, -1);
  }

  // ---- Setting timers

  /** What setting a timeout does to the lists: the event's new list begins with it or as it did before. */
  lemma ArmedHeads(s: State, e: Event, deadline: int, common: int)
    requires Good(s) && e in s.flags && NO_LIST <= common < |s.lists| && (e in s.timers ==> common == NO_LIST)
    ensures |Armed(s, e, deadline, common).lists| == |s.lists|
    ensures var b, r := Disarmed(s, e), Armed(s, e, deadline, common);
      && HeadsLater(s, b)
      && (forall i :: 0 <= i < |s.lists| && i != common ==> r.lists[i] == b.lists[i])
      && (common >= 0 && r.lists[common] != [] && r.lists[common][0] != e ==>
            b.lists[common] != [] && r.lists[common][0] == b.lists[common][0])
  {
    hide Good;
    var b, r := Disarmed(s, e), Armed(s, e, deadline, common);
    DisarmedHeads(s, e);
    GoodDeadline(b, e, deadline, common);
    var c := SetDeadline(b, e, deadline, common);
    GoodTimeout(c, e);
    if common >= 0 {
      assert Within(c.lists[common], c.flags) && Sorted(c.lists[common], c.flags) by { ListGood(c, common); }
      var i := InOrderAt(c.lists[common], e, deadline, c.flags);
    }
  }

  lemma ListGood(s: State, i: nat)
    requires Good(s) && i < |s.lists|
    ensures Within(s.lists[i], s.flags) && Sorted(s.lists[i], s.flags) && NoDuplicates(s.lists[i])
  {
  }

  lemma DisarmedHeads(s: State, e: Event)
    requires Good(s) && e in s.flags
    ensures HeadsLater(s, Disarmed(s, e)) && (s.flags[e].common == NO_LIST ==> Disarmed(s, e).lists == s.lists)
  {
    hide Good, Untimed, Inactive;
    UntimedHeads(s, e);
    var a := Untimed(s, e);
    InactiveLists(a, e);
    HeadsTransfer(s, a, Disarmed(s, e), e);
  }

  /** A timer is in no list, so setting it changes none. */
  lemma ScheduledReady(s: State, i: nat, running: set<Event>)
    requires Good(s) && i < |s.lists| && s.lists[i] != [] && ReadyBut(s, running, i)
    ensures Scheduled(s, i).lists == s.lists && Watched(Scheduled(s, i), running)
  {
    hide Good;
    AboutTimer(s, i);
    var t, r := s.timers[i], Scheduled(s, i);
    var d := s.flags[s.lists[i][0]].deadline;
    assert s.lists[i][0] in s.lists[i];
    ArmedFlags(s, t, d, NO_LIST);
    DisarmedHeads(s, t);
    assert r.lists == s.lists by { ArmedNoList(s, t, d); }
    forall j | 0 <= j < |r.lists| ensures Ready(r, running, j) {
      AboutTimer(s, j);
      AboutTimer(r, j);
      if j != i {
        assert Ready(s, running, j) && s.timers[j] != t;
        if s.lists[j] != [] { assert s.lists[j][0] in s.lists[j]; }
      }
    }
  }

  lemma ArmedNoList(s: State, e: Event, deadline: int)
    requires Good(s) && e in s.flags
    ensures Armed(s, e, deadline, NO_LIST).lists == Disarmed(s, e).lists
  {
    hide Good, Disarmed;
    var b := Disarmed(s, e);
    GoodDeadline(b, e, deadline, NO_LIST);
    GoodTimeout(SetDeadline(b, e, deadline, NO_LIST), e);
  }

  lemma AddedTimeoutReady(s: State, e: Event, deadline: int, common: int, running: set<Event>)
    requires Good(s) && e in s.flags && e !in s.timers && NO_LIST <= common < |s.lists| && Watched(s, running)
    ensures Watched(AddedTimeout(s, e, deadline, common), running)
  {
    hide Good, Armed, Scheduled, Disarmed;
    var b, a := Disarmed(s, e), Armed(s, e, deadline, common);
    ArmedFlags(s, e, deadline, common);
    ArmedHeads(s, e, deadline, common);
    StillReady(s, b, e, running, -1);
    forall i | 0 <= i < |a.lists| && (i != common || (a.lists[i] != [] && a.lists[i][0] != e))
      ensures Ready(a, running, i)
    {
      AboutTimer(b, i);
      AboutTimer(a, i);
      assert Ready(b, running, i) && a.timers[i] != e;
      if a.lists[i] != [] { assert a.lists[i][0] in a.lists[i] && b.lists[i][0] in b.lists[i]; }
    }
    if common >= 0 && a.lists[common] != [] && a.lists[common][0] == e {
      ScheduledReady(a, common, running);
    } else if common >= 0 && a.lists[common] == [] {
      AboutTimer(a, common);
      assert Ready(a, running, common);
    }
  }

  lemma AddedReady(s: State, e: Event, ioResult: int, tv: Timeout, running: set<Event>)
    requires Good(s) && e in s.flags && e !in s.timers && (tv.Timeout? ==> NO_LIST <= tv.common < |s.lists|)
    requires Watched(s, running)
    ensures Watched(Added(s, e, ioResult, tv), running)
  {
    hide Good, AddedTimeout, ReadyBut;
    var f := s.flags[e];
    if e.io && !f.inserted && !f.active && !f.later && ioResult != -1 {
      GoodInserted(s, e, true);
      var a := InsertInserted(s, e);
      SameHeads(s, a, e);
      StillReady(s, a, e, running, -1);
      if tv.Timeout? { AddedTimeoutReady(a, e, tv.deadline, tv.common, running); }
    } else if tv.Timeout? {
      AddedTimeoutReady(s, e, tv.deadline, tv.common, running);
    }
  }
}
