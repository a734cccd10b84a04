/** What the event functions do to flags and queues, said without the functions that compute it. */
module EventMeaning {
  import opened Common
  import opened EventState
  import opened EventOrder
  import opened EventSteps

  // ---- What each of them promises

  /** The event is on no queue and has no timeout; everything else stays. */
  ghost predicate Deletion(s: State, r: State, e: Event) {
    && Only(s, r, e) && QueuesKept(s, r, {e})
    && r.flags[e] == s.flags[e].(inserted := false, active := false, later := false, timeout := false)
  }

  /** The event is the last of its active queue, unless it was on it; a result of a pending activation stays. */
  ghost predicate Activation(s: State, r: State, e: Event, res: bool) {
    && Only(s, r, e) && r.lists == s.lists && r.heap == s.heap && r.later == Kept(s.later, {e})
    && var f := s.flags[e];
    && r.flags[e] == f.(active := true, later := false, resTimeout := res || ((f.active || f.later) && f.resTimeout))
    && (f.active ==> r.active == s.active)
    && (!f.active ==> e.pri < |s.active| && r.active == s.active[e.pri := s.active[e.pri] + [e]])
  }

  /** The event is the last of the later queue, unless it was active or on it. */
  ghost predicate LaterActivation(s: State, r: State, e: Event, res: bool) {
    && Only(s, r, e) && r.lists == s.lists && r.heap == s.heap && r.active == s.active
    && var f := s.flags[e];
    && r.flags[e] == f.(later := !f.active, resTimeout := res || ((f.active || f.later) && f.resTimeout))
    && r.later == if f.active || f.later then s.later else s.later + [e]
  }

  /** An activation for a timeout, which does not outlive the timeout. */
  ghost function Withdrawn(f: Flags, e: Event): set<Event> {
    if f.active && f.resTimeout then {e} else {}
  }

  /** The event waits for the deadline, on the heap or in its place in the list; it is no longer active for a
      timeout. */
  ghost predicate Arming(s: State, r: State, e: Event, deadline: int, common: int) {
    && Only(s, r, e) && NO_LIST <= common < |s.lists| && r.later == s.later
    && var f := s.flags[e];
    && r.flags[e] == f.(active := f.active && !f.resTimeout, timeout := true, deadline := deadline, common := common)
    && ActiveKept(s, r, Withdrawn(f, e))
    && r.heap == (if common == NO_LIST then s.heap + {e} else s.heap - {e})
    && (forall i :: 0 <= i < |s.lists| && i != common ==> r.lists[i] == Kept(s.lists[i], {e}))
    && (common >= 0 ==> PutInOrder(Kept(s.lists[common], {e}), r.lists[common], e, deadline, s.flags))
  }

  /** The timer of a list waits for this deadline; everything else stays. */
  ghost predicate TimerSet(s: State, r: State, t: Event, deadline: int) {
    && Only(s, r, t) && r.later == s.later && r.lists == s.lists && r.heap == s.heap + {t}
    && var f := s.flags[t];
    && r.flags[t] == f.(active := f.active && !f.resTimeout, timeout := true, deadline := deadline)
    && ActiveKept(s, r, Withdrawn(f, t))
  }

  /** The event map has taken the event, if it was asked. */
  ghost predicate Enlisting(s: State, r: State, e: Event, asked: bool) {
    && Only(s, r, e) && r.flags[e] == s.flags[e].(inserted := s.flags[e].inserted || asked)
    && r.active == s.active && r.later == s.later && r.lists == s.lists && r.heap == s.heap
  }

  /** What `event_add_nolock_` leaves of an event with a timeout.  When it has become the first of its list, the list's
      timer waits for the same deadline. */
  ghost predicate Adding(s: State, r: State, e: Event, asked: bool, deadline: int, common: int) {
    && e in s.flags && r.flags.Keys == s.flags.Keys && r.timers == s.timers && |r.lists| == |s.lists| == |s.timers|
    && NO_LIST <= common < |s.lists| && (forall i :: 0 <= i < |s.timers| ==> s.timers[i] in s.flags)
    && var f, first := s.flags[e], common >= 0 && r.lists[common] != [] && r.lists[common][0] == e;
    && r.flags[e] == f.(inserted := f.inserted || asked, active := f.active && !f.resTimeout, timeout := true,
                        deadline := deadline, common := common)
    && (forall x :: x in s.flags && x != e && !(first && x == s.timers[common]) ==> r.flags[x] == s.flags[x])
    && (first ==>
          var t, g := s.timers[common], s.flags[s.timers[common]];
          r.flags[t] == g.(active := g.active && !g.resTimeout, timeout := true, deadline := deadline))
    && r.later == s.later
    && ActiveKept(s, r, Withdrawn(f, e) + if first then Withdrawn(s.flags[s.timers[common]], s.timers[common]) else {})
    && r.heap == (if common == NO_LIST then s.heap + {e} else s.heap - {e}) + (if first then {s.timers[common]} else {})
    && (forall i :: 0 <= i < |s.lists| && i != common ==> r.lists[i] == Kept(s.lists[i], {e}))
    && (common >= 0 ==> PutInOrder(Kept(s.lists[common], {e}), r.lists[common], e, deadline, s.flags))
  }

  // ---- They keep the promises

  /** Where an event is, as its flags say. */
  lemma WhereIs(s: State, e: Event)
    requires Good(s) && e in s.flags
    ensures var f := s.flags[e];
      && e.pri < |s.active| && NO_LIST <= f.common < |s.lists| && !(f.active && f.later)
      && (f.later <==> e in s.later) && (f.timeout && f.common == NO_LIST <==> e in s.heap)
      && (forall k :: 0 <= k < |s.active| ==> (e in s.active[k] <==> f.active && k == e.pri))
      && (forall i :: 0 <= i < |s.lists| ==> (e in s.lists[i] <==> f.timeout && i == f.common))
  {
    assert Placed(s, e);
  }

  lemma EachOnce(s: State)
    requires Good(s)
    ensures NoDuplicates(s.later) && (forall k :: 0 <= k < |s.active| ==> NoDuplicates(s.active[k]))
    ensures forall i :: 0 <= i < |s.lists| ==> NoDuplicates(s.lists[i])
  {
    hide NoDuplicates, AllPlaced, Counted;
  }

  lemma UntimedMeans(s: State, e: Event)
    requires Good(s) && e in s.flags
    ensures var r := Untimed(s, e);
      r.active == s.active && r.later == s.later && ListsKept(s, r, {e}) && r.heap == s.heap - {e}
  {
    hide Good, Kept, Removed;
    WhereIs(s, e);
    EachOnce(s);
    var r := Untimed(s, e);
    forall i | 0 <= i < |s.lists| ensures r.lists[i] == Kept(s.lists[i], {e}) {
      if e in s.lists[i] { RemovedKept(s.lists[i], e); } else { KeptAll(s.lists[i], {e}); }
    }
  }

  lemma InactiveMeans(s: State, e: Event)
    requires Good(s) && e in s.flags
    ensures var r := Inactive(s, e);
      r.lists == s.lists && r.heap == s.heap && ActiveKept(s, r, {e}) && r.later == Kept(s.later, {e})
  {
    hide Good, Kept, Removed;
    WhereIs(s, e);
    EachOnce(s);
    var r := Inactive(s, e);
    forall k | 0 <= k < |s.active| ensures r.active[k] == Kept(s.active[k], {e}) {
      if e in s.active[k] { RemovedKept(s.active[k], e); } else { KeptAll(s.active[k], {e}); }
    }
    if e in s.later { RemovedKept(s.later, e); } else { KeptAll(s.later, {e}); }
  }

  lemma DeletedMeans(s: State, e: Event)
    requires Good(s) && e in s.flags
    ensures Deletion(s, Deleted(s, e), e)
  {
    hide Good, Untimed, Inactive, Kept;
    UntimedMeans(s, e);
    InactiveMeans(Untimed(s, e), e);
    DeletedFlags(s, e);
  }

  lemma ActivatedMeans(s: State, e: Event, res: bool)
    requires Good(s) && e in s.flags
    ensures Activation(s, Activated(s, e, res), e, res)
  {
    hide Good, Inactive, Kept;
    WhereIs(s, e);
    ActivatedFlags(s, e, res);
    var f := s.flags[e];
    var a := SetResult(s, e, res || ((f.active || f.later) && f.resTimeout));
    GoodResult(s, e, res || ((f.active || f.later) && f.resTimeout));
    if f.active {
      KeptAll(s.later, {e});
    } else {
      InactiveMeans(a, e);
      ActiveStays(s, {e});
      assert Inactive(a, e).active == s.active;
    }
  }

  lemma ActivatedLaterMeans(s: State, e: Event, res: bool)
    requires Good(s) && e in s.flags && e !in s.timers
    ensures LaterActivation(s, ActivatedLater(s, e, res), e, res)
  {
    hide Good;
    ActivatedLaterFlags(s, e, res);
    WhereIs(s, e);
  }

  lemma DisarmedMeans(s: State, e: Event)
    requires Good(s) && e in s.flags
    ensures var r := Disarmed(s, e);
      && r.later == s.later && ListsKept(s, r, {e}) && r.heap == s.heap - {e}
      && ActiveKept(s, r, Withdrawn(s.flags[e], e))
  {
    hide Good, Untimed, Inactive, Kept;
    WhereIs(s, e);
    UntimedMeans(s, e);
    var a := Untimed(s, e);
    if s.flags[e].active && s.flags[e].resTimeout {
      InactiveMeans(a, e);
      KeptAll(s.later, {e});
    } else {
      ActiveStays(s, {});
    }
  }

  lemma ArmedMeans(s: State, e: Event, deadline: int, common: int)
    requires Good(s) && e in s.flags && NO_LIST <= common < |s.lists| && (e in s.timers ==> common == NO_LIST)
    ensures Arming(s, Armed(s, e, deadline, common), e, deadline, common)
  {
    hide Good, Disarmed, Kept, InsertInOrder, PutInOrder;
    DisarmedMeans(s, e);
    ArmedFlags(s, e, deadline, common);
    var b := Disarmed(s, e);
    GoodDeadline(b, e, deadline, common);
    var c := SetDeadline(b, e, deadline, common);
    GoodTimeout(c, e);
    if common >= 0 { ArmedPlace(s, b, c, e, deadline, common); }
  }

  lemma ArmedPlace(s: State, b: State, c: State, e: Event, deadline: int, common: nat)
    requires Good(s) && Only(s, b, e) && ListsKept(s, b, {e}) && common < |s.lists|
    requires Good(c) && c == b.(flags := c.flags) && Only(b, c, e)
    ensures forall x :: x in c.lists[common] ==> x in c.flags
    ensures PutInOrder(Kept(s.lists[common], {e}), InsertInOrder(c.lists[common], e, deadline, c.flags), e, deadline,
                       s.flags)
  {
    hide Kept;
    var q := c.lists[common];
    assert Within(q, c.flags) && Sorted(q, c.flags) by { ListIsGood(c, common); }
    assert Within(q, s.flags);
    assert forall x :: x in q ==> x != e && s.flags[x] == c.flags[x];
    InOrderMeans(q, e, deadline, c.flags, s.flags);
  }

  lemma InOrderMeans(q: seq<Event>, e: Event, deadline: int, flags: map<Event, Flags>, was: map<Event, Flags>)
    requires Within(q, flags) && Sorted(q, flags) && Within(q, was) && forall x :: x in q ==> was[x] == flags[x]
    ensures PutInOrder(q, InsertInOrder(q, e, deadline, flags), e, deadline, was)
  {
    var j := InOrderAt(q, e, deadline, flags);
    assert forall k :: 0 <= k < |q| ==> q[k] in q;
    assert PutAt(q, InsertInOrder(q, e, deadline, flags), e, deadline, was, j);
  }

  lemma ListIsGood(s: State, i: nat)
    requires Good(s) && i < |s.lists|
    ensures Within(s.lists[i], s.flags) && Sorted(s.lists[i], s.flags)
  {
  }

  lemma ScheduledMeans(s: State, i: nat)
    requires Good(s) && i < |s.lists| && s.lists[i] != []
    ensures i < |s.timers| && s.lists[i][0] in s.flags
    ensures TimerSet(s, Scheduled(s, i), s.timers[i], s.flags[s.lists[i][0]].deadline)
  {
    hide Good, Armed, Kept;
    AboutTimer(s, i);
    assert s.lists[i][0] in s.lists[i];
    var t, r := s.timers[i], Scheduled(s, i);
    ArmedMeans(s, t, s.flags[s.lists[i][0]].deadline, NO_LIST);
    WhereIs(s, t);
    forall j | 0 <= j < |s.lists| ensures r.lists[j] == s.lists[j] {
      KeptAll(s.lists[j], {t});
    }
  }

  lemma ActiveKeptTwice(s: State, t: State, r: State, a: set<Event>, b: set<Event>)
    requires ActiveKept(s, t, a) && ActiveKept(t, r, b)
    ensures ActiveKept(s, r, a + b)
  {
    hide Kept;
    forall k | 0 <= k < |s.active| ensures r.active[k] == Kept(s.active[k], a + b) {
      KeptTwice(s.active[k], a, b);
    }
  }

  lemma AddedTimeoutMeans(s: State, e: Event, deadline: int, common: int)
    requires Good(s) && e in s.flags && e !in s.timers && NO_LIST <= common < |s.lists|
    ensures Adding(s, AddedTimeout(s, e, deadline, common), e, false, deadline, common)
  {
    hide Good, Armed, Scheduled, Kept, PutInOrder, ActiveKept;
    ArmedMeans(s, e, deadline, common);
    ArmedFlags(s, e, deadline, common);
    var a := Armed(s, e, deadline, common);
    KnownTimers(s);
    if common >= 0 && a.lists[common] != [] && a.lists[common][0] == e {
      ScheduledMeans(a, common);
      ActiveKeptTwice(s, a, Scheduled(a, common), Withdrawn(s.flags[e], e),
                      Withdrawn(a.flags[a.timers[common]], a.timers[common]));
    } else {
      assert Withdrawn(s.flags[e], e) + {} == Withdrawn(s.flags[e], e);
    }
  }

  lemma KnownTimers(s: State)
    requires Good(s)
    ensures |s.timers| == |s.lists| && forall i :: 0 <= i < |s.timers| ==> s.timers[i] in s.flags
  {
  }

  /** `event_add_nolock_`, when it does not fail. */
  lemma AddedMeans(s: State, e: Event, ioResult: int, tv: Timeout, asked: bool)
    requires Good(s) && e in s.flags && e !in s.timers && (tv.Timeout? ==> NO_LIST <= tv.common < |s.lists|)
    requires asked == (e.io && !s.flags[e].inserted && !s.flags[e].active && !s.flags[e].later)
    ensures var r := Added(s, e, ioResult, tv);
      if asked && ioResult == -1 then r == s
      else if tv.NoTimeout? then Enlisting(s, r, e, asked)
      else Adding(s, r, e, asked, tv.deadline, tv.common)
  {
    hide Good, AddedTimeout, Adding;
    if asked && ioResult != -1 { GoodInserted(s, e, true); }
    var a := if asked && ioResult != -1 then InsertInserted(s, e) else s;
    if tv.Timeout? && !(asked && ioResult == -1) {
      AddedTimeoutMeans(a, e, tv.deadline, tv.common);
      AddingAfter(s, a, AddedTimeout(a, e, tv.deadline, tv.common), e, asked, tv.deadline, tv.common);
    }
  }

  lemma AddingAfter(s: State, a: State, r: State, e: Event, asked: bool, deadline: int, common: int)
    requires Enlisting(s, a, e, asked) && Adding(a, r, e, false, deadline, common) && e !in s.timers
    ensures Adding(s, r, e, asked, deadline, common)
  {
    hide Kept, PutInOrder;
    if common >= 0 {
      var q := Kept(s.lists[common], {e});
      SameOrder(q, r.lists[common], e, deadline, a.flags, s.flags);
    }
    assert ActiveKept(s, r, Withdrawn(a.flags[e], e) + {}) == ActiveKept(a, r, Withdrawn(a.flags[e], e) + {});
  }

  lemma SameOrder(q: seq<Event>, r: seq<Event>, e: Event, deadline: int, f: map<Event, Flags>, g: map<Event, Flags>)
    requires PutInOrder(q, r, e, deadline, f) && g.Keys == f.Keys
    requires forall x :: x in f && x in g ==> f[x].deadline == g[x].deadline
    ensures PutInOrder(q, r, e, deadline, g)
  {
    var j :| PutAt(q, r, e, deadline, f, j);
    assert forall k :: 0 <= k < |q| ==> q[k] in q;
    assert PutAt(q, r, e, deadline, g, j);
  }
}
