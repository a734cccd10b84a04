/** What the event functions make of the state of an event base, and the timers of its common-timeout lists. */
module EventSteps {
  import opened EventState

  datatype Timeout = NoTimeout | Timeout(deadline: int, common: int)

  // ---- Adding, deleting and activating

  /** Only this event's flags differ; timers and lists are as many as before. */
  ghost predicate Only(s: State, r: State, e: Event) {
    && e in s.flags && r.flags.Keys == s.flags.Keys && r.timers == s.timers && |r.lists| == |s.lists|
    && forall x :: x in s.flags && x != e ==> r.flags[x] == s.flags[x]
  }

  lemma AboutEvent(s: State, e: Event)
    requires Good(s) && e in s.flags
    ensures !(s.flags[e].active && s.flags[e].later) && e.pri < |s.active| && NO_LIST <= s.flags[e].common < |s.lists|
    ensures e in s.timers ==> s.flags[e].common == NO_LIST && !s.flags[e].later && !e.io && e.internal
  {
    assert Placed(s, e);
  }

  /** Without its timeout, if it has one. */
  ghost function Untimed(s: State, e: Event): (r: State)
    requires Good(s) && e in s.flags
    ensures Good(r) && Only(s, r, e) && r.flags[e] == s.flags[e].(timeout := false)
  {
    hide Good, Removed;
    if s.flags[e].timeout then GoodNoTimeout(s, e); RemoveTimeout(s, e) else s
  }

  ghost function OutOfActive(s: State, e: Event): (r: State)
    requires Good(s) && e in s.flags && s.flags[e].active
    ensures Good(r) && Only(s, r, e) && r.flags[e] == s.flags[e].(active := false)
  {
    hide Good, Removed;
    AboutEvent(s, e);
    GoodActive(s, e, false);
    RemoveActive(s, e)
  }

  ghost function OutOfLater(s: State, e: Event): (r: State)
    requires Good(s) && e in s.flags && s.flags[e].later
    ensures Good(r) && Only(s, r, e) && r.flags[e] == s.flags[e].(later := false)
  {
    hide Good, Removed;
    AboutEvent(s, e);
    GoodLater(s, e, false);
    RemoveActiveLater(s, e)
  }

  /** On neither of the active queues. */
  ghost function Inactive(s: State, e: Event): (r: State)
    requires Good(s) && e in s.flags
    ensures Good(r) && Only(s, r, e) && r.flags[e] == s.flags[e].(active := false, later := false)
  {
    hide Good, OutOfActive, OutOfLater;
    AboutEvent(s, e);
    if s.flags[e].active then OutOfActive(s, e)
    else if s.flags[e].later then OutOfLater(s, e)
    else s
  }

  lemma InactiveLists(s: State, e: Event)
    requires Good(s) && e in s.flags
    ensures Inactive(s, e).lists == s.lists && Inactive(s, e).heap == s.heap
  {
  }

  /** `event_del_nolock_`. */
  ghost function Deleted(s: State, e: Event): (r: State)
    requires Good(s) && e in s.flags
    ensures Good(r)
  {
    hide Good, Untimed, Inactive;
    var b := Inactive(Untimed(s, e), e);
    if b.flags[e].inserted then GoodInserted(b, e, false); RemoveInserted(b, e) else b
  }

  lemma DeletedFlags(s: State, e: Event)
    requires Good(s) && e in s.flags
    ensures Only(s, Deleted(s, e), e)
    ensures Deleted(s, e).flags[e] == s.flags[e].(inserted := false, active := false, later := false, timeout := false)
    ensures Deleted(s, e).lists == Untimed(s, e).lists && Deleted(s, e).heap == Untimed(s, e).heap
  {
    hide Good, Untimed, Inactive;
    InactiveLists(Untimed(s, e), e);
  }

  /** `event_active_nolock_`; `res` says that the reason is a timeout. */
  ghost function Activated(s: State, e: Event, res: bool): (r: State)
    requires Good(s) && e in s.flags
    ensures Good(r)
  {
    hide Good, Inactive;
    var f := s.flags[e];
    AboutEvent(s, e);
    var result := res || ((f.active || f.later) && f.resTimeout);
    GoodResult(s, e, result);
    var a := SetResult(s, e, result);
    if f.active then a
    else
      var b := Inactive(a, e);
      AboutEvent(b, e);
      GoodActive(b, e, true);
      InsertActive(b, e)
  }

  lemma ActivatedFlags(s: State, e: Event, res: bool)
    requires Good(s) && e in s.flags
    ensures var r, f := Activated(s, e, res), s.flags[e];
      && Only(s, r, e) && r.lists == s.lists && r.heap == s.heap
      && r.flags[e] == f.(active := true, later := false, resTimeout := res || ((f.active || f.later) && f.resTimeout))
  {
    hide Good, Inactive;
    AboutEvent(s, e);
    var f := s.flags[e];
    var result := res || ((f.active || f.later) && f.resTimeout);
    GoodResult(s, e, result);
    InactiveLists(SetResult(s, e, result), e);
  }

  /** `event_active_later_nolock_`. */
  ghost function ActivatedLater(s: State, e: Event, res: bool): (r: State)
    requires Good(s) && e in s.flags && e !in s.timers
    ensures Good(r)
  {
    hide Good;
    var f := s.flags[e];
    AboutEvent(s, e);
    var result := res || ((f.active || f.later) && f.resTimeout);
    GoodResult(s, e, result);
    var a := SetResult(s, e, result);
    if f.active || f.later then a
    else GoodLater(a, e, true); InsertActiveLater(a, e)
  }

  lemma ActivatedLaterFlags(s: State, e: Event, res: bool)
    requires Good(s) && e in s.flags && e !in s.timers
    ensures var r, f := ActivatedLater(s, e, res), s.flags[e];
      && Only(s, r, e) && r.lists == s.lists && r.heap == s.heap
      && r.flags[e] == f.(later := !f.active, resTimeout := res || ((f.active || f.later) && f.resTimeout))
  {
    hide Good;
    AboutEvent(s, e);
  }

  /** Before a new timeout is set, the old one goes, and so does an activation that it caused. */
  ghost function Disarmed(s: State, e: Event): (r: State)
    requires Good(s) && e in s.flags
    ensures Good(r) && Only(s, r, e)
    ensures r.flags[e] == s.flags[e].(active := s.flags[e].active && !s.flags[e].resTimeout, timeout := false)
  {
    hide Good, Untimed, Inactive;
    var a := Untimed(s, e);
    AboutEvent(a, e);
    if a.flags[e].active && a.flags[e].resTimeout then Inactive(a, e) else a
  }

  /** The timeout part of `event_add_nolock_`. */
  ghost function Armed(s: State, e: Event, deadline: int, common: int): (r: State)
    requires Good(s) && e in s.flags && NO_LIST <= common < |s.lists| && (e in s.timers ==> common == NO_LIST)
    ensures Good(r)
  {
    hide Good, Disarmed;
    var b := Disarmed(s, e);
    GoodDeadline(b, e, deadline, common);
    var c := SetDeadline(b, e, deadline, common);
    GoodTimeout(c, e);
    InsertTimeout(c, e)
  }

  lemma ArmedFlags(s: State, e: Event, deadline: int, common: int)
    requires Good(s) && e in s.flags && NO_LIST <= common < |s.lists| && (e in s.timers ==> common == NO_LIST)
    ensures var r, f := Armed(s, e, deadline, common), s.flags[e];
      && Only(s, r, e) && r.flags[e] ==
        f.(active := f.active && !f.resTimeout, timeout := true, deadline := deadline, common := common)
  {
    hide Good, Disarmed;
    var b := Disarmed(s, e);
    GoodDeadline(b, e, deadline, common);
    GoodTimeout(SetDeadline(b, e, deadline, common), e);
  }

  lemma AboutTimer(s: State, i: nat)
    requires Good(s) && i < |s.lists|
    ensures |s.timers| == |s.lists| && s.timers[i] in s.flags && s.flags[s.timers[i]].common == NO_LIST
    ensures s.timers[i].internal && !s.timers[i].io && !s.flags[s.timers[i]].later
    ensures forall j :: 0 <= j < |s.timers| && j != i ==> s.timers[j] != s.timers[i]
    ensures forall e :: e in s.lists[i] ==> e in s.flags && s.flags[e].timeout && s.flags[e].common == i
  {
    forall e | e in s.lists[i] ensures e in s.flags && s.flags[e].timeout && s.flags[e].common == i {
      assert Within(s.lists[i], s.flags) && Placed(s, e);
    }
  }

  /** `common_timeout_schedule`: the list's timer gets the deadline of the list's first event. */
  ghost function Scheduled(s: State, i: nat): (r: State)
    requires Good(s) && i < |s.lists| && s.lists[i] != []
    ensures Good(r) && i < |s.timers| && Only(s, r, s.timers[i])
  {
    hide Good, Armed;
    AboutTimer(s, i);
    var d := s.flags[s.lists[i][0]].deadline;
    ArmedFlags(s, s.timers[i], d, NO_LIST);
    Armed(s, s.timers[i], d, NO_LIST)
  }

  /** Adding a timeout; the timer is scheduled when the event has become the first of its list. */
  ghost function AddedTimeout(s: State, e: Event, deadline: int, common: int): (r: State)
    requires Good(s) && e in s.flags && e !in s.timers && NO_LIST <= common < |s.lists|
    ensures Good(r) && r.flags.Keys == s.flags.Keys && r.timers == s.timers && |r.lists| == |s.lists|
  {
    hide Good, Armed, Scheduled;
    ArmedFlags(s, e, deadline, common);
    var a := Armed(s, e, deadline, common);
    if common >= 0 && a.lists[common] != [] && a.lists[common][0] == e then Scheduled(a, common) else a
  }

  /** `event_add_nolock_`, where `ioResult` is what the event map answers: -1 leaves everything as it was. */
  ghost function Added(s: State, e: Event, ioResult: int, tv: Timeout): (r: State)
    requires Good(s) && e in s.flags && e !in s.timers && (tv.Timeout? ==> NO_LIST <= tv.common < |s.lists|)
    ensures Good(r) && r.flags.Keys == s.flags.Keys && r.timers == s.timers && |r.lists| == |s.lists|
  {
    hide Good, AddedTimeout;
    var f := s.flags[e];
    var wants := e.io && !f.inserted && !f.active && !f.later;
    if wants && ioResult == -1 then s
    else
      var a := if wants then GoodInserted(s, e, true); InsertInserted(s, e) else s;
      if tv.NoTimeout? then a else AddedTimeout(a, e, tv.deadline, tv.common)
  }
}
