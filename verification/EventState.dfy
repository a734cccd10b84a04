/** The state of an event base as a value: queues, flags and counters, and what the source's queue functions make
    of it. */
module EventState {
  import opened Common

  const NO_LIST := -1

  /** `struct event`: its `EVLIST` flags, whether it is active because of a timeout, its deadline in microseconds, and
      the common-timeout list that the deadline's magic bits name. */
  class Event {
    var inserted: bool
    var active: bool
    var later: bool
    var timeout: bool
    var resTimeout: bool
    var deadline: int
    var common: int
    const io: bool
    const internal: bool
    const pri: nat

    constructor (io: bool, internal: bool, pri: nat)
      ensures this.io == io && this.internal == internal && this.pri == pri
      ensures !inserted && !active && !later && !timeout && !resTimeout && deadline == 0 && common == NO_LIST
    {
      inserted, active, later, timeout, resTimeout, deadline, common := false, false, false, false, false, 0, NO_LIST;
      this.io, this.internal, this.pri := io, internal, pri;
    }
  }

  datatype Flags = Flags(inserted: bool, active: bool, later: bool, timeout: bool, resTimeout: bool, deadline: int,
                         common: int)

  datatype State = State(flags: map<Event, Flags>, active: seq<seq<Event>>, later: seq<Event>, heap: set<Event>,
                         lists: seq<seq<Event>>, timers: seq<Event>, count: int, activeCount: int)

  // ---- The invariant

  ghost predicate Within(q: seq<Event>, flags: map<Event, Flags>) {
    forall e :: e in q ==> e in flags
  }

  ghost predicate Sorted(q: seq<Event>, flags: map<Event, Flags>)
    requires Within(q, flags)
  {
    forall i, j :: 0 <= i < j < |q| ==> flags[q[i]].deadline <= flags[q[j]].deadline
  }

  ghost function TotalLength(qs: seq<seq<Event>>): nat {
    if qs == [] then 0 else |qs[0]| + TotalLength(qs[1..])
  }

  /** The queues hold the event exactly as its flags say. */
  ghost predicate Placed(s: State, e: Event)
    requires e in s.flags
  {
    var f := s.flags[e];
    && e.pri < |s.active| && NO_LIST <= f.common < |s.lists|
    && !(f.active && f.later)
    && (f.later <==> e in s.later)
    && (f.timeout && f.common == NO_LIST <==> e in s.heap)
    && (forall q :: 0 <= q < |s.active| ==> (e in s.active[q] <==> f.active && q == e.pri))
    && (forall i :: 0 <= i < |s.lists| ==> (e in s.lists[i] <==> f.timeout && i == f.common))
  }

  ghost predicate AllPlaced(s: State) {
    forall e :: e in s.flags ==> Placed(s, e)
  }

  /** The queues hold events of the base, each once, and the common-timeout lists are in order. */
  ghost predicate Queued(s: State) {
    && s.heap <= s.flags.Keys
    && Within(s.later, s.flags) && NoDuplicates(s.later)
    && (forall q :: 0 <= q < |s.active| ==> Within(s.active[q], s.flags) && NoDuplicates(s.active[q]))
    && (forall i :: 0 <= i < |s.lists| ==>
          Within(s.lists[i], s.flags) && NoDuplicates(s.lists[i]) && Sorted(s.lists[i], s.flags))
  }

  predicate IsInserted(f: Flags) { f.inserted }

  predicate IsTimed(f: Flags) { f.timeout }

  predicate IsActivated(f: Flags) { f.active || f.later }

  /** The events, without the internal ones, of which `p` holds. */
  ghost function Members(flags: map<Event, Flags>, p: Flags -> bool): set<Event> {
    set e | e in flags && !e.internal && p(flags[e])
  }

  ghost function Sum(flags: map<Event, Flags>): int {
    |Members(flags, IsInserted)| + |Members(flags, IsTimed)| + |Members(flags, IsActivated)|
  }

  /** `event_count` counts memberships of events that are not internal; `event_count_active` is the length of the
      active queues and the later queue. */
  ghost predicate Counted(s: State) {
    && s.count == Sum(s.flags)
    && s.activeCount == TotalLength(s.active) + |s.later|
  }

  /** Each common-timeout list has an internal timer of its own. */
  ghost predicate Timers(s: State) {
    && |s.timers| == |s.lists| && NoDuplicates(s.timers)
    && forall i :: 0 <= i < |s.timers| ==>
         && s.timers[i] in s.flags && s.timers[i].internal && !s.timers[i].io
         && s.flags[s.timers[i]].common == NO_LIST && !s.flags[s.timers[i]].later
  }

  ghost predicate Good(s: State) {
    AllPlaced(s) && Queued(s) && Counted(s) && Timers(s)
  }

  // ---- The queue functions

  /** What the count changes by for an event. */
  function Weight(e: Event): int {
    if e.internal then 0 else 1
  }

  function Removed(q: seq<Event>, e: Event): (r: seq<Event>)
    requires e in q
    ensures |r| == |q| - 1
  {
    if q[0] == e then q[1..] else
      assert q == [q[0]] + q[1..];
      [q[0]] + Removed(q[1..], e)
  }

  function InsertInserted(s: State, e: Event): State
    requires e in s.flags
  {
    s.(flags := s.flags[e := s.flags[e].(inserted := true)], count := s.count + Weight(e))
  }

  function RemoveInserted(s: State, e: Event): State
    requires e in s.flags
  {
    s.(flags := s.flags[e := s.flags[e].(inserted := false)], count := s.count - Weight(e))
  }

  function InsertActive(s: State, e: Event): State
    requires e in s.flags && e.pri < |s.active|
  {
    if s.flags[e].active then s
    else s.(flags := s.flags[e := s.flags[e].(active := true)], count := s.count + Weight(e),
            activeCount := s.activeCount + 1, active := s.active[e.pri := s.active[e.pri] + [e]])
  }

  function RemoveActive(s: State, e: Event): State
    requires e in s.flags && e.pri < |s.active| && e in s.active[e.pri]
  {
    s.(flags := s.flags[e := s.flags[e].(active := false)], count := s.count - Weight(e),
       activeCount := s.activeCount - 1, active := s.active[e.pri := Removed(s.active[e.pri], e)])
  }

  function InsertActiveLater(s: State, e: Event): State
    requires e in s.flags
  {
    if s.flags[e].later || s.flags[e].active then s
    else s.(flags := s.flags[e := s.flags[e].(later := true)], count := s.count + Weight(e),
            activeCount := s.activeCount + 1, later := s.later + [e])
  }

  function RemoveActiveLater(s: State, e: Event): State
    requires e in s.flags && e in s.later
  {
    s.(flags := s.flags[e := s.flags[e].(later := false)], count := s.count - Weight(e),
       activeCount := s.activeCount - 1, later := Removed(s.later, e))
  }

  /** Inserted after the last event that is not due later, looking from the end. */
  function InsertInOrder(q: seq<Event>, e: Event, deadline: int, flags: map<Event, Flags>): seq<Event>
    requires forall x :: x in q ==> x in flags
  {
    if q == [] || deadline >= flags[q[|q| - 1]].deadline then q + [e]
    else InsertInOrder(q[..|q| - 1], e, deadline, flags) + [q[|q| - 1]]
  }

  function InsertTimeout(s: State, e: Event): State
    requires e in s.flags && s.flags[e].common < |s.lists|
    requires s.flags[e].common >= 0 ==> forall x :: x in s.lists[s.flags[e].common] ==> x in s.flags
  {
    var f := s.flags[e];
    var t := s.(flags := s.flags[e := f.(timeout := true)], count := s.count + Weight(e));
    if f.common >= 0 then t.(lists := s.lists[f.common := InsertInOrder(s.lists[f.common], e, f.deadline, s.flags)])
    else t.(heap := s.heap + {e})
  }

  function RemoveTimeout(s: State, e: Event): State
    requires e in s.flags && s.flags[e].common < |s.lists|
    requires s.flags[e].common >= 0 ==> e in s.lists[s.flags[e].common]
  {
    var f := s.flags[e];
    var t := s.(flags := s.flags[e := f.(timeout := false)], count := s.count - Weight(e));
    if f.common >= 0 then t.(lists := s.lists[f.common := Removed(s.lists[f.common], e)])
    else t.(heap := s.heap - {e})
  }

  /** A new deadline, for an event that is not waiting for one. */
  function SetDeadline(s: State, e: Event, deadline: int, common: int): State
    requires e in s.flags
  {
    s.(flags := s.flags[e := s.flags[e].(deadline := deadline, common := common)])
  }

  function SetResult(s: State, e: Event, resTimeout: bool): State
    requires e in s.flags
  {
    s.(flags := s.flags[e := s.flags[e].(resTimeout := resTimeout)])
  }

  // ---- They keep the invariant

  lemma {:induction false} RemovedIn(q: seq<Event>, e: Event)
    requires e in q && NoDuplicates(q)
    ensures NoDuplicates(Removed(q, e)) && forall x :: x in Removed(q, e) <==> x in q && x != e
  {
    assert q == [q[0]] + q[1..];
    if q[0] != e {
      RemovedIn(q[1..], e);
      assert q[0] !in q[1..];
    } else {
      assert forall x :: x in q[1..] ==> x != e;
    }
  }

  lemma AppendedIn(q: seq<Event>, e: Event)
    requires e !in q && NoDuplicates(q)
    ensures NoDuplicates(q + [e]) && forall x :: x in q + [e] <==> x in q || x == e
  {
  }

  lemma {:induction false} RemovedSorted(q: seq<Event>, e: Event, flags: map<Event, Flags>)
    requires e in q && Within(q, flags) && Sorted(q, flags)
    ensures Within(Removed(q, e), flags) && Sorted(Removed(q, e), flags)
    ensures Removed(q, e) != [] ==> flags[q[0]].deadline <= flags[Removed(q, e)[0]].deadline
  {
    var i := RemovedAt(q, e);
    var r := Removed(q, e);
    forall j | 0 <= j < |r| ensures r[j] == q[if j < i then j else j + 1] {
    }
  }

  /** `TAILQ_REMOVE` cuts out one place and keeps the order of the rest. */
  lemma {:induction false} RemovedAt(q: seq<Event>, e: Event) returns (i: nat)
    requires e in q
    ensures i < |q| && q[i] == e && Removed(q, e) == q[..i] + q[i + 1..]
  {
    assert q == [q[0]] + q[1..];
    if q[0] == e {
      i := 0;
    } else {
      var k := RemovedAt(q[1..], e);
      i := k + 1;
      assert q[..i] == [q[0]] + q[1..][..k] && q[i + 1..] == q[1..][i..];
    }
  }

  lemma {:induction false} TotalChanges(qs: seq<seq<Event>>, k: nat, q: seq<Event>)
    requires k < |qs|
    ensures TotalLength(qs[k := q]) == TotalLength(qs) - |qs[k]| + |q|
  {
    if k == 0 {
      assert qs[0 := q][1..] == qs[1..];
    } else {
      assert qs[k := q][1..] == qs[1..][k - 1 := q];
      TotalChanges(qs[1..], k - 1, q);
    }
  }

  /** Where an event goes: after everything that is not due later. */
  lemma {:induction false} InOrderAt(q: seq<Event>, e: Event, d: int, flags: map<Event, Flags>) returns (i: nat)
    requires Within(q, flags) && Sorted(q, flags)
    ensures i <= |q| && InsertInOrder(q, e, d, flags) == q[..i] + [e] + q[i..]
    ensures forall k :: 0 <= k < i ==> flags[q[k]].deadline <= d
    ensures forall k :: i <= k < |q| ==> d < flags[q[k]].deadline
    decreases |q|
  {
    if q == [] || d >= flags[q[|q| - 1]].deadline {
      i := |q|;
      NoneLater(q, d, flags);
      assert q[..i] == q && q[i..] == [];
    } else {
      var n := |q| - 1;
      SortedPrefix(q, n, flags);
      i := InOrderAt(q[..n], e, d, flags);
      InitAt(q, i);
    }
  }

  lemma InitAt(q: seq<Event>, i: nat)
    requires q != [] && i <= |q| - 1
    ensures var init := q[..|q| - 1];
      && init[..i] == q[..i] && init[i..] + [q[|q| - 1]] == q[i..] && forall k :: 0 <= k < |init| ==> init[k] == q[k]
  {
  }

  lemma NoneLater(q: seq<Event>, d: int, flags: map<Event, Flags>)
    requires Within(q, flags) && Sorted(q, flags) && (q == [] || d >= flags[q[|q| - 1]].deadline)
    ensures forall k :: 0 <= k < |q| ==> flags[q[k]].deadline <= d
  {
    forall k | 0 <= k < |q| ensures flags[q[k]].deadline <= d {
      assert k == |q| - 1 || flags[q[k]].deadline <= flags[q[|q| - 1]].deadline;
    }
  }

  lemma SortedPrefix(q: seq<Event>, n: nat, flags: map<Event, Flags>)
    requires Within(q, flags) && Sorted(q, flags) && n <= |q|
    ensures Within(q[..n], flags) && Sorted(q[..n], flags)
  {
    assert forall k :: 0 <= k < n ==> q[..n][k] == q[k];
  }

  lemma InOrder(q: seq<Event>, e: Event, flags: map<Event, Flags>, now: map<Event, Flags>, i: nat, r: seq<Event>)
    requires Within(q, flags) && Sorted(q, flags) && NoDuplicates(q) && e !in q && e in now
    requires forall x :: x in q ==> x in now && now[x].deadline == flags[x].deadline
    requires i <= |q| && r == q[..i] + [e] + q[i..]
    requires forall k :: 0 <= k < i ==> flags[q[k]].deadline <= now[e].deadline
    requires forall k :: i <= k < |q| ==> now[e].deadline < flags[q[k]].deadline
    ensures Within(r, now) && Sorted(r, now) && NoDuplicates(r) && forall x :: x in r <==> x in q || x == e
  {
    assert |r| == |q| + 1;
    assert forall j :: 0 <= j < |r| ==> r[j] == if j < i then q[j] else if j == i then e else q[j - 1];
    assert forall j :: 0 <= j < |q| ==> q[j] == if j < i then r[j] else r[j + 1];
    assert r[i] == e;
    forall x ensures x in r <==> x in q || x == e {
    }
    forall j, k | 0 <= j < k < |r| ensures r[j] != r[k] && now[r[j]].deadline <= now[r[k]].deadline {
      assert r[j] in r && r[k] in r;
    }
  }

  // ---- Counting

  /** How many of the three memberships an event has. */
  function Memberships(f: Flags): int {
    B2I(f.inserted) + B2I(f.timeout) + B2I(f.active || f.later)
  }

  lemma InMembers(flags: map<Event, Flags>, p: Flags -> bool, e: Event)
    ensures e in Members(flags, p) <==> e in flags && !e.internal && p(flags[e])
  {
  }

  lemma MembersChange(flags: map<Event, Flags>, e: Event, f: Flags, p: Flags -> bool)
    requires e in flags
    ensures |Members(flags[e := f], p)| == |Members(flags, p)| + Weight(e) * (B2I(p(f)) - B2I(p(flags[e])))
  {
    hide Members;
    var s, t := Members(flags, p), Members(flags[e := f], p);
    var on := !e.internal && p(f);
    forall x: Event ensures x in t <==> if x == e then on else x in s {
      InMembers(flags, p, x);
      InMembers(flags[e := f], p, x);
    }
    InMembers(flags, p, e);
    SetChange(s, t, e, on);
  }

  lemma SetChange(s: set<Event>, t: set<Event>, e: Event, on: bool)
    requires forall x: Event :: x in t <==> if x == e then on else x in s
    ensures |t| == |s| - B2I(e in s) + B2I(on)
  {
    assert t == if on then s + {e} else s - {e};
  }

  lemma SumChange(flags: map<Event, Flags>, e: Event, f: Flags)
    requires e in flags
    ensures Sum(flags[e := f]) == Sum(flags) + Weight(e) * (Memberships(f) - Memberships(flags[e]))
  {
    hide Members;
    MembersChange(flags, e, f, IsInserted);
    MembersChange(flags, e, f, IsTimed);
    MembersChange(flags, e, f, IsActivated);
  }

  // ---- The queue functions keep the invariant

  /** The queues of `t` hold the same events as those of `s`, except for `e`. */
  ghost predicate SameFor(s: State, t: State, e: Event) {
    && |t.active| == |s.active| && |t.lists| == |s.lists|
    && (forall x :: x in s.flags && x != e ==> (x in s.later <==> x in t.later) && (x in s.heap <==> x in t.heap))
    && (forall x, q :: x in s.flags && x != e && 0 <= q < |s.active| ==> (x in s.active[q] <==> x in t.active[q]))
    && (forall x, i :: x in s.flags && x != e && 0 <= i < |s.lists| ==> (x in s.lists[i] <==> x in t.lists[i]))
  }

  lemma PlacedFrame(s: State, t: State, e: Event, f: Flags)
    requires AllPlaced(s) && e in s.flags && t.flags == s.flags[e := f] && SameFor(s, t, e) && Placed(t, e)
    ensures AllPlaced(t)
  {
    forall x | x in t.flags ensures Placed(t, x) {
      assert Placed(s, x);
    }
  }

  /** Other flags than the deadline do not matter to the order. */
  lemma QueuedFlags(s: State, e: Event, f: Flags)
    requires Queued(s) && e in s.flags
    requires f.deadline == s.flags[e].deadline || forall i :: 0 <= i < |s.lists| ==> e !in s.lists[i]
    ensures Queued(s.(flags := s.flags[e := f]))
  {
  }

  lemma TimersFlags(s: State, e: Event, f: Flags)
    requires Timers(s) && e in s.flags
    requires e in s.timers ==> f.common == NO_LIST && !f.later
    ensures Timers(s.(flags := s.flags[e := f]))
  {
  }

  lemma GoodInserted(s: State, e: Event, on: bool)
    requires Good(s) && e in s.flags && s.flags[e].inserted != on
    ensures Good(if on then InsertInserted(s, e) else RemoveInserted(s, e))
  {
    var t := if on then InsertInserted(s, e) else RemoveInserted(s, e);
    hide Queued, Timers, Sum;
    SumChange(s.flags, e, t.flags[e]);
    QueuedFlags(s, e, t.flags[e]);
    TimersFlags(s, e, t.flags[e]);
    assert Placed(s, e);
    PlacedFrame(s, t, e, t.flags[e]);
    Regroup(s, t);
  }

  /** The invariant looks at the counters in one place only. */
  lemma Regroup(s: State, t: State)
    requires t == s.(flags := t.flags, count := t.count)
    ensures Queued(s.(flags := t.flags)) <==> Queued(t)
    ensures Timers(s.(flags := t.flags)) <==> Timers(t)
  {
  }

  lemma GoodActive(s: State, e: Event, on: bool)
    requires Good(s) && e in s.flags && !s.flags[e].later && s.flags[e].active != on
    ensures e.pri < |s.active| && (e in s.active[e.pri] <==> !on)
    ensures Good(if on then InsertActive(s, e) else RemoveActive(s, e))
  {
    hide Sum, Timers, Sorted, NoDuplicates;
    assert Placed(s, e);
    var t := if on then InsertActive(s, e) else RemoveActive(s, e);
    var q, r := s.active[e.pri], t.active[e.pri];
    SumChange(s.flags, e, t.flags[e]);
    TotalChanges(s.active, e.pri, r);
    TimersCommon(s, e);
    TimersFlags(s, e, t.flags[e]);
    assert Timers(t) by { TimersSame(s.(flags := t.flags), t); }
    if on { AppendedIn(q, e); } else { RemovedIn(q, e); }
    PlacedFrame(s, t, e, t.flags[e]);
    QueuedFlags(s, e, t.flags[e]);
    QueuedActive(s.(flags := t.flags), t, e.pri);
  }

  lemma TimersSame(s: State, t: State)
    requires Timers(s) && t.flags == s.flags && t.timers == s.timers && |t.lists| == |s.lists|
    ensures Timers(t)
  {
  }

  lemma QueuedActive(s: State, t: State, k: nat)
    requires Queued(s) && k < |s.active| && |t.active| == |s.active|
    requires Within(t.active[k], s.flags) && NoDuplicates(t.active[k])
    requires t == s.(active := s.active[k := t.active[k]], count := t.count, activeCount := t.activeCount)
    ensures Queued(t)
  {
    hide Sorted, NoDuplicates, Within;
  }

  lemma GoodLater(s: State, e: Event, on: bool)
    requires Good(s) && e in s.flags && !s.flags[e].active && s.flags[e].later != on && (on ==> e !in s.timers)
    ensures (e in s.later <==> !on) && Good(if on then InsertActiveLater(s, e) else RemoveActiveLater(s, e))
  {
    hide Sum, Timers, Sorted, NoDuplicates;
    assert Placed(s, e);
    var t := if on then InsertActiveLater(s, e) else RemoveActiveLater(s, e);
    var q, r := s.later, t.later;
    SumChange(s.flags, e, t.flags[e]);
    assert e !in s.timers by { TimersLater(s); }
    TimersFlags(s, e, t.flags[e]);
    assert Timers(t) by { TimersSame(s.(flags := t.flags), t); }
    if on { AppendedIn(q, e); } else { RemovedIn(q, e); }
    PlacedFrame(s, t, e, t.flags[e]);
    QueuedFlags(s, e, t.flags[e]);
  }

  lemma TimersLater(s: State)
    requires Timers(s)
    ensures forall e :: e in s.timers ==> e in s.flags && !s.flags[e].later
  {
  }

  lemma GoodResult(s: State, e: Event, res: bool)
    requires Good(s) && e in s.flags
    ensures Good(SetResult(s, e, res))
  {
    var t := SetResult(s, e, res);
    hide Queued, Timers, Sum;
    SumChange(s.flags, e, t.flags[e]);
    TimersLater(s);
    QueuedFlags(s, e, t.flags[e]);
    TimersCommon(s, e);
    TimersFlags(s, e, t.flags[e]);
    assert Placed(s, e);
    PlacedFrame(s, t, e, t.flags[e]);
  }

  lemma TimersCommon(s: State, e: Event)
    requires Timers(s)
    ensures e in s.timers ==> e in s.flags && s.flags[e].common == NO_LIST && !s.flags[e].later
  {
  }

  lemma GoodDeadline(s: State, e: Event, deadline: int, common: int)
    requires Good(s) && e in s.flags && !s.flags[e].timeout && NO_LIST <= common < |s.lists|
    requires e in s.timers ==> common == NO_LIST
    ensures Good(SetDeadline(s, e, deadline, common))
  {
    var t := SetDeadline(s, e, deadline, common);
    hide Queued, Timers, Sum;
    SumChange(s.flags, e, t.flags[e]);
    assert Placed(s, e);
    QueuedFlags(s, e, t.flags[e]);
    TimersCommon(s, e);
    TimersFlags(s, e, t.flags[e]);
    PlacedFrame(s, t, e, t.flags[e]);
  }

  lemma GoodTimeout(s: State, e: Event)
    requires Good(s) && e in s.flags && !s.flags[e].timeout
    ensures s.flags[e].common < |s.lists|
    ensures s.flags[e].common >= 0 ==> forall x :: x in s.lists[s.flags[e].common] ==> x in s.flags
    ensures Good(InsertTimeout(s, e))
  {
    hide Sum, Timers;
    assert Placed(s, e);
    var c := s.flags[e].common;
    var t := InsertTimeout(s, e);
    SumChange(s.flags, e, t.flags[e]);
    TimersCommon(s, e);
    TimersFlags(s, e, t.flags[e]);
    assert Timers(t) by { TimersSame(s.(flags := t.flags), t); }
    QueuedFlags(s, e, t.flags[e]);
    if c >= 0 {
      var q := s.lists[c];
      var i := InOrderAt(q, e, s.flags[e].deadline, s.flags);
      InOrder(q, e, s.flags, t.flags, i, t.lists[c]);
      PlacedFrame(s, t, e, t.flags[e]);
      QueuedList(s.(flags := t.flags), t, c);
    } else {
      PlacedFrame(s, t, e, t.flags[e]);
    }
  }

  lemma QueuedList(s: State, t: State, k: nat)
    requires Queued(s) && k < |s.lists| && |t.lists| == |s.lists| && Within(t.lists[k], s.flags)
    requires NoDuplicates(t.lists[k]) && Sorted(t.lists[k], s.flags)
    requires t == s.(lists := s.lists[k := t.lists[k]], count := t.count, activeCount := t.activeCount)
    ensures Queued(t)
  {
    hide Sorted, NoDuplicates, Within;
  }

  lemma GoodNoTimeout(s: State, e: Event)
    requires Good(s) && e in s.flags && s.flags[e].timeout
    ensures s.flags[e].common < |s.lists| && (s.flags[e].common >= 0 ==> e in s.lists[s.flags[e].common])
    ensures Good(RemoveTimeout(s, e))
  {
    hide Sum, Timers;
    assert Placed(s, e);
    var c := s.flags[e].common;
    var t := RemoveTimeout(s, e);
    SumChange(s.flags, e, t.flags[e]);
    TimersCommon(s, e);
    TimersFlags(s, e, t.flags[e]);
    assert Timers(t) by { TimersSame(s.(flags := t.flags), t); }
    QueuedFlags(s, e, t.flags[e]);
    if c >= 0 {
      var q := s.lists[c];
      RemovedIn(q, e);
      RemovedSorted(q, e, t.flags);
      PlacedFrame(s, t, e, t.flags[e]);
      QueuedList(s.(flags := t.flags), t, c);
    } else {
      PlacedFrame(s, t, e, t.flags[e]);
    }
  }
}
