/** Every run of an event base: expiry, the queues' processing, and what all reachable states have in common. */
module EventRun {
  import opened Common
  import opened EventState
  import opened EventOrder
  import opened EventSteps
  import opened EventMeaning
  import opened EventTimers

  // ---- Expiry

  /** Active for a timeout, and on no other queue. */
  function FiredFlags(f: Flags): Flags {
    f.(inserted := false, timeout := false, active := true, later := false, resTimeout := true)
  }

  /** An event whose time has come is deleted and activated. */
  ghost function Fired(s: State, e: Event): (r: State)
    requires Good(s) && e in s.flags
    ensures Good(r) && Only(s, r, e)
    ensures r.flags[e] == FiredFlags(s.flags[e])
    ensures r.lists == Untimed(s, e).lists && r.heap == Untimed(s, e).heap
  {
    hide Good, Deleted, Activated, Untimed;
    DeletedFlags(s, e);
    ActivatedFlags(Deleted(s, e), e, true);
    Activated(Deleted(s, e), e, true)
  }

  lemma FiredReady(s: State, e: Event, running: set<Event>, k: int)
    requires Good(s) && e in s.flags && ReadyBut(s, running, k)
    ensures ReadyBut(Fired(s, e), running, k)
  {
    hide Good, Deleted, Activated, Untimed;
    var r := Fired(s, e);
    if e in s.timers {
      AboutEvent(s, e);
      UntimedHeads(s, e);
      forall i | 0 <= i < |r.lists| && i != k ensures Ready(r, running, i) {
        AboutTimer(s, i);
        AboutTimer(r, i);
        assert Ready(s, running, i);
        if s.lists[i] != [] { assert s.lists[i][0] in s.lists[i]; }
      }
    } else {
      DeletedFlags(s, e);
      DeletedReady(s, e, running, k);
      ActivatedReady(Deleted(s, e), e, true, running, k);
    }
  }

  /** The loop of `common_timeout_callback`: the list's events that are due fire, from the first on. */
  ghost function Expired(s: State, i: nat, now: int): (r: State)
    requires Good(s) && i < |s.lists|
    ensures Good(r) && r.timers == s.timers && |r.lists| == |s.lists| && r.flags.Keys == s.flags.Keys
    decreases |s.lists[i]|
  {
    hide Good, Fired;
    if s.lists[i] == [] then s
    else
      FirstOut(s, i);
      var e := s.lists[i][0];
      if s.flags[e].deadline > now then s else Expired(Fired(s, e), i, now)
  }

  /** The first event of a list leaves it when it fires, and no other. */
  lemma FirstOut(s: State, i: nat)
    requires Good(s) && i < |s.lists| && s.lists[i] != []
    ensures s.lists[i][0] in s.flags && s.lists[i][0] !in s.timers
    ensures Fired(s, s.lists[i][0]).lists == s.lists[i := s.lists[i][1..]]
    ensures s.lists[i][0] !in s.lists[i][1..] && forall x :: x in s.lists[i] ==> x in s.flags
    ensures s.lists[i][0] !in s.heap
  {
    var e := s.lists[i][0];
    ListGood(s, i);
    assert e in s.lists[i];
    assert Placed(s, e);
    AboutEvent(s, e);
    assert forall j :: 1 <= j < |s.lists[i]| ==> s.lists[i][j] != e;
  }

  /** A fired event has left its place and is the last of its active queue. */
  lemma FiredMeans(s: State, e: Event)
    requires Good(s) && e in s.flags
    ensures var r := Fired(s, e);
      ActiveThen(s, r, {e}, [e]) && r.later == Kept(s.later, {e}) && ListsKept(s, r, {e}) && r.heap == s.heap - {e}
  {
    hide Good, Deleted, Activated, Kept, Untimed, OfPri;
    DeletedMeans(s, e);
    var d := Deleted(s, e);
    ActivatedMeans(d, e, true);
    KeptTwice(s.later, {e}, {e});
    assert {e} + {e} == {e};
    var r := Fired(s, e);
    forall k | 0 <= k < |s.active| ensures r.active[k] == Kept(s.active[k], {e}) + OfPri([e], k) {
      OfPriOne(e, k);
    }
  }

  /** From s to r exactly the first k events of the list fired: those that are due. They follow, in that order, what
      is left of the active queues; nothing else changed. */
  ghost predicate FirstFired(s: State, r: State, i: nat, now: int, k: nat) {
    && i < |s.lists|
    && var q := s.lists[i];
    && k <= |q| && r.lists == s.lists[i := q[k..]] && r.timers == s.timers && r.flags.Keys == s.flags.Keys
    && (forall x :: x in q ==> x in s.flags)
    && (forall j :: 0 <= j < k ==> s.flags[q[j]].deadline <= now)
    && (forall j :: k <= j < |q| ==> s.flags[q[j]].deadline > now)
    && (forall x :: x in q[..k] ==> r.flags[x] == FiredFlags(s.flags[x]))
    && (forall x :: x in s.flags && x !in q[..k] ==> r.flags[x] == s.flags[x])
    && ActiveThen(s, r, Events(q[..k]), q[..k]) && r.later == Kept(s.later, Events(q[..k])) && r.heap == s.heap
  }

  lemma NoneGone(s: State, q: seq<Event>)
    ensures q[..0] == [] && Events([]) == {} && ActiveThen(s, s, {}, []) && s.later == Kept(s.later, {})
  {
    ActiveStays(s, {});
    NothingCame(s, s, {});
    KeptAll(s.later, {});
  }

  lemma TailCut(q: seq<Event>, n: nat)
    requires n < |q|
    ensures q[1..][n..] == q[n + 1..]
    ensures forall x :: x in q[..n + 1] <==> x == q[0] || x in q[1..][..n]
    ensures [q[0]] + q[1..][..n] == q[..n + 1]
  {
    assert q[..n + 1] == [q[0]] + q[1..][..n];
  }

  /** One event more, when the first one fired before the others. */
  lemma FiredBefore(s: State, t: State, r: State, i: nat, now: int, n: nat)
    requires i < |s.lists| && s.lists[i] != [] && t.lists == s.lists[i := s.lists[i][1..]] && t.timers == s.timers
    requires forall x :: x in s.lists[i] ==> x in s.flags
    requires s.lists[i][0] !in s.lists[i][1..] && s.flags[s.lists[i][0]].deadline <= now
    requires Only(s, t, s.lists[i][0]) && t.flags[s.lists[i][0]] == FiredFlags(s.flags[s.lists[i][0]])
    requires ActiveThen(s, t, {s.lists[i][0]}, [s.lists[i][0]]) && t.later == Kept(s.later, {s.lists[i][0]})
    requires t.heap == s.heap && FirstFired(t, r, i, now, n)
    ensures FirstFired(s, r, i, now, n + 1)
  {
    hide Kept, OfPri, ActiveThen;
    var q := s.lists[i];
    TailCut(q, n);
    ActiveThenTwice(s, t, r, {q[0]}, [q[0]], Events(q[1..][..n]), q[1..][..n]);
    KeptTwice(s.later, {q[0]}, Events(q[1..][..n]));
    assert {q[0]} + Events(q[1..][..n]) == Events(q[..n + 1]);
    forall j | 1 <= j < |q| ensures s.flags[q[j]].deadline <= now <==> j <= n {
      assert q[j] == q[1..][j - 1];
    }
  }

  /** The callback fires exactly the events of the list that are due, in order, and touches nothing else. */
  lemma {:induction false} ExpiredExact(s: State, i: nat, now: int) returns (k: nat)
    requires Good(s) && i < |s.lists|
    ensures FirstFired(s, Expired(s, i, now), i, now, k)
    decreases |s.lists[i]|
  {
    hide Good, Fired, Kept, OfPri, ActiveThen;
    var q := s.lists[i];
    NoneGone(s, q);
    if q == [] {
      k := 0;
    } else {
      FirstOut(s, i);
      if s.flags[q[0]].deadline > now {
        k := 0;
        ListGood(s, i);
      } else {
        var n := ExpiredExact(Fired(s, q[0]), i, now);
        k := n + 1;
        FiredMeans(s, q[0]);
        FiredBefore(s, Fired(s, q[0]), Expired(s, i, now), i, now, n);
      }
    }
  }

  lemma {:induction false} ExpiredReady(s: State, i: nat, now: int, running: set<Event>, k: int)
    requires Good(s) && i < |s.lists| && ReadyBut(s, running, k)
    ensures ReadyBut(Expired(s, i, now), running, k)
    decreases |s.lists[i]|
  {
    hide Good, Fired, ReadyBut;
    if s.lists[i] != [] {
      FirstOut(s, i);
      var e := s.lists[i][0];
      if s.flags[e].deadline <= now {
        FiredReady(s, e, running, k);
        ExpiredReady(Fired(s, e), i, now, running, k);
      }
    }
  }

  /** `common_timeout_callback`: when events are left, the timer is set for the first of them. */
  ghost function CalledBack(s: State, i: nat, now: int): (r: State)
    requires Good(s) && i < |s.lists|
    ensures Good(r) && r.timers == s.timers && r.flags.Keys == s.flags.Keys && |r.lists| == |s.lists|
  {
    hide Good, Expired, Scheduled;
    var a := Expired(s, i, now);
    if a.lists[i] != [] then Scheduled(a, i) else a
  }

  /** What `common_timeout_callback` does: of list i exactly the first k events, those that are due, have fired; they
      are active for a timeout, on no other queue, and follow what is left of their active queues in that order.  When
      events are left, the list's timer waits for the first of them. */
  ghost predicate Expiry(s: State, r: State, i: nat, now: int, k: nat) {
    && i < |s.lists| == |s.timers| && s.timers[i] in s.flags
    && var q, t := s.lists[i], s.timers[i];
    && k <= |q| && r.lists == s.lists[i := q[k..]] && r.timers == s.timers && r.flags.Keys == s.flags.Keys
    && (forall x :: x in q ==> x in s.flags && x != t)
    && (forall j :: 0 <= j < k ==> s.flags[q[j]].deadline <= now)
    && (forall j :: k <= j < |q| ==> s.flags[q[j]].deadline > now)
    && (forall x :: x in q[..k] ==>
          r.flags[x] == s.flags[x].(inserted := false, active := true, later := false, timeout := false,
                                    resTimeout := true))
    && (forall x :: x in s.flags && x !in q[..k] && x != t ==> r.flags[x] == s.flags[x])
    && var left, g := k < |q|, s.flags[t];
    && r.flags[t] == (if left then
                        g.(active := g.active && !g.resTimeout, timeout := true, deadline := s.flags[q[k]].deadline)
                      else g)
    && ActiveThen(s, r, Events(q[..k]) + if left then Withdrawn(g, t) else {}, q[..k])
    && r.later == Kept(s.later, Events(q[..k]))
    && r.heap == s.heap + if left then {t} else {}
  }

  lemma CalledBackMeans(s: State, i: nat, now: int) returns (k: nat)
    requires Good(s) && i < |s.lists|
    ensures Expiry(s, CalledBack(s, i, now), i, now, k)
  {
    hide Good, Expired, Scheduled, Kept, OfPri, ActiveThen, ActiveKept;
    AboutTimer(s, i);
    k := ExpiredExact(s, i, now);
    var a, r, q, t := Expired(s, i, now), CalledBack(s, i, now), s.lists[i], s.timers[i];
    assert t !in q;
    if k < |q| {
      assert a.lists[i][0] == q[k];
      ScheduledMeans(a, i);
      NothingCame(a, r, Withdrawn(a.flags[t], t));
      ActiveThenTwice(s, a, r, Events(q[..k]), q[..k], Withdrawn(a.flags[t], t), []);
      assert q[..k] + [] == q[..k];
    } else {
      assert Events(q[..k]) + {} == Events(q[..k]);
    }
  }

  /** After the callback nothing depends on its having been about to run. */
  lemma CalledBackReady(s: State, i: nat, now: int, running: set<Event>)
    requires Good(s) && i < |s.lists| && Watched(s, running)
    ensures i < |s.timers| && Watched(CalledBack(s, i, now), running - {s.timers[i]})
  {
    hide Good, Expired, Scheduled;
    AboutTimer(s, i);
    ExpiredReady(s, i, now, running, -1);
    var a := Expired(s, i, now);
    var less := running - {s.timers[i]};
    forall j | 0 <= j < |a.lists| && (j != i || a.lists[i] == []) ensures Ready(a, less, j) {
      AboutTimer(a, j);
      AboutTimer(a, i);
      assert Ready(a, running, j);
    }
    if a.lists[i] != [] { ScheduledReady(a, i, less); }
  }

  // ---- Processing the active queues

  /** The start of an active event's turn: a persistent event leaves its queue, another one is deleted. */
  ghost function Dequeued(s: State, e: Event, persist: bool): (r: State)
    requires Good(s) && e in s.flags && s.flags[e].active
    ensures Good(r) && Only(s, r, e)
  {
    hide Good, Deleted, OutOfActive;
    DeletedFlags(s, e);
    if persist then OutOfActive(s, e) else Deleted(s, e)
  }

  /** What the start of a turn does: the event leaves its active queue.  A persistent one stays what it was otherwise;
      another one has no timeout any more and the event map has forgotten it. */
  ghost predicate TurnStart(s: State, r: State, e: Event, persist: bool) {
    && Only(s, r, e) && e.pri < |s.active| && r.later == s.later
    && r.flags[e] == (if persist then s.flags[e].(active := false)
                      else s.flags[e].(inserted := false, active := false, timeout := false))
    && r.active == s.active[e.pri := Kept(s.active[e.pri], {e})]
    && (if persist then r.lists == s.lists && r.heap == s.heap
        else ListsKept(s, r, {e}) && r.heap == s.heap - {e})
  }

  lemma DequeuedMeans(s: State, e: Event, persist: bool)
    requires Good(s) && e in s.flags && s.flags[e].active
    ensures TurnStart(s, Dequeued(s, e, persist), e, persist)
  {
    hide Good, Deleted, Kept, Removed;
    WhereIs(s, e);
    EachOnce(s);
    DeletedMeans(s, e);
    KeptAll(s.later, {e});
    RemovedKept(s.active[e.pri], e);
    forall k | 0 <= k < |s.active| && k != e.pri ensures Kept(s.active[k], {e}) == s.active[k] {
      KeptAll(s.active[k], {e});
    }
  }

  /** The first event of a queue leaves it. */
  lemma KeptFirst(q: seq<Event>)
    requires q != [] && NoDuplicates(q)
    ensures Kept(q, {q[0]}) == q[1..]
  {
    RemovedKept(q, q[0]);
  }

  lemma DequeuedReady(s: State, e: Event, persist: bool, running: set<Event>)
    requires Good(s) && e in s.flags && s.flags[e].active && Watched(s, running)
    ensures Watched(Dequeued(s, e, persist), running + {e})
  {
    hide Good, Deleted;
    var r := Dequeued(s, e, persist);
    assert HeadsLater(s, r) by {
      DeletedFlags(s, e);
      UntimedHeads(s, e);
      AboutEvent(s, e);
      if persist { SameHeads(s, r, e); } else { HeadsTransfer(s, Untimed(s, e), r, e); }
    }
    forall i | 0 <= i < |r.lists| ensures Ready(r, running + {e}, i) {
      AboutTimer(s, i);
      AboutTimer(r, i);
      assert Ready(s, running, i);
    }
  }

  /** The first event of the later queue becomes active. */
  ghost function Promoted(s: State): (r: State)
    requires Good(s) && s.later != []
    ensures Good(r)
  {
    hide Good, OutOfLater;
    FirstLater(s);
    var a := OutOfLater(s, s.later[0]);
    AboutEvent(a, s.later[0]);
    GoodActive(a, s.later[0], true);
    InsertActive(a, s.later[0])
  }

  lemma PromotedFlags(s: State)
    requires Good(s) && s.later != []
    ensures var r, e := Promoted(s), s.later[0];
      && Only(s, r, e) && r.flags[e] == s.flags[e].(later := false, active := true)
      && r.lists == s.lists && r.heap == s.heap && r.later == s.later[1..]
      && r.active == s.active[e.pri := s.active[e.pri] + [e]] && r.count == s.count && r.activeCount == s.activeCount
  {
    hide Good, Removed;
    FirstLater(s);
    AboutEvent(OutOfLater(s, s.later[0]), s.later[0]);
  }

  lemma FirstLater(s: State)
    requires Good(s) && s.later != []
    ensures s.later[0] in s.flags && s.flags[s.later[0]].later && !s.flags[s.later[0]].active
    ensures s.later[0] in s.later && s.later[0] !in s.timers
    ensures s.later[0].pri < |s.active| && Removed(s.later, s.later[0]) == s.later[1..]
  {
    assert s.later[0] in s.later && Placed(s, s.later[0]);
    AboutEvent(s, s.later[0]);
  }

  lemma PromotedReady(s: State, running: set<Event>)
    requires Good(s) && s.later != [] && Watched(s, running)
    ensures Watched(Promoted(s), running)
  {
    hide Good, Promoted, ReadyBut;
    FirstLater(s);
    PromotedFlags(s);
    SameHeads(s, Promoted(s), s.later[0]);
    StillReady(s, Promoted(s), s.later[0], running, -1);
  }

  function NowActive(f: Flags): Flags {
    if f.later then f.(later := false, active := true) else f
  }

  /** `event_queue_make_later_events_active`. */
  ghost function AllPromoted(s: State): (r: State)
    requires Good(s)
    ensures Good(r)
    decreases |s.later|
  {
    hide Good, Promoted;
    if s.later == [] then s else PromotedFlags(s); AllPromoted(Promoted(s))
  }

  /** Every later event becomes active; the counters stay, since they count both kinds alike. */
  lemma {:induction false} AllPromotedFlags(s: State)
    requires Good(s)
    ensures var r := AllPromoted(s);
      && r.later == [] && r.lists == s.lists && r.heap == s.heap && r.count == s.count && r.activeCount == s.activeCount
      && r.flags.Keys == s.flags.Keys && r.timers == s.timers
      && forall e :: e in s.flags ==> r.flags[e] == NowActive(s.flags[e])
    decreases |s.later|
  {
    hide Good, Promoted;
    if s.later != [] {
      PromotedFlags(s);
      FirstLater(s);
      AllPromotedFlags(Promoted(s));
    } else {
      NoneLeft(s);
    }
  }

  /** The later events follow in their active queues, in order. */
  lemma {:induction false} AllPromotedOrder(s: State)
    requires Good(s)
    ensures ActiveThen(s, AllPromoted(s), {}, s.later)
    decreases |s.later|
  {
    hide Good, Promoted, Kept, OfPri;
    NoneGone(s, s.later);
    if s.later != [] {
      var e, t := s.later[0], Promoted(s);
      PromotedFlags(s);
      FirstLater(s);
      AllPromotedOrder(t);
      forall k | 0 <= k < |s.active| ensures t.active[k] == Kept(s.active[k], {}) + OfPri([e], k) {
        KeptAll(s.active[k], {});
        OfPriOne(e, k);
      }
      var none: set<Event> := {};
      ActiveThenTwice(s, t, AllPromoted(s), none, [e], none, t.later);
      assert [e] + t.later == s.later && none + none == none;
    }
  }

  lemma NoneLeft(s: State)
    requires Good(s) && s.later == []
    ensures forall e :: e in s.flags ==> !s.flags[e].later
  {
    forall e | e in s.flags ensures !s.flags[e].later {
      assert Placed(s, e);
    }
  }

  // ---- The heap

  /** What is due on the heap has fired, the earliest first, and nothing else has changed. */
  ghost predicate DueFired(s: State, r: State, now: int, fired: seq<Event>)
    requires Good(s)
  {
    && r.flags.Keys == s.flags.Keys && r.lists == s.lists && r.timers == s.timers && r.heap <= s.heap
    && (forall e :: e in s.heap ==> e in s.flags && (e in r.heap <==> s.flags[e].deadline > now))
    && (forall e :: e in s.flags ==>
          r.flags[e] == if e in s.heap && s.flags[e].deadline <= now then FiredFlags(s.flags[e]) else s.flags[e])
    && EarliestFirst(s, r, fired)
  }

  /** These are the events that left the heap, by deadline; they follow in their active queues in that order. */
  ghost predicate EarliestFirst(s: State, r: State, fired: seq<Event>) {
    && NoDuplicates(fired) && Events(fired) == s.heap - r.heap && Within(fired, s.flags) && Sorted(fired, s.flags)
    && ActiveThen(s, r, Events(fired), fired) && r.later == Kept(s.later, Events(fired))
  }

  /** Some of what is due has fired. */
  ghost predicate PartFired(s: State, r: State, now: int)
    requires Good(s)
  {
    && r.flags.Keys == s.flags.Keys && r.lists == s.lists && r.timers == s.timers && r.heap <= s.heap
    && (forall e :: e in s.heap && e !in r.heap ==> e in s.flags && s.flags[e].deadline <= now)
    && (forall e :: e in s.flags ==>
          r.flags[e] == if e in s.heap && e !in r.heap then FiredFlags(s.flags[e]) else s.flags[e])
  }

  lemma PartFiredStep(s: State, r: State, e: Event, now: int)
    requires Good(s) && Good(r) && PartFired(s, r, now) && e in r.heap && e in r.flags && r.flags[e].deadline <= now
    ensures PartFired(s, Fired(r, e), now) && Fired(r, e).heap == r.heap - {e}
  {
    hide Good, Deleted, Activated;
    OnHeap(r, e);
    UntimedHeads(r, e);
    UntimedHeap(r, e);
  }

  /** What has fired was due no later than what is still on the heap. */
  ghost predicate NoLater(s: State, r: State, fired: seq<Event>) {
    forall x, y :: x in fired && y in r.heap ==>
      x in s.flags && y in s.flags && s.flags[x].deadline <= s.flags[y].deadline
  }

  /** One event more, which is the earliest on the heap. */
  lemma FiredNext(s: State, r: State, e: Event, fired: seq<Event>)
    requires Good(s) && Good(r) && EarliestFirst(s, r, fired) && NoLater(s, r, fired)
    requires r.flags.Keys == s.flags.Keys && forall y :: y in r.heap ==> y in s.flags && r.flags[y] == s.flags[y]
    requires r.heap <= s.heap && e in r.heap && e in r.flags
    requires forall y :: y in r.heap ==> r.flags[e].deadline <= r.flags[y].deadline
    ensures EarliestFirst(s, Fired(r, e), fired + [e]) && NoLater(s, Fired(r, e), fired + [e])
  {
    hide Good, Kept, OfPri, ActiveThen;
    FiredMeans(r, e);
    var t := Fired(r, e);
    assert forall x :: x in fired ==> x in Events(fired);
    ActiveThenTwice(s, r, t, Events(fired), fired, {e}, [e]);
    KeptTwice(s.later, Events(fired), {e});
    assert Events(fired + [e]) == Events(fired) + {e};
    NextSorted(s, fired, e);
  }

  lemma NextSorted(s: State, fired: seq<Event>, e: Event)
    requires Within(fired, s.flags) && Sorted(fired, s.flags) && NoDuplicates(fired) && e !in fired && e in s.flags
    requires forall x :: x in fired ==> s.flags[x].deadline <= s.flags[e].deadline
    ensures Within(fired + [e], s.flags) && Sorted(fired + [e], s.flags) && NoDuplicates(fired + [e])
  {
    assert forall j :: 0 <= j < |fired| ==> fired[j] in fired;
  }

  lemma NoneFired(s: State, now: int)
    requires Good(s)
    ensures PartFired(s, s, now) && EarliestFirst(s, s, []) && NoLater(s, s, [])
  {
    NoneGone(s, []);
  }

  /** What is on the heap has not fired. */
  lemma StillAsItWas(s: State, r: State, now: int)
    requires Good(s) && PartFired(s, r, now)
    ensures forall y :: y in r.heap ==> y in s.flags && r.flags[y] == s.flags[y]
  {
    forall y | y in r.heap ensures y in s.flags && r.flags[y] == s.flags[y] {
      OnHeap(s, y);
    }
  }

  lemma UntimedHeap(s: State, e: Event)
    requires Good(s) && e in s.flags && s.flags[e].timeout && s.flags[e].common == NO_LIST
    ensures Untimed(s, e).heap == s.heap - {e}
  {
  }

  lemma PartFiredAll(s: State, r: State, now: int, fired: seq<Event>)
    requires Good(s) && Good(r) && PartFired(s, r, now) && EarliestFirst(s, r, fired)
    requires forall e :: e in r.heap ==> e in r.flags && r.flags[e].deadline > now
    ensures DueFired(s, r, now, fired)
  {
    forall e | e in s.heap ensures e in s.flags {
      OnHeap(s, e);
    }
    hide Good, EarliestFirst;
  }

  /** A heap that is not empty has a least element. */
  lemma {:induction false} HasLeast(heap: set<Event>, flags: map<Event, Flags>) returns (m: Event)
    requires heap != {} && heap <= flags.Keys
    ensures m in heap && forall e :: e in heap ==> flags[m].deadline <= flags[e].deadline
  {
    m :| m in heap;
    if heap != {m} {
      assert heap - {m} != {};
      var n := HasLeast(heap - {m}, flags);
      if flags[n].deadline < flags[m].deadline { m := n; }
    }
  }

  // ---- New events and lists

  const IDLE := Flags(false, false, false, false, false, 0, NO_LIST)

  ghost function Known(s: State, e: Event): State {
    s.(flags := s.flags[e := IDLE])
  }

  lemma KnownGood(s: State, e: Event)
    requires Good(s) && e !in s.flags && e.pri < |s.active|
    ensures Good(Known(s, e))
  {
    hide Sum, Sorted, NoDuplicates;
    var t := Known(s, e);
    KnownSum(s.flags, e);
    forall x | x in t.flags ensures Placed(t, x) {
      if x != e { assert Placed(s, x); }
    }
    forall i | 0 <= i < |s.lists| ensures Within(t.lists[i], t.flags) && Sorted(t.lists[i], t.flags) {
      KnownSorted(s.lists[i], s.flags, e);
    }
  }

  lemma KnownSorted(q: seq<Event>, flags: map<Event, Flags>, e: Event)
    requires Within(q, flags) && Sorted(q, flags) && e !in flags
    ensures Within(q, flags[e := IDLE]) && Sorted(q, flags[e := IDLE])
  {
    assert forall i :: 0 <= i < |q| ==> q[i] in q;
  }

  lemma KnownSum(flags: map<Event, Flags>, e: Event)
    requires e !in flags
    ensures Sum(flags[e := IDLE]) == Sum(flags)
  {
    var now := flags[e := IDLE];
    assert Members(now, IsInserted) == Members(flags, IsInserted);
    assert Members(now, IsTimed) == Members(flags, IsTimed);
    assert Members(now, IsActivated) == Members(flags, IsActivated);
  }

  lemma KnownReady(s: State, e: Event, running: set<Event>)
    requires Good(s) && e !in s.flags && e.pri < |s.active| && Watched(s, running)
    ensures Good(Known(s, e)) && Watched(Known(s, e), running)
  {
    hide Good;
    KnownGood(s, e);
    var t := Known(s, e);
    forall i | 0 <= i < |t.lists| ensures Ready(t, running, i) {
      AboutTimer(s, i);
      assert Ready(s, running, i);
      if s.lists[i] != [] { assert s.lists[i][0] in s.lists[i]; }
    }
  }

  /** `event_base_init_common_timeout`: an empty list with a timer of its own. */
  ghost function Listed(s: State, t: Event): State {
    s.(lists := s.lists + [[]], timers := s.timers + [t])
  }

  lemma ListedIsGood(s: State, t: Event)
    requires Good(s) && t in s.flags && s.flags[t] == IDLE && t.internal && !t.io && t !in s.timers
    ensures Good(Listed(s, t))
  {
    hide Sum;
    var r := Listed(s, t);
    forall x | x in r.flags ensures Placed(r, x) {
      assert Placed(s, x);
    }
  }

  lemma ListedGood(s: State, t: Event, running: set<Event>)
    requires Good(s) && Watched(s, running)
    requires t in s.flags && s.flags[t] == IDLE && t.internal && !t.io && t !in s.timers
    ensures Good(Listed(s, t)) && Watched(Listed(s, t), running)
  {
    hide Good;
    ListedIsGood(s, t);
    var r := Listed(s, t);
    forall i | 0 <= i < |r.lists| ensures Ready(r, running, i) {
      AboutTimer(r, i);
      if i < |s.lists| {
        AboutTimer(s, i);
        assert Ready(s, running, i);
      }
    }
  }

  // ---- Every run

  datatype Step =
    | NewEvent(e: Event)
    | NewList(e: Event)
    | Add(e: Event, ioResult: int, tv: Timeout)
    | Delete(e: Event)
    | Activate(e: Event, res: bool)
    | ActivateLater(e: Event, res: bool)
    | Promote
    | Fire(e: Event)
    | Dequeue(e: Event, persist: bool)
    | CallBack(list: nat, now: int)
    | Done(e: Event)

  datatype World = World(s: State, running: set<Event>)

  ghost predicate Fine(w: World) {
    Good(w.s) && Watched(w.s, w.running)
  }

  /** What each step may be asked of.  A list's timer is the base's own: only expiry and the processing of the
      queues touch it, and its turn ends with the callback. */
  ghost predicate May(w: World, step: Step)
    requires Good(w.s)
  {
    match step
    case NewEvent(e) => e !in w.s.flags && e.pri < |w.s.active|
    case NewList(e) => e in w.s.flags && w.s.flags[e] == IDLE && e.internal && !e.io && e !in w.s.timers
    case Add(e, _, tv) =>
      e in w.s.flags && e !in w.s.timers && (tv.Timeout? ==> NO_LIST <= tv.common < |w.s.lists|)
    case Delete(e) => e in w.s.flags && e !in w.s.timers
    case Activate(e, _) => e in w.s.flags && e !in w.s.timers
    case ActivateLater(e, _) => e in w.s.flags && e !in w.s.timers
    case Promote => w.s.later != []
    case Fire(e) => e in w.s.heap
    case Dequeue(e, _) => e in w.s.flags && w.s.flags[e].active
    case CallBack(i, _) => i < |w.s.lists|
    case Done(e) => e !in w.s.timers
  }

  ghost function After(w: World, step: Step): World
    requires Good(w.s) && May(w, step)
  {
    match step
    case NewEvent(e) => w.(s := Known(w.s, e))
    case NewList(e) => w.(s := Listed(w.s, e))
    case Add(e, io, tv) => w.(s := Added(w.s, e, io, tv))
    case Delete(e) => w.(s := Deleted(w.s, e))
    case Activate(e, res) => w.(s := Activated(w.s, e, res))
    case ActivateLater(e, res) => w.(s := ActivatedLater(w.s, e, res))
    case Promote => w.(s := Promoted(w.s))
    case Fire(e) => OnHeap(w.s, e); w.(s := Fired(w.s, e))
    case Dequeue(e, persist) => World(Dequeued(w.s, e, persist), w.running + {e})
    case CallBack(i, now) => AboutTimer(w.s, i); World(CalledBack(w.s, i, now), w.running - {w.s.timers[i]})
    case Done(e) => w.(running := w.running - {e})
  }

  lemma OnHeap(s: State, e: Event)
    requires Good(s) && e in s.heap
    ensures e in s.flags && s.flags[e].timeout && s.flags[e].common == NO_LIST
  {
    assert Placed(s, e);
  }

  lemma StepKeeps(w: World, step: Step)
    requires Fine(w) && May(w, step)
    ensures Fine(After(w, step))
  {
    hide Good, Watched, Known, Listed, Added, Deleted, Activated, ActivatedLater, Promoted, Fired, Dequeued, CalledBack;
    match step
    case NewEvent(e) => KnownReady(w.s, e, w.running);
    case NewList(e) => ListedGood(w.s, e, w.running);
    case Add(e, io, tv) => AddedReady(w.s, e, io, tv, w.running);
    case Delete(e) =>
      WatchedBut(w.s, w.running);
      DeletedReady(w.s, e, w.running, -1);
      WatchedBut(Deleted(w.s, e), w.running);
    case Activate(e, res) =>
      WatchedBut(w.s, w.running);
      ActivatedReady(w.s, e, res, w.running, -1);
      WatchedBut(Activated(w.s, e, res), w.running);
    case ActivateLater(e, res) => ActivatedLaterReady(w.s, e, res, w.running);
    case Promote => PromotedReady(w.s, w.running);
    case Fire(e) =>
      OnHeap(w.s, e);
      WatchedBut(w.s, w.running);
      FiredReady(w.s, e, w.running, -1);
      WatchedBut(Fired(w.s, e), w.running);
    case Dequeue(e, persist) => DequeuedReady(w.s, e, persist, w.running);
    case CallBack(i, now) => CalledBackReady(w.s, i, now, w.running);
    case Done(e) => DoneReady(w.s, e, w.running);
  }

  lemma WatchedBut(s: State, running: set<Event>)
    requires Good(s)
    ensures Watched(s, running) <==> ReadyBut(s, running, -1)
  {
  }

  lemma DoneReady(s: State, e: Event, running: set<Event>)
    requires Good(s) && e !in s.timers && Watched(s, running)
    ensures Watched(s, running - {e})
  {
    forall i | 0 <= i < |s.lists| ensures Ready(s, running - {e}, i) {
      assert Ready(s, running, i);
    }
  }

  /** A run: every step is one that may be taken. */
  ghost predicate Possible(w: World, steps: seq<Step>)
    requires Fine(w)
    decreases |steps|
  {
    steps == [] || (May(w, steps[0]) && (StepKeeps(w, steps[0]); Possible(After(w, steps[0]), steps[1..])))
  }

  ghost function Reached(w: World, steps: seq<Step>): World
    requires Fine(w) && Possible(w, steps)
    decreases |steps|
  {
    if steps == [] then w else StepKeeps(w, steps[0]); Reached(After(w, steps[0]), steps[1..])
  }

  /** In every state that a run reaches, the flags, queues and counters agree, and every event of a common-timeout
      list has its timer on the heap no later than its own deadline, or active, or about to be run. */
  lemma {:induction false} NothingStranded(w: World, steps: seq<Step>)
    requires Fine(w) && Possible(w, steps)
    ensures Fine(Reached(w, steps))
    decreases |steps|
  {
    if steps != [] {
      StepKeeps(w, steps[0]);
      NothingStranded(After(w, steps[0]), steps[1..]);
    }
  }

  lemma StartFine(n: nat, active: seq<seq<Event>>)
    requires |active| == n && forall q :: 0 <= q < n ==> active[q] == []
    ensures Fine(World(State(map[], active, [], {}, [], [], 0, 0), {}))
  {
    NoLength(active);
    var s := State(map[], active, [], {}, [], [], 0, 0);
    assert Members(s.flags, IsInserted) == {} && Members(s.flags, IsTimed) == {} && Members(s.flags, IsActivated) == {};
  }

  lemma {:induction false} NoLength(qs: seq<seq<Event>>)
    requires forall q :: 0 <= q < |qs| ==> qs[q] == []
    ensures TotalLength(qs) == 0
  {
    if qs != [] { NoLength(qs[1..]); }
  }
}
