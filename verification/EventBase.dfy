/** The event base itself: flags in the events, queues and counters in the base, changed in place. */
module EventBases {
  import opened EventState
  import opened EventOrder
  import opened EventSteps
  import opened EventMeaning
  import opened EventTimers
  import opened EventRun

  ghost function FlagsOf(e: Event): Flags reads e {
    Flags(e.inserted, e.active, e.later, e.timeout, e.resTimeout, e.deadline, e.common)
  }

  class EventBase {
    var activeQueues: seq<seq<Event>>
    var laterQueue: seq<Event>
    /** The min-heap: only a least element of it is ever asked for. */
    var timeHeap: set<Event>
    var lists: seq<seq<Event>>
    var timers: seq<Event>
    var eventCount: int
    var eventCountActive: int

    /** The events of this base, with what their fields hold. */
    ghost var flags: map<Event, Flags>

    ghost function S(): State reads this {
      State(flags, activeQueues, laterQueue, timeHeap, lists, timers, eventCount, eventCountActive)
    }

    ghost predicate Coupled()
      reads this, flags.Keys
    {
      forall e :: e in flags ==> flags[e] == FlagsOf(e)
    }

    ghost predicate Valid()
      reads this, flags.Keys
    {
      Coupled() && Good(S())
    }

    constructor (queues: nat)
      ensures Valid() && flags == map[] && Watched(S(), {})
      ensures |activeQueues| == queues && lists == []
    {
      activeQueues := seq(queues, i => []);
      laterQueue, timeHeap, lists, timers, eventCount, eventCountActive := [], {}, [], [], 0, 0;
      flags := map[];
      new;
      StartFine(queues, activeQueues);
    }

    // ---- The queue functions

    method QueueInsertInserted(e: Event)
      requires Coupled() && e in flags && !e.inserted
      modifies this`eventCount, this`flags, e`inserted
      ensures Coupled() && S() == InsertInserted(old(S()), e)
    {
      eventCount := eventCount + Weight(e);
      e.inserted := true;
      flags := flags[e := flags[e].(inserted := true)];
    }

    method QueueRemoveInserted(e: Event)
      requires Coupled() && e in flags && e.inserted
      modifies this`eventCount, this`flags, e`inserted
      ensures Coupled() && S() == RemoveInserted(old(S()), e)
    {
      eventCount := eventCount - Weight(e);
      e.inserted := false;
      flags := flags[e := flags[e].(inserted := false)];
    }

    method QueueInsertActive(e: Event)
      requires Coupled() && e in flags && e.pri < |activeQueues|
      modifies this`eventCount, this`eventCountActive, this`activeQueues, this`flags, e`active
      ensures Coupled() && S() == InsertActive(old(S()), e)
    {
      if e.active { return; }
      eventCount := eventCount + Weight(e);
      e.active := true;
      eventCountActive := eventCountActive + 1;
      activeQueues := activeQueues[e.pri := activeQueues[e.pri] + [e]];
      flags := flags[e := flags[e].(active := true)];
    }

    method QueueRemoveActive(e: Event)
      requires Coupled() && e in flags && e.pri < |activeQueues| && e in activeQueues[e.pri] && e.active
      modifies this`eventCount, this`eventCountActive, this`activeQueues, this`flags, e`active
      ensures Coupled() && S() == RemoveActive(old(S()), e)
    {
      eventCount := eventCount - Weight(e);
      e.active := false;
      eventCountActive := eventCountActive - 1;
      activeQueues := activeQueues[e.pri := Removed(activeQueues[e.pri], e)];
      flags := flags[e := flags[e].(active := false)];
    }

    method QueueInsertActiveLater(e: Event)
      requires Coupled() && e in flags
      modifies this`eventCount, this`eventCountActive, this`laterQueue, this`flags, e`later
      ensures Coupled() && S() == InsertActiveLater(old(S()), e)
    {
      if e.later || e.active { return; }
      eventCount := eventCount + Weight(e);
      e.later := true;
      eventCountActive := eventCountActive + 1;
      laterQueue := laterQueue + [e];
      flags := flags[e := flags[e].(later := true)];
    }

    method QueueRemoveActiveLater(e: Event)
      requires Coupled() && e in flags && e in laterQueue && e.later
      modifies this`eventCount, this`eventCountActive, this`laterQueue, this`flags, e`later
      ensures Coupled() && S() == RemoveActiveLater(old(S()), e)
    {
      eventCount := eventCount - Weight(e);
      e.later := false;
      eventCountActive := eventCountActive - 1;
      laterQueue := Removed(laterQueue, e);
      flags := flags[e := flags[e].(later := false)];
    }

    /** `insert_common_timeout_inorder`: looks for the place from the end. */
    method InsertCommonTimeoutInOrder(q: seq<Event>, e: Event) returns (r: seq<Event>)
      requires Coupled() && Within(q, flags) && e in flags
      ensures r == InsertInOrder(q, e, e.deadline, flags)
    {
      var k := |q|;
      assert q[..k] == q && q[k..] == [];
      while k > 0 && e.deadline < q[k - 1].deadline
        invariant k <= |q| && Within(q[..k], flags)
        invariant InsertInOrder(q, e, e.deadline, flags) == InsertInOrder(q[..k], e, e.deadline, flags) + q[k..]
      {
        assert q[k - 1] in flags;
        k := k - 1;
        assert q[..k + 1][..k] == q[..k] && q[k..] == [q[k]] + q[k + 1..];
      }
      r := q[..k] + [e] + q[k..];
    }

    method QueueInsertTimeout(e: Event)
      requires Coupled() && e in flags && !e.timeout && e.common < |lists|
      requires e.common >= 0 ==> Within(lists[e.common], flags)
      modifies this`eventCount, this`lists, this`timeHeap, this`flags, e`timeout
      ensures Coupled() && S() == InsertTimeout(old(S()), e)
    {
      eventCount := eventCount + Weight(e);
      if e.common >= 0 {
        var q := InsertCommonTimeoutInOrder(lists[e.common], e);
        lists := lists[e.common := q];
      } else {
        timeHeap := timeHeap + {e};
      }
      e.timeout := true;
      flags := flags[e := flags[e].(timeout := true)];
    }

    method QueueRemoveTimeout(e: Event)
      requires Coupled() && e in flags && e.timeout && e.common < |lists|
      requires e.common >= 0 ==> e in lists[e.common]
      modifies this`eventCount, this`lists, this`timeHeap, this`flags, e`timeout
      ensures Coupled() && S() == RemoveTimeout(old(S()), e)
    {
      eventCount := eventCount - Weight(e);
      e.timeout := false;
      flags := flags[e := flags[e].(timeout := false)];
      if e.common >= 0 {
        lists := lists[e.common := Removed(lists[e.common], e)];
      } else {
        timeHeap := timeHeap - {e};
      }
    }

    method StoreResult(e: Event, res: bool)
      requires Coupled() && e in flags
      modifies this`flags, e`resTimeout
      ensures Coupled() && S() == SetResult(old(S()), e, res)
    {
      e.resTimeout := res;
      flags := flags[e := flags[e].(resTimeout := res)];
    }

    method StoreDeadline(e: Event, deadline: int, common: int)
      requires Coupled() && e in flags
      modifies this`flags, e`deadline, e`common
      ensures Coupled() && S() == SetDeadline(old(S()), e, deadline, common)
    {
      e.deadline, e.common := deadline, common;
      flags := flags[e := flags[e].(deadline := deadline, common := common)];
    }

    // ---- Deleting, activating, adding

    /** `event_del_nolock_`; what the event map answers does not matter here. */
    method Del(e: Event)
      requires Valid() && e in flags
      modifies this, e
      ensures Valid() && S() == Deleted(old(S()), e) && Deletion(old(S()), S(), e)
    {
      hide Good, Deletion;
      ghost var s := S();
      DeletedMeans(s, e);
      AboutEvent(s, e);
      if e.timeout {
        GoodNoTimeout(s, e);
        QueueRemoveTimeout(e);
      }
      ghost var a := S();
      AboutEvent(a, e);
      if e.active {
        GoodActive(a, e, false);
        QueueRemoveActive(e);
      } else if e.later {
        GoodLater(a, e, false);
        QueueRemoveActiveLater(e);
      }
      if e.inserted {
        GoodInserted(S(), e, false);
        QueueRemoveInserted(e);
      }
    }

    /** `event_active_nolock_` and `event_callback_activate_nolock_`. */
    method Active(e: Event, res: bool)
      requires Valid() && e in flags
      modifies this, e
      ensures Valid() && S() == Activated(old(S()), e, res) && Activation(old(S()), S(), e, res)
    {
      hide Good, Activation;
      ActivatedMeans(S(), e, res);
      AboutEvent(S(), e);
      if e.active {
        GoodResult(S(), e, e.resTimeout || res);
        StoreResult(e, e.resTimeout || res);
        return;
      }
      var result := if e.later then e.resTimeout || res else res;
      GoodResult(S(), e, result);
      StoreResult(e, result);
      if e.later {
        AboutEvent(S(), e);
        GoodLater(S(), e, false);
        QueueRemoveActiveLater(e);
      }
      GoodActive(S(), e, true);
      QueueInsertActive(e);
    }

    /** `event_active_later_nolock_`. */
    method ActiveLater(e: Event, res: bool)
      requires Valid() && e in flags && e !in timers
      modifies this, e
      ensures Valid() && S() == ActivatedLater(old(S()), e, res) && LaterActivation(old(S()), S(), e, res)
    {
      hide Good, LaterActivation;
      ActivatedLaterMeans(S(), e, res);
      AboutEvent(S(), e);
      var result := if e.active || e.later then e.resTimeout || res else res;
      GoodResult(S(), e, result);
      if e.active || e.later {
        StoreResult(e, result);
        return;
      }
      StoreResult(e, result);
      GoodLater(S(), e, true);
      QueueInsertActiveLater(e);
    }

    /** Before a new timeout is set: the old one goes, and so does an activation that it caused. */
    method Disarm(e: Event)
      requires Valid() && e in flags
      modifies this, e
      ensures Valid() && S() == Disarmed(old(S()), e)
    {
      hide Good;
      AboutEvent(S(), e);
      if e.timeout {
        GoodNoTimeout(S(), e);
        QueueRemoveTimeout(e);
      }
      AboutEvent(S(), e);
      if e.active && e.resTimeout {
        GoodActive(S(), e, false);
        QueueRemoveActive(e);
      }
    }

    /** The timeout part of `event_add_nolock_`. */
    method Arm(e: Event, deadline: int, common: int)
      requires Valid() && e in flags && NO_LIST <= common < |lists| && (e in timers ==> common == NO_LIST)
      modifies this, e
      ensures Valid() && S() == Armed(old(S()), e, deadline, common)
      ensures Arming(old(S()), S(), e, deadline, common)
    {
      hide Good, Disarmed, Arming;
      ArmedMeans(S(), e, deadline, common);
      Disarm(e);
      GoodDeadline(S(), e, deadline, common);
      StoreDeadline(e, deadline, common);
      GoodTimeout(S(), e);
      QueueInsertTimeout(e);
    }

    /** `common_timeout_schedule`. */
    method Schedule(i: nat)
      requires Valid() && i < |lists| && lists[i] != []
      modifies this, flags.Keys
      ensures Valid() && S() == Scheduled(old(S()), i)
      ensures TimerSet(old(S()), S(), old(timers[i]), old(lists[i][0].deadline))
    {
      hide Good, Armed, Arming, TimerSet;
      ScheduledMeans(S(), i);
      AboutTimer(S(), i);
      assert lists[i][0] in lists[i];
      Arm(timers[i], lists[i][0].deadline, NO_LIST);
    }

    /** `event_add_nolock_`.  `ioResult` is the answer of `evmap_io_add_`; `deadline` is the time given, or now and
        the interval given; the result is -1 when nothing was changed. */
    method Add(e: Event, ioResult: int, tv: Timeout) returns (res: int)
      requires Valid() && e in flags && e !in timers && (tv.Timeout? ==> NO_LIST <= tv.common < |lists|)
      modifies this, flags.Keys
      ensures Valid() && S() == Added(old(S()), e, ioResult, tv)
      ensures res == -1 <==> ioResult == -1 && e.io && !old(e.inserted) && !old(e.active) && !old(e.later)
      ensures res != -1 ==> res == 0
      ensures res == -1 ==> S() == old(S())
      ensures var asked := e.io && !old(e.inserted) && !old(e.active) && !old(e.later);
        res == 0 ==>
          match tv
          case NoTimeout => Enlisting(old(S()), S(), e, asked)
          case Timeout(deadline, common) => Adding(old(S()), S(), e, asked, deadline, common)
    {
      hide Good, Armed, Scheduled, Arming, TimerSet, Enlisting, Adding;
      AddedMeans(S(), e, ioResult, tv, e.io && !e.inserted && !e.active && !e.later);
      res := 0;
      if e.io && !e.inserted && !e.active && !e.later {
        if ioResult == -1 { return -1; }
        GoodInserted(S(), e, true);
        QueueInsertInserted(e);
      }
      if tv.Timeout? {
        ghost var s := S();
        ArmedFlags(s, e, tv.deadline, tv.common);
        Arm(e, tv.deadline, tv.common);
        if tv.common >= 0 && lists[tv.common] != [] && e == lists[tv.common][0] {
          Schedule(tv.common);
        }
      }
    }

    // ---- Expiry

    method Fire(e: Event)
      requires Valid() && e in flags
      modifies this, e
      ensures Valid() && S() == Fired(old(S()), e)
    {
      hide Good, Deleted, Activated, Deletion, Activation;
      Del(e);
      DeletedFlags(old(S()), e);
      Active(e, true);
    }

    /** `common_timeout_callback`. */
    method CommonTimeoutCallback(i: nat, now: int) returns (ghost k: nat)
      requires Valid() && i < |lists|
      modifies this, flags.Keys
      ensures Valid() && S() == CalledBack(old(S()), i, now) && Expiry(old(S()), S(), i, now, k)
    {
      hide Good, Fired, Scheduled, TimerSet, Expiry;
      k := CalledBackMeans(S(), i, now);
      while lists[i] != [] && lists[i][0].deadline <= now
        invariant Valid() && i < |lists| && flags.Keys == old(flags.Keys)
        invariant Expired(S(), i, now) == Expired(old(S()), i, now)
        decreases |lists[i]|
      {
        FirstOut(S(), i);
        Fire(lists[i][0]);
      }
      if lists[i] != [] {
        AboutTimer(S(), i);
        assert lists[i][0] in lists[i];
        Schedule(i);
      }
    }

    lemma Least()
      requires Valid() && timeHeap != {}
      ensures exists m :: m in timeHeap && forall e :: e in timeHeap ==> m.deadline <= e.deadline
    {
      var m := HasLeast(timeHeap, flags);
      assert forall e :: e in timeHeap ==> e in flags;
    }

    lemma KnownHeap()
      requires Valid()
      ensures timeHeap <= flags.Keys
    {
    }

    /** `timeout_process`: everything on the heap that is due fires, the earliest first. */
    method TimeoutProcess(now: int, ghost running: set<Event>) returns (ghost fired: seq<Event>)
      requires Valid() && Watched(S(), running)
      modifies this, flags.Keys
      ensures Valid() && Watched(S(), running) && DueFired(old(S()), S(), now, fired)
    {
      hide Good, Fired, PartFired, DueFired, Watched, EarliestFirst, NoLater;
      ghost var s := S();
      fired := [];
      NoneFired(s, now);
      while timeHeap != {}
        invariant Valid() && Watched(S(), running) && PartFired(s, S(), now) && flags.Keys == s.flags.Keys
        invariant timeHeap <= s.heap && EarliestFirst(s, S(), fired) && NoLater(s, S(), fired)
        decreases |timeHeap|
      {
        Least();
        KnownHeap();
        var ev :| ev in timeHeap && forall e :: e in timeHeap ==> ev.deadline <= e.deadline;
        if ev.deadline > now { break; }
        PartFiredStep(s, S(), ev, now);
        StillAsItWas(s, S(), now);
        FiredNext(s, S(), ev, fired);
        fired := fired + [ev];
        WatchedBut(S(), running);
        FiredReady(S(), ev, running, -1);
        WatchedBut(Fired(S(), ev), running);
        Fire(ev);
      }
      KnownHeap();
      PartFiredAll(s, S(), now, fired);
    }

    // ---- The active queues

    method PromoteFirst()
      requires Valid() && laterQueue != []
      modifies this, flags.Keys
      ensures Valid() && S() == Promoted(old(S())) && flags.Keys == old(flags.Keys)
    {
      hide Good;
      ghost var s := S();
      FirstLater(s);
      PromotedFlags(s);
      var e := laterQueue[0];
      laterQueue := laterQueue[1..];
      e.later, e.active := false, true;
      activeQueues := activeQueues[e.pri := activeQueues[e.pri] + [e]];
      flags := flags[e := flags[e].(later := false, active := true)];
      assert S() == Promoted(s);
    }

    /** `event_queue_make_later_events_active`. */
    method MakeLaterEventsActive()
      requires Valid()
      modifies this, flags.Keys
      ensures Valid() && S() == AllPromoted(old(S())) && laterQueue == []
      ensures ActiveThen(old(S()), S(), {}, old(laterQueue))
      ensures lists == old(lists) && timers == old(timers) && timeHeap == old(timeHeap) && flags.Keys == old(flags.Keys)
      ensures forall e :: e in flags ==> flags[e] == old(flags)[e].(later := false, active := flags[e].active)
      ensures forall e :: e in flags ==> (flags[e].active <==> old(flags)[e].active || old(flags)[e].later)
    {
      hide Good, Promoted;
      AllPromotedFlags(S());
      AllPromotedOrder(S());
      while laterQueue != []
        invariant Valid() && AllPromoted(S()) == AllPromoted(old(S())) && flags.Keys == old(flags.Keys)
        decreases |laterQueue|
      {
        PromotedFlags(S());
        PromoteFirst();
      }
    }

    /** The start of an event's turn in `event_process_active_single_queue`; its callback is still to run. */
    method StartTurn(q: nat, persist: bool) returns (e: Event)
      requires Valid() && q < |activeQueues| && activeQueues[q] != []
      modifies this, flags.Keys
      ensures e == old(activeQueues)[q][0] && e in old(flags) && old(flags)[e].active
      ensures Valid() && S() == Dequeued(old(S()), e, persist) && TurnStart(old(S()), S(), e, persist)
      ensures activeQueues == old(activeQueues)[q := old(activeQueues)[q][1..]]
    {
      hide Good, Deleted, Deletion, TurnStart;
      e := activeQueues[q][0];
      FirstActive(S(), q);
      DequeuedMeans(S(), e, persist);
      DequeuedFirst(S(), q, persist);
      if persist {
        GoodActive(S(), e, false);
        QueueRemoveActive(e);
      } else {
        Del(e);
      }
    }

    // ---- New events and lists

    /** `event_assign`, for an event this base does not know. */
    method Assign(io: bool, internal: bool, pri: nat) returns (e: Event)
      requires Valid() && pri < |activeQueues|
      modifies this`flags
      ensures Valid() && fresh(e) && e.io == io && e.internal == internal && e.pri == pri
      ensures e !in old(flags) && S() == Known(old(S()), e)
      ensures S() == old(S()).(flags := old(flags)[e := Flags(false, false, false, false, false, 0, NO_LIST)])
    {
      hide Good;
      e := new Event(io, internal, pri);
      KnownGood(S(), e);
      flags := flags[e := IDLE];
    }

    /** `event_base_init_common_timeout`, for a duration that has no list yet. */
    method InitCommonTimeout() returns (timer: Event)
      requires Valid() && |activeQueues| > 0
      modifies this`flags, this`lists, this`timers
      ensures Valid() && fresh(timer) && timer.internal && !timer.io && timer.pri == 0
      ensures timer !in old(flags) && S() == Listed(Known(old(S()), timer), timer)
      ensures S() == old(S()).(flags := old(flags)[timer := Flags(false, false, false, false, false, 0, NO_LIST)],
                               lists := old(lists) + [[]], timers := old(timers) + [timer])
    {
      hide Good;
      NoOtherTimers(S());
      timer := Assign(false, true, 0);
      ListedIsGood(S(), timer);
      lists, timers := lists + [[]], timers + [timer];
    }
  }

  lemma FirstActive(s: State, q: nat)
    requires Good(s) && q < |s.active| && s.active[q] != []
    ensures var e := s.active[q][0]; e in s.flags && s.flags[e].active && !s.flags[e].later && e.pri == q
  {
    var e := s.active[q][0];
    assert e in s.active[q] && Within(s.active[q], s.flags) && Placed(s, e);
  }

  lemma DequeuedFirst(s: State, q: nat, persist: bool)
    requires Good(s) && q < |s.active| && s.active[q] != []
    requires var e := s.active[q][0]; e in s.flags && s.flags[e].active && e.pri == q
    ensures Dequeued(s, s.active[q][0], persist).active == s.active[q := s.active[q][1..]]
  {
    hide Good, Dequeued, Kept;
    DequeuedMeans(s, s.active[q][0], persist);
    EachOnce(s);
    KeptFirst(s.active[q]);
  }

  lemma NoOtherTimers(s: State)
    requires Good(s)
    ensures forall t :: t in s.timers ==> t in s.flags
  {
  }
}
