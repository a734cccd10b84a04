/** The order of events in queues, said without the queue functions. */
module EventOrder {
  import opened Common
  import opened EventState

  /** The queue without these events: the others stay, in their order. */
  ghost function Kept(q: seq<Event>, gone: set<Event>): (r: seq<Event>)
    ensures forall e :: e in r ==> e in q && e !in gone
    ensures forall e :: e in q && e !in gone ==> e in r
  {
    if q == [] then [] else (if q[0] in gone then [] else [q[0]]) + Kept(q[1..], gone)
  }

  /** The events of one priority, in their order. */
  ghost function OfPri(q: seq<Event>, pri: nat): seq<Event> {
    if q == [] then [] else (if q[0].pri == pri then [q[0]] else []) + OfPri(q[1..], pri)
  }

  ghost function Events(q: seq<Event>): set<Event> {
    set e | e in q
  }

  /** The event is where all before it are due no later, and all behind it are due later. */
  ghost predicate PutInOrder(q: seq<Event>, r: seq<Event>, e: Event, deadline: int, flags: map<Event, Flags>) {
    exists j :: PutAt(q, r, e, deadline, flags, j)
  }

  ghost predicate PutAt(q: seq<Event>, r: seq<Event>, e: Event, deadline: int, flags: map<Event, Flags>, j: nat) {
    && j <= |q| && r == q[..j] + [e] + q[j..] && Within(q, flags)
    && (forall k :: 0 <= k < j ==> flags[q[k]].deadline <= deadline)
    && (forall k :: j <= k < |q| ==> flags[q[k]].deadline > deadline)
  }

  /** Every queue, list and the heap without these events. */
  ghost predicate QueuesKept(s: State, r: State, gone: set<Event>) {
    && ActiveKept(s, r, gone) && r.later == Kept(s.later, gone)
    && ListsKept(s, r, gone) && r.heap == s.heap - gone
  }

  ghost predicate ActiveKept(s: State, r: State, gone: set<Event>) {
    |r.active| == |s.active| && forall k :: 0 <= k < |s.active| ==> r.active[k] == Kept(s.active[k], gone)
  }

  ghost predicate ListsKept(s: State, r: State, gone: set<Event>) {
    |r.lists| == |s.lists| && forall i :: 0 <= i < |s.lists| ==> r.lists[i] == Kept(s.lists[i], gone)
  }

  /** The active queues without these events, which then follow in this order. */
  ghost predicate ActiveThen(s: State, r: State, gone: set<Event>, came: seq<Event>) {
    && |r.active| == |s.active|
    && forall k :: 0 <= k < |s.active| ==> r.active[k] == Kept(s.active[k], gone) + OfPri(came, k)
  }

  lemma {:induction false} KeptAll(q: seq<Event>, gone: set<Event>)
    requires forall e :: e in q ==> e !in gone
    ensures Kept(q, gone) == q
  {
    if q != [] {
      KeptAll(q[1..], gone);
      assert q == [q[0]] + q[1..];
    }
  }

  lemma {:induction false} KeptBoth(p: seq<Event>, q: seq<Event>, gone: set<Event>)
    ensures Kept(p + q, gone) == Kept(p, gone) + Kept(q, gone)
    decreases |p|
  {
    if p == [] {
      assert p + q == q;
    } else {
      assert (p + q)[0] == p[0] && (p + q)[1..] == p[1..] + q;
      KeptBoth(p[1..], q, gone);
    }
  }

  lemma {:induction false} KeptTwice(q: seq<Event>, a: set<Event>, b: set<Event>)
    ensures Kept(Kept(q, a), b) == Kept(q, a + b)
  {
    if q != [] {
      var first := if q[0] in a then [] else [q[0]];
      KeptBoth(first, Kept(q[1..], a), b);
      KeptTwice(q[1..], a, b);
      if first != [] { assert first[1..] == []; }
    }
  }

  /** `TAILQ_REMOVE` takes out one event. */
  lemma {:induction false} RemovedKept(q: seq<Event>, e: Event)
    requires e in q && NoDuplicates(q)
    ensures Removed(q, e) == Kept(q, {e})
  {
    assert q == [q[0]] + q[1..];
    if q[0] == e {
      KeptAll(q[1..], {e});
    } else {
      RemovedKept(q[1..], e);
    }
  }

  lemma {:induction false} OfPriBoth(p: seq<Event>, q: seq<Event>, pri: nat)
    ensures OfPri(p + q, pri) == OfPri(p, pri) + OfPri(q, pri)
    decreases |p|
  {
    if p == [] {
      assert p + q == q;
    } else {
      assert (p + q)[0] == p[0] && (p + q)[1..] == p[1..] + q;
      OfPriBoth(p[1..], q, pri);
      if p[0].pri == pri {
        assert [p[0]] + (OfPri(p[1..], pri) + OfPri(q, pri)) == [p[0]] + OfPri(p[1..], pri) + OfPri(q, pri);
      }
    }
  }

  lemma {:induction false} OfPriIn(q: seq<Event>, pri: nat)
    ensures forall e :: e in OfPri(q, pri) <==> e in q && e.pri == pri
  {
    if q != [] { OfPriIn(q[1..], pri); }
  }

  lemma OfPriOne(e: Event, pri: nat)
    ensures OfPri([e], pri) == if e.pri == pri then [e] else []
  {
    assert [e][1..] == [];
  }

  lemma NothingCame(s: State, r: State, gone: set<Event>)
    ensures ActiveThen(s, r, gone, []) <==> ActiveKept(s, r, gone)
  {
    assert forall k: nat :: OfPri([], k) == [];
    forall k | 0 <= k < |s.active| ensures Kept(s.active[k], gone) + OfPri([], k) == Kept(s.active[k], gone) {
    }
  }

  /** Nothing is taken out of queues that do not hold it. */
  lemma ActiveStays(s: State, gone: set<Event>)
    requires forall e, k :: e in gone && 0 <= k < |s.active| ==> e !in s.active[k]
    ensures ActiveKept(s, s, gone)
  {
    forall k | 0 <= k < |s.active| ensures Kept(s.active[k], gone) == s.active[k] {
      KeptAll(s.active[k], gone);
    }
  }

  lemma ActiveThenTwice(s: State, t: State, r: State, a: set<Event>, p: seq<Event>, b: set<Event>, q: seq<Event>)
    requires ActiveThen(s, t, a, p) && ActiveThen(t, r, b, q) && forall e :: e in p ==> e !in b
    ensures ActiveThen(s, r, a + b, p + q)
  {
    hide Kept, OfPri;
    forall k | 0 <= k < |s.active| ensures r.active[k] == Kept(s.active[k], a + b) + OfPri(p + q, k) {
      KeptThen(s.active[k], a, p, b, q, k);
    }
  }

  lemma KeptThen(c: seq<Event>, a: set<Event>, p: seq<Event>, b: set<Event>, q: seq<Event>, k: nat)
    requires forall e :: e in p ==> e !in b
    ensures Kept(Kept(c, a) + OfPri(p, k), b) + OfPri(q, k) == Kept(c, a + b) + OfPri(p + q, k)
  {
    hide Kept, OfPri;
    KeptBoth(Kept(c, a), OfPri(p, k), b);
    KeptTwice(c, a, b);
    OfPriIn(p, k);
    KeptAll(OfPri(p, k), b);
    OfPriBoth(p, q, k);
  }
}
