/** The per-descriptor counts, the list of pending changes and the kernel's filters: when they agree. */
module Changelist {
  datatype Mode = Read | Write | Closed

  /** One value for each mode. */
  datatype Trio<T> = Trio(read: T, write: T, closed: T) {
    function Of(m: Mode): T {
      match m
      case Read => read
      case Write => write
      case Closed => closed
    }
  }

  datatype Ev = Ev(id: nat, on: Trio<bool>)

  datatype Kind = Unchanged | Adding | Deleting

  /** `struct event_change`: what was enabled before any change, and what is to change. */
  datatype Change = Change(fd: nat, before: Trio<bool>, kind: Trio<Kind>)

  /** `struct evmap_io` with its changelist index. */
  datatype Slot = Vacant | Slot(n: Trio<nat>, events: seq<Ev>, idx: nat)

  /** A filter the kernel watches; there is none for `Closed`. */
  datatype Watch = Watch(fd: nat, mode: Mode)

  datatype KEvent = KEvent(ident: nat, filter: Mode, add: bool)

  const MAX_COUNT: nat := 0xffff

  function Count(events: seq<Ev>, m: Mode): nat {
    if events == [] then 0 else (if events[0].on.Of(m) then 1 else 0) + Count(events[1..], m)
  }

  function Nonzero(n: Trio<nat>): Trio<bool> {
    Trio(n.read > 0, n.write > 0, n.closed > 0)
  }

  /** Whether a mode is on after a change. */
  predicate After(was: bool, k: Kind) {
    k == Adding || (k == Unchanged && was)
  }

  /** The counts are those of the descriptor's events. */
  ghost predicate Counted(n: Trio<nat>, events: seq<Ev>) {
    forall m: Mode :: n.Of(m) == Count(events, m) <= MAX_COUNT
  }

  ghost predicate SlotOk(s: Slot, fd: nat, cs: seq<Change>, kernel: set<Watch>)
    requires s.Slot?
  {
    && Counted(s.n, s.events)
    && s.idx <= |cs|
    && if s.idx == 0 then forall m: Mode :: m != Closed ==> (Watch(fd, m) in kernel <==> s.n.Of(m) > 0)
       else ChangeOk(cs[s.idx - 1], s.n, fd, kernel)
  }

  /** A pending change starts from what the kernel has and leads to what the counts ask for; it deletes nothing
      that the kernel does not have. */
  ghost predicate ChangeOk(c: Change, n: Trio<nat>, fd: nat, kernel: set<Watch>) {
    && c.fd == fd
    && forall m: Mode ::
         && (m != Closed ==> (Watch(fd, m) in kernel <==> c.before.Of(m)))
         && (After(c.before.Of(m), c.kind.Of(m)) <==> n.Of(m) > 0)
         && (c.kind.Of(m) == Deleting ==> c.before.Of(m))
  }

  ghost predicate Indexed(view: seq<Slot>, cs: seq<Change>) {
    forall i :: 0 <= i < |cs| ==> cs[i].fd < |view| && view[cs[i].fd].Slot? && view[cs[i].fd].idx == i + 1
  }

  /** The invariant of the event map, the change list and the kernel. */
  ghost predicate Consistent(view: seq<Slot>, cs: seq<Change>, kernel: set<Watch>) {
    && Indexed(view, cs)
    && (forall fd :: 0 <= fd < |view| && view[fd].Slot? ==> SlotOk(view[fd], fd, cs, kernel))
    && (forall w :: w in kernel ==> w.mode != Closed && w.fd < |view| && view[w.fd].Slot?)
  }

  lemma SlotIsOk(view: seq<Slot>, cs: seq<Change>, kernel: set<Watch>, fd: nat)
    requires Consistent(view, cs, kernel) && fd < |view| && view[fd].Slot?
    ensures SlotOk(view[fd], fd, cs, kernel)
  {
  }

  // ---- Making a change

  const NOTHING := Trio(Unchanged, Unchanged, Unchanged)

  /** The index and the list after an entry for the slot was found or made. */
  function Ensured(s: Slot, fd: nat, before: Trio<bool>, cs: seq<Change>): (r: (Slot, seq<Change>))
    requires s.Slot?
    ensures r.0.Slot?
  {
    if s.idx == 0 then (s.(idx := |cs| + 1), cs + [Change(fd, before, NOTHING)]) else (s, cs)
  }

  function Added(c: Change, on: Trio<bool>): Change {
    c.(kind := Trio(if on.read then Adding else c.kind.read, if on.write then Adding else c.kind.write,
                    if on.closed then Adding else c.kind.closed))
  }

  function Deleted(c: Change, on: Trio<bool>): Change {
    c.(kind := Trio(DeletedKind(c.before.read, c.kind.read, on.read),
                    DeletedKind(c.before.write, c.kind.write, on.write),
                    DeletedKind(c.before.closed, c.kind.closed, on.closed)))
  }

  /** Deleting what was not there before the changes leaves no change at all. */
  function DeletedKind(was: bool, k: Kind, on: bool): Kind {
    if !on then k else if was then Deleting else Unchanged
  }

  /** An add is recorded for the modes, whatever was recorded for them before. */
  ghost predicate Adds(c: Change, d: Change, on: Trio<bool>) {
    && d.fd == c.fd && d.before == c.before
    && forall m: Mode :: d.kind.Of(m) == if on.Of(m) then Adding else c.kind.Of(m)
  }

  /** A delete is recorded for those of the modes that were there before the changes, and nothing for the others. */
  ghost predicate Deletes(c: Change, d: Change, on: Trio<bool>) {
    && d.fd == c.fd && d.before == c.before
    && forall m: Mode ::
         d.kind.Of(m) == if !on.Of(m) then c.kind.Of(m) else if c.before.Of(m) then Deleting else Unchanged
  }

  lemma AddedSays(c: Change, on: Trio<bool>)
    ensures Adds(c, Added(c, on), on)
  {
  }

  lemma DeletedSays(c: Change, on: Trio<bool>)
    ensures Deletes(c, Deleted(c, on), on)
  {
  }

  function Plus(n: Trio<nat>, on: Trio<bool>): Trio<nat> {
    Trio(if on.read then n.read + 1 else n.read, if on.write then n.write + 1 else n.write,
         if on.closed then n.closed + 1 else n.closed)
  }

  function Minus(n: Trio<nat>, on: Trio<bool>): Trio<nat>
    requires forall m: Mode :: on.Of(m) ==> n.Of(m) > 0
  {
    assert on.Of(Read) ==> n.Of(Read) > 0;
    assert on.Of(Write) ==> n.Of(Write) > 0;
    assert on.Of(Closed) ==> n.Of(Closed) > 0;
    Trio(if on.read then n.read - 1 else n.read, if on.write then n.write - 1 else n.write,
         if on.closed then n.closed - 1 else n.closed)
  }

  /** The modes that an event is the first to use, or the last. */
  function Edges(on: Trio<bool>, n: Trio<nat>, edge: nat): Trio<bool> {
    Trio(on.read && n.read == edge, on.write && n.write == edge, on.closed && n.closed == edge)
  }

  predicate Any(t: Trio<bool>) {
    t.read || t.write || t.closed
  }

  lemma EnsuredOk(view: seq<Slot>, cs: seq<Change>, kernel: set<Watch>, fd: nat)
    requires Consistent(view, cs, kernel) && fd < |view| && view[fd].Slot?
    ensures var (s, ds) := Ensured(view[fd], fd, Nonzero(view[fd].n), cs);
      Consistent(view[fd := s], ds, kernel) && 0 < s.idx <= |ds|
  {
    var (s, ds) := Ensured(view[fd], fd, Nonzero(view[fd].n), cs);
    var w := view[fd := s];
    assert SlotOk(view[fd], fd, cs, kernel);
    forall g | 0 <= g < |w| && w[g].Slot? ensures SlotOk(w[g], g, ds, kernel) {
      assert SlotOk(view[g], g, cs, kernel);
    }
  }

  /** A slot whose counts and pending change move together. */
  lemma ChangedOk(view: seq<Slot>, cs: seq<Change>, kernel: set<Watch>, fd: nat, s: Slot, c: Change)
    requires Consistent(view, cs, kernel) && fd < |view| && view[fd].Slot? && s.Slot? && s.idx == view[fd].idx
    requires 0 < s.idx <= |cs| && ChangeOk(c, s.n, fd, kernel)
    requires Counted(s.n, s.events)
    ensures Consistent(view[fd := s], cs[s.idx - 1 := c], kernel)
  {
    var w, ds := view[fd := s], cs[s.idx - 1 := c];
    assert cs[s.idx - 1].fd == fd by { assert SlotOk(view[fd], fd, cs, kernel); }
    forall g | 0 <= g < |w| && w[g].Slot? ensures SlotOk(w[g], g, ds, kernel) {
      assert SlotOk(view[g], g, cs, kernel);
      if g != fd && w[g].idx > 0 {
        assert w[g].idx != s.idx;
      }
    }
  }

  /** Counts may move alone as long as none leaves or reaches zero. */
  lemma CountedOk(view: seq<Slot>, cs: seq<Change>, kernel: set<Watch>, fd: nat, s: Slot)
    requires Consistent(view, cs, kernel) && fd < |view| && view[fd].Slot? && s.Slot? && s.idx == view[fd].idx
    requires Counted(s.n, s.events)
    requires forall m: Mode :: s.n.Of(m) > 0 <==> view[fd].n.Of(m) > 0
    ensures Consistent(view[fd := s], cs, kernel)
  {
    var w := view[fd := s];
    forall g | 0 <= g < |w| && w[g].Slot? ensures SlotOk(w[g], g, cs, kernel) {
      assert SlotOk(view[g], g, cs, kernel);
    }
  }

  /** What `evmap_io_add_` makes of a slot and the list. */
  function AfterAdd(s: Slot, fd: nat, cs: seq<Change>, ev: Ev): (r: (Slot, seq<Change>))
    requires s.Slot? && s.idx <= |cs|
    ensures r.0.Slot?
  {
    var res := Edges(ev.on, s.n, 0);
    var (t, ds) := if Any(res) then Ensured(s, fd, Nonzero(s.n), cs) else (s, cs);
    (Slot(Plus(s.n, ev.on), [ev] + s.events, t.idx),
     if Any(res) then ds[t.idx - 1 := Added(ds[t.idx - 1], res)] else ds)
  }

  lemma AddCounts(n: Trio<nat>, events: seq<Ev>, ev: Ev)
    requires Counted(n, events) && forall m: Mode :: Plus(n, ev.on).Of(m) <= MAX_COUNT
    ensures Counted(Plus(n, ev.on), [ev] + events)
  {
    assert ([ev] + events)[1..] == events;
  }

  lemma AddOk(view: seq<Slot>, cs: seq<Change>, kernel: set<Watch>, fd: nat, ev: Ev)
    requires Consistent(view, cs, kernel) && fd < |view| && view[fd].Slot?
    requires forall m: Mode :: Plus(view[fd].n, ev.on).Of(m) <= MAX_COUNT
    ensures SlotOk(view[fd], fd, cs, kernel)
    ensures var (s, ds) := AfterAdd(view[fd], fd, cs, ev); Consistent(view[fd := s], ds, kernel)
  {
    hide Consistent, Counted, Count;
    SlotIsOk(view, cs, kernel, fd);
    var res := Edges(ev.on, view[fd].n, 0);
    var (s, ds) := AfterAdd(view[fd], fd, cs, ev);
    AddCounts(view[fd].n, view[fd].events, ev);
    if Any(res) {
      EnsuredOk(view, cs, kernel, fd);
      var (t, es) := Ensured(view[fd], fd, Nonzero(view[fd].n), cs);
      SlotIsOk(view[fd := t], es, kernel, fd);
      ChangedOk(view[fd := t], es, kernel, fd, s, Added(es[t.idx - 1], res));
      assert view[fd := t][fd := s] == view[fd := s];
    } else {
      CountedOk(view, cs, kernel, fd, s);
    }
  }

  function Without(events: seq<Ev>, ev: Ev): (rest: seq<Ev>)
    requires ev in events
    ensures multiset(events) == multiset(rest) + multiset{ev} && |rest| == |events| - 1
  {
    assert events == [events[0]] + events[1..];
    if events[0] == ev then events[1..] else [events[0]] + Without(events[1..], ev)
  }

  lemma {:induction false} CountWithout(events: seq<Ev>, ev: Ev, m: Mode)
    requires ev in events
    ensures Count(events, m) == Count(Without(events, ev), m) + if ev.on.Of(m) then 1 else 0
  {
    if events[0] != ev {
      CountWithout(events[1..], ev, m);
      assert ([events[0]] + Without(events[1..], ev))[1..] == Without(events[1..], ev);
    }
  }

  /** What `evmap_io_del_` makes of a slot and the list. */
  function AfterDel(s: Slot, fd: nat, cs: seq<Change>, ev: Ev): (r: (Slot, seq<Change>))
    requires s.Slot? && s.idx <= |cs| && ev in s.events && forall m: Mode :: ev.on.Of(m) ==> s.n.Of(m) > 0
    ensures r.0.Slot?
  {
    var res := Edges(ev.on, s.n, 1);
    var (t, ds) := if Any(res) then Ensured(s, fd, Nonzero(s.n), cs) else (s, cs);
    (Slot(Minus(s.n, ev.on), Without(s.events, ev), t.idx),
     if Any(res) then ds[t.idx - 1 := Deleted(ds[t.idx - 1], res)] else ds)
  }

  lemma DelCounts(n: Trio<nat>, events: seq<Ev>, ev: Ev)
    requires Counted(n, events) && ev in events
    ensures forall m: Mode :: ev.on.Of(m) ==> n.Of(m) > 0
    ensures Counted(Minus(n, ev.on), Without(events, ev))
  {
    forall m: Mode ensures Count(events, m) == Count(Without(events, ev), m) + if ev.on.Of(m) then 1 else 0 {
      CountWithout(events, ev, m);
    }
  }

  lemma DelOk(view: seq<Slot>, cs: seq<Change>, kernel: set<Watch>, fd: nat, ev: Ev)
    requires Consistent(view, cs, kernel) && fd < |view| && view[fd].Slot? && ev in view[fd].events
    ensures SlotOk(view[fd], fd, cs, kernel) && forall m: Mode :: ev.on.Of(m) ==> view[fd].n.Of(m) > 0
    ensures var (s, ds) := AfterDel(view[fd], fd, cs, ev); Consistent(view[fd := s], ds, kernel)
  {
    hide Consistent, Counted, Count, Without;
    SlotIsOk(view, cs, kernel, fd);
    DelCounts(view[fd].n, view[fd].events, ev);
    var res := Edges(ev.on, view[fd].n, 1);
    var (s, ds) := AfterDel(view[fd], fd, cs, ev);
    if Any(res) {
      EnsuredOk(view, cs, kernel, fd);
      var (t, es) := Ensured(view[fd], fd, Nonzero(view[fd].n), cs);
      SlotIsOk(view[fd := t], es, kernel, fd);
      ChangedOk(view[fd := t], es, kernel, fd, s, Deleted(es[t.idx - 1], res));
      assert view[fd := t][fd := s] == view[fd := s];
    } else {
      CountedOk(view, cs, kernel, fd, s);
    }
  }

  // ---- The batch for the kernel

  function BatchOne(c: Change): (b: seq<KEvent>)
    ensures |b| <= 2
  {
    (if c.kind.read != Unchanged then [KEvent(c.fd, Read, c.kind.read == Adding)] else [])
    + (if c.kind.write != Unchanged then [KEvent(c.fd, Write, c.kind.write == Adding)] else [])
  }

  /** The batch for a list of changes. */
  function Batch(cs: seq<Change>): seq<KEvent> {
    if cs == [] then [] else Batch(cs[..|cs| - 1]) + BatchOne(cs[|cs| - 1])
  }

  /** The kernel's filters after a batch. */
  function Applied(kernel: set<Watch>, batch: seq<KEvent>): set<Watch> {
    if batch == [] then kernel
    else
      var k := Applied(kernel, batch[..|batch| - 1]);
      var e := batch[|batch| - 1];
      if e.add then k + {Watch(e.ident, e.filter)} else k - {Watch(e.ident, e.filter)}
  }

  lemma {:induction false} AppliedAppend(kernel: set<Watch>, a: seq<KEvent>, b: seq<KEvent>)
    ensures Applied(kernel, a + b) == Applied(Applied(kernel, a), b)
    decreases |b|
  {
    if b == [] {
      assert a + b == a;
    } else {
      AppliedAppend(kernel, a, b[..|b| - 1]);
      assert (a + b)[..|a + b| - 1] == a + b[..|b| - 1];
    }
  }

  lemma AppliedFew(kernel: set<Watch>, e: KEvent)
    ensures Applied(kernel, []) == kernel
    ensures Applied(kernel, [e]) ==
      if e.add then kernel + {Watch(e.ident, e.filter)} else kernel - {Watch(e.ident, e.filter)}
  {
    assert [e][..0] == [];
  }

  lemma AppliedOne(kernel: set<Watch>, c: Change, w: Watch)
    ensures w in Applied(kernel, BatchOne(c)) <==>
      if w.fd == c.fd && w.mode != Closed then After(w in kernel, c.kind.Of(w.mode)) else w in kernel
  {
    hide Applied;
    var e, f := KEvent(c.fd, Read, c.kind.read == Adding), KEvent(c.fd, Write, c.kind.write == Adding);
    var r := if c.kind.read != Unchanged then [e] else [];
    var s := if c.kind.write != Unchanged then [f] else [];
    AppliedAppend(kernel, r, s);
    AppliedFew(kernel, e);
    AppliedFew(Applied(kernel, r), f);
  }

  /** Applying the batch turns every changed mode into what its change says, and leaves the others. */
  lemma {:induction false} BatchEffect(cs: seq<Change>, kernel: set<Watch>, w: Watch)
    requires forall i, j :: 0 <= i < j < |cs| ==> cs[i].fd != cs[j].fd
    requires w.mode != Closed
    ensures (forall c :: c in cs ==> c.fd != w.fd) ==> (w in Applied(kernel, Batch(cs)) <==> w in kernel)
    ensures forall c :: c in cs && c.fd == w.fd ==>
      (w in Applied(kernel, Batch(cs)) <==> After(w in kernel, c.kind.Of(w.mode)))
  {
    if cs != [] {
      var init, last := cs[..|cs| - 1], cs[|cs| - 1];
      BatchEffect(init, kernel, w);
      AppliedAppend(kernel, Batch(init), BatchOne(last));
      AppliedOne(Applied(kernel, Batch(init)), last, w);
      assert cs == init + [last];
      if last.fd == w.fd {
        forall c | c in init ensures c.fd != w.fd {
          var i :| 0 <= i < |init| && init[i] == c;
          assert cs[i].fd != cs[|cs| - 1].fd;
        }
      }
    }
  }

  /** All indices cleared. */
  function Cleared(view: seq<Slot>): seq<Slot> {
    seq(|view|, i requires 0 <= i < |view| => if view[i].Slot? then view[i].(idx := 0) else Vacant)
  }

  /** Coalescing is exact: after the batch the kernel watches what the counts ask for, and the list can be
      emptied. */
  lemma BatchExact(view: seq<Slot>, cs: seq<Change>, kernel: set<Watch>)
    requires Consistent(view, cs, kernel)
    ensures Consistent(Cleared(view), [], Applied(kernel, Batch(cs)))
  {
    forall i, j | 0 <= i < j < |cs| ensures cs[i].fd != cs[j].fd {
      assert view[cs[i].fd].idx == i + 1 && view[cs[j].fd].idx == j + 1;
    }
    var k := Applied(kernel, Batch(cs));
    var v := Cleared(view);
    forall fd | 0 <= fd < |v| && v[fd].Slot? ensures SlotOk(v[fd], fd, [], k) {
      assert SlotOk(view[fd], fd, cs, kernel);
      forall m: Mode | m != Closed ensures Watch(fd, m) in k <==> v[fd].n.Of(m) > 0 {
        BatchEffect(cs, kernel, Watch(fd, m));
        if view[fd].idx == 0 {
          forall c | c in cs ensures c.fd != fd {
            var i :| 0 <= i < |cs| && cs[i] == c;
            assert view[cs[i].fd].idx == i + 1;
          }
        } else {
          assert cs[view[fd].idx - 1] in cs;
        }
      }
    }
    forall w | w in k ensures w.mode != Closed && w.fd < |v| && v[w.fd].Slot? {
      BatchWatches(cs, kernel, w);
    }
  }

  lemma {:induction false} BatchWatches(cs: seq<Change>, kernel: set<Watch>, w: Watch)
    requires w in Applied(kernel, Batch(cs))
    ensures w in kernel || (w.mode != Closed && exists c :: c in cs && c.fd == w.fd)
  {
    if cs != [] {
      var init, last := cs[..|cs| - 1], cs[|cs| - 1];
      AppliedAppend(kernel, Batch(init), BatchOne(last));
      AppliedOne(Applied(kernel, Batch(init)), last, w);
      assert last in cs && forall c :: c in init ==> c in cs;
      if w in Applied(kernel, Batch(init)) {
        BatchWatches(init, kernel, w);
      }
    }
  }

  /** The batch deletes nothing that the kernel does not have. */
  lemma {:induction false} BatchDeletesExisting(view: seq<Slot>, cs: seq<Change>, kernel: set<Watch>, n: nat, i: nat)
    requires Consistent(view, cs, kernel) && n <= |cs| && i < |Batch(cs[..n])| && !Batch(cs[..n])[i].add
    ensures var e := Batch(cs[..n])[i]; Watch(e.ident, e.filter) in kernel
  {
    if n > 0 {
      var c := cs[n - 1];
      assert cs[..n][..n - 1] == cs[..n - 1];
      if i < |Batch(cs[..n - 1])| {
        BatchDeletesExisting(view, cs, kernel, n - 1, i);
      } else {
        assert SlotOk(view[c.fd], c.fd, cs, kernel);
        assert ChangeOk(c, view[c.fd].n, c.fd, kernel);
        assert c.kind.Of(Read) == c.kind.read && c.kind.Of(Write) == c.kind.write;
      }
    }
  }

  lemma {:induction false} CountPositive(events: seq<Ev>, m: Mode)
    ensures Count(events, m) > 0 <==> exists e :: e in events && e.on.Of(m)
  {
    if events != [] {
      CountPositive(events[1..], m);
      assert events == [events[0]] + events[1..];
    }
  }

  // ---- Starting over after a fork

  const NO_MODES := Trio(false, false, false)

  lemma RebuiltOk(v: seq<Slot>, cs: seq<Change>, s: Slot)
    requires Consistent(v, cs, {}) && s.Slot? && Counted(s.n, s.events) && s.idx == |cs| + 1
    ensures Consistent(v + [s], cs + [Added(Change(|v|, NO_MODES, NOTHING), Nonzero(s.n))], {})
  {
    hide Counted;
    var w, ds := v + [s], cs + [Added(Change(|v|, NO_MODES, NOTHING), Nonzero(s.n))];
    forall fd | 0 <= fd < |w| && w[fd].Slot? ensures SlotOk(w[fd], fd, ds, {}) {
      if fd < |v| {
        SlotIsOk(v, cs, {}, fd);
      }
    }
  }

  lemma StillVacant(v: seq<Slot>, cs: seq<Change>, kernel: set<Watch>)
    requires Consistent(v, cs, kernel)
    ensures Consistent(v + [Vacant], cs, kernel)
  {
    forall fd | 0 <= fd < |v| && v[fd].Slot? ensures SlotOk((v + [Vacant])[fd], fd, cs, kernel) {
      SlotIsOk(v, cs, kernel, fd);
    }
  }
}
