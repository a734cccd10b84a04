/** The event map of an event base, its change list, and the batches for the kernel queue. */
module EventMap {
  import opened Changelist

  const INT_MAX: int := 0x7fff_ffff
  const POINTER_SIZE: int := 8
  const NEVENT: nat := 64

  /** `struct evmap_io`, with the changelist's index behind it. */
  class IoContext {
    var n: Trio<nat>
    var events: seq<Ev>
    var idxPlus1: nat

    constructor ()
      ensures n == Trio(0, 0, 0) && events == [] && idxPlus1 == 0
    {
      n, events, idxPlus1 := Trio(0, 0, 0), [], 0;
    }
  }

  ghost predicate Pictured(c: IoContext?, s: Slot)
    reads c
  {
    if c == null then s == Vacant else s == Slot(c.n, c.events, c.idxPlus1)
  }

  lemma NothingConsistent()
    ensures Consistent([], [], {})
  {
  }

  /** The events registered for a descriptor. */
  ghost function EventsOf(view: seq<Slot>, fd: int): seq<Ev> {
    if 0 <= fd < |view| && view[fd].Slot? then view[fd].events else []
  }

  ghost predicate SameEvents(view: seq<Slot>, v: seq<Slot>) {
    forall fd :: EventsOf(view, fd) == EventsOf(v, fd)
  }

  class IoBase {
    var entries: array<IoContext?>
    var changes: array<Change>
    var nChanges: nat
    var kqChanges: array<KEvent>
    /** The filters of the kernel queue; only a batch changes them. */
    var kernel: set<Watch>

    ghost var view: seq<Slot>
    ghost var repr: set<object>

    /** The objects are this base's own, and `view` shows what the contexts hold. */
    ghost predicate Shaped()
      reads this, repr
    {
      && this !in repr && entries in repr && changes in repr && kqChanges in repr
      && nChanges <= changes.Length && kqChanges.Length >= 2 && |view| == entries.Length
      && (forall fd :: 0 <= fd < |view| ==>
            (entries[fd] != null ==> entries[fd] in repr) && Pictured(entries[fd], view[fd]))
      && (forall i, j :: 0 <= i < j < |view| && entries[i] != null ==> entries[i] != entries[j])
    }

    /** The pending changes. */
    ghost function List(): seq<Change>
      requires Shaped()
      reads this, repr
    {
      changes[..nChanges]
    }

    ghost predicate Valid()
      reads this, repr
    {
      Shaped() && Consistent(view, List(), kernel)
    }

    constructor ()
      ensures Valid() && fresh(repr) && view == [] && kernel == {} && List() == []
    {
      hide Consistent;
      NothingConsistent();
      entries := new IoContext?[0];
      changes := new Change[0];
      nChanges := 0;
      kqChanges := new KEvent[NEVENT];
      kernel := {};
      view := [];
      new;
      repr := {entries as object, changes as object, kqChanges as object};
    }

    // ---- Primitive updates

    method StoreCounts(fd: nat, n: Trio<nat>, events: seq<Ev>)
      requires Shaped() && fd < |view| && view[fd].Slot?
      modifies this`view, entries[fd]
      ensures Shaped() && List() == old(List())
      ensures view == old(view)[fd := Slot(n, events, old(view)[fd].idx)]
    {
      var c := entries[fd];
      c.n := n;
      c.events := events;
      view := view[fd := Slot(n, events, view[fd].idx)];
    }

    method StoreIndex(fd: nat, idx: nat)
      requires Shaped() && fd < |view| && view[fd].Slot?
      modifies this`view, entries[fd]
      ensures Shaped() && List() == old(List())
      ensures view == old(view)[fd := old(view)[fd].(idx := idx)]
    {
      entries[fd].idxPlus1 := idx;
      view := view[fd := view[fd].(idx := idx)];
    }

    method StoreChange(i: nat, c: Change)
      requires Shaped() && i < nChanges
      modifies changes
      ensures Shaped() && List() == old(List())[i := c]
    {
      changes[i] := c;
    }

    /** `event_changelist_grow`. */
    method Grow()
      requires Shaped()
      modifies this`changes, this`repr
      ensures Shaped() && fresh(repr - old(repr)) && List() == old(List()) && changes.Length > old(changes.Length)
    {
      var newSize := if changes.Length < 64 then 64 else changes.Length * 2;
      var former, n := changes, nChanges;
      var bigger := new Change[newSize](i requires 0 <= i reads former =>
        if i < former.Length then former[i] else Change(0, Trio(false, false, false), NOTHING));
      changes := bigger;
      repr := repr + {bigger};
      assert changes[..n] == former[..n];
    }

    // ---- The change list

    /** `event_changelist_get_or_construct`. */
    method GetOrConstruct(fd: nat, before: Trio<bool>) returns (i: nat)
      requires Shaped() && fd < |view| && view[fd].Slot? && view[fd].idx <= nChanges
      modifies this`changes, this`nChanges, this`view, this`repr, repr
      ensures Shaped() && fresh(repr - old(repr))
      ensures i < nChanges && view == old(view)[fd := old(view)[fd].(idx := i + 1)]
      ensures if old(view)[fd].idx > 0 then i == old(view)[fd].idx - 1 && List() == old(List())
              else i == old(nChanges) && List() == old(List()) + [Change(fd, before, NOTHING)]
    {
      var c := entries[fd];
      if c.idxPlus1 == 0 {
        if nChanges == changes.Length {
          Grow();
        }
        i := nChanges;
        changes[i] := Change(fd, before, NOTHING);
        nChanges := nChanges + 1;
        StoreIndex(fd, i + 1);
      } else {
        i := c.idxPlus1 - 1;
      }
    }

    /** `event_changelist_add_`: an add replaces any previous delete. */
    method ChangelistAdd(fd: nat, before: Trio<bool>, on: Trio<bool>)
      requires Shaped() && fd < |view| && view[fd].Slot? && view[fd].idx <= nChanges
      modifies this`changes, this`nChanges, this`view, this`repr, repr
      ensures Shaped() && fresh(repr - old(repr))
      ensures var (s, ds) := Ensured(old(view)[fd], fd, before, old(List()));
        view == old(view)[fd := s] && 0 < s.idx <= |ds| && List() == ds[s.idx - 1 := Added(ds[s.idx - 1], on)]
        && Adds(ds[s.idx - 1], List()[s.idx - 1], on)
    {
      hide Pictured, Adds;
      var i := GetOrConstruct(fd, before);
      var c := changes[i];
      AddedSays(c, on);
      if on.read { c := c.(kind := c.kind.(read := Adding)); }
      if on.write { c := c.(kind := c.kind.(write := Adding)); }
      if on.closed { c := c.(kind := c.kind.(closed := Adding)); }
      StoreChange(i, c);
    }

    /** `event_changelist_del_`: deleting what was not there before the changes leaves no change. */
    method ChangelistDel(fd: nat, before: Trio<bool>, on: Trio<bool>)
      requires Shaped() && fd < |view| && view[fd].Slot? && view[fd].idx <= nChanges
      modifies this`changes, this`nChanges, this`view, this`repr, repr
      ensures Shaped() && fresh(repr - old(repr))
      ensures var (s, ds) := Ensured(old(view)[fd], fd, before, old(List()));
        view == old(view)[fd := s] && 0 < s.idx <= |ds| && List() == ds[s.idx - 1 := Deleted(ds[s.idx - 1], on)]
        && Deletes(ds[s.idx - 1], List()[s.idx - 1], on)
    {
      hide Pictured, Deletes;
      var i := GetOrConstruct(fd, before);
      var c := changes[i];
      DeletedSays(c, on);
      if on.read { c := c.(kind := c.kind.(read := if !c.before.read then Unchanged else Deleting)); }
      if on.write { c := c.(kind := c.kind.(write := if !c.before.write then Unchanged else Deleting)); }
      if on.closed { c := c.(kind := c.kind.(closed := if !c.before.closed then Unchanged else Deleting)); }
      StoreChange(i, c);
    }

    // ---- The event map

    method CountsOf(fd: nat) returns (n: Trio<nat>, events: seq<Ev>)
      requires Shaped() && fd < |view| && view[fd].Slot?
      ensures n == view[fd].n && events == view[fd].events
    {
      n, events := entries[fd].n, entries[fd].events;
    }

    /** `evmap_make_space`: doubles the map until it has the slot. */
    method MakeSpace(slot: nat) returns (ok: bool)
      requires Valid()
      modifies this`entries, this`view, this`repr
      ensures Valid() && fresh(repr - old(repr)) && kernel == old(kernel)
      ensures forall fd :: EventsOf(view, fd) == EventsOf(old(view), fd)
      ensures if ok then slot < |view| else slot > INT_MAX / 16
      ensures List() == old(List())
    {
      hide Consistent;
      ok := true;
      if entries.Length <= slot {
        var nentries := if entries.Length > 0 then entries.Length else 32;
        if slot > INT_MAX / 2 { return false; }
        while nentries <= slot
          invariant nentries > 0 && (nentries <= 32 || nentries == entries.Length || nentries <= 2 * slot)
          invariant nentries >= entries.Length
          decreases slot - nentries
        {
          nentries := nentries * 2;
        }
        if nentries > INT_MAX / POINTER_SIZE { return false; }
        ghost var more := seq(nentries - |view|, i => Vacant);
        var former := entries;
        var bigger := new IoContext?[nentries](i requires 0 <= i reads former =>
          if i < former.Length then former[i] else null);
        VacantConsistent(view, List(), kernel, more);
        entries := bigger;
        repr := repr + {bigger};
        view := view + more;
      }
    }

    /** The slot's context, made when there is none. */
    method Construct(fd: nat)
      requires Valid() && fd < |view|
      modifies entries, this`view, this`repr
      ensures Valid() && fresh(repr - old(repr)) && kernel == old(kernel) && List() == old(List())
      ensures |view| == |old(view)| && view[fd].Slot? && forall g :: EventsOf(view, g) == EventsOf(old(view), g)
    {
      hide Consistent;
      if entries[fd] == null {
        FreshConsistent(view, List(), kernel, fd);
        var c := new IoContext();
        entries[fd] := c;
        repr := repr + {c};
        view := view[fd := Slot(Trio(0, 0, 0), [], 0)];
      }
    }

    /** `evmap_io_add_`: -1 when nothing was done, 1 when the back end was told, 0 otherwise. */
    method IoAdd(fd: int, ev: Ev) returns (r: int)
      requires Valid()
      modifies this`entries, this`changes, this`nChanges, this`view, this`repr, repr
      ensures Valid() && fresh(repr - old(repr)) && kernel == old(kernel) && -1 <= r <= 1
      ensures EventsOf(view, fd) == (if fd >= 0 && r >= 0 then [ev] else []) + old(EventsOf(view, fd))
      ensures forall g :: g != fd ==> EventsOf(view, g) == old(EventsOf(view, g))
      ensures r == -1 ==> fd > INT_MAX / 16 || (fd >= 0 && Uses(ev, old(EventsOf(view, fd)), MAX_COUNT))
      ensures r == 1 <==> fd >= 0 && r != -1 && Uses(ev, old(EventsOf(view, fd)), 0)
    {
      hide Consistent, Pictured, Uses;
      if fd < 0 { return 0; }
      if fd >= entries.Length {
        var ok := MakeSpace(fd);
        if !ok { return -1; }
      }
      Construct(fd);
      r := Register(fd, ev);
    }

    method Register(fd: nat, ev: Ev) returns (r: int)
      requires Valid() && fd < |view| && view[fd].Slot?
      modifies this`changes, this`nChanges, this`view, this`repr, repr
      ensures Valid() && fresh(repr - old(repr)) && kernel == old(kernel) && -1 <= r <= 1
      ensures EventsOf(view, fd) == (if r >= 0 then [ev] else []) + old(EventsOf(view, fd))
      ensures forall g :: g != fd ==> EventsOf(view, g) == old(EventsOf(view, g))
      ensures r == -1 ==> Uses(ev, old(EventsOf(view, fd)), MAX_COUNT)
      ensures r == 1 <==> r != -1 && Uses(ev, old(EventsOf(view, fd)), 0)
    {
      hide Consistent, Pictured, Count, Uses, Adds;
      SlotIsOk(view, List(), kernel, fd);
      ghost var v, cs := view, List();
      var n, events := CountsOf(fd);
      var res, more := Edges(ev.on, n, 0), Plus(n, ev.on);
      EdgesUse(ev, n, events);
      if more.read > MAX_COUNT || more.write > MAX_COUNT || more.closed > MAX_COUNT { return -1; }
      AddOk(v, cs, kernel, fd, ev);
      r := 0;
      if Any(res) {
        ChangelistAdd(fd, Nonzero(n), res);
        r := 1;
      }
      StoreCounts(fd, more, [ev] + events);
      ghost var a := AfterAdd(v[fd], fd, cs, ev);
      assert view == v[fd := a.0] && List() == a.1;
    }

    /** `evmap_io_del_`: 1 when the back end was told, 0 when not, -1 for a descriptor beyond the map. */
    method IoDel(fd: int, ev: Ev) returns (r: int)
      requires Valid() && (0 <= fd < |view| ==> ev in EventsOf(view, fd))
      modifies this`changes, this`nChanges, this`view, this`repr, repr
      ensures Valid() && fresh(repr - old(repr)) && kernel == old(kernel)
      ensures 0 <= fd < |old(view)| ==> EventsOf(view, fd) == Without(old(EventsOf(view, fd)), ev)
      ensures forall g :: g != fd || fd >= |view| ==> EventsOf(view, g) == old(EventsOf(view, g))
      ensures r == if fd < 0 then 0 else if fd >= |old(view)| then -1
                   else if Uses(ev, old(EventsOf(view, fd)), 1) then 1 else 0
    {
      hide Consistent, Pictured, Uses;
      if fd < 0 { return 0; }
      if fd >= entries.Length { return -1; }
      r := Unregister(fd, ev);
    }

    method Unregister(fd: nat, ev: Ev) returns (r: int)
      requires Valid() && fd < |view| && view[fd].Slot? && ev in EventsOf(view, fd)
      modifies this`changes, this`nChanges, this`view, this`repr, repr
      ensures Valid() && fresh(repr - old(repr)) && kernel == old(kernel)
      ensures EventsOf(view, fd) == Without(old(EventsOf(view, fd)), ev)
      ensures forall g :: g != fd ==> EventsOf(view, g) == old(EventsOf(view, g))
      ensures r == if Uses(ev, old(EventsOf(view, fd)), 1) then 1 else 0
    {
      hide Consistent, Pictured, Count, Uses, Without, Deletes;
      SlotIsOk(view, List(), kernel, fd);
      ghost var v, cs := view, List();
      var n, events := CountsOf(fd);
      EdgesUse(ev, n, events);
      DelOk(v, cs, kernel, fd, ev);
      var res, less := Edges(ev.on, n, 1), Minus(n, ev.on);
      r := 0;
      if Any(res) {
        ChangelistDel(fd, Nonzero(n), res);
        r := 1;
      }
      StoreCounts(fd, less, Without(events, ev));
      ghost var a := AfterDel(v[fd], fd, cs, ev);
      assert view == v[fd := a.0] && List() == a.1;
    }

    // ---- The kernel queue

    /** The kernel events for one change. */
    method PutChange(n: nat, c: Change) returns (next: nat)
      requires Shaped() && n + 2 <= kqChanges.Length
      modifies kqChanges
      ensures Shaped() && List() == old(List())
      ensures next <= kqChanges.Length && kqChanges[..next] == old(kqChanges[..n]) + BatchOne(c)
    {
      hide Pictured;
      next := n;
      if c.kind.read != Unchanged {
        kqChanges[next] := KEvent(c.fd, Read, c.kind.read == Adding);
        next := next + 1;
      }
      if c.kind.write != Unchanged {
        kqChanges[next] := KEvent(c.fd, Write, c.kind.write == Adding);
        next := next + 1;
      }
    }

    /** Doubles the array for the batch. */
    method GrowBatch(n: nat)
      requires Shaped() && n <= kqChanges.Length
      modifies this`kqChanges, this`repr
      ensures Shaped() && fresh(repr - old(repr)) && fresh(kqChanges) && List() == old(List())
      ensures n + 2 <= kqChanges.Length && kqChanges[..n] == old(kqChanges[..n])
    {
      var former := kqChanges;
      kqChanges := new KEvent[former.Length * 2](i requires 0 <= i reads former =>
        if i < former.Length then former[i] else KEvent(0, Read, false));
      repr := repr + {kqChanges};
    }

    /** `kq_build_changes_list`. */
    method BuildChangesList() returns (n: nat)
      requires Shaped()
      modifies this`kqChanges, this`repr, kqChanges
      ensures Shaped() && fresh(repr - old(repr)) && List() == old(List())
      ensures n <= kqChanges.Length && kqChanges[..n] == Batch(List())
    {
      hide Pictured;
      n := 0;
      ghost var cs := List();
      for i := 0 to nChanges
        invariant Shaped() && fresh(repr - old(repr)) && List() == cs
        invariant kqChanges == old(kqChanges) || fresh(kqChanges)
        invariant n <= kqChanges.Length && kqChanges[..n] == Batch(cs[..i])
      {
        BatchStep(cs, i);
        if n >= kqChanges.Length - 1 {
          GrowBatch(n);
        }
        assert changes[i] == cs[i];
        n := PutChange(n, changes[i]);
      }
      assert cs[..nChanges] == cs;
    }

    /** `event_changelist_remove_all_`. */
    method RemoveAll()
      requires Valid()
      modifies this`nChanges, this`view, repr
      ensures Shaped() && view == Cleared(old(view)) && nChanges == 0 && kqChanges[..] == old(kqChanges[..])
    {
      hide Pictured;
      ghost var v, cs := view, List();
      assert view == ClearedTo(v, 0);
      for i := 0 to nChanges
        invariant Shaped() && List() == cs && view == ClearedTo(v, i) && kqChanges[..] == old(kqChanges[..])
      {
        var fd := changes[i].fd;
        assert cs[i].fd == fd && v[fd].idx == i + 1;
        ClearedStep(v, cs, kernel, i);
        StoreIndex(fd, 0);
      }
      ClearedAll(v, cs, kernel);
      nChanges := 0;
    }

    /** A new kernel queue and an empty change list. */
    method StartOver()
      requires Shaped()
      modifies this`kqChanges, this`repr, this`changes, this`nChanges, this`kernel
      ensures Shaped() && fresh(repr - old(repr)) && kernel == {} && List() == [] && view[..0] == []
    {
      kernel := {};
      kqChanges := new KEvent[NEVENT];
      changes := new Change[0];
      nChanges := 0;
      repr := repr + {kqChanges as object, changes as object};
    }

    /** `event_reinit`: a new kernel queue and an empty list, and every descriptor is added again. */
    method Reinit()
      requires Valid()
      modifies this`kqChanges, this`repr, this`changes, this`nChanges, this`view, this`kernel, repr
      ensures Valid() && fresh(repr - old(repr)) && kernel == {}
      ensures |view| == |old(view)| && forall fd :: EventsOf(view, fd) == EventsOf(old(view), fd)
    {
      hide Consistent, Pictured, Counted;
      ghost var v, cs, k := view, List(), kernel;
      StartOver();
      NothingConsistent();
      AllCounted(v, cs, k);
      for fd := 0 to entries.Length
        invariant Shaped() && fresh(repr - old(repr)) && |view| == |v| == entries.Length && kernel == {}
        invariant Consistent(view[..fd], List(), {})
        invariant view[fd..] == v[fd..] && SameEvents(view, v)
      {
        assert view[fd] == v[fd];
        ReAdd(fd);
      }
      assert view[..|view|] == view;
    }

    /** `evmap_io_reinit_iter_fn`, for a descriptor that has a context. */
    method ReAdd(fd: nat)
      requires Shaped() && fd < |view| && (view[fd].Slot? ==> Counted(view[fd].n, view[fd].events))
      requires Consistent(view[..fd], List(), {})
      modifies this`changes, this`nChanges, this`view, this`repr, repr
      ensures Shaped() && fresh(repr - old(repr)) && entries == old(entries) && |view| == |old(view)|
      ensures view[fd + 1..] == old(view[fd + 1..]) && SameEvents(view, old(view))
      ensures Consistent(view[..fd + 1], List(), {})
    {
      hide Consistent, Counted, Adds;
      ghost var v, cs := view, List();
      assert v[..fd + 1] == v[..fd] + [v[fd]];
      if entries[fd] == null {
        StillVacant(view[..fd], List(), {});
        return;
      }
      var n, events := CountsOf(fd);
      StoreIndex(fd, 0);
      ChangelistAdd(fd, NO_MODES, Nonzero(n));
      ghost var s := v[fd].(idx := |cs| + 1);
      assert view == v[fd := s];
      RebuiltOk(v[..fd], cs, s);
      assert view[..fd + 1] == v[..fd] + [s];
      assert List() == cs + [Added(Change(fd, NO_MODES, NOTHING), Nonzero(n))];
    }

    /** The start of `kq_dispatch`: the pending changes become one batch for the kernel.  Afterwards the kernel
        watches exactly the modes for which there is an event. */
    method Dispatch() returns (ghost batch: seq<KEvent>)
      requires Valid()
      modifies this`kqChanges, this`repr, this`nChanges, this`view, this`kernel, repr
      ensures Valid() && fresh(repr - old(repr)) && nChanges == 0
      ensures forall fd :: EventsOf(view, fd) == old(EventsOf(view, fd))
      ensures forall fd: nat, m: Mode :: Watch(fd, m) in kernel <==>
        m != Closed && exists e :: e in EventsOf(view, fd) && e.on.Of(m)
      ensures kernel == Applied(old(kernel), batch)
      ensures forall e :: e in batch && !e.add ==> Watch(e.ident, e.filter) in old(kernel)
    {
      hide Consistent, Pictured, Batch, Applied;
      ghost var v, cs := view, List();
      var n := BuildChangesList();
      RemoveAll();
      batch := kqChanges[..n];
      DeletesExisting(v, cs, kernel);
      BatchExact(v, cs, kernel);
      kernel := Applied(kernel, kqChanges[..n]);
      KernelWanted(view, kernel);
    }
  }

  lemma BatchStep(cs: seq<Change>, i: nat)
    requires i < |cs|
    ensures Batch(cs[..i + 1]) == Batch(cs[..i]) + BatchOne(cs[i])
  {
    assert cs[..i + 1][..i] == cs[..i];
  }

  /** The indices up to `n` cleared. */
  ghost function ClearedTo(v: seq<Slot>, n: nat): seq<Slot> {
    seq(|v|, i requires 0 <= i < |v| => if v[i].Slot? && v[i].idx <= n then v[i].(idx := 0) else v[i])
  }

  lemma ClearedStep(v: seq<Slot>, cs: seq<Change>, kernel: set<Watch>, i: nat)
    requires Consistent(v, cs, kernel) && i < |cs|
    ensures cs[i].fd < |v| && ClearedTo(v, i)[cs[i].fd].Slot?
    ensures ClearedTo(v, i + 1) == ClearedTo(v, i)[cs[i].fd := ClearedTo(v, i)[cs[i].fd].(idx := 0)]
  {
    forall fd | 0 <= fd < |v| && v[fd].Slot? && v[fd].idx == i + 1 ensures fd == cs[i].fd {
      SlotIsOk(v, cs, kernel, fd);
    }
  }

  lemma ClearedAll(v: seq<Slot>, cs: seq<Change>, kernel: set<Watch>)
    requires Consistent(v, cs, kernel)
    ensures ClearedTo(v, |cs|) == Cleared(v)
  {
    forall fd | 0 <= fd < |v| && v[fd].Slot? ensures v[fd].idx <= |cs| {
      SlotIsOk(v, cs, kernel, fd);
    }
  }

  lemma DeletesExisting(v: seq<Slot>, cs: seq<Change>, kernel: set<Watch>)
    requires Consistent(v, cs, kernel)
    ensures forall e :: e in Batch(cs) && !e.add ==> Watch(e.ident, e.filter) in kernel
  {
    forall e | e in Batch(cs) && !e.add ensures Watch(e.ident, e.filter) in kernel {
      var i :| 0 <= i < |Batch(cs)| && Batch(cs)[i] == e;
      assert cs[..|cs|] == cs;
      BatchDeletesExisting(v, cs, kernel, |cs|, i);
    }
  }

  lemma AllCounted(v: seq<Slot>, cs: seq<Change>, kernel: set<Watch>)
    requires Consistent(v, cs, kernel)
    ensures forall fd :: 0 <= fd < |v| && v[fd].Slot? ==> Counted(v[fd].n, v[fd].events)
  {
    forall fd | 0 <= fd < |v| && v[fd].Slot? ensures Counted(v[fd].n, v[fd].events) {
      SlotIsOk(v, cs, kernel, fd);
    }
  }

  /** With no change pending, the kernel watches what the events ask for. */
  lemma KernelWanted(v: seq<Slot>, kernel: set<Watch>)
    requires Consistent(v, [], kernel)
    ensures forall fd: nat, m: Mode :: Watch(fd, m) in kernel <==>
      m != Closed && exists e :: e in EventsOf(v, fd) && e.on.Of(m)
  {
    forall fd: nat, m: Mode
      ensures Watch(fd, m) in kernel <==> m != Closed && exists e :: e in EventsOf(v, fd) && e.on.Of(m)
    {
      if fd < |v| && v[fd].Slot? {
        SlotIsOk(v, [], kernel, fd);
        CountPositive(v[fd].events, m);
      } else {
        assert Watch(fd, m) !in kernel;
      }
    }
  }

  /** The event uses a mode that so many of the events use. */
  ghost predicate Uses(ev: Ev, events: seq<Ev>, count: nat) {
    exists m: Mode :: ev.on.Of(m) && Count(events, m) == count
  }

  lemma EdgesUse(ev: Ev, n: Trio<nat>, events: seq<Ev>)
    requires Counted(n, events)
    ensures Any(Edges(ev.on, n, 0)) <==> Uses(ev, events, 0)
    ensures Any(Edges(ev.on, n, 1)) <==> Uses(ev, events, 1)
    ensures (exists m: Mode :: Plus(n, ev.on).Of(m) > MAX_COUNT) <==> Uses(ev, events, MAX_COUNT)
    ensures (exists m: Mode :: Plus(n, ev.on).Of(m) > MAX_COUNT) <==>
      Plus(n, ev.on).read > MAX_COUNT || Plus(n, ev.on).write > MAX_COUNT || Plus(n, ev.on).closed > MAX_COUNT
  {
    hide Count;
    var p := Plus(n, ev.on);
    assert n.Of(Read) == n.read && n.Of(Write) == n.write && n.Of(Closed) == n.closed;
    assert p.Of(Read) == p.read && p.Of(Write) == p.write && p.Of(Closed) == p.closed;
    assert ev.on.Of(Read) == ev.on.read && ev.on.Of(Write) == ev.on.write && ev.on.Of(Closed) == ev.on.closed;
  }

  lemma FreshConsistent(view: seq<Slot>, cs: seq<Change>, kernel: set<Watch>, fd: nat)
    requires Consistent(view, cs, kernel) && fd < |view| && view[fd] == Vacant
    ensures Consistent(view[fd := Slot(Trio(0, 0, 0), [], 0)], cs, kernel)
  {
    var w := view[fd := Slot(Trio(0, 0, 0), [], 0)];
    forall g | 0 <= g < |w| && w[g].Slot? ensures SlotOk(w[g], g, cs, kernel) {
      if g != fd {
        SlotIsOk(view, cs, kernel, g);
      }
    }
  }

  lemma VacantConsistent(view: seq<Slot>, cs: seq<Change>, kernel: set<Watch>, more: seq<Slot>)
    requires Consistent(view, cs, kernel) && forall i :: 0 <= i < |more| ==> more[i] == Vacant
    ensures Consistent(view + more, cs, kernel)
  {
    var w := view + more;
    forall fd | 0 <= fd < |w| && w[fd].Slot? ensures SlotOk(w[fd], fd, cs, kernel) {
      SlotIsOk(view, cs, kernel, fd);
    }
  }
}
