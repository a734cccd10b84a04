/** Reserving space at the end of a buffer, writing into it, and committing what was written. */
module EvbufferReserve {
  import opened EvbufferChains
  import opened EvbufferCore
  import opened EvbufferWrite

  const MAX_TO_COPY_IN_EXPAND: nat := 4096

  /** The first chain bytes can be added to: the last one with data, or the next if that is full. */
  function FirstFree(v: View, lwd: nat): nat {
    if lwd < |v| && v[lwd].SpaceLen() == 0 then lwd + 1 else lwd
  }

  /** The free space of up to n chains from the k-th on. */
  function Room(v: View, k: nat, n: nat): nat
    decreases n
  {
    if n == 0 || k >= |v| then 0 else v[k].SpaceLen() + Room(v, k + 1, n - 1)
  }

  lemma {:induction false} RoomSplit(v: View, k: nat, m: nat, n: nat)
    requires m <= n
    ensures Room(v, k, n) == Room(v, k, m) + Room(v, k + m, n - m)
    decreases m
  {
    if m > 0 && k < |v| {
      RoomSplit(v, k + 1, m - 1, n - 1);
    } else if k >= |v| {
      assert Room(v, k + m, n - m) == 0;
    }
  }

  lemma {:induction false} RoomSame(v: View, w: View, k: nat, n: nat)
    requires |v| <= |w| && forall i :: k <= i < k + n && i < |v| ==> v[i].SpaceLen() <= w[i].SpaceLen()
    ensures Room(v, k, n) <= Room(w, k, n)
    decreases n
  {
    if n > 0 && k < |v| {
      RoomSame(v, w, k + 1, n - 1);
    }
  }

  lemma {:induction false} RoomFrame(v: View, w: View, k: nat, n: nat)
    requires |v| == |w| && forall i :: k <= i < k + n && i < |v| ==> v[i] == w[i]
    ensures Room(v, k, n) == Room(w, k, n)
    decreases n
  {
    if n > 0 && k < |v| {
      RoomFrame(v, w, k + 1, n - 1);
    }
  }

  /** Realigning an empty chain drops no byte. */
  method Realign(buf: Evbuffer, chain: Chain, ghost k: nat)
    requires buf.Valid() && k < |buf.chains| && chain == buf.chains[k] && chain.off == 0
    modifies buf, chain
    ensures buf.Valid() && buf.Contents() == old(buf.Contents()) && buf.repr == old(buf.repr)
    ensures buf.chains == old(buf.chains) && buf.lwd == old(buf.lwd) && buf.last == old(buf.last)
    ensures buf.freezeStart == old(buf.freezeStart) && buf.freezeEnd == old(buf.freezeEnd)
    ensures k < |old(buf.view)| && buf.view == old(buf.view[k := buf.view[k].(misalign := 0)])
  {
    hide Pictures, Flat;
    buf.RepAt(k);
    FlatUpdate(buf.view, k, buf.view[k].(misalign := 0));
    buf.SetExtent(chain, 0, chain.off, k);
  }

  /** An empty chain is realigned before its space is counted. */
  function Settled(c: ChainVal): ChainVal {
    if c.off == 0 then c.(misalign := 0) else c
  }

  /** The last chain has no space at all, and it is the last one with data. */
  ghost predicate FullUp(buf: Evbuffer)
    reads buf, buf.last
  {
    && buf.chains != [] && buf.lwd == |buf.view| - 1
    && (buf.last != null && !buf.last.immutable)
    && Settled(buf.view[buf.lwd]).SpaceLen() == 0
  }

  predicate AllSettled(v: View) {
    forall i :: 0 <= i < |v| ==> Settled(v[i]) == v[i]
  }

  /** There are fewer chains than may be used, and all their space is not enough. */
  ghost predicate Appends(buf: Evbuffer, datlen: nat, n: nat)
    reads buf, buf.last
  {
    && buf.last != null && !buf.last.immutable && AllSettled(buf.view)
    && buf.lwd < |buf.view| < buf.lwd + n && Room(buf.view, FirstFree(buf.view, buf.lwd), |buf.view|) < datlen
  }

  /** A new chain that is empty has come last. */
  predicate Appended(v: View, w: View, size: nat) {
    && |w| == |v| + 1 && w[..|v|] == v
    && |w[|v|].mem| == MemoryFor(size) && w[|v|].misalign == 0 && w[|v|].off == 0 && !w[|v|].immutable
  }

  lemma RoomAll(v: View, k: nat, m: nat)
    ensures Room(v, k, m) <= Room(v, k, |v|)
    ensures k + m >= |v| ==> Room(v, k, m) == Room(v, k, |v|)
  {
    if m <= |v| {
      RoomSplit(v, k, m, |v|);
    } else {
      RoomSplit(v, k, |v|, m);
    }
  }

  /** evbuffer_expand_fast_: make datlen bytes writable in the last n chains, moving no byte. */
  method ExpandFast(buf: Evbuffer, datlen: nat, n: nat) returns (ok: bool)
    requires buf.Valid() && n >= 2
    modifies buf, buf.repr
    ensures buf.Valid() && Kept(buf) && buf.Contents() == old(buf.Contents())
    ensures CanAllocate(datlen) ==> ok
    ensures ok ==>
      buf.chains != [] && |buf.view| == |buf.chains| && Room(buf.view, FirstFree(buf.view, buf.lwd), n) >= datlen
    ensures ok ==> (FirstFree(buf.view, buf.lwd) < |buf.chains| <==> datlen > 0 || !old(FullUp(buf)))
    ensures ok && old(Appends(buf, datlen, n)) ==>
      buf.lwd == old(buf.lwd)
      && Appended(old(buf.view), buf.view, datlen - old(Room(buf.view, FirstFree(buf.view, buf.lwd), |buf.view|)))
  {
    hide Pictures, Flat, Evbuffer.Valid;
    buf.LwdAt();
    var chain := buf.last;
    if chain == null || chain.immutable {
      ok := InsertFree(buf, datlen);
      return;
    }
    ghost var v := buf.view;
    var used, avail, m := CountFree(buf, datlen, n);
    RoomAll(buf.view, FirstFree(buf.view, buf.lwd), m);
    if old(Appends(buf, datlen, n)) {
      assert buf.view == v;
    }
    if avail >= datlen {
      RoomSplit(buf.view, FirstFree(buf.view, buf.lwd), m, n);
      return true;
    }
    if used < n {
      ok := AppendFree(buf, datlen, avail, n, m);
    } else {
      ok := ReplaceFree(buf, datlen, n);
    }
  }

  /** A new empty chain goes to the end; the empty chains before it go. */
  method InsertFree(buf: Evbuffer, datlen: nat) returns (ok: bool)
    requires buf.Valid()
    modifies buf, buf.repr
    ensures buf.Valid() && Kept(buf) && buf.Contents() == old(buf.Contents())
    ensures ok <==> CanAllocate(datlen)
    ensures ok ==> buf.chains != [] && |buf.view| == |buf.chains|
    ensures ok ==> FirstFree(buf.view, buf.lwd) < |buf.chains|
    ensures ok ==> forall n: nat :: n >= 2 ==> Room(buf.view, FirstFree(buf.view, buf.lwd), n) >= datlen
  {
    hide Pictures, Flat;
    var tmp := ChainNew(datlen);
    if tmp == null {
      return false;
    }
    ChainInsert(buf, tmp);
    RoomAtEnd(buf.view, buf.lwd);
    return true;
  }

  /** Two chains after the data are enough to reach the last one. */
  lemma RoomAtEnd(v: View, lwd: nat)
    requires v != [] && lwd == if |v| == 1 then 0 else |v| - 2
    ensures forall n: nat :: n >= 2 ==>
      Room(v, FirstFree(v, lwd), n) >= v[|v| - 1].SpaceLen() + if |v| > 1 then v[lwd].SpaceLen() else 0
  {
    forall n: nat | n >= 2
      ensures Room(v, FirstFree(v, lwd), n) >= v[|v| - 1].SpaceLen() + if |v| > 1 then v[lwd].SpaceLen() else 0
    {
      var s := FirstFree(v, lwd);
      RoomSplit(v, s, 2, n);
      if s < |v| {
        assert Room(v, s + 1, 1) == if s + 1 < |v| then v[s + 1].SpaceLen() + Room(v, s + 2, 0) else 0;
      }
    }
  }

  /** The space one chain has to offer; an empty chain is realigned first. */
  method CountOne(buf: Evbuffer, chain: Chain, ghost k: nat) returns (space: nat, use: bool, next: Chain?)
    requires buf.Valid() && buf.lwd <= k < |buf.chains| && chain == buf.chains[k]
    modifies buf, chain
    ensures buf.Valid() && buf.Contents() == old(buf.Contents()) && buf.repr == old(buf.repr)
    ensures buf.freezeStart == old(buf.freezeStart) && buf.freezeEnd == old(buf.freezeEnd)
    ensures buf.chains == old(buf.chains) && buf.lwd == old(buf.lwd) && |buf.view| == |buf.chains| == |old(buf.view)|
    ensures forall i :: 0 <= i < |buf.view| && i != k ==> buf.view[i] == old(buf.view)[i]
    ensures buf.view[k] == Settled(old(buf.view)[k])
    ensures space == buf.view[k].SpaceLen() && (use <==> k > buf.lwd || space > 0 || buf.view[k].off == 0)
    ensures next == if k + 1 < |buf.chains| then buf.chains[k + 1] else null
  {
    hide Pictures, Flat;
    buf.RepAt(k);
    next := chain.next;
    if chain.off != 0 {
      space := chain.SpaceLen();
      use := space != 0;
    } else {
      Realign(buf, chain, k);
      space := chain.buffer.Length;
      use := true;
    }
    buf.RepAt(k);
  }

  /** The chains from the last one with data up to the k-th have been settled. */
  ghost predicate Looked(v: View, w: View, lwd: nat, k: nat) {
    |w| == |v| && forall i :: 0 <= i < |v| ==> w[i] == if lwd <= i < k then Settled(v[i]) else v[i]
  }

  /** What has been counted up to the k-th chain. */
  ghost predicate Tally(v: View, w: View, lwd: nat, k: nat, used: nat, avail: nat, m: nat) {
    && Looked(v, w, lwd, k) && lwd < |w| && lwd <= k && m <= used <= k - lwd
    && avail == Room(w, FirstFree(w, lwd), m)
    && (k > lwd ==> w[lwd].SpaceLen() <= avail)
    && if k == lwd then m == 0 && used == 0 else FirstFree(w, lwd) + m == k
  }

  lemma TallyStarts(v: View, lwd: nat)
    requires lwd < |v|
    ensures Tally(v, v, lwd, lwd, 0, 0, 0)
  {
  }

  lemma TallyMore(v: View, w: View, x: View, lwd: nat, k: nat, used: nat, avail: nat, m: nat, use: bool)
    requires Tally(v, w, lwd, k, used, avail, m) && k < |w| == |x| && x[k] == Settled(w[k])
    requires forall i :: 0 <= i < |w| && i != k ==> x[i] == w[i]
    requires use <==> k > lwd || x[k].SpaceLen() > 0 || x[k].off == 0
    ensures var c := if use then 1 else 0;
      Tally(v, x, lwd, k + 1, used + c, avail + c * x[k].SpaceLen(), if FirstFree(x, lwd) <= k then m + 1 else m)
  {
    hide Room, Settled;
    LookedMore(v, w, x, lwd, k);
    if k > lwd {
      assert FirstFree(x, lwd) == FirstFree(w, lwd);
      RoomFrame(w, x, FirstFree(w, lwd), m);
      RoomNext(x, FirstFree(x, lwd), m);
    } else {
      NoRoom(w, FirstFree(w, lwd));
      NoRoom(x, FirstFree(x, lwd));
      RoomNext(x, FirstFree(x, lwd), 0);
    }
  }

  lemma LookedMore(v: View, w: View, x: View, lwd: nat, k: nat)
    requires Looked(v, w, lwd, k) && lwd <= k < |v| && |x| == |w| && x[k] == Settled(w[k])
    requires forall i :: 0 <= i < |w| && i != k ==> x[i] == w[i]
    ensures Looked(v, x, lwd, k + 1)
  {
    hide Settled;
  }

  lemma NoRoom(v: View, k: nat)
    ensures Room(v, k, 0) == 0
  {
  }

  lemma TallyMeans(v: View, w: View, lwd: nat, k: nat, used: nat, avail: nat, m: nat)
    requires Tally(v, w, lwd, k, used, avail, m) && k <= |w|
    ensures |w| == |v| && m <= used <= |w| - lwd && avail == Room(w, FirstFree(w, lwd), m)
    ensures k > lwd ==> w[lwd].SpaceLen() <= avail && w[lwd] == Settled(v[lwd]) && FirstFree(w, lwd) + m == k
    ensures AllSettled(v) ==> w == v
  {
  }

  /** How many chains there are to use, up to n or until they are enough, and their space. */
  method CountFree(buf: Evbuffer, datlen: nat, n: nat) returns (used: nat, avail: nat, ghost m: nat)
    requires buf.Valid() && buf.chains != [] && n >= 1
    modifies buf, buf.repr
    ensures buf.Valid() && buf.Contents() == old(buf.Contents()) && buf.repr == old(buf.repr)
    ensures buf.freezeStart == old(buf.freezeStart) && buf.freezeEnd == old(buf.freezeEnd)
    ensures buf.chains == old(buf.chains) && |buf.view| == |buf.chains|
    ensures m <= used <= n && avail == Room(buf.view, FirstFree(buf.view, buf.lwd), m)
    ensures avail < datlen && used < n ==> FirstFree(buf.view, buf.lwd) + m >= |buf.chains|
    ensures used > 0 ==> buf.lwd < |buf.view| && buf.view[buf.lwd].SpaceLen() <= avail
    ensures buf.lwd == old(buf.lwd) < |old(buf.view)| == |buf.view|
    ensures buf.view[buf.lwd] == Settled(old(buf.view)[buf.lwd])
    ensures used <= |buf.view| - buf.lwd && (old(AllSettled(buf.view)) ==> buf.view == old(buf.view))
  {
    hide Pictures, Flat, Evbuffer.Valid, Tally, Settled, AllSettled, Room, FirstFree;
    buf.LwdAt();
    TallyStarts(buf.view, buf.lwd);
    var chain := buf.Deref(buf.lastWithDatap);
    ghost var k, v0 := buf.lwd, buf.view;
    used, avail, m := 0, 0, 0;
    while chain != null
      invariant buf.Valid() && buf.Contents() == old(buf.Contents())
      invariant buf.repr == old(buf.repr) && buf.lwd == old(buf.lwd)
      invariant buf.freezeStart == old(buf.freezeStart) && buf.freezeEnd == old(buf.freezeEnd)
      invariant buf.chains == old(buf.chains) && |buf.view| == |buf.chains| == |v0|
      invariant buf.lwd <= k <= |buf.chains| && chain == if k < |buf.chains| then buf.chains[k] else null
      invariant used < n && Tally(v0, buf.view, buf.lwd, k, used, avail, m)
      decreases |buf.chains| - k
    {
      ghost var v := buf.view;
      var space, use, next := CountOne(buf, chain, k);
      TallyMore(v0, v, buf.view, buf.lwd, k, used, avail, m, use);
      if use {
        avail := avail + space;
        used := used + 1;
      }
      m := if FirstFree(buf.view, buf.lwd) <= k then m + 1 else m;
      chain := next;
      k := k + 1;
      if avail >= datlen || used == n {
        TallyMeans(v0, buf.view, buf.lwd, k, used, avail, m);
        return;
      }
    }
    TallyMeans(v0, buf.view, buf.lwd, k, used, avail, m);
  }

  lemma RoomNext(v: View, k: nat, m: nat)
    ensures Room(v, k, m + 1) == Room(v, k, m) + if k + m < |v| then v[k + m].SpaceLen() else 0
  {
    RoomSplit(v, k, m, m + 1);
    assert Room(v, k + m, 1) == if k + m < |v| then v[k + m].SpaceLen() + Room(v, k + m + 1, 0) else 0;
  }

  /** One more empty chain behind the ones counted. */
  method AppendFree(buf: Evbuffer, datlen: nat, avail: nat, n: nat, ghost m: nat) returns (ok: bool)
    requires buf.Valid() && buf.chains != [] && |buf.view| == |buf.chains|
    requires avail == Room(buf.view, FirstFree(buf.view, buf.lwd), m) < datlen && m < n
    requires FirstFree(buf.view, buf.lwd) + m >= |buf.chains|
    modifies buf, buf.repr
    ensures buf.Valid() && Kept(buf) && buf.Contents() == old(buf.Contents())
    ensures CanAllocate(datlen) ==> ok
    ensures ok ==>
      buf.chains != [] && |buf.view| == |buf.chains| && Room(buf.view, FirstFree(buf.view, buf.lwd), n) >= datlen
    ensures ok ==> buf.lwd == old(buf.lwd) && Appended(old(buf.view), buf.view, datlen - avail)
  {
    hide Pictures, Flat, Appended, MemoryFor, Room;
    var tmp := ChainNew(datlen - avail);
    if tmp == null {
      return false;
    }
    AppendedIs(buf.view, tmp.Val(), datlen - avail);
    ghost var v, s := buf.view, FirstFree(buf.view, buf.lwd);
    buf.InRepr();
    FlatPush(v, tmp.Val());
    buf.Attach(NextOf(buf.last), tmp);
    buf.last := tmp;
    RoomGrown(v, tmp.Val(), s, m, n);
    return true;
  }

  lemma AppendedIs(v: View, c: ChainVal, size: nat)
    requires |c.mem| == MemoryFor(size) && c.misalign == 0 && c.off == 0 && !c.immutable
    ensures Appended(v, v + [c], size)
  {
  }

  /** A chain at the end adds its space to what is in reach. */
  lemma RoomGrown(v: View, c: ChainVal, s: nat, m: nat, n: nat)
    requires s <= |v| <= s + m && m < n
    ensures Room(v + [c], s, n) >= Room(v, s, m) + c.SpaceLen()
  {
    var w, j := v + [c], |v| - s;
    RoomSplit(w, s, j + 1, n);
    RoomNext(w, s, j);
    RoomSame(v, w, s, j);
    RoomSplit(v, s, j, m);
    assert s + j >= |v|;
    assert Room(v, s + j, m - j) == 0;
  }

  /** All the empty chains make room for one that is large enough. */
  method ReplaceFree(buf: Evbuffer, datlen: nat, n: nat) returns (ok: bool)
    requires buf.Valid() && buf.lwd < |buf.view| && n >= 2 && buf.view[buf.lwd].SpaceLen() <= datlen
    modifies buf, buf.repr
    ensures buf.Valid() && Kept(buf) && buf.Contents() == old(buf.Contents())
    ensures CanAllocate(datlen) ==> ok
    ensures ok ==>
      buf.chains != [] && |buf.view| == |buf.chains| && Room(buf.view, FirstFree(buf.view, buf.lwd), n) >= datlen
  {
    hide Pictures, Flat, Cut;
    var ch := FreeTrailingEmptyChains(buf);
    CutSpace(buf);
    var avail := 0;
    if ch.NextOf? {
      avail := ch.chain.SpaceLen();
    }
    var tmp := ChainNew(datlen - avail);
    if tmp == null {
      SettleLast(buf, ch);
      return false;
    }
    PutLast(buf, ch, tmp);
    RoomAtEnd(buf.view, buf.lwd);
    return true;
  }

  lemma CutSpace(buf: Evbuffer)
    requires Cut(buf)
    ensures |buf.view| == |buf.chains| && buf.lwd == (if buf.chains == [] then 0 else |buf.chains| - 1)
    ensures buf.chains != [] ==> var c := buf.chains[buf.lwd]; c.Val() == buf.view[buf.lwd]
  {
    hide Pictures, Flat;
    buf.InRepr();
    if buf.chains != [] {
      buf.RepAt(buf.lwd);
    }
  }

  /** A buffer whose trailing empty chains are gone, and nothing put in their place. */
  method SettleLast(buf: Evbuffer, ch: Link)
    requires Cut(buf) && ch == LinkAt(buf.chains, |buf.chains|)
    modifies buf
    ensures buf.Valid() && Kept(buf) && buf.Contents() == old(buf.Contents())
  {
    hide Pictures, Flat;
    FlatNil();
    if ch.HeadLink? {
      assert buf.view == [];
      buf.ZeroChain();
    } else {
      buf.last := ch.chain;
    }
  }
}
