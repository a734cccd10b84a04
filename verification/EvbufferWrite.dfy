module EvbufferWrite {
  import opened Common
  import opened EvbufferChains
  import opened EvbufferCore

  const CHAIN_MAX_AUTO_SIZE: nat := 4096
  const MAX_TO_REALIGN_IN_EXPAND: nat := 2048

  /** The buffer once its trailing empty chains are gone; only `last` may be stale. */
  ghost predicate Cut(buf: Evbuffer)
    reads buf, buf.repr
  {
    && buf.Rep()
    && buf.lwd == (if buf.chains == [] then 0 else |buf.chains| - 1)
    && (forall i :: 0 <= i < |buf.view| && i == buf.lwd ==> buf.view[i].off > 0)
    && |buf.view| == |buf.chains|
    && buf.lastWithDatap == LinkAt(buf.chains, buf.lwd)
    && buf.totalLen == |Flat(buf.view)|
  }

  /** evbuffer_free_trailing_empty_chains.  Leaves `last` to the caller. */
  method FreeTrailingEmptyChains(buf: Evbuffer) returns (ch: Link)
    requires buf.Valid()
    modifies buf, buf.repr
    ensures buf.repr == old(buf.repr) && buf.freezeStart == old(buf.freezeStart) && buf.freezeEnd == old(buf.freezeEnd)
    ensures Cut(buf) && buf.Contents() == old(buf.Contents()) && buf.lwd == old(buf.lwd)
    ensures buf.chains <= old(buf.chains) && buf.view <= old(buf.view)
    ensures ch == LinkAt(buf.chains, |buf.chains|)
  {
    hide Pictures;
    ch := buf.lastWithDatap;
    ghost var k := buf.lwd;
    buf.RepAt(k);
    buf.DerefAt(k);
    while buf.Deref(ch) != null && buf.Deref(ch).off != 0
      invariant buf.lwd <= k <= |buf.chains| && k <= buf.lwd + 1
      invariant ch == LinkAt(buf.chains, k)
      invariant buf.Deref(ch) == if k < |buf.chains| then buf.chains[k] else null
      invariant buf.lwd < k ==> buf.view[buf.lwd].off > 0
      modifies {}
      decreases |buf.chains| - k
    {
      buf.RepAt(k);
      ch := NextOf(buf.Deref(ch));
      k := k + 1;
      buf.DerefAt(k);
    }
    buf.RepAt(k);
    FlatCutEmpty(buf.view, k);
    buf.Truncate(ch, k);
  }

  /** Hang `chain` behind the last chain of a buffer with no empty chains at its end. */
  method PutLast(buf: Evbuffer, ch: Link, chain: Chain)
    requires Cut(buf) && ch == LinkAt(buf.chains, |buf.chains|)
    requires chain !in buf.repr && chain.buffer !in buf.repr && chain.Val().Ok() && chain.next == null
    modifies buf, buf.repr
    ensures buf.Valid() && buf.repr == old(buf.repr) + {chain, chain.buffer}
    ensures buf.freezeStart == old(buf.freezeStart) && buf.freezeEnd == old(buf.freezeEnd)
    ensures buf.chains == old(buf.chains) + [chain] && buf.view == old(buf.view) + [old(chain.Val())]
    ensures old(chain.off) == 0 ==> buf.lwd == old(buf.lwd)
    ensures buf.last == chain
    ensures buf.Contents() == old(buf.Contents()) + old(chain.Val().Data())
  {
    hide Pictures, Flat;
    FlatPush(buf.view, chain.Val());
    buf.Attach(ch, chain);
    if chain.off != 0 {
      buf.lastWithDatap := ch;
      buf.lwd := |buf.chains| - 1;
    }
    buf.last := chain;
    buf.totalLen := buf.totalLen + chain.off;
  }

  /** evbuffer_chain_insert */
  method ChainInsert(buf: Evbuffer, chain: Chain)
    requires buf.Valid()
    requires chain !in buf.repr && chain.buffer !in buf.repr && chain.Val().Ok() && chain.next == null
    modifies buf, buf.repr
    ensures buf.Valid() && buf.repr == old(buf.repr) + {chain, chain.buffer}
    ensures buf.freezeStart == old(buf.freezeStart) && buf.freezeEnd == old(buf.freezeEnd)
    ensures buf.Contents() == old(buf.Contents()) + old(chain.Val().Data())
    ensures old(buf.chains) == [] ==> buf.chains == [chain]
    ensures old(chain.off) == 0 ==> buf.lwd == if |buf.chains| == 1 then 0 else |buf.chains| - 2
    ensures |buf.view| == |buf.chains| > 0 && buf.last == chain && buf.view[|buf.view| - 1] == old(chain.Val())
  {
    hide Pictures, Flat;
    buf.InRepr();
    buf.DerefAt(buf.lwd);
    if buf.Deref(buf.lastWithDatap) == null {
      PutLast(buf, HeadLink, chain);
    } else {
      var chp := FreeTrailingEmptyChains(buf);
      PutLast(buf, chp, chain);
    }
  }

  /** evbuffer_chain_should_realign */
  predicate ShouldRealign(bufferLen: nat, off: nat, datlen: nat) {
    bufferLen - off >= datlen && off < bufferLen / 2 && off <= MAX_TO_REALIGN_IN_EXPAND
  }

  /** The same chain with so many bytes. */
  predicate Holding(c: ChainVal, d: ChainVal, off: nat) {
    |c.mem| == |d.mem| && c.misalign == d.misalign && c.off == off && c.immutable == d.immutable
  }

  /** Copy bytes into the free space of the last chain with data. */
  method Fill(buf: Evbuffer, chain: Chain, data: seq<byte>)
    requires buf.Valid() && buf.lwd < |buf.chains| && chain == buf.chains[buf.lwd]
    requires !chain.immutable && |data| <= chain.Val().SpaceLen()
    modifies buf`view, buf`totalLen, chain`misalign, chain`off, chain.buffer
    ensures buf.Valid() && buf.Contents() == old(buf.Contents()) + data
    ensures buf.view[..buf.lwd] == old(buf.view[..buf.lwd])
    ensures |buf.view| == |old(buf.view)| && buf.lwd < |buf.view|
    ensures Holding(buf.view[buf.lwd], old(buf.view)[buf.lwd], old(chain.off) + |data|)
  {
    hide Pictures, Flat;
    ghost var k, v := buf.lwd, buf.view;
    buf.RepAt(k);
    buf.Store(chain, chain.misalign + chain.off, data, chain.misalign, chain.off + |data|, k);
    buf.totalLen := buf.totalLen + |data|;
    FlatGrow(v, k, buf.view[k], data);
  }

  /** evbuffer_chain_align: move the data to the start of the chain's memory. */
  method ChainAlign(buf: Evbuffer, chain: Chain, ghost k: nat)
    requires buf.Valid() && k < |buf.chains| && chain == buf.chains[k] && !chain.immutable
    modifies buf`view, chain`misalign, chain`off, chain.buffer
    ensures buf.Valid() && buf.Contents() == old(buf.Contents())
    ensures chain.misalign == 0 && chain.off == old(chain.off)
  {
    hide Pictures, Flat;
    ghost var v := buf.view;
    buf.RepAt(k);
    var moved := chain.buffer[chain.misalign..chain.misalign + chain.off];
    buf.Store(chain, 0, moved, 0, chain.off, k);
    FlatUpdate(v, k, buf.view[k]);
  }

  /** evbuffer_add: append bytes. */
  method Add(buf: Evbuffer, data: seq<byte>) returns (ok: bool)
    requires buf.Valid()
    modifies buf, buf.repr
    ensures buf.Valid() && Kept(buf)
    ensures ok <==> !buf.freezeEnd && |data| <= SIZE_MAX - old(buf.totalLen) && CanAllocate(|data|)
    ensures buf.Contents() == old(buf.Contents()) + if ok then data else []
    ensures ok && old(buf.chains) == [] ==>
      buf.lwd == 0 && |buf.view| == 1 && |buf.view[0].mem| == MemoryFor(|data|) && buf.view[0].misalign == 0
      && buf.view[0].off == |data| && !buf.view[0].immutable
  {
    hide Pictures, Flat;
    if buf.freezeEnd || |data| > SIZE_MAX - buf.totalLen {
      return false;
    }
    buf.InRepr();
    buf.DerefAt(buf.lwd);
    var chain := buf.Deref(buf.lastWithDatap);
    if chain == null {
      chain := ChainNew(|data|);
      if chain == null {
        return false;
      }
      ChainInsert(buf, chain);
    }
    ok := AddAt(buf, chain, data);
  }

  /** The rest of evbuffer_add, once there is a chain to start from. */
  method AddAt(buf: Evbuffer, chain: Chain, data: seq<byte>) returns (ok: bool)
    requires buf.Valid() && buf.lwd < |buf.chains| && chain == buf.chains[buf.lwd]
    modifies buf, buf.repr
    ensures buf.Valid() && Kept(buf)
    ensures ok <==> CanAllocate(|data|)
    ensures buf.Contents() == old(buf.Contents()) + if ok then data else []
    ensures old(!chain.immutable && |data| <= chain.Val().SpaceLen()) ==>
      buf.lwd == old(buf.lwd) < |buf.view| == |old(buf.view)|
      && Holding(buf.view[buf.lwd], old(buf.view)[buf.lwd], old(chain.off) + |data|)
  {
    hide Pictures, Flat;
    buf.InRepr();
    buf.RepAt(buf.lwd);
    var remain := 0;
    if !chain.immutable {
      remain := chain.buffer.Length - chain.misalign - chain.off;
      if remain >= |data| {
        Fill(buf, chain, data);
        return true;
      } else if ShouldRealign(chain.buffer.Length, chain.off, |data|) {
        ChainAlign(buf, chain, buf.lwd);
        buf.RepAt(buf.lwd);
        Fill(buf, chain, data);
        return true;
      }
    }
    ok := AddSpilling(buf, chain, remain, data);
  }

  /** evbuffer_add when the data does not fit: fill what is left and put the rest in a new chain. */
  method AddSpilling(buf: Evbuffer, chain: Chain, remain: nat, data: seq<byte>) returns (ok: bool)
    requires buf.Valid() && buf.lwd < |buf.chains| && chain == buf.chains[buf.lwd]
    requires remain == chain.Val().SpaceLen() <= |data|
    modifies buf, buf.repr
    ensures buf.Valid() && Kept(buf)
    ensures ok <==> CanAllocate(|data|)
    ensures buf.Contents() == old(buf.Contents()) + if ok then data else []
  {
    hide Pictures, Flat;
    buf.InRepr();
    buf.RepAt(buf.lwd);
    var toAlloc := chain.buffer.Length;
    if toAlloc <= CHAIN_MAX_AUTO_SIZE / 2 {
      toAlloc := toAlloc * 2;
    }
    if |data| > toAlloc {
      toAlloc := |data|;
    }
    var tmp := ChainWith(toAlloc, data[remain..]);
    if tmp == null {
      return false;
    }
    assert data == data[..remain] + data[remain..];
    if remain > 0 {
      Fill(buf, chain, data[..remain]);
    }
    ChainInsert(buf, tmp);
    return true;
  }

  /** evbuffer_add_reference: append memory the buffer does not own and never writes. */
  method AddReference(buf: Evbuffer, data: array<byte>) returns (ok: bool)
    requires buf.Valid() && data !in buf.repr && CanAllocate(data.Length)
    modifies buf, buf.repr
    ensures buf.Valid()
    ensures fresh(buf.repr - old(buf.repr) - {data})
    ensures buf.freezeStart == old(buf.freezeStart) && buf.freezeEnd == old(buf.freezeEnd)
    ensures ok <==> !buf.freezeEnd
    ensures buf.Contents() == old(buf.Contents()) + if ok then data[..] else []
  {
    hide Pictures, Flat;
    buf.InRepr();
    var chain := new Chain(data, data.Length, true);
    if buf.freezeEnd {
      return false;
    }
    assert chain.Val().Data() == data[..];
    ChainInsert(buf, chain);
    return true;
  }

  /** An empty first chain counts as empty at its beginning. */
  method EmptyAtFront(buf: Evbuffer, chain: Chain)
    requires buf.Valid() && buf.chains != [] && chain == buf.chains[0] && chain.off == 0 && !chain.immutable
    modifies buf`view, chain`misalign, chain`off
    ensures buf.Valid() && buf.Contents() == old(buf.Contents())
    ensures chain.off == 0 && chain.misalign == chain.buffer.Length
  {
    hide Pictures, Flat;
    ghost var v := buf.view;
    buf.RepAt(0);
    buf.SetExtent(chain, chain.buffer.Length, 0, 0);
    FlatUpdate(v, 0, buf.view[0]);
  }

  /** Copy the last bytes of `data` into the gap before the first chain's data. */
  method FillFront(buf: Evbuffer, chain: Chain, data: seq<byte>)
    requires buf.Valid() && buf.chains != [] && chain == buf.chains[0]
    requires !chain.immutable && |data| <= chain.misalign
    modifies buf`view, buf`totalLen, chain`misalign, chain`off, chain.buffer
    ensures buf.Valid() && buf.Contents() == data + old(buf.Contents())
    ensures chain.misalign == old(chain.misalign) - |data| && chain.off == old(chain.off) + |data|
  {
    hide Pictures, Flat;
    ghost var v := buf.view;
    buf.RepAt(0);
    buf.Store(chain, chain.misalign - |data|, data, chain.misalign - |data|, chain.off + |data|, 0);
    buf.totalLen := buf.totalLen + |data|;
    assert buf.view[0].Data() == data + v[0].Data();
    FlatUpdate(v, 0, buf.view[0]);
    assert Flat(v[..0]) == [] by { FlatAllEmpty(v[..0]); }
  }

  /** Put a chain with data in front of a buffer that has chains. */
  method PutFirst(buf: Evbuffer, tmp: Chain)
    requires buf.Valid() && buf.chains != []
    requires tmp !in buf.repr && tmp.buffer !in buf.repr && tmp.Val().Ok() && tmp.off > 0
    modifies buf, tmp`next
    ensures buf.Valid() && buf.repr == old(buf.repr) + {tmp, tmp.buffer}
    ensures buf.freezeStart == old(buf.freezeStart) && buf.freezeEnd == old(buf.freezeEnd)
    ensures buf.Contents() == old(tmp.Val().Data()) + old(buf.Contents())
  {
    hide Pictures, Flat;
    ghost var v := buf.view;
    buf.RepAt(0);
    buf.InRepr();
    var chain := buf.first;
    FlatConcat([tmp.Val()], v);
    FlatSingle(tmp.Val());
    buf.PushFront(tmp);
    if buf.lastWithDatap.HeadLink? {
      if chain.off > 0 {
        buf.lastWithDatap := NextOf(tmp);
        buf.lwd := 1;
      }
    } else {
      buf.lwd := buf.lwd + 1;
    }
    buf.totalLen := buf.totalLen + tmp.off;
  }

  /** Allocate a chain for the bytes and put it in front. */
  method PrependChain(buf: Evbuffer, data: seq<byte>) returns (ok: bool)
    requires buf.Valid() && buf.chains != [] && data != []
    modifies buf
    ensures buf.Valid() && Kept(buf)
    ensures ok <==> CanAllocate(|data|)
    ensures buf.Contents() == (if ok then data else []) + old(buf.Contents())
  {
    hide Pictures, Flat;
    var tmp := ChainEndingWith(data);
    if tmp == null {
      return false;
    }
    PutFirst(buf, tmp);
    return true;
  }

  /** The room in front of the data of a chain; an empty chain is all room. */
  function GapOf(c: ChainVal): nat {
    if c.immutable then 0 else if c.off == 0 then |c.mem| else c.misalign
  }

  function Gap(v: View): nat {
    if v == [] then 0 else GapOf(v[0])
  }

  /** evbuffer_prepend.  When memory cannot be had, the last bytes already lie in the gap of the first chain. */
  method Prepend(buf: Evbuffer, data: seq<byte>) returns (ok: bool)
    requires buf.Valid()
    modifies buf, buf.repr
    ensures buf.Valid() && Kept(buf)
    ensures var gap := old(Gap(buf.view));
      var start := data != [] && !buf.freezeStart && |data| <= SIZE_MAX - old(buf.totalLen);
      && (ok <==> data == [] || (start && (|data| <= gap || CanAllocate(|data| - gap))))
      && (!ok && start ==> gap < |data|)
      && buf.Contents() ==
         (if ok then data else if start then data[|data| - gap..] else []) + old(buf.Contents())
  {
    hide Pictures, Flat;
    if data == [] {
      return true;
    }
    if buf.freezeStart || |data| > SIZE_MAX - buf.totalLen {
      return false;
    }
    buf.InRepr();
    buf.RepAt(0);
    var chain := buf.first;
    if chain == null {
      chain := ChainNew(|data|);
      if chain == null {
        return false;
      }
      ChainInsert(buf, chain);
    }
    ok := PrependAt(buf, chain, data);
  }

  lemma FrontSplit(d: seq<byte>, n: nat, c: seq<byte>)
    requires n <= |d|
    ensures d[..n] + (d[n..] + c) == d + c && [] + (d[n..] + c) == d[n..] + c
    ensures n == |d| ==> d[n..] + c == c
  {
    assert d[..n] + d[n..] == d;
  }

  /** The rest of evbuffer_prepend, once there is a chain to start from. */
  method PrependAt(buf: Evbuffer, chain: Chain, data: seq<byte>) returns (ok: bool)
    requires buf.Valid() && buf.chains != [] && chain == buf.chains[0] && data != []
    modifies buf, buf.repr
    ensures buf.Valid() && Kept(buf)
    ensures var gap := old(Gap(buf.view));
      && (ok <==> |data| <= gap || CanAllocate(|data| - gap))
      && buf.Contents() == (if ok then data else data[|data| - gap..]) + old(buf.Contents())
  {
    hide Pictures, Flat;
    buf.InRepr();
    buf.RepAt(0);
    var left := |data|;
    if !chain.immutable {
      if chain.off == 0 {
        EmptyAtFront(buf, chain);
      }
      if chain.misalign >= |data| {
        FillFront(buf, chain, data);
        return true;
      } else if chain.misalign > 0 {
        left := |data| - chain.misalign;
        FillFront(buf, chain, data[left..]);
      }
    }
    FrontSplit(data, left, old(buf.Contents()));
    ok := PrependChain(buf, data[..left]);
  }
}
