/** Space in one stretch: expanding the last chain, and when what was reserved there can be committed. */
module EvbufferExpand {
  import opened EvbufferChains
  import opened EvbufferCore
  import opened EvbufferWrite
  import opened EvbufferReserve
  import opened EvbufferCommit

  /** The last chain with data has some space but too little, is neither realigned nor resized,
      and the empty chain after it is large enough. */
  predicate UsesNext(v: View, lwd: nat, datlen: nat) {
    && lwd + 1 < |v|
    && 0 < v[lwd].SpaceLen() < datlen
    && v[lwd].off > 0
    && !ShouldRealign(|v[lwd].mem|, v[lwd].off, datlen)
    && NotWorthResizing(v[lwd], datlen)
    && v[lwd + 1].SpaceLen() >= datlen
  }

  predicate NotWorthResizing(c: ChainVal, datlen: nat) {
    c.SpaceLen() < |c.mem| / 8 || c.off > MAX_TO_COPY_IN_EXPAND || datlen >= CHAIN_MAX - c.off
  }

  /** evbuffer_expand_singlechain: make datlen bytes writable in one chain. */
  method ExpandSingleChain(buf: Evbuffer, datlen: nat) returns (result: Chain?, ghost at: nat)
    requires buf.Valid()
    modifies buf, buf.repr
    ensures buf.Valid() && Kept(buf) && buf.Contents() == old(buf.Contents())
    ensures CanAllocate(datlen + MAX_TO_COPY_IN_EXPAND) ==> result != null
    ensures result != null ==> FreeAt(buf, result, at, datlen)
    ensures result != null ==>
      if old(UsesNext(buf.view, buf.lwd, datlen))
      then buf.view == old(buf.view) && buf.lwd == old(buf.lwd) && at == buf.lwd + 1
      else at == |buf.chains| - 1 || at == FirstFree(buf.view, buf.lwd)
  {
    hide Pictures, Flat, Evbuffer.Valid;
    buf.LwdAt();
    buf.ValidAt(buf.lwd);
    var chainp := buf.lastWithDatap;
    var chain := buf.Deref(chainp);
    at := buf.lwd;
    if chain != null {
      var space := chain.SpaceLen();
      if space == 0 {
        chainp := NextOf(chain);
        chain := chain.next;
        at := at + 1;
        buf.ValidAt(at);
      }
    }
    if chain == null || chain.immutable {
      result, at := InsertSingle(buf, datlen);
      return;
    }
    var space := chain.SpaceLen();
    if space >= datlen {
      result := chain;
    } else if chain.off == 0 {
      result, at := InsertSingle(buf, datlen);
    } else {
      result, at := ExpandFull(buf, chainp, chain, datlen);
    }
  }

  /** evbuffer_expand_singlechain when the last chain with data has too little space. */
  method ExpandFull(buf: Evbuffer, chainp: Link, chain: Chain, datlen: nat) returns (result: Chain?, ghost at: nat)
    requires buf.Valid() && buf.lwd < |buf.chains| == |buf.view|
    requires chain == buf.chains[buf.lwd] && chainp == LinkAt(buf.chains, buf.lwd)
    requires chain.off > 0 && 0 < buf.view[buf.lwd].SpaceLen() < datlen
    modifies buf, buf.repr
    ensures buf.Valid() && Kept(buf) && buf.Contents() == old(buf.Contents())
    ensures CanAllocate(datlen + MAX_TO_COPY_IN_EXPAND) ==> result != null
    ensures result != null ==> FreeAt(buf, result, at, datlen)
    ensures result != null ==>
      if old(UsesNext(buf.view, buf.lwd, datlen))
      then buf.view == old(buf.view) && buf.lwd == old(buf.lwd) && at == buf.lwd + 1
      else at == |buf.chains| - 1 || at == FirstFree(buf.view, buf.lwd)
  {
    hide Pictures, Flat, Evbuffer.Valid;
    buf.LwdAt();
    buf.ValidAt(buf.lwd);
    at := buf.lwd;
    var space := chain.SpaceLen();
    if ShouldRealign(chain.buffer.Length, chain.off, datlen) {
      ChainAlign(buf, chain, at);
      buf.ValidAt(at);
      result := chain;
    } else if space < chain.buffer.Length / 8 || chain.off > MAX_TO_COPY_IN_EXPAND || datlen >= CHAIN_MAX - chain.off {
      var nextSpace := 0;
      if chain.next != null {
        buf.ValidAt(at + 1);
        nextSpace := chain.next.SpaceLen();
      }
      if chain.next != null && nextSpace >= datlen {
        result, at := chain.next, at + 1;
      } else {
        result, at := InsertSingle(buf, datlen);
      }
    } else {
      result := Resize(buf, chainp, chain, datlen, at);
    }
  }

  /** The chain is the at-th, at or after the last one with data, and has room. */
  ghost predicate FreeAt(buf: Evbuffer, chain: Chain, at: nat, datlen: nat)
    reads buf
  {
    && buf.lwd <= at < |buf.chains| == |buf.view|
    && chain == buf.chains[at]
    && buf.view[at].SpaceLen() >= datlen
  }

  method InsertSingle(buf: Evbuffer, datlen: nat) returns (result: Chain?, ghost at: nat)
    requires buf.Valid()
    modifies buf, buf.repr
    ensures buf.Valid() && Kept(buf) && buf.Contents() == old(buf.Contents())
    ensures result != null <==> CanAllocate(datlen)
    ensures result != null ==> FreeAt(buf, result, at, datlen) && at == |buf.chains| - 1
  {
    hide Pictures, Flat, Evbuffer.Valid;
    result := ChainNew(datlen);
    at := 0;
    if result != null {
      ChainInsert(buf, result);
      buf.LwdAt();
      at := |buf.chains| - 1;
    }
  }

  /** Replace the chain by a larger one that starts with its data. */
  method Resize(buf: Evbuffer, chainp: Link, chain: Chain, datlen: nat, ghost at: nat) returns (tmp: Chain?)
    requires buf.Valid() && at == buf.lwd < |buf.chains| && chain == buf.chains[at] && chainp == LinkAt(buf.chains, at)
    requires chain.off > 0
    modifies buf, buf.repr
    ensures buf.Valid() && Kept(buf) && buf.Contents() == old(buf.Contents())
    ensures tmp != null <==> CanAllocate(old(chain.off) + datlen)
    ensures tmp != null ==> FreeAt(buf, tmp, at, datlen) && buf.lwd == at
  {
    hide Pictures, Flat;
    buf.InRepr();
    buf.RepAt(at);
    tmp := ChainWith(chain.off + datlen, chain.buffer[chain.misalign..chain.misalign + chain.off]);
    if tmp == null {
      return;
    }
    buf.DistinctAt(at, |buf.chains| - 1);
    FlatUpdate(buf.view, at, tmp.Val());
    buf.Replace(chainp, chain, tmp, at);
    if buf.last == chain {
      buf.last := tmp;
    }
  }

  /** After evbuffer_expand_singlechain the space it found can be committed from there unless it took the
      chain after the last one with data while that still had space and was followed by another. */
  lemma CommitRefused(buf: Evbuffer, datlen: nat, vec: Iovec)
    requires buf.Valid() && UsesNext(buf.view, buf.lwd, datlen) && VecAt(buf, vec, buf.lwd + 1) && !buf.freezeEnd
    ensures CanCommit(buf, [vec]) <==> buf.lwd + 2 == |buf.chains|
  {
    hide Pictures, Flat, Evbuffer.Valid;
    buf.LwdAt();
    if buf.lwd + 2 == |buf.chains| {
      assert VecAt(buf, [vec][0], |buf.chains| - 1 + 0);
    } else {
      OnlyAt(buf, vec, buf.lwd + 1, |buf.chains| - 1);
      OnlyAt(buf, vec, buf.lwd + 1, buf.lwd);
      assert !VecAt(buf, [vec][0], buf.lwd + 0);
    }
  }

  /** A vector that starts in one chain starts in no other. */
  lemma OnlyAt(buf: Evbuffer, vec: Iovec, i: nat, j: nat)
    requires buf.Valid() && VecAt(buf, vec, i) && j < |buf.chains|
    ensures VecAt(buf, vec, j) ==> i == j
  {
  }

  /** The one case in which one reserved vector cannot be committed. */
  predicate SkipsAhead(v: View, lwd: nat, datlen: nat) {
    UsesNext(v, lwd, datlen) && lwd + 2 < |v|
  }

  /** evbuffer_reserve_space, with n = -1 for failure.  `dies` says that it fails an assertion instead. */
  method ReserveSpace(buf: Evbuffer, size: int, nVecs: int) returns (n: int, vecs: seq<Iovec>, dies: bool)
    requires buf.Valid() && 0 <= size + CHAIN_MAX + 1 && size <= CHAIN_MAX
    modifies buf, buf.repr
    ensures buf.Valid() && Kept(buf) && buf.Contents() == old(buf.Contents())
    ensures dies <==> size == 0 && nVecs >= 2 && !buf.freezeEnd && old(FullUp(buf))
    ensures n == -1 || n == |vecs|
    ensures n == -1 <== dies || buf.freezeEnd || nVecs < 1 || size < 0
    ensures n == -1 && size >= 0 ==> dies || buf.freezeEnd || nVecs < 1 || !CanAllocate(size + MAX_TO_COPY_IN_EXPAND)
    ensures n >= 0 ==> |vecs| <= nVecs && TotalLen(vecs) >= size
    ensures n >= 0 ==> (CanCommit(buf, vecs) <==> nVecs >= 2 || !old(SkipsAhead(buf.view, buf.lwd, Unsigned(size))))
    ensures n >= 0 && nVecs >= 2 && old(Appends(buf, Unsigned(size), nVecs)) ==>
      buf.lwd == old(buf.lwd) && size >= old(Room(buf.view, FirstFree(buf.view, buf.lwd), |buf.view|))
      && Appended(old(buf.view), buf.view, size - old(Room(buf.view, FirstFree(buf.view, buf.lwd), |buf.view|)))
  {
    hide Pictures, Flat, Evbuffer.Valid, VecsAt, VecAt, CanCommit;
    n, vecs, dies := -1, [], false;
    if buf.freezeEnd || nVecs < 1 {
      return;
    }
    if nVecs == 1 {
      n, vecs := ReserveOne(buf, Unsigned(size));
    } else {
      var ok := ExpandFast(buf, Unsigned(size), nVecs);
      if !ok || size < 0 {
        return;
      }
      var there, found, firstchainp := ReadSetupVecs(buf, size, nVecs, false);
      if !there {
        dies := true;
        return;
      }
      vecs := found;
      CanCommitAt(buf, vecs, FirstFree(buf.view, buf.lwd));
      n := |vecs|;
    }
  }

  method ReserveOne(buf: Evbuffer, datlen: nat) returns (n: int, vecs: seq<Iovec>)
    requires buf.Valid() && !buf.freezeEnd
    modifies buf, buf.repr
    ensures buf.Valid() && Kept(buf) && buf.Contents() == old(buf.Contents())
    ensures if n == -1 then vecs == [] else n == |vecs| == 1
    ensures n == -1 ==> !CanAllocate(datlen + MAX_TO_COPY_IN_EXPAND)
    ensures n == 1 ==> TotalLen(vecs) >= datlen && CanAllocate(datlen)
    ensures n == 1 ==> (CanCommit(buf, vecs) <==> !old(SkipsAhead(buf.view, buf.lwd, datlen)))
  {
    hide Pictures, Flat, Evbuffer.Valid, VecsAt, VecAt, CanCommit;
    n, vecs := -1, [];
    var chain, at := ExpandSingleChain(buf, datlen);
    if chain == null {
      return;
    }
    var vec := SpaceOf(buf, chain, at, datlen);
    n, vecs := 1, [vec];
    OneVec(buf, vec, at);
    assert [vec][..0] == [];
    buf.LwdAt();
    if old(UsesNext(buf.view, buf.lwd, datlen)) {
      CommitRefused(buf, datlen, vec);
    } else {
      CanCommitAt(buf, vecs, at);
    }
  }

  lemma OneVec(buf: Evbuffer, vec: Iovec, k: nat)
    ensures VecsAt(buf, [vec], k) <==> VecAt(buf, vec, k)
    ensures TotalLen([vec]) == vec.len
  {
    assert [vec][0] == vec;
    assert [vec][..0] == [];
    if VecsAt(buf, [vec], k) {
      assert VecAt(buf, [vec][0], k + 0);
    }
  }

  lemma CanCommitAt(buf: Evbuffer, vecs: seq<Iovec>, s: nat)
    requires buf.Valid() && !buf.freezeEnd && buf.chains != [] && VecsAt(buf, vecs, s)
    requires s == FirstFree(buf.view, buf.lwd) || (|vecs| == 1 && s == |buf.chains| - 1)
    ensures CanCommit(buf, vecs)
  {
    if |vecs| == 1 {
      assert vecs == [vecs[0]];
      OneVec(buf, vecs[0], s);
      OneVec(buf, vecs[0], |buf.chains| - 1);
    }
  }

  /** The whole free space of one chain as a vector. */
  method SpaceOf(buf: Evbuffer, chain: Chain, ghost at: nat, ghost datlen: nat) returns (vec: Iovec)
    requires buf.Valid() && FreeAt(buf, chain, at, datlen)
    ensures VecAt(buf, vec, at) && vec.len >= datlen && CanAllocate(vec.len)
  {
    hide Pictures, Flat;
    buf.ValidAt(at);
    var len := chain.SpaceLen();
    vec := Iovec(chain.buffer, chain.misalign + chain.off, len);
  }
}
