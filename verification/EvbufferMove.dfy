module EvbufferMove {
  import opened Common
  import opened EvbufferChains
  import opened EvbufferCore
  import opened EvbufferWrite
  import opened EvbufferDrain

  /** advance_last_with_data: walk on from last_with_datap to the last chain that holds data. */
  method AdvanceLastWithData(buf: Evbuffer)
    requires buf.Rep() && buf.lwd <= |buf.chains| && buf.lastWithDatap == LinkAt(buf.chains, buf.lwd)
    requires buf.lwd == 0 || (buf.lwd < |buf.view| && buf.view[buf.lwd].off > 0)
    modifies buf`lastWithDatap, buf`lwd
    ensures buf.Rep() && IsLastWithData(buf.view, buf.lwd)
    ensures buf.lwd <= |buf.chains| && buf.lastWithDatap == LinkAt(buf.chains, buf.lwd)
  {
    hide Pictures;
    buf.InRepr();
    var chainp := buf.lastWithDatap;
    buf.DerefAt(buf.lwd);
    if buf.Deref(chainp) == null {
      return;
    }
    ghost var k := buf.lwd;
    buf.RepAt(k);
    while buf.Deref(chainp).next != null
      invariant buf.lwd <= k < |buf.chains| && chainp == LinkAt(buf.chains, k)
      invariant buf.Deref(chainp) == buf.chains[k]
      invariant buf.Deref(chainp).next == if k + 1 < |buf.chains| then buf.chains[k + 1] else null
      invariant buf.lwd == 0 || buf.view[buf.lwd].off > 0
      invariant forall i :: buf.lwd < i <= k ==> buf.view[i].off == 0
      invariant buf.lastWithDatap == LinkAt(buf.chains, buf.lwd)
      modifies buf`lastWithDatap, buf`lwd
      decreases |buf.chains| - k
    {
      chainp := NextOf(buf.Deref(chainp));
      k := k + 1;
      buf.DerefAt(k);
      buf.RepAt(k);
      if buf.Deref(chainp).off != 0 {
        buf.lastWithDatap := chainp;
        buf.lwd := k;
      }
    }
  }

  /** A buffer in order but for last_with_datap, which may lie before the last data. */
  ghost predicate Lagging(buf: Evbuffer)
    reads buf, buf.repr
  {
    && buf.Rep()
    && |buf.view| == |buf.chains|
    && buf.last == (if buf.chains == [] then null else buf.chains[|buf.chains| - 1])
    && buf.totalLen == |Flat(buf.view)|
    && buf.lwd <= |buf.chains| && buf.lastWithDatap == LinkAt(buf.chains, buf.lwd)
    && (buf.lwd == 0 || (buf.lwd < |buf.view| && buf.view[buf.lwd].off > 0))
  }

  method CatchUp(buf: Evbuffer)
    requires Lagging(buf)
    modifies buf`lastWithDatap, buf`lwd
    ensures buf.Valid()
  {
    hide Pictures, Flat;
    AdvanceLastWithData(buf);
    buf.InRepr();
  }

  /** A buffer with bytes has them up to its last chain with data. */
  lemma LwdHasData(v: View, lwd: nat)
    requires IsLastWithData(v, lwd) && Flat(v) != []
    ensures lwd < |v| && v[lwd].off > 0
  {
    if lwd < |v| && v[lwd].off == 0 {
      FlatAllEmpty(v);
    }
  }

  /** COPY_CHAIN: the empty buffer takes the chains of the other as its own. */
  method CopyChains(dst: Evbuffer, src: Evbuffer)
    requires src.Valid() && Apart(dst, src)
    modifies dst
    ensures dst.Valid() && dst.Contents() == src.Contents() && dst.repr == src.repr
    ensures dst.freezeStart == old(dst.freezeStart) && dst.freezeEnd == old(dst.freezeEnd)
  {
    hide Pictures, Flat;
    dst.first, dst.last, dst.totalLen := src.first, src.last, src.totalLen;
    if src.lastWithDatap == HeadLink {
      dst.lastWithDatap := HeadLink;
    } else {
      dst.lastWithDatap := src.lastWithDatap;
    }
    dst.chains, dst.view, dst.lwd, dst.repr := src.chains, src.view, src.lwd, src.repr;
  }

  /** APPEND_CHAIN: the chains of the other buffer hang behind those of this one. */
  method AppendChains(dst: Evbuffer, src: Evbuffer)
    requires dst.Valid() && src.Valid() && Apart(dst, src) && src.totalLen > 0
    modifies dst, dst.repr
    ensures dst.Valid() && dst.Contents() == old(dst.Contents()) + src.Contents()
    ensures dst.repr == old(dst.repr) + src.repr
    ensures dst.freezeStart == old(dst.freezeStart) && dst.freezeEnd == old(dst.freezeEnd)
  {
    hide Pictures, Flat;
    dst.InRepr();
    src.InRepr();
    LwdHasData(src.view, src.lwd);
    var chp := FreeTrailingEmptyChains(dst);
    AppendList(dst, chp, src);
  }

  /** APPEND_CHAIN once the empty chains at the end of `dst` are gone. */
  method AppendList(dst: Evbuffer, chp: Link, src: Evbuffer)
    requires Cut(dst) && chp == LinkAt(dst.chains, |dst.chains|)
    requires src.Valid() && Apart(dst, src) && src.lwd < |src.view| && src.view[src.lwd].off > 0
    modifies dst, dst.repr
    ensures dst.Valid() && dst.Contents() == old(dst.Contents()) + src.Contents()
    ensures dst.repr == old(dst.repr) + src.repr
    ensures dst.freezeStart == old(dst.freezeStart) && dst.freezeEnd == old(dst.freezeEnd)
  {
    hide Pictures, Flat;
    src.InRepr();
    dst.InRepr();
    ghost var n := |dst.chains|;
    FlatConcat(dst.view, src.view);
    dst.Splice(chp, src.first, src.chains, src.view, src.repr);
    if src.lastWithDatap == HeadLink {
      dst.lastWithDatap := chp;
    } else {
      dst.lastWithDatap := src.lastWithDatap;
    }
    dst.lwd := n + src.lwd;
    dst.last := src.last;
    dst.totalLen := dst.totalLen + src.totalLen;
  }

  /** evbuffer_add_buffer: append everything the other buffer holds, without copying. */
  method AddBuffer(outbuf: Evbuffer, inbuf: Evbuffer) returns (ok: bool)
    requires outbuf.Valid() && inbuf.Valid() && (outbuf != inbuf ==> Apart(outbuf, inbuf))
    modifies outbuf, inbuf, outbuf.repr
    ensures outbuf.Valid() && inbuf.Valid()
    ensures outbuf == inbuf ==> ok && outbuf.Contents() == old(outbuf.Contents()) && Kept(outbuf)
    ensures outbuf != inbuf ==> KeptBoth(outbuf, inbuf)
    ensures outbuf != inbuf ==> (ok <==> old(inbuf.totalLen) == 0 || !(outbuf.freezeEnd || inbuf.freezeStart))
    ensures outbuf != inbuf && ok ==>
      outbuf.Contents() == old(outbuf.Contents()) + old(inbuf.Contents()) && inbuf.Contents() == []
    ensures !ok ==> outbuf.Contents() == old(outbuf.Contents()) && inbuf.Contents() == old(inbuf.Contents())
  {
    hide Pictures, Flat;
    if inbuf.totalLen == 0 || outbuf == inbuf {
      return true;
    }
    if outbuf.freezeEnd || inbuf.freezeStart {
      return false;
    }
    outbuf.InRepr();
    if outbuf.totalLen == 0 {
      CopyChains(outbuf, inbuf);
    } else {
      AppendChains(outbuf, inbuf);
    }
    inbuf.ZeroChain();
    return true;
  }

  /** The last chain with data stays that one behind another list. */
  lemma LwdBehind(a: View, ca: seq<Chain>, b: View, cb: seq<Chain>, lwd: nat)
    requires |a| == |ca| && |b| == |cb| && ca != [] && IsLastWithData(b, lwd) && lwd < |b| && b[lwd].off > 0
    ensures IsLastWithData(a + b, |a| + lwd)
    ensures LinkAt(ca + cb, |a| + lwd) == if LinkAt(cb, lwd) == HeadLink then NextOf(ca[|ca| - 1]) else LinkAt(cb, lwd)
  {
  }

  /** PREPEND_CHAIN: the chains of the other buffer go in front of those of this one. */
  method PrependChains(dst: Evbuffer, src: Evbuffer)
    requires dst.Valid() && src.Valid() && Apart(dst, src) && src.totalLen > 0 && dst.totalLen > 0
    modifies dst, src.repr
    ensures dst.Valid() && dst.Contents() == src.Contents() + old(dst.Contents())
    ensures dst.repr == old(dst.repr) + src.repr
    ensures dst.freezeStart == old(dst.freezeStart) && dst.freezeEnd == old(dst.freezeEnd)
  {
    hide Pictures, Flat, IsLastWithData, LinkAt;
    src.InRepr();
    dst.InRepr();
    LwdHasData(src.view, src.lwd);
    LwdHasData(dst.view, dst.lwd);
    FlatConcat(src.view, dst.view);
    LwdBehind(src.view, src.chains, dst.view, dst.chains, dst.lwd);
    Precede(dst, src);
    dst.first := src.first;
    dst.totalLen := dst.totalLen + src.totalLen;
    if dst.lastWithDatap == HeadLink {
      dst.lastWithDatap := NextOf(src.last);
    }
    dst.chains, dst.view, dst.lwd, dst.repr :=
      src.chains + dst.chains, src.view + dst.view, |src.chains| + dst.lwd, dst.repr + src.repr;
  }

  /** The two lists become one: the last chain of `src` points at the first of `dst`. */
  method Precede(dst: Evbuffer, src: Evbuffer)
    requires dst.Rep() && src.Rep() && Apart(dst, src) && src.chains != []
    requires dst.chains != [] && src.last == src.chains[|src.chains| - 1]
    modifies src.repr
    ensures Pictures(src.first, src.chains + dst.chains, src.view + dst.view)
  {
    hide Distinct, Mirrors, Linked, LinkedTo;
    var c := src.last;
    assert c in src.chains && c !in dst.chains;
    SetLast(src.chains, src.view, c, dst.first);
    PicturesJoin(src.first, src.chains, src.view, dst.first, dst.chains, dst.view);
  }

  /** evbuffer_prepend_buffer: put everything the other buffer holds in front, without copying. */
  method PrependBuffer(outbuf: Evbuffer, inbuf: Evbuffer) returns (ok: bool)
    requires outbuf.Valid() && inbuf.Valid() && (outbuf != inbuf ==> Apart(outbuf, inbuf))
    modifies outbuf, inbuf, inbuf.repr
    ensures outbuf.Valid() && inbuf.Valid()
    ensures outbuf == inbuf ==> ok && outbuf.Contents() == old(outbuf.Contents()) && Kept(outbuf)
    ensures outbuf != inbuf ==> KeptBoth(outbuf, inbuf)
    ensures outbuf != inbuf ==> (ok <==> old(inbuf.totalLen) == 0 || !(outbuf.freezeStart || inbuf.freezeStart))
    ensures outbuf != inbuf && ok ==>
      outbuf.Contents() == old(inbuf.Contents()) + old(outbuf.Contents()) && inbuf.Contents() == []
    ensures !ok ==> outbuf.Contents() == old(outbuf.Contents()) && inbuf.Contents() == old(inbuf.Contents())
  {
    hide Pictures, Flat;
    if inbuf.totalLen == 0 || outbuf == inbuf {
      return true;
    }
    if outbuf.freezeStart || inbuf.freezeStart {
      return false;
    }
    inbuf.InRepr();
    if outbuf.totalLen == 0 {
      CopyChains(outbuf, inbuf);
    } else {
      PrependChains(outbuf, inbuf);
    }
    inbuf.ZeroChain();
    return true;
  }

  /** Cut a list in two before its k-th chain. */
  method SplitFront(src: Evbuffer, previous: Chain, chain: Chain, ghost k: nat)
    requires src.Rep() && 0 < k < |src.chains| && previous == src.chains[k - 1] && chain == src.chains[k]
    modifies src`first, src`chains, src`view, previous`next
    ensures src.Rep() && src.chains == old(src.chains[k..]) && src.view == old(src.view[k..])
    ensures src.first == chain && Pictures(old(src.first), old(src.chains[..k]), old(src.view[..k]))
  {
    hide Pictures;
    src.InRepr();
    PicturesDrop(src.first, src.chains, src.view, k);
    assert previous !in src.chains[k..] by {
      forall j | k <= j < |src.chains| ensures previous != src.chains[j] {
        src.DistinctAt(k - 1, j);
      }
    }
    CutAfter(src.first, src.chains, src.view, previous, k);
    src.first := chain;
    src.chains, src.view := src.chains[k..], src.view[k..];
  }

  method CutAfter(ghost first: Chain?, ghost cs: seq<Chain>, ghost v: View, previous: Chain, ghost k: nat)
    requires Pictures(first, cs, v) && 0 < k <= |cs| && previous == cs[k - 1]
    modifies previous`next
    ensures |v| == |cs| && Pictures(first, cs[..k], v[..k])
  {
    previous.next := null;
  }

  /** A list of chains taken from another buffer goes behind the data of this one. */
  method ReceiveFront(dst: Evbuffer, first: Chain, previous: Chain, nread: nat,
                      ghost cs: seq<Chain>, ghost v: View, ghost owned: set<object>)
    requires dst.Valid() && Pictures(first, cs, v) && cs != [] && previous == cs[|cs| - 1] && nread == |Flat(v)|
    requires dst !in owned && owned !! dst.repr && forall d :: d in cs ==> d in owned && d.buffer in owned
    modifies dst, dst.repr
    ensures dst.Valid() && dst.Contents() == old(dst.Contents()) + Flat(v) && dst.repr == old(dst.repr) + owned
    ensures dst.freezeStart == old(dst.freezeStart) && dst.freezeEnd == old(dst.freezeEnd)
  {
    hide Pictures, Flat, Evbuffer.Valid, Cut;
    var chp := FreeTrailingEmptyChains(dst);
    ReceiveList(dst, chp, first, previous, nread, cs, v, owned);
  }

  method ReceiveList(dst: Evbuffer, chp: Link, first: Chain, previous: Chain, nread: nat,
                     ghost cs: seq<Chain>, ghost v: View, ghost owned: set<object>)
    requires Cut(dst) && chp == LinkAt(dst.chains, |dst.chains|)
    requires Pictures(first, cs, v) && cs != [] && previous == cs[|cs| - 1] && nread == |Flat(v)|
    requires dst !in owned && owned !! dst.repr && forall d :: d in cs ==> d in owned && d.buffer in owned
    modifies dst, dst.repr
    ensures dst.Valid() && dst.Contents() == old(dst.Contents()) + Flat(v) && dst.repr == old(dst.repr) + owned
    ensures dst.freezeStart == old(dst.freezeStart) && dst.freezeEnd == old(dst.freezeEnd)
  {
    hide Pictures, Flat;
    FlatConcat(dst.view, v);
    dst.InRepr();
    dst.Splice(chp, first, cs, v, owned);
    dst.InRepr();
    dst.last := previous;
    dst.totalLen := dst.totalLen + nread;
    CatchUp(dst);
  }

  /** evbuffer_remove_buffer: move bytes from the front of one buffer to the end of another.  n is -1 on error. */
  method RemoveBuffer(src: Evbuffer, dst: Evbuffer, datlen: nat) returns (n: int)
    requires src.Valid() && dst.Valid() && (src != dst ==> Apart(src, dst))
    requires src != dst ==> src.totalLen + dst.totalLen <= SIZE_MAX
    modifies src, dst, src.repr, dst.repr
    ensures src.Valid() && dst.Valid()
    ensures src == dst ==> n == 0 && src.Contents() == old(src.Contents()) && Kept(src)
    ensures src != dst ==> KeptBoth(src, dst)
    ensures src != dst ==> n == if datlen == 0 then 0 else if dst.freezeEnd || src.freezeStart then -1
                                else Min(datlen, old(src.totalLen))
    ensures src != dst && n >= 0 ==>
      && dst.Contents() == old(dst.Contents()) + old(src.Contents())[..n]
      && src.Contents() == old(src.Contents())[n..]
    ensures src != dst && n == -1 ==> src.Contents() == old(src.Contents()) && dst.Contents() == old(dst.Contents())
  {
    hide Pictures, Flat;
    if datlen == 0 || dst == src {
      return 0;
    }
    if dst.freezeEnd || src.freezeStart {
      return -1;
    }
    if datlen >= src.totalLen {
      n := src.totalLen;
      var ok := AddBuffer(dst, src);
    } else {
      MoveSome(src, dst, datlen);
      n := datlen;
    }
  }

  /** The list once a walk over its first k chains has repaired last_with_datap for their removal. */
  ghost predicate Walked(src: Evbuffer, k: nat)
    reads src, src.repr
  {
    && src.Rep()
    && k <= src.lwd < |src.chains|
    && |src.view| == |src.chains|
    && src.last == src.chains[|src.chains| - 1]
    && IsLastWithData(src.view, src.lwd)
    && src.lastWithDatap == (if k == src.lwd then HeadLink else LinkAt(src.chains, src.lwd))
    && src.totalLen == |Flat(src.view)|
  }

  /** Walk over the chains that leave whole. */
  method WalkFront(src: Evbuffer, datlen: nat) returns (previous: Chain, chain: Chain, nread: nat, ghost k: nat)
    requires src.Valid() && datlen < src.totalLen
    modifies src`lastWithDatap
    ensures Walked(src, k)
    ensures k < |src.chains| && |src.view| == |src.chains|
    ensures chain == src.chains[k] && previous == src.chains[if k > 0 then k - 1 else 0]
    ensures nread == |Flat(src.view[..k])| <= datlen < nread + src.view[k].off
  {
    hide Pictures, Flat;
    src.InRepr();
    FlatNil();
    chain, previous, nread, k := src.first, src.first, 0, 0;
    DrainStep(src.view, src.lwd, k);
    src.RepAt(k);
    while chain.off <= datlen - nread
      invariant k <= src.lwd && chain == src.chains[k] && chain.off == src.view[k].off
      invariant previous == src.chains[if k > 0 then k - 1 else 0]
      invariant nread == |Flat(src.view[..k])| <= datlen
      invariant src.lastWithDatap == if k == src.lwd then HeadLink else LinkAt(src.chains, src.lwd)
      modifies src`lastWithDatap
      decreases src.lwd - k
    {
      src.DistinctAt(k, src.lwd - 1);
      DrainStep(src.view, src.lwd, k);
      src.RepAt(k);
      nread := nread + chain.off;
      previous := chain;
      if src.lastWithDatap == NextOf(chain) {
        src.lastWithDatap := HeadLink;
      }
      chain := chain.next;
      k := k + 1;
      src.RepAt(k);
    }
    DrainStep(src.view, src.lwd, k);
  }

  /** What the first k chains own, and that the others own none of it. */
  lemma OwnedByFront(src: Evbuffer, k: nat) returns (owned: set<object>)
    requires src.Rep() && k <= |src.chains|
    ensures owned <= src.repr
    ensures forall c: Chain :: c in src.chains[..k] ==> c in owned && c.buffer in owned
    ensures forall c: Chain :: c in src.chains[k..] ==>
      c in src.repr && c.buffer in src.repr && c !in owned && c.buffer !in owned
  {
    owned := (set c: Chain | c in src.chains[..k] :: c as object);
    owned := owned + (set c: Chain | c in src.chains[..k] :: c.buffer as object);
  }

  /** The first k chains leave their buffer. */
  method DetachFront(src: Evbuffer, previous: Chain, chain: Chain, nread: nat, ghost k: nat)
    returns (head: Chain, ghost cs: seq<Chain>, ghost v: View, ghost owned: set<object>)
    requires Walked(src, k) && 0 < k < |src.chains| && |src.view| == |src.chains|
    requires previous == src.chains[k - 1] && chain == src.chains[k] && nread == |Flat(src.view[..k])|
    modifies src, previous
    ensures src.Valid() && src.repr == old(src.repr) - owned
    ensures src.freezeStart == old(src.freezeStart) && src.freezeEnd == old(src.freezeEnd)
    ensures nread <= |old(src.Contents())| && src.Contents() == old(src.Contents())[nread..]
    ensures src.first == chain && src.totalLen == old(src.totalLen) - nread
    ensures Pictures(head, cs, v) && cs != [] && previous == cs[|cs| - 1] && Flat(v) == old(src.Contents())[..nread]
    ensures src !in owned && chain in src.repr && chain.off == old(chain.off)
    ensures owned <= old(src.repr) && forall c: Chain :: c in cs ==> c in owned && c.buffer in owned
  {
    hide Pictures, Flat;
    src.InRepr();
    src.DistinctAt(k - 1, k);
    head, cs, v := src.first, src.chains[..k], src.view[..k];
    assert src.view == v + src.view[k..];
    FlatConcat(v, src.view[k..]);
    owned := OwnedByFront(src, k);
    SplitFront(src, previous, chain, k);
    src.repr := src.repr - owned;
    src.lwd := src.lwd - k;
    src.totalLen := src.totalLen - nread;
  }

  /** The whole chains change hands. */
  method GiveFront(src: Evbuffer, dst: Evbuffer, previous: Chain, chain: Chain, nread: nat, ghost k: nat)
    requires Walked(src, k) && 0 < k < |src.chains| && |src.view| == |src.chains| && dst.Valid() && Apart(src, dst)
    requires previous == src.chains[k - 1] && previous in src.repr
    requires chain == src.chains[k] && nread == |Flat(src.view[..k])|
    modifies src, dst, src.repr, dst.repr
    ensures src.Valid() && dst.Valid() && KeptBoth(src, dst)
    ensures nread <= |old(src.Contents())|
    ensures dst.Contents() == old(dst.Contents()) + old(src.Contents())[..nread]
    ensures src.Contents() == old(src.Contents())[nread..]
    ensures src.first == chain && chain.off == old(chain.off)
    ensures src.totalLen == old(src.totalLen) - nread && dst.totalLen == old(dst.totalLen) + nread
  {
    hide Pictures, Flat, Evbuffer.Valid, Walked;
    var head, cs, v, owned := DetachFront(src, previous, chain, nread, k);
    dst.ContentsLen();
    ReceiveFront(dst, head, previous, nread, cs, v, owned);
    dst.ContentsLen();
  }

  /** Cut bytes off the front of the first chain. */
  method CutFirst(src: Evbuffer, chain: Chain, n: nat)
    requires src.Valid() && chain == src.first && n < chain.off
    modifies src, chain
    ensures src.Valid() && src.repr == old(src.repr) && n <= |old(src.Contents())|
    ensures src.Contents() == old(src.Contents())[n..]
    ensures src.freezeStart == old(src.freezeStart) && src.freezeEnd == old(src.freezeEnd)
  {
    hide Pictures, Flat;
    src.InRepr();
    src.RepAt(0);
    FlatNil();
    DrainBytes(src.view, 0, n);
    src.SetExtent(chain, chain.misalign + n, chain.off - n, 0);
    src.totalLen := src.totalLen - n;
  }

  /** The bytes of the chain that stays are copied and cut off. */
  method GiveRest(src: Evbuffer, dst: Evbuffer, chain: Chain, n: nat)
    requires src.Valid() && dst.Valid() && Apart(src, dst) && chain == src.first
    requires n < chain.off && n + dst.totalLen <= SIZE_MAX && !dst.freezeEnd
    modifies src, dst, src.repr, dst.repr
    ensures src.Valid() && dst.Valid() && KeptBoth(src, dst)
    ensures n <= |old(src.Contents())|
    ensures dst.Contents() == old(dst.Contents()) + old(src.Contents())[..n]
    ensures src.Contents() == old(src.Contents())[n..]
  {
    hide Pictures, Flat, Evbuffer.Valid;
    src.ContentsLen();
    FirstPrefix(src, n);
    FirstOwned(src);
    var bytes := chain.buffer[chain.misalign..chain.misalign + n];
    var ok := Add(dst, bytes);
    CutFirst(src, chain, n);
  }

  lemma FirstOwned(src: Evbuffer)
    requires src.Valid() && src.first != null
    ensures src.first in src.repr
  {
    src.InRepr();
  }

  /** A walk over no chain changes nothing; one over some ends at another chain than it began. */
  lemma WalkedAt(src: Evbuffer, chain: Chain, k: nat)
    requires Walked(src, k) && k < |src.chains| && |src.view| == |src.chains| && chain == src.chains[k]
    ensures chain == src.first <==> k == 0
    ensures k == 0 ==> src.Valid() && Flat(src.view[..k]) == []
    ensures chain.off == src.view[k].off && (k > 0 ==> src.chains[k - 1] in src.repr)
  {
    FlatNil();
    hide Pictures, Flat;
    src.InRepr();
    src.RepAt(k);
    src.DistinctAt(0, k);
  }

  /** evbuffer_remove_buffer when bytes stay behind. */
  method MoveSome(src: Evbuffer, dst: Evbuffer, datlen: nat)
    requires src.Valid() && dst.Valid() && Apart(src, dst) && datlen < src.totalLen
    requires src.totalLen + dst.totalLen <= SIZE_MAX && !dst.freezeEnd
    modifies src, dst, src.repr, dst.repr
    ensures src.Valid() && dst.Valid() && KeptBoth(src, dst)
    ensures dst.Contents() == old(dst.Contents()) + old(src.Contents())[..datlen]
    ensures src.Contents() == old(src.Contents())[datlen..]
  {
    hide Pictures, Flat, Evbuffer.Valid, Walked;
    ghost var kept, bytes := dst.Contents(), src.Contents();
    src.ContentsLen();
    var previous, chain, nread, k := WalkFront(src, datlen);
    WalkedAt(src, chain, k);
    if chain == src.first {
      GiveRest(src, dst, chain, datlen);
      return;
    }
    GiveFront(src, dst, previous, chain, nread, k);
    MoveBytes(kept, bytes, nread, datlen);
    GiveRest(src, dst, chain, datlen - nread);
  }

  lemma MoveBytes(d: seq<byte>, s: seq<byte>, m: nat, n: nat)
    requires m <= n <= |s|
    ensures d + s[..m] + s[m..][..n - m] == d + s[..n]
    ensures s[m..][n - m..] == s[n..]
  {
  }
}
