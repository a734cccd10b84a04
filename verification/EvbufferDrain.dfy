module EvbufferDrain {
  import opened Common
  import opened EvbufferChains
  import opened EvbufferCore

  /** evbuffer_drain: drop bytes from the front. */
  method Drain(buf: Evbuffer, len: nat) returns (ok: bool)
    requires buf.Valid()
    modifies buf, buf.repr
    ensures buf.Valid() && Kept(buf)
    ensures ok <==> old(buf.totalLen) == 0 || !buf.freezeStart
    ensures ok ==> buf.Contents() == old(buf.Contents())[Min(len, old(buf.totalLen))..]
    ensures !ok ==> buf.Contents() == old(buf.Contents())
  {
    hide Pictures, Flat;
    if buf.totalLen == 0 {
      return true;
    }
    if buf.freezeStart {
      return false;
    }
    if len >= buf.totalLen {
      buf.ZeroChain();
    } else {
      DrainSome(buf, len);
    }
    return true;
  }

  /** The bytes of one more chain, and why a drain that leaves bytes stops at the last chain with data. */
  lemma DrainStep(v: View, lwd: nat, k: nat)
    requires IsLastWithData(v, lwd) && k <= lwd < |v|
    ensures Flat(v[..k + 1]) == Flat(v[..k]) + v[k].Data()
    ensures k == lwd ==> Flat(v[..k + 1]) == Flat(v)
  {
    assert v[..k + 1] == v[..k] + [v[k]];
    FlatPush(v[..k], v[k]);
    if k == lwd {
      FlatCutEmpty(v, k + 1);
    }
  }

  /** What the loop of evbuffer_drain sees at one chain. */
  lemma DrainLook(buf: Evbuffer, k: nat)
    requires buf.Rep() && k <= buf.lwd < |buf.chains| && IsLastWithData(buf.view, buf.lwd)
    ensures |buf.view| == |buf.chains|
    ensures Flat(buf.view[..k + 1]) == Flat(buf.view[..k]) + buf.view[k].Data()
    ensures k == buf.lwd ==> Flat(buf.view[..k + 1]) == Flat(buf.view)
    ensures buf.chains[k] in buf.repr && buf.chains[k].off == buf.view[k].off == |buf.view[k].Data()|
    ensures k < buf.lwd ==>
      && buf.chains[k].next == buf.chains[k + 1] && buf.chains[k] != buf.Deref(LinkAt(buf.chains, buf.lwd))
      && (NextOf(buf.chains[k]) == LinkAt(buf.chains, buf.lwd) <==> k + 1 == buf.lwd)
  {
    hide Pictures, Flat;
    buf.RepAt(k);
    buf.DerefAt(buf.lwd);
    buf.DistinctAt(k, buf.lwd);
    if k < buf.lwd { buf.DistinctAt(k, buf.lwd - 1); }
    DrainStep(buf.view, buf.lwd, k);
  }

  /** evbuffer_drain when bytes remain. */
  method DrainSome(buf: Evbuffer, len: nat)
    requires buf.Valid() && len < buf.totalLen
    modifies buf, buf.repr
    ensures buf.Valid() && Kept(buf) && buf.repr == old(buf.repr)
    ensures buf.Contents() == old(buf.Contents())[len..]
  {
    hide Pictures, Flat;
    buf.InRepr();
    FlatNil();
    buf.totalLen := buf.totalLen - len;
    var remaining: nat := len;
    var chain := buf.first;
    ghost var k := 0;
    DrainLook(buf, k);
    while remaining >= chain.off
      invariant k <= buf.lwd && chain == buf.chains[k] && chain.off == buf.view[k].off
      invariant remaining + |Flat(buf.view[..k])| == len
      invariant buf.lastWithDatap == if k == buf.lwd then HeadLink else LinkAt(buf.chains, buf.lwd)
      modifies buf`lastWithDatap
      decreases buf.lwd - k
    {
      DrainLook(buf, k);
      var next := chain.next;
      remaining := remaining - chain.off;
      if chain == buf.Deref(buf.lastWithDatap) {
        assert false; // the last chain with data is never drained whole here
      }
      if NextOf(chain) == buf.lastWithDatap {
        buf.lastWithDatap := HeadLink;
      }
      chain := next;
      k := k + 1;
      DrainLook(buf, k);
    }
    DrainFinish(buf, chain, remaining, k);
  }

  /** The bytes left when the first k chains go and the next one is cut into. */
  lemma DrainBytes(v: View, k: nat, n: nat)
    requires k < |v| && n < v[k].off
    ensures |Flat(v[..k])| + n <= |Flat(v)|
    ensures var c := v[k].(misalign := v[k].misalign + n, off := v[k].off - n);
      Flat(v[k..][0 := c]) == Flat(v)[|Flat(v[..k])| + n..]
  {
    hide Flat;
    assert v == v[..k] + v[k..];
    FlatConcat(v[..k], v[k..]);
    FlatUpdate(v[k..], 0, v[k].(misalign := v[k].misalign + n, off := v[k].off - n));
    FlatNil();
  }

  /** The end of evbuffer_drain: the first chains are gone, and one is cut into. */
  method DrainFinish(buf: Evbuffer, chain: Chain, remaining: nat, ghost k: nat)
    requires buf.Rep() && k <= buf.lwd < |buf.chains| && chain == buf.chains[k]
    requires IsLastWithData(buf.view, buf.lwd) && buf.last == buf.chains[|buf.chains| - 1]
    requires buf.lastWithDatap == if k == buf.lwd then HeadLink else LinkAt(buf.chains, buf.lwd)
    requires |buf.view| == |buf.chains| && remaining < buf.view[k].off
    requires buf.totalLen + |Flat(buf.view[..k])| + remaining == |Flat(buf.view)|
    modifies buf`first, buf`chains, buf`view, buf`lwd, chain`misalign, chain`off
    ensures buf.Valid() && buf.Contents() == old(Flat(buf.view)[|Flat(buf.view[..k])| + remaining..])
  {
    hide Pictures, Flat;
    buf.RepAt(k);
    DrainBytes(buf.view, k, remaining);
    buf.DropFront(chain, k);
    buf.lwd := buf.lwd - k;
    buf.RepAt(0);
    buf.SetExtent(chain, chain.misalign + remaining, chain.off - remaining, 0);
  }

  /** evbuffer_copyout_from: read bytes, from the front or from a pointer, without draining them.
      n is -1 on error. */
  method CopyoutFrom(buf: Evbuffer, from: Ptr, datlen: nat, ghost k: nat) returns (n: int, data: seq<byte>)
    requires buf.Valid() && PtrAt(buf, from, k)
    ensures n == |data| || (n == -1 && data == [])
    ensures n == -1 <==>
      (datlen > CHAIN_MAX - from.pos || (buf.freezeStart && datlen > 0 && from.pos < buf.totalLen))
    ensures n != -1 ==> data == buf.Contents()[from.pos..Min(from.pos + datlen, buf.totalLen)]
  {
    hide Pictures, Flat;
    if datlen > CHAIN_MAX - from.pos {
      return -1, [];
    }
    var left := if datlen + from.pos > buf.totalLen then buf.totalLen - from.pos else datlen;
    if left == 0 {
      return 0, [];
    }
    if buf.freezeStart {
      return -1, [];
    }
    n := left;
    data := Gather(buf, from, left, k);
  }

  /** Copy bytes out of the chains, starting inside the k-th. */
  method Gather(buf: Evbuffer, from: Ptr, datlen: nat, ghost k0: nat) returns (data: seq<byte>)
    requires buf.Valid() && PtrAt(buf, from, k0) && from.pos + datlen <= buf.totalLen
    ensures data == buf.Contents()[from.pos..from.pos + datlen]
  {
    hide Pictures, Flat;
    var p, left: nat := from, datlen;
    ghost var k := k0;
    data := [];
    PtrNotAtEnd(buf, p, k);
    while left > 0 && left >= p.chain.off - p.posInChain
      invariant left + |data| == datlen && p.pos == from.pos + |data|
      invariant PtrAt(buf, p, k) && (left > 0 ==> p.chain != null)
      invariant p.chain != null ==> k < |buf.chains| && p.posInChain <= p.chain.off == buf.view[k].off
      invariant data == buf.Contents()[from.pos..p.pos]
      decreases |buf.chains| - k
    {
      var chain := p.chain;
      var n := chain.off - p.posInChain;
      PtrChain(buf, p, k, n);
      SliceExtend(buf.Contents(), from.pos, p.pos, p.pos + n);
      data := data + chain.buffer[chain.misalign + p.posInChain..chain.misalign + chain.off];
      left := left - n;
      p := Ptr(p.pos + n, chain.next, 0);
      k := k + 1;
      PtrNotAtEnd(buf, p, k);
    }
    if left > 0 {
      PtrChain(buf, p, k, left);
      SliceExtend(buf.Contents(), from.pos, p.pos, p.pos + left);
      var at := p.chain.misalign + p.posInChain;
      data := data + p.chain.buffer[at..at + left];
    }
  }

  lemma SliceExtend(s: seq<byte>, p: nat, m: nat, n: nat)
    requires p <= m <= n <= |s|
    ensures s[p..m] + s[m..n] == s[p..n]
  {
  }

  /** evbuffer_copyout: read bytes from the front without draining them.  n is -1 on error. */
  method Copyout(buf: Evbuffer, datlen: nat) returns (n: int, data: seq<byte>)
    requires buf.Valid()
    ensures n == |data| || (n == -1 && data == [])
    ensures n == -1 <==> buf.freezeStart && datlen > 0 && buf.totalLen > 0
    ensures n != -1 ==> data == buf.Contents()[..Min(datlen, buf.totalLen)]
  {
    hide Pictures, Flat;
    var left := if datlen > buf.totalLen then buf.totalLen else datlen;
    if left == 0 {
      return 0, [];
    }
    if buf.freezeStart {
      return -1, [];
    }
    FlatNil();
    var start := StartPtr(buf);
    data := Gather(buf, start, left, 0);
    n := left;
  }

  /** evbuffer_remove: read bytes from the front and drain them.  n is -1 on error. */
  method Remove(buf: Evbuffer, datlen: nat) returns (n: int, data: seq<byte>)
    requires buf.Valid()
    modifies buf, buf.repr
    ensures buf.Valid() && Kept(buf)
    ensures n == |data| || (n == -1 && data == [])
    ensures n == -1 <==> buf.freezeStart && datlen > 0 && old(buf.totalLen) > 0
    ensures n != -1 ==> |data| == Min(datlen, old(buf.totalLen)) && old(buf.Contents()) == data + buf.Contents()
    ensures n == -1 ==> buf.Contents() == old(buf.Contents())
  {
    hide Pictures, Flat;
    n, data := Copyout(buf, datlen);
    if n > 0 {
      var ok := Drain(buf, n);
      if !ok {
        assert false; // a frozen buffer was already refused
      }
    }
  }
}
