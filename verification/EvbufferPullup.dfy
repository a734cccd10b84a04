module EvbufferPullup {
  import opened Common
  import opened EvbufferChains
  import opened EvbufferCore

  /** Copy the first n bytes of the j-th chain behind the bytes of the chains before it. */
  method CopyChunk(dst: array<byte>, at: nat, done: nat, chain: Chain, n: nat,
                   ghost first: Chain?, ghost cs: seq<Chain>, ghost v: View, ghost j: nat)
    requires Pictures(first, cs, v) && (forall c :: c in cs ==> c.buffer != dst)
    requires |v| == |cs| && j < |cs| && chain == cs[j] && n <= v[j].off
    requires done == |Flat(v[..j])| <= |Flat(v)| && at + done + n <= dst.Length && dst[at..at + done] == Flat(v)[..done]
    modifies dst
    ensures Pictures(first, cs, v) && done + n <= |Flat(v)| && |Flat(v[..j + 1])| == done + v[j].off
    ensures dst[..at] == old(dst[..at]) && dst[at..at + done + n] == Flat(v)[..done + n]
  {
    hide Pictures, Flat;
    PicturesAt(first, cs, v, j);
    ChunkAt(v, j, 0, n);
    ghost var chunk := Flat(v)[done..done + n];
    assert Flat(v)[..done + n] == Flat(v)[..done] + chunk;
    Copy(dst, at + done, chain.buffer[chain.misalign..chain.misalign + n]);
    assert dst[at..at + done + n] == dst[at..at + done] + dst[at + done..at + done + n];
  }

  /** The copying loop of evbuffer_pullup: fill `dst` from the chains, whole chains first.
      Returns the chain the copy stopped in, how much of it was used, and what was seen on the way.
      The last chain with data is the m-th. */
  method PullInto(dst: array<byte>, at: nat, size: nat, first: Chain?, lastWithData: Chain?, lwdp: Link,
                  ghost cs: seq<Chain>, ghost v: View, ghost m: nat)
    returns (chain: Chain?, left: nat, removedData: bool, removedLink: bool, ghost j: nat)
    requires m < |cs| && lastWithData == cs[m]
    requires if m > 0 then lwdp == NextOf(cs[m - 1]) else lwdp.NextOf? ==> lwdp.chain !in cs
    requires Pictures(first, cs, v) && (forall c :: c in cs ==> c.buffer != dst)
    requires at + size <= dst.Length && size <= |Flat(v)|
    modifies dst
    ensures Pictures(first, cs, v) && |v| == |cs|
    ensures j <= |cs| && chain == (if j < |cs| then cs[j] else null)
    ensures size == |Flat(v[..j])| + left && (if j < |cs| then left < v[j].off else left == 0)
    ensures dst[..at] == old(dst[..at]) && dst[at..at + size] == Flat(v)[..size]
    ensures removedData <==> m < j
    ensures removedLink <==> 0 < m <= j
  {
    hide Pictures, Flat;
    FlatNil();
    chain, left, removedData, removedLink, j := first, size, false, false, 0;
    PicturesAt(first, cs, v, 0);
    while chain != null && left >= chain.off
      invariant Pictures(first, cs, v)
      invariant j <= |cs| && chain == (if j < |cs| then cs[j] else null)
      invariant j < |cs| ==> chain.off == v[j].off
      invariant size == |Flat(v[..j])| + left
      invariant dst[..at] == old(dst[..at]) && dst[at..at + size - left] == Flat(v)[..size - left]
      invariant removedData <==> m < j
      invariant removedLink <==> 0 < m <= j
      decreases |cs| - j
    {
      PicturesAt(first, cs, v, j);
      PicturesDistinct(first, cs, v, j, m);
      if m > 0 {
        PicturesDistinct(first, cs, v, j, m - 1);
      }
      CopyChunk(dst, at, size - left, chain, chain.off, first, cs, v, j);
      left := left - chain.off;
      removedData := removedData || chain == lastWithData;
      removedLink := removedLink || lwdp == NextOf(chain);
      j := j + 1;
      chain := chain.next;
      PicturesAt(first, cs, v, j);
    }
    if chain != null {
      CopyChunk(dst, at, size - left, chain, left, first, cs, v, j);
    } else {
      assert v[..j] == v;
    }
  }

  /** Put `tmp`, which now holds the first bytes, in front of the chains from the j-th of `cs` on. */
  method PullRelink(buf: Evbuffer, tmp: Chain, chain: Chain?,
                    ghost cs: seq<Chain>, ghost v: View, ghost first: Chain?, ghost j: nat)
    requires Pictures(first, cs, v) && |v| == |cs| && j <= |cs| && chain == (if j < |cs| then cs[j] else null)
    requires buf !in buf.repr
    requires forall c :: c in cs ==> c in buf.repr && c.buffer in buf.repr && c != tmp && c.buffer != tmp.buffer
    requires tmp.Val().Ok()
    modifies buf`first, buf`last, buf`chains, buf`view, buf`repr, tmp`next
    ensures buf.Rep() && buf.repr == old(buf.repr) + {tmp, tmp.buffer}
    ensures buf.chains == [tmp] + cs[j..] && buf.view == [old(tmp.Val())] + v[j..] && buf.first == tmp
    ensures Flat(buf.view) == old(tmp.Val().Data()) + Flat(v[j..])
    ensures buf.last == if chain == null then tmp else old(buf.last)
  {
    hide Pictures, Flat;
    PicturesDrop(first, cs, v, j);
    tmp.next := chain;
    PicturesCons(tmp, chain, cs[j..], v[j..]);
    FlatConcat([tmp.Val()], v[j..]);
    FlatSingle(tmp.Val());
    buf.first := tmp;
    buf.chains, buf.view, buf.repr := [tmp] + cs[j..], [tmp.Val()] + v[j..], buf.repr + {tmp, tmp.buffer};
    if chain == null {
      buf.last := tmp;
    }
  }

  /** Drop the first `left` bytes of the second chain. */
  method CutSecond(buf: Evbuffer, chain: Chain, left: nat)
    requires buf.Rep() && |buf.view| == |buf.chains| >= 2 && chain == buf.chains[1] && left < buf.view[1].off
    modifies buf`view, chain`misalign, chain`off
    ensures buf.Rep() && buf.view ==
      old(buf.view[1 := buf.view[1].(misalign := buf.view[1].misalign + left, off := buf.view[1].off - left)])
    ensures left <= |Flat(old(buf.view)[1..])|
    ensures Flat(buf.view) == old(buf.view)[0].Data() + Flat(old(buf.view)[1..])[left..]
  {
    hide Pictures, Flat;
    ghost var w := buf.view;
    buf.RepAt(1);
    buf.SetExtent(chain, chain.misalign + left, chain.off - left, 1);
    FlatUpdate(w, 1, buf.view[1]);
    assert w[1..] == [w[1]] + w[2..] && w[..1] == [w[0]];
    FlatConcat([w[1]], w[2..]);
    FlatSingle(w[0]);
    FlatSingle(w[1]);
  }

  /** How last_with_datap is repaired, and why that is right. */
  method PullLinks(buf: Evbuffer, tmp: Chain, removedData: bool, removedLink: bool)
    requires buf.Rep() && |buf.view| == |buf.chains| > 0 && tmp == buf.chains[0] && buf.view[0].off > 0
    requires removedData <==> buf.lwd == 0
    requires removedData ==> forall i :: 0 < i < |buf.view| ==> buf.view[i].off == 0
    requires !removedData ==> IsLastWithData(buf.view, buf.lwd)
    requires !removedData && removedLink ==> buf.lwd == 1
    requires !removedData && !removedLink ==> buf.lastWithDatap == LinkAt(buf.chains, buf.lwd)
    requires buf.last == buf.chains[|buf.chains| - 1] && buf.totalLen == |Flat(buf.view)|
    modifies buf`lastWithDatap
    ensures buf.Valid()
  {
    hide Pictures, Flat;
    buf.InRepr();
    buf.RepAt(0);
    if removedData {
      buf.lastWithDatap := HeadLink;
    } else if removedLink {
      buf.RepAt(1);
      if buf.first.next != null && buf.first.next.off != 0 {
        buf.lastWithDatap := NextOf(buf.first);
      } else {
        assert false; // the next chain holds the last data
      }
    }
  }

  /** What a pull up starts from: the chains from the k-th on, none of them the one the bytes go to. */
  lemma PullStart(buf: Evbuffer, tmp: Chain, k: nat)
    requires buf.Valid() && k <= 1 && k <= buf.lwd && 1 <= buf.lwd
    requires if k == 1 then tmp == buf.chains[0] else tmp !in buf.repr && tmp.buffer !in buf.repr
    ensures |buf.view| == |buf.chains| && buf.lwd < |buf.chains|
    ensures var cs: seq<Chain>, v: View, m := buf.chains[k..], buf.view[k..], buf.lwd - k;
      && Pictures(buf.chains[k], cs, v)
      && (forall c :: c in cs ==> c in buf.repr && c.buffer in buf.repr && c != tmp && c.buffer != tmp.buffer)
      && buf.Deref(buf.lastWithDatap) == cs[m] && v[m].off > 0 && (forall i :: m < i < |v| ==> v[i].off == 0)
      && (buf.lastWithDatap == NextOf(if m > 0 then cs[m - 1] else tmp))
      && buf.last == cs[|cs| - 1]
    ensures Flat(buf.view) == Flat(buf.view[..k]) + Flat(buf.view[k..])
  {
    hide Pictures, Flat;
    buf.InRepr();
    OthersDiffer(buf, tmp, k);
    assert buf.view == buf.view[..k] + buf.view[k..];
    FlatConcat(buf.view[..k], buf.view[k..]);
    PicturesDrop(buf.first, buf.chains, buf.view, k);
    buf.DerefAt(buf.lwd);
  }

  /** The chain the bytes go to is none of those they come from. */
  lemma OthersDiffer(buf: Evbuffer, tmp: Chain, k: nat)
    requires buf.Rep() && k <= |buf.chains|
    requires if k == 1 then tmp == buf.chains[0] else k == 0 && tmp !in buf.repr && tmp.buffer !in buf.repr
    ensures forall c :: c in buf.chains[k..] ==> c != tmp && c.buffer != tmp.buffer
  {
  }

  /** Splitting the bytes at a point inside the j-th chain. */
  lemma FlatCutAt(v: View, j: nat, left: nat)
    requires j <= |v| && (if j < |v| then left <= v[j].off else left == 0)
    ensures |Flat(v[..j])| + left <= |Flat(v)| && left <= |Flat(v[j..])|
    ensures Flat(v) == Flat(v)[..|Flat(v[..j])| + left] + Flat(v[j..])[left..]
  {
    hide Flat;
    assert v == v[..j] + v[j..];
    FlatConcat(v[..j], v[j..]);
    FlatNil();
    if j < |v| {
      ChunkAt(v, j, 0, left);
    }
  }

  /** The bytes of `all` up to n, the first of them already in `tmp`, are brought together there. */
  method PullFill(tmp: Chain, chain: Chain?, n: nat, have: nat, lastWithData: Chain?, lwdp: Link,
                  ghost cs: seq<Chain>, ghost v: View, ghost m: nat, ghost head: seq<byte>)
    returns (chain': Chain?, left: nat, removedData: bool, removedLink: bool, ghost j: nat)
    requires Pictures(chain, cs, v) && (forall c :: c in cs ==> c != tmp && c.buffer != tmp.buffer)
    requires have == |head| < n <= |head| + |Flat(v)|
    requires !tmp.immutable && tmp.misalign + n <= tmp.buffer.Length && CanAllocate(tmp.buffer.Length)
    requires tmp.buffer[tmp.misalign..tmp.misalign + have] == head
    requires m < |cs| && lastWithData == cs[m]
    requires if m > 0 then lwdp == NextOf(cs[m - 1]) else lwdp.NextOf? ==> lwdp.chain !in cs
    modifies tmp`off, tmp.buffer
    ensures Pictures(chain, cs, v) && |v| == |cs|
    ensures tmp.off == n && tmp.Val().Ok() && tmp.Val().Data() == (head + Flat(v))[..n]
    ensures j <= |cs| && chain' == (if j < |cs| then cs[j] else null)
    ensures n == |head| + |Flat(v[..j])| + left && (if j < |cs| then left < v[j].off else left == 0)
    ensures removedData <==> m < j
    ensures removedLink <==> 0 < m <= j
  {
    hide Pictures, Flat;
    chain', left, removedData, removedLink, j :=
      PullInto(tmp.buffer, tmp.misalign + have, n - have, chain, lastWithData, lwdp, cs, v, m);
    tmp.off := n;
    var at := tmp.misalign + have;
    assert tmp.buffer[tmp.misalign..at] == tmp.buffer[..at][tmp.misalign..];
    assert tmp.Val().Data() == tmp.buffer[tmp.misalign..at] + tmp.buffer[at..at + n - have];
  }

  /** The list after the bytes have moved: `tmp`, then what is left of the chains from the j-th on. */
  method PullList(buf: Evbuffer, tmp: Chain, chain: Chain?, left: nat,
                  ghost cs: seq<Chain>, ghost v: View, ghost first: Chain?, ghost j: nat)
    requires Pictures(first, cs, v) && |v| == |cs| && j <= |cs| && chain == (if j < |cs| then cs[j] else null)
    requires if j < |cs| then left < v[j].off else left == 0
    requires buf !in buf.repr
    requires forall c :: c in cs ==> c in buf.repr && c.buffer in buf.repr && c != tmp && c.buffer != tmp.buffer
    requires tmp.Val().Ok() && (cs != [] ==> buf.last == cs[|cs| - 1])
    modifies buf, tmp`next, cs
    ensures buf.Rep() && buf.repr == old(buf.repr) + {tmp, tmp.buffer} && buf.first == tmp
    ensures buf.freezeStart == old(buf.freezeStart) && buf.freezeEnd == old(buf.freezeEnd)
    ensures buf.lwd == old(buf.lwd) && buf.lastWithDatap == old(buf.lastWithDatap) && buf.totalLen == old(buf.totalLen)
    ensures buf.chains == [tmp] + cs[j..] && |buf.view| == |buf.chains|
    ensures left <= |Flat(v[j..])| && Flat(buf.view) == old(tmp.Val().Data()) + Flat(v[j..])[left..]
    ensures buf.view[0] == old(tmp.Val()) && tmp.Val() == old(tmp.Val())
    ensures forall i :: 1 < i < |buf.view| ==> buf.view[i] == v[j + i - 1]
    ensures |buf.view| > 1 ==> 0 < buf.view[1].off <= v[j].off
    ensures buf.last == buf.chains[|buf.chains| - 1]
  {
    hide Pictures, Flat;
    FlatNil();
    PullRelink(buf, tmp, chain, cs, v, first, j);
    if chain != null {
      CutSecond(buf, chain, left);
    }
  }

  /** What evbuffer_pullup does once it knows where the bytes go: `tmp` is the first chain (k == 1) or a
      new one (k == 0), and it already holds the bytes of the chains before the k-th. */
  method PullTail(buf: Evbuffer, tmp: Chain, chain: Chain?, n: nat, have: nat, ghost k: nat)
    requires buf.Valid() && k <= 1 && k <= buf.lwd && 1 <= buf.lwd
    requires have == |Flat(buf.view[..k])| < n <= buf.totalLen
    requires chain == buf.chains[k] && (k == 0 ==> buf.view[0].off < n)
    requires if k == 1 then tmp == buf.chains[0] else tmp !in buf.repr && tmp.buffer !in buf.repr
    requires !tmp.immutable && tmp.misalign + n <= tmp.buffer.Length && CanAllocate(tmp.buffer.Length)
    requires tmp.buffer[tmp.misalign..tmp.misalign + have] == Flat(buf.view[..k])
    modifies buf, buf.repr, tmp, tmp.buffer
    ensures buf.Valid() && buf.Contents() == old(buf.Contents())
    ensures buf.repr == old(buf.repr) + {tmp, tmp.buffer}
    ensures buf.freezeStart == old(buf.freezeStart) && buf.freezeEnd == old(buf.freezeEnd)
    ensures buf.first == tmp && tmp.off == n
  {
    hide Pictures, Flat;
    PullStart(buf, tmp, k);
    ghost var all, cs, v := buf.view, buf.chains[k..], buf.view[k..];
    var lastWithData := buf.Deref(buf.lastWithDatap);
    var chain', left, removedData, removedLink, j :=
      PullFill(tmp, chain, n, have, lastWithData, buf.lastWithDatap, cs, v, buf.lwd - k, Flat(all[..k]));
    PullBytes(all, k, j, left, n);
    PullEnd(buf, tmp, chain', left, removedData, removedLink, cs, v, chain, j, buf.lwd - k);
  }

  /** The second half of evbuffer_pullup's work: the list and last_with_datap. */
  method PullEnd(buf: Evbuffer, tmp: Chain, chain: Chain?, left: nat, removedData: bool, removedLink: bool,
                 ghost cs: seq<Chain>, ghost v: View, ghost first: Chain?, ghost j: nat, ghost m: nat)
    requires Pictures(first, cs, v) && |v| == |cs| && j <= |cs| && chain == (if j < |cs| then cs[j] else null)
    requires if j < |cs| then left < v[j].off else left == 0
    requires buf !in buf.repr
    requires forall c :: c in cs ==> c in buf.repr && c.buffer in buf.repr && c != tmp && c.buffer != tmp.buffer
    requires tmp.Val().Ok() && tmp.off > 0
    requires m < |cs| && buf.last == cs[|cs| - 1] && v[m].off > 0 && forall i :: m < i < |v| ==> v[i].off == 0
    requires buf.lastWithDatap == NextOf(if m > 0 then cs[m - 1] else tmp)
    requires (removedData <==> m < j) && (removedLink <==> 0 < m <= j)
    requires left <= |Flat(v[j..])| && buf.totalLen == tmp.off + |Flat(v[j..])| - left
    modifies buf, tmp`next, cs
    ensures buf.Valid() && buf.repr == old(buf.repr) + {tmp, tmp.buffer}
    ensures buf.freezeStart == old(buf.freezeStart) && buf.freezeEnd == old(buf.freezeEnd)
    ensures buf.Contents() == old(tmp.Val().Data()) + Flat(v[j..])[left..]
    ensures buf.first == tmp && tmp.off == old(tmp.off)
  {
    hide Pictures, Flat;
    PullList(buf, tmp, chain, left, cs, v, first, j);
    PullLwd(cs, v, m, j, buf.view, buf.chains, tmp);
    buf.lwd := if removedData then 0 else 1 + m - j;
    PullLinks(buf, tmp, removedData, removedLink);
  }

  /** The bytes pulled up and the bytes left are all the bytes. */
  lemma PullBytes(all: View, k: nat, j: nat, left: nat, n: nat)
    requires k + j <= |all| && (if k + j < |all| then left <= all[k + j].off else left == 0)
    requires n == |Flat(all[..k])| + |Flat(all[k..][..j])| + left
    ensures n <= |Flat(all)| && left <= |Flat(all[k + j..])|
    ensures Flat(all) == Flat(all)[..n] + Flat(all[k + j..])[left..]
    ensures all[k..][j..] == all[k + j..]
  {
    hide Flat;
    assert all[..k + j] == all[..k] + all[k..][..j];
    FlatConcat(all[..k], all[k..][..j]);
    FlatCutAt(all, k + j, left);
  }

  /** Where the last chain with data, the m-th of `v`, is once `tmp` has replaced the first j chains. */
  lemma PullLwd(cs: seq<Chain>, v: View, m: nat, j: nat, w: View, ds: seq<Chain>, tmp: Chain)
    requires |cs| == |v| && m < |v| && j <= |v|
    requires v[m].off > 0 && forall i :: m < i < |v| ==> v[i].off == 0
    requires ds == [tmp] + cs[j..] && |w| == |ds| && w[0].off > 0
    requires forall i :: 1 < i < |w| ==> w[i] == v[j + i - 1]
    requires |w| > 1 ==> 0 < w[1].off <= v[j].off
    ensures m < j ==> |w| == 1
    ensures m >= j ==> IsLastWithData(w, 1 + m - j)
    ensures m > j ==> LinkAt(ds, 1 + m - j) == NextOf(cs[m - 1])
  {
  }

  /** evbuffer_pullup: make the first `size` bytes (all of them when negative) lie in one chain. */
  method Pullup(buf: Evbuffer, size: int) returns (r: Chain?)
    requires buf.Valid()
    modifies buf, buf.repr
    ensures buf.Valid() && Kept(buf) && buf.Contents() == old(buf.Contents())
    ensures var n := if size < 0 then old(buf.totalLen) else size;
      && (r != null <==> 0 < n <= old(buf.totalLen) && (n <= old(FirstLen(buf)) || CanAllocate(n)))
      && (r != null ==> r == buf.first && n <= r.off && r.misalign + n <= r.buffer.Length
                        && n <= |buf.Contents()| && r.buffer[r.misalign..r.misalign + n] == buf.Contents()[..n])
  {
    hide Pictures, Flat;
    var n := if size < 0 then buf.totalLen else size;
    if n == 0 || n > buf.totalLen {
      return null;
    }
    buf.InRepr();
    FirstBytes(buf);
    var chain := buf.first;
    if chain.off >= n {
      FirstPrefix(buf, n);
      return chain;
    }
    if chain.buffer.Length - chain.misalign >= n {
      PullTail(buf, chain, chain.next, n, chain.off, 1);
      r := chain;
    } else {
      var tmp := ChainNew(n);
      if tmp == null {
        return null;
      }
      FlatNil();
      PullTail(buf, tmp, chain, n, 0, 0);
      r := tmp;
    }
    FirstPrefix(buf, n);
  }
}
