/** The life of reserved space: reserve, write, commit.  This is how data read from elsewhere enters a buffer. */
module EvbufferReadInto {
  import opened Common
  import opened EvbufferChains
  import opened EvbufferCore
  import opened EvbufferReserve
  import opened EvbufferCommit

  const NUM_READ_IOVEC: nat := 4
  const EVBUFFER_MAX_READ: nat := 4096

  /** How much one read asks for. */
  function ReadLimit(readable: int, howmuch: int): nat {
    var n := if readable <= 0 || readable > EVBUFFER_MAX_READ then EVBUFFER_MAX_READ else readable;
    if howmuch < 0 || howmuch > n then n else howmuch
  }

  /** Write bytes into a vector.  The buffer does not notice. */
  method WriteVec(buf: Evbuffer, vec: Iovec, data: seq<byte>, ghost k: nat)
    requires buf.Valid() && VecAt(buf, vec, k) && |data| <= vec.len
    modifies buf`view, vec.mem
    ensures buf.Valid() && buf.Contents() == old(buf.Contents())
    ensures |buf.view| == |old(buf.view)|
    ensures forall i :: 0 <= i < |buf.view| && i != k ==> buf.view[i] == old(buf.view)[i]
    ensures k < |buf.view| && SameExtent(buf.view[k], old(buf.view)[k])
    ensures |data| <= buf.view[k].SpaceLen() && Chunk(buf.view[k], |data|) == data
  {
    hide Pictures, Flat;
    ghost var v := buf.view;
    buf.ValidAt(k);
    if data == [] {
      return;
    }
    buf.Write(vec.mem, vec.base, data, k);
    FlatUpdate(v, k, buf.view[k]);
    SameData(v[k], vec.base, data);
  }

  predicate SameExtent(c: ChainVal, d: ChainVal) {
    c.misalign == d.misalign && c.off == d.off && c.immutable == d.immutable && |c.mem| == |d.mem|
  }

  /** Bytes written behind the data leave the data alone. */
  lemma SameData(c: ChainVal, at: nat, data: seq<byte>)
    requires at == c.misalign + c.off && at + |data| <= |c.mem|
    ensures c.Written(at, data).Data() == c.Data()
  {
  }

  /** The bytes lie in the free space of the chains from the s-th on, each filled before the next. */
  ghost predicate Placed(v: View, s: nat, data: seq<byte>)
    decreases |v| - s
  {
    data == [] ||
    (s < |v| &&
     var m := Min(|data|, v[s].SpaceLen());
     Chunk(v[s], m) == data[..m] && Placed(v, s + 1, data[m..]))
  }

  lemma {:induction false} PlacedFrame(v: View, w: View, s: nat, data: seq<byte>)
    requires Placed(v, s, data) && |v| == |w| && forall i :: s <= i < |v| ==> v[i] == w[i]
    ensures Placed(w, s, data)
    decreases |v| - s
  {
    if data != [] {
      PlacedFrame(v, w, s + 1, data[Min(|data|, v[s].SpaceLen())..]);
    }
  }

  lemma {:induction false} TotalLenFront(vecs: seq<Iovec>)
    requires vecs != []
    ensures TotalLen(vecs) == vecs[0].len + TotalLen(vecs[1..])
  {
    var k := |vecs| - 1;
    if k == 0 {
      assert vecs[..0] == [] && vecs[1..] == [];
    } else {
      TotalLenFront(vecs[..k]);
      assert vecs[1..][..k - 1] == vecs[..k][1..];
    }
  }

  lemma VecsTail(buf: Evbuffer, vecs: seq<Iovec>, s: nat)
    requires vecs != [] && VecsAt(buf, vecs, s) && WholeVecs(buf, vecs, s, |vecs| - 1)
    ensures VecAt(buf, vecs[0], s) && VecsAt(buf, vecs[1..], s + 1)
    ensures |vecs| > 1 ==> vecs[0].len == buf.view[s].SpaceLen() && WholeVecs(buf, vecs[1..], s + 1, |vecs| - 2)
  {
    assert VecAt(buf, vecs[0], s + 0);
    forall i | 0 <= i < |vecs| - 1 ensures VecAt(buf, vecs[1..][i], s + 1 + i) {
      assert VecAt(buf, vecs[i + 1], s + (i + 1));
    }
  }

  lemma NonePlaced(v: View, s: nat)
    ensures Placed(v, s, [])
  {
  }

  lemma PlacedFirst(v: View, s: nat, data: seq<byte>, m: nat)
    requires s < |v| && m == Min(|data|, v[s].SpaceLen())
    requires Chunk(v[s], m) == data[..m] && Placed(v, s + 1, data[m..])
    ensures Placed(v, s, data)
  {
  }

  /** Fill the first vector; the others stay what they were. */
  method FillVec(buf: Evbuffer, vecs: seq<Iovec>, data: seq<byte>, ghost s: nat)
    requires buf.Valid() && vecs != [] && VecsAt(buf, vecs, s) && WholeVecs(buf, vecs, s, |vecs| - 1)
    requires |data| <= vecs[0].len
    modifies buf`view, buf.repr
    ensures buf.Valid() && buf.Contents() == old(buf.Contents()) && buf.repr == old(buf.repr)
    ensures |buf.view| == |old(buf.view)|
    ensures forall i :: 0 <= i < |buf.view| && i != s ==> buf.view[i] == old(buf.view)[i]
    ensures s < |buf.view| && SameExtent(buf.view[s], old(buf.view)[s])
    ensures |data| <= buf.view[s].SpaceLen() && Chunk(buf.view[s], |data|) == data
    ensures VecsAt(buf, vecs[1..], s + 1)
    ensures |vecs| > 1 ==> vecs[0].len == buf.view[s].SpaceLen() && WholeVecs(buf, vecs[1..], s + 1, |vecs| - 2)
  {
    hide Pictures, Flat, Evbuffer.Valid, Chunk;
    VecsTail(buf, vecs, s);
    buf.ValidAt(s);
    WriteVec(buf, vecs[0], data, s);
    forall i | 0 <= i < |vecs| - 1 ensures VecAt(buf, vecs[1..][i], s + 1 + i) {
      assert old(VecAt(buf, vecs[1..][i], s + 1 + i));
    }
  }

  /** readv: bytes arrive in the vectors, filling each before the next. */
  method Readv(buf: Evbuffer, vecs: seq<Iovec>, data: seq<byte>, ghost s: nat)
    requires buf.Valid() && VecsAt(buf, vecs, s) && (vecs != [] ==> WholeVecs(buf, vecs, s, |vecs| - 1))
    requires |data| <= TotalLen(vecs)
    modifies buf`view, buf.repr
    ensures buf.Valid() && buf.Contents() == old(buf.Contents()) && |buf.view| == |old(buf.view)|
    ensures forall i :: 0 <= i < |buf.view| ==>
      if i < s then buf.view[i] == old(buf.view)[i] else SameExtent(buf.view[i], old(buf.view)[i])
    ensures Placed(buf.view, s, data)
    decreases |vecs|
  {
    hide Pictures, Flat, Evbuffer.Valid, VecsAt, WholeVecs, Placed, Chunk;
    if data == [] {
      NonePlaced(buf.view, s);
      return;
    }
    TotalLenFront(vecs);
    var m := Min(|data|, vecs[0].len);
    FillVec(buf, vecs, data[..m], s);
    Readv(buf, vecs[1..], data[m..], s + 1);
    PlacedFirst(buf.view, s, data, m);
  }

  lemma PlacedStep(v: View, k: nat, left: seq<byte>, c: seq<byte>)
    requires Placed(v, k, left) && left != []
    ensures k < |v|
    ensures var m := Min(|left|, v[k].SpaceLen());
      Chunk(v[k], m) == left[..m] && Placed(v, k + 1, left[m..]) && c + left[..m] + left[m..] == c + left
  {
  }

  /** One chain of that: as many of the bytes that are left as fit. */
  method CommitReadOne(buf: Evbuffer, chainp: Link, remaining: nat, ghost k: nat, ghost left: seq<byte>)
    returns (next: Link, m: nat)
    requires buf.Valid() && buf.lwd <= k < |buf.chains| == |buf.view| && chainp == LinkAt(buf.chains, k)
    requires remaining == |left| > 0 && Placed(buf.view, k, left)
    modifies buf, buf.repr
    ensures buf.Valid() && Kept(buf) && buf.repr == old(buf.repr) && buf.chains == old(buf.chains)
    ensures buf.lwd <= k + 1 && |buf.view| == |old(buf.view)| && next == LinkAt(buf.chains, k + 1)
    ensures forall j :: k < j < |buf.view| ==> buf.view[j] == old(buf.view)[j]
    ensures m == Min(|left|, old(buf.view)[k].SpaceLen())
    ensures buf.Contents() + left[m..] == old(buf.Contents()) + left
    ensures Placed(buf.view, k + 1, left[m..])
  {
    hide Pictures, Flat, Evbuffer.Valid, Placed, Chunk;
    buf.DerefValid(k);
    buf.ValidAt(k);
    PlacedStep(buf.view, k, left, buf.Contents());
    var chain := buf.Deref(chainp);
    var space := chain.SpaceLen();
    m := if space < remaining then space else remaining;
    ghost var v := buf.view;
    CommitOne(buf, chainp, chain, m, k);
    PlacedFrame(v, buf.view, k + 1, left[m..]);
    next := NextOf(chain);
  }

  /** What evbuffer_read does with n bytes that readv put into the free space: commit chain by chain. */
  method CommitRead(buf: Evbuffer, firstchainp: Link, nVecs: nat, n: nat, ghost s: nat, ghost data: seq<byte>)
    requires buf.Valid() && buf.lwd <= s <= s + nVecs <= |buf.chains| == |buf.view|
    requires firstchainp == LinkAt(buf.chains, s)
    requires n == |data| && Placed(buf.view, s, data) && n <= Room(buf.view, s, nVecs)
    modifies buf, buf.repr
    ensures buf.Valid() && Kept(buf) && buf.Contents() == old(buf.Contents()) + data
  {
    hide Pictures, Flat, Evbuffer.Valid, Placed;
    var remaining, chainp, i := n, firstchainp, 0;
    ghost var left := data;
    while i < nVecs && remaining > 0
      invariant 0 <= i <= nVecs && remaining == |left|
      invariant buf.Valid() && Kept(buf) && buf.repr == old(buf.repr) && buf.chains == old(buf.chains)
      invariant s + nVecs <= |buf.chains| == |buf.view|
      invariant buf.lwd <= s + i && chainp == LinkAt(buf.chains, s + i)
      invariant Placed(buf.view, s + i, left) && remaining <= Room(buf.view, s + i, nVecs - i)
      invariant buf.Contents() + left == old(buf.Contents()) + data
    {
      ghost var v := buf.view;
      var next, m := CommitReadOne(buf, chainp, remaining, s + i, left);
      RoomFrame(v, buf.view, s + i + 1, nVecs - i - 1);
      chainp, left, remaining, i := next, left[m..], remaining - m, i + 1;
    }
    assert left == [];
  }

  /** The bytes arrive and are committed. */
  method Deliver(buf: Evbuffer, vecs: seq<Iovec>, chainp: Link, data: seq<byte>)
    requires buf.Valid() && FirstFree(buf.view, buf.lwd) < |buf.chains| == |buf.view|
    requires VecsAt(buf, vecs, FirstFree(buf.view, buf.lwd))
    requires vecs != [] ==> WholeVecs(buf, vecs, FirstFree(buf.view, buf.lwd), |vecs| - 1)
    requires chainp == LinkAt(buf.chains, FirstFree(buf.view, buf.lwd)) && |data| <= TotalLen(vecs)
    modifies buf, buf.repr
    ensures buf.Valid() && Kept(buf) && buf.Contents() == old(buf.Contents()) + data
  {
    hide Pictures, Flat, Evbuffer.Valid, TotalLen, VecsAt, WholeVecs;
    ghost var s, v := FirstFree(buf.view, buf.lwd), buf.view;
    VecsRoom(buf, vecs, s);
    buf.LwdAt();
    Readv(buf, vecs, data, s);
    RoomSame(v, buf.view, s, |vecs|);
    CommitRead(buf, chainp, |vecs|, |data|, s, data);
  }

  /** evbuffer_read, given what FIONREAD says is readable and the bytes the read delivers.  `dies` says that it fails
      an assertion instead. */
  method Read(buf: Evbuffer, readable: int, howmuch: int, delivered: seq<byte>) returns (result: int, dies: bool)
    requires buf.Valid() && |delivered| <= ReadLimit(readable, howmuch)
    modifies buf, buf.repr
    ensures buf.Valid() && Kept(buf)
    ensures dies <==> ReadLimit(readable, howmuch) == 0 && !buf.freezeEnd && old(FullUp(buf))
    ensures result == if buf.freezeEnd || dies then -1 else |delivered|
    ensures buf.Contents() == old(buf.Contents()) + if buf.freezeEnd then [] else delivered
  {
    hide Pictures, Flat, Evbuffer.Valid, VecsAt, WholeVecs, Room, FullUp;
    if buf.freezeEnd {
      return -1, false;
    }
    var n := ReadLimit(readable, howmuch);
    var ok := ExpandFast(buf, n, NUM_READ_IOVEC);
    var there, vecs, chainp := ReadSetupVecs(buf, n, NUM_READ_IOVEC, true);
    if !there {
      assert buf.Contents() == old(buf.Contents()) + delivered;
      return -1, true;
    }
    Deliver(buf, vecs, chainp, delivered);
    result, dies := |delivered|, false;
  }

  lemma {:induction false} VecsRoom(buf: Evbuffer, vecs: seq<Iovec>, s: nat)
    requires VecsAt(buf, vecs, s) && s <= |buf.chains|
    ensures TotalLen(vecs) <= Room(buf.view, s, |vecs|) && s + |vecs| <= |buf.chains|
    decreases |vecs|
  {
    if vecs != [] {
      var k := |vecs| - 1;
      assert VecAt(buf, vecs[k], s + k);
      VecsRoom(buf, vecs[..k], s);
      RoomNext(buf.view, s, k);
    }
  }
}
