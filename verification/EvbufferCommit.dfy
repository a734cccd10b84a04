/** Handing out free space as vectors, and committing the bytes written there. */
module EvbufferCommit {
  import opened Common
  import opened EvbufferChains
  import opened EvbufferCore
  import opened EvbufferMove
  import opened EvbufferReserve

  /** struct evbuffer_iovec: a stretch of some chain's memory. */
  datatype Iovec = Iovec(mem: array<byte>, base: nat, len: nat)

  /** The vector starts where the free space of the k-th chain starts, and stays inside it. */
  ghost predicate VecAt(buf: Evbuffer, vec: Iovec, k: nat)
    reads buf
  {
    && k < |buf.chains| == |buf.view|
    && vec.mem == buf.chains[k].buffer
    && vec.base == buf.view[k].misalign + buf.view[k].off
    && vec.len <= buf.view[k].SpaceLen()
  }

  ghost predicate VecsAt(buf: Evbuffer, vecs: seq<Iovec>, s: nat)
    reads buf
  {
    forall i :: 0 <= i < |vecs| ==> VecAt(buf, vecs[i], s + i)
  }

  function TotalLen(vecs: seq<Iovec>): nat {
    if vecs == [] then 0 else TotalLen(vecs[..|vecs| - 1]) + vecs[|vecs| - 1].len
  }

  /** The first n vectors offer all the free space of their chains. */
  ghost predicate WholeVecs(buf: Evbuffer, vecs: seq<Iovec>, s: nat, n: nat)
    reads buf
  {
    n <= |vecs| && s + n <= |buf.view| && forall i :: 0 <= i < n ==> vecs[i].len == buf.view[s + i].SpaceLen()
  }

  lemma VecsSnoc(buf: Evbuffer, vecs: seq<Iovec>, vec: Iovec, s: nat)
    requires VecsAt(buf, vecs, s) && VecAt(buf, vec, s + |vecs|)
    ensures VecsAt(buf, vecs + [vec], s) && TotalLen(vecs + [vec]) == TotalLen(vecs) + vec.len
    ensures WholeVecs(buf, vecs, s, |vecs|) ==> WholeVecs(buf, vecs + [vec], s, |vecs|)
    ensures WholeVecs(buf, vecs, s, |vecs|) && vec.len == buf.view[s + |vecs|].SpaceLen() ==>
      WholeVecs(buf, vecs + [vec], s, |vecs| + 1)
  {
    VecsBoth(buf, vecs, vec, s);
    TotalSnoc(vecs, vec);
    hide VecsAt, TotalLen, WholeVecs;
    if WholeVecs(buf, vecs, s, |vecs|) { WholeBoth(buf, vecs, vec, s); }
  }

  lemma WholeBoth(buf: Evbuffer, vecs: seq<Iovec>, vec: Iovec, s: nat)
    requires WholeVecs(buf, vecs, s, |vecs|) && s + |vecs| < |buf.view|
    ensures WholeVecs(buf, vecs + [vec], s, |vecs|)
    ensures vec.len == buf.view[s + |vecs|].SpaceLen() ==> WholeVecs(buf, vecs + [vec], s, |vecs| + 1)
  {
    forall i | 0 <= i < |vecs| ensures (vecs + [vec])[i].len == buf.view[s + i].SpaceLen() {
      assert (vecs + [vec])[i] == vecs[i];
    }
  }

  lemma TotalSnoc(vecs: seq<Iovec>, vec: Iovec)
    ensures TotalLen(vecs + [vec]) == TotalLen(vecs) + vec.len
  {
    assert (vecs + [vec])[..|vecs|] == vecs;
  }

  lemma VecsBoth(buf: Evbuffer, vecs: seq<Iovec>, vec: Iovec, s: nat)
    requires VecsAt(buf, vecs, s) && VecAt(buf, vec, s + |vecs|)
    ensures VecsAt(buf, vecs + [vec], s)
  {
    hide VecAt;
    forall i | 0 <= i <= |vecs| ensures VecAt(buf, (vecs + [vec])[i], s + i) {
      if i < |vecs| { assert VecAt(buf, vecs[i], s + i); }
    }
  }

  lemma NothingVecs(buf: Evbuffer, s: nat)
    ensures VecsAt(buf, [], s) && TotalLen([]) == 0 && (s <= |buf.view| ==> WholeVecs(buf, [], s, 0))
  {
  }

  /** The vector for one chain, and the chain after it. */
  method SetupVec(buf: Evbuffer, chain: Chain, left: nat, exact: bool, ghost k: nat) returns (vec: Iovec, next: Chain?)
    requires buf.Valid() && k < |buf.chains| == |buf.view| && chain == buf.chains[k]
    ensures VecAt(buf, vec, k) && next == if k + 1 < |buf.chains| then buf.chains[k + 1] else null
    ensures vec.len == if exact && buf.view[k].SpaceLen() > left then left else buf.view[k].SpaceLen()
  {
    hide Pictures, Flat, Evbuffer.Valid;
    buf.ValidAt(k);
    var avail := chain.SpaceLen();
    if avail > left && exact {
      avail := left;
    }
    vec := Iovec(chain.buffer, chain.misalign + chain.off, avail);
    next := chain.next;
  }

  /** evbuffer_read_setup_vecs_: name the free space, from the first chain that has any.  `ok` is false when there is
      no such chain, against the assertions. */
  method ReadSetupVecs(buf: Evbuffer, howmuch: nat, nVecs: nat, exact: bool)
    returns (ok: bool, vecs: seq<Iovec>, firstchainp: Link)
    requires buf.Valid() && |buf.view| == |buf.chains|
    requires Room(buf.view, FirstFree(buf.view, buf.lwd), nVecs) >= howmuch
    ensures ok <==> FirstFree(buf.view, buf.lwd) < |buf.chains|
    ensures ok ==> |vecs| <= nVecs && VecsAt(buf, vecs, FirstFree(buf.view, buf.lwd))
    ensures ok ==> firstchainp == LinkAt(buf.chains, FirstFree(buf.view, buf.lwd))
    ensures ok && vecs != [] ==> WholeVecs(buf, vecs, FirstFree(buf.view, buf.lwd), |vecs| - 1)
    ensures ok ==>
      if exact then TotalLen(vecs) == howmuch
      else TotalLen(vecs) == Room(buf.view, FirstFree(buf.view, buf.lwd), |vecs|) >= howmuch
  {
    hide Pictures, Flat, Evbuffer.Valid, VecsAt, VecAt, TotalLen, WholeVecs;
    buf.LwdAt();
    buf.ValidAt(buf.lwd);
    ok, vecs, firstchainp := false, [], buf.lastWithDatap;
    var chain := buf.Deref(firstchainp);
    if chain == null {
      return;
    }
    var space := chain.SpaceLen();
    if space == 0 {
      firstchainp := NextOf(chain);
      chain := chain.next;
    }
    if chain == null {
      return;
    }
    ok := true;
    vecs := NameSpace(buf, chain, howmuch, nVecs, exact);
  }

  /** The loop over the chains from the first with free space on. */
  method NameSpace(buf: Evbuffer, first: Chain, howmuch: nat, nVecs: nat, exact: bool) returns (vecs: seq<Iovec>)
    requires buf.Valid() && |buf.view| == |buf.chains|
    requires FirstFree(buf.view, buf.lwd) < |buf.chains| && first == buf.chains[FirstFree(buf.view, buf.lwd)]
    requires Room(buf.view, FirstFree(buf.view, buf.lwd), nVecs) >= howmuch
    ensures |vecs| <= nVecs && VecsAt(buf, vecs, FirstFree(buf.view, buf.lwd))
    ensures vecs != [] ==> WholeVecs(buf, vecs, FirstFree(buf.view, buf.lwd), |vecs| - 1)
    ensures
      if exact then TotalLen(vecs) == howmuch
      else TotalLen(vecs) == Room(buf.view, FirstFree(buf.view, buf.lwd), |vecs|) >= howmuch
  {
    hide Pictures, Flat, Evbuffer.Valid, VecsAt, VecAt, TotalLen, WholeVecs;
    ghost var s := FirstFree(buf.view, buf.lwd);
    var chain: Chain?, soFar := first, 0;
    vecs := [];
    NothingVecs(buf, s);
    while |vecs| < nVecs && soFar < howmuch
      invariant |vecs| <= nVecs && soFar == TotalLen(vecs)
      invariant s + |vecs| <= |buf.chains|
      invariant chain == if s + |vecs| < |buf.chains| then buf.chains[s + |vecs|] else null
      invariant VecsAt(buf, vecs, s)
      invariant soFar < howmuch || !exact ==> WholeVecs(buf, vecs, s, |vecs|)
      invariant vecs != [] ==> WholeVecs(buf, vecs, s, |vecs| - 1)
      invariant if exact then soFar <= howmuch && (soFar == howmuch || soFar == Room(buf.view, s, |vecs|))
                else soFar == Room(buf.view, s, |vecs|)
      decreases nVecs - |vecs|
    {
      ghost var k := s + |vecs|;
      RoomSplit(buf.view, s, |vecs|, nVecs);
      RoomNext(buf.view, s, |vecs|);
      var vec, next := SetupVec(buf, chain, howmuch - soFar, exact, k);
      VecsSnoc(buf, vecs, vec, s);
      vecs := vecs + [vec];
      soFar := soFar + vec.len;
      chain := next;
    }
  }

  /** There is as much free space in the chains from the s-th on. */
  predicate FitAt(v: View, s: nat, lens: seq<nat>) {
    s + |lens| <= |v| && forall i :: 0 <= i < |lens| ==> lens[i] <= v[s + i].SpaceLen()
  }

  /** The memory the vectors name, as it lies in the chains from the s-th on. */
  function Filled(v: View, s: nat, lens: seq<nat>): seq<byte>
    requires FitAt(v, s, lens)
  {
    if lens == [] then []
    else
      var k := |lens| - 1;
      Filled(v, s, lens[..k]) + Chunk(v[s + k], lens[k])
  }

  /** The first n bytes of a chain's free space. */
  function Chunk(c: ChainVal, n: nat): (d: seq<byte>)
    requires n <= c.SpaceLen()
    ensures |d| == n
  {
    c.mem[c.misalign + c.off..c.misalign + c.off + n]
  }

  function Lens(vecs: seq<Iovec>): (lens: seq<nat>)
    ensures |lens| == |vecs| && forall i :: 0 <= i < |vecs| ==> lens[i] == vecs[i].len
  {
    seq(|vecs|, i requires 0 <= i < |vecs| => vecs[i].len)
  }

  lemma ChunkGrows(v: View, k: nat, n: nat)
    requires k < |v| && AllEmpty(v[k + 1..]) && n <= v[k].SpaceLen()
    ensures var c := v[k].(off := v[k].off + n); c.Ok() && Flat(v[k := c]) == Flat(v) + Chunk(v[k], n)
  {
    hide Flat;
    FlatGrow(v, k, v[k].(off := v[k].off + n), Chunk(v[k], n));
  }

  /** Commit n bytes of one chain's free space, the chains after it being empty. */
  method CommitOne(buf: Evbuffer, chainp: Link, chain: Chain, n: nat, ghost k: nat)
    requires buf.Valid() && buf.lwd <= k < |buf.chains| == |buf.view|
    requires chain == buf.chains[k] && chainp == LinkAt(buf.chains, k)
    requires n <= buf.view[k].SpaceLen()
    modifies buf, chain
    ensures buf.Valid() && Kept(buf) && buf.repr == old(buf.repr) && buf.chains == old(buf.chains)
    ensures buf.lwd == (if n > 0 then k else old(buf.lwd)) && buf.last == old(buf.last)
    ensures buf.view == old(buf.view[k := buf.view[k].(off := buf.view[k].off + n)])
    ensures buf.Contents() == old(buf.Contents()) + Chunk(old(buf.view)[k], n)
  {
    hide Pictures, Flat, Chunk;
    buf.RepAt(k);
    ChunkGrows(buf.view, k, n);
    buf.SetExtent(chain, chain.misalign, chain.off + n, k);
    if n > 0 {
      buf.lastWithDatap := chainp;
      buf.lwd := k;
    }
    buf.totalLen := buf.totalLen + n;
  }

  /** The check of evbuffer_commit_space: do the vectors name the free space of the chains from the s-th on? */
  method CheckVecs(buf: Evbuffer, first: Chain?, vecs: seq<Iovec>, ghost s: nat) returns (ok: bool)
    requires buf.Valid() && s <= |buf.chains| && first == if s < |buf.chains| then buf.chains[s] else null
    ensures ok <==> VecsAt(buf, vecs, s)
    ensures ok ==> s + |vecs| <= |buf.chains|
  {
    hide Pictures, Flat, Evbuffer.Valid;
    buf.ValidAt(0);
    var chain := first;
    var i := 0;
    while i < |vecs|
      invariant 0 <= i <= |vecs| && s + i <= |buf.chains|
      invariant chain == if s + i < |buf.chains| then buf.chains[s + i] else null
      invariant forall j :: 0 <= j < i ==> VecAt(buf, vecs[j], s + j)
    {
      if chain == null {
        assert !VecAt(buf, vecs[i], s + i);
        return false;
      }
      buf.ValidAt(s + i);
      var space := chain.SpaceLen();
      if vecs[i].mem != chain.buffer || vecs[i].base != chain.misalign + chain.off || vecs[i].len > space {
        assert !VecAt(buf, vecs[i], s + i);
        return false;
      }
      chain := chain.next;
      i := i + 1;
    }
    return true;
  }

  /** The second pass of evbuffer_commit_space: adjust the chains. */
  method CommitVecs(buf: Evbuffer, firstchainp: Link, vecs: seq<Iovec>, ghost s: nat)
    requires buf.Valid() && VecsAt(buf, vecs, s) && buf.lwd <= s <= s + |vecs| <= |buf.chains|
    requires |buf.view| == |buf.chains| && firstchainp == LinkAt(buf.chains, s)
    modifies buf, buf.repr
    ensures buf.Valid() && Kept(buf)
    ensures s + |vecs| <= |old(buf.view)|
    ensures forall i :: 0 <= i < |vecs| ==> vecs[i].len <= old(buf.view)[s + i].SpaceLen()
    ensures buf.Contents() == old(buf.Contents()) + Filled(old(buf.view), s, Lens(vecs))
  {
    hide Pictures, Flat, Evbuffer.Valid, Filled, Chunk;
    FilledNone(buf.view, s);
    ghost var v, lens := buf.view, Lens(vecs);
    var chainp := firstchainp;
    var i := 0;
    buf.LwdAt();
    while i < |vecs|
      invariant 0 <= i <= |vecs| && s + |vecs| <= |buf.chains| && chainp == LinkAt(buf.chains, s + i)
      invariant buf.Valid() && Kept(buf) && buf.repr == old(buf.repr) && buf.chains == old(buf.chains)
      invariant buf.lwd <= s + i && |buf.view| == |v|
      invariant forall j :: s + i <= j < |v| ==> buf.view[j] == v[j]
      invariant buf.Contents() == old(buf.Contents()) + Filled(v, s, lens[..i])
    {
      buf.DerefValid(s + i);
      buf.ValidAt(s + i);
      FilledSnoc(v, s, lens, i);
      var chain := buf.Deref(chainp);
      CommitOne(buf, chainp, chain, vecs[i].len, s + i);
      chainp := NextOf(chain);
      i := i + 1;
    }
    assert lens[..i] == lens;
  }

  lemma FilledNone(v: View, s: nat)
    requires s <= |v|
    ensures Filled(v, s, []) == []
  {
  }

  lemma FilledSnoc(v: View, s: nat, lens: seq<nat>, i: nat)
    requires i < |lens| && s + |lens| <= |v| && forall j :: 0 <= j < |lens| ==> lens[j] <= v[s + j].SpaceLen()
    ensures Filled(v, s, lens[..i + 1]) == Filled(v, s, lens[..i]) + Chunk(v[s + i], lens[i])
  {
    assert lens[..i + 1][..i] == lens[..i];
  }

  /** evbuffer_commit_space when the one vector used is in the last chain. */
  method CommitLast(buf: Evbuffer, n: nat)
    requires buf.Valid() && buf.chains != [] && |buf.view| == |buf.chains| && n <= buf.view[|buf.view| - 1].SpaceLen()
    modifies buf, buf.repr
    ensures buf.Valid() && Kept(buf)
    ensures |old(buf.view)| > 0 && n <= old(buf.view)[|old(buf.view)| - 1].SpaceLen()
    ensures buf.Contents() == old(buf.Contents()) + Chunk(old(buf.view)[|old(buf.view)| - 1], n)
  {
    hide Pictures, Flat, Lagging, Evbuffer.Valid;
    if n > 0 {
      ExtendLast(buf, n);
      CatchUp(buf);
    }
  }

  method ExtendLast(buf: Evbuffer, n: nat)
    requires buf.Valid() && buf.chains != [] && |buf.view| == |buf.chains| && n <= buf.view[|buf.view| - 1].SpaceLen()
    modifies buf, buf.repr
    ensures Lagging(buf) && Kept(buf)
    ensures |old(buf.view)| > 0 && n <= old(buf.view)[|old(buf.view)| - 1].SpaceLen()
    ensures buf.Contents() == old(buf.Contents()) + Chunk(old(buf.view)[|old(buf.view)| - 1], n)
  {
    hide Pictures, Flat, Chunk;
    buf.InRepr();
    ghost var k := |buf.chains| - 1;
    buf.RepAt(k);
    ChunkGrows(buf.view, k, n);
    buf.SetExtent(buf.last, buf.last.misalign, buf.last.off + n, k);
    buf.totalLen := buf.totalLen + n;
  }

  /** Where in the list a vector list that can be committed starts. */
  ghost function CommitIndex(buf: Evbuffer, vecs: seq<Iovec>): nat
    reads buf
  {
    if |vecs| == 1 && buf.chains != [] && VecAt(buf, vecs[0], |buf.chains| - 1) then |buf.chains| - 1
    else FirstFree(buf.view, buf.lwd)
  }

  ghost predicate CanCommit(buf: Evbuffer, vecs: seq<Iovec>)
    reads buf
  {
    && !buf.freezeEnd
    && (vecs == [] || (buf.chains != [] && VecsAt(buf, vecs, CommitIndex(buf, vecs))))
  }

  /** evbuffer_commit_space */
  method CommitSpace(buf: Evbuffer, vecs: seq<Iovec>) returns (ok: bool)
    requires buf.Valid()
    modifies buf, buf.repr
    ensures buf.Valid() && Kept(buf)
    ensures ok <==> old(CanCommit(buf, vecs))
    ensures !ok || vecs == [] ==> buf.Contents() == old(buf.Contents())
    ensures ok && vecs != [] ==>
      && FitAt(old(buf.view), old(CommitIndex(buf, vecs)), Lens(vecs))
      && buf.Contents() == old(buf.Contents()) + Filled(old(buf.view), old(CommitIndex(buf, vecs)), Lens(vecs))
  {
    hide Pictures, Flat, Evbuffer.Valid, VecsAt, VecAt, Filled, Chunk;
    if buf.freezeEnd {
      return false;
    }
    if vecs == [] {
      return true;
    }
    LastVec(buf, vecs);
    if |vecs| == 1 && buf.last != null
       && vecs[0].mem == buf.last.buffer && vecs[0].base == buf.last.misalign + buf.last.off
    {
      var space := buf.last.SpaceLen();
      if vecs[0].len > space {
        return false;
      }
      FilledOne(buf.view, |buf.view| - 1, Lens(vecs));
      CommitLast(buf, vecs[0].len);
      return true;
    }
    ok := CommitList(buf, vecs);
  }

  /** evbuffer_commit_space when the vectors start at the first chain with space. */
  method CommitList(buf: Evbuffer, vecs: seq<Iovec>) returns (ok: bool)
    requires buf.Valid()
    modifies buf, buf.repr
    ensures buf.Valid() && Kept(buf)
    ensures ok <==> old(buf.chains != [] && VecsAt(buf, vecs, FirstFree(buf.view, buf.lwd)))
    ensures !ok ==> buf.Contents() == old(buf.Contents())
    ensures ok ==>
      && FitAt(old(buf.view), old(FirstFree(buf.view, buf.lwd)), Lens(vecs))
      && buf.Contents() == old(buf.Contents()) + Filled(old(buf.view), old(FirstFree(buf.view, buf.lwd)), Lens(vecs))
  {
    hide Pictures, Flat, Evbuffer.Valid, VecsAt, Filled;
    buf.LwdAt();
    buf.ValidAt(buf.lwd);
    var firstchainp := buf.lastWithDatap;
    var first := buf.Deref(firstchainp);
    if first == null {
      return false;
    }
    var space := first.SpaceLen();
    if space == 0 {
      firstchainp := NextOf(first);
      first := first.next;
    }
    ok := CheckVecs(buf, first, vecs, FirstFree(buf.view, buf.lwd));
    if ok {
      CommitVecs(buf, firstchainp, vecs, FirstFree(buf.view, buf.lwd));
    }
  }

  /** What the comparison of one vector with the last chain decides. */
  lemma LastVec(buf: Evbuffer, vecs: seq<Iovec>)
    requires buf.Valid() && vecs != []
    ensures |buf.view| == |buf.chains|
    ensures buf.last == (if buf.chains == [] then null else buf.chains[|buf.chains| - 1])
    ensures buf.chains != [] ==> buf.last.Val() == buf.view[|buf.view| - 1]
    ensures |vecs| == 1 && buf.chains != [] ==>
      (VecAt(buf, vecs[0], |buf.chains| - 1) <==>
        && vecs[0].mem == buf.last.buffer && vecs[0].base == buf.last.misalign + buf.last.off
        && vecs[0].len <= buf.last.Val().SpaceLen())
    ensures |vecs| == 1 && buf.chains != [] && VecAt(buf, vecs[0], |buf.chains| - 1) ==>
      VecsAt(buf, vecs, |buf.chains| - 1)
    ensures forall k: nat ::
      |vecs| == 1 && buf.last != null && vecs[0].mem == buf.last.buffer && VecsAt(buf, vecs, k) ==>
        k == |buf.chains| - 1 && VecAt(buf, vecs[0], k)
  {
    if buf.chains != [] {
      hide Pictures, Flat;
      buf.ValidAt(|buf.chains| - 1);
      forall k: nat | |vecs| == 1 && vecs[0].mem == buf.last.buffer && VecsAt(buf, vecs, k)
        ensures k == |buf.chains| - 1 && VecAt(buf, vecs[0], k)
      {
        assert VecAt(buf, vecs[0], k + 0);
        OnlyLast(buf, vecs[0]);
      }
    }
  }

  /** A vector that starts in the last chain starts in no other. */
  lemma OnlyLast(buf: Evbuffer, vec: Iovec)
    requires buf.Valid() && buf.chains != [] && vec.mem == buf.chains[|buf.chains| - 1].buffer
    ensures forall k: nat :: VecAt(buf, vec, k) ==> k == |buf.chains| - 1
  {
  }

  lemma FilledOne(v: View, s: nat, lens: seq<nat>)
    requires s < |v| && |lens| == 1 && lens[0] <= v[s].SpaceLen()
    ensures Filled(v, s, lens) == Chunk(v[s], lens[0])
  {
    assert lens[..0] == [];
  }
}
