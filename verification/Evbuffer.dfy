module EvbufferCore {
  import opened Common
  import opened EvbufferChains

  /** last_with_datap: a pointer to a link, either the buffer's own or the next field of a chain. */
  datatype Link = HeadLink | NextOf(chain: Chain)

  ghost function LinkAt(cs: seq<Chain>, i: nat): Link
    requires i <= |cs|
  {
    if i == 0 then HeadLink else NextOf(cs[i - 1])
  }

  ghost predicate Linked(cs: seq<Chain>)
    reads cs
  {
    && (forall i {:trigger cs[i].next} :: 0 <= i < |cs| - 1 ==> cs[i].next == cs[i + 1])
    && (cs != [] ==> cs[|cs| - 1].next == null)
  }

  ghost predicate Distinct(cs: seq<Chain>) {
    forall i, j :: 0 <= i < j < |cs| ==> cs[i] != cs[j] && cs[i].buffer != cs[j].buffer
  }

  ghost predicate Mirrors(cs: seq<Chain>, v: View)
    reads cs, set c | c in cs :: c.buffer
  {
    && |v| == |cs|
    && forall i :: 0 <= i < |cs| ==> v[i] == cs[i].Val()
  }

  /** The ghost sequences picture the list that starts at `first`. */
  ghost predicate Pictures(first: Chain?, cs: seq<Chain>, v: View)
    reads cs, set c | c in cs :: c.buffer
  {
    && Distinct(cs)
    && Mirrors(cs, v)
    && Linked(cs)
    && first == (if cs == [] then null else cs[0])
  }

  lemma PicturesAt(first: Chain?, cs: seq<Chain>, v: View, k: nat)
    requires Pictures(first, cs, v)
    ensures |v| == |cs| && first == (if cs == [] then null else cs[0])
    ensures k < |cs| ==>
      var c := cs[k];
      && c.off == v[k].off && c.misalign == v[k].misalign && c.immutable == v[k].immutable
      && c.buffer[..] == v[k].mem
      && c.next == (if k + 1 < |cs| then cs[k + 1] else null)
  {
  }

  lemma PicturesDistinct(first: Chain?, cs: seq<Chain>, v: View, i: nat, j: nat)
    requires Pictures(first, cs, v) && i < |cs| && j < |cs|
    ensures cs[i] == cs[j] <==> i == j
  {
  }

  /** One more chain in front of a list that stays as it is. */
  lemma PicturesCons(c: Chain, first: Chain?, cs: seq<Chain>, v: View)
    requires Pictures(first, cs, v) && c.next == first && c.Val().Ok()
    requires forall d :: d in cs ==> c != d && c.buffer != d.buffer
    ensures Pictures(c, [c] + cs, [c.Val()] + v)
  {
  }

  /** What is left of a list after its first k chains is a list. */
  lemma PicturesDrop(first: Chain?, cs: seq<Chain>, v: View, k: nat)
    requires Pictures(first, cs, v) && k <= |cs|
    ensures Pictures(if k < |cs| then cs[k] else null, cs[k..], v[k..])
  {
  }

  /** Where last_with_datap must point: every chain after it is empty, and it holds data unless it is the first. */
  ghost predicate IsLastWithData(v: View, i: nat) {
    && (i < |v| || i == 0)
    && (forall j :: i < j < |v| ==> v[j].off == 0)
    && (i > 0 ==> v[i].off > 0)
  }

  /** A list whose last chain points at `end`. */
  ghost predicate LinkedTo(cs: seq<Chain>, end: Chain?)
    reads cs
  {
    && (forall i {:trigger cs[i].next} :: 0 <= i < |cs| - 1 ==> cs[i].next == cs[i + 1])
    && (cs != [] ==> cs[|cs| - 1].next == end)
  }

  lemma PicturesSingle(c: Chain)
    requires c.next == null && c.Val().Ok()
    ensures Pictures(c, [c], [c.Val()])
  {
  }

  lemma LinkedToNothing(end: Chain?)
    ensures LinkedTo([], end)
  {
  }

  /** Point the last chain of a list somewhere else. */
  method SetLast(ghost cs: seq<Chain>, ghost v: View, c: Chain, end: Chain)
    requires Distinct(cs) && Mirrors(cs, v) && Linked(cs) && cs != [] && c == cs[|cs| - 1]
    modifies c`next
    ensures Mirrors(cs, v) && LinkedTo(cs, end)
  {
    c.next := end;
  }

  lemma DistinctReplace(cs: seq<Chain>, tmp: Chain, k: nat)
    requires Distinct(cs) && k < |cs| && forall c :: c in cs ==> c != tmp && c.buffer != tmp.buffer
    ensures Distinct(cs[k := tmp])
  {
  }

  lemma MirrorsReplace(cs: seq<Chain>, v: View, tmp: Chain, k: nat)
    requires Mirrors(cs, v) && k < |cs| && tmp.Val().Ok()
    ensures Mirrors(cs[k := tmp], v[k := tmp.Val()])
  {
  }

  /** Link a chain into the place of the k-th. */
  method Relink(ghost cs: seq<Chain>, ghost v: View, prev: Chain?, c: Chain, tmp: Chain, ghost k: nat)
    requires Linked(cs) && Distinct(cs) && Mirrors(cs, v) && k < |cs| && c == cs[k] && tmp !in cs
    requires prev == if k > 0 then cs[k - 1] else null
    modifies tmp, if prev == null then {} else {prev}
    ensures Linked(cs[k := tmp]) && Mirrors(cs, v) && tmp.Val() == old(tmp.Val())
  {
    tmp.next := c.next;
    if prev != null {
      prev.next := tmp;
    }
  }

  lemma PicturesJoin(first: Chain?, cs: seq<Chain>, v: View, mid: Chain?, ds: seq<Chain>, w: View)
    requires Distinct(cs) && Mirrors(cs, v) && LinkedTo(cs, mid) && first == (if cs == [] then mid else cs[0])
    requires Pictures(mid, ds, w)
    requires forall c, d :: c in cs && d in ds ==> c != d && c.buffer != d.buffer
    ensures Pictures(first, cs + ds, v + w)
  {
    LinkedJoin(cs, mid, ds);
  }

  lemma LinkedJoin(cs: seq<Chain>, mid: Chain?, ds: seq<Chain>)
    requires LinkedTo(cs, mid) && Linked(ds) && mid == (if ds == [] then null else ds[0])
    ensures Linked(cs + ds)
  {
  }

  /** What every operation on one buffer keeps. */
  twostate predicate Kept(buf: Evbuffer)
    reads buf
  {
    && fresh(buf.repr - old(buf.repr))
    && buf.freezeStart == old(buf.freezeStart)
    && buf.freezeEnd == old(buf.freezeEnd)
  }

  class Evbuffer {
    var first: Chain?
    var last: Chain?
    var lastWithDatap: Link
    var totalLen: nat
    var freezeStart: bool
    var freezeEnd: bool

    ghost var chains: seq<Chain>
    ghost var view: View
    ghost var lwd: nat
    ghost var repr: set<object>

    ghost predicate Rep()
      reads this, repr
    {
      && this !in repr
      && (forall c :: c in chains ==> c in repr && c.buffer in repr)
      && Pictures(first, chains, view)
    }

    ghost predicate Valid()
      reads this, repr
    {
      && Rep()
      && last == (if chains == [] then null else chains[|chains| - 1])
      && IsLastWithData(view, lwd)
      && lastWithDatap == LinkAt(chains, lwd)
      && totalLen == |Flat(view)|
    }

    ghost function Contents(): seq<byte>
      reads this
    {
      Flat(view)
    }

    constructor ()
      ensures Valid() && fresh(repr) && Contents() == [] && chains == []
      ensures !freezeStart && !freezeEnd
    {
      first, last, lastWithDatap, totalLen := null, null, HeadLink, 0;
      freezeStart, freezeEnd := false, false;
      chains, view, lwd, repr := [], [], 0, {};
    }

    /** ZERO_CHAIN */
    method ZeroChain()
      modifies this
      ensures Valid() && repr == {} && Contents() == []
      ensures freezeStart == old(freezeStart) && freezeEnd == old(freezeEnd)
    {
      first, last, lastWithDatap, totalLen := null, null, HeadLink, 0;
      chains, view, lwd, repr := [], [], 0, {};
    }

    /** *ch */
    function Deref(ch: Link): (c: Chain?)
      reads this, if ch.NextOf? then {ch.chain} else {}
    {
      match ch
      case HeadLink => first
      case NextOf(p) => p.next
    }

    lemma DerefAt(k: nat)
      requires Rep() && k <= |chains|
      ensures Deref(LinkAt(chains, k)) == if k < |chains| then chains[k] else null
    {
    }

    lemma ContentsLen()
      requires Valid()
      ensures |Contents()| == totalLen
    {
    }

    /** What `last` and `last_with_datap` name. */
    lemma LwdAt()
      requires Valid()
      ensures |view| == |chains| && lwd <= |chains| && (chains != [] ==> lwd < |chains|)
      ensures Deref(lastWithDatap) == (if lwd < |chains| then chains[lwd] else null)
      ensures lastWithDatap == LinkAt(chains, lwd) && IsLastWithData(view, lwd)
      ensures last == (if chains == [] then null else chains[|chains| - 1])
      ensures this !in repr && forall c :: c in chains ==> c in repr && c.buffer in repr
    {
      hide Pictures, Flat;
      InRepr();
      DerefAt(lwd);
    }

    lemma DerefValid(k: nat)
      requires Valid() && k <= |chains|
      ensures Deref(LinkAt(chains, k)) == if k < |chains| then chains[k] else null
    {
      hide Pictures, Flat;
      DerefAt(k);
    }

    /** The k-th chain of a valid buffer. */
    lemma ValidAt(k: nat)
      requires Valid()
      ensures |view| == |chains|
      ensures k < |chains| ==>
        var c := chains[k];
        && c in repr && c.buffer in repr && c.Val() == view[k]
        && c.next == (if k + 1 < |chains| then chains[k + 1] else null)
    {
      hide Pictures, Flat;
      InRepr();
      RepAt(k);
    }

    lemma InRepr()
      requires Rep()
      ensures |view| == |chains| && first == (if chains == [] then null else chains[0])
      ensures forall c | c in chains :: c in repr && c.buffer in repr
    {
    }

    lemma DistinctAt(i: nat, j: nat)
      requires Rep() && i < |chains| && j < |chains|
      ensures chains[i] == chains[j] <==> i == j
    {
    }

    lemma RepAt(k: nat)
      requires Rep()
      ensures |view| == |chains|
      ensures k < |chains| ==>
        var c := chains[k];
        && c in repr && c.buffer in repr
        && c.off == view[k].off && c.misalign == view[k].misalign && c.immutable == view[k].immutable
        && c.buffer[..] == view[k].mem
        && c.next == (if k + 1 < |chains| then chains[k + 1] else null)
    {
    }

    method Truncate(ch: Link, ghost k: nat)
      requires Rep() && k <= |chains| && ch == LinkAt(chains, k)
      modifies this`first, this`chains, this`view, chains`next
      ensures Rep() && chains == old(chains[..k]) && view == old(view[..k])
    {
      if ch.HeadLink? {
        first := null;
      } else {
        ch.chain.next := null;
      }
      chains, view := chains[..k], view[..k];
    }

    method SetExtent(c: Chain, misalign: nat, off: nat, ghost k: nat)
      requires Rep() && k < |chains| && chains[k] == c
      requires view[k].(misalign := misalign, off := off).Ok()
      modifies this`view, c`misalign, c`off
      ensures c.misalign == misalign && c.off == off
      ensures Rep() && view == old(view[k := view[k].(misalign := misalign, off := off)])
    {
      c.misalign, c.off := misalign, off;
      view := view[k := view[k].(misalign := misalign, off := off)];
    }

    /** Hang a whole list behind the last chain. */
    method Splice(ch: Link, c: Chain, ghost cs: seq<Chain>, ghost v: View, ghost owned: set<object>)
      requires Rep() && ch == LinkAt(chains, |chains|)
      requires Pictures(c, cs, v) && this !in owned && owned !! repr
      requires forall d :: d in cs ==> d in owned && d.buffer in owned
      modifies this`first, this`chains, this`view, this`repr, chains`next
      ensures Rep() && chains == old(chains) + cs && view == old(view) + v
      ensures repr == old(repr) + owned
    {
      hide Distinct, Mirrors, Linked, LinkedTo;
      if ch.HeadLink? {
        first := c;
        assert chains == [];
        LinkedToNothing(c);
      } else {
        assert ch.chain in repr && ch.chain !in cs;
        SetLast(chains, view, ch.chain, c);
      }
      PicturesJoin(first, chains, view, c, cs, v);
      chains, view := chains + cs, view + v;
      repr := repr + owned;
    }

    /** Hang one chain behind the last. */
    method Attach(ch: Link, c: Chain)
      requires Rep() && ch == LinkAt(chains, |chains|)
      requires c !in repr && c.buffer !in repr && c.Val().Ok() && c.next == null
      modifies this`first, this`chains, this`view, this`repr, chains`next
      ensures Rep() && chains == old(chains) + [c] && view == old(view) + [old(c.Val())]
      ensures repr == old(repr) + {c, c.buffer}
    {
      hide Pictures;
      PicturesSingle(c);
      Splice(ch, c, [c], [c.Val()], {c, c.buffer});
    }

    /** Put a new chain in the place of the k-th. */
    method Replace(ch: Link, c: Chain, tmp: Chain, ghost k: nat)
      requires Rep() && k < |chains| && c == chains[k] && ch == LinkAt(chains, k)
      requires tmp !in repr && tmp.buffer !in repr && tmp.Val().Ok()
      modifies this`first, this`chains, this`view, this`repr, tmp, chains
      ensures Rep() && chains == old(chains[k := tmp]) && view == old(view[k := tmp.Val()])
      ensures repr == old(repr) + {tmp, tmp.buffer}
    {
      hide Distinct, Mirrors, Linked;
      DistinctReplace(chains, tmp, k);
      if ch.HeadLink? {
        first := tmp;
      }
      Relink(chains, view, if ch.NextOf? then ch.chain else null, c, tmp, k);
      MirrorsReplace(chains, view, tmp, k);
      chains, view := chains[k := tmp], view[k := tmp.Val()];
      repr := repr + {tmp, tmp.buffer};
    }

    /** Let the list start at its k-th chain. */
    method DropFront(c: Chain, ghost k: nat)
      requires Rep() && k < |chains| && c == chains[k]
      modifies this`first, this`chains, this`view
      ensures Rep() && chains == old(chains[k..]) && view == old(view[k..])
    {
      hide Pictures;
      InRepr();
      PicturesDrop(first, chains, view, k);
      first := c;
      chains, view := chains[k..], view[k..];
    }

    /** Make `c` the first chain. */
    method PushFront(c: Chain)
      requires Rep() && c !in repr && c.buffer !in repr && c.Val().Ok()
      modifies this`first, this`chains, this`view, this`repr, c`next
      ensures Rep() && chains == [c] + old(chains) && view == [old(c.Val())] + old(view)
      ensures repr == old(repr) + {c, c.buffer}
    {
      hide Pictures;
      c.next := first;
      PicturesCons(c, first, chains, view);
      first := c;
      chains, view := [c] + chains, [c.Val()] + view;
      repr := repr + {c, c.buffer};
    }

    /** Copy bytes into the memory of the k-th chain. */
    method Write(mem: array<byte>, at: nat, data: seq<byte>, ghost k: nat)
      requires Rep() && k < |chains| && chains[k].buffer == mem && !chains[k].immutable
      requires at + |data| <= mem.Length
      modifies this`view, mem
      ensures Rep() && view == old(view[k := view[k].Written(at, data)])
    {
      hide Linked;
      Copy(mem, at, data);
      view := view[k := view[k].Written(at, data)];
    }

    /** Copy bytes into the memory of the k-th chain and set the extent of its data. */
    method Store(c: Chain, at: nat, data: seq<byte>, misalign: nat, off: nat, ghost k: nat)
      requires Rep() && k < |chains| && chains[k] == c && !c.immutable
      requires at + |data| <= c.buffer.Length && misalign + off <= c.buffer.Length
      modifies this`view, c`misalign, c`off, c.buffer
      ensures c.misalign == misalign && c.off == off
      ensures Rep() && view == old(view[k := view[k].Written(at, data).(misalign := misalign, off := off)])
    {
      hide Pictures;
      RepAt(k);
      ghost var v: View, w: ChainVal := view, view[k].Written(at, data);
      Write(c.buffer, at, data, k);
      RepAt(k);
      SetExtent(c, misalign, off, k);
      assert view == v[k := w][k := w.(misalign := misalign, off := off)];
    }
  }

  /** struct evbuffer_ptr */
  datatype Ptr = Ptr(pos: int, chain: Chain?, posInChain: nat)

  /** An `evbuffer_ptr` to a byte of the k-th chain (or its end), or to the end of the buffer. */
  ghost predicate PtrAt(buf: Evbuffer, p: Ptr, k: nat)
    reads buf
  {
    && |buf.view| == |buf.chains|
    && k <= |buf.chains|
    && p.pos == |Flat(buf.view[..k])| + p.posInChain <= |Flat(buf.view)|
    && (if k < |buf.chains| then p.chain == buf.chains[k] && p.posInChain <= buf.view[k].off
        else p.chain == null && p.posInChain == 0)
  }

  /** The bytes a pointer sees in its chain, and the pointer at the start of the next one. */
  lemma PtrChain(buf: Evbuffer, p: Ptr, k: nat, n: nat)
    requires buf.Valid() && PtrAt(buf, p, k) && k < |buf.chains| && p.posInChain + n <= buf.view[k].off
    ensures p.pos + n <= buf.totalLen
    ensures var c := buf.chains[k];
      && c.off == buf.view[k].off && c.misalign + c.off <= c.buffer.Length
      && c.buffer[c.misalign + p.posInChain..c.misalign + p.posInChain + n] == buf.Contents()[p.pos..p.pos + n]
      && PtrAt(buf, Ptr(p.pos + c.off - p.posInChain, c.next, 0), k + 1)
      && (n < c.off - p.posInChain ==> PtrAt(buf, Ptr(p.pos + n, c, p.posInChain + n), k))
  {
    hide Flat;
    buf.RepAt(k);
    ChunkAt(buf.view, k, p.posInChain, p.posInChain + n);
    ChunkAt(buf.view, k, 0, buf.view[k].off);
  }

  /** A pointer with bytes left after it is inside some chain. */
  lemma PtrNotAtEnd(buf: Evbuffer, p: Ptr, k: nat)
    requires buf.Valid() && PtrAt(buf, p, k)
    ensures k <= |buf.chains| == |buf.view| && 0 <= p.pos <= buf.totalLen
    ensures k == |buf.chains| <==> p.chain == null
    ensures k == |buf.chains| ==> p.pos == buf.totalLen
    ensures k < |buf.chains| ==>
      p.chain == buf.chains[k] && p.chain.off == buf.view[k].off && p.posInChain <= p.chain.off
  {
    if k == |buf.chains| {
      assert buf.view[..k] == buf.view;
    } else {
      buf.RepAt(k);
    }
  }

  ghost function FirstLen(buf: Evbuffer): nat
    reads buf, buf.first
  {
    if buf.first == null then 0 else buf.first.off
  }

  /** The first chain holds the first bytes. */
  lemma FirstBytes(buf: Evbuffer)
    requires buf.Valid()
    ensures buf.totalLen > 0 ==> buf.first != null
    ensures buf.first != null ==>
      var c := buf.first;
      && buf.chains != [] && c == buf.chains[0] && |buf.view| == |buf.chains|
      && c.misalign + c.off <= c.buffer.Length && CanAllocate(c.buffer.Length)
      && (c.immutable ==> c.misalign + c.off == c.buffer.Length)
      && c.off == buf.view[0].off && c.off <= buf.totalLen && (c.off < buf.totalLen ==> buf.lwd > 0)
      && c.buffer[c.misalign..c.misalign + c.off] == buf.Contents()[..c.off] == Flat(buf.view[..1])
      && c.next == (if |buf.chains| > 1 then buf.chains[1] else null)
  {
    if buf.chains != [] {
      buf.RepAt(0);
      FlatNil();
      ChunkAt(buf.view, 0, 0, buf.view[0].off);
      FlatSingle(buf.view[0]);
      assert buf.view[..1] == [buf.view[0]];
      if buf.lwd == 0 {
        FlatCutEmpty(buf.view, 1);
      }
    }
  }

  lemma FirstPrefix(buf: Evbuffer, n: nat)
    requires buf.Valid() && buf.first != null && n <= buf.first.off
    ensures var c := buf.first;
      && c.misalign + n <= c.buffer.Length && CanAllocate(c.buffer.Length) && n <= |buf.Contents()|
      && c.buffer[c.misalign..c.misalign + n] == buf.Contents()[..n]
  {
    FirstBytes(buf);
    buf.ContentsLen();
    hide Pictures, Flat, Evbuffer.Valid;
    var c := buf.first;
    assert c.buffer[c.misalign..c.misalign + n] == c.buffer[c.misalign..c.misalign + c.off][..n];
  }

  /** evbuffer_ptr at the front. */
  method StartPtr(buf: Evbuffer) returns (p: Ptr)
    requires buf.Valid()
    ensures p.pos == 0 && PtrAt(buf, p, 0)
  {
    p := Ptr(0, buf.first, 0);
  }

  /** Two buffers that share no memory. */
  ghost predicate Apart(a: Evbuffer, b: Evbuffer)
    reads a, b
  {
    a != b && a.repr !! b.repr && a !in b.repr && b !in a.repr
  }

  /** The two buffers of a move stay apart, and neither reaches memory that was foreign to both. */
  twostate predicate KeptBoth(a: Evbuffer, b: Evbuffer)
    reads a, b
  {
    && Apart(a, b)
    && fresh(a.repr + b.repr - old(a.repr) - old(b.repr))
    && a.freezeStart == old(a.freezeStart) && a.freezeEnd == old(a.freezeEnd)
    && b.freezeStart == old(b.freezeStart) && b.freezeEnd == old(b.freezeEnd)
  }
}
