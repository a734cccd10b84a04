/** Buffers in which reserving space goes wrong. */
module EvbufferRefusal {
  import opened EvbufferChains
  import opened EvbufferCore
  import opened EvbufferWrite
  import opened EvbufferReserve
  import opened EvbufferCommit
  import opened EvbufferExpand
  import opened EvbufferReadInto

  /** A chain as it comes from the allocator, with bytes at its start. */
  predicate Plain(c: ChainVal, size: nat, off: nat) {
    |c.mem| == size && c.misalign == 0 && c.off == off && !c.immutable
  }

  lemma Memories()
    ensures MemoryFor(966) == 976 && MemoryFor(976) == 976 && MemoryFor(1090) == 2000 && MemoryFor(990) == 2000
  {
    assert Doubled(1024, 1014) == 1024 && Doubled(1024, 1024) == 1024;
    assert Doubled(1024, 1138) == Doubled(2048, 1138) == 2048;
    assert Doubled(1024, 1038) == Doubled(2048, 1038) == 2048;
  }

  lemma LastIs(buf: Evbuffer)
    requires buf.Valid() && buf.view != []
    ensures buf.last != null && buf.last.immutable == buf.view[|buf.view| - 1].immutable
    ensures |buf.view| == |buf.chains|
  {
    hide Pictures, Flat;
    buf.InRepr();
    buf.RepAt(|buf.chains| - 1);
  }

  /** One chain with ten bytes to spare. */
  predicate First(v: View) {
    |v| == 1 && Plain(v[0], 976, 966)
  }

  predicate Second(v: View) {
    |v| == 2 && Plain(v[0], 976, 966) && Plain(v[1], 2000, 0)
  }

  predicate Third(v: View) {
    |v| == 3 && Plain(v[0], 976, 966) && Plain(v[1], 2000, 0) && Plain(v[2], 2000, 0)
  }

  lemma FirstRoom(v: View)
    requires First(v)
    ensures AllSettled(v) && FirstFree(v, 0) == 0 && Room(v, 0, 1) == 10
    ensures forall w: View :: Appended(v, w, 1090) ==> Second(w)
  {
    Memories();
    assert Room(v, 1, 0) == 0;
    forall w: View | Appended(v, w, 1090) ensures Second(w) {
      assert w[0] == w[..1][0];
    }
  }

  lemma SecondRoom(v: View)
    requires Second(v)
    ensures AllSettled(v) && FirstFree(v, 0) == 0 && Room(v, 0, 2) == 2010
    ensures forall w: View :: Appended(v, w, 990) ==> Third(w)
  {
    Memories();
    assert Room(v, 2, 0) == 0 && Room(v, 1, 1) == 2000;
    forall w: View | Appended(v, w, 990) ensures Third(w) {
      assert w[0] == w[..2][0] && w[1] == w[..2][1];
    }
  }

  lemma ThirdSkips(v: View)
    requires Third(v)
    ensures SkipsAhead(v, 0, 100)
  {
  }

  lemma FirstReady(buf: Evbuffer)
    requires buf.Valid() && buf.lwd == 0 && First(buf.view)
    ensures Appends(buf, 1100, 3) && Room(buf.view, FirstFree(buf.view, buf.lwd), |buf.view|) == 10
    ensures forall w: View :: Appended(buf.view, w, 1090) ==> Second(w)
  {
    hide Pictures, Flat, Evbuffer.Valid, AllSettled, Room, FirstFree, Appended, Second;
    LastIs(buf);
    FirstRoom(buf.view);
  }

  lemma SecondReady(buf: Evbuffer)
    requires buf.Valid() && buf.lwd == 0 && Second(buf.view)
    ensures Appends(buf, 3000, 3) && Room(buf.view, FirstFree(buf.view, buf.lwd), |buf.view|) == 2010
    ensures forall w: View :: Appended(buf.view, w, 990) ==> Third(w)
  {
    hide Pictures, Flat, Evbuffer.Valid, AllSettled, Room, FirstFree, Appended, Third;
    LastIs(buf);
    SecondRoom(buf.view);
  }

  /** Space for 100 bytes is reserved, and committing it is refused. */
  method ReserveRefused() returns (buf: Evbuffer, n: int, vecs: seq<Iovec>, ok: bool)
    ensures n == 1 && |vecs| == 1 && TotalLen(vecs) >= 100 && !ok
  {
    hide Pictures, Flat, Evbuffer.Valid, Appends, Appended, SkipsAhead, Room, AllSettled, CanCommit;
    hide First, Second, Third;
    hide FirstFree, FullUp;
    buf := Spare();
    FirstReady(buf);
    var n1, v1, d1 := ReserveSpace(buf, 1100, 3);
    SecondReady(buf);
    var n2, v2, d2 := ReserveSpace(buf, 3000, 3);
    ThirdSkips(buf.view);
    var dies;
    n, vecs, dies := ReserveSpace(buf, 100, 1);
    ok := CommitSpace(buf, vecs);
  }

  /** A buffer with 966 bytes. */
  method Spare() returns (buf: Evbuffer)
    ensures fresh(buf) && fresh(buf.repr) && buf.Valid() && !buf.freezeEnd && buf.lwd == 0 && First(buf.view)
  {
    hide Pictures, Flat, Evbuffer.Valid;
    Memories();
    buf := new Evbuffer();
    buf.ContentsLen();
    var ok := Add(buf, seq(966, _ => 0));
  }

  /** A buffer whose one chain is full to the last byte. */
  method Full() returns (buf: Evbuffer)
    ensures fresh(buf) && fresh(buf.repr) && buf.Valid() && !buf.freezeEnd && FullUp(buf)
  {
    hide Pictures, Flat, Evbuffer.Valid;
    Memories();
    buf := new Evbuffer();
    buf.ContentsLen();
    var added := Add(buf, seq(976, _ => 0));
    LastIs(buf);
  }

  /** Reserving nothing, or reading nothing, fails an assertion then. */
  method NothingDies() returns (reserving: bool, reading: bool)
    ensures reserving && reading
  {
    hide Pictures, Flat, Evbuffer.Valid, Room, FirstFree, FullUp;
    var buf := Full();
    var n, vecs;
    n, vecs, reserving := ReserveSpace(buf, 0, 2);
    buf := Full();
    var result;
    result, reading := Read(buf, 1, 0, []);
  }
}
