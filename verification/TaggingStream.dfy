/** Whole streams of tagged records through an evbuffer. */
module TaggingStream {
  import opened Common
  import opened EvbufferChains
  import opened EvbufferCore
  import opened EvbufferDrain
  import opened Tagging
  import opened TaggingBuffer

  predicate AllSendable(rs: seq<Record>) {
    forall i :: 0 <= i < |rs| ==> Sendable(rs[i])
  }

  /** What taking records for as long as that succeeds gives, and what it leaves. */
  ghost function Received(c: seq<byte>): (seq<Record>, seq<byte>)
    decreases |c|
  {
    match Accepted(c)
    case Nothing => ([], c[HeaderSizeOf(c)..])
    case Taken(r, rest) => ([r] + Received(rest).0, Received(rest).1)
  }

  /** How many records come before the first one of 2^31 bytes or more. */
  function Small(rs: seq<Record>): (n: nat)
    ensures n <= |rs| && (forall i :: 0 <= i < n ==> |rs[i].payload| < MAX_PAYLOAD)
    ensures n == |rs| || |rs[n].payload| >= MAX_PAYLOAD
  {
    if rs == [] || |rs[0].payload| >= MAX_PAYLOAD then 0 else 1 + Small(rs[1..])
  }

  /** Of a stream exactly the records before the first long one are received. */
  lemma {:induction false} StreamReceived(rs: seq<Record>)
    requires AllSendable(rs)
    ensures Received(Stream(rs)).0 == rs[..Small(rs)]
    ensures Small(rs) == |rs| ==> Received(Stream(rs)).1 == []
    decreases |rs|
  {
    hide Unmarshalled, Marshalled, HeaderOf, Sendable;
    if rs == [] {
      EmptyStream();
    } else {
      RecordRoundTrip(rs[0], Stream(rs[1..]));
      StreamReceived(rs[1..]);
      if |rs[0].payload| < MAX_PAYLOAD { assert rs[..Small(rs)] == [rs[0]] + rs[1..][..Small(rs[1..])]; }
    }
  }

  lemma {:induction false} StreamPush(rs: seq<Record>, r: Record)
    requires AllSendable(rs) && Sendable(r)
    ensures AllSendable(rs + [r]) && Stream(rs + [r]) == Stream(rs) + Marshalled(r)
    decreases |rs|
  {
    hide Marshalled, Sendable;
    if rs == [] {
      assert [] + [r] == [r] && [r][1..] == [];
    } else {
      StreamPush(rs[1..], r);
      assert (rs + [r])[0] == rs[0] && (rs + [r])[1..] == rs[1..] + [r];
      assert Stream(rs + [r]) == Marshalled(rs[0]) + Stream(rs[1..] + [r]);
    }
  }

  lemma StreamPart(rs: seq<Record>, i: nat)
    requires AllSendable(rs) && i <= |rs|
    ensures AllSendable(rs[..i]) && |Stream(rs[..i])| <= |Stream(rs)|
    ensures i < |rs| ==> |Stream(rs[..i])| + |Marshalled(rs[i])| <= |Stream(rs)|
    decreases |rs| - i
  {
    hide Marshalled, Sendable, Stream;
    assert AllSendable(rs[..i]);
    if i == |rs| {
      assert rs[..i] == rs;
    } else {
      StreamPart(rs, i + 1);
      assert rs[..i + 1] == rs[..i] + [rs[i]];
      StreamPush(rs[..i], rs[i]);
    }
  }

  lemma MarshalledSize(r: Record)
    requires Sendable(r)
    ensures |r.payload| <= |Marshalled(r)|
  {
  }

  /** `evtag_marshal` for each record. */
  method WriteStream(buf: Evbuffer, rs: seq<Record>)
    requires buf.Valid() && !buf.freezeEnd && AllSendable(rs)
    requires buf.totalLen + |Stream(rs)| <= SIZE_MAX - 64
    modifies buf, buf.repr
    ensures buf.Valid() && Kept(buf) && buf.Contents() == old(buf.Contents()) + Stream(rs)
  {
    hide Pictures, Flat, Evbuffer.Valid, Evbuffer.Contents, Marshalled, Stream, Sendable;
    ghost var c := buf.Contents();
    buf.ContentsLen();
    NoneWritten(rs, c);
    var i := 0;
    while i < |rs|
      invariant i <= |rs| && buf.Valid() && Kept(buf) && AllSendable(rs[..i])
      invariant buf.Contents() == c + Stream(rs[..i])
    {
      buf.ContentsLen();
      StreamPart(rs, i);
      One(rs, i);
      MarshalledSize(rs[i]);
      Marshal(buf, rs[i]);
      assert rs[..i + 1] == rs[..i] + [rs[i]];
      StreamPush(rs[..i], rs[i]);
      assert c + Stream(rs[..i]) + Marshalled(rs[i]) == c + (Stream(rs[..i]) + Marshalled(rs[i]));
      i := i + 1;
    }
    assert rs[..i] == rs;
  }

  lemma NoneWritten(rs: seq<Record>, c: seq<byte>)
    ensures rs[..0] == [] && AllSendable([]) && c + Stream([]) == c
  {
  }

  lemma One(rs: seq<Record>, i: nat)
    requires AllSendable(rs) && i < |rs|
    ensures Sendable(rs[i])
  {
  }

  /** `evtag_unmarshal` into a new buffer, which is then read. */
  method TakeRecord(src: Evbuffer) returns (taken: bool, r: Record)
    requires src.Valid() && !src.freezeStart && src.totalLen <= SIZE_MAX - 64
    modifies src, src.repr
    ensures src.Valid() && Kept(src)
    ensures match old(Accepted(src.Contents()))
            case Nothing => !taken && src.Contents() == old(src.Contents())[HeaderSizeOf(old(src.Contents()))..]
            case Taken(first, rest) => taken && r == first && src.Contents() == rest
  {
    hide Pictures, Flat, Evbuffer.Valid, Evbuffer.Contents, Accepted, HeaderOf;
    var dst := new Evbuffer();
    dst.ContentsLen();
    var len, tag := Unmarshal(src, dst);
    if len == -1 {
      taken, r := false, Record(0, []);
    } else {
      dst.ContentsLen();
      var n, data := Copyout(dst, len);
      taken, r := true, Record(tag, data);
    }
  }

  /** Records for as long as there are bytes and they begin with one. */
  method ReadStream(src: Evbuffer) returns (rs: seq<Record>)
    requires src.Valid() && !src.freezeStart && src.totalLen <= SIZE_MAX - 64
    modifies src, src.repr
    ensures src.Valid() && Kept(src) && (rs, src.Contents()) == Received(old(src.Contents()))
  {
    hide Pictures, Flat, Evbuffer.Valid, Evbuffer.Contents, Accepted, HeaderSizeOf, Received;
    rs := [];
    ghost var c := src.Contents();
    src.ContentsLen();
    NoneRead(c);
    while src.totalLen > 0
      invariant src.Valid() && Kept(src) && |src.Contents()| == src.totalLen
      invariant src.totalLen <= old(src.totalLen) && Received(c) == After(rs, src.Contents())
      decreases src.totalLen
    {
      ReadOne(rs, src.Contents());
      var taken, r := TakeRecord(src);
      if !taken { return; }
      rs := rs + [r];
      src.ContentsLen();
    }
    ReadNone(rs);
  }

  /** Records that have been read and those in the bytes that are left. */
  ghost function After(rs: seq<Record>, c: seq<byte>): (seq<Record>, seq<byte>) {
    (rs + Received(c).0, Received(c).1)
  }

  lemma ReadOne(rs: seq<Record>, c: seq<byte>)
    ensures match Accepted(c)
            case Nothing => After(rs, c) == (rs, c[HeaderSizeOf(c)..])
            case Taken(first, rest) => |rest| < |c| && After(rs, c) == After(rs + [first], rest)
  {
    hide Accepted, HeaderSizeOf;
    match Accepted(c)
    case Nothing => assert rs + [] == rs;
    case Taken(first, rest) => assert rs + ([first] + Received(rest).0) == rs + [first] + Received(rest).0;
  }

  lemma NoneRead(c: seq<byte>)
    ensures After([], c) == Received(c)
  {
    assert [] + Received(c).0 == Received(c).0;
  }

  lemma ReadNone(rs: seq<Record>)
    ensures After(rs, []) == (rs, [])
  {
    EmptyStream();
    assert rs + [] == rs;
  }

  /** What is written to an empty buffer is read back up to the first record of 2^31 bytes or more: all of it, and
      nothing is left, if and only if there is none. */
  method Transfer(buf: Evbuffer, rs: seq<Record>) returns (back: seq<Record>)
    requires buf.Valid() && !buf.freezeStart && !buf.freezeEnd && buf.Contents() == []
    requires AllSendable(rs) && |Stream(rs)| <= SIZE_MAX - 64
    modifies buf, buf.repr
    ensures buf.Valid() && back == rs[..Small(rs)]
    ensures back == rs <==> forall i :: 0 <= i < |rs| ==> |rs[i].payload| < MAX_PAYLOAD
    ensures back == rs ==> buf.Contents() == []
  {
    hide Pictures, Flat, Evbuffer.Valid, Evbuffer.Contents, Stream, Received;
    buf.ContentsLen();
    StreamReceived(rs);
    WriteStream(buf, rs);
    assert [] + Stream(rs) == Stream(rs);
    buf.ContentsLen();
    back := ReadStream(buf);
    assert back == rs ==> Small(rs) == |rs|;
    assert Small(rs) == |rs| ==> rs[..Small(rs)] == rs;
  }
}
