/** Marshalling and unmarshalling tagged data in an evbuffer. */
module TaggingBuffer {
  import opened Common
  import opened EvbufferChains
  import opened EvbufferCore
  import opened EvbufferWrite
  import opened EvbufferDrain
  import opened EvbufferMove
  import opened EvbufferPullup
  import opened Tagging

  const INT_MAX: nat := 0x7fff_ffff

  // ---- Integers

  /** Byte k when the nibbles before `i` have been stored, and the first high half has not. */
  function StoredByte(ns: seq<nat>, i: nat, k: nat): int {
    (if k == 0 || 2 * k - 1 >= i then 0 else Nib(ns, 2 * k - 1)) * 16 + (if 2 * k >= i then 0 else Nib(ns, 2 * k))
  }

  ghost predicate Stored(data: seq<byte>, ns: seq<nat>, i: nat) {
    forall k :: 0 <= k < |data| ==> data[k] as int == StoredByte(ns, i, k)
  }

  /** Stores one nibble: in the low half of its byte if its number, counted from one, is odd. */
  method StoreNibble(data: array<byte>, off: nat, x: nat, ghost ns: seq<nat>)
    requires 1 <= off <= |ns| && ns[off - 1] == x < 16 && off / 2 < data.Length
    requires (forall i :: 0 <= i < |ns| ==> ns[i] < 16) && Stored(data[..], ns, off - 1)
    modifies data
    ensures Stored(data[..], ns, off)
  {
    var k := off / 2;
    assert data[k] as int == StoredByte(ns, off - 1, k);
    if off % 2 == 1 {
      data[k] := (data[k] as nat / 16 * 16 + x) as byte;
    } else {
      data[k] := (data[k] as nat % 16 + x * 16) as byte;
    }
    forall j | 0 <= j < data.Length ensures data[j] as int == StoredByte(ns, off, j) {
      if j != k {
        assert StoredByte(ns, off, j) == StoredByte(ns, off - 1, j);
      }
    }
  }

  /** `ENCODE_INT_INTERNAL`: the integer's bytes are the first ones of `data`. */
  method EncodeIntInternal(n: nat, max: nat) returns (data: array<byte>, len: nat)
    requires (max == 8 || max == 16) && n < Pow16(max)
    ensures fresh(data) && len <= data.Length == max / 2 + 1 && |Sent(n)| <= 16 && data[..len] == EncodeInt(n)
    ensures SaysInt(data[..len], n)
  {
    hide Stored, Nibbles, Sent, IntBytes, EncodeInt, Pow16, SaysInt;
    NibblesLength(n, max);
    ghost var ns := Nibbles(n);
    SentSize(n);
    IntWire(n);
    data := new byte[max / 2 + 1](i => 0);
    NothingStored(data[..], ns);
    var number, off := n, 1;
    while number > 0
      invariant 1 <= off <= |ns| + 1 && ns[off - 1..] == Nibbles(number)
      invariant Stored(data[..], ns, off - 1)
      decreases number
    {
      NextNibble(ns, off, number);
      StoreNibble(data, off, number % 16, ns);
      number := number / 16;
      off := off + 1;
    }
    assert off - 1 == |ns|;
    var nibbles := if off > 2 then off - 2 else 0;
    FirstByte(data[..], ns, n);
    data[0] := (data[0] as nat % 16 + nibbles * 16) as byte;
    len := (off + 1) / 2;
  }

  lemma SentSize(n: nat)
    ensures |Sent(n)| == if |Nibbles(n)| == 0 then 1 else |Nibbles(n)|
    ensures Nibbles(0) == []
  {
  }

  lemma NextNibble(ns: seq<nat>, off: nat, number: nat)
    requires 1 <= off <= |ns| + 1 && number > 0 && ns[off - 1..] == Nibbles(number)
    ensures off <= |ns| && ns[off - 1] == number % 16 && ns[off..] == Nibbles(number / 16)
  {
    assert ns[off - 1] == ns[off - 1..][0] && ns[off..] == ns[off - 1..][1..];
  }

  lemma NothingStored(data: seq<byte>, ns: seq<nat>)
    requires forall k :: 0 <= k < |data| ==> data[k] == 0
    ensures Stored(data, ns, 0)
  {
  }

  /** With the number of nibbles in the first byte the integer is complete. */
  lemma FirstByte(data: seq<byte>, ns: seq<nat>, n: nat)
    requires ns == Nibbles(n) && |ns| <= 16 && data != [] && |Sent(n)| / 2 < |data| && Stored(data, ns, |ns|)
    ensures var b := (data[0] as nat % 16 + (|Sent(n)| - 1) * 16) as byte;
      data[0 := b][..|Sent(n)| / 2 + 1] == EncodeInt(n)
  {
    var b := (data[0] as nat % 16 + (|Sent(n)| - 1) * 16) as byte;
    var all := data[0 := b][..|Sent(n)| / 2 + 1];
    forall k | 0 <= k < |all| ensures all[k] == IntByte(Sent(n), k) {
      assert data[k] as int == StoredByte(ns, |ns|, k);
    }
  }

  /** The first bytes of a buffer, made contiguous and read where they are. */
  method Look(buf: Evbuffer, n: nat) returns (data: seq<byte>)
    requires buf.Valid() && 0 < n <= buf.totalLen && CanAllocate(n)
    modifies buf, buf.repr
    ensures buf.Valid() && Kept(buf) && buf.Contents() == old(buf.Contents()) && buf.totalLen == |buf.Contents()|
    ensures n <= |buf.Contents()| && data == buf.Contents()[..n]
  {
    hide Pictures, Flat;
    var chain := Pullup(buf, n);
    buf.ContentsLen();
    data := chain.buffer[chain.misalign..chain.misalign + n];
  }

  /** `DECODE_INT_INTERNAL`, without draining: the integer at an offset and the length of its bytes, or -1. */
  method DecodeIntInternal(buf: Evbuffer, offset: nat, max: nat) returns (res: int, number: nat)
    requires buf.Valid() && offset <= 0x1_0000 && (max == 8 || max == 16)
    modifies buf, buf.repr
    ensures buf.Valid() && Kept(buf) && buf.Contents() == old(buf.Contents())
    ensures if offset > |buf.Contents()| || DecodeInt(buf.Contents()[offset..], max) == NoInt then res == -1
            else res >= 0 && DecodeInt(buf.Contents()[offset..], max) == SomeInt(number, res)
  {
    hide Pictures, Flat, Evbuffer.Valid;
    buf.ContentsLen();
    number := 0;
    if buf.totalLen <= offset { return -1, 0; }
    ghost var c := buf.Contents()[offset..];
    var data := Look(buf, offset + 1);
    assert data[offset] == c[0];
    var nibbles := data[offset] as nat / 16 + 1;
    if nibbles > max || nibbles / 2 + 1 > buf.totalLen - offset { return -1, 0; }
    res := nibbles / 2 + 1;
    ghost var count := nibbles;
    data := Look(buf, offset + res);
    assert data[offset..] == c[..res];
    number := ReadNibbles(data[offset..], nibbles);
    SameNumber(data[offset..], c, 0, count);
  }

  method ReadNibbles(data: seq<byte>, count: nat) returns (number: nat)
    requires count / 2 < |data|
    ensures number == NumberFrom(data, 0, count)
  {
    var nibbles: nat := count;
    number := 0;
    while nibbles > 0
      invariant nibbles <= count && number == NumberFrom(data, nibbles, count)
    {
      number := number * 16;
      if nibbles % 2 == 1 {
        number := number + data[nibbles / 2] as nat % 16;
      } else {
        number := number + data[nibbles / 2] as nat / 16;
      }
      nibbles := nibbles - 1;
    }
  }

  lemma {:induction false} SameNumber(a: seq<byte>, c: seq<byte>, i: nat, count: nat)
    requires i <= count && count / 2 < |a| <= |c| && a == c[..|a|]
    ensures NumberFrom(a, i, count) == NumberFrom(c, i, count)
    decreases count - i
  {
    if i < count {
      SameNumber(a, c, i + 1, count);
      assert a[(i + 1) / 2] == c[(i + 1) / 2];
    }
  }

  /** `evtag_encode_int` and `evtag_encode_int64`. */
  method EncodeIntTo(buf: Evbuffer, n: nat, max: nat)
    requires buf.Valid() && !buf.freezeEnd && buf.totalLen <= SIZE_MAX - 16
    requires (max == 8 || max == 16) && n < Pow16(max)
    modifies buf, buf.repr
    ensures buf.Valid() && Kept(buf) && |Sent(n)| <= 16 && buf.Contents() == old(buf.Contents()) + EncodeInt(n)
  {
    hide Pictures, Flat, Evbuffer.Valid, Pow16;
    var data, len := EncodeIntInternal(n, max);
    var ok := Add(buf, data[..len]);
  }

  /** `evtag_decode_int` and `evtag_decode_int64`. */
  method DecodeIntFrom(buf: Evbuffer, max: nat) returns (res: int, number: nat)
    requires buf.Valid() && !buf.freezeStart && (max == 8 || max == 16)
    modifies buf, buf.repr
    ensures buf.Valid() && Kept(buf)
    ensures var c, d := old(buf.Contents()), DecodeInt(old(buf.Contents()), max);
      if d.NoInt? then res == -1 && buf.Contents() == c
      else res == 0 && number == d.n && d.size <= |c| && buf.Contents() == c[d.size..]
  {
    hide Pictures, Flat, Evbuffer.Valid;
    ghost var c := buf.Contents();
    assert c[0..] == c;
    var size, n := DecodeIntInternal(buf, 0, max);
    if size == -1 { return -1, 0; }
    buf.ContentsLen();
    res, number := 0, n;
    var ok := Drain(buf, size);
  }

  // ---- Tags

  /** `evtag_encode_tag`; returns the number of bytes. */
  method EncodeTagTo(buf: Evbuffer, tag: nat) returns (bytes: nat)
    requires buf.Valid() && !buf.freezeEnd && buf.totalLen <= SIZE_MAX - 16 && tag < MAX_TAG
    modifies buf, buf.repr
    ensures buf.Valid() && Kept(buf) && bytes == |EncodeTag(tag)| <= 5
    ensures buf.Contents() == old(buf.Contents()) + EncodeTag(tag)
    ensures SaysTag(buf.Contents()[|old(buf.Contents())|..], tag)
  {
    hide Pictures, Flat, Evbuffer.Valid, SaysTag;
    TagWire(tag);
    TagRoundTrip(tag, []);
    TagSize(EncodeTag(tag) + [], 0);
    var data: seq<byte>;
    data := TagBytes(tag);
    bytes := |data|;
    var ok := Add(buf, data);
  }

  method TagBytes(tag: nat) returns (data: seq<byte>)
    ensures data == EncodeTag(tag)
  {
    data := [];
    var rest := tag;
    while true
      invariant EncodeTag(tag) == data + EncodeTag(rest)
      decreases rest
    {
      var lower := rest % 128;
      rest := rest / 128;
      if rest == 0 {
        data := data + [lower as byte];
        return;
      }
      data := data + [(lower + 128) as byte];
    }
  }

  /** `decode_tag_internal`: the tag and the number of its bytes, or -1. */
  method DecodeTagInternal(buf: Evbuffer, dodrain: bool) returns (res: int, tag: nat)
    requires buf.Valid() && (dodrain ==> !buf.freezeStart)
    modifies buf, buf.repr
    ensures buf.Valid() && Kept(buf)
    ensures var c, d := old(buf.Contents()), TagFrom(old(buf.Contents()), 0);
      if d.NoTag? then res == -1 && buf.Contents() == c
      else res == d.size && tag == d.tag && d.size <= |c| && buf.Contents() == if dodrain then c[d.size..] else c
  {
    hide Pictures, Flat, Evbuffer.Valid;
    ghost var c := buf.Contents();
    buf.ContentsLen();
    if buf.totalLen == 0 { return -1, 0; }
    var data := Look(buf, if buf.totalLen < 5 then buf.totalLen else 5);
    res, tag := ReadTag(data, c);
    TagSize(c, 0);
    if res == -1 { return -1, 0; }
    if dodrain {
      var ok := Drain(buf, res);
    }
  }

  /** What is read from the start is what has been read before `count` and what is read there. */
  ghost predicate ReadSoFar(c: seq<byte>, count: nat, tag: nat, factor: nat) {
    count <= |c| &&
    var d, e := TagFrom(c, 0), TagFrom(c[count..], count);
    if e.NoTag? then d.NoTag? else d == SomeTag(tag + factor * e.tag, count + e.size)
  }

  lemma ReadStarts(c: seq<byte>)
    ensures ReadSoFar(c, 0, 0, 1)
  {
    assert c[0..] == c;
  }

  /** A byte with the high bit set is a step. */
  lemma ReadOn(c: seq<byte>, count: nat, tag: nat, factor: nat)
    requires ReadSoFar(c, count, tag, factor) && count < |c| && count <= 4 && c[count] >= 128
    requires count == 4 ==> c[count] % 128 <= 15
    ensures ReadSoFar(c, count + 1, tag + c[count] as nat % 128 * factor, factor * 128)
  {
    var b := c[count..];
    assert b[0] == c[count] && b[1..] == c[count + 1..];
    var f := TagFrom(b[1..], count + 1);
    if f.SomeTag? {
      var x, t := b[0] as nat % 128, f.tag;
      assert factor * (x + 128 * t) == x * factor + factor * 128 * t;
    }
  }

  /** A byte without it ends the tag. */
  lemma ReadLast(c: seq<byte>, count: nat, tag: nat, factor: nat)
    requires ReadSoFar(c, count, tag, factor) && count < |c| && count <= 4 && c[count] < 128
    requires count == 4 ==> c[count] % 128 <= 15
    ensures TagFrom(c, 0) == SomeTag(tag + c[count] as nat % 128 * factor, count + 1)
  {
    hide TagFrom;
    LastByte(c, count);
    Swapped(c[count] as nat, factor);
  }

  lemma LastByte(c: seq<byte>, count: nat)
    requires count < |c| && count <= 4 && c[count] < 128 && (count == 4 ==> c[count] <= 15)
    ensures TagFrom(c[count..], count) == SomeTag(c[count] as nat, 1) && c[count] as nat % 128 == c[count] as nat
  {
  }

  lemma Swapped(x: nat, factor: nat)
    ensures x * factor == factor * x
  {
  }

  /** Too many bits or bytes, or too few bytes, are no tag. */
  lemma ReadFails(c: seq<byte>, count: nat, tag: nat, factor: nat)
    requires ReadSoFar(c, count, tag, factor)
    requires count == |c| || count > 4 || (count == 4 && c[count] % 128 > 15)
    ensures TagFrom(c, 0) == NoTag
  {
    var b := c[count..];
    assert b == [] || b[0] == c[count];
  }

  /** The loop over the tag's bytes; the message may be longer than what is looked at, but a sixth byte is too many
      anyway. */
  method ReadTag(data: seq<byte>, ghost c: seq<byte>) returns (res: int, tag: nat)
    requires data == c[..if |c| < 5 then |c| else 5]
    ensures var d := TagFrom(c, 0); if d.NoTag? then res == -1 else res == d.size && tag == d.tag
  {
    hide TagFrom, ReadSoFar;
    tag := 0;
    var count: nat, factor: nat := 0, 1;
    ReadStarts(c);
    while count < |data|
      invariant count <= |data| && ReadSoFar(c, count, tag, factor)
    {
      var lower := data[count];
      if count == 4 && lower % 128 > 15 { ReadFails(c, count, tag, factor); return -1, 0; }
      if lower >= 128 { ReadOn(c, count, tag, factor); } else { ReadLast(c, count, tag, factor); }
      tag := tag + lower as nat % 128 * factor;
      count := count + 1;
      factor := factor * 128;
      if lower < 128 { return count, tag; }
    }
    ReadFails(c, count, tag, factor);
    return -1, 0;
  }

  // ---- Records

  /** `evtag_marshal`. */
  method Marshal(buf: Evbuffer, r: Record)
    requires buf.Valid() && !buf.freezeEnd && Sendable(r) && buf.totalLen + |r.payload| <= SIZE_MAX - 64
    modifies buf, buf.repr
    ensures buf.Valid() && Kept(buf) && buf.Contents() == old(buf.Contents()) + Marshalled(r)
  {
    hide Pictures, Flat, Evbuffer.Valid, Pow16, EncodeTag, EncodeInt;
    SendableInt(|r.payload|);
    IntSize(|r.payload|);
    ghost var c := buf.Contents();
    buf.ContentsLen();
    var k := EncodeTagTo(buf, r.tag);
    buf.ContentsLen();
    EncodeIntTo(buf, |r.payload|, 8);
    buf.ContentsLen();
    var ok := Add(buf, r.payload);
    assert c + EncodeTag(r.tag) + EncodeInt(|r.payload|) + r.payload == c + Marshalled(r);
  }

  /** `evtag_marshal_buffer`: the payload is the whole of another buffer, whose chains are taken over.  Of its length
      only 32 bits are sent. */
  method MarshalBuffer(buf: Evbuffer, tag: nat, data: Evbuffer)
    requires buf.Valid() && data.Valid() && buf != data && Apart(buf, data) && !buf.freezeEnd && !data.freezeStart
    requires tag < MAX_TAG && buf.totalLen + data.totalLen <= SIZE_MAX - 64
    modifies buf, data, buf.repr
    ensures buf.Valid() && data.Valid() && KeptBoth(buf, data) && data.Contents() == []
    ensures buf.Contents() == old(buf.Contents()) + BufferMarshalled(tag, old(data.Contents()))
  {
    hide Pictures, Flat, Evbuffer.Valid, Pow16, EncodeTag, EncodeInt;
    ghost var payload := data.Contents();
    data.ContentsLen();
    SendableInt(|payload| % MAX_TAG);
    IntSize(|payload| % MAX_TAG);
    ghost var c := buf.Contents();
    buf.ContentsLen();
    var k := EncodeTagTo(buf, tag);
    buf.ContentsLen();
    EncodeIntTo(buf, data.totalLen % MAX_TAG, 8);
    buf.ContentsLen();
    var ok := AddBuffer(buf, data);
    assert c + EncodeTag(tag) + EncodeInt(|payload| % MAX_TAG) + payload == c + BufferMarshalled(tag, payload);
  }

  /** What `evtag_marshal_buffer` sends. */
  function BufferMarshalled(tag: nat, payload: seq<byte>): seq<byte>
    requires tag < MAX_TAG
  {
    SendableInt(|payload| % MAX_TAG);
    EncodeTag(tag) + EncodeInt(|payload| % MAX_TAG) + payload
  }

  /** It is the record when the length has 32 bits.  Otherwise it reads as a record of the first bytes, whatever
      follows. */
  lemma BufferRoundTrip(tag: nat, payload: seq<byte>, rest: seq<byte>)
    requires tag < MAX_TAG
    ensures |payload| < MAX_TAG ==> BufferMarshalled(tag, payload) == Marshalled(Record(tag, payload))
    ensures var n := |payload| % MAX_TAG;
      Unmarshalled(BufferMarshalled(tag, payload) + rest) == Taken(Record(tag, payload[..n]), payload[n..] + rest)
    ensures Unmarshalled(BufferMarshalled(tag, payload) + rest) == Taken(Record(tag, payload), rest) <==>
            |payload| < MAX_TAG
  {
    hide EncodeTag, EncodeInt, Unmarshalled;
    var n := |payload| % MAX_TAG;
    var r := Record(tag, payload[..n]);
    assert payload == payload[..n] + payload[n..];
    assert BufferMarshalled(tag, payload) + rest == Marshalled(r) + (payload[n..] + rest);
    RecordRoundTrip(r, payload[n..] + rest);
  }

  lemma DropDrop(c: seq<byte>, k: nat, m: nat)
    requires k + m <= |c|
    ensures c[k..][m..] == c[k + m..]
  {
  }

  lemma DropTake(c: seq<byte>, k: nat, m: nat)
    requires k + m <= |c|
    ensures c[k..][..m] == c[k..k + m]
  {
  }

  /** An unsigned 32-bit length as an `int`. */
  function Signed(n: nat): int {
    if n < MAX_PAYLOAD then n else n - MAX_TAG
  }

  /** A length comes back from the two conversions as it was exactly when it is below 2^31. */
  lemma LengthExact(n: nat)
    requires n < MAX_TAG
    ensures Unsigned(Signed(n)) == n <==> n < MAX_PAYLOAD
    ensures Signed(n) == -1 <==> n == MAX_TAG - 1
    ensures -(MAX_PAYLOAD as int) <= Signed(n)
  {
  }

  /** The header by its two parts. */
  lemma HeaderIs(c: seq<byte>)
    ensures var t := TagFrom(c, 0);
      if t.NoTag? then HeaderOf(c) == NoHeader(0)
      else
        && t.size <= |c|
        && var k, d := t.size, DecodeInt(c[t.size..], 8);
        if d.NoInt? then HeaderOf(c) == NoHeader(k)
        else HeaderOf(c) == if |c| - k - d.size < d.n then NoHeader(k + d.size) else SomeHeader(t.tag, d.n, k + d.size)
  {
    hide DecodeInt, TagFrom;
    TagSize(c, 0);
  }

  /** `evtag_unmarshal_header`: takes the header off and gives the length of the payload, or -1; a length of 2^31 or
      more is negative. */
  method UnmarshalHeader(buf: Evbuffer) returns (len: int, tag: nat)
    requires buf.Valid() && !buf.freezeStart
    modifies buf, buf.repr
    ensures buf.Valid() && fresh(buf.repr - old(buf.repr))
    ensures buf.freezeStart == old(buf.freezeStart) && buf.freezeEnd == old(buf.freezeEnd)
    ensures var c, h := old(buf.Contents()), HeaderOf(old(buf.Contents()));
      if h.NoHeader? then len == -1 && h.drained <= |c| && buf.Contents() == c[h.drained..]
      else len == Signed(h.len) && tag == h.tag && h.size + h.len <= |c| && buf.Contents() == c[h.size..]
  {
    hide Pictures, Flat, Evbuffer.Valid, Evbuffer.Contents, DecodeInt, TagFrom, HeaderOf, Signed;
    ghost var c := buf.Contents();
    HeaderIs(c);
    buf.ContentsLen();
    var k, t := DecodeTagInternal(buf, true);
    if k == -1 { return -1, 0; }
    tag := t;
    var res, n := DecodeIntFrom(buf, 8);
    if res == -1 { return -1, tag; }
    buf.ContentsLen();
    DropDrop(c, k, DecodeInt(c[k..], 8).size);
    if buf.totalLen < n { return -1, tag; }
    len := Signed(n);
  }

  /** `evtag_consume`: drops the first record when its length is below 2^31; a longer one is taken for an error or for
      a size that no buffer has. */
  method Consume(buf: Evbuffer) returns (res: int)
    requires buf.Valid() && !buf.freezeStart
    modifies buf, buf.repr
    ensures buf.Valid() && fresh(buf.repr - old(buf.repr))
    ensures buf.freezeStart == old(buf.freezeStart) && buf.freezeEnd == old(buf.freezeEnd)
    ensures var c, h := old(buf.Contents()), HeaderOf(old(buf.Contents()));
      if h.NoHeader? then res == -1 && h.drained <= |c| && buf.Contents() == c[h.drained..]
      else
        && h.size + h.len <= |c| && h.len < MAX_TAG
        && if Signed(h.len) == -1 then res == -1 && buf.Contents() == c[h.size..]
           else res == 0 && buf.Contents() == c[h.size..][Min(Unsigned(Signed(h.len)), |c| - h.size)..]
    ensures var c, h := old(buf.Contents()), HeaderOf(old(buf.Contents()));
      h.SomeHeader? && h.len < MAX_PAYLOAD ==>
        res == 0 && h.size + h.len <= |c| && buf.Contents() == c[h.size + h.len..]
  {
    hide Pictures, Flat, Evbuffer.Valid, Evbuffer.Contents, HeaderOf, DecodeInt, TagFrom;
    ghost var c := buf.Contents();
    HeaderLength(c);
    var len, tag := UnmarshalHeader(buf);
    if len == -1 { return -1; }
    ghost var k := HeaderOf(c).size;
    DropPayload(buf, Unsigned(len), c[k..]);
    if Unsigned(len) <= |c| - k { DropDrop(c, k, Unsigned(len)); }
    res := 0;
  }

  lemma HeaderLength(c: seq<byte>)
    ensures HeaderOf(c).SomeHeader? ==> HeaderOf(c).len < MAX_TAG
  {
    hide DecodeInt;
    if HeaderOf(c).SomeHeader? {
      DecodedBound(c[TagFrom(c, 0).size..], 8);
      EightNibbles();
    }
  }

  lemma EightNibbles()
    ensures Pow16(8) == MAX_TAG
  {
    assert Pow16(8) == 16 * Pow16(7) && Pow16(7) == 16 * Pow16(6) && Pow16(6) == 16 * Pow16(5);
    assert Pow16(5) == 16 * Pow16(4) && Pow16(4) == 16 * Pow16(3) && Pow16(3) == 16 * Pow16(2);
    assert Pow16(2) == 16 * Pow16(1) && Pow16(1) == 16;
  }

  lemma DecodedBound(c: seq<byte>, max: nat)
    ensures DecodeInt(c, max).SomeInt? ==> DecodeInt(c, max).n < Pow16(max)
  {
    var d := DecodeInt(c, max);
    if d.SomeInt? {
      NumberBelow(c, 0, c[0] as nat / 16 + 1);
      PowGrows(c[0] as nat / 16 + 1, max);
    }
  }

  lemma {:induction false} PowGrows(k: nat, n: nat)
    requires k <= n
    ensures Pow16(k) <= Pow16(n)
    decreases n
  {
    if k < n { PowGrows(k, n - 1); }
  }

  method DropPayload(buf: Evbuffer, len: nat, ghost c: seq<byte>)
    requires buf.Valid() && !buf.freezeStart && buf.Contents() == c
    modifies buf, buf.repr
    ensures buf.Valid() && buf.Contents() == c[Min(len, |c|)..]
    ensures fresh(buf.repr - old(buf.repr)) && buf.freezeStart == old(buf.freezeStart)
    ensures buf.freezeEnd == old(buf.freezeEnd)
  {
    hide Pictures, Flat, Evbuffer.Valid, Evbuffer.Contents;
    buf.ContentsLen();
    var ok := Drain(buf, len);
  }

  /** What `evtag_unmarshal` gives: the first record, unless its length is negative as an `int`. */
  ghost function Accepted(c: seq<byte>): (t: Taken)
    ensures t.Taken? ==> |t.rest| < |c| && |t.first.payload| < MAX_PAYLOAD
  {
    match Unmarshalled(c)
    case Nothing => Nothing
    case Taken(first, rest) => if |first.payload| < MAX_PAYLOAD then Taken(first, rest) else Nothing
  }

  /** `evtag_unmarshal`: the first record's payload goes to another buffer.  A length of 2^31 or more is an error, but
      only after the header is gone: as a size it is more than can be allocated. */
  method Unmarshal(src: Evbuffer, dst: Evbuffer) returns (len: int, tag: nat)
    requires src.Valid() && dst.Valid() && src != dst && Apart(src, dst) && !src.freezeStart && !dst.freezeEnd
    requires Accepted(src.Contents()).Taken? ==> src.totalLen + dst.totalLen <= SIZE_MAX - 64
    modifies src, src.repr, dst, dst.repr
    ensures src.Valid() && dst.Valid() && KeptBoth(src, dst)
    ensures var c, t := old(src.Contents()), Accepted(old(src.Contents()));
      if t.Nothing? then
        len == -1 && src.Contents() == c[HeaderSizeOf(c)..] && dst.Contents() == old(dst.Contents())
      else
        len == |t.first.payload| && tag == t.first.tag && src.Contents() == t.rest
        && dst.Contents() == old(dst.Contents()) + t.first.payload
  {
    hide Pictures, Flat, Evbuffer.Valid, Evbuffer.Contents, HeaderOf;
    ghost var c := src.Contents();
    src.ContentsLen();
    HeaderSize(c);
    HeaderLength(c);
    len, tag := UnmarshalHeader(src);
    if len == -1 { return; }
    ghost var k := HeaderOf(c).size;
    src.ContentsLen();
    if Unsigned(len) > CHAIN_MAX {
      // more than any chain holds, so evbuffer_add fails
      var mem := Pullup(src, len);
      return -1, tag;
    }
    var data := [];
    if len > 0 { data := Look(src, len); }
    DropDrop(c, k, len);
    DropTake(c, k, len);
    dst.ContentsLen();
    var ok := Add(dst, data);
    var drained := Drain(src, len);
  }

  /** The size of the first record's header, or of what is taken of one that is not whole. */
  function HeaderSizeOf(c: seq<byte>): (n: nat)
    ensures n <= |c|
  {
    HeaderSize(c);
    match HeaderOf(c)
    case NoHeader(drained) => drained
    case SomeHeader(_, _, size) => size
  }

  /** A record of 2^31 bytes, and one byte more. */
  method TooLong() returns (buf: Evbuffer)
    ensures fresh(buf) && fresh(buf.repr) && buf.Valid() && !buf.freezeStart && !buf.freezeEnd
    ensures |LongRecord().payload| == MAX_PAYLOAD && buf.Contents() == Marshalled(LongRecord()) + [7]
    ensures buf.totalLen <= SIZE_MAX - 64
  {
    hide Pictures, Flat, Evbuffer.Valid, Evbuffer.Contents, Marshalled, LongRecord;
    LongRecordIs();
    buf := NewWith(LongRecord());
    buf.ContentsLen();
    var ok := Add(buf, [7]);
    buf.ContentsLen();
  }

  method NewWith(r: Record) returns (buf: Evbuffer)
    requires Sendable(r)
    ensures fresh(buf) && fresh(buf.repr) && buf.Valid() && !buf.freezeStart && !buf.freezeEnd
    ensures buf.Contents() == Marshalled(r)
  {
    hide Pictures, Flat, Evbuffer.Valid, Evbuffer.Contents, Marshalled;
    buf := new Evbuffer();
    buf.ContentsLen();
    Marshal(buf, r);
    assert [] + Marshalled(r) == Marshalled(r);
  }

  function LongRecord(): (r: Record)
    ensures Sendable(r)
  {
    Record(1, seq(MAX_PAYLOAD, _ => 0))
  }

  lemma ShortTag()
    ensures |EncodeTag(1)| == 1
  {
  }

  lemma LongRecordIs()
    ensures |LongRecord().payload| == MAX_PAYLOAD && |Marshalled(LongRecord())| <= MAX_PAYLOAD + 16
    ensures var c := Marshalled(LongRecord()) + [7];
      && Unmarshalled(c) == Taken(LongRecord(), [7]) && HeaderOf(c).SomeHeader? && HeaderOf(c).len == MAX_PAYLOAD
      && HeaderOf(c).size + MAX_PAYLOAD + 1 == |c|
  {
    hide EncodeTag, EncodeInt, Unmarshalled, HeaderOf;
    var r := LongRecord();
    RecordRoundTrip(r, [7]);
    SendableInt(|r.payload|);
    IntSize(|r.payload|);
    ShortTag();
  }

  /** `evtag_consume` drops the byte behind such a record, too. */
  method ConsumeTooMuch() returns (res: int, left: nat)
    ensures res == 0 && left == 0
  {
    hide Pictures, Flat, Evbuffer.Valid, Evbuffer.Contents, Marshalled, LongRecord, HeaderOf;
    LongRecordIs();
    var buf := TooLong();
    res := Consume(buf);
    buf.ContentsLen();
    left := buf.totalLen;
  }

  /** `evtag_unmarshal` does not give it, and takes its header off. */
  method UnmarshalRefused() returns (len: int, left: nat)
    ensures len == -1 && left == MAX_PAYLOAD + 1
  {
    hide Pictures, Flat, Evbuffer.Valid, Evbuffer.Contents, Marshalled, LongRecord, HeaderOf;
    LongRecordIs();
    var buf := TooLong();
    var dst := new Evbuffer();
    dst.ContentsLen();
    var tag;
    len, tag := Unmarshal(buf, dst);
    buf.ContentsLen();
    left := buf.totalLen;
  }

  /** The payload's length and the size of the header, whether the payload is there or not. */
  ghost function Peeked(c: seq<byte>): IntResult {
    match TagFrom(c, 0)
    case NoTag => NoInt
    case SomeTag(_, k) =>
      TagSize(c, 0);
      match DecodeInt(c[k..], 8)
      case NoInt => NoInt
      case SomeInt(n, size) => SomeInt(n, k + size)
  }

  /** `evtag_peek_length`: the length of the first record with its header, without taking anything. */
  method PeekLength(buf: Evbuffer) returns (res: int, length: nat)
    requires buf.Valid()
    modifies buf, buf.repr
    ensures buf.Valid() && Kept(buf) && buf.Contents() == old(buf.Contents())
    ensures match Peeked(buf.Contents())
            case NoInt => res == -1
            case SomeInt(n, size) => res == 0 && length == (n + size) % 0x1_0000_0000
    ensures HeaderOf(buf.Contents()).SomeHeader? ==>
      res == 0 && length == (HeaderOf(buf.Contents()).size + HeaderOf(buf.Contents()).len) % 0x1_0000_0000
  {
    hide Pictures, Flat, Evbuffer.Valid, DecodeInt, TagFrom;
    ghost var c := buf.Contents();
    HeaderSize(c);
    buf.ContentsLen();
    TagSize(c, 0);
    var len, tag := DecodeTagInternal(buf, false);
    if len == -1 { return -1, 0; }
    var size, n := DecodeIntInternal(buf, len, 8);
    if size == -1 { return -1, 0; }
    res := 0;
    length := (n + size + len) % 0x1_0000_0000;
  }

  /** `evtag_marshal_int` and `evtag_marshal_int64`. */
  method MarshalInt(buf: Evbuffer, tag: nat, n: nat, max: nat)
    requires buf.Valid() && !buf.freezeEnd && buf.totalLen <= SIZE_MAX - 128
    requires tag < MAX_TAG && (max == 8 || max == 16) && n < Pow16(max)
    modifies buf, buf.repr
    ensures buf.Valid() && Kept(buf) && |Sent(n)| <= 16 && Sendable(IntRecord(tag, n))
    ensures buf.Contents() == old(buf.Contents()) + Marshalled(IntRecord(tag, n))
  {
    hide Pictures, Flat, Evbuffer.Valid, Pow16;
    var data, len := EncodeIntInternal(n, max);
    IntSize(n);
    Marshal(buf, Record(tag, data[..len]));
  }

  /** How many bytes go when an integer with the wanted tag is asked for: the record, or what was read of its header. */
  function IntDrained(c: seq<byte>, needTag: nat): (n: nat)
    ensures n <= |c|
  {
    TagSize(c, 0);
    HeaderSize(c);
    match TagFrom(c, 0)
    case NoTag => 0
    case SomeTag(tag, k) =>
      if tag != needTag then k
      else match HeaderOf(c)
        case NoHeader(drained) => drained
        case SomeHeader(_, len, size) => size + len
  }

  /** The header of such a record is taken off; -1 when there is none or its tag is another. */
  method IntHeader(buf: Evbuffer, needTag: nat) returns (len: int)
    requires buf.Valid() && !buf.freezeStart
    modifies buf, buf.repr
    ensures buf.Valid() && fresh(buf.repr - old(buf.repr))
    ensures buf.freezeStart == old(buf.freezeStart) && buf.freezeEnd == old(buf.freezeEnd)
    ensures var c, h := old(buf.Contents()), HeaderOf(old(buf.Contents()));
      if h.SomeHeader? && h.tag == needTag then len == h.len && h.size + h.len <= |c| && buf.Contents() == c[h.size..]
      else len == -1 && buf.Contents() == c[IntDrained(c, needTag)..]
  {
    hide Pictures, Flat, Evbuffer.Valid, Evbuffer.Contents, DecodeInt, TagFrom;
    ghost var c := buf.Contents();
    HeaderSize(c);
    buf.ContentsLen();
    var k, tag := DecodeTagInternal(buf, true);
    if k == -1 { return -1; }
    if needTag != tag { return -1; }
    var res, n := DecodeIntFrom(buf, 8);
    if res == -1 { return -1; }
    buf.ContentsLen();
    ghost var m := DecodeInt(c[k..], 8).size;
    DropDrop(c, k, m);
    if buf.totalLen < n { return -1; }
    len := n;
  }

  /** `evtag_unmarshal_int` and `evtag_unmarshal_int64`: an integer from a record with the wanted tag. */
  method UnmarshalInt(buf: Evbuffer, needTag: nat, max: nat) returns (result: int, n: nat)
    requires buf.Valid() && !buf.freezeStart && (max == 8 || max == 16)
    modifies buf, buf.repr
    ensures buf.Valid() && fresh(buf.repr - old(buf.repr))
    ensures buf.freezeStart == old(buf.freezeStart) && buf.freezeEnd == old(buf.freezeEnd)
    ensures var t := IntOf(old(buf.Contents()), needTag, max);
      if t.NoIntTaken? then result == -1 else result == t.size && n == t.n
    ensures buf.Contents() == old(buf.Contents())[IntDrained(old(buf.Contents()), needTag)..]
  {
    hide Pictures, Flat, Evbuffer.Valid, Evbuffer.Contents, DecodeInt, TagFrom, HeaderOf;
    ghost var c := buf.Contents();
    var len := IntHeader(buf, needTag);
    if len == -1 { return -1, 0; }
    buf.ContentsLen();
    HeaderTag(c);
    DropDrop(c, HeaderOf(c).size, len);
    result, n := TakeInt(buf, len, max);
  }

  lemma HeaderTag(c: seq<byte>)
    ensures HeaderOf(c).SomeHeader? ==> TagFrom(c, 0).SomeTag? && TagFrom(c, 0).tag == HeaderOf(c).tag
  {
  }

  /** The integer in a payload of this length, which is drained. */
  method TakeInt(buf: Evbuffer, len: nat, max: nat) returns (result: int, n: nat)
    requires buf.Valid() && !buf.freezeStart && len <= buf.totalLen && (max == 8 || max == 16)
    modifies buf, buf.repr
    ensures buf.Valid() && fresh(buf.repr - old(buf.repr))
    ensures buf.freezeStart == old(buf.freezeStart) && buf.freezeEnd == old(buf.freezeEnd)
    ensures len <= |old(buf.Contents())| && buf.Contents() == old(buf.Contents())[len..]
    ensures var d := DecodeInt(old(buf.Contents()), max);
      if d.NoInt? || d.size > len then result == -1 else result == d.size && n == d.n
  {
    hide Pictures, Flat, Evbuffer.Valid, DecodeInt;
    ghost var c := buf.Contents();
    buf.ContentsLen();
    assert c[0..] == c;
    result, n := DecodeIntInternal(buf, 0, max);
    buf.ContentsLen();
    var ok := Drain(buf, len);
    if result < 0 || result > len { return -1, n; }
  }
}
