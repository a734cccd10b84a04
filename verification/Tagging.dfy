/** The wire format of tagged streams: tags, integers and records as bytes, and what is read back from bytes. */
module Tagging {
  import opened Common

  // ---- Integers, four bits at a time, the least significant first

  function Nibbles(n: nat): (ns: seq<nat>)
    ensures forall i :: 0 <= i < |ns| ==> ns[i] < 16
  {
    if n == 0 then [] else [n % 16] + Nibbles(n / 16)
  }

  function FromNibbles(ns: seq<nat>): nat {
    if ns == [] then 0 else ns[0] + 16 * FromNibbles(ns[1..])
  }

  function Pow16(k: nat): (p: nat)
    ensures p > 0
  {
    if k == 0 then 1 else 16 * Pow16(k - 1)
  }

  lemma {:induction false} NibblesValue(n: nat)
    ensures FromNibbles(Nibbles(n)) == n
  {
    if n > 0 {
      NibblesValue(n / 16);
      assert Nibbles(n)[1..] == Nibbles(n / 16);
    }
  }

  lemma {:induction false} NibblesLength(n: nat, k: nat)
    requires n < Pow16(k)
    ensures |Nibbles(n)| <= k
  {
    if n > 0 && k > 0 {
      NibblesLength(n / 16, k - 1);
    }
  }

  /** The nibbles that are sent: zero is one nibble. */
  function Sent(n: nat): (ns: seq<nat>)
    ensures ns != [] && forall i :: 0 <= i < |ns| ==> ns[i] < 16
  {
    if n == 0 then [0] else Nibbles(n)
  }

  function Nib(ns: seq<nat>, i: nat): nat {
    if i < |ns| then ns[i] else 0
  }

  /** Byte k of an integer.  The high half of the first byte is the number of nibbles less one; after that the
      nibbles follow, each byte's low half before the next byte's high half. */
  function IntByte(ns: seq<nat>, k: nat): byte
    requires 1 <= |ns| <= 16 && forall i :: 0 <= i < |ns| ==> ns[i] < 16
  {
    ((if k == 0 then |ns| - 1 else Nib(ns, 2 * k - 1)) * 16 + Nib(ns, 2 * k)) as byte
  }

  function IntBytes(ns: seq<nat>): (b: seq<byte>)
    requires 1 <= |ns| <= 16 && forall i :: 0 <= i < |ns| ==> ns[i] < 16
    ensures |b| == |ns| / 2 + 1
  {
    seq(|ns| / 2 + 1, k requires 0 <= k < |ns| / 2 + 1 => IntByte(ns, k))
  }

  /** The bytes of an integer of at most `max` nibbles. */
  function EncodeInt(n: nat): seq<byte>
    requires |Sent(n)| <= 16
  {
    IntBytes(Sent(n))
  }

  /** Nibble i of the bytes. */
  function NibbleAt(c: seq<byte>, i: nat): (x: nat)
    requires (i + 1) / 2 < |c|
    ensures x < 16
  {
    var b := c[(i + 1) / 2] as nat;
    if i % 2 == 0 then b % 16 else b / 16
  }

  /** The nibbles from i up to `count` as a number. */
  function NumberFrom(c: seq<byte>, i: nat, count: nat): nat
    requires i <= count && count / 2 < |c|
    decreases count - i
  {
    if i == count then 0 else NibbleAt(c, i) + 16 * NumberFrom(c, i + 1, count)
  }

  datatype IntResult = NoInt | SomeInt(n: nat, size: nat)

  /** What `decode_int_internal` reads at the start of the bytes. */
  function DecodeInt(c: seq<byte>, max: nat): IntResult {
    if c == [] then NoInt
    else
      var count := c[0] as nat / 16 + 1;
      if count > max || count / 2 + 1 > |c| then NoInt else SomeInt(NumberFrom(c, 0, count), count / 2 + 1)
  }

  lemma {:induction false} NumberIs(c: seq<byte>, ns: seq<nat>, i: nat)
    requires i <= |ns| && |ns| / 2 < |c| && forall k :: 0 <= k < |ns| ==> NibbleAt(c, k) == ns[k]
    ensures NumberFrom(c, i, |ns|) == FromNibbles(ns[i..])
    decreases |ns| - i
  {
    if i < |ns| {
      NumberIs(c, ns, i + 1);
      assert ns[i..][0] == ns[i] && ns[i..][1..] == ns[i + 1..];
    }
  }

  lemma SentValue(n: nat, max: nat)
    requires (max == 8 || max == 16) && n < Pow16(max)
    ensures |Sent(n)| <= max && FromNibbles(Sent(n)) == n
  {
    NibblesLength(n, max);
    NibblesValue(n);
  }

  /** What follows the bytes of the nibbles does not change what they say. */
  lemma BytesRead(ns: seq<nat>, rest: seq<byte>)
    requires 1 <= |ns| <= 16 && forall i :: 0 <= i < |ns| ==> ns[i] < 16
    ensures var c := IntBytes(ns) + rest;
      c[0] as nat / 16 == |ns| - 1 && forall i :: 0 <= i < |ns| ==> NibbleAt(c, i) == ns[i]
  {
    hide IntByte;
    var c := IntBytes(ns) + rest;
    FirstByte(ns);
    forall i | 0 <= i < |ns| ensures NibbleAt(c, i) == ns[i] {
      NibbleOf(ns, i);
    }
  }

  lemma FirstByte(ns: seq<nat>)
    requires 1 <= |ns| <= 16 && forall i :: 0 <= i < |ns| ==> ns[i] < 16
    ensures IntByte(ns, 0) as nat / 16 == |ns| - 1
  {
  }

  /** Every integer is read back, whatever follows it. */
  lemma IntRoundTrip(n: nat, max: nat, rest: seq<byte>)
    requires max == 8 || max == 16
    requires n < Pow16(max)
    ensures |Sent(n)| <= max
    ensures DecodeInt(EncodeInt(n) + rest, max) == SomeInt(n, |EncodeInt(n)|)
  {
    hide Sent, IntBytes, Pow16, NibbleAt, FromNibbles;
    SentValue(n, max);
    var ns := Sent(n);
    var c := EncodeInt(n) + rest;
    BytesRead(ns, rest);
    NumberIs(c, ns, 0);
    assert ns[0..] == ns;
  }

  lemma NibbleOf(ns: seq<nat>, i: nat)
    requires 1 <= |ns| <= 16 && (forall i :: 0 <= i < |ns| ==> ns[i] < 16) && i < |ns|
    ensures var b := IntByte(ns, (i + 1) / 2) as nat; ns[i] == if i % 2 == 0 then b % 16 else b / 16
  {
    var k := (i + 1) / 2;
    if i % 2 == 0 {
      assert 2 * k == i;
    } else {
      assert 2 * k - 1 == i && k > 0;
    }
  }

  lemma {:induction false} NumberBelow(c: seq<byte>, i: nat, count: nat)
    requires i <= count && count / 2 < |c|
    ensures NumberFrom(c, i, count) < Pow16(count - i)
    decreases count - i
  {
    if i < count {
      NumberBelow(c, i + 1, count);
    }
  }

  /** No bytes that say an integer are fewer than those that are sent for it, and a half byte that is not needed is
      zero. */
  lemma ShortestInt(c: seq<byte>, max: nat)
    requires max == 8 || max == 16
    ensures var d := DecodeInt(c, max);
      d.SomeInt? ==> |Sent(d.n)| <= max && |EncodeInt(d.n)| <= d.size <= |c|
    ensures var d := DecodeInt(c, max);
      d.SomeInt? && |Sent(d.n)| % 2 == 0 ==> EncodeInt(d.n)[|EncodeInt(d.n)| - 1] as nat % 16 == 0
  {
    var d := DecodeInt(c, max);
    if d.SomeInt? {
      var count := c[0] as nat / 16 + 1;
      NumberBelow(c, 0, count);
      NibblesLength(d.n, count);
      PadIsZero(Sent(d.n));
    }
  }

  lemma DivideTwice(n: nat, a: nat, p: nat)
    requires a > 0 && p > 0
    ensures a * p > 0 && n / a / p == n / (a * p)
  {
    var h := n / a;
    var q, y, x := h / p, h % p, n % a;
    assert h == p * q + y && n == a * h + x;
    Spread(a, p, q, y);
    Bounded(a, y, p);
    QuotientIs(n, a * p, q, a * y + x);
  }

  lemma Spread(a: nat, p: nat, q: nat, y: nat)
    ensures a * (p * q + y) == a * p * q + a * y
  {
  }

  lemma Bounded(a: nat, y: nat, p: nat)
    requires y < p
    ensures a * y + a <= a * p
  {
    assert a * (y + 1) <= a * p;
  }

  lemma QuotientIs(n: nat, d: nat, q: nat, r: nat)
    requires d > 0 && n == d * q + r && r < d
    ensures n / d == q
  {
    if n / d < q {
      Bounded(d, n / d, q);
    } else if n / d > q {
      Bounded(d, q, n / d);
    }
  }

  lemma {:induction false} NibblesAre(n: nat, i: nat)
    requires i < |Nibbles(n)|
    ensures Nibbles(n)[i] == n / Pow16(i) % 16
  {
    if i > 0 {
      NibblesAre(n / 16, i - 1);
      DivideTwice(n, 16, Pow16(i - 1));
    }
  }

  lemma {:induction false} NibblesNeeded(n: nat)
    ensures n < Pow16(|Nibbles(n)|) && (n > 0 ==> Nibbles(n) != [] && n >= Pow16(|Nibbles(n)| - 1))
  {
    if n > 0 { NibblesNeeded(n / 16); }
  }

  /** The bytes of an integer: first the number of its hexadecimal digits less one, then its digits. */
  ghost predicate SaysInt(b: seq<byte>, n: nat) {
    && b != [] && |b| == (b[0] as nat / 16 + 1) / 2 + 1
    && (b[0] as nat / 16 > 0 ==> n >= Pow16(b[0] as nat / 16)) && DigitsAt(b, n, b[0] as nat / 16 + 1)
  }

  /** So many hexadecimal digits, from the last to the first, behind the first half byte; each byte's low half comes
      before the next byte's high half. */
  ghost predicate DigitsAt(b: seq<byte>, n: nat, count: nat) {
    && count / 2 < |b| && n < Pow16(count)
    && forall i :: 0 <= i < count ==>
         n / Pow16(i) % 16 == if i % 2 == 0 then b[(i + 1) / 2] as nat % 16 else b[(i + 1) / 2] as nat / 16
  }

  lemma IntWire(n: nat)
    requires |Sent(n)| <= 16
    ensures SaysInt(EncodeInt(n), n)
  {
    hide IntByte, Pow16;
    var ns, b := Sent(n), EncodeInt(n);
    FirstByte(ns);
    NibblesNeeded(n);
    assert n == 0 ==> Pow16(1) == 16 * Pow16(0) == 16 by { PowersOf16(); }
    forall i | 0 <= i < |ns|
      ensures n / Pow16(i) % 16 == if i % 2 == 0 then b[(i + 1) / 2] as nat % 16 else b[(i + 1) / 2] as nat / 16
    {
      NibbleOf(ns, i);
      if n > 0 { NibblesAre(n, i); }
    }
  }

  lemma PowersOf16()
    ensures Pow16(1) == 16 * Pow16(0) == 16
  {
  }

  lemma PadIsZero(ns: seq<nat>)
    requires 1 <= |ns| <= 16 && forall i :: 0 <= i < |ns| ==> ns[i] < 16
    ensures |ns| % 2 == 0 ==> IntBytes(ns)[|ns| / 2] as nat % 16 == 0
  {
  }

  /** What is read from any bytes: exactly when there is an integer, and which. */
  lemma DecodedInt(c: seq<byte>, max: nat)
    ensures var d := DecodeInt(c, max);
      && (d.SomeInt? <==> c != [] && c[0] as nat / 16 < max && (c[0] as nat / 16 + 1) / 2 < |c|)
      && (d.SomeInt? ==> d.size == (c[0] as nat / 16 + 1) / 2 + 1 && DigitsAt(c, d.n, c[0] as nat / 16 + 1))
  {
    var d := DecodeInt(c, max);
    if d.SomeInt? {
      var count := c[0] as nat / 16 + 1;
      NumberBelow(c, 0, count);
      forall i | 0 <= i < count ensures d.n / Pow16(i) % 16 == NibbleAt(c, i) {
        DigitOf(c, 0, i, count);
      }
    }
  }

  lemma {:induction false} DigitOf(c: seq<byte>, j: nat, i: nat, count: nat)
    requires j <= i < count && count / 2 < |c|
    ensures NumberFrom(c, j, count) / Pow16(i - j) % 16 == NibbleAt(c, i)
    decreases i - j
  {
    hide Pow16, NibbleAt;
    PowersOf16();
    if j < i {
      DigitOf(c, j + 1, i, count);
      Power16Up(i - j - 1);
      HigherDigits(NibbleAt(c, j), NumberFrom(c, j + 1, count), Pow16(i - j - 1));
    }
  }

  lemma Power16Up(k: nat)
    ensures Pow16(k + 1) == 16 * Pow16(k)
  {
  }

  lemma HigherDigits(x: nat, rest: nat, p: nat)
    requires x < 16 && p > 0
    ensures (x + 16 * rest) / (16 * p) == rest / p
  {
    DivideTwice(x + 16 * rest, 16, p);
  }

  // ---- Tags, seven bits at a time, the least significant first

  function EncodeTag(t: nat): (b: seq<byte>)
    ensures b != []
  {
    if t < 128 then [t as byte] else [(t % 128 + 128) as byte] + EncodeTag(t / 128)
  }

  datatype TagResult = NoTag | SomeTag(tag: nat, size: nat)

  /** What `decode_tag_internal` reads, when `k` bytes have been read before: at most 32 bits. */
  function TagFrom(c: seq<byte>, k: nat): TagResult
    decreases |c|
  {
    if c == [] then NoTag
    else if k > 4 || (k == 4 && c[0] % 128 > 15) then NoTag
    else if c[0] < 128 then SomeTag(c[0] as nat, 1)
    else match TagFrom(c[1..], k + 1)
      case NoTag => NoTag
      case SomeTag(t, size) => SomeTag(c[0] as nat % 128 + 128 * t, size + 1)
  }

  function Pow128(k: nat): (p: nat)
    ensures p > 0
  {
    if k == 0 then 1 else 128 * Pow128(k - 1)
  }

  lemma {:induction false} TagReadsBack(t: nat, k: nat, rest: seq<byte>)
    requires k <= 4 && t < 16 * Pow128(4 - k)
    ensures TagFrom(EncodeTag(t) + rest, k) == SomeTag(t, |EncodeTag(t)|)
    decreases t
  {
    var c := EncodeTag(t) + rest;
    if t < 128 {
      assert k == 4 ==> Pow128(0) == 1;
    } else {
      assert k < 4 by { assert Pow128(0) == 1; }
      TagReadsBack(t / 128, k + 1, rest);
      assert c[1..] == EncodeTag(t / 128) + rest;
    }
  }

  /** Every 32-bit tag is read back, whatever follows it. */
  lemma TagRoundTrip(t: nat, rest: seq<byte>)
    requires t < 0x1_0000_0000
    ensures TagFrom(EncodeTag(t) + rest, 0) == SomeTag(t, |EncodeTag(t)|)
  {
    assert Pow128(4) == 128 * Pow128(3) && Pow128(3) == 128 * Pow128(2);
    assert Pow128(2) == 128 * Pow128(1) && Pow128(1) == 128;
    TagReadsBack(t, 0, rest);
  }

  /** The tag ends with its first byte below 128. */
  ghost predicate TagEnds(c: seq<byte>, size: nat) {
    0 < size <= |c| && c[size - 1] < 128 && forall i :: 0 <= i < size - 1 ==> c[i] >= 128
  }

  ghost predicate TagDigits(c: seq<byte>, t: nat, size: nat) {
    size <= |c| && t < Pow128(size) && forall i :: 0 <= i < size ==> t / Pow128(i) % 128 == c[i] as nat % 128
  }

  /** What is read from any bytes: exactly when there is a tag, and which. */
  lemma DecodedTag(c: seq<byte>)
    ensures TagFrom(c, 0).SomeTag? <==>
      exists size :: TagEnds(c, size) && size <= 5 && (size == 5 ==> c[4] as nat % 128 <= 15)
    ensures var d := TagFrom(c, 0); d.SomeTag? ==> TagEnds(c, d.size) && TagDigits(c, d.tag, d.size)
  {
    TagFound(c, 0);
    if size :| TagEnds(c, size) && size <= 5 && (size == 5 ==> c[4] as nat % 128 <= 15) {
      TagThere(c, 0, size);
    }
  }

  lemma {:induction false} TagFound(c: seq<byte>, k: nat)
    ensures var d := TagFrom(c, k);
      d.SomeTag? ==>
        && d.size + k <= 5 && TagEnds(c, d.size) && TagDigits(c, d.tag, d.size)
        && (d.size + k == 5 ==> c[d.size - 1] as nat % 128 <= 15)
    decreases |c|
  {
    if c != [] && TagFrom(c, k).SomeTag? {
      assert Pow128(1) == 128 * Pow128(0) == 128;
      if c[0] >= 128 {
        TagFound(c[1..], k + 1);
        DigitsMore(c, TagFrom(c[1..], k + 1).tag, TagFrom(c[1..], k + 1).size);
        assert forall i :: 0 <= i < |c| - 1 ==> c[1..][i] == c[i + 1];
      }
    }
  }

  lemma DigitsMore(c: seq<byte>, t: nat, size: nat)
    requires c != [] && TagDigits(c[1..], t, size)
    ensures TagDigits(c, c[0] as nat % 128 + 128 * t, size + 1)
  {
    hide Pow128;
    var u := c[0] as nat % 128 + 128 * t;
    PowerUp(size);
    PowerZero();
    forall i | 0 < i <= size ensures u / Pow128(i) % 128 == c[i] as nat % 128 {
      PowerUp(i - 1);
      DivideTwice(u, 128, Pow128(i - 1));
      assert u / 128 == t && c[1..][i - 1] == c[i];
    }
  }

  lemma {:induction false} TagThere(c: seq<byte>, k: nat, size: nat)
    requires TagEnds(c, size) && size + k <= 5 && (size + k == 5 ==> c[size - 1] as nat % 128 <= 15)
    ensures TagFrom(c, k).SomeTag?
    decreases |c|
  {
    if c[0] >= 128 {
      TagThere(c[1..], k + 1, size - 1);
    }
  }

  /** No bytes that say a tag are fewer than those that are sent for it. */
  lemma {:induction false} ShortestTag(c: seq<byte>, k: nat)
    ensures TagFrom(c, k).SomeTag? ==> |EncodeTag(TagFrom(c, k).tag)| <= TagFrom(c, k).size <= |c|
    decreases |c|
  {
    if c != [] {
      ShortestTag(c[1..], k + 1);
      if TagFrom(c, k).SomeTag? && c[0] >= 128 { TagUp(c[0] as nat % 128, TagFrom(c[1..], k + 1).tag); }
    }
  }

  lemma TagUp(x: nat, t: nat)
    requires x < 128
    ensures |EncodeTag(x + 128 * t)| <= 1 + |EncodeTag(t)|
  {
    assert (x + 128 * t) / 128 == t;
  }

  /** The bytes of a tag: its digits to the base 128 from the last to the first, and the top bit for all but the last
      byte. */
  ghost predicate SaysTag(b: seq<byte>, t: nat) {
    && b != [] && t < Pow128(|b|) && (|b| > 1 ==> t >= Pow128(|b| - 1))
    && forall i :: 0 <= i < |b| ==> b[i] as nat == t / Pow128(i) % 128 + if i < |b| - 1 then 128 else 0
  }

  lemma {:induction false} TagWire(t: nat)
    ensures SaysTag(EncodeTag(t), t)
  {
    var b := EncodeTag(t);
    if t < 128 {
      assert Pow128(1) == 128 * Pow128(0) == 128;
    } else {
      TagWire(t / 128);
      TagLonger(t, EncodeTag(t / 128));
    }
  }

  lemma TagLonger(t: nat, more: seq<byte>)
    requires t >= 128 && SaysTag(more, t / 128)
    ensures SaysTag([(t % 128 + 128) as byte] + more, t)
  {
    var b := [(t % 128 + 128) as byte] + more;
    hide Pow128;
    PowerUp(|more|);
    PowerUp(|more| - 1);
    assert t / Pow128(0) == t by { PowerZero(); }
    forall i | 0 < i < |b| ensures b[i] as nat == t / Pow128(i) % 128 + if i < |b| - 1 then 128 else 0 {
      assert b[i] == more[i - 1];
      PowerUp(i - 1);
      DivideTwice(t, 128, Pow128(i - 1));
    }
  }

  lemma PowerUp(k: nat)
    ensures Pow128(k + 1) == 128 * Pow128(k)
  {
  }

  lemma PowerZero()
    ensures Pow128(0) == 1
  {
  }

  // ---- Records

  datatype Record = Record(tag: nat, payload: seq<byte>)

  const MAX_TAG: nat := 0x1_0000_0000
  /** Lengths from here on are negative as an `int`. */
  const MAX_PAYLOAD: nat := 0x8000_0000

  /** What the 32 bits of tag and length can say. */
  predicate Sendable(r: Record) {
    r.tag < MAX_TAG && |r.payload| < MAX_TAG
  }

  lemma SendableInt(n: nat)
    requires n < MAX_TAG
    ensures n < Pow16(8) && |Sent(n)| <= 8
  {
    assert Pow16(8) == 16 * Pow16(7) && Pow16(7) == 16 * Pow16(6) && Pow16(6) == 16 * Pow16(5);
    assert Pow16(5) == 16 * Pow16(4) && Pow16(4) == 16 * Pow16(3) && Pow16(3) == 16 * Pow16(2);
    assert Pow16(2) == 16 * Pow16(1) && Pow16(1) == 16;
    NibblesLength(n, 8);
  }

  /** The bytes of a record. */
  function Marshalled(r: Record): seq<byte>
    requires Sendable(r)
  {
    SendableInt(|r.payload|);
    EncodeTag(r.tag) + EncodeInt(|r.payload|) + r.payload
  }

  /** A record's header; without one, how much of it has been taken from the bytes before that was noticed. */
  datatype Header = NoHeader(drained: nat) | SomeHeader(tag: nat, len: nat, size: nat)

  function HeaderOf(c: seq<byte>): Header {
    match TagFrom(c, 0)
    case NoTag => NoHeader(0)
    case SomeTag(tag, k) =>
      TagSize(c, 0);
      match DecodeInt(c[k..], 8)
      case NoInt => NoHeader(k)
      case SomeInt(n, m) => if |c| - k - m < n then NoHeader(k + m) else SomeHeader(tag, n, k + m)
  }

  lemma {:induction false} TagSize(c: seq<byte>, k: nat)
    ensures TagFrom(c, k).SomeTag? ==> 0 < TagFrom(c, k).size <= |c| && TagFrom(c, k).size + k <= 5
    decreases |c|
  {
    if c != [] { TagSize(c[1..], k + 1); }
  }

  /** The first record of the bytes and what follows it. */
  datatype Taken = Nothing | Taken(first: Record, rest: seq<byte>)

  function Unmarshalled(c: seq<byte>): (t: Taken)
    ensures t.Taken? ==> |t.rest| < |c|
  {
    match HeaderOf(c)
    case NoHeader(_) => Nothing
    case SomeHeader(tag, n, k) => HeaderSize(c); Taken(Record(tag, c[k..k + n]), c[k + n..])
  }

  lemma HeaderSize(c: seq<byte>)
    ensures var h := HeaderOf(c); if h.SomeHeader? then 0 < h.size && h.size + h.len <= |c| else h.drained <= |c|
  {
    TagSize(c, 0);
  }

  /** A record that was marshalled is the first one to be read, and what follows it stays. */
  lemma RecordRoundTrip(r: Record, rest: seq<byte>)
    requires Sendable(r)
    ensures HeaderOf(Marshalled(r) + rest) == SomeHeader(r.tag, |r.payload|, |Marshalled(r)| - |r.payload|)
    ensures Unmarshalled(Marshalled(r) + rest) == Taken(r, rest)
  {
    hide DecodeInt, EncodeInt, EncodeTag, TagFrom;
    SendableInt(|r.payload|);
    var t, i := EncodeTag(r.tag), EncodeInt(|r.payload|);
    var c := Marshalled(r) + rest;
    assert c == t + (i + (r.payload + rest));
    TagRoundTrip(r.tag, i + (r.payload + rest));
    assert c[|t|..] == i + (r.payload + rest);
    IntRoundTrip(|r.payload|, 8, r.payload + rest);
    var k := |t| + |i|;
    assert c[k..k + |r.payload|] == r.payload && c[k + |r.payload|..] == rest;
  }

  /** Records sent one after the other. */
  function Stream(rs: seq<Record>): seq<byte>
    requires forall i :: 0 <= i < |rs| ==> Sendable(rs[i])
  {
    if rs == [] then [] else Marshalled(rs[0]) + Stream(rs[1..])
  }

  /** Reading records for as long as there is one. */
  function ReadAll(c: seq<byte>): (seq<Record>, seq<byte>)
    decreases |c|
  {
    match Unmarshalled(c)
    case Nothing => ([], c)
    case Taken(r, rest) => ([r] + ReadAll(rest).0, ReadAll(rest).1)
  }

  /** A stream reads as its records, and nothing is left of it. */
  lemma {:induction false} StreamRoundTrip(rs: seq<Record>)
    requires forall i :: 0 <= i < |rs| ==> Sendable(rs[i])
    ensures ReadAll(Stream(rs)) == (rs, [])
    decreases |rs|
  {
    hide Unmarshalled, Marshalled;
    if rs == [] {
      EmptyStream();
    } else {
      RecordRoundTrip(rs[0], Stream(rs[1..]));
      StreamRoundTrip(rs[1..]);
      assert rs == [rs[0]] + rs[1..];
    }
  }

  lemma EmptyStream()
    ensures Unmarshalled([]) == Nothing
  {
  }

  // ---- Integers as payloads

  /** What `evtag_unmarshal_int` gives for bytes that start with a record of the wanted tag. */
  datatype IntTaken = NoIntTaken | IntTaken(n: nat, size: nat)

  function IntOf(c: seq<byte>, tag: nat, max: nat): IntTaken {
    HeaderSize(c);
    match HeaderOf(c)
    case NoHeader(_) => NoIntTaken
    case SomeHeader(t, len, k) =>
      if t != tag then NoIntTaken
      else match DecodeInt(c[k..], max)
        case NoInt => NoIntTaken
        case SomeInt(n, size) => if size > len then NoIntTaken else IntTaken(n, size)
  }

  /** The record for an integer. */
  function IntRecord(tag: nat, n: nat): Record
    requires |Sent(n)| <= 16
  {
    Record(tag, EncodeInt(n))
  }

  lemma IntRecordRoundTrip(tag: nat, n: nat, max: nat, rest: seq<byte>)
    requires tag < MAX_TAG && (max == 8 || max == 16) && n < Pow16(max)
    ensures |Sent(n)| <= 16 && Sendable(IntRecord(tag, n))
    ensures IntOf(Marshalled(IntRecord(tag, n)) + rest, tag, max) == IntTaken(n, |EncodeInt(n)|)
  {
    hide Marshalled, DecodeInt, EncodeInt, HeaderOf, Sent, Pow16, Unmarshalled;
    IntRoundTrip(n, max, rest);
    IntSize(n);
    var r := IntRecord(tag, n);
    RecordRoundTrip(r, rest);
    MarshalledEnds(r);
    EndAndRest(Marshalled(r), r.payload, rest);
  }

  lemma EndAndRest(a: seq<byte>, end: seq<byte>, rest: seq<byte>)
    requires |end| <= |a| && a[|a| - |end|..] == end
    ensures (a + rest)[|a| - |end|..] == end + rest
  {
  }

  lemma IntSize(n: nat)
    requires |Sent(n)| <= 16
    ensures |EncodeInt(n)| <= 9
  {
  }

  lemma MarshalledEnds(r: Record)
    requires Sendable(r)
    ensures |Marshalled(r)| >= |r.payload| && Marshalled(r)[|Marshalled(r)| - |r.payload|..] == r.payload
  {
  }
}
