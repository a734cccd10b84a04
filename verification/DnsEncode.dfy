/** Writing DNS names into a message with compression through a shared label table. */
module DnsEncode {
  import opened Common
  import opened DnsNames

  const MAX_LABELS: nat := 128

  datatype Entry = Entry(name: seq<byte>, pos: nat)

  /** The bytes of labels without the terminator. */
  function Wire(ls: seq<Label>): seq<byte>
    requires GoodLabels(ls)
  {
    if ls == [] then [] else [|ls[0]| as byte] + ls[0] + Wire(ls[1..])
  }

  /** At `pos` the message holds the name. */
  ghost predicate Means(p: seq<byte>, pos: nat, name: seq<byte>) {
    exists h: nat :: Denotes(p, pos, h, Labels(name))
  }

  /** Every entry of the table leads to its name. */
  ghost predicate TableMeans(v: seq<Entry>, p: seq<byte>) {
    forall i :: 0 <= i < |v| ==> Means(p, v[i].pos, v[i].name)
  }

  /** The entry's name lies at its position, except that `ls` are still to be written at the end. */
  ghost predicate Pending(e: Entry, p: seq<byte>, ls: seq<Label>) {
    && e.pos <= |p|
    && exists done: seq<Label> ::
         GoodLabels(done) && Labels(e.name) == done + ls && p[e.pos..] == Wire(done)
  }

  // ---- What is written stays readable

  lemma {:induction false} DenotesGrows(p: seq<byte>, q: seq<byte>, pos: nat, h: nat, ls: seq<Label>)
    requires Denotes(p, pos, h, ls) && p <= q
    ensures Denotes(q, pos, h, ls) && End(q, pos) == End(p, pos) <= |p|
    decreases h, |ls|
  {
    assert p[pos] == q[pos];
    if p[pos] >= 64 {
      assert p[pos + 1] == q[pos + 1];
      DenotesGrows(p, q, Target(p[pos], p[pos + 1]), h - 1, ls);
    } else if p[pos] != 0 {
      var next := pos + 1 + |ls[0]|;
      assert q[pos + 1..next] == p[pos + 1..next];
      DenotesGrows(p, q, next, h, ls[1..]);
    }
  }

  lemma MeansGrows(p: seq<byte>, q: seq<byte>, pos: nat, name: seq<byte>)
    requires Means(p, pos, name) && p <= q
    ensures Means(q, pos, name) && End(q, pos) == End(p, pos) <= |p|
  {
    var h: nat :| Denotes(p, pos, h, Labels(name));
    DenotesGrows(p, q, pos, h, Labels(name));
  }

  lemma TableGrows(v: seq<Entry>, p: seq<byte>, q: seq<byte>)
    requires TableMeans(v, p) && p <= q
    ensures TableMeans(v, q)
  {
    forall i | 0 <= i < |v| ensures Means(q, v[i].pos, v[i].name) {
      MeansGrows(p, q, v[i].pos, v[i].name);
    }
  }

  lemma {:induction false} WirePush(done: seq<Label>, l: Label)
    requires GoodLabels(done) && GoodLabel(l)
    ensures GoodLabels(done + [l]) && Wire(done + [l]) == Wire(done) + [|l| as byte] + l
  {
    if done == [] {
      assert done + [l] == [l] && Wire([l]) == [|l| as byte] + l + Wire([]);
    } else {
      WirePush(done[1..], l);
      assert (done + [l])[1..] == done[1..] + [l];
    }
  }

  lemma SliceOfSlice(p: seq<byte>, a: nat, b: nat, c: nat, d: nat)
    requires a <= b <= |p| && c <= d <= b - a
    ensures p[a..b][c..d] == p[a + c..a + d]
  {
    var s, t := p[a..b][c..d], p[a + c..a + d];
    assert |s| == |t| && forall i :: 0 <= i < |s| ==> s[i] == p[a + c + i] == t[i];
  }

  lemma WireHead(p: seq<byte>, pos: nat, at: nat, done: seq<Label>)
    requires GoodLabels(done) && done != [] && pos <= at <= |p| && p[pos..at] == Wire(done)
    ensures LabelAt(p, pos, done[0])
    ensures pos + 1 + |done[0]| <= at && p[pos + 1 + |done[0]|..at] == Wire(done[1..])
  {
    hide Wire;
    var l, w := done[0], Wire(done[1..]);
    var s := p[pos..at];
    assert s == [|l| as byte] + l + w by { WireCons(done); }
    assert GoodLabel(l);
    assert p[pos] == s[0];
    assert s[1..1 + |l|] == l && s[1 + |l|..] == w;
    SliceOfSlice(p, pos, at, 1, 1 + |l|);
    SliceOfSlice(p, pos, at, 1 + |l|, |s|);
  }

  lemma WireEmpty()
    ensures GoodLabels([]) && Wire([]) == []
  {
  }

  lemma GoodTail(ls: seq<Label>)
    requires GoodLabels(ls) && ls != []
    ensures GoodLabels(ls[1..])
  {
  }

  lemma WireCons(done: seq<Label>)
    requires GoodLabels(done) && done != []
    ensures Wire(done) == [|done[0]| as byte] + done[0] + Wire(done[1..])
  {
  }

  /** Bytes of labels followed by what denotes the rest denote all of them. */
  lemma {:induction false} WireDenotes(p: seq<byte>, pos: nat, at: nat, done: seq<Label>, h: nat, ls: seq<Label>)
    requires GoodLabels(done) && pos <= at <= |p| && p[pos..at] == Wire(done) && Denotes(p, at, h, ls)
    ensures Denotes(p, pos, h, done + ls) && End(p, pos) == End(p, at)
    decreases |done|
  {
    hide Wire, GoodLabels;
    if done == [] {
      WireEmpty();
      assert done + ls == ls && |p[pos..at]| == 0;
    } else {
      var l := done[0];
      var next := pos + 1 + |l|;
      GoodTail(done);
      WireHead(p, pos, at, done);
      WireDenotes(p, next, at, done[1..], h, ls);
      assert (done + ls)[1..] == done[1..] + ls && (done + ls)[0] == l;
    }
  }

  /** Once the rest is there, a pending entry leads to its name. */
  lemma PendingEnds(e: Entry, p: seq<byte>, q: seq<byte>, h: nat, ls: seq<Label>)
    requires Pending(e, p, ls) && p <= q && Denotes(q, |p|, h, ls)
    ensures Means(q, e.pos, e.name) && End(q, e.pos) == End(q, |p|)
  {
    var done: seq<Label> :| GoodLabels(done) && Labels(e.name) == done + ls && p[e.pos..] == Wire(done);
    assert q[e.pos..|p|] == p[e.pos..];
    WireDenotes(q, e.pos, |p|, done, h, ls);
  }

  lemma PendingStarts(name: seq<byte>, p: seq<byte>)
    ensures Pending(Entry(name, |p|), p, Labels(name))
  {
    assert Labels(name) == [] + Labels(name) && p[|p|..] == [] == Wire([]) && GoodLabels([]);
  }

  lemma PendingStep(e: Entry, p: seq<byte>, l: Label, ls: seq<Label>)
    requires Pending(e, p, [l] + ls) && GoodLabel(l)
    ensures Pending(e, p + [|l| as byte] + l, ls)
  {
    var done: seq<Label> :| GoodLabels(done) && Labels(e.name) == done + ([l] + ls) && p[e.pos..] == Wire(done);
    WirePush(done, l);
    var q := p + [|l| as byte] + l;
    assert q[e.pos..] == p[e.pos..] + [|l| as byte] + l;
    assert done + ([l] + ls) == (done + [l]) + ls;
  }

  /** The entries from `from` on are pending and belong to names longer than `size`. */
  ghost predicate AllPending(v: seq<Entry>, from: nat, p: seq<byte>, ls: seq<Label>, size: nat) {
    forall i :: from <= i < |v| ==> Pending(v[i], p, ls) && |v[i].name| > size
  }

  lemma AllPendingStep(v: seq<Entry>, from: nat, p: seq<byte>, l: Label, ls: seq<Label>, size: nat, size': nat)
    requires AllPending(v, from, p, [l] + ls, size) && GoodLabel(l) && size' <= size
    ensures AllPending(v, from, p + [|l| as byte] + l, ls, size')
  {
    forall i | from <= i < |v| ensures Pending(v[i], p + [|l| as byte] + l, ls) {
      PendingStep(v[i], p, l, ls);
    }
  }

  /** An entry for what is still to be written. */
  lemma AllPendingPush(v: seq<Entry>, w: seq<Entry>, from: nat, p: seq<byte>, rest: seq<byte>)
    requires from <= |v| && rest != [] && AllPending(v, from, p, Labels(rest), |rest|)
    requires w == v || w == v + [Entry(rest, |p|)]
    ensures AllPending(w, from, p, Labels(rest), |rest| - 1)
  {
    hide Pending, Labels;
    PendingStarts(rest, p);
    forall i | from <= i < |w| ensures Pending(w[i], p, Labels(rest)) && |w[i].name| > |rest| - 1 {
      if i < |v| { assert w[i] == v[i]; }
    }
  }

  /** One label of the rest has been written. */
  lemma LabelWritten(all: Entry, v: seq<Entry>, w: seq<Entry>, from: nat, p: seq<byte>, rest: seq<byte>, q: seq<byte>)
    requires RestPending(all, v, from, p, rest) && rest != [] && FirstDot(rest) <= MAX_LABEL && from <= |v|
    requires w == v || w == v + [Entry(rest, |p|)]
    requires q == p + [FirstDot(rest) as byte] + rest[..FirstDot(rest)]
    ensures RestPending(all, w, from, q, After(rest, FirstDot(rest)))
  {
    hide Pending, Labels, AllPending, WellFormed;
    var d := FirstDot(rest);
    LabelsStep(rest, d);
    var l, ls := rest[..d], Labels(After(rest, d));
    assert GoodLabel(l);
    PendingStep(all, p, l, ls);
    AllPendingPush(v, w, from, p, rest);
    AllPendingStep(w, from, p, l, ls, |rest| - 1, |After(rest, d)|);
  }

  /** When the name is complete, the old and the new entries all lead to their names. */
  lemma TableEnds(v0: seq<Entry>, v: seq<Entry>, p0: seq<byte>, p: seq<byte>, q: seq<byte>, h: nat,
                  ls: seq<Label>, size: nat)
    requires v0 <= v && TableMeans(v0, p0) && p0 <= p <= q
    requires AllPending(v, |v0|, p, ls, size) && Denotes(q, |p|, h, ls)
    ensures TableMeans(v, q)
  {
    forall i | 0 <= i < |v| ensures Means(q, v[i].pos, v[i].name) {
      if i < |v0| {
        assert v0[i] == v[i];
        MeansGrows(p0, q, v[i].pos, v[i].name);
      } else {
        PendingEnds(v[i], p, q, h, ls);
      }
    }
  }

  lemma LabelsStep(name: seq<byte>, d: nat)
    requires WellFormed(name) && name != [] && d == FirstDot(name)
    ensures Labels(name) == [name[..d]] + Labels(After(name, d))
    ensures WellFormed(After(name, d)) && 0 !in name[..d] && d > 0
  {
    if d == |name| {
      assert name[..d] == name && [name] + [] == [name];
    }
  }

  /** What follows the label that ends at `d`. */
  function After(name: seq<byte>, d: nat): seq<byte>
    requires d <= |name|
  {
    if d < |name| then name[d + 1..] else []
  }

  // ---- How much is compressed

  ghost predicate Knows(v: seq<Entry>, name: seq<byte>) {
    exists i :: 0 <= i < |v| && v[i].name == name
  }

  /** The number of bytes a name takes when every ending in the table is abbreviated to a pointer. */
  ghost function Size(v: seq<Entry>, name: seq<byte>): nat
    decreases |name|
  {
    var d := FirstDot(name);
    if Knows(v, name) then 2
    else if name == [] then 1
    else if d == |name| then d + 2
    else d + 1 + Size(v, name[d + 1..])
  }

  /** The name is empty or ends in a dot. */
  predicate Bare(name: seq<byte>) {
    name == [] || name[|name| - 1] == DOT
  }

  /** Without a table a name takes a byte more for each of its ends, or one for a final dot.  With one it never takes
      more room, but for a pointer in the place of a single zero. */
  lemma {:induction false} SizeShrinks(v: seq<Entry>, name: seq<byte>)
    ensures Size([], name) == |name| + if Bare(name) then 1 else 2
    ensures 1 <= Size(v, name) <= Size([], name) + 1
    ensures !Bare(name) || !Knows(v, []) ==> Size(v, name) <= Size([], name)
    decreases |name|
  {
    assert !Knows([], name);
    var d := FirstDot(name);
    if d < |name| {
      SizeShrinks(v, name[d + 1..]);
      assert name[d + 1..] != [] ==> name[d + 1..][|name| - d - 2] == name[|name| - 1];
    }
  }

  lemma SizeLast(v0: seq<Entry>, v: seq<Entry>, name: seq<byte>)
    requires v0 <= v && !Knows(v, name) && FirstDot(name) == |name| > 0
    ensures Size(v0, name) == |name| + 2
  {
    KnowsMore(v0, v, name);
  }

  lemma SizeStep(v0: seq<Entry>, v: seq<Entry>, name: seq<byte>, i: nat)
    requires v0 <= v && i <= |name| && !Knows(v, name[i..]) && i + FirstDot(name[i..]) < |name|
    ensures Size(v0, name[i..]) == FirstDot(name[i..]) + 1 + Size(v0, name[i + FirstDot(name[i..]) + 1..])
  {
    assert !Knows(v0, name[i..]) by { KnowsMore(v0, v, name[i..]); }
    assert name[i..][FirstDot(name[i..]) + 1..] == name[i + FirstDot(name[i..]) + 1..];
  }

  lemma KnowsMore(v0: seq<Entry>, v: seq<Entry>, name: seq<byte>)
    requires v0 <= v && !Knows(v, name)
    ensures !Knows(v0, name)
  {
    assert forall m :: 0 <= m < |v0| ==> v0[m] == v[m];
  }

  // ---- The encoding

  const DONE := 0
  const BAD_LABEL := -1
  const TOO_LONG := -2

  /** The position of the first entry for the name, or -1. */
  function Find(v: seq<Entry>, name: seq<byte>): int {
    if v == [] then -1 else if v[0].name == name then v[0].pos else Find(v[1..], name)
  }

  lemma {:induction false} FindKnows(v: seq<Entry>, name: seq<byte>)
    ensures if Knows(v, name) then Find(v, name) >= 0 && Entry(name, Find(v, name)) in v else Find(v, name) == -1
  {
    if v != [] {
      FindKnows(v[1..], name);
      assert v == [v[0]] + v[1..];
      if v[0].name != name {
        assert Knows(v, name) <==> Knows(v[1..], name) by {
          if Knows(v, name) {
            var i :| 0 <= i < |v| && v[i].name == name;
            assert v[1..][i - 1].name == name;
          }
        }
      }
    }
  }

  /** A table that is full stays as it is. */
  function Remembered(v: seq<Entry>, e: Entry): seq<Entry> {
    if |v| >= MAX_LABELS then v else v + [e]
  }

  /** What writing a name does: whether it is complete, the bytes that have been written, complete or not, and the
      table afterwards. */
  datatype Coded = Coded(code: int, bytes: seq<byte>, table: seq<Entry>)

  function WithZero(p: seq<byte>): (q: seq<byte>)
    ensures |p| <= |q| <= |p| + 1
  {
    if p == [] || p[|p| - 1] != 0 then p + [0] else p
  }

  /** The length of a label and the label. */
  function LabelBytes(rest: seq<byte>, d: nat): (b: seq<byte>)
    requires d <= |rest| && d <= MAX_LABEL
    ensures |b| == d + 1
  {
    [d as byte] + rest[..d]
  }

  function CodeRest(v: seq<Entry>, j: nat, rest: seq<byte>, limit: nat): Coded
    decreases |rest|
  {
    var ref, d := Find(v, rest), FirstDot(rest);
    if ref >= 0 then
      if j + 2 > limit then Coded(TOO_LONG, [], v) else Coded(DONE, [PointerBytes(ref).0, PointerBytes(ref).1], v)
    else if d > MAX_LABEL then Coded(BAD_LABEL, [], v)
    else if j + d + 1 > limit then Coded(TOO_LONG, [], v)
    else
      var w, lab := Remembered(v, Entry(rest, j)), LabelBytes(rest, d);
      if d == |rest| then Coded(DONE, WithZero(lab), w)
      else
        var e := CodeRest(w, j + d + 1, rest[d + 1..], limit);
        Coded(e.code, lab + e.bytes, e.table)
  }

  /** The encoding of a name at position `j` with room up to `limit`. */
  function Code(v: seq<Entry>, j: nat, name: seq<byte>, limit: nat): Coded {
    if |name| > MAX_NAME then Coded(TOO_LONG, [], v) else CodeRest(v, j, name, limit)
  }

  /** How many bytes come before the first label over 63 bytes that would have to be written, or -1. */
  ghost function LongLabel(v: seq<Entry>, name: seq<byte>): int
    decreases |name|
  {
    var d := FirstDot(name);
    if Knows(v, name) then -1
    else if d > MAX_LABEL then 0
    else if d == |name| then -1
    else
      var k := LongLabel(v, name[d + 1..]);
      if k < 0 then -1 else d + 1 + k
  }

  /** The encoding ends in a zero for which no room is asked: neither in a pointer nor in a final dot's zero. */
  ghost predicate EndsUnchecked(v: seq<Entry>, name: seq<byte>)
    decreases |name|
  {
    var d := FirstDot(name);
    !Knows(v, name) && if d == |name| then d > 0 else EndsUnchecked(v, name[d + 1..])
  }

  /** The number of bytes for which room is asked. */
  ghost function Checked(v: seq<Entry>, name: seq<byte>): int {
    Size(v, name) - if EndsUnchecked(v, name) then 1 else 0
  }

  /** A name of good labels holds no label that is too long. */
  lemma {:induction false} GoodNotLong(v: seq<Entry>, name: seq<byte>)
    requires GoodLabels(Labels(name))
    ensures LongLabel(v, name) == -1
    decreases |name|
  {
    var d := FirstDot(name);
    if name != [] {
      assert d <= MAX_LABEL by { assert Labels(name)[0] == name[..d]; }
      if d < |name| {
        assert Labels(name)[1..] == Labels(name[d + 1..]);
        GoodNotLong(v, name[d + 1..]);
      }
    }
  }

  /** The name is written completely, one byte past the limit. */
  ghost predicate Overruns(v: seq<Entry>, j: nat, name: seq<byte>, limit: nat) {
    && |name| <= MAX_NAME && LongLabel(v, name) < 0
    && EndsUnchecked(v, name) && j + Size(v, name) == limit + 1
  }

  /** The entries after the first ones are for longer names. */
  ghost predicate Newer(v0: seq<Entry>, v: seq<Entry>, size: nat) {
    v0 <= v && forall i :: |v0| <= i < |v| ==> |v[i].name| > size
  }

  lemma NewerKnows(v0: seq<Entry>, v: seq<Entry>, name: seq<byte>)
    requires Newer(v0, v, |name|)
    ensures Knows(v, name) <==> Knows(v0, name)
  {
    if Knows(v, name) {
      var i :| 0 <= i < |v| && v[i].name == name;
      assert v0[i] == v[i];
    } else {
      KnowsMore(v0, v, name);
    }
  }

  lemma CheckedSome(v: seq<Entry>, name: seq<byte>)
    ensures Checked(v, name) >= 1
    decreases |name|
  {
    var d := FirstDot(name);
    if !Knows(v, name) && d < |name| {
      CheckedSome(v, name[d + 1..]);
    }
  }

  /** The encoding after bytes that have been written before. */
  ghost function Behind(done: seq<byte>, e: Coded): Coded {
    Coded(e.code, done + e.bytes, e.table)
  }

  lemma CodeKnown(v: seq<Entry>, j: nat, rest: seq<byte>, limit: nat)
    requires Find(v, rest) >= 0
    ensures var e := CodeRest(v, j, rest, limit);
      if j + 2 > limit then e == Coded(TOO_LONG, [], v)
      else e == Coded(DONE, [PointerBytes(Find(v, rest)).0, PointerBytes(Find(v, rest)).1], v)
  {
    hide Find, FirstDot, PointerBytes, LabelBytes, WithZero, Remembered;
  }

  lemma CodeStops(v: seq<Entry>, j: nat, rest: seq<byte>, limit: nat)
    requires Find(v, rest) < 0 && (FirstDot(rest) > MAX_LABEL || j + FirstDot(rest) + 1 > limit)
    ensures CodeRest(v, j, rest, limit) == Coded(if FirstDot(rest) > MAX_LABEL then BAD_LABEL else TOO_LONG, [], v)
  {
    hide Find, FirstDot, PointerBytes, LabelBytes, WithZero, Remembered;
  }

  lemma CodeLabel(v: seq<Entry>, j: nat, rest: seq<byte>, limit: nat)
    requires Find(v, rest) < 0 && FirstDot(rest) <= MAX_LABEL && j + FirstDot(rest) + 1 <= limit
    ensures var d, e := FirstDot(rest), CodeRest(v, j, rest, limit);
      var w, lab := Remembered(v, Entry(rest, j)), LabelBytes(rest, d);
      if d == |rest| then e == Coded(DONE, WithZero(lab), w)
      else e == Behind(lab, CodeRest(w, j + d + 1, rest[d + 1..], limit))
  {
    hide Find, FirstDot, PointerBytes, LabelBytes, WithZero, Remembered;
  }

  lemma SpecStops(v: seq<Entry>, rest: seq<byte>)
    requires Knows(v, rest) || FirstDot(rest) == |rest|
    ensures !EndsUnchecked(v, rest) <==> Knows(v, rest) || rest == []
    ensures Size(v, rest) == if Knows(v, rest) then 2 else if rest == [] then 1 else |rest| + 2
    ensures LongLabel(v, rest) == if !Knows(v, rest) && |rest| > MAX_LABEL then 0 else -1
  {
    hide Knows;
  }

  lemma SpecLabel(v: seq<Entry>, rest: seq<byte>)
    requires !Knows(v, rest) && FirstDot(rest) < |rest|
    ensures var d := FirstDot(rest);
      var more := rest[d + 1..];
      && Size(v, rest) == d + 1 + Size(v, more) && (EndsUnchecked(v, rest) <==> EndsUnchecked(v, more))
      && LongLabel(v, rest) ==
         if d > MAX_LABEL then 0 else if LongLabel(v, more) < 0 then -1 else d + 1 + LongLabel(v, more)
  {
    hide Knows, FirstDot;
  }

  /** What the encoder answers, told by the table it starts with. */
  lemma {:induction false} RestExact(v0: seq<Entry>, v: seq<Entry>, j: nat, rest: seq<byte>, limit: nat)
    requires Newer(v0, v, |rest|) && 0 !in rest
    ensures var e, k := CodeRest(v, j, rest, limit), LongLabel(v0, rest);
      && (e.code == DONE <==> k < 0 && j + Checked(v0, rest) <= limit)
      && (e.code == BAD_LABEL <==> k == 0 || (k > 0 && j + k <= limit))
      && TOO_LONG <= e.code <= DONE
      && (e.code == DONE ==> |e.bytes| == Size(v0, rest))
      && (e.code != DONE ==> e.bytes == [] || j + |e.bytes| <= limit)
    decreases |rest|
  {
    hide Knows, Newer, Find, CodeRest, Size, LongLabel, EndsUnchecked, Checked;
    hide FirstDot, LabelBytes, WithZero, Remembered;
    hide Behind, PointerBytes;
    var d := FirstDot(rest);
    NewerKnows(v0, v, rest);
    FindKnows(v, rest);
    if Knows(v0, rest) {
      SpecStops(v0, rest);
      CodeKnown(v, j, rest, limit);
      CheckedIs(v0, rest);
    } else {
      if d < |rest| { SpecLabel(v0, rest); } else { SpecStops(v0, rest); }
      CheckedIs(v0, rest);
      if d > MAX_LABEL {
        CodeStops(v, j, rest, limit);
      } else if d == |rest| {
        LabelEnds(rest);
        if j + d + 1 > limit { CodeStops(v, j, rest, limit); } else { CodeLabel(v, j, rest, limit); }
      } else {
        var w, more := Remembered(v, Entry(rest, j)), rest[d + 1..];
        CheckedIs(v0, more);
        CheckedSome(v0, more);
        NewerMore(v0, v, rest, j, more);
        if j + d + 1 > limit {
          CodeStops(v, j, rest, limit);
        } else {
          CodeLabel(v, j, rest, limit);
          RestExact(v0, w, j + d + 1, more, limit);
          BehindParts(rest, d, CodeRest(w, j + d + 1, more, limit));
        }
      }
    }
  }

  lemma CheckedIs(v: seq<Entry>, name: seq<byte>)
    ensures Checked(v, name) == Size(v, name) - if EndsUnchecked(v, name) then 1 else 0
  {
  }

  lemma LabelEnds(rest: seq<byte>)
    requires FirstDot(rest) == |rest| <= MAX_LABEL && 0 !in rest
    ensures |WithZero(LabelBytes(rest, |rest|))| == if rest == [] then 1 else |rest| + 2
  {
    assert rest != [] ==> rest[|rest| - 1] in rest;
  }

  lemma BehindParts(rest: seq<byte>, d: nat, e: Coded)
    requires d <= |rest| && d <= MAX_LABEL
    ensures var b := Behind(LabelBytes(rest, d), e);
      b.code == e.code && |b.bytes| == d + 1 + |e.bytes|
  {
  }

  lemma NewerMore(v0: seq<Entry>, v: seq<Entry>, rest: seq<byte>, j: nat, more: seq<byte>)
    requires Newer(v0, v, |rest|) && |more| < |rest|
    ensures Newer(v0, Remembered(v, Entry(rest, j)), |more|)
  {
  }

  /** `dnsname_to_labels` exactly: when a name is complete, when a label is too long, that it is too long otherwise,
      and when its last byte lies past the limit. */
  lemma CodeExact(v: seq<Entry>, j: nat, name: seq<byte>, limit: nat)
    requires 0 !in name
    ensures var e, k := Code(v, j, name, limit), LongLabel(v, name);
      && (e.code == DONE <==> |name| <= MAX_NAME && k < 0 && j + Checked(v, name) <= limit)
      && (e.code == BAD_LABEL <==> |name| <= MAX_NAME && (k == 0 || (k > 0 && j + k <= limit)))
      && TOO_LONG <= e.code <= DONE
      && (e.code == DONE ==> |e.bytes| == Size(v, name))
      && (e.code != DONE ==> e.bytes == [] || j + |e.bytes| <= limit)
      && (e.code == DONE && j + |e.bytes| > limit <==> Overruns(v, j, name, limit))
  {
    hide CodeRest, LongLabel, EndsUnchecked, Size;
    if |name| <= MAX_NAME {
      RestExact(v, v, j, name, limit);
    }
  }

  /** A complete name lies within its room, or ends one byte past it. */
  lemma CodeRoom(v: seq<Entry>, j: nat, name: seq<byte>, limit: nat)
    requires 0 !in name
    ensures Code(v, j, name, limit).code == DONE ==> j + |Code(v, j, name, limit).bytes| <= limit + 1
  {
    hide Code, Size, LongLabel, Checked;
    CodeExact(v, j, name, limit);
  }

  /** The room decides only whether a name is completed, not how. */
  lemma {:induction false} RestSame(v: seq<Entry>, j: nat, rest: seq<byte>, m: nat, n: nat)
    requires CodeRest(v, j, rest, m).code == DONE == CodeRest(v, j, rest, n).code
    ensures CodeRest(v, j, rest, m) == CodeRest(v, j, rest, n)
    decreases |rest|
  {
    hide CodeRest, Find, FirstDot, PointerBytes, LabelBytes, WithZero, Remembered;
    var d := FirstDot(rest);
    if Find(v, rest) >= 0 {
      CodeKnown(v, j, rest, m);
      CodeKnown(v, j, rest, n);
    } else {
      if d > MAX_LABEL || j + d + 1 > m { CodeStops(v, j, rest, m); }
      if d > MAX_LABEL || j + d + 1 > n { CodeStops(v, j, rest, n); }
      CodeLabel(v, j, rest, m);
      CodeLabel(v, j, rest, n);
      if d < |rest| {
        RestSame(Remembered(v, Entry(rest, j)), j + d + 1, rest[d + 1..], m, n);
      }
    }
  }

  lemma CodeSame(v: seq<Entry>, j: nat, name: seq<byte>, m: nat, n: nat)
    requires Code(v, j, name, m).code == DONE == Code(v, j, name, n).code
    ensures Code(v, j, name, m) == Code(v, j, name, n)
  {
    hide CodeRest;
    RestSame(v, j, name, m, n);
  }

  /** A name that is in the table takes two bytes: the top two bits set, and the position of its first entry. */
  lemma Abbreviated(v: seq<Entry>, i: nat, j: nat, name: seq<byte>, limit: nat)
    requires i < |v| && v[i].name == name && v[i].pos < MAX_POINTER && forall k :: 0 <= k < i ==> v[k].name != name
    requires |name| <= MAX_NAME && j + 2 <= limit
    ensures Code(v, j, name, limit) == Coded(DONE, [(192 + v[i].pos / 256) as byte, (v[i].pos % 256) as byte], v)
  {
    FindFirst(v, i, name);
  }

  lemma {:induction false} FindFirst(v: seq<Entry>, i: nat, name: seq<byte>)
    requires i < |v| && v[i].name == name && forall k :: 0 <= k < i ==> v[k].name != name
    ensures Find(v, name) == v[i].pos
  {
    if i > 0 {
      assert v[0].name != name && v[1..][i - 1] == v[i];
      forall k | 0 <= k < i - 1 ensures v[1..][k].name != name {
        assert v[1..][k] == v[k + 1];
      }
      FindFirst(v[1..], i - 1, name);
    }
  }

  /** A name that is written in full can be pointed at afterwards, as long as the table has room. */
  lemma CodeLearns(v: seq<Entry>, j: nat, name: seq<byte>, limit: nat)
    ensures var e := Code(v, j, name, limit);
      && v <= e.table && (e.code == DONE && !Knows(v, name) && |v| < MAX_LABELS ==> Entry(name, j) in e.table)
  {
    hide CodeRest, Knows;
    RestKeeps(v, j, name, limit);
    if !Knows(v, name) && |name| <= MAX_NAME && CodeRest(v, j, name, limit).code == DONE {
      RestLearns(v, j, name, limit);
      assert |v| < MAX_LABELS ==> Remembered(v, Entry(name, j))[|v|] == Entry(name, j);
    }
  }

  lemma RestLearns(v: seq<Entry>, j: nat, rest: seq<byte>, limit: nat)
    requires !Knows(v, rest) && CodeRest(v, j, rest, limit).code == DONE
    ensures Remembered(v, Entry(rest, j)) <= CodeRest(v, j, rest, limit).table
  {
    hide CodeRest, FirstDot, Find, Knows, LabelBytes, WithZero, PointerBytes, Remembered;
    FindKnows(v, rest);
    var d := FirstDot(rest);
    if d > MAX_LABEL || j + d + 1 > limit {
      CodeStops(v, j, rest, limit);
    } else {
      CodeLabel(v, j, rest, limit);
      if d < |rest| {
        RestKeeps(Remembered(v, Entry(rest, j)), j + d + 1, rest[d + 1..], limit);
      }
    }
  }

  lemma {:induction false} RestKeeps(v: seq<Entry>, j: nat, rest: seq<byte>, limit: nat)
    ensures v <= CodeRest(v, j, rest, limit).table
    decreases |rest|
  {
    hide FirstDot, Find, LabelBytes, WithZero, PointerBytes, Remembered;
    var d := FirstDot(rest);
    assert v <= Remembered(v, Entry(rest, j)) by { StillThere(v, Entry(rest, j)); }
    if Find(v, rest) < 0 && d < |rest| && d <= MAX_LABEL && j + d + 1 <= limit {
      CodeLabel(v, j, rest, limit);
      RestKeeps(Remembered(v, Entry(rest, j)), j + d + 1, rest[d + 1..], limit);
    }
  }

  lemma StillThere(v: seq<Entry>, e: Entry)
    ensures v <= Remembered(v, e)
  {
  }

  /** The smallest overrun: a name of two bytes and room for three. */
  lemma OverrunHappens()
    ensures var e := Code([], 0, [97, 98], 3);
      e == Coded(DONE, [2, 97, 98, 0], [Entry([97, 98], 0)]) && Overruns([], 0, [97, 98], 3)
  {
    var ab: seq<byte> := [97, 98];
    assert ab[1..] == [98] && ab[1..][1..] == [];
    assert FirstDot(ab[1..][1..]) == 0 && FirstDot(ab[1..]) == 1 && FirstDot(ab) == 2;
    assert Find([], ab) == -1 && !Knows([], ab);
    assert [2 as byte] + ab[..2] == [2, 97, 98];
  }

  // ---- The steps of writing one name

  /** A name that is to be written after `p0`, when the table is `v0`. */
  datatype Job = Job(name: seq<byte>, v0: seq<Entry>, p0: seq<byte>)

  /** The labels before index `i` of the name are written. */
  ghost predicate Writing(job: Job, v: seq<Entry>, p: seq<byte>, i: nat) {
    && i <= |job.name| && job.v0 <= v && job.p0 <= p && |p| == |job.p0| + i
    && TableMeans(job.v0, job.p0) && Size(job.v0, job.name) == i + Size(job.v0, job.name[i..])
    && RestPending(Entry(job.name, |job.p0|), v, |job.v0|, p, job.name[i..])
  }

  /** Only `rest` is missing of the name and of the new entries. */
  ghost predicate RestPending(all: Entry, v: seq<Entry>, from: nat, p: seq<byte>, rest: seq<byte>) {
    WellFormed(rest) && Pending(all, p, Labels(rest)) && AllPending(v, from, p, Labels(rest), |rest|)
  }

  /** The name lies at the end of the message, shortened as far as the table allows, and the table is sound. */
  ghost predicate Written(job: Job, v: seq<Entry>, q: seq<byte>) {
    && job.v0 <= v && job.p0 <= q
    && Means(q, |job.p0|, job.name) && End(q, |job.p0|) == |q|
    && TableMeans(v, q) && |q| == |job.p0| + Size(job.v0, job.name)
  }

  lemma WritingStarts(job: Job)
    requires WellFormed(job.name) && TableMeans(job.v0, job.p0)
    ensures Writing(job, job.v0, job.p0, 0)
  {
    PendingStarts(job.name, job.p0);
    assert job.name[0..] == job.name;
  }

  /** One label has been written, and its entry added unless the table was full. */
  lemma WritingStep(job: Job, v: seq<Entry>, w: seq<Entry>, p: seq<byte>, i: nat, d: nat, q: seq<byte>)
    requires Writing(job, v, p, i) && i < |job.name| && d == FirstDot(job.name[i..]) <= MAX_LABEL
    requires !Knows(v, job.name[i..]) && (w == v || w == v + [Entry(job.name[i..], |p|)])
    requires q == p + ([d as byte] + job.name[i..][..d])
    ensures i + d < |job.name| ==> Writing(job, w, q, i + d + 1)
    ensures i + d == |job.name| ==> Complete(job, w, q)
  {
    hide TableMeans, Knows, RestPending, Size;
    assert q == p + [d as byte] + job.name[i..][..d];
    LabelWritten(Entry(job.name, |job.p0|), v, w, |job.v0|, p, job.name[i..], q);
    if i + d < |job.name| {
      SizeStep(job.v0, v, job.name, i);
    } else {
      SizeLast(job.v0, v, job.name[i..]);
    }
  }

  /** All labels are written, and only the final zero is missing. */
  ghost predicate Complete(job: Job, v: seq<Entry>, p: seq<byte>) {
    && job.v0 <= v && job.p0 <= p
    && TableMeans(job.v0, job.p0) && |p| + 1 == |job.p0| + Size(job.v0, job.name)
    && RestPending(Entry(job.name, |job.p0|), v, |job.v0|, p, [])
  }

  lemma WritingZero(job: Job, v: seq<Entry>, p: seq<byte>)
    requires Complete(job, v, p)
    ensures Written(job, v, p + [0])
  {
    hide Pending;
    var q := p + [0];
    assert Denotes(q, |p|, 0, []) && End(q, |p|) == |q|;
    PendingEnds(Entry(job.name, |job.p0|), p, q, 0, []);
    TableEnds(job.v0, v, job.p0, p, q, 0, [], 0);
  }

  /** The empty name is a zero, which is its own entry's position. */
  lemma WritingRoot(job: Job, v: seq<Entry>, w: seq<Entry>, p: seq<byte>)
    requires Writing(job, v, p, |job.name|) && !Knows(v, [])
    requires w == v || w == v + [Entry([], |p|)]
    ensures Written(job, w, p + [0])
  {
    hide Pending, AllPending;
    KnowsMore(job.v0, v, []);
    WritingZero(job, v, p);
    assert Denotes(p + [0], |p|, 0, Labels([]));
  }

  /** A pointer to an earlier name stands for the rest. */
  lemma WritingPointer(job: Job, v: seq<Entry>, p: seq<byte>, i: nat, e: Entry)
    requires Writing(job, v, p, i) && e in v && e.name == job.name[i..] && |p| <= MAX_POINTER
    ensures Written(job, v, p + [PointerBytes(e.pos).0, PointerBytes(e.pos).1])
  {
    hide Pending, Labels;
    var q := p + [PointerBytes(e.pos).0, PointerBytes(e.pos).1];
    var m :| 0 <= m < |v| && v[m] == e;
    assert job.v0[m] == e;
    MeansGrows(job.p0, q, e.pos, e.name);
    var g: nat :| Denotes(q, e.pos, g, Labels(e.name));
    PointerExact(e.pos);
    assert q[|p|] == PointerBytes(e.pos).0 && q[|p| + 1] == PointerBytes(e.pos).1;
    assert Denotes(q, |p|, g + 1, Labels(e.name)) && End(q, |p|) == |q|;
    PendingEnds(Entry(job.name, |job.p0|), p, q, g + 1, Labels(e.name));
    TableEnds(job.v0, v, job.p0, p, q, g + 1, Labels(e.name), |e.name|);
    assert Knows(job.v0, e.name);
  }

  /** After the last label and the final zero the name is written. */
  lemma WritingEnds(job: Job, v: seq<Entry>, w: seq<Entry>, p: seq<byte>, i: nat, d: nat, lab: seq<byte>)
    requires Writing(job, v, p, i) && i + d == |job.name| && d == FirstDot(job.name[i..]) <= MAX_LABEL
    requires !Knows(v, job.name[i..]) && (w == v || w == v + [Entry(job.name[i..], |p|)])
    requires lab == LabelBytes(job.name[i..], d)
    ensures Written(job, w, p + WithZero(lab))
  {
    hide Written, Complete, TableMeans, AllPending, Pending, Labels, Knows, Size;
    var last := job.name[i..];
    if d == 0 {
      WritingRoot(job, v, w, p);
      assert lab == [0] && last == [];
    } else {
      WritingStep(job, v, w, p, i, d, p + lab);
      WritingZero(job, w, p + lab);
      assert p + lab + [0] == p + (lab + [0]);
      assert lab[|lab| - 1] == last[d - 1] && last[d - 1] in last;
    }
  }

  lemma {:induction false} RestMeans(job: Job, v: seq<Entry>, p: seq<byte>, i: nat, limit: nat)
    requires i <= |job.name| && Writing(job, v, p, i) && limit <= MAX_POINTER
    ensures var e := CodeRest(v, |p|, job.name[i..], limit); e.code == DONE ==> Written(job, e.table, p + e.bytes)
    decreases |job.name| - i
  {
    hide Writing, Written, CodeRest, Find, Knows, WithZero, FirstDot, LabelBytes, PointerBytes;
    var rest, j := job.name[i..], |p|;
    FindKnows(v, rest);
    var d := FirstDot(rest);
    if Find(v, rest) >= 0 {
      CodeKnown(v, j, rest, limit);
      if j + 2 <= limit { WritingPointer(job, v, p, i, Entry(rest, Find(v, rest))); }
    } else if d > MAX_LABEL || j + d + 1 > limit {
      CodeStops(v, j, rest, limit);
    } else {
      CodeLabel(v, j, rest, limit);
      var w, lab := Remembered(v, Entry(rest, j)), LabelBytes(rest, d);
      if d == |rest| {
        WritingEnds(job, v, w, p, i, d, lab);
      } else {
        LabelIs(rest, d);
        WritingStep(job, v, w, p, i, d, p + lab);
        assert rest[d + 1..] == job.name[i + d + 1..];
        RestMeans(job, w, p + lab, i + d + 1, limit);
        assert p + lab + CodeRest(w, j + d + 1, rest[d + 1..], limit).bytes
            == p + (lab + CodeRest(w, j + d + 1, rest[d + 1..], limit).bytes);
      }
    }
  }

  lemma LabelIs(rest: seq<byte>, d: nat)
    requires d <= |rest| && d <= MAX_LABEL
    ensures LabelBytes(rest, d) == [d as byte] + rest[..d]
  {
  }

  /** Compression keeps the meaning: behind any bytes in which the table's entries lead to their names, what is
      encoded denotes the name, and every entry, old or new, still leads to its name. */
  lemma CodeMeans(v: seq<Entry>, p: seq<byte>, name: seq<byte>, limit: nat)
    requires WellFormed(name) && TableMeans(v, p) && limit <= MAX_POINTER
    ensures var e := Code(v, |p|, name, limit); e.code == DONE ==> Written(Job(name, v, p), e.table, p + e.bytes)
  {
    hide Writing, Written, CodeRest, TableMeans;
    WritingStarts(Job(name, v, p));
    assert name[0..] == name;
    RestMeans(Job(name, v, p), v, p, 0, limit);
  }

  // ---- The table and the encoder

  class LabelTable {
    var n: nat
    const labels: array<Entry>

    ghost predicate Valid() reads this {
      labels.Length == MAX_LABELS && n <= MAX_LABELS
    }

    /** The entries in the order in which they were added. */
    ghost function View(): seq<Entry>
      requires Valid()
      reads this, labels
    {
      labels[..n]
    }

    constructor ()
      ensures Valid() && View() == [] && fresh(labels)
    {
      n := 0;
      labels := new Entry[MAX_LABELS](i => Entry([], 0));
    }

    /** `dnslabel_table_get_pos`: the position of the first entry for the name, or -1. */
    method GetPos(name: seq<byte>) returns (pos: int)
      requires Valid()
      ensures pos >= -1
      ensures pos == Find(View(), name)
      ensures pos == -1 <==> !Knows(View(), name)
      ensures pos >= 0 ==> exists i :: 0 <= i < |View()| && View()[i] == Entry(name, pos) && !Knows(View()[..i], name)
    {
      FindKnows(View(), name);
      assert labels[0..n] == labels[..n];
      for i := 0 to n
        invariant forall k :: 0 <= k < i ==> labels[k].name != name
        invariant Find(View(), name) == Find(labels[i..n], name)
      {
        assert labels[i..n][1..] == labels[i + 1..n];
        if labels[i].name == name {
          assert View()[i] == Entry(name, labels[i].pos) && View()[..i] == labels[..i];
          return labels[i].pos;
        }
      }
      pos := -1;
    }

    /** `dnslabel_table_add`: a full table stays as it is. */
    method Add(name: seq<byte>, pos: nat)
      requires Valid()
      modifies this, labels
      ensures Valid()
      ensures View() == Remembered(old(View()), Entry(name, pos))
    {
      if n == MAX_LABELS { return; }
      labels[n] := Entry(name, pos);
      n := n + 1;
    }
  }

  /** The bytes with others written over them from `at` on. */
  function Pasted(s: seq<byte>, at: nat, bytes: seq<byte>): (t: seq<byte>)
    requires bytes == [] || at + |bytes| <= |s|
    ensures |t| == |s|
  {
    if bytes == [] then s else s[..at] + bytes + s[at + |bytes|..]
  }

  lemma PastedTwice(s: seq<byte>, at: nat, a: seq<byte>, b: seq<byte>)
    requires at + |a| + |b| <= |s|
    ensures Pasted(Pasted(s, at, a), at + |a|, b) == Pasted(s, at, a + b)
  {
    if a == [] {
      assert a + b == b;
    } else if b == [] {
      assert a + b == a;
    } else {
      var t := Pasted(s, at, a);
      assert t[..at + |a|] == s[..at] + a && t[at + |a| + |b|..] == s[at + |a| + |b|..];
      assert s[..at] + a + b == s[..at] + (a + b);
    }
  }

  /** Writes bytes behind those written since `start`. */
  method PutMore(buf: array<byte>, ghost start: nat, j: nat, bytes: seq<byte>, ghost done: seq<byte>,
                 ghost was: seq<byte>)
    returns (next: nat)
    requires j == start + |done| && j + |bytes| <= buf.Length == |was| && buf[..] == Pasted(was, start, done)
    modifies buf
    ensures next == j + |bytes| && buf[..] == Pasted(was, start, done + bytes)
  {
    hide Pasted;
    PastedTwice(was, start, done, bytes);
    next := Put(buf, j, bytes);
  }

  method Put(buf: array<byte>, j: nat, bytes: seq<byte>) returns (next: nat)
    requires j + |bytes| <= buf.Length
    modifies buf
    ensures next == j + |bytes| && buf[..] == Pasted(old(buf[..]), j, bytes)
  {
    next := j;
    while next < j + |bytes|
      invariant j <= next <= j + |bytes|
      invariant forall i :: 0 <= i < buf.Length ==> buf[i] == if j <= i < next then bytes[i - j] else old(buf[i])
    {
      buf[next] := bytes[next - j];
      next := next + 1;
    }
    assert buf[..] == Pasted(old(buf[..]), j, bytes);
  }

  /** The terminating zero, unless the last byte written is one. */
  method Finish(buf: array<byte>, start: nat, j: nat, ghost done: seq<byte>, ghost was: seq<byte>) returns (r: nat)
    requires done != [] && j == start + |done| <= |was| && buf[..] == Pasted(was, start, done)
    requires start + |WithZero(done)| <= buf.Length
    modifies buf
    ensures r == start + |WithZero(done)| && buf[..] == Pasted(was, start, WithZero(done))
  {
    r := j;
    assert buf[j - 1] == buf[..][j - 1] == done[|done| - 1];
    if j == 0 || buf[j - 1] != 0 {
      buf[j] := 0;
      r := j + 1;
      assert buf[..] == Pasted(was, start, WithZero(done));
    }
  }

  /** `dnsname_to_labels`: writes the encoding of the name at `start` and returns the index just past it, or why it
      could not.  The array may end at `bufLen`, as the source's does, unless the name overruns that. */
  method NameToLabels(buf: array<byte>, bufLen: nat, start: nat, name: seq<byte>, table: LabelTable) returns (r: int)
    requires bufLen <= buf.Length && 0 !in name && table.Valid()
    requires Overruns(table.View(), start, name, bufLen) ==> bufLen < buf.Length
    modifies buf, table, table.labels
    ensures var e := Code(old(table.View()), start, name, bufLen);
      && table.Valid() && table.View() == e.table
      && r == (if e.code == DONE then start + |e.bytes| else e.code)
      && (e.bytes != [] ==> start + |e.bytes| <= buf.Length) && buf[..] == Pasted(old(buf[..]), start, e.bytes)
    ensures r == bufLen + 1 <==> old(Overruns(table.View(), start, name, bufLen))
  {
    hide CodeRest, Overruns, Knows, Pasted, WithZero, Find, FirstDot, LabelBytes, Remembered, LongLabel, Checked, Size;
    ghost var v0, was := table.View(), buf[..];
    CodeExact(v0, start, name, bufLen);
    StartsPasted(was, start);
    if |name| > MAX_NAME { return TOO_LONG; }
    ghost var e, done := Code(v0, start, name, bufLen), [];
    var i, j := 0, start;
    assert name[0..] == name;
    BehindNothing([], CodeRest(v0, start, name, bufLen));
    while true
      invariant i <= |name| && j == start + |done| && table.Valid()
      invariant e == Behind(done, CodeRest(table.View(), j, name[i..], bufLen))
      invariant (done == [] || j <= bufLen) && buf[..] == Pasted(was, start, done)
      decreases |name| - i
    {
      ghost var v := table.View();
      var rest := name[i..];
      BehindNothing(done, CodeRest(v, j, rest, bufLen));
      var ref := table.GetPos(rest);
      if ref >= 0 {
        CodeKnown(v, j, rest, bufLen);
        if j + 2 > bufLen { return TOO_LONG; }
        r := PutMore(buf, start, j, [PointerBytes(ref).0, PointerBytes(ref).1], done, was);
        return;
      }
      var d := FirstDot(rest);
      if d > MAX_LABEL || j + d + 1 > bufLen { CodeStops(v, j, rest, bufLen); }
      if d > MAX_LABEL { return BAD_LABEL; }
      if j + d + 1 > bufLen { return TOO_LONG; }
      CodeLabel(v, j, rest, bufLen);
      table.Add(rest, j);
      var lab := LabelBytes(rest, d);
      j := PutMore(buf, start, j, lab, done, was);
      if d == |rest| {
        WithZeroBehind(done, lab);
        assert e == Coded(DONE, WithZero(done + lab), table.View());
        r := Finish(buf, start, j, done + lab, was);
        return;
      }
      assert rest[d + 1..] == name[i + d + 1..];
      BehindBoth(done, lab, CodeRest(table.View(), j, name[i + d + 1..], bufLen));
      done := done + lab;
      i := i + d + 1;
    }
  }

  lemma StartsPasted(s: seq<byte>, at: nat)
    ensures Pasted(s, at, []) == s
  {
  }

  lemma BehindNothing(done: seq<byte>, e: Coded)
    ensures e.bytes == [] ==> Behind(done, e) == Coded(e.code, done, e.table)
    ensures Behind([], e) == e
  {
  }

  lemma BehindBoth(a: seq<byte>, b: seq<byte>, e: Coded)
    ensures Behind(a, Behind(b, e)) == Behind(a + b, e)
  {
    assert a + (b + e.bytes) == a + b + e.bytes;
  }

  lemma WithZeroBehind(a: seq<byte>, b: seq<byte>)
    requires b != []
    ensures WithZero(a + b) == a + WithZero(b)
  {
  }

  /** Parsing where a name was written gives the name and the index just past what was written. */
  lemma ParsesBack(p: seq<byte>, pos: nat, name: seq<byte>, room: nat, r: ParseResult)
    requires Means(p, pos, name) && IsParse(p, pos, room, r) && |Join(Labels(name))| < room
    ensures r == Parsed(Join(Labels(name)), End(p, pos))
    ensures WellFormed(name) && (name != [] ==> name[|name| - 1] != DOT) ==> r.name == name
  {
    var h: nat :| Denotes(p, pos, h, Labels(name));
    assert r.Parsed?;
    var h': nat, ls: seq<Label> :| Denotes(p, pos, h', ls) && r.name == Join(ls);
    DenotesOne(p, pos, h, Labels(name), h', ls);
    if WellFormed(name) && (name != [] ==> name[|name| - 1] != DOT) {
      JoinLabels(name);
    }
  }
}
