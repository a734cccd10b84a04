/** DNS messages whose names share one label table: what they consist of, what they mean and how they are encoded. */
module DnsMessage {
  import opened Common
  import opened DnsNames
  import opened DnsEncode

  datatype Question = Question(name: seq<byte>, qtype: nat, qclass: nat)

  datatype Data = NameData(name: seq<byte>) | RawData(bytes: seq<byte>)

  datatype Item = Item(name: seq<byte>, rtype: nat, rclass: nat, ttl: nat, data: Data)

  datatype Request = Request(id: nat, flags: bv16, questions: seq<Question>, answers: seq<Item>,
                             authority: seq<Item>, additional: seq<Item>)

  /** The low 16 bits, high byte first. */
  function U16(x: nat): (b: seq<byte>)
    ensures |b| == 2
  {
    [(x / 256 % 256) as byte, (x % 256) as byte]
  }

  function U32(x: nat): (b: seq<byte>)
    ensures |b| == 4
  {
    U16(x / 0x1_0000) + U16(x)
  }

  // ---- What a message consists of

  /** A piece of a message: bytes as they are, a name, or a name after the number of its bytes. */
  datatype Field = Bytes(bytes: seq<byte>) | NameField(name: seq<byte>) | SizedName(name: seq<byte>)

  /** Where a field that starts at `pos` ends. */
  ghost function Next(p: seq<byte>, pos: nat, f: Field): nat {
    match f
    case Bytes(b) => pos + |b|
    case NameField(n) => End(p, pos)
    case SizedName(n) => End(p, pos + 2)
  }

  ghost predicate FieldAt(p: seq<byte>, pos: nat, f: Field) {
    match f
    case Bytes(b) => pos + |b| <= |p| && p[pos..pos + |b|] == b
    case NameField(n) => Means(p, pos, n)
    case SizedName(n) =>
      && pos + 2 <= |p| && Means(p, pos + 2, n) && End(p, pos + 2) >= pos + 2
      && p[pos..pos + 2] == U16(End(p, pos + 2) - (pos + 2))
  }

  /** From `pos` to `end` the message holds the fields one after the other. */
  ghost predicate FieldsAt(p: seq<byte>, pos: nat, fs: seq<Field>, end: nat)
    decreases |fs|
  {
    if fs == [] then pos == end
    else FieldAt(p, pos, fs[0]) && FieldsAt(p, Next(p, pos, fs[0]), fs[1..], end)
  }

  function QuestionFields(q: Question): seq<Field> {
    [NameField(q.name), Bytes(U16(q.qtype)), Bytes(U16(q.qclass))]
  }

  function ItemFields(i: Item): seq<Field> {
    [NameField(i.name), Bytes(U16(i.rtype)), Bytes(U16(i.rclass)), Bytes(U32(i.ttl))]
    + match i.data
      case NameData(n) => [SizedName(n)]
      case RawData(b) => [Bytes(U16(|b|)), Bytes(b)]
  }

  function Concat(parts: seq<seq<Field>>): seq<Field> {
    if parts == [] then [] else Concat(parts[..|parts| - 1]) + parts[|parts| - 1]
  }

  function QuestionParts(qs: seq<Question>): seq<seq<Field>> {
    seq(|qs|, i requires 0 <= i < |qs| => QuestionFields(qs[i]))
  }

  function ItemParts(items: seq<Item>): seq<seq<Field>> {
    seq(|items|, i requires 0 <= i < |items| => ItemFields(items[i]))
  }

  /** The word is the flags with the response bit set and the error or-ed into the low four bits. */
  predicate FlagsSay(word: nat, flags: bv16, err: nat)
    requires err < 16
  {
    word == (flags | 0x8000 | (err as bv16)) as nat
  }

  function FlagWord(flags: bv16, err: nat): nat
    requires err < 16
  {
    (flags | 0x8000 | (err as bv16)) as nat
  }

  lemma FlagWordIs(flags: bv16, err: nat)
    requires err < 16
    ensures FlagsSay(FlagWord(flags, err), flags, err)
  {}

  lemma FlagWordSmall(flags: bv16, err: nat)
    requires err < 16
    ensures FlagWord(flags, err) < 0x1_0000
  {}

  lemma FlagWordSays(flags: bv16, err: nat)
    requires err < 16
    ensures FlagsSay(FlagWord(flags, err) % 0x1_0000, flags, err)
  {
    FlagWordIs(flags, err);
    FlagWordSmall(flags, err);
    KeepsLow(FlagWord(flags, err));
  }

  lemma KeepsLow(word: nat)
    requires word < 0x1_0000
    ensures word % 0x1_0000 == word
  {}

  /** The twelve bytes of the header: identifier, flags with the response bit and the error, and the counts. */
  function HeaderBytes(req: Request, err: nat): (b: seq<byte>)
    requires err < 16
    ensures |b| == 12 && b[..2] == U16(req.id)
  {
    U16(req.id) + U16(FlagWord(req.flags, err)) + U16(|req.questions|)
    + U16(|req.answers|) + U16(|req.authority|) + U16(|req.additional|)
  }

  /** The whole response. */
  function ResponseFields(req: Request, err: nat): seq<Field>
    requires err < 16
  {
    [Bytes(HeaderBytes(req, err))] + Concat(QuestionParts(req.questions))
    + Concat(ItemParts(req.answers)) + Concat(ItemParts(req.authority)) + Concat(ItemParts(req.additional))
  }

  // ---- Fields stay when more is appended

  lemma FieldGrows(p: seq<byte>, q: seq<byte>, pos: nat, f: Field)
    requires FieldAt(p, pos, f) && p <= q
    ensures FieldAt(q, pos, f) && Next(q, pos, f) == Next(p, pos, f) <= |p|
  {
    match f
    case Bytes(b) => assert q[pos..pos + |b|] == p[pos..pos + |b|];
    case NameField(n) => MeansGrows(p, q, pos, n);
    case SizedName(n) =>
      MeansGrows(p, q, pos + 2, n);
      assert q[pos..pos + 2] == p[pos..pos + 2];
  }

  lemma {:induction false} FieldsPush(p: seq<byte>, q: seq<byte>, pos: nat, fs: seq<Field>, end: nat, f: Field)
    requires FieldsAt(p, pos, fs, end) && p <= q && FieldAt(q, end, f)
    ensures FieldsAt(q, pos, fs + [f], Next(q, end, f))
    decreases |fs|
  {
    if fs == [] {
      assert FieldsAt(q, Next(q, pos, f), [f][1..], Next(q, pos, f));
    } else {
      FieldGrows(p, q, pos, fs[0]);
      assert (fs + [f])[1..] == fs[1..] + [f] && (fs + [f])[0] == fs[0];
      FieldsPush(p, q, Next(p, pos, fs[0]), fs[1..], end, f);
    }
  }

  /** The message so far holds these fields, and the table is good for it. */
  ghost predicate Sound(p: seq<byte>, v: seq<Entry>, fs: seq<Field>) {
    FieldsAt(p, 0, fs, |p|) && TableMeans(v, p)
  }

  lemma SoundBytes(p: seq<byte>, v: seq<Entry>, fs: seq<Field>, b: seq<byte>)
    requires Sound(p, v, fs)
    ensures Sound(p + b, v, fs + [Bytes(b)])
  {
    FieldsPush(p, p + b, 0, fs, |p|, Bytes(b));
    TableGrows(v, p, p + b);
  }

  lemma SoundName(p: seq<byte>, v: seq<Entry>, fs: seq<Field>, name: seq<byte>, w: seq<Entry>, q: seq<byte>)
    requires Sound(p, v, fs) && Written(Job(name, v, p), w, q)
    ensures Sound(q, w, fs + [NameField(name)])
  {
    FieldsPush(p, q, 0, fs, |p|, NameField(name));
  }

  lemma SoundSized(p: seq<byte>, v: seq<Entry>, fs: seq<Field>, name: seq<byte>, w: seq<Entry>, q: seq<byte>)
    requires Sound(p, v, fs) && Written(Job(name, v, p + U16(Size(v, name))), w, q)
    ensures Sound(q, w, fs + [SizedName(name)])
  {
    var size := U16(Size(v, name));
    assert p <= p + size <= q;
    assert q[|p|..|p| + 2] == size;
    FieldsPush(p, q, 0, fs, |p|, SizedName(name));
  }

  // ---- The encoding of a whole message

  /** A message in the making: why it has stopped, if it has, the bytes without a gap from the start, bytes that were
      written after a gap of two, the table, and the number of complete fields. */
  datatype Draft = Draft(code: int, bytes: seq<byte>, loose: seq<byte>, table: seq<Entry>, done: nat)

  /** One more field, in a buffer of `limit` bytes; nothing follows a field that could not be completed. */
  function Extended(d: Draft, f: Field, limit: nat): Draft {
    var j := |d.bytes|;
    if d.code != DONE then d
    else match f
      case Bytes(b) => if j + |b| > limit then d.(code := TOO_LONG) else d.(bytes := d.bytes + b, done := d.done + 1)
      case NameField(n) =>
        var e := Code(d.table, j, n, limit);
        Draft(e.code, d.bytes + e.bytes, [], e.table, if e.code == DONE then d.done + 1 else d.done)
      case SizedName(n) =>
        var e := Code(d.table, j + 2, n, limit);
        if e.code == DONE then Draft(DONE, d.bytes + U16(|e.bytes|) + e.bytes, [], e.table, d.done + 1)
        else Draft(e.code, d.bytes, e.bytes, e.table, d.done)
  }

  const NOTHING := Draft(DONE, [], [], [], 0)

  /** The encoding of fields in a buffer of `limit` bytes. */
  function Drafted(fs: seq<Field>, limit: nat): Draft {
    if fs == [] then NOTHING else Extended(Drafted(fs[..|fs| - 1], limit), fs[|fs| - 1], limit)
  }

  lemma DraftedPush(fs: seq<Field>, f: Field, limit: nat)
    ensures Drafted(fs + [f], limit) == Extended(Drafted(fs, limit), f, limit)
  {
    hide Extended;
    assert (fs + [f])[..|fs|] == fs && (fs + [f])[|fs|] == f;
  }

  predicate IsCString(f: Field) {
    f.Bytes? || 0 !in f.name
  }

  predicate AllC(fs: seq<Field>) {
    forall i :: 0 <= i < |fs| ==> IsCString(fs[i])
  }

  /** What a draft can be. */
  predicate Sane(d: Draft, limit: nat) {
    && TOO_LONG <= d.code <= DONE && |d.bytes| <= limit + 1
    && (d.loose != [] ==> d.code != DONE && |d.bytes| + 2 + |d.loose| <= limit)
  }

  /** A field that is completed one byte past the buffer. */
  ghost predicate Spills(d: Draft, f: Field, limit: nat) {
    && d.code == DONE && !f.Bytes?
    && Overruns(d.table, if f.SizedName? then |d.bytes| + 2 else |d.bytes|, f.name, limit)
  }

  lemma ExtendedSane(d: Draft, f: Field, limit: nat)
    requires Sane(d, limit) && IsCString(f)
    ensures Sane(Extended(d, f, limit), limit) && |d.bytes| <= |Extended(d, f, limit).bytes|
    ensures |d.bytes| <= limit ==> (|Extended(d, f, limit).bytes| > limit <==> Spills(d, f, limit))
    ensures |d.bytes| > limit ==> Extended(d, f, limit).bytes == d.bytes
  {
    hide Code, Overruns, Size, Checked, LongLabel, U16;
    if d.code == DONE && !f.Bytes? {
      var j := if f.SizedName? then |d.bytes| + 2 else |d.bytes|;
      CodeExact(d.table, j, f.name, limit);
      CodeRoom(d.table, j, f.name, limit);
    }
  }

  lemma {:induction false} DraftedSane(fs: seq<Field>, limit: nat)
    requires AllC(fs)
    ensures Sane(Drafted(fs, limit), limit)
    ensures var d := Drafted(fs, limit); d.done <= |fs| && (d.code == DONE <==> d.done == |fs|)
  {
    if fs != [] {
      var n := |fs| - 1;
      DraftedSane(fs[..n], limit);
      ExtendedSane(Drafted(fs[..n], limit), fs[n], limit);
    }
  }

  /** Nothing follows what could not be completed. */
  lemma {:induction false} Stopped(fs: seq<Field>, more: seq<Field>, limit: nat)
    requires Drafted(fs, limit).code != DONE
    ensures Drafted(fs + more, limit) == Drafted(fs, limit)
    decreases |more|
  {
    if more == [] {
      assert fs + more == fs;
    } else {
      var n := |more| - 1;
      Stopped(fs, more[..n], limit);
      assert fs + more == fs + more[..n] + [more[n]];
      DraftedPush(fs + more[..n], more[n], limit);
    }
  }

  /** A complete encoding holds the fields. */
  lemma {:induction false} DraftedMeans(fs: seq<Field>, limit: nat)
    requires limit <= MAX_POINTER && forall i :: 0 <= i < |fs| && !fs[i].Bytes? ==> WellFormed(fs[i].name)
    ensures var d := Drafted(fs, limit); d.code == DONE ==> Sound(d.bytes, d.table, fs)
  {
    hide Sound, Extended, WellFormed;
    if fs == [] {
      SoundNothing();
    } else {
      var n := |fs| - 1;
      var d := Drafted(fs[..n], limit);
      DraftedMeans(fs[..n], limit);
      ExtendedCode(d, fs[n], limit);
      if d.code == DONE {
        ExtendedMeans(d, fs[..n], fs[n], limit);
        assert fs[..n] + [fs[n]] == fs;
      }
    }
  }

  lemma SoundNothing()
    ensures Sound([], [], [])
  {
  }

  lemma ExtendedCode(d: Draft, f: Field, limit: nat)
    ensures d.code != DONE ==> Extended(d, f, limit) == d
  {
  }

  lemma ExtendedMeans(d: Draft, fs: seq<Field>, f: Field, limit: nat)
    requires limit <= MAX_POINTER && d.code == DONE && Sound(d.bytes, d.table, fs) && (f.Bytes? || WellFormed(f.name))
    ensures var e := Extended(d, f, limit); e.code == DONE ==> Sound(e.bytes, e.table, fs + [f])
  {
    hide Code, WellFormed, Written, FieldsAt, TableMeans, Labels;
    match f
    case Bytes(b) => SoundBytes(d.bytes, d.table, fs, b);
    case NameField(n) =>
      CodeMeans(d.table, d.bytes, n, limit);
      var e := Code(d.table, |d.bytes|, n, limit);
      if e.code == DONE { SoundName(d.bytes, d.table, fs, n, e.table, d.bytes + e.bytes); }
    case SizedName(n) =>
      var e := Code(d.table, |d.bytes| + 2, n, limit);
      var p := d.bytes + U16(|e.bytes|);
      TableGrows(d.table, d.bytes, p);
      CodeMeans(d.table, p, n, limit);
      if e.code == DONE {
        WrittenSize(n, d.table, p, e.table, e.bytes);
        SoundSized(d.bytes, d.table, fs, n, e.table, p + e.bytes);
      }
  }

  lemma WrittenSize(n: seq<byte>, v: seq<Entry>, p: seq<byte>, w: seq<Entry>, bytes: seq<byte>)
    requires Written(Job(n, v, p), w, p + bytes)
    ensures |bytes| == Size(v, n)
  {
  }

  // ---- Which messages can be encoded, and in how many bytes

  /** As much room as a field can take. */
  function Room(f: Field): nat {
    match f
    case Bytes(b) => |b|
    case NameField(n) => |n| + 2
    case SizedName(n) => |n| + 4
  }

  /** The encoding of fields when there is room for all of them. */
  function Planned(fs: seq<Field>): Draft {
    if fs == [] then NOTHING
    else
      var d, f := Planned(fs[..|fs| - 1]), fs[|fs| - 1];
      Extended(d, f, |d.bytes| + Room(f))
  }

  /** A name that fits into 255 bytes, and whose labels that are not already in the message fit into 63. */
  ghost predicate NameOk(v: seq<Entry>, f: Field) {
    f.Bytes? || (|f.name| <= MAX_NAME && LongLabel(v, f.name) < 0)
  }

  ghost predicate Encodable(fs: seq<Field>) {
    forall i :: 0 <= i < |fs| ==> NameOk(Planned(fs[..i]).table, fs[i])
  }

  lemma ExtendedRoom(d: Draft, f: Field, limit: nat)
    requires d.code == DONE && IsCString(f) && |d.bytes| + Room(f) <= limit
    ensures Extended(d, f, limit).code == DONE <==> NameOk(d.table, f)
  {
    hide Code, Overruns, Size, LongLabel, U16, EndsUnchecked;
    if !f.Bytes? {
      CodeExact(d.table, if f.SizedName? then |d.bytes| + 2 else |d.bytes|, f.name, limit);
      SizeShrinks(d.table, f.name);
    }
  }

  lemma {:induction false} PlannedExact(fs: seq<Field>)
    requires AllC(fs)
    ensures Planned(fs).code == DONE <==> Encodable(fs)
  {
    hide Extended, NameOk, Encodable;
    if fs == [] {
      NothingEncodable();
    } else {
      var n := |fs| - 1;
      var d := Planned(fs[..n]);
      PlannedExact(fs[..n]);
      EncodableLast(fs);
      ExtendedCode(d, fs[n], |d.bytes| + Room(fs[n]));
      if d.code == DONE {
        ExtendedRoom(d, fs[n], |d.bytes| + Room(fs[n]));
      }
    }
  }

  lemma NothingEncodable()
    ensures Encodable([])
  {
  }

  lemma EncodableLast(fs: seq<Field>)
    requires fs != []
    ensures var n := |fs| - 1; Encodable(fs) <==> Encodable(fs[..n]) && NameOk(Planned(fs[..n]).table, fs[n])
  {
    hide Planned, NameOk;
    var n := |fs| - 1;
    assert forall i :: 0 <= i < n ==> fs[..n][..i] == fs[..i] && fs[..n][i] == fs[i];
  }

  /** One more field in a smaller buffer. */
  lemma ExtendedSame(d: Draft, f: Field, limit: nat)
    requires d.code == DONE && IsCString(f)
    ensures var e, g := Extended(d, f, |d.bytes| + Room(f)), Extended(d, f, limit);
      && (g.code == DONE ==> g == e)
      && (e.code == DONE && |e.bytes| <= limit ==> g == e)
  {
    hide Code, Overruns, Size, LongLabel, U16, EndsUnchecked;
    if !f.Bytes? {
      var j := if f.SizedName? then |d.bytes| + 2 else |d.bytes|;
      var m := |d.bytes| + Room(f);
      CodeExact(d.table, j, f.name, m);
      CodeExact(d.table, j, f.name, limit);
      SizeShrinks(d.table, f.name);
      if Code(d.table, j, f.name, m).code == DONE == Code(d.table, j, f.name, limit).code {
        CodeSame(d.table, j, f.name, m, limit);
      }
    }
  }

  /** What a buffer has room for is encoded as it would be with any room. */
  lemma {:induction false} DraftedPlanned(fs: seq<Field>, limit: nat)
    requires AllC(fs)
    ensures Drafted(fs, limit).code == DONE ==> Drafted(fs, limit) == Planned(fs)
    ensures Planned(fs).code == DONE && |Planned(fs).bytes| <= limit ==> Drafted(fs, limit) == Planned(fs)
  {
    hide Extended;
    if fs != [] {
      var n := |fs| - 1;
      DraftedPlanned(fs[..n], limit);
      var d, p := Drafted(fs[..n], limit), Planned(fs[..n]);
      ExtendedCode(d, fs[n], limit);
      ExtendedCode(p, fs[n], |p.bytes| + Room(fs[n]));
      if p.code == DONE {
        ExtendedSame(p, fs[n], limit);
        ExtendedLonger(p, fs[n], |p.bytes| + Room(fs[n]));
      }
    }
  }

  lemma ExtendedLonger(d: Draft, f: Field, limit: nat)
    ensures d.bytes <= Extended(d, f, limit).bytes
  {
    hide Code, U16;
  }

  /** A message is complete within `most` bytes exactly when all its names can be encoded and they take no more. */
  lemma CompleteExact(fs: seq<Field>, most: nat, limit: nat)
    requires most <= limit && AllC(fs)
    ensures (Drafted(fs, limit).code == DONE && |Drafted(fs, limit).bytes| <= most)
      <==> Encodable(fs) && |Planned(fs).bytes| <= most
    ensures Encodable(fs) && |Planned(fs).bytes| <= most ==> Drafted(fs, limit) == Planned(fs)
  {
    hide Drafted, Planned, Encodable;
    PlannedExact(fs);
    DraftedPlanned(fs, limit);
  }
}
