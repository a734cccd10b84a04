/** Formatting the server's response to a DNS request. */
module DnsResponse {
  import opened Common
  import opened DnsEncode
  import opened DnsMessage

  const BUFFER: nat := 1500
  const LIMIT: nat := 512

  // ---- The buffer

  /** Memory with a message in the making in it. */
  function Laid(was: seq<byte>, d: Draft): (s: seq<byte>)
    requires Sane(d, BUFFER) && BUFFER < |was|
    ensures |s| == |was|
  {
    Pasted(Pasted(was, 0, d.bytes), |d.bytes| + 2, d.loose)
  }

  /** The buffer holds the encoding of the fields; `r` is its length, or why it has stopped. */
  ghost predicate Stand(buf: array<byte>, table: LabelTable, was: seq<byte>, fs: seq<Field>, r: int)
    reads buf, table, table.labels
  {
    var d := Drafted(fs, BUFFER);
    && AllC(fs) && Sane(d, BUFFER) && BUFFER < |was|
    && table.Valid() && buf[..] == Laid(was, d) && table.View() == d.table
    && r == if d.code == DONE then |d.bytes| else d.code
  }

  lemma LaidMore(was: seq<byte>, d: Draft, bytes: seq<byte>, e: Draft)
    requires BUFFER < |was| && Sane(d, BUFFER) && Sane(e, BUFFER) && d.code == DONE
    requires e.bytes == d.bytes + bytes && e.loose == []
    ensures Laid(was, e) == Pasted(Laid(was, d), |d.bytes|, bytes)
  {
    hide Pasted;
    StartsPasted(Pasted(was, 0, d.bytes), |d.bytes| + 2);
    StartsPasted(Pasted(was, 0, e.bytes), |e.bytes| + 2);
    PastedTwice(was, 0, d.bytes, bytes);
  }

  lemma LaidLoose(was: seq<byte>, d: Draft, e: Draft)
    requires BUFFER < |was| && Sane(d, BUFFER) && Sane(e, BUFFER) && d.code == DONE && e.bytes == d.bytes
    ensures Laid(was, e) == Pasted(Laid(was, d), |d.bytes| + 2, e.loose)
  {
    hide Pasted;
    StartsPasted(Pasted(was, 0, d.bytes), |d.bytes| + 2);
  }

  /** One of the append macros, or a copy of raw data. */
  method AddBytes(buf: array<byte>, j: nat, bytes: seq<byte>, ghost table: LabelTable, ghost was: seq<byte>,
                  ghost fs: seq<Field>)
    returns (r: int)
    requires Stand(buf, table, was, fs, j)
    modifies buf
    ensures Stand(buf, table, was, fs + [Bytes(bytes)], r)
  {
    hide Laid, Drafted;
    ghost var d, f := Drafted(fs, BUFFER), Bytes(bytes);
    DraftedPush(fs, f, BUFFER);
    ExtendedSane(d, f, BUFFER);
    if j + |bytes| > BUFFER {
      LaidLoose(was, d, Extended(d, f, BUFFER));
      StartsPasted(buf[..], j + 2);
      return TOO_LONG;
    }
    LaidMore(was, d, bytes, Extended(d, f, BUFFER));
    r := Put(buf, j, bytes);
  }

  /** A name; when it cannot be completed, the labels that were written stay behind the message. */
  method AddName(buf: array<byte>, j: nat, name: seq<byte>, table: LabelTable, ghost was: seq<byte>,
                 ghost fs: seq<Field>)
    returns (r: int)
    requires Stand(buf, table, was, fs, j) && 0 !in name
    modifies buf, table, table.labels
    ensures Stand(buf, table, was, fs + [NameField(name)], r)
  {
    hide Laid, Drafted, Code, Overruns;
    ghost var d, f := Drafted(fs, BUFFER), NameField(name);
    DraftedPush(fs, f, BUFFER);
    ExtendedSane(d, f, BUFFER);
    LaidMore(was, d, Code(d.table, j, name, BUFFER).bytes, Extended(d, f, BUFFER));
    r := NameToLabels(buf, BUFFER, j, name, table);
  }

  /** A name after the number of its bytes: two bytes are left out, and filled in when the name is there. */
  method AddSizedName(buf: array<byte>, j: nat, name: seq<byte>, table: LabelTable, ghost was: seq<byte>,
                      ghost fs: seq<Field>)
    returns (r: int)
    requires Stand(buf, table, was, fs, j) && 0 !in name
    modifies buf, table, table.labels
    ensures Stand(buf, table, was, fs + [SizedName(name)], r)
  {
    hide Laid, Drafted, Code, Overruns, Pasted;
    ghost var d, f, base := Drafted(fs, BUFFER), SizedName(name), buf[..];
    ghost var e := Code(d.table, j + 2, name, BUFFER);
    DraftedPush(fs, f, BUFFER);
    ExtendedSane(d, f, BUFFER);
    r := NameToLabels(buf, BUFFER, j + 2, name, table);
    if r < 0 {
      LaidLoose(was, d, Extended(d, f, BUFFER));
    } else {
      var size := U16(r - (j + 2));
      LaidMore(was, d, size + e.bytes, Extended(d, f, BUFFER));
      PastedFront(base, j, size, e.bytes);
      var next := Put(buf, j, size);
    }
  }

  lemma PastedFront(s: seq<byte>, at: nat, a: seq<byte>, b: seq<byte>)
    requires a != [] && at + |a| + |b| <= |s|
    ensures Pasted(Pasted(s, at + |a|, b), at, a) == Pasted(s, at, a + b)
  {
    if b == [] {
      assert a + b == a;
    } else {
      var t := Pasted(s, at + |a|, b);
      assert t[..at] == s[..at] && t[at + |a|..] == b + s[at + |a| + |b|..];
      assert s[..at] + (a + b) + s[at + |a| + |b|..] == s[..at] + a + (b + s[at + |a| + |b|..]);
    }
  }

  // ---- The sections

  lemma StoppedStand(buf: array<byte>, table: LabelTable, was: seq<byte>, fs: seq<Field>, more: seq<Field>, r: int)
    requires Stand(buf, table, was, fs, r) && r < 0 && AllC(more)
    ensures Stand(buf, table, was, fs + more, r)
  {
    hide Laid;
    Stopped(fs, more, BUFFER);
  }
  predicate ItemIsC(item: Item) {
    0 !in item.name && (item.data.NameData? ==> 0 !in item.data.name)
  }

  lemma ItemFieldsAre(item: Item)
    requires ItemIsC(item)
    ensures AllC(ItemFields(item))
  {
  }

  /** Writes one answer; a negative result when something does not fit. */
  method PutItem(buf: array<byte>, start: nat, item: Item, table: LabelTable, ghost was: seq<byte>,
                 ghost fs: seq<Field>)
    returns (r: int)
    requires Stand(buf, table, was, fs, start) && ItemIsC(item)
    modifies buf, table, table.labels
    ensures Stand(buf, table, was, fs + ItemFields(item), r)
  {
    hide Stand, IsCString;
    ghost var all := ItemFields(item);
    ItemFieldsAre(item);
    r := AddName(buf, start, item.name, table, was, fs);
    assert fs + [all[0]] == fs + all[..1];
    assert fs + all[..1] + all[1..] == fs + all;
    if r < 0 { StoppedStand(buf, table, was, fs + all[..1], all[1..], r); return; }
    r := AddBytes(buf, r, U16(item.rtype), table, was, fs + all[..1]);
    assert fs + all[..1] + [all[1]] == fs + all[..2];
    assert fs + all[..2] + all[2..] == fs + all;
    if r < 0 { StoppedStand(buf, table, was, fs + all[..2], all[2..], r); return; }
    r := AddBytes(buf, r, U16(item.rclass), table, was, fs + all[..2]);
    assert fs + all[..2] + [all[2]] == fs + all[..3];
    assert fs + all[..3] + all[3..] == fs + all;
    if r < 0 { StoppedStand(buf, table, was, fs + all[..3], all[3..], r); return; }
    r := AddBytes(buf, r, U32(item.ttl), table, was, fs + all[..3]);
    assert fs + all[..3] + [all[3]] == fs + all[..4];
    assert fs + all[..4] + all[4..] == fs + all;
    if r < 0 { StoppedStand(buf, table, was, fs + all[..4], all[4..], r); return; }
    r := PutData(buf, r, item, table, was, fs + all[..4]);
  }

  method PutData(buf: array<byte>, start: nat, item: Item, table: LabelTable, ghost was: seq<byte>,
                 ghost fs: seq<Field>)
    returns (r: int)
    requires Stand(buf, table, was, fs, start) && ItemIsC(item)
    modifies buf, table, table.labels
    ensures Stand(buf, table, was, fs + ItemFields(item)[4..], r)
  {
    hide Stand, IsCString;
    ghost var all := ItemFields(item)[4..];
    match item.data {
      case NameData(name) =>
        assert all == [SizedName(name)];
        r := AddSizedName(buf, start, name, table, was, fs);
      case RawData(bytes) =>
        assert all == [Bytes(U16(|bytes|)), Bytes(bytes)];
        r := AddBytes(buf, start, U16(|bytes|), table, was, fs);
        assert fs + [all[0]] + [all[1]] == fs + all;
        if r < 0 { RawIsC(buf, table, was, fs + [all[0]], bytes, r); return; }
        r := AddBytes(buf, r, bytes, table, was, fs + [all[0]]);
    }
  }

  lemma RawIsC(buf: array<byte>, table: LabelTable, was: seq<byte>, fs: seq<Field>, bytes: seq<byte>, r: int)
    requires Stand(buf, table, was, fs, r) && r < 0
    ensures Stand(buf, table, was, fs + [Bytes(bytes)], r)
  {
    hide Stand;
    StoppedStand(buf, table, was, fs, [Bytes(bytes)], r);
  }

  lemma PartsStep(fs: seq<Field>, parts: seq<seq<Field>>, k: nat)
    requires k < |parts|
    ensures fs + Concat(parts[..k + 1]) == fs + Concat(parts[..k]) + parts[k]
  {
    assert parts[..k + 1] == parts[..k] + [parts[k]];
    ConcatPush(parts[..k], parts[k]);
  }

  lemma ConcatPush(parts: seq<seq<Field>>, part: seq<Field>)
    ensures Concat(parts + [part]) == Concat(parts) + part
  {
    assert (parts + [part])[..|parts|] == parts;
  }

  /** The fields of the other parts, when it has stopped with the k-th. */
  lemma StoppedParts(buf: array<byte>, table: LabelTable, was: seq<byte>, fs: seq<Field>, parts: seq<seq<Field>>,
                     k: nat, r: int)
    requires k <= |parts| && Stand(buf, table, was, fs + Concat(parts[..k]), r) && r < 0
    requires forall m, i :: 0 <= m < |parts| && 0 <= i < |parts[m]| ==> IsCString(parts[m][i])
    ensures Stand(buf, table, was, fs + Concat(parts), r)
  {
    hide Stand, IsCString;
    var more := ConcatPrefix(parts, k);
    assert fs + Concat(parts[..k]) + more == fs + Concat(parts);
    StoppedStand(buf, table, was, fs + Concat(parts[..k]), more, r);
  }

  lemma {:induction false} ConcatPrefix(parts: seq<seq<Field>>, k: nat) returns (more: seq<Field>)
    requires k <= |parts|
    requires forall m, i :: 0 <= m < |parts| && 0 <= i < |parts[m]| ==> IsCString(parts[m][i])
    ensures Concat(parts) == Concat(parts[..k]) + more && AllC(more)
    decreases |parts|
  {
    hide IsCString;
    if k == |parts| {
      assert parts[..k] == parts;
      more := [];
    } else {
      var last := |parts| - 1;
      more := ConcatPrefix(parts[..last], k);
      assert parts[..last][..k] == parts[..k] && parts == parts[..last] + [parts[last]];
      ConcatPush(parts[..last], parts[last]);
      more := more + parts[last];
    }
  }

  /** Writes the answers of one section. */
  method PutItems(buf: array<byte>, start: nat, items: seq<Item>, table: LabelTable, ghost was: seq<byte>,
                  ghost fs: seq<Field>)
    returns (r: int)
    requires Stand(buf, table, was, fs, start) && forall i :: 0 <= i < |items| ==> ItemIsC(items[i])
    modifies buf, table, table.labels
    ensures Stand(buf, table, was, fs + Concat(ItemParts(items)), r)
  {
    hide Stand, ItemIsC, ItemFields, IsCString;
    r := start;
    ghost var parts := ItemParts(items);
    assert fs + Concat(parts[..0]) == fs;
    for k := 0 to |items|
      invariant r >= 0 && Stand(buf, table, was, fs + Concat(parts[..k]), r)
    {
      PartsStep(fs, parts, k);
      r := PutItem(buf, r, items[k], table, was, fs + Concat(parts[..k]));
      if r < 0 {
        ItemPartsAre(items);
        StoppedParts(buf, table, was, fs, parts, k + 1, r);
        return;
      }
    }
    assert parts[..|items|] == parts;
  }

  lemma ItemPartsAre(items: seq<Item>)
    requires forall i :: 0 <= i < |items| ==> ItemIsC(items[i])
    ensures forall m, i :: 0 <= m < |items| && 0 <= i < |ItemParts(items)[m]| ==> IsCString(ItemParts(items)[m][i])
  {
    hide ItemIsC, IsCString;
    forall m | 0 <= m < |items| ensures AllC(ItemParts(items)[m]) {
      ItemFieldsAre(items[m]);
    }
  }

  /** The field that could not be completed, if there is one, is a name. */
  ghost predicate NameStops(fs: seq<Field>) {
    Drafted(fs, BUFFER).done < |fs| && fs[Drafted(fs, BUFFER).done].NameField?
  }

  lemma NameStopsStill(fs: seq<Field>, more: seq<Field>)
    requires Drafted(fs, BUFFER).code != DONE && AllC(fs)
    ensures NameStops(fs) <==> NameStops(fs + more)
  {
    hide Drafted;
    Stopped(fs, more, BUFFER);
    DraftedSane(fs, BUFFER);
  }

  /** What has stopped at a field has stopped because of that field. */
  lemma StopsWith(fs: seq<Field>, f: Field, more: seq<Field>)
    requires Drafted(fs, BUFFER).code == DONE && Drafted(fs + [f], BUFFER).code != DONE
    requires AllC(fs) && IsCString(f)
    ensures NameStops(fs + [f] + more) <==> f.NameField?
  {
    hide Drafted;
    Stopped(fs + [f], more, BUFFER);
    DraftedSane(fs, BUFFER);
    DraftedSane(fs + [f], BUFFER);
    DraftedPush(fs, f, BUFFER);
  }

  lemma StandCode(buf: array<byte>, table: LabelTable, was: seq<byte>, fs: seq<Field>, r: int)
    requires Stand(buf, table, was, fs, r)
    ensures (r >= 0 <==> Drafted(fs, BUFFER).code == DONE) && r <= BUFFER + 1
    ensures AllC(fs)
  {
    hide Laid, Drafted;
  }

  lemma QuestionIsC(q: Question)
    requires 0 !in q.name
    ensures AllC(QuestionFields(q))
  {
  }

  /** Writes one question; `named` says that it was the name that did not fit. */
  method PutQuestion(buf: array<byte>, start: nat, q: Question, table: LabelTable, ghost was: seq<byte>,
                     ghost fs: seq<Field>)
    returns (r: int, named: bool)
    requires Stand(buf, table, was, fs, start) && 0 !in q.name
    modifies buf, table, table.labels
    ensures Stand(buf, table, was, fs + QuestionFields(q), r)
    ensures named == (r < 0 && NameStops(fs + QuestionFields(q)))
  {
    hide Stand, IsCString, NameStops, Drafted;
    ghost var all := QuestionFields(q);
    QuestionIsC(q);
    StandCode(buf, table, was, fs, start);
    r := AddName(buf, start, q.name, table, was, fs);
    named := r < 0;
    assert fs + [all[0]] == fs + all[..1] && fs + all[..1] + all[1..] == fs + all;
    StandCode(buf, table, was, fs + all[..1], r);
    if r < 0 {
      StoppedStand(buf, table, was, fs + all[..1], all[1..], r);
      StopsWith(fs, all[0], all[1..]);
      return;
    }
    r := AddBytes(buf, r, U16(q.qtype), table, was, fs + all[..1]);
    assert fs + all[..1] + [all[1]] == fs + all[..2] && fs + all[..2] + all[2..] == fs + all;
    StandCode(buf, table, was, fs + all[..2], r);
    if r < 0 {
      StoppedStand(buf, table, was, fs + all[..2], all[2..], r);
      StopsWith(fs + all[..1], all[1], all[2..]);
      return;
    }
    r := AddBytes(buf, r, U16(q.qclass), table, was, fs + all[..2]);
    assert fs + all[..2] + [all[2]] == fs + all && fs + all + [] == fs + all;
    StandCode(buf, table, was, fs + all, r);
    if r < 0 { StopsWith(fs + all[..2], all[2], []); }
  }

  method PutQuestions(buf: array<byte>, start: nat, qs: seq<Question>, table: LabelTable, ghost was: seq<byte>,
                      ghost fs: seq<Field>)
    returns (r: int, named: bool)
    requires Stand(buf, table, was, fs, start) && forall i :: 0 <= i < |qs| ==> 0 !in qs[i].name
    modifies buf, table, table.labels
    ensures Stand(buf, table, was, fs + Concat(QuestionParts(qs)), r)
    ensures named == (r < 0 && NameStops(fs + Concat(QuestionParts(qs))))
  {
    hide Stand, QuestionFields, IsCString, NameStops, Drafted;
    r, named := start, false;
    ghost var parts := QuestionParts(qs);
    assert fs + Concat(parts[..0]) == fs;
    for k := 0 to |qs|
      invariant r >= 0 && !named && Stand(buf, table, was, fs + Concat(parts[..k]), r)
    {
      PartsStep(fs, parts, k);
      r, named := PutQuestion(buf, r, qs[k], table, was, fs + Concat(parts[..k]));
      if r < 0 {
        QuestionPartsAre(qs);
        StandCode(buf, table, was, fs + Concat(parts[..k + 1]), r);
        StoppedParts(buf, table, was, fs, parts, k + 1, r);
        StopsStill(fs, parts, k + 1);
        return;
      }
    }
    assert parts[..|qs|] == parts;
  }

  lemma QuestionPartsAre(qs: seq<Question>)
    requires forall i :: 0 <= i < |qs| ==> 0 !in qs[i].name
    ensures forall m, i :: 0 <= m < |qs| && 0 <= i < |QuestionParts(qs)[m]| ==> IsCString(QuestionParts(qs)[m][i])
  {
    forall m | 0 <= m < |qs|
      ensures AllC(QuestionParts(qs)[m])
    {
      QuestionIsC(qs[m]);
    }
  }

  lemma StopsStill(fs: seq<Field>, parts: seq<seq<Field>>, k: nat)
    requires k <= |parts| && Drafted(fs + Concat(parts[..k]), BUFFER).code != DONE
    requires forall m, i :: 0 <= m < |parts| && 0 <= i < |parts[m]| ==> IsCString(parts[m][i])
    requires AllC(fs + Concat(parts[..k]))
    ensures NameStops(fs + Concat(parts)) <==> NameStops(fs + Concat(parts[..k]))
  {
    hide Drafted, IsCString, NameStops;
    var more := ConcatPrefix(parts, k);
    assert fs + Concat(parts[..k]) + more == fs + Concat(parts);
    NameStopsStill(fs + Concat(parts[..k]), more);
  }

  // ---- The whole response

  predicate RequestIsC(req: Request) {
    && (forall i :: 0 <= i < |req.questions| ==> 0 !in req.questions[i].name)
    && (forall i :: 0 <= i < |req.answers| ==> ItemIsC(req.answers[i]))
    && (forall i :: 0 <= i < |req.authority| ==> ItemIsC(req.authority[i]))
    && (forall i :: 0 <= i < |req.additional| ==> ItemIsC(req.additional[i]))
  }

  /** The header and the questions. */
  function FirstFields(req: Request, err: nat): seq<Field>
    requires err < 16
  {
    [Bytes(HeaderBytes(req, err))] + Concat(QuestionParts(req.questions))
  }

  /** Everything that is written before the length is looked at. */
  method PutAll(buf: array<byte>, req: Request, err: nat) returns (r: int, named: bool, ghost table: LabelTable)
    requires RequestIsC(req) && err < 16 && BUFFER < buf.Length
    modifies buf
    ensures Stand(buf, table, old(buf[..]), ResponseFields(req, err), r)
    ensures named == (r < 0 && NameStops(FirstFields(req, err)) && Drafted(FirstFields(req, err), BUFFER).code != DONE)
  {
    hide Stand, HeaderBytes, AllC, NameStops, Drafted, ItemIsC, Concat;
    var labels := new LabelTable();
    table := labels;
    ghost var was, h := buf[..], [Bytes(HeaderBytes(req, err))];
    ghost var q, an := Concat(QuestionParts(req.questions)), Concat(ItemParts(req.answers));
    ghost var au, ad := Concat(ItemParts(req.authority)), Concat(ItemParts(req.additional));
    StandStarts(buf, table);
    r := AddBytes(buf, 0, HeaderBytes(req, err), table, was, []);
    assert [] + h == h;
    HeaderStands(buf, table, was, req, err, r);
    r, named := PutQuestions(buf, r, req.questions, labels, was, h);
    StandCode(buf, table, was, h + q, r);
    assert h + q + an + au + ad == h + q + (an + au + ad) == h + q + an + (au + ad) == h + q + an + au + ad;
    ItemsAre(req);
    if r < 0 { StoppedStand(buf, table, was, h + q, an + au + ad, r); return; }
    r := PutItems(buf, r, req.answers, labels, was, h + q);
    if r < 0 { StoppedStand(buf, table, was, h + q + an, au + ad, r); return; }
    r := PutItems(buf, r, req.authority, labels, was, h + q + an);
    if r < 0 { StoppedStand(buf, table, was, h + q + an + au, ad, r); return; }
    r := PutItems(buf, r, req.additional, labels, was, h + q + an + au);
  }

  lemma StandStarts(buf: array<byte>, table: LabelTable)
    requires table.Valid() && table.View() == [] && BUFFER < buf.Length
    ensures Stand(buf, table, buf[..], [], 0)
  {
    StartsPasted(buf[..], 0);
    StartsPasted(buf[..], 2);
  }

  lemma HeaderStands(buf: array<byte>, table: LabelTable, was: seq<byte>, req: Request, err: nat, r: int)
    requires err < 16 && Stand(buf, table, was, [Bytes(HeaderBytes(req, err))], r)
    ensures r == 12
  {
    hide Laid, HeaderBytes;
    var h := [Bytes(HeaderBytes(req, err))];
    assert [] + h == h;
    DraftedPush([], h[0], BUFFER);
  }

  lemma ItemsAre(req: Request)
    requires RequestIsC(req)
    ensures var an, au := Concat(ItemParts(req.answers)), Concat(ItemParts(req.authority));
      var ad := Concat(ItemParts(req.additional));
      && AllC(an + au + ad)
      && AllC(au + ad)
      && AllC(ad)
  {
    hide ItemIsC, IsCString, ItemFields;
    SectionIs(req.answers);
    SectionIs(req.authority);
    SectionIs(req.additional);
  }

  lemma SectionIs(items: seq<Item>)
    requires forall i :: 0 <= i < |items| ==> ItemIsC(items[i])
    ensures AllC(Concat(ItemParts(items)))
  {
    hide ItemIsC, IsCString, ItemFields;
    ItemPartsAre(items);
    var parts := ItemParts(items);
    var more := ConcatPrefix(parts, 0);
    assert Concat(parts[..0]) == [] && Concat(parts) == [] + more;
  }

  datatype Reply = Failed(code: int) | Full(bytes: seq<byte>) | Truncated(bytes: seq<byte>)

  /** The byte with the truncation bit set. */
  function WithTruncation(b: byte): (c: byte)
    ensures c / 2 % 2 == 1 && c / 4 == b / 4 && c % 2 == b % 2
  {
    if b / 2 % 2 == 1 then b else b + 2
  }

  /** The response in a buffer with these contents: an error code when a question's name cannot be encoded, the whole
      message when it is complete and takes at most 512 bytes, and otherwise 512 bytes of the buffer. */
  ghost function Response(req: Request, err: int, was: seq<byte>): Reply
    requires RequestIsC(req) && BUFFER < |was|
  {
    if err < 0 || err > 15 then Reply.Failed(-1)
    else
      ResponseIsC(req, err);
      var fs := ResponseFields(req, err);
      var d := Drafted(fs, BUFFER);
      DraftedSane(fs, BUFFER);
      if NameFails(req, err) then Reply.Failed(d.code)
      else if d.code == DONE && |d.bytes| <= LIMIT then Full(d.bytes)
      else Truncated(Laid(was, d)[..LIMIT][2 := WithTruncation(Laid(was, d)[2])])
  }

  /** The name of a question cannot be encoded. */
  ghost predicate NameFails(req: Request, err: nat)
    requires err < 16
  {
    Drafted(FirstFields(req, err), BUFFER).code != DONE && NameStops(FirstFields(req, err))
  }

  lemma ResponseIsC(req: Request, err: nat)
    requires RequestIsC(req) && err < 16
    ensures AllC(ResponseFields(req, err)) && AllC(FirstFields(req, err))
  {
    hide HeaderBytes, ItemIsC, AllC, IsCString;
    ItemsAre(req);
    QuestionsAre(req.questions);
    var h, q := [Bytes(HeaderBytes(req, err))], Concat(QuestionParts(req.questions));
    var an, au := Concat(ItemParts(req.answers)), Concat(ItemParts(req.authority));
    var ad := Concat(ItemParts(req.additional));
    HeaderIs(h);
    AllCBoth(h, q);
    AllCBoth(h + q, an + au + ad);
    assert ResponseFields(req, err) == h + q + (an + au + ad);
  }

  lemma HeaderIs(h: seq<Field>)
    requires |h| == 1 && h[0].Bytes?
    ensures AllC(h)
  {
  }

  lemma AllCBoth(a: seq<Field>, b: seq<Field>)
    requires AllC(a) && AllC(b)
    ensures AllC(a + b)
  {
  }

  lemma QuestionsAre(qs: seq<Question>)
    requires forall i :: 0 <= i < |qs| ==> 0 !in qs[i].name
    ensures AllC(Concat(QuestionParts(qs)))
  {
    hide IsCString;
    QuestionPartsAre(qs);
    var parts := QuestionParts(qs);
    var more := ConcatPrefix(parts, 0);
    assert Concat(parts[..0]) == [] && Concat(parts) == [] + more;
  }

  lemma LaidFront(was: seq<byte>, d: Draft, k: nat)
    requires Sane(d, BUFFER) && BUFFER < |was| && k <= |d.bytes|
    ensures Laid(was, d)[..k] == d.bytes[..k]
  {
  }

  /** When a question fails, so does the whole. */
  lemma FailsSame(req: Request, err: nat)
    requires err < 16
    ensures var d := Drafted(FirstFields(req, err), BUFFER);
      d.code != DONE ==> Drafted(ResponseFields(req, err), BUFFER) == d
  {
    hide Drafted, HeaderBytes;
    var an, au := Concat(ItemParts(req.answers)), Concat(ItemParts(req.authority));
    var ad := Concat(ItemParts(req.additional));
    assert ResponseFields(req, err) == FirstFields(req, err) + (an + au + ad);
    if Drafted(FirstFields(req, err), BUFFER).code != DONE {
      Stopped(FirstFields(req, err), an + au + ad, BUFFER);
    }
  }
}
