/** What the responses to DNS requests say, and when they are not what they should be. */
module DnsReplies {
  import opened Common
  import opened DnsNames
  import opened DnsEncode
  import opened DnsMessage
  import opened DnsResponse

  // ---- Complete responses

  /** The response is complete exactly when all its names can be encoded and they and the rest take at most 512 bytes;
      it is then their encoding, whatever the buffer held. */
  lemma CompleteResponse(req: Request, err: nat, was: seq<byte>)
    requires RequestIsC(req) && err < 16 && BUFFER < |was|
    ensures var r, fs := Response(req, err, was), ResponseFields(req, err);
      && (r.Full? <==> Encodable(fs) && |Planned(fs).bytes| <= LIMIT)
      && (r.Full? ==> r.bytes == Planned(fs).bytes)
  {
    hide Drafted, Planned, Encodable, Laid, ResponseFields, FirstFields, RequestIsC;
    ResponseIsC(req, err);
    FailsSame(req, err);
    CompleteExact(ResponseFields(req, err), LIMIT, BUFFER);
  }

  predicate ValidRequest(req: Request) {
    && (forall i :: 0 <= i < |req.questions| ==> WellFormed(req.questions[i].name))
    && GoodNames(req.answers) && GoodNames(req.authority) && GoodNames(req.additional)
  }

  predicate GoodNames(items: seq<Item>) {
    forall i :: 0 <= i < |items| ==>
      WellFormed(items[i].name) && (items[i].data.NameData? ==> WellFormed(items[i].data.name))
  }

  /** The message holds the fields of the response. */
  ghost predicate Holds(p: seq<byte>, req: Request, err: nat)
    requires err < 16
  {
    FieldsAt(p, 0, ResponseFields(req, err), |p|)
  }

  lemma ValidIsC(req: Request)
    requires ValidRequest(req)
    ensures RequestIsC(req)
  {
  }

  predicate AllWellFormed(fs: seq<Field>) {
    forall i :: 0 <= i < |fs| && !fs[i].Bytes? ==> WellFormed(fs[i].name)
  }

  lemma {:induction false} ConcatWellFormed(parts: seq<seq<Field>>)
    requires forall m :: 0 <= m < |parts| ==> AllWellFormed(parts[m])
    ensures AllWellFormed(Concat(parts))
  {
    hide WellFormed;
    if parts != [] {
      ConcatWellFormed(parts[..|parts| - 1]);
    }
  }

  lemma ItemsWellFormed(items: seq<Item>)
    requires GoodNames(items)
    ensures AllWellFormed(Concat(ItemParts(items)))
  {
    hide WellFormed;
    ConcatWellFormed(ItemParts(items));
  }

  lemma ResponseWellFormed(req: Request, err: nat)
    requires ValidRequest(req) && err < 16
    ensures AllWellFormed(ResponseFields(req, err))
  {
    hide WellFormed, HeaderBytes, Concat, GoodNames;
    ConcatWellFormed(QuestionParts(req.questions)) by { QuestionsWellFormed(req.questions); }
    ItemsWellFormed(req.answers);
    ItemsWellFormed(req.authority);
    ItemsWellFormed(req.additional);
  }

  lemma QuestionsWellFormed(qs: seq<Question>)
    requires forall i :: 0 <= i < |qs| ==> WellFormed(qs[i].name)
    ensures forall m :: 0 <= m < |qs| ==> AllWellFormed(QuestionParts(qs)[m])
  {
    hide WellFormed;
  }

  /** A complete response holds the request's questions and the answers, in order and with every name denoting what
      it was made from. */
  lemma FullHolds(req: Request, err: nat, was: seq<byte>)
    requires ValidRequest(req) && err < 16 && BUFFER < |was|
    ensures RequestIsC(req)
    ensures var r := Response(req, err, was); r.Full? ==> Holds(r.bytes, req, err)
  {
    ValidIsC(req);
    hide Laid, ResponseFields, Drafted, WellFormed;
    ResponseWellFormed(req, err);
    DraftedMeans(ResponseFields(req, err), BUFFER);
  }

  // ---- The bytes of complete responses

  /** Two bytes as a number, high byte first. */
  function Two(p: seq<byte>, pos: nat): nat
    requires pos + 2 <= |p|
  {
    p[pos] as nat * 256 + p[pos + 1] as nat
  }

  function Four(p: seq<byte>, pos: nat): nat
    requires pos + 4 <= |p|
  {
    Two(p, pos) * 0x1_0000 + Two(p, pos + 2)
  }

  /** The header: identifier, flags with the response bit and the error in the low four bits, and the counts. */
  ghost predicate HeaderAt(p: seq<byte>, req: Request, err: nat)
    requires err < 16
  {
    && |p| >= 12 && Two(p, 0) == req.id % 0x1_0000 && FlagsSay(Two(p, 2), req.flags, err)
    && Two(p, 4) == |req.questions| % 0x1_0000 && Two(p, 6) == |req.answers| % 0x1_0000
    && Two(p, 8) == |req.authority| % 0x1_0000 && Two(p, 10) == |req.additional| % 0x1_0000
  }

  /** A question: its name, its type and its class. */
  ghost predicate QuestionAt(p: seq<byte>, pos: nat, q: Question) {
    && Means(p, pos, q.name)
    && var k := End(p, pos);
    && k + 4 <= |p| && Two(p, k) == q.qtype % 0x1_0000 && Two(p, k + 2) == q.qclass % 0x1_0000
  }

  ghost function QuestionsEnd(p: seq<byte>, pos: nat, qs: seq<Question>): nat {
    if qs == [] then pos else End(p, QuestionsEnd(p, pos, qs[..|qs| - 1])) + 4
  }

  /** A record: its owner, type, class and time to live, and the length of its data before the data. */
  ghost predicate ItemAt(p: seq<byte>, pos: nat, i: Item) {
    && Means(p, pos, i.name)
    && var k, end := End(p, pos), ItemEnd(p, pos, i);
    && k + 10 <= end <= |p| && Two(p, k) == i.rtype % 0x1_0000 && Two(p, k + 2) == i.rclass % 0x1_0000
    && Four(p, k + 4) == i.ttl % 0x1_0000_0000 && Two(p, k + 8) == (end - (k + 10)) % 0x1_0000
    && match i.data
       case NameData(n) => Means(p, k + 10, n)
       case RawData(b) => p[k + 10..end] == b
  }

  ghost function ItemEnd(p: seq<byte>, pos: nat, i: Item): nat {
    match i.data
    case NameData(n) => End(p, End(p, pos) + 10)
    case RawData(b) => End(p, pos) + 10 + |b|
  }

  ghost function ItemsEnd(p: seq<byte>, pos: nat, items: seq<Item>): nat {
    if items == [] then pos else ItemEnd(p, ItemsEnd(p, pos, items[..|items| - 1]), items[|items| - 1])
  }

  ghost predicate QuestionsAt(p: seq<byte>, pos: nat, qs: seq<Question>) {
    forall i :: 0 <= i < |qs| ==> QuestionAt(p, QuestionsEnd(p, pos, qs[..i]), qs[i])
  }

  ghost predicate ItemsAt(p: seq<byte>, pos: nat, items: seq<Item>) {
    forall i :: 0 <= i < |items| ==> ItemAt(p, ItemsEnd(p, pos, items[..i]), items[i])
  }

  /** The header, then the questions and the three sections of records, one behind the other, and nothing else. */
  ghost predicate MessageAt(p: seq<byte>, req: Request, err: nat)
    requires err < 16
  {
    && HeaderAt(p, req, err)
    && var a := QuestionsEnd(p, 12, req.questions);
    var b := ItemsEnd(p, a, req.answers);
    var c := ItemsEnd(p, b, req.authority);
    && QuestionsAt(p, 12, req.questions) && ItemsAt(p, a, req.answers) && ItemsAt(p, b, req.authority)
    && ItemsAt(p, c, req.additional) && ItemsEnd(p, c, req.additional) == |p|
  }

  ghost function FieldsEnd(p: seq<byte>, pos: nat, fs: seq<Field>): nat
    decreases |fs|
  {
    if fs == [] then pos else FieldsEnd(p, Next(p, pos, fs[0]), fs[1..])
  }

  lemma {:induction false} FieldsSplit(p: seq<byte>, pos: nat, fs: seq<Field>, gs: seq<Field>, end: nat)
    requires FieldsAt(p, pos, fs + gs, end)
    ensures FieldsAt(p, pos, fs, FieldsEnd(p, pos, fs)) && FieldsAt(p, FieldsEnd(p, pos, fs), gs, end)
    decreases |fs|
  {
    hide FieldAt, Next;
    if fs == [] {
      assert fs + gs == gs;
    } else {
      assert (fs + gs)[0] == fs[0] && (fs + gs)[1..] == fs[1..] + gs;
      FieldsSplit(p, Next(p, pos, fs[0]), fs[1..], gs, end);
    }
  }

  lemma {:induction false} FieldsEndIs(p: seq<byte>, pos: nat, fs: seq<Field>, end: nat)
    requires FieldsAt(p, pos, fs, end)
    ensures end == FieldsEnd(p, pos, fs)
    decreases |fs|
  {
    hide FieldAt, Next;
    if fs != [] { FieldsEndIs(p, Next(p, pos, fs[0]), fs[1..], end); }
  }

  /** The first field, and the others behind it. */
  lemma FirstField(p: seq<byte>, pos: nat, fs: seq<Field>, end: nat)
    requires FieldsAt(p, pos, fs, end)
    ensures fs == [] ==> pos == end
    ensures fs != [] ==> FieldAt(p, pos, fs[0]) && FieldsAt(p, Next(p, pos, fs[0]), fs[1..], end)
  {
  }

  lemma BytesSay(p: seq<byte>, pos: nat, x: nat)
    ensures pos + 2 <= |p| && p[pos..pos + 2] == U16(x) ==> Two(p, pos) == x % 0x1_0000
    ensures pos + 4 <= |p| && p[pos..pos + 4] == U32(x) ==> Four(p, pos) == x % 0x1_0000_0000
  {
    if pos + 2 <= |p| && p[pos..pos + 2] == U16(x) {
      assert p[pos] == U16(x)[0] && p[pos + 1] == U16(x)[1];
      HighAndLow(x);
    }
    if pos + 4 <= |p| && p[pos..pos + 4] == U32(x) {
      var hi, lo := U16(x / 0x1_0000), U16(x);
      assert p[pos] == U32(x)[0] && p[pos + 1] == U32(x)[1] && p[pos + 2] == U32(x)[2] && p[pos + 3] == U32(x)[3];
      HighAndLow(x);
      HighAndLow(x / 0x1_0000);
    }
  }

  lemma HighAndLow(x: nat)
    ensures x / 256 % 256 * 256 + x % 256 == x % 0x1_0000
    ensures x / 0x1_0000 % 0x1_0000 * 0x1_0000 + x % 0x1_0000 == x % 0x1_0000_0000
  {
  }

  lemma QuestionSays(p: seq<byte>, pos: nat, q: Question, end: nat)
    requires FieldsAt(p, pos, QuestionFields(q), end)
    ensures QuestionAt(p, pos, q) && end == End(p, pos) + 4
  {
    hide Means, End, FieldsAt;
    var fs := QuestionFields(q);
    var k := End(p, pos);
    FirstField(p, pos, fs, end);
    FirstField(p, k, fs[1..], end);
    FirstField(p, k + 2, fs[1..][1..], end);
    FirstField(p, k + 4, fs[1..][1..][1..], end);
    BytesSay(p, k, q.qtype);
    BytesSay(p, k + 2, q.qclass);
  }

  lemma ItemSays(p: seq<byte>, pos: nat, i: Item, end: nat)
    requires FieldsAt(p, pos, ItemFields(i), end)
    ensures ItemAt(p, pos, i) && end == ItemEnd(p, pos, i)
  {
    hide Means, End, FieldsAt;
    var fs := ItemFields(i);
    var k := End(p, pos);
    FirstField(p, pos, fs, end);
    FirstField(p, k, fs[1..], end);
    FirstField(p, k + 2, fs[1..][1..], end);
    FirstField(p, k + 4, fs[1..][1..][1..], end);
    BytesSay(p, k, i.rtype);
    BytesSay(p, k + 2, i.rclass);
    BytesSay(p, k + 4, i.ttl);
    var rest := fs[1..][1..][1..][1..];
    DataSays(p, k + 8, i.data, rest, end);
  }

  /** The data of a record behind its length. */
  lemma DataSays(p: seq<byte>, pos: nat, d: Data, rest: seq<Field>, end: nat)
    requires FieldsAt(p, pos, rest, end)
    requires rest == match d case NameData(n) => [SizedName(n)] case RawData(b) => [Bytes(U16(|b|)), Bytes(b)]
    ensures pos + 2 <= end <= |p| && Two(p, pos) == (end - (pos + 2)) % 0x1_0000
    ensures match d
            case NameData(n) => Means(p, pos + 2, n) && end == End(p, pos + 2)
            case RawData(b) => end == pos + 2 + |b| && p[pos + 2..end] == b
  {
    hide Means, End, FieldsAt;
    FirstField(p, pos, rest, end);
    match d
    case NameData(n) =>
      FirstField(p, End(p, pos + 2), rest[1..], end);
      BytesSay(p, pos, end - (pos + 2));
      EndInside(p, pos + 2, n);
    case RawData(b) =>
      FirstField(p, pos + 2, rest[1..], end);
      FirstField(p, pos + 2 + |b|, rest[1..][1..], end);
      BytesSay(p, pos, |b|);
  }

  lemma EndInside(p: seq<byte>, pos: nat, n: seq<byte>)
    requires Means(p, pos, n)
    ensures End(p, pos) <= |p|
  {
    MeansGrows(p, p, pos, n);
  }

  lemma {:induction false} QuestionsSay(p: seq<byte>, pos: nat, qs: seq<Question>, end: nat)
    requires FieldsAt(p, pos, Concat(QuestionParts(qs)), end)
    ensures QuestionsAt(p, pos, qs) && end == QuestionsEnd(p, pos, qs)
  {
    hide QuestionFields, QuestionAt, FieldsAt, End;
    if qs == [] {
      FirstField(p, pos, [], end);
    } else {
      var n := |qs| - 1;
      var parts := QuestionParts(qs);
      assert parts[..n] == QuestionParts(qs[..n]) && parts[n] == QuestionFields(qs[n]);
      var mid := FieldsEnd(p, pos, Concat(parts[..n]));
      FieldsSplit(p, pos, Concat(parts[..n]), parts[n], end);
      QuestionsSay(p, pos, qs[..n], mid);
      QuestionSays(p, mid, qs[n], end);
      forall i | 0 <= i < n ensures QuestionAt(p, QuestionsEnd(p, pos, qs[..i]), qs[i]) {
        assert qs[..n][..i] == qs[..i] && qs[..n][i] == qs[i];
      }
    }
  }

  lemma {:induction false} ItemsSay(p: seq<byte>, pos: nat, items: seq<Item>, end: nat)
    requires FieldsAt(p, pos, Concat(ItemParts(items)), end)
    ensures ItemsAt(p, pos, items) && end == ItemsEnd(p, pos, items)
  {
    hide ItemFields, ItemAt, ItemEnd, FieldsAt;
    if items == [] {
      FirstField(p, pos, [], end);
    } else {
      var n := |items| - 1;
      var parts := ItemParts(items);
      assert parts[..n] == ItemParts(items[..n]) && parts[n] == ItemFields(items[n]);
      var mid := FieldsEnd(p, pos, Concat(parts[..n]));
      FieldsSplit(p, pos, Concat(parts[..n]), parts[n], end);
      ItemsSay(p, pos, items[..n], mid);
      ItemSays(p, mid, items[n], end);
      forall i | 0 <= i < n ensures ItemAt(p, ItemsEnd(p, pos, items[..i]), items[i]) {
        assert items[..n][..i] == items[..i] && items[..n][i] == items[i];
      }
    }
  }

  lemma SixNumbers(p: seq<byte>, x0: nat, x1: nat, x2: nat, x3: nat, x4: nat, x5: nat)
    requires |p| >= 12 && p[..12] == U16(x0) + U16(x1) + U16(x2) + U16(x3) + U16(x4) + U16(x5)
    ensures Two(p, 0) == x0 % 0x1_0000 && Two(p, 2) == x1 % 0x1_0000 && Two(p, 4) == x2 % 0x1_0000
    ensures Two(p, 6) == x3 % 0x1_0000 && Two(p, 8) == x4 % 0x1_0000 && Two(p, 10) == x5 % 0x1_0000
  {
    SixParts(p, U16(x0), U16(x1), U16(x2), U16(x3), U16(x4), U16(x5));
    hide U16, Two;
    BytesSay(p, 0, x0);
    BytesSay(p, 2, x1);
    BytesSay(p, 4, x2);
    BytesSay(p, 6, x3);
    BytesSay(p, 8, x4);
    BytesSay(p, 10, x5);
  }

  lemma SixParts(p: seq<byte>, a: seq<byte>, b: seq<byte>, c: seq<byte>, d: seq<byte>, e: seq<byte>, f: seq<byte>)
    requires |a| == |b| == |c| == |d| == |e| == |f| == 2 && |p| >= 12 && p[..12] == a + b + c + d + e + f
    ensures p[0..2] == a && p[2..4] == b && p[4..6] == c && p[6..8] == d && p[8..10] == e && p[10..12] == f
  {
    assert forall i :: 0 <= i < 12 ==> p[i] == p[..12][i];
  }

  lemma HeaderSays(p: seq<byte>, req: Request, err: nat)
    requires err < 16 && |p| >= 12 && p[..12] == HeaderBytes(req, err)
    ensures HeaderAt(p, req, err)
  {
    hide U16, Two, FlagWord, FlagsSay;
    FlagWordSays(req.flags, err);
    SixNumbers(p, req.id, FlagWord(req.flags, err), |req.questions|, |req.answers|, |req.authority|, |req.additional|);
  }

  /** What holds the fields of a response is, byte by byte, the response. */
  lemma HoldsMessage(p: seq<byte>, req: Request, err: nat)
    requires err < 16 && Holds(p, req, err)
    ensures MessageAt(p, req, err)
  {
    hide FieldsAt, HeaderBytes, HeaderAt, QuestionsAt, ItemsAt, Concat;
    var h, q := [Bytes(HeaderBytes(req, err))], Concat(QuestionParts(req.questions));
    var an := Concat(ItemParts(req.answers));
    var au, ad := Concat(ItemParts(req.authority)), Concat(ItemParts(req.additional));
    assert ResponseFields(req, err) == h + (q + (an + (au + ad)));
    FirstField(p, 0, h + (q + (an + (au + ad))), |p|);
    assert (h + (q + (an + (au + ad))))[1..] == q + (an + (au + ad));
    assert p[..12] == p[0..12];
    HeaderSays(p, req, err);
    FieldsSplit(p, 12, q, an + (au + ad), |p|);
    var a := FieldsEnd(p, 12, q);
    QuestionsSay(p, 12, req.questions, a);
    FieldsSplit(p, a, an, au + ad, |p|);
    var b := FieldsEnd(p, a, an);
    ItemsSay(p, a, req.answers, b);
    FieldsSplit(p, b, au, ad, |p|);
    var c := FieldsEnd(p, b, au);
    ItemsSay(p, b, req.authority, c);
    ItemsSay(p, c, req.additional, |p|);
  }

  /** The header of any complete response, and all of one with well-formed names. */
  lemma FullMessage(req: Request, err: nat, was: seq<byte>)
    requires RequestIsC(req) && err < 16 && BUFFER < |was|
    ensures var r := Response(req, err, was);
      r.Full? ==> HeaderAt(r.bytes, req, err) && (ValidRequest(req) ==> MessageAt(r.bytes, req, err))
  {
    hide Laid, Drafted, WellFormed, HeaderBytes, HeaderAt, MessageAt, FieldsAt, RequestIsC, ValidRequest;
    var r := Response(req, err, was);
    if r.Full? {
      HeaderFirst(req, err);
      HeaderSays(r.bytes, req, err);
      if ValidRequest(req) {
        FullHolds(req, err, was);
        HoldsMessage(r.bytes, req, err);
      }
    }
  }

  lemma HeaderFirst(req: Request, err: nat)
    requires RequestIsC(req) && err < 16
    ensures var b := Drawn(req, err).bytes; |b| >= 12 && b[..12] == HeaderBytes(req, err)
  {
    hide HeaderBytes, Concat, Extended;
    ResponseIsC(req, err);
    var fs := ResponseFields(req, err);
    assert fs[..1] == [fs[0]];
    HeaderDraft(fs[0]);
    DraftedGrows(fs, 1);
  }

  /** Where the i-th field starts. */
  ghost function Start(p: seq<byte>, pos: nat, fs: seq<Field>, i: nat): nat
    requires i <= |fs|
    decreases i
  {
    if i == 0 then pos else Start(p, Next(p, pos, fs[0]), fs[1..], i - 1)
  }

  lemma {:induction false} FieldsHave(p: seq<byte>, pos: nat, fs: seq<Field>, end: nat, i: nat)
    requires FieldsAt(p, pos, fs, end) && i < |fs|
    ensures FieldAt(p, Start(p, pos, fs, i), fs[i])
    ensures Start(p, pos, fs, i + 1) == Next(p, Start(p, pos, fs, i), fs[i])
    decreases i
  {
    if i > 0 {
      FieldsHave(p, Next(p, pos, fs[0]), fs[1..], end, i - 1);
    }
  }

  /** Where the name of a field starts. */
  ghost function NameStart(p: seq<byte>, fs: seq<Field>, i: nat): nat
    requires i < |fs|
  {
    Start(p, 0, fs, i) + if fs[i].SizedName? then 2 else 0
  }

  /** Every name of a complete response, in a question, as an owner or in the data, parses back where it starts, and
      the next field starts where the parser stops; a name without a final dot comes back as it was. */
  lemma ResponseParsesBack(p: seq<byte>, req: Request, err: nat, i: nat, room: nat, r: ParseResult)
    requires err < 16 && Holds(p, req, err) && i < |ResponseFields(req, err)| && !ResponseFields(req, err)[i].Bytes?
    requires |Join(Labels(ResponseFields(req, err)[i].name))| < room
    requires IsParse(p, NameStart(p, ResponseFields(req, err), i), room, r)
    ensures var fs := ResponseFields(req, err);
      && r == Parsed(Join(Labels(fs[i].name)), Start(p, 0, fs, i + 1))
      && (WellFormed(fs[i].name) && (fs[i].name == [] || fs[i].name[|fs[i].name| - 1] != DOT) ==> r.name == fs[i].name)
  {
    hide ResponseFields, IsParse, Join, Labels, WellFormed;
    var fs := ResponseFields(req, err);
    FieldsHave(p, 0, fs, |p|, i);
    ParsesBack(p, NameStart(p, fs, i), fs[i].name, room, r);
  }

  /** `evdns_server_request_format_response`.  The buffer, which the source has on its stack, comes with what it
      holds.  The byte past its 1500 is here too, since a name may overrun them. */
  method FormatResponse(buf: array<byte>, req: Request, err: int) returns (reply: Reply)
    requires RequestIsC(req) && BUFFER < buf.Length
    modifies buf
    ensures reply == Response(req, err, old(buf[..]))
    ensures reply.Full? ==> 0 <= err < 16 && HeaderAt(reply.bytes, req, err)
    ensures reply.Full? && ValidRequest(req) ==> MessageAt(reply.bytes, req, err)
  {
    hide ResponseFields, FirstFields, NameStops, Drafted, Laid, RequestIsC, ValidRequest, HeaderAt, MessageAt;
    if err < 0 || err > 15 { return Reply.Failed(-1); }
    FullMessage(req, err, buf[..]);
    ghost var was := buf[..];
    var j, named, table := PutAll(buf, req, err);
    ghost var d := Drafted(ResponseFields(req, err), BUFFER);
    assert (j >= 0 <==> d.code == DONE) && buf[..] == Laid(was, d);
    FailsSame(req, err);
    if j < 0 && named { return Reply.Failed(j); }
    if j > LIMIT || j < 0 {
      ghost var all := buf[..];
      buf[2] := WithTruncation(buf[2]);
      reply := Truncated(buf[..LIMIT]);
      assert buf[..] == all[2 := WithTruncation(all[2])];
      assert reply.bytes == all[..LIMIT][2 := WithTruncation(all[2])];
    } else {
      reply := Full(buf[..j]);
      LaidFront(was, d, j);
    }
  }

  // ---- Truncated responses

  /** What has been written of the message when its length is looked at. */
  ghost function Drawn(req: Request, err: nat): Draft
    requires err < 16
  {
    Drafted(ResponseFields(req, err), BUFFER)
  }

  lemma DrawnSane(req: Request, err: nat)
    requires RequestIsC(req) && err < 16
    ensures Sane(Drawn(req, err), BUFFER) && |Drawn(req, err).bytes| >= 12
  {
    hide Drafted, HeaderBytes, AllC;
    ResponseIsC(req, err);
    DraftedSane(ResponseFields(req, err), BUFFER);
    HeaderDrawn(req, err);
  }

  lemma HeaderDrawn(req: Request, err: nat)
    requires RequestIsC(req) && err < 16
    ensures |Drawn(req, err).bytes| >= 12
  {
    hide HeaderBytes, Concat, Extended;
    ResponseIsC(req, err);
    var fs := ResponseFields(req, err);
    assert fs[..1] == [fs[0]];
    HeaderAlone(fs[0]);
    DraftedGrows(fs, 1);
  }

  lemma HeaderAlone(f: Field)
    requires f.Bytes? && |f.bytes| == 12
    ensures |Drafted([f], BUFFER).bytes| == 12
  {
    assert [f][..0] == [];
  }

  lemma {:induction false} DraftedGrows(fs: seq<Field>, k: nat)
    requires k <= |fs|
    ensures Drafted(fs[..k], BUFFER).bytes <= Drafted(fs, BUFFER).bytes
    decreases |fs|
  {
    hide Extended;
    if k == |fs| {
      assert fs[..k] == fs;
    } else {
      var n := |fs| - 1;
      assert fs[..n][..k] == fs[..k];
      DraftedGrows(fs[..n], k);
      ExtendedLonger(Drafted(fs[..n], BUFFER), fs[n], BUFFER);
    }
  }

  /** A truncated response whose message had reached 512 bytes is its first 512 bytes. */
  lemma TruncatedPrefix(req: Request, err: nat, was: seq<byte>)
    requires RequestIsC(req) && err < 16 && BUFFER < |was| && Response(req, err, was).Truncated?
    ensures var b := Drawn(req, err).bytes;
      |b| >= LIMIT ==> Response(req, err, was).bytes == b[..LIMIT][2 := WithTruncation(b[2])]
    ensures Drawn(req, err).code == DONE ==> |Drawn(req, err).bytes| > LIMIT
  {
    hide Drafted, ResponseFields, RequestIsC, NameFails, Laid;
    DrawnSane(req, err);
    var d := Drawn(req, err);
    if |d.bytes| >= LIMIT {
      LaidFront(was, d, LIMIT);
      LaidAt(was, d, 2);
    }
  }

  lemma LaidAt(was: seq<byte>, d: Draft, i: nat)
    requires Sane(d, BUFFER) && BUFFER < |was| && i < |was|
    ensures i < |d.bytes| ==> Laid(was, d)[i] == d.bytes[i]
    ensures |d.bytes| <= i < |d.bytes| + 2 ==> Laid(was, d)[i] == was[i]
  {
  }

  /** A truncated response is always the same exactly when the message had reached 512 bytes.  If not, bytes that were
      in the buffer before are sent. */
  lemma TruncatedExact(req: Request, err: nat, was: seq<byte>)
    requires RequestIsC(req) && err < 16 && BUFFER < |was| && Response(req, err, was).Truncated?
    ensures (forall now: seq<byte> :: |now| == |was| ==> Response(req, err, now) == Response(req, err, was))
      <==> |Drawn(req, err).bytes| >= LIMIT
  {
    hide Drafted, ResponseFields, RequestIsC, NameFails, Laid;
    DrawnSane(req, err);
    var d := Drawn(req, err);
    if |d.bytes| >= LIMIT {
      forall now: seq<byte> | |now| == |was| ensures Response(req, err, now) == Response(req, err, was) {
        TruncatedPrefix(req, err, was);
        TruncatedPrefix(req, err, now);
      }
    } else {
      var i := |d.bytes|;
      var now := was[i := if was[i] == 0 then 1 else 0];
      LaidAt(was, d, i);
      LaidAt(now, d, i);
      assert Response(req, err, now).bytes[i] == now[i] && Response(req, err, was).bytes[i] == was[i];
    }
  }

  /** A response without questions, and with one answer whose name is one long label. */
  function LongLabelRequest(): Request {
    Request(0, 0, [], [Item(seq(64, i => 97), 1, 1, 0, RawData([]))], [], [])
  }

  lemma LongLabelStops(v: seq<Entry>, j: nat, n: seq<byte>, limit: nat)
    requires |n| == 64 && FirstDot(n) == 64 && Find(v, n) < 0
    ensures Code(v, j, n, limit) == Coded(BAD_LABEL, [], v)
  {
    hide FirstDot;
    CodeStops(v, j, n, limit);
  }

  lemma {:induction false} NoDot(n: seq<byte>)
    requires DOT !in n
    ensures FirstDot(n) == |n|
  {
    if n != [] {
      NoDot(n[1..]);
    }
  }

  /** Its response is truncated after the header: the 500 bytes that follow are those that were in the buffer. */
  lemma LongLabelTruncates(was: seq<byte>)
    requires BUFFER < |was|
    ensures RequestIsC(LongLabelRequest())
    ensures var r := Response(LongLabelRequest(), 0, was);
      r.Truncated? && r.bytes[12..] == was[12..LIMIT] && |Drawn(LongLabelRequest(), 0).bytes| == 12
  {
    hide Extended, HeaderBytes, Laid, Code;
    var req := LongLabelRequest();
    var fs, h, f := ResponseFields(req, 0), Bytes(HeaderBytes(req, 0)), NameField(req.answers[0].name);
    LongLabelFields();
    NoDot(f.name);
    LongLabelStops([], 12, f.name, BUFFER);
    HeaderDraft(h);
    DraftedPush([h], f, BUFFER);
    NameDraft(h.bytes, f.name);
    assert [h] + [f] == fs[..2] && fs[..2] + fs[2..] == fs;
    Stopped(fs[..2], fs[2..], BUFFER);
    var d := Drawn(req, 0);
    assert d == Draft(BAD_LABEL, h.bytes, [], [], 1);
    LaidEnd(was, d);
  }

  lemma LongLabelFields()
    ensures var req := LongLabelRequest();
      && RequestIsC(req) && FirstFields(req, 0) == [Bytes(HeaderBytes(req, 0))]
      && |ResponseFields(req, 0)| > 2 && ResponseFields(req, 0)[0] == Bytes(HeaderBytes(req, 0))
      && ResponseFields(req, 0)[1] == NameField(req.answers[0].name)
  {
    hide HeaderBytes;
    var req := LongLabelRequest();
    var parts := ItemParts(req.answers);
    assert parts == [] + [ItemFields(req.answers[0])];
    ConcatPush([], ItemFields(req.answers[0]));
  }

  lemma HeaderDraft(h: Field)
    requires h.Bytes? && |h.bytes| == 12
    ensures Drafted([h], BUFFER) == Draft(DONE, h.bytes, [], [], 1)
  {
    assert [h][..0] == [] && [] + h.bytes == h.bytes;
  }

  lemma NameDraft(b: seq<byte>, n: seq<byte>)
    requires Code([], |b|, n, BUFFER) == Coded(BAD_LABEL, [], [])
    ensures Extended(Draft(DONE, b, [], [], 1), NameField(n), BUFFER) == Draft(BAD_LABEL, b, [], [], 1)
  {
  }

  lemma LaidEnd(was: seq<byte>, d: Draft)
    requires Sane(d, BUFFER) && BUFFER < |was| && d.loose == [] && |d.bytes| == 12
    ensures Laid(was, d)[12..] == was[12..]
  {
  }

  // ---- A name past the end of the buffer

  /** The byte past the buffer is written exactly when some name is completed there: when its labels end with the
      buffer and a zero is still to come. */
  lemma {:induction false} SpillsExact(fs: seq<Field>)
    requires AllC(fs)
    ensures |Drafted(fs, BUFFER).bytes| == BUFFER + 1 <==>
      exists i :: 0 <= i < |fs| && Spills(Drafted(fs[..i], BUFFER), fs[i], BUFFER)
  {
    hide Spills, Extended, IsCString;
    DraftedSane(fs, BUFFER);
    if fs != [] {
      var n := |fs| - 1;
      var d := Drafted(fs[..n], BUFFER);
      SpillsExact(fs[..n]);
      DraftedSane(fs[..n], BUFFER);
      ExtendedSane(d, fs[n], BUFFER);
      SpillsLast(fs);
      if |d.bytes| > BUFFER { NoSpillTwice(d, fs[n]); }
    }
  }

  lemma NoSpillTwice(d: Draft, f: Field)
    requires |d.bytes| > BUFFER && IsCString(f)
    ensures !Spills(d, f, BUFFER)
  {
    hide Size, LongLabel, EndsUnchecked;
    if Spills(d, f, BUFFER) {
      CheckedSome(d.table, f.name);
    }
  }

  lemma SpillsLast(fs: seq<Field>)
    requires fs != []
    ensures var n := |fs| - 1;
      (exists i :: 0 <= i < |fs| && Spills(Drafted(fs[..i], BUFFER), fs[i], BUFFER)) <==>
      (exists i :: 0 <= i < n && Spills(Drafted(fs[..n][..i], BUFFER), fs[..n][i], BUFFER))
      || Spills(Drafted(fs[..n], BUFFER), fs[n], BUFFER)
  {
    hide Spills, Drafted;
    var n := |fs| - 1;
    assert forall i :: 0 <= i < n ==> fs[..n][..i] == fs[..i] && fs[..n][i] == fs[i];
  }

  /** What is behind the buffer stays as it is exactly when no name was completed there. */
  lemma BehindBuffer(req: Request, err: nat, was: seq<byte>)
    requires RequestIsC(req) && err < 16 && BUFFER < |was|
    ensures Sane(Drawn(req, err), BUFFER)
    ensures var d := Drawn(req, err);
      if |d.bytes| > BUFFER
      then Laid(was, d)[BUFFER] == d.bytes[BUFFER] && Laid(was, d)[BUFFER + 1..] == was[BUFFER + 1..]
      else Laid(was, d)[BUFFER..] == was[BUFFER..]
  {
    hide Drafted, ResponseFields, RequestIsC;
    DrawnSane(req, err);
    LaidBehind(was, Drawn(req, err));
  }

  lemma LaidBehind(was: seq<byte>, d: Draft)
    requires Sane(d, BUFFER) && BUFFER < |was|
    ensures
      if |d.bytes| > BUFFER
      then Laid(was, d)[BUFFER] == d.bytes[BUFFER] && Laid(was, d)[BUFFER + 1..] == was[BUFFER + 1..]
      else Laid(was, d)[BUFFER..] == was[BUFFER..]
  {
  }

  /** A response with an answer that ends three bytes before the end of the buffer, and another one for "ab". */
  function OverrunRequest(): Request {
    Request(0, 0, [], [Item([], 1, 1, 0, RawData(seq(1474, i => 0))), Item([97, 98], 1, 1, 0, RawData([]))], [], [])
  }

  /** Its second name is completed with a zero in the byte behind the buffer. */
  lemma OverrunRequestSpills(was: seq<byte>)
    requires BUFFER < |was|
    ensures RequestIsC(OverrunRequest())
    ensures var d := Drawn(OverrunRequest(), 0);
      |d.bytes| == BUFFER + 1 && d.code != DONE && Sane(d, BUFFER) && Laid(was, d)[BUFFER] == 0
  {
    hide Extended, HeaderBytes, Laid, Drafted, ResponseFields;
    var req := OverrunRequest();
    var fs := ResponseFields(req, 0);
    OverrunFields();
    HeaderDraft(fs[0]);
    FirstAnswer(fs);
    NameStep(fs);
    assert fs[..9] + fs[9..] == fs;
    Stopped(fs[..9], fs[9..], BUFFER);
    BehindBuffer(req, 0, was);
  }

  lemma BytesStep(fs: seq<Field>, i: nat)
    requires i < |fs| && fs[i].Bytes? && Drafted(fs[..i], BUFFER).code == DONE
    ensures var d, n := Drafted(fs[..i], BUFFER), |fs[i].bytes|;
      Drafted(fs[..i + 1], BUFFER) == if |d.bytes| + n > BUFFER then d.(code := TOO_LONG)
        else d.(bytes := d.bytes + fs[i].bytes, done := d.done + 1)
  {
    hide Drafted;
    assert fs[..i] + [fs[i]] == fs[..i + 1];
    DraftedPush(fs[..i], fs[i], BUFFER);
  }

  lemma FirstAnswer(fs: seq<Field>)
    requires |fs| == 13 && fs[0].Bytes? && |fs[0].bytes| == 12 && fs[1] == NameField([])
    requires (forall i :: 2 <= i < 7 ==> fs[i].Bytes?) && |fs[6].bytes| == 1474
    requires |fs[2].bytes| == 2 && |fs[3].bytes| == 2 && |fs[4].bytes| == 4 && |fs[5].bytes| == 2
    ensures var d := Drafted(fs[..7], BUFFER); d.code == DONE && |d.bytes| == 1497 && d.table == [Entry([], 12)]
  {
    hide Drafted, Extended;
    assert fs[..1] == [fs[0]] && fs[..1] + [fs[1]] == fs[..2];
    HeaderDraft(fs[0]);
    DraftedPush(fs[..1], fs[1], BUFFER);
    RootName(fs[0].bytes);
    BytesStep(fs, 2);
    BytesStep(fs, 3);
    BytesStep(fs, 4);
    BytesStep(fs, 5);
    BytesStep(fs, 6);
  }

  lemma RootName(b: seq<byte>)
    requires |b| == 12
    ensures Extended(Draft(DONE, b, [], [], 1), NameField([]), BUFFER) == Draft(DONE, b + [0], [], [Entry([], 12)], 2)
  {
    CodeLabel([], 12, [], BUFFER);
    assert LabelBytes([], 0) == [0];
  }

  /** The name is complete, the buffer overrun, and the next field cannot be written. */
  lemma NameStep(fs: seq<Field>)
    requires |fs| == 13 && fs[7] == NameField([97, 98]) && fs[8].Bytes? && |fs[8].bytes| == 2
    requires var d := Drafted(fs[..7], BUFFER); d.code == DONE && |d.bytes| == 1497 && d.table == [Entry([], 12)]
    ensures var e := Drafted(fs[..9], BUFFER); e.code == TOO_LONG && |e.bytes| == BUFFER + 1 && e.bytes[BUFFER] == 0
  {
    hide Drafted, Extended;
    assert fs[..7] + [fs[7]] == fs[..8];
    DraftedPush(fs[..7], fs[7], BUFFER);
    TwoLetters(Drafted(fs[..7], BUFFER));
    BytesStep(fs, 8);
  }

  lemma OverrunFields()
    ensures var req := OverrunRequest();
      var fs := ResponseFields(req, 0);
      && RequestIsC(req) && |fs| == 13 && fs[0].Bytes? && |fs[0].bytes| == 12 && fs[1] == NameField([])
      && (forall i :: 2 <= i < 7 && i != 6 ==> fs[i].Bytes?) && fs[6] == Bytes(seq(1474, i => 0))
      && |fs[2].bytes| == 2 && |fs[3].bytes| == 2 && |fs[4].bytes| == 4 && |fs[5].bytes| == 2
      && fs[7] == NameField([97, 98]) && fs[8].Bytes? && |fs[8].bytes| == 2
  {
    hide HeaderBytes;
    var req := OverrunRequest();
    var parts := ItemParts(req.answers);
    var one, two := ItemFields(req.answers[0]), ItemFields(req.answers[1]);
    assert parts == [] + [one] + [two];
    ConcatPush([], one);
    ConcatPush([] + [one], two);
  }

  lemma TwoLetters(d: Draft)
    requires d.code == DONE && |d.bytes| == BUFFER - 3 && d.table == [Entry([], 12)]
    ensures var e := Extended(d, NameField([97, 98]), BUFFER); e.code == DONE && e.bytes == d.bytes + [2, 97, 98, 0]
  {
    var ab: seq<byte> := [97, 98];
    NoDot(ab);
    hide FirstDot;
    CodeLabel(d.table, |d.bytes|, ab, BUFFER);
    assert LabelBytes(ab, 2) == [2, 97, 98];
  }
}
