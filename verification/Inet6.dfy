/** `evutil_inet_ntop` and `evutil_inet_pton` for IPv6 addresses. */
module Inet6 {
  import opened Inet6Text
  import opened Inet6Short

  // ---- Printing

  /** Runs of zeros that begin before `i` end there, and the longest of them, the first of equals, is known. */
  ghost predicate LongestSoFar(ws: seq<nat>, i: int, pos: int, len: int) {
    && (if len == 0 then pos == -1 else pos >= 0 && pos + len <= i && ZeroRun(ws, pos, len))
    && (forall p, l :: ZeroRun(ws, p, l) && p < i ==> p + l <= i && l <= len && (l == len ==> pos <= p))
  }

  /** The search for the longest run of zero words. */
  method FindGap(words: array<nat>) returns (pos: int, len: int)
    requires words.Length == 8
    ensures IsGap(words[..], pos, len)
  {
    var i := 0;
    pos, len := -1, 0;
    while i < 8
      invariant 0 <= i <= 8 && len >= 0 && LongestSoFar(words[..], i, pos, len)
    {
      if words[i] == 0 {
        var cur, curLen := i, 1;
        i := i + 1;
        while i < 8 && words[i] == 0
          invariant cur + curLen == i <= 8 && curLen > 0 && forall k :: cur <= k < i ==> words[k] == 0
        {
          i, curLen := i + 1, curLen + 1;
        }
        RunEnds(words[..], cur, curLen, pos, len);
        if curLen > len {
          pos, len := cur, curLen;
        }
      } else {
        RunSkips(words[..], i, pos, len);
        i := i + 1;
      }
    }
    if len <= 1 { pos := -1; }
  }

  lemma RunEnds(ws: seq<nat>, cur: int, curLen: int, pos: int, len: int)
    requires LongestSoFar(ws, cur, pos, len) && ZeroRun(ws, cur, curLen) && len >= 0
    requires cur + curLen == |ws| || ws[cur + curLen] != 0
    ensures
      if curLen > len then LongestSoFar(ws, cur + curLen, cur, curLen)
      else LongestSoFar(ws, cur + curLen, pos, len)
  {
    var i := cur + curLen;
    if i < |ws| {
      assert forall p, l :: ZeroRun(ws, p, l) ==> !(p <= i < p + l);
    }
  }

  lemma RunSkips(ws: seq<nat>, i: int, pos: int, len: int)
    requires 0 <= i < |ws| && ws[i] != 0 && LongestSoFar(ws, i, pos, len)
    ensures LongestSoFar(ws, i + 1, pos, len)
  {
    assert forall p, l :: ZeroRun(ws, p, l) ==> !(p <= i < p + l);
  }

  /** Words with a colon after each, except after the eighth. */
  function Words(ws: seq<nat>, from: nat, end: nat): string
    requires from <= end <= |ws| == 8
    decreases end
  {
    if end == from then "" else Words(ws, from, end - 1) + Numeral(ws[end - 1], 16) + (if end == 8 then "" else ":")
  }

  lemma {:induction false} WordsJoin(ws: seq<nat>, from: nat, end: nat)
    requires from < end <= |ws| == 8
    ensures Words(ws, from, end) == Join(ws[from..end]) + (if end == 8 then "" else ":")
    decreases end
  {
    hide Numeral;
    JoinLast(ws[from..end]);
    if end - 1 > from {
      WordsJoin(ws, from, end - 1);
      assert ws[from..end][..end - from - 1] == ws[from..end - 1];
    }
  }

  lemma WordsStep(ws: seq<nat>, from: nat, i: nat)
    requires from <= i < |ws| == 8
    ensures Words(ws, from, i + 1) == Words(ws, from, i) + Numeral(ws[i], 16) + (if i != 7 then ":" else "")
    ensures Words(ws, from, from) == ""
  {
  }

  /** The gap goes on while the words are zero, and no further. */
  lemma GapEnds(ws: seq<nat>, pos: int, len: int)
    requires |ws| == 8 && IsGap(ws, pos, len) && pos >= 0
    ensures len > 1 && pos + len <= 8 && (forall k :: pos <= k < pos + len ==> ws[k] == 0)
    ensures pos + len < 8 ==> ws[pos + len] != 0
  {
    assert pos + len < 8 && ws[pos + len] == 0 ==> ZeroRun(ws, pos, len + 1);
  }

  /** Past the words of the gap. */
  method SkipGap(words: array<nat>, pos: int, ghost len: int) returns (i: int)
    requires words.Length == 8 && IsGap(words[..], pos, len) && pos >= 0
    ensures i == pos + len <= 8
  {
    GapEnds(words[..], pos, len);
    i := pos;
    while i < 8 && words[i] == 0
      invariant pos <= i <= pos + len
    {
      i := i + 1;
    }
  }

  /** The printing loop. */
  method PrintWords(words: array<nat>, pos: int, ghost len: int) returns (cp: string)
    requires words.Length == 8 && IsGap(words[..], pos, len)
    ensures cp == WithGap(words[..], pos, len)
  {
    hide Join, Numeral, IsGap, ZeroRun, Words;
    ghost var ws := words[..];
    var i := 0;
    cp := "";
    JoinEmpty();
    if pos >= 0 { GapEnds(ws, pos, len); }
    WordsStep(ws, 0, 0);
    while i < 8
      invariant 0 <= i <= 8 && (pos < 0 || i <= pos || pos + len <= i)
      invariant cp == Sofar(ws, pos, len, i)
    {
      if words[i] == 0 && pos == i {
        if i == 0 { cp := cp + ":"; }
        cp := cp + ":";
        if i > 0 { WordsJoin(ws, 0, i); }
        assert ws[0..pos] == ws[..pos];
        i := SkipGap(words, pos, len);
        NoWords(ws, i);
        assert cp == Join(ws[..pos]) + "::" + "";
      } else {
        cp := cp + Numeral(words[i], 16);
        if i != 7 { cp := cp + ":"; }
        WordsStep(ws, if 0 <= pos < i then pos + len else 0, i);
        i := i + 1;
      }
    }
    GapText(ws, pos, len);
  }

  /** What is printed before word `i`. */
  ghost function Sofar(ws: seq<nat>, pos: int, len: int, i: int): string
    requires |ws| == 8 && 0 <= i <= 8 && (0 <= pos < i ==> 0 <= pos + len <= i)
  {
    if 0 <= pos < i then Join(ws[..pos]) + "::" + Words(ws, pos + len, i) else Words(ws, 0, i)
  }

  lemma NoWords(ws: seq<nat>, i: nat)
    requires i <= |ws| == 8
    ensures Words(ws, i, i) == ""
  {
  }

  lemma GapText(ws: seq<nat>, pos: int, len: int)
    requires |ws| == 8 && IsGap(ws, pos, len)
    ensures WithGap(ws, pos, len) ==
      if pos >= 0 then Join(ws[..pos]) + "::" + Words(ws, pos + len, 8) else Words(ws, 0, 8)
  {
    hide Join;
    JoinEmpty();
    if pos < 0 {
      WordsJoin(ws, 0, 8);
      assert ws[0..8] == ws;
    } else if pos + len < 8 {
      WordsJoin(ws, pos + len, 8);
      assert ws[pos + len..8] == ws[pos + len..];
    }
  }

  datatype Printed = TooLong | Text(text: string)

  /** What `strlcpy` leaves of a text in `len` characters when it is no longer than that: the terminator takes the
      last place. */
  function Copied(text: string, len: nat): Printed {
    if |text| > len then TooLong
    else if |text| == len && text != "" then Text(Init(text))
    else Text(text)
  }

  /** `evutil_inet_ntop` for IPv6. */
  method Ntop(bs: seq<nat>, len: nat) returns (r: Printed)
    requires IsBytes(bs)
    ensures exists text :: IsText(bs, text) && r == Copied(text, len)
  {
    var words := new nat[8];
    for i := 0 to 8
      invariant forall k :: 0 <= k < i ==> words[k] == bs[2 * k] * 256 + bs[2 * k + 1]
    {
      words[i] := bs[2 * i] * 256 + bs[2 * i + 1];
    }
    assert words[..] == WordsOf(bs);
    var buf: string;
    if words[0] == 0 && words[1] == 0 && words[2] == 0 && words[3] == 0 && words[4] == 0
       && ((words[5] == 0 && words[6] != 0 && words[7] != 0) || words[5] == 0xffff) {
      if words[5] == 0 {
        buf := "::" + Quad(bs[12], bs[13], bs[14], bs[15]);
      } else {
        buf := "::" + Numeral(words[5], 16) + ":" + Quad(bs[12], bs[13], bs[14], bs[15]);
      }
    } else {
      var pos, gap := FindGap(words);
      buf := PrintWords(words, pos, gap);
    }
    assert IsText(bs, buf);
    if |buf| > len { return TooLong; }
    r := Text(if |buf| < len then buf else if len == 0 then "" else buf[..len - 1]);
  }

  // ---- Reading

  method FirstIndex(text: string, c: char) returns (i: nat)
    ensures i == Find(text, c)
  {
    i := 0;
    assert text[0..] == text;
    while i < |text| && text[i] != c
      invariant i <= |text| && Find(text, c) == i + Find(text[i..], c)
    {
      assert text[i..][1..] == text[i + 1..];
      i := i + 1;
    }
  }

  /** Backwards over the digits before the first dot. */
  method EndOfWords(text: string, dot: nat) returns (eow: nat)
    requires dot <= |text|
    ensures eow == DigitsBefore(text, dot)
  {
    eow := dot;
    while eow > 0 && IsDigit(text[eow - 1], 10)
      invariant eow <= dot && DigitsBefore(text, dot) == DigitsBefore(text, eow)
    {
      eow := eow - 1;
    }
  }

  /** The loop over the words, which are stored as they come. */
  method ReadWords(text: string, eow: nat, words: array<nat>) returns (ok: bool, n: nat, gap: int)
    requires words.Length == 8 && eow <= |text|
    modifies words
    ensures n <= 8 && -1 <= gap <= n && forall k :: n <= k < 8 ==> words[k] == old(words[k])
    ensures ScanWords(text, 0, eow, [], -1) == if ok then Scanned(words[..n], gap) else Bad
  {
    hide Strtol;
    var src := 0;
    n, gap, ok := 0, -1, true;
    while src < eow
      invariant n <= 8 && 0 <= src && -1 <= gap <= n && forall k :: n <= k < 8 ==> words[k] == old(words[k])
      invariant ScanWords(text, 0, eow, [], -1) == ScanWords(text, src, eow, words[..n], gap)
      decreases eow - src
    {
      if n > 7 { ok := false; return; }
      if IsDigit(text[src], 16) {
        var r, next := Strtol(text, src).0, Strtol(text, src).1;
        if next > src + 4 { ok := false; return; }
        if r > 65536 { ok := false; return; }
        if next != eow && (next >= |text| || text[next] != ':') { ok := false; return; }
        ghost var was := words[..n];
        words[n] := r;
        n, src := n + 1, next + 1;
        assert words[..n] == was + [r];
      } else if text[src] == ':' && n > 0 && gap == -1 {
        gap, src := n, src + 1;
      } else if text[src] == ':' && n == 0 && src + 1 < |text| && text[src + 1] == ':' && gap == -1 {
        gap, src := n, src + 2;
      } else {
        ok := false;
        return;
      }
    }
  }

  /** `memmove` and `memset`: the words after the gap go to their places before the quad, and zeros into the gap. */
  method FillGap(words: array<nat>, n: nat, gap: nat, top: nat)
    requires words.Length == 8 && gap <= n <= top <= 8
    modifies words
    ensures words[..] == old(words[..gap]) + seq(top - n, i => 0) + old(words[gap..n]) + old(words[top..])
  {
    var k := n;
    while k > gap
      invariant gap <= k <= n
      invariant forall i :: 0 <= i < 8 && !(k + top - n <= i < top) ==> words[i] == old(words[i])
      invariant forall i :: k <= i < n ==> words[i + top - n] == old(words[i])
    {
      k := k - 1;
      words[k + top - n] := words[k];
    }
    k := gap;
    while k < gap + top - n
      invariant gap <= k <= gap + top - n
      invariant forall i :: 0 <= i < gap || top <= i < 8 ==> words[i] == old(words[i])
      invariant forall i :: gap <= i < n ==> words[i + top - n] == old(words[i])
      invariant forall i :: gap <= i < k ==> words[i] == 0
    {
      words[k] := 0;
      k := k + 1;
    }
  }

  lemma ValueBound(s: string)
    requires AllDigits(s, 16) && |s| <= 4
    ensures Value(s, 16) < 0x1_0000
  {
    if |s| > 0 {
      var t := s[..|s| - 1];
      if |t| > 0 {
        var u := t[..|t| - 1];
        if |u| > 0 {
          var v := u[..|u| - 1];
          assert |v| > 0 ==> v[..|v| - 1] == "";
          assert Value(v, 16) < 16;
        }
        assert Value(u, 16) < 256;
      }
      assert Value(t, 16) < 4096;
    }
  }

  /** What four characters make is a 16-bit word. */
  lemma {:induction false} ScanBound(text: string, pos: nat, eow: nat, words: seq<nat>, gap: int)
    requires eow <= |text| && gap >= -1 && forall i :: 0 <= i < |words| ==> words[i] < 0x1_0000
    ensures var s := ScanWords(text, pos, eow, words, gap);
      s.Scanned? ==> s.gap >= -1 && forall i :: 0 <= i < |s.words| ==> s.words[i] < 0x1_0000
    decreases |text| - pos
  {
    if pos < eow && |words| <= 7 {
      if IsDigit(text[pos], 16) {
        var (r, next) := Strtol(text, pos);
        if next <= pos + 4 {
          StrtolBound(text, pos);
          ScanBound(text, next + 1, eow, words + [r], gap);
        }
      } else if text[pos] == ':' && |words| > 0 && gap == -1 {
        ScanBound(text, pos + 1, eow, words, |words|);
      } else if text[pos] == ':' && |words| == 0 && pos + 1 < |text| && text[pos + 1] == ':' && gap == -1 {
        ScanBound(text, pos + 2, eow, words, 0);
      }
    }
  }

  lemma StrtolBound(text: string, pos: nat)
    requires pos <= |text| && Strtol(text, pos).1 <= pos + 4
    ensures Strtol(text, pos).0 < 0x1_0000
  {
    hide Value, RunEnd;
    var from := if pos + 2 < |text| && text[pos] == '0' && text[pos + 1] in "xX" && IsDigit(text[pos + 2], 16)
                then pos + 2 else pos;
    ValueBound(text[from..RunEnd(text, from, 16)]);
  }

  lemma FilledBound(s: Scan, quad: seq<nat>)
    requires s.Scanned? ==> s.gap >= -1 && forall i :: 0 <= i < |s.words| ==> s.words[i] < 0x1_0000
    requires forall i :: 0 <= i < |quad| ==> quad[i] < 0x1_0000
    ensures Filled(s, quad).Scanned? ==> IsWords(Filled(s, quad).words)
  {
  }

  lemma ParsedWords(text: string)
    ensures Parsed(text).Address? ==> IsWords(Parsed(text).words)
  {
    hide ScanWords, ScanQuad, Find, DigitsBefore;
    ScanBound(text, 0, |text|, [], -1);
    FilledBound(ScanWords(text, 0, |text|, [], -1), []);
    var eow := DigitsBefore(text, Find(text, '.'));
    ScanBound(text, 0, eow, [], -1);
    var q := ScanQuad(text, eow);
    if q.SomeQuad? && q.a <= 255 && q.b <= 255 && q.c <= 255 && q.d <= 255 {
      FilledBound(ScanWords(text, 0, eow, [], -1), [q.a * 256 + q.b, q.c * 256 + q.d]);
    }
  }

  /** The bytes that are stored for an address. */
  method Store(words: seq<nat>) returns (bytes: seq<nat>)
    requires IsWords(words)
    ensures bytes == BytesOf(words)
  {
    var out := new nat[16];
    for i := 0 to 8
      invariant forall k :: 0 <= k < 2 * i ==> out[k] == BytesOf(words)[k]
    {
      out[2 * i] := words[i] / 256;
      out[2 * i + 1] := words[i] % 256;
    }
    bytes := out[..];
  }

  /** `evutil_inet_pton` for IPv6: the words of the address and its bytes, or a refusal. */
  method Pton(text: string) returns (r: Parse, bytes: seq<nat>)
    ensures r == Parsed(text) && (r.Address? ==> IsWords(r.words) && bytes == BytesOf(r.words))
  {
    bytes := [];
    ParsedWords(text);
    r := ReadAddress(text);
    if r.Address? { bytes := Store(r.words); }
  }

  method ReadAddress(text: string) returns (r: Parse)
    ensures r == Parsed(text)
  {
    hide ScanWords, ScanQuad, Find, DigitsBefore;
    var words := new nat[8];
    var dot := FirstIndex(text, '.');
    if dot == 0 && text != "" { return Refused; }
    var eow := |text|;
    var top := 8;
    if dot != |text| {
      eow := EndOfWords(text, dot);
      var q := ScanQuad(text, eow);
      if q.NoQuad? { return Refused; }
      if q.a > 255 || q.b > 255 || q.c > 255 || q.d > 255 { return Refused; }
      top := 6;
      words[6], words[7] := q.a * 256 + q.b, q.c * 256 + q.d;
    }
    ghost var quad := words[top..];
    var ok, n, gap := ReadWords(text, eow, words);
    if !ok { return Refused; }
    assert words[top..] == quad || n > top;
    r := Finish(words, n, gap, top);
  }

  /** The number of words must be right for the gap, which is then filled. */
  method Finish(words: array<nat>, n: nat, gap: int, top: nat) returns (r: Parse)
    requires words.Length == 8 && n <= 8 && top <= 8 && -1 <= gap <= n
    modifies words
    ensures n > top ==> r == Refused
    ensures n <= top ==> r == Result(Filled(Scanned(old(words[..n]), gap), old(words[top..])))
  {
    var count := n + (8 - top);
    if count > 8 || (count == 8 && gap != -1) || (count < 8 && gap == -1) { return Refused; }
    ghost var read, quad := words[..n], words[top..];
    if gap >= 0 {
      assert words[..gap] == read[..gap] && words[gap..n] == read[gap..];
      FillGap(words, n, gap, top);
    } else {
      assert words[..] == read + quad;
    }
    r := Address(words[..]);
  }

  // ---- There and back

  /** Reading back what was printed gives the address exactly when the buffer was longer than the text: a buffer of
      just the text's length is accepted, but loses the last character to the terminator. */
  lemma RoundTrip(bs: seq<nat>, len: nat, text: string, r: Printed)
    requires IsBytes(bs) && IsText(bs, text) && r == Copied(text, len)
    ensures (r.Text? && Parsed(r.text) == Address(WordsOf(bs))) <==> len > |text|
    ensures len > |text| ==> BytesOf(Parsed(r.text).words) == bs
    ensures r.TooLong? <==> len < |text|
  {
    hide Parsed, IsText;
    TextParses(bs, text);
    ShortNeverParses(bs, text);
  }
}
