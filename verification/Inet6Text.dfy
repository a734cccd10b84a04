/** Numbers and IPv6 addresses as text: the canonical form that is printed, and what a reader makes of text
    (RFC 4291, section 2.2). */
module Inet6Text {

  // ---- Numerals

  function DigitChar(d: nat): char
    requires d < 16
  {
    if d < 10 then '0' + d as char else 'a' + (d - 10) as char
  }

  predicate IsDigit(c: char, base: nat) {
    '0' <= c <= '9' || (base == 16 && ('a' <= c <= 'f' || 'A' <= c <= 'F'))
  }

  function DigitValue(c: char): nat
    requires IsDigit(c, 16)
  {
    if c <= '9' then (c - '0') as nat else if c <= 'F' then (c - 'A') as nat + 10 else (c - 'a') as nat + 10
  }

  /** `%x` and `%d`: the digits of a number, without leading zeros. */
  function Numeral(n: nat, base: nat): (s: string)
    requires base == 10 || base == 16
    ensures s != []
  {
    if n < base then [DigitChar(n)] else Numeral(n / base, base) + [DigitChar(n % base)]
  }

  predicate AllDigits(s: string, base: nat) {
    forall i :: 0 <= i < |s| ==> IsDigit(s[i], base)
  }

  function Value(s: string, base: nat): nat
    requires base <= 16 && AllDigits(s, base)
  {
    if s == [] then 0 else Value(s[..|s| - 1], base) * base + DigitValue(s[|s| - 1])
  }

  lemma {:induction false} NumeralValue(n: nat, base: nat)
    requires base == 10 || base == 16
    ensures AllDigits(Numeral(n, base), base) && Value(Numeral(n, base), base) == n
  {
    var s := Numeral(n, base);
    if n < base {
      assert s[..0] == [];
      assert IsDigit(s[0], base) && DigitValue(s[0]) == n;
    } else {
      NumeralValue(n / base, base);
      var t := Numeral(n / base, base);
      assert s[..|s| - 1] == t;
      assert IsDigit(DigitChar(n % base), base) && DigitValue(DigitChar(n % base)) == n % base;
      forall i | 0 <= i < |s| ensures IsDigit(s[i], base) {
        if i < |t| { assert s[i] == t[i]; }
      }
    }
  }

  lemma NumeralLength(n: nat)
    requires n < 0x1_0000
    ensures |Numeral(n, 16)| <= 4
  {
    var a, b := n / 16, n / 16 / 16;
    assert b / 16 < 16;
    if b >= 16 {
      assert Numeral(b, 16) == Numeral(b / 16, 16) + [DigitChar(b % 16)];
    }
    assert |Numeral(b, 16)| <= 2;
    if a >= 16 {
      assert Numeral(a, 16) == Numeral(b, 16) + [DigitChar(a % 16)];
    }
  }

  /** The first index from `pos` on that holds no digit. */
  function RunEnd(text: string, pos: nat, base: nat): (e: nat)
    requires pos <= |text|
    ensures pos <= e <= |text| && AllDigits(text[pos..e], base) && (e < |text| ==> !IsDigit(text[e], base))
    decreases |text| - pos
  {
    if pos < |text| && IsDigit(text[pos], base) then
      var e := RunEnd(text, pos + 1, base);
      assert text[pos..e] == [text[pos]] + text[pos + 1..e];
      e
    else pos
  }

  lemma {:induction false} RunOf(text: string, pos: nat, n: nat, base: nat)
    requires pos + n <= |text| && AllDigits(text[pos..pos + n], base)
    requires pos + n < |text| ==> !IsDigit(text[pos + n], base)
    ensures RunEnd(text, pos, base) == pos + n
    decreases n
  {
    if n > 0 {
      assert text[pos..pos + n][0] == text[pos];
      assert text[pos + 1..pos + n] == text[pos..pos + n][1..];
      RunOf(text, pos + 1, n - 1, base);
    }
  }

  // ---- The text of an address

  /** The words of an address, separated by colons. */
  function Join(ws: seq<nat>): string {
    if ws == [] then ""
    else if |ws| == 1 then Numeral(ws[0], 16)
    else Numeral(ws[0], 16) + ":" + Join(ws[1..])
  }

  /** A stretch of zeros, for which "::" can stand. */
  predicate ZeroRun(ws: seq<nat>, pos: int, len: int) {
    0 <= pos && 0 < len && pos + len <= |ws| && forall k :: pos <= k < pos + len ==> ws[k] == 0
  }

  /** The leftmost of the longest stretches, if that has more than one word. */
  ghost predicate IsGap(ws: seq<nat>, pos: int, len: int) {
    && (pos >= 0 ==> len > 1 && ZeroRun(ws, pos, len))
    && (forall p, l :: ZeroRun(ws, p, l) ==> if pos < 0 then l <= 1 else l <= len && (l == len ==> pos <= p))
  }

  /** The address with "::" for a stretch of zeros, or written out when there is none. */
  function WithGap(ws: seq<nat>, pos: int, len: int): string
    requires pos < 0 || ZeroRun(ws, pos, len)
  {
    if pos < 0 then Join(ws) else Join(ws[..pos]) + "::" + Join(ws[pos + len..])
  }

  /** Addresses that are shown with a dotted quad at the end. */
  predicate Dotted(ws: seq<nat>)
    requires |ws| == 8
  {
    && ws[0] == 0 && ws[1] == 0 && ws[2] == 0 && ws[3] == 0 && ws[4] == 0
    && ((ws[5] == 0 && ws[6] != 0 && ws[7] != 0) || ws[5] == 0xffff)
  }

  function Dot(s: string): (r: string)
    ensures r != "" && r[0] == '.' && r[1..] == s
  {
    "." + s
  }

  function Quad(a: nat, b: nat, c: nat, d: nat): string {
    Numeral(a, 10) + Dot(Numeral(b, 10) + Dot(Numeral(c, 10) + Dot(Numeral(d, 10))))
  }

  predicate IsWords(ws: seq<nat>) {
    |ws| == 8 && forall i :: 0 <= i < 8 ==> ws[i] < 0x1_0000
  }

  predicate IsBytes(bs: seq<nat>) {
    |bs| == 16 && forall i :: 0 <= i < 16 ==> bs[i] < 256
  }

  function WordsOf(bs: seq<nat>): (ws: seq<nat>)
    requires IsBytes(bs)
    ensures IsWords(ws)
  {
    seq(8, i requires 0 <= i < 8 => bs[2 * i] * 256 + bs[2 * i + 1])
  }

  function BytesOf(ws: seq<nat>): (bs: seq<nat>)
    requires IsWords(ws)
    ensures IsBytes(bs)
  {
    seq(16, i requires 0 <= i < 16 => if i % 2 == 0 then ws[i / 2] / 256 else ws[i / 2] % 256)
  }

  lemma WordsBytes(bs: seq<nat>)
    requires IsBytes(bs)
    ensures BytesOf(WordsOf(bs)) == bs
  {
    forall i | 0 <= i < 16 ensures BytesOf(WordsOf(bs))[i] == bs[i] {
      assert bs[2 * (i / 2)] < 256 && bs[2 * (i / 2) + 1] < 256;
    }
  }

  /** The text that is meant for an address. */
  ghost predicate IsText(bs: seq<nat>, text: string)
    requires IsBytes(bs)
  {
    var ws := WordsOf(bs);
    if Dotted(ws) then
      text == QuadPrefix(ws[5]) + Quad(bs[12], bs[13], bs[14], bs[15])
    else exists pos, len :: IsGap(ws, pos, len) && text == WithGap(ws, pos, len)
  }

  // ---- What a reader makes of text

  /** `strtol` to the base 16: the value and where it ends; a prefix `0x` is let through. */
  function Strtol(text: string, pos: nat): (r: (nat, nat))
    requires pos <= |text|
    ensures pos <= r.1 <= |text|
  {
    var from := if pos + 2 < |text| && text[pos] == '0' && text[pos + 1] in "xX" && IsDigit(text[pos + 2], 16)
                then pos + 2 else pos;
    var e := RunEnd(text, from, 16);
    (Value(text[from..e], 16), e)
  }

  datatype Scan = Bad | Scanned(words: seq<nat>, gap: int)

  /** The loop over the words up to `eow`. */
  function ScanWords(text: string, pos: nat, eow: nat, words: seq<nat>, gap: int): Scan
    requires eow <= |text|
    decreases |text| - pos
  {
    if pos >= eow then Scanned(words, gap)
    else if |words| > 7 then Bad
    else if IsDigit(text[pos], 16) then
      var (r, next) := Strtol(text, pos);
      if next > pos + 4 || r > 65536 then Bad
      else if next != eow && (next >= |text| || text[next] != ':') then Bad
      else ScanWords(text, next + 1, eow, words + [r], gap)
    else if text[pos] == ':' && |words| > 0 && gap == -1 then ScanWords(text, pos + 1, eow, words, |words|)
    else if text[pos] == ':' && |words| == 0 && pos + 1 < |text| && text[pos + 1] == ':' && gap == -1 then
      ScanWords(text, pos + 2, eow, words, 0)
    else Bad
  }

  /** The words with the gap filled by zeros; `quad` are the words of a dotted quad. */
  function Filled(s: Scan, quad: seq<nat>): Scan
  {
    if s.Bad? then Bad
    else
      var n := |s.words| + |quad|;
      if n > 8 || (n == 8 && s.gap != -1) || (n < 8 && s.gap == -1) || s.gap > |s.words| then Bad
      else if s.gap < 0 then Scanned(s.words + quad, -1)
      else Scanned(s.words[..s.gap] + seq(8 - n, i => 0) + s.words[s.gap..] + quad, -1)
  }

  function Find(text: string, c: char): (i: nat)
    ensures i <= |text| && (i < |text| ==> text[i] == c) && forall k :: 0 <= k < i ==> text[k] != c
  {
    if text == "" || text[0] == c then 0 else 1 + Find(text[1..], c)
  }

  /** Where the decimal digits before `i` begin. */
  function DigitsBefore(text: string, i: nat): (e: nat)
    requires i <= |text|
    ensures e <= i
  {
    if i > 0 && IsDigit(text[i - 1], 10) then DigitsBefore(text, i - 1) else i
  }

  datatype QuadScan = NoQuad | SomeQuad(a: nat, b: nat, c: nat, d: nat)

  /** A decimal number at `pos` and, unless it is the last, the dot after it. */
  function ScanByte(text: string, pos: nat, last: bool): (r: (bool, nat, nat))
    requires pos <= |text|
    ensures r.2 <= |text|
  {
    var e := RunEnd(text, pos, 10);
    if e == pos then (false, 0, pos)
    else if last then (e == |text|, Value(text[pos..e], 10), e)
    else if e < |text| && text[e] == '.' then (true, Value(text[pos..e], 10), e + 1)
    else (false, 0, pos)
  }

  /** `sscanf` of four numbers with dots between them and nothing after them. */
  function ScanQuad(text: string, pos: nat): QuadScan
    requires pos <= |text|
  {
    var a := ScanByte(text, pos, false);
    var b := ScanByte(text, a.2, false);
    var c := ScanByte(text, b.2, false);
    var d := ScanByte(text, c.2, true);
    if a.0 && b.0 && c.0 && d.0 then SomeQuad(a.1, b.1, c.1, d.1) else NoQuad
  }

  datatype Parse = Refused | Address(words: seq<nat>)

  /** `evutil_inet_pton` for IPv6. */
  function Parsed(text: string): Parse {
    var dot := Find(text, '.');
    if dot == 0 && text != "" then Refused
    else if dot == |text| then Result(Filled(ScanWords(text, 0, |text|, [], -1), []))
    else
      var eow := DigitsBefore(text, dot);
      var q := ScanQuad(text, eow);
      if q.NoQuad? || q.a > 255 || q.b > 255 || q.c > 255 || q.d > 255 then Refused
      else Result(Filled(ScanWords(text, 0, eow, [], -1), [q.a * 256 + q.b, q.c * 256 + q.d]))
  }

  function Result(s: Scan): Parse {
    if s.Bad? then Refused else Address(s.words)
  }

  // ---- Reading what was printed

  lemma {:induction false} FindAt(text: string, c: char, i: nat)
    requires i < |text| && text[i] == c && forall k :: 0 <= k < i ==> text[k] != c
    ensures Find(text, c) == i
  {
  }

  lemma FindNone(text: string, c: char)
    requires c !in text
    ensures Find(text, c) == |text|
  {
  }

  /** One word, with a colon or the end after it. */
  lemma ScanOne(text: string, pos: nat, eow: nat, words: seq<nat>, gap: int, w: nat)
    requires eow <= |text| && w < 0x1_0000 && |words| < 8
    requires pos + |Numeral(w, 16)| <= eow && text[pos..pos + |Numeral(w, 16)|] == Numeral(w, 16)
    requires var next := pos + |Numeral(w, 16)|; if next < |text| then text[next] == ':' else next == eow
    ensures ScanWords(text, pos, eow, words, gap) ==
      ScanWords(text, pos + |Numeral(w, 16)| + 1, eow, words + [w], gap)
  {
    var n := Numeral(w, 16);
    var next := pos + |n|;
    NumeralValue(w, 16);
    NumeralLength(w);
    RunOf(text, pos, |n|, 16);
    assert text[pos] == n[0] && IsDigit(n[0], 16);
    assert |n| > 1 ==> IsDigit(n[1], 16) && n[1] == text[pos + 1];
    assert pos + 1 < |text| ==> text[pos + 1] !in "xX";
    assert Strtol(text, pos) == (w, next);
  }

  lemma {:induction false} ScanJoin(text: string, pos: nat, eow: nat, words: seq<nat>, gap: int, ws: seq<nat>)
    requires eow <= |text| && ws != [] && |words| + |ws| <= 8 && forall i :: 0 <= i < |ws| ==> ws[i] < 0x1_0000
    requires pos + |Join(ws)| <= eow && text[pos..pos + |Join(ws)|] == Join(ws)
    requires var next := pos + |Join(ws)|; if next < |text| then text[next] == ':' else next == eow
    ensures ScanWords(text, pos, eow, words, gap) == ScanWords(text, pos + |Join(ws)| + 1, eow, words + ws, gap)
    decreases |ws|
  {
    hide ScanWords, Numeral;
    var n, j := Numeral(ws[0], 16), Join(ws);
    if |ws| == 1 {
      ScanOne(text, pos, eow, words, gap, ws[0]);
      assert words + ws == words + [ws[0]];
    } else {
      var rest := Join(ws[1..]);
      assert j == n + ":" + rest;
      assert text[pos..pos + |n|] == text[pos..pos + |j|][..|n|] == n;
      assert text[pos + |n|] == text[pos..pos + |j|][|n|] == ':';
      assert text[pos + |n| + 1..pos + |j|] == text[pos..pos + |j|][|n| + 1..] == rest;
      ScanOne(text, pos, eow, words, gap, ws[0]);
      ScanJoin(text, pos + |n| + 1, eow, words + [ws[0]], gap, ws[1..]);
      assert words + [ws[0]] + ws[1..] == words + ws;
    }
  }

  lemma ScanEnd(text: string, pos: nat, eow: nat, words: seq<nat>, gap: int)
    requires pos >= eow && eow <= |text|
    ensures ScanWords(text, pos, eow, words, gap) == Scanned(words, gap)
  {
  }

  /** A second colon after words, or two colons at the start, are the gap. */
  lemma ScanColons(text: string, pos: nat, eow: nat, words: seq<nat>)
    requires pos < eow <= |text| && text[pos] == ':' && |words| <= 7
    requires words == [] ==> pos + 1 < |text| && text[pos + 1] == ':'
    ensures ScanWords(text, pos, eow, words, -1) ==
      ScanWords(text, pos + (if words == [] then 2 else 1), eow, words, |words|)
  {
  }

  /** Text with "::" reads as the words around the gap. */
  lemma ScanGap(text: string, eow: nat, a: seq<nat>, b: seq<nat>)
    requires |a| + |b| <= 7 && (forall i :: 0 <= i < |a| ==> a[i] < 0x1_0000)
    requires forall i :: 0 <= i < |b| ==> b[i] < 0x1_0000
    requires eow <= |text| && text[..eow] == Join(a) + "::" + Join(b) + (if eow < |text| && b != [] then ":" else "")
    ensures ScanWords(text, 0, eow, [], -1) == Scanned(a + b, |a|)
  {
    hide ScanWords, Join;
    var n, m, t := |Join(a)|, |Join(b)|, text[..eow];
    assert t[n] == ':' && t[n + 1] == ':' && t[n + 2..n + 2 + m] == Join(b) && t[0..n] == Join(a);
    assert text[n] == ':' && text[n + 1] == ':' && text[n + 2..n + 2 + m] == Join(b) && text[0..n] == Join(a);
    JoinEmpty();
    if a != [] {
      ScanJoin(text, 0, eow, [], -1, a);
      assert [] + a == a;
      ScanColons(text, n + 1, eow, a);
    } else {
      ScanColons(text, 0, eow, []);
    }
    if b != [] {
      if eow < |text| { assert t[n + 2 + m] == ':' && text[n + 2 + m] == ':'; }
      ScanJoin(text, n + 2, eow, a, |a|, b);
    } else {
      assert a + b == a;
    }
    ScanEnd(text, n + 2 + m + (if b == [] then 0 else 1), eow, a + b, |a|);
  }

  lemma JoinEmpty()
    ensures Join([]) == ""
  {
  }

  lemma {:induction false} JoinChars(ws: seq<nat>)
    ensures forall i :: 0 <= i < |Join(ws)| ==> Join(ws)[i] != '.'
    decreases |ws|
  {
    if ws != [] {
      NumeralValue(ws[0], 16);
      var n := Numeral(ws[0], 16);
      assert forall i :: 0 <= i < |n| ==> IsDigit(n[i], 16) && n[i] != '.';
      if |ws| > 1 { JoinChars(ws[1..]); }
    }
  }

  lemma NoDot(text: string)
    requires '.' !in text && text != ""
    ensures Parsed(text) == Result(Filled(ScanWords(text, 0, |text|, [], -1), []))
  {
    FindNone(text, '.');
  }

  lemma FilledGap(ws: seq<nat>, pos: int, len: int)
    requires |ws| == 8 && ZeroRun(ws, pos, len)
    ensures Filled(Scanned(ws[..pos] + ws[pos + len..], pos), []) == Scanned(ws, -1)
  {
    var a, b := ws[..pos], ws[pos + len..];
    assert (a + b)[..pos] == a && (a + b)[pos..] == b && |a + b| == 8 - len;
    assert a + seq(len, i => 0) + b + [] == ws;
  }

  /** Text with a gap, or without one, reads as its words. */
  lemma WithGapParses(ws: seq<nat>, pos: int, len: int)
    requires IsWords(ws) && (pos >= 0 ==> ZeroRun(ws, pos, len))
    ensures Parsed(WithGap(ws, pos, len)) == Address(ws)
  {
    hide ScanWords, Parsed, Join;
    var text := WithGap(ws, pos, len);
    if pos < 0 {
      JoinChars(ws);
      JoinNotEmpty(ws);
      NoDot(text);
      assert text[0..|text|] == text;
      ScanJoin(text, 0, |text|, [], -1, ws);
      ScanEnd(text, |text| + 1, |text|, ws, -1);
      assert [] + ws == ws && ws + [] == ws;
    } else {
      var a, b := ws[..pos], ws[pos + len..];
      JoinChars(a);
      JoinChars(b);
      NoDot(text);
      assert text[..|text|] == text == Join(a) + "::" + Join(b) + "";
      ScanGap(text, |text|, a, b);
      FilledGap(ws, pos, len);
    }
  }

  lemma JoinNotEmpty(ws: seq<nat>)
    requires ws != []
    ensures Join(ws) != ""
  {
  }

  // ---- Dotted quads

  lemma ScanByteOne(text: string, pos: nat, n: nat, rest: string, last: bool)
    requires pos <= |text| && text[pos..] == Numeral(n, 10) + rest
    requires if last then rest == "" else rest != "" && rest[0] == '.'
    ensures var next := pos + |Numeral(n, 10)| + (if last then 0 else 1);
      ScanByte(text, pos, last) == (true, n, next) && next <= |text| && (!last ==> text[next..] == rest[1..])
  {
    var s, t := Numeral(n, 10), text[pos..];
    NumeralValue(n, 10);
    assert text[pos..pos + |s|] == t[..|s|] == s;
    assert !last ==> text[pos + |s|] == t[|s|] == '.';
    RunOf(text, pos, |s|, 10);
    assert !last ==> text[pos + |s| + 1..] == t[|s| + 1..] == rest[1..];
  }

  lemma QuadScans(text: string, pos: nat, a: nat, b: nat, c: nat, d: nat)
    requires pos <= |text| && text[pos..] == Quad(a, b, c, d)
    ensures ScanQuad(text, pos) == SomeQuad(a, b, c, d)
  {
    hide ScanByte, Numeral, Dot;
    var r := Dot(Numeral(d, 10));
    var q := Dot(Numeral(c, 10) + r);
    ScanByteOne(text, pos, a, Dot(Numeral(b, 10) + q), false);
    var i := pos + |Numeral(a, 10)| + 1;
    ScanByteOne(text, i, b, q, false);
    var j := i + |Numeral(b, 10)| + 1;
    ScanByteOne(text, j, c, r, false);
    assert r[1..] == Numeral(d, 10) + "";
    ScanByteOne(text, j + |Numeral(c, 10)| + 1, d, "", true);
  }

  lemma {:induction false} DigitsBack(text: string, pos: nat, n: nat)
    requires pos + n <= |text| && AllDigits(text[pos..pos + n], 10) && (pos > 0 ==> !IsDigit(text[pos - 1], 10))
    ensures DigitsBefore(text, pos + n) == pos
    decreases n
  {
    if n > 0 {
      assert text[pos..pos + n][n - 1] == text[pos + n - 1];
      assert text[pos..pos + n - 1] == text[pos..pos + n][..n - 1];
      DigitsBack(text, pos, n - 1);
    }
  }

  /** The first dot comes after the quad's first number. */
  lemma DotAfter(pre: string, a: nat, rest: string)
    requires pre != "" && '.' !in pre && !IsDigit(pre[|pre| - 1], 10) && rest != "" && rest[0] == '.'
    ensures var text := pre + (Numeral(a, 10) + rest);
      && Find(text, '.') == |pre| + |Numeral(a, 10)| < |text| && DigitsBefore(text, |pre| + |Numeral(a, 10)|) == |pre|
  {
    var n := Numeral(a, 10);
    var text := pre + (n + rest);
    NumeralValue(a, 10);
    assert text[|pre|..|pre| + |n|] == n && text[|pre| + |n|] == rest[0];
    forall k | 0 <= k < |pre| + |n| ensures text[k] != '.' {
      if k >= |pre| {
        assert text[k] == n[k - |pre|] && IsDigit(n[k - |pre|], 10);
      } else {
        assert text[k] == pre[k] && pre[k] in pre;
      }
    }
    FindAt(text, '.', |pre| + |n|);
    DigitsBack(text, |pre|, |n|);
  }

  /** The words before the quad, and the quad. */
  lemma QuadAfter(pre: string, a: nat, b: nat, c: nat, d: nat)
    requires pre != "" && '.' !in pre && !IsDigit(pre[|pre| - 1], 10)
    requires a < 256 && b < 256 && c < 256 && d < 256
    ensures var text := pre + Quad(a, b, c, d);
      Parsed(text) == Result(Filled(ScanWords(text, 0, |pre|, [], -1), [a * 256 + b, c * 256 + d]))
  {
    hide ScanWords, ScanQuad, Numeral, Filled, Find, DigitsBefore, Result, Dot;
    var text := pre + Quad(a, b, c, d);
    DotAfter(pre, a, Dot(Numeral(b, 10) + Dot(Numeral(c, 10) + Dot(Numeral(d, 10)))));
    assert text[|pre|..] == Quad(a, b, c, d);
    QuadScans(text, |pre|, a, b, c, d);
  }

  /** What comes before the quad. */
  function QuadPrefix(w: nat): string {
    if w == 0 then "::" else "::" + Numeral(w, 16) + ":"
  }

  lemma PrefixScans(w: nat, text: string)
    requires w < 0x1_0000 && |QuadPrefix(w)| < |text| && text[..|QuadPrefix(w)|] == QuadPrefix(w)
    ensures ScanWords(text, 0, |QuadPrefix(w)|, [], -1) == Scanned(if w == 0 then [] else [w], 0)
  {
    hide ScanWords, Numeral;
    var b := if w == 0 then [] else [w];
    assert Join(b) == if w == 0 then "" else Numeral(w, 16);
    assert text[..|QuadPrefix(w)|] == Join([]) + "::" + Join(b) + (if b != [] then ":" else "");
    ScanGap(text, |QuadPrefix(w)|, [], b);
    assert [] + b == b;
  }

  lemma PrefixChars(w: nat)
    ensures var pre := QuadPrefix(w); pre != "" && '.' !in pre && !IsDigit(pre[|pre| - 1], 10)
  {
    NumeralValue(w, 16);
    var n := Numeral(w, 16);
    forall k | 0 <= k < |n| ensures n[k] != '.' { assert IsDigit(n[k], 16); }
  }

  lemma DottedParses(bs: seq<nat>, text: string)
    requires IsBytes(bs) && Dotted(WordsOf(bs)) && IsText(bs, text)
    ensures Parsed(text) == Address(WordsOf(bs))
  {
    hide ScanWords, Parsed, Numeral, Quad, QuadPrefix;
    var ws := WordsOf(bs);
    var quad := [bs[12] * 256 + bs[13], bs[14] * 256 + bs[15]];
    var pre := QuadPrefix(ws[5]);
    PrefixChars(ws[5]);
    QuadAfter(pre, bs[12], bs[13], bs[14], bs[15]);
    assert text[..|pre|] == pre;
    QuadNotEmpty(bs[12], bs[13], bs[14], bs[15]);
    PrefixScans(ws[5], text);
    FilledQuad(ws, if ws[5] == 0 then [] else [ws[5]], quad);
  }

  lemma QuadNotEmpty(a: nat, b: nat, c: nat, d: nat)
    ensures Quad(a, b, c, d) != ""
  {
  }

  lemma FilledQuad(ws: seq<nat>, b: seq<nat>, quad: seq<nat>)
    requires |ws| == 8 && ws[..5] == [0, 0, 0, 0, 0] && b == (if ws[5] == 0 then [] else [ws[5]]) && quad == ws[6..]
    ensures Filled(Scanned(b, 0), quad) == Scanned(ws, -1)
  {
    assert b[..0] == [] && b[0..] == b;
    assert [] + seq(8 - (|b| + 2), i => 0) + b + quad == ws;
  }

  /** Every text that is meant for an address reads as that address. */
  lemma TextParses(bs: seq<nat>, text: string)
    requires IsBytes(bs) && IsText(bs, text)
    ensures Parsed(text) == Address(WordsOf(bs)) && BytesOf(WordsOf(bs)) == bs
  {
    hide Parsed;
    WordsBytes(bs);
    if Dotted(WordsOf(bs)) {
      DottedParses(bs, text);
    } else {
      var pos, len :| IsGap(WordsOf(bs), pos, len) && text == WithGap(WordsOf(bs), pos, len);
      WithGapParses(WordsOf(bs), pos, len);
    }
  }

  // ---- What the text looks like

  /** The characters of numerals are lower-case digits, and a number of more than one digit begins with no zero. */
  lemma {:induction false} NumeralPlain(n: nat, base: nat)
    requires base == 10 || base == 16
    ensures var s := Numeral(n, base);
      && (forall i :: 0 <= i < |s| ==> '0' <= s[i] <= '9' || (base == 16 && 'a' <= s[i] <= 'f'))
      && (n < base <==> |s| == 1) && (n > 0 ==> s[0] != '0')
  {
    if n >= base {
      NumeralPlain(n / base, base);
    }
  }

  predicate Plain(text: string) {
    forall i :: 0 <= i < |text| ==> '0' <= text[i] <= '9' || 'a' <= text[i] <= 'f' || text[i] == ':'
  }

  lemma PlainBoth(a: string, b: string)
    requires Plain(a) && Plain(b)
    ensures Plain(a + b)
  {
  }

  lemma {:induction false} JoinPlain(ws: seq<nat>)
    ensures Plain(Join(ws))
  {
    hide Numeral;
    if ws != [] {
      NumeralPlain(ws[0], 16);
      JoinPlain(ws[1..]);
      PlainBoth(Numeral(ws[0], 16), ":");
      PlainBoth(Numeral(ws[0], 16) + ":", Join(ws[1..]));
    }
  }

  /** Four decimal numbers with dots between them. */
  ghost predicate FourParts(text: string, pos: nat) {
    && pos <= |text| && Plain(text[..pos])
    && forall i :: pos <= i < |text| ==> '0' <= text[i] <= '9' || text[i] == '.'
  }

  lemma QuadParts(a: nat, b: nat, c: nat, d: nat)
    ensures FourParts(Quad(a, b, c, d), 0) && '.' in Quad(a, b, c, d)
  {
    hide Numeral;
    NumeralPlain(a, 10);
    NumeralPlain(b, 10);
    NumeralPlain(c, 10);
    NumeralPlain(d, 10);
    DotsFrom(Numeral(d, 10), Numeral(c, 10));
    DotsFrom(Numeral(c, 10) + Dot(Numeral(d, 10)), Numeral(b, 10));
    DotsFrom(Numeral(b, 10) + Dot(Numeral(c, 10) + Dot(Numeral(d, 10))), Numeral(a, 10));
  }

  lemma DotsFrom(s: string, t: string)
    requires forall i :: 0 <= i < |s| ==> '0' <= s[i] <= '9' || s[i] == '.'
    requires forall i :: 0 <= i < |t| ==> '0' <= t[i] <= '9'
    ensures var r := t + Dot(s); '.' in r && forall i :: 0 <= i < |r| ==> '0' <= r[i] <= '9' || r[i] == '.'
  {
    var r := t + Dot(s);
    assert r[|t|] == '.';
    forall i | 0 <= i < |r| ensures '0' <= r[i] <= '9' || r[i] == '.' {
      if i > |t| { assert r[i] == Dot(s)[1..][i - |t| - 1]; }
    }
  }

  /** Text has dots exactly for an address that ends in an IPv4 address: ten zero bytes and then two bytes 0xff, or two
      more zero bytes and two words that are not zero.  Everything else is lower-case digits and colons. */
  lemma TextDots(bs: seq<nat>, text: string)
    requires IsBytes(bs) && IsText(bs, text)
    ensures '.' in text <==>
      && (forall i :: 0 <= i < 10 ==> bs[i] == 0)
      && ((bs[10] == 0xff && bs[11] == 0xff)
          || (bs[10] == 0 && bs[11] == 0 && (bs[12] != 0 || bs[13] != 0) && (bs[14] != 0 || bs[15] != 0)))
    ensures '.' !in text ==> Plain(text)
    ensures '.' in text ==> exists pos :: FourParts(text, pos)
  {
    hide Numeral, Join, Quad;
    var ws := WordsOf(bs);
    DottedBytes(bs);
    if Dotted(ws) {
      var pre, quad := QuadPrefix(ws[5]), Quad(bs[12], bs[13], bs[14], bs[15]);
      QuadParts(bs[12], bs[13], bs[14], bs[15]);
      PrefixPlain(ws[5]);
      PartsAfter(pre, quad);
      assert text == pre + quad && quad <= quad;
      var i :| 0 <= i < |quad| && quad[i] == '.';
      assert text[|pre| + i] == '.';
      assert FourParts(text, |pre|);
    } else {
      var pos, len :| IsGap(ws, pos, len) && text == WithGap(ws, pos, len);
      WithGapPlain(ws, pos, len);
    }
  }

  lemma WithGapPlain(ws: seq<nat>, pos: int, len: int)
    requires pos < 0 || ZeroRun(ws, pos, len)
    ensures Plain(WithGap(ws, pos, len))
  {
    hide Join;
    if pos < 0 {
      JoinPlain(ws);
    } else {
      JoinPlain(ws[..pos]);
      JoinPlain(ws[pos + len..]);
      PlainBoth(Join(ws[..pos]), "::");
      PlainBoth(Join(ws[..pos]) + "::", Join(ws[pos + len..]));
    }
  }

  lemma PrefixPlain(w: nat)
    ensures Plain(QuadPrefix(w))
  {
    hide Numeral;
    NumeralPlain(w, 16);
    if w != 0 {
      PlainBoth("::", Numeral(w, 16));
      PlainBoth("::" + Numeral(w, 16), ":");
    }
  }

  lemma PartsAfter(pre: string, quad: string)
    requires Plain(pre) && FourParts(quad, 0)
    ensures FourParts(pre + quad, |pre|)
  {
    assert (pre + quad)[..|pre|] == pre;
  }

  lemma DottedBytes(bs: seq<nat>)
    requires IsBytes(bs)
    ensures Dotted(WordsOf(bs)) <==>
      && (forall i :: 0 <= i < 10 ==> bs[i] == 0)
      && ((bs[10] == 0xff && bs[11] == 0xff)
          || (bs[10] == 0 && bs[11] == 0 && (bs[12] != 0 || bs[13] != 0) && (bs[14] != 0 || bs[15] != 0)))
  {
    var ws := WordsOf(bs);
    forall k | 0 <= k < 8 ensures ws[k] == bs[2 * k] * 256 + bs[2 * k + 1] {
    }
    assert ws[0] == bs[0] * 256 + bs[1] && ws[1] == bs[2] * 256 + bs[3] && ws[2] == bs[4] * 256 + bs[5];
    assert ws[3] == bs[6] * 256 + bs[7] && ws[4] == bs[8] * 256 + bs[9] && ws[5] == bs[10] * 256 + bs[11];
    assert ws[6] == bs[12] * 256 + bs[13] && ws[7] == bs[14] * 256 + bs[15];
  }
}
