/** When the buffer has room for the text but not for its terminator: the last character is lost, and what is left is
    never the address. */
module Inet6Short {
  import opened Inet6Text

  function Init(s: string): string
    requires s != ""
  {
    s[..|s| - 1]
  }

  lemma NumeralInit(n: nat, base: nat)
    requires base == 10 || base == 16
    ensures
      if n < base then Init(Numeral(n, base)) == ""
      else Init(Numeral(n, base)) == Numeral(n / base, base) && n / base < n
  {
    if n >= base {
      assert Numeral(n, base) == Numeral(n / base, base) + [DigitChar(n % base)];
    }
  }

  lemma {:induction false} JoinLast(ws: seq<nat>)
    requires ws != []
    ensures Join(ws) == (if |ws| == 1 then "" else Join(ws[..|ws| - 1]) + ":") + Numeral(ws[|ws| - 1], 16)
    decreases |ws|
  {
    hide Numeral;
    if |ws| > 1 {
      JoinLast(ws[1..]);
      var init := ws[..|ws| - 1];
      assert ws[1..][..|ws| - 2] == init[1..] && init[0] == ws[0];
      if |ws| == 2 {
        assert init == [ws[0]];
      }
    }
  }

  /** The text without its last character, which belongs to the last word. */
  lemma JoinInit(ws: seq<nat>)
    requires ws != []
    ensures Join(ws) != ""
    ensures var k, w := |ws| - 1, ws[|ws| - 1];
      Init(Join(ws)) ==
        if w >= 16 then Join(ws[..k] + [w / 16]) else if k == 0 then "" else Join(ws[..k]) + ":"
  {
    hide Join, Numeral;
    var k, w := |ws| - 1, ws[|ws| - 1];
    JoinLast(ws);
    NumeralInit(w, 16);
    if w >= 16 {
      var short := ws[..k] + [w / 16];
      JoinLast(short);
      assert short[..k] == ws[..k];
    }
  }

  lemma InitAfter(a: string, b: string)
    requires b != ""
    ensures Init(a + b) == a + Init(b)
  {
  }

  /** A colon after the last word changes nothing in the words. */
  lemma ScanColonAtEnd(a: seq<nat>)
    requires 0 < |a| < 8 && forall i :: 0 <= i < |a| ==> a[i] < 0x1_0000
    ensures Parsed(Join(a) + ":") == Refused
  {
    hide ScanWords, Join, Numeral;
    var text := Join(a) + ":";
    JoinChars(a);
    NoDot(text);
    assert text[0..|Join(a)|] == Join(a);
    ScanJoin(text, 0, |text|, [], -1, a);
    assert [] + a == a;
    ScanEnd(text, |text|, |text|, a, -1);
  }

  /** As `ScanGap`, with a colon after the last word. */
  lemma GapThenColon(a: seq<nat>, b: seq<nat>)
    requires |a| + |b| <= 7 && (forall i :: 0 <= i < |a| ==> a[i] < 0x1_0000)
    requires forall i :: 0 <= i < |b| ==> b[i] < 0x1_0000
    ensures Parsed(Join(a) + "::" + Join(b) + (if b == [] then "" else ":")) ==
      Address(a + seq(8 - |a| - |b|, i => 0) + b)
  {
    hide ScanWords, Join, Numeral;
    var text := Join(a) + "::" + Join(b) + (if b == [] then "" else ":");
    JoinChars(a);
    JoinChars(b);
    NoDot(text);
    GapThenColonScan(text, a, b);
    assert (a + b)[..|a|] == a && (a + b)[|a|..] == b;
    assert a + seq(8 - |a + b|, i => 0) + b + [] == a + seq(8 - |a| - |b|, i => 0) + b;
  }

  lemma GapThenColonScan(text: string, a: seq<nat>, b: seq<nat>)
    requires |a| + |b| <= 7 && (forall i :: 0 <= i < |a| ==> a[i] < 0x1_0000)
    requires forall i :: 0 <= i < |b| ==> b[i] < 0x1_0000
    requires text == Join(a) + "::" + Join(b) + (if b == [] then "" else ":")
    ensures ScanWords(text, 0, |text|, [], -1) == Scanned(a + b, |a|)
  {
    hide ScanWords, Join, Numeral;
    var n, m := |Join(a)|, |Join(b)|;
    assert text[n] == ':' && text[n + 1] == ':' && text[n + 2..n + 2 + m] == Join(b) && text[0..n] == Join(a);
    JoinEmpty();
    if a != [] {
      ScanJoin(text, 0, |text|, [], -1, a);
      assert [] + a == a;
      ScanColons(text, n + 1, |text|, a);
    } else {
      ScanColons(text, 0, |text|, []);
    }
    if b != [] {
      ScanJoin(text, n + 2, |text|, a, |a|, b);
    } else {
      assert a + b == a;
    }
    ScanEnd(text, n + 2 + m + (if b == [] then 0 else 1), |text|, a + b, |a|);
  }

  /** A word of one digit less at the end is another word. */
  lemma ShorterWord(ws: seq<nat>, pos: int, len: int)
    requires IsWords(ws) && IsGap(ws, pos, len) && (pos >= 0 ==> pos + len < 8) && ws[7] >= 16
    ensures Parsed(Init(WithGap(ws, pos, len))) != Address(ws)
  {
    hide Join, Parsed;
    var short := ws[7 := ws[7] / 16];
    if pos < 0 {
      JoinInit(ws);
      assert ws[..7] + [ws[7] / 16] == short;
    } else {
      var b := ws[pos + len..];
      JoinInit(b);
      InitAfter(Join(ws[..pos]) + "::", Join(b));
      assert short[..pos] == ws[..pos] && short[pos + len..] == b[..|b| - 1] + [b[|b| - 1] / 16];
    }
    WithGapParses(short, pos, len);
  }

  /** Without its last character the text of an address is refused, or read as another address. */
  lemma WithGapShort(ws: seq<nat>, pos: int, len: int)
    requires IsWords(ws) && IsGap(ws, pos, len)
    ensures WithGap(ws, pos, len) != "" && Parsed(Init(WithGap(ws, pos, len))) != Address(ws)
  {
    hide Join, Parsed, Numeral;
    JoinNotEmpty(ws);
    JoinEmpty();
    if pos < 0 {
      JoinInit(ws);
      if ws[7] >= 16 { ShorterWord(ws, pos, len); } else { ScanColonAtEnd(ws[..7]); }
    } else {
      var a, b := ws[..pos], ws[pos + len..];
      if b == [] {
        assert WithGap(ws, pos, len) == Join(a) + "::" && Init("::") == ":";
        InitAfter(Join(a), "::");
        assert a == [] ==> Join(a) + ":" == ":";
        if a != [] { ScanColonAtEnd(a); } else { OneColon(); }
      } else if ws[7] >= 16 {
        ShorterWord(ws, pos, len);
      } else {
        JoinInit(b);
        InitAfter(Join(a) + "::", Join(b));
        var c := b[..|b| - 1];
        GapThenColon(a, c);
        assert Init(WithGap(ws, pos, len)) == Join(a) + "::" + Join(c) + (if c == [] then "" else ":");
        assert b[0] == 0 ==> ZeroRun(ws, pos, len + 1);
        assert (a + seq(8 - |a| - |c|, i => 0) + c)[pos + len] == 0 && ws[pos + len] == b[0];
      }
    }
  }

  lemma OneColon()
    ensures Parsed(":") == Refused && Init("::") == ":"
  {
    FindNone(":", '.');
  }

  // ---- Dotted quads

  lemma QuadInit(a: nat, b: nat, c: nat, d: nat)
    ensures Quad(a, b, c, d) != ""
    ensures Init(Quad(a, b, c, d)) ==
      if d >= 10 then Quad(a, b, c, d / 10)
      else Numeral(a, 10) + Dot(Numeral(b, 10) + Dot(Numeral(c, 10) + Dot("")))
  {
    hide Numeral;
    NumeralInit(d, 10);
  }

  /** Three numbers are not a quad. */
  lemma ThreeNumbers(text: string, pos: nat, a: nat, b: nat, c: nat)
    requires pos <= |text|
    requires text[pos..] == Numeral(a, 10) + Dot(Numeral(b, 10) + Dot(Numeral(c, 10) + Dot("")))
    ensures ScanQuad(text, pos) == NoQuad
  {
    hide Numeral, ScanByte, Dot, ScanQuad;
    var r := Dot("");
    var q := Dot(Numeral(c, 10) + r);
    ScanByteOne(text, pos, a, Dot(Numeral(b, 10) + q), false);
    var i := pos + |Numeral(a, 10)| + 1;
    ScanByteOne(text, i, b, q, false);
    var j := i + |Numeral(b, 10)| + 1;
    ScanByteOne(text, j, c, r, false);
    NoByte(text, j + |Numeral(c, 10)| + 1);
    FourthMissing(text, pos, i, j, j + |Numeral(c, 10)| + 1);
  }

  lemma FourthMissing(text: string, p: nat, q: nat, r: nat, s: nat)
    requires p <= |text| && q <= |text| && r <= |text| && s <= |text|
    requires ScanByte(text, p, false).2 == q && ScanByte(text, q, false).2 == r && ScanByte(text, r, false).2 == s
    requires !ScanByte(text, s, true).0
    ensures ScanQuad(text, p) == NoQuad
  {
    hide ScanByte;
  }

  lemma NoByte(text: string, pos: nat)
    requires pos <= |text| && text[pos..] == ""
    ensures !ScanByte(text, pos, true).0
  {
  }

  lemma DottedRefused(w: nat, a: nat, b: nat, c: nat)
    ensures Parsed(QuadPrefix(w) + (Numeral(a, 10) + Dot(Numeral(b, 10) + Dot(Numeral(c, 10) + Dot(""))))) == Refused
  {
    hide ScanWords, Numeral, ScanQuad, QuadPrefix, Find, DigitsBefore, Dot, Parsed;
    var pre := QuadPrefix(w);
    var rest := Dot(Numeral(b, 10) + Dot(Numeral(c, 10) + Dot("")));
    var text := pre + (Numeral(a, 10) + rest);
    PrefixChars(w);
    DotAfter(pre, a, rest);
    assert text[|pre|..] == Numeral(a, 10) + rest;
    ThreeNumbers(text, |pre|, a, b, c);
    NoQuadRefused(text);
  }

  lemma NoQuadRefused(text: string)
    requires 0 < Find(text, '.') < |text| && ScanQuad(text, DigitsBefore(text, Find(text, '.'))).NoQuad?
    ensures Parsed(text) == Refused
  {
  }

  lemma DottedShort(bs: seq<nat>, text: string)
    requires IsBytes(bs) && Dotted(WordsOf(bs)) && IsText(bs, text)
    ensures text != "" && Parsed(Init(text)) != Address(WordsOf(bs))
  {
    hide ScanWords, Parsed, Numeral, Quad, QuadPrefix, ScanQuad;
    var ws, pre := WordsOf(bs), QuadPrefix(WordsOf(bs)[5]);
    var a, b, c, d := bs[12], bs[13], bs[14], bs[15];
    QuadInit(a, b, c, d);
    InitAfter(pre, Quad(a, b, c, d));
    if d >= 10 {
      var other := bs[15 := d / 10];
      assert IsBytes(other) && WordsOf(other)[..7] == ws[..7];
      assert WordsOf(other)[7] != ws[7] && WordsOf(other)[7] != 0;
      DottedParses(other, pre + Quad(a, b, c, d / 10));
    } else {
      DottedRefused(ws[5], a, b, c);
    }
  }

  /** Without its last character no text reads as the address it was meant for. */
  lemma ShortNeverParses(bs: seq<nat>, text: string)
    requires IsBytes(bs) && IsText(bs, text)
    ensures text != "" && Parsed(Init(text)) != Address(WordsOf(bs))
  {
    hide Parsed;
    if Dotted(WordsOf(bs)) {
      DottedShort(bs, text);
    } else {
      var pos, len :| IsGap(WordsOf(bs), pos, len) && text == WithGap(WordsOf(bs), pos, len);
      WithGapShort(WordsOf(bs), pos, len);
    }
  }
}
