/** Line ends: finding them in every style, and taking lines out of a buffer. */
module EvbufferReadln {
  import opened Common
  import opened EvbufferChains
  import opened EvbufferCore
  import opened EvbufferDrain
  import opened EvbufferSearch

  datatype EolStyle = EolAny | EolCrlf | EolCrlfStrict | EolLf | EolNul

  /** The length of the run of CRs and LFs that starts at i. */
  function Run(c: seq<byte>, i: nat): (n: nat)
    ensures i + n <= |c| || n == 0
    decreases |c| - i
  {
    if i < |c| && Hits(CrOrLf, c[i]) then 1 + Run(c, i + 1) else 0
  }

  /** The length of the line end that starts at i, 0 if none does. */
  function EolLen(c: seq<byte>, i: nat, style: EolStyle): nat {
    if i >= |c| then 0
    else match style
      case EolAny => Run(c, i)
      case EolCrlfStrict => if MatchesAt(c, [CR, LF], i) then 2 else 0
      case EolCrlf => if c[i] == LF then 1 else if MatchesAt(c, [CR, LF], i) then 2 else 0
      case EolLf => if c[i] == LF then 1 else 0
      case EolNul => if c[i] == 0 then 1 else 0
  }

  /** No line end starts in c[lo..hi]. */
  predicate NoEol(c: seq<byte>, style: EolStyle, lo: nat, hi: nat) {
    forall i: nat :: lo <= i < hi ==> EolLen(c, i, style) == 0
  }

  /** evbuffer_strspn for CR and LF: how far the run goes on, across chains. */
  method Strspn(buf: Evbuffer, start: Ptr, ghost k0: nat) returns (count: nat)
    requires buf.Valid() && PtrAt(buf, start, k0)
    ensures 0 <= start.pos && count == Run(buf.Contents(), start.pos)
  {
    hide Pictures, Flat, Evbuffer.Valid, PtrAt;
    var at := start;
    ghost var k: nat := k0;
    count := 0;
    buf.ContentsLen();
    PtrNotAtEnd(buf, at, k);
    while at.chain != null
      invariant PtrAt(buf, at, k) && 0 <= start.pos <= at.pos == start.pos + count
      invariant k <= |buf.chains| && (at.chain == null ==> at.pos == |buf.Contents()|)
      invariant at.chain != null ==> at.posInChain <= at.chain.off
      invariant Run(buf.Contents(), start.pos) == count + Run(buf.Contents(), at.pos)
      decreases |buf.Contents()| - at.pos, |buf.chains| - k
    {
      if at.posInChain < at.chain.off {
        var b := PtrByte(buf, at, k);
        if b != CR && b != LF {
          return;
        }
        count := count + 1;
        at, k := PtrNext(buf, at, k);
      } else {
        at := PtrPast(buf, at, k);
        k := k + 1;
      }
      PtrNotAtEnd(buf, at, k);
    }
  }

  /** evbuffer_search_eol: the first line end at or after `start`, and its length. */
  method SearchEol(buf: Evbuffer, start: Option<Ptr>, style: EolStyle, ghost k0: nat)
    returns (it: Ptr, eolLen: nat, ghost k: nat)
    requires buf.Valid() && (start.Some? ==> PtrAt(buf, start.value, k0))
    ensures var c, from := buf.Contents(), if start.None? then 0 else start.value.pos;
      && |c| == buf.totalLen && 0 <= from
      && (it.pos == -1 ==> it == NOT_FOUND && eolLen == 0 && NoEol(c, style, from, |c|))
      && (it.pos != -1 ==> Canonical(buf, it, k) && from <= it.pos && NoEol(c, style, from, it.pos)
                           && eolLen == EolLen(c, it.pos, style) > 0)
  {
    hide Pictures, Flat, Evbuffer.Valid, PtrAt, Run;
    buf.ContentsLen();
    var s := Ptr(0, null, 0);
    k := k0;
    if start.Some? {
      s := start.value;
      PtrNotAtEnd(buf, s, k);
      if s.chain == null {
        return NOT_FOUND, 0, k;
      }
    } else {
      s := StartPtr(buf);
      k := 0;
    }
    match style {
      case EolAny =>
        it, k := Scan(buf, s, CrOrLf, k);
        RunsStart(buf.Contents());
        if it.pos == -1 {
          return NOT_FOUND, 0, k;
        }
        eolLen := Strspn(buf, it, k);
      case EolCrlfStrict =>
        it, k := SearchRange(buf, [CR, LF], s, None, k, 0);
        if it.pos == -1 {
          return NOT_FOUND, 0, k;
        }
        eolLen := 2;
      case EolCrlf =>
        it, eolLen, k := SearchCrlf(buf, s, k);
      case EolLf =>
        it, k := Scan(buf, s, Byte(LF), k);
        eolLen := if it.pos == -1 then 0 else 1;
      case EolNul =>
        it, k := Scan(buf, s, Byte(0), k);
        eolLen := if it.pos == -1 then 0 else 1;
    }
  }

  lemma RunsStart(c: seq<byte>)
    ensures forall i: nat :: i < |c| ==> (Run(c, i) > 0 <==> Hits(CrOrLf, c[i]))
  {
  }

  /** The EVBUFFER_EOL_CRLF case: an LF, and the CR before it unless the search started at the LF. */
  method SearchCrlf(buf: Evbuffer, start: Ptr, ghost k0: nat) returns (it: Ptr, eolLen: nat, ghost k: nat)
    requires buf.Valid() && PtrAt(buf, start, k0)
    ensures var c := buf.Contents();
      && |c| == buf.totalLen && 0 <= start.pos
      && (it.pos == -1 ==> it == NOT_FOUND && eolLen == 0 && NoEol(c, EolCrlf, start.pos, |c|))
      && (it.pos != -1 ==> Canonical(buf, it, k) && start.pos <= it.pos && NoEol(c, EolCrlf, start.pos, it.pos)
                           && eolLen == EolLen(c, it.pos, EolCrlf) > 0)
  {
    hide Pictures, Flat, Evbuffer.Valid, PtrAt, Run;
    it, k := Scan(buf, start, Byte(LF), k0);
    CrlfByLf(buf.Contents(), start.pos, it.pos);
    if it.pos == -1 {
      return NOT_FOUND, 0, k;
    }
    eolLen := 1;
    if it.pos == start.pos {
      return;
    }
    var ok, it2, k2 := PtrSubtract(buf, it, 1, k);
    if !ok {
      return;
    }
    PtrNotAtEnd(buf, it2, k2);
    if it2.chain != null {
      var b := PtrByte(buf, it2, k2);
      if b == CR {
        it, eolLen, k := it2, 2, k2;
      }
    }
  }

  /** Where CRLF line ends are, told by the first LF. */
  lemma CrlfByLf(c: seq<byte>, lo: nat, lf: int)
    requires lo <= |c| && FirstHit(Byte(LF), c, lo, |c|, lf)
    ensures lf == -1 ==> NoEol(c, EolCrlf, lo, |c|)
    ensures lf != -1 ==> NoEol(c, EolCrlf, lo, if lf > 0 then lf - 1 else 0) && EolLen(c, lf, EolCrlf) == 1
    ensures lf > lo ==> EolLen(c, lf - 1, EolCrlf) == if c[lf - 1] == CR then 2 else 0
  {
    forall i: nat | lo <= i < if lf == -1 then |c| else lf - 1
      ensures EolLen(c, i, EolCrlf) == 0
    {
      if i + 2 <= |c| {
        assert c[i..i + 2][1] == c[i + 1];
      }
    }
    if lf > lo {
      assert c[lf - 1..lf + 1] == [c[lf - 1], LF];
    }
  }

  /** evbuffer_readln: take one line and its end out of the buffer.  None if there is no whole line. */
  method Readln(buf: Evbuffer, style: EolStyle) returns (line: Option<seq<byte>>)
    requires buf.Valid()
    modifies buf, buf.repr
    ensures buf.Valid() && Kept(buf)
    ensures line.None? <==> buf.freezeStart || NoEol(old(buf.Contents()), style, 0, |old(buf.Contents())|)
    ensures line.None? ==> buf.Contents() == old(buf.Contents())
    ensures line.Some? ==> SplitsAt(old(buf.Contents()), style, line.value, buf.Contents())
  {
    hide Pictures, Flat, Evbuffer.Valid, PtrAt;
    if buf.freezeStart {
      return None;
    }
    var it, extraDrain, k := SearchEol(buf, None, style, 0);
    if it.pos == -1 {
      return None;
    }
    ghost var c := buf.Contents();
    EolFits(c, it.pos, style);
    PtrNotAtEnd(buf, it, k);
    var n, copied := Remove(buf, it.pos);
    assert copied == c[..it.pos] && buf.Contents() == c[it.pos..];
    buf.ContentsLen();
    var ok := Drain(buf, extraDrain);
    assert buf.Contents() == c[it.pos + extraDrain..];
    line := Some(copied);
  }

  /** The line is what precedes the first line end, and what is left is what follows it. */
  predicate SplitsAt(c: seq<byte>, style: EolStyle, line: seq<byte>, rest: seq<byte>) {
    && line <= c && NoEol(c, style, 0, |line|) && EolLen(c, |line|, style) > 0
    && |line| + EolLen(c, |line|, style) <= |c|
    && rest == c[|line| + EolLen(c, |line|, style)..]
  }

  lemma EolFits(c: seq<byte>, i: nat, style: EolStyle)
    requires EolLen(c, i, style) > 0
    ensures i + EolLen(c, i, style) <= |c|
  {
  }

  /** A line read in LF or CRLF style holds no LF; one read in ANY style holds neither CR nor LF, and what
      is left starts with neither. */
  lemma LinesAreClean(c: seq<byte>, style: EolStyle, line: seq<byte>, rest: seq<byte>)
    requires SplitsAt(c, style, line, rest)
    ensures style == EolLf || style == EolCrlf ==> LF !in line
    ensures style == EolAny ==> CR !in line && LF !in line && (rest != [] ==> rest[0] != CR && rest[0] != LF)
    ensures style == EolNul ==> 0 !in line
    ensures style == EolCrlfStrict ==> NoMatch(line, [CR, LF], 0, |line|)
  {
    forall i: nat | i < |line|
      ensures style != EolCrlfStrict ==> !(style == EolAny && line[i] == CR) && !(style != EolNul && line[i] == LF)
      ensures style == EolNul ==> line[i] != 0
    {
      assert line[i] == c[i] && EolLen(c, i, style) == 0;
    }
    if style == EolAny {
      RunEnds(c, |line|);
    }
    if style == EolCrlfStrict {
      forall i: nat | i < |line|
        ensures !MatchesAt(line, [CR, LF], i)
      {
        assert EolLen(c, i, style) == 0;
        if i + 2 <= |line| {
          assert line[i..i + 2] == c[i..i + 2];
        }
      }
    }
  }

  /** A run stops at a byte that is no CR or LF, or at the end. */
  lemma RunEnds(c: seq<byte>, i: nat)
    ensures i + Run(c, i) < |c| ==> !Hits(CrOrLf, c[i + Run(c, i)])
    decreases |c| - i
  {
    if i < |c| && Hits(CrOrLf, c[i]) {
      RunEnds(c, i + 1);
    }
  }
}
