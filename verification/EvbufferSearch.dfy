/** Pointers into a buffer and searching it for a pattern. */
module EvbufferSearch {
  import opened Common
  import opened EvbufferChains
  import opened EvbufferCore

  datatype Option<T> = None | Some(value: T)

  const NOT_FOUND := Ptr(-1, null, 0)

  /** A pointer that names a byte, or the end of the buffer. */
  ghost predicate Canonical(buf: Evbuffer, p: Ptr, k: nat)
    reads buf
  {
    PtrAt(buf, p, k) && (k < |buf.chains| ==> p.posInChain < buf.view[k].off)
  }

  /** The loop of evbuffer_ptr_set: go `left` bytes on from a pointer. */
  method PtrWalk(buf: Evbuffer, from: Ptr, distance: nat, ghost k0: nat) returns (ok: bool, p: Ptr, ghost k: nat)
    requires buf.Valid() && PtrAt(buf, from, k0)
    ensures ok <==> from.pos + distance <= buf.totalLen
    ensures if ok then p.pos == from.pos + distance && Canonical(buf, p, k) else p == NOT_FOUND
  {
    hide Pictures, Flat, Evbuffer.Valid, PtrAt;
    var at, left: nat := from, distance;
    k := k0;
    PtrNotAtEnd(buf, at, k);
    while at.chain != null && at.posInChain + left >= at.chain.off
      invariant PtrAt(buf, at, k) && at.pos + left == from.pos + distance
      invariant k <= |buf.chains| == |buf.view| && (k == |buf.chains| <==> at.chain == null)
      invariant (k == |buf.chains| ==> at.pos == buf.totalLen)
      invariant k < |buf.chains| ==>
        at.chain == buf.chains[k] && at.chain.off == buf.view[k].off && at.posInChain <= at.chain.off
      decreases |buf.chains| - k
    {
      PtrChain(buf, at, k, 0);
      var chain := at.chain;
      left := left - (chain.off - at.posInChain);
      at := Ptr(at.pos + chain.off - at.posInChain, chain.next, 0);
      k := k + 1;
      PtrNotAtEnd(buf, at, k);
    }
    if at.chain != null {
      PtrChain(buf, at, k, left);
      ok, p := true, Ptr(at.pos + left, at.chain, at.posInChain + left);
    } else if left == 0 {
      ok, p := true, at;
    } else {
      ok, p := false, NOT_FOUND;
    }
  }

  /** evbuffer_ptr_set with EVBUFFER_PTR_SET */
  method PtrSet(buf: Evbuffer, position: nat) returns (ok: bool, p: Ptr, ghost k: nat)
    requires buf.Valid()
    ensures ok <==> position <= buf.totalLen
    ensures if ok then p.pos == position && Canonical(buf, p, k) else p == NOT_FOUND
  {
    hide Pictures, Flat, Evbuffer.Valid;
    var start := StartPtr(buf);
    ok, p, k := PtrWalk(buf, start, position, 0);
  }

  /** evbuffer_ptr_set with EVBUFFER_PTR_ADD */
  method PtrAdd(buf: Evbuffer, from: Ptr, distance: nat, ghost k0: nat) returns (ok: bool, p: Ptr, ghost k: nat)
    requires buf.Valid() && (from.pos >= 0 ==> PtrAt(buf, from, k0))
    ensures ok <==> 0 <= from.pos <= SIZE_MAX - distance && from.pos + distance <= buf.totalLen
    ensures ok ==> p.pos == from.pos + distance && Canonical(buf, p, k)
    ensures !ok ==> p == NOT_FOUND || p == from
  {
    hide Pictures, Flat, Evbuffer.Valid;
    if from.pos < 0 || SIZE_MAX - distance < from.pos {
      return false, from, k0;
    }
    ok, p, k := PtrWalk(buf, from, distance, k0);
  }

  /** evbuffer_ptr_subtract: go back some bytes. */
  method PtrSubtract(buf: Evbuffer, from: Ptr, howfar: nat, ghost k0: nat) returns (ok: bool, p: Ptr, ghost k: nat)
    requires buf.Valid() && (from.pos >= 0 ==> Canonical(buf, from, k0))
    ensures ok <==> howfar <= from.pos
    ensures ok ==> p.pos == from.pos - howfar && Canonical(buf, p, k)
    ensures !ok ==> p == from
  {
    hide Pictures, Flat, Evbuffer.Valid;
    if from.pos < 0 || howfar > from.pos {
      return false, from, k0;
    }
    buf.ContentsLen();
    if from.chain != null && howfar <= from.posInChain {
      ok, p, k := true, Ptr(from.pos - howfar, from.chain, from.posInChain - howfar), k0;
    } else {
      ok, p, k := PtrSet(buf, from.pos - howfar);
    }
  }

  /** What a scan looks for. */
  datatype Target = Byte(c: byte) | CrOrLf

  const CR: byte := 13
  const LF: byte := 10
  const CHUNK_SZ: nat := 128

  predicate Hits(t: Target, b: byte) {
    match t
    case Byte(c) => b == c
    case CrOrLf => b == CR || b == LF
  }

  /** r is the first hit in s[lo..hi], or -1. */
  predicate FirstHit(t: Target, s: seq<byte>, lo: nat, hi: nat, r: int)
    requires lo <= hi <= |s|
  {
    && (r == -1 || (lo <= r < hi && Hits(t, s[r])))
    && forall i :: lo <= i < (if r == -1 then hi else r) ==> !Hits(t, s[i])
  }

  /** memchr */
  method Memchr(mem: array<byte>, lo: nat, hi: nat, c: byte) returns (r: int)
    requires lo <= hi <= mem.Length
    ensures FirstHit(Byte(c), mem[..], lo, hi, r)
  {
    r := lo;
    while r < hi
      invariant lo <= r <= hi && forall i :: lo <= i < r ==> mem[i] != c
    {
      if mem[r] == c {
        return;
      }
      r := r + 1;
    }
    r := -1;
  }

  /** find_eol_char: the first CR or LF, looked for chunk by chunk. */
  method FindEolChar(mem: array<byte>, lo: nat, hi: nat) returns (r: int)
    requires lo <= hi <= mem.Length
    ensures FirstHit(CrOrLf, mem[..], lo, hi, r)
  {
    var s := lo;
    while s < hi
      invariant lo <= s && forall i :: lo <= i < s && i < hi ==> !Hits(CrOrLf, mem[i])
      decreases hi - s
    {
      var chunk := if s + CHUNK_SZ < hi then CHUNK_SZ else hi - s;
      var cr := Memchr(mem, s, s + chunk, CR);
      var lf := Memchr(mem, s, s + chunk, LF);
      if cr != -1 {
        if lf != -1 && lf < cr {
          return lf;
        }
        return cr;
      } else if lf != -1 {
        return lf;
      }
      s := s + CHUNK_SZ;
    }
    r := -1;
  }

  /** evbuffer_strchr and evbuffer_find_eol_char: the first hit at or after a pointer. */
  method Scan(buf: Evbuffer, start: Ptr, t: Target, ghost k0: nat) returns (p: Ptr, ghost k: nat)
    requires buf.Valid() && PtrAt(buf, start, k0)
    ensures |buf.Contents()| == buf.totalLen && 0 <= start.pos <= buf.totalLen
    ensures FirstHit(t, buf.Contents(), start.pos, buf.totalLen, p.pos)
    ensures if p.pos == -1 then p == NOT_FOUND else Canonical(buf, p, k)
  {
    hide Pictures, Flat, Evbuffer.Valid, PtrAt;
    var at := start;
    k := k0;
    buf.ContentsLen();
    PtrNotAtEnd(buf, at, k);
    while at.chain != null
      invariant PtrAt(buf, at, k) && start.pos <= at.pos <= buf.totalLen
      invariant k <= |buf.chains| && (k == |buf.chains| <==> at.chain == null)
      invariant (k == |buf.chains| ==> at.pos == buf.totalLen)
      invariant k < |buf.chains| ==>
        at.chain == buf.chains[k] && at.chain.off == buf.view[k].off && at.posInChain <= at.chain.off
      invariant FirstHit(t, buf.Contents(), start.pos, at.pos, -1)
      decreases |buf.chains| - k
    {
      var chain := at.chain;
      var r := ScanChain(buf, at, t, k);
      if r != -1 {
        p := Ptr(at.pos + r, chain, at.posInChain + r);
        return;
      }
      PtrChain(buf, at, k, 0);
      at := Ptr(at.pos + chain.off - at.posInChain, chain.next, 0);
      k := k + 1;
      PtrNotAtEnd(buf, at, k);
    }
    p := NOT_FOUND;
  }

  /** The first hit in the rest of one chain, counted from the pointer. */
  method ScanChain(buf: Evbuffer, at: Ptr, t: Target, ghost k: nat) returns (r: int)
    requires buf.Valid() && PtrAt(buf, at, k) && at.chain != null
    ensures |buf.Contents()| == buf.totalLen && k < |buf.chains| && at.posInChain <= at.chain.off
    ensures var n := at.chain.off - at.posInChain;
      && 0 <= at.pos <= at.pos + n <= buf.totalLen
      && (r != -1 ==> 0 <= r < n && Canonical(buf, Ptr(at.pos + r, at.chain, at.posInChain + r), k))
      && FirstHit(t, buf.Contents(), at.pos, at.pos + n, if r == -1 then -1 else at.pos + r)
  {
    hide Pictures, Flat, Evbuffer.Valid;
    buf.ContentsLen();
    PtrNotAtEnd(buf, at, k);
    var chain := at.chain;
    var n := chain.off - at.posInChain;
    PtrChain(buf, at, k, n);
    var lo := chain.misalign + at.posInChain;
    match t {
      case Byte(c) => r := Memchr(chain.buffer, lo, lo + n, c);
      case CrOrLf => r := FindEolChar(chain.buffer, lo, lo + n);
    }
    assert chain.buffer[..][lo..lo + n] == chain.buffer[lo..lo + n];
    HitShift(t, chain.buffer[..], buf.Contents(), lo, at.pos, n, r);
    if r != -1 {
      r := r - lo;
      PtrChain(buf, at, k, r);
    }
  }

  /** A first hit in a stretch is one wherever the stretch lies. */
  lemma HitShift(t: Target, s: seq<byte>, c: seq<byte>, lo: nat, at: nat, n: nat, r: int)
    requires lo + n <= |s| && at + n <= |c| && FirstHit(t, s, lo, lo + n, r)
    requires s[lo..lo + n] == c[at..at + n]
    ensures FirstHit(t, c, at, at + n, if r == -1 then -1 else at + r - lo)
  {
    forall i | at <= i < (if r == -1 then at + n else at + r - lo)
      ensures !Hits(t, c[i])
    {
      assert c[i] == c[at..at + n][i - at] == s[lo..lo + n][i - at] == s[lo + i - at];
    }
    if r != -1 {
      assert s[r] == s[lo..lo + n][r - lo] == c[at..at + n][r - lo];
    }
  }

  predicate MatchesAt(c: seq<byte>, what: seq<byte>, i: nat) {
    i + |what| <= |c| && c[i..i + |what|] == what
  }

  predicate NoMatch(c: seq<byte>, what: seq<byte>, lo: nat, hi: nat) {
    forall i: nat :: lo <= i < hi ==> !MatchesAt(c, what, i)
  }

  /** evbuffer_ptr_memcmp: does the pattern lie at the pointer? */
  method PtrMatches(buf: Evbuffer, at: Ptr, what: seq<byte>, ghost k0: nat) returns (same: bool)
    requires buf.Valid() && PtrAt(buf, at, k0)
    ensures same <==> MatchesAt(buf.Contents(), what, at.pos)
  {
    hide Pictures, Flat, Evbuffer.Valid, PtrAt;
    buf.ContentsLen();
    PtrNotAtEnd(buf, at, k0);
    if at.pos + |what| > buf.totalLen {
      return false;
    }
    var p, done := at, 0;
    ghost var k := k0;
    while done < |what| && p.chain != null
      invariant 0 <= done <= |what| && PtrAt(buf, p, k) && k <= |buf.chains|
      invariant done < |what| ==> p.pos == at.pos + done && p.chain != null
      invariant what[..done] == buf.Contents()[at.pos..at.pos + done]
      decreases |buf.chains| - k
    {
      var n, next := PtrCompare(buf, p, what[done..], k);
      if n == -1 {
        assert what[done..] != buf.Contents()[at.pos..at.pos + |what|][done..];
        return false;
      }
      SameSoFar(buf.Contents(), what, at.pos, done, n);
      done := done + n;
      p := next;
      k := k + 1;
      PtrNotAtEnd(buf, p, k);
    }
    assert what[..done] == what;
    return true;
  }

  lemma SameSoFar(s: seq<byte>, what: seq<byte>, at: nat, done: nat, n: nat)
    requires done + n <= |what| && at + done + n <= |s|
    requires what[..done] == s[at..at + done] && what[done..][..n] == s[at + done..at + done + n]
    ensures what[..done + n] == s[at..at + done + n]
  {
    assert what[..done + n] == what[..done] + what[done..][..n];
    assert s[at..at + done + n] == s[at..at + done] + s[at + done..at + done + n];
  }

  lemma SliceTake(s: seq<byte>, at: nat, n: nat, m: nat)
    requires n <= m && at + m <= |s|
    ensures s[at..at + m][..n] == s[at..at + n]
  {
  }

  /** Compare as much as one chain holds; n is -1 if it differs. */
  method PtrCompare(buf: Evbuffer, p: Ptr, what: seq<byte>, ghost k: nat) returns (n: int, next: Ptr)
    requires buf.Valid() && PtrAt(buf, p, k) && p.chain != null && p.pos + |what| <= buf.totalLen
    ensures |buf.Contents()| == buf.totalLen && 0 <= p.pos && k < |buf.chains| && PtrAt(buf, next, k + 1)
    ensures n == -1 ==> buf.Contents()[p.pos..p.pos + |what|] != what
    ensures n == -1 || 0 <= n <= |what|
    ensures n >= 0 ==> what[..n] == buf.Contents()[p.pos..p.pos + n]
    ensures 0 <= n < |what| ==> next.pos == p.pos + n
  {
    hide Pictures, Flat, Evbuffer.Valid;
    buf.ContentsLen();
    PtrNotAtEnd(buf, p, k);
    var chain := p.chain;
    n := if |what| + p.posInChain > chain.off then chain.off - p.posInChain else |what|;
    PtrChain(buf, p, k, n);
    next := Ptr(p.pos + chain.off - p.posInChain, chain.next, 0);
    var at := chain.misalign + p.posInChain;
    if chain.buffer[at..at + n] != what[..n] {
      SliceTake(buf.Contents(), p.pos, n, |what|);
      n := -1;
    }
  }

  /** evbuffer_search_range: the first place from `start` on where the pattern lies and ends by `end`. */
  method SearchRange(buf: Evbuffer, what: seq<byte>, start: Ptr, end: Option<Ptr>, ghost k0: nat, ghost ke: nat)
    returns (p: Ptr, ghost k: nat)
    requires buf.Valid() && PtrAt(buf, start, k0) && (end.Some? ==> PtrAt(buf, end.value, ke))
    ensures |buf.Contents()| == buf.totalLen && 0 <= start.pos
    ensures what == [] ==> p == start
    ensures what != [] && p.pos != -1 ==>
      && Canonical(buf, p, k)
      && start.pos <= p.pos && MatchesAt(buf.Contents(), what, p.pos) && NoMatch(buf.Contents(), what, start.pos, p.pos)
      && (end.Some? ==> p.pos + |what| <= end.value.pos)
    ensures what != [] && p.pos == -1 ==>
      && p == NOT_FOUND
      && forall i: nat :: start.pos <= i && MatchesAt(buf.Contents(), what, i) ==>
        end.Some? && i + |what| > end.value.pos
  {
    hide Pictures, Flat, Evbuffer.Valid, PtrAt, MatchesAt;
    var at := start;
    k := k0;
    buf.ContentsLen();
    PtrNotAtEnd(buf, at, k);
    if what == [] {
      return start, k;
    }
    while at.chain != null
      invariant PtrAt(buf, at, k) && start.pos <= at.pos <= buf.totalLen
      invariant k <= |buf.chains| && (k == |buf.chains| <==> at.chain == null)
      invariant (k == |buf.chains| ==> at.pos == buf.totalLen)
      invariant NoMatch(buf.Contents(), what, start.pos, at.pos)
      decreases buf.totalLen - at.pos, |buf.chains| - k
    {
      var r := ScanChain(buf, at, Byte(what[0]), k);
      if r != -1 {
        var hit := Ptr(at.pos + r, at.chain, at.posInChain + r);
        SkipMisses(buf.Contents(), what, at.pos, hit.pos);
        var same := PtrMatches(buf, hit, what, k);
        if same {
          if end.Some? && hit.pos + |what| > end.value.pos {
            LaterTooLate(buf.Contents(), what, start.pos, hit.pos, end.value.pos);
            return NOT_FOUND, 0;
          }
          return hit, k;
        }
        at, k := PtrNext(buf, hit, k);
      } else {
        var past := PtrPast(buf, at, k);
        SkipMisses(buf.Contents(), what, at.pos, past.pos);
        if end.Some? && at.chain == end.value.chain {
          EndInChain(buf, at, end.value, k, ke);
          LaterTooLate(buf.Contents(), what, start.pos, past.pos, end.value.pos);
          return NOT_FOUND, 0;
        }
        at, k := past, k + 1;
      }
      PtrNotAtEnd(buf, at, k);
    }
    NoneLeft(buf.Contents(), what, start.pos);
    p, k := NOT_FOUND, 0;
  }

  /** Where the pattern's first byte is not, the pattern is not. */
  lemma SkipMisses(c: seq<byte>, what: seq<byte>, lo: nat, hi: nat)
    requires what != [] && lo <= hi <= |c| && forall i :: lo <= i < hi ==> c[i] != what[0]
    ensures NoMatch(c, what, lo, hi)
  {
    forall i: nat | lo <= i < hi
      ensures !MatchesAt(c, what, i)
    {
      if i + |what| <= |c| {
        assert c[i..i + |what|][0] == c[i];
      }
    }
  }

  /** A match at or after a place that is too late is too late. */
  lemma LaterTooLate(c: seq<byte>, what: seq<byte>, lo: nat, at: nat, end: int)
    requires NoMatch(c, what, lo, at) && at + |what| > end
    ensures forall i: nat :: lo <= i && MatchesAt(c, what, i) ==> i + |what| > end
  {
  }

  lemma NoneLeft(c: seq<byte>, what: seq<byte>, lo: nat)
    requires NoMatch(c, what, lo, |c|) && what != []
    ensures forall i: nat :: lo <= i ==> !MatchesAt(c, what, i)
  {
  }

  /** The byte a pointer names. */
  method PtrByte(buf: Evbuffer, p: Ptr, ghost k: nat) returns (b: byte)
    requires buf.Valid() && PtrAt(buf, p, k) && p.chain != null && p.posInChain < p.chain.off
    ensures 0 <= p.pos < |buf.Contents()| && b == buf.Contents()[p.pos] && Canonical(buf, p, k)
  {
    hide Pictures, Flat, Evbuffer.Valid;
    buf.ContentsLen();
    PtrNotAtEnd(buf, p, k);
    PtrChain(buf, p, k, 1);
    var at := p.chain.misalign + p.posInChain;
    b := p.chain.buffer[at];
    assert b == p.chain.buffer[at..at + 1][0] == buf.Contents()[p.pos..p.pos + 1][0];
  }

  /** The pointer to the byte after the one a pointer names. */
  method PtrNext(buf: Evbuffer, p: Ptr, ghost k: nat) returns (next: Ptr, ghost k': nat)
    requires buf.Valid() && Canonical(buf, p, k) && p.chain != null
    ensures PtrAt(buf, next, k') && next.pos == p.pos + 1
  {
    hide Pictures, Flat, Evbuffer.Valid;
    PtrNotAtEnd(buf, p, k);
    PtrChain(buf, p, k, 1);
    if p.posInChain + 1 == p.chain.off {
      next, k' := Ptr(p.pos + 1, p.chain.next, 0), k + 1;
    } else {
      next, k' := Ptr(p.pos + 1, p.chain, p.posInChain + 1), k;
    }
  }

  /** The pointer to the start of the next chain. */
  method PtrPast(buf: Evbuffer, p: Ptr, ghost k: nat) returns (past: Ptr)
    requires buf.Valid() && PtrAt(buf, p, k) && p.chain != null
    ensures PtrAt(buf, past, k + 1) && past.pos == p.pos + p.chain.off - p.posInChain
  {
    hide Pictures, Flat, Evbuffer.Valid;
    PtrNotAtEnd(buf, p, k);
    PtrChain(buf, p, k, 0);
    past := Ptr(p.pos + p.chain.off - p.posInChain, p.chain.next, 0);
  }

  /** A pointer into the same chain is not past that chain's end. */
  lemma EndInChain(buf: Evbuffer, at: Ptr, end: Ptr, k: nat, ke: nat)
    requires buf.Valid() && PtrAt(buf, at, k) && PtrAt(buf, end, ke) && at.chain != null && at.chain == end.chain
    ensures end.pos <= at.pos + at.chain.off - at.posInChain
  {
    hide Pictures, Flat;
    PtrNotAtEnd(buf, at, k);
    PtrNotAtEnd(buf, end, ke);
    buf.DistinctAt(k, ke);
  }
}
