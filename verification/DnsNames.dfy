/** DNS names: their text, their labels, and what the bytes at a position of a message denote (RFC 1035,
    sections 3.1 and 4.1.4). */
module DnsNames {
  import opened Common

  const DOT: byte := 46
  const MAX_LABEL: nat := 63
  const MAX_NAME: nat := 255
  const MAX_POINTER: nat := 0x4000

  type Label = seq<byte>

  /** The index of the first dot, or the length if there is none. */
  function FirstDot(name: seq<byte>): (d: nat)
    ensures d <= |name| && (d < |name| ==> name[d] == DOT) && forall i :: 0 <= i < d ==> name[i] != DOT
  {
    if name == [] || name[0] == DOT then 0 else 1 + FirstDot(name[1..])
  }

  /** The labels of a name in its text form; a final dot adds none. */
  function Labels(name: seq<byte>): seq<Label>
    decreases |name|
  {
    var d := FirstDot(name);
    if name == [] then []
    else if d == |name| then [name]
    else [name[..d]] + Labels(name[d + 1..])
  }

  /** The text form of labels. */
  function Join(ls: seq<Label>): seq<byte> {
    if ls == [] then []
    else if |ls| == 1 then ls[0]
    else ls[0] + [DOT] + Join(ls[1..])
  }

  /** A C string without empty labels, except that it may end in a dot or be empty. */
  predicate WellFormed(name: seq<byte>)
    decreases |name|
  {
    var d := FirstDot(name);
    && 0 !in name
    && (name != [] ==> 0 < d)
    && (d < |name| ==> WellFormed(name[d + 1..]))
  }

  predicate GoodLabel(l: Label) {
    1 <= |l| <= MAX_LABEL && 0 !in l
  }

  predicate GoodLabels(ls: seq<Label>) {
    forall i :: 0 <= i < |ls| ==> GoodLabel(ls[i])
  }

  /** Splitting a name without a final dot into labels and joining them again gives the name back. */
  lemma {:induction false} JoinLabels(name: seq<byte>)
    requires WellFormed(name) && (name != [] ==> name[|name| - 1] != DOT)
    ensures Join(Labels(name)) == name
    decreases |name|
  {
    var d := FirstDot(name);
    if name != [] && d < |name| {
      var rest := name[d + 1..];
      assert rest != [] && rest[|rest| - 1] == name[|name| - 1];
      JoinLabels(rest);
      assert name == name[..d] + [DOT] + rest;
      assert ([name[..d]] + Labels(rest))[1..] == Labels(rest);
      assert Labels(rest) != [];
    }
  }

  lemma {:induction false} JoinPush(ls: seq<Label>, l: Label)
    ensures Join(ls + [l]) == if ls == [] then l else Join(ls) + [DOT] + l
  {
    if |ls| == 1 {
      assert (ls + [l])[1..] == [l];
    } else if |ls| > 1 {
      JoinPush(ls[1..], l);
      assert (ls + [l])[1..] == ls[1..] + [l];
    }
  }

  /** Joining more labels makes the text longer. */
  lemma {:induction false} JoinGrows(a: seq<Label>, b: seq<Label>)
    ensures |Join(a)| <= |Join(a + b)|
    ensures b != [] ==> |Join(a)| + (if a == [] then 0 else 1) + |b[0]| <= |Join(a + b)|
    decreases |b|
  {
    if b == [] {
      assert a + b == a;
    } else {
      JoinPush(a, b[0]);
      JoinGrows(a + [b[0]], b[1..]);
      assert a + b == (a + [b[0]]) + b[1..];
    }
  }

  // ---- What the bytes of a message denote

  /** The two bytes of a compression pointer, and the position they name. */
  function PointerBytes(pos: nat): (byte, byte) {
    var w := 0xc000 + pos % MAX_POINTER;
    ((w / 256) as byte, (w % 256) as byte)
  }

  function Target(hi: byte, lo: byte): nat {
    (hi as nat % 64) * 256 + lo as nat
  }

  /** A pointer leads back to its position exactly when that fits into 14 bits. */
  lemma PointerExact(pos: nat)
    ensures PointerBytes(pos).0 >= 192
    ensures Target(PointerBytes(pos).0, PointerBytes(pos).1) == pos <==> pos < MAX_POINTER
  {
  }

  predicate LabelAt(p: seq<byte>, pos: nat, l: Label) {
    && 1 <= |l| <= MAX_LABEL && pos + 1 + |l| <= |p|
    && p[pos] as int == |l| && p[pos + 1..pos + 1 + |l|] == l
  }

  /** Following `hops` pointers from `pos`, one reads the labels and then a zero. */
  predicate Denotes(p: seq<byte>, pos: nat, hops: nat, ls: seq<Label>)
    decreases hops, |ls|
  {
    && pos < |p|
    && if p[pos] == 0 then hops == 0 && ls == []
       else if p[pos] >= 64 then
         && pos + 1 < |p| && hops > 0
         && Denotes(p, Target(p[pos], p[pos + 1]), hops - 1, ls)
       else
         && ls != [] && LabelAt(p, pos, ls[0])
         && Denotes(p, pos + 1 + |ls[0]|, hops, ls[1..])
  }

  /** The index just past the bytes at `pos` that denote a name, without what pointers lead to. */
  function End(p: seq<byte>, pos: nat): nat
    decreases |p| - pos
  {
    if pos >= |p| then pos
    else if p[pos] >= 64 then pos + 2
    else if p[pos] == 0 then pos + 1
    else End(p, pos + 1 + p[pos] as nat)
  }

  /** The bytes at a position denote one thing at most. */
  lemma {:induction false} DenotesOne(p: seq<byte>, pos: nat, h: nat, ls: seq<Label>, h': nat, ls': seq<Label>)
    requires Denotes(p, pos, h, ls) && Denotes(p, pos, h', ls')
    ensures h == h' && ls == ls'
    decreases h, |ls|
  {
    if p[pos] >= 64 {
      DenotesOne(p, Target(p[pos], p[pos + 1]), h - 1, ls, h' - 1, ls');
    } else if p[pos] != 0 {
      assert ls[0] == ls'[0];
      DenotesOne(p, pos + 1 + |ls[0]|, h, ls[1..], h', ls'[1..]);
      assert ls == [ls[0]] + ls[1..] && ls' == [ls[0]] + ls'[1..];
    }
  }

  /** The positions of the pointers that are followed. */
  ghost function Pointers(p: seq<byte>, pos: nat, hops: nat, ls: seq<Label>): set<nat>
    requires Denotes(p, pos, hops, ls)
    decreases hops, |ls|
  {
    if p[pos] == 0 then {}
    else if p[pos] >= 64 then {pos} + Pointers(p, Target(p[pos], p[pos + 1]), hops - 1, ls)
    else Pointers(p, pos + 1 + |ls[0]|, hops, ls[1..])
  }

  /** From the k-th pointer of a walk the same name's rest is read with fewer hops. */
  lemma {:induction false} PointersLater(p: seq<byte>, pos: nat, hops: nat, ls: seq<Label>, q: nat)
    requires Denotes(p, pos, hops, ls) && q in Pointers(p, pos, hops, ls)
    ensures exists h: nat, l: seq<Label> :: h <= hops && Denotes(p, q, h, l)
    decreases hops, |ls|
  {
    if p[pos] >= 64 {
      if q != pos {
        PointersLater(p, Target(p[pos], p[pos + 1]), hops - 1, ls, q);
      }
    } else if p[pos] != 0 {
      PointersLater(p, pos + 1 + |ls[0]|, hops, ls[1..], q);
    }
  }

  lemma {:induction false} PointersCount(p: seq<byte>, pos: nat, hops: nat, ls: seq<Label>)
    requires Denotes(p, pos, hops, ls)
    ensures |Pointers(p, pos, hops, ls)| == hops
    ensures forall q :: q in Pointers(p, pos, hops, ls) ==> q < |p|
    decreases hops, |ls|
  {
    if p[pos] >= 64 {
      var to := Target(p[pos], p[pos + 1]);
      PointersCount(p, to, hops - 1, ls);
      if pos in Pointers(p, to, hops - 1, ls) {
        PointersLater(p, to, hops - 1, ls, pos);
        var h: nat, l: seq<Label> :| h <= hops - 1 && Denotes(p, pos, h, l);
        DenotesOne(p, pos, h, l, hops, ls);
        assert false;
      }
    } else if p[pos] != 0 {
      PointersCount(p, pos + 1 + |ls[0]|, hops, ls[1..]);
    }
  }

  lemma {:induction false} Pigeonhole(s: set<nat>, n: nat)
    requires forall x :: x in s ==> x < n
    ensures |s| <= n
  {
    if n > 0 {
      Pigeonhole(s - {n - 1}, n - 1);
      if n - 1 in s {
        assert |s - {n - 1}| == |s| - 1;
      } else {
        assert s - {n - 1} == s;
      }
    } else {
      assert s == {};
    }
  }

  /** Whatever can be read at all is read by following no more pointers than the message has bytes. */
  lemma HopsBounded(p: seq<byte>, pos: nat, hops: nat, ls: seq<Label>)
    requires Denotes(p, pos, hops, ls)
    ensures hops <= |p|
  {
    PointersCount(p, pos, hops, ls);
    Pigeonhole(Pointers(p, pos, hops, ls), |p|);
  }

  /** Reading from `start` has come to `j` after `count` hops and the labels `seen`: what is denoted at `start`
      is `seen` and what is denoted at `j`. */
  ghost predicate Came(p: seq<byte>, start: nat, j: nat, count: nat, seen: seq<Label>) {
    && (forall h: nat, ls: seq<Label> {:trigger Denotes(p, j, h, ls)} ::
          Denotes(p, j, h, ls) ==> Denotes(p, start, count + h, seen + ls))
    && (forall h: nat, ls: seq<Label> {:trigger Denotes(p, start, h, ls)} ::
          Denotes(p, start, h, ls) ==>
            count <= h && |seen| <= |ls| && ls[..|seen|] == seen && Denotes(p, j, h - count, ls[|seen|..]))
  }

  lemma CameHop(p: seq<byte>, start: nat, j: nat, count: nat, seen: seq<Label>)
    requires Came(p, start, j, count, seen) && j + 1 < |p| && p[j] >= 64
    ensures Came(p, start, Target(p[j], p[j + 1]), count + 1, seen)
  {
    var to := Target(p[j], p[j + 1]);
    forall h: nat, ls: seq<Label> | Denotes(p, to, h, ls) ensures Denotes(p, start, count + 1 + h, seen + ls) {
      assert Denotes(p, j, h + 1, ls);
      assert count + (h + 1) == count + 1 + h;
    }
  }

  lemma CameLabel(p: seq<byte>, start: nat, j: nat, count: nat, seen: seq<Label>, l: Label)
    requires Came(p, start, j, count, seen) && LabelAt(p, j, l)
    ensures Came(p, start, j + 1 + |l|, count, seen + [l])
  {
    var next := j + 1 + |l|;
    forall h: nat, ls: seq<Label> | Denotes(p, next, h, ls)
      ensures Denotes(p, start, count + h, seen + [l] + ls)
    {
      assert ([l] + ls)[1..] == ls;
      assert Denotes(p, j, h, [l] + ls);
      assert seen + [l] + ls == seen + ([l] + ls);
    }
    forall h: nat, ls: seq<Label> | Denotes(p, start, h, ls)
      ensures count <= h && |seen + [l]| <= |ls| && ls[..|seen + [l]|] == seen + [l]
      ensures Denotes(p, j + 1 + |l|, h - count, ls[|seen + [l]|..])
    {
      var rest := ls[|seen|..];
      assert Denotes(p, j, h - count, rest);
      assert rest[0] == l;
      assert rest[1..] == ls[|seen + [l]|..];
      assert ls[..|seen + [l]|] == ls[..|seen|] + [rest[0]];
    }
  }

  /** A name can be read at `start` and leaves room for a terminator in `room` characters. */
  ghost predicate Readable(p: seq<byte>, start: nat, room: nat) {
    exists h: nat, ls: seq<Label> :: Denotes(p, start, h, ls) && |Join(ls)| < room
  }

  lemma CameNowhere(p: seq<byte>, start: nat, j: nat, count: nat, seen: seq<Label>, room: nat)
    requires Came(p, start, j, count, seen)
    requires forall h: nat, ls: seq<Label> :: Denotes(p, j, h, ls) ==> |Join(seen + ls)| >= room
    ensures !Readable(p, start, room)
  {
    forall h: nat, ls: seq<Label> | Denotes(p, start, h, ls) ensures |Join(ls)| >= room {
      assert Denotes(p, j, h - count, ls[|seen|..]);
      assert ls == seen + ls[|seen|..];
    }
  }

  /** Past the limit on hops there is nothing to be read. */
  lemma CameTooOften(p: seq<byte>, start: nat, j: nat, count: nat, seen: seq<Label>, room: nat)
    requires Came(p, start, j, count, seen) && count > |p|
    ensures !Readable(p, start, room)
  {
    if Readable(p, start, room) {
      var h: nat, ls: seq<Label> :| Denotes(p, start, h, ls) && |Join(ls)| < room;
      HopsBounded(p, start, h, ls);
      assert false;
    }
  }

  /** Too little room for the next label. */
  lemma CameTooLong(p: seq<byte>, start: nat, j: nat, count: nat, seen: seq<Label>, room: nat)
    requires Came(p, start, j, count, seen) && j < |p| && 0 < p[j] < 64
    requires |Join(seen)| + (if seen == [] then 0 else 1) + p[j] as nat >= room
    ensures !Readable(p, start, room)
  {
    forall h: nat, ls: seq<Label> | Denotes(p, j, h, ls) ensures |Join(seen + ls)| >= room {
      JoinGrows(seen, ls);
    }
    CameNowhere(p, start, j, count, seen, room);
  }

  lemma CameToEnd(p: seq<byte>, start: nat, j: nat, count: nat, seen: seq<Label>, room: nat)
    requires Came(p, start, j, count, seen) && j < |p| && p[j] == 0
    ensures Denotes(p, start, count, seen)
    ensures Readable(p, start, room) <==> |Join(seen)| < room
  {
    assert Denotes(p, j, 0, []);
    assert seen + [] == seen && count + 0 == count;
    forall h: nat, ls: seq<Label> | Denotes(p, start, h, ls) ensures ls == seen {
      DenotesOne(p, start, h, ls, count, seen);
    }
  }

  datatype ParseResult = Failed | Parsed(name: seq<byte>, next: nat)

  /** What parsing at `idx` with room for `room` characters must give: it succeeds exactly when a name can be read
      there and fits with its terminator, and then gives that name's text and the index just past its bytes. */
  ghost predicate IsParse(p: seq<byte>, idx: nat, room: nat, r: ParseResult) {
    && (r.Parsed? <==> Readable(p, idx, room))
    && (r.Parsed? ==>
          && |r.name| < room && idx < r.next <= |p| && r.next == End(p, idx)
          && exists h: nat, ls: seq<Label> :: Denotes(p, idx, h, ls) && r.name == Join(ls))
  }

  /** `name_parse`; it ends on every packet, also when pointers lead in circles. */
  method NameParse(p: seq<byte>, idx: nat, room: nat) returns (r: ParseResult)
    ensures IsParse(p, idx, room, r)
  {
    hide Came, Readable;
    var nameEnd: int, j: nat, ptrCount: nat := -1, idx, 0;
    var out: seq<byte> := [];
    ghost var seen: seq<Label> := [];
    CameStart(p, idx);
    while true
      invariant Came(p, idx, j, ptrCount, seen) && out == Join(seen) && (out == [] <==> seen == [])
      invariant ptrCount <= |p|
      invariant nameEnd < 0 ==> End(p, j) == End(p, idx) && idx <= j
      invariant nameEnd >= 0 ==> nameEnd == End(p, idx) && idx < nameEnd <= |p|
      invariant out == [] || |out| < room
      decreases |p| - ptrCount, |p| - j
    {
      if j >= |p| { CameNothing(p, idx, j, ptrCount, seen, room); return Failed; }
      var labelLen := p[j];
      if labelLen == 0 { break; }
      if labelLen >= 64 {
        if j + 1 >= |p| { CameNothing(p, idx, j, ptrCount, seen, room); return Failed; }
        CameHop(p, idx, j, ptrCount, seen);
        if nameEnd < 0 { nameEnd := j + 2; }
        j := Target(labelLen, p[j + 1]);
        if j >= |p| { CameNothing(p, idx, j, ptrCount + 1, seen, room); return Failed; }
        ptrCount := ptrCount + 1;
        if ptrCount > |p| { CameTooOften(p, idx, j, ptrCount, seen, room); return Failed; }
        continue;
      }
      var n := labelLen as nat;
      var dot := if out != [] then 1 else 0;
      if dot == 1 && |out| + 1 >= room { CameTooLong(p, idx, j, ptrCount, seen, room); return Failed; }
      if |out| + dot + n >= room { CameTooLong(p, idx, j, ptrCount, seen, room); return Failed; }
      if j + 1 + n > |p| { CameNothing(p, idx, j, ptrCount, seen, room); return Failed; }
      var text := p[j + 1..j + 1 + n];
      CameLabel(p, idx, j, ptrCount, seen, text);
      JoinPush(seen, text);
      out := (if out != [] then out + [DOT] else []) + text;
      j := j + 1 + n;
      seen := seen + [text];
    }
    CameToEnd(p, idx, j, ptrCount, seen, room);
    if |out| >= room { return Failed; }
    r := Parsed(out, if nameEnd < 0 then j + 1 else nameEnd);
  }

  lemma CameStart(p: seq<byte>, start: nat)
    ensures Came(p, start, start, 0, [])
  {
    forall h: nat, ls: seq<Label> | Denotes(p, start, h, ls)
      ensures Denotes(p, start, 0 + h, [] + ls) && Denotes(p, start, h - 0, ls[0..])
    {
      assert [] + ls == ls && ls[0..] == ls;
    }
  }

  lemma CameNothing(p: seq<byte>, start: nat, j: nat, count: nat, seen: seq<Label>, room: nat)
    requires Came(p, start, j, count, seen)
    requires j >= |p| || (p[j] >= 64 && j + 1 >= |p|) || (0 < p[j] < 64 && j + 1 + p[j] as nat > |p|)
    ensures !Readable(p, start, room)
  {
    CameNowhere(p, start, j, count, seen, room);
  }
}
