/** The chains of an evbuffer: partly filled chunks of bytes, and what a list of them means. */
module EvbufferChains {
  import opened Common

  const SIZE_MAX: nat := 0xffff_ffff_ffff_ffff
  const CHAIN_MAX: nat := 0x7fff_ffff_ffff_ffff
  const CHAIN_SIZE: nat := 48
  const MIN_BUFFER_SIZE: nat := 1024

  /** A signed size as the unsigned length it is passed on as. */
  function Unsigned(size: int): nat
    requires 0 <= size + SIZE_MAX + 1
  {
    if size < 0 then size + SIZE_MAX + 1 else size
  }

  /** A chain can be allocated for this many bytes. */
  predicate CanAllocate(size: nat) {
    size <= CHAIN_MAX - CHAIN_SIZE
  }

  /** The value of one chain: its whole memory, and where in it the data lies. */
  datatype RawChain = RawChain(mem: seq<byte>, misalign: nat, off: nat, immutable: bool) {
    predicate Ok() {
      && misalign + off <= |mem|
      && (immutable ==> misalign + off == |mem| && (off == 0 ==> |mem| == 0))
      && CanAllocate(|mem|)
    }

    function Data(): (d: seq<byte>)
      requires Ok()
      ensures |d| == off
    {
      mem[misalign..misalign + off]
    }

    function SpaceLen(): nat
      requires Ok()
    {
      if immutable then 0 else |mem| - (misalign + off)
    }

    /** The chain after bytes are copied into its memory. */
    function Written(at: nat, data: seq<byte>): (c: RawChain)
      requires Ok() && at + |data| <= |mem|
      ensures c.Ok()
    {
      this.(mem := mem[..at] + data + mem[at + |data|..])
    }
  }

  type ChainVal = c: RawChain | c.Ok() witness RawChain([], 0, 0, false)

  type View = seq<ChainVal>

  /** The bytes a list of chains holds, in order. */
  function Flat(v: View): seq<byte> {
    if v == [] then [] else v[0].Data() + Flat(v[1..])
  }

  predicate AllEmpty(v: View) {
    forall i :: 0 <= i < |v| ==> v[i].off == 0
  }

  lemma {:induction false} FlatConcat(a: View, b: View)
    ensures Flat(a + b) == Flat(a) + Flat(b)
  {
    if a == [] {
      assert a + b == b;
    } else {
      assert (a + b)[1..] == a[1..] + b;
      FlatConcat(a[1..], b);
    }
  }

  lemma {:induction false} FlatAllEmpty(v: View)
    requires AllEmpty(v)
    ensures Flat(v) == []
  {
    if v != [] {
      FlatAllEmpty(v[1..]);
    }
  }

  /** Cutting a list of chains at one of them. */
  lemma FlatSplit(v: View, k: nat)
    requires k < |v|
    ensures Flat(v) == Flat(v[..k]) + v[k].Data() + Flat(v[k + 1..])
  {
    assert v == v[..k] + v[k..];
    FlatConcat(v[..k], v[k..]);
    assert v[k..][1..] == v[k + 1..];
  }

  lemma FlatNil()
    ensures Flat([]) == []
  {
  }

  lemma FlatSingle(c: ChainVal)
    requires c.Ok()
    ensures Flat([c]) == c.Data()
  {
    assert [c][1..] == [];
  }

  /** Replacing one chain changes only its own stretch of the bytes. */
  lemma FlatUpdate(v: View, k: nat, c: ChainVal)
    requires k < |v| && c.Ok()
    ensures Flat(v[k := c]) == Flat(v[..k]) + c.Data() + Flat(v[k + 1..])
    ensures Flat(v) == Flat(v[..k]) + v[k].Data() + Flat(v[k + 1..])
  {
    var w: View := v[k := c];
    FlatSplit(w, k);
    FlatSplit(v, k);
    assert w[..k] == v[..k] && w[k + 1..] == v[k + 1..];
  }

  /** Bytes put at the end of the last chain that holds any come last. */
  lemma FlatGrow(v: View, k: nat, c: ChainVal, data: seq<byte>)
    requires k < |v| && AllEmpty(v[k + 1..]) && c.Ok() && c.Data() == v[k].Data() + data
    ensures Flat(v[k := c]) == Flat(v) + data
  {
    FlatUpdate(v, k, c);
    FlatAllEmpty(v[k + 1..]);
  }

  lemma FlatPush(v: View, c: ChainVal)
    requires c.Ok()
    ensures Flat(v + [c]) == Flat(v) + c.Data()
  {
    FlatConcat(v, [c]);
    FlatSingle(c);
  }

  /** A stretch of one chain's data is a stretch of the whole. */
  lemma ChunkAt(v: View, k: nat, i: nat, j: nat)
    requires k < |v| && i <= j <= v[k].off
    ensures |Flat(v[..k])| + j <= |Flat(v)|
    ensures Flat(v)[|Flat(v[..k])| + i..|Flat(v[..k])| + j] == v[k].mem[v[k].misalign + i..v[k].misalign + j]
    ensures |Flat(v[..k + 1])| == |Flat(v[..k])| + v[k].off
  {
    hide Flat;
    FlatSplit(v, k);
    assert v[..k + 1] == v[..k] + [v[k]];
    FlatPush(v[..k], v[k]);
    var a, d, b := Flat(v[..k]), v[k].Data(), Flat(v[k + 1..]);
    assert Flat(v) == a + d + b;
    assert (a + d + b)[|a| + i..|a| + j] == d[i..j];
    assert d[i..j] == v[k].mem[v[k].misalign + i..v[k].misalign + j];
  }

  /** Dropping empty chains from the end drops no bytes. */
  lemma FlatCutEmpty(v: View, k: nat)
    requires k <= |v| && AllEmpty(v[k..])
    ensures Flat(v[..k]) == Flat(v)
  {
    assert v == v[..k] + v[k..];
    FlatConcat(v[..k], v[k..]);
    FlatAllEmpty(v[k..]);
  }

  class Chain {
    var next: Chain?
    const buffer: array<byte>
    var misalign: nat
    var off: nat
    const immutable: bool

    ghost function Val(): RawChain
      reads this, buffer
    {
      RawChain(buffer[..], misalign, off, immutable)
    }

    constructor (buffer: array<byte>, off: nat, immutable: bool)
      ensures this.buffer == buffer && this.off == off && this.immutable == immutable
      ensures misalign == 0 && next == null
    {
      this.buffer, this.off, this.immutable := buffer, off, immutable;
      misalign, next := 0, null;
    }

    method SpaceLen() returns (n: nat)
      requires Val().Ok()
      ensures n == Val().SpaceLen()
    {
      n := if immutable then 0 else buffer.Length - (misalign + off);
    }
  }

  /** memcpy into a chain's memory. */
  method Copy(dst: array<byte>, at: nat, src: seq<byte>)
    requires at + |src| <= dst.Length
    modifies dst
    ensures dst[..] == old(dst[..at]) + src + old(dst[at + |src|..])
  {
    forall i | 0 <= i < |src| {
      dst[at + i] := src[i];
    }
  }

  /** Doubled until it is enough. */
  function Doubled(n: nat, need: nat): (m: nat)
    requires n > 0
    ensures need <= m && n <= m
    decreases need - n
  {
    if n >= need then n else Doubled(2 * n, need)
  }

  function Pow2(k: nat): (p: nat)
    ensures p > 0
  {
    if k == 0 then 1 else 2 * Pow2(k - 1)
  }

  /** It is doubled no more often than it takes. */
  lemma {:induction false} DoubledLeast(n: nat, need: nat) returns (k: nat)
    requires n > 0
    ensures Doubled(n, need) == n * Pow2(k)
    ensures forall j: nat :: n * Pow2(j) >= need ==> j >= k
    decreases need - n
  {
    if n >= need {
      k := 0;
    } else {
      hide Pow2;
      var i := DoubledLeast(2 * n, need);
      k := i + 1;
      TwiceAgain(n, i);
      forall j: nat | n * Pow2(j) >= need ensures j >= k {
        if j == 0 {
          Once(n);
        } else {
          TwiceAgain(n, j - 1);
        }
      }
    }
  }

  lemma TwiceAgain(n: nat, i: nat)
    ensures 2 * n * Pow2(i) == n * Pow2(i + 1)
  {
  }

  lemma Once(n: nat)
    ensures n * Pow2(0) == n
  {
  }

  /** The memory of a new chain: what the least power of two, from 1024 on, leaves besides the header; a chain of more
      than half the largest size has what it needs. */
  function MemoryFor(size: nat): nat {
    var need := size + CHAIN_SIZE;
    (if need < CHAIN_MAX / 2 then Doubled(MIN_BUFFER_SIZE, need) else need) - CHAIN_SIZE
  }

  /** evbuffer_chain_new: the next power of two that holds the header and the bytes. */
  method ChainNew(size: nat) returns (c: Chain?)
    ensures c == null <==> !CanAllocate(size)
    ensures c != null ==> fresh(c) && fresh(c.buffer) && c.Val().Ok() && c.buffer.Length >= size && c.buffer.Length > 0
                          && c.off == 0 && c.misalign == 0 && !c.immutable && c.next == null
    ensures c != null ==> c.buffer.Length == MemoryFor(size)
  {
    if size > CHAIN_MAX - CHAIN_SIZE {
      return null;
    }
    var need := size + CHAIN_SIZE;
    var toAlloc := need;
    if need < CHAIN_MAX / 2 {
      toAlloc := MIN_BUFFER_SIZE;
      while toAlloc < need
        invariant MIN_BUFFER_SIZE <= toAlloc
        invariant toAlloc == MIN_BUFFER_SIZE || toAlloc < 2 * need
        invariant Doubled(toAlloc, need) == Doubled(MIN_BUFFER_SIZE, need)
        decreases need - toAlloc
      {
        toAlloc := toAlloc * 2;
      }
    }
    var mem := new byte[toAlloc - CHAIN_SIZE];
    c := new Chain(mem, 0, false);
  }

  /** A new chain that starts with the given bytes. */
  method ChainWith(size: nat, data: seq<byte>) returns (c: Chain?)
    requires |data| <= size
    ensures c == null <==> !CanAllocate(size)
    ensures c != null ==> fresh(c) && fresh(c.buffer) && c.Val().Ok() && c.Val().Data() == data && c.next == null
                          && c.off == |data| && c.misalign == 0 && !c.immutable && c.buffer.Length >= size
  {
    c := ChainNew(size);
    if c != null {
      Copy(c.buffer, 0, data);
      c.off := |data|;
    }
  }

  /** A new chain that ends with the given bytes, leaving the gap in front. */
  method ChainEndingWith(data: seq<byte>) returns (c: Chain?)
    ensures c == null <==> !CanAllocate(|data|)
    ensures c != null ==> fresh(c) && fresh(c.buffer) && c.Val().Ok() && c.Val().Data() == data && c.off == |data|
  {
    c := ChainNew(|data|);
    if c != null {
      c.off := |data|;
      c.misalign := c.buffer.Length - |data|;
      Copy(c.buffer, c.misalign, data);
    }
  }
}
