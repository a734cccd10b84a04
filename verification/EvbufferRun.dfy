/** Whole runs of operations on two buffers, against the same operations on two byte sequences. */
module EvbufferRun {
  import opened Common
  import opened EvbufferChains
  import opened EvbufferCore
  import opened EvbufferWrite
  import opened EvbufferDrain
  import opened EvbufferPullup
  import opened EvbufferMove

  datatype Op =
    | OpAdd(data: seq<byte>)
    | OpPrepend(data: seq<byte>)
    | OpDrain(n: nat)
    | OpRemove(n: nat)
    | OpPullup(size: int)
    | OpSwap
    | OpRemoveBuffer(n: nat)
    | OpAddBuffer
    | OpPrependBuffer

  /** Two byte queues and everything that has been read out of the first. */
  datatype Queues = Queues(a: seq<byte>, b: seq<byte>, out: seq<byte>)

  function Apply(q: Queues, op: Op): Queues {
    match op
    case OpAdd(data) => q.(a := q.a + data)
    case OpPrepend(data) => q.(a := data + q.a)
    case OpDrain(n) => q.(a := q.a[Min(n, |q.a|)..])
    case OpRemove(n) => q.(a := q.a[Min(n, |q.a|)..], out := q.out + q.a[..Min(n, |q.a|)])
    case OpPullup(_) => q
    case OpSwap => q.(a := q.b, b := q.a)
    case OpRemoveBuffer(n) => q.(a := q.a[Min(n, |q.a|)..], b := q.b + q.a[..Min(n, |q.a|)])
    case OpAddBuffer => q.(a := [], b := q.b + q.a)
    case OpPrependBuffer => q.(a := [], b := q.a + q.b)
  }

  function ApplyAll(q: Queues, ops: seq<Op>): Queues {
    if ops == [] then q else Apply(ApplyAll(q, ops[..|ops| - 1]), ops[|ops| - 1])
  }

  /** How many bytes a run puts in. */
  function Added(ops: seq<Op>): nat {
    if ops == [] then 0
    else Added(ops[..|ops| - 1]) + match ops[|ops| - 1]
                                   case OpAdd(data) => |data|
                                   case OpPrepend(data) => |data|
                                   case _ => 0
  }

  lemma {:induction false} NeverMoreThanAdded(q: Queues, ops: seq<Op>)
    ensures var r := ApplyAll(q, ops);
      |r.a| + |r.b| <= |q.a| + |q.b| + Added(ops)
  {
    if ops != [] {
      NeverMoreThanAdded(q, ops[..|ops| - 1]);
    }
  }

  lemma {:induction false} AddedPrefix(ops: seq<Op>, i: nat)
    requires i <= |ops|
    ensures Added(ops[..i]) <= Added(ops)
    decreases |ops| - i
  {
    if i < |ops| {
      assert ops[..i + 1][..i] == ops[..i];
      AddedPrefix(ops, i + 1);
    } else {
      assert ops[..i] == ops;
    }
  }

  ghost predicate Holds(a: Evbuffer, b: Evbuffer, q: Queues)
    reads a, b
  {
    a.Contents() == q.a && b.Contents() == q.b
  }

  ghost predicate Ready(a: Evbuffer, b: Evbuffer)
    reads a, b, a.repr, b.repr
  {
    && a.Valid() && b.Valid() && Apart(a, b)
    && !a.freezeStart && !a.freezeEnd && !b.freezeStart && !b.freezeEnd
  }

  /** One operation. */
  method Perform(a: Evbuffer, b: Evbuffer, op: Op, ghost q: Queues) returns (out: seq<byte>)
    requires Ready(a, b) && Holds(a, b, q)
    requires |q.a| + |q.b| + Added([op]) <= CHAIN_MAX - CHAIN_SIZE
    modifies a, b, a.repr, b.repr
    ensures !op.OpSwap? ==>
      Ready(a, b) && KeptBoth(a, b) && Holds(a, b, Apply(q, op)) && q.out + out == Apply(q, op).out
    ensures op.OpSwap? ==> out == [] && Ready(a, b) && KeptBoth(a, b) && Holds(a, b, q)
  {
    hide Pictures, Flat, Evbuffer.Valid;
    assert [op][..0] == [];
    a.ContentsLen();
    b.ContentsLen();
    out := [];
    match op {
      case OpAdd(data) => var ok := Add(a, data);
      case OpPrepend(data) => var ok := Prepend(a, data);
      case OpDrain(n) => var ok := Drain(a, n);
      case OpRemove(n) => var k; k, out := Remove(a, n);
      case OpPullup(size) => var r := Pullup(a, size);
      case OpSwap =>
      case OpRemoveBuffer(n) => var k := RemoveBuffer(a, b, n);
      case OpAddBuffer => var ok := AddBuffer(b, a);
      case OpPrependBuffer => var ok := PrependBuffer(b, a);
    }
  }

  /** Any run of operations on two buffers is the same run on two byte sequences, and reads the same bytes. */
  method RunAll(a: Evbuffer, b: Evbuffer, ops: seq<Op>) returns (x: Evbuffer, y: Evbuffer, out: seq<byte>)
    requires Ready(a, b)
    requires a.totalLen + b.totalLen + Added(ops) <= CHAIN_MAX - CHAIN_SIZE
    modifies a, b, a.repr, b.repr
    ensures {x, y} == {a, b} && Ready(x, y)
    ensures ApplyAll(Queues(old(a.Contents()), old(b.Contents()), []), ops) == Queues(x.Contents(), y.Contents(), out)
  {
    hide Pictures, Flat, Evbuffer.Valid, Ready, Added, Apply;
    ReadyLens(a, b);
    x, y, out := a, b, [];
    ghost var q0 := Queues(a.Contents(), b.Contents(), []);
    var i := 0;
    while i < |ops|
      invariant 0 <= i <= |ops| && {x, y} == {a, b} && Ready(x, y)
      invariant ApplyAll(q0, ops[..i]) == Queues(x.Contents(), y.Contents(), out)
      invariant fresh(x.repr + y.repr - old(a.repr) - old(b.repr))
    {
      ghost var q := Queues(x.Contents(), y.Contents(), out);
      RunFits(q0, ops, i);
      var more := Perform(x, y, ops[i], q);
      RunStep(q0, ops, i);
      out := out + more;
      if ops[i].OpSwap? {
        ReadySwap(x, y, q);
        x, y := y, x;
      }
      i := i + 1;
    }
    assert ops[..i] == ops;
  }

  lemma ReadyLens(a: Evbuffer, b: Evbuffer)
    requires Ready(a, b)
    ensures |a.Contents()| == a.totalLen && |b.Contents()| == b.totalLen
  {
    hide Pictures, Flat;
    a.ContentsLen();
    b.ContentsLen();
  }

  lemma ReadySwap(a: Evbuffer, b: Evbuffer, q: Queues)
    requires Ready(a, b)
    ensures Ready(b, a) && Apply(q, OpSwap) == Queues(q.b, q.a, q.out)
  {
  }

  lemma RunStep(q: Queues, ops: seq<Op>, i: nat)
    requires i < |ops|
    ensures ApplyAll(q, ops[..i + 1]) == Apply(ApplyAll(q, ops[..i]), ops[i])
  {
    assert ops[..i + 1][..i] == ops[..i];
  }

  /** No prefix of a run holds more bytes than it started with and adds. */
  lemma RunFits(q: Queues, ops: seq<Op>, i: nat)
    requires i < |ops|
    ensures var r := ApplyAll(q, ops[..i]);
      |r.a| + |r.b| + Added([ops[i]]) <= |q.a| + |q.b| + Added(ops)
  {
    NeverMoreThanAdded(q, ops[..i]);
    AddedPrefix(ops, i + 1);
    assert ops[..i + 1][..i] == ops[..i] && [ops[i]][..0] == [];
    assert Added([ops[i]]) == Added([]) + (Added(ops[..i + 1]) - Added(ops[..i]));
  }

  /** The bytes that a run puts in. */
  function Entered(ops: seq<Op>): multiset<byte> {
    if ops == [] then multiset{}
    else Entered(ops[..|ops| - 1]) + Gained(ops[|ops| - 1])
  }

  function Gained(op: Op): multiset<byte> {
    match op
    case OpAdd(data) => multiset(data)
    case OpPrepend(data) => multiset(data)
    case _ => multiset{}
  }

  function Lost(q: Queues, op: Op): multiset<byte> {
    if op.OpDrain? then multiset(q.a[..Min(op.n, |q.a|)]) else multiset{}
  }

  /** The bytes that it drains. */
  function Drained(q: Queues, ops: seq<Op>): multiset<byte> {
    if ops == [] then multiset{}
    else Drained(q, ops[..|ops| - 1]) + Lost(ApplyAll(q, ops[..|ops| - 1]), ops[|ops| - 1])
  }

  function Held(q: Queues): multiset<byte> {
    multiset(q.a) + multiset(q.b) + multiset(q.out)
  }

  /** No byte is made, lost or changed: those that are held, were read or were drained are those that were held before
      or put in. */
  lemma {:induction false} Conserved(q: Queues, ops: seq<Op>)
    ensures Held(ApplyAll(q, ops)) + Drained(q, ops) == Held(q) + Entered(ops)
  {
    if ops != [] {
      hide Held, Apply;
      var init, op := ops[..|ops| - 1], ops[|ops| - 1];
      var r := ApplyAll(q, init);
      Conserved(q, init);
      StepConserves(r, op);
      Exchange(Held(Apply(r, op)), Drained(q, init), Lost(r, op), Held(r), Held(q), Entered(init), Gained(op));
    }
  }

  lemma Exchange(now: multiset<byte>, drained: multiset<byte>, lost: multiset<byte>, held: multiset<byte>,
                 first: multiset<byte>, entered: multiset<byte>, gained: multiset<byte>)
    requires held + drained == first + entered && now + lost == held + gained
    ensures now + (drained + lost) == first + (entered + gained)
  {
    assert now + (drained + lost) == (now + lost) + drained;
    assert (held + gained) + drained == (held + drained) + gained;
  }

  lemma StepConserves(q: Queues, op: Op)
    ensures Held(Apply(q, op)) + Lost(q, op) == Held(q) + Gained(op)
  {
    if op.OpDrain? || op.OpRemove? || op.OpRemoveBuffer? {
      assert q.a == q.a[..Min(op.n, |q.a|)] + q.a[Min(op.n, |q.a|)..];
    }
  }
}
