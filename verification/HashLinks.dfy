/** The linked buckets of an intrusive hash table, and the two ways to change them. */
module HashLinks {
  /** What elements are compared and hashed by. */
  type Key = int

  /** An element with the fields of `HT_ENTRY`. */
  class Elem {
    const key: Key
    var next: Elem?
    var hash: nat

    constructor (key: Key)
      ensures this.key == key && next == null
    {
      this.key := key;
      next := null;
      hash := 0;
    }
  }

  /** A pointer to a pointer to an element: a bucket's head or an element's `next`. */
  datatype Link = Bucket(b: nat) | NextOf(e: Elem)

  /** The element at an index of a bucket, or null past the end. */
  ghost function At(c: seq<Elem>, i: nat): Elem? {
    if i < |c| then c[i] else null
  }

  /** The link that leads to index `i` of bucket `b`. */
  ghost function LinkTo(c: seq<Elem>, b: nat, i: nat): Link
    requires i <= |c|
  {
    if i == 0 then Bucket(b) else NextOf(c[i - 1])
  }

  /** Bucket `k` is linked as the k-th chain says. */
  ghost predicate Chained(head: Elem?, c: seq<Elem>)
    reads c
  {
    && head == At(c, 0)
    && (forall i {:trigger c[i].next} :: 0 <= i < |c| ==> c[i].next == At(c, i + 1))
    && (forall i, j :: 0 <= i < j < |c| ==> c[i] != c[j])
  }

  /** The heads and links are those of the chains, and `home` tells each element's one bucket. */
  ghost predicate Shape(t: seq<Elem?>, chains: seq<seq<Elem>>, home: map<Elem, nat>)
    reads home.Keys
  {
    && |t| == |chains|
    && (forall k :: 0 <= k < |chains| ==> Members(chains[k], k, home) && Chained(t[k], chains[k]))
    && (forall e :: e in home ==> home[e] < |chains| && e in chains[home[e]])
  }

  ghost predicate Members(c: seq<Elem>, k: nat, home: map<Elem, nat>) {
    forall e :: e in c ==> e in home && home[e] == k
  }

  method Deref(t: array<Elem?>, p: Link, ghost chains: seq<seq<Elem>>, ghost home: map<Elem, nat>,
                  ghost b: nat, ghost i: nat) returns (e: Elem?)
    requires Shape(t[..], chains, home) && b < |chains| && i <= |chains[b]| && p == LinkTo(chains[b], b, i)
    ensures e == At(chains[b], i)
  {
    assert Chained(t[..][b], chains[b]);
    match p
    case Bucket(k) => e := t[k];
    case NextOf(f) => e := f.next;
  }

  /** Puts an element that is in no bucket in front of one. */
  method PushFront(t: array<Elem?>, b: nat, e: Elem, ghost chains: seq<seq<Elem>>,
                      ghost home: map<Elem, nat>)
    requires Shape(t[..], chains, home) && b < t.Length && e !in home
    modifies t, e`next
    ensures Shape(t[..], chains[b := [e] + chains[b]], home[e := b])
  {
    ghost var u := t[..];
    e.next := t[b];
    t[b] := e;
    ghost var now, where := chains[b := [e] + chains[b]], home[e := b];
    forall k | 0 <= k < |now| ensures Members(now[k], k, where) && Chained(t[k], now[k]) {
      assert Members(chains[k], k, home) && Chained(u[k], chains[k]);
    }
  }

  /** The chain without its i-th element. */
  ghost function Cut(c: seq<Elem>, i: nat): seq<Elem>
    requires i < |c|
  {
    c[..i] + c[i + 1..]
  }

  /** Lets the link to an element skip it. */
  method Unlink(t: array<Elem?>, p: Link, e: Elem, ghost chains: seq<seq<Elem>>,
                   ghost home: map<Elem, nat>, ghost b: nat, ghost i: nat)
    requires Shape(t[..], chains, home) && b < |chains| && i < |chains[b]|
    requires e == chains[b][i] && p == LinkTo(chains[b], b, i)
    modifies t, home.Keys`next
    ensures Shape(t[..], chains[b := Cut(chains[b], i)], home - {e})
    ensures e.next == old(e.next)
  {
    ghost var u, c := t[..], chains[b];
    assert Chained(u[b], c) && Members(c, b, home);
    match p {
      case Bucket(k) => t[k] := e.next;
      case NextOf(f) => f.next := e.next;
    }
    ghost var now, where := chains[b := Cut(c, i)], home - {e};
    forall k | 0 <= k < |now| ensures Members(now[k], k, where) && Chained(t[k], now[k]) {
      assert Members(chains[k], k, home);
      if k != b { assert e !in chains[k]; }
    }
    forall x | x in where ensures where[x] < |now| && x in now[where[x]] {
      if home[x] == b {
        var j :| 0 <= j < |c| && c[j] == x;
        assert x == if j < i then Cut(c, i)[j] else Cut(c, i)[j - 1];
      }
    }
  }

  /** What follows the element is not of the set, or is the element itself, or is reached by another link as well. */
  ghost predicate DoublyLinked(t: seq<Elem?>, elems: set<Elem>, e: Elem)
    reads elems`next, e`next
  {
    && e.next != null
    && (e.next !in elems || e.next == e || e.next in t || exists f :: f in elems && f != e && f.next == e.next)
  }

  /** Buckets of exactly these elements, each once, cannot be linked like that. */
  lemma NoShape(t: seq<Elem?>, elems: set<Elem>, e: Elem, chains: seq<seq<Elem>>, home: map<Elem, nat>)
    requires e in elems && DoublyLinked(t, elems, e) && home.Keys == elems
    ensures !Shape(t, chains, home)
  {
    if Shape(t, chains, home) {
      SinglyLinked(t, chains, home, e);
    }
  }

  /** In buckets that are linked rightly one link leads to what follows an element. */
  lemma SinglyLinked(t: seq<Elem?>, chains: seq<seq<Elem>>, home: map<Elem, nat>, e: Elem)
    requires Shape(t, chains, home) && e in home
    ensures !DoublyLinked(t, home.Keys, e)
  {
    hide Shape;
    var i := PlaceOf(t, chains, home, e);
    var x, b := e.next, home[e];
    if x != null {
      assert x == chains[b][i + 1] && x in chains[b];
      forall k | 0 <= k < |t| ensures t[k] != x {
        Links(t, chains, home, k);
        if chains[k] != [] { assert chains[k][0] in chains[k]; }
      }
      forall f | f in home && f != e ensures f.next != x {
        var j := PlaceOf(t, chains, home, f);
        if j + 1 < |chains[home[f]]| { assert chains[home[f]][j + 1] in chains[home[f]]; }
      }
    }
  }

  lemma Links(t: seq<Elem?>, chains: seq<seq<Elem>>, home: map<Elem, nat>, k: nat)
    requires Shape(t, chains, home) && k < |t|
    ensures |t| == |chains| && Members(chains[k], k, home) && Chained(t[k], chains[k])
  {
  }

  lemma PlaceOf(t: seq<Elem?>, chains: seq<seq<Elem>>, home: map<Elem, nat>, e: Elem) returns (i: nat)
    requires Shape(t, chains, home) && e in home
    ensures home[e] < |chains| == |t| && i < |chains[home[e]]| && chains[home[e]][i] == e
    ensures Members(chains[home[e]], home[e], home) && Chained(t[home[e]], chains[home[e]])
    ensures e.next == At(chains[home[e]], i + 1)
  {
    i :| 0 <= i < |chains[home[e]]| && chains[home[e]][i] == e;
  }

  /** Puts a new element at the end of a bucket, without a look at what follows it. */
  method Append(t: array<Elem?>, p: Link, e: Elem, ghost chains: seq<seq<Elem>>, ghost home: map<Elem, nat>,
                ghost b: nat)
    requires Shape(t[..], chains, home) && b < |chains| && p == LinkTo(chains[b], b, |chains[b]|) && e !in home
    modifies t, home.Keys`next
    ensures e.next == old(e.next)
    ensures if e.next == null then Shape(t[..], chains[b := chains[b] + [e]], home[e := b])
            else DoublyLinked(t[..], home.Keys + {e}, e)
  {
    ghost var u, c, x := t[..], chains[b], e.next;
    assert Chained(u[b], c) && Members(c, b, home);
    ghost var k0, f0 := OtherLink(u, chains, home, x);
    match p {
      case Bucket(k) => t[k] := e;
      case NextOf(f) => f.next := e;
    }
    if x == null {
      ghost var now, where := chains[b := c + [e]], home[e := b];
      forall k | 0 <= k < |now| ensures Members(now[k], k, where) && Chained(t[k], now[k]) {
        assert Members(chains[k], k, home);
      }
    } else if x in home {
      if f0 == null { assert t[..][k0] == x; } else { assert f0.next == x; }
    }
  }

  /** The link to an element of the table. */
  lemma OtherLink(t: seq<Elem?>, chains: seq<seq<Elem>>, home: map<Elem, nat>, x: Elem?) returns (k: nat, f: Elem?)
    requires Shape(t, chains, home)
    ensures x != null && x in home ==>
      if f == null then k < |t| == |chains| && t[k] == x && chains[k] != [] else f in home && f.next == x
  {
    k, f := 0, null;
    if x != null && x in home {
      var i := PlaceOf(t, chains, home, x);
      k := home[x];
      if i > 0 {
        f := chains[k][i - 1];
        assert f in chains[k];
      }
    }
  }

  /** Puts a new element in the place of another, in the order of the source: the link first, then the two
      `next` fields. */
  method Substitute(t: array<Elem?>, p: Link, r: Elem, e: Elem, ghost chains: seq<seq<Elem>>,
                    ghost home: map<Elem, nat>, ghost b: nat, ghost i: nat)
    requires Shape(t[..], chains, home) && b < |chains| && i < |chains[b]|
    requires r == chains[b][i] && p == LinkTo(chains[b], b, i) && e !in home
    modifies t, home.Keys`next, e`next
    ensures Shape(t[..], chains[b := chains[b][i := e]], (home - {r})[e := b]) && r.next == null
  {
    ghost var u, c := t[..], chains[b];
    assert Chained(u[b], c) && Members(c, b, home);
    match p {
      case Bucket(k) => t[k] := e;
      case NextOf(f) => f.next := e;
    }
    e.next := r.next;
    r.next := null;
    ghost var now, where := chains[b := c[i := e]], (home - {r})[e := b];
    forall k | 0 <= k < |now| ensures Members(now[k], k, where) && Chained(t[k], now[k]) {
      assert Members(chains[k], k, home);
      if k != b { assert r !in chains[k]; }
    }
    forall x | x in where ensures where[x] < |now| && x in now[where[x]] {
      if x == e {
        assert now[b][i] == e;
      } else if home[x] == b {
        var j :| 0 <= j < |c| && c[j] == x;
        assert now[b][j] == x;
      }
    }
  }
}
