/** Going through a hash table, with and without removal: every element is seen once. */
module HashWalk {
  import opened HashLinks
  import opened HashTable

  /** The elements from bucket `b` on, in the order of the buckets. */
  ghost function From(chains: seq<seq<Elem>>, b: nat): seq<Elem>
    decreases |chains| - b
  {
    if b >= |chains| then [] else chains[b] + From(chains, b + 1)
  }

  /** The elements from index `i` of bucket `b` on. */
  ghost function Rest(chains: seq<seq<Elem>>, b: nat, i: nat): seq<Elem>
    requires b < |chains| && i <= |chains[b]|
  {
    chains[b][i..] + From(chains, b + 1)
  }

  lemma {:induction false} FromIn(t: seq<Elem?>, chains: seq<seq<Elem>>, home: map<Elem, nat>, b: nat)
    requires Shape(t, chains, home)
    ensures forall e :: e in From(chains, b) ==> e in home && home[e] >= b
    ensures forall e :: e in home && home[e] >= b ==> e in From(chains, b)
    ensures forall i, j :: 0 <= i < j < |From(chains, b)| ==> From(chains, b)[i] != From(chains, b)[j]
    decreases |chains| - b
  {
    if b < |chains| {
      FromIn(t, chains, home, b + 1);
      BucketThere(t, chains, home, b);
      var c, f := chains[b], From(chains, b + 1);
      forall i, j | 0 <= i < j < |c + f| ensures (c + f)[i] != (c + f)[j] {
        if i < |c| <= j {
          assert c[i] in home && home[c[i]] == b && f[j - |c|] in f;
        }
      }
    }
  }

  /** The order of the walk holds every element of the table exactly once. */
  lemma OrderIsTable(t: seq<Elem?>, chains: seq<seq<Elem>>, home: map<Elem, nat>)
    requires Shape(t, chains, home)
    ensures (set e | e in From(chains, 0)) == home.Keys
    ensures forall i, j :: 0 <= i < j < |From(chains, 0)| ==> From(chains, 0)[i] != From(chains, 0)[j]
  {
    FromIn(t, chains, home, 0);
  }

  /** The first bucket from `b0` on that is not empty. */
  method FirstFrom(h: Table, b0: nat) returns (found: bool, b: nat)
    requires h.Sound()
    ensures if found then b < |h.chains| && h.chains[b] != [] && From(h.chains, b0) == Rest(h.chains, b, 0)
            else From(h.chains, b0) == []
  {
    hide Placed, Unique, Shape;
    ShapeLength(h.table[..], h.chains, h.home);
    b := b0;
    while b < h.table.Length
      invariant From(h.chains, b0) == From(h.chains, b)
    {
      BucketThere(h.table[..], h.chains, h.home, b);
      if h.table[b] != null {
        assert h.chains[b][0..] == h.chains[b];
        return true, b;
      }
      b := b + 1;
    }
    found := false;
  }

  /** The link `p` leads to index `i` of bucket `b`, where there is an element. */
  ghost predicate Points(h: Table, p: Link, b: nat, i: nat)
    reads h
  {
    b < |h.chains| && i < |h.chains[b]| && p == LinkTo(h.chains[b], b, i)
  }

  /** `HT_START`: the first element, if there is one. */
  method Start(h: Table) returns (found: bool, p: Link, ghost b: nat, ghost i: nat)
    requires h.Sound()
    ensures if found then Points(h, p, b, i) && Rest(h.chains, b, i) == From(h.chains, 0) else From(h.chains, 0) == []
  {
    hide Shape, Placed, Unique;
    var ok, k := FirstFrom(h, 0);
    found, p, b, i := ok, Bucket(k), k, 0;
  }

  /** `HT_NEXT`: the element after the one at the link. */
  method Next(h: Table, p: Link, ghost b: nat, ghost i: nat)
    returns (found: bool, q: Link, ghost c: nat, ghost j: nat)
    requires h.Sound() && Points(h, p, b, i)
    ensures if found then Points(h, q, c, j) && Rest(h.chains, c, j) == Rest(h.chains, b, i)[1..]
            else Rest(h.chains, b, i)[1..] == []
  {
    hide Shape, Unique, From;
    var e := Deref(h.table, p, h.chains, h.home, b, i);
    ChainHas(h.table[..], h.chains, h.home, b, i);
    var next := Deref(h.table, NextOf(e), h.chains, h.home, b, i + 1);
    if next != null {
      return true, NextOf(e), b, i + 1;
    }
    var ok, k := FirstFrom(h, e.hash % h.table.Length + 1);
    found, q, c, j := ok, Bucket(k), k, 0;
  }

  /** `HT_FOREACH`: sees every element of the table once, in the order of `From`. */
  method Visit(h: Table) returns (seen: seq<Elem>)
    requires h.Sound()
    ensures seen == From(h.chains, 0)
    ensures (set e | e in seen) == h.Elems()
    ensures forall i, j :: 0 <= i < j < |seen| ==> seen[i] != seen[j]
  {
    hide Shape, Placed, Unique, From;
    seen := [];
    ghost var all := From(h.chains, 0);
    OrderIsTable(h.table[..], h.chains, h.home);
    assert (set e | e in all) == h.Elems();
    var found, p, b, i := Start(h);
    while found
      invariant if found then Points(h, p, b, i) && all == seen + Rest(h.chains, b, i) else seen == all
      decreases |all| - |seen|, found
    {
      ghost var rest := Rest(h.chains, b, i);
      var e := Deref(h.table, p, h.chains, h.home, b, i);
      seen := seen + [e];
      assert rest == [e] + rest[1..];
      found, p, b, i := Next(h, p, b, i);
    }
  }

  // ---- Walks that remove

  /** Only bucket `b` differs. */
  lemma {:induction false} FromSame(chains: seq<seq<Elem>>, now: seq<seq<Elem>>, b: nat, k: nat)
    requires b < k && |now| == |chains| && forall m :: b < m < |chains| ==> now[m] == chains[m]
    ensures From(now, k) == From(chains, k)
    decreases |chains| - k
  {
    if k < |chains| {
      FromSame(chains, now, b, k + 1);
    }
  }

  /** Takes the element at a link out of the table and leaves its `next` alone. */
  method Skip(h: Table, p: Link, e: Elem, ghost b: nat, ghost i: nat)
    requires h.Valid() && Points(h, p, b, i) && e == h.chains[b][i]
    modifies h`chains, h`home, h`nEntries, h.table, h.home.Keys`next
    ensures h.Valid() && h.home.Keys == old(h.home.Keys) - {e} && e in old(h.home.Keys) && h.table == old(h.table)
    ensures b < |h.chains| == old(|h.chains|) && i <= |h.chains[b]| && p == LinkTo(h.chains[b], b, i)
    ensures e.next == old(e.next) == At(h.chains[b], i)
    ensures Rest(h.chains, b, i) == old(Rest(h.chains, b, i))[1..]
    ensures forall k :: k > b ==> From(h.chains, k) == old(From(h.chains, k))
  {
    hide Shape, Placed, Unique, From, Sized;
    ghost var was := h.chains;
    ChainHas(h.table[..], h.chains, h.home, b, i);
    BucketThere(h.table[..], h.chains, h.home, b) by { InTable(h, b); }
    OneLess(h.home, e, h.table.Length, h.hashfn);
    Unlink(h.table, p, e, h.chains, h.home, b, i);
    h.chains, h.home := h.chains[b := Cut(h.chains[b], i)], h.home - {e};
    h.nEntries := h.nEntries - 1;
    forall k: nat | k > b ensures From(h.chains, k) == From(was, k) {
      FromSame(was, h.chains, b, k);
    }
  }

  lemma InTable(h: Table, b: nat)
    requires h.Sound() && b < |h.chains|
    ensures b < h.table.Length
  {
  }

  /** `HT_NEXT_RMV`: removes the element at the link and goes on to the one after it. */
  method NextRmv(h: Table, p: Link, ghost b: nat, ghost i: nat)
    returns (found: bool, q: Link, ghost c: nat, ghost j: nat)
    requires h.Valid() && Points(h, p, b, i)
    modifies h`chains, h`home, h`nEntries, h.table, h.home.Keys`next
    ensures h.Valid() && h.home.Keys == old(h.home.Keys) - {old(h.chains[b][i])}
    ensures if found then Points(h, q, c, j) && Rest(h.chains, c, j) == old(Rest(h.chains, b, i))[1..]
            else old(Rest(h.chains, b, i))[1..] == []
    ensures old(h.chains[b][i]).next == old(h.chains[b][i].next) && h.table == old(h.table)
  {
    hide Shape, Unique, From, Sized;
    var e := Deref(h.table, p, h.chains, h.home, b, i);
    ChainHas(h.table[..], h.chains, h.home, b, i);
    var hash := e.hash;
    assert hash % h.table.Length == b;
    Skip(h, p, e, b, i);
    var next := Deref(h.table, p, h.chains, h.home, b, i);
    if next != null {
      return true, p, b, i;
    }
    var ok, k := FirstFrom(h, hash % h.table.Length + 1);
    found, q, c, j := ok, Bucket(k), k, 0;
  }

  /** The loop of `HT_START` and `HT_NEXT_RMV`: every element leaves the table, each once and in the order of `From`. */
  method RemoveAll(h: Table) returns (seen: seq<Elem>)
    requires h.Valid()
    modifies h`chains, h`home, h`nEntries, h.table, h.home.Keys`next
    ensures h.Valid() && h.Elems() == {} && seen == old(From(h.chains, 0))
    ensures (set e | e in seen) == old(h.Elems()) && forall i, j :: 0 <= i < j < |seen| ==> seen[i] != seen[j]
  {
    hide Shape, Placed, Unique, From, Rest, Sized, Table.Valid, Table.Sound, Gone;
    seen := [];
    ghost var all, keys := From(h.chains, 0), h.home.Keys;
    Ordered(h);
    NoneGone(keys);
    var found, p, b, i := Start(h);
    while found
      invariant h.Valid() && h.table == old(h.table) && h.home.Keys <= keys
      invariant if found then Points(h, p, b, i) && Ahead(h.chains, all, seen, b, i) else seen == all
      invariant h.home.Keys == keys - Gone(seen)
      decreases |all| - |seen|, found
    {
      ghost var before := seen;
      found, p, b, i, seen := RemoveOne(h, p, b, i, seen, all);
      OneGone(keys, before, seen);
    }
    assert Gone(seen) == keys by { GoneIs(seen); }
  }

  lemma GoneIs(seen: seq<Elem>)
    ensures Gone(seen) == set e | e in seen
  {
  }

  /** One round of the loop. */
  method RemoveOne(h: Table, p: Link, ghost b: nat, ghost i: nat, seen: seq<Elem>, ghost all: seq<Elem>)
    returns (found: bool, q: Link, ghost c: nat, ghost j: nat, now: seq<Elem>)
    requires h.Valid() && Points(h, p, b, i) && Ahead(h.chains, all, seen, b, i)
    modifies h`chains, h`home, h`nEntries, h.table, h.home.Keys`next
    ensures h.Valid() && h.table == old(h.table) && |now| == |seen| + 1 <= |all| && now[..|seen|] == seen
    ensures h.home.Keys == old(h.home.Keys) - {now[|seen|]}
    ensures if found then Points(h, q, c, j) && Ahead(h.chains, all, now, c, j) else now == all
  {
    hide Shape, Placed, Unique, From, Rest, Sized, Table.Valid, Table.Sound;
    ghost var rest := Rest(h.chains, b, i);
    var e := Target(h, p, b, i);
    found, q, c, j := NextRmv(h, p, b, i);
    now := seen + [e];
    assert rest == [e] + rest[1..] && seen + rest == now + rest[1..];
  }

  ghost function Gone(seen: seq<Elem>): set<Elem> {
    set e | e in seen
  }

  lemma NoneGone(keys: set<Elem>)
    ensures keys == keys - Gone([])
  {
  }

  lemma OneGone(keys: set<Elem>, seen: seq<Elem>, now: seq<Elem>)
    requires |now| == |seen| + 1 && now[..|seen|] == seen
    ensures keys - Gone(now) == keys - Gone(seen) - {now[|seen|]}
  {
    assert now == seen + [now[|seen|]];
  }

  /** What has been seen and what is ahead are all. */
  ghost predicate Ahead(chains: seq<seq<Elem>>, all: seq<Elem>, seen: seq<Elem>, b: nat, i: nat) {
    b < |chains| && i <= |chains[b]| && all == seen + Rest(chains, b, i)
  }

  method Target(h: Table, p: Link, ghost b: nat, ghost i: nat) returns (e: Elem)
    requires h.Valid() && Points(h, p, b, i)
    ensures e == h.chains[b][i] && e in h.home && Rest(h.chains, b, i) != [] && Rest(h.chains, b, i)[0] == e
    ensures h.Sound()
  {
    hide Shape, Placed, Unique, From, Sized;
    e := Deref(h.table, p, h.chains, h.home, b, i);
    ChainHas(h.table[..], h.chains, h.home, b, i);
  }

  lemma Ordered(h: Table)
    requires h.Valid()
    ensures h.Sound() && (set e | e in From(h.chains, 0)) == h.home.Keys
    ensures forall i, j :: 0 <= i < j < |From(h.chains, 0)| ==> From(h.chains, 0)[i] != From(h.chains, 0)[j]
  {
    hide Shape, Placed, Unique, From, Sized;
    OrderIsTable(h.table[..], h.chains, h.home);
  }

  /** What the function spares, and what has not been looked at. */
  ghost predicate Spared(elems: set<Elem>, all: set<Elem>, fn: Key -> bool, ahead: seq<Elem>) {
    elems <= all && forall e :: e in all ==> (e in elems <==> !fn(e.key) || e in ahead)
  }

  lemma SparedStep(elems: set<Elem>, all: set<Elem>, fn: Key -> bool, ahead: seq<Elem>)
    requires Spared(elems, all, fn, ahead) && ahead != [] && ahead[0] in elems && ahead[0] !in ahead[1..]
    ensures Spared(if fn(ahead[0].key) then elems - {ahead[0]} else elems, all, fn, ahead[1..])
  {
    assert ahead == [ahead[0]] + ahead[1..];
  }

  /** The element at a place does not come again later. */
  lemma NotAgain(t: seq<Elem?>, chains: seq<seq<Elem>>, home: map<Elem, nat>, b: nat, i: nat)
    requires Shape(t, chains, home) && b < |chains| && i < |chains[b]|
    ensures var ahead := Rest(chains, b, i);
      ahead != [] && ahead[0] == chains[b][i] && ahead[0] !in ahead[1..] && ahead[1..] == Rest(chains, b, i + 1)
  {
    BucketThere(t, chains, home, b);
    FromIn(t, chains, home, b + 1);
    assert Rest(chains, b, i)[1..] == Rest(chains, b, i + 1);
    assert forall j :: i + 1 <= j < |chains[b]| ==> chains[b][j] != chains[b][i];
  }

  /** `HT_FOREACH_FN`: takes out every element for which the function says so, and looks at each once. */
  method ForeachFn(h: Table, fn: Key -> bool)
    requires h.Valid()
    modifies h`chains, h`home, h`nEntries, h.table, h.home.Keys`next
    ensures h.Valid() && h.Elems() == set e | e in old(h.Elems()) && !fn(e.key)
  {
    hide Shape, Placed, Unique, From, Sized, Spared;
    ghost var all := h.home.Keys;
    OrderIsTable(h.table[..], h.chains, h.home);
    assert Spared(all, all, fn, From(h.chains, 0)) by { SparedFirst(all, fn, From(h.chains, 0)); }
    for idx := 0 to h.table.Length
      invariant h.Valid() && h.table == old(h.table) && h.home.Keys <= all
      invariant Spared(h.home.Keys, all, fn, From(h.chains, idx))
    {
      PurgeBucket(h, idx, fn, all);
    }
    ShapeLength(h.table[..], h.chains, h.home);
    SparedLast(h.home.Keys, all, fn, h.chains, h.table.Length);
  }

  lemma SparedFirst(all: set<Elem>, fn: Key -> bool, order: seq<Elem>)
    requires (set e | e in order) == all
    ensures Spared(all, all, fn, order)
  {
  }

  lemma SparedLast(elems: set<Elem>, all: set<Elem>, fn: Key -> bool, chains: seq<seq<Elem>>, b: nat)
    requires b >= |chains| && Spared(elems, all, fn, From(chains, b))
    ensures elems == set e | e in all && !fn(e.key)
  {
  }

  method PurgeBucket(h: Table, idx: nat, fn: Key -> bool, ghost all: set<Elem>)
    requires h.Valid() && idx < h.table.Length && Spared(h.home.Keys, all, fn, From(h.chains, idx))
    modifies h`chains, h`home, h`nEntries, h.table, h.home.Keys`next
    ensures h.Valid() && h.table == old(h.table) && h.home.Keys <= old(h.home.Keys)
    ensures Spared(h.home.Keys, all, fn, From(h.chains, idx + 1))
  {
    hide Shape, Placed, Unique, From, Sized, Spared;
    ShapeLength(h.table[..], h.chains, h.home);
    RestWhole(h.chains, idx);
    var p := Bucket(idx);
    ghost var i := 0;
    var e := Deref(h.table, p, h.chains, h.home, idx, 0);
    while e != null
      invariant h.Valid() && h.table == old(h.table) && h.home.Keys <= old(h.home.Keys)
      invariant idx < |h.chains| && i <= |h.chains[idx]|
      invariant p == LinkTo(h.chains[idx], idx, i) && e == At(h.chains[idx], i)
      invariant Spared(h.home.Keys, all, fn, Rest(h.chains, idx, i))
      decreases |Rest(h.chains, idx, i)|
    {
      ChainHas(h.table[..], h.chains, h.home, idx, i);
      NotAgain(h.table[..], h.chains, h.home, idx, i);
      SparedStep(h.home.Keys, all, fn, Rest(h.chains, idx, i));
      if fn(e.key) {
        Skip(h, p, e, idx, i);
      } else {
        p, i := NextOf(e), i + 1;
      }
      e := Deref(h.table, p, h.chains, h.home, idx, i);
    }
    assert Rest(h.chains, idx, i) == From(h.chains, idx + 1);
  }

  lemma RestWhole(chains: seq<seq<Elem>>, b: nat)
    requires b < |chains|
    ensures From(chains, b) == Rest(chains, b, 0)
  {
    assert chains[b][0..] == chains[b];
  }

  // ---- An element that is put back

  /** Elements whose keys all have one hash are in one bucket, and the first of two is followed by the other. */
  lemma FollowedBy(h: Table, a: Elem, c: Elem, b: nat, i: nat)
    requires h.Valid() && h.Elems() == {a, c} && a != c && (forall k :: h.hashfn(k) == 0)
    requires b < |h.chains| && i < |h.chains[b]| && Rest(h.chains, b, i) == From(h.chains, 0)
    ensures h.chains[b][i] in {a, c} && h.chains[b][i].next != null
  {
    hide Sized, From, Shape, Placed, Unique;
    var e := h.chains[b][i];
    var f := if e == a then c else a;
    ChainHas(h.table[..], h.chains, h.home, b, i);
    OneBucket(h, e);
    OneBucket(h, f);
    OrderIsTable(h.table[..], h.chains, h.home);
    assert f in From(h.chains, 0);
    NotAgain(h.table[..], h.chains, h.home, b, i);
    var ahead, more := Rest(h.chains, b, i), h.chains[b][i + 1..];
    assert ahead == [e] + ahead[1..] && ahead[1..] == more + From(h.chains, b + 1);
    FromIn(h.table[..], h.chains, h.home, b + 1);
    assert f in more;
    NextIs(h, b, i);
  }

  lemma NextIs(h: Table, b: nat, i: nat)
    requires h.Valid() && b < |h.chains| && i < |h.chains[b]| && h.chains[b][i] in h.home
    ensures h.chains[b][i].next == At(h.chains[b], i + 1)
  {
    hide Placed, Unique, Sized;
    Links(h.table[..], h.chains, h.home, b) by { InTable(h, b); }
  }

  lemma OneBucket(h: Table, e: Elem)
    requires h.Valid() && e in h.home && forall k :: h.hashfn(k) == 0
    ensures h.home[e] == 0
  {
    hide Shape, Unique, Sized;
  }

  /** An element that HT_NEXT_RMV has taken out still leads to the one behind it.  Put back by HT_REPLACE, it comes
      behind that one, and the bucket no longer ends. */
  method PutBack() returns (h: Table, e: Elem)
    ensures !h.Sound() && DoublyLinked(h.table[..], h.Elems(), e)
  {
    hide Shape, Placed, Unique, From, Sized, Table.Sound, Table.Valid, DoublyLinked;
    h, e := TakenOut();
    var r := h.Replace(e, false);
  }

  /** A table of one element and another that has been taken out and still leads to it. */
  method TakenOut() returns (h: Table, e: Elem)
    ensures fresh(h) && fresh(h.table) && fresh(h.Elems()) && fresh(e) && h.Valid() && h.Trailing(e)
  {
    hide Shape, Placed, Unique, From, Sized, Table.Sound, Table.Valid, HasKey;
    var a, c;
    h, a, c := Two();
    Ordered(h);
    var found, p, b, i := Start(h);
    FollowedBy(h, a, c, b, i);
    e := Target(h, p, b, i);
    found, p, b, i := NextRmv(h, p, b, i);
    Absent(h, e.key);
  }

  /** Two elements with one hash. */
  method Two() returns (h: Table, a: Elem, c: Elem)
    ensures fresh(h) && fresh(h.table) && fresh(a) && fresh(c) && h.Valid() && h.Elems() == {a, c} && a.key != c.key
    ensures forall k :: h.hashfn(k) == 0
  {
    hide Shape, Placed, Unique, From, Sized, Table.Sound, Table.Valid;
    h := new Table(_ => 0);
    a := new Elem(1);
    c := new Elem(2);
    Absent(h, 1);
    h.Insert(a, false);
    Absent(h, 2);
    h.Insert(c, false);
  }

  lemma Absent(h: Table, key: Key)
    requires forall e :: e in h.Elems() ==> e.key != key
    ensures !h.Has(key)
  {
  }
}
