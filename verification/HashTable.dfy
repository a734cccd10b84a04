/** The intrusive hash table: it equals a set of elements, whichever way it grows. */
module HashTable {
  import opened HashLinks

  const PRIMES: seq<nat> := [
    53, 97, 193, 389, 769, 1543, 3079, 6151, 12289, 24593, 49157, 98317, 196613, 393241, 786433, 1572869,
    3145739, 6291469, 12582917, 25165843, 50331653, 100663319, 201326611, 402653189, 805306457, 1610612741]
  const LAST: nat := 25

  lemma PrimesGrow()
    ensures |PRIMES| == LAST + 1 && PRIMES[0] == 53 && PRIMES[LAST] == 1610612741 && PRIMES[LAST - 1] == 805306457
    ensures forall i :: 0 <= i < LAST ==>
      53 <= PRIMES[i] < PRIMES[i + 1] <= 2 * PRIMES[i] + 2000 && PRIMES[i] <= 805306457
  {
  }

  /** Every element has its hash, and lies in the bucket that the hash asks for. */
  ghost predicate Placed(home: map<Elem, nat>, len: nat, hashfn: Key -> nat)
    reads home.Keys`hash
  {
    forall e :: e in home ==> len > 0 && e.hash == hashfn(e.key) && home[e] == e.hash % len
  }

  ghost predicate Unique(elems: set<Elem>) {
    forall e, f :: e in elems && f in elems && e.key == f.key ==> e == f
  }

  ghost predicate HasKey(elems: set<Elem>, key: Key) {
    exists e :: e in elems && e.key == key
  }

  /** No table yet, or a table whose length is a prime of the list and whose load limit is half of it. */
  predicate Sized(len: nat, primeIdx: int, loadLimit: nat) {
    if len == 0 then primeIdx == -1 && loadLimit == 0
    else 0 <= primeIdx <= LAST && len == PRIMES[primeIdx] && loadLimit == len / 2
  }

  class Table {
    var table: array<Elem?>
    var nEntries: nat
    var loadLimit: nat
    var primeIdx: int
    const hashfn: Key -> nat

    ghost var chains: seq<seq<Elem>>
    ghost var home: map<Elem, nat>

    /** The elements in the table. */
    ghost function Elems(): set<Elem> reads this {
      home.Keys
    }

    /** All but the count of entries. */
    ghost predicate Sound()
      reads this`table, this`chains, this`home, this`primeIdx, this`loadLimit, table, home.Keys
    {
      && Shape(table[..], chains, home) && Placed(home, table.Length, hashfn) && Unique(home.Keys)
      && Sized(table.Length, primeIdx, loadLimit)
    }

    ghost predicate Valid()
      reads this, table, home.Keys
    {
      && Sound() && nEntries == |home.Keys| && (primeIdx == LAST || nEntries <= loadLimit)
    }

    constructor (hashfn: Key -> nat)
      ensures Valid() && Elems() == {} && fresh(table) && this.hashfn == hashfn && primeIdx == -1
    {
      table, nEntries, loadLimit, primeIdx := new Elem?[0], 0, 0, -1;
      this.hashfn := hashfn;
      chains, home := [], map[];
    }

    /** `HT_FIND_P_`: the link to the element with the key, or the link at the end of its bucket. */
    method FindP(key: Key, hash: nat) returns (p: Link, e: Elem?, ghost b: nat, ghost i: nat)
      requires Sound() && table.Length > 0 && hash == hashfn(key)
      ensures b == hash % table.Length && b < |chains| && i <= |chains[b]| && p == LinkTo(chains[b], b, i)
      ensures e == At(chains[b], i) && (e != null ==> e.key == key)
      ensures e == null <==> forall f :: f in Elems() ==> f.key != key
    {
      hide Shape;
      b, i, p := hash % table.Length, 0, Bucket(hash % table.Length);
      BucketThere(table[..], chains, home, b);
      e := Deref(table, p, chains, home, b, 0);
      while e != null
        invariant i <= |chains[b]| && p == LinkTo(chains[b], b, i) && e == At(chains[b], i)
        invariant forall k :: 0 <= k < i ==> chains[b][k].key != key
        decreases |chains[b]| - i
      {
        if e.key == key { ChainHas(table[..], chains, home, b, i); return; }
        p, i := NextOf(e), i + 1;
        e := Deref(table, p, chains, home, b, i);
      }
      NotThere(table[..], chains, home, hashfn, key);
    }

    /** The growth loop when a new array could be had: every bucket is emptied into it. */
    method MoveAll(newLen: nat) returns (t: array<Elem?>, ghost c: seq<seq<Elem>>, ghost h: map<Elem, nat>)
      requires Sound() && newLen > 0
      modifies home.Keys`next
      ensures fresh(t) && t.Length == newLen && h.Keys == home.Keys
      ensures Shape(t[..], c, h) && Placed(h, newLen, hashfn)
    {
      hide Shape, Placed, Moved, WasLinked, Hashed;
      t, c := EmptyTable(newLen);
      ghost var nexts: map<Elem, Elem?> := map e: Elem | e in home :: e.next;
      Snapshot(table[..], chains, home, nexts);
      PlacedHash(home, table.Length, hashfn);
      c, h := MoveBuckets(table, t, hashfn, chains, c, home, nexts);
    }

    /** The growth loop over an array that was made longer: elements move on to the buckets they now belong to. */
    method MoveInPlace(newLen: nat) returns (t: array<Elem?>, ghost c: seq<seq<Elem>>, ghost h: map<Elem, nat>)
      requires Sound() && newLen >= table.Length && newLen > 0
      modifies home.Keys`next
      ensures fresh(t) && t.Length == newLen && h.Keys == home.Keys
      ensures Shape(t[..], c, h) && Placed(h, newLen, hashfn)
    {
      hide Shape, Placed, Settled, Hashed;
      t, c := Longer(table, newLen, chains, home);
      PlacedHash(home, table.Length, hashfn);
      SettledNone(home, hashfn, table.Length, newLen);
      c, h := SettleBuckets(t, table.Length, c, home);
      HashedAgain(home, h, hashfn);
      AllSettled(h, newLen, table.Length, hashfn);
    }

    /** The prime for a table that is to hold more than `size` elements.  The loop looks for it beyond the last prime,
        too: `inside` is false when it would read there, and then nothing is chosen. */
    static method Choose(from: int, size: nat) returns (inside: bool, idx: nat, newLen: nat, newLimit: nat)
      requires -1 <= from < LAST
      ensures inside <==> size < PRIMES[LAST] / 2
      ensures inside ==> from < idx <= LAST && newLen == PRIMES[idx] && newLimit == newLen / 2 > size
      ensures inside ==> forall k :: from < k < idx ==> PRIMES[k] / 2 <= size
    {
      PrimesGrow();
      idx := from + 1;
      newLen, newLimit := PRIMES[idx], PRIMES[idx] / 2;
      while newLimit <= size && idx < LAST + 1
        invariant from < idx <= LAST && newLen == PRIMES[idx] && newLimit == newLen / 2
        invariant forall k :: from < k < idx ==> PRIMES[k] / 2 <= size
        decreases LAST - idx
      {
        idx := idx + 1;
        if idx > LAST { return false, idx, 0, 0; }
        newLen := PRIMES[idx];
        newLimit := newLen / 2;
      }
      PrimesUpTo(idx);
      inside := true;
    }

    static lemma {:induction false} PrimesUpTo(i: nat)
      requires i <= LAST
      ensures PRIMES[i] <= PRIMES[LAST]
      decreases LAST - i
    {
      PrimesGrow();
      if i < LAST { PrimesUpTo(i + 1); }
    }

    lemma LimitInside()
      requires Sound()
      ensures primeIdx >= -1 && loadLimit <= PRIMES[LAST] / 2
    {
      PrimesGrow();
      if primeIdx >= 0 { PrimesUpTo(primeIdx); }
    }

    lemma LongerPrime(idx: nat)
      requires Sound() && primeIdx < idx <= LAST
      ensures table.Length < PRIMES[idx]
    {
      PrimesGrow();
      PrimesRise(primeIdx, idx);
    }

    /** `HT_GROW`; `inPlace` says that a new array could not be had but the old one could be made longer.  The primes
        are read beyond the last one, which `inside` excludes, exactly when the table is below the last prime and none
        is large enough. */
    method Grow(size: nat, inPlace: bool) returns (inside: bool)
      requires Sound()
      modifies this`table, this`primeIdx, this`loadLimit, this`chains, this`home, home.Keys`next
      ensures !inside <==> old(primeIdx) < LAST && size >= PRIMES[LAST] / 2
      ensures Sound() && home.Keys == old(home.Keys)
      ensures inside ==> primeIdx >= 0 && (loadLimit > size || primeIdx == LAST)
      ensures inside ==>
        if old(primeIdx) == LAST || old(loadLimit) > size then primeIdx == old(primeIdx)
        else primeIdx > old(primeIdx) && forall k :: old(primeIdx) < k < primeIdx ==> PRIMES[k] / 2 <= size
      ensures table == old(table) || fresh(table)
    {
      hide Shape, Placed, Unique;
      inside := true;
      if primeIdx == LAST { return; }
      LimitInside();
      if loadLimit > size { return; }
      var idx, newLen, newLimit;
      inside, idx, newLen, newLimit := Choose(primeIdx, size);
      if !inside { return; }
      LongerPrime(idx);
      Lengthen(idx, inPlace);
    }

    /** The second half of `HT_GROW`: all elements move to a table of the chosen length. */
    method Lengthen(idx: nat, inPlace: bool)
      requires Sound() && primeIdx < idx <= LAST && table.Length < PRIMES[idx]
      modifies this`table, this`primeIdx, this`loadLimit, this`chains, this`home, home.Keys`next
      ensures Sound() && home.Keys == old(home.Keys) && fresh(table)
      ensures primeIdx == idx && loadLimit == PRIMES[idx] / 2
    {
      hide Shape, Placed, Unique;
      PrimesGrow();
      var newLen := PRIMES[idx];
      if !inPlace {
        table, chains, home := MoveAll(newLen);
      } else {
        table, chains, home := MoveInPlace(newLen);
      }
      primeIdx, loadLimit := idx, newLen / 2;
    }

    // ---- Operations

    /** An element of the table with this key. */
    ghost predicate Has(key: Key) reads this {
      HasKey(home.Keys, key)
    }

    /** `HT_FIND`: the element with the key of `elm`, or null. */
    method Find(elm: Elem) returns (r: Elem?)
      requires Valid()
      modifies elm`hash
      ensures Valid() && elm.hash == hashfn(elm.key)
      ensures if Has(elm.key) then r in Elems() && r.key == elm.key else r == null
    {
      hide Shape, Placed, Unique;
      SetHash(elm);
      if table.Length == 0 { NoBuckets(table[..], chains, home); return null; }
      var p, e, b, i := FindP(elm.key, elm.hash);
      r := e;
      if e != null { ChainHas(table[..], chains, home, b, i); }
    }

    /** `HT_SET_HASH_`; for an element of the table it changes nothing. */
    method SetHash(elm: Elem)
      requires Sound()
      modifies elm`hash
      ensures Sound() && elm.hash == hashfn(elm.key)
    {
      hide Shape;
      elm.hash := hashfn(elm.key);
    }

    /** Grows the table when it is full or not there yet. */
    method MakeRoom(inPlace: bool)
      requires Valid()
      modifies this`table, this`primeIdx, this`loadLimit, this`chains, this`home, home.Keys`next
      ensures Valid() && home.Keys == old(home.Keys) && table.Length > 0 && (table == old(table) || fresh(table))
      ensures primeIdx == LAST || nEntries < loadLimit
      ensures old(table.Length > 0 && nEntries < loadLimit) ==> table == old(table) && home == old(home)
    {
      hide Shape, Placed, Unique;
      SmallEnough();
      if table.Length == 0 || nEntries >= loadLimit {
        var inside := Grow(nEntries + 1, inPlace);
      }
    }

    /** `HT_INSERT`, for an element whose key is not in the table. */
    method Insert(elm: Elem, inPlace: bool)
      requires Valid() && !Has(elm.key)
      modifies this`table, this`primeIdx, this`loadLimit, this`chains, this`home, this`nEntries
      modifies table, home.Keys`next, elm
      ensures Valid() && Elems() == old(Elems()) + {elm} && (table == old(table) || fresh(table))
    {
      hide Sound, HasKey;
      MakeRoom(inPlace);
      nEntries := nEntries + 1;
      SetHash(elm);
      Enter(elm);
    }

    method Enter(elm: Elem)
      requires Sound() && table.Length > 0 && elm.hash == hashfn(elm.key) && !Has(elm.key)
      modifies this`chains, this`home, table, elm`next
      ensures Sound() && home.Keys == old(home.Keys) + {elm} && |home.Keys| == old(|home.Keys|) + 1
    {
      hide Shape, Placed, Unique, Sized;
      var b := elm.hash % table.Length;
      OneMore(home, elm, b, table.Length, hashfn);
      ShapeLength(table[..], chains, home);
      PushFront(table, b, elm, chains, home);
      chains, home := chains[b := [elm] + chains[b]], home[elm := b];
    }

    /** A new element that something follows already. */
    ghost predicate Trailing(elm: Elem) reads this, elm {
      elm !in Elems() && !Has(elm.key) && elm.next != null
    }

    /** `HT_REPLACE`: takes the place of the element with the same key, which is returned, or is added when there is
        none.  The count is right afterwards exactly when `elm` was not in the table itself: otherwise it is counted
        twice.  The buckets are right exactly when nothing followed a new element, whose `next` is not set. */
    method Replace(elm: Elem, inPlace: bool) returns (r: Elem?)
      requires Valid()
      modifies this`table, this`primeIdx, this`loadLimit, this`chains, this`home, this`nEntries
      modifies table, home.Keys`next, elm
      ensures nEntries == |Elems()| <==> elm !in old(Elems())
      ensures Sound() <==> !old(Trailing(elm))
      ensures elm !in old(Elems()) && !old(Trailing(elm)) ==> Valid()
      ensures elm in old(Elems()) ==> r == null && Elems() == old(Elems()) && nEntries == old(nEntries) + 1
      ensures elm !in old(Elems()) && !old(Has(elm.key)) ==> r == null && Elems() == old(Elems()) + {elm}
      ensures elm !in old(Elems()) && old(Has(elm.key)) ==>
        && r != null && r in old(Elems()) && r.key == elm.key && r.next == null
        && Elems() == old(Elems()) - {r} + {elm}
      ensures old(Trailing(elm)) ==> DoublyLinked(table[..], Elems(), elm)
    {
      hide Sound, HasKey, DoublyLinked, Trailing;
      Prepare(elm, inPlace);
      r := Swap(elm);
      Count(elm, r);
    }

    /** Room for one more element, and the hash of this one. */
    method Prepare(elm: Elem, inPlace: bool)
      requires Valid()
      modifies this`table, this`primeIdx, this`loadLimit, this`chains, this`home, home.Keys`next, elm`hash
      ensures Sound() && nEntries == |home.Keys| && (primeIdx == LAST || nEntries < loadLimit)
      ensures home.Keys == old(home.Keys) && table.Length > 0 && (table == old(table) || fresh(table))
      ensures elm.hash == hashfn(elm.key) && Trailing(elm) == old(Trailing(elm))
    {
      hide Sound, HasKey;
      MakeRoom(inPlace);
      SetHash(elm);
    }

    method Count(ghost elm: Elem, r: Elem?)
      modifies this`nEntries
      ensures nEntries == old(nEntries) + if r == null then 1 else 0
      ensures Sound() <==> old(Sound())
      ensures DoublyLinked(table[..], Elems(), elm) <==> old(DoublyLinked(table[..], Elems(), elm))
    {
      hide Sound, DoublyLinked;
      if r == null {
        nEntries := nEntries + 1;
      }
    }

    /** The link to the place of the key, the element there and what becomes of it. */
    method Swap(elm: Elem) returns (r: Elem?)
      requires Sound() && table.Length > 0 && elm.hash == hashfn(elm.key)
      modifies this`chains, this`home, table, home.Keys`next, elm`next
      ensures Sound() <==> !old(Trailing(elm))
      ensures old(Trailing(elm)) ==> DoublyLinked(table[..], Elems(), elm)
      ensures elm in old(Elems()) ==> r == null && home.Keys == old(home.Keys)
      ensures elm !in old(Elems()) && !old(Has(elm.key)) ==>
        r == null && home.Keys == old(home.Keys) + {elm} && |home.Keys| == old(|home.Keys|) + 1
      ensures elm !in old(Elems()) && old(Has(elm.key)) ==>
        && r != null && r in old(Elems()) && r.key == elm.key && r.next == null
        && home.Keys == old(home.Keys) - {r} + {elm} && |home.Keys| == old(|home.Keys|)
    {
      hide Shape, Placed, Sized, Unique, DoublyLinked;
      var p, e, b, i := FindP(elm.key, elm.hash);
      if e == null {
        EnterLast(p, b, elm);
        return null;
      }
      ChainHas(table[..], chains, home, b, i);
      OnlyOne(home.Keys, e, elm);
      if e == elm {
        return null;
      }
      TakePlace(p, b, i, e, elm);
      r := e;
    }

    method EnterLast(p: Link, ghost b: nat, elm: Elem)
      requires Sound() && table.Length > 0 && elm.hash == hashfn(elm.key) && !Has(elm.key)
      requires b == elm.hash % table.Length && b < |chains| && p == LinkTo(chains[b], b, |chains[b]|)
      modifies this`chains, this`home, table, home.Keys`next
      ensures home.Keys == old(home.Keys) + {elm} && |home.Keys| == old(|home.Keys|) + 1
      ensures Sound() <==> old(elm.next) == null
      ensures old(elm.next) != null ==> DoublyLinked(table[..], home.Keys, elm)
    {
      hide Shape, Placed, Sized, Unique, DoublyLinked;
      OneMore(home, elm, b, table.Length, hashfn);
      Append(table, p, elm, chains, home, b);
      chains, home := chains[b := chains[b] + [elm]], home[elm := b];
      if elm.next != null { NoShape(table[..], home.Keys, elm, chains, home); }
    }

    method TakePlace(p: Link, ghost b: nat, ghost i: nat, r: Elem, elm: Elem)
      requires Sound() && table.Length > 0 && elm.hash == hashfn(elm.key) && b == elm.hash % table.Length
      requires b < |chains| && i < |chains[b]| && p == LinkTo(chains[b], b, i)
      requires r == chains[b][i] && r in home && r.key == elm.key && r != elm
      modifies this`chains, this`home, table, home.Keys`next, elm`next
      ensures Sound() && home.Keys == old(home.Keys) - {r} + {elm} && |home.Keys| == old(|home.Keys|) && r.next == null
    {
      hide Shape, Placed, Sized, Unique;
      OneInstead(home, r, elm, b, table.Length, hashfn);
      Substitute(table, p, r, elm, chains, home, b, i);
      chains, home := chains[b := chains[b][i := elm]], (home - {r})[elm := b];
    }

    /** `HT_REMOVE`: takes out the element with the key of `elm`, if there is one. */
    method Remove(elm: Elem) returns (r: Elem?)
      requires Valid()
      modifies this`chains, this`home, this`nEntries, table, home.Keys`next, elm`hash
      ensures Valid()
      ensures if !old(Has(elm.key)) then r == null && Elems() == old(Elems())
              else r != null && r in old(Elems()) && r.key == elm.key && r.next == null && Elems() == old(Elems()) - {r}
    {
      hide Shape, Placed, Unique, Sized, HasKey;
      SetHash(elm);
      if table.Length == 0 { NoBuckets(table[..], chains, home); return null; }
      r := TakeOut(elm.key, elm.hash);
      if r == null { return; }
      r.next := null;
      nEntries := nEntries - 1;
    }

    method TakeOut(key: Key, hash: nat) returns (r: Elem?)
      requires Sound() && table.Length > 0 && hash == hashfn(key)
      modifies this`chains, this`home, table, home.Keys`next
      ensures Sound()
      ensures if !old(Has(key)) then r == null && home.Keys == old(home.Keys)
              else r != null && r in old(home.Keys) && r.key == key && home.Keys == old(home.Keys) - {r}
                   && |home.Keys| == old(|home.Keys|) - 1
    {
      hide Shape, Placed, Unique, Sized;
      var p, e, b, i := FindP(key, hash);
      if e == null { return null; }
      ChainHas(table[..], chains, home, b, i);
      r := e;
      OneLess(home, r, table.Length, hashfn);
      Unlink(table, p, r, chains, home, b, i);
      chains, home := chains[b := Cut(chains[b], i)], home - {r};
    }

    /** The largest size that growing is asked for is within the table of primes. */
    lemma SmallEnough()
      requires Valid()
      ensures primeIdx == LAST || nEntries + 1 < PRIMES[LAST] / 2
    {
      PrimesGrow();
    }
  }

  /** Growing an empty table for 805306370 elements reads beyond the last prime. */
  method BeyondPrimes(hashfn: Key -> nat) returns (inside: bool)
    ensures !inside
  {
    PrimesGrow();
    var t := new Table(hashfn);
    inside := t.Grow(805306370, false);
  }

  lemma NoBuckets(t: seq<Elem?>, chains: seq<seq<Elem>>, home: map<Elem, nat>)
    requires Shape(t, chains, home) && t == []
    ensures home.Keys == {} && forall key :: !HasKey(home.Keys, key)
  {
  }

  /** A new element with a new key. */
  lemma OneMore(home: map<Elem, nat>, e: Elem, b: nat, len: nat, hashfn: Key -> nat)
    requires Placed(home, len, hashfn) && Unique(home.Keys) && (forall f :: f in home ==> f.key != e.key)
    requires len > 0 && e.hash == hashfn(e.key) && b == e.hash % len
    ensures e !in home && Placed(home[e := b], len, hashfn) && Unique(home[e := b].Keys)
    ensures home[e := b].Keys == home.Keys + {e} && |home[e := b].Keys| == |home.Keys| + 1
  {
    assert home[e := b].Keys == home.Keys + {e};
  }

  lemma OnlyOne(elems: set<Elem>, e: Elem, f: Elem)
    requires Unique(elems) && e in elems && e.key == f.key
    ensures f in elems <==> f == e
  {
  }

  /** Another element with the same key. */
  lemma OneInstead(home: map<Elem, nat>, r: Elem, e: Elem, b: nat, len: nat, hashfn: Key -> nat)
    requires Placed(home, len, hashfn) && Unique(home.Keys) && r in home && r.key == e.key && r != e
    requires len > 0 && e.hash == hashfn(e.key) && b == e.hash % len
    ensures e !in home
    ensures var h := (home - {r})[e := b];
      && Placed(h, len, hashfn) && Unique(h.Keys) && h.Keys == home.Keys - {r} + {e} && |h.Keys| == |home.Keys|
  {
    var h := (home - {r})[e := b];
    assert h.Keys == home.Keys - {r} + {e};
    assert |home.Keys - {r}| == |home.Keys| - 1;
  }

  lemma OneLess(home: map<Elem, nat>, r: Elem, len: nat, hashfn: Key -> nat)
    requires Placed(home, len, hashfn) && Unique(home.Keys) && r in home
    ensures Placed(home - {r}, len, hashfn) && Unique((home - {r}).Keys)
    ensures (home - {r}).Keys == home.Keys - {r} && |(home - {r}).Keys| == |home.Keys| - 1
  {
    assert (home - {r}).Keys == home.Keys - {r};
  }

  lemma {:induction false} PrimesRise(i: int, j: nat)
    requires -1 <= i < j <= LAST
    ensures PRIMES[j] >= 53 && (i >= 0 ==> PRIMES[i] < PRIMES[j])
    decreases j
  {
    PrimesGrow();
    if i + 1 < j {
      PrimesRise(i, j - 1);
    }
  }

  /** Every element is in its new bucket, or still in its old one, which is bucket `b` without `part` or a later
      one. */
  ghost predicate Settled(h: map<Elem, nat>, newLen: nat, oldLen: nat, b: nat, part: seq<Elem>)
    reads h.Keys`hash
  {
    && (newLen == 0 ==> h == map[])
    && forall e :: e in h ==>
         h[e] == e.hash % newLen
         || (oldLen > 0 && h[e] == e.hash % oldLen && (h[e] > b || (h[e] == b && e !in part)))
  }

  /** Goes through the buckets of the old length. */
  method SettleBuckets(t: array<Elem?>, oldLen: nat, ghost c0: seq<seq<Elem>>, ghost h0: map<Elem, nat>)
    returns (ghost c: seq<seq<Elem>>, ghost h: map<Elem, nat>)
    requires oldLen <= t.Length == |c0| && Shape(t[..], c0, h0) && Settled(h0, t.Length, oldLen, 0, [])
    modifies t, h0.Keys`next
    ensures h.Keys == h0.Keys && Shape(t[..], c, h) && Settled(h, t.Length, oldLen, oldLen, [])
  {
    hide Shape, Settled;
    c, h := c0, h0;
    for b := 0 to oldLen
      invariant |c| == |c0| && h.Keys == h0.Keys && Shape(t[..], c, h) && Settled(h, t.Length, oldLen, b, [])
    {
      c, h := SettleBucket(t, oldLen, b, c, h);
    }
  }

  /** Goes through one bucket; what does not belong there moves on. */
  method SettleBucket(t: array<Elem?>, ghost oldLen: nat, b: nat, ghost c0: seq<seq<Elem>>, ghost h0: map<Elem, nat>)
    returns (ghost c: seq<seq<Elem>>, ghost h: map<Elem, nat>)
    requires b < oldLen <= t.Length == |c0| && Shape(t[..], c0, h0) && Settled(h0, t.Length, oldLen, b, [])
    modifies t, h0.Keys`next
    ensures |c| == |c0| && h.Keys == h0.Keys && Shape(t[..], c, h) && Settled(h, t.Length, oldLen, b + 1, [])
  {
    hide Shape, Settled;
    c, h := c0, h0;
    var p := Bucket(b);
    ghost var i := 0;
    var e := Deref(t, p, c, h, b, 0);
    assert c[b][..0] == [];
    while e != null
      invariant |c| == |c0| && h.Keys == h0.Keys && Shape(t[..], c, h)
      invariant i <= |c[b]| && p == LinkTo(c[b], b, i) && e == At(c[b], i)
      invariant Settled(h, t.Length, oldLen, b, c[b][..i])
      decreases |c[b]| - i
    {
      var b2 := e.hash % t.Length;
      ChainHas(t[..], c, h, b, i);
      if b2 == b {
        SettledStay(h, t.Length, oldLen, b, c[b], i);
        p, i := NextOf(e), i + 1;
      } else {
        SettledOn(h, h[e := b2], t.Length, oldLen, b, c[b][..i], e);
        c, h := MoveOn(t, p, e, b2, c, h, b, i);
      }
      e := Deref(t, p, c, h, b, i);
    }
    SettledBucket(t[..], c, h, oldLen, b);
  }

  method MoveOn(t: array<Elem?>, p: Link, e: Elem, b2: nat, ghost c0: seq<seq<Elem>>, ghost h0: map<Elem, nat>,
                ghost b: nat, ghost i: nat)
    returns (ghost c: seq<seq<Elem>>, ghost h: map<Elem, nat>)
    requires Shape(t[..], c0, h0) && b < |c0| && i < |c0[b]| && e == c0[b][i] && p == LinkTo(c0[b], b, i)
    requires b2 != b && b2 < t.Length && e in h0
    modifies t, h0.Keys`next
    ensures |c| == |c0| && Shape(t[..], c, h) && h.Keys == h0.Keys && h == h0[e := b2]
    ensures c[b] == Cut(c0[b], i) && c[b][..i] == c0[b][..i] && p == LinkTo(c[b], b, i)
  {
    hide Chained, Members;
    Unlink(t, p, e, c0, h0, b, i);
    c, h := c0[b := Cut(c0[b], i)], h0 - {e};
    PushFront(t, b2, e, c, h);
    c, h := c[b2 := [e] + c[b2]], h[e := b2];
    assert h == h0[e := b2];
  }

  /** A longer array with the same buckets and empty ones after them. */
  method Longer(former: array<Elem?>, newLen: nat, ghost chains: seq<seq<Elem>>, ghost home: map<Elem, nat>)
    returns (t: array<Elem?>, ghost c: seq<seq<Elem>>)
    requires Shape(former[..], chains, home) && newLen >= former.Length
    ensures fresh(t) && t.Length == newLen == |c| && Shape(t[..], c, home)
  {
    hide Shape;
    ShapeLength(former[..], chains, home);
    t := new Elem?[newLen](i requires 0 <= i reads former => if i < former.Length then former[i] else null);
    c := chains + seq(newLen - former.Length, i => []);
    LongerShape(former[..], t[..], chains, c, home);
  }

  lemma LongerShape(t: seq<Elem?>, u: seq<Elem?>, chains: seq<seq<Elem>>, c: seq<seq<Elem>>, home: map<Elem, nat>)
    requires Shape(t, chains, home) && |t| <= |u| == |c| && u[..|t|] == t && c[..|t|] == chains
    requires forall i :: |t| <= i < |u| ==> u[i] == null && c[i] == []
    ensures Shape(u, c, home)
  {
    forall k | 0 <= k < |c| ensures Members(c[k], k, home) && Chained(u[k], c[k]) {
      if k < |t| {
        assert c[k] == c[..|t|][k] && u[k] == u[..|t|][k];
      }
    }
    forall e | e in home ensures e in c[home[e]] {
      assert c[home[e]] == c[..|t|][home[e]];
    }
  }

  lemma SettledNone(home: map<Elem, nat>, hashfn: Key -> nat, oldLen: nat, newLen: nat)
    requires Placed(home, oldLen, hashfn) && newLen > 0
    ensures Settled(home, newLen, oldLen, 0, [])
  {
  }

  lemma SettledStay(h: map<Elem, nat>, newLen: nat, oldLen: nat, b: nat, c: seq<Elem>, i: nat)
    requires i < |c| && Settled(h, newLen, oldLen, b, c[..i]) && c[i] in h && h[c[i]] == b == c[i].hash % newLen
    requires newLen > 0
    ensures Settled(h, newLen, oldLen, b, c[..i + 1])
  {
    assert c[..i + 1] == c[..i] + [c[i]];
  }

  lemma SettledOn(h: map<Elem, nat>, g: map<Elem, nat>, newLen: nat, oldLen: nat, b: nat, part: seq<Elem>, e: Elem)
    requires newLen > 0 && Settled(h, newLen, oldLen, b, part) && e in h && g == h[e := e.hash % newLen]
    ensures Settled(g, newLen, oldLen, b, part)
  {
  }

  lemma SettledBucket(t: seq<Elem?>, c: seq<seq<Elem>>, h: map<Elem, nat>, oldLen: nat, b: nat)
    requires Shape(t, c, h) && b < oldLen <= |t| && Settled(h, |t|, oldLen, b, c[b][..|c[b]|])
    ensures Settled(h, |t|, oldLen, b + 1, [])
  {
    assert c[b][..|c[b]|] == c[b];
  }

  lemma HashedAgain(home: map<Elem, nat>, h: map<Elem, nat>, hashfn: Key -> nat)
    requires Hashed(home, hashfn) && h.Keys == home.Keys
    ensures Hashed(h, hashfn)
  {
    assert forall e :: e in h ==> e in h.Keys;
  }

  lemma AllSettled(h: map<Elem, nat>, newLen: nat, oldLen: nat, hashfn: Key -> nat)
    requires newLen > 0 && Settled(h, newLen, oldLen, oldLen, [])
    requires Hashed(h, hashfn)
    ensures Placed(h, newLen, hashfn)
  {
  }

  /** Every bucket of one array is emptied into the other. */
  method MoveBuckets(table: array<Elem?>, t: array<Elem?>, ghost hashfn: Key -> nat, ghost chains: seq<seq<Elem>>,
                     ghost c0: seq<seq<Elem>>, ghost home: map<Elem, nat>, ghost nexts: map<Elem, Elem?>)
    returns (ghost c: seq<seq<Elem>>, ghost h: map<Elem, nat>)
    requires t.Length > 0 && t != table && Shape(t[..], c0, map[]) && |chains| == table.Length
    requires WasLinked(table[..], chains, home, nexts) && Hashed(home, hashfn)
    requires nexts.Keys == home.Keys && forall e :: e in home ==> e.next == nexts[e]
    modifies t, home.Keys`next
    ensures Shape(t[..], c, h) && Placed(h, t.Length, hashfn) && h.Keys == home.Keys
  {
    hide Shape, Placed, Moved, WasLinked, Hashed;
    ghost var was := table[..];
    c, h := c0, map[];
    NothingMoved(home, t.Length, hashfn);
    assert h.Keys == {};
    for b := 0 to table.Length
      invariant Shape(t[..], c, h) && Placed(h, t.Length, hashfn) && table[..] == was
      invariant Moved(h.Keys, home, b, [])
      invariant forall e :: e in home && e !in h ==> e.next == nexts[e]
    {
      c, h := MoveBucket(t, table[b], b, hashfn, was, chains, c, h, home, nexts);
    }
    AllMoved(was, chains, nexts, h.Keys, home);
  }

  /** Takes the elements of one bucket of the old table into the new one. */
  method MoveBucket(t: array<Elem?>, head: Elem?, b: nat, ghost hashfn: Key -> nat, ghost was: seq<Elem?>,
                    ghost chains: seq<seq<Elem>>, ghost c0: seq<seq<Elem>>, ghost h0: map<Elem, nat>,
                    ghost home: map<Elem, nat>, ghost nexts: map<Elem, Elem?>)
    returns (ghost c: seq<seq<Elem>>, ghost h: map<Elem, nat>)
    requires t.Length > 0 && Shape(t[..], c0, h0) && Placed(h0, t.Length, hashfn) && Moved(h0.Keys, home, b, [])
    requires WasLinked(was, chains, home, nexts) && b < |was| == |chains| && head == was[b] && Hashed(home, hashfn)
    requires nexts.Keys == home.Keys && forall e :: e in home && e !in h0 ==> e.next == nexts[e]
    modifies t, home.Keys`next
    ensures Shape(t[..], c, h) && Placed(h, t.Length, hashfn) && Moved(h.Keys, home, b + 1, [])
    ensures forall e :: e in home && e !in h ==> e.next == nexts[e]
  {
    hide Shape, Placed, Moved, ChainedBy, Members, WasLinked, Hashed;
    WasBucket(was, chains, home, nexts, b);
    ghost var chain := chains[b];
    var elm := head;
    ghost var i := 0;
    c, h := c0, h0;
    BucketStarts(nexts, head, chain);
    while elm != null
      invariant i <= |chain| && elm == At(chain, i)
      invariant Shape(t[..], c, h) && Placed(h, t.Length, hashfn) && Moved(h.Keys, home, b, chain[..i])
      invariant forall e :: e in home && e !in h ==> e.next == nexts[e]
      decreases |chain| - i
    {
      MovedOne(head, chain, h.Keys, home, nexts, b, i);
      HashOf(home, hashfn, elm);
      var next := elm.next;
      c, h := MoveOne(t, elm, hashfn, c, h);
      elm, i := next, i + 1;
    }
    MovedBucket(chain, h.Keys, home, b);
  }

  /** Puts one element into its bucket of the new table. */
  method MoveOne(t: array<Elem?>, e: Elem, ghost hashfn: Key -> nat, ghost c0: seq<seq<Elem>>, ghost h0: map<Elem, nat>)
    returns (ghost c: seq<seq<Elem>>, ghost h: map<Elem, nat>)
    requires t.Length > 0 && Shape(t[..], c0, h0) && Placed(h0, t.Length, hashfn)
    requires e !in h0 && e.hash == hashfn(e.key)
    modifies t, e`next
    ensures Shape(t[..], c, h) && Placed(h, t.Length, hashfn) && h.Keys == h0.Keys + {e}
  {
    var b2 := e.hash % t.Length;
    PushFront(t, b2, e, c0, h0);
    c, h := c0[b2 := [e] + c0[b2]], h0[e := b2];
  }

  /** Every element has its hash. */
  ghost predicate Hashed(home: map<Elem, nat>, hashfn: Key -> nat)
    reads home.Keys`hash
  {
    forall e :: e in home ==> e.hash == hashfn(e.key)
  }

  lemma PlacedHash(home: map<Elem, nat>, len: nat, hashfn: Key -> nat)
    requires Placed(home, len, hashfn)
    ensures Hashed(home, hashfn)
  {
  }

  /** The chains of the table before anything moved, seen through the `next` fields of that time. */
  ghost predicate WasLinked(t: seq<Elem?>, chains: seq<seq<Elem>>, home: map<Elem, nat>, nexts: map<Elem, Elem?>) {
    && |t| == |chains| && nexts.Keys == home.Keys
    && (forall k :: 0 <= k < |chains| ==> Members(chains[k], k, home) && ChainedBy(nexts, t[k], chains[k]))
    && (forall e :: e in home ==> home[e] < |chains| && e in chains[home[e]])
  }

  lemma WasBucket(t: seq<Elem?>, chains: seq<seq<Elem>>, home: map<Elem, nat>, nexts: map<Elem, Elem?>, b: nat)
    requires WasLinked(t, chains, home, nexts) && b < |t|
    ensures |t| == |chains| && Members(chains[b], b, home) && ChainedBy(nexts, t[b], chains[b])
    ensures forall e :: e in home && home[e] == b ==> e in chains[b]
  {
  }

  lemma HashOf(home: map<Elem, nat>, hashfn: Key -> nat, e: Elem)
    requires Hashed(home, hashfn) && e in home
    ensures e.hash == hashfn(e.key)
  {
  }

  lemma Snapshot(t: seq<Elem?>, chains: seq<seq<Elem>>, home: map<Elem, nat>, nexts: map<Elem, Elem?>)
    requires Shape(t, chains, home) && nexts == map e | e in home :: e.next
    ensures WasLinked(t, chains, home, nexts)
  {
    forall k | 0 <= k < |chains| ensures ChainedBy(nexts, t[k], chains[k]) {
      BucketThere(t, chains, home, k);
    }
  }

  lemma NothingMoved(home: map<Elem, nat>, len: nat, hashfn: Key -> nat)
    ensures Moved({}, home, 0, []) && Placed(map[], len, hashfn)
  {
  }

  lemma BucketStarts(nexts: map<Elem, Elem?>, head: Elem?, chain: seq<Elem>)
    requires ChainedBy(nexts, head, chain)
    ensures head == At(chain, 0) && chain[..0] == []
  {
  }

  /** The next element of a bucket has not been moved yet; moving it is one step. */
  lemma MovedOne(head: Elem?, chain: seq<Elem>, moved: set<Elem>, home: map<Elem, nat>, nexts: map<Elem, Elem?>,
                 b: nat, i: nat)
    requires Members(chain, b, home) && ChainedBy(nexts, head, chain) && nexts.Keys == home.Keys && i < |chain|
    requires Moved(moved, home, b, chain[..i])
    ensures chain[i] in home && chain[i] !in moved && nexts[chain[i]] == At(chain, i + 1)
    ensures Moved(moved + {chain[i]}, home, b, chain[..i + 1])
  {
    OneNext(head, chain, nexts, i);
    hide ChainedBy;
    forall e | e in home ensures e in moved + {chain[i]} <==> home[e] < b || e in chain[..i + 1] {
    }
  }

  lemma OneNext(head: Elem?, chain: seq<Elem>, nexts: map<Elem, Elem?>, i: nat)
    requires ChainedBy(nexts, head, chain) && i < |chain|
    ensures chain[i] in nexts && nexts[chain[i]] == At(chain, i + 1) && chain[i] !in chain[..i]
    ensures forall e :: e in chain[..i + 1] <==> e in chain[..i] || e == chain[i]
  {
    assert chain[..i + 1] == chain[..i] + [chain[i]];
  }

  lemma MovedBucket(chain: seq<Elem>, moved: set<Elem>, home: map<Elem, nat>, b: nat)
    requires Members(chain, b, home) && Moved(moved, home, b, chain[..|chain|])
    requires forall e :: e in home && home[e] == b ==> e in chain
    ensures Moved(moved, home, b + 1, [])
  {
    assert chain[..|chain|] == chain;
  }

  lemma AllMoved(t: seq<Elem?>, chains: seq<seq<Elem>>, nexts: map<Elem, Elem?>, moved: set<Elem>, home: map<Elem, nat>)
    requires WasLinked(t, chains, home, nexts) && Moved(moved, home, |t|, [])
    ensures moved == home.Keys
  {
  }

  ghost predicate ChainedBy(nexts: map<Elem, Elem?>, head: Elem?, c: seq<Elem>) {
    && head == At(c, 0)
    && (forall i :: 0 <= i < |c| ==> c[i] in nexts && nexts[c[i]] == At(c, i + 1))
    && (forall i, j :: 0 <= i < j < |c| ==> c[i] != c[j])
  }

  /** Moved are the elements of the buckets before `b`, and those given of bucket `b`. */
  ghost predicate Moved(moved: set<Elem>, home: map<Elem, nat>, b: nat, part: seq<Elem>) {
    moved <= home.Keys && forall e :: e in home ==> (e in moved <==> home[e] < b || e in part)
  }

  method EmptyTable(len: nat) returns (t: array<Elem?>, ghost c: seq<seq<Elem>>)
    ensures fresh(t) && t.Length == len && Shape(t[..], c, map[])
  {
    hide Shape;
    t := new Elem?[len](i => null);
    c := seq(len, i => []);
    EmptyShape(t[..], c);
  }

  lemma EmptyShape(t: seq<Elem?>, c: seq<seq<Elem>>)
    requires |t| == |c| && forall i :: 0 <= i < |t| ==> t[i] == null && c[i] == []
    ensures Shape(t, c, map[])
  {
  }

  lemma ShapeLength(t: seq<Elem?>, chains: seq<seq<Elem>>, home: map<Elem, nat>)
    requires Shape(t, chains, home)
    ensures |t| == |chains| && forall e :: e in home ==> home[e] < |t|
  {
  }

  lemma BucketThere(t: seq<Elem?>, chains: seq<seq<Elem>>, home: map<Elem, nat>, b: nat)
    requires Shape(t, chains, home) && b < |t|
    ensures b < |chains| == |t| && Members(chains[b], b, home) && Chained(t[b], chains[b])
  {
  }

  lemma ChainHas(t: seq<Elem?>, chains: seq<seq<Elem>>, home: map<Elem, nat>, b: nat, i: nat)
    requires Shape(t, chains, home) && b < |chains| && i < |chains[b]|
    ensures chains[b][i] in home && home[chains[b][i]] == b
  {
    BucketThere(t, chains, home, b);
  }

  /** What is not in its bucket is not in the table. */
  lemma NotThere(t: seq<Elem?>, chains: seq<seq<Elem>>, home: map<Elem, nat>, hashfn: Key -> nat, key: Key)
    requires Shape(t, chains, home) && Placed(home, |t|, hashfn) && |t| > 0
    requires forall k :: 0 <= k < |chains[hashfn(key) % |t|]| ==> chains[hashfn(key) % |t|][k].key != key
    ensures forall f :: f in home ==> f.key != key
  {
    forall f | f in home ensures f.key != key {
      assert f in chains[home[f]];
    }
  }
}
