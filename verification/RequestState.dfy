/** Where every DNS request is, and what the counters must be. */
module RequestState {
  import opened Common
  import opened RequestRings

  const WAITING := -1

  /** A request's place, a ring's index or `WAITING`, its transaction id and its nameserver. */
  datatype Info = Info(home: int, id: nat, ns: Nameserver?)

  datatype State = State(info: map<Request, Info>, rings: seq<seq<Request>>, waiting: seq<Request>, inflight: int,
                         waitingCount: int, load: map<Nameserver, int>)

  /** The requests of a queue are those with this home, each once. */
  ghost predicate Home(q: seq<Request>, info: map<Request, Info>, home: int) {
    NoDuplicates(q) && forall r :: r in q ==> r in info && info[r].home == home
  }

  ghost predicate InfoOk(s: State, r: Request)
    requires r in s.info && s.rings != []
  {
    var f := s.info[r];
    if f.home == WAITING then f.ns == null && r in s.waiting
    else 0 <= f.home < |s.rings| && f.home == f.id % |s.rings| && f.ns != null && f.ns in s.load && r in s.rings[f.home]
  }

  /** The request is in flight, on nameserver n if that is not null. */
  ghost predicate Flies(info: map<Request, Info>, r: Request, n: Nameserver?) {
    r in info && info[r].home >= 0 && (n == null || info[r].ns == n)
  }

  ghost function Flying(info: map<Request, Info>, n: Nameserver?): set<Request> {
    set r | r in info && Flies(info, r, n)
  }

  ghost predicate Counted(s: State) {
    && s.inflight == |Flying(s.info, null)| && s.waitingCount == |s.waiting|
    && forall n :: n in s.load ==> s.load[n] == |Flying(s.info, n)|
  }

  ghost predicate Queued(s: State) {
    && (forall k :: 0 <= k < |s.rings| ==> Home(s.rings[k], s.info, k))
    && Home(s.waiting, s.info, WAITING)
  }

  /** Each request is in exactly one place, in flight in the ring its id asks for, and the counters agree. */
  ghost predicate Good(s: State) {
    s.rings != [] && (forall r :: r in s.info ==> InfoOk(s, r)) && Queued(s) && Counted(s)
  }

  lemma WithoutOne(q: set<Request>, r: Request)
    ensures |q| == |q - {r}| + B2I(r in q)
  {
    if r in q {
      assert q == (q - {r}) + {r};
    } else {
      assert q == q - {r};
    }
  }

  lemma FlyingChange(a: map<Request, Info>, b: map<Request, Info>, r: Request, n: Nameserver?)
    requires forall x :: x != r ==> (Flies(a, x, n) <==> Flies(b, x, n))
    ensures |Flying(b, n)| == |Flying(a, n)| - B2I(Flies(a, r, n)) + B2I(Flies(b, r, n))
  {
    assert Flying(b, n) - {r} == Flying(a, n) - {r} by {
      forall x ensures x in Flying(b, n) - {r} <==> x in Flying(a, n) - {r} {
      }
    }
    WithoutOne(Flying(a, n), r);
    WithoutOne(Flying(b, n), r);
  }

  // ---- Entering and leaving

  /** `request_submit`: with a nameserver straight into flight, without one into the waiting ring. */
  ghost function Entered(s: State, r: Request, id: nat, ns: Nameserver?): State
    requires s.rings != [] && (ns != null ==> ns in s.load)
  {
    if ns == null then
      s.(info := s.info[r := Info(WAITING, id, null)], waiting := s.waiting + [r], waitingCount := s.waitingCount + 1)
    else
      var k := id % |s.rings|;
      s.(info := s.info[r := Info(k, id, ns)], rings := s.rings[k := s.rings[k] + [r]], inflight := s.inflight + 1,
         load := s.load[ns := s.load[ns] + 1])
  }

  lemma EnteredGood(s: State, r: Request, id: nat, ns: Nameserver?)
    requires Good(s) && r !in s.info && (ns != null ==> ns in s.load)
    ensures Good(Entered(s, r, id, ns))
  {
    hide Counted;
    var t := Entered(s, r, id, ns);
    EnteredCounted(s, r, id, ns);
    forall x | x in t.info ensures InfoOk(t, x) {
      if x != r { assert InfoOk(s, x); }
    }
    if ns != null {
      HomeIn(s, id % |s.rings|);
    }
  }

  lemma HomeIn(s: State, k: nat)
    requires Queued(s) && k < |s.rings|
    ensures Home(s.rings[k], s.info, k)
  {
  }

  lemma EnteredCounted(s: State, r: Request, id: nat, ns: Nameserver?)
    requires Good(s) && r !in s.info && (ns != null ==> ns in s.load)
    ensures Counted(Entered(s, r, id, ns))
  {
    hide Queued, InfoOk, Flying;
    var t := Entered(s, r, id, ns);
    FlyingChange(s.info, t.info, r, null);
    forall n | n in t.load ensures t.load[n] == |Flying(t.info, n)| {
      FlyingChange(s.info, t.info, r, n);
    }
  }

  /** A request taken out of place i of its ring. */
  ghost function Left(s: State, r: Request, i: nat): State
    requires r in s.info && (s.info[r].home >= 0 ==> s.info[r].home < |s.rings| && i < |s.rings[s.info[r].home]|)
    requires s.info[r].home >= 0 ==> s.info[r].ns != null && s.info[r].ns in s.load
    requires s.info[r].home < 0 ==> i < |s.waiting|
  {
    var f := s.info[r];
    if f.home < 0 then s.(info := s.info - {r}, waiting := Without(s.waiting, i), waitingCount := s.waitingCount - 1)
    else s.(info := s.info - {r}, rings := s.rings[f.home := Without(s.rings[f.home], i)], inflight := s.inflight - 1,
            load := s.load[f.ns := s.load[f.ns] - 1])
  }

  ghost predicate At(s: State, r: Request, i: nat) {
    && r in s.info && s.rings != [] && InfoOk(s, r)
    && if s.info[r].home < 0 then i < |s.waiting| && s.waiting[i] == r
       else i < |s.rings[s.info[r].home]| && s.rings[s.info[r].home][i] == r
  }

  lemma LeftGood(s: State, r: Request, i: nat)
    requires Good(s) && At(s, r, i)
    ensures Good(Left(s, r, i)) && r !in Left(s, r, i).info
  {
    hide Counted, Without;
    var t := Left(s, r, i);
    var h := s.info[r].home;
    LeftCounted(s, r, i);
    if h < 0 {
      LeftHome(s.waiting, i, s.info, WAITING);
    } else {
      HomeIn(s, h);
      LeftHome(s.rings[h], i, s.info, h);
    }
    forall x | x in t.info ensures InfoOk(t, x) {
      assert InfoOk(s, x);
    }
    forall k | 0 <= k < |t.rings| ensures Home(t.rings[k], t.info, k) {
      HomeIn(s, k);
      if k != h { assert r !in s.rings[k]; }
    }
    assert Home(t.waiting, t.info, WAITING) by { if h >= 0 { assert r !in s.waiting; } }
  }

  lemma LeftHome(q: seq<Request>, i: nat, info: map<Request, Info>, home: int)
    requires Home(q, info, home) && i < |q|
    ensures Home(Without(q, i), info - {q[i]}, home) && forall x :: x in Without(q, i) <==> x in q && x != q[i]
  {
    var d := Without(q, i);
    forall x ensures x in d <==> x in q && x != q[i] {
      if x in q && x != q[i] {
        var j :| 0 <= j < |q| && q[j] == x;
        assert d[if j < i then j else j - 1] == x;
      }
    }
  }

  lemma LeftCounted(s: State, r: Request, i: nat)
    requires Good(s) && At(s, r, i)
    ensures Counted(Left(s, r, i))
  {
    hide Queued, Flying;
    assert InfoOk(s, r);
    var t := Left(s, r, i);
    FlyingChange(s.info, t.info, r, null);
    forall n | n in t.load ensures t.load[n] == |Flying(t.info, n)| {
      FlyingChange(s.info, t.info, r, n);
    }
  }


  // ---- Changing nameservers

  /** `request_swap_ns` for a request in flight. */
  ghost function Swapped(s: State, r: Request, ns: Nameserver): State
    requires r in s.info && s.info[r].ns != null && s.info[r].ns in s.load && ns in s.load
  {
    var was := s.info[r].ns;
    if was == ns then s
    else s.(info := s.info[r := s.info[r].(ns := ns)], load := s.load[was := s.load[was] - 1][ns := s.load[ns] + 1])
  }

  lemma SwappedGood(s: State, r: Request, ns: Nameserver)
    requires Good(s) && r in s.info && s.info[r].home >= 0 && ns in s.load
    ensures InfoOk(s, r) && Good(Swapped(s, r, ns))
  {
    hide Counted, Queued;
    assert InfoOk(s, r);
    if s.info[r].ns != ns {
      SwappedCounted(s, r, ns);
      SwappedQueued(s, r, ns);
      var t := Swapped(s, r, ns);
      forall x | x in t.info ensures InfoOk(t, x) {
        assert InfoOk(s, x);
      }
    }
  }

  lemma SwappedQueued(s: State, r: Request, ns: Nameserver)
    requires Queued(s) && r in s.info && s.info[r].ns != null && s.info[r].ns in s.load && ns in s.load
    ensures Queued(Swapped(s, r, ns))
  {
    hide Home;
    var t := Swapped(s, r, ns);
    forall k | 0 <= k < |t.rings| ensures Home(t.rings[k], t.info, k) {
      SameHome(s.rings[k], s.info, t.info, k);
    }
    SameHome(s.waiting, s.info, t.info, WAITING);
  }

  lemma SameHome(q: seq<Request>, a: map<Request, Info>, b: map<Request, Info>, home: int)
    requires Home(q, a, home) && b.Keys == a.Keys && forall r :: r in a ==> b[r].home == a[r].home
    ensures Home(q, b, home)
  {
  }

  lemma SwappedCounted(s: State, r: Request, ns: Nameserver)
    requires Good(s) && r in s.info && s.info[r].home >= 0 && ns in s.load && InfoOk(s, r) && s.info[r].ns != ns
    ensures Counted(Swapped(s, r, ns))
  {
    hide Queued, Flying;
    var t := Swapped(s, r, ns);
    FlyingChange(s.info, t.info, r, null);
    forall n | n in t.load ensures t.load[n] == |Flying(t.info, n)| {
      FlyingChange(s.info, t.info, r, n);
    }
  }

  // ---- Promotion

  /** The transaction id and the nameserver that a waiting request gets. */
  datatype Pick = Pick(id: nat, ns: Nameserver)

  /** The first waiting request goes into flight. */
  ghost function Promote(s: State, p: Pick): State
    requires Good(s) && s.waiting != [] && p.ns in s.load
  {
    assert InfoOk(s, s.waiting[0]);
    Entered(Left(s, s.waiting[0], 0), s.waiting[0], p.id, p.ns)
  }

  lemma PromoteGood(s: State, p: Pick)
    requires Good(s) && s.waiting != [] && p.ns in s.load
    ensures Good(Promote(s, p)) && Promote(s, p).load.Keys == s.load.Keys
    ensures Promote(s, p).waiting == s.waiting[1..] && Promote(s, p).inflight == s.inflight + 1
    ensures |Promote(s, p).rings| == |s.rings|
    ensures Promote(s, p).info == s.info[s.waiting[0] := Info(p.id % |s.rings|, p.id, p.ns)]
  {
    hide Good, Entered, Left;
    var r := s.waiting[0];
    FirstWaiting(s);
    LeftGood(s, r, 0);
    LeftParts(s);
    EnteredGood(Left(s, r, 0), r, p.id, p.ns);
    EnteredParts(Left(s, r, 0), r, p);
    assert (s.info - {r})[r := Info(p.id % |s.rings|, p.id, p.ns)] == s.info[r := Info(p.id % |s.rings|, p.id, p.ns)];
  }

  lemma FirstWaiting(s: State)
    requires Good(s) && s.waiting != []
    ensures s.rings != [] && At(s, s.waiting[0], 0) && s.info[s.waiting[0]].home == WAITING
  {
    assert s.waiting[0] in s.waiting;
    assert InfoOk(s, s.waiting[0]);
  }

  lemma LeftParts(s: State)
    requires s.rings != [] && s.waiting != [] && At(s, s.waiting[0], 0) && s.info[s.waiting[0]].home == WAITING
    ensures var t := Left(s, s.waiting[0], 0);
      && t.info == s.info - {s.waiting[0]} && t.waiting == s.waiting[1..] && t.inflight == s.inflight
      && t.load == s.load && t.rings == s.rings
  {
  }

  lemma EnteredParts(s: State, r: Request, p: Pick)
    requires s.rings != [] && p.ns in s.load
    ensures var t := Entered(s, r, p.id, p.ns);
      && t.info == s.info[r := Info(p.id % |s.rings|, p.id, p.ns)] && t.waiting == s.waiting
      && t.inflight == s.inflight + 1 && t.load.Keys == s.load.Keys && |t.rings| == |s.rings|
  {
  }

  ghost predicate Usable(s: State, picks: seq<Pick>) {
    |picks| <= |s.waiting| && forall p :: p in picks ==> p.ns in s.load
  }

  ghost function Promoted(s: State, picks: seq<Pick>): (t: State)
    requires Good(s) && Usable(s, picks)
    ensures Good(t) && t.load.Keys == s.load.Keys && t.waiting == s.waiting[|picks|..]
    ensures t.inflight == s.inflight + |picks| && |t.rings| == |s.rings|
  {
    hide Good, Promote;
    if picks == [] then s
    else
      var n := |picks| - 1;
      var t := Promoted(s, picks[..n]);
      PromoteGood(t, picks[n]);
      Promote(t, picks[n])
  }

  ghost function Given(s: State, p: Pick): Info
    requires s.rings != []
  {
    Info(p.id % |s.rings|, p.id, p.ns)
  }

  /** The requests that waited longest have, in order, what was picked for each; no other has changed. */
  ghost predicate InfoAfter(s: State, info: map<Request, Info>, picks: seq<Pick>)
    requires s.rings != [] && |picks| <= |s.waiting|
  {
    && info.Keys == s.info.Keys
    && (forall i :: 0 <= i < |picks| ==> s.waiting[i] in info && info[s.waiting[i]] == Given(s, picks[i]))
    && forall r :: r in s.info && r !in s.waiting[..|picks|] ==> info[r] == s.info[r]
  }

  lemma InfoAfterMore(s: State, info: map<Request, Info>, picks: seq<Pick>, p: Pick)
    requires s.rings != [] && |picks| < |s.waiting| && InfoAfter(s, info, picks)
    requires NoDuplicates(s.waiting) && s.waiting[|picks|] in s.info
    ensures InfoAfter(s, info[s.waiting[|picks|] := Given(s, p)], picks + [p])
  {
    hide Given;
    var n := |picks|;
    assert s.waiting[..n + 1] == s.waiting[..n] + [s.waiting[n]];
  }

  /** Promotion takes the requests that waited longest, in order, and each gets its own pick; no other moves. */
  lemma {:induction false} PromotedInfo(s: State, picks: seq<Pick>)
    requires Good(s) && Usable(s, picks)
    ensures InfoAfter(s, Promoted(s, picks).info, picks)
  {
    hide InfoAfter, Promote, Queued, InfoOk, Counted;
    WaitingKnown(s);
    if picks == [] {
      assert InfoAfter(s, s.info, []) by { NonePicked(s); }
    } else {
      var n := |picks| - 1;
      PromotedInfo(s, picks[..n]);
      var t := Promoted(s, picks[..n]);
      PromoteGood(t, picks[n]);
      assert t.waiting[0] == s.waiting[n] && picks[..n] + [picks[n]] == picks;
      InfoAfterMore(s, t.info, picks[..n], picks[n]);
    }
  }

  /** The promoted requests follow, in order, in the rings that their new ids ask for. */
  ghost predicate RingsAfter(s: State, t: State, picks: seq<Pick>)
    requires s.rings != [] && |picks| <= |s.waiting|
  {
    && |t.rings| == |s.rings|
    && (forall i :: 0 <= i < |picks| ==> s.waiting[i] in t.info)
    && forall k :: 0 <= k < |s.rings| ==> t.rings[k] == s.rings[k] + Chosen(s.waiting[..|picks|], t.info, |s.rings|, k)
  }

  lemma {:induction false} PromotedRings(s: State, picks: seq<Pick>)
    requires Good(s) && Usable(s, picks)
    ensures RingsAfter(s, Promoted(s, picks), picks)
  {
    hide Good, Promote, Entered, Left, Chosen, InfoAfter;
    WaitingKnown(s);
    PromotedInfo(s, picks);
    NotEmpty(s);
    if picks == [] {
      NoneChosen(s);
    } else {
      var n := |picks| - 1;
      PromotedRings(s, picks[..n]);
      PromotedInfo(s, picks[..n]);
      var t := Promoted(s, picks[..n]);
      assert t.waiting[0] == s.waiting[n];
      PromoteRings(t, picks[n]);
      RingsMore(s, t, Promoted(s, picks), picks, n);
    }
  }

  lemma NotEmpty(s: State)
    requires Good(s)
    ensures s.rings != []
  {
  }

  lemma NoneChosen(s: State)
    requires s.rings != []
    ensures RingsAfter(s, s, [])
  {
    assert s.waiting[..0] == [];
  }

  lemma PromoteRings(s: State, p: Pick)
    requires Good(s) && s.waiting != [] && p.ns in s.load
    ensures s.rings != []
    ensures var k := p.id % |s.rings|; Promote(s, p).rings == s.rings[k := s.rings[k] + [s.waiting[0]]]
    ensures Promote(s, p).info == s.info[s.waiting[0] := Info(p.id % |s.rings|, p.id, p.ns)]
  {
    PromoteGood(s, p);
    hide Good;
    FirstWaiting(s);
    LeftParts(s);
  }

  lemma RingsMore(s: State, t: State, u: State, picks: seq<Pick>, n: nat)
    requires s.rings != [] && n + 1 == |picks| <= |s.waiting| && NoDuplicates(s.waiting)
    requires RingsAfter(s, t, picks[..n]) && s.waiting[n] in u.info
    requires u.info == t.info[s.waiting[n] := u.info[s.waiting[n]]] && u.info[s.waiting[n]].id == picks[n].id
    requires var k := picks[n].id % |s.rings|; u.rings == t.rings[k := t.rings[k] + [s.waiting[n]]]
    ensures RingsAfter(s, u, picks)
  {
    hide Chosen;
    var q := s.waiting[..n];
    assert s.waiting[..n + 1] == q + [s.waiting[n]];
    forall k | 0 <= k < |s.rings|
      ensures u.rings[k] == s.rings[k] + Chosen(s.waiting[..n + 1], u.info, |s.rings|, k)
    {
      ChosenSame(q, t.info, u.info, |s.rings|, k);
      ChosenPush(q, s.waiting[n], u.info, |s.rings|, k);
    }
  }

  lemma ChosenPush(q: seq<Request>, r: Request, info: map<Request, Info>, n: nat, k: nat)
    requires 0 < n && r in info && forall x :: x in q ==> x in info
    ensures Chosen(q + [r], info, n, k) == Chosen(q, info, n, k) + if info[r].id % n == k then [r] else []
  {
    assert (q + [r])[..|q|] == q;
  }

  lemma {:induction false} ChosenSame(q: seq<Request>, a: map<Request, Info>, b: map<Request, Info>, n: nat, k: nat)
    requires 0 < n && forall r :: r in q ==> r in a && r in b && a[r].id == b[r].id
    ensures Chosen(q, a, n, k) == Chosen(q, b, n, k)
  {
    if q != [] { ChosenSame(q[..|q| - 1], a, b, n, k); }
  }

  lemma NonePicked(s: State)
    requires s.rings != []
    ensures InfoAfter(s, s.info, [])
  {
  }

  lemma WaitingKnown(s: State)
    requires Good(s)
    ensures NoDuplicates(s.waiting) && forall i :: 0 <= i < |s.waiting| ==> s.waiting[i] in s.info
  {
  }

  // ---- Rehashing

  ghost function Concat(rings: seq<seq<Request>>): seq<Request> {
    if rings == [] then [] else Concat(rings[..|rings| - 1]) + rings[|rings| - 1]
  }

  /** The requests, in order, that the ring k of n takes. */
  ghost function Chosen(q: seq<Request>, info: map<Request, Info>, n: nat, k: nat): (c: seq<Request>)
    requires 0 < n && forall r :: r in q ==> r in info
  {
    if q == [] then []
    else
      var i := |q| - 1;
      Chosen(q[..i], info, n, k) + if info[q[i]].id % n == k then [q[i]] else []
  }

  ghost function Moved(info: map<Request, Info>, n: nat): (m: map<Request, Info>)
    requires 0 < n
    ensures m.Keys == info.Keys
  {
    map r | r in info :: if info[r].home < 0 then info[r] else info[r].(home := info[r].id % n)
  }

  ghost function Dealt(q: seq<Request>, info: map<Request, Info>, n: nat): (d: seq<seq<Request>>)
    requires 0 < n && forall r :: r in q ==> r in info
    ensures |d| == n && forall k :: 0 <= k < n ==> d[k] == Chosen(q, info, n, k)
  {
    seq(n, k requires 0 <= k < n => Chosen(q, info, n, k))
  }

  lemma DealtMore(q: seq<Request>, r: Request, info: map<Request, Info>, n: nat)
    requires 0 < n && r in info && forall x :: x in q ==> x in info
    ensures var d, k := Dealt(q, info, n), info[r].id % n; Dealt(q + [r], info, n) == d[k := d[k] + [r]]
  {
    var d, e, k := Dealt(q, info, n), Dealt(q + [r], info, n), info[r].id % n;
    assert (q + [r])[..|q|] == q;
    forall j | 0 <= j < n ensures e[j] == d[k := d[k] + [r]][j] {
      assert e[j] == Chosen(q + [r], info, n, j) && d[j] == Chosen(q, info, n, j);
    }
  }

  /** `evdns_base_set_max_requests_inflight` deals the rings out again, ring after ring, from the head of each. */
  ghost function Rehashed(s: State, n: nat): State
    requires 0 < n && Good(s)
  {
    ConcatMembers(s.rings, s.info);
    s.(info := Moved(s.info, n), rings := Dealt(Concat(s.rings), s.info, n))
  }

  ghost predicate Homes(rings: seq<seq<Request>>, info: map<Request, Info>) {
    forall k :: 0 <= k < |rings| ==> Home(rings[k], info, k)
  }

  lemma AppendDistinct(a: seq<Request>, b: seq<Request>)
    requires NoDuplicates(a) && NoDuplicates(b) && forall r :: r in a ==> r !in b
    ensures NoDuplicates(a + b)
  {
    forall i, j | 0 <= i < j < |a + b| ensures (a + b)[i] != (a + b)[j] {
      if i < |a| <= j {
        assert a[i] in a && b[j - |a|] in b;
      }
    }
  }

  /** The rings together hold each request in flight once. */
  lemma {:induction false} ConcatMembers(rings: seq<seq<Request>>, info: map<Request, Info>)
    requires Homes(rings, info)
    ensures NoDuplicates(Concat(rings))
    ensures forall r :: r in Concat(rings) ==> r in info && 0 <= info[r].home < |rings|
    ensures forall k, r :: 0 <= k < |rings| && r in rings[k] ==> r in Concat(rings)
  {
    if rings != [] {
      var n := |rings| - 1;
      ConcatMembers(rings[..n], info);
      assert Home(rings[n], info, n);
      AppendDistinct(Concat(rings[..n]), rings[n]);
      forall k, r | 0 <= k < |rings| && r in rings[k] ensures r in Concat(rings) {
        if k < n { assert r in rings[..n][k]; }
      }
    }
  }

  lemma {:induction false} ChosenMembers(q: seq<Request>, info: map<Request, Info>, n: nat, k: nat)
    requires 0 < n && forall r :: r in q ==> r in info
    ensures forall r :: r in Chosen(q, info, n, k) <==> r in q && info[r].id % n == k
    ensures NoDuplicates(q) ==> NoDuplicates(Chosen(q, info, n, k))
  {
    if q != [] {
      var i := |q| - 1;
      assert q == q[..i] + [q[i]];
      ChosenMembers(q[..i], info, n, k);
    }
  }

  lemma RehashedGood(s: State, n: nat)
    requires 0 < n && Good(s)
    ensures Good(Rehashed(s, n))
  {
    hide Counted, Chosen, Concat;
    var q, t := Concat(s.rings), Rehashed(s, n);
    ConcatMembers(s.rings, s.info);
    RehashedCounted(s, n);
    forall k | 0 <= k < n ensures Home(t.rings[k], t.info, k) {
      ChosenMembers(q, s.info, n, k);
      assert t.rings[k] == Chosen(q, s.info, n, k);
      assert NoDuplicates(t.rings[k]);
      forall r | r in t.rings[k] ensures r in t.info && t.info[r].home == k {
        assert r in q;
        assert s.info[r].id % n == k;
      }
    }
    forall r | r in t.info ensures InfoOk(t, r) {
      assert InfoOk(s, r);
      if s.info[r].home >= 0 {
        ChosenMembers(q, s.info, n, s.info[r].id % n);
      }
    }
  }

  lemma RehashedCounted(s: State, n: nat)
    requires 0 < n && Good(s)
    ensures Counted(Rehashed(s, n))
  {
    hide Queued, InfoOk, Dealt;
    var t := Rehashed(s, n);
    assert Flying(t.info, null) == Flying(s.info, null);
    forall m | m in t.load ensures t.load[m] == |Flying(t.info, m)| {
      assert Flying(t.info, m) == Flying(s.info, m);
    }
  }

  // ---- The nameservers' counts together

  ghost function TotalLoad(load: map<Nameserver, int>, servers: seq<Nameserver>): int
    requires forall n :: n in servers ==> n in load
  {
    if servers == [] then 0 else load[servers[0]] + TotalLoad(load, servers[1..])
  }

  ghost function OnAny(info: map<Request, Info>, servers: seq<Nameserver>): set<Request> {
    set r | r in info && info[r].home >= 0 && info[r].ns in servers
  }

  lemma OnOneMore(info: map<Request, Info>, n: Nameserver, rest: seq<Nameserver>)
    requires n !in rest
    ensures |OnAny(info, [n] + rest)| == |Flying(info, n)| + |OnAny(info, rest)|
  {
    assert OnAny(info, [n] + rest) == Flying(info, n) + OnAny(info, rest);
    assert Flying(info, n) !! OnAny(info, rest);
  }

  lemma {:induction false} TotalLoadOn(s: State, servers: seq<Nameserver>)
    requires Counted(s) && (forall n :: n in servers ==> n in s.load)
    requires forall i, j :: 0 <= i < j < |servers| ==> servers[i] != servers[j]
    ensures TotalLoad(s.load, servers) == |OnAny(s.info, servers)|
  {
    if servers != [] {
      var n, rest := servers[0], servers[1..];
      TotalLoadOn(s, rest);
      assert servers == [n] + rest && n !in rest;
      OnOneMore(s.info, n, rest);
    }
  }

  /** The nameservers' counts add up to the number of requests in flight. */
  lemma TotalLoadIs(s: State, servers: seq<Nameserver>)
    requires Good(s) && (forall n :: n in servers <==> n in s.load)
    requires forall i, j :: 0 <= i < j < |servers| ==> servers[i] != servers[j]
    ensures TotalLoad(s.load, servers) == s.inflight
  {
    TotalLoadOn(s, servers);
    forall r ensures r in OnAny(s.info, servers) <==> r in Flying(s.info, null) {
      if r in Flying(s.info, null) { assert InfoOk(s, r); }
    }
    assert OnAny(s.info, servers) == Flying(s.info, null);
  }

  // ---- What the invariant says about the rings

  lemma {:induction false} SizeOfSet(q: seq<Request>, a: set<Request>)
    requires NoDuplicates(q) && forall r :: r in q <==> r in a
    ensures |q| == |a|
  {
    if q != [] {
      var n := |q| - 1;
      assert q == q[..n] + [q[n]];
      SizeOfSet(q[..n], a - {q[n]});
    } else {
      assert a == {};
    }
  }

  /** The counter is the size of the rings together. */
  lemma InflightIs(s: State)
    requires Good(s)
    ensures s.inflight == |Concat(s.rings)| && NoDuplicates(Concat(s.rings))
  {
    hide Counted;
    ConcatMembers(s.rings, s.info);
    forall r ensures r in Concat(s.rings) <==> r in Flying(s.info, null) {
      if r in Flying(s.info, null) {
        assert InfoOk(s, r);
        assert r in s.rings[s.info[r].home];
      }
    }
    SizeOfSet(Concat(s.rings), Flying(s.info, null));
    assert s.inflight == |Flying(s.info, null)| by { CountedIs(s); }
  }

  lemma CountedIs(s: State)
    requires Counted(s)
    ensures s.inflight == |Flying(s.info, null)|
  {
  }

  /** A request is in the waiting ring alone, or in no ring but the one its id asks for. */
  lemma OnePlace(s: State, r: Request)
    requires Good(s) && r in s.info
    ensures r in s.waiting <==> s.info[r].home == WAITING
    ensures forall k :: 0 <= k < |s.rings| ==> (r in s.rings[k] <==> s.info[r].home == k)
    ensures s.info[r].home != WAITING ==> s.info[r].home == s.info[r].id % |s.rings|
  {
    hide Counted;
    assert InfoOk(s, r);
    forall k | 0 <= k < |s.rings| ensures r in s.rings[k] <==> s.info[r].home == k {
      HomeIn(s, k);
    }
  }
}
