/** The request table of an evdns base: buckets of requests in flight, a waiting ring and the nameservers' counts. */
module RequestTable {
  import opened Common
  import opened RequestRings
  import opened RequestState

  ghost predicate Different(servers: seq<Nameserver>) {
    forall i, j :: 0 <= i < j < |servers| ==> servers[i] != servers[j]
  }

  /** The nameservers that are up. */
  ghost function UpServers(servers: seq<Nameserver>): set<Nameserver>
    reads servers`up
  {
    set n | n in servers && n.up
  }

  ghost function SumInflight(servers: seq<Nameserver>): int
    reads servers
  {
    if servers == [] then 0 else servers[0].requestsInflight + SumInflight(servers[1..])
  }

  lemma {:induction false} SumIs(load: map<Nameserver, int>, servers: seq<Nameserver>)
    requires forall n :: n in servers ==> n in load && n.requestsInflight == load[n]
    ensures TotalLoad(load, servers) == SumInflight(servers)
  {
    if servers != [] {
      SumIs(load, servers[1..]);
    }
  }

  /** The queue without the request, which was at this place. */
  ghost predicate TakenOut(q: seq<Request>, r: seq<Request>, req: Request, i: nat) {
    i < |q| && q[i] == req && r == q[..i] + q[i + 1..]
  }

  ghost function Servers(picks: seq<Pick>): (q: seq<Nameserver>)
    ensures |q| == |picks|
  {
    seq(|picks|, i requires 0 <= i < |picks| => picks[i].ns)
  }

  /** Place j of a ring of n, counted from c. */
  function Turn(c: nat, j: nat, n: nat): nat {
    if c + j < n then c + j else c + j - n
  }

  /** Only nameservers of requests in flight, and the nameservers' counts with them, differ. */
  ghost predicate SamePlaces(t: State, u: State) {
    && u.info.Keys == t.info.Keys && u.load.Keys == t.load.Keys
    && u == t.(info := u.info, load := u.load)
    && forall r :: r in t.info ==> u.info[r] == t.info[r].(ns := u.info[r].ns)
  }

  /** The requests in flight in the first k rings. */
  ghost function Below(info: map<Request, Info>, k: nat): set<Request> {
    set r | r in info && 0 <= info[r].home < k
  }

  ghost function SetOf(q: seq<Request>): set<Request> {
    set r | r in q
  }

  /** `nameserver_failed` moves requests that were on the nameserver and have not been sent. */
  ghost predicate Unsent(t: State, r: Request, failed: Nameserver)
    requires r in t.info
    reads r`txCount
  {
    t.info[r].home >= 0 && t.info[r].ns == failed && r.txCount == 0
  }

  ghost predicate MovedOff(t: State, u: State, r: Request, failed: Nameserver)
    requires r in t.info && r in u.info && (u.info[r].ns != null ==> u.info[r].ns in u.load)
    reads r`txCount, u.load.Keys`up
  {
    if Unsent(t, r, failed) then u.info[r].ns != null && u.info[r].ns.up else u.info[r] == t.info[r]
  }

  /** The requests done have moved off the failed nameserver to one that is up, if they had to; the others wait for
      that. */
  ghost predicate Swept(t: State, u: State, done: set<Request>, failed: Nameserver)
    reads t.info.Keys`txCount, u.load.Keys`up
  {
    && SamePlaces(t, u)
    && forall r :: r in t.info ==>
         && (u.info[r].ns != null ==> u.info[r].ns in u.load)
         && if r in done then MovedOff(t, u, r, failed) else u.info[r] == t.info[r]
  }

  /** Those of the requests, in order, that a failed nameserver loses. */
  ghost function Unsents(t: State, q: seq<Request>, failed: Nameserver): (m: seq<Request>)
    requires forall r :: r in q ==> r in t.info
    reads q`txCount
    ensures forall r :: r in m ==> r in q
  {
    if q == [] then []
    else
      var i := |q| - 1;
      Unsents(t, q[..i], failed) + if Unsent(t, q[i], failed) then [q[i]] else []
  }

  lemma UnsentsPush(t: State, q: seq<Request>, r: Request, failed: Nameserver)
    requires r in t.info && forall x :: x in q ==> x in t.info
    ensures Unsents(t, q + [r], failed) == Unsents(t, q, failed) + if Unsent(t, r, failed) then [r] else []
  {
    assert (q + [r])[..|q|] == q;
  }

  /** The requests that had to move have been given these nameservers, in order. */
  ghost predicate Handed(t: State, u: State, q: seq<Request>, failed: Nameserver, picked: seq<Nameserver>)
    reads q`txCount
  {
    && (forall r :: r in q ==> r in t.info)
    && var m := Unsents(t, q, failed);
    && |m| == |picked| && forall i :: 0 <= i < |m| ==> m[i] in u.info && u.info[m[i]].ns == picked[i]
  }

  lemma HandedOne(t: State, u: State, v: State, q: seq<Request>, r: Request, failed: Nameserver,
                  picked: seq<Nameserver>, ns: Nameserver?)
    requires Handed(t, u, q, failed, picked) && r in t.info && r !in q && r in v.info
    requires v.info.Keys == u.info.Keys && forall x :: x in u.info && x != r ==> v.info[x] == u.info[x]
    requires if Unsent(t, r, failed) then ns != null && v.info[r].ns == ns else ns == null
    ensures Handed(t, v, q + [r], failed, picked + if ns == null then [] else [ns])
  {
    UnsentsPush(t, q, r, failed);
  }

  class EvdnsBase {
    var reqHeads: array<Request?>
    var waitingHead: Request?
    var inflight: int
    var waiting: int
    var maxInflight: int
    /** The ring of nameservers, and the place in it of `server_head`. */
    const servers: seq<Nameserver>
    var serverHead: nat
    var goodNameservers: int
    ghost var s: State

    ghost predicate Linked(rings: seq<seq<Request>>, q: seq<Request>, reqs: set<Request>)
      reads `reqHeads, `waitingHead, reqHeads, reqs`next, reqs`prev
    {
      reqHeads.Length == |rings| && rings != [] && Pool(reqHeads[..] + [waitingHead], rings + [q], reqs)
    }

    /** The requests' fields are what the state says. */
    ghost predicate Labelled(info: map<Request, Info>)
      reads info.Keys`transId, info.Keys`ns
    {
      forall r :: r in info ==> r.transId == info[r].id && r.ns == info[r].ns
    }

    ghost predicate Loaded(load: map<Nameserver, int>)
      reads servers`requestsInflight
    {
      (set n | n in servers) == load.Keys && forall n :: n in load ==> n.requestsInflight == load[n]
    }

    ghost predicate ServersOk()
      reads `serverHead, `goodNameservers, servers`up
    {
      Different(servers) && goodNameservers == |UpServers(servers)| && (servers == [] || serverHead < |servers|)
    }

    ghost predicate Valid()
      reads this, reqHeads, servers, s.info.Keys
    {
      && Good(s) && Linked(s.rings, s.waiting, s.info.Keys) && Labelled(s.info) && Loaded(s.load)
      && inflight == s.inflight && waiting == s.waitingCount && ServersOk()
    }

    /** `evdns_base_new`, for a fixed set of nameservers. */
    constructor (servers: seq<Nameserver>, good: nat)
      requires Different(servers) && good == |UpServers(servers)|
      requires forall n :: n in servers ==> n.requestsInflight == 0
      ensures Valid() && this.servers == servers && maxInflight == 64 && s.info == map[] && s.waiting == []
    {
      var heads := new Request?[13](_ => null);
      reqHeads, waitingHead, inflight, waiting, maxInflight := heads, null, 0, 0, 64;
      this.servers, serverHead, goodNameservers := servers, 0, good;
      s := State(map[], seq(13, _ => []), [], 0, 0, map n | n in servers :: 0);
      new;
      Empty();
    }

    lemma Empty()
      requires s == State(map[], seq(13, _ => []), [], 0, 0, map n | n in servers :: 0)
      ensures Good(s)
    {
      assert Flying(map[], null) == {};
      forall n | n in s.load ensures Flying(s.info, n) == {} {
      }
    }

    /** Conservation: the rings hold every request exactly once, in flight where its id asks for, and the counters are
        the sizes of the rings and the sum of the nameservers' counts. */
    lemma Conserved()
      requires Valid()
      ensures forall r :: r in s.info ==> (r in s.waiting <==> r.ns == null)
      ensures forall r, k :: r in s.info && 0 <= k < |s.rings| ==>
        (r in s.rings[k] <==> r.ns != null && k == r.transId % reqHeads.Length)
      ensures inflight == |Concat(s.rings)| == SumInflight(servers) && NoDuplicates(Concat(s.rings))
      ensures waiting == |s.waiting| && NoDuplicates(s.waiting)
    {
      hide Linked, Counted;
      forall r | r in s.info
        ensures r in s.waiting <==> r.ns == null
        ensures forall k :: 0 <= k < |s.rings| ==>
          (r in s.rings[k] <==> r.ns != null && k == r.transId % |s.rings|)
      {
        OnePlace(s, r);
        assert InfoOk(s, r);
      }
      InflightIs(s);
      TotalLoadIs(s, servers);
      SumIs(s.load, servers);
      Stopped();
      SizeOfHeads();
    }

    lemma SizeOfHeads()
      requires Valid()
      ensures reqHeads.Length == |s.rings| && waiting == |s.waiting|
    {
    }

    // ---- One request into or out of one ring

    method PutWaiting(req: Request, ghost rings: seq<seq<Request>>, ghost q: seq<Request>, ghost reqs: set<Request>)
      requires Linked(rings, q, reqs) && req in reqs && req !in q && forall k :: 0 <= k < |rings| ==> req !in rings[k]
      modifies `waitingHead, reqs`next, reqs`prev
      ensures Linked(rings, q + [req], reqs)
    {
      hide Pool;
      waitingHead := InsertInto(req, waitingHead, reqHeads[..] + [waitingHead], rings + [q], reqs, |rings|);
      assert (rings + [q])[|rings| := q + [req]] == rings + [q + [req]];
      assert (reqHeads[..] + [old(waitingHead)])[|rings| := waitingHead] == reqHeads[..] + [waitingHead];
    }

    method TakeWaiting(req: Request, ghost i: nat, ghost rings: seq<seq<Request>>, ghost q: seq<Request>,
                       ghost reqs: set<Request>)
      requires Linked(rings, q, reqs) && i < |q| && q[i] == req
      modifies `waitingHead, reqs`next, reqs`prev
      ensures Linked(rings, Without(q, i), reqs)
    {
      hide Pool, Without;
      waitingHead := RemoveFrom(req, waitingHead, reqHeads[..] + [waitingHead], rings + [q], reqs, |rings|, i);
      assert (rings + [q])[|rings| := Without(q, i)] == rings + [Without(q, i)];
      assert (reqHeads[..] + [old(waitingHead)])[|rings| := waitingHead] == reqHeads[..] + [waitingHead];
    }

    method PutFlying(req: Request, k: nat, ghost rings: seq<seq<Request>>, ghost q: seq<Request>,
                     ghost reqs: set<Request>)
      requires Linked(rings, q, reqs) && req in reqs && req !in q && forall j :: 0 <= j < |rings| ==> req !in rings[j]
      requires k < |rings|
      modifies reqHeads, reqs`next, reqs`prev
      ensures Linked(rings[k := rings[k] + [req]], q, reqs)
    {
      hide Pool;
      ghost var heads := reqHeads[..];
      var now := InsertInto(req, reqHeads[k], heads + [waitingHead], rings + [q], reqs, k);
      assert (rings + [q])[k := rings[k] + [req]] == rings[k := rings[k] + [req]] + [q];
      assert (heads + [waitingHead])[k := now] == heads[k := now] + [waitingHead];
      PutHead(k, now, reqs, rings[k := rings[k] + [req]] + [q]);
    }

    method TakeFlying(req: Request, k: nat, ghost i: nat, ghost rings: seq<seq<Request>>, ghost q: seq<Request>,
                      ghost reqs: set<Request>)
      requires Linked(rings, q, reqs) && k < |rings| && i < |rings[k]| && rings[k][i] == req
      modifies reqHeads, reqs`next, reqs`prev
      ensures Linked(rings[k := Without(rings[k], i)], q, reqs)
    {
      hide Pool, Without;
      ghost var heads := reqHeads[..];
      var now := RemoveFrom(req, reqHeads[k], heads + [waitingHead], rings + [q], reqs, k, i);
      assert (rings + [q])[k := Without(rings[k], i)] == rings[k := Without(rings[k], i)] + [q];
      assert (heads + [waitingHead])[k := now] == heads[k := now] + [waitingHead];
      PutHead(k, now, reqs, rings[k := Without(rings[k], i)] + [q]);
    }

    method PutHead(k: nat, now: Request?, ghost reqs: set<Request>, ghost pool: seq<seq<Request>>)
      requires k < reqHeads.Length && Pool(reqHeads[..][k := now] + [waitingHead], pool, reqs)
      modifies reqHeads
      ensures Pool(reqHeads[..] + [waitingHead], pool, reqs) && reqHeads[..] == old(reqHeads[..])[k := now]
    {
      reqHeads[k] := now;
      assert reqHeads[..] == old(reqHeads[..])[k := now];
    }

    // ---- The operations

    /** The counts of a request that goes into flight, `change` 1, or leaves, `change` -1. */
    method Count(ns: Nameserver, change: int, ghost load: map<Nameserver, int>)
      requires Loaded(load) && ns in servers
      modifies `inflight, servers`requestsInflight
      ensures inflight == old(inflight) + change && ns in load && Loaded(load[ns := load[ns] + change])
    {
      inflight := inflight + change;
      ns.requestsInflight := ns.requestsInflight + change;
      assert load[ns := load[ns] + change].Keys == load.Keys;
    }

    method Launch(req: Request, ns: Nameserver)
      requires Valid() && req !in s.info && ns == req.ns && ns in servers
      modifies `s, `inflight, `waiting, `waitingHead
      modifies reqHeads, s.info.Keys`next, s.info.Keys`prev, req`next, req`prev, servers`requestsInflight
      ensures Valid() && old(s.rings != [] && ns in s.load)
      ensures reqHeads == old(reqHeads) && maxInflight == old(maxInflight)
      ensures s == Entered(old(s), req, req.transId, ns)
    {
      hide Good, Linked, Loaded, ServersOk, Entered;
      ghost var t, id := s, req.transId;
      Listed(ns);
      Known(req);
      EnteredGood(t, req, id, ns);
      EnteredIs(t, req, id, ns);
      PutFlying(req, req.transId % reqHeads.Length, t.rings, t.waiting, t.info.Keys + {req});
      Count(ns, 1, t.load);
      s := Entered(t, req, id, ns);
    }

    method Park(req: Request)
      requires Valid() && req !in s.info && req.ns == null
      modifies `s, `inflight, `waiting, `waitingHead
      modifies s.info.Keys`next, s.info.Keys`prev, req`next, req`prev
      ensures Valid() && old(s.rings != []) && reqHeads == old(reqHeads) && maxInflight == old(maxInflight)
      ensures s == Entered(old(s), req, req.transId, null)
    {
      hide Good, Linked, Loaded, ServersOk, Entered;
      ghost var t, id := s, req.transId;
      Listed(null);
      Known(req);
      EnteredGood(t, req, id, null);
      EnteredIs(t, req, id, null);
      PutWaiting(req, t.rings, t.waiting, t.info.Keys + {req});
      waiting := waiting + 1;
      s := Entered(t, req, id, null);
    }

    /** `request_submit`. */
    method Submit(req: Request)
      requires Valid() && req !in s.info && (req.ns != null ==> req.ns in servers)
      modifies `s, `inflight, `waiting, `waitingHead
      modifies reqHeads, s.info.Keys`next, s.info.Keys`prev, req`next, req`prev, servers`requestsInflight
      ensures Valid() && old(s.rings != [] && (req.ns != null ==> req.ns in s.load))
      ensures reqHeads == old(reqHeads) && maxInflight == old(maxInflight)
      ensures s == Entered(old(s), req, req.transId, req.ns)
      ensures s.info.Keys == old(s).info.Keys + {req} && s.info == old(s).info[req := s.info[req]]
      ensures s.info[req].id == req.transId && s.info[req].ns == req.ns
      ensures req.ns == null ==> s.rings == old(s).rings && s.waiting == old(s).waiting + [req]
      ensures req.ns != null ==>
        var k := req.transId % |old(s).rings|;
        s.rings == old(s).rings[k := old(s).rings[k] + [req]] && s.waiting == old(s).waiting
    {
      hide *;
      EnteredIs(s, req, req.transId, req.ns) by { Listed(req.ns); }
      if req.ns != null {
        Launch(req, req.ns);
      } else {
        Park(req);
      }
    }

    lemma Listed(n: Nameserver?)
      requires Valid()
      ensures s.rings != [] && reqHeads.Length == |s.rings|
      ensures n in servers <==> n in s.load
    {
    }

    lemma EnteredIs(t: State, req: Request, id: nat, ns: Nameserver?)
      requires t.rings != [] && (ns != null ==> ns in t.load)
      ensures var u := Entered(t, req, id, ns);
        && u.info.Keys == t.info.Keys + {req} && u.info == t.info[req := u.info[req]]
        && u.info[req].id == id && u.info[req].ns == ns
        && (ns == null ==> u == t.(info := u.info, waiting := t.waiting + [req], waitingCount := t.waitingCount + 1))
        && (ns != null ==> var k := id % |t.rings|;
              u == t.(info := u.info, rings := t.rings[k := t.rings[k] + [req]], inflight := t.inflight + 1,
                      load := t.load[ns := t.load[ns] + 1]))
    {
    }

    /** The requests of a base stay a pool when one more is allowed in. */
    lemma Known(req: Request)
      requires Valid() && req !in s.info
      ensures Linked(s.rings, s.waiting, s.info.Keys + {req})
      ensures req !in s.waiting && forall k :: 0 <= k < |s.rings| ==> req !in s.rings[k]
    {
      hide Ring;
      forall k | 0 <= k < |s.rings| ensures req !in s.rings[k] {
        HomeIn(s, k);
      }
    }

    // ---- Leaving

    lemma Position(req: Request) returns (i: nat)
      requires Valid() && req in s.info
      ensures At(s, req, i) && (s.info[req].home < 0 <==> req.ns == null)
      ensures req.ns != null ==> req.ns in servers && s.info[req].home == req.transId % reqHeads.Length
    {
      hide Queued, Counted, Pool;
      assert InfoOk(s, req);
      if s.info[req].home < 0 {
        i :| 0 <= i < |s.waiting| && s.waiting[i] == req;
      } else {
        i :| 0 <= i < |s.rings[s.info[req].home]| && s.rings[s.info[req].home][i] == req;
      }
    }

    lemma LeftIs(t: State, req: Request, i: nat)
      requires At(t, req, i)
      ensures var u, k, ns := Left(t, req, i), t.info[req].home, t.info[req].ns;
        && u.info == t.info - {req} && u.info.Keys == t.info.Keys - {req}
        && (k < 0 ==> u == t.(info := u.info, waiting := Without(t.waiting, i), waitingCount := t.waitingCount - 1))
        && (k >= 0 ==> k < |t.rings| && ns in t.load)
        && (k >= 0 ==>
              u == t.(info := u.info, rings := t.rings[k := Without(t.rings[k], i)], inflight := t.inflight - 1,
                      load := t.load[ns := t.load[ns] - 1]))
    {
    }

    /** A pool without a request that is in none of its rings. */
    lemma Forgotten(req: Request, rings: seq<seq<Request>>, q: seq<Request>, reqs: set<Request>)
      requires Linked(rings, q, reqs) && req !in q && forall k :: 0 <= k < |rings| ==> req !in rings[k]
      ensures Linked(rings, q, reqs - {req})
    {
      hide Ring;
    }

    lemma Gone(t: State, req: Request)
      requires Good(t) && req !in t.info
      ensures req !in t.waiting && forall k :: 0 <= k < |t.rings| ==> req !in t.rings[k]
    {
      forall k | 0 <= k < |t.rings| ensures req !in t.rings[k] {
        HomeIn(t, k);
      }
    }

    lemma LeftOut(req: Request, i: nat)
      requires Valid() && At(s, req, i) && (s.info[req].home < 0 <==> req.ns == null)
      requires req.ns != null ==> s.info[req].home == req.transId % reqHeads.Length
      ensures var t := Left(s, req, i);
        && t.info == s.info - {req}
        && if req.ns == null then t.rings == s.rings && TakenOut(s.waiting, t.waiting, req, i)
           else
             var k := req.transId % reqHeads.Length;
             && t.waiting == s.waiting && k < |t.rings| == |s.rings|
             && t.rings == s.rings[k := t.rings[k]] && TakenOut(s.rings[k], t.rings[k], req, i)
    {
      hide Good, Linked;
      SizeOfHeads();
    }

    method Land(req: Request, ns: Nameserver, ghost i: nat)
      requires Valid() && At(s, req, i) && s.info[req].home >= 0 && ns == req.ns && ns in servers
      requires s.info[req].home == req.transId % reqHeads.Length
      modifies `s, `inflight, `waiting, `waitingHead
      modifies reqHeads, s.info.Keys`next, s.info.Keys`prev, servers`requestsInflight
      ensures Valid() && old(At(s, req, i)) && reqHeads == old(reqHeads) && maxInflight == old(maxInflight)
      ensures s == Left(old(s), req, i)
    {
      hide Good, Linked, Loaded, ServersOk, Left, Without;
      ghost var t, k := s, s.info[req].home;
      Listed(ns);
      LeftGood(t, req, i);
      LeftIs(t, req, i);
      TakeFlying(req, req.transId % reqHeads.Length, i, t.rings, t.waiting, t.info.Keys);
      Count(ns, -1, t.load);
      s := Left(t, req, i);
      Gone(s, req);
      Forgotten(req, s.rings, s.waiting, t.info.Keys);
    }

    method Unpark(req: Request, ghost i: nat)
      requires Valid() && At(s, req, i) && s.info[req].home < 0
      modifies `s, `inflight, `waiting, `waitingHead
      modifies s.info.Keys`next, s.info.Keys`prev
      ensures Valid() && old(At(s, req, i)) && reqHeads == old(reqHeads) && maxInflight == old(maxInflight)
      ensures s == Left(old(s), req, i)
    {
      hide Good, Linked, Loaded, ServersOk, Left, Without;
      ghost var t := s;
      Listed(null);
      LeftGood(t, req, i);
      LeftIs(t, req, i);
      TakeWaiting(req, i, t.rings, t.waiting, t.info.Keys);
      waiting := waiting - 1;
      s := Left(t, req, i);
      Gone(s, req);
      Forgotten(req, s.rings, s.waiting, t.info.Keys);
    }

    /** The part of `request_finished` that takes the request out, with the ring that `evdns_cancel_request` names. */
    method Leave(req: Request) returns (ghost i: nat)
      requires Valid() && req in s.info
      modifies `s, `inflight, `waiting, `waitingHead
      modifies reqHeads, s.info.Keys`next, s.info.Keys`prev, servers`requestsInflight
      ensures Valid() && old(At(s, req, i)) && reqHeads == old(reqHeads) && maxInflight == old(maxInflight)
      ensures s == Left(old(s), req, i) && s.info == old(s).info - {req}
      ensures if old(req.ns) == null then s.rings == old(s).rings && TakenOut(old(s).waiting, s.waiting, req, i)
        else
          var k := old(req.transId % reqHeads.Length);
          && s.waiting == old(s).waiting && k < |s.rings| == |old(s).rings|
          && s.rings == old(s).rings[k := s.rings[k]] && TakenOut(old(s).rings[k], s.rings[k], req, i)
    {
      hide *;
      i := Position(req);
      LeftOut(req, i);
      if req.ns != null {
        Land(req, req.ns, i);
      } else {
        Unpark(req, i);
      }
    }

    // ---- Picking a nameserver

    /** `nameserver_pick`: from `server_head` on, the first nameserver that is up, or the next one when none is. */
    method PickNameserver() returns (ns: Nameserver?)
      requires ServersOk()
      modifies `serverHead
      ensures ServersOk() && (ns == null <==> servers == []) && (ns != null ==> ns in servers)
      ensures goodNameservers > 0 ==> ns != null
      ensures if ns == null then serverHead == old(serverHead) else PickedAt(old(serverHead), ns, serverHead)
    {
      if servers == [] {
        return null;
      }
      var n := |servers|;
      if goodNameservers == 0 {
        serverHead := Turn(serverHead, 1, n);
        assert servers[serverHead] in servers;
        return servers[serverHead];
      }
      var startedAt := serverHead;
      ghost var j := 0;
      ghost var first := SomeUp();
      while !servers[serverHead].up
        invariant j <= first < n && serverHead == Turn(startedAt, j, n)
        invariant servers[Turn(startedAt, first, n)].up
        invariant forall k :: 0 <= k < j ==> !servers[Turn(startedAt, k, n)].up
        decreases first - j
      {
        serverHead, j := Turn(serverHead, 1, n), j + 1;
        if serverHead == startedAt {
          assert false;
        }
      }
      ns := servers[serverHead];
      serverHead := Turn(serverHead, 1, n);
      assert FirstUp(startedAt, ns, serverHead, j);
    }

    lemma SomeUp() returns (k: nat)
      requires ServersOk() && servers != [] && goodNameservers != 0
      ensures k < |servers| && servers[Turn(serverHead, k, |servers|)].up
    {
      var x :| x in UpServers(servers);
      var m :| 0 <= m < |servers| && servers[m] == x;
      k := if serverHead <= m then m - serverHead else m + |servers| - serverHead;
    }

    /** The nameserver is up and j places on, everything before it is down, and the head has moved on past it. */
    ghost predicate FirstUp(was: nat, ns: Nameserver, now: nat, j: nat)
      reads servers`up
    {
      var n := |servers|;
      && was < n && j < n && servers[Turn(was, j, n)] == ns && ns.up && now == Turn(was, j + 1, n)
      && forall k :: 0 <= k < j ==> !servers[Turn(was, k, n)].up
    }

    /** What is picked when the head is at `was`, and where the head is then: the first nameserver that is up, and the
        place behind it; or the next one, when none is up. */
    ghost predicate PickedAt(was: nat, ns: Nameserver, now: nat)
      reads `goodNameservers, servers`up
    {
      if goodNameservers == 0 then was < |servers| && now == Turn(was, 1, |servers|) && servers[now] == ns
      else exists j :: FirstUp(was, ns, now, j)
    }

    /** Nameservers that are picked one after the other, with the places of the head before, between and after. */
    ghost predicate PickedOn(picked: seq<Nameserver>, heads: seq<nat>)
      reads `goodNameservers, servers`up
    {
      |heads| == |picked| + 1 && forall k :: 0 <= k < |picked| ==> PickedAt(heads[k], picked[k], heads[k + 1])
    }

    lemma PickedMore(picked: seq<Nameserver>, heads: seq<nat>, ns: Nameserver, now: nat)
      requires PickedOn(picked, heads) && PickedAt(heads[|picked|], ns, now)
      ensures PickedOn(picked + [ns], heads + [now])
    {
    }

    /** While some nameserver is up, only such nameservers are picked. */
    lemma PickedUp(picked: seq<Nameserver>, heads: seq<nat>)
      requires PickedOn(picked, heads) && goodNameservers != 0
      ensures forall ns :: ns in picked ==> ns.up
    {
      forall ns | ns in picked ensures ns.up {
        var k :| 0 <= k < |picked| && picked[k] == ns;
        assert PickedAt(heads[k], picked[k], heads[k + 1]);
      }
    }

    // ---- Pumping the waiting ring

    /** The oldest waiting request leads its ring. */
    lemma OldestWaiting()
      requires Valid() && waiting != 0
      ensures s.waiting != [] && waitingHead == s.waiting[0] && s.waiting[0] in s.info && s.waiting[0].ns == null
      ensures Good(s) && s.info[s.waiting[0]].home < 0
      ensures forall i :: At(s, s.waiting[0], i) ==> i == 0
    {
      var pool := s.rings + [s.waiting];
      assert pool[|s.rings|] == s.waiting;
      assert s.waiting != [];
      assert s.waiting[0] in s.waiting;
      assert InfoOk(s, s.waiting[0]);
    }

    lemma Stopped()
      requires Valid()
      ensures waiting == 0 <==> s.waiting == []
      ensures s.inflight == inflight && s.rings != []
    {
    }

    /** One round of `evdns_requests_pump_waiting_queue`, for the id that `transaction_id_pick` gives. */
    method PromoteOldest(ns: Nameserver, id: nat)
      requires Valid() && waiting != 0 && ns in servers
      modifies `s, `inflight, `waiting, `waitingHead
      modifies reqHeads, s.info.Keys, servers`requestsInflight
      ensures Valid() && old(Good(s) && s.waiting != [] && ns in s.load)
      ensures s == Promote(old(s), Pick(id, ns))
      ensures reqHeads == old(reqHeads) && maxInflight == old(maxInflight)
    {
      hide *;
      OldestWaiting();
      Listed(ns);
      ghost var t := s;
      var req := waitingHead;
      ghost var i := Leave(req);
      LeftIs(t, req, i);
      assert s == Left(t, req, 0);
      req.ns, req.transId := ns, id;
      Submit(req);
      PromoteIs(t, Pick(id, ns));
    }

    lemma PromoteIs(t: State, p: Pick)
      requires Good(t) && t.waiting != [] && p.ns in t.load
      ensures At(t, t.waiting[0], 0) && Left(t, t.waiting[0], 0).rings != [] && p.ns in Left(t, t.waiting[0], 0).load
      ensures Promote(t, p) == Entered(Left(t, t.waiting[0], 0), t.waiting[0], p.id, p.ns)
    {
      assert InfoOk(t, t.waiting[0]);
    }

    /** `evdns_requests_pump_waiting_queue`: stops only when enough are in flight, none waits or there is no
        nameserver. */
    method Pump() returns (ghost picks: seq<Pick>, ghost heads: seq<nat>)
      requires Valid()
      modifies `s, `inflight, `waiting, `waitingHead, `serverHead
      modifies reqHeads, s.info.Keys, servers`requestsInflight
      ensures Valid() && Good(old(s)) && Usable(old(s), picks) && s == Promoted(old(s), picks)
      ensures s.info.Keys == old(s.info.Keys)
      ensures maxInflight <= inflight || s.waiting == [] || servers == []
      ensures PickedOn(Servers(picks), heads) && heads[0] == old(serverHead) && heads[|picks|] == serverHead
      ensures goodNameservers > 0 ==>
        forall i :: 0 <= i < |picks| ==> old(s).waiting[i].ns == picks[i].ns && picks[i].ns.up
      ensures s.waiting == old(s).waiting[|picks|..]
      ensures old(s).rings != [] && InfoAfter(old(s), s.info, picks) && RingsAfter(old(s), s, picks)
    {
      hide *;
      picks, heads := [], [serverHead];
      Starts();
      NoServers(serverHead);
      while inflight < maxInflight && waiting != 0
        invariant Valid() && s.info.Keys == old(s.info.Keys)
        invariant old(Good(s)) && Usable(old(s), picks) && s == Promoted(old(s), picks)
        invariant |heads| == |picks| + 1 && heads[0] == old(serverHead) && heads[|picks|] == serverHead
        invariant PickedOn(Servers(picks), heads)
        invariant reqHeads == old(reqHeads) && maxInflight == old(maxInflight)
        decreases |s.waiting|
      {
        var ns := NextNameserver();
        if ns == null {
          break;
        }
        var id: nat :| id < 0xffff;
        ghost var t := s;
        PickedMore(Servers(picks), heads, ns, serverHead);
        PromoteOldest(ns, id);
        OneMore(old(s), picks, t, Pick(id, ns));
        ServersMore(picks, Pick(id, ns));
        picks, heads := picks + [Pick(id, ns)], heads + [serverHead];
      }
      Stopped();
      Pumped(old(s), picks, heads);
    }

    /** What the picks of a pump are, as the requests now say. */
    lemma Pumped(t: State, picks: seq<Pick>, heads: seq<nat>)
      requires Valid() && Good(t) && Usable(t, picks) && s == Promoted(t, picks) && PickedOn(Servers(picks), heads)
      ensures s.waiting == t.waiting[|picks|..] && t.rings != [] && |picks| <= |t.waiting|
      ensures InfoAfter(t, s.info, picks) && RingsAfter(t, s, picks)
      ensures goodNameservers > 0 ==>
        forall i :: 0 <= i < |picks| ==> t.waiting[i].ns == picks[i].ns && picks[i].ns.up
    {
      hide Good, Linked, Promoted, RingsAfter, PickedAt;
      PromotedInfo(t, picks);
      PromotedRings(t, picks);
      NotEmpty(t);
      if goodNameservers > 0 {
        PickedUp(Servers(picks), heads);
        forall i | 0 <= i < |picks| ensures t.waiting[i].ns == picks[i].ns && picks[i].ns.up {
          assert t.waiting[i] in s.info && s.info[t.waiting[i]] == Given(t, picks[i]);
          assert Servers(picks)[i] in Servers(picks);
        }
      }
    }

    lemma NoServers(head: nat)
      ensures Servers([]) == [] && PickedOn([], [head])
    {
    }

    lemma ServersMore(picks: seq<Pick>, p: Pick)
      ensures Servers(picks + [p]) == Servers(picks) + [p.ns]
    {
    }

    lemma Starts()
      requires Valid()
      ensures Good(s) && Usable(s, []) && s == Promoted(s, [])
    {
    }

    method NextNameserver() returns (ns: Nameserver?)
      requires Valid()
      modifies `serverHead
      ensures Valid() && (ns == null <==> servers == []) && (ns != null ==> ns in servers && ns in s.load)
      ensures goodNameservers > 0 ==> ns != null && ns.up
      ensures if ns == null then serverHead == old(serverHead) else PickedAt(old(serverHead), ns, serverHead)
    {
      hide Good, Linked, Labelled;
      ns := PickNameserver();
    }

    lemma OneMore(t0: State, picks: seq<Pick>, t: State, p: Pick)
      requires Good(t0) && Usable(t0, picks) && t == Promoted(t0, picks) && t.waiting != [] && p.ns in t.load
      ensures Usable(t0, picks + [p]) && Promoted(t0, picks + [p]) == Promote(t, p)
      ensures |Promote(t, p).waiting| < |t.waiting| && Promote(t, p).info.Keys == t.info.Keys
    {
      hide Good, Promote;
      PromoteGood(t, p);
      assert (picks + [p])[..|picks|] == picks;
      assert t.waiting[0] in t.info by { WaitingKnown(t); }
    }

    /** `request_finished`. */
    method Finish(req: Request) returns (ghost i: nat, ghost picks: seq<Pick>, ghost heads: seq<nat>)
      requires Valid() && req in s.info
      modifies `s, `inflight, `waiting, `waitingHead, `serverHead
      modifies reqHeads, s.info.Keys, servers`requestsInflight
      ensures Valid() && req !in s.info && old(At(s, req, i))
      ensures Good(Left(old(s), req, i)) && Usable(Left(old(s), req, i), picks)
      ensures s == Promoted(Left(old(s), req, i), picks)
      ensures maxInflight <= inflight || s.waiting == [] || servers == []
      ensures PickedOn(Servers(picks), heads) && heads[0] == old(serverHead) && heads[|picks|] == serverHead
      ensures goodNameservers > 0 ==> forall p :: p in picks ==> p.ns.up
      ensures reqHeads == old(reqHeads) && maxInflight == old(maxInflight)
    {
      hide *;
      i := Leave(req);
      LeftIs(old(s), req, i);
      picks, heads := Pump();
    }

    // ---- Changing nameservers

    lemma InFlight(req: Request)
      requires Valid() && req in s.info && s.info[req].home >= 0
      ensures Good(s) && req.ns != null && req.ns in s.load && s.info[req].ns == req.ns && req.ns in servers
      ensures 0 < req.ns.requestsInflight
    {
      hide Linked, Queued;
      assert InfoOk(s, req);
      assert req in Flying(s.info, req.ns);
    }

    lemma SwappedIs(t: State, req: Request, ns: Nameserver)
      requires Good(t) && req in t.info && t.info[req].home >= 0 && ns in t.load
      ensures InfoOk(t, req) && Good(Swapped(t, req, ns))
      ensures var u, was := Swapped(t, req, ns), t.info[req].ns;
        && (was == ns ==> u == t)
        && (was != ns ==> u == t.(info := t.info[req := t.info[req].(ns := ns)],
                                  load := t.load[was := t.load[was] - 1][ns := t.load[ns] + 1]))
    {
      SwappedGood(t, req, ns);
    }

    /** `request_swap_ns`, whose assertion holds. */
    method SwapNs(req: Request, ns: Nameserver?)
      requires Valid() && req in s.info && s.info[req].home >= 0 && (ns != null ==> ns in servers)
      modifies `s, req`ns, servers`requestsInflight
      ensures Valid() && Good(old(s)) && InfoOk(old(s), req) && (ns != null ==> ns in old(s).load)
      ensures s == if ns == null then old(s) else Swapped(old(s), req, ns)
      ensures s.info == old(s).info[req := old(s).info[req].(ns := if ns == null then old(s).info[req].ns else ns)]
    {
      hide Good, Linked, ServersOk, InfoOk, Swapped;
      InFlight(req);
      Listed(ns);
      if ns != null {
        SwappedIs(s, req, ns);
        if req.ns != ns {
          assert 0 < req.ns.requestsInflight;
          req.ns.requestsInflight := req.ns.requestsInflight - 1;
          ns.requestsInflight := ns.requestsInflight + 1;
          req.ns := ns;
          ghost var t := s;
          s := Swapped(t, req, ns);
          assert s.load.Keys == t.load.Keys && s.info.Keys == t.info.Keys;
        }
      } else {
        assert InfoOk(s, req) by { SwappedIs(s, req, req.ns); }
      }
    }

    // ---- A nameserver that fails

    /** One request of `nameserver_failed`'s walk. */
    method MoveOff(req: Request, failed: Nameserver, ghost t: State, ghost done: set<Request>)
      returns (ghost given: Nameserver?)
      requires Valid() && Swept(t, s, done, failed) && req in s.info && s.info[req].home >= 0 && req !in done
      requires goodNameservers > 0
      modifies `s, `serverHead, req`ns, servers`requestsInflight
      ensures Valid() && Swept(t, s, done + {req}, failed) && s.info.Keys == old(s).info.Keys
      ensures forall x :: x in s.info && x != req ==> s.info[x] == old(s).info[x]
      ensures req in t.info && req in s.info
      ensures if Unsent(t, req, failed) then given != null && s.info[req].ns == given else given == null
      ensures if given == null then serverHead == old(serverHead) else PickedAt(old(serverHead), given, serverHead)
    {
      hide *;
      InFlight(req);
      SweptStill(t, s, done, req, failed);
      given := null;
      if req.txCount == 0 && req.ns == failed {
        var ns := NextNameserver();
        ghost var u := s;
        SwapNs(req, ns);
        SweptSwapped(t, u, done, req, failed, ns);
        given := ns;
      } else {
        SweptKept(t, done, req, failed);
      }
    }

    /** The same, with the nameservers that have been given so far. */
    method HandOn(req: Request, failed: Nameserver, ghost t: State, ghost done: set<Request>, ghost q: seq<Request>,
                  ghost picked0: seq<Nameserver>, ghost heads0: seq<nat>)
      returns (ghost picked: seq<Nameserver>, ghost heads: seq<nat>)
      requires Valid() && Swept(t, s, done, failed) && req in s.info && s.info[req].home >= 0 && req !in done
      requires goodNameservers > 0 && Handed(t, s, q, failed, picked0) && (forall r :: r in q ==> r in done)
      requires PickedOn(picked0, heads0) && |heads0| == |picked0| + 1 && heads0[|picked0|] == serverHead
      modifies `s, `serverHead, req`ns, servers`requestsInflight
      ensures Valid() && Swept(t, s, done + {req}, failed) && Handed(t, s, q + [req], failed, picked)
      ensures PickedOn(picked, heads) && |heads| == |picked| + 1 && heads[|picked|] == serverHead
      ensures heads[0] == heads0[0]
    {
      hide *;
      ghost var u := s;
      ghost var ns := MoveOff(req, failed, t, done);
      HandedOne(t, u, s, q, req, failed, picked0, ns);
      if ns == null {
        picked, heads := picked0, heads0;
        assert picked0 + [] == picked0;
      } else {
        PickedMore(picked0, heads0, ns, serverHead);
        picked, heads := picked0 + [ns], heads0 + [serverHead];
      }
    }

    /** A request that is still to be looked at is as it was. */
    lemma SweptStill(t: State, u: State, done: set<Request>, req: Request, failed: Nameserver)
      requires Swept(t, u, done, failed) && req in u.info && req !in done && u.info[req].home >= 0
      ensures req in t.info && (Unsent(t, req, failed) <==> u.info[req].ns == failed && req.txCount == 0)
    {
    }

    lemma SweptSwapped(t: State, u: State, done: set<Request>, req: Request, failed: Nameserver, ns: Nameserver)
      requires Swept(t, u, done, failed) && Good(u) && req in u.info && u.info[req].home >= 0 && req !in done
      requires u.info[req].ns == failed && req.txCount == 0 && ns in u.load && ns.up
      ensures InfoOk(u, req) && Swept(t, Swapped(u, req, ns), done + {req}, failed)
    {
      hide Good;
      SwappedIs(u, req, ns);
    }

    lemma SweptKept(t: State, done: set<Request>, req: Request, failed: Nameserver)
      requires Swept(t, s, done, failed) && req in s.info && req !in done
      requires req.txCount != 0 || s.info[req].ns != failed
      ensures Swept(t, s, done + {req}, failed)
    {
    }

    /** The ring behind a head, with its requests all in flight. */
    lemma RingAt(k: nat)
      requires Valid() && k < |s.rings|
      ensures reqHeads.Length == |s.rings| && Ring(reqHeads[k], s.rings[k])
      ensures forall r :: r in s.rings[k] ==> r in s.info && s.info[r].home == k
      ensures reqHeads[k] == null <==> s.rings[k] == []
      ensures s.rings[k] != [] ==> reqHeads[k] == s.rings[k][0]
    {
      var pool := s.rings + [s.waiting];
      assert pool[k] == s.rings[k];
      HomeIn(s, k);
    }

    /** The walk round one ring. */
    method MoveRingOff(k: nat, failed: Nameserver, ghost t: State, ghost done: set<Request>, ghost q: seq<Request>,
                       ghost picked0: seq<Nameserver>, ghost heads0: seq<nat>)
      returns (ghost after: set<Request>, ghost picked: seq<Nameserver>, ghost heads: seq<nat>)
      requires Valid() && Good(t) && Swept(t, s, done, failed) && k < |t.rings| && goodNameservers > 0
      requires done == Below(t.info, k) && Handed(t, s, q, failed, picked0) && (forall r :: r in q ==> r in done)
      requires PickedOn(picked0, heads0) && |heads0| == |picked0| + 1 && heads0[|picked0|] == serverHead
      modifies `s, `serverHead, s.info.Keys`ns, servers`requestsInflight
      ensures Valid() && Swept(t, s, after, failed) && after == Below(t.info, k + 1)
      ensures Handed(t, s, q + t.rings[k], failed, picked) && forall r :: r in q + t.rings[k] ==> r in after
      ensures PickedOn(picked, heads) && |heads| == |picked| + 1 && heads[|picked|] == serverHead
      ensures heads[0] == heads0[0]
    {
      hide *;
      after, picked, heads := done, picked0, heads0;
      SweptPlaces(t, done, failed);
      RingAt(k);
      RingBelow(t, k);
      var req := reqHeads[k];
      if req != null {
        var startedAt, more := req, true;
        ghost var c, j := t.rings[k], 0;
        assert c[..0] == [] && q + c[..0] == q;
        while more
          invariant Valid() && Swept(t, s, after, failed)
          invariant j <= |c| && (if more then j < |c| && req == c[j] else j == |c|)
          invariant Handed(t, s, q + c[..j], failed, picked) && forall r :: r in q + c[..j] ==> r in after
          invariant PickedOn(picked, heads) && |heads| == |picked| + 1 && heads[|picked|] == serverHead
          invariant heads[0] == heads0[0]
          invariant after == done + SetOf(c[..j])
          decreases |c| - j, more
        {
          SweptPlaces(t, after, failed);
          RingAt(k);
          Around(c, j);
          picked, heads := HandOn(req, failed, t, after, q + c[..j], picked, heads);
          assert q + c[..j] + [req] == q + c[..j + 1];
          after := after + {req};
          req := req.next;
          more, j := req != startedAt, j + 1;
        }
        assert c[..j] == c;
      } else {
        assert q + t.rings[k] == q;
      }
    }

    lemma SweptPlaces(t: State, done: set<Request>, failed: Nameserver)
      requires Swept(t, s, done, failed)
      ensures s.rings == t.rings && s.info.Keys == t.info.Keys
    {
    }

    lemma RingBelow(t: State, k: nat)
      requires Good(t) && k < |t.rings|
      ensures Below(t.info, k + 1) == Below(t.info, k) + SetOf(t.rings[k])
      ensures forall r :: r in t.rings[k] ==> r !in Below(t.info, k)
      ensures t.rings[k] == [] ==> SetOf(t.rings[k]) == {}
      ensures SetOf([]) == {}
    {
      HomeIn(t, k);
      forall r | r in t.info && t.info[r].home == k ensures r in t.rings[k] {
        assert InfoOk(t, r);
      }
    }

    lemma Around(c: seq<Request>, j: nat)
      requires c != [] && Ring(c[0], c) && j < |c|
      ensures c[j] in c && c[j] !in SetOf(c[..j])
      ensures c[j].next == if j + 1 < |c| then c[j + 1] else c[0]
      ensures (c[j].next == c[0]) <==> j == |c| - 1
      ensures SetOf(c[..j + 1]) == SetOf(c[..j]) + {c[j]}
    {
      assert c[..j + 1] == c[..j] + [c[j]];
    }

    /** `nameserver_failed`: marked as down, and every request that was on it and has not been sent moves to a
        nameserver that is up, if there is one.  Ring by ring the requests are given the nameservers that are picked
        one after the other. */
    method NameserverFailed(ns: Nameserver) returns (ghost picked: seq<Nameserver>, ghost heads: seq<nat>)
      requires Valid() && ns in servers
      modifies `s, `serverHead, `goodNameservers, s.info.Keys`ns, servers`requestsInflight, servers`up
      ensures Valid() && !ns.up && UpServers(servers) == old(UpServers(servers)) - {ns}
      ensures if old(ns.up) && goodNameservers > 0 then Swept(old(s), s, s.info.Keys, ns) else s == old(s)
      ensures if old(ns.up) && goodNameservers > 0 then Handed(old(s), s, Concat(old(s).rings), ns, picked)
              else picked == []
      ensures PickedOn(picked, heads) && heads[0] == old(serverHead) && heads[|picked|] == serverHead
    {
      picked, heads := [], [serverHead];
      if !ns.up {
        assert UpServers(servers) == old(UpServers(servers)) - {ns};
        return;
      }
      MarkDown(ns);
      if goodNameservers != 0 {
        picked, heads := MoveAllOff(ns);
      }
    }

    method MarkDown(ns: Nameserver)
      requires Valid() && ns in servers && ns.up
      modifies `goodNameservers, servers`up
      ensures Valid() && 0 <= goodNameservers && !ns.up && UpServers(servers) == old(UpServers(servers)) - {ns}
    {
      hide Good, Linked, Labelled, Loaded;
      goodNameservers := goodNameservers - 1;
      ns.up := false;
      assert UpServers(servers) == old(UpServers(servers)) - {ns};
      assert ns in old(UpServers(servers));
    }

    method MoveAllOff(ns: Nameserver) returns (ghost picked: seq<Nameserver>, ghost heads: seq<nat>)
      requires Valid() && goodNameservers > 0
      modifies `s, `serverHead, s.info.Keys`ns, servers`requestsInflight
      ensures Valid() && Swept(old(s), s, s.info.Keys, ns) && Handed(old(s), s, Concat(old(s).rings), ns, picked)
      ensures PickedOn(picked, heads) && |heads| == |picked| + 1
      ensures heads[0] == old(serverHead) && heads[|picked|] == serverHead
    {
      hide *;
      ghost var t, done: set<Request> := s, {};
      picked, heads := [], [serverHead];
      StartSweep(ns);
      NoServers(serverHead);
      assert t.rings[..0] == [];
      var i := 0;
      while i < reqHeads.Length
        invariant Valid() && Swept(t, s, done, ns) && i <= reqHeads.Length == |t.rings|
        invariant done == Below(t.info, i) && Handed(t, s, Concat(t.rings[..i]), ns, picked)
        invariant forall r :: r in Concat(t.rings[..i]) ==> r in done
        invariant PickedOn(picked, heads) && |heads| == |picked| + 1
        invariant heads[0] == old(serverHead) && heads[|picked|] == serverHead
      {
        SweptPlaces(t, done, ns);
        RingInfo(t, i);
        done, picked, heads := MoveRingOff(i, ns, t, done, Concat(t.rings[..i]), picked, heads);
        i := i + 1;
      }
      assert t.rings[..i] == t.rings;
      EndSweep(t, done, ns);
    }

    lemma StartSweep(ns: Nameserver)
      requires Valid()
      ensures Good(s) && Swept(s, s, {}, ns) && Below(s.info, 0) == {} && reqHeads.Length == |s.rings|
      ensures Handed(s, s, [], ns, []) && Concat([]) == []
    {
      hide Labelled, Queued, Counted, Pool;
      forall r | r in s.info ensures InfoOk(s, r) {
      }
    }

    lemma EndSweep(t: State, done: set<Request>, ns: Nameserver)
      requires Good(t) && Swept(t, s, done, ns) && done == Below(t.info, |t.rings|)
      ensures Swept(t, s, s.info.Keys, ns)
    {
      forall r | r in t.info && r !in done ensures !Unsent(t, r, ns) {
        assert InfoOk(t, r);
      }
    }

    // ---- Another number of rings

    /** Halfway: the rings that are left, the ones dealt so far and the waiting ring. */
    ghost predicate Dealing(from: array<Request?>, into: array<Request?>, left: seq<seq<Request>>,
                            dealt: seq<seq<Request>>, q: seq<Request>, reqs: set<Request>)
      reads `waitingHead, from, into, reqs`next, reqs`prev
    {
      && from != into && from.Length == |left| && into.Length == |dealt|
      && Pool(from[..] + into[..] + [waitingHead], left + dealt + [q], reqs)
    }

    /** The first request of a ring goes where its id asks for. */
    method DealOne(from: array<Request?>, into: array<Request?>, i: nat, ghost left: seq<seq<Request>>,
                   ghost dealt: seq<seq<Request>>, ghost q: seq<Request>, ghost reqs: set<Request>)
      returns (k: nat)
      requires Dealing(from, into, left, dealt, q, reqs) && 0 < |dealt| && i < |left| && from[i] != null
      modifies from, into, reqs`next, reqs`prev
      ensures left[i] != [] && k == left[i][0].transId % |dealt|
      ensures Dealing(from, into, left[i := left[i][1..]], dealt[k := dealt[k] + [left[i][0]]], q, reqs)
    {
      hide Pool;
      var req := FirstOf(from, into, i, left, dealt, q, reqs);
      k := req.transId % into.Length;
      TakeFirst(from, into, i, left, dealt, q, reqs);
      PutLast(req, from, into, k, left[i := left[i][1..]], dealt, q, reqs);
    }

    method FirstOf(from: array<Request?>, into: array<Request?>, i: nat, ghost left: seq<seq<Request>>,
                   ghost dealt: seq<seq<Request>>, ghost q: seq<Request>, ghost reqs: set<Request>)
      returns (req: Request)
      requires Dealing(from, into, left, dealt, q, reqs) && i < |left| && from[i] != null
      ensures left[i] != [] && req == left[i][0] == from[i] && req in reqs
      ensures var l := left[i := left[i][1..]];
        req !in q && (forall j :: 0 <= j < |l| ==> req !in l[j]) && forall j :: 0 <= j < |dealt| ==> req !in dealt[j]
    {
      ghost var pool := left + dealt + [q];
      assert pool[i] == left[i] && Within(pool[i], reqs);
      assert pool[|left| + |dealt|] == q;
      req := from[i];
      forall j | 0 <= j < |dealt| ensures req !in dealt[j] {
        assert pool[|left| + j] == dealt[j];
      }
      forall j | 0 <= j < |left| && j != i ensures req !in left[j] {
        assert pool[j] == left[j];
      }
    }

    method TakeFirst(from: array<Request?>, into: array<Request?>, i: nat, ghost left: seq<seq<Request>>,
                     ghost dealt: seq<seq<Request>>, ghost q: seq<Request>, ghost reqs: set<Request>)
      requires Dealing(from, into, left, dealt, q, reqs) && i < |left| && left[i] != [] && from[i] == left[i][0]
      modifies from, reqs`next, reqs`prev
      ensures Dealing(from, into, left[i := left[i][1..]], dealt, q, reqs)
    {
      hide Pool;
      ghost var heads, pool := from[..] + into[..] + [waitingHead], left + dealt + [q];
      var now := RemoveFrom(from[i], from[i], heads, pool, reqs, i, 0);
      ghost var was := from[..];
      from[i] := now;
      assert Without(left[i], 0) == left[i][1..];
      assert pool[i := left[i][1..]] == left[i := left[i][1..]] + dealt + [q];
      assert from[..] == was[i := now];
      assert heads[i := now] == from[..] + into[..] + [waitingHead];
    }

    method PutLast(req: Request, from: array<Request?>, into: array<Request?>, k: nat, ghost left: seq<seq<Request>>,
                   ghost dealt: seq<seq<Request>>, ghost q: seq<Request>, ghost reqs: set<Request>)
      requires Dealing(from, into, left, dealt, q, reqs) && k < |dealt| && req in reqs
      requires req !in q && (forall j :: 0 <= j < |left| ==> req !in left[j])
      requires forall j :: 0 <= j < |dealt| ==> req !in dealt[j]
      modifies into, reqs`next, reqs`prev
      ensures Dealing(from, into, left, dealt[k := dealt[k] + [req]], q, reqs)
    {
      hide Pool;
      ghost var heads, pool, at := from[..] + into[..] + [waitingHead], left + dealt + [q], |left| + k;
      var now := InsertInto(req, into[k], heads, pool, reqs, at);
      ghost var was := into[..];
      into[k] := now;
      assert pool[at := dealt[k] + [req]] == left + dealt[k := dealt[k] + [req]] + [q];
      assert into[..] == was[k := now];
      assert heads[at := now] == from[..] + into[..] + [waitingHead];
    }

    lemma HeadOf(from: array<Request?>, into: array<Request?>, i: nat, left: seq<seq<Request>>,
                 dealt: seq<seq<Request>>, q: seq<Request>, reqs: set<Request>)
      requires Dealing(from, into, left, dealt, q, reqs) && i < |left|
      ensures i < from.Length && (from[i] == null <==> left[i] == [])
    {
      var pool := left + dealt + [q];
      assert pool[i] == left[i];
    }

    /** One ring dealt out, `done` being what the rings before it held. */
    method DealRing(from: array<Request?>, into: array<Request?>, i: nat, n: nat, ghost t: State,
                    ghost left: seq<seq<Request>>, ghost done: seq<Request>)
      requires 0 < n && Good(t) && i < |left| && |left| == |t.rings| && left[i] == t.rings[i]
      requires done == Concat(t.rings[..i]) && (forall r :: r in done ==> r in t.info)
      requires Labelled(t.info)
      requires Dealing(from, into, left, Dealt(done, t.info, n), t.waiting, t.info.Keys)
      modifies from, into, t.info.Keys`next, t.info.Keys`prev
      ensures done + t.rings[i] == Concat(t.rings[..i + 1]) && (forall r :: r in done + t.rings[i] ==> r in t.info)
      ensures Dealing(from, into, left[i := []], Dealt(done + t.rings[i], t.info, n), t.waiting, t.info.Keys)
    {
      hide *;
      ghost var c, info, q := t.rings[i], t.info, t.waiting;
      ghost var m, l, d := 0, left, done;
      RingInfo(t, i);
      assert c[0..] == c && done + c[..0] == done && left[i := c] == left;
      HeadOf(from, into, i, l, Dealt(d, info, n), q, info.Keys);
      while from[i] != null
        invariant m <= |c| && l == left[i := c[m..]] && d == done + c[..m] && i < from.Length
        invariant from[i] == null <==> c[m..] == []
        invariant forall r :: r in d ==> r in info
        invariant Labelled(info) && Dealing(from, into, l, Dealt(d, info, n), q, info.Keys)
        decreases |c| - m
      {
        ghost var r := c[m];
        assert c[m..] == [r] + c[m + 1..] && d + [r] == done + c[..m + 1] && r in c;
        ghost var k := DealOne(from, into, i, l, Dealt(d, info, n), q, info.Keys);
        DealtMore(d, r, info, n);
        LabelAt(info, r);
        assert c[m..][1..] == c[m + 1..] && l[i] == c[m..];
        assert l[i := c[m + 1..]] == left[i := c[m + 1..]];
        d, m := d + [r], m + 1;
        l := left[i := c[m..]];
        HeadOf(from, into, i, l, Dealt(d, info, n), q, info.Keys);
      }
      assert c[..m] == c;
    }

    lemma LabelAt(info: map<Request, Info>, r: Request)
      requires Labelled(info) && r in info
      ensures r.transId == info[r].id
    {
    }

    lemma RingInfo(t: State, i: nat)
      requires Good(t) && i < |t.rings|
      ensures forall r :: r in t.rings[i] ==> r in t.info
      ensures Concat(t.rings[..i]) + t.rings[i] == Concat(t.rings[..i + 1])
    {
      HomeIn(t, i);
      assert t.rings[..i + 1][..i] == t.rings[..i];
    }

    lemma NothingDealt(into: array<Request?>, n: nat)
      requires Valid() && 0 < n == into.Length && into != reqHeads && forall k :: 0 <= k < n ==> into[k] == null
      ensures Dealing(reqHeads, into, s.rings, Dealt([], s.info, n), s.waiting, s.info.Keys)
    {
      hide Labelled, Loaded, ServersOk, Good;
      var heads, pool, m := reqHeads[..] + [waitingHead], s.rings + [s.waiting], |s.rings|;
      var dealt := Dealt([], s.info, n);
      var more, all := reqHeads[..] + into[..] + [waitingHead], s.rings + dealt + [s.waiting];
      forall k | 0 <= k < |all| ensures Within(all[k], s.info.Keys) && Ring(more[k], all[k]) {
        if k < m {
          assert all[k] == pool[k] && more[k] == heads[k];
        } else if k < m + n {
          assert all[k] == dealt[k - m] == [];
        } else {
          assert all[k] == pool[m] && more[k] == heads[m];
        }
      }
      forall j, k, r | 0 <= j < |all| && 0 <= k < |all| && r in all[j] && r in all[k] ensures j == k {
        assert all[j] == pool[if j < m then j else m];
        assert all[k] == pool[if k < m then k else m];
      }
    }

    lemma AllDealt(into: array<Request?>, t: State, left: seq<seq<Request>>, dealt: seq<seq<Request>>)
      requires Dealing(reqHeads, into, left, dealt, t.waiting, t.info.Keys)
      requires forall k :: 0 <= k < |left| ==> left[k] == []
      ensures Pool(into[..] + [waitingHead], dealt + [t.waiting], t.info.Keys)
    {
      hide Ring;
      var more, all, m := reqHeads[..] + into[..] + [waitingHead], left + dealt + [t.waiting], |left|;
      var heads, pool := into[..] + [waitingHead], dealt + [t.waiting];
      forall k | 0 <= k < |pool| ensures pool[k] == all[m + k] && heads[k] == more[m + k] {
      }
    }

    /** `evdns_base_set_max_requests_inflight`, with its bound and its number of rings. */
    method SetMaxRequestsInflight(max: int) returns (ghost n: nat)
      requires Valid()
      modifies this, reqHeads, s.info.Keys`next, s.info.Keys`prev
      ensures Valid() && maxInflight == (if max < 1 then 1 else max)
      ensures n == (maxInflight + 4) / 5 == reqHeads.Length && 0 < n && fresh(reqHeads)
      ensures Good(old(s)) && s == Rehashed(old(s), n)
      ensures s.waiting == old(s).waiting && s.info.Keys == old(s).info.Keys && s.load == old(s).load
      ensures forall r :: r in s.info ==> s.info[r].id == old(s).info[r].id && s.info[r].ns == old(s).info[r].ns
      ensures forall r, k :: r in s.info && 0 <= k < |s.rings| ==>
        (r in s.rings[k] <==> old(s).info[r].ns != null && k == s.info[r].id % n)
    {
      hide *;
      var bound := if max < 1 then 1 else max;
      var size := (bound + 4) / 5;
      var into := new Request?[size](_ => null);
      ghost var left := DealAll(into, size);
      n := size;
      AllDealt(into, s, left, Dealt(Concat(s.rings), s.info, n));
      reqHeads, maxInflight := into, bound;
      ghost var t := s;
      s := Rehashed(t, n);
      Settled(t, n);
      RehashedMeans(t, n);
    }

    method DealAll(into: array<Request?>, n: nat) returns (ghost left: seq<seq<Request>>)
      requires Valid() && 0 < n == into.Length && into != reqHeads && forall k :: 0 <= k < n ==> into[k] == null
      modifies reqHeads, into, s.info.Keys`next, s.info.Keys`prev
      ensures Good(s) && Labelled(s.info) && Loaded(s.load) && ServersOk() && inflight == s.inflight
      ensures waiting == s.waitingCount && forall r :: r in Concat(s.rings) ==> r in s.info
      ensures Dealing(reqHeads, into, left, Dealt(Concat(s.rings), s.info, n), s.waiting, s.info.Keys)
      ensures forall k :: 0 <= k < |left| ==> left[k] == []
    {
      hide *;
      Parts();
      left := s.rings;
      ghost var done := [];
      NothingDealt(into, n);
      assert s.rings[..0] == [];
      var i := 0;
      while i < reqHeads.Length
        invariant i <= reqHeads.Length == |left| == |s.rings| && into.Length == n
        invariant forall k :: 0 <= k < i ==> left[k] == []
        invariant forall k :: i <= k < |left| ==> left[k] == s.rings[k]
        invariant done == Concat(s.rings[..i]) && forall r :: r in done ==> r in s.info
        invariant Labelled(s.info) && Loaded(s.load) && ServersOk()
        invariant Dealing(reqHeads, into, left, Dealt(done, s.info, n), s.waiting, s.info.Keys)
      {
        DealRing(reqHeads, into, i, n, s, left, done);
        done := done + s.rings[i];
        left := left[i := []];
        i := i + 1;
      }
      assert s.rings[..i] == s.rings;
    }

    lemma Parts()
      requires Valid()
      ensures Good(s) && Labelled(s.info) && Loaded(s.load) && ServersOk() && inflight == s.inflight
      ensures waiting == s.waitingCount && reqHeads.Length == |s.rings| && Concat([]) == []
    {
    }

    lemma RehashedMeans(t: State, n: nat)
      requires 0 < n && Good(t)
      ensures var u := Rehashed(t, n);
        && u.waiting == t.waiting && u.info.Keys == t.info.Keys && u.load == t.load && |u.rings| == n
        && (forall r :: r in t.info ==> u.info[r].id == t.info[r].id && u.info[r].ns == t.info[r].ns)
        && forall r, k :: r in t.info && 0 <= k < n ==>
             (r in u.rings[k] <==> t.info[r].ns != null && k == t.info[r].id % n)
    {
      hide Counted, Dealt, Concat;
      RehashedGood(t, n);
      var u := Rehashed(t, n);
      forall r, k | r in t.info && 0 <= k < n
        ensures r in u.rings[k] <==> t.info[r].ns != null && k == t.info[r].id % n
      {
        assert InfoOk(u, r) && InfoOk(t, r);
        HomeIn(u, k);
      }
    }

    lemma Settled(t: State, n: nat)
      requires 0 < n && Good(t) && s == Rehashed(t, n) && reqHeads.Length == n
      requires forall r :: r in Concat(t.rings) ==> r in t.info
      requires Pool(reqHeads[..] + [waitingHead], Dealt(Concat(t.rings), t.info, n) + [t.waiting], t.info.Keys)
      requires Labelled(t.info) && Loaded(t.load) && ServersOk() && inflight == t.inflight && waiting == t.waitingCount
      ensures Valid()
    {
      hide Good, Pool, Dealt, Concat, Loaded, ServersOk;
      RehashedGood(t, n);
    }
  }
}
