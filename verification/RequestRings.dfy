/** Rings of DNS requests: circular lists that are reached through a head pointer. */
module RequestRings {
  class Nameserver {
    var requestsInflight: int
    /** `state`: whether the nameserver is thought to answer. */
    var up: bool

    constructor ()
      ensures requestsInflight == 0 && up
    {
      requestsInflight, up := 0, true;
    }
  }

  class Request {
    var next: Request?
    var prev: Request?
    var transId: nat
    var ns: Nameserver?
    var txCount: nat

    constructor (transId: nat, ns: Nameserver?)
      ensures next == null && prev == null && this.transId == transId && this.ns == ns && txCount == 0
    {
      next, prev, txCount := null, null, 0;
      this.transId, this.ns := transId, ns;
    }
  }

  /** The place after i, and before it, in a ring of n. */
  function After(i: nat, n: nat): nat {
    if i + 1 >= n then 0 else i + 1
  }

  function Before(i: nat, n: nat): nat
    requires i < n
  {
    if i == 0 then n - 1 else i - 1
  }

  /** The requests form a ring from the head on. */
  ghost predicate Ring(head: Request?, c: seq<Request>)
    reads c`next, c`prev
  {
    && (if c == [] then head == null else head == c[0])
    && (forall i {:trigger c[i].next} {:trigger c[i].prev} :: 0 <= i < |c| ==>
          c[i].next == c[After(i, |c|)] && c[i].prev == c[Before(i, |c|)])
    && (forall i, j :: 0 <= i < j < |c| ==> c[i] != c[j])
  }

  /** A ring grows when the new request is linked in between its last and its first. */
  lemma Extended(c: seq<Request>, req: Request)
    requires c != [] && req !in c && forall i, j :: 0 <= i < j < |c| ==> c[i] != c[j]
    requires req.next == c[0] && req.prev == c[|c| - 1]
    requires forall i {:trigger c[i].next} {:trigger c[i].prev} :: 0 <= i < |c| ==> LinkedAt(c, req, i)
    ensures Ring(c[0], c + [req])
  {
    var d := c + [req];
    forall i | 0 <= i < |d| ensures d[i].next == d[After(i, |d|)] && d[i].prev == d[Before(i, |d|)] {
      if i < |c| {
        assert d[i] == c[i] && LinkedAt(c, req, i);
      }
    }
  }

  ghost predicate LinkedAt(c: seq<Request>, req: Request, i: nat)
    requires i < |c|
    reads c`next, c`prev
  {
    && c[i].next == (if i == |c| - 1 then req else c[i + 1])
    && c[i].prev == (if i == 0 then req else c[i - 1])
  }

  /** `evdns_request_insert`: at the tail. */
  method Insert(req: Request, head: Request?, ghost c: seq<Request>) returns (now: Request)
    requires Ring(head, c) && req !in c
    modifies (set r | r in c)`next, (set r | r in c)`prev, req`next, req`prev
    ensures Ring(now, c + [req])
  {
    if head == null {
      req.next, req.prev := req, req;
      return req;
    }
    assert c[0].prev == c[|c| - 1];
    req.prev := head.prev;
    req.prev.next := req;
    req.next := head;
    head.prev := req;
    now := head;
    forall i | 0 <= i < |c| ensures LinkedAt(c, req, i) {
      assert old(c[i].next) == c[After(i, |c|)] && old(c[i].prev) == c[Before(i, |c|)];
    }
    Extended(c, req);
  }

  /** The ring without its i-th request; without the first one it starts at the second. */
  ghost function Without(c: seq<Request>, i: nat): seq<Request>
    requires i < |c|
  {
    c[..i] + c[i + 1..]
  }

  /** Where place j of the ring without place i was. */
  function Was(i: nat, j: nat): nat {
    if j < i then j else j + 1
  }

  lemma Skips(i: nat, n: nat, j: nat)
    requires i < n && j < n - 1
    ensures Was(i, j) < n && Was(i, j) != i
    ensures Was(i, After(j, n - 1)) == if After(Was(i, j), n) == i then After(i, n) else After(Was(i, j), n)
    ensures Was(i, Before(j, n - 1)) == if Before(Was(i, j), n) == i then Before(i, n) else Before(Was(i, j), n)
  {
  }

  /** Neighbours on both sides name each other. */
  lemma Neighbours(n: nat, i: nat, j: nat)
    requires i < n && j < n
    ensures After(i, n) == j <==> Before(j, n) == i
  {
  }

  /** Place k of the ring, other than i, when the neighbours of i have been joined. */
  ghost predicate JoinedAt(c: seq<Request>, i: nat, k: nat)
    requires i < |c| && k < |c|
    reads c
  {
    && c[k].next == (if After(k, |c|) == i then c[After(i, |c|)] else c[After(k, |c|)])
    && c[k].prev == (if Before(k, |c|) == i then c[Before(i, |c|)] else c[Before(k, |c|)])
  }

  lemma WithoutAt(c: seq<Request>, i: nat, j: nat)
    requires i < |c| && j < |c| - 1
    ensures Without(c, i)[j] == c[Was(i, j)]
  {
  }

  lemma JoinedPlace(c: seq<Request>, i: nat, j: nat)
    requires i < |c| && j < |c| - 1 && JoinedAt(c, i, Was(i, j))
    ensures var d, m := Without(c, i), |c| - 1;
      |d| == m && d[j].next == d[After(j, m)] && d[j].prev == d[Before(j, m)]
  {
    hide Without;
    Skips(i, |c|, j);
    WithoutSize(c, i);
    WithoutAt(c, i, j);
    WithoutAt(c, i, After(j, |c| - 1));
    WithoutAt(c, i, Before(j, |c| - 1));
  }

  lemma WithoutSize(c: seq<Request>, i: nat)
    requires i < |c|
    ensures |Without(c, i)| == |c| - 1
    ensures forall x :: x in Without(c, i) ==> x in c
    ensures (forall j, k :: 0 <= j < k < |c| ==> c[j] != c[k]) ==>
      (forall j, k :: 0 <= j < k < |c| - 1 ==> Without(c, i)[j] != Without(c, i)[k]) && c[i] !in Without(c, i)
  {
  }

  /** When a request's neighbours have been joined, the others form a ring. */
  lemma Joined(c: seq<Request>, i: nat, now: Request?)
    requires 1 < |c| && i < |c| && forall j, k :: 0 <= j < k < |c| ==> c[j] != c[k]
    requires now == if i == 0 then c[1] else c[0]
    requires forall k :: 0 <= k < |c| && k != i ==> JoinedAt(c, i, k)
    ensures Ring(now, Without(c, i))
  {
    hide JoinedAt, Without;
    WithoutSize(c, i);
    forall j | 0 <= j < |c| - 1
      ensures Without(c, i)[j].next == Without(c, i)[After(j, |c| - 1)]
      ensures Without(c, i)[j].prev == Without(c, i)[Before(j, |c| - 1)]
    {
      Skips(i, |c|, j);
      JoinedPlace(c, i, j);
    }
    WithoutAt(c, i, 0);
  }

  /** Joins the neighbours of a request. */
  method Join(req: Request, ghost c: seq<Request>, ghost i: nat)
    requires i < |c| && c[i] == req && 1 < |c| && Ring(c[0], c)
    modifies (set r | r in c)`next, (set r | r in c)`prev
    ensures req.next == old(req.next) && forall k :: 0 <= k < |c| && k != i ==> JoinedAt(c, i, k)
  {
    ghost var n := |c|;
    assert c[i].next == c[After(i, n)] && c[i].prev == c[Before(i, n)];
    req.next.prev := req.prev;
    req.prev.next := req.next;
    forall k | 0 <= k < n && k != i ensures JoinedAt(c, i, k) {
      Neighbours(n, k, i);
      Neighbours(n, i, k);
      assert old(c[k].next) == c[After(k, n)] && old(c[k].prev) == c[Before(k, n)];
    }
  }

  /** `evdns_request_remove`. */
  method Remove(req: Request, head: Request?, ghost c: seq<Request>, ghost i: nat) returns (now: Request?)
    requires Ring(head, c) && i < |c| && c[i] == req
    modifies (set r | r in c)`next, (set r | r in c)`prev
    ensures Ring(now, Without(c, i)) && req.next == null && req.prev == null
  {
    hide JoinedAt, Without;
    assert c[i].next == c[After(i, |c|)];
    WithoutSize(c, i);
    if req.next == req {
      assert |c| == 1;
      now := null;
    } else {
      assert i == 0 ==> c[i].next == c[1];
      Join(req, c, i);
      now := if head == req then req.next else head;
      Joined(c, i, now);
    }
    Alone(req, now, Without(c, i));
  }

  /** A request that is in no ring. */
  method Alone(req: Request, ghost head: Request?, ghost c: seq<Request>)
    requires req !in c && Ring(head, c)
    modifies req`next, req`prev
    ensures req.next == null && req.prev == null && Ring(head, c)
  {
    req.next, req.prev := null, null;
  }

  // ---- Several rings at once

  /** No request is in two rings. */
  ghost predicate Apart(rings: seq<seq<Request>>) {
    forall j, k, r :: 0 <= j < |rings| && 0 <= k < |rings| && r in rings[j] && r in rings[k] ==> j == k
  }

  ghost predicate Within(c: seq<Request>, reqs: set<Request>) {
    forall r :: r in c ==> r in reqs
  }

  ghost predicate Pool(heads: seq<Request?>, rings: seq<seq<Request>>, reqs: set<Request>)
    reads reqs`next, reqs`prev
  {
    && |heads| == |rings| && Apart(rings)
    && forall k {:trigger rings[k]} :: 0 <= k < |rings| ==> Within(rings[k], reqs) && Ring(heads[k], rings[k])
  }

  method RemoveFrom(req: Request, head: Request?, ghost heads: seq<Request?>, ghost rings: seq<seq<Request>>,
                    ghost reqs: set<Request>, ghost k: nat, ghost i: nat)
    returns (now: Request?)
    requires Pool(heads, rings, reqs) && k < |rings| && heads[k] == head && i < |rings[k]| && rings[k][i] == req
    modifies reqs`next, reqs`prev
    ensures Pool(heads[k := now], rings[k := Without(rings[k], i)], reqs)
    ensures req.next == null && req.prev == null
  {
    hide Without, Ring;
    WithoutSize(rings[k], i);
    assert Within(rings[k], reqs);
    now := Remove(req, head, rings[k], i);
    forall j | 0 <= j < |rings| && j != k ensures Ring(heads[j], rings[j]) {
      assert Within(rings[j], reqs);
      assert forall r :: r in rings[j] ==> r !in rings[k];
    }
  }

  method InsertInto(req: Request, head: Request?, ghost heads: seq<Request?>, ghost rings: seq<seq<Request>>,
                    ghost reqs: set<Request>, ghost k: nat)
    returns (now: Request)
    requires Pool(heads, rings, reqs) && k < |rings| && heads[k] == head
    requires req in reqs && forall j :: 0 <= j < |rings| ==> req !in rings[j]
    modifies reqs`next, reqs`prev
    ensures Pool(heads[k := now], rings[k := rings[k] + [req]], reqs)
  {
    hide Ring;
    assert Within(rings[k], reqs);
    now := Insert(req, head, rings[k]);
    forall j | 0 <= j < |rings| && j != k ensures Ring(heads[j], rings[j]) {
      assert Within(rings[j], reqs);
      assert forall r :: r in rings[j] ==> r !in rings[k] + [req];
    }
  }
}
