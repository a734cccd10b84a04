/** Bandwidth suspension of a bufferevent: its bucket, its suspend flags, its refill timer and its back end. */
module RateLimit {
  import opened Common
  import opened TokenBucket

  /** Why reading or writing is suspended; `Bandwidth` is `BEV_SUSPEND_BW`. */
  datatype Flag = Watermark | Bandwidth | GroupBandwidth | Lookup | FilterRead

  datatype Side = Side(enabled: bool, suspended: set<Flag>, backend: bool)

  /** The back end is on exactly when this direction is enabled and nothing suspends it. */
  predicate InStep(s: Side) {
    s.backend <==> s.enabled && s.suspended == {}
  }

  class Bufferevent {
    var read: Side
    var write: Side
    /** The configuration of `rate_limiting`, if there is one. */
    var config: ConfigResult
    var bucket: Bucket
    var refillPending: bool

    /** What always holds outside the refill callback. */
    ghost predicate Fine() reads this {
      Limited() && (config.SomeConfig? ==> ValidBucket(bucket, config.cfg))
    }

    /** Limits, suspension and timer are in step. */
    ghost predicate Limited() reads this {
      && InStep(read) && InStep(write)
      && (if config.SomeConfig? then
            && ValidConfig(config.cfg)
            && (bucket.readLimit <= 0 ==> Bandwidth in read.suspended)
            && (bucket.writeLimit <= 0 ==> Bandwidth in write.suspended)
            && (Bandwidth in read.suspended || Bandwidth in write.suspended ==> refillPending)
          else Bandwidth !in read.suspended && Bandwidth !in write.suspended && !refillPending)
    }

    constructor ()
      ensures Fine() && config == NoConfig && !read.enabled && !write.enabled
    {
      read, write := Side(false, {}, false), Side(false, {}, false);
      config, bucket, refillPending := NoConfig, Bucket(0, 0, 0), false;
    }

    // ---- Suspending and enabling

    /** `bufferevent_suspend_read_`. */
    method SuspendRead(what: set<Flag>)
      modifies this`read
      ensures read == Suspended(old(read), what)
    {
      if read.suspended == {} { read := read.(backend := false); }
      read := read.(suspended := read.suspended + what);
    }

    /** `bufferevent_unsuspend_read_`. */
    method UnsuspendRead(what: set<Flag>)
      modifies this`read
      ensures read == Unsuspended(old(read), what)
    {
      read := read.(suspended := read.suspended - what);
      if read.suspended == {} && read.enabled { read := read.(backend := true); }
    }

    /** `bufferevent_suspend_write_`. */
    method SuspendWrite(what: set<Flag>)
      modifies this`write
      ensures write == Suspended(old(write), what)
    {
      if write.suspended == {} { write := write.(backend := false); }
      write := write.(suspended := write.suspended + what);
    }

    /** `bufferevent_unsuspend_write_`. */
    method UnsuspendWrite(what: set<Flag>)
      modifies this`write
      ensures write == Unsuspended(old(write), what)
    {
      write := write.(suspended := write.suspended - what);
      if write.suspended == {} && write.enabled { write := write.(backend := true); }
    }

    /** Suspension for another reason than bandwidth. */
    method Suspend(reading: bool, what: set<Flag>)
      requires Fine() && what != {} && Bandwidth !in what
      modifies this
      ensures Fine() && read == (if reading then Suspended(old(read), what) else old(read))
      ensures write == if reading then old(write) else Suspended(old(write), what)
    {
      if reading { SuspendRead(what); } else { SuspendWrite(what); }
    }

    method Unsuspend(reading: bool, what: set<Flag>)
      requires Fine() && what != {} && Bandwidth !in what
      modifies this
      ensures Fine() && read == (if reading then Unsuspended(old(read), what) else old(read))
      ensures write == if reading then old(write) else Unsuspended(old(write), what)
    {
      if reading { UnsuspendRead(what); } else { UnsuspendWrite(what); }
    }

    /** `bufferevent_enable`: a suspended direction's back end stays off. */
    method Enable(reading: bool, writing: bool)
      requires Fine()
      modifies this`read, this`write
      ensures Fine() && read.suspended == old(read.suspended) && write.suspended == old(write.suspended)
      ensures read.enabled == (reading || old(read.enabled)) && write.enabled == (writing || old(write.enabled))
    {
      var implRead := reading && read.suspended == {};
      var implWrite := writing && write.suspended == {};
      if reading { read := read.(enabled := true); }
      if writing { write := write.(enabled := true); }
      if implRead { read := read.(backend := true); }
      if implWrite { write := write.(backend := true); }
    }

    /** `bufferevent_disable`. */
    method Disable(reading: bool, writing: bool)
      requires Fine()
      modifies this`read, this`write
      ensures Fine() && read.suspended == old(read.suspended) && write.suspended == old(write.suspended)
      ensures read.enabled == (!reading && old(read.enabled)) && write.enabled == (!writing && old(write.enabled))
    {
      if reading { read := read.(enabled := false, backend := false); }
      if writing { write := write.(enabled := false, backend := false); }
    }

    // ---- The bucket

    /** `bufferevent_get_rlim_max_` without a group. */
    method GetMax(reading: bool, single: nat, now: nat) returns (max: nat)
      requires Fine() && now < U32
      modifies this`bucket
      ensures Fine()
      ensures if config.NoConfig? then max == single && bucket == old(bucket)
              else bucket == Updated(old(bucket), config.cfg, now)
                   && max == if reading then Max(bucket.readLimit, 0) else Max(bucket.writeLimit, 0)
    {
      if config.NoConfig? { return single; }
      if now != bucket.lastUpdated {
        var b, updated := Update(bucket, config.cfg, now);
        RefillKeeps(bucket, config.cfg, now);
        bucket := b;
      }
      var limit := if reading then bucket.readLimit else bucket.writeLimit;
      max := if limit < 0 then 0 else limit;
    }

    /** `bufferevent_decrement_read_buckets_` and `bufferevent_decrement_write_buckets_` without a group. */
    method DecrementBuckets(reading: bool, bytes: nat)
      requires Fine() && (config.SomeConfig? ==> ValidBucket(Spent(bucket, reading, bytes), config.cfg))
      modifies this`read, this`write, this`bucket, this`refillPending
      ensures Fine() && read.enabled == old(read.enabled) && write.enabled == old(write.enabled)
      ensures config.SomeConfig? ==> bucket == Spent(old(bucket), reading, bytes)
      ensures config.SomeConfig? ==>
        && bucket.readLimit == old(bucket.readLimit) - (if reading then bytes else 0)
        && bucket.writeLimit == old(bucket.writeLimit) - (if reading then 0 else bytes)
        && bucket.lastUpdated == old(bucket.lastUpdated)
      ensures config.NoConfig? ==> bucket == old(bucket) && read == old(read) && write == old(write)
      ensures config.SomeConfig? && reading ==>
        write == old(write) && (Bandwidth in read.suspended <==> bucket.readLimit <= 0)
      ensures config.SomeConfig? && !reading ==>
        read == old(read) && (Bandwidth in write.suspended <==> bucket.writeLimit <= 0)
    {
      if config.NoConfig? { return; }
      if reading {
        bucket := bucket.(readLimit := bucket.readLimit - bytes);
        if bucket.readLimit <= 0 {
          SuspendRead({Bandwidth});
          refillPending := true;
        } else if Bandwidth in read.suspended {
          if Bandwidth !in write.suspended { refillPending := false; }
          UnsuspendRead({Bandwidth});
        }
      } else {
        bucket := bucket.(writeLimit := bucket.writeLimit - bytes);
        if bucket.writeLimit <= 0 {
          SuspendWrite({Bandwidth});
          refillPending := true;
        } else if Bandwidth in write.suspended {
          if Bandwidth !in read.suspended { refillPending := false; }
          UnsuspendWrite({Bandwidth});
        }
      }
    }

    /** `bufferevent_decrement_read_limit` and `bufferevent_decrement_write_limit`; a negative decrement gives tokens
        back, and nothing keeps the limit from going above its maximum.  The new limit must fit its integer type. */
    method DecrementLimit(reading: bool, decr: int)
      requires Fine() && config.SomeConfig?
      requires -(RATE_MAX as int) - 1 <= Limit(bucket, if reading then Reading else Writing) - decr <= RATE_MAX
      modifies this`read, this`write, this`bucket, this`refillPending
      ensures Limited() && bucket == Spent(old(bucket), reading, decr)
      ensures bucket.readLimit == old(bucket.readLimit) - (if reading then decr else 0)
      ensures bucket.writeLimit == old(bucket.writeLimit) - (if reading then 0 else decr)
      ensures bucket.lastUpdated == old(bucket.lastUpdated)
      ensures Fine() <==>
        bucket.readLimit <= config.cfg.readMaximum && bucket.writeLimit <= config.cfg.writeMaximum
      ensures read.enabled == old(read.enabled) && write.enabled == old(write.enabled)
      ensures if reading then write == old(write) else read == old(read)
      ensures (old(bucket.readLimit) > 0) != (bucket.readLimit > 0) ==>
        (Bandwidth in read.suspended <==> bucket.readLimit <= 0)
      ensures (old(bucket.writeLimit) > 0) != (bucket.writeLimit > 0) ==>
        (Bandwidth in write.suspended <==> bucket.writeLimit <= 0)
    {
      if reading {
        var before := bucket.readLimit;
        bucket := bucket.(readLimit := bucket.readLimit - decr);
        if before > 0 && bucket.readLimit <= 0 {
          SuspendRead({Bandwidth});
          refillPending := true;
        } else if before <= 0 && bucket.readLimit > 0 {
          if Bandwidth !in write.suspended { refillPending := false; }
          UnsuspendRead({Bandwidth});
        }
      } else {
        var before := bucket.writeLimit;
        bucket := bucket.(writeLimit := bucket.writeLimit - decr);
        if before > 0 && bucket.writeLimit <= 0 {
          SuspendWrite({Bandwidth});
          refillPending := true;
        } else if before <= 0 && bucket.writeLimit > 0 {
          if Bandwidth !in read.suspended { refillPending := false; }
          UnsuspendWrite({Bandwidth});
        }
      }
    }

    /** `bev_refill_callback_`, run when the refill timer goes off; a direction stays suspended, with the timer set
        again, exactly when its limit is still not above zero. */
    method RefillCallback(now: nat)
      requires Fine() && refillPending && now < U32
      modifies this
      ensures Fine() && config == old(config) && config.SomeConfig? && bucket == Updated(old(bucket), config.cfg, now)
      ensures Bandwidth in read.suspended <==> Bandwidth in old(read.suspended) && bucket.readLimit <= 0
      ensures Bandwidth in write.suspended <==> Bandwidth in old(write.suspended) && bucket.writeLimit <= 0
      ensures refillPending <==> Bandwidth in read.suspended || Bandwidth in write.suspended
    {
      refillPending := false;
      var again := false;
      var b, updated := Update(bucket, config.cfg, now);
      RefillKeeps(bucket, config.cfg, now);
      bucket := b;
      if Bandwidth in read.suspended {
        if bucket.readLimit > 0 { UnsuspendRead({Bandwidth}); } else { again := true; }
      }
      if Bandwidth in write.suspended {
        if bucket.writeLimit > 0 { UnsuspendWrite({Bandwidth}); } else { again := true; }
      }
      if again { refillPending := true; }
    }

    /** `bufferevent_set_rate_limit`, where `same` says that the configuration is the very one that is set; a new
        one takes what is left of the old one's bucket, cut down to the new maximum. */
    method SetRateLimit(cfg: ConfigResult, same: bool, now: nat)
      requires Fine() && now < U32 && (cfg.SomeConfig? ==> ValidConfig(cfg.cfg))
      requires same ==> cfg == config
      modifies this
      ensures Fine() && config == cfg && read.enabled == old(read.enabled) && write.enabled == old(write.enabled)
      ensures cfg.SomeConfig? && !same ==> bucket == Initialised(old(bucket), old(config), cfg.cfg, now)
      ensures cfg.SomeConfig? && old(config).NoConfig? ==>
        bucket.readLimit == cfg.cfg.readRate && bucket.writeLimit == cfg.cfg.writeRate && bucket.lastUpdated == now
      ensures cfg.SomeConfig? && old(config).SomeConfig? && !same ==>
        && bucket.readLimit == Min(old(bucket.readLimit), cfg.cfg.readMaximum)
        && bucket.writeLimit == Min(old(bucket.writeLimit), cfg.cfg.writeMaximum)
        && bucket.lastUpdated == old(bucket.lastUpdated)
      ensures same || cfg.NoConfig? ==> bucket == old(bucket)
      ensures cfg.SomeConfig? && !same ==>
        && (Bandwidth in read.suspended <==> bucket.readLimit <= 0)
        && (Bandwidth in write.suspended <==> bucket.writeLimit <= 0)
    {
      if cfg.NoConfig? {
        config := NoConfig;
        UnsuspendRead({Bandwidth});
        UnsuspendWrite({Bandwidth});
        refillPending := false;
        return;
      }
      if same { return; }
      var reinit := config.SomeConfig?;
      config := cfg;
      if reinit {
        if bucket.readLimit > cfg.cfg.readMaximum { bucket := bucket.(readLimit := cfg.cfg.readMaximum); }
        if bucket.writeLimit > cfg.cfg.writeMaximum { bucket := bucket.(writeLimit := cfg.cfg.writeMaximum); }
        refillPending := false;
      } else {
        bucket := Bucket(cfg.cfg.readRate, cfg.cfg.writeRate, now);
      }
      SuspendByLimits();
    }

    /** Suspends the directions that have nothing left, and no others. */
    method SuspendByLimits()
      requires InStep(read) && InStep(write)
      modifies this`read, this`write, this`refillPending
      ensures read ==
        if bucket.readLimit > 0 then Unsuspended(old(read), {Bandwidth}) else Suspended(old(read), {Bandwidth})
      ensures write ==
        if bucket.writeLimit > 0 then Unsuspended(old(write), {Bandwidth}) else Suspended(old(write), {Bandwidth})
      ensures InStep(read) && InStep(write)
      ensures refillPending == (old(refillPending) || bucket.readLimit <= 0 || bucket.writeLimit <= 0)
    {
      var suspended := false;
      if bucket.readLimit > 0 {
        UnsuspendRead({Bandwidth});
      } else {
        SuspendRead({Bandwidth});
        suspended := true;
      }
      if bucket.writeLimit > 0 {
        UnsuspendWrite({Bandwidth});
      } else {
        SuspendWrite({Bandwidth});
        suspended := true;
      }
      if suspended { refillPending := true; }
    }
  }

  /** A token given back to a full bucket takes the limit above its maximum. */
  method AboveMaximum() returns (b: Bufferevent)
    ensures fresh(b) && b.config == SomeConfig(Config(1, 1, 1, 1, 1000)) && b.bucket.readLimit == 2
    ensures b.Limited() && !b.Fine()
  {
    b := new Bufferevent();
    b.SetRateLimit(SomeConfig(Config(1, 1, 1, 1, 1000)), false, 0);
    b.DecrementLimit(true, -1);
  }

  function Suspended(s: Side, what: set<Flag>): Side {
    s.(suspended := s.suspended + what, backend := s.backend && s.suspended != {})
  }

  function Unsuspended(s: Side, what: set<Flag>): Side {
    s.(suspended := s.suspended - what, backend := s.backend || (s.suspended - what == {} && s.enabled))
  }

  /** Suspending for something and unsuspending it again gives the direction back as it was. */
  lemma SuspendUnsuspend(s: Side, what: set<Flag>)
    requires InStep(s) && what != {} && s.suspended !! what
    ensures InStep(Suspended(s, what)) && !Suspended(s, what).backend
    ensures Unsuspended(Suspended(s, what), what) == s
  {
    assert s.suspended + what - what == s.suspended;
    assert what <= s.suspended + what;
    if s.suspended != {} {
      var x :| x in s.suspended;
      assert x in s.suspended + what && x !in what;
    }
  }

  /** The bucket after bytes have been moved. */
  function Spent(b: Bucket, reading: bool, bytes: int): Bucket {
    if reading then b.(readLimit := b.readLimit - bytes) else b.(writeLimit := b.writeLimit - bytes)
  }

  /** `ev_token_bucket_init_`. */
  function Initialised(b: Bucket, before: ConfigResult, cfg: Config, now: nat): Bucket {
    if before.SomeConfig? then
      b.(readLimit := Min(b.readLimit, cfg.readMaximum), writeLimit := Min(b.writeLimit, cfg.writeMaximum))
    else Bucket(cfg.readRate, cfg.writeRate, now)
  }

  /** A refill takes nothing away. */
  lemma RefillKeeps(b: Bucket, cfg: Config, now: nat)
    requires ValidConfig(cfg) && ValidBucket(b, cfg)
    ensures Updated(b, cfg, now).readLimit >= b.readLimit && Updated(b, cfg, now).writeLimit >= b.writeLimit
  {
    assert Ticks(b.lastUpdated, now) * cfg.readRate >= 0 && Ticks(b.lastUpdated, now) * cfg.writeRate >= 0;
  }

  function SideOf(b: Bufferevent, reading: bool): Side
    reads b
  {
    if reading then b.read else b.write
  }

  /** What n callbacks at these ticks have brought. */
  lemma Progress(b: Bucket, cfg: Config, d: Direction, from: nat, ticks: seq<nat>, n: nat)
    requires ValidConfig(cfg) && ValidBucket(b, cfg) && b.lastUpdated == from % U32 && Rising(from, ticks)
    requires n <= |ticks| == Owed(b, cfg, d) + 1
    ensures Rising(from, ticks[..n])
    ensures Limit(b, d) <= 0 ==>
      && (n > 0 ==> (Limit(AfterAll(b, cfg, ticks[..n]), d) > 0 <==> |ticks| - 1 < ticks[n - 1] - from))
      && (n == |ticks| ==> Limit(AfterAll(b, cfg, ticks[..n]), d) > 0)
  {
    hide AfterAll, Rising, Owed, ValidBucket;
    if n == 0 { NoneRising(from, ticks); } else { AfterPush(b, cfg, from, ticks, n - 1); }
    if Limit(b, d) <= 0 { KeepsRefilling(b, cfg, d, from, ticks[..n]); }
  }

  lemma NoneRising(from: nat, ticks: seq<nat>)
    ensures ticks[..0] == [] && Rising(from, [])
  {
  }

  lemma NoneAfter(b: Bucket, cfg: Config, ticks: seq<nat>)
    ensures AfterAll(b, cfg, ticks[..0]) == b
  {
  }

  /** With one configuration bandwidth stops suspending a direction at the first callback that comes more ticks after
      the last update than are owed; each callback comes at least a tick after the last, so one more than these are
      enough.  `n` is how many there were. */
  method RunsAgain(b: Bufferevent, reading: bool, from: nat, ticks: seq<nat>) returns (n: nat)
    requires b.Fine() && b.config.SomeConfig? && Bandwidth in SideOf(b, reading).suspended
    requires b.bucket.lastUpdated == from % U32 && Rising(from, ticks)
    requires |ticks| == Owed(b.bucket, b.config.cfg, Toward(reading)) + 1
    modifies b
    ensures b.Fine() && b.config == old(b.config) && Bandwidth !in SideOf(b, reading).suspended
    ensures 1 <= n <= |ticks|
    ensures old(Limit(b.bucket, Toward(reading))) <= 0 ==>
      && |ticks| - 1 < ticks[n - 1] - from
      && (n > 1 ==> ticks[n - 2] - from <= |ticks| - 1)
    ensures old(Limit(b.bucket, Toward(reading))) > 0 ==> n == 1
  {
    hide AfterAll, Updated, Rising, Owed, ValidBucket;
    ghost var was, cfg, d := b.bucket, b.config.cfg, Toward(reading);
    n := 0;
    NoneAfter(was, cfg, ticks);
    NoneRising(from, ticks);
    while Bandwidth in SideOf(b, reading).suspended
      invariant n <= |ticks| && b.Fine() && b.config == old(b.config)
      invariant n == 0 ==> Bandwidth in SideOf(b, reading).suspended
      invariant Rising(from, ticks[..n]) && b.bucket == AfterAll(was, cfg, ticks[..n])
      invariant n > 0 ==> (Bandwidth in SideOf(b, reading).suspended <==> Limit(b.bucket, d) <= 0)
      invariant Limit(was, d) > 0 && n > 0 ==> Limit(b.bucket, d) > 0 && n == 1
      invariant Limit(was, d) <= 0 && n > 1 ==> ticks[n - 2] - from <= |ticks| - 1
      decreases |ticks| - n
    {
      Progress(was, cfg, d, from, ticks, n);
      AfterPush(was, cfg, from, ticks, n);
      RefillKeeps(b.bucket, cfg, ticks[n] % U32);
      b.RefillCallback(ticks[n] % U32);
      n := n + 1;
    }
    Progress(was, cfg, d, from, ticks, n);
  }

  function Toward(reading: bool): Direction {
    if reading then Reading else Writing
  }

  const FAST := Config(1, 1, 1, 1, 1)
  const SLOW := Config(1, 1, 1, 1, 1000)
  /** A time in the year 2023, in milliseconds. */
  const THEN: nat := 1_700_000_000_000

  lemma FastAndSlow(later: nat)
    requires later <= THEN
    ensures ValidConfig(FAST) && ValidConfig(SLOW)
    ensures TickAt(THEN, FAST) == 3487918080 && TickAt(THEN, SLOW) == 1700000000
    ensures Ticks(3487918080, TickAt(THEN + later, SLOW)) > INT_MAX
  {
    var j := (THEN + later) / 1000 - 1700000000;
    assert j <= 1700000000 && TickAt(THEN + later, SLOW) == (1700000000 + j) % U32;
    BehindTicks(1700000000, 1787918080, j);
  }

  /** A longer tick is set while reading is suspended.  The last update was counted in the shorter one and seems to lie
      ahead, so that no callback brings a token, whenever it comes in the next 53 years. */
  method Starved(later: seq<nat>) returns (b: Bufferevent)
    requires forall i :: 0 <= i < |later| ==> later[i] <= THEN
    ensures fresh(b) && b.Fine() && b.config == SomeConfig(SLOW) && b.bucket.readLimit == 0
    ensures Bandwidth in b.read.suspended && b.refillPending
  {
    hide Ticks;
    FastAndSlow(0);
    b := new Bufferevent();
    b.SetRateLimit(SomeConfig(FAST), false, TickAt(THEN, FAST));
    b.DecrementBuckets(true, 1);
    b.SetRateLimit(SomeConfig(SLOW), false, TickAt(THEN, SLOW));
    for i := 0 to |later|
      invariant b.Fine() && b.config == SomeConfig(SLOW) && b.bucket == Bucket(0, 1, 3487918080)
      invariant Bandwidth in b.read.suspended && b.refillPending
    {
      FastAndSlow(later[i]);
      b.RefillCallback(TickAt(THEN + later[i], SLOW));
    }
  }

  // ---- Transfers

  /** The bucket after transfers. */
  function AfterMoves(b: Bucket, cfg: Config, ms: seq<Move>): Bucket {
    if ms == [] then b else Moved(AfterMoves(b, cfg, ms[..|ms| - 1]), cfg, ms[|ms| - 1])
  }

  /** Ticks do not run back. */
  predicate InTime(from: nat, ms: seq<Move>) {
    (ms == [] || from <= ms[0].tick) && forall i, j :: 0 <= i < j < |ms| ==> ms[i].tick <= ms[j].tick
  }

  /** Each transfer moves what it may at its tick, after those before it. */
  predicate AllObey(b: Bucket, cfg: Config, ms: seq<Move>) {
    forall i :: 0 <= i < |ms| ==> ms[i].bytes <= Allowed(AfterMoves(b, cfg, ms[..i]), cfg, ms[i].d, ms[i].tick)
  }

  lemma {:induction false} ValidAfter(b: Bucket, cfg: Config, ms: seq<Move>)
    requires ValidConfig(cfg) && ValidBucket(b, cfg) && AllObey(b, cfg, ms)
    ensures ValidBucket(AfterMoves(b, cfg, ms), cfg)
  {
    hide Allowed, Moved, ValidBucket;
    if ms != [] {
      var n := |ms| - 1;
      assert forall i :: 0 <= i < n ==> ms[..n][..i] == ms[..i] && ms[..n][i] == ms[i];
      ValidAfter(b, cfg, ms[..n]);
      MovedValid(AfterMoves(b, cfg, ms[..n]), cfg, ms[n]);
    }
  }

  lemma MovedValid(b: Bucket, cfg: Config, m: Move)
    requires ValidConfig(cfg) && ValidBucket(b, cfg) && m.bytes <= Allowed(b, cfg, m.d, m.tick)
    ensures ValidBucket(Moved(b, cfg, m), cfg)
  {
    RefillKeeps(b, cfg, m.tick % U32);
  }

  /** The transfers from the i-th to before the j-th obey, from the bucket that the first i have left. */
  lemma {:induction false} PartObeys(b: Bucket, cfg: Config, ms: seq<Move>, i: nat, j: nat, from: nat)
    requires i <= j <= |ms| && AllObey(b, cfg, ms) && InTime(from, ms)
    ensures Obeys(AfterMoves(b, cfg, ms[..i]), cfg, ms[i..j], if i == 0 then from else ms[i - 1].tick)
    decreases j - i
  {
    hide AfterMoves, Allowed, Moved;
    if i < j {
      PartObeys(b, cfg, ms, i + 1, j, from);
      assert ms[i..j][0] == ms[i] && ms[i..j][1..] == ms[i + 1..j];
      MovedNext(b, cfg, ms, i);
    } else {
      assert ms[i..j] == [];
    }
  }

  lemma MovedNext(b: Bucket, cfg: Config, ms: seq<Move>, i: nat)
    requires i < |ms|
    ensures AfterMoves(b, cfg, ms[..i + 1]) == Moved(AfterMoves(b, cfg, ms[..i]), cfg, ms[i])
  {
    assert ms[..i + 1][..i] == ms[..i];
  }

  lemma ObeysLater(b: Bucket, cfg: Config, ms: seq<Move>, from: nat)
    requires Obeys(b, cfg, ms, from) && ms != []
    ensures Obeys(b, cfg, ms, ms[0].tick)
  {
  }

  /** Between any two transfers of the run, in either direction, no more is moved than the burst and the rate for the
      ticks between. */
  ghost predicate WithinRate(ms: seq<Move>, cfg: Config) {
    forall i, j :: 0 <= i < j <= |ms| ==> PartWithinRate(ms, cfg, i, j)
  }

  ghost predicate PartWithinRate(ms: seq<Move>, cfg: Config, i: nat, j: nat)
    requires i < j <= |ms|
  {
    && ms[i].tick <= ms[j - 1].tick
    && Total(ms[i..j], Reading) <= cfg.readMaximum + (ms[j - 1].tick - ms[i].tick) * cfg.readRate
    && Total(ms[i..j], Writing) <= cfg.writeMaximum + (ms[j - 1].tick - ms[i].tick) * cfg.writeRate
  }

  lemma RunWithinRate(b: Bucket, cfg: Config, ms: seq<Move>, from: nat)
    requires ValidConfig(cfg) && ValidBucket(b, cfg) && AllObey(b, cfg, ms) && InTime(from, ms)
    ensures WithinRate(ms, cfg)
  {
    hide AfterMoves, Total, Obeys;
    forall i, j | 0 <= i < j <= |ms| ensures PartWithinRate(ms, cfg, i, j) {
      assert ms[i..j][0] == ms[i] && ms[i..j][j - i - 1] == ms[j - 1];
      PartObeys(b, cfg, ms, i, j, from);
      AllObeyFront(b, cfg, ms, i);
      ValidAfter(b, cfg, ms[..i]);
      ObeysLater(AfterMoves(b, cfg, ms[..i]), cfg, ms[i..j], if i == 0 then from else ms[i - 1].tick);
      BurstAndRate(AfterMoves(b, cfg, ms[..i]), cfg, ms[i..j], Reading);
      BurstAndRate(AfterMoves(b, cfg, ms[..i]), cfg, ms[i..j], Writing);
    }
  }

  lemma AllObeyFront(b: Bucket, cfg: Config, ms: seq<Move>, i: nat)
    requires AllObey(b, cfg, ms) && i <= |ms|
    ensures AllObey(b, cfg, ms[..i])
  {
    hide AfterMoves;
    forall k | 0 <= k < i
      ensures ms[..i][k].bytes <= Allowed(AfterMoves(b, cfg, ms[..i][..k]), cfg, ms[..i][k].d, ms[..i][k].tick)
    {
      assert ms[..i][..k] == ms[..k];
    }
  }

  /** Any transfers that are wanted, each cut down to what may be moved at its tick. */
  method Transfer(b: Bufferevent, wanted: seq<Move>, from: nat) returns (moved: seq<Move>)
    requires b.Fine() && b.config.SomeConfig? && InTime(from, wanted)
    modifies b
    ensures b.Fine() && b.config == old(b.config) && |moved| == |wanted|
    ensures forall i :: 0 <= i < |moved| ==>
      moved[i].d == wanted[i].d && moved[i].tick == wanted[i].tick && moved[i].bytes <= wanted[i].bytes
    ensures WithinRate(moved, b.config.cfg)
  {
    hide AfterMoves, WithinRate, Updated, ValidBucket, AllObey, InTime;
    ghost var was, cfg := b.bucket, b.config.cfg;
    moved := [];
    NoMoves(was, cfg);
    for k := 0 to |wanted|
      invariant b.Fine() && b.config == old(b.config) && |moved| == k
      invariant forall i :: 0 <= i < k ==>
        moved[i].d == wanted[i].d && moved[i].tick == wanted[i].tick && moved[i].bytes <= wanted[i].bytes
      invariant AllObey(was, cfg, moved) && b.bucket == AfterMoves(was, cfg, moved)
    {
      var m := wanted[k];
      var max := b.GetMax(m.d == Reading, 0, m.tick % U32);
      var bytes: nat := if m.bytes < max then m.bytes else max;
      SpentValid(b.bucket, cfg, m.d == Reading, bytes);
      b.DecrementBuckets(m.d == Reading, bytes);
      OneMove(was, cfg, moved, Move(m.d, m.tick, bytes), b.bucket);
      moved := moved + [Move(m.d, m.tick, bytes)];
    }
    SameTimes(from, wanted, moved);
    RunWithinRate(was, cfg, moved, from);
  }

  lemma SameTimes(from: nat, a: seq<Move>, b: seq<Move>)
    requires InTime(from, a) && |a| == |b| && forall i :: 0 <= i < |a| ==> b[i].tick == a[i].tick
    ensures InTime(from, b)
  {
  }

  lemma NoMoves(b: Bucket, cfg: Config)
    ensures AllObey(b, cfg, []) && AfterMoves(b, cfg, []) == b
  {
  }

  lemma SpentValid(b: Bucket, cfg: Config, reading: bool, bytes: nat)
    requires ValidBucket(b, cfg) && bytes <= if reading then Max(b.readLimit, 0) else Max(b.writeLimit, 0)
    ensures ValidBucket(Spent(b, reading, bytes), cfg)
  {
  }

  lemma OneMove(b: Bucket, cfg: Config, ms: seq<Move>, m: Move, now: Bucket)
    requires AllObey(b, cfg, ms)
    requires m.bytes <= Allowed(AfterMoves(b, cfg, ms), cfg, m.d, m.tick)
    requires now == Moved(AfterMoves(b, cfg, ms), cfg, m)
    ensures AllObey(b, cfg, ms + [m]) && now == AfterMoves(b, cfg, ms + [m])
  {
    hide Allowed, Moved;
    assert (ms + [m])[..|ms|] == ms;
    forall i | 0 <= i < |ms| + 1
      ensures (ms + [m])[i].bytes <=
        Allowed(AfterMoves(b, cfg, (ms + [m])[..i]), cfg, (ms + [m])[i].d, (ms + [m])[i].tick)
    {
      if i < |ms| { assert (ms + [m])[..i] == ms[..i]; }
    }
  }
}
