/** Token buckets: what an update makes of a bucket, and how many bytes a run can move. */
module TokenBucket {
  import opened Common

  const U32: nat := 0x1_0000_0000
  const U64: nat := 0x1_0000_0000_0000_0000
  const INT_MAX: nat := 0x7fff_ffff
  const RATE_MAX: nat := 0x7fff_ffff_ffff_ffff

  /** `struct ev_token_bucket_cfg`. */
  datatype Config = Config(readRate: nat, readMaximum: nat, writeRate: nat, writeMaximum: nat, msecPerTick: nat)

  /** `struct ev_token_bucket`: signed limits, and the tick of the last update as an unsigned 32-bit number. */
  datatype Bucket = Bucket(readLimit: int, writeLimit: int, lastUpdated: nat)

  datatype ConfigResult = NoConfig | SomeConfig(cfg: Config)

  predicate ValidConfig(cfg: Config) {
    1 <= cfg.readRate <= cfg.readMaximum <= RATE_MAX && 1 <= cfg.writeRate <= cfg.writeMaximum <= RATE_MAX
  }

  /** The limits are signed 64-bit numbers, and no more than the maximum. */
  predicate ValidBucket(b: Bucket, cfg: Config) {
    && -(RATE_MAX as int) - 1 <= b.readLimit <= cfg.readMaximum
    && -(RATE_MAX as int) - 1 <= b.writeLimit <= cfg.writeMaximum
    && b.lastUpdated < U32
  }

  /** `ev_token_bucket_cfg_new`; the tick is given in seconds and microseconds. */
  method ConfigNew(readRate: nat, readBurst: nat, writeRate: nat, writeBurst: nat, sec: nat, usec: nat)
    returns (r: ConfigResult)
    ensures r.SomeConfig? <==>
      ValidConfig(Config(readRate, readBurst, writeRate, writeBurst, (sec * 1000 + usec / 1000) % U32))
    ensures r.SomeConfig? ==>
      r.cfg == Config(readRate, readBurst, writeRate, writeBurst, (sec * 1000 + usec / 1000) % U32)
  {
    if readRate > readBurst || writeRate > writeBurst || readRate < 1 || writeRate < 1 { return NoConfig; }
    if readRate > RATE_MAX || writeRate > RATE_MAX || readBurst > RATE_MAX || writeBurst > RATE_MAX {
      return NoConfig;
    }
    return SomeConfig(Config(readRate, readBurst, writeRate, writeBurst, (sec * 1000 + usec / 1000) % U32));
  }

  /** `ev_token_bucket_get_tick_`, for a time in milliseconds. */
  function TickAt(msec: nat, cfg: Config): (tick: nat)
    requires cfg.msecPerTick > 0
    ensures tick < U32
  {
    msec / cfg.msecPerTick % U32
  }

  /** A tick of less than a millisecond is accepted, although no time can then be divided into ticks. */
  method NoTick() returns (r: ConfigResult)
    ensures r == SomeConfig(Config(1, 1, 1, 1, 0)) && ValidConfig(r.cfg)
  {
    r := ConfigNew(1, 1, 1, 1, 0, 999);
  }

  /** The ticks since the last update, in unsigned 32-bit arithmetic. */
  function Ticks(last: nat, now: nat): (n: nat)
    ensures n < U32
  {
    (now - last) % U32
  }

  /** What an update should make of a bucket: the tokens of the ticks that have passed, up to the maximum.  Ticks that
      run back, or too far ahead to be told from that, count for nothing. */
  function Updated(b: Bucket, cfg: Config, now: nat): Bucket {
    var n := Ticks(b.lastUpdated, now);
    if n == 0 || n > INT_MAX then b
    else Bucket(Min(b.readLimit + n * cfg.readRate, cfg.readMaximum),
                Min(b.writeLimit + n * cfg.writeRate, cfg.writeMaximum), now)
  }

  /** The signed number with these 64 bits. */
  function Signed(x: nat): int
    requires x < U64
  {
    if x <= RATE_MAX then x else x - U64
  }

  /** One direction of the refill, in unsigned 64-bit arithmetic, where the division keeps the product from
      overflowing.  It clips at the maximum exactly when the limit was not above the maximum before, or so many tokens
      are due that the difference that has wrapped around is not enough either. */
  method Refill(limit: int, rate: nat, maximum: nat, n: nat) returns (r: int)
    requires 1 <= rate <= maximum <= RATE_MAX && -(RATE_MAX as int) - 1 <= limit <= RATE_MAX && 0 < n <= INT_MAX
    ensures r == Min(limit + n * rate, maximum) <==> limit <= maximum || n * rate >= U64 - (limit - maximum)
  {
    var space: nat := (maximum - limit) % U64;
    assert space == if limit <= maximum then maximum - limit else U64 - (limit - maximum);
    Quotient(space, n, rate);
    if space / n < rate {
      r := maximum;
    } else {
      var more := n * rate % U64;
      assert more == n * rate && more > 0 by { Times(1, n, rate); }
      r := Signed((limit + more) % U64);
      assert limit <= maximum ==> limit + more <= maximum;
      assert limit > maximum ==>
        (limit + more) % U64 == if limit + more < U64 then limit + more else limit + more - U64;
    }
  }

  lemma Quotient(x: nat, n: nat, rate: nat)
    requires n > 0
    ensures x / n < rate <==> x < n * rate
  {
    var q, m := x / n, x % n;
    assert x == n * q + m;
    if q < rate {
      assert n * (q + 1) <= n * rate;
    } else {
      assert n * rate <= n * q;
    }
  }

  /** `ev_token_bucket_update_`. */
  method Update(b: Bucket, cfg: Config, now: nat) returns (r: Bucket, updated: bool)
    requires ValidConfig(cfg) && ValidBucket(b, cfg) && now < U32
    ensures r == Updated(b, cfg, now) && ValidBucket(r, cfg) && (updated <==> 0 < Ticks(b.lastUpdated, now) <= INT_MAX)
    ensures updated ==>
      && r.readLimit == Min(b.readLimit + Ticks(b.lastUpdated, now) * cfg.readRate, cfg.readMaximum)
      && r.writeLimit == Min(b.writeLimit + Ticks(b.lastUpdated, now) * cfg.writeRate, cfg.writeMaximum)
      && r.lastUpdated == now
    ensures !updated ==> r == b
  {
    hide Ticks;
    var n := Ticks(b.lastUpdated, now);
    if n == 0 || n > INT_MAX { return b, false; }
    var read := Refill(b.readLimit, cfg.readRate, cfg.readMaximum, n);
    var write := Refill(b.writeLimit, cfg.writeRate, cfg.writeMaximum, n);
    Times(0, n, cfg.readRate);
    Times(0, n, cfg.writeRate);
    return Bucket(read, write, now), true;
  }

  /** Two updates do what one at the later tick does exactly when the ticks between are no more than an update
      takes at once. */
  lemma SplitUpdate(b: Bucket, cfg: Config, n1: nat, n2: nat)
    requires ValidConfig(cfg) && ValidBucket(b, cfg) && n1 <= INT_MAX && n2 <= INT_MAX
    ensures var t1, t2 := (b.lastUpdated + n1) % U32, (b.lastUpdated + n1 + n2) % U32;
      Updated(Updated(b, cfg, t1), cfg, t2) == Updated(b, cfg, t2) <==> n1 + n2 <= INT_MAX
  {
    hide Ticks;
    var t1, t2 := (b.lastUpdated + n1) % U32, (b.lastUpdated + n1 + n2) % U32;
    TicksAre(b.lastUpdated, n1);
    TicksAre(b.lastUpdated, n1 + n2);
    var c := Updated(b, cfg, t1);
    TicksOn(b.lastUpdated, n1, n2);
    Times(0, n1, cfg.readRate);
    Times(0, n1, cfg.writeRate);
    Steps(b.readLimit, cfg.readRate, cfg.readMaximum, n1, n2);
    Steps(b.writeLimit, cfg.writeRate, cfg.writeMaximum, n1, n2);
  }

  lemma TicksAre(last: nat, n: nat)
    requires last < U32 && n < U32
    ensures Ticks(last, (last + n) % U32) == n
  {
  }

  lemma TicksOn(last: nat, n1: nat, n2: nat)
    requires last < U32 && n1 + n2 < U32
    ensures Ticks((last + n1) % U32, (last + n1 + n2) % U32) == n2
  {
  }

  lemma Steps(limit: int, rate: nat, maximum: nat, n1: nat, n2: nat)
    requires limit <= maximum
    ensures Min(Min(limit + n1 * rate, maximum) + n2 * rate, maximum) == Min(limit + (n1 + n2) * rate, maximum)
  {
    assert (n1 + n2) * rate == n1 * rate + n2 * rate;
  }

  // ---- How much a run can move

  datatype Direction = Reading | Writing

  function Limit(b: Bucket, d: Direction): int {
    if d == Reading then b.readLimit else b.writeLimit
  }

  function Rate(cfg: Config, d: Direction): nat {
    if d == Reading then cfg.readRate else cfg.writeRate
  }

  function Maximum(cfg: Config, d: Direction): nat {
    if d == Reading then cfg.readMaximum else cfg.writeMaximum
  }

  /** A transfer: the tick at which it happens, counted without wrapping around, and the bytes that are moved. */
  datatype Move = Move(d: Direction, tick: nat, bytes: nat)

  /** What `bufferevent_get_rlim_max_` allows at a tick. */
  function Allowed(b: Bucket, cfg: Config, d: Direction, tick: nat): nat {
    Max(Limit(Updated(b, cfg, tick % U32), d), 0)
  }

  function Moved(b: Bucket, cfg: Config, m: Move): Bucket {
    var c := Updated(b, cfg, m.tick % U32);
    if m.d == Reading then c.(readLimit := c.readLimit - m.bytes) else c.(writeLimit := c.writeLimit - m.bytes)
  }

  /** Time does not run back, and every transfer obeys the limit. */
  predicate Obeys(b: Bucket, cfg: Config, ms: seq<Move>, from: nat)
    decreases |ms|
  {
    ms == [] || (from <= ms[0].tick && ms[0].bytes <= Allowed(b, cfg, ms[0].d, ms[0].tick)
                 && Obeys(Moved(b, cfg, ms[0]), cfg, ms[1..], ms[0].tick))
  }

  /** The bytes moved in one direction. */
  function Total(ms: seq<Move>, d: Direction): nat {
    if ms == [] then 0 else (if ms[0].d == d then ms[0].bytes else 0) + Total(ms[1..], d)
  }

  /** After an attempt to update, what is still owed is nothing, or too much to be counted. */
  predicate Settled(b: Bucket, tick: nat) {
    var n := Ticks(b.lastUpdated, tick % U32);
    n == 0 || n > INT_MAX
  }

  lemma SettledAfter(b: Bucket, cfg: Config, tick: nat)
    requires b.lastUpdated < U32
    ensures Settled(Updated(b, cfg, tick % U32), tick)
  {
  }

  lemma TicksLater(last: nat, from: nat, tick: nat)
    requires last < U32 && from <= tick
    ensures Ticks(last, tick % U32) == (Ticks(last, from % U32) + (tick - from)) % U32
  {
  }

  lemma ModBelow(m: nat, d: nat)
    requires m < U32
    ensures m == 0 ==> (m + d) % U32 <= d
    ensures m + d >= U32 ==> (m + d) % U32 < d
    ensures m + d < U32 ==> (m + d) % U32 == m + d
  {
    if m + d >= U32 {
      assert (m + d) % U32 == (m + d - U32) % U32 <= m + d - U32;
    }
  }

  /** A settled bucket gets no more tokens than the ticks that pass. */
  lemma Gains(b: Bucket, cfg: Config, d: Direction, from: nat, tick: nat)
    requires b.lastUpdated < U32 && Settled(b, from) && from <= tick
    ensures Max(Limit(Updated(b, cfg, tick % U32), d), 0) <= Max(Limit(b, d), 0) + (tick - from) * Rate(cfg, d)
  {
    hide Ticks;
    var n, m := Ticks(b.lastUpdated, tick % U32), Ticks(b.lastUpdated, from % U32);
    var gap, rate := tick - from, Rate(cfg, d);
    assert n == (m + gap) % U32 by { TicksLater(b.lastUpdated, from, tick); }
    ModBelow(m, gap);
    assert gap * rate >= 0;
    if n != 0 && n <= INT_MAX {
      assert n <= gap;
      Times(n, gap, rate);
    }
  }

  lemma Times(a: nat, b: nat, c: nat)
    requires a <= b
    ensures a * c <= b * c
  {
  }

  lemma {:induction false} RunBound(b: Bucket, cfg: Config, ms: seq<Move>, from: nat, d: Direction)
    requires b.lastUpdated < U32 && Settled(b, from) && Obeys(b, cfg, ms, from) && ms != []
    ensures ms[|ms| - 1].tick >= from
    ensures Total(ms, d) <= Max(Limit(b, d), 0) + (ms[|ms| - 1].tick - from) * Rate(cfg, d)
    decreases |ms|
  {
    var m, rest, rate := ms[0], ms[1..], Rate(cfg, d);
    Gains(b, cfg, d, from, m.tick);
    var c := Moved(b, cfg, m);
    SettledAfter(b, cfg, m.tick);
    var bytes := if m.d == d then m.bytes else 0;
    assert bytes + Max(Limit(c, d), 0) <= Max(Limit(b, d), 0) + (m.tick - from) * rate;
    if rest != [] {
      RunBound(c, cfg, rest, m.tick, d);
      var last := ms[|ms| - 1].tick;
      assert rest[|rest| - 1] == ms[|ms| - 1];
      assert (m.tick - from) * rate + (last - m.tick) * rate == (last - from) * rate;
    } else {
      assert Total(rest, d) == 0;
    }
  }

  /** Between two ticks no more bytes are moved in a direction than the burst and the rate for the ticks between,
      whatever the bucket has gone through before. */
  lemma BurstAndRate(b: Bucket, cfg: Config, ms: seq<Move>, d: Direction)
    requires ValidBucket(b, cfg) && ms != [] && Obeys(b, cfg, ms, ms[0].tick)
    ensures ms[|ms| - 1].tick >= ms[0].tick
    ensures Total(ms, d) <= Maximum(cfg, d) + (ms[|ms| - 1].tick - ms[0].tick) * Rate(cfg, d)
  {
    var t := ms[0].tick;
    var c := Updated(b, cfg, t % U32);
    SettledAfter(b, cfg, t);
    assert Updated(c, cfg, t % U32) == c;
    assert Obeys(c, cfg, ms, t);
    RunBound(c, cfg, ms, t, d);
  }

  // ---- When a limit is above zero again

  /** A limit that is used up is above zero after an update if and only if enough ticks have passed, and not too many
      to be counted. */
  lemma RefillsEnough(b: Bucket, cfg: Config, d: Direction, now: nat)
    requires ValidConfig(cfg) && ValidBucket(b, cfg) && Limit(b, d) <= 0
    ensures Limit(Updated(b, cfg, now), d) > 0 <==> Owed(b, cfg, d) < Ticks(b.lastUpdated, now) <= INT_MAX
  {
    hide Ticks;
    Quotient(-Limit(b, d), Rate(cfg, d), Ticks(b.lastUpdated, now));
  }

  /** The ticks whose tokens only make up for what is missing. */
  function Owed(b: Bucket, cfg: Config, d: Direction): nat
    requires ValidConfig(cfg)
  {
    if Limit(b, d) > 0 then 0 else -Limit(b, d) / Rate(cfg, d)
  }

  /** When the clock is k ticks behind the bucket, an update j ticks later brings the limit above zero if and only if
      it comes after those k ticks and the ones owed, and less than 2^31 ticks after the k. */
  lemma BehindExact(b: Bucket, cfg: Config, d: Direction, now: nat, k: nat, j: nat)
    requires ValidConfig(cfg) && ValidBucket(b, cfg) && Limit(b, d) <= 0
    requires b.lastUpdated == (now + k) % U32 && k <= INT_MAX + 1 && j < U32
    ensures Limit(Updated(b, cfg, (now + j) % U32), d) > 0 <==> k + Owed(b, cfg, d) < j <= k + INT_MAX
  {
    RefillsEnough(b, cfg, d, (now + j) % U32);
    BehindTicks(now, k, j);
  }

  lemma BehindTicks(now: nat, k: nat, j: nat)
    requires k <= INT_MAX + 1 && j < U32
    ensures Ticks((now + k) % U32, (now + j) % U32) == if j >= k then j - k else U32 - (k - j)
  {
    var n: int := if j >= k then j - k else U32 - (k - j);
    var x, y := (now + k) / U32, (now + j) / U32;
    assert now + k == U32 * x + (now + k) % U32 && now + j == U32 * y + (now + j) % U32;
  }

  /** The bucket after an update at each of these ticks. */
  function AfterAll(b: Bucket, cfg: Config, ticks: seq<nat>): Bucket
    decreases |ticks|
  {
    if ticks == [] then b else AfterAll(Updated(b, cfg, ticks[0] % U32), cfg, ticks[1..])
  }

  /** Ticks, counted without wrapping around: each is a later one than the last, by no more than an update counts. */
  predicate Rising(from: nat, ticks: seq<nat>)
    decreases |ticks|
  {
    ticks == [] || (from < ticks[0] <= from + INT_MAX && Rising(ticks[0], ticks[1..]))
  }

  lemma {:induction false} RisingLast(from: nat, ticks: seq<nat>)
    requires Rising(from, ticks)
    ensures LastTick(from, ticks) >= from + |ticks|
    decreases |ticks|
  {
    if ticks != [] { RisingLast(ticks[0], ticks[1..]); }
  }

  function LastTick(from: nat, ticks: seq<nat>): nat {
    if ticks == [] then from else ticks[|ticks| - 1]
  }

  lemma UpdatedOnce(b: Bucket, cfg: Config, d: Direction, from: nat, t: nat)
    requires ValidConfig(cfg) && ValidBucket(b, cfg) && b.lastUpdated == from % U32 && from < t <= from + INT_MAX
    ensures ValidBucket(Updated(b, cfg, t % U32), cfg) && Updated(b, cfg, t % U32).lastUpdated == t % U32
    ensures Limit(b, d) <= Maximum(cfg, d)
    ensures Limit(Updated(b, cfg, t % U32), d) == Min(Limit(b, d) + (t - from) * Rate(cfg, d), Maximum(cfg, d))
  {
    hide Updated, ValidBucket, Ticks;
    BehindTicks(from, 0, t - from);
    AddedOnce(b, cfg, d, t % U32, t - from);
  }

  lemma AddedOnce(b: Bucket, cfg: Config, d: Direction, now: nat, n: nat)
    requires ValidConfig(cfg) && ValidBucket(b, cfg) && now < U32 && Ticks(b.lastUpdated, now) == n && 0 < n <= INT_MAX
    ensures ValidBucket(Updated(b, cfg, now), cfg) && Updated(b, cfg, now).lastUpdated == now
    ensures Limit(b, d) <= Maximum(cfg, d)
    ensures Limit(Updated(b, cfg, now), d) == Min(Limit(b, d) + n * Rate(cfg, d), Maximum(cfg, d))
  {
    hide Ticks;
    Times(0, n, cfg.readRate);
    Times(0, n, cfg.writeRate);
  }

  /** One configuration, and any number of updates by a clock that goes on: what is added depends on the last tick
      only. */
  lemma {:induction false} AddsUp(b: Bucket, cfg: Config, d: Direction, from: nat, ticks: seq<nat>)
    requires ValidConfig(cfg) && ValidBucket(b, cfg) && b.lastUpdated == from % U32 && Rising(from, ticks)
    ensures LastTick(from, ticks) >= from + |ticks|
    ensures Limit(AfterAll(b, cfg, ticks), d) ==
            Min(Limit(b, d) + (LastTick(from, ticks) - from) * Rate(cfg, d), Maximum(cfg, d))
    decreases |ticks|
  {
    hide Updated, ValidBucket, Min;
    RisingLast(from, ticks);
    if ticks == [] {
      NothingAdded(b, cfg, d);
    } else {
      var t, rest, c := ticks[0], ticks[1..], Updated(b, cfg, ticks[0] % U32);
      UpdatedOnce(b, cfg, d, from, t);
      AddsUp(c, cfg, d, t, rest);
      Steps(Limit(b, d), Rate(cfg, d), Maximum(cfg, d), t - from, LastTick(t, rest) - t);
      assert LastTick(from, ticks) == LastTick(t, rest);
    }
  }

  lemma NothingAdded(b: Bucket, cfg: Config, d: Direction)
    requires ValidBucket(b, cfg)
    ensures Limit(b, d) <= Maximum(cfg, d) && Min(Limit(b, d) + 0 * Rate(cfg, d), Maximum(cfg, d)) == Limit(b, d)
  {
  }

  /** So a limit that was used up is above zero if and only if more ticks have passed than are owed; that many
      updates are enough. */
  lemma KeepsRefilling(b: Bucket, cfg: Config, d: Direction, from: nat, ticks: seq<nat>)
    requires ValidConfig(cfg) && ValidBucket(b, cfg) && b.lastUpdated == from % U32 && Rising(from, ticks)
    requires Limit(b, d) <= 0
    ensures LastTick(from, ticks) >= from + |ticks|
    ensures Limit(AfterAll(b, cfg, ticks), d) > 0 <==> Owed(b, cfg, d) < LastTick(from, ticks) - from
  {
    hide AfterAll, ValidBucket, Rising;
    AddsUp(b, cfg, d, from, ticks);
    Quotient(-Limit(b, d), Rate(cfg, d), LastTick(from, ticks) - from);
  }

  /** One update more. */
  lemma {:induction false} AfterPush(b: Bucket, cfg: Config, from: nat, ticks: seq<nat>, i: nat)
    requires Rising(from, ticks) && i < |ticks|
    ensures Rising(from, ticks[..i]) && Rising(from, ticks[..i + 1])
    ensures from < ticks[i] && ticks[i] - LastTick(from, ticks[..i]) <= INT_MAX
    ensures AfterAll(b, cfg, ticks[..i + 1]) == Updated(AfterAll(b, cfg, ticks[..i]), cfg, ticks[i] % U32)
    decreases i
  {
    hide Updated;
    if i == 0 {
      assert ticks[..1] == [ticks[0]] && ticks[..0] == [];
    } else {
      var c, rest := Updated(b, cfg, ticks[0] % U32), ticks[1..];
      assert ticks[..i][1..] == rest[..i - 1] && ticks[..i + 1][1..] == rest[..i];
      AfterPush(c, cfg, ticks[0], rest, i - 1);
    }
  }
}
