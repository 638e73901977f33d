/** The in-memory token-bucket limiter (pkg/security/ratelimit/tokenbucket.go), with real-valued token
    counts, clock readings and durations in seconds. */
module TokenBucket {
  import opened Results

  datatype Bucket = Bucket(tokens: real, lastSeen: real)

  /** A negative idle time disables reaping. */
  datatype Config = Config(rate: real, burst: nat, idleTTL: real)

  predicate ValidConfig(cfg: Config) {
    cfg.rate > 0.0 && cfg.burst >= 1
  }

  const DEFAULT_IDLE_TTL: real := 600.0

  datatype ConfigError = InvalidRate | InvalidBurst

  datatype Answer = Allowed | Denied(retryAfter: real)

  // ---- One bucket ----

  /** Tokens earned in a stretch of time. */
  function Earned(cfg: Config, elapsed: real): real {
    elapsed * cfg.rate
  }

  function Refill(cfg: Config, b: Bucket, now: real): Bucket {
    var elapsed := now - b.lastSeen;
    if elapsed > 0.0 then
      var tokens := b.tokens + Earned(cfg, elapsed);
      Bucket(if tokens > cfg.burst as real then cfg.burst as real else tokens, now)
    else Bucket(b.tokens, now)
  }

  /** The bucket a call finds: a missing one is full. */
  function Ready(cfg: Config, b: Option<Bucket>, now: real): Bucket {
    match b
    case None => Bucket(cfg.burst as real, now)
    case Some(bucket) => Refill(cfg, bucket, now)
  }

  function Spend(b: Bucket): Bucket {
    if b.tokens >= 1.0 then Bucket(b.tokens - 1.0, b.lastSeen) else b
  }

  function Verdict(cfg: Config, b: Bucket): Answer
    requires cfg.rate > 0.0
  {
    if b.tokens >= 1.0 then Allowed
    else
      var wait := (1.0 - b.tokens) / cfg.rate;
      Denied(if wait > 0.0 then wait else 0.0)
  }

  // ---- The limiter ----

  function Reaped(cfg: Config, buckets: map<string, Bucket>, now: real): map<string, Bucket> {
    if cfg.idleTTL < 0.0 then buckets
    else map k | k in buckets && !(buckets[k].lastSeen < now - cfg.idleTTL) :: buckets[k]
  }

  function Lookup(buckets: map<string, Bucket>, key: string): Option<Bucket> {
    if key in buckets then Some(buckets[key]) else None
  }

  function AfterAllow(cfg: Config, buckets: map<string, Bucket>, key: string, now: real): map<string, Bucket> {
    var kept := Reaped(cfg, buckets, now);
    kept[key := Spend(Ready(cfg, Lookup(kept, key), now))]
  }

  function AllowAnswer(cfg: Config, buckets: map<string, Bucket>, key: string, now: real): Answer
    requires cfg.rate > 0.0
  {
    Verdict(cfg, Ready(cfg, Lookup(Reaped(cfg, buckets, now), key), now))
  }

  /** Reaping forgets exactly the buckets that have been idle for longer than the idle time. */
  lemma ReapedIff(cfg: Config, buckets: map<string, Bucket>, now: real, key: string)
    requires key in buckets
    ensures key in Reaped(cfg, buckets, now) <==> cfg.idleTTL < 0.0 || now - buckets[key].lastSeen <= cfg.idleTTL
    ensures key in Reaped(cfg, buckets, now) ==> Reaped(cfg, buckets, now)[key] == buckets[key]
  {}

  class Cell {
    var tokens: real
    var lastSeen: real

    constructor (tokens: real, lastSeen: real)
      ensures this.tokens == tokens && this.lastSeen == lastSeen
    {
      this.tokens, this.lastSeen := tokens, lastSeen;
    }

    method Refresh(cfg: Config, now: real)
      modifies this
      ensures Bucket(tokens, lastSeen) == Refill(cfg, Bucket(old(tokens), old(lastSeen)), now)
    {
      hide Earned;
      var elapsed := now - lastSeen;
      if elapsed > 0.0 {
        tokens := tokens + Earned(cfg, elapsed);
        if tokens > cfg.burst as real {
          tokens := cfg.burst as real;
        }
      }
      lastSeen := now;
    }
  }

  /** The limiter object: every key has its own bucket object. */
  class Limiter {
    const cfg: Config
    var buckets: map<string, Cell>

    ghost predicate Valid()
      reads this
    {
      && ValidConfig(cfg)
      && forall k, l :: k in buckets && l in buckets && k != l ==> buckets[k] != buckets[l]
    }

    ghost function Contents(): (m: map<string, Bucket>)
      reads this, buckets.Values
      ensures m.Keys == buckets.Keys
      ensures forall k :: k in buckets ==> m[k] == Bucket(buckets[k].tokens, buckets[k].lastSeen)
    {
      map k | k in buckets :: Bucket(buckets[k].tokens, buckets[k].lastSeen)
    }

    constructor (cfg: Config)
      requires ValidConfig(cfg)
      ensures Valid() && this.cfg == cfg && Contents() == map[]
    {
      this.cfg := cfg;
      this.buckets := map[];
    }

    /** `NewTokenBucket`: a zero idle time stands for the default. */
    static method New(rate: real, burst: int, idleTTL: real) returns (r: Result<Limiter, ConfigError>)
      ensures r.Ok? <==> rate > 0.0 && burst > 0
      ensures r.Err? ==> r.error == if rate <= 0.0 then InvalidRate else InvalidBurst
      ensures r.Ok? ==> fresh(r.value) && r.value.Valid() && r.value.Contents() == map[]
      ensures r.Ok? ==> r.value.cfg.rate == rate && r.value.cfg.burst == burst
                        && r.value.cfg.idleTTL == if idleTTL == 0.0 then DEFAULT_IDLE_TTL else idleTTL
    {
      if rate <= 0.0 { return Err(InvalidRate); }
      if burst <= 0 { return Err(InvalidBurst); }
      var ttl := idleTTL;
      if ttl == 0.0 {
        ttl := DEFAULT_IDLE_TTL;
      }
      var limiter := new Limiter(Config(rate, burst, ttl));
      return Ok(limiter);
    }

    /** `Allow` at clock reading `now`. */
    method Allow(key: string, now: real) returns (answer: Answer)
      requires Valid()
      modifies this, buckets.Values
      ensures Valid()
      ensures answer == AllowAnswer(cfg, old(Contents()), key, now)
      ensures Contents() == AfterAllow(cfg, old(Contents()), key, now)
    {
      hide Reaped, Ready;
      var bk := Fetch(key, now);
      ghost var ready := Contents();
      if bk.tokens >= 1.0 {
        bk.tokens := bk.tokens - 1.0;
        assert Contents() == ready[key := Spend(ready[key])];
        return Allowed;
      }
      assert ready == ready[key := Spend(ready[key])];
      var needed := 1.0 - bk.tokens;
      var wait := needed / cfg.rate;
      answer := Denied(if wait > 0.0 then wait else 0.0);
    }

    /** The first half of `Allow`: reap, then find the key's bucket and refill it, or create it full. */
    method Fetch(key: string, now: real) returns (bk: Cell)
      requires Valid()
      modifies this, buckets.Values
      ensures Valid() && key in buckets && buckets[key] == bk && (bk in old(buckets.Values) || fresh(bk))
      ensures var kept := Reaped(cfg, old(Contents()), now);
              Contents() == kept[key := Ready(cfg, Lookup(kept, key), now)]
    {
      hide Reaped, Refill;
      MaybeReap(now);
      ghost var kept := Contents();
      if key !in buckets {
        bk := new Cell(cfg.burst as real, now);
        buckets := buckets[key := bk];
      } else {
        bk := buckets[key];
        assert bk in buckets.Values;
        bk.Refresh(cfg, now);
      }
      assert Contents() == kept[key := Ready(cfg, Lookup(kept, key), now)];
    }

    /** `maybeReapLocked`: the map is walked in an order the caller cannot know. */
    method MaybeReap(now: real)
      requires Valid()
      modifies this
      ensures Valid() && buckets.Values <= old(buckets.Values)
      ensures Contents() == Reaped(cfg, old(Contents()), now)
    {
      if cfg.idleTTL < 0.0 { return; }
      var cutoff := now - cfg.idleTTL;
      var left := buckets.Keys;
      while left != {}
        invariant left <= buckets.Keys <= old(buckets).Keys
        invariant forall k :: k in buckets ==> buckets[k] == old(buckets)[k]
        invariant forall k :: k in old(buckets) && k !in left ==>
                    (k in buckets <==> !(old(buckets)[k].lastSeen < cutoff))
        decreases left
      {
        var k :| k in left;
        left := left - {k};
        if buckets[k].lastSeen < cutoff {
          buckets := buckets - {k};
        }
      }
      forall c | c in buckets.Values ensures c in old(buckets.Values) {
        var k :| k in buckets && buckets[k] == c;
        assert old(buckets)[k] == c;
      }
    }
  }

  // ---- Traces ----

  datatype Call = Call(key: string, now: real)

  /** Calls are applied in nondecreasing clock order. */
  predicate Chronological(calls: seq<Call>) {
    forall i, j :: 0 <= i <= j < |calls| ==> calls[i].now <= calls[j].now
  }

  function Run(cfg: Config, calls: seq<Call>): map<string, Bucket> {
    if calls == [] then map[]
    else
      var n := |calls| - 1;
      AfterAllow(cfg, Run(cfg, calls[..n]), calls[n].key, calls[n].now)
  }

  function AnswerAt(cfg: Config, calls: seq<Call>, n: nat): Answer
    requires cfg.rate > 0.0 && n < |calls|
  {
    AllowAnswer(cfg, Run(cfg, calls[..n]), calls[n].key, calls[n].now)
  }

  // ---- The reference: one bucket per key, never reaped ----

  function Alone(cfg: Config, times: seq<real>): Option<Bucket> {
    if times == [] then None
    else
      var n := |times| - 1;
      Some(Spend(Ready(cfg, Alone(cfg, times[..n]), times[n])))
  }

  function AloneAnswer(cfg: Config, times: seq<real>, now: real): Answer
    requires cfg.rate > 0.0
  {
    Verdict(cfg, Ready(cfg, Alone(cfg, times), now))
  }

  function TimesOf(calls: seq<Call>, key: string): seq<real> {
    if calls == [] then []
    else
      var n := |calls| - 1;
      TimesOf(calls[..n], key) + if calls[n].key == key then [calls[n].now] else []
  }

  predicate Rising(times: seq<real>) {
    forall i, j :: 0 <= i <= j < |times| ==> times[i] <= times[j]
  }

  lemma ReadyBounds(cfg: Config, b: Option<Bucket>, now: real)
    requires ValidConfig(cfg)
    requires b.Some? ==> 0.0 <= b.value.tokens <= cfg.burst as real
    ensures 0.0 <= Ready(cfg, b, now).tokens <= cfg.burst as real && Ready(cfg, b, now).lastSeen == now
  {
    if b.Some? && now - b.value.lastSeen > 0.0 { Product(now - b.value.lastSeen, cfg.rate); }
  }

  lemma {:induction false} AloneFacts(cfg: Config, times: seq<real>)
    requires ValidConfig(cfg)
    ensures times != [] ==> Alone(cfg, times).Some?
    ensures times != [] ==> var b := Alone(cfg, times).value;
                            0.0 <= b.tokens <= cfg.burst as real && b.lastSeen == times[|times| - 1]
  {
    hide Ready;
    if times != [] {
      var n := |times| - 1;
      AloneFacts(cfg, times[..n]);
      ReadyBounds(cfg, Alone(cfg, times[..n]), times[n]);
    }
  }

  lemma Product(x: real, y: real)
    requires x >= 0.0 && y >= 0.0
    ensures x * y >= 0.0
  {}

  lemma {:induction false} TimesOfFacts(calls: seq<Call>, key: string)
    requires Chronological(calls)
    ensures Rising(TimesOf(calls, key))
    ensures forall t :: t in TimesOf(calls, key) ==> t <= calls[|calls| - 1].now
  {
    if calls != [] {
      var n := |calls| - 1;
      TimesOfFacts(calls[..n], key);
      var times := TimesOf(calls[..n], key);
      if n > 0 {
        assert calls[..n][|calls[..n]| - 1] == calls[n-1];
        forall t | t in times ensures t <= calls[n].now {}
      }
      var all := TimesOf(calls, key);
      forall i, j | 0 <= i <= j < |all| ensures all[i] <= all[j] {
        if j == |times| && i < |times| { assert times[i] in times; }
      }
    }
  }

  // ---- Reaping is unobservable ----

  /** Enough idle time to refill a bucket completely. */
  predicate ReapsOnlyFull(cfg: Config) {
    cfg.idleTTL < 0.0 || cfg.idleTTL * cfg.rate >= cfg.burst as real
  }

  /** A bucket that would be full at `now`. */
  predicate FullBy(cfg: Config, b: Bucket, now: real) {
    && 0.0 <= b.tokens <= cfg.burst as real && b.lastSeen <= now
    && b.tokens + Earned(cfg, now - b.lastSeen) >= cfg.burst as real
  }

  /** A full bucket answers like a missing one. */
  lemma FullIsMissing(cfg: Config, b: Bucket, now: real)
    requires ValidConfig(cfg) && FullBy(cfg, b, now)
    ensures Ready(cfg, Some(b), now) == Ready(cfg, None, now)
  {
    hide Earned;
    SelfEarned(cfg, now - b.lastSeen);
  }

  lemma StaysFull(cfg: Config, b: Bucket, now: real, later: real)
    requires ValidConfig(cfg) && FullBy(cfg, b, now) && now <= later
    ensures FullBy(cfg, b, later)
  {
    Product(later - now, cfg.rate);
    assert (later - b.lastSeen) * cfg.rate == (now - b.lastSeen) * cfg.rate + (later - now) * cfg.rate;
  }

  lemma IdleIsFull(cfg: Config, b: Bucket, now: real)
    requires ValidConfig(cfg) && cfg.idleTTL >= 0.0 && cfg.idleTTL * cfg.rate >= cfg.burst as real
    requires 0.0 <= b.tokens <= cfg.burst as real && b.lastSeen < now - cfg.idleTTL
    ensures FullBy(cfg, b, now)
  {
    Product(now - b.lastSeen - cfg.idleTTL, cfg.rate);
    assert (now - b.lastSeen) * cfg.rate == cfg.idleTTL * cfg.rate + (now - b.lastSeen - cfg.idleTTL) * cfg.rate;
  }

  /** A key's bucket in the limiter agrees with its bucket alone, or is gone while the other is full. */
  ghost predicate Agrees(cfg: Config, stored: Option<Bucket>, alone: Option<Bucket>, now: real) {
    match stored
    case Some(b) => alone == Some(b)
    case None => alone.Some? ==> FullBy(cfg, alone.value, now)
  }

  lemma ReapAgrees(cfg: Config, buckets: map<string, Bucket>, key: string, alone: Option<Bucket>,
                   earlier: real, now: real)
    requires ValidConfig(cfg) && ReapsOnlyFull(cfg) && earlier <= now
    requires Agrees(cfg, Lookup(buckets, key), alone, earlier)
    requires alone.Some? ==> 0.0 <= alone.value.tokens <= cfg.burst as real
    ensures Agrees(cfg, Lookup(Reaped(cfg, buckets, now), key), alone, now)
  {
    if alone.Some? {
      if key !in buckets {
        StaysFull(cfg, alone.value, earlier, now);
      } else if cfg.idleTTL >= 0.0 && buckets[key].lastSeen < now - cfg.idleTTL {
        IdleIsFull(cfg, alone.value, now);
      }
    }
  }

  lemma AgreeingReady(cfg: Config, stored: Option<Bucket>, alone: Option<Bucket>, now: real)
    requires ValidConfig(cfg) && Agrees(cfg, stored, alone, now)
    ensures Ready(cfg, stored, now) == Ready(cfg, alone, now)
  {
    if stored.None? && alone.Some? { FullIsMissing(cfg, alone.value, now); }
  }

  lemma {:induction false} RunAgrees(cfg: Config, calls: seq<Call>, key: string, now: real)
    requires ValidConfig(cfg) && ReapsOnlyFull(cfg) && Chronological(calls)
    requires calls != [] ==> calls[|calls| - 1].now <= now
    ensures Agrees(cfg, Lookup(Run(cfg, calls), key), Alone(cfg, TimesOf(calls, key)), now)
  {
    hide Ready, Spend, FullBy;
    if calls != [] {
      var n := |calls| - 1;
      var t := calls[n].now;
      var before := Run(cfg, calls[..n]);
      var times := TimesOf(calls[..n], key);
      assert n > 0 ==> calls[..n][|calls[..n]| - 1] == calls[n-1];
      RunAgrees(cfg, calls[..n], key, t);
      TimesOfFacts(calls[..n], key);
      AloneFacts(cfg, times);
      ReapAgrees(cfg, before, key, Alone(cfg, times), t, t);
      if calls[n].key == key {
        AgreeingReady(cfg, Lookup(Reaped(cfg, before, t), key), Alone(cfg, times), t);
        assert (times + [t])[..|times|] == times;
      } else {
        assert times + [] == times;
        LaterAgrees(cfg, Lookup(Reaped(cfg, before, t), key), Alone(cfg, times), t, now);
      }
    }
  }

  lemma LaterAgrees(cfg: Config, stored: Option<Bucket>, alone: Option<Bucket>, earlier: real, now: real)
    requires ValidConfig(cfg) && Agrees(cfg, stored, alone, earlier) && earlier <= now
    ensures Agrees(cfg, stored, alone, now)
  {
    if stored.None? && alone.Some? { StaysFull(cfg, alone.value, earlier, now); }
  }

  /** Reaping only full buckets, the limiter answers every call as if the key had a bucket of its own that
      is never reaped: neither reaping nor the other keys can be observed. */
  lemma AnswersAlone(cfg: Config, calls: seq<Call>, n: nat)
    requires ValidConfig(cfg) && ReapsOnlyFull(cfg) && Chronological(calls) && n < |calls|
    ensures AnswerAt(cfg, calls, n) == AloneAnswer(cfg, TimesOf(calls[..n], calls[n].key), calls[n].now)
  {
    hide Ready, Verdict;
    var key, now := calls[n].key, calls[n].now;
    assert n > 0 ==> calls[..n][|calls[..n]| - 1] == calls[n-1];
    RunAgrees(cfg, calls[..n], key, now);
    TimesOfFacts(calls[..n], key);
    AloneFacts(cfg, TimesOf(calls[..n], key));
    ReapAgrees(cfg, Run(cfg, calls[..n]), key, Alone(cfg, TimesOf(calls[..n], key)), now, now);
    AgreeingReady(cfg, Lookup(Reaped(cfg, Run(cfg, calls[..n]), now), key), Alone(cfg, TimesOf(calls[..n], key)), now);
  }

  /** The same limiter without reaping. */
  function NeverReaping(cfg: Config): Config {
    cfg.(idleTTL := -1.0)
  }

  lemma ReadyIgnoresTTL(cfg: Config, b: Option<Bucket>, now: real)
    ensures Ready(NeverReaping(cfg), b, now) == Ready(cfg, b, now)
  {}

  lemma {:induction false} AloneIgnoresTTL(cfg: Config, times: seq<real>)
    ensures Alone(NeverReaping(cfg), times) == Alone(cfg, times)
  {
    hide Ready;
    if times != [] {
      var n := |times| - 1;
      AloneIgnoresTTL(cfg, times[..n]);
      ReadyIgnoresTTL(cfg, Alone(cfg, times[..n]), times[n]);
    }
  }

  lemma VerdictIgnoresTTL(cfg: Config, b: Bucket)
    requires cfg.rate > 0.0
    ensures Verdict(NeverReaping(cfg), b) == Verdict(cfg, b)
  {}

  lemma ReapingInvisible(cfg: Config, calls: seq<Call>, n: nat)
    requires ValidConfig(cfg) && ReapsOnlyFull(cfg) && Chronological(calls) && n < |calls|
    ensures AnswerAt(cfg, calls, n) == AnswerAt(NeverReaping(cfg), calls, n)
  {
    hide AnswerAt, Ready, Verdict;
    var times := TimesOf(calls[..n], calls[n].key);
    AnswersAlone(cfg, calls, n);
    AnswersAlone(NeverReaping(cfg), calls, n);
    AloneIgnoresTTL(cfg, times);
    ReadyIgnoresTTL(cfg, Alone(cfg, times), calls[n].now);
    VerdictIgnoresTTL(cfg, Ready(cfg, Alone(cfg, times), calls[n].now));
  }

  // ---- When reaping is visible ----

  /** Calls on one key: `burst` of them at time 0 and `burst` more at time t. */
  function TwoBursts(burst: nat, t: real, n: nat): (calls: seq<Call>)
    ensures |calls| == n
    ensures forall i :: 0 <= i < n ==> calls[i] == Call("k", if i < burst then 0.0 else t)
  {
    seq(n, i requires 0 <= i < n => Call("k", if i < burst then 0.0 else t))
  }

  /** A moment after the idle time when the bucket has not refilled completely. */
  function TooSoon(cfg: Config): real
    requires ValidConfig(cfg)
  {
    (cfg.idleTTL + cfg.burst as real / cfg.rate) / 2.0
  }

  lemma TooSoonFacts(cfg: Config)
    requires ValidConfig(cfg) && !ReapsOnlyFull(cfg)
    ensures 0.0 <= cfg.idleTTL < TooSoon(cfg) && Earned(cfg, TooSoon(cfg)) < cfg.burst as real
  {
    var full := cfg.burst as real / cfg.rate;
    assert full * cfg.rate == cfg.burst as real;
    if full <= cfg.idleTTL { Product(cfg.idleTTL - full, cfg.rate); }
    assert TooSoon(cfg) * cfg.rate == (cfg.idleTTL * cfg.rate + full * cfg.rate) / 2.0;
  }

  lemma SpendAgain(cfg: Config, x: real, t: real)
    requires ValidConfig(cfg) && cfg.idleTTL >= 0.0 && x >= 1.0
    ensures AfterAllow(cfg, map["k" := Bucket(x, t)], "k", t) == map["k" := Bucket(x - 1.0, t)]
  {
    var m := map["k" := Bucket(x, t)];
    assert Reaped(cfg, m, t) == m;
  }

  lemma SpendFresh(cfg: Config, m: map<string, Bucket>, t: real)
    requires ValidConfig(cfg) && Reaped(cfg, m, t) == map[]
    ensures AfterAllow(cfg, m, "k", t) == map["k" := Bucket((cfg.burst - 1) as real, t)]
  {
    hide Reaped;
  }

  lemma Forgotten(cfg: Config, x: real, t: real)
    requires 0.0 <= cfg.idleTTL < t
    ensures Reaped(cfg, map["k" := Bucket(x, 0.0)], t) == map[]
  {}

  lemma RunExtends(cfg: Config, calls: seq<Call>, before: seq<Call>, now: real)
    requires calls == before + [Call("k", now)]
    ensures Run(cfg, calls) == AfterAllow(cfg, Run(cfg, before), "k", now)
  {
    assert calls[..|calls| - 1] == before;
  }

  /** What the reaping limiter holds after n calls of the two bursts. */
  function Left(cfg: Config, n: nat): Bucket
    requires ValidConfig(cfg)
  {
    if n <= cfg.burst then Bucket((cfg.burst - n) as real, 0.0)
    else Bucket((2 * cfg.burst - n) as real, TooSoon(cfg))
  }

  function BurstTime(cfg: Config, n: nat): real
    requires ValidConfig(cfg)
  {
    if n <= cfg.burst then 0.0 else TooSoon(cfg)
  }

  lemma ForgetfulStart(cfg: Config)
    requires ValidConfig(cfg)
    ensures AfterAllow(cfg, map[], "k", BurstTime(cfg, 1)) == map["k" := Left(cfg, 1)]
  {
    assert Reaped(cfg, map[], 0.0) == map[];
    SpendFresh(cfg, map[], 0.0);
  }

  lemma ForgetfulStep(cfg: Config, n: nat)
    requires ValidConfig(cfg) && !ReapsOnlyFull(cfg) && 1 < n <= 2 * cfg.burst
    ensures AfterAllow(cfg, map["k" := Left(cfg, n - 1)], "k", BurstTime(cfg, n)) == map["k" := Left(cfg, n)]
  {
    TooSoonFacts(cfg);
    hide AfterAllow, Reaped, TooSoon, ReapsOnlyFull, Earned;
    var t, burst := TooSoon(cfg), cfg.burst;
    if n <= burst {
      SpendAgain(cfg, (burst - n + 1) as real, 0.0);
    } else if n == burst + 1 {
      Forgotten(cfg, 0.0, t);
      SpendFresh(cfg, map["k" := Bucket(0.0, 0.0)], t);
    } else {
      SpendAgain(cfg, (2 * burst - n + 1) as real, t);
    }
  }

  /** The reaping limiter spends the first burst, forgets, and spends a second full burst. */
  lemma {:induction false} ForgetfulRun(cfg: Config, n: nat)
    requires ValidConfig(cfg) && !ReapsOnlyFull(cfg) && 1 <= n <= 2 * cfg.burst
    ensures Run(cfg, TwoBursts(cfg.burst, TooSoon(cfg), n)) == map["k" := Left(cfg, n)]
  {
    var calls, before := TwoBursts(cfg.burst, TooSoon(cfg), n), TwoBursts(cfg.burst, TooSoon(cfg), n - 1);
    assert calls == before + [Call("k", BurstTime(cfg, n))];
    RunExtends(cfg, calls, before, BurstTime(cfg, n));
    hide AfterAllow, Left, BurstTime, Run, TooSoon, ReapsOnlyFull;
    if n == 1 {
      NothingRun(cfg, before);
      ForgetfulStart(cfg);
    } else {
      ForgetfulRun(cfg, n - 1);
      ForgetfulStep(cfg, n);
    }
  }

  lemma NothingRun(cfg: Config, calls: seq<Call>)
    requires |calls| == 0
    ensures Run(cfg, calls) == map[] && Reaped(cfg, map[], 0.0) == map[]
  {}

  /** The limiter that never reaps has earned less than a burst by then. */
  lemma {:induction false} MindfulRun(cfg: Config, n: nat)
    requires ValidConfig(cfg) && cfg.idleTTL < 0.0 && 1 <= n <= 2 * cfg.burst
    ensures forall t: real :: t > 0.0 && Earned(cfg, t) < cfg.burst as real ==>
              var m := Run(cfg, TwoBursts(cfg.burst, t, n));
              && "k" in m
              && (n <= cfg.burst ==> m["k"] == Bucket((cfg.burst - n) as real, 0.0))
              && (n > cfg.burst ==> m["k"].lastSeen == t
                                    && (m["k"].tokens < 1.0
                                        || m["k"].tokens <= Earned(cfg, t) - (n - cfg.burst) as real))
  {
    hide Earned;
    forall t: real | t > 0.0 && Earned(cfg, t) < cfg.burst as real
      ensures var m := Run(cfg, TwoBursts(cfg.burst, t, n));
              && "k" in m
              && (n <= cfg.burst ==> m["k"] == Bucket((cfg.burst - n) as real, 0.0))
              && (n > cfg.burst ==> m["k"].lastSeen == t
                                    && (m["k"].tokens < 1.0
                                        || m["k"].tokens <= Earned(cfg, t) - (n - cfg.burst) as real))
    {
      var calls := TwoBursts(cfg.burst, t, n);
      assert calls[..n-1] == TwoBursts(cfg.burst, t, n - 1);
      if n == 1 {
        assert TwoBursts(cfg.burst, t, 0) == [];
      } else {
        MindfulRun(cfg, n - 1);
      }
    }
  }

  /** If a bucket can be reaped before it is full again, some trace tells the difference: the last call of
      the second burst is admitted by the reaping limiter and denied by the other. */
  lemma ReapingVisible(cfg: Config) returns (calls: seq<Call>, n: nat)
    requires ValidConfig(cfg) && !ReapsOnlyFull(cfg)
    ensures Chronological(calls) && n < |calls|
    ensures AnswerAt(cfg, calls, n) == Allowed && AnswerAt(NeverReaping(cfg), calls, n).Denied?
  {
    hide Earned;
    TooSoonFacts(cfg);
    var t := TooSoon(cfg);
    n := 2 * cfg.burst - 1;
    calls := TwoBursts(cfg.burst, t, n + 1);
    assert calls[..n] == TwoBursts(cfg.burst, t, n);
    ForgetfulRun(cfg, n);
    MindfulRun(NeverReaping(cfg), n);
    EarnedIgnoresTTL(cfg, t);
  }

  lemma EarnedIgnoresTTL(cfg: Config, t: real)
    ensures Earned(NeverReaping(cfg), t) == Earned(cfg, t)
  {}

  /** Reaping can be observed by some trace exactly if a bucket can be reaped before it is full again. */
  lemma ReapingInvisibleIff(cfg: Config)
    requires ValidConfig(cfg)
    ensures ReapsOnlyFull(cfg) <==>
              forall calls, n: nat :: Chronological(calls) && n < |calls| ==>
                AnswerAt(cfg, calls, n) == AnswerAt(NeverReaping(cfg), calls, n)
  {
    hide AnswerAt;
    if ReapsOnlyFull(cfg) {
      forall calls, n: nat | Chronological(calls) && n < |calls|
        ensures AnswerAt(cfg, calls, n) == AnswerAt(NeverReaping(cfg), calls, n)
      {
        ReapingInvisible(cfg, calls, n);
      }
    } else {
      var calls, n := ReapingVisible(cfg);
    }
  }

  // ---- The window bound ----

  /** How many of the calls at these times, within [lo, hi], a key's own bucket admits. */
  function AdmittedAlone(cfg: Config, times: seq<real>, lo: real, hi: real): nat
    requires cfg.rate > 0.0
  {
    if times == [] then 0
    else
      var n := |times| - 1;
      AdmittedAlone(cfg, times[..n], lo, hi)
      + if lo <= times[n] <= hi && AloneAnswer(cfg, times[..n], times[n]) == Allowed then 1 else 0
  }

  /** How many calls on the key, within [lo, hi], the limiter admits. */
  function Admitted(cfg: Config, calls: seq<Call>, key: string, lo: real, hi: real): nat
    requires cfg.rate > 0.0
  {
    if calls == [] then 0
    else
      var n := |calls| - 1;
      Admitted(cfg, calls[..n], key, lo, hi)
      + if calls[n].key == key && lo <= calls[n].now <= hi && AnswerAt(cfg, calls, n) == Allowed then 1 else 0
  }

  lemma ReadyEarns(cfg: Config, b: Bucket, now: real)
    requires ValidConfig(cfg) && b.lastSeen <= now && b.tokens <= cfg.burst as real
    ensures Ready(cfg, Some(b), now).tokens <= b.tokens + Earned(cfg, now - b.lastSeen)
  {
    Product(now - b.lastSeen, cfg.rate);
  }

  lemma EarnedAdds(cfg: Config, a: real, b: real, c: real)
    requires ValidConfig(cfg) && a <= b <= c
    ensures Earned(cfg, c - a) == Earned(cfg, b - a) + Earned(cfg, c - b) && Earned(cfg, c - b) >= 0.0
    ensures Earned(cfg, b - a) >= 0.0
  {
    Product(c - b, cfg.rate);
    Product(b - a, cfg.rate);
  }

  /** Tokens in hand and tokens spent in the window never exceed a burst plus what was earned in it. */
  lemma {:induction false} WindowInvariant(cfg: Config, times: seq<real>, lo: real, hi: real)
    requires ValidConfig(cfg) && Rising(times) && lo <= hi
    ensures AdmittedAlone(cfg, times, lo, hi) as real <= cfg.burst as real + Earned(cfg, hi - lo)
    ensures times != [] && times[|times| - 1] < lo ==> AdmittedAlone(cfg, times, lo, hi) == 0
    ensures times != [] && lo <= times[|times| - 1] <= hi ==>
              AdmittedAlone(cfg, times, lo, hi) as real + Alone(cfg, times).value.tokens
              <= cfg.burst as real + Earned(cfg, times[|times| - 1] - lo)
  {
    hide Ready, Earned;
    EarnedAdds(cfg, lo, hi, hi);
    if times != [] {
      var n := |times| - 1;
      var t := times[n];
      WindowInvariant(cfg, times[..n], lo, hi);
      AloneFacts(cfg, times[..n]);
      var before := Alone(cfg, times[..n]);
      ReadyBounds(cfg, before, t);
      if n > 0 {
        assert times[..n][n-1] == times[n-1] <= t;
        ReadyEarns(cfg, before.value, t);
        if lo <= times[n-1] { EarnedAdds(cfg, lo, times[n-1], t); }
      }
      if lo <= t { EarnedAdds(cfg, lo, t, t); }
      if lo <= t <= hi { EarnedAdds(cfg, lo, t, hi); }
    }
  }

  lemma {:induction false} AdmittedAsAlone(cfg: Config, calls: seq<Call>, key: string, lo: real, hi: real)
    requires ValidConfig(cfg) && ReapsOnlyFull(cfg) && Chronological(calls)
    ensures Admitted(cfg, calls, key, lo, hi) == AdmittedAlone(cfg, TimesOf(calls, key), lo, hi)
  {
    if calls != [] {
      var n := |calls| - 1;
      assert Chronological(calls[..n]);
      AdmittedStep(cfg, calls, key, lo, hi);
      AnswersAlone(cfg, calls, n);
      hide Chronological, ReapsOnlyFull, AnswerAt, AloneAnswer, Admitted, AdmittedAlone, TimesOf;
      AdmittedAsAlone(cfg, calls[..n], key, lo, hi);
    }
  }

  /** What the last call adds to both counts. */
  lemma AdmittedStep(cfg: Config, calls: seq<Call>, key: string, lo: real, hi: real)
    requires cfg.rate > 0.0 && calls != []
    ensures var n := |calls| - 1;
            var call := calls[n];
            var before := TimesOf(calls[..n], key);
            && Admitted(cfg, calls, key, lo, hi)
               == Admitted(cfg, calls[..n], key, lo, hi)
                  + (if call.key == key && lo <= call.now <= hi && AnswerAt(cfg, calls, n) == Allowed then 1 else 0)
            && AdmittedAlone(cfg, TimesOf(calls, key), lo, hi)
               == AdmittedAlone(cfg, before, lo, hi)
                  + (if call.key == key && lo <= call.now <= hi && AloneAnswer(cfg, before, call.now) == Allowed
                     then 1 else 0)
  {
    hide AnswerAt, AloneAnswer;
    var n := |calls| - 1;
    var before := TimesOf(calls[..n], key);
    if calls[n].key == key {
      assert TimesOf(calls, key) == before + [calls[n].now];
      assert (before + [calls[n].now])[..|before|] == before;
    } else {
      assert TimesOf(calls, key) == before;
    }
  }

  lemma EarnedIsProduct(cfg: Config, d: real)
    ensures Earned(cfg, d) == cfg.rate * d
  {}

  /** The window bound: any window of length T admits at most burst + rate * T requests per key. */
  lemma WindowBound(cfg: Config, calls: seq<Call>, key: string, lo: real, hi: real)
    requires ValidConfig(cfg) && ReapsOnlyFull(cfg) && Chronological(calls) && lo <= hi
    ensures Admitted(cfg, calls, key, lo, hi) as real <= cfg.burst as real + cfg.rate * (hi - lo)
  {
    hide Earned, ReapsOnlyFull, Admitted, AdmittedAlone, Alone, Chronological;
    TimesOfFacts(calls, key);
    AdmittedAsAlone(cfg, calls, key, lo, hi);
    WindowInvariant(cfg, TimesOf(calls, key), lo, hi);
    EarnedIsProduct(cfg, hi - lo);
  }

  lemma ForgetfulAnswer(cfg: Config, n: nat)
    requires ValidConfig(cfg) && !ReapsOnlyFull(cfg) && n < 2 * cfg.burst
    ensures AnswerAt(cfg, TwoBursts(cfg.burst, TooSoon(cfg), n + 1), n) == Allowed
  {
    hide Earned;
    TooSoonFacts(cfg);
    var t := TooSoon(cfg);
    assert TwoBursts(cfg.burst, t, n + 1)[..n] == TwoBursts(cfg.burst, t, n);
    if n == 0 {
      assert TwoBursts(cfg.burst, t, 0) == [];
    } else {
      ForgetfulRun(cfg, n);
    }
  }

  /** Both bursts of the trace that outlives the idle time are admitted. */
  lemma {:induction false} ForgetfulAdmits(cfg: Config, n: nat)
    requires ValidConfig(cfg) && !ReapsOnlyFull(cfg) && n <= 2 * cfg.burst
    ensures Admitted(cfg, TwoBursts(cfg.burst, TooSoon(cfg), n), "k", 0.0, TooSoon(cfg)) == n
  {
    if n > 0 {
      TooSoonFacts(cfg);
      ForgetfulAdmits(cfg, n - 1);
      ForgetfulAnswer(cfg, n - 1);
      hide AnswerAt, TooSoon, ReapsOnlyFull, Earned;
      var t := TooSoon(cfg);
      assert TwoBursts(cfg.burst, t, n)[..n-1] == TwoBursts(cfg.burst, t, n - 1);
    }
  }

  /** If a bucket can be reaped before it is full again, some window admits more than the bound: two whole
      bursts within less than the time to earn one. */
  lemma WindowExceeded(cfg: Config) returns (calls: seq<Call>, t: real)
    requires ValidConfig(cfg) && !ReapsOnlyFull(cfg)
    ensures Chronological(calls) && t > 0.0
    ensures Admitted(cfg, calls, "k", 0.0, t) == 2 * cfg.burst
    ensures Admitted(cfg, calls, "k", 0.0, t) as real > cfg.burst as real + cfg.rate * (t - 0.0)
  {
    hide Admitted;
    TooSoonFacts(cfg);
    t := TooSoon(cfg);
    calls := TwoBursts(cfg.burst, t, 2 * cfg.burst);
    ForgetfulAdmits(cfg, 2 * cfg.burst);
    EarnedIsProduct(cfg, t);
  }

  predicate WithinBound(cfg: Config, calls: seq<Call>, key: string, lo: real, hi: real)
    requires cfg.rate > 0.0
  {
    Admitted(cfg, calls, key, lo, hi) as real <= cfg.burst as real + cfg.rate * (hi - lo)
  }

  /** So the limiter keeps its rate, on every trace, key and window, exactly if reaping is off or a bucket
      idle long enough to be reaped is full again. */
  lemma WindowBoundIff(cfg: Config)
    requires ValidConfig(cfg)
    ensures ReapsOnlyFull(cfg) <==>
              forall calls, key, lo, hi :: Chronological(calls) && lo <= hi ==> WithinBound(cfg, calls, key, lo, hi)
  {
    hide Admitted, Chronological;
    if ReapsOnlyFull(cfg) {
      forall calls, key, lo, hi | Chronological(calls) && lo <= hi
        ensures WithinBound(cfg, calls, key, lo, hi)
      {
        WindowBound(cfg, calls, key, lo, hi);
      }
    } else {
      var calls, t := WindowExceeded(cfg);
      assert !WithinBound(cfg, calls, "k", 0.0, t);
    }
  }

  // ---- A call is admitted whenever the bound leaves room ----

  /** What a key's own bucket holds when a call comes at `now`. */
  function InHand(cfg: Config, times: seq<real>, now: real): real {
    Ready(cfg, Alone(cfg, times), now).tokens
  }

  predicate AllBy(times: seq<real>, now: real) {
    Rising(times) && (times == [] || times[|times| - 1] <= now)
  }

  lemma AllByBefore(times: seq<real>, now: real)
    requires times != [] && AllBy(times, now)
    ensures times[|times| - 1] <= now && AllBy(times[..|times| - 1], times[|times| - 1])
  {}

  /** In no window that ends now do tokens in hand and tokens spent exceed a burst plus what was earned. */
  lemma InHandBound(cfg: Config, times: seq<real>, lo: real, now: real)
    requires ValidConfig(cfg) && AllBy(times, now) && lo <= now
    ensures AdmittedAlone(cfg, times, lo, now) as real + InHand(cfg, times, now)
         <= cfg.burst as real + Earned(cfg, now - lo)
  {
    hide Ready, Earned, Alone, AdmittedAlone;
    AloneReady(cfg, times, now);
    WindowInvariant(cfg, times, lo, now);
    AloneFacts(cfg, times);
    EarnedAdds(cfg, lo, lo, now);
    if times == [] {
      NothingAdmitted(cfg, lo, now);
    } else {
      var last := times[|times| - 1];
      ReadyEarns(cfg, Alone(cfg, times).value, now);
      if lo <= last { EarnedAdds(cfg, lo, last, now); }
    }
  }

  lemma NothingAdmitted(cfg: Config, lo: real, hi: real)
    requires cfg.rate > 0.0
    ensures AdmittedAlone(cfg, [], lo, hi) == 0
  {}

  lemma {:induction false} LaterEnd(cfg: Config, times: seq<real>, lo: real, hi: real, later: real)
    requires cfg.rate > 0.0 && AllBy(times, hi) && hi <= later
    ensures AdmittedAlone(cfg, times, lo, later) == AdmittedAlone(cfg, times, lo, hi)
  {
    hide AloneAnswer;
    if times != [] {
      AllByBefore(times, hi);
      LaterEnd(cfg, times[..|times| - 1], lo, hi, later);
    }
  }

  lemma {:induction false} BeforeWindow(cfg: Config, times: seq<real>, lo: real, hi: real, last: real)
    requires cfg.rate > 0.0 && AllBy(times, last) && last < lo
    ensures AdmittedAlone(cfg, times, lo, hi) == 0
  {
    hide AloneAnswer;
    if times != [] {
      AllByBefore(times, last);
      BeforeWindow(cfg, times[..|times| - 1], lo, hi, last);
    }
  }

  /** A call spends a token exactly if it is admitted. */
  lemma LastCall(cfg: Config, times: seq<real>, lo: real, hi: real)
    requires cfg.rate > 0.0 && times != [] && lo <= times[|times| - 1] <= hi
    ensures var n := |times| - 1;
            var b := Ready(cfg, Alone(cfg, times[..n]), times[n]);
            && Alone(cfg, times) == Some(Spend(b))
            && AdmittedAlone(cfg, times, lo, hi) as real + Spend(b).tokens
               == AdmittedAlone(cfg, times[..n], lo, hi) as real + b.tokens
  {
    hide Ready;
  }

  lemma RefillCases(cfg: Config, b: Bucket, now: real)
    requires ValidConfig(cfg) && b.lastSeen <= now && b.tokens <= cfg.burst as real
    ensures var r := Ready(cfg, Some(b), now).tokens;
            r == b.tokens + Earned(cfg, now - b.lastSeen) || (r == cfg.burst as real && b.lastSeen < now)
  {
    hide Earned;
    SelfEarned(cfg, now - b.lastSeen);
  }

  /** And in some such window they are equal: the bucket holds the least room that any window leaves. */
  lemma {:induction false} TightWindow(cfg: Config, times: seq<real>, now: real) returns (lo: real)
    requires ValidConfig(cfg) && AllBy(times, now)
    ensures lo <= now
    ensures AdmittedAlone(cfg, times, lo, now) as real + InHand(cfg, times, now)
         == cfg.burst as real + Earned(cfg, now - lo)
    decreases |times|
  {
    hide Ready, Earned, Alone, AdmittedAlone, AllBy, Spend;
    if times == [] {
      lo := now;
      FirstCall(cfg, now);
    } else {
      var n := |times| - 1;
      var t := times[n];
      AllByBefore(times, now);
      lo := TightWindow(cfg, times[..n], t);
      LastCall(cfg, times, lo, now);
      LaterEnd(cfg, times[..n], lo, t, now);
      EarnedAdds(cfg, lo, t, now);
      AloneFacts(cfg, times);
      RefillCases(cfg, Alone(cfg, times).value, now);
      if InHand(cfg, times, now) != Alone(cfg, times).value.tokens + Earned(cfg, now - t) {
        lo := now;
        AllByItself(times, now);
        BeforeWindow(cfg, times, now, now, t);
        SelfEarned(cfg, now - now);
      }
    }
  }

  lemma AllByItself(times: seq<real>, now: real)
    requires times != [] && AllBy(times, now)
    ensures AllBy(times, times[|times| - 1])
  {}

  lemma FirstCall(cfg: Config, now: real)
    requires ValidConfig(cfg)
    ensures AdmittedAlone(cfg, [], now, now) == 0 && InHand(cfg, [], now) == cfg.burst as real
    ensures Earned(cfg, now - now) == 0.0
  {}

  /** One more call at `now` keeps the bound for the window that starts at `lo`. */
  predicate LeavesRoom(cfg: Config, calls: seq<Call>, key: string, lo: real, now: real)
    requires cfg.rate > 0.0
  {
    Admitted(cfg, calls, key, lo, now) as real + 1.0 <= cfg.burst as real + cfg.rate * (now - lo)
  }

  lemma RoomAlone(cfg: Config, calls: seq<Call>, key: string, lo: real, now: real)
    requires ValidConfig(cfg) && ReapsOnlyFull(cfg) && Chronological(calls)
    ensures LeavesRoom(cfg, calls, key, lo, now) <==>
              AdmittedAlone(cfg, TimesOf(calls, key), lo, now) as real + 1.0
              <= cfg.burst as real + Earned(cfg, now - lo)
  {
    hide Admitted, AdmittedAlone, Earned, TimesOf;
    AdmittedAsAlone(cfg, calls, key, lo, now);
    EarnedIsProduct(cfg, now - lo);
  }

  lemma CallsBefore(calls: seq<Call>, n: nat)
    requires Chronological(calls) && n < |calls|
    ensures Chronological(calls[..n]) && AllBy(TimesOf(calls[..n], calls[n].key), calls[n].now)
  {
    hide TimesOf;
    TimesOfFacts(calls[..n], calls[n].key);
    var times := TimesOf(calls[..n], calls[n].key);
    if times != [] {
      assert times[|times| - 1] in times;
      NoCallsNoTimes(calls[..n], calls[n].key);
      assert calls[..n][n-1] == calls[n-1];
    }
  }

  lemma NoCallsNoTimes(calls: seq<Call>, key: string)
    ensures calls == [] ==> TimesOf(calls, key) == []
  {}

  lemma AllowedIff(cfg: Config, times: seq<real>, now: real)
    requires cfg.rate > 0.0
    ensures AloneAnswer(cfg, times, now) == Allowed <==> InHand(cfg, times, now) >= 1.0
  {}

  /** The limiter admits a call exactly if that keeps the bound, burst + rate * T, for every window of length T
      that ends with it: it never admits more, and never less. */
  lemma AdmitsExactly(cfg: Config, calls: seq<Call>, n: nat)
    requires ValidConfig(cfg) && ReapsOnlyFull(cfg) && Chronological(calls) && n < |calls|
    ensures AnswerAt(cfg, calls, n) == Allowed <==>
              forall lo :: lo <= calls[n].now ==> LeavesRoom(cfg, calls[..n], calls[n].key, lo, calls[n].now)
  {
    hide AnswerAt, AloneAnswer, AdmittedAlone, Earned, InHand, ReapsOnlyFull, Chronological, LeavesRoom, TimesOf, AllBy;
    var key, now := calls[n].key, calls[n].now;
    var times := TimesOf(calls[..n], key);
    CallsBefore(calls, n);
    AnswersAlone(cfg, calls, n);
    AllowedIff(cfg, times, now);
    forall lo | lo <= now && InHand(cfg, times, now) >= 1.0
      ensures LeavesRoom(cfg, calls[..n], key, lo, now)
    {
      InHandBound(cfg, times, lo, now);
      RoomAlone(cfg, calls[..n], key, lo, now);
    }
    var tight := TightWindow(cfg, times, now);
    RoomAlone(cfg, calls[..n], key, tight, now);
  }

  // ---- The wait after a denial is exact ----

  lemma Waits(cfg: Config, b: Bucket, wait: real)
    requires ValidConfig(cfg) && b.tokens < 1.0 && Verdict(cfg, b) == Denied(wait)
    ensures forall d: real :: d >= 0.0 ==> (b.tokens + Earned(cfg, d) >= 1.0 <==> d >= wait)
  {
    var w := (1.0 - b.tokens) / cfg.rate;
    assert w * cfg.rate == 1.0 - b.tokens;
    forall d: real | d >= 0.0 ensures b.tokens + Earned(cfg, d) >= 1.0 <==> d >= wait {
      if d >= w { Product(d - w, cfg.rate); } else { StrictProduct(w - d, cfg.rate); }
      assert d * cfg.rate - w * cfg.rate == (d - w) * cfg.rate;
    }
  }

  lemma StrictProduct(x: real, y: real)
    requires x > 0.0 && y > 0.0
    ensures x * y > 0.0
  {}

  lemma AloneStep(cfg: Config, times: seq<real>, m: nat)
    requires 0 < m <= |times|
    ensures Alone(cfg, times[..m]) == Some(Spend(Ready(cfg, Alone(cfg, times[..m-1]), times[m-1])))
  {
    assert times[..m][..m-1] == times[..m-1];
  }

  predicate TooEarly(times: seq<real>, n: nat, m: nat, wait: real)
    requires n < m <= |times|
  {
    forall k :: n < k < m ==> times[k] < times[n] + wait
  }

  lemma AloneReady(cfg: Config, times: seq<real>, now: real)
    requires ValidConfig(cfg)
    ensures var b := Ready(cfg, Alone(cfg, times), now); 0.0 <= b.tokens <= cfg.burst as real && b.lastSeen == now
  {
    hide Ready;
    AloneFacts(cfg, times);
    ReadyBounds(cfg, Alone(cfg, times), now);
  }

  lemma EarlyFacts(times: seq<real>, n: nat, m: nat, wait: real)
    requires Rising(times) && n < m <= |times| && TooEarly(times, n, m, wait)
    ensures m > n + 1 ==> times[n] <= times[m-2] <= times[m-1] < times[n] + wait
    ensures m > n + 1 ==> TooEarly(times, n, m - 1, wait)
  {}

  /** While every later call is too early, the bucket only keeps earning. */
  lemma {:induction false} DeniedKeepsEarning(cfg: Config, times: seq<real>, n: nat, m: nat, wait: real)
    requires ValidConfig(cfg) && Rising(times) && n < m <= |times|
    requires AloneAnswer(cfg, times[..n], times[n]) == Denied(wait)
    requires TooEarly(times, n, m, wait)
    ensures var b := Ready(cfg, Alone(cfg, times[..n]), times[n]);
            Alone(cfg, times[..m]) == Some(Bucket(b.tokens + Earned(cfg, times[m-1] - times[n]), times[m-1]))
    decreases m
  {
    hide Earned, Ready, Verdict, Alone, Spend, Rising, TooEarly;
    AloneStep(cfg, times, m);
    EarlyFacts(times, n, m, wait);
    var b := Ready(cfg, Alone(cfg, times[..n]), times[n]);
    AloneReady(cfg, times[..n], times[n]);
    DeniedIsLow(cfg, b, wait);
    if m == n + 1 {
      EarnedAdds(cfg, times[n], times[n], times[n]);
    } else {
      DeniedKeepsEarning(cfg, times, n, m - 1, wait);
      var before := Bucket(b.tokens + Earned(cfg, times[m-2] - times[n]), times[m-2]);
      assert Alone(cfg, times[..m-1]) == Some(before);
      StillDenied(cfg, b, times[m-2], times[m-1], wait);
    }
  }

  lemma DeniedIsLow(cfg: Config, b: Bucket, wait: real)
    requires ValidConfig(cfg) && Verdict(cfg, b) == Denied(wait)
    ensures b.tokens < 1.0 && Spend(b) == b
  {}

  /** One more call that comes too early. */
  lemma StillDenied(cfg: Config, b: Bucket, last: real, now: real, wait: real)
    requires ValidConfig(cfg) && Verdict(cfg, b) == Denied(wait) && b.tokens >= 0.0
    requires b.lastSeen <= last <= now < b.lastSeen + wait
    ensures var stored := Bucket(b.tokens + Earned(cfg, last - b.lastSeen), last);
            var ready := Ready(cfg, Some(stored), now);
            && ready == Bucket(b.tokens + Earned(cfg, now - b.lastSeen), now)
            && Spend(ready) == ready && Verdict(cfg, ready) != Allowed
  {
    hide Earned;
    DeniedIsLow(cfg, b, wait);
    Waits(cfg, b, wait);
    EarnedAdds(cfg, b.lastSeen, last, now);
    EarnedAdds(cfg, now, now, now);
    assert b.tokens + Earned(cfg, now - b.lastSeen) < 1.0;
    SelfEarned(cfg, now - last);
  }

  lemma SelfEarned(cfg: Config, d: real)
    ensures d == 0.0 ==> Earned(cfg, d) == 0.0
  {}

  /** After a denial with wait r at time t, however many denied calls come between, every call of that key
      before t + r is denied and the first at or after t + r is admitted. */
  lemma RetryAfterExact(cfg: Config, calls: seq<Call>, n: nat, m: nat, wait: real)
    requires ValidConfig(cfg) && ReapsOnlyFull(cfg) && Chronological(calls) && n < m < |calls|
    requires calls[m].key == calls[n].key && AnswerAt(cfg, calls, n) == Denied(wait)
    requires forall k :: n < k < m && calls[k].key == calls[n].key ==> calls[k].now < calls[n].now + wait
    ensures AnswerAt(cfg, calls, m) == Allowed <==> calls[m].now >= calls[n].now + wait
  {
    hide AnswerAt, Ready, Earned;
    var key := calls[n].key;
    AnswersAlone(cfg, calls, n);
    AnswersAlone(cfg, calls, m);
    var times := TimesOf(calls[..m], key);
    var i := |TimesOf(calls[..n], key)|;
    TimesOfFacts(calls[..m], key);
    PrefixTimes(calls, n, m, key);
    RetryAlone(cfg, times, i, calls[m].now, wait);
  }

  /** A wait as the code returns it: cut to whole nanoseconds. */
  function Announced(wait: real): real {
    (wait * 1_000_000_000.0).Floor as real / 1_000_000_000.0
  }

  lemma AnnouncedBounds(wait: real)
    ensures Announced(wait) <= wait < Announced(wait) + 0.000_000_001
  {
    var n := (wait * 1_000_000_000.0).Floor as real;
    assert n <= wait * 1_000_000_000.0 < n + 1.0;
    assert Announced(wait) * 1_000_000_000.0 == n;
  }

  /** For a caller who only knows the announced wait: of that key, every call before it has passed is denied,
      and the first later by at least a nanosecond is admitted. */
  lemma RetryAfterAnnounced(cfg: Config, calls: seq<Call>, n: nat, m: nat, wait: real)
    requires ValidConfig(cfg) && ReapsOnlyFull(cfg) && Chronological(calls) && n < m < |calls|
    requires calls[m].key == calls[n].key && AnswerAt(cfg, calls, n) == Denied(wait)
    requires forall k :: n < k < m && calls[k].key == calls[n].key ==> calls[k].now < calls[n].now + Announced(wait)
    ensures calls[m].now < calls[n].now + Announced(wait) ==> AnswerAt(cfg, calls, m) != Allowed
    ensures calls[m].now >= calls[n].now + Announced(wait) + 0.000_000_001 ==> AnswerAt(cfg, calls, m) == Allowed
  {
    hide AnswerAt, Announced, ReapsOnlyFull;
    AnnouncedBounds(wait);
    RetryAfterExact(cfg, calls, n, m, wait);
  }

  /** The times of a key in a longer trace: those of the shorter one, the call itself, and later ones. */
  lemma {:induction false} PrefixTimes(calls: seq<Call>, n: nat, m: nat, key: string)
    requires n < m <= |calls| && calls[n].key == key
    ensures var before, times := TimesOf(calls[..n], key), TimesOf(calls[..m], key);
            && |before| < |times| && times[..|before|] == before && times[|before|] == calls[n].now
            && forall j :: |before| < j < |times| ==> CalledBetween(calls, n, m, key, times[j])
    decreases m
  {
    assert calls[..m][..m-1] == calls[..m-1];
    if m > n + 1 {
      PrefixTimes(calls, n, m - 1, key);
      var before, times := TimesOf(calls[..n], key), TimesOf(calls[..m], key);
      var shorter := TimesOf(calls[..m-1], key);
      forall j | |before| < j < |times| ensures CalledBetween(calls, n, m, key, times[j]) {
        if j < |shorter| {
          assert CalledBetween(calls, n, m - 1, key, shorter[j]);
        } else {
          assert calls[m-1].key == key && calls[m-1].now == times[j];
        }
      }
    }
  }

  predicate CalledBetween(calls: seq<Call>, n: nat, m: nat, key: string, t: real)
    requires m <= |calls|
  {
    exists k :: n < k < m && calls[k].key == key && calls[k].now == t
  }

  lemma RetryAlone(cfg: Config, times: seq<real>, n: nat, now: real, wait: real)
    requires ValidConfig(cfg) && Rising(times) && n < |times| && times[|times| - 1] <= now
    requires AloneAnswer(cfg, times[..n], times[n]) == Denied(wait)
    requires forall k :: n < k < |times| ==> times[k] < times[n] + wait
    ensures AloneAnswer(cfg, times, now) == Allowed <==> now >= times[n] + wait
  {
    hide Earned, Ready, Verdict;
    var b := Ready(cfg, Alone(cfg, times[..n]), times[n]);
    var m := |times|;
    assert times[..m] == times;
    AloneFacts(cfg, times[..n]);
    ReadyBounds(cfg, Alone(cfg, times[..n]), times[n]);
    DeniedKeepsEarning(cfg, times, n, m, wait);
    NextVerdict(cfg, b, times[m-1], now, wait);
  }

  /** The call after a run of denials: admitted exactly from the announced moment on. */
  lemma NextVerdict(cfg: Config, b: Bucket, last: real, now: real, wait: real)
    requires ValidConfig(cfg) && Verdict(cfg, b) == Denied(wait) && b.tokens >= 0.0
    requires b.lastSeen <= last <= now
    ensures var stored := Bucket(b.tokens + Earned(cfg, last - b.lastSeen), last);
            Verdict(cfg, Ready(cfg, Some(stored), now)) == Allowed <==> now >= b.lastSeen + wait
  {
    hide Earned;
    DeniedIsLow(cfg, b, wait);
    Waits(cfg, b, wait);
    EarnedAdds(cfg, b.lastSeen, last, now);
    SelfEarned(cfg, now - last);
    assert b.tokens + Earned(cfg, now - b.lastSeen) >= 1.0 <==> now - b.lastSeen >= wait;
  }
}
