/** Retries with exponential backoff (pkg/resilience/retry/retry.go, backoff.go). Durations are whole
    nanoseconds; the float arithmetic on them is over the reals. */
module Retry {
  import opened Results

  datatype Failure = Failure(text: string)

  datatype Policy = Policy(maxAttempts: int, initialDelay: int, maxDelay: int, multiplier: real,
                           jitterFactor: real, isRetryable: Option<Failure -> bool>)

  const DEFAULT_INITIAL_DELAY: int := 100_000_000
  const DEFAULT_MAX_DELAY: int := 30_000_000_000

  predicate DefaultIsRetryable(f: Failure) { true }

  // ---- The policy ----

  predicate Accepted(p: Policy) {
    p.maxAttempts >= 1 && p.multiplier > 0.0 && 0.0 <= p.jitterFactor <= 1.0
  }

  /** What a retrier runs under. */
  predicate Valid(p: Policy) {
    && Accepted(p)
    && 0 <= p.initialDelay && 0 <= p.maxDelay
    && (p.maxDelay > 0 ==> p.initialDelay <= p.maxDelay)
    && p.isRetryable.Some?
  }

  function Normalized(p: Policy): Policy {
    var initial := if p.initialDelay < 0 then DEFAULT_INITIAL_DELAY else p.initialDelay;
    var maximum := if p.maxDelay < 0 then DEFAULT_MAX_DELAY else p.maxDelay;
    p.(initialDelay := if maximum > 0 && initial > maximum then maximum else initial,
       maxDelay := maximum,
       isRetryable := if p.isRetryable.None? then Some(DefaultIsRetryable) else p.isRetryable)
  }

  /** Normalising an accepted policy makes it valid, and leaves exactly the valid ones as they are. */
  lemma NormalizedIsValid(p: Policy)
    requires Accepted(p)
    ensures Valid(Normalized(p)) && (Normalized(p) == p <==> Valid(p))
    ensures Normalized(Normalized(p)) == Normalized(p)
  {}

  /** What is repaired, and how: a negative delay is replaced, an initial delay above a positive cap is cut, and a
      missing predicate retries everything. */
  lemma NormalizedFills(p: Policy)
    ensures var q := Normalized(p);
            && q.maxAttempts == p.maxAttempts && q.multiplier == p.multiplier && q.jitterFactor == p.jitterFactor
            && q.maxDelay == (if p.maxDelay >= 0 then p.maxDelay else 30_000_000_000)
            && (var wish := if p.initialDelay >= 0 then p.initialDelay else 100_000_000;
                q.initialDelay == if 0 < q.maxDelay < wish then q.maxDelay else wish)
            && (if p.isRetryable.Some? then q.isRetryable == p.isRetryable
                else q.isRetryable.Some? && forall f :: q.isRetryable.value(f))
  {}

  class PolicyRecord {
    var maxAttempts: int
    var initialDelay: int
    var maxDelay: int
    var multiplier: real
    var jitterFactor: real
    var isRetryable: Option<Failure -> bool>

    function Value(): Policy
      reads this
    {
      Policy(maxAttempts, initialDelay, maxDelay, multiplier, jitterFactor, isRetryable)
    }

    constructor (p: Policy)
      ensures Value() == p
    {
      maxAttempts, initialDelay, maxDelay := p.maxAttempts, p.initialDelay, p.maxDelay;
      multiplier, jitterFactor, isRetryable := p.multiplier, p.jitterFactor, p.isRetryable;
    }

    /** Rejects what cannot be repaired, and then changes nothing; repairs the rest in place. */
    method Validate() returns (ok: bool)
      modifies this
      ensures ok <==> old(maxAttempts) >= 1 && old(multiplier) > 0.0 && 0.0 <= old(jitterFactor) <= 1.0
      ensures ok ==> Valid(Value()) && Value() == Normalized(old(Value()))
      ensures !ok ==> Value() == old(Value())
    {
      if maxAttempts < 1 { return false; }
      if multiplier <= 0.0 { return false; }
      if jitterFactor < 0.0 || jitterFactor > 1.0 { return false; }
      if initialDelay < 0 {
        initialDelay := DEFAULT_INITIAL_DELAY;
      }
      if maxDelay < 0 {
        maxDelay := DEFAULT_MAX_DELAY;
      }
      if maxDelay > 0 && initialDelay > maxDelay {
        initialDelay := maxDelay;
      }
      if isRetryable.None? {
        isRetryable := Some(DefaultIsRetryable);
      }
      return true;
    }
  }

  // ---- The delays ----

  /** rand.Float64. */
  type Draw = r: real | 0.0 <= r < 1.0 witness 0.0

  function Pow(m: real, n: nat): real {
    if n == 0 then 1.0 else m * Pow(m, n - 1)
  }

  function Min(a: real, b: real): real { if a <= b then a else b }

  /** The documented delay before jitter: min(InitialDelay * Multiplier^(attempt-1), MaxDelay), the cap only
      when it is positive. */
  function Nominal(p: Policy, attempt: int): real
    requires attempt >= 1
  {
    var base := p.initialDelay as real * Pow(p.multiplier, attempt - 1);
    if p.maxDelay > 0 then Min(base, p.maxDelay as real) else base
  }

  lemma {:induction false} PowPositive(m: real, n: nat)
    requires m > 0.0
    ensures Pow(m, n) > 0.0
  {
    if n > 0 {
      PowPositive(m, n - 1);
    }
  }

  lemma NominalPositive(p: Policy, attempt: int)
    requires Valid(p) && attempt >= 1
    ensures p.initialDelay > 0 ==> Nominal(p, attempt) > 0.0
    ensures p.initialDelay == 0 ==> Nominal(p, attempt) == 0.0
    ensures p.maxDelay > 0 ==> Nominal(p, attempt) <= p.maxDelay as real
    ensures Nominal(p, attempt) <= p.initialDelay as real * Pow(p.multiplier, attempt - 1)
  {
    PowPositive(p.multiplier, attempt - 1);
  }

  lemma Scale(c: real, x: real, y: real)
    requires c >= 0.0 && x <= y
    ensures c * x <= c * y
  {}

  lemma Distribute(c: real, x: real, y: real)
    ensures c * (x + y) == c * x + c * y
  {}

  lemma Fraction(x: real, y: real)
    requires 0.0 <= x < y
    ensures 0.0 <= x / y < 1.0
  {}

  /** What jitter makes of a delay. */
  function Jittered(nominal: real, jitterFactor: real, r: Draw): real {
    nominal * (1.0 + jitterFactor * (2.0 * r - 1.0))
  }

  lemma JitterBand(nominal: real, jitterFactor: real, r: Draw)
    requires nominal >= 0.0 && 0.0 <= jitterFactor <= 1.0
    ensures 0.0 <= nominal * (1.0 - jitterFactor) <= Jittered(nominal, jitterFactor, r)
    ensures Jittered(nominal, jitterFactor, r) <= nominal * (1.0 + jitterFactor)
    ensures nominal > 0.0 && jitterFactor > 0.0 ==> Jittered(nominal, jitterFactor, r) < nominal * (1.0 + jitterFactor)
  {
    var signed := 2.0 * r - 1.0;
    assert -jitterFactor <= jitterFactor * signed <= jitterFactor;
    assert jitterFactor > 0.0 ==> jitterFactor * signed < jitterFactor;
    Scale(nominal, 1.0 - jitterFactor, 1.0 + jitterFactor * signed);
    Scale(nominal, 1.0 + jitterFactor * signed, 1.0 + jitterFactor);
  }

  /** The wait after an attempt: the jittered delay, cut to whole nanoseconds. */
  function Delay(p: Policy, attempt: int, r: Draw): int
    requires attempt >= 1
  {
    Jittered(Nominal(p, attempt), p.jitterFactor, r).Floor
  }

  /** time.Duration holds 64 bits. */
  const MAX_DURATION: int := 0x7fff_ffff_ffff_ffff

  type Duration = d: int | -MAX_DURATION - 1 <= d <= MAX_DURATION

  /** What the code returns: the delay, if it fits a time.Duration. The conversion of a larger floating-point
      number is left to the platform and may even be negative. */
  predicate Yields(p: Policy, attempt: int, r: Draw, d: Duration)
    requires attempt >= 1
  {
    Delay(p, attempt, r) <= MAX_DURATION ==> d == Delay(p, attempt, r)
  }

  /** It fits whenever there is a cap of up to half the range, some 146 years. */
  lemma CappedDelayFits(p: Policy, attempt: int, r: Draw, d: Duration)
    requires Valid(p) && attempt >= 1 && 0 < p.maxDelay <= 0x3fff_ffff_ffff_ffff && Yields(p, attempt, r, d)
    ensures d == Delay(p, attempt, r)
  {
    hide Delay, Valid;
    ValidJitter(p);
    var c, cap := 1.0 + p.jitterFactor, p.maxDelay as real;
    DelayUnderCap(p, attempt, r);
    Scale(cap, c, 2.0);
    assert c * cap == cap * c;
    assert Delay(p, attempt, r) as real <= (2 * p.maxDelay) as real;
  }

  /** In any case the loop does not sleep longer than the delay. */
  lemma SleepsAtMost(p: Policy, attempt: int, r: Draw, d: Duration)
    requires Valid(p) && attempt >= 1 && Yields(p, attempt, r, d)
    ensures 0 <= Slept(d) <= Delay(p, attempt, r)
    ensures Delay(p, attempt, r) <= MAX_DURATION ==> Slept(d) == Delay(p, attempt, r)
  {
    hide Delay;
    DelayBand(p, attempt, r);
  }

  /** A wait of zero or less is no wait. */
  function Slept(d: Duration): int { if d > 0 then d else 0 }

  /** Every delay lies within the jitter band around the documented formula. */
  lemma DelayBand(p: Policy, attempt: int, r: Draw)
    requires Valid(p) && attempt >= 1
    ensures 0 <= Delay(p, attempt, r)
    ensures (1.0 - p.jitterFactor) * Nominal(p, attempt) - 1.0 < Delay(p, attempt, r) as real
    ensures Delay(p, attempt, r) as real <= (1.0 + p.jitterFactor) * Nominal(p, attempt)
  {
    hide Nominal, Jittered;
    NominalPositive(p, attempt);
    JitterBand(Nominal(p, attempt), p.jitterFactor, r);
  }

  /** And within the band it is where the draw says: from the lower edge at 0 in proportion towards the upper edge. */
  lemma DelayFollowsDraw(p: Policy, attempt: int, r: Draw)
    requires Valid(p) && attempt >= 1
    ensures var lower := (1.0 - p.jitterFactor) * Nominal(p, attempt);
            var upper := (1.0 + p.jitterFactor) * Nominal(p, attempt);
            Delay(p, attempt, r) as real <= lower + (upper - lower) * r < Delay(p, attempt, r) as real + 1.0
  {
    hide Nominal;
    AlongBand(Nominal(p, attempt), p.jitterFactor, r);
  }

  lemma AlongBand(n: real, j: real, r: Draw)
    ensures var lower, upper := (1.0 - j) * n, (1.0 + j) * n;
            Jittered(n, j, r) == lower + (upper - lower) * r
  {
    assert (1.0 + j) * n - (1.0 - j) * n == 2.0 * (j * n);
    assert n * (1.0 + j * (2.0 * r - 1.0)) == n + (j * n) * (2.0 * r - 1.0);
  }

  /** Jitter comes after the cap, so `MaxDelay` does not cap the delay itself: it does, for every draw, exactly
      when there is no jitter or the upper edge of the band is at most a nanosecond past it. */
  lemma CapHoldsIff(p: Policy, attempt: int)
    requires Valid(p) && attempt >= 1 && p.maxDelay > 0
    ensures (forall r: Draw :: Delay(p, attempt, r) <= p.maxDelay)
        <==> p.jitterFactor == 0.0 || Nominal(p, attempt) * (1.0 + p.jitterFactor) <= (p.maxDelay + 1) as real
  {
    hide Nominal;
    NominalPositive(p, attempt);
    var n, j, top := Nominal(p, attempt), p.jitterFactor, (p.maxDelay + 1) as real;
    if j == 0.0 || n * (1.0 + j) <= top {
      forall r: Draw
        ensures Delay(p, attempt, r) <= p.maxDelay
      {
        JitterBand(n, j, r);
        assert Jittered(n, j, r) < top;
      }
    } else {
      var r := DrawReaching(n, j, top);
      assert Delay(p, attempt, r) > p.maxDelay;
    }
  }

  /** For instance, the first delay of this policy can be 125 although MaxDelay is 100. */
  lemma JitterPassesCap()
    ensures var p := Policy(3, 100, 100, 2.0, 0.5, Some(DefaultIsRetryable));
            Valid(p) && Delay(p, 1, 0.75) == 125
  {
    var p := Policy(3, 100, 100, 2.0, 0.5, Some(DefaultIsRetryable));
    assert Pow(p.multiplier, 0) == 1.0;
    assert Nominal(p, 1) == 100.0;
    assert Jittered(100.0, 0.5, 0.75) == 125.0;
  }

  /** Every value below the upper edge of the band is reached or passed by some draw. */
  lemma DrawReaching(n: real, j: real, x: real) returns (r: Draw)
    requires n > 0.0 && 0.0 < j <= 1.0 && x < n * (1.0 + j)
    ensures Jittered(n, j, r) >= x
  {
    if x <= n * (1.0 - j) {
      r := 0.0;
      JitterBand(n, j, r);
    } else {
      var over := x / n - 1.0;
      assert over * n == x - n;
      assert -j < over < j;
      var q := (over + j) / (2.0 * j);
      Fraction(over + j, 2.0 * j);
      assert j * (2.0 * q - 1.0) == over;
      r := q;
    }
  }

  /** With a growing policy, delays before jitter never shrink; once at the cap they stay there. */
  lemma NominalGrows(p: Policy, attempt: int)
    requires Valid(p) && attempt >= 1 && p.multiplier >= 1.0
    ensures Nominal(p, attempt) <= Nominal(p, attempt + 1)
  {
    PowPositive(p.multiplier, attempt - 1);
    var now, next := Pow(p.multiplier, attempt - 1), Pow(p.multiplier, attempt);
    assert next == p.multiplier * now;
    assert now <= next;
    assert p.initialDelay as real * now <= p.initialDelay as real * next;
  }

  lemma {:induction false} PowShrinks(m: real, n: nat)
    requires 0.0 < m <= 1.0
    ensures Pow(m, n) <= 1.0
  {
    if n > 0 {
      PowShrinks(m, n - 1);
      PowPositive(m, n - 1);
      Scale(Pow(m, n - 1), m, 1.0);
    }
  }

  /** The delays before jitter, one from the other: the first is the initial delay, and each of the others is the
      one before times the multiplier, cut at the cap if there is one. */
  lemma NominalRecurrence(p: Policy, attempt: int)
    requires Valid(p) && attempt >= 1
    ensures Nominal(p, 1) == p.initialDelay as real
    ensures p.maxDelay == 0 ==> Nominal(p, attempt + 1) == p.multiplier * Nominal(p, attempt)
    ensures p.maxDelay > 0 ==>
              Nominal(p, attempt + 1) == Min(p.multiplier * Nominal(p, attempt), p.maxDelay as real)
  {
    hide Nominal, Uncut, Valid;
    NominalFacts(p, attempt);
    NominalFacts(p, attempt + 1);
    UncutGrows(p, attempt);
    if p.maxDelay > 0 {
      if p.multiplier >= 1.0 {
        CutThenGrow(Uncut(p, attempt), p.multiplier, p.maxDelay as real);
      } else {
        UncutShrinks(p, attempt);
      }
    }
  }

  /** The exponential without the cap. */
  function Uncut(p: Policy, attempt: int): real
    requires attempt >= 1
  {
    p.initialDelay as real * Pow(p.multiplier, attempt - 1)
  }

  lemma NominalFacts(p: Policy, attempt: int)
    requires Valid(p) && attempt >= 1
    ensures Nominal(p, attempt)
         == if p.maxDelay > 0 then Min(Uncut(p, attempt), p.maxDelay as real) else Uncut(p, attempt)
    ensures Nominal(p, 1) == p.initialDelay as real
    ensures p.maxDelay >= 0 && p.multiplier > 0.0
  {
    assert Pow(p.multiplier, 0) == 1.0;
  }

  lemma UncutGrows(p: Policy, attempt: int)
    requires attempt >= 1
    ensures Uncut(p, attempt + 1) == p.multiplier * Uncut(p, attempt)
  {
    var d, m, pow := p.initialDelay as real, p.multiplier, Pow(p.multiplier, attempt - 1);
    assert Pow(m, attempt) == m * pow;
    assert d * (m * pow) == m * (d * pow);
  }

  lemma UncutShrinks(p: Policy, attempt: int)
    requires Valid(p) && attempt >= 1 && p.multiplier < 1.0 && p.maxDelay > 0
    ensures Uncut(p, attempt) <= p.maxDelay as real
  {
    var d, pow := p.initialDelay as real, Pow(p.multiplier, attempt - 1);
    PowShrinks(p.multiplier, attempt - 1);
    hide Pow;
    Scale(d, pow, 1.0);
    assert d * 1.0 == d;
    assert Uncut(p, attempt) == d * pow;
  }

  lemma CutThenGrow(base: real, m: real, cap: real)
    requires m >= 1.0 && cap >= 0.0
    ensures Min(m * base, cap) == Min(m * Min(base, cap), cap)
  {
    if base > cap {
      Scale(cap, 1.0, m);
      Scale(m, cap, base);
    }
  }

  class Backoff {
    const policy: Policy
    const source: nat -> Draw // what the random-number generator yields
    var drawn: nat            // how much of it has been used
    const beyond: real -> Duration // what the platform makes of a number too large for a duration

    constructor (policy: Policy, source: nat -> Draw, beyond: real -> Duration)
      ensures this.policy == policy && this.source == source && this.beyond == beyond && drawn == 0
    {
      this.policy, this.source, this.beyond, this.drawn := policy, source, beyond, 0;
    }

    /** The capped exponential. */
    method Base(attempt: int) returns (base: real)
      requires attempt >= 1
      ensures base == Nominal(policy, attempt)
    {
      hide Pow;
      var mult := Pow(policy.multiplier, attempt - 1);
      base := policy.initialDelay as real * mult;
      if policy.maxDelay > 0 && base > policy.maxDelay as real {
        base := policy.maxDelay as real;
      }
    }

    /** The symmetric jitter, drawn only if there is any. */
    method Jitter(nominal: real) returns (base: real, ghost r: Draw)
      modifies this
      ensures policy.jitterFactor >= 0.0 ==> base == Jittered(nominal, policy.jitterFactor, r)
      ensures drawn == old(drawn) || (drawn == old(drawn) + 1 && r == source(old(drawn)))
    {
      base, r := nominal, 0.0;
      if policy.jitterFactor > 0.0 {
        r := source(drawn);
        var signed := 2.0 * source(drawn) - 1.0;
        drawn := drawn + 1;
        JitterForm(nominal, policy.jitterFactor, signed);
        base := base + base * policy.jitterFactor * signed;
      }
    }

    /** `delay`: attempts below 1 count as the first, and without jitter no random number is used up. */
    method NextDelay(attempt: int) returns (d: Duration, ghost r: Draw)
      requires Valid(policy)
      modifies this
      ensures Yields(policy, if attempt < 1 then 1 else attempt, r, d)
      ensures drawn == old(drawn) || (drawn == old(drawn) + 1 && r == source(old(drawn)))
    {
      hide Pow, Nominal, Jittered;
      var n := attempt;
      if n < 1 {
        n := 1;
      }
      r := 0.0;
      NominalPositive(policy, n);
      if policy.initialDelay <= 0 {
        NoDelay(policy, n, r);
        return 0, r;
      }
      var base := Base(n);
      base, r := Jitter(base);
      JitterBand(Nominal(policy, n), policy.jitterFactor, r);
      if base < 0.0 {
        base := 0.0;
      }
      if base < 9223372036854775808.0 {
        d := base.Floor;
      } else {
        d := beyond(base);
      }
    }
  }

  lemma JitterForm(nominal: real, j: real, signed: real)
    ensures nominal + nominal * j * signed == nominal * (1.0 + j * signed)
  {
    assert nominal * j * signed == nominal * (j * signed);
    Distribute(nominal, 1.0, j * signed);
  }

  lemma NoDelay(p: Policy, attempt: int, r: Draw)
    requires Valid(p) && attempt >= 1 && p.initialDelay == 0
    ensures Delay(p, attempt, r) == 0
  {
    hide Nominal;
    NominalPositive(p, attempt);
  }

  // ---- The loop ----

  /** What happens around one call of `Do`: how each attempt ends (None: success), whether the context is done
      when it is looked at (0: on entry, i: before attempt i), and whether it ends during the wait after
      attempt i. */
  datatype Surroundings = Surroundings(outcome: nat -> Option<Failure>, done: nat -> bool, interrupted: nat -> bool)

  datatype Answer = Success | Failed(failure: Failure) | ContextDone

  /** Attempt i failed, but another may follow. */
  predicate Retries(p: Policy, w: Surroundings, i: nat) {
    w.outcome(i).Some? && p.isRetryable.Some? && p.isRetryable.value(w.outcome(i).value) && i < p.maxAttempts
  }

  /** Attempt i was made and followed by its whole wait. */
  predicate GoesOn(p: Policy, w: Surroundings, waits: seq<Duration>, i: nat)
    requires 1 <= i <= |waits|
  {
    !w.done(i) && Retries(p, w, i) && (waits[i-1] > 0 ==> !w.interrupted(i))
  }

  lemma GoesOnAppend(p: Policy, w: Surroundings, waits: seq<Duration>, d: Duration)
    requires forall i :: 1 <= i <= |waits| ==> GoesOn(p, w, waits, i)
    ensures forall i :: 1 <= i <= |waits| ==> GoesOn(p, w, waits + [d], i)
  {
    forall i | 1 <= i <= |waits|
      ensures GoesOn(p, w, waits + [d], i)
    {
      assert GoesOn(p, w, waits, i);
    }
  }

  /** The loop made k attempts, asked for the given waits, and answered. */
  predicate Ended(p: Policy, w: Surroundings, waits: seq<Duration>, k: nat, answer: Answer) {
    if w.done(0) then k == 0 && waits == [] && answer == ContextDone
    else
      && k <= p.maxAttempts
      && (|waits| == k || |waits| == k - 1)
      && (forall i :: 1 <= i < k ==> GoesOn(p, w, waits, i))
      && if |waits| == k then
           // done before attempt k + 1, or while waiting for it
           && answer == ContextDone
           && (k > 0 ==> !w.done(k) && Retries(p, w, k))
           && (if k > 0 && waits[k-1] > 0 && w.interrupted(k) then true else w.done(k + 1))
         else
           && !w.done(k) && !Retries(p, w, k)
           && answer == if w.outcome(k).None? then Success else Failed(w.outcome(k).value)
  }

  lemma EndedNoSooner(p: Policy, w: Surroundings, waits: seq<Duration>, k: nat, a: Answer,
                      waits': seq<Duration>, k': nat, a': Answer)
    requires Ended(p, w, waits, k, a) && Ended(p, w, waits', k', a') && k <= k'
    requires forall i :: 0 <= i < |waits| && i < |waits'| ==> waits[i] == waits'[i]
    ensures k == k' && a == a' && waits == waits'
  {
    var goesOnAfter := 0 < k < k' && GoesOn(p, w, waits', k);
    var goesOnNext := k + 1 < k' && GoesOn(p, w, waits', k + 1);
  }

  /** That fixes how the loop ends: with the same surroundings and the same delays there is one outcome. */
  lemma EndedUnique(p: Policy, w: Surroundings, waits: seq<Duration>, k: nat, a: Answer,
                    waits': seq<Duration>, k': nat, a': Answer)
    requires Ended(p, w, waits, k, a) && Ended(p, w, waits', k', a')
    requires forall i :: 0 <= i < |waits| && i < |waits'| ==> waits[i] == waits'[i]
    ensures k == k' && a == a' && waits == waits'
  {
    hide Ended;
    if k <= k' {
      EndedNoSooner(p, w, waits, k, a, waits', k', a');
    } else {
      EndedNoSooner(p, w, waits', k', a', waits, k, a);
    }
  }

  /** At most MaxAttempts attempts, and fewer waits than attempts allowed. */
  lemma EndedWithinLimit(p: Policy, w: Surroundings, waits: seq<Duration>, k: nat, a: Answer)
    requires Valid(p) && Ended(p, w, waits, k, a)
    ensures k <= p.maxAttempts && |waits| < p.maxAttempts
    ensures a == Success <==> k >= 1 && |waits| == k - 1 && w.outcome(k).None?
  {}

  /** Another attempt follows only after a failure that the policy calls retryable. */
  predicate RetryableAt(p: Policy, w: Surroundings, i: nat) {
    w.outcome(i).Some? && p.isRetryable.Some? && p.isRetryable.value(w.outcome(i).value)
  }

  /** Why the loop stops where it does: a success or a failure that is not retryable ends it at once; a retryable
      failure is given back only when all attempts are used up; and otherwise the context has ended. */
  lemma WhyStopped(p: Policy, w: Surroundings, waits: seq<Duration>, k: nat, a: Answer)
    requires Valid(p) && Ended(p, w, waits, k, a)
    ensures forall i :: 1 <= i < k ==> RetryableAt(p, w, i)
    ensures a == Success <==> k >= 1 && w.outcome(k).None?
    ensures a.Failed? ==> k >= 1 && w.outcome(k) == Some(a.failure) && (k == p.maxAttempts || !RetryableAt(p, w, k))
    ensures a == ContextDone ==> (k < p.maxAttempts || w.done(0)) && (w.done(0) || w.done(k + 1) || w.interrupted(k))
    ensures k >= 1 && !RetryableAt(p, w, k) ==> a != ContextDone
  {
    forall i | 1 <= i < k ensures RetryableAt(p, w, i) {
      assert GoesOn(p, w, waits, i);
    }
  }

  /** So if attempt i is made and ends in a success or in a failure that is not retryable, it is the last. */
  lemma StopsAtOnce(p: Policy, w: Surroundings, waits: seq<Duration>, k: nat, a: Answer, i: nat)
    requires Valid(p) && Ended(p, w, waits, k, a) && 1 <= i <= k && !RetryableAt(p, w, i)
    ensures k == i && a == if w.outcome(i).None? then Success else Failed(w.outcome(i).value)
  {
    hide Ended;
    WhyStopped(p, w, waits, k, a);
  }

  class Retrier {
    const policy: Policy
    const backoff: Backoff

    constructor (policy: Policy, source: nat -> Draw, beyond: real -> Duration)
      requires Valid(policy)
      ensures this.policy == policy && backoff.policy == policy && fresh(backoff)
    {
      this.policy := policy;
      this.backoff := new Backoff(policy, source, beyond);
    }

    /** `New` works on its own copy of the policy. */
    static method New(p: Policy, source: nat -> Draw, beyond: real -> Duration) returns (r: Option<Retrier>)
      ensures r.Some? <==> p.maxAttempts >= 1 && p.multiplier > 0.0 && 0.0 <= p.jitterFactor <= 1.0
      ensures r.Some? ==> fresh(r.value) && fresh(r.value.backoff)
      ensures r.Some? ==> r.value.policy == Normalized(p) == r.value.backoff.policy && Valid(r.value.policy)
    {
      var copy := new PolicyRecord(p);
      var ok := copy.Validate();
      if !ok { return None; }
      var retrier := new Retrier(copy.Value(), source, beyond);
      return Some(retrier);
    }

    /** Attempts are numbered 1, 2, ..., k without gaps; when and how the loop ends is as Ended says; the
        waits are the delays of the policy. */
    method Do(w: Surroundings) returns (answer: Answer, calls: seq<int>, waits: seq<Duration>, ghost draws: seq<Draw>)
      requires Valid(policy) && backoff.policy == policy
      modifies backoff
      ensures Ended(policy, w, waits, |calls|, answer)
      ensures forall i :: 0 <= i < |calls| ==> calls[i] == i + 1
      ensures |draws| == |waits|
      ensures forall i :: 0 <= i < |waits| ==> Yields(policy, i + 1, draws[i], waits[i])
    {
      hide Delay, Yields;
      calls, waits, draws := [], [], [];
      if w.done(0) {
        return ContextDone, calls, waits, draws;
      }
      var attempt := 1;
      while attempt <= policy.maxAttempts
        invariant 1 <= attempt <= policy.maxAttempts
        invariant |calls| == attempt - 1 == |waits| == |draws|
        invariant forall i :: 0 <= i < |calls| ==> calls[i] == i + 1
        invariant forall i :: 0 <= i < |waits| ==> Yields(policy, i + 1, draws[i], waits[i])
        invariant forall i :: 1 <= i < attempt ==> GoesOn(policy, w, waits, i)
        invariant attempt > 1 ==> GoesOn(policy, w, waits, attempt - 1)
        decreases policy.maxAttempts - attempt
      {
        if w.done(attempt) {
          return ContextDone, calls, waits, draws;
        }
        calls := calls + [attempt];
        var result := w.outcome(attempt);
        if result.None? {
          return Success, calls, waits, draws;
        }
        if !policy.isRetryable.value(result.value) {
          return Failed(result.value), calls, waits, draws;
        }
        if attempt == policy.maxAttempts {
          return Failed(result.value), calls, waits, draws;
        }
        ghost var before := waits;
        ghost var r: Draw;
        var delay;
        delay, r := backoff.NextDelay(attempt);
        waits, draws := waits + [delay], draws + [r];
        GoesOnAppend(policy, w, before, delay);
        if delay > 0 && w.interrupted(attempt) {
          return ContextDone, calls, waits, draws;
        }
        attempt := attempt + 1;
      }
    }
  }

  // ---- How long it can take ----

  /** The time slept in these waits. */
  function Sum(waits: seq<Duration>): int {
    if waits == [] then 0 else Sum(waits[..|waits| - 1]) + Slept(waits[|waits| - 1])
  }

  /** 1 + m + ... + m^(n-1). */
  function Geometric(m: real, n: nat): real {
    if n == 0 then 0.0 else Geometric(m, n - 1) + Pow(m, n - 1)
  }

  lemma {:induction false} GeometricClosedForm(m: real, n: nat)
    ensures Geometric(m, n) * (m - 1.0) == Pow(m, n) - 1.0
  {
    if n > 0 {
      GeometricClosedForm(m, n - 1);
      assert Pow(m, n - 1) * (m - 1.0) == Pow(m, n) - Pow(m, n - 1);
    }
  }

  /** The waits of a run of the loop. */
  predicate WaitsOf(p: Policy, waits: seq<Duration>, draws: seq<Draw>) {
    |draws| == |waits| && forall i :: 0 <= i < |waits| ==> Yields(p, i + 1, draws[i], waits[i])
  }

  lemma AddBound(c: real, s: real, d: real, x: real, y: real)
    requires s <= c * x && d <= c * y
    ensures s + d <= c * (x + y)
  {
    Distribute(c, x, y);
  }

  lemma ValidJitter(p: Policy)
    requires Valid(p)
    ensures 0.0 <= p.jitterFactor <= 1.0
  {}

  lemma DelayUnderCap(p: Policy, attempt: int, r: Draw)
    requires Valid(p) && attempt >= 1 && p.maxDelay > 0
    ensures 0 <= Delay(p, attempt, r)
    ensures Delay(p, attempt, r) as real <= (1.0 + p.jitterFactor) * p.maxDelay as real
  {
    hide Delay, Nominal, Pow, Valid;
    ValidJitter(p);
    var c, nominal, cap := 1.0 + p.jitterFactor, Nominal(p, attempt), p.maxDelay as real;
    DelayBand(p, attempt, r);
    NominalPositive(p, attempt);
    assert c >= 0.0;
    Scale(c, nominal, cap);
  }

  lemma DelayUnderPower(p: Policy, attempt: int, r: Draw)
    requires Valid(p) && attempt >= 1
    ensures 0 <= Delay(p, attempt, r)
    ensures Delay(p, attempt, r) as real
         <= (1.0 + p.jitterFactor) * (p.initialDelay as real * Pow(p.multiplier, attempt - 1))
  {
    hide Delay, Nominal, Pow, Valid;
    ValidJitter(p);
    var c, nominal := 1.0 + p.jitterFactor, Nominal(p, attempt);
    var base := p.initialDelay as real * Pow(p.multiplier, attempt - 1);
    DelayBand(p, attempt, r);
    NominalPositive(p, attempt);
    assert c >= 0.0;
    Scale(c, nominal, base);
  }

  /** All waits together, with a cap. */
  lemma {:induction false} TotalWaitCapped(p: Policy, waits: seq<Duration>, draws: seq<Draw>)
    requires Valid(p) && p.maxDelay > 0 && WaitsOf(p, waits, draws)
    ensures 0 <= Sum(waits)
    ensures Sum(waits) as real <= (1.0 + p.jitterFactor) * (|waits| as real * p.maxDelay as real)
  {
    hide Delay, Nominal;
    var c, cap := 1.0 + p.jitterFactor, p.maxDelay as real;
    if waits == [] {
      assert c * (0.0 * cap) == 0.0;
    } else {
      var n := |waits| - 1;
      TotalWaitCapped(p, waits[..n], draws[..n]);
      DelayUnderCap(p, n + 1, draws[n]);
      SleepsAtMost(p, n + 1, draws[n], waits[n]);
      assert |waits[..n]| == n;
      AddBound(c, Sum(waits[..n]) as real, Slept(waits[n]) as real, n as real * cap, cap);
      assert |waits| as real * cap == n as real * cap + cap;
      assert Sum(waits) as real == Sum(waits[..n]) as real + Slept(waits[n]) as real;
    }
  }

  /** All waits together, capped or not. */
  lemma {:induction false} TotalWaitGeometric(p: Policy, waits: seq<Duration>, draws: seq<Draw>)
    requires Valid(p) && WaitsOf(p, waits, draws)
    ensures 0 <= Sum(waits)
    ensures Sum(waits) as real <= (1.0 + p.jitterFactor) * (p.initialDelay as real * Geometric(p.multiplier, |waits|))
  {
    hide Delay, Nominal, Pow;
    if waits != [] {
      var n := |waits| - 1;
      var c, initial, power := 1.0 + p.jitterFactor, p.initialDelay as real, Pow(p.multiplier, n);
      TotalWaitGeometric(p, waits[..n], draws[..n]);
      DelayUnderPower(p, n + 1, draws[n]);
      SleepsAtMost(p, n + 1, draws[n], waits[n]);
      AddBound(c, Sum(waits[..n]) as real, Slept(waits[n]) as real,
               initial * Geometric(p.multiplier, n), initial * power);
      Distribute(initial, Geometric(p.multiplier, n), power);
    }
  }

  /** So a whole call of `Do` waits at most (1 + J) * (MaxAttempts - 1) * MaxDelay. */
  lemma TotalWaitBound(p: Policy, w: Surroundings, waits: seq<Duration>, draws: seq<Draw>, k: nat, a: Answer)
    requires Valid(p) && p.maxDelay > 0 && WaitsOf(p, waits, draws) && Ended(p, w, waits, k, a)
    ensures Sum(waits) as real <= (1.0 + p.jitterFactor) * ((p.maxAttempts - 1) as real * p.maxDelay as real)
  {
    hide Delay, Sum, Ended;
    var c, cap, n, m := 1.0 + p.jitterFactor, p.maxDelay as real, |waits| as real, (p.maxAttempts - 1) as real;
    TotalWaitCapped(p, waits, draws);
    EndedWithinLimit(p, w, waits, k, a);
    Scale(cap, n, m);
    Scale(c, n * cap, m * cap);
  }
}
