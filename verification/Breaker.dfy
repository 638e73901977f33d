/** The circuit breaker (pkg/resilience/circuitbreaker/circuitbreaker.go). `Do` runs the operation outside the
    mutex, so it is two critical sections, admission and completion, between which any other calls may come. */
module Breaker {
  import opened Results

  datatype Config = Config(failureThreshold: int, openTimeout: int, halfOpenMaxProbes: int)

  predicate ValidConfig(cfg: Config) {
    cfg.failureThreshold >= 1 && cfg.openTimeout > 0 && cfg.halfOpenMaxProbes >= 1
  }

  datatype Mode = Closed | Open | HalfOpen

  datatype State = State(mode: Mode, failures: int, openedAt: int, probesInFlight: int, probesAdmitted: int)

  const INITIAL: State := State(Closed, 0, 0, 0, 0)

  // ---- The critical sections ----

  function MaybeHalfOpen(cfg: Config, s: State, now: int): State {
    if s.mode == Open && now >= s.openedAt + cfg.openTimeout
    then s.(mode := HalfOpen, probesAdmitted := 0, probesInFlight := 0)
    else s
  }

  function ToOpen(s: State, now: int): State {
    s.(mode := Open, openedAt := now, probesAdmitted := 0, probesInFlight := 0)
  }

  function ToClosed(s: State): State {
    s.(mode := Closed, failures := 0, probesAdmitted := 0, probesInFlight := 0)
  }

  datatype Ticket = Rejected | Admitted(probe: bool)

  function Ticketed(cfg: Config, s: State, now: int): Ticket {
    var t := MaybeHalfOpen(cfg, s, now);
    match t.mode
    case Open => Rejected
    case HalfOpen => if t.probesAdmitted >= cfg.halfOpenMaxProbes then Rejected else Admitted(true)
    case Closed => Admitted(false)
  }

  /** The first half of `Do`. */
  function Admit(cfg: Config, s: State, now: int): State {
    var t := MaybeHalfOpen(cfg, s, now);
    if Ticketed(cfg, s, now) == Admitted(true)
    then t.(probesAdmitted := t.probesAdmitted + 1, probesInFlight := t.probesInFlight + 1)
    else t
  }

  /** The second half of `Do`: how the operation ended, and whether it was admitted as a probe. */
  function Complete(cfg: Config, s: State, probe: bool, failed: bool, now: int): State {
    var t := if probe then s.(probesInFlight := s.probesInFlight - 1) else s;
    if !failed && probe then ToClosed(t)
    else if !failed then t.(failures := 0)
    else if probe then ToOpen(t, now)
    else
      var u := t.(failures := t.failures + 1);
      if u.failures >= cfg.failureThreshold then ToOpen(u, now) else u
  }

  class CircuitBreaker {
    const cfg: Config
    var mode: Mode
    var failures: int
    var openedAt: int
    var probesInFlight: int
    var probesAdmitted: int

    ghost function Value(): State
      reads this
    {
      State(mode, failures, openedAt, probesInFlight, probesAdmitted)
    }

    constructor (cfg: Config)
      requires ValidConfig(cfg)
      ensures this.cfg == cfg && Value() == INITIAL
    {
      this.cfg := cfg;
      this.mode, this.failures, this.openedAt := Closed, 0, 0;
      this.probesInFlight, this.probesAdmitted := 0, 0;
    }

    static method New(cfg: Config) returns (b: Option<CircuitBreaker>)
      ensures b.Some? <==> cfg.failureThreshold >= 1 && cfg.openTimeout > 0 && cfg.halfOpenMaxProbes >= 1
      ensures b.Some? ==> fresh(b.value) && b.value.cfg == cfg && b.value.Value() == INITIAL
    {
      if cfg.failureThreshold < 1 { return None; }
      if cfg.openTimeout <= 0 { return None; }
      if cfg.halfOpenMaxProbes < 1 { return None; }
      var breaker := new CircuitBreaker(cfg);
      return Some(breaker);
    }

    method MaybeOpenToHalfOpen(now: int)
      modifies this
      ensures Value() == MaybeHalfOpen(cfg, old(Value()), now)
    {
      if mode != Open { return; }
      if now >= openedAt + cfg.openTimeout {
        mode := HalfOpen;
        probesAdmitted := 0;
        probesInFlight := 0;
      }
    }

    method TransitionToOpen(now: int)
      modifies this
      ensures Value() == ToOpen(old(Value()), now)
    {
      mode := Open;
      openedAt := now;
      probesAdmitted := 0;
      probesInFlight := 0;
    }

    method TransitionToClosed()
      modifies this
      ensures Value() == ToClosed(old(Value()))
    {
      mode := Closed;
      failures := 0;
      probesAdmitted := 0;
      probesInFlight := 0;
    }

    /** `State`: a query may itself move the breaker from open to half-open. */
    method Query(now: int) returns (m: Mode)
      modifies this
      ensures Value() == MaybeHalfOpen(cfg, old(Value()), now) && m == mode
    {
      MaybeOpenToHalfOpen(now);
      m := mode;
    }

    method BeginDo(now: int) returns (ticket: Ticket)
      modifies this
      ensures ticket == Ticketed(cfg, old(Value()), now)
      ensures Value() == Admit(cfg, old(Value()), now)
    {
      MaybeOpenToHalfOpen(now);
      if mode == Open { return Rejected; }
      if mode == HalfOpen {
        if probesAdmitted >= cfg.halfOpenMaxProbes { return Rejected; }
        probesAdmitted := probesAdmitted + 1;
        probesInFlight := probesInFlight + 1;
      }
      var wasHalfOpen := mode == HalfOpen;
      ticket := Admitted(wasHalfOpen);
    }

    method EndDo(wasHalfOpen: bool, failed: bool, now: int)
      modifies this
      ensures Value() == Complete(cfg, old(Value()), wasHalfOpen, failed, now)
    {
      if wasHalfOpen {
        probesInFlight := probesInFlight - 1;
      }
      if !failed && wasHalfOpen {
        TransitionToClosed();
      } else if !failed {
        failures := 0;
      } else if wasHalfOpen {
        TransitionToOpen(now);
      } else {
        failures := failures + 1;
        if failures >= cfg.failureThreshold {
          TransitionToOpen(now);
        }
      }
    }
  }

  // ---- Any overlap of calls ----

  datatype Event =
    | Arrive(now: int)
    | Finish(probe: bool, failed: bool, now: int)
    | Ask(now: int)

  function After(cfg: Config, s: State, e: Event): State {
    match e
    case Arrive(now) => Admit(cfg, s, now)
    case Finish(probe, failed, now) => Complete(cfg, s, probe, failed, now)
    case Ask(now) => MaybeHalfOpen(cfg, s, now)
  }

  function Run(cfg: Config, events: seq<Event>): State {
    if events == [] then INITIAL
    else After(cfg, Run(cfg, events[..|events| - 1]), events[|events| - 1])
  }

  /** What holds at every release of the mutex. */
  predicate Inv(cfg: Config, s: State) {
    && (s.mode == Closed ==> 0 <= s.failures < cfg.failureThreshold)
    && 0 <= s.probesInFlight == s.probesAdmitted <= cfg.halfOpenMaxProbes
    && (s.mode != HalfOpen ==> s.probesAdmitted == 0)
    && s.failures >= 0
  }

  lemma EventKeepsInv(cfg: Config, s: State, e: Event)
    requires ValidConfig(cfg) && Inv(cfg, s)
    ensures Inv(cfg, After(cfg, s, e))
  {}

  /** However calls overlap, and however stale the completions, the invariant holds. */
  lemma {:induction false} RunKeepsInv(cfg: Config, events: seq<Event>)
    requires ValidConfig(cfg)
    ensures Inv(cfg, Run(cfg, events))
  {
    if events != [] {
      RunKeepsInv(cfg, events[..|events| - 1]);
      EventKeepsInv(cfg, Run(cfg, events[..|events| - 1]), events[|events| - 1]);
    }
  }

  // ---- The state in terms of the history ----

  /** The ordinary failures that completed since the last success of any kind. */
  function Streak(events: seq<Event>): nat {
    if events == [] then 0
    else
      var n := |events| - 1;
      match events[n]
      case Finish(probe, failed, _) =>
        if !failed then 0 else if probe then Streak(events[..n]) else Streak(events[..n]) + 1
      case _ => Streak(events[..n])
  }

  /** The last event is a completion that settles whether the breaker is closed: that of a probe, however late, or
      an ordinary failure at the threshold, whatever the state it comes in. */
  predicate Decides(cfg: Config, events: seq<Event>)
    requires events != []
  {
    var e := events[|events| - 1];
    e.Finish? && (e.probe || (e.failed && Streak(events) >= cfg.failureThreshold))
  }

  /** When the breaker last opened, if nothing has closed it since. */
  function Trip(cfg: Config, events: seq<Event>): Option<int> {
    if events == [] then None
    else
      var e := events[|events| - 1];
      if Decides(cfg, events) then (if e.failed then Some(e.now) else None)
      else Trip(cfg, events[..|events| - 1])
  }

  /** Since then somebody has come or asked when the timeout had passed. */
  predicate Due(cfg: Config, events: seq<Event>) {
    events != [] &&
    var before, e := events[..|events| - 1], events[|events| - 1];
    if e.Finish? then !Decides(cfg, events) && Due(cfg, before)
    else Due(cfg, before) || (Trip(cfg, before).Some? && e.now >= Trip(cfg, before).value + cfg.openTimeout)
  }

  /** How many have come since then, the first included. */
  function Came(cfg: Config, events: seq<Event>): nat {
    if events == [] then 0
    else
      var before, e := events[..|events| - 1], events[|events| - 1];
      if e.Finish? && Decides(cfg, events) then 0
      else Came(cfg, before) + if e.Arrive? && Due(cfg, events) then 1 else 0
  }

  /** The state says this of the history, and no more. */
  predicate Records(cfg: Config, events: seq<Event>, s: State) {
    && s.failures == Streak(events)
    && (s.mode == Closed <==> Trip(cfg, events).None?)
    && (s.mode != Closed ==> s.openedAt == Trip(cfg, events).value)
    && (s.mode == HalfOpen <==> Due(cfg, events))
    && (!Due(cfg, events) ==> Came(cfg, events) == 0)
    && s.probesAdmitted == if Came(cfg, events) < cfg.halfOpenMaxProbes then Came(cfg, events) else cfg.halfOpenMaxProbes
  }

  lemma RecordsStep(cfg: Config, before: seq<Event>, s: State, e: Event)
    requires ValidConfig(cfg) && Inv(cfg, s) && Records(cfg, before, s)
    ensures Records(cfg, before + [e], After(cfg, s, e))
  {
    assert (before + [e])[..|before|] == before;
  }

  /** However calls overlap, and however late they complete, the state is what the history makes it. */
  lemma {:induction false} RunRecords(cfg: Config, events: seq<Event>)
    requires ValidConfig(cfg)
    ensures Records(cfg, events, Run(cfg, events))
  {
    hide After, Records, Inv;
    if events == [] {
      NothingRecorded(cfg);
    } else {
      var before := events[..|events| - 1];
      RunRecords(cfg, before);
      RunKeepsInv(cfg, before);
      RecordsStep(cfg, before, Run(cfg, before), events[|events| - 1]);
      assert events == before + [events[|events| - 1]];
    }
  }

  lemma NothingRecorded(cfg: Config)
    requires ValidConfig(cfg)
    ensures Records(cfg, [], INITIAL)
  {}

  /** Who is let through: everyone while the breaker is closed; once the timeout has passed since it opened, the
      first HalfOpenMaxProbes to come, as probes; nobody else. */
  lemma AdmittedExactly(cfg: Config, events: seq<Event>, now: int)
    requires ValidConfig(cfg)
    ensures Ticketed(cfg, Run(cfg, events), now)
         == match Trip(cfg, events)
            case None => Admitted(false)
            case Some(t) =>
              if (Due(cfg, events) || now >= t + cfg.openTimeout) && Came(cfg, events) < cfg.halfOpenMaxProbes
              then Admitted(true) else Rejected
  {
    hide Run, Trip, Due, Came;
    RunRecords(cfg, events);
    RunKeepsInv(cfg, events);
  }

  /** The completion of a probe, even of one from an earlier episode, ends the current half-open episode: a
      success closes the breaker, a failure opens it with a fresh timestamp. */
  lemma ProbeEndsEpisode(cfg: Config, events: seq<Event>, failed: bool, now: int)
    requires ValidConfig(cfg)
    ensures var s := Run(cfg, events + [Finish(true, failed, now)]);
            && (failed ==> s.mode == Open && s.openedAt == now)
            && (!failed ==> s.mode == Closed && s.failures == 0)
            && s.probesAdmitted == 0 && s.probesInFlight == 0
  {
    assert (events + [Finish(true, failed, now)])[..|events|] == events;
    RunKeepsInv(cfg, events);
  }

  /** The completion of an ordinary call, however late, whatever the state it comes in: a success clears the count
      and leaves the state; a failure opens the breaker with a fresh timestamp exactly if it is at least the
      threshold-th since the last success. */
  lemma OrdinaryCompletion(cfg: Config, events: seq<Event>, failed: bool, now: int)
    requires ValidConfig(cfg)
    ensures var s, t := Run(cfg, events), Run(cfg, events + [Finish(false, failed, now)]);
            && (!failed ==> t == s.(failures := 0))
            && (failed && Streak(events) + 1 < cfg.failureThreshold ==> t == s.(failures := Streak(events) + 1))
            && (failed && Streak(events) + 1 >= cfg.failureThreshold ==>
                  t.mode == Open && t.openedAt == now && t.probesAdmitted == 0 && t.probesInFlight == 0)
  {
    assert (events + [Finish(false, failed, now)])[..|events|] == events;
    RunRecords(cfg, events);
    RunKeepsInv(cfg, events);
    hide Trip, Due, Came;
  }

  /** The state after the first k events. */
  function StateAt(cfg: Config, events: seq<Event>, k: nat): State
    requires k <= |events|
  {
    Run(cfg, events[..k])
  }

  /** From event i on the breaker stays half-open up to, but not counting, event j. */
  predicate Episode(cfg: Config, events: seq<Event>, i: nat, j: nat)
    requires i <= j <= |events|
  {
    forall k :: i < k <= j ==> StateAt(cfg, events, k).mode == HalfOpen
  }

  predicate AdmitsProbe(cfg: Config, events: seq<Event>, k: nat)
    requires k < |events|
  {
    events[k].Arrive? && Ticketed(cfg, StateAt(cfg, events, k), events[k].now) == Admitted(true)
  }

  /** Operations let through by events i, ..., j-1. */
  function CountProbes(cfg: Config, events: seq<Event>, i: nat, j: nat): nat
    requires i <= j <= |events|
    decreases j
  {
    if i == j then 0
    else CountProbes(cfg, events, i, j - 1) + if AdmitsProbe(cfg, events, j - 1) then 1 else 0
  }

  lemma StateStep(cfg: Config, events: seq<Event>, k: nat)
    requires k < |events|
    ensures StateAt(cfg, events, k + 1) == After(cfg, StateAt(cfg, events, k), events[k])
  {
    assert events[..k+1][..k] == events[..k];
  }

  lemma {:induction false} EpisodeCounts(cfg: Config, events: seq<Event>, i: nat, j: nat)
    requires ValidConfig(cfg) && i < j <= |events|
    requires StateAt(cfg, events, i).mode != HalfOpen && Episode(cfg, events, i, j)
    ensures CountProbes(cfg, events, i, j) == StateAt(cfg, events, j).probesAdmitted
    decreases j
  {
    hide Run;
    RunKeepsInv(cfg, events[..i]);
    RunKeepsInv(cfg, events[..j-1]);
    StateStep(cfg, events, j - 1);
    assert StateAt(cfg, events, j).mode == HalfOpen;
    if j > i + 1 {
      EpisodeCounts(cfg, events, i, j - 1);
      assert StateAt(cfg, events, j - 1).mode == HalfOpen;
    }
  }

  /** Each half-open episode admits at most HalfOpenMaxProbes operations, whatever overlaps it. */
  lemma EpisodeBound(cfg: Config, events: seq<Event>, i: nat, j: nat)
    requires ValidConfig(cfg) && i < j <= |events|
    requires StateAt(cfg, events, i).mode != HalfOpen && Episode(cfg, events, i, j)
    ensures CountProbes(cfg, events, i, j) <= cfg.halfOpenMaxProbes
  {
    hide Run;
    EpisodeCounts(cfg, events, i, j);
    RunKeepsInv(cfg, events[..j]);
  }

  // ---- How long it stays open ----

  predicate ProbeSuccess(e: Event) {
    e.Finish? && e.probe && !e.failed
  }

  /** Events i, ..., j-1 all read a clock within the timeout of the trip recorded in the state before them. */
  predicate WithinTimeout(cfg: Config, events: seq<Event>, i: nat, j: nat)
    requires i <= j <= |events|
  {
    var t := StateAt(cfg, events, i).openedAt;
    forall k :: i <= k < j ==> t <= events[k].now < t + cfg.openTimeout
  }

  predicate StaysOpen(cfg: Config, events: seq<Event>, i: nat, j: nat)
    requires i <= j <= |events|
  {
    forall k :: i <= k <= j ==> StateAt(cfg, events, k).mode == Open
  }

  lemma OpenStep(cfg: Config, s: State, e: Event, t: int)
    requires ValidConfig(cfg) && s.mode == Open && s.openedAt >= t
    requires t <= e.now < t + cfg.openTimeout
    ensures (After(cfg, s, e).mode == Open <==> !ProbeSuccess(e))
    ensures !ProbeSuccess(e) ==> After(cfg, s, e).openedAt >= t
  {}

  /** Before the timeout has passed an open breaker stays open exactly as long as no probe success arrives;
      and then one can only be the late answer of a probe from an earlier episode. */
  lemma {:induction false} StaysOpenIff(cfg: Config, events: seq<Event>, i: nat, j: nat)
    requires ValidConfig(cfg) && i <= j <= |events|
    requires StateAt(cfg, events, i).mode == Open && WithinTimeout(cfg, events, i, j)
    ensures StaysOpen(cfg, events, i, j) <==> forall k :: i <= k < j ==> !ProbeSuccess(events[k])
    ensures StaysOpen(cfg, events, i, j) ==> StateAt(cfg, events, j).openedAt >= StateAt(cfg, events, i).openedAt
    decreases j
  {
    hide StateAt, After;
    if i < j {
      var t := StateAt(cfg, events, i).openedAt;
      StaysOpenIff(cfg, events, i, j - 1);
      StateStep(cfg, events, j - 1);
      if StaysOpen(cfg, events, i, j - 1) {
        assert t <= events[j-1].now < t + cfg.openTimeout;
        OpenStep(cfg, StateAt(cfg, events, j - 1), events[j-1], t);
        if !ProbeSuccess(events[j-1]) {
          assert StaysOpen(cfg, events, i, j);
        } else {
          assert StateAt(cfg, events, j).mode != Open;
        }
      } else {
        var k :| i <= k <= j - 1 && StateAt(cfg, events, k).mode != Open;
      }
    }
  }

  /** So no operation is let through before the timeout, unless such a late probe success comes first. */
  lemma RejectsWhileOpen(cfg: Config, events: seq<Event>, i: nat, j: nat)
    requires ValidConfig(cfg) && i <= j < |events|
    requires StateAt(cfg, events, i).mode == Open && WithinTimeout(cfg, events, i, j + 1)
    requires forall k :: i <= k < j ==> !ProbeSuccess(events[k])
    requires events[j].Arrive?
    ensures Ticketed(cfg, StateAt(cfg, events, j), events[j].now) == Rejected
  {
    hide StateAt;
    assert events[j].now < StateAt(cfg, events, i).openedAt + cfg.openTimeout;
    StaysOpenIff(cfg, events, i, j);
  }

  /** That exception is real: with one failure to trip, a timeout of 10 and two probes, the second probe's
      late success lets a call through at time 13 although the first probe's failure had tripped the breaker
      at time 11, and `ErrOpen` was due until 21. */
  lemma LateProbeClosesEarly()
    ensures var cfg := Config(1, 10, 2);
            var events := [Arrive(0), Finish(false, true, 0), Arrive(10), Arrive(10), Finish(true, true, 11),
                           Finish(true, false, 12)];
            && AdmitsProbe(cfg, events, 2) && AdmitsProbe(cfg, events, 3)
            && StateAt(cfg, events, 5).mode == Open && StateAt(cfg, events, 5).openedAt == 11
            && Ticketed(cfg, Run(cfg, events), 13) == Admitted(false)
  {
    var cfg := Config(1, 10, 2);
    var events := [Arrive(0), Finish(false, true, 0), Arrive(10), Arrive(10), Finish(true, true, 11),
                   Finish(true, false, 12)];
    assert StateAt(cfg, events, 0) == INITIAL;
    StateStep(cfg, events, 0);
    StateStep(cfg, events, 1);
    StateStep(cfg, events, 2);
    StateStep(cfg, events, 3);
    StateStep(cfg, events, 4);
    StateStep(cfg, events, 5);
    assert events[..6] == events;
  }

  // ---- Calls that do not overlap ----

  /** One call, or a query, at a time: when it arrives, when it finishes, how it ends. */
  datatype Item = Call(arrive: int, finish: int, failed: bool) | Query(at: int)

  function Start(item: Item): int {
    match item case Call(arrive, _, _) => arrive case Query(at) => at
  }

  function End(item: Item): int {
    match item case Call(_, finish, _) => finish case Query(at) => at
  }

  /** One after the other, on a clock that does not run backwards. */
  predicate Sequential(history: seq<Item>) {
    && (forall i :: 0 <= i < |history| ==> Start(history[i]) <= End(history[i]))
    && (forall i, j :: 0 <= i < j < |history| ==> End(history[i]) <= Start(history[j]))
  }

  function DoItem(cfg: Config, s: State, item: Item): State {
    match item
    case Query(at) => MaybeHalfOpen(cfg, s, at)
    case Call(arrive, finish, failed) =>
      var t := Admit(cfg, s, arrive);
      match Ticketed(cfg, s, arrive)
      case Rejected => t
      case Admitted(probe) => Complete(cfg, t, probe, failed, finish)
  }

  function Do(cfg: Config, history: seq<Item>): State {
    if history == [] then INITIAL
    else DoItem(cfg, Do(cfg, history[..|history| - 1]), history[|history| - 1])
  }

  /** Whether the operation of the n-th item was run. */
  predicate RunsOp(cfg: Config, history: seq<Item>, n: nat)
    requires n < |history|
  {
    history[n].Call? && Ticketed(cfg, Do(cfg, history[..n]), history[n].arrive) != Rejected
  }

  // The documented machine, as a function of the outcomes alone: the failures at the end of the history.

  /** The current run of consecutive failures among the operations that were run, and when the last of
      them ended. `threshold` failures in a row trip the breaker; from then on only calls at least `timeout`
      after the last failure run. */
  datatype Tail = Tail(failures: nat, lastFailure: int)

  predicate MayRun(cfg: Config, tail: Tail, arrive: int) {
    tail.failures < cfg.failureThreshold || arrive >= tail.lastFailure + cfg.openTimeout
  }

  function TailOf(cfg: Config, history: seq<Item>): Tail {
    if history == [] then Tail(0, 0)
    else
      var before := TailOf(cfg, history[..|history| - 1]);
      match history[|history| - 1]
      case Query(_) => before
      case Call(arrive, finish, failed) =>
        if !MayRun(cfg, before, arrive) then before
        else if failed then Tail(before.failures + 1, finish)
        else Tail(0, before.lastFailure)
  }

  /** The breaker between calls, in terms of the run of failures. */
  predicate Matches(cfg: Config, s: State, tail: Tail, now: int) {
    if tail.failures < cfg.failureThreshold then
      s.mode == Closed && s.failures == tail.failures
    else
      && s.mode != Closed && s.openedAt == tail.lastFailure
      && (s.mode == HalfOpen ==> s.probesAdmitted == 0 && s.openedAt + cfg.openTimeout <= now)
  }

  lemma ItemMatches(cfg: Config, s: State, tail: Tail, item: Item, now: int)
    requires ValidConfig(cfg) && Inv(cfg, s) && Matches(cfg, s, tail, now)
    requires now <= Start(item) <= End(item)
    ensures item.Call? ==> (Ticketed(cfg, s, item.arrive) != Rejected <==> MayRun(cfg, tail, item.arrive))
    ensures var after := match item
                         case Query(_) => tail
                         case Call(arrive, finish, failed) =>
                           if !MayRun(cfg, tail, arrive) then tail
                           else if failed then Tail(tail.failures + 1, finish)
                           else Tail(0, tail.lastFailure);
            Matches(cfg, DoItem(cfg, s, item), after, End(item)) && Inv(cfg, DoItem(cfg, s, item))
  {}

  /** Without overlap the breaker is the documented machine: it is closed exactly while the current run of
      failures is shorter than the threshold, and then counts that run; otherwise it opened when the last
      failure ended. */
  lemma {:induction false} SequentialIsFold(cfg: Config, history: seq<Item>, now: int)
    requires ValidConfig(cfg) && Sequential(history)
    requires history != [] ==> End(history[|history| - 1]) <= now
    ensures Matches(cfg, Do(cfg, history), TailOf(cfg, history), now) && Inv(cfg, Do(cfg, history))
  {
    hide DoItem;
    if history != [] {
      var n := |history| - 1;
      SequentialPrefix(history, n);
      SequentialIsFold(cfg, history[..n], Start(history[n]));
      ItemMatches(cfg, Do(cfg, history[..n]), TailOf(cfg, history[..n]), history[n], Start(history[n]));
    }
  }

  lemma SequentialPrefix(history: seq<Item>, n: nat)
    requires Sequential(history) && n < |history|
    ensures Sequential(history[..n])
    ensures n > 0 ==> End(history[..n][n-1]) <= Start(history[n])
  {}

  /** An operation runs exactly when fewer than threshold failures precede it in a row, or the open timeout
      has passed since the last of them: never earlier, and always from then on. */
  lemma RunsExactlyWhen(cfg: Config, history: seq<Item>, n: nat)
    requires ValidConfig(cfg) && Sequential(history) && n < |history| && history[n].Call?
    ensures RunsOp(cfg, history, n) <==> MayRun(cfg, TailOf(cfg, history[..n]), history[n].arrive)
  {
    SequentialPrefix(history, n);
    SequentialIsFold(cfg, history[..n], Start(history[n]));
    ItemMatches(cfg, Do(cfg, history[..n]), TailOf(cfg, history[..n]), history[n], Start(history[n]));
  }

  /** The breaker trips exactly at the threshold, and the first probe alone decides: success closes it with
      a clean count, failure opens it again with a fresh timestamp. */
  lemma TripsAndRecovers(cfg: Config, history: seq<Item>, n: nat)
    requires ValidConfig(cfg) && Sequential(history) && n < |history| && RunsOp(cfg, history, n)
    ensures var before, after := Do(cfg, history[..n]), Do(cfg, history[..n+1]);
            && (before.mode == Closed && history[n].failed ==>
                  (after.mode == Open <==> before.failures + 1 == cfg.failureThreshold))
            && (before.mode != Closed && history[n].failed ==> after.mode == Open && after.openedAt == history[n].finish)
            && (!history[n].failed ==> after.mode == Closed && after.failures == 0)
  {
    assert history[..n+1][..n] == history[..n];
    SequentialPrefix(history, n);
    SequentialIsFold(cfg, history[..n], Start(history[n]));
  }
}
