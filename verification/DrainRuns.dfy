/** The dispatcher of pkg/event/outbox/outbox.go, pass by pass, as a participant of whole runs: what `dispatchOnce`
    does to the in-memory store is what a series of its calls does, so whatever holds of runs holds of passes. */
module DrainRuns {
  import opened Results
  import opened OutboxRefinement
  import opened OutboxRuns
  import S = OutboxStore
  import D = OutboxDrain
  import P = OutboxProtocol

  /** A call that this dispatcher makes in a pass: it claims as configured, it marks an entry delivered only when
      the bus has accepted it and failed only with the text of the refusal, and it buries what has no attempt
      left. */
  predicate PassAction(cfg: D.Config, m: System, a: Action, d: nat, bus: string -> Option<string>) {
    match a
    case Claim(e, limit, ttl) => e == d && limit == cfg.batchSize && ttl == cfg.claimTTL
    case Send(e, ok) => e == d && AtEntry(m.phases, d) && ok == bus(PhaseOf(m.phases, d).batch[0].id).None?
    case Deliver(e) => e == d
    case Fail(e, errMsg) => e == d && AtEntry(m.phases, d) && bus(PhaseOf(m.phases, d).batch[0].id) == Some(errMsg)
    case Bury(e, errMsg) => e == d && errMsg == D.EXHAUSTED
    case Quit(e) => e == d
    case _ => false
  }

  /** The run goes on from where it stood before with calls of this pass only, each of them timely; only if the
      context of the pass ends may the dispatcher walk away from an entry that the bus has accepted. */
  ghost predicate PassRun(cfg: D.Config, ms: seq<System>, actions: seq<Action>, from: nat, d: nat,
                          bus: string -> Option<string>, ended: bool)
  {
    && IsSystemRun(cfg.maxRetries, ms, actions) && from <= |actions|
    && forall k :: from <= k < |actions| ==>
         PassAction(cfg, ms[k], actions[k], d, bus)
         && (cfg.claimTTL > 0 && !(ended && actions[k].Quit?) ==> TimelyAction(ms[k], actions[k]))
  }

  lemma OneMoreCall(cfg: D.Config, ms: seq<System>, actions: seq<Action>, from: nat, d: nat,
                    bus: string -> Option<string>, ended: bool, a: Action)
    requires PassRun(cfg, ms, actions, from, d, bus, ended)
    requires Can(cfg.maxRetries, ms[|actions|], a) && PassAction(cfg, ms[|actions|], a, d, bus)
    requires cfg.claimTTL > 0 && !(ended && a.Quit?) ==> TimelyAction(ms[|actions|], a)
    ensures PassRun(cfg, ms + [Do(cfg.maxRetries, ms[|actions|], a)], actions + [a], from, d, bus, ended)
  {
    hide Can, Do, PassAction, TimelyAction;
    var longer, more := ms + [Do(cfg.maxRetries, ms[|actions|], a)], actions + [a];
    forall k | 0 <= k < |more|
      ensures Can(cfg.maxRetries, longer[k], more[k]) && longer[k+1] == Do(cfg.maxRetries, longer[k], more[k])
    {
      if k < |actions| {
        assert longer[k] == ms[k] && longer[k+1] == ms[k+1] && more[k] == actions[k];
      }
    }
  }

  /** The publishes of one ID that a pass adds, if it hands these items to the bus. */
  function Added(cfg: D.Config, items: seq<S.Pending>, bus: string -> Option<string>, id: string): nat {
    if bus(id).None? then multiset(D.PublishedIDs(cfg, items))[id] else 0
  }

  /** How the system stands when the first n entries of the batch have been dealt with. */
  ghost predicate Midway(cfg: D.Config, before: System, m: System, d: nat, bus: string -> Option<string>, n: nat) {
    var batch := S.TakenBatch(before.rows, cfg.batchSize, before.now);
    && n <= |batch|
    && m.now == before.now
    && m.phases == before.phases[d := P.Working(before.now + cfg.claimTTL, Items(batch)[n..])]
    && m.rows == D.Dispatched(cfg, S.ClaimedRows(before.rows, cfg.batchSize, before.now, cfg.claimTTL), batch[..n], bus)
    && forall id :: m.published[id] == before.published[id] + Added(cfg, batch[..n], bus, id)
  }

  lemma ClaimIsMidway(cfg: D.Config, m: System, d: nat, bus: string -> Option<string>)
    requires PhaseOf(m.phases, d).Idle?
    ensures var a := Claim(d, cfg.batchSize, cfg.claimTTL);
            && Can(cfg.maxRetries, m, a) && PassAction(cfg, m, a, d, bus) && TimelyAction(m, a)
            && Midway(cfg, m, Do(cfg.maxRetries, m, a), d, bus, 0)
  {
    hide S.TakenBatch, S.ClaimedRows;
    var batch := S.TakenBatch(m.rows, cfg.batchSize, m.now);
    D.NothingDispatched(cfg, S.ClaimedRows(m.rows, cfg.batchSize, m.now, cfg.claimTTL), batch, bus);
  }

  /** A call of the pass that may be made, and what it leads to. */
  ghost predicate Call(cfg: D.Config, m: System, a: Action, d: nat, bus: string -> Option<string>, after: System) {
    && Can(cfg.maxRetries, m, a) && PassAction(cfg, m, a, d, bus) && (cfg.claimTTL > 0 ==> TimelyAction(m, a))
    && after == Do(cfg.maxRetries, m, a)
  }

  /** One or two calls, each made where the one before led. */
  ghost predicate Calls(cfg: D.Config, m: System, calls: seq<Action>, d: nat, bus: string -> Option<string>,
                        states: seq<System>)
  {
    && 1 <= |calls| == |states| <= 2
    && Call(cfg, m, calls[0], d, bus, states[0])
    && (|calls| == 2 ==> Call(cfg, states[0], calls[1], d, bus, states[1]))
  }

  /** The dispatcher has this entry at hand and has yet to deal with it. */
  ghost predicate About(cfg: D.Config, m: System, d: nat, item: S.Pending, rest: seq<P.Item>, until: int) {
    && d in m.phases && m.phases[d] == P.Working(until, [P.Item(item.envelope.id, item.attempts)] + rest)
    && (cfg.claimTTL > 0 ==> m.now < until)
  }

  /** And this is how the system stands afterwards. */
  ghost predicate DealtWith(cfg: D.Config, m: System, d: nat, item: S.Pending, rest: seq<P.Item>, until: int,
                            bus: string -> Option<string>, after: System)
  {
    && after.now == m.now
    && after.phases == m.phases[d := P.Working(until, rest)]
    && after.rows == S.MarkedRows(m.rows, item.envelope.id, D.Outcome(cfg, item, bus))
    && after.published == m.published + if item.attempts < cfg.maxRetries && bus(item.envelope.id).None?
                                        then multiset{item.envelope.id} else multiset{}
  }

  lemma SpentEntry(cfg: D.Config, m: System, d: nat, item: S.Pending, rest: seq<P.Item>, until: int,
                   bus: string -> Option<string>) returns (calls: seq<Action>, states: seq<System>)
    requires About(cfg, m, d, item, rest, until) && item.attempts >= cfg.maxRetries
    ensures Calls(cfg, m, calls, d, bus, states) && DealtWith(cfg, m, d, item, rest, until, bus, states[|calls| - 1])
  {
    hide S.MarkedRows;
    calls := [Bury(d, D.EXHAUSTED)];
    states := [Do(cfg.maxRetries, m, calls[0])];
    assert m.published + multiset{} == m.published;
  }

  lemma SentEntry(cfg: D.Config, m: System, d: nat, item: S.Pending, rest: seq<P.Item>, until: int,
                  bus: string -> Option<string>) returns (calls: seq<Action>, states: seq<System>)
    requires About(cfg, m, d, item, rest, until) && item.attempts < cfg.maxRetries
    ensures Calls(cfg, m, calls, d, bus, states) && DealtWith(cfg, m, d, item, rest, until, bus, states[|calls| - 1])
  {
    hide S.MarkedRows;
    var answer := bus(item.envelope.id);
    var sent := Do(cfg.maxRetries, m, Send(d, answer.None?));
    calls := [Send(d, answer.None?), if answer.None? then Deliver(d) else Fail(d, answer.value)];
    states := [sent, Do(cfg.maxRetries, sent, calls[1])];
    assert m.published + multiset{} == m.published;
  }

  /** One entry: a burial, or a publish and the mark that the answer calls for. */
  lemma EntryIsMidway(cfg: D.Config, before: System, m: System, d: nat, bus: string -> Option<string>, n: nat)
    returns (calls: seq<Action>, states: seq<System>)
    requires Midway(cfg, before, m, d, bus, n) && n < |S.TakenBatch(before.rows, cfg.batchSize, before.now)|
    ensures Calls(cfg, m, calls, d, bus, states)
    ensures Midway(cfg, before, states[|calls| - 1], d, bus, n + 1)
  {
    hide S.TakenBatch, S.ClaimedRows, Call, DealtWith, D.Dispatched, D.PublishedIDs;
    var batch := S.TakenBatch(before.rows, cfg.batchSize, before.now);
    var item, rest, until := batch[n], Items(batch)[n+1..], before.now + cfg.claimTTL;
    assert Items(batch)[n..] == [P.Item(item.envelope.id, item.attempts)] + rest;
    if item.attempts >= cfg.maxRetries {
      calls, states := SpentEntry(cfg, m, d, item, rest, until, bus);
    } else {
      calls, states := SentEntry(cfg, m, d, item, rest, until, bus);
    }
    OneMoreMidway(cfg, before, m, d, bus, n, states[|calls| - 1]);
  }

  lemma OneMoreMidway(cfg: D.Config, before: System, m: System, d: nat, bus: string -> Option<string>, n: nat,
                      after: System)
    requires Midway(cfg, before, m, d, bus, n) && n < |S.TakenBatch(before.rows, cfg.batchSize, before.now)|
    requires var batch := S.TakenBatch(before.rows, cfg.batchSize, before.now);
             DealtWith(cfg, m, d, batch[n], Items(batch)[n+1..], before.now + cfg.claimTTL, bus, after)
    ensures Midway(cfg, before, after, d, bus, n + 1)
  {
    hide S.TakenBatch, S.ClaimedRows, S.MarkedRows, D.Dispatched, D.PublishedIDs, D.Outcome;
    var batch := S.TakenBatch(before.rows, cfg.batchSize, before.now);
    D.OneMoreDispatched(cfg, S.ClaimedRows(before.rows, cfg.batchSize, before.now, cfg.claimTTL), batch, n, bus);
    forall id
      ensures after.published[id] == before.published[id] + Added(cfg, batch[..n+1], bus, id)
    {
      AddedStep(cfg, batch, n, bus, id);
    }
  }

  lemma AddedStep(cfg: D.Config, batch: seq<S.Pending>, n: nat, bus: string -> Option<string>, id: string)
    requires n < |batch|
    ensures Added(cfg, batch[..n+1], bus, id) == Added(cfg, batch[..n], bus, id)
              + if batch[n].attempts < cfg.maxRetries && batch[n].envelope.id == id && bus(id).None? then 1 else 0
  {
    hide D.PublishedIDs;
    D.PublishedAppend(cfg, batch[..n], batch[n]);
    assert batch[..n+1] == batch[..n] + [batch[n]];
  }

  // ---- The pass as a whole ----

  lemma CallsExtend(cfg: D.Config, ms: seq<System>, actions: seq<Action>, from: nat, d: nat,
                    bus: string -> Option<string>, ended: bool, calls: seq<Action>, states: seq<System>)
    requires PassRun(cfg, ms, actions, from, d, bus, ended) && Calls(cfg, ms[|actions|], calls, d, bus, states)
    ensures PassRun(cfg, ms + states, actions + calls, from, d, bus, ended)
  {
    hide PassRun, PassAction, Can, Do, TimelyAction;
    RunShape(cfg, ms, actions, from, d, bus, ended);
    OneMoreCall(cfg, ms, actions, from, d, bus, ended, calls[0]);
    if |calls| == 2 {
      var longer, more := ms + [states[0]], actions + [calls[0]];
      assert longer[|more|] == states[0];
      OneMoreCall(cfg, longer, more, from, d, bus, ended, calls[1]);
      assert longer + [states[1]] == ms + states && more + [calls[1]] == actions + calls;
    } else {
      assert states == [states[0]] && calls == [calls[0]];
    }
  }

  lemma RunShape(cfg: D.Config, ms: seq<System>, actions: seq<Action>, from: nat, d: nat,
                 bus: string -> Option<string>, ended: bool)
    requires PassRun(cfg, ms, actions, from, d, bus, ended)
    ensures |ms| == |actions| + 1
  {}

  /** The claim and the first n entries. */
  lemma {:induction false} BatchIsRun(cfg: D.Config, ms: seq<System>, actions: seq<Action>, d: nat,
                                      bus: string -> Option<string>, ended: bool, n: nat)
    returns (longer: seq<System>, more: seq<Action>)
    requires IsSystemRun(cfg.maxRetries, ms, actions) && PhaseOf(ms[|actions|].phases, d).Idle?
    requires n <= |S.TakenBatch(ms[|actions|].rows, cfg.batchSize, ms[|actions|].now)|
    ensures PassRun(cfg, longer, more, |actions|, d, bus, ended) && ms <= longer && actions <= more
    ensures Midway(cfg, ms[|actions|], longer[|more|], d, bus, n)
  {
    hide Midway, Calls, PassAction, Can, Do, TimelyAction, S.TakenBatch;
    var before := ms[|actions|];
    if n == 0 {
      var claim := Claim(d, cfg.batchSize, cfg.claimTTL);
      ClaimIsMidway(cfg, before, d, bus);
      OneMoreCall(cfg, ms, actions, |actions|, d, bus, ended, claim);
      longer, more := ms + [Do(cfg.maxRetries, before, claim)], actions + [claim];
    } else {
      var ms0, actions0 := BatchIsRun(cfg, ms, actions, d, bus, ended, n - 1);
      hide PassRun;
      RunShape(cfg, ms0, actions0, |actions|, d, bus, ended);
      var calls, states := EntryIsMidway(cfg, before, ms0[|actions0|], d, bus, n - 1);
      CallsExtend(cfg, ms0, actions0, |actions|, d, bus, ended, calls, states);
      CallsShape(cfg, ms0[|actions0|], calls, d, bus, states);
      longer, more := ms0 + states, actions0 + calls;
      RunShape(cfg, longer, more, |actions|, d, bus, ended);
      assert longer[|more|] == states[|calls| - 1];
    }
  }

  lemma CallsShape(cfg: D.Config, m: System, calls: seq<Action>, d: nat, bus: string -> Option<string>,
                   states: seq<System>)
    requires Calls(cfg, m, calls, d, bus, states)
    ensures 1 <= |calls| == |states|
  {}

  /** How a pass leaves the system: the first `marked` entries marked, the first `sent` ones sent. */
  ghost predicate PassDone(cfg: D.Config, before: System, after: System, d: nat, bus: string -> Option<string>,
                           marked: nat, sent: nat)
  {
    var batch := S.TakenBatch(before.rows, cfg.batchSize, before.now);
    && marked <= |batch| && sent <= |batch|
    && after.now == before.now && after.phases == before.phases[d := P.Idle]
    && after.rows == D.Dispatched(cfg, S.ClaimedRows(before.rows, cfg.batchSize, before.now, cfg.claimTTL),
                                  batch[..marked], bus)
    && forall id :: after.published[id] == before.published[id] + Added(cfg, batch[..sent], bus, id)
  }

  lemma QuitIsDone(cfg: D.Config, before: System, m: System, d: nat, bus: string -> Option<string>, n: nat)
    requires Midway(cfg, before, m, d, bus, n)
    ensures Can(cfg.maxRetries, m, Quit(d)) && PassAction(cfg, m, Quit(d), d, bus) && TimelyAction(m, Quit(d))
    ensures PassDone(cfg, before, Do(cfg.maxRetries, m, Quit(d)), d, bus, n, n)
  {
    hide S.TakenBatch, S.ClaimedRows, D.Dispatched, D.PublishedIDs;
  }

  /** The context ended after the entry was looked at: it is sent, unless it has no attempt left, but not marked. */
  lemma LastSend(cfg: D.Config, before: System, m: System, d: nat, bus: string -> Option<string>, n: nat)
    returns (a: Action, after: System)
    requires Midway(cfg, before, m, d, bus, n) && n < |S.TakenBatch(before.rows, cfg.batchSize, before.now)|
    ensures a.Send? || a.Quit?
    ensures a.Send? ==> Call(cfg, m, a, d, bus, after) && Can(cfg.maxRetries, after, Quit(d))
                        && PassDone(cfg, before, Do(cfg.maxRetries, after, Quit(d)), d, bus, n, n + 1)
    ensures a.Quit? ==> a.d == d && after == Do(cfg.maxRetries, m, a) && PassDone(cfg, before, after, d, bus, n, n + 1)
  {
    hide S.TakenBatch, S.ClaimedRows, D.Dispatched, D.PublishedIDs;
    var batch := S.TakenBatch(before.rows, cfg.batchSize, before.now);
    var item := batch[n];
    assert Items(batch)[n..][0] == P.Item(item.envelope.id, item.attempts);
    forall id { AddedStep(cfg, batch, n, bus, id); }
    hide Added;
    if item.attempts >= cfg.maxRetries {
      a := Quit(d);
    } else {
      a := Send(d, bus(item.envelope.id).None?);
    }
    after := Do(cfg.maxRetries, m, a);
  }

  lemma LeaveRun(cfg: D.Config, ms: seq<System>, actions: seq<Action>, from: nat, d: nat,
                 bus: string -> Option<string>, ended: bool)
    returns (longer: seq<System>, more: seq<Action>)
    requires PassRun(cfg, ms, actions, from, d, bus, ended) && Can(cfg.maxRetries, ms[|actions|], Quit(d))
    requires cfg.claimTTL > 0 && !ended ==> TimelyAction(ms[|actions|], Quit(d))
    ensures PassRun(cfg, longer, more, from, d, bus, ended) && ms <= longer && actions <= more
    ensures longer == ms + [Do(cfg.maxRetries, ms[|actions|], Quit(d))] && |longer| == |more| + 1
  {
    hide Can, Do, TimelyAction;
    OneMoreCall(cfg, ms, actions, from, d, bus, ended, Quit(d));
    longer, more := ms + [Do(cfg.maxRetries, ms[|actions|], Quit(d))], actions + [Quit(d)];
  }

  /** However long the context of a pass stays live: at any moment of any run, a dispatcher that is idle can make
      the calls of the pass one after the other, and then the store is as `DispatchOnce` leaves it. */
  lemma PassIsRun(cfg: D.Config, ms: seq<System>, actions: seq<Action>, d: nat, bus: string -> Option<string>,
                  looks: nat)
    returns (longer: seq<System>, more: seq<Action>)
    requires IsSystemRun(cfg.maxRetries, ms, actions) && PhaseOf(ms[|actions|].phases, d).Idle? && looks >= 2
    ensures var batch := S.TakenBatch(ms[|actions|].rows, cfg.batchSize, ms[|actions|].now);
            && PassRun(cfg, longer, more, |actions|, d, bus, looks < 2 + 2 * |batch|)
            && ms <= longer && actions <= more
            && PassDone(cfg, ms[|actions|], longer[|more|], d, bus,
                        S.Min(|batch|, D.Marks(looks)), S.Min(|batch|, D.Sends(looks)))
  {
    hide Midway, PassDone, PassRun, PassAction, Can, Do, TimelyAction, S.TakenBatch, D.Marks, D.Sends;
    var before := ms[|actions|];
    var batch := S.TakenBatch(before.rows, cfg.batchSize, before.now);
    var ended := looks < 2 + 2 * |batch|;
    var n := S.Min(|batch|, D.Marks(looks));
    D.LooksUsed(looks, if |batch| > 0 then |batch| - 1 else 0);
    longer, more := BatchIsRun(cfg, ms, actions, d, bus, ended, n);
    RunShape(cfg, longer, more, |actions|, d, bus, ended);
    var m := longer[|more|];
    QuitIsDone(cfg, before, m, d, bus, n);
    if S.Min(|batch|, D.Sends(looks)) > n {
      var a, after := LastSend(cfg, before, m, d, bus, n);
      if a.Send? {
        OneMoreCall(cfg, longer, more, |actions|, d, bus, ended, a);
        longer, more := longer + [after], more + [a];
      }
    }
    longer, more := LeaveRun(cfg, longer, more, |actions|, d, bus, ended);
  }

  /** A pass under a live context, in a timely run: the run stays timely, and the store becomes what PassRows
      says. So StoreAtMostOnce holds of passes, however they interleave with other calls before and after. */
  lemma LivePassIsTimelyRun(cfg: D.Config, ms: seq<System>, actions: seq<Action>, d: nat,
                            bus: string -> Option<string>)
    returns (longer: seq<System>, more: seq<Action>)
    requires IsSystemRun(cfg.maxRetries, ms, actions) && PhaseOf(ms[|actions|].phases, d).Idle?
    requires TimelySystemRun(ms, actions) && cfg.claimTTL > 0
    ensures PassRun(cfg, longer, more, |actions|, d, bus, false) && ms <= longer && actions <= more
    ensures TimelySystemRun(longer, more)
    ensures longer[|more|].rows == D.PassRows(cfg, ms[|actions|].rows, D.PassInput(ms[|actions|].now, bus))
    ensures longer[|more|].now == ms[|actions|].now && PhaseOf(longer[|more|].phases, d).Idle?
  {
    hide PassDone, PassAction, Can, Do, TimelyAction, S.TakenBatch, D.Marks, D.Sends, D.PassRows;
    var before := ms[|actions|];
    var batch := S.TakenBatch(before.rows, cfg.batchSize, before.now);
    var looks := 2 + 2 * |batch|;
    D.LooksUsed(looks, if |batch| > 0 then |batch| - 1 else 0);
    longer, more := PassIsRun(cfg, ms, actions, d, bus, looks);
    WholePassDone(cfg, before, longer[|more|], d, bus);
    forall k | 0 <= k < |more| ensures TimelyAction(longer[k], more[k]) {
      if k < |actions| {
        assert longer[k] == ms[k] && more[k] == actions[k];
      }
    }
  }

  lemma WholePassDone(cfg: D.Config, before: System, after: System, d: nat, bus: string -> Option<string>)
    requires var n := |S.TakenBatch(before.rows, cfg.batchSize, before.now)|;
             PassDone(cfg, before, after, d, bus, n, n)
    ensures after.rows == D.PassRows(cfg, before.rows, D.PassInput(before.now, bus))
    ensures after.now == before.now && PhaseOf(after.phases, d).Idle?
  {
    hide S.TakenBatch, D.Dispatched, Added;
    var batch := S.TakenBatch(before.rows, cfg.batchSize, before.now);
    assert batch[..|batch|] == batch;
  }
}
