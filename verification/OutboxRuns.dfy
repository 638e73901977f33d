/** Whole runs of the in-memory outbox: any number of dispatchers, emitters and the clock, interleaved call by
    call over one store (pkg/event/outbox/outbox.go, memory_store.go). Every such run is a run of the protocol,
    so what holds of the protocol holds of the entries in the store. */
module OutboxRuns {
  import opened OutboxRefinement
  import S = OutboxStore
  import D = OutboxDrain
  import P = OutboxProtocol

  /** Where each dispatcher stands. */
  type Phases = map<nat, P.Phase>

  /** The store together with the dispatchers that work on it. */
  datatype System = System(now: nat, rows: seq<S.Row>, phases: Phases, published: multiset<string>)

  const EMPTY: System := System(0, [], map[], multiset{})

  /** One call of the store, one publish, or time passing. A mark that fails leaves its entry as it is, and the
      dispatcher goes on; a dispatcher whose context ends leaves its whole batch. */
  datatype Action =
    | Clock(to: nat)
    | Save(given: S.Envelope, at: S.Reading)
    | Claim(d: nat, limit: int, ttl: int)
    | Send(d: nat, ok: bool)
    | Deliver(d: nat)
    | Fail(d: nat, errMsg: string)
    | Bury(d: nat, errMsg: string)
    | Lose(d: nat)
    | Quit(d: nat)

  function PhaseOf(phases: Phases, d: nat): P.Phase {
    if d in phases then phases[d] else P.Idle
  }

  /** The dispatcher has an entry at hand. */
  predicate AtEntry(phases: Phases, d: nat) {
    var p := PhaseOf(phases, d);
    (p.Working? || p.Accepted? || p.Refused?) && p.batch != []
  }

  predicate Exhausted(maxRetries: nat, phases: Phases, d: nat)
    requires AtEntry(phases, d)
  {
    PhaseOf(phases, d).batch[0].attempts >= maxRetries
  }

  predicate Can(maxRetries: nat, m: System, a: Action) {
    match a
    case Clock(to) => m.now <= to
    case Save(given, _) => D.Saves(m.rows, given) ==> !D.HasID(m.rows, given.id)
    case Claim(d, _, _) => PhaseOf(m.phases, d).Idle?
    case Send(d, _) => AtEntry(m.phases, d) && PhaseOf(m.phases, d).Working? && !Exhausted(maxRetries, m.phases, d)
    case Deliver(d) => AtEntry(m.phases, d) && PhaseOf(m.phases, d).Accepted?
    case Fail(d, _) => AtEntry(m.phases, d) && PhaseOf(m.phases, d).Refused?
    case Bury(d, _) => AtEntry(m.phases, d) && PhaseOf(m.phases, d).Working? && Exhausted(maxRetries, m.phases, d)
    case Lose(d) => AtEntry(m.phases, d) && (PhaseOf(m.phases, d).Working? ==> Exhausted(maxRetries, m.phases, d))
    case Quit(d) => !PhaseOf(m.phases, d).Idle?
  }

  function NextEntry(phases: Phases, d: nat): Phases
    requires AtEntry(phases, d)
  {
    phases[d := P.Working(PhaseOf(phases, d).until, PhaseOf(phases, d).batch[1..])]
  }

  /** The entry at hand is marked and the dispatcher goes on to the next. */
  function MarkEntry(m: System, d: nat, mark: S.Mark): System
    requires AtEntry(m.phases, d)
  {
    m.(rows := S.MarkedRows(m.rows, PhaseOf(m.phases, d).batch[0].id, mark), phases := NextEntry(m.phases, d))
  }

  function Do(maxRetries: nat, m: System, a: Action): System
    requires Can(maxRetries, m, a)
  {
    match a
    case Clock(to) => m.(now := to)
    case Save(given, at) => m.(rows := D.AfterSave(m.rows, given, at))
    case Claim(d, limit, ttl) =>
      m.(rows := S.ClaimedRows(m.rows, limit, m.now, ttl),
         phases := m.phases[d := P.Working(m.now + ttl, Items(S.TakenBatch(m.rows, limit, m.now)))])
    case Send(d, ok) =>
      var p := PhaseOf(m.phases, d);
      if ok then
        m.(phases := m.phases[d := P.Accepted(p.until, p.batch)], published := m.published + multiset{p.batch[0].id})
      else
        m.(phases := m.phases[d := P.Refused(p.until, p.batch)])
    case Deliver(d) => MarkEntry(m, d, S.Delivered)
    case Fail(d, errMsg) => MarkEntry(m, d, S.Failed(errMsg))
    case Bury(d, errMsg) => MarkEntry(m, d, S.Dead(errMsg))
    case Lose(d) => m.(phases := NextEntry(m.phases, d))
    case Quit(d) => m.(phases := m.phases[d := P.Idle])
  }

  // ---- The protocol behind it ----

  /** The protocol step that an action performs; a refused save performs none. */
  function StepOf(m: System, a: Action): P.Step {
    match a
    case Clock(to) => P.Tick(to)
    case Save(given, _) => if D.Saves(m.rows, given) then P.Save(given.id) else P.Tick(m.now)
    case Claim(d, limit, ttl) => P.ClaimBatch(d, ttl, Items(S.TakenBatch(m.rows, limit, m.now)))
    case Send(d, ok) => P.Publish(d, ok)
    case Deliver(d) => P.MarkDelivered(d)
    case Fail(d, _) => P.MarkFailed(d)
    case Bury(d, _) => P.MarkDead(d)
    case Lose(d) => P.MarkLost(d)
    case Quit(d) => P.Leave(d)
  }

  /** The protocol state shows the system. */
  ghost predicate Mirrors(m: System, s: P.State) {
    s.now == m.now && s.phases == m.phases && s.published == m.published && Shows(m.rows, s.cells)
  }

  /** Whatever a dispatcher has at hand or still ahead was saved. */
  ghost predicate Known(m: System) {
    forall d :: AtEntry(m.phases, d) ==> forall x :: x in PhaseOf(m.phases, d).batch ==> D.HasID(m.rows, x.id)
  }

  lemma KnownIsFound(m: System, d: nat) returns (i: nat)
    requires Known(m) && AtEntry(m.phases, d)
    ensures i < |m.rows| && m.rows[i].envelope.id == PhaseOf(m.phases, d).batch[0].id
  {
    assert PhaseOf(m.phases, d).batch[0] in PhaseOf(m.phases, d).batch;
    i :| 0 <= i < |m.rows| && m.rows[i].envelope.id == PhaseOf(m.phases, d).batch[0].id;
  }

  /** Simulation: every action is a step of the protocol. */
  lemma ActionIsStep(maxRetries: nat, m: System, a: Action, s: P.State)
    requires Can(maxRetries, m, a) && Mirrors(m, s) && Known(m)
    ensures P.Enabled(maxRetries, s, StepOf(m, a))
    ensures Mirrors(Do(maxRetries, m, a), P.Apply(maxRetries, s, StepOf(m, a)))
  {
    hide S.MarkedRows, S.TakenBatch, S.ClaimedRows, S.Normalized, Shows, Known, D.HasID, D.Saves, P.FreeItems;
    match a
    case Save(given, at) =>
      ShownIDs(m.rows, s.cells);
      if D.Saves(m.rows, given) { SavedIsStep(maxRetries, m.rows, s, given, at); }
    case Claim(d, limit, ttl) => ClaimBatchIsStep(maxRetries, m.rows, limit, ttl, s, d);
    case Deliver(d) =>
      var i := KnownIsFound(m, d);
      MarksAreSteps(maxRetries, m.rows, s, d, i, "");
    case Fail(d, errMsg) =>
      var i := KnownIsFound(m, d);
      MarksAreSteps(maxRetries, m.rows, s, d, i, errMsg);
    case Bury(d, errMsg) =>
      var i := KnownIsFound(m, d);
      MarksAreSteps(maxRetries, m.rows, s, d, i, errMsg);
    case _ =>
  }

  lemma SavedIsStep(maxRetries: nat, rows: seq<S.Row>, s: P.State, given: S.Envelope, at: S.Reading)
    requires Shows(rows, s.cells) && given.id !in s.cells
    ensures P.Enabled(maxRetries, s, P.Save(given.id))
    ensures Shows(rows + [S.NewRow(S.Normalized(given, at))], P.Apply(maxRetries, s, P.Save(given.id)).cells)
  {
    hide Shows;
    SaveIsStep(maxRetries, rows, s, S.Normalized(given, at));
  }

  lemma ShownIDs(rows: seq<S.Row>, cells: map<string, P.Cell>)
    requires Shows(rows, cells)
    ensures forall id :: id in cells <==> D.HasID(rows, id)
  {}

  /** No action forgets an ID or puts an unknown one into a batch. */
  lemma ActionKeepsKnown(maxRetries: nat, m: System, a: Action)
    requires Can(maxRetries, m, a) && Known(m)
    ensures Known(Do(maxRetries, m, a))
  {
    hide S.MarkedRows, S.TakenBatch, S.ClaimedRows, D.HasID, D.Saves;
    IDsStay(maxRetries, m, a);
    var t := Do(maxRetries, m, a);
    forall d | AtEntry(t.phases, d)
      ensures forall x :: x in PhaseOf(t.phases, d).batch ==> D.HasID(t.rows, x.id)
    {
      if a.Claim? && d == a.d {
        BatchIsSaved(m.rows, a.limit, m.now);
      } else {
        assert AtEntry(m.phases, d);
        assert forall x :: x in PhaseOf(t.phases, d).batch ==> x in PhaseOf(m.phases, d).batch;
      }
    }
  }

  lemma BatchIsSaved(rows: seq<S.Row>, limit: int, now: nat)
    ensures forall x :: x in Items(S.TakenBatch(rows, limit, now)) ==> D.HasID(rows, x.id)
  {
    hide S.TakenBatch, D.HasID;
    var batch := S.TakenBatch(rows, limit, now);
    forall x | x in Items(batch) ensures D.HasID(rows, x.id) {
      var k :| 0 <= k < |batch| && x == Items(batch)[k];
      D.BatchFromRows(rows, limit, now, batch[k]);
    }
  }

  lemma IDsStay(maxRetries: nat, m: System, a: Action)
    requires Can(maxRetries, m, a)
    ensures forall id :: D.HasID(m.rows, id) ==> D.HasID(Do(maxRetries, m, a).rows, id)
  {
    hide S.TakenBatch, D.Saves;
    var after := Do(maxRetries, m, a).rows;
    forall id | D.HasID(m.rows, id) ensures D.HasID(after, id) {
      var i :| 0 <= i < |m.rows| && m.rows[i].envelope.id == id;
      assert after[i].envelope.id == id;
    }
  }

  // ---- Runs ----

  /** A run of the system from an empty store. */
  ghost predicate IsSystemRun(maxRetries: nat, ms: seq<System>, actions: seq<Action>) {
    && |ms| == |actions| + 1 && ms[0] == EMPTY
    && forall i :: 0 <= i < |actions| ==>
         Can(maxRetries, ms[i], actions[i]) && ms[i+1] == Do(maxRetries, ms[i], actions[i])
  }

  /** The protocol states and steps behind a run. */
  ghost predicate Follows(maxRetries: nat, ms: seq<System>, actions: seq<Action>,
                          states: seq<P.State>, steps: seq<P.Step>)
  {
    && |ms| == |states| == |actions| + 1 && |steps| == |actions|
    && P.IsRun(maxRetries, states, steps) && states[0] == P.INITIAL
    && (forall i :: 0 <= i < |ms| ==> Mirrors(ms[i], states[i]))
    && (forall i :: 0 <= i < |actions| ==> steps[i] == StepOf(ms[i], actions[i]))
  }

  /** Every interleaving of saves, claims, publishes and marks by any number of dispatchers over the in-memory
      store is a run of the protocol, state by state and step by step. */
  lemma {:induction false} SystemRunIsRun(maxRetries: nat, ms: seq<System>, actions: seq<Action>)
    returns (states: seq<P.State>, steps: seq<P.Step>)
    requires IsSystemRun(maxRetries, ms, actions)
    ensures Follows(maxRetries, ms, actions, states, steps)
    ensures Known(ms[|actions|])
  {
    hide Mirrors, Known, Can, Do, StepOf, P.Enabled, P.Apply;
    if actions == [] {
      states, steps := [P.INITIAL], [];
      EmptyMirrors();
    } else {
      var n := |actions| - 1;
      var before, taken := SystemRunIsRun(maxRetries, ms[..n+1], actions[..n]);
      assert ms[..n+1][n] == ms[n];
      assert Mirrors(ms[n], before[n]);
      ActionIsStep(maxRetries, ms[n], actions[n], before[n]);
      ActionKeepsKnown(maxRetries, ms[n], actions[n]);
      states := before + [P.Apply(maxRetries, before[n], StepOf(ms[n], actions[n]))];
      steps := taken + [StepOf(ms[n], actions[n])];
    }
  }

  lemma EmptyMirrors()
    ensures Mirrors(EMPTY, P.INITIAL) && Known(EMPTY)
  {}

  // ---- At most once ----

  predicate BetweenPublishAndMark(phases: Phases, d: nat) {
    PhaseOf(phases, d).Accepted? || PhaseOf(phases, d).Refused?
  }

  /** Whoever is between publish and mark still has time. */
  predicate Prompt(phases: Phases, now: nat) {
    forall d :: d in phases && BetweenPublishAndMark(phases, d) ==> now < phases[d].until
  }

  /** Each dispatcher finishes an entry before its claim expires, and marks what the bus accepted. */
  predicate TimelyAction(m: System, a: Action) {
    match a
    case Clock(to) => Prompt(m.phases, to)
    case Save(_, _) => true
    case Claim(_, _, _) => true
    case Send(d, _) => AtEntry(m.phases, d) && m.now < PhaseOf(m.phases, d).until
    case Deliver(d) => AtEntry(m.phases, d) && m.now < PhaseOf(m.phases, d).until
    case Fail(d, _) => AtEntry(m.phases, d) && m.now < PhaseOf(m.phases, d).until
    case Bury(d, _) => AtEntry(m.phases, d) && m.now < PhaseOf(m.phases, d).until
    case Lose(d) => !PhaseOf(m.phases, d).Accepted?
    case Quit(d) => !PhaseOf(m.phases, d).Accepted?
  }

  lemma TimelyStep(maxRetries: nat, m: System, a: Action, s: P.State)
    requires Can(maxRetries, m, a) && Mirrors(m, s) && TimelyAction(m, a) && Prompt(m.phases, m.now)
    ensures P.Timely(s, StepOf(m, a))
    ensures Prompt(Do(maxRetries, m, a).phases, Do(maxRetries, m, a).now)
  {
    hide Shows, S.TakenBatch, S.ClaimedRows, S.MarkedRows, D.Saves, D.AfterSave, D.HasID;
  }

  predicate TimelySystemRun(ms: seq<System>, actions: seq<Action>)
    requires |ms| == |actions| + 1
  {
    forall i :: 0 <= i < |actions| ==> TimelyAction(ms[i], actions[i])
  }

  lemma {:induction false} TimelyRunFollows(maxRetries: nat, ms: seq<System>, actions: seq<Action>,
                                            states: seq<P.State>, steps: seq<P.Step>, n: nat)
    requires IsSystemRun(maxRetries, ms, actions) && TimelySystemRun(ms, actions)
    requires Follows(maxRetries, ms, actions, states, steps) && n <= |actions|
    ensures Prompt(ms[n].phases, ms[n].now)
    ensures forall i :: 0 <= i < n ==> P.Timely(states[i], steps[i])
  {
    hide Mirrors, Can, Do, StepOf, P.Enabled, P.Apply, P.Timely, TimelyAction;
    if n > 0 {
      TimelyRunFollows(maxRetries, ms, actions, states, steps, n - 1);
      assert Mirrors(ms[n-1], states[n-1]);
      TimelyStep(maxRetries, ms[n-1], actions[n-1], states[n-1]);
    }
  }

  /** Of every entry in the store at any moment of a timely run: the bus accepted it at most once, it is not
      both delivered and dead, delivered only if accepted and dead only if not. */
  lemma StoreAtMostOnce(maxRetries: nat, ms: seq<System>, actions: seq<Action>, n: nat, i: nat)
    requires IsSystemRun(maxRetries, ms, actions) && TimelySystemRun(ms, actions)
    requires n < |ms| && i < |ms[n].rows|
    ensures var row := ms[n].rows[i];
            && ms[n].published[row.envelope.id] <= 1
            && !(row.delivered && row.dead)
            && (row.delivered ==> ms[n].published[row.envelope.id] == 1)
            && (row.dead ==> ms[n].published[row.envelope.id] == 0)
  {
    hide IsSystemRun, P.IsRun, StepOf, P.Timely, TimelySystemRun;
    var states, steps := SystemRunIsRun(maxRetries, ms, actions);
    TimelyRunFollows(maxRetries, ms, actions, states, steps, |actions|);
    P.AtMostOnce(maxRetries, states, steps, n, ms[n].rows[i].envelope.id);
    assert Mirrors(ms[n], states[n]);
    ShowsCell(ms[n].rows, states[n].cells, i);
  }

  // ---- Exclusive claims ----

  /** The action leases row i of the store. */
  predicate Leases(m: System, a: Action, i: nat)
    requires i < |m.rows|
  {
    a.Claim? && S.Taken(m.rows, i, a.limit, m.now)
  }

  /** The action is a MarkFailed of that entry. */
  predicate FailsRow(m: System, a: Action, id: string) {
    a.Fail? && AtEntry(m.phases, a.d) && PhaseOf(m.phases, a.d).Refused? && PhaseOf(m.phases, a.d).batch[0].id == id
  }

  predicate LeasesForward(actions: seq<Action>) {
    forall i :: 0 <= i < |actions| && actions[i].Claim? ==> actions[i].ttl >= 0
  }

  lemma LeaseIsClaim(m: System, a: Action, s: P.State, i: nat)
    requires Mirrors(m, s) && i < |m.rows| && Leases(m, a, i)
    ensures P.Claims(s, StepOf(m, a), m.rows[i].envelope.id, m.now, m.now + a.ttl)
  {
    hide S.Taken, S.TakenBatch;
    TakenIDs(m.rows, a.limit, m.now);
  }

  lemma ForwardClaims(m: System, a: Action, s: P.State)
    requires Mirrors(m, s) && (a.Claim? ==> a.ttl >= 0)
    ensures forall id, reading, until :: P.Claims(s, StepOf(m, a), id, reading, until) ==> reading <= until
    ensures forall id :: P.FailsEntry(s, StepOf(m, a), id) ==> FailsRow(m, a, id)
  {
    hide S.TakenBatch, Shows, D.Saves;
  }

  lemma AllForward(maxRetries: nat, ms: seq<System>, actions: seq<Action>, states: seq<P.State>, steps: seq<P.Step>)
    requires Follows(maxRetries, ms, actions, states, steps) && LeasesForward(actions)
    ensures P.LeasesForward(states, steps)
    ensures forall k, id :: 0 <= k < |actions| && P.FailsEntry(states[k], steps[k], id) ==>
              FailsRow(ms[k], actions[k], id)
  {
    hide Mirrors, StepOf, P.IsRun, P.Claims, P.FailsEntry, FailsRow;
    forall k | 0 <= k < |actions|
      ensures forall id, reading, until :: P.Claims(states[k], steps[k], id, reading, until) ==> reading <= until
      ensures forall id :: P.FailsEntry(states[k], steps[k], id) ==> FailsRow(ms[k], actions[k], id)
    {
      assert Mirrors(ms[k], states[k]);
      ForwardClaims(ms[k], actions[k], states[k]);
    }
  }

  /** If a claim leases an entry and a later claim leases it again with no MarkFailed of it in between, the first
      lease had run out: the entry was in no dispatcher's batch twice at a time. Whatever else happens, late
      dispatchers and lost marks included. */
  lemma StoreClaimsExclusive(maxRetries: nat, ms: seq<System>, actions: seq<Action>, k: nat, l: nat, i: nat, j: nat)
    requires IsSystemRun(maxRetries, ms, actions) && LeasesForward(actions)
    requires k < l < |actions| && i < |ms[k].rows| && j < |ms[l].rows|
    requires ms[k].rows[i].envelope.id == ms[l].rows[j].envelope.id
    requires Leases(ms[k], actions[k], i) && Leases(ms[l], actions[l], j)
    requires forall q :: k < q < l ==> !FailsRow(ms[q], actions[q], ms[k].rows[i].envelope.id)
    ensures ms[k].now + actions[k].ttl <= ms[l].now
  {
    hide IsSystemRun, Mirrors, StepOf, Leases, LeasesForward, FailsRow, P.IsRun, P.Claims, P.FailsEntry;
    var states, steps := SystemRunIsRun(maxRetries, ms, actions);
    AllForward(maxRetries, ms, actions, states, steps);
    assert Mirrors(ms[k], states[k]) && Mirrors(ms[l], states[l]);
    LeaseIsClaim(ms[k], actions[k], states[k], i);
    LeaseIsClaim(ms[l], actions[l], states[l], j);
    ClaimingActions(ms[k], actions[k], i);
    ClaimingActions(ms[l], actions[l], j);
    var id := ms[k].rows[i].envelope.id;
    P.ClaimsExclusive(maxRetries, states, steps, k, l, id, ms[k].now, ms[k].now + actions[k].ttl,
                      ms[l].now, ms[l].now + actions[l].ttl);
  }

  lemma ClaimingActions(m: System, a: Action, i: nat)
    requires i < |m.rows| && Leases(m, a, i)
    ensures a.Claim?
  {}
}
