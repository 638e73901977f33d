/** Whole runs of the SQL outbox: any number of dispatchers, emitters and the clock, interleaved statement by
    statement over one table (pkg/event/outbox/outbox.go, sql_store.go). Every such run is a run of the protocol. */
module SqlRuns {
  import opened SqlStore
  import R = OutboxRuns
  import S = OutboxStore
  import P = OutboxProtocol

  datatype System = System(now: nat, rows: Rows, phases: R.Phases, published: multiset<string>)

  const EMPTY: System := System(0, map[], map[], multiset{})

  /** One statement, one publish, or time passing. `Compare` is a claiming row update, `Collect` the end of a
      claim, `Lose` a mark that fails, `Quit` a dispatcher or a claim that is broken off. */
  datatype Action =
    | Clock(to: nat)
    | Insert(id: string, emittedAt: int)
    | Select(d: nat, reading: nat, ttl: int, limit: nat, candidates: seq<Candidate>)
    | Compare(d: nat)
    | Collect(d: nat)
    | Send(d: nat, ok: bool)
    | Deliver(d: nat, at: S.Reading)
    | Fail(d: nat, errMsg: string)
    | Bury(d: nat, errMsg: string)
    | Lose(d: nat)
    | Quit(d: nat)

  function Items(candidates: seq<Candidate>): (items: seq<P.Item>)
    ensures |items| == |candidates|
    ensures forall i :: 0 <= i < |items| ==> items[i] == P.Item(candidates[i].id, candidates[i].attempts)
  {
    seq(|candidates|, i requires 0 <= i < |candidates| => P.Item(candidates[i].id, candidates[i].attempts))
  }

  predicate Comparing(phases: R.Phases, d: nat) {
    R.PhaseOf(phases, d).Claiming? && R.PhaseOf(phases, d).candidates != []
  }

  ghost predicate Can(maxRetries: nat, m: System, a: Action) {
    match a
    case Clock(to) => m.now <= to
    case Insert(id, _) => id !in m.rows
    case Select(d, reading, _, limit, candidates) =>
      R.PhaseOf(m.phases, d).Idle? && reading <= m.now && IsSelection(m.rows, reading, limit, candidates)
    case Compare(d) => Comparing(m.phases, d)
    case Collect(d) => R.PhaseOf(m.phases, d).Claiming? && R.PhaseOf(m.phases, d).candidates == []
    case Send(d, _) =>
      R.AtEntry(m.phases, d) && R.PhaseOf(m.phases, d).Working? && !R.Exhausted(maxRetries, m.phases, d)
    case Deliver(d, _) => R.AtEntry(m.phases, d) && R.PhaseOf(m.phases, d).Accepted?
    case Fail(d, _) => R.AtEntry(m.phases, d) && R.PhaseOf(m.phases, d).Refused?
    case Bury(d, _) =>
      R.AtEntry(m.phases, d) && R.PhaseOf(m.phases, d).Working? && R.Exhausted(maxRetries, m.phases, d)
    case Lose(d) =>
      R.AtEntry(m.phases, d) && (R.PhaseOf(m.phases, d).Working? ==> R.Exhausted(maxRetries, m.phases, d))
    case Quit(d) => !R.PhaseOf(m.phases, d).Idle?
  }

  predicate Wins(m: System, d: nat)
    requires Comparing(m.phases, d)
  {
    var p := R.PhaseOf(m.phases, d);
    p.candidates[0].id in m.rows && Claimable(m.rows[p.candidates[0].id], p.reading)
  }

  /** A row update and what the dispatcher makes of the number of rows it affected. */
  function AfterCompare(m: System, d: nat): System
    requires Comparing(m.phases, d)
  {
    var p := R.PhaseOf(m.phases, d);
    var rest := p.(candidates := p.candidates[1..]);
    m.(rows := ClaimedOne(m.rows, p.candidates[0].id, p.reading, p.until),
       phases := m.phases[d := if Wins(m, d) then rest.(got := p.got + [p.candidates[0]]) else rest])
  }

  ghost function Do(maxRetries: nat, m: System, a: Action): System
    requires Can(maxRetries, m, a)
  {
    match a
    case Clock(to) => m.(now := to)
    case Insert(id, emittedAt) => m.(rows := m.rows[id := SqlRow(emittedAt, 0, "", 0, 0)])
    case Select(d, reading, ttl, _, candidates) =>
      m.(phases := m.phases[d := P.Claiming(reading, reading + ttl, Items(candidates), [])])
    case Compare(d) => AfterCompare(m, d)
    case Collect(d) =>
      m.(phases := m.phases[d := P.Working(R.PhaseOf(m.phases, d).until, R.PhaseOf(m.phases, d).got)])
    case Send(d, ok) =>
      var p := R.PhaseOf(m.phases, d);
      if ok then
        m.(phases := m.phases[d := P.Accepted(p.until, p.batch)], published := m.published + multiset{p.batch[0].id})
      else
        m.(phases := m.phases[d := P.Refused(p.until, p.batch)])
    case Deliver(d, at) =>
      m.(rows := DeliveredOne(m.rows, R.PhaseOf(m.phases, d).batch[0].id, at), phases := R.NextEntry(m.phases, d))
    case Fail(d, errMsg) =>
      m.(rows := FailedOne(m.rows, R.PhaseOf(m.phases, d).batch[0].id, errMsg), phases := R.NextEntry(m.phases, d))
    case Bury(d, errMsg) =>
      m.(rows := DeadOne(m.rows, R.PhaseOf(m.phases, d).batch[0].id, errMsg), phases := R.NextEntry(m.phases, d))
    case Lose(d) => m.(phases := R.NextEntry(m.phases, d))
    case Quit(d) => m.(phases := m.phases[d := P.Idle])
  }

  // ---- The protocol behind it ----

  function StepOf(a: Action): P.Step {
    match a
    case Clock(to) => P.Tick(to)
    case Insert(id, _) => P.Save(id)
    case Select(d, reading, ttl, _, candidates) => P.SelectCandidates(d, reading, ttl, Items(candidates))
    case Compare(d) => P.ClaimRow(d)
    case Collect(d) => P.EndClaim(d)
    case Send(d, ok) => P.Publish(d, ok)
    case Deliver(d, _) => P.MarkDelivered(d)
    case Fail(d, _) => P.MarkFailed(d)
    case Bury(d, _) => P.MarkDead(d)
    case Lose(d) => P.MarkLost(d)
    case Quit(d) => P.Leave(d)
  }

  ghost predicate Mirrors(m: System, s: P.State) {
    s.now == m.now && s.phases == m.phases && s.published == m.published && Shows(m.rows, s.cells)
  }

  /** Simulation: every statement is a step of the protocol. */
  lemma ActionIsStep(maxRetries: nat, m: System, a: Action, s: P.State)
    requires Can(maxRetries, m, a) && Mirrors(m, s)
    ensures P.Enabled(maxRetries, s, StepOf(a))
    ensures Mirrors(Do(maxRetries, m, a), P.Apply(maxRetries, s, StepOf(a)))
  {
    hide Shows, IsSelection, DeliveredOne, FailedOne, DeadOne, ClaimedOne, P.FreeItems, Claimable, P.Free;
    match a
    case Insert(id, emittedAt) => InsertIsStep(m.rows, s.cells, id, emittedAt);
    case Select(d, reading, ttl, limit, candidates) =>
      SelectIsStep(maxRetries, m.rows, s, d, reading, ttl, limit, candidates, Items(candidates));
    case Compare(d) =>
      ClaimOneIsStep(maxRetries, m.rows, s, d);
      SameClaimable(m.rows, s.cells, R.PhaseOf(m.phases, d).candidates[0].id, R.PhaseOf(m.phases, d).reading);
    case Deliver(d, at) => MarksAreSteps(maxRetries, m.rows, s, d, at, "");
    case Fail(d, errMsg) => MarksAreSteps(maxRetries, m.rows, s, d, 1, errMsg);
    case Bury(d, errMsg) => MarksAreSteps(maxRetries, m.rows, s, d, 1, errMsg);
    case _ =>
  }

  lemma InsertIsStep(rows: Rows, cells: map<string, P.Cell>, id: string, emittedAt: int)
    requires Shows(rows, cells) && id !in rows
    ensures id !in cells
    ensures Shows(rows[id := SqlRow(emittedAt, 0, "", 0, 0)], cells[id := P.Cell(0, false, false, 0)])
  {
    assert id !in rows.Keys;
  }

  lemma SameClaimable(rows: Rows, cells: map<string, P.Cell>, id: string, reading: int)
    requires Shows(rows, cells)
    ensures id in rows <==> id in cells
    ensures id in rows ==> (Claimable(rows[id], reading) <==> P.Free(cells[id], reading))
  {
    assert id in rows.Keys <==> id in cells.Keys;
  }

  // ---- Runs ----

  ghost predicate IsSystemRun(maxRetries: nat, ms: seq<System>, actions: seq<Action>) {
    && |ms| == |actions| + 1 && ms[0] == EMPTY
    && forall i :: 0 <= i < |actions| ==>
         Can(maxRetries, ms[i], actions[i]) && ms[i+1] == Do(maxRetries, ms[i], actions[i])
  }

  ghost predicate Follows(maxRetries: nat, ms: seq<System>, actions: seq<Action>,
                          states: seq<P.State>, steps: seq<P.Step>)
  {
    && |ms| == |states| == |actions| + 1 && |steps| == |actions|
    && P.IsRun(maxRetries, states, steps) && states[0] == P.INITIAL
    && (forall i :: 0 <= i < |ms| ==> Mirrors(ms[i], states[i]))
    && (forall i :: 0 <= i < |actions| ==> steps[i] == StepOf(actions[i]))
  }

  /** Every interleaving of statements and publishes by any number of dispatchers over the table is a run of the
      protocol, state by state and step by step. */
  lemma {:induction false} SystemRunIsRun(maxRetries: nat, ms: seq<System>, actions: seq<Action>)
    returns (states: seq<P.State>, steps: seq<P.Step>)
    requires IsSystemRun(maxRetries, ms, actions)
    ensures Follows(maxRetries, ms, actions, states, steps)
  {
    hide Mirrors, Can, Do, StepOf, P.Enabled, P.Apply;
    if actions == [] {
      states, steps := [P.INITIAL], [];
      EmptyMirrors();
    } else {
      var n := |actions| - 1;
      var before, taken := SystemRunIsRun(maxRetries, ms[..n+1], actions[..n]);
      assert ms[..n+1][n] == ms[n];
      assert Mirrors(ms[n], before[n]);
      ActionIsStep(maxRetries, ms[n], actions[n], before[n]);
      states := before + [P.Apply(maxRetries, before[n], StepOf(actions[n]))];
      steps := taken + [StepOf(actions[n])];
    }
  }

  lemma EmptyMirrors()
    ensures Mirrors(EMPTY, P.INITIAL)
  {}

  // ---- At most once ----

  /** Each dispatcher finishes an entry before its claim expires, and marks what the bus accepted. */
  predicate TimelyAction(m: System, a: Action) {
    match a
    case Clock(to) => R.Prompt(m.phases, to)
    case Insert(_, _) => true
    case Select(_, _, _, _, _) => true
    case Compare(_) => true
    case Collect(_) => true
    case Send(d, _) => R.AtEntry(m.phases, d) && m.now < R.PhaseOf(m.phases, d).until
    case Deliver(d, _) => R.AtEntry(m.phases, d) && m.now < R.PhaseOf(m.phases, d).until
    case Fail(d, _) => R.AtEntry(m.phases, d) && m.now < R.PhaseOf(m.phases, d).until
    case Bury(d, _) => R.AtEntry(m.phases, d) && m.now < R.PhaseOf(m.phases, d).until
    case Lose(d) => !R.PhaseOf(m.phases, d).Accepted?
    case Quit(d) => !R.PhaseOf(m.phases, d).Accepted?
  }

  lemma TimelyStep(m: System, a: Action, s: P.State)
    requires Mirrors(m, s) && TimelyAction(m, a)
    ensures P.Timely(s, StepOf(a))
  {
    hide Shows;
  }

  predicate TimelySystemRun(ms: seq<System>, actions: seq<Action>)
    requires |ms| == |actions| + 1
  {
    forall i :: 0 <= i < |actions| ==> TimelyAction(ms[i], actions[i])
  }

  /** Of every row of the table at any moment of a timely run: the bus accepted it at most once, a row marked
      delivered was accepted, a row marked dead was not. */
  lemma TableAtMostOnce(maxRetries: nat, ms: seq<System>, actions: seq<Action>, n: nat, id: string)
    requires IsSystemRun(maxRetries, ms, actions) && TimelySystemRun(ms, actions)
    requires n < |ms|
    ensures ms[n].published[id] <= 1
    ensures id in ms[n].rows && ms[n].rows[id].deliveredAt > 0 ==> ms[n].published[id] == 1
    ensures id in ms[n].rows && ms[n].rows[id].deliveredAt == DEAD_DELIVERED_AT ==> ms[n].published[id] == 0
  {
    hide IsSystemRun, StepOf, P.Timely, TimelyAction, Mirrors, P.Enabled, P.Apply;
    var states, steps := SystemRunIsRun(maxRetries, ms, actions);
    forall k | 0 <= k < |actions| ensures P.Timely(states[k], steps[k]) {
      assert Mirrors(ms[k], states[k]);
      TimelyStep(ms[k], actions[k], states[k]);
    }
    P.AtMostOnce(maxRetries, states, steps, n, id);
    assert Mirrors(ms[n], states[n]);
    MirroredRow(ms[n], states[n], id);
  }

  lemma MirroredRow(m: System, s: P.State, id: string)
    requires Mirrors(m, s)
    ensures s.published == m.published
    ensures id in m.rows <==> id in s.cells
    ensures id in m.rows && !(s.cells[id].delivered && s.cells[id].dead) ==>
              (s.cells[id].delivered <==> m.rows[id].deliveredAt > 0)
              && (s.cells[id].dead <==> m.rows[id].deliveredAt == DEAD_DELIVERED_AT)
  {
    assert id in m.rows.Keys <==> id in s.cells.Keys;
  }

  // ---- Exclusive claims ----

  /** The action is a row update that claims the row. */
  predicate Leases(m: System, a: Action, id: string) {
    a.Compare? && Comparing(m.phases, a.d) && Wins(m, a.d) && R.PhaseOf(m.phases, a.d).candidates[0].id == id
  }

  predicate FailsRow(m: System, a: Action, id: string) {
    a.Fail? && R.AtEntry(m.phases, a.d) && R.PhaseOf(m.phases, a.d).Refused?
    && R.PhaseOf(m.phases, a.d).batch[0].id == id
  }

  /** Leases are never negative, as `WithClaimTTL` enforces. */
  predicate LeasesForward(actions: seq<Action>) {
    forall i :: 0 <= i < |actions| && actions[i].Select? ==> actions[i].ttl >= 0
  }

  ghost predicate ForwardClaims(phases: R.Phases) {
    forall d :: R.PhaseOf(phases, d).Claiming? ==> R.PhaseOf(phases, d).reading <= R.PhaseOf(phases, d).until
  }

  lemma ActionKeepsForward(maxRetries: nat, m: System, a: Action)
    requires Can(maxRetries, m, a) && ForwardClaims(m.phases) && (a.Select? ==> a.ttl >= 0)
    ensures ForwardClaims(Do(maxRetries, m, a).phases)
  {
    hide IsSelection, ClaimedOne, DeliveredOne, FailedOne, DeadOne;
    var t := Do(maxRetries, m, a);
    forall d | R.PhaseOf(t.phases, d).Claiming?
      ensures R.PhaseOf(t.phases, d).reading <= R.PhaseOf(t.phases, d).until
    {
      assert R.PhaseOf(m.phases, d).Claiming? ==> R.PhaseOf(m.phases, d).reading <= R.PhaseOf(m.phases, d).until;
    }
  }

  lemma {:induction false} RunKeepsForward(maxRetries: nat, ms: seq<System>, actions: seq<Action>, n: nat)
    requires IsSystemRun(maxRetries, ms, actions) && LeasesForward(actions) && n <= |actions|
    ensures ForwardClaims(ms[n].phases)
  {
    hide Can, Do, ForwardClaims;
    if n == 0 {
      NobodyClaims();
    } else {
      RunKeepsForward(maxRetries, ms, actions, n - 1);
      ActionKeepsForward(maxRetries, ms[n-1], actions[n-1]);
    }
  }

  lemma NobodyClaims()
    ensures ForwardClaims(EMPTY.phases)
  {}

  lemma LeaseIsClaim(m: System, a: Action, s: P.State)
    requires Mirrors(m, s)
    ensures forall id :: Leases(m, a, id) ==>
              P.Claims(s, StepOf(a), id, R.PhaseOf(m.phases, a.d).reading, R.PhaseOf(m.phases, a.d).until)
    ensures forall id, reading, until :: P.Claims(s, StepOf(a), id, reading, until) ==>
              Leases(m, a, id)
              && reading == R.PhaseOf(m.phases, a.d).reading && until == R.PhaseOf(m.phases, a.d).until
    ensures forall id :: P.FailsEntry(s, StepOf(a), id) ==> FailsRow(m, a, id)
  {
    if a.Compare? && Comparing(m.phases, a.d) {
      var p := R.PhaseOf(m.phases, a.d);
      SameClaimable(m.rows, s.cells, p.candidates[0].id, p.reading);
    }
    hide Shows, Claimable, P.Free;
  }

  /** If a row is claimed and claimed again with no MarkFailed of it in between, the second claim read the clock
      at or after the end of the first lease, whenever the selects and updates of either ran. */
  lemma TableClaimsExclusive(maxRetries: nat, ms: seq<System>, actions: seq<Action>, k: nat, l: nat, id: string)
    requires IsSystemRun(maxRetries, ms, actions) && LeasesForward(actions)
    requires k < l < |actions| && Leases(ms[k], actions[k], id) && Leases(ms[l], actions[l], id)
    requires forall q :: k < q < l ==> !FailsRow(ms[q], actions[q], id)
    ensures R.PhaseOf(ms[k].phases, actions[k].d).until <= R.PhaseOf(ms[l].phases, actions[l].d).reading
  {
    hide IsSystemRun, Mirrors, StepOf, FailsRow, P.IsRun, P.Claims, P.FailsEntry, Wins, Comparing;
    var states, steps := SystemRunIsRun(maxRetries, ms, actions);
    ForwardSteps(maxRetries, ms, actions, states, steps);
    assert Mirrors(ms[k], states[k]) && Mirrors(ms[l], states[l]);
    LeaseIsClaim(ms[k], actions[k], states[k]);
    LeaseIsClaim(ms[l], actions[l], states[l]);
    LeaseHasPhase(ms[k], actions[k], id);
    LeaseHasPhase(ms[l], actions[l], id);
    forall q | k < q < l ensures !P.FailsEntry(states[q], steps[q], id) {
      assert Mirrors(ms[q], states[q]);
      LeaseIsClaim(ms[q], actions[q], states[q]);
    }
    var p, q := R.PhaseOf(ms[k].phases, actions[k].d), R.PhaseOf(ms[l].phases, actions[l].d);
    P.ClaimsExclusive(maxRetries, states, steps, k, l, id, p.reading, p.until, q.reading, q.until);
  }

  lemma ForwardSteps(maxRetries: nat, ms: seq<System>, actions: seq<Action>, states: seq<P.State>, steps: seq<P.Step>)
    requires IsSystemRun(maxRetries, ms, actions) && LeasesForward(actions)
    requires Follows(maxRetries, ms, actions, states, steps)
    ensures P.LeasesForward(states, steps)
  {
    hide Mirrors, StepOf, P.IsRun, P.Claims, P.FailsEntry, Leases, IsSystemRun;
    forall i, id, reading, until | 0 <= i < |steps| && P.Claims(states[i], steps[i], id, reading, until)
      ensures reading <= until
    {
      assert Mirrors(ms[i], states[i]);
      LeaseIsClaim(ms[i], actions[i], states[i]);
      LeaseHasPhase(ms[i], actions[i], id);
      RunKeepsForward(maxRetries, ms, actions, i);
    }
  }

  lemma LeaseHasPhase(m: System, a: Action, id: string)
    requires Leases(m, a, id)
    ensures R.PhaseOf(m.phases, a.d).Claiming?
  {}

  // ---- What a claim wins ----

  /** The table as each of d's row updates among actions i, ..., j-1 finds it. */
  function Seen(ms: seq<System>, actions: seq<Action>, d: nat, i: nat, j: nat): seq<Rows>
    requires |ms| == |actions| + 1 && i <= j <= |actions|
    decreases j
  {
    if i == j then []
    else Seen(ms, actions, d, i, j - 1) + if actions[j-1] == Compare(d) then [ms[j-1].rows] else []
  }

  predicate StaysClaiming(ms: seq<System>, d: nat, i: nat, j: nat)
    requires i <= j < |ms|
  {
    forall k :: i < k <= j ==> R.PhaseOf(ms[k].phases, d).Claiming?
  }

  lemma WonItems(candidates: seq<Candidate>, seen: seq<Rows>, reading: int, rows: Rows)
    requires |seen| < |candidates|
    ensures var n := |seen|;
            Items(Won(candidates[..n+1], seen + [rows], reading))
            == Items(Won(candidates[..n], seen, reading))
               + if candidates[n].id in rows && Claimable(rows[candidates[n].id], reading)
                 then [P.Item(candidates[n].id, candidates[n].attempts)] else []
  {
    hide Claimable;
    var n := |seen|;
    assert candidates[..n+1][..n] == candidates[..n] && (seen + [rows])[..n] == seen;
  }

  /** Where a claim stands when its row updates have found the table in these states. */
  predicate WonSoFar(p: P.Phase, candidates: seq<Candidate>, reading: nat, until: int, seen: seq<Rows>) {
    && |seen| <= |candidates|
    && p == P.Claiming(reading, until, Items(candidates)[|seen|..], Items(Won(candidates[..|seen|], seen, reading)))
  }

  lemma NothingWon(candidates: seq<Candidate>, reading: nat, until: int)
    ensures WonSoFar(P.Claiming(reading, until, Items(candidates), []), candidates, reading, until, [])
  {}

  lemma WinsOneMore(p: P.Phase, candidates: seq<Candidate>, reading: nat, until: int, seen: seq<Rows>, rows: Rows)
    requires WonSoFar(p, candidates, reading, until, seen) && p.candidates != []
    ensures WonSoFar(AfterUpdate(p, rows), candidates, reading, until, seen + [rows])
  {
    WonItems(candidates, seen, reading, rows);
    hide Won, Claimable;
    assert Items(candidates)[|seen|..][1..] == Items(candidates)[|seen|+1..];
  }

  /** The claim after one more row update. */
  function AfterUpdate(p: P.Phase, rows: Rows): P.Phase
    requires p.Claiming? && p.candidates != []
  {
    p.(candidates := p.candidates[1..],
       got := p.got + if p.candidates[0].id in rows && Claimable(rows[p.candidates[0].id], p.reading)
                      then [p.candidates[0]] else [])
  }

  /** While a claim is under way, what it has got is what Won says of the candidates tried so far, each against
      the table as its row update found it; so that is the batch the dispatcher goes to work on. */
  lemma {:induction false} GotIsWon(maxRetries: nat, ms: seq<System>, actions: seq<Action>, i: nat, j: nat)
    requires IsSystemRun(maxRetries, ms, actions) && i < j <= |actions| && actions[i].Select?
    requires StaysClaiming(ms, actions[i].d, i, j)
    ensures var a := actions[i];
            WonSoFar(R.PhaseOf(ms[j].phases, a.d), a.candidates, a.reading, a.reading + a.ttl,
                     Seen(ms, actions, a.d, i + 1, j))
    decreases j
  {
    hide Can, Do, WonSoFar, AfterUpdate, Won;
    var a := actions[i];
    if j == i + 1 {
      SelectStarts(maxRetries, ms[i], a);
      NothingWon(a.candidates, a.reading, a.reading + a.ttl);
    } else {
      GotIsWon(maxRetries, ms, actions, i, j - 1);
      assert R.PhaseOf(ms[j-1].phases, a.d).Claiming? && R.PhaseOf(ms[j].phases, a.d).Claiming?;
      var seen := Seen(ms, actions, a.d, i + 1, j - 1);
      ClaimGoesOn(maxRetries, ms[j-1], actions[j-1], a.d);
      if actions[j-1] == Compare(a.d) {
        WinsOneMore(R.PhaseOf(ms[j-1].phases, a.d), a.candidates, a.reading, a.reading + a.ttl, seen, ms[j-1].rows);
      } else {
        assert seen + [] == seen;
      }
    }
  }

  lemma SelectStarts(maxRetries: nat, m: System, a: Action)
    requires Can(maxRetries, m, a) && a.Select?
    ensures R.PhaseOf(Do(maxRetries, m, a).phases, a.d)
         == P.Claiming(a.reading, a.reading + a.ttl, Items(a.candidates), [])
  {}

  /** A claim goes on only by its own row updates. */
  lemma ClaimGoesOn(maxRetries: nat, m: System, a: Action, d: nat)
    requires Can(maxRetries, m, a) && R.PhaseOf(m.phases, d).Claiming?
    requires R.PhaseOf(Do(maxRetries, m, a).phases, d).Claiming?
    ensures var p, q := R.PhaseOf(m.phases, d), R.PhaseOf(Do(maxRetries, m, a).phases, d);
            if a == Compare(d) then p.candidates != [] && q == AfterUpdate(p, m.rows) else q == p
  {
    hide IsSelection, Claimable, DeliveredOne, FailedOne, DeadOne, ClaimedOne;
    var p := R.PhaseOf(m.phases, d);
    assert p.got + [] == p.got;
  }
}
