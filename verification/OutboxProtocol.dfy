/** Any number of outbox dispatchers over one store (pkg/event/outbox/outbox.go, memory_store.go,
    sql_store.go) as a step protocol. One step is one critical section of the in-memory store, one SQL
    statement, or one publish to the inner bus, whose answer is arbitrary. The two stores differ only in
    how a batch is claimed: the in-memory store claims it in one step at the current clock reading; the
    SQL store reads the clock, selects candidates in a later step and then claims them row by row, each
    time with that first reading. */
module OutboxProtocol {
  import opened Text

  datatype Cell = Cell(attempts: nat, delivered: bool, dead: bool, claimedUntil: int)

  predicate Terminal(c: Cell) {
    c.delivered || c.dead
  }

  /** The predicate of the in-memory scan and of the SQL row update. */
  predicate Free(c: Cell, reading: int) {
    !Terminal(c) && c.claimedUntil <= reading
  }

  datatype Item = Item(id: string, attempts: nat)

  /** Where a dispatcher stands. `until` is when its claims expire; the batch is what it still has to
      process, its head being the entry at hand. */
  datatype Phase =
    | Idle
    | Claiming(reading: nat, until: int, candidates: seq<Item>, got: seq<Item>)
    | Working(until: int, batch: seq<Item>)
    | Accepted(until: int, batch: seq<Item>)
    | Refused(until: int, batch: seq<Item>)

  datatype State = State(now: nat, cells: map<string, Cell>, phases: map<nat, Phase>, published: multiset<string>)

  datatype Step =
    | Tick(to: nat)
    | Save(id: string)
    | ClaimBatch(d: nat, ttl: int, batch: seq<Item>)
    | SelectCandidates(d: nat, reading: nat, ttl: int, candidates: seq<Item>)
    | ClaimRow(d: nat)
    | EndClaim(d: nat)
    | Publish(d: nat, ok: bool)
    | MarkDelivered(d: nat)
    | MarkFailed(d: nat)
    | MarkDead(d: nat)
    | MarkLost(d: nat)
    | Leave(d: nat)

  function PhaseOf(s: State, d: nat): Phase {
    if d in s.phases then s.phases[d] else Idle
  }

  function ItemIDs(items: seq<Item>): (ids: seq<string>)
    ensures |ids| == |items| && forall i :: 0 <= i < |items| ==> ids[i] == items[i].id
  {
    seq(|items|, i requires 0 <= i < |items| => items[i].id)
  }

  /** Entries free at the reading, with their current attempt counts. */
  predicate FreeItems(s: State, items: seq<Item>, reading: int) {
    && NoDup(ItemIDs(items))
    && forall i :: 0 <= i < |items| ==>
         items[i].id in s.cells && Free(s.cells[items[i].id], reading)
         && items[i].attempts == s.cells[items[i].id].attempts
  }

  predicate Enabled(maxRetries: nat, s: State, step: Step) {
    match step
    case Tick(to) => s.now <= to
    case Save(id) => id !in s.cells
    case ClaimBatch(d, ttl, batch) => PhaseOf(s, d).Idle? && FreeItems(s, batch, s.now)
    case SelectCandidates(d, reading, ttl, candidates) =>
      PhaseOf(s, d).Idle? && reading <= s.now && FreeItems(s, candidates, reading)
    case ClaimRow(d) => PhaseOf(s, d).Claiming? && PhaseOf(s, d).candidates != []
    case EndClaim(d) => PhaseOf(s, d).Claiming? && PhaseOf(s, d).candidates == []
    case Publish(d, ok) =>
      PhaseOf(s, d).Working? && PhaseOf(s, d).batch != [] && PhaseOf(s, d).batch[0].attempts < maxRetries
    case MarkDelivered(d) => PhaseOf(s, d).Accepted? && PhaseOf(s, d).batch != []
    case MarkFailed(d) => PhaseOf(s, d).Refused? && PhaseOf(s, d).batch != []
    case MarkDead(d) =>
      PhaseOf(s, d).Working? && PhaseOf(s, d).batch != [] && PhaseOf(s, d).batch[0].attempts >= maxRetries
    case MarkLost(d) =>
      && (PhaseOf(s, d).Working? || PhaseOf(s, d).Accepted? || PhaseOf(s, d).Refused?) && PhaseOf(s, d).batch != []
      && (PhaseOf(s, d).Working? ==> PhaseOf(s, d).batch[0].attempts >= maxRetries)
    case Leave(d) => !PhaseOf(s, d).Idle?
  }

  /** Leasing a set of entries. */
  function Leased(cells: map<string, Cell>, ids: set<string>, until: int): (after: map<string, Cell>)
    ensures after.Keys == cells.Keys
    ensures forall id :: id in cells ==>
              after[id] == if id in ids then cells[id].(claimedUntil := until) else cells[id]
  {
    map id | id in cells :: if id in ids then cells[id].(claimedUntil := until) else cells[id]
  }

  /** An update by ID; an unknown ID changes nothing. */
  function Updated(cells: map<string, Cell>, id: string, c: Cell): map<string, Cell> {
    if id in cells then cells[id := c] else cells
  }

  function CellOf(s: State, id: string): Cell {
    if id in s.cells then s.cells[id] else Cell(0, false, false, 0)
  }

  function AfterClaim(s: State, d: nat, until: int, batch: seq<Item>): State {
    s.(cells := Leased(s.cells, Elems(ItemIDs(batch)), until), phases := s.phases[d := Working(until, batch)])
  }

  /** The state after marking the entry at hand and moving on. */
  function AfterMark(s: State, d: nat, c: Cell): State
    requires PhaseOf(s, d).Working? || PhaseOf(s, d).Accepted? || PhaseOf(s, d).Refused?
    requires PhaseOf(s, d).batch != []
  {
    var p := PhaseOf(s, d);
    s.(cells := Updated(s.cells, p.batch[0].id, c), phases := s.phases[d := Working(p.until, p.batch[1..])])
  }

  function Apply(maxRetries: nat, s: State, step: Step): State
    requires Enabled(maxRetries, s, step)
  {
    match step
    case Tick(to) => s.(now := to)
    case Save(id) => s.(cells := s.cells[id := Cell(0, false, false, 0)])
    case ClaimBatch(d, ttl, batch) => AfterClaim(s, d, s.now + ttl, batch)
    case SelectCandidates(d, reading, ttl, candidates) =>
      s.(phases := s.phases[d := Claiming(reading, reading + ttl, candidates, [])])
    case ClaimRow(d) =>
      var p := PhaseOf(s, d);
      var item := p.candidates[0];
      var c := CellOf(s, item.id);
      if item.id in s.cells && Free(c, p.reading) then
        s.(cells := s.cells[item.id := c.(claimedUntil := p.until)],
           phases := s.phases[d := p.(candidates := p.candidates[1..], got := p.got + [item])])
      else
        s.(phases := s.phases[d := p.(candidates := p.candidates[1..])])
    case EndClaim(d) =>
      s.(phases := s.phases[d := Working(PhaseOf(s, d).until, PhaseOf(s, d).got)])
    case Publish(d, ok) =>
      var p := PhaseOf(s, d);
      if ok then
        s.(phases := s.phases[d := Accepted(p.until, p.batch)], published := s.published + multiset{p.batch[0].id})
      else
        s.(phases := s.phases[d := Refused(p.until, p.batch)])
    case MarkDelivered(d) => AfterMark(s, d, CellOf(s, PhaseOf(s, d).batch[0].id).(delivered := true))
    case MarkFailed(d) =>
      var c := CellOf(s, PhaseOf(s, d).batch[0].id);
      AfterMark(s, d, c.(attempts := c.attempts + 1, claimedUntil := 0))
    case MarkDead(d) => AfterMark(s, d, CellOf(s, PhaseOf(s, d).batch[0].id).(dead := true))
    case MarkLost(d) =>
      s.(phases := s.phases[d := Working(PhaseOf(s, d).until, PhaseOf(s, d).batch[1..])])
    case Leave(d) => s.(phases := s.phases[d := Idle])
  }

  /** The stated requirement on the claim TTL: a dispatcher works on an entry, from publish to mark,
      strictly before the claim expires; and what the bus has accepted gets marked. */
  ghost predicate Timely(s: State, step: Step) {
    match step
    case Tick(to) =>
      forall d :: d in s.phases && (s.phases[d].Accepted? || s.phases[d].Refused?) ==> to < s.phases[d].until
    case Publish(d, _) => Expiry(s, d) > s.now
    case MarkDelivered(d) => Expiry(s, d) > s.now
    case MarkFailed(d) => Expiry(s, d) > s.now
    case MarkDead(d) => Expiry(s, d) > s.now
    case MarkLost(d) => !PhaseOf(s, d).Accepted?
    case Leave(d) => !PhaseOf(s, d).Accepted?
    case _ => true
  }

  function Expiry(s: State, d: nat): int {
    match PhaseOf(s, d)
    case Idle => 0
    case Claiming(_, until, _, _) => until
    case Working(until, _) => until
    case Accepted(until, _) => until
    case Refused(until, _) => until
  }

  /** The entries a dispatcher holds a claim on. */
  function Held(p: Phase): seq<string> {
    match p
    case Idle => []
    case Claiming(_, _, _, got) => ItemIDs(got)
    case Working(_, batch) => ItemIDs(batch)
    case Accepted(_, batch) => ItemIDs(batch)
    case Refused(_, batch) => ItemIDs(batch)
  }

  /** The entry was accepted by the bus on behalf of d, which has not marked it yet. */
  predicate AwaitsMark(s: State, d: nat, id: string) {
    PhaseOf(s, d).Accepted? && PhaseOf(s, d).batch != [] && PhaseOf(s, d).batch[0].id == id
  }

  predicate HoldsLive(s: State, d: nat, id: string) {
    id in Held(PhaseOf(s, d)) && s.now < Expiry(s, d)
  }

  // ---- The invariant ----

  /** Batches name known entries, each once. */
  ghost predicate WellFormed(s: State) {
    forall d :: d in s.phases ==>
      match s.phases[d]
      case Idle => true
      case Claiming(reading, _, candidates, got) =>
        && reading <= s.now && NoDup(ItemIDs(got + candidates))
        && forall x :: x in got + candidates ==> x.id in s.cells
      case Working(_, batch) => Batch(s, batch)
      case Accepted(_, batch) => Batch(s, batch)
      case Refused(_, batch) => Batch(s, batch)
  }

  ghost predicate Batch(s: State, batch: seq<Item>) {
    NoDup(ItemIDs(batch)) && forall x :: x in batch ==> x.id in s.cells
  }

  /** A live claim is recorded in the store, on an entry that is not terminal. */
  ghost predicate LiveClaimsRecorded(s: State) {
    forall d, id :: HoldsLive(s, d, id) ==>
      id in s.cells && !Terminal(s.cells[id]) && s.cells[id].claimedUntil == Expiry(s, d)
  }

  /** No two dispatchers hold live claims on one entry. */
  ghost predicate LiveClaimsExclusive(s: State) {
    forall d, e, id :: HoldsLive(s, d, id) && HoldsLive(s, e, id) ==> d == e
  }

  /** An entry between publish and mark is held live and has been published. */
  ghost predicate MarksPending(s: State) {
    forall d, id :: AwaitsMark(s, d, id) ==> s.now < Expiry(s, d) && s.published[id] == 1
  }

  /** What has been published once is delivered or about to be marked so. */
  ghost predicate PublishedAccounted(s: State) {
    && (forall id :: s.published[id] <= 1)
    && (forall id :: s.published[id] == 1 ==>
          id in s.cells && (s.cells[id].delivered || exists d :: AwaitsMark(s, d, id)))
    && (forall id :: id in s.cells && s.cells[id].delivered ==> s.published[id] == 1)
    && (forall id :: id in s.cells && s.cells[id].dead ==> s.published[id] == 0)
  }

  ghost predicate Inv(s: State) {
    WellFormed(s) && LiveClaimsRecorded(s) && LiveClaimsExclusive(s) && MarksPending(s) && PublishedAccounted(s)
  }

  const INITIAL: State := State(0, map[], map[], multiset{})

  // ---- Every timely step keeps the invariant ----

  lemma TickKeeps(maxRetries: nat, s: State, to: nat)
    requires Inv(s) && Enabled(maxRetries, s, Tick(to)) && Timely(s, Tick(to))
    ensures Inv(Apply(maxRetries, s, Tick(to)))
  {
    var t := Apply(maxRetries, s, Tick(to));
    assert forall d, id :: HoldsLive(t, d, id) ==> HoldsLive(s, d, id);
    assert forall d, id :: AwaitsMark(t, d, id) <==> AwaitsMark(s, d, id);
    assert forall d, id :: AwaitsMark(s, d, id) ==> to < s.phases[d].until;
  }

  lemma SaveKeeps(maxRetries: nat, s: State, id: string)
    requires Inv(s) && Enabled(maxRetries, s, Save(id))
    ensures Inv(Apply(maxRetries, s, Save(id)))
  {
    var t := Apply(maxRetries, s, Save(id));
    assert forall d, x :: HoldsLive(t, d, x) <==> HoldsLive(s, d, x);
    assert forall d, x :: AwaitsMark(t, d, x) <==> AwaitsMark(s, d, x);
  }

  /** Changing only one dispatcher's phase to one that holds nothing more and awaits the same marks. */
  lemma PhaseKeeps(s: State, d: nat, p: Phase)
    requires Inv(s) && WellFormed(s.(phases := s.phases[d := p]))
    requires forall id :: id in Held(p) && s.now < Expiry(s.(phases := s.phases[d := p]), d) ==> HoldsLive(s, d, id)
    requires forall id :: id in Held(p) && s.now < Expiry(s.(phases := s.phases[d := p]), d) ==>
               Expiry(s.(phases := s.phases[d := p]), d) == Expiry(s, d)
    requires !p.Accepted? && !PhaseOf(s, d).Accepted?
    ensures Inv(s.(phases := s.phases[d := p]))
  {
    var t := s.(phases := s.phases[d := p]);
    assert forall e, id :: HoldsLive(t, e, id) ==> HoldsLive(s, e, id) && Expiry(t, e) == Expiry(s, e);
    assert forall e, id :: AwaitsMark(t, e, id) <==> AwaitsMark(s, e, id);
    assert forall e, id :: AwaitsMark(t, e, id) ==> Expiry(t, e) == Expiry(s, e);
  }

  lemma SelectKeeps(maxRetries: nat, s: State, d: nat, reading: nat, ttl: int, candidates: seq<Item>)
    requires Inv(s) && Enabled(maxRetries, s, SelectCandidates(d, reading, ttl, candidates))
    ensures Inv(Apply(maxRetries, s, SelectCandidates(d, reading, ttl, candidates)))
  {
    hide Inv, FreeItems;
    SelectInv(s, d, reading, reading + ttl, candidates);
  }

  lemma SelectInv(s: State, d: nat, reading: nat, until: int, candidates: seq<Item>)
    requires Inv(s) && PhaseOf(s, d).Idle? && reading <= s.now && FreeItems(s, candidates, reading)
    ensures Inv(s.(phases := s.phases[d := Claiming(reading, until, candidates, [])]))
  {
    SelectWellFormed(s, d, reading, until, candidates);
    hide Inv, FreeItems, WellFormed, HoldsLive;
    var p := Claiming(reading, until, candidates, []);
    assert Held(p) == [];
    PhaseKeeps(s, d, p);
  }

  lemma SelectWellFormed(s: State, d: nat, reading: nat, until: int, candidates: seq<Item>)
    requires Inv(s) && reading <= s.now && FreeItems(s, candidates, reading)
    ensures WellFormed(s.(phases := s.phases[d := Claiming(reading, until, candidates, [])]))
  {
    hide LiveClaimsRecorded, LiveClaimsExclusive, MarksPending, PublishedAccounted;
    assert [] + candidates == candidates;
  }

  lemma LeaveKeeps(maxRetries: nat, s: State, d: nat)
    requires Inv(s) && Enabled(maxRetries, s, Leave(d)) && Timely(s, Leave(d))
    ensures Inv(Apply(maxRetries, s, Leave(d)))
  {
    PhaseKeeps(s, d, Idle);
  }

  lemma MarkLostKeeps(maxRetries: nat, s: State, d: nat)
    requires Inv(s) && Enabled(maxRetries, s, MarkLost(d)) && Timely(s, MarkLost(d))
    ensures Inv(Apply(maxRetries, s, MarkLost(d)))
  {
    var p := PhaseOf(s, d);
    TailItems(p.batch);
    PhaseKeeps(s, d, Working(p.until, p.batch[1..]));
  }

  lemma TailItems(batch: seq<Item>)
    requires batch != []
    ensures ItemIDs(batch[1..]) == ItemIDs(batch)[1..]
    ensures NoDup(ItemIDs(batch)) ==> NoDup(ItemIDs(batch[1..]))
    ensures forall id :: id in ItemIDs(batch[1..]) ==> id in ItemIDs(batch)
  {}

  lemma EndClaimKeeps(maxRetries: nat, s: State, d: nat)
    requires Inv(s) && Enabled(maxRetries, s, EndClaim(d))
    ensures Inv(Apply(maxRetries, s, EndClaim(d)))
  {
    var p := PhaseOf(s, d);
    assert p.got + p.candidates == p.got;
    PhaseKeeps(s, d, Working(p.until, p.got));
  }

  lemma RefusedKeeps(maxRetries: nat, s: State, d: nat)
    requires Inv(s) && Enabled(maxRetries, s, Publish(d, false))
    ensures Inv(Apply(maxRetries, s, Publish(d, false)))
  {
    var p := PhaseOf(s, d);
    PhaseKeeps(s, d, Refused(p.until, p.batch));
  }

  /** Entries that are free at the current reading are in nobody's live claim. */
  lemma FreeIsUnclaimed(s: State, reading: nat, id: string)
    requires Inv(s) && reading <= s.now && id in s.cells && Free(s.cells[id], reading)
    ensures forall e :: !HoldsLive(s, e, id)
    ensures forall e :: !AwaitsMark(s, e, id)
  {
    forall e ensures !AwaitsMark(s, e, id) {
      if PhaseOf(s, e).Accepted? && PhaseOf(s, e).batch != [] {
        assert ItemIDs(PhaseOf(s, e).batch)[0] == PhaseOf(s, e).batch[0].id;
      }
    }
  }

  /** What a batch claim changes in the eyes of the invariant. */
  lemma ClaimView(s: State, d: nat, until: int, batch: seq<Item>)
    requires Inv(s) && PhaseOf(s, d).Idle? && FreeItems(s, batch, s.now)
    ensures var t := AfterClaim(s, d, until, batch);
            && WellFormed(t)
            && (forall e, id :: HoldsLive(t, e, id) ==>
                  if e == d then id in ItemIDs(batch) else HoldsLive(s, e, id) && id !in ItemIDs(batch))
            && (forall e, id :: AwaitsMark(t, e, id) <==> AwaitsMark(s, e, id))
            && (forall e :: Expiry(t, e) == if e == d then until else Expiry(s, e))
            && (forall id :: id in ItemIDs(batch) ==> id in s.cells && !Terminal(s.cells[id]))
  {
    ClaimPhases(s, d, until, batch);
    ClaimedAreFree(s, batch);
    ClaimWellFormed(s, d, until, batch);
    hide FreeItems, Inv, AfterClaim, PhaseOf, WellFormed, Terminal, Free, Leased;
  }

  /** What a batch claim changes: the leases, and where the dispatcher stands. */
  lemma ClaimPhases(s: State, d: nat, until: int, batch: seq<Item>)
    ensures var t := AfterClaim(s, d, until, batch);
            && (forall e :: PhaseOf(t, e) == if e == d then Working(until, batch) else PhaseOf(s, e))
            && t.now == s.now
  {}

  lemma ClaimedAreFree(s: State, batch: seq<Item>)
    requires Inv(s) && FreeItems(s, batch, s.now)
    ensures forall id :: id in ItemIDs(batch) ==> id in s.cells && !Terminal(s.cells[id])
    ensures forall e, id :: id in ItemIDs(batch) ==> !HoldsLive(s, e, id)
  {
    hide Inv, HoldsLive;
    forall id | id in ItemIDs(batch)
      ensures id in s.cells && !Terminal(s.cells[id])
      ensures forall e :: !HoldsLive(s, e, id)
    {
      var i :| 0 <= i < |batch| && ItemIDs(batch)[i] == id;
      assert batch[i].id == id;
      FreeIsUnclaimed(s, s.now, id);
    }
  }

  lemma ClaimWellFormed(s: State, d: nat, until: int, batch: seq<Item>)
    requires WellFormed(s) && FreeItems(s, batch, s.now)
    ensures WellFormed(AfterClaim(s, d, until, batch))
  {
    forall x | x in batch ensures x.id in s.cells {
      var i :| 0 <= i < |batch| && batch[i] == x;
      assert ItemIDs(batch)[i] == x.id;
    }
  }

  lemma ClaimBatchKeeps(maxRetries: nat, s: State, d: nat, ttl: int, batch: seq<Item>)
    requires Inv(s) && Enabled(maxRetries, s, ClaimBatch(d, ttl, batch))
    ensures Inv(Apply(maxRetries, s, ClaimBatch(d, ttl, batch)))
  {
    hide Inv, FreeItems, Leased;
    ClaimInv(s, d, s.now + ttl, batch);
  }

  lemma ClaimInv(s: State, d: nat, until: int, batch: seq<Item>)
    requires Inv(s) && PhaseOf(s, d).Idle? && FreeItems(s, batch, s.now)
    ensures Inv(AfterClaim(s, d, until, batch))
  {
    ClaimView(s, d, until, batch);
    hide WellFormed, HoldsLive, AwaitsMark, Expiry, FreeItems, PhaseOf;
  }

  lemma ClaimRowKeeps(maxRetries: nat, s: State, d: nat)
    requires Inv(s) && Enabled(maxRetries, s, ClaimRow(d))
    ensures Inv(Apply(maxRetries, s, ClaimRow(d)))
  {
    var p := PhaseOf(s, d);
    var item := p.candidates[0];
    var t := Apply(maxRetries, s, ClaimRow(d));
    assert p.got + p.candidates == p.got + [item] + p.candidates[1..];
    if item.id in s.cells && Free(s.cells[item.id], p.reading) {
      ClaimRowWins(s, d);
    } else {
      var q := p.(candidates := p.candidates[1..]);
      RestNoDup(p.got, item, p.candidates[1..]);
      PhaseKeeps(s, d, q);
    }
  }

  lemma RestNoDup(got: seq<Item>, item: Item, rest: seq<Item>)
    requires NoDup(ItemIDs(got + [item] + rest))
    ensures NoDup(ItemIDs(got + rest)) && NoDup(ItemIDs(got))
    ensures forall x :: x in got + rest ==> x in got + [item] + rest
    ensures item.id !in ItemIDs(got)
  {
    var all := got + [item] + rest;
    forall i | 0 <= i < |got| ensures ItemIDs(got)[i] != item.id {
      assert ItemIDs(all)[i] == got[i].id && ItemIDs(all)[|got|] == item.id;
    }
    forall i, j | 0 <= i < j < |got + rest| ensures ItemIDs(got + rest)[i] != ItemIDs(got + rest)[j] {
      var i' := if i < |got| then i else i + 1;
      var j' := if j < |got| then j else j + 1;
      assert ItemIDs(all)[i'] != ItemIDs(all)[j'];
    }
    forall i, j | 0 <= i < j < |got| ensures ItemIDs(got)[i] != ItemIDs(got)[j] {
      assert ItemIDs(all)[i] != ItemIDs(all)[j];
    }
  }

  function AfterWin(s: State, d: nat): State
    requires PhaseOf(s, d).Claiming? && PhaseOf(s, d).candidates != [] && PhaseOf(s, d).candidates[0].id in s.cells
  {
    var p := PhaseOf(s, d);
    var item := p.candidates[0];
    s.(cells := s.cells[item.id := s.cells[item.id].(claimedUntil := p.until)],
       phases := s.phases[d := p.(candidates := p.candidates[1..], got := p.got + [item])])
  }

  lemma WinView(s: State, d: nat)
    requires Inv(s) && PhaseOf(s, d).Claiming? && PhaseOf(s, d).candidates != []
    requires PhaseOf(s, d).candidates[0].id in s.cells
    ensures var t := AfterWin(s, d);
            var id := PhaseOf(s, d).candidates[0].id;
            && (forall e :: Expiry(t, e) == Expiry(s, e))
            && (forall e, x :: HoldsLive(t, e, x) ==> (e == d && x == id) || HoldsLive(s, e, x))
            && (forall e, x :: AwaitsMark(t, e, x) <==> AwaitsMark(s, e, x))
            && t.cells == s.cells[id := s.cells[id].(claimedUntil := Expiry(s, d))]
            && t.now == s.now && t.published == s.published
            && WellFormed(t)
  {
    var p := PhaseOf(s, d);
    var item := p.candidates[0];
    var t := AfterWin(s, d);
    assert p.got + p.candidates == p.got + [item] + p.candidates[1..];
    forall id | id in Held(PhaseOf(t, d)) ensures id == item.id || id in Held(PhaseOf(s, d)) {
      var i :| 0 <= i < |p.got + [item]| && ItemIDs(p.got + [item])[i] == id;
      if i < |p.got| { assert ItemIDs(p.got)[i] == id; }
    }
    assert forall e :: e != d ==> PhaseOf(t, e) == PhaseOf(s, e);
  }

  lemma ClaimRowWins(s: State, d: nat)
    requires Inv(s) && PhaseOf(s, d).Claiming? && PhaseOf(s, d).candidates != []
    requires PhaseOf(s, d).candidates[0].id in s.cells
    requires Free(s.cells[PhaseOf(s, d).candidates[0].id], PhaseOf(s, d).reading)
    ensures Inv(AfterWin(s, d))
  {
    FreeIsUnclaimed(s, PhaseOf(s, d).reading, PhaseOf(s, d).candidates[0].id);
    WinView(s, d);
    hide AfterWin, AwaitsMark, HoldsLive, Expiry, WellFormed;
    assert PublishedAccounted(AfterWin(s, d));
  }

  /** The entry at hand: held live, on record, not terminal, and in nobody else's live claim. */
  lemma HeadFacts(s: State, d: nat)
    requires Inv(s) && Expiry(s, d) > s.now
    requires PhaseOf(s, d).Working? || PhaseOf(s, d).Accepted? || PhaseOf(s, d).Refused?
    requires PhaseOf(s, d).batch != []
    ensures var id := PhaseOf(s, d).batch[0].id;
            && id in s.cells && !Terminal(s.cells[id]) && HoldsLive(s, d, id)
            && (forall e :: HoldsLive(s, e, id) ==> e == d)
            && (forall e :: AwaitsMark(s, e, id) ==> e == d)
            && id !in ItemIDs(PhaseOf(s, d).batch[1..])
    ensures forall x :: x in ItemIDs(PhaseOf(s, d).batch[1..]) ==> x in ItemIDs(PhaseOf(s, d).batch)
    ensures Batch(s, PhaseOf(s, d).batch[1..])
  {
    var batch := PhaseOf(s, d).batch;
    var id := batch[0].id;
    assert ItemIDs(batch)[0] == id;
    assert HoldsLive(s, d, id);
    forall e | AwaitsMark(s, e, id) ensures e == d {
      assert ItemIDs(PhaseOf(s, e).batch)[0] == id;
      assert HoldsLive(s, e, id);
    }
    forall i | 0 <= i < |batch[1..]| ensures batch[1..][i].id == ItemIDs(batch)[i + 1] && batch[1..][i].id != id {}
    forall i, j | 0 <= i < j < |batch[1..]| ensures batch[1..][i].id != batch[1..][j].id {
      assert ItemIDs(batch)[i + 1] != ItemIDs(batch)[j + 1];
    }
  }

  lemma AcceptedKeeps(maxRetries: nat, s: State, d: nat)
    requires Inv(s) && Enabled(maxRetries, s, Publish(d, true)) && Timely(s, Publish(d, true))
    ensures Inv(Apply(maxRetries, s, Publish(d, true)))
  {
    HeadFacts(s, d);
    var p := PhaseOf(s, d);
    var id := p.batch[0].id;
    var t := Apply(maxRetries, s, Publish(d, true));
    assert s.published[id] == 0;
    assert forall e, x :: HoldsLive(t, e, x) <==> HoldsLive(s, e, x);
    assert forall e :: Expiry(t, e) == Expiry(s, e);
    assert forall e, x :: AwaitsMark(t, e, x) <==> (e == d && x == id) || AwaitsMark(s, e, x);
    assert AwaitsMark(t, d, id);
    assert forall x :: t.published[x] == if x == id then 1 else s.published[x];
  }

  lemma MarkView(s: State, d: nat, c: Cell)
    requires Inv(s) && Expiry(s, d) > s.now
    requires PhaseOf(s, d).Working? || PhaseOf(s, d).Accepted? || PhaseOf(s, d).Refused?
    requires PhaseOf(s, d).batch != []
    ensures var t := AfterMark(s, d, c);
            var id := PhaseOf(s, d).batch[0].id;
            && (forall e :: Expiry(t, e) == Expiry(s, e))
            && (forall e, x :: HoldsLive(t, e, x) ==> HoldsLive(s, e, x) && x != id)
            && (forall e, x :: AwaitsMark(t, e, x) <==> AwaitsMark(s, e, x) && e != d)
            && (AwaitsMark(s, d, id) <==> PhaseOf(s, d).Accepted?)
            && (forall x :: AwaitsMark(s, d, x) ==> x == id)
            && id in s.cells && !Terminal(s.cells[id]) && t.cells == s.cells[id := c]
            && t.now == s.now && t.published == s.published
  {
    HeadFacts(s, d);
    MarkPhases(s, d, c);
    hide Inv, AfterMark, PhaseOf, Batch;
  }

  /** What a mark changes: the cell, and where the dispatcher stands. */
  lemma MarkPhases(s: State, d: nat, c: Cell)
    requires PhaseOf(s, d).Working? || PhaseOf(s, d).Accepted? || PhaseOf(s, d).Refused?
    requires PhaseOf(s, d).batch != [] && PhaseOf(s, d).batch[0].id in s.cells
    ensures var t, p := AfterMark(s, d, c), PhaseOf(s, d);
            && (forall e :: PhaseOf(t, e) == if e == d then Working(p.until, p.batch[1..]) else PhaseOf(s, e))
            && t.cells == s.cells[p.batch[0].id := c] && t.now == s.now && t.published == s.published
            && (AwaitsMark(s, d, p.batch[0].id) <==> p.Accepted?)
  {}

  lemma MarkWellFormed(s: State, d: nat, c: Cell)
    requires Inv(s) && Expiry(s, d) > s.now
    requires PhaseOf(s, d).Working? || PhaseOf(s, d).Accepted? || PhaseOf(s, d).Refused?
    requires PhaseOf(s, d).batch != []
    ensures WellFormed(AfterMark(s, d, c))
  {
    HeadFacts(s, d);
    var t := AfterMark(s, d, c);
    assert forall x :: x in s.cells ==> x in t.cells;
  }

  /** The shape that the three marks share. */
  lemma MarkKeeps(s: State, d: nat, c: Cell)
    requires Inv(s) && Expiry(s, d) > s.now
    requires PhaseOf(s, d).Working? || PhaseOf(s, d).Accepted? || PhaseOf(s, d).Refused?
    requires PhaseOf(s, d).batch != []
    requires c.delivered <==> PhaseOf(s, d).Accepted?
    requires c.dead ==> !c.delivered
    ensures Inv(AfterMark(s, d, c))
  {
    var t := AfterMark(s, d, c);
    MarkView(s, d, c);
    MarkWellFormed(s, d, c);
    MarkAccounts(s, d, c);
    hide AfterMark, AwaitsMark, HoldsLive, Expiry, WellFormed, PublishedAccounted;
  }

  lemma MarkAccounts(s: State, d: nat, c: Cell)
    requires Inv(s) && Expiry(s, d) > s.now
    requires PhaseOf(s, d).Working? || PhaseOf(s, d).Accepted? || PhaseOf(s, d).Refused?
    requires PhaseOf(s, d).batch != []
    requires c.delivered <==> PhaseOf(s, d).Accepted?
    requires c.dead ==> !c.delivered
    ensures PublishedAccounted(AfterMark(s, d, c))
  {
    HeadFacts(s, d);
    MarkView(s, d, c);
    hide AfterMark, AwaitsMark, HoldsLive, Expiry, WellFormed;
    var t := AfterMark(s, d, c);
    forall x | t.published[x] == 1
      ensures x in t.cells && (t.cells[x].delivered || exists e :: AwaitsMark(t, e, x))
    {
      if !s.cells[x].delivered {
        var e :| AwaitsMark(s, e, x);
        if e != d { assert AwaitsMark(t, e, x); }
      }
    }
    assert !PhaseOf(s, d).Accepted? ==> s.published[PhaseOf(s, d).batch[0].id] == 0;
  }

  /** Safety step: every timely step of any dispatcher keeps the invariant. */
  lemma StepKeeps(maxRetries: nat, s: State, step: Step)
    requires Inv(s) && Enabled(maxRetries, s, step) && Timely(s, step)
    ensures Inv(Apply(maxRetries, s, step))
  {
    hide Inv;
    match step
    case Tick(to) => TickKeeps(maxRetries, s, to);
    case Save(id) => SaveKeeps(maxRetries, s, id);
    case ClaimBatch(d, ttl, batch) => ClaimBatchKeeps(maxRetries, s, d, ttl, batch);
    case SelectCandidates(d, reading, ttl, candidates) => SelectKeeps(maxRetries, s, d, reading, ttl, candidates);
    case ClaimRow(d) => ClaimRowKeeps(maxRetries, s, d);
    case EndClaim(d) => EndClaimKeeps(maxRetries, s, d);
    case Publish(d, ok) =>
      if ok { AcceptedKeeps(maxRetries, s, d); } else { RefusedKeeps(maxRetries, s, d); }
    case MarkDelivered(d) => MarkDeliveredKeeps(maxRetries, s, d);
    case MarkFailed(d) => MarkFailedKeeps(maxRetries, s, d);
    case MarkDead(d) => MarkDeadKeeps(maxRetries, s, d);
    case Leave(d) => LeaveKeeps(maxRetries, s, d);
    case MarkLost(d) => MarkLostKeeps(maxRetries, s, d);
  }

  lemma MarkDeliveredKeeps(maxRetries: nat, s: State, d: nat)
    requires Inv(s) && Enabled(maxRetries, s, MarkDelivered(d)) && Timely(s, MarkDelivered(d))
    ensures Inv(Apply(maxRetries, s, MarkDelivered(d)))
  {
    HeadFacts(s, d);
    MarkKeeps(s, d, CellOf(s, PhaseOf(s, d).batch[0].id).(delivered := true));
  }

  lemma MarkFailedKeeps(maxRetries: nat, s: State, d: nat)
    requires Inv(s) && Enabled(maxRetries, s, MarkFailed(d)) && Timely(s, MarkFailed(d))
    ensures Inv(Apply(maxRetries, s, MarkFailed(d)))
  {
    HeadFacts(s, d);
    hide Inv;
    var c := CellOf(s, PhaseOf(s, d).batch[0].id);
    MarkKeeps(s, d, c.(attempts := c.attempts + 1, claimedUntil := 0));
  }

  lemma MarkDeadKeeps(maxRetries: nat, s: State, d: nat)
    requires Inv(s) && Enabled(maxRetries, s, MarkDead(d)) && Timely(s, MarkDead(d))
    ensures Inv(Apply(maxRetries, s, MarkDead(d)))
  {
    HeadFacts(s, d);
    MarkKeeps(s, d, CellOf(s, PhaseOf(s, d).batch[0].id).(dead := true));
  }

  // ---- Whole runs ----

  /** The states a run passes through: each step enabled where it is taken. */
  ghost predicate IsRun(maxRetries: nat, states: seq<State>, steps: seq<Step>) {
    && |states| == |steps| + 1
    && forall i :: 0 <= i < |steps| ==>
         Enabled(maxRetries, states[i], steps[i]) && states[i+1] == Apply(maxRetries, states[i], steps[i])
  }

  ghost predicate TimelyRun(states: seq<State>, steps: seq<Step>)
    requires |states| == |steps| + 1
  {
    forall i :: 0 <= i < |steps| ==> Timely(states[i], steps[i])
  }

  lemma {:induction false} RunKeeps(maxRetries: nat, states: seq<State>, steps: seq<Step>, n: nat)
    requires IsRun(maxRetries, states, steps) && TimelyRun(states, steps) && n < |states|
    requires Inv(states[0])
    ensures Inv(states[n])
  {
    hide Inv, Enabled, Timely, Apply;
    if n > 0 {
      RunKeeps(maxRetries, states, steps, n - 1);
      StepKeeps(maxRetries, states[n-1], steps[n-1]);
    }
  }

  /** However many dispatchers interleave, an entry is accepted by the bus at most once, is never both
      delivered and dead, and is delivered only if it was accepted and dead only if it was not. */
  lemma AtMostOnce(maxRetries: nat, states: seq<State>, steps: seq<Step>, n: nat, id: string)
    requires IsRun(maxRetries, states, steps) && TimelyRun(states, steps) && n < |states|
    requires states[0] == INITIAL
    ensures var s := states[n];
            && s.published[id] <= 1
            && (id in s.cells ==> !(s.cells[id].delivered && s.cells[id].dead))
            && (id in s.cells && s.cells[id].delivered ==> s.published[id] == 1)
            && (id in s.cells && s.cells[id].dead ==> s.published[id] == 0)
  {
    assert Inv(states[0]);
    RunKeeps(maxRetries, states, steps, n);
  }

  // ---- Claims are exclusive ----

  /** The step claims the entry, on this clock reading and for this lease. */
  ghost predicate Claims(s: State, step: Step, id: string, reading: nat, until: int) {
    match step
    case ClaimBatch(d, ttl, batch) => id in ItemIDs(batch) && reading == s.now && until == s.now + ttl
    case ClaimRow(d) =>
      var p := PhaseOf(s, d);
      && p.Claiming? && p.candidates != [] && p.candidates[0].id == id && reading == p.reading && until == p.until
      && id in s.cells && Free(s.cells[id], p.reading)
    case _ => false
  }

  /** The step is a MarkFailed on the entry. */
  predicate FailsEntry(s: State, step: Step, id: string) {
    step.MarkFailed? && PhaseOf(s, step.d).Refused? && PhaseOf(s, step.d).batch != []
    && PhaseOf(s, step.d).batch[0].id == id
  }

  /** Leases are never negative, as `WithClaimTTL` enforces. */
  ghost predicate LeasesForward(states: seq<State>, steps: seq<Step>)
    requires |states| == |steps| + 1
  {
    forall i, id, reading, until ::
      0 <= i < |steps| && Claims(states[i], steps[i], id, reading, until) ==> reading <= until
  }

  lemma ClaimNeedsFree(maxRetries: nat, s: State, step: Step, id: string, reading: nat, until: int)
    requires Enabled(maxRetries, s, step) && Claims(s, step, id, reading, until)
    ensures id in s.cells && s.cells[id].claimedUntil <= reading
    ensures var t := Apply(maxRetries, s, step); id in t.cells && t.cells[id].claimedUntil == until
  {
    if step.ClaimBatch? {
      var i :| 0 <= i < |step.batch| && ItemIDs(step.batch)[i] == id;
      assert step.batch[i].id == id;
    }
  }

  lemma LeaseOnlyGrows(maxRetries: nat, s: State, step: Step, id: string, bound: int)
    requires Enabled(maxRetries, s, step) && !FailsEntry(s, step, id)
    requires forall reading, until :: Claims(s, step, id, reading, until) ==> reading <= until
    requires id in s.cells && s.cells[id].claimedUntil >= bound
    ensures var t := Apply(maxRetries, s, step); id in t.cells && t.cells[id].claimedUntil >= bound
  {
    var t := Apply(maxRetries, s, step);
    if t.cells[id].claimedUntil != s.cells[id].claimedUntil {
      match step
      case ClaimBatch(d, ttl, batch) =>
        assert Claims(s, step, id, s.now, s.now + ttl);
        ClaimNeedsFree(maxRetries, s, step, id, s.now, s.now + ttl);
      case ClaimRow(d) =>
        assert Claims(s, step, id, PhaseOf(s, d).reading, PhaseOf(s, d).until);
      case _ =>
    }
  }

  lemma {:induction false} LeaseHolds(maxRetries: nat, states: seq<State>, steps: seq<Step>, i: nat, j: nat, id: string,
                                      bound: int)
    requires IsRun(maxRetries, states, steps) && LeasesForward(states, steps)
    requires i <= j < |states| && id in states[i].cells && states[i].cells[id].claimedUntil >= bound
    requires forall k :: i <= k < j ==> !FailsEntry(states[k], steps[k], id)
    ensures id in states[j].cells && states[j].cells[id].claimedUntil >= bound
    decreases j - i
  {
    hide Enabled, Apply, Claims, FailsEntry;
    if i < j {
      LeaseHolds(maxRetries, states, steps, i, j - 1, id, bound);
      LeaseOnlyGrows(maxRetries, states[j-1], steps[j-1], id, bound);
    }
  }

  /** Claim exclusivity, for both stores and any interleaving of their steps: once a claim has leased an
      entry until `until`, no later claim whose clock reading is before that gets it, unless the entry was
      marked failed in between. */
  lemma ClaimsExclusive(maxRetries: nat, states: seq<State>, steps: seq<Step>, i: nat, j: nat, id: string,
                        r1: nat, until1: int, r2: nat, until2: int)
    requires IsRun(maxRetries, states, steps) && LeasesForward(states, steps)
    requires i < j < |steps|
    requires Claims(states[i], steps[i], id, r1, until1) && Claims(states[j], steps[j], id, r2, until2)
    requires forall k :: i < k < j ==> !FailsEntry(states[k], steps[k], id)
    ensures until1 <= r2
  {
    hide Enabled, Apply, Claims;
    ClaimNeedsFree(maxRetries, states[i], steps[i], id, r1, until1);
    LeaseHolds(maxRetries, states, steps, i + 1, j, id, until1);
    ClaimNeedsFree(maxRetries, states[j], steps[j], id, r2, until2);
  }
}
