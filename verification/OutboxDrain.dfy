/** One dispatcher over the in-memory store (pkg/event/outbox/outbox.go, memory_store.go): what a pass does,
    and why repeated passes bring every entry to an end. The inner bus is an arbitrary oracle: `bus(id)` is
    the error with which it refuses the entry in this pass, if it does. */
module OutboxDrain {
  import opened Results
  import opened Listing
  import opened OutboxStore

  datatype Config = Config(batchSize: int, maxRetries: nat, claimTTL: int)

  /** The arguments of one pass: its clock reading and the answers of the bus. */
  datatype PassInput = PassInput(now: nat, bus: string -> Option<string>)

  const EXHAUSTED: string := "event/outbox: max retries exceeded"

  // ---- What a pass does ----

  /** The mark an entry of the batch receives. */
  function Outcome(cfg: Config, item: Pending, bus: string -> Option<string>): Mark {
    if item.attempts >= cfg.maxRetries then Dead(EXHAUSTED)
    else match bus(item.envelope.id)
         case None => Delivered
         case Some(failure) => Failed(failure)
  }

  /** The entries after the first items of the batch have been dispatched, in order. */
  function Dispatched(cfg: Config, rows: seq<Row>, batch: seq<Pending>, bus: string -> Option<string>): (after: seq<Row>)
    ensures |after| == |rows|
  {
    if batch == [] then rows
    else
      var n := |batch| - 1;
      MarkedRows(Dispatched(cfg, rows, batch[..n], bus), batch[n].envelope.id, Outcome(cfg, batch[n], bus))
  }

  /** The IDs handed to the inner bus, in order. */
  function PublishedIDs(cfg: Config, batch: seq<Pending>): seq<string> {
    if batch == [] then []
    else
      var n := |batch| - 1;
      PublishedIDs(cfg, batch[..n])
      + if batch[n].attempts < cfg.maxRetries then [batch[n].envelope.id] else []
  }

  function PassRows(cfg: Config, rows: seq<Row>, input: PassInput): (after: seq<Row>)
    ensures |after| == |rows|
  {
    Dispatched(cfg, ClaimedRows(rows, cfg.batchSize, input.now, cfg.claimTTL),
               TakenBatch(rows, cfg.batchSize, input.now), input.bus)
  }

  function PassPublished(cfg: Config, rows: seq<Row>, input: PassInput): seq<string> {
    PublishedIDs(cfg, TakenBatch(rows, cfg.batchSize, input.now))
  }

  /** How many entries a pass sends on, and how many it marks, if the context is found live so often: twice
      before the first entry, then before each entry and again by its mark. */
  function Sends(looks: nat): nat
    requires looks >= 2
  {
    (looks - 1) / 2
  }

  function Marks(looks: nat): nat
    requires looks >= 2
  {
    (looks - 2) / 2
  }

  lemma LooksUsed(looks: nat, k: nat)
    requires looks >= 2
    ensures Marks(looks) <= Sends(looks) <= Marks(looks) + 1
    ensures k < Sends(looks) <==> looks > 2 + 2 * k
    ensures k < Marks(looks) <==> looks > 3 + 2 * k
  {}

  /** The outbox object: what `Publish` and the dispatcher use. */
  class Outbox {
    const store: MemoryStore
    const cfg: Config
    var stopped: bool

    constructor (store: MemoryStore, cfg: Config)
      ensures this.store == store && this.cfg == cfg && !stopped
    {
      this.store, this.cfg, this.stopped := store, cfg, false;
    }

    /** `Publish`: a duplicate idempotency key is silently accepted, because the earlier save already
        scheduled delivery. The envelope is validated here and again by the store. */
    method Publish(cancelled: bool, given: Envelope, now: Reading, later: Reading)
      returns (r: Result<(), StoreError>, closed: bool)
      requires store.Valid()
      modifies store
      ensures store.Valid()
      ensures closed <==> ValidEnvelope(given) && stopped
      ensures store.Rows() == if ValidEnvelope(given) && !stopped && !cancelled
                                 && (given.key == "" || !KeyUsed(old(store.Saved()), given.key))
                              then old(store.Rows()) + [NewRow(Normalized(given, now))] else old(store.Rows())
      ensures !stopped && !cancelled ==> store.Rows() == AfterSave(old(store.Rows()), given, now)
      ensures !closed ==> r == if !ValidEnvelope(given) then Err(InvalidEnvelope)
                               else if cancelled then Err(Cancelled) else Ok(())
    {
      hide Normalized, KeyUsed;
      closed := false;
      assert store.Saved() == Envelopes(store.Rows());
      var ok, env := Validate(given, now);
      if !ok { return Err(InvalidEnvelope), false; }
      if stopped { return Ok(()), true; }
      NormalizedOnce(given, now, later);
      r := store.Save(cancelled, env, later);
      if r == Err(Duplicate) {
        r := Ok(());
      }
    }

    /** `dispatchOnce` under a context that is found live the first `looks` times it is looked at: on entry,
        by the claim, and then for each entry before its publish and by its mark. A context that ends in
        between leaves the entry at hand published but unmarked. */
    method DispatchOnce(looks: nat, now: nat, bus: string -> Option<string>) returns (published: seq<string>)
      requires store.Valid()
      modifies store.entries
      ensures store.Valid()
      ensures looks < 2 ==> store.Rows() == old(store.Rows()) && published == []
      ensures looks >= 2 ==>
                var batch := TakenBatch(old(store.Rows()), cfg.batchSize, now);
                && store.Rows()
                   == Dispatched(cfg, ClaimedRows(old(store.Rows()), cfg.batchSize, now, cfg.claimTTL),
                                 batch[..Min(|batch|, Marks(looks))], bus)
                && published == PublishedIDs(cfg, batch[..Min(|batch|, Sends(looks))])
    {
      hide TakenBatch, ClaimedRows, Dispatched, PublishedIDs, Marks, Sends;
      published := [];
      if looks == 0 { return; }
      var fetched := store.ClaimBatch(looks == 1, cfg.batchSize, cfg.claimTTL, now);
      if fetched.Err? { return; }
      published := DispatchBatch(looks, fetched.value, bus);
    }

    /** The loop of `dispatchOnce`. */
    method DispatchBatch(looks: nat, entries: seq<Pending>, bus: string -> Option<string>)
      returns (published: seq<string>)
      requires store.Valid() && looks >= 2
      modifies store.entries
      ensures store.Valid() && store.entries == old(store.entries)
      ensures store.Rows() == Dispatched(cfg, old(store.Rows()), entries[..Min(|entries|, Marks(looks))], bus)
      ensures published == PublishedIDs(cfg, entries[..Min(|entries|, Sends(looks))])
    {
      hide MarkedRows, Dispatched, PublishedIDs, Marks, Sends, Outcome;
      published := [];
      ghost var claimed := store.Rows();
      NothingDispatched(cfg, claimed, entries, bus);
      LooksUsed(looks, 0);
      for k := 0 to |entries|
        invariant store.Valid() && store.entries == old(store.entries)
        invariant k <= Sends(looks) <= Marks(looks) + 1
        invariant store.Rows() == Dispatched(cfg, claimed, entries[..Min(k, Marks(looks))], bus)
        invariant published == PublishedIDs(cfg, entries[..k])
      {
        LooksUsed(looks, k);
        if looks <= 2 + 2 * k {
          return;
        }
        OneMoreDispatched(cfg, claimed, entries, k, bus);
        var sent := DispatchEntry(looks == 3 + 2 * k, entries[k], bus);
        published := published + sent;
      }
    }

    /** The loop body of `dispatchOnce`: at most one publish, then exactly one mark, which does nothing if the
        context has ended. */
    method DispatchEntry(cancelled: bool, entry: Pending, bus: string -> Option<string>)
      returns (published: seq<string>)
      requires store.Valid()
      modifies store.entries
      ensures store.Valid() && store.entries == old(store.entries)
      ensures store.Rows() == if cancelled then old(store.Rows())
                              else MarkedRows(old(store.Rows()), entry.envelope.id, Outcome(cfg, entry, bus))
      ensures published == if entry.attempts < cfg.maxRetries then [entry.envelope.id] else []
    {
      hide MarkedRows;
      if entry.attempts >= cfg.maxRetries {
        var _ := store.MarkDead(cancelled, entry.envelope.id, EXHAUSTED);
        return [];
      }
      published := [entry.envelope.id];
      var answer := bus(entry.envelope.id);
      if answer.Some? {
        var _ := store.MarkFailed(cancelled, entry.envelope.id, answer.value);
        return;
      }
      var _ := store.MarkDelivered(cancelled, entry.envelope.id);
    }
  }

  /** Under a context that stays live a pass is PassRows. */
  lemma LivePassIsWhole(cfg: Config, rows: seq<Row>, input: PassInput, looks: nat)
    requires looks >= 2 + 2 * |TakenBatch(rows, cfg.batchSize, input.now)|
    ensures var batch := TakenBatch(rows, cfg.batchSize, input.now);
            && Dispatched(cfg, ClaimedRows(rows, cfg.batchSize, input.now, cfg.claimTTL),
                          batch[..Min(|batch|, Marks(looks))], input.bus) == PassRows(cfg, rows, input)
            && PublishedIDs(cfg, batch[..Min(|batch|, Sends(looks))]) == PassPublished(cfg, rows, input)
  {
    hide TakenBatch, Dispatched, PublishedIDs;
    var batch := TakenBatch(rows, cfg.batchSize, input.now);
    assert batch[..|batch|] == batch;
  }

  lemma NothingDispatched(cfg: Config, rows: seq<Row>, batch: seq<Pending>, bus: string -> Option<string>)
    ensures Dispatched(cfg, rows, batch[..0], bus) == rows && PublishedIDs(cfg, batch[..0]) == []
  {}

  lemma OneMoreDispatched(cfg: Config, rows: seq<Row>, batch: seq<Pending>, k: nat, bus: string -> Option<string>)
    requires k < |batch|
    ensures Dispatched(cfg, rows, batch[..k+1], bus)
         == MarkedRows(Dispatched(cfg, rows, batch[..k], bus), batch[k].envelope.id, Outcome(cfg, batch[k], bus))
    ensures PublishedIDs(cfg, batch[..k+1])
         == PublishedIDs(cfg, batch[..k]) + if batch[k].attempts < cfg.maxRetries then [batch[k].envelope.id] else []
  {
    assert batch[..k+1][..k] == batch[..k];
  }

  /** What is handed to the bus of each entry of a batch. */
  function Sent(cfg: Config, batch: seq<Pending>): (image: seq<Option<string>>)
    ensures |image| == |batch|
    ensures forall k :: 0 <= k < |batch| ==>
              image[k] == if batch[k].attempts < cfg.maxRetries then Some(batch[k].envelope.id) else None
  {
    seq(|batch|, k requires 0 <= k < |batch| =>
      if batch[k].attempts < cfg.maxRetries then Some(batch[k].envelope.id) else None)
  }

  /** Entries are published in the order of the batch. */
  lemma {:induction false} PublishedInOrder(cfg: Config, batch: seq<Pending>)
    ensures Lists(PublishedIDs(cfg, batch), Sent(cfg, batch))
  {
    hide Lists;
    if batch == [] {
      ListsNothing<string>();
    } else {
      var n := |batch| - 1;
      PublishedInOrder(cfg, batch[..n]);
      ListsStep(PublishedIDs(cfg, batch[..n]), Sent(cfg, batch[..n]), Sent(cfg, batch)[n]);
      assert Sent(cfg, batch) == Sent(cfg, batch[..n]) + [Sent(cfg, batch)[n]];
      assert PublishedIDs(cfg, batch[..n]) + [] == PublishedIDs(cfg, batch[..n]);
    }
  }

  // ---- A pass, entry by entry ----

  predicate DistinctIDs(rows: seq<Row>) {
    forall i, j :: 0 <= i < j < |rows| ==> rows[i].envelope.id != rows[j].envelope.id
  }

  /** What a pass does to a taken entry. */
  function AfterPass(cfg: Config, row: Row, input: PassInput): Row {
    Marked(row.(claimedUntil := input.now + cfg.claimTTL),
           Outcome(cfg, Pending(row.envelope, row.attempts), input.bus))
  }

  lemma MarkedAt(rows: seq<Row>, i: nat, mark: Mark)
    requires DistinctIDs(rows) && i < |rows|
    ensures MarkedRows(rows, rows[i].envelope.id, mark) == rows[i := Marked(rows[i], mark)]
  {
    var j := LastWithID(Envelopes(rows), rows[i].envelope.id);
    assert Envelopes(rows)[i] == rows[i].envelope;
    assert j >= i;
    assert j >= 0 ==> rows[j].envelope.id == rows[i].envelope.id;
  }

  /** The entries when those before position n have been dispatched, each as if alone. */
  ghost predicate PointwiseUpTo(cfg: Config, rows: seq<Row>, input: PassInput, after: seq<Row>, n: nat) {
    var claimed := ClaimedRows(rows, cfg.batchSize, input.now, cfg.claimTTL);
    && |after| == |rows|
    && forall i :: 0 <= i < |rows| ==>
         after[i] == if i < n && Taken(rows, i, cfg.batchSize, input.now) then AfterPass(cfg, rows[i], input)
                     else claimed[i]
  }

  lemma PointwiseStep(cfg: Config, rows: seq<Row>, input: PassInput, before: seq<Row>, n: nat)
    requires DistinctIDs(rows) && n < |rows| && PointwiseUpTo(cfg, rows, input, before, n)
    ensures !Taken(rows, n, cfg.batchSize, input.now) ==> PointwiseUpTo(cfg, rows, input, before, n + 1)
    ensures var item := Pending(rows[n].envelope, rows[n].attempts);
            Taken(rows, n, cfg.batchSize, input.now) ==>
              PointwiseUpTo(cfg, rows, input, MarkedRows(before, item.envelope.id, Outcome(cfg, item, input.bus)), n + 1)
  {
    hide Taken, Marked, Outcome, MarkedRows;
    var item := Pending(rows[n].envelope, rows[n].attempts);
    AfterPassEnvelopes(cfg, rows, input, before, n);
    MarkedAt(before, n, Outcome(cfg, item, input.bus));
  }

  /** The part of the batch that comes from the first n entries. */
  lemma {:induction false} DispatchedPrefix(cfg: Config, rows: seq<Row>, input: PassInput, n: nat)
    requires DistinctIDs(rows) && n <= |rows|
    ensures var claimed := ClaimedRows(rows, cfg.batchSize, input.now, cfg.claimTTL);
            var after := Dispatched(cfg, claimed, TakenBatch(rows[..n], cfg.batchSize, input.now), input.bus);
            PointwiseUpTo(cfg, rows, input, after, n)
  {
    hide MarkedRows, Outcome, Taken, TakenBatch, Dispatched, DistinctIDs, AfterPass;
    var limit := cfg.batchSize;
    var claimed := ClaimedRows(rows, limit, input.now, cfg.claimTTL);
    NothingTakenYet(cfg, rows, claimed, limit, input);
    if n > 0 {
      DispatchedPrefix(cfg, rows, input, n - 1);
      hide PointwiseUpTo, ClaimedRows;
      BatchStep(rows, n - 1, limit, input.now);
      var sofar := TakenBatch(rows[..n-1], limit, input.now);
      DispatchedStep(cfg, claimed, sofar, Pending(rows[n-1].envelope, rows[n-1].attempts), input.bus);
      PointwiseStep(cfg, rows, input, Dispatched(cfg, claimed, sofar, input.bus), n - 1);
      assert sofar + [] == sofar;
    }
  }

  lemma NothingTakenYet(cfg: Config, rows: seq<Row>, claimed: seq<Row>, limit: int, input: PassInput)
    ensures Dispatched(cfg, claimed, TakenBatch(rows[..0], limit, input.now), input.bus) == claimed
  {}

  lemma DispatchedStep(cfg: Config, rows: seq<Row>, batch: seq<Pending>, item: Pending, bus: string -> Option<string>)
    ensures Dispatched(cfg, rows, batch + [item], bus)
         == MarkedRows(Dispatched(cfg, rows, batch, bus), item.envelope.id, Outcome(cfg, item, bus))
  {
    assert (batch + [item])[..|batch|] == batch;
  }

  lemma AfterPassEnvelopes(cfg: Config, rows: seq<Row>, input: PassInput, before: seq<Row>, n: nat)
    requires DistinctIDs(rows) && PointwiseUpTo(cfg, rows, input, before, n)
    ensures |before| == |rows|
    ensures DistinctIDs(before) && forall i :: 0 <= i < |rows| ==> before[i].envelope == rows[i].envelope
  {
    forall i | 0 <= i < |rows| ensures before[i].envelope == rows[i].envelope {}
  }

  /** A pass rewrites exactly the taken entries, each on its own. */
  lemma PassIsPointwise(cfg: Config, rows: seq<Row>, input: PassInput)
    requires DistinctIDs(rows)
    ensures var after := PassRows(cfg, rows, input);
            && DistinctIDs(after)
            && forall i :: 0 <= i < |rows| ==>
                 after[i] == if Taken(rows, i, cfg.batchSize, input.now) then AfterPass(cfg, rows[i], input) else rows[i]
  {
    hide AfterPass, Taken, TakenBatch, Dispatched;
    DispatchedPrefix(cfg, rows, input, |rows|);
    assert rows[..|rows|] == rows;
    AfterPassEnvelopes(cfg, rows, input, PassRows(cfg, rows, input), |rows|);
  }

  /** What became of a pending entry that a pass took: accepted, it is delivered; refused, it has one more attempt
      and the text of the refusal, and is free again; out of attempts, it is dead without being sent. */
  ghost predicate Answered(cfg: Config, row: Row, bus: string -> Option<string>, after: Row) {
    && after.envelope == row.envelope
    && (after.dead <==> row.attempts >= cfg.maxRetries)
    && (after.delivered <==> row.attempts < cfg.maxRetries && bus(row.envelope.id).None?)
    && (after.dead ==> after.attempts == row.attempts && after.lastError == EXHAUSTED)
    && (after.delivered ==> after.attempts == row.attempts && after.lastError == row.lastError)
    && (!Terminal(after) ==> after.attempts == row.attempts + 1 && after.claimedUntil == 0
                             && bus(row.envelope.id) == Some(after.lastError))
  }

  /** The answer of the bus decides what a pass records of each entry it takes; the others stay as they are. */
  lemma PassAnswers(cfg: Config, rows: seq<Row>, input: PassInput, i: nat)
    requires DistinctIDs(rows) && i < |rows|
    ensures var after := PassRows(cfg, rows, input);
            if Taken(rows, i, cfg.batchSize, input.now) then Answered(cfg, rows[i], input.bus, after[i])
            else after[i] == rows[i]
  {
    hide PassRows, Taken, Answered, AfterPass;
    PassIsPointwise(cfg, rows, input);
    if Taken(rows, i, cfg.batchSize, input.now) {
      TakenIsPending(rows, i, cfg.batchSize, input.now);
      RowAnswered(cfg, rows[i], input);
    }
  }

  lemma RowAnswered(cfg: Config, row: Row, input: PassInput)
    requires !Terminal(row)
    ensures Answered(cfg, row, input.bus, AfterPass(cfg, row, input))
  {}

  // ---- Draining ----

  /** Between passes: no pending entry is leased, attempts are bounded, and the counts tell the end. */
  predicate Settled(cfg: Config, row: Row) {
    && (!Terminal(row) ==> row.claimedUntil <= 0)
    && row.attempts <= cfg.maxRetries
    && (row.delivered ==> row.attempts < cfg.maxRetries && !row.dead)
    && (row.dead ==> row.attempts == cfg.maxRetries)
  }

  predicate AllSettled(cfg: Config, rows: seq<Row>) {
    forall i :: 0 <= i < |rows| ==> Settled(cfg, rows[i])
  }

  function Remaining(cfg: Config, row: Row): (r: int)
    ensures row.attempts <= cfg.maxRetries ==> r >= 0
  {
    if Terminal(row) then 0 else cfg.maxRetries + 1 - row.attempts
  }

  /** The sum of maxRetries + 1 - attempts over the entries that are not terminal. */
  function Potential(cfg: Config, rows: seq<Row>): int {
    if rows == [] then 0
    else
      var n := |rows| - 1;
      Potential(cfg, rows[..n]) + Remaining(cfg, rows[n])
  }

  predicate AllTerminal(rows: seq<Row>) {
    forall i :: 0 <= i < |rows| ==> Terminal(rows[i])
  }

  lemma RowStep(cfg: Config, row: Row, input: PassInput)
    requires Settled(cfg, row) && !Terminal(row)
    ensures Settled(cfg, AfterPass(cfg, row, input))
    ensures Remaining(cfg, AfterPass(cfg, row, input)) < Remaining(cfg, row)
  {}

  lemma {:induction false} PotentialFalls(cfg: Config, a: seq<Row>, b: seq<Row>)
    requires |a| == |b| && forall i :: 0 <= i < |a| ==> Remaining(cfg, b[i]) <= Remaining(cfg, a[i])
    ensures Potential(cfg, b) <= Potential(cfg, a)
    ensures (exists i :: 0 <= i < |a| && Remaining(cfg, b[i]) < Remaining(cfg, a[i])) ==>
              Potential(cfg, b) < Potential(cfg, a)
  {
    if a != [] {
      PotentialFalls(cfg, a[..|a| - 1], b[..|b| - 1]);
      if i :| 0 <= i < |a| && Remaining(cfg, b[i]) < Remaining(cfg, a[i]) {
        if i < |a| - 1 {
          assert a[..|a| - 1][i] == a[i] && b[..|b| - 1][i] == b[i];
        }
      }
    }
  }

  /** The first entry that is not terminal is always taken. */
  lemma {:induction false} FirstFree(rows: seq<Row>, now: nat, n: nat) returns (i: nat)
    requires n <= |rows| && CountFree(rows[..n], now) > 0
    ensures i < n && Free(rows[i], now) && CountFree(rows[..i], now) == 0
  {
    assert rows[..n][..n-1] == rows[..n-1];
    if CountFree(rows[..n-1], now) > 0 {
      i := FirstFree(rows, now, n - 1);
    } else {
      i := n - 1;
    }
  }

  lemma {:induction false} CountFreePositive(rows: seq<Row>, now: nat, i: nat)
    requires i < |rows| && Free(rows[i], now)
    ensures CountFree(rows, now) > 0
  {
    if i < |rows| - 1 {
      CountFreePositive(rows[..|rows| - 1], now, i);
    }
  }

  /** Each pass keeps the entries settled and, unless everything is terminal already, strictly lowers the
      potential, whatever the bus answers. */
  lemma PassProgress(cfg: Config, rows: seq<Row>, input: PassInput)
    requires cfg.batchSize > 0 && DistinctIDs(rows) && AllSettled(cfg, rows)
    ensures var after := PassRows(cfg, rows, input);
            && DistinctIDs(after) && AllSettled(cfg, after)
            && (AllTerminal(rows) ==> after == rows)
            && (!AllTerminal(rows) ==> Potential(cfg, after) < Potential(cfg, rows))
  {
    hide PassRows, AfterPass, Potential, CountFree, Settled;
    PassIsPointwise(cfg, rows, input);
    var after := PassRows(cfg, rows, input);
    forall i | 0 <= i < |rows|
      ensures Settled(cfg, after[i]) && Remaining(cfg, after[i]) <= Remaining(cfg, rows[i])
    {
      if Taken(rows, i, cfg.batchSize, input.now) { RowStep(cfg, rows[i], input); }
    }
    PotentialFalls(cfg, rows, after);
    if !AllTerminal(rows) {
      var k :| 0 <= k < |rows| && !Terminal(rows[k]);
      SettledIsFree(cfg, rows[k], input.now);
      CountFreePositive(rows, input.now, k);
      assert rows[..|rows|] == rows;
      var i := FirstFree(rows, input.now, |rows|);
      RowStep(cfg, rows[i], input);
      assert Remaining(cfg, after[i]) < Remaining(cfg, rows[i]);
    }
  }

  lemma SettledIsFree(cfg: Config, row: Row, now: nat)
    requires Settled(cfg, row) && !Terminal(row)
    ensures Free(row, now)
  {}

  /** The entries after a series of passes. */
  function RunRows(cfg: Config, rows: seq<Row>, inputs: seq<PassInput>): seq<Row> {
    if inputs == [] then rows
    else PassRows(cfg, RunRows(cfg, rows, inputs[..|inputs| - 1]), inputs[|inputs| - 1])
  }

  lemma {:induction false} PotentialNonNegative(cfg: Config, rows: seq<Row>)
    requires AllSettled(cfg, rows)
    ensures Potential(cfg, rows) >= 0
    ensures Potential(cfg, rows) == 0 ==> AllTerminal(rows)
  {
    if rows != [] {
      var n := |rows| - 1;
      PotentialNonNegative(cfg, rows[..n]);
      assert rows == rows[..n] + [rows[n]];
    }
  }

  /** After k passes everything is terminal or the potential has fallen by at least k. */
  lemma {:induction false} RunProgress(cfg: Config, rows: seq<Row>, inputs: seq<PassInput>)
    requires cfg.batchSize > 0 && DistinctIDs(rows) && AllSettled(cfg, rows)
    ensures var after := RunRows(cfg, rows, inputs);
            && DistinctIDs(after) && AllSettled(cfg, after)
            && (AllTerminal(after) || Potential(cfg, after) + |inputs| <= Potential(cfg, rows))
  {
    hide PassRows, Potential, Settled, Terminal;
    if inputs != [] {
      var n := |inputs| - 1;
      RunProgress(cfg, rows, inputs[..n]);
      PassProgress(cfg, RunRows(cfg, rows, inputs[..n]), inputs[n]);
    }
  }

  /** Drain: enough passes make every entry terminal, whatever the bus answers and whenever they run. */
  lemma Drains(cfg: Config, rows: seq<Row>, inputs: seq<PassInput>)
    requires cfg.batchSize > 0 && DistinctIDs(rows) && AllSettled(cfg, rows)
    requires |inputs| >= Potential(cfg, rows)
    ensures AllTerminal(RunRows(cfg, rows, inputs))
  {
    hide Potential, Settled, RunRows, Terminal;
    RunProgress(cfg, rows, inputs);
    PotentialNonNegative(cfg, RunRows(cfg, rows, inputs));
  }

  // ---- How often an entry is published ----

  lemma {:induction false} PublishedCount(cfg: Config, rows: seq<Row>, input: PassInput, n: nat, i: nat)
    requires DistinctIDs(rows) && n <= |rows| && i < |rows|
    ensures multiset(PublishedIDs(cfg, TakenBatch(rows[..n], cfg.batchSize, input.now)))[rows[i].envelope.id]
         == if i < n && Taken(rows, i, cfg.batchSize, input.now) && rows[i].attempts < cfg.maxRetries then 1 else 0
  {
    hide Taken, TakenBatch, PublishedIDs;
    var limit := cfg.batchSize;
    NothingPublished(cfg, rows, limit, input.now);
    if n > 0 {
      PublishedCount(cfg, rows, input, n - 1, i);
      BatchStep(rows, n - 1, limit, input.now);
      var sofar := TakenBatch(rows[..n-1], limit, input.now);
      PublishedAppend(cfg, sofar, Pending(rows[n-1].envelope, rows[n-1].attempts));
      assert sofar + [] == sofar;
      assert i != n - 1 ==> rows[i].envelope.id != rows[n-1].envelope.id;
    }
  }

  lemma NothingPublished(cfg: Config, rows: seq<Row>, limit: int, now: nat)
    ensures PublishedIDs(cfg, TakenBatch(rows[..0], limit, now)) == []
  {}

  lemma PublishedAppend(cfg: Config, batch: seq<Pending>, item: Pending)
    ensures multiset(PublishedIDs(cfg, batch + [item]))
         == multiset(PublishedIDs(cfg, batch))
            + if item.attempts < cfg.maxRetries then multiset{item.envelope.id} else multiset{}
  {
    assert (batch + [item])[..|batch|] == batch;
  }

  /** Publishes on record: one per failed attempt, plus one if it was delivered. */
  function Spent(row: Row): nat {
    row.attempts + if row.delivered then 1 else 0
  }

  /** In one pass an entry is published as often as its record says. */
  lemma PassPublishes(cfg: Config, rows: seq<Row>, input: PassInput, i: nat)
    requires DistinctIDs(rows) && AllSettled(cfg, rows) && i < |rows|
    ensures var after := PassRows(cfg, rows, input);
            && after[i].envelope == rows[i].envelope
            && multiset(PassPublished(cfg, rows, input))[rows[i].envelope.id] == Spent(after[i]) - Spent(rows[i])
  {
    PassIsPointwise(cfg, rows, input);
    PublishedCount(cfg, rows, input, |rows|, i);
    assert rows[..|rows|] == rows;
    hide PassRows, TakenBatch, CountFree, Taken, AfterPass, Spent, PublishedIDs, Settled, DistinctIDs, Free;
    if Taken(rows, i, cfg.batchSize, input.now) {
      TakenIsPending(rows, i, cfg.batchSize, input.now);
      RowSpends(cfg, rows[i], input);
    }
  }

  lemma TakenIsPending(rows: seq<Row>, i: nat, limit: int, now: nat)
    requires i < |rows| && Taken(rows, i, limit, now)
    ensures !Terminal(rows[i])
  {
    hide CountFree;
  }

  lemma RowSpends(cfg: Config, row: Row, input: PassInput)
    requires Settled(cfg, row) && !Terminal(row)
    ensures AfterPass(cfg, row, input).envelope == row.envelope
    ensures Spent(AfterPass(cfg, row, input)) == Spent(row) + if row.attempts < cfg.maxRetries then 1 else 0
  {}

  // ---- Saves and passes, in any order ----

  /** What happens to the store: a publish into the outbox, or a pass of the dispatcher. */
  datatype Op = SaveOp(given: Envelope, now: Reading) | PassOp(input: PassInput)

  predicate HasID(rows: seq<Row>, id: string) {
    exists i :: 0 <= i < |rows| && rows[i].envelope.id == id
  }

  /** Whether the store takes the envelope. */
  predicate Saves(rows: seq<Row>, given: Envelope) {
    ValidEnvelope(given) && (given.key == "" || !KeyUsed(Envelopes(rows), given.key))
  }

  function AfterSave(rows: seq<Row>, given: Envelope, now: Reading): seq<Row> {
    if Saves(rows, given) then rows + [NewRow(Normalized(given, now))] else rows
  }

  function AfterOp(cfg: Config, rows: seq<Row>, op: Op): seq<Row> {
    match op
    case SaveOp(given, now) => AfterSave(rows, given, now)
    case PassOp(input) => PassRows(cfg, rows, input)
  }

  /** The entries after a history that starts with an empty store, and everything published along the way. */
  function OpsRows(cfg: Config, ops: seq<Op>): seq<Row> {
    if ops == [] then [] else AfterOp(cfg, OpsRows(cfg, ops[..|ops| - 1]), ops[|ops| - 1])
  }

  function OpsPublished(cfg: Config, ops: seq<Op>): multiset<string> {
    if ops == [] then multiset{}
    else
      var n := |ops| - 1;
      OpsPublished(cfg, ops[..n])
      + match ops[n]
        case SaveOp(_, _) => multiset{}
        case PassOp(input) => multiset(PassPublished(cfg, OpsRows(cfg, ops[..n]), input))
  }

  /** Emitters never use an ID again: no envelope that the store takes has the ID of one it took before. */
  predicate EmittersKeepIDs(cfg: Config, ops: seq<Op>) {
    forall k :: 0 <= k < |ops| ==> FreshSave(OpsRows(cfg, ops[..k]), ops[k])
  }

  predicate FreshSave(rows: seq<Row>, op: Op) {
    op.SaveOp? && Saves(rows, op.given) ==> !HasID(rows, op.given.id)
  }

  lemma EmittersPrefix(cfg: Config, ops: seq<Op>)
    requires EmittersKeepIDs(cfg, ops) && ops != []
    ensures EmittersKeepIDs(cfg, ops[..|ops| - 1])
    ensures FreshSave(OpsRows(cfg, ops[..|ops| - 1]), ops[|ops| - 1])
  {
    hide OpsRows, FreshSave;
    var n := |ops| - 1;
    forall k | 0 <= k < n ensures FreshSave(OpsRows(cfg, ops[..n][..k]), ops[..n][k]) {
      assert ops[..n][..k] == ops[..k];
      assert FreshSave(OpsRows(cfg, ops[..k]), ops[k]);
    }
  }

  /** The store and what has been published: IDs distinct, entries settled, and for every ID as many publishes
      as its entry has on record. */
  ghost predicate Accounted(cfg: Config, rows: seq<Row>, published: multiset<string>) {
    && DistinctIDs(rows) && AllSettled(cfg, rows)
    && (forall i :: 0 <= i < |rows| ==> published[rows[i].envelope.id] == Spent(rows[i]))
    && (forall id :: published[id] > 0 ==> HasID(rows, id))
  }

  lemma SaveAccounts(cfg: Config, rows: seq<Row>, published: multiset<string>, env: Envelope)
    requires Accounted(cfg, rows, published) && !HasID(rows, env.id)
    ensures Accounted(cfg, rows + [NewRow(env)], published)
  {
    var after := rows + [NewRow(env)];
    forall id | published[id] > 0 ensures HasID(after, id) {
      var i :| 0 <= i < |rows| && rows[i].envelope.id == id;
      assert after[i].envelope.id == id;
    }
  }

  lemma PassAccounts(cfg: Config, rows: seq<Row>, published: multiset<string>, input: PassInput)
    requires cfg.batchSize > 0 && Accounted(cfg, rows, published)
    ensures Accounted(cfg, PassRows(cfg, rows, input), published + multiset(PassPublished(cfg, rows, input)))
  {
    hide PassRows, PassPublished, Settled, Spent;
    var after := PassRows(cfg, rows, input);
    var sent := multiset(PassPublished(cfg, rows, input));
    PassProgress(cfg, rows, input);
    forall i | 0 <= i < |rows|
      ensures after[i].envelope == rows[i].envelope
              && (published + sent)[after[i].envelope.id] == Spent(after[i])
    {
      PassPublishes(cfg, rows, input, i);
    }
    forall id | (published + sent)[id] > 0 ensures HasID(after, id) {
      if published[id] == 0 { PublishedIsSaved(cfg, rows, input, id); }
      var i :| 0 <= i < |rows| && rows[i].envelope.id == id;
      assert after[i].envelope.id == id;
    }
  }

  /** A pass publishes nothing that was not saved. */
  lemma PublishedIsSaved(cfg: Config, rows: seq<Row>, input: PassInput, id: string)
    requires multiset(PassPublished(cfg, rows, input))[id] > 0
    ensures HasID(rows, id)
  {
    hide PublishedIDs, TakenBatch;
    PublishedInBatch(cfg, TakenBatch(rows, cfg.batchSize, input.now), id);
    var item :| item in TakenBatch(rows, cfg.batchSize, input.now) && item.envelope.id == id;
    BatchFromRows(rows, cfg.batchSize, input.now, item);
  }

  lemma {:induction false} PublishedInBatch(cfg: Config, batch: seq<Pending>, id: string)
    requires id in PublishedIDs(cfg, batch)
    ensures exists item :: item in batch && item.envelope.id == id
  {
    var n := |batch| - 1;
    if id in PublishedIDs(cfg, batch[..n]) {
      PublishedInBatch(cfg, batch[..n], id);
      var item :| item in batch[..n] && item.envelope.id == id;
      assert item in batch;
    } else {
      assert batch[n] in batch;
    }
  }

  lemma {:induction false} BatchFromRows(rows: seq<Row>, limit: int, now: nat, item: Pending)
    requires item in TakenBatch(rows, limit, now)
    ensures HasID(rows, item.envelope.id)
  {
    var n := |rows| - 1;
    if item in TakenBatch(rows[..n], limit, now) {
      BatchFromRows(rows[..n], limit, now, item);
      var i :| 0 <= i < n && rows[..n][i].envelope.id == item.envelope.id;
      assert rows[i].envelope.id == item.envelope.id;
    }
  }

  /** From an empty store, however saves and passes come, every entry is published exactly as often as its
      record says, so at most maxRetries times whatever the bus answers; it is parked as dead only after
      maxRetries attempts; nothing is published that was not saved. */
  lemma {:induction false} OpsAccount(cfg: Config, ops: seq<Op>)
    requires cfg.batchSize > 0 && EmittersKeepIDs(cfg, ops)
    ensures Accounted(cfg, OpsRows(cfg, ops), OpsPublished(cfg, ops))
  {
    hide PassRows, PassPublished, Accounted, EmittersKeepIDs;
    if ops == [] {
      NothingToAccount(cfg);
    } else {
      var n := |ops| - 1;
      EmittersPrefix(cfg, ops);
      OpsAccount(cfg, ops[..n]);
      var rows, published := OpsRows(cfg, ops[..n]), OpsPublished(cfg, ops[..n]);
      assert published + multiset{} == published;
      match ops[n] {
        case SaveOp(given, now) =>
          if Saves(rows, given) { SaveAccounts(cfg, rows, published, Normalized(given, now)); }
        case PassOp(input) => PassAccounts(cfg, rows, published, input);
      }
    }
  }

  lemma NothingToAccount(cfg: Config)
    ensures Accounted(cfg, [], multiset{})
  {}

  /** The same, entry by entry. */
  lemma RunPublishes(cfg: Config, ops: seq<Op>, i: nat)
    requires cfg.batchSize > 0 && EmittersKeepIDs(cfg, ops) && i < |OpsRows(cfg, ops)|
    ensures var row := OpsRows(cfg, ops)[i];
            && OpsPublished(cfg, ops)[row.envelope.id] == Spent(row) <= cfg.maxRetries
            && (row.dead ==> row.attempts == cfg.maxRetries && !row.delivered)
  {
    hide OpsRows, OpsPublished, EmittersKeepIDs;
    OpsAccount(cfg, ops);
  }

  /** How many publishes of this ID the bus accepted in a pass, and how many it refused. */
  function PassAccepted(cfg: Config, rows: seq<Row>, input: PassInput, id: string): nat {
    if input.bus(id).None? then multiset(PassPublished(cfg, rows, input))[id] else 0
  }

  function PassRefused(cfg: Config, rows: seq<Row>, input: PassInput, id: string): nat {
    if input.bus(id).Some? then multiset(PassPublished(cfg, rows, input))[id] else 0
  }

  /** The same along a history. */
  function OpsAccepted(cfg: Config, ops: seq<Op>, id: string): nat {
    if ops == [] then 0
    else
      var n := |ops| - 1;
      OpsAccepted(cfg, ops[..n], id)
      + if ops[n].PassOp? then PassAccepted(cfg, OpsRows(cfg, ops[..n]), ops[n].input, id) else 0
  }

  function OpsRefused(cfg: Config, ops: seq<Op>, id: string): nat {
    if ops == [] then 0
    else
      var n := |ops| - 1;
      OpsRefused(cfg, ops[..n], id)
      + if ops[n].PassOp? then PassRefused(cfg, OpsRows(cfg, ops[..n]), ops[n].input, id) else 0
  }

  /** The record tells what the bus answered: delivered if it accepted once, attempts as often as it refused. */
  ghost predicate Truthful(row: Row, accepted: nat, refused: nat) {
    accepted == (if row.delivered then 1 else 0) && refused == row.attempts
  }

  lemma PassTruthful(cfg: Config, rows: seq<Row>, input: PassInput, i: nat, accepted: nat, refused: nat)
    requires DistinctIDs(rows) && AllSettled(cfg, rows) && i < |rows| && Truthful(rows[i], accepted, refused)
    ensures var id := rows[i].envelope.id;
            Truthful(PassRows(cfg, rows, input)[i], accepted + PassAccepted(cfg, rows, input, id),
                     refused + PassRefused(cfg, rows, input, id))
  {
    PassPublishes(cfg, rows, input, i);
    PassAnswers(cfg, rows, input, i);
    hide PassRows, PassPublished, Taken, CountFree, Settled, DistinctIDs;
    if Taken(rows, i, cfg.batchSize, input.now) {
      TakenIsPending(rows, i, cfg.batchSize, input.now);
    }
  }

  lemma NotSavedNotSent(cfg: Config, ops: seq<Op>, id: string)
    requires cfg.batchSize > 0 && EmittersKeepIDs(cfg, ops) && !HasID(OpsRows(cfg, ops), id)
    ensures OpsAccepted(cfg, ops, id) + OpsRefused(cfg, ops, id) == 0
  {
    SentIsPublished(cfg, ops, id);
    hide OpsAccepted, OpsRefused, OpsPublished, OpsRows, HasID, EmittersKeepIDs;
    OpsAccount(cfg, ops);
  }

  lemma {:induction false} SentIsPublished(cfg: Config, ops: seq<Op>, id: string)
    ensures OpsAccepted(cfg, ops, id) + OpsRefused(cfg, ops, id) == OpsPublished(cfg, ops)[id]
  {
    hide OpsRows, PassPublished;
    if ops != [] { SentIsPublished(cfg, ops[..|ops| - 1], id); }
  }

  /** What the last operation of a history adds to the counts. */
  lemma OpsStep(cfg: Config, ops: seq<Op>, id: string)
    requires ops != []
    ensures var n := |ops| - 1;
            var rows := OpsRows(cfg, ops[..n]);
            && OpsRows(cfg, ops) == AfterOp(cfg, rows, ops[n])
            && OpsAccepted(cfg, ops, id) == OpsAccepted(cfg, ops[..n], id)
                 + (if ops[n].PassOp? then PassAccepted(cfg, rows, ops[n].input, id) else 0)
            && OpsRefused(cfg, ops, id) == OpsRefused(cfg, ops[..n], id)
                 + (if ops[n].PassOp? then PassRefused(cfg, rows, ops[n].input, id) else 0)
  {
    hide AfterOp, PassAccepted, PassRefused;
  }

  lemma SavedRow(rows: seq<Row>, given: Envelope, now: Reading, i: nat)
    requires i < |AfterSave(rows, given, now)|
    ensures i < |rows| ==> AfterSave(rows, given, now)[i] == rows[i]
    ensures i >= |rows| ==> Saves(rows, given) && AfterSave(rows, given, now)[i] == NewRow(Normalized(given, now))
                            && Normalized(given, now).id == given.id
  {}

  /** Whatever saves and passes came before: an entry is delivered if and only if the bus accepted it, which it
      then did exactly once, and its attempts are the publishes that the bus refused. */
  lemma {:induction false} OpsTruthful(cfg: Config, ops: seq<Op>, i: nat)
    requires cfg.batchSize > 0 && EmittersKeepIDs(cfg, ops) && i < |OpsRows(cfg, ops)|
    ensures var row := OpsRows(cfg, ops)[i];
            Truthful(row, OpsAccepted(cfg, ops, row.envelope.id), OpsRefused(cfg, ops, row.envelope.id))
  {
    NoHistory(cfg);
    hide OpsRows, OpsAccepted, OpsRefused, OpsPublished, PassRows, PassAccepted, PassRefused, EmittersKeepIDs, Truthful,
         AfterSave, NewRow, Normalized, Settled, HasID, DistinctIDs, Saves;
    var n := |ops| - 1;
    var rows, id := OpsRows(cfg, ops[..n]), OpsRows(cfg, ops)[i].envelope.id;
    EmittersPrefix(cfg, ops);
    OpsStep(cfg, ops, id);
    match ops[n] {
      case SaveOp(given, now) =>
        SavedRow(rows, given, now, i);
        if i < |rows| {
          OpsTruthful(cfg, ops[..n], i);
        } else {
          NotSavedNotSent(cfg, ops[..n], given.id);
          NewIsTruthful(Normalized(given, now));
        }
      case PassOp(input) =>
        OpsTruthful(cfg, ops[..n], i);
        OpsAccount(cfg, ops[..n]);
        PassPublishes(cfg, rows, input, i);
        PassTruthful(cfg, rows, input, i, OpsAccepted(cfg, ops[..n], id), OpsRefused(cfg, ops[..n], id));
    }
  }

  lemma NoHistory(cfg: Config)
    ensures OpsRows(cfg, []) == []
  {}

  lemma NewIsTruthful(env: Envelope)
    ensures Truthful(NewRow(env), 0, 0) && NewRow(env).envelope == env
  {}

  lemma {:induction false} PotentialBound(cfg: Config, rows: seq<Row>)
    ensures Potential(cfg, rows) <= (cfg.maxRetries + 1) * |rows|
  {
    if rows != [] {
      var n := |rows| - 1;
      PotentialBound(cfg, rows[..n]);
      assert (cfg.maxRetries + 1) * |rows| == (cfg.maxRetries + 1) * n + (cfg.maxRetries + 1);
    }
  }

  function Passes(inputs: seq<PassInput>): (ops: seq<Op>)
    ensures |ops| == |inputs| && forall i :: 0 <= i < |inputs| ==> ops[i] == PassOp(inputs[i])
  {
    seq(|inputs|, i requires 0 <= i < |inputs| => PassOp(inputs[i]))
  }

  lemma {:induction false} OpsThenPasses(cfg: Config, ops: seq<Op>, inputs: seq<PassInput>)
    ensures OpsRows(cfg, ops + Passes(inputs)) == RunRows(cfg, OpsRows(cfg, ops), inputs)
  {
    hide PassRows;
    if inputs == [] {
      assert ops + Passes(inputs) == ops;
    } else {
      var n := |inputs| - 1;
      OpsThenPasses(cfg, ops, inputs[..n]);
      assert (ops + Passes(inputs))[..|ops| + n] == ops + Passes(inputs[..n]);
    }
  }

  /** Drain: after any history of saves and passes, once no more is saved, as many passes as the potential,
      so at most maxRetries + 1 for each entry ever saved, leave every entry delivered or dead. */
  lemma HistoryDrains(cfg: Config, ops: seq<Op>, inputs: seq<PassInput>)
    requires cfg.batchSize > 0 && EmittersKeepIDs(cfg, ops)
    ensures Potential(cfg, OpsRows(cfg, ops)) <= (cfg.maxRetries + 1) * |OpsRows(cfg, ops)|
    ensures |inputs| >= Potential(cfg, OpsRows(cfg, ops)) ==> AllTerminal(OpsRows(cfg, ops + Passes(inputs)))
  {
    hide OpsRows, OpsPublished, EmittersKeepIDs, Potential, RunRows, AllTerminal;
    PotentialBound(cfg, OpsRows(cfg, ops));
    OpsAccount(cfg, ops);
    OpsThenPasses(cfg, ops, inputs);
    if |inputs| >= Potential(cfg, OpsRows(cfg, ops)) {
      Drains(cfg, OpsRows(cfg, ops), inputs);
    }
  }
}
