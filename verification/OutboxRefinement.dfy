/** The in-memory store performs the protocol's steps, and why the protocol's guarantee needs its timing
    requirement. Envelope IDs are distinct, as pkg/event/event.go asks of emitters. */
module OutboxRefinement {
  import opened Text
  import S = OutboxStore
  import D = OutboxDrain
  import P = OutboxProtocol

  function CellOfRow(row: S.Row): P.Cell {
    P.Cell(row.attempts, row.delivered, row.dead, row.claimedUntil)
  }

  /** The protocol cells show the entries of the store. */
  ghost predicate Shows(rows: seq<S.Row>, cells: map<string, P.Cell>) {
    && D.DistinctIDs(rows)
    && (forall i :: 0 <= i < |rows| ==>
          rows[i].envelope.id in cells && cells[rows[i].envelope.id] == CellOfRow(rows[i]))
    && (forall id :: id in cells ==> D.HasID(rows, id))
  }

  /** Operations that keep every envelope keep the IDs. */
  lemma SameIDs(rows: seq<S.Row>, after: seq<S.Row>)
    requires |after| == |rows| && forall i :: 0 <= i < |rows| ==> after[i].envelope == rows[i].envelope
    ensures D.DistinctIDs(rows) ==> D.DistinctIDs(after)
    ensures forall id :: D.HasID(rows, id) ==> D.HasID(after, id)
  {
    forall id | D.HasID(rows, id) ensures D.HasID(after, id) {
      var i :| 0 <= i < |rows| && rows[i].envelope.id == id;
      assert after[i].envelope.id == id;
    }
  }

  function Items(batch: seq<S.Pending>): (items: seq<P.Item>)
    ensures |items| == |batch|
    ensures forall i :: 0 <= i < |batch| ==> items[i] == P.Item(batch[i].envelope.id, batch[i].attempts)
  {
    seq(|batch|, i requires 0 <= i < |batch| => P.Item(batch[i].envelope.id, batch[i].attempts))
  }

  /** The item stands for a taken row among the first n. */
  ghost predicate FromTaken(rows: seq<S.Row>, limit: int, now: nat, n: nat, item: S.Pending)
    requires n <= |rows|
  {
    exists i :: 0 <= i < n && S.Taken(rows, i, limit, now) && item == S.Pending(rows[i].envelope, rows[i].attempts)
  }

  /** Batch items are the taken rows, each once. */
  lemma {:induction false} TakenItems(rows: seq<S.Row>, limit: int, now: nat, n: nat)
    requires D.DistinctIDs(rows) && n <= |rows|
    ensures var batch := S.TakenBatch(rows[..n], limit, now);
            && (forall item :: item in batch <==> FromTaken(rows, limit, now, n, item))
            && NoDup(P.ItemIDs(Items(batch)))
  {
    hide S.Taken;
    if n == 0 {
      assert S.TakenBatch(rows[..0], limit, now) == [];
    } else {
      TakenItems(rows, limit, now, n - 1);
      hide S.TakenBatch;
      S.BatchStep(rows, n - 1, limit, now);
      var sofar := S.TakenBatch(rows[..n-1], limit, now);
      var batch := S.TakenBatch(rows[..n], limit, now);
      assert sofar + [] == sofar;
      forall k | 0 <= k < |sofar| ensures sofar[k].envelope.id != rows[n-1].envelope.id {
        assert sofar[k] in sofar;
        var i :| 0 <= i < n - 1 && S.Taken(rows, i, limit, now)
                 && sofar[k] == S.Pending(rows[i].envelope, rows[i].attempts);
      }
      forall i, j | 0 <= i < j < |batch| ensures P.ItemIDs(Items(batch))[i] != P.ItemIDs(Items(batch))[j] {
        assert j < |sofar| ==> P.ItemIDs(Items(sofar))[i] != P.ItemIDs(Items(sofar))[j];
      }
      forall item ensures item in batch <==> FromTaken(rows, limit, now, n, item) {
        assert FromTaken(rows, limit, now, n, item) <==>
               FromTaken(rows, limit, now, n - 1, item)
               || (S.Taken(rows, n - 1, limit, now) && item == S.Pending(rows[n-1].envelope, rows[n-1].attempts));
      }
    }
  }

  /** The atomic batch claim of the in-memory store is the protocol's claim step. */
  lemma ClaimBatchIsStep(maxRetries: nat, rows: seq<S.Row>, limit: int, ttl: int, s: P.State, d: nat)
    requires Shows(rows, s.cells) && P.PhaseOf(s, d).Idle?
    ensures var step := P.ClaimBatch(d, ttl, Items(S.TakenBatch(rows, limit, s.now)));
            && P.Enabled(maxRetries, s, step)
            && Shows(S.ClaimedRows(rows, limit, s.now, ttl), P.Apply(maxRetries, s, step).cells)
  {
    hide S.TakenBatch, Shows, S.ClaimedRows, P.FreeItems;
    BatchIsFree(rows, limit, s);
    ClaimedShows(rows, limit, ttl, s);
  }

  lemma BatchIsFree(rows: seq<S.Row>, limit: int, s: P.State)
    requires Shows(rows, s.cells)
    ensures P.FreeItems(s, Items(S.TakenBatch(rows, limit, s.now)), s.now)
  {
    hide S.TakenBatch, S.CountFree, D.HasID;
    var batch := S.TakenBatch(rows, limit, s.now);
    var items := Items(batch);
    TakenItems(rows, limit, s.now, |rows|);
    assert rows[..|rows|] == rows;
    forall k | 0 <= k < |items|
      ensures items[k].id in s.cells && P.Free(s.cells[items[k].id], s.now)
              && items[k].attempts == s.cells[items[k].id].attempts
    {
      assert batch[k] in batch && FromTaken(rows, limit, s.now, |rows|, batch[k]);
    }
  }

  lemma ClaimedShows(rows: seq<S.Row>, limit: int, ttl: int, s: P.State)
    requires Shows(rows, s.cells)
    ensures Shows(S.ClaimedRows(rows, limit, s.now, ttl),
                  P.Leased(s.cells, Elems(P.ItemIDs(Items(S.TakenBatch(rows, limit, s.now)))), s.now + ttl))
  {
    hide S.TakenBatch, S.Taken, D.HasID;
    TakenIDs(rows, limit, s.now);
    SameIDs(rows, S.ClaimedRows(rows, limit, s.now, ttl));
  }

  lemma TakenIDs(rows: seq<S.Row>, limit: int, now: nat)
    requires D.DistinctIDs(rows)
    ensures forall i :: 0 <= i < |rows| ==>
              (rows[i].envelope.id in P.ItemIDs(Items(S.TakenBatch(rows, limit, now))) <==> S.Taken(rows, i, limit, now))
  {
    hide S.TakenBatch, S.Taken;
    var batch := S.TakenBatch(rows, limit, now);
    TakenItems(rows, limit, now, |rows|);
    assert rows[..|rows|] == rows;
    forall i | 0 <= i < |rows|
      ensures rows[i].envelope.id in P.ItemIDs(Items(batch)) <==> S.Taken(rows, i, limit, now)
    {
      if S.Taken(rows, i, limit, now) {
        assert FromTaken(rows, limit, now, |rows|, S.Pending(rows[i].envelope, rows[i].attempts));
        var k :| 0 <= k < |batch| && batch[k] == S.Pending(rows[i].envelope, rows[i].attempts);
        assert P.ItemIDs(Items(batch))[k] == rows[i].envelope.id;
      }
      if rows[i].envelope.id in P.ItemIDs(Items(batch)) {
        var k :| 0 <= k < |batch| && P.ItemIDs(Items(batch))[k] == rows[i].envelope.id;
        assert batch[k] in batch;
        var j :| 0 <= j < |rows| && S.Taken(rows, j, limit, now)
                 && batch[k] == S.Pending(rows[j].envelope, rows[j].attempts);
      }
    }
  }

  /** Marking an entry of the in-memory store is the protocol's update of one cell. */
  lemma MarkIsUpdate(rows: seq<S.Row>, cells: map<string, P.Cell>, i: nat, mark: S.Mark)
    requires Shows(rows, cells) && i < |rows|
    ensures var id := rows[i].envelope.id;
            Shows(S.MarkedRows(rows, id, mark), P.Updated(cells, id, CellOfRow(S.Marked(rows[i], mark))))
  {
    hide S.MarkedRows, D.HasID;
    D.MarkedAt(rows, i, mark);
    SameIDs(rows, rows[i := S.Marked(rows[i], mark)]);
  }

  /** The three marks of the in-memory store are the protocol's marking steps. */
  lemma MarksAreSteps(maxRetries: nat, rows: seq<S.Row>, s: P.State, d: nat, i: nat, errMsg: string)
    requires Shows(rows, s.cells) && i < |rows|
    requires var p := P.PhaseOf(s, d);
             (p.Working? || p.Accepted? || p.Refused?) && p.batch != [] && p.batch[0].id == rows[i].envelope.id
    ensures P.Enabled(maxRetries, s, P.MarkDelivered(d)) ==>
              Shows(S.MarkedRows(rows, rows[i].envelope.id, S.Delivered),
                    P.Apply(maxRetries, s, P.MarkDelivered(d)).cells)
    ensures P.Enabled(maxRetries, s, P.MarkFailed(d)) ==>
              Shows(S.MarkedRows(rows, rows[i].envelope.id, S.Failed(errMsg)),
                    P.Apply(maxRetries, s, P.MarkFailed(d)).cells)
    ensures P.Enabled(maxRetries, s, P.MarkDead(d)) ==>
              Shows(S.MarkedRows(rows, rows[i].envelope.id, S.Dead(errMsg)), P.Apply(maxRetries, s, P.MarkDead(d)).cells)
  {
    hide Shows, S.MarkedRows;
    ShowsCell(rows, s.cells, i);
    MarkIsUpdate(rows, s.cells, i, S.Delivered);
    MarkIsUpdate(rows, s.cells, i, S.Failed(errMsg));
    MarkIsUpdate(rows, s.cells, i, S.Dead(errMsg));
  }

  lemma ShowsCell(rows: seq<S.Row>, cells: map<string, P.Cell>, i: nat)
    requires Shows(rows, cells) && i < |rows|
    ensures rows[i].envelope.id in cells && cells[rows[i].envelope.id] == CellOfRow(rows[i])
  {}

  /** Saving an envelope with a new ID is the protocol's save step. */
  lemma SaveIsStep(maxRetries: nat, rows: seq<S.Row>, s: P.State, env: S.Envelope)
    requires Shows(rows, s.cells) && env.id !in s.cells
    ensures P.Enabled(maxRetries, s, P.Save(env.id))
    ensures Shows(rows + [S.NewRow(env)], P.Apply(maxRetries, s, P.Save(env.id)).cells)
  {
    var after := rows + [S.NewRow(env)];
    assert after[|rows|].envelope.id == env.id;
    forall x | x in s.cells ensures D.HasID(after, x) {
      var k :| 0 <= k < |rows| && rows[k].envelope.id == x;
      assert after[k].envelope.id == x;
    }
  }

  // ---- The timing requirement is needed ----

  /** One dispatcher that marks after its claim has expired is enough for a second successful publish. */
  lemma LateMarkPublishesTwice() returns (states: seq<P.State>, steps: seq<P.Step>)
    ensures P.IsRun(1, states, steps) && states[0] == P.INITIAL
    ensures states[|steps|].published["e"] == 2
  {
    var batch := [P.Item("e", 0)];
    var s0 := P.INITIAL;
    var s1 := P.Apply(1, s0, P.Save("e"));
    var s2 := P.Apply(1, s1, P.ClaimBatch(0, 5, batch));
    var s3 := P.Apply(1, s2, P.Publish(0, true));
    var s4 := P.Apply(1, s3, P.Tick(5));
    var s5 := P.Apply(1, s4, P.ClaimBatch(1, 5, batch));
    var s6 := P.Apply(1, s5, P.Publish(1, true));
    states := [s0, s1, s2, s3, s4, s5, s6];
    steps := [P.Save("e"), P.ClaimBatch(0, 5, batch), P.Publish(0, true), P.Tick(5), P.ClaimBatch(1, 5, batch),
              P.Publish(1, true)];
  }
}
