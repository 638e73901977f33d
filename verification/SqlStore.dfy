/** The SQL outbox store (pkg/event/outbox/sql_store.go). The table is a map from primary key to row; each
    statement is one atomic step. Between two statements other dispatchers may change the table at will. */
module SqlStore {
  import opened Results
  import opened Text
  import opened Listing
  import P = OutboxProtocol

  const DEAD_DELIVERED_AT: int := -1

  datatype SqlRow = SqlRow(emittedAt: int, attempts: nat, lastError: string, deliveredAt: int, claimedUntil: int)

  type Rows = map<string, SqlRow>

  /** `delivered_at = 0 AND claimed_until <= ?`. */
  predicate Claimable(row: SqlRow, reading: int) {
    row.deliveredAt == 0 && row.claimedUntil <= reading
  }

  datatype Candidate = Candidate(id: string, attempts: nat)

  /** `ORDER BY emitted_at ASC, id ASC`. */
  predicate Before(rows: Rows, a: string, b: string)
    requires a in rows && b in rows
  {
    rows[a].emittedAt < rows[b].emittedAt || (rows[a].emittedAt == rows[b].emittedAt && Le(a, b))
  }

  ghost predicate Ordered(rows: Rows, ids: seq<string>)
    requires forall id :: id in ids ==> id in rows
  {
    forall i, j :: 0 <= i <= j < |ids| ==> Before(rows, ids[i], ids[j])
  }

  function CandidateIDs(candidates: seq<Candidate>): (ids: seq<string>)
    ensures |ids| == |candidates| && forall i :: 0 <= i < |ids| ==> ids[i] == candidates[i].id
  {
    seq(|candidates|, i requires 0 <= i < |candidates| => candidates[i].id)
  }

  /** The answer of the candidate query: the first `limit` claimable rows in emission order. */
  ghost predicate IsSelection(rows: Rows, reading: int, limit: nat, candidates: seq<Candidate>) {
    && (forall c :: c in candidates ==>
          c.id in rows && Claimable(rows[c.id], reading) && c.attempts == rows[c.id].attempts)
    && NoDup(CandidateIDs(candidates))
    && (forall id :: id in CandidateIDs(candidates) ==> id in rows)
    && Ordered(rows, CandidateIDs(candidates))
    && |candidates| <= limit
    && (forall id :: id in rows && Claimable(rows[id], reading) && id !in CandidateIDs(candidates) ==>
          |candidates| == limit && forall c :: c in candidates ==> Before(rows, c.id, id))
  }

  /** A query that asks for enough finds exactly the rows that are neither delivered nor dead and whose lease, if
      they ever had one, has ended. */
  lemma SelectionIff(rows: Rows, reading: int, limit: nat, candidates: seq<Candidate>)
    requires IsSelection(rows, reading, limit, candidates) && |candidates| < limit
    ensures forall id :: id in CandidateIDs(candidates) <==>
              id in rows && rows[id].deliveredAt == 0 && rows[id].claimedUntil <= reading
  {
    forall id | id in CandidateIDs(candidates) ensures id in rows && Claimable(rows[id], reading) {
      var i :| 0 <= i < |candidates| && CandidateIDs(candidates)[i] == id;
      assert candidates[i] in candidates;
    }
  }

  /** A claimed row can be claimed again exactly from the end of its lease on, unless it is marked. */
  lemma ClaimedUntilEnd(rows: Rows, id: string, reading: int, until: int, later: int)
    requires id in rows && rows[id].deliveredAt == 0 && rows[id].claimedUntil <= reading
    ensures ClaimedOne(rows, id, reading, until)[id] == rows[id].(claimedUntil := until)
    ensures Claimable(ClaimedOne(rows, id, reading, until)[id], later) <==> later >= until
  {}

  /** The row update that claims: it matches only a row that is still claimable on the old reading. */
  function ClaimedOne(rows: Rows, id: string, reading: int, until: int): Rows {
    if id in rows && Claimable(rows[id], reading) then rows[id := rows[id].(claimedUntil := until)] else rows
  }

  function DeliveredOne(rows: Rows, id: string, at: int): Rows {
    if id in rows then rows[id := rows[id].(deliveredAt := at)] else rows
  }

  function FailedOne(rows: Rows, id: string, errMsg: string): Rows {
    if id in rows
    then rows[id := rows[id].(attempts := rows[id].attempts + 1, lastError := errMsg, claimedUntil := 0)]
    else rows
  }

  function DeadOne(rows: Rows, id: string, errMsg: string): Rows {
    if id in rows then rows[id := rows[id].(deliveredAt := DEAD_DELIVERED_AT, lastError := errMsg)] else rows
  }

  /** The candidates that a claim wins, given the table as each row update finds it. */
  function Won(candidates: seq<Candidate>, seen: seq<Rows>, reading: int): seq<Candidate>
    requires |seen| == |candidates|
  {
    if candidates == [] then []
    else
      var n := |candidates| - 1;
      Won(candidates[..n], seen[..n], reading)
      + if candidates[n].id in seen[n] && Claimable(seen[n][candidates[n].id], reading) then [candidates[n]] else []
  }

  /** What a claim gets of each candidate. */
  function Prize(candidates: seq<Candidate>, seen: seq<Rows>, reading: int): (image: seq<Option<Candidate>>)
    requires |seen| == |candidates|
    ensures |image| == |candidates|
    ensures forall k :: 0 <= k < |candidates| ==>
              image[k] == if candidates[k].id in seen[k] && Claimable(seen[k][candidates[k].id], reading)
                          then Some(candidates[k]) else None
  {
    seq(|candidates|, k requires 0 <= k < |candidates| =>
      if candidates[k].id in seen[k] && Claimable(seen[k][candidates[k].id], reading) then Some(candidates[k]) else None)
  }

  /** The claim hands out the candidates still claimable at their update, in the order of the query. */
  lemma {:induction false} WonInOrder(candidates: seq<Candidate>, seen: seq<Rows>, reading: int)
    requires |seen| == |candidates|
    ensures Lists(Won(candidates, seen, reading), Prize(candidates, seen, reading))
  {
    hide Lists, Claimable;
    if candidates == [] {
      ListsNothing<Candidate>();
    } else {
      var n := |candidates| - 1;
      WonInOrder(candidates[..n], seen[..n], reading);
      ListsStep(Won(candidates[..n], seen[..n], reading), Prize(candidates[..n], seen[..n], reading),
                Prize(candidates, seen, reading)[n]);
      assert Prize(candidates, seen, reading)
          == Prize(candidates[..n], seen[..n], reading) + [Prize(candidates, seen, reading)[n]];
      assert Won(candidates[..n], seen[..n], reading) + [] == Won(candidates[..n], seen[..n], reading);
    }
  }

  /** What the marks record besides the state: a failure or a burial its text, a delivery nothing; the emission
      time stays, and so do all other rows. */
  lemma MarksRecord(rows: Rows, id: string, at: int, errMsg: string)
    requires id in rows
    ensures DeliveredOne(rows, id, at)[id].lastError == rows[id].lastError
    ensures FailedOne(rows, id, errMsg)[id].lastError == errMsg == DeadOne(rows, id, errMsg)[id].lastError
    ensures forall after ::
              after in [DeliveredOne(rows, id, at), FailedOne(rows, id, errMsg), DeadOne(rows, id, errMsg)] ==>
              && after.Keys == rows.Keys && after[id].emittedAt == rows[id].emittedAt
              && forall other :: other in rows && other != id ==> after[other] == rows[other]
  {}

  lemma NothingWon(candidates: seq<Candidate>, seen: seq<Rows>, reading: int)
    requires |candidates| <= |seen|
    ensures Won(candidates[..0], seen[..0], reading) == []
  {}

  lemma WonStep(candidates: seq<Candidate>, seen: seq<Rows>, reading: int, k: nat)
    requires k < |candidates| <= |seen|
    ensures Won(candidates[..k+1], seen[..k+1], reading)
         == Won(candidates[..k], seen[..k], reading)
            + if candidates[k].id in seen[k] && Claimable(seen[k][candidates[k].id], reading) then [candidates[k]]
              else []
  {
    assert candidates[..k+1][..k] == candidates[..k] && seen[..k+1][..k] == seen[..k];
  }

  datatype SqlError = ClaimCandidates | ClaimRow

  /** Which statement of a claim fails: the select or reading its rows, or the k-th row update; the latter may
      have taken effect all the same, its answer being lost. */
  datatype Fault = NoFault | SelectFails | UpdateFails(k: nat, applied: bool)

  class Table {
    var rows: Rows

    constructor (rows: Rows)
      ensures this.rows == rows
    {
      this.rows := rows;
    }

    /** Runs the candidate query; the database sorts. */
    method SelectCandidates(reading: int, limit: nat) returns (candidates: seq<Candidate>)
      ensures IsSelection(rows, reading, limit, candidates)
    {
      var ids: seq<string> := [];
      var left := rows.Keys;
      while left != {}
        invariant left <= rows.Keys
        invariant NoDup(ids) && forall id :: id in ids <==> id in rows && id !in left && Claimable(rows[id], reading)
        invariant Ordered(rows, ids)
        decreases left
      {
        var id :| id in left;
        left := left - {id};
        if Claimable(rows[id], reading) {
          ids := InsertByEmission(rows, ids, id);
        }
      }
      var n := if |ids| <= limit then |ids| else limit;
      var table := rows;
      candidates := seq(n, i requires 0 <= i < n => Candidate(ids[i], table[ids[i]].attempts));
      SelectionFacts(rows, reading, limit, ids, candidates);
    }

    /** The claiming UPDATE; `affected` is the number of rows it changed. */
    method ClaimOne(until: int, id: string, reading: int) returns (affected: nat)
      modifies this
      ensures rows == ClaimedOne(old(rows), id, reading, until)
      ensures affected == if id in old(rows) && Claimable(old(rows)[id], reading) then 1 else 0
    {
      affected := 0;
      if id in rows && rows[id].deliveredAt == 0 && rows[id].claimedUntil <= reading {
        rows := rows[id := rows[id].(claimedUntil := until)];
        affected := 1;
      }
    }

    method MarkDelivered(id: string, at: int)
      modifies this
      ensures rows == DeliveredOne(old(rows), id, at)
    {
      if id in rows { rows := rows[id := rows[id].(deliveredAt := at)]; }
    }

    method MarkFailed(id: string, errMsg: string)
      modifies this
      ensures rows == FailedOne(old(rows), id, errMsg)
    {
      if id in rows {
        rows := rows[id := rows[id].(attempts := rows[id].attempts + 1, lastError := errMsg, claimedUntil := 0)];
      }
    }

    method MarkDead(id: string, errMsg: string)
      modifies this
      ensures rows == DeadOne(old(rows), id, errMsg)
    {
      if id in rows { rows := rows[id := rows[id].(deliveredAt := DEAD_DELIVERED_AT, lastError := errMsg)]; }
    }

    /** `ClaimBatch`: select, then one compare-and-set per candidate. `others[k]` is the table as the other
        dispatchers leave it before the k-th row update; attempts are as of the select. A statement may fail,
        which ends the claim and leaves the rows updated so far leased. */
    method ClaimBatch(limit: int, ttl: int, now: int, others: seq<Rows>, fault: Fault)
      returns (r: Result<seq<Candidate>, SqlError>, candidates: seq<Candidate>)
      requires limit > 0 ==> |others| == limit
      modifies this
      ensures limit <= 0 ==> r == Ok([]) && rows == old(rows)
      ensures limit > 0 && fault.SelectFails? ==> r == Err(ClaimCandidates) && rows == old(rows)
      ensures limit > 0 && !fault.SelectFails? ==>
                && IsSelection(old(rows), now, limit, candidates) && |candidates| <= |others|
                && if fault.UpdateFails? && fault.k < |candidates| then
                     && r == Err(ClaimRow)
                     && rows == if fault.applied then ClaimedOne(others[fault.k], candidates[fault.k].id, now, now + ttl)
                                else others[fault.k]
                   else
                     && r == Ok(Won(candidates, others[..|candidates|], now))
                     && rows == if candidates == [] then old(rows)
                                else var last := |candidates| - 1;
                                     ClaimedOne(others[last], candidates[last].id, now, now + ttl)
    {
      hide IsSelection, ClaimedOne, Won, Claimable;
      candidates := [];
      if limit <= 0 { return Ok([]), []; }
      if fault.SelectFails? { return Err(ClaimCandidates), []; }
      candidates := SelectCandidates(now, limit);
      SelectionBound(rows, now, limit, candidates);
      var claimedUntil := now + ttl;
      var out: seq<Candidate> := [];
      NothingWon(candidates, others, now);
      for k := 0 to |candidates|
        invariant out == Won(candidates[..k], others[..k], now)
        invariant fault.UpdateFails? ==> k <= fault.k
        invariant rows == if k == 0 then old(rows) else ClaimedOne(others[k-1], candidates[k-1].id, now, now + ttl)
      {
        rows := others[k];
        if fault == UpdateFails(k, false) {
          r := Err(ClaimRow);
          return;
        }
        var affected := ClaimOne(claimedUntil, candidates[k].id, now);
        if fault == UpdateFails(k, true) {
          r := Err(ClaimRow);
          return;
        }
        WonStep(candidates, others, now, k);
        if affected == 1 {
          out := out + [candidates[k]];
        }
      }
      assert candidates[..|candidates|] == candidates;
      r := Ok(out);
    }
  }

  lemma SelectionBound(rows: Rows, reading: int, limit: nat, candidates: seq<Candidate>)
    requires IsSelection(rows, reading, limit, candidates)
    ensures |candidates| <= limit
  {}

  method InsertByEmission(rows: Rows, ids: seq<string>, id: string) returns (r: seq<string>)
    requires id in rows && id !in ids && (forall x :: x in ids ==> x in rows)
    requires NoDup(ids) && Ordered(rows, ids)
    ensures NoDup(r) && (forall x :: x in r <==> x in ids || x == id)
    ensures Ordered(rows, r)
  {
    hide Le;
    var k := 0;
    while k < |ids| && Before(rows, ids[k], id)
      invariant k <= |ids|
      invariant forall j :: 0 <= j < k ==> Before(rows, ids[j], id)
    {
      k := k + 1;
    }
    r := ids[..k] + [id] + ids[k..];
    BeforeTotal(rows, ids, id, k);
    assert ids == ids[..k] + ids[k..];
    assert forall x :: x in ids <==> x in ids[..k] || x in ids[k..];
  }

  lemma BeforeTotal(rows: Rows, ids: seq<string>, id: string, k: nat)
    requires id in rows && (forall x :: x in ids ==> x in rows) && Ordered(rows, ids)
    requires k <= |ids| && (k < |ids| ==> !Before(rows, ids[k], id))
    ensures forall j :: k <= j < |ids| ==> Before(rows, id, ids[j])
    ensures Before(rows, id, id)
  {
    hide Le;
    LeReflexive(id);
    forall j | k <= j < |ids| ensures Before(rows, id, ids[j]) {
      LeTotal(ids[k], id);
      assert Before(rows, ids[k], ids[j]);
      if Le(id, ids[k]) && Le(ids[k], ids[j]) { LeTransitive(id, ids[k], ids[j]); }
    }
  }

  lemma SelectionFacts(rows: Rows, reading: int, limit: nat, ids: seq<string>, candidates: seq<Candidate>)
    requires NoDup(ids) && (forall id :: id in ids <==> id in rows && Claimable(rows[id], reading))
    requires Ordered(rows, ids)
    requires |candidates| == if |ids| <= limit then |ids| else limit
    requires forall i :: 0 <= i < |candidates| ==> candidates[i] == Candidate(ids[i], rows[ids[i]].attempts)
    ensures IsSelection(rows, reading, limit, candidates)
  {
    hide Le;
    var n := |candidates|;
    assert CandidateIDs(candidates) == ids[..n];
    forall id | id in rows && Claimable(rows[id], reading) && id !in ids[..n]
      ensures n == limit && forall c :: c in candidates ==> Before(rows, c.id, id)
    {
      var j :| 0 <= j < |ids| && ids[j] == id;
      assert forall k :: 0 <= k < n ==> ids[..n][k] == ids[k];
    }
  }

  // ---- The statements are steps of the protocol ----

  /** What the protocol sees of a row. */
  predicate RowShows(row: SqlRow, c: P.Cell) {
    && c.attempts == row.attempts
    && c.claimedUntil == row.claimedUntil
    && (P.Terminal(c) <==> row.deliveredAt != 0)
    && (!(c.delivered && c.dead) ==>
          (c.delivered <==> row.deliveredAt > 0) && (c.dead <==> row.deliveredAt == DEAD_DELIVERED_AT))
  }

  /** What the protocol sees of a table. */
  ghost predicate Shows(rows: Rows, cells: map<string, P.Cell>) {
    && rows.Keys == cells.Keys
    && forall id :: id in rows ==> RowShows(rows[id], cells[id])
  }

  /** The claiming UPDATE is the protocol's row claim: it takes effect on the same rows, and afterwards the
      table shows the protocol's next state. */
  lemma ClaimOneIsStep(maxRetries: nat, rows: Rows, s: P.State, d: nat)
    requires Shows(rows, s.cells) && P.Enabled(maxRetries, s, P.ClaimRow(d))
    ensures var p := P.PhaseOf(s, d);
            Shows(ClaimedOne(rows, p.candidates[0].id, p.reading, p.until),
                  P.Apply(maxRetries, s, P.ClaimRow(d)).cells)
  {
    var p := P.PhaseOf(s, d);
    var id := p.candidates[0].id;
    assert id in rows <==> id in s.cells by { assert id in rows.Keys <==> id in s.cells.Keys; }
  }

  /** The candidate query is the protocol's selection. */
  lemma SelectIsStep(maxRetries: nat, rows: Rows, s: P.State, d: nat, reading: nat, ttl: int, limit: nat,
                     candidates: seq<Candidate>, items: seq<P.Item>)
    requires Shows(rows, s.cells) && P.PhaseOf(s, d).Idle?
    requires reading <= s.now && IsSelection(rows, reading, limit, candidates)
    requires |items| == |candidates|
    requires forall i :: 0 <= i < |items| ==> items[i] == P.Item(candidates[i].id, candidates[i].attempts)
    ensures P.Enabled(maxRetries, s, P.SelectCandidates(d, reading, ttl, items))
  {
    forall i | 0 <= i < |items|
      ensures items[i].id in s.cells && P.Free(s.cells[items[i].id], reading)
              && items[i].attempts == s.cells[items[i].id].attempts
    {
      assert candidates[i] in candidates;
      assert candidates[i].id in rows.Keys;
    }
    assert P.ItemIDs(items) == CandidateIDs(candidates);
  }

  /** The marking UPDATEs are the protocol's marks; the delivering one exactly if its timestamp is positive, or
      nothing is left for it to say: the row is gone, or dead already and not brought back to life. */
  lemma MarksAreSteps(maxRetries: nat, rows: Rows, s: P.State, d: nat, at: int, errMsg: string)
    requires Shows(rows, s.cells)
    ensures P.Enabled(maxRetries, s, P.MarkDelivered(d)) ==>
              var id := P.PhaseOf(s, d).batch[0].id;
              Shows(DeliveredOne(rows, id, at), P.Apply(maxRetries, s, P.MarkDelivered(d)).cells)
              <==> at > 0 || id !in rows || (s.cells[id].dead && at != 0)
    ensures P.Enabled(maxRetries, s, P.MarkFailed(d)) ==>
              Shows(FailedOne(rows, P.PhaseOf(s, d).batch[0].id, errMsg),
                    P.Apply(maxRetries, s, P.MarkFailed(d)).cells)
    ensures P.Enabled(maxRetries, s, P.MarkDead(d)) ==>
              Shows(DeadOne(rows, P.PhaseOf(s, d).batch[0].id, errMsg),
                    P.Apply(maxRetries, s, P.MarkDead(d)).cells)
  {
    hide Shows, DeliveredOne, FailedOne, DeadOne;
    if P.Enabled(maxRetries, s, P.MarkDelivered(d)) {
      Unknown(rows, s.cells, P.PhaseOf(s, d).batch[0].id);
      ShowsDelivered(rows, s.cells, P.PhaseOf(s, d).batch[0].id, at);
    }
    if P.Enabled(maxRetries, s, P.MarkFailed(d)) {
      ShowsFailed(rows, s.cells, P.PhaseOf(s, d).batch[0].id, errMsg);
    }
    if P.Enabled(maxRetries, s, P.MarkDead(d)) {
      ShowsDead(rows, s.cells, P.PhaseOf(s, d).batch[0].id, errMsg);
    }
  }

  /** A mark of one row: the table still shows the cells exactly if the row shows its cell. */
  lemma ShowsUpdate(rows: Rows, cells: map<string, P.Cell>, id: string, row: SqlRow, c: P.Cell)
    requires Shows(rows, cells) && id in rows
    ensures id in cells
    ensures Shows(rows[id := row], cells[id := c]) <==> RowShows(row, c)
  {
    assert id in rows.Keys;
    var rows', cells' := rows[id := row], cells[id := c];
    assert rows'.Keys == rows.Keys && cells'.Keys == cells.Keys;
    assert rows'[id] == row && cells'[id] == c;
    hide RowShows;
    assert forall x :: x in rows && x != id ==> rows'[x] == rows[x] && cells'[x] == cells[x];
    assert forall x :: x in rows' <==> x in rows;
  }

  lemma Unknown(rows: Rows, cells: map<string, P.Cell>, id: string)
    requires Shows(rows, cells)
    ensures id in rows <==> id in cells
    ensures id in rows ==> RowShows(rows[id], cells[id])
  {
    assert id in rows.Keys <==> id in cells.Keys;
  }

  lemma ShowsDelivered(rows: Rows, cells: map<string, P.Cell>, id: string, at: int)
    requires Shows(rows, cells)
    ensures var c := if id in cells then cells[id] else P.Cell(0, false, false, 0);
            Shows(DeliveredOne(rows, id, at), P.Updated(cells, id, c.(delivered := true)))
            <==> at > 0 || id !in rows || (id in cells && cells[id].dead && at != 0)
  {
    hide Shows;
    Unknown(rows, cells, id);
    if id in rows {
      ShowsUpdate(rows, cells, id, rows[id].(deliveredAt := at), cells[id].(delivered := true));
    }
  }

  lemma ShowsFailed(rows: Rows, cells: map<string, P.Cell>, id: string, errMsg: string)
    requires Shows(rows, cells)
    ensures var c := if id in cells then cells[id] else P.Cell(0, false, false, 0);
            Shows(FailedOne(rows, id, errMsg),
                  P.Updated(cells, id, c.(attempts := c.attempts + 1, claimedUntil := 0)))
  {
    hide Shows;
    Unknown(rows, cells, id);
    if id in rows {
      var row, c := rows[id], cells[id];
      ShowsUpdate(rows, cells, id, row.(attempts := row.attempts + 1, lastError := errMsg, claimedUntil := 0),
                  c.(attempts := c.attempts + 1, claimedUntil := 0));
    }
  }

  lemma ShowsDead(rows: Rows, cells: map<string, P.Cell>, id: string, errMsg: string)
    requires Shows(rows, cells)
    ensures var c := if id in cells then cells[id] else P.Cell(0, false, false, 0);
            Shows(DeadOne(rows, id, errMsg), P.Updated(cells, id, c.(dead := true)))
  {
    hide Shows;
    Unknown(rows, cells, id);
    if id in rows {
      ShowsUpdate(rows, cells, id, rows[id].(deliveredAt := DEAD_DELIVERED_AT, lastError := errMsg),
                  cells[id].(dead := true));
    }
  }
}
