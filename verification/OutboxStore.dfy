/** The in-memory outbox store (pkg/event/outbox/memory_store.go) and the envelope checks it relies on
    (pkg/event/event.go). A clock reading is a natural number; 0 is Go's zero time. Every method body is
    one critical section of the store's mutex. */
module OutboxStore {
  import opened Results
  import opened Text
  import opened Listing

  /** The envelope fields that are checked, normalised or read; the rest is payload. */
  datatype Envelope = Envelope(
    id: string, kind: string, source: string, key: string, emittedAt: int, mediaType: string, payload: string)

  datatype StoreError = Cancelled | InvalidEnvelope | Duplicate

  const DEFAULT_DATA_MEDIA_TYPE: string := "application/json"

  /** What the wall clock shows: never the zero time. */
  type Reading = t: int | t > 0 witness 1

  predicate ValidEnvelope(env: Envelope) {
    env.id != "" && env.kind != "" && env.source != ""
  }

  /** The defaults that a successful `Validate` fills in. */
  function Normalized(env: Envelope, now: Reading): Envelope {
    env.(emittedAt := if env.emittedAt == 0 then now else env.emittedAt,
         mediaType := if env.mediaType == "" then DEFAULT_DATA_MEDIA_TYPE else env.mediaType)
  }

  /** Validating twice is validating once: the second reading of the clock is never used. */
  lemma NormalizedOnce(env: Envelope, now: Reading, later: Reading)
    ensures Normalized(Normalized(env, now), later) == Normalized(env, now)
    ensures ValidEnvelope(Normalized(env, now)) <==> ValidEnvelope(env)
    ensures Normalized(env, now).key == env.key
  {}

  /** Only what is missing is filled in, and nothing else is touched. */
  lemma NormalizedFills(env: Envelope, now: Reading)
    ensures var out := Normalized(env, now);
            && out == env.(emittedAt := out.emittedAt, mediaType := out.mediaType)
            && (if env.emittedAt != 0 then out.emittedAt == env.emittedAt else out.emittedAt == now)
            && (if env.mediaType != "" then out.mediaType == env.mediaType else out.mediaType == "application/json")
  {}

  /** `Validate` on the caller's copy of an envelope. */
  method Validate(env: Envelope, now: Reading) returns (ok: bool, out: Envelope)
    ensures ok <==> env.id != "" && env.kind != "" && env.source != ""
    ensures out == if ok then Normalized(env, now) else env
  {
    out := env;
    if out.id == "" { return false, out; }
    if out.kind == "" { return false, out; }
    if out.source == "" { return false, out; }
    if out.emittedAt == 0 {
      out := out.(emittedAt := now);
    }
    if out.mediaType == "" {
      out := out.(mediaType := DEFAULT_DATA_MEDIA_TYPE);
    }
    ok := true;
  }

  datatype Pending = Pending(envelope: Envelope, attempts: nat)

  /** The state of one entry. */
  datatype Row = Row(envelope: Envelope, attempts: nat, lastError: string, delivered: bool, dead: bool,
                     claimedUntil: int)

  function NewRow(env: Envelope): Row {
    Row(env, 0, "", false, false, 0)
  }

  predicate Terminal(row: Row) {
    row.delivered || row.dead
  }

  /** Neither terminal nor leased beyond this clock reading. */
  predicate Free(row: Row, now: nat) {
    !Terminal(row) && row.claimedUntil <= now
  }

  // ---- What the operations do to the list of entries ----

  function CountFree(rows: seq<Row>, now: nat): nat {
    if rows == [] then 0
    else
      var n := |rows| - 1;
      CountFree(rows[..n], now) + if Free(rows[n], now) then 1 else 0
  }

  /** Entry i is among the first `limit` free ones. */
  predicate Taken(rows: seq<Row>, i: nat, limit: int, now: nat)
    requires i < |rows|
  {
    Free(rows[i], now) && CountFree(rows[..i], now) < limit
  }

  function ClaimedRows(rows: seq<Row>, limit: int, now: nat, ttl: int): (after: seq<Row>)
    ensures |after| == |rows|
    ensures forall i :: 0 <= i < |rows| ==>
              after[i] == if Taken(rows, i, limit, now) then rows[i].(claimedUntil := now + ttl) else rows[i]
  {
    seq(|rows|, i requires 0 <= i < |rows| =>
      if Taken(rows, i, limit, now) then rows[i].(claimedUntil := now + ttl) else rows[i])
  }

  /** The batch: the taken entries in insertion order. */
  function TakenBatch(rows: seq<Row>, limit: int, now: nat): seq<Pending> {
    if rows == [] then []
    else
      var n := |rows| - 1;
      TakenBatch(rows[..n], limit, now)
      + if Taken(rows, n, limit, now) then [Pending(rows[n].envelope, rows[n].attempts)] else []
  }

  function Min(a: int, b: int): int { if a <= b then a else b }

  lemma {:induction false} BatchSize(rows: seq<Row>, limit: nat, now: nat)
    ensures |TakenBatch(rows, limit, now)| == Min(limit, CountFree(rows, now))
  {
    if rows != [] {
      BatchSize(rows[..|rows| - 1], limit, now);
    }
  }

  lemma {:induction false} CountFreeBound(rows: seq<Row>, now: nat)
    ensures CountFree(rows, now) <= |rows|
  {
    if rows != [] { CountFreeBound(rows[..|rows| - 1], now); }
  }

  /** A claim that asks for enough takes an entry exactly if it is neither delivered nor dead and its lease, if it
      ever had one, has ended; so from the very end of the lease on. */
  lemma TakenIff(rows: seq<Row>, i: nat, limit: int, now: nat)
    requires i < |rows| && limit > i
    ensures Taken(rows, i, limit, now) <==> !rows[i].delivered && !rows[i].dead && rows[i].claimedUntil <= now
    ensures forall ttl, again: nat, later: nat :: Taken(rows, i, limit, now) && again > i ==>
              (Taken(ClaimedRows(rows, limit, now, ttl), i, again, later) <==> later >= now + ttl)
  {
    CountFreeBound(rows[..i], now);
    hide CountFree, ClaimedRows;
    forall ttl, again: nat, later: nat | Taken(rows, i, limit, now) && again > i
      ensures Taken(ClaimedRows(rows, limit, now, ttl), i, again, later) <==> later >= now + ttl
    {
      CountFreeBound(ClaimedRows(rows, limit, now, ttl)[..i], later);
    }
  }

  /** What a claim hands out of each entry. */
  function Handed(rows: seq<Row>, limit: int, now: nat): (image: seq<Option<Pending>>)
    ensures |image| == |rows|
    ensures forall i :: 0 <= i < |rows| ==>
              image[i] == if Taken(rows, i, limit, now) then Some(Pending(rows[i].envelope, rows[i].attempts)) else None
  {
    seq(|rows|, i requires 0 <= i < |rows| =>
      if Taken(rows, i, limit, now) then Some(Pending(rows[i].envelope, rows[i].attempts)) else None)
  }

  /** The batch lists the taken entries with their attempts, in insertion order. */
  lemma {:induction false} BatchInOrder(rows: seq<Row>, limit: int, now: nat)
    ensures Lists(TakenBatch(rows, limit, now), Handed(rows, limit, now))
  {
    hide Lists, Taken;
    if rows == [] {
      ListsNothing<Pending>();
    } else {
      var n := |rows| - 1;
      BatchInOrder(rows[..n], limit, now);
      ListsStep(TakenBatch(rows[..n], limit, now), Handed(rows[..n], limit, now), Handed(rows, limit, now)[n]);
      forall i | 0 <= i < n ensures Taken(rows[..n], i, limit, now) <==> Taken(rows, i, limit, now) {
        TakenPrefix(rows, n, i, limit, now);
      }
      assert Handed(rows, limit, now) == Handed(rows[..n], limit, now) + [Handed(rows, limit, now)[n]];
      assert TakenBatch(rows[..n], limit, now) + [] == TakenBatch(rows[..n], limit, now);
    }
  }

  lemma TakenPrefix(rows: seq<Row>, n: nat, i: nat, limit: int, now: nat)
    requires i < n <= |rows|
    ensures Taken(rows[..n], i, limit, now) <==> Taken(rows, i, limit, now)
  {
    assert rows[..n][..i] == rows[..i];
  }

  lemma {:induction false} CountFreeGrows(rows: seq<Row>, now: nat, i: nat, j: nat)
    requires i <= j <= |rows|
    ensures CountFree(rows[..i], now) <= CountFree(rows[..j], now)
    decreases j
  {
    if i < j {
      CountFreeGrows(rows, now, i, j - 1);
      assert rows[..j][..j-1] == rows[..j-1];
    }
  }

  /** A claim leases as many entries as asked for and free, the earliest free ones, and until the lease ends
      no claim can take them again. */
  lemma ClaimLeasesFirstFree(rows: seq<Row>, limit: nat, now: nat, ttl: int)
    ensures |TakenBatch(rows, limit, now)| == Min(limit, CountFree(rows, now))
    ensures forall i, j :: 0 <= i < j < |rows| && Free(rows[i], now) && Taken(rows, j, limit, now) ==>
              Taken(rows, i, limit, now)
    ensures forall i, again: nat, later: nat :: 0 <= i < |rows| && Taken(rows, i, limit, now) && later < now + ttl ==>
              !Taken(ClaimedRows(rows, limit, now, ttl), i, again, later)
  {
    BatchSize(rows, limit, now);
    forall i, j | 0 <= i < j < |rows| && Free(rows[i], now) && Taken(rows, j, limit, now)
      ensures Taken(rows, i, limit, now)
    {
      CountFreeGrows(rows, now, i, j);
    }
  }

  /** The envelopes of the entries: fixed from the moment they are saved. */
  function Envelopes(rows: seq<Row>): (envs: seq<Envelope>)
    ensures |envs| == |rows| && forall i :: 0 <= i < |rows| ==> envs[i] == rows[i].envelope
  {
    seq(|rows|, i requires 0 <= i < |rows| => rows[i].envelope)
  }

  /** The position that `byID` answers for: the last entry saved under the ID. */
  function LastWithID(envs: seq<Envelope>, id: string): (i: int)
    ensures -1 <= i < |envs|
    ensures i >= 0 ==> envs[i].id == id && forall j :: i < j < |envs| ==> envs[j].id != id
    ensures i == -1 ==> forall j :: 0 <= j < |envs| ==> envs[j].id != id
  {
    if envs == [] then -1
    else
      var n := |envs| - 1;
      if envs[n].id == id then n else LastWithID(envs[..n], id)
  }

  datatype Mark = Delivered | Failed(failure: string) | Dead(reason: string)

  function Marked(row: Row, mark: Mark): Row {
    match mark
    case Delivered => row.(delivered := true)
    case Failed(msg) => row.(attempts := row.attempts + 1, lastError := msg, claimedUntil := 0)
    case Dead(msg) => row.(dead := true, lastError := msg)
  }

  /** Marking an unknown ID changes nothing. */
  function MarkedRows(rows: seq<Row>, id: string, mark: Mark): (after: seq<Row>)
    ensures |after| == |rows|
  {
    var i := LastWithID(Envelopes(rows), id);
    if i < 0 then rows else rows[i := Marked(rows[i], mark)]
  }

  /** No two entries share an idempotency key. */
  predicate KeysUnique(envs: seq<Envelope>) {
    forall i, j :: 0 <= i < j < |envs| && envs[i].key != "" ==> envs[i].key != envs[j].key
  }

  predicate KeyUsed(envs: seq<Envelope>, key: string) {
    exists i :: 0 <= i < |envs| && envs[i].key == key
  }

  // ---- The store ----

  class Entry {
    const envelope: Envelope
    var attempts: nat
    var lastError: string
    var delivered: bool
    var dead: bool
    var claimedUntil: int

    constructor (envelope: Envelope)
      ensures this.envelope == envelope
      ensures Value() == NewRow(envelope)
    {
      this.envelope := envelope;
      this.attempts, this.lastError := 0, "";
      this.delivered, this.dead, this.claimedUntil := false, false, 0;
    }

    ghost function Value(): Row
      reads this
    {
      Row(envelope, attempts, lastError, delivered, dead, claimedUntil)
    }

    method Lease(until: int)
      modifies this
      ensures Value() == old(Value()).(claimedUntil := until)
    {
      claimedUntil := until;
    }

    method Deliver()
      modifies this
      ensures Value() == Marked(old(Value()), Delivered)
    {
      delivered := true;
    }

    method Fail(errMsg: string)
      modifies this
      ensures Value() == Marked(old(Value()), Failed(errMsg))
    {
      attempts := attempts + 1;
      lastError := errMsg;
      claimedUntil := 0;
    }

    method Bury(errMsg: string)
      modifies this
      ensures Value() == Marked(old(Value()), Dead(errMsg))
    {
      dead := true;
      lastError := errMsg;
    }
  }

  function EnvelopesOf(entries: seq<Entry>): (envs: seq<Envelope>)
    ensures |envs| == |entries| && forall i :: 0 <= i < |envs| ==> envs[i] == entries[i].envelope
  {
    seq(|entries|, i requires 0 <= i < |entries| => entries[i].envelope)
  }

  /** The maps point into the list: `byID` at the last entry of each ID, `byKey` at the only entry of
      each idempotency key. */
  ghost predicate Indexed(entries: seq<Entry>, byKey: map<string, Entry>, byID: map<string, Entry>) {
    var envs := EnvelopesOf(entries);
    && NoDup(entries)
    && (forall id :: id in byID <==> LastWithID(envs, id) >= 0)
    && (forall id :: id in byID ==> byID[id] == entries[LastWithID(envs, id)])
    && (forall key :: key in byKey <==> key != "" && KeyUsed(envs, key))
    && (forall key :: key in byKey ==> byKey[key] in entries && byKey[key].envelope.key == key)
    && KeysUnique(envs)
  }

  lemma IndexedAppend(entries: seq<Entry>, byKey: map<string, Entry>, byID: map<string, Entry>, entry: Entry)
    requires Indexed(entries, byKey, byID) && entry !in entries
    requires entry.envelope.key == "" || entry.envelope.key !in byKey
    ensures var env := entry.envelope;
            Indexed(entries + [entry], if env.key != "" then byKey[env.key := entry] else byKey, byID[env.id := entry])
  {
    hide LastWithID, KeyUsed, KeysUnique;
    SavedEnvelopes(EnvelopesOf(entries), entry.envelope, EnvelopesOf(entries + [entry]));
  }

  lemma KeyIndexed(entries: seq<Entry>, byKey: map<string, Entry>, byID: map<string, Entry>, key: string)
    requires Indexed(entries, byKey, byID) && key != ""
    ensures key in byKey <==> KeyUsed(EnvelopesOf(entries), key)
  {}

  class MemoryStore {
    var entries: seq<Entry>
    var byKey: map<string, Entry>
    var byID: map<string, Entry>

    ghost function Rows(): (rows: seq<Row>)
      reads this, entries
      ensures |rows| == |entries|
      ensures forall i :: 0 <= i < |rows| ==> rows[i] == entries[i].Value()
    {
      seq(|entries|, i requires 0 <= i < |entries| reads this, entries => entries[i].Value())
    }

    ghost function Saved(): seq<Envelope>
      reads this
    {
      EnvelopesOf(entries)
    }

    ghost predicate Valid()
      reads this
    {
      Indexed(entries, byKey, byID)
    }

    lemma ValidNoDup()
      requires Valid()
      ensures NoDup(entries)
    {}

    /** A change to one entry changes one row. */
    twostate lemma OneEntryChanged(i: nat)
      requires old(entries) == entries && NoDup(entries) && i < |entries|
      requires forall e :: e in entries && e != entries[i] ==> unchanged(e)
      ensures Rows() == old(Rows())[i := entries[i].Value()]
    {
      forall k | 0 <= k < |entries| && k != i ensures Rows()[k] == old(Rows())[k] {
        assert entries[k] in entries && entries[k] != entries[i];
      }
    }

    /** `byID` answers with the row that a mark of this ID changes. */
    lemma Found(id: string) returns (at: int)
      requires Valid()
      ensures NoDup(entries) && at == LastWithID(Envelopes(Rows()), id)
      ensures id in byID <==> at >= 0
      ensures id in byID ==> at < |entries| && byID[id] == entries[at]
    {
      hide LastWithID, KeyUsed, KeysUnique;
      at := LastWithID(Envelopes(Rows()), id);
      assert Envelopes(Rows()) == EnvelopesOf(entries);
    }

    constructor ()
      ensures Valid() && Rows() == []
    {
      entries, byKey, byID := [], map[], map[];
    }

    /** Appends the normalised envelope unless its idempotency key was used before; an error changes nothing. */
    method Save(cancelled: bool, given: Envelope, now: Reading) returns (r: Result<(), StoreError>)
      requires Valid()
      modifies this
      ensures Valid()
      ensures r == if cancelled then Err(Cancelled)
                   else if !ValidEnvelope(given) then Err(InvalidEnvelope)
                   else if given.key != "" && KeyUsed(old(Saved()), given.key) then Err(Duplicate)
                   else Ok(())
      ensures Rows() == if r.Ok? then old(Rows()) + [NewRow(Normalized(given, now))] else old(Rows())
      ensures forall e :: e in entries && e !in old(entries) ==> fresh(e)
    {
      hide LastWithID, KeyUsed, KeysUnique, Indexed;
      if cancelled { return Err(Cancelled); }
      var ok, env := Validate(given, now);
      if !ok { return Err(InvalidEnvelope); }
      if env.key != "" {
        KeyIndexed(entries, byKey, byID, env.key);
        if env.key in byKey { return Err(Duplicate); }
      }
      var entry := new Entry(env);
      IndexedAppend(entries, byKey, byID, entry);
      entries := entries + [entry];
      byID := byID[env.id := entry];
      if env.key != "" {
        byKey := byKey[env.key := entry];
      }
      r := Ok(());
    }

    /** Leases the first `limit` free entries until now + ttl and returns them in insertion order. */
    method ClaimBatch(cancelled: bool, limit: int, ttl: int, now: nat) returns (r: Result<seq<Pending>, StoreError>)
      requires Valid()
      modifies entries
      ensures Valid() && entries == old(entries)
      ensures cancelled ==> r == Err(Cancelled) && Rows() == old(Rows())
      ensures !cancelled ==> r == Ok(TakenBatch(old(Rows()), limit, now))
      ensures !cancelled ==> Rows() == ClaimedRows(old(Rows()), limit, now, ttl)
    {
      hide LastWithID, KeyUsed, KeysUnique, TakenBatch, CountFree, NoDup, ClaimedRows, ClaimedUpTo, Rows, Saved, Valid;
      if cancelled { return Err(Cancelled); }
      ghost var before := Rows();
      assert NoDup(entries) by { ValidNoDup(); }
      if limit <= 0 {
        NothingTaken(before, limit, now, ttl);
        return Ok([]);
      }
      var out: seq<Pending> := [];
      var i := 0;
      NothingSeen(before, limit, now, ttl);
      while i < |entries|
        invariant i <= |entries| == |before|
        invariant |out| == CountFree(before[..i], now) < limit
        invariant out == TakenBatch(before[..i], limit, now)
        invariant Rows() == ClaimedUpTo(before, limit, now, ttl, i)
      {
        label step:
        var e := entries[i];
        ClaimStep(before, i, limit, now, ttl);
        assert e.Value() == before[i];
        BatchStep(before, i, limit, now);
        assert Free(before[i], now) <==> !(e.delivered || e.dead || e.claimedUntil > now);
        if e.delivered || e.dead || e.claimedUntil > now {
          i := i + 1;
          continue;
        }
        e.Lease(now + ttl);
        OneEntryChanged@step(i);
        out := out + [Pending(e.envelope, e.attempts)];
        i := i + 1;
        if |out| >= limit {
          break;
        }
      }
      BatchRest(before, i, limit, now);
      ClaimRest(before, i, limit, now, ttl);
      r := Ok(out);
    }

    method MarkDelivered(cancelled: bool, id: string) returns (r: Result<(), StoreError>)
      requires Valid()
      modifies entries
      ensures Valid() && entries == old(entries)
      ensures r.Ok? <==> !cancelled
      ensures Rows() == if cancelled then old(Rows()) else MarkedRows(old(Rows()), id, Delivered)
    {
      if cancelled { return Err(Cancelled); }
      r := Ok(());
      ghost var at := Found(id);
      hide LastWithID, Valid, Rows, NoDup, Marked;
      if id in byID {
        var e := byID[id];
        e.Deliver();
        OneEntryChanged(at);
      }
    }

    method MarkFailed(cancelled: bool, id: string, errMsg: string) returns (r: Result<(), StoreError>)
      requires Valid()
      modifies entries
      ensures Valid() && entries == old(entries)
      ensures r.Ok? <==> !cancelled
      ensures Rows() == if cancelled then old(Rows()) else MarkedRows(old(Rows()), id, Failed(errMsg))
    {
      if cancelled { return Err(Cancelled); }
      r := Ok(());
      ghost var at := Found(id);
      hide LastWithID, Valid, Rows, NoDup, Marked;
      if id in byID {
        var e := byID[id];
        e.Fail(errMsg);
        OneEntryChanged(at);
      }
    }

    method MarkDead(cancelled: bool, id: string, errMsg: string) returns (r: Result<(), StoreError>)
      requires Valid()
      modifies entries
      ensures Valid() && entries == old(entries)
      ensures r.Ok? <==> !cancelled
      ensures Rows() == if cancelled then old(Rows()) else MarkedRows(old(Rows()), id, Dead(errMsg))
    {
      if cancelled { return Err(Cancelled); }
      r := Ok(());
      ghost var at := Found(id);
      hide LastWithID, Valid, Rows, NoDup, Marked;
      if id in byID {
        var e := byID[id];
        e.Bury(errMsg);
        OneEntryChanged(at);
      }
    }
  }

  // ---- Facts about the specification ----

  lemma SavedEnvelopes(before: seq<Envelope>, env: Envelope, after: seq<Envelope>)
    requires after == before + [env]
    ensures forall id :: LastWithID(after, id) == if id == env.id then |before| else LastWithID(before, id)
    ensures forall key :: KeyUsed(after, key) <==> key == env.key || KeyUsed(before, key)
    ensures KeysUnique(before) && (env.key == "" || !KeyUsed(before, env.key)) ==> KeysUnique(after)
  {
    assert after[..|before|] == before;
    forall key ensures KeyUsed(after, key) <==> key == env.key || KeyUsed(before, key) {
      assert after[|before|] == env;
      if KeyUsed(before, key) {
        var i :| 0 <= i < |before| && before[i].key == key;
        assert after[i].key == key;
      }
    }
  }

  /** The entries while the claim loop has reached position i. */
  function ClaimedUpTo(rows: seq<Row>, limit: int, now: nat, ttl: int, i: nat): (sofar: seq<Row>)
    requires i <= |rows|
    ensures |sofar| == |rows|
  {
    ClaimedRows(rows, limit, now, ttl)[..i] + rows[i..]
  }

  lemma ClaimStep(rows: seq<Row>, i: nat, limit: int, now: nat, ttl: int)
    requires i < |rows|
    ensures var sofar := ClaimedUpTo(rows, limit, now, ttl, i);
            && sofar[i] == rows[i]
            && ClaimedUpTo(rows, limit, now, ttl, i + 1)
               == if Taken(rows, i, limit, now) then sofar[i := rows[i].(claimedUntil := now + ttl)] else sofar
  {}

  lemma ClaimRest(rows: seq<Row>, i: nat, limit: int, now: nat, ttl: int)
    requires i <= |rows| && forall k :: i <= k < |rows| ==> !Taken(rows, k, limit, now)
    ensures ClaimedUpTo(rows, limit, now, ttl, i) == ClaimedRows(rows, limit, now, ttl)
  {}

  lemma {:induction false} NothingTaken(rows: seq<Row>, limit: int, now: nat, ttl: int)
    requires limit <= 0
    ensures TakenBatch(rows, limit, now) == []
    ensures ClaimedRows(rows, limit, now, ttl) == rows
  {
    if rows != [] {
      NothingTaken(rows[..|rows| - 1], limit, now, ttl);
    }
  }

  lemma NothingSeen(rows: seq<Row>, limit: int, now: nat, ttl: int)
    ensures ClaimedUpTo(rows, limit, now, ttl, 0) == rows
    ensures CountFree(rows[..0], now) == 0 && TakenBatch(rows[..0], limit, now) == []
  {}

  lemma BatchStep(rows: seq<Row>, i: nat, limit: int, now: nat)
    requires i < |rows|
    ensures CountFree(rows[..i+1], now) == CountFree(rows[..i], now) + if Free(rows[i], now) then 1 else 0
    ensures TakenBatch(rows[..i+1], limit, now)
         == TakenBatch(rows[..i], limit, now)
            + if Taken(rows, i, limit, now) then [Pending(rows[i].envelope, rows[i].attempts)] else []
  {
    assert rows[..i+1][..i] == rows[..i];
  }

  /** Once `limit` free entries have been seen, nothing further is taken. */
  lemma {:induction false} BatchRest(rows: seq<Row>, i: nat, limit: int, now: nat)
    requires i <= |rows| && (i == |rows| || CountFree(rows[..i], now) >= limit)
    ensures TakenBatch(rows, limit, now) == TakenBatch(rows[..i], limit, now)
    ensures forall k :: i <= k < |rows| ==> !Taken(rows, k, limit, now)
    decreases |rows| - i
  {
    if i == |rows| {
      assert rows[..i] == rows;
    } else {
      BatchStep(rows, i, limit, now);
      BatchRest(rows, i + 1, limit, now);
    }
  }
}
