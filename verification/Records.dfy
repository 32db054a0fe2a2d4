/** Rows and results, and what one atomic call on a store does to them. */
module Records {
  import opened Basics

  /** Nanoseconds since the Unix epoch; a system clock may stand before it. */
  type Time = int

  type Id = string

  datatype Meta = Meta(
    generation: nat,
    pinSalt: string,
    pinVerifier: string,
    expiresAt: Time,
    failedAttempts: nat)
  {
    predicate IsExpiredAt(now: Time) { expiresAt <= now }
  }

  datatype Entry = Entry(blob: Bytes, meta: Meta, protocolVersion: nat)

  type Rows = map<Id, Entry>

  datatype NewMessage = NewMessage(
    id: Id,
    blob: Bytes,
    pinSalt: string,
    pinVerifier: string,
    expiresAt: Time,
    protocolVersion: nat)

  datatype InsertError = IdTaken(blob: Bytes) | Full | Storage

  datatype StoreError = StorageFailed

  datatype Attempt = Counted(failures: nat) | Burned

  datatype Caps = Caps(maxMessages: nat, maxBytes: nat)

  /** What a store holds, whatever backs it: its rows by id and the last generation it gave out. */
  datatype Contents = Contents(rows: Rows, lastGeneration: nat)

  const EMPTY := Contents(map[], 0)

  // ---------------------------------------------------------------- what each call does

  function Unexpired(rows: Rows, now: Time): Rows {
    map id | id in rows && !rows[id].meta.IsExpiredAt(now) :: rows[id]
  }

  ghost function TotalBytes(rows: Rows): nat {
    if rows == map[] then 0 else
      var id :| id in rows;
      |rows[id].blob| + TotalBytes(rows - {id})
  }

  ghost predicate Admits(rows: Rows, len: nat, caps: Caps) {
    |rows| < caps.maxMessages && TotalBytes(rows) + len <= caps.maxBytes
  }

  function NewEntry(m: NewMessage, generation: nat): Entry {
    Entry(m.blob, Meta(generation, m.pinSalt, m.pinVerifier, m.expiresAt, 0), m.protocolVersion)
  }

  function Put(c: Contents, rows: Rows, m: NewMessage): Contents {
    Contents(rows[m.id := NewEntry(m, c.lastGeneration + 1)], c.lastGeneration + 1)
  }

  /** An expired row gives up its id at once; a full store sweeps before it refuses. */
  ghost function Insert(c: Contents, caps: Caps, m: NewMessage, now: Time): (Contents, Result<(), InsertError>) {
    var freed := if m.id in c.rows && c.rows[m.id].meta.IsExpiredAt(now) then c.rows - {m.id} else c.rows;
    if m.id in freed then (c, Err(IdTaken(m.blob)))
    else if Admits(freed, |m.blob|, caps) then (Put(c, freed, m), Ok(()))
    else
      var swept := Unexpired(freed, now);
      if Admits(swept, |m.blob|, caps) then (Put(c, swept, m), Ok(()))
      else (c.(rows := swept), Err(Full))
  }

  predicate Holds(c: Contents, id: Id, generation: nat) {
    id in c.rows && c.rows[id].meta.generation == generation
  }

  function RecordFailure(c: Contents, id: Id, generation: nat, maxAttempts: nat): (Contents, Option<Attempt>) {
    if !Holds(c, id, generation) then (c, None) else
      var entry := c.rows[id];
      var failures := entry.meta.failedAttempts + 1;
      if failures >= maxAttempts then (c.(rows := c.rows - {id}), Some(Burned))
      else (c.(rows := c.rows[id := entry.(meta := entry.meta.(failedAttempts := failures))]), Some(Counted(failures)))
  }

  function Consume(c: Contents, id: Id, generation: nat): (Contents, Option<Bytes>) {
    if Holds(c, id, generation) then (c.(rows := c.rows - {id}), Some(c.rows[id].blob)) else (c, None)
  }

  function Remove(c: Contents, id: Id, generation: nat): (Contents, bool) {
    if Holds(c, id, generation) then (c.(rows := c.rows - {id}), true) else (c, false)
  }

  function Expired(rows: Rows, now: Time): set<Id> {
    set id | id in rows && rows[id].meta.IsExpiredAt(now)
  }

  function Sweep(c: Contents, now: Time): (Contents, nat) {
    (c.(rows := Unexpired(c.rows, now)), |Expired(c.rows, now)|)
  }

  /** Where a storage fault strikes a call: the transaction is rolled back, or it is already
      committed and only its answer is lost. */
  datatype Fault = NoFault | BeforeCommit | AfterCommit

  /** The state and the answer a caller is left with. No fault ever lets an answer through. */
  function Settle<R>(fault: Fault, before: Contents, call: (Contents, R)): (Contents, Result<R, StoreError>) {
    match fault
    case NoFault => (call.0, Ok(call.1))
    case BeforeCommit => (before, Err(StorageFailed))
    case AfterCommit => (call.0, Err(StorageFailed))
  }

  // ---------------------------------------------------------------- bytes held

  lemma {:induction false} TotalBytesWithout(rows: Rows, id: Id)
    requires id in rows
    ensures TotalBytes(rows) == |rows[id].blob| + TotalBytes(rows - {id})
    decreases |rows|
  {
    var pick :| id in rows && pick in rows && TotalBytes(rows) == |rows[pick].blob| + TotalBytes(rows - {pick});
    if pick != id {
      TotalBytesWithout(rows - {pick}, id);
      TotalBytesWithout(rows - {id}, pick);
      assert rows - {pick} - {id} == rows - {id} - {pick};
    }
  }

  lemma TotalBytesWith(rows: Rows, id: Id, e: Entry)
    requires id !in rows
    ensures TotalBytes(rows[id := e]) == TotalBytes(rows) + |e.blob|
  {
    TotalBytesWithout(rows[id := e], id);
    assert rows[id := e] - {id} == rows;
  }

  lemma {:induction false} FewerRowsFewerBytes(fewer: Rows, rows: Rows)
    requires forall id <- fewer :: id in rows && rows[id] == fewer[id]
    ensures |fewer| <= |rows| && TotalBytes(fewer) <= TotalBytes(rows)
    decreases |rows|
  {
    if id :| id in rows {
      TotalBytesWithout(rows, id);
      if id in fewer {
        TotalBytesWithout(fewer, id);
        assert |fewer - {id}| == |fewer| - 1 && |rows - {id}| == |rows| - 1;
        FewerRowsFewerBytes(fewer - {id}, rows - {id});
      } else {
        assert |rows - {id}| == |rows| - 1;
        FewerRowsFewerBytes(fewer, rows - {id});
      }
    } else {
      assert fewer == map[];
    }
  }

  lemma ExpiredOrUnexpired(rows: Rows, now: Time)
    ensures |rows| == |Expired(rows, now)| + |Unexpired(rows, now)|
  {
    assert rows.Keys == Expired(rows, now) + Unexpired(rows, now).Keys;
    assert |rows.Keys| == |rows| && |Unexpired(rows, now).Keys| == |Unexpired(rows, now)|;
  }

  // ---------------------------------------------------------------- what insert decides

  /** Whether and how an insert is refused depends on the unexpired rows alone: rows that are
      already past their time never hold an id or a place, whether or not they were swept. */
  lemma InsertDecidesOnUnexpiredRows(c: Contents, caps: Caps, m: NewMessage, now: Time)
    ensures var live := map id | id in c.rows && now < c.rows[id].meta.expiresAt :: c.rows[id];
            var fits := |live| < caps.maxMessages && TotalBytes(live) + |m.blob| <= caps.maxBytes;
            var outcome := Insert(c, caps, m, now).1;
            && (outcome == Err(IdTaken(m.blob)) <==> m.id in live)
            && (outcome == Err(Full) <==> m.id !in live && !fits)
            && (outcome == Ok(()) <==> m.id !in live && fits)
  {
    assert (map id | id in c.rows && now < c.rows[id].meta.expiresAt :: c.rows[id]) == Unexpired(c.rows, now);
    var live := Unexpired(c.rows, now);
    var freed := if m.id in c.rows && c.rows[m.id].meta.IsExpiredAt(now) then c.rows - {m.id} else c.rows;
    if m.id !in freed {
      assert Unexpired(freed, now) == live;
      FewerRowsFewerBytes(live, freed);
    }
  }

  /** An insert never touches an unexpired row, drops only expired ones, and adds at most the new one. */
  lemma InsertKeepsUnexpiredRows(c: Contents, caps: Caps, m: NewMessage, now: Time)
    ensures var (after, outcome) := Insert(c, caps, m, now);
            && (forall id <- Unexpired(c.rows, now) :: id in after.rows && after.rows[id] == c.rows[id])
            && (forall id <- after.rows :: (outcome.Ok? && id == m.id) || (id in c.rows && after.rows[id] == c.rows[id]))
            && (outcome.Ok? ==>
                  var meta := Meta(after.lastGeneration, m.pinSalt, m.pinVerifier, m.expiresAt, 0);
                  m.id in after.rows && after.rows[m.id] == Entry(m.blob, meta, m.protocolVersion))
            && after.lastGeneration == c.lastGeneration + (if outcome.Ok? then 1 else 0)
  {
  }

  /** A store that respects its caps still does after an insert. */
  lemma InsertKeepsCaps(c: Contents, caps: Caps, m: NewMessage, now: Time)
    requires |c.rows| <= caps.maxMessages && TotalBytes(c.rows) <= caps.maxBytes
    ensures var after := Insert(c, caps, m, now).0;
            |after.rows| <= caps.maxMessages && TotalBytes(after.rows) <= caps.maxBytes
  {
    var freed := if m.id in c.rows && c.rows[m.id].meta.IsExpiredAt(now) then c.rows - {m.id} else c.rows;
    if m.id !in freed {
      FewerRowsFewerBytes(freed, c.rows);
      if Admits(freed, |m.blob|, caps) {
        TotalBytesWith(freed, m.id, NewEntry(m, c.lastGeneration + 1));
      } else {
        var swept := Unexpired(freed, now);
        FewerRowsFewerBytes(swept, c.rows);
        TotalBytesWith(swept, m.id, NewEntry(m, c.lastGeneration + 1));
      }
    }
  }

  // ---------------------------------------------------------------- what changes

  /** `after` has lost this row and is otherwise as before. */
  ghost predicate LostOnly(c: Contents, after: Contents, id: Id) {
    id !in after.rows && after.lastGeneration == c.lastGeneration
    && forall other :: other != id ==> (other in c.rows <==> other in after.rows)
                                       && (other in c.rows ==> after.rows[other] == c.rows[other])
  }

  /** `after` has this row with so many failures and is otherwise as before. */
  ghost predicate CountsOnly(c: Contents, after: Contents, id: Id, failures: nat) {
    && id in c.rows && id in after.rows && after.lastGeneration == c.lastGeneration
    && after.rows[id].blob == c.rows[id].blob && after.rows[id].protocolVersion == c.rows[id].protocolVersion
    && after.rows[id].meta == Meta(c.rows[id].meta.generation, c.rows[id].meta.pinSalt, c.rows[id].meta.pinVerifier,
                                   c.rows[id].meta.expiresAt, failures)
    && forall other :: other != id ==> (other in c.rows <==> other in after.rows)
                                       && (other in c.rows ==> after.rows[other] == c.rows[other])
  }

  /** A sweep leaves exactly the rows whose expiry is still to come, as they were, and counts the others. */
  lemma SweepIsExact(c: Contents, now: Time)
    ensures var (after, count) := Sweep(c, now);
            && (forall id :: id in after.rows <==> id in c.rows && now < c.rows[id].meta.expiresAt)
            && (forall id <- after.rows :: after.rows[id] == c.rows[id])
            && count == |c.rows| - |after.rows| && after.lastGeneration == c.lastGeneration
  {
    ExpiredOrUnexpired(c.rows, now);
  }

  // ---------------------------------------------------------------- generations

  /** Every row carries a generation already given out, and no two rows carry the same one. */
  ghost predicate GenerationsUnique(c: Contents) {
    && (forall id <- c.rows :: 1 <= c.rows[id].meta.generation <= c.lastGeneration)
    && (forall a, b :: a in c.rows && b in c.rows && c.rows[a].meta.generation == c.rows[b].meta.generation ==> a == b)
  }

  /** Every call keeps generations unique, and an insert's is new. */
  lemma CallsKeepGenerationsUnique(c: Contents, caps: Caps, m: NewMessage, now: Time, id: Id, generation: nat, max: nat)
    requires GenerationsUnique(c)
    ensures GenerationsUnique(Insert(c, caps, m, now).0)
    ensures GenerationsUnique(RecordFailure(c, id, generation, max).0)
    ensures GenerationsUnique(Consume(c, id, generation).0)
    ensures GenerationsUnique(Remove(c, id, generation).0)
    ensures GenerationsUnique(Sweep(c, now).0)
  {
    InsertKeepsUnexpiredRows(c, caps, m, now);
  }
}
