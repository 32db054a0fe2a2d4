/** The SQLite store: a table changed in transactions that commit or roll back. It holds a
    ghost copy of the abstract contents, and every call is proved to act on that copy exactly
    as the in-memory store would. */
module SqliteStores {
  import opened Basics
  import opened Records

  const I64_MAX := 0x7fff_ffff_ffff_ffff

  /** A time as stored: never clamped, and absent outside 1970 to 2262. */
  function Nanos(time: Time): Option<int> {
    if 0 <= time <= I64_MAX then Some(time) else None
  }

  function FromNanos(value: int): Option<Time> {
    if value < 0 then None else Some(value)
  }

  /** A row of the table. Its key is the generation; `id` is unique. */
  datatype Row = Row(
    id: Id,
    blob: Bytes,
    size: nat,
    pinSalt: string,
    pinVerifier: string,
    expiresAt: int,
    failedAttempts: nat,
    protocolVersion: nat)

  type Rows = map<nat, Row>

  /** The rows, and the last key AUTOINCREMENT gave out. */
  datatype Table = Table(rows: Rows, sequence: nat)

  datatype FaultPoint =
    | AtMeta
    | InsertBeforeCommit | InsertAfterCommit
    | AttemptBeforeCommit | AttemptAfterCommit
    | ConsumeBeforeCommit | ConsumeAfterCommit

  function FaultAt(fault: Option<FaultPoint>, before: FaultPoint, after: FaultPoint): Fault {
    if fault == Some(before) then BeforeCommit
    else if fault == Some(after) then AfterCommit
    else NoFault
  }

  /** A fault fires once. */
  function Disarmed(fault: Option<FaultPoint>, points: set<FaultPoint>): Option<FaultPoint> {
    if fault.Some? && fault.value in points then None else fault
  }

  // ---------------------------------------------------------------- statements

  function DeleteExpiredId(rows: Rows, id: Id, now: int): Rows {
    map g | g in rows && !(rows[g].id == id && rows[g].expiresAt <= now) :: rows[g]
  }

  function DeleteExpired(rows: Rows, now: int): Rows {
    map g | g in rows && !(rows[g].expiresAt <= now) :: rows[g]
  }

  predicate RowExists(rows: Rows, id: Id) {
    exists g :: g in rows && rows[g].id == id
  }

  predicate Matches(rows: Rows, id: Id, generation: nat) {
    generation in rows && rows[generation].id == id
  }

  ghost function TotalSize(rows: Rows): nat {
    if rows == map[] then 0 else
      var g :| g in rows;
      rows[g].size + TotalSize(rows - {g})
  }

  lemma {:induction false} TotalSizeWithout(rows: Rows, g: nat)
    requires g in rows
    ensures TotalSize(rows) == rows[g].size + TotalSize(rows - {g})
    decreases |rows|
  {
    var pick :| g in rows && pick in rows && TotalSize(rows) == rows[pick].size + TotalSize(rows - {pick});
    if pick != g {
      TotalSizeWithout(rows - {pick}, g);
      TotalSizeWithout(rows - {g}, pick);
      assert rows - {pick} - {g} == rows - {g} - {pick};
    }
  }

  // ---------------------------------------------------------------- what a table stands for

  function EntryOf(generation: nat, row: Row): Entry {
    Entry(row.blob,
          Meta(generation, row.pinSalt, row.pinVerifier, row.expiresAt, row.failedAttempts),
          row.protocolVersion)
  }

  ghost predicate RowOk(t: Table, c: Contents, g: nat)
    requires g in t.rows
  {
    var row := t.rows[g];
    && 1 <= g <= t.sequence
    && row.size == |row.blob|
    && 0 <= row.expiresAt <= I64_MAX
    && row.id in c.rows
    && c.rows[row.id] == EntryOf(g, row)
  }

  /** The table's rows are exactly the contents' rows, one key to one id. */
  ghost predicate Represents(t: Table, c: Contents) {
    && t.sequence == c.lastGeneration <= I64_MAX
    && (forall g <- t.rows :: RowOk(t, c, g))
    && (forall id <- c.rows :: Matches(t.rows, id, c.rows[id].meta.generation))
  }

  /** COUNT(*) and SUM(size) are what the in-memory store counts by hand. */
  lemma {:induction false} TotalsAgree(t: Table, c: Contents)
    requires Represents(t, c)
    ensures |t.rows| == |c.rows| && TotalSize(t.rows) == TotalBytes(c.rows)
    decreases |t.rows|
  {
    if g :| g in t.rows {
      assert RowOk(t, c, g);
      var id := t.rows[g].id;
      TotalSizeWithout(t.rows, g);
      TotalBytesWithout(c.rows, id);
      assert |t.rows - {g}| == |t.rows| - 1 && |c.rows - {id}| == |c.rows| - 1;
      DeletedRow(t, c, id, g);
      TotalsAgree(t.(rows := t.rows - {g}), c.(rows := c.rows - {id}));
    } else {
      assert t.rows == map[] && c.rows == map[];
    }
  }

  lemma DeletedRow(t: Table, c: Contents, id: Id, g: nat)
    requires Represents(t, c)
    ensures Matches(t.rows, id, g) <==> Holds(c, id, g)
    ensures Matches(t.rows, id, g) ==> RowOk(t, c, g) && Represents(t.(rows := t.rows - {g}), c.(rows := c.rows - {id}))
  {
    if Matches(t.rows, id, g) {
      assert RowOk(t, c, g);
      var t', c' := t.(rows := t.rows - {g}), c.(rows := c.rows - {id});
      forall h <- t'.rows ensures RowOk(t', c', h) {
        assert RowOk(t, c, h);
      }
    }
  }

  lemma DeletedExpiredId(t: Table, c: Contents, id: Id, now: int)
    requires Represents(t, c)
    ensures var freed := if id in c.rows && c.rows[id].meta.IsExpiredAt(now) then c.rows - {id} else c.rows;
            var t' := t.(rows := DeleteExpiredId(t.rows, id, now));
            && Represents(t', c.(rows := freed))
            && (RowExists(t'.rows, id) <==> id in freed)
            && (id in freed ==> t' == t)
  {
    var freed := if id in c.rows && c.rows[id].meta.IsExpiredAt(now) then c.rows - {id} else c.rows;
    var t' := t.(rows := DeleteExpiredId(t.rows, id, now));
    forall g <- t.rows ensures RowOk(t, c, g) {}
    forall g <- t'.rows ensures RowOk(t', c.(rows := freed), g) {}
    if id in freed {
      assert Matches(t'.rows, id, c.rows[id].meta.generation);
      assert t'.rows == t.rows;
    }
  }

  lemma DeletedExpired(t: Table, c: Contents, now: int)
    requires Represents(t, c)
    ensures Represents(t.(rows := DeleteExpired(t.rows, now)), c.(rows := Unexpired(c.rows, now)))
  {
    var t', c' := t.(rows := DeleteExpired(t.rows, now)), c.(rows := Unexpired(c.rows, now));
    forall g <- t'.rows ensures RowOk(t', c', g) {
      assert RowOk(t, c, g);
    }
    forall id <- c'.rows ensures Matches(t'.rows, id, c'.rows[id].meta.generation) {
      assert Matches(t.rows, id, c.rows[id].meta.generation);
      assert RowOk(t, c, c.rows[id].meta.generation);
    }
  }

  lemma CountDeletedExpired(t: Table, c: Contents, now: int)
    requires Represents(t, c)
    ensures |t.rows| - |DeleteExpired(t.rows, now)| == |Expired(c.rows, now)|
  {
    DeletedExpired(t, c, now);
    TotalsAgree(t, c);
    TotalsAgree(t.(rows := DeleteExpired(t.rows, now)), c.(rows := Unexpired(c.rows, now)));
    ExpiredOrUnexpired(c.rows, now);
  }

  lemma InsertedRow(t: Table, c: Contents, m: NewMessage)
    requires Represents(t, c) && m.id !in c.rows && 0 <= m.expiresAt <= I64_MAX && t.sequence < I64_MAX
    ensures var row := Row(m.id, m.blob, |m.blob|, m.pinSalt, m.pinVerifier, m.expiresAt, 0, m.protocolVersion);
            Represents(Table(t.rows[t.sequence + 1 := row], t.sequence + 1), Put(c, c.rows, m))
  {
    var row := Row(m.id, m.blob, |m.blob|, m.pinSalt, m.pinVerifier, m.expiresAt, 0, m.protocolVersion);
    var t', c' := Table(t.rows[t.sequence + 1 := row], t.sequence + 1), Put(c, c.rows, m);
    forall g <- t.rows ensures RowOk(t, c, g) {}
    forall g <- t'.rows ensures RowOk(t', c', g) {}
  }

  lemma UpdatedRow(t: Table, c: Contents, id: Id, g: nat, failures: nat)
    requires Represents(t, c) && Matches(t.rows, id, g)
    ensures id in c.rows
    ensures var row := t.rows[g].(failedAttempts := failures);
            var entry := c.rows[id].(meta := c.rows[id].meta.(failedAttempts := failures));
            Represents(t.(rows := t.rows[g := row]), c.(rows := c.rows[id := entry]))
  {
    assert RowOk(t, c, g);
    var t' := t.(rows := t.rows[g := t.rows[g].(failedAttempts := failures)]);
    var c' := c.(rows := c.rows[id := c.rows[id].(meta := c.rows[id].meta.(failedAttempts := failures))]);
    forall h <- t'.rows ensures RowOk(t', c', h) {
      assert RowOk(t, c, h);
    }
  }

  // ---------------------------------------------------------------- the store

  class SqliteStore {
    var table: Table
    var fault: Option<FaultPoint>
    const maxMessages: nat
    const maxBytes: nat
    ghost var contents: Contents

    ghost function Caps(): Caps { Records.Caps(maxMessages, maxBytes) }

    ghost predicate Valid()
      reads this
    {
      Represents(table, contents)
    }

    constructor (maxMessages: nat, maxBytes: nat)
      ensures Valid() && contents == EMPTY && fault == None
      ensures this.maxMessages == maxMessages && this.maxBytes == maxBytes
    {
      table, fault, contents := Table(map[], 0), None, EMPTY;
      this.maxMessages, this.maxBytes := maxMessages, maxBytes;
    }

    /** Reports whether a fault strikes at `point`, and disarms it if it does. */
    method Strikes(point: FaultPoint) returns (struck: bool)
      modifies this`fault
      ensures struck == (old(fault) == Some(point))
      ensures fault == Disarmed(old(fault), {point})
    {
      struck := fault == Some(point);
      if struck {
        fault := None;
      }
    }

    static method SumSize(rows: Rows) returns (sum: nat)
      ensures sum == TotalSize(rows)
    {
      var left := rows;
      sum := 0;
      while left != map[]
        invariant sum + TotalSize(left) == TotalSize(rows)
        decreases |left|
      {
        var g :| g in left;
        TotalSizeWithout(left, g);
        sum := sum + left[g].size;
        assert |left - {g}| == |left| - 1;
        left := left - {g};
      }
    }

    method AdmitsIn(tx: Table, len: nat, ghost c: Contents) returns (fits: bool)
      requires Represents(tx, c)
      ensures fits == Admits(c.rows, len, Caps())
    {
      TotalsAgree(tx, c);
      var sum := SumSize(tx.rows);
      fits := |tx.rows| < maxMessages && sum + len <= maxBytes;
    }

    /** The statements of an insert up to its own: what they leave in the transaction, and
        whether the message is refused. */
    method MakeRoom(message: NewMessage, now: int) returns (tx: Table, refusal: Option<InsertError>, ghost room: Contents)
      requires Valid()
      ensures Represents(tx, room) && room.lastGeneration == contents.lastGeneration
      ensures var (after, outcome) := Records.Insert(contents, Caps(), message, now);
              match refusal
              case Some(e) => outcome == Err(e) && room == after && (e.IdTaken? ==> tx == table)
              case None => outcome == Ok(()) && message.id !in room.rows && after == Put(contents, room.rows, message)
    {
      tx := table.(rows := DeleteExpiredId(table.rows, message.id, now));
      DeletedExpiredId(table, contents, message.id, now);
      room := if message.id in contents.rows && contents.rows[message.id].meta.IsExpiredAt(now)
      then contents.(rows := contents.rows - {message.id}) else contents;
      if RowExists(tx.rows, message.id) {
        return tx, Some(IdTaken(message.blob)), room;
      }
      var fits := AdmitsIn(tx, |message.blob|, room);
      if !fits {
        DeletedExpired(tx, room, now);
        tx := tx.(rows := DeleteExpired(tx.rows, now));
        room := room.(rows := Unexpired(room.rows, now));
        fits := AdmitsIn(tx, |message.blob|, room);
        if !fits {
          return tx, Some(Full), room;
        }
      }
      refusal := None;
    }

    /** The last statement of an insert and its commit. */
    method CommitInsert(tx: Table, message: NewMessage, expiresAt: int, ghost room: Contents) returns (committed: bool, answered: bool)
      requires Represents(tx, room) && message.id !in room.rows
      requires Nanos(message.expiresAt) == Some(expiresAt)
      requires Valid()
      modifies this
      ensures Valid()
      ensures committed == (tx.sequence < I64_MAX && old(fault) != Some(InsertBeforeCommit))
      ensures answered == (committed && old(fault) != Some(InsertAfterCommit))
      ensures tx.sequence < I64_MAX ==> fault == Disarmed(old(fault), {InsertBeforeCommit, InsertAfterCommit})
      ensures tx.sequence >= I64_MAX ==> fault == old(fault)
      ensures contents == if committed then Put(room, room.rows, message) else old(contents)
      ensures !committed ==> table == old(table)
    {
      if tx.sequence >= I64_MAX {
        return false, false;
      }
      InsertedRow(tx, room, message);
      var row := Row(message.id, message.blob, |message.blob|, message.pinSalt, message.pinVerifier,
                     expiresAt, 0, message.protocolVersion);
      var struck := Strikes(InsertBeforeCommit);
      if struck {
        return false, false;
      }
      table := Table(tx.rows[tx.sequence + 1 := row], tx.sequence + 1);
      contents := Put(room, room.rows, message);
      struck := Strikes(InsertAfterCommit);
      return true, !struck;
    }

    /** An insert at representable times does what the in-memory store does. A refusal keeps the
        sweep it made; a fault before the commit leaves no trace; one after it leaves the row.
        When the key space is used up, AUTOINCREMENT fails the statement. */
    method Insert(message: NewMessage, now: Time) returns (r: Result<(), InsertError>)
      requires Valid()
      modifies this
      ensures Valid()
      ensures Nanos(now).None? || Nanos(message.expiresAt).None? ==>
                r == Err(Storage) && contents == old(contents) && table == old(table) && fault == old(fault)
      ensures Nanos(now).Some? && Nanos(message.expiresAt).Some? ==>
                var call := Records.Insert(old(contents), Caps(), message, now);
                if call.1.Err? then
                  r == call.1 && contents == call.0 && fault == old(fault)
                else if old(contents).lastGeneration >= I64_MAX then
                  r == Err(Storage) && contents == old(contents) && table == old(table) && fault == old(fault)
                else
                  var settled := Settle(FaultAt(old(fault), InsertBeforeCommit, InsertAfterCommit), old(contents), call);
                  && contents == settled.0
                  && r == (if settled.1.Ok? then Ok(()) else Err(Storage))
                  && fault == Disarmed(old(fault), {InsertBeforeCommit, InsertAfterCommit})
                  && (old(fault) == Some(InsertBeforeCommit) ==> table == old(table))
    {
      var at, expiresAt := Nanos(now), Nanos(message.expiresAt);
      if at.None? || expiresAt.None? {
        return Err(Storage);
      }
      var tx, refusal, room := MakeRoom(message, at.value);
      if refusal.Some? {
        if refusal.value.Full? {
          table, contents := tx, room;
        }
        return Err(refusal.value);
      }
      var _, answered := CommitInsert(tx, message, expiresAt.value, room);
      r := if answered then Ok(()) else Err(Storage);
    }

    /** The row under `id` as metadata, read back from its stored form. */
    method MetaOf(id: Id) returns (r: Result<Option<Meta>, StoreError>)
      requires Valid()
      modifies this`fault
      ensures old(fault) == Some(AtMeta) ==> r == Err(StorageFailed)
      ensures old(fault) != Some(AtMeta) ==>
                r == Ok(if id in contents.rows then Some(contents.rows[id].meta) else None)
      ensures fault == Disarmed(old(fault), {AtMeta})
    {
      var struck := Strikes(AtMeta);
      if struck {
        return Err(StorageFailed);
      }
      if !RowExists(table.rows, id) {
        assert id in contents.rows ==> Matches(table.rows, id, contents.rows[id].meta.generation);
        return Ok(None);
      }
      ghost var known := forall g <- table.rows :: RowOk(table, contents, g);
      var g :| g in table.rows && table.rows[g].id == id;
      var row := table.rows[g];
      assert RowOk(table, contents, g);
      var expiresAt := FromNanos(row.expiresAt);
      if expiresAt.None? {
        return Err(StorageFailed);
      }
      r := Ok(Some(Meta(g, row.pinSalt, row.pinVerifier, expiresAt.value, row.failedAttempts)));
    }

    method RecordFailure(id: Id, generation: nat, maxAttempts: nat) returns (r: Result<Option<Attempt>, StoreError>)
      requires Valid()
      modifies this
      ensures Valid()
      ensures generation > I64_MAX ==> r == Err(StorageFailed) && contents == old(contents) && fault == old(fault)
      ensures generation <= I64_MAX ==>
                var call := Records.RecordFailure(old(contents), id, generation, maxAttempts);
                if call.1.None? then
                  r == Ok(None) && contents == old(contents) && fault == old(fault)
                else
                  && contents == Settle(FaultAt(old(fault), AttemptBeforeCommit, AttemptAfterCommit), old(contents), call).0
                  && r == Settle(FaultAt(old(fault), AttemptBeforeCommit, AttemptAfterCommit), old(contents), call).1
                  && fault == Disarmed(old(fault), {AttemptBeforeCommit, AttemptAfterCommit})
                  && (old(fault) == Some(AttemptBeforeCommit) ==> table == old(table))
    {
      if generation > I64_MAX {
        return Err(StorageFailed);
      }
      DeletedRow(table, contents, id, generation);
      if !Matches(table.rows, id, generation) {
        return Ok(None);
      }
      var tx := table;
      ghost var after := Records.RecordFailure(contents, id, generation, maxAttempts).0;
      var failures := tx.rows[generation].failedAttempts + 1;
      UpdatedRow(tx, contents, id, generation, failures);
      tx := tx.(rows := tx.rows[generation := tx.rows[generation].(failedAttempts := failures)]);
      var outcome;
      if failures >= maxAttempts {
        assert tx.rows - {generation} == table.rows - {generation};
        tx := tx.(rows := tx.rows - {generation});
        outcome := Burned;
      } else {
        outcome := Counted(failures);
      }
      assert Represents(tx, after);
      var struck := Strikes(AttemptBeforeCommit);
      if struck {
        return Err(StorageFailed);
      }
      table, contents := tx, after;
      struck := Strikes(AttemptAfterCommit);
      if struck {
        return Err(StorageFailed);
      }
      r := Ok(Some(outcome));
    }

    /** A fault after the commit leaves the row gone and releases no bytes. */
    method Consume(id: Id, generation: nat) returns (r: Result<Option<Bytes>, StoreError>)
      requires Valid()
      modifies this
      ensures Valid()
      ensures generation > I64_MAX ==> r == Err(StorageFailed) && contents == old(contents) && fault == old(fault)
      ensures generation <= I64_MAX ==>
                var call := Records.Consume(old(contents), id, generation);
                && contents == Settle(FaultAt(old(fault), ConsumeBeforeCommit, ConsumeAfterCommit), old(contents), call).0
                && r == Settle(FaultAt(old(fault), ConsumeBeforeCommit, ConsumeAfterCommit), old(contents), call).1
                && fault == Disarmed(old(fault), {ConsumeBeforeCommit, ConsumeAfterCommit})
                && (old(fault) == Some(ConsumeBeforeCommit) ==> table == old(table))
    {
      if generation > I64_MAX {
        return Err(StorageFailed);
      }
      DeletedRow(table, contents, id, generation);
      var tx := table;
      var blob: Option<Bytes> := None;
      if Matches(tx.rows, id, generation) {
        blob := Some(tx.rows[generation].blob);
        tx := tx.(rows := tx.rows - {generation});
      }
      var struck := Strikes(ConsumeBeforeCommit);
      if struck {
        return Err(StorageFailed);
      }
      table, contents := tx, Records.Consume(contents, id, generation).0;
      struck := Strikes(ConsumeAfterCommit);
      if struck {
        return Err(StorageFailed);
      }
      r := Ok(blob);
    }

    method Remove(id: Id, generation: nat) returns (r: Result<bool, StoreError>)
      requires Valid()
      modifies this
      ensures Valid() && fault == old(fault)
      ensures generation > I64_MAX ==> r == Err(StorageFailed) && contents == old(contents)
      ensures generation <= I64_MAX ==>
                var call := Records.Remove(old(contents), id, generation);
                contents == call.0 && r == Ok(call.1)
    {
      if generation > I64_MAX {
        return Err(StorageFailed);
      }
      DeletedRow(table, contents, id, generation);
      var removed := Matches(table.rows, id, generation);
      if removed {
        table := table.(rows := table.rows - {generation});
        contents := Records.Remove(contents, id, generation).0;
      }
      r := Ok(removed);
    }

    method Sweep(now: Time) returns (r: Result<nat, StoreError>)
      requires Valid()
      modifies this
      ensures Valid() && fault == old(fault)
      ensures Nanos(now).None? ==> r == Err(StorageFailed) && contents == old(contents)
      ensures Nanos(now).Some? ==>
                var call := Records.Sweep(old(contents), now);
                contents == call.0 && r == Ok(call.1)
    {
      var at := Nanos(now);
      if at.None? {
        return Err(StorageFailed);
      }
      DeletedExpired(table, contents, at.value);
      CountDeletedExpired(table, contents, at.value);
      var tx := table.(rows := DeleteExpired(table.rows, at.value));
      var removed := |table.rows| - |tx.rows|;
      table, contents := tx, Records.Sweep(contents, now).0;
      r := Ok(removed);
    }
  }
}
