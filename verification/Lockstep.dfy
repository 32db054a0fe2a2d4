/** The two stores, given the same calls, give the same answers and hold the same rows. */
module Lockstep {
  import opened Basics
  import opened StoreCalls
  import opened MemoryStores
  import opened SqliteStores

  /** The column types hold every number of the call. */
  predicate IsRepresentable(call: Call) {
    match call
    case Insertion(message, now) => Nanos(now).Some? && Nanos(message.expiresAt).Some?
    case Lookup(_) => true
    case Failure(_, generation, _) => generation <= I64_MAX
    case Consumption(_, generation) => generation <= I64_MAX
    case Removal(_, generation) => generation <= I64_MAX
    case Sweeping(now) => Nanos(now).Some?
  }

  method OnMemory(store: MemoryStore, call: Call) returns (answer: Answer)
    requires store.Valid()
    modifies store
    ensures store.Valid() && (store.Contents(), answer) == Expected(old(store.Contents()), store.Caps(), call)
  {
    match call
    case Insertion(message, now) =>
      var r := store.Insert(message, now);
      return Inserted(r);
    case Lookup(id) =>
      var r := store.MetaOf(id);
      return Found(r);
    case Failure(id, generation, maxAttempts) =>
      var r := store.RecordFailure(id, generation, maxAttempts);
      return Failed(r);
    case Consumption(id, generation) =>
      var r := store.Consume(id, generation);
      return Consumed(r);
    case Removal(id, generation) =>
      var r := store.Remove(id, generation);
      return Removed(r);
    case Sweeping(now) =>
      var r := store.Sweep(now);
      return Swept(r);
  }

  method OnSqlite(store: SqliteStore, call: Call) returns (answer: Answer)
    requires store.Valid() && store.fault == None && store.contents.lastGeneration < I64_MAX && IsRepresentable(call)
    modifies store
    ensures store.Valid() && store.fault == None
    ensures (store.contents, answer) == Expected(old(store.contents), store.Caps(), call)
  {
    match call
    case Insertion(message, now) =>
      var r := store.Insert(message, now);
      return Inserted(r);
    case Lookup(id) =>
      var r := store.MetaOf(id);
      return Found(r);
    case Failure(id, generation, maxAttempts) =>
      var r := store.RecordFailure(id, generation, maxAttempts);
      return Failed(r);
    case Consumption(id, generation) =>
      var r := store.Consume(id, generation);
      return Consumed(r);
    case Removal(id, generation) =>
      var r := store.Remove(id, generation);
      return Removed(r);
    case Sweeping(now) =>
      var r := store.Sweep(now);
      return Swept(r);
  }

  /** Any sequence of calls that the columns can hold leads both stores through the same answers
      to the same rows, generations included. */
  method RunBoth(memory: MemoryStore, sqlite: SqliteStore, calls: seq<Call>) returns (a: seq<Answer>, b: seq<Answer>)
    requires memory.Valid() && sqlite.Valid() && sqlite.fault == None
    requires memory.Contents() == sqlite.contents && memory.Caps() == sqlite.Caps()
    requires sqlite.contents.lastGeneration + |calls| <= I64_MAX
    requires forall i :: 0 <= i < |calls| ==> IsRepresentable(calls[i])
    modifies memory, sqlite
    ensures memory.Valid() && sqlite.Valid() && memory.Contents() == sqlite.contents
    ensures a == b && |a| == |calls|
  {
    a, b := [], [];
    for i := 0 to |calls|
      invariant memory.Valid() && sqlite.Valid() && sqlite.fault == None
      invariant memory.Contents() == sqlite.contents
      invariant sqlite.contents.lastGeneration <= old(sqlite.contents.lastGeneration) + i
      invariant a == b && |a| == i
    {
      OneGenerationAtMost(sqlite.contents, sqlite.Caps(), calls[i]);
      var x := OnMemory(memory, calls[i]);
      var y := OnSqlite(sqlite, calls[i]);
      a, b := a + [x], b + [y];
    }
  }
}
