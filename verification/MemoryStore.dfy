/** The in-memory store: one map, a running byte total and a generation counter. */
module MemoryStores {
  import opened Basics
  import opened Records

  class MemoryStore {
    var messages: Rows
    var bytes: nat
    var nextGeneration: nat
    const maxMessages: nat
    const maxBytes: nat

    ghost function Caps(): Caps { Records.Caps(maxMessages, maxBytes) }

    ghost function Contents(): Contents
      reads this
    {
      Records.Contents(messages, nextGeneration)
    }

    /** The byte total is exact and both caps hold. */
    ghost predicate Valid()
      reads this
    {
      && bytes == TotalBytes(messages)
      && |messages| <= maxMessages
      && bytes <= maxBytes
    }

    constructor (maxMessages: nat, maxBytes: nat)
      ensures Valid() && Contents() == EMPTY
      ensures this.maxMessages == maxMessages && this.maxBytes == maxBytes
    {
      messages, bytes, nextGeneration := map[], 0, 0;
      this.maxMessages, this.maxBytes := maxMessages, maxBytes;
    }

    /** Removes the row under `id`. The subtraction never goes below zero. */
    method Take(id: Id) returns (entry: Option<Entry>)
      requires bytes == TotalBytes(messages)
      modifies this`messages, this`bytes
      ensures bytes == TotalBytes(messages)
      ensures messages == old(messages) - {id}
      ensures entry == if id in old(messages) then Some(old(messages)[id]) else None
    {
      if id !in messages {
        assert messages - {id} == messages;
        return None;
      }
      TotalBytesWithout(messages, id);
      entry := Some(messages[id]);
      bytes := bytes - |messages[id].blob|;
      messages := messages - {id};
    }

    method TakeGeneration(id: Id, generation: nat) returns (entry: Option<Entry>)
      requires Valid()
      modifies this`messages, this`bytes
      ensures Valid()
      ensures Contents() == Records.Remove(old(Contents()), id, generation).0
      ensures entry == if Holds(old(Contents()), id, generation) then Some(old(messages)[id]) else None
    {
      if id !in messages {
        return None;
      }
      if messages[id].meta.generation == generation {
        FewerRowsFewerBytes(messages - {id}, messages);
        entry := Take(id);
      } else {
        entry := None;
      }
    }

    method TakeAll(ids: set<Id>)
      requires bytes == TotalBytes(messages)
      modifies this`messages, this`bytes
      ensures bytes == TotalBytes(messages)
      ensures messages == old(messages) - ids
    {
      var left := ids;
      while left != {}
        invariant left <= ids
        invariant messages == old(messages) - (ids - left)
        invariant bytes == TotalBytes(messages)
        decreases |left|
      {
        var id :| id in left;
        var _ := Take(id);
        left := left - {id};
      }
      assert ids - left == ids;
    }

    /** Collects the expired ids, then takes each. */
    method SweepInner(now: Time) returns (removed: nat)
      requires Valid()
      modifies this`messages, this`bytes
      ensures Valid()
      ensures Contents() == Records.Sweep(old(Contents()), now).0
      ensures removed == Records.Sweep(old(Contents()), now).1
    {
      var expired := Expired(messages, now);
      FewerRowsFewerBytes(Unexpired(messages, now), messages);
      assert messages - expired == Unexpired(messages, now);
      TakeAll(expired);
      removed := |expired|;
    }

    method AdmitsNow(len: nat) returns (fits: bool)
      requires bytes == TotalBytes(messages)
      ensures fits == Admits(messages, len, Caps())
    {
      fits := |messages| < maxMessages && bytes + len <= maxBytes;
    }

    /** Drops an expired row under `id`, then tells whether a live one still holds it. */
    method Free(id: Id, now: Time) returns (taken: bool)
      requires Valid()
      modifies this`messages, this`bytes
      ensures Valid()
      ensures messages == if id in old(messages) && old(messages)[id].meta.IsExpiredAt(now) then old(messages) - {id}
                          else old(messages)
      ensures taken == (id in messages)
    {
      if id in messages && messages[id].meta.IsExpiredAt(now) {
        FewerRowsFewerBytes(messages - {id}, messages);
        var _ := Take(id);
      }
      taken := id in messages;
    }

    /** Adds a row that fits, under the next generation. */
    method Add(message: NewMessage)
      requires Valid() && message.id !in messages && Admits(messages, |message.blob|, Caps())
      modifies this
      ensures Valid()
      ensures Contents() == Put(old(Contents()), old(messages), message)
    {
      bytes := bytes + |message.blob|;
      nextGeneration := nextGeneration + 1;
      var meta := Meta(nextGeneration, message.pinSalt, message.pinVerifier, message.expiresAt, 0);
      var entry := Entry(message.blob, meta, message.protocolVersion);
      TotalBytesWith(messages, message.id, entry);
      messages := messages[message.id := entry];
    }

    method Insert(message: NewMessage, now: Time) returns (r: Result<(), InsertError>)
      requires Valid()
      modifies this
      ensures Valid()
      ensures Contents() == Records.Insert(old(Contents()), Caps(), message, now).0
      ensures r == Records.Insert(old(Contents()), Caps(), message, now).1
    {
      var taken := Free(message.id, now);
      if taken {
        return Err(IdTaken(message.blob));
      }
      var fits := AdmitsNow(|message.blob|);
      if !fits {
        var _ := SweepInner(now);
        fits := AdmitsNow(|message.blob|);
        if !fits {
          return Err(Full);
        }
      }
      Add(message);
      r := Ok(());
    }

    method MetaOf(id: Id) returns (meta: Result<Option<Meta>, StoreError>)
      ensures meta == Ok(if id in messages then Some(messages[id].meta) else None)
    {
      meta := Ok(if id in messages then Some(messages[id].meta) else None);
    }

    method RecordFailure(id: Id, generation: nat, maxAttempts: nat) returns (r: Result<Option<Attempt>, StoreError>)
      requires Valid()
      modifies this`messages, this`bytes
      ensures Valid()
      ensures r.Ok? && (Contents(), r.value) == Records.RecordFailure(old(Contents()), id, generation, maxAttempts)
    {
      if id !in messages || messages[id].meta.generation != generation {
        return Ok(None);
      }
      TotalBytesWithout(messages, id);
      var entry := messages[id];
      entry := entry.(meta := entry.meta.(failedAttempts := entry.meta.failedAttempts + 1));
      messages := messages[id := entry];
      assert messages - {id} == old(messages) - {id};
      TotalBytesWithout(messages, id);
      var failures := entry.meta.failedAttempts;
      if failures >= maxAttempts {
        FewerRowsFewerBytes(messages - {id}, messages);
        var _ := Take(id);
        return Ok(Some(Burned));
      }
      return Ok(Some(Counted(failures)));
    }

    method Consume(id: Id, generation: nat) returns (r: Result<Option<Bytes>, StoreError>)
      requires Valid()
      modifies this`messages, this`bytes
      ensures Valid()
      ensures r.Ok? && (Contents(), r.value) == Records.Consume(old(Contents()), id, generation)
    {
      var entry := TakeGeneration(id, generation);
      r := Ok(if entry.Some? then Some(entry.value.blob) else None);
    }

    method Remove(id: Id, generation: nat) returns (r: Result<bool, StoreError>)
      requires Valid()
      modifies this`messages, this`bytes
      ensures Valid()
      ensures r.Ok? && (Contents(), r.value) == Records.Remove(old(Contents()), id, generation)
    {
      var entry := TakeGeneration(id, generation);
      r := Ok(entry.Some?);
    }

    method Sweep(now: Time) returns (r: Result<nat, StoreError>)
      requires Valid()
      modifies this`messages, this`bytes
      ensures Valid()
      ensures r.Ok? && (Contents(), r.value) == Records.Sweep(old(Contents()), now)
    {
      var removed := SweepInner(now);
      r := Ok(removed);
    }
  }
}
