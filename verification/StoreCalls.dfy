/** Sequences of store calls, and what they can never do: hand out a message twice, or bring one back. */
module StoreCalls {
  import opened Basics
  import opened Records

  datatype Call =
    | Insertion(message: NewMessage, now: Time)
    | Lookup(id: Id)
    | Failure(id: Id, generation: nat, maxAttempts: nat)
    | Consumption(id: Id, generation: nat)
    | Removal(id: Id, generation: nat)
    | Sweeping(now: Time)

  datatype Answer =
    | Inserted(r: Result<(), InsertError>)
    | Found(meta: Result<Option<Meta>, StoreError>)
    | Failed(attempt: Result<Option<Attempt>, StoreError>)
    | Consumed(blob: Result<Option<Bytes>, StoreError>)
    | Removed(found: Result<bool, StoreError>)
    | Swept(count: Result<nat, StoreError>)

  /** What a call does to the abstract contents, and what it answers. */
  ghost function Expected(c: Contents, caps: Caps, call: Call): (Contents, Answer) {
    match call
    case Insertion(message, now) => (Insert(c, caps, message, now).0, Inserted(Insert(c, caps, message, now).1))
    case Lookup(id) => (c, Found(Ok(if id in c.rows then Some(c.rows[id].meta) else None)))
    case Failure(id, generation, max) =>
      (RecordFailure(c, id, generation, max).0, Failed(Ok(RecordFailure(c, id, generation, max).1)))
    case Consumption(id, generation) => (Consume(c, id, generation).0, Consumed(Ok(Consume(c, id, generation).1)))
    case Removal(id, generation) => (Remove(c, id, generation).0, Removed(Ok(Remove(c, id, generation).1)))
    case Sweeping(now) => (Sweep(c, now).0, Swept(Ok(Sweep(c, now).1)))
  }

  lemma OneGenerationAtMost(c: Contents, caps: Caps, call: Call)
    ensures c.lastGeneration <= Expected(c, caps, call).0.lastGeneration <= c.lastGeneration + 1
  {
  }

  // ---------------------------------------------------------------- a generation that is gone

  /** The contents after the first `n` calls. */
  ghost function After(c: Contents, caps: Caps, calls: seq<Call>, n: nat): Contents
    requires n <= |calls|
    decreases n
  {
    if n == 0 then c else Expected(After(c, caps, calls, n - 1), caps, calls[n - 1]).0
  }

  /** What the call at `i` is answered. */
  ghost function AnswerAt(c: Contents, caps: Caps, calls: seq<Call>, i: nat): Answer
    requires i < |calls|
  {
    Expected(After(c, caps, calls, i), caps, calls[i]).1
  }

  /** It was given out, and no row carries it. */
  ghost predicate IsGone(c: Contents, generation: nat) {
    generation <= c.lastGeneration && forall id <- c.rows :: c.rows[id].meta.generation != generation
  }

  /** The call names this generation. */
  predicate Names(call: Call, generation: nat) {
    match call
    case Failure(_, g, _) => g == generation
    case Consumption(_, g) => g == generation
    case Removal(_, g) => g == generation
    case _ => false
  }

  /** Nothing was there: no attempt to count, no blob, nothing to remove, and no metadata to read. */
  predicate FindsNothing(answer: Answer, generation: nat) {
    match answer
    case Failed(attempt) => attempt == Ok(None)
    case Consumed(blob) => blob == Ok(None)
    case Removed(found) => found == Ok(false)
    case Found(meta) => meta.Ok? && (meta.value.Some? ==> meta.value.value.generation != generation)
    case _ => true
  }

  lemma CallKeepsGone(c: Contents, caps: Caps, call: Call, generation: nat)
    requires IsGone(c, generation)
    ensures IsGone(Expected(c, caps, call).0, generation)
    ensures Names(call, generation) || call.Lookup? ==> FindsNothing(Expected(c, caps, call).1, generation)
    ensures Names(call, generation) ==> Expected(c, caps, call).0 == c
  {
    OneGenerationAtMost(c, caps, call);
    if call.Insertion? {
      InsertKeepsUnexpiredRows(c, caps, call.message, call.now);
    }
  }

  lemma GoneAfterCall(c: Contents, caps: Caps, calls: seq<Call>, generation: nat, k: nat)
    requires k < |calls| && IsGone(After(c, caps, calls, k), generation)
    ensures IsGone(After(c, caps, calls, k + 1), generation)
    ensures Names(calls[k], generation) || calls[k].Lookup? ==> FindsNothing(AnswerAt(c, caps, calls, k), generation)
    ensures Names(calls[k], generation) ==> After(c, caps, calls, k + 1) == After(c, caps, calls, k)
  {
    CallKeepsGone(After(c, caps, calls, k), caps, calls[k], generation);
  }

  lemma GoneNext(c: Contents, caps: Caps, calls: seq<Call>, generation: nat, k: nat, next: nat)
    requires next == k + 1 <= |calls| && IsGone(After(c, caps, calls, k), generation)
    ensures IsGone(After(c, caps, calls, next), generation)
  {
    GoneAfterCall(c, caps, calls, generation, k);
  }

  lemma {:induction false} StaysGone(c: Contents, caps: Caps, calls: seq<Call>, generation: nat, i: nat, k: nat)
    requires i <= k <= |calls| && IsGone(After(c, caps, calls, i), generation)
    ensures IsGone(After(c, caps, calls, k), generation)
    decreases k
  {
    if i < k {
      StaysGone(c, caps, calls, generation, i, k - 1);
      GoneNext(c, caps, calls, generation, k - 1, k);
    }
  }

  /** Once a generation is gone it stays gone, whatever calls come next and even if its id is given
      to a new message: every call that names it finds nothing and changes nothing. */
  lemma GoneForGood(c: Contents, caps: Caps, calls: seq<Call>, generation: nat, i: nat, k: nat)
    requires i <= k <= |calls| && IsGone(After(c, caps, calls, i), generation)
    ensures IsGone(After(c, caps, calls, k), generation)
    ensures k < |calls| && (Names(calls[k], generation) || calls[k].Lookup?) ==> FindsNothing(AnswerAt(c, caps, calls, k), generation)
    ensures k < |calls| && Names(calls[k], generation) ==> After(c, caps, calls, k + 1) == After(c, caps, calls, k)
  {
    StaysGone(c, caps, calls, generation, i, k);
    if k < |calls| {
      GoneAfterCall(c, caps, calls, generation, k);
    }
  }

  /** The call took the row out: it released the blob, used up the attempts, or removed it. */
  predicate TakesOut(answer: Answer) {
    match answer
    case Failed(attempt) => attempt == Ok(Some(Burned))
    case Consumed(blob) => blob.Ok? && blob.value.Some?
    case Removed(found) => found == Ok(true)
    case _ => false
  }

  lemma TakenOutIsGone(c: Contents, caps: Caps, call: Call, generation: nat)
    requires GenerationsUnique(c) && Names(call, generation) && TakesOut(Expected(c, caps, call).1)
    ensures IsGone(Expected(c, caps, call).0, generation)
  {
  }

  lemma {:induction false} RunKeepsGenerationsUnique(c: Contents, caps: Caps, calls: seq<Call>, n: nat)
    requires GenerationsUnique(c) && n <= |calls|
    ensures GenerationsUnique(After(c, caps, calls, n))
    decreases n
  {
    if n > 0 {
      RunKeepsGenerationsUnique(c, caps, calls, n - 1);
      CallKeepsGenerationsUnique(After(c, caps, calls, n - 1), caps, calls[n - 1]);
    }
  }

  lemma CallKeepsGenerationsUnique(c: Contents, caps: Caps, call: Call)
    requires GenerationsUnique(c)
    ensures GenerationsUnique(Expected(c, caps, call).0)
  {
    match call
    case Insertion(m, now) => CallsKeepGenerationsUnique(c, caps, m, now, m.id, 0, 0);
    case Lookup(_) =>
    case Failure(id, g, max) => CallsKeepGenerationsUnique(c, caps, NewMessage(id, [], "", "", 0, 0), 0, id, g, max);
    case Consumption(id, g) => CallsKeepGenerationsUnique(c, caps, NewMessage(id, [], "", "", 0, 0), 0, id, g, 0);
    case Removal(id, g) => CallsKeepGenerationsUnique(c, caps, NewMessage(id, [], "", "", 0, 0), 0, id, g, 0);
    case Sweeping(now) => CallsKeepGenerationsUnique(c, caps, NewMessage("", [], "", "", 0, 0), now, "", 0, 0);
  }

  /** Over any sequence of calls, at most one takes a generation's row out: after it, every other
      call that names the generation finds nothing, so its blob is released at most once, and never
      once it was burned or removed. */
  lemma TakenOutAtMostOnce(c: Contents, caps: Caps, calls: seq<Call>, generation: nat, i: nat, k: nat)
    requires GenerationsUnique(c) && i < k < |calls|
    requires Names(calls[i], generation) && TakesOut(AnswerAt(c, caps, calls, i))
    ensures IsGone(After(c, caps, calls, k), generation)
    ensures Names(calls[k], generation) || calls[k].Lookup? ==> FindsNothing(AnswerAt(c, caps, calls, k), generation)
    ensures Names(calls[k], generation) ==> After(c, caps, calls, k + 1) == After(c, caps, calls, k)
  {
    RunKeepsGenerationsUnique(c, caps, calls, i);
    TakenOutIsGone(After(c, caps, calls, i), caps, calls[i], generation);
    GoneForGood(c, caps, calls, generation, i + 1, k);
  }

  // ---------------------------------------------------------------- a generation that is there

  /** A call that names a row by its id and its generation finds it, whatever calls came before: a
      consumption releases its blob and a removal says so, and the row goes; a failure is counted, or
      burns the row where it is the last one allowed. */
  lemma HeldIsFound(c: Contents, caps: Caps, calls: seq<Call>, k: nat, id: Id, generation: nat)
    requires k < |calls| && id in After(c, caps, calls, k).rows && After(c, caps, calls, k).rows[id].meta.generation == generation
    ensures var before := After(c, caps, calls, k);
            var after := After(c, caps, calls, k + 1);
            var (answer, failures) := (AnswerAt(c, caps, calls, k), before.rows[id].meta.failedAttempts + 1);
            && (calls[k] == Consumption(id, generation) ==> answer == Consumed(Ok(Some(before.rows[id].blob))) && LostOnly(before, after, id))
            && (calls[k] == Removal(id, generation) ==> answer == Removed(Ok(true)) && LostOnly(before, after, id))
            && (calls[k] == Lookup(id) ==> answer == Found(Ok(Some(before.rows[id].meta))) && after == before)
            && forall max :: calls[k] == Failure(id, generation, max) ==>
                 if failures < max then answer == Failed(Ok(Some(Counted(failures)))) && CountsOnly(before, after, id, failures)
                 else answer == Failed(Ok(Some(Burned))) && LostOnly(before, after, id)
  {
  }

  /** Only failures of this generation under this limit. */
  ghost predicate AreFailures(calls: seq<Call>, id: Id, generation: nat, max: nat) {
    forall i :: 0 <= i < |calls| ==> calls[i] == Failure(id, generation, max)
  }

  /** Failures count up one by one to the limit, at which the row burns; any more find nothing. */
  lemma {:induction false} FailuresCountToTheLimit(
    c: Contents, caps: Caps, calls: seq<Call>, id: Id, generation: nat, max: nat, k: nat)
    requires GenerationsUnique(c) && id in c.rows && c.rows[id].meta.generation == generation
    requires c.rows[id].meta.failedAttempts < max && AreFailures(calls, id, generation, max) && k < |calls|
    ensures var count := c.rows[id].meta.failedAttempts + k + 1;
            && AnswerAt(c, caps, calls, k) == Failed(Ok(if count < max then Some(Counted(count)) else if count == max then Some(Burned) else None))
            && if count < max then CountsOnly(c, After(c, caps, calls, k + 1), id, count)
               else LostOnly(c, After(c, caps, calls, k + 1), id)
    decreases k
  {
    assert calls[k] == Failure(id, generation, max);
    if k > 0 {
      FailuresCountToTheLimit(c, caps, calls, id, generation, max, k - 1);
    }
  }
}
