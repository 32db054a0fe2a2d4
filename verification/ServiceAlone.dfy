/** What a retrieval does when nothing interferes: in any state its ten steps, taken one after
    another without a fault, are one lookup, one check and one change of the store. */
module ServiceAlone {
  import opened Records
  import opened Service

  const QUIET := Choice(NoFault, "", true)

  /** A retrieval as one indivisible operation. */
  function Retrieve(c: Config, store: Contents, now: Time, id: Id, pin: string): (Contents, Outcome) {
    if id !in store.rows then (store, Unavailable)
    else
      var entry := store.rows[id];
      var g := entry.meta.generation;
      if entry.meta.IsExpiredAt(now) then (Remove(store, id, g).0, Unavailable)
      else if c.verify(pin, entry.meta.pinSalt, entry.meta.pinVerifier) then (Consume(store, id, g).0, Released(entry.blob))
      else (RecordFailure(store, id, g, c.maxAttempts).0, WrongPin)
  }

  /** The whole of a retrieval, without the store's calls: nothing under the id, or a row whose time is
      up and which goes; the right PIN, its blob, and the row goes; a wrong PIN, which is counted or, as
      the last one allowed, takes the row with it. */
  ghost predicate IsRetrieved(c: Config, store: Contents, now: Time, id: Id, pin: string, after: Contents, outcome: Outcome) {
    if id !in store.rows then after == store && outcome == Unavailable
    else
      var entry := store.rows[id];
      if entry.meta.expiresAt <= now then LostOnly(store, after, id) && outcome == Unavailable
      else if c.verify(pin, entry.meta.pinSalt, entry.meta.pinVerifier) then LostOnly(store, after, id) && outcome == Released(entry.blob)
      else outcome == WrongPin
           && if entry.meta.failedAttempts + 1 < c.maxAttempts then CountsOnly(store, after, id, entry.meta.failedAttempts + 1)
              else LostOnly(store, after, id)
  }

  lemma RetrieveIsSpelled(c: Config, store: Contents, now: Time, id: Id, pin: string)
    ensures var (after, outcome) := Retrieve(c, store, now, id, pin); IsRetrieved(c, store, now, id, pin, after, outcome)
  {
  }

  /** Up to `n` steps of task `t`, and of no other. */
  ghost function Alone(c: Config, s: State, t: TaskId, n: nat): State
    decreases n
  {
    if n == 0 || t !in s.tasks || !Ready(c, s, s.tasks[t]) then s
    else Alone(c, RunTask(c, s, t, s.tasks[t], QUIET), t, n - 1)
  }

  lemma {:induction false} AloneThen(c: Config, s: State, t: TaskId, n: nat, m: nat)
    ensures Alone(c, s, t, n + m) == Alone(c, Alone(c, s, t, n), t, m)
    decreases n
  {
    if n > 0 && t in s.tasks && Ready(c, s, s.tasks[t]) {
      AloneThen(c, RunTask(c, s, t, s.tasks[t], QUIET), t, n - 1, m);
    } else if n > 0 {
      Stuck(c, s, t, n);
      Stuck(c, s, t, m);
      Stuck(c, s, t, n + m);
    }
  }

  lemma Stuck(c: Config, s: State, t: TaskId, n: nat)
    requires t !in s.tasks || !Ready(c, s, s.tasks[t])
    ensures Alone(c, s, t, n) == s
  {
  }

  /** Task `t` stands at `task`, holding its stripe, and the rest is as in `from`. */
  ghost predicate Stands(c: Config, from: State, s: State, t: TaskId, task: Task)
    requires task.Retrieval?
  {
    s == Moved(from.(locks := from.locks[c.stripe(task.id) := t]), t, task)
  }

  lemma OneStep(c: Config, s: State, t: TaskId, s': State)
    requires t in s.tasks && Ready(c, s, s.tasks[t]) && s' == RunTask(c, s, t, s.tasks[t], QUIET)
    ensures Alone(c, s, t, 1) == s'
  {
    assert Alone(c, s', t, 0) == s';
  }

  /** One step that leaves the store, the slots and the pool alone. */
  lemma PlainStep(c: Config, from: State, s: State, t: TaskId, task: Task)
    requires task.Retrieval? && (task.phase.ReadMeta? || task.phase.CheckClock?) && Ready(c, s, task)
    requires Stands(c, from, s, t, task)
    ensures Stands(c, from, Alone(c, s, t, 1), t, Next(c, s, task, QUIET))
  {
    var s' := RunTask(c, s, t, task, QUIET);
    OneStep(c, s, t, s');
    var next := Next(c, s, task, QUIET);
    assert s'.tasks == s.tasks[t := next] == from.tasks[t := next];
  }

  /** Halfway through the pool: granted a permit, and still counted as waiting. */
  ghost predicate IsGranted(c: Config, from: State, s: State, t: TaskId, task: Task)
    requires task.Retrieval?
  {
    Stands(c, from.(waiting := from.waiting + 1, freePermits := from.freePermits - 1), s, t, task.(phase := Verify(Granted)))
  }

  lemma IntoThePool(c: Config, from: State, s: State, t: TaskId, task: Task)
    requires task.Retrieval? && task.phase == Verify(Joining) && task.note.Dated? && Stands(c, from, s, t, task)
    requires from.waiting < c.maxWaiting && from.freePermits > 0
    ensures IsGranted(c, from, Alone(c, s, t, 2), t, task)
  {
    var queued := task.(phase := Verify(Queued(s.waiting)));
    var s1 := RunTask(c, s, t, task, QUIET);
    assert s1 == s.(waiting := s.waiting + 1, tasks := s.tasks[t := queued]);
    OneStep(c, s, t, s1);
    var s2 := RunTask(c, s1, t, queued, QUIET);
    assert s2.tasks == from.tasks[t := task.(phase := Verify(Granted))];
    OneStep(c, s1, t, s2);
    AloneThen(c, s, t, 1, 1);
  }

  lemma OutOfThePool(c: Config, from: State, s: State, t: TaskId, task: Task)
    requires task.Retrieval? && task.note.Dated? && IsGranted(c, from, s, t, task)
    ensures var meta := task.note.meta;
            var matched := c.verify(task.pin, meta.pinSalt, meta.pinVerifier);
            Stands(c, from, Alone(c, s, t, 2), t,
                   task.(note := Judged(meta, task.note.at, matched, Uncharged), phase := if matched then ConsumeRow else RecordWrong))
  {
    var granted, hashing := task.(phase := Verify(Granted)), task.(phase := Verify(Hashing));
    var s1 := RunTask(c, s, t, granted, QUIET);
    assert s1.tasks == from.tasks[t := hashing];
    OneStep(c, s, t, s1);
    var s2 := RunTask(c, s1, t, hashing, QUIET);
    assert s2.tasks == from.tasks[t := s2.tasks[t]];
    OneStep(c, s1, t, s2);
    AloneThen(c, s, t, 1, 1);
  }

  /** The row's fate is recorded in the history; nothing else of the service changes. */
  ghost predicate OnlyStored(from: State, to: State, store: Contents) {
    to == from.(store := store, births := to.births, fates := to.fates)
  }

  /** What the store call makes of the store, and what the client is told. */
  function Concluded(c: Config, store: Contents, task: Task): (Contents, Outcome)
    requires task.Retrieval? && CallsStore(task) && WellPhased(task) && Holds(store, task.id, task.note.meta.generation)
  {
    var g := task.note.meta.generation;
    if task.phase.RemoveRow? then (Remove(store, task.id, g).0, Unavailable)
    else if task.phase.RecordWrong? then (RecordFailure(store, task.id, g, c.maxAttempts).0, WrongPin)
    else (Consume(store, task.id, g).0, Released(store.rows[task.id].blob))
  }

  /** The one step that changes the store. */
  lemma StoreStep(c: Config, from: State, s: State, t: TaskId, task: Task) returns (to: State, next: Task)
    requires task.Retrieval? && CallsStore(task) && WellPhased(task) && Stands(c, from, s, t, task)
    requires Holds(from.store, task.id, task.note.meta.generation)
    ensures var (store, outcome) := Concluded(c, from.store, task);
            OnlyStored(from, to, store) && next.Retrieval? && next.id == task.id && next.phase == Unlock(outcome)
    ensures Stands(c, to, Alone(c, s, t, 1), t, next)
  {
    var s1 := RunTask(c, s, t, task, QUIET);
    OneStep(c, s, t, s1);
    next := After(c, s, task, QUIET);
    to := from.(store := s1.store, births := s1.births, fates := s1.fates);
    assert s1.tasks == from.tasks[t := next];
  }

  /** The answer is given, and what the retrieval held is free again. */
  ghost predicate Answered(from: State, s: State, t: TaskId, outcome: Outcome) {
    && t in s.tasks && s.tasks[t].Retrieval? && s.tasks[t].phase == Done(outcome)
    && s == from.(slots := from.slots + 1, tasks := from.tasks[t := s.tasks[t]])
  }

  lemma UnlockAndLeave(c: Config, from: State, s: State, t: TaskId, task: Task, outcome: Outcome, n: nat)
    requires task.Retrieval? && task.phase == Unlock(outcome) && Stands(c, from, s, t, task)
    requires c.stripe(task.id) !in from.locks && n >= 2
    ensures Answered(from, Alone(c, s, t, n), t, outcome) && Alone(c, s, t, n).tasks[t] == task.(phase := Done(outcome))
  {
    var leaving, done := task.(phase := Leave(outcome)), task.(phase := Done(outcome));
    var s1 := RunTask(c, s, t, task, QUIET);
    assert s1.locks == from.locks && s1.tasks == from.tasks[t := leaving];
    OneStep(c, s, t, s1);
    var s2 := RunTask(c, s1, t, leaving, QUIET);
    assert s2.tasks == from.tasks[t := done];
    OneStep(c, s1, t, s2);
    AloneThen(c, s, t, 1, 1);
    AloneThen(c, s, t, 2, n - 2);
    Stuck(c, s2, t, n - 2);
  }

  lemma StoreAndAnswer(c: Config, from: State, s: State, t: TaskId, task: Task, n: nat) returns (to: State)
    requires task.Retrieval? && CallsStore(task) && WellPhased(task) && Stands(c, from, s, t, task)
    requires Holds(from.store, task.id, task.note.meta.generation)
    requires c.stripe(task.id) !in from.locks && n >= 3
    ensures var (store, outcome) := Concluded(c, from.store, task);
            OnlyStored(from, to, store) && Answered(to, Alone(c, s, t, n), t, outcome)
  {
    var next;
    to, next := StoreStep(c, from, s, t, task);
    AloneThen(c, s, t, 1, n - 1);
    UnlockAndLeave(c, to, Alone(c, s, t, 1), t, next, Concluded(c, from.store, task).1, n - 1);
  }

  /** From the noted clock reading to the answer. */
  lemma FromTheClock(c: Config, from: State, s: State, t: TaskId, task: Task, n: nat) returns (to: State)
    requires task.Retrieval? && task.phase.CheckClock? && task.note.Read? && Stands(c, from, s, t, task)
    requires task.id in from.store.rows && from.store.rows[task.id].meta == task.note.meta
    requires c.stripe(task.id) !in from.locks && from.waiting < c.maxWaiting && from.freePermits > 0 && n >= 8
    ensures var (store, outcome) := Retrieve(c, from.store, from.clock, task.id, task.pin);
            OnlyStored(from, to, store) && Answered(to, Alone(c, s, t, n), t, outcome)
  {
    PlainStep(c, from, s, t, task);
    var s1, dated := Alone(c, s, t, 1), Next(c, s, task, QUIET);
    AloneThen(c, s, t, 1, n - 1);
    if dated.phase.RemoveRow? {
      to := StoreAndAnswer(c, from, s1, t, dated, n - 1);
    } else {
      IntoThePool(c, from, s1, t, dated);
      var s2 := Alone(c, s1, t, 2);
      AloneThen(c, s1, t, 2, n - 3);
      OutOfThePool(c, from, s2, t, dated);
      AloneThen(c, s2, t, 2, n - 5);
      var s3 := Alone(c, s2, t, 2);
      to := StoreAndAnswer(c, from, s3, t, s3.tasks[t], n - 5);
    }
  }

  /** An undisturbed retrieval answers and changes the store as one indivisible operation at the
      clock's time, and gives back its slot, its lock and its permit. In particular, the right PIN
      before the expiry is handed the blob. */
  lemma UndisturbedRetrieval(c: Config, s: State, t: TaskId, id: Id, pin: string) returns (to: State)
    requires t !in s.tasks && s.slots > 0 && c.stripe(id) !in s.locks && s.waiting < c.maxWaiting && s.freePermits > 0
    ensures var (store, outcome) := Retrieve(c, s.store, s.clock, id, pin);
            && IsRetrieved(c, s.store, s.clock, id, pin, store, outcome)
            && OnlyStored(s.(slots := s.slots - 1), to, store)
            && Answered(to, Alone(c, Apply(c, s, RetrieveArrives(t, id, pin)), t, 10), t, outcome)
  {
    RetrieveIsSpelled(c, s.store, s.clock, id, pin);
    var from := s.(slots := s.slots - 1);
    var task := Retrieval(id, pin, Unread, AwaitStripe);
    var s0 := Apply(c, s, RetrieveArrives(t, id, pin));
    var reading := task.(phase := ReadMeta);
    var s1 := RunTask(c, s0, t, task, QUIET);
    OneStep(c, s0, t, s1);
    assert s1.tasks == from.tasks[t := reading];
    assert Stands(c, from, s1, t, reading);
    AloneThen(c, s0, t, 1, 9);
    PlainStep(c, from, s1, t, reading);
    AloneThen(c, s1, t, 1, 8);
    var s2, read := Alone(c, s1, t, 1), Next(c, s1, reading, QUIET);
    if id in s.store.rows {
      to := FromTheClock(c, from, s2, t, read, 8);
    } else {
      to := from;
      UnlockAndLeave(c, from, s2, t, read, Unavailable, 8);
    }
  }
}
