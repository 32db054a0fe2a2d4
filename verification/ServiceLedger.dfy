/** What every reachable state of the service keeps: generations are never reused, every row
    that was ever stored is either still there or met exactly one fate, and no task believes
    anything about a row that was not so. */
module ServiceLedger {
  import opened Records
  import opened Service

  /** The same row, whatever has been counted against it. */
  predicate SameRow(a: Entry, b: Entry) {
    a.blob == b.blob && a.protocolVersion == b.protocolVersion
    && a.meta.(failedAttempts := 0) == b.meta.(failedAttempts := 0)
  }

  /** Rows and history agree: generations 1 to the last were each born once, a stored row is the
      one born under its generation, and a generation has a fate exactly when it is gone. */
  ghost predicate HistoryOk(store: Contents, births: map<nat, Birth>, fates: map<nat, Fate>) {
    && (forall g :: g in births <==> 1 <= g <= store.lastGeneration)
    && (forall id <- store.rows :: var g := store.rows[id].meta.generation;
                                   g in births && births[g].id == id && SameRow(births[g].entry, store.rows[id]))
    && (forall g <- births :: births[g].entry.meta.generation == g && births[g].entry.meta.failedAttempts == 0)
    && (forall g <- fates :: g in births)
    && (forall g <- births :: Alive(births, store, g) <==> g !in fates)
  }

  predicate Past(phase: RetrievalPhase) { phase.Unlock? || phase.Leave? || phase.Done? }

  function OutcomeOf(phase: RetrievalPhase): Outcome
    requires Past(phase)
  {
    match phase
    case Unlock(o) => o
    case Leave(o) => o
    case Done(o) => o
  }

  /** Task `t` judged generation `g` with this verdict and is done with the store. */
  predicate Settled(tasks: map<TaskId, Task>, t: TaskId, g: nat, matched: bool) {
    && t in tasks && tasks[t].Retrieval? && tasks[t].note.Judged?
    && tasks[t].note.meta.generation == g && tasks[t].note.matched == matched
    && Past(tasks[t].phase)
  }

  predicate FateOk(births: map<nat, Birth>, tasks: map<TaskId, Task>, g: nat, fate: Fate) {
    g in births
    && match fate
       case Consumed(t) => Settled(tasks, t, g, true)
       case BurnedBy(t) => Settled(tasks, t, g, false) && tasks[t].note.charge.Charged?
       case ExpiredAt(now, _) => births[g].entry.meta.IsExpiredAt(now)
  }

  /** The metadata is that of a row born under this id. */
  predicate MetaOk(births: map<nat, Birth>, id: Id, meta: Meta) {
    && meta.generation in births
    && births[meta.generation].id == id
    && births[meta.generation].entry.meta == meta.(failedAttempts := 0)
  }

  predicate RetrievalOk(c: Config, births: map<nat, Birth>, fates: map<nat, Fate>, t: TaskId, task: Task)
    requires task.Retrieval?
  {
    var Retrieval(id, pin, note, phase) := task;
    && (HasMeta(note) ==> MetaOk(births, id, note.meta))
    && (Past(phase) && OutcomeOf(phase).Released? ==> note.Judged?)
    && match note
       case Unread => phase.AwaitStripe? || phase.ReadMeta? || Past(phase)
       case Read(_) => phase.CheckClock?
       case Dated(meta, at) =>
         && (phase.RemoveRow? || phase.Verify? || Past(phase))
         && (phase.RemoveRow? ==> meta.IsExpiredAt(at))
         && (phase.Verify? ==> !meta.IsExpiredAt(at))
       case Judged(meta, at, matched, charge) =>
         && !meta.IsExpiredAt(at)
         && matched == c.verify(pin, meta.pinSalt, meta.pinVerifier)
         && (phase.RecordWrong? || phase.ConsumeRow? || Past(phase))
         && (phase.RecordWrong? ==> !matched)
         && (phase.ConsumeRow? ==> matched)
         && (charge.Uncharged? <==> matched || phase.RecordWrong?)
         && (Past(phase) && OutcomeOf(phase).Released? ==>
               && meta.generation in fates && fates[meta.generation] == Consumed(t)
               && OutcomeOf(phase).blob == births[meta.generation].entry.blob)
  }

  predicate CreationOk(c: Config, task: Task)
    requires task.Creation?
  {
    && (task.step.ReadClock? ==> task.step.verifier == c.hash(task.pin, task.salt))
    && (task.step.InsertRow? ==> task.step.verifier == c.hash(task.pin, task.salt))
  }

  predicate TaskOk(c: Config, births: map<nat, Birth>, fates: map<nat, Fate>, t: TaskId, task: Task) {
    && WellPhased(task)
    && match task
       case Retrieval(_, _, _, _) => RetrievalOk(c, births, fates, t, task)
       case Creation(_, _, _, _, _) => CreationOk(c, task)
       case Sweeping(_) => true
  }

  /** A row carries the blob its creation sent and the hash of its creation's PIN. */
  predicate BirthOk(c: Config, tasks: map<TaskId, Task>, birth: Birth) {
    && birth.who in tasks && tasks[birth.who].Creation?
    && birth.entry.blob == tasks[birth.who].blob
    && birth.entry.meta.pinSalt == tasks[birth.who].salt
    && birth.entry.meta.pinVerifier == c.hash(tasks[birth.who].pin, tasks[birth.who].salt)
  }

  ghost predicate FatesOk(births: map<nat, Birth>, tasks: map<TaskId, Task>, fates: map<nat, Fate>) {
    forall g <- fates :: FateOk(births, tasks, g, fates[g])
  }

  ghost predicate TasksOk(c: Config, births: map<nat, Birth>, fates: map<nat, Fate>, tasks: map<TaskId, Task>) {
    forall t <- tasks :: TaskOk(c, births, fates, t, tasks[t])
  }

  ghost predicate BirthsOk(c: Config, tasks: map<TaskId, Task>, births: map<nat, Birth>) {
    forall g <- births :: BirthOk(c, tasks, births[g])
  }

  ghost predicate LedgerInv(c: Config, s: State) {
    && HistoryOk(s.store, s.births, s.fates)
    && FatesOk(s.births, s.tasks, s.fates)
    && TasksOk(c, s.births, s.fates, s.tasks)
    && BirthsOk(c, s.tasks, s.births)
  }

  // ---------------------------------------------------------------- store changes and history

  /** Rows may go and their failure counts may change; nothing else does. */
  ghost predicate Shrinks(a: Contents, b: Contents) {
    && a.lastGeneration == b.lastGeneration
    && forall id <- b.rows :: id in a.rows && SameRow(a.rows[id], b.rows[id])
  }

  lemma CommitKeepsHistory(s: State, store: Contents, fate: Fate)
    requires HistoryOk(s.store, s.births, s.fates) && Shrinks(s.store, store)
    ensures var s' := Commit(s, store, fate);
            && HistoryOk(s'.store, s'.births, s'.fates)
            && (forall g <- s.fates :: g in s'.fates && s'.fates[g] == s.fates[g])
  {
    forall g <- s.births ensures Alive(s.births, store, g) ==> Alive(s.births, s.store, g) {
      if Alive(s.births, store, g) {
        assert SameRow(s.store.rows[s.births[g].id], store.rows[s.births[g].id]);
      }
    }
  }

  lemma BirthKeepsHistory(s: State, m: NewMessage, t: TaskId)
    requires HistoryOk(s.store, s.births, s.fates) && m.id !in s.store.rows
    ensures s.store.lastGeneration + 1 !in s.births
    ensures var g := s.store.lastGeneration + 1;
            HistoryOk(Put(s.store, s.store.rows, m), s.births[g := Birth(m.id, NewEntry(m, g), t)], s.fates)
  {
    var g := s.store.lastGeneration + 1;
    assert g !in s.births;
    var births := s.births[g := Birth(m.id, NewEntry(m, g), t)];
    var store := Put(s.store, s.store.rows, m);
    forall h <- s.births ensures Alive(births, store, h) == Alive(s.births, s.store, h) {
      assert births[h] == s.births[h];
    }
    assert Alive(births, store, g) && g !in s.fates;
  }

  // ---------------------------------------------------------------- one step

  /** A task's move takes back nothing history relies on. */
  predicate Continues(from: Task, to: Task) {
    && (from.Creation? ==> to.Creation? && to.blob == from.blob && to.pin == from.pin && to.salt == from.salt && to.ttl == from.ttl)
    && (from.Retrieval? && from.note.Judged? && Past(from.phase) ==>
          to.Retrieval? && to.note == from.note && Past(to.phase))
  }

  lemma FatesMove(births: map<nat, Birth>, tasks: map<TaskId, Task>, fates: map<nat, Fate>, died: map<nat, Fate>, t: TaskId, task: Task)
    requires FatesOk(births, tasks, fates) && FatesOk(births, tasks[t := task], died)
    requires t in tasks ==> Continues(tasks[t], task)
    ensures FatesOk(births, tasks[t := task], fates + died)
  {
    forall g <- fates ensures FateOk(births, tasks[t := task], g, fates[g]) {
      assert FateOk(births, tasks, g, fates[g]);
    }
  }

  lemma TasksMove(c: Config, births: map<nat, Birth>, tasks: map<TaskId, Task>, fates: map<nat, Fate>, more: map<nat, Fate>, t: TaskId, task: Task)
    requires TasksOk(c, births, fates, tasks) && TaskOk(c, births, more, t, task)
    requires forall g <- fates :: g in more && more[g] == fates[g]
    ensures TasksOk(c, births, more, tasks[t := task])
  {
    forall u <- tasks ensures u != t ==> TaskOk(c, births, more, u, tasks[u]) {
      MoreFatesTaskOk(c, births, fates, more, u, tasks[u]);
    }
  }

  lemma MoreFatesTaskOk(c: Config, births: map<nat, Birth>, fates: map<nat, Fate>, more: map<nat, Fate>, t: TaskId, task: Task)
    requires TaskOk(c, births, fates, t, task)
    requires forall g <- fates :: g in more && more[g] == fates[g]
    ensures TaskOk(c, births, more, t, task)
  {
  }

  lemma BirthsMove(c: Config, tasks: map<TaskId, Task>, births: map<nat, Birth>, t: TaskId, task: Task)
    requires BirthsOk(c, tasks, births) && (t in tasks ==> Continues(tasks[t], task))
    ensures BirthsOk(c, tasks[t := task], births)
  {
    forall g <- births ensures BirthOk(c, tasks[t := task], births[g]) {
      assert BirthOk(c, tasks, births[g]);
    }
  }

  /** The one way a step changes what the ledger speaks of: the store shrinks, whatever died in
      it meets `fate`, and one task moves on. */
  lemma LedgerMove(c: Config, s: State, store: Contents, fate: Fate, t: TaskId, task: Task, s': State)
    requires LedgerInv(c, s) && Shrinks(s.store, store)
    requires t in s.tasks ==> Continues(s.tasks[t], task)
    requires s'.store == store && s'.births == s.births && s'.fates == s.fates + Died(s, store, fate)
    requires s'.tasks == s.tasks[t := task]
    requires TaskOk(c, s.births, s'.fates, t, task)
    requires FatesOk(s.births, s'.tasks, Died(s, store, fate))
    ensures LedgerInv(c, s')
  {
    CommitKeepsHistory(s, store, fate);
    FatesMove(s.births, s.tasks, s.fates, Died(s, store, fate), t, task);
    TasksMove(c, s.births, s.tasks, s.fates, s'.fates, t, task);
    BirthsMove(c, s.tasks, s.births, t, task);
  }

  /** A step that leaves the store alone. */
  lemma LedgerStill(c: Config, s: State, t: TaskId, task: Task, s': State)
    requires LedgerInv(c, s)
    requires t in s.tasks ==> Continues(s.tasks[t], task)
    requires s'.store == s.store && s'.births == s.births && s'.fates == s.fates && s'.tasks == s.tasks[t := task]
    requires TaskOk(c, s.births, s.fates, t, task)
    ensures LedgerInv(c, s')
  {
    var fate := ExpiredAt(0, t);
    assert Died(s, s.store, fate) == map[];
    assert s.fates + Died(s, s.store, fate) == s.fates;
    LedgerMove(c, s, s.store, fate, t, task, s');
  }

  /** Only the row under `id` can die when the call removes no other. */
  lemma DiesAlone(s: State, store: Contents, id: Id, fate: Fate, g: nat)
    requires HistoryOk(s.store, s.births, s.fates)
    requires forall other :: other != id && other in s.store.rows ==> other in store.rows && store.rows[other] == s.store.rows[other]
    requires g in Died(s, store, fate)
    ensures Holds(s.store, id, g) && s.births[g].id == id
  {
  }

  lemma TaskAt(c: Config, s: State, t: TaskId)
    requires LedgerInv(c, s) && t in s.tasks
    ensures TaskOk(c, s.births, s.fates, t, s.tasks[t])
  {
  }

  // ---------------------------------------------------------------- steps that leave the store alone

  lemma StoredMetaOk(c: Config, s: State, id: Id)
    requires LedgerInv(c, s) && id in s.store.rows
    ensures MetaOk(s.births, id, s.store.rows[id].meta)
  {
    assert SameRow(s.births[s.store.rows[id].meta.generation].entry, s.store.rows[id]);
  }

  lemma NextOk(c: Config, s: State, t: TaskId, task: Task, choice: Choice)
    requires TaskOk(c, s.births, s.fates, t, task) && !Finished(task) && !CallsStore(task)
    requires task.Retrieval? && task.id in s.store.rows ==> MetaOk(s.births, task.id, s.store.rows[task.id].meta)
    ensures TaskOk(c, s.births, s.fates, t, Next(c, s, task, choice))
    ensures Continues(task, Next(c, s, task, choice))
  {
  }

  lemma QuietFrame(c: Config, s: State, t: TaskId, task: Task, choice: Choice)
    requires WellPhased(task) && !Finished(task) && !CallsStore(task)
    ensures var s' := RunTask(c, s, t, task, choice);
            && s'.store == s.store && s'.births == s.births && s'.fates == s.fates
            && s'.tasks == s.tasks[t := Next(c, s, task, choice)]
  {
  }

  lemma QuietKeepsLedger(c: Config, s: State, t: TaskId, task: Task, choice: Choice)
    requires LedgerInv(c, s) && t in s.tasks && s.tasks[t] == task && WellPhased(task)
    requires !Finished(task) && !CallsStore(task)
    ensures LedgerInv(c, RunTask(c, s, t, task, choice))
  {
    TaskAt(c, s, t);
    if task.Retrieval? && task.id in s.store.rows {
      StoredMetaOk(c, s, task.id);
    }
    NextOk(c, s, t, task, choice);
    QuietFrame(c, s, t, task, choice);
    LedgerStill(c, s, t, Next(c, s, task, choice), RunTask(c, s, t, task, choice));
  }

  // ---------------------------------------------------------------- steps that call the store

  lemma RowRemovedOk(c: Config, s: State, fates: map<nat, Fate>, t: TaskId, task: Task, choice: Choice)
    requires task.Retrieval? && task.phase.RemoveRow? && task.note.Dated?
    requires TaskOk(c, s.births, s.fates, t, task)
    ensures TaskOk(c, s.births, fates, t, RemovedRow(s, task, choice))
    ensures Continues(task, RemovedRow(s, task, choice))
    ensures Shrinks(s.store, Settle(choice.fault, s.store, Remove(s.store, task.id, task.note.meta.generation)).0)
  {
  }

  lemma ExpiredByItsReader(c: Config, s: State, t: TaskId, task: Task, choice: Choice, h: nat)
    requires HistoryOk(s.store, s.births, s.fates)
    requires task.Retrieval? && task.phase.RemoveRow? && task.note.Dated? && TaskOk(c, s.births, s.fates, t, task)
    requires var store := Settle(choice.fault, s.store, Remove(s.store, task.id, task.note.meta.generation)).0;
             h in Died(s, store, ExpiredAt(task.note.at, t))
    ensures FateOk(s.births, s.tasks, h, ExpiredAt(task.note.at, t))
  {
    var store := Settle(choice.fault, s.store, Remove(s.store, task.id, task.note.meta.generation)).0;
    DiesAlone(s, store, task.id, ExpiredAt(task.note.at, t), h);
  }

  lemma RemoveRowKeepsLedger(c: Config, s: State, t: TaskId, task: Task, choice: Choice)
    requires LedgerInv(c, s) && t in s.tasks && s.tasks[t] == task
    requires task.Retrieval? && task.phase.RemoveRow? && task.note.Dated?
    ensures LedgerInv(c, Moved(RemovesRow(s, t, task, choice), t, RemovedRow(s, task, choice)))
  {
    TaskAt(c, s, t);
    var store := Settle(choice.fault, s.store, Remove(s.store, task.id, task.note.meta.generation)).0;
    var fate := ExpiredAt(task.note.at, t);
    var task' := RemovedRow(s, task, choice);
    var s' := Moved(RemovesRow(s, t, task, choice), t, task');
    forall h <- Died(s, store, fate) ensures FateOk(s.births, s'.tasks, h, fate) {
      ExpiredByItsReader(c, s, t, task, choice, h);
    }
    RowRemovedOk(c, s, s'.fates, t, task, choice);
    LedgerMove(c, s, store, fate, t, task', s');
  }

  lemma WrongRecordedOk(c: Config, s: State, fates: map<nat, Fate>, t: TaskId, task: Task, choice: Choice)
    requires task.Retrieval? && task.phase.RecordWrong? && task.note.Judged?
    requires TaskOk(c, s.births, s.fates, t, task)
    ensures TaskOk(c, s.births, fates, t, WrongRecorded(c, s, task, choice))
    ensures Continues(task, WrongRecorded(c, s, task, choice))
    ensures Shrinks(s.store, Settle(choice.fault, s.store,
                                    RecordFailure(s.store, task.id, task.note.meta.generation, c.maxAttempts)).0)
  {
  }

  lemma BurnedByItsCharger(c: Config, s: State, t: TaskId, task: Task, choice: Choice, h: nat)
    requires HistoryOk(s.store, s.births, s.fates)
    requires task.Retrieval? && task.note.Judged? && !task.note.matched
    requires var store := Settle(choice.fault, s.store, RecordFailure(s.store, task.id, task.note.meta.generation, c.maxAttempts)).0;
             h in Died(s, store, BurnedBy(t))
    ensures FateOk(s.births, s.tasks[t := WrongRecorded(c, s, task, choice)], h, BurnedBy(t))
  {
    var store := Settle(choice.fault, s.store, RecordFailure(s.store, task.id, task.note.meta.generation, c.maxAttempts)).0;
    DiesAlone(s, store, task.id, BurnedBy(t), h);
    assert Holds(s.store, task.id, task.note.meta.generation);
  }

  lemma RecordWrongKeepsLedger(c: Config, s: State, t: TaskId, task: Task, choice: Choice)
    requires LedgerInv(c, s) && t in s.tasks && s.tasks[t] == task
    requires task.Retrieval? && task.phase.RecordWrong? && task.note.Judged?
    ensures LedgerInv(c, Moved(RecordsWrong(c, s, t, task, choice), t, WrongRecorded(c, s, task, choice)))
  {
    TaskAt(c, s, t);
    var store := Settle(choice.fault, s.store, RecordFailure(s.store, task.id, task.note.meta.generation, c.maxAttempts)).0;
    var task' := WrongRecorded(c, s, task, choice);
    var s' := Moved(RecordsWrong(c, s, t, task, choice), t, task');
    forall h <- Died(s, store, BurnedBy(t)) ensures FateOk(s.births, s'.tasks, h, BurnedBy(t)) {
      BurnedByItsCharger(c, s, t, task, choice, h);
    }
    WrongRecordedOk(c, s, s'.fates, t, task, choice);
    LedgerMove(c, s, store, BurnedBy(t), t, task', s');
  }

  lemma RowConsumedOk(c: Config, s: State, t: TaskId, task: Task, choice: Choice)
    requires HistoryOk(s.store, s.births, s.fates)
    requires task.Retrieval? && task.phase.ConsumeRow? && task.note.Judged?
    requires TaskOk(c, s.births, s.fates, t, task)
    ensures TaskOk(c, s.births, ConsumesRow(s, t, task, choice).fates, t, RowConsumed(s, task, choice))
    ensures Continues(task, RowConsumed(s, task, choice))
    ensures Shrinks(s.store, Settle(choice.fault, s.store, Consume(s.store, task.id, task.note.meta.generation)).0)
  {
    var g := task.note.meta.generation;
    if Holds(s.store, task.id, g) {
      assert SameRow(s.births[g].entry, s.store.rows[task.id]);
    }
  }

  lemma ConsumedByItsTaker(s: State, t: TaskId, task: Task, choice: Choice, h: nat)
    requires HistoryOk(s.store, s.births, s.fates)
    requires task.Retrieval? && task.note.Judged? && task.note.matched
    requires h in Died(s, Settle(choice.fault, s.store, Consume(s.store, task.id, task.note.meta.generation)).0, Consumed(t))
    ensures FateOk(s.births, s.tasks[t := RowConsumed(s, task, choice)], h, Consumed(t))
  {
    var store := Settle(choice.fault, s.store, Consume(s.store, task.id, task.note.meta.generation)).0;
    DiesAlone(s, store, task.id, Consumed(t), h);
    assert Holds(s.store, task.id, task.note.meta.generation);
  }

  lemma ConsumeRowKeepsLedger(c: Config, s: State, t: TaskId, task: Task, choice: Choice)
    requires LedgerInv(c, s) && t in s.tasks && s.tasks[t] == task
    requires task.Retrieval? && task.phase.ConsumeRow? && task.note.Judged?
    ensures LedgerInv(c, Moved(ConsumesRow(s, t, task, choice), t, RowConsumed(s, task, choice)))
  {
    TaskAt(c, s, t);
    var store := Settle(choice.fault, s.store, Consume(s.store, task.id, task.note.meta.generation)).0;
    var task' := RowConsumed(s, task, choice);
    var s' := Moved(ConsumesRow(s, t, task, choice), t, task');
    forall h <- Died(s, store, Consumed(t)) ensures FateOk(s.births, s'.tasks, h, Consumed(t)) {
      ConsumedByItsTaker(s, t, task, choice, h);
    }
    RowConsumedOk(c, s, t, task, choice);
    LedgerMove(c, s, store, Consumed(t), t, task', s');
  }

  /** A sweep, or the sweep inside an insert: whatever went was past its time. */
  lemma ClearedKeepsLedger(c: Config, s: State, t: TaskId, now: Time, room: Contents, task: Task)
    requires LedgerInv(c, s) && t in s.tasks && !task.Retrieval?
    requires Shrinks(s.store, room)
    requires forall id <- s.store.rows :: Holds(room, id, s.store.rows[id].meta.generation) || s.store.rows[id].meta.IsExpiredAt(now)
    requires TaskOk(c, s.births, s.fates, t, task) && Continues(s.tasks[t], task)
    ensures LedgerInv(c, Moved(Commit(s, room, ExpiredAt(now, t)), t, task))
  {
    var fate := ExpiredAt(now, t);
    var s' := Moved(Commit(s, room, fate), t, task);
    forall h <- Died(s, room, fate) ensures FateOk(s.births, s'.tasks, h, fate) {
      assert SameRow(s.births[h].entry, s.store.rows[s.births[h].id]);
    }
    LedgerMove(c, s, room, fate, t, task, s');
  }

  /** An accepted insert first makes room, where all that goes was expired, and then adds its row. */
  lemma InsertMakesRoom(store: Contents, caps: Caps, m: NewMessage, now: Time) returns (room: Contents)
    requires Insert(store, caps, m, now).1.Ok?
    ensures room.lastGeneration == store.lastGeneration && m.id !in room.rows
    ensures Insert(store, caps, m, now).0 == Put(room, room.rows, m)
    ensures Shrinks(store, room) && forall id <- room.rows :: room.rows[id] == store.rows[id]
    ensures forall id <- store.rows :: Holds(room, id, store.rows[id].meta.generation) || store.rows[id].meta.IsExpiredAt(now)
  {
    var freed := if m.id in store.rows && store.rows[m.id].meta.IsExpiredAt(now) then store.rows - {m.id} else store.rows;
    room := Contents(if Admits(freed, |m.blob|, caps) then freed else Unexpired(freed, now), store.lastGeneration);
  }

  lemma MoreBirthsTaskOk(c: Config, births: map<nat, Birth>, more: map<nat, Birth>, fates: map<nat, Fate>, t: TaskId, task: Task)
    requires TaskOk(c, births, fates, t, task)
    requires forall g <- births :: g in more && more[g] == births[g]
    ensures TaskOk(c, more, fates, t, task)
  {
  }

  /** The state after an accepted insert: room is made, and then a row is born. */
  function BornInto(mid: State, room: Contents, m: NewMessage, t: TaskId): State {
    var g := room.lastGeneration + 1;
    mid.(store := Put(room, room.rows, m), births := mid.births[g := Birth(m.id, NewEntry(m, g), t)])
  }

  /** Adding a row under the next generation keeps the ledger, and brings nothing dead back. */
  lemma BirthKeepsLedger(c: Config, s: State, m: NewMessage, t: TaskId)
    requires LedgerInv(c, s) && m.id !in s.store.rows
    requires t in s.tasks && s.tasks[t].Creation?
    requires m.blob == s.tasks[t].blob && m.pinSalt == s.tasks[t].salt
    requires m.pinVerifier == c.hash(s.tasks[t].pin, s.tasks[t].salt)
    ensures LedgerInv(c, BornInto(s, s.store, m, t))
  {
    BirthKeepsHistory(s, m, t);
    OneMoreBirth(c, s, s.store.lastGeneration + 1, Birth(m.id, NewEntry(m, s.store.lastGeneration + 1), t));
  }

  lemma OneMoreBirth(c: Config, s: State, g: nat, birth: Birth)
    requires FatesOk(s.births, s.tasks, s.fates) && TasksOk(c, s.births, s.fates, s.tasks) && BirthsOk(c, s.tasks, s.births)
    requires BirthOk(c, s.tasks, birth) && g !in s.births
    ensures var more := s.births[g := birth];
            FatesOk(more, s.tasks, s.fates) && TasksOk(c, more, s.fates, s.tasks) && BirthsOk(c, s.tasks, more)
  {
    var more := s.births[g := birth];
    forall h <- s.fates ensures FateOk(more, s.tasks, h, s.fates[h]) {
      assert FateOk(s.births, s.tasks, h, s.fates[h]);
    }
    forall u <- s.tasks ensures TaskOk(c, more, s.fates, u, s.tasks[u]) {
      MoreBirthsTaskOk(c, s.births, more, s.fates, u, s.tasks[u]);
    }
  }

  lemma SameDead(s: State, room: Contents, m: NewMessage, fate: Fate)
    requires HistoryOk(s.store, s.births, s.fates)
    requires m.id !in room.rows && room.lastGeneration == s.store.lastGeneration
    ensures Died(s, Put(room, room.rows, m), fate) == Died(s, room, fate)
  {
    var store := Put(room, room.rows, m);
    forall h <- s.births ensures Alive(s.births, room, h) <==> Alive(s.births, store, h) {
      assert h <= s.store.lastGeneration;
    }
  }

  lemma RowInsertedOk(c: Config, s: State, t: TaskId, task: Task, choice: Choice)
    requires task.Creation? && task.step.InsertRow? && TaskOk(c, s.births, s.fates, t, task)
    ensures var task' := RowInserted(c, s, task, choice);
            TaskOk(c, s.births, s.fates, t, task') && Continues(task, task') && task'.Creation?
  {
  }

  lemma BornAfterRoom(s: State, t: TaskId, m: NewMessage, fate: Fate, room: Contents, task: Task)
    requires HistoryOk(s.store, s.births, s.fates)
    requires m.id !in room.rows && room.lastGeneration == s.store.lastGeneration
    ensures Moved(Born(Commit(s, Put(room, room.rows, m), fate), s.store, m.id, t), t, task)
         == BornInto(Moved(Commit(s, room, fate), t, task), room, m, t)
  {
    SameDead(s, room, m, fate);
  }

  lemma AcceptedKeepsLedger(c: Config, s: State, t: TaskId, m: NewMessage, now: Time, task: Task)
    requires LedgerInv(c, s) && t in s.tasks && task.Creation?
    requires Insert(s.store, c.caps, m, now).1.Ok?
    requires TaskOk(c, s.births, s.fates, t, task) && Continues(s.tasks[t], task)
    requires m.blob == task.blob && m.pinSalt == task.salt && m.pinVerifier == c.hash(task.pin, task.salt)
    ensures var store := Insert(s.store, c.caps, m, now).0;
            LedgerInv(c, Moved(Born(Commit(s, store, ExpiredAt(now, t)), s.store, m.id, t), t, task))
  {
    var room := InsertMakesRoom(s.store, c.caps, m, now);
    ClearedKeepsLedger(c, s, t, now, room, task);
    BirthKeepsLedger(c, Moved(Commit(s, room, ExpiredAt(now, t)), t, task), m, t);
    BornAfterRoom(s, t, m, ExpiredAt(now, t), room, task);
  }

  /** An insert is a removal of expired rows, and then perhaps a birth. */
  lemma InsertRowKeepsLedger(c: Config, s: State, t: TaskId, task: Task, choice: Choice)
    requires LedgerInv(c, s) && t in s.tasks && s.tasks[t] == task
    requires task.Creation? && task.step.InsertRow? && WellPhased(task)
    ensures LedgerInv(c, Moved(InsertsRow(c, s, t, task, choice), t, RowInserted(c, s, task, choice)))
  {
    TaskAt(c, s, t);
    var m, now := MessageOf(task, choice.id), task.step.now;
    var call := Insert(s.store, c.caps, m, now);
    var task' := RowInserted(c, s, task, choice);
    RowInsertedOk(c, s, t, task, choice);
    if call.1.Ok? && !choice.fault.BeforeCommit? {
      AcceptedKeepsLedger(c, s, t, m, now, task');
    } else {
      InsertKeepsUnexpiredRows(s.store, c.caps, m, now);
      ClearedKeepsLedger(c, s, t, now, Settle(choice.fault, s.store, call).0, task');
    }
  }

  lemma CallKeepsLedger(c: Config, s: State, t: TaskId, task: Task, choice: Choice)
    requires LedgerInv(c, s) && t in s.tasks && s.tasks[t] == task && WellPhased(task)
    requires !Finished(task) && CallsStore(task)
    ensures LedgerInv(c, RunTask(c, s, t, task, choice))
  {
    if task.Retrieval? {
      match task.phase
      case RemoveRow => RemoveRowKeepsLedger(c, s, t, task, choice);
      case RecordWrong => RecordWrongKeepsLedger(c, s, t, task, choice);
      case ConsumeRow => ConsumeRowKeepsLedger(c, s, t, task, choice);
    } else if task.Creation? {
      if choice.ok {
        InsertRowKeepsLedger(c, s, t, task, choice);
      } else {
        LedgerStill(c, s, t, task.(step := Ended(Refused)), RunTask(c, s, t, task, choice));
      }
    } else {
      var now := task.stage.now;
      ClearedKeepsLedger(c, s, t, now, Settle(choice.fault, s.store, Sweep(s.store, now)).0, Sweeping(Swept));
    }
  }

  // ---------------------------------------------------------------- every event

  lemma ArrivalKeepsLedger(c: Config, s: State, t: TaskId, task: Task, s': State)
    requires LedgerInv(c, s) && t !in s.tasks
    requires s' == Moved(s.(slots := s'.slots), t, task)
    requires match task
             case Retrieval(_, _, note, phase) => note.Unread? && (phase.AwaitStripe? || phase == Done(Busy))
             case Creation(_, _, _, _, step) => step == Hash(Joining)
             case Sweeping(stage) => stage.ReadNow?
    ensures LedgerInv(c, s')
  {
    LedgerStill(c, s, t, task, s');
  }

  lemma AbandonKeepsLedger(c: Config, s: State, t: TaskId)
    requires LedgerInv(c, s) && t in s.tasks && Abandonable(c, s.tasks[t])
    ensures LedgerInv(c, Abandoned(s, t, s.tasks[t]))
  {
    TaskAt(c, s, t);
    var s' := Abandoned(s, t, s.tasks[t]);
    LedgerStill(c, s, t, s'.tasks[t], s');
  }

  lemma LedgerStep(c: Config, s: State, e: Event)
    requires LedgerInv(c, s) && Enabled(c, s, e)
    ensures LedgerInv(c, Apply(c, s, e))
  {
    match e
    case Tick(_) =>
    case Run(t, choice) =>
      var task := s.tasks[t];
      if CallsStore(task) {
        CallKeepsLedger(c, s, t, task, choice);
      } else {
        QuietKeepsLedger(c, s, t, task, choice);
      }
    case Abandon(t) => AbandonKeepsLedger(c, s, t);
    case RetrieveArrives(t, id, pin) =>
      ArrivalKeepsLedger(c, s, t, Retrieval(id, pin, Unread, if s.slots > 0 then AwaitStripe else Done(Busy)), Apply(c, s, e));
    case CreateArrives(t, blob, pin, salt, ttl) =>
      ArrivalKeepsLedger(c, s, t, Creation(blob, pin, salt, ttl, Hash(Joining)), Apply(c, s, e));
    case SweepArrives(t) => ArrivalKeepsLedger(c, s, t, Sweeping(ReadNow), Apply(c, s, e));
  }
}
