/** Wrong PINs. A live row's failure count is the number of wrong PINs charged to it; because
    one stripe spans reading the row, judging the PIN and recording the verdict, no more than
    the limit can ever be judged wrong, apart from those a storage fault lost. */
module ServiceAttempts {
  import opened Records
  import opened Service
  import opened ServiceCounts
  import opened ServiceLedger
  import opened ServicePool

  function Failures(s: State, g: nat): nat
    requires Alive(s.births, s.store, g)
  {
    s.store.rows[s.births[g].id].meta.failedAttempts
  }

  /** Wrong PINs charged to `g`, those that found it gone, and the retrieval still at work on it. */
  function Tally(tasks: map<TaskId, Task>, g: nat): nat {
    Count(tasks, IsCharged(g)) + Count(tasks, IsMissed(g)) + Count(tasks, Engaged(g))
  }

  ghost predicate AttemptsOk(c: Config, s: State, g: nat) {
    if g !in s.births then true
    else if Alive(s.births, s.store, g) then
      && Failures(s, g) == Count(s.tasks, IsCharged(g)) < c.maxAttempts
      && Count(s.tasks, IsMissed(g)) == 0
    else
      g in s.fates
      && match s.fates[g]
         case Consumed(_) => Tally(s.tasks, g) < c.maxAttempts
         case BurnedBy(_) => Tally(s.tasks, g) == Count(s.tasks, IsCharged(g)) == c.maxAttempts
         case ExpiredAt(_, _) => Tally(s.tasks, g) <= c.maxAttempts
  }

  ghost predicate AttemptsInv(c: Config, s: State) {
    forall g: nat :: AttemptsOk(c, s, g)
  }

  // ---------------------------------------------------------------- what the counts obey

  /** Two retrievals never work on the same row at once: they would hold the same stripe. */
  lemma EngagedOnce(c: Config, s: State, g: nat)
    requires LedgerInv(c, s) && LocksInv(c, s)
    ensures Count(s.tasks, Engaged(g)) <= 1
  {
    forall t, u | t in s.tasks && u in s.tasks && Has(s.tasks[t], Engaged(g)) && Has(s.tasks[u], Engaged(g))
      ensures t == u
    {
      TaskAt(c, s, t);
      TaskAt(c, s, u);
      assert s.tasks[t].id == s.births[g].id == s.tasks[u].id;
    }
    AtMostOne(s.tasks, Engaged(g));
  }

  lemma EngagedAlone(c: Config, s: State, g: nat, t: TaskId)
    requires LedgerInv(c, s) && LocksInv(c, s)
    requires t in s.tasks && Has(s.tasks[t], Engaged(g))
    ensures Count(s.tasks, Engaged(g)) == 1
  {
    EngagedOnce(c, s, g);
    assert t in Those(s.tasks, Engaged(g));
  }

  /** Nobody has judged or reached a generation not yet given out. */
  lemma UnbornUncounted(c: Config, s: State, g: nat)
    requires LedgerInv(c, s) && g !in s.births
    ensures Count(s.tasks, IsCharged(g)) == Count(s.tasks, IsMissed(g)) == Count(s.tasks, Engaged(g)) == 0
  {
    forall t <- s.tasks ensures s.tasks[t].Retrieval? && HasMeta(s.tasks[t].note) ==> s.tasks[t].note.meta.generation != g {
      TaskAt(c, s, t);
    }
    assert Those(s.tasks, IsCharged(g)) == {} && Those(s.tasks, IsMissed(g)) == {} && Those(s.tasks, Engaged(g)) == {};
  }

  lemma TallyMoved(s: State, t: TaskId, task: Task, g: nat)
    requires t in s.tasks
    ensures var tasks := s.tasks[t := task];
            && Count(tasks, IsCharged(g)) == Count(s.tasks, IsCharged(g)) - One(Has(s.tasks[t], IsCharged(g))) + One(Has(task, IsCharged(g)))
            && Count(tasks, IsMissed(g)) == Count(s.tasks, IsMissed(g)) - One(Has(s.tasks[t], IsMissed(g))) + One(Has(task, IsMissed(g)))
            && Count(tasks, Engaged(g)) == Count(s.tasks, Engaged(g)) - One(Has(s.tasks[t], Engaged(g))) + One(Has(task, Engaged(g)))
  {
    CountMoved(s.tasks, t, task, IsCharged(g));
    CountMoved(s.tasks, t, task, IsMissed(g));
    CountMoved(s.tasks, t, task, Engaged(g));
  }

  /** Every wrong PIN was charged, lost to a fault, or found the row gone, or is yet to be recorded. */
  lemma WrongAccountedFor(c: Config, s: State, g: nat)
    requires LedgerInv(c, s)
    ensures Count(s.tasks, IsWrong(g)) <= Tally(s.tasks, g) + Count(s.tasks, IsLost(g))
  {
    var charged, missed := Those(s.tasks, IsCharged(g)), Those(s.tasks, IsMissed(g));
    var engaged, lost := Those(s.tasks, Engaged(g)), Those(s.tasks, IsLost(g));
    var all := charged + missed + engaged + lost;
    forall t <- Those(s.tasks, IsWrong(g)) ensures t in all {
      WrongIsSettledOrEngaged(c, s, t, g);
    }
    assert all == Those(s.tasks, IsWrong(g)) + (all - Those(s.tasks, IsWrong(g)));
    SizeOfUnion(charged, missed);
    SizeOfUnion(charged + missed, engaged);
    SizeOfUnion(charged + missed + engaged, lost);
  }

  lemma WrongIsSettledOrEngaged(c: Config, s: State, t: TaskId, g: nat)
    requires LedgerInv(c, s) && t in s.tasks && Has(s.tasks[t], IsWrong(g))
    ensures Has(s.tasks[t], IsCharged(g)) || Has(s.tasks[t], IsMissed(g)) || Has(s.tasks[t], IsLost(g)) || Has(s.tasks[t], Engaged(g))
  {
    TaskAt(c, s, t);
  }

  lemma SizeOfUnion(a: set<TaskId>, b: set<TaskId>)
    ensures |a + b| <= |a| + |b|
  {
    assert a + b == a + (b - a);
    assert b == (b - a) + (b * a);
  }

  // ---------------------------------------------------------------- one step, one generation

  ghost predicate Good(c: Config, s: State) {
    LedgerInv(c, s) && LocksInv(c, s)
  }

  /** Neither history nor the row of `g` changed, and no task gained on it. */
  lemma AttemptsStill(c: Config, s: State, g: nat, s': State)
    requires g in s.births && AttemptsOk(c, s, g)
    requires g in s'.births && Alive(s'.births, s'.store, g) == Alive(s.births, s.store, g)
    requires Alive(s.births, s.store, g) ==> Failures(s', g) == Failures(s, g)
    requires g in s.fates ==> g in s'.fates && s'.fates[g] == s.fates[g]
    requires Count(s'.tasks, IsCharged(g)) == Count(s.tasks, IsCharged(g))
    requires Count(s'.tasks, IsMissed(g)) == Count(s.tasks, IsMissed(g))
    requires Alive(s.births, s.store, g) || Count(s'.tasks, Engaged(g)) <= Count(s.tasks, Engaged(g))
    ensures AttemptsOk(c, s', g)
  {
  }

  lemma NextQualities(c: Config, s: State, t: TaskId, task: Task, choice: Choice, g: nat)
    requires TaskOk(c, s.births, s.fates, t, task) && !Finished(task) && !CallsStore(task)
    ensures var task' := Next(c, s, task, choice);
            && Has(task', IsCharged(g)) == Has(task, IsCharged(g))
            && Has(task', IsMissed(g)) == Has(task, IsMissed(g))
            && (Has(task', Engaged(g)) && !Has(task, Engaged(g)) ==>
                  task.Retrieval? && Holds(s.store, task.id, g))
  {
  }

  lemma QuietKeepsAttempts(c: Config, s: State, t: TaskId, task: Task, choice: Choice, g: nat)
    requires Good(c, s) && AttemptsOk(c, s, g) && t in s.tasks && s.tasks[t] == task && Ready(c, s, task) && !CallsStore(task)
    requires g in s.births
    ensures AttemptsOk(c, RunTask(c, s, t, task, choice), g)
  {
    var task' := Next(c, s, task, choice);
    var s' := RunTask(c, s, t, task, choice);
    TallyMoved(s, t, task', g);
    TaskAt(c, s, t);
    NextQualities(c, s, t, task, choice, g);
    if task.Retrieval? && Holds(s.store, task.id, g) {
      StoredMetaOk(c, s, task.id);
    }
    QuietFrame(c, s, t, task, choice);
    AttemptsStill(c, s, g, s');
  }

  /** A call on the row under `id` leaves every other generation as it was. */
  lemma OtherRow(s: State, store: Contents, fate: Fate, id: Id, g: nat)
    requires HistoryOk(s.store, s.births, s.fates) && g in s.births && !Holds(s.store, id, g)
    requires forall other <- s.store.rows :: other != id ==> other in store.rows && store.rows[other] == s.store.rows[other]
    requires Shrinks(s.store, store)
    ensures var s' := Commit(s, store, fate);
            && Alive(s'.births, s'.store, g) == Alive(s.births, s.store, g)
            && (Alive(s.births, s.store, g) ==> Failures(s', g) == Failures(s, g))
            && (g in s.fates ==> g in s'.fates && s'.fates[g] == s.fates[g])
  {
    var home := s.births[g].id;
    if home == id && id in store.rows {
      assert SameRow(s.store.rows[id], store.rows[id]);
    }
  }

  lemma CallQualities(c: Config, s: State, t: TaskId, task: Task, choice: Choice, g: nat)
    requires WellPhased(task) && task.Retrieval? && CallsStore(task) && TaskOk(c, s.births, s.fates, t, task)
    ensures var task' := After(c, s, task, choice);
            var mine := task.note.meta.generation == g;
            var held := Holds(s.store, task.id, g);
            && Has(task, Engaged(g)) == mine && !Has(task', Engaged(g))
            && !Has(task, IsCharged(g)) && !Has(task, IsMissed(g))
            && Has(task', IsCharged(g)) == (mine && task.phase.RecordWrong? && held && !choice.fault.BeforeCommit?)
            && Has(task', IsMissed(g)) == (mine && task.phase.RecordWrong? && !held)
  {
  }

  /** The call a retrieval makes: the store it leaves and the fate it gives to what it removes. */
  ghost function CallOf(c: Config, s: State, t: TaskId, task: Task, fault: Fault): (Contents, Fate)
    requires WellPhased(task) && task.Retrieval? && CallsStore(task)
  {
    var g := task.note.meta.generation;
    if task.phase.RemoveRow? then (Settle(fault, s.store, Remove(s.store, task.id, g)).0, ExpiredAt(task.note.at, t))
    else if task.phase.RecordWrong? then
      (Settle(fault, s.store, RecordFailure(s.store, task.id, g, c.maxAttempts)).0, BurnedBy(t))
    else (Settle(fault, s.store, Consume(s.store, task.id, g)).0, Consumed(t))
  }

  lemma CallCommits(c: Config, s: State, t: TaskId, task: Task, choice: Choice)
    requires WellPhased(task) && task.Retrieval? && CallsStore(task)
    ensures var (store, fate) := CallOf(c, s, t, task, choice.fault);
            Touched(c, s, t, task, choice) == Commit(s, store, fate)
  {
  }

  /** It changes nothing but the row it read, and nothing at all if that row is gone. */
  lemma CallStaysHome(c: Config, s: State, t: TaskId, task: Task, fault: Fault)
    requires WellPhased(task) && task.Retrieval? && CallsStore(task)
    ensures var (store, _) := CallOf(c, s, t, task, fault);
            && Shrinks(s.store, store)
            && (forall other <- s.store.rows :: other != task.id ==> other in store.rows && store.rows[other] == s.store.rows[other])
            && (!Holds(s.store, task.id, task.note.meta.generation) ==> store == s.store)
  {
  }

  /** What the call of a retrieval does to the row it read. */
  lemma CallOnOwnRow(c: Config, s: State, t: TaskId, task: Task, choice: Choice, g: nat)
    requires HistoryOk(s.store, s.births, s.fates) && g in s.births
    requires WellPhased(task) && task.Retrieval? && CallsStore(task) && MetaOk(s.births, task.id, task.note.meta)
    requires task.note.meta.generation == g && Alive(s.births, s.store, g)
    ensures var s' := Touched(c, s, t, task, choice);
            var failures := Failures(s, g) + (if task.phase.RecordWrong? then 1 else 0);
            if choice.fault.BeforeCommit? then Alive(s'.births, s'.store, g) && Failures(s', g) == Failures(s, g)
            else if task.phase.RecordWrong? && failures < c.maxAttempts then
              Alive(s'.births, s'.store, g) && Failures(s', g) == failures
            else
              && !Alive(s'.births, s'.store, g) && g in s'.fates
              && s'.fates[g] == (if task.phase.RemoveRow? then ExpiredAt(task.note.at, t)
                                 else if task.phase.RecordWrong? then BurnedBy(t) else Consumed(t))
  {
    CallCommits(c, s, t, task, choice);
  }

  lemma CallOnOtherRow(c: Config, s: State, t: TaskId, task: Task, choice: Choice, g: nat)
    requires HistoryOk(s.store, s.births, s.fates) && g in s.births
    requires WellPhased(task) && task.Retrieval? && CallsStore(task)
    requires MetaOk(s.births, task.id, task.note.meta)
    requires task.note.meta.generation != g || !Alive(s.births, s.store, g)
    ensures var s' := Touched(c, s, t, task, choice);
            && s'.births == s.births
            && Alive(s'.births, s'.store, g) == Alive(s.births, s.store, g)
            && (Alive(s.births, s.store, g) ==> Failures(s', g) == Failures(s, g))
            && (g in s.fates ==> g in s'.fates && s'.fates[g] == s.fates[g])
  {
    var (store, fate) := CallOf(c, s, t, task, choice.fault);
    CallCommits(c, s, t, task, choice);
    CallStaysHome(c, s, t, task, choice.fault);
    if Holds(s.store, task.id, task.note.meta.generation) {
      OtherRow(s, store, fate, task.id, g);
    }
  }

  lemma OwnCallKeepsAttempts(c: Config, s: State, t: TaskId, task: Task, choice: Choice, g: nat)
    requires Good(c, s) && AttemptsOk(c, s, g) && t in s.tasks && s.tasks[t] == task && Ready(c, s, task) && CallsStore(task) && task.Retrieval?
    requires g in s.births && task.note.meta.generation == g
    ensures AttemptsOk(c, RunTask(c, s, t, task, choice), g)
  {
    TaskAt(c, s, t);
    CallQualities(c, s, t, task, choice, g);
    TallyMoved(s, t, After(c, s, task, choice), g);
    EngagedAlone(c, s, g, t);
    if Alive(s.births, s.store, g) {
      CallOnOwnRow(c, s, t, task, choice, g);
    } else {
      CallOnOtherRow(c, s, t, task, choice, g);
    }
  }

  lemma OtherCallKeepsAttempts(c: Config, s: State, t: TaskId, task: Task, choice: Choice, g: nat)
    requires Good(c, s) && AttemptsOk(c, s, g) && t in s.tasks && s.tasks[t] == task && Ready(c, s, task) && CallsStore(task) && task.Retrieval?
    requires g in s.births && task.note.meta.generation != g
    ensures AttemptsOk(c, RunTask(c, s, t, task, choice), g)
  {
    TaskAt(c, s, t);
    CallQualities(c, s, t, task, choice, g);
    TallyMoved(s, t, After(c, s, task, choice), g);
    CallOnOtherRow(c, s, t, task, choice, g);
    AttemptsStill(c, s, g, RunTask(c, s, t, task, choice));
  }

  // ---------------------------------------------------------------- creations and sweeps

  lemma BystanderCounts(s: State, t: TaskId, task: Task, g: nat)
    requires t in s.tasks ==> !s.tasks[t].Retrieval?
    requires !task.Retrieval? || task.note.Unread?
    ensures var tasks := s.tasks[t := task];
            && Count(tasks, IsCharged(g)) == Count(s.tasks, IsCharged(g))
            && Count(tasks, IsMissed(g)) == Count(s.tasks, IsMissed(g))
            && Count(tasks, Engaged(g)) == Count(s.tasks, Engaged(g))
  {
    CountMoved(s.tasks, t, task, IsCharged(g));
    CountMoved(s.tasks, t, task, IsMissed(g));
    CountMoved(s.tasks, t, task, Engaged(g));
  }

  /** Rows that stay keep their failure counts; rows that go were expired. */
  ghost predicate Clears(a: Contents, b: Contents) {
    && Shrinks(a, b)
    && forall id <- b.rows :: b.rows[id] == a.rows[id]
  }

  /** All a step that is not a retrieval's needs to know about generation `g`. */
  ghost predicate Known(c: Config, s: State, g: nat) {
    && HistoryOk(s.store, s.births, s.fates)
    && AttemptsOk(c, s, g)
    && Count(s.tasks, Engaged(g)) <= 1
    && (g !in s.births ==> Tally(s.tasks, g) == 0)
  }

  lemma KnownOf(c: Config, s: State, g: nat)
    requires Good(c, s) && AttemptsOk(c, s, g)
    ensures Known(c, s, g)
  {
    EngagedOnce(c, s, g);
    if g !in s.births {
      UnbornUncounted(c, s, g);
    }
  }

  lemma ClearedKeepsAttempts(c: Config, s: State, room: Contents, now: Time, t: TaskId, task: Task, g: nat)
    requires Known(c, s, g) && t in s.tasks && !s.tasks[t].Retrieval? && !task.Retrieval?
    requires Clears(s.store, room) && g in s.births
    ensures AttemptsOk(c, Moved(Commit(s, room, ExpiredAt(now, t)), t, task), g)
  {
    var s' := Moved(Commit(s, room, ExpiredAt(now, t)), t, task);
    BystanderCounts(s, t, task, g);
    if Alive(s.births, s.store, g) == Alive(s.births, room, g) {
      AttemptsStill(c, s, g, s');
    }
  }

  lemma BirthKeepsAttempts(c: Config, s: State, m: NewMessage, t: TaskId, g: nat)
    requires AttemptsOk(c, s, g) && g <= s.store.lastGeneration && m.id !in s.store.rows
    ensures AttemptsOk(c, BornInto(s, s.store, m, t), g)
  {
  }

  lemma NewbornAttempts(c: Config, s: State, m: NewMessage, t: TaskId)
    requires c.maxAttempts > 0
    requires var g := s.store.lastGeneration + 1;
             Count(s.tasks, IsCharged(g)) == Count(s.tasks, IsMissed(g)) == 0
    ensures AttemptsOk(c, BornInto(s, s.store, m, t), s.store.lastGeneration + 1)
  {
  }

  lemma RoomThenBirthKeepsAttempts(c: Config, s: State, room: Contents, m: NewMessage, now: Time, t: TaskId, task: Task, g: nat)
    requires Known(c, s, g) && t in s.tasks && !s.tasks[t].Retrieval? && !task.Retrieval? && c.maxAttempts > 0
    requires Clears(s.store, room) && m.id !in room.rows
    requires g in s.births || g == s.store.lastGeneration + 1
    ensures AttemptsOk(c, BornInto(Moved(Commit(s, room, ExpiredAt(now, t)), t, task), room, m, t), g)
  {
    var mid := Moved(Commit(s, room, ExpiredAt(now, t)), t, task);
    if g in s.births {
      ClearedKeepsAttempts(c, s, room, now, t, task, g);
      BirthKeepsAttempts(c, mid, m, t, g);
    } else {
      BystanderCounts(s, t, task, g);
      NewbornAttempts(c, mid, m, t);
    }
  }

  lemma AcceptedKeepsAttempts(c: Config, s: State, m: NewMessage, now: Time, t: TaskId, task: Task, g: nat)
    requires Known(c, s, g) && t in s.tasks && !s.tasks[t].Retrieval? && !task.Retrieval? && c.maxAttempts > 0
    requires Insert(s.store, c.caps, m, now).1.Ok?
    requires g in s.births || g == s.store.lastGeneration + 1
    ensures var store := Insert(s.store, c.caps, m, now).0;
            AttemptsOk(c, Moved(Born(Commit(s, store, ExpiredAt(now, t)), s.store, m.id, t), t, task), g)
  {
    var room := InsertMakesRoom(s.store, c.caps, m, now);
    BornAfterRoom(s, t, m, ExpiredAt(now, t), room, task);
    RoomThenBirthKeepsAttempts(c, s, room, m, now, t, task, g);
  }

  lemma InsertKeepsAttempts(c: Config, s: State, t: TaskId, task: Task, choice: Choice, g: nat)
    requires Known(c, s, g) && t in s.tasks && s.tasks[t] == task && WellPhased(task)
    requires task.Creation? && task.step.InsertRow? && c.maxAttempts > 0
    requires g in InsertsRow(c, s, t, task, choice).births
    ensures AttemptsOk(c, Moved(InsertsRow(c, s, t, task, choice), t, RowInserted(c, s, task, choice)), g)
  {
    var m, now := MessageOf(task, choice.id), task.step.now;
    var call := Insert(s.store, c.caps, m, now);
    var task' := RowInserted(c, s, task, choice);
    if call.1.Ok? && !choice.fault.BeforeCommit? {
      AcceptedKeepsAttempts(c, s, m, now, t, task', g);
    } else {
      InsertKeepsUnexpiredRows(s.store, c.caps, m, now);
      ClearedKeepsAttempts(c, s, Settle(choice.fault, s.store, call).0, now, t, task', g);
    }
  }

  lemma BystanderKeepsAttempts(c: Config, s: State, t: TaskId, task: Task, choice: Choice, g: nat)
    requires Known(c, s, g) && t in s.tasks && s.tasks[t] == task && Ready(c, s, task) && CallsStore(task) && !task.Retrieval?
    requires c.maxAttempts > 0 && g in RunTask(c, s, t, task, choice).births
    ensures AttemptsOk(c, RunTask(c, s, t, task, choice), g)
  {
    if task.Sweeping? {
      var now := task.stage.now;
      ClearedKeepsAttempts(c, s, Settle(choice.fault, s.store, Sweep(s.store, now)).0, now, t, Sweeping(Swept), g);
    } else if choice.ok {
      InsertKeepsAttempts(c, s, t, task, choice, g);
    } else {
      OthersKeepAttempts(c, s, t, task.(step := Ended(Refused)), RunTask(c, s, t, task, choice), g);
    }
  }

  lemma RunKeepsAttempts(c: Config, s: State, t: TaskId, task: Task, choice: Choice, g: nat)
    requires Good(c, s) && AttemptsOk(c, s, g) && t in s.tasks && s.tasks[t] == task && Ready(c, s, task)
    requires c.maxAttempts > 0 && g in RunTask(c, s, t, task, choice).births
    ensures AttemptsOk(c, RunTask(c, s, t, task, choice), g)
  {
    if !CallsStore(task) {
      QuietKeepsAttempts(c, s, t, task, choice, g);
    } else if task.Retrieval? {
      if task.note.meta.generation == g {
        OwnCallKeepsAttempts(c, s, t, task, choice, g);
      } else {
        OtherCallKeepsAttempts(c, s, t, task, choice, g);
      }
    } else {
      KnownOf(c, s, g);
      BystanderKeepsAttempts(c, s, t, task, choice, g);
    }
  }

  lemma OthersKeepAttempts(c: Config, s: State, t: TaskId, task: Task, s': State, g: nat)
    requires AttemptsOk(c, s, g) && (t in s.tasks ==> !s.tasks[t].Retrieval?)
    requires !task.Retrieval? || task.note.Unread?
    requires s'.tasks == s.tasks[t := task] && s'.store == s.store && s'.births == s.births && s'.fates == s.fates
    requires g in s.births
    ensures AttemptsOk(c, s', g)
  {
    BystanderCounts(s, t, task, g);
    AttemptsStill(c, s, g, s');
  }

  lemma ArrivalKeepsAttempts(c: Config, s: State, e: Event, g: nat)
    requires AttemptsOk(c, s, g) && Enabled(c, s, e) && !e.Run?
    ensures AttemptsOk(c, Apply(c, s, e), g)
  {
    var s' := Apply(c, s, e);
    if g in s.births {
      match e
      case Tick(_) => AttemptsStill(c, s, g, s');
      case Abandon(t) => OthersKeepAttempts(c, s, t, s'.tasks[t], s', g);
      case RetrieveArrives(t, id, pin) =>
        OthersKeepAttempts(c, s, t, Retrieval(id, pin, Unread, if s.slots > 0 then AwaitStripe else Done(Busy)), s', g);
      case CreateArrives(t, blob, pin, salt, ttl) =>
        OthersKeepAttempts(c, s, t, Creation(blob, pin, salt, ttl, Hash(Joining)), s', g);
      case SweepArrives(t) => OthersKeepAttempts(c, s, t, Sweeping(ReadNow), s', g);
    }
  }

  lemma AttemptsStep(c: Config, s: State, e: Event)
    requires LedgerInv(c, s) && LocksInv(c, s) && AttemptsInv(c, s) && Enabled(c, s, e) && c.maxAttempts > 0
    ensures AttemptsInv(c, Apply(c, s, e))
  {
    forall g: nat ensures AttemptsOk(c, Apply(c, s, e), g) {
      assert AttemptsOk(c, s, g);
      if e.Run? {
        if g in Apply(c, s, e).births {
          RunKeepsAttempts(c, s, e.t, s.tasks[e.t], e.choice, g);
        }
      } else {
        ArrivalKeepsAttempts(c, s, e, g);
      }
    }
  }
}
