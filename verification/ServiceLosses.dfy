/** What storage faults cost: runs in which wrong PINs are judged that no row ever counted. They show
    that the bound on wrong PINs is reached, for every limit and every number of lost attempts. */
module ServiceLosses {
  import opened Basics
  import opened Records
  import opened Service
  import opened ServiceCounts
  import opened ServiceLedger
  import opened ServiceRuns
  import opened ServiceAlone
  import Creating = ServiceCreationAlone

  // ---------------------------------------------------------------- reachable states

  ghost predicate Reaches(c: Config, s: State) {
    exists states, events :: IsRun(c, states, events) && states[|states| - 1] == s
  }

  lemma ReachesInit(c: Config)
    ensures Reaches(c, Init(c))
  {
    assert IsRun(c, [Init(c)], []);
  }

  lemma ReachesMore(c: Config, s: State, e: Event)
    requires Reaches(c, s) && Enabled(c, s, e)
    ensures Reaches(c, Apply(c, s, e))
  {
    var states, events :| IsRun(c, states, events) && states[|states| - 1] == s;
    var s' := Apply(c, s, e);
    RunMore(c, states, events, e, s');
    assert (states + [s'])[|states|] == s';
  }

  lemma RunMore(c: Config, states: seq<State>, events: seq<Event>, e: Event, s': State)
    requires IsRun(c, states, events) && Enabled(c, states[|states| - 1], e) && s' == Apply(c, states[|states| - 1], e)
    ensures IsRun(c, states + [s'], events + [e])
  {
    var longer, more := states + [s'], events + [e];
    forall i | 0 <= i < |more| ensures Enabled(c, longer[i], more[i]) && longer[i + 1] == Apply(c, longer[i], more[i]) {
      if i < |events| {
        assert longer[i] == states[i] && longer[i + 1] == states[i + 1] && more[i] == events[i];
      }
    }
  }

  lemma {:induction false} ReachesAlone(c: Config, s: State, t: TaskId, n: nat)
    requires Reaches(c, s)
    ensures Reaches(c, Alone(c, s, t, n))
    decreases n
  {
    if n > 0 && t in s.tasks && Ready(c, s, s.tasks[t]) {
      ReachesMore(c, s, Run(t, QUIET));
      ReachesAlone(c, RunTask(c, s, t, s.tasks[t], QUIET), t, n - 1);
    }
  }

  lemma {:induction false} ReachesAloneWith(c: Config, s: State, t: TaskId, choices: seq<Choice>)
    requires Reaches(c, s)
    ensures Reaches(c, Creating.AloneWith(c, s, t, choices))
    decreases |choices|
  {
    if choices != [] && t in s.tasks && Ready(c, s, s.tasks[t]) {
      ReachesMore(c, s, Run(t, choices[0]));
      ReachesAloneWith(c, RunTask(c, s, t, s.tasks[t], choices[0]), t, choices[1..]);
    }
  }

  // ---------------------------------------------------------------- one message and its guesser

  /** A message, the PIN it was created with and one that its verifier refuses. */
  datatype Setting = Setting(c: Config, pin: string, guess: string, salt: string, blob: Bytes)

  /** The service has room for the message and for one retrieval at a time. */
  ghost predicate Possible(p: Setting) {
    && p.c.permits > 0 && p.c.maxWaiting > 0 && p.c.maxAttempts > 0
    && p.c.caps.maxMessages > 0 && |p.blob| <= p.c.caps.maxBytes
    && !p.c.verify(p.guess, p.salt, p.c.hash(p.pin, p.salt))
  }

  const MESSAGE: Id := ""

  function MetaWith(p: Setting, failures: nat): Meta { Meta(1, p.salt, p.c.hash(p.pin, p.salt), 1, failures) }

  ghost predicate IsIdle(c: Config, s: State) {
    s.locks == map[] && s.slots == c.permits + c.maxWaiting && s.waiting == 0 && s.freePermits == c.permits && s.clock == 0
  }

  /** Nobody is at work; `failures` wrong guesses were counted and `lost` were rolled back. */
  ghost predicate AtRest(p: Setting, s: State, failures: nat, lost: nat) {
    && Reaches(p.c, s) && IsIdle(p.c, s) && s.store.lastGeneration == 1
    && (failures < p.c.maxAttempts ==> MESSAGE in s.store.rows && s.store.rows[MESSAGE].meta == MetaWith(p, failures))
    && (forall t <- s.tasks :: t <= failures + lost)
    && Count(s.tasks, IsLost(1)) == lost && Count(s.tasks, IsWrong(1)) == failures + lost
  }

  /** The message is created. */
  lemma Created(p: Setting) returns (s: State)
    requires Possible(p)
    ensures AtRest(p, s, 0, 0)
  {
    var s1 := Hashed(p);
    var c, verifier := p.c, p.c.hash(p.pin, p.salt);
    var task := Creation(p.blob, p.pin, p.salt, 1, InsertRow(verifier, 0, MAX_ID_ATTEMPTS, false));
    s := RunTask(c, s1, 0, task, QUIET);
    ReachesMore(c, s1, Run(0, QUIET));
    var m := MessageOf(task, MESSAGE);
    assert Admits(map[], |p.blob|, c.caps);
    assert Insert(EMPTY, c.caps, m, 0) == (Put(EMPTY, map[], m), Ok(()));
    assert s.store == Put(EMPTY, map[], m);
    assert s.tasks.Keys == {0} && s.tasks[0].Creation?;
    assert Those(s.tasks, IsLost(1)) == {} && Those(s.tasks, IsWrong(1)) == {};
  }

  /** Its PIN was hashed and the clock was read. */
  lemma Hashed(p: Setting) returns (s: State)
    requires Possible(p)
    ensures Reaches(p.c, s)
    ensures Creating.IsAt(Init(p.c), s, 0, Creation(p.blob, p.pin, p.salt, 1, InsertRow(p.c.hash(p.pin, p.salt), 0, MAX_ID_ATTEMPTS, false)))
  {
    var c, arrives := p.c, CreateArrives(0, p.blob, p.pin, p.salt, 1);
    ReachesInit(c);
    ReachesMore(c, Init(c), arrives);
    ReachesAloneWith(c, Apply(c, Init(c), arrives), 0, Creating.FIVE);
    Creating.ToTheInsertion(c, Init(c), 0, p.blob, p.pin, p.salt, 1);
    s := Creating.AloneWith(c, Apply(c, Init(c), arrives), 0, Creating.FIVE);
  }

  // ---------------------------------------------------------------- a wrong guess that is counted

  /** Whoever is told the PIN was wrong, when there was only ever one message, is charged to it. */
  lemma ChargedToIt(c: Config, s: State, t: TaskId)
    requires Reaches(c, s) && s.store.lastGeneration == 1 && c.maxAttempts > 0 && t in s.tasks && SaysWrong(s.tasks[t])
    ensures Has(s.tasks[t], IsWrong(1)) && !Has(s.tasks[t], IsLost(1))
  {
    ReachedSaysWrong(c, s, t);
    OnlyGeneration(c, s, t);
  }

  lemma ReachedSaysWrong(c: Config, s: State, t: TaskId)
    requires Reaches(c, s) && c.maxAttempts > 0 && t in s.tasks && SaysWrong(s.tasks[t])
    ensures var note := s.tasks[t].note; note.Judged? && !note.matched && note.charge.Charged?
    ensures LedgerInv(c, s)
  {
    var states, events :| IsRun(c, states, events) && states[|states| - 1] == s;
    var _ := AnsweredWrongIsCommitted(c, states, events, |states| - 1, t);
    LedgerAt(c, states, events, |states| - 1);
  }

  lemma OnlyGeneration(c: Config, s: State, t: TaskId)
    requires LedgerInv(c, s) && s.store.lastGeneration == 1
    requires t in s.tasks && s.tasks[t].Retrieval? && HasMeta(s.tasks[t].note)
    ensures s.tasks[t].note.meta.generation == 1
  {
    TaskAt(c, s, t);
    assert s.tasks[t].note.meta.generation in s.births;
  }

  lemma OneMore(p: Setting, s: State, t: TaskId, tasks: map<TaskId, Task>, failures: nat, lost: nat, loses: bool)
    requires AtRest(p, s, failures, lost) && t == failures + lost + 1
    requires t in tasks && tasks == s.tasks[t := tasks[t]] && Has(tasks[t], IsWrong(1)) && Has(tasks[t], IsLost(1)) == loses
    ensures forall u <- tasks :: u <= failures + lost + 1
    ensures Count(tasks, IsLost(1)) == lost + One(loses) && Count(tasks, IsWrong(1)) == failures + lost + 1
  {
    CountMoved(s.tasks, t, tasks[t], IsLost(1));
    CountMoved(s.tasks, t, tasks[t], IsWrong(1));
  }

  lemma Counts(p: Setting, s: State, failures: nat, lost: nat) returns (s': State)
    requires Possible(p) && AtRest(p, s, failures, lost) && failures < p.c.maxAttempts
    ensures AtRest(p, s', failures + 1, lost)
  {
    var c, t := p.c, failures + lost + 1;
    var arrived := Apply(c, s, RetrieveArrives(t, MESSAGE, p.guess));
    ReachesMore(c, s, RetrieveArrives(t, MESSAGE, p.guess));
    ReachesAlone(c, arrived, t, 10);
    var to := UndisturbedRetrieval(c, s, t, MESSAGE, p.guess);
    s' := Alone(c, arrived, t, 10);
    assert s'.store == RecordFailure(s.store, MESSAGE, 1, c.maxAttempts).0;
    ChargedToIt(c, s', t);
    OneMore(p, s, t, s'.tasks, failures, lost, false);
  }

  // ---------------------------------------------------------------- a wrong guess that is lost

  /** Seven undisturbed steps up to recording that the PIN was wrong. */
  lemma UpToTheVerdict(p: Setting, s: State, failures: nat, lost: nat) returns (from: State, s': State, task: Task)
    requires Possible(p) && AtRest(p, s, failures, lost) && failures < p.c.maxAttempts
    ensures from == s.(slots := s.slots - 1) && Reaches(p.c, s')
    ensures task == Retrieval(MESSAGE, p.guess, Judged(MetaWith(p, failures), 0, false, Uncharged), RecordWrong)
    ensures Stands(p.c, from, s', failures + lost + 1, task)
  {
    var c, t := p.c, failures + lost + 1;
    from := s.(slots := s.slots - 1);
    var waiting := Retrieval(MESSAGE, p.guess, Unread, AwaitStripe);
    var reading := waiting.(phase := ReadMeta);
    var read := reading.(note := Read(MetaWith(p, failures)), phase := CheckClock);
    var dated := read.(note := Dated(MetaWith(p, failures), 0), phase := Verify(Joining));
    var s0 := Apply(c, s, RetrieveArrives(t, MESSAGE, p.guess));
    ReachesMore(c, s, RetrieveArrives(t, MESSAGE, p.guess));
    var s1 := RunTask(c, s0, t, waiting, QUIET);
    ReachesMore(c, s0, Run(t, QUIET));
    assert s1.tasks == from.tasks[t := reading];
    assert Stands(c, from, s1, t, reading);
    PlainStep(c, from, s1, t, reading);
    ReachesAlone(c, s1, t, 1);
    var s2 := Alone(c, s1, t, 1);
    assert Stands(c, from, s2, t, read);
    PlainStep(c, from, s2, t, read);
    ReachesAlone(c, s2, t, 1);
    var s3 := Alone(c, s2, t, 1);
    assert Stands(c, from, s3, t, dated);
    ThroughThePool(c, from, s3, t, dated);
    ReachesAlone(c, s3, t, 4);
    s' := Alone(c, s3, t, 4);
    task := dated.(note := Judged(MetaWith(p, failures), 0, false, Uncharged), phase := RecordWrong);
  }

  lemma ThroughThePool(c: Config, from: State, s: State, t: TaskId, task: Task)
    requires task.Retrieval? && task.phase == Verify(Joining) && task.note.Dated? && Stands(c, from, s, t, task)
    requires from.waiting < c.maxWaiting && from.freePermits > 0
    requires !c.verify(task.pin, task.note.meta.pinSalt, task.note.meta.pinVerifier)
    ensures Stands(c, from, Alone(c, s, t, 4), t,
                   task.(note := Judged(task.note.meta, task.note.at, false, Uncharged), phase := RecordWrong))
  {
    IntoThePool(c, from, s, t, task);
    OutOfThePool(c, from, Alone(c, s, t, 2), t, task);
    AloneThen(c, s, t, 2, 2);
  }

  /** The store rolls the attempt back: the row is as it was, and the client is told nothing of the PIN. */
  lemma RolledBack(c: Config, from: State, s: State, t: TaskId, task: Task) returns (s': State, lost: Task)
    requires Reaches(c, s) && task.Retrieval? && task.phase.RecordWrong? && task.note.Judged? && Stands(c, from, s, t, task)
    requires Holds(from.store, task.id, task.note.meta.generation)
    ensures lost == task.(note := task.note.(charge := Lost), phase := Unlock(StorageDown))
    ensures Reaches(c, s') && Stands(c, from, s', t, lost)
  {
    var choice := Choice(BeforeCommit, "", true);
    s' := RunTask(c, s, t, task, choice);
    ReachesMore(c, s, Run(t, choice));
    lost := task.(note := task.note.(charge := Lost), phase := Unlock(StorageDown));
    assert Died(s, s.store, BurnedBy(t)) == map[];
    assert s'.tasks == from.tasks[t := lost];
  }

  lemma Loses(p: Setting, s: State, failures: nat, lost: nat) returns (s': State)
    requires Possible(p) && AtRest(p, s, failures, lost) && failures < p.c.maxAttempts
    ensures AtRest(p, s', failures, lost + 1)
  {
    var c, t := p.c, failures + lost + 1;
    var from, judged, task := UpToTheVerdict(p, s, failures, lost);
    var back, unlocking := RolledBack(c, from, judged, t, task);
    UnlockAndLeave(c, from, back, t, unlocking, StorageDown, 2);
    ReachesAlone(c, back, t, 2);
    s' := Alone(c, back, t, 2);
    OneMore(p, s, t, s'.tasks, failures, lost, true);
  }

  // ---------------------------------------------------------------- the bound is reached

  lemma {:induction false} ManyLost(p: Setting, lost: nat) returns (s: State)
    requires Possible(p)
    ensures AtRest(p, s, 0, lost)
    decreases lost
  {
    if lost == 0 {
      s := Created(p);
    } else {
      s := ManyLost(p, lost - 1);
      s := Loses(p, s, 0, lost - 1);
    }
  }

  lemma {:induction false} ManyCounted(p: Setting, failures: nat, lost: nat) returns (s: State)
    requires Possible(p) && failures <= p.c.maxAttempts
    ensures AtRest(p, s, failures, lost)
    decreases failures
  {
    if failures == 0 {
      s := ManyLost(p, lost);
    } else {
      s := ManyCounted(p, failures - 1, lost);
      s := Counts(p, s, failures - 1, lost);
    }
  }

  /** For every limit and every number of rolled-back attempts, some run judges as many PINs wrong as
      the two together: the bound is exact. */
  lemma BoundIsReached(p: Setting, lost: nat) returns (states: seq<State>, events: seq<Event>)
    requires Possible(p)
    ensures IsRun(p.c, states, events)
    ensures var tasks := states[|states| - 1].tasks;
            Count(tasks, IsLost(1)) == lost && Count(tasks, IsWrong(1)) == p.c.maxAttempts + lost
  {
    var s := ManyCounted(p, p.c.maxAttempts, lost);
    states, events :| IsRun(p.c, states, events) && states[|states| - 1] == s;
  }

  /** No more wrong PINs than the limit are judged against any message that lost so many attempts. */
  ghost predicate LimitHolds(c: Config, lost: nat) {
    forall s, g: nat :: Reaches(c, s) && Count(s.tasks, IsLost(g)) == lost ==> Count(s.tasks, IsWrong(g)) <= c.maxAttempts
  }

  /** The limit holds of every PIN judged, in all runs that lost so many attempts, if and only if that
      is none. */
  lemma LimitIsExact(p: Setting, lost: nat)
    requires Possible(p)
    ensures LimitHolds(p.c, lost) <==> lost == 0
  {
    var c := p.c;
    if lost == 0 {
      forall s, g: nat | Reaches(c, s) && Count(s.tasks, IsLost(g)) == 0 ensures Count(s.tasks, IsWrong(g)) <= c.maxAttempts {
        var states, events :| IsRun(c, states, events) && states[|states| - 1] == s;
        LimitWithoutLosses(c, states, events, |states| - 1, g);
      }
    } else {
      var s := ManyCounted(p, c.maxAttempts, lost);
      assert Reaches(c, s) && Count(s.tasks, IsLost(1)) == lost && Count(s.tasks, IsWrong(1)) > c.maxAttempts;
    }
  }
}
