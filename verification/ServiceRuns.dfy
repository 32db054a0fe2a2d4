/** The theorems about the service: what holds in every state of every run, whatever the
    interleaving of retrievals, creations, sweeps, clock changes and storage faults. */
module ServiceRuns {
  import opened Basics
  import opened Records
  import opened Service
  import opened ServiceCounts
  import opened ServiceLedger
  import opened ServicePool
  import opened ServiceAttempts

  ghost predicate Inv(c: Config, s: State) {
    LedgerInv(c, s) && LocksInv(c, s) && PoolInv(c, s) && AttemptsInv(c, s)
  }

  lemma InitInv(c: Config)
    ensures Inv(c, Init(c))
  {
    var s := Init(c);
    assert forall q :: Those(s.tasks, q) == {};
  }

  /** Every state of every run satisfies all four invariants. */
  lemma {:induction false} RunKeepsInv(c: Config, states: seq<State>, events: seq<Event>, i: nat)
    requires IsRun(c, states, events) && i < |states| && c.maxAttempts > 0
    ensures Inv(c, states[i])
    decreases i
  {
    if i == 0 {
      InitInv(c);
    } else {
      RunKeepsInv(c, states, events, i - 1);
      var s, e := states[i - 1], events[i - 1];
      LedgerStep(c, s, e);
      LocksStep(c, s, e);
      PoolStep(c, s, e);
      AttemptsStep(c, s, e);
    }
  }

  /** What one event makes of one task. */
  lemma TaskInStep(c: Config, s: State, e: Event, t: TaskId)
    requires Enabled(c, s, e) && t in Apply(c, s, e).tasks
    ensures var to := Apply(c, s, e).tasks[t];
            if e.Run? && e.t == t then t in s.tasks && to == After(c, s, s.tasks[t], e.choice)
            else if t in s.tasks then to == s.tasks[t] || (e == Abandon(t) && s.tasks[t].Creation? && to.Creation?)
            else to.Retrieval? ==> to.note.Unread?
  {
  }

  lemma StepOf(c: Config, states: seq<State>, events: seq<Event>, i: nat)
    requires IsRun(c, states, events) && 0 < i < |states|
    ensures Enabled(c, states[i - 1], events[i - 1]) && states[i] == Apply(c, states[i - 1], events[i - 1])
  {
    assert states[(i - 1) + 1] == Apply(c, states[i - 1], events[i - 1]);
  }

  lemma LedgerAt(c: Config, states: seq<State>, events: seq<Event>, i: nat)
    requires IsRun(c, states, events) && i < |states| && c.maxAttempts > 0
    ensures LedgerInv(c, states[i])
  {
    RunKeepsInv(c, states, events, i);
  }

  ghost predicate IsStep(c: Config, s: State, e: Event, s': State) { LedgerInv(c, s) && Enabled(c, s, e) && s' == Apply(c, s, e) }

  lemma StepAt(c: Config, states: seq<State>, events: seq<Event>, i: nat)
    requires IsRun(c, states, events) && 0 < i < |states| && c.maxAttempts > 0
    ensures IsStep(c, states[i - 1], events[i - 1], states[i])
  {
    LedgerAt(c, states, events, i - 1);
    StepOf(c, states, events, i);
  }

  // ---------------------------------------------------------------- history only grows

  /** Nothing once recorded is changed: no generation is born twice, and no fate is undone. */
  ghost predicate HistoryGrows(a: State, b: State) {
    && a.store.lastGeneration <= b.store.lastGeneration
    && (forall g <- a.births :: g in b.births && b.births[g] == a.births[g])
    && (forall g <- a.fates :: g in b.fates && b.fates[g] == a.fates[g])
  }

  ghost predicate Remembers(a: State, b: State) {
    HistoryGrows(a, b) && forall t <- a.tasks :: t in b.tasks && Continues(a.tasks[t], b.tasks[t])
  }

  lemma CommitGrows(s: State, store: Contents, fate: Fate, id: Id, t: TaskId)
    requires HistoryOk(s.store, s.births, s.fates)
    requires s.store.lastGeneration <= store.lastGeneration
    ensures HistoryGrows(s, Commit(s, store, fate))
    ensures HistoryGrows(s, Born(Commit(s, store, fate), s.store, id, t))
  {
  }

  lemma CallGrows(c: Config, s: State, t: TaskId, task: Task, choice: Choice)
    requires HistoryOk(s.store, s.births, s.fates) && WellPhased(task) && !Finished(task) && CallsStore(task)
    ensures HistoryGrows(s, Touched(c, s, t, task, choice))
  {
    if task.Retrieval? {
      var (store, fate) := CallOf(c, s, t, task, choice.fault);
      CallCommits(c, s, t, task, choice);
      CallStaysHome(c, s, t, task, choice.fault);
      CommitGrows(s, store, fate, task.id, t);
    } else if task.Sweeping? {
      var now := task.stage.now;
      CommitGrows(s, Settle(choice.fault, s.store, Sweep(s.store, now)).0, ExpiredAt(now, t), "", t);
    } else {
      var call := Insert(s.store, c.caps, MessageOf(task, choice.id), task.step.now);
      CommitGrows(s, Settle(choice.fault, s.store, call).0, ExpiredAt(task.step.now, t), choice.id, t);
    }
  }

  lemma AfterContinues(c: Config, s: State, t: TaskId, task: Task, choice: Choice)
    requires LedgerInv(c, s) && t in s.tasks && s.tasks[t] == task && Ready(c, s, task)
    ensures Continues(task, After(c, s, task, choice))
  {
    TaskAt(c, s, t);
    if !CallsStore(task) {
      if task.Retrieval? && task.id in s.store.rows {
        StoredMetaOk(c, s, task.id);
      }
      NextOk(c, s, t, task, choice);
    }
  }

  lemma StepGrowsHistory(c: Config, s: State, t: TaskId, task: Task, choice: Choice)
    requires LedgerInv(c, s) && t in s.tasks && s.tasks[t] == task && Ready(c, s, task)
    ensures HistoryGrows(s, Touched(c, s, t, task, choice))
  {
    if CallsStore(task) {
      CallGrows(c, s, t, task, choice);
    }
  }

  lemma RunTaskRemembers(c: Config, s: State, t: TaskId, task: Task, choice: Choice)
    requires LedgerInv(c, s) && t in s.tasks && s.tasks[t] == task && Ready(c, s, task)
    ensures Remembers(s, RunTask(c, s, t, task, choice))
  {
    StepGrowsHistory(c, s, t, task, choice);
    AfterContinues(c, s, t, task, choice);
    MovedRemembers(s, Touched(c, s, t, task, choice), t, After(c, s, task, choice));
  }

  lemma MovedRemembers(s: State, touched: State, t: TaskId, task: Task)
    requires HistoryGrows(s, touched) && touched.tasks == s.tasks && t in s.tasks && Continues(s.tasks[t], task)
    ensures Remembers(s, Moved(touched, t, task))
  {
  }

  lemma OtherStepRemembers(c: Config, s: State, e: Event)
    requires Enabled(c, s, e) && !e.Run?
    ensures Remembers(s, Apply(c, s, e))
  {
    var s' := Apply(c, s, e);
    assert s'.store == s.store && s'.births == s.births && s'.fates == s.fates && s.tasks.Keys <= s'.tasks.Keys;
    forall t <- s.tasks ensures Continues(s.tasks[t], s'.tasks[t]) {
      TaskInStep(c, s, e, t);
    }
  }

  lemma StepRemembers(c: Config, s: State, e: Event)
    requires LedgerInv(c, s) && Enabled(c, s, e)
    ensures Remembers(s, Apply(c, s, e))
  {
    if e.Run? {
      RunTaskRemembers(c, s, e.t, s.tasks[e.t], e.choice);
    } else {
      OtherStepRemembers(c, s, e);
    }
  }

  ghost predicate RemembersLast(states: seq<State>, j: nat)
    requires 0 < j < |states|
  {
    Remembers(states[j - 1], states[j])
  }

  lemma {:induction false} AllRemembered(states: seq<State>, i: nat, j: nat)
    requires i <= j < |states| && forall k :: 0 < k < |states| ==> RemembersLast(states, k)
    ensures Remembers(states[i], states[j])
    decreases j
  {
    if i < j {
      AllRemembered(states, i, j - 1);
      assert RemembersLast(states, j);
      RemembersBoth(states[i], states[j - 1], states[j]);
    } else {
      RemembersItself(states[i]);
    }
  }

  lemma RunRemembers(c: Config, states: seq<State>, events: seq<Event>, i: nat, j: nat)
    requires IsRun(c, states, events) && i <= j < |states| && c.maxAttempts > 0
    ensures Remembers(states[i], states[j])
  {
    forall k | 0 < k < |states| ensures RemembersLast(states, k) {
      RemembersOnce(c, states, events, k);
    }
    AllRemembered(states, i, j);
  }

  lemma RemembersItself(s: State)
    ensures Remembers(s, s)
  {
  }

  lemma RemembersOnce(c: Config, states: seq<State>, events: seq<Event>, j: nat)
    requires IsRun(c, states, events) && 0 < j < |states| && c.maxAttempts > 0
    ensures Remembers(states[j - 1], states[j])
  {
    StepAt(c, states, events, j);
    StepRemembers(c, states[j - 1], events[j - 1]);
  }

  lemma RemembersBoth(a: State, b: State, c: State)
    requires Remembers(a, b) && Remembers(b, c)
    ensures Remembers(a, c)
  {
  }

  // ---------------------------------------------------------------- one-time delivery

  predicate HasReleased(task: Task) {
    task.Retrieval? && Past(task.phase) && OutcomeOf(task.phase).Released?
  }

  /** A hash that only its own PIN satisfies. */
  ghost predicate Sound(c: Config) {
    forall pin, other, salt :: c.verify(pin, salt, c.hash(other, salt)) ==> pin == other
  }

  /** Whoever is handed a blob asked for its id, read that very row, found it unexpired at the
      clock it looked at, and gave a PIN its verifier accepts: with a sound hash, the creator's.
      By then the row is gone from the store, and the fate it met names this retrieval. */
  lemma DeliveryIsEarned(c: Config, states: seq<State>, events: seq<Event>, i: nat, t: TaskId)
    requires IsRun(c, states, events) && i < |states| && c.maxAttempts > 0
    requires t in states[i].tasks && HasReleased(states[i].tasks[t])
    ensures var s, task := states[i], states[i].tasks[t];
            && task.note.Judged?
            && var g := task.note.meta.generation;
            && g in s.births && s.births[g].id == task.id
            && OutcomeOf(task.phase).blob == s.births[g].entry.blob
            && task.note.at < s.births[g].entry.meta.expiresAt
            && c.verify(task.pin, s.births[g].entry.meta.pinSalt, s.births[g].entry.meta.pinVerifier)
            && !Alive(s.births, s.store, g) && g in s.fates && s.fates[g] == Consumed(t)
            && s.births[g].who in s.tasks && s.tasks[s.births[g].who].Creation?
            && s.births[g].entry.blob == s.tasks[s.births[g].who].blob
            && (Sound(c) ==> task.pin == s.tasks[s.births[g].who].pin)
  {
    RunKeepsInv(c, states, events, i);
    var s, task := states[i], states[i].tasks[t];
    TaskAt(c, s, t);
    var birth := s.births[task.note.meta.generation];
    assert FateOk(s.births, s.tasks, task.note.meta.generation, s.fates[task.note.meta.generation]);
    assert BirthOk(c, s.tasks, birth);
  }

  /** No two retrievals are ever handed the same generation's blob, at any two points of a run. */
  lemma DeliveredAtMostOnce(c: Config, states: seq<State>, events: seq<Event>, i: nat, j: nat, t: TaskId, u: TaskId)
    requires IsRun(c, states, events) && i <= j < |states| && c.maxAttempts > 0
    requires t in states[i].tasks && HasReleased(states[i].tasks[t])
    requires u in states[j].tasks && HasReleased(states[j].tasks[u])
    requires states[i].tasks[t].note.Judged? && states[j].tasks[u].note.Judged?
    requires states[i].tasks[t].note.meta.generation == states[j].tasks[u].note.meta.generation
    ensures t == u
  {
    DeliveryIsEarned(c, states, events, i, t);
    DeliveryIsEarned(c, states, events, j, u);
    RunRemembers(c, states, events, i, j);
  }

  /** What a retrieval noted was really so: at an earlier step of its own it read this metadata
      from the store, and at a later one it read this time from the clock. */
  lemma {:induction false} NotesAreReadings(c: Config, states: seq<State>, events: seq<Event>, i: nat, t: TaskId)
      returns (read: nat, dated: nat)
    requires IsRun(c, states, events) && i < |states| && c.maxAttempts > 0
    requires t in states[i].tasks && states[i].tasks[t].Retrieval? && HasMeta(states[i].tasks[t].note)
    ensures var task := states[i].tasks[t];
            && read < i && events[read].Run? && events[read].t == t
            && task.id in states[read].store.rows && states[read].store.rows[task.id].meta == task.note.meta
            && (!task.note.Read? ==>
                  read < dated < i && events[dated].Run? && events[dated].t == t && states[dated].clock == task.note.at)
    decreases i
  {
    read, dated := 0, 0;
    assert i > 0;
    RunKeepsInv(c, states, events, i - 1);
    StepOf(c, states, events, i);
    var s, e := states[i - 1], events[i - 1];
    NoteStep(c, s, e, t);
    if s.tasks[t].note.Unread? {
      read := i - 1;
    } else {
      read, dated := NotesAreReadings(c, states, events, i - 1, t);
      if s.tasks[t].note.Read? && !states[i].tasks[t].note.Read? {
        dated := i - 1;
      }
    }
  }

  /** A note changes only in a step of its own task, and only by one reading. */
  predicate NoteMoves(s: State, from: Task, to: Task)
    requires from.Retrieval? && to.Retrieval? && HasMeta(to.note)
  {
    match from.note
    case Unread => to.note.Read? && from.id in s.store.rows && s.store.rows[from.id].meta == to.note.meta
    case Read(meta) => to.note == from.note || to.note == Dated(meta, s.clock)
    case _ => to.note.meta == from.note.meta && !to.note.Read? && to.note.at == from.note.at
  }

  lemma NoteAfter(c: Config, s: State, t: TaskId, task: Task, choice: Choice)
    requires TaskOk(c, s.births, s.fates, t, task) && task.Retrieval? && Ready(c, s, task)
    ensures var to := After(c, s, task, choice);
            to.Retrieval? && to.id == task.id && (HasMeta(to.note) ==> NoteMoves(s, task, to))
  {
  }

  lemma NoteStep(c: Config, s: State, e: Event, t: TaskId)
    requires LedgerInv(c, s) && Enabled(c, s, e)
    requires t in Apply(c, s, e).tasks && Apply(c, s, e).tasks[t].Retrieval? && HasMeta(Apply(c, s, e).tasks[t].note)
    ensures t in s.tasks && s.tasks[t].Retrieval?
    ensures var from, to := s.tasks[t], Apply(c, s, e).tasks[t];
            && to.id == from.id && NoteMoves(s, from, to)
            && (from.note != to.note ==> e.Run? && e.t == t)
  {
    TaskInStep(c, s, e, t);
    if e.Run? && e.t == t {
      TaskAt(c, s, t);
      assert s.tasks[t].Retrieval?;
      NoteAfter(c, s, t, s.tasks[t], e.choice);
    }
  }

  // ---------------------------------------------------------------- conservation of rows

  /** Every generation given out is either still stored or met exactly one fate, and the fate is
      true: an expired row was past its time, a consumed one had its PIN verified, a burned one
      had the limit of wrong PINs charged to it. */
  lemma ExactlyOneFate(c: Config, states: seq<State>, events: seq<Event>, i: nat, g: nat)
    requires IsRun(c, states, events) && i < |states| && c.maxAttempts > 0
    ensures var s := states[i];
            && (g in s.births <==> 1 <= g <= s.store.lastGeneration)
            && (g in s.births ==> (Alive(s.births, s.store, g) <==> g !in s.fates))
            && (g in s.fates ==> g in s.births)
            && (g in s.fates ==>
                  match s.fates[g]
                  case ExpiredAt(now, _) => s.births[g].entry.meta.expiresAt <= now
                  case Consumed(t) => Settled(s.tasks, t, g, true)
                  case BurnedBy(t) => Settled(s.tasks, t, g, false) && Count(s.tasks, IsCharged(g)) == c.maxAttempts)
  {
    RunKeepsInv(c, states, events, i);
    var s := states[i];
    assert AttemptsOk(c, s, g);
    if g in s.fates {
      assert FateOk(s.births, s.tasks, g, s.fates[g]);
    }
  }

  /** A generation is never reused and what met its fate never comes back. */
  lemma NothingComesBack(c: Config, states: seq<State>, events: seq<Event>, i: nat, j: nat, g: nat)
    requires IsRun(c, states, events) && i <= j < |states| && c.maxAttempts > 0
    requires g in states[i].fates
    ensures g in states[i].births && g in states[j].births && states[j].births[g] == states[i].births[g]
    ensures !Alive(states[j].births, states[j].store, g)
    ensures g in states[j].fates && states[j].fates[g] == states[i].fates[g]
  {
    RunKeepsInv(c, states, events, i);
    RunKeepsInv(c, states, events, j);
    RunRemembers(c, states, events, i, j);
  }

  /** One step of a retrieval adds no row, and changes none but that of the generation it read. */
  ghost predicate IsInert(task: Task, before: Contents, after: Contents) {
    && (forall id <- after.rows :: id in before.rows)
    && (forall id <- before.rows ::
          !(task.Retrieval? && HasMeta(task.note) && before.rows[id].meta.generation == task.note.meta.generation) ==>
            id in after.rows && after.rows[id] == before.rows[id])
  }

  lemma RetrievalStepIsInert(c: Config, s: State, t: TaskId, choice: Choice)
    requires LedgerInv(c, s) && t in s.tasks && Ready(c, s, s.tasks[t]) && s.tasks[t].Retrieval?
    ensures IsInert(s.tasks[t], s.store, RunTask(c, s, t, s.tasks[t], choice).store)
  {
    var task := s.tasks[t];
    if CallsStore(task) {
      CallCommits(c, s, t, task, choice);
      CallStaysHome(c, s, t, task, choice.fault);
    }
  }

  lemma MetaStaysAfter(c: Config, s: State, t: TaskId, task: Task, choice: Choice)
    requires TaskOk(c, s.births, s.fates, t, task) && task.Retrieval? && Ready(c, s, task) && HasMeta(task.note)
    ensures var to := After(c, s, task, choice); to.Retrieval? && HasMeta(to.note) && to.note.meta == task.note.meta
  {
  }

  /** Task `t` is a retrieval that has read its row. */
  predicate Reads(tasks: map<TaskId, Task>, t: TaskId) { t in tasks && tasks[t].Retrieval? && HasMeta(tasks[t].note) }

  /** What a retrieval has read it keeps to. */
  lemma {:induction false} MetaStays(c: Config, states: seq<State>, events: seq<Event>, i: nat, k: nat, t: TaskId)
    requires IsRun(c, states, events) && i <= k < |states| && c.maxAttempts > 0
    requires Reads(states[i].tasks, t)
    ensures Reads(states[k].tasks, t) && states[k].tasks[t].note.meta == states[i].tasks[t].note.meta
    decreases k
  {
    if i < k {
      MetaStays(c, states, events, i, k - 1, t);
      MetaStaysOnce(c, states, events, k, t);
    }
  }

  lemma MetaStaysOnce(c: Config, states: seq<State>, events: seq<Event>, k: nat, t: TaskId)
    requires IsRun(c, states, events) && 0 < k < |states| && c.maxAttempts > 0 && Reads(states[k - 1].tasks, t)
    ensures Reads(states[k].tasks, t) && states[k].tasks[t].note.meta == states[k - 1].tasks[t].note.meta
  {
    StepAt(c, states, events, k);
    MetaStep(c, states[k - 1], events[k - 1], t);
  }

  lemma MetaStep(c: Config, s: State, e: Event, t: TaskId)
    requires LedgerInv(c, s) && Enabled(c, s, e) && t in s.tasks && s.tasks[t].Retrieval? && HasMeta(s.tasks[t].note)
    ensures t in Apply(c, s, e).tasks
    ensures var to := Apply(c, s, e).tasks[t]; to.Retrieval? && HasMeta(to.note) && to.note.meta == s.tasks[t].note.meta
  {
    StepNeverRaisesRank(c, s, e, t);
    TaskInStep(c, s, e, t);
    if e.Run? && e.t == t {
      TaskAt(c, s, t);
      MetaStaysAfter(c, s, t, s.tasks[t], e.choice);
    }
  }

  /** From its first step to its last, a retrieval adds no row. Until it has read a row it changes
      none, and from then on none but that of the generation it read, even when the id has been
      given to a newer message in the meantime. */
  lemma StaleRetrievalIsInert(c: Config, states: seq<State>, events: seq<Event>, k: nat, t: TaskId)
    requires IsRun(c, states, events) && k < |events| && c.maxAttempts > 0
    requires events[k].Run? && events[k].t == t && t in states[k].tasks && states[k].tasks[t].Retrieval?
    ensures IsInert(states[k].tasks[t], states[k].store, states[k + 1].store)
    ensures forall i :: 0 <= i <= k && Reads(states[i].tasks, t) ==>
              IsInert(states[i].tasks[t], states[k].store, states[k + 1].store)
  {
    RunKeepsInv(c, states, events, k);
    StepOf(c, states, events, k + 1);
    RetrievalStepIsInert(c, states[k], t, events[k].choice);
    forall i | 0 <= i <= k && Reads(states[i].tasks, t)
      ensures IsInert(states[i].tasks[t], states[k].store, states[k + 1].store)
    {
      MetaStays(c, states, events, i, k, t);
    }
  }

  // ---------------------------------------------------------------- wrong PINs

  /** The retrieval's answer is that the PIN was wrong. */
  predicate SaysWrong(task: Task) { task.Retrieval? && Past(task.phase) && OutcomeOf(task.phase).WrongPin? }

  lemma SaysWrongAfter(c: Config, s: State, t: TaskId, task: Task, choice: Choice)
    requires TaskOk(c, s.births, s.fates, t, task) && Ready(c, s, task) && SaysWrong(After(c, s, task, choice))
    ensures var to := After(c, s, task, choice);
            task.Retrieval? && to.id == task.id
            && if SaysWrong(task) then to.note == task.note
               else
                 && to.note.Judged? && !to.note.matched && to.note.charge.Charged?
                 && var call := RecordFailure(s.store, task.id, to.note.meta.generation, c.maxAttempts);
                    call.1.Some? && Touched(c, s, t, task, choice).store == call.0
  {
  }

  lemma SaysWrongSince(c: Config, s: State, e: Event, t: TaskId)
    requires LedgerInv(c, s) && Enabled(c, s, e) && t in Apply(c, s, e).tasks && SaysWrong(Apply(c, s, e).tasks[t])
    ensures t in s.tasks && ((e.Run? && e.t == t) || s.tasks[t] == Apply(c, s, e).tasks[t])
  {
    TaskInStep(c, s, e, t);
  }

  /** Every run, faults included: whoever is told that the PIN was wrong gave a wrong one, and at a
      step of that retrieval before the answer the store committed the attempt to the row. */
  lemma {:induction false} AnsweredWrongIsCommitted(c: Config, states: seq<State>, events: seq<Event>, i: nat, t: TaskId)
      returns (k: nat)
    requires IsRun(c, states, events) && i < |states| && c.maxAttempts > 0
    requires t in states[i].tasks && SaysWrong(states[i].tasks[t])
    ensures var task := states[i].tasks[t];
            && task.note.Judged? && !task.note.matched && task.note.charge.Charged?
            && k < i && events[k].Run? && events[k].t == t
            && var call := RecordFailure(states[k].store, task.id, task.note.meta.generation, c.maxAttempts);
               call.1.Some? && states[k + 1].store == call.0
    decreases i
  {
    k := 0;
    assert i > 0;
    RunKeepsInv(c, states, events, i - 1);
    StepOf(c, states, events, i);
    var s, e := states[i - 1], events[i - 1];
    SaysWrongSince(c, s, e, t);
    if e.Run? && e.t == t {
      TaskAt(c, s, t);
      SaysWrongAfter(c, s, t, s.tasks[t], e.choice);
    }
    if SaysWrong(s.tasks[t]) {
      k := AnsweredWrongIsCommitted(c, states, events, i - 1, t);
    } else {
      k := i - 1;
    }
  }

  /** Those told that their PIN for generation `g` was wrong. */
  function ToldWrong(tasks: map<TaskId, Task>, g: nat): set<TaskId> {
    set t | t in tasks && SaysWrong(tasks[t]) && HasMeta(tasks[t].note) && tasks[t].note.meta.generation == g
  }

  lemma ToldAreCharged(c: Config, states: seq<State>, events: seq<Event>, i: nat, g: nat)
    requires IsRun(c, states, events) && i < |states| && c.maxAttempts > 0
    ensures |ToldWrong(states[i].tasks, g)| <= Count(states[i].tasks, IsCharged(g))
  {
    var s, told := states[i], ToldWrong(states[i].tasks, g);
    forall t <- told ensures t in Those(s.tasks, IsCharged(g)) {
      var _ := AnsweredWrongIsCommitted(c, states, events, i, t);
    }
    SubsetIsSmaller(told, Those(s.tasks, IsCharged(g)));
  }

  /** Every run, faults included: no more than the limit are ever told that their PIN for one
      message was wrong, fewer than that if it was delivered, and a stored row counts at least them. */
  lemma AnsweredWrongIsLimited(c: Config, states: seq<State>, events: seq<Event>, i: nat, g: nat)
    requires IsRun(c, states, events) && i < |states| && c.maxAttempts > 0
    ensures var s, told := states[i], ToldWrong(states[i].tasks, g);
            && |told| <= c.maxAttempts
            && (g in s.fates && s.fates[g].Consumed? ==> |told| < c.maxAttempts)
            && (g in s.births && Alive(s.births, s.store, g) ==> |told| <= Failures(s, g) < c.maxAttempts)
  {
    var s := states[i];
    ToldAreCharged(c, states, events, i, g);
    RunKeepsInv(c, states, events, i);
    assert AttemptsOk(c, s, g);
    if g !in s.births {
      UnbornUncounted(c, s, g);
    }
  }

  /** In every run, at most the limit of wrong PINs plus those a fault lost are judged against one
      row, and a delivery comes only below the limit. */
  lemma WrongPinsAreBounded(c: Config, states: seq<State>, events: seq<Event>, i: nat, g: nat)
    requires IsRun(c, states, events) && i < |states| && c.maxAttempts > 0
    ensures var s := states[i];
            && Count(s.tasks, IsWrong(g)) <= c.maxAttempts + Count(s.tasks, IsLost(g))
            && (g in s.fates && s.fates[g].Consumed? ==>
                  Count(s.tasks, IsWrong(g)) < c.maxAttempts + Count(s.tasks, IsLost(g)))
  {
    RunKeepsInv(c, states, events, i);
    var s := states[i];
    WrongAccountedFor(c, s, g);
    assert AttemptsOk(c, s, g);
    EngagedOnce(c, s, g);
    if g !in s.births {
      UnbornUncounted(c, s, g);
    }
  }

  /** Without storage faults no wrong PIN is lost, so the limit is exact. */
  lemma {:induction false} NothingLost(c: Config, states: seq<State>, events: seq<Event>, i: nat, t: TaskId)
    requires IsRun(c, states, events) && i < |states| && c.maxAttempts > 0
    requires forall k :: 0 <= k < i ==> FaultFree(events[k])
    requires t in states[i].tasks && states[i].tasks[t].Retrieval? && states[i].tasks[t].note.Judged?
    ensures !states[i].tasks[t].note.charge.Lost?
    decreases i
  {
    if i > 0 {
      RunKeepsInv(c, states, events, i - 1);
      StepOf(c, states, events, i);
      var s, e := states[i - 1], events[i - 1];
      if t in s.tasks && s.tasks[t].Retrieval? && s.tasks[t].note.Judged? {
        NothingLost(c, states, events, i - 1, t);
      }
      NoneLostByStep(c, s, e, t);
    }
  }

  predicate LostOne(task: Task) { task.Retrieval? && task.note.Judged? && task.note.charge.Lost? }

  lemma NoneLostAfter(c: Config, s: State, t: TaskId, task: Task, choice: Choice)
    requires TaskOk(c, s.births, s.fates, t, task) && Ready(c, s, task) && !LostOne(task) && choice.fault.NoFault?
    ensures !LostOne(After(c, s, task, choice))
  {
  }

  lemma NoneLostByStep(c: Config, s: State, e: Event, t: TaskId)
    requires LedgerInv(c, s) && Enabled(c, s, e) && FaultFree(e) && t in Apply(c, s, e).tasks
    requires t in s.tasks ==> !LostOne(s.tasks[t])
    ensures !LostOne(Apply(c, s, e).tasks[t])
  {
    TaskInStep(c, s, e, t);
    if e.Run? && e.t == t {
      TaskAt(c, s, t);
      NoneLostAfter(c, s, t, s.tasks[t], e.choice);
    }
  }

  /** Wherever no wrong PIN for generation `g` was lost to a fault, the limit holds of all that were
      judged, answered or not, and a stored row at rest carries exactly their number. */
  lemma LimitWithoutLosses(c: Config, states: seq<State>, events: seq<Event>, i: nat, g: nat)
    requires IsRun(c, states, events) && i < |states| && c.maxAttempts > 0
    requires Count(states[i].tasks, IsLost(g)) == 0
    ensures var s, wrong := states[i], Count(states[i].tasks, IsWrong(g));
            && wrong <= c.maxAttempts
            && (g in s.fates && s.fates[g].Consumed? ==> wrong < c.maxAttempts)
            && (g in s.births && Alive(s.births, s.store, g) && Count(s.tasks, Engaged(g)) == 0 ==>
                  Failures(s, g) == wrong < c.maxAttempts)
  {
    var s := states[i];
    WrongPinsAreBounded(c, states, events, i, g);
    RunKeepsInv(c, states, events, i);
    WrongAccountedFor(c, s, g);
    ChargedAreWrong(s, g);
    assert AttemptsOk(c, s, g);
  }

  /** In a run without storage faults none is ever lost. */
  lemma FaultFreeLimit(c: Config, states: seq<State>, events: seq<Event>, i: nat, g: nat)
    requires IsRun(c, states, events) && i < |states| && c.maxAttempts > 0
    requires forall k :: 0 <= k < i ==> FaultFree(events[k])
    ensures var s, wrong := states[i], Count(states[i].tasks, IsWrong(g));
            && wrong <= c.maxAttempts
            && (g in s.fates && s.fates[g].Consumed? ==> wrong < c.maxAttempts)
            && (g in s.births && Alive(s.births, s.store, g) && Count(s.tasks, Engaged(g)) == 0 ==>
                  Failures(s, g) == wrong < c.maxAttempts)
  {
    var s := states[i];
    forall t <- s.tasks ensures !Has(s.tasks[t], IsLost(g)) {
      if s.tasks[t].Retrieval? && s.tasks[t].note.Judged? {
        NothingLost(c, states, events, i, t);
      }
    }
    assert Those(s.tasks, IsLost(g)) == {};
    LimitWithoutLosses(c, states, events, i, g);
  }

  lemma ChargedAreWrong(s: State, g: nat)
    ensures Count(s.tasks, IsCharged(g)) <= Count(s.tasks, IsWrong(g))
  {
    SubsetIsSmaller(Those(s.tasks, IsCharged(g)), Those(s.tasks, IsWrong(g)));
  }

  // ---------------------------------------------------------------- resources and progress

  /** Hashes running never exceed the permits, accepted waiters never exceed the queue, and
      admitted retrievals never exceed their sum. */
  lemma ResourcesBounded(c: Config, states: seq<State>, events: seq<Event>, i: nat)
    requires IsRun(c, states, events) && i < |states| && c.maxAttempts > 0
    ensures var s := states[i];
            && Count(s.tasks, HoldsPermit) + s.freePermits == c.permits && s.freePermits >= 0
            && Count(s.tasks, Accepted(c.maxWaiting)) <= c.maxWaiting
            && Count(s.tasks, HoldsSlot) + s.slots == c.permits + c.maxWaiting && s.slots >= 0
  {
    RunKeepsInv(c, states, events, i);
  }

  lemma PermitHolderIsReady(c: Config, s: State, t: TaskId)
    requires LedgerInv(c, s) && t in s.tasks && Has(s.tasks[t], HoldsPermit)
    ensures Ready(c, s, s.tasks[t])
  {
    TaskAt(c, s, t);
  }

  /** A task that waits for a permit waits for a task that can run. */
  lemma PoolNeverJams(c: Config, s: State, t: TaskId) returns (u: TaskId)
    requires LedgerInv(c, s) && PoolInv(c, s) && c.permits > 0
    requires t in s.tasks && !Finished(s.tasks[t])
    requires !(s.tasks[t].Retrieval? && s.tasks[t].phase.AwaitStripe?)
    ensures u in s.tasks && Ready(c, s, s.tasks[u])
  {
    TaskAt(c, s, t);
    if Ready(c, s, s.tasks[t]) {
      u := t;
    } else {
      u := SomeCounted(s.tasks, HoldsPermit);
      PermitHolderIsReady(c, s, u);
    }
  }

  /** No deadlock: while any task is unfinished, some task can run. */
  lemma SomeTaskIsReady(c: Config, states: seq<State>, events: seq<Event>, i: nat, t: TaskId) returns (u: TaskId)
    requires IsRun(c, states, events) && i < |states| && c.maxAttempts > 0 && c.permits > 0
    requires t in states[i].tasks && !Finished(states[i].tasks[t])
    ensures u in states[i].tasks && Ready(c, states[i], states[i].tasks[u])
  {
    RunKeepsInv(c, states, events, i);
    var s := states[i];
    TaskAt(c, s, t);
    if s.tasks[t].Retrieval? && s.tasks[t].phase.AwaitStripe? {
      if Ready(c, s, s.tasks[t]) {
        u := t;
      } else {
        u := PoolNeverJams(c, s, s.locks[c.stripe(s.tasks[t].id)]);
      }
    } else {
      u := PoolNeverJams(c, s, t);
    }
  }

  function PoolRank(pool: Pool): nat {
    match pool
    case Joining => 4
    case Queued(_) => 3
    case Granted => 2
    case Hashing => 1
  }

  /** How many steps a task has left at most. */
  function Rank(task: Task): nat {
    match task
    case Retrieval(_, _, _, phase) =>
      (match phase
       case AwaitStripe => 10
       case ReadMeta => 9
       case CheckClock => 8
       case Verify(pool) => 3 + PoolRank(pool)
       case RemoveRow => 3
       case RecordWrong => 3
       case ConsumeRow => 3
       case Unlock(_) => 2
       case Leave(_) => 1
       case Done(_) => 0)
    case Creation(_, _, _, _, step) =>
      (match step
       case Hash(pool) => MAX_ID_ATTEMPTS + 1 + PoolRank(pool)
       case ReadClock(_) => MAX_ID_ATTEMPTS + 1
       case InsertRow(_, _, left, _) => left
       case Detached => 1
       case Ended(_) => 0)
    case Sweeping(stage) =>
      (match stage
       case ReadNow => 2
       case DeleteExpired(_) => 1
       case Swept => 0)
  }

  lemma StepLowersRank(c: Config, s: State, task: Task, choice: Choice)
    requires Ready(c, s, task)
    ensures Rank(After(c, s, task, choice)) < Rank(task)
  {
  }

  lemma StepNeverRaisesRank(c: Config, s: State, e: Event, t: TaskId)
    requires Enabled(c, s, e) && t in s.tasks
    ensures t in Apply(c, s, e).tasks
    ensures Rank(Apply(c, s, e).tasks[t]) + (if e.Run? && e.t == t then 1 else 0) <= Rank(s.tasks[t])
  {
    if e.Run? {
      StepLowersRank(c, s, s.tasks[e.t], e.choice);
    }
  }

  /** How many of the events from `i` to `j` are steps of task `t`. */
  function StepsOf(events: seq<Event>, i: nat, j: nat, t: TaskId): nat
    requires i <= j <= |events|
    decreases j
  {
    if i == j then 0
    else StepsOf(events, i, j - 1, t) + (if events[j - 1].Run? && events[j - 1].t == t then 1 else 0)
  }

  /** Event `k - 1` leaves task `t` in place, and lowers its rank if it is a step of it. */
  ghost predicate StepCounts(states: seq<State>, events: seq<Event>, k: nat, t: TaskId)
    requires 0 < k < |states| && |states| == |events| + 1
  {
    t in states[k - 1].tasks ==>
      && t in states[k].tasks
      && (if events[k - 1].Run? && events[k - 1].t == t then 1 else 0) + Rank(states[k].tasks[t]) <= Rank(states[k - 1].tasks[t])
  }

  lemma {:induction false} AllStepsCount(states: seq<State>, events: seq<Event>, i: nat, j: nat, t: TaskId)
    requires |states| == |events| + 1 && i <= j < |states| && t in states[i].tasks
    requires forall k :: 0 < k < |states| ==> StepCounts(states, events, k, t)
    ensures t in states[j].tasks
    ensures StepsOf(events, i, j, t) + Rank(states[j].tasks[t]) <= Rank(states[i].tasks[t])
    decreases j
  {
    if i < j {
      AllStepsCount(states, events, i, j - 1, t);
      assert StepCounts(states, events, j, t);
    }
  }

  /** Between any two points of a run a task takes at most as many steps as its rank fell by: a
      retrieval at most 10, a creation at most 15, whatever the others do. */
  lemma StepsAreBounded(c: Config, states: seq<State>, events: seq<Event>, i: nat, j: nat, t: TaskId)
    requires IsRun(c, states, events) && i <= j < |states| && t in states[i].tasks
    ensures t in states[j].tasks
    ensures StepsOf(events, i, j, t) + Rank(states[j].tasks[t]) <= Rank(states[i].tasks[t])
  {
    forall k | 0 < k < |states| ensures StepCounts(states, events, k, t) {
      StepOf(c, states, events, k);
      if t in states[k - 1].tasks {
        StepNeverRaisesRank(c, states[k - 1], events[k - 1], t);
      }
    }
    AllStepsCount(states, events, i, j, t);
  }
}
