/** Why a retrieval was answered as it was, over whole runs: every answer goes back to one earlier step
    of that retrieval, and what it says was so in the state of that step. */
module ServiceAnswers {
  import opened Records
  import opened Service
  import opened ServiceLedger
  import opened ServiceRuns

  // ---------------------------------------------------------------- what an answer says

  /** The row now stored under the id is the one whose metadata was read. */
  predicate IsThere(s: State, task: Task)
    requires task.Retrieval? && HasMeta(task.note)
  {
    task.id in s.store.rows && s.store.rows[task.id].meta.generation == task.note.meta.generation
  }

  /** The PIN is the right one for the metadata that was read. */
  predicate IsRight(c: Config, task: Task)
    requires task.Retrieval? && HasMeta(task.note)
  {
    c.verify(task.pin, task.note.meta.pinSalt, task.note.meta.pinVerifier)
  }

  /** The steps that answer, and what they answer. A fault is answered as such. Otherwise a missing row
      and one that had expired by the clock reading are unavailable, and so is one that is gone once the
      PIN was checked; a wrong PIN is told wrong; the right one is handed the stored blob; and whoever
      found the queue full is told that the service is busy. */
  predicate Explains(c: Config, s: State, task: Task, fault: Fault, o: Outcome)
    requires task.Retrieval? && WellPhased(task)
  {
    match task.phase
    case ReadMeta => if fault.NoFault? then task.id !in s.store.rows && o == Unavailable else o == StorageDown
    case Verify(pool) => pool.Queued? && pool.ahead >= c.maxWaiting && o == Busy
    case RemoveRow => task.note.meta.expiresAt <= task.note.at && o == if fault.NoFault? then Unavailable else StorageDown
    case RecordWrong =>
      && task.note.at < task.note.meta.expiresAt && !IsRight(c, task)
      && o == if !fault.NoFault? then StorageDown else if IsThere(s, task) then WrongPin else Unavailable
    case ConsumeRow =>
      && task.note.at < task.note.meta.expiresAt && IsRight(c, task)
      && o == if !fault.NoFault? then StorageDown
              else if IsThere(s, task) then Released(s.store.rows[task.id].blob) else Unavailable
    case _ => false
  }

  /** Event `e` is what answered retrieval `t`: without a slot it is told busy as it arrives. */
  predicate Answers(c: Config, s: State, e: Event, t: TaskId, o: Outcome) {
    if t in s.tasks then e.Run? && e.t == t && s.tasks[t].Retrieval? && WellPhased(s.tasks[t])
                         && Explains(c, s, s.tasks[t], e.choice.fault, o)
    else e.RetrieveArrives? && e.t == t && s.slots <= 0 && o == Busy
  }

  predicate HasAnswer(tasks: map<TaskId, Task>, t: TaskId) { t in tasks && tasks[t].Retrieval? && Past(tasks[t].phase) }

  // ---------------------------------------------------------------- one step

  lemma QuietAnswers(c: Config, s: State, t: TaskId, task: Task, choice: Choice)
    requires TaskOk(c, s.births, s.fates, t, task) && task.Retrieval? && !Finished(task) && !CallsStore(task)
    ensures var to := Next(c, s, task, choice);
            to.Retrieval? && (Past(to.phase) ==>
              if Past(task.phase) then OutcomeOf(to.phase) == OutcomeOf(task.phase)
              else Explains(c, s, task, choice.fault, OutcomeOf(to.phase)))
  {
  }

  lemma CallAnswers(c: Config, s: State, t: TaskId, task: Task, choice: Choice)
    requires TaskOk(c, s.births, s.fates, t, task) && task.Retrieval? && CallsStore(task)
    ensures var to := After(c, s, task, choice);
            to.Retrieval? && Past(to.phase) && Explains(c, s, task, choice.fault, OutcomeOf(to.phase))
  {
    if task.phase.RecordWrong? {
      assert choice.fault.NoFault? ==> (WrongRecorded(c, s, task, choice).phase == Unlock(WrongPin) <==> IsThere(s, task));
    }
  }

  lemma AnsweredSince(c: Config, s: State, e: Event, t: TaskId)
    requires LedgerInv(c, s) && Enabled(c, s, e) && HasAnswer(Apply(c, s, e).tasks, t)
    ensures var o := OutcomeOf(Apply(c, s, e).tasks[t].phase);
            (HasAnswer(s.tasks, t) && OutcomeOf(s.tasks[t].phase) == o) || Answers(c, s, e, t, o)
  {
    TaskInStep(c, s, e, t);
    if e.Run? && e.t == t {
      TaskAt(c, s, t);
      if s.tasks[t].Retrieval? {
        if CallsStore(s.tasks[t]) {
          CallAnswers(c, s, t, s.tasks[t], e.choice);
        } else {
          QuietAnswers(c, s, t, s.tasks[t], e.choice);
        }
      }
    }
  }

  // ---------------------------------------------------------------- whole runs

  /** Every answer of every retrieval was given by one of its own steps, for the reason it states. */
  lemma {:induction false} AnswersHaveCauses(c: Config, states: seq<State>, events: seq<Event>, i: nat, t: TaskId) returns (j: nat)
    requires IsRun(c, states, events) && i < |states| && c.maxAttempts > 0 && HasAnswer(states[i].tasks, t)
    ensures j < i && Answers(c, states[j], events[j], t, OutcomeOf(states[i].tasks[t].phase))
    decreases i
  {
    j := 0;
    assert i > 0;
    StepAt(c, states, events, i);
    AnsweredSince(c, states[i - 1], events[i - 1], t);
    if Answers(c, states[i - 1], events[i - 1], t, OutcomeOf(states[i].tasks[t].phase)) {
      j := i - 1;
    } else {
      j := AnswersHaveCauses(c, states, events, i - 1, t);
    }
  }

  predicate IsQueued(tasks: map<TaskId, Task>, t: TaskId) {
    t in tasks && tasks[t].Retrieval? && tasks[t].phase.Verify? && tasks[t].phase.pool.Queued?
  }

  /** The retrieval joins the queue in this step, behind so many. */
  predicate Joins(s: State, e: Event, t: TaskId, ahead: int) {
    e.Run? && e.t == t && t in s.tasks && s.tasks[t].Retrieval? && s.tasks[t].phase == Verify(Joining) && s.waiting == ahead
  }

  lemma QueuedSince(c: Config, s: State, e: Event, t: TaskId)
    requires LedgerInv(c, s) && Enabled(c, s, e) && IsQueued(Apply(c, s, e).tasks, t)
    ensures var ahead := Apply(c, s, e).tasks[t].phase.pool.ahead;
            (IsQueued(s.tasks, t) && s.tasks[t].phase.pool.ahead == ahead) || Joins(s, e, t, ahead)
  {
    TaskInStep(c, s, e, t);
    if e.Run? && e.t == t {
      TaskAt(c, s, t);
    }
  }

  lemma {:induction false} QueuedHasJoined(c: Config, states: seq<State>, events: seq<Event>, i: nat, t: TaskId) returns (j: nat)
    requires IsRun(c, states, events) && i < |states| && c.maxAttempts > 0 && IsQueued(states[i].tasks, t)
    ensures j < i && Joins(states[j], events[j], t, states[i].tasks[t].phase.pool.ahead)
    decreases i
  {
    j := 0;
    assert i > 0;
    StepAt(c, states, events, i);
    QueuedSince(c, states[i - 1], events[i - 1], t);
    if Joins(states[i - 1], events[i - 1], t, states[i].tasks[t].phase.pool.ahead) {
      j := i - 1;
    } else {
      j := QueuedHasJoined(c, states, events, i - 1, t);
    }
  }

  /** A retrieval is told that the service is busy only if no slot was free as it arrived, or the
      queue was full as it joined. */
  lemma BusyMeansFull(c: Config, states: seq<State>, events: seq<Event>, i: nat, t: TaskId) returns (j: nat)
    requires IsRun(c, states, events) && i < |states| && c.maxAttempts > 0
    requires HasAnswer(states[i].tasks, t) && OutcomeOf(states[i].tasks[t].phase).Busy?
    ensures j < i
    ensures (events[j].RetrieveArrives? && events[j].t == t && states[j].slots <= 0)
         || (Joins(states[j], events[j], t, states[j].waiting) && states[j].waiting >= c.maxWaiting)
  {
    j := AnswersHaveCauses(c, states, events, i, t);
    if t in states[j].tasks {
      j := QueuedHasJoined(c, states, events, j, t);
    }
  }
}
