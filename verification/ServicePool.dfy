/** Admission slots, the hash pool's counters and the striped locks, over every interleaving. */
module ServicePool {
  import opened Basics
  import opened Service
  import opened ServiceCounts

  // ---------------------------------------------------------------- counters

  /** Each counter is exactly what tasks hold, and the waiters not about to be refused never
      exceed the queue, although refused ones are counted for a moment too. */
  ghost predicate PoolInv(c: Config, s: State) {
    && s.slots + Count(s.tasks, HoldsSlot) == c.permits + c.maxWaiting
    && s.freePermits + Count(s.tasks, HoldsPermit) == c.permits
    && s.waiting == Count(s.tasks, CountedIn)
    && s.slots >= 0 && s.freePermits >= 0
    && Count(s.tasks, Accepted(c.maxWaiting)) <= c.maxWaiting
  }

  /** Whoever is accepted is counted in. */
  lemma AcceptedAreCountedIn(c: Config, s: State)
    ensures Count(s.tasks, Accepted(c.maxWaiting)) <= Count(s.tasks, CountedIn)
  {
    var few, many := Those(s.tasks, Accepted(c.maxWaiting)), Those(s.tasks, CountedIn);
    assert many == few + (many - few);
  }

  lemma PoolCounts(c: Config, s: State, t: TaskId, task: Task)
    ensures var tasks := s.tasks[t := task];
            && Count(tasks, HoldsSlot) == Count(s.tasks, HoldsSlot) - One(t in s.tasks && Has(s.tasks[t], HoldsSlot)) + One(Has(task, HoldsSlot))
            && Count(tasks, HoldsPermit) == Count(s.tasks, HoldsPermit) - One(t in s.tasks && Has(s.tasks[t], HoldsPermit)) + One(Has(task, HoldsPermit))
            && Count(tasks, CountedIn) == Count(s.tasks, CountedIn) - One(t in s.tasks && Has(s.tasks[t], CountedIn)) + One(Has(task, CountedIn))
            && Count(tasks, Accepted(c.maxWaiting)) == Count(s.tasks, Accepted(c.maxWaiting))
               - One(t in s.tasks && Has(s.tasks[t], Accepted(c.maxWaiting))) + One(Has(task, Accepted(c.maxWaiting)))
  {
    CountMoved(s.tasks, t, task, HoldsSlot);
    CountMoved(s.tasks, t, task, HoldsPermit);
    CountMoved(s.tasks, t, task, CountedIn);
    CountMoved(s.tasks, t, task, Accepted(c.maxWaiting));
  }

  /** A turn in the pool, for whichever kind of task takes it. */
  lemma TurnKeepsPool(c: Config, s: State, t: TaskId, task: Task, pool: Pool, s': State)
    requires PoolInv(c, s) && t in s.tasks && PoolReady(c, s, pool)
    requires PoolOf(s.tasks[t]) == Some(pool)
    requires s' == Moved(PoolCounters(c, s, pool), t, task)
    requires match PoolTurn(c, s, pool)
             case On(pool') => PoolOf(task) == Some(pool')
             case _ => PoolOf(task).None?
    requires Has(s.tasks[t], HoldsSlot) == Has(task, HoldsSlot)
    ensures PoolInv(c, s')
  {
    PoolCounts(c, s, t, task);
    AcceptedAreCountedIn(c, s);
  }

  /** A step outside the pool keeps a task out of it; only leaving gives the slot up. */
  lemma AfterInPool(c: Config, s: State, task: Task, choice: Choice)
    requires Ready(c, s, task) && PoolOf(task).None? && !(task.Retrieval? && task.phase.CheckClock?)
    ensures var task' := After(c, s, task, choice);
            && PoolOf(task').None?
            && Has(task', HoldsSlot) == (Has(task, HoldsSlot) && !task.phase.Leave?)
  {
  }

  lemma RunKeepsPool(c: Config, s: State, t: TaskId, task: Task, choice: Choice)
    requires PoolInv(c, s) && t in s.tasks && s.tasks[t] == task && Ready(c, s, task)
    ensures PoolInv(c, RunTask(c, s, t, task, choice))
  {
    var task' := After(c, s, task, choice);
    var s' := RunTask(c, s, t, task, choice);
    if PoolOf(task).Some? {
      TurnKeepsPool(c, s, t, task', PoolOf(task).value, s');
    } else {
      PoolCounts(c, s, t, task');
      if !(task.Retrieval? && task.phase.CheckClock?) {
        AfterInPool(c, s, task, choice);
      }
    }
  }

  lemma ArrivalKeepsPool(c: Config, s: State, t: TaskId, task: Task, s': State)
    requires PoolInv(c, s) && t !in s.tasks
    requires s' == Moved(s.(slots := s.slots - One(Has(task, HoldsSlot))), t, task)
    requires Has(task, HoldsSlot) ==> s.slots > 0
    requires !Has(task, HoldsPermit) && !Has(task, CountedIn) && !Has(task, Accepted(c.maxWaiting))
    ensures PoolInv(c, s')
  {
    PoolCounts(c, s, t, task);
  }

  lemma AbandonKeepsPool(c: Config, s: State, t: TaskId, task: Task)
    requires PoolInv(c, s) && t in s.tasks && s.tasks[t] == task && Abandonable(c, task)
    ensures PoolInv(c, Abandoned(s, t, task))
  {
    var s' := Abandoned(s, t, task);
    PoolCounts(c, s, t, s'.tasks[t]);
  }

  lemma PoolStep(c: Config, s: State, e: Event)
    requires PoolInv(c, s) && Enabled(c, s, e)
    ensures PoolInv(c, Apply(c, s, e))
  {
    match e
    case Tick(_) =>
    case Run(t, choice) => RunKeepsPool(c, s, t, s.tasks[t], choice);
    case Abandon(t) => AbandonKeepsPool(c, s, t, s.tasks[t]);
    case RetrieveArrives(t, id, pin) =>
      ArrivalKeepsPool(c, s, t, Retrieval(id, pin, Unread, if s.slots > 0 then AwaitStripe else Done(Busy)), Apply(c, s, e));
    case CreateArrives(t, blob, pin, salt, ttl) =>
      ArrivalKeepsPool(c, s, t, Creation(blob, pin, salt, ttl, Hash(Joining)), Apply(c, s, e));
    case SweepArrives(t) => ArrivalKeepsPool(c, s, t, Sweeping(ReadNow), Apply(c, s, e));
  }

  // ---------------------------------------------------------------- locks

  /** A stripe is locked by exactly the retrieval that is between taking it and letting it go. */
  ghost predicate LocksInv(c: Config, s: State) {
    && (forall t <- s.tasks :: HoldsStripe(s.tasks[t]) ==>
                                 c.stripe(s.tasks[t].id) in s.locks && s.locks[c.stripe(s.tasks[t].id)] == t)
    && (forall k <- s.locks :: s.locks[k] in s.tasks && HoldsStripe(s.tasks[s.locks[k]])
                               && c.stripe(s.tasks[s.locks[k]].id) == k)
  }

  /** A task keeps its id and keeps or lacks the stripe as before. */
  predicate SameHold(from: Task, to: Task) {
    && HoldsStripe(from) == HoldsStripe(to)
    && (HoldsStripe(from) ==> to.id == from.id)
  }

  lemma IdleKeepsLocks(c: Config, s: State, t: TaskId, task: Task, s': State)
    requires LocksInv(c, s)
    requires if t in s.tasks then SameHold(s.tasks[t], task) else !HoldsStripe(task)
    requires s'.tasks == s.tasks[t := task] && s'.locks == s.locks
    ensures LocksInv(c, s')
  {
  }

  lemma TakeKeepsLocks(c: Config, s: State, t: TaskId, task: Task, s': State)
    requires LocksInv(c, s) && t in s.tasks && !HoldsStripe(s.tasks[t]) && HoldsStripe(task)
    requires c.stripe(task.id) !in s.locks
    requires s'.tasks == s.tasks[t := task] && s'.locks == s.locks[c.stripe(task.id) := t]
    ensures LocksInv(c, s')
  {
  }

  lemma ReleaseKeepsLocks(c: Config, s: State, t: TaskId, task: Task, s': State)
    requires LocksInv(c, s) && t in s.tasks && HoldsStripe(s.tasks[t]) && !HoldsStripe(task)
    requires s'.tasks == s.tasks[t := task] && s'.locks == s.locks - {c.stripe(s.tasks[t].id)}
    ensures LocksInv(c, s')
  {
  }

  lemma AfterHolds(c: Config, s: State, task: Task, choice: Choice)
    requires Ready(c, s, task)
    requires !(task.Retrieval? && (task.phase.AwaitStripe? || task.phase.Unlock?))
    ensures SameHold(task, After(c, s, task, choice))
  {
  }

  lemma LocksStep(c: Config, s: State, e: Event)
    requires LocksInv(c, s) && Enabled(c, s, e)
    ensures LocksInv(c, Apply(c, s, e))
  {
    var s' := Apply(c, s, e);
    match e
    case Tick(_) =>
    case Run(t, choice) =>
      var task := s.tasks[t];
      if task.Retrieval? && task.phase.AwaitStripe? {
        TakeKeepsLocks(c, s, t, task.(phase := ReadMeta), s');
      } else if task.Retrieval? && task.phase.Unlock? {
        ReleaseKeepsLocks(c, s, t, task.(phase := Leave(task.phase.outcome)), s');
      } else {
        AfterHolds(c, s, task, choice);
        IdleKeepsLocks(c, s, t, After(c, s, task, choice), s');
      }
    case Abandon(t) => IdleKeepsLocks(c, s, t, s'.tasks[t], s');
    case RetrieveArrives(t, id, pin) =>
      IdleKeepsLocks(c, s, t, Retrieval(id, pin, Unread, if s.slots > 0 then AwaitStripe else Done(Busy)), s');
    case CreateArrives(t, blob, pin, salt, ttl) => IdleKeepsLocks(c, s, t, Creation(blob, pin, salt, ttl, Hash(Joining)), s');
    case SweepArrives(t) => IdleKeepsLocks(c, s, t, Sweeping(ReadNow), s');
  }
}
