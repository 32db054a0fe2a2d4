/** How many tasks have a given quality, and how one task's move changes that number. */
module ServiceCounts {
  import opened Basics
  import opened Service

  datatype Quality =
    | HoldsSlot
    | HoldsPermit
    | CountedIn                // included in the pool's waiting count
    | Accepted(limit: nat)     // counted in and not about to be refused
    | IsWrong(g: nat)          // judged the PIN wrong for generation g
    | IsCharged(g: nat)
    | IsLost(g: nat)
    | IsMissed(g: nat)
    | Engaged(g: nat)          // holds the stripe, knows generation g, and has yet to settle

  function PoolOf(task: Task): Option<Pool> {
    match task
    case Retrieval(_, _, _, Verify(pool)) => Some(pool)
    case Creation(_, _, _, _, Hash(pool)) => Some(pool)
    case Creation(_, _, _, _, Detached) => Some(Hashing)
    case _ => None
  }

  predicate Judges(task: Task, g: nat) {
    task.Retrieval? && task.note.Judged? && task.note.meta.generation == g && !task.note.matched
  }

  /** Between taking the stripe and letting it go. */
  predicate HoldsStripe(task: Task) {
    task.Retrieval? && !task.phase.AwaitStripe? && !task.phase.Leave? && !task.phase.Done?
  }

  predicate Has(task: Task, q: Quality) {
    match q
    case HoldsSlot => task.Retrieval? && !task.phase.Done?
    case HoldsPermit => PoolOf(task).Some? && (PoolOf(task).value.Granted? || PoolOf(task).value.Hashing?)
    case CountedIn => PoolOf(task).Some? && (PoolOf(task).value.Queued? || PoolOf(task).value.Granted?)
    case Accepted(limit) =>
      PoolOf(task).Some? && (PoolOf(task).value.Granted? || (PoolOf(task).value.Queued? && PoolOf(task).value.ahead < limit))
    case IsWrong(g) => Judges(task, g)
    case IsCharged(g) => Judges(task, g) && task.note.charge.Charged?
    case IsLost(g) => Judges(task, g) && task.note.charge.Lost?
    case IsMissed(g) => Judges(task, g) && task.note.charge.Missed?
    case Engaged(g) =>
      HoldsStripe(task) && !task.phase.Unlock? && HasMeta(task.note) && task.note.meta.generation == g
  }

  function Those(tasks: map<TaskId, Task>, q: Quality): set<TaskId> {
    set t | t in tasks && Has(tasks[t], q)
  }

  function Count(tasks: map<TaskId, Task>, q: Quality): nat {
    |Those(tasks, q)|
  }

  function One(b: bool): nat { if b then 1 else 0 }

  lemma SizesDifferAt(a: set<TaskId>, b: set<TaskId>, t: TaskId)
    requires a - {t} == b - {t}
    ensures |b| == |a| - One(t in a) + One(t in b)
  {
    assert |a - {t}| == |a| - One(t in a);
    assert |b - {t}| == |b| - One(t in b);
  }

  /** Moving one task changes each count by what that task gains or gives up. */
  lemma CountMoved(tasks: map<TaskId, Task>, t: TaskId, task: Task, q: Quality)
    ensures Count(tasks[t := task], q)
         == Count(tasks, q) - One(t in tasks && Has(tasks[t], q)) + One(Has(task, q))
  {
    SizesDifferAt(Those(tasks, q), Those(tasks[t := task], q), t);
  }

  /** A quality only one task can have is counted at most once. */
  lemma AtMostOne(tasks: map<TaskId, Task>, q: Quality)
    requires forall t, u :: t in tasks && u in tasks && Has(tasks[t], q) && Has(tasks[u], q) ==> t == u
    ensures Count(tasks, q) <= 1
  {
    var those := Those(tasks, q);
    if t :| t in those {
      assert those == {t};
    }
  }

  lemma SomeCounted(tasks: map<TaskId, Task>, q: Quality) returns (t: TaskId)
    requires Count(tasks, q) > 0
    ensures t in tasks && Has(tasks[t], q)
  {
    t :| t in Those(tasks, q);
  }
}
