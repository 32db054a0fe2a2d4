/** The message service as a transition system. Each task is at one point of `retrieve`,
    `create` or `sweep`; a step is what that task does between two points where another task
    can run. Clients arriving and giving up, the clock, fresh ids and storage faults are the
    environment's choice. */
module Service {
  import opened Basics
  import opened Records
  import Protocol

  type TaskId = nat

  const MAX_ID_ATTEMPTS := 10

  /** What stays fixed over a run. `stripe` is the lock an id hashes to. */
  datatype Config = Config(
    permits: nat,
    maxWaiting: nat,
    maxAttempts: nat,
    caps: Caps,
    stripe: Id -> nat,
    hash: (string, string) -> string,
    verify: (string, string, string) -> bool)

  /** Inside `HashPool::run`: before the count goes up; counted in, having seen `ahead` others;
      holding a permit but not yet uncounted; hashing. */
  datatype Pool = Joining | Queued(ahead: int) | Granted | Hashing

  datatype Outcome = Released(blob: Bytes) | WrongPin | Unavailable | StorageDown | Busy

  /** What became of a wrong PIN: not recorded yet, counted against the row, rolled back by a
      fault, or found no row to count against. */
  datatype Charge = Uncharged | Charged | Lost | Missed

  /** What a retrieval has learnt: the row's metadata, the clock reading it compared with the
      expiry, and the verdict on the PIN. */
  datatype Note =
    | Unread
    | Read(meta: Meta)
    | Dated(meta: Meta, at: Time)
    | Judged(meta: Meta, at: Time, matched: bool, charge: Charge)

  datatype RetrievalPhase =
    | AwaitStripe
    | ReadMeta
    | CheckClock
    | RemoveRow
    | Verify(pool: Pool)
    | RecordWrong
    | ConsumeRow
    | Unlock(outcome: Outcome)
    | Leave(outcome: Outcome)
    | Done(outcome: Outcome)

  datatype Created = CreatedAs(id: Id, expiresAt: Time) | Refused

  datatype CreationPhase =
    | Hash(pool: Pool)
    | ReadClock(verifier: string)
    | InsertRow(verifier: string, now: Time, left: nat, abandoned: bool)
    | Detached
    | Ended(created: Created)

  datatype SweepPhase = ReadNow | DeleteExpired(now: Time) | Swept

  datatype Task =
    | Retrieval(id: Id, pin: string, note: Note, phase: RetrievalPhase)
    | Creation(blob: Bytes, pin: string, salt: string, ttl: nat, step: CreationPhase)
    | Sweeping(stage: SweepPhase)

  /** How a row left the store, and who removed it. */
  datatype Fate = Consumed(who: TaskId) | BurnedBy(who: TaskId) | ExpiredAt(now: Time, who: TaskId)

  /** A row as it was inserted, and the creation that inserted it. */
  datatype Birth = Birth(id: Id, entry: Entry, who: TaskId)

  /** `births` and `fates` are history: no step reads them. */
  datatype State = State(
    store: Contents,
    clock: Time,
    tasks: map<TaskId, Task>,
    slots: int,
    waiting: int,
    freePermits: int,
    locks: map<nat, TaskId>,
    births: map<nat, Birth>,
    fates: map<nat, Fate>)

  datatype Choice = Choice(fault: Fault, id: Id, ok: bool)

  datatype Event =
    | RetrieveArrives(t: TaskId, id: Id, pin: string)
    | CreateArrives(t: TaskId, blob: Bytes, pin: string, salt: string, ttl: nat)
    | SweepArrives(t: TaskId)
    | Tick(now: Time)
    | Abandon(t: TaskId)
    | Run(t: TaskId, choice: Choice)

  function Init(c: Config): State {
    State(EMPTY, 0, map[], c.permits + c.maxWaiting, 0, c.permits, map[], map[], map[])
  }

  // ---------------------------------------------------------------- history

  /** Generation `g` is still stored. */
  predicate Alive(births: map<nat, Birth>, store: Contents, g: nat) {
    g in births && Holds(store, births[g].id, g)
  }

  /** Every generation the new store no longer holds meets `fate` in this step. */
  function Died(s: State, store: Contents, fate: Fate): map<nat, Fate> {
    map g | g in s.births && Alive(s.births, s.store, g) && !Alive(s.births, store, g) :: fate
  }

  function Commit(s: State, store: Contents, fate: Fate): State {
    s.(store := store, fates := s.fates + Died(s, store, fate))
  }

  /** A generation given out in this step was born in it. */
  function Born(s: State, before: Contents, id: Id, who: TaskId): State {
    var g := s.store.lastGeneration;
    if g > before.lastGeneration && id in s.store.rows
    then s.(births := s.births[g := Birth(id, s.store.rows[id], who)])
    else s
  }

  // ---------------------------------------------------------------- the hash pool

  datatype Turn = On(pool: Pool) | TurnedAway | Hashed

  predicate PoolReady(c: Config, s: State, pool: Pool) {
    pool.Queued? ==> pool.ahead >= c.maxWaiting || s.freePermits > 0
  }

  function PoolTurn(c: Config, s: State, pool: Pool): Turn {
    match pool
    case Joining => On(Queued(s.waiting))
    case Queued(ahead) => if ahead >= c.maxWaiting then TurnedAway else On(Granted)
    case Granted => On(Hashing)
    case Hashing => Hashed
  }

  function PoolCounters(c: Config, s: State, pool: Pool): State {
    match pool
    case Joining => s.(waiting := s.waiting + 1)
    case Queued(ahead) =>
      if ahead >= c.maxWaiting then s.(waiting := s.waiting - 1) else s.(freePermits := s.freePermits - 1)
    case Granted => s.(waiting := s.waiting - 1)
    case Hashing => s.(freePermits := s.freePermits + 1)
  }

  // ---------------------------------------------------------------- one task's steps

  predicate HasMeta(note: Note) { !note.Unread? }

  /** A task knows what its phase relies on. */
  predicate WellPhased(task: Task) {
    match task
    case Retrieval(_, _, note, phase) =>
      && (phase.CheckClock? ==> note.Read?)
      && (phase.RemoveRow? || phase.Verify? ==> note.Dated?)
      && (phase.RecordWrong? || phase.ConsumeRow? ==> note.Judged?)
    case Creation(_, _, _, _, step) => step.InsertRow? ==> step.left > 0
    case Sweeping(_) => true
  }

  predicate Finished(task: Task) {
    match task
    case Retrieval(_, _, _, phase) => phase.Done?
    case Creation(_, _, _, _, step) => step.Ended?
    case Sweeping(stage) => stage.Swept?
  }

  /** The next step may change the store. Every other step changes a task and its counters. */
  predicate CallsStore(task: Task) {
    match task
    case Retrieval(_, _, _, phase) => phase.RemoveRow? || phase.RecordWrong? || phase.ConsumeRow?
    case Creation(_, _, _, _, step) => step.InsertRow?
    case Sweeping(stage) => stage.DeleteExpired?
  }

  function Moved(s: State, t: TaskId, task: Task): State {
    s.(tasks := s.tasks[t := task])
  }

  /** The first look at the row. It is missing, or the store failed, or its metadata is noted. */
  function MetaRead(s: State, task: Task, choice: Choice): Task
    requires task.Retrieval?
  {
    if !choice.fault.NoFault? then task.(phase := Unlock(StorageDown))
    else if task.id !in s.store.rows then task.(phase := Unlock(Unavailable))
    else task.(note := Read(s.store.rows[task.id].meta), phase := CheckClock)
  }

  function ClockChecked(s: State, task: Task): Task
    requires task.Retrieval? && task.note.Read?
  {
    var meta := task.note.meta;
    task.(note := Dated(meta, s.clock), phase := if meta.IsExpiredAt(s.clock) then RemoveRow else Verify(Joining))
  }

  /** A turn in the hash pool, and after the last one the verdict on the PIN. */
  function Verified(c: Config, s: State, task: Task): Task
    requires task.Retrieval? && task.phase.Verify? && task.note.Dated?
  {
    match PoolTurn(c, s, task.phase.pool)
    case On(pool) => task.(phase := Verify(pool))
    case TurnedAway => task.(phase := Unlock(Busy))
    case Hashed =>
      var meta := task.note.meta;
      var matched := c.verify(task.pin, meta.pinSalt, meta.pinVerifier);
      task.(note := Judged(meta, task.note.at, matched, Uncharged),
            phase := if matched then ConsumeRow else RecordWrong)
  }

  function PinHashed(c: Config, s: State, task: Task): Task
    requires task.Creation? && task.step.Hash?
  {
    match PoolTurn(c, s, task.step.pool)
    case On(pool) => task.(step := Hash(pool))
    case TurnedAway => task.(step := Ended(Refused))
    case Hashed => task.(step := ReadClock(c.hash(task.pin, task.salt)))
  }

  /** Where a step that leaves the store alone takes its task. */
  function Next(c: Config, s: State, task: Task, choice: Choice): Task
    requires WellPhased(task) && !Finished(task) && !CallsStore(task)
  {
    match task
    case Retrieval(id, _, _, phase) =>
      (match phase
       case AwaitStripe => task.(phase := ReadMeta)
       case ReadMeta => MetaRead(s, task, choice)
       case CheckClock => ClockChecked(s, task)
       case Verify(_) => Verified(c, s, task)
       case Unlock(outcome) => task.(phase := Leave(outcome))
       case Leave(outcome) => task.(phase := Done(outcome)))
    case Creation(_, _, _, _, step) =>
      (match step
       case Hash(_) => PinHashed(c, s, task)
       // An expiry that can't be written refuses the message.
       case ReadClock(verifier) =>
         task.(step := if choice.ok then InsertRow(verifier, s.clock, MAX_ID_ATTEMPTS, false) else Ended(Refused))
       case Detached => task.(step := Ended(Refused)))
    case Sweeping(_) => Sweeping(DeleteExpired(s.clock))
  }

  /** What such a step does to the locks, the slots and the pool. */
  function Effects(c: Config, s: State, t: TaskId, task: Task): (r: State)
    ensures r == s.(locks := r.locks, slots := r.slots, waiting := r.waiting, freePermits := r.freePermits)
  {
    match task
    case Retrieval(id, _, _, phase) =>
      (match phase
       case AwaitStripe => s.(locks := s.locks[c.stripe(id) := t])
       case Verify(pool) => PoolCounters(c, s, pool)
       case Unlock(_) => s.(locks := s.locks - {c.stripe(id)})
       case Leave(_) => s.(slots := s.slots + 1)
       case _ => s)
    case Creation(_, _, _, _, step) =>
      (match step
       case Hash(pool) => PoolCounters(c, s, pool)
       case Detached => s.(freePermits := s.freePermits + 1)
       case _ => s)
    case Sweeping(_) => s
  }

  // ---------------------------------------------------------------- steps that call the store

  function RemovedRow(s: State, task: Task, choice: Choice): Task
    requires task.Retrieval? && task.note.Dated?
  {
    var answer := Settle(choice.fault, s.store, Remove(s.store, task.id, task.note.meta.generation)).1;
    task.(phase := Unlock(if answer.Ok? then Unavailable else StorageDown))
  }

  function RemovesRow(s: State, t: TaskId, task: Task, choice: Choice): State
    requires task.Retrieval? && task.note.Dated?
  {
    var call := Remove(s.store, task.id, task.note.meta.generation);
    Commit(s, Settle(choice.fault, s.store, call).0, ExpiredAt(task.note.at, t))
  }

  function WrongRecorded(c: Config, s: State, task: Task, choice: Choice): Task
    requires task.Retrieval? && task.note.Judged?
  {
    var g := task.note.meta.generation;
    var answer := Settle(choice.fault, s.store, RecordFailure(s.store, task.id, g, c.maxAttempts)).1;
    var charge := if !Holds(s.store, task.id, g) then Missed else if choice.fault.BeforeCommit? then Lost else Charged;
    var outcome := if answer.Err? then StorageDown else if answer.value.Some? then WrongPin else Unavailable;
    task.(note := task.note.(charge := charge), phase := Unlock(outcome))
  }

  function RecordsWrong(c: Config, s: State, t: TaskId, task: Task, choice: Choice): State
    requires task.Retrieval? && task.note.Judged?
  {
    var call := RecordFailure(s.store, task.id, task.note.meta.generation, c.maxAttempts);
    Commit(s, Settle(choice.fault, s.store, call).0, BurnedBy(t))
  }

  function RowConsumed(s: State, task: Task, choice: Choice): Task
    requires task.Retrieval? && task.note.Judged?
  {
    var answer := Settle(choice.fault, s.store, Consume(s.store, task.id, task.note.meta.generation)).1;
    var outcome := if answer.Err? then StorageDown
                   else if answer.value.Some? then Released(answer.value.value) else Unavailable;
    task.(phase := Unlock(outcome))
  }

  function ConsumesRow(s: State, t: TaskId, task: Task, choice: Choice): State
    requires task.Retrieval? && task.note.Judged?
  {
    var call := Consume(s.store, task.id, task.note.meta.generation);
    Commit(s, Settle(choice.fault, s.store, call).0, Consumed(t))
  }

  function MessageOf(task: Task, id: Id): NewMessage
    requires task.Creation? && task.step.InsertRow?
  {
    NewMessage(id, task.blob, task.salt, task.step.verifier, task.step.now + task.ttl, Protocol.PROTOCOL_VERSION)
  }

  /** A taken id hands the blob back for the next try; every other answer ends the creation. */
  ghost function RowInserted(c: Config, s: State, task: Task, choice: Choice): Task
    requires task.Creation? && task.step.InsertRow? && WellPhased(task)
  {
    var InsertRow(verifier, now, left, abandoned) := task.step;
    var answer := Settle(choice.fault, s.store, Insert(s.store, c.caps, MessageOf(task, choice.id), now)).1;
    if answer.Err? then task.(step := Ended(Refused))
    else if answer.value.Ok? then task.(step := Ended(CreatedAs(choice.id, now + task.ttl)))
    else if answer.value.error.IdTaken? then
      task.(blob := answer.value.error.blob,
            step := if left == 1 || abandoned then Ended(Refused) else InsertRow(verifier, now, left - 1, false))
    else task.(step := Ended(Refused))
  }

  ghost function InsertsRow(c: Config, s: State, t: TaskId, task: Task, choice: Choice): State
    requires task.Creation? && task.step.InsertRow?
  {
    var call := Insert(s.store, c.caps, MessageOf(task, choice.id), task.step.now);
    var s' := Commit(s, Settle(choice.fault, s.store, call).0, ExpiredAt(task.step.now, t));
    Born(s', s.store, choice.id, t)
  }

  function Sweeps(s: State, t: TaskId, now: Time, choice: Choice): State {
    Commit(s, Settle(choice.fault, s.store, Sweep(s.store, now)).0, ExpiredAt(now, t))
  }

  /** Where one step takes its task. */
  ghost function After(c: Config, s: State, task: Task, choice: Choice): Task
    requires WellPhased(task) && !Finished(task)
  {
    if !CallsStore(task) then Next(c, s, task, choice)
    else match task
      case Retrieval(_, _, _, phase) =>
        if phase.RemoveRow? then RemovedRow(s, task, choice)
        else if phase.RecordWrong? then WrongRecorded(c, s, task, choice)
        else RowConsumed(s, task, choice)
      case Creation(_, _, _, _, _) =>
        // Without entropy for an id the message is refused.
        if choice.ok then RowInserted(c, s, task, choice) else task.(step := Ended(Refused))
      case Sweeping(_) => Sweeping(Swept)
  }

  /** What one step does to everything but tasks. */
  ghost function Touched(c: Config, s: State, t: TaskId, task: Task, choice: Choice): (r: State)
    requires WellPhased(task) && !Finished(task)
    ensures r.tasks == s.tasks && r.clock == s.clock
    ensures CallsStore(task) ==> r == s.(store := r.store, births := r.births, fates := r.fates)
    ensures !CallsStore(task) ==> r == Effects(c, s, t, task)
  {
    if !CallsStore(task) then Effects(c, s, t, task)
    else match task
      case Retrieval(_, _, _, phase) =>
        if phase.RemoveRow? then RemovesRow(s, t, task, choice)
        else if phase.RecordWrong? then RecordsWrong(c, s, t, task, choice)
        else ConsumesRow(s, t, task, choice)
      case Creation(_, _, _, _, _) => if choice.ok then InsertsRow(c, s, t, task, choice) else s
      case Sweeping(stage) => Sweeps(s, t, stage.now, choice)
  }

  /** One step of task `t`. */
  ghost function RunTask(c: Config, s: State, t: TaskId, task: Task, choice: Choice): State
    requires WellPhased(task) && !Finished(task)
  {
    Moved(Touched(c, s, t, task, choice), t, After(c, s, task, choice))
  }

  // ---------------------------------------------------------------- steps

  /** A task has a next step and nothing it needs is held by another. */
  predicate Ready(c: Config, s: State, task: Task) {
    && !Finished(task)
    && WellPhased(task)
    && match task
       case Retrieval(id, _, _, phase) =>
         && (phase.AwaitStripe? ==> c.stripe(id) !in s.locks)
         && (phase.Verify? ==> PoolReady(c, s, phase.pool))
       case Creation(_, _, _, _, step) => step.Hash? ==> PoolReady(c, s, step.pool)
       case Sweeping(_) => true
  }

  /** A creation whose client gives up is dropped where it waits. Hashing that has started and a
      store call in flight run on without it. Retrievals are never dropped: they own their task. */
  predicate Abandonable(c: Config, task: Task) {
    && task.Creation?
    && match task.step
       case Hash(pool) => pool.Hashing? || (pool.Queued? && pool.ahead < c.maxWaiting)
       case InsertRow(_, _, _, abandoned) => !abandoned
       case _ => false
  }

  function Abandoned(s: State, t: TaskId, task: Task): State
    requires task.Creation?
  {
    match task.step
    case Hash(Queued(_)) => Moved(s.(waiting := s.waiting - 1), t, task.(step := Ended(Refused)))
    case Hash(_) => Moved(s, t, task.(step := Detached))
    case InsertRow(v, now, left, _) => Moved(s, t, task.(step := InsertRow(v, now, left, true)))
    case _ => s
  }

  predicate Enabled(c: Config, s: State, e: Event) {
    match e
    case RetrieveArrives(t, _, _) => t !in s.tasks
    case CreateArrives(t, _, _, _, _) => t !in s.tasks
    case SweepArrives(t) => t !in s.tasks
    case Tick(_) => true
    case Abandon(t) => t in s.tasks && Abandonable(c, s.tasks[t])
    case Run(t, _) => t in s.tasks && Ready(c, s, s.tasks[t])
  }

  ghost function Apply(c: Config, s: State, e: Event): State
    requires Enabled(c, s, e)
  {
    match e
    case RetrieveArrives(t, id, pin) =>
      // The admission slot is taken before a task is spawned; without one the answer is 503.
      Moved(s.(slots := if s.slots > 0 then s.slots - 1 else s.slots), t,
            Retrieval(id, pin, Unread, if s.slots > 0 then AwaitStripe else Done(Busy)))
    case CreateArrives(t, blob, pin, salt, ttl) => Moved(s, t, Creation(blob, pin, salt, ttl, Hash(Joining)))
    case SweepArrives(t) => Moved(s, t, Sweeping(ReadNow))
    case Tick(now) => s.(clock := now)
    case Abandon(t) => Abandoned(s, t, s.tasks[t])
    case Run(t, choice) => RunTask(c, s, t, s.tasks[t], choice)
  }

  // ---------------------------------------------------------------- runs

  /** A run: `states[i + 1]` is what event `i` makes of `states[i]`. */
  ghost predicate IsRun(c: Config, states: seq<State>, events: seq<Event>) {
    && |states| == |events| + 1
    && states[0] == Init(c)
    && forall i :: 0 <= i < |events| ==> Enabled(c, states[i], events[i]) && states[i + 1] == Apply(c, states[i], events[i])
  }

  predicate FaultFree(e: Event) { e.Run? ==> e.choice.fault.NoFault? }
}
