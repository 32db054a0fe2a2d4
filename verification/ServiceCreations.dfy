/** What creations and sweeps come to over whole runs: what is stored is what was sent, with an expiry
    counted from the clock; a creation stores at most one row and says so; a sweep deletes exactly
    what has expired. */
module ServiceCreations {
  import opened Basics
  import opened Records
  import opened Service
  import opened ServiceLedger
  import opened ServiceRuns

  // ---------------------------------------------------------------- one insertion

  predicate IsInserting(tasks: map<TaskId, Task>, t: TaskId) { t in tasks && tasks[t].Creation? && tasks[t].step.InsertRow? }

  /** The row a creation asks for, with everything it consists of. */
  predicate IsBorn(b: Birth, t: TaskId, task: Task, id: Id, g: nat)
    requires task.Creation? && task.step.InsertRow?
  {
    && b.who == t && b.id == id
    && b.entry == Entry(task.blob, Meta(g, task.salt, task.step.verifier, task.step.now + task.ttl, 0), 2)
  }

  /** The insertion gives birth to one generation and ends the creation: with the id and the expiry if
      the answer came through. Otherwise nothing is born, and no id is announced. */
  ghost predicate Inserts(before: map<nat, Birth>, after: map<nat, Birth>, t: TaskId, from: Task, to: Task, choice: Choice, g: nat)
    requires from.Creation? && from.step.InsertRow? && to.Creation?
  {
    if after == before then !(to.step.Ended? && to.step.created.CreatedAs?)
    else
      && g in after && after == before[g := after[g]] && IsBorn(after[g], t, from, choice.id, g)
      && !choice.fault.BeforeCommit?
      && to.step == Ended(if choice.fault.NoFault? then CreatedAs(choice.id, from.step.now + from.ttl) else Refused)
  }

  lemma InsertionBirths(c: Config, s: State, t: TaskId, task: Task, choice: Choice)
    requires HistoryOk(s.store, s.births, s.fates) && task.Creation? && task.step.InsertRow? && WellPhased(task)
    ensures After(c, s, task, choice).Creation?
    ensures Inserts(s.births, Touched(c, s, t, task, choice).births, t, task, After(c, s, task, choice), choice, s.store.lastGeneration + 1)
  {
    if choice.ok {
      var g, births := s.store.lastGeneration + 1, InsertsRow(c, s, t, task, choice).births;
      BirthsAfter(c, s, t, task, choice);
      ToldAfter(c, s, task, choice);
      if Insert(s.store, c.caps, MessageOf(task, choice.id), task.step.now).1.Ok? && !choice.fault.BeforeCommit? {
        assert g in births && g !in s.births;
      } else {
        assert births == s.births;
      }
    }
  }

  lemma ToldAfter(c: Config, s: State, task: Task, choice: Choice)
    requires task.Creation? && task.step.InsertRow? && WellPhased(task)
    ensures var to, inserted := RowInserted(c, s, task, choice), Insert(s.store, c.caps, MessageOf(task, choice.id), task.step.now).1.Ok?;
            && to.Creation?
            && (inserted ==> to.step == Ended(if choice.fault.NoFault? then CreatedAs(choice.id, task.step.now + task.ttl) else Refused))
            && (!inserted || !choice.fault.NoFault? ==> !(to.step.Ended? && to.step.created.CreatedAs?))
  {
  }

  lemma BirthsAfter(c: Config, s: State, t: TaskId, task: Task, choice: Choice)
    requires HistoryOk(s.store, s.births, s.fates) && task.Creation? && task.step.InsertRow? && WellPhased(task)
    ensures var m, g := MessageOf(task, choice.id), s.store.lastGeneration + 1;
            && g !in s.births
            && InsertsRow(c, s, t, task, choice).births
               == if Insert(s.store, c.caps, m, task.step.now).1.Ok? && !choice.fault.BeforeCommit?
                  then s.births[g := Birth(choice.id, NewEntry(m, g), t)] else s.births
  {
    NewRow(s.store, c.caps, MessageOf(task, choice.id), task.step.now);
  }

  lemma NewRow(store: Contents, caps: Caps, m: NewMessage, now: Time)
    ensures var (after, outcome) := Insert(store, caps, m, now);
            if outcome.Ok? then
              && after.lastGeneration == store.lastGeneration + 1 && m.id in after.rows
              && after.rows[m.id] == Entry(m.blob, Meta(store.lastGeneration + 1, m.pinSalt, m.pinVerifier, m.expiresAt, 0), m.protocolVersion)
            else after.lastGeneration == store.lastGeneration
  {
  }

  /** Nothing else gives birth, and nothing else ends a creation with an id. */
  lemma OnlyInsertionsBear(c: Config, s: State, e: Event)
    requires LedgerInv(c, s) && Enabled(c, s, e)
    requires !(e.Run? && IsInserting(s.tasks, e.t))
    ensures Apply(c, s, e).births == s.births
  {
    if e.Run? && CallsStore(s.tasks[e.t]) && s.tasks[e.t].Retrieval? {
      TaskAt(c, s, e.t);
    }
  }

  // ---------------------------------------------------------------- at most one row

  predicate HasEnded(tasks: map<TaskId, Task>, t: TaskId) { t in tasks && tasks[t].Creation? && tasks[t].step.Ended? }

  /** Whoever bore a row is done, and bore no other; if it was told an id, it is that row's. */
  ghost predicate BearersOk(s: State) {
    && (forall g <- s.births :: HasEnded(s.tasks, s.births[g].who))
    && (forall g, h :: g in s.births && h in s.births && s.births[g].who == s.births[h].who ==> g == h)
    && (forall g <- s.births :: Announces(s.tasks[s.births[g].who], s.births[g]))
  }

  predicate Announces(task: Task, b: Birth)
  {
    task.Creation? && task.step.Ended?
    && (task.step.created.CreatedAs? ==> task.step.created == CreatedAs(b.id, b.entry.meta.expiresAt))
  }

  lemma EndedStays(c: Config, s: State, e: Event, t: TaskId)
    requires Enabled(c, s, e) && HasEnded(s.tasks, t)
    ensures t in Apply(c, s, e).tasks && Apply(c, s, e).tasks[t] == s.tasks[t]
  {
    StepNeverRaisesRank(c, s, e, t);
    TaskInStep(c, s, e, t);
  }

  ghost predicate EndedStay(before: map<TaskId, Task>, after: map<TaskId, Task>) {
    forall u <- before :: HasEnded(before, u) ==> u in after && after[u] == before[u]
  }

  lemma OneMoreBearer(s: State, s': State, t: TaskId, g: nat)
    requires BearersOk(s) && t in s.tasks && !HasEnded(s.tasks, t) && t in s'.tasks
    requires g in s'.births && s'.births == s.births[g := s'.births[g]] && s'.births[g].who == t && Announces(s'.tasks[t], s'.births[g])
    requires EndedStay(s.tasks, s'.tasks)
    ensures BearersOk(s')
  {
    assert forall h <- s.births :: s.births[h].who != t;
    forall h <- s'.births ensures Announces(s'.tasks[s'.births[h].who], s'.births[h]) {
      if h != g {
        assert Announces(s.tasks[s.births[h].who], s.births[h]);
      }
    }
  }

  lemma BearersStep(c: Config, s: State, e: Event)
    requires LedgerInv(c, s) && Enabled(c, s, e) && BearersOk(s)
    ensures BearersOk(Apply(c, s, e))
  {
    var s' := Apply(c, s, e);
    AllEndedStay(c, s, e);
    if e.Run? && IsInserting(s.tasks, e.t) {
      InsertionStep(c, s, e, s.store.lastGeneration + 1);
      if s'.births != s.births {
        OneMoreBearer(s, s', e.t, s.store.lastGeneration + 1);
      } else {
        SameBearers(s, s');
      }
    } else {
      OnlyInsertionsBear(c, s, e);
      SameBearers(s, s');
    }
  }

  lemma AllEndedStay(c: Config, s: State, e: Event)
    requires Enabled(c, s, e)
    ensures EndedStay(s.tasks, Apply(c, s, e).tasks)
  {
    forall u <- s.tasks ensures HasEnded(s.tasks, u) ==> u in Apply(c, s, e).tasks && Apply(c, s, e).tasks[u] == s.tasks[u] {
      if HasEnded(s.tasks, u) {
        EndedStays(c, s, e, u);
      }
    }
  }

  lemma InsertionStep(c: Config, s: State, e: Event, g: nat)
    requires LedgerInv(c, s) && Enabled(c, s, e) && e.Run? && IsInserting(s.tasks, e.t) && g == s.store.lastGeneration + 1
    ensures var s' := Apply(c, s, e);
            e.t in s'.tasks
            && (s'.births != s.births ==>
                  && g in s'.births && s'.births == s.births[g := s'.births[g]] && s'.births[g].who == e.t
                  && Announces(s'.tasks[e.t], s'.births[g]))
  {
    InsertionBirths(c, s, e.t, s.tasks[e.t], e.choice);
  }

  lemma SameBearers(s: State, s': State)
    requires BearersOk(s) && s'.births == s.births
    requires EndedStay(s.tasks, s'.tasks)
    ensures BearersOk(s')
  {
    forall g <- s'.births ensures Announces(s'.tasks[s'.births[g].who], s'.births[g]) {
      assert HasEnded(s.tasks, s.births[g].who) && Announces(s.tasks[s.births[g].who], s.births[g]);
    }
  }

  lemma {:induction false} BearersAlways(c: Config, states: seq<State>, events: seq<Event>, i: nat)
    requires IsRun(c, states, events) && i < |states| && c.maxAttempts > 0
    ensures BearersOk(states[i])
    decreases i
  {
    if i > 0 {
      BearersAlways(c, states, events, i - 1);
      StepAt(c, states, events, i);
      BearersStep(c, states[i - 1], events[i - 1]);
    }
  }

  /** A creation stores at most one row, in every run; and if it was told an id and an expiry, they are
      that row's. */
  lemma OneRowEach(c: Config, states: seq<State>, events: seq<Event>, i: nat, g: nat, h: nat)
    requires IsRun(c, states, events) && i < |states| && c.maxAttempts > 0 && g in states[i].births && h in states[i].births
    ensures var s := states[i];
            && (s.births[g].who == s.births[h].who ==> g == h)
            && s.births[g].who in s.tasks && s.tasks[s.births[g].who].Creation? && s.tasks[s.births[g].who].step.Ended?
            && var told := s.tasks[s.births[g].who].step.created;
               told.CreatedAs? ==> told.id == s.births[g].id && told.expiresAt == s.births[g].entry.meta.expiresAt
  {
    BearersAlways(c, states, events, i);
    assert Announces(states[i].tasks[states[i].births[g].who], states[i].births[g]);
  }

  // ---------------------------------------------------------------- what is stored, and when it expires

  /** One step back from an insertion: it is the first try, right after the clock was read, or an
      earlier one with the same time. */
  lemma InsertingSince(c: Config, s: State, e: Event, t: TaskId)
    requires LedgerInv(c, s) && Enabled(c, s, e) && IsInserting(Apply(c, s, e).tasks, t)
    ensures t in s.tasks && s.tasks[t].Creation?
    ensures var from, to := s.tasks[t], Apply(c, s, e).tasks[t];
            if from.step.ReadClock? then e.Run? && e.t == t && to.step.now == s.clock
            else from.step.InsertRow? && to.step.now == from.step.now
  {
    if e.Run? && e.t == t {
      TaskAt(c, s, t);
      InsertingAfter(c, s, s.tasks[t], e.choice);
    } else if e != Abandon(t) {
      TaskInStep(c, s, e, t);
    }
  }

  lemma InsertingAfter(c: Config, s: State, task: Task, choice: Choice)
    requires Ready(c, s, task)
    ensures var to := After(c, s, task, choice);
            to.Creation? && to.step.InsertRow? ==>
              task.Creation? && if task.step.ReadClock? then to.step.now == s.clock else task.step.InsertRow? && to.step.now == task.step.now
  {
  }

  lemma {:induction false} ClockWasRead(c: Config, states: seq<State>, events: seq<Event>, i: nat, t: TaskId) returns (k: nat)
    requires IsRun(c, states, events) && i < |states| && c.maxAttempts > 0 && IsInserting(states[i].tasks, t)
    ensures k < i && events[k].Run? && events[k].t == t && states[k].clock == states[i].tasks[t].step.now
    decreases i
  {
    k := 0;
    assert i > 0;
    StepAt(c, states, events, i);
    InsertingSince(c, states[i - 1], events[i - 1], t);
    if states[i - 1].tasks[t].step.ReadClock? {
      k := i - 1;
    } else {
      k := ClockWasRead(c, states, events, i - 1, t);
    }
  }

  /** The step that gave birth to a generation. */
  lemma {:induction false} BirthHappened(c: Config, states: seq<State>, events: seq<Event>, i: nat, g: nat) returns (j: nat)
    requires IsRun(c, states, events) && i < |states| && c.maxAttempts > 0 && g in states[i].births
    ensures j < i && events[j].Run? && events[j].t == states[i].births[g].who && g !in states[j].births
    ensures g in states[j + 1].births && states[j + 1].births[g] == states[i].births[g]
    ensures IsInserting(states[j].tasks, events[j].t)
    ensures IsBorn(states[i].births[g], events[j].t, states[j].tasks[events[j].t], events[j].choice.id, g)
    decreases i
  {
    j := 0;
    assert i > 0;
    StepAt(c, states, events, i);
    var s, e := states[i - 1], events[i - 1];
    if g in s.births {
      RunRemembers(c, states, events, i - 1, i);
      j := BirthHappened(c, states, events, i - 1, g);
    } else {
      j := i - 1;
      BirthNow(c, s, e, g);
    }
  }

  lemma BirthNow(c: Config, s: State, e: Event, g: nat)
    requires LedgerInv(c, s) && Enabled(c, s, e) && g !in s.births && g in Apply(c, s, e).births
    ensures e.Run? && IsInserting(s.tasks, e.t) && IsBorn(Apply(c, s, e).births[g], e.t, s.tasks[e.t], e.choice.id, g)
  {
    if e.Run? && IsInserting(s.tasks, e.t) {
      InsertionBirths(c, s, e.t, s.tasks[e.t], e.choice);
    } else {
      OnlyInsertionsBear(c, s, e);
    }
  }

  /** Every row ever stored was stored by a creation that had hashed its PIN and then read the clock:
      it holds the blob and the salt sent, the hash of the PIN, no failed attempt, the protocol's
      version, and expires exactly the lifetime asked for after the time the clock showed. */
  lemma RowsAreAsSent(c: Config, states: seq<State>, events: seq<Event>, i: nat, g: nat) returns (k: nat, j: nat)
    requires IsRun(c, states, events) && i < |states| && c.maxAttempts > 0 && g in states[i].births
    ensures var b := states[i].births[g];
            && b.who in states[i].tasks && states[i].tasks[b.who].Creation?
            && k < j < i && events[k].Run? && events[k].t == b.who && events[j].Run? && events[j].t == b.who
            && b.id == events[j].choice.id && g !in states[j].births
            && var task := states[i].tasks[b.who];
               b.entry == Entry(task.blob, Meta(g, task.salt, c.hash(task.pin, task.salt), states[k].clock + task.ttl, 0), 2)
  {
    j := BirthHappened(c, states, events, i, g);
    var t := events[j].t;
    k := ClockWasRead(c, states, events, j, t);
    RunRemembers(c, states, events, j, i);
    LedgerAt(c, states, events, i);
    assert BirthOk(c, states[i].tasks, states[i].births[g]);
  }

  // ---------------------------------------------------------------- what a creation is told

  predicate IsTold(tasks: map<TaskId, Task>, t: TaskId, created: Created) {
    t in tasks && tasks[t].Creation? && tasks[t].step == Ended(created)
  }

  lemma ToldNow(c: Config, s: State, e: Event, t: TaskId, created: Created)
    requires LedgerInv(c, s) && Enabled(c, s, e) && IsTold(Apply(c, s, e).tasks, t, created) && created.CreatedAs?
    ensures IsTold(s.tasks, t, created)
         || (s.store.lastGeneration + 1 in Apply(c, s, e).births && Apply(c, s, e).births[s.store.lastGeneration + 1].who == t)
  {
    TaskInStep(c, s, e, t);
    if e.Run? && e.t == t {
      TaskAt(c, s, t);
      if IsInserting(s.tasks, t) {
        InsertionBirths(c, s, t, s.tasks[t], e.choice);
      } else {
        NotToldOtherwise(c, s, s.tasks[t], e.choice);
      }
    }
  }

  lemma NotToldOtherwise(c: Config, s: State, task: Task, choice: Choice)
    requires Ready(c, s, task) && !(task.Creation? && task.step.InsertRow?)
    ensures var to := After(c, s, task, choice); !(to.Creation? && to.step.Ended? && to.step.created.CreatedAs?)
  {
  }

  /** Whoever is told that the message was created stored a row. */
  lemma {:induction false} ToldIsStored(c: Config, states: seq<State>, events: seq<Event>, i: nat, t: TaskId, created: Created)
      returns (g: nat)
    requires IsRun(c, states, events) && i < |states| && c.maxAttempts > 0
    requires IsTold(states[i].tasks, t, created) && created.CreatedAs?
    ensures g in states[i].births && states[i].births[g].who == t
    ensures created == CreatedAs(states[i].births[g].id, states[i].births[g].entry.meta.expiresAt)
    decreases i
  {
    g := 0;
    assert i > 0;
    StepAt(c, states, events, i);
    var s := states[i - 1];
    ToldNow(c, s, events[i - 1], t, created);
    if IsTold(s.tasks, t, created) {
      g := ToldIsStored(c, states, events, i - 1, t, created);
      RunRemembers(c, states, events, i - 1, i);
    } else {
      g := s.store.lastGeneration + 1;
      BearersAlways(c, states, events, i);
      assert Announces(states[i].tasks[t], states[i].births[g]);
    }
  }

  /** A creation that stored a row and was not told so met a fault that struck after the commit. */
  lemma {:induction false} StoredIsTold(c: Config, states: seq<State>, events: seq<Event>, i: nat, g: nat) returns (j: nat)
    requires IsRun(c, states, events) && i < |states| && c.maxAttempts > 0 && g in states[i].births
    ensures var b := states[i].births[g];
            && j < i && events[j].Run? && events[j].t == b.who
            && IsTold(states[i].tasks, b.who, if events[j].choice.fault.NoFault? then CreatedAs(b.id, b.entry.meta.expiresAt) else Refused)
            && !events[j].choice.fault.BeforeCommit?
  {
    j := BirthHappened(c, states, events, i, g);
    StepAt(c, states, events, j + 1);
    var s, e := states[j], events[j];
    TellsNow(c, s, e, g, states[i].births[g]);
    ToldStays(c, states, events, j + 1, i, e.t);
  }

  lemma TellsNow(c: Config, s: State, e: Event, g: nat, b: Birth)
    requires LedgerInv(c, s) && Enabled(c, s, e) && e.Run? && IsInserting(s.tasks, e.t) && g !in s.births
    requires IsBorn(b, e.t, s.tasks[e.t], e.choice.id, g)
    ensures g in Apply(c, s, e).births ==>
              && !e.choice.fault.BeforeCommit?
              && IsTold(Apply(c, s, e).tasks, e.t, if e.choice.fault.NoFault? then CreatedAs(b.id, b.entry.meta.expiresAt) else Refused)
  {
    InsertionBirths(c, s, e.t, s.tasks[e.t], e.choice);
  }

  lemma {:induction false} ToldStays(c: Config, states: seq<State>, events: seq<Event>, i: nat, k: nat, t: TaskId)
    requires IsRun(c, states, events) && i <= k < |states| && c.maxAttempts > 0 && HasEnded(states[i].tasks, t)
    ensures HasEnded(states[k].tasks, t) && states[k].tasks[t] == states[i].tasks[t]
    decreases k
  {
    if i < k {
      ToldStays(c, states, events, i, k - 1, t);
      StepAt(c, states, events, k);
      EndedStays(c, states[k - 1], events[k - 1], t);
    }
  }

  // ---------------------------------------------------------------- sweeps

  predicate IsSweeping(tasks: map<TaskId, Task>, t: TaskId) { t in tasks && tasks[t].Sweeping? && tasks[t].stage.DeleteExpired? }

  lemma SweepingSince(c: Config, s: State, e: Event, t: TaskId)
    requires Enabled(c, s, e) && IsSweeping(Apply(c, s, e).tasks, t)
    ensures if IsSweeping(s.tasks, t) then s.tasks[t] == Apply(c, s, e).tasks[t]
            else e.Run? && e.t == t && Apply(c, s, e).tasks[t].stage.now == s.clock
  {
  }

  lemma SweepingOnce(c: Config, states: seq<State>, events: seq<Event>, i: nat, t: TaskId)
    requires IsRun(c, states, events) && 0 < i < |states| && c.maxAttempts > 0 && IsSweeping(states[i].tasks, t)
    ensures if IsSweeping(states[i - 1].tasks, t) then states[i - 1].tasks[t] == states[i].tasks[t]
            else events[i - 1].Run? && events[i - 1].t == t && states[i].tasks[t].stage.now == states[i - 1].clock
  {
    StepAt(c, states, events, i);
    SweepingSince(c, states[i - 1], events[i - 1], t);
  }

  lemma {:induction false} SweepReadTheClock(c: Config, states: seq<State>, events: seq<Event>, i: nat, t: TaskId) returns (k: nat)
    requires IsRun(c, states, events) && i < |states| && c.maxAttempts > 0 && IsSweeping(states[i].tasks, t)
    ensures k < i && events[k].Run? && events[k].t == t && states[k].clock == states[i].tasks[t].stage.now
    decreases i
  {
    k := 0;
    assert i > 0;
    SweepingOnce(c, states, events, i, t);
    if IsSweeping(states[i - 1].tasks, t) {
      k := SweepReadTheClock(c, states, events, i - 1, t);
    } else {
      k := i - 1;
    }
  }

  /** The rows after a sweep at `now`: none that has expired, and every other as it was. */
  ghost predicate IsSwept(before: Contents, after: Contents, now: Time) {
    && after.lastGeneration == before.lastGeneration
    && (forall id <- after.rows :: id in before.rows && after.rows[id] == before.rows[id] && now < after.rows[id].meta.expiresAt)
    && (forall id <- before.rows :: now < before.rows[id].meta.expiresAt ==> id in after.rows)
  }

  /** Each row that had expired met its end in this sweep. */
  ghost predicate AreSweptBy(s: State, s': State, now: Time, t: TaskId) {
    forall id <- s.store.rows :: s.store.rows[id].meta.expiresAt <= now ==>
      var g := s.store.rows[id].meta.generation; g in s'.fates && s'.fates[g] == ExpiredAt(now, t)
  }

  /** A sweep's deleting step, unless it is rolled back, leaves no row that had expired at the time the
      sweep read from the clock, and every other row as it was; each row it took has the sweep as its
      fate. Rolled back, it leaves the store as it was. */
  lemma SweepDeletesTheExpired(c: Config, states: seq<State>, events: seq<Event>, i: nat) returns (k: nat)
    requires IsRun(c, states, events) && i < |events| && c.maxAttempts > 0
    requires events[i].Run? && IsSweeping(states[i].tasks, events[i].t)
    ensures k < i && events[k].Run? && events[k].t == events[i].t
    ensures if events[i].choice.fault.BeforeCommit? then states[i + 1].store == states[i].store
            else IsSwept(states[i].store, states[i + 1].store, states[k].clock)
                 && AreSweptBy(states[i], states[i + 1], states[k].clock, events[i].t)
  {
    k := SweepReadTheClock(c, states, events, i, events[i].t);
    SweepInRun(c, states, events, i, states[k].clock);
  }

  lemma SweepInRun(c: Config, states: seq<State>, events: seq<Event>, i: nat, now: Time)
    requires IsRun(c, states, events) && i < |events| && c.maxAttempts > 0 && events[i].Run?
    requires IsSweeping(states[i].tasks, events[i].t) && states[i].tasks[events[i].t].stage.now == now
    ensures if events[i].choice.fault.BeforeCommit? then states[i + 1].store == states[i].store
            else IsSwept(states[i].store, states[i + 1].store, now) && AreSweptBy(states[i], states[i + 1], now, events[i].t)
  {
    StepAt(c, states, events, i + 1);
    SweepStep(c, states[i], events[i], now);
  }

  lemma SweepStep(c: Config, s: State, e: Event, now: Time)
    requires LedgerInv(c, s) && Enabled(c, s, e) && e.Run? && s.tasks[e.t] == Sweeping(DeleteExpired(now))
    ensures var s' := Apply(c, s, e);
            if e.choice.fault.BeforeCommit? then s'.store == s.store
            else IsSwept(s.store, s'.store, now) && AreSweptBy(s, s', now, e.t)
  {
    var s' := Apply(c, s, e);
    forall id <- s.store.rows | s.store.rows[id].meta.expiresAt <= now && !e.choice.fault.BeforeCommit?
      ensures var g := s.store.rows[id].meta.generation; g in s'.fates && s'.fates[g] == ExpiredAt(now, e.t)
    {
      var g := s.store.rows[id].meta.generation;
      assert s.births[g].id == id && Alive(s.births, s.store, g) && !Alive(s.births, s'.store, g);
    }
  }
}
