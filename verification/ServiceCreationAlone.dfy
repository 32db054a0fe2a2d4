/** What a creation does when nothing interferes: it hashes the PIN, reads the clock once, and tries at
    most ten ids until one is free. */
module ServiceCreationAlone {
  import opened Basics
  import opened Records
  import opened Service
  import opened ServiceAlone

  /** Steps of task `t`, and of no other, with these choices of the environment. */
  ghost function AloneWith(c: Config, s: State, t: TaskId, choices: seq<Choice>): State
    decreases |choices|
  {
    if choices == [] || t !in s.tasks || !Ready(c, s, s.tasks[t]) then s
    else AloneWith(c, RunTask(c, s, t, s.tasks[t], choices[0]), t, choices[1..])
  }

  lemma {:induction false} AloneWithBoth(c: Config, s: State, t: TaskId, a: seq<Choice>, b: seq<Choice>)
    ensures AloneWith(c, s, t, a + b) == AloneWith(c, AloneWith(c, s, t, a), t, b)
    decreases |a|
  {
    if a == [] {
      assert a + b == b;
    } else if t in s.tasks && Ready(c, s, s.tasks[t]) {
      assert (a + b)[1..] == a[1..] + b;
      AloneWithBoth(c, RunTask(c, s, t, s.tasks[t], a[0]), t, a[1..], b);
    }
  }

  // ---------------------------------------------------------------- up to the first id

  /** Task `t` stands at `task`, and the rest is as in `from`. */
  ghost predicate IsAt(from: State, s: State, t: TaskId, task: Task) { s == from.(tasks := from.tasks[t := task]) }

  lemma QuietStep(c: Config, from: State, s: State, t: TaskId, task: Task)
    requires IsAt(from, s, t, task) && task.Creation? && Ready(c, s, task) && !CallsStore(task)
    ensures IsAt(Effects(c, from, t, task), RunTask(c, s, t, task, QUIET), t, Next(c, from, task, QUIET))
  {
    assert RunTask(c, s, t, task, QUIET).tasks == from.tasks[t := Next(c, s, task, QUIET)];
  }

  lemma OneQuietStep(c: Config, from: State, s: State, t: TaskId, task: Task, more: seq<Choice>) returns (s': State)
    requires IsAt(from, s, t, task) && task.Creation? && Ready(c, s, task) && !CallsStore(task)
    ensures AloneWith(c, s, t, [QUIET] + more) == AloneWith(c, s', t, more)
    ensures IsAt(Effects(c, from, t, task), s', t, Next(c, from, task, QUIET))
  {
    s' := RunTask(c, s, t, task, QUIET);
    QuietStep(c, from, s, t, task);
    assert ([QUIET] + more)[1..] == more;
  }

  const FIVE := [QUIET, QUIET, QUIET, QUIET, QUIET]

  /** Into the pool, with a permit and still counted as waiting. */
  lemma IntoThePool(c: Config, s: State, s0: State, t: TaskId, task: Task, more: seq<Choice>) returns (s': State)
    requires task.Creation? && task.step == Hash(Joining) && IsAt(s, s0, t, task) && s.waiting < c.maxWaiting && s.freePermits > 0
    ensures AloneWith(c, s0, t, [QUIET] + ([QUIET] + more)) == AloneWith(c, s', t, more)
    ensures IsAt(s.(waiting := s.waiting + 1, freePermits := s.freePermits - 1), s', t, task.(step := Hash(Granted)))
  {
    var s1 := OneQuietStep(c, s, s0, t, task, [QUIET] + more);
    s' := OneQuietStep(c, s.(waiting := s.waiting + 1), s1, t, task.(step := Hash(Queued(s.waiting))), more);
  }

  /** Out of it, and the PIN is hashed. */
  lemma OutOfThePool(c: Config, s: State, s0: State, t: TaskId, task: Task, more: seq<Choice>) returns (s': State)
    requires task.Creation? && task.step == Hash(Granted)
    requires IsAt(s.(waiting := s.waiting + 1, freePermits := s.freePermits - 1), s0, t, task)
    ensures AloneWith(c, s0, t, [QUIET] + ([QUIET] + more)) == AloneWith(c, s', t, more)
    ensures IsAt(s, s', t, task.(step := ReadClock(c.hash(task.pin, task.salt))))
  {
    var granted := s.(waiting := s.waiting + 1, freePermits := s.freePermits - 1);
    var s1 := OneQuietStep(c, granted, s0, t, task, [QUIET] + more);
    s' := OneQuietStep(c, s.(freePermits := s.freePermits - 1), s1, t, task.(step := Hash(Hashing)), more);
    assert s.(freePermits := s.freePermits - 1 + 1) == s;
  }

  /** A permit taken and given back, and a look at the clock. */
  lemma ToTheInsertion(c: Config, s: State, t: TaskId, blob: Bytes, pin: string, salt: string, ttl: nat)
    requires t !in s.tasks && s.waiting < c.maxWaiting && s.freePermits > 0
    ensures IsAt(s, AloneWith(c, Apply(c, s, CreateArrives(t, blob, pin, salt, ttl)), t, FIVE), t,
                 Creation(blob, pin, salt, ttl, InsertRow(c.hash(pin, salt), s.clock, 10, false)))
  {
    var task := Creation(blob, pin, salt, ttl, Hash(Joining));
    var last := [QUIET] + [];
    assert FIVE == [QUIET] + ([QUIET] + ([QUIET] + ([QUIET] + last)));
    var s2 := IntoThePool(c, s, Apply(c, s, CreateArrives(t, blob, pin, salt, ttl)), t, task, [QUIET] + ([QUIET] + last));
    var s4 := OutOfThePool(c, s, s2, t, task.(step := Hash(Granted)), last);
    var s5 := OneQuietStep(c, s, s4, t, task.(step := ReadClock(c.hash(pin, salt))), []);
  }

  // ---------------------------------------------------------------- trying ids

  /** The first of these ids that is free takes the message; a store without room ends the search. */
  ghost function FirstFree(store: Contents, caps: Caps, m: NewMessage, now: Time, ids: seq<Id>): (Contents, Created)
    decreases |ids|
  {
    if ids == [] then (store, Refused)
    else
      var (after, outcome) := Insert(store, caps, m.(id := ids[0]), now);
      if outcome.Ok? then (after, CreatedAs(ids[0], m.expiresAt))
      else if outcome.error.IdTaken? then FirstFree(after, caps, m, now, ids[1..])
      else (after, Refused)
  }

  function Trying(ids: seq<Id>): seq<Choice> {
    if ids == [] then [] else [Choice(NoFault, ids[0], true)] + Trying(ids[1..])
  }

  /** The creation is over, and of the rest only the store and its history changed. */
  ghost predicate IsOver(from: State, s: State, t: TaskId, store: Contents, created: Created) {
    && t in s.tasks && s.tasks[t].Creation? && s.tasks[t].step == Ended(created)
    && s == from.(store := store, births := s.births, fates := s.fates, tasks := from.tasks[t := s.tasks[t]])
  }

  /** One try: the service as it is but for the store, and the creation over or at its next try. */
  lemma OneTry(c: Config, from: State, s: State, t: TaskId, task: Task, id: Id) returns (to: State, s': State)
    requires IsAt(from, s, t, task) && Ready(c, s, task) && task.Creation? && task.step.InsertRow? && !task.step.abandoned
    ensures s' == RunTask(c, s, t, task, Choice(NoFault, id, true))
    ensures var (after, outcome) := Insert(from.store, c.caps,
              NewMessage(id, task.blob, task.salt, task.step.verifier, task.step.now + task.ttl, 2), task.step.now);
            && to == from.(store := after, births := to.births, fates := to.fates)
            && IsAt(to, s', t, task.(step :=
                 if outcome.Ok? then Ended(CreatedAs(id, task.step.now + task.ttl))
                 else if outcome.error.IdTaken? && task.step.left > 1 then task.step.(left := task.step.left - 1)
                 else Ended(Refused)))
  {
    var choice := Choice(NoFault, id, true);
    s' := RunTask(c, s, t, task, choice);
    TryAnswers(c, s, task, id);
    TryStores(c, s, t, task, id);
    to := from.(store := s'.store, births := s'.births, fates := s'.fates);
    assert s'.tasks == from.tasks[t := s'.tasks[t]];
  }

  lemma TryAnswers(c: Config, s: State, task: Task, id: Id)
    requires task.Creation? && task.step.InsertRow? && WellPhased(task) && !task.step.abandoned
    ensures var outcome := Insert(s.store, c.caps, MessageOf(task, id), task.step.now).1;
            RowInserted(c, s, task, Choice(NoFault, id, true)) == task.(step :=
              if outcome.Ok? then Ended(CreatedAs(id, task.step.now + task.ttl))
              else if outcome.error.IdTaken? && task.step.left > 1 then task.step.(left := task.step.left - 1)
              else Ended(Refused))
  {
    TakenGivesBack(s.store, c.caps, MessageOf(task, id), task.step.now);
  }

  lemma TakenGivesBack(store: Contents, caps: Caps, m: NewMessage, now: Time)
    ensures var outcome := Insert(store, caps, m, now).1; outcome.Err? && outcome.error.IdTaken? ==> outcome.error.blob == m.blob
  {
  }

  lemma TryStores(c: Config, s: State, t: TaskId, task: Task, id: Id)
    requires task.Creation? && task.step.InsertRow? && WellPhased(task)
    ensures var s' := InsertsRow(c, s, t, task, Choice(NoFault, id, true));
            && s'.store == Insert(s.store, c.caps, MessageOf(task, id), task.step.now).0
            && s' == s.(store := s'.store, births := s'.births, fates := s'.fates)
  {
  }

  lemma {:induction false} TriesInTurn(c: Config, from: State, s: State, t: TaskId, task: Task, ids: seq<Id>)
    requires IsAt(from, s, t, task) && task.Creation? && task.step.InsertRow? && !task.step.abandoned
    requires 0 < |ids| == task.step.left
    ensures var m := NewMessage("", task.blob, task.salt, task.step.verifier, task.step.now + task.ttl, 2);
            var (store, created) := FirstFree(from.store, c.caps, m, task.step.now, ids);
            IsOver(from, AloneWith(c, s, t, Trying(ids)), t, store, created)
    decreases |ids|
  {
    var m := NewMessage("", task.blob, task.salt, task.step.verifier, task.step.now + task.ttl, 2);
    var to, s' := OneTry(c, from, s, t, task, ids[0]);
    var next := s'.tasks[t];
    assert Trying(ids)[1..] == Trying(ids[1..]);
    assert m.(id := ids[0]) == NewMessage(ids[0], task.blob, task.salt, task.step.verifier, task.step.now + task.ttl, 2);
    if next.step.InsertRow? {
      TriesInTurn(c, to, s', t, next, ids[1..]);
    } else {
      EndedIsStuck(c, s', t, Trying(ids[1..]));
      if |ids| == 1 {
        assert ids[1..] == [];
      }
    }
  }

  lemma EndedIsStuck(c: Config, s: State, t: TaskId, choices: seq<Choice>)
    requires t in s.tasks && s.tasks[t].Creation? && s.tasks[t].step.Ended?
    ensures AloneWith(c, s, t, choices) == s
  {
  }

  /** An undisturbed creation stores the message under the first free one of the ten ids it is given,
      to expire its lifetime after the time the clock shows, and announces that; without a free id or
      without room it is refused. It gives its permit back. */
  lemma UndisturbedCreation(c: Config, s: State, t: TaskId, blob: Bytes, pin: string, salt: string, ttl: nat, ids: seq<Id>)
    requires t !in s.tasks && s.waiting < c.maxWaiting && s.freePermits > 0 && |ids| == 10
    ensures var m := NewMessage("", blob, salt, c.hash(pin, salt), s.clock + ttl, 2);
            var (store, created) := FirstFree(s.store, c.caps, m, s.clock, ids);
            IsOver(s, AloneWith(c, Apply(c, s, CreateArrives(t, blob, pin, salt, ttl)), t, FIVE + Trying(ids)), t, store, created)
  {
    var arrived := Apply(c, s, CreateArrives(t, blob, pin, salt, ttl));
    ToTheInsertion(c, s, t, blob, pin, salt, ttl);
    AloneWithBoth(c, arrived, t, FIVE, Trying(ids));
    TriesInTurn(c, s, AloneWith(c, arrived, t, FIVE), t,
                Creation(blob, pin, salt, ttl, InsertRow(c.hash(pin, salt), s.clock, 10, false)), ids);
  }
}
