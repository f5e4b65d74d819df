/** Scheduling of model calls: one lock per conversation, found through weak references, and four permits. */
module ModelExecutor {
  type Key = string

  const PERMITS: nat := 4

  /** The table of weak references, the number of strong references to each lock ever made, and how many were. */
  datatype Table = Table(sessions: map<Key, nat>, strong: map<nat, nat>, made: nat)

  predicate Alive(t: Table, lock: nat) {
    lock in t.strong && t.strong[lock] > 0
  }

  /** The references that are not dead. */
  function Kept(t: Table): map<Key, nat> {
    map k | k in t.sessions && Alive(t, t.sessions[k]) :: t.sessions[k]
  }

  function Entering(t: Table, key: Key): (Table, nat) {
    var kept := Kept(t);
    if key in kept then
      (t.(sessions := kept, strong := t.strong[kept[key] := t.strong[kept[key]] + 1]), kept[key])
    else
      (Table(kept[key := t.made], t.strong[t.made := 1], t.made + 1), t.made)
  }

  function Leaving(t: Table, lock: nat): Table {
    if Alive(t, lock) then t.(strong := t.strong[lock := t.strong[lock] - 1]) else t
  }

  class LockTable {
    var sessions: map<Key, nat>
    var strong: map<nat, nat>
    var made: nat

    ghost function View(): Table
      reads this
    {
      Table(sessions, strong, made)
    }

    constructor ()
      ensures View() == Table(map[], map[], 0)
    {
      sessions, strong, made := map[], map[], 0;
    }

    method Enter(key: Key) returns (lock: nat)
      modifies this
      ensures (View(), lock) == Entering(old(View()), key)
    {
      ghost var before := View();
      sessions := map k | k in sessions && sessions[k] in strong && strong[sessions[k]] > 0 :: sessions[k];
      assert sessions == Kept(before);
      if key in sessions {
        lock := sessions[key];
        strong := strong[lock := strong[lock] + 1];
      } else {
        lock := made;
        made := made + 1;
        strong := strong[lock := 1];
        sessions := sessions[key := lock];
      }
    }

    method Leave(lock: nat)
      modifies this`strong
      ensures View() == Leaving(old(View()), lock)
    {
      if lock in strong && strong[lock] > 0 {
        strong := strong[lock := strong[lock] - 1];
      }
    }
  }

  // ---- Interleaved calls ----

  datatype Phase = Queued | Locked | Running

  datatype Task = Task(key: Key, lock: nat, phase: Phase)

  datatype Event =
    | Call(id: nat, key: Key)
    | AcquireLock(id: nat)
    | AcquirePermit(id: nat)
    | Finish(id: nat)
    | Cancel(id: nat)

  datatype System = System(table: Table, held: set<nat>, permits: nat, tasks: map<nat, Task>)

  function Initial(): System {
    System(Table(map[], map[], 0), {}, PERMITS, map[])
  }

  /** A call returns, is cancelled or runs out of time: its guards and then its reference go. */
  function Ended(s: System, id: nat): System
    requires id in s.tasks
  {
    var task := s.tasks[id];
    System(Leaving(s.table, task.lock),
           if task.phase.Queued? then s.held else s.held - {task.lock},
           if task.phase.Running? then s.permits + 1 else s.permits,
           s.tasks - {id})
  }

  predicate Enabled(s: System, e: Event) {
    match e
    case Call(id, _) => id !in s.tasks
    case AcquireLock(id) => id in s.tasks && s.tasks[id].phase.Queued? && s.tasks[id].lock !in s.held
    case AcquirePermit(id) => id in s.tasks && s.tasks[id].phase.Locked? && s.permits > 0
    case Finish(id) => id in s.tasks && s.tasks[id].phase.Running?
    case Cancel(id) => id in s.tasks
  }

  function Step(s: System, e: Event): System {
    if !Enabled(s, e) then s
    else
      match e
      case Call(id, key) =>
        var (table, lock) := Entering(s.table, key);
        s.(table := table, tasks := s.tasks[id := Task(key, lock, Queued)])
      case AcquireLock(id) =>
        s.(held := s.held + {s.tasks[id].lock}, tasks := s.tasks[id := s.tasks[id].(phase := Locked)])
      case AcquirePermit(id) =>
        s.(permits := s.permits - 1, tasks := s.tasks[id := s.tasks[id].(phase := Running)])
      case Finish(id) => Ended(s, id)
      case Cancel(id) => Ended(s, id)
  }

  function Run(events: seq<Event>): System {
    if |events| == 0 then Initial() else Step(Run(events[..|events| - 1]), events[|events| - 1])
  }

  // ---- What every step keeps ----

  ghost function Users(tasks: map<nat, Task>, lock: nat): set<nat> {
    set id | id in tasks && tasks[id].lock == lock
  }

  ghost function Runners(tasks: map<nat, Task>): set<nat> {
    set id | id in tasks && tasks[id].phase.Running?
  }

  /** The counts are right, and every live call is reached through the table by its own key. */
  ghost predicate Counted(s: System) {
    && (forall lock :: lock in s.table.strong ==>
          s.table.strong[lock] == |Users(s.tasks, lock)| && lock < s.table.made)
    && (forall k :: k in s.table.sessions ==> s.table.sessions[k] in s.table.strong)
    && (forall k, l :: k in s.table.sessions && l in s.table.sessions && k != l ==>
          s.table.sessions[k] != s.table.sessions[l])
    && (forall id :: id in s.tasks ==>
          s.tasks[id].key in s.table.sessions && s.table.sessions[s.tasks[id].key] == s.tasks[id].lock)
  }

  predicate Holds(tasks: map<nat, Task>, id: nat) {
    id in tasks && !tasks[id].phase.Queued?
  }

  ghost predicate Exclusive(s: System) {
    && (forall id :: Holds(s.tasks, id) ==> s.tasks[id].lock in s.held)
    && (forall a, b :: Holds(s.tasks, a) && Holds(s.tasks, b) && s.tasks[a].lock == s.tasks[b].lock ==> a == b)
    && (forall lock :: lock in s.held ==> exists id :: Holds(s.tasks, id) && s.tasks[id].lock == lock)
  }

  ghost predicate Permitted(s: System) {
    |Runners(s.tasks)| + s.permits == PERMITS
  }

  lemma UsersSet(tasks: map<nat, Task>, id: nat, task: Task, lock: nat)
    ensures Users(tasks[id := task], lock) ==
      if task.lock == lock then Users(tasks, lock) + {id} else Users(tasks, lock) - {id}
    ensures id in Users(tasks, lock) <==> id in tasks && tasks[id].lock == lock
  {
  }

  lemma UserAdded(tasks: map<nat, Task>, id: nat, task: Task)
    requires id !in tasks
    ensures forall lock ::
      |Users(tasks[id := task], lock)| == |Users(tasks, lock)| + if lock == task.lock then 1 else 0
  {
    forall lock
      ensures |Users(tasks[id := task], lock)| == |Users(tasks, lock)| + if lock == task.lock then 1 else 0
    {
      UsersSet(tasks, id, task, lock);
      assert id !in Users(tasks, lock);
      hide Users;
      assert task.lock != lock ==> Users(tasks, lock) - {id} == Users(tasks, lock);
    }
  }

  lemma UsersGone(tasks: map<nat, Task>, id: nat, lock: nat)
    ensures Users(tasks - {id}, lock) == Users(tasks, lock) - {id}
    ensures id in Users(tasks, lock) <==> id in tasks && tasks[id].lock == lock
  {
  }

  lemma UsedIsAlive(s: System, id: nat)
    requires Counted(s) && id in s.tasks
    ensures Alive(s.table, s.tasks[id].lock)
  {
    assert id in Users(s.tasks, s.tasks[id].lock);
  }

  /** Dropping dead weak references loses no live call. */
  lemma KeptCounts(s: System)
    requires Counted(s)
    ensures Counted(s.(table := s.table.(sessions := Kept(s.table))))
  {
    forall id | id in s.tasks
      ensures Alive(s.table, s.tasks[id].lock)
    {
      UsedIsAlive(s, id);
    }
    hide Users;
  }

  /** One more call of a conversation that has a lock. */
  lemma ShareCounts(s: System, id: nat, key: Key)
    requires Counted(s) && id !in s.tasks && key in s.table.sessions
    ensures var lock := s.table.sessions[key];
      && lock in s.table.strong
      && Counted(s.(table := s.table.(strong := s.table.strong[lock := s.table.strong[lock] + 1]),
                    tasks := s.tasks[id := Task(key, lock, Queued)]))
  {
    var lock := s.table.sessions[key];
    UserAdded(s.tasks, id, Task(key, lock, Queued));
    hide Users;
  }

  /** The first call of a conversation makes its lock. */
  lemma NewCounts(s: System, id: nat, key: Key)
    requires Counted(s) && id !in s.tasks && key !in s.table.sessions
    ensures var lock := s.table.made;
      Counted(s.(table := Table(s.table.sessions[key := lock], s.table.strong[lock := 1], lock + 1),
                 tasks := s.tasks[id := Task(key, lock, Queued)]))
  {
    var lock := s.table.made;
    NeverUsed(s, lock);
    UserAdded(s.tasks, id, Task(key, lock, Queued));
    hide Users;
    assert forall k :: k in s.table.sessions ==> s.table.sessions[k] != lock;
  }

  lemma CallCounts(s: System, id: nat, key: Key)
    requires Counted(s) && id !in s.tasks
    ensures Counted(Step(s, Call(id, key)))
  {
    hide Counted, Kept;
    KeptCounts(s);
    var kept := s.(table := s.table.(sessions := Kept(s.table)));
    if key in kept.table.sessions {
      ShareCounts(kept, id, key);
    } else {
      NewCounts(kept, id, key);
    }
  }

  lemma NeverUsed(s: System, lock: nat)
    requires Counted(s)
    ensures lock !in s.table.strong ==> Users(s.tasks, lock) == {}
  {
  }

  lemma EndCounts(s: System, id: nat)
    requires Counted(s) && id in s.tasks
    ensures Counted(Ended(s, id))
  {
    UsedIsAlive(s, id);
    var t := Ended(s, id);
    forall lock | lock in t.table.strong
      ensures t.table.strong[lock] == |Users(t.tasks, lock)|
    {
      UsersGone(s.tasks, id, lock);
    }
  }

  lemma PhaseCounts(s: System, id: nat, phase: Phase)
    requires Counted(s) && id in s.tasks
    ensures Counted(s.(tasks := s.tasks[id := s.tasks[id].(phase := phase)]))
  {
    var t := s.(tasks := s.tasks[id := s.tasks[id].(phase := phase)]);
    forall lock | lock in t.table.strong
      ensures Users(t.tasks, lock) == Users(s.tasks, lock)
    {
      UsersSet(s.tasks, id, t.tasks[id], lock);
      assert id in Users(s.tasks, lock) <==> s.tasks[id].lock == lock;
      hide Users;
    }
    hide Users;
  }

  lemma StepCounts(s: System, e: Event)
    requires Counted(s)
    ensures Counted(Step(s, e))
  {
    if Enabled(s, e) {
      match e {
        case Call(id, key) => CallCounts(s, id, key);
        case AcquireLock(id) => PhaseCounts(s, id, Locked); SameTasks(s, id, Locked, Step(s, e));
        case AcquirePermit(id) => PhaseCounts(s, id, Running); SameTasks(s, id, Running, Step(s, e));
        case Finish(id) => EndCounts(s, id);
        case Cancel(id) => EndCounts(s, id);
      }
    }
  }

  lemma SameTasks(s: System, id: nat, phase: Phase, t: System)
    requires id in s.tasks && Counted(s.(tasks := s.tasks[id := s.tasks[id].(phase := phase)]))
    requires t.table == s.table && t.tasks == s.tasks[id := s.tasks[id].(phase := phase)]
    ensures Counted(t)
  {
  }

  lemma StepExcludes(s: System, e: Event)
    requires Counted(s) && Exclusive(s)
    ensures Exclusive(Step(s, e))
  {
    if Enabled(s, e) {
      match e {
        case Call(id, key) =>
          hide Entering, Counted;
          HoldersSame(s, Step(s, e));
        case AcquireLock(id) => LockExcludes(s, id);
        case AcquirePermit(id) => HoldersSame(s, Step(s, e));
        case Finish(id) => EndExcludes(s, id);
        case Cancel(id) => EndExcludes(s, id);
      }
    }
  }

  lemma HoldersSame(s: System, t: System)
    requires Exclusive(s) && t.held == s.held
    requires forall id :: Holds(s.tasks, id) <==> Holds(t.tasks, id)
    requires forall id :: Holds(s.tasks, id) && Holds(t.tasks, id) ==> t.tasks[id].lock == s.tasks[id].lock
    ensures Exclusive(t)
  {
    forall lock | lock in t.held
      ensures exists id :: Holds(t.tasks, id) && t.tasks[id].lock == lock
    {
      var id :| Holds(s.tasks, id) && s.tasks[id].lock == lock;
      assert Holds(t.tasks, id);
    }
  }

  lemma LockExcludes(s: System, id: nat)
    requires Exclusive(s) && Enabled(s, AcquireLock(id))
    ensures Exclusive(Step(s, AcquireLock(id)))
  {
    var t := Step(s, AcquireLock(id));
    assert Holds(t.tasks, id);
    forall lock | lock in t.held
      ensures exists holder :: Holds(t.tasks, holder) && t.tasks[holder].lock == lock
    {
      if lock in s.held {
        var holder :| Holds(s.tasks, holder) && s.tasks[holder].lock == lock;
        assert Holds(t.tasks, holder);
      }
    }
  }

  lemma EndExcludes(s: System, id: nat)
    requires Exclusive(s) && id in s.tasks
    ensures Exclusive(Ended(s, id))
  {
    hide Leaving;
    var t := Ended(s, id);
    assert forall other :: Holds(t.tasks, other) ==> Holds(s.tasks, other) && other != id;
    forall lock | lock in t.held
      ensures exists holder :: Holds(t.tasks, holder) && t.tasks[holder].lock == lock
    {
      var holder :| Holds(s.tasks, holder) && s.tasks[holder].lock == lock;
      assert Holds(t.tasks, holder);
    }
  }

  lemma RunnersSet(tasks: map<nat, Task>, id: nat, task: Task)
    ensures Runners(tasks[id := task]) == if task.phase.Running? then Runners(tasks) + {id} else Runners(tasks) - {id}
    ensures Runners(tasks - {id}) == Runners(tasks) - {id}
    ensures id in Runners(tasks) <==> id in tasks && tasks[id].phase.Running?
  {
  }

  lemma StepPermits(s: System, e: Event)
    requires Permitted(s)
    ensures Permitted(Step(s, e))
  {
    if Enabled(s, e) {
      var t := Step(s, e);
      RunnersSet(s.tasks, e.id, if e.id in t.tasks then t.tasks[e.id] else s.tasks[e.id]);
      hide Runners, Entering, Leaving;
    }
  }

  ghost predicate Inv(s: System) {
    Counted(s) && Exclusive(s) && Permitted(s)
  }

  lemma NothingYet()
    ensures Inv(Initial())
  {
    assert Runners(map[]) == {};
  }

  lemma {:induction false} RunKeeps(events: seq<Event>)
    ensures Inv(Run(events))
  {
    if |events| == 0 {
      NothingYet();
    } else {
      hide Counted, Exclusive, Permitted, Step;
      var s, e := Run(events[..|events| - 1]), events[|events| - 1];
      RunKeeps(events[..|events| - 1]);
      StepCounts(s, e);
      StepExcludes(s, e);
      StepPermits(s, e);
    }
  }

  // ---- What holds of every run ----

  /** Despite the clean-up of weak references, live calls of one conversation share one lock, and calls of
      different conversations never do. */
  lemma OneLockPerKey(events: seq<Event>, a: nat, b: nat)
    requires a in Run(events).tasks && b in Run(events).tasks
    ensures var tasks := Run(events).tasks; tasks[a].key == tasks[b].key <==> tasks[a].lock == tasks[b].lock
  {
    RunKeeps(events);
    hide Exclusive, Permitted, Users;
  }

  /** At most one call per conversation is past its lock, so at most one runs the provider. */
  lemma OneRunsPerKey(events: seq<Event>, a: nat, b: nat)
    requires a in Run(events).tasks && b in Run(events).tasks && Run(events).tasks[a].key == Run(events).tasks[b].key
    requires !Run(events).tasks[a].phase.Queued? && !Run(events).tasks[b].phase.Queued?
    ensures a == b
  {
    RunKeeps(events);
    OneLockPerKey(events, a, b);
    assert Holds(Run(events).tasks, a) && Holds(Run(events).tasks, b);
    hide Counted, Permitted;
  }

  lemma AtMostFourRun(events: seq<Event>)
    ensures |Runners(Run(events).tasks)| <= PERMITS
  {
    RunKeeps(events);
    hide Counted, Exclusive, Runners;
  }

  /** A call leaves no entry behind it for a conversation nobody is waiting in. */
  lemma TableHoldsOnlyLiveKeys(events: seq<Event>, id: nat, key: Key)
    requires id !in Run(events).tasks
    ensures forall k :: k in Run(events + [Call(id, key)]).table.sessions ==>
      exists user :: user in Run(events + [Call(id, key)]).tasks && Run(events + [Call(id, key)]).tasks[user].lock ==
        Run(events + [Call(id, key)]).table.sessions[k]
  {
    var s := Run(events);
    assert (events + [Call(id, key)])[..|events|] == events;
    var t := Run(events + [Call(id, key)]);
    RunKeeps(events);
    EntrantFinds(s.table, key);
    hide Entering, Counted, Exclusive, Permitted;
    forall k | k in t.table.sessions
      ensures exists user :: user in t.tasks && t.tasks[user].lock == t.table.sessions[k]
    {
      if t.table.sessions[k] == t.tasks[id].lock {
        assert id in t.tasks;
      } else {
        AliveIsUsed(s, t.table.sessions[k]);
        var user :| user in s.tasks && s.tasks[user].lock == t.table.sessions[k];
        assert user in t.tasks;
      }
    }
  }

  lemma EntrantFinds(t: Table, key: Key)
    ensures var (next, lock) := Entering(t, key);
      forall k :: k in next.sessions ==> next.sessions[k] == lock || Alive(t, next.sessions[k])
  {
  }

  lemma AliveIsUsed(s: System, lock: nat)
    requires Counted(s) && Alive(s.table, lock)
    ensures exists user :: user in s.tasks && s.tasks[user].lock == lock
  {
    var users := Users(s.tasks, lock);
    assert |users| > 0;
    var user :| user in users;
  }

  // ---- No deadlock ----

  predicate Proceeds(e: Event) {
    e.AcquireLock? || e.AcquirePermit? || e.Finish?
  }

  /** As long as any call is live, some call can take its next step: nobody waits in a circle. */
  lemma NeverStuck(events: seq<Event>)
    requires Run(events).tasks != map[]
    ensures exists e :: Proceeds(e) && Enabled(Run(events), e)
  {
    var s := Run(events);
    RunKeeps(events);
    var id :| id in s.tasks;
    match s.tasks[id].phase {
      case Running => assert Enabled(s, Finish(id));
      case Locked => LockedProceeds(s, id);
      case Queued =>
        if s.tasks[id].lock !in s.held {
          assert Enabled(s, AcquireLock(id));
        } else {
          var holder :| Holds(s.tasks, holder) && s.tasks[holder].lock == s.tasks[id].lock;
          if s.tasks[holder].phase.Running? {
            assert Enabled(s, Finish(holder));
          } else {
            LockedProceeds(s, holder);
          }
        }
    }
  }

  lemma LockedProceeds(s: System, id: nat)
    requires Permitted(s) && id in s.tasks && s.tasks[id].phase.Locked?
    ensures exists e :: Proceeds(e) && Enabled(s, e)
  {
    if s.permits > 0 {
      assert Enabled(s, AcquirePermit(id));
    } else {
      assert |Runners(s.tasks)| == PERMITS;
      var runner :| runner in Runners(s.tasks);
      assert Enabled(s, Finish(runner));
    }
  }

  function Distance(phase: Phase): nat {
    match phase
    case Queued => 3
    case Locked => 2
    case Running => 1
  }

  /** Steps still to come for all live calls together. */
  ghost function Remaining(tasks: map<nat, Task>): nat
    decreases |tasks|
  {
    if tasks == map[] then 0
    else
      var id :| id in tasks;
      assert (tasks - {id}).Keys == tasks.Keys - {id};
      assert |(tasks - {id}).Keys| == |tasks - {id}| && |tasks.Keys| == |tasks|;
      Distance(tasks[id].phase) + Remaining(tasks - {id})
  }

  lemma {:induction false} RemainingWithout(tasks: map<nat, Task>, id: nat)
    requires id in tasks
    ensures Remaining(tasks) == Distance(tasks[id].phase) + Remaining(tasks - {id})
    decreases |tasks|
  {
    var first :| first in tasks && Remaining(tasks) == Distance(tasks[first].phase) + Remaining(tasks - {first});
    assert (tasks - {first}).Keys == tasks.Keys - {first};
    assert |(tasks - {first}).Keys| == |tasks - {first}| && |tasks.Keys| == |tasks|;
    if first != id {
      RemainingWithout(tasks - {first}, id);
      assert (tasks - {id}).Keys == tasks.Keys - {id};
      assert |(tasks - {id}).Keys| == |tasks - {id}|;
      RemainingWithout(tasks - {id}, first);
      assert tasks - {first} - {id} == tasks - {id} - {first};
    }
  }

  /** Every such step brings all of them closer to the end, so without new calls everybody gets there. */
  lemma EveryStepCounts(s: System, e: Event)
    requires Proceeds(e) && Enabled(s, e)
    ensures Remaining(Step(s, e).tasks) + 1 == Remaining(s.tasks)
  {
    var t := Step(s, e);
    RemainingWithout(s.tasks, e.id);
    if e.id in t.tasks {
      RemainingWithout(t.tasks, e.id);
      assert t.tasks - {e.id} == s.tasks - {e.id};
    }
  }
}
