/** The credential coordinator of one account: login, logout, snapshots and the two single-flight refreshes,
    first as an object whose methods are its lock-protected blocks, then as a system of interleaved calls. */
module Credentials {
  import opened Bytes

  type Secret = string

  datatype Kind = Business | Nim

  datatype Pair = Pair(business: Secret, nim: Secret) {
    function Get(kind: Kind): Secret {
      if kind.Business? then business else nim
    }

    function With(kind: Kind, next: Secret): Pair {
      if kind.Business? then this.(business := next) else this.(nim := next)
    }
  }

  datatype Snapshot = Snapshot(generation: nat, revision: nat, pair: Pair)

  datatype State = State(generation: nat, revision: nat, current: Option<Pair>)

  /** Provider errors are carried through unread. */
  datatype RefreshError = LoggedOut | Stale | Provider(code: int)

  datatype Reading = Refused(error: RefreshError) | Changed(found: Snapshot) | Ask(before: Snapshot)

  function LoggedIn(s: State, pair: Pair): State {
    State(s.generation + 1, s.revision + 1, Some(pair))
  }

  function Out(s: State): State {
    State(s.generation + 1, s.revision + 1, None)
  }

  function Taken(s: State): Option<Snapshot> {
    if s.current.None? then None else Some(Snapshot(s.generation, s.revision, s.current.value))
  }

  predicate Current(s: State, snapshot: Snapshot) {
    s.current.Some? && s.generation == snapshot.generation && s.revision == snapshot.revision
  }

  /** What a refresh does with the snapshot it reads under its single-flight lock. */
  function ReadBase(s: State, observed: Snapshot, kind: Kind): Reading {
    if s.current.None? then Refused(LoggedOut)
    else if s.generation != observed.generation then Refused(Stale)
    else if s.current.value.Get(kind) != observed.pair.Get(kind) then Changed(Taken(s).value)
    else Ask(Taken(s).value)
  }

  /** Storing the provider's answer. */
  function Stored(s: State, before: Snapshot, kind: Kind, next: Secret): (State, Result<Snapshot, RefreshError>) {
    if s.current.None? then (s, Err(LoggedOut))
    else if s.generation != before.generation || s.revision != before.revision then (s, Err(Stale))
    else
      var after := State(s.generation, s.revision + 1, Some(s.current.value.With(kind, next)));
      (after, Ok(Taken(after).value))
  }

  class CredentialCoordinator {
    var generation: nat
    var revision: nat
    var current: Option<Pair>

    ghost function View(): State
      reads this
    {
      State(generation, revision, current)
    }

    constructor ()
      ensures View() == State(0, 0, None)
    {
      generation, revision, current := 0, 0, None;
    }

    method Login(business: Secret, nim: Secret)
      modifies this
      ensures View() == LoggedIn(old(View()), Pair(business, nim))
    {
      generation := generation + 1;
      revision := revision + 1;
      current := Some(Pair(business, nim));
    }

    method Logout()
      modifies this
      ensures View() == Out(old(View()))
    {
      generation := generation + 1;
      revision := revision + 1;
      current := None;
    }

    method TakeSnapshot() returns (r: Option<Snapshot>)
      ensures r == Taken(View())
    {
      r := if current.None? then None else Some(Snapshot(generation, revision, current.value));
    }

    method IsCurrent(snapshot: Snapshot) returns (r: bool)
      ensures r == Current(View(), snapshot)
    {
      r := current.Some? && generation == snapshot.generation && revision == snapshot.revision;
    }

    method BeginRefresh(observed: Snapshot, kind: Kind) returns (r: Reading)
      ensures r == ReadBase(View(), observed, kind)
    {
      var before := TakeSnapshot();
      if before.None? {
        return Refused(LoggedOut);
      }
      if before.value.generation != observed.generation {
        return Refused(Stale);
      }
      var targetChanged := if kind.Business? then before.value.pair.business != observed.pair.business
                           else before.value.pair.nim != observed.pair.nim;
      r := if targetChanged then Changed(before.value) else Ask(before.value);
    }

    method FinishRefresh(before: Snapshot, kind: Kind, next: Secret) returns (r: Result<Snapshot, RefreshError>)
      modifies this
      ensures (View(), r) == Stored(old(View()), before, kind, next)
    {
      if current.None? {
        return Err(LoggedOut);
      }
      if generation != before.generation || revision != before.revision {
        return Err(Stale);
      }
      if kind.Business? {
        current := Some(Pair(next, current.value.nim));
      } else {
        current := Some(Pair(current.value.business, next));
      }
      revision := revision + 1;
      r := Ok(Snapshot(generation, revision, current.value));
    }
  }

  // ---- Interleaved calls ----

  /** One refresh call, between two of its await points. */
  datatype Call =
    | Queued(kind: Kind, observed: Snapshot)
    | Holding(kind: Kind, observed: Snapshot)
    | Asking(kind: Kind, observed: Snapshot, before: Snapshot)
    | Answered(kind: Kind, observed: Snapshot, before: Snapshot, next: Secret)

  datatype Event =
    | Login(pair: Pair)
    | Logout
    | Take
    | Begin(id: nat, kind: Kind, observed: Snapshot)
    | Acquire(id: nat)
    | Read(id: nat)
    | Answer(id: nat, answer: Result<Secret, int>)
    | Store(id: nat)
    | Cancel(id: nat)

  datatype Entry =
    | Asked(kind: Kind, observed: Snapshot, before: Snapshot)
    | Committed(kind: Kind, observed: Snapshot, before: Snapshot, after: Snapshot)

  /** `past[r]` is the state at revision `r`, `issued` every snapshot handed out, `log` what the refreshes did. */
  datatype System = System(
    state: State, calls: map<nat, Call>, holder: map<Kind, nat>,
    past: seq<State>, issued: seq<Snapshot>, log: seq<Entry>)

  function Initial(): System {
    System(State(0, 0, None), map[], map[], [State(0, 0, None)], [], [])
  }

  function Moved(s: System, next: State): System {
    s.(state := next, past := s.past + [next])
  }

  /** The call returns, by any way out: its single-flight guard is dropped. */
  function Returned(s: System, id: nat): System
    requires id in s.calls
  {
    s.(calls := s.calls - {id},
       holder := if s.calls[id].Queued? then s.holder else s.holder - {s.calls[id].kind})
  }

  function Handed(s: System, snapshot: Snapshot): System {
    s.(issued := s.issued + [snapshot])
  }

  function ReadStep(s: System, id: nat): System
    requires id in s.calls && s.calls[id].Holding?
  {
    var c := s.calls[id];
    match ReadBase(s.state, c.observed, c.kind)
    case Refused(_) => Returned(s, id)
    case Changed(found) => Handed(Returned(s, id), found)
    case Ask(before) =>
      Handed(s, before).(calls := s.calls[id := Asking(c.kind, c.observed, before)],
                         log := s.log + [Asked(c.kind, c.observed, before)])
  }

  function StoreStep(s: System, id: nat): System
    requires id in s.calls && s.calls[id].Answered?
  {
    var c := s.calls[id];
    var (next, result) := Stored(s.state, c.before, c.kind, c.next);
    match result
    case Err(_) => Returned(s, id)
    case Ok(after) =>
      Handed(Moved(Returned(s, id), next), after).(log := s.log + [Committed(c.kind, c.observed, c.before, after)])
  }

  /** One atomic step; an event that is not possible changes nothing. */
  function Step(s: System, e: Event): System {
    match e
    case Login(pair) => Moved(s, LoggedIn(s.state, pair))
    case Logout => Moved(s, Out(s.state))
    case Take => if Taken(s.state).Some? then Handed(s, Taken(s.state).value) else s
    case Begin(id, kind, observed) => if id in s.calls then s else s.(calls := s.calls[id := Queued(kind, observed)])
    case Acquire(id) =>
      if id in s.calls && s.calls[id].Queued? && s.calls[id].kind !in s.holder then
        s.(calls := s.calls[id := Holding(s.calls[id].kind, s.calls[id].observed)],
           holder := s.holder[s.calls[id].kind := id])
      else s
    case Read(id) => if id in s.calls && s.calls[id].Holding? then ReadStep(s, id) else s
    case Answer(id, answer) =>
      if !(id in s.calls && s.calls[id].Asking?) then s
      else if answer.Err? then Returned(s, id)
      else
        var c := s.calls[id];
        s.(calls := s.calls[id := Answered(c.kind, c.observed, c.before, answer.value)])
    case Store(id) => if id in s.calls && s.calls[id].Answered? then StoreStep(s, id) else s
    case Cancel(id) => if id in s.calls then Returned(s, id) else s
  }

  function Run(s: System, events: seq<Event>): System {
    if |events| == 0 then s else Step(Run(s, events[..|events| - 1]), events[|events| - 1])
  }

  function After(events: seq<Event>): System {
    Run(Initial(), events)
  }

  // ---- What every step keeps ----

  /** The history has one state per revision and ends in the present one; generations never go back. */
  ghost predicate Recorded(s: System) {
    && |s.past| == s.state.revision + 1
    && s.past[s.state.revision] == s.state
    && (forall r :: 0 <= r < |s.past| ==> s.past[r].revision == r)
    && (forall i, j :: 0 <= i <= j < |s.past| ==> s.past[i].generation <= s.past[j].generation)
  }

  /** A snapshot is the state at its own revision. */
  predicate Faithful(past: seq<State>, snapshot: Snapshot) {
    snapshot.revision < |past| && Taken(past[snapshot.revision]) == Some(snapshot)
  }

  ghost predicate AllFaithful(s: System) {
    && (forall i :: 0 <= i < |s.issued| ==> Faithful(s.past, s.issued[i]))
    && (forall id :: id in s.calls && (s.calls[id].Asking? || s.calls[id].Answered?) ==>
          && Faithful(s.past, s.calls[id].before)
          && SameTarget(s.calls[id].observed, s.calls[id].before, s.calls[id].kind))
  }

  predicate SameTarget(observed: Snapshot, before: Snapshot, kind: Kind) {
    observed.generation == before.generation && observed.pair.Get(kind) == before.pair.Get(kind)
  }

  /** The single-flight locks are held by exactly the calls past them. */
  ghost predicate Exclusive(s: System) {
    && (forall id :: id in s.calls && !s.calls[id].Queued? ==>
          s.calls[id].kind in s.holder && s.holder[s.calls[id].kind] == id)
    && (forall k :: k in s.holder ==>
          s.holder[k] in s.calls && !s.calls[s.holder[k]].Queued? && s.calls[s.holder[k]].kind == k)
  }

  /** A commit replaced one field of the very state its base was read from, and nothing else. */
  ghost predicate CommitInPlace(past: seq<State>, e: Entry)
    requires e.Committed?
  {
    && Faithful(past, e.before) && Faithful(past, e.after)
    && e.after.revision == e.before.revision + 1
    && e.after.generation == e.before.generation
    && (exists next :: e.after.pair == e.before.pair.With(e.kind, next))
    && SameTarget(e.observed, e.before, e.kind)
  }

  ghost predicate Logged(s: System) {
    && (forall i :: 0 <= i < |s.log| && s.log[i].Committed? ==> CommitInPlace(s.past, s.log[i]))
    && (forall i, j :: 0 <= i < j < |s.log| && s.log[i].Committed? && s.log[j].Committed? ==>
          s.log[i].after.revision <= s.log[j].before.revision)
  }

  ghost predicate Inv(s: System) {
    Recorded(s) && AllFaithful(s) && Exclusive(s) && Logged(s)
  }

  lemma InitialInv()
    ensures Inv(Initial())
  {
  }

  lemma FaithfulStays(past: seq<State>, next: State, snapshot: Snapshot)
    requires Faithful(past, snapshot)
    ensures Faithful(past + [next], snapshot)
  {
  }

  lemma MovedKeeps(s: System, next: State)
    requires Recorded(s) && AllFaithful(s) && Logged(s)
    requires next.revision == s.state.revision + 1 && next.generation >= s.state.generation
    ensures Recorded(Moved(s, next)) && AllFaithful(Moved(s, next)) && Logged(Moved(s, next))
  {
    var past := Moved(s, next).past;
    forall snapshot | Faithful(s.past, snapshot)
      ensures Faithful(past, snapshot)
    {
      FaithfulStays(s.past, next, snapshot);
    }
    assert forall i :: 0 <= i < |s.past| ==> past[i] == s.past[i];
  }

  lemma HandedKeeps(s: System, snapshot: Snapshot)
    requires Inv(s) && Taken(s.state) == Some(snapshot)
    ensures Inv(Handed(s, snapshot)) && Faithful(s.past, snapshot)
  {
  }

  lemma ReturnedKeeps(s: System, id: nat)
    requires Inv(s) && id in s.calls
    ensures Inv(Returned(s, id))
  {
  }

  lemma ReadKeeps(s: System, id: nat)
    requires Inv(s) && id in s.calls && s.calls[id].Holding?
    ensures Inv(ReadStep(s, id))
  {
    var c := s.calls[id];
    ReturnedKeeps(s, id);
    hide Recorded, AllFaithful, Logged, Exclusive;
    match ReadBase(s.state, c.observed, c.kind) {
      case Refused(_) =>
      case Changed(found) => HandedKeeps(Returned(s, id), found);
      case Ask(before) => HandedKeeps(s, before); AskKeeps(Handed(s, before), id, before);
    }
  }

  lemma AskKeeps(s: System, id: nat, before: Snapshot)
    requires Inv(s) && id in s.calls && s.calls[id].Holding?
    requires Faithful(s.past, before) && SameTarget(s.calls[id].observed, before, s.calls[id].kind)
    ensures var c := s.calls[id];
      Inv(s.(calls := s.calls[id := Asking(c.kind, c.observed, before)],
             log := s.log + [Asked(c.kind, c.observed, before)]))
  {
    hide CommitInPlace;
  }

  lemma StoreKeeps(s: System, id: nat)
    requires Inv(s) && id in s.calls && s.calls[id].Answered?
    ensures Inv(StoreStep(s, id))
  {
    hide Logged, Exclusive;
    var c := s.calls[id];
    ReturnedKeeps(s, id);
    var (next, result) := Stored(s.state, c.before, c.kind, c.next);
    if result.Ok? {
      MovedKeeps(Returned(s, id), next);
      SameCalls(Returned(s, id), Moved(Returned(s, id), next));
      HandedKeeps(Moved(Returned(s, id), next), result.value);
      assert result.value.pair == c.before.pair.With(c.kind, c.next);
      FaithfulStays(s.past, next, c.before);
      CommitKeeps(s, Handed(Moved(Returned(s, id), next), result.value),
                  Committed(c.kind, c.observed, c.before, result.value));
    }
  }

  lemma SameCalls(s: System, t: System)
    requires Exclusive(s) && t.calls == s.calls && t.holder == s.holder
    ensures Exclusive(t)
  {
  }

  lemma CommitKeeps(s: System, t: System, e: Entry)
    requires Inv(s) && Inv(t) && t.log == s.log && e.Committed? && CommitInPlace(t.past, e)
    requires e.before.revision == s.state.revision
    ensures Inv(t.(log := t.log + [e]))
  {
    forall i | 0 <= i < |s.log| && s.log[i].Committed?
      ensures s.log[i].after.revision <= e.before.revision
    {
      assert CommitInPlace(s.past, s.log[i]);
    }
  }

  lemma QueuedKeeps(s: System, id: nat, kind: Kind, observed: Snapshot)
    requires AllFaithful(s) && Exclusive(s) && id !in s.calls
    ensures var t := s.(calls := s.calls[id := Queued(kind, observed)]); AllFaithful(t) && Exclusive(t)
  {
    hide Faithful;
  }

  lemma HoldingKeeps(s: System, id: nat)
    requires AllFaithful(s) && Exclusive(s) && id in s.calls && s.calls[id].Queued? && s.calls[id].kind !in s.holder
    ensures var c := s.calls[id];
      var t := s.(calls := s.calls[id := Holding(c.kind, c.observed)], holder := s.holder[c.kind := id]);
      AllFaithful(t) && Exclusive(t)
  {
    hide Faithful;
  }

  lemma AnsweredKeeps(s: System, id: nat, next: Secret)
    requires AllFaithful(s) && Exclusive(s) && id in s.calls && s.calls[id].Asking?
    ensures var c := s.calls[id];
      var t := s.(calls := s.calls[id := Answered(c.kind, c.observed, c.before, next)]);
      AllFaithful(t) && Exclusive(t)
  {
    hide Faithful;
  }

  lemma WaitingKeeps(s: System, e: Event)
    requires Inv(s) && (e.Begin? || e.Acquire? || e.Answer?)
    ensures Inv(Step(s, e))
  {
    hide ReadStep, StoreStep, AllFaithful, Exclusive, Recorded, Logged;
    if e.Answer? && e.id in s.calls && s.calls[e.id].Asking? && e.answer.Err? {
      ReturnedKeeps(s, e.id);
    } else {
      SameRecord(s, Step(s, e));
      match e {
        case Begin(id, kind, observed) => if id !in s.calls { QueuedKeeps(s, id, kind, observed); }
        case Acquire(id) =>
          if id in s.calls && s.calls[id].Queued? && s.calls[id].kind !in s.holder { HoldingKeeps(s, id); }
        case Answer(id, answer) => if id in s.calls && s.calls[id].Asking? { AnsweredKeeps(s, id, answer.value); }
      }
    }
  }

  lemma SameRecord(s: System, t: System)
    requires Recorded(s) && Logged(s) && t == s.(calls := t.calls, holder := t.holder)
    ensures Recorded(t) && Logged(t)
  {
  }

  lemma StepKeeps(s: System, e: Event)
    requires Inv(s)
    ensures Inv(Step(s, e))
  {
    hide AllFaithful, Logged, Exclusive, ReadStep, StoreStep, Returned;
    match e {
      case Login(pair) => MovedKeeps(s, LoggedIn(s.state, pair)); SameCalls(s, Step(s, e));
      case Logout => MovedKeeps(s, Out(s.state)); SameCalls(s, Step(s, e));
      case Take => if Taken(s.state).Some? { HandedKeeps(s, Taken(s.state).value); }
      case Begin(_, _, _) => WaitingKeeps(s, e);
      case Acquire(_) => WaitingKeeps(s, e);
      case Answer(_, _) => WaitingKeeps(s, e);
      case Read(id) => if id in s.calls && s.calls[id].Holding? { ReadKeeps(s, id); }
      case Store(id) => if id in s.calls && s.calls[id].Answered? { StoreKeeps(s, id); }
      case Cancel(id) => if id in s.calls { ReturnedKeeps(s, id); }
    }
  }

  lemma {:induction false} RunKeeps(events: seq<Event>)
    ensures Inv(After(events))
  {
    hide Inv, Step;
    if |events| == 0 {
      InitialInv();
    } else {
      RunKeeps(events[..|events| - 1]);
      StepKeeps(After(events[..|events| - 1]), events[|events| - 1]);
    }
  }

  // ---- What holds of every run ----

  /** A revision identifies the credential pair: two snapshots ever handed out with one revision are equal. */
  lemma RevisionIdentifiesPair(events: seq<Event>, i: nat, j: nat)
    requires i < |After(events).issued| && j < |After(events).issued|
    requires After(events).issued[i].revision == After(events).issued[j].revision
    ensures After(events).issued[i] == After(events).issued[j]
  {
    RunKeeps(events);
    assert Faithful(After(events).past, After(events).issued[i]);
    assert Faithful(After(events).past, After(events).issued[j]);
  }

  /** A snapshot handed out is current exactly when it is still what the account holds. */
  lemma CurrentMeansUnchanged(events: seq<Event>, i: nat)
    requires i < |After(events).issued|
    ensures var s := After(events); Current(s.state, s.issued[i]) <==> Taken(s.state) == Some(s.issued[i])
  {
    RunKeeps(events);
    assert Faithful(After(events).past, After(events).issued[i]);
  }

  lemma StepOnlyAdds(s: System, e: Event)
    requires Inv(s)
    ensures s.past <= Step(s, e).past && s.issued <= Step(s, e).issued && s.log <= Step(s, e).log
    ensures |Step(s, e).past| > |s.past| ==> Step(s, e).state.revision > s.state.revision
    ensures |Step(s, e).past| == |s.past| ==> Step(s, e).state == s.state
  {
    hide Inv, ReadBase;
  }

  lemma {:induction false} RunOnlyAdds(events: seq<Event>, more: seq<Event>)
    ensures Run(After(events), more) == After(events + more)
    ensures var s, t := After(events), After(events + more);
      s.past <= t.past && s.issued <= t.issued && s.log <= t.log
    decreases |more|
  {
    hide Inv, Step;
    if |more| == 0 {
      assert events + more == events;
    } else {
      var front := more[..|more| - 1];
      assert (events + more)[..|events + more| - 1] == events + front;
      RunOnlyAdds(events, front);
      RunKeeps(events + front);
      StepOnlyAdds(After(events + front), more[|more| - 1]);
    }
  }

  lemma StaleStays(s: System, t: System, snapshot: Snapshot)
    requires Recorded(s) && Recorded(t) && s.past <= t.past && Faithful(s.past, snapshot)
    requires !Current(s.state, snapshot)
    ensures !Current(t.state, snapshot)
  {
    assert t.past[snapshot.revision] == s.past[snapshot.revision];
    assert t.past[|s.past| - 1] == s.state;
  }

  /** Once a snapshot is no longer current it never is again. */
  lemma StaleForEver(events: seq<Event>, more: seq<Event>, i: nat)
    requires i < |After(events).issued|
    requires !Current(After(events).state, After(events).issued[i])
    ensures !Current(Run(After(events), more).state, After(events).issued[i])
  {
    hide Run, Current, Recorded, Exclusive, Logged, Faithful;
    RunOnlyAdds(events, more);
    RunKeeps(events);
    RunKeeps(events + more);
    StaleStays(After(events), After(events + more), After(events).issued[i]);
  }

  /** A refresh commits exactly when the account is still in the state its base was read from. */
  lemma CommitsIffUnchanged(events: seq<Event>, id: nat)
    requires id in After(events).calls && After(events).calls[id].Answered?
    ensures var s, t := After(events), After(events + [Store(id)]);
      var base := s.calls[id].before.revision;
      base < |s.past| && (|t.log| > |s.log| <==> s.state == s.past[base])
  {
    RunKeeps(events);
    assert (events + [Store(id)])[..|events|] == events;
    var s := After(events);
    assert Faithful(s.past, s.calls[id].before);
  }

  /** Commits never share a base revision, each replaces one field of its base and nothing else, and in
      between nothing else happened to the account. */
  lemma OneCommitPerRevision(events: seq<Event>, i: nat, j: nat)
    requires i < |After(events).log| && After(events).log[i].Committed?
    requires j < |After(events).log| && After(events).log[j].Committed?
    ensures CommitInPlace(After(events).past, After(events).log[i])
    ensures After(events).log[i].before.revision == After(events).log[j].before.revision ==> i == j
  {
    RunKeeps(events);
    var log := After(events).log;
    assert CommitInPlace(After(events).past, log[i]);
    assert CommitInPlace(After(events).past, log[j]);
  }

  // ---- Which secret is which ----

  /** A provider call was made on that base and answered with that secret. */
  ghost predicate Obtained(events: seq<Event>, kind: Kind, before: Snapshot, next: Secret) {
    exists k: nat :: AnsweredAt(events, k, kind, before, next)
  }

  ghost predicate AnsweredAt(events: seq<Event>, k: nat, kind: Kind, before: Snapshot, next: Secret) {
    && k < |events| && events[k].Answer? && events[k].answer == Ok(next)
    && events[k].id in After(events[..k]).calls
    && After(events[..k]).calls[events[k].id].Asking?
    && After(events[..k]).calls[events[k].id].kind == kind
    && After(events[..k]).calls[events[k].id].before == before
  }

  /** A refresh of one secret replaces that one by the provider's answer and keeps the other. */
  ghost predicate OwnFieldOnly(events: seq<Event>, e: Entry)
    requires e.Committed?
  {
    if e.kind.Business? then
      e.after.pair.nim == e.before.pair.nim && Obtained(events, e.kind, e.before, e.after.pair.business)
    else
      e.after.pair.business == e.before.pair.business && Obtained(events, e.kind, e.before, e.after.pair.nim)
  }

  ghost predicate Sourced(events: seq<Event>, s: System) {
    && (forall id :: id in s.calls && s.calls[id].Answered? ==>
          Obtained(events, s.calls[id].kind, s.calls[id].before, s.calls[id].next))
    && (forall e :: e in s.log && e.Committed? ==> OwnFieldOnly(events, e))
  }

  lemma ObtainedStays(front: seq<Event>, e: Event, kind: Kind, before: Snapshot, next: Secret)
    requires Obtained(front, kind, before, next)
    ensures Obtained(front + [e], kind, before, next)
  {
    var k: nat :| AnsweredAt(front, k, kind, before, next);
    assert (front + [e])[..k] == front[..k] && (front + [e])[k] == front[k];
    hide After;
    assert AnsweredAt(front + [e], k, kind, before, next);
  }

  lemma SourcedStays(front: seq<Event>, e: Event, s: System)
    requires Sourced(front, s)
    ensures Sourced(front + [e], s)
  {
    hide Obtained;
    forall kind, before, next | Obtained(front, kind, before, next)
      ensures Obtained(front + [e], kind, before, next)
    {
      ObtainedStays(front, e, kind, before, next);
    }
  }

  /** What one event adds to the calls answered and to the commits. */
  lemma StepAdds(s: System, e: Event)
    requires Inv(s)
    ensures var t := Step(s, e);
      && (forall id :: id in t.calls && t.calls[id].Answered? ==>
            || (id in s.calls && s.calls[id] == t.calls[id])
            || (e.Answer? && e.id == id && e.answer == Ok(t.calls[id].next) && id in s.calls && s.calls[id].Asking?
                && s.calls[id].kind == t.calls[id].kind && s.calls[id].before == t.calls[id].before))
      && (forall entry :: entry in t.log && entry.Committed? ==>
            || entry in s.log
            || (e.Store? && e.id in s.calls && s.calls[e.id].Answered?
                && entry.kind == s.calls[e.id].kind && entry.before == s.calls[e.id].before
                && (if entry.kind.Business?
                    then entry.after.pair == Pair(s.calls[e.id].next, entry.before.pair.nim)
                    else entry.after.pair == Pair(entry.before.pair.business, s.calls[e.id].next))))
  {
    if e.Store? && e.id in s.calls && s.calls[e.id].Answered? {
      assert Faithful(s.past, s.calls[e.id].before);
    }
    hide Inv, ReadBase;
  }

  lemma {:induction false} RunSourced(events: seq<Event>)
    ensures Sourced(events, After(events))
  {
    if |events| > 0 {
      hide Inv, Step, Obtained;
      var front, e := events[..|events| - 1], events[|events| - 1];
      assert events == front + [e];
      var s := After(front);
      RunSourced(front);
      SourcedStays(front, e, s);
      RunKeeps(front);
      StepAdds(s, e);
      if e.Answer? && e.answer.Ok? && e.id in s.calls && s.calls[e.id].Asking? {
        assert events[..|front|] == front;
        assert AnsweredAt(events, |front|, s.calls[e.id].kind, s.calls[e.id].before, e.answer.value);
        assert Obtained(events, s.calls[e.id].kind, s.calls[e.id].before, e.answer.value);
      }
    }
  }

  /** In every run, a commit of a business refresh changed the business secret to what the provider answered to
      that very call and left the NIM secret alone, and the other way round. */
  lemma CommitsOwnField(events: seq<Event>, i: nat)
    requires i < |After(events).log| && After(events).log[i].Committed?
    ensures OwnFieldOnly(events, After(events).log[i])
  {
    RunSourced(events);
  }

  /** Under its lock a refresh asks the provider exactly if someone is logged in as observed and the secret it is
      to replace is the one observed; if it is not, it hands out what the account holds. */
  lemma AsksExactly(events: seq<Event>, id: nat)
    requires id in After(events).calls && After(events).calls[id].Holding?
    ensures var s, t, c := After(events), After(events + [Read(id)]), After(events).calls[id];
      var here := s.state.current.Some? && s.state.generation == c.observed.generation;
      var same := here && if c.kind.Business? then s.state.current.value.business == c.observed.pair.business
                          else s.state.current.value.nim == c.observed.pair.nim;
      && (id in t.calls && t.calls[id].Asking? <==> same)
      && (here ==> t.issued == s.issued + [Snapshot(s.state.generation, s.state.revision, s.state.current.value)])
      && (!here ==> t.issued == s.issued) && t.state == s.state
      && (same ==> t.log == s.log + [Asked(c.kind, c.observed, t.issued[|s.issued|])]) && (!same ==> t.log == s.log)
  {
    assert (events + [Read(id)])[..|events|] == events;
  }

  /** In every run, a login makes the account hold that pair and a logout none; a stored answer replaces the one
      secret; and nothing else moves the account. */
  lemma AccountMoves(events: seq<Event>, e: Event)
    ensures var s, t := After(events).state, After(events + [e]).state;
      match e
      case Login(pair) => t.current == Some(pair) && t.generation == s.generation + 1 && t.revision == s.revision + 1
      case Logout => t.current == None && t.generation == s.generation + 1 && t.revision == s.revision + 1
      case Store(id) =>
        || t == s
        || (&& id in After(events).calls && After(events).calls[id].Answered?
            && t.generation == s.generation && t.revision == s.revision + 1 && s.current.Some?
            && var c := After(events).calls[id];
               t.current == Some(if c.kind.Business? then Pair(c.next, s.current.value.nim)
                                 else Pair(s.current.value.business, c.next)))
      case _ => t == s
  {
    assert (events + [e])[..|events|] == events;
  }

  lemma OneByOne(front: seq<Event>, e: Event, all: seq<Event>)
    requires all == front + [e]
    ensures After(all) == Step(After(front), e)
  {
    assert all[..|all| - 1] == front;
  }

  /** In every run, a refresh nobody disturbs succeeds: from any moment its lock is free and someone is logged in
      as observed, it asks, replaces its secret by the answer and leaves everything else as it was. */
  lemma UndisturbedRefresh(events: seq<Event>, id: nat, kind: Kind, observed: Snapshot, next: Secret)
    requires var s := After(events);
      && id !in s.calls && kind !in s.holder && s.state.current.Some? && s.state.generation == observed.generation
      && (if kind.Business? then s.state.current.value.business == observed.pair.business
          else s.state.current.value.nim == observed.pair.nim)
    ensures var steps := [Begin(id, kind, observed), Acquire(id), Read(id), Answer(id, Ok(next)), Store(id)];
      var s, t := After(events), After(events + steps);
      && t.calls == s.calls && t.holder == s.holder && t.state.generation == s.state.generation
      && t.state.current == Some(if kind.Business? then Pair(next, s.state.current.value.nim)
                                 else Pair(s.state.current.value.business, next))
      && |t.issued| == |s.issued| + 2 && Taken(t.state) == Some(t.issued[|s.issued| + 1])
  {
    var steps := [Begin(id, kind, observed), Acquire(id), Read(id), Answer(id, Ok(next)), Store(id)];
    var one, two, three, four := events + steps[..1], events + steps[..2], events + steps[..3], events + steps[..4];
    OneByOne(events, steps[0], one);
    OneByOne(one, steps[1], two);
    OneByOne(two, steps[2], three);
    OneByOne(three, steps[3], four);
    OneByOne(four, steps[4], events + steps);
    UndisturbedSteps(After(events), id, kind, observed, next);
  }

  lemma UndisturbedSteps(s: System, id: nat, kind: Kind, observed: Snapshot, next: Secret)
    requires id !in s.calls && kind !in s.holder && s.state.current.Some? && s.state.generation == observed.generation
    requires if kind.Business? then s.state.current.value.business == observed.pair.business
             else s.state.current.value.nim == observed.pair.nim
    ensures var asking := Step(Step(Step(s, Begin(id, kind, observed)), Acquire(id)), Read(id));
      var t := Step(Step(asking, Answer(id, Ok(next))), Store(id));
      && t.calls == s.calls && t.holder == s.holder && t.state.generation == s.state.generation
      && t.state.current == Some(if kind.Business? then Pair(next, s.state.current.value.nim)
                                 else Pair(s.state.current.value.business, next))
      && |t.issued| == |s.issued| + 2 && Taken(t.state) == Some(t.issued[|s.issued| + 1])
  {
    var base := Taken(s.state).value;
    RefreshAsks(s, id, kind, observed);
    var s3 := Step(Step(Step(s, Begin(id, kind, observed)), Acquire(id)), Read(id));
    var s4 := Step(s3, Answer(id, Ok(next)));
    assert s4.calls == s.calls[id := Answered(kind, observed, base, next)];
    assert s4.calls - {id} == s.calls && s4.holder - {kind} == s.holder;
  }

  lemma RefreshAsks(s: System, id: nat, kind: Kind, observed: Snapshot)
    requires id !in s.calls && kind !in s.holder && s.state.current.Some? && s.state.generation == observed.generation
    requires if kind.Business? then s.state.current.value.business == observed.pair.business
             else s.state.current.value.nim == observed.pair.nim
    ensures var t := Step(Step(Step(s, Begin(id, kind, observed)), Acquire(id)), Read(id));
      && t.calls == s.calls[id := Asking(kind, observed, Taken(s.state).value)] && t.holder == s.holder[kind := id]
      && t.state == s.state && t.issued == s.issued + [Taken(s.state).value]
  {
    var s1 := Step(s, Begin(id, kind, observed));
    assert s1 == s.(calls := s.calls[id := Queued(kind, observed)]);
    var s2 := Step(s1, Acquire(id));
    assert s2 == s.(calls := s.calls[id := Holding(kind, observed)], holder := s.holder[kind := id]);
  }

  lemma StaysOut(s: System, e: Event)
    requires s.state.current.None? && !e.Login?
    ensures Step(s, e).state.current.None?
    ensures forall entry :: entry in Step(s, e).log && entry.Committed? ==> entry in s.log
  {
  }

  /** No refresh logs anyone in: without a login, a logged-out account stays logged out and nothing commits. */
  lemma {:induction false} NeverResurrects(s: System, events: seq<Event>)
    requires s.state.current.None?
    requires forall i :: 0 <= i < |events| ==> !events[i].Login?
    ensures Run(s, events).state.current.None?
    ensures forall e :: e in Run(s, events).log && e.Committed? ==> e in s.log
  {
    if |events| > 0 {
      var front := events[..|events| - 1];
      assert forall i :: 0 <= i < |front| ==> front[i] == events[i];
      NeverResurrects(s, front);
      StaysOut(Run(s, front), events[|events| - 1]);
      hide Step;
    }
  }

  /** At most one call of a kind is between acquiring its lock and returning, so at most one asks the provider. */
  lemma OneInFlight(events: seq<Event>, a: nat, b: nat)
    requires var calls := After(events).calls;
      a in calls && b in calls && !calls[a].Queued? && !calls[b].Queued? && calls[a].kind == calls[b].kind
    ensures a == b
  {
    RunKeeps(events);
  }

  // ---- A provider that never reissues a secret ----

  /** `next` was not the secret of that kind at any revision up to the one the call was based on. */
  ghost predicate NewSecret(past: seq<State>, before: Snapshot, kind: Kind, next: Secret) {
    forall r :: 0 <= r < |past| && r <= before.revision && past[r].current.Some? ==>
      past[r].current.value.Get(kind) != next
  }

  ghost predicate FreshAnswer(s: System, e: Event) {
    e.Answer? && e.answer.Ok? && e.id in s.calls && s.calls[e.id].Asking? ==>
      NewSecret(s.past, s.calls[e.id].before, s.calls[e.id].kind, e.answer.value)
  }

  /** At every step of the run. */
  ghost predicate FreshProvider(events: seq<Event>) {
    |events| == 0 ||
    (FreshProvider(events[..|events| - 1]) && FreshAnswer(After(events[..|events| - 1]), events[|events| - 1]))
  }

  predicate Replaced(s: State, e: Entry) {
    s.current.Some? && s.generation == e.observed.generation ==>
      s.current.value.Get(e.kind) != e.observed.pair.Get(e.kind)
  }

  predicate SameObservation(a: Entry, b: Entry) {
    && a.kind == b.kind && a.observed.generation == b.observed.generation
    && a.observed.pair.Get(a.kind) == b.observed.pair.Get(b.kind)
  }

  ghost predicate Retired(s: System) {
    && (forall id :: id in s.calls && s.calls[id].Answered? ==>
          NewSecret(s.past, s.calls[id].before, s.calls[id].kind, s.calls[id].next))
    && (forall i :: 0 <= i < |s.log| && s.log[i].Committed? ==> Replaced(s.state, s.log[i]))
    && (forall i, j :: 0 <= i < j < |s.log| && s.log[i].Committed? ==> !SameObservation(s.log[i], s.log[j]))
  }

  lemma NewSecretStays(past: seq<State>, next: State, before: Snapshot, kind: Kind, secret: Secret)
    requires Faithful(past, before) && NewSecret(past, before, kind, secret)
    ensures NewSecret(past + [next], before, kind, secret)
  {
  }

  /** A commit gives the account a secret no earlier observation was of, and is itself of a new observation. */
  lemma StoredReplaces(s: System, id: nat, e: Entry)
    requires Recorded(s) && Retired(s) && id in s.calls && s.calls[id].Answered?
    requires e.Committed? && CommitInPlace(s.past, e) && Replaced(s.state, e)
    requires Faithful(s.past, s.calls[id].before) && s.state == s.past[s.calls[id].before.revision]
    requires SameTarget(s.calls[id].observed, s.calls[id].before, s.calls[id].kind)
    ensures var c := s.calls[id];
      var (next, result) := Stored(s.state, c.before, c.kind, c.next);
      result.Ok? ==>
        Replaced(next, e) && !SameObservation(e, Committed(c.kind, c.observed, c.before, result.value))
  {
    assert s.past[e.before.revision].current.Some?;
  }

  lemma StoreRetires(s: System, id: nat)
    requires Inv(s) && Retired(s) && id in s.calls && s.calls[id].Answered?
    ensures Retired(StoreStep(s, id))
  {
    var c := s.calls[id];
    var t := StoreStep(s, id);
    var (next, result) := Stored(s.state, c.before, c.kind, c.next);
    assert Faithful(s.past, c.before);
    if result.Ok? {
      assert s.state == s.past[c.before.revision];
      StoredRetiresItself(s, id);
      forall i | 0 <= i < |s.log| && s.log[i].Committed?
        ensures Replaced(t.state, s.log[i]) && !SameObservation(s.log[i], t.log[|s.log|])
      {
        StoredReplaces(s, id, s.log[i]);
      }
      hide Stored, StoreStep, Recorded, Exclusive, Logged, Replaced, SameObservation;
      forall other | other in t.calls && t.calls[other].Answered?
        ensures NewSecret(t.past, t.calls[other].before, t.calls[other].kind, t.calls[other].next)
      {
        NewSecretStays(s.past, t.state, t.calls[other].before, t.calls[other].kind, t.calls[other].next);
      }
    }
  }

  lemma StoredRetiresItself(s: System, id: nat)
    requires Recorded(s) && Retired(s) && id in s.calls && s.calls[id].Answered?
    requires Faithful(s.past, s.calls[id].before) && s.state == s.past[s.calls[id].before.revision]
    requires SameTarget(s.calls[id].observed, s.calls[id].before, s.calls[id].kind)
    ensures var c := s.calls[id];
      var (next, result) := Stored(s.state, c.before, c.kind, c.next);
      && (result.Ok? ==> Replaced(next, Committed(c.kind, c.observed, c.before, result.value)))
      && (result.Ok? ==> var t := StoreStep(s, id);
            && t.state == next && t.past == s.past + [next] && t.calls == s.calls - {id}
            && t.log == s.log + [Committed(c.kind, c.observed, c.before, result.value)])
  {
  }

  lemma ReadRetires(s: System, id: nat)
    requires Retired(s) && id in s.calls && s.calls[id].Holding?
    ensures Retired(ReadStep(s, id))
  {
    hide NewSecret;
    var c := s.calls[id];
    forall i | 0 <= i < |s.log| && s.log[i].Committed? && ReadBase(s.state, c.observed, c.kind).Ask?
      ensures !SameObservation(s.log[i], Asked(c.kind, c.observed, ReadBase(s.state, c.observed, c.kind).before))
    {
      assert Replaced(s.state, s.log[i]);
    }
    hide Replaced, SameObservation, ReadBase;
  }

  lemma WaitRetires(s: System, e: Event)
    requires Retired(s) && FreshAnswer(s, e)
    requires e.Take? || e.Begin? || e.Acquire? || e.Answer? || e.Cancel?
    ensures Retired(Step(s, e))
  {
    hide StoreStep, ReadStep, NewSecret, Replaced, SameObservation;
  }

  lemma StepRetires(s: System, e: Event)
    requires Inv(s) && Retired(s) && FreshAnswer(s, e)
    ensures Retired(Step(s, e))
  {
    hide StoreStep, ReadStep, Inv, Retired, FreshAnswer;
    if e.Store? {
      if e.id in s.calls && s.calls[e.id].Answered? {
        StoreRetires(s, e.id);
      }
    } else if e.Read? {
      if e.id in s.calls && s.calls[e.id].Holding? {
        ReadRetires(s, e.id);
      }
    } else if e.Login? || e.Logout? {
      MoveRetires(s, Step(s, e).state);
    } else {
      WaitRetires(s, e);
    }
  }

  lemma MoveRetires(s: System, next: State)
    requires Inv(s) && Retired(s) && next.generation > s.state.generation
    ensures Retired(Moved(s, next))
  {
    assert s.past <= Moved(s, next).past;
    forall i | 0 <= i < |s.log| && s.log[i].Committed?
      ensures s.log[i].observed.generation <= s.state.generation
    {
      assert CommitInPlace(s.past, s.log[i]);
    }
  }

  lemma NothingRetired()
    ensures Retired(Initial())
  {
  }

  lemma {:induction false} RunRetires(events: seq<Event>)
    requires FreshProvider(events)
    ensures Retired(After(events))
  {
    hide Inv, Step, FreshAnswer, Retired;
    if |events| == 0 {
      NothingRetired();
    } else {
      var front := events[..|events| - 1];
      RunRetires(front);
      RunKeeps(front);
      StepRetires(After(front), events[|events| - 1]);
    }
  }

  /** If the provider never reissues a secret, then after a refresh has succeeded no call holding the same
      observation ever asks the provider again. */
  lemma AskedOnce(events: seq<Event>, i: nat, j: nat)
    requires FreshProvider(events)
    requires i < j < |After(events).log| && After(events).log[i].Committed? && After(events).log[j].Asked?
    ensures !SameObservation(After(events).log[i], After(events).log[j])
  {
    RunRetires(events);
  }
}
