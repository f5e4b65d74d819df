/** Browser sessions of the single administrator, and logins racing credential changes. */
module WebLogin {
  import opened Bytes

  /** Digests of session tokens stand for the tokens; times are seconds. */
  type Token = string

  const SESSION_SECONDS: nat := 8 * 3600
  const IDLE_SECONDS: nat := 1800
  const MAX_SESSIONS: nat := 32
  const HASHING_PERMITS: nat := 2

  datatype Web = Web(sessions: map<Token, nat>, activity: map<Token, nat>, revocation: nat)

  datatype Entry = Entered | TooMany | Conflict

  /** Sessions whose time is not up. */
  function Live(sessions: map<Token, nat>, now: nat): map<Token, nat> {
    map t | t in sessions && sessions[t] > now :: sessions[t]
  }

  function Pruned(w: Web, now: nat): Web {
    w.(sessions := Live(w.sessions, now))
  }

  /** Activity of tokens without a session is dropped, but only when the request carries a token. */
  function Authorizing(w: Web, token: Option<Token>, now: nat): Web {
    if token.None? then Pruned(w, now)
    else
      var live := Live(w.sessions, now);
      w.(sessions := live, activity := map t | t in w.activity && t in live :: w.activity[t])
  }

  predicate Authorized(w: Web, ready: bool, token: Option<Token>, now: nat) {
    && ready && token.Some?
    && token.value in w.sessions && w.sessions[token.value] > now
    && (token.value in w.activity ==> now < w.activity[token.value] + IDLE_SECONDS)
  }

  function Kept(sessions: map<Token, nat>, own: Option<Token>, now: nat): map<Token, nat> {
    var live := Live(sessions, now);
    if own.Some? then live - {own.value} else live
  }

  /** The last block of a login: the caller's own old session goes first, whatever happens next. */
  function Entering(w: Web, generation: nat, own: Option<Token>, token: Token, now: nat): (Web, Entry) {
    var kept := Kept(w.sessions, own, now);
    if |kept| >= MAX_SESSIONS then (w.(sessions := kept), TooMany)
    else if w.revocation != generation then (w.(sessions := kept), Conflict)
    else (w.(sessions := kept[token := now + SESSION_SECONDS], activity := w.activity[token := now]), Entered)
  }

  function Removing(w: Web, token: Token): Web {
    w.(sessions := w.sessions - {token})
  }

  function Revoking(w: Web): Web {
    w.(revocation := w.revocation + 1)
  }

  function Clearing(w: Web): Web {
    Web(map[], map[], w.revocation + 1)
  }

  class Server {
    var sessions: map<Token, nat>
    var activity: map<Token, nat>
    var revocation: nat

    ghost function View(): Web
      reads this
    {
      Web(sessions, activity, revocation)
    }

    constructor ()
      ensures View() == Web(map[], map[], 0)
    {
      sessions, activity, revocation := map[], map[], 0;
    }

    method Authorize(ready: bool, token: Option<Token>, now: nat) returns (ok: bool)
      modifies this
      ensures View() == if ready then Authorizing(old(View()), token, now) else old(View())
      ensures ok == Authorized(old(View()), ready, token, now)
    {
      if !ready {
        return false;
      }
      sessions := map t | t in sessions && sessions[t] > now :: sessions[t];
      if token.None? {
        return false;
      }
      activity := map t | t in activity && t in sessions :: activity[t];
      ok := token.value in sessions && (token.value !in activity || now < activity[token.value] + IDLE_SECONDS);
    }

    method Enter(generation: nat, own: Option<Token>, token: Token, now: nat) returns (r: Entry)
      modifies this
      ensures (View(), r) == Entering(old(View()), generation, own, token, now)
    {
      sessions := map t | t in sessions && sessions[t] > now :: sessions[t];
      if own.Some? {
        sessions := sessions - {own.value};
      }
      if |sessions| >= MAX_SESSIONS {
        return TooMany;
      }
      if revocation != generation {
        return Conflict;
      }
      sessions := sessions[token := now + SESSION_SECONDS];
      activity := activity[token := now];
      r := Entered;
    }

    method Remove(token: Token)
      modifies this
      ensures View() == Removing(old(View()), token)
    {
      sessions := sessions - {token};
    }

    method Revoke()
      modifies this
      ensures View() == Revoking(old(View()))
    {
      revocation := revocation + 1;
    }

    method Touch(token: Token, now: nat)
      modifies this
      ensures View() == old(View()).(activity := old(View()).activity[token := now])
    {
      activity := activity[token := now];
    }

    method Clear()
      modifies this
      ensures View() == Clearing(old(View()))
    {
      sessions := map[];
      revocation := revocation + 1;
      activity := map[];
    }
  }

  // ---- Interleaved requests ----

  /** A request between two of its await points. Hashing runs on its own thread: a request dropped meanwhile
      leaves its check or change to run to the end, holding its permit. */
  datatype Call =
    | Checking(generation: nat, live: bool)
    | Checked(generation: nat, version: nat)
    | Verified(generation: nat, version: nat)
    | Changing(live: bool)
    | Changed(version: nat)

  datatype Event =
    | StartLogin(id: nat)
    | Check(id: nat, valid: bool)
    | Recheck(id: nat)
    | Enter(id: nat, own: Option<Token>, token: Token, now: nat)
    | StartChange(id: nat)
    | Commit(id: nat, accepted: bool)
    | Clear(id: nat)
    | Drop(id: nat)
    | Request(presented: Option<Token>, now: nat)
    | Touch(token: Token, now: nat)
    | Remove(token: Token)
    | Revoke

  /** `version` counts committed credential changes, `cleared` holds those whose clearing step has run, and
      `origin` the version each session's password was checked at. */
  datatype System = System(
    web: Web, permits: nat, calls: map<nat, Call>, version: nat, cleared: set<nat>, origin: map<Token, nat>)

  function Initial(): System {
    System(Web(map[], map[], 0), HASHING_PERMITS, map[], 0, {}, map[])
  }

  function Ended(s: System, id: nat): System {
    s.(calls := s.calls - {id})
  }

  function EnterStep(s: System, id: nat, own: Option<Token>, token: Token, now: nat): System
    requires id in s.calls && s.calls[id].Verified?
  {
    var c := s.calls[id];
    var (web, result) := Entering(s.web, c.generation, own, token, now);
    Ended(s, id).(web := web, origin := if result.Entered? then s.origin[token := c.version] else s.origin)
  }

  function CommitStep(s: System, id: nat, accepted: bool): System
    requires id in s.calls && s.calls[id].Changing?
  {
    var t := s.(permits := s.permits + 1, version := if accepted then s.version + 1 else s.version);
    if accepted && s.calls[id].live then t.(calls := s.calls[id := Changed(s.version + 1)]) else Ended(t, id)
  }

  function DropStep(s: System, id: nat): System
    requires id in s.calls
  {
    match s.calls[id]
    case Checking(generation, _) => s.(calls := s.calls[id := Checking(generation, false)])
    case Changing(_) => s.(calls := s.calls[id := Changing(false)])
    case _ => Ended(s, id)
  }

  function Step(s: System, e: Event): System {
    match e
    case StartLogin(id) =>
      if id in s.calls || s.permits == 0 then s
      else s.(permits := s.permits - 1, calls := s.calls[id := Checking(s.web.revocation, true)])
    case Check(id, valid) =>
      if !(id in s.calls && s.calls[id].Checking?) then s
      else if valid && s.calls[id].live then
        s.(permits := s.permits + 1, calls := s.calls[id := Checked(s.calls[id].generation, s.version)])
      else Ended(s, id).(permits := s.permits + 1)
    case Recheck(id) =>
      if !(id in s.calls && s.calls[id].Checked?) then s
      else if s.calls[id].generation != s.web.revocation then Ended(s, id)
      else s.(calls := s.calls[id := Verified(s.calls[id].generation, s.calls[id].version)])
    case Enter(id, own, token, now) =>
      if id in s.calls && s.calls[id].Verified? then EnterStep(s, id, own, token, now) else s
    case StartChange(id) =>
      if id in s.calls || s.permits == 0 then s
      else s.(permits := s.permits - 1, calls := s.calls[id := Changing(true)])
    case Commit(id, accepted) => if id in s.calls && s.calls[id].Changing? then CommitStep(s, id, accepted) else s
    case Clear(id) =>
      if id in s.calls && s.calls[id].Changed? then
        Ended(s, id).(web := Clearing(s.web), cleared := s.cleared + {s.calls[id].version})
      else s
    case Drop(id) => if id in s.calls then DropStep(s, id) else s
    case Request(token, now) => s.(web := Authorizing(s.web, token, now))
    case Touch(token, now) => s.(web := s.web.(activity := s.web.activity[token := now]))
    case Remove(token) => s.(web := Removing(s.web, token))
    case Revoke => s.(web := Revoking(s.web))
  }

  function Run(s: System, events: seq<Event>): System {
    if |events| == 0 then s else Step(Run(s, events[..|events| - 1]), events[|events| - 1])
  }

  function After(events: seq<Event>): System {
    Run(Initial(), events)
  }

  // ---- What every step keeps ----

  /** Nothing checked at version `version` is older than a change already cleared. */
  predicate Recent(cleared: set<nat>, version: nat) {
    forall v :: v in cleared ==> v <= version
  }

  ghost predicate CallRecent(s: System, c: Call) {
    match c
    case Checking(generation, _) => generation <= s.web.revocation
    case Checked(generation, version) =>
      generation <= s.web.revocation && (generation == s.web.revocation ==> Recent(s.cleared, version))
    case Verified(generation, version) =>
      generation <= s.web.revocation && (generation == s.web.revocation ==> Recent(s.cleared, version))
    case Changing(_) => true
    case Changed(version) => version <= s.version
  }

  ghost predicate Fenced(s: System) {
    && Recent(s.cleared, s.version)
    && (forall id :: id in s.calls ==> CallRecent(s, s.calls[id]))
    && (forall t :: t in s.web.sessions ==> t in s.origin && Recent(s.cleared, s.origin[t]))
    && |s.web.sessions| <= MAX_SESSIONS
  }

  ghost function Hashing(calls: map<nat, Call>): set<nat> {
    set id | id in calls && (calls[id].Checking? || calls[id].Changing?)
  }

  ghost predicate Permitted(s: System) {
    |Hashing(s.calls)| + s.permits == HASHING_PERMITS
  }

  lemma FewerSessions(m: map<Token, nat>, n: map<Token, nat>)
    requires m.Keys <= n.Keys
    ensures |m| <= |n|
  {
    SubsetSize(m.Keys, n.Keys);
    assert |m.Keys| == |m| && |n.Keys| == |n|;
  }

  lemma CallSet(s: System, id: nat, c: Call, permits: nat)
    requires Fenced(s) && CallRecent(s, c)
    ensures Fenced(s.(calls := s.calls[id := c], permits := permits))
  {
  }

  lemma CallGone(s: System, id: nat, permits: nat)
    requires Fenced(s)
    ensures Fenced(Ended(s, id).(permits := permits))
  {
  }

  lemma VersionUp(s: System)
    requires Fenced(s)
    ensures Fenced(s.(version := s.version + 1))
  {
  }

  /** Sessions may go and revocations come at any time. */
  lemma WebShrinks(s: System, web: Web)
    requires Fenced(s) && web.sessions.Keys <= s.web.sessions.Keys && web.revocation >= s.web.revocation
    ensures Fenced(s.(web := web))
  {
    FewerSessions(web.sessions, s.web.sessions);
  }

  lemma SessionEntered(s: System, web: Web, token: Token, version: nat)
    requires Fenced(s) && Recent(s.cleared, version) && web.revocation == s.web.revocation
    requires web.sessions.Keys <= s.web.sessions.Keys + {token} && |web.sessions| <= MAX_SESSIONS
    ensures Fenced(s.(web := web, origin := s.origin[token := version]))
  {
  }

  lemma SessionAdded(kept: map<Token, nat>, token: Token, until: nat)
    requires |kept| < MAX_SESSIONS
    ensures |kept[token := until]| <= MAX_SESSIONS && kept[token := until].Keys == kept.Keys + {token}
  {
    var m := kept[token := until];
    assert m.Keys == kept.Keys + {token};
    assert |m.Keys| == |m| && |kept.Keys| == |kept|;
  }

  lemma EnteringBounds(w: Web, generation: nat, own: Option<Token>, token: Token, now: nat)
    requires |w.sessions| <= MAX_SESSIONS
    ensures var (web, r) := Entering(w, generation, own, token, now);
      && web.revocation == w.revocation && |web.sessions| <= MAX_SESSIONS
      && (r.Entered? ==> w.revocation == generation && web.sessions.Keys <= w.sessions.Keys + {token})
      && (!r.Entered? ==> web.sessions.Keys <= w.sessions.Keys)
  {
    hide Kept;
    var kept := Kept(w.sessions, own, now);
    KeptShrinks(w.sessions, own, now);
    if |kept| < MAX_SESSIONS {
      SessionAdded(kept, token, now + SESSION_SECONDS);
      hide MAX_SESSIONS;
    }
  }

  lemma KeptShrinks(sessions: map<Token, nat>, own: Option<Token>, now: nat)
    ensures Kept(sessions, own, now).Keys <= sessions.Keys && |Kept(sessions, own, now)| <= |sessions|
  {
    assert Kept(sessions, own, now).Keys <= sessions.Keys;
    FewerSessions(Kept(sessions, own, now), sessions);
  }

  lemma EnterKeeps(s: System, id: nat, own: Option<Token>, token: Token, now: nat)
    requires Fenced(s) && id in s.calls && s.calls[id].Verified?
    ensures Fenced(EnterStep(s, id, own, token, now))
  {
    var c := s.calls[id];
    assert CallRecent(s, c);
    EnteringBounds(s.web, c.generation, own, token, now);
    CallGone(s, id, s.permits);
    hide Fenced, Entering;
    var (web, r) := Entering(s.web, c.generation, own, token, now);
    if r.Entered? {
      SessionEntered(Ended(s, id), web, token, c.version);
    } else {
      WebShrinks(Ended(s, id), web);
    }
  }

  lemma ClearKeeps(s: System, id: nat)
    requires Fenced(s) && id in s.calls && s.calls[id].Changed?
    ensures Fenced(Step(s, Clear(id)))
  {
    assert CallRecent(s, s.calls[id]);
  }

  lemma LoginMoves(s: System, e: Event)
    requires Fenced(s) && (e.Check? || e.Recheck?) && e.id in s.calls
    ensures Fenced(Step(s, e))
  {
    var c := s.calls[e.id];
    assert CallRecent(s, c) && Recent(s.cleared, s.version);
    hide Fenced, Recent;
    if e.Check? {
      CallGone(s, e.id, s.permits + 1);
      if c.Checking? { CallSet(s, e.id, Checked(c.generation, s.version), s.permits + 1); }
    } else {
      CallGone(s, e.id, s.permits);
      if c.Checked? { CallSet(s, e.id, Verified(c.generation, c.version), s.permits); }
    }
  }

  lemma CommitKeeps(s: System, id: nat, accepted: bool)
    requires Fenced(s) && id in s.calls && s.calls[id].Changing?
    ensures Fenced(CommitStep(s, id, accepted))
  {
    hide Fenced;
    VersionUp(s);
    var t := if accepted then s.(version := s.version + 1) else s;
    CallGone(t, id, s.permits + 1);
    CallSet(t, id, Changed(t.version), s.permits + 1);
  }

  lemma DropKeeps(s: System, id: nat)
    requires Fenced(s) && id in s.calls
    ensures Fenced(DropStep(s, id))
  {
    var c := s.calls[id];
    assert CallRecent(s, c);
    hide Fenced;
    CallGone(s, id, s.permits);
    if c.Checking? { CallSet(s, id, Checking(c.generation, false), s.permits); }
    if c.Changing? { CallSet(s, id, Changing(false), s.permits); }
  }

  lemma StepFences(s: System, e: Event)
    requires Fenced(s)
    ensures Fenced(Step(s, e))
  {
    hide Fenced, Entering, Recent, Clearing, EnterStep, CommitStep, DropStep;
    match e {
      case StartLogin(id) => if s.permits > 0 { CallSet(s, id, Checking(s.web.revocation, true), s.permits - 1); }
      case StartChange(id) => if s.permits > 0 { CallSet(s, id, Changing(true), s.permits - 1); }
      case Enter(id, own, token, now) =>
        if id in s.calls && s.calls[id].Verified? { EnterKeeps(s, id, own, token, now); }
      case Clear(id) => if id in s.calls && s.calls[id].Changed? { ClearKeeps(s, id); }
      case Request(presented, now) => WebShrinks(s, Authorizing(s.web, presented, now));
      case Touch(token, now) => WebShrinks(s, s.web.(activity := s.web.activity[token := now]));
      case Remove(token) => WebShrinks(s, Removing(s.web, token));
      case Revoke => WebShrinks(s, Revoking(s.web));
      case Check(id, _) => if id in s.calls { LoginMoves(s, e); }
      case Recheck(id) => if id in s.calls { LoginMoves(s, e); }
      case Commit(id, accepted) => if id in s.calls && s.calls[id].Changing? { CommitKeeps(s, id, accepted); }
      case Drop(id) => if id in s.calls { DropKeeps(s, id); }
    }
  }

  lemma {:induction false} RunFences(events: seq<Event>)
    ensures Fenced(After(events))
  {
    hide Fenced, Step;
    if |events| == 0 {
      NothingYet();
    } else {
      RunFences(events[..|events| - 1]);
      StepFences(After(events[..|events| - 1]), events[|events| - 1]);
    }
  }

  lemma NothingYet()
    ensures Fenced(Initial()) && Permitted(Initial())
  {
    assert Hashing(map[]) == {};
  }

  // ---- What holds of every run ----

  /** Once a credential change has cleared the sessions, every session there is comes from a password check
      that ran after that change was committed. */
  lemma SessionsAreRecent(events: seq<Event>, token: Token, change: nat)
    requires change in After(events).cleared && token in After(events).web.sessions
    ensures token in After(events).origin && change <= After(events).origin[token]
  {
    RunFences(events);
  }

  lemma AtMost32Sessions(events: seq<Event>)
    ensures |After(events).web.sessions| <= MAX_SESSIONS
  {
    RunFences(events);
  }

  function Subject(e: Event): Option<nat> {
    match e
    case Request(_, _) => None
    case Touch(_, _) => None
    case Remove(_) => None
    case Revoke => None
    case _ => Some(e.id)
  }

  predicate OnThread(c: Call) {
    c.Checking? || c.Changing?
  }

  lemma HashingSet(calls: map<nat, Call>, id: nat, c: Call)
    ensures Hashing(calls[id := c]) == if OnThread(c) then Hashing(calls) + {id} else Hashing(calls) - {id}
  {
  }

  lemma HashingGone(calls: map<nat, Call>, id: nat)
    ensures Hashing(calls - {id}) == Hashing(calls) - {id}
  {
  }

  function Threads(calls: map<nat, Call>, id: nat): nat {
    if id in calls && OnThread(calls[id]) then 1 else 0
  }

  /** A step concerns one request, and takes or returns a permit as that request goes on or off a hashing thread. */
  lemma OneSubject(s: System, e: Event)
    requires Subject(e).Some?
    ensures var calls := Step(s, e).calls;
      && calls == (if e.id in calls then s.calls[e.id := calls[e.id]] else s.calls - {e.id})
      && Step(s, e).permits + Threads(calls, e.id) == s.permits + Threads(s.calls, e.id)
  {
    hide Entering, Clearing;
  }

  lemma StepPermits(s: System, e: Event)
    requires Permitted(s)
    ensures Permitted(Step(s, e))
  {
    if Subject(e).Some? {
      OneSubject(s, e);
      hide Step;
      var calls := Step(s, e).calls;
      if e.id in calls {
        HashingSet(s.calls, e.id, calls[e.id]);
      } else {
        HashingGone(s.calls, e.id);
      }
      assert e.id in Hashing(s.calls) <==> Threads(s.calls, e.id) == 1;
    }
  }

  /** Never more than two passwords are being hashed at once, and every permit comes back. */
  lemma {:induction false} AtMostTwoHashing(events: seq<Event>)
    ensures |Hashing(After(events).calls)| + After(events).permits == HASHING_PERMITS
  {
    if |events| == 0 {
      NothingYet();
    } else {
      hide Step, Hashing;
      AtMostTwoHashing(events[..|events| - 1]);
      StepPermits(After(events[..|events| - 1]), events[|events| - 1]);
    }
  }

  /** Every committed change has been cleared or still has its request waiting to clear. */
  ghost predicate Pending(s: System, v: nat) {
    exists id :: id in s.calls && s.calls[id] == Changed(v)
  }

  ghost predicate Accounted(s: System) {
    forall v :: 1 <= v <= s.version ==> v in s.cleared || Pending(s, v)
  }

  /** A committed change loses its clearing step: it is committed for a request already dropped, or its request
      is dropped between committing and clearing. */
  predicate LosesChange(s: System, e: Event) {
    match e
    case Commit(id, accepted) => accepted && id in s.calls && s.calls[id].Changing? && !s.calls[id].live
    case Drop(id) => id in s.calls && s.calls[id].Changed?
    case _ => false
  }

  /** Changes waiting to clear are committed ones, not cleared yet, and no two are the same. */
  ghost predicate Distinct(s: System) {
    && Recent(s.cleared, s.version)
    && (forall i :: i in s.calls && s.calls[i].Changed? ==>
          1 <= s.calls[i].version <= s.version && s.calls[i].version !in s.cleared)
    && (forall i, j :: i in s.calls && j in s.calls && s.calls[i].Changed? && s.calls[j].Changed? && i != j ==>
          s.calls[i].version != s.calls[j].version)
  }

  lemma OthersUntouched(s: System, e: Event, i: nat)
    requires Subject(e) != Some(i)
    ensures i in Step(s, e).calls <==> i in s.calls
    ensures i in s.calls ==> Step(s, e).calls[i] == s.calls[i]
  {
  }

  /** Only committing makes a change, and only clearing clears one. */
  lemma ChangesMove(s: System, e: Event)
    requires Distinct(s)
    ensures var t := Step(s, e);
      && s.version <= t.version <= s.version + 1
      && (t.version > s.version ==> e.Commit? && e.accepted && e.id in s.calls && s.calls[e.id].Changing?)
      && (t.cleared == s.cleared ||
            (e.Clear? && e.id in s.calls && s.calls[e.id].Changed? && e.id !in t.calls && t.version == s.version
             && t.cleared == s.cleared + {s.calls[e.id].version}))
      && (Subject(e).Some? && e.id in t.calls && t.calls[e.id].Changed? ==>
            t.cleared == s.cleared &&
            if e.Commit? && s.calls[e.id].Changing? then t.calls[e.id].version == t.version == s.version + 1
            else e.id in s.calls && t.calls[e.id] == s.calls[e.id] && t.version == s.version)
  {
    hide Entering, Clearing;
  }

  lemma StepDistinct(s: System, e: Event)
    requires Distinct(s)
    ensures Distinct(Step(s, e))
  {
    ChangesMove(s, e);
    var t := Step(s, e);
    forall i | i in t.calls && t.calls[i].Changed? && Subject(e) != Some(i)
      ensures i in s.calls && s.calls[i] == t.calls[i]
    {
      OthersUntouched(s, e, i);
    }
    hide Step;
    assert Recent(t.cleared, t.version);
    hide Recent;
    if t.cleared != s.cleared {
      assert forall i :: i in t.calls && t.calls[i].Changed? ==> i in s.calls && t.calls[i] == s.calls[i];
    }
  }

  /** While nothing is lost, a step keeps it so exactly if it loses no change. */
  lemma StepAccounts(s: System, e: Event)
    requires Distinct(s) && Accounted(s)
    ensures Accounted(Step(s, e)) <==> !LosesChange(s, e)
  {
    var t := Step(s, e);
    if LosesChange(s, e) {
      var v := if e.Commit? then t.version else s.calls[e.id].version;
      assert v !in t.cleared && !Pending(t, v);
    } else {
      forall v | 1 <= v <= t.version
        ensures v in t.cleared || Pending(t, v)
      {
        StillAccounted(s, e, v);
      }
    }
  }

  lemma StillAccounted(s: System, e: Event, v: nat)
    requires Accounted(s) && !LosesChange(s, e) && 1 <= v <= Step(s, e).version
    ensures v in Step(s, e).cleared || Pending(Step(s, e), v)
  {
    var t := Step(s, e);
    if v == s.version + 1 {
      assert e.Commit? && t.calls[e.id] == Changed(v);
    } else if v !in s.cleared {
      var i :| i in s.calls && s.calls[i] == Changed(v);
      if Subject(e) != Some(i) {
        OthersUntouched(s, e, i);
        assert t.calls[i] == Changed(v);
      } else if v !in t.cleared {
        assert t.calls[i] == Changed(v);
      }
    }
  }

  /** A change once lost is never cleared. */
  lemma LostForEver(s: System, e: Event)
    requires Distinct(s) && !Accounted(s)
    ensures !Accounted(Step(s, e))
  {
    var v :| 1 <= v <= s.version && v !in s.cleared && !Pending(s, v);
    ChangesMove(s, e);
    var t := Step(s, e);
    if Pending(t, v) {
      var i :| i in t.calls && t.calls[i] == Changed(v);
      if Subject(e) != Some(i) {
        OthersUntouched(s, e, i);
      }
      assert false;
    }
  }

  predicate NoChangeLost(events: seq<Event>) {
    |events| == 0 ||
    (NoChangeLost(events[..|events| - 1]) && !LosesChange(After(events[..|events| - 1]), events[|events| - 1]))
  }

  lemma {:induction false} RunDistinct(events: seq<Event>)
    ensures Distinct(After(events))
  {
    if |events| > 0 {
      hide Step, Distinct;
      RunDistinct(events[..|events| - 1]);
      StepDistinct(After(events[..|events| - 1]), events[|events| - 1]);
    }
  }

  /** In every run, all committed changes have cleared the sessions or are about to, exactly if no commit came
      after its request was dropped and no request was dropped between its commit and its clearing. */
  lemma {:induction false} AccountedExactly(events: seq<Event>)
    ensures Accounted(After(events)) <==> NoChangeLost(events)
  {
    if |events| > 0 {
      hide Step, LosesChange, Distinct, Accounted;
      var front, e := events[..|events| - 1], events[|events| - 1];
      AccountedExactly(front);
      RunDistinct(front);
      if Accounted(After(front)) {
        StepAccounts(After(front), e);
      } else {
        LostForEver(After(front), e);
      }
    } else {
      assert Accounted(Initial());
    }
  }

  /** If no change was lost and none is waiting to clear, every session was checked against the credentials now
      in force. */
  lemma QuietMeansCurrent(events: seq<Event>, token: Token)
    requires NoChangeLost(events)
    requires forall v :: !Pending(After(events), v)
    requires token in After(events).web.sessions
    ensures token in After(events).origin && After(events).origin[token] >= After(events).version
  {
    RunFences(events);
    AccountedExactly(events);
    var s := After(events);
    if s.version >= 1 {
      assert s.version in s.cleared || Pending(s, s.version);
    }
  }

  /** The code does not promise that much when the client hangs up: from any moment on, a change whose request is
      dropped while it is hashing still commits and never clears, and one dropped between committing and clearing
      does not clear either. All sessions stay as they are, whatever they were checked against. */
  lemma DroppedChangeLeavesSessions(events: seq<Event>, id: nat, late: bool)
    requires id !in After(events).calls && After(events).permits > 0
    ensures var s := After(events);
      var more := events + if late then [StartChange(id), Commit(id, true), Drop(id)]
                           else [StartChange(id), Drop(id), Commit(id, true)];
      After(more) == s.(version := s.version + 1) && !Accounted(After(more))
  {
    var s := After(events);
    var steps := if late then [StartChange(id), Commit(id, true), Drop(id)]
                 else [StartChange(id), Drop(id), Commit(id, true)];
    var one, two, more := events + steps[..1], events + steps[..2], events + steps;
    OneByOne(events, steps[0], one);
    OneByOne(one, steps[1], two);
    OneByOne(two, steps[2], more);
    ChangeDropped(s, id, late);
    RunDistinct(events);
    assert !Pending(After(more), s.version + 1);
  }

  lemma ChangeDropped(s: System, id: nat, late: bool)
    requires id !in s.calls && s.permits > 0
    ensures Step(Step(Step(s, StartChange(id)), if late then Commit(id, true) else Drop(id)),
                 if late then Drop(id) else Commit(id, true)) == s.(version := s.version + 1)
  {
    var t := Step(Step(s, StartChange(id)), if late then Commit(id, true) else Drop(id));
    assert t.calls - {id} == s.calls;
  }

  lemma OneByOne(front: seq<Event>, e: Event, all: seq<Event>)
    requires all == front + [e]
    ensures After(all) == Step(After(front), e)
  {
    assert all[..|all| - 1] == front;
  }

  // ---- Who is let in, from what was done ----

  /** A login enters a new session: its password was verified, no change or logout came since, and after the
      expired sessions and the caller's own old one are gone there are fewer than 32. */
  ghost predicate Opens(s: System, e: Event) {
    && e.Enter? && e.id in s.calls && s.calls[e.id].Verified? && s.calls[e.id].generation == s.web.revocation
    && |map t | t in s.web.sessions && s.web.sessions[t] > e.now && e.own != Some(t) :: s.web.sessions[t]| < 32
  }

  /** An event after which a session of that token, valid until `until`, is no more or is another one. */
  ghost predicate Closes(s: System, e: Event, token: Token, until: nat) {
    match e
    case Enter(id, own, entered, now) =>
      && id in s.calls && s.calls[id].Verified?
      && (until <= now || own == Some(token) || (entered == token && Opens(s, e)))
    case Clear(id) => id in s.calls && s.calls[id].Changed?
    case Request(_, now) => until <= now
    case Remove(removed) => removed == token
    case _ => false
  }

  /** The session begun at `i` is still there: it lasts eight hours from its login. */
  ghost predicate Lasting(events: seq<Event>, i: nat, token: Token) {
    && i < |events| && Opens(After(events[..i]), events[i]) && events[i].token == token
    && forall j :: i < j < |events| ==> !Closes(After(events[..j]), events[j], token, events[i].now + 28800)
  }

  /** When the session begun at `i` was last active: at its login, or when last touched since. */
  function LastActive(events: seq<Event>, i: nat, token: Token): nat
    requires i < |events| && events[i].Enter?
    decreases |events|
  {
    var n := |events| - 1;
    if n == i then events[i].now
    else if events[n].Touch? && events[n].token == token then events[n].now
    else LastActive(events[..n], i, token)
  }

  /** The two maps hold of a token what its lasting session says. */
  ghost predicate Held(events: seq<Event>, w: Web, token: Token) {
    && (token in w.sessions <==> exists i: nat :: Lasting(events, i, token))
    && (forall i: nat :: Lasting(events, i, token) ==>
          && token in w.sessions && w.sessions[token] == events[i].now + 28800
          && token in w.activity && w.activity[token] == LastActive(events, i, token))
  }

  lemma LastingMore(front: seq<Event>, e: Event, i: nat, token: Token)
    ensures Lasting(front + [e], i, token) <==>
      if i == |front| then Opens(After(front), e) && e.token == token
      else Lasting(front, i, token) && !Closes(After(front), e, token, front[i].now + 28800)
  {
    hide After, Opens, Closes;
    var events := front + [e];
    assert events[..|front|] == front;
    if i < |front| {
      assert events[i] == front[i];
      assert forall j :: 0 <= j < |front| ==> events[..j] == front[..j] && events[j] == front[j];
    }
  }

  lemma LastActiveMore(front: seq<Event>, e: Event, i: nat, token: Token)
    requires i < |front| && front[i].Enter?
    ensures LastActive(front + [e], i, token) ==
      if e.Touch? && e.token == token then e.now else LastActive(front, i, token)
  {
    assert (front + [e])[..|front|] == front;
  }

  /** What an event leaves of a token's session, in a system whose maps were `w` and are now `v`. */
  ghost predicate Moves(s: System, e: Event, v: Web, token: Token) {
    var w := s.web;
    && (Opens(s, e) && e.token == token ==>
          && token in v.sessions && v.sessions[token] == e.now + 28800
          && token in v.activity && v.activity[token] == e.now)
    && (!(Opens(s, e) && e.token == token) ==>
          && (token in v.sessions <==> token in w.sessions && !Closes(s, e, token, w.sessions[token]))
          && (token in v.sessions ==> v.sessions[token] == w.sessions[token])
          && (token in v.sessions && e.Touch? && e.token == token ==>
                token in v.activity && v.activity[token] == e.now)
          && (token in v.sessions && token in w.activity && !(e.Touch? && e.token == token) ==>
                token in v.activity && v.activity[token] == w.activity[token]))
  }

  lemma StepHolds(s: System, e: Event, token: Token)
    ensures Moves(s, e, Step(s, e).web, token)
  {
    if e.Enter? && e.id in s.calls && s.calls[e.id].Verified? {
      EntryHolds(s, e, token);
      hide Moves, EnterStep;
    } else {
      hide Kept;
    }
  }

  lemma EntryHolds(s: System, e: Event, token: Token)
    requires e.Enter? && e.id in s.calls && s.calls[e.id].Verified?
    ensures Moves(s, e, EnterStep(s, e.id, e.own, e.token, e.now).web, token)
  {
    EntryOpens(s, e);
    EntryMaps(s.web, s.calls[e.id].generation, e.own, e.token, e.now, token);
    hide Entering, Ended, Opens;
  }

  lemma EntryMaps(w: Web, generation: nat, own: Option<Token>, entered: Token, now: nat, token: Token)
    ensures var (v, r) := Entering(w, generation, own, entered, now);
      if r.Entered? && entered == token then
        && token in v.sessions && v.sessions[token] == now + 28800
        && token in v.activity && v.activity[token] == now
      else
        && (token in v.sessions <==> token in w.sessions && w.sessions[token] > now && own != Some(token))
        && (token in v.sessions ==> v.sessions[token] == w.sessions[token])
        && (token in w.activity ==> token in v.activity && v.activity[token] == w.activity[token])
  {
    KeptHas(w.sessions, own, now, token);
    hide Kept;
  }

  lemma KeptHas(sessions: map<Token, nat>, own: Option<Token>, now: nat, token: Token)
    ensures var kept := Kept(sessions, own, now);
      && (token in kept <==> token in sessions && sessions[token] > now && own != Some(token))
      && (token in kept ==> kept[token] == sessions[token])
  {
  }

  lemma EntryOpens(s: System, e: Event)
    requires e.Enter? && e.id in s.calls && s.calls[e.id].Verified?
    ensures Opens(s, e) <==> Entering(s.web, s.calls[e.id].generation, e.own, e.token, e.now).1.Entered?
  {
    KeptExactly(s.web.sessions, e.own, e.now);
    hide Kept;
  }

  /** Of the sessions those stay whose time is not up, but the caller's own. */
  lemma KeptExactly(sessions: map<Token, nat>, own: Option<Token>, now: nat)
    ensures Kept(sessions, own, now) == map t | t in sessions && sessions[t] > now && own != Some(t) :: sessions[t]
  {
  }

  lemma OpenedHolds(front: seq<Event>, e: Event, token: Token)
    requires Opens(After(front), e) && e.token == token
    ensures Held(front + [e], Step(After(front), e).web, token)
  {
    var events, s := front + [e], After(front);
    StepHolds(s, e, token);
    LastingMore(front, e, |front|, token);
    forall i: nat | Lasting(events, i, token)
      ensures i == |front|
    {
      LastingMore(front, e, i, token);
    }
    assert events[|front|] == e && LastActive(events, |front|, token) == e.now;
    hide Step, After, Lasting, LastActive, Opens, Closes;
  }

  lemma StaysHeld(front: seq<Event>, e: Event, token: Token)
    requires Held(front, After(front).web, token) && !(Opens(After(front), e) && e.token == token)
    ensures Held(front + [e], Step(After(front), e).web, token)
  {
    var events, s := front + [e], After(front);
    StepHolds(s, e, token);
    LastingInside(front, token);
    hide Step, After, Lasting, LastActive, Opens, Closes;
    forall i: nat
      ensures Lasting(events, i, token) <==>
        i != |front| && Lasting(front, i, token) && !Closes(s, e, token, front[i].now + 28800)
    {
      LastingMore(front, e, i, token);
    }
    forall i: nat | Lasting(front, i, token)
      ensures events[i] == front[i]
      ensures LastActive(events, i, token) ==
        if e.Touch? && e.token == token then e.now else LastActive(front, i, token)
    {
      LastActiveMore(front, e, i, token);
    }
  }

  lemma {:induction false} RunHolds(events: seq<Event>, token: Token)
    ensures Held(events, After(events).web, token)
  {
    if |events| > 0 {
      hide Step, Opens, Held;
      var front, e := events[..|events| - 1], events[|events| - 1];
      assert events == front + [e];
      RunHolds(front, token);
      if Opens(After(front), e) && e.token == token {
        OpenedHolds(front, e, token);
      } else {
        StaysHeld(front, e, token);
      }
    } else {
      hide Lasting;
      LastingInside(events, token);
    }
  }

  lemma LastingInside(events: seq<Event>, token: Token)
    ensures forall i: nat :: Lasting(events, i, token) ==> i < |events| && events[i].Enter?
  {
  }

  /** In every run a request is let in exactly with the token of a login less than eight hours ago that has not
      been logged out, replaced or cleared since, and was active in the last half hour. */
  lemma AuthorizedExactly(events: seq<Event>, ready: bool, token: Option<Token>, now: nat)
    ensures Authorized(After(events).web, ready, token, now) <==>
      && ready && token.Some?
      && exists i: nat :: Lasting(events, i, token.value)
           && now < events[i].now + 28800 && now < LastActive(events, i, token.value) + 1800
  {
    if token.Some? {
      RunHolds(events, token.value);
      LastingInside(events, token.value);
      hide Lasting, LastActive;
      if token.value in After(events).web.sessions {
        var i: nat :| Lasting(events, i, token.value);
      }
    }
  }

  /** From any moment of any run with a permit to spare and room for a session, a login with the right password that
      nobody disturbs opens one, checked against the credentials in force, and everything is as before. */
  lemma UndisturbedLogin(events: seq<Event>, id: nat, own: Option<Token>, token: Token, now: nat)
    requires var s := After(events);
      && id !in s.calls && s.permits > 0
      && |map t | t in s.web.sessions && s.web.sessions[t] > now && own != Some(t) :: s.web.sessions[t]| < 32
    ensures var steps := [StartLogin(id), Check(id, true), Recheck(id), Enter(id, own, token, now)];
      var s, t := After(events), After(events + steps);
      && Lasting(events + steps, |events| + 3, token) && token in t.origin && t.origin[token] == s.version
      && t.permits == s.permits && t.calls == s.calls && t.web.revocation == s.web.revocation
  {
    var steps := [StartLogin(id), Check(id, true), Recheck(id), Enter(id, own, token, now)];
    var s := After(events);
    var one, two, three, all := events + steps[..1], events + steps[..2], events + steps[..3], events + steps;
    LoginVerified(s, id);
    KeptExactly(s.web.sessions, own, now);
    hide Kept, After, Step;
    OneByOne(events, steps[0], one);
    OneByOne(one, steps[1], two);
    OneByOne(two, steps[2], three);
    OneByOne(three, steps[3], all);
    assert all[..|events| + 3] == three && all[|events| + 3] == steps[3];
    LastEntry(s, id, own, token, now);
  }

  lemma LoginVerified(s: System, id: nat)
    requires id !in s.calls && s.permits > 0
    ensures Step(Step(Step(s, StartLogin(id)), Check(id, true)), Recheck(id)) ==
      s.(calls := s.calls[id := Verified(s.web.revocation, s.version)])
  {
    var one := Step(s, StartLogin(id));
    assert one == s.(permits := s.permits - 1, calls := s.calls[id := Checking(s.web.revocation, true)]);
    assert Step(one, Check(id, true)) == s.(calls := s.calls[id := Checked(s.web.revocation, s.version)]);
  }

  lemma LastEntry(s: System, id: nat, own: Option<Token>, token: Token, now: nat)
    requires id !in s.calls && |Kept(s.web.sessions, own, now)| < 32
    ensures var before := s.(calls := s.calls[id := Verified(s.web.revocation, s.version)]);
      var t := Step(before, Enter(id, own, token, now));
      && t.permits == s.permits && t.calls == s.calls && t.web.revocation == s.web.revocation
      && token in t.origin && t.origin[token] == s.version
  {
    hide Kept;
    assert s.calls[id := Verified(s.web.revocation, s.version)] - {id} == s.calls;
  }

  /** From any such moment, an accepted change that nobody disturbs commits, and leaves no session. */
  lemma UndisturbedChange(events: seq<Event>, id: nat)
    requires id !in After(events).calls && After(events).permits > 0
    ensures var s, t := After(events), After(events + [StartChange(id), Commit(id, true), Clear(id)]);
      && t.version == s.version + 1 && s.version + 1 in t.cleared && t.web.sessions == map[] && t.web.activity == map[]
      && t.web.revocation > s.web.revocation && t.permits == s.permits && t.calls == s.calls
  {
    var steps := [StartChange(id), Commit(id, true), Clear(id)];
    var s := After(events);
    var one, two := events + steps[..1], events + steps[..2];
    OneByOne(events, steps[0], one);
    OneByOne(one, steps[1], two);
    OneByOne(two, steps[2], events + steps);
    assert After(two) == s.(version := s.version + 1, calls := s.calls[id := Changed(s.version + 1)]);
    assert s.calls[id := Changed(s.version + 1)] - {id} == s.calls;
  }

  /** Since the request's login began, no session was logged out and no change cleared the sessions. */
  predicate Unrevoked(events: seq<Event>, id: nat)
    decreases |events|
  {
    |events| > 0 &&
    var front, e := events[..|events| - 1], events[|events| - 1];
    var s := After(front);
    if e == StartLogin(id) && id !in s.calls && s.permits > 0 then true
    else !e.Revoke? && !(e.Clear? && e.id in s.calls && s.calls[e.id].Changed?) && Unrevoked(front, id)
  }

  predicate HasGeneration(c: Call) {
    c.Checking? || c.Checked? || c.Verified?
  }

  ghost predicate GenerationsTell(events: seq<Event>, id: nat) {
    var s := After(events);
    id in s.calls && HasGeneration(s.calls[id]) ==>
      && s.calls[id].generation <= s.web.revocation
      && (Unrevoked(events, id) <==> s.calls[id].generation == s.web.revocation)
  }

  /** What one event does to the generations. */
  lemma StepGenerations(s: System, e: Event, id: nat)
    ensures var t := Step(s, e);
      && t.web.revocation == s.web.revocation
           + (if e.Revoke? || (e.Clear? && e.id in s.calls && s.calls[e.id].Changed?) then 1 else 0)
      && (id in t.calls && HasGeneration(t.calls[id]) ==>
            if e == StartLogin(id) && id !in s.calls && s.permits > 0 then t.calls[id].generation == s.web.revocation
            else id in s.calls && HasGeneration(s.calls[id]) && t.calls[id].generation == s.calls[id].generation)
  {
    hide Kept, Live;
  }

  lemma {:induction false} RunGenerations(events: seq<Event>, id: nat)
    ensures GenerationsTell(events, id)
  {
    if |events| > 0 {
      hide Step;
      var front, e := events[..|events| - 1], events[|events| - 1];
      RunGenerations(front, id);
      StepGenerations(After(front), e, id);
    }
  }

  /** In every run, a login whose password was verified opens its session exactly if nothing was logged out or changed
      since it began, and fewer than 32 sessions are left without the expired ones and the caller's own. */
  lemma EntersExactly(events: seq<Event>, id: nat, own: Option<Token>, token: Token, now: nat)
    requires id in After(events).calls && After(events).calls[id].Verified?
    ensures var s := After(events);
      Lasting(events + [Enter(id, own, token, now)], |events|, token) <==>
        && Unrevoked(events, id)
        && |map t | t in s.web.sessions && s.web.sessions[t] > now && own != Some(t) :: s.web.sessions[t]| < 32
  {
    RunGenerations(events, id);
    LastingMore(events, Enter(id, own, token, now), |events|, token);
    hide Lasting, Unrevoked;
  }

  /** A login whose client hangs up while its password is being hashed ends there: its permit comes back, and however
      the password turns out nothing is left of it. */
  lemma DroppedLoginEnds(events: seq<Event>, id: nat, valid: bool)
    requires id in After(events).calls && After(events).calls[id].Checking?
    ensures var s, t := After(events), After(events + [Drop(id), Check(id, valid)]);
      t.calls == s.calls - {id} && t.permits == s.permits + 1 && t.web == s.web && t.origin == s.origin
  {
    var s := After(events);
    OneByOne(events, Drop(id), events + [Drop(id)]);
    assert events + [Drop(id), Check(id, valid)] == events + [Drop(id)] + [Check(id, valid)];
    OneByOne(events + [Drop(id)], Check(id, valid), events + [Drop(id), Check(id, valid)]);
    assert After(events + [Drop(id)]) == s.(calls := s.calls[id := Checking(s.calls[id].generation, false)]);
    assert s.calls[id := Checking(s.calls[id].generation, false)] - {id} == s.calls - {id};
  }

  /** A request leaves the sessions whose time is not up, and if it carries a token the activity of just these. */
  lemma RequestPrunes(events: seq<Event>, token: Option<Token>, now: nat)
    ensures var w, v := After(events).web, After(events + [Request(token, now)]).web;
      && v.revocation == w.revocation
      && (forall t :: t in v.sessions <==> t in w.sessions && w.sessions[t] > now)
      && (forall t :: t in v.activity <==> t in w.activity && (token.Some? ==> t in v.sessions))
      && (forall t :: t in v.activity ==> v.activity[t] == w.activity[t])
      && (forall t :: t in v.sessions ==> v.sessions[t] == w.sessions[t])
  {
    assert (events + [Request(token, now)])[..|events|] == events;
  }
}
