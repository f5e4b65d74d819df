/** The protocol session behind its lock, and the gateway caches tagged with its epoch.

    Every handler runs under the session lock from start to end, so each is one step here; the answers of the
    remote side are parameters, and so is the point where a dropped request stops. */
module SessionEpoch {
  import opened Bytes
  import Limits

  type Owner = string
  type Seconds = Limits.Time

  datatype Challenge = Challenge(id: string, expires: Seconds, resendAt: Seconds)

  datatype State = State(
    challenge: Option<Challenge>, client: Option<Owner>, nim: Option<Owner>, account: Option<string>, epoch: nat,
    attempts: seq<Seconds>)

  /** How a remote call ends; `Dropped` when the request is cancelled while it waits. */
  datatype Call = Dropped | Fine | Failed

  datatype Connecting = Abandoned | Connected | Unreachable | NoToken

  datatype Accepted = Accepted(owner: Owner, nimId: Option<string>, groups: Call, saved: bool, nim: Connecting)

  datatype Device = DeviceDropped | DeviceChallenge(challenge: Challenge) | DeviceFailed

  datatype LoginAnswer = LoginDropped | LoginAccepted(accepted: Accepted) | NeedsDevice(device: Device) | LoginRefused

  datatype Sms = SmsDropped | SmsSent(challenge: Challenge) | SmsFailed

  datatype Refresh = RefreshDropped | Refreshed(nim: Connecting) | Expired | RefreshFailed

  /** The old socket is let go first; without a NIM identity or a reachable endpoint none takes its place. */
  function ConnectNim(s: State, nim: Connecting): State {
    if nim.NoToken? then s
    else s.(nim := if nim.Connected? && s.account.Some? then s.client else None)
  }

  function FinishLogin(s: State, a: Accepted): State {
    if !a.groups.Fine? then s
    else if !a.saved then s.(challenge := None, client := None, account := None)
    else ConnectNim(s.(challenge := None, account := a.nimId, client := Some(a.owner)), a.nim)
  }

  /** What logging out, an expired session and a new login all begin with. */
  function Cleared(s: State): State {
    s.(client := None, nim := None, account := None, epoch := s.epoch + 1)
  }

  function Tried(s: State, now: Seconds, most: nat): (State, bool) {
    var kept := s.(attempts := Limits.Kept(s.attempts, now));
    if |kept.attempts| > most then (kept, false) else (kept.(attempts := kept.attempts + [now]), true)
  }

  /** `ready` is false when a vault write fails before anything is cleared, `configured` when the deployment
      cannot make a client. */
  function LoggingIn(s: State, now: Seconds, ready: bool, configured: bool, answer: LoginAnswer): State {
    var (tried, ok) := Tried(s, now, 4);
    if !ok || !ready then tried
    else
      var empty := Cleared(tried).(challenge := None);
      if !configured then empty
      else
        match answer
        case LoginAccepted(accepted) => FinishLogin(empty, accepted)
        case NeedsDevice(DeviceChallenge(challenge)) => empty.(challenge := Some(challenge))
        case _ => empty
  }

  function StartingSms(s: State, now: Seconds, configured: bool, answer: Sms): State {
    if s.client.Some? then s
    else if s.challenge.Some? && s.challenge.value.resendAt > now then s
    else
      var (tried, ok) := Tried(s, now, 0);
      if !ok then tried
      else if configured && answer.SmsSent? then tried.(challenge := Some(answer.challenge))
      else tried.(challenge := None)
  }

  function Resending(s: State, id: string, now: Seconds, configured: bool): State {
    if s.challenge.None? || s.challenge.value.id != id then s
    else if s.challenge.value.expires <= now then s.(challenge := None)
    else if s.challenge.value.resendAt > now then s
    else
      var (tried, ok) := Tried(s, now, 4);
      if !ok || !configured then tried
      else tried.(challenge := Some(s.challenge.value.(resendAt := now + 60 * Limits.SECOND)))
  }

  function Verifying(s: State, id: string, now: Seconds, configured: bool, answer: LoginAnswer): State {
    if s.challenge.None? || s.challenge.value.id != id then s
    else if s.challenge.value.expires <= now then s.(challenge := None)
    else
      var (tried, ok) := Tried(s, now, 4);
      if ok && configured && answer.LoginAccepted? then FinishLogin(tried, answer.accepted) else tried
  }

  function Renewing(s: State, answer: Refresh): State {
    if s.client.None? then s
    else
      match answer
      case Refreshed(nim) => ConnectNim(s, if nim.NoToken? then Unreachable else nim)
      case Expired => Cleared(s)
      case _ => s
  }

  function LoggingOut(s: State, ready: bool): State {
    if !ready then s else Cleared(s).(challenge := None)
  }

  class Session {
    var challenge: Option<Challenge>
    var client: Option<Owner>
    var nim: Option<Owner>
    var account: Option<string>
    var epoch: nat
    var attempts: seq<Seconds>

    ghost function View(): State
      reads this
    {
      State(challenge, client, nim, account, epoch, attempts)
    }

    constructor ()
      ensures View() == State(None, None, None, None, 1, [])
    {
      challenge, client, nim, account, epoch, attempts := None, None, None, None, 1, [];
    }

    method Try(now: Seconds, most: nat) returns (ok: bool)
      modifies this`attempts
      ensures (View(), ok) == Tried(old(View()), now, most)
    {
      attempts := Limits.Kept(attempts, now);
      if |attempts| > most {
        return false;
      }
      attempts := attempts + [now];
      ok := true;
    }

    method Connect(connecting: Connecting)
      modifies this`nim
      ensures View() == ConnectNim(old(View()), connecting)
    {
      if connecting.NoToken? {
        return;
      }
      nim := None;
      if connecting.Connected? && account.Some? {
        nim := client;
      }
    }

    method Finish(a: Accepted)
      modifies this`challenge, this`client, this`nim, this`account
      ensures View() == FinishLogin(old(View()), a)
    {
      if !a.groups.Fine? {
        return;
      }
      challenge := None;
      account := a.nimId;
      client := Some(a.owner);
      if !a.saved {
        client := None;
        account := None;
        return;
      }
      Connect(a.nim);
    }

    method Clear()
      modifies this`client, this`nim, this`account, this`epoch
      ensures View() == Cleared(old(View()))
    {
      epoch := epoch + 1;
      client := None;
      nim := None;
      account := None;
    }

    method Login(now: Seconds, ready: bool, configured: bool, answer: LoginAnswer)
      modifies this
      ensures View() == LoggingIn(old(View()), now, ready, configured, answer)
    {
      var ok := Try(now, 4);
      if !ok || !ready {
        return;
      }
      challenge := None;
      Clear();
      if !configured {
        return;
      }
      match answer {
        case LoginAccepted(accepted) => Finish(accepted);
        case NeedsDevice(DeviceChallenge(c)) => challenge := Some(c);
        case _ =>
      }
    }

    method StartSms(now: Seconds, configured: bool, answer: Sms)
      modifies this
      ensures View() == StartingSms(old(View()), now, configured, answer)
    {
      if client.Some? {
        return;
      }
      if challenge.Some? && challenge.value.resendAt > now {
        return;
      }
      var ok := Try(now, 0);
      if !ok {
        return;
      }
      challenge := None;
      if configured && answer.SmsSent? {
        challenge := Some(answer.challenge);
      }
    }

    method ResendSms(id: string, now: Seconds, configured: bool)
      modifies this
      ensures View() == Resending(old(View()), id, now, configured)
    {
      if challenge.None? || challenge.value.id != id {
        return;
      }
      if challenge.value.expires <= now {
        challenge := None;
        return;
      }
      if challenge.value.resendAt > now {
        return;
      }
      var ok := Try(now, 4);
      if ok && configured {
        challenge := Some(challenge.value.(resendAt := now + 60 * Limits.SECOND));
      }
    }

    method VerifySms(id: string, now: Seconds, configured: bool, answer: LoginAnswer)
      modifies this
      ensures View() == Verifying(old(View()), id, now, configured, answer)
    {
      if challenge.None? || challenge.value.id != id {
        return;
      }
      if challenge.value.expires <= now {
        challenge := None;
        return;
      }
      var ok := Try(now, 4);
      if ok && configured && answer.LoginAccepted? {
        Finish(answer.accepted);
      }
    }

    method Renew(answer: Refresh)
      modifies this
      ensures View() == Renewing(old(View()), answer)
    {
      if client.None? {
        return;
      }
      match answer {
        case Refreshed(connecting) => Connect(if connecting.NoToken? then Unreachable else connecting);
        case Expired => Clear();
        case _ =>
      }
    }

    method Logout(ready: bool)
      modifies this
      ensures View() == LoggingOut(old(View()), ready)
    {
      if !ready {
        return;
      }
      challenge := None;
      Clear();
    }
  }

  // ---- Handlers interleaved with the gateway's cached reads ----

  datatype Handler =
    | Login(now: Seconds, ready: bool, configured: bool, login: LoginAnswer)
    | StartSms(now: Seconds, configured: bool, sms: Sms)
    | ResendSms(id: string, now: Seconds, configured: bool)
    | VerifySms(id: string, now: Seconds, configured: bool, login: LoginAnswer)
    | Renew(refresh: Refresh)
    | Logout(ready: bool)
    | CloseNim

  function Handling(s: State, h: Handler): State {
    match h
    case Login(now, ready, configured, answer) => LoggingIn(s, now, ready, configured, answer)
    case StartSms(now, configured, answer) => StartingSms(s, now, configured, answer)
    case ResendSms(id, now, configured) => Resending(s, id, now, configured)
    case VerifySms(id, now, configured, answer) => Verifying(s, id, now, configured, answer)
    case Renew(answer) => Renewing(s, answer)
    case Logout(ready) => LoggingOut(s, ready)
    case CloseNim => s.(nim := None)
  }

  /** Data read with a client, and whose client it was. */
  datatype Data = Data(owner: Owner, content: string)

  datatype Entry = Entry(epoch: nat, data: Data)

  const MAX_ROSTERS: nat := 100

  /** A read of the group list (`group` None) or of one roster, between two of its await points. */
  datatype Read =
    | Loaded(epoch: nat, group: Option<int>)
    | Missed(epoch: nat, group: Option<int>)
    | Reading(epoch: nat, group: Option<int>, owner: Owner)
    | Fetched(epoch: nat, group: Option<int>, data: Data)

  datatype Event =
    | Handle(handler: Handler)
    | Begin(id: nat, group: Option<int>)
    | LookUp(id: nat, recent: bool)
    | Lock(id: nat)
    | Answer(id: nat, content: Option<string>)
    | Store(id: nat)
    | Drop(id: nat)
    | Forget(group: Option<int>)

  /** `holder` is the read holding the session lock; `answers` is every answer given, with the epoch the read
      began in; `owners` remembers whose client each epoch has had. */
  datatype System = System(
    state: State, holder: Option<nat>, groups: Option<Entry>, rosters: map<int, Entry>, pending: map<nat, Read>,
    answers: seq<Entry>, owners: map<nat, Owner>)

  /** The session as restored from the vault, or empty. */
  function Initial(restored: Option<(Owner, string)>): System {
    match restored
    case None => System(State(None, None, None, None, 1, []), None, None, map[], map[], [], map[])
    case Some((owner, account)) =>
      System(State(None, Some(owner), None, Some(account), 1, []), None, None, map[], map[], [], map[1 := owner])
  }

  function Cached(s: System, group: Option<int>): Option<Entry> {
    match group
    case None => s.groups
    case Some(g) => if g in s.rosters then Some(s.rosters[g]) else None
  }

  function Caching(s: System, group: Option<int>, entry: Entry): System {
    match group
    case None => s.(groups := Some(entry))
    case Some(g) => s.(rosters := (if |s.rosters| >= MAX_ROSTERS then map[] else s.rosters)[g := entry])
  }

  function Gone(s: System, id: nat): System {
    s.(pending := s.pending - {id}, holder := if s.holder == Some(id) then None else s.holder)
  }

  function Owning(owners: map<nat, Owner>, s: State): map<nat, Owner> {
    if s.client.Some? then owners[s.epoch := s.client.value] else owners
  }

  function Step(s: System, e: Event): System {
    match e
    case Handle(h) =>
      if s.holder.Some? then s
      else s.(state := Handling(s.state, h), owners := Owning(s.owners, Handling(s.state, h)))
    case Begin(id, group) => if id in s.pending then s else s.(pending := s.pending[id := Loaded(s.state.epoch, group)])
    case LookUp(id, recent) =>
      if !(id in s.pending && s.pending[id].Loaded?) then s
      else
        var r := s.pending[id];
        var entry := Cached(s, r.group);
        if recent && entry.Some? && entry.value.epoch == r.epoch then
          Gone(s, id).(answers := s.answers + [Entry(r.epoch, entry.value.data)])
        else s.(pending := s.pending[id := Missed(r.epoch, r.group)])
    case Lock(id) =>
      if !(id in s.pending && s.pending[id].Missed?) || s.holder.Some? then s
      else
        var r := s.pending[id];
        if s.state.epoch != r.epoch || s.state.account.None? || s.state.client.None? then Gone(s, id)
        else s.(pending := s.pending[id := Reading(r.epoch, r.group, s.state.client.value)], holder := Some(id))
    case Answer(id, content) =>
      if !(id in s.pending && s.pending[id].Reading?) then s
      else if content.None? then Gone(s, id)
      else
        var r := s.pending[id];
        // The group list is stored before the lock is released, a roster after.
        s.(pending := s.pending[id := Fetched(r.epoch, r.group, Data(r.owner, content.value))],
           holder := if r.group.None? then s.holder else if s.holder == Some(id) then None else s.holder)
    case Store(id) =>
      if !(id in s.pending && s.pending[id].Fetched?) then s
      else
        var r := s.pending[id];
        var entry := Entry(r.epoch, r.data);
        Caching(Gone(s, id), r.group, entry).(answers := s.answers + [entry])
    case Drop(id) => if id in s.pending then Gone(s, id) else s
    case Forget(group) =>
      match group
      case None => s.(groups := None)
      case Some(g) => s.(rosters := s.rosters - {g})
  }

  function Run(restored: Option<(Owner, string)>, events: seq<Event>): System {
    if |events| == 0 then Initial(restored)
    else Step(Run(restored, events[..|events| - 1]), events[|events| - 1])
  }

  // ---- What every step keeps ----

  /** A pending challenge means no client, no client means no socket, and the socket is the client's. */
  predicate Coherent(s: State) {
    && (s.challenge.Some? ==> s.client.None?)
    && (s.nim.Some? ==> s.nim == s.client)
    && (s.client.None? ==> s.nim.None? && s.account.None?)
  }

  lemma HandlersKeepCoherence(s: State, h: Handler)
    requires Coherent(s)
    ensures Coherent(Handling(s, h))
  {
    hide Limits.Kept;
  }

  /** Within an epoch a client may appear but never gives way to another. */
  lemma OneClientPerEpoch(s: State, h: Handler)
    requires Coherent(s)
    ensures var t := Handling(s, h);
      && (t.epoch == s.epoch || t.epoch == s.epoch + 1)
      && (t.epoch == s.epoch && s.client.Some? ==> t.client == s.client)
  {
    hide Limits.Kept;
  }

  ghost predicate OwnedBy(owners: map<nat, Owner>, epoch: nat, data: Data) {
    epoch in owners && owners[epoch] == data.owner
  }

  ghost predicate ReadOwned(s: System, r: Read) {
    match r
    case Reading(epoch, _, owner) => epoch in s.owners && s.owners[epoch] == owner
    case Fetched(epoch, _, data) => OwnedBy(s.owners, epoch, data)
    case _ => true
  }

  ghost predicate Tagged(s: System) {
    && Coherent(s.state)
    && (forall e :: e in s.owners ==> e <= s.state.epoch)
    && (s.state.epoch in s.owners <==> s.state.client.Some?)
    && (s.state.client.Some? ==> s.owners[s.state.epoch] == s.state.client.value)
    && (s.groups.Some? ==> OwnedBy(s.owners, s.groups.value.epoch, s.groups.value.data))
    && (forall g :: g in s.rosters ==> OwnedBy(s.owners, s.rosters[g].epoch, s.rosters[g].data))
    && (forall id :: id in s.pending ==> ReadOwned(s, s.pending[id]))
    && (forall i :: 0 <= i < |s.answers| ==> OwnedBy(s.owners, s.answers[i].epoch, s.answers[i].data))
    && |s.rosters| <= MAX_ROSTERS
  }

  lemma HandleKeeps(s: System, h: Handler)
    requires Tagged(s) && s.holder.None?
    ensures Tagged(Step(s, Handle(h)))
  {
    HandlersKeepCoherence(s.state, h);
    OneClientPerEpoch(s.state, h);
    StateMoves(s, Handling(s.state, h));
    hide Handling, Tagged, Coherent, Owning, Caching, Cached, Gone;
  }

  lemma StateMoves(s: System, state: State)
    requires Tagged(s) && Coherent(state) && (state.epoch == s.state.epoch || state.epoch == s.state.epoch + 1)
    requires state.epoch == s.state.epoch && s.state.client.Some? ==> state.client == s.state.client
    ensures Tagged(s.(state := state, owners := Owning(s.owners, state)))
  {
    var owners := Owning(s.owners, state);
    assert forall e :: e in s.owners ==> e in owners && owners[e] == s.owners[e];
    OwnersGrow(s, owners);
    SameReads(s.(owners := owners), s.(state := state, owners := owners));
    hide Coherent, OwnedBy, ReadOwned;
  }

  lemma OwnersGrow(s: System, owners: map<nat, Owner>)
    requires Tagged(s) && forall e :: e in s.owners ==> e in owners && owners[e] == s.owners[e]
    ensures var t := s.(owners := owners);
      && (s.groups.Some? ==> OwnedBy(owners, s.groups.value.epoch, s.groups.value.data))
      && (forall g :: g in s.rosters ==> OwnedBy(owners, s.rosters[g].epoch, s.rosters[g].data))
      && (forall id :: id in s.pending ==> ReadOwned(t, s.pending[id]))
      && (forall i :: 0 <= i < |s.answers| ==> OwnedBy(owners, s.answers[i].epoch, s.answers[i].data))
  {
  }

  lemma GoneKeeps(s: System, id: nat)
    requires Tagged(s)
    ensures Tagged(Gone(s, id))
  {
    hide Coherent;
  }

  lemma AnswerKeeps(s: System, entry: Entry)
    requires Tagged(s) && OwnedBy(s.owners, entry.epoch, entry.data)
    ensures Tagged(s.(answers := s.answers + [entry]))
  {
    hide Coherent;
  }

  lemma ReadMoves(s: System, id: nat, r: Read, holder: Option<nat>)
    requires Tagged(s) && ReadOwned(s, r)
    ensures Tagged(s.(pending := s.pending[id := r], holder := holder))
  {
    hide Coherent;
  }

  lemma RosterAdded(rosters: map<int, Entry>, g: int, entry: Entry)
    requires |rosters| < MAX_ROSTERS
    ensures |rosters[g := entry]| <= MAX_ROSTERS
  {
    var after := rosters[g := entry];
    assert after.Keys == rosters.Keys + {g};
    assert |after.Keys| == |after| && |rosters.Keys| == |rosters|;
  }

  lemma CachingKeeps(s: System, group: Option<int>, entry: Entry)
    requires Tagged(s) && OwnedBy(s.owners, entry.epoch, entry.data)
    ensures Tagged(Caching(s, group, entry))
  {
    hide Coherent, OwnedBy, ReadOwned;
    if group.Some? {
      var kept := if |s.rosters| >= MAX_ROSTERS then map[] else s.rosters;
      RosterAdded(kept, group.value, entry);
      SameReads(s, s.(rosters := kept[group.value := entry]));
    } else {
      SameReads(s, s.(groups := Some(entry)));
    }
  }

  lemma SameReads(s: System, t: System)
    requires t.owners == s.owners
    ensures forall r :: ReadOwned(s, r) == ReadOwned(t, r)
  {
  }

  lemma ForgetKeeps(s: System, group: Option<int>)
    requires Tagged(s)
    ensures Tagged(Step(s, Forget(group)))
  {
    hide Tagged, Handling, Caching, Cached, Gone, Owning;
    if group.Some? {
      OneRosterLess(s.rosters, group.value);
      FewerRosters(s, s.rosters - {group.value});
    } else {
      NoGroups(s);
    }
  }

  lemma NoGroups(s: System)
    requires Tagged(s)
    ensures Tagged(s.(groups := None))
  {
    hide Coherent, OwnedBy;
  }

  lemma FewerRosters(s: System, rosters: map<int, Entry>)
    requires Tagged(s) && |rosters| <= |s.rosters|
    requires forall g :: g in rosters ==> g in s.rosters && rosters[g] == s.rosters[g]
    ensures Tagged(s.(rosters := rosters))
  {
    hide Coherent, OwnedBy;
  }

  lemma OneRosterLess(rosters: map<int, Entry>, g: int)
    ensures |rosters - {g}| <= |rosters|
    ensures forall k :: k in rosters - {g} ==> k in rosters && (rosters - {g})[k] == rosters[k]
  {
    var after := rosters - {g};
    assert after.Keys == rosters.Keys - {g};
    assert |after.Keys| == |after| && |rosters.Keys| == |rosters|;
  }

  lemma ReadStepKeeps(s: System, e: Event)
    requires Tagged(s) && (e.LookUp? || e.Lock? || e.Answer? || e.Store?) && e.id in s.pending
    ensures Tagged(Step(s, e))
  {
    var r := s.pending[e.id];
    assert ReadOwned(s, r);
    GoneKeeps(s, e.id);
    match e {
      case LookUp(id, _) =>
        if r.Loaded? {
          var entry := Cached(s, r.group);
          if entry.Some? && entry.value.epoch == r.epoch {
            AnswerKeeps(Gone(s, id), Entry(r.epoch, entry.value.data));
          }
          ReadMoves(s, id, Missed(r.epoch, r.group), s.holder);
        }
      case Lock(id) =>
        if r.Missed? && s.state.epoch == r.epoch && s.state.client.Some? {
          ReadMoves(s, id, Reading(r.epoch, r.group, s.state.client.value), Some(id));
        }
      case Answer(id, content) =>
        if r.Reading? && content.Some? {
          var holder := if r.group.None? then s.holder else if s.holder == Some(id) then None else s.holder;
          ReadMoves(s, id, Fetched(r.epoch, r.group, Data(r.owner, content.value)), holder);
        }
      case Store(id) =>
        if r.Fetched? {
          CachingKeeps(Gone(s, id), r.group, Entry(r.epoch, r.data));
          AnswerKeeps(Caching(Gone(s, id), r.group, Entry(r.epoch, r.data)), Entry(r.epoch, r.data));
        }
    }
  }

  lemma StepKeeps(s: System, e: Event)
    requires Tagged(s)
    ensures Tagged(Step(s, e))
  {
    hide Tagged, Caching, Handling, Owning;
    match e {
      case Handle(h) => if s.holder.None? { HandleKeeps(s, h); }
      case Begin(id, group) =>
        if id !in s.pending { ReadMoves(s, id, Loaded(s.state.epoch, group), s.holder); }
      case Drop(id) => if id in s.pending { GoneKeeps(s, id); }
      case Forget(group) => ForgetKeeps(s, group);
      case LookUp(id, _) => if id in s.pending { ReadStepKeeps(s, e); }
      case Lock(id) => if id in s.pending { ReadStepKeeps(s, e); }
      case Answer(id, _) => if id in s.pending { ReadStepKeeps(s, e); }
      case Store(id) => if id in s.pending { ReadStepKeeps(s, e); }
    }
  }

  lemma {:induction false} RunKeeps(restored: Option<(Owner, string)>, events: seq<Event>)
    ensures Tagged(Run(restored, events))
  {
    if |events| > 0 {
      hide Tagged, Step;
      RunKeeps(restored, events[..|events| - 1]);
      StepKeeps(Run(restored, events[..|events| - 1]), events[|events| - 1]);
    }
  }

  // ---- What holds of every run ----

  /** In every run a pending challenge means no client, a socket is the client's, and without a client there is
      neither socket nor identity. */
  lemma SessionIsCoherent(restored: Option<(Owner, string)>, events: seq<Event>)
    ensures var s := Run(restored, events).state;
      && (s.challenge.Some? ==> s.client.None?)
      && (s.nim.Some? ==> s.nim == s.client)
      && (s.client.None? ==> s.nim.None? && s.account.None?)
  {
    RunKeeps(restored, events);
  }

  lemma StepKeepsOwners(s: System, e: Event, epoch: nat)
    requires Tagged(s) && epoch in s.owners
    ensures epoch in Step(s, e).owners && Step(s, e).owners[epoch] == s.owners[epoch]
  {
    if e.Handle? {
      OneClientPerEpoch(s.state, e.handler);
      hide Handling, Coherent, Caching, ReadOwned, OwnedBy;
    } else {
      OtherStepsKeepOwners(s, e);
    }
  }

  lemma OtherStepsKeepOwners(s: System, e: Event)
    requires !e.Handle?
    ensures Step(s, e).owners == s.owners
  {
    hide Handling, Owning, Cached;
    match e {
      case Store(id) => if id in s.pending { CachingKeepsOwners(Gone(s, id), s.pending[id].group); }
      case _ => hide Caching;
    }
  }

  lemma CachingKeepsOwners(s: System, group: Option<int>)
    ensures forall entry :: Caching(s, group, entry).owners == s.owners
  {
  }

  lemma {:induction false} OwnersStay(
    restored: Option<(Owner, string)>, events: seq<Event>, more: seq<Event>, epoch: nat)
    requires epoch in Run(restored, events).owners
    ensures epoch in Run(restored, events + more).owners
    ensures Run(restored, events + more).owners[epoch] == Run(restored, events).owners[epoch]
    decreases |more|
  {
    if |more| == 0 {
      assert events + more == events;
    } else {
      var front := more[..|more| - 1];
      assert (events + more)[..|events + more| - 1] == events + front;
      OwnersStay(restored, events, front, epoch);
      RunKeeps(restored, events + front);
      hide Step, Tagged;
      StepKeepsOwners(Run(restored, events + front), (events + more)[|events + more| - 1], epoch);
    }
  }

  /** An epoch sees at most one account: any two moments of one epoch at which someone is logged in show the same. */
  lemma OneAccountPerEpoch(restored: Option<(Owner, string)>, events: seq<Event>, more: seq<Event>)
    requires var s, t := Run(restored, events).state, Run(restored, events + more).state;
      s.client.Some? && t.client.Some? && s.epoch == t.epoch
    ensures Run(restored, events).state.client == Run(restored, events + more).state.client
  {
    RunKeeps(restored, events);
    RunKeeps(restored, events + more);
    OwnersStay(restored, events, more, Run(restored, events).state.epoch);
  }

  /** No read ever answers with another account's data: an answer to a read begun in the epoch now current was
      read with the client logged in now. */
  lemma AnswersAreOwn(restored: Option<(Owner, string)>, events: seq<Event>, i: nat)
    requires i < |Run(restored, events).answers|
    ensures var s := Run(restored, events);
      s.answers[i].epoch == s.state.epoch ==> s.state.client == Some(s.answers[i].data.owner)
  {
    RunKeeps(restored, events);
    var s := Run(restored, events);
    assert OwnedBy(s.owners, s.answers[i].epoch, s.answers[i].data);
  }

  /** Two answers to reads begun in one epoch come from one account, whenever they were given. */
  lemma AnswersAgree(restored: Option<(Owner, string)>, events: seq<Event>, i: nat, j: nat)
    requires i < |Run(restored, events).answers| && j < |Run(restored, events).answers|
    requires Run(restored, events).answers[i].epoch == Run(restored, events).answers[j].epoch
    ensures Run(restored, events).answers[i].data.owner == Run(restored, events).answers[j].data.owner
  {
    RunKeeps(restored, events);
    var s := Run(restored, events);
    assert OwnedBy(s.owners, s.answers[i].epoch, s.answers[i].data);
    assert OwnedBy(s.owners, s.answers[j].epoch, s.answers[j].data);
  }

  lemma RosterCacheIsBounded(restored: Option<(Owner, string)>, events: seq<Event>)
    ensures |Run(restored, events).rosters| <= MAX_ROSTERS
  {
    RunKeeps(restored, events);
  }

  // ---- What each handler comes to ----

  /** A password login is turned away behind five attempts in a minute, and stops at a vault that cannot be written.
      Otherwise a new epoch begins, in which exactly an accepted login whose groups can be read and which can be saved
      logs its account in, with a socket exactly if one connects under its NIM identity; and exactly a demand for
      device verification leaves a challenge. */
  lemma LoginExactly(s: State, now: Seconds, ready: bool, configured: bool, answer: LoginAnswer)
    ensures var t, recent := LoggingIn(s, now, ready, configured, answer), Limits.Kept(s.attempts, now);
      && (|recent| >= 5 ==> t == s.(attempts := recent))
      && (|recent| < 5 && !ready ==> t == s.(attempts := recent + [now]))
      && (|recent| < 5 && ready ==>
            var read := configured && answer.LoginAccepted? && answer.accepted.groups.Fine?;
            var accepted := read && answer.accepted.saved;
            && t.attempts == recent + [now] && t.epoch == s.epoch + 1
            && t.client == (if accepted then Some(answer.accepted.owner) else None)
            && t.account == (if accepted then answer.accepted.nimId else None)
            && t.nim == (if accepted && answer.accepted.nim.Connected? && answer.accepted.nimId.Some?
                         then Some(answer.accepted.owner) else None)
            && t.challenge == (if configured && answer.NeedsDevice? && answer.device.DeviceChallenge?
                               then Some(answer.device.challenge) else None))
  {
    hide Limits.Kept;
  }

  /** An SMS is asked for only while nobody is logged in, no challenge waits out its minute and nothing was attempted
      for a minute; the challenge is then what was sent, or none. */
  lemma SmsExactly(s: State, now: Seconds, configured: bool, answer: Sms)
    ensures var t, recent := StartingSms(s, now, configured, answer), Limits.Kept(s.attempts, now);
      if s.client.Some? || (s.challenge.Some? && s.challenge.value.resendAt > now) then t == s
      else if recent != [] then t == s.(attempts := [] + recent)
      else t == s.(attempts := [now],
                   challenge := if configured && answer.SmsSent? then Some(answer.challenge) else None)
  {
    var recent := Limits.Kept(s.attempts, now);
    hide Limits.Kept;
    assert [] + recent == recent;
    assert recent == [] ==> recent + [now] == [now];
  }

  /** A challenge is sent again only by its id, before it expires, a minute after it was last sent and behind fewer
      than five attempts in a minute; an expired one is forgotten. */
  lemma ResendExactly(s: State, id: string, now: Seconds, configured: bool)
    ensures var t, recent := Resending(s, id, now, configured), Limits.Kept(s.attempts, now);
      if s.challenge.None? || s.challenge.value.id != id then t == s
      else if s.challenge.value.expires <= now then t == s.(challenge := None)
      else if s.challenge.value.resendAt > now then t == s
      else if |recent| >= 5 then t == s.(attempts := recent)
      else
        && t.attempts == recent + [now] && t.client == s.client && t.nim == s.nim && t.account == s.account
        && t.epoch == s.epoch
        && t.challenge == Some(Challenge(id, s.challenge.value.expires,
                                         if configured then now + 60_000_000_000 else s.challenge.value.resendAt))
  {
    hide Limits.Kept;
  }

  /** A challenge answered in time logs its account in within the epoch, on the same terms as a password; refused, it
      stays to be answered again, unless the account could not be saved. */
  lemma VerifyExactly(s: State, id: string, now: Seconds, configured: bool, answer: LoginAnswer)
    requires Coherent(s)
    ensures var t, recent := Verifying(s, id, now, configured, answer), Limits.Kept(s.attempts, now);
      if s.challenge.None? || s.challenge.value.id != id then t == s
      else if s.challenge.value.expires <= now then t == s.(challenge := None)
      else if |recent| >= 5 then t == s.(attempts := recent)
      else
        var read := configured && answer.LoginAccepted? && answer.accepted.groups.Fine?;
        var accepted := read && answer.accepted.saved;
        && t.attempts == recent + [now] && t.epoch == s.epoch && t.challenge == (if read then None else s.challenge)
        && t.client == (if accepted then Some(answer.accepted.owner) else None)
        && t.account == (if accepted then answer.accepted.nimId else None)
        && t.nim == (if accepted && answer.accepted.nim.Connected? && answer.accepted.nimId.Some?
                     then Some(answer.accepted.owner) else None)
  {
    hide Limits.Kept;
  }

  /** Renewing keeps the account and replaces its socket, or ends an expired session with its epoch; logging out ends
      the epoch with everything in it, unless the vault cannot be cleared. */
  lemma EndsExactly(s: State, refresh: Refresh, ready: bool)
    requires Coherent(s)
    ensures var t := Renewing(s, refresh);
      if s.client.None? then t == s
      else if refresh.Expired? then t == State(s.challenge, None, None, None, s.epoch + 1, s.attempts)
      else if refresh.Refreshed? then
        t == s.(nim := if refresh.nim.Connected? && s.account.Some? then s.client else None)
      else t == s
    ensures LoggingOut(s, ready) == if ready then State(None, None, None, None, s.epoch + 1, s.attempts) else s
  {
  }

  // ---- What a read comes to ----

  lemma OneByOne(restored: Option<(Owner, string)>, front: seq<Event>, e: Event, all: seq<Event>)
    requires all == front + [e]
    ensures Run(restored, all) == Step(Run(restored, front), e)
  {
    assert all[..|all| - 1] == front;
  }

  /** From any moment of any run at which an account is logged in and the session lock is free, a read nobody disturbs
      is answered with what that account's client read, which is then cached; and the next read of the same, while it
      is recent, is answered with it and without asking. */
  lemma UndisturbedRead(restored: Option<(Owner, string)>, events: seq<Event>, id: nat, group: Option<int>,
                        content: string)
    requires var s := Run(restored, events);
      id !in s.pending && s.holder.None? && s.state.client.Some? && s.state.account.Some?
    ensures var first := [Begin(id, group), LookUp(id, false), Lock(id), Answer(id, Some(content)), Store(id)];
      var s := Run(restored, events);
      var t, u := Run(restored, events + first), Run(restored, events + first + [Begin(id, group), LookUp(id, true)]);
      var entry := Entry(s.state.epoch, Data(s.state.client.value, content));
      && t.state == s.state && t.holder == None && t.pending == s.pending && t.answers == s.answers + [entry]
      && (if group.None? then t.groups == Some(entry) else group.value in t.rosters && t.rosters[group.value] == entry)
      && u == t.(answers := t.answers + [entry])
  {
    var first := [Begin(id, group), LookUp(id, false), Lock(id), Answer(id, Some(content)), Store(id)];
    var s := Run(restored, events);
    var one, two, three, four := events + first[..1], events + first[..2], events + first[..3], events + first[..4];
    var five := events + first;
    OneByOne(restored, events, first[0], one);
    OneByOne(restored, one, first[1], two);
    OneByOne(restored, two, first[2], three);
    OneByOne(restored, three, first[3], four);
    OneByOne(restored, four, first[4], five);
    OneByOne(restored, five, Begin(id, group), five + [Begin(id, group)]);
    assert five + [Begin(id, group), LookUp(id, true)] == five + [Begin(id, group)] + [LookUp(id, true)];
    OneByOne(restored, five + [Begin(id, group)], LookUp(id, true), five + [Begin(id, group), LookUp(id, true)]);
    var t := ReadSteps(s, id, group, content);
    CachedSteps(t, id, group, Entry(s.state.epoch, Data(s.state.client.value, content)));
  }

  lemma ReadSteps(s: System, id: nat, group: Option<int>, content: string) returns (t: System)
    requires id !in s.pending && s.holder.None? && s.state.client.Some? && s.state.account.Some?
    ensures var asked := Step(Step(Step(s, Begin(id, group)), LookUp(id, false)), Lock(id));
      t == Step(Step(asked, Answer(id, Some(content))), Store(id))
    ensures var entry := Entry(s.state.epoch, Data(s.state.client.value, content));
      && t.state == s.state && t.holder == None && t.pending == s.pending && t.answers == s.answers + [entry]
      && (if group.None? then t.groups == Some(entry) else group.value in t.rosters && t.rosters[group.value] == entry)
  {
    var epoch, owner := s.state.epoch, s.state.client.value;
    var s3 := AskSteps(s, id, group);
    var s4 := Step(s3, Answer(id, Some(content)));
    assert s4 == s3.(pending := s.pending[id := Fetched(epoch, group, Data(owner, content))], holder := s4.holder) by {
      hide Handling, Caching, Cached, Gone;
    }
    assert s4.holder == if group.None? then Some(id) else None;
    t := Step(s4, Store(id));
    StoreLast(s4, id, group, Entry(epoch, Data(owner, content)));
    assert s4.pending - {id} == s.pending;
    hide Step;
  }

  lemma AskSteps(s: System, id: nat, group: Option<int>) returns (t: System)
    requires id !in s.pending && s.holder.None? && s.state.client.Some? && s.state.account.Some?
    ensures t == Step(Step(Step(s, Begin(id, group)), LookUp(id, false)), Lock(id))
    ensures t == s.(pending := s.pending[id := Reading(s.state.epoch, group, s.state.client.value)], holder := Some(id))
  {
    hide Handling, Caching, Cached, Gone;
    var one := Step(s, Begin(id, group));
    var two := Step(one, LookUp(id, false));
    assert two == s.(pending := s.pending[id := Missed(s.state.epoch, group)]);
    t := Step(two, Lock(id));
  }

  lemma StoreLast(s: System, id: nat, group: Option<int>, entry: Entry)
    requires id in s.pending && s.pending[id] == Fetched(entry.epoch, group, entry.data)
    ensures var t := Step(s, Store(id));
      && t.state == s.state && t.holder == (if s.holder == Some(id) then None else s.holder)
      && t.pending == s.pending - {id} && t.answers == s.answers + [entry]
      && (if group.None? then t.groups == Some(entry) else group.value in t.rosters && t.rosters[group.value] == entry)
  {
    hide Handling, Cached;
  }

  lemma CachedSteps(t: System, id: nat, group: Option<int>, entry: Entry)
    requires id !in t.pending && t.holder == None && entry.epoch == t.state.epoch && Cached(t, group) == Some(entry)
    ensures Step(Step(t, Begin(id, group)), LookUp(id, true)) == t.(answers := t.answers + [entry])
  {
    var one := Step(t, Begin(id, group));
    assert one.pending - {id} == t.pending;
  }

  /** What is to be forgotten is not in the cache any more, and all else is; a socket that failed is let go and the
      account stays. */
  lemma ForgetsExactly(restored: Option<(Owner, string)>, events: seq<Event>, group: Option<int>)
    ensures var s, t := Run(restored, events), Run(restored, events + [Forget(group)]);
      && t.state == s.state && t.answers == s.answers && t.pending == s.pending
      && t.groups == (if group.None? then None else s.groups)
      && (forall g :: g in t.rosters <==> g in s.rosters && group != Some(g))
      && (forall g :: g in t.rosters ==> t.rosters[g] == s.rosters[g])
    ensures var s, t := Run(restored, events), Run(restored, events + [Handle(CloseNim)]);
      s.holder.None? ==> t.state == s.state.(nim := None)
  {
    assert (events + [Forget(group)])[..|events|] == events;
    assert (events + [Handle(CloseNim)])[..|events|] == events;
  }
}
