/** The administrator's row and one-time codes: password checks with their lock-out, and credential changes. */
module AdminAccount {
  import opened Bytes

  /** Wall-clock seconds since the epoch; nothing here needs the clock to move forward. */
  type Seconds = nat

  datatype Kind = Activate | Migrate | Reset | Credentials

  datatype Status = Unauthorized | Forbidden | Conflict | TooManyRequests

  datatype Row = Row(username: string, hash: string, failures: u32, blocked: Seconds)

  datatype Code = Code(kind: Kind, digest: string, expires: Seconds)

  datatype Db = Db(row: Option<Row>, activation: Option<Code>)

  type Verify = (string, string) -> bool

  const CODE_SECONDS: nat := 1800
  const U32_MAX: nat := 0xffff_ffff

  function Lower(s: string): string {
    seq(|s|, i requires 0 <= i < |s| => if 'A' <= s[i] <= 'Z' then s[i] - 'A' + 'a' else s[i])
  }

  function Min(a: nat, b: nat): nat {
    if a < b then a else b
  }

  function Doubled(n: nat, times: nat): nat {
    if times == 0 then n else 2 * Doubled(n, times - 1)
  }

  /** Nothing for the first four failures, then half a minute doubling up to a quarter of an hour. */
  function Delay(failures: nat): nat {
    if failures < 5 then 0 else Min(Doubled(30, Min(failures - 5, 5)), 900)
  }

  /** `at` is the clock when the block is tested and `stored` when the outcome is written, after hashing. */
  function Checking(verify: Verify, dummy: string, db: Db, name: string, pass: string, at: Seconds, stored: Seconds):
    (Db, Result<bool, Status>)
  {
    if db.row.None? then (db, Ok(false))
    else
      var row := db.row.value;
      if row.blocked > at then (db, Err(TooManyRequests))
      else
        var matched := row.username == Lower(name);
        if verify(pass, if matched then row.hash else dummy) && matched then
          (db.(row := Some(row.(failures := 0, blocked := 0))), Ok(true))
        else if matched then
          var f := Min(row.failures + 1, U32_MAX);
          (db.(row := Some(row.(failures := f, blocked := stored + Delay(f)))), Ok(false))
        else (db, Ok(false))
  }

  predicate TakesCode(kind: Kind) {
    kind.Reset? || kind.Activate?
  }

  /** The transaction at the end of a change, rolled back on any refusal. */
  function Changing(verify: Verify, db: Db, kind: Kind, user: string, hash: string, digest: string, current: string,
                    at: Seconds): (Db, Result<(), Status>)
  {
    if kind.Credentials? && db.row.None? then (db, Err(Forbidden))
    else if kind.Credentials? && !verify(current, db.row.value.hash) then (db, Err(Unauthorized))
    else if (kind.Activate? || kind.Migrate?) && db.row.Some? then (db, Err(Conflict))
    else if (kind.Reset? || kind.Credentials?) && db.row.None? then (db, Err(Conflict))
    else if TakesCode(kind) && !Usable(db.activation, kind, digest, at) then (db, Err(Unauthorized))
    else (Db(Some(Row(user, hash, 0, 0)), None), Ok(()))
  }

  predicate Usable(activation: Option<Code>, kind: Kind, digest: string, at: Seconds) {
    && activation.Some? && activation.value.kind == kind && activation.value.digest == digest
    && activation.value.expires > at
  }

  function Written(db: Db, kind: Kind, digest: string, at: Seconds): Db {
    db.(activation := Some(Code(kind, digest, at + CODE_SECONDS)))
  }

  class Admin {
    const verify: Verify
    const dummy: string
    var row: Option<Row>
    var activation: Option<Code>

    ghost function View(): Db
      reads this
    {
      Db(row, activation)
    }

    constructor (verify: Verify, dummy: string)
      ensures View() == Db(None, None) && this.verify == verify && this.dummy == dummy
    {
      this.verify := verify;
      this.dummy := dummy;
      row, activation := None, None;
    }

    method Issue(reset: bool, digest: string, at: Seconds) returns (ok: bool)
      modifies this
      ensures ok == (reset == old(View()).row.Some?)
      ensures View() == if ok then Written(old(View()), if reset then Reset else Activate, digest, at) else old(View())
    {
      if reset != row.Some? {
        return false;
      }
      activation := Some(Code(if reset then Reset else Activate, digest, at + CODE_SECONDS));
      ok := true;
    }

    method Check(name: string, pass: string, at: Seconds, stored: Seconds) returns (r: Result<bool, Status>)
      modifies this
      ensures (View(), r) == Checking(verify, dummy, old(View()), name, pass, at, stored)
    {
      if row.None? {
        return Ok(false);
      }
      if row.value.blocked > at {
        return Err(TooManyRequests);
      }
      var matched := row.value.username == Lower(name);
      var valid := verify(pass, if matched then row.value.hash else dummy) && matched;
      if valid {
        row := Some(row.value.(failures := 0, blocked := 0));
      } else if matched {
        var f: u32 := if row.value.failures == U32_MAX then U32_MAX else row.value.failures + 1;
        var delay := if f < 5 then 0 else Min(Doubled(30, Min(f - 5, 5)), 900);
        row := Some(row.value.(failures := f, blocked := stored + delay));
      }
      r := Ok(valid);
    }

    method Change(kind: Kind, user: string, hash: string, digest: string, current: string, at: Seconds)
      returns (r: Result<(), Status>)
      modifies this
      ensures (View(), r) == Changing(verify, old(View()), kind, user, hash, digest, current, at)
    {
      if kind.Credentials? {
        if row.None? {
          return Err(Forbidden);
        }
        if !verify(current, row.value.hash) {
          return Err(Unauthorized);
        }
      }
      if (kind.Activate? || kind.Migrate?) && row.Some? {
        return Err(Conflict);
      }
      if (kind.Reset? || kind.Credentials?) && row.None? {
        return Err(Conflict);
      }
      if kind.Reset? || kind.Activate? {
        if activation.None? || activation.value.kind != kind || activation.value.digest != digest
           || activation.value.expires <= at {
          return Err(Unauthorized);
        }
      }
      row := Some(Row(user, hash, 0, 0));
      activation := None;
      r := Ok(());
    }
  }

  // ---- Any mix of checks, changes and new codes ----

  datatype Event =
    | Check(name: string, pass: string, at: Seconds, stored: Seconds)
    | Change(kind: Kind, user: string, hash: string, digest: string, current: string, at: Seconds)
    | Write(kind: Kind, digest: string, at: Seconds)

  datatype Failure = Failure(at: Seconds, stored: Seconds)

  datatype Done =
    | Issued(kind: Kind, digest: string, at: Seconds)
    | Accepted(kind: Kind, digest: string, user: string, hash: string)
    | Other

  /** `counted` holds the failures counted since the row was last reset, `log` what each event did. */
  datatype System = System(db: Db, counted: seq<Failure>, log: seq<Done>)

  function Initial(): System {
    System(Db(None, None), [], [])
  }

  function CheckStep(verify: Verify, dummy: string, s: System, e: Event): System
    requires e.Check?
  {
    var (db, r) := Checking(verify, dummy, s.db, e.name, e.pass, e.at, e.stored);
    var counted :=
      if r == Ok(true) then []
      else if r == Ok(false) && s.db.row.Some? && s.db.row.value.username == Lower(e.name) then
        s.counted + [Failure(e.at, e.stored)]
      else s.counted;
    System(db, counted, s.log + [Other])
  }

  function Step(verify: Verify, dummy: string, s: System, e: Event): System {
    match e
    case Check(_, _, _, _) => CheckStep(verify, dummy, s, e)
    case Change(kind, user, hash, digest, current, at) =>
      var (db, r) := Changing(verify, s.db, kind, user, hash, digest, current, at);
      if r.Ok? then System(db, [], s.log + [Accepted(kind, digest, user, hash)]) else s.(log := s.log + [Other])
    case Write(kind, digest, at) => s.(db := Written(s.db, kind, digest, at), log := s.log + [Issued(kind, digest, at)])
  }

  function Run(verify: Verify, dummy: string, events: seq<Event>): System {
    if |events| == 0 then Initial()
    else Step(verify, dummy, Run(verify, dummy, events[..|events| - 1]), events[|events| - 1])
  }

  // ---- The lock-out ----

  /** The clock does not go back while one password is being hashed. */
  predicate Timed(e: Event) {
    e.Check? ==> e.at <= e.stored
  }

  ghost predicate Spread(counted: seq<Failure>) {
    && (forall i :: 0 <= i < |counted| ==> counted[i].at <= counted[i].stored)
    && (forall i :: 0 < i < |counted| ==> counted[i].at >= counted[i - 1].stored + Delay(i))
  }

  ghost predicate Locked(s: System) {
    && Spread(s.counted)
    && (s.db.row.None? ==> s.counted == [])
    && (s.db.row.Some? ==>
          && s.db.row.value.failures == Min(|s.counted|, U32_MAX)
          && s.db.row.value.blocked ==
               if s.counted == [] then 0 else s.counted[|s.counted| - 1].stored + Delay(|s.counted|))
  }

  lemma DelayTable()
    ensures Delay(5) == 30 && Delay(6) == 60 && Delay(7) == 120 && Delay(8) == 240 && Delay(9) == 480
    ensures forall n :: n >= 10 ==> Delay(n) == 900
    ensures forall n :: Delay(n) <= 900
    ensures forall n :: n < 5 ==> Delay(n) == 0
  {
    assert Doubled(30, 0) == 30;
    assert Doubled(30, 1) == 60;
    assert Doubled(30, 2) == 120;
    assert Doubled(30, 3) == 240;
    assert Doubled(30, 4) == 480;
    assert Doubled(30, 5) == 960;
  }

  lemma FailureSpreads(counted: seq<Failure>, f: Failure)
    requires Spread(counted) && f.at <= f.stored
    requires counted != [] ==> f.at >= counted[|counted| - 1].stored + Delay(|counted|)
    ensures Spread(counted + [f])
  {
    hide Delay;
  }

  lemma Saturates(n: nat)
    ensures Min(Min(n, U32_MAX) + 1, U32_MAX) == Min(n + 1, U32_MAX)
    ensures Delay(Min(n, U32_MAX)) == Delay(n)
  {
    DelayTable();
    hide Doubled;
  }

  lemma CheckLocks(verify: Verify, dummy: string, s: System, e: Event)
    requires Locked(s) && Timed(e) && e.Check?
    ensures Locked(CheckStep(verify, dummy, s, e))
  {
    hide Spread, Lower, Delay;
    Saturates(|s.counted| + 1);
    Saturates(|s.counted|);
    if s.db.row.Some? && s.db.row.value.blocked <= e.at {
      FailureSpreads(s.counted, Failure(e.at, e.stored));
    }
    NothingSpread();
  }

  lemma NothingSpread()
    ensures Spread([])
  {
  }

  lemma StepLocks(verify: Verify, dummy: string, s: System, e: Event)
    requires Locked(s) && Timed(e)
    ensures Locked(Step(verify, dummy, s, e))
  {
    hide Lower, Delay, Checking, CheckStep, Usable;
    if e.Check? {
      CheckLocks(verify, dummy, s, e);
    }
  }

  lemma {:induction false} RunLocks(verify: Verify, dummy: string, events: seq<Event>)
    requires forall e :: e in events ==> Timed(e)
    ensures Locked(Run(verify, dummy, events))
  {
    if |events| > 0 {
      hide Locked, Step, Timed;
      RunLocks(verify, dummy, events[..|events| - 1]);
      StepLocks(verify, dummy, Run(verify, dummy, events[..|events| - 1]), events[|events| - 1]);
    }
  }

  lemma {:induction false} SpreadOut(counted: seq<Failure>, k: nat)
    requires Spread(counted) && 10 <= k <= |counted|
    ensures counted[k - 1].at >= counted[4].at + 930 + 900 * (k - 10)
  {
    DelayTable();
    hide Delay;
    if k == 10 {
      assert counted[5].at >= counted[4].at + 30;
      assert counted[6].at >= counted[5].at + 60;
      assert counted[7].at >= counted[6].at + 120;
      assert counted[8].at >= counted[7].at + 240;
      assert counted[9].at >= counted[8].at + 480;
    } else {
      SpreadOut(counted, k - 1);
      assert counted[k - 1].at >= counted[k - 2].stored + Delay(k - 1);
    }
  }

  /** Without a success or a change in between, the k-th counted failure comes at least 930 + 900 (k - 10)
      seconds after the fifth, however the clock moves between checks. */
  lemma GuessesAreSlow(verify: Verify, dummy: string, events: seq<Event>, k: nat)
    requires forall e :: e in events ==> Timed(e)
    requires 10 <= k <= |Run(verify, dummy, events).counted|
    ensures var counted := Run(verify, dummy, events).counted;
      counted[k - 1].at >= counted[4].at + 930 + 900 * (k - 10)
  {
    RunLocks(verify, dummy, events);
    SpreadOut(Run(verify, dummy, events).counted, k);
  }

  /** A check is refused for being early exactly while the delay since the last counted failure runs, which is
      never more than a quarter of an hour. */
  lemma RefusedWhileDelayed(verify: Verify, dummy: string, events: seq<Event>, name: string, pass: string, at: Seconds,
                            stored: Seconds)
    requires forall e :: e in events ==> Timed(e)
    ensures var s := Run(verify, dummy, events);
      Checking(verify, dummy, s.db, name, pass, at, stored).1 == Err(TooManyRequests) <==>
        s.counted != [] && at < s.counted[|s.counted| - 1].stored + Delay(|s.counted|)
    ensures Delay(|Run(verify, dummy, events).counted|) <= 900
  {
    RunLocks(verify, dummy, events);
    DelayTable();
    hide Delay, Lower, Spread;
  }

  // ---- One-time codes ----

  /** The event at `i` issued the code, and nothing since issued another or changed the credentials. */
  ghost predicate LastIssued(log: seq<Done>, i: nat, kind: Kind, digest: string, at: Seconds) {
    && i < |log| && log[i] == Issued(kind, digest, at)
    && forall j :: i < j < |log| ==> log[j].Other?
  }

  ghost predicate Valid(log: seq<Done>, kind: Kind, digest: string, now: Seconds) {
    exists i: nat, at: Seconds :: LastIssued(log, i, kind, digest, at) && now < at + CODE_SECONDS
  }

  ghost predicate EverAccepted(log: seq<Done>) {
    exists i :: 0 <= i < |log| && log[i].Accepted?
  }

  /** The stored code is the last one issued, if no change was accepted since. */
  ghost predicate CodeIs(log: seq<Done>, activation: Option<Code>) {
    match activation
    case Some(code) =>
      exists i: nat, at: Seconds :: LastIssued(log, i, code.kind, code.digest, at) && code.expires == at + CODE_SECONDS
    case None => forall i: nat, kind, digest, at: Seconds :: !LastIssued(log, i, kind, digest, at)
  }

  /** The change at `i` was accepted and no other since. */
  ghost predicate LatestChange(log: seq<Done>, i: nat, user: string, hash: string) {
    && i < |log| && log[i].Accepted? && log[i].user == user && log[i].hash == hash
    && forall j :: i < j < |log| ==> !log[j].Accepted?
  }

  /** The credentials are those of the latest accepted change. */
  ghost predicate InForce(log: seq<Done>, user: string, hash: string) {
    exists i: nat :: LatestChange(log, i, user, hash)
  }

  ghost predicate Mirrors(s: System) {
    && CodeIs(s.log, s.db.activation) && (s.db.row.Some? <==> EverAccepted(s.log))
    && (s.db.row.Some? ==> InForce(s.log, s.db.row.value.username, s.db.row.value.hash))
  }

  lemma InForceKeeps(log: seq<Done>, d: Done, user: string, hash: string)
    ensures !d.Accepted? && InForce(log, user, hash) ==> InForce(log + [d], user, hash)
    ensures d.Accepted? ==> InForce(log + [d], d.user, d.hash)
  {
    var after := log + [d];
    if d.Accepted? {
      assert LatestChange(after, |log|, d.user, d.hash);
    } else if InForce(log, user, hash) {
      var i: nat :| LatestChange(log, i, user, hash);
      assert LatestChange(after, i, user, hash);
    }
  }

  lemma InForceOnce(log: seq<Done>, user: string, hash: string, other: string, otherHash: string)
    requires InForce(log, user, hash) && InForce(log, other, otherHash)
    ensures user == other && hash == otherHash && EverAccepted(log)
  {
    var i: nat :| LatestChange(log, i, user, hash);
    var j: nat :| LatestChange(log, j, other, otherHash);
    assert log[i].Accepted? && log[j].Accepted?;
  }

  lemma OtherKeeps(log: seq<Done>, activation: Option<Code>)
    requires CodeIs(log, activation)
    ensures CodeIs(log + [Other], activation)
    ensures EverAccepted(log + [Other]) == EverAccepted(log)
  {
    forall i: nat, kind: Kind, digest: string, at: Seconds
      ensures LastIssued(log + [Other], i, kind, digest, at) == LastIssued(log, i, kind, digest, at)
    {
      if LastIssued(log + [Other], i, kind, digest, at) {
        assert forall j :: i < j < |log| ==> log[j] == (log + [Other])[j];
      }
    }
    assert forall i :: 0 <= i < |log| ==> (log + [Other])[i] == log[i];
  }

  lemma IssuedKeeps(log: seq<Done>, kind: Kind, digest: string, at: Seconds)
    ensures CodeIs(log + [Issued(kind, digest, at)], Some(Code(kind, digest, at + CODE_SECONDS)))
    ensures EverAccepted(log + [Issued(kind, digest, at)]) == EverAccepted(log)
  {
    var after := log + [Issued(kind, digest, at)];
    assert LastIssued(after, |log|, kind, digest, at);
    assert forall i :: 0 <= i < |log| ==> after[i] == log[i];
  }

  lemma AcceptedKeeps(log: seq<Done>, d: Done)
    requires d.Accepted?
    ensures CodeIs(log + [d], None) && EverAccepted(log + [d])
  {
    var after := log + [d];
    assert after[|log|].Accepted?;
    assert forall i: nat, k, d, at: Seconds :: !LastIssued(after, i, k, d, at);
  }

  lemma StepMirrors(verify: Verify, dummy: string, s: System, e: Event)
    requires Mirrors(s)
    ensures Mirrors(Step(verify, dummy, s, e))
  {
    OtherKeeps(s.log, s.db.activation);
    var (user, hash) := if s.db.row.Some? then (s.db.row.value.username, s.db.row.value.hash) else ("", "");
    hide CodeIs, EverAccepted, InForce, Lower, Delay;
    match e {
      case Check(_, _, _, _) => InForceKeeps(s.log, Other, user, hash);
      case Change(kind, newUser, newHash, digest, _, _) =>
        AcceptedKeeps(s.log, Accepted(kind, digest, newUser, newHash));
        InForceKeeps(s.log, Accepted(kind, digest, newUser, newHash), user, hash);
        InForceKeeps(s.log, Other, user, hash);
      case Write(kind, digest, at) =>
        IssuedKeeps(s.log, kind, digest, at);
        InForceKeeps(s.log, Issued(kind, digest, at), user, hash);
    }
  }

  lemma {:induction false} RunMirrors(verify: Verify, dummy: string, events: seq<Event>)
    ensures Mirrors(Run(verify, dummy, events))
  {
    if |events| > 0 {
      hide Mirrors, Step;
      RunMirrors(verify, dummy, events[..|events| - 1]);
      StepMirrors(verify, dummy, Run(verify, dummy, events[..|events| - 1]), events[|events| - 1]);
    }
  }

  lemma ValidIsUsable(log: seq<Done>, activation: Option<Code>, kind: Kind, digest: string, now: Seconds)
    requires CodeIs(log, activation)
    ensures Valid(log, kind, digest, now) <==> Usable(activation, kind, digest, now)
  {
    if Valid(log, kind, digest, now) {
      var i: nat, at: Seconds :| LastIssued(log, i, kind, digest, at) && now < at + CODE_SECONDS;
      var code := activation.value;
      var j: nat, t: Seconds :| LastIssued(log, j, code.kind, code.digest, t) && code.expires == t + CODE_SECONDS;
      assert i == j;
    }
  }

  // ---- Who is let in, and who may change what ----

  /** ASCII letters compare without regard to case; the stored name is in lower case. */
  predicate Named(user: string, name: string) {
    && |user| == |name|
    && forall i :: 0 <= i < |name| ==>
         user[i] as int == name[i] as int + if 65 <= name[i] as int <= 90 then 32 else 0
  }

  lemma LowerIsNamed(user: string, name: string)
    ensures user == Lower(name) <==> Named(user, name)
  {
    if Named(user, name) {
      assert forall i :: 0 <= i < |name| ==> user[i] == Lower(name)[i];
    }
  }

  /** The delay of the last counted failure has not passed. */
  predicate Delayed(counted: seq<Failure>, at: Seconds) {
    counted != [] && at < counted[|counted| - 1].stored + Delay(|counted|)
  }

  /** In every run a check is refused outright exactly while a delay runs. Otherwise it answers yes exactly if the
      name is that of the latest accepted change and the password verifies against its hash, and then no failure
      counts any more; a wrong password for that name counts once; and any other name counts for nothing. */
  lemma ChecksExactly(verify: Verify, dummy: string, events: seq<Event>, name: string, pass: string, at: Seconds,
                      stored: Seconds)
    requires forall e :: e in events ==> Timed(e)
    ensures var s, t := Run(verify, dummy, events), Run(verify, dummy, events + [Check(name, pass, at, stored)]);
      var r := Checking(verify, dummy, s.db, name, pass, at, stored).1;
      && (r == Err(TooManyRequests) <==> Delayed(s.counted, at))
      && (r.Err? ==> r == Err(TooManyRequests) && t.counted == s.counted)
      && (r == Ok(true) <==>
            && !Delayed(s.counted, at)
            && exists user, hash :: InForce(s.log, user, hash) && Named(user, name) && verify(pass, hash))
      && (r == Ok(true) ==> t.counted == [])
      && (forall user, hash :: InForce(s.log, user, hash) && Named(user, name) && r == Ok(false) ==>
            !verify(pass, hash) && t.counted == s.counted + [Failure(at, stored)])
      && ((forall user, hash :: InForce(s.log, user, hash) ==> !Named(user, name)) ==> t.counted == s.counted)
      && t.log == s.log + [Other]
  {
    var s := Run(verify, dummy, events);
    assert (events + [Check(name, pass, at, stored)])[..|events|] == events;
    RunMirrors(verify, dummy, events);
    RefusedWhileDelayed(verify, dummy, events, name, pass, at, stored);
    forall user, hash | InForce(s.log, user, hash)
      ensures s.db.row.Some? && s.db.row.value.username == user && s.db.row.value.hash == hash
    {
      InForceOnce(s.log, user, hash, user, hash);
      InForceOnce(s.log, user, hash, s.db.row.value.username, s.db.row.value.hash);
    }
    hide Delay, InForce, Named, Lower, CodeIs, EverAccepted;
    if s.db.row.Some? {
      LowerIsNamed(s.db.row.value.username, name);
    }
  }

  /** In every run a change is let through exactly so: activation and migration only for a server never set up,
      reset and new credentials only for one that was; activation and reset with a valid code of their own kind,
      new credentials with the password in force. It then is the latest one, no failure counts and no code is left. */
  lemma ChangesExactly(verify: Verify, dummy: string, events: seq<Event>, e: Event)
    requires e.Change?
    ensures var s, t := Run(verify, dummy, events), Run(verify, dummy, events + [e]);
      var allowed :=
        match e.kind
        case Migrate => !EverAccepted(s.log)
        case Activate => !EverAccepted(s.log) && Valid(s.log, Activate, e.digest, e.at)
        case Reset => EverAccepted(s.log) && Valid(s.log, Reset, e.digest, e.at)
        case Credentials => exists user, hash :: InForce(s.log, user, hash) && verify(e.current, hash);
      && (allowed ==>
            && t.log == s.log + [Accepted(e.kind, e.digest, e.user, e.hash)] && t.counted == []
            && InForce(t.log, e.user, e.hash))
      && (!allowed ==> t.log == s.log + [Other] && t.counted == s.counted && t.db == s.db)
      && (allowed <==> Changing(verify, s.db, e.kind, e.user, e.hash, e.digest, e.current, e.at).1.Ok?)
  {
    var s := Run(verify, dummy, events);
    assert (events + [e])[..|events|] == events;
    RunMirrors(verify, dummy, events);
    ValidIsUsable(s.log, s.db.activation, e.kind, e.digest, e.at);
    InForceKeeps(s.log, Accepted(e.kind, e.digest, e.user, e.hash), "", "");
    forall user, hash | InForce(s.log, user, hash)
      ensures s.db.row.Some? && s.db.row.value.username == user && s.db.row.value.hash == hash
    {
      InForceOnce(s.log, user, hash, user, hash);
      InForceOnce(s.log, user, hash, s.db.row.value.username, s.db.row.value.hash);
    }
    hide InForce, Valid, Usable, CodeIs, EverAccepted;
  }

  /** A code lets the credentials be reset exactly when it is the latest one issued, was issued for that purpose
      within the last half hour, and no change was accepted since; so it serves once. Activation is for a server
      never set up, a reset for one that was. */
  lemma CodeAcceptedIff(verify: Verify, dummy: string, events: seq<Event>, kind: Kind, user: string, hash: string,
                        digest: string, current: string, at: Seconds)
    requires TakesCode(kind)
    ensures var s := Run(verify, dummy, events);
      Changing(verify, s.db, kind, user, hash, digest, current, at).1.Ok? <==>
        Valid(s.log, kind, digest, at) && (kind.Reset? <==> EverAccepted(s.log))
  {
    var s := Run(verify, dummy, events);
    RunMirrors(verify, dummy, events);
    ValidIsUsable(s.log, s.db.activation, kind, digest, at);
  }

  /** The same code never lets two changes through without having been issued again in between. */
  lemma CodeServesOnce(verify: Verify, dummy: string, before: seq<Event>, e: Event, between: seq<Event>)
    requires e.Change?
    requires Run(verify, dummy, before + [e]).log ==
      Run(verify, dummy, before).log + [Accepted(e.kind, e.digest, e.user, e.hash)]
    requires forall w :: w in between ==> !w.Write?
    ensures forall kind, digest, at: Seconds :: !Valid(Run(verify, dummy, before + [e] + between).log, kind, digest, at)
  {
    NoneIssued(verify, dummy, before + [e], between);
    var first, last := Run(verify, dummy, before + [e]).log, Run(verify, dummy, before + [e] + between).log;
    var p := |first| - 1;
    forall i: nat, kind: Kind, digest: string, at: Seconds
      ensures !LastIssued(last, i, kind, digest, at)
    {
      assert last[p] == first[p];
      if p < i < |last| {
        assert last[i] in last[|first|..];
      }
    }
  }

  lemma NotIssued(verify: Verify, dummy: string, s: System, e: Event)
    requires !e.Write?
    ensures var log := Step(verify, dummy, s, e).log; log == s.log || exists d :: log == s.log + [d] && !d.Issued?
  {
    hide Checking, Changing;
  }

  lemma {:induction false} NoneIssued(verify: Verify, dummy: string, events: seq<Event>, more: seq<Event>)
    requires forall w :: w in more ==> !w.Write?
    ensures var first, last := Run(verify, dummy, events).log, Run(verify, dummy, events + more).log;
      |first| <= |last| && first == last[..|first|] && forall d :: d in last[|first|..] ==> !d.Issued?
    decreases |more|
  {
    hide Step;
    if |more| == 0 {
      assert events + more == events;
    } else {
      var front, e := more[..|more| - 1], more[|more| - 1];
      assert (events + more)[..|events + more| - 1] == events + front;
      assert (events + more)[|events + more| - 1] == e;
      assert more == front + [e];
      NoneIssued(verify, dummy, events, front);
      NotIssued(verify, dummy, Run(verify, dummy, events + front), e);
    }
  }
}
