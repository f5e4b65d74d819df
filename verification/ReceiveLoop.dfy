/** The receive loop: poll a packet, persist it message by message, acknowledge, and advance the sync cursor,
    while other requests reconnect, switch accounts or close the socket in between. */
module ReceiveLoop {
  import opened Bytes

  type Account = string
  type ServerId = string

  /** A message with the number the server orders it by. */
  datatype Message = Message(id: ServerId, number: nat)

  /** A decoded packet; `Malformed` when decoding fails. */
  datatype Packet = Messages(messages: seq<Message>) | SyncDone(cursor: nat) | Recalled | Unhandled | Malformed

  datatype Db = Db(ingested: map<Account, set<ServerId>>, cursors: map<Account, nat>, journal: seq<(Account, Packet)>)

  function Ingested(db: Db, account: Account): set<ServerId> {
    if account in db.ingested then db.ingested[account] else {}
  }

  function Cursor(db: Db, account: Account): nat {
    if account in db.cursors then db.cursors[account] else 0
  }

  function Ingesting(db: Db, account: Account, id: ServerId): Db {
    db.(ingested := db.ingested[account := Ingested(db, account) + {id}])
  }

  function SavingCursor(db: Db, account: Account, cursor: nat): Db {
    db.(cursors := db.cursors[account := cursor])
  }

  function Journaling(db: Db, account: Account, packet: Packet): Db {
    db.(journal := db.journal + [(account, packet)])
  }

  /** A connection: what the server sends on it, how much of that was read, the positions read but lost, and the
      cursor its sync began at. */
  datatype Socket = Socket(id: nat, stream: seq<Packet>, next: nat, lost: set<nat>, start: Option<nat>)

  datatype Session = Session(account: Account, epoch: nat, nim: Option<Socket>)

  /** A polled packet being processed: by whom, on which socket, and where in its stream. */
  datatype Job = Job(account: Account, epoch: nat, socket: Socket, packet: Packet)

  datatype Worker =
    | Idle
    | Journal(job: Job)
    | Ingest(job: Job, i: nat)
    | Acknowledge(job: Job, i: nat)
    | MarkAcknowledged(job: Job, i: nat)
    | Save(job: Job)
    | MarkRecalled(job: Job)
    | Failing(job: Job)

  datatype System = System(session: Session, worker: Worker, db: Db, acked: set<(Account, ServerId)>, sockets: nat)

  datatype Event =
    | Poll(started: bool)
    | Work(ok: bool)
    | Connect(stream: seq<Packet>)
    | Disconnect
    | Switch(account: Account)
    | Lose

  function Initial(account: Account): System {
    System(Session(account, 1, None), Idle, Db(map[], map[], []), {}, 0)
  }

  function Closed(session: Session): Session {
    session.(nim := None)
  }

  predicate SameSession(session: Session, job: Job) {
    session.account == job.account && session.epoch == job.epoch
  }

  function PollStep(s: System, started: bool): System
    requires s.worker.Idle? && s.session.nim.Some?
  {
    var nim := s.session.nim.value;
    if nim.start.None? && !started then s.(session := Closed(s.session))
    else
      var open := if nim.start.None? then nim.(start := Some(Cursor(s.db, s.session.account))) else nim;
      if open.next >= |open.stream| then s.(session := s.session.(nim := Some(open)))
      else
        var polled := open.(next := open.next + 1);
        s.(session := s.session.(nim := Some(polled)),
           worker := Journal(Job(s.session.account, s.session.epoch, polled, open.stream[open.next])))
  }

  function Next(job: Job, i: nat): Worker
    requires job.packet.Messages?
  {
    if i < |job.packet.messages| then Ingest(job, i) else Idle
  }

  function Decoded(job: Job): Worker {
    match job.packet
    case Messages(_) => Next(job, 0)
    case SyncDone(_) => Save(job)
    case Recalled => MarkRecalled(job)
    case Unhandled => Idle
    case Malformed => Failing(job)
  }

  /** The worker's next block; `ok` is whether the database or the socket obliged. */
  function WorkStep(s: System, ok: bool): System {
    match s.worker
    case Idle => s
    case Journal(job) =>
      if ok then s.(db := Journaling(s.db, job.account, job.packet), worker := Decoded(job))
      else s.(worker := Failing(job))
    case Ingest(job, i) =>
      if !(job.packet.Messages? && i < |job.packet.messages|) then s
      else if ok then
        s.(db := Ingesting(s.db, job.account, job.packet.messages[i].id), worker := Acknowledge(job, i))
      else s.(worker := Failing(job))
    case Acknowledge(job, i) =>
      if !(job.packet.Messages? && i < |job.packet.messages|) then s
      else if !SameSession(s.session, job) || s.session.nim.None? then s.(worker := Next(job, i + 1))
      else if ok then
        s.(acked := s.acked + {(job.account, job.packet.messages[i].id)}, worker := MarkAcknowledged(job, i))
      else s.(session := Closed(s.session), worker := Failing(job))
    case MarkAcknowledged(job, i) =>
      if !job.packet.Messages? then s else s.(worker := if ok then Next(job, i + 1) else Failing(job))
    case Save(job) =>
      if !job.packet.SyncDone? then s
      else if ok then s.(db := SavingCursor(s.db, job.account, job.packet.cursor), worker := Idle)
      else s.(worker := Failing(job))
    case MarkRecalled(job) => if !job.packet.Recalled? then s else s.(worker := if ok then Idle else Failing(job))
    case Failing(job) =>
      s.(session := if SameSession(s.session, job) then Closed(s.session) else s.session, worker := Idle)
  }

  /** `Lose` is a recall or mute exchange, or a poll cut short, that reads a packet off the socket and drops it. */
  function Step(s: System, e: Event): System {
    match e
    case Poll(started) => if s.worker.Idle? && s.session.nim.Some? then PollStep(s, started) else s
    case Work(ok) => WorkStep(s, ok)
    case Connect(stream) =>
      s.(session := s.session.(nim := Some(Socket(s.sockets, stream, 0, {}, None))), sockets := s.sockets + 1)
    case Disconnect => s.(session := Closed(s.session))
    case Switch(account) => s.(session := Session(account, s.session.epoch + 1, None))
    case Lose =>
      if s.session.nim.Some? && s.session.nim.value.next < |s.session.nim.value.stream| then
        var nim := s.session.nim.value;
        s.(session := s.session.(nim := Some(nim.(next := nim.next + 1, lost := nim.lost + {nim.next}))))
      else s
  }

  function Run(account: Account, events: seq<Event>): System {
    if |events| == 0 then Initial(account) else Step(Run(account, events[..|events| - 1]), events[|events| - 1])
  }

  // ---- One packet, start to finish ----

  /** The worker stands at a block its packet has. */
  predicate Fits(w: Worker) {
    match w
    case Idle => true
    case Journal(_) => true
    case Ingest(job, i) => job.packet.Messages? && i < |job.packet.messages|
    case Acknowledge(job, i) => job.packet.Messages? && i < |job.packet.messages|
    case MarkAcknowledged(job, i) => job.packet.Messages? && i < |job.packet.messages|
    case Save(job) => job.packet.SyncDone?
    case MarkRecalled(job) => job.packet.Recalled?
    case Failing(_) => true
  }

  /** More than the blocks left. */
  function Left(w: Worker): nat
    requires Fits(w)
  {
    match w
    case Idle => 0
    case Journal(job) => if job.packet.Messages? then 3 * |job.packet.messages| + 4 else 4
    case Ingest(job, i) => 3 * (|job.packet.messages| - i) + 2
    case Acknowledge(job, i) => 3 * (|job.packet.messages| - i) + 1
    case MarkAcknowledged(job, i) => 3 * (|job.packet.messages| - i)
    case Save(_) => 2
    case MarkRecalled(_) => 2
    case Failing(_) => 1
  }

  lemma BlockDone(s: System, ok: bool)
    requires Fits(s.worker) && !s.worker.Idle?
    ensures Fits(WorkStep(s, ok).worker) && Left(WorkStep(s, ok).worker) < Left(s.worker)
  {
  }

  /** The worker's remaining blocks when nothing interferes; the n-th is obliged as the n-th answer says. The
      second part is whether the packet was processed without an error. */
  function Finishing(s: System, answers: nat -> bool, n: nat): (System, bool)
    requires Fits(s.worker)
    decreases Left(s.worker)
  {
    if s.worker.Idle? then (s, true)
    else if s.worker.Failing? then (WorkStep(s, true), false)
    else
      BlockDone(s, answers(n));
      Finishing(WorkStep(s, answers(n)), answers, n + 1)
  }

  class Receiver {
    var session: Session
    var db: Db
    var acked: set<(Account, ServerId)>
    var sockets: nat

    ghost function View(w: Worker): System
      reads this
    {
      System(session, w, db, acked, sockets)
    }

    constructor (account: Account)
      ensures View(Idle) == Initial(account)
    {
      session, db, acked, sockets := Session(account, 1, None), Db(map[], map[], []), {}, 0;
    }

    /** The first lock-protected block: sync is started once per socket, then a packet is polled. */
    method Poll(started: bool) returns (job: Option<Job>)
      modifies this`session
      ensures View(if job.Some? then Journal(job.value) else Idle) == Step(old(View(Idle)), Event.Poll(started))
    {
      if session.nim.None? {
        return None;
      }
      var nim := session.nim.value;
      if nim.start.None? {
        if !started {
          session := Closed(session);
          return None;
        }
        nim := nim.(start := Some(Cursor(db, session.account)));
      }
      if nim.next == |nim.stream| || nim.next > |nim.stream| {
        session := session.(nim := Some(nim));
        return None;
      }
      var packet := nim.stream[nim.next];
      nim := nim.(next := nim.next + 1);
      session := session.(nim := Some(nim));
      job := Some(Job(session.account, session.epoch, nim, packet));
    }

    /** From the journal entry to the last acknowledgement or the cursor. */
    method Processing(job: Job, answers: nat -> bool) returns (ok: bool)
      modifies this
      ensures Finishing(old(View(Journal(job))), answers, 0) ==
        if ok then (View(Idle), true) else (WorkStep(View(Failing(job)), true), false)
    {
      hide Finishing, Journaling, Ingesting, SavingCursor;
      Ends(answers);
      var n := 0;
      ghost var whole := Finishing(View(Journal(job)), answers, 0);
      ghost var at := View(Journal(job));
      NextBlock(at, answers, n);
      if !answers(n) {
        return false;
      }
      n := n + 1;
      db := Journaling(db, job.account, job.packet);
      match job.packet {
        case Messages(messages) =>
          for i := 0 to |messages|
            invariant Finishing(View(Next(job, i)), answers, n) == whole
          {
            at := View(Ingest(job, i));
            NextBlock(at, answers, n);
            if !answers(n) {
              return false;
            }
            n := n + 1;
            db := Ingesting(db, job.account, messages[i].id);
            at := View(Acknowledge(job, i));
            NextBlock(at, answers, n);
            if SameSession(session, job) && session.nim.Some? {
              if !answers(n) {
                session := Closed(session);
                return false;
              }
              n := n + 1;
              acked := acked + {(job.account, messages[i].id)};
              at := View(MarkAcknowledged(job, i));
              NextBlock(at, answers, n);
              if !answers(n) {
                return false;
              }
            }
            n := n + 1;
          }
        case SyncDone(cursor) =>
          at := View(Save(job));
          NextBlock(at, answers, n);
          if !answers(n) {
            return false;
          }
          db := SavingCursor(db, job.account, cursor);
        case Recalled =>
          at := View(MarkRecalled(job));
          NextBlock(at, answers, n);
          if !answers(n) {
            return false;
          }
        case Unhandled =>
        case Malformed => return false;
      }
      ok := true;
    }

    /** A packet processed; after an error its socket is closed, so that the server sends it again. */
    method Process(job: Job, answers: nat -> bool) returns (ok: bool)
      modifies this
      ensures (View(Idle), ok) == Finishing(old(View(Journal(job))), answers, 0)
    {
      ok := Processing(job, answers);
      if !ok && SameSession(session, job) {
        session := Closed(session);
      }
    }
  }

  lemma Ends(answers: nat -> bool)
    ensures forall s: System, n: nat :: s.worker.Idle? ==> Finishing(s, answers, n) == (s, true)
    ensures forall s: System, n: nat :: s.worker.Failing? ==> Finishing(s, answers, n) == (WorkStep(s, true), false)
  {
  }

  lemma NextBlock(s: System, answers: nat -> bool, n: nat)
    requires Fits(s.worker) && !s.worker.Idle? && !s.worker.Failing?
    ensures Fits(WorkStep(s, answers(n)).worker)
    ensures Finishing(s, answers, n) == Finishing(WorkStep(s, answers(n)), answers, n + 1)
  {
    BlockDone(s, answers(n));
  }

  // ---- What every step keeps ----

  /** Nothing of the packet is missing from the database. */
  ghost predicate Handled(db: Db, account: Account, packet: Packet) {
    && packet != Malformed
    && (packet.Messages? ==> forall i :: 0 <= i < |packet.messages| ==> packet.messages[i].id in Ingested(db, account))
  }

  ghost predicate AllHandled(db: Db, account: Account, socket: Socket, upto: nat) {
    upto <= |socket.stream| && forall k :: 0 <= k < upto && k !in socket.lost ==> Handled(db, account, socket.stream[k])
  }

  /** How many messages of the packet in work are already in the database. */
  function Stored(w: Worker): nat {
    match w
    case Ingest(_, i) => i
    case Acknowledge(_, i) => i + 1
    case MarkAcknowledged(_, i) => i + 1
    case _ => 0
  }

  ghost predicate JobSound(s: System) {
    s.worker.Idle? ||
    var job := s.worker.job;
    && 1 <= job.socket.next <= |job.socket.stream| && job.socket.id < s.sockets
    && job.packet == job.socket.stream[job.socket.next - 1]
    && AllHandled(s.db, job.account, job.socket, job.socket.next - 1)
    && (!s.worker.Failing? && Stored(s.worker) > 0 ==>
          && job.packet.Messages? && Stored(s.worker) <= |job.packet.messages|
          && forall i :: 0 <= i < Stored(s.worker) ==> job.packet.messages[i].id in Ingested(s.db, job.account))
  }

  /** Everything read from the socket in use has been handled, but for what was lost and the packet in work. */
  ghost predicate AllBut(db: Db, account: Account, socket: Socket, position: nat) {
    && socket.next <= |socket.stream|
    && forall k :: 0 <= k < socket.next && k !in socket.lost && k != position ==> Handled(db, account, socket.stream[k])
  }

  ghost predicate SocketSound(s: System) {
    s.session.nim.None? ||
    var nim := s.session.nim.value;
    && nim.id < s.sockets
    && (if !s.worker.Idle? && s.worker.job.socket.id == nim.id
        then
          var job := s.worker.job;
          && SameSession(s.session, job) && nim.stream == job.socket.stream && job.socket.next >= 1
          && AllBut(s.db, s.session.account, nim, job.socket.next - 1)
        else AllHandled(s.db, s.session.account, nim, nim.next))
  }

  ghost predicate AcksSound(s: System) {
    && (forall a, id :: (a, id) in s.acked ==> id in Ingested(s.db, a))
    && (s.worker.Acknowledge? && s.worker.job.packet.Messages? && s.worker.i < |s.worker.job.packet.messages| ==>
          s.worker.job.packet.messages[s.worker.i].id in Ingested(s.db, s.worker.job.account))
  }

  ghost predicate Inv(s: System) {
    JobSound(s) && SocketSound(s) && AcksSound(s)
  }

  lemma MoreIsHandled(db: Db, after: Db, account: Account, socket: Socket, upto: nat)
    requires AllHandled(db, account, socket, upto) && Ingested(db, account) <= Ingested(after, account)
    ensures AllHandled(after, account, socket, upto)
  {
  }

  ghost predicate DbGrows(db: Db, after: Db) {
    forall a :: Ingested(db, a) <= Ingested(after, a)
  }

  lemma IngestingOnlyAdds(db: Db, account: Account, id: ServerId)
    ensures id in Ingested(Ingesting(db, account, id), account) && DbGrows(db, Ingesting(db, account, id))
  {
  }

  lemma InvGrows(s: System, db: Db)
    requires Inv(s) && DbGrows(s.db, db)
    ensures Inv(s.(db := db))
  {
    if !s.worker.Idle? {
      var job := s.worker.job;
      MoreIsHandled(s.db, db, job.account, job.socket, job.socket.next - 1);
    }
  }

  lemma JobDone(s: System)
    requires Inv(s) && !s.worker.Idle? && Handled(s.db, s.worker.job.account, s.worker.job.packet)
    ensures Inv(s.(worker := Idle))
  {
  }

  lemma JobMoves(s: System, w: Worker)
    requires Inv(s) && !s.worker.Idle? && !w.Idle? && w.job == s.worker.job
    requires w.Failing? || Stored(w) == 0 ||
      (Stored(w) <= Stored(s.worker) && !s.worker.Failing?)
    requires !w.Acknowledge?
    ensures Inv(s.(worker := w))
  {
    hide Handled;
  }

  lemma NextKeeps(s: System, i: nat)
    requires Inv(s) && !s.worker.Idle? && !s.worker.Failing? && Stored(s.worker) == i
    requires s.worker.job.packet.Messages?
    requires i == 0 || i <= |s.worker.job.packet.messages|
    ensures Inv(s.(worker := Next(s.worker.job, i)))
  {
    var job := s.worker.job;
    if i < |job.packet.messages| {
      JobMoves(s, Ingest(job, i));
    } else {
      JobDone(s);
    }
  }

  lemma JournalKeeps(s: System, ok: bool)
    requires Inv(s) && s.worker.Journal?
    ensures Inv(WorkStep(s, ok))
  {
    var job := s.worker.job;
    if ok {
      var t := s.(db := Journaling(s.db, job.account, job.packet));
      InvGrows(s, t.db);
      match job.packet {
        case Messages(_) => NextKeeps(t, 0);
        case SyncDone(_) => JobMoves(t, Save(job));
        case Recalled => JobMoves(t, MarkRecalled(job));
        case Unhandled => JobDone(t);
        case Malformed => JobMoves(t, Failing(job));
      }
    } else {
      JobMoves(s, Failing(job));
    }
  }

  lemma IngestKeeps(s: System, ok: bool)
    requires Inv(s) && s.worker.Ingest?
    ensures Inv(WorkStep(s, ok))
  {
    var job, i := s.worker.job, s.worker.i;
    if job.packet.Messages? && i < |job.packet.messages| {
      if ok {
        var t := s.(db := Ingesting(s.db, job.account, job.packet.messages[i].id));
        IngestingOnlyAdds(s.db, job.account, job.packet.messages[i].id);
        InvGrows(s, t.db);
        OneMoreStored(t, Acknowledge(job, i));
      } else {
        JobMoves(s, Failing(job));
      }
    }
  }

  lemma OneMoreStored(s: System, w: Worker)
    requires Inv(s) && s.worker.Ingest? && s.worker.job.packet.Messages? && s.worker.i < |s.worker.job.packet.messages|
    requires w == Acknowledge(s.worker.job, s.worker.i)
    requires w.job.packet.messages[w.i].id in Ingested(s.db, w.job.account)
    ensures Inv(s.(worker := w))
  {
    hide Handled;
  }

  lemma AcknowledgeKeeps(s: System, ok: bool)
    requires Inv(s) && s.worker.Acknowledge?
    ensures Inv(WorkStep(s, ok))
  {
    var job, i := s.worker.job, s.worker.i;
    if job.packet.Messages? && i < |job.packet.messages| {
      if !SameSession(s.session, job) || s.session.nim.None? {
        NextKeeps(s, i + 1);
      } else if ok {
        JobMoves(s, MarkAcknowledged(job, i));
        hide JobSound, SocketSound;
        var t := s.(worker := MarkAcknowledged(job, i));
        var u := t.(acked := s.acked + {(job.account, job.packet.messages[i].id)});
        SameButAcked(t, u);
      } else {
        JobMoves(s, Failing(job));
        ClosingKeeps(s.(worker := Failing(job)));
      }
    }
  }

  lemma SameButAcked(s: System, t: System)
    requires JobSound(s) && SocketSound(s) && t == s.(acked := t.acked)
    ensures JobSound(t) && SocketSound(t)
  {
  }

  lemma ClosingKeeps(s: System)
    requires Inv(s)
    ensures Inv(s.(session := Closed(s.session)))
  {
    hide Handled;
  }

  lemma FailingKeeps(s: System, ok: bool)
    requires Inv(s) && s.worker.Failing?
    ensures Inv(WorkStep(s, ok))
  {
  }

  lemma WorkKeeps(s: System, ok: bool)
    requires Inv(s)
    ensures Inv(WorkStep(s, ok))
  {
    match s.worker {
      case Idle =>
      case Journal(_) => JournalKeeps(s, ok);
      case Ingest(_, _) => IngestKeeps(s, ok);
      case Acknowledge(_, _) => AcknowledgeKeeps(s, ok);
      case MarkAcknowledged(job, i) =>
        if job.packet.Messages? {
          if ok { NextKeeps(s, i + 1); } else { JobMoves(s, Failing(job)); }
        }
      case Save(job) =>
        if job.packet.SyncDone? {
          if ok {
            var db := SavingCursor(s.db, job.account, job.packet.cursor);
            InvGrows(s, db);
            JobDone(s.(db := db));
          } else {
            JobMoves(s, Failing(job));
          }
        }
      case MarkRecalled(job) =>
        if job.packet.Recalled? {
          if ok { JobDone(s); } else { JobMoves(s, Failing(job)); }
        }
      case Failing(_) => FailingKeeps(s, ok);
    }
  }

  lemma PollKeeps(s: System, started: bool)
    requires Inv(s) && s.worker.Idle? && s.session.nim.Some?
    ensures Inv(PollStep(s, started))
  {
    hide Handled;
  }

  lemma StepKeeps(s: System, e: Event)
    requires Inv(s)
    ensures Inv(Step(s, e))
  {
    match e {
      case Poll(started) => if s.worker.Idle? && s.session.nim.Some? { PollKeeps(s, started); }
      case Work(ok) => WorkKeeps(s, ok);
      case Connect(_) => hide Handled;
      case Disconnect => ClosingKeeps(s);
      case Switch(_) => hide Handled;
      case Lose => hide Handled;
    }
  }

  lemma {:induction false} RunKeeps(account: Account, events: seq<Event>)
    ensures Inv(Run(account, events))
  {
    if |events| > 0 {
      hide Inv, Step;
      RunKeeps(account, events[..|events| - 1]);
      StepKeeps(Run(account, events[..|events| - 1]), events[|events| - 1]);
    }
  }

  // ---- What holds of every run ----

  /** Nothing is acknowledged before it was stored. */
  lemma AcksFollowStorage(account: Account, events: seq<Event>, a: Account, id: ServerId)
    requires (a, id) in Run(account, events).acked
    ensures id in Ingested(Run(account, events).db, a)
  {
    RunKeeps(account, events);
  }

  lemma LastBlock(s: System, ok: bool)
    requires Inv(s) && Fits(s.worker) && !s.worker.Idle? && !s.worker.Failing? && WorkStep(s, ok).worker.Idle?
    ensures Handled(WorkStep(s, ok).db, s.worker.job.account, s.worker.job.packet)
  {
  }

  lemma BlockSession(s: System, ok: bool)
    requires Fits(s.worker) && !s.worker.Idle? && !s.worker.Failing?
    ensures var t := WorkStep(s, ok);
      && (!t.worker.Idle? ==> t.worker.job == s.worker.job)
      && (t.session == s.session || (t.worker.Failing? && t.session == Closed(s.session)))
  {
  }

  /** A packet processed without an error is in the database as a whole, and the session is as it was; after an
      error the session it was polled in has no socket any more. */
  lemma {:induction false} ProcessedOrClosed(s: System, answers: nat -> bool, n: nat)
    requires Inv(s) && Fits(s.worker) && !s.worker.Idle? && !s.worker.Failing?
    ensures var job, (t, ok) := s.worker.job, Finishing(s, answers, n);
      && Inv(t) && t.worker.Idle?
      && (ok ==> Handled(t.db, job.account, job.packet) && t.session == s.session)
      && (!ok && SameSession(s.session, job) ==> t.session == Closed(s.session))
    decreases Left(s.worker)
  {
    hide Inv, Handled;
    var next := WorkStep(s, answers(n));
    BlockDone(s, answers(n));
    BlockSession(s, answers(n));
    WorkKeeps(s, answers(n));
    if next.worker.Idle? {
      LastBlock(s, answers(n));
    } else if next.worker.Failing? {
      WorkKeeps(next, true);
    } else {
      ProcessedOrClosed(next, answers, n + 1);
    }
  }

  // ---- What processing a packet comes to ----

  function IdsOf(messages: seq<Message>): set<ServerId> {
    set m | m in messages :: m.id
  }

  /** The messages of the packet not stored yet, and those not acknowledged yet. */
  function ToStore(w: Worker): seq<Message>
    requires Fits(w)
  {
    match w
    case Journal(job) => if job.packet.Messages? then job.packet.messages else []
    case Ingest(job, i) => job.packet.messages[i..]
    case Acknowledge(job, i) => job.packet.messages[i + 1..]
    case MarkAcknowledged(job, i) => job.packet.messages[i + 1..]
    case _ => []
  }

  function ToAcknowledge(w: Worker): seq<Message>
    requires Fits(w)
  {
    match w
    case Acknowledge(job, i) => job.packet.messages[i..]
    case _ => ToStore(w)
  }

  function ToSave(w: Worker): Option<nat> {
    match w
    case Journal(job) => if job.packet.SyncDone? then Some(job.packet.cursor) else None
    case Save(job) => if job.packet.SyncDone? then Some(job.packet.cursor) else None
    case _ => None
  }

  /** What is stored, saved and entered in the journal in `after` and not in `db`. */
  ghost predicate Stores(db: Db, after: Db, account: Account, messages: seq<Message>, cursor: Option<nat>,
                         journal: seq<(Account, Packet)>) {
    && (forall a :: Ingested(after, a) == if a == account then Ingested(db, a) + IdsOf(messages) else Ingested(db, a))
    && (forall a :: Cursor(after, a) == if a == account && cursor.Some? then cursor.value else Cursor(db, a))
    && after.journal == db.journal + journal
  }

  /** Messages are acknowledged on the session they came by, as long as it has a socket. */
  predicate Answerable(s: System, job: Job) {
    s.session.account == job.account && s.session.epoch == job.epoch && s.session.nim.Some?
  }

  ghost predicate Acknowledges(s: System, t: System, job: Job, messages: seq<Message>) {
    t.acked == if Answerable(s, job) then s.acked + (set m | m in messages :: (job.account, m.id)) else s.acked
  }

  function StoresNow(w: Worker): nat {
    if w.Ingest? then 1 else 0
  }

  function AcknowledgesNow(w: Worker): nat {
    if w.Acknowledge? then 1 else 0
  }

  function SavesNow(w: Worker): Option<nat> {
    if w.Save? then ToSave(w) else None
  }

  function Entered(w: Worker): seq<(Account, Packet)> {
    if w.Journal? then [(w.job.account, w.job.packet)] else []
  }

  /** What one block adds, of all that is left to do. */
  lemma BlockAdds(s: System, ok: bool)
    requires Fits(s.worker) && !s.worker.Idle? && !s.worker.Failing? && !WorkStep(s, ok).worker.Failing?
    ensures var w, t, n := s.worker, WorkStep(s, ok), StoresNow(s.worker);
      && Fits(t.worker) && n <= |ToStore(w)| && ToStore(t.worker) == ToStore(w)[n..]
      && Stores(s.db, t.db, w.job.account, ToStore(w)[..n], SavesNow(w), Entered(w))
  {
    BlockDone(s, ok);
    assert s.worker.Ingest? ==> ToStore(s.worker)[..1] == [s.worker.job.packet.messages[s.worker.i]];
  }

  lemma BlockAcknowledges(s: System, ok: bool)
    requires Fits(s.worker) && !s.worker.Idle? && !s.worker.Failing? && !WorkStep(s, ok).worker.Failing?
    ensures var w, t, n := s.worker, WorkStep(s, ok), AcknowledgesNow(s.worker);
      && Fits(t.worker) && t.session == s.session
      && n <= |ToAcknowledge(w)| && ToAcknowledge(t.worker) == ToAcknowledge(w)[n..]
      && Acknowledges(s, t, w.job, ToAcknowledge(w)[..n])
  {
    hide Journaling, Ingesting, SavingCursor;
    BlockDone(s, ok);
    var job := s.worker.job;
    if s.worker.Acknowledge? {
      var rest := job.packet.messages[s.worker.i..];
      assert rest[..1] == [job.packet.messages[s.worker.i]] && rest[1..] == job.packet.messages[s.worker.i + 1..];
      assert (set m | m in rest[..1] :: (job.account, m.id)) == {(job.account, job.packet.messages[s.worker.i].id)};
    } else {
      assert (set m: Message | m in [] :: (job.account, m.id)) == {};
    }
  }

  lemma StoresTwice(db: Db, mid: Db, after: Db, account: Account, messages: seq<Message>, n: nat, first: Option<nat>,
                    second: Option<nat>, journal: seq<(Account, Packet)>)
    requires n <= |messages| && (first.None? || second.None?)
    requires Stores(db, mid, account, messages[..n], first, journal)
    requires Stores(mid, after, account, messages[n..], second, [])
    ensures Stores(db, after, account, messages, if first.Some? then first else second, journal)
  {
    assert messages == messages[..n] + messages[n..];
    assert IdsOf(messages) == IdsOf(messages[..n]) + IdsOf(messages[n..]);
    hide IdsOf;
    assert journal + [] == journal;
  }

  lemma AcknowledgesTwice(s: System, mid: System, t: System, job: Job, messages: seq<Message>, n: nat)
    requires n <= |messages| && mid.session == s.session
    requires Acknowledges(s, mid, job, messages[..n]) && Acknowledges(mid, t, job, messages[n..])
    ensures Acknowledges(s, t, job, messages)
  {
    assert messages == messages[..n] + messages[n..];
  }

  lemma {:induction false} FinishedExactly(s: System, answers: nat -> bool, n: nat)
    requires Fits(s.worker) && !s.worker.Idle? && Finishing(s, answers, n).1
    ensures var job, t := s.worker.job, Finishing(s, answers, n).0;
      && t.session == s.session
      && Stores(s.db, t.db, job.account, ToStore(s.worker), ToSave(s.worker), Entered(s.worker))
      && Acknowledges(s, t, job, ToAcknowledge(s.worker))
    decreases Left(s.worker)
  {
    hide WorkStep, Finishing, Fits, Stores, Acknowledges, ToStore, ToAcknowledge, ToSave, SavesNow, Entered, Left;
    var w := s.worker;
    Ends(answers);
    NextBlock(s, answers, n);
    var mid := WorkStep(s, answers(n));
    BlockDone(s, answers(n));
    BlockSession(s, answers(n));
    BlockAdds(s, answers(n));
    BlockAcknowledges(s, answers(n));
    SavesOnce(s, answers(n));
    var t := Finishing(s, answers, n).0;
    if mid.worker.Idle? {
      NothingMore(mid, w.job);
    } else {
      FinishedExactly(mid, answers, n + 1);
    }
    StoresTwice(s.db, mid.db, t.db, w.job.account, ToStore(w), StoresNow(w), SavesNow(w), ToSave(mid.worker),
                Entered(w));
    AcknowledgesTwice(s, mid, t, w.job, ToAcknowledge(w), AcknowledgesNow(w));
  }

  lemma SavesOnce(s: System, ok: bool)
    requires Fits(s.worker) && !s.worker.Idle? && !s.worker.Failing? && !WorkStep(s, ok).worker.Failing?
    ensures var mid := WorkStep(s, ok).worker;
      && ToSave(s.worker) == (if SavesNow(s.worker).Some? then SavesNow(s.worker) else ToSave(mid))
      && (SavesNow(s.worker).None? || ToSave(mid).None?) && Entered(mid) == []
      && (mid.Idle? ==> Fits(mid) && ToStore(mid) == [] && ToAcknowledge(mid) == [] && ToSave(mid) == None)
  {
  }

  lemma NothingMore(s: System, job: Job)
    ensures Stores(s.db, s.db, job.account, [], None, []) && Acknowledges(s, s, job, [])
  {
    assert s.db.journal + [] == s.db.journal;
  }

  /** A packet processed without an error is in the journal once; exactly its messages are new in the store, and a
      cursor is saved exactly for a packet that announces one. All its messages are acknowledged if the session is
      the one they came by and has a socket, and none otherwise. */
  lemma ProcessedExactly(s: System, answers: nat -> bool)
    requires s.worker.Journal? && Finishing(s, answers, 0).1
    ensures var job, t := s.worker.job, Finishing(s, answers, 0).0;
      && t.session == s.session && t.db.journal == s.db.journal + [(job.account, job.packet)]
      && var messages := if job.packet.Messages? then job.packet.messages else [];
         && (forall a :: Ingested(t.db, a) ==
               if a == job.account then Ingested(s.db, a) + (set m | m in messages :: m.id) else Ingested(s.db, a))
         && (forall a :: Cursor(t.db, a) ==
               if a == job.account && job.packet.SyncDone? then job.packet.cursor else Cursor(s.db, a))
         && t.acked == if s.session.account == job.account && s.session.epoch == job.epoch && s.session.nim.Some?
                       then s.acked + (set m | m in messages :: (job.account, m.id)) else s.acked
  {
    FinishedExactly(s, answers, 0);
  }

  /** Which blocks have to be obliged, counted from the journal's, for the packet to be processed without an error: an
      acknowledgement only where there is one to make. */
  ghost predicate Obliged(job: Job, answerable: bool, answers: nat -> bool) {
    && answers(0) && job.packet != Malformed
    && (job.packet.SyncDone? || job.packet.Recalled? ==> answers(1))
    && (job.packet.Messages? ==> AllObliged(|job.packet.messages|, answerable, answers, 1))
  }

  /** Three blocks a message, or two where none is acknowledged: the second is then only a look at the session. */
  ghost predicate AllObliged(count: nat, answerable: bool, answers: nat -> bool, n: nat) {
    if answerable then forall k: nat :: n <= k < n + 3 * count ==> answers(k)
    else forall k: nat :: n <= k < n + 2 * count && (k - n) % 2 == 0 ==> answers(k)
  }

  lemma ObligedFirst(count: nat, answerable: bool, answers: nat -> bool, n: nat)
    requires count > 0
    ensures AllObliged(count, answerable, answers, n) <==>
      if answerable then
        answers(n) && answers(n + 1) && answers(n + 2) && AllObliged(count - 1, answerable, answers, n + 3)
      else answers(n) && AllObliged(count - 1, answerable, answers, n + 2)
  {
  }

  lemma {:induction false} MessagesOblige(s: System, answers: nat -> bool, n: nat)
    requires s.worker.Ingest? && Fits(s.worker)
    ensures Finishing(s, answers, n).1 <==>
      AllObliged(|s.worker.job.packet.messages| - s.worker.i, Answerable(s, s.worker.job), answers, n)
    decreases |s.worker.job.packet.messages| - s.worker.i
  {
    hide Finishing, AllObliged, Ingesting;
    Ends(answers);
    var job, i := s.worker.job, s.worker.i;
    var left := |job.packet.messages| - i;
    ObligedFirst(left, Answerable(s, job), answers, n);
    NextBlock(s, answers, n);
    var stored := WorkStep(s, answers(n));
    if answers(n) {
      NextBlock(stored, answers, n + 1);
      var said := WorkStep(stored, answers(n + 1));
      if !Answerable(s, job) {
        Others(said, job, i, answers, n + 2);
      } else if answers(n + 1) {
        NextBlock(said, answers, n + 2);
        if answers(n + 2) {
          Others(WorkStep(said, answers(n + 2)), job, i, answers, n + 3);
        }
      }
    }
  }

  /** Behind the i-th message come the others. */
  lemma Others(s: System, job: Job, i: nat, answers: nat -> bool, n: nat)
    requires job.packet.Messages? && i < |job.packet.messages| && s.worker == Next(job, i + 1)
    ensures Finishing(s, answers, n).1 <==>
      AllObliged(|job.packet.messages| - i - 1, Answerable(s, job), answers, n)
    decreases |job.packet.messages| - i, 0
  {
    if i + 1 < |job.packet.messages| {
      MessagesOblige(s, answers, n);
    }
  }

  /** A packet is processed without an error exactly if it was decoded and the database and the socket obliged
      wherever they were asked. */
  lemma FinishesExactly(s: System, answers: nat -> bool)
    requires s.worker.Journal?
    ensures Finishing(s, answers, 0).1 <==> Obliged(s.worker.job, Answerable(s, s.worker.job), answers)
  {
    hide Finishing, AllObliged, Journaling, SavingCursor;
    Ends(answers);
    NextBlock(s, answers, 0);
    var job, entered := s.worker.job, WorkStep(s, answers(0));
    if answers(0) {
      if job.packet.SyncDone? || job.packet.Recalled? {
        NextBlock(entered, answers, 1);
      } else if job.packet.Messages? {
        if |job.packet.messages| > 0 {
          MessagesOblige(entered, answers, 1);
        } else {
          NoneObliged(Answerable(s, job), answers, 1);
        }
      }
    }
  }

  lemma NoneObliged(answerable: bool, answers: nat -> bool, n: nat)
    ensures AllObliged(0, answerable, answers, n)
  {
  }

  // ---- What a poll takes, and whose session it was ----

  /** In every run, a poll on an idle loop starts sync once, from the saved cursor, and takes the next packet of the
      socket if there is one; if sync cannot be started the socket is given up. */
  lemma PollsNext(account: Account, events: seq<Event>, started: bool)
    requires Run(account, events).worker.Idle? && Run(account, events).session.nim.Some?
    ensures var s, t := Run(account, events), Run(account, events + [Poll(started)]);
      var nim := s.session.nim.value;
      && t.db == s.db && t.acked == s.acked
      && t.session.account == s.session.account && t.session.epoch == s.session.epoch
      && (nim.start.None? && !started ==> t.session.nim == None && t.worker == Idle)
      && (nim.start.Some? || started ==>
            && t.session.nim.Some?
            && var now := t.session.nim.value;
               && now.stream == nim.stream && now.id == nim.id && now.lost == nim.lost
               && now.start == Some(if nim.start.Some? then nim.start.value else Cursor(s.db, s.session.account))
               && (nim.next < |nim.stream| ==>
                     && now.next == nim.next + 1
                     && t.worker == Journal(Job(s.session.account, s.session.epoch, now, nim.stream[nim.next])))
               && (nim.next >= |nim.stream| ==> now.next == nim.next && t.worker == Idle))
  {
    assert (events + [Poll(started)])[..|events|] == events;
  }

  /** In every run, closing, opening and switching leave no socket, a new one at its beginning, and a new epoch of
      the other account without one. */
  lemma SessionsMove(account: Account, events: seq<Event>, stream: seq<Packet>, other: Account)
    ensures var s := Run(account, events).session;
      && Run(account, events + [Disconnect]).session == s.(nim := None)
      && Run(account, events + [Switch(other)]).session == Session(other, s.epoch + 1, None)
      && var t := Run(account, events + [Connect(stream)]).session;
         && t.account == s.account && t.epoch == s.epoch && t.nim.Some?
         && t.nim.value.stream == stream && t.nim.value.next == 0 && t.nim.value.lost == {} && t.nim.value.start == None
  {
    assert (events + [Disconnect])[..|events|] == events;
    assert (events + [Switch(other)])[..|events|] == events;
    assert (events + [Connect(stream)])[..|events|] == events;
  }

  /** The account was not switched since the packet in work was polled. */
  predicate Unswitched(account: Account, events: seq<Event>)
    decreases |events|
  {
    |events| > 0 &&
    var front, e := events[..|events| - 1], events[|events| - 1];
    (e.Poll? && Run(account, front).worker.Idle?) || (!e.Switch? && Unswitched(account, front))
  }

  ghost predicate EpochsTell(account: Account, events: seq<Event>) {
    var s := Run(account, events);
    !s.worker.Idle? ==>
      && s.worker.job.epoch <= s.session.epoch
      && (Unswitched(account, events) <==> s.worker.job.epoch == s.session.epoch)
      && (Unswitched(account, events) ==> s.worker.job.account == s.session.account)
  }

  lemma {:induction false} RunEpochs(account: Account, events: seq<Event>)
    ensures EpochsTell(account, events)
  {
    if |events| > 0 {
      hide WorkStep;
      var front, e := events[..|events| - 1], events[|events| - 1];
      RunEpochs(account, front);
      var s := Run(account, front);
      if e.Work? {
        WorkKeepsJob(s, e.ok);
      }
    }
  }

  lemma WorkKeepsJob(s: System, ok: bool)
    ensures var t := WorkStep(s, ok);
      && t.session.account == s.session.account && t.session.epoch == s.session.epoch
      && (!t.worker.Idle? ==> !s.worker.Idle? && t.worker.job == s.worker.job)
  {
  }

  /** In every run, a message is acknowledged exactly when its turn comes, on the session it was polled in, if the
      account was not switched since, there is a socket and it obliges; a socket that does not is given up. */
  lemma AcknowledgesExactly(account: Account, events: seq<Event>, ok: bool)
    requires Run(account, events).worker.Acknowledge?
    ensures var s, t, job := Run(account, events), Run(account, events + [Work(ok)]), Run(account, events).worker.job;
      var asked := Unswitched(account, events) && s.session.nim.Some?;
      && Fits(s.worker) && t.db == s.db
      && t.acked == (if asked && ok then s.acked + {(job.account, job.packet.messages[s.worker.i].id)} else s.acked)
      && t.session == (if asked && !ok then s.session.(nim := None) else s.session)
  {
    RunEpochs(account, events);
    MarkedIsAcknowledged(account, events);
    assert (events + [Work(ok)])[..|events|] == events;
    hide Unswitched;
  }

  /** In every run, after an error the socket is given up exactly if the account was not switched since the packet was
      polled, and nothing else changes. */
  lemma GivesUpExactly(account: Account, events: seq<Event>, ok: bool)
    requires Run(account, events).worker.Failing?
    ensures var s, t := Run(account, events), Run(account, events + [Work(ok)]);
      && t.worker == Idle && t.db == s.db && t.acked == s.acked
      && t.session == if Unswitched(account, events) then s.session.(nim := None) else s.session
  {
    RunEpochs(account, events);
    assert (events + [Work(ok)])[..|events|] == events;
    hide Unswitched;
  }

  /** A message is marked as acknowledged only behind its acknowledgement. */
  ghost predicate Marked(s: System) {
    && Fits(s.worker)
    && (s.worker.MarkAcknowledged? ==>
          (s.worker.job.account, s.worker.job.packet.messages[s.worker.i].id) in s.acked)
  }

  lemma StepMarks(s: System, e: Event)
    requires Marked(s)
    ensures Marked(Step(s, e))
  {
    if e.Work? && !s.worker.Idle? {
      BlockDone(s, e.ok);
    }
  }

  /** In every run, whenever the worker is about to mark a message as acknowledged, it is. */
  lemma {:induction false} MarkedIsAcknowledged(account: Account, events: seq<Event>)
    ensures Marked(Run(account, events))
  {
    if |events| > 0 {
      hide Step, Marked;
      MarkedIsAcknowledged(account, events[..|events| - 1]);
      StepMarks(Run(account, events[..|events| - 1]), events[|events| - 1]);
    } else {
      assert Marked(Initial(account));
    }
  }

  lemma OnlySavingMovesCursors(s: System, e: Event)
    requires Step(s, e).db.cursors != s.db.cursors
    ensures e == Work(true) && s.worker.Save? && s.worker.job.packet.SyncDone?
    ensures Step(s, e).db == SavingCursor(s.db, s.worker.job.account, s.worker.job.packet.cursor)
  {
  }

  /** A cursor is saved only for a packet before which everything polled from the same socket was handled. */
  lemma CursorFollowsHandling(account: Account, events: seq<Event>, e: Event)
    requires Step(Run(account, events), e).db.cursors != Run(account, events).db.cursors
    ensures var s := Run(account, events);
      && s.worker.Save? && s.worker.job.socket.next >= 1
      && AllHandled(s.db, s.worker.job.account, s.worker.job.socket, s.worker.job.socket.next - 1)
  {
    RunKeeps(account, events);
    OnlySavingMovesCursors(Run(account, events), e);
  }

  // ---- With a server that sends what it announces ----

  /** Every message the server ever numbers for an account. */
  type History = Account -> set<Message>

  /** Numbers begin behind the cursor an account starts with. */
  ghost predicate Numbered(all: History) {
    forall account, m :: m in all(account) ==> m.number > 0
  }

  ghost predicate Delivered(stream: seq<Packet>, m: Message) {
    exists k :: 0 <= k < |stream| && stream[k].Messages? && m in stream[k].messages
  }

  /** The server announces a cursor only behind every message between the starting cursor and it. */
  ghost predicate Truthful(stream: seq<Packet>, start: nat, all: set<Message>) {
    forall k :: 0 <= k < |stream| && stream[k].SyncDone? ==>
      forall m :: m in all && start < m.number <= stream[k].cursor ==> Delivered(stream[..k], m)
  }

  ghost predicate Persisted(db: Db, account: Account, cursor: nat, all: set<Message>) {
    forall m :: m in all && m.number <= cursor ==> m.id in Ingested(db, account)
  }

  /** The messages the packet in work announces, as far as they came in packets lost before it, are stored all
      the same. */
  ghost predicate LostIsStored(db: Db, job: Job, all: set<Message>)
    requires job.packet.SyncDone? && job.socket.start.Some? && 1 <= job.socket.next <= |job.socket.stream|
  {
    forall k :: 0 <= k < job.socket.next - 1 && k in job.socket.lost && job.socket.stream[k].Messages? ==>
      forall m :: m in job.socket.stream[k].messages && m in all ==>
        job.socket.start.value < m.number <= job.packet.cursor ==> m.id in Ingested(db, job.account)
  }

  /** Behind a truthful server, the cursor about to be saved covers only stored messages exactly if whatever was
      lost on the way to it is stored. */
  lemma SavedExactly(db: Db, job: Job, all: History)
    requires job.packet.SyncDone? && job.socket.start.Some? && Synced(db, job.account, job.socket, all)
    requires 1 <= job.socket.next <= |job.socket.stream| && job.packet == job.socket.stream[job.socket.next - 1]
    requires AllHandled(db, job.account, job.socket, job.socket.next - 1)
    ensures Persisted(db, job.account, job.packet.cursor, all(job.account)) <==> LostIsStored(db, job, all(job.account))
  {
    var at := job.socket.next - 1;
    if LostIsStored(db, job, all(job.account)) {
      forall m | m in all(job.account) && m.number <= job.packet.cursor
        ensures m.id in Ingested(db, job.account)
      {
        if m.number > job.socket.start.value {
          assert Delivered(job.socket.stream[..at], m);
          var k :| 0 <= k < at && job.socket.stream[k].Messages? && m in job.socket.stream[k].messages;
          assert k !in job.socket.lost ==> Handled(db, job.account, job.socket.stream[k]);
        }
      }
    }
  }

  // ---- Runs behind a truthful server ----

  /** When sync starts, the server is truthful from the saved cursor on. */
  ghost predicate Served(s: System, e: Event, all: History) {
    e == Poll(true) && s.session.nim.Some? && s.session.nim.value.start.None? ==>
      Truthful(s.session.nim.value.stream, Cursor(s.db, s.session.account), all(s.session.account))
  }

  ghost predicate ServedRun(account: Account, events: seq<Event>, all: History) {
    |events| == 0 ||
    var front := events[..|events| - 1];
    ServedRun(account, front, all) && Served(Run(account, front), events[|events| - 1], all)
  }

  predicate Saves(s: System, e: Event) {
    e == Work(true) && s.worker.Save? && s.worker.job.packet.SyncDone?
  }

  /** A save meets the condition above. */
  ghost predicate SavesSafely(s: System, e: Event, all: History) {
    Saves(s, e) ==>
      && s.worker.job.socket.start.Some? && 1 <= s.worker.job.socket.next <= |s.worker.job.socket.stream|
      && LostIsStored(s.db, s.worker.job, all(s.worker.job.account))
  }

  ghost predicate AllSavesSafe(account: Account, events: seq<Event>, all: History) {
    |events| == 0 ||
    var front := events[..|events| - 1];
    AllSavesSafe(account, front, all) && SavesSafely(Run(account, front), events[|events| - 1], all)
  }

  /** Every message at or below a saved cursor is stored. */
  ghost predicate CursorsHold(db: Db, all: History) {
    forall a :: Persisted(db, a, Cursor(db, a), all(a))
  }

  /** ... and has been all along. */
  ghost predicate CursorsAlwaysHold(account: Account, events: seq<Event>, all: History) {
    && CursorsHold(Run(account, events).db, all)
    && (|events| > 0 ==> CursorsAlwaysHold(account, events[..|events| - 1], all))
  }

  ghost predicate Synced(db: Db, account: Account, socket: Socket, all: History) {
    socket.start.Some? ==>
      && Persisted(db, account, socket.start.value, all(account))
      && Truthful(socket.stream, socket.start.value, all(account))
  }

  ghost predicate SocketsSynced(s: System, all: History) {
    && (s.session.nim.Some? ==> Synced(s.db, s.session.account, s.session.nim.value, all))
    && (!s.worker.Idle? ==>
          s.worker.job.socket.start.Some? && Synced(s.db, s.worker.job.account, s.worker.job.socket, all))
  }

  ghost predicate Honest(s: System, all: History) {
    CursorsHold(s.db, all) && SocketsSynced(s, all)
  }

  lemma PersistedGrows(db: Db, after: Db, all: History)
    requires DbGrows(db, after)
    ensures forall a, c: nat :: Persisted(db, a, c, all(a)) ==> Persisted(after, a, c, all(a))
  {
    forall a, c: nat | Persisted(db, a, c, all(a))
      ensures Persisted(after, a, c, all(a))
    {
      assert Ingested(db, a) <= Ingested(after, a);
    }
  }

  lemma SaveIsHonest(s: System, all: History)
    requires Inv(s) && Honest(s, all) && Saves(s, Work(true))
    ensures SocketsSynced(WorkStep(s, true), all)
    ensures CursorsHold(WorkStep(s, true).db, all) <==> SavesSafely(s, Work(true), all)
  {
    var job := s.worker.job;
    SavedExactly(s.db, job, all);
    hide Inv, LostIsStored;
    var after := SavingCursor(s.db, job.account, job.packet.cursor);
    PersistedGrows(s.db, after, all);
    PersistedGrows(after, s.db, all);
    hide Persisted, Truthful;
    assert Cursor(after, job.account) == job.packet.cursor;
    forall a | a != job.account
      ensures Persisted(after, a, Cursor(after, a), all(a))
    {
      assert Persisted(s.db, a, Cursor(s.db, a), all(a));
    }
  }

  lemma WorkGrows(s: System, ok: bool)
    requires !Saves(s, Work(ok))
    ensures DbGrows(s.db, WorkStep(s, ok).db) && WorkStep(s, ok).db.cursors == s.db.cursors
  {
  }

  lemma WorkIsHonest(s: System, ok: bool, all: History)
    requires Inv(s) && Honest(s, all) && !Saves(s, Work(ok))
    ensures Honest(WorkStep(s, ok), all)
  {
    WorkGrows(s, ok);
    PersistedGrows(s.db, WorkStep(s, ok).db, all);
    hide Inv, Persisted, Truthful, Ingesting, Journaling;
  }

  lemma StepIsHonest(s: System, e: Event, all: History)
    requires Inv(s) && Honest(s, all) && Served(s, e, all)
    ensures SocketsSynced(Step(s, e), all)
    ensures CursorsHold(Step(s, e).db, all) <==> SavesSafely(s, e, all)
  {
    if Saves(s, e) {
      hide Inv, Honest, SavesSafely, SocketsSynced, CursorsHold;
      SaveIsHonest(s, all);
    } else if e.Work? {
      WorkIsHonest(s, e.ok, all);
    } else {
      hide Inv, Persisted, Truthful, WorkStep;
      assert Step(s, e).db == s.db;
    }
  }

  /** In every run behind a truthful server, whatever is reconnected, switched, closed, lost or fails: every
      message at or below a saved cursor is stored, at all times, exactly if at each save the messages lost on
      the way to it were stored all the same. */
  lemma {:induction false} SavedCursorIsHonest(account: Account, events: seq<Event>, all: History)
    requires ServedRun(account, events, all) && Numbered(all)
    ensures CursorsAlwaysHold(account, events, all) <==> AllSavesSafe(account, events, all)
    ensures AllSavesSafe(account, events, all) ==> Honest(Run(account, events), all)
  {
    if |events| > 0 {
      hide Inv, Step, SocketsSynced, CursorsHold, Served, SavesSafely;
      var front := events[..|events| - 1];
      SavedCursorIsHonest(account, front, all);
      if AllSavesSafe(account, front, all) {
        RunKeeps(account, front);
        StepIsHonest(Run(account, front), events[|events| - 1], all);
      }
    }
  }

  // ---- Without losses ----

  predicate Lossless(s: System) {
    && (s.session.nim.Some? ==> s.session.nim.value.lost == {})
    && (!s.worker.Idle? ==> s.worker.job.socket.lost == {} && s.worker.job.socket.start.Some?)
  }

  lemma StepLossless(s: System, e: Event)
    requires Lossless(s) && !e.Lose?
    ensures Lossless(Step(s, e))
  {
  }

  lemma {:induction false} RunLossless(account: Account, events: seq<Event>, all: History)
    requires forall e :: e in events ==> !e.Lose?
    ensures Lossless(Run(account, events)) && AllSavesSafe(account, events, all)
  {
    if |events| > 0 {
      hide Step;
      var front := events[..|events| - 1];
      RunLossless(account, front, all);
      StepLossless(Run(account, front), events[|events| - 1]);
      RunKeeps(account, front);
    }
  }

  /** If no packet is lost, every message at or below a saved cursor is stored. */
  lemma NothingLostNothingMissed(account: Account, events: seq<Event>, all: History, a: Account, m: Message)
    requires ServedRun(account, events, all) && Numbered(all)
    requires forall e :: e in events ==> !e.Lose?
    requires m in all(a) && m.number <= Cursor(Run(account, events).db, a)
    ensures m.id in Ingested(Run(account, events).db, a)
  {
    RunLossless(account, events, all);
    SavedCursorIsHonest(account, events, all);
    assert Persisted(Run(account, events).db, a, Cursor(Run(account, events).db, a), all(a));
  }

  /** An instance of a loss, however honest the server: a poll reads a packet behind the start of sync and is cut
      short; the cursor passes a message never stored, and the socket stays open. */
  lemma LossIsNotNoticed(m: Message)
    requires m.number == 1
    ensures var stream := [Unhandled, Messages([m]), SyncDone(1)];
      var s := Run("a", [Connect(stream), Poll(true), Work(true), Lose, Poll(true), Work(true), Work(true)]);
      && Truthful(stream, 0, {m})
      && Cursor(s.db, "a") == 1 && m.id !in Ingested(s.db, "a") && s.session.nim.Some?
  {
    var stream := [Unhandled, Messages([m]), SyncDone(1)];
    assert stream[..2][1] == stream[1];
    var events := [Connect(stream), Poll(true), Work(true), Lose, Poll(true), Work(true), Work(true)];
    OneByOne(events[..0], events[0], events[..1]);
    OneByOne(events[..1], events[1], events[..2]);
    OneByOne(events[..2], events[2], events[..3]);
    OneByOne(events[..3], events[3], events[..4]);
    OneByOne(events[..4], events[4], events[..5]);
    OneByOne(events[..5], events[5], events[..6]);
    OneByOne(events[..6], events[6], events);
    hide Run;
    var started, polled := Socket(0, stream, 1, {}, Some(0)), Socket(0, stream, 3, {1}, Some(0));
    assert Run("a", events[..2]).worker == Journal(Job("a", 1, started, Unhandled));
    assert Run("a", events[..3]).worker == Idle && Run("a", events[..3]).session.nim == Some(started);
    assert Run("a", events[..5]).worker == Journal(Job("a", 1, polled, SyncDone(1)));
    assert Run("a", events[..6]).worker == Save(Job("a", 1, polled, SyncDone(1)));
  }

  lemma OneByOne(front: seq<Event>, e: Event, events: seq<Event>)
    requires events == front + [e]
    ensures Run("a", events) == Step(Run("a", front), e)
  {
    assert events[..|events| - 1] == front;
  }
}
