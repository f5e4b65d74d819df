/** One authenticated NIM socket: serial numbers, replies matched among interleaved pushes, and the bounded
    queue the pushes wait in. */
module NimClient {
  import opened Bytes
  import opened NimHeader
  import NimMessage

  const MAX_MESSAGE: nat := 0x10_0000
  const MAX_PENDING: nat := 1024
  const FIRST_SERIAL: u16 := 10
  const LAST_SERIAL: u16 := 32767
  const SERIALS: nat := 32758

  datatype Error =
    | StaleCredentials | Timeout | Transport | Closed | InvalidResponse | Refused(code: u16) | Kicked | QueueFull

  datatype Delivery = Sent(serverId: seq<byte>) | Rejected(code: u16) | Unknown

  /** What the socket yields. */
  datatype Frame = Binary(bytes: seq<byte>) | Ping(flushed: bool) | Pong | Close | Text | End | Fault

  /** The credential check made behind a packet; `Waiting` when the deadline passes while it waits its turn. */
  datatype Check = Current | Stale | Waiting

  datatype Input = Input(frame: Frame, check: Check)

  datatype Reading = Got(packet: Packet, check: Check, rest: seq<Input>) | Failed(error: Error)

  /** The next packet off the socket. The inputs are what arrives before the deadline. */
  function NextPacket(inputs: seq<Input>): (r: Reading)
    ensures r.Got? ==> |r.rest| < |inputs|
  {
    if |inputs| == 0 then Failed(Timeout)
    else
      match inputs[0].frame
      case Binary(bytes) =>
        var p := Splitting(bytes, MAX_MESSAGE);
        if p.Err? then Failed(InvalidResponse)
        else if p.value.header.service == 2 && p.value.header.command == 5 then Failed(Kicked)
        else Got(p.value, inputs[0].check, inputs[1..])
      case Ping(flushed) => if flushed then NextPacket(inputs[1..]) else Failed(Transport)
      case Pong => NextPacket(inputs[1..])
      case Close => Failed(Closed)
      case Text => Failed(InvalidResponse)
      case End => Failed(Closed)
      case Fault => Failed(Transport)
  }

  method ReadPacket(inputs: seq<Input>) returns (r: Reading)
    ensures r == NextPacket(inputs)
  {
    var rest := inputs;
    while |rest| > 0
      invariant NextPacket(rest) == NextPacket(inputs)
      decreases |rest|
    {
      match rest[0].frame {
        case Binary(bytes) =>
          var p := DecodeMessage(bytes, MAX_MESSAGE);
          if p.Err? {
            return Failed(InvalidResponse);
          }
          if p.value.header.service == 2 && p.value.header.command == 5 {
            return Failed(Kicked);
          }
          return Got(p.value, rest[0].check, rest[1..]);
        case Ping(flushed) =>
          if !flushed {
            return Failed(Transport);
          }
        case Pong =>
        case Close => return Failed(Closed);
        case Text => return Failed(InvalidResponse);
        case End => return Failed(Closed);
        case Fault => return Failed(Transport);
      }
      rest := rest[1..];
    }
    r := Failed(Timeout);
  }

  datatype Queue = Queue(pending: seq<Packet>, bytes: nat)

  function Retained(q: Queue, p: Packet): Result<Queue, Error> {
    if |q.pending| >= MAX_PENDING || q.bytes + |p.body| > MAX_MESSAGE then Err(QueueFull)
    else Ok(Queue(q.pending + [p], q.bytes + |p.body|))
  }

  datatype Route = Exact(service: byte, command: byte, serial: u16) | Beat

  predicate Answers(route: Route, p: Packet) {
    match route
    case Exact(service, command, serial) =>
      p.header.service == service && p.header.command == command && p.header.serial == serial
    case Beat => p.header.service == 1 && p.header.command == 2
  }

  datatype Ending = Reply(packet: Packet) | Fail(error: Error)

  /** How a wait for a reply ended: the packets it read, and whether the last of them was dropped. */
  datatype Exchanged = Exchanged(queue: Queue, read: seq<Packet>, ending: Ending, dropped: bool)

  function Exchanging(q: Queue, read: seq<Packet>, route: Route, inputs: seq<Input>): Exchanged
    decreases |inputs|
  {
    match NextPacket(inputs)
    case Failed(e) => Exchanged(q, read, Fail(e), false)
    case Got(p, check, rest) =>
      if check.Stale? then Exchanged(q, read + [p], Fail(StaleCredentials), true)
      else if check.Waiting? then Exchanged(q, read + [p], Fail(Timeout), true)
      else if Answers(route, p) then Exchanged(q, read + [p], Reply(p), false)
      else
        match Retained(q, p)
        case Err(e) => Exchanged(q, read + [p], Fail(e), true)
        case Ok(next) => Exchanging(next, read + [p], route, rest)
  }

  datatype Sending = Flushed | Broken | Late

  datatype Outcome =
    | Handed(packet: Packet) | Nothing | Delivered(delivery: Delivery) | Answered(packet: Packet) | Done
    | Failure(error: Error)

  function CustomOutcome(ending: Ending, serial: u16, clientId: seq<byte>): Outcome {
    match ending
    case Fail(_) => Delivered(Unknown)
    case Reply(p) =>
      match NimMessage.Receipt(p, serial, clientId)
      case Ok(id) => Delivered(Sent(id))
      case Err(Rejected(code)) => Delivered(Rejected(code))
      case Err(_) => Delivered(Unknown)
  }

  function RecallOutcome(ending: Ending, server: seq<byte>): Outcome {
    match ending
    case Fail(_) => Delivered(Unknown)
    case Reply(p) => Delivered(if p.header.responseCode == 200 then Sent(server) else Rejected(p.header.responseCode))
  }

  function ManageOutcome(ending: Ending): Outcome {
    match ending
    case Fail(e) => Failure(e)
    case Reply(p) => if p.header.responseCode == 200 then Answered(p) else Failure(Refused(p.header.responseCode))
  }

  function BeatOutcome(ending: Ending, serial: u16): Outcome {
    match ending
    case Fail(e) => Failure(e)
    case Reply(p) =>
      if p.header.serial != serial || p.body != [] then Failure(InvalidResponse)
      else if p.header.responseCode != 200 then Failure(Refused(p.header.responseCode))
      else Done
  }

  function NotSent(sent: Sending): Error {
    if sent.Late? then Timeout else Transport
  }

  type Serial = x: u16 | FIRST_SERIAL <= x <= LAST_SERIAL witness FIRST_SERIAL

  function NextSerial(serial: Serial): Serial {
    if serial == LAST_SERIAL then FIRST_SERIAL else serial + 1
  }

  function Taking(q: Queue): (Queue, Packet)
    requires q.pending != []
  {
    (Queue(q.pending[1..], if q.bytes >= |q.pending[0].body| then q.bytes - |q.pending[0].body| else 0), q.pending[0])
  }

  /** `receive`: a waiting packet first, else one off the socket. Without a deadline of its own, waiting for the
      second credential check ends in its answer. */
  function Receiving(q: Queue, current: bool, inputs: seq<Input>): (Queue, Outcome) {
    if !current then (q, Failure(StaleCredentials))
    else if q.pending != [] then (Taking(q).0, Handed(Taking(q).1))
    else
      match NextPacket(inputs)
      case Failed(e) => (q, Failure(e))
      case Got(p, check, _) => (q, if check.Stale? then Failure(StaleCredentials) else Handed(p))
  }

  /** `poll`: `receive` under a second deadline, which may also pass while the credential check waits. */
  function Polling(q: Queue, current: bool, inputs: seq<Input>): (Queue, Outcome) {
    var (next, outcome) := Receiving(q, current, inputs);
    if outcome == Failure(Timeout) || (current && Interrupted(q, inputs)) then (next, Nothing) else (next, outcome)
  }

  predicate Interrupted(q: Queue, inputs: seq<Input>) {
    q.pending == [] && NextPacket(inputs).Got? && NextPacket(inputs).check.Waiting?
  }

  class Client {
    var pending: seq<Packet>
    var pendingBytes: nat
    var nextSerial: Serial

    ghost function View(): Queue
      reads this
    {
      Queue(pending, pendingBytes)
    }

    constructor ()
      ensures View() == Queue([], 0) && nextSerial == FIRST_SERIAL
    {
      pending, pendingBytes, nextSerial := [], 0, FIRST_SERIAL;
    }

    method TakeSerial() returns (serial: Serial)
      modifies this`nextSerial
      ensures serial == old(nextSerial) && nextSerial == NextSerial(serial)
    {
      serial := nextSerial;
      nextSerial := if serial == LAST_SERIAL then FIRST_SERIAL else serial + 1;
    }

    method Retain(p: Packet) returns (ok: bool)
      modifies this`pending, this`pendingBytes
      ensures ok == Retained(old(View()), p).Ok?
      ensures View() == if ok then Retained(old(View()), p).value else old(View())
    {
      if |pending| >= MAX_PENDING || pendingBytes + |p.body| > MAX_MESSAGE {
        return false;
      }
      pendingBytes := pendingBytes + |p.body|;
      pending := pending + [p];
      ok := true;
    }

    method Receive(current: bool, inputs: seq<Input>) returns (r: Outcome)
      modifies this`pending, this`pendingBytes
      ensures (View(), r) == Receiving(old(View()), current, inputs)
    {
      if !current {
        return Failure(StaleCredentials);
      }
      if |pending| > 0 {
        var packet := pending[0];
        pending := pending[1..];
        pendingBytes := if pendingBytes >= |packet.body| then pendingBytes - |packet.body| else 0;
        return Handed(packet);
      }
      var read := ReadPacket(inputs);
      match read {
        case Failed(e) => r := Failure(e);
        case Got(p, check, _) => r := if check.Stale? then Failure(StaleCredentials) else Handed(p);
      }
    }

    method Poll(current: bool, inputs: seq<Input>) returns (r: Outcome)
      modifies this`pending, this`pendingBytes
      ensures (View(), r) == Polling(old(View()), current, inputs)
    {
      var waited := |pending| == 0;
      r := Receive(current, inputs);
      if r == Failure(Timeout) {
        return Nothing;
      }
      if current && waited {
        var read := ReadPacket(inputs);
        if read.Got? && read.check.Waiting? {
          r := Nothing;
        }
      }
    }

    /** The loop shared by everything that waits for a reply. */
    method Await(route: Route, inputs: seq<Input>) returns (r: Ending)
      modifies this`pending, this`pendingBytes
      ensures var x := Exchanging(old(View()), [], route, inputs);
        View() == x.queue && r == x.ending
    {
      var rest := inputs;
      ghost var read: seq<Packet> := [];
      while true
        invariant Exchanging(View(), read, route, rest) == Exchanging(old(View()), [], route, inputs)
        decreases |rest|
      {
        var next := ReadPacket(rest);
        if next.Failed? {
          return Fail(next.error);
        }
        if next.check.Stale? {
          return Fail(StaleCredentials);
        }
        if next.check.Waiting? {
          return Fail(Timeout);
        }
        if Answers(route, next.packet) {
          return Reply(next.packet);
        }
        var ok := Retain(next.packet);
        if !ok {
          return Fail(QueueFull);
        }
        read := read + [next.packet];
        rest := next.rest;
      }
    }

    method SendCustom(current: bool, valid: bool, sent: Sending, scene: NimMessage.Scene, clientId: seq<byte>,
                      inputs: seq<Input>) returns (r: Outcome)
      modifies this
      ensures (View(), nextSerial, r) ==
        var call := Custom(current, valid, sent, scene, clientId, inputs);
        var (q, serial, _, outcome) := Calling(old(View()), old(nextSerial), call);
        (q, serial, outcome)
    {
      if !current {
        return Failure(StaleCredentials);
      }
      var serial := TakeSerial();
      if !valid {
        return Failure(InvalidResponse);
      }
      if !sent.Flushed? {
        return Delivered(Unknown);
      }
      var (service, command) := NimMessage.SendRoute(scene);
      var ending := Await(Exact(service, command, serial), inputs);
      match ending {
        case Fail(_) => r := Delivered(Unknown);
        case Reply(p) =>
          match NimMessage.Receipt(p, serial, clientId) {
            case Ok(id) => r := Delivered(Sent(id));
            case Err(Rejected(code)) => r := Delivered(Rejected(code));
            case Err(_) => r := Delivered(Unknown);
          }
      }
    }

    method RecallGroup(current: bool, valid: bool, sent: Sending, server: seq<byte>, inputs: seq<Input>)
      returns (r: Outcome)
      modifies this
      ensures (View(), nextSerial, r) ==
        var call := Recall(current, valid, sent, server, inputs);
        var (q, serial, _, outcome) := Calling(old(View()), old(nextSerial), call);
        (q, serial, outcome)
    {
      if !current {
        return Failure(StaleCredentials);
      }
      var serial := TakeSerial();
      if !valid {
        return Failure(InvalidResponse);
      }
      if !sent.Flushed? {
        return Delivered(Unknown);
      }
      var ending := Await(Exact(7, 13, serial), inputs);
      match ending {
        case Fail(_) => r := Delivered(Unknown);
        case Reply(p) =>
          r := Delivered(if p.header.responseCode == 200 then Sent(server) else Rejected(p.header.responseCode));
      }
    }

    method ExchangeManagement(current: bool, valid: bool, sent: Sending, service: byte, command: byte,
                              inputs: seq<Input>) returns (r: Outcome)
      modifies this
      ensures (View(), nextSerial, r) ==
        var call := Manage(current, valid, sent, service, command, inputs);
        var (q, serial, _, outcome) := Calling(old(View()), old(nextSerial), call);
        (q, serial, outcome)
    {
      var serial := TakeSerial();
      if !valid {
        return Failure(InvalidResponse);
      }
      if !current {
        return Failure(StaleCredentials);
      }
      if !sent.Flushed? {
        return Failure(NotSent(sent));
      }
      var ending := Await(Exact(service, command, serial), inputs);
      match ending {
        case Fail(e) => r := Failure(e);
        case Reply(p) =>
          r := if p.header.responseCode == 200 then Answered(p) else Failure(Refused(p.header.responseCode));
      }
    }

    /** `acknowledge` and `start_sync`: a frame is flushed and no reply awaited. */
    method Post(current: bool, valid: bool, sent: Sending) returns (r: Outcome)
      modifies this`nextSerial
      ensures (View(), nextSerial, r) ==
        var (q, serial, _, outcome) := Calling(old(View()), old(nextSerial), Push(current, valid, sent));
        (q, serial, outcome)
    {
      if !current {
        return Failure(StaleCredentials);
      }
      var serial := TakeSerial();
      if !valid {
        return Failure(InvalidResponse);
      }
      r := if sent.Flushed? then Done else Failure(NotSent(sent));
    }

    method Heartbeat(current: bool, sent: Sending, serial: u16, inputs: seq<Input>) returns (r: Outcome)
      modifies this
      ensures (View(), nextSerial, r) ==
        var (q, next, _, outcome) := Calling(old(View()), old(nextSerial), KeepAlive(current, sent, serial, inputs));
        (q, next, outcome)
    {
      if !current {
        return Failure(StaleCredentials);
      }
      if !sent.Flushed? {
        return Failure(NotSent(sent));
      }
      var ending := Await(Beat, inputs);
      r := BeatOutcome(ending, serial);
    }
  }

  // ---- Any sequence of calls ----

  datatype Call =
    | Receive(current: bool, inputs: seq<Input>)
    | Poll(current: bool, inputs: seq<Input>)
    | Custom(
        current: bool, valid: bool, sent: Sending, scene: NimMessage.Scene, clientId: seq<byte>, inputs: seq<Input>)
    | Recall(current: bool, valid: bool, sent: Sending, server: seq<byte>, inputs: seq<Input>)
    | Manage(current: bool, valid: bool, sent: Sending, service: byte, command: byte, inputs: seq<Input>)
    | KeepAlive(current: bool, sent: Sending, serial: u16, inputs: seq<Input>)
    | Push(current: bool, valid: bool, sent: Sending)

  /** What became of the packets a call read. */
  datatype Trace = Trace(read: seq<Packet>, replied: bool, dropped: bool)

  const QUIET: Trace := Trace([], false, false)

  predicate TakesSerial(call: Call) {
    match call
    case Custom(current, _, _, _, _, _) => current
    case Recall(current, _, _, _, _) => current
    case Manage(_, _, _, _, _, _) => true
    case Push(current, _, _) => current
    case _ => false
  }

  predicate Waits(call: Call) {
    match call
    case Custom(current, valid, sent, _, _, _) => current && valid && sent.Flushed?
    case Recall(current, valid, sent, _, _) => current && valid && sent.Flushed?
    case Manage(current, valid, sent, _, _, _) => current && valid && sent.Flushed?
    case KeepAlive(current, sent, _, _) => current && sent.Flushed?
    case _ => false
  }

  function RouteOf(call: Call, serial: Serial): Route
    requires Waits(call)
  {
    match call
    case Custom(_, _, _, scene, _, _) => Exact(NimMessage.SendRoute(scene).0, NimMessage.SendRoute(scene).1, serial)
    case Recall(_, _, _, _, _) => Exact(7, 13, serial)
    case Manage(_, _, _, service, command, _) => Exact(service, command, serial)
    case KeepAlive(_, _, _, _) => Beat
  }

  function OutcomeOf(call: Call, serial: Serial, ending: Ending): Outcome
    requires Waits(call)
  {
    match call
    case Custom(_, _, _, _, clientId, _) => CustomOutcome(ending, serial, clientId)
    case Recall(_, _, _, server, _) => RecallOutcome(ending, server)
    case Manage(_, _, _, _, _, _) => ManageOutcome(ending)
    case KeepAlive(_, _, own, _) => BeatOutcome(ending, own)
  }

  /** A call that ends before it waits for anything. */
  function Early(call: Call): Outcome
    requires !Waits(call) && !call.Receive? && !call.Poll?
  {
    match call
    case Custom(current, valid, _, _, _, _) =>
      if !current then Failure(StaleCredentials) else if !valid then Failure(InvalidResponse) else Delivered(Unknown)
    case Recall(current, valid, _, _, _) =>
      if !current then Failure(StaleCredentials) else if !valid then Failure(InvalidResponse) else Delivered(Unknown)
    case Manage(current, valid, sent, _, _, _) =>
      if !valid then Failure(InvalidResponse)
      else if !current then Failure(StaleCredentials)
      else Failure(NotSent(sent))
    case KeepAlive(current, sent, _, _) => if !current then Failure(StaleCredentials) else Failure(NotSent(sent))
    case Push(current, valid, sent) =>
      if !current then Failure(StaleCredentials)
      else if !valid then Failure(InvalidResponse)
      else if sent.Flushed? then Done
      else Failure(NotSent(sent))
  }

  function ReceiveTrace(q: Queue, current: bool, inputs: seq<Input>, dropped: bool): Trace {
    if current && q.pending == [] && NextPacket(inputs).Got? then Trace([NextPacket(inputs).packet], false, dropped)
    else QUIET
  }

  function Calling(q: Queue, serial: Serial, call: Call): (Queue, Serial, Trace, Outcome) {
    if call.Receive? then
      var (next, outcome) := Receiving(q, call.current, call.inputs);
      (next, serial, ReceiveTrace(q, call.current, call.inputs, !outcome.Handed?), outcome)
    else if call.Poll? then
      var (next, outcome) := Polling(q, call.current, call.inputs);
      (next, serial, ReceiveTrace(q, call.current, call.inputs, !outcome.Handed?), outcome)
    else
      var after := if TakesSerial(call) then NextSerial(serial) else serial;
      if !Waits(call) then (q, after, QUIET, Early(call))
      else
        var x := Exchanging(q, [], RouteOf(call, serial), call.inputs);
        (x.queue, after, Trace(x.read, x.ending.Reply?, x.dropped), OutcomeOf(call, serial, x.ending))
  }

  /** `read` holds every packet taken off the socket, `replies` and `dropped` the positions of those matched to a
      call and of those lost, `handed` what was handed out, and `serials` every serial given out. */
  datatype System = System(
    queue: Queue, next: Serial, read: seq<Packet>, replies: set<nat>, dropped: set<nat>, handed: seq<Packet>,
    serials: seq<Serial>)

  function Initial(): System {
    System(Queue([], 0), FIRST_SERIAL, [], {}, {}, [], [])
  }

  function Step(s: System, call: Call): System {
    var (queue, next, trace, outcome) := Calling(s.queue, s.next, call);
    var read := s.read + trace.read;
    System(queue, next, read,
           if trace.replied then s.replies + {PositionOfLast(read)} else s.replies,
           if trace.dropped then s.dropped + {PositionOfLast(read)} else s.dropped,
           if outcome.Handed? then s.handed + [outcome.packet] else s.handed,
           if TakesSerial(call) then s.serials + [s.next] else s.serials)
  }

  function PositionOfLast(read: seq<Packet>): nat {
    if |read| == 0 then 0 else |read| - 1
  }

  function Run(calls: seq<Call>): System {
    if |calls| == 0 then Initial() else Step(Run(calls[..|calls| - 1]), calls[|calls| - 1])
  }

  // ---- The queue ----

  function Bodies(packets: seq<Packet>): nat {
    if |packets| == 0 then 0 else Bodies(packets[..|packets| - 1]) + |packets[|packets| - 1].body|
  }

  ghost predicate Sized(q: Queue) {
    q.bytes == Bodies(q.pending) <= MAX_MESSAGE && |q.pending| <= MAX_PENDING
  }

  lemma {:induction false} BodiesOfRest(packets: seq<Packet>)
    requires |packets| > 0
    ensures Bodies(packets) == |packets[0].body| + Bodies(packets[1..])
  {
    if |packets| > 1 {
      BodiesOfRest(packets[..|packets| - 1]);
      assert packets[..|packets| - 1][1..] == packets[1..][..|packets[1..]| - 1];
    }
  }

  lemma RetainedIsSized(q: Queue, p: Packet)
    requires Sized(q) && Retained(q, p).Ok?
    ensures Sized(Retained(q, p).value)
  {
    assert (q.pending + [p])[..|q.pending|] == q.pending;
  }

  /** What a wait for a reply did: it kept everything it read but the last packet, in order. */
  ghost predicate Keeps(q: Queue, read: seq<Packet>, route: Route, x: Exchanged, kept: seq<Packet>) {
    && x.queue.pending == q.pending + kept
    && (forall p :: p in kept ==> !Answers(route, p))
    && (match x.ending
        case Reply(p) => x.read == read + kept + [p] && Answers(route, p) && !x.dropped
        case Fail(_) =>
          if x.dropped then |x.read| == |read + kept| + 1 && x.read[..|read + kept|] == read + kept
          else x.read == read + kept)
  }

  lemma {:induction false} ExchangeKeeps(q: Queue, read: seq<Packet>, route: Route, inputs: seq<Input>)
    returns (kept: seq<Packet>)
    requires Sized(q)
    ensures Keeps(q, read, route, Exchanging(q, read, route, inputs), kept)
    ensures Sized(Exchanging(q, read, route, inputs).queue)
    decreases |inputs|
  {
    hide Splitting, NextPacket, Bodies;
    var next := NextPacket(inputs);
    if next.Got? && next.check.Current? && !Answers(route, next.packet) && Retained(q, next.packet).Ok? {
      RetainedIsSized(q, next.packet);
      var after := Retained(q, next.packet).value;
      var more := ExchangeKeeps(after, read + [next.packet], route, next.rest);
      kept := [next.packet] + more;
      Associate(q.pending, [next.packet], more);
      Associate(read, [next.packet], more);
    } else {
      kept := [];
      assert q.pending + [] == q.pending && read + [] == read;
    }
  }

  // ---- Nothing is lost or reordered ----

  /** `s` without the packets at the positions `gone`. */
  function Without(s: seq<Packet>, gone: set<nat>): seq<Packet> {
    if |s| == 0 then []
    else Without(s[..|s| - 1], gone) + if |s| - 1 in gone then [] else [s[|s| - 1]]
  }

  lemma {:induction false} WithoutSame(s: seq<Packet>, a: set<nat>, b: set<nat>)
    requires forall i: nat :: i < |s| ==> (i in a <==> i in b)
    ensures Without(s, a) == Without(s, b)
  {
    if |s| > 0 {
      WithoutSame(s[..|s| - 1], a, b);
    }
  }

  lemma {:induction false} WithoutMore(s: seq<Packet>, more: seq<Packet>, gone: set<nat>)
    requires forall i :: i in gone ==> i < |s|
    ensures Without(s + more, gone) == Without(s, gone) + more
  {
    if |more| == 0 {
      assert s + more == s;
      assert Without(s, gone) + more == Without(s, gone);
    } else {
      var front := more[..|more| - 1];
      WithoutMore(s, front, gone);
      assert (s + more)[..|s + more| - 1] == s + front;
      Associate(Without(s, gone), front, [more[|more| - 1]]);
      assert more == front + [more[|more| - 1]];
    }
  }

  /** The packets `more` arrived; all but the last were kept, and the last was matched or lost. */
  lemma WithoutLast(s: seq<Packet>, more: seq<Packet>, gone: set<nat>)
    requires |more| > 0 && forall i :: i in gone ==> i < |s|
    ensures Without(s + more, gone + {|s + more| - 1}) == Without(s, gone) + more[..|more| - 1]
  {
    var front := more[..|more| - 1];
    assert (s + more)[..|s + more| - 1] == s + front;
    WithoutMore(s, front, gone);
    WithoutSame(s + front, gone, gone + {|s + more| - 1});
  }

  ghost predicate Balanced(s: System) {
    && (forall i :: i in s.replies + s.dropped ==> i < |s.read|)
    && s.handed + s.queue.pending == Without(s.read, s.replies + s.dropped)
    && s.replies !! s.dropped
    && Sized(s.queue)
  }

  lemma TakingBalances(s: System, t: System)
    requires Balanced(s) && s.queue.pending != []
    requires t == s.(queue := Taking(s.queue).0, handed := s.handed + [Taking(s.queue).1])
    ensures Balanced(t)
  {
    BodiesOfRest(s.queue.pending);
    assert s.queue.pending == [s.queue.pending[0]] + s.queue.pending[1..];
    Associate(s.handed, [s.queue.pending[0]], s.queue.pending[1..]);
  }

  lemma ArrivalBalances(s: System, p: Packet, dropped: bool, t: System)
    requires Balanced(s) && s.queue.pending == []
    requires t.queue == s.queue && t.read == s.read + [p] && t.replies == s.replies
    requires t.dropped == (if dropped then s.dropped + {|s.read|} else s.dropped)
    requires t.handed == (if dropped then s.handed else s.handed + [p])
    ensures Balanced(t)
  {
    var gone := s.replies + s.dropped;
    assert s.handed + [] == s.handed && t.handed + [] == t.handed;
    if dropped {
      WithoutLast(s.read, [p], gone);
      assert t.replies + t.dropped == gone + {|s.read|};
      assert Without(s.read, gone) + [] == Without(s.read, gone);
    } else {
      WithoutMore(s.read, [p], gone);
    }
  }

  lemma ReceiveBalances(s: System, call: Call)
    requires Balanced(s) && (call.Receive? || call.Poll?)
    ensures Balanced(Step(s, call))
  {
    hide NextPacket, Balanced, Sized, Without;
    var t := Step(s, call);
    assert s.read + [] == s.read;
    if call.current && s.queue.pending != [] {
      TakingBalances(s, t);
    } else if call.current && NextPacket(call.inputs).Got? {
      var p := NextPacket(call.inputs).packet;
      ArrivalBalances(s, p, !Calling(s.queue, s.next, call).3.Handed?, t);
    } else {
      assert t == s;
    }
  }

  lemma WaitBalances(s: System, call: Call)
    requires Balanced(s) && Waits(call)
    ensures Balanced(Step(s, call))
  {
    hide Exchanging, Without, OutcomeOf, Sized, RouteOf;
    var x := Exchanging(s.queue, [], RouteOf(call, s.next), call.inputs);
    var kept := ExchangeKeeps(s.queue, [], RouteOf(call, s.next), call.inputs);
    assert !OutcomeOf(call, s.next, x.ending).Handed? by { NeverHands(call, s.next, x.ending); }
    var t := Step(s, call);
    var gone := s.replies + s.dropped;
    assert [] + kept == kept;
    Associate(s.handed, s.queue.pending, kept);
    if x.ending.Reply? || x.dropped {
      WithoutLast(s.read, x.read, gone);
      assert x.read[..|x.read| - 1] == kept;
      assert t.replies + t.dropped == gone + {|s.read + x.read| - 1};
    } else {
      WithoutMore(s.read, x.read, gone);
    }
  }

  lemma NeverHands(call: Call, serial: Serial, ending: Ending)
    requires Waits(call)
    ensures !OutcomeOf(call, serial, ending).Handed?
  {
  }

  lemma StepBalances(s: System, call: Call)
    requires Balanced(s)
    ensures Balanced(Step(s, call))
  {
    if call.Receive? || call.Poll? {
      ReceiveBalances(s, call);
    } else if Waits(call) {
      WaitBalances(s, call);
    } else {
      assert s.read + [] == s.read;
    }
  }

  /** In every run, what was handed out followed by what still waits is what was read off the socket, in order,
      without the matched replies and the packets lost; and the queue is as large as its packets, at most
      1 MiB and 1024 packets. */
  lemma {:induction false} RunBalances(calls: seq<Call>)
    ensures Balanced(Run(calls))
  {
    if |calls| > 0 {
      hide Balanced, Step;
      RunBalances(calls[..|calls| - 1]);
      StepBalances(Run(calls[..|calls| - 1]), calls[|calls| - 1]);
    }
  }

  function OutcomeIn(s: System, call: Call): Outcome {
    Calling(s.queue, s.next, call).3
  }

  /** The call did not fail, except for a receive that timed out, and the fate of a message is known. */
  predicate Fine(call: Call, outcome: Outcome) {
    && outcome != Delivered(Unknown)
    && (outcome.Failure? ==> (call.Receive? || call.Poll?) && outcome.error == Timeout)
  }

  /** No poll's deadline passes inside its credential check. */
  predicate Smooth(s: System, call: Call) {
    call.Poll? && call.current ==> !Interrupted(s.queue, call.inputs)
  }

  /** A fine call loses a packet exactly if it is a poll whose deadline passes inside its credential check. */
  lemma FineLosesExactly(s: System, call: Call)
    requires Balanced(s) && Fine(call, OutcomeIn(s, call))
    ensures s.dropped <= Step(s, call).dropped
    ensures Step(s, call).dropped == s.dropped <==> Smooth(s, call)
  {
    hide NextPacket, Exchanging, Sized, Without;
    if Waits(call) {
      var kept := ExchangeKeeps(s.queue, [], RouteOf(call, s.next), call.inputs);
    } else if !Smooth(s, call) {
      assert |s.read| in Step(s, call).dropped;
    }
  }

  predicate AllFine(calls: seq<Call>) {
    |calls| == 0 ||
    var front := calls[..|calls| - 1];
    AllFine(front) && Fine(calls[|calls| - 1], OutcomeIn(Run(front), calls[|calls| - 1]))
  }

  predicate AllSmooth(calls: seq<Call>) {
    |calls| == 0 ||
    (AllSmooth(calls[..|calls| - 1]) && Smooth(Run(calls[..|calls| - 1]), calls[|calls| - 1]))
  }

  /** As long as every call is fine, nothing is lost exactly if no poll's deadline passes inside its credential
      check; then what was read and is no reply was handed out or waits. */
  lemma {:induction false} NothingLost(calls: seq<Call>)
    requires AllFine(calls)
    ensures Run(calls).dropped == {} <==> AllSmooth(calls)
    ensures AllSmooth(calls) ==>
      Run(calls).handed + Run(calls).queue.pending == Without(Run(calls).read, Run(calls).replies)
  {
    RunBalances(calls);
    if |calls| > 0 {
      hide Step, Balanced, Smooth, Fine, OutcomeIn, Without;
      var front := calls[..|calls| - 1];
      NothingLost(front);
      RunBalances(front);
      FineLosesExactly(Run(front), calls[|calls| - 1]);
    }
    if AllSmooth(calls) {
      BalancedWithoutLoss(Run(calls));
    }
  }

  lemma BalancedWithoutLoss(s: System)
    requires Balanced(s) && s.dropped == {}
    ensures s.handed + s.queue.pending == Without(s.read, s.replies)
  {
    assert s.replies + s.dropped == s.replies;
  }

  /** Such a poll reports nothing and leaves no trace of the packet it has read. */
  lemma InterruptedPollLoses(s: System, inputs: seq<Input>)
    requires Balanced(s) && Interrupted(s.queue, inputs)
    ensures var call, t := Poll(true, inputs), Step(s, Poll(true, inputs));
      && OutcomeIn(s, call) == Nothing && Fine(call, Nothing)
      && t.read == s.read + [NextPacket(inputs).packet] && |s.read| in t.dropped
      && t == s.(read := t.read, dropped := s.dropped + {|s.read|})
  {
    hide NextPacket;
  }

  // ---- Calls that do not get as far as waiting ----

  /** Whether a call has something to send at all. */
  predicate Sends(call: Call) {
    match call
    case Receive(_, _) => false
    case Poll(_, _) => false
    case KeepAlive(current, _, _, _) => current
    case _ => call.current && call.valid
  }

  /** A call on stale credentials or with invalid input sends nothing, and one whose send fails waits for nothing;
      neither touches the queue or the socket. A message that may have gone out is of unknown fate. A serial is used
      up by every call on current credentials that sends under one, and by every management call. */
  lemma UnsentExactly(s: System, call: Call)
    requires !call.Receive? && !call.Poll?
    ensures var t, outcome := Step(s, call), OutcomeIn(s, call);
      && t.serials == s.serials + (if call.Manage? || (!call.KeepAlive? && call.current) then [s.next] else [])
      && (Waits(call) <==> Sends(call) && call.sent.Flushed? && !call.Push?)
      && (!Waits(call) ==> t == s.(next := t.next, serials := t.serials))
      && (!call.current && (call.Manage? ==> call.valid) ==> outcome == Failure(StaleCredentials))
      && (!call.KeepAlive? && !call.valid && (call.current || call.Manage?) ==> outcome == Failure(InvalidResponse))
      && (Sends(call) && !call.sent.Flushed? ==>
            outcome == if call.Custom? || call.Recall? then Delivered(Unknown)
                       else if call.sent.Late? then Failure(Timeout)
                       else Failure(Transport))
      && (call.Push? && Sends(call) && call.sent.Flushed? ==> outcome == Done)
  {
    hide Exchanging;
    assert s.read + [] == s.read && s.serials + [] == s.serials;
  }

  // ---- Reading, in terms of the frames ----

  predicate Passed(frame: Frame) {
    frame == Pong || frame == Ping(true)
  }

  /** Pongs and answered pings are passed over; the first frame that is neither decides, and without one time runs
      out. */
  lemma {:induction false} NextPacketExactly(inputs: seq<Input>, k: nat)
    requires k <= |inputs| && forall i :: 0 <= i < k ==> Passed(inputs[i].frame)
    requires k < |inputs| ==> !Passed(inputs[k].frame)
    ensures k == |inputs| ==> NextPacket(inputs) == Failed(Timeout)
    ensures k < |inputs| ==>
      match inputs[k].frame
      case Binary(bytes) =>
        var p := Splitting(bytes, 0x10_0000);
        NextPacket(inputs) ==
          if p.Err? then Failed(InvalidResponse)
          else if p.value.header.service == 2 && p.value.header.command == 5 then Failed(Kicked)
          else Got(p.value, inputs[k].check, inputs[k + 1..])
      case Text => NextPacket(inputs) == Failed(InvalidResponse)
      case Close => NextPacket(inputs) == Failed(Error.Closed)
      case End => NextPacket(inputs) == Failed(Error.Closed)
      case _ => NextPacket(inputs) == Failed(Transport)
  {
    hide Splitting;
    if k > 0 {
      NextPacketExactly(inputs[1..], k - 1);
      assert k < |inputs| ==> inputs[1..][k..] == inputs[k + 1..];
    }
  }

  /** A packet behind which the credentials turn out stale is not handed out; a poll reports nothing when time runs
      out, be it in that check. Waiting packets come first, and nothing comes at all on stale credentials. */
  lemma ReceivesExactly(s: System, call: Call)
    requires call.Receive? || call.Poll?
    ensures var next, t := NextPacket(call.inputs), Step(s, call);
      var outcome := OutcomeIn(s, call);
      && t.next == s.next && t.serials == s.serials && t.replies == s.replies
      && (!call.current ==> outcome == Failure(StaleCredentials) && t == s)
      && (call.current && s.queue.pending != [] ==>
            && outcome == Handed(s.queue.pending[0]) && t.queue.pending == s.queue.pending[1..] && t.read == s.read)
      && (call.current && s.queue.pending == [] ==>
            && t.queue == s.queue
            && (next.Failed? ==>
                  && t.read == s.read
                  && outcome == if call.Poll? && next.error == Timeout then Nothing else Failure(next.error))
            && (next.Got? ==>
                  && t.read == s.read + [next.packet]
                  && outcome ==
                       (if next.check.Stale? then Failure(StaleCredentials)
                        else if call.Poll? && next.check.Waiting? then Nothing
                        else Handed(next.packet))))
  {
    hide NextPacket;
    assert s.read + [] == s.read;
  }

  /** A push is kept exactly while there are fewer than 1024 and their bodies stay within a mebibyte. */
  lemma RetainsExactly(q: Queue, p: Packet)
    requires Sized(q)
    ensures Retained(q, p).Ok? <==> |q.pending| < 1024 && Bodies(q.pending) + |p.body| <= 0x10_0000
    ensures Retained(q, p).Ok? ==> Retained(q, p).value.pending == q.pending + [p]
    ensures Retained(q, p).Err? ==> Retained(q, p) == Err(QueueFull)
  {
  }

  /** The packets that arrive, each with the credential check behind it, and how the socket then fails. */
  function Arrivals(inputs: seq<Input>): (seq<(Packet, Check)>, Error)
    decreases |inputs|
  {
    match NextPacket(inputs)
    case Failed(e) => ([], e)
    case Got(p, check, rest) =>
      var (more, e) := Arrivals(rest);
      ([(p, check)] + more, e)
  }

  /** The pushes waited past: the first `k` arrivals. */
  function Pushes(inputs: seq<Input>, k: nat): seq<Packet>
    requires k <= |Arrivals(inputs).0|
  {
    seq(k, i requires 0 <= i < k => Arrivals(inputs).0[i].0)
  }

  /** The i-th arrival is a push there is room for behind the pushes before it. */
  predicate Passes(q: Queue, route: Route, inputs: seq<Input>, i: nat)
    requires i < |Arrivals(inputs).0|
  {
    var (p, check) := Arrivals(inputs).0[i];
    && check.Current? && !Answers(route, p) && |q.pending| + i < 1024
    && q.bytes + Bodies(Pushes(inputs, i)) + |p.body| <= 0x10_0000
  }

  /** A wait queues the arrivals in order while they are pushes there is room for. The first that is not, or the
      failing socket, ends it: it is the reply, or the wait fails and drops it for what was wrong with it. */
  lemma {:induction false} WaitsExactly(q: Queue, read: seq<Packet>, route: Route, inputs: seq<Input>, k: nat)
    requires var arrivals := Arrivals(inputs).0;
      && k <= |arrivals| && (forall i :: 0 <= i < k ==> Passes(q, route, inputs, i))
      && (k < |arrivals| ==> !Passes(q, route, inputs, k))
    ensures var (arrivals, e) := Arrivals(inputs);
      var x := Exchanging(q, read, route, inputs);
      && x.queue.pending == q.pending + Pushes(inputs, k)
      && (k == |arrivals| ==> x.ending == Fail(e) && !x.dropped)
      && (k < |arrivals| ==>
            var (p, check) := arrivals[k];
            && x.ending == (if check.Stale? then Fail(StaleCredentials)
                            else if check.Waiting? then Fail(Timeout)
                            else if Answers(route, p) then Reply(p)
                            else Fail(QueueFull))
            && (x.dropped <==> x.ending.Fail?))
    decreases k
  {
    hide NextPacket, Answers, Exchanging, Passes, Arrivals;
    if k == 0 {
      WaitEnds(q, read, route, inputs);
    } else {
      var next := NextPacket(inputs);
      assert Passes(q, route, inputs, 0);
      ArrivalFirst(inputs);
      PushedOne(q, route, inputs, next);
      WaitGoesOn(q, read, route, inputs);
      var after := Retained(q, next.packet).value;
      WaitsExactly(after, read + [next.packet], route, next.rest, k - 1);
      assert Pushes(inputs, k) == [next.packet] + Pushes(next.rest, k - 1);
      Associate(q.pending, [next.packet], Pushes(next.rest, k - 1));
    }
  }

  lemma ArrivalFirst(inputs: seq<Input>)
    ensures NextPacket(inputs).Got? <==> Arrivals(inputs).0 != []
    ensures Arrivals(inputs).0 != [] ==> Arrivals(inputs).0[0] == (NextPacket(inputs).packet, NextPacket(inputs).check)
    ensures NextPacket(inputs).Failed? ==> Arrivals(inputs).1 == NextPacket(inputs).error
  {
    hide NextPacket;
  }

  lemma WaitGoesOn(q: Queue, read: seq<Packet>, route: Route, inputs: seq<Input>)
    requires |Arrivals(inputs).0| > 0 && Passes(q, route, inputs, 0)
    ensures var next := NextPacket(inputs);
      && next.Got? && Retained(q, next.packet).Ok?
      && Retained(q, next.packet).value.pending == q.pending + [next.packet]
      && Exchanging(q, read, route, inputs) ==
         Exchanging(Retained(q, next.packet).value, read + [next.packet], route, next.rest)
  {
    hide NextPacket, Answers, Arrivals, Bodies;
    ArrivalFirst(inputs);
    assert Pushes(inputs, 0) == [] && Bodies([]) == 0 by { NoBodies(); }
  }

  lemma WaitEnds(q: Queue, read: seq<Packet>, route: Route, inputs: seq<Input>)
    requires var arrivals := Arrivals(inputs).0; |arrivals| > 0 ==> !Passes(q, route, inputs, 0)
    ensures var (arrivals, e) := Arrivals(inputs);
      var x := Exchanging(q, read, route, inputs);
      && x.queue.pending == q.pending + Pushes(inputs, 0)
      && (arrivals == [] ==> x.ending == Fail(e) && !x.dropped)
      && (arrivals != [] ==>
            var (p, check) := arrivals[0];
            && x.ending == (if check.Stale? then Fail(StaleCredentials)
                            else if check.Waiting? then Fail(Timeout)
                            else if Answers(route, p) then Reply(p)
                            else Fail(QueueFull))
            && (x.dropped <==> x.ending.Fail?))
  {
    hide NextPacket, Answers, Arrivals, Bodies;
    ArrivalFirst(inputs);
    assert Pushes(inputs, 0) == [] && Bodies([]) == 0 by { NoBodies(); }
    assert q.pending + [] == q.pending;
  }

  /** Behind the first push the others arrive as before, and the room is what it left. */
  lemma PushedOne(q: Queue, route: Route, inputs: seq<Input>, next: Reading)
    requires next == NextPacket(inputs) && next.Got? && Passes(q, route, inputs, 0)
    ensures Retained(q, next.packet).Ok?
    ensures |Arrivals(inputs).0| == |Arrivals(next.rest).0| + 1 && Arrivals(inputs).1 == Arrivals(next.rest).1
    ensures forall i: nat :: i < |Arrivals(next.rest).0| ==>
      && Arrivals(inputs).0[i + 1] == Arrivals(next.rest).0[i]
      && (Passes(Retained(q, next.packet).value, route, next.rest, i) <==> Passes(q, route, inputs, i + 1))
  {
    hide NextPacket, Answers, Bodies;
    assert Pushes(inputs, 0) == [] && Bodies([]) == 0 by { NoBodies(); }
    var after := Retained(q, next.packet).value;
    forall i: nat | i < |Arrivals(next.rest).0|
      ensures Passes(after, route, next.rest, i) <==> Passes(q, route, inputs, i + 1)
    {
      PushedBodies(inputs, next, i);
    }
  }

  lemma NoBodies()
    ensures Bodies([]) == 0
  {
  }

  lemma PushedBodies(inputs: seq<Input>, next: Reading, i: nat)
    requires next == NextPacket(inputs) && next.Got? && i <= |Arrivals(next.rest).0|
    ensures i + 1 <= |Arrivals(inputs).0|
    ensures Bodies(Pushes(inputs, i + 1)) == |next.packet.body| + Bodies(Pushes(next.rest, i))
  {
    hide NextPacket;
    var all, rest := Pushes(inputs, i + 1), Pushes(next.rest, i);
    assert all == [next.packet] + rest;
    BodiesOfRest(all);
    assert all[1..] == rest;
  }

  // ---- Replies, in terms of the headers ----

  /** What the header of the reply to a call must say; a heartbeat is matched by its route alone. */
  predicate IsReplyTo(call: Call, serial: u16, h: Header) {
    match call
    case Custom(_, _, _, scene, _, _) =>
      (if scene == NimMessage.Group then h.service == 8 && h.command == 2 else h.service == 7 && h.command == 1)
      && h.serial == serial
    case Recall(_, _, _, _, _) => h.service == 7 && h.command == 13 && h.serial == serial
    case Manage(_, _, _, service, command, _) => h.service == service && h.command == command && h.serial == serial
    case KeepAlive(_, _, _, _) => h.service == 1 && h.command == 2
    case _ => false
  }

  /** What a reply means to its call. */
  ghost predicate Tells(call: Call, serial: u16, p: Packet, outcome: Outcome) {
    var code := p.header.responseCode;
    match call
    case Custom(_, _, _, _, clientId, _) =>
      var receipt := NimMessage.Receipt(p, serial, clientId);
      if code != 200 then outcome == Delivered(Rejected(code))
      else outcome == if receipt.Ok? then Delivered(Sent(receipt.value)) else Delivered(Unknown)
    case Recall(_, _, _, server, _) =>
      outcome == if code == 200 then Delivered(Sent(server)) else Delivered(Rejected(code))
    case Manage(_, _, _, _, _, _) => outcome == if code == 200 then Answered(p) else Failure(Refused(code))
    case KeepAlive(_, _, own, _) =>
      if p.header.serial != own || p.body != [] then outcome == Failure(InvalidResponse)
      else outcome == if code == 200 then Done else Failure(Refused(code))
    case _ => false
  }

  /** A call takes as its reply the first packet whose header has its route and the serial just handed out, and
      ends as that packet tells; nothing it passed over was such a packet. Without a reply the fate of a message is
      unknown, and other calls fail. */
  lemma FirstAnswerIsTaken(s: System, call: Call)
    requires Sized(s.queue) && Waits(call)
    ensures var (_, _, trace, outcome) := Calling(s.queue, s.next, call);
      var read := trace.read;
      && (trace.replied ==>
            && |read| > 0 && IsReplyTo(call, s.next, read[|read| - 1].header)
            && (forall i :: 0 <= i < |read| - 1 ==> !IsReplyTo(call, s.next, read[i].header))
            && Tells(call, s.next, read[|read| - 1], outcome))
      && (!trace.replied ==>
            && (forall i :: 0 <= i < |read| - (if trace.dropped then 1 else 0) ==>
                  !IsReplyTo(call, s.next, read[i].header))
            && (if call.Custom? || call.Recall? then outcome == Delivered(Unknown) else outcome.Failure?))
  {
    hide Exchanging, Sized;
    var kept := ExchangeKeeps(s.queue, [], RouteOf(call, s.next), call.inputs);
    var trace := Calling(s.queue, s.next, call).2;
    assert forall p: Packet :: Answers(RouteOf(call, s.next), p) <==> IsReplyTo(call, s.next, p.header);
    assert [] + kept == kept;
    if trace.replied || trace.dropped {
      assert forall i :: 0 <= i < |trace.read| - 1 ==> trace.read[i] in kept;
    } else {
      assert forall i :: 0 <= i < |trace.read| ==> trace.read[i] in kept;
    }
  }

  // ---- Serial numbers ----

  ghost predicate Numbered(s: System) {
    && s.next == FIRST_SERIAL + |s.serials| % SERIALS
    && forall i :: 0 <= i < |s.serials| ==> s.serials[i] == FIRST_SERIAL + i % SERIALS
  }

  lemma NextInCycle(n: nat)
    ensures NextSerial(FIRST_SERIAL + n % SERIALS) == FIRST_SERIAL + (n + 1) % SERIALS
  {
  }

  lemma StepNumbers(s: System, call: Call)
    requires Numbered(s)
    ensures Numbered(Step(s, call))
  {
    hide NextPacket, Exchanging, OutcomeOf, Receiving, Polling, Early, RouteOf;
    NextInCycle(|s.serials|);
  }

  lemma {:induction false} RunNumbers(calls: seq<Call>)
    ensures Numbered(Run(calls))
  {
    if |calls| > 0 {
      hide Step, Numbered;
      RunNumbers(calls[..|calls| - 1]);
      StepNumbers(Run(calls[..|calls| - 1]), calls[|calls| - 1]);
    }
  }

  lemma Apart(i: nat, j: nat)
    requires i < j < i + SERIALS
    ensures i % SERIALS != j % SERIALS
  {
  }

  /** Any 32,758 consecutive serials are distinct, and none is one of 1, 2 and 3, which the login and the
      heartbeats use. */
  lemma SerialsAreDistinct(calls: seq<Call>, i: nat, j: nat)
    requires i < j < |Run(calls).serials| && j - i < SERIALS
    ensures Run(calls).serials[i] != Run(calls).serials[j]
    ensures Run(calls).serials[i] !in {1, 2, 3}
  {
    RunNumbers(calls);
    Apart(i, j);
  }
}
