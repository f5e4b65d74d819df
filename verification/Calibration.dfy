/** The calibration recorder: what it may export, and only after what it changed was read back as restored. */
module Calibration {
  import opened Bytes

  /** JSON texts stand for JSON values. */
  type Json = string

  const WRITE_ROUTES: seq<string> := [
    "nim.sendCustomMsg", "/v1/group/message-rollback", "/v1/group/set-member-mute", "/v1/group/member-mute-cancel",
    "/v1/group/set-member-nickname", "nim.updateNickInTeam", "/v1/group/remove-group-member",
    "/v1/group/set-group-mute", "/v1/group/add-notice", "/v1/group/notice-opt"]

  predicate IsWrite(route: string) {
    route in WRITE_ROUTES
  }

  predicate RequiresRestoration(route: string) {
    route in ["/v1/group/set-member-mute", "/v1/group/member-mute-cancel", "/v1/group/set-member-nickname",
              "nim.updateNickInTeam", "/v1/group/set-group-mute", "/v1/group/add-notice", "/v1/group/notice-opt"]
  }

  /** Routes that change the same thing share one family. */
  function Family(route: string): string {
    if route in ["/v1/group/set-member-mute", "/v1/group/member-mute-cancel"] then "member-mute"
    else if route in ["/v1/group/set-member-nickname", "nim.updateNickInTeam"] then "member-rename"
    else if route in ["/v1/group/add-notice", "/v1/group/notice-opt"] then "group-notice"
    else if route == "/v1/group/set-group-mute" then "group-mute"
    else route
  }

  function StateKey(route: string, identity: Json): string {
    Family(route) + ":" + identity
  }

  /** Exactly these pairs of routes that need restoring change the same thing; any other two are apart. */
  lemma FamiliesExactly(route: string, other: string)
    requires RequiresRestoration(route) && RequiresRestoration(other)
    ensures Family(route) == Family(other) <==>
      || route == other
      || {route, other} == {"/v1/group/set-member-mute", "/v1/group/member-mute-cancel"}
      || {route, other} == {"/v1/group/set-member-nickname", "nim.updateNickInTeam"}
      || {route, other} == {"/v1/group/add-notice", "/v1/group/notice-opt"}
    ensures Family(route) in {"member-mute", "member-rename", "group-notice", "group-mute"}
  {
    FamilyNames();
    RoutesDiffer();
  }

  lemma FamilyNames()
    ensures Family("/v1/group/set-member-mute") == Family("/v1/group/member-mute-cancel") == "member-mute"
    ensures Family("/v1/group/set-member-nickname") == Family("nim.updateNickInTeam") == "member-rename"
    ensures Family("/v1/group/add-notice") == Family("/v1/group/notice-opt") == "group-notice"
    ensures Family("/v1/group/set-group-mute") == "group-mute"
    ensures "member-mute" != "member-rename" && "member-mute" != "group-notice" && "member-mute" != "group-mute"
    ensures "member-rename" != "group-notice" && "member-rename" != "group-mute" && "group-notice" != "group-mute"
  {
    RoutesDiffer();
    assert |"member-mute"| == 11 && |"member-rename"| == 13 && |"group-notice"| == 12 && |"group-mute"| == 10;
  }

  /** The seven routes differ by their lengths, or in one place. */
  lemma RoutesDiffer()
    ensures |"/v1/group/set-member-mute"| == 25 && |"/v1/group/member-mute-cancel"| == 28
    ensures |"/v1/group/set-member-nickname"| == 29 && |"nim.updateNickInTeam"| == 20
    ensures |"/v1/group/add-notice"| == 20 && |"/v1/group/notice-opt"| == 20 && |"/v1/group/set-group-mute"| == 24
    ensures "/v1/group/add-notice"[0] == '/' && "/v1/group/notice-opt"[0] == '/' && "nim.updateNickInTeam"[0] == 'n'
    ensures "/v1/group/add-notice"[10] == 'a' && "/v1/group/notice-opt"[10] == 'n'
  {
  }

  lemma NoColons(family: string)
    requires family in {"member-mute", "member-rename", "group-notice", "group-mute"}
    ensures forall c :: c in family ==> c != ':'
  {
  }

  /** Two states are kept apart exactly if they are of routes of different families or of different identities. */
  lemma KeysExactly(route: string, identity: Json, other: string, otherIdentity: Json)
    requires RequiresRestoration(route) && RequiresRestoration(other)
    ensures StateKey(route, identity) == StateKey(other, otherIdentity) <==>
      Family(route) == Family(other) && identity == otherIdentity
  {
    FamiliesExactly(route, other);
    FamiliesExactly(other, other);
    NoColons(Family(route));
    NoColons(Family(other));
    hide Family, RequiresRestoration;
    if StateKey(route, identity) == StateKey(other, otherIdentity) {
      SplitAtColon(Family(route), identity, Family(other), otherIdentity);
    }
  }

  lemma SplitAtColon(f: string, a: string, g: string, b: string)
    requires (forall c :: c in f ==> c != ':') && (forall c :: c in g ==> c != ':')
    requires f + ":" + a == g + ":" + b
    ensures f == g && a == b
  {
    var s := f + ":" + a;
    assert s[..|f|] == f && s[|f|] == ':' && s[|f| + 1..] == a;
    assert s[..|g|] == g && s[|g|] == ':' && s[|g| + 1..] == b;
    assert forall k :: 0 <= k < |f| ==> s[k] in f;
    assert forall k :: 0 <= k < |g| ==> s[k] in g;
  }

  datatype Error = Active | Inactive | Capability | Finishing | NotFinalizing | Empty | NoCallbacks | NotRestored

  /** What is read out of a request and its answer. */
  datatype Capture = Capture(request: Json, transport: Json, business: Json, receipt: Json, at: string)

  datatype Operation = Operation(name: string, route: string, capture: Capture, state: Json)

  /** The state of an operation nobody has completed. */
  const CAPTURED: Json := "{\"captured\":true}"

  datatype Recorder = Recorder(
    active: bool, finishing: bool, capabilities: set<string>, operations: seq<Operation>, callbacks: seq<Json>,
    baselines: map<string, Json>, required: set<string>, observed: map<string, Json>)

  const RESET: Recorder := Recorder(false, false, {}, [], [], map[], {}, map[])

  function Starting(r: Recorder, capabilities: set<string>): (Recorder, Result<(), Error>) {
    if r.active then (r, Err(Active))
    else if capabilities == {} then (r, Err(Capability))
    else (RESET.(active := true, capabilities := capabilities), Ok(()))
  }

  function Cancelling(r: Recorder): (Recorder, Result<(), Error>) {
    if r.finishing then (r, Err(Finishing)) else (RESET, Ok(()))
  }

  predicate Allows(r: Recorder, capability: string) {
    r.active && !r.finishing && capability in r.capabilities
  }

  // ---- Operations and their names ----

  function TrimmedFront(s: string, c: char): string {
    if s != "" && s[0] == c then TrimmedFront(s[1..], c) else s
  }

  function TrimmedBack(s: string, c: char): string {
    if s != "" && s[|s| - 1] == c then TrimmedBack(s[..|s| - 1], c) else s
  }

  function Trimmed(s: string, c: char): string {
    TrimmedBack(TrimmedFront(s, c), c)
  }

  function Underscored(s: string): string {
    seq(|s|, i requires 0 <= i < |s| => if s[i] in {'/', '.', '-'} then '_' else s[i])
  }

  function Shown(n: nat): (s: string)
    ensures |s| > 0 && forall c :: c in s ==> '0' <= c <= '9'
  {
    if n < 10 then ['0' + n as char] else Shown(n / 10) + ['0' + (n % 10) as char]
  }

  /** The route with underscores, and the place of the operation. */
  function OperationName(route: string, ordinal: nat): string {
    var name := Trimmed(Underscored(Trimmed(route, '/')), '_');
    (if name == "" then "operation" else name) + "_" + Shown(ordinal)
  }

  function Recorded(operations: seq<Operation>, route: string, capture: Capture): seq<Operation> {
    operations + [Operation(OperationName(route, |operations| + 1), route, capture, CAPTURED)]
  }

  function CompletedOne(operation: Operation, receipt: Json, state: Json): Operation {
    operation.(capture := operation.capture.(receipt := receipt), state := state)
  }

  /** The last operation of the route gets its receipt and state. */
  function Completed(operations: seq<Operation>, route: string, receipt: Json, state: Json): seq<Operation> {
    if |operations| == 0 then []
    else
      var front, last := operations[..|operations| - 1], operations[|operations| - 1];
      if last.route == route then front + [CompletedOne(last, receipt, state)]
      else Completed(front, route, receipt, state) + [last]
  }

  /** What completing makes of the operations up to the one at `i`, with the others behind. */
  lemma CompletedFrom(operations: seq<Operation>, i: nat, route: string, receipt: Json, state: Json)
    requires i < |operations|
    ensures Completed(operations[..i + 1], route, receipt, state) + operations[i + 1..] ==
      if operations[i].route == route then operations[i := CompletedOne(operations[i], receipt, state)]
      else Completed(operations[..i], route, receipt, state) + operations[i..]
  {
    var front, last := operations[..i], operations[i];
    assert operations[..i + 1] == front + [last];
    assert operations[i..] == [last] + operations[i + 1..];
  }

  function Recording(r: Recorder, route: string, capture: Capture): Recorder {
    if r.active then r.(operations := Recorded(r.operations, route, capture)) else r
  }

  function Completing(r: Recorder, route: string, receipt: Json, state: Json): Recorder {
    if r.active then r.(operations := Completed(r.operations, route, receipt, state)) else r
  }

  function RecordingBaseline(r: Recorder, route: string, identity: Json, state: Json): Recorder {
    if !r.active || !RequiresRestoration(route) then r
    else
      var key := StateKey(route, identity);
      r.(required := r.required + {key},
         baselines := if key in r.baselines then r.baselines else r.baselines[key := state])
  }

  function RequiringBaseline(r: Recorder, route: string, identity: Json): Recorder {
    if r.active && RequiresRestoration(route) then r.(required := r.required + {StateKey(route, identity)}) else r
  }

  function Beginning(r: Recorder): (Recorder, Result<(), Error>) {
    if !r.active then (r, Err(Inactive))
    else if r.finishing then (r, Err(Finishing))
    else (r.(finishing := true, observed := map[]), Ok(()))
  }

  function Aborting(r: Recorder): Recorder {
    r.(finishing := false)
  }

  function RecordingRestored(r: Recorder, route: string, identity: Json, state: Json): Recorder {
    if !r.active || !RequiresRestoration(route) then r
    else r.(observed := r.observed[StateKey(route, identity) := state])
  }

  function RecordingCallbacks(r: Recorder, records: seq<Json>): Recorder {
    if r.active then r.(callbacks := r.callbacks + records) else r
  }

  predicate Restored(r: Recorder) {
    forall key :: key in r.required ==>
      key in r.baselines && key in r.observed && r.observed[key] == r.baselines[key]
  }

  function Exporting(r: Recorder): Result<(), Error> {
    if !r.active then Err(Inactive)
    else if !r.finishing then Err(NotFinalizing)
    else if r.operations == [] then Err(Empty)
    else if r.callbacks == [] then Err(NoCallbacks)
    else if (exists i :: 0 <= i < |r.operations| && IsWrite(r.operations[i].route)) && !Restored(r) then
      Err(NotRestored)
    else Ok(())
  }

  class DeveloperCalibrationRecorder {
    var active: bool
    var finishing: bool
    var capabilities: set<string>
    var operations: seq<Operation>
    var callbacks: seq<Json>
    var baselines: map<string, Json>
    var required: set<string>
    var observed: map<string, Json>

    ghost function View(): Recorder
      reads this
    {
      Recorder(active, finishing, capabilities, operations, callbacks, baselines, required, observed)
    }

    constructor ()
      ensures View() == RESET
    {
      active, finishing, capabilities, operations, callbacks := false, false, {}, [], [];
      baselines, required, observed := map[], {}, map[];
    }

    method Reset()
      modifies this
      ensures View() == RESET
    {
      active, finishing, capabilities, operations, callbacks := false, false, {}, [], [];
      baselines, required, observed := map[], {}, map[];
    }

    method Start(wanted: set<string>) returns (r: Result<(), Error>)
      modifies this
      ensures (View(), r) == Starting(old(View()), wanted)
    {
      if active {
        return Err(Active);
      }
      if wanted == {} {
        return Err(Capability);
      }
      Reset();
      active := true;
      capabilities := wanted;
      r := Ok(());
    }

    method Cancel() returns (r: Result<(), Error>)
      modifies this
      ensures (View(), r) == Cancelling(old(View()))
    {
      if finishing {
        return Err(Finishing);
      }
      Reset();
      r := Ok(());
    }

    method Record(route: string, capture: Capture)
      modifies this`operations
      ensures View() == Recording(old(View()), route, capture)
    {
      if active {
        operations := operations + [Operation(OperationName(route, |operations| + 1), route, capture, CAPTURED)];
      }
    }

    method CompleteOperation(route: string, receipt: Json, state: Json)
      modifies this`operations
      ensures View() == Completing(old(View()), route, receipt, state)
    {
      if !active {
        return;
      }
      var i := |operations|;
      assert operations[..i] == operations;
      assert Completed(operations, route, receipt, state) == Completed(operations[..i], route, receipt, state) + [];
      while i > 0
        invariant 0 <= i <= |operations| && operations == old(operations)
        invariant Completed(operations, route, receipt, state) ==
          Completed(operations[..i], route, receipt, state) + operations[i..]
      {
        i := i - 1;
        CompletedFrom(operations, i, route, receipt, state);
        if operations[i].route == route {
          operations := operations[i := CompletedOne(operations[i], receipt, state)];
          return;
        }
      }
    }

    method RecordBaseline(route: string, identity: Json, state: Json)
      modifies this`required, this`baselines
      ensures View() == RecordingBaseline(old(View()), route, identity, state)
    {
      if !active || !RequiresRestoration(route) {
        return;
      }
      var key := StateKey(route, identity);
      required := required + {key};
      if key !in baselines {
        baselines := baselines[key := state];
      }
    }

    method RequireBaseline(route: string, identity: Json)
      modifies this`required
      ensures View() == RequiringBaseline(old(View()), route, identity)
    {
      if active && RequiresRestoration(route) {
        required := required + {StateKey(route, identity)};
      }
    }

    method BeginFinalization() returns (r: Result<(), Error>)
      modifies this`finishing, this`observed
      ensures (View(), r) == Beginning(old(View()))
    {
      if !active {
        return Err(Inactive);
      }
      if finishing {
        return Err(Finishing);
      }
      finishing := true;
      observed := map[];
      r := Ok(());
    }

    method AbortFinalization()
      modifies this`finishing
      ensures View() == Aborting(old(View()))
    {
      finishing := false;
    }

    method RecordRestoredState(route: string, identity: Json, state: Json)
      modifies this`observed
      ensures View() == RecordingRestored(old(View()), route, identity, state)
    {
      if !active || !RequiresRestoration(route) {
        return;
      }
      observed := observed[StateKey(route, identity) := state];
    }

    method RecordCallbacks(records: seq<Json>)
      modifies this`callbacks
      ensures View() == RecordingCallbacks(old(View()), records)
    {
      if active {
        callbacks := callbacks + records;
      }
    }

    method Finish() returns (r: Result<(), Error>)
      ensures r == Exporting(View())
    {
      if !active {
        return Err(Inactive);
      }
      if !finishing {
        return Err(NotFinalizing);
      }
      if operations == [] {
        return Err(Empty);
      }
      if callbacks == [] {
        return Err(NoCallbacks);
      }
      var writes := 0;
      for i := 0 to |operations|
        invariant writes > 0 <==> exists j :: 0 <= j < i && IsWrite(operations[j].route)
        invariant writes >= 0
      {
        if IsWrite(operations[i].route) {
          writes := writes + 1;
        }
      }
      var restored := Report();
      if writes > 0 && !restored {
        return Err(NotRestored);
      }
      r := Ok(());
    }

    /** `restoration_report`: every required state has a baseline, was read back, and is as it was. */
    method Report() returns (restored: bool)
      ensures restored == Restored(View())
    {
      var missing, mismatched: set<string> := {}, {};
      var left := required;
      while left != {}
        invariant left <= required
        invariant missing + mismatched == {} <==> forall key :: key in required - left ==>
          key in baselines && key in observed && observed[key] == baselines[key]
        decreases left
      {
        var key :| key in left;
        if key !in baselines || key !in observed {
          missing := missing + {key};
          assert key in missing + mismatched;
        } else if observed[key] != baselines[key] {
          mismatched := mismatched + {key};
          assert key in missing + mismatched;
        }
        left := left - {key};
      }
      restored := missing == {} && mismatched == {};
    }
  }

  // ---- The recorder against its history ----

  datatype Event =
    | Start(capabilities: set<string>)
    | Cancel
    | Record(route: string, capture: Capture)
    | Complete(route: string, receipt: Json, state: Json)
    | RecordBaseline(route: string, identity: Json, state: Json)
    | RequireBaseline(route: string, identity: Json)
    | BeginFinalization
    | AbortFinalization
    | RecordRestored(route: string, identity: Json, state: Json)
    | RecordCallbacks(records: seq<Json>)
    | Commit

  /** `log` holds what was done since the recording now running began. */
  datatype System = System(recorder: Recorder, log: seq<Event>)

  function Apply(r: Recorder, e: Event): Recorder {
    match e
    case Start(capabilities) => Starting(r, capabilities).0
    case Cancel => Cancelling(r).0
    case Record(route, capture) => Recording(r, route, capture)
    case Complete(route, receipt, state) => Completing(r, route, receipt, state)
    case RecordBaseline(route, identity, state) => RecordingBaseline(r, route, identity, state)
    case RequireBaseline(route, identity) => RequiringBaseline(r, route, identity)
    case BeginFinalization => Beginning(r).0
    case AbortFinalization => Aborting(r)
    case RecordRestored(route, identity, state) => RecordingRestored(r, route, identity, state)
    case RecordCallbacks(records) => RecordingCallbacks(r, records)
    case Commit => RESET
  }

  predicate Resets(r: Recorder, e: Event) {
    (e.Start? && Starting(r, e.capabilities).1.Ok?) || (e.Cancel? && Cancelling(r).1.Ok?) || e.Commit?
  }

  /** A finalization that is refused leaves no mark. */
  predicate Refused(r: Recorder, e: Event) {
    e.BeginFinalization? && Beginning(r).1.Err?
  }

  function Step(s: System, e: Event): System {
    System(Apply(s.recorder, e),
           if Resets(s.recorder, e) then [] else if Refused(s.recorder, e) then s.log else s.log + [e])
  }

  function Run(events: seq<Event>): System {
    if |events| == 0 then System(RESET, []) else Step(Run(events[..|events| - 1]), events[|events| - 1])
  }

  predicate Concerns(e: Event, key: string) {
    (e.RecordBaseline? || e.RequireBaseline? || e.RecordRestored?)
    && RequiresRestoration(e.route) && StateKey(e.route, e.identity) == key
  }

  ghost predicate Needed(log: seq<Event>, key: string) {
    exists i :: 0 <= i < |log| && !log[i].RecordRestored? && Concerns(log[i], key)
  }

  /** The first baseline recorded for `key`. */
  function FirstBaseline(log: seq<Event>, key: string): Option<Json> {
    if |log| == 0 then None
    else
      var before := FirstBaseline(log[..|log| - 1], key);
      var e := log[|log| - 1];
      if before.Some? then before
      else if e.RecordBaseline? && Concerns(e, key) then Some(e.state)
      else None
  }

  /** The latest reading of `key` since finalization last began. */
  function LatestReading(log: seq<Event>, key: string): Option<Json> {
    if |log| == 0 then None
    else
      var e := log[|log| - 1];
      if e.BeginFinalization? then None
      else if e.RecordRestored? && Concerns(e, key) then Some(e.state)
      else LatestReading(log[..|log| - 1], key)
  }

  function Found(m: map<string, Json>, key: string): Option<Json> {
    if key in m then Some(m[key]) else None
  }

  /** The routes recorded, in order. */
  function RoutesIn(log: seq<Event>): seq<string> {
    if |log| == 0 then []
    else
      var e := log[|log| - 1];
      RoutesIn(log[..|log| - 1]) + if e.Record? then [e.route] else []
  }

  function CallbacksIn(log: seq<Event>): seq<Json> {
    if |log| == 0 then []
    else
      var e := log[|log| - 1];
      CallbacksIn(log[..|log| - 1]) + if e.RecordCallbacks? then e.records else []
  }

  /** The capture of the n-th operation recorded in the log, as completed since. */
  function CaptureIn(log: seq<Event>, n: nat): Option<(Capture, Json)> {
    if |log| == 0 then None
    else
      var before, e := log[..|log| - 1], log[|log| - 1];
      var routes := RoutesIn(before);
      if e.Record? && |routes| == n then Some((e.capture, CAPTURED))
      else
        var found := CaptureIn(before, n);
        if e.Complete? && found.Some? && LastWith(routes, e.route, n) then
          Some((found.value.0.(receipt := e.receipt), e.state))
        else found
  }

  /** The n-th route is the given one, and no later one is. */
  predicate LastWith(routes: seq<string>, route: string, n: nat) {
    n < |routes| && routes[n] == route && forall j :: n < j < |routes| ==> routes[j] != route
  }

  /** The operations are those of the log in order, each with its name, its capture and what completed it. */
  ghost predicate Listed(operations: seq<Operation>, log: seq<Event>) {
    && |operations| == |RoutesIn(log)|
    && forall n :: 0 <= n < |operations| ==>
         && operations[n].route == RoutesIn(log)[n] && operations[n].name == OperationName(operations[n].route, n + 1)
         && CaptureIn(log, n) == Some((operations[n].capture, operations[n].state))
  }

  ghost predicate Mirrors(s: System) {
    && (forall key :: key in s.recorder.required <==> s.recorder.active && Needed(s.log, key))
    && (forall key :: Found(s.recorder.baselines, key) == if s.recorder.active then FirstBaseline(s.log, key) else None)
    && (forall key :: Found(s.recorder.observed, key) == if s.recorder.active then LatestReading(s.log, key) else None)
    && (if s.recorder.active then Listed(s.recorder.operations, s.log) else s.recorder.operations == [])
    && s.recorder.callbacks == (if s.recorder.active then CallbacksIn(s.log) else [])
    && (s.recorder.finishing ==> s.recorder.active)
  }

  lemma NeededMore(log: seq<Event>, e: Event)
    ensures forall key :: Needed(log + [e], key) <==> Needed(log, key) || (!e.RecordRestored? && Concerns(e, key))
  {
    hide Concerns;
    forall key
      ensures Needed(log + [e], key) <==> Needed(log, key) || (!e.RecordRestored? && Concerns(e, key))
    {
      if Needed(log, key) {
        var i :| 0 <= i < |log| && !log[i].RecordRestored? && Concerns(log[i], key);
        assert (log + [e])[i] == log[i];
      }
      if !e.RecordRestored? && Concerns(e, key) {
        assert (log + [e])[|log|] == e;
      }
    }
  }

  predicate LastOf(operations: seq<Operation>, route: string, n: nat) {
    && n < |operations| && operations[n].route == route
    && forall j :: n < j < |operations| ==> operations[j].route != route
  }

  /** Completing changes the last operation of the route and no other. */
  lemma {:induction false} CompletedExactly(operations: seq<Operation>, route: string, receipt: Json, state: Json)
    ensures var done := Completed(operations, route, receipt, state);
      && |done| == |operations|
      && forall n :: 0 <= n < |operations| ==>
           done[n] ==
             if LastOf(operations, route, n) then CompletedOne(operations[n], receipt, state) else operations[n]
  {
    if |operations| > 0 {
      var front, last := operations[..|operations| - 1], operations[|operations| - 1];
      CompletedExactly(front, route, receipt, state);
      hide CompletedOne;
    }
  }

  lemma ListedRecord(operations: seq<Operation>, log: seq<Event>, e: Event)
    requires Listed(operations, log) && e.Record?
    ensures Listed(Recorded(operations, e.route, e.capture), log + [e])
  {
    hide OperationName;
    assert (log + [e])[..|log|] == log;
  }

  lemma ListedComplete(operations: seq<Operation>, log: seq<Event>, e: Event)
    requires Listed(operations, log) && e.Complete?
    ensures Listed(Completed(operations, e.route, e.receipt, e.state), log + [e])
  {
    hide OperationName, Completed;
    assert (log + [e])[..|log|] == log;
    assert RoutesIn(log + [e]) == RoutesIn(log);
    CompletedExactly(operations, e.route, e.receipt, e.state);
    var routes := RoutesIn(log);
    forall n | 0 <= n < |operations|
      ensures LastWith(routes, e.route, n) <==> LastOf(operations, e.route, n)
    {
    }
    hide RoutesIn;
  }

  lemma ListedOther(operations: seq<Operation>, log: seq<Event>, e: Event)
    requires Listed(operations, log) && !e.Record? && !e.Complete?
    ensures Listed(operations, log + [e])
  {
    hide OperationName;
    assert (log + [e])[..|log|] == log;
    assert RoutesIn(log + [e]) == RoutesIn(log);
  }

  lemma ResetMirrors(s: System, e: Event)
    requires Resets(s.recorder, e)
    ensures Mirrors(Step(s, e))
  {
  }

  lemma NeededMirrors(s: System, e: Event, key: string)
    requires Mirrors(s) && !Resets(s.recorder, e) && !Refused(s.recorder, e)
    ensures var t := Step(s, e); key in t.recorder.required <==> t.recorder.active && Needed(t.log, key)
  {
    NeededMore(s.log, e);
    assert key in s.recorder.required <==> s.recorder.active && Needed(s.log, key);
    hide StateKey, RequiresRestoration, Needed, Mirrors;
  }

  lemma BaselineMirrors(s: System, e: Event, key: string)
    requires Mirrors(s) && !Resets(s.recorder, e) && !Refused(s.recorder, e)
    ensures var t := Step(s, e);
      Found(t.recorder.baselines, key) == (if t.recorder.active then FirstBaseline(t.log, key) else None)
  {
    assert (s.log + [e])[..|s.log|] == s.log;
    assert Found(s.recorder.baselines, key) == if s.recorder.active then FirstBaseline(s.log, key) else None;
    hide StateKey, RequiresRestoration, Mirrors;
  }

  lemma ReadingMirrors(s: System, e: Event, key: string)
    requires Mirrors(s) && !Resets(s.recorder, e) && !Refused(s.recorder, e)
    ensures var t := Step(s, e);
      Found(t.recorder.observed, key) == (if t.recorder.active then LatestReading(t.log, key) else None)
  {
    assert (s.log + [e])[..|s.log|] == s.log;
    assert Found(s.recorder.observed, key) == if s.recorder.active then LatestReading(s.log, key) else None;
    hide StateKey, RequiresRestoration, Mirrors;
  }

  lemma StepMirrors(s: System, e: Event)
    requires Mirrors(s)
    ensures Mirrors(Step(s, e))
  {
    if Resets(s.recorder, e) {
      ResetMirrors(s, e);
    } else if !Refused(s.recorder, e) {
      var t := Step(s, e);
      FieldsMirror(s, e);
      forall key
        ensures key in t.recorder.required <==> t.recorder.active && Needed(t.log, key)
        ensures Found(t.recorder.baselines, key) == if t.recorder.active then FirstBaseline(t.log, key) else None
        ensures Found(t.recorder.observed, key) == if t.recorder.active then LatestReading(t.log, key) else None
      {
        NeededMirrors(s, e, key);
        BaselineMirrors(s, e, key);
        ReadingMirrors(s, e, key);
      }
      hide Apply, Listed, CallbacksIn, Needed, FirstBaseline, LatestReading, Found;
    }
  }

  /** What one event adds to the operations and the callbacks. */
  lemma FieldsMirror(s: System, e: Event)
    requires Mirrors(s) && !Resets(s.recorder, e) && !Refused(s.recorder, e)
    ensures var t := Step(s, e);
      && (if t.recorder.active then Listed(t.recorder.operations, t.log) else t.recorder.operations == [])
      && t.recorder.callbacks == (if t.recorder.active then CallbacksIn(t.log) else [])
      && (t.recorder.finishing ==> t.recorder.active)
  {
    assert (s.log + [e])[..|s.log|] == s.log;
    assert s.recorder.callbacks + [] == s.recorder.callbacks;
    if s.recorder.active {
      assert Listed(s.recorder.operations, s.log);
      hide Listed, Recorded, Completed;
      if e.Record? {
        ListedRecord(s.recorder.operations, s.log, e);
      } else if e.Complete? {
        ListedComplete(s.recorder.operations, s.log, e);
      } else {
        ListedOther(s.recorder.operations, s.log, e);
      }
    }
    hide Listed, StateKey, RequiresRestoration, Needed, FirstBaseline, LatestReading, Found;
  }

  lemma {:induction false} RunMirrors(events: seq<Event>)
    ensures Mirrors(Run(events))
  {
    if |events| > 0 {
      hide Mirrors, Step;
      RunMirrors(events[..|events| - 1]);
      StepMirrors(Run(events[..|events| - 1]), events[|events| - 1]);
    }
  }

  predicate Wrote(log: seq<Event>) {
    exists route :: route in RoutesIn(log) && IsWrite(route)
  }

  /** Every state that had to be restored has a baseline, and its latest reading since finalization began is it. */
  ghost predicate AllRestored(log: seq<Event>) {
    forall key :: Needed(log, key) ==>
      FirstBaseline(log, key).Some? && LatestReading(log, key) == FirstBaseline(log, key)
  }

  lemma RestoredExactly(s: System)
    requires Mirrors(s) && s.recorder.active
    ensures Restored(s.recorder) <==> AllRestored(s.log)
  {
    hide Needed, FirstBaseline, LatestReading;
    forall key
      ensures key in s.recorder.required <==> Needed(s.log, key)
      ensures key in s.recorder.baselines <==> FirstBaseline(s.log, key).Some?
      ensures key in s.recorder.baselines ==> FirstBaseline(s.log, key) == Some(s.recorder.baselines[key])
      ensures key in s.recorder.observed <==> LatestReading(s.log, key).Some?
      ensures key in s.recorder.observed ==> LatestReading(s.log, key) == Some(s.recorder.observed[key])
    {
      assert Found(s.recorder.baselines, key) == FirstBaseline(s.log, key);
      assert Found(s.recorder.observed, key) == LatestReading(s.log, key);
    }
  }

  lemma WroteExactly(s: System)
    requires Mirrors(s) && s.recorder.active
    ensures (exists i :: 0 <= i < |s.recorder.operations| && IsWrite(s.recorder.operations[i].route)) <==> Wrote(s.log)
  {
    hide IsWrite;
    var operations, routes := s.recorder.operations, RoutesIn(s.log);
    if Wrote(s.log) {
      var route :| route in routes && IsWrite(route);
      var i :| 0 <= i < |routes| && routes[i] == route;
      assert IsWrite(operations[i].route);
    }
    forall i | 0 <= i < |operations| && IsWrite(operations[i].route)
      ensures Wrote(s.log)
    {
      assert routes[i] in routes;
    }
  }

  /** A recording is exported exactly when it is being finalized, has recorded some operation and some callback,
      and either wrote nothing or has everything it had to restore read back as first found, since the last time
      finalization began. */
  lemma ExportedExactly(events: seq<Event>)
    ensures var s := Run(events);
      Exporting(s.recorder).Ok? <==>
        && s.recorder.finishing && RoutesIn(s.log) != [] && CallbacksIn(s.log) != []
        && (Wrote(s.log) ==> AllRestored(s.log))
  {
    var s := Run(events);
    RunMirrors(events);
    hide Wrote, AllRestored, Restored, IsWrite;
    if s.recorder.active {
      RestoredExactly(s);
      WroteExactly(s);
    }
  }

  // ---- Names of operations ----

  lemma {:induction false} TrimmedIsMiddle(s: string, c: char) returns (i: nat, j: nat)
    ensures i <= j <= |s| && Trimmed(s, c) == s[i..j]
    ensures forall k :: 0 <= k < i || j <= k < |s| ==> s[k] == c
    ensures i < j ==> s[i] != c && s[j - 1] != c
  {
    i := FrontTrimmed(s, c);
    var rest := s[i..];
    var n := BackTrimmed(rest, c);
    j := i + n;
    assert rest[..n] == s[i..j];
    assert forall k :: j <= k < |s| ==> s[k] == rest[k - i];
    assert n > 0 ==> rest[n - 1] == s[j - 1] && rest[0] == s[i];
  }

  lemma {:induction false} FrontTrimmed(s: string, c: char) returns (i: nat)
    ensures i <= |s| && TrimmedFront(s, c) == s[i..] && (forall k :: 0 <= k < i ==> s[k] == c)
    ensures i < |s| ==> s[i] != c
  {
    i := 0;
    if s != "" && s[0] == c {
      var tail := s[1..];
      var k := FrontTrimmed(tail, c);
      i := k + 1;
      assert forall l :: 0 < l < i ==> s[l] == tail[l - 1];
      assert i < |s| ==> s[i] == tail[k];
    }
  }

  lemma {:induction false} BackTrimmed(s: string, c: char) returns (n: nat)
    ensures n <= |s| && TrimmedBack(s, c) == s[..n] && (forall k :: n <= k < |s| ==> s[k] == c)
    ensures n > 0 ==> s[n - 1] != c
  {
    n := |s|;
    if s != "" && s[|s| - 1] == c {
      n := BackTrimmed(s[..|s| - 1], c);
    }
  }

  predicate Separator(c: char) {
    c == '/' || c == '.' || c == '-' || c == '_'
  }

  /** An operation is named by its route from the first to the last character that is no separator, with underscores
      for the separators inside, or by the word for any, and then by its place. */
  lemma NamedExactly(route: string, ordinal: nat) returns (i: nat, j: nat)
    ensures i <= j <= |route| && (forall k :: 0 <= k < i || j <= k < |route| ==> Separator(route[k]))
    ensures i < j ==>
      && |OperationName(route, ordinal)| > j - i
      && OperationName(route, ordinal)[j - i..] == "_" + Shown(ordinal)
      && (forall k :: 0 <= k < j - i ==>
            OperationName(route, ordinal)[k] == if Separator(route[i + k]) then '_' else route[i + k])
      && !Separator(route[i]) && !Separator(route[j - 1])
    ensures i == j ==> OperationName(route, ordinal) == "operation_" + Shown(ordinal)
  {
    hide Trimmed, Shown;
    var a, b := TrimmedIsMiddle(route, '/');
    var middle := Trimmed(route, '/');
    var under := Underscored(middle);
    var c, d := TrimmedIsMiddle(under, '_');
    i, j := a + c, a + d;
    var base := Trimmed(under, '_');
    assert forall k :: 0 <= k < |middle| ==> middle[k] == route[a + k];
    assert forall k :: 0 <= k < |middle| ==> under[k] == if Separator(middle[k]) then '_' else middle[k];
    forall k | 0 <= k < i || j <= k < |route|
      ensures Separator(route[k])
    {
      if a <= k < b {
        assert under[k - a] == '_';
      }
    }
    if i < j {
      assert base == under[c..d];
      var name := OperationName(route, ordinal);
      assert name == base + "_" + Shown(ordinal);
      assert name[..j - i] == base && name[j - i..] == "_" + Shown(ordinal);
      forall k | 0 <= k < j - i
        ensures name[k] == if Separator(route[i + k]) then '_' else route[i + k]
      {
        assert base[k] == under[c + k] && middle[c + k] == route[i + k];
      }
      assert under[c] != '_' && under[d - 1] != '_';
    } else {
      assert base == "";
      assert "operation" + "_" == "operation_";
    }
  }

  lemma {:induction false} ShownDiffer(a: nat, b: nat)
    requires Shown(a) == Shown(b)
    ensures a == b
  {
    var s, t := Shown(a), Shown(b);
    if a >= 10 && b >= 10 {
      assert s[..|s| - 1] == Shown(a / 10) && t[..|t| - 1] == Shown(b / 10);
      ShownDiffer(a / 10, b / 10);
      assert s[|s| - 1] == t[|t| - 1];
    }
  }

  lemma NameEnds(route: string, ordinal: nat)
    ensures var name, end := OperationName(route, ordinal), Shown(ordinal);
      |name| > |end| && name[|name| - |end|..] == end && name[|name| - |end| - 1] == '_'
  {
    hide Shown, Trimmed, Underscored;
  }

  /** Operations recorded at different places never share a name, whatever their routes. */
  lemma NamesDiffer(route: string, a: nat, other: string, b: nat)
    requires OperationName(route, a) == OperationName(other, b)
    ensures a == b
  {
    NameEnds(route, a);
    NameEnds(other, b);
    hide OperationName;
    var name, s, t := OperationName(route, a), Shown(a), Shown(b);
    assert forall k :: |name| - |s| <= k < |name| ==> name[k] in s;
    assert forall k :: |name| - |t| <= k < |name| ==> name[k] in t;
    assert |s| == |t|;
    ShownDiffer(a, b);
  }

  /** In every run, the operations of the recording have different names. */
  lemma OperationsAreNamed(events: seq<Event>, i: nat, j: nat)
    requires i < j < |Run(events).recorder.operations|
    ensures Run(events).recorder.operations[i].name != Run(events).recorder.operations[j].name
  {
    RunMirrors(events);
    var operations := Run(events).recorder.operations;
    hide Run, Apply, OperationName;
    if operations[i].name == operations[j].name {
      NamesDiffer(operations[i].route, i + 1, operations[j].route, j + 1);
    }
  }

  // ---- What is allowed, and when ----

  predicate Begins(r: Recorder, e: Event) {
    e.BeginFinalization? && Beginning(r).1.Ok?
  }

  /** The recording begun at `i` has been neither cancelled nor exported since. */
  ghost predicate Open(events: seq<Event>, i: nat) {
    && i < |events| && events[i].Start? && Resets(Run(events[..i]).recorder, events[i])
    && forall j :: i < j < |events| ==> !Resets(Run(events[..j]).recorder, events[j])
  }

  /** The finalization begun at `i` has been neither aborted nor exported since. */
  ghost predicate Finalizing(events: seq<Event>, i: nat) {
    i < |events| && Begins(Run(events[..i]).recorder, events[i]) && Unended(events, i)
  }

  predicate Unended(events: seq<Event>, i: nat) {
    forall j :: i < j < |events| ==> !events[j].AbortFinalization? && !events[j].Commit?
  }

  lemma OpenMore(front: seq<Event>, e: Event, i: nat)
    ensures Open(front + [e], i) <==>
      if i == |front| then e.Start? && Resets(Run(front).recorder, e)
      else Open(front, i) && !Resets(Run(front).recorder, e)
  {
    hide Run, Apply, Resets, Begins;
    var events := front + [e];
    assert events[..|front|] == front;
    assert forall j :: 0 <= j < |front| ==> events[..j] == front[..j] && events[j] == front[j];
  }

  lemma UnendedMore(front: seq<Event>, e: Event, i: nat)
    requires i < |front|
    ensures Unended(front + [e], i) <==> Unended(front, i) && !e.AbortFinalization? && !e.Commit?
  {
    var events := front + [e];
    assert events[|front|] == e;
    if Unended(events, i) {
      forall j | i < j < |front|
        ensures !front[j].AbortFinalization? && !front[j].Commit?
      {
        assert events[j] == front[j];
      }
    }
  }

  lemma FinalizingMore(front: seq<Event>, e: Event, i: nat)
    ensures Finalizing(front + [e], i) <==>
      if i == |front| then Begins(Run(front).recorder, e)
      else Finalizing(front, i) && !e.AbortFinalization? && !e.Commit?
  {
    hide Run, Begins, Unended;
    var events := front + [e];
    if i < |front| {
      assert events[..i] == front[..i] && events[i] == front[i];
      UnendedMore(front, e, i);
    } else if i == |front| {
      assert events[..i] == front && events[i] == e;
      NothingBehind(events);
    }
  }

  lemma NothingBehind(events: seq<Event>)
    ensures |events| > 0 ==> Unended(events, |events| - 1)
  {
  }

  /** What one event does to the three fields that decide what is allowed. */
  lemma StepAllows(r: Recorder, e: Event)
    requires r.finishing ==> r.active
    ensures var t := Apply(r, e);
      && t.active == (if Resets(r, e) then e.Start? else r.active)
      && t.capabilities == (if Resets(r, e) then if e.Start? then e.capabilities else {} else r.capabilities)
      && t.finishing == (Begins(r, e) || (r.finishing && !e.AbortFinalization? && !e.Commit?))
  {
  }

  /** In every run: a finalization is under way exactly if one was accepted and not aborted or exported since; a
      recording runs exactly if one was begun and not cancelled or exported since, with the capabilities it was
      begun with. */
  lemma {:induction false} RunAllows(events: seq<Event>)
    ensures var r := Run(events).recorder;
      && (r.finishing ==> r.active)
      && (r.finishing <==> exists i: nat :: Finalizing(events, i))
      && (r.active <==> exists i: nat :: Open(events, i))
      && (forall i: nat :: Open(events, i) ==> events[i].capabilities == r.capabilities)
  {
    if |events| > 0 {
      hide Apply, Resets, Begins, Open, Finalizing;
      var front, e := events[..|events| - 1], events[|events| - 1];
      assert events == front + [e];
      RunAllows(front);
      StepAllows(Run(front).recorder, e);
      forall i: nat
        ensures Open(events, i) <==>
          if i == |front| then e.Start? && Resets(Run(front).recorder, e)
          else Open(front, i) && !Resets(Run(front).recorder, e)
        ensures Finalizing(events, i) <==>
          if i == |front| then Begins(Run(front).recorder, e)
          else Finalizing(front, i) && !e.AbortFinalization? && !e.Commit?
      {
        OpenMore(front, e, i);
        FinalizingMore(front, e, i);
      }
      forall i: nat | Open(front, i)
        ensures i < |front| && events[i] == front[i]
      {
        OpenIsOld(front, i);
      }
      FinalizingIsOld(front);
    }
  }

  lemma OpenIsOld(events: seq<Event>, i: nat)
    requires Open(events, i)
    ensures i < |events|
  {
  }

  lemma FinalizingIsOld(events: seq<Event>)
    ensures forall i: nat :: Finalizing(events, i) ==> i < |events|
  {
  }

  /** In every run, a recording begins exactly if none is open and some capability is wanted, is given up exactly if
      none is being finalized, and is finalized exactly if one is open and not yet being finalized. */
  lemma AcceptsExactly(events: seq<Event>, capabilities: set<string>)
    ensures var r := Run(events).recorder;
      var open := exists i: nat :: Open(events, i);
      var finalizing := exists i: nat :: Finalizing(events, i);
      && (Starting(r, capabilities).1 == Ok(()) <==> !open && |capabilities| > 0)
      && (Cancelling(r).1 == Ok(()) <==> !finalizing)
      && (Beginning(r).1 == Ok(()) <==> open && !finalizing)
      && (Beginning(r).1 == Err(Inactive) <==> !open)
  {
    RunAllows(events);
    hide Open, Finalizing;
  }

  /** In every run, a capability is allowed exactly while the recording that was begun with it is open, and never
      between an accepted beginning of finalization and its abort or export. */
  lemma AllowedExactly(events: seq<Event>, capability: string)
    ensures Allows(Run(events).recorder, capability) <==>
      && (exists i: nat :: Open(events, i) && capability in events[i].capabilities)
      && !(exists i: nat :: Finalizing(events, i))
  {
    RunAllows(events);
    hide Open, Finalizing;
  }
}
