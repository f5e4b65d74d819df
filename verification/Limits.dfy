/** The sliding-window limiter in front of the authentication routes, against its whole history. */
module Limits {
  import opened Bytes

  /** Monotonic time in nanoseconds. */
  type Time = nat

  const SECOND: nat := 1_000_000_000
  const WINDOW: nat := 60 * SECOND
  const MAX_BUCKETS: nat := 4096
  const GLOBAL: string := "global"

  /** The peer address of a connection, which is never spelled like the shared bucket. */
  type Client = s: string | s != GLOBAL witness ""

  type Key = (string, string)

  datatype Call = Call(at: Time, route: string, ip: Client)

  function Limit(key: string): nat {
    if key == GLOBAL then 30 else 5
  }

  /** Whole seconds elapsed; zero when `at` lies ahead of `now`. */
  function ElapsedSeconds(now: Time, at: Time): nat {
    if now < at then 0 else (now - at) / SECOND
  }

  predicate Within(now: Time, at: Time) {
    ElapsedSeconds(now, at) < 60
  }

  function Kept(v: seq<Time>, now: Time): seq<Time> {
    if |v| == 0 then []
    else Kept(v[..|v| - 1], now) + if Within(now, v[|v| - 1]) then [v[|v| - 1]] else []
  }

  function Pruned(buckets: map<Key, seq<Time>>, now: Time): map<Key, seq<Time>> {
    map k | k in buckets && Kept(buckets[k], now) != [] :: Kept(buckets[k], now)
  }

  function Bucket(buckets: map<Key, seq<Time>>, key: Key): seq<Time> {
    if key in buckets then buckets[key] else []
  }

  function Pushed(buckets: map<Key, seq<Time>>, key: Key, now: Time): map<Key, seq<Time>> {
    buckets[key := Bucket(buckets, key) + [now]]
  }

  function Allowing(buckets: map<Key, seq<Time>>, call: Call): (map<Key, seq<Time>>, bool) {
    var kept := Pruned(buckets, call.at);
    var shared, own := (call.route, GLOBAL), (call.route, call.ip);
    if |kept| > MAX_BUCKETS then (kept, false)
    else if |Bucket(kept, shared)| >= 30 || |Bucket(kept, own)| >= 5 then (kept, false)
    else (Pushed(Pushed(kept, shared, call.at), own, call.at), true)
  }

  class Limiter {
    var buckets: map<Key, seq<Time>>

    constructor ()
      ensures buckets == map[]
    {
      buckets := map[];
    }

    method Allow(call: Call) returns (ok: bool)
      modifies this
      ensures (buckets, ok) == Allowing(old(buckets), call)
    {
      buckets := map k | k in buckets && Kept(buckets[k], call.at) != [] :: Kept(buckets[k], call.at);
      if |buckets| > MAX_BUCKETS {
        return false;
      }
      var shared, own := (call.route, GLOBAL), (call.route, call.ip);
      if (shared in buckets && |buckets[shared]| >= 30) || (own in buckets && |buckets[own]| >= 5) {
        return false;
      }
      var before := if shared in buckets then buckets[shared] else [];
      buckets := buckets[shared := before + [call.at]];
      before := if own in buckets then buckets[own] else [];
      buckets := buckets[own := before + [call.at]];
      ok := true;
    }
  }

  // ---- The limiter over a run ----

  /** `log` holds the calls let through, oldest first, and `now` the time of the latest call of any kind. */
  datatype System = System(buckets: map<Key, seq<Time>>, log: seq<Call>, now: Time)

  function Initial(): System {
    System(map[], [], 0)
  }

  function Step(s: System, call: Call): System {
    var (buckets, ok) := Allowing(s.buckets, call);
    System(buckets, if ok then s.log + [call] else s.log, call.at)
  }

  function Run(calls: seq<Call>): System {
    if |calls| == 0 then Initial() else Step(Run(calls[..|calls| - 1]), calls[|calls| - 1])
  }

  predicate Ordered(calls: seq<Call>) {
    forall i, j :: 0 <= i < j < |calls| ==> calls[i].at <= calls[j].at
  }

  predicate Matches(call: Call, key: Key) {
    call.route == key.0 && (key.1 == GLOBAL || call.ip == key.1)
  }

  /** The calls let through for `key` that `now` still counts. */
  function Counted(log: seq<Call>, key: Key, now: Time): seq<Time> {
    if |log| == 0 then []
    else
      var last := log[|log| - 1];
      Counted(log[..|log| - 1], key, now) + if Matches(last, key) && Within(now, last.at) then [last.at] else []
  }

  lemma {:induction false} CountedLater(log: seq<Call>, key: Key, before: Time, now: Time)
    requires before <= now
    ensures Kept(Counted(log, key, before), now) == Counted(log, key, now)
  {
    if |log| > 0 {
      var last := log[|log| - 1];
      CountedLater(log[..|log| - 1], key, before, now);
      if Within(now, last.at) {
        assert Within(before, last.at);
      }
      if Matches(last, key) && Within(before, last.at) {
        var front := Counted(log[..|log| - 1], key, before);
        assert (front + [last.at])[..|front|] == front;
      } else {
        assert Counted(log, key, before) == Counted(log[..|log| - 1], key, before);
      }
    }
  }

  /** The buckets are exactly what the history says they must be. */
  ghost predicate Refines(s: System) {
    && (forall key :: key in s.buckets ==> s.buckets[key] != [])
    && (forall key :: Bucket(s.buckets, key) == Counted(s.log, key, s.now))
  }

  lemma PrunedRefines(s: System, now: Time)
    requires Refines(s) && s.now <= now
    ensures Refines(System(Pruned(s.buckets, now), s.log, now))
  {
    forall key
      ensures Bucket(Pruned(s.buckets, now), key) == Counted(s.log, key, now)
    {
      CountedLater(s.log, key, s.now, now);
      assert Bucket(s.buckets, key) == Counted(s.log, key, s.now);
    }
  }

  lemma PushedRefines(s: System, call: Call)
    requires Refines(s) && s.now == call.at
    ensures Refines(System(Pushed(Pushed(s.buckets, (call.route, GLOBAL), call.at), (call.route, call.ip), call.at),
                           s.log + [call], call.at))
  {
    var log := s.log + [call];
    assert log[..|log| - 1] == s.log;
    var shared, own := (call.route, GLOBAL), (call.route, call.ip);
    var buckets := Pushed(Pushed(s.buckets, shared, call.at), own, call.at);
    assert shared != own;
    forall key
      ensures Bucket(buckets, key) == Counted(log, key, call.at)
    {
      assert Bucket(buckets, key) == Bucket(s.buckets, key) + if key == shared || key == own then [call.at] else [];
      assert Bucket(s.buckets, key) == Counted(s.log, key, call.at);
      assert Matches(call, key) <==> key == (call.route, GLOBAL) || key == (call.route, call.ip);
    }
  }

  lemma StepRefines(s: System, call: Call)
    requires Refines(s) && s.now <= call.at
    ensures Refines(Step(s, call))
  {
    PrunedRefines(s, call.at);
    var kept := System(Pruned(s.buckets, call.at), s.log, call.at);
    hide Refines, Pruned, Pushed;
    if Allowing(s.buckets, call).1 {
      PushedRefines(kept, call);
    }
  }

  lemma {:induction false} RunRefines(calls: seq<Call>)
    requires Ordered(calls)
    ensures Refines(Run(calls))
    ensures |calls| > 0 ==> Run(calls).now == calls[|calls| - 1].at
  {
    if |calls| > 0 {
      hide Refines, Allowing;
      assert calls == calls[..|calls| - 1] + [calls[|calls| - 1]];
      OrderedFront(calls[..|calls| - 1], calls[|calls| - 1]);
      RunRefines(calls[..|calls| - 1]);
      StepRefines(Run(calls[..|calls| - 1]), calls[|calls| - 1]);
    } else {
      NothingCounted();
    }
  }

  lemma NothingCounted()
    ensures Refines(Initial())
  {
  }

  lemma OrderedFront(calls: seq<Call>, call: Call)
    requires Ordered(calls + [call])
    ensures Ordered(calls)
    ensures |calls| > 0 ==> calls[|calls| - 1].at <= call.at
  {
    assert forall i :: 0 <= i < |calls| ==> calls[i] == (calls + [call])[i];
    assert (calls + [call])[|calls|] == call;
  }

  predicate BelowLimits(log: seq<Call>, call: Call) {
    && |Counted(log, (call.route, GLOBAL), call.at)| < Limit(GLOBAL)
    && |Counted(log, (call.route, call.ip), call.at)| < Limit(call.ip)
  }

  lemma Decided(s: System, call: Call)
    requires Refines(System(Pruned(s.buckets, call.at), s.log, call.at))
    ensures Allowing(s.buckets, call).1 <==> BelowLimits(s.log, call) && |Pruned(s.buckets, call.at)| <= MAX_BUCKETS
  {
    hide Pruned, Counted, Pushed;
    var kept := Pruned(s.buckets, call.at);
    assert Bucket(kept, (call.route, GLOBAL)) == Counted(s.log, (call.route, GLOBAL), call.at);
    assert Bucket(kept, (call.route, call.ip)) == Counted(s.log, (call.route, call.ip), call.at);
  }

  /** A call is let through exactly when, of the calls let through in the sixty seconds before it, fewer than
      thirty were for its route and fewer than five also from its client, and the table is not too full. */
  lemma AllowedIff(calls: seq<Call>, call: Call)
    requires Ordered(calls + [call])
    ensures var s := Run(calls);
      Allowing(s.buckets, call).1 <==> BelowLimits(s.log, call) && |Pruned(s.buckets, call.at)| <= MAX_BUCKETS
  {
    hide Allowing, Pruned, BelowLimits, Refines;
    OrderedFront(calls, call);
    RunRefines(calls);
    PrunedRefines(Run(calls), call.at);
    Decided(Run(calls), call);
  }

  // ---- The same, in terms of the calls alone ----

  /** The calls let through less than sixty seconds before `now`. */
  ghost function Recent(log: seq<Call>, now: Time): set<nat> {
    set i: nat | i < |log| && now < log[i].at + 60_000_000_000
  }

  ghost function RecentFor(log: seq<Call>, key: Key, now: Time): set<nat> {
    set i: nat | i in Recent(log, now) && Matches(log[i], key)
  }

  lemma WithinExactly(now: Time, at: Time)
    ensures Within(now, at) <==> now < at + 60_000_000_000
  {
  }

  lemma RecentForMore(front: seq<Call>, last: Call, key: Key, now: Time)
    ensures RecentFor(front + [last], key, now) ==
      RecentFor(front, key, now) + if Matches(last, key) && now < last.at + 60_000_000_000 then {|front|} else {}
  {
    hide Matches;
    var log := front + [last];
    assert log[|front|] == last;
    assert forall i: nat :: i < |front| ==> log[i] == front[i];
  }

  lemma {:induction false} CountedSize(log: seq<Call>, key: Key, now: Time)
    ensures |Counted(log, key, now)| == |RecentFor(log, key, now)|
  {
    hide Matches, Within;
    if |log| > 0 {
      var front, last := log[..|log| - 1], log[|log| - 1];
      assert log == front + [last];
      CountedSize(front, key, now);
      WithinExactly(now, last.at);
      RecentForMore(front, last, key, now);
      assert |front| !in RecentFor(front, key, now);
      hide RecentFor;
    } else {
      assert RecentFor(log, key, now) == {};
    }
  }

  lemma RecentSizes(log: seq<Call>, call: Call)
    ensures |Counted(log, (call.route, GLOBAL), call.at)| ==
      |set i | i in Recent(log, call.at) && log[i].route == call.route|
    ensures |Counted(log, (call.route, call.ip), call.at)| ==
      |set i | i in Recent(log, call.at) && log[i].route == call.route && log[i].ip == call.ip|
  {
    CountedSize(log, (call.route, GLOBAL), call.at);
    CountedSize(log, (call.route, call.ip), call.at);
    hide Counted;
    assert RecentFor(log, (call.route, GLOBAL), call.at) ==
      set i | i in Recent(log, call.at) && log[i].route == call.route;
    assert RecentFor(log, (call.route, call.ip), call.at) ==
      set i | i in Recent(log, call.at) && log[i].route == call.route && log[i].ip == call.ip;
  }

  /** The buckets in use: one for each route, and one for each route and client, of a recent call. */
  ghost function KeysInUse(log: seq<Call>, now: Time): set<Key> {
    (set i | i in Recent(log, now) :: (log[i].route, GLOBAL))
    + (set i | i in Recent(log, now) :: (log[i].route, log[i].ip))
  }

  lemma InUseExactly(log: seq<Call>, key: Key, now: Time)
    ensures key in KeysInUse(log, now) <==> Counted(log, key, now) != []
  {
    CountedSize(log, key, now);
    if key in KeysInUse(log, now) {
      var i :| i in Recent(log, now) && (key == (log[i].route, GLOBAL) || key == (log[i].route, log[i].ip));
      assert i in RecentFor(log, key, now);
    }
    if RecentFor(log, key, now) != {} {
      var i :| i in RecentFor(log, key, now);
      assert i in Recent(log, now);
    }
  }

  /** In every run, a call is let through exactly when fewer than thirty calls were let through for its route in the
      last sixty seconds, fewer than five of them from its client, and at most 4096 buckets are in use. */
  lemma AllowedExactly(calls: seq<Call>, call: Call)
    requires Ordered(calls + [call])
    ensures var log := Run(calls).log;
      Run(calls + [call]).log == log + [call] <==>
        && |set i | i in Recent(log, call.at) && log[i].route == call.route| < 30
        && |set i | i in Recent(log, call.at) && log[i].route == call.route && log[i].ip == call.ip| < 5
        && |KeysInUse(log, call.at)| <= 4096
    ensures Run(calls + [call]).log == Run(calls).log || Run(calls + [call]).log == Run(calls).log + [call]
  {
    var s := Run(calls);
    assert (calls + [call])[..|calls|] == calls;
    OrderedFront(calls, call);
    AllowedIff(calls, call);
    RecentSizes(s.log, call);
    PrunedSize(calls, call.at);
    hide Counted, Recent, Pruned, KeysInUse, Ordered, Matches;
  }

  lemma PrunedSize(calls: seq<Call>, now: Time)
    requires Ordered(calls) && (|calls| > 0 ==> calls[|calls| - 1].at <= now)
    ensures |Pruned(Run(calls).buckets, now)| == |KeysInUse(Run(calls).log, now)|
  {
    var s := Run(calls);
    RunRefines(calls);
    PrunedRefines(s, now);
    var kept := Pruned(s.buckets, now);
    hide Pruned, Counted;
    forall key
      ensures key in kept <==> key in KeysInUse(s.log, now)
    {
      InUseExactly(s.log, key, now);
      assert Bucket(kept, key) == Counted(s.log, key, now);
    }
    assert kept.Keys == KeysInUse(s.log, now);
    assert |kept.Keys| == |kept|;
  }

  // ---- Windows ----

  /** How many of the calls let through for `key` fall between `from` and `to`. */
  function InWindow(log: seq<Call>, key: Key, from: Time, to: Time): nat {
    if |log| == 0 then 0
    else
      var last := log[|log| - 1];
      InWindow(log[..|log| - 1], key, from, to) + if Matches(last, key) && from <= last.at <= to then 1 else 0
  }

  /** Each call let through found its own two buckets below their limits. */
  ghost predicate Spaced(log: seq<Call>) {
    forall i :: 0 <= i < |log| ==> BelowLimits(log[..i], log[i])
  }

  lemma SpacedMore(log: seq<Call>, call: Call)
    requires Spaced(log) && BelowLimits(log, call)
    ensures Spaced(log + [call])
  {
    hide BelowLimits;
    assert forall i :: 0 <= i < |log| ==> (log + [call])[..i] == log[..i];
    assert (log + [call])[..|log|] == log;
  }

  lemma {:induction false} RunIsSpaced(calls: seq<Call>)
    requires Ordered(calls)
    ensures Spaced(Run(calls).log)
  {
    if |calls| > 0 {
      hide BelowLimits, Pruned, Spaced, Allowing;
      var front, call := calls[..|calls| - 1], calls[|calls| - 1];
      assert calls == front + [call];
      OrderedFront(front, call);
      RunIsSpaced(front);
      AllowedIff(front, call);
      if Allowing(Run(front).buckets, call).1 {
        SpacedMore(Run(front).log, call);
      }
    } else {
      assert Run(calls).log == [];
    }
  }

  lemma {:induction false} WindowIsCounted(log: seq<Call>, key: Key, from: Time, to: Time, now: Time)
    requires from <= now <= to < from + WINDOW
    ensures InWindow(log, key, from, to) <= |Counted(log, key, now)|
  {
    if |log| > 0 {
      WindowIsCounted(log[..|log| - 1], key, from, to, now);
      var last := log[|log| - 1];
      if from <= last.at <= to {
        assert Within(now, last.at);
      }
    }
  }

  lemma {:induction false} SpacedWindow(log: seq<Call>, key: Key, from: Time, to: Time)
    requires Spaced(log) && from <= to < from + WINDOW
    ensures InWindow(log, key, from, to) <= Limit(key.1)
  {
    if |log| > 0 {
      var front, last := log[..|log| - 1], log[|log| - 1];
      assert forall i :: 0 <= i < |front| ==> front[..i] == log[..i] && front[i] == log[i];
      SpacedWindow(front, key, from, to);
      if Matches(last, key) && from <= last.at <= to {
        assert BelowLimits(front, last);
        WindowIsCounted(front, key, from, to, last.at);
        assert key == (last.route, GLOBAL) || key == (last.route, last.ip);
      }
    }
  }

  /** In every run, any window shorter than sixty seconds holds at most 30 calls let through per route, and at
      most 5 per route and client. */
  lemma NoWindowOverflows(calls: seq<Call>, route: string, key: string, from: Time, to: Time)
    requires Ordered(calls) && from <= to < from + WINDOW
    ensures InWindow(Run(calls).log, (route, key), from, to) <= Limit(key)
  {
    RunIsSpaced(calls);
    SpacedWindow(Run(calls).log, (route, key), from, to);
  }

  lemma PushedSize(buckets: map<Key, seq<Time>>, key: Key, now: Time)
    ensures |Pushed(buckets, key, now)| <= |buckets| + 1
  {
    var m := Pushed(buckets, key, now);
    assert m.Keys == buckets.Keys + {key};
    assert |m.Keys| == |m| && |buckets.Keys| == |buckets|;
  }

  /** The table never holds more than 4098 buckets. */
  lemma {:induction false} TableIsBounded(calls: seq<Call>)
    ensures |Run(calls).buckets| <= MAX_BUCKETS + 2
  {
    if |calls| > 0 {
      var s, call := Run(calls[..|calls| - 1]), calls[|calls| - 1];
      TableIsBounded(calls[..|calls| - 1]);
      var kept := Pruned(s.buckets, call.at);
      assert kept.Keys <= s.buckets.Keys;
      SubsetSize(kept.Keys, s.buckets.Keys);
      assert |kept.Keys| == |kept| && |s.buckets.Keys| == |s.buckets|;
      hide Pruned, Pushed;
      PushedSize(kept, (call.route, GLOBAL), call.at);
      PushedSize(Pushed(kept, (call.route, GLOBAL), call.at), (call.route, call.ip), call.at);
    }
  }
}
