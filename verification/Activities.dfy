/** When an activity is sent next. */
module Activities {
  import opened Bytes

  /** Days since the epoch, seconds since midnight, and nanoseconds since the epoch. */
  type Date = int
  type Time = x: nat | x < 86400
  type Instant = int

  /** Far beyond any date in use: the last one the calendar represents. */
  const MAX_DATE: Date := 95026236

  /** The time zone: the local date of an instant, and the earliest instant a local date and time names, if any. */
  datatype Zone = Zone(dateOf: Instant -> Date, earliest: (Date, Time) -> Option<Instant>)

  datatype Activity = Activity(
    described: bool, enabled: bool, deleted: bool, start: Date, end: Date, weekdays: seq<nat>, times: seq<Time>)

  datatype Error = Invalid | DatesOutOfRange

  /** Monday is 1; the epoch was a Thursday. */
  function Weekday(d: Date): nat {
    (d + 3) % 7 + 1
  }

  /** Days follow each other through the week, from Monday, 1, to Sunday, 7, and the epoch was a Thursday. */
  lemma WeekdaysFollow(d: Date)
    ensures Weekday(0) == 4 && 1 <= Weekday(d) <= 7
    ensures Weekday(d + 1) == if Weekday(d) == 7 then 1 else Weekday(d) + 1
  {
  }

  /** `described` stands for the checks on name, content, groups, zone name and instructions. */
  predicate Valid(a: Activity) {
    && a.described && a.start <= a.end <= MAX_DATE
    && a.weekdays != [] && (forall i :: 0 <= i < |a.weekdays| ==> 1 <= a.weekdays[i] <= 7)
    && a.times != []
  }

  lemma ValidExactly(a: Activity)
    ensures Valid(a) <==>
      && a.described && a.start <= a.end <= 95026236 && |a.weekdays| > 0 && |a.times| > 0
      && forall day :: day in a.weekdays ==> 1 <= day <= 7
  {
    assert forall i :: 0 <= i < |a.weekdays| ==> a.weekdays[i] in a.weekdays;
  }

  /** Later local times name later instants, and a local time of an earlier date than `x` has names none after `x`. */
  ghost predicate Lawful(z: Zone) {
    && (forall d, t, e, u :: z.earliest(d, t).Some? && z.earliest(e, u).Some? && (d < e || (d == e && t < u)) ==>
          z.earliest(d, t).value < z.earliest(e, u).value)
    && (forall x, d, t :: z.earliest(d, t).Some? && d < z.dateOf(x) ==> z.earliest(d, t).value <= x)
  }

  predicate Ascending(times: seq<Time>) {
    forall i, j :: 0 <= i < j < |times| ==> times[i] < times[j]
  }

  method SortedWithoutRepeats(times: seq<Time>) returns (sorted: seq<Time>)
    ensures Ascending(sorted) && forall t :: t in sorted <==> t in times
  {
    sorted := [];
    for i := 0 to |times|
      invariant Ascending(sorted) && forall t :: t in sorted <==> t in times[..i]
    {
      var k := 0;
      while k < |sorted| && sorted[k] < times[i]
        invariant 0 <= k <= |sorted| && forall j :: 0 <= j < k ==> sorted[j] < times[i]
      {
        k := k + 1;
      }
      assert times[..i + 1] == times[..i] + [times[i]];
      if k == |sorted| || sorted[k] != times[i] {
        Inserted(sorted, k, times[i]);
        sorted := sorted[..k] + [times[i]] + sorted[k..];
      }
    }
    assert times[..|times|] == times;
  }

  lemma Inserted(sorted: seq<Time>, k: nat, t: Time)
    requires Ascending(sorted) && k <= |sorted|
    requires (forall j :: 0 <= j < k ==> sorted[j] < t) && (k < |sorted| ==> t < sorted[k])
    ensures var after := sorted[..k] + [t] + sorted[k..];
      Ascending(after) && forall u :: u in after <==> u in sorted || u == t
  {
    assert sorted == sorted[..k] + sorted[k..];
  }

  // ---- Occurrences ----

  predicate Scheduled(a: Activity, d: Date, t: Time) {
    a.start <= d <= a.end && Weekday(d) in a.weekdays && t in a.times
  }

  /** `x` is one of the activity's instants. */
  ghost predicate Occurs(z: Zone, a: Activity, x: Instant) {
    exists d, t :: Scheduled(a, d, t) && z.earliest(d, t) == Some(x)
  }

  ghost predicate Next(z: Zone, a: Activity, after: Instant, x: Option<Instant>) {
    match x
    case Some(v) => v > after && Occurs(z, a, v) && forall y :: after < y && Occurs(z, a, y) ==> v <= y
    case None => forall y :: after < y ==> !Occurs(z, a, y)
  }

  /** Nothing scheduled before date `d`, or on it among the first `k` times, comes after `after`. */
  ghost predicate NoneBefore(z: Zone, a: Activity, after: Instant, d: Date, times: seq<Time>, k: nat) {
    var tried := times[..if k <= |times| then k else |times|];
    forall e, u :: Scheduled(a, e, u) && z.earliest(e, u).Some? && (e < d || (e == d && u in tried)) ==>
      z.earliest(e, u).value <= after
  }

  /** The search runs off the calendar: it is asked to look up to its very last day and finds nothing. */
  ghost predicate OutOfRange(z: Zone, a: Activity, after: Instant) {
    a.end == MAX_DATE && z.dateOf(after) <= MAX_DATE && Next(z, a, after, None)
  }

  /** The least instant scheduled after `after`. */
  method NextOccurrence(z: Zone, a: Activity, after: Instant) returns (r: Result<Option<Instant>, Error>)
    requires Lawful(z)
    ensures r != Err(Invalid) <==>
      && a.described && a.start <= a.end <= 95026236 && |a.weekdays| > 0 && |a.times| > 0
      && forall day :: day in a.weekdays ==> 1 <= day <= 7
    ensures Valid(a) && (!a.enabled || a.deleted) ==> r == Ok(None)
    ensures Valid(a) && a.enabled && !a.deleted ==>
      match r
      case Ok(x) => Next(z, a, after, x)
      case Err(e) => e == DatesOutOfRange && OutOfRange(z, a, after)
    ensures r.Ok? && Valid(a) && a.enabled && !a.deleted ==> !OutOfRange(z, a, after)
  {
    ValidExactly(a);
    if !Valid(a) {
      return Err(Invalid);
    }
    if !a.enabled || a.deleted {
      return Ok(None);
    }
    var local := z.dateOf(after);
    var date := if a.start > local then a.start else local;
    var times := SortedWithoutRepeats(a.times);
    while date <= a.end
      invariant date >= a.start && (date > a.end ==> a.end < MAX_DATE || local > MAX_DATE)
      invariant NoneBefore(z, a, after, date, times, 0)
      decreases a.end - date
    {
      if Weekday(date) in a.weekdays {
        for k := 0 to |times|
          invariant NoneBefore(z, a, after, date, times, k)
        {
          var candidate := z.earliest(date, times[k]);
          if candidate.Some? && candidate.value > after {
            FirstIsNext(z, a, after, date, times, k);
            return Ok(candidate);
          }
          OneTimeMore(z, a, after, date, times, k);
        }
      }
      DayDone(z, a, after, date, times);
      if date + 1 > MAX_DATE {
        return Err(DatesOutOfRange);
      }
      date := date + 1;
    }
    r := Ok(None);
  }

  lemma FirstIsNext(z: Zone, a: Activity, after: Instant, d: Date, times: seq<Time>, k: nat)
    requires Lawful(z) && Ascending(times) && (forall t :: t in times <==> t in a.times) && k < |times|
    requires NoneBefore(z, a, after, d, times, k)
    requires a.start <= d <= a.end && Weekday(d) in a.weekdays
    requires z.earliest(d, times[k]).Some? && z.earliest(d, times[k]).value > after
    ensures Next(z, a, after, z.earliest(d, times[k]))
  {
    var v := z.earliest(d, times[k]).value;
    assert Scheduled(a, d, times[k]);
    forall y | after < y && Occurs(z, a, y)
      ensures v <= y
    {
      var e, u :| Scheduled(a, e, u) && z.earliest(e, u) == Some(y);
      assert !(e < d || (e == d && u in times[..k]));
      if e == d {
        var j :| 0 <= j < |times| && times[j] == u;
        assert u in times[..k] || j >= k;
      }
    }
  }

  lemma OneTimeMore(z: Zone, a: Activity, after: Instant, d: Date, times: seq<Time>, k: nat)
    requires NoneBefore(z, a, after, d, times, k) && k < |times|
    requires z.earliest(d, times[k]).Some? ==> z.earliest(d, times[k]).value <= after
    ensures NoneBefore(z, a, after, d, times, k + 1)
  {
    assert times[..k + 1] == times[..k] + [times[k]];
  }

  lemma DayDone(z: Zone, a: Activity, after: Instant, d: Date, times: seq<Time>)
    requires forall t :: t in times <==> t in a.times
    requires NoneBefore(z, a, after, d, times, 0)
    requires Weekday(d) in a.weekdays ==> NoneBefore(z, a, after, d, times, |times|)
    ensures NoneBefore(z, a, after, d + 1, times, 0)
  {
    assert times[..|times|] == times;
  }

  // ---- All occurrences ----

  ghost function Instants(z: Zone, a: Activity): set<Instant> {
    set d, t | a.start <= d <= a.end && t in a.times && Scheduled(a, d, t) && z.earliest(d, t).Some? ::
      z.earliest(d, t).value
  }

  lemma InstantsOccur(z: Zone, a: Activity)
    ensures forall x :: x in Instants(z, a) <==> Occurs(z, a, x)
  {
  }

  ghost function Remaining(z: Zone, a: Activity, after: Instant): set<Instant> {
    set x | x in Instants(z, a) && x > after
  }

  lemma Member<T>(s: set<T>) returns (x: T)
    requires |s| > 0
    ensures x in s
  {
    x :| x in s;
  }

  lemma {:induction false} LeastOf(s: set<Instant>) returns (least: Instant)
    requires |s| > 0
    ensures least in s && forall x :: x in s ==> least <= x
  {
    var x := Member(s);
    if s == {x} {
      least := x;
    } else {
      var rest := LeastOf(s - {x});
      least := if x <= rest then x else rest;
      assert forall y :: y in s ==> y == x || y in s - {x};
    }
  }

  lemma NextExists(z: Zone, a: Activity, after: Instant) returns (x: Option<Instant>)
    ensures Next(z, a, after, x)
    ensures x.Some? ==> Remaining(z, a, x.value) < Remaining(z, a, after)
  {
    InstantsOccur(z, a);
    var s := Remaining(z, a, after);
    if s == {} {
      x := None;
      assert forall y :: after < y && Occurs(z, a, y) ==> y in s;
    } else {
      var least := LeastOf(s);
      x := Some(least);
      assert least !in Remaining(z, a, least);
      assert forall y :: after < y && Occurs(z, a, y) ==> y in s;
    }
  }

  /** Asking again and again, each time after the last answer, until there is none. */
  ghost predicate Asked(z: Zone, a: Activity, after: Instant, answers: seq<Instant>)
    decreases |answers|
  {
    if |answers| == 0 then Next(z, a, after, None)
    else Next(z, a, after, Some(answers[0])) && Asked(z, a, answers[0], answers[1..])
  }

  /** This comes to an end, lists every occurrence to come exactly once and in order, and nothing else. */
  lemma {:induction false} AsksAllOnce(z: Zone, a: Activity, after: Instant) returns (answers: seq<Instant>)
    ensures Asked(z, a, after, answers)
    ensures forall i, j :: 0 <= i < j < |answers| ==> answers[i] < answers[j]
    ensures forall x :: x in answers <==> Occurs(z, a, x) && x > after
    decreases Remaining(z, a, after)
  {
    var x := NextExists(z, a, after);
    if x.None? {
      answers := [];
    } else {
      var tail := AsksAllOnce(z, a, x.value);
      answers := [x.value] + tail;
      assert forall y :: y in answers <==> y == x.value || y in tail;
      assert forall i :: 0 < i < |answers| ==> answers[i] == tail[i - 1] && tail[i - 1] in tail;
    }
  }

  // ---- Fixed offsets ----

  const DAY: int := 86400
  const NANOS: int := 1_000_000_000

  /** A zone at a constant distance of `offset` seconds from UTC. */
  function Fixed(offset: int): Zone {
    Zone((x: Instant) => (x + offset * NANOS) / (DAY * NANOS),
         (d: Date, t: Time) => Some((d * DAY + t - offset) * NANOS))
  }

  lemma FixedOffsetsAreLawful(offset: int)
    ensures Lawful(Fixed(offset))
  {
    var z := Fixed(offset);
    forall x, d, t | d < z.dateOf(x)
      ensures z.earliest(d, t).value <= x
    {
      var days := (x + offset * NANOS) / (DAY * NANOS);
      assert days * (DAY * NANOS) <= x + offset * NANOS;
    }
  }
}
