/** The least-recently-used cache of AI replies, per namespace, against the log of its accesses. */
module ReplyCache {
  import opened Bytes
  import Strings

  type Time = nat
  type Key = string

  datatype Decision = Decision(reply: string, actions: seq<string>, tasks: seq<string>)

  /** Only a plain reply is worth keeping. */
  predicate Cacheable(d: Decision) {
    !Strings.Blank(d.reply) && d.actions == [] && d.tasks == []
  }

  datatype Stored = Stored(at: Time, decision: Decision)

  datatype Cache = Cache(entries: map<Key, Stored>, order: seq<Key>)

  const EMPTY: Cache := Cache(map[], [])

  function Without(order: seq<Key>, key: Key): seq<Key> {
    if |order| == 0 then []
    else Without(order[..|order| - 1], key) + if order[|order| - 1] == key then [] else [order[|order| - 1]]
  }

  function Evicting(c: Cache, capacity: nat): Cache
    decreases |c.order|
  {
    if |c.entries| > capacity && |c.order| > 0 then Evicting(Cache(c.entries - {c.order[0]}, c.order[1..]), capacity)
    else c
  }

  function Inserting(c: Cache, capacity: nat, key: Key, stored: Stored): Cache {
    Evicting(Cache(c.entries[key := stored], Without(c.order, key) + [key]), capacity)
  }

  function Removing(c: Cache, key: Key): Cache {
    Cache(c.entries - {key}, Without(c.order, key))
  }

  predicate Outlived(stored: Stored, ttl: nat, now: Time) {
    now > stored.at + ttl
  }

  function Getting(c: Cache, ttl: nat, key: Key, now: Time): (Cache, Option<Decision>) {
    if key !in c.entries then (c, None)
    else if Outlived(c.entries[key], ttl, now) then (Removing(c, key), None)
    else (c.(order := Without(c.order, key) + [key]), Some(c.entries[key].decision))
  }

  function Of(namespaces: map<string, Cache>, namespace: string): Cache {
    if namespace in namespaces then namespaces[namespace] else EMPTY
  }

  class AiReplyCache {
    var namespaces: map<string, Cache>
    const capacity: nat
    const ttl: nat

    constructor (capacity: nat, ttl: nat)
      ensures namespaces == map[] && this.capacity == (if capacity == 0 then 1 else capacity) && this.ttl == ttl
    {
      this.capacity := if capacity == 0 then 1 else capacity;
      this.ttl := ttl;
      namespaces := map[];
    }

    method Get(namespace: string, key: Key, now: Time) returns (r: Option<Decision>)
      modifies this
      ensures (Of(namespaces, namespace), r) == Getting(Of(old(namespaces), namespace), ttl, key, now)
      ensures forall other :: other != namespace ==> Of(namespaces, other) == Of(old(namespaces), other)
    {
      if namespace !in namespaces {
        return None;
      }
      var state := namespaces[namespace];
      if key !in state.entries {
        return None;
      }
      var stored := state.entries[key];
      var others := Dropped(state.order, key);
      if now > stored.at + ttl {
        namespaces := namespaces[namespace := Cache(state.entries - {key}, others)];
        return None;
      }
      namespaces := namespaces[namespace := state.(order := others + [key])];
      r := Some(stored.decision);
    }

    method Insert(namespace: string, key: Key, decision: Decision, now: Time) returns (ok: bool)
      modifies this
      ensures ok == Cacheable(decision)
      ensures Of(namespaces, namespace) ==
        if ok then Inserting(Of(old(namespaces), namespace), capacity, key, Stored(now, decision))
        else Of(old(namespaces), namespace)
      ensures forall other :: other != namespace ==> Of(namespaces, other) == Of(old(namespaces), other)
    {
      if !Cacheable(decision) {
        return false;
      }
      var state := if namespace in namespaces then namespaces[namespace] else EMPTY;
      var order := Dropped(state.order, key);
      order := order + [key];
      var entries := state.entries[key := Stored(now, decision)];
      while |entries| > capacity && |order| > 0
        invariant Evicting(Cache(entries, order), capacity) ==
          Inserting(Of(old(namespaces), namespace), capacity, key, Stored(now, decision))
        decreases |order|
      {
        entries := entries - {order[0]};
        order := order[1..];
      }
      namespaces := namespaces[namespace := Cache(entries, order)];
      ok := true;
    }

    method Remove(namespace: string, key: Key)
      modifies this
      ensures Of(namespaces, namespace) == Removing(Of(old(namespaces), namespace), key)
      ensures forall other :: other != namespace ==> Of(namespaces, other) == Of(old(namespaces), other)
    {
      if namespace in namespaces {
        var state := namespaces[namespace];
        var others := Dropped(state.order, key);
        namespaces := namespaces[namespace := Cache(state.entries - {key}, others)];
      }
    }
  }

  method Dropped(order: seq<Key>, key: Key) returns (kept: seq<Key>)
    ensures kept == Without(order, key)
  {
    kept := [];
    for i := 0 to |order|
      invariant kept == Without(order[..i], key)
    {
      assert order[..i + 1][..i] == order[..i];
      if order[i] != key {
        kept := kept + [order[i]];
      }
    }
    assert order[..|order|] == order;
  }

  // ---- Any sequence of calls ----

  datatype Event =
    | Get(namespace: string, key: Key, now: Time)
    | Insert(namespace: string, key: Key, decision: Decision, now: Time)
    | Remove(namespace: string, key: Key)

  function Apply(c: Cache, capacity: nat, ttl: nat, e: Event): Cache {
    match e
    case Get(_, key, now) => Getting(c, ttl, key, now).0
    case Insert(_, key, decision, now) =>
      if Cacheable(decision) then Inserting(c, capacity, key, Stored(now, decision)) else c
    case Remove(_, key) => Removing(c, key)
  }

  function Run(capacity: nat, ttl: nat, events: seq<Event>): map<string, Cache> {
    if |events| == 0 then map[]
    else
      var before := Run(capacity, ttl, events[..|events| - 1]);
      var e := events[|events| - 1];
      before[e.namespace := Apply(Of(before, e.namespace), capacity, ttl, e)]
  }

  /** The events of one namespace, in order, and what they alone lead to. */
  function Only(events: seq<Event>, namespace: string): seq<Event> {
    if |events| == 0 then []
    else
      Only(events[..|events| - 1], namespace)
      + if events[|events| - 1].namespace == namespace then [events[|events| - 1]] else []
  }

  function Alone(capacity: nat, ttl: nat, events: seq<Event>): Cache {
    if |events| == 0 then EMPTY
    else Apply(Alone(capacity, ttl, events[..|events| - 1]), capacity, ttl, events[|events| - 1])
  }

  /** Namespaces never affect each other. */
  lemma {:induction false} NamespacesAreIndependent(capacity: nat, ttl: nat, events: seq<Event>, namespace: string)
    ensures Of(Run(capacity, ttl, events), namespace) == Alone(capacity, ttl, Only(events, namespace))
  {
    if |events| > 0 {
      hide Apply;
      var front := events[..|events| - 1];
      NamespacesAreIndependent(capacity, ttl, front, namespace);
      var only := Only(front, namespace);
      assert (only + [events[|events| - 1]])[..|only|] == only;
      assert only + [] == only;
    }
  }

  // ---- The order list and the entries ----

  ghost predicate Distinct(order: seq<Key>) {
    forall i, j :: 0 <= i < j < |order| ==> order[i] != order[j]
  }

  ghost predicate Sound(c: Cache, capacity: nat) {
    Distinct(c.order) && (forall k :: k in c.entries <==> k in c.order) && |c.order| <= capacity
  }

  lemma {:induction false} WithoutHas(order: seq<Key>, key: Key)
    ensures forall k :: k in Without(order, key) <==> k in order && k != key
    ensures |Without(order, key)| <= |order|
    ensures key in order ==> |Without(order, key)| < |order|
    ensures Distinct(order) ==> Distinct(Without(order, key)) && (key !in order ==> Without(order, key) == order)
  {
    if |order| > 0 {
      var front, last := order[..|order| - 1], order[|order| - 1];
      WithoutHas(front, key);
      assert order == front + [last];
      assert forall k :: k in order <==> k in front || k == last;
      assert Distinct(order) ==> Distinct(front) && last !in front;
    }
  }

  lemma {:induction false} DistinctSize(order: seq<Key>, keys: set<Key>)
    requires Distinct(order) && forall k :: k in keys <==> k in order
    ensures |keys| == |order|
  {
    if |order| > 0 {
      var front, last := order[..|order| - 1], order[|order| - 1];
      assert order == front + [last];
      DistinctSize(front, keys - {last});
    }
  }

  lemma EntriesSize(c: Cache)
    requires Distinct(c.order) && forall k :: k in c.entries <==> k in c.order
    ensures |c.entries| == |c.order|
  {
    DistinctSize(c.order, c.entries.Keys);
    assert |c.entries.Keys| == |c.entries|;
  }

  ghost predicate Matched(c: Cache) {
    Distinct(c.order) && forall k :: k in c.entries <==> k in c.order
  }

  lemma EvictingOne(c: Cache, capacity: nat)
    requires Matched(c) && |c.order| <= capacity + 1
    ensures Evicting(c, capacity) ==
      if |c.order| > capacity then Cache(c.entries - {c.order[0]}, c.order[1..]) else c
    ensures Sound(Evicting(c, capacity), capacity)
  {
    EntriesSize(c);
    if |c.order| > capacity {
      var less := Cache(c.entries - {c.order[0]}, c.order[1..]);
      assert c.order == [c.order[0]] + c.order[1..];
      assert Matched(less);
      EntriesSize(less);
    }
  }

  lemma TouchedMatches(c: Cache, capacity: nat, key: Key, stored: Stored)
    requires Sound(c, capacity)
    ensures Matched(Cache(c.entries[key := stored], Without(c.order, key) + [key]))
    ensures |Without(c.order, key) + [key]| <= capacity + 1
  {
    WithoutHas(c.order, key);
    hide Without;
  }

  /** With one key too many, exactly the oldest goes. */
  lemma InsertingIs(c: Cache, capacity: nat, key: Key, stored: Stored)
    requires Sound(c, capacity) && capacity >= 1
    ensures var order := Without(c.order, key) + [key];
      Inserting(c, capacity, key, stored) ==
        if |order| > capacity then Cache(c.entries[key := stored] - {order[0]}, order[1..])
        else Cache(c.entries[key := stored], order)
    ensures Sound(Inserting(c, capacity, key, stored), capacity)
    ensures key in Inserting(c, capacity, key, stored).entries
    ensures Inserting(c, capacity, key, stored).entries[key] == stored
  {
    TouchedMatches(c, capacity, key, stored);
    EvictingOne(Cache(c.entries[key := stored], Without(c.order, key) + [key]), capacity);
    hide Without, Evicting, Sound;
    var order := Without(c.order, key) + [key];
    assert |order| > capacity ==> order[|order| - 1] == key && order[0] != key;
  }

  lemma ApplyKeepsSound(c: Cache, capacity: nat, ttl: nat, e: Event)
    requires Sound(c, capacity) && capacity >= 1
    ensures Sound(Apply(c, capacity, ttl, e), capacity)
  {
    WithoutHas(c.order, e.key);
    hide Without;
    match e {
      case Get(_, key, now) =>
      case Insert(_, key, decision, now) => InsertingIs(c, capacity, key, Stored(now, decision));
      case Remove(_, key) =>
    }
  }

  /** The order list never repeats a key, holds exactly the keys of the entries, and is at most the capacity long. */
  lemma {:induction false} RunIsSound(capacity: nat, ttl: nat, events: seq<Event>)
    requires capacity >= 1
    ensures Sound(Alone(capacity, ttl, events), capacity)
  {
    if |events| > 0 {
      hide Sound, Apply;
      RunIsSound(capacity, ttl, events[..|events| - 1]);
      ApplyKeepsSound(Alone(capacity, ttl, events[..|events| - 1]), capacity, ttl, events[|events| - 1]);
    } else {
      EmptyIsSound(capacity);
    }
  }

  lemma EmptyIsSound(capacity: nat)
    ensures Sound(EMPTY, capacity)
  {
  }

  /** A reply that says something and neither acts nor sets tasks is kept, and just inserted it is there, whatever
      the capacity; any other leaves the cache as it is. */
  lemma JustInsertedSurvives(capacity: nat, ttl: nat, events: seq<Event>, namespace: string, key: Key,
                             decision: Decision, now: Time)
    requires capacity >= 1
    ensures var before := Alone(capacity, ttl, events);
      var after := Alone(capacity, ttl, events + [Insert(namespace, key, decision, now)]);
      var plain := (exists c :: c in decision.reply && !Strings.White(c)) && decision.actions + decision.tasks == [];
      && (plain ==> Getting(after, ttl, key, now).1 == Some(decision))
      && (!plain ==> after == before)
  {
    var all := events + [Insert(namespace, key, decision, now)];
    assert all[..|all| - 1] == events;
    RunIsSound(capacity, ttl, events);
    InsertingIs(Alone(capacity, ttl, events), capacity, key, Stored(now, decision));
    hide Inserting;
    assert Strings.Blank(decision.reply) <==> !exists c :: c in decision.reply && !Strings.White(c);
  }

  // ---- The access log ----

  /** The key a call touches: an accepted insert, or a get that finds it. */
  function Touched(c: Cache, ttl: nat, e: Event): seq<Key> {
    match e
    case Get(_, key, now) => if key in c.entries && !Outlived(c.entries[key], ttl, now) then [key] else []
    case Insert(_, key, decision, _) => if Cacheable(decision) then [key] else []
    case Remove(_, _) => []
  }

  function Log(capacity: nat, ttl: nat, events: seq<Event>): seq<Key> {
    if |events| == 0 then []
    else
      var front := events[..|events| - 1];
      Log(capacity, ttl, front) + Touched(Alone(capacity, ttl, front), ttl, events[|events| - 1])
  }

  /** No removal, and nothing found too old. */
  predicate Quiet(c: Cache, ttl: nat, e: Event) {
    && !e.Remove?
    && (e.Get? && e.key in c.entries ==> !Outlived(c.entries[e.key], ttl, e.now))
  }

  predicate QuietRun(capacity: nat, ttl: nat, events: seq<Event>) {
    |events| == 0 ||
    var front := events[..|events| - 1];
    QuietRun(capacity, ttl, front) && Quiet(Alone(capacity, ttl, front), ttl, events[|events| - 1])
  }

  /** The distinct keys of a log, each where it was touched last. */
  function Recent(log: seq<Key>): seq<Key> {
    if |log| == 0 then [] else Without(Recent(log[..|log| - 1]), log[|log| - 1]) + [log[|log| - 1]]
  }

  function Last(s: seq<Key>, n: nat): seq<Key> {
    if |s| <= n then s else s[|s| - n..]
  }

  lemma {:induction false} WithoutSplit(a: seq<Key>, b: seq<Key>, key: Key)
    ensures Without(a + b, key) == Without(a, key) + Without(b, key)
  {
    if |b| == 0 {
      assert a + b == a;
    } else {
      var front := b[..|b| - 1];
      assert (a + b)[..|a + b| - 1] == a + front;
      WithoutSplit(a, front, key);
    }
  }

  lemma OneMoreKey(order: seq<Key>, key: Key)
    requires Distinct(order) && key !in order
    ensures Distinct(order + [key]) && forall k :: k in order + [key] <==> k in order || k == key
  {
  }

  lemma {:induction false} RecentHas(log: seq<Key>)
    ensures Distinct(Recent(log)) && forall k :: k in Recent(log) <==> k in log
  {
    if |log| > 0 {
      var front, last := log[..|log| - 1], log[|log| - 1];
      assert log == front + [last];
      RecentHas(front);
      WithoutHas(Recent(front), last);
      hide Without, Distinct;
      OneMoreKey(Without(Recent(front), last), last);
      assert forall k :: k in log <==> k in front || k == last;
    }
  }

  /** A key among the last few moves to their end; one further back pushes the first of them out. */
  lemma TouchKept(gone: seq<Key>, kept: seq<Key>, key: Key)
    requires key in kept && key !in gone && Distinct(gone) && Distinct(kept)
    ensures |Without(kept, key)| == |kept| - 1
    ensures Last(Without(gone + kept, key) + [key], |kept|) == Without(kept, key) + [key]
  {
    WithoutSplit(gone, kept, key);
    WithoutHas(gone, key);
    WithoutLength(kept, key);
    hide Without, Distinct;
    SuffixOf(gone, Without(kept, key) + [key]);
    Associate(gone, Without(kept, key), [key]);
  }

  lemma TouchForgotten(gone: seq<Key>, kept: seq<Key>, key: Key)
    requires key !in kept && |kept| > 0 && Distinct(kept)
    ensures Without(kept, key) == kept
    ensures Last(Without(gone + kept, key) + [key], |kept|) == (kept + [key])[1..]
  {
    WithoutSplit(gone, kept, key);
    WithoutHas(kept, key);
    var front := Without(gone, key);
    hide Without, Distinct;
    Associate(front, kept, [key]);
    var tail := (kept + [key])[1..];
    assert kept + [key] == [kept[0]] + tail;
    Associate(front, [kept[0]], tail);
    SuffixOf(front + [kept[0]], tail);
  }

  lemma DistinctHalves(gone: seq<Key>, kept: seq<Key>)
    requires Distinct(gone + kept)
    ensures Distinct(gone) && Distinct(kept) && forall k :: k in kept ==> k !in gone
  {
    forall k | k in kept
      ensures k !in gone
    {
      var i :| 0 <= i < |kept| && kept[i] == k;
      assert (gone + kept)[|gone| + i] == k;
      assert forall g :: 0 <= g < |gone| ==> gone[g] == (gone + kept)[g];
    }
    assert forall i :: 0 <= i < |gone| ==> gone[i] == (gone + kept)[i];
    assert forall i :: 0 <= i < |kept| ==> kept[i] == (gone + kept)[|gone| + i];
  }

  /** Touching a key and keeping the last few commute, up to the one that falls out. */
  lemma LastTouched(recent: seq<Key>, n: nat, key: Key)
    requires Distinct(recent) && n >= 1
    ensures var order := Without(Last(recent, n), key) + [key];
      Last(Without(recent, key) + [key], n) == if |order| > n then order[1..] else order
  {
    if |recent| > n {
      var gone, kept := recent[..|recent| - n], recent[|recent| - n..];
      assert recent == gone + kept;
      DistinctHalves(gone, kept);
      hide Without, Distinct;
      if key in kept {
        TouchKept(gone, kept, key);
      } else {
        TouchForgotten(gone, kept, key);
      }
    } else {
      WithoutHas(recent, key);
      hide Without, Distinct;
      LastOfFew(Without(recent, key) + [key], n);
    }
  }

  lemma LastOfFew(order: seq<Key>, n: nat)
    requires |order| <= n + 1
    ensures Last(order, n) == if |order| > n then order[1..] else order
  {
  }

  lemma SuffixOf(front: seq<Key>, back: seq<Key>)
    ensures Last(front + back, |back|) == back
  {
  }

  lemma {:induction false} WithoutLength(order: seq<Key>, key: Key)
    requires Distinct(order) && key in order
    ensures |Without(order, key)| == |order| - 1
  {
    var front, last := order[..|order| - 1], order[|order| - 1];
    assert order == front + [last];
    if last == key {
      WithoutHas(front, key);
      assert key !in front;
    } else {
      WithoutLength(front, key);
    }
  }

  /** In a quiet run the order list is the most recent keys of the access log, as many as the capacity allows. */
  lemma {:induction false} OrderIsRecent(capacity: nat, ttl: nat, events: seq<Event>)
    requires capacity >= 1 && QuietRun(capacity, ttl, events)
    ensures Alone(capacity, ttl, events).order == Last(Recent(Log(capacity, ttl, events)), capacity)
  {
    if |events| > 0 {
      var front, e := events[..|events| - 1], events[|events| - 1];
      OrderIsRecent(capacity, ttl, front);
      RunIsSound(capacity, ttl, front);
      TouchIsRecent(Alone(capacity, ttl, front), capacity, ttl, Log(capacity, ttl, front), e);
    }
  }

  lemma TouchIsRecent(c: Cache, capacity: nat, ttl: nat, log: seq<Key>, e: Event)
    requires capacity >= 1 && Sound(c, capacity) && c.order == Last(Recent(log), capacity) && Quiet(c, ttl, e)
    ensures Apply(c, capacity, ttl, e).order == Last(Recent(log + Touched(c, ttl, e)), capacity)
  {
    RecentHas(log);
    var touched := Touched(c, ttl, e);
    if touched == [] {
      assert log + touched == log;
    } else {
      assert (log + touched)[..|log + touched| - 1] == log;
      LastTouched(Recent(log), capacity, e.key);
      if e.Insert? {
        InsertingIs(c, capacity, e.key, Stored(e.now, e.decision));
      } else {
        WithoutLength(c.order, e.key);
      }
      hide Without, Inserting, Recent, Last;
    }
  }

  // ---- Least recently used ----

  /** The other keys touched since `key` was last touched. */
  function Since(log: seq<Key>, key: Key): set<Key> {
    if |log| == 0 || log[|log| - 1] == key then {} else Since(log[..|log| - 1], key) + {log[|log| - 1]}
  }

  function Behind(order: seq<Key>, key: Key): seq<Key> {
    if |order| == 0 || order[|order| - 1] == key then [] else Behind(order[..|order| - 1], key) + [order[|order| - 1]]
  }

  lemma {:induction false} BehindWithout(order: seq<Key>, key: Key, other: Key)
    requires key != other
    ensures Behind(Without(order, other), key) == Without(Behind(order, key), other)
  {
    if |order| > 0 {
      var front, last := order[..|order| - 1], order[|order| - 1];
      BehindWithout(front, key, other);
      var without := Without(front, other);
      assert (without + [last])[..|without|] == without;
      var behind := Behind(front, key);
      assert (behind + [last])[..|behind|] == behind;
      assert without + [] == without;
    }
  }

  lemma {:induction false} BehindIsSince(log: seq<Key>, key: Key)
    ensures forall k :: k in Behind(Recent(log), key) <==> k in Since(log, key)
  {
    if |log| > 0 {
      var front, last := log[..|log| - 1], log[|log| - 1];
      BehindIsSince(front, key);
      var without := Without(Recent(front), last);
      assert (without + [last])[..|without|] == without;
      if last != key {
        BehindWithout(Recent(front), key, last);
        WithoutHas(Behind(Recent(front), key), last);
        hide Without;
      }
    }
  }

  lemma {:induction false} BehindIsTail(order: seq<Key>, i: nat)
    requires Distinct(order) && i < |order|
    ensures Behind(order, order[i]) == order[i + 1..]
  {
    var front, last := order[..|order| - 1], order[|order| - 1];
    if i < |order| - 1 {
      assert order[i] != last;
      BehindIsTail(front, i);
      assert front[i + 1..] + [last] == order[i + 1..];
    }
  }

  lemma KeptIffFewBehind(recent: seq<Key>, n: nat, key: Key)
    requires Distinct(recent)
    ensures key in Last(recent, n) <==> key in recent && |Behind(recent, key)| < n
  {
    if key in recent {
      var i :| 0 <= i < |recent| && recent[i] == key;
      BehindIsTail(recent, i);
      hide Behind;
      if |recent| > n {
        var from := |recent| - n;
        assert i >= from ==> recent[from..][i - from] == key;
        if key in recent[from..] {
          var j :| 0 <= j < n && recent[from..][j] == key;
          assert recent[from + j] == recent[i];
        }
      }
    } else {
      assert forall k :: k in Last(recent, n) ==> k in recent;
    }
  }

  /** In runs without removals or expiry, a key is in the cache exactly when it was touched and fewer than
      `capacity` other keys were touched since. */
  lemma LeastRecentlyUsed(capacity: nat, ttl: nat, events: seq<Event>, key: Key)
    requires capacity >= 1 && QuietRun(capacity, ttl, events)
    ensures var log := Log(capacity, ttl, events);
      key in Alone(capacity, ttl, events).entries <==> key in log && |Since(log, key)| < capacity
  {
    var log := Log(capacity, ttl, events);
    RunIsSound(capacity, ttl, events);
    OrderIsRecent(capacity, ttl, events);
    RecentHas(log);
    KeptIffFewBehind(Recent(log), capacity, key);
    hide QuietRun, Log, Behind, Recent, Since, Last;
    if key in log {
      BehindSize(log, key);
    }
  }

  lemma BehindSize(log: seq<Key>, key: Key)
    requires key in log
    ensures |Behind(Recent(log), key)| == |Since(log, key)|
  {
    RecentHas(log);
    BehindIsSince(log, key);
    hide Recent, Since;
    var i :| 0 <= i < |Recent(log)| && Recent(log)[i] == key;
    BehindIsTail(Recent(log), i);
    DistinctSize(Behind(Recent(log), key), Since(log, key));
  }

  /** The latest accepted insert of a key. */
  function Latest(events: seq<Event>, key: Key): Option<Stored> {
    if |events| == 0 then None
    else
      var e := events[|events| - 1];
      if e.Insert? && e.key == key && Cacheable(e.decision) then Some(Stored(e.now, e.decision))
      else Latest(events[..|events| - 1], key)
  }

  /** Whatever is in the cache is what was last inserted under its key. */
  lemma {:induction false} HoldsTheLatest(capacity: nat, ttl: nat, events: seq<Event>, key: Key)
    requires capacity >= 1 && key in Alone(capacity, ttl, events).entries
    ensures Latest(events, key) == Some(Alone(capacity, ttl, events).entries[key])
  {
    if |events| > 0 {
      var front, e := events[..|events| - 1], events[|events| - 1];
      RunIsSound(capacity, ttl, front);
      if e.Insert? {
        InsertingIs(Alone(capacity, ttl, front), capacity, e.key, Stored(e.now, e.decision));
      }
      hide Inserting, Without, Strings.Blank;
      if key in Alone(capacity, ttl, front).entries {
        HoldsTheLatest(capacity, ttl, front, key);
      }
    }
  }

  /** The key was removed after it was last inserted. */
  predicate RemovedSince(events: seq<Event>, key: Key) {
    |events| > 0 &&
    var e := events[|events| - 1];
    if e.Insert? && e.key == key && Cacheable(e.decision) then false
    else (e.Remove? && e.key == key) || RemovedSince(events[..|events| - 1], key)
  }

  lemma {:induction false} PresentIsNotRemoved(capacity: nat, ttl: nat, events: seq<Event>, key: Key)
    requires capacity >= 1 && key in Alone(capacity, ttl, events).entries
    ensures !RemovedSince(events, key)
  {
    if |events| > 0 {
      var front, e := events[..|events| - 1], events[|events| - 1];
      RunIsSound(capacity, ttl, front);
      if e.Insert? {
        InsertingIs(Alone(capacity, ttl, front), capacity, e.key, Stored(e.now, e.decision));
      }
      hide Inserting, Without, Strings.Blank;
      if key in Alone(capacity, ttl, front).entries {
        PresentIsNotRemoved(capacity, ttl, front, key);
      }
    }
  }

  /** In every run, what is found is what was last inserted under its key, not removed since and not older than its
      time; and whatever is in the cache and not too old is found. */
  lemma FoundExactly(capacity: nat, ttl: nat, events: seq<Event>, key: Key, now: Time)
    requires capacity >= 1
    ensures var c := Alone(capacity, ttl, events);
      var found := Getting(c, ttl, key, now).1;
      && (found.Some? ==>
            && Latest(events, key).Some? && found.value == Latest(events, key).value.decision
            && now <= Latest(events, key).value.at + ttl && !RemovedSince(events, key))
      && (found.None? && key in c.entries ==>
            Latest(events, key).Some? && now > Latest(events, key).value.at + ttl)
  {
    if key in Alone(capacity, ttl, events).entries {
      HoldsTheLatest(capacity, ttl, events, key);
      PresentIsNotRemoved(capacity, ttl, events, key);
    }
  }
}
