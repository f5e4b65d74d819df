/** The check that a rewritten activity text keeps the original's facts, in order, and invents none. */
module FactCheck {
  import opened Bytes

  const MAX_CHARS: nat := 1000

  /** What the text library provides: trimming, the form compared for duplicates, and the fact tokens of a text. */
  datatype Texts = Texts(trim: string -> string, normal: string -> string, tokens: string -> seq<string>)

  datatype Error = Length | Duplicate | Facts(token: string) | Invented(token: string)

  predicate At(text: string, p: nat, token: string) {
    p + |token| <= |text| && text[p..p + |token|] == token
  }

  /** The leftmost place at or behind `from`. */
  function Find(text: string, from: nat, token: string): (p: Option<nat>)
    ensures p.Some? ==> from <= p.value && At(text, p.value, token)
    ensures p.Some? ==> forall q :: from <= q < p.value ==> !At(text, q, token)
    ensures p.None? ==> forall q :: from <= q ==> !At(text, q, token)
    decreases |text| - from
  {
    if from + |token| > |text| then None
    else if At(text, from, token) then Some(from)
    else Find(text, from + 1, token)
  }

  /** The first token the greedy scan cannot place, if any. */
  function Scan(text: string, cursor: nat, tokens: seq<string>): Option<string>
    decreases |tokens|
  {
    if |tokens| == 0 then None
    else
      var p := Find(text, cursor, tokens[0]);
      if p.None? then Some(tokens[0]) else Scan(text, p.value + |tokens[0]|, tokens[1..])
  }

  function FirstForeign(tokens: seq<string>, allowed: seq<string>): (t: Option<string>)
    ensures t.None? <==> forall i :: 0 <= i < |tokens| ==> tokens[i] in allowed
    ensures t.Some? ==> t.value in tokens && t.value !in allowed
  {
    if |tokens| == 0 then None
    else if tokens[0] !in allowed then Some(tokens[0])
    else FirstForeign(tokens[1..], allowed)
  }

  function Validating(lib: Texts, original: string, given: string, recent: seq<string>): Result<string, Error> {
    var candidate := lib.trim(given);
    if |candidate| == 0 || |candidate| > MAX_CHARS then Err(Length)
    else if exists i :: 0 <= i < |recent| && lib.normal(recent[i]) == lib.normal(candidate) then Err(Duplicate)
    else
      var required := lib.tokens(original);
      var missing := Scan(candidate, 0, required);
      if missing.Some? then Err(Facts(missing.value))
      else
        var foreign := FirstForeign(lib.tokens(candidate), required);
        if foreign.Some? then Err(Invented(foreign.value)) else Ok(candidate)
  }

  method FindFrom(text: string, from: nat, token: string) returns (p: Option<nat>)
    ensures p == Find(text, from, token)
  {
    var q := from;
    while q + |token| <= |text|
      invariant Find(text, q, token) == Find(text, from, token)
      decreases |text| - q
    {
      if text[q..q + |token|] == token {
        return Some(q);
      }
      q := q + 1;
    }
    p := None;
  }

  method ValidateGeneratedText(lib: Texts, original: string, given: string, recent: seq<string>)
    returns (r: Result<string, Error>)
    ensures r == Validating(lib, original, given, recent)
  {
    var candidate := lib.trim(given);
    if |candidate| == 0 || |candidate| > MAX_CHARS {
      return Err(Length);
    }
    var normalized := lib.normal(candidate);
    for i := 0 to |recent|
      invariant forall j :: 0 <= j < i ==> lib.normal(recent[j]) != normalized
    {
      if lib.normal(recent[i]) == normalized {
        return Err(Duplicate);
      }
    }
    var required := lib.tokens(original);
    var cursor: nat := 0;
    for i := 0 to |required|
      invariant Scan(candidate, cursor, required[i..]) == Scan(candidate, 0, required)
    {
      assert required[i..][1..] == required[i + 1..];
      var p := FindFrom(candidate, cursor, required[i]);
      if p.None? {
        return Err(Facts(required[i]));
      }
      cursor := p.value + |required[i]|;
    }
    var found := lib.tokens(candidate);
    for i := 0 to |found|
      invariant FirstForeign(found[i..], required) == FirstForeign(found, required)
    {
      if found[i] !in required {
        return Err(Invented(found[i]));
      }
      assert found[i..][1..] == found[i + 1..];
    }
    r := Ok(candidate);
  }

  /** The tokens stand in the text in this order, none overlapping the next. */
  ghost predicate Placed(text: string, cursor: nat, tokens: seq<string>, places: seq<nat>) {
    && |places| == |tokens|
    && (forall i :: 0 <= i < |tokens| ==>
          places[i] + |tokens[i]| <= |text| && text[places[i]..places[i] + |tokens[i]|] == tokens[i])
    && (|tokens| > 0 ==> cursor <= places[0])
    && (forall i :: 0 < i < |tokens| ==> places[i - 1] + |tokens[i - 1]| <= places[i])
  }

  lemma {:induction false} ScanPlaces(text: string, cursor: nat, tokens: seq<string>) returns (places: seq<nat>)
    requires Scan(text, cursor, tokens).None?
    ensures Placed(text, cursor, tokens, places)
    decreases |tokens|
  {
    if |tokens| == 0 {
      places := [];
    } else {
      var p := Find(text, cursor, tokens[0]).value;
      var tail := ScanPlaces(text, p + |tokens[0]|, tokens[1..]);
      places := [p] + tail;
      forall i | 0 <= i < |tokens|
        ensures At(text, places[i], tokens[i])
        ensures i > 0 ==> places[i - 1] + |tokens[i - 1]| <= places[i]
      {
        if i > 0 {
          assert places[i] == tail[i - 1] && tokens[i] == tokens[1..][i - 1];
          assert i > 1 ==> places[i - 1] == tail[i - 2] && tokens[i - 1] == tokens[1..][i - 2];
        }
      }
    }
  }

  /** Placing each token as early as possible never rules out a later one. */
  lemma {:induction false} GreedyNeverFailsNeedlessly(text: string, cursor: nat, tokens: seq<string>, places: seq<nat>)
    requires Placed(text, cursor, tokens, places)
    ensures Scan(text, cursor, tokens).None?
    decreases |tokens|
  {
    if |tokens| > 0 {
      var p := Find(text, cursor, tokens[0]);
      assert At(text, places[0], tokens[0]);
      assert p.Some? && p.value <= places[0];
      var tail := places[1..];
      assert forall i :: 0 <= i < |tail| ==> tail[i] == places[i + 1] && tokens[1..][i] == tokens[i + 1];
      GreedyNeverFailsNeedlessly(text, p.value + |tokens[0]|, tokens[1..], tail);
    }
  }

  /** The leftmost greedy scan succeeds exactly when some ordered, non-overlapping placement of all tokens exists. */
  lemma ScanIsComplete(text: string, tokens: seq<string>)
    ensures Scan(text, 0, tokens).None? <==> exists places: seq<nat> :: Placed(text, 0, tokens, places)
  {
    if Scan(text, 0, tokens).None? {
      var places := ScanPlaces(text, 0, tokens);
    }
    forall places: seq<nat> | Placed(text, 0, tokens, places)
      ensures Scan(text, 0, tokens).None?
    {
      GreedyNeverFailsNeedlessly(text, 0, tokens, places);
    }
  }

  /** A rewrite is accepted exactly when it is of proper length, new, keeps every fact of the original in order,
      and has none the original has not. */
  lemma AcceptedExactly(lib: Texts, original: string, given: string, recent: seq<string>)
    ensures var candidate := lib.trim(given);
      Validating(lib, original, given, recent) == Ok(candidate) <==>
        && 1 <= |candidate| <= 1000
        && (forall i :: 0 <= i < |recent| ==> lib.normal(recent[i]) != lib.normal(candidate))
        && (exists places: seq<nat> :: Placed(candidate, 0, lib.tokens(original), places))
        && (forall i :: 0 <= i < |lib.tokens(candidate)| ==> lib.tokens(candidate)[i] in lib.tokens(original))
  {
    hide Scan;
    ScanIsComplete(lib.trim(given), lib.tokens(original));
  }

  /** The tokens can be placed in order, none overlapping the next. */
  ghost predicate Placeable(text: string, tokens: seq<string>) {
    exists places: seq<nat> :: Placed(text, 0, tokens, places)
  }

  lemma {:induction false} ScanStops(text: string, cursor: nat, tokens: seq<string>) returns (k: nat)
    requires Scan(text, cursor, tokens).Some?
    ensures k < |tokens| && Scan(text, cursor, tokens) == Some(tokens[k])
    ensures Scan(text, cursor, tokens[..k]) == None && Scan(text, cursor, tokens[..k + 1]) == Some(tokens[k])
    decreases |tokens|
  {
    hide Find;
    var p := Find(text, cursor, tokens[0]);
    if p.None? {
      k := 0;
      ScanFirst(text, cursor, tokens, 1);
    } else {
      var tail := tokens[1..];
      var l := ScanStops(text, p.value + |tokens[0]|, tail);
      k := l + 1;
      ScanFirst(text, cursor, tokens, k);
      ScanFirst(text, cursor, tokens, k + 1);
    }
  }

  /** Scanning for the first `k` tokens begins as scanning for all does. */
  lemma ScanFirst(text: string, cursor: nat, tokens: seq<string>, k: nat)
    requires 1 <= k <= |tokens|
    ensures Scan(text, cursor, tokens[..k]) ==
      var p := Find(text, cursor, tokens[0]);
      if p.None? then Some(tokens[0]) else Scan(text, p.value + |tokens[0]|, tokens[1..][..k - 1])
  {
    hide Find;
    assert tokens[..k][0] == tokens[0] && tokens[..k][1..] == tokens[1..][..k - 1];
  }

  /** A rewrite is refused for the first thing wrong with it: its length, being no news, the first fact of the
      original that cannot be placed behind those before it, or the first fact that is not the original's. */
  lemma RefusedExactly(lib: Texts, original: string, given: string, recent: seq<string>)
    ensures var candidate, required := lib.trim(given), lib.tokens(original);
      var r, found := Validating(lib, original, given, recent), lib.tokens(candidate);
      var news := forall i :: 0 <= i < |recent| ==> lib.normal(recent[i]) != lib.normal(candidate);
      && (r.Ok? ==> r.value == candidate)
      && (r == Err(Length) <==> |candidate| == 0 || |candidate| > 1000)
      && (r == Err(Duplicate) <==> 1 <= |candidate| <= 1000 && !news)
      && (r.Err? && r.error.Facts? <==> 1 <= |candidate| <= 1000 && news && !Placeable(candidate, required))
      && (r.Err? && r.error.Facts? ==>
            exists k :: 0 <= k < |required| && r.error.token == required[k] &&
              Placeable(candidate, required[..k]) && !Placeable(candidate, required[..k + 1]))
      && (r.Err? && r.error.Invented? ==> r.error.token in found && r.error.token !in required)
  {
    var candidate, required := lib.trim(given), lib.tokens(original);
    ScanIsComplete(candidate, required);
    if Scan(candidate, 0, required).Some? {
      var k := ScanStops(candidate, 0, required);
      ScanIsComplete(candidate, required[..k]);
      ScanIsComplete(candidate, required[..k + 1]);
    }
    hide Scan, Placed;
  }
}
