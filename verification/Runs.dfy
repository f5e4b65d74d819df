/** Runs: `n` items laid end to end, each read by the same reader. The fields of a property list, the
    messages of a notification, the parts of a login answer and the mute roster all have this shape;
    what they share is proved once here, for any reader that looks only at the bytes it consumes. */
module Runs {
  import opened Bytes

  type Reader<T, E> = seq<byte> -> Result<(T, nat), E>

  ghost predicate Honest<T(!new), E(!new)>(read: Reader<T, E>) {
    forall s :: read(s).Ok? ==> read(s).value.1 <= |s|
  }

  /** What was accepted stays accepted, with the same result, whatever lies behind the bytes consumed,
      as long as the whole input is at most `limit` bytes. */
  ghost predicate Local<T(!new), E(!new)>(read: Reader<T, E>, limit: nat) {
    forall s, k: nat, rest ::
      read(s).Ok? && read(s).value.1 <= k <= |s| && |s[..k] + rest| <= limit ==> read(s[..k] + rest) == read(s)
  }

  /** An accepted item cut short is refused as `e`. */
  ghost predicate CutsTo<T(!new), E(!new)>(read: Reader<T, E>, e: E) {
    forall s, k: nat :: read(s).Ok? && k < read(s).value.1 <= |s| ==> read(s[..k]) == Err(e)
  }

  function ReadRun<T(!new), E(!new)>(read: Reader<T, E>, input: seq<byte>, pos: nat, n: nat):
    (r: Result<(seq<T>, nat), E>)
    requires Honest(read) && pos <= |input|
    ensures r.Ok? ==> |r.value.0| == n && pos <= r.value.1 <= |input|
    decreases n
  {
    if n == 0 then Ok(([], pos))
    else
      var head :- read(input[pos..]);
      Prepended([head.0], ReadRun(read, input, pos + head.1, n - 1))
  }

  function Prepended<T, E>(before: seq<T>, r: Result<(seq<T>, nat), E>): Result<(seq<T>, nat), E> {
    match r
    case Ok((items, pos)) => Ok((before + items, pos))
    case Err(e) => Err(e)
  }

  lemma PrependNothing<T, E>(r: Result<(seq<T>, nat), E>)
    ensures Prepended([], r) == r
  {
    assert r.Ok? ==> [] + r.value.0 == r.value.0;
  }

  lemma PrependTwice<T, E>(a: seq<T>, b: seq<T>, r: Result<(seq<T>, nat), E>)
    ensures Prepended(a, Prepended(b, r)) == Prepended(a + b, r)
  {
    assert r.Ok? ==> a + (b + r.value.0) == (a + b) + r.value.0;
  }

  /** One round of a reading loop: having read `done` and now `item`, the rest of the run is one shorter. */
  lemma OneMore<T(!new), E(!new)>(read: Reader<T, E>, input: seq<byte>, pos: nat, n: nat, done: seq<T>)
    requires Honest(read) && pos <= |input| && n > 0
    ensures read(input[pos..]).Err? ==>
      Prepended(done, ReadRun(read, input, pos, n)) == Err(read(input[pos..]).error)
    ensures read(input[pos..]).Ok? ==>
      var (item, used) := read(input[pos..]).value;
      Prepended(done, ReadRun(read, input, pos, n)) == Prepended(done + [item], ReadRun(read, input, pos + used, n - 1))
  {
    if read(input[pos..]).Ok? {
      var (item, used) := read(input[pos..]).value;
      PrependTwice(done, [item], ReadRun(read, input, pos + used, n - 1));
    }
  }

  lemma NoMore<T(!new), E(!new)>(read: Reader<T, E>, input: seq<byte>, pos: nat, done: seq<T>)
    requires Honest(read) && pos <= |input|
    ensures Prepended(done, ReadRun(read, input, pos, 0)) == Ok((done, pos))
  {
    assert done + [] == done;
  }

  /** `piece` is one item and nothing else. */
  ghost predicate Whole<T(!new), E(!new)>(read: Reader<T, E>, piece: seq<byte>, item: T) {
    read(piece) == Ok((item, |piece|))
  }

  ghost predicate Laid<T(!new), E(!new)>(read: Reader<T, E>, pieces: seq<seq<byte>>, items: seq<T>) {
    |pieces| == |items| && forall i :: 0 <= i < |items| ==> Whole(read, pieces[i], items[i])
  }

  lemma LaidTail<T(!new), E(!new)>(read: Reader<T, E>, pieces: seq<seq<byte>>, items: seq<T>)
    requires |items| > 0 && Laid(read, pieces, items)
    ensures Whole(read, pieces[0], items[0]) && Laid(read, pieces[1..], items[1..])
  {
  }

  lemma LaidCons<T(!new), E(!new)>(read: Reader<T, E>, piece: seq<byte>, item: T, pieces: seq<seq<byte>>, items: seq<T>)
    requires Whole(read, piece, item) && Laid(read, pieces, items)
    ensures Laid(read, [piece] + pieces, [item] + items)
    ensures Flatten([piece] + pieces) == piece + Flatten(pieces)
  {
    assert ([piece] + pieces)[1..] == pieces;
  }

  lemma WholeIsRead<T(!new), E(!new)>(read: Reader<T, E>, piece: seq<byte>, item: T, behind: seq<byte>, limit: nat)
    requires Local(read, limit) && Whole(read, piece, item) && |piece + behind| <= limit
    ensures read(piece + behind) == Ok((item, |piece|))
  {
    assert piece[..|piece|] == piece;
    assert read(piece[..|piece|] + behind) == read(piece);
  }

  lemma ReadIsWhole<T(!new), E(!new)>(read: Reader<T, E>, s: seq<byte>, limit: nat)
    requires Honest(read) && Local(read, limit) && |s| <= limit && read(s).Ok?
    ensures var (item, used) := read(s).value; Whole(read, s[..used], item)
  {
    var used := read(s).value.1;
    assert read(s[..used] + []) == read(s);
    assert s[..used] + [] == s[..used];
  }

  /** Items laid end to end are read back, and exactly what lies behind them is left. */
  lemma {:induction false} LaidIsRead<T(!new), E(!new)>(
    read: Reader<T, E>, input: seq<byte>, pos: nat, pieces: seq<seq<byte>>, items: seq<T>, rest: seq<byte>, limit: nat)
    requires Honest(read) && Local(read, limit) && pos <= |input| <= limit
    requires Laid(read, pieces, items) && input[pos..] == Flatten(pieces) + rest
    ensures ReadRun(read, input, pos, |items|) == Ok((items, |input| - |rest|))
    decreases |items|
  {
    if |items| > 0 {
      hide Whole, Local;
      var behind := Flatten(pieces[1..]) + rest;
      Associate(pieces[0], Flatten(pieces[1..]), rest);
      StepOver(input, pos, pieces[0], behind);
      LaidTail(read, pieces, items);
      WholeIsRead(read, pieces[0], items[0], behind, limit);
      LaidIsRead(read, input, pos + |pieces[0]|, pieces[1..], items[1..], rest, limit);
      assert items == [items[0]] + items[1..];
    }
  }

  lemma RunCons<T(!new), E(!new)>(read: Reader<T, E>, input: seq<byte>, pos: nat, n: nat)
    requires Honest(read) && pos <= |input| && ReadRun(read, input, pos, n).Ok?
    ensures n == 0 ==> ReadRun(read, input, pos, n) == Ok(([], pos))
    ensures n > 0 ==>
      && read(input[pos..]).Ok?
      && var (item, used) := read(input[pos..]).value;
         used <= |input| - pos &&
         var tail := ReadRun(read, input, pos + used, n - 1);
         tail.Ok? && ReadRun(read, input, pos, n) == Ok(([item] + tail.value.0, tail.value.1))
  {
  }

  lemma {:induction false} ReadIsLaid<T(!new), E(!new)>(
    read: Reader<T, E>, input: seq<byte>, pos: nat, n: nat, limit: nat)
    returns (pieces: seq<seq<byte>>)
    requires Honest(read) && Local(read, limit) && pos <= |input| <= limit
    requires ReadRun(read, input, pos, n).Ok?
    ensures Laid(read, pieces, ReadRun(read, input, pos, n).value.0)
    ensures input[pos..ReadRun(read, input, pos, n).value.1] == Flatten(pieces)
    decreases n
  {
    RunCons(read, input, pos, n);
    if n == 0 {
      pieces := [];
    } else {
      hide Honest, Flatten, Whole, Laid, Local, ReadRun;
      var s := input[pos..];
      var (item, used) := read(s).value;
      ReadIsWhole(read, s, limit);
      var tail := ReadIsLaid(read, input, pos + used, n - 1, limit);
      var (items, end) := ReadRun(read, input, pos + used, n - 1).value;
      LaidCons(read, s[..used], item, tail, items);
      assert input[pos..end] == s[..used] + input[pos + used..end] by { SliceInTwo(input, pos, pos + used, end); }
      pieces := [s[..used]] + tail;
    }
  }

  /** A run is read to the end of the input exactly when the input is those items laid end to end. */
  lemma ReadsExactly<T(!new), E(!new)>(read: Reader<T, E>, input: seq<byte>, pos: nat, items: seq<T>, limit: nat)
    requires Honest(read) && Local(read, limit) && pos <= |input| <= limit
    ensures ReadRun(read, input, pos, |items|) == Ok((items, |input|)) <==>
      exists pieces: seq<seq<byte>> :: Laid(read, pieces, items) && input[pos..] == Flatten(pieces)
  {
    hide ReadRun, Laid, Local, Flatten;
    if ReadRun(read, input, pos, |items|) == Ok((items, |input|)) {
      var pieces := ReadIsLaid(read, input, pos, |items|, limit);
      assert input[pos..|input|] == input[pos..];
    }
    forall pieces: seq<seq<byte>> | Laid(read, pieces, items) && input[pos..] == Flatten(pieces)
      ensures ReadRun(read, input, pos, |items|) == Ok((items, |input|))
    {
      assert Flatten(pieces) + [] == Flatten(pieces);
      LaidIsRead(read, input, pos, pieces, items, [], limit);
    }
  }

  /** A run, too, looks only at its own bytes. */
  lemma RunIsLocal<T(!new), E(!new)>(read: Reader<T, E>, input: seq<byte>, pos: nat, n: nat,
                                     k: nat, rest: seq<byte>, limit: nat)
    requires Honest(read) && Local(read, limit) && pos <= |input| <= limit
    requires ReadRun(read, input, pos, n).Ok? && ReadRun(read, input, pos, n).value.1 <= k <= |input|
    requires |input[..k] + rest| <= limit
    ensures ReadRun(read, input[..k] + rest, pos, n) == ReadRun(read, input, pos, n)
  {
    hide Local, Whole, Laid, Prepended, ReadRun, Flatten;
    var (items, end) := ReadRun(read, input, pos, n).value;
    var pieces := ReadIsLaid(read, input, pos, n, limit);
    var behind := input[end..k] + rest;
    assert (input[..k] + rest)[pos..] == input[pos..end] + behind;
    LaidIsRead(read, input[..k] + rest, pos, pieces, items, behind, limit);
  }

  lemma ItemCut<T(!new), E(!new)>(read: Reader<T, E>, s: seq<byte>, k: nat, limit: nat, e: E)
    requires Honest(read) && Local(read, limit) && CutsTo(read, e) && read(s).Ok? && k <= |s| <= limit
    ensures read(s[..k]) == if k < read(s).value.1 then Err(e) else read(s)
  {
    if k >= read(s).value.1 {
      assert read(s[..k] + []) == read(s);
      assert s[..k] + [] == s[..k];
    }
  }

  lemma RunFails<T(!new), E(!new)>(read: Reader<T, E>, input: seq<byte>, pos: nat, n: nat, e: E)
    requires Honest(read) && pos <= |input| && n > 0
    ensures read(input[pos..]) == Err(e) ==> ReadRun(read, input, pos, n) == Err(e)
    ensures read(input[pos..]).Ok? && ReadRun(read, input, pos + read(input[pos..]).value.1, n - 1) == Err(e) ==>
      ReadRun(read, input, pos, n) == Err(e)
  {
  }

  /** A run cut short anywhere inside it is refused as an item cut short is. */
  lemma {:induction false} RunCutsTo<T(!new), E(!new)>(
    read: Reader<T, E>, input: seq<byte>, pos: nat, n: nat, k: nat, limit: nat, e: E)
    requires Honest(read) && Local(read, limit) && CutsTo(read, e) && pos <= k <= |input| <= limit
    requires ReadRun(read, input, pos, n).Ok? && k < ReadRun(read, input, pos, n).value.1
    ensures ReadRun(read, input[..k], pos, n) == Err(e)
    decreases n
  {
    RunCons(read, input, pos, n);
    hide Honest, Local, CutsTo, ReadRun;
    var s, short := input[pos..], input[..k];
    var used := read(s).value.1;
    ItemCut(read, s, k - pos, limit, e);
    assert short[pos..] == s[..k - pos] by { CutFrom(input, pos, k, []); }
    RunFails(read, short, pos, n, e);
    if used <= k - pos {
      RunCutsTo(read, input, pos + used, n - 1, k, limit, e);
    }
  }

  // ---- Runs without a count, read until the input ends ----

  /** Every accepted item takes at least one byte. */
  ghost predicate Advancing<T(!new), E(!new)>(read: Reader<T, E>) {
    forall s :: read(s).Ok? ==> 1 <= read(s).value.1 <= |s|
  }

  /** Reads until the input ends, at most `room` items. */
  function ReadAll<T(!new), E(!new)>(read: Reader<T, E>, input: seq<byte>, pos: nat, room: nat, full: E):
    Result<seq<T>, E>
    requires Advancing(read) && pos <= |input|
    decreases |input| - pos
  {
    if pos == |input| then Ok([])
    else if room == 0 then Err(full)
    else
      var head :- read(input[pos..]);
      Joined([head.0], ReadAll(read, input, pos + head.1, room - 1, full))
  }

  function Joined<T, E>(before: seq<T>, r: Result<seq<T>, E>): Result<seq<T>, E> {
    match r
    case Ok(items) => Ok(before + items)
    case Err(e) => Err(e)
  }

  lemma JoinNothing<T, E>(r: Result<seq<T>, E>)
    ensures Joined([], r) == r
  {
    assert r.Ok? ==> [] + r.value == r.value;
  }

  /** One round of a loop that reads until the input ends. */
  lemma OneMoreOfAll<T(!new), E(!new)>(read: Reader<T, E>, input: seq<byte>, pos: nat, room: nat, full: E, done: seq<T>)
    requires Advancing(read) && pos < |input| && room > 0
    ensures read(input[pos..]).Err? ==>
      Joined(done, ReadAll(read, input, pos, room, full)) == Err(read(input[pos..]).error)
    ensures read(input[pos..]).Ok? ==>
      var (item, used) := read(input[pos..]).value;
      Joined(done, ReadAll(read, input, pos, room, full)) ==
        Joined(done + [item], ReadAll(read, input, pos + used, room - 1, full))
  {
    if read(input[pos..]).Ok? {
      var (item, used) := read(input[pos..]).value;
      var tail := ReadAll(read, input, pos + used, room - 1, full);
      assert tail.Ok? ==> done + ([item] + tail.value) == (done + [item]) + tail.value;
    }
  }

  /** Reading all of the input is reading a run of some length, within the room, up to its end. */
  lemma {:induction false} AllIsRun<T(!new), E(!new)>(
    read: Reader<T, E>, input: seq<byte>, pos: nat, room: nat, full: E, items: seq<T>)
    requires Advancing(read) && pos <= |input|
    ensures Honest(read)
    ensures ReadAll(read, input, pos, room, full) == Ok(items) <==>
      |items| <= room && ReadRun(read, input, pos, |items|) == Ok((items, |input|))
    decreases |input| - pos
  {
    assert Honest(read);
    if pos < |input| && room > 0 && read(input[pos..]).Ok? {
      var (item, used) := read(input[pos..]).value;
      if |items| > 0 {
        AllIsRun(read, input, pos + used, room - 1, full, items[1..]);
        assert items == [items[0]] + items[1..];
      }
    } else if pos == |input| && |items| > 0 {
      assert input[pos..] == [];
    }
  }

  /** The input is accepted exactly when it is such items laid end to end, no more than there is room for. */
  lemma ReadsAllExactly<T(!new), E(!new)>(read: Reader<T, E>, input: seq<byte>, room: nat, full: E, items: seq<T>)
    requires Advancing(read) && Local(read, |input|)
    ensures ReadAll(read, input, 0, room, full) == Ok(items) <==>
      |items| <= room && exists pieces: seq<seq<byte>> :: Laid(read, pieces, items) && input == Flatten(pieces)
  {
    hide Laid, Flatten;
    AllIsRun(read, input, 0, room, full, items);
    ReadsExactly(read, input, 0, items, |input|);
    assert input[0..] == input;
  }

  /** There are never more items than bytes. */
  lemma {:induction false} NoMoreThanBytes<T(!new), E(!new)>(read: Reader<T, E>, pieces: seq<seq<byte>>, items: seq<T>)
    requires Advancing(read) && Laid(read, pieces, items)
    ensures |items| <= |Flatten(pieces)|
  {
    if |items| > 0 {
      LaidTail(read, pieces, items);
      NoMoreThanBytes(read, pieces[1..], items[1..]);
      assert read(pieces[0]).Ok?;
    }
  }
}
