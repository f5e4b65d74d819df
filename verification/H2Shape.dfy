/** Recognising complete HTTP/2 frames: a buffer is a candidate exactly when it is well-formed frames end to end. */
module H2Shape {
  import opened Bytes
  import Runs

  const MAX_BYTES: nat := 8192

  const NAMES: seq<string> := [
    "data", "headers", "priority", "rst_stream", "settings", "push_promise", "ping", "goaway", "window_update",
    "continuation"]

  /** A frame of section 4.1 of RFC 9113; the reserved bit is kept apart from the stream identifier. */
  datatype Frame = Frame(kind: byte, flags: byte, reserved: bool, stream: nat, payload: seq<byte>)

  datatype Refusal = Refused

  datatype Shape = Unclassified | Candidate(counts: map<string, nat>)

  predicate Streamed(kind: nat) {
    kind in {0, 1, 2, 3, 5, 9}
  }

  predicate Connectionwide(kind: nat) {
    kind in {4, 6, 7}
  }

  /** The rules on kind, stream and length. */
  predicate Acceptable(kind: nat, flags: nat, stream: nat, size: nat) {
    && kind < |NAMES|
    && (Streamed(kind) ==> stream != 0)
    && (Connectionwide(kind) ==> stream == 0)
    && (kind == 2 ==> size == 5)
    && (kind == 3 || kind == 8 ==> size == 4)
    && (kind == 6 ==> size == 8)
    && (kind == 7 ==> size >= 8)
    && (kind == 4 ==> size % 6 == 0 && (flags % 2 == 1 ==> size == 0))
  }

  predicate WellFormed(f: Frame) {
    && |f.payload| < 0x100_0000 && f.stream < 0x8000_0000
    && Acceptable(f.kind as nat, f.flags as nat, f.stream, |f.payload|)
  }

  function StreamField(f: Frame): nat {
    f.stream + if f.reserved then 0x8000_0000 else 0
  }

  function Layout(f: Frame): seq<byte> {
    Big(|f.payload|, 3) + ([f.kind, f.flags] + (Big(StreamField(f), 4) + f.payload))
  }

  function ReadFrame(s: seq<byte>): (r: Result<(Frame, nat), Refusal>)
    ensures r.Ok? ==> 9 <= r.value.1 <= |s|
  {
    if |s| < 9 then Err(Refused)
    else
      var size := FromBig(s[..3]);
      var field := FromBig(s[5..9]);
      if |s| < 9 + size || !Acceptable(s[3] as nat, s[4] as nat, field % 0x8000_0000, size) then Err(Refused)
      else Ok((Frame(s[3], s[4], field >= 0x8000_0000, field % 0x8000_0000, s[9..9 + size]), 9 + size))
  }

  function Frames(): (read: Runs.Reader<Frame, Refusal>)
    ensures Runs.Advancing(read)
  {
    s => ReadFrame(s)
  }

  function Name(kind: byte): string {
    if kind as nat < |NAMES| then NAMES[kind as nat] else ""
  }

  function OneMore(counts: map<string, nat>, name: string): map<string, nat> {
    counts[name := (if name in counts then counts[name] else 0) + 1]
  }

  /** How many frames there are of each kind. */
  function Tally(frames: seq<Frame>): map<string, nat> {
    if |frames| == 0 then map[] else OneMore(Tally(frames[..|frames| - 1]), Name(frames[|frames| - 1].kind))
  }

  lemma FrameParts(f: Frame, behind: seq<byte>)
    requires WellFormed(f)
    ensures ReadFrame(Layout(f) + behind) == Ok((f, |Layout(f)|))
  {
    hide Big, FromBig, Acceptable;
    Widths();
    BigRoundTrip(|f.payload|, 3);
    BigRoundTrip(StreamField(f), 4);
    var size, two, field := Big(|f.payload|, 3), [f.kind, f.flags], Big(StreamField(f), 4);
    var s := Layout(f) + behind;
    Associate(size, two + (field + f.payload), behind);
    Associate(two, field + f.payload, behind);
    Associate(field, f.payload, behind);
    StepOver(s, 0, size, two + (field + (f.payload + behind)));
    StepOver(s, 3, two, field + (f.payload + behind));
    StepOver(s, 5, field, f.payload + behind);
    StepOver(s, 9, f.payload, behind);
    assert s[3..5][0] == s[3] && s[3..5][1] == s[4];
  }

  lemma ReadIsLayout(s: seq<byte>)
    requires ReadFrame(s).Ok?
    ensures var (f, used) := ReadFrame(s).value; WellFormed(f) && s[..used] == Layout(f)
  {
    hide Big, FromBig, Acceptable;
    Widths();
    FromBigRoundTrip(s[..3]);
    FromBigRoundTrip(s[5..9]);
    var (f, used) := ReadFrame(s).value;
    assert StreamField(f) == FromBig(s[5..9]);
    assert s[..used] == s[..3] + ([s[3], s[4]] + (s[5..9] + s[9..used]));
  }

  lemma FramesAreLocal(limit: nat)
    ensures Runs.Local(Frames(), limit)
  {
    forall s, k: nat, rest | ReadFrame(s).Ok? && ReadFrame(s).value.1 <= k <= |s|
      ensures ReadFrame(s[..k] + rest) == ReadFrame(s)
    {
      var (f, used) := ReadFrame(s).value;
      ReadIsLayout(s);
      FrameParts(f, s[used..k] + rest);
      hide ReadFrame, Layout;
      assert s[..k] + rest == s[..used] + (s[used..k] + rest);
    }
  }

  lemma WholeIsLayout(piece: seq<byte>, f: Frame)
    ensures Runs.Whole(Frames(), piece, f) <==> WellFormed(f) && piece == Layout(f)
  {
    if Runs.Whole(Frames(), piece, f) {
      ReadIsLayout(piece);
      assert piece[..|piece|] == piece;
    }
    if WellFormed(f) && piece == Layout(f) {
      FrameParts(f, []);
      assert Layout(f) + [] == Layout(f);
    }
  }

  function Reading(data: seq<byte>): Result<seq<Frame>, Refusal> {
    Runs.ReadAll(Frames(), data, 0, |data|, Refused)
  }

  function Shaping(data: seq<byte>): Shape {
    if |data| == 0 || |data| > MAX_BYTES || Reading(data).Err? then Unclassified
    else Candidate(Tally(Reading(data).value))
  }

  /** One round of the loop: the size and kind of the frame at `offset`, unless it is none. */
  method Scan(data: seq<byte>, offset: nat) returns (ok: bool, size: nat, kind: byte)
    requires offset <= |data|
    ensures ok <==> ReadFrame(data[offset..]).Ok?
    ensures ok ==> offset + 9 + size <= |data| && ReadFrame(data[offset..]).value.1 == 9 + size
    ensures ok ==> ReadFrame(data[offset..]).value.0.kind == kind && kind as nat < |NAMES|
  {
    ReadAt(data, offset);
    hide FromBig, ReadFrame;
    size, kind := 0, 0;
    if |data| - offset < 9 {
      return false, size, kind;
    }
    size := FromBig(data[offset..offset + 3]);
    kind := data[offset + 3];
    var flags := data[offset + 4];
    var stream := FromBig(data[offset + 5..offset + 9]) % 0x8000_0000;
    if kind as nat >= |NAMES| || offset + 9 + size > |data| {
      return false, size, kind;
    }
    if kind in {0, 1, 2, 3, 5, 9} && stream == 0 {
      return false, size, kind;
    }
    if kind in {4, 6, 7} && stream != 0 {
      return false, size, kind;
    }
    if (kind == 2 && size != 5) || ((kind == 3 || kind == 8) && size != 4) || (kind == 6 && size != 8)
       || (kind == 7 && size < 8) || (kind == 4 && (size % 6 != 0 || (flags % 2 == 1 && size != 0))) {
      return false, size, kind;
    }
    ok := true;
  }

  method H2ShapeOf(data: seq<byte>) returns (r: Shape)
    ensures r == Shaping(data)
  {
    hide ReadFrame, Reading, Rest, Tally, OneMore, Name;
    if |data| == 0 || |data| > MAX_BYTES {
      return Unclassified;
    }
    var offset: nat := 0;
    var counts: map<string, nat> := map[];
    ghost var frames: seq<Frame> := [];
    ReadingBegins(data);
    NothingTallied();
    while offset < |data|
      invariant offset <= |data| && |frames| <= offset
      invariant Reading(data) == Rest(data, offset, frames)
      invariant counts == Tally(frames)
      decreases |data| - offset
    {
      RestOneMore(data, offset, frames);
      var ok, size, kind := Scan(data, offset);
      if !ok {
        return Unclassified;
      }
      ghost var frame := ReadFrame(data[offset..]).value.0;
      TallyMore(frames, frame);
      counts := OneMore(counts, Name(kind));
      frames := frames + [frame];
      offset := offset + 9 + size;
    }
    NoRest(data, offset, frames);
    r := Candidate(counts);
  }

  /** What reading the buffer comes to when `frames` have been read and the rest begins at `offset`. */
  ghost function Rest(data: seq<byte>, offset: nat, frames: seq<Frame>): Result<seq<Frame>, Refusal>
    requires |frames| <= offset <= |data|
  {
    Runs.Joined(frames, Runs.ReadAll(Frames(), data, offset, |data| - |frames|, Refused))
  }

  lemma ReadingBegins(data: seq<byte>)
    ensures Reading(data) == Rest(data, 0, [])
  {
    Runs.JoinNothing(Reading(data));
  }

  lemma RestOneMore(data: seq<byte>, offset: nat, frames: seq<Frame>)
    requires |frames| <= offset < |data|
    ensures ReadFrame(data[offset..]).Err? ==> Rest(data, offset, frames) == Err(Refused)
    ensures ReadFrame(data[offset..]).Ok? ==>
      var (frame, used) := ReadFrame(data[offset..]).value;
      Rest(data, offset, frames) == Rest(data, offset + used, frames + [frame])
  {
    hide ReadFrame, Runs.ReadAll, Runs.Joined;
    Runs.OneMoreOfAll(Frames(), data, offset, |data| - |frames|, Refused, frames);
    assert Frames()(data[offset..]) == ReadFrame(data[offset..]);
    if ReadFrame(data[offset..]).Ok? {
      assert |data| - |frames| - 1 == |data| - |frames + [ReadFrame(data[offset..]).value.0]|;
    } else {
      assert ReadFrame(data[offset..]).error == Refused;
    }
  }

  /** The frame at an offset of the buffer, in terms of the buffer. */
  lemma ReadAt(data: seq<byte>, offset: nat)
    requires offset <= |data|
    ensures |data| - offset < 9 ==> ReadFrame(data[offset..]) == Err(Refused)
    ensures |data| - offset >= 9 ==>
      var size := FromBig(data[offset..offset + 3]);
      var field := FromBig(data[offset + 5..offset + 9]);
      var ok := offset + 9 + size <= |data|
        && Acceptable(data[offset + 3] as nat, data[offset + 4] as nat, field % 0x8000_0000, size);
      && (ok <==> ReadFrame(data[offset..]).Ok?)
      && (ok ==> ReadFrame(data[offset..]).value.1 == 9 + size)
      && (ok ==> ReadFrame(data[offset..]).value.0.kind == data[offset + 3])
  {
    hide FromBig, Acceptable;
    var s := data[offset..];
    if |s| >= 9 {
      assert s[..3] == data[offset..offset + 3] && s[5..9] == data[offset + 5..offset + 9];
    }
  }

  lemma TallyMore(frames: seq<Frame>, f: Frame)
    ensures Tally(frames + [f]) == OneMore(Tally(frames), Name(f.kind))
  {
    assert (frames + [f])[..|frames|] == frames;
  }

  lemma NothingTallied()
    ensures Tally([]) == map[]
  {
  }

  lemma NoRest(data: seq<byte>, offset: nat, frames: seq<Frame>)
    requires |frames| <= offset == |data|
    ensures Rest(data, offset, frames) == Ok(frames)
  {
    assert frames + [] == frames;
  }

  /** The buffer is these frames laid end to end, all of them well-formed. */
  ghost predicate Composed(data: seq<byte>, frames: seq<Frame>) {
    && (forall i :: 0 <= i < |frames| ==> WellFormed(frames[i]))
    && exists pieces: seq<seq<byte>> :: LaidOut(pieces, frames) && data == Flatten(pieces)
  }

  ghost predicate LaidOut(pieces: seq<seq<byte>>, frames: seq<Frame>) {
    |pieces| == |frames| && forall i :: 0 <= i < |frames| ==> pieces[i] == Layout(frames[i])
  }

  lemma ReadsComposed(data: seq<byte>, frames: seq<Frame>)
    ensures Reading(data) == Ok(frames) <==> Composed(data, frames)
  {
    hide ReadFrame, Layout, WellFormed, Flatten;
    FramesAreLocal(|data|);
    Runs.ReadsAllExactly(Frames(), data, |data|, Refused, frames);
    forall piece, f
      ensures Runs.Whole(Frames(), piece, f) <==> WellFormed(f) && piece == Layout(f)
    {
      WholeIsLayout(piece, f);
    }
    if Composed(data, frames) {
      var pieces: seq<seq<byte>> :| LaidOut(pieces, frames) && data == Flatten(pieces);
      assert Runs.Laid(Frames(), pieces, frames);
      Runs.NoMoreThanBytes(Frames(), pieces, frames);
    }
    hide Runs.Whole;
  }

  /** A buffer is taken for frames exactly when it is not empty, at most 8192 bytes, and nothing but well-formed
      frames end to end; the counts are theirs, by name. */
  lemma CandidateExactly(data: seq<byte>, counts: map<string, nat>)
    ensures Shaping(data) == Candidate(counts) <==>
      1 <= |data| <= MAX_BYTES && exists frames: seq<Frame> :: Composed(data, frames) && counts == Tally(frames)
  {
    hide Composed, Tally, Reading;
    if Reading(data).Ok? {
      ReadsComposed(data, Reading(data).value);
    }
    forall frames: seq<Frame> | Composed(data, frames)
      ensures Reading(data) == Ok(frames)
    {
      ReadsComposed(data, frames);
    }
  }

  /** The rules kind by kind, as sections 6.1 to 6.10 of RFC 9113 give them, but for the stream of a window update. */
  lemma AcceptableByKind(kind: nat, flags: nat, stream: nat, size: nat)
    ensures Acceptable(kind, flags, stream, size) <==>
      match kind
      case 0 => stream > 0
      case 1 => stream > 0
      case 2 => stream > 0 && size == 5
      case 3 => stream > 0 && size == 4
      case 4 => stream == 0 && size % 6 == 0 && (flags % 2 == 0 || size == 0)
      case 5 => stream > 0
      case 6 => stream == 0 && size == 8
      case 7 => stream == 0 && size >= 8
      case 8 => size == 4
      case 9 => stream > 0
      case _ => false
  {
  }

  /** The positions of the frames of one kind. */
  ghost function OfKind(frames: seq<Frame>, kind: nat): set<nat> {
    set i: nat | i < |frames| && frames[i].kind as nat == kind
  }

  lemma OfKindMore(front: seq<Frame>, last: Frame, kind: nat)
    ensures OfKind(front + [last], kind) == OfKind(front, kind) + if last.kind as nat == kind then {|front|} else {}
    ensures |front| !in OfKind(front, kind)
  {
    var frames := front + [last];
    assert frames[|front|] == last;
    assert forall i: nat :: i < |front| ==> frames[i] == front[i];
  }

  lemma {:induction false} KindCounted(frames: seq<Frame>, kind: nat)
    requires kind < 10 && forall i :: 0 <= i < |frames| ==> frames[i].kind < 10
    ensures NAMES[kind] in Tally(frames) <==> OfKind(frames, kind) != {}
    ensures NAMES[kind] in Tally(frames) ==> Tally(frames)[NAMES[kind]] == |OfKind(frames, kind)|
  {
    if |frames| > 0 {
      var front, last := frames[..|frames| - 1], frames[|frames| - 1];
      assert frames == front + [last];
      KindCounted(front, kind);
      OfKindMore(front, last, kind);
      NamesDiffer();
      var at := last.kind as nat;
      assert Name(last.kind) == NAMES[at] && (NAMES[at] == NAMES[kind] <==> at == kind);
      hide OfKind, NAMES;
    } else {
      assert OfKind(frames, kind) == {};
    }
  }

  lemma {:induction false} TalliedNames(frames: seq<Frame>, name: string)
    requires name in Tally(frames) && forall i :: 0 <= i < |frames| ==> frames[i].kind < 10
    ensures exists k :: 0 <= k < 10 && NAMES[k] == name
  {
    var front, last := frames[..|frames| - 1], frames[|frames| - 1];
    if name in Tally(front) {
      TalliedNames(front, name);
    } else {
      assert NAMES[last.kind as nat] == name;
    }
  }

  /** Each kind that occurs is counted under its name as often as it occurs, and nothing else is. */
  lemma TalliedExactly(frames: seq<Frame>, name: string)
    requires forall i :: 0 <= i < |frames| ==> frames[i].kind < 10
    ensures var names := ["data", "headers", "priority", "rst_stream", "settings", "push_promise", "ping", "goaway",
                          "window_update", "continuation"];
      && (name in Tally(frames) <==> exists k :: 0 <= k < 10 && names[k] == name && OfKind(frames, k) != {})
      && (forall k :: 0 <= k < 10 && names[k] == name && OfKind(frames, k) != {} ==>
            Tally(frames)[name] == |OfKind(frames, k)|)
  {
    forall k: nat | k < 10
      ensures NAMES[k] in Tally(frames) <==> OfKind(frames, k) != {}
      ensures NAMES[k] in Tally(frames) ==> Tally(frames)[NAMES[k]] == |OfKind(frames, k)|
    {
      KindCounted(frames, k);
    }
    if name in Tally(frames) {
      TalliedNames(frames, name);
    }
    hide OfKind, Tally;
  }

  lemma NamesDiffer()
    ensures forall k, l :: 0 <= k < l < 10 ==> NAMES[k] != NAMES[l]
  {
    assert |NAMES[0]| == 4 && |NAMES[1]| == 7 && |NAMES[2]| == 8 && |NAMES[3]| == 10 && |NAMES[4]| == 8;
    assert |NAMES[5]| == 12 && |NAMES[6]| == 4 && |NAMES[7]| == 6 && |NAMES[8]| == 13 && |NAMES[9]| == 12;
    assert NAMES[0][0] == 'd' && NAMES[6][0] == 'p' && NAMES[2][0] == 'p' && NAMES[4][0] == 's';
    assert NAMES[5][0] == 'p' && NAMES[9][0] == 'c';
  }
}
