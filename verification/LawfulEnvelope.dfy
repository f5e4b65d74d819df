/** A library that meets every law the envelope relies on: the laws can be had together, and sealing succeeds. */
module LawfulEnvelope {
  import opened Bytes
  import opened MessageEnvelope
  import Base64Url
  import MessageCodec
  import Strings

  /** A text that says where it ends. */
  function Ended(t: string): seq<byte> {
    if t == "" then [0] else [1] + (Little(t[0] as int, 4) + Ended(t[1..]))
  }

  lemma {:induction false} EndedDetermines(t: string, x: seq<byte>, u: string, y: seq<byte>)
    requires Ended(t) + x == Ended(u) + y
    ensures t == u && x == y
  {
    hide Little, FromLittle, Pow256;
    assert (Ended(t) + x)[0] == Ended(t)[0] && (Ended(u) + y)[0] == Ended(u)[0];
    if t == "" {
      SplitEqual([0], x, [0], y);
    } else {
      var first, other := Little(t[0] as int, 4), Little(u[0] as int, 4);
      var rest, more := Ended(t[1..]), Ended(u[1..]);
      Associate([1], first + rest, x);
      Associate([1], other + more, y);
      SplitEqual([1], (first + rest) + x, [1], (other + more) + y);
      Associate(first, rest, x);
      Associate(other, more, y);
      SplitEqual(first, rest + x, other, more + y);
      Widths();
      LittleRoundTrip(t[0] as int, 4);
      LittleRoundTrip(u[0] as int, 4);
      EndedDetermines(t[1..], x, u[1..], y);
      assert t == [t[0]] + t[1..] && u == [u[0]] + u[1..];
    }
  }

  /** Numbers of `width` bytes, laid end to end. */
  function Numbers(ns: seq<nat>, width: nat): seq<byte> {
    if |ns| == 0 then [] else Little(ns[0], width) + Numbers(ns[1..], width)
  }

  lemma {:induction false} NumbersDetermine(a: seq<nat>, x: seq<byte>, b: seq<nat>, y: seq<byte>, width: nat)
    requires |a| == |b| && Numbers(a, width) + x == Numbers(b, width) + y
    requires forall i :: 0 <= i < |a| ==> a[i] < Pow256(width) && b[i] < Pow256(width)
    ensures a == b && x == y
  {
    hide Little, FromLittle;
    if |a| == 0 {
      SplitEqual([], x, [], y);
    } else {
      Associate(Little(a[0], width), Numbers(a[1..], width), x);
      Associate(Little(b[0], width), Numbers(b[1..], width), y);
      SplitEqual(Little(a[0], width), Numbers(a[1..], width) + x, Little(b[0], width), Numbers(b[1..], width) + y);
      LittleRoundTrip(a[0], width);
      LittleRoundTrip(b[0], width);
      NumbersDetermine(a[1..], x, b[1..], y, width);
      assert a == [a[0]] + a[1..] && b == [b[0]] + b[1..];
    }
  }

  // ---- Messages ----

  function Unsigned(i: i32): nat {
    i + 0x8000_0000
  }

  function NumbersOf(m: Message): seq<nat> {
    [if m.from.Some? then 1 else 0, if m.to.Some? then 1 else 0, if m.content.Some? then 1 else 0,
     if m.mentions then 1 else 0,
     if m.from.Some? then Unsigned(m.from.value.id) else 0, if m.to.Some? then Unsigned(m.to.value.id) else 0,
     Unsigned(m.device), Unsigned(m.session), Unsigned(m.format)]
  }

  function Name(s: Option<Source>): string {
    if s.Some? then s.value.name else ""
  }

  function Text(s: Option<string>): string {
    if s.Some? then s.value else ""
  }

  function EncodeMessage(m: Message): seq<byte> {
    Ended(Name(m.from)) + (Ended(Name(m.to)) + (Ended(Text(m.content)) + (Ended(m.rest) + Numbers(NumbersOf(m), 4))))
  }

  lemma MessageDetermined(m: Message, n: Message)
    requires EncodeMessage(m) == EncodeMessage(n)
    ensures m == n
  {
    hide Ended, Numbers, Pow256;
    Widths();
    var a, b := Numbers(NumbersOf(m), 4), Numbers(NumbersOf(n), 4);
    var a1, b1 := Ended(m.rest) + a, Ended(n.rest) + b;
    var a2, b2 := Ended(Text(m.content)) + a1, Ended(Text(n.content)) + b1;
    EndedDetermines(Name(m.from), Ended(Name(m.to)) + a2, Name(n.from), Ended(Name(n.to)) + b2);
    EndedDetermines(Name(m.to), a2, Name(n.to), b2);
    EndedDetermines(Text(m.content), a1, Text(n.content), b1);
    EndedDetermines(m.rest, a, n.rest, b);
    assert a + [] == a && b + [] == b;
    NumbersDetermine(NumbersOf(m), [], NumbersOf(n), [], 4);
    SameNumbers(m, n);
  }

  lemma SameNumbers(m: Message, n: Message)
    requires NumbersOf(m) == NumbersOf(n)
    requires Name(m.from) == Name(n.from) && Name(m.to) == Name(n.to)
    requires Text(m.content) == Text(n.content) && m.rest == n.rest
    ensures m == n
  {
    var a, b := NumbersOf(m), NumbersOf(n);
    assert forall i :: 0 <= i < 9 ==> a[i] == b[i];
    assert m.from == n.from && m.to == n.to && m.content == n.content;
  }

  ghost function DecodeMessage(s: seq<byte>): Option<Message> {
    if exists m :: EncodeMessage(m) == s then
      var m :| EncodeMessage(m) == s;
      Some(m)
    else None
  }

  // ---- Envelopes ----

  predicate Small(w: Wire) {
    |w.body| + |w.tag| < U32_LIMIT
  }

  function EncodeWire(w: Wire): seq<byte> {
    Numbers([w.header, w.timestamp, w.nonce, w.aad, |w.body|], 8) + (w.body + w.tag)
  }

  lemma WireDetermined(w: Wire, v: Wire)
    requires Small(w) && Small(v) && EncodeWire(w) == EncodeWire(v)
    ensures w == v
  {
    hide Numbers, Pow256;
    Widths();
    var a, b := [w.header, w.timestamp, w.nonce, w.aad, |w.body|], [v.header, v.timestamp, v.nonce, v.aad, |v.body|];
    NumbersDetermine(a, w.body + w.tag, b, v.body + v.tag, 8);
    assert a[0] == b[0] && a[1] == b[1] && a[2] == b[2] && a[3] == b[3] && a[4] == b[4];
    SplitEqual(w.body, w.tag, v.body, v.tag);
  }

  lemma {:induction false} NumbersLength(ns: seq<nat>, width: nat)
    ensures |Numbers(ns, width)| == |ns| * width
  {
    if |ns| > 0 {
      NumbersLength(ns[1..], width);
    }
  }

  ghost function DecodeWire(s: seq<byte>): Option<Wire> {
    if exists w :: Small(w) && EncodeWire(w) == s then
      var w :| Small(w) && EncodeWire(w) == s;
      Some(w)
    else None
  }

  // ---- Texts and compression ----

  function Wrap(t: string): string {
    "{\"b\":\"" + t + "\"}"
  }

  function Unwrap(t: string): Option<string> {
    if |t| < 8 then None else Some(t[6..|t| - 2])
  }

  function Stored(s: seq<byte>, size: nat): Option<seq<byte>> {
    Some(s)
  }

  ghost function Standard(codec: MessageCodec.Primitives): Library {
    Library(codec, EncodeMessage, DecodeMessage, EncodeWire, DecodeWire, (s: seq<byte>) => s, Stored, Wrap, Unwrap)
  }

  lemma StandardIsLawful(codec: MessageCodec.Primitives)
    ensures Lawful(Standard(codec))
  {
    hide EncodeMessage, EncodeWire;
    var lib := Standard(codec);
    forall m
      ensures lib.decodeMessage(lib.encodeMessage(m)) == Some(m)
    {
      var n := DecodeMessage(EncodeMessage(m)).value;
      MessageDetermined(m, n);
    }
    forall w: Wire | |w.body| + |w.tag| < U32_LIMIT
      ensures lib.decodeWire(lib.encodeWire(w)) == Some(w) && |lib.encodeWire(w)| <= |w.body| + |w.tag| + 64
    {
      assert Small(w);
      var v := DecodeWire(EncodeWire(w)).value;
      WireDetermined(w, v);
      WireLength(w);
    }
    TextsReadBack(lib);
  }

  lemma WireLength(w: Wire)
    ensures |EncodeWire(w)| == |w.body| + |w.tag| + 40
  {
    NumbersLength([w.header, w.timestamp, w.nonce, w.aad, |w.body|], 8);
  }

  lemma TextsReadBack(lib: Library)
    requires lib.wrap == Wrap && lib.unwrap == Unwrap
    ensures TextLaw(lib)
  {
    hide Base64Url.Decode, Strings.Utf8Length, Unwrap, Wrap;
    forall t: string | Base64Url.Decode(t).Some?
      ensures Unwrap(Wrap(t)) == Some(t) && Strings.Utf8Length(Wrap(t)) == |t| + 8
      ensures |Wrap(t)| > 0 && Wrap(t)[0] == '{'
    {
      TextReadsBack(t);
    }
  }

  lemma TextReadsBack(t: string)
    requires Base64Url.Decode(t).Some?
    ensures Unwrap(Wrap(t)) == Some(t) && Strings.Utf8Length(Wrap(t)) == |t| + 8
    ensures |Wrap(t)| > 0 && Wrap(t)[0] == '{'
  {
    hide Base64Url.Decode, Base64Url.Encode, Strings.Utf8Length;
    assert Wrap(t)[6..|Wrap(t)| - 2] == t;
    var bytes := Base64Url.Decode(t).value;
    Base64Url.DecodesOnlyEncodings(t, bytes);
    Base64Url.EncodesToAscii(bytes);
    Strings.AsciiLength(Wrap(t));
  }

  /** The laws are consistent, with any primitives, and under them some message is sealed. */
  lemma LawfulExists(codec: MessageCodec.Primitives, key: seq<byte>, nonce: u64, aad: u64, timestamp: u64)
    returns (lib: Library, m: Message)
    requires aad != 0
    ensures Lawful(lib) && lib.codec == codec && Sealing(lib, key, m, nonce, aad, timestamp).Ok?
  {
    hide Lawful, EncodeMessage, WireOf, Strings.Trim;
    lib := Standard(codec);
    StandardIsLawful(codec);
    m := Message(Some(Source(1, "")), Some(Source(2, "")), 1, 1, 0, Some("a"), false, "");
    OneLetter(m);
    Strings.TrimmedIsTrim("a");
  }

  lemma OneLetter(m: Message)
    requires m == Message(Some(Source(1, "")), Some(Source(2, "")), 1, 1, 0, Some("a"), false, "")
    ensures |EncodeMessage(m)| == 45
  {
    NumbersLength(NumbersOf(m), 4);
    assert Ended("a"[1..]) == [0];
  }
}
