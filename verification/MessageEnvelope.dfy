/** The authenticated message envelope: routing packed in a 64-bit header and checked against the inner message. */
module MessageEnvelope {
  import opened Bytes
  import Base64Url
  import MessageCodec
  import Strings

  const MAX_MESSAGE: nat := 0x10_0000
  const MAX_PLAIN: nat := 4096
  const ID_LIMIT: int := 0x4000_0000

  datatype Error = Size | Envelope | Authentication | Compression | Binding

  type i32 = x: int | -0x8000_0000 <= x < 0x8000_0000

  datatype Source = Source(id: i32, name: string)

  /** An application message; `rest` stands for the fields nothing here looks at. */
  datatype Message = Message(
    from: Option<Source>, to: Option<Source>, device: i32, session: i32, format: i32, content: Option<string>,
    mentions: bool, rest: string)

  datatype Wire = Wire(header: u64, timestamp: u64, nonce: u64, body: seq<byte>, aad: u64, tag: seq<byte>)

  /** Protocol Buffers and LZ4 as they come, and the JSON object with the one member "b". */
  datatype Library = Library(
    codec: MessageCodec.Primitives,
    encodeMessage: Message -> seq<byte>, decodeMessage: seq<byte> -> Option<Message>,
    encodeWire: Wire -> seq<byte>, decodeWire: seq<byte> -> Option<Wire>,
    compress: seq<byte> -> seq<byte>, decompress: (seq<byte>, nat) -> Option<seq<byte>>,
    wrap: string -> string, unwrap: string -> Option<string>)

  /** Each decoder undoes its encoder, and none of the encoders grows its input beyond the library's bounds. */
  ghost predicate Lawful(lib: Library) {
    MessageLaw(lib) && WireLaw(lib) && CompressionLaw(lib) && TextLaw(lib)
  }

  ghost predicate MessageLaw(lib: Library) {
    forall m :: lib.decodeMessage(lib.encodeMessage(m)) == Some(m)
  }

  /** Lengths are written down, so only bodies below 4 GiB are promised anything. */
  ghost predicate WireLaw(lib: Library) {
    forall w: Wire :: |w.body| + |w.tag| < U32_LIMIT ==>
      lib.decodeWire(lib.encodeWire(w)) == Some(w) && |lib.encodeWire(w)| <= |w.body| + |w.tag| + 64
  }

  ghost predicate CompressionLaw(lib: Library) {
    forall p :: lib.decompress(lib.compress(p), |p|) == Some(p) && |lib.compress(p)| <= 2 * |p| + 20
  }

  /** Base64url texts need no escapes. */
  ghost predicate TextLaw(lib: Library) {
    forall t :: Base64Url.Decode(t).Some? ==>
      && lib.unwrap(lib.wrap(t)) == Some(t) && Strings.Utf8Length(lib.wrap(t)) == |t| + 8
      && |lib.wrap(t)| > 0 && lib.wrap(t)[0] == '{'
  }

  // ---- The packed header ----

  predicate IsId(id: int) {
    1 <= id < ID_LIMIT
  }

  /** The four parts occupy disjoint bits, so combining them is adding them. */
  function Packed(from: nat, to: nat, session: nat, device: nat): (h: u64)
    requires from < ID_LIMIT && to < ID_LIMIT && session <= 3 && device <= 3
  {
    from * 0x4_0000_0000 + to * 16 + session * 4 + device
  }

  function Least(session: nat): nat {
    if session < 3 then session else 3
  }

  /** The header gives back sender, target, session class and device, so it determines them. */
  lemma PackedReadsBack(from: nat, to: nat, session: nat, device: nat)
    requires from < ID_LIMIT && to < ID_LIMIT && session <= 3 && device <= 3
    ensures var h := Packed(from, to, session, device);
      h / 0x4_0000_0000 == from && h / 16 % 0x4000_0000 == to && h / 4 % 4 == session && h % 4 == device
  {
    var h := Packed(from, to, session, device);
    assert h / 4 == from * 0x1_0000_0000 + to * 4 + session;
    assert h / 16 == from * 0x4000_0000 + to;
    assert h / 0x4_0000_0000 == h / 16 / 0x4000_0000;
  }

  // ---- Opening ----

  predicate Routed(m: Message, header: u64) {
    && m.from.Some? && m.to.Some? && IsId(m.from.value.id) && IsId(m.to.value.id)
    && 0 <= m.device <= 3 && m.session >= 0
    && header == Packed(m.from.value.id, m.to.value.id, Least(m.session), m.device)
  }

  function Unpacked(lib: Library, key: seq<byte>, w: Wire): Result<Message, Error> {
    if w.aad == 0 || |w.tag| != 16 then Err(Authentication)
    else
      match MessageCodec.Opened(lib.codec, key, Little(w.nonce, 8), Little(w.aad, 8), w.body + w.tag)
      case Err(_) => Err(Authentication)
      case Ok(compressed) =>
        if |compressed| < 4 then Err(Compression)
        else if FromLittle(compressed[..4]) > MAX_MESSAGE then Err(Size)
        else
          match lib.decompress(compressed[4..], FromLittle(compressed[..4]))
          case None => Err(Compression)
          case Some(plain) =>
            if |plain| != FromLittle(compressed[..4]) then Err(Compression)
            else
              match lib.decodeMessage(plain)
              case None => Err(Envelope)
              case Some(m) => if Routed(m, w.header) then Ok(m) else Err(Binding)
  }

  /** The envelope in a text, bare or in its JSON object. */
  function EnvelopeIn(lib: Library, input: string): Result<Wire, Error> {
    if Strings.Utf8Length(input) > MAX_MESSAGE * 2 then Err(Size)
    else
      var encoded := if |input| > 0 && input[0] == '{' then lib.unwrap(input) else Some(input);
      if encoded.None? then Err(Envelope)
      else
        match Base64Url.Decode(encoded.value)
        case None => Err(Envelope)
        case Some(bytes) =>
          if |bytes| > MAX_MESSAGE then Err(Size)
          else
            match lib.decodeWire(bytes)
            case None => Err(Envelope)
            case Some(w) => Ok(w)
  }

  function OpeningAuthenticated(lib: Library, key: seq<byte>, input: string): Result<Message, Error> {
    match EnvelopeIn(lib, input)
    case Err(e) => Err(e)
    case Ok(w) => Unpacked(lib, key, w)
  }

  predicate Addressed(m: Message, sender: i32, target: i32, session: i32) {
    && m.from.Some? && m.from.value.id == sender && m.to.Some? && m.to.value.id == target && m.session == session
  }

  function Opening(lib: Library, key: seq<byte>, input: string, sender: i32, target: i32, session: i32):
    Result<Message, Error>
  {
    match OpeningAuthenticated(lib, key, input)
    case Err(e) => Err(e)
    case Ok(m) => if Addressed(m, sender, target, session) then Ok(m) else Err(Binding)
  }

  // ---- Sealing ----

  /** New text messages only. */
  predicate Sendable(m: Message, aad: u64) {
    && m.from.Some? && m.to.Some? && IsId(m.from.value.id) && IsId(m.to.value.id)
    && 1 <= m.session <= 2 && m.device == 1 && m.format == 0 && !m.mentions && aad != 0
    && m.content.Some? && Strings.Trim(m.content.value) != ""
  }

  function Compressed(lib: Library, plain: seq<byte>): seq<byte> {
    Little(|plain|, 4) + lib.compress(plain)
  }

  function WireOf(lib: Library, key: seq<byte>, m: Message, nonce: u64, aad: u64, timestamp: u64): Wire
    requires Sendable(m, aad)
  {
    var compressed := Compressed(lib, lib.encodeMessage(m));
    var sealed := MessageCodec.Sealed(lib.codec, key, Little(nonce, 8), Little(aad, 8), compressed);
    var split := |sealed| - 16;
    Wire(Packed(m.from.value.id, m.to.value.id, m.session, 1), timestamp, nonce, sealed[..split], aad, sealed[split..])
  }

  function Sealing(lib: Library, key: seq<byte>, m: Message, nonce: u64, aad: u64, timestamp: u64):
    Result<string, Error>
  {
    if !Sendable(m, aad) then Err(Binding)
    else if |lib.encodeMessage(m)| > MAX_PLAIN then Err(Size)
    else Ok(lib.wrap(Base64Url.Encode(lib.encodeWire(WireOf(lib, key, m, nonce, aad, timestamp)))))
  }

  method Seal(lib: Library, key: seq<byte>, m: Message, nonce: u64, aad: u64, timestamp: u64)
    returns (r: Result<string, Error>)
    ensures r == Sealing(lib, key, m, nonce, aad, timestamp)
  {
    hide MessageCodec.Sealed, Base64Url.Encode;
    if m.from.None? || m.to.None? {
      return Err(Binding);
    }
    var from, to := m.from.value.id, m.to.value.id;
    if !IsId(from) || !IsId(to) || !(1 <= m.session <= 2) || m.device != 1 || m.format != 0 || m.mentions || aad == 0
       || m.content.None? || Strings.Trim(m.content.value) == "" {
      return Err(Binding);
    }
    var plain := lib.encodeMessage(m);
    if |plain| > MAX_PLAIN {
      return Err(Size);
    }
    var compressed := Little(|plain|, 4) + lib.compress(plain);
    var sealed := MessageCodec.Seal(lib.codec, key, Little(nonce, 8), Little(aad, 8), compressed);
    var split := |sealed| - 16;
    var header: u64 := from * 0x4_0000_0000 + to * 16 + m.session * 4 + 1;
    var w := Wire(header, timestamp, nonce, sealed[..split], aad, sealed[split..]);
    r := Ok(lib.wrap(Base64Url.Encode(lib.encodeWire(w))));
  }

  method OpenAuthenticated(lib: Library, key: seq<byte>, input: string) returns (r: Result<Message, Error>)
    ensures r == OpeningAuthenticated(lib, key, input)
  {
    hide MessageCodec.Opened, Base64Url.Decode, Strings.Utf8Length, FromLittle, Little;
    if Strings.Utf8Length(input) > MAX_MESSAGE * 2 {
      return Err(Size);
    }
    var encoded := Some(input);
    if |input| > 0 && input[0] == '{' {
      encoded := lib.unwrap(input);
    }
    if encoded.None? {
      return Err(Envelope);
    }
    var bytes := Base64Url.Decode(encoded.value);
    if bytes.None? {
      return Err(Envelope);
    }
    if |bytes.value| > MAX_MESSAGE {
      return Err(Size);
    }
    var envelope := lib.decodeWire(bytes.value);
    if envelope.None? {
      return Err(Envelope);
    }
    var w := envelope.value;
    if w.aad == 0 || |w.tag| != 16 {
      return Err(Authentication);
    }
    var compressed := MessageCodec.Open(lib.codec, key, Little(w.nonce, 8), Little(w.aad, 8), w.body + w.tag);
    if compressed.Err? {
      return Err(Authentication);
    }
    if |compressed.value| < 4 {
      return Err(Compression);
    }
    var size := FromLittle(compressed.value[..4]);
    if size > MAX_MESSAGE {
      return Err(Size);
    }
    var plain := lib.decompress(compressed.value[4..], size);
    if plain.None? || |plain.value| != size {
      return Err(Compression);
    }
    var message := lib.decodeMessage(plain.value);
    if message.None? {
      return Err(Envelope);
    }
    var m := message.value;
    if m.from.None? || m.to.None? {
      return Err(Binding);
    }
    var from, to := m.from.value.id, m.to.value.id;
    if !IsId(from) || !IsId(to) || !(0 <= m.device <= 3) || m.session < 0
       || w.header != from * 0x4_0000_0000 + to * 16 + (if m.session < 3 then m.session else 3) * 4 + m.device {
      return Err(Binding);
    }
    r := Ok(m);
  }

  method Open(lib: Library, key: seq<byte>, input: string, sender: i32, target: i32, session: i32)
    returns (r: Result<Message, Error>)
    ensures r == Opening(lib, key, input, sender, target, session)
  {
    var message := OpenAuthenticated(lib, key, input);
    if message.Err? {
      return message;
    }
    var m := message.value;
    if m.from.None? || m.from.value.id != sender || m.to.None? || m.to.value.id != target || m.session != session {
      return Err(Binding);
    }
    r := Ok(m);
  }

  lemma CompressedReadsBack(lib: Library, plain: seq<byte>)
    requires CompressionLaw(lib) && |plain| <= MAX_PLAIN
    ensures var c := Compressed(lib, plain);
      && 4 <= |c| <= 2 * |plain| + 24 && FromLittle(c[..4]) == |plain|
      && lib.decompress(c[4..], |plain|) == Some(plain)
  {
    hide FromLittle, Little;
    Widths();
    LittleRoundTrip(|plain|, 4);
    StepOver(Compressed(lib, plain), 0, Little(|plain|, 4), lib.compress(plain));
  }

  /** A sealed envelope unpacks to its message. */
  lemma WireUnpacks(lib: Library, key: seq<byte>, m: Message, nonce: u64, aad: u64, timestamp: u64)
    requires CompressionLaw(lib) && MessageLaw(lib)
    requires Sendable(m, aad) && |lib.encodeMessage(m)| <= MAX_PLAIN
    ensures var w := WireOf(lib, key, m, nonce, aad, timestamp);
      Unpacked(lib, key, w) == Ok(m) && |w.body| + |w.tag| <= 2 * MAX_PLAIN + 40
  {
    hide CompressionLaw, MessageCodec.Sealed, MessageCodec.Opened, FromLittle, Little, Compressed,
      Strings.Trim, Packed;
    var plain := lib.encodeMessage(m);
    CompressedReadsBack(lib, plain);
    assert lib.decodeMessage(plain) == Some(m);
    var c := Compressed(lib, plain);
    var sealed := MessageCodec.Sealed(lib.codec, key, Little(nonce, 8), Little(aad, 8), c);
    MessageCodec.OpensExactlySealed(lib.codec, key, Little(nonce, 8), Little(aad, 8), c, sealed);
    assert sealed == sealed[..|sealed| - 16] + sealed[|sealed| - 16..];
    assert Least(m.session) == m.session;
  }

  /** An envelope small enough for both size checks is taken out of its text again. */
  lemma TextReadsBack(lib: Library, key: seq<byte>, w: Wire)
    requires WireLaw(lib) && TextLaw(lib) && |w.body| + |w.tag| <= 2 * MAX_PLAIN + 40
    ensures OpeningAuthenticated(lib, key, lib.wrap(Base64Url.Encode(lib.encodeWire(w)))) == Unpacked(lib, key, w)
  {
    hide Unpacked, Base64Url.Encode, Base64Url.Decode, Strings.Utf8Length;
    var bytes := lib.encodeWire(w);
    assert lib.decodeWire(bytes) == Some(w);
    Base64Url.EncodedReadsBack(bytes);
    assert lib.unwrap(lib.wrap(Base64Url.Encode(bytes))) == Some(Base64Url.Encode(bytes));
  }

  /** Every envelope that is sealed opens to the same message under its own routing, and is refused for its
      binding under any other. */
  lemma SealedOpens(lib: Library, key: seq<byte>, m: Message, nonce: u64, aad: u64, timestamp: u64,
                    sender: i32, target: i32, session: i32)
    requires Lawful(lib)
    ensures Sealing(lib, key, m, nonce, aad, timestamp).Ok? <==>
      && m.from.Some? && 0 < m.from.value.id < 0x4000_0000 && m.to.Some? && 0 < m.to.value.id < 0x4000_0000
      && m.session in {1, 2} && m.device == 1 && m.format == 0 && !m.mentions && aad != 0
      && m.content.Some? && Strings.Trim(m.content.value) != "" && |lib.encodeMessage(m)| <= 4096
    ensures var sealed := Sealing(lib, key, m, nonce, aad, timestamp);
      var answer := if Addressed(m, sender, target, session) then Ok(m) else Err(Binding);
      sealed.Ok? ==> Opening(lib, key, sealed.value, sender, target, session) == answer
  {
    hide MessageLaw, WireLaw, CompressionLaw, TextLaw, Unpacked, WireOf, OpeningAuthenticated,
      Base64Url.Encode, Strings.Trim;
    if Sealing(lib, key, m, nonce, aad, timestamp).Ok? {
      WireUnpacks(lib, key, m, nonce, aad, timestamp);
      TextReadsBack(lib, key, WireOf(lib, key, m, nonce, aad, timestamp));
    }
  }

  /** The header is the packed routing of the message. */
  predicate Carries(m: Message, header: u64) {
    && m.from.Some? && m.from.value.id == header / 0x4_0000_0000
    && m.to.Some? && m.to.value.id == header / 16 % 0x4000_0000
    && m.session >= 0 && (if m.session > 3 then 3 else m.session) == header / 4 % 4 && m.device == header % 4
  }

  lemma UnpackedIsRouted(lib: Library, key: seq<byte>, w: Wire)
    ensures var r := Unpacked(lib, key, w); r.Ok? ==> Carries(r.value, w.header)
  {
    hide MessageCodec.Opened, FromLittle, Little, Packed;
    var r := Unpacked(lib, key, w);
    if r.Ok? {
      var m := r.value;
      PackedReadsBack(m.from.value.id, m.to.value.id, Least(m.session), m.device);
    }
  }

  /** Whatever text opens, sealed here or not, holds an envelope whose header carries the routing of its message;
      and what opens for a sender, target and session is addressed so by that header. */
  lemma OpenedIsRouted(lib: Library, key: seq<byte>, input: string, sender: i32, target: i32, session: i32)
    ensures var r := OpeningAuthenticated(lib, key, input);
      r.Ok? ==> EnvelopeIn(lib, input).Ok? && Carries(r.value, EnvelopeIn(lib, input).value.header)
    ensures Opening(lib, key, input, sender, target, session).Ok? ==>
      var w := EnvelopeIn(lib, input);
      && w.Ok? && sender == w.value.header / 0x4_0000_0000 && target == w.value.header / 16 % 0x4000_0000
      && session >= 0 && Least(session) == w.value.header / 4 % 4
  {
    hide EnvelopeIn, Unpacked;
    if EnvelopeIn(lib, input).Ok? {
      UnpackedIsRouted(lib, key, EnvelopeIn(lib, input).value);
    }
  }

  /** The envelope is taken from a text of at most two mebibytes, which is Base64url of at most one, bare or in a JSON
      object. */
  lemma EnvelopeExactly(lib: Library, input: string, w: Wire)
    ensures EnvelopeIn(lib, input) == Ok(w) <==>
      && Strings.Utf8Length(input) <= 0x20_0000
      && var text := if |input| > 0 && input[0] == '{' then lib.unwrap(input) else Some(input);
         && text.Some? && Base64Url.Decode(text.value).Some?
         && var bytes := Base64Url.Decode(text.value).value;
            |bytes| <= 0x10_0000 && lib.decodeWire(bytes) == Some(w)
  {
    hide Strings.Utf8Length, Base64Url.Decode;
  }

  /** The size in four bytes, and behind it what decompresses to just that many bytes of the message. */
  predicate Expands(lib: Library, compressed: seq<byte>, m: Message) {
    && |compressed| >= 4 && FromLittle(compressed[..4]) <= 0x10_0000
    && var plain := lib.decompress(compressed[4..], FromLittle(compressed[..4]));
       plain.Some? && |plain.value| == FromLittle(compressed[..4]) && lib.decodeMessage(plain.value) == Some(m)
  }

  /** What an envelope holds is a message exactly if it is authenticated, its compressed size is at most a mebibyte and
      right, it decodes, and its parties, device and session are in range and those of the header. What is not
      authenticated is never decompressed. */
  lemma UnpacksExactly(lib: Library, key: seq<byte>, w: Wire, m: Message)
    ensures var inside := MessageCodec.Opened(lib.codec, key, Little(w.nonce, 8), Little(w.aad, 8), w.body + w.tag);
      && (Unpacked(lib, key, w) == Err(Authentication) <==> w.aad == 0 || |w.tag| != 16 || inside.Err?)
      && (Unpacked(lib, key, w) == Ok(m) <==>
            && w.aad > 0 && |w.tag| == 16 && inside.Ok? && Expands(lib, inside.value, m)
            && m.from.Some? && 0 < m.from.value.id < 0x4000_0000 && m.to.Some? && 0 < m.to.value.id < 0x4000_0000
            && m.device in {0, 1, 2, 3} && m.session >= 0 && Carries(m, w.header))
  {
    hide MessageCodec.Opened, FromLittle, Little;
    var inside := MessageCodec.Opened(lib.codec, key, Little(w.nonce, 8), Little(w.aad, 8), w.body + w.tag);
    if m.from.Some? && IsId(m.from.value.id) && m.to.Some? && IsId(m.to.value.id) && 0 <= m.device <= 3
       && m.session >= 0 {
      PackedReadsBack(m.from.value.id, m.to.value.id, Least(m.session), m.device);
      if Carries(m, w.header) {
        CarriedIsPacked(m, w.header);
      }
    }
  }

  lemma CarriedIsPacked(m: Message, header: u64)
    requires m.from.Some? && IsId(m.from.value.id) && m.to.Some? && IsId(m.to.value.id)
    requires 0 <= m.device <= 3 && m.session >= 0 && Carries(m, header)
    ensures header == Packed(m.from.value.id, m.to.value.id, Least(m.session), m.device)
  {
    assert header == header / 4 * 4 + header % 4;
    assert header / 4 == header / 16 * 4 + header / 4 % 4;
    assert header / 16 == header / 0x4_0000_0000 * 0x4000_0000 + header / 16 % 0x4000_0000;
  }
}
