/** The business envelope: a raw-block Zstandard frame, sealed and laid out tag first. */
module BusinessWire {
  import opened Bytes
  import MessageCodec

  const MAX_BODY: nat := 0x10_0000
  const BLOCK: nat := 128 * 1024

  datatype Error = TooLarge | InvalidEnvelope | Authentication | Compression

  /** The hashes are taken as they come; `decompress` reads one frame and returns what lies behind it. */
  datatype Library = Library(
    codec: MessageCodec.Primitives, hash64: seq<byte> -> u64, hash128: seq<byte> -> MessageCodec.octets16,
    decompress: seq<byte> -> Option<(seq<byte>, seq<byte>)>)

  datatype Binding = Binding(requestId: u64, plaintextHash: u64, deviceTag: u64)

  function Bind(lib: Library, requestId: u64, plaintext: seq<byte>, deviceTag: u64): Binding {
    Binding(requestId, if plaintext == [] then 0 else lib.hash64(plaintext), deviceTag)
  }

  const SALT: u64 := 0x019c411fdeaf

  function Aad(lib: Library, b: Binding): MessageCodec.octets16 {
    lib.hash128(Little(b.requestId, 8) + Little(b.plaintextHash, 8) + Little(b.deviceTag, 8) + Little(SALT, 8))
  }

  // ---- The frame ----

  function Block(content: seq<byte>, last: bool): seq<byte> {
    Little(|content| * 8 + if last then 1 else 0, 3) + content
  }

  function Blocks(input: seq<byte>): seq<byte> {
    if |input| <= BLOCK then Block(input, true) else Block(input[..BLOCK], false) + Blocks(input[BLOCK..])
  }

  const MAGIC: seq<byte> := [0x28, 0xb5, 0x2f, 0xfd]

  /** A single segment with a four-byte content size, no checksum and no dictionary. */
  const DESCRIPTOR: byte := 0xa0

  function Frame(input: seq<byte>): seq<byte> {
    (MAGIC + [DESCRIPTOR]) + (Little(|input|, 4) + Blocks(input))
  }

  method ZstdFrame(input: seq<byte>) returns (out: seq<byte>)
    ensures out == Frame(input)
  {
    hide Blocks;
    out := [0x28, 0xb5, 0x2f, 0xfd, 0xa0];
    assert out == MAGIC + [DESCRIPTOR];
    out := out + Little(|input|, 4);
    ghost var head := out;
    if |input| == 0 {
      out := out + [1, 0, 0];
      EmptyBlock(input);
      Associate(MAGIC + [DESCRIPTOR], Little(|input|, 4), Blocks(input));
      return;
    }
    var rest := input;
    while |rest| > 0
      invariant |rest| > 0 ==> out + Blocks(rest) == head + Blocks(input)
      invariant |rest| == 0 ==> out == head + Blocks(input)
      decreases |rest|
    {
      var size := if |rest| < BLOCK then |rest| else BLOCK;
      var chunk := rest[..size];
      BlocksCut(rest);
      Associate(out, Block(chunk, size == |rest|), Blocks(rest[size..]));
      out := out + Little(size * 8 + if size == |rest| then 1 else 0, 3) + chunk;
      Associate(out[..|out| - 3 - size], Little(size * 8 + if size == |rest| then 1 else 0, 3), chunk);
      rest := rest[size..];
    }
    Associate(MAGIC + [DESCRIPTOR], Little(|input|, 4), Blocks(input));
  }

  lemma EmptyBlock(input: seq<byte>)
    requires input == []
    ensures Blocks(input) == [1, 0, 0]
  {
    assert Little(1, 3) == [1] + Little(0, 2);
    assert Little(0, 2) == [0] + Little(0, 1);
    assert Little(0, 1) == [0] + Little(0, 0);
  }

  lemma BlocksCut(rest: seq<byte>)
    requires |rest| > 0
    ensures var size := if |rest| < BLOCK then |rest| else BLOCK;
      Blocks(rest) == Block(rest[..size], size == |rest|) + if size == |rest| then [] else Blocks(rest[size..])
  {
    if |rest| <= BLOCK {
      assert rest[..|rest|] == rest;
      assert Block(rest, true) + [] == Block(rest, true);
    }
  }

  // ---- Reading raw-block frames, as sections 3.1.1.1 and 3.1.1.2 of RFC 8878 lay them out ----

  function LastOf(header: nat): bool {
    header % 2 == 1
  }

  function TypeOf(header: nat): nat {
    header / 2 % 4
  }

  function SizeOf(header: nat): nat {
    header / 8
  }

  /** The blocks of one frame, up to the one flagged last. Only raw blocks of at most `most` bytes are read. */
  function ReadBlocks(s: seq<byte>, most: nat): Option<(seq<byte>, seq<byte>)>
    decreases |s|
  {
    if |s| < 3 then None
    else
      var header := FromLittle(s[..3]);
      var size := SizeOf(header);
      if TypeOf(header) != 0 || size > most || |s| < 3 + size then None
      else if LastOf(header) then Some((s[3..3 + size], s[3 + size..]))
      else
        match ReadBlocks(s[3 + size..], most)
        case None => None
        case Some((more, rest)) => Some((s[3..3 + size] + more, rest))
  }

  /** In a single segment the window is the content size, and no block is larger than it or 128 KiB. */
  function ReadFrame(s: seq<byte>): Option<(seq<byte>, seq<byte>)> {
    if |s| < 9 || s[..4] != MAGIC || s[4] != DESCRIPTOR then None
    else
      var size := FromLittle(s[5..9]);
      match ReadBlocks(s[9..], if size < BLOCK then size else BLOCK)
      case None => None
      case Some((content, rest)) => if |content| == size then Some((content, rest)) else None
  }

  lemma HeaderReadsBack(size: nat, last: bool)
    requires size <= BLOCK
    ensures var header := FromLittle(Little(size * 8 + if last then 1 else 0, 3));
      SizeOf(header) == size && TypeOf(header) == 0 && LastOf(header) == last
  {
    hide Little, FromLittle, Pow256, SizeOf, TypeOf, LastOf;
    Widths();
    LittleRoundTrip(size * 8 + if last then 1 else 0, 3);
    HeaderParts(size, last);
  }

  lemma HeaderParts(size: nat, last: bool)
    ensures var header := size * 8 + if last then 1 else 0;
      SizeOf(header) == size && TypeOf(header) == 0 && LastOf(header) == last
  {
    assert (size * 8 + 1) / 2 == size * 4 && size * 8 / 2 == size * 4;
  }

  lemma BlockReadsBack(content: seq<byte>, last: bool, behind: seq<byte>, most: nat)
    requires |content| <= BLOCK && |content| <= most
    ensures ReadBlocks(Block(content, last) + behind, most) ==
      if last then Some((content, behind))
      else match ReadBlocks(behind, most)
           case None => None
           case Some((more, rest)) => Some((content + more, rest))
  {
    hide Little, FromLittle;
    var head := Little(|content| * 8 + if last then 1 else 0, 3);
    var s := Block(content, last) + behind;
    HeaderReadsBack(|content|, last);
    Associate(head, content, behind);
    StepOver(s, 0, head, content + behind);
    StepOver(s, 3, content, behind);
  }

  lemma {:induction false} BlocksReadBack(input: seq<byte>, behind: seq<byte>, most: nat)
    requires |input| <= most || most >= BLOCK
    ensures ReadBlocks(Blocks(input) + behind, most) == Some((input, behind))
    decreases |input|
  {
    hide Block, ReadBlocks;
    if |input| <= BLOCK {
      BlockReadsBack(input, true, behind, most);
    } else {
      BlocksReadBack(input[BLOCK..], behind, most);
      BlockReadsBack(input[..BLOCK], false, Blocks(input[BLOCK..]) + behind, most);
      Associate(Block(input[..BLOCK], false), Blocks(input[BLOCK..]), behind);
      assert input == input[..BLOCK] + input[BLOCK..];
    }
  }

  /** The frame is a valid single-segment frame of raw blocks holding the input, and ends where it ends. */
  lemma FrameReadsBack(input: seq<byte>, behind: seq<byte>)
    requires |input| < U32_LIMIT
    ensures ReadFrame(Frame(input) + behind) == Some((input, behind))
  {
    hide Little, FromLittle, Blocks, ReadBlocks;
    Widths();
    LittleRoundTrip(|input|, 4);
    var s := Frame(input) + behind;
    var size, body := Little(|input|, 4), Blocks(input);
    Associate(MAGIC + [DESCRIPTOR], size + body, behind);
    Associate(size, body, behind);
    StepOver(s, 0, MAGIC + [DESCRIPTOR], size + (body + behind));
    StepOver(s, 5, size, body + behind);
    assert s[..4] == (MAGIC + [DESCRIPTOR])[..4] && s[4] == DESCRIPTOR;
    BlocksReadBack(input, behind, if |input| < BLOCK then |input| else BLOCK);
  }

  lemma OneBlockLess(n: nat)
    requires n >= BLOCK
    ensures n / BLOCK == (n - BLOCK) / BLOCK + 1
  {
  }

  lemma {:induction false} BlocksLength(input: seq<byte>)
    ensures |Blocks(input)| == |input| + 3 * (if |input| == 0 then 1 else (|input| - 1) / BLOCK + 1)
    decreases |input|
  {
    if |input| > BLOCK {
      var rest := input[BLOCK..];
      BlocksLength(rest);
      assert (|input| - 1) / BLOCK == (|rest| - 1) / BLOCK + 1 by { OneBlockLess(|input| - 1); }
      assert |Block(input[..BLOCK], false)| == 3 + BLOCK;
    }
  }

  // ---- The envelope ----

  /** The decompressor reads every frame read above. */
  ghost predicate Lawful(lib: Library) {
    forall s :: ReadFrame(s).Some? && |ReadFrame(s).value.0| <= MAX_BODY ==> lib.decompress(s) == ReadFrame(s)
  }

  /** Whatever the primitives and hashes are, some decompressor is lawful. */
  lemma LawfulExists(codec: MessageCodec.Primitives, hash64: seq<byte> -> u64,
                     hash128: seq<byte> -> MessageCodec.octets16)
    returns (lib: Library)
    ensures Lawful(lib) && lib.codec == codec && lib.hash64 == hash64 && lib.hash128 == hash128
  {
    lib := Library(codec, hash64, hash128, ReadFrame);
  }

  function Material(lib: Library, b: Binding, compressed: seq<byte>): MessageCodec.octets16 {
    lib.hash128(Little(b.requestId, 8) + compressed)
  }

  function Sealing(lib: Library, key: seq<byte>, b: Binding, plaintext: seq<byte>): Result<seq<byte>, Error> {
    if |plaintext| > MAX_BODY then Err(TooLarge)
    else if Bind(lib, b.requestId, plaintext, b.deviceTag).plaintextHash != b.plaintextHash then Err(InvalidEnvelope)
    else
      var material := Material(lib, b, Frame(plaintext));
      var sealed := MessageCodec.Sealed(lib.codec, key, material[..8], Aad(lib, b), Frame(plaintext));
      var split := |sealed| - 16;
      Ok(sealed[split..] + (material + sealed[..split]))
  }

  function Opening(lib: Library, key: seq<byte>, b: Binding, body: seq<byte>): Result<seq<byte>, Error> {
    if |body| < 33 then Err(InvalidEnvelope)
    else if |body| > MAX_BODY + 4096 then Err(TooLarge)
    else
      match MessageCodec.Opened(lib.codec, key, body[16..24], Aad(lib, b), body[32..] + body[..16])
      case Err(_) => Err(Authentication)
      case Ok(compressed) =>
        match lib.decompress(compressed)
        case None => Err(Compression)
        case Some((plain, rest)) =>
          if |plain| > MAX_BODY then Err(TooLarge) else if rest != [] then Err(Compression) else Ok(plain)
  }

  method Seal(lib: Library, key: seq<byte>, b: Binding, plaintext: seq<byte>) returns (r: Result<seq<byte>, Error>)
    ensures r == Sealing(lib, key, b, plaintext)
  {
    hide MessageCodec.Sealed, Frame;
    if |plaintext| > MAX_BODY {
      return Err(TooLarge);
    }
    if Bind(lib, b.requestId, plaintext, b.deviceTag).plaintextHash != b.plaintextHash {
      return Err(InvalidEnvelope);
    }
    var compressed := ZstdFrame(plaintext);
    var material := lib.hash128(Little(b.requestId, 8) + compressed);
    var sealed := MessageCodec.Seal(lib.codec, key, material[..8], Aad(lib, b), compressed);
    var split := |sealed| - 16;
    var out := sealed[split..];
    out := out + material;
    out := out + sealed[..split];
    Associate(sealed[split..], material, sealed[..split]);
    r := Ok(out);
  }

  method Open(lib: Library, key: seq<byte>, b: Binding, body: seq<byte>) returns (r: Result<seq<byte>, Error>)
    ensures r == Opening(lib, key, b, body)
  {
    hide MessageCodec.Opened;
    if |body| < 33 {
      return Err(InvalidEnvelope);
    }
    if |body| > MAX_BODY + 4096 {
      return Err(TooLarge);
    }
    var sealed := body[32..];
    sealed := sealed + body[..16];
    var compressed := MessageCodec.Open(lib.codec, key, body[16..24], Aad(lib, b), sealed);
    if compressed.Err? {
      return Err(Authentication);
    }
    var decoded := lib.decompress(compressed.value);
    if decoded.None? {
      return Err(Compression);
    }
    var (plain, rest) := decoded.value;
    if |plain| > MAX_BODY {
      return Err(TooLarge);
    }
    if rest != [] {
      return Err(Compression);
    }
    r := Ok(plain);
  }

  /** Moving the tag to the front and the material behind it is undone on opening. */
  lemma Rearranged(tag: seq<byte>, material: seq<byte>, ciphertext: seq<byte>)
    requires |tag| == 16 && |material| == 16
    ensures var body := tag + (material + ciphertext);
      body[16..24] == material[..8] && body[32..] + body[..16] == ciphertext + tag && |body| == 32 + |ciphertext|
  {
    var body := tag + (material + ciphertext);
    assert body[..16] == tag && body[32..] == ciphertext;
    assert body[16..24] == material[..8];
  }

  /** Every plaintext of at most a megabyte, under its own binding, is sealed to something that passes the size
      checks and opens to it again. */
  lemma SealedOpens(lib: Library, key: seq<byte>, b: Binding, plaintext: seq<byte>)
    requires Lawful(lib)
    ensures Sealing(lib, key, b, plaintext).Ok? <==>
      |plaintext| <= 0x10_0000 && b.plaintextHash == if |plaintext| == 0 then 0 else lib.hash64(plaintext)
    ensures Sealing(lib, key, b, plaintext).Ok? ==>
      Opening(lib, key, b, Sealing(lib, key, b, plaintext).value) == Ok(plaintext)
  {
    if Sealing(lib, key, b, plaintext).Ok? {
      var frame := Frame(plaintext);
      FrameFits(plaintext);
      FrameReadsBack(plaintext, []);
      assert frame + [] == frame;
      hide Frame, MessageCodec.Sealed, MessageCodec.Opened, ReadFrame;
      var material := Material(lib, b, frame);
      var sealed := MessageCodec.Sealed(lib.codec, key, material[..8], Aad(lib, b), frame);
      MessageCodec.OpensExactlySealed(lib.codec, key, material[..8], Aad(lib, b), frame, sealed);
      Rearranged(sealed[|sealed| - 16..], material, sealed[..|sealed| - 16]);
      assert sealed[..|sealed| - 16] + sealed[|sealed| - 16..] == sealed;
    }
  }

  /** What is authenticated beside the ciphertext, and the number the nonce is made of. */
  ghost function AssociatedData(lib: Library, b: Binding): seq<byte> {
    lib.hash128(Little(b.requestId, 8) + Little(b.plaintextHash, 8) + Little(b.deviceTag, 8)
                + Little(0x019c411fdeaf, 8))
  }

  /** A body opens exactly if it has 33 bytes up to a mebibyte and 4096, is what the codec makes of some frame under the
      nonce it carries and the binding's hash, with the tag first, and decompresses to at most a mebibyte with nothing
      behind. */
  lemma OpensExactly(lib: Library, key: seq<byte>, b: Binding, body: seq<byte>, plaintext: seq<byte>)
    ensures Opening(lib, key, b, body) == Ok(plaintext) <==>
      && 33 <= |body| <= 0x10_0000 + 0x1000
      && var sealed := body[32..] + body[..16];
         var inside := MessageCodec.Opened(lib.codec, key, body[16..24], AssociatedData(lib, b), sealed);
         inside.Ok? && lib.decompress(inside.value) == Some((plaintext, [])) && |plaintext| <= 0x10_0000
    ensures |body| < 33 <==> Opening(lib, key, b, body) == Err(InvalidEnvelope)
  {
    hide MessageCodec.Opened, Little;
  }

  /** What is sealed is the tag, the hash of request number and frame, and the ciphertext of the frame under the first
      half of that hash. */
  lemma SealedIsLaidOut(lib: Library, key: seq<byte>, b: Binding, plaintext: seq<byte>)
    requires Sealing(lib, key, b, plaintext).Ok?
    ensures var body, frame := Sealing(lib, key, b, plaintext).value, Frame(plaintext);
      var material := lib.hash128(Little(b.requestId, 8) + frame);
      && |body| == 32 + |frame| && body[16..32] == material
      && body[32..] + body[..16] == MessageCodec.Sealed(lib.codec, key, material[..8], AssociatedData(lib, b), frame)
  {
    hide MessageCodec.Sealed, Little, Frame;
    var frame := Frame(plaintext);
    var material := Material(lib, b, frame);
    var sealed := MessageCodec.Sealed(lib.codec, key, material[..8], Aad(lib, b), frame);
    Rearranged(sealed[|sealed| - 16..], material, sealed[..|sealed| - 16]);
    assert sealed[..|sealed| - 16] + sealed[|sealed| - 16..] == sealed;
    var body := Sealing(lib, key, b, plaintext).value;
    assert body[16..32] == material;
  }

  lemma FrameFits(plaintext: seq<byte>)
    requires |plaintext| <= MAX_BODY
    ensures 1 <= |Frame(plaintext)| <= MAX_BODY + 4096 - 32
  {
    hide Blocks;
    BlocksLength(plaintext);
  }
}
