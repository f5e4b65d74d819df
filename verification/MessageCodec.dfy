/** The authenticated codec: a keystream from block 1 on, and a detached-key MAC over an unpadded transcript. */
module MessageCodec {
  import opened Bytes

  /** Sixteen bytes: a MAC tag or a long hash. */
  type octets16 = s: seq<byte> | |s| == 16 witness [0, 0, 0, 0, 0, 0, 0, 0, 0, 0, 0, 0, 0, 0, 0, 0]

  /** The two primitives: byte `at` of the keystream of a key and nonce, and the one-time MAC. */
  datatype Primitives = Primitives(
    keystream: (seq<byte>, seq<byte>, nat) -> byte, mac: (seq<byte>, seq<byte>) -> octets16)

  datatype Error = InvalidLength | AuthenticationFailed

  /** Bitwise exclusive or of two numbers of `bits` bits. */
  function XorBits(a: nat, b: nat, bits: nat): (r: nat) {
    if bits == 0 then 0 else (a + b) % 2 + 2 * XorBits(a / 2, b / 2, bits - 1)
  }

  function Pow2(n: nat): (p: nat)
    ensures p >= 1
  {
    if n == 0 then 1 else 2 * Pow2(n - 1)
  }

  lemma {:induction false} XorFits(a: nat, b: nat, bits: nat)
    ensures XorBits(a, b, bits) < Pow2(bits)
  {
    if bits > 0 {
      XorFits(a / 2, b / 2, bits - 1);
    }
  }

  lemma {:induction false} XorTwice(a: nat, b: nat, bits: nat)
    requires a < Pow2(bits)
    ensures XorBits(XorBits(a, b, bits), b, bits) == a
  {
    if bits > 0 {
      var high := XorBits(a / 2, b / 2, bits - 1);
      XorTwice(a / 2, b / 2, bits - 1);
      LowBit(a, b, high);
    }
  }

  /** The i-th binary digit of `n`, the lowest first. */
  function Bit(n: nat, i: nat): nat {
    if i == 0 then n % 2 else Bit(n / 2, i - 1)
  }

  /** Bit by bit, the result is set where exactly one of the two is. */
  lemma {:induction false} XorBitwise(a: nat, b: nat, bits: nat, i: nat)
    requires i < bits
    ensures Bit(XorBits(a, b, bits), i) == if Bit(a, i) != Bit(b, i) then 1 else 0
  {
    LowBit(a, b, XorBits(a / 2, b / 2, bits - 1));
    if i == 0 {
      Parity(a, b);
    } else {
      XorBitwise(a / 2, b / 2, bits - 1, i - 1);
    }
  }

  lemma Parity(a: nat, b: nat)
    ensures (a + b) % 2 == if a % 2 != b % 2 then 1 else 0
  {
  }

  lemma LowBit(a: nat, b: nat, high: nat)
    ensures var r := (a + b) % 2 + 2 * high;
      r / 2 == high && r % 2 == (a + b) % 2 && (r + b) % 2 == a % 2
  {
    var p, q := a % 2, b % 2;
    assert (a + b) % 2 == if p == q then 0 else 1;
  }

  lemma Octets()
    ensures Pow2(8) == 256
  {
    assert Pow2(4) == 16;
  }

  function Xor(a: byte, b: byte): byte {
    XorFits(a as nat, b as nat, 8);
    Octets();
    XorBits(a as nat, b as nat, 8) as byte
  }

  lemma XorBack(a: byte, b: byte)
    ensures Xor(Xor(a, b), b) == a
  {
    Octets();
    XorTwice(a as nat, b as nat, 8);
  }

  /** `data` combined with the keystream from position `at`. */
  function Masked(c: Primitives, key: seq<byte>, nonce: seq<byte>, at: nat, data: seq<byte>): (r: seq<byte>)
    ensures |r| == |data|
  {
    seq(|data|, i requires 0 <= i < |data| => Xor(data[i], c.keystream(key, nonce, at + i)))
  }

  lemma MaskedTwice(c: Primitives, key: seq<byte>, nonce: seq<byte>, at: nat, data: seq<byte>)
    ensures Masked(c, key, nonce, at, Masked(c, key, nonce, at, data)) == data
  {
    hide Xor;
    var twice := Masked(c, key, nonce, at, Masked(c, key, nonce, at, data));
    forall i | 0 <= i < |data|
      ensures twice[i] == data[i]
    {
      XorBack(data[i], c.keystream(key, nonce, at + i));
    }
  }

  /** The keystream is applied in place. */
  method ApplyKeystream(c: Primitives, key: seq<byte>, nonce: seq<byte>, at: nat, buffer: array<byte>)
    modifies buffer
    ensures buffer[..] == Masked(c, key, nonce, at, old(buffer[..]))
  {
    hide Xor;
    for i := 0 to buffer.Length
      invariant forall k :: 0 <= k < i ==> buffer[k] == Xor(old(buffer[k]), c.keystream(key, nonce, at + k))
      invariant forall k :: i <= k < buffer.Length ==> buffer[k] == old(buffer[k])
    {
      buffer[i] := Xor(buffer[i], c.keystream(key, nonce, at + i));
    }
  }

  /** What the MAC covers: both parts followed by their lengths, without padding. */
  function Transcript(aad: seq<byte>, ciphertext: seq<byte>): seq<byte> {
    (aad + Little(|aad|, 8)) + (ciphertext + Little(|ciphertext|, 8))
  }

  function Tag(c: Primitives, key: seq<byte>, nonce: seq<byte>, aad: seq<byte>, ciphertext: seq<byte>): octets16 {
    c.mac(seq(32, i requires 0 <= i < 32 => c.keystream(key, nonce, i)), Transcript(aad, ciphertext))
  }

  function Sealed(c: Primitives, key: seq<byte>, nonce: seq<byte>, aad: seq<byte>, plaintext: seq<byte>): (s: seq<byte>)
    ensures |s| == |plaintext| + 16
  {
    var ciphertext := Masked(c, key, nonce, 64, plaintext);
    ciphertext + Tag(c, key, nonce, aad, ciphertext)
  }

  function Opened(c: Primitives, key: seq<byte>, nonce: seq<byte>, aad: seq<byte>, sealed: seq<byte>):
    Result<seq<byte>, Error>
  {
    if |sealed| < 16 then Err(InvalidLength)
    else
      var ciphertext := sealed[..|sealed| - 16];
      if Tag(c, key, nonce, aad, ciphertext) != sealed[|sealed| - 16..] then Err(AuthenticationFailed)
      else Ok(Masked(c, key, nonce, 64, ciphertext))
  }

  method Seal(c: Primitives, key: seq<byte>, nonce: seq<byte>, aad: seq<byte>, plaintext: seq<byte>)
    returns (sealed: seq<byte>)
    ensures sealed == Sealed(c, key, nonce, aad, plaintext)
  {
    var buffer := new byte[|plaintext|](i requires 0 <= i < |plaintext| => plaintext[i]);
    assert buffer[..] == plaintext;
    ApplyKeystream(c, key, nonce, 64, buffer);
    sealed := buffer[..] + Tag(c, key, nonce, aad, buffer[..]);
  }

  /** Nothing is decrypted before the tag has been compared. */
  method Open(c: Primitives, key: seq<byte>, nonce: seq<byte>, aad: seq<byte>, sealed: seq<byte>)
    returns (r: Result<seq<byte>, Error>)
    ensures r == Opened(c, key, nonce, aad, sealed)
  {
    if |sealed| < 16 {
      return Err(InvalidLength);
    }
    var ciphertext, supplied := sealed[..|sealed| - 16], sealed[|sealed| - 16..];
    var expected := Tag(c, key, nonce, aad, ciphertext);
    if expected != supplied {
      return Err(AuthenticationFailed);
    }
    var buffer := new byte[|ciphertext|](i requires 0 <= i < |ciphertext| => ciphertext[i]);
    assert buffer[..] == ciphertext;
    ApplyKeystream(c, key, nonce, 64, buffer);
    r := Ok(buffer[..]);
  }

  /** What opens to a plaintext is exactly what sealing that plaintext gives. */
  lemma OpensExactlySealed(c: Primitives, key: seq<byte>, nonce: seq<byte>, aad: seq<byte>, plaintext: seq<byte>,
                           sealed: seq<byte>)
    ensures Opened(c, key, nonce, aad, sealed) == Ok(plaintext) <==> sealed == Sealed(c, key, nonce, aad, plaintext)
  {
    hide Masked, Tag;
    var ciphertext := Masked(c, key, nonce, 64, plaintext);
    MaskedTwice(c, key, nonce, 64, plaintext);
    if |sealed| >= 16 {
      var own := sealed[..|sealed| - 16];
      MaskedTwice(c, key, nonce, 64, own);
      assert sealed == own + sealed[|sealed| - 16..];
    }
    var whole := Sealed(c, key, nonce, aad, plaintext);
    assert whole[..|whole| - 16] == ciphertext;
  }

  /** Each of the eight bits of `sealed` is that of `plain`, flipped where the keystream's is set. */
  ghost predicate Flipped(plain: nat, stream: nat, sealed: nat) {
    forall i :: 0 <= i < 8 ==> Bit(sealed, i) == if Bit(plain, i) != Bit(stream, i) then 1 else 0
  }

  lemma XorFlips(a: byte, b: byte)
    ensures Flipped(a as nat, b as nat, Xor(a, b) as nat)
  {
    var sealed := Xor(a, b) as nat;
    forall i | 0 <= i < 8
      ensures Bit(sealed, i) == if Bit(a as nat, i) != Bit(b as nat, i) then 1 else 0
    {
      XorBitwise(a as nat, b as nat, 8, i);
    }
  }

  /** What opens, and to what: the last sixteen bytes are the MAC, under the first 32 bytes of keystream, of the
      associated data and the ciphertext each followed by its length in eight bytes; and the plaintext is the
      ciphertext flipped by the keystream from byte 64 on. */
  lemma OpensExactly(c: Primitives, key: seq<byte>, nonce: seq<byte>, aad: seq<byte>, sealed: seq<byte>)
    ensures var r := Opened(c, key, nonce, aad, sealed);
      && (|sealed| < 16 <==> r == Err(InvalidLength))
      && (|sealed| >= 16 ==>
            var n := |sealed| - 16;
            var mac := c.mac(seq(32, i requires 0 <= i < 32 => c.keystream(key, nonce, i)),
                             aad + Little(|aad|, 8) + sealed[..n] + Little(n, 8));
            && (r.Ok? <==> sealed[n..] == mac)
            && (r.Ok? ==>
                  && |r.value| == n
                  && forall i :: 0 <= i < n ==>
                       Flipped(sealed[i] as nat, c.keystream(key, nonce, 64 + i) as nat, r.value[i] as nat)))
  {
    hide Little, Flipped, Xor;
    if |sealed| >= 16 {
      var n := |sealed| - 16;
      var ciphertext := sealed[..n];
      Associate(aad + Little(|aad|, 8), ciphertext, Little(n, 8));
      var r := Opened(c, key, nonce, aad, sealed);
      if r.Ok? {
        forall i | 0 <= i < n
          ensures Flipped(sealed[i] as nat, c.keystream(key, nonce, 64 + i) as nat, r.value[i] as nat)
        {
          XorFlips(ciphertext[i], c.keystream(key, nonce, 64 + i));
        }
      }
    }
  }

  /** What was sealed under one associated data opens under another only if two different texts have one MAC. */
  lemma OtherAadCollides(c: Primitives, key: seq<byte>, nonce: seq<byte>, aad: seq<byte>, other: seq<byte>,
                         plaintext: seq<byte>)
    requires aad != other
    requires |aad| < USIZE_LIMIT && |other| < USIZE_LIMIT && |plaintext| < USIZE_LIMIT
    ensures var ciphertext := Sealed(c, key, nonce, aad, plaintext)[..|plaintext|];
      var first := aad + Little(|aad|, 8) + ciphertext + Little(|ciphertext|, 8);
      var second := other + Little(|other|, 8) + ciphertext + Little(|ciphertext|, 8);
      var oneTime := seq(32, i requires 0 <= i < 32 => c.keystream(key, nonce, i));
      && first != second
      && (Opened(c, key, nonce, other, Sealed(c, key, nonce, aad, plaintext)).Ok? <==>
            c.mac(oneTime, first) == c.mac(oneTime, second))
  {
    hide Little, Masked;
    var sealed := Sealed(c, key, nonce, aad, plaintext);
    var ciphertext := sealed[..|plaintext|];
    OpensExactlySealed(c, key, nonce, aad, plaintext, sealed);
    OpensExactly(c, key, nonce, aad, sealed);
    OpensExactly(c, key, nonce, other, sealed);
    hide Opened, Sealed;
    var tail := Little(|ciphertext|, 8);
    Associate(aad + Little(|aad|, 8), ciphertext, tail);
    Associate(other + Little(|other|, 8), ciphertext, tail);
    if aad + Little(|aad|, 8) + ciphertext + tail == other + Little(|other|, 8) + ciphertext + tail {
      TranscriptInjective(aad, ciphertext, other, ciphertext);
    }
  }

  /** The transcript gives away neither part to the other: it determines both. */
  lemma TranscriptInjective(aad: seq<byte>, ciphertext: seq<byte>, aad2: seq<byte>, ciphertext2: seq<byte>)
    requires |aad| < USIZE_LIMIT && |aad2| < USIZE_LIMIT && |ciphertext| < USIZE_LIMIT && |ciphertext2| < USIZE_LIMIT
    requires Transcript(aad, ciphertext) == Transcript(aad2, ciphertext2)
    ensures aad == aad2 && ciphertext == ciphertext2
  {
    hide Little, FromLittle;
    Widths();
    var head, body := aad + Little(|aad|, 8), ciphertext + Little(|ciphertext|, 8);
    var head2, body2 := aad2 + Little(|aad2|, 8), ciphertext2 + Little(|ciphertext2|, 8);
    Associate(head, ciphertext, Little(|ciphertext|, 8));
    Associate(head2, ciphertext2, Little(|ciphertext2|, 8));
    assert |head + ciphertext| == |head2 + ciphertext2|;
    SplitEqual(head + ciphertext, Little(|ciphertext|, 8), head2 + ciphertext2, Little(|ciphertext2|, 8));
    LittleRoundTrip(|ciphertext|, 8);
    LittleRoundTrip(|ciphertext2|, 8);
    SplitEqual(head, ciphertext, head2, ciphertext2);
    SplitEqual(aad, Little(|aad|, 8), aad2, Little(|aad2|, 8));
  }
}
