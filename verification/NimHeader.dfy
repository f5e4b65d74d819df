/** The outer NIM frame header, and splitting a complete WebSocket message into header and body. */
module NimHeader {
  import opened Bytes
  import Varint

  datatype Header = Header(
    declaredLength: nat, service: byte, command: byte, serial: u16, tag: byte, responseCode: u16, consumed: nat)

  datatype HeaderError = Truncated | VarintTooLong

  datatype Packet = Packet(header: Header, body: seq<byte>)

  datatype TransportError = InvalidHeader(error: HeaderError) | FrameTooLarge

  function LowByte(n: u16): byte {
    (n % 256) as byte
  }

  function HighByte(n: u16): byte {
    (n / 256) as byte
  }

  function Word(low: byte, high: byte): u16 {
    low as nat + 256 * high as nat
  }

  /** The header every request is sent with: the first varint is zero, not a size. */
  function Request(service: byte, command: byte, serial: u16): seq<byte> {
    [0, service, command, LowByte(serial), HighByte(serial), 0]
  }

  predicate HasStatus(tag: byte) {
    tag as nat / 2 % 2 == 1
  }

  /** A header as the peer lays it out. */
  function Layout(declaredLength: nat, service: byte, command: byte, serial: u16, tag: byte, status: u16): seq<byte> {
    Varint.Encoded(declaredLength)
    + ([service, command, LowByte(serial), HighByte(serial), tag]
       + if HasStatus(tag) then [LowByte(status), HighByte(status)] else [])
  }

  function Parsing(bytes: seq<byte>): (r: Result<Header, HeaderError>)
    ensures r.Ok? ==> 6 <= r.value.consumed <= |bytes|
  {
    var length := Varint.Parsed(bytes, 5, 255);
    if !length.Value? then Err(if length.Truncated? then Truncated else VarintTooLong)
    else Fixed(bytes[length.used..], length.value, length.used)
  }

  /** The five fixed bytes and the optional status code behind the declared length. */
  function Fixed(s: seq<byte>, length: nat, before: nat): (r: Result<Header, HeaderError>)
    ensures r.Ok? ==> before + 5 <= r.value.consumed <= before + |s|
  {
    if |s| < 5 then Err(Truncated)
    else if !HasStatus(s[4]) then Ok(Header(length, s[0], s[1], Word(s[2], s[3]), s[4], 200, before + 5))
    else if |s| < 7 then Err(Truncated)
    else Ok(Header(length, s[0], s[1], Word(s[2], s[3]), s[4], Word(s[5], s[6]), before + 7))
  }

  method Parse(bytes: seq<byte>) returns (r: Result<Header, HeaderError>)
    ensures r == Parsing(bytes)
  {
    assert bytes[0..] == bytes;
    var length, pos := Varint.Read(bytes, 0, 5, 255);
    if !length.Value? {
      return Err(if length.Truncated? then Truncated else VarintTooLong);
    }
    if pos + 5 > |bytes| {
      return Err(Truncated);
    }
    var fields := bytes[pos..pos + 5];
    var tag := fields[4];
    var code: u16 := 200;
    var consumed := pos + 5;
    if HasStatus(tag) {
      if consumed + 2 > |bytes| {
        return Err(Truncated);
      }
      code := Word(bytes[consumed], bytes[consumed + 1]);
    }
    r := Ok(Header(length.value, fields[0], fields[1], Word(fields[2], fields[3]), tag, code,
                   if HasStatus(tag) then consumed + 2 else consumed));
  }

  function Splitting(frame: seq<byte>, maxBytes: nat): (r: Result<Packet, TransportError>)
    ensures r.Ok? ==> |r.value.body| + 6 <= |frame| <= maxBytes
  {
    if |frame| > maxBytes then Err(FrameTooLarge)
    else
      var header := Parsing(frame);
      if header.Err? then Err(InvalidHeader(header.error))
      else Ok(Packet(header.value, frame[header.value.consumed..]))
  }

  method DecodeMessage(frame: seq<byte>, maxBytes: nat) returns (r: Result<Packet, TransportError>)
    ensures r == Splitting(frame, maxBytes)
  {
    if |frame| > maxBytes {
      return Err(FrameTooLarge);
    }
    var header := Parse(frame);
    if header.Err? {
      return Err(InvalidHeader(header.error));
    }
    r := Ok(Packet(header.value, frame[header.value.consumed..]));
  }

  lemma WordRoundTrip(n: u16)
    ensures Word(LowByte(n), HighByte(n)) == n
  {
  }

  /** The largest declared length five varint bytes can carry. */
  const LENGTH_LIMIT: nat := 0x8_0000_0000

  lemma LengthFits(length: nat)
    requires length < LENGTH_LIMIT
    ensures Varint.Fits(length, 5, 255)
  {
    var a := length / 128;
    var b := a / 128;
    var c := b / 128;
    var d := c / 128;
    assert d < 128;
    assert Varint.Fits(d, 1, 255);
    assert Varint.Fits(c, 2, 255);
    assert Varint.Fits(b, 3, 255);
    assert Varint.Fits(a, 4, 255);
  }

  /** A laid-out header reads back field by field and nothing of the body is taken for it. */
  lemma LayoutReadsBack(length: nat, service: byte, command: byte, serial: u16, tag: byte, status: u16,
                        body: seq<byte>, maxBytes: nat)
    requires length < LENGTH_LIMIT
    requires |Layout(length, service, command, serial, tag, status) + body| <= maxBytes
    ensures var head := Layout(length, service, command, serial, tag, status);
      Splitting(head + body, maxBytes) ==
        Ok(Packet(Header(length, service, command, serial, tag, if HasStatus(tag) then status else 200, |head|), body))
  {
    hide Varint.Parsed, Varint.Encoded, Varint.Fits;
    var first := Varint.Encoded(length);
    var fixed := [service, command, LowByte(serial), HighByte(serial), tag]
      + if HasStatus(tag) then [LowByte(status), HighByte(status)] else [];
    var frame := Layout(length, service, command, serial, tag, status) + body;
    Associate(first, fixed, body);
    LengthFits(length);
    Varint.RoundTrip(length, 5, 255, fixed + body);
    StepOver(frame, 0, first, fixed + body);
    StepOver(frame, |first|, fixed, body);
    WordRoundTrip(serial);
    WordRoundTrip(status);
  }

  /** A request reads back with its route and serial, an accepted status and its body untouched. */
  lemma RequestReadsBack(service: byte, command: byte, serial: u16, body: seq<byte>, maxBytes: nat)
    requires 6 + |body| <= maxBytes
    ensures Splitting(Request(service, command, serial) + body, maxBytes) ==
      Ok(Packet(Header(0, service, command, serial, 0, 200, 6), body))
  {
    assert Layout(0, service, command, serial, 0, 200) == Request(service, command, serial);
    LayoutReadsBack(0, service, command, serial, 0, 200, body, maxBytes);
  }

  /** An accepted header is never read from fewer bytes than it takes: cut inside it the frame is Truncated,
      and any other body behind it leaves it as it was. */
  lemma OwnBytesOnly(bytes: seq<byte>, k: nat, rest: seq<byte>)
    requires Parsing(bytes).Ok? && k <= |bytes|
    ensures k < Parsing(bytes).value.consumed ==> Parsing(bytes[..k]) == Err(Truncated)
    ensures k >= Parsing(bytes).value.consumed ==> Parsing(bytes[..k] + rest) == Parsing(bytes)
  {
    hide Varint.Parsed;
    var length := Varint.Parsed(bytes, 5, 255);
    Varint.OwnBytesOnly(bytes, 5, 255, k, rest);
    Varint.OwnBytesOnly(bytes, 5, 255, k, []);
    assert bytes[..k] + [] == bytes[..k];
    if k >= length.used {
      CutFrom(bytes, length.used, k, rest);
    }
  }

  /** What an accepted header says, byte by byte behind its varint: the status, two bytes lowest first, is there exactly
      if the second bit of the tag is set, and 200 otherwise. */
  lemma ParsedExactly(bytes: seq<byte>)
    ensures var length := Varint.Parsed(bytes, 5, 255);
      Parsing(bytes).Ok? ==>
        var h, at := Parsing(bytes).value, length.used;
        && length.Value? && h.declaredLength == length.value && |bytes| >= at + 5
        && h.service == bytes[at] && h.command == bytes[at + 1]
        && h.serial == bytes[at + 2] as nat + 256 * bytes[at + 3] as nat && h.tag == bytes[at + 4]
        && h.consumed == at + (if h.tag as nat % 4 in {2, 3} then 7 else 5) && h.consumed <= |bytes|
        && h.responseCode ==
             if h.tag as nat % 4 in {2, 3} then bytes[at + 5] as nat + 256 * bytes[at + 6] as nat else 200
    ensures Parsing(bytes) == Err(VarintTooLong) <==> Varint.Parsed(bytes, 5, 255).Overflow?
  {
    hide Varint.Parsed;
  }

  /** The declared length of an accepted header fits the u64 it is summed in, five bytes wide. */
  lemma {:induction false} LengthBounded(s: seq<byte>, width: nat)
    requires width >= 1 && Varint.Parsed(s, width, 255).Value?
    ensures Varint.Parsed(s, width, 255).value < Varint.Pow128(width)
  {
    if width > 1 && s[0] >= 128 {
      LengthBounded(s[1..], width - 1);
    }
  }
}
