/** Base64 with the URL-safe alphabet and no padding, as section 5 of RFC 4648 defines it. */
module Base64Url {
  import opened Bytes

  type Sextet = x: nat | x < 64

  function Symbol(n: Sextet): char {
    if n < 26 then 'A' + n as char
    else if n < 52 then 'a' + (n - 26) as char
    else if n < 62 then '0' + (n - 52) as char
    else if n == 62 then '-' else '_'
  }

  function ValueOf(c: char): Option<Sextet> {
    if 'A' <= c <= 'Z' then Some((c - 'A') as nat)
    else if 'a' <= c <= 'z' then Some((c - 'a') as nat + 26)
    else if '0' <= c <= '9' then Some((c - '0') as nat + 52)
    else if c == '-' then Some(62)
    else if c == '_' then Some(63)
    else None
  }

  lemma SymbolReadsBack(n: Sextet)
    ensures ValueOf(Symbol(n)) == Some(n)
  {
  }

  lemma ValueIsSymbol(c: char)
    requires ValueOf(c).Some?
    ensures Symbol(ValueOf(c).value) == c
  {
  }

  /** Three bytes in four symbols. */
  function Four(x: byte, y: byte, z: byte): (t: string)
    ensures |t| == 4
  {
    var a, b, c := x as nat, y as nat, z as nat;
    [Symbol(a / 4), Symbol(a % 4 * 16 + b / 16), Symbol(b % 16 * 4 + c / 64), Symbol(c % 64)]
  }

  function Encode(s: seq<byte>): (t: string)
    ensures |t| == (|s| * 4 + 2) / 3
  {
    if |s| == 0 then ""
    else if |s| == 1 then
      var a := s[0] as nat;
      [Symbol(a / 4), Symbol(a % 4 * 16)]
    else if |s| == 2 then
      var a, b := s[0] as nat, s[1] as nat;
      [Symbol(a / 4), Symbol(a % 4 * 16 + b / 16), Symbol(b % 16 * 4)]
    else
      Four(s[0], s[1], s[2]) + Encode(s[3..])
  }

  /** The one or two bytes at the end; the bits left over must be zero. */
  function DecodeEnd(t: string): Option<seq<byte>>
    requires 1 <= |t| <= 3
  {
    if |t| == 1 then None
    else
      var p, q := ValueOf(t[0]), ValueOf(t[1]);
      if p.None? || q.None? then None
      else if |t| == 2 then
        if q.value % 16 != 0 then None else Some([(p.value * 4 + q.value / 16) as byte])
      else
        var r := ValueOf(t[2]);
        if r.None? || r.value % 4 != 0 then None
        else Some([(p.value * 4 + q.value / 16) as byte, (q.value % 16 * 16 + r.value / 4) as byte])
  }

  function DecodeFour(t: string): Option<seq<byte>>
    requires |t| == 4
  {
    var p, q, r, u := ValueOf(t[0]), ValueOf(t[1]), ValueOf(t[2]), ValueOf(t[3]);
    if p.None? || q.None? || r.None? || u.None? then None
    else Some([(p.value * 4 + q.value / 16) as byte, (q.value % 16 * 16 + r.value / 4) as byte,
               (r.value % 4 * 64 + u.value) as byte])
  }

  function Decode(t: string): Option<seq<byte>> {
    if |t| == 0 then Some([])
    else if |t| < 4 then DecodeEnd(t)
    else
      var head := DecodeFour(t[..4]);
      var tail := Decode(t[4..]);
      if head.None? || tail.None? then None else Some(head.value + tail.value)
  }

  lemma FourBytes(x: nat, y: nat, z: nat)
    requires x < 256 && y < 256 && z < 256
    ensures var p, q, r, u := x / 4, x % 4 * 16 + y / 16, y % 16 * 4 + z / 64, z % 64;
      p * 4 + q / 16 == x && q % 16 * 16 + r / 4 == y && r % 4 * 64 + u == z
  {
    assert (x % 4 * 16 + y / 16) / 16 == x % 4 && (y % 16 * 4 + z / 64) / 4 == y % 16;
  }

  lemma FourReadBack(a: byte, b: byte, c: byte)
    ensures DecodeFour(Four(a, b, c)) == Some([a, b, c])
  {
    hide Symbol, ValueOf;
    var x, y, z := a as nat, b as nat, c as nat;
    SymbolReadsBack(x / 4);
    SymbolReadsBack(x % 4 * 16 + y / 16);
    SymbolReadsBack(y % 16 * 4 + z / 64);
    SymbolReadsBack(z % 64);
    FourBytes(x, y, z);
  }

  lemma EndReadsBack(s: seq<byte>)
    requires 1 <= |s| <= 2
    ensures 1 <= |Encode(s)| <= 3 && DecodeEnd(Encode(s)) == Some(s)
  {
    hide Symbol, ValueOf;
    var x := s[0] as nat;
    SymbolReadsBack(x / 4);
    if |s| == 1 {
      SymbolReadsBack(x % 4 * 16);
      assert x / 4 * 4 + x % 4 * 16 / 16 == x;
      assert s == [s[0]];
    } else {
      var y := s[1] as nat;
      SymbolReadsBack(x % 4 * 16 + y / 16);
      SymbolReadsBack(y % 16 * 4);
      assert (x % 4 * 16 + y / 16) / 16 == x % 4 && (x % 4 * 16 + y / 16) % 16 == y / 16;
      assert s == [s[0], s[1]];
    }
  }

  lemma {:induction false} EncodedReadsBack(s: seq<byte>)
    ensures Decode(Encode(s)) == Some(s)
  {
    if |s| == 0 {
    } else if |s| < 3 {
      EndReadsBack(s);
      hide Encode, DecodeEnd;
    } else {
      EncodedReadsBack(s[3..]);
      FourReadBack(s[0], s[1], s[2]);
      hide DecodeFour, Four;
      var head := Four(s[0], s[1], s[2]);
      assert Encode(s)[..4] == head && Encode(s)[4..] == Encode(s[3..]);
      assert s == [s[0], s[1], s[2]] + s[3..];
    }
  }

  lemma FourValues(p: Sextet, q: Sextet, r: Sextet, u: Sextet)
    ensures var a, b, c := p * 4 + q / 16, q % 16 * 16 + r / 4, r % 4 * 64 + u;
      a / 4 == p && a % 4 * 16 + b / 16 == q && b % 16 * 4 + c / 64 == r && c % 64 == u
  {
    assert (p * 4 + q / 16) / 4 == p && (q % 16 * 16 + r / 4) / 16 == q % 16 && (r % 4 * 64 + u) / 64 == r % 4;
  }

  lemma FourIsEncoded(t: string)
    requires |t| == 4 && DecodeFour(t).Some?
    ensures var s := DecodeFour(t).value;
      |s| == 3 && Four(s[0], s[1], s[2]) == t
  {
    hide Symbol, ValueOf;
    ValueIsSymbol(t[0]);
    ValueIsSymbol(t[1]);
    ValueIsSymbol(t[2]);
    ValueIsSymbol(t[3]);
    FourValues(ValueOf(t[0]).value, ValueOf(t[1]).value, ValueOf(t[2]).value, ValueOf(t[3]).value);
  }

  lemma EndIsEncoded(t: string)
    requires 1 <= |t| <= 3 && DecodeEnd(t).Some?
    ensures Encode(DecodeEnd(t).value) == t
  {
    hide Symbol, ValueOf;
    ValueIsSymbol(t[0]);
    ValueIsSymbol(t[1]);
    var p, q := ValueOf(t[0]).value, ValueOf(t[1]).value;
    FourValues(p, q, 0, 0);
    if |t| == 3 {
      ValueIsSymbol(t[2]);
      FourValues(p, q, ValueOf(t[2]).value, 0);
    }
  }

  /** The decoder is strict: a text is accepted exactly when it is the one encoding of what it decodes to. */
  lemma {:induction false} DecodesOnlyEncodings(t: string, s: seq<byte>)
    ensures Decode(t) == Some(s) <==> t == Encode(s)
  {
    EncodedReadsBack(s);
    if Decode(t) == Some(s) && |t| > 0 {
      if |t| < 4 {
        EndIsEncoded(t);
      } else {
        FourIsEncoded(t[..4]);
        DecodesOnlyEncodings(t[4..], Decode(t[4..]).value);
        assert s[3..] == Decode(t[4..]).value;
        assert t == t[..4] + t[4..];
        hide Four, DecodeFour;
      }
    }
  }

  lemma {:induction false} EncodesToAscii(s: seq<byte>)
    ensures forall c :: c in Encode(s) ==> c as int < 0x80
  {
    if |s| >= 3 {
      EncodesToAscii(s[3..]);
    }
  }
}
