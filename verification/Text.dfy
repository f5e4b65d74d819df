/** Rust strings as the bytes they are: UTF-8 validity (section 4 of RFC 3629), unsigned decimal parsing
    and printing. */
module Text {
  import opened Bytes

  predicate Tail(b: byte) {
    0x80 <= b <= 0xBF
  }

  /** The length of the well-formed character at the front of `s`, or 0. */
  function Width(s: seq<byte>): (n: nat)
    ensures n <= |s| && (n == 0 ==> |s| == 0 || s[0] >= 0x80)
  {
    if |s| == 0 then 0
    else if s[0] <= 0x7F then 1
    else if 0xC2 <= s[0] <= 0xDF then if |s| >= 2 && Tail(s[1]) then 2 else 0
    else if 0xE0 <= s[0] <= 0xEF then
      if |s| >= 3 && Tail(s[1]) && Tail(s[2]) && (s[0] == 0xE0 ==> s[1] >= 0xA0) && (s[0] == 0xED ==> s[1] <= 0x9F)
      then 3 else 0
    else if 0xF0 <= s[0] <= 0xF4 then
      if |s| >= 4 && Tail(s[1]) && Tail(s[2]) && Tail(s[3])
         && (s[0] == 0xF0 ==> s[1] >= 0x90) && (s[0] == 0xF4 ==> s[1] <= 0x8F)
      then 4 else 0
    else 0
  }

  predicate Valid(s: seq<byte>) {
    |s| == 0 || (Width(s) > 0 && Valid(s[Width(s)..]))
  }

  /** A Unicode scalar value: any code point but a surrogate. */
  predicate Scalar(c: nat) {
    c <= 0x10FFFF && !(0xD800 <= c <= 0xDFFF)
  }

  /** The bytes of a scalar value, as section 3 of RFC 3629 forms them. */
  function Char(c: nat): (s: seq<byte>)
    requires Scalar(c)
    ensures 1 <= |s| <= 4
  {
    if c < 0x80 then [c as byte]
    else if c < 0x800 then [(0xC0 + c / 64) as byte, (0x80 + c % 64) as byte]
    else if c < 0x1_0000 then [(0xE0 + c / 4096) as byte, (0x80 + c / 64 % 64) as byte, (0x80 + c % 64) as byte]
    else [(0xF0 + c / 262144) as byte, (0x80 + c / 4096 % 64) as byte, (0x80 + c / 64 % 64) as byte,
          (0x80 + c % 64) as byte]
  }

  lemma ScalarAtFront(c: nat, rest: seq<byte>)
    requires Scalar(c)
    ensures Width(Char(c) + rest) == |Char(c)|
  {
    var first, s := Char(c), Char(c) + rest;
    assert first[0] == s[0];
    assert |first| > 1 ==> first[1] == s[1];
    assert |first| > 2 ==> first[2] == s[2];
    assert |first| > 3 ==> first[3] == s[3];
    CharBytes(c);
    hide Char;
  }

  /** The first byte tells the length of a character, and what its second byte may be. */
  lemma CharBytes(c: nat)
    requires Scalar(c)
    ensures var s := Char(c);
      && (|s| == 1 ==> s[0] <= 0x7F)
      && (|s| == 2 ==> 0xC2 <= s[0] <= 0xDF)
      && (|s| == 3 ==> 0xE0 <= s[0] <= 0xEF && (s[0] == 0xE0 ==> s[1] >= 0xA0) && (s[0] == 0xED ==> s[1] <= 0x9F))
      && (|s| == 4 ==> 0xF0 <= s[0] <= 0xF4 && (s[0] == 0xF0 ==> s[1] >= 0x90) && (s[0] == 0xF4 ==> s[1] <= 0x8F))
      && forall i :: 1 <= i < |s| ==> Tail(s[i])
  {
  }

  lemma TwoDigits(a: nat, b: nat)
    requires b < 64
    ensures (a * 64 + b) / 64 == a && (a * 64 + b) % 64 == b
  {
  }

  lemma ThreeDigits(a: nat, b: nat, c: nat)
    requires b < 64 && c < 64
    ensures var n := a * 4096 + b * 64 + c; n / 4096 == a && n / 64 % 64 == b && n % 64 == c
  {
    TwoDigits(a * 64 + b, c);
    TwoDigits(a, b);
    var n := a * 4096 + b * 64 + c;
    assert n / 4096 == n / 64 / 64;
  }

  lemma FourDigits(a: nat, b: nat, c: nat, d: nat)
    requires b < 64 && c < 64 && d < 64
    ensures var n := a * 262144 + b * 4096 + c * 64 + d;
      n / 262144 == a && n / 4096 % 64 == b && n / 64 % 64 == c && n % 64 == d
  {
    ThreeDigits(a * 64 + b, c, d);
    TwoDigits(a, b);
    var n := a * 262144 + b * 4096 + c * 64 + d;
    assert n / 262144 == n / 4096 / 64;
  }

  lemma FrontIsScalar(s: seq<byte>) returns (c: nat)
    requires Width(s) > 0
    ensures Scalar(c) && s[..Width(s)] == Char(c)
  {
    var n := Width(s);
    var p := s[0] as nat;
    if n == 1 {
      c := p;
    } else if n == 2 {
      var q := s[1] as nat;
      TwoDigits(p - 0xC0, q - 0x80);
      c := (p - 0xC0) * 64 + (q - 0x80);
    } else if n == 3 {
      c := OfThree(s);
    } else {
      c := OfFour(s);
    }
  }

  lemma OfThree(s: seq<byte>) returns (c: nat)
    requires Width(s) == 3
    ensures Scalar(c) && s[..3] == Char(c)
  {
    var p, q, r := s[0] as nat, s[1] as nat, s[2] as nat;
    assert 0xE0 <= p <= 0xEF && 0x80 <= q <= 0xBF && 0x80 <= r <= 0xBF;
    assert (p == 0xE0 ==> q >= 0xA0) && (p == 0xED ==> q <= 0x9F);
    hide Width;
    ThreeDigits(p - 0xE0, q - 0x80, r - 0x80);
    c := (p - 0xE0) * 4096 + (q - 0x80) * 64 + (r - 0x80);
  }

  lemma OfFour(s: seq<byte>) returns (c: nat)
    requires Width(s) == 4
    ensures Scalar(c) && s[..4] == Char(c)
  {
    var p, q, r, t := s[0] as nat, s[1] as nat, s[2] as nat, s[3] as nat;
    assert 0xF0 <= p <= 0xF4 && 0x80 <= q <= 0xBF && 0x80 <= r <= 0xBF && 0x80 <= t <= 0xBF;
    assert (p == 0xF0 ==> q >= 0x90) && (p == 0xF4 ==> q <= 0x8F);
    hide Width;
    FourDigits(p - 0xF0, q - 0x80, r - 0x80, t - 0x80);
    c := (p - 0xF0) * 262144 + (q - 0x80) * 4096 + (r - 0x80) * 64 + (t - 0x80);
  }

  function Spelling(chars: seq<nat>): seq<byte>
    requires forall c :: c in chars ==> Scalar(c)
  {
    if |chars| == 0 then [] else Char(chars[0]) + Spelling(chars[1..])
  }

  ghost predicate Spells(chars: seq<nat>, s: seq<byte>) {
    (forall c :: c in chars ==> Scalar(c)) && Spelling(chars) == s
  }

  lemma {:induction false} SpelledOut(s: seq<byte>) returns (chars: seq<nat>)
    requires Valid(s)
    ensures Spells(chars, s)
  {
    if |s| == 0 {
      chars := [];
    } else {
      var c := FrontIsScalar(s);
      var more := SpelledOut(s[Width(s)..]);
      chars := [c] + more;
      assert s == s[..Width(s)] + s[Width(s)..];
      assert chars[1..] == more;
    }
  }

  lemma {:induction false} SpellingIsValid(chars: seq<nat>)
    requires forall c :: c in chars ==> Scalar(c)
    ensures Valid(Spelling(chars))
  {
    if |chars| > 0 {
      var s, first := Spelling(chars), Char(chars[0]);
      SpellingIsValid(chars[1..]);
      ScalarAtFront(chars[0], Spelling(chars[1..]));
      assert s[|first|..] == Spelling(chars[1..]);
    }
  }

  /** Bytes are a string exactly if they are the bytes of Unicode scalar values end to end. */
  lemma ValidExactly(s: seq<byte>)
    ensures Valid(s) <==> exists chars: seq<nat> :: Spells(chars, s)
  {
    if Valid(s) {
      var chars := SpelledOut(s);
    }
    forall chars: seq<nat> | Spells(chars, s)
      ensures Valid(s)
    {
      SpellingIsValid(chars);
    }
  }

  /** The contents of a Rust `&str` or `String`. */
  type Utf8 = s: seq<byte> | Valid(s) witness []

  predicate Digit(b: byte) {
    48 <= b <= 57
  }

  lemma {:induction false} AsciiIsValid(s: seq<byte>)
    requires forall i :: 0 <= i < |s| ==> s[i] <= 0x7F
    ensures Valid(s)
  {
    if |s| > 0 {
      AsciiIsValid(s[1..]);
    }
  }

  /** The number a string of digits denotes. */
  function Number(s: seq<byte>): Option<nat> {
    if |s| == 0 || !Digit(s[|s| - 1]) then None
    else if |s| == 1 then Some(s[0] as nat - 48)
    else
      var high := Number(s[..|s| - 1]);
      if high.None? then None else Some(high.value * 10 + (s[|s| - 1] as nat - 48))
  }

  /** Unsigned `str::parse`: an optional plus sign and digits, refused at `limit` and above. */
  function ParseUnsigned(s: seq<byte>, limit: nat): (n: Option<nat>)
    ensures n.Some? ==> n.value < limit
  {
    var n := Number(if |s| > 1 && s[0] == 43 then s[1..] else s);
    if n.Some? && n.value < limit then n else None
  }

  /** `to_string` of an unsigned integer. */
  function Decimal(n: nat): (s: seq<byte>)
    ensures |s| >= 1
  {
    if n < 10 then [(48 + n) as byte] else Decimal(n / 10) + [(48 + n % 10) as byte]
  }

  lemma {:induction false} DecimalDenotes(n: nat)
    ensures Number(Decimal(n)) == Some(n)
    ensures forall i :: 0 <= i < |Decimal(n)| ==> Digit(Decimal(n)[i])
  {
    if n >= 10 {
      DecimalDenotes(n / 10);
      assert Decimal(n)[..|Decimal(n)| - 1] == Decimal(n / 10);
    }
  }

  /** Exactly the nonempty strings of digits denote a number, and a leading zero does not change it. */
  lemma {:induction false} DenotesExactly(s: seq<byte>)
    ensures Number(s).Some? <==> |s| > 0 && forall i :: 0 <= i < |s| ==> 48 <= s[i] <= 57
    ensures |s| > 0 ==> Number([48] + s) == Number(s)
  {
    if |s| > 0 {
      var front := s[..|s| - 1];
      DenotesExactly(front);
      assert s == front + [s[|s| - 1]];
      assert ([48] + s)[..|s|] == [48] + front;
      if |s| == 1 {
        assert [48] + front == [48];
      }
    }
  }

  /**
   * One leading plus sign is passed over and a second one is not; besides it there must be digits
   * and nothing else, and what they denote must be under the limit.
   */
  lemma ParsedExactly(s: seq<byte>, limit: nat)
    ensures ParseUnsigned([43] + s, limit) == if |s| > 0 && s[0] == 43 then None else ParseUnsigned(s, limit)
    ensures (|s| == 0 || s[0] != 43) ==>
              (ParseUnsigned(s, limit).Some? <==>
               |s| > 0 && (forall i :: 0 <= i < |s| ==> 48 <= s[i] <= 57) && Number(s).Some? && Number(s).value < limit)
    ensures |s| > 0 && s[0] != 43 ==> ParseUnsigned([48] + s, limit) == ParseUnsigned(s, limit)
  {
    DenotesExactly(s);
    DenotesExactly([43] + s);
    assert ([43] + s)[1..] == s;
  }

  /** What is printed parses back, and is a string. */
  lemma DecimalRoundTrip(n: nat, limit: nat)
    requires n < limit
    ensures ParseUnsigned(Decimal(n), limit) == Some(n)
    ensures Valid(Decimal(n))
  {
    DecimalDenotes(n);
    assert Digit(Decimal(n)[0]);
    AsciiIsValid(Decimal(n));
  }

  function Pow10(n: nat): (p: nat)
    ensures p >= 1
  {
    if n == 0 then 1 else 10 * Pow10(n - 1)
  }
}
