/** White space and trimming of Unicode strings. */
module Strings {
  import Text

  /** The White_Space property of Unicode. */
  predicate White(c: char) {
    var n := c as int;
    9 <= n <= 13 || n == 0x20 || n == 0x85 || n == 0xA0 || n == 0x1680 || 0x2000 <= n <= 0x200A
    || n == 0x2028 || n == 0x2029 || n == 0x202F || n == 0x205F || n == 0x3000
  }

  /** The characters with that property, one by one. */
  const WhiteSpace :=
    "\t\n\U{B}\U{C}\r \U{85}\U{A0}\U{1680}\U{2000}\U{2001}\U{2002}\U{2003}\U{2004}\U{2005}\U{2006}\U{2007}\U{2008}"
    + "\U{2009}\U{200A}\U{2028}\U{2029}\U{202F}\U{205F}\U{3000}"

  lemma WhiteExactly(c: char)
    ensures White(c) <==> c in WhiteSpace
  {
    if White(c) {
      var n := c as int;
      var k := if n <= 13 then n - 9 else if n == 0x20 then 5 else if n == 0x85 then 6 else if n == 0xA0 then 7
               else if n == 0x1680 then 8 else if n <= 0x200A then n - 0x2000 + 9
               else if n <= 0x2029 then n - 0x2028 + 20 else if n == 0x202F then 22 else if n == 0x205F then 23 else 24;
      assert WhiteSpace[k] as int == n;
    }
  }

  predicate Blank(s: string) {
    forall i :: 0 <= i < |s| ==> White(s[i])
  }

  function TrimStart(s: string): (r: string)
    ensures |r| <= |s| && r == s[|s| - |r|..]
    ensures r != "" ==> !White(r[0])
  {
    if s != "" && White(s[0]) then TrimStart(s[1..]) else s
  }

  function TrimEnd(s: string): (r: string)
    ensures r <= s
    ensures r != "" ==> !White(r[|r| - 1])
  {
    if s != "" && White(s[|s| - 1]) then TrimEnd(s[..|s| - 1]) else s
  }

  function Trim(s: string): (r: string)
    ensures r != "" ==> !White(r[0]) && !White(r[|r| - 1])
    ensures |r| <= |s|
  {
    TrimEnd(TrimStart(s))
  }

  lemma TrimmedIsTrim(s: string)
    requires s != "" ==> !White(s[0]) && !White(s[|s| - 1])
    ensures Trim(s) == s
  {
  }

  /** The length in bytes of a string in UTF-8, which is how strings are kept. */
  function Utf8Length(s: string): (n: nat)
    ensures n >= |s|
  {
    if |s| == 0 then 0
    else
      var c := s[0] as int;
      (if c < 0x80 then 1 else if c < 0x800 then 2 else if c < 0x1_0000 then 3 else 4) + Utf8Length(s[1..])
  }

  function Codes(s: string): (codes: seq<nat>)
    ensures forall c :: c in codes ==> Text.Scalar(c)
  {
    seq(|s|, i requires 0 <= i < |s| => s[i] as nat)
  }

  /** It is how many bytes the characters of the string are written in. */
  lemma {:induction false} LengthIsSpelled(s: string)
    ensures Utf8Length(s) == |Text.Spelling(Codes(s))|
  {
    if |s| > 0 {
      LengthIsSpelled(s[1..]);
      assert Codes(s)[1..] == Codes(s[1..]);
    }
  }

  lemma {:induction false} AsciiLength(s: string)
    requires forall c :: c in s ==> c as int < 0x80
    ensures Utf8Length(s) == |s|
  {
    if |s| > 0 {
      assert s[0] in s && forall c :: c in s[1..] ==> c in s;
      AsciiLength(s[1..]);
    }
  }
}
