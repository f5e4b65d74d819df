/** Group-card numbers, two-character card names, and the rename plan of a group. */
module CardNames {
  import opened Bytes
  import Strings
  import Text

  const CAPACITY: nat := 261081
  const MAX_CARD_CHARS: nat := 20

  // ---- The four-character numbers ----

  /** `n` in `width` places: decimal digits, or letters counting in 26. */
  function Digits(n: nat, width: nat): (s: string)
    ensures |s| == width
  {
    if width == 0 then "" else Digits(n / 10, width - 1) + ['0' + (n % 10) as char]
  }

  function Letters(n: nat, width: nat): (s: string)
    ensures |s| == width
  {
    if width == 0 then "" else Letters(n / 26, width - 1) + ['a' + (n % 26) as char]
  }

  predicate AreDigits(s: string) {
    forall i :: 0 <= i < |s| ==> '0' <= s[i] <= '9'
  }

  predicate AreLetters(s: string) {
    forall i :: 0 <= i < |s| ==> 'a' <= s[i] <= 'z'
  }

  function DigitsValue(s: string): nat
    requires AreDigits(s)
  {
    if |s| == 0 then 0 else DigitsValue(s[..|s| - 1]) * 10 + (s[|s| - 1] as int - '0' as int)
  }

  function LettersValue(s: string): nat
    requires AreLetters(s)
  {
    if |s| == 0 then 0 else LettersValue(s[..|s| - 1]) * 26 + (s[|s| - 1] as int - 'a' as int)
  }

  function Pow26(n: nat): (p: nat)
    ensures p >= 1
  {
    if n == 0 then 1 else 26 * Pow26(n - 1)
  }

  lemma {:induction false} DigitsRoundTrip(n: nat, width: nat)
    requires n < Text.Pow10(width)
    ensures AreDigits(Digits(n, width)) && DigitsValue(Digits(n, width)) == n
  {
    if width > 0 {
      DigitsRoundTrip(n / 10, width - 1);
      assert Digits(n, width)[..width - 1] == Digits(n / 10, width - 1);
    }
  }

  lemma {:induction false} DigitsBack(s: string)
    requires AreDigits(s)
    ensures DigitsValue(s) < Text.Pow10(|s|) && Digits(DigitsValue(s), |s|) == s
  {
    if |s| > 0 {
      DigitsBack(s[..|s| - 1]);
      assert s == s[..|s| - 1] + [s[|s| - 1]];
    }
  }

  lemma {:induction false} LettersRoundTrip(n: nat, width: nat)
    requires n < Pow26(width)
    ensures AreLetters(Letters(n, width)) && LettersValue(Letters(n, width)) == n
  {
    if width > 0 {
      LettersRoundTrip(n / 26, width - 1);
      assert Letters(n, width)[..width - 1] == Letters(n / 26, width - 1);
    }
  }

  lemma {:induction false} LettersBack(s: string)
    requires AreLetters(s)
    ensures LettersValue(s) < Pow26(|s|) && Letters(LettersValue(s), |s|) == s
  {
    if |s| > 0 {
      LettersBack(s[..|s| - 1]);
      assert s == s[..|s| - 1] + [s[|s| - 1]];
    }
  }

  lemma Powers()
    ensures Text.Pow10(1) == 10 && Text.Pow10(2) == 100 && Text.Pow10(3) == 1000 && Text.Pow10(4) == 10000
    ensures Pow26(0) == 1 && Pow26(1) == 26 && Pow26(2) == 676 && Pow26(3) == 17576
  {
    assert Text.Pow10(0) == 1;
  }

  function Suffix(index: nat): Option<string> {
    if !(1 <= index <= CAPACITY) then None
    else if index <= 9999 then Some(Digits(index, 4))
    else if index <= 35973 then
      var offset := index - 10000;
      Some(Letters(offset / 999, 1) + Digits(offset % 999 + 1, 3))
    else if index <= 102897 then
      var offset := index - 35974;
      Some(Letters(offset / 99, 2) + Digits(offset % 99 + 1, 2))
    else
      var offset := index - 102898;
      Some(Letters(offset / 9, 3) + Digits(offset % 9 + 1, 1))
  }

  /** `k` letters, then digits that are not all zero. */
  predicate Shaped(s: string, k: nat) {
    k <= 3 && |s| == 4 && AreLetters(s[..k]) && AreDigits(s[k..]) && DigitsValue(s[k..]) > 0
  }

  function First(k: nat): nat
    requires k <= 3
  {
    if k == 0 then 1 else if k == 1 then 10000 else if k == 2 then 35974 else 102898
  }

  function IndexOf(s: string, k: nat): nat
    requires Shaped(s, k)
  {
    First(k) + LettersValue(s[..k]) * (Text.Pow10(4 - k) - 1) + (DigitsValue(s[k..]) - 1)
  }

  lemma PartsOfShaped(letters: string, digits: string)
    requires |letters| <= 3 && |letters| + |digits| == 4
    requires AreLetters(letters) && AreDigits(digits) && DigitsValue(digits) > 0
    ensures var s := letters + digits;
      Shaped(s, |letters|) && IndexOf(s, |letters|) ==
        First(|letters|) + LettersValue(letters) * (Text.Pow10(|digits|) - 1) + (DigitsValue(digits) - 1)
  {
    hide DigitsValue, LettersValue, Text.Pow10, First;
    var s := letters + digits;
    assert s[..|letters|] == letters && s[|letters|..] == digits;
    assert 4 - |letters| == |digits|;
  }

  function LettersOf(index: nat): nat {
    if index <= 9999 then 0 else if index <= 35973 then 1 else if index <= 102897 then 2 else 3
  }

  /** Every index in range has a number of one of the four shapes, which leads back to it. */
  lemma SuffixIsShaped(index: nat)
    requires 1 <= index <= CAPACITY
    ensures var s := Suffix(index);
      s.Some? && Shaped(s.value, LettersOf(index)) && IndexOf(s.value, LettersOf(index)) == index
  {
    Powers();
    hide Digits, Letters, DigitsValue, LettersValue, Text.Pow10, Pow26;
    var k := LettersOf(index);
    var per: nat := if k == 0 then 9999 else if k == 1 then 999 else if k == 2 then 99 else 9;
    var offset: nat := index - First(k);
    var letters, digits := offset / per, offset % per + 1;
    LettersRoundTrip(letters, k);
    DigitsRoundTrip(digits, 4 - k);
    PartsOfShaped(Letters(letters, k), Digits(digits, 4 - k));
    if k == 0 {
      assert letters == 0 && digits == index;
      NoLetters(letters, Digits(index, 4));
    }
  }

  lemma NoLetters(n: nat, s: string)
    ensures Letters(n, 0) + s == s
  {
  }

  /** Every four characters of one of those shapes are the number of exactly one index in range. */
  lemma ShapedIsSuffix(s: string, k: nat)
    requires Shaped(s, k)
    ensures 1 <= IndexOf(s, k) <= CAPACITY && LettersOf(IndexOf(s, k)) == k && Suffix(IndexOf(s, k)) == Some(s)
  {
    Powers();
    hide Digits, Letters, DigitsValue, LettersValue, Text.Pow10, Pow26;
    LettersBack(s[..k]);
    DigitsBack(s[k..]);
    assert s == s[..k] + s[k..];
    var l, d := LettersValue(s[..k]), DigitsValue(s[k..]);
    if k == 0 {
      assert s[0..] == s && s[..0] == "";
      EmptyLetters();
    } else if k == 1 {
      DivMod(l, d - 1, 999);
    } else if k == 2 {
      DivMod(l, d - 1, 99);
    } else {
      DivMod(l, d - 1, 9);
    }
  }

  lemma EmptyLetters()
    ensures LettersValue("") == 0
  {
  }

  lemma DivMod(a: nat, b: nat, m: nat)
    requires m in {9, 99, 999} && b < m
    ensures (a * m + b) / m == a && (a * m + b) % m == b
  {
  }

  /** The numbers of different indices differ. */
  lemma SuffixIsInjective(i: nat, j: nat)
    requires 1 <= i <= CAPACITY && 1 <= j <= CAPACITY && Suffix(i) == Suffix(j)
    ensures i == j
  {
    SuffixIsShaped(i);
    SuffixIsShaped(j);
    hide Suffix;
    ShapeIsOne(Suffix(i).value, LettersOf(i), LettersOf(j));
  }

  lemma ShapeAt(s: string, k: nat, i: nat)
    requires Shaped(s, k) && i < 4
    ensures 'a' <= s[i] <= 'z' <==> i < k
  {
    if i < k {
      assert s[..k][i] == s[i];
    } else {
      assert s[k..][i - k] == s[i];
    }
  }

  lemma ShapeIsOne(s: string, k: nat, l: nat)
    requires Shaped(s, k) && Shaped(s, l)
    ensures k == l
  {
    ShapeAt(s, k, 0);
    ShapeAt(s, k, 1);
    ShapeAt(s, k, 2);
    ShapeAt(s, l, 0);
    ShapeAt(s, l, 1);
    ShapeAt(s, l, 2);
  }

  // ---- Two-character names ----

  /** What the plan needs to know of characters, names and accounts. */
  datatype Library = Library(alphanumeric: char -> bool, missing: string -> bool, inactive: Member -> bool)

  function Filtered(lib: Library, s: string): string {
    if |s| == 0 then "" else (if lib.alphanumeric(s[0]) then [s[0]] else "") + Filtered(lib, s[1..])
  }

  function Normalized(lib: Library, value: string): string {
    Filtered(lib, Strings.Trim(value))
  }

  predicate Han(c: char) {
    0x3400 <= c as int <= 0x4dbf || 0x4e00 <= c as int <= 0x9fff || 0xf900 <= c as int <= 0xfaff
  }

  predicate LongHan(s: string) {
    |s| >= 4 && forall i :: 0 <= i < |s| ==> Han(s[i])
  }

  function Primary(s: string): nat
    requires |s| > 2
  {
    if LongHan(s) then |s| / 2 else |s| - 1
  }

  function Pair(s: string, l: nat, r: nat): string
    requires l < |s| && r < |s|
  {
    [s[l], s[r]]
  }

  /** Two characters of `s`, the first before the second. */
  ghost predicate IsPair(s: string, name: string) {
    exists l: nat, r: nat :: l < r < |s| && name == Pair(s, l, r)
  }

  /** `left` with each position from `from` on, up to `to`. */
  function Row(left: nat, from: nat, to: nat): (pairs: seq<(nat, nat)>)
    requires from <= to
  {
    seq(to - from, i requires 0 <= i < to - from => (left, from + i))
  }

  /** The positions before `n` with those from `middle` on. */
  function Grid(n: nat, middle: nat, size: nat): seq<(nat, nat)>
    requires middle <= size
  {
    if n == 0 then [] else Grid(n - 1, middle, size) + Row(n - 1, middle, size)
  }

  /** The positions before `n` with those behind them. */
  function Triangle(n: nat, size: nat): seq<(nat, nat)>
    requires n <= size
  {
    if n == 0 then [] else Triangle(n - 1, size) + Row(n - 1, n, size)
  }

  /** The order in which pairs are tried: the preferred one, for long Chinese names one character of each half,
      then all. */
  function PairsOf(s: string): seq<(nat, nat)>
    requires |s| > 2
  {
    [(0, Primary(s))] + (if LongHan(s) then Grid(|s| / 2, |s| / 2, |s|) else []) + Triangle(|s| - 1, |s|)
  }

  predicate Inside(s: string, pairs: seq<(nat, nat)>) {
    forall p :: p in pairs ==> p.0 < p.1 < |s|
  }

  /** The names the pairs make, each where it first occurs. */
  function Names(s: string, pairs: seq<(nat, nat)>): seq<string>
    requires Inside(s, pairs)
  {
    if |pairs| == 0 then []
    else
      var before, last := Names(s, pairs[..|pairs| - 1]), pairs[|pairs| - 1];
      var name := Pair(s, last.0, last.1);
      if name in before then before else before + [name]
  }

  function CandidateList(lib: Library, value: string): seq<string> {
    var s := Normalized(lib, value);
    if |s| < 2 || lib.missing(value) then []
    else if |s| == 2 then [s]
    else
      PairsAreInside(s);
      Names(s, PairsOf(s))
  }

  lemma {:induction false} GridHas(n: nat, middle: nat, size: nat)
    requires n <= middle <= size
    ensures forall p :: p in Grid(n, middle, size) <==> p.0 < n && middle <= p.1 < size
  {
    if n > 0 {
      GridHas(n - 1, middle, size);
      RowHas(n - 1, middle, size);
      hide Row;
    }
  }

  lemma RowHas(left: nat, from: nat, to: nat)
    requires from <= to
    ensures forall p :: p in Row(left, from, to) <==> p.0 == left && from <= p.1 < to
  {
    forall p: (nat, nat) | p.0 == left && from <= p.1 < to
      ensures p in Row(left, from, to)
    {
      assert Row(left, from, to)[p.1 - from] == p;
    }
  }

  lemma {:induction false} TriangleHas(n: nat, size: nat)
    requires n <= size
    ensures forall p :: p in Triangle(n, size) <==> p.0 < n && p.0 < p.1 < size
  {
    if n > 0 {
      TriangleHas(n - 1, size);
      RowHas(n - 1, n, size);
      hide Row;
    }
  }

  /** The pairs tried are all there are. */
  lemma PairsAreInside(s: string)
    requires |s| > 2
    ensures Inside(s, PairsOf(s)) && PairsOf(s)[0] == (0, Primary(s))
    ensures forall p :: p in PairsOf(s) <==> p.0 < p.1 < |s|
  {
    hide Grid, Triangle;
    GridHas(|s| / 2, |s| / 2, |s|);
    TriangleHas(|s| - 1, |s|);
  }

  lemma {:induction false} NamesExactly(s: string, pairs: seq<(nat, nat)>)
    requires Inside(s, pairs)
    ensures forall i, j :: 0 <= i < j < |Names(s, pairs)| ==> Names(s, pairs)[i] != Names(s, pairs)[j]
    ensures forall p :: p in pairs ==> Pair(s, p.0, p.1) in Names(s, pairs)
    ensures forall name :: name in Names(s, pairs) ==> exists p :: p in pairs && name == Pair(s, p.0, p.1)
    ensures |pairs| > 0 ==> |Names(s, pairs)| > 0 && Names(s, pairs)[0] == Pair(s, pairs[0].0, pairs[0].1)
  {
    if |pairs| > 0 {
      var front, last := pairs[..|pairs| - 1], pairs[|pairs| - 1];
      assert pairs == front + [last];
      NamesExactly(s, front);
      hide Pair;
    }
  }

  /** All characters are CJK ideographs of extension A, the basic block or the compatibility block. */
  predicate AllChinese(s: string) {
    forall c :: c in s ==>
      13312 <= c as int < 19904 || 19968 <= c as int < 40960 || 63744 <= c as int < 64256
  }

  lemma LongHanExactly(s: string)
    ensures LongHan(s) <==> AllChinese(s) && |s| > 3
  {
    assert AllChinese(s) ==> forall i :: 0 <= i < |s| ==> s[i] in s;
  }

  predicate Before(p: (nat, nat), q: (nat, nat)) {
    p.0 < q.0 || (p.0 == q.0 && p.1 < q.1)
  }

  predicate InRows(pairs: seq<(nat, nat)>) {
    forall i, j :: 0 <= i < j < |pairs| ==> Before(pairs[i], pairs[j])
  }

  lemma RowsBehind(a: seq<(nat, nat)>, b: seq<(nat, nat)>)
    requires InRows(a) && InRows(b) && forall p, q :: p in a && q in b ==> Before(p, q)
    ensures InRows(a + b)
  {
    assert forall i :: 0 <= i < |a| ==> a[i] in a;
    assert forall i :: 0 <= i < |b| ==> b[i] in b;
  }

  lemma {:induction false} GridInRows(n: nat, middle: nat, size: nat)
    requires n <= middle <= size
    ensures InRows(Grid(n, middle, size))
  {
    if n > 0 {
      GridInRows(n - 1, middle, size);
      GridHas(n - 1, middle, size);
      RowHas(n - 1, middle, size);
      RowsBehind(Grid(n - 1, middle, size), Row(n - 1, middle, size));
    }
  }

  lemma {:induction false} TriangleInRows(n: nat, size: nat)
    requires n <= size
    ensures InRows(Triangle(n, size))
  {
    if n > 0 {
      TriangleInRows(n - 1, size);
      TriangleHas(n - 1, size);
      RowHas(n - 1, n, size);
      RowsBehind(Triangle(n - 1, size), Row(n - 1, n, size));
    }
  }

  /** The order in which pairs are tried: the preferred one; for a long Chinese name those of one character of each
      half, row by row; then all, row by row. */
  lemma TriedInOrder(s: string) returns (halves: seq<(nat, nat)>, all: seq<(nat, nat)>)
    requires |s| > 2
    ensures PairsOf(s) == [(0, if AllChinese(s) && |s| > 3 then |s| / 2 else |s| - 1)] + halves + all
    ensures InRows(halves) && InRows(all)
    ensures forall p :: p in all <==> p.0 < p.1 < |s|
    ensures forall p :: p in halves <==> AllChinese(s) && |s| > 3 && p.0 < |s| / 2 <= p.1 < |s|
  {
    var half := |s| / 2;
    LongHanExactly(s);
    halves, all := if LongHan(s) then Grid(half, half, |s|) else [], Triangle(|s| - 1, |s|);
    GridHas(half, half, |s|);
    GridInRows(half, half, |s|);
    TriangleHas(|s| - 1, |s|);
    TriangleInRows(|s| - 1, |s|);
    hide Grid, Triangle, AllChinese, LongHan;
  }

  /** What a name is reduced to: the alphanumeric characters of the trimmed name, in order. */
  lemma NormalizedExactly(lib: Library, value: string) returns (places: seq<nat>)
    ensures var s, kept := Strings.Trim(value), Normalized(lib, value);
      && |places| == |kept| && (forall k :: 0 <= k < |places| ==> places[k] < |s| && kept[k] == s[places[k]])
      && (forall k, l :: 0 <= k < l < |places| ==> places[k] < places[l])
      && (forall i: nat :: i < |s| ==> (lib.alphanumeric(s[i]) <==> i in places))
  {
    places := FilteredExactly(lib, Strings.Trim(value));
  }

  /** The places in a string, of those in its tail, with the first one or without. */
  lemma PlacesMoved(first: bool, rest: seq<nat>) returns (places: seq<nat>)
    requires forall k, l :: 0 <= k < l < |rest| ==> rest[k] < rest[l]
    ensures places == (if first then [0] else []) + seq(|rest|, k requires 0 <= k < |rest| => rest[k] + 1)
    ensures forall k, l :: 0 <= k < l < |places| ==> places[k] < places[l]
    ensures 0 in places <==> first
    ensures forall i: nat :: i in rest <==> i + 1 in places
  {
    var moved := seq(|rest|, k requires 0 <= k < |rest| => rest[k] + 1);
    places := (if first then [0] else []) + moved;
    forall i: nat
      ensures i in rest <==> i + 1 in moved
    {
      if i in rest {
        var k :| 0 <= k < |rest| && rest[k] == i;
        assert moved[k] == i + 1;
      }
    }
  }

  /** At these places of a string stand these characters. */
  predicate StandAt(s: string, kept: string, places: seq<nat>) {
    |places| == |kept| && forall k :: 0 <= k < |places| ==> places[k] < |s| && kept[k] == s[places[k]]
  }

  lemma StandMoved(c: char, tail: string, kept: string, rest: seq<nat>)
    requires StandAt(tail, kept, rest)
    ensures StandAt([c] + tail, kept, seq(|rest|, k requires 0 <= k < |rest| => rest[k] + 1))
    ensures StandAt([c] + tail, [c] + kept, [0] + seq(|rest|, k requires 0 <= k < |rest| => rest[k] + 1))
  {
  }

  lemma {:induction false} FilteredExactly(lib: Library, s: string) returns (places: seq<nat>)
    ensures StandAt(s, Filtered(lib, s), places)
    ensures forall k, l :: 0 <= k < l < |places| ==> places[k] < places[l]
    ensures forall i: nat :: i < |s| ==> (lib.alphanumeric(s[i]) <==> i in places)
  {
    if |s| == 0 {
      places := [];
    } else {
      var first, tail := lib.alphanumeric(s[0]), s[1..];
      var rest := FilteredExactly(lib, tail);
      places := PlacesMoved(first, rest);
      StandMoved(s[0], tail, Filtered(lib, tail), rest);
      assert s == [s[0]] + tail;
      assert StandAt(s, Filtered(lib, s), places);
      hide Filtered, StandAt;
      forall i: nat | i < |s|
        ensures lib.alphanumeric(s[i]) <==> i in places
      {
        if i > 0 {
          assert s[i] == tail[i - 1];
          assert i - 1 in rest <==> (i - 1) + 1 in places;
        }
      }
    }
  }

  /** The candidates are all two-character abbreviations of a name, the preferred one first, none twice. */
  lemma CandidatesExactly(lib: Library, value: string)
    ensures var s, names := Normalized(lib, value), CandidateList(lib, value);
      && (|s| < 2 || lib.missing(value) ==> names == [])
      && (|s| >= 2 && !lib.missing(value) ==>
            && |names| > 0
            && names[0] == [s[0], if AllChinese(s) && |s| > 3 then s[|s| / 2] else s[|s| - 1]]
            && (forall i, j :: 0 <= i < j < |names| ==> names[i] != names[j])
            && forall name :: name in names <==> IsPair(s, name))
  {
    hide Normalized;
    var s := Normalized(lib, value);
    LongHanExactly(s);
    hide AllChinese, LongHan;
    if |s| == 2 {
      assert s == Pair(s, 0, 1) && [s][0] == s;
    } else if |s| > 2 && !lib.missing(value) {
      PairsAreInside(s);
      hide PairsOf;
      NamesExactly(s, PairsOf(s));
      NamesArePairs(s, PairsOf(s));
      hide Names;
    }
  }

  lemma NamesArePairs(s: string, pairs: seq<(nat, nat)>)
    requires Inside(s, pairs) && forall p: (nat, nat) :: p in pairs <==> p.0 < p.1 < |s|
    ensures forall name :: name in Names(s, pairs) <==> IsPair(s, name)
  {
    NamesExactly(s, pairs);
    hide Names;
    forall name
      ensures name in Names(s, pairs) <==> IsPair(s, name)
    {
      if IsPair(s, name) {
        var l: nat, r: nat :| l < r < |s| && name == Pair(s, l, r);
        assert (l, r) in pairs;
      }
      if name in Names(s, pairs) {
        var p :| p in pairs && name == Pair(s, p.0, p.1);
      }
    }
  }

  method Candidates(lib: Library, value: string) returns (names: seq<string>)
    ensures names == CandidateList(lib, value)
  {
    hide Normalized, PairsOf, Inside, Names;
    var s := Normalized(lib, value);
    if |s| < 2 || lib.missing(value) {
      return [];
    }
    if |s| == 2 {
      return [s];
    }
    PairsAreInside(s);
    var pairs := ListPairs(s);
    names := FirstOccurrences(s, pairs);
  }

  method FirstOccurrences(s: string, pairs: seq<(nat, nat)>) returns (names: seq<string>)
    requires Inside(s, pairs)
    ensures names == Names(s, pairs)
  {
    hide Pair;
    names := [];
    for i := 0 to |pairs|
      invariant names == Names(s, pairs[..i])
    {
      ghost var front := pairs[..i + 1];
      assert front[..i] == pairs[..i] && front[i] == pairs[i];
      var name := Pair(s, pairs[i].0, pairs[i].1);
      if name !in names {
        names := names + [name];
      }
    }
    assert pairs[..|pairs|] == pairs;
  }

  method ListPairs(s: string) returns (pairs: seq<(nat, nat)>)
    requires |s| > 2
    ensures pairs == PairsOf(s)
  {
    hide Grid, Triangle, Row;
    var size := |s|;
    pairs := [(0, Primary(s))];
    if LongHan(s) {
      var middle := size / 2;
      NoRows(middle, size);
      assert pairs + Grid(0, middle, size) == pairs;
      ghost var before := pairs;
      for left := 0 to middle
        invariant pairs == before + Grid(left, middle, size)
      {
        var row := ListRow(left, middle, size);
        NextRow(left, middle, size);
        Associate(before, Grid(left, middle, size), row);
        pairs := pairs + row;
      }
    } else {
      assert pairs + [] == pairs;
    }
    NoRows(0, size);
    ghost var head := pairs;
    assert pairs + Triangle(0, size) == pairs;
    for left := 0 to size - 1
      invariant pairs == head + Triangle(left, size)
    {
      var row := ListRow(left, left + 1, size);
      NextRow(left, 0, size);
      Associate(head, Triangle(left, size), row);
      pairs := pairs + row;
    }
  }

  lemma NoRows(middle: nat, size: nat)
    requires middle <= size
    ensures Grid(0, middle, size) == [] && Triangle(0, size) == []
  {
  }

  lemma NextRow(left: nat, middle: nat, size: nat)
    requires middle <= size && left < size
    ensures Grid(left + 1, middle, size) == Grid(left, middle, size) + Row(left, middle, size)
    ensures Triangle(left + 1, size) == Triangle(left, size) + Row(left, left + 1, size)
  {
  }

  method ListRow(left: nat, from: nat, to: nat) returns (pairs: seq<(nat, nat)>)
    requires from <= to
    ensures pairs == Row(left, from, to)
  {
    pairs := [];
    for right := from to to
      invariant pairs == Row(left, from, right)
    {
      RowMore(left, from, right);
      pairs := pairs + [(left, right)];
    }
  }

  lemma RowMore(left: nat, from: nat, to: nat)
    requires from <= to
    ensures Row(left, from, to + 1) == Row(left, from, to) + [(left, to)]
  {
  }

  // ---- The rename plan ----

  datatype Member = Member(
    userId: int, nimId: string, nickname: string, cardName: string, originalCardName: string, managedCardName: string,
    cardSuffix: string, role: string)

  /** What becomes of a member, each with the counter it falls under. */
  datatype Reason = Role | Inactive | NoIdentity | Drift | Managed | New | Exhausted

  datatype Counter = Excluded | MissingIdentity | WillRename | AlreadyManaged | Conflict

  datatype Plan = Plan(member: Member, original: string, suggested: string, suffix: string, reason: Reason)

  datatype Preview = Preview(
    prefix: string, items: seq<Plan>, willRename: nat, alreadyManaged: nat, excluded: nat, conflicts: nat,
    missingIdentity: nat)

  datatype Error = InvalidCardName

  function CounterOf(r: Reason): Counter {
    match r
    case Role => Excluded
    case Inactive => Excluded
    case NoIdentity => MissingIdentity
    case Drift => WillRename
    case New => WillRename
    case Managed => AlreadyManaged
    case Exhausted => Conflict
  }

  predicate IsExcluded(m: Member, selfId: int) {
    m.userId == selfId || m.role in ["owner", "admin", "bot"]
  }

  function ResolvedName(lib: Library, m: Member): string {
    Strings.Trim(
      if !lib.missing(m.originalCardName) then m.originalCardName
      else if !lib.missing(m.cardName) then m.cardName
      else if !lib.missing(m.nickname) then m.nickname
      else if Strings.Trim(m.originalCardName) != "" then m.originalCardName
      else if Strings.Trim(m.cardName) != "" then m.cardName
      else if Strings.Trim(m.nickname) != "" then m.nickname
      else "")
  }

  function UsedPrefix(prefix: string): string {
    if Strings.Trim(prefix) == "" then "DH" else Strings.Trim(prefix)
  }

  function NumberedName(prefix: string, suffix: string): string {
    prefix + "群员" + suffix
  }

  /** The members in order of user id, equal ids as they came. */
  function Inserted(m: Member, sorted: seq<Member>): seq<Member> {
    if |sorted| > 0 && sorted[|sorted| - 1].userId > m.userId then
      Inserted(m, sorted[..|sorted| - 1]) + [sorted[|sorted| - 1]]
    else sorted + [m]
  }

  function ByUserId(members: seq<Member>): seq<Member> {
    if |members| == 0 then [] else Inserted(members[|members| - 1], ByUserId(members[..|members| - 1]))
  }

  function Count(items: seq<Plan>, c: Counter): nat {
    if |items| == 0 then 0
    else Count(items[..|items| - 1], c) + if CounterOf(items[|items| - 1].reason) == c then 1 else 0
  }

  /** Which branch a member takes, before names are looked for. */
  predicate Fits(lib: Library, selfId: int, p: Plan) {
    var m := p.member;
    && p.original == ResolvedName(lib, m)
    && (p.reason.Role? <==> IsExcluded(m, selfId))
    && (p.reason.Inactive? <==> !IsExcluded(m, selfId) && lib.inactive(m))
    && (p.reason.NoIdentity? <==> !IsExcluded(m, selfId) && !lib.inactive(m) && m.userId == 0 && m.nimId == "")
    && (p.reason.Drift? || p.reason.Managed? <==>
          !IsExcluded(m, selfId) && !lib.inactive(m) && !(m.userId == 0 && m.nimId == "") && m.managedCardName != "")
    && (p.reason.Drift? ==> m.cardName != m.managedCardName)
    && (p.reason.Managed? ==> m.cardName == m.managedCardName)
    && (p.reason.Drift? || p.reason.Managed? ==> p.suggested == m.managedCardName && p.suffix == m.cardSuffix)
    && (p.reason.New? <==> p.suggested != "" && !p.reason.Drift? && !p.reason.Managed?)
    && (!p.reason.Drift? && !p.reason.Managed? && !p.reason.New? ==> p.suggested == "" && p.suffix == "")
  }

  function Counted(p: Preview, c: Counter): nat {
    match c
    case Excluded => p.excluded
    case MissingIdentity => p.missingIdentity
    case WillRename => p.willRename
    case AlreadyManaged => p.alreadyManaged
    case Conflict => p.conflicts
  }

  ghost predicate CountsRight(p: Preview) {
    forall c: Counter :: Counted(p, c) == Count(p.items, c)
  }

  /** New names are abbreviations of the old or numbered; none is taken twice or from a member left alone by role. */
  ghost predicate NamesFresh(lib: Library, prefix: string, items: seq<Plan>, taken: set<string>) {
    && (forall i :: 0 <= i < |items| && items[i].reason.New? ==>
          && items[i].suggested !in taken
          && (if items[i].suffix == "" then IsPair(Normalized(lib, items[i].original), items[i].suggested)
              else items[i].suggested == NumberedName(prefix, items[i].suffix)))
    && (forall i, j :: 0 <= i < j < |items| && items[i].reason.New? && items[j].reason.New? ==>
          items[i].suggested != items[j].suggested)
  }

  /** New numbers are real numbers, differ from each other and from all that members already have. */
  ghost predicate NumbersFresh(items: seq<Plan>, taken: set<string>) {
    && (forall i :: 0 <= i < |items| && items[i].reason.New? && items[i].suffix != "" ==>
          items[i].suffix !in taken && exists k :: 1 <= k <= CAPACITY && Suffix(k) == Some(items[i].suffix))
    && (forall i, j :: 0 <= i < j < |items| && items[i].reason.New? && items[j].reason.New? && items[i].suffix != "" ==>
          items[i].suffix != items[j].suffix)
  }

  function RoleNames(lib: Library, members: seq<Member>, selfId: int): set<string> {
    set m | m in members && IsExcluded(m, selfId) :: ResolvedName(lib, m)
  }

  function Suffixes(members: seq<Member>): set<string> {
    set m | m in members && m.cardSuffix != "" :: m.cardSuffix
  }

  lemma NumberedNameIsTrimmed(prefix: string, k: nat)
    requires prefix != "" && !Strings.White(prefix[0]) && 1 <= k <= CAPACITY
    ensures var s := Suffix(k);
      && s.Some? && |s.value| == 4 && |NumberedName(prefix, s.value)| == |prefix| + 6
      && Strings.Trim(NumberedName(prefix, s.value)) == NumberedName(prefix, s.value)
  {
    SuffixIsShaped(k);
    var s := Suffix(k).value;
    var l := LettersOf(k);
    hide Suffix, DigitsValue, IndexOf;
    assert s[3] == s[l..][3 - l];
    Strings.TrimmedIsTrim(NumberedName(prefix, s));
  }

  lemma {:induction false} EachInOneCounter(items: seq<Plan>)
    ensures Count(items, Excluded) + Count(items, MissingIdentity) + Count(items, WillRename)
            + Count(items, AlreadyManaged) + Count(items, Conflict) == |items|
  {
    if |items| > 0 {
      EachInOneCounter(items[..|items| - 1]);
    }
  }

  /** The places of the members with one of these outcomes. */
  ghost function Of(items: seq<Plan>, reasons: set<Reason>): set<int> {
    set i | 0 <= i < |items| && items[i].reason in reasons
  }

  /** What falls under each counter, and that each counts all there is of it. */
  lemma CountersExactly(items: seq<Plan>)
    ensures Count(items, WillRename) == |Of(items, {New, Drift})|
    ensures Count(items, AlreadyManaged) == |Of(items, {Managed})|
    ensures Count(items, Excluded) == |Of(items, {Role, Inactive})|
    ensures Count(items, MissingIdentity) == |Of(items, {NoIdentity})|
    ensures Count(items, Conflict) == |Of(items, {Exhausted})|
  {
    CountIsOf(items, WillRename, {New, Drift});
    CountIsOf(items, AlreadyManaged, {Managed});
    CountIsOf(items, Excluded, {Role, Inactive});
    CountIsOf(items, MissingIdentity, {NoIdentity});
    CountIsOf(items, Conflict, {Exhausted});
  }

  lemma {:induction false} CountIsOf(items: seq<Plan>, c: Counter, reasons: set<Reason>)
    requires forall r :: CounterOf(r) == c <==> r in reasons
    ensures Count(items, c) == |Of(items, reasons)|
  {
    if |items| > 0 {
      var front, last := items[..|items| - 1], items[|items| - 1];
      CountIsOf(front, c, reasons);
      assert Of(items, reasons) == Of(front, reasons) + if last.reason in reasons then {|front|} else {};
      assert |front| !in Of(front, reasons);
      hide Of;
    } else {
      assert Of(items, reasons) == {};
    }
  }

  lemma CountMore(items: seq<Plan>, p: Plan)
    ensures forall c :: Count(items + [p], c) == Count(items, c) + if CounterOf(p.reason) == c then 1 else 0
  {
    assert (items + [p])[..|items|] == items;
  }

  // ---- What the plan of a group is ----

  function NamesAfter(used: set<string>, p: Plan): set<string> {
    if p.reason.New? || p.reason.Drift? then used + {p.suggested} else used
  }

  function SuffixesAfter(used: set<string>, p: Plan): set<string> {
    if p.reason.New? && p.suffix != "" then used + {p.suffix} else used
  }

  /** What is taken once these members are planned, of names and numbers taken before. */
  function NamesUsed(names: set<string>, items: seq<Plan>): set<string> {
    if |items| == 0 then names else NamesAfter(NamesUsed(names, items[..|items| - 1]), items[|items| - 1])
  }

  function SuffixesUsed(suffixes: set<string>, items: seq<Plan>): set<string> {
    if |items| == 0 then suffixes else SuffixesAfter(SuffixesUsed(suffixes, items[..|items| - 1]), items[|items| - 1])
  }

  /** Taken are the names and numbers taken before, the names given or put back, and the numbers given. */
  lemma {:induction false} UsedExactly(names: set<string>, suffixes: set<string>, items: seq<Plan>)
    ensures NamesUsed(names, items) ==
      names + set i | 0 <= i < |items| && items[i].reason in {New, Drift} :: items[i].suggested
    ensures SuffixesUsed(suffixes, items) ==
      suffixes + set i | 0 <= i < |items| && items[i].reason == New && items[i].suffix != "" :: items[i].suffix
  {
    if |items| > 0 {
      var front, last := items[..|items| - 1], items[|items| - 1];
      assert items == front + [last];
      UsedExactly(names, suffixes, front);
      hide NamesUsed, SuffixesUsed;
    }
  }

  /** Neither the k-th number nor the name it makes is taken. */
  predicate Free(prefix: string, names: set<string>, suffixes: set<string>, k: nat) {
    var s := Suffix(k);
    1 <= k <= CAPACITY && s.Some? && s.value !in suffixes && NumberedName(prefix, s.value) !in names
  }

  ghost predicate FreeFrom(prefix: string, names: set<string>, suffixes: set<string>, k: nat) {
    forall j: nat :: Free(prefix, names, suffixes, j) ==> k <= j
  }

  /** The least free number, if any is free. */
  ghost function LeastFree(prefix: string, names: set<string>, suffixes: set<string>): (r: Option<nat>)
    ensures r.Some? ==> Free(prefix, names, suffixes, r.value) && FreeFrom(prefix, names, suffixes, r.value)
    ensures r.None? ==> forall k: nat :: !Free(prefix, names, suffixes, k)
  {
    if k: nat :| Free(prefix, names, suffixes, k) then
      LeastExists(prefix, names, suffixes, k);
      var k: nat :| Free(prefix, names, suffixes, k) && FreeFrom(prefix, names, suffixes, k);
      Some(k)
    else None
  }

  lemma {:induction false} LeastExists(prefix: string, names: set<string>, suffixes: set<string>, k: nat)
    requires Free(prefix, names, suffixes, k)
    ensures exists j: nat :: Free(prefix, names, suffixes, j) && FreeFrom(prefix, names, suffixes, j)
  {
    hide Free;
    if !FreeFrom(prefix, names, suffixes, k) {
      var j: nat :| Free(prefix, names, suffixes, j) && j < k;
      LeastExists(prefix, names, suffixes, j);
    }
  }

  /** The first of `names` that is not taken, or nothing. */
  function FirstFree(names: seq<string>, used: set<string>): (r: string)
    ensures r != "" ==> r in names && r !in used
  {
    if |names| == 0 then "" else if names[0] !in used then names[0] else FirstFree(names[1..], used)
  }

  /** An abbreviation if one is free, else the least free number if the prefix has room for one; nothing when
      the numbers have run out. */
  ghost function Naming(lib: Library, prefix: string, original: string, names: set<string>, suffixes: set<string>):
    Result<(string, string), Error>
  {
    var short := FirstFree(CandidateList(lib, original), names);
    if short != "" then Ok((short, ""))
    else if |prefix| > 14 then Err(InvalidCardName)
    else
      match LeastFree(prefix, names, suffixes)
      case None => Ok(("", ""))
      case Some(k) => Ok((NumberedName(prefix, Suffix(k).value), Suffix(k).value))
  }

  /** Whether a name is looked for. */
  predicate NeedsName(lib: Library, m: Member, selfId: int) {
    !IsExcluded(m, selfId) && !lib.inactive(m) && !(m.userId == 0 && m.nimId == "") && m.managedCardName == ""
  }

  ghost function Planning(lib: Library, prefix: string, m: Member, selfId: int, names: set<string>,
                          suffixes: set<string>): Result<Plan, Error>
  {
    var original := ResolvedName(lib, m);
    if IsExcluded(m, selfId) then Ok(Plan(m, original, "", "", Role))
    else if lib.inactive(m) then Ok(Plan(m, original, "", "", Inactive))
    else if m.userId == 0 && m.nimId == "" then Ok(Plan(m, original, "", "", NoIdentity))
    else if m.managedCardName != "" then
      Ok(Plan(m, original, m.managedCardName, m.cardSuffix, if m.cardName != m.managedCardName then Drift else Managed))
    else
      match Naming(lib, prefix, original, names, suffixes)
      case Err(e) => Err(e)
      case Ok((name, suffix)) => Ok(Plan(m, original, name, suffix, if name == "" then Exhausted else New))
  }

  ghost function Plans(lib: Library, prefix: string, members: seq<Member>, selfId: int, names: set<string>,
                       suffixes: set<string>): Result<seq<Plan>, Error>
  {
    if |members| == 0 then Ok([])
    else
      match Plans(lib, prefix, members[..|members| - 1], selfId, names, suffixes)
      case Err(e) => Err(e)
      case Ok(done) =>
        var last := members[|members| - 1];
        match Planning(lib, prefix, last, selfId, NamesUsed(names, done), SuffixesUsed(suffixes, done))
        case Err(e) => Err(e)
        case Ok(plan) => Ok(done + [plan])
  }

  ghost function GroupPlans(lib: Library, prefix: string, given: seq<Member>, selfId: int): Result<seq<Plan>, Error> {
    var members := ByUserId(given);
    Plans(lib, UsedPrefix(prefix), members, selfId, RoleNames(lib, members, selfId), Suffixes(members))
  }

  // ---- What it means ----

  lemma {:induction false} FirstFreeExactly(names: seq<string>, used: set<string>)
    requires forall name :: name in names ==> name != ""
    ensures FirstFree(names, used) == "" <==> forall name :: name in names ==> name in used
  {
    if |names| > 0 {
      var first, rest := names[0], names[1..];
      assert names == [first] + rest && first in names;
      assert forall name :: name in rest ==> name in names;
      FirstFreeExactly(rest, used);
    }
  }

  lemma CandidatesNotEmpty(lib: Library, value: string)
    ensures forall name :: name in CandidateList(lib, value) ==>
      name != "" && IsPair(Normalized(lib, value), name)
  {
    CandidatesExactly(lib, value);
    hide CandidateList;
  }

  /** The name a member goes by: the first that says something of the original card, the card and the nickname, else
      the first of them that is not blank. */
  lemma ResolvedExactly(lib: Library, m: Member)
    ensures var names, r := [m.originalCardName, m.cardName, m.nickname], ResolvedName(lib, m);
      || (exists k :: 0 <= k < 3 && !lib.missing(names[k]) && r == Strings.Trim(names[k])
            && forall j :: 0 <= j < k ==> lib.missing(names[j]))
      || ((forall j :: 0 <= j < 3 ==> lib.missing(names[j]))
          && exists k :: 0 <= k < 3 && r == Strings.Trim(names[k]) && (Strings.Trim(names[k]) != "" || k == 2)
               && forall j :: 0 <= j < k ==> Strings.Trim(names[j]) == "")
  {
    hide Strings.Trim;
    var names := [m.originalCardName, m.cardName, m.nickname];
    assert Strings.Trim("") == "" by { Strings.TrimmedIsTrim(""); }
    if !lib.missing(names[0]) {
    } else if !lib.missing(names[1]) {
    } else if !lib.missing(names[2]) {
    } else if Strings.Trim(names[0]) != "" {
    } else if Strings.Trim(names[1]) != "" {
      assert names[1] == m.cardName;
    } else {
      assert ResolvedName(lib, m) == Strings.Trim(names[2]);
    }
  }

  /** Members of rank, the account itself and accounts out of use are left alone, members nobody can tell apart are a
      case of their own, and a managed name is put back where it drifted; only the others get a new name. */
  lemma PlannedByKind(lib: Library, prefix: string, m: Member, selfId: int, names: set<string>, suffixes: set<string>)
    requires Planning(lib, prefix, m, selfId, names, suffixes).Ok?
    ensures var p := Planning(lib, prefix, m, selfId, names, suffixes).value;
      var excluded := m.userId == selfId || m.role == "owner" || m.role == "admin" || m.role == "bot";
      var unknown := m.userId == 0 && |m.nimId| == 0;
      && p.member == m && p.original == ResolvedName(lib, m)
      && (p.reason == Role <==> excluded)
      && (p.reason == Inactive <==> !excluded && lib.inactive(m))
      && (p.reason == NoIdentity <==> !excluded && !lib.inactive(m) && unknown)
      && (p.reason == Drift <==>
            !excluded && !lib.inactive(m) && !unknown && |m.managedCardName| > 0 && m.cardName != m.managedCardName)
      && (p.reason == Managed <==>
            !excluded && !lib.inactive(m) && !unknown && |m.managedCardName| > 0 && m.cardName == m.managedCardName)
      && (p.reason in {Role, Inactive, NoIdentity, Exhausted} ==> p.suggested == "" && p.suffix == "")
      && (p.reason in {Drift, Managed} ==> p.suggested == m.managedCardName && p.suffix == m.cardSuffix)
      && (p.reason == New ==> p.suggested != "")
  {
    hide ResolvedName, CandidateList, Suffix, Free;
    NumberedNotEmpty(prefix);
  }

  /** No abbreviation of the name is free. */
  predicate NoneShort(lib: Library, m: Member, names: set<string>) {
    forall name :: name in CandidateList(lib, ResolvedName(lib, m)) ==> name in names
  }

  /** Planning a member fails exactly if it needs a name, no abbreviation is free and the prefix leaves no room
      for a number; the numbers are exhausted exactly if it needs a name and neither an abbreviation nor a number
      is free. */
  lemma PlanningExactly(lib: Library, prefix: string, m: Member, selfId: int, names: set<string>, suffixes: set<string>)
    ensures var r := Planning(lib, prefix, m, selfId, names, suffixes);
      var none := NeedsName(lib, m, selfId) && NoneShort(lib, m, names);
      && (r.Err? <==> none && |prefix| > 14)
      && (r.Ok? && r.value.reason.Exhausted? <==>
            none && |prefix| <= 14 && forall k: nat :: !Free(prefix, names, suffixes, k))
  {
    hide CandidateList, ResolvedName, IsPair, Normalized, Free, Suffix;
    var original := ResolvedName(lib, m);
    CandidatesNotEmpty(lib, original);
    FirstFreeExactly(CandidateList(lib, original), names);
    hide NumberedName;
    assert forall k :: NumberedName(prefix, k) != "" by { NumberedNotEmpty(prefix); }
  }

  lemma NumberedNotEmpty(prefix: string)
    ensures forall s :: NumberedName(prefix, s) != ""
  {
    forall s
      ensures NumberedName(prefix, s) != ""
    {
      assert |NumberedName(prefix, s)| >= 2;
    }
  }

  /** Every member is planned with what was taken before its turn. */
  lemma {:induction false} PlannedInTurn(lib: Library, prefix: string, members: seq<Member>, selfId: int,
                                         names: set<string>, suffixes: set<string>, i: nat)
    requires i < |members| && Plans(lib, prefix, members, selfId, names, suffixes).Ok?
    ensures var items := Plans(lib, prefix, members, selfId, names, suffixes).value;
      && |items| == |members| && Plans(lib, prefix, members[..i], selfId, names, suffixes) == Ok(items[..i])
      && Planning(lib, prefix, members[i], selfId, NamesUsed(names, items[..i]), SuffixesUsed(suffixes, items[..i])) ==
         Ok(items[i])
  {
    hide Planning, NamesUsed, SuffixesUsed;
    var n := |members| - 1;
    var items := Plans(lib, prefix, members, selfId, names, suffixes).value;
    PlansLength(lib, prefix, members[..n], selfId, names, suffixes);
    assert items[..n] == Plans(lib, prefix, members[..n], selfId, names, suffixes).value;
    if i < n {
      PlannedInTurn(lib, prefix, members[..n], selfId, names, suffixes, i);
      assert members[..n][..i] == members[..i] && items[..n][..i] == items[..i];
    }
  }

  lemma {:induction false} PlansLength(lib: Library, prefix: string, members: seq<Member>, selfId: int,
                                       names: set<string>, suffixes: set<string>)
    ensures var r := Plans(lib, prefix, members, selfId, names, suffixes); r.Ok? ==> |r.value| == |members|
  {
    hide Planning;
    if |members| > 0 {
      PlansLength(lib, prefix, members[..|members| - 1], selfId, names, suffixes);
    }
  }

  /** At the turn of member `n` there is no name for it but a number. */
  ghost predicate Stuck(lib: Library, prefix: string, members: seq<Member>, selfId: int, names: set<string>,
                        suffixes: set<string>, n: nat)
  {
    && n < |members| && NeedsName(lib, members[n], selfId)
    && var before := Plans(lib, prefix, members[..n], selfId, names, suffixes);
       before.Ok? && NoneShort(lib, members[n], NamesUsed(names, before.value))
  }

  /** A plan fails exactly if the prefix leaves no room for a number and some member, at its turn, has no free
      abbreviation. */
  lemma {:induction false} FailsExactly(lib: Library, prefix: string, members: seq<Member>, selfId: int,
                                        names: set<string>, suffixes: set<string>)
    ensures Plans(lib, prefix, members, selfId, names, suffixes).Err? <==>
      |prefix| > 14 && exists n: nat :: Stuck(lib, prefix, members, selfId, names, suffixes, n)
  {
    hide Planning, NeedsName, NoneShort, NamesUsed, SuffixesUsed;
    if |members| > 0 {
      var last := |members| - 1;
      var front := members[..last];
      FailsExactly(lib, prefix, front, selfId, names, suffixes);
      forall n: nat | n < last
        ensures Stuck(lib, prefix, members, selfId, names, suffixes, n) <==>
          Stuck(lib, prefix, front, selfId, names, suffixes, n)
      {
        assert front[..n] == members[..n];
      }
      var done := Plans(lib, prefix, front, selfId, names, suffixes);
      if done.Ok? {
        PlanningExactly(lib, prefix, members[last], selfId, NamesUsed(names, done.value),
                        SuffixesUsed(suffixes, done.value));
        assert Stuck(lib, prefix, members, selfId, names, suffixes, last) <==>
          NeedsName(lib, members[last], selfId) && NoneShort(lib, members[last], NamesUsed(names, done.value));
      } else {
        var n: nat :| Stuck(lib, prefix, front, selfId, names, suffixes, n);
        assert Stuck(lib, prefix, members, selfId, names, suffixes, n);
      }
    }
  }

  /** A name nobody has, as an abbreviation or with the least free number the prefix has room for. */
  ghost predicate FreshName(lib: Library, prefix: string, original: string, usedNames: set<string>,
                            usedSuffixes: set<string>, name: string, suffix: string) {
    && name != "" && name !in usedNames
    && (suffix == "" ==> IsPair(Normalized(lib, original), name))
    && (suffix != "" ==> FreshNumber(prefix, usedSuffixes, name, suffix))
  }

  ghost predicate FreshNumber(prefix: string, usedSuffixes: set<string>, name: string, suffix: string) {
    && name == NumberedName(prefix, suffix) && suffix !in usedSuffixes && |prefix| <= 14
    && exists k :: 1 <= k <= CAPACITY && Suffix(k) == Some(suffix)
  }

  lemma PlanningFits(lib: Library, prefix: string, m: Member, selfId: int, names: set<string>, suffixes: set<string>)
    requires Planning(lib, prefix, m, selfId, names, suffixes).Ok?
    ensures var p := Planning(lib, prefix, m, selfId, names, suffixes).value;
      && p.member == m && Fits(lib, selfId, p)
      && (p.reason.New? ==> FreshName(lib, prefix, p.original, names, suffixes, p.suggested, p.suffix))
  {
    hide CandidateList, IsPair, Normalized, ResolvedName;
    var original := ResolvedName(lib, m);
    CandidatesNotEmpty(lib, original);
    if NeedsName(lib, m, selfId) && FirstFree(CandidateList(lib, original), names) == "" {
      var least := LeastFree(prefix, names, suffixes);
      if least.Some? {
        SuffixIsShaped(least.value);
      }
      hide Suffix;
    }
  }

  /** Every member is planned as its kind demands, and the new names and numbers are fresh. */
  ghost predicate Settled(lib: Library, prefix: string, selfId: int, members: seq<Member>, names: set<string>,
                          suffixes: set<string>, items: seq<Plan>) {
    && |items| == |members|
    && (forall i :: 0 <= i < |items| ==> items[i].member == members[i] && Fits(lib, selfId, items[i]))
    && NamesFresh(lib, prefix, items, names) && NumbersFresh(items, suffixes)
    && (|prefix| > 14 ==> forall i :: 0 <= i < |items| && items[i].reason.New? ==> items[i].suffix == "")
  }

  /** What is taken includes what was taken before and what the plans took. */
  lemma {:induction false} UsedHas(names: set<string>, suffixes: set<string>, items: seq<Plan>)
    ensures names <= NamesUsed(names, items) && suffixes <= SuffixesUsed(suffixes, items)
    ensures forall i :: 0 <= i < |items| && items[i].reason.New? ==>
      items[i].suggested in NamesUsed(names, items)
      && (items[i].suffix != "" ==> items[i].suffix in SuffixesUsed(suffixes, items))
  {
    if |items| > 0 {
      UsedHas(names, suffixes, items[..|items| - 1]);
    }
  }

  lemma SettledMore(lib: Library, prefix: string, selfId: int, members: seq<Member>, names: set<string>,
                    suffixes: set<string>, items: seq<Plan>, p: Plan)
    requires |members| > 0 && p.member == members[|members| - 1] && Fits(lib, selfId, p)
    requires Settled(lib, prefix, selfId, members[..|members| - 1], names, suffixes, items)
    requires p.reason.New? ==>
      FreshName(lib, prefix, p.original, NamesUsed(names, items), SuffixesUsed(suffixes, items), p.suggested, p.suffix)
    ensures Settled(lib, prefix, selfId, members, names, suffixes, items + [p])
  {
    hide Fits, IsPair, Normalized, NumberedName, Suffix, NamesUsed, SuffixesUsed;
    UsedHas(names, suffixes, items);
    assert forall i :: 0 <= i < |items| ==> items[i].member == members[i];
    NamesMore(lib, prefix, items, p, names, suffixes);
    NumbersMore(lib, prefix, items, p, names, suffixes);
    hide NamesFresh, NumbersFresh;
  }

  lemma NamesMore(lib: Library, prefix: string, items: seq<Plan>, p: Plan, names: set<string>, suffixes: set<string>)
    requires NamesFresh(lib, prefix, items, names)
    requires p.reason.New? ==>
      FreshName(lib, prefix, p.original, NamesUsed(names, items), SuffixesUsed(suffixes, items), p.suggested, p.suffix)
    ensures NamesFresh(lib, prefix, items + [p], names)
  {
    hide IsPair, Normalized, NumberedName, Suffix, NamesUsed, SuffixesUsed;
    UsedHas(names, suffixes, items);
  }

  lemma NumbersMore(lib: Library, prefix: string, items: seq<Plan>, p: Plan, names: set<string>, suffixes: set<string>)
    requires NumbersFresh(items, suffixes)
    requires p.reason.New? ==>
      FreshName(lib, prefix, p.original, NamesUsed(names, items), SuffixesUsed(suffixes, items), p.suggested, p.suffix)
    ensures NumbersFresh(items + [p], suffixes)
  {
    hide IsPair, Normalized, NumberedName, Suffix, NamesUsed, SuffixesUsed;
    UsedHas(names, suffixes, items);
  }

  /** New names differ from each other and from the names of members left alone by role, and are abbreviations or
      carry numbers that differ from each other and from all members' numbers. */
  lemma {:induction false} PlansAreFresh(lib: Library, prefix: string, members: seq<Member>, selfId: int,
                                         names: set<string>, suffixes: set<string>)
    requires Plans(lib, prefix, members, selfId, names, suffixes).Ok?
    ensures Settled(lib, prefix, selfId, members, names, suffixes,
                    Plans(lib, prefix, members, selfId, names, suffixes).value)
  {
    if |members| > 0 {
      hide Settled, Planning, NamesUsed, SuffixesUsed, FreshName, Fits;
      var front := members[..|members| - 1];
      PlansAreFresh(lib, prefix, front, selfId, names, suffixes);
      var done := Plans(lib, prefix, front, selfId, names, suffixes).value;
      var last, usedNames, usedSuffixes := members[|members| - 1], NamesUsed(names, done), SuffixesUsed(suffixes, done);
      PlanningFits(lib, prefix, last, selfId, usedNames, usedSuffixes);
      var p := Planning(lib, prefix, last, selfId, usedNames, usedSuffixes).value;
      SettledMore(lib, prefix, selfId, members, names, suffixes, done, p);
    }
  }

  /** The plan of a group: it fails exactly when the prefix is too long for a number and some member has no other
      name; else every member is planned in its turn, with fresh names and numbers. */
  lemma GroupPlansExactly(lib: Library, prefix: string, given: seq<Member>, selfId: int)
    ensures GroupPlans(lib, prefix, given, selfId).Err? <==>
      |UsedPrefix(prefix)| > 14 && exists n: nat :: StuckAt(lib, prefix, given, selfId, n)
    ensures GroupPlans(lib, prefix, given, selfId).Ok? ==>
      var members := ByUserId(given);
      Settled(lib, UsedPrefix(prefix), selfId, members, RoleNames(lib, members, selfId), Suffixes(members),
              GroupPlans(lib, prefix, given, selfId).value)
  {
    hide Plans, Stuck, Settled, ByUserId, RoleNames, Suffixes, UsedPrefix;
    var members := ByUserId(given);
    var names, suffixes := RoleNames(lib, members, selfId), Suffixes(members);
    FailsExactly(lib, UsedPrefix(prefix), members, selfId, names, suffixes);
    assert forall n: nat :: StuckAt(lib, prefix, given, selfId, n) <==>
      Stuck(lib, UsedPrefix(prefix), members, selfId, names, suffixes, n);
    if GroupPlans(lib, prefix, given, selfId).Ok? {
      PlansAreFresh(lib, UsedPrefix(prefix), members, selfId, names, suffixes);
    }
  }

  ghost predicate StuckAt(lib: Library, prefix: string, given: seq<Member>, selfId: int, n: nat) {
    var members := ByUserId(given);
    Stuck(lib, UsedPrefix(prefix), members, selfId, RoleNames(lib, members, selfId), Suffixes(members), n)
  }

  /** A member is refused a name for exhaustion exactly if at its turn no abbreviation of its name and none of the
      261,081 numbers is free. */
  lemma ExhaustedExactly(lib: Library, prefix: string, given: seq<Member>, selfId: int, i: nat)
    requires GroupPlans(lib, prefix, given, selfId).Ok? && i < |ByUserId(given)|
    ensures var members, used := ByUserId(given), UsedPrefix(prefix);
      var items := GroupPlans(lib, prefix, given, selfId).value;
      && |items| == |members|
      && (items[i].reason.Exhausted? <==>
            && NeedsName(lib, members[i], selfId) && |used| <= 14
            && NoneShort(lib, members[i], NamesUsed(RoleNames(lib, members, selfId), items[..i]))
            && forall k: nat :: !Free(used, NamesUsed(RoleNames(lib, members, selfId), items[..i]),
                                      SuffixesUsed(Suffixes(members), items[..i]), k))
  {
    hide Plans, ByUserId, RoleNames, Suffixes, UsedPrefix, Planning, NoneShort, NeedsName, NamesUsed, SuffixesUsed,
      Free;
    var members, used := ByUserId(given), UsedPrefix(prefix);
    var names, suffixes := RoleNames(lib, members, selfId), Suffixes(members);
    PlannedInTurn(lib, used, members, selfId, names, suffixes, i);
    var items := GroupPlans(lib, prefix, given, selfId).value;
    PlanningExactly(lib, used, members[i], selfId, NamesUsed(names, items[..i]), SuffixesUsed(suffixes, items[..i]));
  }

  // ---- The methods that make the plan ----

  /** Numbers are tried upwards and never again; all below `next` are taken. */
  ghost predicate TriedBelow(prefix: string, names: set<string>, suffixes: set<string>, next: nat) {
    && 1 <= next <= CAPACITY + 1 && FreeFrom(prefix, names, suffixes, next)
    && (|prefix| > 14 ==> next == 1)
  }

  lemma LeastIs(prefix: string, names: set<string>, suffixes: set<string>, k: nat)
    requires Free(prefix, names, suffixes, k) && FreeFrom(prefix, names, suffixes, k)
    ensures LeastFree(prefix, names, suffixes) == Some(k)
  {
    hide Free;
  }

  lemma OneTried(prefix: string, names: set<string>, suffixes: set<string>, k: nat)
    requires FreeFrom(prefix, names, suffixes, k) && !Free(prefix, names, suffixes, k)
    ensures FreeFrom(prefix, names, suffixes, k + 1)
  {
    hide Free;
  }

  /** What is taken stays taken. */
  lemma MoreTaken(prefix: string, names: set<string>, suffixes: set<string>, moreNames: set<string>,
                  moreSuffixes: set<string>, k: nat)
    requires FreeFrom(prefix, names, suffixes, k) && names <= moreNames && suffixes <= moreSuffixes
    ensures FreeFrom(prefix, moreNames, moreSuffixes, k)
  {
    forall j: nat | Free(prefix, moreNames, moreSuffixes, j)
      ensures k <= j
    {
      assert Free(prefix, names, suffixes, j);
    }
  }

  lemma NoneLeft(prefix: string, names: set<string>, suffixes: set<string>)
    requires FreeFrom(prefix, names, suffixes, CAPACITY + 1)
    ensures LeastFree(prefix, names, suffixes) == None
  {
  }

  /** The number at `next`, given out, is not free any more. */
  lemma NumberTaken(prefix: string, names: set<string>, suffixes: set<string>, k: nat)
    requires FreeFrom(prefix, names, suffixes, k) && Suffix(k).Some?
    ensures var s := Suffix(k).value; FreeFrom(prefix, names + {NumberedName(prefix, s)}, suffixes + {s}, k + 1)
  {
    hide Suffix, NumberedName;
    var s := Suffix(k).value;
    MoreTaken(prefix, names, suffixes, names + {NumberedName(prefix, s)}, suffixes + {s}, k);
    OneTried(prefix, names + {NumberedName(prefix, s)}, suffixes + {s}, k);
  }

  /** The least free number, going on from where the last search ended. */
  method NextNumber(prefix: string, usedNames: set<string>, usedSuffixes: set<string>, from: nat)
    returns (r: Result<(string, string), Error>, next: nat)
    requires prefix != "" && !Strings.White(prefix[0]) && TriedBelow(prefix, usedNames, usedSuffixes, from)
    ensures |prefix| > 14 ==> r == Err(InvalidCardName)
    ensures |prefix| <= 14 ==>
      match LeastFree(prefix, usedNames, usedSuffixes)
      case None => r == Ok(("", "")) && TriedBelow(prefix, usedNames, usedSuffixes, next)
      case Some(k) =>
        && Suffix(k).Some? && r == Ok((NumberedName(prefix, Suffix(k).value), Suffix(k).value))
        && TriedBelow(prefix, usedNames + {r.value.0}, usedSuffixes + {r.value.1}, next)
  {
    hide Suffix, NumberedName, Strings.Trim, Free, FreeFrom, LeastFree;
    next := from;
    while next <= CAPACITY
      invariant TriedBelow(prefix, usedNames, usedSuffixes, next)
      decreases CAPACITY - next
    {
      NumberedNameIsTrimmed(prefix, next);
      var suffix := Suffix(next).value;
      var name := NumberedName(prefix, suffix);
      var card := Strings.Trim(name);
      if |card| == 0 || |card| > MAX_CARD_CHARS {
        return Err(InvalidCardName), next;
      }
      next := next + 1;
      IsFree(prefix, usedNames, usedSuffixes, next - 1);
      if card !in usedNames && suffix !in usedSuffixes {
        LeastIs(prefix, usedNames, usedSuffixes, next - 1);
        NumberTaken(prefix, usedNames, usedSuffixes, next - 1);
        return Ok((card, suffix)), next;
      }
      OneTried(prefix, usedNames, usedSuffixes, next - 1);
    }
    NoneLeft(prefix, usedNames, usedSuffixes);
    r := Ok(("", ""));
  }

  lemma IsFree(prefix: string, names: set<string>, suffixes: set<string>, k: nat)
    requires 1 <= k <= CAPACITY && Suffix(k).Some?
    ensures Free(prefix, names, suffixes, k) <==>
      Suffix(k).value !in suffixes && NumberedName(prefix, Suffix(k).value) !in names
  {
  }

  /** The first free abbreviation, else the next free number. */
  method Choose(lib: Library, prefix: string, original: string, usedNames: set<string>, usedSuffixes: set<string>,
                from: nat) returns (r: Result<(string, string), Error>, next: nat)
    requires prefix != "" && !Strings.White(prefix[0]) && TriedBelow(prefix, usedNames, usedSuffixes, from)
    ensures r == Naming(lib, prefix, original, usedNames, usedSuffixes)
    ensures r.Ok? && r.value.0 == "" ==> r.value.1 == ""
    ensures r.Ok? ==>
      var (name, suffix) := r.value;
      TriedBelow(prefix, if name != "" then usedNames + {name} else usedNames,
                 if suffix != "" then usedSuffixes + {suffix} else usedSuffixes, next)
  {
    hide CandidateList, LeastFree, FreeFrom, Suffix, NumberedName;
    var names := Candidates(lib, original);
    CandidatesNotEmpty(lib, original);
    hide IsPair, Normalized;
    assert names[0..] == names;
    for i := 0 to |names|
      invariant FirstFree(names, usedNames) == FirstFree(names[i..], usedNames)
    {
      assert names[i] in names;
      assert names[i..][1..] == names[i + 1..];
      if names[i] !in usedNames {
        MoreTaken(prefix, usedNames, usedSuffixes, usedNames + {names[i]}, usedSuffixes, from);
        return Ok((names[i], "")), from;
      }
    }
    r, next := NextNumber(prefix, usedNames, usedSuffixes, from);
    NumberedNotEmpty(prefix);
    if r.Ok? && r.value.0 != "" {
      NumberNotEmpty(r.value.1);
    }
  }

  lemma NumberNotEmpty(s: string)
    requires exists k :: Suffix(k) == Some(s)
    ensures s != ""
  {
    var k :| Suffix(k) == Some(s);
    SuffixIsShaped(k);
  }

  /** The plan of one member. */
  method PlanOne(lib: Library, prefix: string, m: Member, selfId: int, usedNames: set<string>,
                 usedSuffixes: set<string>, from: nat) returns (r: Result<Plan, Error>, next: nat)
    requires prefix != "" && !Strings.White(prefix[0]) && TriedBelow(prefix, usedNames, usedSuffixes, from)
    ensures r == Planning(lib, prefix, m, selfId, usedNames, usedSuffixes)
    ensures r.Ok? ==> TriedBelow(prefix, NamesAfter(usedNames, r.value), SuffixesAfter(usedSuffixes, r.value), next)
  {
    hide ResolvedName, Naming, FreeFrom;
    next := from;
    var original := ResolvedName(lib, m);
    if IsExcluded(m, selfId) {
      return Ok(Plan(m, original, "", "", Role)), next;
    }
    if lib.inactive(m) {
      return Ok(Plan(m, original, "", "", Inactive)), next;
    }
    if m.userId == 0 && m.nimId == "" {
      return Ok(Plan(m, original, "", "", NoIdentity)), next;
    }
    if m.managedCardName != "" {
      MoreTaken(prefix, usedNames, usedSuffixes, usedNames + {m.managedCardName}, usedSuffixes, next);
      var reason := if m.cardName != m.managedCardName then Drift else Managed;
      return Ok(Plan(m, original, m.managedCardName, m.cardSuffix, reason)), next;
    }
    var chosen, after := Choose(lib, prefix, original, usedNames, usedSuffixes, next);
    next := after;
    if chosen.Err? {
      return Err(chosen.error), next;
    }
    var (name, suffix) := chosen.value;
    r := Ok(Plan(m, original, name, suffix, if name == "" then Exhausted else New));
  }

  function Tallied(p: Preview, plan: Plan): Preview {
    var q := p.(items := p.items + [plan]);
    match CounterOf(plan.reason)
    case Excluded => q.(excluded := p.excluded + 1)
    case MissingIdentity => q.(missingIdentity := p.missingIdentity + 1)
    case WillRename => q.(willRename := p.willRename + 1)
    case AlreadyManaged => q.(alreadyManaged := p.alreadyManaged + 1)
    case Conflict => q.(conflicts := p.conflicts + 1)
  }

  lemma TalliedRight(p: Preview, plan: Plan)
    requires CountsRight(p)
    ensures CountsRight(Tallied(p, plan))
    ensures Tallied(p, plan).items == p.items + [plan] && Tallied(p, plan).prefix == p.prefix
  {
    CountMore(p.items, plan);
    hide Count;
    forall c: Counter
      ensures Counted(Tallied(p, plan), c) == Count(Tallied(p, plan).items, c)
    {
      assert Counted(p, c) == Count(p.items, c);
    }
  }

  lemma UsedPrefixIsTrimmed(prefix: string)
    ensures UsedPrefix(prefix) != "" && !Strings.White(UsedPrefix(prefix)[0])
  {
  }

  /** The plan for a group, with its counters. */
  method PreviewGroup(lib: Library, prefix: string, given: seq<Member>, selfId: int) returns (r: Result<Preview, Error>)
    ensures match GroupPlans(lib, prefix, given, selfId)
      case Err(e) => r == Err(e)
      case Ok(items) =>
        && r.Ok? && r.value.prefix == UsedPrefix(prefix) && r.value.items == items && CountsRight(r.value)
        && var p := r.value;
           p.willRename + p.alreadyManaged + p.excluded + p.conflicts + p.missingIdentity == |given|
  {
    hide Planning, TriedBelow, CountsRight, ByUserId, UsedPrefix, Tallied, RoleNames, Suffixes, NamesUsed, SuffixesUsed;
    var members := ByUserId(given);
    var used := UsedPrefix(prefix);
    UsedPrefixIsTrimmed(prefix);
    var usedNames, usedSuffixes := Reserved(lib, members, selfId);
    ghost var names, suffixes := usedNames, usedSuffixes;
    var p := Preview(used, [], 0, 0, 0, 0, 0);
    var next: nat := 1;
    NothingTallied(used, names, suffixes);
    for i := 0 to |members|
      invariant p.prefix == used && CountsRight(p)
      invariant Plans(lib, used, members[..i], selfId, names, suffixes) == Ok(p.items)
      invariant usedNames == NamesUsed(names, p.items) && usedSuffixes == SuffixesUsed(suffixes, p.items)
      invariant TriedBelow(used, usedNames, usedSuffixes, next)
    {
      ghost var front := members[..i + 1];
      assert front[..i] == members[..i] && front[i] == members[i];
      var plan, after := PlanOne(lib, used, members[i], selfId, usedNames, usedSuffixes, next);
      if plan.Err? {
        PlansFail(lib, used, members, selfId, names, suffixes, i + 1);
        return Err(plan.error);
      }
      TalliedRight(p, plan.value);
      UsedMore(names, suffixes, p.items, plan.value);
      usedNames, usedSuffixes := NamesAfter(usedNames, plan.value), SuffixesAfter(usedSuffixes, plan.value);
      next := after;
      p := Tallied(p, plan.value);
    }
    assert members[..|members|] == members;
    TalliedSum(p);
    ByUserIdSorts(given);
    PlansLength(lib, used, members, selfId, names, suffixes);
    r := Ok(p);
  }

  lemma UsedMore(names: set<string>, suffixes: set<string>, items: seq<Plan>, p: Plan)
    ensures NamesUsed(names, items + [p]) == NamesAfter(NamesUsed(names, items), p)
    ensures SuffixesUsed(suffixes, items + [p]) == SuffixesAfter(SuffixesUsed(suffixes, items), p)
  {
    assert (items + [p])[..|items|] == items;
  }

  lemma {:induction false} PlansFail(lib: Library, prefix: string, members: seq<Member>, selfId: int,
                                     names: set<string>, suffixes: set<string>, n: nat)
    requires n <= |members| && Plans(lib, prefix, members[..n], selfId, names, suffixes).Err?
    ensures Plans(lib, prefix, members, selfId, names, suffixes) ==
      Plans(lib, prefix, members[..n], selfId, names, suffixes)
  {
    hide Planning;
    if n == |members| {
      assert members[..n] == members;
    } else {
      assert members[..|members| - 1][..n] == members[..n];
      PlansFail(lib, prefix, members[..|members| - 1], selfId, names, suffixes, n);
    }
  }

  lemma TalliedSum(p: Preview)
    requires CountsRight(p)
    ensures p.willRename + p.alreadyManaged + p.excluded + p.conflicts + p.missingIdentity == |p.items|
  {
    EachInOneCounter(p.items);
    assert Counted(p, Excluded) == Count(p.items, Excluded) && Counted(p, Conflict) == Count(p.items, Conflict);
    assert Counted(p, MissingIdentity) == Count(p.items, MissingIdentity);
    assert Counted(p, WillRename) == Count(p.items, WillRename);
    assert Counted(p, AlreadyManaged) == Count(p.items, AlreadyManaged);
  }

  lemma NothingTallied(prefix: string, names: set<string>, suffixes: set<string>)
    ensures CountsRight(Preview(prefix, [], 0, 0, 0, 0, 0)) && TriedBelow(prefix, names, suffixes, 1)
    ensures NamesUsed(names, []) == names && SuffixesUsed(suffixes, []) == suffixes
  {
  }

  /** Names of members left alone by role, and numbers already given out. */
  method Reserved(lib: Library, members: seq<Member>, selfId: int) returns (names: set<string>, suffixes: set<string>)
    ensures names == RoleNames(lib, members, selfId) && suffixes == Suffixes(members)
  {
    names, suffixes := {}, {};
    for i := 0 to |members|
      invariant names == RoleNames(lib, members[..i], selfId) && suffixes == Suffixes(members[..i])
    {
      assert members[..i + 1] == members[..i] + [members[i]];
      RoleNamesMore(lib, members[..i], members[i], selfId);
      SuffixesMore(members[..i], members[i]);
      if IsExcluded(members[i], selfId) {
        names := names + {ResolvedName(lib, members[i])};
      }
      if members[i].cardSuffix != "" {
        suffixes := suffixes + {members[i].cardSuffix};
      }
    }
    assert members[..|members|] == members;
  }

  lemma RoleNamesMore(lib: Library, front: seq<Member>, m: Member, selfId: int)
    ensures RoleNames(lib, front + [m], selfId) ==
      RoleNames(lib, front, selfId) + if IsExcluded(m, selfId) then {ResolvedName(lib, m)} else {}
  {
    hide ResolvedName, IsExcluded;
    assert forall x :: x in front + [m] <==> x in front || x == m;
  }

  lemma SuffixesMore(front: seq<Member>, m: Member)
    ensures Suffixes(front + [m]) == Suffixes(front) + if m.cardSuffix != "" then {m.cardSuffix} else {}
  {
    assert forall x :: x in front + [m] <==> x in front || x == m;
  }

  predicate InOrder(members: seq<Member>) {
    forall i, j :: 0 <= i < j < |members| ==> members[i].userId <= members[j].userId
  }

  lemma OrderedEnd(members: seq<Member>, last: Member)
    requires InOrder(members) && forall m :: m in members ==> m.userId <= last.userId
    ensures InOrder(members + [last])
  {
  }

  lemma {:induction false} InsertedOrders(m: Member, sorted: seq<Member>)
    requires InOrder(sorted)
    ensures InOrder(Inserted(m, sorted))
  {
    if |sorted| > 0 {
      EndIsLast(sorted);
    }
    if |sorted| > 0 && sorted[|sorted| - 1].userId > m.userId {
      var front, last := sorted[..|sorted| - 1], sorted[|sorted| - 1];
      assert forall x :: x in front ==> x in sorted;
      InsertedOrders(m, front);
      InsertedHas(m, front);
      hide InOrder;
      OrderedEnd(Inserted(m, front), last);
    } else {
      hide InOrder;
      OrderedEnd(sorted, m);
    }
  }

  lemma {:induction false} InsertedSame(m: Member, sorted: seq<Member>)
    ensures multiset(Inserted(m, sorted)) == multiset(sorted) + multiset{m}
  {
    if |sorted| > 0 && sorted[|sorted| - 1].userId > m.userId {
      var front, last := sorted[..|sorted| - 1], sorted[|sorted| - 1];
      assert sorted == front + [last];
      InsertedSame(m, front);
    }
  }

  lemma {:induction false} InsertedHas(m: Member, sorted: seq<Member>)
    ensures forall x :: x in Inserted(m, sorted) <==> x in sorted || x == m
  {
    if |sorted| > 0 && sorted[|sorted| - 1].userId > m.userId {
      var front, last := sorted[..|sorted| - 1], sorted[|sorted| - 1];
      assert sorted == front + [last];
      InsertedHas(m, front);
    }
  }

  lemma EndIsLast(sorted: seq<Member>)
    requires |sorted| > 0 && InOrder(sorted)
    ensures forall x :: x in sorted ==> x.userId <= sorted[|sorted| - 1].userId
  {
  }

  /** The members are planned in order of user id, all of them, each once. */
  lemma {:induction false} ByUserIdSorts(members: seq<Member>)
    ensures multiset(ByUserId(members)) == multiset(members)
    ensures InOrder(ByUserId(members))
    ensures |ByUserId(members)| == |members|
  {
    if |members| > 0 {
      var front, last := members[..|members| - 1], members[|members| - 1];
      ByUserIdSorts(front);
      InsertedOrders(last, ByUserId(front));
      InsertedSame(last, ByUserId(front));
      assert members == front + [last];
      hide Inserted, InOrder;
      assert ByUserId(members) == Inserted(last, ByUserId(front));
    }
    SameSize(ByUserId(members), members);
  }

  lemma SameSize(a: seq<Member>, b: seq<Member>)
    requires multiset(a) == multiset(b)
    ensures |a| == |b|
  {
    assert |multiset(a)| == |a| && |multiset(b)| == |b|;
  }
}
