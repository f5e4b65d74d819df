/** Base-128 varints: the writer every encoder uses and the bounded readers of the decoders.

    The readers differ only in how many bytes they allow and how large the last allowed byte may be:
    the property and message readers take 5 bytes with a last byte of at most 15 (a u32), the frame
    header and the login port count take 5 bytes with any last byte below 128, and the Python field
    scanner takes 10 bytes with a last byte of at most 1 (a u64). */
module Varint {
  import opened Bytes

  datatype Reading = Value(value: nat, used: nat) | Truncated | Overflow

  function Encoded(value: nat): (s: seq<byte>)
    ensures |s| >= 1
  {
    if value < 128 then [value as byte] else [Continued(value)] + Encoded(value / 128)
  }

  /** The low seven bits with the continuation bit set. */
  function Continued(value: nat): byte {
    (128 + value % 128) as byte
  }

  /** Reads at most `width` bytes; the `width`-th may be at most `lastMax`. */
  function Parsed(s: seq<byte>, width: nat, lastMax: nat): (r: Reading)
    requires width >= 1
    ensures r.Value? ==> 1 <= r.used <= width && r.used <= |s|
  {
    if |s| == 0 then Truncated
    else if width == 1 && s[0] as nat > lastMax then Overflow
    else if s[0] < 128 then Value(s[0] as nat, 1)
    else if width == 1 then Overflow
    else match Parsed(s[1..], width - 1, lastMax)
      case Value(v, n) => Value(s[0] as nat - 128 + 128 * v, n + 1)
      case other => other
  }

  function Pow128(n: nat): (p: nat)
    ensures p >= 1
  {
    if n == 0 then 1 else 128 * Pow128(n - 1)
  }

  /** A seven-bit digit moved to its place. */
  function Placed(digit: nat, index: nat): nat {
    digit * Pow128(index)
  }

  /** The source's writing loop: seven bits at a time, low bits first. */
  method Put(number: nat, out: seq<byte>) returns (r: seq<byte>)
    ensures r == out + Encoded(number)
  {
    var value := number;
    r := out;
    while value >= 128
      invariant r + Encoded(value) == out + Encoded(number)
    {
      assert r + ([Continued(value)] + Encoded(value / 128)) == (r + [Continued(value)]) + Encoded(value / 128);
      r := r + [(value % 128 + 128) as byte];
      value := value / 128;
    }
    r := r + [value as byte];
  }

  /** The source's reading loop; `pos` is where the next read starts. */
  method Read(input: seq<byte>, start: nat, width: nat, lastMax: nat) returns (r: Reading, pos: nat)
    requires start <= |input| && width >= 1
    ensures r == Parsed(input[start..], width, lastMax)
    ensures r.Value? ==> pos == start + r.used
  {
    var value: nat, index: nat := 0, 0;
    pos := start;
    ghost var whole := Parsed(input[start..], width, lastMax);
    while index < width
      invariant 0 <= index <= width && pos == start + index <= |input|
      invariant index < width ==> whole == Shifted(Parsed(input[pos..], width - index, lastMax), value, index)
      invariant index == width ==> whole == Overflow
    {
      hide Placed;
      if pos == |input| {
        return Truncated, pos;
      }
      var b := input[pos] as nat;
      assert input[pos..][1..] == input[pos + 1..];
      if index == width - 1 && b > lastMax {
        return Overflow, pos + 1;
      }
      if b < 128 {
        return Value(value + Placed(b, index), index + 1), pos + 1;
      }
      var digit: nat := b - 128;
      if index + 1 < width {
        var rest := Parsed(input[pos + 1..], width - index - 1, lastMax);
        if rest.Value? {
          NextDigit(value, digit, rest.value, index);
        }
      }
      value := value + Placed(digit, index);
      pos, index := pos + 1, index + 1;
    }
    r := Overflow;
  }

  /** What the whole reading is when `index` bytes worth `low` came before the part that read `r`. */
  ghost function Shifted(r: Reading, low: nat, index: nat): Reading {
    match r
    case Value(v, n) => Value(low + Placed(v, index), n + index)
    case other => other
  }

  lemma NextDigit(low: nat, digit: nat, high: nat, index: nat)
    ensures low + Placed(digit + 128 * high, index) == low + Placed(digit, index) + Placed(high, index + 1)
  {
    var p := Pow128(index);
    assert (digit + 128 * high) * p == digit * p + (128 * high) * p;
    assert (128 * high) * p == high * (128 * p);
  }

  /** Whether `value` is in the range of a reader. */
  predicate Fits(value: nat, width: nat, lastMax: nat)
    requires width >= 1
  {
    if value < 128 then width > 1 || value <= lastMax else width > 1 && Fits(value / 128, width - 1, lastMax)
  }

  lemma U32Fits(value: nat)
    ensures value < U32_LIMIT <==> Fits(value, 5, 15)
  {
    assert Fits(value / 128 / 128 / 128, 2, 15) <==>
      value / 128 / 128 / 128 < 128 || Fits(value / 128 / 128 / 128 / 128, 1, 15);
    assert Fits(value / 128 / 128, 3, 15) <==> value / 128 / 128 < 128 || Fits(value / 128 / 128 / 128, 2, 15);
    assert Fits(value / 128, 4, 15) <==> value / 128 < 128 || Fits(value / 128 / 128, 3, 15);
  }

  lemma {:induction false} NoLongerThanWidth(value: nat, width: nat, lastMax: nat)
    requires width >= 1 && Fits(value, width, lastMax)
    ensures |Encoded(value)| <= width
  {
    if value >= 128 {
      NoLongerThanWidth(value / 128, width - 1, lastMax);
    }
  }

  /** Reading back what was written, whatever follows it. */
  lemma {:induction false} RoundTrip(value: nat, width: nat, lastMax: nat, rest: seq<byte>)
    requires width >= 1 && Fits(value, width, lastMax)
    ensures Parsed(Encoded(value) + rest, width, lastMax) == Value(value, |Encoded(value)|)
  {
    if value >= 128 {
      RoundTrip(value / 128, width - 1, lastMax, rest);
      assert (Encoded(value) + rest)[1..] == Encoded(value / 128) + rest;
    }
  }

  /** An accepted number depends only on its own bytes: cut inside them the reading is truncated, and cut
      after them, or with other bytes behind them, it is the same. */
  lemma {:induction false} OwnBytesOnly(s: seq<byte>, width: nat, lastMax: nat, k: nat, rest: seq<byte>)
    requires width >= 1 && k <= |s|
    requires Parsed(s, width, lastMax).Value?
    ensures k < Parsed(s, width, lastMax).used ==> Parsed(s[..k], width, lastMax) == Truncated
    ensures k >= Parsed(s, width, lastMax).used ==>
      Parsed(s[..k] + rest, width, lastMax) == Parsed(s, width, lastMax)
  {
    if s[0] >= 128 && k > 0 {
      OwnBytesOnly(s[1..], width - 1, lastMax, k - 1, rest);
      assert s[..k][1..] == s[1..][..k - 1];
      assert (s[..k] + rest)[1..] == s[1..][..k - 1] + rest;
    }
  }

  /** Every accepted number is in range, and writing it again never takes more bytes than it came in;
      it takes as many only when it came in exactly as the writer writes it. */
  lemma {:induction false} NeverLonger(s: seq<byte>, width: nat, lastMax: nat)
    requires width >= 1
    ensures var r := Parsed(s, width, lastMax);
      r.Value? ==>
        && Fits(r.value, width, lastMax)
        && |Encoded(r.value)| <= r.used
        && (|Encoded(r.value)| == r.used <==> Encoded(r.value) == s[..r.used])
  {
    var r := Parsed(s, width, lastMax);
    if r.Value? && s[0] >= 128 {
      NeverLonger(s[1..], width - 1, lastMax);
      var rest := Parsed(s[1..], width - 1, lastMax);
      assert r.value == (s[0] as nat - 128) + 128 * rest.value;
      assert s[..r.used] == [s[0]] + s[1..][..rest.used];
      if r.value >= 128 {
        assert r.value / 128 == rest.value && r.value % 128 == s[0] as nat - 128;
      } else {
        assert rest.value == 0 && |Encoded(r.value)| == 1;
      }
    }
  }

  lemma ReadsU32(s: seq<byte>)
    ensures Parsed(s, 5, 15).Value? ==> Parsed(s, 5, 15).value < U32_LIMIT
  {
    NeverLonger(s, 5, 15);
    if Parsed(s, 5, 15).Value? {
      U32Fits(Parsed(s, 5, 15).value);
    }
  }

  /** The number a byte string denotes: continuation bits dropped, least significant digit first. */
  function Denoted(s: seq<byte>): nat {
    if |s| == 0 then 0 else s[0] as nat % 128 + 128 * Denoted(s[1..])
  }

  /** Continuation bytes closed by one final byte, within a reader's width and last-byte bound. */
  predicate Terminated(s: seq<byte>, n: nat, width: nat, lastMax: nat) {
    && 1 <= n <= width && n <= |s|
    && (forall i :: 0 <= i < n - 1 ==> s[i] >= 128)
    && s[n - 1] < 128 && (n == width ==> s[n - 1] as nat <= lastMax)
  }

  /** A reader accepts exactly the strings that start with a terminated number, consumes just that number,
      and returns what it denotes. */
  lemma AcceptedExactly(s: seq<byte>, width: nat, lastMax: nat, n: nat)
    requires width >= 1
    ensures var r := Parsed(s, width, lastMax);
      && (r.Value? && r.used == n <==> Terminated(s, n, width, lastMax))
      && (r.Value? ==> r.value == Denoted(s[..r.used]))
  {
    if Terminated(s, n, width, lastMax) {
      TerminatedIsAccepted(s, width, lastMax, n);
    }
    AcceptedIsTerminated(s, width, lastMax);
  }

  lemma {:induction false} TerminatedIsAccepted(s: seq<byte>, width: nat, lastMax: nat, n: nat)
    requires Terminated(s, n, width, lastMax)
    ensures Parsed(s, width, lastMax).Value? && Parsed(s, width, lastMax).used == n
  {
    if n > 1 {
      TerminatedIsAccepted(s[1..], width - 1, lastMax, n - 1);
    }
  }

  lemma {:induction false} AcceptedIsTerminated(s: seq<byte>, width: nat, lastMax: nat)
    requires width >= 1
    ensures var r := Parsed(s, width, lastMax);
      r.Value? ==> Terminated(s, r.used, width, lastMax) && r.value == Denoted(s[..r.used])
  {
    var r := Parsed(s, width, lastMax);
    if r.Value? && r.used > 1 {
      AcceptedIsTerminated(s[1..], width - 1, lastMax);
      assert s[..r.used][1..] == s[1..][..r.used - 1];
      forall i | 0 <= i < r.used - 1
        ensures s[i] >= 128
      {
        assert i > 0 ==> s[1..][i - 1] == s[i];
      }
    } else if r.Value? {
      assert s[..1][1..] == [];
    }
  }
}
