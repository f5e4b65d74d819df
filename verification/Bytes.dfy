/** Byte strings, machine integers, the two failure-compatible result types, and what is used of sequences and sets
    throughout. */
module Bytes {

  newtype byte = x: int | 0 <= x < 0x100
  type u16 = x: nat | x < 0x1_0000
  type u32 = x: nat | x < 0x1_0000_0000
  type u64 = x: nat | x < 0x1_0000_0000_0000_0000

  /** Sizes are those of a 64-bit target. */
  type usize = x: nat | x < 0x1_0000_0000_0000_0000

  const U32_LIMIT: nat := 0x1_0000_0000
  const USIZE_LIMIT: nat := 0x1_0000_0000_0000_0000

  datatype Option<+T> = None | Some(value: T)

  datatype Result<+T, +E> = Ok(value: T) | Err(error: E) {
    predicate IsFailure() {
      Err?
    }

    function PropagateFailure<U>(): Result<U, E>
      requires Err?
    {
      Err(error)
    }

    function Extract(): T
      requires Ok?
    {
      value
    }
  }

  /** `value` in `width` little-endian bytes; higher bits are dropped, as a truncating cast does. */
  function Little(value: nat, width: nat): (s: seq<byte>)
    ensures |s| == width
  {
    if width == 0 then [] else [(value % 256) as byte] + Little(value / 256, width - 1)
  }

  function FromLittle(s: seq<byte>): nat {
    if |s| == 0 then 0 else s[0] as nat + 256 * FromLittle(s[1..])
  }

  function Pow256(n: nat): (p: nat)
    ensures p >= 1
  {
    if n == 0 then 1 else 256 * Pow256(n - 1)
  }

  lemma {:induction false} LittleRoundTrip(value: nat, width: nat)
    requires value < Pow256(width)
    ensures FromLittle(Little(value, width)) == value
  {
    if width > 0 {
      assert value / 256 < Pow256(width - 1);
      LittleRoundTrip(value / 256, width - 1);
      assert Little(value, width)[1..] == Little(value / 256, width - 1);
    }
  }

  lemma LowByte(low: byte, high: nat)
    ensures (low as nat + 256 * high) % 256 == low as nat && (low as nat + 256 * high) / 256 == high
  {
  }

  lemma {:induction false} FromLittleRoundTrip(s: seq<byte>)
    ensures FromLittle(s) < Pow256(|s|)
    ensures Little(FromLittle(s), |s|) == s
  {
    if |s| > 0 {
      var rest := s[1..];
      FromLittleRoundTrip(rest);
      LowByte(s[0], FromLittle(rest));
      assert s == [s[0]] + rest;
    }
  }

  lemma Widths()
    ensures Pow256(2) == 0x1_0000
    ensures Pow256(3) == 0x100_0000
    ensures Pow256(4) == 0x1_0000_0000
    ensures Pow256(8) == 0x1_0000_0000_0000_0000
  {
    assert Pow256(1) == 256;
    assert Pow256(5) == 256 * Pow256(4);
    assert Pow256(6) == 256 * Pow256(5);
    assert Pow256(7) == 256 * Pow256(6);
  }

  /** `value` in `width` big-endian bytes, and back. */
  function Big(value: nat, width: nat): (s: seq<byte>)
    ensures |s| == width
  {
    if width == 0 then [] else Big(value / 256, width - 1) + [(value % 256) as byte]
  }

  function FromBig(s: seq<byte>): nat {
    if |s| == 0 then 0 else FromBig(s[..|s| - 1]) * 256 + s[|s| - 1] as nat
  }

  lemma {:induction false} BigRoundTrip(value: nat, width: nat)
    requires value < Pow256(width)
    ensures FromBig(Big(value, width)) == value
  {
    if width > 0 {
      BigRoundTrip(value / 256, width - 1);
      assert Big(value, width)[..width - 1] == Big(value / 256, width - 1);
    }
  }

  lemma {:induction false} FromBigRoundTrip(s: seq<byte>)
    ensures FromBig(s) < Pow256(|s|)
    ensures Big(FromBig(s), |s|) == s
  {
    if |s| > 0 {
      FromBigRoundTrip(s[..|s| - 1]);
      assert s == s[..|s| - 1] + [s[|s| - 1]];
    }
  }

  /** Two concatenations whose left parts have equal length agree part by part. */
  lemma SplitEqual<T>(a: seq<T>, b: seq<T>, c: seq<T>, d: seq<T>)
    requires a + b == c + d && |a| == |c|
    ensures a == c && b == d
  {
    assert a == (a + b)[..|a|] == (c + d)[..|c|] == c;
    assert b == (a + b)[|a|..] == (c + d)[|c|..] == d;
  }

  /** Stepping over a known front leaves what followed it. */
  lemma StepOver<T>(s: seq<T>, pos: nat, front: seq<T>, rest: seq<T>)
    requires pos <= |s| && s[pos..] == front + rest
    ensures pos + |front| <= |s|
    ensures s[pos..pos + |front|] == front
    ensures s[pos + |front|..] == rest
  {
    assert s[pos + |front|..] == s[pos..][|front|..];
    assert s[pos..pos + |front|] == s[pos..][..|front|];
  }

  /** Cutting at `k` and continuing with `rest`, seen from `pos`. */
  lemma CutFrom<T>(s: seq<T>, pos: nat, k: nat, rest: seq<T>)
    requires pos <= k <= |s|
    ensures (s[..k] + rest)[pos..] == s[pos..][..k - pos] + rest
    ensures s[..k][pos..] == s[pos..][..k - pos]
  {
  }

  lemma SliceBehind<T>(s: seq<T>, start: nat, i: nat, j: nat)
    requires start <= |s| && i <= j <= |s| - start
    ensures s[start..][i..j] == s[start + i..start + j]
  {
  }

  lemma SliceKept<T>(s: seq<T>, k: nat, rest: seq<T>, i: nat, j: nat)
    requires i <= j <= k <= |s|
    ensures (s[..k] + rest)[i..j] == s[i..j]
  {
  }

  lemma Associate<T>(a: seq<T>, b: seq<T>, c: seq<T>)
    ensures (a + b) + c == a + (b + c)
  {
  }

  lemma SliceInTwo<T>(s: seq<T>, i: nat, j: nat, k: nat)
    requires i <= j <= k <= |s|
    ensures s[i..k] == s[i..j] + s[j..k]
    ensures s[i..j] == s[i..][..j - i]
  {
  }

  function Flatten<T>(pieces: seq<seq<T>>): seq<T> {
    if |pieces| == 0 then [] else pieces[0] + Flatten(pieces[1..])
  }

  lemma {:induction false} FlattenNoLonger<T>(a: seq<seq<T>>, b: seq<seq<T>>)
    requires |a| == |b| && forall i :: 0 <= i < |a| ==> |a[i]| <= |b[i]|
    ensures |Flatten(a)| <= |Flatten(b)|
  {
    if |a| > 0 {
      assert forall i :: 0 <= i < |a[1..]| ==> a[1..][i] == a[i + 1] && b[1..][i] == b[i + 1];
      FlattenNoLonger(a[1..], b[1..]);
    }
  }

  lemma {:induction false} SubsetSize<T>(a: set<T>, b: set<T>)
    requires a <= b
    ensures |a| <= |b|
  {
    if a != {} {
      var x :| x in a;
      SubsetSize(a - {x}, b - {x});
    }
  }
}
