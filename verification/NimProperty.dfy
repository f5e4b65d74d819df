/** NIM property lists: a varint count, then for each field a varint id and varint-length raw bytes. */
module NimProperty {
  import opened Bytes
  import Runs
  import Varint

  datatype Error = Truncated | Overflow | Limit

  datatype Field = Field(id: u32, value: seq<byte>)

  type Property = seq<Field>

  /** The wire form of one field, of each of a run of fields, and of a whole list. */
  function FieldWire(f: Field): seq<byte> {
    Varint.Encoded(f.id) + (Varint.Encoded(|f.value|) + f.value)
  }

  function Wires(fields: Property): seq<seq<byte>> {
    seq(|fields|, i requires 0 <= i < |fields| => FieldWire(fields[i]))
  }

  function Wire(fields: Property): seq<byte> {
    Varint.Encoded(|fields|) + Flatten(Wires(fields))
  }

  // ---- Encoding ----

  function Append(fields: Property, out: seq<byte>, maxBytes: usize): Result<seq<byte>, Error> {
    if |fields| == 0 then Ok(out)
    else
      var f := fields[0];
      if |f.value| >= U32_LIMIT then Err(Overflow)
      else if |out + FieldWire(f)| > maxBytes then Err(Limit)
      else Append(fields[1..], out + FieldWire(f), maxBytes)
  }

  function Encoding(fields: Property, maxFields: usize, maxBytes: usize): Result<seq<byte>, Error> {
    var count := Varint.Encoded(|fields|);
    if |fields| > maxFields then Err(Limit)
    else if |fields| >= U32_LIMIT then Err(Overflow)
    else if |count| > maxBytes then Err(Limit)
    else Append(fields, count, maxBytes)
  }

  method Encode(fields: Property, maxFields: usize, maxBytes: usize) returns (r: Result<seq<byte>, Error>)
    ensures r == Encoding(fields, maxFields, maxBytes)
  {
    if |fields| > maxFields {
      return Err(Limit);
    }
    if |fields| >= U32_LIMIT {
      return Err(Overflow);
    }
    var out := Varint.Put(|fields|, []);
    assert out == Varint.Encoded(|fields|);
    if |out| > maxBytes {
      return Err(Limit);
    }
    assert fields[0..] == fields;
    for i := 0 to |fields|
      invariant Append(fields[i..], out, maxBytes) == Encoding(fields, maxFields, maxBytes)
    {
      var f := fields[i];
      assert fields[i..][1..] == fields[i + 1..];
      if |f.value| >= U32_LIMIT {
        return Err(Overflow);
      }
      var prefix := Varint.Put(f.id, []);
      prefix := Varint.Put(|f.value|, prefix);
      assert prefix + f.value == FieldWire(f);
      Associate(out, prefix, f.value);
      if |out| + |prefix| + |f.value| > maxBytes {
        return Err(Limit);
      }
      out := out + prefix + f.value;
    }
    r := Ok(out);
  }

  /** Every value is short enough for its length to be a u32. */
  predicate Sized(fields: Property) {
    forall f :: f in fields ==> |f.value| < U32_LIMIT
  }

  lemma {:induction false} AppendExactly(fields: Property, out: seq<byte>, maxBytes: usize)
    requires |out| <= maxBytes
    ensures Append(fields, out, maxBytes).Ok? <==> Sized(fields) && |out| + |Flatten(Wires(fields))| <= maxBytes
    ensures Append(fields, out, maxBytes).Ok? ==> Append(fields, out, maxBytes) == Ok(out + Flatten(Wires(fields)))
  {
    if |fields| == 0 {
      assert out + [] == out;
    } else {
      var first, tail := FieldWire(fields[0]), Flatten(Wires(fields[1..]));
      assert fields == [fields[0]] + fields[1..];
      assert Wires(fields)[1..] == Wires(fields[1..]);
      Associate(out, first, tail);
      if |out + first| <= maxBytes {
        AppendExactly(fields[1..], out + first, maxBytes);
      }
    }
  }

  /** Encoding succeeds exactly when the list meets both limits, and then yields its wire form. */
  lemma EncodesExactly(fields: Property, maxFields: usize, maxBytes: usize)
    ensures Encoding(fields, maxFields, maxBytes).Ok? <==>
      |fields| <= maxFields && |fields| < U32_LIMIT && Sized(fields) && |Wire(fields)| <= maxBytes
    ensures Encoding(fields, maxFields, maxBytes).Ok? ==> Encoding(fields, maxFields, maxBytes) == Ok(Wire(fields))
  {
    var count := Varint.Encoded(|fields|);
    if |count| <= maxBytes {
      AppendExactly(fields, count, maxBytes);
    }
  }

  // ---- Decoding ----

  function Failure(r: Varint.Reading): Error {
    if r.Truncated? then Truncated else Overflow
  }

  /** One field at the front of `s`. */
  function ReadField(s: seq<byte>): (r: Result<(Field, nat), Error>)
    ensures r.Ok? ==> r.value.1 <= |s|
  {
    var id := Varint.Parsed(s, 5, 15);
    if !id.Value? then Err(Failure(id))
    else
      var size := Varint.Parsed(s[id.used..], 5, 15);
      if !size.Value? then Err(Failure(size))
      else
        var start := id.used + size.used;
        if start + size.value > |s| then Err(Truncated)
        else
          Varint.ReadsU32(s);
          Ok((Field(id.value, s[start..start + size.value]), start + size.value))
  }

  /** A number that does not end, or is no u32, is told from one cut short. */
  lemma BadNumber(s: seq<byte>, maxFields: usize, maxBytes: usize)
    ensures Varint.Parsed(s, 5, 15).Overflow? ==> ReadField(s) == Err(Overflow)
    ensures Varint.Parsed(s, 5, 15).Truncated? ==> ReadField(s) == Err(Truncated)
    ensures Varint.Parsed(s, 5, 15).Overflow? && |s| <= maxBytes ==> Decoding(s, maxFields, maxBytes) == Err(Overflow)
    ensures |s| > maxBytes ==> Decoding(s, maxFields, maxBytes) == Err(Limit)
    ensures var count := Varint.Parsed(s, 5, 15);
      |s| <= maxBytes && count.Value? && count.value > maxFields ==> Decoding(s, maxFields, maxBytes) == Err(Limit)
  {
    hide Varint.Parsed;
  }

  function Fields(): (read: Runs.Reader<Field, Error>)
    ensures Runs.Honest(read)
  {
    (s: seq<byte>) => ReadField(s)
  }

  function Decoding(input: seq<byte>, maxFields: usize, maxBytes: usize): (r: Result<(Property, nat), Error>)
    ensures r.Ok? ==> 1 <= r.value.1 <= |input|
  {
    if |input| > maxBytes then Err(Limit)
    else
      var count := Varint.Parsed(input, 5, 15);
      if !count.Value? then Err(Failure(count))
      else if count.value > maxFields then Err(Limit)
      else Runs.ReadRun(Fields(), input, count.used, count.value)
  }

  method DecodeField(input: seq<byte>, start: nat) returns (r: Result<Field, Error>, pos: nat)
    requires start <= |input|
    ensures var f := ReadField(input[start..]);
      && (f.Err? ==> r == Err(f.error))
      && (f.Ok? ==> r == Ok(f.value.0) && pos == start + f.value.1)
  {
    hide Varint.Parsed, Varint.Encoded;
    ghost var s := input[start..];
    var id, size;
    id, pos := Varint.Read(input, start, 5, 15);
    if !id.Value? {
      return Err(Failure(id)), pos;
    }
    assert input[pos..] == s[id.used..];
    size, pos := Varint.Read(input, pos, 5, 15);
    if !size.Value? {
      return Err(Failure(size)), pos;
    }
    var end := pos + size.value;
    if end > |input| {
      return Err(Truncated), pos;
    }
    assert input[pos..end] == s[pos - start..end - start];
    Varint.ReadsU32(s);
    return Ok(Field(id.value, input[pos..end])), end;
  }

  method Decode(input: seq<byte>, maxFields: usize, maxBytes: usize) returns (r: Result<(Property, nat), Error>)
    ensures r == Decoding(input, maxFields, maxBytes)
  {
    hide Varint.Parsed, ReadField, Runs.ReadRun, Runs.Prepended;
    if |input| > maxBytes {
      return Err(Limit);
    }
    assert input[0..] == input;
    var count, pos := Varint.Read(input, 0, 5, 15);
    if !count.Value? {
      return Err(Failure(count));
    }
    if count.value > maxFields {
      return Err(Limit);
    }
    var fields: Property := [];
    ghost var whole := Runs.ReadRun(Fields(), input, pos, count.value);
    Runs.PrependNothing(whole);
    for i := 0 to count.value
      invariant 0 <= pos <= |input|
      invariant whole == Runs.Prepended(fields, Runs.ReadRun(Fields(), input, pos, count.value - i))
    {
      Runs.OneMore(Fields(), input, pos, count.value - i, fields);
      var f;
      f, pos := DecodeField(input, pos);
      if f.Err? {
        return Err(f.error);
      }
      fields := fields + [f.value];
    }
    Runs.NoMore(Fields(), input, pos, fields);
    r := Ok((fields, pos));
  }

  // ---- The two directions together ----

  /** A field's wire form is that field and nothing else. */
  lemma WireIsWhole(f: Field)
    requires |f.value| < U32_LIMIT
    ensures Runs.Whole(Fields(), FieldWire(f), f)
  {
    hide Varint.Parsed, Varint.Encoded;
    var id, size := Varint.Encoded(f.id), Varint.Encoded(|f.value|);
    var s := FieldWire(f);
    Varint.U32Fits(f.id);
    Varint.RoundTrip(f.id, 5, 15, size + f.value);
    StepOver(s, 0, id, size + f.value);
    Varint.U32Fits(|f.value|);
    Varint.RoundTrip(|f.value|, 5, 15, f.value);
    StepOver(s, |id|, size, f.value);
    assert s[|id| + |size|..|s|] == f.value;
  }

  lemma FieldsAreLocal(s: seq<byte>, k: nat, rest: seq<byte>)
    requires ReadField(s).Ok? && k <= |s|
    ensures k < ReadField(s).value.1 ==> ReadField(s[..k]) == Err(Truncated)
    ensures k >= ReadField(s).value.1 ==> ReadField(s[..k] + rest) == ReadField(s)
  {
    hide Varint.Parsed, Varint.Encoded;
    var id := Varint.Parsed(s, 5, 15);
    Varint.OwnBytesOnly(s, 5, 15, k, rest);
    if k >= id.used {
      Varint.OwnBytesOnly(s, 5, 15, k, []);
      assert s[..k] + [] == s[..k];
      var s1 := s[id.used..];
      CutFrom(s, id.used, k, rest);
      Varint.OwnBytesOnly(s1, 5, 15, k - id.used, rest);
      Varint.OwnBytesOnly(s1, 5, 15, k - id.used, []);
      assert s1[..k - id.used] + [] == s1[..k - id.used];
      var (f, end) := ReadField(s).value;
      if k >= end {
        assert (s[..k] + rest)[end - |f.value|..end] == s[end - |f.value|..end];
      }
    }
  }

  lemma FieldReaderLaws(limit: nat)
    ensures Runs.Local(Fields(), limit) && Runs.CutsTo(Fields(), Truncated)
  {
    forall s: seq<byte>, k: nat | ReadField(s).Ok? && k < ReadField(s).value.1 <= |s|
      ensures ReadField(s[..k]) == Err(Truncated)
    {
      FieldsAreLocal(s, k, []);
    }
    forall s: seq<byte>, k: nat, rest: seq<byte> | ReadField(s).Ok? && ReadField(s).value.1 <= k <= |s|
      ensures ReadField(s[..k] + rest) == ReadField(s)
    {
      FieldsAreLocal(s, k, rest);
    }
  }

  /** Decoding a list's wire form, with anything after it, returns the list and exactly its length. */
  lemma RoundTrip(fields: Property, rest: seq<byte>, maxFields: usize, maxBytes: usize)
    requires |fields| <= maxFields && |fields| < U32_LIMIT && Sized(fields)
    requires |Wire(fields) + rest| <= maxBytes
    ensures Decoding(Wire(fields) + rest, maxFields, maxBytes) == Ok((fields, |Wire(fields)|))
  {
    hide Varint.Parsed, Varint.Encoded, ReadField, Runs.ReadRun, Runs.Prepended, Flatten;
    var count, body := Varint.Encoded(|fields|), Flatten(Wires(fields));
    var input := Wire(fields) + rest;
    Associate(count, body, rest);
    Varint.U32Fits(|fields|);
    Varint.RoundTrip(|fields|, 5, 15, body + rest);
    StepOver(input, 0, count, body + rest);
    FieldReaderLaws(maxBytes);
    forall i | 0 <= i < |fields|
      ensures Runs.Whole(Fields(), Wires(fields)[i], fields[i])
    {
      WireIsWhole(fields[i]);
    }
    Runs.LaidIsRead(Fields(), input, |count|, Wires(fields), fields, rest, maxBytes);
  }

  /** Every accepted input, canonical or not, owns its bytes: each proper prefix of what was consumed is
      Truncated, and cutting or replacing what lies behind changes nothing. */
  lemma OwnBytesOnly(input: seq<byte>, maxFields: usize, maxBytes: usize, k: nat, rest: seq<byte>)
    requires k <= |input| && |input[..k] + rest| <= maxBytes
    requires Decoding(input, maxFields, maxBytes).Ok?
    ensures k < Decoding(input, maxFields, maxBytes).value.1 ==>
      Decoding(input[..k], maxFields, maxBytes) == Err(Truncated)
    ensures k >= Decoding(input, maxFields, maxBytes).value.1 ==>
      Decoding(input[..k] + rest, maxFields, maxBytes) == Decoding(input, maxFields, maxBytes)
  {
    hide Varint.Parsed, ReadField, Runs.ReadRun, Runs.Prepended;
    var count := Varint.Parsed(input, 5, 15);
    var end := Decoding(input, maxFields, maxBytes).value.1;
    Varint.OwnBytesOnly(input, 5, 15, k, rest);
    Varint.OwnBytesOnly(input, 5, 15, k, []);
    assert input[..k] + [] == input[..k];
    FieldReaderLaws(maxBytes);
    if k >= end {
      Runs.RunIsLocal(Fields(), input, count.used, count.value, k, rest, maxBytes);
    } else if k >= count.used {
      Runs.RunCutsTo(Fields(), input, count.used, count.value, k, maxBytes, Truncated);
    }
  }

  /** The encoding of a list is never a prefix of the encoding of another list. */
  lemma PrefixFree(a: Property, b: Property, rest: seq<byte>)
    requires Sized(a) && Sized(b) && |a| < U32_LIMIT && |b| < U32_LIMIT
    requires |Wire(b)| < USIZE_LIMIT
    requires Wire(a) + rest == Wire(b)
    ensures a == b && rest == []
  {
    var limit: usize := USIZE_LIMIT - 1;
    RoundTrip(a, rest, limit, limit);
    RoundTrip(b, [], limit, limit);
    assert Wire(b) + [] == Wire(b);
  }

  lemma WholeNeverLonger(piece: seq<byte>, f: Field)
    requires Runs.Whole(Fields(), piece, f)
    ensures |f.value| < U32_LIMIT && |FieldWire(f)| <= |piece|
  {
    hide Varint.Parsed, Varint.Encoded;
    var id := Varint.Parsed(piece, 5, 15);
    Varint.NeverLonger(piece, 5, 15);
    Varint.NeverLonger(piece[id.used..], 5, 15);
    Varint.U32Fits(|f.value|);
  }

  /** Whatever is accepted can be encoded again under the same limits, in at most the bytes consumed. */
  lemma ReencodingNeverLonger(input: seq<byte>, maxFields: usize, maxBytes: usize)
    requires Decoding(input, maxFields, maxBytes).Ok?
    ensures var (fields, used) := Decoding(input, maxFields, maxBytes).value;
      && Encoding(fields, maxFields, maxBytes) == Ok(Wire(fields))
      && |Wire(fields)| <= used
  {
    hide Varint.Parsed, Varint.Encoded, ReadField, Runs.ReadRun, Runs.Prepended, Runs.Whole, Flatten, FieldWire,
      Encoding;
    var count := Varint.Parsed(input, 5, 15);
    var (fields, used) := Decoding(input, maxFields, maxBytes).value;
    Varint.NeverLonger(input, 5, 15);
    Varint.U32Fits(count.value);
    FieldReaderLaws(maxBytes);
    var pieces := Runs.ReadIsLaid(Fields(), input, count.used, count.value, maxBytes);
    forall i | 0 <= i < |fields|
      ensures |fields[i].value| < U32_LIMIT && |Wires(fields)[i]| <= |pieces[i]|
    {
      assert Runs.Whole(Fields(), pieces[i], fields[i]);
      WholeNeverLonger(pieces[i], fields[i]);
    }
    FlattenNoLonger(Wires(fields), pieces);
    EncodesExactly(fields, maxFields, maxBytes);
  }

  // ---- As a reader of runs of lists ----

  function Lists(maxFields: usize, maxBytes: usize): (read: Runs.Reader<Property, Error>)
    ensures Runs.Honest(read)
  {
    (input: seq<byte>) => Decoding(input, maxFields, maxBytes)
  }

  lemma ListsAreLocal(maxFields: usize, maxBytes: usize)
    ensures Runs.Local(Lists(maxFields, maxBytes), maxBytes)
  {
    var read := Lists(maxFields, maxBytes);
    forall s: seq<byte>, k: nat, rest: seq<byte> |
      read(s).Ok? && read(s).value.1 <= k <= |s| && |s[..k] + rest| <= maxBytes
      ensures read(s[..k] + rest) == read(s)
    {
      OwnBytesOnly(s, maxFields, maxBytes, k, rest);
    }
  }

  // ---- Lists as maps ----

  /** The list as an ordered map, or None when an id occurs twice. */
  function Collected(fields: Property): Option<map<u32, seq<byte>>> {
    if |fields| == 0 then Some(map[])
    else
      var last := fields[|fields| - 1];
      var before := Collected(fields[..|fields| - 1]);
      if before.None? || last.id in before.value then None else Some(before.value[last.id := last.value])
  }

  predicate Distinct(fields: Property) {
    forall i, j :: 0 <= i < j < |fields| ==> fields[i].id != fields[j].id
  }

  /** `m` holds each field of the list and no other id. */
  predicate Holds(m: map<u32, seq<byte>>, fields: Property) {
    && (forall i :: 0 <= i < |fields| ==> fields[i].id in m && m[fields[i].id] == fields[i].value)
    && (forall id :: id in m ==> exists i :: 0 <= i < |fields| && fields[i].id == id)
  }

  /** Collecting succeeds exactly on lists without a repeated id, and then holds the list. */
  lemma {:induction false} CollectsExactly(fields: Property)
    ensures Collected(fields).Some? <==> Distinct(fields)
    ensures Collected(fields).Some? ==> Holds(Collected(fields).value, fields)
  {
    if |fields| > 0 {
      var n := |fields| - 1;
      var before := fields[..n];
      CollectsExactly(before);
      if Collected(before).Some? {
        HoldsOneMore(Collected(before).value, before, fields[n]);
        assert fields == before + [fields[n]];
      }
    }
  }

  lemma HoldsOneMore(m: map<u32, seq<byte>>, before: Property, f: Field)
    requires Distinct(before) && Holds(m, before)
    ensures f.id !in m <==> Distinct(before + [f])
    ensures f.id !in m ==> Holds(m[f.id := f.value], before + [f])
  {
    var fields := before + [f];
    assert fields[|before|] == f;
    if f.id in m {
      var i :| 0 <= i < |before| && before[i].id == f.id;
      assert fields[i].id == fields[|before|].id;
    } else {
      var extended := m[f.id := f.value];
      forall id | id in extended
        ensures exists i :: 0 <= i < |fields| && fields[i].id == id
      {
        if id in m {
          var i :| 0 <= i < |before| && before[i].id == id;
          assert fields[i].id == id;
        }
      }
    }
  }

  predicate Ascending(fields: Property) {
    forall i :: 0 < i < |fields| ==> fields[i - 1].id < fields[i].id
  }

  lemma {:induction false} AscendingIsDistinct(fields: Property)
    requires Ascending(fields)
    ensures forall i, j :: 0 <= i < j < |fields| ==> fields[i].id < fields[j].id
    ensures Distinct(fields)
  {
    if |fields| > 0 {
      var n := |fields| - 1;
      AscendingIsDistinct(fields[..n]);
      forall i, j | 0 <= i < j < |fields|
        ensures fields[i].id < fields[j].id
      {
        if j == n && i < n - 1 {
          assert fields[..n][i].id < fields[..n][n - 1].id;
        } else if j < n {
          assert fields[..n][i].id < fields[..n][j].id;
        }
      }
    }
  }
}
