/** The 14-field request metadata as protobuf scalars, and the scanner that reads such bytes back
    (Protocol Buffers Encoding, "Base 128 Varints" and "Signed Integers"). */
module RequestMetadata {
  import opened Bytes
  import Runs
  import Varint

  const FIELDS: nat := 14
  const MAX_ITEMS: nat := 256
  const U64_LIMIT: nat := 0x1_0000_0000_0000_0000

  // ---- Encoding ----

  datatype OutOfRange = OutOfRange(field: nat)

  /** The raw bit patterns of fields 1 to 14. */
  type Metadata = f: seq<u64> | |f| == FIELDS witness seq(14, i => 0)

  predicate IsSigned(field: nat) {
    field in {2, 3, 4, 5, 7, 12}
  }

  const NARROW: seq<nat> := [2, 3, 4, 5, 7, 12, 13]

  /** The low 32 bits read as an int32 and sign-extended to 64. */
  function Extended(raw: u64): u64 {
    var low := raw % U32_LIMIT;
    if low < 0x8000_0000 then low else low + (U64_LIMIT - U32_LIMIT)
  }

  function WireValue(fields: Metadata, field: nat): u64
    requires 1 <= field <= FIELDS
  {
    if IsSigned(field) then Extended(fields[field - 1]) else fields[field - 1]
  }

  datatype Scalar = Scalar(number: nat, value: u64)

  /** The nonzero fields from `field` on, in order, signed ones extended. */
  function Present(fields: Metadata, field: nat): seq<Scalar>
    requires 1 <= field <= FIELDS + 1
    decreases FIELDS + 1 - field
  {
    if field > FIELDS then []
    else if fields[field - 1] == 0 then Present(fields, field + 1)
    else [Scalar(field, WireValue(fields, field))] + Present(fields, field + 1)
  }

  function ScalarWire(s: Scalar): seq<byte> {
    Varint.Encoded(s.number * 8) + Varint.Encoded(s.value)
  }

  function Pieces(scalars: seq<Scalar>): seq<seq<byte>> {
    seq(|scalars|, i requires 0 <= i < |scalars| => ScalarWire(scalars[i]))
  }

  predicate Narrow(fields: Metadata) {
    forall k :: 0 <= k < |NARROW| ==> fields[NARROW[k] - 1] < U32_LIMIT
  }

  /** The first of the narrow fields from the `i`-th on that is too wide. */
  function FirstWide(fields: Metadata, i: nat): Option<nat>
    requires i <= |NARROW|
    decreases |NARROW| - i
  {
    if i == |NARROW| then None
    else if fields[NARROW[i] - 1] >= U32_LIMIT then Some(NARROW[i])
    else FirstWide(fields, i + 1)
  }

  lemma {:induction false} NoneWideIsNarrow(fields: Metadata, i: nat)
    requires i <= |NARROW|
    ensures FirstWide(fields, i).None? <==> forall k :: i <= k < |NARROW| ==> fields[NARROW[k] - 1] < U32_LIMIT
    decreases |NARROW| - i
  {
    if i < |NARROW| {
      NoneWideIsNarrow(fields, i + 1);
    }
  }

  function Encoding(fields: Metadata): Result<seq<byte>, OutOfRange> {
    var wide := FirstWide(fields, 0);
    if wide.Some? then Err(OutOfRange(wide.value)) else Ok(Flatten(Pieces(Present(fields, 1))))
  }

  method Encode(fields: Metadata) returns (r: Result<seq<byte>, OutOfRange>)
    ensures r == Encoding(fields)
  {
    for i := 0 to |NARROW|
      invariant FirstWide(fields, 0) == FirstWide(fields, i)
    {
      if fields[NARROW[i] - 1] >= U32_LIMIT {
        return Err(OutOfRange(NARROW[i]));
      }
    }
    r := EncodePresent(fields);
  }

  method EncodePresent(fields: Metadata) returns (r: Result<seq<byte>, OutOfRange>)
    ensures r == Ok(Flatten(Pieces(Present(fields, 1))))
  {
    hide Varint.Encoded, Flatten, Pieces, Extended;
    var out: seq<byte> := [];
    ghost var whole := Flatten(Pieces(Present(fields, 1)));
    for index := 0 to FIELDS
      invariant whole == out + Flatten(Pieces(Present(fields, index + 1)))
    {
      var raw := fields[index];
      if raw != 0 {
        var field := index + 1;
        var value := if IsSigned(field) then Extended(raw) else raw;
        ghost var s, tail := Scalar(field, value), Present(fields, field + 1);
        PiecesCons(s, tail);
        Associate(out, ScalarWire(s), Flatten(Pieces(tail)));
        Associate(out, Varint.Encoded(field * 8), Varint.Encoded(value));
        out := Varint.Put(field * 8, out);
        out := Varint.Put(value, out);
      }
    }
    assert Flatten(Pieces([])) == [] by {
      NoPieces();
    }
    assert out + [] == out;
    r := Ok(out);
  }

  lemma NoPieces()
    ensures Flatten(Pieces([])) == []
  {
  }

  lemma PiecesCons(s: Scalar, tail: seq<Scalar>)
    ensures Flatten(Pieces([s] + tail)) == ScalarWire(s) + Flatten(Pieces(tail))
  {
    assert Pieces([s] + tail)[1..] == Pieces(tail);
  }

  // ---- Scanning ----

  datatype WireError =
    TruncatedVarint | VarintOverflow | FieldLimit | InvalidNumber | TruncatedField | UnsupportedType

  datatype Item =
    | Value(number: nat, value: nat)
    | Block(number: nat, kind: nat, bytes: seq<byte>)

  function Failure(r: Varint.Reading): WireError {
    if r.Truncated? then TruncatedVarint else VarintOverflow
  }

  /** One field at the front of `s`. */
  function ReadItem(s: seq<byte>): (r: Result<(Item, nat), WireError>)
    ensures r.Ok? ==> 1 <= r.value.1 <= |s|
  {
    var tag := Varint.Parsed(s, 10, 1);
    if !tag.Value? then Err(Failure(tag))
    else
      var number, kind := tag.value / 8, tag.value % 8;
      if !(0 < number < 0x2000_0000) then Err(InvalidNumber)
      else if kind == 0 then
        var value := Varint.Parsed(s[tag.used..], 10, 1);
        if !value.Value? then Err(Failure(value)) else Ok((Value(number, value.value), tag.used + value.used))
      else if kind == 1 then ReadBlock(s, tag.used, number, kind, 8)
      else if kind == 5 then ReadBlock(s, tag.used, number, kind, 4)
      else if kind == 2 then
        var length := Varint.Parsed(s[tag.used..], 10, 1);
        if !length.Value? then Err(Failure(length))
        else ReadBlock(s, tag.used + length.used, number, kind, length.value)
      else Err(UnsupportedType)
  }

  function ReadBlock(s: seq<byte>, start: nat, number: nat, kind: nat, length: nat):
    (r: Result<(Item, nat), WireError>)
    requires start <= |s|
    ensures r.Ok? ==> start <= r.value.1 <= |s|
  {
    if length > |s| - start then Err(TruncatedField)
    else Ok((Block(number, kind, s[start..start + length]), start + length))
  }

  function Items(): (read: Runs.Reader<Item, WireError>)
    ensures Runs.Advancing(read)
  {
    (s: seq<byte>) => ReadItem(s)
  }

  function Scanning(data: seq<byte>): Result<seq<Item>, WireError> {
    Runs.ReadAll(Items(), data, 0, MAX_ITEMS, FieldLimit)
  }

  method WireFields(data: seq<byte>) returns (r: Result<seq<Item>, WireError>)
    ensures r == Scanning(data)
  {
    hide Varint.Parsed, Runs.ReadAll;
    var position: nat, fields: seq<Item> := 0, [];
    ghost var room := MAX_ITEMS;
    Runs.JoinNothing(Scanning(data));
    while position < |data|
      invariant 0 <= position <= |data| && room == MAX_ITEMS - |fields|
      invariant Scanning(data) == Runs.Joined(fields, Runs.ReadAll(Items(), data, position, room, FieldLimit))
      decreases |data| - position
    {
      if |fields| >= MAX_ITEMS {
        NoRoom(data, position, fields);
        return Err(FieldLimit);
      }
      Runs.OneMoreOfAll(Items(), data, position, room, FieldLimit, fields);
      var item, end := ScanItem(data, position);
      if item.Err? {
        return Err(item.error);
      }
      fields, position, room := fields + [item.value], end, room - 1;
    }
    AtTheEnd(data, room, fields);
    r := Ok(fields);
  }

  lemma NoRoom(data: seq<byte>, position: nat, fields: seq<Item>)
    requires position < |data|
    ensures Runs.Joined(fields, Runs.ReadAll(Items(), data, position, 0, FieldLimit)) == Err(FieldLimit)
  {
  }

  lemma AtTheEnd(data: seq<byte>, room: nat, fields: seq<Item>)
    ensures Runs.Joined(fields, Runs.ReadAll(Items(), data, |data|, room, FieldLimit)) == Ok(fields)
  {
    assert fields + [] == fields;
  }

  method ScanItem(data: seq<byte>, start: nat) returns (r: Result<Item, WireError>, position: nat)
    requires start <= |data|
    ensures var i := ReadItem(data[start..]);
      && (i.Err? ==> r == Err(i.error))
      && (i.Ok? ==> r == Ok(i.value.0) && position == start + i.value.1)
  {
    hide Varint.Parsed;
    ghost var s := data[start..];
    var tag;
    tag, position := Varint.Read(data, start, 10, 1);
    if !tag.Value? {
      return Err(Failure(tag)), position;
    }
    var number, kind := tag.value / 8, tag.value % 8;
    if !(0 < number < 0x2000_0000) {
      return Err(InvalidNumber), position;
    }
    assert s[tag.used..] == data[position..];
    if kind == 0 {
      var value;
      value, position := Varint.Read(data, position, 10, 1);
      if !value.Value? {
        return Err(Failure(value)), position;
      }
      return Ok(Value(number, value.value)), position;
    }
    if kind != 1 && kind != 2 && kind != 5 {
      return Err(UnsupportedType), position;
    }
    var length := if kind == 1 then 8 else 4;
    if kind == 2 {
      var read;
      read, position := Varint.Read(data, position, 10, 1);
      if !read.Value? {
        return Err(Failure(read)), position;
      }
      length := read.value;
    }
    if length > |data| - position {
      return Err(TruncatedField), position;
    }
    SliceBehind(data, start, position - start, position - start + length);
    return Ok(Block(number, kind, data[position..position + length])), position + length;
  }

  lemma ItemsAreLocal(s: seq<byte>, k: nat, rest: seq<byte>)
    requires ReadItem(s).Ok? && ReadItem(s).value.1 <= k <= |s|
    ensures ReadItem(s[..k] + rest) == ReadItem(s)
  {
    hide Varint.Parsed;
    var tag := Varint.Parsed(s, 10, 1);
    Varint.OwnBytesOnly(s, 10, 1, k, rest);
    CutFrom(s, tag.used, k, rest);
    var kind := tag.value % 8;
    if kind == 0 || kind == 2 {
      Varint.OwnBytesOnly(s[tag.used..], 10, 1, k - tag.used, rest);
    }
    if kind != 0 {
      var end := ReadItem(s).value.1;
      var start := end - |ReadItem(s).value.0.bytes|;
      SliceKept(s, k, rest, start, end);
    }
  }

  /** A field by its wire type, as "Message Structure" of Protocol Buffers Encoding lays them out: a varint, eight
      bytes, a length and as many bytes, or four bytes, behind a tag with a number of 29 bits, and nothing else. */
  lemma ItemExactly(s: seq<byte>, item: Item, used: nat)
    ensures var tag := Varint.Parsed(s, 10, 1);
      ReadItem(s) == Ok((item, used)) <==>
        && tag.Value? && 1 <= tag.value / 8 <= 0x1fff_ffff
        && var number, rest := tag.value / 8, s[tag.used..];
           var first := Varint.Parsed(rest, 10, 1);
           match tag.value % 8
           case 0 => first.Value? && item == Value(number, first.value) && used == tag.used + first.used
           case 1 => |rest| >= 8 && item == Block(number, 1, rest[..8]) && used == tag.used + 8
           case 2 =>
             && first.Value? && |rest| >= first.used + first.value
             && item == Block(number, 2, rest[first.used..first.used + first.value])
             && used == tag.used + first.used + first.value
           case 5 => |rest| >= 4 && item == Block(number, 5, rest[..4]) && used == tag.used + 4
           case _ => false
  {
    hide Varint.Parsed;
    var tag := Varint.Parsed(s, 10, 1);
    if tag.Value? {
      var rest := s[tag.used..];
      var first := Varint.Parsed(rest, 10, 1);
      if |rest| >= 8 { SliceBehind(s, tag.used, 0, 8); }
      if |rest| >= 4 { SliceBehind(s, tag.used, 0, 4); }
      if first.Value? && |rest| >= first.used + first.value {
        SliceBehind(s, tag.used, first.used, first.used + first.value);
      }
    }
  }

  /** Which of the two ways a varint can be wrong is what a scan reports. */
  lemma BadTag(s: seq<byte>)
    ensures Varint.Parsed(s, 10, 1).Truncated? ==> ReadItem(s) == Err(TruncatedVarint)
    ensures Varint.Parsed(s, 10, 1).Overflow? ==> ReadItem(s) == Err(VarintOverflow)
  {
    hide Varint.Parsed;
  }

  lemma ItemReaderIsLocal(limit: nat)
    ensures Runs.Local(Items(), limit)
  {
    hide ReadItem;
    forall s: seq<byte>, k: nat, rest: seq<byte> | ReadItem(s).Ok? && ReadItem(s).value.1 <= k <= |s|
      ensures ReadItem(s[..k] + rest) == ReadItem(s)
    {
      ItemsAreLocal(s, k, rest);
    }
  }

  /** The scanner accepts exactly the concatenations of at most 256 whole fields. */
  lemma ScansExactly(data: seq<byte>, items: seq<Item>)
    ensures Scanning(data) == Ok(items) <==>
      |items| <= MAX_ITEMS
      && exists pieces: seq<seq<byte>> :: Runs.Laid(Items(), pieces, items) && data == Flatten(pieces)
  {
    hide Items, Runs.Laid, Flatten, Runs.ReadAll;
    ItemReaderIsLocal(|data|);
    Runs.ReadsAllExactly(Items(), data, MAX_ITEMS, FieldLimit, items);
  }

  // ---- The two together ----

  lemma U64Fits(value: nat)
    requires value < U64_LIMIT
    ensures Varint.Fits(value, 10, 1)
    ensures |Varint.Encoded(value)| <= 10
  {
    var d1 := value / 128;
    var d2 := d1 / 128;
    var d3 := d2 / 128;
    var d4 := d3 / 128;
    var d5 := d4 / 128;
    var d6 := d5 / 128;
    var d7 := d6 / 128;
    var d8 := d7 / 128;
    var d9 := d8 / 128;
    assert d9 <= 1;
    assert Varint.Fits(d9, 1, 1);
    assert Varint.Fits(d8, 2, 1);
    assert Varint.Fits(d7, 3, 1);
    assert Varint.Fits(d6, 4, 1);
    assert Varint.Fits(d5, 5, 1);
    assert Varint.Fits(d4, 6, 1);
    assert Varint.Fits(d3, 7, 1);
    assert Varint.Fits(d2, 8, 1);
    assert Varint.Fits(d1, 9, 1);
    Varint.NoLongerThanWidth(value, 10, 1);
  }

  function ItemOf(s: Scalar): Item {
    Value(s.number, s.value)
  }

  lemma ScalarIsWhole(s: Scalar)
    requires 1 <= s.number <= FIELDS
    ensures Runs.Whole(Items(), ScalarWire(s), ItemOf(s))
    ensures |ScalarWire(s)| <= 11
  {
    hide Varint.Parsed, Varint.Fits, Varint.Encoded;
    var tag, number := Varint.Encoded(s.number * 8), Varint.Encoded(s.value);
    U64Fits(s.number * 8);
    U64Fits(s.value);
    Varint.RoundTrip(s.number * 8, 10, 1, number);
    Varint.RoundTrip(s.value, 10, 1, []);
    StepOver(ScalarWire(s), 0, tag, number);
    assert number + [] == number;
    assert |number| <= 10;
    SmallTag(s.number);
  }

  lemma SmallTag(number: nat)
    requires number <= FIELDS
    ensures |Varint.Encoded(number * 8)| == 1
  {
  }

  /** What `Present` lists: the nonzero fields and no others, ascending, each with its wire value. */
  lemma {:induction false} PresentExactly(fields: Metadata, field: nat)
    requires 1 <= field <= FIELDS + 1
    ensures forall s :: s in Present(fields, field) <==>
      field <= s.number <= FIELDS && fields[s.number - 1] != 0 && s.value == WireValue(fields, s.number)
    ensures |Present(fields, field)| <= FIELDS + 1 - field
    decreases FIELDS + 1 - field
  {
    if field <= FIELDS {
      PresentExactly(fields, field + 1);
    }
  }

  lemma {:induction false} PresentAscends(fields: Metadata, field: nat)
    requires 1 <= field <= FIELDS + 1
    ensures forall i :: 0 < i < |Present(fields, field)| ==>
      Present(fields, field)[i - 1].number < Present(fields, field)[i].number
    decreases FIELDS + 1 - field
  {
    if field <= FIELDS {
      PresentAscends(fields, field + 1);
      PresentExactly(fields, field + 1);
      var tail := Present(fields, field + 1);
      assert |tail| > 0 ==> tail[0] in tail;
    }
  }

  lemma {:induction false} FlattenBound(pieces: seq<seq<byte>>, each: nat)
    requires forall i :: 0 <= i < |pieces| ==> |pieces[i]| <= each
    ensures |Flatten(pieces)| <= |pieces| * each
  {
    if |pieces| > 0 {
      FlattenBound(pieces[1..], each);
    }
  }

  /** What the scanner returns for an encoding. */
  function Expected(fields: Metadata): seq<Item> {
    var present := Present(fields, 1);
    seq(|present|, i requires 0 <= i < |present| => ItemOf(present[i]))
  }

  lemma ScanIsExpected(fields: Metadata)
    requires Encoding(fields).Ok?
    ensures |Encoding(fields).value| <= 154
    ensures Scanning(Encoding(fields).value) == Ok(Expected(fields))
  {
    hide Items, ScalarWire, Flatten, Scanning, Runs.Whole, Present;
    PresentExactly(fields, 1);
    var present := Present(fields, 1);
    var pieces := Pieces(present);
    forall i | 0 <= i < |present|
      ensures Runs.Whole(Items(), pieces[i], Expected(fields)[i]) && |pieces[i]| <= 11
    {
      assert present[i] in present;
      ScalarIsWhole(present[i]);
    }
    ScansExactly(Encoding(fields).value, Expected(fields));
    FlattenBound(pieces, 11);
  }

  /** What is sent for a field: a signed one is a 32-bit number extended to 64. */
  ghost function Sent(fields: Metadata, field: nat): nat
    requires 1 <= field <= 14
  {
    var raw: nat := fields[field - 1];
    if field in {2, 3, 4, 5, 7, 12} && raw >= 0x8000_0000 then raw + 0xffff_ffff_0000_0000 else raw
  }

  lemma SentIsWireValue(fields: Metadata, field: nat)
    requires Narrow(fields) && 1 <= field <= 14
    ensures WireValue(fields, field) == Sent(fields, field)
  {
    if IsSigned(field) {
      SignedIsNarrow(fields, field);
    }
  }

  /** Scanning what was encoded returns exactly the nonzero fields, ascending, the signed ones extended;
      and the encoding never exceeds the 154 bytes reserved for it. */
  lemma ScansEncoding(fields: Metadata)
    requires Encoding(fields).Ok?
    ensures |Encoding(fields).value| <= 154
    ensures Scanning(Encoding(fields).value) == Ok(Expected(fields))
    ensures forall i :: 0 < i < |Expected(fields)| ==> Expected(fields)[i - 1].number < Expected(fields)[i].number
    ensures forall item: Item :: item in Expected(fields) <==>
      && item.Value? && 1 <= item.number <= 14 && fields[item.number - 1] != 0
      && item.value == Sent(fields, item.number)
  {
    hide Expected, Encoding, Scanning, Narrow, WireValue;
    ScanIsExpected(fields);
    ExpectedExactly(fields);
    RefusesOnlyWide(fields);
    forall field | 1 <= field <= 14
      ensures WireValue(fields, field) == Sent(fields, field)
    {
      SentIsWireValue(fields, field);
    }
  }

  lemma ExpectedExactly(fields: Metadata)
    ensures forall i :: 0 < i < |Expected(fields)| ==> Expected(fields)[i - 1].number < Expected(fields)[i].number
    ensures forall item: Item :: item in Expected(fields) <==>
      && item.Value? && 1 <= item.number <= FIELDS && fields[item.number - 1] != 0
      && item.value == WireValue(fields, item.number)
  {
    hide Present;
    PresentExactly(fields, 1);
    PresentAscends(fields, 1);
    var present, expected := Present(fields, 1), Expected(fields);
    forall item: Item
      ensures item in expected <==>
        && item.Value? && 1 <= item.number <= FIELDS && fields[item.number - 1] != 0
        && item.value == WireValue(fields, item.number)
    {
      if item in expected {
        var i :| 0 <= i < |expected| && expected[i] == item;
        assert present[i] in present;
      }
      if item.Value? && 1 <= item.number <= FIELDS && fields[item.number - 1] != 0 {
        var s := Scalar(item.number, WireValue(fields, item.number));
        assert s in present;
        var i :| 0 <= i < |present| && present[i] == s;
        assert expected[i] in expected;
      }
    }
  }

  lemma ExtendedInjective(x: u64, y: u64)
    requires x < U32_LIMIT && y < U32_LIMIT && Extended(x) == Extended(y)
    ensures x == y
  {
  }

  lemma SignedIsNarrow(fields: Metadata, field: nat)
    requires Narrow(fields) && IsSigned(field)
    ensures fields[field - 1] < U32_LIMIT
  {
    assert field in NARROW;
    var k :| 0 <= k < |NARROW| && NARROW[k] == field;
  }

  /** What was sent for a field can be told from the scanned items. */
  lemma FieldDetermined(f: Metadata, g: Metadata, field: nat)
    requires Narrow(f) && Narrow(g) && Expected(f) == Expected(g) && 1 <= field <= FIELDS
    requires f[field - 1] != 0
    ensures f[field - 1] == g[field - 1]
  {
    hide Present, Extended, Narrow;
    PresentExactly(f, 1);
    PresentExactly(g, 1);
    var s := Scalar(field, WireValue(f, field));
    assert s in Present(f, 1);
    var i :| 0 <= i < |Present(f, 1)| && Present(f, 1)[i] == s;
    assert Expected(f)[i] == ItemOf(s) == Expected(g)[i];
    var t := Present(g, 1)[i];
    assert t in Present(g, 1) && t.number == field && t.value == s.value;
    if IsSigned(field) {
      SignedIsNarrow(f, field);
      SignedIsNarrow(g, field);
      ExtendedInjective(f[field - 1], g[field - 1]);
    }
  }

  lemma ScansAlike(f: Metadata, g: Metadata)
    requires Encoding(f).Ok? && Encoding(f) == Encoding(g)
    ensures Narrow(f) && Narrow(g) && Expected(f) == Expected(g)
  {
    hide Expected, Scanning, Narrow, Encoding;
    ScansEncoding(f);
    ScansEncoding(g);
    RefusesOnlyWide(f);
    RefusesOnlyWide(g);
  }

  /** Two metadata arrays never share an encoding. */
  lemma EncodingInjective(f: Metadata, g: Metadata)
    requires Encoding(f).Ok? && Encoding(f) == Encoding(g)
    ensures f == g
  {
    hide Expected, Scanning, Narrow, Encoding;
    ScansAlike(f, g);
    forall i | 0 <= i < FIELDS
      ensures f[i] == g[i]
    {
      if f[i] != 0 {
        FieldDetermined(f, g, i + 1);
      } else if g[i] != 0 {
        FieldDetermined(g, f, i + 1);
      }
    }
  }

  /** Only a field too wide for its type is refused, and the first such field is named. */
  lemma RefusesOnlyWide(fields: Metadata)
    ensures Encoding(fields).Ok? <==> Narrow(fields)
    ensures Encoding(fields).Ok? <==>
      && fields[1] < 0x1_0000_0000 && fields[2] < 0x1_0000_0000 && fields[3] < 0x1_0000_0000
      && fields[4] < 0x1_0000_0000 && fields[6] < 0x1_0000_0000 && fields[11] < 0x1_0000_0000
      && fields[12] < 0x1_0000_0000
    ensures Encoding(fields).Err? ==>
      exists k :: 0 <= k < |NARROW| && Encoding(fields).error.field == NARROW[k]
        && fields[NARROW[k] - 1] >= U32_LIMIT && forall j :: 0 <= j < k ==> fields[NARROW[j] - 1] < U32_LIMIT
  {
    NoneWideIsNarrow(fields, 0);
    FirstWideIsFirst(fields, 0);
    NarrowExactly(fields);
    hide Narrow;
  }

  lemma NarrowExactly(fields: Metadata)
    ensures Narrow(fields) <==>
      && fields[1] < 0x1_0000_0000 && fields[2] < 0x1_0000_0000 && fields[3] < 0x1_0000_0000
      && fields[4] < 0x1_0000_0000 && fields[6] < 0x1_0000_0000 && fields[11] < 0x1_0000_0000
      && fields[12] < 0x1_0000_0000
  {
    assert NARROW[0] == 2 && NARROW[1] == 3 && NARROW[2] == 4 && NARROW[3] == 5 && NARROW[4] == 7 && NARROW[5] == 12
      && NARROW[6] == 13 && |NARROW| == 7;
  }

  lemma {:induction false} FirstWideIsFirst(fields: Metadata, i: nat)
    requires i <= |NARROW|
    ensures FirstWide(fields, i).Some? ==>
      exists k :: i <= k < |NARROW| && FirstWide(fields, i) == Some(NARROW[k]) && fields[NARROW[k] - 1] >= U32_LIMIT
        && forall j :: i <= j < k ==> fields[NARROW[j] - 1] < U32_LIMIT
    decreases |NARROW| - i
  {
    if i < |NARROW| && fields[NARROW[i] - 1] < U32_LIMIT {
      FirstWideIsFirst(fields, i + 1);
    }
  }
}
