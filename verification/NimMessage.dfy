/** NIM notifications and requests: message lists, recalls, synchronisation, acknowledgements, the mute
    roster and delivery receipts. Strings are the UTF-8 bytes they are. */
module NimMessage {
  import opened Bytes
  import opened NimHeader
  import NimProperty
  import Runs
  import Text
  import Varint

  const MAX_BYTES: usize := 0x10_0000
  const MAX_MESSAGES: nat := 1024
  const MAX_FIELDS: usize := 128
  const MAX_MUTED: nat := 100000

  datatype Error = Malformed | Limit | Unsupported | Rejected(code: u16)

  datatype Scene = Private | Group

  datatype Message = Message(
    scene: Scene, to: Text.Utf8, from: Text.Utf8, nickname: Text.Utf8, time: u64, kind: u32,
    body: Text.Utf8, attachment: Text.Utf8, clientId: Text.Utf8, serverId: Text.Utf8)

  datatype Event =
    | Messages(messages: seq<Message>)
    | Recalled(target: Text.Utf8, serverId: Text.Utf8)
    | SyncDone(cursor: nat)
    | Unhandled(service: byte, command: byte)

  // ---- One message ----

  /** The string under `id`, empty when absent; None when it is not UTF-8. */
  function Str(values: map<u32, seq<byte>>, id: u32): Option<Text.Utf8> {
    var v := if id in values then values[id] else [];
    if Text.Valid(v) then Some(v) else None
  }

  function Num(values: map<u32, seq<byte>>, id: u32, limit: nat): Option<nat> {
    var s := Str(values, id);
    if s.None? then None else Text.ParseUnsigned(s.value, limit)
  }

  function SceneOf(values: map<u32, seq<byte>>): Result<Scene, Error> {
    var s := Str(values, 0);
    if s.None? then Err(Malformed)
    else if s.value == [48] then Ok(Private)
    else if s.value == [49] then Ok(Group)
    else Err(Unsupported)
  }

  function MessageIn(values: map<u32, seq<byte>>): Result<Message, Error> {
    var scene :- SceneOf(values);
    var to, from, nickname := Str(values, 1), Str(values, 2), Str(values, 6);
    var time, kind := Num(values, 7, 0x1_0000_0000_0000_0000), Num(values, 8, U32_LIMIT);
    var body, attachment, clientId, serverId := Str(values, 9), Str(values, 10), Str(values, 11), Str(values, 12);
    if to.None? || from.None? || nickname.None? || time.None? || kind.None? || body.None? || attachment.None?
       || clientId.None? || serverId.None? then Err(Malformed)
    else if to.value == [] || from.value == [] || serverId.value == [] then Err(Malformed)
    else Ok(Message(scene, to.value, from.value, nickname.value, time.value, kind.value,
                    body.value, attachment.value, clientId.value, serverId.value))
  }

  function MessageOf(fields: NimProperty.Property): Result<Message, Error> {
    var values := NimProperty.Collected(fields);
    if values.None? then Err(Malformed) else MessageIn(values.value)
  }

  /** The fields as an ordered map; stops at the first repeated id. */
  method Collect(fields: NimProperty.Property) returns (r: Option<map<u32, seq<byte>>>)
    ensures r == NimProperty.Collected(fields)
  {
    var values: map<u32, seq<byte>> := map[];
    for i := 0 to |fields|
      invariant NimProperty.Collected(fields[..i]) == Some(values)
    {
      assert fields[..i + 1][..i] == fields[..i];
      var f := fields[i];
      if f.id in values {
        RepeatedStays(fields, i + 1);
        return None;
      }
      values := values[f.id := f.value];
    }
    assert fields[..|fields|] == fields;
    r := Some(values);
  }

  lemma {:induction false} RepeatedStays(fields: NimProperty.Property, n: nat)
    requires n <= |fields| && NimProperty.Collected(fields[..n]).None?
    ensures NimProperty.Collected(fields).None?
    decreases |fields| - n
  {
    if n == |fields| {
      assert fields[..n] == fields;
    } else {
      assert fields[..n + 1][..n] == fields[..n];
      RepeatedStays(fields, n + 1);
    }
  }

  method ParseMessage(fields: NimProperty.Property) returns (r: Result<Message, Error>)
    ensures r == MessageOf(fields)
  {
    var values := Collect(fields);
    r := if values.None? then Err(Malformed) else MessageIn(values.value);
  }

  /** A message in the fields the peer sends it in. */
  function MessageFields(m: Message): NimProperty.Property {
    [NimProperty.Field(0, if m.scene == Group then [49] else [48]), NimProperty.Field(1, m.to),
     NimProperty.Field(2, m.from), NimProperty.Field(6, m.nickname), NimProperty.Field(7, Text.Decimal(m.time)),
     NimProperty.Field(8, Text.Decimal(m.kind)), NimProperty.Field(9, m.body), NimProperty.Field(10, m.attachment),
     NimProperty.Field(11, m.clientId), NimProperty.Field(12, m.serverId)]
  }

  predicate Entry(values: map<u32, seq<byte>>, id: u32, value: seq<byte>) {
    id in values && values[id] == value
  }

  predicate Entries(values: map<u32, seq<byte>>, m: Message) {
    && Entry(values, 0, if m.scene == Group then [49] else [48]) && Entry(values, 1, m.to)
    && Entry(values, 2, m.from) && Entry(values, 6, m.nickname) && Entry(values, 7, Text.Decimal(m.time))
    && Entry(values, 8, Text.Decimal(m.kind)) && Entry(values, 9, m.body) && Entry(values, 10, m.attachment)
    && Entry(values, 11, m.clientId) && Entry(values, 12, m.serverId)
  }

  lemma HeldEntry(values: map<u32, seq<byte>>, fields: NimProperty.Property, i: nat)
    requires NimProperty.Holds(values, fields) && i < |fields|
    ensures Entry(values, fields[i].id, fields[i].value)
  {
  }

  lemma FieldsCollect(m: Message)
    ensures NimProperty.Collected(MessageFields(m)).Some?
    ensures NimProperty.Holds(NimProperty.Collected(MessageFields(m)).value, MessageFields(m))
  {
    hide Text.Valid, Text.Decimal, NimProperty.Collected, NimProperty.Holds;
    var fields := MessageFields(m);
    assert NimProperty.Ascending(fields);
    NimProperty.AscendingIsDistinct(fields);
    NimProperty.CollectsExactly(fields);
  }

  lemma FieldsHoldEntries(m: Message)
    ensures NimProperty.Collected(MessageFields(m)).Some?
    ensures Entries(NimProperty.Collected(MessageFields(m)).value, m)
  {
    hide Text.Valid, Text.Decimal, NimProperty.Collected, NimProperty.Holds, Entry;
    FieldsCollect(m);
    var fields := MessageFields(m);
    var values := NimProperty.Collected(fields).value;
    HeldEntry(values, fields, 0);
    HeldEntry(values, fields, 1);
    HeldEntry(values, fields, 2);
    HeldEntry(values, fields, 3);
    HeldEntry(values, fields, 4);
    HeldEntry(values, fields, 5);
    HeldEntry(values, fields, 6);
    HeldEntry(values, fields, 7);
    HeldEntry(values, fields, 8);
    HeldEntry(values, fields, 9);
  }

  /** A message sent in its own fields is the message received. */
  lemma MessageReadsBack(m: Message)
    requires m.to != [] && m.from != [] && m.serverId != []
    ensures MessageOf(MessageFields(m)) == Ok(m)
  {
    hide Text.Valid, Text.Decimal, Text.ParseUnsigned, NimProperty.Collected, MessageFields;
    FieldsHoldEntries(m);
    Text.DecimalRoundTrip(m.time, 0x1_0000_0000_0000_0000);
    Text.DecimalRoundTrip(m.kind, U32_LIMIT);
    ScenesAreText();
  }

  lemma ScenesAreText()
    ensures Text.Valid([48]) && Text.Valid([49])
  {
    Text.AsciiIsValid([48]);
    Text.AsciiIsValid([49]);
  }

  // ---- Notifications ----

  /** One message at the front of `s`. */
  function ReadMessage(s: seq<byte>): (r: Result<(Message, nat), Error>)
    ensures r.Ok? ==> r.value.1 <= |s|
  {
    var p := NimProperty.Decoding(s, MAX_FIELDS, MAX_BYTES);
    if p.Err? then Err(Malformed)
    else
      var m :- MessageOf(p.value.0);
      Ok((m, p.value.1))
  }

  function MessageReader(): (read: Runs.Reader<Message, Error>)
    ensures Runs.Honest(read)
  {
    (s: seq<byte>) => ReadMessage(s)
  }

  lemma MessageReaderIsLocal()
    ensures Runs.Local(MessageReader(), MAX_BYTES)
  {
    hide NimProperty.Decoding, MessageOf;
    forall s: seq<byte>, k: nat, rest: seq<byte> |
      ReadMessage(s).Ok? && ReadMessage(s).value.1 <= k <= |s| && |s[..k] + rest| <= MAX_BYTES
      ensures ReadMessage(s[..k] + rest) == ReadMessage(s)
    {
      NimProperty.OwnBytesOnly(s, MAX_FIELDS, MAX_BYTES, k, rest);
    }
  }

  predicate IsWrapper(h: Header) {
    h.service == 4 && h.command in {1, 2, 10, 11}
  }

  predicate IsSingle(h: Header) {
    (h.service == 7 && h.command in {2, 101}) || (h.service == 8 && h.command in {3, 102})
  }

  predicate IsCounted(h: Header) {
    (h.service == 4 && h.command in {4, 9}) || (h.service == 8 && h.command == 4)
  }

  function ReadMessages(body: seq<byte>, start: nat, count: nat): Result<Event, Error>
    requires start <= |body|
  {
    if count > MAX_MESSAGES then Err(Limit)
    else
      var run := Runs.ReadRun(MessageReader(), body, start, count);
      if run.Err? then Err(run.error)
      else if run.value.1 != |body| then Err(Malformed)
      else Ok(Messages(run.value.0))
  }

  function ReadRecall(body: seq<byte>): Result<Event, Error> {
    var p := NimProperty.Decoding(body, MAX_FIELDS, MAX_BYTES);
    if p.Err? || p.value.1 != |body| then Err(Malformed)
    else
      var data := NimProperty.Collected(p.value.0);
      if data.None? then Err(Malformed) else RecallIn(data.value)
  }

  function RecallIn(data: map<u32, seq<byte>>): Result<Event, Error> {
    if 1 !in data || data[1] != [56] then Err(Unsupported)
    else if 2 !in data || !Text.Valid(data[2]) || 11 !in data || !Text.Valid(data[11]) then Err(Malformed)
    else if data[2] == [] || Positive(data[11]).None? then Err(Malformed)
    else Ok(Recalled(data[2], data[11]))
  }

  /** A decimal u64 other than zero. */
  function Positive(s: seq<byte>): Option<nat> {
    var n := Text.ParseUnsigned(s, 0x1_0000_0000_0000_0000);
    if n.Some? && n.value > 0 then n else None
  }

  /** Every route but the wrapping ones. */
  function Plain(p: Packet): Result<Event, Error> {
    var h := p.header;
    if h.service == 7 && h.command == 14 then ReadRecall(p.body)
    else if h.service == 5 && h.command == 1 then
      if |p.body| == 8 then Ok(SyncDone(FromLittle(p.body))) else Err(Malformed)
    else if IsSingle(h) then ReadMessages(p.body, 0, 1)
    else if IsCounted(h) then
      var count := Varint.Parsed(p.body, 5, 15);
      if count.Value? then ReadMessages(p.body, count.used, count.value) else Err(Malformed)
    else Ok(Unhandled(h.service, h.command))
  }

  function Decoding(p: Packet): Result<Event, Error>
    decreases |p.body|
  {
    if |p.body| > MAX_BYTES then Err(Limit)
    else if p.header.responseCode != 200 then Err(Rejected(p.header.responseCode))
    else if IsWrapper(p.header) then
      if |p.body| < 8 then Err(Malformed)
      else
        var inner := Splitting(p.body[8..], MAX_BYTES);
        if inner.Err? || inner.value.header.service == 4 then Err(Malformed)
        else Decoding(inner.value)
    else Plain(p)
  }

  method Decode(p: Packet) returns (r: Result<Event, Error>)
    ensures r == Decoding(p)
    decreases |p.body|
  {
    if |p.body| > MAX_BYTES {
      return Err(Limit);
    }
    if p.header.responseCode != 200 {
      return Err(Rejected(p.header.responseCode));
    }
    var h := p.header;
    if IsWrapper(h) {
      if |p.body| < 8 {
        return Err(Malformed);
      }
      var inner := DecodeMessage(p.body[8..], MAX_BYTES);
      if inner.Err? || inner.value.header.service == 4 {
        return Err(Malformed);
      }
      r := Decode(inner.value);
      return;
    }
    if h.service == 7 && h.command == 14 {
      r := DecodeRecall(p.body);
      return;
    }
    if h.service == 5 && h.command == 1 {
      return if |p.body| == 8 then Ok(SyncDone(FromLittle(p.body))) else Err(Malformed);
    }
    var offset, count := 0, 1;
    if IsCounted(h) {
      assert p.body[0..] == p.body;
      var n;
      n, offset := Varint.Read(p.body, 0, 5, 15);
      if !n.Value? {
        return Err(Malformed);
      }
      count := n.value;
    } else if !IsSingle(h) {
      return Ok(Unhandled(h.service, h.command));
    }
    r := DecodeMessages(p.body, offset, count);
  }

  method DecodeRecall(body: seq<byte>) returns (r: Result<Event, Error>)
    ensures r == ReadRecall(body)
  {
    var p := NimProperty.Decode(body, MAX_FIELDS, MAX_BYTES);
    if p.Err? || p.value.1 != |body| {
      return Err(Malformed);
    }
    var data := Collect(p.value.0);
    r := if data.None? then Err(Malformed) else RecallIn(data.value);
  }

  method DecodeMessages(body: seq<byte>, start: nat, count: nat) returns (r: Result<Event, Error>)
    requires start <= |body|
    ensures r == ReadMessages(body, start, count)
  {
    hide NimProperty.Decoding, MessageOf, Runs.ReadRun, Runs.Prepended;
    if count > MAX_MESSAGES {
      return Err(Limit);
    }
    var offset, messages := start, [];
    ghost var whole := Runs.ReadRun(MessageReader(), body, start, count);
    Runs.PrependNothing(whole);
    for i := 0 to count
      invariant 0 <= offset <= |body|
      invariant whole == Runs.Prepended(messages, Runs.ReadRun(MessageReader(), body, offset, count - i))
    {
      Runs.OneMore(MessageReader(), body, offset, count - i, messages);
      var p := NimProperty.Decode(body[offset..], MAX_FIELDS, MAX_BYTES);
      if p.Err? {
        return Err(Malformed);
      }
      offset := offset + p.value.1;
      var m := ParseMessage(p.value.0);
      if m.Err? {
        return Err(m.error);
      }
      messages := messages + [m.value];
    }
    Runs.NoMore(MessageReader(), body, offset, messages);
    if offset != |body| {
      return Err(Malformed);
    }
    r := Ok(Messages(messages));
  }

  /** What the list routes accept: `items` laid end to end in the whole rest of the body. */
  ghost predicate LaidFrom(body: seq<byte>, start: nat, items: seq<Message>) {
    exists pieces: seq<seq<byte>> ::
      Runs.Laid(MessageReader(), pieces, items) && start <= |body| && body[start..] == Flatten(pieces)
  }

  /** A message list is accepted exactly when its body is that many messages laid end to end and nothing
      else, so every missing or extra byte is refused. */
  lemma ReadsMessagesExactly(body: seq<byte>, start: nat, items: seq<Message>)
    requires start <= |body| <= MAX_BYTES
    ensures ReadMessages(body, start, |items|) == Ok(Messages(items)) <==>
      |items| <= MAX_MESSAGES && LaidFrom(body, start, items)
  {
    hide ReadMessage, Runs.Laid, Flatten;
    MessageReaderIsLocal();
    Runs.ReadsExactly(MessageReader(), body, start, items, MAX_BYTES);
  }

  /** The counted notifications: the varint number of messages, then exactly those messages in order. */
  lemma CountedExactly(p: Packet, items: seq<Message>)
    requires (p.header.service, p.header.command) in {(4, 4), (4, 9), (8, 4)}
    requires p.header.responseCode == 200 && |p.body| <= 0x10_0000
    ensures Decoding(p) == Ok(Messages(items)) <==>
      var count := Varint.Parsed(p.body, 5, 15);
      count.Value? && count.value == |items| && |items| <= MAX_MESSAGES && LaidFrom(p.body, count.used, items)
  {
    hide LaidFrom, Runs.ReadRun;
    var count := Varint.Parsed(p.body, 5, 15);
    if count.Value? {
      ReadsMessagesExactly(p.body, count.used, items);
      if count.value != |items| {
        var run := Runs.ReadRun(MessageReader(), p.body, count.used, count.value);
        assert run.Ok? ==> |run.value.0| == count.value;
      }
    }
  }

  lemma SingleExactly(p: Packet, items: seq<Message>)
    requires (p.header.service, p.header.command) in {(7, 2), (7, 101), (8, 3), (8, 102)}
    requires p.header.responseCode == 200 && |p.body| <= 0x10_0000
    ensures Decoding(p) == Ok(Messages(items)) <==> |items| == 1 && LaidFrom(p.body, 0, items)
  {
    hide LaidFrom, Runs.ReadRun;
    ReadsMessagesExactly(p.body, 0, items);
    var run := Runs.ReadRun(MessageReader(), p.body, 0, 1);
    assert run.Ok? ==> |run.value.0| == 1;
  }

  /** Messages sent behind their count are received as they are; with any byte more the packet is malformed. */
  lemma CountedReadsBack(p: Packet, pieces: seq<seq<byte>>, items: seq<Message>, extra: seq<byte>)
    requires (p.header.service, p.header.command) in {(4, 4), (4, 9), (8, 4)}
    requires p.header.responseCode == 200 && |p.body| <= 0x10_0000
    requires |items| <= MAX_MESSAGES && Runs.Laid(MessageReader(), pieces, items)
    requires p.body == Varint.Encoded(|items|) + (Flatten(pieces) + extra)
    ensures Decoding(p) == if extra == [] then Ok(Messages(items)) else Err(Malformed)
  {
    hide ReadMessage, Runs.Laid, Flatten, Varint.Encoded, Varint.Parsed, Runs.ReadRun;
    var count := Varint.Encoded(|items|);
    var rest := Flatten(pieces) + extra;
    Varint.U32Fits(|items|);
    Varint.RoundTrip(|items|, 5, 15, rest);
    StepOver(p.body, 0, count, rest);
    MessageReaderIsLocal();
    Runs.LaidIsRead(MessageReader(), p.body, |count|, pieces, items, extra, MAX_BYTES);
  }

  /** A message in its own fields, within the limits, is one piece of a notification. */
  lemma WireIsWhole(m: Message)
    requires m.to != [] && m.from != [] && m.serverId != []
    requires |NimProperty.Wire(MessageFields(m))| <= MAX_BYTES
    ensures Runs.Whole(MessageReader(), NimProperty.Wire(MessageFields(m)), m)
  {
    hide NimProperty.Decoding, MessageOf, NimProperty.Wire;
    var fields := MessageFields(m);
    SizedByWire(fields);
    NimProperty.RoundTrip(fields, [], MAX_FIELDS, MAX_BYTES);
    assert NimProperty.Wire(fields) + [] == NimProperty.Wire(fields);
    MessageReadsBack(m);
  }

  /** A list whose wire form is short has short values. */
  lemma SizedByWire(fields: NimProperty.Property)
    requires |NimProperty.Wire(fields)| < U32_LIMIT
    ensures NimProperty.Sized(fields)
  {
    hide Varint.Encoded;
    var pieces := NimProperty.Wires(fields);
    forall f | f in fields
      ensures |f.value| < U32_LIMIT
    {
      var i :| 0 <= i < |fields| && fields[i] == f;
      PieceNoLonger(pieces, i);
    }
  }

  lemma {:induction false} PieceNoLonger(pieces: seq<seq<byte>>, i: nat)
    requires i < |pieces|
    ensures |pieces[i]| <= |Flatten(pieces)|
  {
    if i > 0 {
      PieceNoLonger(pieces[1..], i - 1);
    }
  }

  /** A packet wrapped behind an 8-byte notification id is decoded as the packet itself, however its header is
      written. */
  lemma UnwrapsOnce(wrapper: Packet, id: seq<byte>, head: seq<byte>, body: seq<byte>)
    requires (wrapper.header.service, wrapper.header.command) in {(4, 1), (4, 2), (4, 10), (4, 11)}
    requires wrapper.header.responseCode == 200 && |wrapper.body| <= 0x10_0000
    requires |id| == 8 && Parsing(head).Ok? && Parsing(head).value.consumed == |head|
    requires wrapper.body == id + (head + body)
    ensures var inner := Packet(Parsing(head).value, body);
      Decoding(wrapper) == if inner.header.service == 4 then Err(Malformed) else Decoding(inner)
  {
    hide Parsing, Plain;
    var frame := head + body;
    StepOver(wrapper.body, 0, id, frame);
    OwnBytesOnly(head, |head|, body);
    assert head[..|head|] == head;
    assert frame[|head|..] == body;
  }

  /** There is never more than one unwrapping: whatever is decoded inside a wrapper is not one itself. */
  lemma NeverNested(wrapper: Packet, e: Event)
    requires IsWrapper(wrapper.header) && Decoding(wrapper) == Ok(e)
    ensures |wrapper.body| >= 8
    ensures var inner := Splitting(wrapper.body[8..], MAX_BYTES);
      inner.Ok? && !IsWrapper(inner.value.header) && inner.value.header.responseCode == 200
      && Plain(inner.value) == Ok(e)
  {
    hide Plain, Splitting;
    var inner := Splitting(wrapper.body[8..], MAX_BYTES);
    assert Decoding(wrapper) == Decoding(inner.value);
  }

  /** What is no list, recall, end of sync or wrapper is handed on unread, under its own route; and nothing is looked
      at in a packet too large or refused by the server. */
  lemma RoutesExactly(p: Packet)
    ensures |p.body| > 0x10_0000 ==> Decoding(p) == Err(Limit)
    ensures |p.body| <= 0x10_0000 && p.header.responseCode != 200 ==>
      Decoding(p) == Err(Rejected(p.header.responseCode))
    ensures |p.body| <= 0x10_0000 && p.header.responseCode == 200 ==>
      var route := (p.header.service, p.header.command);
      route !in {(4, 1), (4, 2), (4, 4), (4, 9), (4, 10), (4, 11), (5, 1), (7, 2), (7, 14), (7, 101), (8, 3), (8, 4),
                 (8, 102)} ==>
        Decoding(p) == Ok(Unhandled(route.0, route.1))
  {
    hide Splitting, ReadRecall, ReadMessages, FromLittle;
  }

  lemma PositiveExactly(s: seq<byte>)
    ensures Positive(s).Some? <==> IsPositive(s)
  {
    hide Text.ParseUnsigned;
  }

  /** The end of sync carries its cursor in eight bytes, lowest first, and nothing else. */
  lemma CursorExactly(p: Packet, cursor: nat)
    requires p.header.service == 5 && p.header.command == 1 && p.header.responseCode == 200 && |p.body| <= 0x10_0000
    ensures Decoding(p) == Ok(SyncDone(cursor)) <==> cursor < 0x1_0000_0000_0000_0000 && p.body == Little(cursor, 8)
    ensures Decoding(p).Ok? || Decoding(p) == Err(Malformed)
  {
    hide Little, FromLittle;
    Widths();
    if |p.body| == 8 {
      FromLittleRoundTrip(p.body);
    }
    if cursor < 0x1_0000_0000_0000_0000 {
      LittleRoundTrip(cursor, 8);
    }
  }

  /** A recall is accepted exactly from a body that is one list without repeats, of a group message, with its target
      and a positive number. */
  lemma RecallExactly(p: Packet, target: Text.Utf8, id: Text.Utf8)
    requires p.header.service == 7 && p.header.command == 14 && p.header.responseCode == 200 && |p.body| <= 0x10_0000
    ensures Decoding(p) == Ok(Recalled(target, id)) <==>
      var d := NimProperty.Decoding(p.body, 128, 0x10_0000);
      && d.Ok? && d.value.1 == |p.body| && NimProperty.Distinct(d.value.0)
      && NimProperty.Field(1, [56]) in d.value.0 && NimProperty.Field(2, target) in d.value.0 && target != []
      && NimProperty.Field(11, id) in d.value.0 && IsPositive(id)
  {
    PositiveExactly(id);
    hide NimProperty.Decoding, NimProperty.Collected, NimProperty.Distinct, Text.Valid, Positive, IsPositive;
    var d := NimProperty.Decoding(p.body, MAX_FIELDS, MAX_BYTES);
    if d.Ok? {
      var fields := d.value.0;
      NimProperty.CollectsExactly(fields);
      if NimProperty.Collected(fields).Some? {
        var ids := NimProperty.Collected(fields).value;
        HeldExactly(ids, fields, 1, [56]);
        HeldExactly(ids, fields, 2, target);
        HeldExactly(ids, fields, 11, id);
      }
    }
  }

  // ---- Requests ----

  function RecallFields(target: Text.Utf8, from: Text.Utf8, client: Text.Utf8, server: Text.Utf8, time: u64):
    NimProperty.Property
  {
    [NimProperty.Field(0, Text.Decimal(time)), NimProperty.Field(1, [56]), NimProperty.Field(2, target),
     NimProperty.Field(3, from), NimProperty.Field(10, client), NimProperty.Field(11, server),
     NimProperty.Field(16, from)]
  }

  function RecallRequest(serial: u16, target: Text.Utf8, from: Text.Utf8, client: Text.Utf8, server: Text.Utf8,
                         time: u64): Result<seq<byte>, Error> {
    if target == [] || from == [] || client == [] || time == 0 || Positive(server).None? then Err(Malformed)
    else
      var body := NimProperty.Encoding(RecallFields(target, from, client, server, time), MAX_FIELDS, MAX_BYTES);
      if body.Err? then Err(Limit) else Ok(Request(7, 13, serial) + body.value)
  }

  lemma RecallCollects(target: Text.Utf8, from: Text.Utf8, client: Text.Utf8, server: Text.Utf8, time: u64)
    ensures var data := NimProperty.Collected(RecallFields(target, from, client, server, time));
      data.Some? && Entry(data.value, 1, [56]) && Entry(data.value, 2, target) && Entry(data.value, 11, server)
  {
    hide Text.Decimal, NimProperty.Collected, NimProperty.Holds, Entry;
    var fields := RecallFields(target, from, client, server, time);
    assert NimProperty.Ascending(fields);
    NimProperty.AscendingIsDistinct(fields);
    NimProperty.CollectsExactly(fields);
    var data := NimProperty.Collected(fields).value;
    HeldEntry(data, fields, 1);
    HeldEntry(data, fields, 2);
    HeldEntry(data, fields, 5);
  }

  /** A recall is sent exactly with a target, a sender, a client id and a time, for a positive number, if it fits; and
      the body is the list of these, each under its number. */
  lemma RecallSentExactly(serial: u16, target: Text.Utf8, from: Text.Utf8, client: Text.Utf8, server: Text.Utf8,
                          time: u64)
    ensures var r := RecallRequest(serial, target, from, client, server, time);
      var list := [NimProperty.Field(0, Text.Decimal(time)), NimProperty.Field(1, [56]), NimProperty.Field(2, target),
                   NimProperty.Field(3, from), NimProperty.Field(10, client), NimProperty.Field(11, server),
                   NimProperty.Field(16, from)];
      var right := |target| > 0 && |from| > 0 && |client| > 0 && time > 0 && IsPositive(server);
      && (r == Err(Malformed) <==> !right)
      && (r.Ok? <==> right && NimProperty.Sized(list) && |NimProperty.Wire(list)| <= 0x10_0000)
      && (r.Ok? ==>
            && |r.value| >= 6
            && NimProperty.Decoding(r.value[6..], 128, 0x10_0000) == Ok((list, |r.value| - 6)))
  {
    hide Text.Decimal, NimProperty.Wire, NimProperty.Encoding, NimProperty.Decoding, NimProperty.Sized, Positive,
      IsPositive;
    PositiveExactly(server);
    var list := RecallFields(target, from, client, server, time);
    NimProperty.EncodesExactly(list, MAX_FIELDS, MAX_BYTES);
    var r := RecallRequest(serial, target, from, client, server, time);
    if r.Ok? {
      assert r.value[6..] == NimProperty.Wire(list);
      NimProperty.RoundTrip(list, [], MAX_FIELDS, MAX_BYTES);
      assert NimProperty.Wire(list) + [] == NimProperty.Wire(list);
    }
  }

  /** The body of every recall this client sends is, as a notification, the recall of the same message. */
  lemma RecallReadsBack(serial: u16, target: Text.Utf8, from: Text.Utf8, client: Text.Utf8, server: Text.Utf8,
                        time: u64, notice: Header)
    requires RecallRequest(serial, target, from, client, server, time).Ok?
    requires notice.service == 7 && notice.command == 14 && notice.responseCode == 200
    ensures var frame := RecallRequest(serial, target, from, client, server, time).value;
      && Splitting(frame, |frame|) == Ok(Packet(Header(0, 7, 13, serial, 0, 200, 6), frame[6..]))
      && Decoding(Packet(notice, frame[6..])) == Ok(Recalled(target, server))
  {
    hide Text.Decimal, NimProperty.Collected, NimProperty.Wire, NimProperty.Encoding, NimProperty.Decoding,
      Positive, RecallFields, Parsing;
    var fields := RecallFields(target, from, client, server, time);
    var body := NimProperty.Wire(fields);
    var frame := RecallRequest(serial, target, from, client, server, time).value;
    NimProperty.EncodesExactly(fields, MAX_FIELDS, MAX_BYTES);
    assert frame[6..] == body;
    RequestReadsBack(7, 13, serial, body, |frame|);
    NimProperty.RoundTrip(fields, [], MAX_FIELDS, MAX_BYTES);
    assert body + [] == body;
    RecallCollects(target, from, client, server, time);
  }

  function IdsWire(ids: seq<seq<byte>>): Result<seq<byte>, Error> {
    if |ids| == 0 then Ok([])
    else
      var n := Text.ParseUnsigned(ids[0], 0x1_0000_0000_0000_0000);
      if n.None? then Err(Malformed)
      else
        var tail :- IdsWire(ids[1..]);
        Ok(Little(n.value, 8) + tail)
  }

  function SceneRoute(scene: Scene): seq<byte> {
    if scene == Group then [8, 3] else [7, 2]
  }

  function Acknowledgement(serial: u16, scene: Scene, ids: seq<Text.Utf8>): Result<seq<byte>, Error> {
    if |ids| == 0 || |ids| > MAX_MESSAGES then Err(Limit)
    else
      var wire :- IdsWire(ids);
      Ok(Request(4, 5, serial) + (SceneRoute(scene) + (Varint.Encoded(|ids|) + wire)))
  }

  method Acknowledge(serial: u16, scene: Scene, ids: seq<Text.Utf8>) returns (r: Result<seq<byte>, Error>)
    ensures r == Acknowledgement(serial, scene, ids)
  {
    if |ids| == 0 || |ids| > MAX_MESSAGES {
      return Err(Limit);
    }
    hide Varint.Encoded, Little, Text.ParseUnsigned;
    var frame := Request(4, 5, serial) + SceneRoute(scene);
    frame := Varint.Put(|ids|, frame);
    ghost var head := frame;
    ghost var wire: seq<byte> := [];
    BehindNothing(IdsWire(ids));
    assert ids[0..] == ids && frame == head + wire;
    for i := 0 to |ids|
      invariant frame == head + wire
      invariant IdsWire(ids) == Behind(wire, IdsWire(ids[i..]))
    {
      assert ids[i..][1..] == ids[i + 1..];
      var n := Text.ParseUnsigned(ids[i], 0x1_0000_0000_0000_0000);
      if n.None? {
        return Err(Malformed);
      }
      BehindTwice(wire, Little(n.value, 8), IdsWire(ids[i + 1..]));
      Associate(head, wire, Little(n.value, 8));
      wire := wire + Little(n.value, 8);
      frame := frame + Little(n.value, 8);
    }
    assert wire + [] == wire;
    Associate(Request(4, 5, serial), SceneRoute(scene), Varint.Encoded(|ids|));
    Associate(Request(4, 5, serial), SceneRoute(scene) + Varint.Encoded(|ids|), wire);
    Associate(SceneRoute(scene), Varint.Encoded(|ids|), wire);
    r := Ok(frame);
  }

  lemma BehindNothing(r: Result<seq<byte>, Error>)
    ensures Behind([], r) == r
  {
    assert r.Ok? ==> [] + r.value == r.value;
  }

  ghost function Behind(front: seq<byte>, r: Result<seq<byte>, Error>): Result<seq<byte>, Error> {
    match r
    case Ok(wire) => Ok(front + wire)
    case Err(e) => Err(e)
  }

  lemma BehindTwice(a: seq<byte>, b: seq<byte>, r: Result<seq<byte>, Error>)
    ensures Behind(a, Behind(b, r)) == Behind(a + b, r)
  {
    if r.Ok? {
      Associate(a, b, r.value);
    }
  }

  /** A little-endian u64 at the front of `s`. */
  function IdReader(): (read: Runs.Reader<nat, Error>)
    ensures Runs.Honest(read)
  {
    (s: seq<byte>) => if |s| < 8 then Err(Malformed) else Ok((FromLittle(s[..8]), 8))
  }

  /** A varint count and that many ids, and nothing else. */
  function ReadIds(body: seq<byte>): Option<seq<nat>> {
    var count := Varint.Parsed(body, 5, 15);
    if !count.Value? then None
    else
      var run := Runs.ReadRun(IdReader(), body, count.used, count.value);
      if run.Err? || run.value.1 != |body| then None else Some(run.value.0)
  }

  /** What the peer reads from an acknowledgement: the scene and the numbers of the messages. */
  function Acknowledged(frame: seq<byte>): Option<(Scene, seq<nat>)> {
    var p := Splitting(frame, |frame|);
    if p.Err? || p.value.header.service != 4 || p.value.header.command != 5 || |p.value.body| < 2 then None
    else
      var route, ids := p.value.body[..2], ReadIds(p.value.body[2..]);
      if ids.None? then None
      else if route == SceneRoute(Group) then Some((Group, ids.value))
      else if route == SceneRoute(Private) then Some((Private, ids.value))
      else None
  }

  const ID_LIMIT: nat := 0x1_0000_0000_0000_0000

  predicate AreNumbers(ids: seq<Text.Utf8>) {
    forall i :: 0 <= i < |ids| ==> Text.ParseUnsigned(ids[i], ID_LIMIT).Some?
  }

  function Numbers(ids: seq<Text.Utf8>): (numbers: seq<nat>)
    requires AreNumbers(ids)
    ensures |numbers| == |ids| && forall i :: 0 <= i < |ids| ==> numbers[i] < ID_LIMIT
  {
    seq(|ids|, i requires 0 <= i < |ids| => Text.ParseUnsigned(ids[i], ID_LIMIT).value)
  }

  function IdPieces(numbers: seq<nat>): seq<seq<byte>> {
    seq(|numbers|, i requires 0 <= i < |numbers| => Little(numbers[i], 8))
  }

  lemma {:induction false} IdsWireExactly(ids: seq<Text.Utf8>)
    ensures IdsWire(ids).Ok? <==> AreNumbers(ids)
    ensures AreNumbers(ids) ==> IdsWire(ids) == Ok(Flatten(IdPieces(Numbers(ids))))
  {
    hide Little, Text.ParseUnsigned;
    if |ids| > 0 {
      IdsWireExactly(ids[1..]);
      assert forall i :: 0 < i < |ids| ==> ids[i] == ids[1..][i - 1];
      if AreNumbers(ids) {
        assert Numbers(ids)[1..] == Numbers(ids[1..]);
        assert IdPieces(Numbers(ids))[1..] == IdPieces(Numbers(ids[1..]));
      }
    }
  }

  lemma IdPiecesAreLaid(numbers: seq<nat>)
    requires forall i :: 0 <= i < |numbers| ==> numbers[i] < ID_LIMIT
    ensures Runs.Laid(IdReader(), IdPieces(numbers), numbers)
  {
    hide Little, FromLittle;
    forall i | 0 <= i < |numbers|
      ensures Runs.Whole(IdReader(), IdPieces(numbers)[i], numbers[i])
    {
      Widths();
      LittleRoundTrip(numbers[i], 8);
      assert Little(numbers[i], 8)[..8] == Little(numbers[i], 8);
    }
  }

  lemma NumbersReadBack(numbers: seq<nat>)
    requires |numbers| <= MAX_MESSAGES && forall i :: 0 <= i < |numbers| ==> numbers[i] < ID_LIMIT
    ensures ReadIds(Varint.Encoded(|numbers|) + Flatten(IdPieces(numbers))) == Some(numbers)
  {
    hide Varint.Encoded, Varint.Parsed, Flatten, Runs.ReadRun, IdPieces, IdReader, Runs.Laid, Runs.Local;
    IdPiecesAreLaid(numbers);
    var count, wire := Varint.Encoded(|numbers|), Flatten(IdPieces(numbers));
    var body := count + wire;
    Varint.U32Fits(|numbers|);
    Varint.RoundTrip(|numbers|, 5, 15, wire);
    assert body[|count|..] == wire == wire + [];
    IdReaderIsLocal(|body|);
    Runs.LaidIsRead(IdReader(), body, |count|, IdPieces(numbers), numbers, [], |body|);
  }

  lemma IdsReadBack(ids: seq<Text.Utf8>)
    requires IdsWire(ids).Ok? && |ids| <= MAX_MESSAGES
    ensures AreNumbers(ids)
    ensures ReadIds(Varint.Encoded(|ids|) + IdsWire(ids).value) == Some(Numbers(ids))
  {
    hide Varint.Encoded, Flatten, IdPieces, AreNumbers, IdsWire, ReadIds;
    IdsWireExactly(ids);
    NumbersReadBack(Numbers(ids));
  }

  /** An acknowledgement is built exactly for 1 to 1024 numbers, and names those, in order, and their scene. */
  lemma AcknowledgementReadsBack(serial: u16, scene: Scene, ids: seq<Text.Utf8>)
    ensures Acknowledgement(serial, scene, ids).Ok? <==> 1 <= |ids| <= MAX_MESSAGES && AreNumbers(ids)
    ensures Acknowledgement(serial, scene, ids).Ok? ==>
      var frame := Acknowledgement(serial, scene, ids).value;
      && Acknowledged(frame) == Some((scene, Numbers(ids)))
      && |frame| > 8 && frame[6..8] == if scene.Private? then [7, 2] else [8, 3]
  {
    hide Varint.Encoded, Acknowledged;
    IdsWireExactly(ids);
    if Acknowledgement(serial, scene, ids).Ok? {
      AcknowledgedBack(serial, scene, ids);
    }
  }

  lemma AcknowledgedBack(serial: u16, scene: Scene, ids: seq<Text.Utf8>)
    requires Acknowledgement(serial, scene, ids).Ok? && AreNumbers(ids)
    ensures Acknowledged(Acknowledgement(serial, scene, ids).value) == Some((scene, Numbers(ids)))
  {
    hide Varint.Encoded, Varint.Parsed, Text.ParseUnsigned, Parsing, IdsWire, ReadIds, Numbers;
    IdsReadBack(ids);
    var body := Varint.Encoded(|ids|) + IdsWire(ids).value;
    var frame := Acknowledgement(serial, scene, ids).value;
    RequestReadsBack(4, 5, serial, SceneRoute(scene) + body, |frame|);
    StepOver(SceneRoute(scene) + body, 0, SceneRoute(scene), body);
    assert (SceneRoute(scene) + body)[..2] == SceneRoute(scene);
  }

  lemma IdReaderIsLocal(limit: nat)
    ensures Runs.Local(IdReader(), limit)
  {
    hide FromLittle;
    forall s: seq<byte>, k: nat, rest: seq<byte> | 8 <= k <= |s|
      ensures (s[..k] + rest)[..8] == s[..8]
    {
    }
  }

  // ---- Mute roster ----

  /** The values under `id`, in order. */
  function ValuesOf(fields: NimProperty.Property, id: u32): seq<seq<byte>> {
    if |fields| == 0 then []
    else (if fields[0].id == id then [fields[0].value] else []) + ValuesOf(fields[1..], id)
  }

  /** One roster entry: a property list with exactly one account under id 3. */
  function ReadMuted(s: seq<byte>): (r: Result<(seq<byte>, nat), Error>)
    ensures r.Ok? ==> r.value.1 <= |s|
  {
    var p := NimProperty.Decoding(s, MAX_FIELDS, MAX_BYTES);
    if p.Err? then Err(Malformed)
    else
      var accounts := ValuesOf(p.value.0, 3);
      if |accounts| != 1 then Err(Malformed) else Ok((accounts[0], p.value.1))
  }

  function MutedReader(): (read: Runs.Reader<seq<byte>, Error>)
    ensures Runs.Honest(read)
  {
    (s: seq<byte>) => ReadMuted(s)
  }

  lemma MutedReaderIsLocal()
    ensures Runs.Local(MutedReader(), MAX_BYTES)
  {
    hide NimProperty.Decoding, ValuesOf;
    forall s: seq<byte>, k: nat, rest: seq<byte> |
      ReadMuted(s).Ok? && ReadMuted(s).value.1 <= k <= |s| && |s[..k] + rest| <= MAX_BYTES
      ensures ReadMuted(s[..k] + rest) == ReadMuted(s)
    {
      NimProperty.OwnBytesOnly(s, MAX_FIELDS, MAX_BYTES, k, rest);
    }
  }

  function MutedPresence(body: seq<byte>, team: u64, account: seq<byte>): Result<bool, Error> {
    if |body| > MAX_BYTES || |body| < 9 || FromLittle(body[..8]) != team then Err(Malformed)
    else
      var count := Varint.Parsed(body[8..], 5, 15);
      if !count.Value? then Err(Malformed)
      else if count.value > MAX_MUTED then Err(Limit)
      else
        var run := Runs.ReadRun(MutedReader(), body, 8 + count.used, count.value);
        if run.Err? || run.value.1 != |body| then Err(Malformed) else Ok(account in run.value.0)
  }

  method Filtered(fields: NimProperty.Property, id: u32) returns (values: seq<seq<byte>>)
    ensures values == ValuesOf(fields, id)
  {
    values := [];
    assert fields[0..] == fields;
    for i := 0 to |fields|
      invariant ValuesOf(fields, id) == values + ValuesOf(fields[i..], id)
    {
      ghost var rest := fields[i + 1..];
      assert fields[i..][1..] == rest;
      if fields[i].id == id {
        Associate(values, [fields[i].value], ValuesOf(rest, id));
        values := values + [fields[i].value];
      } else {
        assert [] + ValuesOf(rest, id) == ValuesOf(rest, id);
      }
    }
    assert values + [] == values;
  }

  method MutedMemberPresent(body: seq<byte>, team: u64, account: seq<byte>) returns (r: Result<bool, Error>)
    ensures r == MutedPresence(body, team, account)
  {
    hide NimProperty.Decoding, ValuesOf, Runs.ReadRun, Runs.Prepended, Varint.Parsed, FromLittle;
    if |body| > MAX_BYTES || |body| < 9 {
      return Err(Malformed);
    }
    if FromLittle(body[..8]) != team {
      return Err(Malformed);
    }
    var count, offset := Varint.Read(body, 8, 5, 15);
    if !count.Value? {
      return Err(Malformed);
    }
    if count.value > MAX_MUTED {
      return Err(Limit);
    }
    var found := false;
    ghost var seen: seq<seq<byte>> := [];
    ghost var whole := Runs.ReadRun(MutedReader(), body, offset, count.value);
    Runs.PrependNothing(whole);
    for i := 0 to count.value
      invariant 0 <= offset <= |body|
      invariant whole == Runs.Prepended(seen, Runs.ReadRun(MutedReader(), body, offset, count.value - i))
      invariant found == (account in seen)
    {
      Runs.OneMore(MutedReader(), body, offset, count.value - i, seen);
      var p := NimProperty.Decode(body[offset..], MAX_FIELDS, MAX_BYTES);
      if p.Err? {
        return Err(Malformed);
      }
      offset := offset + p.value.1;
      var accounts := Filtered(p.value.0, 3);
      if |accounts| != 1 {
        return Err(Malformed);
      }
      found := found || accounts[0] == account;
      seen := seen + [accounts[0]];
    }
    Runs.NoMore(MutedReader(), body, offset, seen);
    if offset != |body| {
      return Err(Malformed);
    }
    r := Ok(found);
  }

  /** A team id, a count, and that many whole one-account entries up to the end. */
  ghost predicate Roster(body: seq<byte>, team: nat, accounts: seq<seq<byte>>) {
    && 9 <= |body| <= MAX_BYTES && |accounts| <= MAX_MUTED && FromLittle(body[..8]) == team
    && var count := Varint.Parsed(body[8..], 5, 15);
       count.Value? && count.value == |accounts| && RosterEntries(body, 8 + count.used, accounts)
  }

  ghost predicate RosterEntries(body: seq<byte>, start: nat, accounts: seq<seq<byte>>) {
    exists pieces: seq<seq<byte>> ::
      Runs.Laid(MutedReader(), pieces, accounts) && start <= |body| && body[start..] == Flatten(pieces)
  }

  lemma {:induction false} ValuesExactly(fields: NimProperty.Property, id: u32, value: seq<byte>)
    ensures ValuesOf(fields, id) == [value] <==>
      exists i: nat :: OnlyAt(fields, id, value, i)
    ensures ValuesOf(fields, id) == [] <==> forall i :: 0 <= i < |fields| ==> fields[i].id != id
  {
    if |fields| > 0 {
      var first, rest := fields[0], fields[1..];
      ValuesExactly(rest, id, value);
      assert forall j :: 0 <= j < |rest| ==> rest[j] == fields[j + 1];
      if ValuesOf(fields, id) == [value] {
        if first.id == id {
          assert ValuesOf(fields, id)[0] == first.value && |ValuesOf(fields, id)| == 1 + |ValuesOf(rest, id)|;
          assert OnlyAt(fields, id, value, 0);
        } else {
          assert [] + ValuesOf(rest, id) == ValuesOf(rest, id);
          var i: nat :| OnlyAt(rest, id, value, i);
          assert OnlyAt(fields, id, value, i + 1);
        }
      }
      forall i: nat | OnlyAt(fields, id, value, i)
        ensures ValuesOf(fields, id) == [value]
      {
        if i == 0 {
          assert [value] + ValuesOf(rest, id) == [value];
        } else {
          assert OnlyAt(rest, id, value, i - 1);
          assert [] + ValuesOf(rest, id) == ValuesOf(rest, id);
        }
      }
      assert ValuesOf(fields, id) == [] <==> first.id != id && ValuesOf(rest, id) == [];
    }
  }

  /** The list has that value under the id at the place, and the id nowhere else. */
  predicate OnlyAt(fields: NimProperty.Property, id: u32, value: seq<byte>, i: nat) {
    && i < |fields| && fields[i] == NimProperty.Field(id, value)
    && forall j :: 0 <= j < |fields| && j != i ==> fields[j].id != id
  }

  /** An entry of the roster is one property list that names an account under 3 and no other. */
  lemma EntryExactly(piece: seq<byte>, account: seq<byte>)
    ensures Runs.Whole(MutedReader(), piece, account) <==>
      var d := NimProperty.Decoding(piece, 128, 0x10_0000);
      d.Ok? && d.value.1 == |piece| && exists i: nat :: OnlyAt(d.value.0, 3, account, i)
  {
    hide NimProperty.Decoding, ValuesOf;
    var d := NimProperty.Decoding(piece, MAX_FIELDS, MAX_BYTES);
    if d.Ok? {
      ValuesExactly(d.value.0, 3, account);
      var accounts := ValuesOf(d.value.0, 3);
      assert |accounts| == 1 ==> accounts == [accounts[0]];
    }
    hide OnlyAt;
  }

  /** The readback is trusted exactly when the body is the asked team's roster and nothing else; then it
      says whether the account is on it. */
  lemma MutedExactly(body: seq<byte>, team: u64, account: seq<byte>, present: bool)
    ensures MutedPresence(body, team, account) == Ok(present) <==>
      exists accounts: seq<seq<byte>> :: Roster(body, team, accounts) && present == (account in accounts)
  {
    hide ReadMuted, Runs.Laid, Flatten, Varint.Parsed, FromLittle, Runs.ReadRun;
    MutedReaderIsLocal();
    if 9 <= |body| <= MAX_BYTES {
      var count := Varint.Parsed(body[8..], 5, 15);
      forall accounts: seq<seq<byte>> | Roster(body, team, accounts)
        ensures MutedPresence(body, team, account) == Ok(account in accounts)
      {
        Runs.ReadsExactly(MutedReader(), body, 8 + count.used, accounts, MAX_BYTES);
      }
      if MutedPresence(body, team, account) == Ok(present) {
        var accounts := Runs.ReadRun(MutedReader(), body, 8 + count.used, count.value).value.0;
        Runs.ReadsExactly(MutedReader(), body, 8 + count.used, accounts, MAX_BYTES);
        assert Roster(body, team, accounts);
      }
    }
  }

  // ---- Delivery receipts ----

  function SendRoute(scene: Scene): (byte, byte) {
    if scene == Group then (8, 2) else (7, 1)
  }

  function ReceiptIn(ids: map<u32, seq<byte>>, clientId: seq<byte>): Result<Text.Utf8, Error> {
    if 11 in ids && ids[11] != clientId then Err(Malformed)
    else if 7 !in ids || !Text.Valid(ids[7]) || Text.ParseUnsigned(ids[7], 0x1_0000_0000_0000_0000).None? then
      Err(Malformed)
    else if 12 !in ids || !Text.Valid(ids[12]) || Positive(ids[12]).None? then Err(Malformed)
    else Ok(ids[12])
  }

  function Receipt(p: Packet, serial: u16, clientId: seq<byte>): Result<Text.Utf8, Error> {
    var route := (p.header.service, p.header.command);
    if (route != SendRoute(Private) && route != SendRoute(Group)) || p.header.serial != serial then Err(Malformed)
    else if p.header.responseCode != 200 then Err(Rejected(p.header.responseCode))
    else
      var d := NimProperty.Decoding(p.body, MAX_FIELDS, MAX_BYTES);
      if d.Err? || d.value.1 != |p.body| then Err(Malformed)
      else
        var ids := NimProperty.Collected(d.value.0);
        if ids.None? then Err(Malformed) else ReceiptIn(ids.value, clientId)
  }

  /** The peer's confirmation of a send, with or without an echo of a client id. */
  function ConfirmationFields(time: u64, echo: Option<Text.Utf8>, id: Text.Utf8): NimProperty.Property {
    match echo
    case None => [NimProperty.Field(7, Text.Decimal(time)), NimProperty.Field(12, id)]
    case Some(client) =>
      [NimProperty.Field(7, Text.Decimal(time)), NimProperty.Field(11, client), NimProperty.Field(12, id)]
  }

  /** What a list must hold to confirm a send as `id`. */
  predicate Confirms(fields: NimProperty.Property, clientId: seq<byte>, id: Text.Utf8) {
    && NimProperty.Distinct(fields)
    && (forall f :: f in fields && f.id == 11 ==> f.value == clientId)
    && (exists f :: f in fields && f.id == 7 && IsTime(f.value))
    && NimProperty.Field(12, id) in fields && IsPositive(id)
  }

  /** A decimal of 64 bits, and not zero. */
  predicate IsPositive(value: seq<byte>) {
    var n := Text.ParseUnsigned(value, 0x1_0000_0000_0000_0000);
    n.Some? && n.value != 0
  }

  predicate IsTime(value: seq<byte>) {
    Text.Valid(value) && Text.ParseUnsigned(value, ID_LIMIT).Some?
  }

  /** An answer yields a server id exactly when it is for this very request and accepted, and its body is one
      property list that repeats nothing, has a time, this positive id, and no client id but the one sent. */
  lemma ReceiptExactly(p: Packet, serial: u16, clientId: seq<byte>, id: Text.Utf8)
    ensures Receipt(p, serial, clientId) == Ok(id) <==>
      && (p.header.service, p.header.command) in {(7, 1), (8, 2)}
      && p.header.serial == serial && p.header.responseCode == 200
      && var d := NimProperty.Decoding(p.body, MAX_FIELDS, MAX_BYTES);
         d.Ok? && d.value.1 == |p.body| && Confirms(d.value.0, clientId, id)
  {
    hide NimProperty.Decoding, NimProperty.Collected, NimProperty.Distinct, Confirms, ReceiptIn;
    var d := NimProperty.Decoding(p.body, MAX_FIELDS, MAX_BYTES);
    if d.Ok? {
      ConfirmsExactly(d.value.0, clientId, id);
    }
  }

  lemma ConfirmsExactly(fields: NimProperty.Property, clientId: seq<byte>, id: Text.Utf8)
    ensures Confirms(fields, clientId, id) <==>
      NimProperty.Collected(fields).Some? && ReceiptIn(NimProperty.Collected(fields).value, clientId) == Ok(id)
  {
    PositiveExactly(id);
    hide NimProperty.Collected, Text.Valid, Text.ParseUnsigned, Positive, IsPositive, NimProperty.Distinct;
    NimProperty.CollectsExactly(fields);
    if NimProperty.Collected(fields).Some? {
      var ids := NimProperty.Collected(fields).value;
      forall k: u32, v: seq<byte>
        ensures Entry(ids, k, v) <==> NimProperty.Field(k, v) in fields
      {
        HeldExactly(ids, fields, k, v);
      }
      if 7 in ids {
        assert Entry(ids, 7, ids[7]);
      }
      if 11 in ids {
        assert Entry(ids, 11, ids[11]);
      }
      if 12 in ids {
        assert Entry(ids, 12, ids[12]);
      }
    }
  }

  lemma HeldExactly(ids: map<u32, seq<byte>>, fields: NimProperty.Property, k: u32, v: seq<byte>)
    requires NimProperty.Holds(ids, fields)
    ensures Entry(ids, k, v) <==> NimProperty.Field(k, v) in fields
  {
    if NimProperty.Field(k, v) in fields {
      var i :| 0 <= i < |fields| && fields[i] == NimProperty.Field(k, v);
    }
  }

  /** The confirmation the peer sends, with or without the client id, meets that for its own id. */
  lemma ConfirmationReadsBack(p: Packet, serial: u16, clientId: Text.Utf8, time: u64, echo: Option<Text.Utf8>,
                              id: Text.Utf8)
    requires p.header.responseCode == 200 && |p.body| <= MAX_BYTES
    requires p.body == NimProperty.Wire(ConfirmationFields(time, echo, id))
    ensures Receipt(p, serial, clientId) ==
      if (p.header.service, p.header.command) in {(7, 1), (8, 2)} && p.header.serial == serial
         && Positive(id).Some? && (echo.Some? ==> echo.value == clientId)
      then Ok(id) else Err(Malformed)
  {
    hide Text.Decimal, Text.Valid, Text.ParseUnsigned, NimProperty.Collected, NimProperty.Holds, NimProperty.Wire,
      NimProperty.Decoding, Positive;
    var fields := ConfirmationFields(time, echo, id);
    SizedByWire(fields);
    NimProperty.RoundTrip(fields, [], MAX_FIELDS, MAX_BYTES);
    assert p.body + [] == p.body;
    ConfirmationCollects(time, echo, id);
    Text.DecimalRoundTrip(time, 0x1_0000_0000_0000_0000);
  }

  lemma ConfirmationCollects(time: u64, echo: Option<Text.Utf8>, id: Text.Utf8)
    ensures var ids := NimProperty.Collected(ConfirmationFields(time, echo, id));
      && ids.Some? && Entry(ids.value, 7, Text.Decimal(time)) && Entry(ids.value, 12, id)
      && (if echo.Some? then Entry(ids.value, 11, echo.value) else 11 !in ids.value)
  {
    hide Text.Decimal;
    var fields := ConfirmationFields(time, echo, id);
    assert NimProperty.Ascending(fields);
    NimProperty.AscendingIsDistinct(fields);
    NimProperty.CollectsExactly(fields);
    var ids := NimProperty.Collected(fields).value;
    HeldEntry(ids, fields, 0);
    HeldEntry(ids, fields, 1);
    if echo.Some? {
      HeldEntry(ids, fields, 2);
    }
  }
}
