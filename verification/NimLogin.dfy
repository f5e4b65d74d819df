/** The NIM login request, whose fields go out in ascending id order, and the strict three-part login answer. */
module NimLogin {
  import opened Bytes
  import opened NimHeader
  import opened NimProperty
  import Runs
  import Text
  import Varint

  const MAX_ANSWER: usize := 0x10_0000
  const MAX_LIST: usize := 128
  const MAX_LOGIN_FIELDS: usize := 25
  const MAX_LOGIN_BYTES: usize := 0x1_0000

  datatype LoginError =
    UnknownField | DuplicateField | MissingIdentity | Encoding(error: Error) | MissingConnection | InvalidResponse

  // ---- The request ----

  datatype Entry = Entry(name: string, value: Text.Utf8)

  /** The largest id of a login field. */
  const LAST_ID: nat := 1000

  function FieldId(name: string): (id: Option<u32>)
    ensures id.Some? ==> id.value <= LAST_ID
  {
    if name == "clientType" then Some(3)
    else if name == "os" then Some(4)
    else if name == "sdkVersion" then Some(6)
    else if name == "appLogin" then Some(8)
    else if name == "protocolVersion" then Some(9)
    else if name == "pushTokenName" then Some(10)
    else if name == "pushToken" then Some(11)
    else if name == "deviceId" then Some(13)
    else if name == "appKey" then Some(18)
    else if name == "account" then Some(19)
    else if name == "browser" then Some(24)
    else if name == "session" then Some(26)
    else if name == "deviceInfo" then Some(32)
    else if name == "customTag" then Some(38)
    else if name == "customClientType" then Some(39)
    else if name == "sdkHumanVersion" then Some(40)
    else if name == "sdkType" then Some(41)
    else if name == "userAgent" then Some(42)
    else if name == "libEnv" then Some(44)
    else if name == "isReactNative" then Some(112)
    else if name == "authType" then Some(115)
    else if name == "loginExt" then Some(116)
    else if name == "token" then Some(1000)
    else None
  }

  /** The numbers of the fields by name, in the order of the numbers. */
  const FIELD_NAMES: seq<string> := [
      "clientType", "os", "sdkVersion", "appLogin", "protocolVersion", "pushTokenName", "pushToken", "deviceId",
      "appKey", "account", "browser", "session", "deviceInfo", "customTag", "customClientType", "sdkHumanVersion",
      "sdkType", "userAgent", "libEnv", "isReactNative", "authType", "loginExt", "token"]

  const FIELD_IDS: seq<u32> := [
    3, 4, 6, 8, 9, 10, 11, 13, 18, 19, 24, 26, 32, 38, 39, 40, 41, 42, 44, 112, 115, 116, 1000]

  /** A name has a number exactly if it is in the table, and then its own. */
  lemma FieldsExactly(name: string, id: u32)
    ensures FieldId(name) == Some(id) <==>
      exists k :: 0 <= k < 23 && FIELD_NAMES[k] == name && FIELD_IDS[k] == id
  {
    FieldNumbers();
    if forall k :: 0 <= k < 23 ==> FIELD_NAMES[k] != name {
      NotListed(name);
    }
  }

  lemma NotListed(name: string)
    requires forall k :: 0 <= k < 23 ==> FIELD_NAMES[k] != name
    ensures FieldId(name).None?
  {
    assert name != FIELD_NAMES[0] && name != FIELD_NAMES[1] && name != FIELD_NAMES[2] && name != FIELD_NAMES[3]
      && name != FIELD_NAMES[4] && name != FIELD_NAMES[5] && name != FIELD_NAMES[6] && name != FIELD_NAMES[7]
      && name != FIELD_NAMES[8] && name != FIELD_NAMES[9] && name != FIELD_NAMES[10] && name != FIELD_NAMES[11]
      && name != FIELD_NAMES[12] && name != FIELD_NAMES[13] && name != FIELD_NAMES[14] && name != FIELD_NAMES[15]
      && name != FIELD_NAMES[16] && name != FIELD_NAMES[17] && name != FIELD_NAMES[18] && name != FIELD_NAMES[19]
      && name != FIELD_NAMES[20] && name != FIELD_NAMES[21] && name != FIELD_NAMES[22];
  }

  lemma FieldNumbers()
    ensures forall k :: 0 <= k < 23 ==> FieldId(FIELD_NAMES[k]) == Some(FIELD_IDS[k])
  {
  }

  /** The entries as an ordered map, or the first thing wrong with them. */
  function Ordered(entries: seq<Entry>): (r: Result<map<u32, seq<byte>>, LoginError>)
    ensures r.Ok? ==> forall id :: id in r.value ==> id <= LAST_ID
  {
    if |entries| == 0 then Ok(map[])
    else
      var last := entries[|entries| - 1];
      var before :- Ordered(entries[..|entries| - 1]);
      var id := FieldId(last.name);
      if id.None? then Err(UnknownField)
      else if id.value in before then Err(DuplicateField)
      else Ok(before[id.value := last.value])
  }

  predicate Identified(fields: map<u32, seq<byte>>) {
    forall id {:trigger id in fields} :: id in {13, 18, 19, 26, 1000} ==> id in fields && fields[id] != []
  }

  /** The map's entries from `id` on, by ascending id. */
  function From(m: map<u32, seq<byte>>, id: nat): Property
    requires id <= LAST_ID + 1
    decreases LAST_ID + 1 - id
  {
    if id > LAST_ID then []
    else if id in m then [Field(id, m[id])] + From(m, id + 1)
    else From(m, id + 1)
  }

  /** They are ascending, and exactly those entries. */
  lemma {:induction false} FromExactly(m: map<u32, seq<byte>>, id: nat)
    requires id <= LAST_ID + 1
    ensures Ascending(From(m, id))
    ensures forall f :: f in From(m, id) <==> id <= f.id <= LAST_ID && f.id in m && m[f.id] == f.value
    ensures |From(m, id)| > 0 ==> From(m, id)[0].id >= id
    decreases LAST_ID + 1 - id
  {
    if id <= LAST_ID {
      FromExactly(m, id + 1);
    }
  }

  function LoginRequest(serial: u16, entries: seq<Entry>): Result<seq<byte>, LoginError> {
    var ordered :- Ordered(entries);
    if !Identified(ordered) then Err(MissingIdentity)
    else
      var body := NimProperty.Encoding(From(ordered, 0), MAX_LOGIN_FIELDS, MAX_LOGIN_BYTES);
      if body.Err? then Err(Encoding(body.error)) else Ok(Request(2, 3, serial) + body.value)
  }

  method Encode(serial: u16, entries: seq<Entry>) returns (r: Result<seq<byte>, LoginError>)
    ensures r == LoginRequest(serial, entries)
  {
    var ordered: map<u32, seq<byte>> := map[];
    for i := 0 to |entries|
      invariant Ordered(entries[..i]) == Ok(ordered)
    {
      assert entries[..i + 1][..i] == entries[..i];
      var id := FieldId(entries[i].name);
      if id.None? {
        WrongStays(entries, i + 1, UnknownField);
        return Err(UnknownField);
      }
      if id.value in ordered {
        WrongStays(entries, i + 1, DuplicateField);
        return Err(DuplicateField);
      }
      ordered := ordered[id.value := entries[i].value];
    }
    assert entries[..|entries|] == entries;
    if !Identified(ordered) {
      return Err(MissingIdentity);
    }
    var properties := InOrder(ordered);
    var body := NimProperty.Encode(properties, MAX_LOGIN_FIELDS, MAX_LOGIN_BYTES);
    if body.Err? {
      return Err(Encoding(body.error));
    }
    r := Ok(Request(2, 3, serial) + body.value);
  }

  lemma {:induction false} WrongStays(entries: seq<Entry>, n: nat, e: LoginError)
    requires n <= |entries| && Ordered(entries[..n]) == Err(e)
    ensures Ordered(entries) == Err(e)
    decreases |entries| - n
  {
    if n == |entries| {
      assert entries[..n] == entries;
    } else {
      assert entries[..n + 1][..n] == entries[..n];
      WrongStays(entries, n + 1, e);
    }
  }

  /** Iterating the ordered map. */
  method InOrder(m: map<u32, seq<byte>>) returns (fields: Property)
    ensures fields == From(m, 0)
  {
    fields := [];
    for id: nat := 0 to LAST_ID + 1
      invariant From(m, 0) == fields + From(m, id)
    {
      if id in m {
        Associate(fields, [Field(id, m[id])], From(m, id + 1));
        fields := fields + [Field(id, m[id])];
      }
    }
    assert fields + [] == fields;
  }

  // ---- What does and does not depend on the order of the entries ----

  predicate Known(entries: seq<Entry>) {
    forall e :: e in entries ==> FieldId(e.name).Some?
  }

  /** Some id is given twice. */
  predicate Repeats(entries: seq<Entry>) {
    exists i, j :: 0 <= i < j < |entries| && SameField(entries[i], entries[j])
  }

  predicate SameField(a: Entry, b: Entry) {
    FieldId(a.name).Some? && FieldId(a.name) == FieldId(b.name)
  }

  predicate Sources(m: map<u32, seq<byte>>, entries: seq<Entry>) {
    && (forall e :: e in entries ==>
          FieldId(e.name).Some? && FieldId(e.name).value in m && m[FieldId(e.name).value] == e.value)
    && (forall id :: id in m ==> exists e :: e in entries && FieldId(e.name) == Some(id))
  }

  /** Ordering succeeds exactly on known, distinct fields, and holds each; it reports a kind of mistake only
      when there is one. */
  lemma {:induction false} OrdersExactly(entries: seq<Entry>)
    ensures Ordered(entries).Ok? <==> Known(entries) && !Repeats(entries)
    ensures Ordered(entries).Ok? ==> Sources(Ordered(entries).value, entries)
    ensures Ordered(entries) == Err(UnknownField) ==> !Known(entries)
    ensures Ordered(entries) == Err(DuplicateField) ==> Repeats(entries)
    ensures Ordered(entries).Err? ==> Ordered(entries).error in {UnknownField, DuplicateField}
  {
    if |entries| > 0 {
      var n := |entries| - 1;
      var before, last := entries[..n], entries[n];
      OrdersExactly(before);
      assert entries == before + [last];
      RepeatsOneMore(before, last);
      if Ordered(before).Ok? && FieldId(last.name).Some? {
        var id, m := FieldId(last.name).value, Ordered(before).value;
        assert id in m <==> exists e :: e in before && SameField(e, last);
        if id !in m {
          SourcesOneMore(m, before, last);
        }
      }
    }
  }

  lemma RepeatsOneMore(before: seq<Entry>, last: Entry)
    ensures Repeats(before + [last]) <==> Repeats(before) || exists e :: e in before && SameField(e, last)
  {
    var entries := before + [last];
    if Repeats(entries) {
      var i, j :| 0 <= i < j < |entries| && SameField(entries[i], entries[j]);
      if j < |before| {
        assert SameField(before[i], before[j]);
      } else {
        assert before[i] in before && SameField(before[i], last);
      }
    }
    if Repeats(before) {
      var i, j :| 0 <= i < j < |before| && SameField(before[i], before[j]);
      assert SameField(entries[i], entries[j]);
    }
    if e :| e in before && SameField(e, last) {
      var i :| 0 <= i < |before| && before[i] == e;
      assert SameField(entries[i], entries[|before|]);
    }
  }

  lemma SourcesOneMore(m: map<u32, seq<byte>>, before: seq<Entry>, last: Entry)
    requires Sources(m, before) && FieldId(last.name).Some? && FieldId(last.name).value !in m
    ensures Sources(m[FieldId(last.name).value := last.value], before + [last])
  {
    var extended := m[FieldId(last.name).value := last.value];
    forall id | id in extended
      ensures exists e :: e in before + [last] && FieldId(e.name) == Some(id)
    {
      if id in m {
        var e :| e in before && FieldId(e.name) == Some(id);
        assert e in before + [last];
      } else {
        assert last in before + [last];
      }
    }
  }

  /** The same entries in another order. */
  predicate Permuted(a: seq<Entry>, b: seq<Entry>) {
    multiset(a) == multiset(b)
  }

  lemma PermutedMembers(a: seq<Entry>, b: seq<Entry>, e: Entry)
    requires Permuted(a, b)
    ensures e in a <==> e in b
  {
    assert e in a <==> e in multiset(a);
    assert e in b <==> e in multiset(b);
  }

  lemma {:induction false} TwoPlaces(s: seq<Entry>, e: Entry)
    requires multiset(s)[e] >= 2
    ensures exists i, j :: 0 <= i < j < |s| && s[i] == e && s[j] == e
  {
    var n := |s| - 1;
    assert s == s[..n] + [s[n]];
    if s[n] == e {
      assert e in multiset(s[..n]);
      var i :| 0 <= i < n && s[..n][i] == e;
      assert s[i] == e && s[n] == e;
    } else {
      TwoPlaces(s[..n], e);
      var i, j :| 0 <= i < j < n && s[..n][i] == e && s[..n][j] == e;
      assert s[i] == e && s[j] == e;
    }
  }

  function Without(s: seq<Entry>, i: nat): seq<Entry>
    requires i < |s|
  {
    s[..i] + s[i + 1..]
  }

  lemma TakenOut(s: seq<Entry>, i: nat)
    requires i < |s|
    ensures multiset(s) == multiset([s[i]] + Without(s, i))
    ensures multiset(s) == multiset{s[i]} + multiset(Without(s, i))
  {
    assert s == s[..i] + [s[i]] + s[i + 1..];
  }

  lemma TakenOutTwice(s: seq<Entry>, i: nat, j: nat)
    requires i < j < |s|
    ensures Without(s, j)[i] == s[i]
    ensures multiset(s) == multiset([s[i], s[j]] + Without(Without(s, j), i))
    ensures multiset(s) == multiset{s[i], s[j]} + multiset(Without(Without(s, j), i))
  {
    hide Without;
    assert Without(s, j)[i] == s[i] by {
      WithoutKeeps(s, i, j);
    }
    TakenOut(s, j);
    TakenOut(Without(s, j), i);
  }

  lemma WithoutKeeps(s: seq<Entry>, i: nat, j: nat)
    requires i < j < |s|
    ensures |Without(s, j)| == |s| - 1 && Without(s, j)[i] == s[i]
  {
  }

  lemma RepeatsPermuted(a: seq<Entry>, b: seq<Entry>)
    requires Permuted(a, b) && Repeats(a)
    ensures Repeats(b)
  {
    var i, j :| 0 <= i < j < |a| && SameField(a[i], a[j]);
    if a[i] == a[j] {
      TakenOutTwice(a, i, j);
      TwoPlaces(b, a[i]);
      var k, l :| 0 <= k < l < |b| && b[k] == a[i] && b[l] == a[i];
      assert SameField(b[k], b[l]);
    } else {
      PermutedMembers(a, b, a[i]);
      PermutedMembers(a, b, a[j]);
      var k :| 0 <= k < |b| && b[k] == a[i];
      var l :| 0 <= l < |b| && b[l] == a[j];
      if k < l {
        assert SameField(b[k], b[l]);
      } else {
        assert SameField(b[l], b[k]);
      }
    }
  }

  lemma OneMap(m: map<u32, seq<byte>>, k: map<u32, seq<byte>>, a: seq<Entry>, b: seq<Entry>)
    requires Sources(m, a) && Sources(k, b) && Permuted(a, b)
    ensures m == k
  {
    forall e
      ensures e in a <==> e in b
    {
      PermutedMembers(a, b, e);
    }
    forall id | id in m
      ensures id in k && k[id] == m[id]
    {
      var e :| e in a && FieldId(e.name) == Some(id);
      assert e in b;
    }
    forall id | id in k
      ensures id in m
    {
      var e :| e in b && FieldId(e.name) == Some(id);
      assert e in a;
    }
  }

  /** The request does not depend on the order the fields are given in: it is the same, byte for byte or
      error for error, unless one list holds both an unknown field and a repeated one. */
  lemma OrderIndependent(serial: u16, a: seq<Entry>, b: seq<Entry>)
    requires Permuted(a, b)
    requires Known(a) || !Repeats(a)
    ensures LoginRequest(serial, a) == LoginRequest(serial, b)
  {
    hide From, Identified;
    OrdersExactly(a);
    OrdersExactly(b);
    forall e
      ensures e in a <==> e in b
    {
      PermutedMembers(a, b, e);
    }
    if Repeats(a) {
      RepeatsPermuted(a, b);
    }
    if Repeats(b) {
      RepeatsPermuted(b, a);
    }
    if Ordered(a).Ok? {
      OneMap(Ordered(a).value, Ordered(b).value, a, b);
    }
  }

  /** With both mistakes in it, a list can be put in two orders that are reported differently. */
  lemma OrderMatters(serial: u16, a: seq<Entry>)
    returns (b: seq<Entry>, c: seq<Entry>)
    requires !Known(a) && Repeats(a)
    ensures Permuted(a, b) && Permuted(a, c)
    ensures LoginRequest(serial, b) == Err(UnknownField)
    ensures LoginRequest(serial, c) == Err(DuplicateField)
  {
    var u :| 0 <= u < |a| && FieldId(a[u].name).None?;
    var i, j :| 0 <= i < j < |a| && SameField(a[i], a[j]);
    TakenOut(a, u);
    TakenOutTwice(a, i, j);
    b := [a[u]] + Without(a, u);
    c := [a[i], a[j]] + Without(Without(a, j), i);
    UnknownFirst(a[u], Without(a, u));
    RepeatFirst(a[i], a[j], Without(Without(a, j), i));
  }

  lemma UnknownFirst(e: Entry, rest: seq<Entry>)
    requires FieldId(e.name).None?
    ensures Ordered([e] + rest) == Err(UnknownField)
  {
    var b := [e] + rest;
    assert b[..1] == [e] && [e][..0] == [];
    assert Ordered([e][..0]) == Ok(map[]);
    WrongStays(b, 1, UnknownField);
  }

  lemma RepeatFirst(e: Entry, f: Entry, rest: seq<Entry>)
    requires SameField(e, f)
    ensures Ordered([e, f] + rest) == Err(DuplicateField)
  {
    var c := [e, f] + rest;
    assert c[..2] == [e, f] && [e, f][..1] == [e] && [e][..0] == [];
    assert Ordered([]) == Ok(map[]);
    assert Ordered([e]) == Ok(map[FieldId(e.name).value := e.value]);
    assert Ordered([e, f]) == Err(DuplicateField);
    WrongStays(c, 2, DuplicateField);
  }

  predicate Gives(entries: seq<Entry>, name: string) {
    exists e :: e in entries && e.name == name && e.value != []
  }

  lemma GivesExactly(entries: seq<Entry>, m: map<u32, seq<byte>>, name: string, id: u32)
    requires Sources(m, entries) && forall other :: FieldId(other) == Some(id) <==> other == name
    ensures Gives(entries, name) <==> id in m && m[id] != []
  {
    hide FieldId;
    if id in m {
      var e :| e in entries && FieldId(e.name) == Some(id);
      assert m[id] == e.value;
    }
  }

  lemma IdentityFields()
    ensures forall name :: FieldId(name) == Some(13) <==> name == "deviceId"
    ensures forall name :: FieldId(name) == Some(18) <==> name == "appKey"
    ensures forall name :: FieldId(name) == Some(19) <==> name == "account"
    ensures forall name :: FieldId(name) == Some(26) <==> name == "session"
    ensures forall name :: FieldId(name) == Some(1000) <==> name == "token"
  {
    FieldNumbers();
    assert FIELD_NAMES[7] == "deviceId" && FIELD_NAMES[8] == "appKey" && FIELD_NAMES[9] == "account"
      && FIELD_NAMES[11] == "session" && FIELD_NAMES[22] == "token";
    forall name: string
      ensures FieldId(name) == Some(13) ==> name == "deviceId"
      ensures FieldId(name) == Some(18) ==> name == "appKey"
      ensures FieldId(name) == Some(19) ==> name == "account"
      ensures FieldId(name) == Some(26) ==> name == "session"
      ensures FieldId(name) == Some(1000) ==> name == "token"
    {
    }
    hide FieldId;
  }

  /** A request is refused for a field unknown or repeated, then for an identity not given, and otherwise only for what
      the property list cannot hold. */
  lemma RequestExactly(serial: u16, entries: seq<Entry>)
    ensures var r := LoginRequest(serial, entries);
      var orderly := Known(entries) && !Repeats(entries);
      var identified := Gives(entries, "deviceId") && Gives(entries, "appKey") && Gives(entries, "account")
        && Gives(entries, "session") && Gives(entries, "token");
      && (r == Err(UnknownField) || r == Err(DuplicateField) <==> !orderly)
      && (r == Err(MissingIdentity) <==> orderly && !identified)
      && (r.Ok? || r.error.Encoding? <==> orderly && identified)
  {
    OrdersExactly(entries);
    if Ordered(entries).Ok? {
      var m := Ordered(entries).value;
      IdentityFields();
      GivesExactly(entries, m, "deviceId", 13);
      GivesExactly(entries, m, "appKey", 18);
      GivesExactly(entries, m, "account", 19);
      GivesExactly(entries, m, "session", 26);
      GivesExactly(entries, m, "token", 1000);
      IdentifiedExactly(m);
    }
    hide FieldId, Ordered, Identified, From, Known, Repeats, Gives, Sources, NimProperty.Encoding;
  }

  lemma IdentifiedExactly(m: map<u32, seq<byte>>)
    ensures Identified(m) <==>
      && 13 in m && m[13] != [] && 18 in m && m[18] != [] && 19 in m && m[19] != []
      && 26 in m && m[26] != [] && 1000 in m && m[1000] != []
  {
    if Identified(m) {
      assert 13 in m && 18 in m && 19 in m && 26 in m && 1000 in m;
    }
  }

  /** An accepted request is a route-2/3 frame whose body decodes to the given fields in ascending order. */
  lemma RequestReadsBack(serial: u16, entries: seq<Entry>)
    requires LoginRequest(serial, entries).Ok?
    ensures var frame := LoginRequest(serial, entries).value;
      && Splitting(frame, |frame|) == Ok(Packet(Header(0, 2, 3, serial, 0, 200, 6), frame[6..]))
      && var d := NimProperty.Decoding(frame[6..], MAX_LOGIN_FIELDS, MAX_LOGIN_BYTES);
         && d.Ok? && d.value.1 == |frame| - 6
         && Ascending(d.value.0)
         && (forall f :: f in d.value.0 <==>
               exists e :: e in entries && FieldId(e.name) == Some(f.id) && e.value == f.value)
  {
    hide From, NimProperty.Encoding, NimProperty.Decoding, Wire, Parsing, Ordered, Identified;
    OrdersExactly(entries);
    var ordered := Ordered(entries).value;
    var fields := From(ordered, 0);
    FromExactly(ordered, 0);
    EncodesExactly(fields, MAX_LOGIN_FIELDS, MAX_LOGIN_BYTES);
    var frame := LoginRequest(serial, entries).value;
    assert frame[6..] == Wire(fields);
    NimHeader.RequestReadsBack(2, 3, serial, Wire(fields), |frame|);
    RoundTrip(fields, [], MAX_LOGIN_FIELDS, MAX_LOGIN_BYTES);
    assert Wire(fields) + [] == Wire(fields);
    forall f | f in fields
      ensures exists e :: e in entries && FieldId(e.name) == Some(f.id) && e.value == f.value
    {
      var e :| e in entries && FieldId(e.name) == Some(f.id);
      assert ordered[f.id] == e.value;
    }
  }

  // ---- The answer ----

  datatype LoginResponse = LoginResponse(
    connectionId: Option<seq<byte>>, ip: Option<seq<byte>>, port: Option<seq<byte>>, raw: Property)

  datatype AuthResponse = AuthResponse(login: LoginResponse, ports: seq<Property>, push: Property)

  /** The last value under `id`. */
  function LastOf(fields: Property, id: u32): Option<seq<byte>> {
    if |fields| == 0 then None
    else
      var last := fields[|fields| - 1];
      if last.id == id then Some(last.value) else LastOf(fields[..|fields| - 1], id)
  }

  function ResponseOf(fields: Property): LoginResponse {
    LoginResponse(LastOf(fields, 102), LastOf(fields, 103), LastOf(fields, 104), fields)
  }

  method DecodeResponse(fields: Property) returns (r: LoginResponse)
    ensures r == ResponseOf(fields)
  {
    r := LoginResponse(None, None, None, []);
    for i := 0 to |fields|
      invariant r == ResponseOf(fields[..i])
    {
      assert fields[..i + 1][..i] == fields[..i];
      var f := fields[i];
      match f.id {
        case 102 => r := r.(connectionId := Some(f.value));
        case 103 => r := r.(ip := Some(f.value));
        case 104 => r := r.(port := Some(f.value));
        case _ =>
      }
      r := r.(raw := r.raw + [f]);
    }
    assert fields[..|fields|] == fields;
  }

  function Occurrences(fields: Property, id: u32): nat {
    if |fields| == 0 then 0
    else (if fields[|fields| - 1].id == id then 1 else 0) + Occurrences(fields[..|fields| - 1], id)
  }

  function Checked(fields: Property): Result<LoginResponse, LoginError> {
    if Occurrences(fields, 102) != 1 then Err(InvalidResponse)
    else
      var login := ResponseOf(fields);
      if login.connectionId.None? || login.connectionId.value == [] then Err(MissingConnection) else Ok(login)
  }

  /** `value` is the last under `id`, if there is any. */
  ghost predicate IsLast(fields: Property, id: u32, value: Option<seq<byte>>) {
    match value
    case Some(v) =>
      exists i :: 0 <= i < |fields| && fields[i] == Field(id, v) && forall j :: i < j < |fields| ==> fields[j].id != id
    case None => forall i :: 0 <= i < |fields| ==> fields[i].id != id
  }

  lemma {:induction false} LastIsLast(fields: Property, id: u32)
    ensures IsLast(fields, id, LastOf(fields, id))
  {
    if |fields| > 0 {
      var front := fields[..|fields| - 1];
      LastIsLast(front, id);
      assert forall i :: 0 <= i < |front| ==> front[i] == fields[i];
    }
  }

  /** The places of an id. */
  ghost function PlacesOf(fields: Property, id: u32): set<nat> {
    set i: nat | i < |fields| && fields[i].id == id
  }

  lemma {:induction false} OccurrencesExactly(fields: Property, id: u32)
    ensures Occurrences(fields, id) == |PlacesOf(fields, id)|
  {
    if |fields| > 0 {
      var front, last := fields[..|fields| - 1], fields[|fields| - 1];
      OccurrencesExactly(front, id);
      assert PlacesOf(fields, id) == PlacesOf(front, id) + if last.id == id then {|front|} else {};
      assert |front| !in PlacesOf(front, id);
      hide PlacesOf;
    } else {
      assert PlacesOf(fields, id) == {};
    }
  }

  /** The login list is accepted exactly if it names one connection, once, and not by nothing; the answer is then that
      connection, the last address and port given, and the list itself. */
  lemma CheckedExactly(fields: Property)
    ensures Checked(fields) == Err(InvalidResponse) <==> |PlacesOf(fields, 102)| != 1
    ensures Checked(fields) == Err(MissingConnection) <==>
      |PlacesOf(fields, 102)| == 1 && IsLast(fields, 102, Some([]))
    ensures Checked(fields).Err? ==> Checked(fields).error in {InvalidResponse, MissingConnection}
    ensures Checked(fields).Ok? ==>
      var r := Checked(fields).value;
      && r.raw == fields && r.connectionId.Some? && IsLast(fields, 102, r.connectionId)
      && IsLast(fields, 103, r.ip) && IsLast(fields, 104, r.port)
  {
    OccurrencesExactly(fields, 102);
    LastIsLast(fields, 102);
    LastIsLast(fields, 103);
    LastIsLast(fields, 104);
    if LastOf(fields, 102).None? {
      assert PlacesOf(fields, 102) == {};
    }
  }

  function Ports(): (read: Runs.Reader<Property, Error>)
    ensures Runs.Honest(read)
  {
    Lists(MAX_LIST, MAX_ANSWER)
  }

  /** The port lists and the push list behind the login list. */
  function ReadTail(bytes: seq<byte>, offset: nat, login: LoginResponse): Result<AuthResponse, LoginError>
    requires offset <= |bytes|
  {
    if offset == |bytes| then Ok(AuthResponse(login, [], []))
    else
      var count := Varint.Parsed(bytes[offset..], 5, 255);
      if !count.Value? || count.value > MAX_LIST then Err(InvalidResponse)
      else
        var ports := Runs.ReadRun(Ports(), bytes, offset + count.used, count.value);
        if ports.Err? then Err(Encoding(ports.error))
        else ReadPush(bytes, ports.value.1, login, ports.value.0)
  }

  function ReadPush(bytes: seq<byte>, offset: nat, login: LoginResponse, ports: seq<Property>):
    Result<AuthResponse, LoginError>
    requires offset <= |bytes|
  {
    if offset == |bytes| then Ok(AuthResponse(login, ports, []))
    else
      var push := Ports()(bytes[offset..]);
      if push.Err? then Err(Encoding(push.error))
      else if offset + push.value.1 != |bytes| then Err(InvalidResponse)
      else Ok(AuthResponse(login, ports, push.value.0))
  }

  function AuthOf(bytes: seq<byte>): Result<AuthResponse, LoginError> {
    if |bytes| > MAX_ANSWER then Err(InvalidResponse)
    else
      var first := Ports()(bytes);
      if first.Err? then Err(Encoding(first.error))
      else
        var login :- Checked(first.value.0);
        ReadTail(bytes, first.value.1, login)
  }

  method DecodeAuth(bytes: seq<byte>) returns (r: Result<AuthResponse, LoginError>)
    ensures r == AuthOf(bytes)
  {
    hide NimProperty.Decoding, Runs.ReadRun, Runs.Prepended, Varint.Parsed;
    if |bytes| > MAX_ANSWER {
      return Err(InvalidResponse);
    }
    var first := NimProperty.Decode(bytes, MAX_LIST, MAX_ANSWER);
    if first.Err? {
      return Err(Encoding(first.error));
    }
    var (fields, offset) := first.value;
    var ids := 0;
    for i := 0 to |fields|
      invariant ids == Occurrences(fields[..i], 102)
    {
      assert fields[..i + 1][..i] == fields[..i];
      if fields[i].id == 102 {
        ids := ids + 1;
      }
    }
    assert fields[..|fields|] == fields;
    if ids != 1 {
      return Err(InvalidResponse);
    }
    var login := DecodeResponse(fields);
    if login.connectionId.None? || login.connectionId.value == [] {
      return Err(MissingConnection);
    }
    r := DecodeTail(bytes, offset, login);
  }

  method DecodeTail(bytes: seq<byte>, start: nat, login: LoginResponse) returns (r: Result<AuthResponse, LoginError>)
    requires start <= |bytes|
    ensures r == ReadTail(bytes, start, login)
  {
    hide NimProperty.Decoding, Runs.ReadRun, Runs.Prepended, Varint.Parsed;
    if start == |bytes| {
      return Ok(AuthResponse(login, [], []));
    }
    var count, offset := Varint.Read(bytes, start, 5, 255);
    if !count.Value? || count.value > MAX_LIST {
      return Err(InvalidResponse);
    }
    var ports: seq<Property> := [];
    ghost var whole := Runs.ReadRun(Ports(), bytes, offset, count.value);
    Runs.PrependNothing(whole);
    for i := 0 to count.value
      invariant 0 <= offset <= |bytes|
      invariant whole == Runs.Prepended(ports, Runs.ReadRun(Ports(), bytes, offset, count.value - i))
    {
      Runs.OneMore(Ports(), bytes, offset, count.value - i, ports);
      var port := NimProperty.Decode(bytes[offset..], MAX_LIST, MAX_ANSWER);
      if port.Err? {
        return Err(Encoding(port.error));
      }
      ports, offset := ports + [port.value.0], offset + port.value.1;
    }
    Runs.NoMore(Ports(), bytes, offset, ports);
    var push: Property, used := [], 0;
    if offset != |bytes| {
      var last := NimProperty.Decode(bytes[offset..], MAX_LIST, MAX_ANSWER);
      if last.Err? {
        return Err(Encoding(last.error));
      }
      push, used := last.value.0, last.value.1;
    }
    if offset + used != |bytes| {
      return Err(InvalidResponse);
    }
    r := Ok(AuthResponse(login, ports, push));
  }

  /** A count, that many port lists, and possibly one push list at the very end. */
  ghost predicate Parts(tail: seq<byte>, count: seq<byte>, pieces: seq<seq<byte>>, last: seq<byte>,
                        ports: seq<Property>, push: Property) {
    && tail == count + (Flatten(pieces) + last)
    && |ports| <= MAX_LIST && Varint.Parsed(count, 5, 255) == Varint.Value(|ports|, |count|)
    && Runs.Laid(Ports(), pieces, ports)
    && (if last == [] then push == [] else Runs.Whole(Ports(), last, push))
  }

  /** What may lie behind the login list. */
  ghost predicate TailLaid(tail: seq<byte>, ports: seq<Property>, push: Property) {
    || (tail == [] && ports == [] && push == [])
    || exists count: seq<byte>, pieces: seq<seq<byte>>, last: seq<byte> ::
         Parts(tail, count, pieces, last, ports, push)
  }

  ghost predicate Laid(bytes: seq<byte>, fields: Property, ports: seq<Property>, push: Property) {
    exists head: seq<byte>, tail: seq<byte> ::
      bytes == head + tail && Runs.Whole(Ports(), head, fields) && TailLaid(tail, ports, push)
  }

  lemma PartsAreRead(bytes: seq<byte>, offset: nat, login: LoginResponse, count: seq<byte>, pieces: seq<seq<byte>>,
                     last: seq<byte>, ports: seq<Property>, push: Property)
    requires offset <= |bytes| <= MAX_ANSWER && Parts(bytes[offset..], count, pieces, last, ports, push)
    ensures ReadTail(bytes, offset, login) == Ok(AuthResponse(login, ports, push))
  {
    hide Varint.Parsed, Runs.Laid, Flatten, Runs.ReadRun, Runs.Local, Ports, ReadPush;
    var rest := Flatten(pieces) + last;
    CountIsRead(count, rest, |ports|);
    StepOver(bytes, offset, count, rest);
    PortsAreLocal();
    Runs.LaidIsRead(Ports(), bytes, offset + |count|, pieces, ports, last, MAX_ANSWER);
    StepOver(bytes, offset + |count|, Flatten(pieces), last);
    var end := offset + |count| + |Flatten(pieces)|;
    assert ReadTail(bytes, offset, login) == ReadPush(bytes, end, login, ports);
    PushIsRead(bytes, end, login, ports, push);
  }

  lemma CountIsRead(count: seq<byte>, rest: seq<byte>, n: nat)
    requires Varint.Parsed(count, 5, 255) == Varint.Value(n, |count|)
    ensures Varint.Parsed(count + rest, 5, 255) == Varint.Value(n, |count|)
  {
    Varint.OwnBytesOnly(count, 5, 255, |count|, rest);
    assert count[..|count|] == count;
  }

  lemma PushIsRead(bytes: seq<byte>, end: nat, login: LoginResponse, ports: seq<Property>, push: Property)
    requires end <= |bytes|
    requires if bytes[end..] == [] then push == [] else Runs.Whole(Ports(), bytes[end..], push)
    ensures ReadPush(bytes, end, login, ports) == Ok(AuthResponse(login, ports, push))
  {
    hide Ports;
  }

  lemma TailLaidIsRead(bytes: seq<byte>, offset: nat, login: LoginResponse, ports: seq<Property>, push: Property)
    requires offset <= |bytes| <= MAX_ANSWER && TailLaid(bytes[offset..], ports, push)
    ensures ReadTail(bytes, offset, login) == Ok(AuthResponse(login, ports, push))
  {
    hide Parts, Varint.Parsed, Runs.ReadRun, Ports;
    if count: seq<byte>, pieces: seq<seq<byte>>, last: seq<byte> :|
      Parts(bytes[offset..], count, pieces, last, ports, push) {
      PartsAreRead(bytes, offset, login, count, pieces, last, ports, push);
    }
  }

  lemma PortsAreLocal()
    ensures Runs.Local(Ports(), MAX_ANSWER)
  {
    ListsAreLocal(MAX_LIST, MAX_ANSWER);
  }

  lemma ReadTailIsLaid(bytes: seq<byte>, offset: nat, login: LoginResponse)
    requires offset <= |bytes| <= MAX_ANSWER && ReadTail(bytes, offset, login).Ok?
    ensures var r := ReadTail(bytes, offset, login).value;
      r.login == login && TailLaid(bytes[offset..], r.ports, r.push)
  {
    hide Varint.Parsed, Runs.Laid, Flatten, Runs.ReadRun, Runs.Local, Ports, Runs.Whole;
    if offset < |bytes| {
      var s := bytes[offset..];
      var read := Varint.Parsed(s, 5, 255);
      var count := s[..read.used];
      Varint.OwnBytesOnly(s, 5, 255, read.used, []);
      assert count + [] == count;
      PortsAreLocal();
      var from := offset + read.used;
      var pieces := Runs.ReadIsLaid(Ports(), bytes, from, read.value, MAX_ANSWER);
      var (ports, end) := Runs.ReadRun(Ports(), bytes, from, read.value).value;
      var last := bytes[end..];
      SliceInTwo(bytes, offset, from, |bytes|);
      SliceInTwo(bytes, from, end, |bytes|);
      var push := ReadPush(bytes, end, login, ports).value.push;
      if last != [] {
        Runs.ReadIsWhole(Ports(), last, MAX_ANSWER);
        assert last[..|last|] == last;
      }
      assert s == bytes[offset..|bytes|] && bytes[from..|bytes|] == bytes[from..] && bytes[end..|bytes|] == last;
      assert Parts(s, count, pieces, last, ports, push);
    }
  }

  /** An answer is accepted exactly when it is a login list with one nonempty connection id, followed by
      nothing or by the counted port lists and possibly the push list, and by not one byte more. */
  lemma AcceptsExactly(bytes: seq<byte>, fields: Property, ports: seq<Property>, push: Property)
    ensures AuthOf(bytes) == Ok(AuthResponse(ResponseOf(fields), ports, push)) <==>
      |bytes| <= MAX_ANSWER && Checked(fields).Ok? && Laid(bytes, fields, ports, push)
  {
    hide TailLaid, ReadTail, Runs.Local, Ports;
    PortsAreLocal();
    if AuthOf(bytes) == Ok(AuthResponse(ResponseOf(fields), ports, push)) {
      var (found, used) := Ports()(bytes).value;
      ReadTailIsLaid(bytes, used, ResponseOf(found));
      Runs.ReadIsWhole(Ports(), bytes, MAX_ANSWER);
      assert bytes == bytes[..used] + bytes[used..];
    }
    if |bytes| <= MAX_ANSWER && Checked(fields).Ok? && Laid(bytes, fields, ports, push) {
      var head, tail :| bytes == head + tail && Runs.Whole(Ports(), head, fields) && TailLaid(tail, ports, push);
      Runs.WholeIsRead(Ports(), head, fields, tail, MAX_ANSWER);
      assert bytes[|head|..] == tail;
      TailLaidIsRead(bytes, |head|, ResponseOf(fields), ports, push);
    }
  }
}
