/** Reading a group's roster page by page under the session lock. */
module MemberPages {
  import opened Bytes

  const MAX_PAGES: nat := 100
  const MAX_MEMBERS: nat := 100000

  datatype Member = Member(userId: int, about: string)

  datatype Page = Page(members: seq<Member>, next: Option<string>)

  datatype Error = Failed(code: int) | TooManyMembers | RepeatedCursor | TooManyPages

  /** The server while the lock is held: what it answers for a cursor, or for the first page. */
  type Fetch = Option<string> -> Result<Page, int>

  function Merged(values: map<int, Member>, members: seq<Member>): map<int, Member> {
    if |members| == 0 then values
    else Merged(values, members[..|members| - 1])[members[|members| - 1].userId := members[|members| - 1]]
  }

  function Paging(fetch: Fetch, cursor: Option<string>, seen: set<string>, values: map<int, Member>, page: nat):
    Result<(map<int, Member>, nat), Error>
    decreases MAX_PAGES + 1 - page
  {
    if page > MAX_PAGES then Err(TooManyPages)
    else
      match fetch(cursor)
      case Err(code) => Err(Failed(code))
      case Ok(p) =>
        var all := Merged(values, p.members);
        if |all| > MAX_MEMBERS then Err(TooManyMembers)
        else
          match p.next
          case None => Ok((all, page))
          case Some(next) =>
            if next in seen then Err(RepeatedCursor) else Paging(fetch, Some(next), seen + {next}, all, page + 1)
  }

  function Listing(fetch: Fetch): Result<(map<int, Member>, nat), Error> {
    Paging(fetch, None, {}, map[], 1)
  }

  method ListMembers(fetch: Fetch) returns (r: Result<(map<int, Member>, nat), Error>)
    ensures r == Listing(fetch)
  {
    hide Listing, Paging, Merged;
    var values: map<int, Member> := map[];
    var seen: set<string> := {};
    var cursor: Option<string> := None;
    ListingBegins(fetch);
    for page := 1 to MAX_PAGES + 1
      invariant Paging(fetch, cursor, seen, values, page) == Listing(fetch)
    {
      OnePage(fetch, cursor, seen, values, page);
      var data := fetch(cursor);
      if data.Err? {
        return Err(Failed(data.error));
      }
      values := Merge(values, data.value.members);
      if |values| > MAX_MEMBERS {
        return Err(TooManyMembers);
      }
      if data.value.next.None? {
        return Ok((values, page));
      }
      var next := data.value.next.value;
      if next in seen {
        return Err(RepeatedCursor);
      }
      seen := seen + {next};
      cursor := Some(next);
    }
    OnePage(fetch, cursor, seen, values, MAX_PAGES + 1);
    r := Err(TooManyPages);
  }

  lemma ListingBegins(fetch: Fetch)
    ensures Listing(fetch) == Paging(fetch, None, {}, map[], 1)
  {
    hide Paging;
  }

  /** One page read. */
  lemma OnePage(fetch: Fetch, cursor: Option<string>, seen: set<string>, values: map<int, Member>, page: nat)
    ensures Paging(fetch, cursor, seen, values, page) ==
      if page > MAX_PAGES then Err(TooManyPages)
      else
        match fetch(cursor)
        case Err(code) => Err(Failed(code))
        case Ok(p) =>
          var all := Merged(values, p.members);
          if |all| > MAX_MEMBERS then Err(TooManyMembers)
          else
            match p.next
            case None => Ok((all, page))
            case Some(next) =>
              if next in seen then Err(RepeatedCursor) else Paging(fetch, Some(next), seen + {next}, all, page + 1)
  {
    hide Merged;
  }

  method Merge(values: map<int, Member>, members: seq<Member>) returns (all: map<int, Member>)
    ensures all == Merged(values, members)
  {
    all := values;
    for i := 0 to |members|
      invariant all == Merged(values, members[..i])
    {
      assert members[..i + 1][..i] == members[..i];
      all := all[members[i].userId := members[i]];
    }
    assert members[..|members|] == members;
  }

  // ---- What is read ----

  function All(values: map<int, Member>, pages: seq<Page>): map<int, Member>
    decreases |pages|
  {
    if |pages| == 0 then values else All(Merged(values, pages[0].members), pages[1..])
  }

  /** From `cursor` on, each page names the next and the last names none. */
  ghost predicate Chained(fetch: Fetch, cursor: Option<string>, pages: seq<Page>) {
    && |pages| >= 1 && fetch(cursor) == Ok(pages[0]) && pages[|pages| - 1].next.None?
    && (forall i :: 0 <= i < |pages| - 1 ==> pages[i].next.Some? && fetch(pages[i].next) == Ok(pages[i + 1]))
  }

  /** No cursor is named twice. */
  ghost predicate Distinct(seen: set<string>, pages: seq<Page>) {
    && (forall i :: 0 <= i < |pages| && pages[i].next.Some? ==> pages[i].next.value !in seen)
    && (forall i, j :: 0 <= i < j < |pages| && pages[i].next.Some? ==> pages[i].next != pages[j].next)
  }

  ghost predicate Small(values: map<int, Member>, pages: seq<Page>) {
    forall k :: 1 <= k <= |pages| ==> |All(values, pages[..k])| <= MAX_MEMBERS
  }

  ghost predicate Readable(fetch: Fetch, cursor: Option<string>, seen: set<string>, values: map<int, Member>,
                           pages: seq<Page>) {
    Chained(fetch, cursor, pages) && Distinct(seen, pages) && Small(values, pages)
  }

  lemma SmallFirst(values: map<int, Member>, pages: seq<Page>)
    requires |pages| > 0
    ensures Small(values, pages) <==>
      |Merged(values, pages[0].members)| <= MAX_MEMBERS && Small(Merged(values, pages[0].members), pages[1..])
  {
    var after := Merged(values, pages[0].members);
    assert All(after, []) == after;
    forall k | 1 <= k <= |pages|
      ensures All(values, pages[..k]) == All(after, pages[1..][..k - 1])
    {
      assert pages[..k][0] == pages[0] && pages[..k][1..] == pages[1..][..k - 1];
    }
    assert pages[1..][..0] == [];
    if Small(values, pages) {
      assert |All(values, pages[..1])| <= MAX_MEMBERS;
      forall k | 1 <= k <= |pages[1..]|
        ensures |All(after, pages[1..][..k])| <= MAX_MEMBERS
      {
        assert |All(values, pages[..k + 1])| <= MAX_MEMBERS;
      }
    }
  }

  lemma ChainedFirst(fetch: Fetch, cursor: Option<string>, p: Page, tail: seq<Page>)
    requires |tail| > 0
    ensures Chained(fetch, cursor, [p] + tail) <==>
      fetch(cursor) == Ok(p) && p.next.Some? && Chained(fetch, p.next, tail)
  {
    var pages := [p] + tail;
    assert forall i :: 0 <= i < |tail| ==> pages[i + 1] == tail[i];
    if Chained(fetch, cursor, pages) {
      assert pages[0].next.Some? && fetch(pages[0].next) == Ok(pages[1]);
      forall i | 0 <= i < |tail| - 1
        ensures tail[i].next.Some? && fetch(tail[i].next) == Ok(tail[i + 1])
      {
        assert pages[i + 1].next.Some?;
      }
    }
  }

  lemma DistinctFirst(seen: set<string>, p: Page, tail: seq<Page>)
    requires p.next.Some?
    ensures Distinct(seen, [p] + tail) <==> p.next.value !in seen && Distinct(seen + {p.next.value}, tail)
  {
    var pages := [p] + tail;
    assert forall i :: 0 <= i < |tail| ==> pages[i + 1] == tail[i];
    if Distinct(seen, pages) {
      assert pages[0].next == p.next;
      forall i | 0 <= i < |tail| && tail[i].next.Some?
        ensures tail[i].next.value !in seen + {p.next.value}
      {
        assert pages[0].next != pages[i + 1].next;
      }
      forall i, j | 0 <= i < j < |tail| && tail[i].next.Some?
        ensures tail[i].next != tail[j].next
      {
        assert pages[i + 1].next != pages[j + 1].next;
      }
    }
  }

  /** Peeling off the first page of several. */
  lemma ReadableFirst(fetch: Fetch, cursor: Option<string>, seen: set<string>, values: map<int, Member>, p: Page,
                      tail: seq<Page>)
    requires |tail| > 0
    ensures Readable(fetch, cursor, seen, values, [p] + tail) <==>
      && fetch(cursor) == Ok(p) && p.next.Some? && p.next.value !in seen && |Merged(values, p.members)| <= MAX_MEMBERS
      && Readable(fetch, p.next, seen + {p.next.value}, Merged(values, p.members), tail)
  {
    hide Small, Merged, Chained, Distinct;
    var pages := [p] + tail;
    SmallFirst(values, pages);
    assert pages[1..] == tail;
    ChainedFirst(fetch, cursor, p, tail);
    if p.next.Some? {
      DistinctFirst(seen, p, tail);
    }
  }

  lemma {:induction false} PagesAreRead(fetch: Fetch, cursor: Option<string>, seen: set<string>,
                                        values: map<int, Member>, page: nat, pages: seq<Page>)
    requires Readable(fetch, cursor, seen, values, pages) && page + |pages| - 1 <= MAX_PAGES
    ensures Paging(fetch, cursor, seen, values, page) == Ok((All(values, pages), page + |pages| - 1))
    decreases |pages|
  {
    if |pages| == 1 {
      SmallFirst(values, pages);
      assert All(Merged(values, pages[0].members), pages[1..]) == Merged(values, pages[0].members);
    } else {
      var p, tail := pages[0], pages[1..];
      assert pages == [p] + tail;
      ReadableFirst(fetch, cursor, seen, values, p, tail);
      hide Readable, Merged;
      PagesAreRead(fetch, p.next, seen + {p.next.value}, Merged(values, p.members), page + 1, tail);
    }
  }

  /** A last page on its own. */
  lemma ReadableLast(fetch: Fetch, cursor: Option<string>, seen: set<string>, values: map<int, Member>, p: Page)
    requires fetch(cursor) == Ok(p) && p.next.None? && |Merged(values, p.members)| <= MAX_MEMBERS
    ensures Readable(fetch, cursor, seen, values, [p]) && All(values, [p]) == Merged(values, p.members)
  {
    hide Merged;
    var pages := [p];
    var all := Merged(values, p.members);
    assert pages[1..] == [] && All(all, []) == all;
    assert pages[..1] == pages;
  }

  lemma AllFirst(values: map<int, Member>, p: Page, tail: seq<Page>)
    ensures All(values, [p] + tail) == All(Merged(values, p.members), tail)
  {
    hide Merged;
    assert ([p] + tail)[1..] == tail;
  }

  lemma {:induction false} ReadIsPages(fetch: Fetch, cursor: Option<string>, seen: set<string>,
                                       values: map<int, Member>, page: nat) returns (pages: seq<Page>)
    requires Paging(fetch, cursor, seen, values, page).Ok?
    ensures Readable(fetch, cursor, seen, values, pages)
    ensures Paging(fetch, cursor, seen, values, page) == Ok((All(values, pages), page + |pages| - 1))
    ensures page + |pages| - 1 <= MAX_PAGES
    decreases MAX_PAGES + 1 - page
  {
    hide Readable, Merged, All, Paging;
    OnePage(fetch, cursor, seen, values, page);
    var p := fetch(cursor).value;
    if p.next.None? {
      ReadableLast(fetch, cursor, seen, values, p);
      pages := [p];
    } else {
      var after, all := seen + {p.next.value}, Merged(values, p.members);
      var tail := ReadIsPages(fetch, p.next, after, all, page + 1);
      NotEmpty(fetch, p.next, after, all, tail);
      ReadableFirst(fetch, cursor, seen, values, p, tail);
      AllFirst(values, p, tail);
      pages := [p] + tail;
    }
  }

  lemma NotEmpty(fetch: Fetch, cursor: Option<string>, seen: set<string>, values: map<int, Member>, pages: seq<Page>)
    requires Readable(fetch, cursor, seen, values, pages)
    ensures |pages| > 0
  {
  }

  /** A roster is returned exactly when the server's pages, followed by cursor from the first, come to an end
      within a hundred, name no cursor twice and never hold more than 100,000 members; then it is all of them. */
  lemma ListedExactly(fetch: Fetch, values: map<int, Member>, n: nat)
    ensures Listing(fetch) == Ok((values, n)) <==>
      n <= MAX_PAGES && exists pages: seq<Page> ::
        Readable(fetch, None, {}, map[], pages) && |pages| == n && values == All(map[], pages)
  {
    hide Readable, All;
    if Paging(fetch, None, {}, map[], 1).Ok? {
      var pages := ReadIsPages(fetch, None, {}, map[], 1);
    }
    forall pages: seq<Page> | Readable(fetch, None, {}, map[], pages) && |pages| <= MAX_PAGES
      ensures Paging(fetch, None, {}, map[], 1) == Ok((All(map[], pages), |pages|))
    {
      PagesAreRead(fetch, None, {}, map[], 1, pages);
    }
  }

  lemma {:induction false} MergedHas(values: map<int, Member>, members: seq<Member>, id: int)
    ensures id in Merged(values, members) <==> id in values || exists m :: m in members && m.userId == id
    ensures id in Merged(values, members) ==>
      Merged(values, members)[id] in members || (id in values && Merged(values, members)[id] == values[id])
  {
    if |members| > 0 {
      var front, last := members[..|members| - 1], members[|members| - 1];
      assert members == front + [last];
      assert forall m :: m in members <==> m in front || m == last;
      MergedHas(values, front, id);
    }
  }

  /** Nobody on any page is missing from the roster, and nobody else is on it. */
  lemma {:induction false} AllHas(values: map<int, Member>, pages: seq<Page>, id: int)
    ensures id in All(values, pages) <==>
      id in values || exists i, m :: 0 <= i < |pages| && m in pages[i].members && m.userId == id
    decreases |pages|
  {
    if |pages| > 0 {
      MergedHas(values, pages[0].members, id);
      AllHas(Merged(values, pages[0].members), pages[1..], id);
      hide Merged;
      forall i, m | 0 < i < |pages| && m in pages[i].members && m.userId == id
        ensures id in All(values, pages)
      {
        assert m in pages[1..][i - 1].members;
      }
      if id in All(values, pages) && id !in values {
        if exists m :: m in pages[0].members && m.userId == id {
          var m :| m in pages[0].members && m.userId == id;
          assert 0 <= 0 < |pages| && m in pages[0].members;
        } else {
          var i, m :| 0 <= i < |pages[1..]| && m in pages[1..][i].members && m.userId == id;
          assert m in pages[i + 1].members;
        }
      }
    }
  }
}
