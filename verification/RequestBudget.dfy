/** Cutting the context of an AI request down to its budget. */
module RequestBudget {
  import opened Bytes

  const MAX_RECENT_MESSAGES: nat := 8
  const MAX_RECENT_CHARS: nat := 2400
  const MAX_KNOWLEDGE_CHUNKS: nat := 3
  const MAX_KNOWLEDGE_CHARS: nat := 3600

  /** An item with its text; `about` stands for everything else it carries. */
  datatype Item = Item(text: string, about: string)

  function Cut(i: Item, n: nat): Item {
    if |i.text| <= n then i else i.(text := i.text[..n])
  }

  function Chars(items: seq<Item>): nat {
    if |items| == 0 then 0 else |items[0].text| + Chars(items[1..])
  }

  predicate HasText(i: Item) {
    i.text != ""
  }

  function WithText(items: seq<Item>): seq<Item> {
    if |items| == 0 then [] else (if HasText(items[0]) then [items[0]] else []) + WithText(items[1..])
  }

  /** Each item takes what is left of the budget, the first one first. */
  function Shared(items: seq<Item>, budget: nat): (r: seq<Item>)
    ensures |r| == |items|
  {
    if |items| == 0 then []
    else
      var first := Cut(items[0], budget);
      [first] + Shared(items[1..], budget - |first.text|)
  }

  function Reversed(items: seq<Item>): (r: seq<Item>)
    ensures |r| == |items|
  {
    if |items| == 0 then [] else Reversed(items[1..]) + [items[0]]
  }

  function LastOf(items: seq<Item>, n: nat): seq<Item> {
    if |items| <= n then items else items[|items| - n..]
  }

  function FirstOf(items: seq<Item>, n: nat): seq<Item> {
    if |items| <= n then items else items[..n]
  }

  function Recent(items: seq<Item>): seq<Item> {
    WithText(Reversed(Shared(Reversed(LastOf(items, MAX_RECENT_MESSAGES)), MAX_RECENT_CHARS)))
  }

  function Knowledge(items: seq<Item>): seq<Item> {
    WithText(Shared(FirstOf(items, MAX_KNOWLEDGE_CHUNKS), MAX_KNOWLEDGE_CHARS))
  }

  lemma {:induction false} ReversedAt(items: seq<Item>, k: nat)
    requires k < |items|
    ensures Reversed(items)[k] == items[|items| - 1 - k]
  {
    if k < |items| - 1 {
      ReversedAt(items[1..], k);
    }
  }

  lemma {:induction false} ReversedEnd(items: seq<Item>, last: Item)
    ensures Reversed(items + [last]) == [last] + Reversed(items)
  {
    var r := Reversed(items + [last]);
    forall k | 0 <= k < |r|
      ensures r[k] == ([last] + Reversed(items))[k]
    {
      ReversedAt(items + [last], k);
      if k > 0 {
        ReversedAt(items, k - 1);
      }
    }
  }

  /** Both lists of a request, cut in place: the recent messages from the newest back, the knowledge from the front. */
  method BoundedRequest(recent: seq<Item>, knowledge: seq<Item>) returns (r: seq<Item>, k: seq<Item>)
    ensures r == Recent(recent) && k == Knowledge(knowledge)
  {
    var last := if |recent| <= MAX_RECENT_MESSAGES then recent else recent[|recent| - MAX_RECENT_MESSAGES..];
    r := CutFromEnd(last, MAX_RECENT_CHARS);
    r := Retained(r);
    var first := if |knowledge| <= MAX_KNOWLEDGE_CHUNKS then knowledge else knowledge[..MAX_KNOWLEDGE_CHUNKS];
    k := CutFromFront(first, MAX_KNOWLEDGE_CHARS);
    k := Retained(k);
  }

  method CutFromFront(items: seq<Item>, budget: nat) returns (r: seq<Item>)
    ensures r == Shared(items, budget)
  {
    r := [];
    var remaining: nat := budget;
    for i := 0 to |items|
      invariant r + Shared(items[i..], remaining) == Shared(items, budget)
    {
      var item := Cut(items[i], remaining);
      assert items[i..][1..] == items[i + 1..];
      Associate(r, [item], Shared(items[i + 1..], remaining - |item.text|));
      remaining := remaining - |item.text|;
      r := r + [item];
    }
    assert items[|items|..] == [] && r + [] == r;
  }

  method CutFromEnd(items: seq<Item>, budget: nat) returns (r: seq<Item>)
    ensures r == Reversed(Shared(Reversed(items), budget))
  {
    var backwards := Backwards(items);
    var cut := CutFromFront(backwards, budget);
    r := Backwards(cut);
  }

  method Backwards(items: seq<Item>) returns (r: seq<Item>)
    ensures r == Reversed(items)
  {
    r := [];
    for i := 0 to |items|
      invariant r == Reversed(items[..i])
    {
      assert items[..i + 1] == items[..i] + [items[i]];
      ReversedEnd(items[..i], items[i]);
      r := [items[i]] + r;
    }
    assert items[..|items|] == items;
  }

  method Retained(items: seq<Item>) returns (r: seq<Item>)
    ensures r == WithText(items)
  {
    r := [];
    for i := 0 to |items|
      invariant r + WithText(items[i..]) == WithText(items)
    {
      assert items[i..][1..] == items[i + 1..];
      if items[i].text != "" {
        Associate(r, [items[i]], WithText(items[i + 1..]));
        r := r + [items[i]];
      }
    }
    assert items[|items|..] == [] && r + [] == r;
  }

  // ---- What is kept ----

  lemma {:induction false} SharedFits(items: seq<Item>, budget: nat)
    ensures Chars(Shared(items, budget)) == if Chars(items) <= budget then Chars(items) else budget
  {
    if |items| > 0 {
      SharedFits(items[1..], budget - |Cut(items[0], budget).text|);
      assert Shared(items, budget)[1..] == Shared(items[1..], budget - |Cut(items[0], budget).text|);
    }
  }

  /** Only one item is ever cut short: those before it are whole, those behind it empty. */
  lemma {:induction false} OneIsCut(items: seq<Item>, budget: nat) returns (at: nat)
    ensures at <= |items|
    ensures forall i :: 0 <= i < at ==> Shared(items, budget)[i] == items[i]
    ensures forall i :: at < i < |items| ==> Shared(items, budget)[i].text == ""
    ensures at < |items| ==> Shared(items, budget)[at].text <= items[at].text
    decreases |items|
  {
    at := 0;
    if |items| > 0 {
      var rest := budget - |Cut(items[0], budget).text|;
      if |items[0].text| <= budget {
        var inner := OneIsCut(items[1..], rest);
        at := inner + 1;
      } else {
        NothingLeft(items[1..]);
      }
    }
  }

  lemma {:induction false} NothingLeft(items: seq<Item>)
    ensures forall i :: 0 <= i < |items| ==> Shared(items, 0)[i].text == ""
  {
    if |items| > 0 {
      NothingLeft(items[1..]);
    }
  }

  lemma {:induction false} CharsSplit(a: seq<Item>, b: seq<Item>)
    ensures Chars(a + b) == Chars(a) + Chars(b)
  {
    if |a| == 0 {
      assert a + b == b;
    } else {
      assert (a + b)[1..] == a[1..] + b;
      CharsSplit(a[1..], b);
    }
  }

  lemma {:induction false} CharsReversed(items: seq<Item>)
    ensures Chars(Reversed(items)) == Chars(items)
  {
    if |items| > 0 {
      CharsReversed(items[1..]);
      CharsSplit(Reversed(items[1..]), [items[0]]);
      assert [items[0]][1..] == [];
    }
  }

  lemma {:induction false} CharsWithText(items: seq<Item>)
    ensures Chars(WithText(items)) == Chars(items)
  {
    if |items| > 0 {
      CharsWithText(items[1..]);
      CharsSplit(if HasText(items[0]) then [items[0]] else [], WithText(items[1..]));
      assert [items[0]][1..] == [];
      assert HasText(items[0]) ==> Chars([items[0]]) == |items[0].text|;
    }
  }

  /** The recent context never exceeds its budget and never wastes it: it is all of the last eight messages, or
      exactly 2400 characters of them. The knowledge likewise, of the first three chunks and 3600 characters. */
  lemma BudgetIsUsedUp(recent: seq<Item>, knowledge: seq<Item>)
    ensures Chars(Recent(recent)) ==
      (if Chars(LastOf(recent, MAX_RECENT_MESSAGES)) <= MAX_RECENT_CHARS then Chars(LastOf(recent, MAX_RECENT_MESSAGES))
       else MAX_RECENT_CHARS)
    ensures Chars(Knowledge(knowledge)) ==
      (if Chars(FirstOf(knowledge, MAX_KNOWLEDGE_CHUNKS)) <= MAX_KNOWLEDGE_CHARS
       then Chars(FirstOf(knowledge, MAX_KNOWLEDGE_CHUNKS))
       else MAX_KNOWLEDGE_CHARS)
  {
    hide Chars, WithText, Reversed, Shared, LastOf, FirstOf;
    var last := LastOf(recent, MAX_RECENT_MESSAGES);
    CharsReversed(last);
    SharedFits(Reversed(last), MAX_RECENT_CHARS);
    CharsReversed(Shared(Reversed(last), MAX_RECENT_CHARS));
    CharsWithText(Reversed(Shared(Reversed(last), MAX_RECENT_CHARS)));
    var first := FirstOf(knowledge, MAX_KNOWLEDGE_CHUNKS);
    SharedFits(first, MAX_KNOWLEDGE_CHARS);
    CharsWithText(Shared(first, MAX_KNOWLEDGE_CHARS));
  }

  /** The newest messages are the ones kept whole: before the budget runs out at position `at`, counted from the
      end, nothing is cut, and beyond it nothing is kept. */
  lemma NewestAreKept(recent: seq<Item>) returns (at: nat)
    ensures var last := LastOf(recent, MAX_RECENT_MESSAGES);
      var cut := Reversed(Shared(Reversed(last), MAX_RECENT_CHARS));
      && Recent(recent) == WithText(cut) && |cut| == |last| && at <= |last|
      && (forall i :: |last| - at <= i < |last| ==> cut[i] == last[i])
      && (forall i :: 0 <= i < |last| - at - 1 ==> cut[i].text == "")
      && (at < |last| ==> cut[|last| - 1 - at].text <= last[|last| - 1 - at].text)
  {
    hide Shared, Reversed, WithText, Cut;
    var last := LastOf(recent, MAX_RECENT_MESSAGES);
    var backwards := Reversed(last);
    at := OneIsCut(backwards, MAX_RECENT_CHARS);
    var shared := Shared(backwards, MAX_RECENT_CHARS);
    forall i | 0 <= i < |last|
      ensures Reversed(shared)[i] == shared[|last| - 1 - i] && backwards[|last| - 1 - i] == last[i]
    {
      ReversedAt(shared, i);
      ReversedAt(last, |last| - 1 - i);
    }
  }
}
