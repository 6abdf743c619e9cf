/**
  The card list: which index entries a search shows, and the rows the list
  widget receives in either sort mode ("Sort by Name" or "Group by Creator").
  Rows are modelled as headers (not selectable) and card rows carrying the
  position in the index that the widget's row-to-index map records.

  A Python exception raised while the list is being filled leaves the rows
  added so far in place; a listing that ends that way is marked incomplete.
 */
module Listbox {
  import opened Wrappers
  import opened Json
  import opened Text
  import opened Seqs
  import opened IndexCache

  datatype SortMode = ByName | ByCreator

  datatype Row = Header(creator: string) | Card(text: string, index: nat)

  /** The rows added, and whether filling the list ran to the end. */
  datatype Listing = Listing(rows: seq<Row>, complete: bool)

  /** The search text as matched: stripped and lower-cased. */
  function FilterText(raw: string): (q: string)
    ensures |q| <= |raw|
    ensures q == [] || (!IsSpace(q[0]) && !IsSpace(q[|q| - 1]))
    ensures forall i :: 0 <= i < |q| ==> q[i] == LowerChar(q[i])
    ensures |q| == |Strip(raw)| && forall i :: 0 <= i < |q| ==> q[i] == LowerChar(Strip(raw)[i])
  {
    var s := Strip(raw);
    LowerStripped(s);
    Lower(s)
  }

  lemma LowerStripped(s: string)
    requires s == [] || (!IsSpace(s[0]) && !IsSpace(s[|s| - 1]))
    ensures var q := Lower(s); q == [] || (!IsSpace(q[0]) && !IsSpace(q[|q| - 1]))
    ensures forall i :: 0 <= i < |s| ==> Lower(s)[i] == LowerChar(Lower(s)[i])
  {
  }

  /** `entry.get('creator', 'Unknown') or "Unknown"`. */
  function DisplayCreator(e: Record): (c: Json)
    ensures Truthy(c)
    ensures "creator" in e && Truthy(e["creator"]) ==> c == e["creator"]
    ensures !("creator" in e && Truthy(e["creator"])) ==> c == JStr("Unknown")
  {
    var c := Get(e, "creator", JStr("Unknown"));
    if Truthy(c) then c else JStr("Unknown")
  }

  /** `(t or "").lower()` for one tag: `None` where the tag is truthy but not a string. */
  function TagText(t: Json): Option<string>
  {
    if !Truthy(t) then Some("") else if t.JStr? then Some(t.s) else None
  }

  /** The tag's text exists and contains the query. */
  predicate TagHits(q: string, t: Json)
  {
    TagText(t).Some? && Contains(Lower(TagText(t).value), q)
  }

  /**
    `any(q in (t or "").lower() for t in items)`, evaluated left to right: it
    stops at the first hit, and raises at an unreadable tag reached before one.
   */
  function AnyTag(q: string, items: seq<Json>): (r: Option<bool>)
    ensures r == Some(true) <==>
      exists i :: 0 <= i < |items| && TagHits(q, items[i]) &&
        forall j :: 0 <= j < i ==> TagText(items[j]).Some?
    ensures r == Some(false) <==>
      forall i :: 0 <= i < |items| ==> TagText(items[i]).Some? && !TagHits(q, items[i])
  {
    if items == [] then Some(false)
    else
      var init, last := items[..|items| - 1], items[|items| - 1];
      var prev := AnyTag(q, init);
      assert forall i :: 0 <= i < |init| ==> items[i] == init[i];
      if prev != Some(false) then
        prev
      else
        match TagText(last)
        case None => None
        case Some(t) => Some(Contains(Lower(t), q))
  }

  /** The elements a tag value yields when iterated: characters of a string, keys of a dict. */
  function TagsMatch(q: string, tags: Json): Option<bool>
  {
    match tags
    case JArr(items) => AnyTag(q, items)
    case JStr(s) => AnyTag(q, seq(|s|, i requires 0 <= i < |s| => JStr([s[i]])))
    case JObj(m) => Some(exists k :: k in m && Contains(Lower(k), q))
    case _ => None
  }

  /** Some tag the entry carries contains the query. */
  ghost predicate TagHit(q: string, tags: Json)
  {
    match tags
    case JArr(items) => exists i :: 0 <= i < |items| && TagHits(q, items[i])
    case JStr(s) => exists i :: 0 <= i < |s| && Contains(Lower([s[i]]), q)
    case JObj(m) => exists k :: k in m && Contains(Lower(k), q)
    case _ => false
  }

  /**
    The search test of `update_listbox`: an empty query shows everything;
    otherwise the file name, then the creator, then the tags are tried, each
    lower-cased. `None` where Python raises: a creator that is not a string,
    or tags that cannot be read.
   */
  function Match(q: string, e: Record): Option<bool>
  {
    if q == "" then Some(true)
    else if Contains(Lower(NameOf(e)), q) then Some(true)
    else
      match DisplayCreator(e)
      case JStr(c) =>
        if Contains(Lower(c), q) then Some(true) else TagsMatch(q, Get(e, "tags", JArr([])))
      case _ => None
  }

  /** The query occurs in the file name, the creator or a tag. */
  ghost predicate Hit(q: string, e: Record)
  {
    || q == ""
    || Contains(Lower(NameOf(e)), q)
    || (DisplayCreator(e).JStr? && Contains(Lower(DisplayCreator(e).s), q))
    || TagHit(q, Get(e, "tags", JArr([])))
  }

  /**
    Whenever the test returns, it says whether the query occurs in the file
    name, the creator or a tag; it cannot fail on an empty query or a name hit.
   */
  lemma MatchMeaning(q: string, e: Record)
    ensures Match(q, e).Some? ==> (Match(q, e).value <==> Hit(q, e))
    ensures q == "" || Contains(Lower(NameOf(e)), q) ==> Match(q, e) == Some(true)
    ensures Match(q, e).None? ==> !DisplayCreator(e).JStr? || TagsMatch(q, Get(e, "tags", JArr([]))).None?
  {
    if q != "" && !Contains(Lower(NameOf(e)), q) && DisplayCreator(e).JStr? {
      var tags := Get(e, "tags", JArr([]));
      match tags
      case JStr(s) =>
        var items := seq(|s|, i requires 0 <= i < |s| => JStr([s[i]]));
        assert forall i :: 0 <= i < |s| ==> (TagHits(q, items[i]) <==> Contains(Lower([s[i]]), q));
      case _ =>
    }
  }

  /** A search test: `None` where it raises. */
  type Test = Record -> Option<bool>

  /** The search test of `update_listbox` for the query `q`. */
  function SearchTest(q: string): Test
  {
    e => Match(q, e)
  }

  /** Shown by the search. */
  function Shown(test: Test): Record -> bool
  {
    e => test(e) == Some(true)
  }

  /** `cards_index.index(entry)`: the first position holding an equal entry, or `|cards|`. */
  function FirstIndex(cards: seq<Record>, e: Record): (r: nat)
    ensures r <= |cards|
    ensures r < |cards| <==> e in cards
    ensures r < |cards| ==> cards[r] == e
    ensures forall j :: 0 <= j < r ==> cards[j] != e
  {
    if cards == [] then 0
    else if cards[0] == e then 0
    else 1 + FirstIndex(cards[1..], e)
  }

  /** One selectable row per entry, labelled with its file name after `indent`. */
  function CardRows(es: seq<Record>, cards: seq<Record>, indent: string): (rows: seq<Row>)
    ensures |rows| == |es|
    ensures forall i :: 0 <= i < |es| ==> rows[i] == Card(indent + NameOf(es[i]), FirstIndex(cards, es[i]))
  {
    seq(|es|, i requires 0 <= i < |es| => Card(indent + NameOf(es[i]), FirstIndex(cards, es[i])))
  }

  /** The sort key `e['filename'].lower()`. */
  function LowerName(e: Record): string
  {
    Lower(NameOf(e))
  }

  /** The position of the first entry whose test raises, or `|s|`. */
  function FirstFailure(test: Test, s: seq<Record>): (n: nat)
    ensures n <= |s|
    ensures forall j :: 0 <= j < n ==> test(s[j]).Some?
    ensures n < |s| ==> test(s[n]).None?
  {
    if s == [] then 0
    else
      var init := s[..|s| - 1];
      var m := FirstFailure(test, init);
      assert forall j :: 0 <= j < |init| ==> s[j] == init[j];
      if m < |init| then m
      else if test(s[|s| - 1]).None? then |init|
      else |s|
  }

  /** The name-mode loop over the entries `s` (already sorted). */
  function NameRows(test: Test, s: seq<Record>, cards: seq<Record>): Listing
  {
    if s == [] then Listing([], true)
    else
      var prev := NameRows(test, s[..|s| - 1], cards);
      var e := s[|s| - 1];
      if !prev.complete then prev
      else
        match test(e)
        case None => Listing(prev.rows, false)
        case Some(shown) =>
          if shown then Listing(prev.rows + [Card(NameOf(e), FirstIndex(cards, e))], true) else prev
  }

  /** The name-mode loop emits a row for every shown entry before the first failure. */
  lemma {:induction false} NameRowsReference(test: Test, s: seq<Record>, cards: seq<Record>)
    ensures var n := FirstFailure(test, s);
      NameRows(test, s, cards) == Listing(CardRows(Filter(s[..n], Shown(test)), cards, ""), n == |s|)
  {
    if s != [] {
      var init, e := s[..|s| - 1], s[|s| - 1];
      NameRowsReference(test, init, cards);
      var prev := NameRows(test, init, cards);
      var m := FirstFailure(test, init);
      assert init[..m] == s[..m];
      if m < |init| {
        assert FirstFailure(test, s) == m;
      } else if test(e).None? {
        assert FirstFailure(test, s) == |init|;
        assert NameRows(test, s, cards) == Listing(prev.rows, false);
      } else {
        assert FirstFailure(test, s) == |s|;
        assert s[..|s|] == s;
        assert init[..m] == init;
        var f := Filter(init, Shown(test));
        assert prev.rows == CardRows(f, cards, "");
        if Shown(test)(e) {
          assert Filter(s, Shown(test)) == f + [e];
          CardRowsSnoc(f, e, cards, "");
          assert "" + NameOf(e) == NameOf(e);
          assert NameRows(test, s, cards) == Listing(prev.rows + [Card(NameOf(e), FirstIndex(cards, e))], true);
        } else {
          assert Filter(s, Shown(test)) == f;
        }
      }
    }
  }

  lemma CardRowsSnoc(es: seq<Record>, e: Record, cards: seq<Record>, indent: string)
    ensures CardRows(es + [e], cards, indent) == CardRows(es, cards, indent) + [Card(indent + NameOf(e), FirstIndex(cards, e))]
  {
  }

  /** "Sort by Name": the entries sorted by lower-cased file name, those the search shows. */
  function NameListing(test: Test, cards: seq<Record>): Listing
  {
    NameRows(test, SortBy(cards, LowerName), cards)
  }

  /** Sorting neither adds nor drops entries. */
  lemma SortedSameEntries(cards: seq<Record>)
    ensures forall x :: x in SortBy(cards, LowerName) <==> x in cards
  {
    var sorted := SortBy(cards, LowerName);
    forall x ensures x in sorted <==> x in cards {
      assert x in sorted <==> x in multiset(sorted);
      assert x in cards <==> x in multiset(cards);
    }
  }

  lemma InSortedPrefix(cards: seq<Record>, n: nat, x: Record)
    requires n <= |SortBy(cards, LowerName)| && x in SortBy(cards, LowerName)[..n]
    ensures x in cards
  {
    var sorted := SortBy(cards, LowerName);
    assert x in sorted;
    assert x in multiset(sorted);
  }

  /** Name mode completes exactly when no entry's test raises. */
  lemma NameListingComplete(test: Test, cards: seq<Record>)
    ensures NameListing(test, cards).complete <==> forall i :: 0 <= i < |cards| ==> test(cards[i]).Some?
  {
    var sorted := SortBy(cards, LowerName);
    var n := FirstFailure(test, sorted);
    NameRowsReference(test, sorted, cards);
    SortedSameEntries(cards);
    if n < |sorted| {
      assert sorted[n] in cards;
    } else {
      forall i | 0 <= i < |cards| ensures test(cards[i]).Some? {
        assert cards[i] in sorted;
      }
    }
  }

  /** Each name-mode row is a card row for a shown entry, labelled with its file name. */
  lemma NameListingSound(test: Test, cards: seq<Record>)
    ensures var l := NameListing(test, cards);
      forall k :: 0 <= k < |l.rows| ==>
        && l.rows[k].Card?
        && l.rows[k].index < |cards|
        && test(cards[l.rows[k].index]) == Some(true)
        && l.rows[k].text == NameOf(cards[l.rows[k].index])
  {
    var l := NameListing(test, cards);
    forall k | 0 <= k < |l.rows|
      ensures l.rows[k].Card? && l.rows[k].index < |cards|
      ensures test(cards[l.rows[k].index]) == Some(true)
      ensures l.rows[k].text == NameOf(cards[l.rows[k].index])
    {
      NameRowSound(test, cards, k);
    }
  }

  lemma NameRowSound(test: Test, cards: seq<Record>, k: nat)
    requires k < |NameListing(test, cards).rows|
    ensures var r := NameListing(test, cards).rows[k];
      && r.Card? && r.index < |cards|
      && test(cards[r.index]) == Some(true)
      && r.text == NameOf(cards[r.index])
  {
    var sorted := SortBy(cards, LowerName);
    var n := FirstFailure(test, sorted);
    var f := Filter(sorted[..n], Shown(test));
    NameRowsReference(test, sorted, cards);
    assert NameListing(test, cards).rows == CardRows(f, cards, "");
    InSortedPrefix(cards, n, f[k]);
    assert "" + NameOf(f[k]) == NameOf(f[k]);
  }

  /** Name-mode rows are in lower-cased file name order. */
  lemma NameListingOrdered(test: Test, cards: seq<Record>)
    ensures var l := NameListing(test, cards);
      && (forall k :: 0 <= k < |l.rows| ==> l.rows[k].Card?)
      && forall k, m :: 0 <= k < m < |l.rows| ==> LexLe(Lower(l.rows[k].text), Lower(l.rows[m].text))
  {
    var sorted := SortBy(cards, LowerName);
    var n := FirstFailure(test, sorted);
    var f := Filter(sorted[..n], Shown(test));
    NameRowsReference(test, sorted, cards);
    assert SortedBy(sorted[..n], LowerName);
    FilterSorted(sorted[..n], Shown(test), LowerName);
    CardRowsOrdered(f, cards);
  }

  lemma CardRowsOrdered(es: seq<Record>, cards: seq<Record>)
    requires SortedBy(es, LowerName)
    ensures var rows := CardRows(es, cards, "");
      forall k, m :: 0 <= k < m < |rows| ==> LexLe(Lower(rows[k].text), Lower(rows[m].text))
  {
    var rows := CardRows(es, cards, "");
    forall k | 0 <= k < |rows| ensures Lower(rows[k].text) == LowerName(es[k]) {
      assert "" + NameOf(es[k]) == NameOf(es[k]);
    }
  }

  /** A complete name-mode listing has one row per shown entry. */
  lemma NameListingCount(test: Test, cards: seq<Record>)
    requires NameListing(test, cards).complete
    ensures |NameListing(test, cards).rows| == |Filter(cards, Shown(test))|
  {
    var sorted := SortBy(cards, LowerName);
    NameRowsReference(test, sorted, cards);
    assert sorted[..FirstFailure(test, sorted)] == sorted;
    FilterPermutation(sorted, cards, Shown(test));
  }

  /** In a complete name-mode listing every shown entry has its row. */
  lemma NameListingCovers(test: Test, cards: seq<Record>, i: nat)
    requires NameListing(test, cards).complete
    requires i < |cards| && test(cards[i]) == Some(true)
    ensures var l := NameListing(test, cards);
      exists k :: 0 <= k < |l.rows| && l.rows[k] == Card(NameOf(cards[i]), FirstIndex(cards, cards[i]))
  {
    var sorted := SortBy(cards, LowerName);
    var f := Filter(sorted, Shown(test));
    CompleteNameRows(test, cards);
    var e := cards[i];
    var j := PermutedIndex(sorted, cards, i);
    assert Shown(test)(sorted[j]);
    var k :| 0 <= k < |f| && f[k] == e;
    EmptyPrefix(NameOf(e));
    assert NameListing(test, cards).rows[k] == Card(NameOf(e), FirstIndex(cards, e));
  }

  /** A complete name-mode listing has a row for each shown entry, in sorted order. */
  lemma CompleteNameRows(test: Test, cards: seq<Record>)
    requires NameListing(test, cards).complete
    ensures var sorted := SortBy(cards, LowerName);
      NameListing(test, cards).rows == CardRows(Filter(sorted, Shown(test)), cards, "")
  {
    var sorted := SortBy(cards, LowerName);
    NameRowsReference(test, sorted, cards);
    TakeAll(sorted, FirstFailure(test, sorted));
  }

  /** The indent of a card row under a creator header. */
  const Indent := "    "

  /** Every displayed creator is a string (otherwise sorting the creators raises). */
  predicate CreatorsText(cards: seq<Record>)
  {
    forall i :: 0 <= i < |cards| ==> DisplayCreator(cards[i]).JStr?
  }

  /** The keys of `creator_map`: the string creators, once each, in order of first appearance. */
  function Creators(cards: seq<Record>): (r: seq<string>)
    ensures Distinct(r)
    ensures forall c :: c in r <==> exists i :: 0 <= i < |cards| && DisplayCreator(cards[i]) == JStr(c)
  {
    if cards == [] then []
    else
      var init, d := cards[..|cards| - 1], DisplayCreator(cards[|cards| - 1]);
      var prev := Creators(init);
      assert forall i :: 0 <= i < |init| ==> cards[i] == init[i];
      if d.JStr? && d.s !in prev then prev + [d.s] else prev
  }

  function InGroup(c: string): Record -> bool
  {
    e => DisplayCreator(e) == JStr(c)
  }

  /** `creator_map[c]`: the entries with creator `c`, in index order. */
  function Group(cards: seq<Record>, c: string): seq<Record>
  {
    Filter(cards, InGroup(c))
  }

  /** No entry of the group raises in the search test. */
  predicate Readable(test: Test, group: seq<Record>)
  {
    forall i :: 0 <= i < |group| ==> test(group[i]).Some?
  }

  /** No entry with creator `c` raises in the search test. */
  predicate GroupReadable(test: Test, cards: seq<Record>, c: string)
  {
    Readable(test, Group(cards, c))
  }

  /** The rows for one creator: a header and the shown entries by lower-cased name; nothing if none is shown. */
  function Section(test: Test, c: string, cards: seq<Record>): seq<Row>
  {
    var shown := Filter(Group(cards, c), Shown(test));
    if shown == [] then [] else [Header(c)] + CardRows(SortBy(shown, LowerName), cards, Indent)
  }

  /** The creator-mode loop over the creators `cs` (already sorted). */
  function CreatorRows(test: Test, cs: seq<string>, cards: seq<Record>): Listing
  {
    if cs == [] then Listing([], true)
    else
      var prev := CreatorRows(test, cs[..|cs| - 1], cards);
      var c := cs[|cs| - 1];
      if !prev.complete then prev
      else if !GroupReadable(test, cards, c) then Listing(prev.rows, false)
      else Listing(prev.rows + Section(test, c, cards), true)
  }

  /** "Group by Creator": the creators in lower-cased order, each with its shown entries. */
  function CreatorListing(test: Test, cards: seq<Record>): Listing
  {
    if !CreatorsText(cards) then Listing([], false)
    else CreatorRows(test, SortBy(Creators(cards), Lower), cards)
  }

  /** The rows `update_listbox` adds in either mode. */
  function Layout(q: string, mode: SortMode, cards: seq<Record>): Listing
  {
    match mode
    case ByName => NameListing(SearchTest(q), cards)
    case ByCreator => CreatorListing(SearchTest(q), cards)
  }

  /** The creator of the entry a card row points at. */
  function CreatorAt(cards: seq<Record>, r: Row): Json
    requires r.Card? && r.index < |cards|
  {
    DisplayCreator(cards[r.index])
  }

  /** Every card row points at a shown entry and is labelled with its indented file name. */
  ghost predicate CardsSound(test: Test, cards: seq<Record>, rows: seq<Row>)
  {
    forall k :: 0 <= k < |rows| && rows[k].Card? ==>
      && rows[k].index < |cards|
      && test(cards[rows[k].index]) == Some(true)
      && rows[k].text == Indent + NameOf(cards[rows[k].index])
  }

  /**
    Every card row follows the header of its creator, or a card row of the
    same creator whose file name does not sort after its own.
   */
  ghost predicate CardsGrouped(cards: seq<Record>, rows: seq<Row>)
    requires CardsSoundIndex(cards, rows)
  {
    forall k :: 0 <= k < |rows| && rows[k].Card? ==>
      && k > 0
      && (rows[k - 1].Header? ==> CreatorAt(cards, rows[k]) == JStr(rows[k - 1].creator))
      && (rows[k - 1].Card? ==>
            && CreatorAt(cards, rows[k]) == CreatorAt(cards, rows[k - 1])
            && LexLe(LowerName(cards[rows[k - 1].index]), LowerName(cards[rows[k].index])))
  }

  ghost predicate CardsSoundIndex(cards: seq<Record>, rows: seq<Row>)
  {
    forall k :: 0 <= k < |rows| && rows[k].Card? ==> rows[k].index < |cards|
  }

  /** Every header is followed by a card row. */
  ghost predicate HeadersFollowed(rows: seq<Row>)
  {
    forall k :: 0 <= k < |rows| && rows[k].Header? ==> k + 1 < |rows| && rows[k + 1].Card?
  }

  /** Headers are distinct and in lower-cased order, and name creators of `cs`. */
  ghost predicate HeadersOrdered(rows: seq<Row>, cs: seq<string>)
  {
    && (forall k :: 0 <= k < |rows| && rows[k].Header? ==> rows[k].creator in cs)
    && forall k, m :: 0 <= k < m < |rows| && rows[k].Header? && rows[m].Header? ==>
         rows[k].creator != rows[m].creator && LexLe(Lower(rows[k].creator), Lower(rows[m].creator))
  }

  /**
    A section is empty, or a header for `c` followed by at least one card row,
    each for a shown entry of creator `c`, in lower-cased file name order.
   */
  lemma SectionShape(test: Test, c: string, cards: seq<Record>)
    ensures var sec := Section(test, c, cards);
      && CardsSound(test, cards, sec)
      && (sec != [] ==> |sec| >= 2 && sec[0] == Header(c))
      && (forall k :: 1 <= k < |sec| ==>
            sec[k].Card? && sec[k].index < |cards| && DisplayCreator(cards[sec[k].index]) == JStr(c))
      && (forall k :: 1 <= k < |sec| - 1 ==>
            LexLe(LowerName(cards[sec[k].index]), LowerName(cards[sec[k + 1].index])))
  {
    SectionLength(test, c, cards);
    SectionSound(test, c, cards);
    SectionOrdered(test, c, cards);
  }

  /** Every card row of a section is shown, with its file name, and has creator `c`. */
  lemma SectionSound(test: Test, c: string, cards: seq<Record>)
    ensures var sec := Section(test, c, cards);
      && CardsSound(test, cards, sec)
      && (forall k :: 1 <= k < |sec| ==>
            sec[k].Card? && sec[k].index < |cards| && DisplayCreator(cards[sec[k].index]) == JStr(c))
  {
    var sec := Section(test, c, cards);
    SectionLength(test, c, cards);
    forall k | 1 <= k < |sec|
      ensures sec[k].Card? && sec[k].index < |cards|
      ensures test(cards[sec[k].index]) == Some(true) && DisplayCreator(cards[sec[k].index]) == JStr(c)
      ensures sec[k].text == Indent + NameOf(cards[sec[k].index])
    {
      SectionRow(test, c, cards, k);
    }
  }

  /** The card rows of a section are in lower-cased name order. */
  lemma SectionOrdered(test: Test, c: string, cards: seq<Record>)
    ensures var sec := Section(test, c, cards);
      forall k, m :: 1 <= k < m < |sec| ==>
        sec[k].Card? && sec[m].Card? && sec[k].index < |cards| && sec[m].index < |cards| &&
        LexLe(LowerName(cards[sec[k].index]), LowerName(cards[sec[m].index]))
  {
    var sorted := SortBy(Filter(Group(cards, c), Shown(test)), LowerName);
    var sec := Section(test, c, cards);
    forall k, m | 1 <= k < m < |sec|
      ensures sec[k].Card? && sec[m].Card? && sec[k].index < |cards| && sec[m].index < |cards|
      ensures LexLe(LowerName(cards[sec[k].index]), LowerName(cards[sec[m].index]))
    {
      SectionRow(test, c, cards, k);
      SectionRow(test, c, cards, m);
    }
  }

  /** Card row `k` of a section points at the `k`-th shown entry by lower-cased name. */
  lemma SectionRow(test: Test, c: string, cards: seq<Record>, k: nat)
    requires 1 <= k < |Section(test, c, cards)|
    ensures var sorted := SortBy(Filter(Group(cards, c), Shown(test)), LowerName);
      var r := Section(test, c, cards)[k];
      && k - 1 < |sorted|
      && r.Card? && r.index < |cards| && cards[r.index] == sorted[k - 1]
      && test(sorted[k - 1]) == Some(true) && DisplayCreator(sorted[k - 1]) == JStr(c)
      && r.text == Indent + NameOf(sorted[k - 1])
  {
    var group := Group(cards, c);
    var shown := Filter(group, Shown(test));
    var sorted := SortBy(shown, LowerName);
    SectionLength(test, c, cards);
    SectionCard(test, c, cards, k - 1);
    var e := sorted[k - 1];
    assert e in multiset(sorted);
    assert e in shown;
    assert e in group;
  }

  /** A non-empty section has a header and one card row per shown entry. */
  lemma SectionLength(test: Test, c: string, cards: seq<Record>)
    ensures var shown := Filter(Group(cards, c), Shown(test));
      var sec := Section(test, c, cards);
      (shown == [] <==> sec == []) && (sec != [] ==> |sec| == |shown| + 1 && sec[0] == Header(c))
  {
  }

  /** Row `n + 1` of a section is the card row of the `n`-th shown entry by lower-cased name. */
  lemma SectionCard(test: Test, c: string, cards: seq<Record>, n: nat)
    requires n < |SortBy(Filter(Group(cards, c), Shown(test)), LowerName)|
    ensures var sorted := SortBy(Filter(Group(cards, c), Shown(test)), LowerName);
      var sec := Section(test, c, cards);
      n + 1 < |sec| && sec[n + 1] == Card(Indent + NameOf(sorted[n]), FirstIndex(cards, sorted[n]))
  {
    var shown := Filter(Group(cards, c), Shown(test));
    var sorted := SortBy(shown, LowerName);
    assert shown != [];
    var cardRows := CardRows(sorted, cards, Indent);
    assert Section(test, c, cards) == [Header(c)] + cardRows;
    assert ([Header(c)] + cardRows)[n + 1] == cardRows[n];
  }

  /** The creator-mode rows so far keep their shape when the next section is appended. */
  lemma AppendSection(test: Test, cs: seq<string>, c: string, cards: seq<Record>, rows: seq<Row>)
    requires CardsSound(test, cards, rows) && CardsSoundIndex(cards, rows)
    requires CardsGrouped(cards, rows) && HeadersFollowed(rows) && HeadersOrdered(rows, cs)
    requires forall j :: 0 <= j < |cs| ==> cs[j] != c && LexLe(Lower(cs[j]), Lower(c))
    ensures var all := rows + Section(test, c, cards);
      && CardsSound(test, cards, all) && CardsSoundIndex(cards, all)
      && CardsGrouped(cards, all) && HeadersFollowed(all) && HeadersOrdered(all, cs + [c])
  {
    AppendSound(test, c, cards, rows);
    AppendGrouped(test, c, cards, rows);
    AppendFollowed(test, c, cards, rows);
    AppendOrdered(test, cs, c, cards, rows);
  }

  lemma AppendSound(test: Test, c: string, cards: seq<Record>, rows: seq<Row>)
    requires CardsSound(test, cards, rows) && CardsSoundIndex(cards, rows)
    ensures CardsSound(test, cards, rows + Section(test, c, cards))
    ensures CardsSoundIndex(cards, rows + Section(test, c, cards))
  {
    var sec := Section(test, c, cards);
    SectionShape(test, c, cards);
    var all := rows + sec;
    forall k | 0 <= k < |all| ensures all[k] == if k < |rows| then rows[k] else sec[k - |rows|] {
    }
  }

  lemma AppendGrouped(test: Test, c: string, cards: seq<Record>, rows: seq<Row>)
    requires CardsSoundIndex(cards, rows) && CardsGrouped(cards, rows)
    ensures CardsSoundIndex(cards, rows + Section(test, c, cards))
    ensures CardsGrouped(cards, rows + Section(test, c, cards))
  {
    var sec := Section(test, c, cards);
    SectionShape(test, c, cards);
    var all := rows + sec;
    forall k | 0 <= k < |all| ensures all[k] == if k < |rows| then rows[k] else sec[k - |rows|] {
    }
    assert CardsSoundIndex(cards, all);
    forall k | 0 <= k < |all| && all[k].Card?
      ensures k > 0
      ensures all[k - 1].Header? ==> CreatorAt(cards, all[k]) == JStr(all[k - 1].creator)
      ensures all[k - 1].Card? ==>
        && CreatorAt(cards, all[k]) == CreatorAt(cards, all[k - 1])
        && LexLe(LowerName(cards[all[k - 1].index]), LowerName(cards[all[k].index]))
    {
      if k < |rows| {
        assert all[k] == rows[k] && all[k - 1] == rows[k - 1];
      } else if k == |rows| {
        assert false;
      } else if k == |rows| + 1 {
        assert all[k - 1] == sec[0] == Header(c);
      } else {
        assert all[k - 1] == sec[k - 1 - |rows|];
      }
    }
  }

  lemma AppendFollowed(test: Test, c: string, cards: seq<Record>, rows: seq<Row>)
    requires HeadersFollowed(rows)
    ensures HeadersFollowed(rows + Section(test, c, cards))
  {
    var sec := Section(test, c, cards);
    SectionShape(test, c, cards);
    var all := rows + sec;
    forall k | 0 <= k < |all| && all[k].Header? ensures k + 1 < |all| && all[k + 1].Card? {
      if k < |rows| {
        assert all[k] == rows[k] && k + 1 < |rows| && all[k + 1] == rows[k + 1];
      } else {
        assert all[k] == sec[k - |rows|];
        assert k == |rows|;
        assert all[k + 1] == sec[1];
      }
    }
  }

  lemma AppendOrdered(test: Test, cs: seq<string>, c: string, cards: seq<Record>, rows: seq<Row>)
    requires HeadersOrdered(rows, cs)
    requires forall j :: 0 <= j < |cs| ==> cs[j] != c && LexLe(Lower(cs[j]), Lower(c))
    ensures HeadersOrdered(rows + Section(test, c, cards), cs + [c])
  {
    var sec := Section(test, c, cards);
    SectionShape(test, c, cards);
    var all := rows + sec;
    forall k | 0 <= k < |all| && all[k].Header? ensures all[k].creator in cs + [c] {
      if k < |rows| {
        assert all[k] == rows[k] && rows[k].creator in cs;
      } else {
        assert all[k] == sec[k - |rows|];
      }
    }
    forall k, m | 0 <= k < m < |all| && all[k].Header? && all[m].Header?
      ensures all[k].creator != all[m].creator && LexLe(Lower(all[k].creator), Lower(all[m].creator))
    {
      if m < |rows| {
        assert all[k] == rows[k] && all[m] == rows[m];
      } else {
        assert all[m] == sec[m - |rows|];
        assert m == |rows| && all[m].creator == c;
        assert all[k] == rows[k] && rows[k].creator in cs;
      }
    }
  }

  /** The rows are well-formed creator sections for the creators `cs`. */
  ghost predicate Shaped(test: Test, cards: seq<Record>, rows: seq<Row>, cs: seq<string>)
  {
    && CardsSound(test, cards, rows) && CardsSoundIndex(cards, rows)
    && CardsGrouped(cards, rows) && HeadersFollowed(rows) && HeadersOrdered(rows, cs)
  }

  /** The creator-mode loop's rows are well-formed sections for `cs`, in order. */
  lemma {:induction false} CreatorRowsShape(test: Test, cs: seq<string>, cards: seq<Record>)
    requires Distinct(cs) && SortedBy(cs, Lower)
    ensures Shaped(test, cards, CreatorRows(test, cs, cards).rows, cs)
  {
    if cs != [] {
      var init, c := cs[..|cs| - 1], cs[|cs| - 1];
      LastAfterInit(cs);
      CreatorRowsShape(test, init, cards);
      CreatorRowsShapeStep(test, cs, init, c, cards);
    }
  }

  /** The last of distinct creators sorted by lower-cased name differs from, and sorts after, the others. */
  lemma LastAfterInit(cs: seq<string>)
    requires cs != [] && Distinct(cs) && SortedBy(cs, Lower)
    ensures var init, c := cs[..|cs| - 1], cs[|cs| - 1];
      && Distinct(init) && SortedBy(init, Lower)
      && forall j :: 0 <= j < |init| ==> init[j] != c && LexLe(Lower(init[j]), Lower(c))
  {
    var init := cs[..|cs| - 1];
    assert forall j :: 0 <= j < |init| ==> init[j] == cs[j];
  }

  /** One more creator through the creator-mode loop keeps the rows well-formed. */
  lemma CreatorRowsShapeStep(test: Test, cs: seq<string>, init: seq<string>, c: string, cards: seq<Record>)
    requires cs != [] && init == cs[..|cs| - 1] && c == cs[|cs| - 1]
    requires Shaped(test, cards, CreatorRows(test, init, cards).rows, init)
    requires forall j :: 0 <= j < |init| ==> init[j] != c && LexLe(Lower(init[j]), Lower(c))
    ensures Shaped(test, cards, CreatorRows(test, cs, cards).rows, cs)
  {
    var prev := CreatorRows(test, init, cards);
    InitLast(cs);
    if prev.complete && Readable(test, Group(cards, c)) {
      AppendSection(test, init, c, cards, prev.rows);
    } else {
      HeadersWiden(prev.rows, init, cs);
    }
  }

  lemma HeadersWiden(rows: seq<Row>, cs: seq<string>, more: seq<string>)
    requires HeadersOrdered(rows, cs)
    requires forall c :: c in cs ==> c in more
    ensures HeadersOrdered(rows, more)
  {
  }

  /** The creator-mode loop finishes exactly when every group is readable. */
  lemma {:induction false} CreatorRowsComplete(test: Test, cs: seq<string>, cards: seq<Record>)
    ensures CreatorRows(test, cs, cards).complete <==> forall j :: 0 <= j < |cs| ==> GroupReadable(test, cards, cs[j])
  {
    if cs != [] {
      var init, c := cs[..|cs| - 1], cs[|cs| - 1];
      CreatorRowsComplete(test, init, cards);
      CreatorRowsStep(test, cs, cards);
      var prev := CreatorRows(test, init, cards);
      if CreatorRows(test, cs, cards).complete {
        assert prev.complete && GroupReadable(test, cards, c);
        forall j | 0 <= j < |cs| ensures GroupReadable(test, cards, cs[j]) {
          if j < |init| {
            assert GroupReadable(test, cards, init[j]);
            assert init[j] == cs[j];
          } else {
            assert j == |cs| - 1;
            assert cs[j] == c;
          }
        }
      } else if prev.complete {
        assert !GroupReadable(test, cards, cs[|cs| - 1]);
      } else {
        var j :| 0 <= j < |init| && !GroupReadable(test, cards, init[j]);
        assert init[j] == cs[j];
      }
    }
  }

  /** One step of the creator-mode loop. */
  lemma CreatorRowsStep(test: Test, cs: seq<string>, cards: seq<Record>)
    requires cs != []
    ensures var prev, c := CreatorRows(test, cs[..|cs| - 1], cards), cs[|cs| - 1];
      CreatorRows(test, cs, cards) ==
        if prev.complete && GroupReadable(test, cards, c) then Listing(prev.rows + Section(test, c, cards), true)
        else Listing(prev.rows, false)
  {
  }

  /** A complete creator-mode loop has every row of every section. */
  lemma {:induction false} CreatorRowsContain(test: Test, cs: seq<string>, cards: seq<Record>, j: nat)
    requires CreatorRows(test, cs, cards).complete && j < |cs|
    ensures forall r :: r in Section(test, cs[j], cards) ==> r in CreatorRows(test, cs, cards).rows
  {
    var init, c := cs[..|cs| - 1], cs[|cs| - 1];
    CreatorRowsStep(test, cs, cards);
    var prev := CreatorRows(test, init, cards);
    assert prev.complete && GroupReadable(test, cards, c);
    var rows := prev.rows + Section(test, c, cards);
    assert CreatorRows(test, cs, cards).rows == rows;
    if j < |init| {
      CreatorRowsContain(test, init, cards, j);
      assert init[j] == cs[j];
      forall r | r in Section(test, cs[j], cards) ensures r in rows {
        assert r in prev.rows;
      }
    } else {
      assert j == |cs| - 1;
      assert cs[j] == c;
    }
  }

  /** Group-by-creator completes exactly when every creator is a string and no entry's test raises. */
  lemma CreatorListingComplete(test: Test, cards: seq<Record>)
    ensures CreatorListing(test, cards).complete <==>
      CreatorsText(cards) && forall i :: 0 <= i < |cards| ==> test(cards[i]).Some?
  {
    if CreatorsText(cards) {
      var cs := SortBy(Creators(cards), Lower);
      CreatorRowsComplete(test, cs, cards);
      assert CreatorListing(test, cards) == CreatorRows(test, cs, cards);
      if CreatorListing(test, cards).complete {
        forall i | 0 <= i < |cards| ensures test(cards[i]).Some? {
          var j := GroupOf(cards, i);
          assert GroupReadable(test, cards, cs[j]);
          var g := Group(cards, cs[j]);
          var m :| 0 <= m < |g| && g[m] == cards[i];
        }
      } else {
        var j :| 0 <= j < |cs| && !GroupReadable(test, cards, cs[j]);
        var g := Group(cards, cs[j]);
        assert !Readable(test, g);
        var m :| 0 <= m < |g| && test(g[m]).None?;
        assert g[m] in cards;
      }
    }
  }

  /** The position among the sorted creators of the group an entry belongs to. */
  lemma GroupOf(cards: seq<Record>, i: nat) returns (j: nat)
    requires CreatorsText(cards) && i < |cards|
    ensures var cs := SortBy(Creators(cards), Lower);
      j < |cs| && JStr(cs[j]) == DisplayCreator(cards[i]) && cards[i] in Group(cards, cs[j])
  {
    var cs := SortBy(Creators(cards), Lower);
    var c := DisplayCreator(cards[i]).s;
    assert c in Creators(cards);
    assert c in multiset(Creators(cards));
    assert c in cs;
    j :| 0 <= j < |cs| && cs[j] == c;
    assert InGroup(c)(cards[i]);
  }

  /**
    Group-by-creator: every card row is indented, points at a shown entry, and
    sits under the header of that entry's creator, after the card rows of the
    same creator that sort before it; every header has a card row below it;
    headers are distinct and in lower-cased order.
   */
  lemma CreatorListingShape(test: Test, cards: seq<Record>)
    ensures var rows := CreatorListing(test, cards).rows;
      && CardsSound(test, cards, rows) && CardsSoundIndex(cards, rows)
      && CardsGrouped(cards, rows) && HeadersFollowed(rows)
      && HeadersOrdered(rows, Creators(cards))
  {
    if CreatorsText(cards) {
      var cs := SortBy(Creators(cards), Lower);
      DistinctPermutation(Creators(cards), cs);
      CreatorRowsShape(test, cs, cards);
      forall c | c in cs ensures c in Creators(cards) {
        assert c in multiset(cs);
      }
      HeadersWiden(CreatorListing(test, cards).rows, cs, Creators(cards));
    }
  }

  /** In a complete group-by-creator listing every shown entry has its card row. */
  lemma CreatorListingCovers(test: Test, cards: seq<Record>, i: nat)
    requires CreatorListing(test, cards).complete
    requires i < |cards| && test(cards[i]) == Some(true)
    ensures var rows := CreatorListing(test, cards).rows;
      exists k :: 0 <= k < |rows| && rows[k] == Card(Indent + NameOf(cards[i]), FirstIndex(cards, cards[i]))
  {
    CreatorListingComplete(test, cards);
    var e := cards[i];
    var cs := SortBy(Creators(cards), Lower);
    var j := GroupOf(cards, i);
    var c := cs[j];
    var m := SectionHas(test, c, cards, e);
    var sec := Section(test, c, cards);
    CreatorRowsContain(test, cs, cards, j);
    assert sec[m] in CreatorListing(test, cards).rows;
  }

  function IsCard(r: Row): bool
  {
    r.Card?
  }

  /** The number of card rows (as opposed to creator headers) among `rows`. */
  function CardCount(rows: seq<Row>): nat
  {
    |Filter(rows, IsCard)|
  }

  /** The shown entries of each creator of `cs`, counted creator by creator. */
  function ShownCount(test: Test, cs: seq<string>, cards: seq<Record>): nat
  {
    if cs == [] then 0
    else ShownCount(test, cs[..|cs| - 1], cards) + |Filter(Group(cards, cs[|cs| - 1]), Shown(test))|
  }

  /** The entries of `s` with each creator of `cs`, counted creator by creator. */
  function GroupSum(s: seq<Record>, cs: seq<string>): nat
  {
    if cs == [] then 0
    else GroupSum(s, cs[..|cs| - 1]) + |Filter(s, InGroup(cs[|cs| - 1]))|
  }

  /** The creators, as strings, that an entry displays. */
  function CreatorIs(e: Record): string -> bool
  {
    c => DisplayCreator(e) == JStr(c)
  }

  /**
    A complete group-by-creator listing has exactly as many card rows as there
    are shown entries: each shown entry is listed once, under its own creator
    and under no other.
   */
  lemma CreatorListingCount(test: Test, cards: seq<Record>)
    requires CreatorListing(test, cards).complete
    ensures CardCount(CreatorListing(test, cards).rows) == |Filter(cards, Shown(test))|
  {
    CreatorListingComplete(test, cards);
    var cs := SortBy(Creators(cards), Lower);
    DistinctPermutation(Creators(cards), cs);
    assert CreatorListing(test, cards) == CreatorRows(test, cs, cards);
    CreatorRowsCardCount(test, cs, cards);
    ShownCountGroupSum(test, cs, cards);
    var s := Filter(cards, Shown(test));
    forall i | 0 <= i < |s| ensures DisplayCreator(s[i]).JStr? && DisplayCreator(s[i]).s in cs {
      var k :| 0 <= k < |cards| && cards[k] == s[i];
      var j := GroupOf(cards, k);
    }
    GroupSumAll(s, cs);
  }

  /** A section has one card row per shown entry of its creator. */
  lemma SectionCardCount(test: Test, c: string, cards: seq<Record>)
    ensures CardCount(Section(test, c, cards)) == |Filter(Group(cards, c), Shown(test))|
  {
    var shown := Filter(Group(cards, c), Shown(test));
    if shown != [] {
      var cardRows := CardRows(SortBy(shown, LowerName), cards, Indent);
      FilterAppend([Header(c)], cardRows, IsCard);
      assert Filter([Header(c)], IsCard) == [];
      FilterAllPass(cardRows, IsCard);
    }
  }

  lemma {:induction false} CreatorRowsCardCount(test: Test, cs: seq<string>, cards: seq<Record>)
    requires CreatorRows(test, cs, cards).complete
    ensures CardCount(CreatorRows(test, cs, cards).rows) == ShownCount(test, cs, cards)
  {
    if cs != [] {
      var init, c := cs[..|cs| - 1], cs[|cs| - 1];
      var prev := CreatorRows(test, init, cards);
      CreatorRowsCardCount(test, init, cards);
      FilterAppend(prev.rows, Section(test, c, cards), IsCard);
      SectionCardCount(test, c, cards);
    }
  }

  /** Counting the shown entries group by group is counting each group of the shown entries. */
  lemma {:induction false} ShownCountGroupSum(test: Test, cs: seq<string>, cards: seq<Record>)
    ensures ShownCount(test, cs, cards) == GroupSum(Filter(cards, Shown(test)), cs)
  {
    if cs != [] {
      var c := cs[|cs| - 1];
      ShownCountGroupSum(test, cs[..|cs| - 1], cards);
      var both := (e: Record) => InGroup(c)(e) && Shown(test)(e);
      FilterFilter(cards, InGroup(c), Shown(test), both);
      FilterFilter(cards, Shown(test), InGroup(c), both);
    }
  }

  lemma {:induction false} GroupSumEmpty(cs: seq<string>)
    ensures GroupSum([], cs) == 0
  {
    if cs != [] {
      GroupSumEmpty(cs[..|cs| - 1]);
    }
  }

  /** One more entry adds one to the count of every creator of `cs` it displays. */
  lemma {:induction false} GroupSumSnoc(s: seq<Record>, e: Record, cs: seq<string>)
    ensures GroupSum(s + [e], cs) == GroupSum(s, cs) + |Filter(cs, CreatorIs(e))|
  {
    if cs != [] {
      var init, c := cs[..|cs| - 1], cs[|cs| - 1];
      GroupSumSnoc(s, e, init);
      FilterAppend(s, [e], InGroup(c));
      assert [e][..0] == [];
    }
  }

  /**
    Counted over creators without repeats that include the creator of every
    entry, the groups of `s` add up to `s`.
   */
  lemma {:induction false} GroupSumAll(s: seq<Record>, cs: seq<string>)
    requires Distinct(cs)
    requires forall i :: 0 <= i < |s| ==> DisplayCreator(s[i]).JStr? && DisplayCreator(s[i]).s in cs
    ensures GroupSum(s, cs) == |s|
  {
    if s == [] {
      GroupSumEmpty(cs);
    } else {
      var init, e := s[..|s| - 1], s[|s| - 1];
      assert forall i :: 0 <= i < |init| ==> init[i] == s[i];
      GroupSumAll(init, cs);
      GroupSumSnoc(init, e, cs);
      InitLast(s);
      OnlyOnce(cs, CreatorIs(e), DisplayCreator(e).s);
    }
  }

  /** A shown entry of the group has its card row in the section. */
  lemma SectionHas(test: Test, c: string, cards: seq<Record>, e: Record) returns (m: nat)
    requires e in Group(cards, c) && test(e) == Some(true)
    ensures var sec := Section(test, c, cards);
      m < |sec| && sec[m] == Card(Indent + NameOf(e), FirstIndex(cards, e))
  {
    var n := ShownPosition(test, c, cards, e);
    SectionCard(test, c, cards, n);
    m := n + 1;
  }

  lemma ShownPosition(test: Test, c: string, cards: seq<Record>, e: Record) returns (n: nat)
    requires e in Group(cards, c) && test(e) == Some(true)
    ensures var sorted := SortBy(Filter(Group(cards, c), Shown(test)), LowerName);
      n < |sorted| && sorted[n] == e
  {
    var group := Group(cards, c);
    var k :| 0 <= k < |group| && group[k] == e;
    var shown := Filter(group, Shown(test));
    assert Shown(test)(group[k]);
    assert e in shown;
    var sorted := SortBy(shown, LowerName);
    assert e in multiset(shown);
    assert e in multiset(sorted);
    n :| 0 <= n < |sorted| && sorted[n] == e;
  }

  /**
    Whatever the mode, every card row points at an entry of the index that the
    search shows, and filling the list completes exactly when the search test
    raises for no entry (and, when grouping, every creator is a string).
   */
  lemma LayoutSpec(q: string, mode: SortMode, cards: seq<Record>)
    ensures var l := Layout(q, mode, cards);
      && (forall k :: 0 <= k < |l.rows| && l.rows[k].Card? ==>
            l.rows[k].index < |cards| && Match(q, cards[l.rows[k].index]) == Some(true))
      && (l.complete <==>
            (mode == ByCreator ==> CreatorsText(cards)) && forall i :: 0 <= i < |cards| ==> Match(q, cards[i]).Some?)
  {
    var test := SearchTest(q);
    match mode
    case ByName =>
      NameListingSound(test, cards);
      NameListingComplete(test, cards);
    case ByCreator =>
      CreatorListingShape(test, cards);
      CreatorListingComplete(test, cards);
  }

  /** Which rows can be selected: card rows, not headers. */
  function Selectable(rows: seq<Row>): (r: seq<bool>)
    ensures |r| == |rows| && forall k :: 0 <= k < |rows| ==> (r[k] <==> rows[k].Card?)
  {
    seq(|rows|, k requires 0 <= k < |rows| => rows[k].Card?)
  }

  /** `file_index_map`: list row to index position, for every card row. */
  function FileIndexMap(rows: seq<Row>): (m: map<int, nat>)
    ensures forall k :: k in m <==> 0 <= k < |rows| && rows[k].Card?
    ensures forall k :: k in m ==> m[k] == rows[k].index
  {
    map k | 0 <= k < |rows| && rows[k].Card? :: rows[k].index
  }
}
