/**
  The viewer's session state: the card folder, the in-memory index
  `cards_index`, the contents of the folder's `cards.json`, the search text,
  the sort mode, and the list widget (its rows, `file_index_map` and the
  current row). Each method is one handler of the main window; the file
  system, the dialogs and the background thread are parameters.
 */
module Session {
  import opened Wrappers
  import opened Json
  import opened Text
  import opened Seqs
  import opened Metadata
  import opened IndexCache
  import opened ScanWorker
  import opened ScanMerge
  import opened Listbox
  import opened Selection
  import opened Duplicate

  /** `row` is the first card row of `rows`, or -1 when there is none. */
  predicate SelectsFirstCard(rows: seq<Row>, row: int)
  {
    && (row == -1 <==> forall k :: 0 <= k < |rows| ==> !rows[k].Card?)
    && (row != -1 ==> 0 <= row < |rows| && rows[row].Card? && forall k :: 0 <= k < row ==> !rows[k].Card?)
  }

  /** What `_fix_selection` returns from no current row is the first card row. */
  lemma FirstSelectable(rows: seq<Row>, row: int)
    requires row == -1 || SelectableAt(Selectable(rows), row)
    requires row == -1 <==> forall i :: 0 <= i < |rows| ==> !Selectable(rows)[i]
    requires forall i :: 0 <= i < row ==> !SelectableAt(Selectable(rows), i)
    ensures SelectsFirstCard(rows, row)
  {
    var sel := Selectable(rows);
    if row != -1 {
      forall k | 0 <= k < row ensures !rows[k].Card? {
        assert !SelectableAt(sel, k);
      }
    }
  }

  /** `_fix_selection` after the list was cleared, so that there is no current row. */
  method SelectFirst(rows: seq<Row>) returns (row: int)
    ensures SelectsFirstCard(rows, row)
  {
    row := FixSelection(Selectable(rows), -1);
    FirstSelectable(rows, row);
  }

  /** `set_sort_mode`'s argument check: anything but "creator" sorts by name. */
  function ParseSortMode(mode: string): (m: SortMode)
    ensures m == ByCreator <==> mode == "creator"
  {
    if mode == "creator" then ByCreator else ByName
  }

  /**
    `rows` is the layout of `cards` for the search text `q` in `mode`, and
    `row` is its first card row when the layout completed and -1 otherwise.
   */
  ghost predicate Shows(rows: seq<Row>, row: int, q: string, mode: SortMode, cards: seq<Record>)
  {
    var l := Layout(q, mode, cards);
    && rows == l.rows
    && (l.complete ==> SelectsFirstCard(rows, row))
    && (!l.complete ==> row == -1)
  }

  /** The list refill of `update_listbox` followed by its selection of the first card row. */
  method Refill(q: string, mode: SortMode, cards: seq<Record>) returns (rows: seq<Row>, fim: map<int, nat>, row: int, complete: bool)
    ensures Shows(rows, row, q, mode, cards) && -1 <= row < |rows|
    ensures fim == FileIndexMap(rows)
    ensures complete == Layout(q, mode, cards).complete
  {
    rows, fim, complete := FillRows(q, mode, cards);
    row := -1;
    if complete {
      row := SelectFirst(rows);
    }
  }

  class CardViewer {
    /** The open folder, "" when none is open. */
    var folder: string
    var cardsIndex: seq<Record>
    /** The entries in the open folder's `cards.json`. */
    var cacheFile: seq<Record>
    var searchText: string
    var sortMode: SortMode
    var rows: seq<Row>
    var fileIndexMap: map<int, nat>
    /** The list widget's current row, -1 for none. */
    var currentRow: int

    /**
      Every index entry has a string file name (the layout reads
      `entry['filename']` unguarded), `file_index_map` describes the rows,
      and the current row is a row of the list or -1.
     */
    ghost predicate Valid()
      reads this
    {
      && (forall k :: 0 <= k < |cardsIndex| ==> Named(cardsIndex[k]))
      && fileIndexMap == FileIndexMap(rows)
      && -1 <= currentRow < |rows|
    }

    /** The list shows the layout of the current index, search text and mode. */
    ghost predicate Refreshed()
      reads this
    {
      Shows(rows, currentRow, FilterText(searchText), sortMode, cardsIndex)
    }

    /**
      The position in `cards_index` that `delete_card` would remove: the
      current row must be a card row whose mapped position is in range.
     */
    function DeletionTarget(): (t: Option<nat>)
      reads this
      ensures t.Some? ==> t.value < |cardsIndex|
    {
      if currentRow != -1 && currentRow in fileIndexMap && fileIndexMap[currentRow] < |cardsIndex|
      then Some(fileIndexMap[currentRow])
      else None
    }

    /** A window with no folder open, the saved search text and sort mode. */
    constructor(lastSearch: string, savedMode: string)
      ensures Valid()
      ensures folder == "" && cardsIndex == [] && cacheFile == []
      ensures searchText == lastSearch && sortMode == ParseSortMode(savedMode)
      ensures rows == [] && fileIndexMap == map[] && currentRow == -1
    {
      folder := "";
      cardsIndex := [];
      cacheFile := [];
      searchText := lastSearch;
      sortMode := ParseSortMode(savedMode);
      rows := [];
      fileIndexMap := map[];
      currentRow := -1;
    }

    /**
      `update_listbox`: refill the list from the index and select its first
      card row. `complete` is false when filling raised part-way; the list then
      holds the rows added so far and `_fix_selection` does not run.
     */
    method UpdateListbox() returns (complete: bool)
      requires Valid()
      modifies this
      ensures Valid() && Refreshed()
      ensures complete == Layout(FilterText(searchText), sortMode, cardsIndex).complete
      ensures folder == old(folder) && cardsIndex == old(cardsIndex) && cacheFile == old(cacheFile)
      ensures searchText == old(searchText) && sortMode == old(sortMode)
    {
      var rs, fim, row;
      rs, fim, row, complete := Refill(FilterText(searchText), sortMode, cardsIndex);
      Show(rs, fim, row);
    }

    /** Makes `path` the open folder, whose `cards.json` holds `folderCache`. */
    method SetFolder(path: string, folderCache: seq<Record>)
      modifies this
      ensures folder == path && cacheFile == folderCache
      ensures cardsIndex == old(cardsIndex) && searchText == old(searchText) && sortMode == old(sortMode)
      ensures rows == old(rows) && fileIndexMap == old(fileIndexMap) && currentRow == old(currentRow)
    {
      folder, cacheFile := path, folderCache;
    }

    /**
      Replaces the index and, when `save` holds, writes it to `cards.json`
      (`save_index_cache`); the list is left as it is.
     */
    method StoreIndex(index: seq<Record>, save: bool)
      modifies this
      ensures cardsIndex == index && cacheFile == (if save then index else old(cacheFile))
      ensures folder == old(folder) && searchText == old(searchText) && sortMode == old(sortMode)
      ensures rows == old(rows) && fileIndexMap == old(fileIndexMap) && currentRow == old(currentRow)
    {
      cardsIndex := index;
      if save {
        cacheFile := index;
      }
    }

    /** Replaces the list's rows, their `file_index_map` and the current row. */
    method Show(rs: seq<Row>, fim: map<int, nat>, row: int)
      modifies this
      ensures rows == rs && fileIndexMap == fim && currentRow == row
      ensures folder == old(folder) && cardsIndex == old(cardsIndex) && cacheFile == old(cacheFile)
      ensures searchText == old(searchText) && sortMode == old(sortMode)
    {
      rows, fileIndexMap, currentRow := rs, fim, row;
    }

    /** The user makes `row` the current row (-1 clears it). */
    method SetCurrentRow(row: int)
      requires Valid() && -1 <= row < |rows|
      modifies this
      ensures Valid() && currentRow == row
      ensures folder == old(folder) && cardsIndex == old(cardsIndex) && cacheFile == old(cacheFile)
      ensures searchText == old(searchText) && sortMode == old(sortMode)
      ensures rows == old(rows) && fileIndexMap == old(fileIndexMap)
    {
      currentRow := row;
    }

    /** The search bar's text changes; the list is refilled. */
    method SetSearchText(text: string) returns (complete: bool)
      requires Valid()
      modifies this
      ensures Valid() && Refreshed() && searchText == text
      ensures folder == old(folder) && cardsIndex == old(cardsIndex) && cacheFile == old(cacheFile)
      ensures sortMode == old(sortMode)
    {
      searchText := text;
      complete := UpdateListbox();
    }

    /** `set_sort_mode`. */
    method SetSortMode(mode: string) returns (complete: bool)
      requires Valid()
      modifies this
      ensures Valid() && Refreshed() && sortMode == ParseSortMode(mode)
      ensures folder == old(folder) && cardsIndex == old(cardsIndex) && cacheFile == old(cacheFile)
      ensures searchText == old(searchText)
    {
      sortMode := ParseSortMode(mode);
      complete := UpdateListbox();
    }

    /**
      `load_or_update_index_cache`. `listing` is the folder's listing (None
      when `os.listdir` raises), `mtime`
      the mtimes that could be read, `read` what reading `cards.json` gave,
      `saveOk` whether writing it back succeeds. Returns the worklist handed
      to the background scan, and whether building the lookup raised, in
      which case nothing changes.
     */
    method LoadOrUpdateIndexCache(listing: Option<seq<string>>, mtime: map<string, int>, read: CacheRead, force: bool,
                                  saveOk: bool)
      returns (toRescan: seq<string>, raised: bool)
      requires Valid()
      modifies this
      ensures Valid()
      ensures old(folder) == "" ==>
        cardsIndex == old(cardsIndex) && cacheFile == old(cacheFile) && toRescan == [] && !raised
      ensures raised ==> unchanged(this) && toRescan == []
      ensures old(folder) != "" ==>
        var r := Load(listing, mtime, read, old(cacheFile), force);
        && raised == r.None?
        && (r.None? ==> cardsIndex == old(cardsIndex) && cacheFile == old(cacheFile) && toRescan == [])
        && (r.Some? ==>
              && cardsIndex == r.value.index && toRescan == r.value.toRescan
              && cacheFile == if saveOk then r.value.index else old(cacheFile))
      ensures folder == old(folder) && searchText == old(searchText) && sortMode == old(sortMode)
      ensures rows == old(rows) && fileIndexMap == old(fileIndexMap) && currentRow == old(currentRow)
    {
      toRescan, raised := [], false;
      if folder == "" {
        return;
      }
      if listing.None? {
        raised := true;
        return;
      }
      var pngs := PngFiles(listing.value);
      if read.NotIterable? {
        raised := true;
        return;
      }
      var cached := if read.Parsed? then cacheFile else [];
      var lookup := CachedLookup(cached);
      if lookup.None? {
        raised := true;
        return;
      }
      var newIndex;
      newIndex, toRescan := ReconcileLoop(pngs, mtime, lookup.value, force);
      StoreIndex(newIndex, saveOk);
    }

    /**
      `open_folder`: the new folder's `cards.json` holds `folderCache`; the
      index is loaded without forcing a rescan and the list refilled, unless
      loading raised.
     */
    method OpenFolder(path: string, folderCache: seq<Record>, listing: Option<seq<string>>, mtime: map<string, int>,
                      read: CacheRead, saveOk: bool)
      returns (toRescan: seq<string>, raised: bool)
      requires Valid()
      modifies this
      ensures Valid() && folder == path
      ensures !raised ==> Refreshed()
      ensures path == "" ==> cardsIndex == old(cardsIndex) && cacheFile == folderCache && toRescan == [] && !raised
      ensures path != "" ==>
        var r := Load(listing, mtime, read, folderCache, false);
        && raised == r.None?
        && (r.None? ==>
              && cardsIndex == old(cardsIndex) && cacheFile == folderCache && toRescan == []
              && rows == old(rows) && fileIndexMap == old(fileIndexMap) && currentRow == old(currentRow))
        && (r.Some? ==>
              && cardsIndex == r.value.index && toRescan == r.value.toRescan
              && cacheFile == if saveOk then r.value.index else folderCache)
      ensures searchText == old(searchText) && sortMode == old(sortMode)
    {
      SetFolder(path, folderCache);
      toRescan, raised := LoadOrUpdateIndexCache(listing, mtime, read, false, saveOk);
      if !raised {
        var _ := UpdateListbox();
      }
    }

    /** `refresh_folder`: reload with a forced rescan of every file, then refill the list unless loading raised. */
    method RefreshFolder(listing: Option<seq<string>>, mtime: map<string, int>, read: CacheRead, saveOk: bool)
      returns (toRescan: seq<string>, raised: bool)
      requires Valid()
      modifies this
      ensures Valid()
      ensures old(folder) == "" ==> unchanged(this) && toRescan == [] && !raised
      ensures raised ==> unchanged(this) && toRescan == []
      ensures old(folder) != "" ==>
        var r := Load(listing, mtime, read, old(cacheFile), true);
        && raised == r.None?
        && (r.Some? ==>
              && cardsIndex == r.value.index && toRescan == r.value.toRescan
              && cacheFile == (if saveOk then r.value.index else old(cacheFile))
              && Refreshed())
      ensures folder == old(folder) && searchText == old(searchText) && sortMode == old(sortMode)
    {
      toRescan, raised := [], false;
      if folder == "" {
        return;
      }
      toRescan, raised := LoadOrUpdateIndexCache(listing, mtime, read, true, saveOk);
      if !raised {
        var _ := UpdateListbox();
      }
    }

    /**
      `_on_scan_updated_entries`: each emitted entry replaces the entry with
      its file name, or is appended; the index is saved and the list refilled.
     */
    method OnScanUpdatedEntries(entries: seq<Record>, saveOk: bool)
      requires Valid()
      requires forall k :: 0 <= k < |entries| ==> Named(entries[k])
      modifies this
      ensures Valid() && Refreshed()
      ensures cardsIndex == MergeResults(old(cardsIndex), entries)
      ensures cacheFile == if saveOk then cardsIndex else old(cacheFile)
      ensures folder == old(folder) && searchText == old(searchText) && sortMode == old(sortMode)
    {
      var merged := MergeLoop(cardsIndex, entries);
      StoreIndex(merged, saveOk);
      var _ := UpdateListbox();
    }

    /**
      `delete_card`. `confirmed` is the user's answer, `removeOk` whether the
      file could be removed, `saveOk` whether `cards.json` could be written.
      When the save raises, the entry is already gone but the list keeps its
      old rows.
     */
    method DeleteCard(confirmed: bool, removeOk: bool, saveOk: bool)
      requires Valid()
      modifies this
      ensures Valid()
      ensures old(DeletionTarget()).None? || !confirmed || !removeOk ==> unchanged(this)
      ensures old(DeletionTarget()).Some? && confirmed && removeOk ==>
        var t := old(DeletionTarget()).value;
        && cardsIndex == old(cardsIndex[..t] + cardsIndex[t + 1..])
        && cacheFile == (if saveOk then cardsIndex else old(cacheFile))
        && (saveOk ==> Refreshed())
        && (!saveOk ==> rows == old(rows) && fileIndexMap == old(fileIndexMap) && currentRow == old(currentRow))
      ensures folder == old(folder) && searchText == old(searchText) && sortMode == old(sortMode)
    {
      var target := DeletionTarget();
      if target.None? || !confirmed || !removeOk {
        return;
      }
      RemoveEntry(target.value, saveOk);
    }

    /** The end of `delete_card`: drop entry `t`, save, and refill the list when the save succeeded. */
    method RemoveEntry(t: nat, saveOk: bool)
      requires Valid() && t < |cardsIndex|
      modifies this
      ensures Valid()
      ensures cardsIndex == old(cardsIndex[..t] + cardsIndex[t + 1..])
      ensures cacheFile == (if saveOk then cardsIndex else old(cacheFile))
      ensures saveOk ==> Refreshed()
      ensures !saveOk ==> rows == old(rows) && fileIndexMap == old(fileIndexMap) && currentRow == old(currentRow)
      ensures folder == old(folder) && searchText == old(searchText) && sortMode == old(sortMode)
    {
      var rest := cardsIndex[..t] + cardsIndex[t + 1..];
      assert forall k :: 0 <= k < |rest| ==> rest[k] == cardsIndex[if k < t then k else k + 1];
      StoreIndex(rest, saveOk);
      if saveOk {
        var _ := UpdateListbox();
      }
    }

    /**
      `duplicate_card` for the card file `name`. `existing` is the set of names
      in the folder, `copyOk` whether the copy succeeds, `copyMtime` the copy's
      mtime (None when the stat fails) and `meta` what reading the copy gives.
     */
    method DuplicateCard(name: string, existing: set<string>, copyOk: bool, copyMtime: Option<int>,
                         meta: Result<Json, CardError>, saveOk: bool)
      returns (candidate: string, n: nat)
      requires Valid()
      modifies this
      ensures Valid()
      ensures 1 <= n && candidate == CopyName(Stem(name), n) && candidate !in existing
      ensures forall m :: 1 <= m < n ==> CopyName(Stem(name), m) in existing
      ensures var info := BasicIndexInfo(meta);
        if copyOk && copyMtime.Some? && info.Some? then
          && cardsIndex == old(cardsIndex) + [FreshEntry(candidate, copyMtime.value, info.value)]
          && cacheFile == (if saveOk then cardsIndex else old(cacheFile))
          && (saveOk ==> Refreshed())
          && (!saveOk ==> rows == old(rows) && fileIndexMap == old(fileIndexMap) && currentRow == old(currentRow))
        else unchanged(this)
      ensures folder == old(folder) && searchText == old(searchText) && sortMode == old(sortMode)
    {
      candidate, n := DuplicateName(Stem(name), existing);
      if !copyOk || copyMtime.None? {
        return;
      }
      var info := BasicIndexInfo(meta);
      if info.None? {
        return;
      }
      AppendEntry(FreshEntry(candidate, copyMtime.value, info.value), saveOk);
    }

    /** The end of `duplicate_card`: append `e`, save, and refill the list when the save succeeded. */
    method AppendEntry(e: Record, saveOk: bool)
      requires Valid() && Named(e)
      modifies this
      ensures Valid()
      ensures cardsIndex == old(cardsIndex) + [e]
      ensures cacheFile == (if saveOk then cardsIndex else old(cacheFile))
      ensures saveOk ==> Refreshed()
      ensures !saveOk ==> rows == old(rows) && fileIndexMap == old(fileIndexMap) && currentRow == old(currentRow)
      ensures folder == old(folder) && searchText == old(searchText) && sortMode == old(sortMode)
    {
      StoreIndex(cardsIndex + [e], saveOk);
      if saveOk {
        var _ := UpdateListbox();
      }
    }
  }

  /**
    The loop of `load_or_update_index_cache` over the PNG names: reuse the
    cached entry on a hit, otherwise add a placeholder and queue the name.
   */
  method ReconcileLoop(pngs: seq<string>, mtime: map<string, int>, lookup: map<string, Record>, force: bool)
    returns (newIndex: seq<Record>, toRescan: seq<string>)
    requires LookupWellFormed(lookup)
    ensures Reconciled(newIndex, toRescan) == ReconcileNames(pngs, mtime, lookup, force)
    ensures forall k :: 0 <= k < |newIndex| ==> Named(newIndex[k])
  {
    newIndex, toRescan := [], [];
    for i := 0 to |pngs|
      invariant Reconciled(newIndex, toRescan) == ReconcileNames(pngs[..i], mtime, lookup, force)
      invariant forall k :: 0 <= k < |newIndex| ==> Named(newIndex[k])
    {
      var fname := pngs[i];
      ReconcileStep(pngs, i, mtime, lookup, force);
      if fname in mtime {
        var m := mtime[fname];
        var cachedEntry := if fname in lookup then Some(lookup[fname]) else None;
        if cachedEntry.Some? && EqualsInt(Get(cachedEntry.value, "mtime", JNull), m) && !force {
          newIndex := newIndex + [cachedEntry.value];
        } else {
          newIndex := newIndex + [Placeholder(fname, m, cachedEntry)];
          toRescan := toRescan + [fname];
        }
      }
    }
    assert pngs[..|pngs|] == pngs;
  }

  /**
    The body of `_on_scan_updated_entries` up to the save: a dict from file
    name to entry, filled from the index and then from the emitted entries.
   */
  method MergeLoop(index: seq<Record>, entries: seq<Record>) returns (merged: seq<Record>)
    requires forall k :: 0 <= k < |index| ==> Named(index[k])
    requires forall k :: 0 <= k < |entries| ==> Named(entries[k])
    ensures merged == MergeResults(index, entries)
    ensures forall k :: 0 <= k < |merged| ==> Named(merged[k])
  {
    var lookup := PutEach([], index);
    lookup := PutEach(lookup, entries);
    merged := Values(lookup);
  }

  /** `for e in es: lookup[e['filename']] = e`. */
  method PutEach(d: Dict, es: seq<Record>) returns (lookup: Dict)
    requires forall k :: 0 <= k < |d| ==> Named(d[k].1)
    requires forall k :: 0 <= k < |es| ==> Named(es[k])
    ensures lookup == PutAll(d, es)
    ensures forall k :: 0 <= k < |lookup| ==> Named(lookup[k].1)
  {
    lookup := d;
    for i := 0 to |es|
      invariant lookup == PutAll(d, es[..i])
      invariant forall k :: 0 <= k < |lookup| ==> Named(lookup[k].1)
    {
      assert es[..i + 1][..i] == es[..i];
      PutNamed(lookup, es[i]);
      lookup := Put(lookup, NameOf(es[i]), es[i]);
    }
    assert es[..|es|] == es;
  }

  /** Storing a named entry keeps every value of the dict named. */
  lemma PutNamed(d: Dict, e: Record)
    requires forall k :: 0 <= k < |d| ==> Named(d[k].1)
    requires Named(e)
    ensures var d' := Put(d, NameOf(e), e); forall k :: 0 <= k < |d'| ==> Named(d'[k].1)
  {
  }

  /** One more name through the reconciliation loop. */
  lemma ReconcileStep(names: seq<string>, i: nat, mtime: map<string, int>, lookup: map<string, Record>, force: bool)
    requires i < |names| && LookupWellFormed(lookup)
    ensures var prev, f := ReconcileNames(names[..i], mtime, lookup, force), names[i];
      ReconcileNames(names[..i + 1], mtime, lookup, force) ==
        if f !in mtime then prev
        else Reconciled(prev.index + [EntryFor(lookup, f, mtime[f], force)],
                        prev.toRescan + if CacheHit(lookup, f, mtime[f], force) then [] else [f])
    ensures names[i] in mtime ==> Named(EntryFor(lookup, names[i], mtime[names[i]], force))
  {
    assert names[..i + 1][..i] == names[..i];
    if names[i] in mtime {
      EntryForFilename(lookup, names[i], mtime[names[i]], force);
    }
  }

  /** Adding row `r` to the list maps its position when it is a card row. */
  lemma FileIndexMapSnoc(rows: seq<Row>, r: Row)
    ensures FileIndexMap(rows + [r]) == if r.Card? then FileIndexMap(rows)[|rows| := r.index] else FileIndexMap(rows)
  {
    var rows' := rows + [r];
    assert forall k :: 0 <= k < |rows| ==> rows'[k] == rows[k];
  }

  /** Once the name-mode loop has raised, the remaining entries add nothing. */
  lemma {:induction false} NameRowsStuck(test: Test, s: seq<Record>, n: nat, cards: seq<Record>)
    requires n <= |s| && !NameRows(test, s[..n], cards).complete
    ensures NameRows(test, s, cards) == NameRows(test, s[..n], cards)
    decreases |s| - n
  {
    if n < |s| {
      assert s[..n + 1][..n] == s[..n];
      NameRowsStuck(test, s, n + 1, cards);
    } else {
      assert s[..n] == s;
    }
  }

  /** Once the creator-mode loop has raised, the remaining creators add nothing. */
  lemma {:induction false} CreatorRowsStuck(test: Test, cs: seq<string>, n: nat, cards: seq<Record>)
    requires n <= |cs| && !CreatorRows(test, cs[..n], cards).complete
    ensures CreatorRows(test, cs, cards) == CreatorRows(test, cs[..n], cards)
    decreases |cs| - n
  {
    if n < |cs| {
      assert cs[..n + 1][..n] == cs[..n];
      CreatorRowsStuck(test, cs, n + 1, cards);
    } else {
      assert cs[..n] == cs;
    }
  }

  /** The rows `update_listbox` adds for the search text `q`, and `file_index_map`. */
  method FillRows(q: string, mode: SortMode, cards: seq<Record>) returns (rows: seq<Row>, fim: map<int, nat>, complete: bool)
    ensures Listing(rows, complete) == Layout(q, mode, cards)
    ensures fim == FileIndexMap(rows)
  {
    if mode == ByName {
      rows, fim, complete := FillByName(SearchTest(q), cards);
    } else {
      rows, fim, complete := FillByCreator(SearchTest(q), cards);
    }
  }

  /** The name-mode branch of `update_listbox`. */
  method FillByName(test: Test, cards: seq<Record>) returns (rows: seq<Row>, fim: map<int, nat>, complete: bool)
    ensures Listing(rows, complete) == NameListing(test, cards)
    ensures fim == FileIndexMap(rows)
  {
    var entries := SortBy(cards, LowerName);
    rows, fim, complete := [], map[], true;
    for i := 0 to |entries|
      invariant NameRows(test, entries[..i], cards) == Listing(rows, true)
      invariant fim == FileIndexMap(rows)
    {
      assert entries[..i + 1][..i] == entries[..i];
      var e := entries[i];
      var shown := test(e);
      if shown.None? {
        complete := false;
        NameRowsStuck(test, entries, i + 1, cards);
        return;
      }
      if shown.value {
        var r := Card(NameOf(e), FirstIndex(cards, e));
        FileIndexMapSnoc(rows, r);
        fim := fim[|rows| := r.index];
        rows := rows + [r];
      }
    }
    assert entries[..|entries|] == entries;
  }

  /** A name that is not a creator has an empty group. */
  lemma NoGroup(cards: seq<Record>, c: string)
    requires c !in Creators(cards)
    ensures Group(cards, c) == []
  {
  }

  /** `creator_map` holds the groups of `pre`, keyed by `creators` in order of first appearance. */
  ghost predicate Grouped(pre: seq<Record>, creators: seq<string>, groups: map<string, seq<Record>>)
  {
    && CreatorsText(pre)
    && creators == Creators(pre)
    && (forall c :: c in groups <==> c in creators)
    && (forall c :: c in groups ==> groups[c] == Group(pre, c))
  }

  /** One more entry through the `creator_map` loop. */
  lemma GroupedStep(pre: seq<Record>, e: Record, creators: seq<string>, groups: map<string, seq<Record>>)
    requires Grouped(pre, creators, groups) && DisplayCreator(e).JStr?
    ensures var c := DisplayCreator(e).s;
      Grouped(pre + [e],
              if c in groups then creators else creators + [c],
              groups[c := if c in groups then groups[c] + [e] else [e]])
  {
    var all := pre + [e];
    SnocPrefix(pre, e);
    forall k | 0 <= k < |all| ensures DisplayCreator(all[k]).JStr? {
      if k < |pre| {
        assert all[k] == pre[k];
      }
    }
    GroupsSnoc(pre, e, groups);
  }

  lemma GroupedSame(pre: seq<Record>, pre': seq<Record>, creators: seq<string>, groups: map<string, seq<Record>>)
    requires pre == pre' && Grouped(pre, creators, groups)
    ensures Grouped(pre', creators, groups)
  {
  }

  lemma GroupsSnoc(pre: seq<Record>, e: Record, groups: map<string, seq<Record>>)
    requires DisplayCreator(e).JStr?
    requires forall c :: c in groups <==> c in Creators(pre)
    requires forall c :: c in groups ==> groups[c] == Group(pre, c)
    ensures var c := DisplayCreator(e).s;
      var groups' := groups[c := if c in groups then groups[c] + [e] else [e]];
      forall c' :: c' in groups' ==> groups'[c'] == Group(pre + [e], c')
  {
    var c := DisplayCreator(e).s;
    var groups' := groups[c := if c in groups then groups[c] + [e] else [e]];
    SnocPrefix(pre, e);
    forall c' | c' in groups' ensures groups'[c'] == Group(pre + [e], c') {
      if c' == c && c !in groups {
        NoGroup(pre, c);
      }
    }
  }

  /**
    The `creator_map` loop of `update_listbox`. `ok` is false when a creator
    is not a string (hashing or sorting it then raises).
   */
  method GroupByCreator(cards: seq<Record>) returns (creators: seq<string>, groups: map<string, seq<Record>>, ok: bool)
    ensures ok <==> CreatorsText(cards)
    ensures ok ==> creators == Creators(cards)
    ensures ok ==> forall c :: c in groups <==> c in creators
    ensures ok ==> forall c :: c in groups ==> groups[c] == Group(cards, c)
  {
    creators, groups, ok := [], map[], true;
    for i := 0 to |cards|
      invariant Grouped(cards[..i], creators, groups)
    {
      var d := DisplayCreator(cards[i]);
      if !d.JStr? {
        ok := false;
        return;
      }
      GroupedStep(cards[..i], cards[i], creators, groups);
      SliceSnoc(cards, i);
      var c := d.s;
      if c in groups {
        groups := groups[c := groups[c] + [cards[i]]];
      } else {
        groups := groups[c := [cards[i]]];
        creators := creators + [c];
      }
      GroupedSame(cards[..i] + [cards[i]], cards[..i + 1], creators, groups);
    }
    assert cards[..|cards|] == cards;
  }

  /** The group is readable so far, and `filtered` holds its shown entries so far. */
  lemma FilterStep(test: Test, group: seq<Record>, k: nat)
    requires k < |group|
    ensures Readable(test, group[..k + 1]) <==> Readable(test, group[..k]) && test(group[k]).Some?
    ensures Filter(group[..k + 1], Shown(test)) ==
      Filter(group[..k], Shown(test)) + if Shown(test)(group[k]) then [group[k]] else []
  {
    assert group[..k + 1][..k] == group[..k];
    assert forall i :: 0 <= i < k ==> group[..k + 1][i] == group[..k][i];
  }

  /**
    One iteration of the creator loop: filter the group of `c`, then add its
    header and card rows when it has a shown entry. `ok` is false when the
    test raises for an entry of the group.
   */
  method FillSection(test: Test, c: string, group: seq<Record>, cards: seq<Record>, rows: seq<Row>, fim: map<int, nat>)
    returns (rows': seq<Row>, fim': map<int, nat>, ok: bool)
    requires group == Group(cards, c) && fim == FileIndexMap(rows)
    ensures ok == GroupReadable(test, cards, c)
    ensures ok ==> rows' == rows + Section(test, c, cards) && fim' == FileIndexMap(rows')
  {
    rows', fim' := rows, fim;
    var filtered;
    filtered, ok := FilterGroup(test, group);
    if ok {
      rows', fim' := AddSection(test, c, cards, filtered, rows, fim);
    }
  }

  /** Adds the header and card rows of creator `c`, given the shown entries of its group. */
  method AddSection(test: Test, c: string, cards: seq<Record>, shown: seq<Record>, rows: seq<Row>, fim: map<int, nat>)
    returns (rows': seq<Row>, fim': map<int, nat>)
    requires shown == Filter(Group(cards, c), Shown(test)) && fim == FileIndexMap(rows)
    ensures rows' == rows + Section(test, c, cards) && fim' == FileIndexMap(rows')
  {
    SectionOf(test, c, cards, shown);
    if shown == [] {
      rows', fim' := rows, fim;
      AppendEmpty(rows);
    } else {
      FileIndexMapSnoc(rows, Header(c));
      var sorted := SortBy(shown, LowerName);
      rows', fim' := AddCardRows(sorted, cards, Indent, rows + [Header(c)], fim);
      AppendAssociative(rows, [Header(c)], CardRows(sorted, cards, Indent));
    }
  }

  /** The section of `c` in terms of the entries of its group that the search shows. */
  lemma SectionOf(test: Test, c: string, cards: seq<Record>, shown: seq<Record>)
    requires shown == Filter(Group(cards, c), Shown(test))
    ensures Section(test, c, cards) == if shown == [] then [] else [Header(c)] + CardRows(SortBy(shown, LowerName), cards, Indent)
  {
  }

  /** The entries of a group that the search shows; `ok` is false when the test raises for one of them. */
  method FilterGroup(test: Test, group: seq<Record>) returns (filtered: seq<Record>, ok: bool)
    ensures ok == Readable(test, group)
    ensures ok ==> filtered == Filter(group, Shown(test))
  {
    filtered := [];
    for k := 0 to |group|
      invariant filtered == Filter(group[..k], Shown(test))
      invariant Readable(test, group[..k])
    {
      FilterStep(test, group, k);
      var shown := test(group[k]);
      if shown.None? {
        ok := false;
        assert test(group[k]).None?;
        return;
      }
      if shown.value {
        filtered := filtered + [group[k]];
      }
    }
    assert group[..|group|] == group;
    ok := true;
  }

  /** Adds one card row per entry of `es`, mapping each row to the entry's index position. */
  method AddCardRows(es: seq<Record>, cards: seq<Record>, indent: string, rows: seq<Row>, fim: map<int, nat>)
    returns (rows': seq<Row>, fim': map<int, nat>)
    requires fim == FileIndexMap(rows)
    ensures rows' == rows + CardRows(es, cards, indent) && fim' == FileIndexMap(rows')
  {
    rows', fim' := rows, fim;
    for t := 0 to |es|
      invariant rows' == rows + CardRows(es[..t], cards, indent)
      invariant fim' == FileIndexMap(rows')
    {
      var e := es[t];
      assert es[..t + 1] == es[..t] + [e];
      CardRowsSnoc(es[..t], e, cards, indent);
      var r := Card(indent + NameOf(e), FirstIndex(cards, e));
      FileIndexMapSnoc(rows', r);
      fim' := fim'[|rows'| := r.index];
      rows' := rows' + [r];
    }
    assert es[..|es|] == es;
  }

  /** One more creator through the creator loop. */
  lemma CreatorStep(test: Test, cs: seq<string>, j: nat, cards: seq<Record>)
    requires j < |cs| && CreatorRows(test, cs[..j], cards).complete
    ensures var prev := CreatorRows(test, cs[..j], cards);
      CreatorRows(test, cs[..j + 1], cards) ==
        if GroupReadable(test, cards, cs[j]) then Listing(prev.rows + Section(test, cs[j], cards), true)
        else Listing(prev.rows, false)
  {
    assert cs[..j + 1][..j] == cs[..j];
  }

  /** The creator-mode branch of `update_listbox`. */
  method FillByCreator(test: Test, cards: seq<Record>) returns (rows: seq<Row>, fim: map<int, nat>, complete: bool)
    ensures Listing(rows, complete) == CreatorListing(test, cards)
    ensures fim == FileIndexMap(rows)
  {
    var creators, groups, ok := GroupByCreator(cards);
    if !ok {
      rows, fim, complete := [], map[], false;
      return;
    }
    var cs := SortBy(creators, Lower);
    forall j | 0 <= j < |cs| ensures cs[j] in groups {
      assert cs[j] in multiset(cs);
    }
    rows, fim, complete := FillCreators(test, cs, groups, cards);
  }

  /** The loop over the sorted creators, stopping when the search test raises. */
  method FillCreators(test: Test, cs: seq<string>, groups: map<string, seq<Record>>, cards: seq<Record>)
    returns (rows: seq<Row>, fim: map<int, nat>, complete: bool)
    requires forall j :: 0 <= j < |cs| ==> cs[j] in groups && groups[cs[j]] == Group(cards, cs[j])
    ensures Listing(rows, complete) == CreatorRows(test, cs, cards)
    ensures fim == FileIndexMap(rows)
  {
    rows, fim, complete := [], map[], true;
    for j := 0 to |cs|
      invariant CreatorRows(test, cs[..j], cards) == Listing(rows, true)
      invariant fim == FileIndexMap(rows)
    {
      var c := cs[j];
      CreatorStep(test, cs, j, cards);
      var rows', fim', readable := FillSection(test, c, groups[c], cards, rows, fim);
      if !readable {
        complete := false;
        CreatorRowsStuck(test, cs, j + 1, cards);
        return;
      }
      rows, fim := rows', fim';
    }
    assert cs[..|cs|] == cs;
  }
}
