/**
  The index cache: the list of PNG files in the card folder, the entries read
  back from `cards.json`, and the reconciliation of the two into a new index
  plus the list of files to rescan in the background.
 */
module IndexCache {
  import opened Wrappers
  import opened Json
  import opened Text
  import opened Seqs
  import Metadata

  /**
    One index entry, as stored in `cards.json` and held in memory: a JSON
    object with the members filename, mtime, creator and tags.
   */
  type Record = Object

  /** The entry's `filename` member is a string. */
  predicate Named(e: Record)
  {
    "filename" in e && e["filename"].JStr?
  }

  /** The entry's file name ("" when it has none). */
  function NameOf(e: Record): string
  {
    if Named(e) then e["filename"].s else ""
  }

  /** The file names of a sequence of entries, in order. */
  function Filenames(index: seq<Record>): (r: seq<string>)
    ensures |r| == |index|
    ensures forall k :: 0 <= k < |r| ==> r[k] == NameOf(index[k])
  {
    seq(|index|, k requires 0 <= k < |index| => NameOf(index[k]))
  }

  /** `f.lower().endswith('.png')`. */
  predicate IsPngName(f: string)
  {
    EndsWith(Lower(f), ".png")
  }

  function Identity(s: string): string
  {
    s
  }

  /** `get_png_files`: the PNG names of a directory listing, sorted by code point. */
  function PngFiles(listing: seq<string>): (r: seq<string>)
    ensures multiset(r) == multiset(Filter(listing, IsPngName))
    ensures SortedBy(r, Identity)
    ensures forall f :: f in r <==> f in listing && IsPngName(f)
  {
    var pngs := Filter(listing, IsPngName);
    var r := SortBy(pngs, Identity);
    assert forall f :: f in r <==> f in multiset(pngs);
    r
  }

  /** The entry takes part in the cache lookup: it has both `filename` and `mtime`. */
  predicate Cacheable(e: Record)
  {
    "filename" in e && "mtime" in e
  }

  /** The entry is a lookup candidate for file `f`. */
  predicate Keyed(e: Record, f: string)
  {
    Cacheable(e) && e["filename"] == JStr(f)
  }

  /** A file name `hash()` refuses: a list or a dict. */
  predicate Unhashable(v: Json)
  {
    v.JArr? || v.JObj?
  }

  /** Some candidate's file name is unhashable, so building the lookup raises `TypeError`. */
  predicate LookupRaises(cached: seq<Record>)
  {
    exists i :: 0 <= i < |cached| && Cacheable(cached[i]) && Unhashable(cached[i]["filename"])
  }

  /**
    `{entry['filename']: entry for entry in cached if 'filename' in entry and
    'mtime' in entry}`, looked up by string file names: None when some
    candidate's file name is a list or a dict (building the dict raises),
    otherwise the last candidate for each name wins. A candidate named by a
    number, a boolean or null is a key no string name finds.
   */
  function CachedLookup(cached: seq<Record>): (lookup: Option<map<string, Record>>)
    ensures lookup.None? <==> LookupRaises(cached)
    ensures lookup.Some? ==> forall f :: f in lookup.value ==> Keyed(lookup.value[f], f) && lookup.value[f] in cached
    ensures lookup.Some? ==> forall f, i :: 0 <= i < |cached| && Keyed(cached[i], f) ==> f in lookup.value
  {
    if cached == [] then Some(map[])
    else
      var init, e := cached[..|cached| - 1], cached[|cached| - 1];
      assert forall i :: 0 <= i < |init| ==> cached[i] == init[i];
      match CachedLookup(init)
      case None => None
      case Some(lookup) =>
        if Cacheable(e) && Unhashable(e["filename"]) then None
        else if Cacheable(e) && e["filename"].JStr? then Some(lookup[e["filename"].s := e])
        else Some(lookup)
  }

  /** The index entry and rescan worklist produced by one reconciliation. */
  datatype Reconciled = Reconciled(index: seq<Record>, toRescan: seq<string>)

  /**
    The entry written for a file that must be rescanned: the new mtime, and
    the creator and tags the cache held for it, if any.
   */
  function Placeholder(f: string, mtime: int, prior: Option<Record>): (e: Record)
    ensures Keyed(e, f) && Named(e) && NameOf(e) == f
    ensures e["mtime"] == JNum(mtime)
  {
    map[
      "filename" := JStr(f),
      "mtime" := JNum(mtime),
      "creator" := if prior.Some? then Get(prior.value, "creator", Metadata.Unknown) else Metadata.Unknown,
      "tags" := if prior.Some? then Get(prior.value, "tags", JArr([])) else JArr([])
    ]
  }

  /** The cached entry for `f` can be reused: no forced refresh and the same mtime. */
  predicate CacheHit(lookup: map<string, Record>, f: string, mtime: int, force: bool)
  {
    !force && f in lookup && EqualsInt(Get(lookup[f], "mtime", JNull), mtime)
  }

  /** The entry the reconciliation produces for file `f` with current mtime `mtime`. */
  function EntryFor(lookup: map<string, Record>, f: string, mtime: int, force: bool): Record
  {
    if CacheHit(lookup, f, mtime, force) then lookup[f]
    else Placeholder(f, mtime, if f in lookup then Some(lookup[f]) else None)
  }

  /** The names whose mtime could be read, in order (a failed stat skips the file). */
  function Stated(names: seq<string>, mtime: map<string, int>): (r: seq<string>)
    ensures forall k :: 0 <= k < |r| ==> r[k] in mtime && r[k] in names
    ensures forall f :: f in names && f in mtime ==> f in r
  {
    if names == [] then []
    else
      var init, f := names[..|names| - 1], names[|names| - 1];
      assert forall g :: g in names ==> g in init || g == f;
      Stated(init, mtime) + (if f in mtime then [f] else [])
  }

  /** The names among `kept` whose cached entry cannot be reused. */
  function Misses(kept: seq<string>, mtime: map<string, int>, lookup: map<string, Record>, force: bool): seq<string>
  {
    if kept == [] then []
    else
      var init, f := kept[..|kept| - 1], kept[|kept| - 1];
      Misses(init, mtime, lookup, force) +
        (if f in mtime && !CacheHit(lookup, f, mtime[f], force) then [f] else [])
  }

  /** The loop of `load_or_update_index_cache` over the PNG names. */
  function ReconcileNames(names: seq<string>, mtime: map<string, int>, lookup: map<string, Record>, force: bool): Reconciled
  {
    if names == [] then Reconciled([], [])
    else
      var prev := ReconcileNames(names[..|names| - 1], mtime, lookup, force);
      var f := names[|names| - 1];
      if f !in mtime then prev
      else
        Reconciled(prev.index + [EntryFor(lookup, f, mtime[f], force)],
                   prev.toRescan + if CacheHit(lookup, f, mtime[f], force) then [] else [f])
  }

  /**
    Reconciliation of a directory listing, the mtimes that could be read, and
    the entries read from `cards.json` ([] when it is missing or unreadable);
    None where building the lookup raises.
   */
  function Reconcile(listing: seq<string>, mtime: map<string, int>, cached: seq<Record>, force: bool): (r: Option<Reconciled>)
    ensures r.None? <==> LookupRaises(cached)
  {
    match CachedLookup(cached)
    case None => None
    case Some(lookup) => Some(ReconcileNames(PngFiles(listing), mtime, lookup, force))
  }

  /**
    What reading `cards.json` gave: nothing usable (the file is missing, or
    opening or parsing it raised, and `cached` stays `[]`), a JSON number,
    boolean or null (which the lookup cannot iterate), or the list of entries
    the folder holds.
   */
  datatype CacheRead = Unreadable | NotIterable | Parsed

  /**
    `load_or_update_index_cache` up to the save, given the folder's listing
    (None when `os.listdir` raises), what reading `cards.json` gave and the
    entries `stored` in it: None exactly where it raises.
   */
  function Load(listing: Option<seq<string>>, mtime: map<string, int>, read: CacheRead, stored: seq<Record>,
                force: bool): (r: Option<Reconciled>)
    ensures r.None? <==> listing.None? || read.NotIterable? || (read.Parsed? && LookupRaises(stored))
  {
    match listing
    case None => None
    case Some(names) =>
      match read
      case Unreadable => Reconcile(names, mtime, [], force)
      case NotIterable => None
      case Parsed => Reconcile(names, mtime, stored, force)
  }

  /** Every lookup entry is a candidate for its own key. */
  ghost predicate LookupWellFormed(lookup: map<string, Record>)
  {
    forall f :: f in lookup ==> Keyed(lookup[f], f)
  }

  /** The last candidate for each name is the one the lookup holds. */
  lemma CachedLookupLastWins(cached: seq<Record>, f: string)
    requires CachedLookup(cached).Some? && f in CachedLookup(cached).value
    ensures exists i ::
      && 0 <= i < |cached|
      && cached[i] == CachedLookup(cached).value[f]
      && (forall j :: i < j < |cached| ==> !Keyed(cached[j], f))
  {
    var i := LastCandidate(cached, f);
  }

  /** The position of the candidate for `f` that the lookup holds. */
  lemma {:induction false} LastCandidate(cached: seq<Record>, f: string) returns (i: nat)
    requires CachedLookup(cached).Some? && f in CachedLookup(cached).value
    ensures i < |cached| && cached[i] == CachedLookup(cached).value[f]
    ensures forall j :: i < j < |cached| ==> !Keyed(cached[j], f)
  {
    var init, e := cached[..|cached| - 1], cached[|cached| - 1];
    if Keyed(e, f) {
      i := |cached| - 1;
    } else {
      LookupSkips(cached, f);
      i := LastCandidate(init, f);
      LaterNotKeyed(cached, init, f, i);
    }
  }

  /** No candidate for `f` after position `i` of all but the last entry, nor in the last. */
  lemma LaterNotKeyed(cached: seq<Record>, init: seq<Record>, f: string, i: nat)
    requires cached != [] && init == cached[..|cached| - 1]
    requires i < |init| && !Keyed(cached[|cached| - 1], f)
    requires forall j :: i < j < |init| ==> !Keyed(init[j], f)
    ensures cached[i] == init[i]
    ensures forall j :: i < j < |cached| ==> !Keyed(cached[j], f)
  {
    forall j | i < j < |cached| ensures !Keyed(cached[j], f) {
      if j < |init| {
        assert cached[j] == init[j];
      }
    }
  }

  /** A last entry that is not a candidate for `f` leaves the lookup of `f` alone. */
  lemma LookupSkips(cached: seq<Record>, f: string)
    requires cached != [] && !Keyed(cached[|cached| - 1], f) && CachedLookup(cached).Some?
    ensures CachedLookup(cached[..|cached| - 1]).Some?
    ensures var lookup, lookup' := CachedLookup(cached[..|cached| - 1]).value, CachedLookup(cached).value;
      (f in lookup' <==> f in lookup) && (f in lookup ==> lookup'[f] == lookup[f])
  {
  }

  /**
    One entry per name whose mtime could be read, in the names' order; each
    the cached entry on a hit and a placeholder otherwise.
   */
  lemma {:induction false} ReconcileNamesEntries(names: seq<string>, mtime: map<string, int>, lookup: map<string, Record>, force: bool)
    ensures var r := ReconcileNames(names, mtime, lookup, force);
      var kept := Stated(names, mtime);
      && |r.index| == |kept|
      && (forall k :: 0 <= k < |kept| ==> r.index[k] == EntryFor(lookup, kept[k], mtime[kept[k]], force))
  {
    if names != [] {
      var init, f := names[..|names| - 1], names[|names| - 1];
      ReconcileNamesEntries(init, mtime, lookup, force);
    }
  }

  /** The worklist is exactly the names, in order, whose cached entry cannot be reused. */
  lemma {:induction false} ReconcileNamesWorklist(names: seq<string>, mtime: map<string, int>, lookup: map<string, Record>, force: bool)
    ensures ReconcileNames(names, mtime, lookup, force).toRescan == Misses(Stated(names, mtime), mtime, lookup, force)
  {
    if names != [] {
      var init, f := names[..|names| - 1], names[|names| - 1];
      ReconcileNamesWorklist(init, mtime, lookup, force);
      if f in mtime {
        var kept := Stated(init, mtime) + [f];
        assert Stated(names, mtime) == kept;
        assert kept[..|kept| - 1] == Stated(init, mtime);
      } else {
        assert Stated(names, mtime) == Stated(init, mtime);
      }
    }
  }

  lemma {:induction false} EntryForFilename(lookup: map<string, Record>, f: string, mtime: int, force: bool)
    requires LookupWellFormed(lookup)
    ensures Keyed(EntryFor(lookup, f, mtime, force), f)
    ensures NameOf(EntryFor(lookup, f, mtime, force)) == f
    ensures EqualsInt(EntryFor(lookup, f, mtime, force)["mtime"], mtime)
  {
  }

  lemma {:induction false} StatedSorted(names: seq<string>, mtime: map<string, int>)
    requires SortedBy(names, Identity)
    ensures SortedBy(Stated(names, mtime), Identity)
  {
    if names != [] {
      var init, f := names[..|names| - 1], names[|names| - 1];
      assert SortedBy(init, Identity);
      StatedSorted(init, mtime);
      var s := Stated(init, mtime);
      if f in mtime {
        forall k | 0 <= k < |s| ensures LexLe(s[k], f) {
          var m :| 0 <= m < |init| && init[m] == s[k];
          assert names[m] == s[k];
        }
      }
    }
  }

  lemma {:induction false} StatedCount(names: seq<string>, mtime: map<string, int>, f: string)
    ensures multiset(Stated(names, mtime))[f] == if f in mtime then multiset(names)[f] else 0
  {
    if names != [] {
      var init, g := names[..|names| - 1], names[|names| - 1];
      StatedCount(init, mtime, f);
      assert names == init + [g];
    }
  }

  /**
    The new index has one entry per listed PNG name whose mtime could be read
    (as many as the listing holds), in sorted order, and nothing else: a cached
    name absent from the listing never appears.
   */
  lemma ReconcileFilenames(listing: seq<string>, mtime: map<string, int>, cached: seq<Record>, force: bool)
    requires !LookupRaises(cached)
    ensures var names := Filenames(Reconcile(listing, mtime, cached, force).value.index);
      && names == Stated(PngFiles(listing), mtime)
      && SortedBy(names, Identity)
      && (forall f :: f in names <==> f in listing && IsPngName(f) && f in mtime)
      && (forall f :: multiset(names)[f] == if f in mtime && IsPngName(f) then multiset(listing)[f] else 0)
  {
    var pngs, lookup := PngFiles(listing), CachedLookup(cached).value;
    var r := ReconcileNames(pngs, mtime, lookup, force);
    assert Reconcile(listing, mtime, cached, force) == Some(r);
    ReconcileNamesEntries(pngs, mtime, lookup, force);
    var kept := Stated(pngs, mtime);
    forall k | 0 <= k < |kept| ensures Filenames(r.index)[k] == kept[k] {
      EntryForFilename(lookup, kept[k], mtime[kept[k]], force);
    }
    assert Filenames(r.index) == kept;
    StatedSorted(pngs, mtime);
    forall f ensures multiset(kept)[f] == if f in mtime && IsPngName(f) then multiset(listing)[f] else 0 {
      StatedCount(pngs, mtime, f);
      FilterCount(listing, IsPngName, f);
    }
  }

  /** A listing without repeated names reconciles to an index without repeated file names. */
  lemma ReconcileDistinct(listing: seq<string>, mtime: map<string, int>, cached: seq<Record>, force: bool)
    requires Distinct(listing) && !LookupRaises(cached)
    ensures Distinct(Filenames(Reconcile(listing, mtime, cached, force).value.index))
  {
    var names := Filenames(Reconcile(listing, mtime, cached, force).value.index);
    ReconcileFilenames(listing, mtime, cached, force);
    forall f ensures multiset(names)[f] <= 1 {
      DistinctCount(listing, f);
    }
    CountsDistinct(names);
  }

  /** Position by position: a hit reuses the cached entry verbatim, a miss is a placeholder on the worklist. */
  lemma ReconcileCacheRule(listing: seq<string>, mtime: map<string, int>, cached: seq<Record>, force: bool, k: int)
    requires !LookupRaises(cached)
    requires 0 <= k < |Reconcile(listing, mtime, cached, force).value.index|
    ensures var r := Reconcile(listing, mtime, cached, force).value;
      var lookup := CachedLookup(cached).value;
      var f := Filenames(r.index)[k];
      && f in mtime
      && (CacheHit(lookup, f, mtime[f], force) ==> r.index[k] == lookup[f] && f !in r.toRescan)
      && (!CacheHit(lookup, f, mtime[f], force) ==>
            r.index[k] == Placeholder(f, mtime[f], if f in lookup then Some(lookup[f]) else None) &&
            f in r.toRescan)
  {
    var pngs, lookup := PngFiles(listing), CachedLookup(cached).value;
    ReconcileFilenames(listing, mtime, cached, force);
    ReconcileNamesEntries(pngs, mtime, lookup, force);
    ReconcileNamesWorklist(pngs, mtime, lookup, force);
    var kept := Stated(pngs, mtime);
    MissesMembers(kept, mtime, lookup, force);
  }

  lemma {:induction false} MissesMembers(kept: seq<string>, mtime: map<string, int>, lookup: map<string, Record>, force: bool)
    ensures forall f :: f in Misses(kept, mtime, lookup, force) <==>
      f in kept && f in mtime && !CacheHit(lookup, f, mtime[f], force)
  {
    if kept != [] {
      var init, g := kept[..|kept| - 1], kept[|kept| - 1];
      MissesMembers(init, mtime, lookup, force);
      assert forall f :: f in kept <==> f in init || f == g;
    }
  }

  lemma {:induction false} MissesSubsequence(kept: seq<string>, mtime: map<string, int>, lookup: map<string, Record>, force: bool)
    ensures IsSubsequence(Misses(kept, mtime, lookup, force), kept)
  {
    if kept != [] {
      var init, g := kept[..|kept| - 1], kept[|kept| - 1];
      MissesSubsequence(init, mtime, lookup, force);
      var m := Misses(kept, mtime, lookup, force);
      assert kept[..|kept| - 1] == init;
      if g in mtime && !CacheHit(lookup, g, mtime[g], force) {
        assert m == Misses(init, mtime, lookup, force) + [g];
        assert m[..|m| - 1] == Misses(init, mtime, lookup, force);
      } else {
        assert m == Misses(init, mtime, lookup, force);
      }
    }
  }

  lemma {:induction false} MissesForced(kept: seq<string>, mtime: map<string, int>, lookup: map<string, Record>)
    requires forall k :: 0 <= k < |kept| ==> kept[k] in mtime
    ensures Misses(kept, mtime, lookup, true) == kept
  {
    if kept != [] {
      MissesForced(kept[..|kept| - 1], mtime, lookup);
    }
  }

  lemma {:induction false} MissesNone(kept: seq<string>, mtime: map<string, int>, lookup: map<string, Record>, force: bool)
    requires forall k :: 0 <= k < |kept| ==> kept[k] in mtime && CacheHit(lookup, kept[k], mtime[kept[k]], force)
    ensures Misses(kept, mtime, lookup, force) == []
  {
    if kept != [] {
      MissesNone(kept[..|kept| - 1], mtime, lookup, force);
    }
  }

  /**
    The worklist is a subsequence of the new index's file names; a forced
    refresh puts every one of them on it.
   */
  lemma ReconcileWorklist(listing: seq<string>, mtime: map<string, int>, cached: seq<Record>, force: bool)
    requires !LookupRaises(cached)
    ensures var r := Reconcile(listing, mtime, cached, force).value;
      && IsSubsequence(r.toRescan, Filenames(r.index))
      && (force ==> r.toRescan == Filenames(r.index))
  {
    var pngs, lookup := PngFiles(listing), CachedLookup(cached).value;
    ReconcileFilenames(listing, mtime, cached, force);
    ReconcileNamesWorklist(pngs, mtime, lookup, force);
    var kept := Stated(pngs, mtime);
    MissesSubsequence(kept, mtime, lookup, force);
    if force {
      MissesForced(kept, mtime, lookup);
    }
  }

  /** Looking up the entries of a reconciled index finds, for each name, its own entry, and it is a hit. */
  lemma LookupOfReconciled(index: seq<Record>, kept: seq<string>, mtime: map<string, int>,
                           lookup: map<string, Record>, force: bool, k: int)
    requires LookupWellFormed(lookup)
    requires |index| == |kept|
    requires forall j :: 0 <= j < |kept| ==>
      kept[j] in mtime && index[j] == EntryFor(lookup, kept[j], mtime[kept[j]], force)
    requires 0 <= k < |kept|
    ensures CachedLookup(index).Some?
    ensures kept[k] in CachedLookup(index).value
    ensures CachedLookup(index).value[kept[k]] == index[k]
    ensures CacheHit(CachedLookup(index).value, kept[k], mtime[kept[k]], false)
  {
    ReconciledHashable(index, kept, mtime, lookup, force);
    var f := kept[k];
    var again := CachedLookup(index).value;
    EntryForFilename(lookup, f, mtime[f], force);
    assert Keyed(index[k], f);
    var e := again[f];
    var i :| 0 <= i < |index| && index[i] == e;
    EntryForFilename(lookup, kept[i], mtime[kept[i]], force);
    assert kept[i] == f;
  }

  lemma {:induction false} ReconcileNamesIdempotent(names: seq<string>, mtime: map<string, int>,
                                                    lookup: map<string, Record>, force: bool)
    requires LookupWellFormed(lookup)
    ensures var r1 := ReconcileNames(names, mtime, lookup, force);
      && CachedLookup(r1.index).Some?
      && ReconcileNames(names, mtime, CachedLookup(r1.index).value, false) == Reconciled(r1.index, [])
  {
    var r1 := ReconcileNames(names, mtime, lookup, force);
    var kept := Stated(names, mtime);
    ReconcileNamesEntries(names, mtime, lookup, force);
    ReconciledHashable(r1.index, kept, mtime, lookup, force);
    var again := CachedLookup(r1.index).value;
    ReconcileNamesEntries(names, mtime, again, false);
    ReconcileNamesWorklist(names, mtime, again, false);
    var r2 := ReconcileNames(names, mtime, again, false);
    forall k | 0 <= k < |kept|
      ensures CacheHit(again, kept[k], mtime[kept[k]], false)
      ensures r2.index[k] == r1.index[k]
    {
      LookupOfReconciled(r1.index, kept, mtime, lookup, force, k);
    }
    MissesNone(kept, mtime, again, false);
  }

  /**
    Reconciling again against the index just reconciled (and persisted), with
    the listing and mtimes unchanged and no forced refresh, yields the same
    index and an empty worklist, placeholders included.
   */
  lemma ReconcileIdempotent(listing: seq<string>, mtime: map<string, int>, cached: seq<Record>, force: bool)
    requires !LookupRaises(cached)
    ensures var r1 := Reconcile(listing, mtime, cached, force).value;
      Reconcile(listing, mtime, r1.index, false) == Some(Reconciled(r1.index, []))
  {
    ReconcileNamesIdempotent(PngFiles(listing), mtime, CachedLookup(cached).value, force);
  }

  /** A missing or unreadable `cards.json` puts every file of the new index on the worklist. */
  lemma UnreadableRescansAll(listing: seq<string>, mtime: map<string, int>, stored: seq<Record>, force: bool)
    ensures var r := Load(Some(listing), mtime, Unreadable, stored, force);
      r.Some? && r.value.toRescan == Filenames(r.value.index)
  {
    var pngs := PngFiles(listing);
    ReconcileFilenames(listing, mtime, [], force);
    ReconcileNamesWorklist(pngs, mtime, map[], force);
    MissesAll(Stated(pngs, mtime), mtime, force);
  }

  lemma {:induction false} MissesAll(kept: seq<string>, mtime: map<string, int>, force: bool)
    requires forall k :: 0 <= k < |kept| ==> kept[k] in mtime
    ensures Misses(kept, mtime, map[], force) == kept
  {
    if kept != [] {
      MissesAll(kept[..|kept| - 1], mtime, force);
    }
  }

  /** Every entry of a reconciled index is named by a string, so looking it up again cannot raise. */
  lemma ReconciledHashable(index: seq<Record>, kept: seq<string>, mtime: map<string, int>,
                           lookup: map<string, Record>, force: bool)
    requires LookupWellFormed(lookup)
    requires |index| == |kept|
    requires forall j :: 0 <= j < |kept| ==>
      kept[j] in mtime && index[j] == EntryFor(lookup, kept[j], mtime[kept[j]], force)
    ensures !LookupRaises(index)
  {
    forall i | 0 <= i < |index| ensures index[i]["filename"] == JStr(kept[i]) {
      EntryForFilename(lookup, kept[i], mtime[kept[i]], force);
    }
  }
}
