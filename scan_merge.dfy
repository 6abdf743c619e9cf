/**
  Merging the entries the background rescan emits into the in-memory index:
  the index is loaded into a dict keyed by file name, each emitted entry is
  stored under its name, and the dict's values become the new index. Python
  dicts keep insertion order, so the dict is modelled as a sequence of pairs.
 */
module ScanMerge {
  import opened Wrappers
  import opened Json
  import opened Seqs
  import opened IndexCache
  import opened ScanWorker
  import Metadata

  /** A dict from file names to entries, in insertion order. */
  type Dict = seq<(string, Record)>

  function Keys(d: Dict): (r: seq<string>)
    ensures |r| == |d| && forall i :: 0 <= i < |d| ==> r[i] == d[i].0
  {
    seq(|d|, i requires 0 <= i < |d| => d[i].0)
  }

  function Values(d: Dict): (r: seq<Record>)
    ensures |r| == |d| && forall i :: 0 <= i < |d| ==> r[i] == d[i].1
  {
    seq(|d|, i requires 0 <= i < |d| => d[i].1)
  }

  /** The position of key `k` in the dict. */
  function KeyIndex(d: Dict, k: string): (i: nat)
    requires k in Keys(d)
    ensures i < |d| && d[i].0 == k
    ensures forall j :: 0 <= j < i ==> d[j].0 != k
  {
    if d[0].0 == k then 0
    else
      KeysTail(d, k);
      1 + KeyIndex(d[1..], k)
  }

  /** A key other than the first is a key of the rest. */
  lemma KeysTail(d: Dict, k: string)
    requires k in Keys(d) && d[0].0 != k
    ensures k in Keys(d[1..])
  {
    var i :| 0 <= i < |d| && Keys(d)[i] == k;
    assert Keys(d[1..])[i - 1] == k;
  }

  /** `d[k] = v`: an existing key keeps its position and takes the new value; a new key goes last. */
  function Put(d: Dict, k: string, v: Record): (d': Dict)
    ensures k in Keys(d) ==> Keys(d') == Keys(d)
    ensures k !in Keys(d) ==> Keys(d') == Keys(d) + [k]
  {
    if k in Keys(d) then d[KeyIndex(d, k) := (k, v)] else d + [(k, v)]
  }

  /** `for e in es: d[e['filename']] = e`. */
  function PutAll(d: Dict, es: seq<Record>): Dict
  {
    if es == [] then d
    else
      var e := es[|es| - 1];
      Put(PutAll(d, es[..|es| - 1]), NameOf(e), e)
  }

  /** `_on_scan_updated_entries`: the new `cards_index`. */
  function MergeResults(index: seq<Record>, entries: seq<Record>): seq<Record>
  {
    Values(PutAll(PutAll([], index), entries))
  }

  /** The last emitted entry named `f`, if any. */
  function LastEmitted(entries: seq<Record>, f: string): (r: Option<Record>)
    ensures r.Some? ==> NameOf(r.value) == f && LastNamed(entries, f, r.value)
    ensures r.None? <==> f !in Filenames(entries)
  {
    if entries == [] then None
    else
      var init, e := entries[..|entries| - 1], entries[|entries| - 1];
      assert Filenames(entries) == Filenames(init) + [NameOf(e)];
      if NameOf(e) == f then
        assert LastAt(entries, f, |entries| - 1);
        Some(e)
      else
        var r := LastEmitted(init, f);
        if r.Some? then
          assert LastNamed(entries, f, r.value) by {
            var i :| 0 <= i < |init| && init[i] == r.value && LastAt(init, f, i);
            assert entries[i] == init[i] && LastAt(entries, f, i);
          }
          r
        else r
  }

  /** No entry after position `i` is named `f`. */
  ghost predicate LastAt(entries: seq<Record>, f: string, i: nat)
  {
    forall j :: i < j < |entries| ==> NameOf(entries[j]) != f
  }

  /** `e` is emitted, and no entry named `f` is emitted after it. */
  ghost predicate LastNamed(entries: seq<Record>, f: string, e: Record)
  {
    exists i :: 0 <= i < |entries| && entries[i] == e && LastAt(entries, f, i)
  }

  /** The names emitted that the index lacks, once each, in order of first emission. */
  function NewNames(index: seq<Record>, entries: seq<Record>): (r: seq<string>)
    ensures Distinct(r)
    ensures forall f :: f in r <==> f in Filenames(entries) && f !in Filenames(index)
  {
    if entries == [] then []
    else
      var init, g := entries[..|entries| - 1], NameOf(entries[|entries| - 1]);
      var prev := NewNames(index, init);
      assert Filenames(entries) == Filenames(init) + [g];
      if g in Filenames(index) || g in prev then prev else prev + [g]
  }

  /** The last emitted entry named `f`, or `dflt` when none was emitted. */
  function LatestOr(entries: seq<Record>, f: string, dflt: Record): Record
  {
    match LastEmitted(entries, f)
    case Some(latest) => latest
    case None => dflt
  }

  /**
    The merge described directly: every index entry in place, replaced by the
    last emitted entry with its name; then one entry per new name.
   */
  function MergeReference(index: seq<Record>, entries: seq<Record>): (r: seq<Record>)
    ensures |r| == |index| + |NewNames(index, entries)|
  {
    var added := NewNames(index, entries);
    seq(|index|, k requires 0 <= k < |index| => LatestOr(entries, NameOf(index[k]), index[k])) +
    seq(|added|, j requires 0 <= j < |added| => LatestOr(entries, added[j], map[]))
  }

  /** Loading an index with distinct names into a dict changes nothing. */
  lemma {:induction false} LoadDistinct(index: seq<Record>)
    requires Distinct(Filenames(index))
    ensures Keys(PutAll([], index)) == Filenames(index)
    ensures Values(PutAll([], index)) == index
  {
    if index != [] {
      var init, e := index[..|index| - 1], index[|index| - 1];
      assert Filenames(index) == Filenames(init) + [NameOf(e)];
      LoadDistinct(init);
    }
  }

  /** The dict after the emitted entries are stored, with names and values as the reference says. */
  lemma {:induction false} PutAllMatchesReference(index: seq<Record>, entries: seq<Record>)
    requires Distinct(Filenames(index))
    ensures Keys(PutAll(PutAll([], index), entries)) == Filenames(index) + NewNames(index, entries)
    ensures Values(PutAll(PutAll([], index), entries)) == MergeReference(index, entries)
  {
    var d0 := PutAll([], index);
    if entries == [] {
      LoadDistinct(index);
      assert Filenames(index) + NewNames(index, entries) == Filenames(index);
      var ref := MergeReference(index, entries);
      forall k | 0 <= k < |index| ensures ref[k] == index[k] {
        ReferenceAt(index, entries, k);
      }
    } else {
      var init, e := entries[..|entries| - 1], entries[|entries| - 1];
      assert entries == init + [e];
      PutAllMatchesReference(index, init);
      var prev := PutAll(d0, init);
      assert PutAll(d0, entries) == Put(prev, NameOf(e), e);
      DistinctKeys(index, init);
      PutStep(index, init, e, prev);
    }
  }

  /** An element of the reference merge. */
  lemma ReferenceAt(index: seq<Record>, entries: seq<Record>, k: nat)
    requires k < |index| + |NewNames(index, entries)|
    ensures k < |index| ==> MergeReference(index, entries)[k] == LatestOr(entries, NameOf(index[k]), index[k])
    ensures k >= |index| ==>
      MergeReference(index, entries)[k] == LatestOr(entries, NewNames(index, entries)[k - |index|], map[])
  {
  }

  lemma LastEmittedSnoc(init: seq<Record>, e: Record, f: string)
    ensures LastEmitted(init + [e], f) == if NameOf(e) == f then Some(e) else LastEmitted(init, f)
  {
    assert (init + [e])[..|init + [e]| - 1] == init;
  }

  lemma NewNamesSnoc(index: seq<Record>, init: seq<Record>, e: Record)
    ensures var g, prev := NameOf(e), NewNames(index, init);
      NewNames(index, init + [e]) == if g in Filenames(index) || g in prev then prev else prev + [g]
  {
    assert (init + [e])[..|init + [e]| - 1] == init;
  }

  /** The names of the index followed by the new names are distinct. */
  lemma DistinctKeys(index: seq<Record>, entries: seq<Record>)
    requires Distinct(Filenames(index))
    ensures Distinct(Filenames(index) + NewNames(index, entries))
  {
    var a, b := Filenames(index), NewNames(index, entries);
    forall i, j | 0 <= i < j < |a + b| ensures (a + b)[i] != (a + b)[j] {
      if j < |a| {
        assert (a + b)[i] == a[i] && (a + b)[j] == a[j];
      } else if i >= |a| {
        assert (a + b)[i] == b[i - |a|] && (a + b)[j] == b[j - |a|];
      } else {
        assert (a + b)[i] == a[i] && a[i] in a;
        assert (a + b)[j] == b[j - |a|] && b[j - |a|] in b;
      }
    }
  }

  /** Storing one more emitted entry keeps the dict equal to the reference. */
  lemma PutStep(index: seq<Record>, init: seq<Record>, e: Record, prev: Dict)
    requires Keys(prev) == Filenames(index) + NewNames(index, init)
    requires Distinct(Keys(prev))
    requires Values(prev) == MergeReference(index, init)
    ensures Keys(Put(prev, NameOf(e), e)) == Filenames(index) + NewNames(index, init + [e])
    ensures Values(Put(prev, NameOf(e), e)) == MergeReference(index, init + [e])
  {
    PutStepKeys(index, init, e, prev);
    var d := Put(prev, NameOf(e), e);
    var vs, ref := Values(d), MergeReference(index, init + [e]);
    forall k | 0 <= k < |d| ensures k < |ref| && vs[k] == ref[k] {
      PutStepAt(index, init, e, prev, k);
    }
    Extensional(vs, ref);
  }

  /** Storing one more emitted entry adds its name to the keys when it is new. */
  lemma PutStepKeys(index: seq<Record>, init: seq<Record>, e: Record, prev: Dict)
    requires Keys(prev) == Filenames(index) + NewNames(index, init)
    ensures Keys(Put(prev, NameOf(e), e)) == Filenames(index) + NewNames(index, init + [e])
  {
    var g := NameOf(e);
    NewNamesSnoc(index, init, e);
    assert g in Keys(prev) <==> g in Filenames(index) || g in NewNames(index, init);
    AppendAssociative(Filenames(index), NewNames(index, init), [g]);
  }

  lemma PutStepAt(index: seq<Record>, init: seq<Record>, e: Record, prev: Dict, k: nat)
    requires Keys(prev) == Filenames(index) + NewNames(index, init)
    requires Distinct(Keys(prev))
    requires Values(prev) == MergeReference(index, init)
    requires k < |Put(prev, NameOf(e), e)|
    ensures k < |MergeReference(index, init + [e])|
    ensures Put(prev, NameOf(e), e)[k].1 == MergeReference(index, init + [e])[k]
  {
    var entries := init + [e];
    NewNamesSnoc(index, init, e);
    var added0, added := NewNames(index, init), NewNames(index, entries);
    ReferenceAt(index, entries, k);
    if k < |prev| {
      ReferenceAt(index, init, k);
      assert prev[k].1 == Values(prev)[k];
      if k < |index| {
        assert Keys(prev)[k] == NameOf(index[k]);
        StoredAt(prev, init, e, k, NameOf(index[k]), index[k]);
      } else {
        assert Keys(prev)[k] == added0[k - |index|] == added[k - |index|];
        StoredAt(prev, init, e, k, added0[k - |index|], map[]);
      }
    } else {
      assert added == added0 + [NameOf(e)];
      PutAt(prev, NameOf(e), e, k);
      LastEmittedSnoc(init, e, NameOf(e));
    }
  }

  /** A dict position holding the latest entry for `f` still does after one more store. */
  lemma StoredAt(prev: Dict, init: seq<Record>, e: Record, k: nat, f: string, dflt: Record)
    requires Distinct(Keys(prev))
    requires k < |prev| && Keys(prev)[k] == f
    requires prev[k].1 == LatestOr(init, f, dflt)
    ensures k < |Put(prev, NameOf(e), e)|
    ensures Put(prev, NameOf(e), e)[k].1 == LatestOr(init + [e], f, dflt)
  {
    PutAt(prev, NameOf(e), e, k);
    LastEmittedSnoc(init, e, f);
  }

  /** An element of the dict after one store. */
  lemma PutAt(d: Dict, k: string, v: Record, i: nat)
    requires Distinct(Keys(d))
    requires i < |Put(d, k, v)|
    ensures i < |d| && Keys(d)[i] == k ==> Put(d, k, v)[i].1 == v
    ensures i < |d| && Keys(d)[i] != k ==> Put(d, k, v)[i].1 == d[i].1
    ensures i >= |d| ==> k !in Keys(d) && Put(d, k, v)[i].1 == v
  {
    if k in Keys(d) {
      var p := KeyIndex(d, k);
      assert Keys(d)[p] == k;
    }
  }

  /**
    The new index after a rescan: every index entry keeps its position and is
    replaced by the last emitted entry with its name, if any; names the index
    lacks follow, in order of first emission, each with its last emitted entry.
   */
  lemma MergeScanResults(index: seq<Record>, entries: seq<Record>)
    requires Distinct(Filenames(index))
    ensures var r := MergeResults(index, entries);
      && r == MergeReference(index, entries)
      && Filenames(r) == Filenames(index) + NewNames(index, entries)
      && Distinct(Filenames(r))
      && (forall k :: 0 <= k < |index| && NameOf(index[k]) !in Filenames(entries) ==> r[k] == index[k])
      && (forall k :: 0 <= k < |r| && (k >= |index| || NameOf(index[k]) in Filenames(entries)) ==>
            LastNamed(entries, NameOf(r[k]), r[k]))
  {
    PutAllMatchesReference(index, entries);
    DistinctKeys(index, entries);
    var r := MergeResults(index, entries);
    var added := NewNames(index, entries);
    forall k | 0 <= k < |r|
      ensures Filenames(r)[k] == (Filenames(index) + added)[k]
      ensures k < |index| && NameOf(index[k]) !in Filenames(entries) ==> r[k] == index[k]
      ensures k >= |index| || NameOf(index[k]) in Filenames(entries) ==> LastNamed(entries, NameOf(r[k]), r[k])
    {
      ReferenceAt(index, entries, k);
      if k >= |index| {
        assert added[k - |index|] in added;
      }
    }
  }

  /**
    An index entry whose file the rescan could not stat is not emitted, so
    the merge leaves it where it was: a placeholder survives a failed stat.
   */
  lemma UnstatedSurvives(index: seq<Record>, tasks: seq<string>, statMtime: map<string, int>,
                         png: ChunkReader, decode: Metadata.Decoder, k: nat)
    requires Distinct(Filenames(index))
    requires k < |index| && NameOf(index[k]) !in statMtime
    ensures var r := MergeResults(index, ScanResults(tasks, statMtime, png, decode));
      k < |r| && r[k] == index[k]
  {
    var entries := ScanResults(tasks, statMtime, png, decode);
    var f := NameOf(index[k]);
    ScanResultsShape(tasks, statMtime, png, decode);
    assert f !in Filenames(entries);
    MergeScanResults(index, entries);
  }
}
