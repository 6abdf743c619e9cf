/**
  The background rescan: for each file on the worklist, stat it again, read
  its card and build a fresh index entry; a file that fails is skipped.
 */
module ScanWorker {
  import opened Wrappers
  import opened Json
  import opened Seqs
  import opened Metadata
  import opened IndexCache

  /** The text chunks of each file of the folder, None when it cannot be read as a PNG. */
  type ChunkReader = string -> Option<Chunks>

  /** The entry the worker emits for file `f`. */
  function FreshEntry(f: string, mtime: int, info: IndexInfo): (e: Record)
    ensures Keyed(e, f) && NameOf(e) == f
  {
    map["filename" := JStr(f), "mtime" := JNum(mtime), "creator" := info.creator, "tags" := JArr(info.tags)]
  }

  /**
    The body of the worker's loop for one file: None when the stat fails
    (`statMtime` lacks the name) or `get_basic_index_info` raises.
   */
  function ScanEntry(f: string, statMtime: map<string, int>, png: ChunkReader, decode: Decoder): (r: Option<Record>)
    ensures r.Some? <==> f in statMtime && BasicIndexInfo(ReadCardMetadata(png(f), decode)).Some?
    ensures r.Some? ==> Keyed(r.value, f) && r.value["mtime"] == JNum(statMtime[f])
    ensures r.Some? ==>
      var info := BasicIndexInfo(ReadCardMetadata(png(f), decode)).value;
      && "creator" in r.value && r.value["creator"] == info.creator
      && "tags" in r.value && r.value["tags"] == JArr(info.tags)
  {
    if f !in statMtime then None
    else
      match BasicIndexInfo(ReadCardMetadata(png(f), decode))
      case None => None
      case Some(info) => Some(FreshEntry(f, statMtime[f], info))
  }

  /** The entries `ScanWorker.run` emits, in task order. */
  function ScanResults(tasks: seq<string>, statMtime: map<string, int>, png: ChunkReader, decode: Decoder): seq<Record>
  {
    if tasks == [] then []
    else
      var f := tasks[|tasks| - 1];
      ScanResults(tasks[..|tasks| - 1], statMtime, png, decode) +
        match ScanEntry(f, statMtime, png, decode)
        case None => []
        case Some(e) => [e]
  }

  /** `ScanWorker.run`: progress signals are left out, the emitted list is returned. */
  method Run(tasks: seq<string>, statMtime: map<string, int>, png: ChunkReader, decode: Decoder)
    returns (entries: seq<Record>)
    ensures entries == ScanResults(tasks, statMtime, png, decode)
  {
    entries := [];
    for i := 0 to |tasks|
      invariant entries == ScanResults(tasks[..i], statMtime, png, decode)
    {
      assert tasks[..i + 1][..i] == tasks[..i];
      var fname := tasks[i];
      var e := ScanEntry(fname, statMtime, png, decode);
      if e.Some? {
        entries := entries + [e.value];
      }
    }
    assert tasks[..|tasks|] == tasks;
  }

  /**
    The worker emits exactly one entry per task that did not fail, in task
    order, each built from the file's fresh mtime and card fields.
   */
  lemma ScanResultsShape(tasks: seq<string>, statMtime: map<string, int>, png: ChunkReader, decode: Decoder)
    ensures var entries := ScanResults(tasks, statMtime, png, decode);
      && Filenames(entries) == Filter(tasks, f => ScanEntry(f, statMtime, png, decode).Some?)
      && (forall k :: 0 <= k < |entries| ==>
            ScanEntry(NameOf(entries[k]), statMtime, png, decode) == Some(entries[k]))
  {
    ScanResultsNames(tasks, statMtime, png, decode);
    var entries := ScanResults(tasks, statMtime, png, decode);
    forall k | 0 <= k < |entries| ensures Rebuilt(entries[k], statMtime, png, decode) {
      ScanResultAt(tasks, statMtime, png, decode, k);
    }
  }

  lemma {:induction false} ScanResultsNames(tasks: seq<string>, statMtime: map<string, int>, png: ChunkReader, decode: Decoder)
    ensures Filenames(ScanResults(tasks, statMtime, png, decode)) == Filter(tasks, f => ScanEntry(f, statMtime, png, decode).Some?)
  {
    if tasks != [] {
      var init, f := tasks[..|tasks| - 1], tasks[|tasks| - 1];
      ScanResultsNames(init, statMtime, png, decode);
      var e := ScanEntry(f, statMtime, png, decode);
      var prev := ScanResults(init, statMtime, png, decode);
      if e.Some? {
        assert Filenames(prev + [e.value]) == Filenames(prev) + [f];
      } else {
        AppendEmpty(prev);
      }
    }
  }

  /** Emitted entry `k` is what scanning its file gives. */
  lemma {:induction false} ScanResultAt(tasks: seq<string>, statMtime: map<string, int>, png: ChunkReader, decode: Decoder, k: nat)
    requires k < |ScanResults(tasks, statMtime, png, decode)|
    ensures Rebuilt(ScanResults(tasks, statMtime, png, decode)[k], statMtime, png, decode)
  {
    var init, f := tasks[..|tasks| - 1], tasks[|tasks| - 1];
    var prev := ScanResults(init, statMtime, png, decode);
    var entries := ScanResults(tasks, statMtime, png, decode);
    var e := ScanEntry(f, statMtime, png, decode);
    if k < |prev| {
      ScanResultAt(init, statMtime, png, decode, k);
      assert entries[k] == prev[k];
    } else {
      assert e.Some? && entries[k] == e.value;
      assert NameOf(entries[k]) == f;
    }
  }

  /** Scanning the file `e` names again gives `e`. */
  predicate Rebuilt(e: Record, statMtime: map<string, int>, png: ChunkReader, decode: Decoder)
  {
    ScanEntry(NameOf(e), statMtime, png, decode) == Some(e)
  }

  /** The emitted file names are a subsequence of the worklist. */
  lemma ScanResultsInTaskOrder(tasks: seq<string>, statMtime: map<string, int>, png: ChunkReader, decode: Decoder)
    ensures IsSubsequence(Filenames(ScanResults(tasks, statMtime, png, decode)), tasks)
  {
    ScanResultsShape(tasks, statMtime, png, decode);
    FilterIsSubsequence(tasks, f => ScanEntry(f, statMtime, png, decode).Some?);
  }
}
