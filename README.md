# CardViewer: card metadata, index cache and card list

CardViewer is a desktop browser for a folder of PNG "character cards". Each
card carries a JSON profile as base64 text in a PNG text chunk. This project
models the logic behind the window and proves properties of it:

- **Card metadata**: reading a card (`read_card_metadata`):
  - pick the `chara` chunk, or else `ccv3`;
  - decode it;
  - merge the nested `data` object of the v2/v3 schema into the top level without overwriting anything.

  It also covers deriving the two index fields, `creator` and `tags`, with their defaults (`get_basic_index_info`).
- **Index cache**: the folder's `cards.json` holds one entry per card: filename, mtime, creator and tags. Opening or refreshing a folder reconciles the cache with the directory listing (`get_png_files`, `load_or_update_index_cache`):
  - a cached entry whose mtime is unchanged is reused verbatim;
  - any other file gets a placeholder entry and is queued for a rescan;
  - files that are gone disappear.
- **Background rescan**: the worker re-reads each queued file (`ScanWorker.run`). Its results are merged into the index by file name (`_on_scan_updated_entries`).
- **Card list**: `update_listbox` lays out the card list:
  - a case-insensitive search over file name, creator and tags;
  - either "Sort by Name" or "Group by Creator", the latter with header rows;
  - the row-to-index map `file_index_map`.

  `_fix_selection` then repairs the selection.
- **Session**: the main window's handlers for open, refresh, search, sort mode, scan results, delete and duplicate. They are modelled as methods of a class that owns `cards_index`, the contents of `cards.json` and the list widget's state. `duplicate_card` also picks the first unused name "base (copy).png", "base (copy 2).png", and so on.

The PNG container (section 11.3.4 of the PNG specification), base64 (section 4 of RFC 4648), UTF-8 and JSON (RFC 8259) decoding are abstract parameters. So are the file-system calls:
- a directory listing;
- a map of the mtimes that could be read;
- success flags for reading, writing, removing and copying files.

Python exceptions are modelled explicitly, as `Result`/`Option` values or `ok`/`complete`/`raised` flags. The raises the model does not follow are listed under "## Left out".

Files:
- `wrappers.dfy`, `json.dfy`: `Option`/`Result`, and decoded JSON values with Python truthiness, `dict.get` and `==` against an int.
- `text.dfy`: ASCII `lower()`, `strip()`, `endswith`, substring `in`, code-point string order, and `str(n)`.
- `seqs.dfy`: filtering, subsequences, and a stable sort (Python's `sorted` with a key).
- `metadata.dfy`: the card reader.
- `index_cache.dfy`: `get_png_files`, the cache lookup, and the reconciliation with its properties.
- `scan_worker.dfy`: the rescan loop.
- `scan_merge.dfy`: the insertion-ordered dict merge of scan results.
- `listbox.dfy`: the search test and the row layout in both modes.
- `selection.dfy`: `_fix_selection`.
- `duplicate.dfy`: the copy-name loop.
- `session.dfy`: the class `CardViewer` and the loops of its handlers.

Behaviour of `card_viewer.py` the model follows:
- **Rescan after a decode failure.** A stat failure (or metadata that is a non-empty JSON list or string) skips the file, so its placeholder survives. But a file whose metadata is missing or fails to decode is still emitted, with creator "Unknown" and tags `[]`. The placeholder's prior values are not kept (`BasicIndexInfo`, `ScanEntry`).
- **Empty payloads.** An empty `chara` chunk counts as missing and falls through to `ccv3`.
- **Un-keyed cache entries.** Cache entries lacking `filename` or `mtime` are ignored by the lookup. A candidate whose `filename` is a list or a dict makes building the lookup raise, which ends opening or refreshing the folder before the list is refilled. One whose `filename` is a number, a boolean or null is a key no file name finds.
- **A folder that cannot be listed.** `os.listdir` raising in `get_png_files` ends `load_or_update_index_cache` before the index or `cards.json` is touched, and the list is not refilled (`Load`, `OpenFolder`, `RefreshFolder`).
- **Decoded values that are not dicts.** A decoded payload that is a JSON list or string passes the `data` test, if it does not contain "data", and is returned unchanged. A JSON null, boolean or number raises in that test.

## Model

| member | source | states |
|---|---|---|
| Metadata.SelectPayload | card_viewer.py:272-274 | `chara` is used when present and non-empty; `ccv3` only otherwise; no payload exactly when both are missing or empty; a payload is never empty |
| Metadata.Merged | card_viewer.py:279-285 | every top-level member, `data` included, keeps its value; with a nested `data` object the keys are the union of both levels and each added key carries its nested value; otherwise the object is unchanged |
| Metadata.MergeNestedData | card_viewer.py:281-285 | the copy-then-insert-missing-keys loop produces exactly the non-destructive merge |
| Metadata.NormalizeSchema | card_viewer.py:279-286 | a decoded object becomes its merge; any other success is the decoded value unchanged; null, booleans and numbers raise in the `data` test |
| Metadata.ReadCardMetadata | card_viewer.py:262-289 | a PNG that cannot be opened is a read failure; "no metadata" exactly when the PNG opens and neither chunk has a payload; a decode error exactly when a payload fails to decode; a decoded object succeeds as its non-destructive merge, keeping all its top-level members, and is returned as is without a nested `data` object |
| Metadata.BasicIndexInfo | card_viewer.py:291-304 | any read failure and any falsy metadata give ("Unknown", []); for an object the creator is its truthy `creator` or "Unknown" and the tags are `tags` only when that is a list; the creator is always truthy; it raises exactly for truthy metadata that is not an object |
| Seqs.Filter | card_viewer.py:323 | the comprehension keeps exactly the elements that pass, and no more of them than the input holds |
| Seqs.SortBy | card_viewer.py:323 | `sorted` returns a permutation of its input in non-decreasing key order |
| Text.Strip | card_viewer.py:707 | the stripped text is the input with its leading and trailing whitespace removed: it sits in the input with only whitespace before and after it, and neither begins nor ends with whitespace |
| IndexCache.PngFiles | card_viewer.py:322-323 | the listed names whose lower-cased form ends in ".png", with their multiplicities, in code-point order |
| IndexCache.CachedLookup | card_viewer.py:879 | building the lookup raises exactly when some candidate's `filename` is a list or a dict; otherwise every value is a cached entry with `filename` and `mtime` whose file name is its key; every such cached entry's name is a key |
| IndexCache.CachedLookupLastWins | card_viewer.py:879 | the value for a name is the last cached candidate with that name |
| IndexCache.Placeholder | card_viewer.py:896-901 | a placeholder is keyed by its file name and carries the new mtime |
| IndexCache.Stated | card_viewer.py:885-890 | the names kept are exactly the listed names whose mtime could be read |
| IndexCache.ReconcileNamesEntries | card_viewer.py:885-902 | one new entry per name whose mtime could be read, in listing order: the cached entry on a hit, a placeholder with the prior creator and tags otherwise |
| IndexCache.ReconcileNamesWorklist | card_viewer.py:885-902 | the worklist is exactly the kept names, in order, whose cached entry cannot be reused |
| IndexCache.MissesMembers | card_viewer.py:891-902 | a name is on the worklist if and only if it was kept and its cache entry is missing, stale or overridden by a forced refresh |
| IndexCache.ReconcileFilenames | card_viewer.py:885-911 | the new index names each listed PNG file whose mtime could be read, as often as it is listed, in sorted order, and nothing else: a cached name missing from the listing never appears |
| IndexCache.ReconcileDistinct | card_viewer.py:885-911 | a listing without repeated names gives an index without repeated file names |
| IndexCache.ReconcileCacheRule | card_viewer.py:891-902 | a hit (no forced refresh, same mtime) reuses the cached entry verbatim and does not queue the file; a miss writes the placeholder and queues the file |
| IndexCache.ReconcileWorklist | card_viewer.py:885-902 | the worklist is a subsequence of the new index's file names; a forced refresh queues all of them |
| IndexCache.Reconcile | card_viewer.py:879-902 | a reconciliation is produced exactly when building the lookup does not raise |
| IndexCache.Load | card_viewer.py:866-879 | loading raises exactly when the folder cannot be listed, or `cards.json` holds a JSON number, boolean or null, or entries one of whose candidates is named by a list or a dict; a missing or unreadable file is an empty cache |
| IndexCache.UnreadableRescansAll | card_viewer.py:871-902 | with no usable `cards.json`, every file of the new index is queued for a rescan |
| IndexCache.ReconcileIdempotent | card_viewer.py:885-902 | reconciling again, unforced, against the index just saved, with the listing and mtimes unchanged, gives the same index and an empty worklist, placeholders included |
| ScanWorker.FreshEntry | card_viewer.py:354-359 | the emitted entry is keyed by the task's file name |
| ScanWorker.ScanEntry | card_viewer.py:350-361 | a task yields an entry exactly when its stat succeeds and `get_basic_index_info` does not raise; the entry is keyed by the file name and carries the fresh mtime and the creator and tags `get_basic_index_info` derived |
| ScanWorker.Run | card_viewer.py:346-363 | the loop emits the entries of the tasks that did not fail |
| ScanWorker.ScanResultsShape | card_viewer.py:349-363 | the emitted names are the tasks that did not fail, in task order, and each emitted entry is what scanning its own file yields |
| ScanWorker.ScanResultsInTaskOrder | card_viewer.py:349-363 | the emitted file names are a subsequence of the worklist |
| ScanMerge.Put | card_viewer.py:943 | storing under an existing name keeps the key order; a new name is appended |
| ScanMerge.LoadDistinct | card_viewer.py:941 | loading an index with distinct file names into the dict and taking its values gives the index back |
| ScanMerge.MergeScanResults | card_viewer.py:941-944 | every index entry keeps its position and is replaced by the last emitted entry with its name, if any; the others are unchanged; names the index lacked follow in order of first emission; names stay distinct |
| ScanMerge.UnstatedSurvives | card_viewer.py:941-944 | an index entry whose file could not be stat'ed during the rescan survives the merge unchanged |
| Listbox.FilterText | card_viewer.py:707 | the search text is the stripped text lower-cased character by character: no surrounding whitespace and no upper-case ASCII letter |
| Listbox.DisplayCreator | card_viewer.py:718 | the creator shown is the entry's truthy `creator`, else "Unknown" |
| Listbox.AnyTag | card_viewer.py:723 | true exactly when some tag contains the query and none before it is unreadable; false exactly when every tag is readable and none contains it |
| Listbox.MatchMeaning | card_viewer.py:720-724 | whenever the search test returns, it says whether the query occurs in the lower-cased file name, creator or a tag; an empty query or a name hit never raises |
| Listbox.FirstIndex | card_viewer.py:730 | `list.index`: the first position holding an equal entry |
| Listbox.NameRowsReference | card_viewer.py:715-731 | name mode emits one row per shown entry, in sorted order, up to the first entry whose test raises |
| Listbox.NameListingComplete | card_viewer.py:715-731 | name mode completes exactly when the test raises for no entry |
| Listbox.NameListingSound | card_viewer.py:716-731 | every name-mode row is a card row labelled with the file name of a shown entry it maps to |
| Listbox.NameListingOrdered | card_viewer.py:715 | name-mode rows are in lower-cased file name order |
| Listbox.NameListingCount | card_viewer.py:716-731 | a complete name-mode listing has one row per shown entry |
| Listbox.NameListingCovers | card_viewer.py:716-731 | in a complete name-mode listing every shown entry has its row |
| Listbox.Creators | card_viewer.py:735-738 | the `creator_map` keys: each string creator once, and nothing else |
| Listbox.SectionShape | card_viewer.py:741-768 | a creator's section is empty or a header followed by at least one card row, each for a shown entry of that creator, in lower-cased file name order |
| Listbox.CreatorListingComplete | card_viewer.py:735-768 | group-by-creator completes exactly when every creator is a string and the test raises for no entry |
| Listbox.CreatorListingShape | card_viewer.py:735-768 | every card row is indented, points at a shown entry, follows its creator's header or an earlier row of the same creator that sorts before it; every header is followed by a card row; headers are distinct and in lower-cased order |
| Listbox.CreatorListingCount | card_viewer.py:740-768 | a complete group-by-creator listing has exactly as many card rows as there are shown entries: each is listed once, under its own creator only |
| Listbox.CreatorListingCovers | card_viewer.py:740-768 | in a complete group-by-creator listing every shown entry has its card row |
| Listbox.LayoutSpec | card_viewer.py:706-768 | in either mode every card row maps to an entry the search shows, and filling completes exactly when nothing raises |
| Listbox.Selectable | card_viewer.py:756-766 | card rows are selectable and headers are not |
| Listbox.FileIndexMap | card_viewer.py:730 | the map has exactly the card rows as keys, each mapped to its entry's index position |
| Selection.FixSelection | card_viewer.py:777-821 | the result is -1 or a selectable row, and -1 only when none is; with no current row, the first selectable row; a selectable current row is kept; otherwise the nearest selectable row below, then the nearest above |
| Duplicate.Stem | card_viewer.py:1034 | `splitext(...)[0]`: the name up to its last dot, a leading run of dots not counting; a name without a dot unchanged, and one with a dot after a non-dot character always split |
| Duplicate.CopyName | card_viewer.py:1036-1039 | each candidate extends the stem and ends in ".png" |
| Duplicate.CopyNameInjective | card_viewer.py:1036-1039 | different copy numbers give different names, so the loop tries a new name each time |
| Duplicate.DuplicateName | card_viewer.py:1034-1040 | the candidate is the first copy name not present in the folder; every earlier one is present |
| Session.SelectFirst | card_viewer.py:778-786 | after the list is refilled the first card row is selected, or none when there is no card row |
| Session.ParseSortMode | card_viewer.py:697-698 | the mode is "Group by Creator" exactly for "creator" |
| Session.Refill | card_viewer.py:706-772 | the rows are the layout of the index for the search text, and the first card row is selected when filling completed |
| Session.FillRows | card_viewer.py:706-768 | the rows added and `file_index_map` are those of the layout in the current mode |
| Session.FillByName | card_viewer.py:714-731 | the name-mode loop adds the name-mode listing |
| Session.GroupByCreator | card_viewer.py:735-738 | `creator_map` holds each creator's entries in index order, keyed by the creators in order of first appearance; it fails on a creator that is not a string |
| Session.FilterGroup | card_viewer.py:743-753 | `filtered` holds the group's shown entries, in order; it fails when the test raises for one of them |
| Session.AddSection | card_viewer.py:754-768 | a header and the sorted card rows are added only for a group with a shown entry |
| Session.AddCardRows | card_viewer.py:763-768 | one indented card row per entry, each recorded in `file_index_map` |
| Session.FillSection | card_viewer.py:741-768 | one pass of the creator loop adds that creator's section |
| Session.FillCreators | card_viewer.py:740-768 | the loop over the sorted creators adds the group-by-creator rows, stopping where the test raises |
| Session.FillByCreator | card_viewer.py:733-768 | the creator-mode branch adds the group-by-creator listing |
| Session.ReconcileLoop | card_viewer.py:882-902 | the loop produces the reconciled index and worklist, every entry with a string file name |
| Session.PutEach | card_viewer.py:942-943 | storing each entry under its file name gives the dict the merge describes |
| Session.MergeLoop | card_viewer.py:941-944 | the dict loops produce the merged index |
| Session.CardViewer.constructor | card_viewer.py:553-565 | no folder, an empty index and list, the saved search text and the checked sort mode |
| Session.CardViewer.DeletionTarget | card_viewer.py:1005-1010 | the position to delete exists only for a current row in `file_index_map` whose position is in range |
| Session.CardViewer.UpdateListbox | card_viewer.py:706-772 | the list shows the layout of the current index, search text and mode; nothing else changes |
| Session.CardViewer.SetSearchText | card_viewer.py:605 | a new search text refills the list |
| Session.CardViewer.SetSortMode | card_viewer.py:696-703 | the checked mode is stored and the list refilled |
| Session.CardViewer.LoadOrUpdateIndexCache | card_viewer.py:864-917 | with a folder open, it raises exactly where loading does (the folder cannot be listed, or `cards.json` makes the lookup raise), changing nothing; otherwise the index becomes the reconciliation of the listing against `cards.json` (empty when unreadable), written back when the save succeeds, and the worklist is returned; with none open, nothing changes |
| Session.CardViewer.OpenFolder | card_viewer.py:846-852 | the folder is opened and its index loaded without forcing a rescan; the list is refilled unless loading raised, in which case index and list are left as they were |
| Session.CardViewer.RefreshFolder | card_viewer.py:854-861 | with a folder open, the index is reloaded with every file queued and the list refilled, unless loading raised; otherwise nothing changes |
| Session.CardViewer.OnScanUpdatedEntries | card_viewer.py:939-951 | the index becomes the merge of the emitted entries, is saved and the list refilled |
| Session.CardViewer.DeleteCard | card_viewer.py:1004-1030 | without a target, a confirmation or a removed file nothing changes; otherwise the entry at the target is deleted, the index saved, and the list refilled only when saving succeeded |
| Session.CardViewer.RemoveEntry | card_viewer.py:1023-1026 | deleting position t leaves the entries before and after it, in order |
| Session.CardViewer.DuplicateCard | card_viewer.py:1032-1057 | the copy gets the first unused copy name; when the copy, its stat and `get_basic_index_info` succeed, its fresh entry is appended, the index saved and the list refilled if saving succeeded; otherwise nothing changes |
| Session.CardViewer.AppendEntry | card_viewer.py:1047-1054 | the entry is appended after all existing ones |

## Left out

- Qt presentation is not modelled: palettes, stylesheets, the `CardDetails` widget, dialogs, message boxes, the event filter, drag and drop, context menus, the theme toggle, `QSettings` and the status bar. It has no statable behaviour beyond the list rows. Question dialogs are boolean parameters.
- The `QThread`/`Signal` wiring and the progress signal are not modelled. The worker runs sequentially and its emitted list is handed to the merge.
- Pillow's PNG reader, `base64.b64decode`, UTF-8 decoding and `json.loads`/`json.dump` are foreign library calls. They are the parameters `ChunkReader` and `Decoder`: the reader yields a file's text chunks, and the decoder is a partial function from payload to JSON value.
- The file system is a set of parameters:
  - `listdir`, a directory listing, or None when listing the folder raises (it was removed, or cannot be read);
  - `getmtime`, a map of the mtimes that could be read;
  - `os.path.exists`, the set of existing names;
  - `remove`, `copy2` and `atomic_write_json`, success flags.
- `atomic_write_json` is a wholesale replacement of the stored `cards.json` contents. The temporary file and the atomic rename are not modelled.
- IndexCache.CachedLookup: reading `cards.json` has three outcomes (`CacheRead`): nothing usable (a missing, unopenable or unparsable file, so `[]`), a JSON number, boolean or null (the lookup cannot iterate it and raises), or the stored list of entries. A top-level string or object, and list elements that are not JSON objects, are not modelled: Python's `in` and indexing would then work on characters, keys or list elements, which a `Record` (always an object) cannot hold. The viewer itself only ever writes a list of objects.
- The `int()` truncation of the float mtime is not modelled: mtimes are integers.
- JSON numbers are integers; floats are not modelled.
- `lower()` and `isspace()` cover ASCII only; Unicode case mapping is not modelled.
- The dict key order of card metadata (a JSON object, modelled as a map) is not modelled. The insertion order of the dict in `_on_scan_updated_entries` is modelled with a sequence of pairs, because the index order depends on it.
- The list widget's current row after `clear()` is taken to be -1. So `_fix_selection` after a refill always starts from no current row.
- `duplicate_card` takes the card's file name rather than its path: `basename` is the identity on it.
- `format_filesize`, thumbnail loading, `_linkify`, `show_card`, export and save-as are presentation or foreign code (floating point, image decoding, regular expressions, dialogs).
- Seqs.SortBy: stability, the order of equal keys, is not stated in its contract. It holds by construction, because each element is inserted after those with keys not greater than its own.
- IndexCache.Placeholder: its contract states the file name and mtime only. Its creator and tags are stated by ReconcileNamesEntries and ReconcileCacheRule through the definition of the entry written on a miss.
- ScanMerge.MergeScanResults: it assumes the index has distinct file names, as every index reconciliation produces from a directory listing (ReconcileDistinct). MergeResults itself is defined for any index.
