/**
  Reading the character card embedded in a PNG: choosing the text chunk that
  holds the payload, decoding it, folding the nested `data` object of the
  v2/v3 schema into the top level, and deriving the two fields the index keeps.
 */
module Metadata {
  import opened Wrappers
  import opened Json
  import opened Text

  /** The text chunks of a PNG file: keyword to text (tEXt/iTXt, section 11.3.4 of the PNG specification). */
  type Chunks = map<string, string>

  /**
    Base64 (section 4 of RFC 4648), then UTF-8, then JSON (RFC 8259), as one
    partial function: None when any of the three steps fails.
   */
  type Decoder = string -> Option<Json>

  datatype CardError =
    | /** The file could not be read as a PNG, or the decoded value raised in the `data` test. */
      ReadFailure
    | /** Neither chunk holds a payload: "No character card metadata found". */
      NoMetadataFound
    | /** The payload is not base64 of UTF-8 JSON text. */
      DecodeError

  /** `chunks.get('chara') or chunks.get('ccv3')`, an empty text counting as missing. */
  function SelectPayload(chunks: Chunks): (p: Option<string>)
    ensures p.Some? ==> p.value != ""
    ensures "chara" in chunks && chunks["chara"] != "" ==> p == Some(chunks["chara"])
    ensures p.Some? && p.value != ChunkText(chunks, "chara") ==> "ccv3" in chunks && p.value == chunks["ccv3"]
    ensures p.None? <==> ChunkText(chunks, "chara") == "" && ChunkText(chunks, "ccv3") == ""
  {
    if "chara" in chunks && chunks["chara"] != "" then Some(chunks["chara"])
    else if "ccv3" in chunks && chunks["ccv3"] != "" then Some(chunks["ccv3"])
    else None
  }

  /** A chunk's text, the empty string standing for a missing chunk. */
  function ChunkText(chunks: Chunks, keyword: string): string
  {
    if keyword in chunks then chunks[keyword] else ""
  }

  /** The object has a `data` member that is itself an object (the v2/v3 schema). */
  predicate HasNestedData(obj: Object)
  {
    "data" in obj && obj["data"].JObj?
  }

  /**
    The non-destructive merge: members of a nested `data` object are added to
    the top level only where the top level lacks them.
   */
  function Merged(obj: Object): (r: Object)
    ensures forall k :: k in obj ==> k in r && r[k] == obj[k]
    ensures HasNestedData(obj) ==>
      forall k :: k in r <==> k in obj || k in obj["data"].fields
    ensures HasNestedData(obj) ==>
      forall k :: k in r && k !in obj ==> r[k] == obj["data"].fields[k]
    ensures !HasNestedData(obj) ==> r == obj
  {
    if HasNestedData(obj) then obj["data"].fields + obj else obj
  }

  /** The merge as the source performs it: copy the object, then insert the missing nested members one by one. */
  method MergeNestedData(obj: Object) returns (merged: Object)
    ensures merged == Merged(obj)
  {
    merged := obj;
    if "data" in obj && obj["data"].JObj? {
      var nested := obj["data"].fields;
      var remaining := nested.Keys;
      while remaining != {}
        invariant remaining <= nested.Keys
        invariant merged == (map k | k in nested.Keys - remaining :: nested[k]) + obj
        decreases remaining
      {
        var k :| k in remaining;
        if k !in merged {
          merged := merged[k := nested[k]];
        }
        remaining := remaining - {k};
      }
      assert (map k | k in nested.Keys - remaining :: nested[k]) == nested;
    }
  }

  /**
    The `data` test applied to whatever the payload decoded to. Python's `in`
    searches a list's elements and a string's substrings, and raises on other
    non-objects; indexing a list or string with "data" raises too.
   */
  function NormalizeSchema(v: Json): (r: Result<Json, CardError>)
    ensures v.JObj? ==> r == Success(JObj(Merged(v.fields)))
    ensures r.Success? ==> v.JObj? || v == r.value
    ensures v.JNull? || v.JBool? || v.JNum? ==> r == Failure(ReadFailure)
  {
    match v
    case JObj(m) => Success(JObj(Merged(m)))
    case JArr(items) => if JStr("data") in items then Failure(ReadFailure) else Success(v)
    case JStr(s) => if Contains(s, "data") then Failure(ReadFailure) else Success(v)
    case _ => Failure(ReadFailure)
  }

  /**
    `read_card_metadata`: `png` is None when the file cannot be opened as a
    PNG, otherwise its text chunks.
   */
  function ReadCardMetadata(png: Option<Chunks>, decode: Decoder): (r: Result<Json, CardError>)
    ensures png.None? ==> r == Failure(ReadFailure)
    ensures r == Failure(NoMetadataFound) <==> png.Some? && SelectPayload(png.value).None?
    ensures r == Failure(DecodeError) <==>
      png.Some? && SelectPayload(png.value).Some? && decode(SelectPayload(png.value).value).None?
    ensures png.Some? && SelectPayload(png.value).Some? ==>
      var decoded := decode(SelectPayload(png.value).value);
      decoded.Some? && decoded.value.JObj? ==>
        && r.Success? && r.value.JObj?
        && r.value.fields == Merged(decoded.value.fields)
        && (forall k :: k in decoded.value.fields ==> k in r.value.fields && r.value.fields[k] == decoded.value.fields[k])
        && (!HasNestedData(decoded.value.fields) ==> r.value == decoded.value)
  {
    match png
    case None => Failure(ReadFailure)
    case Some(chunks) =>
      match SelectPayload(chunks)
      case None => Failure(NoMetadataFound)
      case Some(payload) =>
        match decode(payload)
        case None => Failure(DecodeError)
        case Some(v) => NormalizeSchema(v)
  }

  /** The two index fields of a card. */
  datatype IndexInfo = IndexInfo(creator: Json, tags: seq<Json>)

  const Unknown := JStr("Unknown")

  /**
    `get_basic_index_info` applied to the result of reading the card. None
    stands for the exception the source raises when the metadata is a
    non-empty list or string (it has no `get`).
   */
  function BasicIndexInfo(meta: Result<Json, CardError>): (r: Option<IndexInfo>)
    ensures meta.Failure? ==> r == Some(IndexInfo(Unknown, []))
    ensures meta.Success? && !Truthy(meta.value) ==> r == Some(IndexInfo(Unknown, []))
    ensures meta.Success? && meta.value.JObj? ==>
      var m := meta.value.fields;
      && r.Some?
      && (r.value.creator == if "creator" in m && Truthy(m["creator"]) then m["creator"] else Unknown)
      && (r.value.tags == if "tags" in m && m["tags"].JArr? then m["tags"].items else [])
    ensures r.Some? ==> Truthy(r.value.creator)
    ensures r.None? <==> meta.Success? && Truthy(meta.value) && !meta.value.JObj?
  {
    if meta.Failure? || !Truthy(meta.value) then Some(IndexInfo(Unknown, []))
    else
      match meta.value
      case JObj(m) =>
        var creator := if "creator" in m && Truthy(m["creator"]) then m["creator"] else Unknown;
        var tags := if "tags" in m && m["tags"].JArr? then m["tags"].items else [];
        Some(IndexInfo(creator, tags))
      case _ => None
  }
}
