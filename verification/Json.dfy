/**
 JSON values as the catalog parser meets them. A field name is one the catalog knows, or another
 string; names compare as the strings they stand for.
 */
module Json {
  import opened Common

  datatype Key =
    | Schema | Id | Label | Provider | Stream | Version | Files | SourceKey | Sizes | Licenses | Compatibility
    | Path | BytesKey | Sha256 | TextSha256 | Decision | Licensors | RecordDigest
    | Url | Mode | ProvenanceKey | Project | Revision | OriginalUrl
    | ArchiveBytes | ArchiveSha256 | Format | Root | Fetch | Input | Inputs | Conversion | Argv | ToolAssetId
    | ManifestUrl | ManifestSha256 | Blobs
    | DownloadBytes | InstalledBytes | TemporaryBytes
    | ConsumerSchema | Minimum | Maximum
    | Mirrors | Parts
    | OtherName(name: string)

  datatype Json =
    | Null
    | Bool(b: bool)
    | Int(n: int)
    | Real(r: real)
    | Str(s: string)
    | Arr(items: seq<Json>)
    | Obj(fields: map<Key, Json>)

  /** `value.get(key)`: a missing field reads as null. */
  function Get(v: Json, key: Key): Json {
    if v.Obj? && key in v.fields then v.fields[key] else Null
  }

  predicate Has(v: Json, key: Key) {
    v.Obj? && key in v.fields
  }

  /** An object with no field outside `allowed`: its fields. */
  function Object(v: Json, allowed: set<Key>): Option<map<Key, Json>> {
    if v.Obj? && v.fields.Keys <= allowed then Some(v.fields) else None
  }

  /** An array. */
  function Array(v: Json): Option<seq<Json>> {
    if v.Arr? then Some(v.items) else None
  }

  /** `_nonempty_text`. */
  function Text(v: Json, maximum: nat): Option<string> {
    if v.Str? && v.s != "" && '\0' !in v.s && |v.s| <= maximum then Some(v.s) else None
  }

  /** `_byte_count`: an integer, and not a boolean, of at most 63 bits. */
  function ByteCount(v: Json): Option<nat> {
    if v.Int? && 0 <= v.n < 0x8000_0000_0000_0000 then Some(v.n) else None
  }

  predicate IsHexDigit(c: char) {
    '0' <= c <= '9' || 'a' <= c <= 'f'
  }

  predicate IsHexText(s: string, length: nat) {
    |s| == length && forall i | 0 <= i < |s| :: IsHexDigit(s[i])
  }

  /**
   `_exact_hex`. It looks at the length and the set of elements only, so where the caller does not
   ask for a string first, an array of one-digit strings passes too and is kept as it is.
   */
  function ExactHex(v: Json, length: nat): Option<Json> {
    if v.Str? && IsHexText(v.s, length) then Some(v)
    else if v.Arr? && |v.items| == length
         && forall i | 0 <= i < length :: v.items[i].Str? && |v.items[i].s| == 1 && IsHexDigit(v.items[i].s[0])
    then Some(v)
    else None
  }
}
