/**
 What `AssetSpec.from_mapping` reads from any JSON value: exactly the written form of the record it returns, but
 for paths that are not in normal form and empty optional fields. So no unknown field and no other value passes.
 */
module RecordReading {
  import opened Common
  import opened Json
  import opened AssetSpec
  import opened RecordValidity
  import AssetRoundTrip
  import Generator
  import RelativePath

  // ---------------------------------------------------------------------------------------
  // The written form of what is read

  /** The field with another value, if there is one. */
  function With(v: Json, key: Key, x: Json): Json {
    if Has(v, key) then Obj(v.fields[key := x]) else v
  }

  /** A field that is null is taken as absent. */
  function WithoutNull(v: Json, key: Key): Json {
    if Has(v, key) && v.fields[key].Null? then Obj(v.fields - {key}) else v
  }

  function CleanPath(v: Json): Json {
    if v.Str? && RelativePath.RelativePath(v.s).Some? then Str(RelativePath.RelativePath(v.s).value) else v
  }

  /** The path of a file, of a fetched file, or of an input. */
  function CleanItem(v: Json): Json {
    With(v, Path, CleanPath(Get(v, Path)))
  }

  function CleanItems(items: seq<Json>): (r: seq<Json>)
    ensures |r| == |items|
  {
    if items == [] then [] else [CleanItem(items[0])] + CleanItems(items[1..])
  }

  function CleanArray(v: Json): Json {
    if v.Arr? then Arr(CleanItems(v.items)) else v
  }

  function CleanSource(v: Json): Json {
    var a := With(v, Fetch, CleanArray(Get(v, Fetch)));
    var b := With(a, Blobs, CleanArray(Get(v, Blobs)));
    var c := With(b, Input, CleanItem(Get(v, Input)));
    if Get(v, Mode) == Str(CONVERT) then WithoutNull(WithoutNull(c, Fetch), Inputs) else c
  }

  function CleanSpec(v: Json): Json {
    With(With(v, Files, CleanArray(Get(v, Files))), SourceKey, CleanSource(Get(v, SourceKey)))
  }

  // ---------------------------------------------------------------------------------------
  // Reading the written form

  lemma WithAt(v: Json, key: Key, x: Json, k: Key)
    ensures Get(With(v, key, x), k) == if k != key then Get(v, k) else if Has(v, key) then x else Null
    ensures Has(With(v, key, x), k) == Has(v, k)
  {
  }

  lemma WithKeeps(v: Json, key: Key, x: Json, allowed: set<Key>)
    ensures Object(With(v, key, x), allowed).Some? <==> Object(v, allowed).Some?
    ensures With(v, key, x).Obj? <==> v.Obj?
  {
  }

  lemma WithoutNullAt(v: Json, key: Key, k: Key)
    ensures Get(WithoutNull(v, key), k) == Get(v, k)
    ensures Has(WithoutNull(v, key), k) == if k == key then !Get(v, k).Null? else Has(v, k)
  {
  }

  lemma WithoutNullKeeps(v: Json, key: Key, allowed: set<Key>)
    ensures key in allowed ==> (Object(WithoutNull(v, key), allowed).Some? <==> Object(v, allowed).Some?)
    ensures WithoutNull(v, key).Obj? <==> v.Obj?
  {
    var w := WithoutNull(v, key);
    if key in allowed && w.Obj? { assert v.fields.Keys <= w.fields.Keys + {key}; }
  }

  lemma ItemAt(v: Json, k: Key)
    ensures Get(CleanItem(v), k) == if k == Path then CleanPath(Get(v, Path)) else Get(v, k)
    ensures Has(CleanItem(v), k) == Has(v, k)
  {
    NoPath();
    WithAt(v, Path, CleanPath(Get(v, Path)), k);
    hide CleanPath, With;
  }

  lemma ItemKeeps(v: Json, allowed: set<Key>)
    ensures Object(CleanItem(v), allowed).Some? <==> Object(v, allowed).Some?
  {
    WithKeeps(v, Path, CleanPath(Get(v, Path)), allowed);
    hide CleanPath, With, Object;
  }

  lemma PathIsClean(v: Json)
    ensures ParsePath(CleanPath(v)) == ParsePath(v)
    ensures ParsePath(v).Some? ==> CleanPath(v) == Str(ParsePath(v).value)
  {
    if ParsePath(v).Some? {
      RelativePath.AcceptedIsPlain(v.s);
      RelativePath.PlainIsFixed(ParsePath(v).value);
    }
    hide RelativePath.RelativePath;
  }

  lemma NoPath()
    ensures CleanPath(Null) == Null
  {
  }

  const FILE_KEYS: set<Key> := {Path, BytesKey, Sha256}

  lemma FileIsClean(v: Json)
    ensures ParseFile(CleanItem(v)) == ParseFile(v)
    ensures ParseFile(v).Some? ==> CleanItem(v) == PrintFile(ParseFile(v).value)
  {
    var c := CleanItem(v);
    PathIsClean(Get(v, Path));
    ItemAt(v, Path);
    ItemAt(v, BytesKey);
    ItemAt(v, Sha256);
    ItemKeeps(v, FILE_KEYS);
    NullIsNoPath();
    hide CleanItem, ParsePath, CleanPath, IsHexText;
    if ParseFile(v).Some? {
      HasFields(c, FILE_KEYS);
      SameFields(c, PrintFile(ParseFile(v).value), FILE_KEYS);
    }
  }

  lemma NullIsNoPath()
    ensures ParsePath(Null).None?
  {
  }

  lemma {:induction false} FilesAreClean(items: seq<Json>)
    ensures ParseFiles(CleanItems(items)) == ParseFiles(items)
    ensures ParseFiles(items).Some? ==> CleanItems(items) == PrintFiles(ParseFiles(items).value)
  {
    if items != [] {
      FileIsClean(items[0]);
      FilesAreClean(items[1..]);
      hide ParseFile, PrintFile, CleanItem;
      assert CleanItems(items)[1..] == CleanItems(items[1..]);
      if ParseFiles(items).Some? {
        assert ParseFiles(items).value[1..] == ParseFiles(items[1..]).value;
      }
    }
  }

  const FETCH_KEYS: set<Key> := {Path, Url}

  lemma FetchIsClean(r: FetchRules, v: Json)
    ensures ParseFetch(r, CleanItem(v)) == ParseFetch(r, v)
    ensures ParseFetch(r, v).Some? ==> CleanItem(v) == PrintFetch(ParseFetch(r, v).value)
  {
    var c := CleanItem(v);
    PathIsClean(Get(v, Path));
    ItemAt(v, Path);
    ItemAt(v, Url);
    ItemKeeps(v, FETCH_KEYS);
    NullIsNoPath();
    hide CleanItem, ParsePath, CleanPath;
    if ParseFetch(r, v).Some? {
      HasFields(c, FETCH_KEYS);
      SameFields(c, PrintFetch(ParseFetch(r, v).value), FETCH_KEYS);
    }
  }

  lemma {:induction false} FetchesAreClean(r: FetchRules, items: seq<Json>)
    ensures ParseFetches(r, CleanItems(items)) == ParseFetches(r, items)
    ensures ParseFetches(r, items).Some? ==> CleanItems(items) == PrintFetches(ParseFetches(r, items).value)
  {
    if items != [] {
      FetchIsClean(r, items[0]);
      FetchesAreClean(r, items[1..]);
      hide ParseFetch, PrintFetch, CleanItem;
      assert CleanItems(items)[1..] == CleanItems(items[1..]);
      if ParseFetches(r, items).Some? {
        assert ParseFetches(r, items).value[1..] == ParseFetches(r, items[1..]).value;
      }
    }
  }

  lemma {:induction false} TextsAreWritten(items: seq<Json>, maximum: nat)
    requires ParseTexts(items, maximum).Some?
    ensures items == PrintTexts(ParseTexts(items, maximum).value)
  {
    if items != [] {
      TextsAreWritten(items[1..], maximum);
      assert items == [items[0]] + items[1..];
      assert ParseTexts(items, maximum).value[1..] == ParseTexts(items[1..], maximum).value;
    }
  }

  lemma {:induction false} ArgvIsWritten(items: seq<Json>)
    requires ParseArgv(items).Some?
    ensures items == PrintTexts(ParseArgv(items).value)
  {
    if items != [] {
      ArgvIsWritten(items[1..]);
      assert items == [items[0]] + items[1..];
      assert ParseArgv(items).value[1..] == ParseArgv(items[1..]).value;
    }
  }

  lemma LicenseIsWritten(v: Json)
    requires ParseLicense(v).Some?
    ensures v == PrintLicense(ParseLicense(v).value)
  {
    TextsAreWritten(Array(Get(v, Licensors)).value, 128);
    hide ParseTexts, PrintTexts, IsHexText;
    assert v.fields.Keys == {Id, TextSha256, Decision, Licensors, RecordDigest};
    assert v.fields == PrintLicense(ParseLicense(v).value).fields;
  }

  lemma {:induction false} LicensesAreWritten(items: seq<Json>)
    requires ParseLicenses(items).Some?
    ensures items == PrintLicenses(ParseLicenses(items).value)
  {
    if items != [] {
      LicenseIsWritten(items[0]);
      LicensesAreWritten(items[1..]);
      hide ParseLicense, PrintLicense;
      assert items == [items[0]] + items[1..];
      assert ParseLicenses(items).value[1..] == ParseLicenses(items[1..]).value;
    }
  }

  lemma InputProvenanceIsWritten(u: UrlRules, v: Json)
    requires ParseInputProvenance(u, v).Some?
    ensures v == PrintProvenance(ParseInputProvenance(u, v).value)
  {
    hide IsHexText;
    assert v.fields.Keys == {Project, Revision, OriginalUrl};
    assert v.fields == PrintProvenance(ParseInputProvenance(u, v).value).fields;
  }

  lemma InputIsWritten(u: UrlRules, allowFile: bool, host: string, v: Json)
    requires ParseInput(u, allowFile, host, v).Some?
    ensures v == PrintInput(ParseInput(u, allowFile, host, v).value)
  {
    if Has(v, ProvenanceKey) { InputProvenanceIsWritten(u, Get(v, ProvenanceKey)); }
    hide ParseInputProvenance, PrintProvenance, IsInputName, IsHexText;
    var known := {Path, Url, BytesKey, Sha256} + if Has(v, ProvenanceKey) then {ProvenanceKey} else {};
    assert v.fields.Keys == known;
    assert v.fields == PrintInput(ParseInput(u, allowFile, host, v).value).fields;
  }

  lemma {:induction false} InputsAreWritten(u: UrlRules, allowFile: bool, host: string, items: seq<Json>)
    requires ParseInputs(u, allowFile, host, items).Some?
    ensures items == PrintInputs(ParseInputs(u, allowFile, host, items).value)
  {
    if items != [] {
      InputIsWritten(u, allowFile, host, items[0]);
      InputsAreWritten(u, allowFile, host, items[1..]);
      hide ParseInput, PrintInput;
      assert items == [items[0]] + items[1..];
      assert ParseInputs(u, allowFile, host, items).value[1..] == ParseInputs(u, allowFile, host, items[1..]).value;
    }
  }

  const PRIMARY_KEYS: set<Key> := {Url, BytesKey, Sha256, Path}

  lemma PrimaryReadsFields(u: UrlRules, allowFile: bool, host: string, v: Json, w: Json)
    requires Object(v, PRIMARY_KEYS).Some? <==> Object(w, PRIMARY_KEYS).Some?
    requires Get(w, Url) == Get(v, Url) && Get(w, BytesKey) == Get(v, BytesKey) && Get(w, Sha256) == Get(v, Sha256)
    requires Has(w, Path) == Has(v, Path) && ParsePath(Get(w, Path)) == ParsePath(Get(v, Path))
    ensures ParsePrimary(u, allowFile, host, w) == ParsePrimary(u, allowFile, host, v)
  {
    hide Get, Object, Has, ParseUrl, ParsePath, ByteCount, ExactHex;
  }

  lemma PrimaryParts(u: UrlRules, allowFile: bool, host: string, v: Json)
    requires ParsePrimary(u, allowFile, host, v).Some?
    ensures var p := ParsePrimary(u, allowFile, host, v).value;
      && Object(v, PRIMARY_KEYS).Some? && Get(v, Url) == Str(p.url) && Get(v, BytesKey) == Int(p.bytes)
      && Get(v, Sha256) == p.sha256 && p.sha256 != Null
      && (if Has(v, Path) then ParsePath(Get(v, Path)) == Some(p.path) else p.path == "")
  {
    hide Object, ParsePath, IsHexText;
  }

  lemma PrimaryFields(p: Primary)
    ensures var w := PrintPrimary(p);
      && w.Obj? && w.fields.Keys == {Url, BytesKey, Sha256} + (if p.path != "" then {Path} else {})
      && Get(w, Url) == Str(p.url) && Get(w, BytesKey) == Int(p.bytes) && Get(w, Sha256) == p.sha256
      && (p.path != "" ==> Get(w, Path) == Str(p.path))
  {
  }

  lemma PrimaryIsClean(u: UrlRules, allowFile: bool, host: string, v: Json)
    ensures ParsePrimary(u, allowFile, host, CleanItem(v)) == ParsePrimary(u, allowFile, host, v)
    ensures ParsePrimary(u, allowFile, host, v).Some? ==>
              CleanItem(v) == PrintPrimary(ParsePrimary(u, allowFile, host, v).value)
  {
    var c := CleanItem(v);
    PathIsClean(Get(v, Path));
    if Has(v, Path) && ParsePath(Get(v, Path)).Some? { AssetRoundTrip.PathRoundTrip(Get(v, Path)); }
    hide *;
    ItemAt(v, Path);
    ItemAt(v, Url);
    ItemAt(v, BytesKey);
    ItemAt(v, Sha256);
    ItemKeeps(v, PRIMARY_KEYS);
    PrimaryReadsFields(u, allowFile, host, v, c);
    if ParsePrimary(u, allowFile, host, v).Some? {
      var p := ParsePrimary(u, allowFile, host, v).value;
      PrimaryParts(u, allowFile, host, v);
      PrimaryFields(p);
      PrimaryHasFields(c, p);
      PrimarySameFields(c, PrintPrimary(p), p);
    }
  }

  lemma PrimarySameFields(c: Json, w: Json, p: Primary)
    requires c.Obj? && w.Obj? && c.fields.Keys == w.fields.Keys
    requires w.fields.Keys == {Url, BytesKey, Sha256} + (if p.path != "" then {Path} else {})
    requires Get(c, Url) == Get(w, Url) && Get(c, BytesKey) == Get(w, BytesKey) && Get(c, Sha256) == Get(w, Sha256)
    requires p.path != "" ==> Get(c, Path) == Get(w, Path)
    ensures c == w
  {
    SameFields(c, w, w.fields.Keys);
  }

  lemma PrimaryHasFields(c: Json, p: Primary)
    requires Object(c, PRIMARY_KEYS).Some? && Get(c, Url) != Null && Get(c, BytesKey) != Null && Get(c, Sha256) != Null
    requires Has(c, Path) <==> p.path != ""
    ensures c.Obj? && c.fields.Keys == {Url, BytesKey, Sha256} + (if p.path != "" then {Path} else {})
  {
  }

  lemma ConversionIsWritten(v: Json)
    requires ParseConversion(v).Some?
    ensures v == PrintConversion(ParseConversion(v).value)
  {
    ArgvIsWritten(Array(Get(v, Argv)).value);
    hide ParseArgv, PrintTexts, RelativePath.ValidId;
    assert v.fields.Keys == {ToolAssetId, Argv};
    assert v.fields == PrintConversion(ParseConversion(v).value).fields;
  }

  lemma ProvenanceIsWritten(u: UrlRules, allowFile: bool, h: Head, mode: string, v: Json)
    requires ParseProvenance(u, allowFile, h, mode, v).Some?
    ensures v == PrintProvenance(ParseProvenance(u, allowFile, h, mode, v).value)
  {
    hide OwnedBy;
    assert v.fields.Keys == {Project, Revision, OriginalUrl};
    assert v.fields == PrintProvenance(ParseProvenance(u, allowFile, h, mode, v).value).fields;
  }

  // ---------------------------------------------------------------------------------------
  // The source

  lemma CleanArrays()
    ensures CleanArray(Null) == Null && CleanItem(Null) == Null
  {
  }

  /** What is in a cleaned source. */
  lemma SourceAt(v: Json, k: Key)
    ensures Get(CleanSource(v), k)
         == if k == Fetch || k == Blobs then CleanArray(Get(v, k))
            else if k == Input then CleanItem(Get(v, k)) else Get(v, k)
    ensures Has(CleanSource(v), k)
         == if Get(v, Mode) == Str(CONVERT) && (k == Fetch || k == Inputs) then !Get(v, k).Null? else Has(v, k)
  {
    CleanArrays();
    ArrayKeepsNull(Get(v, k));
    hide CleanArray, CleanItem, With, WithoutNull;
    var a := With(v, Fetch, CleanArray(Get(v, Fetch)));
    var b := With(a, Blobs, CleanArray(Get(v, Blobs)));
    var c := With(b, Input, CleanItem(Get(v, Input)));
    WithAt(v, Fetch, CleanArray(Get(v, Fetch)), k);
    WithAt(a, Blobs, CleanArray(Get(v, Blobs)), k);
    WithAt(b, Input, CleanItem(Get(v, Input)), k);
    WithoutNullAt(c, Fetch, k);
    WithoutNullAt(WithoutNull(c, Fetch), Inputs, k);
    AbsentIsNull(v, k);
    hide Get, Has;
  }

  lemma AbsentIsNull(v: Json, k: Key)
    ensures !Has(v, k) ==> Get(v, k) == Null
  {
  }

  /** Cleaning does not change which fields are unknown. */
  lemma SourceKeeps(v: Json, allowed: set<Key>)
    requires Get(v, Mode) == Str(CONVERT) ==> Fetch in allowed && Inputs in allowed
    ensures Object(CleanSource(v), allowed).Some? <==> Object(v, allowed).Some?
    ensures CleanSource(v).Obj? <==> v.Obj?
  {
    hide CleanArray, CleanItem, With, WithoutNull, Object;
    var a := With(v, Fetch, CleanArray(Get(v, Fetch)));
    var b := With(a, Blobs, CleanArray(Get(v, Blobs)));
    var c := With(b, Input, CleanItem(Get(v, Input)));
    WithKeeps(v, Fetch, CleanArray(Get(v, Fetch)), allowed);
    WithKeeps(a, Blobs, CleanArray(Get(v, Blobs)), allowed);
    WithKeeps(b, Input, CleanItem(Get(v, Input)), allowed);
    WithoutNullKeeps(c, Fetch, allowed);
    WithoutNullKeeps(WithoutNull(c, Fetch), Inputs, allowed);
  }

  /** The fields of all modes but convert that are not changed. */
  lemma ArchiveAt(v: Json)
    ensures forall k | k in ARCHIVE_KEYS :: Get(CleanSource(v), k) == Get(v, k)
  {
    forall k | k in ARCHIVE_KEYS ensures Get(CleanSource(v), k) == Get(v, k) {
      SourceAt(v, k);
    }
    hide CleanSource, Get;
  }

  lemma ArrayKeepsNull(v: Json)
    ensures CleanArray(v).Null? <==> v.Null?
  {
  }

  /** Two objects with the same fields. */
  lemma SameFields(v: Json, w: Json, keys: set<Key>)
    requires v.Obj? && w.Obj? && v.fields.Keys == keys && w.fields.Keys == keys
    requires forall k | k in keys :: Get(v, k) == Get(w, k)
    ensures v == w
  {
    assert v.fields == w.fields;
  }

  /** An object with no unknown field has just the known ones that it has. */
  lemma KnownFields(v: Json, keys: set<Key>)
    requires Object(v, keys).Some? && forall k | k in keys :: Has(v, k)
    ensures v.Obj? && v.fields.Keys == keys
  {
  }

  const ARCHIVE_KEYS: set<Key> := {Mode, Url, ArchiveBytes, ArchiveSha256, Format, Root, ProvenanceKey}
  const FILES_KEYS: set<Key> := {Mode, Fetch, ProvenanceKey}
  const REGISTRY_KEYS: set<Key> := {Mode, ManifestUrl, ManifestSha256, Blobs, ProvenanceKey}

  lemma ArchiveReadsFields(u: UrlRules, allowFile: bool, h: Head, p: Provenance, v: Json, w: Json)
    requires Object(v, ARCHIVE_KEYS).Some? <==> Object(w, ARCHIVE_KEYS).Some?
    requires forall k | k in ARCHIVE_KEYS :: Get(v, k) == Get(w, k)
    ensures ParseArchive(u, allowFile, h, p, v) == ParseArchive(u, allowFile, h, p, w)
  {
    hide Get, Object, OwnedBy, ParseUrl, ByteCount, ExactHex, Text;
    assert Get(v, Url) == Get(w, Url) && Get(v, ArchiveBytes) == Get(w, ArchiveBytes) && Get(v, Root) == Get(w, Root);
    assert Get(v, ArchiveSha256) == Get(w, ArchiveSha256) && Get(v, Format) == Get(w, Format);
  }

  lemma ArchiveParts(u: UrlRules, allowFile: bool, h: Head, p: Provenance, v: Json)
    requires ParseArchive(u, allowFile, h, p, v).Some? && Get(v, Mode) == Str(ARCHIVE)
    requires Get(v, ProvenanceKey) == PrintProvenance(p)
    ensures Object(v, ARCHIVE_KEYS).Some? && forall k | k in ARCHIVE_KEYS :: Has(v, k)
    ensures PrintArchive(ParseArchive(u, allowFile, h, p, v).value) == v
  {
    hide OwnedBy, PrintProvenance, IsHexText, ARCHIVE;
    var w := PrintArchive(ParseArchive(u, allowFile, h, p, v).value);
    assert PrintProvenance(p).Obj? by { ProvenanceIsAnObject(p); }
    KnownFields(v, ARCHIVE_KEYS);
    assert w.fields.Keys == ARCHIVE_KEYS;
    SameFields(v, w, ARCHIVE_KEYS);
  }

  lemma ProvenanceIsAnObject(p: Provenance)
    ensures PrintProvenance(p).Obj?
  {
  }

  lemma ArchiveIsClean(u: UrlRules, allowFile: bool, h: Head, p: Provenance, v: Json)
    requires Get(v, Mode) == Str(ARCHIVE) && Get(v, ProvenanceKey) == PrintProvenance(p)
    ensures ParseArchive(u, allowFile, h, p, CleanSource(v)) == ParseArchive(u, allowFile, h, p, v)
    ensures ParseArchive(u, allowFile, h, p, v).Some? ==>
              CleanSource(v) == PrintArchive(ParseArchive(u, allowFile, h, p, v).value)
  {
    ModesDiffer();
    assert Fetch !in ARCHIVE_KEYS && Blobs !in ARCHIVE_KEYS && Input !in ARCHIVE_KEYS;
    assert Mode in ARCHIVE_KEYS && ProvenanceKey in ARCHIVE_KEYS;
    hide *;
    ArchiveAt(v);
    SourceKeeps(v, ARCHIVE_KEYS);
    ArchiveReadsFields(u, allowFile, h, p, CleanSource(v), v);
    if ParseArchive(u, allowFile, h, p, v).Some? { ArchiveParts(u, allowFile, h, p, CleanSource(v)); }
  }

  lemma FilesReadsFields(u: UrlRules, allowFile: bool, h: Head, p: Provenance, v: Json, w: Json)
    requires Object(v, FILES_KEYS).Some? <==> Object(w, FILES_KEYS).Some?
    requires Get(w, Fetch) == CleanArray(Get(v, Fetch))
    ensures ParseFilesSource(u, allowFile, h, p, w) == ParseFilesSource(u, allowFile, h, p, v)
  {
    var owned := OwnedBy(u, h, FILES, p.project, p.revision);
    if Get(v, Fetch).Arr? {
      FetchesAreClean(FetchRules(u, allowFile, owned.files, Some(u.host(p.url))), Get(v, Fetch).items);
    }
    hide Get, Object, OwnedBy, ParseFetches, FetchPaths, ContentPaths, CleanItems, FILES;
  }

  lemma FilesParts(u: UrlRules, allowFile: bool, h: Head, p: Provenance, v: Json)
    requires ParseFilesSource(u, allowFile, h, p, v).Some?
    ensures Object(v, FILES_KEYS).Some? && Get(v, Fetch).Arr?
    ensures CleanArray(Get(v, Fetch)) == Arr(PrintFetches(ParseFilesSource(u, allowFile, h, p, v).value.fetch))
    ensures Get(PrintFilesSource(ParseFilesSource(u, allowFile, h, p, v).value), Mode) == Str(FILES)
    ensures ParseFilesSource(u, allowFile, h, p, v).value.provenance == p
  {
    var owned := OwnedBy(u, h, FILES, p.project, p.revision);
    FetchesAreClean(FetchRules(u, allowFile, owned.files, Some(u.host(p.url))), Get(v, Fetch).items);
    hide OwnedBy, ParseFetches, FetchPaths, ContentPaths, CleanItems, FILES, PrintFetches, PrintProvenance;
  }

  lemma FilesSourceFields(s: Source)
    ensures var w := PrintFilesSource(s);
      && w.Obj? && w.fields.Keys == FILES_KEYS && Get(w, Fetch) == Arr(PrintFetches(s.fetch))
      && Get(w, Mode) == Str(s.mode) && Get(w, ProvenanceKey) == PrintProvenance(s.provenance)
  {
    hide PrintFetches, PrintProvenance;
  }

  lemma FilesSourceIsClean(u: UrlRules, allowFile: bool, h: Head, p: Provenance, v: Json)
    requires Get(v, Mode) == Str(FILES) && Get(v, ProvenanceKey) == PrintProvenance(p)
    ensures ParseFilesSource(u, allowFile, h, p, CleanSource(v)) == ParseFilesSource(u, allowFile, h, p, v)
    ensures ParseFilesSource(u, allowFile, h, p, v).Some? ==>
              CleanSource(v) == PrintFilesSource(ParseFilesSource(u, allowFile, h, p, v).value)
  {
    ModesDiffer();
    hide *;
    SourceAt(v, Mode);
    SourceAt(v, ProvenanceKey);
    SourceAt(v, Fetch);
    SourceKeeps(v, FILES_KEYS);
    FilesReadsFields(u, allowFile, h, p, v, CleanSource(v));
    if ParseFilesSource(u, allowFile, h, p, v).Some? {
      FilesParts(u, allowFile, h, p, v);
      var s, c := ParseFilesSource(u, allowFile, h, p, v).value, CleanSource(v);
      FilesSourceFields(s);
      FilesKeysAre(p);
      HasFields(c, FILES_KEYS);
      SameFields(c, PrintFilesSource(s), FILES_KEYS);
    }
  }

  lemma FilesKeysAre(p: Provenance)
    ensures forall k | k in FILES_KEYS :: k == Mode || k == Fetch || k == ProvenanceKey
    ensures PrintProvenance(p) != Null
  {
  }

  /** Where no known field reads as null, they are all there. */
  lemma HasFields(v: Json, keys: set<Key>)
    requires Object(v, keys).Some? && forall k | k in keys :: Get(v, k) != Null
    ensures v.Obj? && v.fields.Keys == keys
  {
    forall k | k in keys ensures Has(v, k) { assert Get(v, k) != Null; }
    KnownFields(v, keys);
  }

  lemma RegistryReadsFields(u: UrlRules, allowFile: bool, h: Head, p: Provenance, v: Json, w: Json)
    requires Object(v, REGISTRY_KEYS).Some? <==> Object(w, REGISTRY_KEYS).Some?
    requires Get(w, Blobs) == CleanArray(Get(v, Blobs))
    requires Get(w, ManifestUrl) == Get(v, ManifestUrl) && Get(w, ManifestSha256) == Get(v, ManifestSha256)
    ensures ParseRegistry(u, allowFile, h, p, w) == ParseRegistry(u, allowFile, h, p, v)
  {
    if Get(v, Blobs).Arr? { FetchesAreClean(FetchRules(u, allowFile, {}, None), Get(v, Blobs).items); }
    hide Get, Object, ParseFetches, FetchPaths, ContentPaths, CleanItems, REGISTRY, ParseUrl, ExactHex;
  }

  lemma RegistryParts(u: UrlRules, allowFile: bool, h: Head, p: Provenance, v: Json)
    requires ParseRegistry(u, allowFile, h, p, v).Some?
    ensures var s := ParseRegistry(u, allowFile, h, p, v).value;
      && Object(v, REGISTRY_KEYS).Some? && Get(v, Blobs).Arr? && s.provenance == p && s.mode == REGISTRY
      && CleanArray(Get(v, Blobs)) == Arr(PrintFetches(s.blobs))
      && Get(v, ManifestUrl) == Str(s.manifestUrl) && Get(v, ManifestSha256) == s.manifestSha256
      && s.manifestSha256 != Null
  {
    hide Get, Object, ParseFetches, FetchPaths, ContentPaths, CleanItems, REGISTRY, PrintFetches, ParseUrl, ExactHex;
    FetchesAreClean(FetchRules(u, allowFile, {}, None), Get(v, Blobs).items);
    UrlIsWritten(u, Get(v, ManifestUrl), allowFile, None, {});
    HexIsKept(Get(v, ManifestSha256), 64);
  }

  lemma UrlIsWritten(u: UrlRules, v: Json, allowFile: bool, archive: Option<string>, files: set<string>)
    ensures ParseUrl(u, v, allowFile, archive, files).Some? ==>
              v == Str(ParseUrl(u, v, allowFile, archive, files).value)
  {
  }

  lemma HexIsKept(v: Json, length: nat)
    ensures ExactHex(v, length).Some? ==> ExactHex(v, length) == Some(v) && v != Null
  {
  }

  lemma RegistryFields(s: Source)
    ensures var w := PrintRegistry(s);
      && w.Obj? && w.fields.Keys == REGISTRY_KEYS && Get(w, Blobs) == Arr(PrintFetches(s.blobs))
      && Get(w, ManifestUrl) == Str(s.manifestUrl) && Get(w, ManifestSha256) == s.manifestSha256
      && Get(w, Mode) == Str(s.mode) && Get(w, ProvenanceKey) == PrintProvenance(s.provenance)
  {
    hide PrintFetches, PrintProvenance;
  }

  lemma RegistryIsClean(u: UrlRules, allowFile: bool, h: Head, p: Provenance, v: Json)
    requires Get(v, Mode) == Str(REGISTRY) && Get(v, ProvenanceKey) == PrintProvenance(p)
    ensures ParseRegistry(u, allowFile, h, p, CleanSource(v)) == ParseRegistry(u, allowFile, h, p, v)
    ensures ParseRegistry(u, allowFile, h, p, v).Some? ==>
              CleanSource(v) == PrintRegistry(ParseRegistry(u, allowFile, h, p, v).value)
  {
    ModesDiffer();
    hide *;
    SourceAt(v, Mode);
    SourceAt(v, ProvenanceKey);
    SourceAt(v, Blobs);
    SourceAt(v, ManifestUrl);
    SourceAt(v, ManifestSha256);
    SourceKeeps(v, REGISTRY_KEYS);
    RegistryReadsFields(u, allowFile, h, p, v, CleanSource(v));
    if ParseRegistry(u, allowFile, h, p, v).Some? {
      RegistryParts(u, allowFile, h, p, v);
      var s, c := ParseRegistry(u, allowFile, h, p, v).value, CleanSource(v);
      RegistryFields(s);
      RegistryKeysAre(p);
      HasFields(c, REGISTRY_KEYS);
      SameFields(c, PrintRegistry(s), REGISTRY_KEYS);
    }
  }

  lemma RegistryKeysAre(p: Provenance)
    ensures forall k | k in REGISTRY_KEYS ::
              k == Mode || k == Blobs || k == ProvenanceKey || k == ManifestUrl || k == ManifestSha256
    ensures PrintProvenance(p) != Null
  {
  }

  lemma OptionalFetchIsClean(r: FetchRules, v: Json)
    ensures var raw, clean := OptionalArray(v), OptionalArray(CleanArray(v));
      && (raw.None? <==> clean.None?)
      && (raw.Some? ==> ParseFetches(r, clean.value) == ParseFetches(r, raw.value))
      && (raw.Some? && ParseFetches(r, raw.value).Some? ==>
            var fetch := ParseFetches(r, raw.value).value;
            (fetch == [] <==> v.Null?) && (!v.Null? ==> CleanArray(v) == Arr(PrintFetches(fetch))))
  {
    if v.Arr? {
      FetchesAreClean(r, v.items);
      if v.items != [] { hide ParseFetch; }
    }
  }

  lemma OptionalInputsAreWritten(u: UrlRules, allowFile: bool, host: string, v: Json)
    requires OptionalArray(v).Some? && ParseInputs(u, allowFile, host, OptionalArray(v).value).Some?
    ensures var inputs := ParseInputs(u, allowFile, host, OptionalArray(v).value).value;
      (inputs == [] <==> v.Null?) && (!v.Null? ==> v == Arr(PrintInputs(inputs)))
  {
    InputsAreWritten(u, allowFile, host, OptionalArray(v).value);
    hide ParseInput;
  }

  const CONVERT_KEYS: set<Key> := {Mode, Input, Conversion, ProvenanceKey, Fetch, Inputs}

  lemma ConvertReadsFields(u: UrlRules, allowFile: bool, h: Head, p: Provenance, v: Json, w: Json)
    requires Object(v, CONVERT_KEYS).Some? <==> Object(w, CONVERT_KEYS).Some?
    requires Get(w, Input) == CleanItem(Get(v, Input)) && Get(w, Fetch) == CleanArray(Get(v, Fetch))
    requires Get(w, Inputs) == Get(v, Inputs) && Get(w, Conversion) == Get(v, Conversion)
    ensures ParseConvert(u, allowFile, h, p, w) == ParseConvert(u, allowFile, h, p, v)
  {
    var host := u.host(p.url);
    PrimaryIsClean(u, allowFile, host, Get(v, Input));
    OptionalFetchIsClean(FetchRules(u, allowFile, {}, Some(host)), Get(v, Fetch));
    hide Get, Object, CONVERT, ParseFetches, PrintFetches, CleanArray, CleanItem, ParsePrimary, PrintPrimary,
         ParseConversion, ParseInputs, ConvertLayout, OptionalArray;
  }

  /** What an accepted convert source holds. */
  ghost predicate HoldsConvert(v: Json, s: Source) {
    && Object(v, CONVERT_KEYS).Some? && Has(v, Input) && Has(v, Conversion)
    && CleanItem(Get(v, Input)) == PrintPrimary(Primary(s.convertUrl, s.convertBytes, s.convertSha256,
                                                        s.convertInputPath))
    && Get(v, Conversion) == PrintConversion(Converter(s.convertToolAssetId, s.convertArgv))
    && (s.fetch == [] <==> Get(v, Fetch).Null?)
    && (s.fetch != [] ==> CleanArray(Get(v, Fetch)) == Arr(PrintFetches(s.fetch)))
    && (s.convertInputs == [] <==> Get(v, Inputs).Null?)
    && (s.convertInputs != [] ==> Get(v, Inputs) == Arr(PrintInputs(s.convertInputs)))
  }

  lemma ConvertParts(u: UrlRules, allowFile: bool, h: Head, p: Provenance, v: Json)
    requires ParseConvert(u, allowFile, h, p, v).Some?
    ensures HoldsConvert(v, ParseConvert(u, allowFile, h, p, v).value)
    ensures ParseConvert(u, allowFile, h, p, v).value.mode == CONVERT
    ensures ParseConvert(u, allowFile, h, p, v).value.provenance == p
    ensures Has(v, Input) && Has(v, Conversion)
  {
    var host := u.host(p.url);
    hide PrintProvenance, CONVERT, ParseFetches, PrintFetches, CleanArray, CleanItem, ParsePrimary, PrintPrimary,
         ParseConversion, PrintConversion, ParseInputs, PrintInputs, ConvertLayout, OptionalArray;
    PrimaryIsClean(u, allowFile, host, Get(v, Input));
    OptionalFetchIsClean(FetchRules(u, allowFile, {}, Some(host)), Get(v, Fetch));
    OptionalInputsAreWritten(u, allowFile, host, Get(v, Inputs));
    ConversionIsWritten(Get(v, Conversion));
    NothingIsAbsent(u, allowFile, host);
  }

  lemma NothingIsAbsent(u: UrlRules, allowFile: bool, host: string)
    ensures ParsePrimary(u, allowFile, host, Null).None? && ParseConversion(Null).None?
  {
  }

  lemma NotNull(v: Json, p: Provenance)
    requires Get(v, Mode).Str? && Get(v, ProvenanceKey) == PrintProvenance(p)
    ensures Has(v, Mode) && Has(v, ProvenanceKey)
  {
  }

  function ConvertKeys(s: Source): set<Key> {
    {Mode, Input, Conversion, ProvenanceKey}
    + (if s.fetch != [] then {Fetch} else {}) + (if s.convertInputs != [] then {Inputs} else {})
  }

  lemma ConvertFields(s: Source)
    ensures var w := PrintConvert(s);
      && w.Obj? && w.fields.Keys == ConvertKeys(s)
      && Get(w, Mode) == Str(s.mode) && Get(w, ProvenanceKey) == PrintProvenance(s.provenance)
      && Get(w, Input) == PrintPrimary(Primary(s.convertUrl, s.convertBytes, s.convertSha256, s.convertInputPath))
      && Get(w, Conversion) == PrintConversion(Converter(s.convertToolAssetId, s.convertArgv))
      && (s.fetch != [] ==> Get(w, Fetch) == Arr(PrintFetches(s.fetch)))
      && (s.convertInputs != [] ==> Get(w, Inputs) == Arr(PrintInputs(s.convertInputs)))
  {
    hide PrintProvenance, PrintFetches, PrintPrimary, PrintConversion, PrintInputs;
  }

  lemma ConvertIsClean(u: UrlRules, allowFile: bool, h: Head, p: Provenance, v: Json)
    requires Get(v, Mode) == Str(CONVERT) && Get(v, ProvenanceKey) == PrintProvenance(p)
    ensures ParseConvert(u, allowFile, h, p, CleanSource(v)) == ParseConvert(u, allowFile, h, p, v)
    ensures ParseConvert(u, allowFile, h, p, v).Some? ==>
              CleanSource(v) == PrintConvert(ParseConvert(u, allowFile, h, p, v).value)
  {
    assert Fetch in CONVERT_KEYS && Inputs in CONVERT_KEYS;
    hide *;
    SourceAt(v, Mode);
    SourceAt(v, ProvenanceKey);
    SourceAt(v, Input);
    SourceAt(v, Conversion);
    SourceAt(v, Fetch);
    SourceAt(v, Inputs);
    SourceKeeps(v, CONVERT_KEYS);
    ConvertReadsFields(u, allowFile, h, p, v, CleanSource(v));
    if ParseConvert(u, allowFile, h, p, v).Some? {
      ConvertParts(u, allowFile, h, p, v);
      NotNull(v, p);
      ConvertIsWritten(v, CleanSource(v), ParseConvert(u, allowFile, h, p, v).value);
    }
  }

  lemma ConvertIsWritten(v: Json, c: Json, s: Source)
    requires HoldsConvert(v, s) && Object(c, CONVERT_KEYS).Some?
    requires Get(c, Mode) == Str(s.mode) && Has(c, Mode)
    requires Get(c, ProvenanceKey) == PrintProvenance(s.provenance) && Has(c, ProvenanceKey)
    requires Get(c, Input) == CleanItem(Get(v, Input)) && Get(c, Fetch) == CleanArray(Get(v, Fetch))
    requires Get(c, Inputs) == Get(v, Inputs) && Get(c, Conversion) == Get(v, Conversion)
    requires Has(c, Input) && Has(c, Conversion)
    requires forall k | k == Fetch || k == Inputs :: Has(c, k) <==> !Get(v, k).Null?
    ensures c == PrintConvert(s)
  {
    ConvertFields(s);
    hide PrintProvenance, PrintConvert, CleanArray, CleanItem, PrintFetches, PrintPrimary, PrintConversion, PrintInputs;
    forall k ensures k in c.fields <==> k in ConvertKeys(s) {
      assert k in c.fields ==> k in CONVERT_KEYS;
      assert Has(c, k) <==> k in c.fields;
    }
    assert c.fields.Keys == ConvertKeys(s);
    SameFields(c, PrintConvert(s), ConvertKeys(s));
  }

  /** Cleaning keeps what decides how a source is read. */
  lemma SourceKeepsMode(v: Json)
    ensures CleanSource(v).Obj? <==> v.Obj?
    ensures Get(CleanSource(v), Mode) == Get(v, Mode) && Get(CleanSource(v), ProvenanceKey) == Get(v, ProvenanceKey)
    ensures Has(CleanSource(v), Mirrors) == Has(v, Mirrors) && Has(CleanSource(v), Parts) == Has(v, Parts)
  {
    SourceAt(v, Mode);
    SourceAt(v, ProvenanceKey);
    SourceAt(v, Mirrors);
    SourceAt(v, Parts);
    SourceKeeps(v, {Fetch, Inputs});
    hide CleanSource, Get, Has, CONVERT;
  }

  lemma SourceIsClean(u: UrlRules, allowFile: bool, h: Head, v: Json)
    ensures ParseSource(u, allowFile, h, CleanSource(v)) == ParseSource(u, allowFile, h, v)
    ensures ParseSource(u, allowFile, h, v).Some? ==>
              CleanSource(v) == PrintSource(ParseSource(u, allowFile, h, v).value)
  {
    SourceKeepsMode(v);
    ModesDiffer();
    hide CleanSource, ParseArchive, ParseFilesSource, ParseConvert, ParseRegistry, ParseProvenance, PrintProvenance,
         PrintArchive, PrintFilesSource, PrintConvert, PrintRegistry, ARCHIVE, FILES, CONVERT, REGISTRY, Get, Has;
    var mode := Get(v, Mode);
    if mode.Str? && ParseProvenance(u, allowFile, h, mode.s, Get(v, ProvenanceKey)).Some? {
      var p := ParseProvenance(u, allowFile, h, mode.s, Get(v, ProvenanceKey)).value;
      ProvenanceIsWritten(u, allowFile, h, mode.s, Get(v, ProvenanceKey));
      if mode.s == ARCHIVE { ArchiveIsClean(u, allowFile, h, p, v); }
      else if mode.s == FILES { FilesSourceIsClean(u, allowFile, h, p, v); }
      else if mode.s == CONVERT { ConvertIsClean(u, allowFile, h, p, v); }
      else if mode.s == REGISTRY { RegistryIsClean(u, allowFile, h, p, v); }
    }
  }

  // ---------------------------------------------------------------------------------------
  // The record

  lemma AmountsAreWritten(v: Json)
    requires ParseAmounts(v).Some?
    ensures v == PrintAmounts(ParseAmounts(v).value)
  {
    assert v.fields.Keys == {DownloadBytes, InstalledBytes, TemporaryBytes};
    assert v.fields == PrintAmounts(ParseAmounts(v).value).fields;
  }

  lemma ConsumerIsWritten(v: Json)
    requires ParseConsumer(v).Some?
    ensures v == PrintConsumer(ParseConsumer(v).value)
  {
    assert v.fields.Keys == {ConsumerSchema, Minimum, Maximum};
    assert v.fields == PrintConsumer(ParseConsumer(v).value).fields;
  }

  lemma SpecAt(v: Json, k: Key)
    ensures Get(CleanSpec(v), k)
         == if k == Files then CleanArray(Get(v, k)) else if k == SourceKey then CleanSource(Get(v, k)) else Get(v, k)
  {
    CleanArrays();
    NullSource();
    AbsentIsNull(v, k);
    hide CleanArray, CleanSource, With;
    WithAt(v, Files, CleanArray(Get(v, Files)), k);
    WithAt(With(v, Files, CleanArray(Get(v, Files))), SourceKey, CleanSource(Get(v, SourceKey)), k);
    hide Get, Has;
  }

  lemma SpecKeeps(v: Json)
    ensures Object(CleanSpec(v), RECORD_KEYS).Some? <==> Object(v, RECORD_KEYS).Some?
  {
    hide CleanArray, CleanSource, With, Object, RECORD_KEYS, Get;
    WithKeeps(v, Files, CleanArray(Get(v, Files)), RECORD_KEYS);
    WithKeeps(With(v, Files, CleanArray(Get(v, Files))), SourceKey, CleanSource(Get(v, SourceKey)), RECORD_KEYS);
  }

  lemma SpecKeepsField(v: Json, k: Key)
    requires k != Files && k != SourceKey
    ensures Get(CleanSpec(v), k) == Get(v, k)
  {
    hide *;
    SpecAt(v, k);
  }

  /** The cleaned record, field by field. */
  lemma CleanSpecFields(v: Json)
    ensures var c := CleanSpec(v);
      && Get(c, Schema) == Get(v, Schema) && Get(c, Id) == Get(v, Id) && Get(c, Label) == Get(v, Label)
      && Get(c, Provider) == Get(v, Provider) && Get(c, Stream) == Get(v, Stream)
      && Get(c, Version) == Get(v, Version) && Get(c, Sizes) == Get(v, Sizes)
      && Get(c, Licenses) == Get(v, Licenses) && Get(c, Compatibility) == Get(v, Compatibility)
      && Get(c, Files) == CleanArray(Get(v, Files)) && Get(c, SourceKey) == CleanSource(Get(v, SourceKey))
      && (Object(c, RECORD_KEYS).Some? <==> Object(v, RECORD_KEYS).Some?)
  {
    hide *;
    SpecKeeps(v);
    SpecKeepsField(v, Schema);
    SpecKeepsField(v, Id);
    SpecKeepsField(v, Label);
    SpecKeepsField(v, Provider);
    SpecKeepsField(v, Stream);
    SpecKeepsField(v, Version);
    SpecKeepsField(v, Sizes);
    SpecKeepsField(v, Licenses);
    SpecKeepsField(v, Compatibility);
    SpecAt(v, Files);
    SpecAt(v, SourceKey);
  }

  lemma NullSource()
    ensures CleanSource(Null) == Null
  {
  }

  /** The parts of an accepted record, and what each is read from. */
  ghost predicate IsReadAs(u: UrlRules, allowFile: bool, v: Json, s: Spec) {
    && Object(v, RECORD_KEYS).Some? && Get(v, Schema) == Str(SCHEMA)
    && ParseId(Get(v, Id)) == Some(s.assetId) && Text(Get(v, Label), 256) == Some(s.labelText)
    && ParseId(Get(v, Provider)) == Some(s.provider) && Get(v, Stream) == Str(s.stream) && IsStream(s.stream)
    && Text(Get(v, Version), 128) == Some(s.version)
    && Get(v, Files).Arr? && ParseFiles(Get(v, Files).items) == Some(s.files)
    && Get(v, Files).items != [] && |Get(v, Files).items| <= MAX_FILES && Distinct(Paths(s.files))
    && ParseAmounts(Get(v, Sizes)) == Some(s.amounts) && s.amounts.installed == TotalBytes(s.files)
    && Get(v, Licenses).Arr? && ParseLicenses(Get(v, Licenses).items) == Some(s.licenses)
    && Get(v, Licenses).items != [] && s.licenses != [] && Distinct(LicenseIds(s.licenses))
    && ParseConsumer(Get(v, Compatibility)) == Some(s.consumer)
    && ParseSource(u, allowFile, HeadOf(s), Get(v, SourceKey)) == Some(s.source)
  }

  lemma ReadParts(u: UrlRules, allowFile: bool, v: Json)
    requires ParseSpec(u, allowFile, v).Some?
    ensures IsReadAs(u, allowFile, v, ParseSpec(u, allowFile, v).value)
  {
    hide Get, Object, ParseFiles, ParseLicenses, ParseSource, ParseAmounts, ParseConsumer, Paths, TotalBytes,
         LicenseIds, IsStream, ParseId, Text, RECORD_KEYS, Distinct, SCHEMA;
  }

  lemma PartsAreRead(u: UrlRules, allowFile: bool, v: Json, s: Spec)
    requires IsReadAs(u, allowFile, v, s)
    ensures ParseSpec(u, allowFile, v) == Some(s)
  {
    hide Get, Object, ParseFiles, ParseLicenses, ParseSource, ParseAmounts, ParseConsumer, Paths, TotalBytes,
         LicenseIds, IsStream, ParseId, Text, RECORD_KEYS, Distinct, SCHEMA;
  }

  /** The written form has the same parts. */
  lemma SamePartsRead(u: UrlRules, allowFile: bool, v: Json, s: Spec)
    ensures IsReadAs(u, allowFile, CleanSpec(v), s) <==> IsReadAs(u, allowFile, v, s)
  {
    CleanSpecFields(v);
    SameFilesRead(Get(v, Files));
    if s.licenses != [] { SourceIsClean(u, allowFile, HeadOf(s), Get(v, SourceKey)); }
    hide CleanSpec, CleanSource, CleanItems, CleanArray, Get, Object, ParseFiles, ParseLicenses, ParseSource,
         ParseAmounts, ParseConsumer, Paths, TotalBytes, LicenseIds, IsStream, ParseId, Text, RECORD_KEYS, Distinct,
         SCHEMA, HeadOf;
  }

  lemma SameFilesRead(v: Json)
    ensures v.Arr? <==> CleanArray(v).Arr?
    ensures v.Arr? ==> |CleanArray(v).items| == |v.items| && ParseFiles(CleanArray(v).items) == ParseFiles(v.items)
  {
    if v.Arr? { FilesAreClean(v.items); }
    hide ParseFile;
  }

  /** The record that is read from the written form is the record that is read. */
  lemma SpecIsClean(u: UrlRules, allowFile: bool, v: Json)
    ensures ParseSpec(u, allowFile, CleanSpec(v)) == ParseSpec(u, allowFile, v)
  {
    hide *;
    var c := CleanSpec(v);
    if ParseSpec(u, allowFile, v).Some? {
      ReadParts(u, allowFile, v);
      SamePartsRead(u, allowFile, v, ParseSpec(u, allowFile, v).value);
      PartsAreRead(u, allowFile, c, ParseSpec(u, allowFile, v).value);
    } else if ParseSpec(u, allowFile, c).Some? {
      ReadParts(u, allowFile, c);
      SamePartsRead(u, allowFile, v, ParseSpec(u, allowFile, c).value);
      PartsAreRead(u, allowFile, v, ParseSpec(u, allowFile, c).value);
    }
  }

  /** Each field of an accepted record is the written form of what was read from it. */
  lemma WrittenParts(u: UrlRules, allowFile: bool, v: Json, s: Spec)
    requires IsReadAs(u, allowFile, v, s)
    ensures Get(v, Id) == Str(s.assetId) && Get(v, Label) == Str(s.labelText)
    ensures Get(v, Provider) == Str(s.provider) && Get(v, Version) == Str(s.version)
    ensures CleanArray(Get(v, Files)) == Arr(PrintFiles(s.files)) && Get(v, Sizes) == PrintAmounts(s.amounts)
    ensures Get(v, Licenses) == Arr(PrintLicenses(s.licenses)) && Get(v, Compatibility) == PrintConsumer(s.consumer)
    ensures CleanSource(Get(v, SourceKey)) == PrintSource(s.source)
  {
    FilesAreClean(Get(v, Files).items);
    LicensesAreWritten(Get(v, Licenses).items);
    AmountsAreWritten(Get(v, Sizes));
    ConsumerIsWritten(Get(v, Compatibility));
    SourceIsClean(u, allowFile, HeadOf(s), Get(v, SourceKey));
    hide Get, Object, CleanSource, CleanItems, ParseFiles, PrintFiles, ParseLicenses, PrintLicenses, ParseSource,
         PrintSource, ParseAmounts, PrintAmounts, ParseConsumer, PrintConsumer, Paths, TotalBytes, LicenseIds, IsStream,
         RECORD_KEYS, Distinct, SCHEMA, RelativePath.ValidId;
  }

  lemma SpecIsWritten(u: UrlRules, allowFile: bool, v: Json)
    requires ParseSpec(u, allowFile, v).Some?
    ensures CleanSpec(v) == PrintSpec(ParseSpec(u, allowFile, v).value)
  {
    ReadParts(u, allowFile, v);
    var s, c := ParseSpec(u, allowFile, v).value, CleanSpec(v);
    WrittenParts(u, allowFile, v, s);
    ReadFields(u, allowFile, v, s);
    hide *;
    CleanSpecFields(v);
    SpecFields(s);
    AssetRoundTrip.PrintedSpec(s);
    AllAreWritten(s);
    EachIsWritten(c, PrintSpec(s));
    HasFields(c, RECORD_KEYS);
    SameFields(c, PrintSpec(s), RECORD_KEYS);
  }

  lemma EachIsWritten(c: Json, w: Json)
    requires Get(c, Schema) == Get(w, Schema) != Null && Get(c, Id) == Get(w, Id) != Null
    requires Get(c, Label) == Get(w, Label) != Null && Get(c, Provider) == Get(w, Provider) != Null
    requires Get(c, Stream) == Get(w, Stream) != Null && Get(c, Version) == Get(w, Version) != Null
    requires Get(c, Files) == Get(w, Files) != Null && Get(c, SourceKey) == Get(w, SourceKey) != Null
    requires Get(c, Sizes) == Get(w, Sizes) != Null && Get(c, Licenses) == Get(w, Licenses) != Null
    requires Get(c, Compatibility) == Get(w, Compatibility) != Null
    ensures forall k | k in RECORD_KEYS :: Get(c, k) == Get(w, k) != Null
  {
    hide Get;
  }

  lemma ReadFields(u: UrlRules, allowFile: bool, v: Json, s: Spec)
    requires IsReadAs(u, allowFile, v, s)
    ensures Object(v, RECORD_KEYS).Some? && Get(v, Schema) == Str(SCHEMA) && Get(v, Stream) == Str(s.stream)
  {
  }

  lemma AllAreWritten(s: Spec)
    ensures PrintAmounts(s.amounts) != Null && PrintConsumer(s.consumer) != Null && PrintSource(s.source) != Null
  {
    hide PrintProvenance, PrintFetches, PrintPrimary, PrintConversion, PrintInputs;
  }

  lemma SpecFields(s: Spec)
    ensures PrintSpec(s).Obj? && PrintSpec(s).fields.Keys == RECORD_KEYS
  {
    hide PrintFiles, PrintLicenses, PrintAmounts, PrintConsumer, PrintSource;
  }

  /**
   A JSON value is read as a specification exactly if the specification is valid and the value is its written
   form, up to paths that are not in normal form and null for an absent optional field.
   */
  lemma ReadsExactly(u: UrlRules, allowFile: bool, v: Json, s: Spec)
    ensures ParseSpec(u, allowFile, v) == Some(s)
       <==> CleanSpec(v) == PrintSpec(s) && FieldsValid(u, allowFile, s) && Generator.CrossChecks(s)
  {
    hide *;
    SpecIsClean(u, allowFile, v);
    RecordParses(u, allowFile, s);
    if ParseSpec(u, allowFile, v) == Some(s) {
      SpecIsWritten(u, allowFile, v);
      AssetRoundTrip.SpecRoundTrip(u, allowFile, v);
    }
  }
}
