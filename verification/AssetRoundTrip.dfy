/** Reading back what `to_mapping` writes, across all source modes and optional fields. */
module AssetRoundTrip {
  import opened Common
  import opened Json
  import opened AssetSpec
  import RelativePath

  lemma PathRoundTrip(v: Json)
    requires ParsePath(v).Some?
    ensures ParsePath(Str(ParsePath(v).value)) == ParsePath(v) && ParsePath(v).value != ""
  {
    RelativePath.AcceptedIsPlain(v.s);
    RelativePath.PlainIsFixed(ParsePath(v).value);
  }

  lemma FileRoundTrip(v: Json)
    requires ParseFile(v).Some?
    ensures ParseFile(PrintFile(ParseFile(v).value)) == ParseFile(v)
  {
    PathRoundTrip(Get(v, Path));
  }

  lemma {:induction false} FilesRoundTrip(items: seq<Json>)
    requires ParseFiles(items).Some?
    ensures ParseFiles(PrintFiles(ParseFiles(items).value)) == ParseFiles(items)
    ensures |PrintFiles(ParseFiles(items).value)| == |items|
  {
    if items != [] {
      FileRoundTrip(items[0]);
      FilesRoundTrip(items[1..]);
      hide ParseFile, PrintFile;
      var files := ParseFiles(items).value;
      assert files[1..] == ParseFiles(items[1..]).value;
      assert PrintFiles(files)[1..] == PrintFiles(files[1..]);
    }
  }

  lemma {:induction false} TextsRoundTrip(items: seq<Json>, maximum: nat)
    requires ParseTexts(items, maximum).Some?
    ensures ParseTexts(PrintTexts(ParseTexts(items, maximum).value), maximum) == ParseTexts(items, maximum)
    ensures |PrintTexts(ParseTexts(items, maximum).value)| == |items|
  {
    if items != [] {
      TextsRoundTrip(items[1..], maximum);
      var texts := ParseTexts(items, maximum).value;
      assert texts[1..] == ParseTexts(items[1..], maximum).value;
      assert PrintTexts(texts)[1..] == PrintTexts(texts[1..]);
    }
  }

  lemma LicenseRoundTrip(v: Json)
    requires ParseLicense(v).Some?
    ensures ParseLicense(PrintLicense(ParseLicense(v).value)) == ParseLicense(v)
  {
    hide ParseTexts, PrintTexts, IsHexText;
    TextsRoundTrip(Array(Get(v, Licensors)).value, 128);
  }

  lemma {:induction false} LicensesRoundTrip(items: seq<Json>)
    requires ParseLicenses(items).Some?
    ensures ParseLicenses(PrintLicenses(ParseLicenses(items).value)) == ParseLicenses(items)
    ensures |PrintLicenses(ParseLicenses(items).value)| == |items|
  {
    if items != [] {
      LicenseRoundTrip(items[0]);
      LicensesRoundTrip(items[1..]);
      hide ParseLicense, PrintLicense;
      var licenses := ParseLicenses(items).value;
      assert licenses[1..] == ParseLicenses(items[1..]).value;
      assert PrintLicenses(licenses)[1..] == PrintLicenses(licenses[1..]);
    }
  }

  lemma FetchRoundTrip(r: FetchRules, v: Json)
    requires ParseFetch(r, v).Some?
    ensures ParseFetch(r, PrintFetch(ParseFetch(r, v).value)) == ParseFetch(r, v)
  {
    PathRoundTrip(Get(v, Path));
  }

  lemma {:induction false} FetchesRoundTrip(r: FetchRules, items: seq<Json>)
    requires ParseFetches(r, items).Some?
    ensures ParseFetches(r, PrintFetches(ParseFetches(r, items).value)) == ParseFetches(r, items)
    ensures |PrintFetches(ParseFetches(r, items).value)| == |items| == |ParseFetches(r, items).value|
  {
    if items != [] {
      FetchRoundTrip(r, items[0]);
      FetchesRoundTrip(r, items[1..]);
      hide ParseFetch, PrintFetch;
      var fetches := ParseFetches(r, items).value;
      assert fetches[1..] == ParseFetches(r, items[1..]).value;
      assert PrintFetches(fetches)[1..] == PrintFetches(fetches[1..]);
    }
  }

  lemma InputProvenanceRoundTrip(u: UrlRules, v: Json)
    requires ParseInputProvenance(u, v).Some?
    ensures ParseInputProvenance(u, PrintProvenance(ParseInputProvenance(u, v).value)) == ParseInputProvenance(u, v)
  {
  }

  lemma InputRoundTrip(u: UrlRules, allowFile: bool, host: string, v: Json)
    requires ParseInput(u, allowFile, host, v).Some?
    ensures ParseInput(u, allowFile, host, PrintInput(ParseInput(u, allowFile, host, v).value))
         == ParseInput(u, allowFile, host, v)
  {
    hide ParseInputProvenance, PrintProvenance, IsInputName, IsHexText;
    if Has(v, ProvenanceKey) {
      InputProvenanceRoundTrip(u, Get(v, ProvenanceKey));
    }
  }

  lemma {:induction false} InputsRoundTrip(u: UrlRules, allowFile: bool, host: string, items: seq<Json>)
    requires ParseInputs(u, allowFile, host, items).Some?
    ensures ParseInputs(u, allowFile, host, PrintInputs(ParseInputs(u, allowFile, host, items).value))
         == ParseInputs(u, allowFile, host, items)
    ensures |PrintInputs(ParseInputs(u, allowFile, host, items).value)| == |items|
         == |ParseInputs(u, allowFile, host, items).value|
  {
    if items != [] {
      InputRoundTrip(u, allowFile, host, items[0]);
      InputsRoundTrip(u, allowFile, host, items[1..]);
      hide ParseInput, PrintInput;
      var inputs := ParseInputs(u, allowFile, host, items).value;
      assert inputs[1..] == ParseInputs(u, allowFile, host, items[1..]).value;
      assert PrintInputs(inputs)[1..] == PrintInputs(inputs[1..]);
    }
  }

  lemma {:induction false} ArgvRoundTrip(items: seq<Json>)
    requires ParseArgv(items).Some?
    ensures ParseArgv(PrintTexts(ParseArgv(items).value)) == ParseArgv(items)
    ensures |PrintTexts(ParseArgv(items).value)| == |items|
  {
    if items != [] {
      ArgvRoundTrip(items[1..]);
      var argv := ParseArgv(items).value;
      assert argv[1..] == ParseArgv(items[1..]).value;
      assert PrintTexts(argv)[1..] == PrintTexts(argv[1..]);
    }
  }

  // ---------------------------------------------------------------------------------------
  // The source, mode by mode

  lemma ProvenanceRoundTrip(u: UrlRules, allowFile: bool, h: Head, mode: string, v: Json)
    requires ParseProvenance(u, allowFile, h, mode, v).Some?
    ensures ParseProvenance(u, allowFile, h, mode, PrintProvenance(ParseProvenance(u, allowFile, h, mode, v).value))
         == ParseProvenance(u, allowFile, h, mode, v)
  {
  }

  lemma ArchiveRoundTrip(u: UrlRules, allowFile: bool, h: Head, p: Provenance, v: Json)
    requires ParseArchive(u, allowFile, h, p, v).Some?
    ensures ParseArchive(u, allowFile, h, p, PrintArchive(ParseArchive(u, allowFile, h, p, v).value))
         == ParseArchive(u, allowFile, h, p, v)
  {
    hide OwnedBy, PrintProvenance;
  }

  lemma FilesSourceRoundTrip(u: UrlRules, allowFile: bool, h: Head, p: Provenance, v: Json)
    requires ParseFilesSource(u, allowFile, h, p, v).Some?
    ensures ParseFilesSource(u, allowFile, h, p, PrintFilesSource(ParseFilesSource(u, allowFile, h, p, v).value))
         == ParseFilesSource(u, allowFile, h, p, v)
  {
    hide ParseFetches, PrintFetches, FetchPaths, ContentPaths, PrintProvenance, OwnedBy;
    var owned := OwnedBy(u, h, FILES, p.project, p.revision);
    FetchesRoundTrip(FetchRules(u, allowFile, owned.files, Some(u.host(p.url))), Array(Get(v, Fetch)).value);
  }

  lemma RegistryRoundTrip(u: UrlRules, allowFile: bool, h: Head, p: Provenance, v: Json)
    requires ParseRegistry(u, allowFile, h, p, v).Some?
    ensures ParseRegistry(u, allowFile, h, p, PrintRegistry(ParseRegistry(u, allowFile, h, p, v).value))
         == ParseRegistry(u, allowFile, h, p, v)
  {
    hide ParseFetches, PrintFetches, FetchPaths, ContentPaths, PrintProvenance;
    FetchesRoundTrip(FetchRules(u, allowFile, {}, None), Array(Get(v, Blobs)).value);
  }

  lemma PrimaryRoundTrip(u: UrlRules, allowFile: bool, host: string, v: Json)
    requires ParsePrimary(u, allowFile, host, v).Some?
    ensures ParsePrimary(u, allowFile, host, PrintPrimary(ParsePrimary(u, allowFile, host, v).value))
         == ParsePrimary(u, allowFile, host, v)
  {
    if Has(v, Path) { PathRoundTrip(Get(v, Path)); }
    hide ParsePath;
  }

  lemma ConversionRoundTrip(v: Json)
    requires ParseConversion(v).Some?
    ensures ParseConversion(PrintConversion(ParseConversion(v).value)) == ParseConversion(v)
  {
    hide ParseArgv, PrintTexts;
    ArgvRoundTrip(Array(Get(v, Argv)).value);
  }

  lemma ConvertRoundTrip(u: UrlRules, allowFile: bool, h: Head, p: Provenance, v: Json)
    requires ParseConvert(u, allowFile, h, p, v).Some?
    ensures ParseConvert(u, allowFile, h, p, PrintConvert(ParseConvert(u, allowFile, h, p, v).value))
         == ParseConvert(u, allowFile, h, p, v)
  {
    hide ParseFetches, PrintFetches, ParseInputs, PrintInputs, ParseConversion, PrintConversion, ParsePrimary,
         PrintPrimary, ConvertLayout, PrintProvenance;
    PrimaryRoundTrip(u, allowFile, u.host(p.url), Get(v, Input));
    ConversionRoundTrip(Get(v, Conversion));
    InputsRoundTrip(u, allowFile, u.host(p.url), OptionalArray(Get(v, Inputs)).value);
    FetchesRoundTrip(FetchRules(u, allowFile, {}, Some(u.host(p.url))), OptionalArray(Get(v, Fetch)).value);
  }

  /** Every mode writes its name and the provenance, and neither `mirrors` nor `parts`. */
  lemma PrintedSource(s: Source)
    ensures PrintSource(s).Obj?
    ensures !Has(PrintSource(s), Mirrors) && !Has(PrintSource(s), Parts)
    ensures Get(PrintSource(s), Mode) == Str(s.mode)
    ensures Get(PrintSource(s), ProvenanceKey) == PrintProvenance(s.provenance)
  {
    hide PrintProvenance, PrintFetches, PrintInputs, PrintConversion, PrintPrimary;
  }

  lemma SourceRoundTrip(u: UrlRules, allowFile: bool, h: Head, v: Json)
    requires ParseSource(u, allowFile, h, v).Some?
    ensures ParseSource(u, allowFile, h, PrintSource(ParseSource(u, allowFile, h, v).value))
         == ParseSource(u, allowFile, h, v)
  {
    var s := ParseSource(u, allowFile, h, v).value;
    var mode := Get(v, Mode).s;
    var p := ParseProvenance(u, allowFile, h, mode, Get(v, ProvenanceKey)).value;
    ModesDiffer();
    PrintedSource(s);
    ProvenanceRoundTrip(u, allowFile, h, mode, Get(v, ProvenanceKey));
    hide ParseProvenance, PrintProvenance, ParseArchive, ParseFilesSource, ParseConvert, ParseRegistry, PrintArchive,
         PrintFilesSource, PrintConvert, PrintRegistry, ARCHIVE, FILES, CONVERT, REGISTRY;
    if mode == ARCHIVE { ArchiveRoundTrip(u, allowFile, h, p, v); }
    else if mode == FILES { FilesSourceRoundTrip(u, allowFile, h, p, v); }
    else if mode == CONVERT { ConvertRoundTrip(u, allowFile, h, p, v); }
    else { RegistryRoundTrip(u, allowFile, h, p, v); }
  }

  // ---------------------------------------------------------------------------------------
  // The record

  lemma TextRoundTrip(v: Json, maximum: nat)
    requires Text(v, maximum).Some?
    ensures Text(Str(Text(v, maximum).value), maximum) == Text(v, maximum)
  {
  }

  lemma IdRoundTrip(v: Json)
    requires ParseId(v).Some?
    ensures ParseId(Str(ParseId(v).value)) == ParseId(v)
  {
  }

  lemma AmountsRoundTrip(v: Json)
    requires ParseAmounts(v).Some?
    ensures ParseAmounts(PrintAmounts(ParseAmounts(v).value)) == ParseAmounts(v)
  {
  }

  lemma ConsumerRoundTrip(v: Json)
    requires ParseConsumer(v).Some?
    ensures ParseConsumer(PrintConsumer(ParseConsumer(v).value)) == ParseConsumer(v)
  {
  }

  /** The written record holds exactly the known fields. */
  lemma PrintedSpec(s: Spec)
    ensures Object(PrintSpec(s), RECORD_KEYS).Some?
    ensures Get(PrintSpec(s), Schema) == Str(SCHEMA) && Get(PrintSpec(s), Id) == Str(s.assetId)
    ensures Get(PrintSpec(s), Label) == Str(s.labelText) && Get(PrintSpec(s), Provider) == Str(s.provider)
    ensures Get(PrintSpec(s), Stream) == Str(s.stream) && Get(PrintSpec(s), Version) == Str(s.version)
    ensures Get(PrintSpec(s), Files) == Arr(PrintFiles(s.files))
    ensures Get(PrintSpec(s), Licenses) == Arr(PrintLicenses(s.licenses))
    ensures Get(PrintSpec(s), Sizes) == PrintAmounts(s.amounts)
    ensures Get(PrintSpec(s), Compatibility) == PrintConsumer(s.consumer)
    ensures Get(PrintSpec(s), SourceKey) == PrintSource(s.source)
  {
    hide PrintFiles, PrintLicenses, PrintAmounts, PrintConsumer, PrintSource;
  }

  /** Parsing what `to_mapping` writes gives the specification back, in every mode. */
  lemma SpecRoundTrip(u: UrlRules, allowFile: bool, v: Json)
    requires ParseSpec(u, allowFile, v).Some?
    ensures ParseSpec(u, allowFile, PrintSpec(ParseSpec(u, allowFile, v).value)) == ParseSpec(u, allowFile, v)
  {
    hide ParseFiles, PrintFiles, ParseLicenses, PrintLicenses, ParseSource, PrintSource, Paths, TotalBytes, LicenseIds,
         IsStream, Text, ParseId, ParseAmounts, PrintAmounts, ParseConsumer, PrintConsumer, PrintSpec, Object, Get;
    var s := ParseSpec(u, allowFile, v).value;
    PrintedSpec(s);
    FilesRoundTrip(Array(Get(v, Files)).value);
    LicensesRoundTrip(Array(Get(v, Licenses)).value);
    SourceRoundTrip(u, allowFile,
      Head(s.assetId, s.provider, s.version, s.consumer.schema, s.licenses[0].id, s.files, s.amounts.download),
      Get(v, SourceKey));
    IdRoundTrip(Get(v, Id));
    IdRoundTrip(Get(v, Provider));
    TextRoundTrip(Get(v, Label), 256);
    TextRoundTrip(Get(v, Version), 128);
    AmountsRoundTrip(Get(v, Sizes));
    ConsumerRoundTrip(Get(v, Compatibility));
  }

  /** `to_mapping` is injective on the specifications that `from_mapping` returns. */
  lemma PrintIsInjective(u: UrlRules, allowFile: bool, v: Json, w: Json)
    requires ParseSpec(u, allowFile, v).Some? && ParseSpec(u, allowFile, w).Some?
    requires PrintSpec(ParseSpec(u, allowFile, v).value) == PrintSpec(ParseSpec(u, allowFile, w).value)
    ensures ParseSpec(u, allowFile, v) == ParseSpec(u, allowFile, w)
  {
    hide ParseSpec, PrintSpec;
    SpecRoundTrip(u, allowFile, v);
    SpecRoundTrip(u, allowFile, w);
  }

  /** `digest`, for a canonical encoding and a hash. */
  function Digest(encode: Json -> Bytes, hash: Bytes -> Bytes, s: Spec): Bytes {
    hash(encode(PrintSpec(s)))
  }

  /** Equal record digests mean equal specifications, unless the encoding or the hash collides on the two records. */
  lemma EqualDigestsMeanEqualSpecs(u: UrlRules, allowFile: bool, encode: Json -> Bytes, hash: Bytes -> Bytes,
                                   v: Json, w: Json)
    requires ParseSpec(u, allowFile, v).Some? && ParseSpec(u, allowFile, w).Some?
    requires var a, b := PrintSpec(ParseSpec(u, allowFile, v).value), PrintSpec(ParseSpec(u, allowFile, w).value);
      (encode(a) == encode(b) ==> a == b) && (hash(encode(a)) == hash(encode(b)) ==> encode(a) == encode(b))
    ensures Digest(encode, hash, ParseSpec(u, allowFile, v).value)
         == Digest(encode, hash, ParseSpec(u, allowFile, w).value)
       <==> ParseSpec(u, allowFile, v) == ParseSpec(u, allowFile, w)
  {
    hide ParseSpec, PrintSpec;
    var s, t := ParseSpec(u, allowFile, v).value, ParseSpec(u, allowFile, w).value;
    if Digest(encode, hash, s) == Digest(encode, hash, t) {
      PrintIsInjective(u, allowFile, v, w);
    }
  }
}
