/**
 Which records the parser reads back: the rules of single fields, stated as predicates, and the
 cross-field checks that the generator's records are held against.
 */
module RecordValidity {
  import opened Common
  import opened Json
  import opened AssetSpec
  import AssetRoundTrip
  import Generator
  import RelativePath

  const TOO_MANY_BYTES: nat := 0x8000_0000_0000_0000

  // ---------------------------------------------------------------------------------------
  // Parts

  predicate ValidText(s: string, maximum: nat) {
    s != "" && '\0' !in s && |s| <= maximum
  }

  /** Lowercase hexadecimal digits: a string of them, or an array of one-digit strings. */
  predicate ValidHex(v: Json, length: nat) {
    match v
    case Str(s) => IsHexText(s, length)
    case Arr(items) => |items| == length && forall item | item in items :: item.Str? && IsHexText(item.s, 1)
    case _ => false
  }

  predicate ValidUrl(u: UrlRules, url: string, allowFile: bool, archive: Option<string>, files: set<string>) {
    ValidText(url, 4096) && u.permits(url, allowFile, archive, files)
  }

  predicate ValidFile(f: FileSpec) {
    RelativePath.Plain(f.path) && f.bytes < TOO_MANY_BYTES && IsHexText(f.sha256, 64)
  }

  predicate ValidLicense(l: LicenseSpec) {
    && l.id != "" && '\0' !in l.id && ValidHex(l.textSha256, 64) && ValidHex(l.recordDigest, 64)
    && (l.decision == "informational" || l.decision == "affirmative")
    && 1 <= |l.licensors| <= 4 && forall x | x in l.licensors :: ValidText(x, 128)
  }

  predicate ValidFetch(r: FetchRules, f: FetchSpec) {
    && RelativePath.Plain(f.path) && ValidUrl(r.u, f.url, r.allowFile, None, r.owned)
    && (r.host.Some? ==> r.u.host(f.url) == r.host.value)
  }

  predicate ValidInputProvenance(u: UrlRules, p: Provenance) {
    && ValidText(p.project, 256) && ValidText(p.revision, 256) && IsHexText(p.revision, 40)
    && ValidUrl(u, p.url, false, None, {})
  }

  predicate ValidInput(u: UrlRules, allowFile: bool, host: string, i: ConvertInput) {
    && IsInputName(i.path) && ValidUrl(u, i.url, allowFile, None, {})
    && i.bytes < TOO_MANY_BYTES && ValidHex(i.sha256, 64)
    && match i.provenance
       case Some(p) => ValidInputProvenance(u, p) && u.host(i.url) == u.host(p.url)
       case None => u.host(i.url) == host
  }

  predicate ValidPrimary(u: UrlRules, allowFile: bool, host: string, p: Primary) {
    && ValidUrl(u, p.url, allowFile, None, {}) && p.bytes < TOO_MANY_BYTES && ValidHex(p.sha256, 64)
    && u.host(p.url) == host && (p.path != "" ==> RelativePath.Plain(p.path))
  }

  predicate ValidConverter(c: Converter) {
    RelativePath.ValidId(c.tool) && c.argv != [] && forall x | x in c.argv :: ValidWord(x)
  }

  predicate ValidWord(x: string) {
    x != "" && '\0' !in x
  }

  predicate ValidAmounts(a: Amounts) {
    a.download < TOO_MANY_BYTES && a.installed < TOO_MANY_BYTES && a.temporary < TOO_MANY_BYTES
  }

  predicate ValidConsumer(c: Consumer) {
    ValidText(c.schema, 128) && 1 <= c.minimum <= c.maximum
  }

  lemma PathParses(p: string)
    ensures ParsePath(Str(p)) == Some(p) <==> RelativePath.Plain(p)
  {
    RelativePath.PlainIsFixed(p);
  }

  lemma FileParses(f: FileSpec)
    ensures ParseFile(PrintFile(f)) == Some(f) <==> ValidFile(f)
  {
    PathParses(f.path);
    hide ParsePath, RelativePath.Plain, IsHexText;
  }

  lemma {:induction false} FilesParse(files: seq<FileSpec>)
    ensures ParseFiles(PrintFiles(files)) == Some(files) <==> forall f | f in files :: ValidFile(f)
    ensures |PrintFiles(files)| == |files|
  {
    if files != [] {
      FileParses(files[0]);
      FilesParse(files[1..]);
      hide ParseFile, PrintFile, ValidFile;
      assert PrintFiles(files)[1..] == PrintFiles(files[1..]) && files == [files[0]] + files[1..];
    }
  }

  lemma TextParses(s: string, maximum: nat)
    ensures Text(Str(s), maximum) == if ValidText(s, maximum) then Some(s) else None
  {
  }

  lemma UrlParses(u: UrlRules, url: string, allowFile: bool, archive: Option<string>, files: set<string>)
    ensures ParseUrl(u, Str(url), allowFile, archive, files)
         == if ValidUrl(u, url, allowFile, archive, files) then Some(url) else None
  {
  }

  lemma {:induction false} TextsParse(texts: seq<string>, maximum: nat)
    ensures ParseTexts(PrintTexts(texts), maximum) == Some(texts) <==> forall x | x in texts :: ValidText(x, maximum)
    ensures |PrintTexts(texts)| == |texts|
  {
    if texts != [] {
      TextsParse(texts[1..], maximum);
      TextParses(texts[0], maximum);
      hide Text, ValidText;
      assert PrintTexts(texts)[1..] == PrintTexts(texts[1..]) && texts == [texts[0]] + texts[1..];
    }
  }

  lemma {:induction false} ArgvParses(argv: seq<string>)
    ensures ParseArgv(PrintTexts(argv)) == Some(argv) <==> forall x | x in argv :: ValidWord(x)
  {
    if argv != [] {
      ArgvParses(argv[1..]);
      assert ValidWord(argv[0]) <==> argv[0] != "" && '\0' !in argv[0];
      hide ValidWord;
      assert PrintTexts(argv)[1..] == PrintTexts(argv[1..]) && argv == [argv[0]] + argv[1..];
    }
  }

  lemma LicenseParses(l: LicenseSpec)
    ensures ParseLicense(PrintLicense(l)) == Some(l) <==> ValidLicense(l)
  {
    TextsParse(l.licensors, 128);
    hide ParseTexts, PrintTexts, ExactHex, ValidText;
    HexParses(l.textSha256, 64);
    HexParses(l.recordDigest, 64);
  }

  lemma HexParses(v: Json, length: nat)
    ensures ExactHex(v, length) == if ValidHex(v, length) then Some(v) else None
  {
    if v.Arr? && |v.items| == length {
      assert forall i | 0 <= i < length :: v.items[i] in v.items;
    }
  }

  lemma {:induction false} LicensesParse(licenses: seq<LicenseSpec>)
    ensures ParseLicenses(PrintLicenses(licenses)) == Some(licenses) <==> forall l | l in licenses :: ValidLicense(l)
    ensures |PrintLicenses(licenses)| == |licenses|
  {
    if licenses != [] {
      LicenseParses(licenses[0]);
      LicensesParse(licenses[1..]);
      hide ParseLicense, PrintLicense, ValidLicense;
      assert PrintLicenses(licenses)[1..] == PrintLicenses(licenses[1..]) && licenses == [licenses[0]] + licenses[1..];
    }
  }

  lemma FetchParses(r: FetchRules, f: FetchSpec)
    ensures ParseFetch(r, PrintFetch(f)) == Some(f) <==> ValidFetch(r, f)
  {
    PathParses(f.path);
    hide ParsePath, RelativePath.Plain;
  }

  lemma {:induction false} FetchesParse(r: FetchRules, fetches: seq<FetchSpec>)
    ensures ParseFetches(r, PrintFetches(fetches)) == Some(fetches) <==> forall f | f in fetches :: ValidFetch(r, f)
    ensures |PrintFetches(fetches)| == |fetches|
  {
    if fetches != [] {
      FetchParses(r, fetches[0]);
      FetchesParse(r, fetches[1..]);
      hide ParseFetch, PrintFetch, ValidFetch;
      assert PrintFetches(fetches)[1..] == PrintFetches(fetches[1..]) && fetches == [fetches[0]] + fetches[1..];
    }
  }

  lemma InputProvenanceParses(u: UrlRules, p: Provenance)
    ensures ParseInputProvenance(u, PrintProvenance(p)) == Some(p) <==> ValidInputProvenance(u, p)
  {
    hide IsHexText;
  }

  lemma InputParses(u: UrlRules, allowFile: bool, host: string, i: ConvertInput)
    ensures ParseInput(u, allowFile, host, PrintInput(i)) == Some(i) <==> ValidInput(u, allowFile, host, i)
  {
    HexParses(i.sha256, 64);
    if i.provenance.Some? { InputProvenanceParses(u, i.provenance.value); }
    hide ParseInputProvenance, PrintProvenance, ValidInputProvenance, IsInputName, ExactHex;
  }

  lemma ParseInputsCons(u: UrlRules, allowFile: bool, host: string, v: Json, rest: seq<Json>)
    ensures ParseInputs(u, allowFile, host, [v] + rest)
         == match (ParseInput(u, allowFile, host, v), ParseInputs(u, allowFile, host, rest))
            case (Some(i), Some(others)) => Some([i] + others)
            case _ => None
  {
    hide ParseInput;
    assert ([v] + rest)[1..] == rest;
  }

  predicate ValidInputs(u: UrlRules, allowFile: bool, host: string, inputs: seq<ConvertInput>) {
    forall i | i in inputs :: ValidInput(u, allowFile, host, i)
  }

  lemma ValidInputsCons(u: UrlRules, allowFile: bool, host: string, first: ConvertInput, rest: seq<ConvertInput>)
    ensures ValidInputs(u, allowFile, host, [first] + rest)
       <==> ValidInput(u, allowFile, host, first) && ValidInputs(u, allowFile, host, rest)
  {
    hide ValidInput;
    assert first in [first] + rest && forall i | i in rest :: i in [first] + rest;
  }

  lemma {:induction false} InputsParse(u: UrlRules, allowFile: bool, host: string, inputs: seq<ConvertInput>)
    ensures ParseInputs(u, allowFile, host, PrintInputs(inputs)) == Some(inputs)
       <==> ValidInputs(u, allowFile, host, inputs)
    ensures |PrintInputs(inputs)| == |inputs|
  {
    if inputs != [] {
      var first, rest := inputs[0], inputs[1..];
      assert PrintInputs(inputs) == [PrintInput(first)] + PrintInputs(rest);
      InputsParse(u, allowFile, host, rest);
      hide ParseInput, PrintInput, ValidInput, ValidInputs, ParseInputs, PrintInputs;
      assert inputs == [first] + rest;
      InputParses(u, allowFile, host, first);
      ParseInputsCons(u, allowFile, host, PrintInput(first), PrintInputs(rest));
      ValidInputsCons(u, allowFile, host, first, rest);
    }
  }

  lemma PrimaryParses(u: UrlRules, allowFile: bool, host: string, p: Primary)
    ensures ParsePrimary(u, allowFile, host, PrintPrimary(p)) == Some(p) <==> ValidPrimary(u, allowFile, host, p)
  {
    PathParses(p.path);
    HexParses(p.sha256, 64);
    hide ParsePath, RelativePath.Plain, ExactHex;
  }

  lemma ConverterParses(c: Converter)
    ensures ParseConversion(PrintConversion(c)) == Some(c) <==> ValidConverter(c)
  {
    ArgvParses(c.argv);
    TextsParse(c.argv, 0);
    hide ParseArgv, PrintTexts, ParseTexts, RelativePath.ValidId;
  }

  lemma AmountsParse(a: Amounts)
    ensures ParseAmounts(PrintAmounts(a)) == Some(a) <==> ValidAmounts(a)
  {
  }

  lemma ConsumerParses(c: Consumer)
    ensures ParseConsumer(PrintConsumer(c)) == Some(c) <==> ValidConsumer(c)
  {
  }

  // ---------------------------------------------------------------------------------------
  // Sources

  predicate ValidProvenance(u: UrlRules, allowFile: bool, h: Head, mode: string, p: Provenance) {
    var owned := OwnedBy(u, h, mode, p.project, p.revision);
    ValidText(p.project, 256) && ValidText(p.revision, 256) && ValidUrl(u, p.url, allowFile, owned.archive, owned.files)
  }

  predicate ValidArchive(u: UrlRules, allowFile: bool, h: Head, s: Source) {
    && s == Plain(ARCHIVE, s.provenance).(url := s.url, archiveBytes := s.archiveBytes,
              archiveSha256 := s.archiveSha256, archiveFormat := s.archiveFormat, root := s.root)
    && ValidUrl(u, s.url, allowFile, OwnedBy(u, h, ARCHIVE, s.provenance.project, s.provenance.revision).archive, {})
    && s.archiveBytes < TOO_MANY_BYTES && ValidHex(s.archiveSha256, 64)
    && (s.archiveFormat == "zip" || s.archiveFormat == "tar")
    && ValidText(s.root, 256) && '/' !in s.root && s.root != "." && s.root != ".."
    && u.host(s.url) == u.host(s.provenance.url)
  }

  function FilesRules(u: UrlRules, allowFile: bool, h: Head, s: Source): FetchRules {
    FetchRules(u, allowFile, OwnedBy(u, h, FILES, s.provenance.project, s.provenance.revision).files,
               Some(u.host(s.provenance.url)))
  }

  predicate ValidFilesSource(u: UrlRules, allowFile: bool, h: Head, s: Source) {
    && s == Plain(FILES, s.provenance).(fetch := s.fetch)
    && s.fetch != [] && forall f | f in s.fetch :: ValidFetch(FilesRules(u, allowFile, h, s), f)
  }

  predicate ValidConvert(u: UrlRules, allowFile: bool, s: Source) {
    var host := u.host(s.provenance.url);
    && s == Plain(CONVERT, s.provenance).(convertUrl := s.convertUrl, convertBytes := s.convertBytes,
              convertSha256 := s.convertSha256, convertInputPath := s.convertInputPath,
              convertInputs := s.convertInputs, convertToolAssetId := s.convertToolAssetId,
              convertArgv := s.convertArgv, fetch := s.fetch)
    && ValidPrimary(u, allowFile, host, Primary(s.convertUrl, s.convertBytes, s.convertSha256, s.convertInputPath))
    && ValidConverter(Converter(s.convertToolAssetId, s.convertArgv))
    && ValidInputs(u, allowFile, host, s.convertInputs)
    && (forall f | f in s.fetch :: ValidFetch(FetchRules(u, allowFile, {}, Some(host)), f))
  }

  predicate ValidRegistry(u: UrlRules, allowFile: bool, s: Source) {
    && s == Plain(REGISTRY, s.provenance).(manifestUrl := s.manifestUrl, manifestSha256 := s.manifestSha256,
              blobs := s.blobs)
    && ValidUrl(u, s.manifestUrl, allowFile, None, {}) && ValidHex(s.manifestSha256, 64)
    && u.host(s.manifestUrl) == u.host(s.provenance.url)
    && s.blobs != [] && forall f | f in s.blobs :: ValidFetch(FetchRules(u, allowFile, {}, None), f)
  }

  predicate ValidSource(u: UrlRules, allowFile: bool, h: Head, s: Source) {
    && ValidProvenance(u, allowFile, h, s.mode, s.provenance)
    && if s.mode == ARCHIVE then ValidArchive(u, allowFile, h, s)
       else if s.mode == FILES then ValidFilesSource(u, allowFile, h, s)
       else if s.mode == CONVERT then ValidConvert(u, allowFile, s)
       else s.mode == REGISTRY && ValidRegistry(u, allowFile, s)
  }

  /** The part of the cross-field checks that looks at the source. */
  predicate SourceChecks(h: Head, s: Source) {
    && (s.mode == ARCHIVE ==> h.downloadBytes == s.archiveBytes)
    && (s.mode == FILES ==> PathSet(FetchPaths(s.fetch)) == ContentPaths(h.files))
    && (s.mode == CONVERT ==>
          ConvertLayout(h.files, s.convertInputPath, s.convertBytes, s.convertSha256, s.convertInputs, s.fetch))
    && (s.mode == REGISTRY ==> PathSet(FetchPaths(s.blobs)) == ContentPaths(h.files))
  }

  lemma ProvenanceParses(u: UrlRules, allowFile: bool, h: Head, mode: string, p: Provenance)
    ensures ParseProvenance(u, allowFile, h, mode, PrintProvenance(p)) == Some(p)
       <==> ValidProvenance(u, allowFile, h, mode, p)
    ensures ParseProvenance(u, allowFile, h, mode, PrintProvenance(p)).Some? ==>
              ParseProvenance(u, allowFile, h, mode, PrintProvenance(p)) == Some(p)
  {
    hide OwnedBy;
  }

  lemma PrintedArchive(s: Source)
    ensures var v := PrintArchive(s);
      && Object(v, {Mode, Url, ArchiveBytes, ArchiveSha256, Format, Root, ProvenanceKey}).Some?
      && Get(v, Url) == Str(s.url) && Get(v, ArchiveBytes) == Int(s.archiveBytes)
      && Get(v, ArchiveSha256) == s.archiveSha256 && Get(v, Format) == Str(s.archiveFormat)
      && Get(v, Root) == Str(s.root)
  {
  }

  lemma ArchiveParses(u: UrlRules, allowFile: bool, h: Head, s: Source)
    ensures ParseArchive(u, allowFile, h, s.provenance, PrintArchive(s)) == Some(s)
       <==> ValidArchive(u, allowFile, h, s) && h.downloadBytes == s.archiveBytes
  {
    hide OwnedBy, PrintProvenance, ExactHex, ARCHIVE, PrintArchive, Object, Get, ParseUrl, ValidUrl, Text, ValidText;
    PrintedArchive(s);
    HexParses(s.archiveSha256, 64);
    TextParses(s.root, 256);
    UrlParses(u, s.url, allowFile, OwnedBy(u, h, ARCHIVE, s.provenance.project, s.provenance.revision).archive, {});
  }

  lemma FilesSourceParses(u: UrlRules, allowFile: bool, h: Head, s: Source)
    ensures ParseFilesSource(u, allowFile, h, s.provenance, PrintFilesSource(s)) == Some(s)
       <==> ValidFilesSource(u, allowFile, h, s) && PathSet(FetchPaths(s.fetch)) == ContentPaths(h.files)
  {
    FetchesParse(FilesRules(u, allowFile, h, s), s.fetch);
    hide ParseFetches, PrintFetches, FetchPaths, ContentPaths, PrintProvenance, OwnedBy, ValidFetch, FILES;
  }

  lemma PrintedRegistry(s: Source)
    ensures var v := PrintRegistry(s);
      && Object(v, {Mode, ManifestUrl, ManifestSha256, Blobs, ProvenanceKey}).Some?
      && Get(v, ManifestUrl) == Str(s.manifestUrl) && Get(v, ManifestSha256) == s.manifestSha256
      && Get(v, Blobs) == Arr(PrintFetches(s.blobs))
  {
  }

  lemma RegistryParses(u: UrlRules, allowFile: bool, h: Head, s: Source)
    ensures ParseRegistry(u, allowFile, h, s.provenance, PrintRegistry(s)) == Some(s)
       <==> ValidRegistry(u, allowFile, s) && PathSet(FetchPaths(s.blobs)) == ContentPaths(h.files)
  {
    hide ParseFetches, PrintFetches, FetchPaths, ContentPaths, PrintProvenance, ExactHex, ValidFetch, REGISTRY,
         PrintRegistry, Object, Get, ParseUrl, ValidUrl, PathSet;
    PrintedRegistry(s);
    FetchesParse(FetchRules(u, allowFile, {}, None), s.blobs);
    HexParses(s.manifestSha256, 64);
    UrlParses(u, s.manifestUrl, allowFile, None, {});
  }

  lemma ConvertParses(u: UrlRules, allowFile: bool, h: Head, s: Source)
    ensures ParseConvert(u, allowFile, h, s.provenance, PrintConvert(s)) == Some(s)
       <==> && ValidConvert(u, allowFile, s)
            && ConvertLayout(h.files, s.convertInputPath, s.convertBytes, s.convertSha256, s.convertInputs, s.fetch)
  {
    var host := u.host(s.provenance.url);
    PrimaryParses(u, allowFile, host, Primary(s.convertUrl, s.convertBytes, s.convertSha256, s.convertInputPath));
    ConverterParses(Converter(s.convertToolAssetId, s.convertArgv));
    InputsParse(u, allowFile, host, s.convertInputs);
    FetchesParse(FetchRules(u, allowFile, {}, Some(host)), s.fetch);
    hide ParseFetches, PrintFetches, ParseInputs, PrintInputs, ParseConversion, PrintConversion, ParsePrimary,
         PrintPrimary, ConvertLayout, PrintProvenance, ValidPrimary, ValidConverter, ValidInputs, ValidFetch, CONVERT;
  }

  /** A written source is read back exactly if its fields are valid and it passes the checks against the rest. */
  lemma SourceParses(u: UrlRules, allowFile: bool, h: Head, s: Source)
    ensures ParseSource(u, allowFile, h, PrintSource(s)) == Some(s)
       <==> ValidSource(u, allowFile, h, s) && SourceChecks(h, s)
  {
    ModesDiffer();
    AssetRoundTrip.PrintedSource(s);
    ProvenanceParses(u, allowFile, h, s.mode, s.provenance);
    hide ParseProvenance, PrintProvenance, ParseArchive, ParseFilesSource, ParseConvert, ParseRegistry, PrintArchive,
         PrintFilesSource, PrintConvert, PrintRegistry, ARCHIVE, FILES, CONVERT, REGISTRY, ValidProvenance,
         ValidArchive, ValidFilesSource, ValidConvert, ValidRegistry, FetchPaths, ContentPaths, ConvertLayout;
    if s.mode == ARCHIVE { ArchiveParses(u, allowFile, h, s); }
    else if s.mode == FILES { FilesSourceParses(u, allowFile, h, s); }
    else if s.mode == CONVERT { ConvertParses(u, allowFile, h, s); }
    else { RegistryParses(u, allowFile, h, s); }
  }

  // ---------------------------------------------------------------------------------------
  // Records

  function HeadOf(s: Spec): Head
    requires s.licenses != []
  {
    Head(s.assetId, s.provider, s.version, s.consumer.schema, s.licenses[0].id, s.files, s.amounts.download)
  }

  /** The rules that look at one field, or at a field and the host or the owner that it must agree with. */
  predicate FieldsValid(u: UrlRules, allowFile: bool, s: Spec) {
    && RelativePath.ValidId(s.assetId) && ValidText(s.labelText, 256) && RelativePath.ValidId(s.provider)
    && IsStream(s.stream) && ValidText(s.version, 128)
    && s.files != [] && |s.files| <= MAX_FILES && (forall f | f in s.files :: ValidFile(f))
    && ValidAmounts(s.amounts) && ValidConsumer(s.consumer)
    && s.licenses != [] && (forall l | l in s.licenses :: ValidLicense(l)) && Distinct(LicenseIds(s.licenses))
    && ValidSource(u, allowFile, HeadOf(s), s.source)
  }

  /** The cross-field checks, with those of the source apart. */
  lemma ChecksApart(s: Spec)
    requires s.licenses != []
    ensures Generator.CrossChecks(s)
       <==> && Distinct(Paths(s.files)) && s.amounts.installed == TotalBytes(s.files)
            && SourceChecks(HeadOf(s), s.source)
  {
    hide ARCHIVE, FILES, CONVERT, REGISTRY, Distinct, Paths, TotalBytes, PathSet, FetchPaths, ContentPaths,
         ConvertLayout;
  }

  /** What the record's scalar fields parse to. */
  lemma ScalarsParse(s: Spec)
    ensures ParseId(Str(s.assetId)) == if RelativePath.ValidId(s.assetId) then Some(s.assetId) else None
    ensures ParseId(Str(s.provider)) == if RelativePath.ValidId(s.provider) then Some(s.provider) else None
    ensures Text(Str(s.labelText), 256) == if ValidText(s.labelText, 256) then Some(s.labelText) else None
    ensures Text(Str(s.version), 128) == if ValidText(s.version, 128) then Some(s.version) else None
  {
  }

  lemma ValidRecordIsRead(u: UrlRules, allowFile: bool, s: Spec)
    requires FieldsValid(u, allowFile, s) && Generator.CrossChecks(s)
    ensures ParseSpec(u, allowFile, PrintSpec(s)) == Some(s)
  {
    hide ParseFiles, PrintFiles, ParseLicenses, PrintLicenses, ParseSource, PrintSource, Paths, TotalBytes, LicenseIds,
         IsStream, Text, ParseId, ParseAmounts, PrintAmounts, ParseConsumer, PrintConsumer, PrintSpec, Object, Get,
         ValidText, ValidFile, ValidLicense, ValidAmounts, ValidConsumer, ValidSource, RelativePath.ValidId,
         SourceChecks, Distinct, Generator.CrossChecks;
    AssetRoundTrip.PrintedSpec(s);
    ScalarsParse(s);
    FilesParse(s.files);
    LicensesParse(s.licenses);
    AmountsParse(s.amounts);
    ConsumerParses(s.consumer);
    ChecksApart(s);
    SourceParses(u, allowFile, HeadOf(s), s.source);
  }

  lemma ReadRecordIsValid(u: UrlRules, allowFile: bool, s: Spec)
    requires ParseSpec(u, allowFile, PrintSpec(s)) == Some(s)
    ensures FieldsValid(u, allowFile, s) && Generator.CrossChecks(s)
  {
    hide ParseFiles, PrintFiles, ParseLicenses, PrintLicenses, ParseSource, PrintSource, Paths, TotalBytes, LicenseIds,
         IsStream, Text, ParseId, ParseAmounts, PrintAmounts, ParseConsumer, PrintConsumer, PrintSpec, Object, Get,
         ValidText, ValidFile, ValidLicense, ValidAmounts, ValidConsumer, ValidSource, RelativePath.ValidId,
         SourceChecks, Distinct, Generator.CrossChecks;
    AssetRoundTrip.PrintedSpec(s);
    ScalarsParse(s);
    FilesParse(s.files);
    LicensesParse(s.licenses);
    AmountsParse(s.amounts);
    ConsumerParses(s.consumer);
    ChecksApart(s);
    SourceParses(u, allowFile, HeadOf(s), s.source);
  }

  /**
   A written record is read back exactly if its fields are valid and it meets the cross-field checks: the
   checks are all that the parser asks beyond single fields.
   */
  lemma RecordParses(u: UrlRules, allowFile: bool, s: Spec)
    ensures ParseSpec(u, allowFile, PrintSpec(s)) == Some(s)
       <==> FieldsValid(u, allowFile, s) && Generator.CrossChecks(s)
  {
    hide *;
    if ParseSpec(u, allowFile, PrintSpec(s)) == Some(s) { ReadRecordIsValid(u, allowFile, s); }
    if FieldsValid(u, allowFile, s) && Generator.CrossChecks(s) { ValidRecordIsRead(u, allowFile, s); }
  }

  /** So a built record is one that the parser reads back exactly if its fields are valid and its pin fits. */
  lemma BuiltRecordParses(u: UrlRules, allowFile: bool, pin: Generator.Pin, notices: seq<FileSpec>, template: Spec)
    requires Generator.Build(pin, notices, template).Some?
    ensures var s := Generator.Build(pin, notices, template).value;
      (ParseSpec(u, allowFile, PrintSpec(s)) == Some(s))
      == (FieldsValid(u, allowFile, s) && Generator.Fits(pin, notices))
  {
    hide ParseSpec, PrintSpec, FieldsValid, Generator.CrossChecks, Generator.Fits, Generator.Build;
    RecordParses(u, allowFile, Generator.Build(pin, notices, template).value);
    if pin.MembersPin? || pin.OutputsPin? {
      Generator.BuiltConvertMeetsChecks(pin, notices, template);
    } else {
      Generator.BuiltMeetsChecks(pin, notices, template);
    }
  }
}
