/**
 `AssetSpec.from_mapping` and `AssetSpec.to_mapping`: the asset record, in four source modes.

 None stands for any refusal, a CatalogError or the exception of a malformed value. The URL rules
 (public HTTPS, pinned hosts, owned releases) are a parameter.
 */
module AssetSpec {
  import opened Common
  import opened Json
  import RelativePath

  const SCHEMA := "kilix.content.asset/v3"
  const ARCHIVE := "upstream-archive"
  const FILES := "upstream-files"
  const CONVERT := "upstream-convert"
  const REGISTRY := "registry-manifest"
  const MAX_FILES: nat := 100_000

  /** The four mode names differ. */
  lemma ModesDiffer()
    ensures ARCHIVE != FILES && ARCHIVE != CONVERT && ARCHIVE != REGISTRY
    ensures FILES != CONVERT && FILES != REGISTRY && CONVERT != REGISTRY
  {
  }

  datatype FileSpec = FileSpec(path: string, bytes: nat, sha256: string)

  datatype LicenseSpec = LicenseSpec(
    id: string, textSha256: Json, decision: string, licensors: seq<string>, recordDigest: Json)

  datatype FetchSpec = FetchSpec(path: string, url: string)

  datatype Provenance = Provenance(project: string, revision: string, url: string)

  datatype ConvertInput = ConvertInput(
    path: string, url: string, bytes: nat, sha256: Json, provenance: Option<Provenance>)

  /** The source fields; those of other modes keep their defaults. */
  datatype Source = Source(
    mode: string,
    provenance: Provenance,
    url: string, archiveBytes: nat, archiveSha256: Json, archiveFormat: string, root: string,
    fetch: seq<FetchSpec>,
    convertUrl: string, convertBytes: nat, convertSha256: Json, convertInputPath: string,
    convertInputs: seq<ConvertInput>, convertToolAssetId: string, convertArgv: seq<string>,
    manifestUrl: string, manifestSha256: Json, blobs: seq<FetchSpec>)

  /** The record's sizes. */
  datatype Amounts = Amounts(download: nat, installed: nat, temporary: nat)

  /** The record's compatibility: the consumer's schema and its range of versions. */
  datatype Consumer = Consumer(schema: string, minimum: int, maximum: int)

  datatype Spec = Spec(
    assetId: string, labelText: string, provider: string, stream: string, version: string,
    files: seq<FileSpec>, source: Source, amounts: Amounts, licenses: seq<LicenseSpec>, consumer: Consumer)

  /** The releases that an asset may take from the owner's own account. */
  datatype Owned = Owned(archive: Option<string>, files: set<string>)

  /** What decides those releases. */
  datatype Facts = Facts(
    assetId: string, provider: string, consumerSchema: string, mode: string, firstLicense: string,
    project: string, revision: string, version: string)

  /** `permits(url, file URLs allowed, owned archive, owned files)`; `host` is `_host` of a URL. */
  datatype UrlRules = UrlRules(
    permits: (string, bool, Option<string>, set<string>) -> bool, host: string -> string, owned: Facts -> Owned)

  // ---------------------------------------------------------------------------------------
  // Parts

  function ParseUrl(u: UrlRules, v: Json, allowFile: bool, archive: Option<string>, files: set<string>)
    : Option<string>
  {
    var url :- Text(v, 4096);
    :- Require(u.permits(url, allowFile, archive, files));
    Some(url)
  }

  function ParsePath(v: Json): Option<string> {
    if v.Str? then RelativePath.RelativePath(v.s) else None
  }

  function ParseId(v: Json): Option<string> {
    if v.Str? && RelativePath.ValidId(v.s) then Some(v.s) else None
  }

  function ParseFile(v: Json): Option<FileSpec> {
    var _ :- Object(v, {Path, BytesKey, Sha256});
    var path :- ParsePath(Get(v, Path));
    var bytes :- ByteCount(Get(v, BytesKey));
    var digest := Get(v, Sha256);
    :- Require(digest.Str? && IsHexText(digest.s, 64));
    Some(FileSpec(path, bytes, digest.s))
  }

  function PrintFile(f: FileSpec): Json {
    Obj(map[BytesKey := Int(f.bytes), Path := Str(f.path), Sha256 := Str(f.sha256)])
  }

  function ParseTexts(items: seq<Json>, maximum: nat): Option<seq<string>> {
    if items == [] then Some([])
    else
      var first :- Text(items[0], maximum);
      var rest :- ParseTexts(items[1..], maximum);
      Some([first] + rest)
  }

  function PrintTexts(texts: seq<string>): seq<Json> {
    if texts == [] then [] else [Str(texts[0])] + PrintTexts(texts[1..])
  }

  function ParseLicense(v: Json): Option<LicenseSpec> {
    var _ :- Object(v, {Id, TextSha256, Decision, Licensors, RecordDigest});
    var id := Get(v, Id);
    :- Require(id.Str? && id.s != "" && '\0' !in id.s);
    var decision := Get(v, Decision);
    :- Require(decision == Str("informational") || decision == Str("affirmative"));
    var raw :- Array(Get(v, Licensors));
    :- Require(1 <= |raw| <= 4);
    var licensors :- ParseTexts(raw, 128);
    var text :- ExactHex(Get(v, TextSha256), 64);
    var digest :- ExactHex(Get(v, RecordDigest), 64);
    Some(LicenseSpec(id.s, text, decision.s, licensors, digest))
  }

  function PrintLicense(l: LicenseSpec): Json {
    Obj(map[Decision := Str(l.decision), Id := Str(l.id), Licensors := Arr(PrintTexts(l.licensors)),
            RecordDigest := l.recordDigest, TextSha256 := l.textSha256])
  }

  function ParseFiles(items: seq<Json>): Option<seq<FileSpec>> {
    if items == [] then Some([])
    else
      var first :- ParseFile(items[0]);
      var rest :- ParseFiles(items[1..]);
      Some([first] + rest)
  }

  function PrintFiles(files: seq<FileSpec>): seq<Json> {
    if files == [] then [] else [PrintFile(files[0])] + PrintFiles(files[1..])
  }

  function ParseLicenses(items: seq<Json>): Option<seq<LicenseSpec>> {
    if items == [] then Some([])
    else
      var first :- ParseLicense(items[0]);
      var rest :- ParseLicenses(items[1..]);
      Some([first] + rest)
  }

  function PrintLicenses(licenses: seq<LicenseSpec>): seq<Json> {
    if licenses == [] then [] else [PrintLicense(licenses[0])] + PrintLicenses(licenses[1..])
  }

  /** What a fetched file's URL is checked against: file URLs, owned files, and the proven host if any. */
  datatype FetchRules = FetchRules(u: UrlRules, allowFile: bool, owned: set<string>, host: Option<string>)

  function ParseFetch(r: FetchRules, v: Json): Option<FetchSpec> {
    var _ :- Object(v, {Path, Url});
    var path :- ParsePath(Get(v, Path));
    var url :- ParseUrl(r.u, Get(v, Url), r.allowFile, None, r.owned);
    :- Require(r.host.Some? ==> r.u.host(url) == r.host.value);
    Some(FetchSpec(path, url))
  }

  function PrintFetch(f: FetchSpec): Json {
    Obj(map[Path := Str(f.path), Url := Str(f.url)])
  }

  function ParseFetches(r: FetchRules, items: seq<Json>): Option<seq<FetchSpec>> {
    if items == [] then Some([])
    else
      var first :- ParseFetch(r, items[0]);
      var rest :- ParseFetches(r, items[1..]);
      Some([first] + rest)
  }

  function PrintFetches(fetches: seq<FetchSpec>): seq<Json> {
    if fetches == [] then [] else [PrintFetch(fetches[0])] + PrintFetches(fetches[1..])
  }

  /** A converter input's plain file name. */
  predicate IsInputName(name: string) {
    name != "" && '\0' !in name && |name| <= 255 && '/' !in name && '\\' !in name && name[0] != '.'
  }

  function ParseInputProvenance(u: UrlRules, v: Json): Option<Provenance> {
    var _ :- Object(v, {Project, Revision, OriginalUrl});
    var project :- Text(Get(v, Project), 256);
    var revision :- Text(Get(v, Revision), 256);
    :- Require(IsHexText(revision, 40));
    var url :- ParseUrl(u, Get(v, OriginalUrl), false, None, {});
    Some(Provenance(project, revision, url))
  }

  function PrintProvenance(p: Provenance): Json {
    Obj(map[OriginalUrl := Str(p.url), Project := Str(p.project), Revision := Str(p.revision)])
  }

  function ParseInput(u: UrlRules, allowFile: bool, host: string, v: Json): Option<ConvertInput> {
    var _ :- Object(v, {Path, Url, BytesKey, Sha256, ProvenanceKey});
    var path := Get(v, Path);
    :- Require(path.Str? && IsInputName(path.s));
    var url :- ParseUrl(u, Get(v, Url), allowFile, None, {});
    var own: Option<Provenance> :-
      if !Has(v, ProvenanceKey) then Some(None)
      else match ParseInputProvenance(u, Get(v, ProvenanceKey)) case Some(p) => Some(Some(p)) case None => None;
    :- Require(u.host(url) == match own case Some(p) => u.host(p.url) case None => host);
    var bytes :- ByteCount(Get(v, BytesKey));
    var digest :- ExactHex(Get(v, Sha256), 64);
    Some(ConvertInput(path.s, url, bytes, digest, own))
  }

  function PrintInput(i: ConvertInput): Json {
    var fields := map[BytesKey := Int(i.bytes), Path := Str(i.path), Sha256 := i.sha256, Url := Str(i.url)];
    Obj(match i.provenance case Some(p) => fields[ProvenanceKey := PrintProvenance(p)] case None => fields)
  }

  function ParseInputs(u: UrlRules, allowFile: bool, host: string, items: seq<Json>): Option<seq<ConvertInput>> {
    if items == [] then Some([])
    else
      var first :- ParseInput(u, allowFile, host, items[0]);
      var rest :- ParseInputs(u, allowFile, host, items[1..]);
      Some([first] + rest)
  }

  function PrintInputs(inputs: seq<ConvertInput>): seq<Json> {
    if inputs == [] then [] else [PrintInput(inputs[0])] + PrintInputs(inputs[1..])
  }

  /** What has been read, then what is still to come, if that is readable. */
  function After<T>(read: seq<T>, rest: Option<seq<T>>): (all: Option<seq<T>>)
    ensures read == [] ==> all == rest
    ensures rest == Some([]) ==> all == Some(read)
  {
    match rest
    case None => None
    case Some(items) =>
      assert [] + items == items && read + [] == read;
      Some(read + items)
  }

  lemma AfterOneMore<T>(read: seq<T>, item: T, rest: Option<seq<T>>)
    ensures After(read, After([item], rest)) == After(read + [item], rest)
  {
    assert rest.Some? ==> read + ([item] + rest.value) == (read + [item]) + rest.value;
  }

  /** The loop that reads a source's `fetch` or `blobs` array. */
  method ReadFetches(r: FetchRules, raw: seq<Json>) returns (items: Option<seq<FetchSpec>>)
    ensures items == ParseFetches(r, raw)
  {
    var read: seq<FetchSpec> := [];
    assert raw[0..] == raw;
    for i := 0 to |raw|
      invariant ParseFetches(r, raw) == After(read, ParseFetches(r, raw[i..]))
    {
      hide ParseFetch;
      assert raw[i..][1..] == raw[i + 1..];
      var item := ParseFetch(r, raw[i]);
      if item.None? { return None; }
      assert ParseFetches(r, raw[i..]) == After([item.value], ParseFetches(r, raw[i + 1..]));
      AfterOneMore(read, item.value, ParseFetches(r, raw[i + 1..]));
      read := read + [item.value];
    }
    return Some(read);
  }

  /** The loop that reads an upstream-convert source's `inputs`. */
  method ReadInputs(u: UrlRules, allowFile: bool, host: string, raw: seq<Json>)
    returns (items: Option<seq<ConvertInput>>)
    ensures items == ParseInputs(u, allowFile, host, raw)
  {
    var read: seq<ConvertInput> := [];
    assert raw[0..] == raw;
    for i := 0 to |raw|
      invariant ParseInputs(u, allowFile, host, raw) == After(read, ParseInputs(u, allowFile, host, raw[i..]))
    {
      hide ParseInput;
      assert raw[i..][1..] == raw[i + 1..];
      var item := ParseInput(u, allowFile, host, raw[i]);
      if item.None? { return None; }
      assert ParseInputs(u, allowFile, host, raw[i..])
          == After([item.value], ParseInputs(u, allowFile, host, raw[i + 1..]));
      AfterOneMore(read, item.value, ParseInputs(u, allowFile, host, raw[i + 1..]));
      read := read + [item.value];
    }
    return Some(read);
  }

  /** `_string_tuple` of an array that must not be empty. */
  function ParseArgv(items: seq<Json>): Option<seq<string>> {
    if items == [] then Some([])
    else
      :- Require(items[0].Str? && items[0].s != "" && '\0' !in items[0].s);
      var rest :- ParseArgv(items[1..]);
      Some([items[0].s] + rest)
  }

  // ---------------------------------------------------------------------------------------
  // Cross-field checks

  predicate Distinct<T(==)>(items: seq<T>) {
    forall i, j | 0 <= i < j < |items| :: items[i] != items[j]
  }

  function Paths(files: seq<FileSpec>): seq<string> {
    if files == [] then [] else [files[0].path] + Paths(files[1..])
  }

  function FetchPaths(fetches: seq<FetchSpec>): seq<string> {
    if fetches == [] then [] else [fetches[0].path] + FetchPaths(fetches[1..])
  }

  function InputPaths(inputs: seq<ConvertInput>): seq<string> {
    if inputs == [] then [] else [inputs[0].path] + InputPaths(inputs[1..])
  }

  function LicenseIds(licenses: seq<LicenseSpec>): seq<string> {
    if licenses == [] then [] else [licenses[0].id] + LicenseIds(licenses[1..])
  }

  function TotalBytes(files: seq<FileSpec>): nat {
    if files == [] then 0 else files[0].bytes + TotalBytes(files[1..])
  }

  predicate IsNotice(path: string) {
    "notices/" <= path
  }

  /** The paths that are not licence notices. */
  function ContentPaths(files: seq<FileSpec>): set<string> {
    set p | p in Paths(files) && !IsNotice(p)
  }

  function PathSet(paths: seq<string>): set<string> {
    set p | p in paths
  }

  predicate Lists(files: seq<FileSpec>, path: string, bytes: nat, sha256: Json) {
    exists i :: 0 <= i < |files| && files[i].path == path && files[i].bytes == bytes && Str(files[i].sha256) == sha256
  }

  /** How an upstream-convert record's inputs relate to its installed files. */
  predicate ConvertLayout(files: seq<FileSpec>, path: string, bytes: nat, sha256: Json, inputs: seq<ConvertInput>,
                          fetch: seq<FetchSpec>)
  {
    if inputs != [] then
      && fetch == [] && IsInputName(path)
      && Distinct([path] + InputPaths(inputs))
      && PathSet([path] + InputPaths(inputs)) !! PathSet(Paths(files))
    else if path != "" || fetch != [] then
      && path !in FetchPaths(fetch)
      && PathSet(FetchPaths(fetch)) + (if path != "" then {path} else {}) == ContentPaths(files)
      && (path != "" ==> Lists(files, path, bytes, sha256))
    else true
  }

  // ---------------------------------------------------------------------------------------
  // The source

  /** What is parsed before the source and decides parts of it. */
  datatype Head = Head(
    assetId: string, provider: string, version: string, consumerSchema: string, firstLicense: string,
    files: seq<FileSpec>, downloadBytes: nat)

  function Plain(mode: string, p: Provenance): Source {
    Source(mode, p, "", 0, Str(""), "", "", [], "", 0, Str(""), "", [], "", [], "", Str(""), [])
  }

  function OwnedBy(u: UrlRules, h: Head, mode: string, project: string, revision: string): Owned {
    u.owned(Facts(h.assetId, h.provider, h.consumerSchema, mode, h.firstLicense, project, revision, h.version))
  }

  function ParseProvenance(u: UrlRules, allowFile: bool, h: Head, mode: string, v: Json): Option<Provenance> {
    var _ :- Object(v, {Project, Revision, OriginalUrl});
    var project :- Text(Get(v, Project), 256);
    var revision :- Text(Get(v, Revision), 256);
    var owned := OwnedBy(u, h, mode, project, revision);
    var url :- ParseUrl(u, Get(v, OriginalUrl), allowFile, owned.archive, owned.files);
    Some(Provenance(project, revision, url))
  }

  function ParseArchive(u: UrlRules, allowFile: bool, h: Head, p: Provenance, v: Json): (s: Option<Source>)
    ensures s.Some? ==> s.value.mode == ARCHIVE && s.value.provenance == p
  {
    var owned := OwnedBy(u, h, ARCHIVE, p.project, p.revision);
    var _ :- Object(v, {Mode, Url, ArchiveBytes, ArchiveSha256, Format, Root, ProvenanceKey});
    var url :- ParseUrl(u, Get(v, Url), allowFile, owned.archive, {});
    var bytes :- ByteCount(Get(v, ArchiveBytes));
    var digest :- ExactHex(Get(v, ArchiveSha256), 64);
    var format := Get(v, Format);
    :- Require(format == Str("zip") || format == Str("tar"));
    var root :- Text(Get(v, Root), 256);
    :- Require('/' !in root && root != "." && root != "..");
    :- Require(u.host(url) == u.host(p.url) && h.downloadBytes == bytes);
    Some(Plain(ARCHIVE, p).(url := url, archiveBytes := bytes, archiveSha256 := digest, archiveFormat := format.s,
                            root := root))
  }

  function ParseFilesSource(u: UrlRules, allowFile: bool, h: Head, p: Provenance, v: Json): (s: Option<Source>)
    ensures s.Some? ==> s.value.mode == FILES && s.value.provenance == p
  {
    var owned := OwnedBy(u, h, FILES, p.project, p.revision);
    var _ :- Object(v, {Mode, Fetch, ProvenanceKey});
    var raw :- Array(Get(v, Fetch));
    :- Require(raw != []);
    var fetch :- ParseFetches(FetchRules(u, allowFile, owned.files, Some(u.host(p.url))), raw);
    :- Require(PathSet(FetchPaths(fetch)) == ContentPaths(h.files));
    Some(Plain(FILES, p).(fetch := fetch))
  }

  /** An array field that may be absent or null, but not empty; absent is the empty sequence. */
  function OptionalArray(v: Json): Option<seq<Json>> {
    if v.Null? then Some([])
    else
      var items :- Array(v);
      :- Require(items != []);
      Some(items)
  }

  /** The primary input of an upstream-convert record. */
  datatype Primary = Primary(url: string, bytes: nat, sha256: Json, path: string)

  function ParsePrimary(u: UrlRules, allowFile: bool, host: string, v: Json): Option<Primary> {
    var _ :- Object(v, {Url, BytesKey, Sha256, Path});
    var url :- ParseUrl(u, Get(v, Url), allowFile, None, {});
    var bytes :- ByteCount(Get(v, BytesKey));
    var digest :- ExactHex(Get(v, Sha256), 64);
    :- Require(u.host(url) == host);
    var path :- if Has(v, Path) then ParsePath(Get(v, Path)) else Some("");
    Some(Primary(url, bytes, digest, path))
  }

  /** The converter's asset id and its command line. */
  datatype Converter = Converter(tool: string, argv: seq<string>)

  function ParseConversion(v: Json): Option<Converter> {
    var _ :- Object(v, {ToolAssetId, Argv});
    var tool :- ParseId(Get(v, ToolAssetId));
    var raw :- Array(Get(v, Argv));
    :- Require(raw != []);
    var argv :- ParseArgv(raw);
    Some(Converter(tool, argv))
  }

  function ParseConvert(u: UrlRules, allowFile: bool, h: Head, p: Provenance, v: Json): (s: Option<Source>)
    ensures s.Some? ==> s.value.mode == CONVERT && s.value.provenance == p
  {
    var _ :- Object(v, {Mode, Input, Conversion, ProvenanceKey, Fetch, Inputs});
    var host := u.host(p.url);
    var primary :- ParsePrimary(u, allowFile, host, Get(v, Input));
    var rawInputs :- OptionalArray(Get(v, Inputs));
    var inputs :- ParseInputs(u, allowFile, host, rawInputs);
    var conversion :- ParseConversion(Get(v, Conversion));
    var rawFetch :- OptionalArray(Get(v, Fetch));
    var fetch :- ParseFetches(FetchRules(u, allowFile, {}, Some(host)), rawFetch);
    :- Require(ConvertLayout(h.files, primary.path, primary.bytes, primary.sha256, inputs, fetch));
    Some(Plain(CONVERT, p).(convertUrl := primary.url, convertBytes := primary.bytes, convertSha256 := primary.sha256,
                            convertInputPath := primary.path, convertInputs := inputs,
                            convertToolAssetId := conversion.tool, convertArgv := conversion.argv, fetch := fetch))
  }

  function ParseRegistry(u: UrlRules, allowFile: bool, h: Head, p: Provenance, v: Json): (s: Option<Source>)
    ensures s.Some? ==> s.value.mode == REGISTRY && s.value.provenance == p
  {
    var _ :- Object(v, {Mode, ManifestUrl, ManifestSha256, Blobs, ProvenanceKey});
    var url :- ParseUrl(u, Get(v, ManifestUrl), allowFile, None, {});
    var digest :- ExactHex(Get(v, ManifestSha256), 64);
    :- Require(u.host(url) == u.host(p.url));
    var raw :- Array(Get(v, Blobs));
    :- Require(raw != []);
    var blobs :- ParseFetches(FetchRules(u, allowFile, {}, None), raw);
    :- Require(PathSet(FetchPaths(blobs)) == ContentPaths(h.files));
    Some(Plain(REGISTRY, p).(manifestUrl := url, manifestSha256 := digest, blobs := blobs))
  }

  function ParseSource(u: UrlRules, allowFile: bool, h: Head, v: Json): Option<Source> {
    var mode := Get(v, Mode);
    :- Require(v.Obj? && !Has(v, Mirrors) && !Has(v, Parts));
    :- Require(mode.Str?);
    var p :- ParseProvenance(u, allowFile, h, mode.s, Get(v, ProvenanceKey));
    if mode.s == ARCHIVE then ParseArchive(u, allowFile, h, p, v)
    else if mode.s == FILES then ParseFilesSource(u, allowFile, h, p, v)
    else if mode.s == CONVERT then ParseConvert(u, allowFile, h, p, v)
    else if mode.s == REGISTRY then ParseRegistry(u, allowFile, h, p, v)
    else None
  }

  function PrintPrimary(i: Primary): Json {
    var input := map[BytesKey := Int(i.bytes), Sha256 := i.sha256, Url := Str(i.url)];
    Obj(if i.path != "" then input[Path := Str(i.path)] else input)
  }

  function PrintConversion(c: Converter): Json {
    Obj(map[Argv := Arr(PrintTexts(c.argv)), ToolAssetId := Str(c.tool)])
  }

  function PrintConvert(s: Source): Json {
    var fields := map[
      Conversion := PrintConversion(Converter(s.convertToolAssetId, s.convertArgv)),
      Input := PrintPrimary(Primary(s.convertUrl, s.convertBytes, s.convertSha256, s.convertInputPath)),
      Mode := Str(s.mode),
                      ProvenanceKey := PrintProvenance(s.provenance)];
    var withInputs := if s.convertInputs != [] then fields[Inputs := Arr(PrintInputs(s.convertInputs))] else fields;
    Obj(if s.fetch != [] then withInputs[Fetch := Arr(PrintFetches(s.fetch))] else withInputs)
  }

  function PrintArchive(s: Source): Json {
    Obj(map[ArchiveBytes := Int(s.archiveBytes), ArchiveSha256 := s.archiveSha256, Format := Str(s.archiveFormat),
            Mode := Str(s.mode), ProvenanceKey := PrintProvenance(s.provenance), Root := Str(s.root),
            Url := Str(s.url)])
  }

  function PrintFilesSource(s: Source): Json {
    Obj(map[Fetch := Arr(PrintFetches(s.fetch)), Mode := Str(s.mode), ProvenanceKey := PrintProvenance(s.provenance)])
  }

  function PrintRegistry(s: Source): Json {
    Obj(map[Blobs := Arr(PrintFetches(s.blobs)), ManifestSha256 := s.manifestSha256,
            ManifestUrl := Str(s.manifestUrl), Mode := Str(s.mode), ProvenanceKey := PrintProvenance(s.provenance)])
  }

  function PrintSource(s: Source): Json {
    if s.mode == ARCHIVE then PrintArchive(s)
    else if s.mode == FILES then PrintFilesSource(s)
    else if s.mode == CONVERT then PrintConvert(s)
    else PrintRegistry(s)
  }

  // ---------------------------------------------------------------------------------------
  // The record

  predicate IsStream(s: string) {
    |s| == 4 && s[0] == 'F' && '0' <= s[1] <= '9' && '0' <= s[2] <= '9' && '0' <= s[3] <= '9'
  }

  function ParseAmounts(v: Json): Option<Amounts> {
    var _ :- Object(v, {DownloadBytes, InstalledBytes, TemporaryBytes});
    var download :- ByteCount(Get(v, DownloadBytes));
    var installed :- ByteCount(Get(v, InstalledBytes));
    var temporary :- ByteCount(Get(v, TemporaryBytes));
    Some(Amounts(download, installed, temporary))
  }

  function PrintAmounts(a: Amounts): Json {
    Obj(map[DownloadBytes := Int(a.download), InstalledBytes := Int(a.installed), TemporaryBytes := Int(a.temporary)])
  }

  function ParseConsumer(v: Json): Option<Consumer> {
    var _ :- Object(v, {ConsumerSchema, Minimum, Maximum});
    var schema :- Text(Get(v, ConsumerSchema), 128);
    var minimum, maximum := Get(v, Minimum), Get(v, Maximum);
    :- Require(minimum.Int? && maximum.Int? && 1 <= minimum.n <= maximum.n);
    Some(Consumer(schema, minimum.n, maximum.n))
  }

  function PrintConsumer(c: Consumer): Json {
    Obj(map[ConsumerSchema := Str(c.schema), Maximum := Int(c.maximum), Minimum := Int(c.minimum)])
  }

  const RECORD_KEYS: set<Key> :=
    {Schema, Id, Label, Provider, Stream, Version, Files, SourceKey, Sizes, Licenses, Compatibility}

  /** `AssetSpec.from_mapping`. */
  function ParseSpec(u: UrlRules, allowFile: bool, v: Json): Option<Spec> {
    var _ :- Object(v, RECORD_KEYS);
    :- Require(Get(v, Schema) == Str(SCHEMA));
    var assetId :- ParseId(Get(v, Id));
    var labelText :- Text(Get(v, Label), 256);
    var provider :- ParseId(Get(v, Provider));
    var stream := Get(v, Stream);
    :- Require(stream.Str? && IsStream(stream.s));
    var version :- Text(Get(v, Version), 128);
    var rawFiles :- Array(Get(v, Files));
    :- Require(rawFiles != [] && |rawFiles| <= MAX_FILES);
    var files :- ParseFiles(rawFiles);
    :- Require(Distinct(Paths(files)));
    var amounts :- ParseAmounts(Get(v, Sizes));
    :- Require(amounts.installed == TotalBytes(files));
    var rawLicenses :- Array(Get(v, Licenses));
    :- Require(rawLicenses != []);
    var licenses :- ParseLicenses(rawLicenses);
    :- Require(Distinct(LicenseIds(licenses)) && licenses != []);
    var consumer :- ParseConsumer(Get(v, Compatibility));
    var source :- ParseSource(u, allowFile,
                              Head(assetId, provider, version, consumer.schema, licenses[0].id, files,
                                   amounts.download),
                              Get(v, SourceKey));
    Some(Spec(assetId, labelText, provider, stream.s, version, files, source, amounts, licenses, consumer))
  }

  /** `AssetSpec.to_mapping`. */
  function PrintSpec(s: Spec): Json {
    Obj(map[
      Compatibility := PrintConsumer(s.consumer),
      Files := Arr(PrintFiles(s.files)),
      Id := Str(s.assetId),
      Label := Str(s.labelText),
      Licenses := Arr(PrintLicenses(s.licenses)),
      Provider := Str(s.provider),
      Schema := Str(SCHEMA),
      Sizes := PrintAmounts(s.amounts),
      SourceKey := PrintSource(s.source),
      Stream := Str(s.stream),
      Version := Str(s.version)])
  }
}
