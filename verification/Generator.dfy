/**
 `tools/generate_upstream_records.py`: records built from pins, and exactly which pins give a record
 that meets the parser's cross-field checks.
 */
module Generator {
  import opened Common
  import opened Json
  import opened AssetSpec

  // ---------------------------------------------------------------------------------------
  // Sorting by path

  /** String order by code point. */
  predicate AtMost(a: string, b: string) {
    a == "" || (b != "" && (a[0] < b[0] || (a[0] == b[0] && AtMost(a[1..], b[1..]))))
  }

  /** The texts first differ at k, where a has the smaller character. */
  predicate SmallerAt(a: string, b: string, k: nat) {
    k < |a| && k < |b| && a[..k] == b[..k] && a[k] < b[k]
  }

  lemma {:induction false} AtMostIsLexical(a: string, b: string)
    ensures AtMost(a, b) <==> a <= b || exists k: nat :: SmallerAt(a, b, k)
  {
    if a != "" && b != "" && a[0] == b[0] {
      AtMostIsLexical(a[1..], b[1..]);
      assert a == [a[0]] + a[1..] && b == [b[0]] + b[1..];
      if k: nat :| SmallerAt(a[1..], b[1..], k) {
        assert a[..k + 1] == [a[0]] + a[1..][..k] && b[..k + 1] == [b[0]] + b[1..][..k];
        assert SmallerAt(a, b, k + 1);
      }
      if k: nat :| SmallerAt(a, b, k) {
        assert a[1..][..k - 1] == a[..k][1..] && b[1..][..k - 1] == b[..k][1..];
        assert SmallerAt(a[1..], b[1..], k - 1);
      }
    } else if a != "" && b != "" && a[0] < b[0] {
      assert SmallerAt(a, b, 0);
    } else {
      forall k: nat | SmallerAt(a, b, k) ensures k == 0 || a[0] == b[0] { DiffersAt(a, b, k); }
    }
  }

  lemma DiffersAt(a: string, b: string, k: nat)
    requires SmallerAt(a, b, k)
    ensures k == 0 || a[0] == b[0]
  {
    if k > 0 { assert a[..k][0] == b[..k][0]; }
  }

  function Insert<T>(x: T, sorted: seq<T>, path: T -> string): seq<T> {
    if sorted == [] || AtMost(path(x), path(sorted[0])) then [x] + sorted
    else [sorted[0]] + Insert(x, sorted[1..], path)
  }

  /** `list.sort` by path; the order of equal paths is kept. */
  function SortByPath<T>(items: seq<T>, path: T -> string): seq<T> {
    if items == [] then [] else Insert(items[0], SortByPath(items[1..], path), path)
  }

  lemma {:induction false} InsertKeeps<T>(x: T, sorted: seq<T>, path: T -> string)
    ensures multiset(Insert(x, sorted, path)) == multiset([x] + sorted)
  {
    if sorted != [] && !AtMost(path(x), path(sorted[0])) {
      InsertKeeps(x, sorted[1..], path);
      assert sorted == [sorted[0]] + sorted[1..];
    }
  }

  lemma {:induction false} SortKeeps<T>(items: seq<T>, path: T -> string)
    ensures multiset(SortByPath(items, path)) == multiset(items)
  {
    if items != [] {
      SortKeeps(items[1..], path);
      InsertKeeps(items[0], SortByPath(items[1..], path), path);
      assert items == [items[0]] + items[1..];
    }
  }

  function WithPath<T>(items: seq<T>, p: string, path: T -> string): seq<T> {
    if items == [] then []
    else (if path(items[0]) == p then [items[0]] else []) + WithPath(items[1..], p, path)
  }

  lemma {:induction false} AtMostItself(a: string)
    ensures AtMost(a, a)
  {
    if a != "" { AtMostItself(a[1..]); }
  }

  lemma {:induction false} InsertIsStable<T>(x: T, sorted: seq<T>, p: string, path: T -> string)
    ensures WithPath(Insert(x, sorted, path), p, path) == WithPath([x] + sorted, p, path)
  {
    assert ([x] + sorted)[1..] == sorted;
    if sorted != [] && !AtMost(path(x), path(sorted[0])) {
      AtMostItself(path(x));
      InsertIsStable(x, sorted[1..], p, path);
      var rest := Insert(x, sorted[1..], path);
      assert ([sorted[0]] + rest)[1..] == rest;
      assert ([x] + sorted[1..])[1..] == sorted[1..];
      hide AtMost, Insert;
    }
  }

  /** Items with equal paths stay in their order. */
  lemma {:induction false} SortIsStable<T>(items: seq<T>, p: string, path: T -> string)
    ensures WithPath(SortByPath(items, path), p, path) == WithPath(items, p, path)
  {
    if items != [] {
      SortIsStable(items[1..], p, path);
      InsertIsStable(items[0], SortByPath(items[1..], path), p, path);
      assert ([items[0]] + SortByPath(items[1..], path))[1..] == SortByPath(items[1..], path);
    }
  }

  predicate IsSorted<T>(items: seq<T>, path: T -> string) {
    forall i | 0 < i < |items| :: AtMost(path(items[i - 1]), path(items[i]))
  }

  lemma {:induction false} AtMostIsTotal(a: string, b: string)
    ensures AtMost(a, b) || AtMost(b, a)
  {
    if a != "" && b != "" { AtMostIsTotal(a[1..], b[1..]); }
  }

  lemma {:induction false} InsertIsSorted<T>(x: T, sorted: seq<T>, path: T -> string)
    requires IsSorted(sorted, path)
    ensures IsSorted(Insert(x, sorted, path), path)
    ensures Insert(x, sorted, path)[0] == x || (sorted != [] && Insert(x, sorted, path)[0] == sorted[0])
  {
    if sorted != [] && !AtMost(path(x), path(sorted[0])) {
      AtMostIsTotal(path(x), path(sorted[0]));
      assert forall i | 0 < i < |sorted[1..]| :: AtMost(path(sorted[i]), path(sorted[i + 1]));
      InsertIsSorted(x, sorted[1..], path);
    }
  }

  lemma {:induction false} SortIsSorted<T>(items: seq<T>, path: T -> string)
    ensures IsSorted(SortByPath(items, path), path)
  {
    if items != [] {
      SortIsSorted(items[1..], path);
      InsertIsSorted(items[0], SortByPath(items[1..], path), path);
    }
  }

  // ---------------------------------------------------------------------------------------
  // Pins and records

  datatype Member = Member(path: string, bytes: nat, sha256: string, url: string)

  /** The parts of a pin that decide files, sizes and source. The empty path stands for an absent one. */
  datatype Pin =
    | ArchivePin(members: seq<Member>, archiveBytes: nat)
    | FilesPin(members: seq<Member>)
    | MembersPin(members: seq<Member>, primary: Primary, temporary: Option<nat>)
    | OutputsPin(outputs: seq<FileSpec>, primary: Primary, inputs: seq<ConvertInput>, temporary: Option<nat>)
    | RegistryPin(members: seq<Member>, manifestBytes: nat)

  function MemberFiles(members: seq<Member>): seq<FileSpec> {
    if members == [] then []
    else [FileSpec(members[0].path, members[0].bytes, members[0].sha256)] + MemberFiles(members[1..])
  }

  /** The fetched members: all of them, or all but the one at `skipped`. */
  function MemberFetches(members: seq<Member>, skipped: Option<string>): seq<FetchSpec> {
    if members == [] then []
    else
      (if skipped == Some(members[0].path) then [] else [FetchSpec(members[0].path, members[0].url)])
        + MemberFetches(members[1..], skipped)
  }

  function InputBytes(inputs: seq<ConvertInput>): nat {
    if inputs == [] then 0 else inputs[0].bytes + InputBytes(inputs[1..])
  }

  function FilePath(): FileSpec -> string { (f: FileSpec) => f.path }
  function FetchPath(): FetchSpec -> string { (f: FetchSpec) => f.path }
  function InputPath(): ConvertInput -> string { (i: ConvertInput) => i.path }

  /** The files that a pin lists, before the notices. */
  function Listed(pin: Pin): seq<FileSpec> {
    if pin.OutputsPin? then pin.outputs else MemberFiles(pin.members)
  }

  function RecordFiles(pin: Pin, notices: seq<FileSpec>): seq<FileSpec> {
    SortByPath(Listed(pin) + notices, FilePath())
  }

  lemma {:induction false} MemberFilesJoin(members: seq<Member>, m: Member)
    ensures MemberFiles(members + [m]) == MemberFiles(members) + [FileSpec(m.path, m.bytes, m.sha256)]
  {
    if members == [] {
      assert members + [m] == [m];
    } else {
      MemberFilesJoin(members[1..], m);
      assert (members + [m])[1..] == members[1..] + [m];
    }
  }

  /** The list of a record's files, appended to, extended and sorted in place. */
  method ListFiles(pin: Pin, notices: seq<FileSpec>) returns (files: seq<FileSpec>)
    ensures files == RecordFiles(pin, notices)
  {
    files := [];
    if pin.OutputsPin? {
      files := pin.outputs;
    } else {
      for i := 0 to |pin.members|
        invariant files == MemberFiles(pin.members[..i])
      {
        var item := pin.members[i];
        MemberFilesJoin(pin.members[..i], item);
        assert pin.members[..i + 1] == pin.members[..i] + [item];
        files := files + [FileSpec(item.path, item.bytes, item.sha256)];
      }
      assert pin.members[..|pin.members|] == pin.members;
    }
    files := files + notices;
    files := SortByPath(files, FilePath());
  }

  function Download(pin: Pin): nat {
    match pin
    case ArchivePin(_, n) => n
    case FilesPin(ms) => TotalBytes(MemberFiles(ms))
    case MembersPin(ms, _, _) => TotalBytes(MemberFiles(ms))
    case OutputsPin(_, p, inputs, _) => p.bytes + InputBytes(SortByPath(inputs, InputPath()))
    case RegistryPin(_, n) => n
  }

  function ConvertSource(template: Source, p: Primary): Source {
    template.(mode := CONVERT, convertUrl := p.url, convertBytes := p.bytes, convertSha256 := p.sha256,
              convertInputPath := p.path)
  }

  /** The source of a record; `template` has the fields that are copied from the pin as they are. */
  function RecordSource(pin: Pin, template: Source): Source {
    match pin
    case ArchivePin(_, n) => template.(mode := ARCHIVE, archiveBytes := n)
    case FilesPin(ms) => template.(mode := FILES, fetch := SortByPath(MemberFetches(ms, None), FetchPath()))
    case MembersPin(ms, p, _) =>
      ConvertSource(template, p).(
        convertInputs := [], fetch := SortByPath(MemberFetches(ms, Some(p.path)), FetchPath()))
    case OutputsPin(_, p, inputs, _) =>
      ConvertSource(template, p).(convertInputs := SortByPath(inputs, InputPath()), fetch := [])
    case RegistryPin(ms, _) => template.(mode := REGISTRY, blobs := SortByPath(MemberFetches(ms, None), FetchPath()))
  }

  function Temporary(pin: Pin, download: nat, installed: nat): Option<nat> {
    match pin
    case FilesPin(_) => Some(installed)
    case MembersPin(_, _, Some(n)) => if n < download + installed then None else Some(n)
    case OutputsPin(_, _, _, Some(n)) => if n < download + installed then None else Some(n)
    case _ => Some(download + installed)
  }

  /** `build_from_pin`. None is a refusal: a missing primary path, or an override below the floor. */
  function Build(pin: Pin, notices: seq<FileSpec>, template: Spec): Option<Spec> {
    var files := RecordFiles(pin, notices);
    :- Require(pin.MembersPin? && pin.members != [] ==> pin.primary.path != "");
    var installed := TotalBytes(files);
    var temporary :- Temporary(pin, Download(pin), installed);
    Some(template.(files := files, source := RecordSource(pin, template.source),
                   amounts := Amounts(Download(pin), installed, temporary)))
  }

  // ---------------------------------------------------------------------------------------
  // The parser's cross-field checks

  predicate CrossChecks(s: Spec) {
    && Distinct(Paths(s.files))
    && s.amounts.installed == TotalBytes(s.files)
    && (s.source.mode == ARCHIVE ==> s.amounts.download == s.source.archiveBytes)
    && (s.source.mode == FILES ==> PathSet(FetchPaths(s.source.fetch)) == ContentPaths(s.files))
    && (s.source.mode == CONVERT ==>
          ConvertLayout(s.files, s.source.convertInputPath, s.source.convertBytes, s.source.convertSha256,
                        s.source.convertInputs, s.source.fetch))
    && (s.source.mode == REGISTRY ==> PathSet(FetchPaths(s.source.blobs)) == ContentPaths(s.files))
  }

  /** Every record that is parsed meets them. */
  lemma ParsedMeetsChecks(u: UrlRules, allowFile: bool, v: Json)
    requires ParseSpec(u, allowFile, v).Some?
    ensures CrossChecks(ParseSpec(u, allowFile, v).value)
  {
    hide ParseFiles, ParseLicenses, ParseProvenance, ParseFetches, ParseInputs, ParseConversion, ParsePrimary, Paths,
         FetchPaths, ContentPaths, TotalBytes, ConvertLayout, ParseSource;
    var s := ParseSpec(u, allowFile, v).value;
    ParsedSourceMeetsChecks(u, allowFile,
      Head(s.assetId, s.provider, s.version, s.consumer.schema, s.licenses[0].id, s.files, s.amounts.download),
      Get(v, SourceKey));
  }

  lemma ParsedSourceMeetsChecks(u: UrlRules, allowFile: bool, h: Head, v: Json)
    requires ParseSource(u, allowFile, h, v).Some?
    ensures var s := ParseSource(u, allowFile, h, v).value;
      && (s.mode == ARCHIVE ==> h.downloadBytes == s.archiveBytes)
      && (s.mode == FILES ==> PathSet(FetchPaths(s.fetch)) == ContentPaths(h.files))
      && (s.mode == CONVERT ==>
            ConvertLayout(h.files, s.convertInputPath, s.convertBytes, s.convertSha256, s.convertInputs, s.fetch))
      && (s.mode == REGISTRY ==> PathSet(FetchPaths(s.blobs)) == ContentPaths(h.files))
  {
    hide ParseProvenance, ParseFetches, ParseInputs, ParseConversion, ParsePrimary, FetchPaths, ContentPaths,
         ConvertLayout, ParseUrl, OwnedBy, ByteCount, ExactHex, Text;
    ModesDiffer();
  }

  // ---------------------------------------------------------------------------------------
  // What sorting and appending keep

  lemma DistinctCons(x: string, rest: seq<string>)
    ensures Distinct([x] + rest) <==> x !in rest && Distinct(rest)
  {
    var s := [x] + rest;
    if Distinct(s) {
      forall i, j | 0 <= i < j < |rest| ensures rest[i] != rest[j] {
        assert s[i + 1] == rest[i] && s[j + 1] == rest[j];
      }
      forall j | 0 <= j < |rest| ensures rest[j] != x {
        assert s[0] == x && s[j + 1] == rest[j];
      }
    }
  }

  ghost predicate OnceEach(m: multiset<string>) {
    forall x | x in m :: m[x] == 1
  }

  lemma {:induction false} DistinctByCount(s: seq<string>)
    ensures Distinct(s) <==> OnceEach(multiset(s))
  {
    if s != [] {
      var x, rest := s[0], s[1..];
      DistinctByCount(rest);
      DistinctCons(x, rest);
      assert s == [x] + rest;
      hide Distinct;
      assert multiset(s) == multiset{x} + multiset(rest);
      if OnceEach(multiset(s)) {
        forall y | y in multiset(rest) ensures multiset(rest)[y] == 1 {
          assert multiset(s)[y] == 1;
        }
        assert multiset(s)[x] == 1;
      }
    }
  }

  lemma {:induction false} InsertFile(x: FileSpec, sorted: seq<FileSpec>)
    ensures multiset(Paths(Insert(x, sorted, FilePath()))) == multiset{x.path} + multiset(Paths(sorted))
    ensures TotalBytes(Insert(x, sorted, FilePath())) == x.bytes + TotalBytes(sorted)
  {
    var r := Insert(x, sorted, FilePath());
    if sorted == [] || AtMost(x.path, sorted[0].path) {
      assert r == [x] + sorted && r[1..] == sorted;
    } else {
      InsertFile(x, sorted[1..]);
      assert r[1..] == Insert(x, sorted[1..], FilePath());
    }
  }

  lemma {:induction false} SortFiles(files: seq<FileSpec>)
    ensures multiset(Paths(SortByPath(files, FilePath()))) == multiset(Paths(files))
    ensures TotalBytes(SortByPath(files, FilePath())) == TotalBytes(files)
  {
    if files != [] {
      SortFiles(files[1..]);
      InsertFile(files[0], SortByPath(files[1..], FilePath()));
    }
  }

  lemma {:induction false} InsertFetch(x: FetchSpec, sorted: seq<FetchSpec>)
    ensures multiset(FetchPaths(Insert(x, sorted, FetchPath()))) == multiset{x.path} + multiset(FetchPaths(sorted))
  {
    var r := Insert(x, sorted, FetchPath());
    if sorted == [] || AtMost(x.path, sorted[0].path) {
      assert r == [x] + sorted && r[1..] == sorted;
    } else {
      InsertFetch(x, sorted[1..]);
      assert r[1..] == Insert(x, sorted[1..], FetchPath());
    }
  }

  lemma {:induction false} SortFetches(fetches: seq<FetchSpec>)
    ensures multiset(FetchPaths(SortByPath(fetches, FetchPath()))) == multiset(FetchPaths(fetches))
  {
    if fetches != [] {
      SortFetches(fetches[1..]);
      InsertFetch(fetches[0], SortByPath(fetches[1..], FetchPath()));
    }
  }

  lemma {:induction false} InsertInput(x: ConvertInput, sorted: seq<ConvertInput>)
    ensures multiset(InputPaths(Insert(x, sorted, InputPath()))) == multiset{x.path} + multiset(InputPaths(sorted))
  {
    var r := Insert(x, sorted, InputPath());
    if sorted == [] || AtMost(x.path, sorted[0].path) {
      assert r == [x] + sorted && r[1..] == sorted;
    } else {
      InsertInput(x, sorted[1..]);
      assert r[1..] == Insert(x, sorted[1..], InputPath());
    }
  }

  lemma {:induction false} SortInputs(inputs: seq<ConvertInput>)
    ensures multiset(InputPaths(SortByPath(inputs, InputPath()))) == multiset(InputPaths(inputs))
  {
    if inputs != [] {
      SortInputs(inputs[1..]);
      InsertInput(inputs[0], SortByPath(inputs[1..], InputPath()));
    }
  }

  lemma {:induction false} PathsJoin(a: seq<FileSpec>, b: seq<FileSpec>)
    ensures Paths(a + b) == Paths(a) + Paths(b)
  {
    if a == [] {
      assert a + b == b;
    } else {
      PathsJoin(a[1..], b);
      assert (a + b)[1..] == a[1..] + b;
    }
  }

  lemma {:induction false} PathOf(files: seq<FileSpec>, p: string)
    ensures p in Paths(files) <==> exists f :: f in files && f.path == p
  {
    if files != [] {
      PathOf(files[1..], p);
      assert files == [files[0]] + files[1..];
    }
  }

  lemma {:induction false} FetchedMembers(members: seq<Member>, skipped: Option<string>, p: string)
    ensures p in FetchPaths(MemberFetches(members, skipped)) <==> p in Paths(MemberFiles(members)) && skipped != Some(p)
  {
    if members != [] {
      FetchedMembers(members[1..], skipped, p);
      var files, fetches := MemberFiles(members), MemberFetches(members, skipped);
      assert files[1..] == MemberFiles(members[1..]);
      if skipped != Some(members[0].path) {
        assert fetches[1..] == MemberFetches(members[1..], skipped);
      } else {
        assert fetches == MemberFetches(members[1..], skipped);
      }
    }
  }

  // ---------------------------------------------------------------------------------------
  // Which pins give a record that the parser's cross-field checks accept

  /** All paths of the record differ. */
  predicate PathsDiffer(pin: Pin, notices: seq<FileSpec>) {
    Distinct(Paths(Listed(pin)) + Paths(notices))
  }

  /** What is listed lies outside the notice tree, and the notices inside it. */
  predicate Apart(pin: Pin, notices: seq<FileSpec>) {
    && (forall p | p in Paths(Listed(pin)) :: !IsNotice(p))
    && (forall p | p in Paths(notices) :: IsNotice(p))
  }

  predicate HasFile(files: seq<FileSpec>, p: Primary) {
    exists f | f in files :: f.path == p.path && f.bytes == p.bytes && Str(f.sha256) == p.sha256
  }

  /** What a convert pin's layout asks beyond distinct paths. */
  predicate LayoutFits(pin: Pin, notices: seq<FileSpec>)
    requires pin.MembersPin? || pin.OutputsPin?
  {
    var path, listed, extra := pin.primary.path, Paths(Listed(pin)), Paths(notices);
    if pin.OutputsPin? && pin.inputs != [] then
      && IsInputName(path)
      && Distinct([path] + InputPaths(pin.inputs))
      && forall p | p in [path] + InputPaths(pin.inputs) :: p !in listed && p !in extra
    else if path != "" then
      && !IsNotice(path)
      && (forall p | p in listed :: if pin.MembersPin? then !IsNotice(p) else IsNotice(p) || p == path)
      && (forall p | p in extra :: IsNotice(p) || p == path)
      && HasFile(Listed(pin) + notices, pin.primary)
    else true
  }

  predicate Fits(pin: Pin, notices: seq<FileSpec>) {
    && PathsDiffer(pin, notices)
    && match pin
       case ArchivePin(_, _) => true
       case FilesPin(_) => Apart(pin, notices)
       case RegistryPin(_, _) => Apart(pin, notices)
       case _ => LayoutFits(pin, notices)
  }

  lemma RecordPaths(pin: Pin, notices: seq<FileSpec>)
    ensures multiset(Paths(RecordFiles(pin, notices))) == multiset(Paths(Listed(pin)) + Paths(notices))
    ensures Distinct(Paths(RecordFiles(pin, notices))) <==> PathsDiffer(pin, notices)
    ensures forall p: string :: p in Paths(RecordFiles(pin, notices)) <==> p in Paths(Listed(pin)) + Paths(notices)
  {
    SortFiles(Listed(pin) + notices);
    PathsJoin(Listed(pin), notices);
    var a, b := Paths(RecordFiles(pin, notices)), Paths(Listed(pin)) + Paths(notices);
    forall p: string ensures p in a <==> p in b {
      assert p in a <==> p in multiset(a);
      assert p in b <==> p in multiset(b);
    }
    DistinctByCount(a);
    DistinctByCount(b);
  }

  lemma HalvesDiffer<T>(a: seq<T>, b: seq<T>, x: T)
    requires Distinct(a + b) && x in a
    ensures x !in b
  {
    var i :| 0 <= i < |a| && a[i] == x;
    forall j | 0 <= j < |b| ensures b[j] != x {
      assert (a + b)[i] == x && (a + b)[|a| + j] == b[j];
    }
  }

  /** With distinct paths, the members are the content of the tree exactly if they lie apart from the notices. */
  lemma ContentIsMembers(pin: Pin, notices: seq<FileSpec>, fetched: set<string>)
    requires PathsDiffer(pin, notices)
    requires forall p: string :: p in fetched <==> p in Paths(Listed(pin))
    ensures fetched == ContentPaths(RecordFiles(pin, notices)) <==> Apart(pin, notices)
  {
    RecordPaths(pin, notices);
    hide RecordFiles;
    var listed, extra := Paths(Listed(pin)), Paths(notices);
    var content := ContentPaths(RecordFiles(pin, notices));
    forall p: string ensures p in content <==> (p in listed || p in extra) && !IsNotice(p) {
      assert p in listed + extra <==> p in listed || p in extra;
    }
    forall p | p in listed ensures p !in extra {
      HalvesDiffer(listed, extra, p);
    }
  }

  /** What is left of the checks in each mode. */
  lemma ChecksByMode(s: Spec)
    ensures s.source.mode == ARCHIVE ==>
              (CrossChecks(s) <==> Distinct(Paths(s.files)) && s.amounts.installed == TotalBytes(s.files)
                                   && s.amounts.download == s.source.archiveBytes)
    ensures s.source.mode == FILES ==>
              (CrossChecks(s) <==> Distinct(Paths(s.files)) && s.amounts.installed == TotalBytes(s.files)
                                   && PathSet(FetchPaths(s.source.fetch)) == ContentPaths(s.files))
    ensures s.source.mode == REGISTRY ==>
              (CrossChecks(s) <==> Distinct(Paths(s.files)) && s.amounts.installed == TotalBytes(s.files)
                                   && PathSet(FetchPaths(s.source.blobs)) == ContentPaths(s.files))
    ensures s.source.mode == CONVERT ==>
              (CrossChecks(s) <==> Distinct(Paths(s.files)) && s.amounts.installed == TotalBytes(s.files)
                                   && ConvertLayout(s.files, s.source.convertInputPath, s.source.convertBytes,
                                                    s.source.convertSha256, s.source.convertInputs, s.source.fetch))
  {
  }

  lemma BuiltParts(pin: Pin, notices: seq<FileSpec>, template: Spec)
    requires Build(pin, notices, template).Some?
    ensures var s := Build(pin, notices, template).value;
      && s.files == RecordFiles(pin, notices) && s.source == RecordSource(pin, template.source)
      && s.amounts.installed == TotalBytes(RecordFiles(pin, notices)) && s.amounts.download == Download(pin)
      && (pin.MembersPin? || pin.OutputsPin? || pin.ArchivePin? || pin.RegistryPin? ==>
            s.amounts.download + s.amounts.installed <= s.amounts.temporary)
  {
  }

  /** The fetched paths of a record, sorted. */
  lemma FetchedPaths(members: seq<Member>, skipped: Option<string>)
    ensures var sorted := PathSet(FetchPaths(SortByPath(MemberFetches(members, skipped), FetchPath())));
      forall p: string :: p in sorted <==> p in Paths(MemberFiles(members)) && skipped != Some(p)
  {
    var fetches := MemberFetches(members, skipped);
    SortFetches(fetches);
    var sorted := FetchPaths(SortByPath(fetches, FetchPath()));
    forall p: string ensures p in PathSet(sorted) <==> p in Paths(MemberFiles(members)) && skipped != Some(p) {
      FetchedMembers(members, skipped, p);
      assert p in sorted <==> p in multiset(sorted);
      assert p in FetchPaths(fetches) <==> p in multiset(FetchPaths(fetches));
    }
  }

  /**
   The record of an archive, files or registry pin meets the cross-field checks exactly if its paths
   differ and, in the latter two, its members lie apart from its notices.
   */
  lemma BuiltMeetsChecks(pin: Pin, notices: seq<FileSpec>, template: Spec)
    requires !pin.MembersPin? && !pin.OutputsPin?
    ensures Build(pin, notices, template).Some?
    ensures CrossChecks(Build(pin, notices, template).value) <==> Fits(pin, notices)
  {
    BuiltParts(pin, notices, template);
    ChecksByMode(Build(pin, notices, template).value);
    RecordPaths(pin, notices);
    hide RecordFiles, ContentPaths, FetchPaths, Paths, TotalBytes, PathsDiffer, Apart, CrossChecks, Build, Distinct,
         MemberFiles, MemberFetches, SortByPath;
    if !pin.ArchivePin? && PathsDiffer(pin, notices) {
      FetchedPaths(pin.members, None);
      ContentIsMembers(pin, notices, PathSet(FetchPaths(SortByPath(MemberFetches(pin.members, None), FetchPath()))));
    }
  }

  lemma RecordHas(pin: Pin, notices: seq<FileSpec>, p: Primary)
    ensures Lists(RecordFiles(pin, notices), p.path, p.bytes, p.sha256) <==> HasFile(Listed(pin) + notices, p)
    ensures HasFile(Listed(pin) + notices, p) ==> p.path in Paths(Listed(pin)) || p.path in Paths(notices)
  {
    var all, files := Listed(pin) + notices, RecordFiles(pin, notices);
    SortKeeps(all, FilePath());
    assert forall f: FileSpec :: f in files <==> f in multiset(files);
    assert forall f: FileSpec :: f in all <==> f in multiset(all);
    if HasFile(all, p) {
      var f :| f in all && f.path == p.path && f.bytes == p.bytes && Str(f.sha256) == p.sha256;
      assert f in files;
      PathOf(all, p.path);
      PathsJoin(Listed(pin), notices);
    }
    if Lists(files, p.path, p.bytes, p.sha256) {
      var i :|
        0 <= i < |files| && files[i].path == p.path && files[i].bytes == p.bytes && Str(files[i].sha256) == p.sha256;
      assert files[i] in files;
    }
  }

  /** The set that a members layout compares, in terms of what is listed and what is added. */
  lemma LayoutSets(fetched: set<string>, content: set<string>, listed: set<string>, extra: set<string>, path: string,
                   members: bool)
    requires path in listed + extra && listed !! extra
    requires fetched == if members then listed - {path} else {}
    requires forall p :: p in content <==> p in listed + extra && !IsNotice(p)
    ensures fetched + {path} == content <==>
              && !IsNotice(path)
              && (forall p | p in listed :: if members then !IsNotice(p) else IsNotice(p) || p == path)
              && (forall p | p in extra :: IsNotice(p) || p == path)
  {
  }

  /** Where a convert pin's input files are to be the tree's content. */
  lemma MembersLayout(pin: Pin, notices: seq<FileSpec>, fetched: set<string>)
    requires (pin.MembersPin? || pin.OutputsPin?) && pin.primary.path != "" && PathsDiffer(pin, notices)
    requires pin.MembersPin? ==>
               forall p: string :: p in fetched <==> p in Paths(Listed(pin)) && p != pin.primary.path
    requires pin.OutputsPin? ==> pin.inputs == [] && fetched == {}
    ensures fetched + {pin.primary.path} == ContentPaths(RecordFiles(pin, notices))
              && Lists(RecordFiles(pin, notices), pin.primary.path, pin.primary.bytes, pin.primary.sha256)
       <==> LayoutFits(pin, notices)
  {
    RecordHas(pin, notices, pin.primary);
    if HasFile(Listed(pin) + notices, pin.primary) {
      ContentOfRecord(pin, notices);
      hide RecordFiles, Lists, HasFile, Paths, IsNotice, Listed, PathsDiffer, ContentPaths;
      var listed, extra := PathSet(Paths(Listed(pin))), PathSet(Paths(notices));
      assert fetched == if pin.MembersPin? then listed - {pin.primary.path} else {};
      LayoutSets(fetched, ContentPaths(RecordFiles(pin, notices)), listed, extra, pin.primary.path, pin.MembersPin?);
    }
  }

  lemma ContentOfRecord(pin: Pin, notices: seq<FileSpec>)
    requires PathsDiffer(pin, notices)
    ensures var listed, extra := PathSet(Paths(Listed(pin))), PathSet(Paths(notices));
      && listed !! extra
      && forall p :: p in ContentPaths(RecordFiles(pin, notices)) <==> p in listed + extra && !IsNotice(p)
  {
    RecordPaths(pin, notices);
    hide RecordFiles, Paths, IsNotice, Listed, Distinct;
    var listed, extra := Paths(Listed(pin)), Paths(notices);
    forall p: string ensures p in listed + extra <==> p in PathSet(listed) + PathSet(extra) {
    }
    forall p | p in listed ensures p !in extra {
      HalvesDiffer(listed, extra, p);
    }
  }

  lemma SortedInputs(inputs: seq<ConvertInput>, path: string)
    ensures var a, b := [path] + InputPaths(SortByPath(inputs, InputPath())), [path] + InputPaths(inputs);
      && (Distinct(a) <==> Distinct(b)) && (forall p: string :: p in a <==> p in b)
    ensures SortByPath(inputs, InputPath()) == [] <==> inputs == []
  {
    var sorted := SortByPath(inputs, InputPath());
    SortInputs(inputs);
    SortKeeps(inputs, InputPath());
    var a, b := [path] + InputPaths(sorted), [path] + InputPaths(inputs);
    assert multiset(a) == multiset(b);
    DistinctByCount(a);
    DistinctByCount(b);
    assert forall p: string :: p in a <==> p in multiset(a);
    assert forall p: string :: p in b <==> p in multiset(b);
    if inputs != [] { assert inputs[0] in multiset(inputs) && inputs[0] in multiset(sorted); }
  }

  /** Where a convert pin's inputs are kept out of the tree. */
  lemma InputsLayout(pin: Pin, notices: seq<FileSpec>)
    requires pin.OutputsPin? && pin.inputs != []
    ensures ConvertLayout(RecordFiles(pin, notices), pin.primary.path, pin.primary.bytes, pin.primary.sha256,
                          SortByPath(pin.inputs, InputPath()), [])
       <==> LayoutFits(pin, notices)
  {
    var inputs, path := SortByPath(pin.inputs, InputPath()), pin.primary.path;
    SortedInputs(pin.inputs, path);
    RecordPaths(pin, notices);
    hide RecordFiles, IsInputName, Paths, InputPaths, SortByPath, Distinct;
    var a, files := [path] + InputPaths(inputs), Paths(RecordFiles(pin, notices));
    forall p: string ensures p in files <==> p in Paths(Listed(pin)) || p in Paths(notices) {
      assert p in files <==> p in Paths(Listed(pin)) + Paths(notices);
    }
    assert PathSet(a) !! PathSet(files) <==> forall p | p in a :: p !in files by {
      if PathSet(a) !! PathSet(files) {
        forall p | p in a ensures p !in files { assert p in PathSet(a); }
      }
    }
  }

  /** The record of a convert pin, if it is built, meets the cross-field checks exactly if its layout fits. */
  lemma BuiltConvertMeetsChecks(pin: Pin, notices: seq<FileSpec>, template: Spec)
    requires pin.MembersPin? || pin.OutputsPin?
    requires Build(pin, notices, template).Some?
    ensures CrossChecks(Build(pin, notices, template).value) <==> Fits(pin, notices)
  {
    var s := Build(pin, notices, template).value;
    BuiltParts(pin, notices, template);
    ChecksByMode(s);
    RecordPaths(pin, notices);
    ConvertLayouts(pin, notices, template.source);
    hide RecordFiles, Paths, TotalBytes, PathsDiffer, LayoutFits, CrossChecks, Build, Distinct, ConvertLayout,
         SortByPath, MemberFetches;
  }

  lemma ConvertLayouts(pin: Pin, notices: seq<FileSpec>, template: Source)
    requires pin.MembersPin? || pin.OutputsPin?
    requires pin.MembersPin? && pin.members != [] ==> pin.primary.path != ""
    ensures var s := RecordSource(pin, template);
      PathsDiffer(pin, notices) ==>
        ConvertLayout(RecordFiles(pin, notices), s.convertInputPath, s.convertBytes, s.convertSha256, s.convertInputs,
                      s.fetch) == LayoutFits(pin, notices)
  {
    if PathsDiffer(pin, notices) {
      if pin.OutputsPin? {
        SortedInputs(pin.inputs, "");
        if pin.inputs != [] {
          InputsLayout(pin, notices);
        } else if pin.primary.path != "" {
          MembersLayout(pin, notices, {});
        }
      } else if pin.primary.path != "" {
        FetchedPaths(pin.members, Some(pin.primary.path));
        MembersLayout(pin, notices, PathSet(FetchPaths(SortByPath(MemberFetches(pin.members, Some(pin.primary.path)),
                                                                  FetchPath()))));
      }
    }
    hide RecordFiles, Paths, PathsDiffer, LayoutFits, ContentPaths, Lists, Distinct, IsInputName;
  }

  // ---------------------------------------------------------------------------------------
  // What a record says of its pin

  predicate IsMemberFile(f: FileSpec, m: Member) {
    f == FileSpec(m.path, m.bytes, m.sha256)
  }

  predicate IsMemberFetch(f: FetchSpec, m: Member) {
    f == FetchSpec(m.path, m.url)
  }

  lemma {:induction false} FilesAreMembers(members: seq<Member>)
    ensures |MemberFiles(members)| == |members|
    ensures forall i | 0 <= i < |members| :: IsMemberFile(MemberFiles(members)[i], members[i])
  {
    if members != [] {
      FilesAreMembers(members[1..]);
      var files := MemberFiles(members);
      forall i | 0 <= i < |members| ensures IsMemberFile(files[i], members[i]) {
        if i > 0 { assert files[i] == MemberFiles(members[1..])[i - 1] && members[i] == members[1..][i - 1]; }
      }
    }
  }

  /** What the pin fetches: all of its members, or all but its primary input. */
  predicate IsFetched(pin: Pin, m: Member)
    requires !pin.OutputsPin?
  {
    m in pin.members && (pin.MembersPin? ==> m.path != pin.primary.path)
  }

  lemma {:induction false} FetchesAreMembers(members: seq<Member>, skipped: Option<string>, f: FetchSpec)
    ensures f in MemberFetches(members, skipped)
       <==> exists m :: m in members && IsMemberFetch(f, m) && skipped != Some(m.path)
  {
    if members != [] {
      FetchesAreMembers(members[1..], skipped, f);
      var first, rest := members[0], members[1..];
      assert members == [first] + rest;
      var head := if skipped == Some(first.path) then [] else [FetchSpec(first.path, first.url)];
      assert f in MemberFetches(members, skipped) <==> f in head || f in MemberFetches(rest, skipped);
      hide MemberFetches;
      if f in head { assert first in members && IsMemberFetch(f, first); }
      if m :| m in rest && IsMemberFetch(f, m) && skipped != Some(m.path) { assert m in members; }
      if m :| m in members && IsMemberFetch(f, m) && skipped != Some(m.path) {
        if m != first { assert m in rest; }
      }
    }
  }

  lemma SortHas<T>(items: seq<T>, path: T -> string, x: T)
    ensures x in SortByPath(items, path) <==> x in items
    ensures |SortByPath(items, path)| == |items|
  {
    SortKeeps(items, path);
    assert x in SortByPath(items, path) <==> x in multiset(SortByPath(items, path));
    assert x in items <==> x in multiset(items);
    assert |SortByPath(items, path)| == |multiset(SortByPath(items, path))| == |multiset(items)|;
  }

  /** Where the record of a pin keeps what it fetches. */
  function FetchesOf(s: Source): seq<FetchSpec> {
    if s.mode == REGISTRY then s.blobs else s.fetch
  }

  /** The record fetches each member that the pin fetches from the member's own URL, and nothing else. */
  lemma RecordFetchesMembers(pin: Pin, template: Source, f: FetchSpec)
    requires pin.FilesPin? || pin.MembersPin? || pin.RegistryPin?
    ensures f in FetchesOf(RecordSource(pin, template)) <==> exists m :: IsFetched(pin, m) && IsMemberFetch(f, m)
  {
    ModesDiffer();
    var skipped := if pin.MembersPin? then Some(pin.primary.path) else None;
    FetchesAreMembers(pin.members, skipped, f);
    SortHas(MemberFetches(pin.members, skipped), FetchPath(), f);
    hide ARCHIVE, FILES, CONVERT, REGISTRY, SortByPath, MemberFetches, IsMemberFetch;
    if m :| m in pin.members && IsMemberFetch(f, m) && skipped != Some(m.path) { assert IsFetched(pin, m); }
    if m :| IsFetched(pin, m) && IsMemberFetch(f, m) { assert m in pin.members; }
  }

  /** It lists each member, or each output, and each notice, with its size and digest, and nothing else. */
  lemma RecordListsFiles(pin: Pin, notices: seq<FileSpec>, f: FileSpec)
    ensures f in RecordFiles(pin, notices)
       <==> || f in notices
            || if pin.OutputsPin? then f in pin.outputs else exists m :: m in pin.members && IsMemberFile(f, m)
  {
    SortHas(Listed(pin) + notices, FilePath(), f);
    if !pin.OutputsPin? {
      FilesAreMembers(pin.members);
      if f in MemberFiles(pin.members) {
        var i :| 0 <= i < |pin.members| && MemberFiles(pin.members)[i] == f;
        assert pin.members[i] in pin.members && IsMemberFile(f, pin.members[i]);
      }
      if m :| m in pin.members && IsMemberFile(f, m) {
        var i :| 0 <= i < |pin.members| && pin.members[i] == m;
        assert MemberFiles(pin.members)[i] == f;
      }
    }
  }

  lemma {:induction false} InsertBytes(x: ConvertInput, sorted: seq<ConvertInput>)
    ensures InputBytes(Insert(x, sorted, InputPath())) == x.bytes + InputBytes(sorted)
  {
    var r := Insert(x, sorted, InputPath());
    if sorted == [] || AtMost(x.path, sorted[0].path) {
      assert r == [x] + sorted && r[1..] == sorted;
    } else {
      InsertBytes(x, sorted[1..]);
      assert r[1..] == Insert(x, sorted[1..], InputPath());
    }
  }

  lemma {:induction false} SortBytes(inputs: seq<ConvertInput>)
    ensures InputBytes(SortByPath(inputs, InputPath())) == InputBytes(inputs)
  {
    if inputs != [] {
      SortBytes(inputs[1..]);
      InsertBytes(inputs[0], SortByPath(inputs[1..], InputPath()));
    }
  }

  lemma {:induction false} TotalJoin(a: seq<FileSpec>, b: seq<FileSpec>)
    ensures TotalBytes(a + b) == TotalBytes(a) + TotalBytes(b)
  {
    if a == [] {
      assert a + b == b;
    } else {
      TotalJoin(a[1..], b);
      assert (a + b)[1..] == a[1..] + b;
    }
  }

  /** What is downloaded: the archive, the manifest, the inputs, or everything that is installed but the notices. */
  function DownloadedBytes(pin: Pin): nat {
    match pin
    case ArchivePin(_, n) => n
    case RegistryPin(_, n) => n
    case OutputsPin(_, p, inputs, _) => p.bytes + InputBytes(inputs)
    case _ => TotalBytes(Listed(pin))
  }

  /** The room that an installation takes at most: both the download and the files, unless they are the same files. */
  function Floor(pin: Pin, notices: seq<FileSpec>): nat {
    var installed := TotalBytes(Listed(pin)) + TotalBytes(notices);
    if pin.FilesPin? then installed else DownloadedBytes(pin) + installed
  }

  /** A convert pin may ask for more room than that. */
  function Override(pin: Pin): Option<nat> {
    if pin.MembersPin? || pin.OutputsPin? then pin.temporary else None
  }

  /** A convert pin with members must say which of them is its input. */
  predicate NamesItsInput(pin: Pin) {
    pin.MembersPin? && pin.members != [] ==> pin.primary.path != ""
  }

  /**
   A record is built exactly if its pin names its input and asks for no less room than is needed; its sizes are
   the downloaded bytes, all listed bytes, and the room asked for or needed.
   */
  lemma BuildsExactly(pin: Pin, notices: seq<FileSpec>, template: Spec)
    ensures Build(pin, notices, template).Some?
       <==> NamesItsInput(pin) && (Override(pin).Some? ==> Override(pin).value >= Floor(pin, notices))
    ensures Build(pin, notices, template).Some? ==>
              Build(pin, notices, template).value.amounts
              == Amounts(DownloadedBytes(pin), TotalBytes(Listed(pin)) + TotalBytes(notices),
                         match Override(pin) case Some(n) => n case None => Floor(pin, notices))
  {
    SortFiles(Listed(pin) + notices);
    TotalJoin(Listed(pin), notices);
    if pin.OutputsPin? { SortBytes(pin.inputs); }
    hide TotalBytes, SortByPath, MemberFiles, InputBytes, RecordSource;
  }
}
