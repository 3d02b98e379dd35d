/**
 What the checks of a parsed record come to: where each installed file is from, which names a converter's inputs
 may have, what streams there are, and which entries of a catalog need a binary.
 */
module RecordMeaning {
  import opened Common
  import opened Json
  import opened AssetSpec
  import Catalog
  import Generator
  import RelativePath

  // ---------------------------------------------------------------------------------------
  // Where installed files are from

  /** The file is fetched from a URL of its own. */
  predicate IsFetched(fetch: seq<FetchSpec>, path: string) {
    exists f | f in fetch :: f.path == path
  }

  /** The file is the converter's primary input, as it is downloaded. */
  predicate IsPrimary(s: Source, path: string) {
    path != "" && path == s.convertInputPath
  }

  /** The converter makes the files; what it is given is not installed. */
  predicate IsConverted(s: Source) {
    s.mode == CONVERT && (s.convertInputs != [] || (s.convertInputPath == "" && s.fetch == []))
  }

  /** A file that the record lists and that is no licence notice. */
  predicate IsContent(s: Spec, path: string) {
    !("notices/" <= path) && exists f | f in s.files :: f.path == path
  }

  /** The listed files of a record that is downloaded file by file, and how each of them is got. */
  ghost predicate OriginsFit(s: Spec) {
    && (s.source.mode == FILES ==> forall path :: IsContent(s, path) <==> IsFetched(s.source.fetch, path))
    && (s.source.mode == REGISTRY ==> forall path :: IsContent(s, path) <==> IsFetched(s.source.blobs, path))
    && (s.source.mode == CONVERT && !IsConverted(s.source) ==>
          && (forall path :: IsContent(s, path) <==> IsFetched(s.source.fetch, path) || IsPrimary(s.source, path))
          && (forall path :: !(IsFetched(s.source.fetch, path) && IsPrimary(s.source, path)))
          && (s.source.convertInputPath != "" ==> PrimaryIsListed(s)))
    && (s.source.mode == CONVERT && s.source.convertInputs != [] ==>
          s.source.fetch == [] && forall f | f in s.files :: !IsInput(s.source, f.path))
  }

  /** The file is one of those that the converter is given in a directory. */
  predicate IsInput(s: Source, path: string) {
    path == s.convertInputPath || exists i | i in s.convertInputs :: i.path == path
  }

  /** The record lists the primary input with the size and the digest that it is downloaded with. */
  predicate PrimaryIsListed(s: Spec) {
    exists f | f in s.files ::
      f.path == s.source.convertInputPath && f.bytes == s.source.convertBytes && Str(f.sha256) == s.source.convertSha256
  }

  lemma {:induction false} InputPathsAreInputs(inputs: seq<ConvertInput>, path: string)
    ensures path in InputPaths(inputs) <==> exists i | i in inputs :: i.path == path
  {
    if inputs != [] {
      InputPathsAreInputs(inputs[1..], path);
      assert inputs == [inputs[0]] + inputs[1..];
    }
  }

  lemma LayoutFits(s: Spec)
    requires s.source.mode == CONVERT && Generator.CrossChecks(s)
    ensures s.source.convertInputs == [] && s.source.convertInputPath != "" ==> PrimaryIsListed(s)
    ensures s.source.convertInputs != [] ==>
              s.source.fetch == [] && forall f | f in s.files :: !IsInput(s.source, f.path)
  {
    hide FetchPaths, ContentPaths, Paths, InputPaths, IsInputName, TotalBytes, Distinct;
    if s.source.convertInputs != [] {
      forall f | f in s.files ensures !IsInput(s.source, f.path) {
        ListedPaths(s.files, f.path);
        InputPathsAreInputs(s.source.convertInputs, f.path);
        assert f.path in PathSet(Paths(s.files));
        assert f.path !in PathSet([s.source.convertInputPath] + InputPaths(s.source.convertInputs));
      }
    }
  }

  lemma {:induction false} FetchedPaths(fetch: seq<FetchSpec>, path: string)
    ensures path in FetchPaths(fetch) <==> IsFetched(fetch, path)
  {
    if fetch != [] {
      FetchedPaths(fetch[1..], path);
      assert fetch == [fetch[0]] + fetch[1..];
    }
  }

  lemma {:induction false} ListedPaths(files: seq<FileSpec>, path: string)
    ensures path in Paths(files) <==> exists f | f in files :: f.path == path
  {
    if files != [] {
      ListedPaths(files[1..], path);
      assert files == [files[0]] + files[1..];
    }
  }

  lemma ContentIsListed(s: Spec, path: string)
    ensures path in ContentPaths(s.files) <==> IsContent(s, path)
  {
    ListedPaths(s.files, path);
  }

  /**
   A parsed record accounts for every file: each content file has an origin, nothing else is fetched, a primary
   input that is installed is listed as it is downloaded and not fetched a second time, and what a converter is
   given in a directory is not installed.
   */
  lemma ParsedOriginsFit(u: UrlRules, allowFile: bool, v: Json)
    requires ParseSpec(u, allowFile, v).Some?
    ensures OriginsFit(ParseSpec(u, allowFile, v).value)
  {
    Generator.ParsedMeetsChecks(u, allowFile, v);
    var s := ParseSpec(u, allowFile, v).value;
    if s.source.mode == CONVERT { LayoutFits(s); }
    hide ParseSpec, FetchPaths, Paths, ContentPaths, IsFetched, IsContent, IsInput, PrimaryIsListed;
    forall path: string
      ensures path in ContentPaths(s.files) <==> IsContent(s, path)
      ensures path in FetchPaths(s.source.fetch) <==> IsFetched(s.source.fetch, path)
      ensures path in FetchPaths(s.source.blobs) <==> IsFetched(s.source.blobs, path)
    {
      ContentIsListed(s, path);
      FetchedPaths(s.source.fetch, path);
      FetchedPaths(s.source.blobs, path);
    }
  }

  // ---------------------------------------------------------------------------------------
  // A converter's inputs

  /** A file name for the converter's own directory: one component that is not hidden. */
  predicate IsVisibleName(name: string) {
    RelativePath.Plain(name) && RelativePath.Split(name) == [name] && name[0] != '.'
  }

  /** Accepted names are those, of limited length, that no system takes for more than one component. */
  lemma InputNameExactly(name: string)
    ensures IsInputName(name) <==> IsVisibleName(name) && '\\' !in name && |name| <= 255
  {
    if '/' !in name { RelativePath.SplitComponent(name); }
    if RelativePath.Split(name) == [name] {
      assert name in RelativePath.Split(name);
      RelativePath.SplitGivesComponents(name);
    }
    hide RelativePath.Split;
  }

  /** So an input is put directly into the directory. */
  lemma InputIsAChild(directory: seq<string>, name: string)
    requires RelativePath.AllNames(directory) && IsInputName(name)
    ensures RelativePath.Executable(directory, name) == Some(directory + [name])
  {
    InputNameExactly(name);
    RelativePath.PlainIsFixed(name);
    RelativePath.ParsedBinaryIsInside(directory, name);
    RelativePath.AcceptedIsPlain(name);
  }

  // ---------------------------------------------------------------------------------------
  // Streams

  const DIGITS: string := "0123456789"

  function Numbered(n: nat): string
    requires n < 1000
  {
    ['F', DIGITS[n / 100], DIGITS[n / 10 % 10], DIGITS[n % 10]]
  }

  /** There are a thousand streams, numbered with three digits. */
  lemma StreamExactly(s: string)
    ensures IsStream(s) <==> exists n: nat | n < 1000 :: s == Numbered(n)
  {
    if IsStream(s) {
      var n := NumberOf(s);
    } else {
      forall n: nat | n < 1000 ensures IsStream(Numbered(n)) { NumberedIsStream(n); }
    }
    hide IsStream, Numbered;
  }

  lemma NumberOf(s: string) returns (n: nat)
    requires IsStream(s)
    ensures n < 1000 && s == Numbered(n)
  {
    var a, b, c := s[1] as int - 48, s[2] as int - 48, s[3] as int - 48;
    n := 100 * a + 10 * b + c;
    assert n / 100 == a && n / 10 == 10 * a + b && n / 10 % 10 == b && n % 10 == c;
    DigitsInOrder(a);
    DigitsInOrder(b);
    DigitsInOrder(c);
    hide DIGITS, IsStream;
  }

  lemma NumberedIsStream(n: nat)
    requires n < 1000
    ensures IsStream(Numbered(n))
  {
    DigitsInOrder(n / 100);
    DigitsInOrder(n / 10 % 10);
    DigitsInOrder(n % 10);
    hide DIGITS;
  }

  lemma DigitsInOrder(d: nat)
    requires d < 10
    ensures DIGITS[d] as int == 48 + d
  {
  }

  // ---------------------------------------------------------------------------------------
  // Entries of a catalog

  function NoPackages(): map<string, Catalog.Package> {
    map[]
  }

  /** An entry with this source and neither binary nor command. */
  function Bare(source: Catalog.Source): Catalog.Entry {
    Catalog.Entry("a", Catalog.Shown("", "", "", "", [], "", ""), Catalog.OwnSource(source, [], ""), "", [], [], [],
                  Catalog.DEFAULT_LIFECYCLE)
  }

  /** Entries without a binary are read exactly where nothing is installed from Git or from an archive. */
  lemma BinaryIsNeededExactly(source: Catalog.Source)
    ensures (exists e, byPackage ::
               var c := Catalog.ParseEntry(e, byPackage); c.Some? && c.value.source == source && c.value.binary == "")
            <==> source.kind != "git" && source.kind != "archive"
  {
    if source.kind != "git" && source.kind != "archive" {
      assert RelativePath.ValidId("a");
      var c := Catalog.ParseEntry(Bare(source), NoPackages());
      assert c.Some? && c.value.source == source && c.value.binary == "";
    }
  }

  /** The entry without what only newer catalogs can say of it. */
  function Older(e: Catalog.Content): Catalog.Content {
    e.(command := [], actions := [], accepts := [], lifecycle := Catalog.DEFAULT_LIFECYCLE)
  }

  /** Entries of a valid catalog of an older schema have none of that, and an entry that has can be in no such one. */
  lemma OlderCatalogsExactly(e: Catalog.Content, byPackage: map<string, Catalog.Package>,
                             byAsset: map<string, AssetSpec.Spec>, schema: int)
    ensures Catalog.Fits(schema, byPackage, byAsset, e)
            <==> (schema >= 3 || e == Older(e)) && Catalog.Fits(3, byPackage, byAsset, e)
  {
  }
}
