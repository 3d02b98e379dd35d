/**
 What the grouping promises: groups are the in-order filters of the entries, each group is one
 installation, and checking a group at once answers as checking each of its entries alone.
 */
module CatalogReady {
  import opened Common
  import AssetSpec
  import opened Catalog
  import RelativePath

  // ---------------------------------------------------------------------------------------
  // Groups

  lemma {:induction false} SharingHas(entries: seq<Content>, id: string, e: Content)
    ensures e in Sharing(entries, id) <==> e in entries && e.InstallId() == id
  {
    if entries != [] {
      var rest, last := entries[..|entries| - 1], entries[|entries| - 1];
      SharingHas(rest, id, e);
      assert entries == rest + [last];
    }
  }

  lemma {:induction false} SharingIsDistinct(entries: seq<Content>, id: string)
    requires DistinctIds(entries, ContentId())
    ensures DistinctIds(Sharing(entries, id), ContentId())
  {
    if entries != [] {
      var rest, last := entries[..|entries| - 1], entries[|entries| - 1];
      SharingIsDistinct(rest, id);
      var group := Sharing(rest, id);
      forall i | 0 <= i < |group| ensures ContentId()(group[i]) != ContentId()(last) {
        SharingHas(rest, id, group[i]);
        var k :| 0 <= k < |rest| && rest[k] == group[i];
        assert entries[k] == group[i];
      }
    }
  }

  /** Every entry is in the group of its installation and in no other. */
  lemma GroupsPartition(c: Catalog, e: Content, id: string)
    requires Valid(c)
    ensures ProvidedBy(c, id) == Sharing(c.entries, id)
    ensures e in ProvidedBy(c, id) <==> e in c.entries && e.InstallId() == id
  {
    SharingHas(c.entries, id, e);
  }

  // ---------------------------------------------------------------------------------------
  // One installation

  /** The fields that `ready_provided` compares. */
  predicate SameInstallation(a: Content, b: Content) {
    a.InstallId() == b.InstallId() && a.source == b.source && a.build == b.build
  }

  ghost predicate OneInstallation(specs: seq<Content>) {
    && (forall i, j | 0 <= i < |specs| && 0 <= j < |specs| :: SameInstallation(specs[i], specs[j]))
    && DistinctIds(specs, ContentId())
  }

  lemma DistinctEntries(c: Catalog)
    requires Valid(c)
    ensures DistinctIds(c.entries, ContentId())
  {
  }

  lemma SameGroupSameInstallation(c: Catalog, a: Content, b: Content)
    requires Valid(c) && a in c.entries && b in c.entries && a.InstallId() == b.InstallId()
    ensures SameInstallation(a, b)
  {
    hide GroupsAre, Indexes, IsUsed;
    DistinctEntries(c);
    var i :| 0 <= i < |c.entries| && c.entries[i] == a;
    var j :| 0 <= j < |c.entries| && c.entries[j] == b;
    assert Fits(c.schema, c.byPackage, c.byAsset, a) && Fits(c.schema, c.byPackage, c.byAsset, b);
    if a.packageId == "" && b.packageId == "" {
      assert ContentId()(c.entries[i]) == ContentId()(c.entries[j]);
    }
  }

  /** The entries of one installation in a catalog always pass the readiness check's own refusals. */
  lemma GroupsAreOneInstallation(c: Catalog, id: string)
    requires Valid(c)
    ensures OneInstallation(ProvidedBy(c, id))
  {
    hide Fits, IsUsed, Sharing, DistinctIds;
    var group := ProvidedBy(c, id);
    forall i, j | 0 <= i < |group| && 0 <= j < |group| ensures SameInstallation(group[i], group[j]) {
      hide Valid;
      GroupsPartition(c, group[i], id);
      GroupsPartition(c, group[j], id);
      SameGroupSameInstallation(c, group[i], group[j]);
    }
    SharingIsDistinct(c.entries, id);
  }

  datatype Verdict = Accepted | Mixed | Duplicate(id: string)

  /** The first loop of `ready_provided`. */
  method CheckProvided(specs: seq<Content>) returns (verdict: Verdict)
    requires specs != []
    ensures verdict == Accepted <==> OneInstallation(specs)
    ensures verdict.Mixed? ==> exists i :: 0 <= i < |specs| && !SameInstallation(specs[i], specs[0])
    ensures verdict.Duplicate? ==> exists i, j :: 0 <= i < j < |specs| && specs[i].id == specs[j].id == verdict.id
  {
    var first := specs[0];
    var seen: set<string> := {};
    for i := 0 to |specs|
      invariant forall j | 0 <= j < i :: SameInstallation(specs[j], first)
      invariant forall j, k | 0 <= j < k < i :: specs[j].id != specs[k].id
      invariant forall id | id in seen :: exists j :: 0 <= j < i && specs[j].id == id
      invariant forall j | 0 <= j < i :: specs[j].id in seen
    {
      var spec := specs[i];
      if !SameInstallation(spec, first) { return Mixed; }
      if spec.id in seen {
        var j :| 0 <= j < i && specs[j].id == spec.id;
        assert ContentId()(specs[j]) == ContentId()(specs[i]);
        return Duplicate(spec.id);
      }
      seen := seen + {spec.id};
    }
    return Accepted;
  }

  // ---------------------------------------------------------------------------------------
  // Readiness

  type Dir = seq<string>

  /**
   The file system while one readiness check looks at it: links, what a path really names (None for an OSError),
   regular files, what may be executed, what exists, and which checkouts are those of a repository and commit.
   */
  datatype Disk = Disk(
    isLink: Dir -> bool, realPath: Dir -> Option<Dir>, isRegular: Dir -> bool, mayExecute: Dir -> bool,
    isThere: Dir -> bool, isCheckout: (string, string, Dir) -> bool)
  {
    /** `_executable_stays_within`: links followed, it is still below. */
    function StaysWithin(selected: Dir, executable: Dir): bool {
      match (realPath(selected), realPath(executable))
      case (Some(root), Some(target)) => target != root && root <= target
      case _ => false
    }

    /** The selection is the installer's own directory, or a Git checkout; None for an OSError. */
    function IsManaged(selected: Dir, own: Dir): Option<bool> {
      var root :- realPath(selected);
      var home :- realPath(own);
      Some(root == home || isThere(selected + [".git"]))
    }
  }

  /** The entry's executable, if it is a runnable regular file that stays inside `selected`. */
  function Candidate(d: Disk, selected: Dir, e: Content): Option<Dir> {
    var executable :- RelativePath.Executable(selected, e.binary);
    :- Require(d.StaysWithin(selected, executable));
    :- Require(d.isRegular(executable) && d.mayExecute(executable));
    Some(executable)
  }

  /** The shared source verification: only a managed git checkout is compared with its pin. */
  function SourceHolds(d: Disk, root: Dir, selected: Dir, e: Content): bool {
    e.source.kind == "git" ==>
      match RelativePath.Destination(root, e.InstallId())
      case None => false
      case Some(own) =>
        match d.IsManaged(selected, own)
        case None => false
        case Some(managed) => managed ==> d.isCheckout(e.source.repository, e.source.ref, selected)
  }

  /** What `ready` answers for one entry, with its own verification. */
  function Alone(d: Disk, root: Dir, selected: Dir, e: Content): Option<Dir> {
    if d.isLink(selected) || !SourceHolds(d, root, selected, e) then None else Candidate(d, selected, e)
  }

  /** Following links, the file is strictly below the directory. */
  ghost predicate IsBelow(d: Disk, file: Dir, dir: Dir) {
    && d.realPath(dir).Some?
    && exists more: Dir | more != [] :: d.realPath(file) == Some(d.realPath(dir).value + more)
  }

  lemma StaysWithinExactly(d: Disk, file: Dir, dir: Dir)
    ensures d.StaysWithin(dir, file) <==> IsBelow(d, file, dir)
  {
    if d.StaysWithin(dir, file) {
      var root, target := d.realPath(dir).value, d.realPath(file).value;
      assert target == root + target[|root|..];
    }
  }

  /**
   What the answer for an entry of a parsed catalog means: exactly if the selected directory is no link, the
   path of the entry's binary in it is a regular file that may be executed and is really below the directory,
   and a Git source that is the installer's own directory or a checkout is the pinned one, the answer is that
   path; else there is none.
   */
  lemma ReadyExactly(d: Disk, root: Dir, selected: Dir, e: Content, v: string)
    requires RelativePath.AllNames(root) && RelativePath.AllNames(selected)
    requires RelativePath.ValidId(e.InstallId()) && RelativePath.RelativePath(v) == Some(e.binary)
    ensures var own, path := root + [e.InstallId()], selected + RelativePath.Components(v);
      Alone(d, root, selected, e) == Some(path)
      <==> && !d.isLink(selected) && d.isRegular(path) && d.mayExecute(path) && IsBelow(d, path, selected)
           && (e.source.kind == "git" ==>
                 && d.realPath(own).Some?
                 && (d.realPath(selected) == d.realPath(own) || d.isThere(selected + [".git"]) ==>
                       d.isCheckout(e.source.repository, e.source.ref, selected)))
    ensures Alone(d, root, selected, e) in {None, Some(selected + RelativePath.Components(v))}
  {
    RelativePath.ValidIdIsAChild(root, e.InstallId());
    RelativePath.ParsedBinaryIsInside(selected, v);
    var path := selected + RelativePath.Components(v);
    assert RelativePath.Executable(selected, e.binary) == Some(path);
    StaysWithinExactly(d, path, selected);
    hide RelativePath.Executable, RelativePath.Destination, RelativePath.RelativePath, RelativePath.Components,
      RelativePath.ValidId, RelativePath.AllNames;
  }

  function Ids(specs: seq<Content>): set<string> {
    set i | 0 <= i < |specs| :: specs[i].id
  }

  /** One answer for each entry, the one that it would get alone. */
  ghost predicate AnswersAlone(d: Disk, root: Dir, selected: Dir, specs: seq<Content>, of: map<string, Option<Dir>>) {
    of.Keys == Ids(specs) && forall i | 0 <= i < |specs| :: of[specs[i].id] == Alone(d, root, selected, specs[i])
  }

  lemma SharedSource(d: Disk, root: Dir, selected: Dir, specs: seq<Content>)
    requires specs != [] && OneInstallation(specs)
    ensures forall i | 0 <= i < |specs| ::
              SourceHolds(d, root, selected, specs[i]) == SourceHolds(d, root, selected, specs[0])
  {
  }

  /** The loop that looks for each entry's executable. */
  method FindCandidates(d: Disk, selected: Dir, specs: seq<Content>)
    returns (candidates: map<string, Option<Dir>>, found: bool)
    requires OneInstallation(specs)
    ensures candidates.Keys == Ids(specs)
    ensures forall i | 0 <= i < |specs| :: candidates[specs[i].id] == Candidate(d, selected, specs[i])
    ensures !found ==> forall i | 0 <= i < |specs| :: Candidate(d, selected, specs[i]).None?
  {
    candidates, found := map id | id in Ids(specs) :: None, false;
    for i := 0 to |specs|
      invariant candidates.Keys == Ids(specs)
      invariant forall j | 0 <= j < i :: candidates[specs[j].id] == Candidate(d, selected, specs[j])
      invariant forall j | i <= j < |specs| :: candidates[specs[j].id] == None
      invariant !found ==> forall j | 0 <= j < i :: Candidate(d, selected, specs[j]).None?
    {
      hide Candidate, SameInstallation;
      forall j | 0 <= j < |specs| && j != i ensures specs[j].id != specs[i].id {
        assert ContentId()(specs[j]) != ContentId()(specs[i]);
      }
      var executable := Candidate(d, selected, specs[i]);
      if executable.Some? { candidates, found := candidates[specs[i].id := executable], true; }
    }
  }

  datatype Readiness = Refused(verdict: Verdict) | UnsafeId | Answers(of: map<string, Option<Dir>>)

  /**
   `ready_provided`. On a catalog's group no entry is refused, and each entry's answer is the one
   it would get alone, although the source is verified once.
   */
  method ReadyProvided(d: Disk, root: Dir, specs: seq<Content>, directory: Option<Dir>) returns (r: Readiness)
    ensures specs == [] ==> r == Answers(map[])
    ensures r.Refused? <==> specs != [] && !OneInstallation(specs)
    ensures r.UnsafeId? <==>
              && specs != [] && OneInstallation(specs)
              && directory.None? && RelativePath.Destination(root, specs[0].InstallId()).None?
    ensures specs != [] && r.Answers? ==>
              AnswersAlone(d, root, if directory.Some? then directory.value
                                    else RelativePath.Destination(root, specs[0].InstallId()).value, specs, r.of)
  {
    if specs == [] { return Answers(map[]); }
    var verdict := CheckProvided(specs);
    if verdict != Accepted { return Refused(verdict); }
    hide OneInstallation, Candidate, RelativePath.Destination;
    var first := specs[0];
    var own := RelativePath.Destination(root, first.InstallId());
    if directory.None? && own.None? { return UnsafeId; }
    var selected := if directory.Some? then directory.value else own.value;
    var nothing: map<string, Option<Dir>> := map id | id in Ids(specs) :: None;
    if d.isLink(selected) { return Answers(nothing); }
    var candidates, found := FindCandidates(d, selected, specs);
    SharedSource(d, root, selected, specs);
    if !found { return Answers(nothing); }
    var verified := VerifySource(d, root, selected, first);
    if !verified { return Answers(nothing); }
    return Answers(candidates);
  }

  /** The one verification of the shared source. */
  method VerifySource(d: Disk, root: Dir, selected: Dir, first: Content) returns (ok: bool)
    ensures ok == SourceHolds(d, root, selected, first)
  {
    if first.source.kind == "git" {
      var own := RelativePath.Destination(root, first.InstallId());
      if own.None? { return false; }
      var managed := d.IsManaged(selected, own.value);
      if managed.None? { return false; }
      if managed.value { return d.isCheckout(first.source.repository, first.source.ref, selected); }
    }
    return true;
  }

  // ---------------------------------------------------------------------------------------
  // Parsed catalogs

  lemma ParsedEntry(e: Entry, byPackage: map<string, Package>)
    requires ParseEntry(e, byPackage).Some?
    requires forall id | id in byPackage :: byPackage[id].id == id
    ensures var c := ParseEntry(e, byPackage).value;
      && c.id == e.id
      && (c.packageId != "" ==> c.packageId in byPackage && Supplies(byPackage[c.packageId], c))
      && RelativePath.ValidId(c.InstallId())
      && (IsInstallable(c.source.kind) ==> RelativePath.RelativePath(c.binary) == Some(c.binary))
  {
    if e.binary != "" {
      RelativePath.AcceptedIsPlain(e.binary);
      RelativePath.PlainIsFixed(RelativePath.RelativePath(e.binary).value);
    }
  }

  lemma {:induction false} ParsedEntries(raw: seq<Entry>, byPackage: map<string, Package>)
    requires ParseEntries(raw, byPackage).Some?
    ensures |ParseEntries(raw, byPackage).value| == |raw|
    ensures forall i | 0 <= i < |raw| :: Some(ParseEntries(raw, byPackage).value[i]) == ParseEntry(raw[i], byPackage)
  {
    if raw != [] {
      hide ParseEntry;
      var n := |raw| - 1;
      ParsedEntries(raw[..n], byPackage);
      var parsed := ParseEntries(raw, byPackage).value;
      assert parsed[..n] == ParseEntries(raw[..n], byPackage).value;
      forall i | 0 <= i < |raw| ensures Some(parsed[i]) == ParseEntry(raw[i], byPackage) {
        if i < n { assert parsed[i] == parsed[..n][i] && raw[i] == raw[..n][i]; }
      }
    }
  }

  /** The entry that says what the content says. */
  function WrittenEntry(c: Content): Entry {
    Entry(c.id, c.shown,
          if c.packageId != "" then FromPackage(c.packageId) else OwnSource(c.source, c.build, c.hint),
          c.binary, c.command, c.actions, c.accepts, c.lifecycle)
  }

  /** The entry with its binary path in normal form. */
  function CleanEntry(e: Entry): Entry {
    match RelativePath.RelativePath(e.binary)
    case Some(path) => e.(binary := path)
    case None => e
  }

  /** A package's metadata is the package's, and what is installed is started by its binary. */
  predicate EntryValid(c: Content, byPackage: map<string, Package>) {
    && RelativePath.ValidId(c.id)
    && (c.packageId != "" ==>
          && RelativePath.ValidId(c.packageId) && c.packageId in byPackage
          && c.source == byPackage[c.packageId].source && c.build == byPackage[c.packageId].build
          && c.hint == byPackage[c.packageId].hint)
    && (c.binary == "" || RelativePath.Plain(c.binary))
    && (c.binary == "" || c.command == [])
    && (IsInstallable(c.source.kind) ==> c.binary != "")
  }

  /**
   An entry is read as some content exactly if the content is valid and the entry is its written form, up to a
   binary path that is not in normal form: every field is its own, and the installation is the package's or the
   entry's own.
   */
  lemma EntryReadsExactly(e: Entry, c: Content, byPackage: map<string, Package>)
    ensures ParseEntry(e, byPackage) == Some(c) <==> CleanEntry(e) == WrittenEntry(c) && EntryValid(c, byPackage)
  {
    BinaryReads(e.binary);
    EmptyIsNoId();
    hide RelativePath.RelativePath, RelativePath.Plain, RelativePath.ValidId;
  }

  lemma BinaryReads(s: string)
    ensures RelativePath.RelativePath("").None?
    ensures RelativePath.RelativePath(s).Some? ==>
              RelativePath.Plain(RelativePath.RelativePath(s).value) && RelativePath.RelativePath(s).value != ""
    ensures RelativePath.Plain(s) ==> RelativePath.RelativePath(s) == Some(s)
  {
    if RelativePath.RelativePath(s).Some? { RelativePath.AcceptedIsPlain(s); }
    RelativePath.PlainIsFixed(s);
  }

  lemma EmptyIsNoId()
    ensures !RelativePath.ValidId("")
  {
  }

  /** A list of entries is read entry by entry, and refused exactly if one of them is. */
  lemma {:induction false} EntriesReadExactly(raw: seq<Entry>, byPackage: map<string, Package>)
    ensures ParseEntries(raw, byPackage).Some? <==> forall e | e in raw :: ParseEntry(e, byPackage).Some?
  {
    if raw != [] {
      hide ParseEntry;
      var front, last := raw[..|raw| - 1], raw[|raw| - 1];
      EntriesReadExactly(front, byPackage);
      assert raw == front + [last];
    }
  }

  /** On parsed entries the constructor's package checks are already met: only the other three can refuse. */
  lemma ParsedEntriesAreSupplied(raw: seq<Entry>, packages: seq<Package>, byPackage: map<string, Package>,
                                 schema: int, byAsset: map<string, AssetSpec.Spec>, i: nat)
    requires Indexes(byPackage, packages, PackageId())
    requires ParseEntries(raw, byPackage).Some? && i < |raw| == |ParseEntries(raw, byPackage).value|
    ensures var e := ParseEntries(raw, byPackage).value[i];
      Fits(schema, byPackage, byAsset, e) <==>
        && (schema < 3 ==> !e.HasApplicationMetadata())
        && e.id !in byAsset
        && (e.id in byPackage ==> e.packageId == e.id)
  {
  }

  /** Every entry of a parsed catalog installs into its own child of the root, and its binary lies inside. */
  lemma ParsedEntryHasAPlace(e: Entry, byPackage: map<string, Package>, root: Dir)
    requires ParseEntry(e, byPackage).Some? && RelativePath.AllNames(root)
    requires forall id | id in byPackage :: byPackage[id].id == id
    ensures var c := ParseEntry(e, byPackage).value;
      && RelativePath.Destination(root, c.InstallId()) == Some(root + [c.InstallId()])
      && (IsInstallable(c.source.kind) ==>
            RelativePath.Executable(root + [c.InstallId()], c.binary)
              == Some(root + [c.InstallId()] + RelativePath.Components(c.binary)))
  {
    ParsedEntry(e, byPackage);
    var c := ParseEntry(e, byPackage).value;
    hide ParseEntry;
    RelativePath.ValidIdIsAChild(root, c.InstallId());
    if IsInstallable(c.source.kind) {
      RelativePath.ParsedBinaryIsInside(root + [c.InstallId()], c.binary);
    }
  }
}
