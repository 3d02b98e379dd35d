/**
 The catalog and its grouping by installation: `Catalog.__init__`, the flattening of package
 metadata into entries, and the readiness check that relies on both.

 None stands for a CatalogError.
 */
module Catalog {
  import opened Common
  import AssetSpec
  import RelativePath

  const MAX_ASSETS: nat := 4096

  datatype Source = Source(kind: string, repository: string, ref: string, urls: seq<string>, sha256: string)

  datatype Package = Package(id: string, source: Source, build: seq<string>, hint: string)

  datatype Action = Action(id: string, argv: seq<string>, acceptsInput: bool, description: string)

  datatype Lifecycle = Lifecycle(
    singleInstance: bool, requiresSession: bool, degradesInplace: bool, preserveOnFailure: bool, timeout: nat)

  const DEFAULT_LIFECYCLE := Lifecycle(false, false, true, true, 0)

  /** The fields of an entry that no check here looks at. */
  datatype Shown = Shown(
    labelText: string, kind: string, icon: string, description: string, capabilities: seq<string>,
    launchMode: string, preferredSize: string)

  datatype Content = Content(
    id: string, shown: Shown, source: Source, binary: string, command: seq<string>, build: seq<string>, hint: string,
    actions: seq<Action>, accepts: seq<string>, lifecycle: Lifecycle, packageId: string)
  {
    /** Directory and cache identity. */
    function InstallId(): string {
      if packageId != "" then packageId else id
    }

    predicate HasApplicationMetadata() {
      command != [] || actions != [] || accepts != [] || lifecycle != DEFAULT_LIFECYCLE
    }
  }

  /** `PackageSpec.supplies`. */
  predicate Supplies(p: Package, e: Content) {
    e.packageId == p.id && e.source == p.source && e.build == p.build && e.hint == p.hint
  }

  // ---------------------------------------------------------------------------------------
  // Entries as they are parsed

  /** What an entry says of its installation: the name of a package, or a source of its own. */
  datatype Origin = FromPackage(packageId: string) | OwnSource(source: Source, build: seq<string>, hint: string)

  datatype Entry = Entry(
    id: string, shown: Shown, origin: Origin, binary: string, command: seq<string>,
    actions: seq<Action>, accepts: seq<string>, lifecycle: Lifecycle)

  predicate IsInstallable(kind: string) {
    kind == "git" || kind == "archive"
  }

  /** `ContentSpec.from_mapping`: an entry of a package takes that package's installation metadata. */
  function ParseEntry(e: Entry, byPackage: map<string, Package>): Option<Content> {
    var id :- if RelativePath.ValidId(e.id) then Some(e.id) else None;
    :- Require(e.origin.FromPackage? ==>
                 RelativePath.ValidId(e.origin.packageId) && e.origin.packageId in byPackage);
    var (packageId, source, build, hint) :=
      match e.origin
      case FromPackage(name) => (name, byPackage[name].source, byPackage[name].build, byPackage[name].hint)
      case OwnSource(s, b, h) => ("", s, b, h);
    var binary :- if e.binary == "" then Some("") else RelativePath.RelativePath(e.binary);
    :- Require(IsInstallable(source.kind) ==> binary != "" && e.command == []);
    :- Require(binary == "" || e.command == []);
    Some(Content(id, e.shown, source, binary, e.command, build, hint, e.actions, e.accepts, e.lifecycle, packageId))
  }

  function ParseEntries(raw: seq<Entry>, byPackage: map<string, Package>): Option<seq<Content>> {
    if raw == [] then Some([])
    else
      var rest :- ParseEntries(raw[..|raw| - 1], byPackage);
      var e :- ParseEntry(raw[|raw| - 1], byPackage);
      Some(rest + [e])
  }

  // ---------------------------------------------------------------------------------------
  // The catalog

  datatype Catalog = Catalog(
    schema: int, entries: seq<Content>, byId: map<string, Content>, packages: seq<Package>,
    byPackage: map<string, Package>, provided: map<string, seq<Content>>, assets: seq<AssetSpec.Spec>,
    byAsset: map<string, AssetSpec.Spec>)

  /** The entries of one installation, in order. */
  function Sharing(entries: seq<Content>, id: string): seq<Content> {
    if entries == [] then []
    else
      var last := entries[|entries| - 1];
      Sharing(entries[..|entries| - 1], id) + if last.InstallId() == id then [last] else []
  }

  /** `Catalog.provided_by`. */
  function ProvidedBy(c: Catalog, id: string): seq<Content> {
    if id in c.provided then c.provided[id] else []
  }

  ghost predicate DistinctIds<T(!new)>(items: seq<T>, id: T -> string) {
    forall i, j | 0 <= i < j < |items| :: id(items[i]) != id(items[j])
  }

  /** A map from the ids of `items` to the items, with no id twice. */
  ghost predicate Indexes<T(!new)>(m: map<string, T>, items: seq<T>, id: T -> string) {
    && DistinctIds(items, id)
    && (forall i | 0 <= i < |items| :: id(items[i]) in m && m[id(items[i])] == items[i])
    && (forall k | k in m :: exists i :: 0 <= i < |items| && id(items[i]) == k)
  }

  ghost function PackageId(): Package -> string { (p: Package) => p.id }
  ghost function AssetId(): AssetSpec.Spec -> string { (a: AssetSpec.Spec) => a.assetId }
  ghost function ContentId(): Content -> string { (e: Content) => e.id }

  /** What an entry must meet whatever the other entries are. */
  predicate Fits(schema: int, byPackage: map<string, Package>, byAsset: map<string, AssetSpec.Spec>, e: Content) {
    && (schema < 3 ==> !e.HasApplicationMetadata())
    && e.id !in byAsset
    && (e.id in byPackage ==> e.packageId == e.id)
    && (e.packageId != "" ==> e.packageId in byPackage && Supplies(byPackage[e.packageId], e))
  }

  /** Some entry among `entries` names the package. */
  predicate IsUsed(id: string, entries: seq<Content>) {
    exists i :: 0 <= i < |entries| && entries[i].packageId != "" && entries[i].packageId == id
  }

  /** Everything that a catalog's constructor has to establish. */
  ghost predicate Valid(c: Catalog) {
    && 1 <= c.schema <= 4
    && Indexes(c.byPackage, c.packages, PackageId())
    && (c.schema == 1 ==> c.packages == [])
    && Indexes(c.byAsset, c.assets, AssetId())
    && |c.assets| <= MAX_ASSETS
    && (c.schema < 4 ==> c.assets == [])
    && Indexes(c.byId, c.entries, ContentId())
    && (forall i | 0 <= i < |c.entries| :: Fits(c.schema, c.byPackage, c.byAsset, c.entries[i]))
    && (forall i | 0 <= i < |c.packages| :: IsUsed(c.packages[i].id, c.entries))
    && GroupsAre(c.provided, c.entries)
  }

  /** The groups are the in-order filters of the entries, and only groups with a member are kept. */
  ghost predicate GroupsAre(provided: map<string, seq<Content>>, entries: seq<Content>) {
    && (forall id: string :: (if id in provided then provided[id] else []) == Sharing(entries, id))
    && (forall id | id in provided :: provided[id] != [])
  }

  lemma PrefixRepeats<T(!new)>(items: seq<T>, n: nat, id: T -> string)
    requires n <= |items| && !DistinctIds(items[..n], id)
    ensures !DistinctIds(items, id)
  {
  }

  lemma IndexOneMore<T(!new)>(m: map<string, T>, items: seq<T>, id: T -> string, x: T)
    requires Indexes(m, items, id)
    ensures id(x) in m ==> !DistinctIds(items + [x], id)
    ensures id(x) !in m ==> Indexes(m[id(x) := x], items + [x], id)
  {
    if id(x) in m {
      var i :| 0 <= i < |items| && id(items[i]) == id(x);
      assert id((items + [x])[i]) == id((items + [x])[|items|]);
    } else {
      var n, more := m[id(x) := x], items + [x];
      forall k | k in n ensures exists i :: 0 <= i < |more| && id(more[i]) == k {
        if k == id(x) {
          assert id(more[|items|]) == k;
        } else {
          var i :| 0 <= i < |items| && id(items[i]) == k;
          assert id(more[i]) == k;
        }
      }
    }
  }

  method IndexPackages(packages: seq<Package>) returns (byPackage: Option<map<string, Package>>)
    ensures byPackage.Some? ==> Indexes(byPackage.value, packages, PackageId())
    ensures byPackage.None? ==> !DistinctIds(packages, PackageId())
  {
    var m: map<string, Package> := map[];
    for i := 0 to |packages|
      invariant Indexes(m, packages[..i], PackageId())
    {
      hide Indexes, DistinctIds;
      var p := packages[i];
      assert packages[..i + 1] == packages[..i] + [p];
      IndexOneMore(m, packages[..i], PackageId(), p);
      if p.id in m {
        PrefixRepeats(packages, i + 1, PackageId());
        return None;
      }
      m := m[p.id := p];
    }
    assert packages[..|packages|] == packages;
    return Some(m);
  }

  method IndexAssets(assets: seq<AssetSpec.Spec>) returns (byAsset: Option<map<string, AssetSpec.Spec>>)
    ensures byAsset.Some? ==> Indexes(byAsset.value, assets, AssetId()) && |assets| <= MAX_ASSETS
    ensures byAsset.None? ==> |assets| > MAX_ASSETS || !DistinctIds(assets, AssetId())
  {
    var m: map<string, AssetSpec.Spec> := map[];
    for i := 0 to |assets|
      invariant Indexes(m, assets[..i], AssetId()) && i <= MAX_ASSETS
    {
      hide Indexes, DistinctIds;
      // One key for each asset so far, so this is the size of the map.
      if i >= MAX_ASSETS { return None; }
      var a := assets[i];
      assert assets[..i + 1] == assets[..i] + [a];
      IndexOneMore(m, assets[..i], AssetId(), a);
      if a.assetId in m {
        PrefixRepeats(assets, i + 1, AssetId());
        return None;
      }
      m := m[a.assetId := a];
    }
    assert assets[..|assets|] == assets;
    return Some(m);
  }

  // ---------------------------------------------------------------------------------------
  // Construction

  predicate IsMadeOf(c: Catalog, entries: seq<Content>, schema: int, packages: seq<Package>,
                     assets: seq<AssetSpec.Spec>)
  {
    c.entries == entries && c.schema == schema && c.packages == packages && c.assets == assets
  }

  lemma IndexIsUnique<T(!new)>(m: map<string, T>, n: map<string, T>, items: seq<T>, id: T -> string)
    requires Indexes(m, items, id) && Indexes(n, items, id)
    ensures m == n
  {
  }

  function Added(provided: map<string, seq<Content>>, e: Content): map<string, seq<Content>> {
    var id := e.InstallId();
    provided[id := (if id in provided then provided[id] else []) + [e]]
  }

  lemma GroupOneMore(provided: map<string, seq<Content>>, entries: seq<Content>, e: Content)
    requires GroupsAre(provided, entries)
    ensures GroupsAre(Added(provided, e), entries + [e])
  {
  }

  lemma UsedOneMore(entries: seq<Content>, e: Content, id: string)
    ensures IsUsed(id, entries + [e]) <==> IsUsed(id, entries) || (e.packageId != "" && e.packageId == id)
  {
    var more := entries + [e];
    if IsUsed(id, entries) {
      var i :| 0 <= i < |entries| && entries[i].packageId != "" && entries[i].packageId == id;
      assert more[i].packageId == id;
    } else if e.packageId != "" && e.packageId == id {
      assert more[|entries|].packageId == id;
    }
  }

  /** Distinct ids, and every entry fits. */
  ghost predicate Sound(schema: int, byPackage: map<string, Package>, byAsset: map<string, AssetSpec.Spec>,
                        entries: seq<Content>)
  {
    && DistinctIds(entries, ContentId())
    && forall i | 0 <= i < |entries| :: Fits(schema, byPackage, byAsset, entries[i])
  }

  /** The three tables that the loop over the entries fills. */
  datatype Tables = Tables(byId: map<string, Content>, provided: map<string, seq<Content>>, used: set<string>)

  ghost predicate Tabulates(t: Tables, entries: seq<Content>) {
    && Indexes(t.byId, entries, ContentId())
    && GroupsAre(t.provided, entries)
    && forall p: string :: p in t.used <==> IsUsed(p, entries)
  }

  function After(t: Tables, e: Content): Tables {
    Tables(t.byId[e.id := e], Added(t.provided, e), if e.packageId != "" then t.used + {e.packageId} else t.used)
  }

  lemma TabulateOneMore(t: Tables, entries: seq<Content>, e: Content)
    requires Tabulates(t, entries) && e.id !in t.byId
    ensures Tabulates(After(t, e), entries + [e])
  {
    hide Indexes, GroupsAre, IsUsed, Added;
    IndexOneMore(t.byId, entries, ContentId(), e);
    GroupOneMore(t.provided, entries, e);
    forall p: string ensures IsUsed(p, entries + [e]) <==>
                       IsUsed(p, entries) || (e.packageId != "" && e.packageId == p) {
      UsedOneMore(entries, e, p);
    }
  }

  lemma Unsound(schema: int, byPackage: map<string, Package>, byAsset: map<string, AssetSpec.Spec>,
                entries: seq<Content>, t: Tables, i: nat)
    requires i < |entries| && Tabulates(t, entries[..i])
    requires entries[i].id in t.byId || !Fits(schema, byPackage, byAsset, entries[i])
    ensures !Sound(schema, byPackage, byAsset, entries)
  {
  }

  /** The checks of one entry, in order. */
  method CheckEntry(schema: int, byPackage: map<string, Package>, byAsset: map<string, AssetSpec.Spec>,
                    byId: map<string, Content>, e: Content)
    returns (ok: bool)
    ensures ok <==> Fits(schema, byPackage, byAsset, e) && e.id !in byId
  {
    if schema < 3 && e.HasApplicationMetadata() { return false; }
    if e.id in byId { return false; }
    if e.id in byAsset { return false; }
    if e.id in byPackage && e.packageId != e.id { return false; }
    if e.packageId != "" {
      if e.packageId !in byPackage { return false; }
      if !Supplies(byPackage[e.packageId], e) { return false; }
    }
    return true;
  }

  /** Distinct ids and fitting entries so far, tabulated. */
  ghost predicate Grouped(schema: int, byPackage: map<string, Package>, byAsset: map<string, AssetSpec.Spec>,
                          t: Tables, entries: seq<Content>)
  {
    Tabulates(t, entries) && Sound(schema, byPackage, byAsset, entries)
  }

  lemma GroupedNothing(schema: int, byPackage: map<string, Package>, byAsset: map<string, AssetSpec.Spec>)
    ensures Grouped(schema, byPackage, byAsset, Tables(map[], map[], {}), [])
  {
  }

  lemma GroupedOneMore(schema: int, byPackage: map<string, Package>, byAsset: map<string, AssetSpec.Spec>,
                       t: Tables, entries: seq<Content>, i: nat)
    requires i < |entries| && Grouped(schema, byPackage, byAsset, t, entries[..i])
    requires entries[i].id !in t.byId && Fits(schema, byPackage, byAsset, entries[i])
    ensures Grouped(schema, byPackage, byAsset, After(t, entries[i]), entries[..i + 1])
  {
    assert entries[..i + 1] == entries[..i] + [entries[i]];
    TabulateOneMore(t, entries[..i], entries[i]);
    hide GroupsAre, IsUsed, Fits, After;
    var more := entries[..i + 1];
    forall j | 0 <= j < |more| ensures Fits(schema, byPackage, byAsset, more[j]) {
      assert j < i ==> more[j] == entries[..i][j];
    }
  }

  /** The loop over the entries, for packages and assets that are already indexed. */
  method GroupEntries(schema: int, byPackage: map<string, Package>, byAsset: map<string, AssetSpec.Spec>,
                      entries: seq<Content>)
    returns (t: Option<Tables>)
    ensures t.Some? ==> Grouped(schema, byPackage, byAsset, t.value, entries)
    ensures t.None? ==> !Sound(schema, byPackage, byAsset, entries)
  {
    var filled := Tables(map[], map[], {});
    GroupedNothing(schema, byPackage, byAsset);
    for i := 0 to |entries|
      invariant Grouped(schema, byPackage, byAsset, filled, entries[..i])
    {
      hide Grouped, Sound, Fits, After;
      var ok := CheckEntry(schema, byPackage, byAsset, filled.byId, entries[i]);
      if !ok {
        Unsound(schema, byPackage, byAsset, entries, filled, i);
        return None;
      }
      GroupedOneMore(schema, byPackage, byAsset, filled, entries, i);
      filled := After(filled, entries[i]);
    }
    assert entries[..|entries|] == entries;
    return Some(filled);
  }

  lemma ValidIsSound(c: Catalog, byPackage: map<string, Package>, byAsset: map<string, AssetSpec.Spec>)
    requires Valid(c)
    requires Indexes(byPackage, c.packages, PackageId()) && Indexes(byAsset, c.assets, AssetId())
    ensures Sound(c.schema, byPackage, byAsset, c.entries)
  {
  }

  /** No package is unused. */
  ghost predicate AllUsed(packages: seq<Package>, entries: seq<Content>) {
    forall i | 0 <= i < |packages| :: IsUsed(packages[i].id, entries)
  }

  lemma NoneUnused(schema: int, packages: seq<Package>, byPackage: map<string, Package>,
                   byAsset: map<string, AssetSpec.Spec>, t: Tables, entries: seq<Content>)
    requires Indexes(byPackage, packages, PackageId()) && Grouped(schema, byPackage, byAsset, t, entries)
    ensures byPackage.Keys <= t.used <==> AllUsed(packages, entries)
  {
  }

  /** What can be said of the parts of any valid catalog. */
  lemma PartsOfValid(c: Catalog)
    requires Valid(c)
    ensures 1 <= c.schema <= 4
    ensures DistinctIds(c.packages, PackageId()) && (c.schema == 1 ==> c.packages == [])
    ensures DistinctIds(c.assets, AssetId()) && |c.assets| <= MAX_ASSETS && (c.schema < 4 ==> c.assets == [])
    ensures AllUsed(c.packages, c.entries)
  {
  }

  lemma BuiltIsValid(c: Catalog, used: set<string>)
    requires 1 <= c.schema <= 4
    requires Indexes(c.byPackage, c.packages, PackageId()) && (c.schema == 1 ==> c.packages == [])
    requires Indexes(c.byAsset, c.assets, AssetId()) && |c.assets| <= MAX_ASSETS && (c.schema < 4 ==> c.assets == [])
    requires Grouped(c.schema, c.byPackage, c.byAsset, Tables(c.byId, c.provided, used), c.entries)
    requires AllUsed(c.packages, c.entries)
    ensures Valid(c)
  {
  }

  /** `Catalog.__init__`: the one valid catalog of these parts, or a refusal where there is none. */
  method Build(entries: seq<Content>, schema: int, packages: seq<Package>, assets: seq<AssetSpec.Spec>)
    returns (c: Option<Catalog>)
    ensures c.Some? ==> Valid(c.value) && IsMadeOf(c.value, entries, schema, packages, assets)
    ensures c.None? ==> forall k: Catalog | IsMadeOf(k, entries, schema, packages, assets) :: !Valid(k)
  {
    hide Valid, Sound, Grouped, Indexes, DistinctIds, AllUsed;
    forall k: Catalog | Valid(k) ensures
        && 1 <= k.schema <= 4
        && DistinctIds(k.packages, PackageId()) && (k.schema == 1 ==> k.packages == [])
        && DistinctIds(k.assets, AssetId()) && |k.assets| <= MAX_ASSETS && (k.schema < 4 ==> k.assets == [])
        && AllUsed(k.packages, k.entries)
    {
      PartsOfValid(k);
    }
    if schema < 1 || schema > 4 { return None; }
    var byPackage := IndexPackages(packages);
    if byPackage.None? || (schema == 1 && packages != []) { return None; }
    var byAsset := IndexAssets(assets);
    if byAsset.None? || (schema < 4 && assets != []) { return None; }
    var t := GroupEntries(schema, byPackage.value, byAsset.value, entries);
    if t.None? {
      forall k: Catalog | IsMadeOf(k, entries, schema, packages, assets) ensures !Valid(k) {
        if Valid(k) { ValidIsSound(k, byPackage.value, byAsset.value); }
      }
      return None;
    }
    NoneUnused(schema, packages, byPackage.value, byAsset.value, t.value, entries);
    if !(byPackage.value.Keys <= t.value.used) { return None; }
    var made := Catalog(schema, entries, t.value.byId, packages, byPackage.value, t.value.provided, assets,
                        byAsset.value);
    BuiltIsValid(made, t.value.used);
    return Some(made);
  }

  /** Parts determine the catalog, so a refusal or a catalog is all that `Build` can answer. */
  lemma ValidIsUnique(c: Catalog, d: Catalog)
    requires Valid(c) && Valid(d) && IsMadeOf(d, c.entries, c.schema, c.packages, c.assets)
    ensures c == d
  {
    hide Fits, IsUsed;
    IndexIsUnique(c.byPackage, d.byPackage, c.packages, PackageId());
    IndexIsUnique(c.byAsset, d.byAsset, c.assets, AssetId());
    IndexIsUnique(c.byId, d.byId, c.entries, ContentId());
    hide Indexes, Sharing;
    forall id: string ensures id in c.provided <==> id in d.provided
                      ensures id in c.provided ==> c.provided[id] == d.provided[id]
    {
      assert Sharing(c.entries, id) == Sharing(d.entries, id);
    }
    assert c.provided == d.provided;
  }
}
