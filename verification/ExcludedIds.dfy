/**
 When the ids of excluded entries hide files: the roots that print as an honest root and differ from it
 in excluded ids give the honest vendored files exactly when each excluded id denotes 20 bytes.
 */
module ExcludedIds {
  import opened Common
  import opened GitObjects
  import opened GitChain
  import opened LooseRecord
  import opened ReadableRecord
  import Utf8

  // ---------------------------------------------------------------------------------------
  // What a walk adds

  /** Nothing collected is lost, what is new lies below the prefix, and names are seen at the top only. */
  predicate Adds(prefix: string, before: Found, after: Found) {
    && before.blobs.Keys <= after.blobs.Keys
    && (forall path | path in after.blobs && path !in before.blobs :: prefix <= path)
    && (prefix != "" ==> after.seen == before.seen)
  }

  lemma {:induction false} WalkAdds(sha: Sha, trees: map<string, seq<Entry>>, oid: string, prefix: string, fuel: nat,
                                    acc: Found)
    requires prefix != "" && Walk(sha, trees, oid, prefix, fuel, acc).Ok?
    ensures Adds(prefix, acc, Walk(sha, trees, oid, prefix, fuel, acc).value)
    decreases fuel, 0, 0
  {
    hide Adds, Oid, TreeBytes, Walk, WalkEntries;
    AcceptedTree(sha, trees, oid, prefix, fuel, acc);
    EntriesAdd(sha, trees, trees[oid], prefix, fuel - 1, acc);
  }

  lemma {:induction false} EntriesAdd(sha: Sha, trees: map<string, seq<Entry>>, entries: seq<Entry>, prefix: string,
                                      fuel: nat, acc: Found)
    requires WalkEntries(sha, trees, entries, prefix, fuel, acc).Ok?
    ensures Adds(prefix, acc, WalkEntries(sha, trees, entries, prefix, fuel, acc).value)
    decreases fuel, |entries|, 0
  {
    hide WalkEntry;
    if entries != [] {
      var next := AcceptedEntries(sha, trees, entries, prefix, fuel, acc);
      EntryAdds(sha, trees, entries[0], prefix, fuel, acc);
      EntriesAdd(sha, trees, entries[1..], prefix, fuel, next);
    }
  }

  lemma {:induction false} EntryAdds(sha: Sha, trees: map<string, seq<Entry>>, e: Entry, prefix: string, fuel: nat,
                                     acc: Found)
    requires WalkEntry(sha, trees, e, prefix, fuel, acc).Ok?
    ensures Adds(prefix, acc, WalkEntry(sha, trees, e, prefix, fuel, acc).value)
    decreases fuel, 0, 1
  {
    hide Walk;
    var below := prefix + e.name + "/";
    if !(prefix == "" && e.name in EXCLUDED) && e.mode == TREE_MODE {
      WalkAdds(sha, trees, e.oid, below, fuel, acc);
      var after := WalkEntry(sha, trees, e, prefix, fuel, acc).value;
      forall path | path in after.blobs && path !in acc.blobs ensures prefix <= path {
        assert below <= path;
      }
    }
  }

  /** A top-level entry adds its own path, or paths below it, or its name to the names seen. */
  lemma TopEntry(sha: Sha, trees: map<string, seq<Entry>>, e: Entry, fuel: nat, acc: Found)
    requires WalkEntry(sha, trees, e, "", fuel, acc).Ok?
    ensures var next := WalkEntry(sha, trees, e, "", fuel, acc).value;
            if e.name in EXCLUDED then next == acc.(seen := acc.seen + [e.name])
            else next.seen == acc.seen
                 && (e.mode != TREE_MODE ==> next.blobs == acc.blobs[e.name := e.oid])
                 && (e.mode == TREE_MODE ==> Adds(e.name + "/", acc, next))
  {
    hide Walk;
    assert "" + e.name == e.name;
    if e.name !in EXCLUDED && e.mode == TREE_MODE {
      WalkAdds(sha, trees, e.oid, e.name + "/", fuel, acc);
    }
  }

  predicate Owns(e: Entry, path: string) {
    e.name !in EXCLUDED && if e.mode == TREE_MODE then e.name + "/" <= path else e.name == path
  }

  /** Every vendored path comes from a top-level entry. */
  lemma {:induction false} PathHasEntry(sha: Sha, trees: map<string, seq<Entry>>, entries: seq<Entry>, fuel: nat,
                                        acc: Found, path: string) returns (e: Entry)
    requires WalkEntries(sha, trees, entries, "", fuel, acc).Ok? && path !in acc.blobs
    requires path in WalkEntries(sha, trees, entries, "", fuel, acc).value.blobs
    ensures e in entries && Owns(e, path)
    decreases |entries|
  {
    hide WalkEntry;
    var next := AcceptedEntries(sha, trees, entries, "", fuel, acc);
    TopEntry(sha, trees, entries[0], fuel, acc);
    if path in next.blobs {
      e := entries[0];
    } else {
      e := PathHasEntry(sha, trees, entries[1..], fuel, next, path);
    }
  }

  /** A top-level file is vendored at its name. */
  lemma {:induction false} FileHasPath(sha: Sha, trees: map<string, seq<Entry>>, entries: seq<Entry>, fuel: nat,
                                       acc: Found, i: nat)
    requires WalkEntries(sha, trees, entries, "", fuel, acc).Ok? && i < |entries|
    requires entries[i].name !in EXCLUDED && entries[i].mode != TREE_MODE
    ensures entries[i].name in WalkEntries(sha, trees, entries, "", fuel, acc).value.blobs
    decreases i
  {
    hide WalkEntries, WalkEntry;
    var next := AcceptedEntries(sha, trees, entries, "", fuel, acc);
    if i == 0 {
      TopEntry(sha, trees, entries[0], fuel, acc);
      EntriesAdd(sha, trees, entries[1..], "", fuel, next);
    } else {
      FileHasPath(sha, trees, entries[1..], fuel, next, i - 1);
    }
  }

  /** Every name seen is the name of a top-level entry. */
  lemma {:induction false} SeenHasEntry(sha: Sha, trees: map<string, seq<Entry>>, entries: seq<Entry>, fuel: nat,
                                        acc: Found, name: string) returns (e: Entry)
    requires WalkEntries(sha, trees, entries, "", fuel, acc).Ok? && name !in acc.seen
    requires name in WalkEntries(sha, trees, entries, "", fuel, acc).value.seen
    ensures e in entries && e.name == name
    decreases |entries|
  {
    hide Adds, WalkEntry;
    var next := AcceptedEntries(sha, trees, entries, "", fuel, acc);
    TopEntry(sha, trees, entries[0], fuel, acc);
    if name in next.seen {
      e := entries[0];
    } else {
      e := SeenHasEntry(sha, trees, entries[1..], fuel, next, name);
    }
  }

  // ---------------------------------------------------------------------------------------
  // Honest roots and their variants

  /** A root as Git writes it: distinct plain names, ids of 20 bytes. */
  predicate HonestEntries(entries: seq<Entry>) {
    && (forall i | 0 <= i < |entries| ::
          CanonicalEntry(entries[i]) && |entries[i].oid| == 40 && '/' !in entries[i].name)
    && (forall i, j | 0 <= i < j < |entries| :: entries[i].name != entries[j].name)
  }

  /** Each directory that is not excluded has a vendored file below it. */
  predicate NoEmptyDirectory(entries: seq<Entry>, blobs: map<string, string>) {
    forall e | e in entries && e.name !in EXCLUDED && e.mode == TREE_MODE ::
      exists path :: path in blobs && e.name + "/" <= path
  }

  /** The same entry, or an excluded one with another id of at least 20 bytes. */
  predicate Varies(e: Entry, honest: Entry) {
    || e == honest
    || (&& honest.name in EXCLUDED && e.name == honest.name && e.mode == honest.mode
        && FromHex(e.oid).Some? && |IdBytes(e.oid)| >= 20)
  }

  predicate Variant(entries: seq<Entry>, honest: seq<Entry>) {
    forall e | e in entries :: exists h :: h in honest && Varies(e, h)
  }

  predicate ExcludedIdsAreShort(entries: seq<Entry>) {
    forall e | e in entries && e.name in EXCLUDED :: FromHex(e.oid).Some? && |IdBytes(e.oid)| == 20
  }

  lemma FirstSlash(a: string, path: string)
    requires '/' !in a && a + "/" <= path
    ensures |a| < |path| && path[..|a|] == a && path[|a|] == '/' && forall i | 0 <= i < |a| :: path[i] != '/'
  {
    assert forall i | 0 <= i < |a| :: path[i] == (a + "/")[i] == a[i];
  }

  lemma SlashSeparates(a: string, b: string, path: string)
    requires '/' !in a && '/' !in b && a + "/" <= path
    ensures b + "/" <= path ==> a == b
    ensures b != path
  {
    FirstSlash(a, path);
    assert path[|a|] in path;
    if b + "/" <= path {
      FirstSlash(b, path);
      assert |a| == |b|;
    }
  }

  lemma VariantNames(entries: seq<Entry>, honest: seq<Entry>, e: Entry) returns (h: Entry)
    requires Variant(entries, honest) && e in entries
    ensures h in honest && Varies(e, h) && h.name == e.name
  {
    h :| h in honest && Varies(e, h);
  }

  /** A variant with the honest files has every honest name. */
  lemma NamesRemain(sha: Sha, t1: map<string, seq<Entry>>, honest: seq<Entry>, t2: map<string, seq<Entry>>,
                    entries: seq<Entry>, fuel: nat, found1: Found, found2: Found, i: nat) returns (e: Entry)
    requires HonestEntries(honest) && Variant(entries, honest) && i < |honest|
    requires WalkEntries(sha, t1, honest, "", fuel, Found(map[], [])) == Ok(found1)
    requires WalkEntries(sha, t2, entries, "", fuel, Found(map[], [])) == Ok(found2)
    requires found1.blobs == found2.blobs && NoEmptyDirectory(honest, found1.blobs)
    requires multiset(found2.seen) == multiset(EXCLUDED)
    ensures e in entries && e.name == honest[i].name
  {
    hide Variant, Varies, WalkEntries;
    var h, empty := honest[i], Found(map[], []);
    if h.name in EXCLUDED {
      assert h.name in multiset(found2.seen);
      e := SeenHasEntry(sha, t2, entries, fuel, empty, h.name);
    } else {
      var path := h.name;
      if h.mode == TREE_MODE {
        path :| path in found1.blobs && h.name + "/" <= path;
      } else {
        FileHasPath(sha, t1, honest, fuel, empty, i);
      }
      e := PathHasEntry(sha, t2, entries, fuel, empty, path);
      var other := VariantNames(entries, honest, e);
      if h.mode == TREE_MODE {
        SlashSeparates(h.name, e.name, path);
      } else if e.mode == TREE_MODE {
        SlashSeparates(e.name, h.name, path);
      }
    }
  }

  // ---------------------------------------------------------------------------------------
  // Counting bytes

  function Weight(entries: seq<Entry>): nat {
    if entries == [] then 0 else |BytesOf(entries[0])| + Weight(entries[1..])
  }

  lemma {:induction false} WeightIsLength(entries: seq<Entry>)
    requires TreeBytes(entries).Some?
    ensures |TreeBytes(entries).value| == Weight(entries)
  {
    hide EntryBytes;
    if entries != [] { WeightIsLength(entries[1..]); }
  }

  function Without(entries: seq<Entry>, k: nat): seq<Entry>
    requires k < |entries|
  {
    entries[..k] + entries[k + 1..]
  }

  lemma {:induction false} WeightWithout(entries: seq<Entry>, k: nat)
    requires k < |entries|
    ensures Weight(entries) == |BytesOf(entries[k])| + Weight(Without(entries, k))
    decreases k
  {
    hide BytesOf;
    if k == 0 {
      assert Without(entries, 0) == entries[1..];
    } else {
      WeightWithout(entries[1..], k - 1);
      assert Without(entries, k)[1..] == Without(entries[1..], k - 1);
    }
  }

  predicate Distinct(entries: seq<Entry>) {
    forall i, j | 0 <= i < j < |entries| :: entries[i].name != entries[j].name
  }

  predicate Covers(entries: seq<Entry>, honest: seq<Entry>) {
    forall h | h in honest :: exists k :: 0 <= k < |entries| && entries[k].name == h.name
  }

  /** Entries are no shorter than their honest namesakes. */
  predicate NoShorter(entries: seq<Entry>, honest: seq<Entry>) {
    forall e, h | e in entries && h in honest && e.name == h.name :: |BytesOf(e)| >= |BytesOf(h)|
  }

  lemma {:induction false} CoverWeighs(entries: seq<Entry>, honest: seq<Entry>)
    requires Distinct(honest) && Covers(entries, honest) && NoShorter(entries, honest)
    ensures Weight(entries) >= Weight(honest)
    decreases |honest|
  {
    hide BytesOf;
    if honest != [] {
      var h := honest[0];
      assert h in honest;
      var k :| 0 <= k < |entries| && entries[k].name == h.name;
      RemovePair(entries, k, honest, 0);
      assert Without(honest, 0) == honest[1..];
      CoverWeighs(Without(entries, k), honest[1..]);
      WeightWithout(entries, k);
    }
  }

  lemma WithoutElements(entries: seq<Entry>, k: nat)
    requires k < |entries|
    ensures |Without(entries, k)| == |entries| - 1
    ensures forall i | 0 <= i < |entries| - 1 :: Without(entries, k)[i] == entries[if i < k then i else i + 1]
    ensures forall e | e in Without(entries, k) :: e in entries
    ensures forall i | 0 <= i < |entries| && i != k :: entries[i] in Without(entries, k)
  {
    forall i | 0 <= i < |entries| && i != k ensures entries[i] in Without(entries, k) {
      assert Without(entries, k)[if i < k then i else i - 1] == entries[i];
    }
  }

  lemma RemovePair(entries: seq<Entry>, k: nat, honest: seq<Entry>, j: nat)
    requires Distinct(honest) && Covers(entries, honest) && NoShorter(entries, honest)
    requires k < |entries| && j < |honest| && entries[k].name == honest[j].name
    ensures Distinct(Without(honest, j)) && Covers(Without(entries, k), Without(honest, j))
    ensures NoShorter(Without(entries, k), Without(honest, j))
  {
    hide Without;
    var fewer, rest := Without(honest, j), Without(entries, k);
    WithoutElements(honest, j);
    WithoutElements(entries, k);
    assert NoShorter(rest, fewer);
    assert Distinct(fewer);
    forall h | h in fewer ensures exists m :: 0 <= m < |rest| && rest[m].name == h.name {
      var i :| 0 <= i < |fewer| && fewer[i] == h;
      var at := if i < j then i else i + 1;
      assert h == honest[at] && h in honest;
      assert h.name != honest[j].name;
      var m :| 0 <= m < |entries| && entries[m].name == h.name;
      assert entries[m] in rest;
    }
    assert Covers(rest, fewer);
  }

  /** With the honest weight, no entry outweighs its honest namesake. */
  lemma NoneOutweighs(entries: seq<Entry>, k: nat, honest: seq<Entry>, j: nat)
    requires Distinct(honest) && Covers(entries, honest) && NoShorter(entries, honest)
    requires k < |entries| && j < |honest| && entries[k].name == honest[j].name
    requires Weight(entries) == Weight(honest)
    ensures |BytesOf(entries[k])| == |BytesOf(honest[j])|
  {
    hide BytesOf, Covers, Distinct, Weight, Without;
    RemovePair(entries, k, honest, j);
    CoverWeighs(Without(entries, k), Without(honest, j));
    WeightWithout(entries, k);
    WeightWithout(honest, j);
    assert entries[k] in entries && honest[j] in honest;
  }

  /** An excluded entry is as much longer than the honest one as its id. */
  lemma VariedWeight(e: Entry, h: Entry)
    requires CanonicalEntry(h) && |h.oid| == 40 && Varies(e, h)
    ensures FromHex(e.oid).Some? && |BytesOf(e)| == |BytesOf(h)| - 20 + |IdBytes(e.oid)|
    ensures |IdBytes(e.oid)| >= 20
  {
    HexOfFromHex(h.oid);
    hide Ascii, FromHex, ToHex, Utf8.Encode, IsHex;
  }

  lemma VariedByName(e: Entry, h: Entry, honest: seq<Entry>, entries: seq<Entry>)
    requires HonestEntries(honest) && Variant(entries, honest) && e in entries && h in honest && e.name == h.name
    ensures Varies(e, h)
  {
    hide Varies, CanonicalEntry;
    var other := VariantNames(entries, honest, e);
    var i :| 0 <= i < |honest| && honest[i] == h;
    var j :| 0 <= j < |honest| && honest[j] == other;
    assert i == j;
  }

  /** A variant that weighs the same and has every honest name has short ids. */
  lemma SameWeightMeansShort(entries: seq<Entry>, honest: seq<Entry>)
    requires HonestEntries(honest) && Variant(entries, honest) && Covers(entries, honest)
    requires Weight(entries) == Weight(honest)
    ensures ExcludedIdsAreShort(entries)
  {
    hide BytesOf, CanonicalEntry, Covers, FromHex, IdBytes, Variant, Varies, Weight;
    forall e, h | e in entries && h in honest && e.name == h.name ensures |BytesOf(e)| >= |BytesOf(h)| {
      VariedByName(e, h, honest, entries);
      VariedWeight(e, h);
    }
    forall e | e in entries && e.name in EXCLUDED ensures FromHex(e.oid).Some? && |IdBytes(e.oid)| == 20 {
      var h := VariantNames(entries, honest, e);
      VariedWeight(e, h);
      var k :| 0 <= k < |entries| && entries[k] == e;
      var j :| 0 <= j < |honest| && honest[j] == h;
      NoneOutweighs(entries, k, honest, j);
    }
  }

  // ---------------------------------------------------------------------------------------
  // Short ids give the honest walk

  /** A variant with short ids is readable, so it lists the honest entries, up to excluded ids. */
  lemma ShortIsHonest(entries: seq<Entry>, honest: seq<Entry>)
    requires HonestEntries(honest) && Variant(entries, honest) && ExcludedIdsAreShort(entries)
    requires TreeBytes(honest).Some? && TreeBytes(entries) == TreeBytes(honest)
    ensures |entries| == |honest|
    ensures forall i | 0 <= i < |entries| :: entries[i].name == honest[i].name
    ensures forall i | 0 <= i < |entries| && entries[i].name !in EXCLUDED :: entries[i] == honest[i]
  {
    hide CanonicalEntry, ExcludedIdsAreShort, ParseTree, ReadableEntry, Spelled, SpelledTree, TreeBytes, Variant,
         Varies;
    ParsePrintCanonical(honest);
    forall i | 0 <= i < |entries|
      ensures ReadableEntry(entries[i], i == |entries| - 1)
      ensures Spelled(entries[i]).name == entries[i].name
      ensures entries[i].name !in EXCLUDED ==> Spelled(entries[i]) == entries[i]
    {
      assert entries[i] in entries;
      var h := VariantNames(entries, honest, entries[i]);
      ShortEntryIsReadable(entries[i], h, entries, i == |entries| - 1);
    }
    ReadableExactly(entries);
    assert SpelledTree(entries) == honest;
    assert forall i | 0 <= i < |entries| :: honest[i] == Spelled(entries[i]);
  }

  lemma ShortEntryIsReadable(e: Entry, h: Entry, entries: seq<Entry>, last: bool)
    requires e in entries && ExcludedIdsAreShort(entries)
    requires CanonicalEntry(h) && |h.oid| == 40 && Varies(e, h)
    ensures ReadableEntry(e, last)
    ensures Spelled(e).name == e.name
    ensures e.name !in EXCLUDED ==> Spelled(e) == e
  {
    HexOfFromHex(h.oid);
    hide Ascii, FromHex, ToHex, IsHex;
  }

  /** The walk at the top passes over excluded ids. */
  lemma {:induction false} SameButExcludedIds(sha: Sha, trees: map<string, seq<Entry>>, a: seq<Entry>, b: seq<Entry>,
                                              fuel: nat, acc: Found)
    requires |a| == |b| && forall i | 0 <= i < |a| :: a[i].name == b[i].name
    requires forall i | 0 <= i < |a| && a[i].name !in EXCLUDED :: a[i] == b[i]
    ensures WalkEntries(sha, trees, a, "", fuel, acc) == WalkEntries(sha, trees, b, "", fuel, acc)
    decreases |a|
  {
    hide Walk, EXCLUDED;
    if a != [] {
      assert WalkEntry(sha, trees, a[0], "", fuel, acc) == WalkEntry(sha, trees, b[0], "", fuel, acc);
      assert forall i | 0 <= i < |a[1..]| :: a[1..][i] == a[i + 1] && b[1..][i] == b[i + 1];
      if WalkEntry(sha, trees, a[0], "", fuel, acc).Ok? {
        SameButExcludedIds(sha, trees, a[1..], b[1..], fuel, WalkEntry(sha, trees, a[0], "", fuel, acc).value);
      }
    }
  }

  predicate Extends(more: map<string, seq<Entry>>, trees: map<string, seq<Entry>>) {
    forall oid | oid in trees :: oid in more && more[oid] == trees[oid]
  }

  /** More recorded trees do not change an accepted walk. */
  lemma {:induction false} MoreTrees(sha: Sha, trees: map<string, seq<Entry>>, more: map<string, seq<Entry>>,
                                     oid: string, prefix: string, fuel: nat, acc: Found)
    requires Extends(more, trees) && Walk(sha, trees, oid, prefix, fuel, acc).Ok?
    ensures Walk(sha, more, oid, prefix, fuel, acc) == Walk(sha, trees, oid, prefix, fuel, acc)
    decreases fuel, 0, 0
  {
    hide Oid, TreeBytes, Walk, WalkEntries;
    AcceptedTree(sha, trees, oid, prefix, fuel, acc);
    RecordedTree(sha, more, oid, TreeBytes(trees[oid]).value, prefix, fuel, acc);
    MoreTreesEntries(sha, trees, more, trees[oid], prefix, fuel - 1, acc);
  }

  lemma {:induction false} MoreTreesEntries(sha: Sha, trees: map<string, seq<Entry>>, more: map<string, seq<Entry>>,
                                            entries: seq<Entry>, prefix: string, fuel: nat, acc: Found)
    requires Extends(more, trees) && WalkEntries(sha, trees, entries, prefix, fuel, acc).Ok?
    ensures WalkEntries(sha, more, entries, prefix, fuel, acc) == WalkEntries(sha, trees, entries, prefix, fuel, acc)
    decreases fuel, |entries|, 0
  {
    hide Extends, WalkEntry;
    if entries != [] {
      var next := AcceptedEntries(sha, trees, entries, prefix, fuel, acc);
      MoreTreesEntry(sha, trees, more, entries[0], prefix, fuel, acc);
      MoreTreesEntries(sha, trees, more, entries[1..], prefix, fuel, next);
    }
  }

  lemma {:induction false} MoreTreesEntry(sha: Sha, trees: map<string, seq<Entry>>, more: map<string, seq<Entry>>,
                                          e: Entry, prefix: string, fuel: nat, acc: Found)
    requires Extends(more, trees) && WalkEntry(sha, trees, e, prefix, fuel, acc).Ok?
    ensures WalkEntry(sha, more, e, prefix, fuel, acc) == WalkEntry(sha, trees, e, prefix, fuel, acc)
    decreases fuel, 0, 1
  {
    hide Extends, Walk;
    if !(prefix == "" && e.name in EXCLUDED) && e.mode == TREE_MODE {
      MoreTrees(sha, trees, more, e.oid, prefix + e.name + "/", fuel, acc);
    }
  }

  // ---------------------------------------------------------------------------------------
  // The exact condition

  /** A record whose root lists the given entries, above the trees below. */
  function RecordWith(pin: string, commit: string, root: string, entries: seq<Entry>, below: map<string, seq<Entry>>)
    : Record
  {
    Record(SCHEMA, pin, EXCLUDED, commit, below[root := entries])
  }

  /** The commit, the root and the trees of an honest record, and what the walk finds in it. */
  ghost predicate HonestRecord(sha: Sha, pin: string, commit: string, root: string, honest: seq<Entry>,
                               below: map<string, seq<Entry>>, fuel: nat, found: Found)
  {
    && Oid(sha, COMMIT, Utf8.Encode(commit)) == pin && RootOf(Utf8.Encode(commit)) == Some(root)
    && HonestEntries(honest) && TreeBytes(honest).Some? && Oid(sha, TREE, TreeBytes(honest).value) == root
    && root !in below && fuel > 0
    && WalkEntries(sha, below, honest, "", fuel - 1, Found(map[], [])) == Ok(found)
    && multiset(found.seen) == multiset(EXCLUDED) && NoEmptyDirectory(honest, found.blobs)
  }

  lemma RootIsWalked(sha: Sha, pin: string, commit: string, root: string, entries: seq<Entry>,
                     below: map<string, seq<Entry>>, raw: Bytes, fuel: nat)
    requires Oid(sha, COMMIT, Utf8.Encode(commit)) == pin && RootOf(Utf8.Encode(commit)) == Some(root)
    requires TreeBytes(entries) == Some(raw) && Oid(sha, TREE, raw) == root && fuel > 0
    ensures ChainBlobs(sha, pin, RecordWith(pin, commit, root, entries, below), fuel)
         == match WalkEntries(sha, below[root := entries], entries, "", fuel - 1, Found(map[], []))
            case Err(e) => Err(e)
            case Ok(f) => if multiset(f.seen) != multiset(EXCLUDED) then Err(MissingExclusion) else Ok(f.blobs)
  {
    hide Oid, RootOf, TreeBytes, Utf8.Encode, Walk, WalkEntries;
    RecordedTree(sha, below[root := entries], root, raw, "", fuel, Found(map[], []));
  }

  /** A root that prints as the honest one gives its files exactly when each excluded id denotes 20 bytes. */
  lemma HonestFilesExactlyWithShortIds(sha: Sha, pin: string, commit: string, root: string, honest: seq<Entry>,
                                       entries: seq<Entry>, below: map<string, seq<Entry>>, fuel: nat, found: Found)
    requires HonestRecord(sha, pin, commit, root, honest, below, fuel, found)
    requires Variant(entries, honest) && TreeBytes(entries) == TreeBytes(honest)
    ensures ChainBlobs(sha, pin, RecordWith(pin, commit, root, entries, below), fuel) == Ok(found.blobs)
            <==> ExcludedIdsAreShort(entries)
  {
    hide ChainBlobs, ExcludedIdsAreShort, HonestEntries, NoEmptyDirectory, Oid, RecordWith, RootOf, TreeBytes,
         Utf8.Encode, Variant, WalkEntries, Weight;
    var raw, trees, empty := TreeBytes(honest).value, below[root := entries], Found(map[], []);
    RootIsWalked(sha, pin, commit, root, entries, below, raw, fuel);
    if ExcludedIdsAreShort(entries) {
      ShortIsHonest(entries, honest);
      SameButExcludedIds(sha, trees, entries, honest, fuel - 1, empty);
      assert Extends(trees, below);
      MoreTreesEntries(sha, below, trees, honest, "", fuel - 1, empty);
    }
    if ChainBlobs(sha, pin, RecordWith(pin, commit, root, entries, below), fuel) == Ok(found.blobs) {
      var found2 := WalkEntries(sha, trees, entries, "", fuel - 1, empty).value;
      forall h | h in honest ensures exists k :: 0 <= k < |entries| && entries[k].name == h.name {
        var i :| 0 <= i < |honest| && honest[i] == h;
        var e := NamesRemain(sha, below, honest, trees, entries, fuel - 1, found, found2, i);
        var k :| 0 <= k < |entries| && entries[k] == e;
      }
      assert Covers(entries, honest);
      WeightIsLength(entries);
      WeightIsLength(honest);
      SameWeightMeansShort(entries, honest);
    }
  }

  /** The honest record itself is accepted. */
  lemma HonestIsAccepted(sha: Sha, pin: string, commit: string, root: string, honest: seq<Entry>,
                         below: map<string, seq<Entry>>, fuel: nat, found: Found)
    requires HonestRecord(sha, pin, commit, root, honest, below, fuel, found)
    ensures ChainBlobs(sha, pin, RecordWith(pin, commit, root, honest, below), fuel) == Ok(found.blobs)
  {
    hide ChainBlobs, Oid, RecordWith, RootOf, TreeBytes, Utf8.Encode, WalkEntries;
    var trees := below[root := honest];
    RootIsWalked(sha, pin, commit, root, honest, below, TreeBytes(honest).value, fuel);
    assert Extends(trees, below);
    MoreTreesEntries(sha, below, trees, honest, "", fuel - 1, Found(map[], []));
  }

  /** The root that hides a file is such a variant, and its last excluded id is longer. */
  lemma LooseRootIsAVariant(file: Entry)
    requires CanonicalEntry(file) && |file.oid| == 40
    ensures Variant(LooseRoot(file), HonestRoot(file)) && TreeBytes(LooseRoot(file)) == TreeBytes(HonestRoot(file))
    ensures !ExcludedIdsAreShort(LooseRoot(file))
  {
    hide CanonicalEntry, ExcludedEntries, FromHex, IdBytes, TreeBytes;
    SameBytes(file);
    ExcludedEntriesLast();
    ExcludedNamesAreClean();
    var front, last, loose := ExcludedEntries(EXCLUDED[..6]), Entry("100644", EXCLUDED[6], ZEROS), LooseEntry(file);
    assert LooseRoot(file) == front + [loose] && HonestRoot(file) == front + [last] + [file];
    LooseIsLonger(file);
    assert EXCLUDED[6] in EXCLUDED;
    assert Varies(loose, last);
    forall e | e in LooseRoot(file) ensures exists h :: h in HonestRoot(file) && Varies(e, h) {
      if e == loose {
        assert last in HonestRoot(file);
      } else {
        assert e in HonestRoot(file) && Varies(e, e);
      }
    }
    assert loose in LooseRoot(file) && loose.name in EXCLUDED;
  }

  lemma LooseIsLonger(file: Entry)
    requires CanonicalEntry(file) && |file.oid| == 40
    ensures FromHex(LooseEntry(file).oid).Some? && |IdBytes(LooseEntry(file).oid)| > 20
  {
    hide ToHex, FromHex, IsHex, EntryBytes, ParseEntry, CanonicalEntry;
    ZerosAreHex();
    HexOfFromHex(ZEROS);
    ParseEntryOfBytes(file, []);
    FromHexOfHex(BytesOf(file));
    FromHexConcat(ZEROS, ToHex(BytesOf(file)));
  }
}
