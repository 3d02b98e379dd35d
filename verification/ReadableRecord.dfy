/**
 How far the spelling of a recorded tree matters: the pin determines every vendored byte as soon as the
 recorded trees can be read back, and hiding a file takes an excluded id of more than 20 bytes.
 */
module ReadableRecord {
  import opened Common
  import opened GitObjects
  import opened GitChain
  import opened LooseRecord
  import Utf8

  // ---------------------------------------------------------------------------------------
  // Trees that read back, up to the spelling of their ids

  /** The entry as `parse_tree` spells it: `bytes.fromhex` takes either case and skips white space. */
  function Spelled(e: Entry): Entry {
    if FromHex(e.oid).Some? then e.(oid := ToHex(FromHex(e.oid).value)) else e
  }

  function SpelledTree(entries: seq<Entry>): (r: seq<Entry>)
    ensures |r| == |entries| && forall i | 0 <= i < |r| :: r[i] == Spelled(entries[i])
  {
    if entries == [] then [] else [Spelled(entries[0])] + SpelledTree(entries[1..])
  }

  lemma SpelledId(e: Entry)
    ensures FromHex(Spelled(e).oid) == FromHex(e.oid)
    ensures EntryBytes(Spelled(e)) == EntryBytes(e)
  {
    if FromHex(e.oid).Some? { FromHexOfHex(FromHex(e.oid).value); }
    hide Ascii, FromHex, ToHex, Utf8.Encode;
  }

  lemma {:induction false} SpelledPrints(entries: seq<Entry>)
    ensures TreeBytes(SpelledTree(entries)) == TreeBytes(entries)
  {
    hide Spelled, EntryBytes;
    if entries != [] {
      SpelledId(entries[0]);
      SpelledPrints(entries[1..]);
      assert SpelledTree(entries)[1..] == SpelledTree(entries[1..]);
    }
  }

  /** A raw tree tells these entries apart: only the spelling of their ids is lost. */
  predicate Readable(entries: seq<Entry>) {
    TreeBytes(entries).Some? && ParseTree(TreeBytes(entries).value) == Some(SpelledTree(entries))
  }

  function IdBytes(oid: string): Bytes {
    match FromHex(oid) case Some(b) => b case None => []
  }

  /** 20 bytes, or fewer at the end of the tree. */
  predicate ReadableId(oid: string, last: bool) {
    FromHex(oid).Some? && (|IdBytes(oid)| == 20 || (last && |IdBytes(oid)| < 20))
  }

  predicate ReadableEntry(e: Entry, last: bool) {
    Ascii(e.mode).Some? && ' ' !in e.mode && '\0' !in e.name && ReadableId(e.oid, last)
  }

  lemma SpelledIsCanonical(e: Entry)
    ensures CanonicalEntry(Spelled(e)) <==> ReadableEntry(e, true)
    ensures CanonicalEntry(Spelled(e)) ==> (|Spelled(e).oid| == 40 <==> |IdBytes(e.oid)| == 20)
  {
    hide Ascii, FromHex, ToHex, IsHex;
    if FromHex(e.oid).Some? {
      HexIsHex(FromHex(e.oid).value);
    } else if IsHex(e.oid) {
      HexOfFromHex(e.oid);
    }
  }

  /** Entries read back exactly when modes hold no space, names no NUL, and ids denote 20 bytes. */
  lemma ReadableExactly(entries: seq<Entry>)
    ensures Readable(entries) <==> forall i | 0 <= i < |entries| :: ReadableEntry(entries[i], i == |entries| - 1)
  {
    hide EntryBytes, TreeBytes, ParseTree, Spelled, CanonicalEntry, IdBytes, FromHex, Ascii;
    SpelledPrints(entries);
    var spelled := SpelledTree(entries);
    ParsePrintExactlyCanonical(spelled);
    forall i | 0 <= i < |entries|
      ensures spelled[i] == Spelled(entries[i])
      ensures CanonicalEntry(spelled[i]) <==> ReadableEntry(entries[i], true)
      ensures CanonicalEntry(spelled[i]) ==> (|spelled[i].oid| == 40 <==> |IdBytes(entries[i].oid)| == 20)
    {
      SpelledIsCanonical(entries[i]);
    }
    assert Readable(entries) <==> Canonical(spelled);
  }

  /** Whatever `parse_tree` writes is readable. */
  lemma CanonicalIsReadable(entries: seq<Entry>)
    requires Canonical(entries)
    ensures Readable(entries)
  {
    forall i | 0 <= i < |entries| ensures ReadableEntry(entries[i], i == |entries| - 1) {
      HexOfFromHex(entries[i].oid);
      hide FromHex, Ascii, ToHex, IsHex;
    }
    ReadableExactly(entries);
  }

  // ---------------------------------------------------------------------------------------
  // The pin determines every byte of readable records

  /**
   What the walk itself does not check: names hold no NUL, the modes of excluded entries no space,
   and the ids of excluded entries and of files denote 20 bytes. (The id of a file is compared with a
   hash only if no later entry has the same path.)
   */
  predicate Legible(entries: seq<Entry>) {
    forall i | 0 <= i < |entries| ::
      var e := entries[i];
      && '\0' !in e.name
      && (e.name in EXCLUDED ==> ' ' !in e.mode)
      && (e.name in EXCLUDED || e.mode != TREE_MODE ==> ReadableId(e.oid, i == |entries| - 1))
  }

  predicate LegibleTrees(trees: map<string, seq<Entry>>) {
    forall oid | oid in trees :: Legible(trees[oid])
  }

  lemma CanonicalTreesAreLegible(trees: map<string, seq<Entry>>)
    requires CanonicalTrees(trees)
    ensures LegibleTrees(trees)
  {
    forall oid | oid in trees ensures Legible(trees[oid]) {
      CanonicalIsReadable(trees[oid]);
      ReadableExactly(trees[oid]);
      hide Readable, Canonical, ReadableId, Ascii;
    }
  }

  /** Every entry of an accepted list was accepted by itself. */
  lemma {:induction false} AcceptedEntry(sha: Sha, trees: map<string, seq<Entry>>, entries: seq<Entry>, i: nat,
                                         prefix: string, fuel: nat, acc: Found) returns (before: Found)
    requires i < |entries| && WalkEntries(sha, trees, entries, prefix, fuel, acc).Ok?
    ensures WalkEntry(sha, trees, entries[i], prefix, fuel, before).Ok?
    decreases i
  {
    hide WalkEntry, Walk;
    var next := AcceptedEntries(sha, trees, entries, prefix, fuel, acc);
    if i == 0 {
      before := acc;
    } else {
      before := AcceptedEntry(sha, trees, entries[1..], i - 1, prefix, fuel, next);
    }
  }

  /** The id of an accepted directory is what the hash returned. */
  lemma AcceptedDirectory(sha: Sha, trees: map<string, seq<Entry>>, e: Entry, prefix: string, fuel: nat, acc: Found)
    requires HexHash(sha) && WalkEntry(sha, trees, e, prefix, fuel, acc).Ok?
    requires !(prefix == "" && e.name in EXCLUDED)
    ensures e.mode == TREE_MODE || e.mode in FILE_MODES
    ensures e.mode == TREE_MODE ==> Walk(sha, trees, e.oid, prefix + e.name + "/", fuel, acc).Ok?
    ensures e.mode == TREE_MODE ==> IsHex(e.oid) && |e.oid| == 40
  {
    hide Walk, IsHex, EXCLUDED, FILE_MODES, TreeBytes;
    if e.mode == TREE_MODE {
      AcceptedTree(sha, trees, e.oid, prefix + e.name + "/", fuel, acc);
    }
  }

  lemma HexIsReadable(oid: string)
    requires IsHex(oid) && |oid| == 40
    ensures ReadableId(oid, false)
  {
    HexOfFromHex(oid);
  }

  lemma PrintedEntry(entries: seq<Entry>, i: nat)
    requires TreeBytes(entries).Some? && i < |entries|
    ensures Ascii(entries[i].mode).Some? && FromHex(entries[i].oid).Some?
    decreases i
  {
    hide Ascii, FromHex;
    if i > 0 { PrintedEntry(entries[1..], i - 1); }
  }

  lemma ModesHoldNoSpace()
    ensures ' ' !in TREE_MODE && forall m | m in FILE_MODES :: ' ' !in m
  {
  }

  /** An accepted tree that is legible can be read back. */
  lemma AcceptedIsReadable(sha: Sha, trees: map<string, seq<Entry>>, oid: string, prefix: string, fuel: nat,
                           acc: Found)
    requires HexHash(sha) && LegibleTrees(trees)
    requires Walk(sha, trees, oid, prefix, fuel, acc).Ok?
    ensures oid in trees && Readable(trees[oid])
  {
    hide HexHash, Legible, Oid, Readable, ReadableEntry, TreeBytes, Walk, WalkEntries;
    AcceptedTree(sha, trees, oid, prefix, fuel, acc);
    var entries := trees[oid];
    forall i | 0 <= i < |entries| ensures ReadableEntry(entries[i], i == |entries| - 1) {
      AcceptedEntryIsReadable(sha, trees, entries, i, prefix, fuel - 1, acc);
    }
    ReadableExactly(entries);
  }

  lemma AcceptedEntryIsReadable(sha: Sha, trees: map<string, seq<Entry>>, entries: seq<Entry>, i: nat,
                                prefix: string, fuel: nat, acc: Found)
    requires HexHash(sha) && Legible(entries) && TreeBytes(entries).Some? && i < |entries|
    requires WalkEntries(sha, trees, entries, prefix, fuel, acc).Ok?
    ensures ReadableEntry(entries[i], i == |entries| - 1)
  {
    hide Ascii, FromHex, HexHash, IsHex, TreeBytes, Walk, WalkEntries, WalkEntry;
    var e := entries[i];
    PrintedEntry(entries, i);
    if !(prefix == "" && e.name in EXCLUDED) {
      var before := AcceptedEntry(sha, trees, entries, i, prefix, fuel, acc);
      AcceptedDirectory(sha, trees, e, prefix, fuel, before);
      ModesHoldNoSpace();
      if e.mode == TREE_MODE { HexIsReadable(e.oid); }
    }
  }

  /** Two readable trees with one id differ in the spelling of ids only. */
  lemma SameIdSameSpelling(sha: Sha, t1: map<string, seq<Entry>>, t2: map<string, seq<Entry>>, oid: string)
    requires oid in t1 && oid in t2 && Readable(t1[oid]) && Readable(t2[oid])
    requires Oid(sha, TREE, TreeBytes(t1[oid]).value) == oid && Oid(sha, TREE, TreeBytes(t2[oid]).value) == oid
    requires NoCollision(sha, TreeFrames(t1) + TreeFrames(t2))
    ensures SpelledTree(t1[oid]) == SpelledTree(t2[oid])
  {
    var b1, b2 := TreeBytes(t1[oid]).value, TreeBytes(t2[oid]).value;
    hide TreeBytes, ParseTree, Frame, SpelledTree;
    assert Frame(TREE, b1) in TreeFrames(t1) && Frame(TREE, b2) in TreeFrames(t2);
    assert SPACE !in TREE;
    FrameIsInjective(TREE, b1, TREE, b2);
  }

  /** The same paths, the same excluded names, and ids that denote the same bytes. */
  predicate Similar(a: Found, b: Found) {
    && a.seen == b.seen && a.blobs.Keys == b.blobs.Keys
    && forall path | path in a.blobs :: FromHex(a.blobs[path]) == FromHex(b.blobs[path])
  }

  lemma {:induction false} WalksAreSimilar(sha: Sha, t1: map<string, seq<Entry>>, t2: map<string, seq<Entry>>,
                                           oid: string, prefix: string, f1: nat, f2: nat, a1: Found, a2: Found)
    requires HexHash(sha) && LegibleTrees(t1) && LegibleTrees(t2)
    requires NoCollision(sha, TreeFrames(t1) + TreeFrames(t2)) && Similar(a1, a2)
    requires Walk(sha, t1, oid, prefix, f1, a1).Ok? && Walk(sha, t2, oid, prefix, f2, a2).Ok?
    ensures Similar(Walk(sha, t1, oid, prefix, f1, a1).value, Walk(sha, t2, oid, prefix, f2, a2).value)
    decreases f1, 0, 0
  {
    hide HexHash, LegibleTrees, NoCollision, Oid, Readable, Similar, SpelledTree, TreeBytes, TreeFrames, Walk,
         WalkEntries;
    AcceptedTree(sha, t1, oid, prefix, f1, a1);
    AcceptedTree(sha, t2, oid, prefix, f2, a2);
    AcceptedIsReadable(sha, t1, oid, prefix, f1, a1);
    AcceptedIsReadable(sha, t2, oid, prefix, f2, a2);
    SameIdSameSpelling(sha, t1, t2, oid);
    EntriesAreSimilar(sha, t1, t2, t1[oid], t2[oid], prefix, f1 - 1, f2 - 1, a1, a2);
  }

  lemma {:induction false} EntriesAreSimilar(sha: Sha, t1: map<string, seq<Entry>>, t2: map<string, seq<Entry>>,
                                             e1: seq<Entry>, e2: seq<Entry>, prefix: string, f1: nat, f2: nat,
                                             a1: Found, a2: Found)
    requires HexHash(sha) && LegibleTrees(t1) && LegibleTrees(t2) && SpelledTree(e1) == SpelledTree(e2)
    requires NoCollision(sha, TreeFrames(t1) + TreeFrames(t2)) && Similar(a1, a2)
    requires WalkEntries(sha, t1, e1, prefix, f1, a1).Ok? && WalkEntries(sha, t2, e2, prefix, f2, a2).Ok?
    ensures Similar(WalkEntries(sha, t1, e1, prefix, f1, a1).value, WalkEntries(sha, t2, e2, prefix, f2, a2).value)
    decreases f1, |e1|, 0
  {
    hide HexHash, LegibleTrees, NoCollision, Similar, Spelled, SpelledTree, TreeFrames, WalkEntry;
    if e1 != [] {
      var next1 := AcceptedEntries(sha, t1, e1, prefix, f1, a1);
      var next2 := AcceptedEntries(sha, t2, e2, prefix, f2, a2);
      assert Spelled(e1[0]) == SpelledTree(e1)[0] == Spelled(e2[0]);
      EntryIsSimilar(sha, t1, t2, e1[0], e2[0], prefix, f1, f2, a1, a2);
      assert SpelledTree(e1[1..]) == SpelledTree(e1)[1..] == SpelledTree(e2[1..]);
      EntriesAreSimilar(sha, t1, t2, e1[1..], e2[1..], prefix, f1, f2, next1, next2);
    }
  }

  lemma {:induction false} EntryIsSimilar(sha: Sha, t1: map<string, seq<Entry>>, t2: map<string, seq<Entry>>,
                                          e1: Entry, e2: Entry, prefix: string, f1: nat, f2: nat,
                                          a1: Found, a2: Found)
    requires HexHash(sha) && LegibleTrees(t1) && LegibleTrees(t2) && Spelled(e1) == Spelled(e2)
    requires NoCollision(sha, TreeFrames(t1) + TreeFrames(t2)) && Similar(a1, a2)
    requires WalkEntry(sha, t1, e1, prefix, f1, a1).Ok? && WalkEntry(sha, t2, e2, prefix, f2, a2).Ok?
    ensures Similar(WalkEntry(sha, t1, e1, prefix, f1, a1).value, WalkEntry(sha, t2, e2, prefix, f2, a2).value)
    decreases f1, 0, 1
  {
    hide EntryBytes, FromHex, HexHash, IsHex, LegibleTrees, NoCollision, Spelled, TreeFrames, Walk;
    SpelledId(e1);
    SpelledId(e2);
    SpelledKeeps(e1);
    SpelledKeeps(e2);
    if !(prefix == "" && e1.name in EXCLUDED) && e1.mode == TREE_MODE {
      AcceptedDirectory(sha, t1, e1, prefix, f1, a1);
      AcceptedDirectory(sha, t2, e2, prefix, f2, a2);
      SameHexSameId(e1.oid, e2.oid);
      WalksAreSimilar(sha, t1, t2, e1.oid, prefix + e1.name + "/", f1, f2, a1, a2);
    }
  }

  lemma SpelledKeeps(e: Entry)
    ensures Spelled(e).mode == e.mode && Spelled(e).name == e.name
  {
  }

  lemma SameHexSameId(a: string, b: string)
    requires IsHex(a) && IsHex(b) && FromHex(a) == FromHex(b)
    ensures a == b
  {
    HexOfFromHex(a);
    HexOfFromHex(b);
  }

  /** A vendored file was hashed, and its id is the recorded one. */
  lemma AcceptedFile(sha: Sha, pin: string, r: Record, files: map<string, Bytes>, fuel: nat, path: string)
    requires HexHash(sha) && ChainHolds(sha, pin, r, files, fuel)
    requires path in files || path in ChainBlobs(sha, pin, r, fuel).value
    ensures ChainBlobs(sha, pin, r, fuel).Ok? && path in files && path in ChainBlobs(sha, pin, r, fuel).value
    ensures Oid(sha, BLOB, files[path]) == ChainBlobs(sha, pin, r, fuel).value[path]
    ensures IsHex(ChainBlobs(sha, pin, r, fuel).value[path]) && Frame(BLOB, files[path]) in Hashed(r, files)
  {
    hide ChainBlobs, IsHex, Frame, TreeFrames, Utf8.Encode;
  }

  lemma FewerFrames(sha: Sha, r1: Record, files1: map<string, Bytes>, r2: Record, files2: map<string, Bytes>)
    requires NoCollision(sha, Hashed(r1, files1) + Hashed(r2, files2))
    ensures NoCollision(sha, TreeFrames(r1.trees) + TreeFrames(r2.trees))
    ensures Frame(COMMIT, Utf8.Encode(r1.commit)) in Hashed(r1, files1)
    ensures Frame(COMMIT, Utf8.Encode(r2.commit)) in Hashed(r2, files2)
  {
    hide Frame, TreeFrames, Utf8.Encode;
  }

  /**
   Two legible records and two vendored trees that pass the check for one pin are the same vendored
   tree, unless two different objects among those the checks hashed share an id.
   */
  lemma PinDeterminesLegibleRecords(sha: Sha, pin: string, r1: Record, files1: map<string, Bytes>, f1: nat,
                                    r2: Record, files2: map<string, Bytes>, f2: nat)
    requires HexHash(sha) && LegibleTrees(r1.trees) && LegibleTrees(r2.trees)
    requires NoCollision(sha, Hashed(r1, files1) + Hashed(r2, files2))
    requires ChainHolds(sha, pin, r1, files1, f1) && ChainHolds(sha, pin, r2, files2, f2)
    ensures ChainBlobs(sha, pin, r1, f1) == ChainBlobs(sha, pin, r2, f2)
    ensures files1 == files2
  {
    hide ChainBlobs, Frame, FromHex, Hashed, HexHash, IsHex, LegibleTrees, NoCollision, Oid, RootOf, TreeFrames,
         Utf8.Encode, Walk;
    assert ChainBlobs(sha, pin, r1, f1).Ok? && ChainBlobs(sha, pin, r2, f2).Ok?;
    var hashed := Hashed(r1, files1) + Hashed(r2, files2);
    FewerFrames(sha, r1, files1, r2, files2);
    var root, found := AcceptedRecord(sha, pin, r1, f1);
    var root2, found2 := AcceptedRecord(sha, pin, r2, f2);
    assert SPACE !in COMMIT && SPACE !in BLOB;
    SameIdSameBody(sha, COMMIT, Utf8.Encode(r1.commit), Utf8.Encode(r2.commit), hashed);
    WalksAreSimilar(sha, r1.trees, r2.trees, root, "", f1, f2, Found(map[], []), Found(map[], []));
    forall path | path in files1 || path in found.blobs
      ensures path in files1 && path in files2 && path in found.blobs && path in found2.blobs
      ensures found.blobs[path] == found2.blobs[path] && files1[path] == files2[path]
    {
      AcceptedFile(sha, pin, r1, files1, f1, path);
      AcceptedFile(sha, pin, r2, files2, f2, path);
      SameHexSameId(found.blobs[path], found2.blobs[path]);
      SameIdSameBody(sha, BLOB, files1[path], files2[path], hashed);
    }
    forall path | path in files2 || path in found2.blobs ensures path in files2 && path in found.blobs {
      AcceptedFile(sha, pin, r2, files2, f2, path);
    }
    assert files1.Keys == files2.Keys && found.blobs.Keys == found2.blobs.Keys;
    assert found.blobs == found2.blobs;
  }
}
