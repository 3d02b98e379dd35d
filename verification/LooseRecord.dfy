/**
 Why the pin does not determine the vendored bytes for every record that is accepted.

 The verifier never looks at the id of an excluded entry. An id longer than twenty bytes can
 spell out the entries that follow it: the tree hashes the same, and those files are not seen.
 */
module LooseRecord {
  import opened Common
  import opened GitObjects
  import opened GitChain
  import Utf8

  const ZEROS: string := "0000000000000000000000000000000000000000"

  function ExcludedEntries(names: seq<string>): seq<Entry> {
    if names == [] then [] else [Entry("100644", names[0], ZEROS)] + ExcludedEntries(names[1..])
  }

  /** The honest root: every excluded entry, then one file. */
  function HonestRoot(file: Entry): seq<Entry> {
    ExcludedEntries(EXCLUDED) + [file]
  }

  /** The same bytes, with the file inside the id of the last excluded entry. */
  function LooseRoot(file: Entry): seq<Entry> {
    ExcludedEntries(EXCLUDED[..6]) + [LooseEntry(file)]
  }

  function BytesOf(e: Entry): Bytes {
    match EntryBytes(e) case Some(b) => b case None => []
  }

  lemma Assoc<T>(a: seq<T>, b: seq<T>, c: seq<T>)
    ensures a + b + c == a + (b + c)
  {
  }

  lemma TreeBytesParts(entries: seq<Entry>)
    requires entries != [] && TreeBytes(entries).Some?
    ensures EntryBytes(entries[0]).Some? && TreeBytes(entries[1..]).Some?
    ensures TreeBytes(entries).value == EntryBytes(entries[0]).value + TreeBytes(entries[1..]).value
  {
  }

  lemma {:induction false} TreeBytesConcat(a: seq<Entry>, b: seq<Entry>)
    requires TreeBytes(a).Some? && TreeBytes(b).Some?
    ensures TreeBytes(a + b) == Some(TreeBytes(a).value + TreeBytes(b).value)
  {
    hide EntryBytes;
    if a == [] {
      assert a + b == b && [] + TreeBytes(b).value == TreeBytes(b).value;
    } else {
      hide TreeBytes;
      TreeBytesParts(a);
      TreeBytesConcat(a[1..], b);
      TreeBytesCons(a[0], a[1..] + b);
      assert a + b == [a[0]] + (a[1..] + b);
      Assoc(EntryBytes(a[0]).value, TreeBytes(a[1..]).value, TreeBytes(b).value);
    }
  }

  lemma HexParts(s: string)
    requires IsHex(s) && s != ""
    ensures |s| >= 2 && IsHex(s[2..]) && s == [s[0], s[1]] + s[2..]
    ensures HexValue(s[0]).Some? && HexValue(s[1]).Some? && !IsAsciiSpace(s[0])
  {
  }

  lemma {:induction false} FromHexConcat(a: string, b: string)
    requires IsHex(a) && FromHex(b).Some?
    ensures FromHex(a).Some? && FromHex(a + b) == Some(FromHex(a).value + FromHex(b).value)
    decreases |a|
  {
    if a == "" {
      assert a + b == b && [] + FromHex(b).value == FromHex(b).value;
    } else {
      hide FromHex, HexValue, IsHex, IsAsciiSpace;
      HexParts(a);
      FromHexConcat(a[2..], b);
      assert a + b == [a[0], a[1]] + (a[2..] + b);
      FromHexCons(a[0], a[1], a[2..]);
      FromHexCons(a[0], a[1], a[2..] + b);
      Assoc([(16 * HexValue(a[0]).value + HexValue(a[1]).value) as Byte], FromHex(a[2..]).value, FromHex(b).value);
    }
  }

  lemma ZerosAreHex()
    ensures IsHex(ZEROS) && |ZEROS| == 40
  {
  }

  lemma FileModeIsPlain()
    ensures Ascii("100644").Some? && ' ' !in "100644"
  {
  }

  lemma ExcludedEntryPrints(name: string)
    requires '\0' !in name
    ensures CanonicalEntry(Entry("100644", name, ZEROS)) && EntryBytes(Entry("100644", name, ZEROS)).Some?
  {
    hide FromHex, Ascii, ToHex, Utf8.Encode, IsHex;
    ZerosAreHex();
    FileModeIsPlain();
    HexOfFromHex(ZEROS);
  }

  lemma {:induction false} ExcludedEntriesPrint(names: seq<string>)
    requires forall n | n in names :: '\0' !in n
    ensures TreeBytes(ExcludedEntries(names)).Some? && Canonical(ExcludedEntries(names))
    ensures forall e | e in ExcludedEntries(names) :: |e.oid| == 40
  {
    if names != [] {
      ExcludedEntriesPrint(names[1..]);
      var e, rest := Entry("100644", names[0], ZEROS), ExcludedEntries(names[1..]);
      ExcludedEntryPrints(names[0]);
      assert |ZEROS| == 40;
      hide CanonicalEntry, EntryBytes, TreeBytes, Canonical;
      TreeBytesCons(e, rest);
      CanonicalCons(e, rest);
    }
  }

  lemma ExcludedEntriesLast()
    ensures ExcludedEntries(EXCLUDED) == ExcludedEntries(EXCLUDED[..6]) + [Entry("100644", EXCLUDED[6], ZEROS)]
  {
    ExcludedEntriesConcat(EXCLUDED[..6], [EXCLUDED[6]]);
    assert EXCLUDED == EXCLUDED[..6] + [EXCLUDED[6]];
  }

  lemma {:induction false} ExcludedEntriesConcat(a: seq<string>, b: seq<string>)
    ensures ExcludedEntries(a + b) == ExcludedEntries(a) + ExcludedEntries(b)
  {
    if a == [] {
      assert a + b == b;
    } else {
      ExcludedEntriesConcat(a[1..], b);
      assert (a + b)[1..] == a[1..] + b;
    }
  }

  /** The entry whose id hides the file. */
  function LooseEntry(file: Entry): Entry {
    Entry("100644", EXCLUDED[6], ZEROS + ToHex(BytesOf(file)))
  }

  lemma ExcludedNamesAreClean()
    ensures forall n | n in EXCLUDED :: '\0' !in n
    ensures |EXCLUDED| == 7 && forall n | n in EXCLUDED[..6] :: n in EXCLUDED
  {
  }

  /** The two roots have the same bytes. */
  lemma SameBytes(file: Entry)
    requires CanonicalEntry(file) && |file.oid| == 40
    ensures TreeBytes(HonestRoot(file)).Some? && TreeBytes(LooseRoot(file)) == TreeBytes(HonestRoot(file))
  {
    hide EntryBytes, TreeBytes, CanonicalEntry, Canonical, ExcludedEntries, ToHex, Utf8.Encode, ParseEntry;
    ParseEntryOfBytes(file, []);
    ExcludedNamesAreClean();
    var bytes, names := EntryBytes(file).value, EXCLUDED[..6];
    var last, loose := Entry("100644", EXCLUDED[6], ZEROS), LooseEntry(file);
    ExcludedEntriesPrint(EXCLUDED);
    ExcludedEntriesPrint(names);
    ExcludedEntriesLast();
    LooseEntryPrints(EXCLUDED[6], bytes);
    Singleton(file);
    Singleton(last);
    Singleton(loose);
    TreeBytesConcat(ExcludedEntries(EXCLUDED), [file]);
    TreeBytesConcat(ExcludedEntries(names), [last]);
    TreeBytesConcat(ExcludedEntries(names), [loose]);
    Assoc(TreeBytes(ExcludedEntries(names)).value, EntryBytes(last).value, bytes);
  }

  lemma OnlyHonestIsCanonical(file: Entry)
    requires CanonicalEntry(file) && |file.oid| == 40
    ensures Canonical(HonestRoot(file)) && !Canonical(LooseRoot(file))
  {
    ExcludedNamesAreClean();
    ExcludedEntriesPrint(EXCLUDED);
    CanonicalSnoc(ExcludedEntries(EXCLUDED), file);
    ParseEntryOfBytes(file, []);
    var root := LooseRoot(file);
    assert |LooseEntry(file).oid| > 40;
    hide ExcludedEntries, EntryBytes, ToHex;
    assert root[|root| - 1] == LooseEntry(file);
  }

  lemma Singleton(e: Entry)
    ensures TreeBytes([e]) == EntryBytes(e)
  {
    hide EntryBytes;
    assert [e][1..] == [];
    if EntryBytes(e).Some? { assert EntryBytes(e).value + [] == EntryBytes(e).value; }
  }

  lemma CanonicalSnoc(entries: seq<Entry>, e: Entry)
    requires Canonical(entries) && CanonicalEntry(e)
    requires forall x | x in entries :: |x.oid| == 40
    ensures Canonical(entries + [e])
  {
  }

  /** The long id prints as the short one followed by the hidden bytes. */
  lemma LooseEntryPrints(name: string, hidden: Bytes)
    requires '\0' !in name
    ensures var last, loose := Entry("100644", name, ZEROS), Entry("100644", name, ZEROS + ToHex(hidden));
            && EntryBytes(last).Some? && EntryBytes(loose) == Some(EntryBytes(last).value + hidden)
  {
    hide FromHex, ToHex, Utf8.Encode, Ascii, IsHex;
    ZerosAreHex();
    FileModeIsPlain();
    FromHexOfHex(hidden);
    FromHexConcat(ZEROS, ToHex(hidden));
    Assoc(Ascii("100644").value + [SPACE] + Utf8.Encode(name) + [NUL], FromHex(ZEROS).value, hidden);
  }

  /** At the top level the verifier passes over excluded entries, whatever their ids. */
  lemma {:induction false} PassesOverExcluded(sha: Sha, trees: map<string, seq<Entry>>, names: seq<string>,
                                              rest: seq<Entry>, fuel: nat, acc: Found)
    requires forall n | n in names :: n in EXCLUDED
    ensures WalkEntries(sha, trees, ExcludedEntries(names) + rest, "", fuel, acc)
         == WalkEntries(sha, trees, rest, "", fuel, acc.(seen := acc.seen + names))
  {
    if names == [] {
      assert ExcludedEntries(names) + rest == rest && acc.seen + [] == acc.seen;
    } else {
      hide WalkEntries, EXCLUDED;
      var next := acc.(seen := acc.seen + [names[0]]);
      PassesOverExcluded(sha, trees, names[1..], rest, fuel, next);
      PassesOverOne(sha, trees, names[0], ExcludedEntries(names[1..]) + rest, fuel, acc);
      assert ExcludedEntries(names) + rest
          == [Entry("100644", names[0], ZEROS)] + (ExcludedEntries(names[1..]) + rest);
      assert acc.seen + [names[0]] + names[1..] == acc.seen + names;
    }
  }

  lemma PassesOverOne(sha: Sha, trees: map<string, seq<Entry>>, name: string, rest: seq<Entry>, fuel: nat, acc: Found)
    requires name in EXCLUDED
    ensures WalkEntries(sha, trees, [Entry("100644", name, ZEROS)] + rest, "", fuel, acc)
         == WalkEntries(sha, trees, rest, "", fuel, acc.(seen := acc.seen + [name]))
  {
    hide Walk, EXCLUDED, FILE_MODES, TREE_MODE;
    assert ([Entry("100644", name, ZEROS)] + rest)[1..] == rest;
  }

  // ---------------------------------------------------------------------------------------
  // Two records for one pin

  function HiddenFile(sha: Sha, data: Bytes): Entry {
    Entry("100644", "z", Oid(sha, BLOB, data))
  }

  function RecordOf(pin: string, root: string, entries: seq<Entry>): Record {
    Record(SCHEMA, pin, EXCLUDED, "tree " + root, map[root := entries])
  }

  lemma {:induction false} AsciiEncodes(s: string)
    requires Ascii(s).Some?
    ensures Utf8.Encode(s) == Ascii(s).value
  {
    if s != "" {
      assert forall c | c in s[1..] :: c in s;
      AsciiEncodes(s[1..]);
      assert s[0] in s;
      assert Ascii(s).value == [s[0] as Byte] + Ascii(s[1..]).value;
    }
  }

  lemma HexIsAscii(s: string)
    requires IsHex(s)
    ensures Ascii("tree " + s).Some? && '\n' !in "tree " + s
  {
  }

  lemma RootOfTreeLine(root: string)
    requires IsHex(root)
    ensures RootOf(Utf8.Encode("tree " + root)) == Some(root)
  {
    var first := "tree " + root;
    HexIsAscii(root);
    AsciiEncodes(first);
    FromAsciiOfAscii(first);
    var commit := Ascii(first).value;
    assert NEWLINE !in commit;
    hide Ascii, FromAscii, Utf8.Encode;
    assert Find(commit, NEWLINE).None?;
    assert first[..5] == "tree " && first[5..] == root;
  }

  lemma WalksRoot(sha: Sha, root: string, entries: seq<Entry>)
    requires TreeBytes(entries).Some? && Oid(sha, TREE, TreeBytes(entries).value) == root
    ensures Walk(sha, map[root := entries], root, "", 1, Found(map[], []))
         == WalkEntries(sha, map[root := entries], entries, "", 0, Found(map[], []))
  {
  }

  lemma HonestWalk(sha: Sha, trees: map<string, seq<Entry>>, file: Entry)
    requires file.mode == "100644" && file.name == "z"
    ensures WalkEntries(sha, trees, HonestRoot(file), "", 0, Found(map[], []))
         == Ok(Found(map["z" := file.oid], EXCLUDED))
  {
    PassesOverExcluded(sha, trees, EXCLUDED, [file], 0, Found(map[], []));
    assert [] + EXCLUDED == EXCLUDED;
    FileIsNoExclusion();
    hide EXCLUDED, FILE_MODES, TREE_MODE, Walk, ExcludedEntries;
    var acc := Found(map[], EXCLUDED);
    assert WalkEntry(sha, trees, file, "", 0, acc) == Ok(Found(map["z" := file.oid], EXCLUDED));
    assert [file][1..] == [];
  }

  lemma FileIsNoExclusion()
    ensures "z" !in EXCLUDED && "" + "z" == "z" && "100644" != TREE_MODE && "100644" in FILE_MODES
  {
  }

  lemma LooseWalk(sha: Sha, trees: map<string, seq<Entry>>, file: Entry)
    ensures WalkEntries(sha, trees, LooseRoot(file), "", 0, Found(map[], [])) == Ok(Found(map[], EXCLUDED))
  {
    ExcludedNamesAreClean();
    PassesOverExcluded(sha, trees, EXCLUDED[..6], [LooseEntry(file)], 0, Found(map[], []));
    var acc := Found(map[], EXCLUDED[..6]);
    assert [] + EXCLUDED[..6] == EXCLUDED[..6];
    assert EXCLUDED[6] in EXCLUDED && EXCLUDED[..6] + [EXCLUDED[6]] == EXCLUDED;
    assert WalkEntry(sha, trees, LooseEntry(file), "", 0, acc) == Ok(Found(map[], EXCLUDED));
    assert [LooseEntry(file)][1..] == [];
  }

  /** A record of one root tree is accepted with whatever the walk of that tree collects. */
  lemma RecordOfIsAccepted(sha: Sha, root: string, entries: seq<Entry>, blobs: map<string, string>)
    requires TreeBytes(entries).Some? && Oid(sha, TREE, TreeBytes(entries).value) == root && IsHex(root)
    requires WalkEntries(sha, map[root := entries], entries, "", 0, Found(map[], [])) == Ok(Found(blobs, EXCLUDED))
    ensures var pin := Oid(sha, COMMIT, Utf8.Encode("tree " + root));
            ChainBlobs(sha, pin, RecordOf(pin, root, entries), 1) == Ok(blobs)
  {
    hide Walk, WalkEntries, RootOf, Oid, Utf8.Encode, TreeBytes, IsHex;
    RootOfTreeLine(root);
    WalksRoot(sha, root, entries);
  }

  lemma HiddenFileIsCanonical(sha: Sha, data: Bytes)
    requires IsHex(HiddenFile(sha, data).oid) && |HiddenFile(sha, data).oid| == 40
    ensures CanonicalEntry(HiddenFile(sha, data))
  {
  }

  ghost predicate HexHash(sha: Sha) {
    forall b: Bytes :: IsHex(sha(b)) && |sha(b)| == 40
  }

  /** Both records for one pin pass the walk; one of them does not see the file. */
  lemma BothAccepted(sha: Sha, data: Bytes) returns (pin: string, root: string)
    requires HexHash(sha)
    ensures var file := HiddenFile(sha, data);
            && ChainBlobs(sha, pin, RecordOf(pin, root, HonestRoot(file)), 1) == Ok(map["z" := file.oid])
            && ChainBlobs(sha, pin, RecordOf(pin, root, LooseRoot(file)), 1) == Ok(map[])
            && Canonical(HonestRoot(file)) && !Canonical(LooseRoot(file))
  {
    hide TreeBytes, HonestRoot, LooseRoot, Walk, WalkEntries, ChainBlobs, Frame, IsHex, CanonicalEntry, Canonical,
         Utf8.Encode, RecordOf;
    var file := HiddenFile(sha, data);
    assert IsHex(sha(Frame(BLOB, data)));
    HiddenFileIsCanonical(sha, data);
    SameBytes(file);
    OnlyHonestIsCanonical(file);
    var raw := TreeBytes(HonestRoot(file)).value;
    root := Oid(sha, TREE, raw);
    assert IsHex(sha(Frame(TREE, raw)));
    pin := Oid(sha, COMMIT, Utf8.Encode("tree " + root));
    HonestWalk(sha, map[root := HonestRoot(file)], file);
    LooseWalk(sha, map[root := LooseRoot(file)], file);
    RecordOfIsAccepted(sha, root, HonestRoot(file), map["z" := file.oid]);
    RecordOfIsAccepted(sha, root, LooseRoot(file), map[]);
  }

  /**
   For every hash with 40-hex ids and every file: two records for one pin both pass, one with the
   file vendored and one without it. The one that hides it is not spelled canonically.
   */
  lemma PinDoesNotDetermineLooseRecords(sha: Sha, data: Bytes)
    returns (pin: string, honest: Record, loose: Record)
    requires HexHash(sha)
    ensures ChainHolds(sha, pin, honest, map["z" := data], 1) && CanonicalTrees(honest.trees)
    ensures ChainHolds(sha, pin, loose, map[], 1) && !CanonicalTrees(loose.trees)
  {
    hide HonestRoot, LooseRoot, ChainBlobs, Frame, Canonical;
    var root;
    pin, root := BothAccepted(sha, data);
    var file := HiddenFile(sha, data);
    honest, loose := RecordOf(pin, root, HonestRoot(file)), RecordOf(pin, root, LooseRoot(file));
    assert honest.trees[root] == HonestRoot(file) && loose.trees[root] == LooseRoot(file);
  }
}
