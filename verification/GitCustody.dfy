/**
 What an accepted record amounts to: a chain of hashes from the pin to every vendored byte, and nothing that is
 not on such a chain.
 */
module GitCustody {
  import opened Common
  import opened GitObjects
  import opened GitChain
  import Utf8

  // ---------------------------------------------------------------------------------------
  // Chains of hashes

  /** A recorded tree whose bytes hash to the id that it is recorded under. */
  predicate IsRecorded(sha: Sha, trees: map<string, seq<Entry>>, oid: string) {
    oid in trees && TreeBytes(trees[oid]).Some? && Oid(sha, TREE, TreeBytes(trees[oid]).value) == oid
  }

  /** The entry is at the top of the commit, and one that is not vendored. */
  predicate IsExcluded(prefix: string, e: Entry) {
    prefix == "" && e.name in EXCLUDED
  }

  /** From the tree, a chain of at most so many recorded trees leads to the path and ends in the blob's id. */
  ghost predicate Hangs(sha: Sha, trees: map<string, seq<Entry>>, oid: string, prefix: string, fuel: nat,
                        path: string, blob: string)
    decreases fuel, 0
  {
    fuel > 0 && IsRecorded(sha, trees, oid)
    && exists e | e in trees[oid] :: EntryHangs(sha, trees, e, prefix, fuel - 1, path, blob)
  }

  ghost predicate EntryHangs(sha: Sha, trees: map<string, seq<Entry>>, e: Entry, prefix: string, fuel: nat,
                             path: string, blob: string)
    decreases fuel, 1
  {
    !IsExcluded(prefix, e)
    && if e.mode == TREE_MODE then Hangs(sha, trees, e.oid, prefix + e.name + "/", fuel, path, blob)
       else e.mode in FILE_MODES && path == prefix + e.name && blob == e.oid
  }

  /** So many levels of trees from this one on are recorded, and hold nothing but trees and regular files. */
  ghost predicate IsSound(sha: Sha, trees: map<string, seq<Entry>>, oid: string, prefix: string, fuel: nat)
    decreases fuel, 0
  {
    fuel > 0 && IsRecorded(sha, trees, oid)
    && forall e | e in trees[oid] :: EntryIsSound(sha, trees, e, prefix, fuel - 1)
  }

  ghost predicate EntryIsSound(sha: Sha, trees: map<string, seq<Entry>>, e: Entry, prefix: string, fuel: nat)
    decreases fuel, 1
  {
    || IsExcluded(prefix, e) || e.mode in FILE_MODES
    || (e.mode == TREE_MODE && IsSound(sha, trees, e.oid, prefix + e.name + "/", fuel))
  }

  // ---------------------------------------------------------------------------------------
  // The walk finds what hangs on the tree

  /** What a part of the walk has done for the path, where `hangs` says what that part holds of it. */
  ghost predicate Collects(before: map<string, string>, after: map<string, string>, path: string,
                           hangs: string -> bool)
  {
    && (path in after <==> path in before || exists blob :: hangs(blob))
    && (path in after ==> hangs(after[path]) || (path in before && after[path] == before[path]))
  }

  ghost function InTree(sha: Sha, trees: map<string, seq<Entry>>, oid: string, prefix: string, fuel: nat,
                        path: string): string -> bool
  {
    blob => Hangs(sha, trees, oid, prefix, fuel, path, blob)
  }

  ghost function InEntry(sha: Sha, trees: map<string, seq<Entry>>, e: Entry, prefix: string, fuel: nat,
                         path: string): string -> bool
  {
    blob => EntryHangs(sha, trees, e, prefix, fuel, path, blob)
  }

  ghost function InEntries(sha: Sha, trees: map<string, seq<Entry>>, entries: seq<Entry>, prefix: string, fuel: nat,
                           path: string): string -> bool
  {
    blob => exists e | e in entries :: EntryHangs(sha, trees, e, prefix, fuel, path, blob)
  }

  lemma {:induction false} WalkCollects(sha: Sha, trees: map<string, seq<Entry>>, oid: string, prefix: string,
                                        fuel: nat, acc: Found, path: string)
    requires Walk(sha, trees, oid, prefix, fuel, acc).Ok?
    ensures Collects(acc.blobs, Walk(sha, trees, oid, prefix, fuel, acc).value.blobs, path,
                     InTree(sha, trees, oid, prefix, fuel, path))
    decreases fuel, 0, 0
  {
    WalkEntriesCollect(sha, trees, trees[oid], prefix, fuel - 1, acc, path);
    var there, here := InEntries(sha, trees, trees[oid], prefix, fuel - 1, path),
                       InTree(sha, trees, oid, prefix, fuel, path);
    hide TreeBytes, Oid, WalkEntries;
    assert forall blob :: there(blob) <==> here(blob);
  }

  lemma {:induction false} WalkEntriesCollect(sha: Sha, trees: map<string, seq<Entry>>, entries: seq<Entry>,
                                              prefix: string, fuel: nat, acc: Found, path: string)
    requires WalkEntries(sha, trees, entries, prefix, fuel, acc).Ok?
    ensures Collects(acc.blobs, WalkEntries(sha, trees, entries, prefix, fuel, acc).value.blobs, path,
                     InEntries(sha, trees, entries, prefix, fuel, path))
    decreases fuel, |entries|, 0
  {
    if entries != [] {
      var e, rest := entries[0], entries[1..];
      WalkEntryCollects(sha, trees, e, prefix, fuel, acc, path);
      WalkEntriesCollect(sha, trees, rest, prefix, fuel, WalkEntry(sha, trees, e, prefix, fuel, acc).value, path);
      hide Walk, WalkEntry, EntryHangs;
      assert entries == [e] + rest;
      var one, others, all := InEntry(sha, trees, e, prefix, fuel, path),
        InEntries(sha, trees, rest, prefix, fuel, path), InEntries(sha, trees, entries, prefix, fuel, path);
      assert forall blob :: all(blob) <==> one(blob) || others(blob);
    }
  }

  lemma {:induction false} WalkEntryCollects(sha: Sha, trees: map<string, seq<Entry>>, e: Entry, prefix: string,
                                             fuel: nat, acc: Found, path: string)
    requires WalkEntry(sha, trees, e, prefix, fuel, acc).Ok?
    ensures Collects(acc.blobs, WalkEntry(sha, trees, e, prefix, fuel, acc).value.blobs, path,
                     InEntry(sha, trees, e, prefix, fuel, path))
    decreases fuel, 0, 1
  {
    var one := InEntry(sha, trees, e, prefix, fuel, path);
    if !IsExcluded(prefix, e) && e.mode == TREE_MODE {
      WalkCollects(sha, trees, e.oid, prefix + e.name + "/", fuel, acc, path);
      hide Walk, Hangs;
      var below := InTree(sha, trees, e.oid, prefix + e.name + "/", fuel, path);
      assert forall blob :: one(blob) <==> below(blob);
    } else {
      hide Walk, Hangs;
      assert one(e.oid) <==> !IsExcluded(prefix, e) && path == prefix + e.name;
    }
  }

  // ---------------------------------------------------------------------------------------
  // And succeeds exactly on sound trees

  lemma {:induction false} WalkSucceeds(sha: Sha, trees: map<string, seq<Entry>>, oid: string, prefix: string,
                                        fuel: nat, acc: Found)
    ensures Walk(sha, trees, oid, prefix, fuel, acc).Ok? <==> IsSound(sha, trees, oid, prefix, fuel)
    decreases fuel, 0, 0
  {
    if fuel > 0 && IsRecorded(sha, trees, oid) {
      WalkEntriesSucceed(sha, trees, trees[oid], prefix, fuel - 1, acc);
      hide TreeBytes, Oid, WalkEntries, EntryIsSound;
    }
  }

  lemma {:induction false} WalkEntriesSucceed(sha: Sha, trees: map<string, seq<Entry>>, entries: seq<Entry>,
                                              prefix: string, fuel: nat, acc: Found)
    ensures WalkEntries(sha, trees, entries, prefix, fuel, acc).Ok?
            <==> forall e | e in entries :: EntryIsSound(sha, trees, e, prefix, fuel)
    decreases fuel, |entries|, 0
  {
    if entries != [] {
      var e, rest := entries[0], entries[1..];
      assert entries == [e] + rest;
      WalkEntrySucceeds(sha, trees, e, prefix, fuel, acc);
      hide Walk, WalkEntry, EntryIsSound;
      match WalkEntry(sha, trees, e, prefix, fuel, acc)
      case Ok(next) => WalkEntriesSucceed(sha, trees, rest, prefix, fuel, next);
      case Err(_) =>
    }
  }

  lemma {:induction false} WalkEntrySucceeds(sha: Sha, trees: map<string, seq<Entry>>, e: Entry, prefix: string,
                                             fuel: nat, acc: Found)
    ensures WalkEntry(sha, trees, e, prefix, fuel, acc).Ok? <==> EntryIsSound(sha, trees, e, prefix, fuel)
    decreases fuel, 0, 1
  {
    if !IsExcluded(prefix, e) && e.mode == TREE_MODE {
      WalkSucceeds(sha, trees, e.oid, prefix + e.name + "/", fuel, acc);
      hide Walk, IsSound;
    }
  }

  // ---------------------------------------------------------------------------------------
  // The names that are left out

  function ExcludedNames(entries: seq<Entry>): seq<string> {
    if entries == [] then []
    else (if entries[0].name in EXCLUDED then [entries[0].name] else []) + ExcludedNames(entries[1..])
  }

  lemma {:induction false} WalkSees(sha: Sha, trees: map<string, seq<Entry>>, oid: string, prefix: string,
                                    fuel: nat, acc: Found)
    requires Walk(sha, trees, oid, prefix, fuel, acc).Ok?
    ensures Walk(sha, trees, oid, prefix, fuel, acc).value.seen
         == acc.seen + if prefix == "" then ExcludedNames(trees[oid]) else []
    decreases fuel, 0
  {
    WalkEntriesSee(sha, trees, trees[oid], prefix, fuel - 1, acc);
    hide TreeBytes, Oid, WalkEntries;
  }

  lemma {:induction false} WalkEntriesSee(sha: Sha, trees: map<string, seq<Entry>>, entries: seq<Entry>,
                                          prefix: string, fuel: nat, acc: Found)
    requires WalkEntries(sha, trees, entries, prefix, fuel, acc).Ok?
    ensures WalkEntries(sha, trees, entries, prefix, fuel, acc).value.seen
         == acc.seen + if prefix == "" then ExcludedNames(entries) else []
    decreases fuel, |entries|
  {
    if entries != [] {
      var e := entries[0];
      var next := WalkEntry(sha, trees, e, prefix, fuel, acc).value;
      if !IsExcluded(prefix, e) && e.mode == TREE_MODE {
        WalkSees(sha, trees, e.oid, prefix + e.name + "/", fuel, acc);
      }
      assert next.seen == acc.seen + if IsExcluded(prefix, e) then [e.name] else [];
      WalkEntriesSee(sha, trees, entries[1..], prefix, fuel, next);
      hide Walk, WalkEntry;
    }
  }

  // ---------------------------------------------------------------------------------------
  // The commit

  /** The commit's first line names the tree. */
  ghost predicate Names(commit: Bytes, root: string) {
    && Ascii("tree " + root).Some? && NEWLINE !in Ascii("tree " + root).value
    && (commit == Ascii("tree " + root).value || Ascii("tree " + root).value + [NEWLINE] <= commit)
  }

  function FirstLine(commit: Bytes): Bytes {
    match Find(commit, NEWLINE) case Some(k) => commit[..k] case None => commit
  }

  lemma FirstLineExactly(commit: Bytes, line: Bytes)
    ensures FirstLine(commit) == line <==> NEWLINE !in line && (commit == line || line + [NEWLINE] <= commit)
  {
    match Find(commit, NEWLINE) {
      case Some(k) =>
        FindsFirst(commit, NEWLINE);
        assert commit == commit[..k] + [NEWLINE] + commit[k + 1..];
      case None => FindsNone(commit, NEWLINE);
    }
    if NEWLINE !in line && line + [NEWLINE] <= commit {
      assert commit == line + [NEWLINE] + commit[|line| + 1..];
      FindAfter(line, NEWLINE, commit[|line| + 1..]);
    }
  }

  lemma {:induction false} FindsNone(b: Bytes, x: Byte)
    requires Find(b, x).None?
    ensures x !in b
  {
    if b != [] {
      FindsNone(b[1..], x);
      assert b == [b[0]] + b[1..];
    }
  }

  lemma RootExactly(commit: Bytes, root: string)
    ensures RootOf(commit) == Some(root) <==> Names(commit, root)
  {
    var line, first := FirstLine(commit), "tree " + root;
    if Ascii(first).Some? {
      FromAsciiOfAscii(first);
      FirstLineExactly(commit, Ascii(first).value);
    }
    if FromAscii(line).Some? { AsciiOfFromAscii(line); }
    hide Find, FromAscii, Ascii;
    assert first[..5] == "tree " && first[5..] == root;
    if RootOf(commit) == Some(root) {
      var text := FromAscii(line).value;
      assert text == text[..5] + text[5..];
    }
  }

  // ---------------------------------------------------------------------------------------
  // Accepted records

  /** The record is for this pin, and its commit is the object that the pin names. */
  predicate IsFor(sha: Sha, pin: string, r: Record) {
    && r.schema == SCHEMA && r.pin == pin && r.excluded == EXCLUDED
    && Oid(sha, COMMIT, Utf8.Encode(r.commit)) == pin
  }

  /** A file that hangs on the record's commit: the blob's id is at the end of a chain of hashes from the pin. */
  ghost predicate OnTheChain(sha: Sha, r: Record, fuel: nat, path: string, blob: string) {
    exists root: string :: Names(Utf8.Encode(r.commit), root) && Hangs(sha, r.trees, root, "", fuel, path, blob)
  }

  /** The commit's tree is sound, and has each of the excluded names once. */
  ghost predicate IsComplete(sha: Sha, r: Record, fuel: nat, root: string) {
    IsSound(sha, r.trees, root, "", fuel) && multiset(ExcludedNames(r.trees[root])) == multiset(EXCLUDED)
  }

  lemma WalkCompletes(sha: Sha, r: Record, fuel: nat, root: string)
    ensures var walked := Walk(sha, r.trees, root, "", fuel, Found(map[], []));
            (walked.Ok? && multiset(walked.value.seen) == multiset(EXCLUDED)) <==> IsComplete(sha, r, fuel, root)
  {
    WalkSucceeds(sha, r.trees, root, "", fuel, Found(map[], []));
    if Walk(sha, r.trees, root, "", fuel, Found(map[], [])).Ok? {
      WalkSees(sha, r.trees, root, "", fuel, Found(map[], []));
    }
    hide Walk, IsRecorded, EXCLUDED;
  }

  /**
   A record's blobs are accepted exactly if it is for the pin, the trees below the commit's are sound, and each of
   the excluded names is there once.
   */
  lemma AcceptedExactly(sha: Sha, pin: string, r: Record, fuel: nat)
    ensures ChainBlobs(sha, pin, r, fuel).Ok? <==>
      && IsFor(sha, pin, r)
      && exists root: string :: Names(Utf8.Encode(r.commit), root) && IsComplete(sha, r, fuel, root)
  {
    var commit := Utf8.Encode(r.commit);
    hide Walk, RootOf, Names, Oid, IsComplete, EXCLUDED, SCHEMA;
    if root: string :| Names(commit, root) {
      RootExactly(commit, root);
      OnlyRoot(commit, root);
      WalkCompletes(sha, r, fuel, root);
    } else if RootOf(commit).Some? {
      RootExactly(commit, RootOf(commit).value);
    }
  }

  /** The file is there exactly if its path is on a chain, and has bytes that such a chain ends in. */
  ghost predicate Vouched(sha: Sha, r: Record, files: map<string, Bytes>, fuel: nat, path: string) {
    && (path in files <==> exists blob: string :: OnTheChain(sha, r, fuel, path, blob))
    && (path in files ==> OnTheChain(sha, r, fuel, path, Oid(sha, BLOB, files[path])))
  }

  /**
   What an accepted record vouches for: the vendored files are exactly the paths on a chain of hashes from the
   pin, and the bytes of each hash to the id at the end of such a chain.
   */
  lemma EveryByteIsOnTheChain(sha: Sha, pin: string, r: Record, files: map<string, Bytes>, fuel: nat, path: string)
    requires ChainHolds(sha, pin, r, files, fuel)
    ensures IsFor(sha, pin, r) && Vouched(sha, r, files, fuel, path)
  {
    BlobsOnTheChain(sha, pin, r, fuel, path);
    hide Walk, RootOf, OnTheChain, Oid;
  }

  /** No path is on two chains that end differently. */
  ghost predicate OneBlobEach(sha: Sha, r: Record, fuel: nat) {
    forall path, a, b | OnTheChain(sha, r, fuel, path, a) && OnTheChain(sha, r, fuel, path, b) :: a == b
  }

  /** And if no path is on two chains, all files of which this is true are accepted. */
  lemma VouchedFilesAreAccepted(sha: Sha, pin: string, r: Record, files: map<string, Bytes>, fuel: nat)
    requires ChainBlobs(sha, pin, r, fuel).Ok? && OneBlobEach(sha, r, fuel)
    requires forall path :: Vouched(sha, r, files, fuel, path)
    ensures ChainHolds(sha, pin, r, files, fuel)
  {
    var blobs := ChainBlobs(sha, pin, r, fuel).value;
    hide ChainBlobs;
    forall path: string
      ensures path in files <==> path in blobs
      ensures path in blobs && path in files ==> Oid(sha, BLOB, files[path]) == blobs[path]
    {
      BlobsOnTheChain(sha, pin, r, fuel, path);
      assert Vouched(sha, r, files, fuel, path);
      hide OnTheChain, Oid;
    }
    assert files.Keys == blobs.Keys;
  }

  lemma BlobsOnTheChain(sha: Sha, pin: string, r: Record, fuel: nat, path: string)
    requires ChainBlobs(sha, pin, r, fuel).Ok?
    ensures var blobs := ChainBlobs(sha, pin, r, fuel).value;
      && (path in blobs <==> exists blob: string :: OnTheChain(sha, r, fuel, path, blob))
      && (path in blobs ==> OnTheChain(sha, r, fuel, path, blobs[path]))
  {
    var root := RootOf(Utf8.Encode(r.commit)).value;
    OnlyRoot(Utf8.Encode(r.commit), root);
    WalkCollects(sha, r.trees, root, "", fuel, Found(map[], []), path);
    hide Walk, RootOf, Names, Oid, Hangs;
    var below := InTree(sha, r.trees, root, "", fuel, path);
    assert forall blob: string :: OnTheChain(sha, r, fuel, path, blob) <==> below(blob);
  }

  lemma OnlyRoot(commit: Bytes, root: string)
    requires RootOf(commit) == Some(root)
    ensures forall other: string :: Names(commit, other) <==> other == root
  {
    forall other: string ensures Names(commit, other) <==> other == root { RootExactly(commit, other); }
  }
}
