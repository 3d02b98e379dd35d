/**
 From a pinned commit id to every vendored byte: the verifier's walk over recorded objects.

 The hash is a parameter. Nothing is assumed of it beyond what a theorem states about the
 objects that were actually hashed.
 */
module GitChain {
  import opened Common
  import opened GitObjects
  import Utf8

  type Sha = Bytes -> string

  const SCHEMA := "kilix-content.vendored-git-objects/v1"
  const EXCLUDED: seq<string> :=
    [".gitignore", ".python-version", "Makefile", "PUBLICATION.md", "tests", "tools", "uv.lock"]
  const TREE_MODE := "40000"
  const FILE_MODES: seq<string> := ["100644", "100755"]
  const NEWLINE: Byte := 10

  /** The object kinds, in ASCII: commit, tree and blob. */
  const COMMIT: Bytes := [99, 111, 109, 109, 105, 116]
  const TREE: Bytes := [116, 114, 101, 101]
  const BLOB: Bytes := [98, 108, 111, 98]

  function Oid(sha: Sha, kind: Bytes, body: Bytes): string {
    sha(Frame(kind, body))
  }

  datatype Record = Record(
    schema: string, pin: string, excluded: seq<string>, commit: string, trees: map<string, seq<Entry>>)

  datatype Error =
    | UnknownSchema | DifferentPin | DifferentExclusions | WrongCommit | NoTreeLine
    | NotRecorded(oid: string) | Malformed(oid: string) | WrongTree(oid: string) | NotRegular(path: string)
    | TooDeep | MissingExclusion | DifferentPaths | DifferentBlob(path: string)

  /** What the walk has collected: path to blob id, and the excluded names seen. */
  datatype Found = Found(blobs: map<string, string>, seen: seq<string>)

  // ---------------------------------------------------------------------------------------
  // The verifier

  /** One recorded tree. Python's recursion limit is the fuel: running out of it refuses the record. */
  function Walk(sha: Sha, trees: map<string, seq<Entry>>, oid: string, prefix: string, fuel: nat, acc: Found)
    : Result<Found, Error>
    decreases fuel, 0, 0
  {
    if fuel == 0 then Err(TooDeep)
    else if oid !in trees then Err(NotRecorded(oid))
    else match TreeBytes(trees[oid])
      case None => Err(Malformed(oid))
      case Some(raw) =>
        if Oid(sha, TREE, raw) != oid then Err(WrongTree(oid))
        else WalkEntries(sha, trees, trees[oid], prefix, fuel - 1, acc)
  }

  function WalkEntries(sha: Sha, trees: map<string, seq<Entry>>, entries: seq<Entry>, prefix: string, fuel: nat,
                       acc: Found): Result<Found, Error>
    decreases fuel, |entries|, 0
  {
    if entries == [] then Ok(acc)
    else match WalkEntry(sha, trees, entries[0], prefix, fuel, acc)
      case Err(e) => Err(e)
      case Ok(next) => WalkEntries(sha, trees, entries[1..], prefix, fuel, next)
  }

  function WalkEntry(sha: Sha, trees: map<string, seq<Entry>>, e: Entry, prefix: string, fuel: nat, acc: Found)
    : Result<Found, Error>
    decreases fuel, 0, 1
  {
    var path := prefix + e.name;
    if prefix == "" && e.name in EXCLUDED then Ok(acc.(seen := acc.seen + [e.name]))
    else if e.mode == TREE_MODE then Walk(sha, trees, e.oid, path + "/", fuel, acc)
    else if e.mode in FILE_MODES then Ok(acc.(blobs := acc.blobs[path := e.oid]))
    else Err(NotRegular(path))
  }

  /** The tree id on the first line of a commit. */
  function RootOf(commit: Bytes): Option<string> {
    var line := match Find(commit, NEWLINE) case Some(k) => commit[..k] case None => commit;
    match FromAscii(line)
    case None => None
    case Some(first) => if |first| >= 5 && first[..5] == "tree " then Some(first[5..]) else None
  }

  /** `chain_blobs`: vendored path to blob id. */
  function ChainBlobs(sha: Sha, pin: string, r: Record, fuel: nat): Result<map<string, string>, Error> {
    if r.schema != SCHEMA then Err(UnknownSchema)
    else if r.pin != pin then Err(DifferentPin)
    else if r.excluded != EXCLUDED then Err(DifferentExclusions)
    else if Oid(sha, COMMIT, Utf8.Encode(r.commit)) != pin then Err(WrongCommit)
    else match RootOf(Utf8.Encode(r.commit))
      case None => Err(NoTreeLine)
      case Some(root) =>
        match Walk(sha, r.trees, root, "", fuel, Found(map[], []))
        case Err(e) => Err(e)
        case Ok(found) =>
          if multiset(found.seen) != multiset(EXCLUDED) then Err(MissingExclusion) else Ok(found.blobs)
  }

  /** `check_chain`: the vendored files are the recorded blobs, no more and no less. */
  predicate ChainHolds(sha: Sha, pin: string, r: Record, files: map<string, Bytes>, fuel: nat) {
    match ChainBlobs(sha, pin, r, fuel)
    case Err(_) => false
    case Ok(blobs) =>
      files.Keys == blobs.Keys && forall path | path in blobs :: Oid(sha, BLOB, files[path]) == blobs[path]
  }

  /** The walk as the tool runs it: recursive, filling `blobs` and `seen` in place. */
  class ChainWalker {
    const sha: Sha
    const trees: map<string, seq<Entry>>
    var blobs: map<string, string>
    var seen: seq<string>

    constructor (sha: Sha, trees: map<string, seq<Entry>>)
      ensures this.sha == sha && this.trees == trees && blobs == map[] && seen == []
    {
      this.sha, this.trees := sha, trees;
      blobs, seen := map[], [];
    }

    method WalkTree(oid: string, prefix: string, fuel: nat) returns (failure: Option<Error>)
      modifies this
      ensures match Walk(sha, trees, oid, prefix, fuel, Found(old(blobs), old(seen)))
              case Ok(found) => failure.None? && found == Found(blobs, seen)
              case Err(e) => failure == Some(e)
      decreases fuel
    {
      hide TreeBytes, Oid;
      if fuel == 0 { return Some(TooDeep); }
      if oid !in trees { return Some(NotRecorded(oid)); }
      var entries, raw := trees[oid], TreeBytes(trees[oid]);
      if raw.None? { return Some(Malformed(oid)); }
      if Oid(sha, TREE, raw.value) != oid { return Some(WrongTree(oid)); }
      var i := 0;
      while i < |entries|
        invariant 0 <= i <= |entries|
        invariant WalkEntries(sha, trees, entries, prefix, fuel - 1, Found(old(blobs), old(seen)))
               == WalkEntries(sha, trees, entries[i..], prefix, fuel - 1, Found(blobs, seen))
      {
        hide Walk;
        var e, path := entries[i], prefix + entries[i].name;
        assert entries[i..][1..] == entries[i + 1..];
        if prefix == "" && e.name in EXCLUDED {
          seen := seen + [e.name];
        } else if e.mode == TREE_MODE {
          failure := WalkTree(e.oid, path + "/", fuel - 1);
          if failure.Some? { return; }
        } else if e.mode in FILE_MODES {
          blobs := blobs[path := e.oid];
        } else {
          return Some(NotRegular(path));
        }
        i := i + 1;
      }
      failure := None;
    }
  }

  // ---------------------------------------------------------------------------------------
  // The pin determines every vendored byte

  /** No two different byte strings of the set share an id. */
  ghost predicate NoCollision(sha: Sha, hashed: set<Bytes>) {
    forall x, y | x in hashed && y in hashed && sha(x) == sha(y) :: x == y
  }

  /** The framed trees of a record. */
  function TreeFrames(trees: map<string, seq<Entry>>): set<Bytes> {
    set oid | oid in trees && TreeBytes(trees[oid]).Some? :: Frame(TREE, TreeBytes(trees[oid]).value)
  }

  /** Everything that checking a record against vendored files hashes. */
  function Hashed(r: Record, files: map<string, Bytes>): set<Bytes> {
    {Frame(COMMIT, Utf8.Encode(r.commit))} + TreeFrames(r.trees)
    + (set path | path in files :: Frame(BLOB, files[path]))
  }

  /** Every recorded tree is spelled as `parse_tree` writes it. */
  predicate CanonicalTrees(trees: map<string, seq<Entry>>) {
    forall oid | oid in trees :: Canonical(trees[oid])
  }

  /** Two recorded trees with one id have the same entries. */
  lemma SameIdSameEntries(sha: Sha, t1: map<string, seq<Entry>>, t2: map<string, seq<Entry>>, oid: string)
    requires oid in t1 && oid in t2 && CanonicalTrees(t1) && CanonicalTrees(t2)
    requires TreeBytes(t1[oid]).Some? && TreeBytes(t2[oid]).Some?
    requires Oid(sha, TREE, TreeBytes(t1[oid]).value) == oid && Oid(sha, TREE, TreeBytes(t2[oid]).value) == oid
    requires NoCollision(sha, TreeFrames(t1) + TreeFrames(t2))
    ensures t1[oid] == t2[oid]
  {
    var b1, b2 := TreeBytes(t1[oid]).value, TreeBytes(t2[oid]).value;
    ParsePrintCanonical(t1[oid]);
    ParsePrintCanonical(t2[oid]);
    hide TreeBytes, ParseTree, Frame, Canonical;
    assert Frame(TREE, b1) in TreeFrames(t1) && Frame(TREE, b2) in TreeFrames(t2);
    assert SPACE !in TREE;
    FrameIsInjective(TREE, b1, TREE, b2);
  }

  /** An accepted tree is recorded, hashes to its id, and its entries were walked. */
  lemma AcceptedTree(sha: Sha, trees: map<string, seq<Entry>>, oid: string, prefix: string, fuel: nat, acc: Found)
    requires Walk(sha, trees, oid, prefix, fuel, acc).Ok?
    ensures fuel > 0 && oid in trees && TreeBytes(trees[oid]).Some?
    ensures Oid(sha, TREE, TreeBytes(trees[oid]).value) == oid
    ensures Walk(sha, trees, oid, prefix, fuel, acc) == WalkEntries(sha, trees, trees[oid], prefix, fuel - 1, acc)
  {
  }

  /** A recorded tree that hashes to its id is accepted as far as its entries are. */
  lemma RecordedTree(sha: Sha, trees: map<string, seq<Entry>>, oid: string, raw: Bytes, prefix: string, fuel: nat,
                     acc: Found)
    requires fuel > 0 && oid in trees && TreeBytes(trees[oid]) == Some(raw) && Oid(sha, TREE, raw) == oid
    ensures Walk(sha, trees, oid, prefix, fuel, acc) == WalkEntries(sha, trees, trees[oid], prefix, fuel - 1, acc)
  {
  }

  /** An accepted list of entries is an accepted first entry and accepted others. */
  lemma AcceptedEntries(sha: Sha, trees: map<string, seq<Entry>>, entries: seq<Entry>, prefix: string, fuel: nat,
                        acc: Found) returns (next: Found)
    requires entries != [] && WalkEntries(sha, trees, entries, prefix, fuel, acc).Ok?
    ensures WalkEntry(sha, trees, entries[0], prefix, fuel, acc) == Ok(next)
    ensures WalkEntries(sha, trees, entries, prefix, fuel, acc)
         == WalkEntries(sha, trees, entries[1..], prefix, fuel, next)
  {
    next := WalkEntry(sha, trees, entries[0], prefix, fuel, acc).value;
    hide WalkEntry;
  }

  lemma {:induction false} WalksAgree(sha: Sha, t1: map<string, seq<Entry>>, t2: map<string, seq<Entry>>,
                                      oid: string, prefix: string, f1: nat, f2: nat, acc: Found)
    requires CanonicalTrees(t1) && CanonicalTrees(t2)
    requires NoCollision(sha, TreeFrames(t1) + TreeFrames(t2))
    requires Walk(sha, t1, oid, prefix, f1, acc).Ok? && Walk(sha, t2, oid, prefix, f2, acc).Ok?
    ensures Walk(sha, t1, oid, prefix, f1, acc) == Walk(sha, t2, oid, prefix, f2, acc)
    decreases f1, 0, 0
  {
    hide *;
    AcceptedTree(sha, t1, oid, prefix, f1, acc);
    AcceptedTree(sha, t2, oid, prefix, f2, acc);
    SameIdSameEntries(sha, t1, t2, oid);
    EntriesAgree(sha, t1, t2, t1[oid], prefix, f1 - 1, f2 - 1, acc);
  }

  lemma {:induction false} EntriesAgree(sha: Sha, t1: map<string, seq<Entry>>, t2: map<string, seq<Entry>>,
                                        entries: seq<Entry>, prefix: string, f1: nat, f2: nat, acc: Found)
    requires CanonicalTrees(t1) && CanonicalTrees(t2)
    requires NoCollision(sha, TreeFrames(t1) + TreeFrames(t2))
    requires WalkEntries(sha, t1, entries, prefix, f1, acc).Ok? && WalkEntries(sha, t2, entries, prefix, f2, acc).Ok?
    ensures WalkEntries(sha, t1, entries, prefix, f1, acc) == WalkEntries(sha, t2, entries, prefix, f2, acc)
    decreases f1, |entries|, 0
  {
    if entries != [] {
      hide Walk, WalkEntry, Canonical, CanonicalTrees, TreeFrames, NoCollision;
      var next1 := AcceptedEntries(sha, t1, entries, prefix, f1, acc);
      var next2 := AcceptedEntries(sha, t2, entries, prefix, f2, acc);
      EntryAgrees(sha, t1, t2, entries[0], prefix, f1, f2, acc);
      EntriesAgree(sha, t1, t2, entries[1..], prefix, f1, f2, next1);
    }
  }

  lemma {:induction false} EntryAgrees(sha: Sha, t1: map<string, seq<Entry>>, t2: map<string, seq<Entry>>,
                                       e: Entry, prefix: string, f1: nat, f2: nat, acc: Found)
    requires CanonicalTrees(t1) && CanonicalTrees(t2)
    requires NoCollision(sha, TreeFrames(t1) + TreeFrames(t2))
    requires WalkEntry(sha, t1, e, prefix, f1, acc).Ok? && WalkEntry(sha, t2, e, prefix, f2, acc).Ok?
    ensures WalkEntry(sha, t1, e, prefix, f1, acc) == WalkEntry(sha, t2, e, prefix, f2, acc)
    decreases f1, 0, 1
  {
    hide Walk, Canonical, CanonicalTrees, TreeFrames, NoCollision;
    if !(prefix == "" && e.name in EXCLUDED) && e.mode == TREE_MODE {
      WalksAgree(sha, t1, t2, e.oid, prefix + e.name + "/", f1, f2, acc);
    }
  }

  /** An accepted record has the pinned commit, and its blobs come from the walk of its root tree. */
  lemma AcceptedRecord(sha: Sha, pin: string, r: Record, fuel: nat) returns (root: string, found: Found)
    requires ChainBlobs(sha, pin, r, fuel).Ok?
    ensures Oid(sha, COMMIT, Utf8.Encode(r.commit)) == pin
    ensures RootOf(Utf8.Encode(r.commit)) == Some(root)
    ensures Walk(sha, r.trees, root, "", fuel, Found(map[], [])) == Ok(found)
    ensures multiset(found.seen) == multiset(EXCLUDED) && ChainBlobs(sha, pin, r, fuel) == Ok(found.blobs)
  {
    hide Oid, RootOf, Walk, Utf8.Encode;
    root := RootOf(Utf8.Encode(r.commit)).value;
    found := Walk(sha, r.trees, root, "", fuel, Found(map[], [])).value;
  }

  lemma SameIdSameBody(sha: Sha, kind: Bytes, body1: Bytes, body2: Bytes, hashed: set<Bytes>)
    requires SPACE !in kind && NoCollision(sha, hashed)
    requires Frame(kind, body1) in hashed && Frame(kind, body2) in hashed
    requires Oid(sha, kind, body1) == Oid(sha, kind, body2)
    ensures body1 == body2
  {
    hide Frame;
    FrameIsInjective(kind, body1, kind, body2);
  }

  /**
   Two records and two vendored trees that pass the check for one pin are the same vendored tree,
   unless two different objects among those the checks hashed share an id.
   */
  lemma PinDeterminesEveryByte(sha: Sha, pin: string, r1: Record, files1: map<string, Bytes>, f1: nat,
                               r2: Record, files2: map<string, Bytes>, f2: nat)
    requires CanonicalTrees(r1.trees) && CanonicalTrees(r2.trees)
    requires NoCollision(sha, Hashed(r1, files1) + Hashed(r2, files2))
    requires ChainHolds(sha, pin, r1, files1, f1) && ChainHolds(sha, pin, r2, files2, f2)
    ensures ChainBlobs(sha, pin, r1, f1) == ChainBlobs(sha, pin, r2, f2)
    ensures files1 == files2
  {
    hide Frame, Oid, Walk, RootOf, ChainBlobs, Utf8.Encode, CanonicalTrees, TreeFrames;
    var hashed := Hashed(r1, files1) + Hashed(r2, files2);
    var root, found := AcceptedRecord(sha, pin, r1, f1);
    var root2, found2 := AcceptedRecord(sha, pin, r2, f2);
    SameIdSameBody(sha, COMMIT, Utf8.Encode(r1.commit), Utf8.Encode(r2.commit), hashed);
    assert NoCollision(sha, TreeFrames(r1.trees) + TreeFrames(r2.trees));
    WalksAgree(sha, r1.trees, r2.trees, root, "", f1, f2, Found(map[], []));
    forall path | path in found.blobs
      ensures files1[path] == files2[path]
    {
      SameIdSameBody(sha, BLOB, files1[path], files2[path], hashed);
    }
  }
}
