/**
 `objects_from_repo`: the walk that writes the objects record, and its agreement with the walk
 that verifies it.
 */
module GitWriter {
  import opened Common
  import opened GitObjects
  import opened GitChain
  import Utf8

  /** What `git cat-file` answers: the pinned commit, and raw trees by id. */
  datatype Repo = Repo(commit: Bytes, trees: map<string, Bytes>)

  // ---------------------------------------------------------------------------------------
  // The writer

  function WriteTree(repo: Repo, oid: string, top: bool, fuel: nat, trees: map<string, seq<Entry>>)
    : Option<map<string, seq<Entry>>>
    decreases fuel, 0
  {
    if fuel == 0 || oid !in repo.trees then None
    else match ParseTree(repo.trees[oid])
      case None => None
      case Some(entries) => WriteEntries(repo, entries, top, fuel - 1, trees[oid := entries])
  }

  function WriteEntries(repo: Repo, entries: seq<Entry>, top: bool, fuel: nat, trees: map<string, seq<Entry>>)
    : Option<map<string, seq<Entry>>>
    decreases fuel, |entries|
  {
    if entries == [] then Some(trees)
    else if (top && entries[0].name in EXCLUDED) || entries[0].mode != TREE_MODE then
      WriteEntries(repo, entries[1..], top, fuel, trees)
    else match WriteTree(repo, entries[0].oid, false, fuel, trees)
      case None => None
      case Some(more) => WriteEntries(repo, entries[1..], top, fuel, more)
  }

  function ObjectsFromRepo(repo: Repo, pin: string, fuel: nat): Option<Record> {
    match (RootOf(repo.commit), Utf8.Decode(repo.commit))
    case (Some(root), Some(commit)) =>
      (match WriteTree(repo, root, true, fuel, map[])
       case None => None
       case Some(trees) => Some(Record(SCHEMA, pin, EXCLUDED, commit, trees)))
    case _ => None
  }

  /** The walk as the tool runs it, filling `trees` in place. */
  class RecordWriter {
    const repo: Repo
    var trees: map<string, seq<Entry>>

    constructor (repo: Repo)
      ensures this.repo == repo && trees == map[]
    {
      this.repo := repo;
      trees := map[];
    }

    method Write(oid: string, top: bool, fuel: nat) returns (ok: bool)
      modifies this
      ensures match WriteTree(repo, oid, top, fuel, old(trees))
              case Some(written) => ok && trees == written
              case None => !ok
      decreases fuel
    {
      hide ParseTree;
      if fuel == 0 || oid !in repo.trees { return false; }
      var parsed := ParseTreeLoop(repo.trees[oid]);
      if parsed.None? { return false; }
      var entries := parsed.value;
      trees := trees[oid := entries];
      ghost var begun := trees;
      var i := 0;
      while i < |entries|
        invariant 0 <= i <= |entries|
        invariant WriteEntries(repo, entries, top, fuel - 1, begun)
               == WriteEntries(repo, entries[i..], top, fuel - 1, trees)
      {
        hide WriteTree;
        assert entries[i..][1..] == entries[i + 1..];
        if !(top && entries[i].name in EXCLUDED) && entries[i].mode == TREE_MODE {
          ok := Write(entries[i].oid, false, fuel - 1);
          if !ok { return; }
        }
        i := i + 1;
      }
      ok := true;
    }
  }

  // ---------------------------------------------------------------------------------------
  // Repository trees

  datatype Item = Item(mode: string, name: string, kid: Kid)

  datatype Kid = Leaf(oid: string) | Sub(items: seq<Item>)

  function Listing(sha: Sha, items: seq<Item>): seq<Entry>
    decreases items
  {
    if items == [] then []
    else
      var oid := match items[0].kid case Leaf(o) => o case Sub(s) => Oid(sha, TREE, Print(Listing(sha, s)));
      [Entry(items[0].mode, items[0].name, oid)] + Listing(sha, items[1..])
  }

  function Print(entries: seq<Entry>): Bytes {
    match TreeBytes(entries) case Some(b) => b case None => []
  }

  function TreeId(sha: Sha, items: seq<Item>): string {
    Oid(sha, TREE, Print(Listing(sha, items)))
  }

  predicate Excluded(top: bool, i: Item) {
    top && i.name in EXCLUDED
  }

  predicate IsOid(s: string) {
    IsHex(s) && |s| == 40
  }

  /** Names and modes that fit a tree object. */
  predicate Plain(i: Item) {
    Ascii(i.mode).Some? && ' ' !in i.mode && '\0' !in i.name && (i.kid.Leaf? ==> IsOid(i.kid.oid))
  }

  /** Regular files and directories only, apart from the excluded top-level entries. */
  predicate Regular(items: seq<Item>, top: bool)
    decreases items
  {
    items == [] ||
    (&& Plain(items[0])
     && (Excluded(top, items[0])
         || (items[0].mode in FILE_MODES && items[0].kid.Leaf?)
         || (items[0].mode == TREE_MODE && items[0].kid.Sub? && Regular(items[0].kid.items, false)))
     && Regular(items[1..], top))
  }

  /** The repository holds the tree and every subtree that is not excluded. */
  predicate Holds(sha: Sha, repo: Repo, items: seq<Item>, top: bool)
    decreases items, 1
  {
    && TreeId(sha, items) in repo.trees && repo.trees[TreeId(sha, items)] == Print(Listing(sha, items))
    && HoldsKids(sha, repo, items, top)
  }

  predicate HoldsKids(sha: Sha, repo: Repo, items: seq<Item>, top: bool)
    decreases items, 0
  {
    items == [] ||
    (&& (!Excluded(top, items[0]) && items[0].kid.Sub? ==> Holds(sha, repo, items[0].kid.items, false))
     && HoldsKids(sha, repo, items[1..], top))
  }

  function Height(items: seq<Item>): nat
    decreases items
  {
    if items == [] then 0
    else
      var first := if items[0].kid.Sub? then 1 + Height(items[0].kid.items) else 0;
      var others := Height(items[1..]);
      if first > others then first else others
  }

  /** The files of a tree: path to blob id. */
  function Files(items: seq<Item>, prefix: string): map<string, string>
    decreases items
  {
    if items == [] then map[]
    else
      var path := prefix + items[0].name;
      (match items[0].kid case Leaf(oid) => map[path := oid] case Sub(s) => Files(s, path + "/"))
      + Files(items[1..], prefix)
  }

  /** The items that are vendored, and the names that are not. */
  function Vendored(items: seq<Item>): seq<Item> {
    if items == [] then []
    else (if Excluded(true, items[0]) then [] else [items[0]]) + Vendored(items[1..])
  }

  function ExcludedNames(items: seq<Item>): seq<string> {
    if items == [] then []
    else (if Excluded(true, items[0]) then [items[0].name] else []) + ExcludedNames(items[1..])
  }

  // ---------------------------------------------------------------------------------------
  // What the writer records

  ghost predicate HexIds(sha: Sha) {
    forall b: Bytes :: IsOid(sha(b))
  }

  lemma {:induction false} ListingIsCanonical(sha: Sha, items: seq<Item>, top: bool)
    requires HexIds(sha) && Regular(items, top)
    ensures Canonical(Listing(sha, items))
    ensures forall e | e in Listing(sha, items) :: |e.oid| == 40
  {
    if items != [] {
      ListingIsCanonical(sha, items[1..], top);
      hide IsHex, Ascii, Frame;
      CanonicalCons(Listing(sha, items)[0], Listing(sha, items[1..]));
    }
  }

  lemma HeldTreeParses(sha: Sha, repo: Repo, items: seq<Item>, top: bool)
    requires HexIds(sha) && Regular(items, top) && Holds(sha, repo, items, top)
    ensures ParseTree(repo.trees[TreeId(sha, items)]) == Some(Listing(sha, items))
    ensures TreeBytes(Listing(sha, items)) == Some(Print(Listing(sha, items)))
  {
    ListingIsCanonical(sha, items, top);
    ParsePrintCanonical(Listing(sha, items));
  }

  /** Every recorded tree is what the repository's raw tree parses to. */
  ghost predicate Faithful(repo: Repo, trees: map<string, seq<Entry>>) {
    forall oid | oid in trees :: oid in repo.trees && ParseTree(repo.trees[oid]) == Some(trees[oid])
  }

  lemma FaithfulWithOneMore(repo: Repo, trees: map<string, seq<Entry>>, oid: string, entries: seq<Entry>)
    requires Faithful(repo, trees) && oid in repo.trees && ParseTree(repo.trees[oid]) == Some(entries)
    ensures Faithful(repo, trees[oid := entries])
  {
  }

  /** The ids of the tree and of every subtree that is not excluded are among `ids`. */
  predicate Visited(sha: Sha, ids: set<string>, items: seq<Item>, top: bool)
    decreases items, 1
  {
    TreeId(sha, items) in ids && VisitedKids(sha, ids, items, top)
  }

  predicate VisitedKids(sha: Sha, ids: set<string>, items: seq<Item>, top: bool)
    decreases items, 0
  {
    items == [] ||
    (&& (!Excluded(top, items[0]) && items[0].kid.Sub? ==> Visited(sha, ids, items[0].kid.items, false))
     && VisitedKids(sha, ids, items[1..], top))
  }

  lemma {:induction false} VisitedGrows(sha: Sha, ids: set<string>, more: set<string>, items: seq<Item>, top: bool)
    requires ids <= more && VisitedKids(sha, ids, items, top)
    ensures VisitedKids(sha, more, items, top)
    decreases items
  {
    if items != [] {
      VisitedGrows(sha, ids, more, items[1..], top);
      if !Excluded(top, items[0]) && items[0].kid.Sub? {
        VisitedGrows(sha, ids, more, items[0].kid.items, false);
      }
    }
  }

  lemma {:induction false} WritesTree(sha: Sha, repo: Repo, items: seq<Item>, top: bool, fuel: nat,
                                      trees: map<string, seq<Entry>>) returns (written: map<string, seq<Entry>>)
    requires HexIds(sha) && Regular(items, top) && Holds(sha, repo, items, top)
    requires Height(items) < fuel && Faithful(repo, trees)
    ensures WriteTree(repo, TreeId(sha, items), top, fuel, trees) == Some(written)
    ensures Faithful(repo, written) && trees.Keys <= written.Keys && Visited(sha, written.Keys, items, top)
    decreases items, 1
  {
    hide ParseTree, TreeBytes, TreeId, Listing, Print, HexIds, Regular, HoldsKids, WriteEntries, VisitedKids, Height,
         Faithful;
    HeldTreeParses(sha, repo, items, top);
    var oid := TreeId(sha, items);
    FaithfulWithOneMore(repo, trees, oid, Listing(sha, items));
    written := WritesEntries(sha, repo, items, top, fuel - 1, trees[oid := Listing(sha, items)]);
  }

  lemma {:induction false} WritesEntries(sha: Sha, repo: Repo, items: seq<Item>, top: bool, fuel: nat,
                                         trees: map<string, seq<Entry>>) returns (written: map<string, seq<Entry>>)
    requires HexIds(sha) && Regular(items, top) && HoldsKids(sha, repo, items, top)
    requires Height(items) <= fuel && Faithful(repo, trees)
    ensures WriteEntries(repo, Listing(sha, items), top, fuel, trees) == Some(written)
    ensures Faithful(repo, written) && trees.Keys <= written.Keys && VisitedKids(sha, written.Keys, items, top)
    decreases items, 0
  {
    if items == [] {
      written := trees;
    } else {
      var middle := trees;
      var first := items[0];
      if !Excluded(top, first) && first.kid.Sub? {
        middle := WritesTree(sha, repo, first.kid.items, false, fuel, trees);
      }
      written := WritesEntries(sha, repo, items[1..], top, fuel, middle);
      assert Listing(sha, items)[1..] == Listing(sha, items[1..]);
      if !Excluded(top, first) && first.kid.Sub? {
        VisitedGrows(sha, middle.Keys, written.Keys, first.kid.items, false);
      }
    }
  }

  // ---------------------------------------------------------------------------------------
  // What the verifier makes of it

  /** Collected so far, then the files and excluded names of one more tree. */
  function Collected(acc: Found, items: seq<Item>, prefix: string): Found {
    if prefix == "" then Found(acc.blobs + Files(Vendored(items), ""), acc.seen + ExcludedNames(items))
    else Found(acc.blobs + Files(items, prefix), acc.seen)
  }

  lemma {:induction false} WalksRecordedTree(sha: Sha, repo: Repo, trees: map<string, seq<Entry>>, items: seq<Item>,
                                             prefix: string, fuel: nat, acc: Found)
    requires HexIds(sha) && Regular(items, prefix == "") && Holds(sha, repo, items, prefix == "")
    requires Faithful(repo, trees) && Visited(sha, trees.Keys, items, prefix == "")
    requires Height(items) < fuel
    ensures Walk(sha, trees, TreeId(sha, items), prefix, fuel, acc) == Ok(Collected(acc, items, prefix))
    decreases items, 1
  {
    hide Walk, WalkEntries, ParseTree, TreeBytes, Listing, Regular, HoldsKids, VisitedKids, Collected, Height, HexIds,
         Print;
    HeldTreeParses(sha, repo, items, prefix == "");
    RecordedTree(sha, trees, TreeId(sha, items), Print(Listing(sha, items)), prefix, fuel, acc);
    WalksRecordedEntries(sha, repo, trees, items, prefix, fuel - 1, acc);
  }

  lemma {:induction false} WalksRecordedEntries(sha: Sha, repo: Repo, trees: map<string, seq<Entry>>,
                                                items: seq<Item>, prefix: string, fuel: nat, acc: Found)
    requires HexIds(sha) && Regular(items, prefix == "") && HoldsKids(sha, repo, items, prefix == "")
    requires Faithful(repo, trees) && VisitedKids(sha, trees.Keys, items, prefix == "")
    requires Height(items) <= fuel
    ensures WalkEntries(sha, trees, Listing(sha, items), prefix, fuel, acc) == Ok(Collected(acc, items, prefix))
    decreases items, 0
  {
    if items == [] {
      assert acc.blobs + map[] == acc.blobs && acc.seen + [] == acc.seen;
    } else {
      var first, rest := items[0], items[1..];
      var path := prefix + first.name;
      assert Listing(sha, items)[1..] == Listing(sha, rest);
      assert first.mode in FILE_MODES ==> first.mode != TREE_MODE;
      if !Excluded(prefix == "", first) && first.kid.Sub? {
        WalksRecordedTree(sha, repo, trees, first.kid.items, path + "/", fuel, acc);
      }
      var next := Collected(acc, [first], prefix);
      CollectedFirst(acc, first, prefix);
      hide Walk, Files, Vendored, ExcludedNames, TreeId, Faithful, Holds, Visited;
      assert WalkEntry(sha, trees, Listing(sha, items)[0], prefix, fuel, acc) == Ok(next);
      WalksRecordedEntries(sha, repo, trees, rest, prefix, fuel, next);
      CollectedCons(acc, first, rest, prefix);
    }
  }

  lemma CollectedFirst(acc: Found, first: Item, prefix: string)
    ensures Collected(acc, [first], prefix) ==
      if Excluded(prefix == "", first) then acc.(seen := acc.seen + [first.name])
      else match first.kid
        case Leaf(oid) => acc.(blobs := acc.blobs[prefix + first.name := oid])
        case Sub(s) => acc.(blobs := acc.blobs + Files(s, prefix + first.name + "/"))
  {
    assert Vendored([first]) == if Excluded(true, first) then [] else [first];
    assert ExcludedNames([first]) == if Excluded(true, first) then [first.name] else [];
    assert acc.blobs + map[] == acc.blobs && acc.seen + [] == acc.seen;
    var path := prefix + first.name;
    if first.kid.Leaf? {
      assert Files([first], prefix) == map[path := first.kid.oid];
    } else {
      assert Files([first], prefix) == Files(first.kid.items, path + "/");
    }
  }

  lemma CollectedCons(acc: Found, first: Item, rest: seq<Item>, prefix: string)
    ensures Collected(Collected(acc, [first], prefix), rest, prefix) == Collected(acc, [first] + rest, prefix)
  {
    if prefix == "" {
      VendoredCons(first, rest);
      FilesOfVendored(first, Vendored(rest));
      CollectedTop(acc, first, rest);
    } else {
      hide Files, Vendored, ExcludedNames;
      FilesCons(first, rest, prefix);
      assert acc.blobs + Files([first], prefix) + Files(rest, prefix)
          == acc.blobs + (Files([first], prefix) + Files(rest, prefix));
    }
  }

  lemma FilesOfVendored(first: Item, rest: seq<Item>)
    ensures Files(Vendored([first]) + rest, "") == Files(Vendored([first]), "") + Files(rest, "")
  {
    VendoredCons(first, []);
    NoFiles();
    hide Files, Vendored, ExcludedNames;
    if Vendored([first]) == [] {
      assert [] + rest == rest && map[] + Files(rest, "") == Files(rest, "");
    } else {
      FilesCons(first, rest, "");
    }
  }

  lemma NoFiles()
    ensures Files([], "") == map[]
  {
  }

  lemma VendoredCons(first: Item, rest: seq<Item>)
    ensures Vendored([first]) == [] || Vendored([first]) == [first]
    ensures Vendored([first] + rest) == Vendored([first]) + Vendored(rest)
    ensures ExcludedNames([first] + rest) == ExcludedNames([first]) + ExcludedNames(rest)
  {
  }

  lemma CollectedTop(acc: Found, first: Item, rest: seq<Item>)
    requires Vendored([first] + rest) == Vendored([first]) + Vendored(rest)
    requires ExcludedNames([first] + rest) == ExcludedNames([first]) + ExcludedNames(rest)
    requires Files(Vendored([first]) + Vendored(rest), "") == Files(Vendored([first]), "") + Files(Vendored(rest), "")
    ensures Collected(Collected(acc, [first], ""), rest, "") == Collected(acc, [first] + rest, "")
  {
    hide Files, Vendored, ExcludedNames;
    var b1, b2 := Files(Vendored([first]), ""), Files(Vendored(rest), "");
    assert acc.blobs + b1 + b2 == acc.blobs + (b1 + b2);
    var n1, n2 := ExcludedNames([first]), ExcludedNames(rest);
    assert acc.seen + n1 + n2 == acc.seen + (n1 + n2);
  }

  lemma FilesCons(first: Item, rest: seq<Item>, prefix: string)
    ensures Files([first] + rest, prefix) == Files([first], prefix) + Files(rest, prefix)
  {
  }

  /**
   The writer agrees with the verifier: for any repository tree of regular files and directories
   that holds every excluded top-level name once, the record written from the repository is
   accepted, and the blobs are exactly the files of the tree outside the excluded entries.
   */
  lemma WriterAgreesWithVerifier(sha: Sha, pin: string, repo: Repo, items: seq<Item>, fuel: nat)
    requires HexIds(sha) && Regular(items, true) && Holds(sha, repo, items, true)
    requires multiset(ExcludedNames(items)) == multiset(EXCLUDED)
    requires Oid(sha, COMMIT, repo.commit) == pin && Utf8.Decode(repo.commit).Some?
    requires RootOf(repo.commit) == Some(TreeId(sha, items))
    requires Height(items) < fuel
    ensures var r := ObjectsFromRepo(repo, pin, fuel);
            r.Some? && ChainBlobs(sha, pin, r.value, fuel) == Ok(Files(Vendored(items), ""))
  {
    hide Walk, WriteTree, RootOf, Utf8.Decode, Utf8.Encode, Oid, TreeId, Files, Vendored, ExcludedNames, HexIds,
         Regular, Holds, Visited, Height;
    var trees := WritesTree(sha, repo, items, true, fuel, map[]);
    Utf8.EncodeDecode(repo.commit);
    WalksRecordedTree(sha, repo, trees, items, "", fuel, Found(map[], []));
    assert map[] + Files(Vendored(items), "") == Files(Vendored(items), "");
    assert [] + ExcludedNames(items) == ExcludedNames(items);
  }
}
