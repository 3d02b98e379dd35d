/**
 `Installer._verify_asset_directory` over a directory tree with symbolic links and with objects that the
 process may not open: what it accepts, and exactly when that is the manifest and nothing else.
 */
module AssetDirectory {
  import opened Common
  import opened AssetSpec
  import RelativePath

  type Parts = seq<string>

  /**
   A file system object. A file may be readable or not, a directory may be listed, and searched for a
   name, or not. A link has a text of some length, and reaches an object or nothing; what it reaches is
   unrolled as deep as anyone looks.
   */
  datatype Node =
    | File(bytes: Bytes, readable: bool)
    | Dir(entries: map<string, Node>, listable: bool, searchable: bool)
    | Link(text: nat, reach: Option<Node>)
    | Special

  // ---------------------------------------------------------------------------------------
  // Looking at a tree

  /** `stat`: links are followed. */
  function Follow(n: Node): Option<Node> {
    if n.Link? then n.reach else Some(n)
  }

  predicate IsDirectory(n: Node) {
    Follow(n).Some? && Follow(n).value.Dir?
  }

  function Resolve(n: Node, parts: Parts): Option<Node>
    decreases |parts|
  {
    var m :- Follow(n);
    if parts == [] then Some(m)
    else
      :- Require(m.Dir? && m.searchable && parts[0] in m.entries);
      Resolve(m.entries[parts[0]], parts[1..])
  }

  /** `lstat`: a link in the last place is not followed. */
  function Lookup(n: Node, parts: Parts): Option<Node>
    decreases |parts|
  {
    if parts == [] then Some(n)
    else
      var m :- Follow(n);
      :- Require(m.Dir? && m.searchable && parts[0] in m.entries);
      Lookup(m.entries[parts[0]], parts[1..])
  }

  /** The object at a path of real directories, whoever may look at it. */
  function At(n: Node, parts: Parts): Option<Node>
    decreases |parts|
  {
    if parts == [] then Some(n)
    else
      :- Require(n.Dir? && parts[0] in n.entries);
      At(n.entries[parts[0]], parts[1..])
  }

  /** The bytes of the regular file that the tree itself holds at a path. */
  function RealFile(n: Node, parts: Parts): Option<Bytes> {
    var m :- At(n, parts);
    :- Require(m.File?);
    Some(m.bytes)
  }

  predicate LinkFree(n: Node) {
    match n
    case Dir(entries, _, _) => forall name | name in entries :: LinkFree(entries[name])
    case Link(_, _) => false
    case _ => true
  }

  predicate WellNamed(n: Node) {
    n.Dir? ==> forall name | name in n.entries :: RelativePath.IsName(name) && WellNamed(n.entries[name])
  }

  /** Every directory of the tree can be listed. */
  predicate Listable(n: Node) {
    n.Dir? ==> n.listable && forall name | name in n.entries :: Listable(n.entries[name])
  }

  /** Every directory of the tree can be searched for a name. */
  predicate Searchable(n: Node) {
    n.Dir? ==> n.searchable && forall name | name in n.entries :: Searchable(n.entries[name])
  }

  /** Every file of the tree can be read. */
  predicate Readable(n: Node) {
    match n
    case Dir(entries, _, _) => forall name | name in entries :: Readable(entries[name])
    case File(_, readable) => readable
    case _ => true
  }

  predicate Permitted(n: Node) {
    Listable(n) && Searchable(n) && Readable(n)
  }

  /** `os.walk` takes an entry for a directory: a real one, or a link that can be followed to one. */
  predicate TakenForDirectory(n: Node, child: Node)
    requires n.Dir?
  {
    child.Dir? || (n.searchable && IsDirectory(child))
  }

  /**
   `os.walk` reports the path as a file name: below real directories that it can list, and enter, whatever it
   does not take for a directory. A directory whose listing fails is passed over in silence.
   */
  predicate Walked(n: Node, parts: Parts)
    decreases |parts|
  {
    && parts != [] && n.Dir? && n.listable && parts[0] in n.entries
    && var child := n.entries[parts[0]];
       if |parts| == 1 then !TakenForDirectory(n, child) else n.searchable && Walked(child, parts[1..])
  }

  // ---------------------------------------------------------------------------------------
  // The verification

  function Size(n: Node): nat {
    match n
    case File(bytes, _) => |bytes|
    case Link(text, _) => text
    case _ => 0
  }

  /**
   The checks of one manifest entry: the size is the object's own, the bytes are those it leads to. A file
   that cannot be read raises an error instead, which is no acceptance either.
   */
  predicate Matches(root: Node, item: FileSpec, hash: Bytes -> string) {
    var target, info := Resolve(root, RelativePath.Split(item.path)), Lookup(root, RelativePath.Split(item.path));
    && target.Some? && target.value.File?
    && info.Some? && Size(info.value) == item.bytes
    && target.value.readable && hash(target.value.bytes) == item.sha256
  }

  function PathsOf(files: seq<FileSpec>): set<string> {
    set i | 0 <= i < |files| :: files[i].path
  }

  ghost predicate Accepts(root: Node, files: seq<FileSpec>, hash: Bytes -> string) {
    && root.Dir?
    && (forall i | 0 <= i < |files| :: Matches(root, files[i], hash))
    && forall q: Parts | Walked(root, q) :: RelativePath.Join(q) in PathsOf(files)
  }

  /** The walk: every name it reports is one that was verified. */
  method WalkIsSeen(n: Node, above: Parts, seen: set<string>) returns (ok: bool)
    requires n.Dir?
    ensures ok <==> forall q: Parts | Walked(n, q) :: RelativePath.Join(above + q) in seen
    decreases n
  {
    if !n.listable { return true; }
    var left := n.entries.Keys;
    while left != {}
      invariant left <= n.entries.Keys
      invariant forall q: Parts | Walked(n, q) && q[0] !in left :: RelativePath.Join(above + q) in seen
      decreases |left|
    {
      var name :| name in left;
      var child := n.entries[name];
      if child.Dir? && n.searchable {
        ok := WalkIsSeen(child, above + [name], seen);
        if !ok {
          var q: Parts :| Walked(child, q) && RelativePath.Join(above + [name] + q) !in seen;
          WalkInto(n, name, q);
          assert above + [name] + q == above + ([name] + q);
          return false;
        }
        forall q: Parts | Walked(n, q) && q[0] == name ensures RelativePath.Join(above + q) in seen {
          assert |q| > 1 && q == [name] + q[1..];
          assert above + [name] + q[1..] == above + q;
        }
      } else if !TakenForDirectory(n, child) {
        assert Walked(n, [name]);
        if RelativePath.Join(above + [name]) !in seen { return false; }
        forall q: Parts | Walked(n, q) && q[0] == name ensures q == [name] {
          WalkedInside(n, q);
        }
      }
      left := left - {name};
    }
    return true;
  }

  /** A longer path goes through a real directory. */
  lemma WalkedInside(n: Node, q: Parts)
    requires Walked(n, q)
    ensures |q| == 1 || (n.searchable && n.entries[q[0]].Dir? && Walked(n.entries[q[0]], q[1..]))
  {
  }

  lemma WalkInto(n: Node, name: string, q: Parts)
    requires n.Dir? && n.listable && n.searchable && name in n.entries && Walked(n.entries[name], q)
    ensures Walked(n, [name] + q)
  {
  }

  /** `_verify_asset_directory`; `root` is what the directory's real path leads to. */
  method VerifyDirectory(root: Node, files: seq<FileSpec>, hash: Bytes -> string) returns (ok: bool)
    ensures ok <==> Accepts(root, files, hash)
  {
    if !root.Dir? { return false; }
    var seen: set<string> := {};
    for i := 0 to |files|
      invariant forall j | 0 <= j < i :: Matches(root, files[j], hash)
      invariant seen == PathsOf(files[..i])
    {
      var item := files[i];
      var target := Resolve(root, RelativePath.Split(item.path));
      if target.None? || !target.value.File? { return false; }
      var info := Lookup(root, RelativePath.Split(item.path));
      if info.None? { return false; }
      if Size(info.value) != item.bytes || !target.value.readable { return false; }
      if hash(target.value.bytes) != item.sha256 { return false; }
      seen := seen + {item.path};
      assert files[..i + 1] == files[..i] + [item];
    }
    assert files[..|files|] == files;
    ok := WalkIsSeen(root, [], seen);
    assert forall q: Parts :: [] + q == q;
  }

  // ---------------------------------------------------------------------------------------
  // What is accepted

  predicate PlainPaths(files: seq<FileSpec>) {
    forall i | 0 <= i < |files| :: RelativePath.Plain(files[i].path)
  }

  /** The path leads to its object through real directories, and the object is no link. */
  predicate IsDirect(root: Node, path: string) {
    var n := At(root, RelativePath.Split(path));
    n.Some? && !n.value.Link?
  }

  predicate Names(files: seq<FileSpec>, q: Parts) {
    exists i :: 0 <= i < |files| && RelativePath.Split(files[i].path) == q
  }

  /** The tree itself holds the listed file, with its size and digest. */
  predicate IsListedFile(root: Node, item: FileSpec, hash: Bytes -> string) {
    var b := RealFile(root, RelativePath.Split(item.path));
    b.Some? && |b.value| == item.bytes && hash(b.value) == item.sha256
  }

  /** The tree itself holds each listed file with its size and digest, and nothing else but directories. */
  ghost predicate IsExactly(root: Node, files: seq<FileSpec>, hash: Bytes -> string) {
    && root.Dir?
    && (forall i | 0 <= i < |files| :: IsListedFile(root, files[i], hash))
    && forall q: Parts | At(root, q).Some? && !At(root, q).value.Dir? :: Names(files, q)
  }

  /** No symbolic link of the tree leads to a directory. */
  ghost predicate NoLinkedDirectory(root: Node) {
    forall q: Parts | At(root, q).Some? && At(root, q).value.Link? :: !IsDirectory(At(root, q).value)
  }

  /** Each directory on the way to the path can be searched. */
  predicate Passable(n: Node, parts: Parts)
    decreases |parts|
  {
    parts == [] || (n.Dir? && n.searchable && parts[0] in n.entries && Passable(n.entries[parts[0]], parts[1..]))
  }

  /** The walk gets to list the directory that the path lies in. */
  predicate Shown(n: Node, parts: Parts)
    decreases |parts|
  {
    && parts != [] && n.Dir? && n.listable && parts[0] in n.entries
    && (|parts| > 1 ==> n.searchable && Shown(n.entries[parts[0]], parts[1..]))
  }

  /** The walk reports exactly what it gets to list and takes for no directory. */
  lemma {:induction false} WalkedExactly(n: Node, q: Parts)
    ensures q != [] && At(n, q).Some? ==> At(n, q[..|q| - 1]).Some? && At(n, q[..|q| - 1]).value.Dir?
    ensures Walked(n, q) <==>
              && q != [] && At(n, q).Some? && Shown(n, q)
              && !TakenForDirectory(At(n, q[..|q| - 1]).value, At(n, q).value)
    decreases |q|
  {
    if q != [] && n.Dir? && q[0] in n.entries {
      var child := n.entries[q[0]];
      assert At(n, q) == At(child, q[1..]);
      if |q| == 1 {
        assert q[1..] == [] && q[..0] == [] && At(child, []) == Some(child);
      } else {
        WalkedExactly(child, q[1..]);
        assert q[..|q| - 1][1..] == q[1..][..|q| - 2];
      }
    }
  }

  /** Where no link is in the last place, all looks agree, if the directories on the way can be searched. */
  lemma {:induction false} DirectLooksAgree(n: Node, parts: Parts)
    requires At(n, parts).Some? && !At(n, parts).value.Link?
    ensures Resolve(n, parts) == Lookup(n, parts) == if Passable(n, parts) then At(n, parts) else None
    decreases |parts|
  {
    if parts != [] {
      DirectLooksAgree(n.entries[parts[0]], parts[1..]);
    }
  }

  lemma {:induction false} WalkedNames(n: Node, q: Parts)
    requires WellNamed(n) && Walked(n, q)
    ensures RelativePath.AllNames(q)
    decreases |q|
  {
    if |q| > 1 {
      WalkedNames(n.entries[q[0]], q[1..]);
    }
    assert q == [q[0]] + q[1..];
  }

  /** A relative path that the walk builds is listed exactly when its components are those of a listed path. */
  lemma SeenMeansListed(root: Node, files: seq<FileSpec>, q: Parts)
    requires WellNamed(root) && Walked(root, q) && PlainPaths(files)
    ensures RelativePath.Join(q) in PathsOf(files) <==> Names(files, q)
  {
    WalkedNames(root, q);
    RelativePath.SplitJoin(q);
    if Names(files, q) {
      var i :| 0 <= i < |files| && RelativePath.Split(files[i].path) == q;
      RelativePath.JoinSplit(files[i].path);
      assert files[i].path in PathsOf(files);
    }
  }

  /** Each listed file can be reached and read. */
  predicate ListedAreReadable(root: Node, files: seq<FileSpec>) {
    forall i | 0 <= i < |files| ::
      var parts := RelativePath.Split(files[i].path);
      && Passable(root, parts) && At(root, parts).Some?
      && At(root, parts).value.File? && At(root, parts).value.readable
  }

  /** What the walk does not get to see, because a directory may not be listed or entered, is in the manifest. */
  ghost predicate NothingUnlistedHides(root: Node, files: seq<FileSpec>) {
    forall q: Parts | At(root, q).Some? && !At(root, q).value.Dir? && !Shown(root, q) :: Names(files, q)
  }

  predicate ListedAreDirect(root: Node, files: seq<FileSpec>) {
    forall i | 0 <= i < |files| :: IsDirect(root, files[i].path)
  }

  /**
   For every tree: it is the manifest's files and nothing else, and they can be read, exactly when it is
   accepted, no listed path goes through a symbolic link, no link of the tree leads to a directory, and
   nothing unlisted hides where the walk cannot look.
   */
  lemma AcceptedExactly(root: Node, files: seq<FileSpec>, hash: Bytes -> string)
    requires WellNamed(root) && PlainPaths(files)
    ensures IsExactly(root, files, hash) && ListedAreReadable(root, files)
       <==> && Accepts(root, files, hash) && NoLinkedDirectory(root) && ListedAreDirect(root, files)
            && NothingUnlistedHides(root, files)
  {
    hide WellNamed, Walked, At, Resolve, Lookup, PathsOf, Passable, Shown, RelativePath.Plain;
    forall q: Parts | Walked(root, q) ensures RelativePath.Join(q) in PathsOf(files) <==> Names(files, q) {
      SeenMeansListed(root, files, q);
    }
    forall i | 0 <= i < |files| && IsDirect(root, files[i].path)
      ensures Matches(root, files[i], hash) <==>
              && IsListedFile(root, files[i], hash) && Passable(root, RelativePath.Split(files[i].path))
              && At(root, RelativePath.Split(files[i].path)).value.readable
    {
      DirectLooksAgree(root, RelativePath.Split(files[i].path));
    }
    if IsExactly(root, files, hash) && ListedAreReadable(root, files) {
      ExactHasNoLinks(root, files, hash);
      forall q: Parts | Walked(root, q) ensures Names(files, q) { WalkedExactly(root, q); }
    }
    if && Accepts(root, files, hash) && NoLinkedDirectory(root) && ListedAreDirect(root, files)
       && NothingUnlistedHides(root, files) {
      forall q: Parts | At(root, q).Some? && !At(root, q).value.Dir? ensures Names(files, q) {
        WalkedExactly(root, q);
        RootIsItself(root);
      }
    }
  }

  /** Where every directory can be listed and searched, the walk gets to list each path. */
  lemma {:induction false} OpenShows(n: Node, q: Parts)
    requires Listable(n) && Searchable(n) && At(n, q).Some?
    ensures Passable(n, q) && (q != [] ==> Shown(n, q))
    decreases |q|
  {
    if q != [] { OpenShows(n.entries[q[0]], q[1..]); }
  }

  lemma {:induction false} ReadableAt(n: Node, q: Parts)
    requires Readable(n) && At(n, q).Some?
    ensures At(n, q).value.File? ==> At(n, q).value.readable
    decreases |q|
  {
    if q != [] { ReadableAt(n.entries[q[0]], q[1..]); }
  }

  /**
   Where every directory can be listed and searched, and every file read, the tree is the manifest's files
   and nothing else exactly when it is accepted, no listed path goes through a symbolic link, and no link of
   the tree leads to a directory.
   */
  lemma AcceptedIsExactWithoutLinks(root: Node, files: seq<FileSpec>, hash: Bytes -> string)
    requires WellNamed(root) && PlainPaths(files) && Permitted(root)
    ensures IsExactly(root, files, hash)
       <==> Accepts(root, files, hash) && NoLinkedDirectory(root) && ListedAreDirect(root, files)
  {
    hide WellNamed, At, PathsOf, Passable, Shown, RelativePath.Plain, Accepts, NoLinkedDirectory, ListedAreDirect,
         Listable, Searchable, Readable;
    AcceptedExactly(root, files, hash);
    if Accepts(root, files, hash) { AcceptedIsADirectory(root, files, hash); }
    if root.Dir? { NothingHidesWhereOpen(root, files); }
    if IsExactly(root, files, hash) {
      forall i | 0 <= i < |files|
        ensures var parts := RelativePath.Split(files[i].path);
                && Passable(root, parts) && At(root, parts).Some?
                && At(root, parts).value.File? && At(root, parts).value.readable
      {
        assert IsListedFile(root, files[i], hash);
        OpenShows(root, RelativePath.Split(files[i].path));
        ReadableAt(root, RelativePath.Split(files[i].path));
      }
    }
  }

  lemma NothingHidesWhereOpen(root: Node, files: seq<FileSpec>)
    requires root.Dir? && Listable(root) && Searchable(root)
    ensures NothingUnlistedHides(root, files)
  {
    hide At, Shown, Listable, Searchable;
    RootIsItself(root);
    forall q: Parts | At(root, q).Some? && !At(root, q).value.Dir? ensures Shown(root, q) {
      OpenShows(root, q);
    }
  }

  lemma RootIsItself(n: Node)
    ensures At(n, []) == Some(n)
  {
  }

  /** Whatever is no directory is listed, and what is listed is a file. */
  lemma ExactHasNoLinks(root: Node, files: seq<FileSpec>, hash: Bytes -> string)
    requires IsExactly(root, files, hash)
    ensures forall q: Parts | At(root, q).Some? :: At(root, q).value.File? || At(root, q).value.Dir?
  {
    hide At;
    forall q: Parts | At(root, q).Some? && !At(root, q).value.Dir? ensures At(root, q).value.File? {
      var i :| 0 <= i < |files| && RelativePath.Split(files[i].path) == q;
      assert RealFile(root, q).Some?;
    }
  }

  lemma {:induction false} LinkFreeIsDirect(n: Node, parts: Parts)
    requires LinkFree(n)
    ensures Resolve(n, parts) == Lookup(n, parts) == if Passable(n, parts) then At(n, parts) else None
    ensures At(n, parts).Some? ==> LinkFree(At(n, parts).value)
    decreases |parts|
  {
    if parts != [] && n.Dir? && parts[0] in n.entries {
      LinkFreeIsDirect(n.entries[parts[0]], parts[1..]);
    }
  }

  lemma LinkFreeHasNoLinks(root: Node, files: seq<FileSpec>, hash: Bytes -> string)
    requires LinkFree(root)
    ensures NoLinkedDirectory(root) && (Accepts(root, files, hash) ==> ListedAreDirect(root, files))
  {
    forall i | 0 <= i < |files| && Matches(root, files[i], hash) ensures IsDirect(root, files[i].path) {
      LinkFreeIsDirect(root, RelativePath.Split(files[i].path));
    }
    forall q: Parts | At(root, q).Some? ensures !At(root, q).value.Link? {
      LinkFreeIsDirect(root, q);
    }
  }

  /** On a tree without links that is open everywhere, as a stage of supplied files is, acceptance is exactness. */
  lemma LinkFreeAcceptedIsExact(root: Node, files: seq<FileSpec>, hash: Bytes -> string)
    requires WellNamed(root) && PlainPaths(files) && LinkFree(root) && Permitted(root)
    ensures IsExactly(root, files, hash) <==> Accepts(root, files, hash)
  {
    hide WellNamed, LinkFree, Permitted, PlainPaths, Accepts, IsExactly, NoLinkedDirectory, ListedAreDirect;
    AcceptedIsExactWithoutLinks(root, files, hash);
    LinkFreeHasNoLinks(root, files, hash);
  }

  /** Two exact trees of one manifest hold the same files with the same bytes. */
  lemma ExactTreesAgree(a: Node, b: Node, files: seq<FileSpec>, hash: Bytes -> string, q: Parts)
    requires forall x: Bytes, y: Bytes | hash(x) == hash(y) :: x == y
    requires IsExactly(a, files, hash) && IsExactly(b, files, hash)
    ensures RealFile(a, q) == RealFile(b, q)
  {
    hide At;
    if Names(files, q) {
      var i :| 0 <= i < |files| && RelativePath.Split(files[i].path) == q;
      assert hash(RealFile(a, q).value) == hash(RealFile(b, q).value);
    }
  }

  // ---------------------------------------------------------------------------------------
  // What is accepted and not exact

  /** A tree that holds one file, and beside it one other object. */
  function Beside(name: string, bytes: Bytes, other: string, n: Node): Node {
    Dir(map[name := File(bytes, true), other := n], true, true)
  }

  /** Such a tree is accepted for the file if the walk takes the other object for a directory with nothing in it. */
  lemma BesideIsAccepted(name: string, bytes: Bytes, other: string, n: Node, hash: Bytes -> string)
    requires RelativePath.Plain(name) && RelativePath.IsName(name) && name != other
    requires IsDirectory(n) && forall q: Parts :: !Walked(n, q)
    ensures var root, files := Beside(name, bytes, other, n), [FileSpec(name, |bytes|, hash(bytes))];
      Accepts(root, files, hash) && ListedAreDirect(root, files)
  {
    RelativePath.SplitComponent(name);
    var leaf, root, files := File(bytes, true), Beside(name, bytes, other, n), [FileSpec(name, |bytes|, hash(bytes))];
    assert [name][1..] == [];
    RootIsItself(leaf);
    assert At(root, [name]) == Some(leaf) && Passable(root, [name]);
    DirectLooksAgree(root, [name]);
    forall q: Parts | Walked(root, q) ensures q == [name] {
      WalkedInside(root, q);
    }
    assert Matches(root, files[0], hash);
    assert RelativePath.Join([name]) == name && files[0].path in PathsOf(files);
  }

  /** What lies in the other object is not listed. */
  lemma BesideIsNotExact(name: string, bytes: Bytes, other: string, n: Node, q: Parts, hash: Bytes -> string)
    requires RelativePath.Plain(name) && RelativePath.IsName(name) && name != other
    requires At(n, q).Some? && !At(n, q).value.Dir?
    ensures var root, files := Beside(name, bytes, other, n), [FileSpec(name, |bytes|, hash(bytes))];
      && At(root, [other] + q) == At(n, q) && !Names(files, [other] + q)
      && !IsExactly(root, files, hash)
  {
    RelativePath.SplitComponent(name);
    var root := Beside(name, bytes, other, n);
    assert ([other] + q)[1..] == q && At(root, [other] + q) == At(n, q);
    assert ([other] + q)[0] != [name][0];
  }

  /**
   A tree can be accepted although it holds none of the listed files: here the one listed name is a
   link whose text is as long as the file that it leads to.
   */
  lemma LinkedLeafIsAccepted(name: string, bytes: Bytes, hash: Bytes -> string)
    requires RelativePath.Plain(name) && RelativePath.IsName(name)
    ensures var root := Dir(map[name := Link(|bytes|, Some(File(bytes, true)))], true, true);
      var files := [FileSpec(name, |bytes|, hash(bytes))];
      Accepts(root, files, hash) && !IsExactly(root, files, hash) && forall q: Parts :: RealFile(root, q).None?
  {
    RelativePath.SplitComponent(name);
    var leaf := Link(|bytes|, Some(File(bytes, true)));
    var root := Dir(map[name := leaf], true, true);
    assert [name][1..] == [];
    assert Lookup(leaf, []) == Some(leaf) && Resolve(leaf, []) == Some(File(bytes, true));
    forall q: Parts ensures RealFile(root, q).None? {
      assert q != [] && q[0] == name ==> At(root, q) == At(leaf, q[1..]);
      assert q != [] ==> q[1..] == [] || At(leaf, q[1..]).None?;
    }
    forall q: Parts | Walked(root, q) ensures q == [name] {
      WalkedInside(root, q);
    }
    var files := [FileSpec(name, |bytes|, hash(bytes))];
    assert Matches(root, files[0], hash);
    assert RelativePath.Join([name]) == name;
    assert files[0].path in PathsOf(files);
  }

  /**
   The walk does not report a link to a directory either: a tree that holds the one listed file, and
   beside it a link to any directory, is accepted, and no listed path goes through a link.
   */
  lemma LinkedDirectoryIsAccepted(name: string, other: string, bytes: Bytes, text: nat, outside: Node,
                                  hash: Bytes -> string)
    requires RelativePath.Plain(name) && RelativePath.IsName(name) && name != other && outside.Dir?
    ensures var root := Beside(name, bytes, other, Link(text, Some(outside)));
      var files := [FileSpec(name, |bytes|, hash(bytes))];
      && Accepts(root, files, hash) && ListedAreDirect(root, files) && !IsExactly(root, files, hash)
      && At(root, [other]) == Some(Link(text, Some(outside))) && !Names(files, [other])
      && (Permitted(outside) ==> Permitted(root))
  {
    var link := Link(text, Some(outside));
    BesideIsAccepted(name, bytes, other, link, hash);
    BesideIsNotExact(name, bytes, other, link, [], hash);
    assert [other] + [] == [other];
    RootIsItself(link);
  }

  /**
   Nor does it say that it could not list a directory: a tree that holds the one listed file, and beside it a
   directory that may not be listed, with anything in it, is accepted.
   */
  lemma UnlistableDirectoryIsAccepted(name: string, other: string, bytes: Bytes, hidden: map<string, Node>,
                                      searchable: bool, q: Parts, hash: Bytes -> string)
    requires RelativePath.Plain(name) && RelativePath.IsName(name) && name != other
    requires At(Dir(hidden, false, searchable), q).Some? && !At(Dir(hidden, false, searchable), q).value.Dir?
    ensures var root := Beside(name, bytes, other, Dir(hidden, false, searchable));
      var files := [FileSpec(name, |bytes|, hash(bytes))];
      && Accepts(root, files, hash) && ListedAreDirect(root, files) && !IsExactly(root, files, hash)
      && At(root, [other] + q) == At(Dir(hidden, false, searchable), q) && !Names(files, [other] + q)
  {
    BesideIsAccepted(name, bytes, other, Dir(hidden, false, searchable), hash);
    BesideIsNotExact(name, bytes, other, Dir(hidden, false, searchable), q, hash);
  }

  /** And a directory that is listed but may not be entered is taken to hold what its directories hide. */
  lemma UnsearchableDirectoryIsAccepted(name: string, other: string, bytes: Bytes, hidden: map<string, Node>,
                                        q: Parts, hash: Bytes -> string)
    requires RelativePath.Plain(name) && RelativePath.IsName(name) && name != other
    requires forall x | x in hidden :: hidden[x].Dir?
    requires At(Dir(hidden, true, false), q).Some? && !At(Dir(hidden, true, false), q).value.Dir?
    ensures var root := Beside(name, bytes, other, Dir(hidden, true, false));
      var files := [FileSpec(name, |bytes|, hash(bytes))];
      && Accepts(root, files, hash) && ListedAreDirect(root, files) && !IsExactly(root, files, hash)
      && At(root, [other] + q) == At(Dir(hidden, true, false), q) && !Names(files, [other] + q)
  {
    BesideIsAccepted(name, bytes, other, Dir(hidden, true, false), hash);
    BesideIsNotExact(name, bytes, other, Dir(hidden, true, false), q, hash);
  }

  /** A file in a directory in a directory. */
  function Hiding(listable: bool, searchable: bool): Node {
    Dir(map["d" := Dir(map["f" := File([], true)], true, true)], listable, searchable)
  }

  lemma HidingHolds(listable: bool, searchable: bool)
    ensures At(Hiding(listable, searchable), ["d", "f"]) == Some(File([], true))
    ensures LinkFree(Hiding(listable, searchable)) && WellNamed(Hiding(listable, searchable))
    ensures listable ==> Listable(Hiding(listable, searchable))
    ensures searchable ==> Searchable(Hiding(listable, searchable))
  {
    var leaf, inner := File([], true), Dir(map["f" := File([], true)], true, true);
    assert ["d", "f"][1..] == ["f"] && ["f"][1..] == [];
    RootIsItself(leaf);
    assert At(inner, ["f"]) == Some(leaf);
    assert RelativePath.IsName("d") && RelativePath.IsName("f");
    assert WellNamed(inner) && LinkFree(inner) && Listable(inner) && Searchable(inner);
  }

  lemma BesideKeeps(name: string, bytes: Bytes, other: string, n: Node)
    requires RelativePath.IsName(name) && RelativePath.IsName(other)
    ensures var root := Beside(name, bytes, other, n);
      && (LinkFree(n) ==> LinkFree(root)) && (WellNamed(n) ==> WellNamed(root))
      && (Listable(n) ==> Listable(root)) && (Searchable(n) ==> Searchable(root)) && (Readable(n) ==> Readable(root))
  {
  }

  /**
   Over all trees without links, with directories that may not be listed or may not be searched allowed or
   not: acceptance means the manifest's files and no others exactly if neither is allowed.
   */
  lemma AcceptanceIsExactExactlyWhereOpen(unlistable: bool, unsearchable: bool, hash: Bytes -> string)
    ensures (forall root: Node, files: seq<FileSpec> |
               && WellNamed(root) && PlainPaths(files) && LinkFree(root) && Accepts(root, files, hash)
               && (unlistable || Listable(root)) && (unsearchable || Searchable(root)) ::
               IsExactly(root, files, hash))
       <==> !unlistable && !unsearchable
  {
    hide WellNamed, LinkFree, Listable, Searchable, At, IsExactly, Accepts, NoLinkedDirectory;
    if unlistable || unsearchable {
      var root, files := Beside("a", [], "b", Hiding(!unlistable, unlistable)), [FileSpec("a", 0, hash([]))];
      RelativePath.SplitComponent("a");
      HidingHolds(!unlistable, unlistable);
      BesideKeeps("a", [], "b", Hiding(!unlistable, unlistable));
      if unlistable {
        UnlistableDirectoryIsAccepted("a", "b", [], Hiding(false, true).entries, true, ["d", "f"], hash);
      } else {
        UnsearchableDirectoryIsAccepted("a", "b", [], Hiding(true, false).entries, ["d", "f"], hash);
      }
      assert Accepts(root, files, hash) && !IsExactly(root, files, hash);
    } else {
      forall root: Node, files: seq<FileSpec> |
          && WellNamed(root) && PlainPaths(files) && LinkFree(root) && Accepts(root, files, hash)
          && Listable(root) && Searchable(root)
        ensures IsExactly(root, files, hash)
      {
        AcceptedIsADirectory(root, files, hash);
        LinkFreeHasNoLinks(root, files, hash);
        NothingHidesWhereOpen(root, files);
        AcceptedExactly(root, files, hash);
      }
    }
  }

  lemma AcceptedIsADirectory(root: Node, files: seq<FileSpec>, hash: Bytes -> string)
    requires Accepts(root, files, hash)
    ensures root.Dir?
  {
  }
}
