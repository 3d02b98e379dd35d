/**
 `_populate_supplied_asset` and `_write_notices`: a private stage is filled from files the user already
 holds and from the notice texts, and then verified as a whole.
 */
module SuppliedInstall {
  import opened Common
  import opened AssetSpec
  import opened AssetDirectory
  import opened SuppliedFile
  import Json
  import RelativePath

  // ---------------------------------------------------------------------------------------
  // Writing into the stage

  /** A directory of mode 0700. */
  function NewDirectory(): Node {
    Dir(map[], true, true)
  }

  /** `makedirs` of the parent, then a new file that must not exist yet; None where either fails. */
  function Put(n: Node, parts: Parts, bytes: Bytes): Option<Node>
    requires parts != []
    decreases |parts|
  {
    var name := parts[0];
    :- Require(n.Dir?);
    if |parts| == 1 then
      :- Require(name !in n.entries);
      Some(n.(entries := n.entries[name := File(bytes, true)]))
    else
      var child :- Put(if name in n.entries then n.entries[name] else NewDirectory(), parts[1..], bytes);
      Some(n.(entries := n.entries[name := child]))
  }

  lemma {:induction false} PutAt(n: Node, parts: Parts, bytes: Bytes, q: Parts)
    requires parts != [] && Put(n, parts, bytes).Some?
    ensures var m := Put(n, parts, bytes).value;
      && (q == parts ==> At(m, q) == Some(File(bytes, true)))
      && (q < parts ==> At(m, q).Some? && At(m, q).value.Dir?)
      && (parts < q ==> At(m, q).None?)
      && (q != parts && !(q < parts) && !(parts < q) ==> At(m, q) == At(n, q))
    decreases |parts|
  {
    var m := Put(n, parts, bytes).value;
    var name := parts[0];
    if q != [] && q[0] == name {
      var child := if name in n.entries then n.entries[name] else NewDirectory();
      assert parts == [name] + parts[1..] && q == [name] + q[1..];
      assert At(m, q) == At(m.entries[name], q[1..]);
      if |parts| > 1 {
        PutAt(child, parts[1..], bytes, q[1..]);
        assert name !in n.entries && |q| > 1 ==> At(child, q[1..]).None?;
      } else if |q| == 1 {
        assert q[1..] == [];
      }
    }
  }

  /** Nothing but directories above a path, and nothing at it. */
  ghost predicate HasRoom(n: Node, parts: Parts) {
    At(n, parts).None? && forall q: Parts | q < parts && At(n, q).Some? :: At(n, q).value.Dir?
  }

  lemma RoomInside(n: Node, name: string, rest: Parts)
    requires n.Dir? && name in n.entries
    ensures HasRoom(n, [name] + rest) <==> HasRoom(n.entries[name], rest)
  {
    var child, parts := n.entries[name], [name] + rest;
    assert parts[1..] == rest;
    if HasRoom(child, rest) {
      forall q: Parts | q < parts && At(n, q).Some? ensures At(n, q).value.Dir? {
        if q != [] { assert q[1..] < rest && At(n, q) == At(child, q[1..]); }
      }
    }
    if HasRoom(n, parts) {
      forall q: Parts | q < rest && At(child, q).Some? ensures At(child, q).value.Dir? {
        assert ([name] + q)[1..] == q && [name] + q < parts && At(n, [name] + q) == At(child, q);
      }
    }
  }

  /** Writing succeeds exactly where nothing is yet, below nothing but directories. */
  lemma {:induction false} PutSucceeds(n: Node, parts: Parts, bytes: Bytes)
    requires parts != []
    ensures Put(n, parts, bytes).Some? <==> HasRoom(n, parts)
    decreases |parts|
  {
    var name, rest := parts[0], parts[1..];
    assert parts == [name] + rest;
    assert [] < parts && At(n, []) == Some(n);
    if n.Dir? {
      if name in n.entries {
        RoomInside(n, name, rest);
        if rest == [] {
          assert At(n.entries[name], []) == Some(n.entries[name]);
        } else {
          PutSucceeds(n.entries[name], rest, bytes);
        }
      } else {
        if rest != [] {
          EmptyHasRoom(rest);
          PutSucceeds(NewDirectory(), rest, bytes);
        }
        forall q: Parts | q < parts && At(n, q).Some? ensures At(n, q).value.Dir? {
          assert q == [];
        }
      }
    }
  }

  lemma EmptyHasRoom(parts: Parts)
    requires parts != []
    ensures HasRoom(NewDirectory(), parts)
  {
  }

  lemma {:induction false} PutKeepsShape(n: Node, parts: Parts, bytes: Bytes)
    requires parts != [] && Put(n, parts, bytes).Some? && RelativePath.AllNames(parts)
    ensures LinkFree(n) ==> LinkFree(Put(n, parts, bytes).value)
    ensures WellNamed(n) ==> WellNamed(Put(n, parts, bytes).value)
    ensures Permitted(n) ==> Permitted(Put(n, parts, bytes).value)
    decreases |parts|
  {
    if |parts| > 1 {
      PutKeepsShape(if parts[0] in n.entries then n.entries[parts[0]] else NewDirectory(), parts[1..], bytes);
    }
  }

  /** A stage: one's own directories and files, the files at `done`, and no directory but for their sake. */
  ghost predicate Staged(n: Node, done: set<Parts>) {
    && n.Dir? && LinkFree(n) && WellNamed(n) && Permitted(n)
    && (forall q: Parts :: RealFile(n, q).Some? <==> q in done)
    && (forall q: Parts | At(n, q).Some? && !At(n, q).value.File? ::
          At(n, q).value.Dir? && (q == [] || exists d :: d in done && q < d))
  }

  lemma StagedOneMore(n: Node, done: set<Parts>, parts: Parts, bytes: Bytes)
    requires Staged(n, done) && parts != [] && RelativePath.AllNames(parts) && Put(n, parts, bytes).Some?
    ensures Staged(Put(n, parts, bytes).value, done + {parts})
    ensures RealFile(Put(n, parts, bytes).value, parts) == Some(bytes)
    ensures forall q | q in done :: RealFile(Put(n, parts, bytes).value, q) == RealFile(n, q)
  {
    var m := Put(n, parts, bytes).value;
    PutKeepsShape(n, parts, bytes);
    PutSucceeds(n, parts, bytes);
    PutAt(n, parts, bytes, parts);
    hide Put, LinkFree, WellNamed, Permitted;
    forall q: Parts ensures RealFile(m, q).Some? <==> q in done + {parts}
                    ensures q in done ==> RealFile(m, q) == RealFile(n, q)
    {
      PutAt(n, parts, bytes, q);
      assert RealFile(n, q).Some? <==> q in done;
      if parts < q { NothingBelow(n, parts, q); }
    }
    forall q: Parts | At(m, q).Some? && !At(m, q).value.File?
      ensures At(m, q).value.Dir? && (q == [] || exists d :: d in done + {parts} && q < d)
    {
      PutAt(n, parts, bytes, q);
      if q < parts {
        assert parts in done + {parts};
      } else if q != [] {
        var d :| d in done && q < d;
        assert d in done + {parts};
      }
    }
  }

  lemma {:induction false} NothingBelow(n: Node, parts: Parts, q: Parts)
    requires parts <= q && At(n, parts).None?
    ensures At(n, q).None?
    decreases |parts|
  {
    if parts != [] && n.Dir? && parts[0] in n.entries {
      NothingBelow(n.entries[parts[0]], parts[1..], q[1..]);
    }
  }

  /** No path of the set is above another one. */
  ghost predicate PrefixFree(all: set<Parts>) {
    forall a, b | a in all && b in all && a != b :: !(a <= b)
  }

  lemma RoomForOneMore(n: Node, done: set<Parts>, all: set<Parts>, parts: Parts, bytes: Bytes)
    requires Staged(n, done) && parts != [] && parts !in done
    requires done <= all && parts in all && PrefixFree(all)
    ensures Put(n, parts, bytes).Some?
  {
    PutSucceeds(n, parts, bytes);
    forall q: Parts | q < parts && At(n, q).Some? ensures At(n, q).value.Dir? {
      assert RealFile(n, q).None?;
    }
    assert RealFile(n, parts).None?;
  }

  // ---------------------------------------------------------------------------------------
  // Which files are supplied

  function ContentFiles(files: seq<FileSpec>): seq<FileSpec> {
    if files == [] then []
    else (if IsNotice(files[0].path) then [] else [files[0]]) + ContentFiles(files[1..])
  }

  /** Notices whose text the authority does not hold. */
  function ExtraNotices(files: seq<FileSpec>, notices: map<string, Bytes>): seq<FileSpec> {
    if files == [] then []
    else
      (if IsNotice(files[0].path) && files[0].sha256 !in notices then [files[0]] else [])
        + ExtraNotices(files[1..], notices)
  }

  predicate IsSupplied(item: FileSpec, notices: map<string, Bytes>) {
    !IsNotice(item.path) || item.sha256 !in notices
  }

  function Wanted(files: seq<FileSpec>, notices: map<string, Bytes>): seq<FileSpec> {
    ContentFiles(files) + ExtraNotices(files, notices)
  }

  predicate DistinctPaths(files: seq<FileSpec>) {
    forall i, j | 0 <= i < j < |files| :: files[i].path != files[j].path
  }

  lemma {:induction false} WantedHas(files: seq<FileSpec>, notices: map<string, Bytes>, item: FileSpec)
    ensures item in ContentFiles(files) <==> item in files && !IsNotice(item.path)
    ensures item in ExtraNotices(files, notices) <==> item in files && IsNotice(item.path) && item.sha256 !in notices
  {
    if files != [] {
      WantedHas(files[1..], notices, item);
      assert files == [files[0]] + files[1..];
    }
  }

  lemma {:induction false} WantedIsDistinct(files: seq<FileSpec>, notices: map<string, Bytes>)
    requires DistinctPaths(files)
    ensures DistinctPaths(ContentFiles(files)) && DistinctPaths(ExtraNotices(files, notices))
  {
    if files != [] {
      WantedIsDistinct(files[1..], notices);
      forall item: FileSpec | item in ContentFiles(files[1..]) || item in ExtraNotices(files[1..], notices)
        ensures item.path != files[0].path
      {
        WantedHas(files[1..], notices, item);
        var k :| 0 <= k < |files[1..]| && files[1..][k] == item;
        assert files[k + 1] == item;
      }
    }
  }

  function PartsOf(files: seq<FileSpec>): set<Parts> {
    set i | 0 <= i < |files| :: RelativePath.Split(files[i].path)
  }

  /** A file of the manifest: its size and its digest. */
  predicate IsPinned(b: Option<Bytes>, item: FileSpec, hash: Bytes -> string) {
    b.Some? && |b.value| == item.bytes && hash(b.value) == item.sha256
  }

  /** The supplied directory, at rest, has the right bytes at each supplied path, and the authority the others. */
  ghost predicate IsRight(w: World, base: Ino, files: seq<FileSpec>, notices: map<string, Bytes>, hash: Bytes -> string)
  {
    && Quiet(w) && w.at(0, base).Directory?
    && forall i | 0 <= i < |files| ::
         if IsSupplied(files[i], notices) then IsPinned(Still(w, base, files[i].path), files[i], hash)
         else IsPinned(Some(notices[files[i].sha256]), files[i], hash)
  }

  // ---------------------------------------------------------------------------------------
  // Filling the stage

  ghost predicate AllPinned(n: Node, files: seq<FileSpec>, hash: Bytes -> string) {
    forall i | 0 <= i < |files| :: IsPinned(RealFile(n, RelativePath.Split(files[i].path)), files[i], hash)
  }

  /** Listed files have one path each, as their parser made sure. */
  lemma SamePartsSamePath(a: string, b: string)
    requires RelativePath.Split(a) == RelativePath.Split(b)
    ensures a == b
  {
    RelativePath.JoinSplit(a);
    RelativePath.JoinSplit(b);
  }

  lemma NewPath(files: seq<FileSpec>, i: nat)
    requires i < |files| && DistinctPaths(files)
    ensures RelativePath.Split(files[i].path) !in PartsOf(files[..i])
  {
    if RelativePath.Split(files[i].path) in PartsOf(files[..i]) {
      var k :| 0 <= k < i && RelativePath.Split(files[..i][k].path) == RelativePath.Split(files[i].path);
      SamePartsSamePath(files[k].path, files[i].path);
    }
  }

  lemma PartsOneMore(files: seq<FileSpec>, i: nat)
    requires i < |files|
    ensures PartsOf(files[..i + 1]) == PartsOf(files[..i]) + {RelativePath.Split(files[i].path)}
    ensures PartsOf(files[..i]) <= PartsOf(files) && RelativePath.Split(files[i].path) in PartsOf(files)
  {
  }

  lemma PutPinned(n: Node, done: set<Parts>, files: seq<FileSpec>, item: FileSpec, bytes: Bytes, hash: Bytes -> string)
    requires RelativePath.Plain(item.path) && Staged(n, done) && PartsOf(files) <= done
    requires AllPinned(n, files, hash) && Put(n, RelativePath.Split(item.path), bytes).Some?
    ensures AllPinned(Put(n, RelativePath.Split(item.path), bytes).value, files, hash)
  {
    hide Staged, Put, RealFile, IsPinned;
    StagedOneMore(n, done, RelativePath.Split(item.path), bytes);
    forall k | 0 <= k < |files| ensures RelativePath.Split(files[k].path) in done {
      assert RelativePath.Split(files[k].path) in PartsOf(files);
    }
  }

  lemma PinnedOneMore(n: Node, files: seq<FileSpec>, i: nat, hash: Bytes -> string)
    requires i < |files| && AllPinned(n, files[..i], hash)
    requires IsPinned(RealFile(n, RelativePath.Split(files[i].path)), files[i], hash)
    ensures AllPinned(n, files[..i + 1], hash)
  {
  }

  /** Everything is in place for the supplied files. */
  ghost predicate CanSupply(w: World, base: Ino, wanted: seq<FileSpec>, hash: Bytes -> string) {
    && Quiet(w) && DistinctPaths(wanted) && PrefixFree(PartsOf(wanted))
    && forall i | 0 <= i < |wanted| :: IsPinned(Still(w, base, wanted[i].path), wanted[i], hash)
  }

  /** The loop over supplied files. */
  method StageSupplied(p: Process, w: World, hash: Bytes -> string, base: Ino, wanted: seq<FileSpec>)
    returns (stage: Option<Node>)
    requires p.Valid() && Bounded(w) && PlainPaths(wanted)
    modifies p
    ensures p.Valid() && p.open == old(p.open)
    ensures stage.Some? ==> Staged(stage.value, PartsOf(wanted))
    ensures CanSupply(w, base, wanted, hash) ==> stage.Some? && AllPinned(stage.value, wanted, hash)
  {
    var n := NewDirectory();
    EmptyStage();
    for i := 0 to |wanted|
      invariant p.Valid() && p.open == old(p.open)
      invariant Staged(n, PartsOf(wanted[..i]))
      invariant CanSupply(w, base, wanted, hash) ==> AllPinned(n, wanted[..i], hash)
    {
      hide Staged, Take, Put, PrefixFree, AllPinned, Still, CanSupply, PartsOf;
      var item := wanted[i];
      var parts := RelativePath.Split(item.path);
      ghost var t := p.now;
      var copied := Supply(p, w, hash, base, item);
      if CanSupply(w, base, wanted, hash) { SuppliedOnce(w, t, base, wanted, i, hash, n); }
      if copied.None? { return None; }
      var next := Put(n, parts, copied.value);
      if next.None? { return None; }
      PartsOneMore(wanted, i);
      StagedOneMore(n, PartsOf(wanted[..i]), parts, copied.value);
      if CanSupply(w, base, wanted, hash) {
        PutPinned(n, PartsOf(wanted[..i]), wanted[..i], item, copied.value, hash);
        PinnedOneMore(next.value, wanted, i, hash);
      }
      n := next.value;
    }
    assert wanted[..|wanted|] == wanted;
    return Some(n);
  }

  /** Where everything is in place, one more file is taken as it is, and there is room for it. */
  lemma SuppliedOnce(w: World, t: nat, base: Ino, wanted: seq<FileSpec>, i: nat, hash: Bytes -> string, n: Node)
    requires i < |wanted| && PlainPaths(wanted) && Bounded(w)
    requires CanSupply(w, base, wanted, hash) && Staged(n, PartsOf(wanted[..i]))
    ensures var taken := Take(w, t, base, wanted[i], hash);
      && taken.Some? && IsPinned(Some(taken.value.0), wanted[i], hash)
      && Put(n, RelativePath.Split(wanted[i].path), taken.value.0).Some?
  {
    hide Staged, Put, Still, Take, PartsOf;
    QuietTake(w, t, base, wanted[i], hash);
    NewPath(wanted, i);
    PartsOneMore(wanted, i);
    RoomForOneMore(n, PartsOf(wanted[..i]), PartsOf(wanted), RelativePath.Split(wanted[i].path),
                   Take(w, t, base, wanted[i], hash).value.0);
  }

  lemma EmptyStage()
    ensures Staged(NewDirectory(), {})
  {
  }

  // ---------------------------------------------------------------------------------------
  // Notices

  /** Everything is in place for the notices, after the files of `staged`. */
  ghost predicate CanWriteNotices(files: seq<FileSpec>, notices: map<string, Bytes>, hash: Bytes -> string,
                                  staged: seq<FileSpec>)
  {
    && DistinctPaths(files) && PrefixFree(PartsOf(files))
    && (forall x | x in staged :: x in files)
    && forall i | 0 <= i < |files| ::
         if IsSupplied(files[i], notices) then files[i] in staged
         else files[i] !in staged && IsPinned(Some(notices[files[i].sha256]), files[i], hash)
  }

  /** One notice: what is there already must match, and nothing is overwritten. */
  function WriteNotice(n: Node, item: FileSpec, notices: map<string, Bytes>, hash: Bytes -> string): Option<Node> {
    var parts := RelativePath.Split(item.path);
    if !IsNotice(item.path) then Some(n)
    else if Lookup(n, parts).Some? then if IsPinned(RealFile(n, parts), item, hash) then Some(n) else None
    else
      :- Require(item.sha256 in notices && |notices[item.sha256]| == item.bytes);
      Put(n, parts, notices[item.sha256])
  }

  lemma OnlyNoticesTrouble(n: Node, item: FileSpec, notices: map<string, Bytes>, hash: Bytes -> string)
    requires WriteNotice(n, item, notices, hash).None?
    ensures IsNotice(item.path)
  {
  }

  /** `_write_notices`. */
  method WriteNotices(n: Node, files: seq<FileSpec>, notices: map<string, Bytes>, hash: Bytes -> string,
                      ghost staged: seq<FileSpec>)
    returns (stage: Option<Node>)
    requires PlainPaths(files) && Staged(n, PartsOf(staged))
    requires forall i | 0 <= i < |files| && !IsNotice(files[i].path) :: files[i] in staged
    ensures stage.Some? ==> Staged(stage.value, PartsOf(staged) + PartsOf(files))
    ensures CanWriteNotices(files, notices, hash, staged) && AllPinned(n, staged, hash) ==>
              stage.Some? && AllPinned(stage.value, files, hash)
    ensures stage.None? ==> exists i | 0 <= i < |files| :: IsNotice(files[i].path)
  {
    ghost var ready := CanWriteNotices(files, notices, hash, staged) && AllPinned(n, staged, hash);
    var m := n;
    assert PartsOf(staged) + PartsOf(files[..0]) == PartsOf(staged) && AllPinned(m, files[..0], hash);
    hide Staged, AllPinned, PartsOf, CanWriteNotices, WriteNotice;
    for i := 0 to |files|
      invariant Staged(m, PartsOf(staged) + PartsOf(files[..i]))
      invariant ready ==> AllPinned(m, staged, hash) && AllPinned(m, files[..i], hash)
    {
      var next := WriteNotice(m, files[i], notices, hash);
      if ready { NoticeSucceeds(m, files, notices, hash, staged, i); }
      if next.None? {
        OnlyNoticesTrouble(m, files[i], notices, hash);
        return None;
      }
      NoticeStaged(m, files, notices, hash, staged, i);
      m := next.value;
    }
    assert files[..|files|] == files;
    return Some(m);
  }

  lemma NoticeStaged(m: Node, files: seq<FileSpec>, notices: map<string, Bytes>, hash: Bytes -> string,
                     staged: seq<FileSpec>, i: nat)
    requires i < |files| && PlainPaths(files) && Staged(m, PartsOf(staged) + PartsOf(files[..i]))
    requires !IsNotice(files[i].path) ==> files[i] in staged
    requires WriteNotice(m, files[i], notices, hash).Some?
    ensures Staged(WriteNotice(m, files[i], notices, hash).value, PartsOf(staged) + PartsOf(files[..i + 1]))
  {
    hide Staged, Put, PartsOf, Lookup, IsNotice;
    var item, parts := files[i], RelativePath.Split(files[i].path);
    var done := PartsOf(staged) + PartsOf(files[..i]);
    PartsOneMore(files, i);
    assert PartsOf(staged) + PartsOf(files[..i + 1]) == done + {parts};
    StagedLooks(m, done, parts);
    if !IsNotice(item.path) {
      StagedHas(staged, item);
      assert done + {parts} == done;
    } else if Lookup(m, parts).Some? {
      assert done + {parts} == done;
    } else {
      StagedOneMore(m, done, parts, notices[item.sha256]);
    }
  }

  lemma NoticeSucceeds(m: Node, files: seq<FileSpec>, notices: map<string, Bytes>, hash: Bytes -> string,
                       staged: seq<FileSpec>, i: nat)
    requires i < |files| && PlainPaths(files) && Staged(m, PartsOf(staged) + PartsOf(files[..i]))
    requires CanWriteNotices(files, notices, hash, staged)
    requires AllPinned(m, staged, hash) && AllPinned(m, files[..i], hash)
    ensures var next := WriteNotice(m, files[i], notices, hash);
      next.Some? && AllPinned(next.value, staged, hash) && AllPinned(next.value, files[..i + 1], hash)
  {
    hide Staged, Put, PartsOf, Lookup, IsNotice, AllPinned, CanWriteNotices, At;
    var item, parts := files[i], RelativePath.Split(files[i].path);
    var done := PartsOf(staged) + PartsOf(files[..i]);
    NoticeIsReady(m, files, notices, hash, staged, i);
    if IsSupplied(item, notices) {
      PinnedOneMore(m, files, i, hash);
    } else {
      var payload := notices[item.sha256];
      PutPinned(m, done, staged, item, payload, hash);
      PutPinned(m, done, files[..i], item, payload, hash);
      StagedOneMore(m, done, parts, payload);
      PinnedOneMore(Put(m, parts, payload).value, files, i, hash);
    }
  }

  lemma StagedHas(staged: seq<FileSpec>, item: FileSpec)
    requires item in staged
    ensures RelativePath.Split(item.path) in PartsOf(staged)
  {
  }

  /** In a stage there is something at a path exactly when `lstat` finds it; a file is one of `done`. */
  lemma StagedLooks(n: Node, done: set<Parts>, parts: Parts)
    requires Staged(n, done)
    ensures Lookup(n, parts) == At(n, parts)
    ensures RealFile(n, parts).Some? <==> parts in done
  {
    LinkFreeIsDirect(n, parts);
    if At(n, parts).Some? { OpenShows(n, parts); }
  }

  /** Where everything is in place, a notice that is there is the right one, and there is room for any other. */
  lemma NoticeIsReady(m: Node, files: seq<FileSpec>, notices: map<string, Bytes>, hash: Bytes -> string,
                      staged: seq<FileSpec>, i: nat)
    requires i < |files| && PlainPaths(files) && Staged(m, PartsOf(staged) + PartsOf(files[..i]))
    requires CanWriteNotices(files, notices, hash, staged) && AllPinned(m, staged, hash)
    ensures var parts := RelativePath.Split(files[i].path);
      if IsSupplied(files[i], notices) then Lookup(m, parts).Some? && IsPinned(RealFile(m, parts), files[i], hash)
      else
        && Lookup(m, parts).None? && IsPinned(Some(notices[files[i].sha256]), files[i], hash)
        && Put(m, parts, notices[files[i].sha256]).Some?
  {
    hide Put, IsPinned, IsNotice;
    var item, parts := files[i], RelativePath.Split(files[i].path);
    var done := PartsOf(staged) + PartsOf(files[..i]);
    StagedLooks(m, done, parts);
    if IsSupplied(item, notices) {
      var k :| 0 <= k < |staged| && staged[k] == item;
      assert IsPinned(RealFile(m, parts), item, hash);
      PinnedIsThere(m, parts, item, hash);
    } else {
      NewPath(files, i);
      forall k | 0 <= k < |staged| ensures RelativePath.Split(staged[k].path) != parts {
        assert staged[k] in staged;
        OtherPath(files, i, staged[k]);
      }
      NoticeHasRoom(m, files, staged, i, notices[item.sha256]);
    }
  }

  lemma OtherPath(files: seq<FileSpec>, i: nat, x: FileSpec)
    requires i < |files| && DistinctPaths(files) && x in files && x != files[i]
    ensures RelativePath.Split(x.path) != RelativePath.Split(files[i].path)
  {
    if RelativePath.Split(x.path) == RelativePath.Split(files[i].path) {
      SamePartsSamePath(x.path, files[i].path);
    }
  }

  lemma PinnedIsThere(n: Node, parts: Parts, item: FileSpec, hash: Bytes -> string)
    requires IsPinned(RealFile(n, parts), item, hash)
    ensures At(n, parts).Some?
  {
  }

  lemma NoticeHasRoom(m: Node, files: seq<FileSpec>, staged: seq<FileSpec>, i: nat, payload: Bytes)
    requires i < |files| && Staged(m, PartsOf(staged) + PartsOf(files[..i]))
    requires PrefixFree(PartsOf(files)) && forall x | x in staged :: x in files
    requires RelativePath.Split(files[i].path) !in PartsOf(staged) + PartsOf(files[..i])
    ensures At(m, RelativePath.Split(files[i].path)).None?
    ensures Put(m, RelativePath.Split(files[i].path), payload).Some?
  {
    hide Staged, Put, PrefixFree;
    var parts := RelativePath.Split(files[i].path);
    PartsOneMore(files, i);
    forall q | q in PartsOf(staged) ensures q in PartsOf(files) {
      var k :| 0 <= k < |staged| && RelativePath.Split(staged[k].path) == q;
      assert staged[k] in staged;
      var j :| 0 <= j < |files| && files[j] == staged[k];
    }
    RoomForOneMore(m, PartsOf(staged) + PartsOf(files[..i]), PartsOf(files), parts, payload);
    PutSucceeds(m, parts, payload);
  }

  // ---------------------------------------------------------------------------------------
  // The whole install

  /** `_populate_supplied_asset`: a stage with exactly the manifest's paths, or None for a refusal. */
  method Populate(p: Process, w: World, hash: Bytes -> string, base: Ino, files: seq<FileSpec>,
                  notices: map<string, Bytes>)
    returns (stage: Option<Node>)
    requires p.Valid() && Bounded(w) && PlainPaths(files)
    modifies p
    ensures p.Valid() && p.open == old(p.open)
    ensures stage.Some? ==> Staged(stage.value, PartsOf(files)) && ContentFiles(files) != []
    ensures stage.Some? ==> !w.fails(old(p.now)) && w.at(old(p.now), base).Directory?
    ensures
      && IsRight(w, base, files, notices, hash)
      && DistinctPaths(files) && PrefixFree(PartsOf(files)) && ContentFiles(files) != []
      ==> stage.Some? && AllPinned(stage.value, files, hash)
  {
    ghost var right := IsRight(w, base, files, notices, hash) && DistinctPaths(files) && PrefixFree(PartsOf(files))
      && ContentFiles(files) != [];
    var t := p.now;
    p.now := p.now + 1;
    assert right ==> w.at(t, base) == w.at(0, base);
    if w.fails(t) || !w.at(t, base).Directory? { return None; }
    if ContentFiles(files) == [] { return None; }
    var wanted := Wanted(files, notices);
    WantedIsListed(files, notices);
    if right { WantedIsReady(w, base, files, notices, hash); }
    hide Staged, AllPinned, CanSupply, CanWriteNotices, IsRight, PartsOf;
    stage := StageSupplied(p, w, hash, base, wanted);
    if stage.None? { return None; }
    stage := WriteNotices(stage.value, files, notices, hash, wanted);
    WantedParts(files, wanted);
  }

  lemma WantedIsListed(files: seq<FileSpec>, notices: map<string, Bytes>)
    requires PlainPaths(files)
    ensures PlainPaths(Wanted(files, notices))
    ensures forall x: FileSpec :: x in Wanted(files, notices) <==> x in files && IsSupplied(x, notices)
  {
    var wanted := Wanted(files, notices);
    forall x: FileSpec ensures x in wanted <==> x in files && IsSupplied(x, notices) {
      WantedHas(files, notices, x);
    }
    forall i | 0 <= i < |wanted| ensures RelativePath.Plain(wanted[i].path) {
      assert wanted[i] in wanted;
    }
  }

  lemma WantedParts(files: seq<FileSpec>, wanted: seq<FileSpec>)
    requires forall x | x in wanted :: x in files
    ensures PartsOf(wanted) + PartsOf(files) == PartsOf(files)
  {
    forall q | q in PartsOf(wanted) ensures q in PartsOf(files) {
      var k :| 0 <= k < |wanted| && RelativePath.Split(wanted[k].path) == q;
      assert wanted[k] in wanted;
      var j :| 0 <= j < |files| && files[j] == wanted[k];
    }
  }

  lemma WantedHasDistinctPaths(files: seq<FileSpec>, notices: map<string, Bytes>)
    requires DistinctPaths(files)
    ensures DistinctPaths(Wanted(files, notices))
  {
    hide ContentFiles, ExtraNotices, IsNotice;
    var content, extra, wanted := ContentFiles(files), ExtraNotices(files, notices), Wanted(files, notices);
    WantedIsDistinct(files, notices);
    forall i, j | 0 <= i < |content| && 0 <= j < |extra| ensures content[i].path != extra[j].path {
      WantedHas(files, notices, content[i]);
      WantedHas(files, notices, extra[j]);
    }
    forall i, j | 0 <= i < j < |wanted| ensures wanted[i].path != wanted[j].path {
      assert wanted[i] == if i < |content| then content[i] else extra[i - |content|];
      assert wanted[j] == if j < |content| then content[j] else extra[j - |content|];
    }
  }

  lemma WantedIsReady(w: World, base: Ino, files: seq<FileSpec>, notices: map<string, Bytes>, hash: Bytes -> string)
    requires PlainPaths(files) && DistinctPaths(files) && PrefixFree(PartsOf(files))
    requires IsRight(w, base, files, notices, hash)
    ensures CanSupply(w, base, Wanted(files, notices), hash)
    ensures CanWriteNotices(files, notices, hash, Wanted(files, notices))
  {
    hide IsPinned, Still, Quiet, Wanted, DistinctPaths, PlainPaths, PartsOf, IsSupplied;
    var wanted := Wanted(files, notices);
    WantedIsListed(files, notices);
    WantedHasDistinctPaths(files, notices);
    WantedParts(files, wanted);
    forall i | 0 <= i < |wanted| ensures IsPinned(Still(w, base, wanted[i].path), wanted[i], hash) {
      assert wanted[i] in wanted;
      var k :| 0 <= k < |files| && files[k] == wanted[i];
    }
    forall i | 0 <= i < |files| ensures files[i] in files {
    }
  }

  /**
   A supplied install up to its selection. Whatever is changed in the supplied directory meanwhile, the
   tree that is selected is the manifest's files with their bytes and nothing else; and where nothing is
   changed, a directory with the right bytes is accepted, whatever else it holds, exactly if the manifest
   lists no file below another one and something besides notices.
   */
  method Install(p: Process, w: World, hash: Bytes -> string, base: Ino, files: seq<FileSpec>,
                 notices: map<string, Bytes>)
    returns (tree: Option<Node>)
    requires p.Valid() && Bounded(w) && PlainPaths(files)
    modifies p
    ensures p.Valid() && p.open == old(p.open)
    ensures tree.Some? ==> IsExactly(tree.value, files, hash) && LinkFree(tree.value)
    ensures IsRight(w, base, files, notices, hash) && DistinctPaths(files) ==>
              (tree.Some? <==> PrefixFree(PartsOf(files)) && ContentFiles(files) != [])
  {
    tree := Populate(p, w, hash, base, files, notices);
    if tree.None? { return None; }
    StagedIsExactWhenPinned(tree.value, files, hash);
    NoFileBelowAFile(tree.value, files);
    var ok := VerifyDirectory(tree.value, files, hash);
    if !ok { return None; }
  }

  /** A stage of exactly the listed paths is accepted exactly when each file is the listed one. */
  lemma StagedIsExactWhenPinned(n: Node, files: seq<FileSpec>, hash: Bytes -> string)
    requires Staged(n, PartsOf(files)) && PlainPaths(files)
    ensures LinkFree(n)
    ensures Accepts(n, files, hash) <==> IsExactly(n, files, hash)
    ensures Accepts(n, files, hash) <==> AllPinned(n, files, hash)
  {
    LinkFreeAcceptedIsExact(n, files, hash);
    hide Accepts, LinkFree, WellNamed;
    forall q: Parts | At(n, q).Some? && !At(n, q).value.Dir? ensures Names(files, q) {
      assert RealFile(n, q).Some?;
      var k :| 0 <= k < |files| && RelativePath.Split(files[k].path) == q;
    }
  }

  /** No stage holds a file below another file, so a manifest that lists one is never installed. */
  lemma NoFileBelowAFile(n: Node, files: seq<FileSpec>)
    requires Staged(n, PartsOf(files))
    ensures PrefixFree(PartsOf(files))
  {
    forall a, b | a in PartsOf(files) && b in PartsOf(files) && a != b ensures !(a <= b) {
      assert RealFile(n, a).Some? && RealFile(n, b).Some?;
      if a <= b {
        var k := |a|;
        assert a == b[..k];
        FileIsALeaf(n, a, b);
      }
    }
  }

  lemma {:induction false} FileIsALeaf(n: Node, a: Parts, b: Parts)
    requires a <= b && RealFile(n, a).Some? && RealFile(n, b).Some?
    ensures a == b
    decreases |a|
  {
    if a != [] {
      FileIsALeaf(n.entries[a[0]], a[1..], b[1..]);
      assert a == [a[0]] + a[1..] && b == [b[0]] + b[1..];
    }
  }

  // ---------------------------------------------------------------------------------------
  // Parsed manifests

  lemma {:induction false} PathsAt(files: seq<FileSpec>, i: nat)
    requires i < |files|
    ensures |Paths(files)| == |files| && Paths(files)[i] == files[i].path
  {
    if |files| > 1 { PathsAt(files[1..], if i > 0 then i - 1 else 0); }
  }

  lemma {:induction false} ParsedFilesArePlain(items: seq<Json.Json>)
    requires ParseFiles(items).Some?
    ensures PlainPaths(ParseFiles(items).value)
  {
    if items != [] {
      RelativePath.AcceptedIsPlain(Json.Get(items[0], Json.Path).s);
      ParsedFilesArePlain(items[1..]);
      hide RelativePath.Plain, ParseFile;
      var files := ParseFiles(items).value;
      assert files[1..] == ParseFiles(items[1..]).value;
      forall i | 0 <= i < |files| ensures RelativePath.Plain(files[i].path) {
        if i > 0 { assert files[i] == files[1..][i - 1]; }
      }
    }
  }

  /** Every parsed record meets what the verification and the install ask of a manifest. */
  lemma ParsedManifest(u: UrlRules, allowFile: bool, v: Json.Json)
    requires ParseSpec(u, allowFile, v).Some?
    ensures PlainPaths(ParseSpec(u, allowFile, v).value.files) && DistinctPaths(ParseSpec(u, allowFile, v).value.files)
  {
    hide ParseFiles, ParseLicenses, ParseSource, ParseAmounts, ParseConsumer, PlainPaths;
    var files := ParseSpec(u, allowFile, v).value.files;
    ParsedFilesArePlain(Json.Array(Json.Get(v, Json.Files)).value);
    forall i, j | 0 <= i < j < |files| ensures files[i].path != files[j].path {
      PathsAt(files, i);
      PathsAt(files, j);
    }
  }
}
