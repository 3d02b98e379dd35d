/**
 `SuppliedFile`: a file that is opened once beneath a directory, and read, copied and re-read through
 its descriptor, while anyone may change the directory and the file between any two system calls.
 */
module SuppliedFile {
  import opened Common
  import opened AssetSpec
  import RelativePath

  type Ino = nat

  datatype Inode = Regular(bytes: Bytes) | Directory(entries: map<string, Ino>) | Symlink | Other

  /**
   The file system at each system call; the calls that fail, be they an open, an fstat or a read (a round
   of a copy is a read and its writes); and how many bytes a read may return. No file is ever longer
   than `maximum`.
   */
  datatype World = World(at: (nat, Ino) -> Inode, fails: nat -> bool, block: nat -> nat, maximum: nat)

  ghost predicate Bounded(w: World) {
    forall t: nat, i: Ino :: |Content(w, t, i)| <= w.maximum
  }

  function Content(w: World, t: nat, i: Ino): Bytes {
    match w.at(t, i)
    case Regular(bytes) => bytes
    case _ => []
  }

  // ---------------------------------------------------------------------------------------
  // Walking to a file

  /** What a directory leads to under one name. */
  function Child(w: World, t: nat, directory: Ino, name: string): Option<Ino> {
    if !w.at(t, directory).Directory? then None
    else if name == "." then Some(directory)
    else if name in w.at(t, directory).entries then Some(w.at(t, directory).entries[name])
    else None
  }

  /** `open` of one component with O_NOFOLLOW, and with O_DIRECTORY where another one follows. */
  function OpenAt(w: World, t: nat, directory: Ino, name: string, isLeaf: bool): Option<Ino> {
    var i :- Child(w, t, directory, name);
    :- Require(!w.fails(t));
    :- Require(if isLeaf then !w.at(t, i).Symlink? else w.at(t, i).Directory?);
    Some(i)
  }

  /**
   One component that can be opened: a directory's own entry (or itself, for "."), which is no symbolic link, and
   is a directory where another component follows.
   */
  predicate IsStep(w: World, t: nat, directory: Ino, name: string, isLeaf: bool, i: Ino) {
    && !w.fails(t) && w.at(t, directory).Directory?
    && (if name == "." then i == directory
        else name in w.at(t, directory).entries && w.at(t, directory).entries[name] == i)
    && !w.at(t, i).Symlink? && (isLeaf || w.at(t, i).Directory?)
  }

  /** A walk by real directory entries only, one component at each system call. */
  ghost predicate IsWalk(w: World, t: nat, parts: seq<string>, inos: seq<Ino>)
    decreases |parts|
  {
    && |inos| == |parts| + 1
    && (parts != [] ==>
          && IsStep(w, t, inos[0], parts[0], |parts| == 1, inos[1])
          && IsWalk(w, t + 1, parts[1..], inos[1..]))
  }

  /** The file at the end of the walk, if the whole of it can be opened. */
  function WalkTo(w: World, t: nat, directory: Ino, parts: seq<string>): Option<Ino>
    requires parts != []
    decreases |parts|
  {
    var i :- OpenAt(w, t, directory, parts[0], |parts| == 1);
    if |parts| == 1 then Some(i) else WalkTo(w, t + 1, i, parts[1..])
  }

  /** `open_beneath` enters real directories only, and each by the component it is given. */
  lemma {:induction false} WalkIsReal(w: World, t: nat, directory: Ino, parts: seq<string>) returns (inos: seq<Ino>)
    requires parts != [] && WalkTo(w, t, directory, parts).Some?
    ensures IsWalk(w, t, parts, inos)
    ensures inos[0] == directory && inos[|parts|] == WalkTo(w, t, directory, parts).value
    decreases |parts|
  {
    var i := OpenAt(w, t, directory, parts[0], |parts| == 1).value;
    var rest := [i];
    if |parts| > 1 { rest := WalkIsReal(w, t + 1, i, parts[1..]); }
    inos := [directory] + rest;
    assert inos[1..] == rest;
  }

  /** And it finds every file that there is such a walk to. */
  lemma {:induction false} WalkIsFound(w: World, t: nat, parts: seq<string>, inos: seq<Ino>)
    requires parts != [] && IsWalk(w, t, parts, inos)
    ensures WalkTo(w, t, inos[0], parts) == Some(inos[|parts|])
    decreases |parts|
  {
    if |parts| > 1 { WalkIsFound(w, t + 1, parts[1..], inos[1..]); }
  }

  // ---------------------------------------------------------------------------------------
  // Reading a file to its end

  /** The bytes that reads from position `p` give until one gives none, and the time after that; None if one fails. */
  function ReadFrom(w: World, t: nat, i: Ino, p: nat): (r: Option<(Bytes, nat)>)
    requires Bounded(w)
    ensures r.Some? ==> t < r.value.1
    decreases w.maximum - p
  {
    var c := Content(w, t, i);
    if w.fails(t) then None
    else if p >= |c| then Some(([], t + 1))
    else
      var n := Taken(w, t, |c| - p);
      var rest :- ReadFrom(w, t + 1, i, p + n);
      Some((c[p..p + n] + rest.0, rest.1))
  }

  /** How many of the bytes that are left one read returns: at least one. */
  function Taken(w: World, t: nat, left: nat): (n: nat)
    requires left > 0
    ensures 0 < n <= left
  {
    if 0 < w.block(t) <= left then w.block(t) else left
  }

  /** Reads of a file that stays as it is give what is left of it. */
  lemma {:induction false} QuietRead(w: World, t: nat, i: Ino, p: nat, c: Bytes)
    requires Bounded(w) && p <= |c| && ReadFrom(w, t, i, p).Some?
    requires forall k: nat | t <= k < ReadFrom(w, t, i, p).value.1 :: Content(w, k, i) == c
    ensures ReadFrom(w, t, i, p).value.0 == c[p..]
    decreases w.maximum - p
  {
    assert Content(w, t, i) == c;
    if p < |c| {
      var n := Taken(w, t, |c| - p);
      QuietRead(w, t + 1, i, p + n, c);
      assert c[p..] == c[p..p + n] + c[p + n..];
    }
  }

  lemma {:induction false} ReadsSucceed(w: World, t: nat, i: Ino, p: nat)
    requires Bounded(w) && forall k: nat :: !w.fails(k)
    ensures ReadFrom(w, t, i, p).Some?
    decreases w.maximum - p
  {
    if p < |Content(w, t, i)| {
      ReadsSucceed(w, t + 1, i, p + Taken(w, t, |Content(w, t, i)| - p));
    }
  }

  // ---------------------------------------------------------------------------------------
  // The process

  /** What was read so far, then the rest. */
  function Prepend(read: Bytes, rest: Option<(Bytes, nat)>): Option<(Bytes, nat)> {
    match rest
    case None => None
    case Some(r) => Some((read + r.0, r.1))
  }

  lemma PrependMore(read: Bytes, block: Bytes, rest: Option<(Bytes, nat)>)
    ensures Prepend(read, Prepend(block, rest)) == Prepend(read + block, rest)
  {
    if rest.Some? { assert read + (block + rest.value.0) == read + block + rest.value.0; }
  }

  /** The descriptors that are open, and the number of system calls so far. */
  class Process {
    var open: map<int, Ino>
    var next: int
    var now: nat

    ghost predicate Valid()
      reads `open, `next
    {
      0 <= next && forall d | d in open :: 0 <= d < next
    }

    constructor ()
      ensures Valid() && open == map[] && now == 0
    {
      open, next, now := map[], 0, 0;
    }

    method Hold(i: Ino) returns (d: int)
      requires Valid()
      modifies this`open, this`next
      ensures Valid() && 0 <= d && d !in old(open) && open == old(open)[d := i]
    {
      d := next;
      open := open[d := i];
      next := next + 1;
    }

    /** The read loop of the digest and of the copy. */
    method ReadAll(w: World, d: int) returns (data: Option<Bytes>)
      requires Valid() && Bounded(w) && d in open
      modifies this`now
      ensures Valid() && old(now) < now
      ensures data.Some? <==> ReadFrom(w, old(now), open[d], 0).Some?
      ensures data.Some? ==> (data.value, now) == ReadFrom(w, old(now), open[d], 0).value
    {
      var read: Bytes, i, p, more := [], open[d], 0, true;
      ghost var all := ReadFrom(w, now, i, 0);
      assert Prepend([], all) == all by { if all.Some? { assert [] + all.value.0 == all.value.0; } }
      while more
        invariant 0 <= p <= w.maximum && old(now) <= now && (!more ==> old(now) < now)
        invariant more ==> Prepend(read, ReadFrom(w, now, i, p)) == all
        invariant !more ==> all == Some((read, now))
        decreases w.maximum - p, more
      {
        var c, t := Content(w, now, i), now;
        now := now + 1;
        if w.fails(t) { return None; }
        if p >= |c| {
          more := false;
          assert read + [] == read;
        } else {
          var n := Taken(w, t, |c| - p);
          PrependMore(read, c[p..p + n], ReadFrom(w, t + 1, i, p + n));
          read, p := read + c[p..p + n], p + n;
        }
      }
      data := Some(read);
    }

    method Close(d: int)
      requires Valid()
      modifies this`open
      ensures Valid() && open == old(open) - {d}
    {
      open := open - {d};
    }

    method CloseAll(walked: seq<int>)
      requires Valid()
      modifies this`open
      ensures Valid() && open == old(open) - (set d | d in walked)
    {
      for j := 0 to |walked|
        invariant Valid() && open == old(open) - (set d | d in walked[..j])
      {
        Close(walked[j]);
        assert walked[..j + 1] == walked[..j] + [walked[j]];
      }
      assert walked[..|walked|] == walked;
    }

    /** One `open` relative to an open directory. */
    method Enter(w: World, directory: int, name: string, isLeaf: bool) returns (d: Option<int>)
      requires Valid() && directory in open
      modifies this
      ensures Valid() && now == old(now) + 1
      ensures d.Some? <==> OpenAt(w, old(now), old(open)[directory], name, isLeaf).Some?
      ensures d.None? ==> open == old(open)
      ensures d.Some? ==>
                && 0 <= d.value && d.value !in old(open)
                && open == old(open)[d.value := OpenAt(w, old(now), old(open)[directory], name, isLeaf).value]
    {
      var i := OpenAt(w, now, open[directory], name, isLeaf);
      now := now + 1;
      if i.None? { return None; }
      var held := Hold(i.value);
      return Some(held);
    }

    /** Beyond what was open `before`, only the directories walked so far are, `at` through the last of them. */
    ghost predicate Walking(before: map<int, Ino>, walked: seq<int>, at: Ino)
      reads `open, `next
    {
      && Valid() && Only(before, open, walked, None)
      && walked != [] && walked[|walked| - 1] in open && open[walked[|walked| - 1]] == at
    }

    /** Enters one more directory. */
    method Descend(w: World, walked: seq<int>, name: string, ghost before: map<int, Ino>, ghost at: Ino)
      returns (more: Option<seq<int>>)
      requires Walking(before, walked, at)
      modifies this
      ensures now == old(now) + 1 && (more.Some? <==> OpenAt(w, old(now), at, name, false).Some?)
      ensures more.None? ==> Walking(before, walked, at)
      ensures more.Some? ==> Walking(before, more.value, OpenAt(w, old(now), at, name, false).value)
    {
      hide OpenAt, Only;
      ghost var held := open;
      var d := Enter(w, walked[|walked| - 1], name, false);
      if d.None? { return None; }
      OnlyOneMore(before, held, walked, d.value, open[d.value]);
      return Some(walked + [d.value]);
    }

    /** Enters the directories before the last component, one after the other; `walked` are those passed. */
    method WalkDown(w: World, base: Ino, parts: seq<string>, ghost before: map<int, Ino>)
      returns (walked: seq<int>, done: bool, ghost at: Ino)
      requires Valid() && parts != [] && before == open
      modifies this
      ensures old(now) <= now && Walking(before, walked, at) && (!done ==> old(now) < now)
      ensures done ==> now == old(now) + |parts| - 1
      ensures WalkTo(w, old(now), base, parts)
              == if done then WalkTo(w, now, at, parts[|parts| - 1..]) else None
    {
      ghost var start := now;
      at := base;
      var top := Hold(base);
      walked := [top];
      OnlyOneMore(before, before, [], top, base);
      assert parts[0..] == parts && [] + [top] == walked;
      hide Only, WalkTo, OpenAt;
      for k := 0 to |parts| - 1
        invariant now == start + k && Walking(before, walked, at)
        invariant WalkTo(w, start, base, parts) == WalkTo(w, now, at, parts[k..])
      {
        hide Walking;
        WalkToNext(w, now, at, parts, k);
        ghost var next := OpenAt(w, now, at, parts[k], false);
        var more := Descend(w, walked, parts[k], before, at);
        if more.None? { return walked, false, at; }
        walked, at := more.value, next.value;
      }
      done := true;
    }

    /** Opens the components one after the other; `walked` are the directories passed on the way. */
    method Walk(w: World, base: Ino, parts: seq<string>) returns (leaf: Option<int>, walked: seq<int>)
      requires Valid() && parts != []
      modifies this
      ensures Valid() && old(now) < now
      ensures Only(old(open), open, walked, leaf)
      ensures leaf.Some? <==> WalkTo(w, old(now), base, parts).Some?
      ensures leaf.Some? ==> open[leaf.value] == WalkTo(w, old(now), base, parts).value && now == old(now) + |parts|
    {
      ghost var before, at := open, base;
      var done;
      walked, done, at := WalkDown(w, base, parts, before);
      StillWalking(before, walked, at);
      if !done { return None, walked; }
      hide Only, WalkTo, OpenAt;
      WalkToNext(w, now, at, parts, |parts| - 1);
      ghost var held := open;
      leaf := Enter(w, walked[|walked| - 1], parts[|parts| - 1], true);
      if leaf.Some? { OnlyOneMore(before, held, walked, leaf.value, open[leaf.value]); }
    }

    lemma StillWalking(before: map<int, Ino>, walked: seq<int>, at: Ino)
      requires Walking(before, walked, at)
      ensures Valid() && Only(before, open, walked, None)
    {
    }

    /** `open_beneath` up to the leaf: on every outcome the descriptors of the walk are closed again. */
    method OpenParts(w: World, base: Ino, parts: seq<string>) returns (leaf: Option<int>)
      requires Valid() && parts != []
      modifies this
      ensures Valid() && old(now) < now
      ensures leaf.None? ==> open == old(open)
      ensures leaf.Some? ==>
                && leaf.value !in old(open) && 0 <= leaf.value && now == old(now) + 1 + |parts|
                && WalkTo(w, old(now) + 1, base, parts).Some?
                && open == old(open)[leaf.value := WalkTo(w, old(now) + 1, base, parts).value]
      ensures leaf.Some? <==>
                && !w.fails(old(now)) && w.at(old(now), base).Directory?
                && WalkTo(w, old(now) + 1, base, parts).Some?
    {
      var start := now;
      now := now + 1;
      if w.fails(start) || !w.at(start, base).Directory? { return None; }
      var walked;
      leaf, walked := Walk(w, base, parts);
      OnlyWithoutWalk(old(open), open, walked, leaf);
      assert leaf.Some? ==> leaf.value in open;
      hide Only, WalkTo;
      CloseAll(walked);
    }
  }

  /** What is held of a file: its size when it was opened, what was read then, and when that ended. */
  datatype Held = Held(ino: Ino, size: nat, data: Bytes, end: nat)

  /** `open_beneath`. */
  function HoldBeneath(w: World, t: nat, base: Ino, relative: string): Option<Held>
    requires Bounded(w)
  {
    var parts := RelativePath.Split(relative);
    :- Require(RelativePath.OpensBeneath(relative));
    :- Require(!w.fails(t) && w.at(t, base).Directory?);
    var i :- WalkTo(w, t + 1, base, parts);
    var stat := t + 1 + |parts|;
    :- Require(!w.fails(stat) && w.at(stat, i).Regular?);
    var read :- ReadFrom(w, stat + 1, i, 0);
    Some(Held(i, |Content(w, stat, i)|, read.0, read.1))
  }

  /** `revalidate`: the time after it, if the file still has its size and its digest. */
  function Revalidated(w: World, t: nat, h: Held, hash: Bytes -> string): Option<nat>
    requires Bounded(w)
  {
    var content := Content(w, t, h.ino);
    :- Require(!w.fails(t) && w.at(t, h.ino).Regular? && |content| == h.size);
    var read :- ReadFrom(w, t + 1, h.ino, 0);
    :- Require(hash(read.0) == hash(h.data));
    Some(read.1)
  }

  class SuppliedFile {
    var descriptor: int
    const ino: Ino
    const size: nat
    const sha256: string

    constructor (d: int, i: Ino, n: nat, digest: string)
      ensures descriptor == d && ino == i && size == n && sha256 == digest
    {
      descriptor, ino, size, sha256 := d, i, n, digest;
    }

    /** Open in `p`, holding its file. */
    predicate IsOpen(p: Process)
      reads this, p
    {
      descriptor in p.open && p.open[descriptor] == ino
    }

    /** `open_beneath`: what is not returned is not left open either. */
    static method OpenBeneath(p: Process, w: World, hash: Bytes -> string, base: Ino, relative: string)
      returns (f: Option<SuppliedFile>)
      requires p.Valid() && Bounded(w)
      modifies p
      ensures p.Valid()
      ensures f.Some? <==> HoldBeneath(w, old(p.now), base, relative).Some?
      ensures f.None? ==> p.open == old(p.open)
      ensures f.Some? ==>
                var h := HoldBeneath(w, old(p.now), base, relative).value;
                && fresh(f.value) && f.value.descriptor !in old(p.open)
                && p.open == old(p.open)[f.value.descriptor := h.ino] && p.now == h.end
                && f.value.ino == h.ino && f.value.size == h.size && f.value.sha256 == hash(h.data)
    {
      hide WalkTo, ReadFrom, RelativePath.OpensBeneath, RelativePath.Split;
      var parts := RelativePath.Split(relative);
      if !RelativePath.OpensBeneath(relative) { return None; }
      var leaf := p.OpenParts(w, base, parts);
      if leaf.None? { return None; }
      var d := leaf.value;
      var i, stat := p.open[d], p.now;
      p.now := p.now + 1;
      if w.fails(stat) || !w.at(stat, i).Regular? {
        p.Close(d);
        assert p.open == old(p.open);
        return None;
      }
      var data := p.ReadAll(w, d);
      if data.None? {
        p.Close(d);
        assert p.open == old(p.open);
        return None;
      }
      var file := new SuppliedFile(d, i, |Content(w, stat, i)|, hash(data.value));
      return Some(file);
    }

    method Revalidate(p: Process, w: World, hash: Bytes -> string, ghost h: Held) returns (ok: bool)
      requires p.Valid() && Bounded(w) && IsOpen(p)
      requires ino == h.ino && size == h.size && sha256 == hash(h.data)
      modifies p`now
      ensures p.Valid()
      ensures ok <==> Revalidated(w, old(p.now), h, hash).Some?
      ensures ok ==> p.now == Revalidated(w, old(p.now), h, hash).value
    {
      var t := p.now;
      p.now := p.now + 1;
      if w.fails(t) || !w.at(t, ino).Regular? || |Content(w, t, ino)| != size { return false; }
      var data := p.ReadAll(w, descriptor);
      return data.Some? && hash(data.value) == sha256;
    }

    method Close(p: Process)
      requires p.Valid()
      modifies this, p`open
      ensures p.Valid() && descriptor == -1 && p.open == old(p.open) - {old(descriptor)}
    {
      var d := descriptor;
      descriptor := -1;
      p.Close(d);
    }
  }

  // ---------------------------------------------------------------------------------------
  // Supplying one file

  /** Opened, compared with the manifest, copied, and compared again: the copied bytes. */
  function Take(w: World, t: nat, base: Ino, item: FileSpec, hash: Bytes -> string): Option<(Bytes, nat)>
    requires Bounded(w)
  {
    var h :- HoldBeneath(w, t, base, item.path);
    :- Require(h.size == item.bytes && hash(h.data) == item.sha256);
    var copied :- ReadFrom(w, h.end, h.ino, 0);
    var end :- Revalidated(w, copied.1, h, hash);
    Some((copied.0, end))
  }

  /** One round of the loop over the wanted files; on every outcome no descriptor is left open. */
  method Supply(p: Process, w: World, hash: Bytes -> string, base: Ino, item: FileSpec) returns (copied: Option<Bytes>)
    requires p.Valid() && Bounded(w)
    modifies p
    ensures p.Valid() && p.open == old(p.open)
    ensures copied.Some? <==> Take(w, old(p.now), base, item, hash).Some?
    ensures copied.Some? ==> (copied.value, p.now) == Take(w, old(p.now), base, item, hash).value
  {
    hide ReadFrom, HoldBeneath, Revalidated;
    ghost var h := HoldBeneath(w, p.now, base, item.path);
    var file := SuppliedFile.OpenBeneath(p, w, hash, base, item.path);
    if file.None? { return None; }
    var f := file.value;
    if f.size == item.bytes && f.sha256 == item.sha256 {
      copied := p.ReadAll(w, f.descriptor);
      if copied.Some? {
        var ok := f.Revalidate(p, w, hash, h.value);
        if !ok { copied := None; }
      }
    } else {
      copied := None;
    }
    f.Close(p);
    assert p.open == old(p.open);
  }

  // ---------------------------------------------------------------------------------------
  // What the second look proves, and what it does not

  ghost predicate Quiet(w: World) {
    forall t: nat, i: Ino :: w.at(t, i) == w.at(0, i) && !w.fails(t)
  }

  lemma {:induction false} QuietWalk(w: World, t: nat, s: nat, directory: Ino, parts: seq<string>)
    requires Quiet(w) && parts != []
    ensures WalkTo(w, t, directory, parts) == WalkTo(w, s, directory, parts)
    decreases |parts|
  {
    assert OpenAt(w, t, directory, parts[0], |parts| == 1) == OpenAt(w, s, directory, parts[0], |parts| == 1) by {
      assert w.at(t, directory) == w.at(0, directory) && w.at(s, directory) == w.at(0, directory);
      var i := Child(w, t, directory, parts[0]);
      if i.Some? { assert w.at(t, i.value) == w.at(0, i.value) && w.at(s, i.value) == w.at(0, i.value); }
    }
    var i := OpenAt(w, t, directory, parts[0], |parts| == 1);
    if i.Some? && |parts| > 1 { QuietWalk(w, t + 1, s + 1, i.value, parts[1..]); }
  }

  /** The file at a path of real directories below `base`, where nothing changes. */
  function Still(w: World, base: Ino, relative: string): Option<Bytes> {
    var parts := RelativePath.Split(relative);
    :- Require(RelativePath.OpensBeneath(relative) && w.at(0, base).Directory?);
    var i :- WalkTo(w, 0, base, parts);
    :- Require(w.at(0, i).Regular?);
    Some(Content(w, 0, i))
  }

  /** Where nothing changes, a file is taken exactly when it is the listed one, and then as it is. */
  lemma QuietTake(w: World, t: nat, base: Ino, item: FileSpec, hash: Bytes -> string)
    requires Bounded(w) && Quiet(w)
    ensures var c := Still(w, base, item.path);
      && (Take(w, t, base, item, hash).Some? <==> c.Some? && |c.value| == item.bytes && hash(c.value) == item.sha256)
      && (Take(w, t, base, item, hash).Some? ==> Take(w, t, base, item, hash).value.0 == c.value)
  {
    hide WalkTo;
    QuietWalk(w, t + 1, 0, base, RelativePath.Split(item.path));
    assert w.at(t, base) == w.at(0, base) && !w.fails(t);
    var i := WalkTo(w, 0, base, RelativePath.Split(item.path));
    if i.Some? {
      var c := Content(w, 0, i.value);
      forall k: nat ensures w.at(k, i.value) == w.at(0, i.value) && Content(w, k, i.value) == c
                    ensures ReadFrom(w, k, i.value, 0).Some? && ReadFrom(w, k, i.value, 0).value.0 == c
      {
        assert w.at(k, i.value) == w.at(0, i.value);
        forall j: nat ensures Content(w, j, i.value) == c { assert w.at(j, i.value) == w.at(0, i.value); }
        assert forall j: nat :: !w.fails(j);
        ReadsSucceed(w, k, i.value, 0);
        QuietRead(w, k, i.value, 0, c);
        assert c[0..] == c;
      }
    }
  }

  /** One file, which holds `other` from the first read of the copy to its last, and `good` before and after. */
  function Flickers(name: string, good: Bytes, other: Bytes): World {
    World((t, i) => if i == 0 then Directory(map[name := 1])
                    else if i == 1 then Regular(if t == 5 || t == 6 then other else good)
                    else Other,
          t => false, t => 0, |good|)
  }

  /**
   The second look does not prove that the copy is the file that was verified: a file can be rewritten
   after the first look and restored before the second.
   */
  lemma CopyCanDiffer(name: string, good: Bytes, other: Bytes, hash: Bytes -> string)
    requires RelativePath.Plain(name) && RelativePath.Split(name) == [name] && name != "."
    requires |good| == |other| > 0
    ensures Bounded(Flickers(name, good, other))
    ensures Take(Flickers(name, good, other), 0, 0, FileSpec(name, |good|, hash(good)), hash) == Some((other, 10))
  {
    var w := Flickers(name, good, other);
    FlickersIsHeld(name, good, other);
    OneRead(w, 5, 1);
    OneRead(w, 8, 1);
    hide HoldBeneath, ReadFrom, Bounded;
  }

  lemma FlickersIsHeld(name: string, good: Bytes, other: Bytes)
    requires RelativePath.Plain(name) && RelativePath.Split(name) == [name] && name != "."
    requires |good| == |other| > 0
    ensures Bounded(Flickers(name, good, other))
    ensures HoldBeneath(Flickers(name, good, other), 0, 0, name) == Some(Held(1, |good|, good, 5))
  {
    RelativePath.PlainOpensBeneath(name);
    FlickersOpens(name, good, other);
    OneRead(Flickers(name, good, other), 3, 1);
    hide WalkTo, ReadFrom, RelativePath.Split, RelativePath.OpensBeneath, Bounded;
  }

  lemma FlickersOpens(name: string, good: Bytes, other: Bytes)
    requires name != "."
    ensures WalkTo(Flickers(name, good, other), 1, 0, [name]) == Some(1)
  {
    assert OpenAt(Flickers(name, good, other), 1, 0, name, true) == Some(1);
  }

  lemma OneRead(w: World, t: nat, i: Ino)
    requires Bounded(w) && w.block(t) == 0 && !w.fails(t) && !w.fails(t + 1)
    requires |Content(w, t, i)| == |Content(w, t + 1, i)| > 0
    ensures ReadFrom(w, t, i, 0) == Some((Content(w, t, i), t + 2))
  {
    var c := Content(w, t, i);
    assert ReadFrom(w, t + 1, i, |c|) == Some(([], t + 2));
    assert c[0..|c|] + [] == c;
  }

  /** Nobody writes the file that is held, from its fstat to the end of its copy. */
  ghost predicate HeldUnwritten(w: World, t: nat, base: Ino, item: FileSpec, hash: Bytes -> string)
    requires Bounded(w) && Take(w, t, base, item, hash).Some?
  {
    var h := HoldBeneath(w, t, base, item.path).value;
    var stat := t + 1 + |RelativePath.Split(item.path)|;
    forall k: nat | stat <= k < ReadFrom(w, h.end, h.ino, 0).value.1 :: Content(w, k, h.ino) == Content(w, stat, h.ino)
  }

  predicate IsListed(bytes: Bytes, item: FileSpec, hash: Bytes -> string) {
    |bytes| == item.bytes && hash(bytes) == item.sha256
  }

  /**
   Whatever happens to the directories, to the path and to all other files, a copy that is taken is the
   listed file if nobody writes the one that is held.
   */
  lemma UnwrittenCopyIsListed(w: World, t: nat, base: Ino, item: FileSpec, hash: Bytes -> string)
    requires Bounded(w) && Take(w, t, base, item, hash).Some? && HeldUnwritten(w, t, base, item, hash)
    ensures IsListed(Take(w, t, base, item, hash).value.0, item, hash)
  {
    hide WalkTo, ReadFrom;
    var h := HoldBeneath(w, t, base, item.path).value;
    var stat := t + 1 + |RelativePath.Split(item.path)|;
    var c := Content(w, stat, h.ino);
    QuietRead(w, stat + 1, h.ino, 0, c);
    QuietRead(w, h.end, h.ino, 0, c);
    assert c[0..] == c;
  }

  /**
   What the second look is good for: over all worlds, with the held file open to writing during a take
   or not, every copy that is taken is the listed file exactly if it is not.
   */
  lemma CopiesAreListedExactlyUnwritten(rewrites: bool, hash: Bytes -> string)
    requires exists good: Bytes, other: Bytes :: |good| == |other| && hash(good) != hash(other)
    ensures (forall w: World, t: nat, base: Ino, item: FileSpec |
               && Bounded(w) && Take(w, t, base, item, hash).Some?
               && (rewrites || HeldUnwritten(w, t, base, item, hash)) ::
               IsListed(Take(w, t, base, item, hash).value.0, item, hash))
       <==> !rewrites
  {
    if rewrites {
      var good: Bytes, other: Bytes :| |good| == |other| && hash(good) != hash(other);
      assert |good| == 0 ==> good == other;
      assert RelativePath.Split("a") == ["a"] && RelativePath.Plain("a") by { RelativePath.SplitComponent("a"); }
      CopyCanDiffer("a", good, other, hash);
      assert !IsListed(other, FileSpec("a", |good|, hash(good)), hash);
      hide Take, Bounded;
    } else {
      forall w: World, t: nat, base: Ino, item: FileSpec |
          Bounded(w) && Take(w, t, base, item, hash).Some? && HeldUnwritten(w, t, base, item, hash)
        ensures IsListed(Take(w, t, base, item, hash).value.0, item, hash)
      {
        UnwrittenCopyIsListed(w, t, base, item, hash);
      }
    }
  }

  // ---------------------------------------------------------------------------------------
  // Descriptors

  /** Beyond the descriptors of before, only those of the walk and the leaf are open, and they are new. */
  ghost predicate Only(before: map<int, Ino>, open: map<int, Ino>, walked: seq<int>, leaf: Option<int>) {
    && (forall d | d in before :: d in open && open[d] == before[d] && d !in walked && leaf != Some(d))
    && (forall d | d in open :: d in before || d in walked || leaf == Some(d))
    && (forall d | d in walked :: d in open)
    && (leaf.Some? ==> leaf.value in open && leaf.value !in walked)
  }

  lemma OnlyOneMore(before: map<int, Ino>, open: map<int, Ino>, walked: seq<int>, d: int, i: Ino)
    requires Only(before, open, walked, None) && d !in open
    ensures Only(before, open[d := i], walked, Some(d))
    ensures Only(before, open[d := i], walked + [d], None)
  {
  }

  lemma OnlyWithoutWalk(before: map<int, Ino>, open: map<int, Ino>, walked: seq<int>, leaf: Option<int>)
    requires Only(before, open, walked, leaf)
    ensures leaf.Some? ==> leaf.value in open && leaf.value !in before
    ensures var left := open - (set d | d in walked);
      left == if leaf.Some? then before[leaf.value := open[leaf.value]] else before
  {
    var left := open - (set d | d in walked);
    var expected := if leaf.Some? then before[leaf.value := open[leaf.value]] else before;
    forall d: int ensures d in left <==> d in expected {
      assert d in left <==> d in open && d !in walked;
      assert leaf == Some(d) <==> leaf.Some? && leaf.value == d;
    }
    forall d | d in expected ensures left[d] == expected[d] {
    }
    assert left == expected;
  }

  lemma WalkToNext(w: World, t: nat, directory: Ino, parts: seq<string>, k: nat)
    requires k < |parts|
    ensures WalkTo(w, t, directory, parts[k..])
         == match OpenAt(w, t, directory, parts[k], k + 1 == |parts|)
            case None => None
            case Some(i) => if k + 1 == |parts| then Some(i) else WalkTo(w, t + 1, i, parts[k + 1..])
  {
    assert parts[k..][1..] == parts[k + 1..];
  }
}
