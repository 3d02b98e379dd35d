/**
 `fetch_exact`: the exact resumable download, as a function of everything outside it.

 The outside is: the files on disk, the free space, the answers of each candidate's server, the
 cancellation and deadline polls, and the moment at which the process may be killed. A read
 script that runs out is a kill, so every prefix of a run is itself a run.
 */
module Fetch {
  import opened Common

  type Digest = string
  type Sha = Bytes -> Digest

  const RESUME_MIN_BYTES: nat := 64 * 1024 * 1024

  /** The fields of the sidecar that are compared or reused. */
  datatype Sidecar = Sidecar(url: string, bytes: int, sha256: Digest, etag: string, lastModified: string)

  /** The partial file and its sidecar, `<destination>.part`, and the destination. */
  datatype Disk = Disk(
    partial: Option<Bytes>, sidecar: Option<Sidecar>, scratch: Option<Bytes>, destination: Option<Bytes>)
  {
    function DeletePartial(): Disk {
      this.(partial := None, sidecar := None)
    }

    /** The file being written: the partial file if there is one to keep, else the scratch file. */
    function Target(usePartial: bool): Option<Bytes> {
      if usePartial then partial else scratch
    }

    function WithTarget(usePartial: bool, file: Option<Bytes>): Disk {
      if usePartial then this.(partial := file) else this.(scratch := file)
    }
  }

  datatype Kind =
    | Offline | Proxy | Tls | HttpStatus(status: int) | SizeMismatch | DigestMismatch
    | DeadlinePassed | Cancelled | NoSpace

  /**
   Returned; raised a DownloadError; raised something else; raised something else after the destination
   was replaced, because the sidecar could not be removed; or the process died.
   */
  datatype Outcome = Done | Failed(kind: Kind) | Escaped | LeftSidecar | Killed {
    predicate Installed() {
      Done? || LeftSidecar?
    }
  }

  datatype Read =
    | Data(block: Bytes)
    | TimedOut
    | Broken   // OSError or ValueError
    | Fault    // any other exception

  /** One round of the read loop: the polls before the read, the read, and the polls after a time-out. */
  datatype Tick = Tick(cancelled: bool, late: bool, read: Read, thenCancelled: bool, thenLate: bool)

  /** How the calls after the last check go: `os.replace` fails, or the removal of the sidecar does. */
  datatype Ending = Smooth | ReplaceFails | SidecarStays

  datatype RangeHeader = NoRange | GarbledRange | Range(start: int, total: int)

  datatype LengthHeader = NoLength | GarbledLength | Length(n: int)

  datatype Response = Response(
    status: int, contentRange: RangeHeader, contentLength: LengthHeader, etag: string, lastModified: string,
    ticks: seq<Tick>, extra: Read, ending: Ending)

  datatype Reply = Refused(kind: Kind) | Answered(response: Response)

  /** A candidate URL, the polls before it is tried, and its server's answer to each Range request. */
  datatype Candidate = Candidate(url: string, https: bool, cancelled: bool, late: bool, serve: Option<nat> -> Reply)

  /** What the caller asked for. */
  datatype Call = Call(expected: nat, sha256: Digest, hasCancel: bool, hasDeadline: bool, usePartial: bool)

  // ---------------------------------------------------------------------------------------
  // One candidate

  predicate MayResume(c: Call, already: nat) {
    c.usePartial && c.expected >= RESUME_MIN_BYTES && 0 < already < c.expected
  }

  predicate Matches(c: Call, url: string, sidecar: Option<Sidecar>) {
    sidecar.Some? && sidecar.value.sha256 == c.sha256 && sidecar.value.url == url && sidecar.value.bytes == c.expected
  }

  /** The offset asked for in the Range header, if any. */
  function ResumeFrom(c: Call, url: string, disk: Disk, already: nat): Option<nat> {
    if MayResume(c, already) && Matches(c, url, disk.sidecar) then Some(already) else None
  }

  /** A partial file that may not be resumed for this candidate is deleted. */
  function AfterPlan(c: Call, url: string, disk: Disk, already: nat): Disk {
    if MayResume(c, already) && !Matches(c, url, disk.sidecar) then disk.DeletePartial() else disk
  }

  /** The offset at which the body of the response starts. */
  function StartOf(c: Call, resume: Option<nat>, r: Response): Result<nat, Kind> {
    var start: Result<nat, Kind> :=
      if resume.Some? && r.status == 206 then
        (if r.contentRange.Range? && r.contentRange.start == resume.value && r.contentRange.total == c.expected
         then Ok(resume.value) else Err(SizeMismatch))
      else if r.status != 200 then Err(HttpStatus(r.status))
      else Ok(0);
    if start.Ok? && (r.contentLength.GarbledLength?
                     || (r.contentLength.Length? && r.contentLength.n != c.expected - start.value))
    then Err(SizeMismatch) else start
  }

  /** A restart from byte 0 deletes what was to be resumed, before the length is looked at. */
  function AfterHead(resume: Option<nat>, r: Response, disk: Disk): Disk {
    if resume.Some? && r.status == 200 then disk.DeletePartial() else disk
  }

  /** `seek` and `truncate`: cut, or extend with zeros. */
  function Resize(file: Bytes, n: nat): (r: Bytes)
    ensures |r| == n
  {
    if n <= |file| then file[..n] else file + seq(n - |file|, i => 0)
  }

  datatype Stop = Full | EndOfBody | Keep(kind: Kind) | Overflow | Crash | Dead

  datatype Pumped = Pumped(stop: Stop, file: Bytes, hashed: Bytes)

  /** The read loop. `hashed` is what the running digest has been fed; the count is the file's length. */
  function Pump(c: Call, ticks: seq<Tick>, file: Bytes, hashed: Bytes): Pumped
    decreases |ticks|
  {
    if |file| >= c.expected then Pumped(Full, file, hashed)
    else if ticks == [] then Pumped(Dead, file, hashed)
    else
      var t := ticks[0];
      if c.hasCancel && t.cancelled then Pumped(Keep(Cancelled), file, hashed)
      else if c.hasDeadline && t.late then Pumped(Keep(DeadlinePassed), file, hashed)
      else match t.read
        case TimedOut =>
          if c.hasCancel && t.thenCancelled then Pumped(Keep(Cancelled), file, hashed)
          else if c.hasDeadline && t.thenLate then Pumped(Keep(DeadlinePassed), file, hashed)
          else Pump(c, ticks[1..], file, hashed)
        case Broken => Pumped(Keep(Offline), file, hashed)
        case Fault => Pumped(Crash, file, hashed)
        case Data(block) =>
          if block == [] then Pumped(EndOfBody, file, hashed)
          else if |file| + |block| > c.expected then Pumped(Overflow, file, hashed)
          else Pump(c, ticks[1..], file + block, hashed + block)
  }

  /** What is on disk and in the digest when the read loop begins. */
  function Prepared(c: Call, resume: Option<nat>, start: nat, disk: Disk): (Bytes, Bytes) {
    var existing := disk.Target(c.usePartial);
    if resume.Some? && start > 0 then
      (match existing
       case Some(f) => (Resize(f, start), f)
       case None => (Resize([], start), []))
    else ([], [])
  }

  /** The end of an attempt whose file stays where it is. */
  function Leave(c: Call, disk: Disk, p: Pumped): Disk {
    disk.WithTarget(c.usePartial, Some(p.file))
  }

  function SidecarFor(c: Call, url: string, disk: Disk, resume: Option<nat>, r: Response): Sidecar {
    var before := if resume.Some? && disk.sidecar.Some? then disk.sidecar.value else Sidecar("", 0, "", "", "");
    Sidecar(url, c.expected, c.sha256,
            if r.etag != "" then r.etag else before.etag,
            if r.lastModified != "" then r.lastModified else before.lastModified)
  }

  /** The last checks, after the read loop found a full file or the end of the body. */
  function Conclude(c: Call, sha: Sha, r: Response, disk: Disk, p: Pumped): (Outcome, Disk) {
    if !r.extra.Data? then (Escaped, Leave(c, disk, p))
    else if r.extra.block != [] then
      (Failed(SizeMismatch), if c.usePartial then disk.DeletePartial() else Leave(c, disk, p))
    else if |p.file| != c.expected then (Failed(SizeMismatch), Leave(c, disk, p))
    else if sha(p.hashed) != c.sha256 then
      (Failed(DigestMismatch), if c.usePartial then disk.DeletePartial() else disk.(scratch := None))
    else if r.ending.ReplaceFails? then (Escaped, Leave(c, disk, p))
    else
      var moved := disk.WithTarget(c.usePartial, None).(destination := Some(p.file));
      if !c.usePartial then (Done, moved)
      else if r.ending.SidecarStays? then (LeftSidecar, moved)
      else (Done, moved.(sidecar := None))
  }

  /** The attempt from the response on; `asked` is the disk the request was planned on. */
  function Receive(c: Call, sha: Sha, url: string, asked: Disk, resume: Option<nat>, r: Response, disk: Disk)
    : (Outcome, Disk)
  {
    match StartOf(c, resume, r)
    case Err(k) => (Failed(k), disk)
    case Ok(start) =>
      var (file, hashed) := Prepared(c, resume, start, disk);
      var p := Pump(c, r.ticks, file, hashed);
      match p.stop
      case Dead => (Killed, Leave(c, disk, p))
      case Crash => (Escaped, Leave(c, disk, p))
      case Overflow => (Failed(SizeMismatch), if c.usePartial then disk.DeletePartial() else Leave(c, disk, p))
      case Keep(k) =>
        (Failed(k),
         if c.usePartial then Leave(c, disk, p).(sidecar := Some(SidecarFor(c, url, asked, resume, r)))
         else Leave(c, disk, p))
      case _ => Conclude(c, sha, r, disk, p)
  }

  /** `_fetch_one`. */
  function FetchOne(c: Call, sha: Sha, cand: Candidate, disk: Disk, already: nat): (Outcome, Disk) {
    if !cand.https then (Failed(Tls), disk)
    else
      var resume := ResumeFrom(c, cand.url, disk, already);
      var planned := AfterPlan(c, cand.url, disk, already);
      match cand.serve(resume)
      case Refused(k) => (Failed(k), planned)
      case Answered(r) => Receive(c, sha, cand.url, disk, resume, r, AfterHead(resume, r, planned))
  }

  // ---------------------------------------------------------------------------------------
  // All candidates

  predicate Final(k: Kind) {
    k.Cancelled? || k.DeadlinePassed? || k.NoSpace?
  }

  /** The loop over candidates. `already` was measured once, before the first of them. */
  function TryAll(c: Call, sha: Sha, cands: seq<Candidate>, disk: Disk, already: nat, last: Kind): (Outcome, Disk) {
    if cands == [] then (Failed(last), disk)
    else if c.hasCancel && cands[0].cancelled then (Failed(Cancelled), disk)
    else if c.hasDeadline && cands[0].late then (Failed(DeadlinePassed), disk)
    else
      var (outcome, next) := FetchOne(c, sha, cands[0], disk, already);
      if outcome.Failed? && !Final(outcome.kind) then TryAll(c, sha, cands[1..], next, already, outcome.kind)
      else (outcome, next)
  }

  predicate IsSha256(s: string) {
    |s| == 64 && forall i | 0 <= i < |s| :: '0' <= s[i] <= '9' || 'a' <= s[i] <= 'f'
  }

  /** The length of the partial file, if it is a usable one. */
  function Already(c: Call, disk: Disk): nat {
    if c.usePartial && disk.partial.Some? && |disk.partial.value| < c.expected then |disk.partial.value| else 0
  }

  /** A partial file as long as the content, or longer, is deleted first. */
  function Cleared(c: Call, disk: Disk): Disk {
    if c.usePartial && disk.partial.Some? && |disk.partial.value| >= c.expected then disk.DeletePartial() else disk
  }

  function Need(c: Call, already: nat, installed: int): int {
    c.expected - already + (if installed > 0 then installed else 0) + RESUME_MIN_BYTES
  }

  /** `fetch_exact`; `free` is None when the file system cannot be asked. */
  function FetchExact(expected: int, c: Call, sha: Sha, cands: seq<Candidate>, disk: Disk, free: Option<int>,
                      installed: int): (Outcome, Disk)
  {
    if cands == [] then (Failed(Offline), disk)
    else if expected < 0 || !IsSha256(c.sha256) then (Failed(DigestMismatch), disk)
    else
      var call := c.(expected := expected);
      var already, cleared := Already(call, disk), Cleared(call, disk);
      if free.None? || free.value < Need(call, already, installed) then (Failed(NoSpace), cleared)
      else TryAll(call, sha, cands, cleared, already, Offline)
  }

  // ---------------------------------------------------------------------------------------
  // Safety, for every server, leftover and candidate list

  /** P is the one content of the expected length with the pinned digest. */
  ghost predicate Pins(c: Call, sha: Sha, content: Bytes) {
    |content| == c.expected && sha(content) == c.sha256 && forall x: Bytes | sha(x) == c.sha256 :: x == content
  }

  /** The read loop feeds the file and the digest the same bytes, and never passes the expected length. */
  lemma {:induction false} PumpInStep(c: Call, ticks: seq<Tick>, file: Bytes, hashed: Bytes) returns (read: Bytes)
    requires |file| <= c.expected
    ensures var p := Pump(c, ticks, file, hashed);
            p.file == file + read && p.hashed == hashed + read && |p.file| <= c.expected
    decreases |ticks|
  {
    read := [];
    assert file + [] == file && hashed + [] == hashed;
    if |file| < c.expected && ticks != [] {
      var t := ticks[0];
      if t.read.Data? && t.read.block != [] && |file| + |t.read.block| <= c.expected {
        var rest := PumpInStep(c, ticks[1..], file + t.read.block, hashed + t.read.block);
        assert file + t.read.block + rest == file + (t.read.block + rest);
        assert hashed + t.read.block + rest == hashed + (t.read.block + rest);
        if !(c.hasCancel && t.cancelled) && !(c.hasDeadline && t.late) {
          read := t.read.block + rest;
        }
      } else if t.read.TimedOut? {
        var rest := PumpInStep(c, ticks[1..], file, hashed);
        if !(c.hasCancel && (t.cancelled || t.thenCancelled)) && !(c.hasDeadline && (t.late || t.thenLate)) {
          read := rest;
        }
      }
    }
  }

  /**
   When an attempt succeeds the digest was fed exactly the file: a digest that also covers bytes
   beyond the resume point, or misses zeros before it, has the wrong length to be the pinned one.
   */
  lemma HashedIsFile(c: Call, sha: Sha, content: Bytes, resume: Option<nat>, start: nat, disk: Disk, ticks: seq<Tick>)
    requires Pins(c, sha, content) && start <= c.expected
    requires resume.None? ==> start == 0
    requires var (file, hashed) := Prepared(c, resume, start, disk);
             var p := Pump(c, ticks, file, hashed);
             |p.file| == c.expected && sha(p.hashed) == c.sha256
    ensures var (file, hashed) := Prepared(c, resume, start, disk);
            Pump(c, ticks, file, hashed).file == content
  {
    var (file, hashed) := Prepared(c, resume, start, disk);
    var read := PumpInStep(c, ticks, file, hashed);
    assert |file| == |hashed|;
    assert file == hashed;
  }

  lemma StartIsBounded(c: Call, resume: Option<nat>, r: Response)
    requires StartOf(c, resume, r).Ok?
    requires resume.Some? ==> resume.value < c.expected
    ensures StartOf(c, resume, r).value <= c.expected && (resume.None? ==> StartOf(c, resume, r).value == 0)
  {
  }

  lemma FetchOneIsExact(c: Call, sha: Sha, content: Bytes, cand: Candidate, disk: Disk, already: nat)
    requires Pins(c, sha, content)
    ensures var (outcome, after) := FetchOne(c, sha, cand, disk, already);
            after.destination == if outcome.Installed() then Some(content) else disk.destination
  {
    var resume := ResumeFrom(c, cand.url, disk, already);
    if cand.https && cand.serve(resume).Answered? {
      var r := cand.serve(resume).response;
      if StartOf(c, resume, r).Ok? {
        StartIsBounded(c, resume, r);
        var start, on := StartOf(c, resume, r).value, AfterHead(resume, r, AfterPlan(c, cand.url, disk, already));
        var (file, hashed) := Prepared(c, resume, start, on);
        var p := Pump(c, r.ticks, file, hashed);
        if |p.file| == c.expected && sha(p.hashed) == c.sha256 {
          HashedIsFile(c, sha, content, resume, start, on, r.ticks);
        }
      }
    }
  }

  lemma {:induction false} TryAllIsExact(c: Call, sha: Sha, content: Bytes, cands: seq<Candidate>, disk: Disk,
                                         already: nat, last: Kind)
    requires Pins(c, sha, content)
    ensures var (outcome, after) := TryAll(c, sha, cands, disk, already, last);
            after.destination == if outcome.Installed() then Some(content) else disk.destination
  {
    if cands != [] && !(c.hasCancel && cands[0].cancelled) && !(c.hasDeadline && cands[0].late) {
      FetchOneIsExact(c, sha, content, cands[0], disk, already);
      var (outcome, next) := FetchOne(c, sha, cands[0], disk, already);
      hide FetchOne;
      if outcome.Failed? && !Final(outcome.kind) {
        TryAllIsExact(c, sha, content, cands[1..], next, already, outcome.kind);
      }
    }
  }

  /**
   For every server behaviour, every leftover partial file and sidecar, and every candidate list:
   a return means that the destination is exactly the pinned content, so does the one exception that
   can follow its replacement, and every other end, a kill at any point of a read loop included,
   leaves the destination as it was.
   */
  lemma FetchIsExact(expected: int, c: Call, sha: Sha, content: Bytes, cands: seq<Candidate>, disk: Disk,
                     free: Option<int>, installed: int)
    requires expected >= 0 ==> Pins(c.(expected := expected), sha, content)
    ensures var (outcome, after) := FetchExact(expected, c, sha, cands, disk, free, installed);
            after.destination == if outcome.Installed() then Some(content) else disk.destination
  {
    if expected >= 0 {
      var call := c.(expected := expected);
      TryAllIsExact(call, sha, content, cands, Cleared(call, disk), Already(call, disk), Offline);
    }
  }

  // ---------------------------------------------------------------------------------------
  // Disk space

  function Size(file: Option<Bytes>): nat {
    if file.Some? then |file.value| else 0
  }

  function Used(disk: Disk): nat {
    Size(disk.partial) + Size(disk.scratch) + Size(disk.destination)
  }

  /** Only the target has changed since `before`, and it is no longer than the content. */
  predicate WithinTarget(c: Call, before: Disk, disk: Disk) {
    && disk.destination == before.destination
    && (if c.usePartial then disk.scratch == before.scratch && Size(disk.partial) <= c.expected
        else disk.partial == before.partial && (disk.scratch == before.scratch || Size(disk.scratch) <= c.expected))
  }

  /** The target has become the destination. */
  predicate Moved(c: Call, before: Disk, disk: Disk) {
    && Size(disk.destination) == c.expected && disk.Target(c.usePartial).None?
    && (if c.usePartial then disk.scratch == before.scratch else disk.partial == before.partial)
  }

  lemma ReceiveStaysWithin(c: Call, sha: Sha, url: string, asked: Disk, resume: Option<nat>, r: Response,
                           before: Disk, disk: Disk)
    requires WithinTarget(c, before, disk) && (resume.Some? ==> resume.value < c.expected)
    ensures var (outcome, after) := Receive(c, sha, url, asked, resume, r, disk);
            if outcome.Installed() then Moved(c, before, after) else WithinTarget(c, before, after)
  {
    if StartOf(c, resume, r).Ok? {
      StartIsBounded(c, resume, r);
      var start := StartOf(c, resume, r).value;
      var (file, hashed) := Prepared(c, resume, start, disk);
      var read := PumpInStep(c, r.ticks, file, hashed);
      hide Pump, StartOf, SidecarFor;
    }
  }

  lemma AttemptStaysWithin(c: Call, sha: Sha, cand: Candidate, before: Disk, disk: Disk, already: nat)
    requires WithinTarget(c, before, disk)
    ensures var (outcome, after) := FetchOne(c, sha, cand, disk, already);
            if outcome.Installed() then Moved(c, before, after) else WithinTarget(c, before, after)
  {
    var resume := ResumeFrom(c, cand.url, disk, already);
    var planned := AfterPlan(c, cand.url, disk, already);
    if cand.https && cand.serve(resume).Answered? {
      var r := cand.serve(resume).response;
      ReceiveStaysWithin(c, sha, cand.url, disk, resume, r, before, AfterHead(resume, r, planned));
    }
    hide Receive;
  }

  lemma {:induction false} TryAllStaysWithin(c: Call, sha: Sha, cands: seq<Candidate>, before: Disk, disk: Disk,
                                             already: nat, last: Kind)
    requires WithinTarget(c, before, disk)
    ensures var (outcome, after) := TryAll(c, sha, cands, disk, already, last);
            if outcome.Installed() then Moved(c, before, after) else WithinTarget(c, before, after)
  {
    if cands != [] && !(c.hasCancel && cands[0].cancelled) && !(c.hasDeadline && cands[0].late) {
      AttemptStaysWithin(c, sha, cands[0], before, disk, already);
      var (outcome, next) := FetchOne(c, sha, cands[0], disk, already);
      hide FetchOne, WithinTarget, Moved;
      if outcome.Failed? && !Final(outcome.kind) {
        TryAllStaysWithin(c, sha, cands[1..], before, next, already, outcome.kind);
      }
    }
  }

  /** The bytes that a call keeps, so need not download. */
  function Kept(c: Call, disk: Disk): nat {
    if c.usePartial then Size(Cleared(c, disk).partial) else 0
  }

  function AtLeastZero(n: int): nat {
    if n > 0 then n else 0
  }

  /** There is room for what is missing, for the installation, and for the reserve. */
  predicate HasSpace(c: Call, disk: Disk, free: Option<int>, installed: int) {
    free.Some? && free.value >= c.expected - Kept(c, disk) + AtLeastZero(installed) + RESUME_MIN_BYTES
  }

  /**
   A call that is well-formed asks its servers exactly if there is room. Without room it ends before any
   server is asked, with nothing but an unusable partial file deleted; with room each candidate list may
   end otherwise.
   */
  lemma RefusesExactlyWithoutSpace(expected: nat, c: Call, sha: Sha, disk: Disk, free: Option<int>, installed: int)
    requires IsSha256(c.sha256)
    ensures var call := c.(expected := expected);
      (forall cands: seq<Candidate> | cands != [] ::
         FetchExact(expected, c, sha, cands, disk, free, installed) == (Failed(NoSpace), Cleared(call, disk)))
      <==> !HasSpace(call, disk, free, installed)
    ensures HasSpace(c.(expected := expected), disk, free, installed) ==>
      forall cands: seq<Candidate> | cands != [] ::
        var call := c.(expected := expected);
        FetchExact(expected, c, sha, cands, disk, free, installed)
        == TryAll(call, sha, cands, Cleared(call, disk), Kept(call, disk), Offline)
  {
    var call := c.(expected := expected);
    if HasSpace(call, disk, free, installed) {
      var plain := [Candidate("", false, false, false, (range: Option<nat>) => Refused(Offline))];
      assert TryAll(call, sha, [], Cleared(call, disk), Kept(call, disk), Tls) == (Failed(Tls), Cleared(call, disk));
      assert plain[1..] == [];
      assert FetchExact(expected, c, sha, plain, disk, free, installed) == (Failed(Tls), Cleared(call, disk));
    }
  }

  /**
   The amount asked of the file system covers the call: once it is granted, no moment of the
   call, killed or not, has used more, and the reserve is never touched. The question is put to the
   file system of the destination's parent, so this is about partial files that lie on the same one.
   */
  lemma PreflightCoversGrowth(c: Call, sha: Sha, cands: seq<Candidate>, disk: Disk, free: int, installed: int)
    requires free >= Need(c, Already(c, disk), installed)
    ensures var (outcome, after) := TryAll(c, sha, cands, Cleared(c, disk), Already(c, disk), Offline);
            Used(after) - Used(Cleared(c, disk)) <= c.expected - Already(c, disk)
            && c.expected - Already(c, disk) <= free - RESUME_MIN_BYTES - AtLeastZero(installed)
  {
    TryAllStaysWithin(c, sha, cands, Cleared(c, disk), Cleared(c, disk), Already(c, disk), Offline);
    hide TryAll;
  }

  /**
   So for every call, however it ends, killed or not: what it has added to the disk fits into the free space
   with the installation and the reserve left over.
   */
  lemma FetchFitsTheSpace(expected: int, c: Call, sha: Sha, cands: seq<Candidate>, disk: Disk, free: int,
                          installed: int)
    ensures var (outcome, after) := FetchExact(expected, c, sha, cands, disk, Some(free), installed);
      var before := if cands == [] || expected < 0 || !IsSha256(c.sha256) then disk
                    else Cleared(c.(expected := expected), disk);
      && Used(after) - Used(before) <= AtLeastZero(free - RESUME_MIN_BYTES - AtLeastZero(installed))
      && Used(before) <= Used(disk)
  {
    hide TryAll;
    if cands != [] && expected >= 0 && IsSha256(c.sha256) {
      var call := c.(expected := expected);
      if HasSpace(call, disk, Some(free), installed) {
        PreflightCoversGrowth(call, sha, cands, disk, free, installed);
      }
    }
  }
}
