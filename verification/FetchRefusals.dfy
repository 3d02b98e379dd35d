/**
 Which answers `_fetch_one` refuses, and with what kind of error: first by the headers, which are to announce
 exactly the expected length, and then by the body.
 */
module FetchRefusals {
  import opened Common
  import opened Fetch

  // ---------------------------------------------------------------------------------------
  // The headers

  /** The response is one that an attempt reads the body of, had it asked for that part. */
  predicate Expected(resume: Option<nat>, status: int) {
    status == 200 || (status == 206 && resume.Some?)
  }

  /** Its body starts at the offset, and if it says so ends where the content ends. */
  predicate Announces(c: Call, resume: Option<nat>, r: Response, start: nat) {
    && (|| (r.status == 200 && start == 0)
        || (r.status == 206 && resume == Some(start) && r.contentRange == Range(start, c.expected)))
    && (r.contentLength.NoLength? || (r.contentLength.Length? && start + r.contentLength.n == c.expected))
  }

  lemma HeadersDecide(c: Call, resume: Option<nat>, r: Response)
    ensures forall start: nat :: StartOf(c, resume, r) == Ok(start) <==> Announces(c, resume, r, start)
    ensures StartOf(c, resume, r).Err? ==>
              StartOf(c, resume, r).error == if Expected(resume, r.status) then SizeMismatch else HttpStatus(r.status)
  {
  }

  /** The offset at which an attempt would have the body start. */
  function StartAt(resume: Option<nat>, status: int): nat {
    if status == 206 && resume.Some? then resume.value else 0
  }

  /**
   A response that does not announce the content is refused before any of its body is read: no file is written,
   and only a restart from byte 0 removes what was to be resumed.
   */
  lemma MisannouncedIsRefused(c: Call, sha: Sha, cand: Candidate, disk: Disk, already: nat)
    requires cand.https
    requires var resume := ResumeFrom(c, cand.url, disk, already);
             && cand.serve(resume).Answered?
             && var r := cand.serve(resume).response; !Announces(c, resume, r, StartAt(resume, r.status))
    ensures var resume := ResumeFrom(c, cand.url, disk, already);
            var r := cand.serve(resume).response;
            var (outcome, after) := FetchOne(c, sha, cand, disk, already);
            && outcome == Failed(if Expected(resume, r.status) then SizeMismatch else HttpStatus(r.status))
            && after.destination == disk.destination && after.scratch == disk.scratch
            && after in {disk, disk.DeletePartial()} && (resume.Some? && r.status != 200 ==> after == disk)
  {
  }

  // ---------------------------------------------------------------------------------------
  // The body

  /**
   With so much room left, the reads are those of a connection that delivers the body and then ends, and nothing
   interrupts them. Only what the loop gets to read is looked at, and the one read past the end.
   */
  predicate Transmits(c: Call, ticks: seq<Tick>, extra: Read, room: nat, body: Bytes)
    decreases |ticks|
  {
    if room == 0 then extra.Data? && StartsWith(body, extra.block)
    else
      && ticks != []
      && !(c.hasCancel && ticks[0].cancelled) && !(c.hasDeadline && ticks[0].late)
      && match ticks[0].read
         case TimedOut =>
           && !(c.hasCancel && ticks[0].thenCancelled) && !(c.hasDeadline && ticks[0].thenLate)
           && Transmits(c, ticks[1..], extra, room, body)
         case Data(block) =>
           && StartsWith(body, block)
           && (block == [] ==> extra == Data([]))
           && (block != [] && |block| <= room ==>
                 Transmits(c, ticks[1..], extra, room - |block|, body[|block|..]))
         case _ => false
  }

  /** A read returns some bytes of what is left, and nothing only at the end. */
  predicate StartsWith(left: Bytes, block: Bytes) {
    block <= left && (block == [] ==> left == [])
  }

  lemma {:induction false} TransmittedPump(c: Call, ticks: seq<Tick>, extra: Read, file: Bytes, hashed: Bytes,
                                           body: Bytes)
    requires |file| <= c.expected && Transmits(c, ticks, extra, c.expected - |file|, body)
    ensures var p := Pump(c, ticks, file, hashed);
      if |file| + |body| < c.expected then p.stop.EndOfBody? && extra == Data([]) && |p.file| < c.expected
      else if |file| + |body| == c.expected then
        p == Pumped(Full, file + body, hashed + body) && extra == Data([])
      else
        p.stop.Overflow? || (p.stop.Full? && extra.Data? && extra.block != [])
    decreases |ticks|
  {
    if |file| == c.expected {
      if body == [] { assert file + body == file && hashed + body == hashed; }
    } else {
      match ticks[0].read
      case TimedOut => TransmittedPump(c, ticks[1..], extra, file, hashed, body);
      case Data(block) =>
        if block != [] && |file| + |block| <= c.expected {
          var rest := body[|block|..];
          assert block + rest == body;
          assert file + block + rest == file + body && hashed + block + rest == hashed + body;
          TransmittedPump(c, ticks[1..], extra, file + block, hashed + block, rest);
        }
    }
  }

  /** What the file holds when the body starts to be read: nothing, or all that was to be resumed. */
  function Before(start: nat, disk: Disk): Bytes {
    if start > 0 && disk.partial.Some? then disk.partial.value else []
  }

  /**
   An attempt to which a whole body is transmitted is decided by it: `SizeMismatch` exactly if the file would
   not have the expected length, `DigestMismatch` exactly if it would and its digest is not the pinned one, and
   success otherwise, when nothing goes wrong in moving the file.
   */
  lemma BodyDecides(c: Call, sha: Sha, cand: Candidate, disk: Disk, already: nat, start: nat, body: Bytes)
    requires cand.https
    requires var resume := ResumeFrom(c, cand.url, disk, already);
             && cand.serve(resume).Answered?
             && var r := cand.serve(resume).response;
                && Announces(c, resume, r, start)
                && (start > 0 ==> disk.partial.Some? && |disk.partial.value| == start)
                && Transmits(c, r.ticks, r.extra, c.expected - start, body) && r.ending.Smooth?
    ensures var (outcome, after) := FetchOne(c, sha, cand, disk, already);
            var file := Before(start, disk) + body;
            && outcome == (if |file| != c.expected then Failed(SizeMismatch)
                           else if sha(file) != c.sha256 then Failed(DigestMismatch)
                           else Done)
            && after.destination == (if outcome.Done? then Some(file) else disk.destination)
  {
    var resume := ResumeFrom(c, cand.url, disk, already);
    var r := cand.serve(resume).response;
    HeadersDecide(c, resume, r);
    var now := AfterHead(resume, r, AfterPlan(c, cand.url, disk, already));
    var (file, hashed) := Prepared(c, resume, start, now);
    assert file == Before(start, disk) && hashed == file;
    TransmittedPump(c, r.ticks, r.extra, file, hashed, body);
    hide Pump, Transmits, AfterPlan, AfterHead, Prepared, ResumeFrom;
  }

  // ---------------------------------------------------------------------------------------
  // The status

  lemma {:induction false} PumpKeepsFor(c: Call, ticks: seq<Tick>, file: Bytes, hashed: Bytes)
    ensures var stop := Pump(c, ticks, file, hashed).stop;
            stop.Keep? ==> stop.kind.Cancelled? || stop.kind.DeadlinePassed? || stop.kind.Offline?
    decreases |ticks|
  {
    if |file| < c.expected && ticks != [] {
      var t := ticks[0];
      PumpKeepsFor(c, ticks[1..], if t.read.Data? then file + t.read.block else file,
                   if t.read.Data? then hashed + t.read.block else hashed);
    }
  }

  /** An answered attempt fails for its status exactly if the status is neither 200 nor a 206 that was asked for. */
  lemma StatusRefusedExactly(c: Call, sha: Sha, cand: Candidate, disk: Disk, already: nat, r: Response)
    requires cand.https && cand.serve(ResumeFrom(c, cand.url, disk, already)) == Answered(r)
    ensures var outcome := FetchOne(c, sha, cand, disk, already).0;
            (outcome.Failed? && outcome.kind.HttpStatus?)
            <==> !Expected(ResumeFrom(c, cand.url, disk, already), r.status)
  {
    var resume := ResumeFrom(c, cand.url, disk, already);
    HeadersDecide(c, resume, r);
    if start :| StartOf(c, resume, r) == Ok(start) {
      var (file, hashed) := Prepared(c, resume, start, AfterHead(resume, r, AfterPlan(c, cand.url, disk, already)));
      PumpKeepsFor(c, r.ticks, file, hashed);
    }
  }

  // ---------------------------------------------------------------------------------------
  // Which failures another candidate is tried after

  /** What another server may not suffer from; giving up and a full disk are not of that kind. */
  predicate Elsewhere(k: Kind) {
    k.Offline? || k.Proxy? || k.Tls? || k.HttpStatus? || k.SizeMismatch? || k.DigestMismatch?
  }

  /** What the attempt on a candidate leaves when it fails so, and another candidate is to be tried. */
  function FailedOver(c: Call, sha: Sha, cand: Candidate, disk: Disk, already: nat): Option<(Disk, Kind)> {
    var (outcome, after) := FetchOne(c, sha, cand, disk, already);
    if (c.hasCancel && cand.cancelled) || (c.hasDeadline && cand.late) then None
    else if outcome.Failed? && Elsewhere(outcome.kind) then Some((after, outcome.kind))
    else None
  }

  /** What is left when the candidates have been tried in turn, and all have failed so. */
  function AllFailed(c: Call, sha: Sha, cands: seq<Candidate>, disk: Disk, already: nat): Option<(Disk, Kind)> {
    if cands == [] then Some((disk, Offline))
    else match AllFailed(c, sha, cands[..|cands| - 1], disk, already)
      case None => None
      case Some(left) => FailedOver(c, sha, cands[|cands| - 1], left.0, already)
  }

  lemma {:induction false} TriedInTurn(c: Call, sha: Sha, front: seq<Candidate>, rest: seq<Candidate>, disk: Disk,
                                       already: nat)
    requires AllFailed(c, sha, front, disk, already).Some?
    ensures var left := AllFailed(c, sha, front, disk, already).value;
            TryAll(c, sha, front + rest, disk, already, Offline) == TryAll(c, sha, rest, left.0, already, left.1)
  {
    if front == [] {
      assert front + rest == rest;
    } else {
      var last := front[|front| - 1];
      TriedInTurn(c, sha, front[..|front| - 1], [last] + rest, disk, already);
      assert front[..|front| - 1] + ([last] + rest) == front + rest;
      assert ([last] + rest)[1..] == rest;
      hide FetchOne;
    }
  }

  /**
   Of any candidates the first that does not fail so decides the call: it is given up before it is tried, or ends
   as that attempt ends, whatever candidates are left. With none, the call ends with the last failure.
   */
  lemma FirstOtherDecides(c: Call, sha: Sha, front: seq<Candidate>, rest: seq<Candidate>, disk: Disk, already: nat)
    requires AllFailed(c, sha, front, disk, already).Some?
    ensures var left := AllFailed(c, sha, front, disk, already).value;
            var result := TryAll(c, sha, front + rest, disk, already, Offline);
      && (rest == [] ==> result == (Failed(left.1), left.0))
      && (rest != [] && FailedOver(c, sha, rest[0], left.0, already).None? ==>
            result == if c.hasCancel && rest[0].cancelled then (Failed(Cancelled), left.0)
                      else if c.hasDeadline && rest[0].late then (Failed(DeadlinePassed), left.0)
                      else FetchOne(c, sha, rest[0], left.0, already))
  {
    TriedInTurn(c, sha, front, rest, disk, already);
    hide FetchOne;
  }

  /** And there is such a split: all candidates fail so, or there is a first one that does not. */
  lemma {:induction false} SplitAtTheFirst(c: Call, sha: Sha, cands: seq<Candidate>, disk: Disk, already: nat)
    returns (n: nat)
    ensures n <= |cands| && AllFailed(c, sha, cands[..n], disk, already).Some?
    ensures n < |cands| ==>
      FailedOver(c, sha, cands[n], AllFailed(c, sha, cands[..n], disk, already).value.0, already).None?
  {
    hide FailedOver;
    if cands == [] {
      n := 0;
    } else {
      var front := cands[..|cands| - 1];
      n := SplitAtTheFirst(c, sha, front, disk, already);
      assert front[..n] == cands[..n];
      if n == |front| {
        var left := AllFailed(c, sha, front, disk, already).value;
        if FailedOver(c, sha, cands[n], left.0, already).Some? {
          n := |cands|;
          assert cands[..n] == cands;
        }
      }
    }
  }
}
