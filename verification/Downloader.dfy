/**
 `fetch_exact` as it runs: files written in place, a running digest, and a read loop. Every method
 is proved to do what the functions of `Fetch` say, so the theorems about them hold of it.
 */
module Downloader {
  import opened Common
  import opened Fetch
  import Progress

  const BLOCK: nat := 1024 * 1024

  class Files {
    const sha: Sha
    var partial: Option<Bytes>
    var sidecar: Option<Sidecar>
    var scratch: Option<Bytes>
    var destination: Option<Bytes>

    constructor (sha: Sha, disk: Disk)
      ensures this.sha == sha && View() == disk
    {
      this.sha := sha;
      partial, sidecar, scratch, destination := disk.partial, disk.sidecar, disk.scratch, disk.destination;
    }

    function View(): Disk
      reads this
    {
      Disk(partial, sidecar, scratch, destination)
    }

    method DeletePartial()
      modifies `partial, `sidecar
      ensures View() == old(View()).DeletePartial()
    {
      partial := None;
      sidecar := None;
    }

    method SetTarget(usePartial: bool, file: Option<Bytes>)
      modifies `partial, `scratch
      ensures View() == old(View()).WithTarget(usePartial, file)
    {
      if usePartial { partial := file; } else { scratch := file; }
    }

    /** Feeds an existing file to the digest, block by block. */
    method HashExisting(file: Bytes) returns (hashed: Bytes)
      ensures hashed == file
    {
      hashed := [];
      while |hashed| < |file|
        invariant |hashed| <= |file| && hashed == file[..|hashed|]
      {
        var n := if |file| - |hashed| < BLOCK then |file| - |hashed| else BLOCK;
        hashed := hashed + file[|hashed|..|hashed| + n];
      }
    }

    /**
     The read loop: the target holds what has been written at every round, in case it is the last, and
     `counts` are the counts it has reported.
     */
    method ReadLoop(c: Call, ticks: seq<Tick>, opened': Bytes, fed: Bytes)
      returns (stop: Stop, count: nat, hashed: Bytes, counts: seq<nat>)
      requires View().Target(c.usePartial) == Some(opened')
      modifies `partial, `scratch
      ensures var p := Pump(c, ticks, opened', fed);
              && stop == p.stop && count == |p.file| && hashed == p.hashed
              && View() == old(View()).WithTarget(c.usePartial, Some(p.file))
      ensures counts == Progress.Counts(c, ticks, opened')
    {
      var i := 0;
      var file := opened';
      count, hashed, counts := |opened'|, fed, [];
      while count < c.expected
        invariant i <= |ticks| && count == |file|
        invariant View() == old(View()).WithTarget(c.usePartial, Some(file))
        invariant Pump(c, ticks[i..], file, hashed) == Pump(c, ticks, opened', fed)
        invariant counts + Progress.Counts(c, ticks[i..], file) == Progress.Counts(c, ticks, opened')
        decreases |ticks| - i
      {
        if i == |ticks| { stop := Dead; return; }
        var t := ticks[i];
        assert ticks[i..][0] == t && ticks[i..][1..] == ticks[i + 1..];
        if c.hasCancel && t.cancelled { stop := Keep(Cancelled); return; }
        if c.hasDeadline && t.late { stop := Keep(DeadlinePassed); return; }
        match t.read {
          case TimedOut =>
            if c.hasCancel && t.thenCancelled { stop := Keep(Cancelled); return; }
            if c.hasDeadline && t.thenLate { stop := Keep(DeadlinePassed); return; }
          case Broken =>
            stop := Keep(Offline);
            return;
          case Fault =>
            stop := Crash;
            return;
          case Data(block) =>
            if block == [] { stop := EndOfBody; return; }
            if count + |block| > c.expected { stop := Overflow; return; }
            file := file + block;
            SetTarget(c.usePartial, Some(file));
            hashed := hashed + block;
            count := count + |block|;
            counts := counts + [count];
        }
        i := i + 1;
      }
      stop := Full;
    }

    /** Opens the target and brings the digest up to the resume point. */
    method OpenTarget(c: Call, resume: bool, start: nat) returns (file: Bytes, hashed: Bytes)
      requires !resume ==> start == 0
      modifies `partial, `scratch
      ensures (file, hashed) == Prepared(c, if resume then Some(start) else None, start, old(View()))
      ensures View() == old(View()).WithTarget(c.usePartial, Some(file))
    {
      var existing := View().Target(c.usePartial);
      file, hashed := [], [];
      if resume && start > 0 {
        if existing.Some? {
          hashed := HashExisting(existing.value);
          file := existing.value;
        }
        file := Resize(file, start);
      }
      SetTarget(c.usePartial, Some(file));
    }

    /** The checks after the read loop, and the replacement of the destination. */
    method Settle(c: Call, r: Response, count: nat, hashed: Bytes, ghost p: Pumped) returns (outcome: Outcome)
      requires View().Target(c.usePartial) == Some(p.file) && count == |p.file| && hashed == p.hashed
      modifies this
      ensures (outcome, View()) == Conclude(c, sha, r, old(View()), p)
    {
      if !r.extra.Data? { return Escaped; }
      if r.extra.block != [] {
        if c.usePartial { DeletePartial(); }
        return Failed(SizeMismatch);
      }
      if count != c.expected { return Failed(SizeMismatch); }
      if sha(hashed) != c.sha256 {
        if c.usePartial { DeletePartial(); } else { scratch := None; }
        return Failed(DigestMismatch);
      }
      if r.ending.ReplaceFails? { return Escaped; }
      destination := View().Target(c.usePartial);
      SetTarget(c.usePartial, None);
      if c.usePartial {
        if r.ending.SidecarStays? { return LeftSidecar; }
        sidecar := None;
      }
      outcome := Done;
    }

    method FetchOne(c: Call, cand: Candidate, already: nat) returns (outcome: Outcome)
      modifies this
      ensures (outcome, View()) == Fetch.FetchOne(c, sha, cand, old(View()), already)
    {
      if !cand.https { return Failed(Tls); }
      var resume := MayResume(c, already);
      var etag, lastModified := "", "";
      if resume {
        if !Matches(c, cand.url, sidecar) {
          DeletePartial();
          resume := false;
        } else {
          etag, lastModified := sidecar.value.etag, sidecar.value.lastModified;
        }
      }
      var asked := if resume then Some(already) else None;
      var reply := cand.serve(asked);
      if reply.Refused? { return Failed(reply.kind); }
      var r := reply.response;
      if resume && r.status == 200 { DeletePartial(); }
      var begin := StartOf(c, asked, r);
      if begin.Err? { return Failed(begin.error); }
      var start := begin.value;
      ghost var on := View();
      var file, hashed := OpenTarget(c, resume && start > 0, start);
      ghost var p := Pump(c, r.ticks, file, hashed);
      var stop, count;
      var counts;
      stop, count, hashed, counts := ReadLoop(c, r.ticks, file, hashed);
      match stop {
        case Dead => outcome := Killed;
        case Crash => outcome := Escaped;
        case Overflow =>
          if c.usePartial { DeletePartial(); }
          outcome := Failed(SizeMismatch);
        case Keep(kind) =>
          if c.usePartial {
            sidecar := Some(Sidecar(cand.url, c.expected, c.sha256,
                                    if r.etag != "" then r.etag else etag,
                                    if r.lastModified != "" then r.lastModified else lastModified));
          }
          outcome := Failed(kind);
        case _ =>
          outcome := Settle(c, r, count, hashed, p);
      }
    }

    method FetchExact(expected: int, call: Call, cands: seq<Candidate>, free: Option<int>, installed: int)
      returns (outcome: Outcome)
      modifies this
      ensures (outcome, View()) == Fetch.FetchExact(expected, call, sha, cands, old(View()), free, installed)
    {
      if cands == [] { return Failed(Offline); }
      if expected < 0 || !IsSha256(call.sha256) { return Failed(DigestMismatch); }
      var c := call.(expected := expected);
      var already: nat := 0;
      if c.usePartial && partial.Some? {
        already := |partial.value|;
        if already >= c.expected {
          DeletePartial();
          already := 0;
        }
      }
      if free.None? || free.value < Need(c, already, installed) { return Failed(NoSpace); }
      var last := Offline;
      var i := 0;
      ghost var cleared := View();
      while i < |cands|
        invariant i <= |cands|
        invariant TryAll(c, sha, cands[i..], View(), already, last) == TryAll(c, sha, cands, cleared, already, Offline)
      {
        assert cands[i..][0] == cands[i] && cands[i..][1..] == cands[i + 1..];
        if c.hasCancel && cands[i].cancelled { return Failed(Cancelled); }
        if c.hasDeadline && cands[i].late { return Failed(DeadlinePassed); }
        outcome := FetchOne(c, cands[i], already);
        if !outcome.Failed? || Final(outcome.kind) { return; }
        last := outcome.kind;
        i := i + 1;
      }
      outcome := Failed(last);
    }
  }
}
