/**
 Downloads against an upstream that always serves the pinned content, interrupted at will
 (range semantics: sections 14.4 and 15.3.7 of RFC 9110).
 */
module FetchHonest {
  import opened Common
  import opened Fetch

  // ---------------------------------------------------------------------------------------
  // Honest servers

  /** The reads deliver the body in order, with any interruptions; the connection may also just end. */
  predicate Faithful(ticks: seq<Tick>, body: Bytes)
    decreases |ticks|
  {
    ticks == [] ||
    match ticks[0].read
    case Data(block) =>
      block == [] || (block <= body && Faithful(ticks[1..], body[|block|..]))
    case _ => Faithful(ticks[1..], body)
  }

  /** A full response carries the content, a partial one the rest of it from the offset asked for. */
  predicate HonestReply(content: Bytes, resume: Option<nat>, reply: Reply) {
    reply.Answered? ==>
      var r := reply.response;
      && (r.status == 200 ==> Faithful(r.ticks, content))
      && (r.status == 206 ==>
            && resume.Some? && resume.value <= |content| && r.contentRange == Range(resume.value, |content|)
            && Faithful(r.ticks, content[resume.value..]))
      && (r.extra.Data? ==> r.extra.block == [])
  }

  ghost predicate Honest(content: Bytes, cand: Candidate) {
    forall resume :: HonestReply(content, resume, cand.serve(resume))
  }

  /** The reads deliver the whole body, and nothing interrupts them. */
  predicate Delivers(c: Call, ticks: seq<Tick>, body: Bytes)
    decreases |ticks|
  {
    body == [] ||
    (&& ticks != []
     && !(c.hasCancel && ticks[0].cancelled) && !(c.hasDeadline && ticks[0].late)
     && match ticks[0].read
        case Data(block) => block != [] && block <= body && Delivers(c, ticks[1..], body[|block|..])
        case TimedOut =>
          !(c.hasCancel && ticks[0].thenCancelled) && !(c.hasDeadline && ticks[0].thenLate)
          && Delivers(c, ticks[1..], body)
        case _ => false)
  }

  /** An uninterrupted honest answer. */
  predicate Uninterrupted(c: Call, content: Bytes, resume: Option<nat>, reply: Reply) {
    && reply.Answered? && HonestReply(content, resume, reply)
    && var r := reply.response;
       var start := if r.status == 206 && resume.Some? then resume.value else 0;
       && (r.status == 200 || r.status == 206) && start <= |content|
       && (r.contentLength.NoLength? || r.contentLength == Length(|content| - start))
       && Delivers(c, r.ticks, content[start..]) && r.extra == Data([]) && r.ending.Smooth?
  }

  // ---------------------------------------------------------------------------------------
  // The read loop

  lemma {:induction false} FaithfulPump(c: Call, content: Bytes, ticks: seq<Tick>, file: Bytes, hashed: Bytes,
                                            body: Bytes)
    requires |content| == c.expected && file + body == content && Faithful(ticks, body)
    ensures var p := Pump(c, ticks, file, hashed);
            p.file <= content && !p.stop.Overflow? && (p.stop.Full? ==> p.file == content)
    decreases |ticks|
  {
    if |file| < c.expected && ticks != [] {
      var t := ticks[0];
      if t.read.TimedOut? {
        FaithfulPump(c, content, ticks[1..], file, hashed, body);
      } else if t.read.Data? && t.read.block != [] {
        var block := t.read.block;
        assert body == block + body[|block|..];
        assert file + block + body[|block|..] == content;
        FaithfulPump(c, content, ticks[1..], file + block, hashed + block, body[|block|..]);
      }
    }
  }

  lemma {:induction false} DeliveredPump(c: Call, ticks: seq<Tick>, file: Bytes, hashed: Bytes, body: Bytes)
    requires |file| + |body| == c.expected && Delivers(c, ticks, body)
    ensures Pump(c, ticks, file, hashed) == Pumped(Full, file + body, hashed + body)
    decreases |ticks|
  {
    if body == [] {
      assert file + body == file && hashed + body == hashed;
    } else {
      var t := ticks[0];
      if t.read.TimedOut? {
        DeliveredPump(c, ticks[1..], file, hashed, body);
      } else {
        var block := t.read.block;
        DeliveredPump(c, ticks[1..], file + block, hashed + block, body[|block|..]);
        assert body == block + body[|block|..];
        assert file + block + body[|block|..] == file + body;
        assert hashed + block + body[|block|..] == hashed + body;
      }
    }
  }

  // ---------------------------------------------------------------------------------------
  // One attempt

  /** The partial file is absent or a prefix of the content. */
  predicate PrefixDisk(content: Bytes, disk: Disk) {
    disk.partial.Some? ==> disk.partial.value <= content
  }

  /** If this attempt resumes, the partial file is at least as long as was measured. */
  predicate MeasuredWithin(c: Call, url: string, disk: Disk, already: nat) {
    ResumeFrom(c, url, disk, already).Some? ==> disk.partial.Some? && already <= |disk.partial.value|
  }

  lemma AttemptKeepsPrefix(c: Call, sha: Sha, content: Bytes, cand: Candidate, disk: Disk, already: nat)
    requires |content| == c.expected && Honest(content, cand)
    requires PrefixDisk(content, disk) && MeasuredWithin(c, cand.url, disk, already)
    ensures PrefixDisk(content, FetchOne(c, sha, cand, disk, already).1)
  {
    var resume := ResumeFrom(c, cand.url, disk, already);
    assert HonestReply(content, resume, cand.serve(resume));
    if cand.https && cand.serve(resume).Answered? && c.usePartial {
      var r := cand.serve(resume).response;
      var on := AfterHead(resume, r, AfterPlan(c, cand.url, disk, already));
      if StartOf(c, resume, r).Ok? {
        var start := StartOf(c, resume, r).value;
        var (file, hashed) := Prepared(c, resume, start, on);
        if start > 0 {
          assert file == content[..start];
          assert content[..start] + content[start..] == content;
        } else {
          assert file + content == content && content[0..] == content;
        }
        FaithfulPump(c, content, r.ticks, file, hashed, content[start..]);
      }
    }
  }

  /** An uninterrupted attempt that does not resume succeeds. */
  lemma FreshAttemptCompletes(c: Call, sha: Sha, content: Bytes, cand: Candidate, disk: Disk, already: nat)
    requires Pins(c, sha, content) && cand.https
    requires var resume := ResumeFrom(c, cand.url, disk, already);
             && Uninterrupted(c, content, resume, cand.serve(resume))
             && (resume.None? || cand.serve(resume).response.status == 200)
    ensures FetchOne(c, sha, cand, disk, already).0 == Done
  {
    var resume := ResumeFrom(c, cand.url, disk, already);
    var r := cand.serve(resume).response;
    assert content[0..] == content && [] + content == content;
    DeliveredPump(c, r.ticks, [], [], content);
  }

  /**
   The exact condition for a resumed attempt: against an uninterrupted honest server it succeeds
   if and only if the partial file is the content up to the offset that was measured. A measurement
   left over from before another candidate fails it, in either direction.
   */
  lemma ResumedAttemptCompletesExactly(c: Call, sha: Sha, content: Bytes, cand: Candidate, disk: Disk, already: nat)
    requires Pins(c, sha, content) && cand.https
    requires var resume := ResumeFrom(c, cand.url, disk, already);
             && resume.Some? && Uninterrupted(c, content, resume, cand.serve(resume))
             && cand.serve(resume).response.status == 206
    ensures FetchOne(c, sha, cand, disk, already).0 == Done <==> disk.partial == Some(content[..already])
    ensures FetchOne(c, sha, cand, disk, already).0 != Done ==>
              FetchOne(c, sha, cand, disk, already) == (Failed(DigestMismatch), disk.DeletePartial())
  {
    var r := cand.serve(Some(already)).response;
    var (file, hashed) := Prepared(c, Some(already), already, disk);
    DeliveredPump(c, r.ticks, file, hashed, content[already..]);
    assert |file + content[already..]| == c.expected;
    if sha(hashed + content[already..]) == c.sha256 {
      assert |hashed| == already;
      assert hashed == (hashed + content[already..])[..already];
    }
    assert content[..already] + content[already..] == content;
  }

  // ---------------------------------------------------------------------------------------
  // Sequences of calls

  /** One call of fetch_exact on the one URL: its polls, its server, and the free space it meets. */
  datatype Attempt = Attempt(hasCancel: bool, hasDeadline: bool, cand: Candidate, free: Option<int>, installed: int)

  function CallOf(c: Call, a: Attempt): Call {
    c.(hasCancel := a.hasCancel, hasDeadline := a.hasDeadline)
  }

  function FetchOnce(c: Call, sha: Sha, a: Attempt, disk: Disk): (Outcome, Disk) {
    FetchExact(c.expected, CallOf(c, a), sha, [a.cand], disk, a.free, a.installed)
  }

  /** The disk after a sequence of calls, each ending as it may. */
  function AfterCalls(c: Call, sha: Sha, calls: seq<Attempt>, disk: Disk): Disk {
    if calls == [] then disk
    else FetchOnce(c, sha, calls[|calls| - 1], AfterCalls(c, sha, calls[..|calls| - 1], disk)).1
  }

  lemma CallKeepsPrefix(c: Call, sha: Sha, content: Bytes, a: Attempt, disk: Disk)
    requires |content| == c.expected && Honest(content, a.cand) && PrefixDisk(content, disk)
    ensures PrefixDisk(content, FetchOnce(c, sha, a, disk).1)
  {
    var call := CallOf(c, a);
    AttemptKeepsPrefix(call, sha, content, a.cand, Cleared(call, disk), Already(call, disk));
    var (outcome, after) := FetchOne(call, sha, a.cand, Cleared(call, disk), Already(call, disk));
    hide FetchOne;
    assert TryAll(call, sha, [a.cand][1..], after, Already(call, disk),
                  if outcome.Failed? then outcome.kind else Offline).1 == after;
  }

  /**
   Over any sequence of calls against an upstream that serves the content, each cancelled, late,
   broken, refused or killed at any point, the partial file is absent or a prefix of the content.
   */
  lemma {:induction false} PartialIsAlwaysAPrefix(c: Call, sha: Sha, content: Bytes, calls: seq<Attempt>, disk: Disk)
    requires |content| == c.expected && PrefixDisk(content, disk)
    requires forall a | a in calls :: Honest(content, a.cand)
    ensures PrefixDisk(content, AfterCalls(c, sha, calls, disk))
  {
    if calls != [] {
      PartialIsAlwaysAPrefix(c, sha, content, calls[..|calls| - 1], disk);
      CallKeepsPrefix(c, sha, content, calls[|calls| - 1], AfterCalls(c, sha, calls[..|calls| - 1], disk));
    }
  }

  /** Nothing stands in the way of this call: it is asked on the disk it finds. */
  predicate Unhindered(c: Call, content: Bytes, a: Attempt, disk: Disk) {
    var call := CallOf(c, a);
    var resume := ResumeFrom(call, a.cand.url, Cleared(call, disk), Already(call, disk));
    && a.cand.https && !(a.hasCancel && a.cand.cancelled) && !(a.hasDeadline && a.cand.late)
    && a.free.Some? && a.free.value >= Need(call, Already(call, disk), a.installed)
    && Uninterrupted(call, content, resume, a.cand.serve(resume))
  }

  /** And then a call that is not interrupted completes, exactly as a fresh download would. */
  lemma UninterruptedCallCompletes(c: Call, sha: Sha, content: Bytes, calls: seq<Attempt>, disk: Disk, a: Attempt)
    requires Pins(c, sha, content) && IsSha256(c.sha256) && PrefixDisk(content, disk)
    requires forall b | b in calls :: Honest(content, b.cand)
    requires Unhindered(c, content, a, AfterCalls(c, sha, calls, disk))
    ensures var (outcome, after) := FetchOnce(c, sha, a, AfterCalls(c, sha, calls, disk));
            outcome == Done && after.destination == Some(content)
  {
    PartialIsAlwaysAPrefix(c, sha, content, calls, disk);
    var now, call := AfterCalls(c, sha, calls, disk), CallOf(c, a);
    var on, already := Cleared(call, now), Already(call, now);
    var resume := ResumeFrom(call, a.cand.url, on, already);
    if resume.Some? && a.cand.serve(resume).response.status == 206 {
      assert on.partial.value == content[..already];
      ResumedAttemptCompletesExactly(call, sha, content, a.cand, on, already);
    } else {
      FreshAttemptCompletes(call, sha, content, a.cand, on, already);
    }
    FetchIsExact(c.expected, call, sha, content, [a.cand], now, a.free, a.installed);
  }

  // ---------------------------------------------------------------------------------------
  // Several candidates: what the one measurement before the loop costs

  /** Unless the candidate's URL was tried before, a matching sidecar means an untouched partial file. */
  predicate UntouchedIfMatching(c: Call, url: string, partial: Option<Bytes>, disk: Disk) {
    Matches(c, url, disk.sidecar) ==> disk.partial == partial
  }

  lemma OtherUrlKeepsUntouched(c: Call, sha: Sha, cand: Candidate, disk: Disk, already: nat, url: string,
                               partial: Option<Bytes>)
    requires MayResume(c, already) && cand.url != url
    requires UntouchedIfMatching(c, url, partial, disk)
    ensures UntouchedIfMatching(c, url, partial, FetchOne(c, sha, cand, disk, already).1)
  {
  }

  /** Candidates that have other URLs leave the last one a usable partial file, or none to resume. */
  lemma {:induction false} OtherUrlsKeepUntouched(c: Call, sha: Sha, cands: seq<Candidate>, disk: Disk, already: nat,
                                                  last: Kind, url: string, partial: Option<Bytes>)
    requires MayResume(c, already) && forall cand | cand in cands :: cand.url != url
    requires UntouchedIfMatching(c, url, partial, disk)
    ensures UntouchedIfMatching(c, url, partial, TryAll(c, sha, cands, disk, already, last).1)
  {
    if cands != [] && !(c.hasCancel && cands[0].cancelled) && !(c.hasDeadline && cands[0].late) {
      OtherUrlKeepsUntouched(c, sha, cands[0], disk, already, url, partial);
      var (outcome, next) := FetchOne(c, sha, cands[0], disk, already);
      hide FetchOne, UntouchedIfMatching;
      if outcome.Failed? && !Final(outcome.kind) {
        OtherUrlsKeepUntouched(c, sha, cands[1..], next, already, outcome.kind, url, partial);
      }
    }
  }

  /** All candidates were tried and failed in a way that goes on to the next one. */
  predicate Exhausts(c: Call, sha: Sha, cands: seq<Candidate>, disk: Disk, already: nat)
  {
    cands == [] ||
    (&& !(c.hasCancel && cands[0].cancelled) && !(c.hasDeadline && cands[0].late)
     && var (outcome, next) := FetchOne(c, sha, cands[0], disk, already);
        outcome.Failed? && !Final(outcome.kind) && Exhausts(c, sha, cands[1..], next, already))
  }

  lemma {:induction false} ThenTheLast(c: Call, sha: Sha, cands: seq<Candidate>, cand: Candidate, disk: Disk,
                                       already: nat, last: Kind)
    requires Exhausts(c, sha, cands, disk, already)
    requires !(c.hasCancel && cand.cancelled) && !(c.hasDeadline && cand.late)
    ensures var now := TryAll(c, sha, cands, disk, already, last).1;
            var (outcome, after) := FetchOne(c, sha, cand, now, already);
            TryAll(c, sha, cands + [cand], disk, already, last) == (outcome, after)
  {
    if cands == [] {
      assert [] + [cand] == [cand];
      var (outcome, after) := FetchOne(c, sha, cand, disk, already);
      hide FetchOne;
      if outcome.Failed? && !Final(outcome.kind) {
        assert TryAll(c, sha, [cand][1..], after, already, outcome.kind) == (Failed(outcome.kind), after);
      }
    } else {
      var (outcome, next) := FetchOne(c, sha, cands[0], disk, already);
      ThenTheLast(c, sha, cands[1..], cand, next, already, outcome.kind);
      hide FetchOne;
      assert (cands + [cand])[1..] == cands[1..] + [cand];
    }
  }

  /** The last candidate, when the others are exhausted, finds an honest server and is not interrupted. */
  predicate LastUnhindered(c: Call, sha: Sha, content: Bytes, front: seq<Candidate>, cand: Candidate, disk: Disk) {
    var already := Already(c, disk);
    var now := TryAll(c, sha, front, Cleared(c, disk), already, Offline).1;
    var resume := ResumeFrom(c, cand.url, now, already);
    && Exhausts(c, sha, front, Cleared(c, disk), already)
    && cand.https && !(c.hasCancel && cand.cancelled) && !(c.hasDeadline && cand.late)
    && Uninterrupted(c, content, resume, cand.serve(resume))
  }

  /** An uninterrupted last candidate with a URL of its own always completes the download. */
  lemma FreshUrlCompletes(c: Call, sha: Sha, content: Bytes, front: seq<Candidate>, cand: Candidate, disk: Disk)
    requires Pins(c, sha, content) && PrefixDisk(content, disk)
    requires LastUnhindered(c, sha, content, front, cand, disk)
    requires forall other | other in front :: other.url != cand.url
    ensures TryAll(c, sha, front + [cand], Cleared(c, disk), Already(c, disk), Offline).0 == Done
  {
    var already, cleared := Already(c, disk), Cleared(c, disk);
    var now := TryAll(c, sha, front, cleared, already, Offline).1;
    var resume := ResumeFrom(c, cand.url, now, already);
    ThenTheLast(c, sha, front, cand, cleared, already, Offline);
    if resume.Some? && cand.serve(resume).response.status == 206 {
      OtherUrlsKeepUntouched(c, sha, front, cleared, already, Offline, cand.url, disk.partial);
      assert now.partial == disk.partial && disk.partial.value == content[..already];
      hide TryAll;
      ResumedAttemptCompletesExactly(c, sha, content, cand, now, already);
    } else {
      hide TryAll;
      FreshAttemptCompletes(c, sha, content, cand, now, already);
    }
  }

  // A repeated URL: its first attempt breaks off and leaves a longer partial file and a matching
  // sidecar; its second resumes from the offset measured before the first.

  function Refuses(url: string): Candidate {
    Candidate(url, false, false, false, resume => Refused(Tls))
  }

  function RefuseAll(urls: seq<string>): seq<Candidate> {
    if urls == [] then [] else [Refuses(urls[0])] + RefuseAll(urls[1..])
  }

  function Serves(block: Bytes, status: int, range: RangeHeader, more: seq<Tick>): Reply {
    Answered(Response(status, range, NoLength, "", "",
                      [Tick(false, false, Data(block), false, false)] + more, Data([]), Smooth))
  }

  /** Delivers the second byte of the content and then breaks. */
  function BreaksOff(url: string, content: Bytes): Candidate
    requires |content| > 2
  {
    Candidate(url, true, false, false, (resume: Option<nat>) =>
      if resume == Some(1) then
        Serves(content[1..2], 206, Range(1, |content|), [Tick(false, false, Broken, false, false)])
      else Refused(Offline))
  }

  /** Delivers whatever is asked for in one block. */
  function Delivering(url: string, content: Bytes): Candidate {
    Candidate(url, true, false, false, (resume: Option<nat>) =>
      if resume.None? then Serves(content, 200, NoRange, [])
      else if resume.value < |content| then
        Serves(content[resume.value..], 206, Range(resume.value, |content|), [])
      else Refused(HttpStatus(416)))
  }

  lemma HonestExamples(url: string, content: Bytes)
    requires |content| > 2
    ensures Honest(content, Refuses(url)) && Honest(content, BreaksOff(url, content))
    ensures Honest(content, Delivering(url, content))
  {
    var broken := [Tick(false, false, Data(content[1..2]), false, false), Tick(false, false, Broken, false, false)];
    assert content[1..2] <= content[1..];
    assert broken[1..][1..] == [];
    assert Faithful(broken, content[1..]);
    forall resume: Option<nat>
      ensures HonestReply(content, resume, BreaksOff(url, content).serve(resume))
    {
    }
    forall resume: Option<nat>
      ensures HonestReply(content, resume, Delivering(url, content).serve(resume))
    {
      var body := if resume.Some? && resume.value < |content| then content[resume.value..] else content;
      var ticks := [Tick(false, false, Data(body), false, false)];
      assert ticks[1..] == [];
      assert Faithful(ticks, body);
      assert ticks + [] == ticks;
    }
  }

  lemma {:induction false} RefuseAllExhausts(c: Call, sha: Sha, urls: seq<string>, disk: Disk, already: nat, last: Kind)
    ensures Exhausts(c, sha, RefuseAll(urls), disk, already)
    ensures TryAll(c, sha, RefuseAll(urls), disk, already, last).1 == disk
  {
    if urls != [] {
      RefuseAllExhausts(c, sha, urls[1..], disk, already, Tls);
      assert RefuseAll(urls)[1..] == RefuseAll(urls[1..]);
    }
  }

  lemma {:induction false} ExhaustsConcat(c: Call, sha: Sha, a: seq<Candidate>, b: seq<Candidate>, disk: Disk,
                                          already: nat, last: Kind, lastB: Kind)
    requires Exhausts(c, sha, a, disk, already)
    requires Exhausts(c, sha, b, TryAll(c, sha, a, disk, already, last).1, already)
    ensures Exhausts(c, sha, a + b, disk, already)
    ensures TryAll(c, sha, a + b, disk, already, last).1
         == TryAll(c, sha, b, TryAll(c, sha, a, disk, already, last).1, already, lastB).1
  {
    if a == [] {
      assert a + b == b;
      LastKindOnly(c, sha, b, disk, already, last, lastB);
    } else {
      var (outcome, next) := FetchOne(c, sha, a[0], disk, already);
      hide FetchOne;
      ExhaustsConcat(c, sha, a[1..], b, next, already, outcome.kind, lastB);
      assert (a + b)[1..] == a[1..] + b;
    }
  }

  lemma LastKindOnly(c: Call, sha: Sha, cands: seq<Candidate>, disk: Disk, already: nat, last: Kind, last': Kind)
    ensures TryAll(c, sha, cands, disk, already, last).1 == TryAll(c, sha, cands, disk, already, last').1
  {
  }

  /** The disk of an interrupted first call: one byte, and a sidecar for the URL. */
  function OneByte(c: Call, url: string, content: Bytes): Disk
    requires |content| > 2
  {
    Disk(Some(content[..1]), Some(Sidecar(url, c.expected, c.sha256, "", "")), None, None)
  }

  lemma BreakOffGrows(c: Call, sha: Sha, content: Bytes, url: string)
    requires |content| == c.expected && c.usePartial && c.expected >= RESUME_MIN_BYTES
    ensures FetchOne(c, sha, BreaksOff(url, content), OneByte(c, url, content), 1)
         == (Failed(Offline), OneByte(c, url, content).(partial := Some(content[..2])))
  {
    var disk := OneByte(c, url, content);
    var r := BreaksOff(url, content).serve(Some(1)).response;
    assert StartOf(c, Some(1), r) == Ok(1);
    assert content[..1][..1] == content[..1];
    assert Prepared(c, Some(1), 1, disk) == (content[..1], content[..1]);
    assert content[..1] + content[1..2] == content[..2];
    assert r.ticks[0].read == Data(content[1..2]) && r.ticks[1..][0].read == Broken;
    assert Pump(c, r.ticks, content[..1], content[..1]) == Pumped(Keep(Offline), content[..2], content[..2]);
  }

  /** Whatever URLs stand around it, a repeated URL can make an honest, uninterrupted download fail. */
  lemma RepeatedUrlRefuses(c: Call, sha: Sha, content: Bytes, urls: seq<string>, i: nat, url: string)
    returns (front: seq<Candidate>, disk: Disk)
    requires Pins(c, sha, content) && c.usePartial && c.expected >= RESUME_MIN_BYTES
    requires i < |urls| && urls[i] == url
    ensures |front| == |urls| && forall j | 0 <= j < |urls| :: front[j].url == urls[j] && Honest(content, front[j])
    ensures PrefixDisk(content, disk)
    ensures LastUnhindered(c, sha, content, front, Delivering(url, content), disk)
    ensures TryAll(c, sha, front + [Delivering(url, content)], Cleared(c, disk), Already(c, disk), Offline).0
         == Failed(DigestMismatch)
  {
    var cand := Delivering(url, content);
    disk := OneByte(c, url, content);
    var before, broken, after := RefuseAll(urls[..i]), BreaksOff(url, content), RefuseAll(urls[i + 1..]);
    front := before + [broken] + after;
    RefuseAllUrls(content, urls[..i]);
    RefuseAllUrls(content, urls[i + 1..]);
    HonestExamples(url, content);
    forall j | 0 <= j < |urls| ensures front[j].url == urls[j] && Honest(content, front[j]) {
      if j > i { assert front[j] == after[j - i - 1]; }
    }
    var grown := disk.(partial := Some(content[..2]));
    assert Already(c, disk) == 1 && Cleared(c, disk) == disk;
    FrontGrows(c, sha, content, urls, i, url);
    LastResumes(c, content, url, grown);
    assert LastUnhindered(c, sha, content, front, cand, disk) by {
      hide TryAll, Exhausts, Uninterrupted, Delivering;
    }
    hide TryAll, Exhausts, Uninterrupted;
    ThenTheLast(c, sha, front, cand, disk, 1, Offline);
    assert content[..2] != content[..1];
    ResumedAttemptCompletesExactly(c, sha, content, cand, grown, 1);
  }

  lemma {:induction false} RefuseAllUrls(content: Bytes, urls: seq<string>)
    ensures |RefuseAll(urls)| == |urls|
    ensures forall j | 0 <= j < |urls| :: RefuseAll(urls)[j].url == urls[j] && Honest(content, RefuseAll(urls)[j])
  {
    if urls != [] {
      RefuseAllUrls(content, urls[1..]);
      assert Honest(content, Refuses(urls[0]));
    }
  }

  lemma FrontGrows(c: Call, sha: Sha, content: Bytes, urls: seq<string>, i: nat, url: string)
    requires |content| == c.expected && c.usePartial && c.expected >= RESUME_MIN_BYTES
    requires i < |urls|
    ensures var front := RefuseAll(urls[..i]) + [BreaksOff(url, content)] + RefuseAll(urls[i + 1..]);
            var disk := OneByte(c, url, content);
            && Exhausts(c, sha, front, disk, 1)
            && TryAll(c, sha, front, disk, 1, Offline).1 == disk.(partial := Some(content[..2]))
  {
    var disk := OneByte(c, url, content);
    var grown := disk.(partial := Some(content[..2]));
    var before, broken, after := RefuseAll(urls[..i]), BreaksOff(url, content), RefuseAll(urls[i + 1..]);
    RefuseAllExhausts(c, sha, urls[..i], disk, 1, Offline);
    RefuseAllExhausts(c, sha, urls[i + 1..], grown, 1, Offline);
    BreakOffGrows(c, sha, content, url);
    hide FetchOne, OneByte, BreaksOff, RefuseAll;
    OneBroken(c, sha, broken, disk, grown);
    ExhaustsConcat(c, sha, before, [broken], disk, 1, Offline, Offline);
    ExhaustsConcat(c, sha, before + [broken], after, disk, 1, Offline, Offline);
  }

  lemma OneBroken(c: Call, sha: Sha, broken: Candidate, disk: Disk, grown: Disk)
    requires !broken.cancelled && !broken.late
    requires FetchOne(c, sha, broken, disk, 1) == (Failed(Offline), grown)
    ensures Exhausts(c, sha, [broken], disk, 1) && TryAll(c, sha, [broken], disk, 1, Offline).1 == grown
  {
  }

  lemma LastResumes(c: Call, content: Bytes, url: string, disk: Disk)
    requires |content| == c.expected && c.usePartial && c.expected >= RESUME_MIN_BYTES
    requires disk.sidecar == Some(Sidecar(url, c.expected, c.sha256, "", ""))
    ensures ResumeFrom(c, url, disk, 1) == Some(1)
    ensures Uninterrupted(c, content, Some(1), Delivering(url, content).serve(Some(1)))
    ensures Delivering(url, content).serve(Some(1)).response.status == 206
  {
  }

  /**
   The exact condition on a list of URLs with a resumable partial file: an uninterrupted last
   candidate completes the download on every disk an earlier call can leave, whatever its
   predecessors did, if and only if its URL is not one of theirs.
   */
  lemma CompletesExactlyWithoutRepetition(c: Call, sha: Sha, content: Bytes, urls: seq<string>, url: string)
    requires Pins(c, sha, content) && c.usePartial && c.expected >= RESUME_MIN_BYTES
    ensures (forall front: seq<Candidate>, cand: Candidate, disk: Disk |
               && |front| == |urls|
               && (forall j | 0 <= j < |urls| :: front[j].url == urls[j] && Honest(content, front[j]))
               && cand.url == url && PrefixDisk(content, disk) && LastUnhindered(c, sha, content, front, cand, disk) ::
               TryAll(c, sha, front + [cand], Cleared(c, disk), Already(c, disk), Offline).0 == Done)
            <==> url !in urls
  {
    if url in urls {
      var i :| 0 <= i < |urls| && urls[i] == url;
      var front, disk := RepeatedUrlRefuses(c, sha, content, urls, i, url);
      var cand := Delivering(url, content);
      assert TryAll(c, sha, front + [cand], Cleared(c, disk), Already(c, disk), Offline).0 != Done;
    } else {
      forall front: seq<Candidate>, cand: Candidate, disk: Disk |
          && |front| == |urls| && (forall j | 0 <= j < |urls| :: front[j].url == urls[j] && Honest(content, front[j]))
          && cand.url == url && PrefixDisk(content, disk) && LastUnhindered(c, sha, content, front, cand, disk)
        ensures TryAll(c, sha, front + [cand], Cleared(c, disk), Already(c, disk), Offline).0 == Done
      {
        FreshUrlCompletes(c, sha, content, front, cand, disk);
      }
    }
  }
}
