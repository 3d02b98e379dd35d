/**
 Progress reports of a download, and why its read loop ends.

 The throttle keeps its last time in a list that it writes in place; 0.0 stands for "not yet".
 */
module Progress {
  import opened Common
  import opened Fetch

  const PERIOD: real := 0.25

  datatype Phase = Preflight | Connect | Download | Verify

  datatype Event = Event(phase: Phase, done: nat, total: nat)

  // ---------------------------------------------------------------------------------------
  // The throttle

  predicate Held(phase: Phase, last: real, now: real) {
    phase == Download && last != 0.0 && now - last < PERIOD
  }

  /**
   `_emit`, for a caller that wants reports. The kept time never goes back, and it changes only with a
   download report that passes.
   */
  method Emit(state: array<real>, now: real, event: Event, sent: seq<Event>) returns (log: seq<Event>)
    requires state.Length == 1
    modifies state
    ensures old(state[0]) <= now ==> old(state[0]) <= state[0] <= now
    ensures state[0] != old(state[0]) ==> event.phase == Download && log == sent + [event]
    ensures log == if Held(event.phase, old(state[0]), now) then sent else sent + [event]
    ensures state[0] == if event.phase == Download && !Held(Download, old(state[0]), now) then now else old(state[0])
  {
    log := sent;
    if event.phase == Download {
      if state[0] != 0.0 && now - state[0] < PERIOD { return; }
      state[0] := now;
    }
    log := log + [event];
  }

  /** The times at which download reports pass the throttle, for the times at which they are made. */
  function Passed(times: seq<real>, last: real): seq<real> {
    if times == [] then []
    else if Held(Download, last, times[0]) then Passed(times[1..], last)
    else [times[0]] + Passed(times[1..], times[0])
  }

  predicate Monotone(times: seq<real>) {
    forall i, j | 0 <= i <= j < |times| :: 0.0 <= times[i] <= times[j]
  }

  predicate Spaced(times: seq<real>) {
    forall i, j | 0 <= i < j < |times| :: times[j] - times[i] >= PERIOD
  }

  type Report = (real, Event)

  /** What a run sends of the reports that it makes, each with its time. */
  function Sent(reports: seq<Report>, last: real): seq<Report> {
    if reports == [] then []
    else
      var (now, event) := reports[0];
      if Held(event.phase, last, now) then Sent(reports[1..], last)
      else [reports[0]] + Sent(reports[1..], if event.phase == Download then now else last)
  }

  /** All reports of a run, with the last time kept in place. */
  method EmitAll(reports: seq<Report>) returns (sent: seq<Report>)
    ensures sent == Sent(reports, 0.0)
  {
    var state := new real[1][0.0];
    sent := [];
    for i := 0 to |reports|
      invariant sent + Sent(reports[i..], state[0]) == Sent(reports, 0.0)
    {
      var log := Emit(state, reports[i].0, reports[i].1, []);
      assert reports[i..][0] == reports[i] && reports[i..][1..] == reports[i + 1..];
      if log != [] {
        assert sent + ([reports[i]] + Sent(reports[i + 1..], state[0]))
            == (sent + [reports[i]]) + Sent(reports[i + 1..], state[0]);
        sent := sent + [reports[i]];
      }
    }
    assert reports[|reports|..] == [];
  }

  /** The times of the download reports, in order. */
  function DownloadTimes(reports: seq<Report>): seq<real> {
    if reports == [] then []
    else (if reports[0].1.phase == Download then [reports[0].0] else []) + DownloadTimes(reports[1..])
  }

  /** The reports of the other phases, in order. */
  function Others(reports: seq<Report>): seq<Report> {
    if reports == [] then []
    else (if reports[0].1.phase == Download then [] else [reports[0]]) + Others(reports[1..])
  }

  /** Other phases are never held back, and neither delay nor hasten a download report. */
  lemma {:induction false} PhasesAreIndependent(reports: seq<Report>, last: real)
    ensures Others(Sent(reports, last)) == Others(reports)
    ensures DownloadTimes(Sent(reports, last)) == Passed(DownloadTimes(reports), last)
  {
    if reports != [] {
      var (now, event) := reports[0];
      var rest := reports[1..];
      PhasesAreIndependent(rest, last);
      PhasesAreIndependent(rest, now);
      if event.phase == Download {
        assert DownloadTimes(reports)[1..] == DownloadTimes(rest);
      } else {
        assert DownloadTimes(reports) == DownloadTimes(rest);
      }
      if !Held(event.phase, last, now) {
        assert Sent(reports, last)[1..] == Sent(rest, if event.phase == Download then now else last);
      }
    }
  }

  /** After a report at a time other than 0.0, those that pass keep their distance from it and each other. */
  lemma {:induction false} PassedKeepsDistance(times: seq<real>, last: real)
    requires Monotone(times) && 0.0 < last && forall i | 0 <= i < |times| :: last <= times[i]
    ensures Spaced(Passed(times, last))
    ensures forall i | 0 <= i < |Passed(times, last)| :: Passed(times, last)[i] - last >= PERIOD
  {
    if times != [] {
      var rest := times[1..];
      assert forall i | 0 <= i < |rest| :: times[0] <= rest[i];
      if times[0] - last < PERIOD {
        PassedKeepsDistance(rest, last);
      } else {
        PassedKeepsDistance(rest, times[0]);
      }
    }
  }

  /**
   Download reports are a quarter of a second apart exactly if the clock does not read 0.0 at the
   first of them with a second one following sooner: a report at 0.0 is forgotten.
   */
  lemma SpacedExactly(times: seq<real>)
    requires Monotone(times)
    ensures Spaced(Passed(times, 0.0)) <==> |times| < 2 || times[0] > 0.0 || times[1] >= PERIOD
  {
    if times != [] {
      var rest := times[1..];
      assert forall i | 0 <= i < |rest| :: times[0] <= rest[i];
      PassedCons(times[0], rest, 0.0);
      if times[0] > 0.0 {
        PassedKeepsDistance(rest, times[0]);
        SpacedCons(times[0], Passed(rest, times[0]));
      } else if rest != [] {
        var after := rest[1..];
        assert forall i | 0 <= i < |after| :: rest[0] <= after[i];
        PassedCons(rest[0], after, 0.0);
        SpacedCons(0.0, [rest[0]] + Passed(after, rest[0]));
        if times[1] >= PERIOD {
          PassedKeepsDistance(after, rest[0]);
          SpacedCons(rest[0], Passed(after, rest[0]));
        }
      }
    }
  }

  /** So the promise of at most four reports a second is kept for downloads, under that condition on the clock. */
  lemma RunIsSpacedExactly(reports: seq<Report>)
    requires Monotone(DownloadTimes(reports))
    ensures var times := DownloadTimes(reports);
      Spaced(DownloadTimes(Sent(reports, 0.0))) <==> |times| < 2 || times[0] > 0.0 || times[1] >= PERIOD
  {
    PhasesAreIndependent(reports, 0.0);
    SpacedExactly(DownloadTimes(reports));
  }

  lemma PassedCons(first: real, rest: seq<real>, last: real)
    requires !Held(Download, last, first)
    ensures Passed([first] + rest, last) == [first] + Passed(rest, first)
  {
  }

  lemma SpacedCons(first: real, rest: seq<real>)
    ensures Spaced([first] + rest) <==> Spaced(rest) && forall i | 0 <= i < |rest| :: rest[i] - first >= PERIOD
  {
    var all := [first] + rest;
    if Spaced(all) {
      forall i, j | 0 <= i < j < |rest| ensures rest[j] - rest[i] >= PERIOD {
        assert all[i + 1] == rest[i] && all[j + 1] == rest[j];
      }
      forall i | 0 <= i < |rest| ensures rest[i] - first >= PERIOD {
        assert all[0] == first && all[i + 1] == rest[i];
      }
    }
  }

  // ---------------------------------------------------------------------------------------
  // What is reported

  /** The counts reported by the read loop, in order. */
  function Counts(c: Call, ticks: seq<Tick>, file: Bytes): seq<nat>
    decreases |ticks|
  {
    if |file| >= c.expected || ticks == [] then []
    else
      var t := ticks[0];
      if (c.hasCancel && t.cancelled) || (c.hasDeadline && t.late) then []
      else match t.read
        case TimedOut =>
          if (c.hasCancel && t.thenCancelled) || (c.hasDeadline && t.thenLate) then []
          else Counts(c, ticks[1..], file)
        case Data(block) =>
          if block == [] || |file| + |block| > c.expected then []
          else [|file| + |block|] + Counts(c, ticks[1..], file + block)
        case _ => []
  }

  /** Within one attempt the counts rise, from beyond its start to the length that the file has then. */
  lemma {:induction false} CountsRise(c: Call, ticks: seq<Tick>, file: Bytes, hashed: Bytes)
    ensures var counts := Counts(c, ticks, file);
      && (forall i | 0 <= i < |counts| :: |file| < counts[i] <= c.expected)
      && (forall i, j | 0 <= i < j < |counts| :: counts[i] < counts[j])
      && |Pump(c, ticks, file, hashed).file| == if counts == [] then |file| else counts[|counts| - 1]
    decreases |ticks|
  {
    if |file| < c.expected && ticks != [] {
      var t := ticks[0];
      match t.read
      case TimedOut =>
        CountsRise(c, ticks[1..], file, hashed);
      case Data(block) =>
        CountsRise(c, ticks[1..], file + block, hashed + block);
      case _ =>
    }
  }

  // ---------------------------------------------------------------------------------------
  // Why the read loop ends

  /** A server and a clock without end: every read, how long it takes, and the polls for cancellation. */
  datatype Endless = Endless(read: nat -> Read, takes: nat -> nat, cancelled: nat -> bool, thenCancelled: nat -> bool)

  /** A read that times out takes time. */
  ghost predicate TimePasses(e: Endless) {
    forall i: nat :: e.read(i).TimedOut? ==> e.takes(i) > 0
  }

  /** The rounds of the read loop from round `i` on, with `left` bytes to come, until one of them ends it. */
  ghost function Rounds(e: Endless, i: nat, left: nat, now: nat, deadline: nat): seq<Tick>
    requires TimePasses(e)
    decreases left, if now < deadline then deadline - now else 0
  {
    var later := now + e.takes(i);
    var t := Tick(e.cancelled(i), now >= deadline, e.read(i), e.thenCancelled(i), later >= deadline);
    match t.read
    case TimedOut => [t] + if later >= deadline then [] else Rounds(e, i + 1, left, later, deadline)
    case Data(block) =>
      [t] + if block == [] || |block| > left then [] else Rounds(e, i + 1, left - |block|, later, deadline)
    case _ => [t]
  }

  /** With a deadline the read loop ends by itself, whatever the server does. */
  lemma {:induction false} ReadLoopEnds(c: Call, e: Endless, i: nat, now: nat, deadline: nat, file: Bytes,
                                        hashed: Bytes)
    requires TimePasses(e) && c.hasDeadline && |file| <= c.expected
    ensures Pump(c, Rounds(e, i, c.expected - |file|, now, deadline), file, hashed).stop != Dead
    decreases c.expected - |file|, if now < deadline then deadline - now else 0
  {
    var rounds := Rounds(e, i, c.expected - |file|, now, deadline);
    var later := now + e.takes(i);
    match e.read(i)
    case TimedOut =>
      if later < deadline {
        ReadLoopEnds(c, e, i + 1, later, deadline, file, hashed);
        assert rounds[1..] == Rounds(e, i + 1, c.expected - |file|, later, deadline);
      }
    case Data(block) =>
      if block != [] && |file| + |block| <= c.expected {
        ReadLoopEnds(c, e, i + 1, later, deadline, file + block, hashed + block);
        assert rounds[1..] == Rounds(e, i + 1, c.expected - |file + block|, later, deadline);
      }
    case _ =>
  }
}
