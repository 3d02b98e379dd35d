/**
 The receipt checks of `_select_asset`: what an installer has checked when it is given a tree, when it builds,
 and when it publishes.
 */
module SelectReceipts {
  import opened Common
  import opened SelectAsset
  import InstallLock
  import AssetLock

  /** The three calls of `require_license`: at the start, under the lock, and before the selection. */
  type Check = n: nat | n < 3

  predicate AtCheck(n: Check, p: Phase) {
    match n
    case 0 => p.FirstRequire?
    case 1 => p.SecondRequire?
    case _ => p.ThirdRequire?
  }

  predicate PastThird(p: Phase) {
    p.Replacing() || p.UnderWay()
  }

  predicate PastSecond(p: Phase) {
    p.SecondReady? || p.Existing? || p.Populating? || p.Verifying? || p.ThirdRequire? || PastThird(p)
  }

  /** The attempt has passed the check and has not ended yet. */
  predicate Passed(n: Check, p: Phase) {
    match n
    case 0 => p.FirstReady? || p.Acquiring? || p.SecondRequire? || PastSecond(p)
    case 1 => PastSecond(p)
    case _ => PastThird(p)
  }

  lemma StepPastCheck(m: Manifest, s: Sys, e: Event, t: Tid, n: Check)
    requires Do(m, s, e).Some? && Passed(n, Do(m, s, e).value.Phase(t))
    ensures || Passed(n, s.Phase(t))
            || (e == Require(t) && AtCheck(n, s.Phase(t)) && s.covered)
  {
    if e.Lock? {
      LockStepPhase(s, e.e);
      hide DoLock;
    } else if e.Environment() || e.Thread() != t {
      OthersKeepPhase(m, s, e, t);
      hide Do;
    } else {
      OwnStepPastCheck(m, s, e, n);
      hide Do;
    }
  }

  lemma OwnStepPastCheck(m: Manifest, s: Sys, e: Event, n: Check)
    requires !e.Lock? && !e.Environment()
    requires Do(m, s, e).Some? && Passed(n, Do(m, s, e).value.Phase(e.t))
    ensures || Passed(n, s.Phase(e.t))
            || (e == Require(e.t) && AtCheck(n, s.Phase(e.t)) && s.covered)
  {
    hide DoLock;
  }

  /** An attempt that is past a check has passed it at an earlier step of its own, with the asset covered. */
  lemma {:induction false} CheckWasPassed(m: Manifest, schedule: seq<Event>, trace: seq<Sys>, k: nat, t: Tid, n: Check)
    returns (j: nat)
    requires IsRun(m, schedule, trace) && k <= |schedule| && Passed(n, trace[k].Phase(t))
    ensures j < k && schedule[j] == Require(t) && AtCheck(n, trace[j].Phase(t)) && trace[j].covered
    ensures forall i | j < i <= k :: Passed(n, trace[i].Phase(t))
  {
    hide Do, Passed, AtCheck;
    if k == 0 {
      NothingPassedAtFirst(trace[0], t, n);
    } else {
      StepPastCheck(m, trace[k - 1], schedule[k - 1], t, n);
      if Passed(n, trace[k - 1].Phase(t)) {
        j := CheckWasPassed(m, schedule, trace, k - 1, t, n);
      } else {
        j := k - 1;
      }
    }
  }

  lemma NothingPassedAtFirst(s: Sys, t: Tid, n: Check)
    requires Init(s)
    ensures !Passed(n, s.Phase(t))
  {
  }

  /** How many checks there are before the phase in which a return is decided. */
  function ChecksBefore(p: Phase): nat {
    if p.FirstReady? then 1 else if p.SecondReady? then 2 else 3
  }

  /**
   Nobody is given a tree without a receipt: a return was decided by one step that saw a verified tree, at the
   start, under the lock, or after the selection, and each check before that step was passed, in order and in
   the same attempt, while a receipt covered the asset.
   */
  lemma ReturnIsCovered(m: Manifest, schedule: seq<Event>, trace: seq<Sys>, k: nat, t: Tid)
    returns (i: nat, checks: seq<nat>)
    requires IsRun(m, schedule, trace) && k <= |schedule| && Ended(trace[k], t, Returned)
    ensures i < k && m.Verified(trace[i].dest) && (schedule[i] == Ready(t) || schedule[i] == Finish(t))
    ensures var p := trace[i].Phase(t);
      && (p.FirstReady? || p.SecondReady? || p.Finishing?) && |checks| == ChecksBefore(p)
    ensures forall n | i < n <= k :: Ended(trace[n], t, Returned)
    ensures forall n | 0 <= n < |checks| ::
              && checks[n] < i && schedule[checks[n]] == Require(t)
              && AtCheck(n, trace[checks[n]].Phase(t)) && trace[checks[n]].covered
              && forall x | checks[n] < x <= i :: Passed(n, trace[x].Phase(t))
    ensures forall a, b | 0 <= a < b < |checks| :: checks[a] < checks[b]
  {
    hide Do;
    i := OutcomeMeans(m, schedule, trace, k, t, Returned);
    assert Do(m, trace[i], schedule[i]) == Some(trace[i + 1]);
    ReturnIsDecidedAtALook(m, trace[i], schedule[i], t);
    var p := trace[i].Phase(t);
    var first := CheckWasPassed(m, schedule, trace, i, t, 0);
    checks := [first];
    if !p.FirstReady? {
      var second := CheckWasPassed(m, schedule, trace, i, t, 1);
      LaterCheck(trace, first, second, i, t, 0);
      checks := [first, second];
      if !p.SecondReady? {
        var third := CheckWasPassed(m, schedule, trace, i, t, 2);
        LaterCheck(trace, second, third, i, t, 1);
        checks := [first, second, third];
      }
    }
  }

  /** The later check comes after the earlier one, since the earlier was passed by then. */
  lemma LaterCheck(trace: seq<Sys>, a: nat, b: nat, k: nat, t: Tid, n: Check)
    requires n < 2 && a < k < |trace| && b < k
    requires AtCheck(n, trace[a].Phase(t)) && AtCheck(n + 1, trace[b].Phase(t))
    requires forall x | b < x <= k :: Passed(n + 1, trace[x].Phase(t))
    ensures a < b
  {
    assert forall x | b < x <= k :: Passed(n + 1, trace[x].Phase(t)) && !AtCheck(n, trace[x].Phase(t));
  }

  lemma ReturnIsDecidedAtALook(m: Manifest, s: Sys, e: Event, t: Tid)
    requires Do(m, s, e).Some? && (e == Ready(t) || e == Finish(t))
    ensures s.Phase(t).FirstReady? || s.Phase(t).SecondReady? || s.Phase(t).Finishing?
  {
  }

  /** Each check decides by the receipt alone: without one the attempt is refused, with one it goes on. */
  lemma CheckDecides(m: Manifest, s: Sys, t: Tid)
    requires Do(m, s, Require(t)).Some?
    ensures exists n: Check :: AtCheck(n, s.Phase(t))
    ensures var s' := Do(m, s, Require(t)).value;
      && s'.dest == s.dest && s'.lock == s.lock
      && (forall n: Check | AtCheck(n, s.Phase(t)) :: Passed(n, s'.Phase(t)) <==> s.covered)
      && (Ended(s', t, NotCovered) <==> !s.covered)
  {
    assert AtCheck(0, s.Phase(t)) || AtCheck(1, s.Phase(t)) || AtCheck(2, s.Phase(t));
  }

  /** So an attempt that ends as not covered has found no receipt at one of its checks, and did nothing after that. */
  lemma NotCoveredMeansNoReceipt(m: Manifest, schedule: seq<Event>, trace: seq<Sys>, k: nat, t: Tid)
    returns (i: nat, n: Check)
    requires IsRun(m, schedule, trace) && k <= |schedule| && Ended(trace[k], t, NotCovered)
    ensures i < k && schedule[i] == Require(t) && AtCheck(n, trace[i].Phase(t)) && !trace[i].covered
    ensures forall x | i < x <= k :: Ended(trace[x], t, NotCovered)
    ensures trace[i + 1].dest == trace[i].dest
  {
    hide Do, Ended;
    i := OutcomeMeans(m, schedule, trace, k, t, NotCovered);
    assert Do(m, trace[i], schedule[i]) == Some(trace[i + 1]);
    CheckDecides(m, trace[i], t);
    n :| AtCheck(n, trace[i].Phase(t));
  }

  // ---------------------------------------------------------------------------------------
  // Under the lock

  /** Whoever is at a step under the lock holds a lock file, and nobody else holds the same one. */
  ghost predicate LocksHeld(s: Sys) {
    forall t :: s.Phase(t).UnderLock() ==> s.lock.Pc(t).Inside?
  }

  lemma StepKeepsLocks(m: Manifest, s: Sys, e: Event)
    requires LocksHeld(s) && Do(m, s, e).Some?
    ensures LocksHeld(Do(m, s, e).value)
  {
    var s' := Do(m, s, e).value;
    forall t | s'.Phase(t).UnderLock() ensures s'.lock.Pc(t).Inside? {
      if e.Lock? {
        LockStepLocks(s, e.e, t);
      } else if e.Environment() || e.Thread() != t {
        OthersKeepPhase(m, s, e, t);
        OnlyLockStepsLock(m, s, e);
      } else {
        OwnStepUnderLock(m, s, e);
        OnlyLockStepsLock(m, s, e);
      }
      hide Do;
    }
  }

  lemma OnlyLockStepsLock(m: Manifest, s: Sys, e: Event)
    requires Do(m, s, e).Some? && !e.Lock?
    ensures Do(m, s, e).value.lock == s.lock
  {
  }

  lemma OwnStepUnderLock(m: Manifest, s: Sys, e: Event)
    requires Do(m, s, e).Some? && !e.Lock? && !e.Environment()
    requires Do(m, s, e).value.Phase(e.t).UnderLock()
    ensures s.Phase(e.t).UnderLock()
  {
    hide DoLock;
  }

  lemma LockStepLocks(s: Sys, l: InstallLock.Event, t: Tid)
    requires LocksHeld(s) && DoLock(s, l).Some? && DoLock(s, l).value.Phase(t).UnderLock()
    ensures DoLock(s, l).value.lock.Pc(t).Inside?
  {
    if t == l.t {
      assert s.Phase(t).UnderLock() ==> s.lock.Pc(t).Inside?;
    } else {
      LockStepPhase(s, l);
      assert s.Phase(t).UnderLock();
    }
  }

  /** In every run, with any number of installers. */
  lemma {:induction false} UnderLockHoldsLock(m: Manifest, schedule: seq<Event>, trace: seq<Sys>, k: nat)
    requires IsRun(m, schedule, trace) && k <= |schedule|
    ensures LocksHeld(trace[k])
  {
    if k > 0 {
      hide Do, LocksHeld;
      UnderLockHoldsLock(m, schedule, trace, k - 1);
      assert Do(m, trace[k - 1], schedule[k - 1]) == Some(trace[k]);
      StepKeepsLocks(m, trace[k - 1], schedule[k - 1]);
    } else {
      assert forall t :: trace[0].Phase(t).Outside?;
    }
  }
}
