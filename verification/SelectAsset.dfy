/**
 `Installer._select_asset`, with `_replace_stage` and `_withdraw_selection`, by any number of
 installers over the asset lock.

 Between any two steps the environment may grant or revoke the covering receipt, alter the
 staged tree of an installer, or change the destination. A tree is abstract; the manifest is a
 predicate on trees.
 */
module SelectAsset {
  import opened Common
  import InstallLock
  import AssetLock

  type Tid = InstallLock.Tid
  type Tree = nat

  /** What a path names: nothing, a directory tree, or a link or plain file. */
  datatype Entry = Absent | Tree(tree: Tree) | Odd

  datatype Manifest = Manifest(matches: Tree -> bool, empty: Tree -> bool) {
    predicate Verified(e: Entry) {
      e.Tree? && matches(e.tree)
    }
  }

  datatype Outcome = Returned | NotCovered | Mismatch | WontReplace | Failed | FinalRefused | NotWithdrawn

  datatype Phase =
    | Outside
    | FirstRequire
    | FirstReady
    | Acquiring
    | SecondRequire
    | SecondReady
    | Existing
    | Populating
    | Verifying(stage: Tree)
    | ThirdRequire(stage: Tree)
    | Looking(stage: Tree)      // _replace_stage: does the destination exist?
    | Renaming(stage: Tree)
    | Guarding(stage: Tree)     // it exists: is it a directory?
    | Exchanging(stage: Tree)
    | Removing(published: Tree) // the exchange is done, the superseded tree is not removed yet
    | Finishing(published: Tree)
    | Withdrawing(published: Tree)
    | Leaving(outcome: Outcome)
    | Done(outcome: Outcome)
  {
    predicate HasStage() {
      Verifying? || ThirdRequire? || Replacing()
    }

    /** In _replace_stage, before its tree is at the destination. */
    predicate Replacing() {
      Looking? || Renaming? || Guarding? || Exchanging?
    }

    predicate UnderLock() {
      SecondRequire? || SecondReady? || Existing? || Populating? || HasStage() || Removing? || Finishing?
      || Withdrawing?
    }

    /** Its tree is at the destination, or was put there, and the attempt has not ended yet. */
    predicate UnderWay() {
      Removing? || Finishing? || Withdrawing?
    }

    /** The destination was found absent under the lock; nothing has been published yet. */
    predicate FoundAbsent() {
      Populating? || HasStage()
    }

    function WithStage(x: Tree): Phase
      requires HasStage()
    {
      match this
      case Verifying(_) => Verifying(x)
      case ThirdRequire(_) => ThirdRequire(x)
      case Looking(_) => Looking(x)
      case Renaming(_) => Renaming(x)
      case Guarding(_) => Guarding(x)
      case Exchanging(_) => Exchanging(x)
    }
  }

  datatype Sys = Sys(lock: InstallLock.State, covered: bool, dest: Entry, phases: map<Tid, Phase>) {
    function Phase(t: Tid): Phase {
      if t in phases then phases[t] else Outside
    }

    function Goto(t: Tid, p: Phase): Sys {
      this.(phases := phases[t := p])
    }
  }

  datatype Event =
    | Start(t: Tid)
    | OwnerFails(t: Tid)   // the owner file cannot be written, once the lock is held
    | Require(t: Tid)
    | Ready(t: Tid)
    | ReadyFails(t: Tid)   // a check of the installed tree raises
    | Exists(t: Tid)
    | Populate(t: Tid, tree: Tree)
    | PopulateFails(t: Tid)
    | Verify(t: Tid)
    | VerifyFails(t: Tid)  // so does the check of the stage
    | Look(t: Tid)
    | Rename(t: Tid)
    | RenameFails(t: Tid)
    | Guard(t: Tid)
    | Exchange(t: Tid)
    | ExchangeFails(t: Tid)
    | Remove(t: Tid)
    | RemoveFails(t: Tid)
    | Finish(t: Tid)
    | FinishFails(t: Tid)  // and the final verification
    | Withdraw(t: Tid)
    | WithdrawFails(t: Tid, left: Tree)
    | Lock(e: InstallLock.Event)
    | AlterStage(t: Tid, tree: Tree)
    | Cover(now: bool)
    | AlterDest(entry: Entry)
  {
    predicate Environment() {
      Cover? || AlterDest?
    }

    function Thread(): Tid
      requires !Environment()
    {
      if Lock? then e.t else t
    }
  }

  function Do(m: Manifest, s: Sys, e: Event): Option<Sys> {
    match e
    case Cover(now) => Some(s.(covered := now))
    case AlterDest(entry) => Some(s.(dest := entry))
    case AlterStage(t, x) =>
      if s.Phase(t).HasStage() then Some(s.Goto(t, s.Phase(t).WithStage(x))) else None
    case Lock(l) => DoLock(s, l)
    case _ => DoInstall(m, s, e, s.Phase(e.t))
  }

  /** One step of `_select_asset` in the thread's phase `p`. */
  function DoInstall(m: Manifest, s: Sys, e: Event, p: Phase): Option<Sys>
    requires !e.Environment() && !e.Lock? && !e.AlterStage?
  {
    match e
    case Start(t) =>
      if p.Outside? || p.Done? then Some(s.Goto(t, FirstRequire)) else None
    case OwnerFails(t) =>
      if p.SecondRequire? then Some(s.Goto(t, Leaving(Failed))) else None
    case Require(t) =>
      if p.FirstRequire? then Some(s.Goto(t, if s.covered then FirstReady else Done(NotCovered)))
      else if p.SecondRequire? then Some(s.Goto(t, if s.covered then SecondReady else Leaving(NotCovered)))
      else if p.ThirdRequire? then Some(s.Goto(t, if s.covered then Looking(p.stage) else Leaving(NotCovered)))
      else None
    case Ready(t) =>
      if p.FirstReady? then Some(s.Goto(t, if m.Verified(s.dest) then Done(Returned) else Acquiring))
      else if p.SecondReady? then Some(s.Goto(t, if m.Verified(s.dest) then Leaving(Returned) else Existing))
      else None
    case ReadyFails(t) =>
      if p.FirstReady? then Some(s.Goto(t, Done(Failed)))
      else if p.SecondReady? then Some(s.Goto(t, Leaving(Failed)))
      else None
    case Exists(t) =>
      if p.Existing? then Some(s.Goto(t, if s.dest.Absent? then Populating else Leaving(WontReplace))) else None
    case Populate(t, x) =>
      if p.Populating? then Some(s.Goto(t, Verifying(x))) else None
    case PopulateFails(t) =>
      if p.Populating? then Some(s.Goto(t, Leaving(Failed))) else None
    case Verify(t) =>
      if p.Verifying? then Some(s.Goto(t, if m.matches(p.stage) then ThirdRequire(p.stage) else Leaving(Mismatch)))
      else None
    case VerifyFails(t) =>
      if p.Verifying? then Some(s.Goto(t, Leaving(Failed))) else None
    case Look(t) =>
      if p.Looking? then Some(s.Goto(t, if s.dest.Absent? then Renaming(p.stage) else Guarding(p.stage))) else None
    case Rename(t) =>
      if !p.Renaming? then None
      else if s.dest.Absent? || (s.dest.Tree? && m.empty(s.dest.tree)) then
        Some(s.(dest := Tree(p.stage)).Goto(t, Finishing(p.stage)))
      else if s.dest.Tree? then Some(s.Goto(t, Guarding(p.stage))) // EEXIST or ENOTEMPTY
      else Some(s.Goto(t, Leaving(Failed)))
    case RenameFails(t) =>
      if p.Renaming? then Some(s.Goto(t, Leaving(Failed))) else None
    case Guard(t) =>
      if p.Guarding? then Some(s.Goto(t, if s.dest.Tree? then Exchanging(p.stage) else Leaving(Failed))) else None
    case Exchange(t) =>
      if p.Exchanging? && !s.dest.Absent? then Some(s.(dest := Tree(p.stage)).Goto(t, Removing(p.stage))) else None
    case ExchangeFails(t) =>
      if p.Exchanging? then Some(s.Goto(t, Leaving(Failed))) else None
    case Remove(t) =>
      if p.Removing? then Some(s.Goto(t, Finishing(p.published))) else None
    case RemoveFails(t) =>
      if p.Removing? then Some(s.Goto(t, Leaving(Failed))) else None
    case Finish(t) =>
      if p.Finishing? then
        Some(s.Goto(t, if m.Verified(s.dest) then Leaving(Returned) else Withdrawing(p.published)))
      else None
    case FinishFails(t) =>
      // an OSError of the verification is no refusal of the tree, and nothing is withdrawn
      if p.Finishing? then Some(s.Goto(t, Leaving(Failed))) else None
    case Withdraw(t) =>
      // one step for all of `rmtree`: the trees that others may see meanwhile are not shown
      if p.Withdrawing? then Some(s.(dest := Absent).Goto(t, Leaving(FinalRefused))) else None
    case WithdrawFails(t, left) =>
      // removal stopped part way: some tree, or the whole of it, is still there
      if p.Withdrawing? && !s.dest.Absent? then
        Some(s.(dest := if s.dest.Tree? then Tree(left) else s.dest).Goto(t, Leaving(NotWithdrawn)))
      else None
  }

  /** The lock is taken while acquiring and given up while leaving; a kill may come at any time. */
  function DoLock(s: Sys, l: InstallLock.Event): Option<Sys> {
    var t, p := l.t, s.Phase(l.t);
    match AssetLock.DoAsset(s.lock, l)
    case None => None
    case Some(lock') =>
      var s', pc' := s.(lock := lock'), lock'.Pc(t);
      if l.Kill? then Some(s'.Goto(t, Outside))
      else if p.Acquiring? && (l.Enter? || l.Open? || l.OpenFails? || l.Flock?) then
        Some(if pc'.Inside? then s'.Goto(t, SecondRequire) else if pc'.Idle? then s'.Goto(t, Done(Failed)) else s')
      else if p.Leaving? && (l.Leave? || l.Unlink? || l.UnlinkFails? || l.Close?) then
        Some(if pc'.Idle? then s'.Goto(t, Done(p.outcome)) else s')
      else None
  }

  predicate Init(s: Sys) {
    InstallLock.Init(s.lock) && s.phases == map[]
  }

  /** The states that a schedule goes through; step k leads from trace[k] to trace[k + 1]. */
  ghost predicate Steps(m: Manifest, schedule: seq<Event>, trace: seq<Sys>) {
    && |trace| == |schedule| + 1
    && forall k | 0 <= k < |schedule| :: Do(m, trace[k], schedule[k]) == Some(trace[k + 1])
  }

  ghost predicate IsRun(m: Manifest, schedule: seq<Event>, trace: seq<Sys>) {
    Steps(m, schedule, trace) && Init(trace[0])
  }

  // ---------------------------------------------------------------------------------------
  // Every interleaving, no exclusion assumed

  /** The step puts thread t's staged tree at the destination. */
  predicate Publishes(m: Manifest, s: Sys, e: Event) {
    || (e.Rename? && s.Phase(e.t).Renaming? && (s.dest.Absent? || (s.dest.Tree? && m.empty(s.dest.tree))))
    || (e.Exchange? && s.Phase(e.t).Exchanging? && !s.dest.Absent?)
  }

  /** A lock step moves its own thread only, and only into the lock, out of it, or to its end. */
  lemma LockStepPhase(s: Sys, l: InstallLock.Event)
    requires DoLock(s, l).Some?
    ensures var s' := DoLock(s, l).value; s'.dest == s.dest && s'.covered == s.covered
    ensures forall u | u != l.t :: DoLock(s, l).value.Phase(u) == s.Phase(u)
    ensures var p, p' := s.Phase(l.t), DoLock(s, l).value.Phase(l.t);
      || p' == p || (l.Kill? && p'.Outside?)
      || (p.Acquiring? && (p'.SecondRequire? || p' == Done(Failed)))
      || (p.Leaving? && p' == Done(p.outcome))
  {
    hide AssetLock.DoAsset;
  }

  lemma StepIntoReplace(m: Manifest, s: Sys, e: Event, t: Tid)
    requires Do(m, s, e).Some?
    requires Do(m, s, e).value.Phase(t).Replacing()
    ensures var p, p' := s.Phase(t), Do(m, s, e).value.Phase(t);
            || (p.Replacing() && (p'.stage == p.stage || (e.AlterStage? && e.t == t)))
            || (e == Require(t) && p.ThirdRequire? && s.covered && p'.stage == p.stage)
  {
    if e.Lock? { LockStepPhase(s, e.e); }
    hide DoLock;
  }

  lemma StepIntoThirdRequire(m: Manifest, s: Sys, e: Event, t: Tid)
    requires Do(m, s, e).Some?
    requires Do(m, s, e).value.Phase(t).ThirdRequire?
    ensures var p, p' := s.Phase(t), Do(m, s, e).value.Phase(t);
            || (p.ThirdRequire? && (p'.stage == p.stage || (e.AlterStage? && e.t == t)))
            || (e == Verify(t) && p.Verifying? && m.matches(p.stage) && p'.stage == p.stage)
  {
    if e.Lock? { LockStepPhase(s, e.e); }
    hide DoLock;
  }

  /** Nobody touched thread t's staged tree in steps i to k. */
  predicate StageUntouched(schedule: seq<Event>, i: nat, k: nat, t: Tid)
    requires k <= |schedule|
  {
    forall n | i <= n < k :: !(schedule[n].AlterStage? && schedule[n].t == t)
  }

  /** A thread in _replace_stage passed the third receipt check, and has stayed there since. */
  lemma {:induction false} ReplaceAfterReceipt(m: Manifest, schedule: seq<Event>, trace: seq<Sys>, k: nat, t: Tid)
    returns (j: nat)
    requires IsRun(m, schedule, trace) && k <= |schedule|
    requires trace[k].Phase(t).Replacing()
    ensures j < k && schedule[j] == Require(t)
    ensures trace[j].Phase(t).ThirdRequire? && trace[j].covered
    ensures forall n | j < n <= k :: trace[n].Phase(t).Replacing()
    ensures StageUntouched(schedule, j, k, t) ==>
              trace[k].Phase(t).stage == trace[j].Phase(t).stage
  {
    hide Do;
    StepIntoReplace(m, trace[k - 1], schedule[k - 1], t);
    if trace[k - 1].Phase(t).Replacing() {
      j := ReplaceAfterReceipt(m, schedule, trace, k - 1, t);
    } else {
      j := k - 1;
    }
  }

  /** A thread at the third receipt check has just matched its stage with the manifest. */
  lemma {:induction false} ThirdRequireAfterMatch(m: Manifest, schedule: seq<Event>, trace: seq<Sys>, k: nat, t: Tid)
    returns (i: nat)
    requires IsRun(m, schedule, trace) && k <= |schedule|
    requires trace[k].Phase(t).ThirdRequire?
    ensures i < k && schedule[i] == Verify(t)
    ensures trace[i].Phase(t).Verifying? && m.matches(trace[i].Phase(t).stage)
    ensures forall n | i < n <= k :: trace[n].Phase(t).ThirdRequire?
    ensures StageUntouched(schedule, i, k, t) ==>
              trace[k].Phase(t).stage == trace[i].Phase(t).stage
  {
    hide Do;
    StepIntoThirdRequire(m, trace[k - 1], schedule[k - 1], t);
    if trace[k - 1].Phase(t).ThirdRequire? {
      i := ThirdRequireAfterMatch(m, schedule, trace, k - 1, t);
    } else {
      i := k - 1;
    }
  }

  /**
   Publication safety, in every interleaving and without any exclusion: when a staged tree is put
   at the destination, it matched the manifest at some earlier step i of the same attempt, and a
   receipt covered the asset at a step j after that. The published tree is the matched one unless
   the stage itself was altered in between.
   */
  lemma PublishedAfterMatchAndReceipt(m: Manifest, schedule: seq<Event>, trace: seq<Sys>, k: nat)
    returns (i: nat, j: nat)
    requires IsRun(m, schedule, trace) && k < |schedule|
    requires Publishes(m, trace[k], schedule[k])
    ensures i < j < k
    ensures var t := schedule[k].t;
            && trace[i].Phase(t).Verifying? && m.matches(trace[i].Phase(t).stage)
            && schedule[j] == Require(t) && trace[j].covered
            && (forall n | i < n <= k ::
                  trace[n].Phase(t).ThirdRequire? || trace[n].Phase(t).Replacing())
            && trace[k + 1].dest == Tree(trace[k].Phase(t).stage)
            && (StageUntouched(schedule, i, k, t) ==> m.Verified(trace[k + 1].dest))
  {
    var t := schedule[k].t;
    j := ReplaceAfterReceipt(m, schedule, trace, k, t);
    i := ThirdRequireAfterMatch(m, schedule, trace, j, t);
  }

  /**
   The destination changes only where a staged tree is published, by a rename over nothing or an empty
   directory or by an exchange with something, in a withdrawal, or by somebody else. A rename that finds more
   there replaces nothing, and goes on to the exchange if it is a directory.
   */
  lemma WhatReplaces(m: Manifest, s: Sys, e: Event)
    requires Do(m, s, e).Some?
    ensures var s' := Do(m, s, e).value;
      && (s'.dest != s.dest ==> Publishes(m, s, e) || e.AlterDest?
                                || ((e.Withdraw? || e.WithdrawFails?) && s.Phase(e.t).Withdrawing?))
      && (Publishes(m, s, e) ==> s'.Phase(e.t) == if e.Rename? then Finishing(s.Phase(e.t).stage)
                                                  else Removing(s.Phase(e.t).stage))
      && (e.Rename? && !Publishes(m, s, e) ==>
            s'.dest == s.dest && (s'.Phase(e.t).Guarding? <==> s.dest.Tree?)
            && (s'.Phase(e.t).Guarding? || s'.Phase(e.t) == Leaving(Failed)))
  {
    if e.Lock? { LockStepPhase(s, e.e); }
    hide DoLock;
  }

  /** A thread about to exchange has seen a directory at the destination, and has stayed there since. */
  lemma {:induction false} ExchangeAfterGuard(m: Manifest, schedule: seq<Event>, trace: seq<Sys>, k: nat, t: Tid)
    returns (j: nat)
    requires IsRun(m, schedule, trace) && k <= |schedule|
    requires trace[k].Phase(t).Exchanging?
    ensures j < k && schedule[j] == Guard(t)
    ensures trace[j].Phase(t).Guarding? && trace[j].dest.Tree?
    ensures forall n | j < n <= k :: trace[n].Phase(t).Exchanging?
  {
    hide Do;
    StepIntoExchanging(m, trace[k - 1], schedule[k - 1], t);
    if trace[k - 1].Phase(t).Exchanging? {
      j := ExchangeAfterGuard(m, schedule, trace, k - 1, t);
    } else {
      j := k - 1;
    }
  }

  lemma StepIntoExchanging(m: Manifest, s: Sys, e: Event, t: Tid)
    requires Do(m, s, e).Some?
    requires Do(m, s, e).value.Phase(t).Exchanging?
    ensures s.Phase(t).Exchanging? || (e == Guard(t) && s.Phase(t).Guarding? && s.dest.Tree?)
  {
    if e.Lock? { LockStepPhase(s, e.e); }
    hide DoLock;
  }

  /** So what is not a directory is replaced only if it took the place of one after that. */
  lemma NonDirectoryIsSpared(m: Manifest, schedule: seq<Event>, trace: seq<Sys>, k: nat)
    returns (j: nat)
    requires IsRun(m, schedule, trace) && k < |schedule|
    requires Publishes(m, trace[k], schedule[k]) && !trace[k].dest.Absent? && !trace[k].dest.Tree?
    ensures j < k && schedule[j] == Guard(schedule[k].t) && trace[j].dest.Tree?
    ensures exists n | j < n < k :: schedule[n].AlterDest?
  {
    var t := schedule[k].t;
    j := ExchangeAfterGuard(m, schedule, trace, k, t);
    var n := TurnsIntoOther(m, schedule, trace, j, k);
    assert schedule[j].Guard?;
  }

  lemma {:induction false} TurnsIntoOther(m: Manifest, schedule: seq<Event>, trace: seq<Sys>, j: nat, k: nat)
    returns (n: nat)
    requires Steps(m, schedule, trace) && j < k <= |schedule|
    requires trace[j].dest.Tree? && !trace[k].dest.Tree? && !trace[k].dest.Absent?
    ensures j <= n < k && schedule[n].AlterDest?
    decreases k
  {
    hide Do;
    assert Do(m, trace[k - 1], schedule[k - 1]) == Some(trace[k]);
    if schedule[k - 1].AlterDest? {
      n := k - 1;
    } else {
      StepIntoOther(m, trace[k - 1], schedule[k - 1]);
      n := TurnsIntoOther(m, schedule, trace, j, k - 1);
    }
  }

  lemma StepIntoOther(m: Manifest, s: Sys, e: Event)
    requires Do(m, s, e).Some? && !e.AlterDest?
    ensures var dest := Do(m, s, e).value.dest; !dest.Tree? && !dest.Absent? ==> dest == s.dest
  {
    if e.Lock? { LockStepPhase(s, e.e); }
    hide DoLock;
  }

  /** Only a withdrawal after a failed final check, or the environment, empties a present destination. */
  lemma DestinationNeverVanishes(m: Manifest, s: Sys, e: Event)
    requires Do(m, s, e).Some?
    requires !s.dest.Absent? && Do(m, s, e).value.dest.Absent?
    ensures e == AlterDest(Absent) || (e.Withdraw? && s.Phase(e.t).Withdrawing?)
  {
    if e.Lock? { LockStepPhase(s, e.e); }
    hide DoLock;
  }

  /**
   So once something is at the destination, it is never absent for a moment, however many installers
   replace it, unless one of them withdraws or somebody else removes it.
   */
  lemma {:induction false} DestinationStaysPresent(m: Manifest, schedule: seq<Event>, trace: seq<Sys>, k: nat, n: nat)
    requires Steps(m, schedule, trace) && k <= n <= |schedule| && !trace[k].dest.Absent?
    requires forall i | k <= i < n :: schedule[i] != AlterDest(Absent) && !schedule[i].Withdraw?
    ensures forall i | k <= i <= n :: !trace[i].dest.Absent?
  {
    hide Do;
    if k < n {
      DestinationStaysPresent(m, schedule, trace, k, n - 1);
      assert Do(m, trace[n - 1], schedule[n - 1]) == Some(trace[n]);
      if trace[n].dest.Absent? { DestinationNeverVanishes(m, trace[n - 1], schedule[n - 1]); }
    }
  }

  lemma StepIntoWithdrawing(m: Manifest, s: Sys, e: Event, t: Tid)
    requires Do(m, s, e).Some?
    requires Do(m, s, e).value.Phase(t).Withdrawing?
    ensures s.Phase(t).Withdrawing? || (e == Finish(t) && s.Phase(t).Finishing? && !m.Verified(s.dest))
  {
    if e.Lock? { LockStepPhase(s, e.e); }
    hide DoLock;
  }

  /** Thread t has ended its attempt with this outcome. */
  predicate Ended(s: Sys, t: Tid, outcome: Outcome) {
    s.Phase(t) == Leaving(outcome) || s.Phase(t) == Done(outcome)
  }

  /** What the step from s to s' must have been, to end the attempt of thread t this way. */
  predicate Decides(m: Manifest, s: Sys, e: Event, s': Sys, t: Tid, outcome: Outcome) {
    match outcome
    case Returned => s'.dest == s.dest && m.Verified(s.dest) && (e == Ready(t) || e == Finish(t))
    case FinalRefused => e == Withdraw(t) && s.Phase(t).Withdrawing? && s'.dest.Absent?
    case NotWithdrawn => e.WithdrawFails? && e.t == t && s.Phase(t).Withdrawing? && !s'.dest.Absent?
    case WontReplace => e == Exists(t) && s'.dest == s.dest && !s.dest.Absent?
    case Mismatch => e == Verify(t) && s'.dest == s.dest && s.Phase(t).Verifying? && !m.matches(s.Phase(t).stage)
    case NotCovered => e == Require(t) && s'.dest == s.dest && !s.covered
    case Failed =>
      s'.dest == s.dest && (s.Phase(t).UnderWay() ==>
        (e == RemoveFails(t) && s.Phase(t).Removing?) || (e == FinishFails(t) && s.Phase(t).Finishing?))
  }

  lemma StepIntoOutcome(m: Manifest, s: Sys, e: Event, t: Tid, outcome: Outcome)
    requires Do(m, s, e).Some?
    requires Ended(Do(m, s, e).value, t, outcome)
    ensures Ended(s, t, outcome) || Decides(m, s, e, Do(m, s, e).value, t, outcome)
  {
    if e.Lock? {
      LockStepIntoOutcome(s, e.e, t, outcome);
    } else if !e.Environment() && !e.AlterStage? {
      InstallStepIntoOutcome(m, s, e, t, outcome);
    }
  }

  lemma InstallStepIntoOutcome(m: Manifest, s: Sys, e: Event, t: Tid, outcome: Outcome)
    requires !e.Environment() && !e.Lock? && !e.AlterStage?
    requires DoInstall(m, s, e, s.Phase(e.t)).Some?
    requires Ended(DoInstall(m, s, e, s.Phase(e.t)).value, t, outcome)
    ensures Ended(s, t, outcome) || Decides(m, s, e, DoInstall(m, s, e, s.Phase(e.t)).value, t, outcome)
  {
    hide DoInstall, Decides;
    if t == e.t {
      OwnStepIntoOutcome(m, s, e, outcome);
    } else {
      OthersKeepPhase(m, s, e, t);
    }
  }

  lemma OwnStepIntoOutcome(m: Manifest, s: Sys, e: Event, outcome: Outcome)
    requires !e.Environment() && !e.Lock? && !e.AlterStage?
    requires DoInstall(m, s, e, s.Phase(e.t)).Some?
    requires Ended(DoInstall(m, s, e, s.Phase(e.t)).value, e.t, outcome)
    ensures Decides(m, s, e, DoInstall(m, s, e, s.Phase(e.t)).value, e.t, outcome)
  {
    if outcome.Failed? { OwnStepIntoFailure(m, s, e); }
    else if outcome.NotCovered? || outcome.Mismatch? || outcome.WontReplace? { OwnStepIntoRefusal(m, s, e, outcome); }
    else if outcome.Returned? { OwnStepIntoReturn(m, s, e); }
    else { OwnStepIntoEnd(m, s, e, outcome); }
    hide DoInstall, Decides;
  }

  lemma OwnStepIntoFailure(m: Manifest, s: Sys, e: Event)
    requires !e.Environment() && !e.Lock? && !e.AlterStage?
    requires DoInstall(m, s, e, s.Phase(e.t)).Some?
    requires Ended(DoInstall(m, s, e, s.Phase(e.t)).value, e.t, Failed)
    ensures Decides(m, s, e, DoInstall(m, s, e, s.Phase(e.t)).value, e.t, Failed)
  {
  }

  lemma OwnStepIntoRefusal(m: Manifest, s: Sys, e: Event, outcome: Outcome)
    requires !e.Environment() && !e.Lock? && !e.AlterStage?
    requires outcome.NotCovered? || outcome.Mismatch? || outcome.WontReplace?
    requires DoInstall(m, s, e, s.Phase(e.t)).Some?
    requires Ended(DoInstall(m, s, e, s.Phase(e.t)).value, e.t, outcome)
    ensures Decides(m, s, e, DoInstall(m, s, e, s.Phase(e.t)).value, e.t, outcome)
  {
  }

  lemma OwnStepIntoReturn(m: Manifest, s: Sys, e: Event)
    requires !e.Environment() && !e.Lock? && !e.AlterStage?
    requires DoInstall(m, s, e, s.Phase(e.t)).Some?
    requires Ended(DoInstall(m, s, e, s.Phase(e.t)).value, e.t, Returned)
    ensures Decides(m, s, e, DoInstall(m, s, e, s.Phase(e.t)).value, e.t, Returned)
  {
  }

  lemma OwnStepIntoEnd(m: Manifest, s: Sys, e: Event, outcome: Outcome)
    requires !e.Environment() && !e.Lock? && !e.AlterStage?
    requires outcome.FinalRefused? || outcome.NotWithdrawn?
    requires DoInstall(m, s, e, s.Phase(e.t)).Some?
    requires Ended(DoInstall(m, s, e, s.Phase(e.t)).value, e.t, outcome)
    ensures Decides(m, s, e, DoInstall(m, s, e, s.Phase(e.t)).value, e.t, outcome)
  {
  }

  lemma LockStepIntoOutcome(s: Sys, l: InstallLock.Event, t: Tid, outcome: Outcome)
    requires DoLock(s, l).Some?
    requires Ended(DoLock(s, l).value, t, outcome)
    ensures Ended(s, t, outcome) || (outcome.Failed? && DoLock(s, l).value.dest == s.dest && s.Phase(t).Acquiring?)
  {
    LockStepPhase(s, l);
    hide DoLock;
  }

  /**
   Every ended attempt was decided by one step i, and nothing of the attempt follows it. So a
   return saw a verified tree at the destination, a final refusal emptied the destination, only a
   failed removal after a failed final check ends as `NotWithdrawn`, and a failure has published
   nothing unless the superseded tree could not be removed or the final verification raised.
   */
  lemma {:induction false} OutcomeMeans(m: Manifest, schedule: seq<Event>, trace: seq<Sys>, k: nat, t: Tid,
                                            outcome: Outcome)
    returns (i: nat)
    requires IsRun(m, schedule, trace) && k <= |schedule|
    requires Ended(trace[k], t, outcome)
    ensures i < k
    ensures Decides(m, trace[i], schedule[i], trace[i + 1], t, outcome)
    ensures forall n | i < n <= k :: Ended(trace[n], t, outcome)
  {
    hide Do, Decides;
    StepIntoOutcome(m, trace[k - 1], schedule[k - 1], t, outcome);
    if Ended(trace[k - 1], t, outcome) {
      i := OutcomeMeans(m, schedule, trace, k - 1, t, outcome);
    } else {
      i := k - 1;
    }
  }

  // ---------------------------------------------------------------------------------------
  // When the lock does exclude, and nobody else writes the destination

  predicate OneUnderLock(s: Sys) {
    forall t, u | t in s.phases && u in s.phases && s.Phase(t).UnderLock() && s.Phase(u).UnderLock() :: t == u
  }

  /** The explicit hypothesis: exclusion at every step, and no outside change of the destination. */
  ghost predicate Excluded(schedule: seq<Event>, trace: seq<Sys>) {
    && (forall k | 0 <= k < |trace| :: OneUnderLock(trace[k]))
    && (forall k | 0 <= k < |schedule| :: !schedule[k].AlterDest?)
  }

  /** What one installer under the lock knows about the destination. */
  predicate Owns(m: Manifest, dest: Entry, p: Phase) {
    && (p.FoundAbsent() ==> dest.Absent?)
    && !p.Guarding? && !p.Exchanging? && !p.Removing?
    && (p.Finishing? || p.Withdrawing? ==> dest == Tree(p.published))
    && (p.Withdrawing? ==> !m.matches(p.published))
  }

  ghost predicate AllOwn(m: Manifest, s: Sys) {
    forall t :: Owns(m, s.dest, s.Phase(t))
  }

  lemma InstallStepOwns(m: Manifest, s: Sys, e: Event)
    requires !e.Environment() && !e.Lock?
    requires Do(m, s, e).Some?
    requires Owns(m, s.dest, s.Phase(e.t))
    ensures Owns(m, Do(m, s, e).value.dest, Do(m, s, e).value.Phase(e.t))
  {
    hide DoLock;
  }

  /** An installer that owns what it knows changes the destination by a rename or a withdrawal only. */
  lemma InstallStepWrites(m: Manifest, s: Sys, e: Event)
    requires !e.Environment() && !e.Lock?
    requires Do(m, s, e).Some? && Do(m, s, e).value.dest != s.dest
    requires Owns(m, s.dest, s.Phase(e.t))
    ensures !m.Verified(s.dest) && s.Phase(e.t).UnderLock() && (e.Rename? || e.Withdraw? || e.WithdrawFails?)
  {
    hide DoLock;
  }

  lemma LockStepOwns(m: Manifest, s: Sys, l: InstallLock.Event)
    requires DoLock(s, l).Some?
    requires Owns(m, s.dest, s.Phase(l.t))
    ensures Owns(m, s.dest, DoLock(s, l).value.Phase(l.t)) && DoLock(s, l).value.dest == s.dest
  {
    LockStepPhase(s, l);
    hide DoLock;
  }

  lemma OthersKeepPhase(m: Manifest, s: Sys, e: Event, u: Tid)
    requires Do(m, s, e).Some?
    requires e.Environment() || u != e.Thread()
    ensures Do(m, s, e).value.Phase(u) == s.Phase(u)
  {
    if e.Lock? { LockStepPhase(s, e.e); }
    hide DoLock;
  }

  lemma StepKeepsOwnership(m: Manifest, s: Sys, e: Event)
    requires AllOwn(m, s) && OneUnderLock(s) && !e.AlterDest?
    requires Do(m, s, e).Some?
    ensures AllOwn(m, Do(m, s, e).value)
    ensures m.Verified(s.dest) ==> Do(m, s, e).value.dest == s.dest
  {
    var s' := Do(m, s, e).value;
    if e.Lock? {
      LockStepOwns(m, s, e.e);
    } else if !e.Environment() {
      InstallStepOwns(m, s, e);
      if s'.dest != s.dest { InstallStepWrites(m, s, e); }
    }
    forall u ensures Owns(m, s'.dest, s'.Phase(u)) {
      if e.Environment() || u != e.Thread() {
        OthersKeepPhase(m, s, e, u);
        assert Owns(m, s.dest, s.Phase(u));
      }
    }
  }

  lemma {:induction false} ExcludedRunOwns(m: Manifest, schedule: seq<Event>, trace: seq<Sys>, k: nat)
    requires IsRun(m, schedule, trace) && k <= |schedule|
    requires Excluded(schedule, trace)
    ensures AllOwn(m, trace[k])
  {
    hide Do;
    if k > 0 {
      ExcludedRunOwns(m, schedule, trace, k - 1);
      assert Do(m, trace[k - 1], schedule[k - 1]) == Some(trace[k]);
      StepKeepsOwnership(m, trace[k - 1], schedule[k - 1]);
    }
  }

  /** Under exclusion a withdrawal removes the withdrawing installer's own tree, which never matched. */
  lemma WithdrawsOnlyItsOwn(m: Manifest, schedule: seq<Event>, trace: seq<Sys>, k: nat)
    requires IsRun(m, schedule, trace) && k < |schedule|
    requires Excluded(schedule, trace)
    requires schedule[k].Withdraw? || schedule[k].WithdrawFails?
    ensures var s := trace[k];
            && s.Phase(schedule[k].t).Withdrawing? && !m.Verified(s.dest)
            && s.dest == Tree(s.Phase(schedule[k].t).published)
  {
    ExcludedRunOwns(m, schedule, trace, k);
    assert Do(m, trace[k], schedule[k]) == Some(trace[k + 1]);
    assert Owns(m, trace[k].dest, trace[k].Phase(schedule[k].t));
  }

  /** Under exclusion a verified tree, once at the destination, stays there for ever. */
  lemma {:induction false} VerifiedTreeStays(m: Manifest, schedule: seq<Event>, trace: seq<Sys>, k: nat, n: nat)
    requires IsRun(m, schedule, trace) && k <= n <= |schedule|
    requires Excluded(schedule, trace)
    requires m.Verified(trace[k].dest)
    ensures trace[n].dest == trace[k].dest
  {
    hide Do;
    if k < n {
      VerifiedTreeStays(m, schedule, trace, k, n - 1);
      ExcludedRunOwns(m, schedule, trace, n - 1);
      assert Do(m, trace[n - 1], schedule[n - 1]) == Some(trace[n]);
      StepKeepsOwnership(m, trace[n - 1], schedule[n - 1]);
    }
  }
}
