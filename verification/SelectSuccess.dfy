/**
 `_select_asset` when nothing goes wrong: any number of installers, a receipt throughout, sources that give
 the manifest's tree, and nobody else at the stages or at the destination. The asset lock is enough then.
 */
module SelectSuccess {
  import opened Common
  import opened SelectAsset
  import opened SelectReceipts
  import InstallLock
  import AssetLock

  /** The step is no failure, leaves the asset covered, and puts nothing but matching trees on stages. */
  predicate IsHonest(m: Manifest, e: Event) {
    match e
    case Cover(now) => now
    case AlterDest(_) => false
    case AlterStage(_, x) => m.matches(x)
    case Populate(_, x) => m.matches(x)
    case Lock(l) => !l.Kill? && !l.OpenFails?
    case _ =>
      !e.OwnerFails? && !e.ReadyFails? && !e.PopulateFails? && !e.VerifyFails? && !e.RenameFails?
      && !e.ExchangeFails? && !e.RemoveFails? && !e.FinishFails? && !e.WithdrawFails?
  }

  ghost predicate IsHonestRun(m: Manifest, schedule: seq<Event>, trace: seq<Sys>) {
    && IsRun(m, schedule, trace)
    && trace[0].covered && (trace[0].dest.Absent? || m.Verified(trace[0].dest))
    && forall e | e in schedule :: IsHonest(m, e)
  }

  // ---------------------------------------------------------------------------------------
  // What holds all along

  /** How far an installer is in the lock protocol. */
  predicate InStep(pc: InstallLock.Pc, p: Phase) {
    if p.Acquiring? then pc.Idle? || pc.Opening? || pc.Opened?
    else if p.UnderLock() then pc.Inside?
    else if p.Leaving? then pc.Inside? || pc.Unlinking? || pc.Closing?
    else pc.Idle?
  }

  /** Nothing has gone wrong for this installer. */
  predicate DoesWell(m: Manifest, p: Phase) {
    && !p.Withdrawing? && !p.Removing? && !p.Guarding? && !p.Exchanging?
    && (p.HasStage() ==> m.matches(p.stage))
    && (p.Leaving? || p.Done? ==> p.outcome == Returned)
  }

  /** Before anything is installed: nobody has left the lock, and whoever is in it has the path's own file. */
  predicate Early(lock: InstallLock.State, pc: InstallLock.Pc, p: Phase) {
    && !p.Finishing? && !p.Leaving? && !p.Done?
    && (pc.Fd().Some? ==> pc.Fd() == lock.path)
  }

  /** After that: whoever is in the lock finds the tree, or has put it there. */
  predicate Late(p: Phase) {
    !p.Existing? && !p.Populating? && !p.HasStage()
  }

  /** One installer's place. */
  predicate OneIsWell(m: Manifest, s: Sys, t: Tid) {
    && InStep(s.lock.Pc(t), s.Phase(t)) && DoesWell(m, s.Phase(t))
    && if s.dest.Absent? then Early(s.lock, s.lock.Pc(t), s.Phase(t)) else Late(s.Phase(t))
  }

  predicate NothingWrongThere(m: Manifest, s: Sys) {
    s.covered && (s.dest.Absent? || m.Verified(s.dest))
  }

  ghost predicate AllWell(m: Manifest, s: Sys) {
    NothingWrongThere(m, s) && AssetLock.OwnsItsInode(s.lock) && forall t :: OneIsWell(m, s, t)
  }

  // ---------------------------------------------------------------------------------------
  // Steps

  lemma InstallStepIsWell(m: Manifest, s: Sys, e: Event)
    requires !e.Lock? && !e.Environment() && IsHonest(m, e)
    requires Do(m, s, e).Some? && NothingWrongThere(m, s) && OneIsWell(m, s, e.t)
    ensures var s' := Do(m, s, e).value;
      && s'.lock == s.lock && NothingWrongThere(m, s') && OneIsWell(m, s', e.t)
      && (s'.dest == s.dest || (s.dest.Absent? && m.Verified(s'.dest) && s.Phase(e.t).UnderLock()))
  {
    if s.dest.Absent? { EarlyStepIsWell(m, s, e); } else { LateStepIsWell(m, s, e); }
    hide Do, OneIsWell;
  }

  lemma EarlyStepIsWell(m: Manifest, s: Sys, e: Event)
    requires !e.Lock? && !e.Environment() && IsHonest(m, e)
    requires Do(m, s, e).Some? && NothingWrongThere(m, s) && OneIsWell(m, s, e.t) && s.dest.Absent?
    ensures var s' := Do(m, s, e).value;
      && s'.lock == s.lock && NothingWrongThere(m, s') && OneIsWell(m, s', e.t)
      && (s'.dest == s.dest || (m.Verified(s'.dest) && s.Phase(e.t).UnderLock()))
  {
    if s.Phase(e.t).HasStage() { StagedStepIsWell(m, s, e); } else { UnstagedStepIsWell(m, s, e); }
    hide Do, OneIsWell, IsHonest;
  }

  lemma StagedStepIsWell(m: Manifest, s: Sys, e: Event)
    requires !e.Lock? && !e.Environment() && IsHonest(m, e) && s.Phase(e.t).HasStage()
    requires Do(m, s, e).Some? && s.covered && OneIsWell(m, s, e.t) && s.dest.Absent?
    ensures var s' := Do(m, s, e).value;
      && s'.lock == s.lock && NothingWrongThere(m, s') && OneIsWell(m, s', e.t)
      && (s'.dest == s.dest || m.Verified(s'.dest))
  {
    hide DoLock;
  }

  lemma UnstagedStepIsWell(m: Manifest, s: Sys, e: Event)
    requires !e.Lock? && !e.Environment() && IsHonest(m, e) && !s.Phase(e.t).HasStage()
    requires Do(m, s, e).Some? && s.covered && OneIsWell(m, s, e.t) && s.dest.Absent?
    ensures var s' := Do(m, s, e).value;
      s'.lock == s.lock && s'.covered && OneIsWell(m, s', e.t) && s'.dest == s.dest
  {
    hide DoLock;
  }

  lemma LateStepIsWell(m: Manifest, s: Sys, e: Event)
    requires !e.Lock? && !e.Environment() && IsHonest(m, e)
    requires Do(m, s, e).Some? && NothingWrongThere(m, s) && OneIsWell(m, s, e.t) && !s.dest.Absent?
    ensures var s' := Do(m, s, e).value; s'.lock == s.lock && OneIsWell(m, s', e.t) && s'.dest == s.dest && s'.covered
  {
    hide DoLock;
  }

  lemma OutsideStep(m: Manifest, s: Sys, e: Event)
    requires e.Environment() && IsHonest(m, e)
    ensures Do(m, s, e) == Some(s.(covered := true))
  {
  }

  lemma LockStepIsWell(m: Manifest, s: Sys, l: InstallLock.Event)
    requires IsHonest(m, Lock(l)) && DoLock(s, l).Some? && OneIsWell(m, s, l.t)
    ensures var s' := DoLock(s, l).value;
      && s'.dest == s.dest && s'.covered == s.covered && OneIsWell(m, s', l.t)
      && (s.dest.Absent? ==> s'.lock.path == s.lock.path || s.lock.path.None?)
  {
  }

  /** While nothing is installed there is one file at the lock path, so only one installer is in the lock. */
  lemma OneInTheLock(m: Manifest, s: Sys, t: Tid, u: Tid)
    requires AllWell(m, s) && s.dest.Absent? && s.Phase(t).UnderLock() && s.Phase(u).UnderLock()
    ensures t == u
  {
    assert OneIsWell(m, s, t) && OneIsWell(m, s, u);
  }

  lemma OthersAreWell(m: Manifest, s: Sys, e: Event, u: Tid)
    requires AllWell(m, s) && Do(m, s, e).Some? && IsHonest(m, e) && (e.Environment() || u != e.Thread())
    requires var s' := Do(m, s, e).value;
      && (s'.dest == s.dest || (s.dest.Absent? && m.Verified(s'.dest) && !e.Environment()
                                && s.Phase(e.Thread()).UnderLock()))
      && (s.dest.Absent? ==> s'.lock.path == s.lock.path || s.lock.path.None?)
    ensures OneIsWell(m, Do(m, s, e).value, u)
  {
    var s' := Do(m, s, e).value;
    OthersKeepPhase(m, s, e, u);
    OthersKeepPlace(m, s, e, u);
    assert OneIsWell(m, s, u);
    if s'.dest != s.dest && s.Phase(u).UnderLock() { OneInTheLock(m, s, u, e.Thread()); }
    hide Do;
  }

  lemma OthersKeepPlace(m: Manifest, s: Sys, e: Event, u: Tid)
    requires Do(m, s, e).Some? && (e.Environment() || u != e.Thread())
    ensures Do(m, s, e).value.lock.Pc(u) == s.lock.Pc(u)
  {
    if e.Lock? { OthersKeepLockPlace(s, e.e, u); }
    hide DoLock;
  }

  lemma OthersKeepLockPlace(s: Sys, l: InstallLock.Event, u: Tid)
    requires DoLock(s, l).Some? && u != l.t
    ensures DoLock(s, l).value.lock.Pc(u) == s.lock.Pc(u)
  {
  }

  lemma StepIsWell(m: Manifest, s: Sys, e: Event)
    requires AllWell(m, s) && IsHonest(m, e) && Do(m, s, e).Some?
    ensures AllWell(m, Do(m, s, e).value)
  {
    hide Do, OneIsWell, AssetLock.OwnsItsInode;
    var s' := Do(m, s, e).value;
    if e.Lock? {
      LockStepOf(m, s, e.e);
      LockStepIsWell(m, s, e.e);
      LockStepKeepsInodes(s, e.e);
    } else if e.Environment() {
      OutsideStep(m, s, e);
    } else {
      InstallStepIsWell(m, s, e);
    }
    hide DoLock, IsHonest;
    forall u ensures OneIsWell(m, s', u) {
      if e.Environment() || u != e.Thread() { OthersAreWell(m, s, e, u); }
    }
  }

  lemma LockStepOf(m: Manifest, s: Sys, l: InstallLock.Event)
    ensures Do(m, s, Lock(l)) == DoLock(s, l)
  {
  }

  lemma LockStepKeepsInodes(s: Sys, l: InstallLock.Event)
    requires AssetLock.OwnsItsInode(s.lock) && DoLock(s, l).Some?
    ensures AssetLock.OwnsItsInode(DoLock(s, l).value.lock)
  {
    AssetLock.StepKeepsInodes(s.lock, l);
    hide AssetLock.DoAsset, AssetLock.OwnsItsInode;
  }

  lemma {:induction false} HonestRunIsWell(m: Manifest, schedule: seq<Event>, trace: seq<Sys>, k: nat)
    requires IsHonestRun(m, schedule, trace) && k <= |schedule|
    ensures AllWell(m, trace[k])
  {
    hide Do, AllWell;
    if k == 0 {
      IdleIsWell(m, trace[0]);
    } else {
      HonestRunIsWell(m, schedule, trace, k - 1);
      assert Do(m, trace[k - 1], schedule[k - 1]) == Some(trace[k]);
      StepIsWell(m, trace[k - 1], schedule[k - 1]);
    }
  }

  lemma IdleIsWell(m: Manifest, s: Sys)
    requires Init(s) && NothingWrongThere(m, s)
    ensures AllWell(m, s)
  {
  }

  // ---------------------------------------------------------------------------------------
  // What comes of it

  /**
   If nothing goes wrong, every attempt that ends has returned a verified tree, which is at the destination from
   then on: no installer is refused, and none replaces or withdraws what another has installed.
   */
  lemma HonestAttemptsReturn(m: Manifest, schedule: seq<Event>, trace: seq<Sys>, k: nat, n: nat, t: Tid,
                             outcome: Outcome)
    requires IsHonestRun(m, schedule, trace) && k <= n <= |schedule|
    requires Ended(trace[k], t, outcome)
    ensures outcome == Returned && m.Verified(trace[k].dest) && trace[n].dest == trace[k].dest
  {
    HonestRunIsWell(m, schedule, trace, k);
    assert OneIsWell(m, trace[k], t);
    InstalledStays(m, schedule, trace, k, n);
  }

  /** Once something is installed the destination does not change. */
  lemma {:induction false} InstalledStays(m: Manifest, schedule: seq<Event>, trace: seq<Sys>, k: nat, n: nat)
    requires IsHonestRun(m, schedule, trace) && k <= n <= |schedule| && !trace[k].dest.Absent?
    ensures trace[n].dest == trace[k].dest
  {
    if k < n {
      hide Do, AllWell;
      InstalledStays(m, schedule, trace, k, n - 1);
      HonestRunIsWell(m, schedule, trace, n - 1);
      assert Do(m, trace[n - 1], schedule[n - 1]) == Some(trace[n]);
      StepKeepsInstalled(m, trace[n - 1], schedule[n - 1]);
    }
  }

  /** An attempt that looks for the first time at what is installed, or has not looked yet. */
  predicate Unlocked(p: Phase) {
    p.Outside? || p.FirstRequire? || p.FirstReady? || p == Done(Returned)
  }

  /** Whoever starts once something is installed returns it, and never goes near the lock. */
  lemma {:induction false} InstalledNeedsNoLock(m: Manifest, schedule: seq<Event>, trace: seq<Sys>, k: nat, n: nat,
                                                t: Tid)
    requires IsHonestRun(m, schedule, trace) && k <= n <= |schedule|
    requires !trace[k].dest.Absent? && (trace[k].Phase(t).Outside? || trace[k].Phase(t).Done?)
    ensures Unlocked(trace[n].Phase(t)) && trace[n].lock.Pc(t).Idle?
  {
    hide Do, AllWell, OneIsWell;
    HonestRunIsWell(m, schedule, trace, n);
    assert OneIsWell(m, trace[n], t) by { HonestMeans(m, trace[n], t); }
    if k == n {
      PlaceOf(m, trace[n], t);
    } else {
      InstalledNeedsNoLock(m, schedule, trace, k, n - 1, t);
      InstalledStays(m, schedule, trace, k, n - 1);
      HonestRunIsWell(m, schedule, trace, n - 1);
      var s, e := trace[n - 1], schedule[n - 1];
      assert Do(m, s, e) == Some(trace[n]);
      HonestMeans(m, s, t);
      StayUnlocked(m, s, e, t);
      PlaceOf(m, trace[n], t);
    }
  }

  lemma HonestMeans(m: Manifest, s: Sys, t: Tid)
    requires AllWell(m, s)
    ensures OneIsWell(m, s, t) && NothingWrongThere(m, s)
  {
  }

  lemma PlaceOf(m: Manifest, s: Sys, t: Tid)
    requires OneIsWell(m, s, t)
    ensures s.Phase(t).Done? ==> s.Phase(t) == Done(Returned)
    ensures Unlocked(s.Phase(t)) ==> s.lock.Pc(t).Idle?
  {
  }

  lemma StayUnlocked(m: Manifest, s: Sys, e: Event, t: Tid)
    requires Do(m, s, e).Some? && IsHonest(m, e) && NothingWrongThere(m, s) && !s.dest.Absent?
    requires Unlocked(s.Phase(t))
    ensures Unlocked(Do(m, s, e).value.Phase(t))
  {
    if e.Environment() || e.Thread() != t {
      OthersKeepPhase(m, s, e, t);
    } else if e.Lock? {
      LockStepPhase(s, e.e);
    }
    hide DoLock;
  }

  lemma StepKeepsInstalled(m: Manifest, s: Sys, e: Event)
    requires AllWell(m, s) && IsHonest(m, e) && Do(m, s, e).Some? && !s.dest.Absent?
    ensures Do(m, s, e).value.dest == s.dest
  {
    if e.Lock? {
      LockStepPhase(s, e.e);
    } else if !e.Environment() {
      assert OneIsWell(m, s, e.t);
      InstallStepIsWell(m, s, e);
    }
    hide DoInstall, DoLock;
  }

  /** The next step of an attempt, for a source that gives tree x. */
  function Next(p: Phase, t: Tid, pc: InstallLock.Pc, dest: Entry, x: Tree, unused: InstallLock.Inode): Event {
    match p
    case Outside => Start(t)
    case Done(_) => Start(t)
    case FirstRequire => Require(t)
    case SecondRequire => Require(t)
    case ThirdRequire(_) => Require(t)
    case FirstReady => Ready(t)
    case SecondReady => Ready(t)
    case Existing => Exists(t)
    case Populating => Populate(t, x)
    case Verifying(_) => Verify(t)
    case Looking(_) => Look(t)
    case Renaming(_) => Rename(t)
    case Guarding(_) => Guard(t)
    case Exchanging(_) => if dest.Absent? then ExchangeFails(t) else Exchange(t)
    case Removing(_) => Remove(t)
    case Finishing(_) => Finish(t)
    case Withdrawing(_) => Withdraw(t)
    case Acquiring => Lock(InstallLock.Forward(t, pc, unused))
    case Leaving(_) =>
      Lock(if pc.Unlinking? then InstallLock.UnlinkFails(t) else InstallLock.Forward(t, pc, unused))
  }

  /** And it can always be taken: nobody is stuck, and no failure is needed to go on. */
  lemma NobodyIsStuck(m: Manifest, schedule: seq<Event>, trace: seq<Sys>, k: nat, t: Tid, x: Tree,
                      unused: InstallLock.Inode)
    requires IsHonestRun(m, schedule, trace) && k <= |schedule| && m.matches(x)
    requires !trace[k].lock.Live(unused)
    ensures var s := trace[k];
      var e := Next(s.Phase(t), t, s.lock.Pc(t), s.dest, x, unused);
      Do(m, s, e).Some? && IsHonest(m, e) && !e.Environment() && e.Thread() == t
  {
    HonestRunIsWell(m, schedule, trace, k);
    var s := trace[k];
    assert OneIsWell(m, s, t);
    hide AllWell, Do, IsHonestRun;
    if s.Phase(t).Acquiring? || s.Phase(t).Leaving? {
      LockGoesOn(s, t, unused);
      LockStepOf(m, s, Next(s.Phase(t), t, s.lock.Pc(t), s.dest, x, unused).e);
    } else {
      InstallGoesOn(m, s, t, x, unused);
    }
    hide DoLock;
  }

  lemma InstallGoesOn(m: Manifest, s: Sys, t: Tid, x: Tree, unused: InstallLock.Inode)
    requires m.matches(x) && DoesWell(m, s.Phase(t)) && !s.Phase(t).Acquiring? && !s.Phase(t).Leaving?
    ensures var e := Next(s.Phase(t), t, s.lock.Pc(t), s.dest, x, unused);
      Do(m, s, e).Some? && IsHonest(m, e) && !e.Environment() && e.Thread() == t
  {
    hide DoLock;
  }

  lemma LockGoesOn(s: Sys, t: Tid, unused: InstallLock.Inode)
    requires InStep(s.lock.Pc(t), s.Phase(t)) && (s.Phase(t).Acquiring? || s.Phase(t).Leaving?)
    requires !s.lock.Live(unused)
    ensures var pc := s.lock.Pc(t);
      DoLock(s, if pc.Unlinking? then InstallLock.UnlinkFails(t) else InstallLock.Forward(t, pc, unused)).Some?
  {
  }

  // ---------------------------------------------------------------------------------------
  // And when something does

  /** The call that fails, where an attempt makes one that can; the other phases only decide. */
  function FailureAt(p: Phase, t: Tid, left: Tree): Option<Event> {
    match p
    case FirstReady => Some(ReadyFails(t))
    case SecondRequire => Some(OwnerFails(t))
    case SecondReady => Some(ReadyFails(t))
    case Populating => Some(PopulateFails(t))
    case Verifying(_) => Some(VerifyFails(t))
    case Renaming(_) => Some(RenameFails(t))
    case Exchanging(_) => Some(ExchangeFails(t))
    case Removing(_) => Some(RemoveFails(t))
    case Finishing(_) => Some(FinishFails(t))
    case Withdrawing(_) => Some(WithdrawFails(t, left))
    case _ => None
  }

  /**
   Each of them may fail, wherever it stands and whatever others do. The attempt then ends with a failure, and
   under the lock gives it up first; only a withdrawal that fails leaves something else at the destination.
   */
  lemma FailureEndsAttempt(m: Manifest, s: Sys, t: Tid, left: Tree)
    requires FailureAt(s.Phase(t), t, left).Some? && (s.Phase(t).Withdrawing? ==> !s.dest.Absent?)
    ensures Do(m, s, FailureAt(s.Phase(t), t, left).value).Some?
    ensures var s' := Do(m, s, FailureAt(s.Phase(t), t, left).value).value;
      && s'.Phase(t) == (if s.Phase(t).UnderLock()
                         then Leaving(if s.Phase(t).Withdrawing? then NotWithdrawn else Failed) else Done(Failed))
      && s'.dest == (if s.Phase(t).Withdrawing? && s.dest.Tree? then Tree(left) else s.dest)
      && s'.lock == s.lock && s'.covered == s.covered && forall u | u != t :: s'.Phase(u) == s.Phase(u)
  {
  }

  /**
   It may also be killed anywhere in the lock. Its flock goes, and nothing else changes: not the lock file, the
   destination, or another installer.
   */
  lemma KilledAnywhere(m: Manifest, s: Sys, t: Tid)
    requires !s.lock.Pc(t).Idle? && AssetLock.OwnsItsInode(s.lock)
    ensures Do(m, s, Lock(InstallLock.Kill(t))).Some?
    ensures var s' := Do(m, s, Lock(InstallLock.Kill(t))).value;
      && s'.Phase(t).Outside? && s'.lock.Pc(t).Idle? && t !in s'.lock.flock.Values
      && s'.lock.path == s.lock.path && s'.dest == s.dest && s'.covered == s.covered
      && forall u | u != t :: s'.Phase(u) == s.Phase(u) && s'.lock.Pc(u) == s.lock.Pc(u)
  {
    hide DoInstall;
  }

  // ---------------------------------------------------------------------------------------
  // How long it takes

  /** The steps that an attempt alone takes from here to its end, at most. */
  function StepsLeft(p: Phase, pc: InstallLock.Pc): nat {
    match p
    case FirstRequire => 20
    case FirstReady => 19
    case Acquiring => if pc.Idle? then 18 else if pc.Opening? then 17 else 16
    case SecondRequire => 15
    case SecondReady => 14
    case Existing => 13
    case Populating => 12
    case Verifying(_) => 11
    case ThirdRequire(_) => 10
    case Looking(_) => 9
    case Renaming(_) => 8
    case Finishing(_) => 5
    case Leaving(_) => if pc.Inside? then 3 else if pc.Unlinking? then 2 else 1
    case _ => 0
  }

  /** Each of its own steps brings it nearer, except a poll of a lock file that another installer has locked. */
  lemma StepsCount(m: Manifest, s: Sys, t: Tid, x: Tree, unused: InstallLock.Inode)
    requires NothingWrongThere(m, s) && OneIsWell(m, s, t) && m.matches(x)
    requires !s.Phase(t).Outside? && !s.Phase(t).Done?
    requires Do(m, s, Next(s.Phase(t), t, s.lock.Pc(t), s.dest, x, unused)).Some?
    ensures var s' := Do(m, s, Next(s.Phase(t), t, s.lock.Pc(t), s.dest, x, unused)).value;
      || StepsLeft(s'.Phase(t), s'.lock.Pc(t)) < StepsLeft(s.Phase(t), s.lock.Pc(t))
      || (s.Phase(t).Acquiring? && s.lock.Pc(t).Opened? && s.lock.Pc(t).fd in s.lock.flock)
  {
    if s.Phase(t).Acquiring? || s.Phase(t).Leaving? {
      hide Do;
      LockStepOf(m, s, Next(s.Phase(t), t, s.lock.Pc(t), s.dest, x, unused).e);
      LockStepsCount(s, t, unused);
    } else {
      hide DoLock;
      InstallStepsCount(m, s, t, x, unused);
      hide Do;
    }
  }

  lemma LockStepsCount(s: Sys, t: Tid, unused: InstallLock.Inode)
    requires InStep(s.lock.Pc(t), s.Phase(t)) && (s.Phase(t).Acquiring? || s.Phase(t).Leaving?)
    requires DoLock(s, Next(s.Phase(t), t, s.lock.Pc(t), s.dest, 0, unused).e).Some?
    ensures var s' := DoLock(s, Next(s.Phase(t), t, s.lock.Pc(t), s.dest, 0, unused).e).value;
      || StepsLeft(s'.Phase(t), s'.lock.Pc(t)) < StepsLeft(s.Phase(t), s.lock.Pc(t))
      || (s.Phase(t).Acquiring? && s.lock.Pc(t).Opened? && s.lock.Pc(t).fd in s.lock.flock)
  {
  }

  lemma InstallStepsCount(m: Manifest, s: Sys, t: Tid, x: Tree, unused: InstallLock.Inode)
    requires NothingWrongThere(m, s) && OneIsWell(m, s, t) && m.matches(x)
    requires !s.Phase(t).Outside? && !s.Phase(t).Done? && !s.Phase(t).Acquiring? && !s.Phase(t).Leaving?
    requires Do(m, s, Next(s.Phase(t), t, s.lock.Pc(t), s.dest, x, unused)).Some?
    ensures var s' := Do(m, s, Next(s.Phase(t), t, s.lock.Pc(t), s.dest, x, unused)).value;
      StepsLeft(s'.Phase(t), s'.lock.Pc(t)) < StepsLeft(s.Phase(t), s.lock.Pc(t))
  {
    hide DoLock;
  }
}
