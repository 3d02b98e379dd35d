/**
 What `_select_asset` leaves at the destination: over the installers that take part and the failures
 that happen, exactly when a refusal leaves nothing wrong behind, and exactly when a withdrawal
 removes only the installer's own tree.
 */
module SelectLimits {
  import opened Common
  import opened SelectAsset
  import InstallLock
  import AssetLock

  // ---------------------------------------------------------------------------------------
  // Who takes part, and what may fail

  /**
   Failures after a publication: the superseded tree cannot be removed, the final verification raises,
   the withdrawal fails, or the process is killed.
   */
  datatype Faults = Faults(remove: bool, check: bool, withdraw: bool, kill: bool)

  datatype Scope = Scope(threads: set<Tid>, faults: Faults)

  /** Nobody but these installers writes the destination, and nothing fails but what may. */
  predicate Permits(c: Scope, s: Sys, e: Event) {
    && !e.AlterDest? && (e.Cover? || e.Thread() in c.threads)
    && (e.RemoveFails? ==> c.faults.remove) && (e.FinishFails? ==> c.faults.check)
    && (e.WithdrawFails? ==> c.faults.withdraw)
    && (e.Lock? && e.e.Kill? && s.Phase(e.e.t).UnderWay() ==> c.faults.kill)
  }

  ghost predicate Within(c: Scope, schedule: seq<Event>, trace: seq<Sys>)
    requires |trace| == |schedule| + 1
  {
    forall k | 0 <= k < |schedule| :: Permits(c, trace[k], schedule[k])
  }

  ghost predicate IsRunOf(m: Manifest, c: Scope, schedule: seq<Event>, trace: seq<Sys>) {
    IsRun(m, schedule, trace) && Within(c, schedule, trace)
  }

  // ---------------------------------------------------------------------------------------
  // A refusal leaves nothing wrong behind

  predicate Fine(m: Manifest, initial: Entry, dest: Entry) {
    dest == initial || dest.Absent? || m.Verified(dest)
  }

  ghost predicate SomeoneUnderWay(s: Sys) {
    exists t :: s.Phase(t).UnderWay()
  }

  lemma StepKeepsFine(m: Manifest, initial: Entry, c: Scope, s: Sys, e: Event)
    requires c.faults == Faults(false, false, false, false)
    requires Fine(m, initial, s.dest) || SomeoneUnderWay(s)
    requires Do(m, s, e).Some? && Permits(c, s, e)
    ensures Fine(m, initial, Do(m, s, e).value.dest) || SomeoneUnderWay(Do(m, s, e).value)
  {
    var s' := Do(m, s, e).value;
    if Fine(m, initial, s.dest) {
      if s'.dest != s.dest { PublisherIsUnderWay(m, s, e); }
    } else {
      var t :| s.Phase(t).UnderWay();
      if e.Environment() || e.Thread() != t {
        OthersKeepPhase(m, s, e, t);
        assert s'.Phase(t).UnderWay();
      } else {
        UnderWayEnds(m, s, e, t);
      }
    }
  }

  lemma PublisherIsUnderWay(m: Manifest, s: Sys, e: Event)
    requires Do(m, s, e).Some? && Do(m, s, e).value.dest != s.dest && !e.AlterDest? && !e.WithdrawFails?
    ensures Do(m, s, e).value.dest.Absent? || SomeoneUnderWay(Do(m, s, e).value)
  {
    if e.Lock? { LockStepPhase(s, e.e); }
    hide DoLock;
    assert !e.Environment();
    if e.Rename? || e.Exchange? {
      assert Do(m, s, e).value.Phase(e.t).UnderWay();
    }
  }

  /** An attempt under way goes on, or ends with the destination verified or absent. */
  lemma UnderWayEnds(m: Manifest, s: Sys, e: Event, t: Tid)
    requires Do(m, s, e).Some? && !e.Environment() && e.Thread() == t && s.Phase(t).UnderWay()
    requires !e.RemoveFails? && !e.FinishFails? && !e.WithdrawFails? && !(e.Lock? && e.e.Kill?)
    ensures var s' := Do(m, s, e).value; s'.Phase(t).UnderWay() || s'.dest.Absent? || m.Verified(s'.dest)
  {
    if e.Lock? { LockStepPhase(s, e.e); }
    hide DoLock;
  }

  lemma {:induction false} FineWithoutFaults(m: Manifest, c: Scope, schedule: seq<Event>, trace: seq<Sys>, k: nat)
    requires c.faults == Faults(false, false, false, false)
    requires IsRunOf(m, c, schedule, trace) && k <= |schedule|
    ensures Fine(m, trace[0].dest, trace[k].dest) || SomeoneUnderWay(trace[k])
  {
    hide Do;
    if k > 0 {
      FineWithoutFaults(m, c, schedule, trace, k - 1);
      assert Do(m, trace[k - 1], schedule[k - 1]) == Some(trace[k]);
      StepKeepsFine(m, trace[0].dest, c, trace[k - 1], schedule[k - 1]);
    }
  }

  /**
   In every run, whenever no attempt is between its publication and its end, the destination is what
   it was at first, absent, or a verified tree.
   */
  ghost predicate LeavesNothingWrong(c: Scope) {
    forall m: Manifest, schedule: seq<Event>, trace: seq<Sys>, k: nat |
      IsRunOf(m, c, schedule, trace) && k <= |schedule| && !SomeoneUnderWay(trace[k]) ::
      Fine(m, trace[0].dest, trace[k].dest)
  }

  // ---------------------------------------------------------------------------------------
  // One installer

  lemma {:induction false} OthersStayOutside(m: Manifest, c: Scope, schedule: seq<Event>, trace: seq<Sys>, k: nat,
                                             u: Tid)
    requires IsRunOf(m, c, schedule, trace) && k <= |schedule| && u !in c.threads
    ensures trace[k].Phase(u).Outside?
  {
    hide Do;
    if k > 0 {
      OthersStayOutside(m, c, schedule, trace, k - 1, u);
      assert Do(m, trace[k - 1], schedule[k - 1]) == Some(trace[k]);
      assert Permits(c, trace[k - 1], schedule[k - 1]);
      OthersKeepPhase(m, trace[k - 1], schedule[k - 1], u);
    }
  }

  /** A single installer is excluded from itself. */
  lemma AloneIsExcluded(m: Manifest, c: Scope, schedule: seq<Event>, trace: seq<Sys>)
    requires IsRunOf(m, c, schedule, trace) && |c.threads| <= 1
    ensures Excluded(schedule, trace)
  {
    hide Do;
    forall k | 0 <= k < |trace| ensures OneUnderLock(trace[k]) {
      forall t, u | trace[k].Phase(t).UnderLock() && trace[k].Phase(u).UnderLock() ensures t == u {
        if t !in c.threads { OthersStayOutside(m, c, schedule, trace, k, t); }
        if u !in c.threads { OthersStayOutside(m, c, schedule, trace, k, u); }
        AssetLock.SoleMember(c.threads, t, u);
      }
    }
    forall k | 0 <= k < |schedule| ensures !schedule[k].AlterDest? {
      assert Permits(c, trace[k], schedule[k]);
    }
  }

  /** It never has a superseded tree to remove. */
  lemma AloneNeverRemoves(m: Manifest, c: Scope, schedule: seq<Event>, trace: seq<Sys>)
    requires IsRunOf(m, c, schedule, trace) && |c.threads| <= 1
    ensures IsRunOf(m, c.(faults := c.faults.(remove := false)), schedule, trace)
  {
    AloneIsExcluded(m, c, schedule, trace);
    forall k | 0 <= k < |schedule| ensures Permits(c.(faults := c.faults.(remove := false)), trace[k], schedule[k]) {
      assert Permits(c, trace[k], schedule[k]) && Do(m, trace[k], schedule[k]) == Some(trace[k + 1]);
      ExcludedRunOwns(m, schedule, trace, k);
      OwnerNeverRemoves(m, trace[k], schedule[k]);
    }
  }

  lemma OwnerNeverRemoves(m: Manifest, s: Sys, e: Event)
    requires AllOwn(m, s) && Do(m, s, e).Some?
    ensures !e.RemoveFails?
  {
  }

  // ---------------------------------------------------------------------------------------
  // Building runs

  /** Some steps within the scope lead from s to s'. */
  ghost predicate Leads(m: Manifest, c: Scope, s: Sys, s': Sys) {
    exists schedule: seq<Event>, trace: seq<Sys> ::
      && Steps(m, schedule, trace) && Within(c, schedule, trace) && trace[0] == s && trace[|schedule|] == s'
  }

  lemma Stays(m: Manifest, c: Scope, s: Sys)
    ensures Leads(m, c, s, s)
  {
    assert Steps(m, [], [s]) && Within(c, [], [s]);
  }

  lemma Advance(m: Manifest, c: Scope, s0: Sys, s: Sys, e: Event) returns (s': Sys)
    requires Leads(m, c, s0, s)
    requires Do(m, s, e).Some? && Permits(c, s, e)
    ensures s' == Do(m, s, e).value && Leads(m, c, s0, s')
  {
    hide Do, Permits;
    var schedule: seq<Event>, trace: seq<Sys> :|
      && Steps(m, schedule, trace) && Within(c, schedule, trace) && trace[0] == s0 && trace[|schedule|] == s;
    s' := Do(m, s, e).value;
    assert Steps(m, schedule + [e], trace + [s']) && Within(c, schedule + [e], trace + [s']);
  }

  /** The same, for one step of installer t; the others stay where they are. */
  lemma Moves(m: Manifest, c: Scope, s0: Sys, s: Sys, e: Event, t: Tid) returns (s': Sys)
    requires Leads(m, c, s0, s)
    requires Do(m, s, e).Some? && Permits(c, s, e) && !e.Environment() && e.Thread() == t
    ensures s' == Do(m, s, e).value && Leads(m, c, s0, s')
    ensures forall v | v != t :: s'.Phase(v) == s.Phase(v)
  {
    s' := Advance(m, c, s0, s, e);
    hide Do, Permits, Leads;
    forall v | v != t ensures s'.Phase(v) == s.Phase(v) { OthersKeepPhase(m, s, e, v); }
  }

  const IDLE: Sys := Sys(AssetLock.EMPTY, true, Absent, map[])

  /** An installer that is exactly as far as its place in the lock protocol. */
  predicate Fits(pc: InstallLock.Pc, p: Phase) {
    match pc
    case Idle => p.Outside? || p.Done?
    case Opening => p.Acquiring?
    case Opened(_) => p.Acquiring?
    case Inside(_, _) => p.SecondRequire?
    case Unlinking(_) => p == Leaving(NotCovered)
    case Closing(_) => p == Leaving(NotCovered)
    case _ => false
  }

  ghost predicate Lifted(s: Sys, lock: InstallLock.State) {
    s.lock == lock && s.covered && s.dest.Absent? && forall t :: Fits(lock.Pc(t), s.Phase(t))
  }

  /** An installer reaches the lock when it is covered and nothing is installed. */
  lemma LiftEnter(m: Manifest, c: Scope, s: Sys, t: Tid) returns (s': Sys)
    requires Leads(m, c, IDLE, s) && s.covered && s.dest.Absent? && t in c.threads
    requires s.Phase(t).Outside? || s.Phase(t).Done?
    ensures Leads(m, c, IDLE, s') && s'.lock == s.lock && s'.covered && s'.dest.Absent?
    ensures s'.Phase(t).Acquiring? && forall u | u != t :: s'.Phase(u) == s.Phase(u)
  {
    hide Leads;
    s' := Advance(m, c, IDLE, s, Start(t));
    s' := Advance(m, c, IDLE, s', Require(t));
    s' := Advance(m, c, IDLE, s', Ready(t));
  }

  /** An installer that loses its receipt at the second check gives the lock up. */
  lemma LiftLeave(m: Manifest, c: Scope, s: Sys, t: Tid) returns (s': Sys)
    requires Leads(m, c, IDLE, s) && s.covered && s.dest.Absent? && t in c.threads
    requires s.Phase(t).SecondRequire?
    ensures Leads(m, c, IDLE, s') && s'.lock == s.lock && s'.covered && s'.dest.Absent?
    ensures s'.Phase(t) == Leaving(NotCovered) && forall u | u != t :: s'.Phase(u) == s.Phase(u)
  {
    hide Leads;
    s' := Advance(m, c, IDLE, s, Cover(false));
    s' := Advance(m, c, IDLE, s', Require(t));
    s' := Advance(m, c, IDLE, s', Cover(true));
  }

  /** Installers add no exclusion to their lock: every schedule of the asset lock is one of theirs. */
  lemma {:induction false} Lift(m: Manifest, c: Scope, schedule: seq<InstallLock.Event>) returns (s: Sys)
    requires AssetLock.RunAsset(AssetLock.EMPTY, schedule).Some?
    requires forall l | l in schedule :: l.t in c.threads
    ensures Leads(m, c, IDLE, s)
    ensures Lifted(s, AssetLock.RunAsset(AssetLock.EMPTY, schedule).value)
  {
    if schedule == [] {
      Stays(m, c, IDLE);
      s := IDLE;
    } else {
      hide Leads;
      var front, l := schedule[..|schedule| - 1], schedule[|schedule| - 1];
      var before := Lift(m, c, front);
      s := before;
      assert Fits(s.lock.Pc(l.t), s.Phase(l.t));
      if l.Enter? {
        s := LiftEnter(m, c, s, l.t);
      } else if l.Leave? {
        s := LiftLeave(m, c, s, l.t);
      }
      LiftStep(m, before.lock, s, l);
      s := Advance(m, c, IDLE, s, Lock(l));
    }
  }

  lemma LiftStep(m: Manifest, lock: InstallLock.State, s: Sys, l: InstallLock.Event)
    requires AssetLock.DoAsset(lock, l).Some? && s.lock == lock
    requires s.covered && s.dest.Absent?
    requires forall u | u != l.t :: Fits(lock.Pc(u), s.Phase(u))
    requires if l.Enter? then s.Phase(l.t).Acquiring?
             else if l.Leave? then s.Phase(l.t) == Leaving(NotCovered)
             else Fits(lock.Pc(l.t), s.Phase(l.t))
    ensures DoLock(s, l).Some? && !s.Phase(l.t).UnderWay()
    ensures Lifted(DoLock(s, l).value, AssetLock.DoAsset(lock, l).value)
  {
    var s', lock' := DoLock(s, l).value, AssetLock.DoAsset(lock, l).value;
    LiftOwnStep(lock, s, l);
    forall u ensures Fits(lock'.Pc(u), s'.Phase(u)) {
      if u != l.t {
        assert lock'.Pc(u) == lock.Pc(u) && s'.Phase(u) == s.Phase(u);
      }
    }
  }

  lemma LiftOwnStep(lock: InstallLock.State, s: Sys, l: InstallLock.Event)
    requires AssetLock.DoAsset(lock, l).Some? && s.lock == lock
    requires if l.Enter? then s.Phase(l.t).Acquiring?
             else if l.Leave? then s.Phase(l.t) == Leaving(NotCovered)
             else Fits(lock.Pc(l.t), s.Phase(l.t))
    ensures DoLock(s, l).Some? && !s.Phase(l.t).UnderWay()
    ensures Fits(AssetLock.DoAsset(lock, l).value.Pc(l.t), DoLock(s, l).value.Phase(l.t))
  {
  }

  // ---------------------------------------------------------------------------------------
  // What installers do under the lock

  /** From the lock to an absent destination and a stage still to be filled. */
  lemma FindsNothing(m: Manifest, c: Scope, s: Sys, t: Tid) returns (s': Sys)
    requires Leads(m, c, IDLE, s) && s.covered && s.dest.Absent? && t in c.threads && s.Phase(t).SecondRequire?
    ensures Leads(m, c, IDLE, s') && s'.lock == s.lock && s'.covered && s'.dest.Absent?
    ensures s'.Phase(t).Populating? && forall u | u != t :: s'.Phase(u) == s.Phase(u)
  {
    hide Leads;
    s' := Advance(m, c, IDLE, s, Require(t));
    s' := Advance(m, c, IDLE, s', Ready(t));
    s' := Advance(m, c, IDLE, s', Exists(t));
  }

  /** The stage is filled and verified, and then altered or not. */
  lemma Stages(m: Manifest, c: Scope, s: Sys, t: Tid, good: Tree, stage: Tree) returns (s': Sys)
    requires Leads(m, c, IDLE, s) && s.covered && t in c.threads && s.Phase(t).Populating? && m.matches(good)
    ensures Leads(m, c, IDLE, s') && s'.lock == s.lock && s'.covered && s'.dest == s.dest
    ensures s'.Phase(t) == Looking(stage) && forall u | u != t :: s'.Phase(u) == s.Phase(u)
  {
    hide Leads;
    s' := Advance(m, c, IDLE, s, Populate(t, good));
    s' := Advance(m, c, IDLE, s', Verify(t));
    s' := Advance(m, c, IDLE, s', Require(t));
    s' := Advance(m, c, IDLE, s', AlterStage(t, stage));
  }

  /** It is published over nothing. */
  lemma Renames(m: Manifest, c: Scope, s: Sys, t: Tid, stage: Tree) returns (s': Sys)
    requires Leads(m, c, IDLE, s) && s.covered && s.dest.Absent? && t in c.threads && s.Phase(t) == Looking(stage)
    ensures Leads(m, c, IDLE, s') && s'.lock == s.lock && s'.covered && s'.dest == Tree(stage)
    ensures s'.Phase(t) == Finishing(stage) && forall u | u != t :: s'.Phase(u) == s.Phase(u)
  {
    hide Leads;
    s' := Advance(m, c, IDLE, s, Look(t));
    s' := Advance(m, c, IDLE, s', Rename(t));
  }

  /** It is exchanged with the tree that another installer published meanwhile. */
  lemma Exchanges(m: Manifest, c: Scope, s: Sys, t: Tid, stage: Tree) returns (s': Sys)
    requires Leads(m, c, IDLE, s) && s.covered && s.dest.Tree? && t in c.threads && s.Phase(t) == Looking(stage)
    ensures Leads(m, c, IDLE, s') && s'.lock == s.lock && s'.covered && s'.dest == Tree(stage)
    ensures s'.Phase(t) == Removing(stage) && forall u | u != t :: s'.Phase(u) == s.Phase(u)
  {
    hide Leads;
    s' := Advance(m, c, IDLE, s, Look(t));
    s' := Advance(m, c, IDLE, s', Guard(t));
    s' := Advance(m, c, IDLE, s', Exchange(t));
  }

  /** Two installers are under the lock, and both have found nothing. */
  lemma BothFindNothing(m: Manifest, c: Scope, t: Tid, u: Tid) returns (s: Sys)
    requires t in c.threads && u in c.threads && t != u
    ensures Leads(m, c, IDLE, s) && s.covered && s.dest.Absent?
    ensures s.Phase(t).Populating? && s.Phase(u).Populating? && forall v :: !s.Phase(v).UnderWay()
  {
    var schedule := AssetLock.TwoHolders(t, u);
    s := Lift(m, c, schedule);
    hide Leads, Do, AssetLock.RunAsset;
    assert Fits(s.lock.Pc(t), s.Phase(t)) && Fits(s.lock.Pc(u), s.Phase(u));
    assert forall v :: Fits(s.lock.Pc(v), s.Phase(v)) ==> !s.Phase(v).UnderWay();
    s := FindsNothing(m, c, s, t);
    s := FindsNothing(m, c, s, u);
  }

  /** One installer has published a tree that was altered after it matched. */
  lemma PublishesBad(m: Manifest, c: Scope, t: Tid, good: Tree, bad: Tree) returns (s: Sys)
    requires t in c.threads && m.matches(good)
    ensures Leads(m, c, IDLE, s) && s.covered && s.dest == Tree(bad)
    ensures s.Phase(t) == Finishing(bad) && forall v | v != t :: !s.Phase(v).UnderWay()
    ensures s.lock.Pc(t).Inside?
  {
    var _ := AssetLock.Acquires(AssetLock.EMPTY, t, 0);
    s := Lift(m, c, AssetLock.Enters(t, 0));
    hide Leads, Do, AssetLock.RunAsset;
    assert Fits(s.lock.Pc(t), s.Phase(t));
    assert forall v :: Fits(s.lock.Pc(v), s.Phase(v)) ==> !s.Phase(v).UnderWay();
    s := FindsNothing(m, c, s, t);
    s := Stages(m, c, s, t, good, bad);
    s := Renames(m, c, s, t, bad);
  }

  /**
   Two installers are enough for what the comment at the withdrawal rules out: one of them has been
   told that its tree is installed, and the other is about to remove that tree.
   */
  lemma WithdrawsAnothers(m: Manifest, c: Scope, t: Tid, u: Tid, good: Tree, bad: Tree) returns (s: Sys)
    requires t in c.threads && u in c.threads && t != u && m.matches(good) && !m.matches(bad)
    ensures Leads(m, c, IDLE, s) && Ended(s, u, Returned) && m.Verified(s.dest)
    ensures s.Phase(t) == Withdrawing(bad) && s.dest == Tree(good)
  {
    hide Leads;
    s := BothFindNothing(m, c, t, u);
    s := Stages(m, c, s, t, good, bad);
    s := Renames(m, c, s, t, bad);
    s := Moves(m, c, IDLE, s, Finish(t), t);
    s := Stages(m, c, s, u, good, good);
    s := Exchanges(m, c, s, u, good);
    s := Moves(m, c, IDLE, s, Remove(u), u);
    s := Moves(m, c, IDLE, s, Finish(u), u);
  }

  /** And then it does: a tree reported as installed is gone, and nobody but installers has touched it. */
  lemma AnotherInstallersTreeIsRemoved(m: Manifest, c: Scope, t: Tid, u: Tid, good: Tree, bad: Tree)
    returns (returned: Sys, removed: Sys)
    requires t in c.threads && u in c.threads && t != u && m.matches(good) && !m.matches(bad)
    ensures Leads(m, c, IDLE, returned) && Ended(returned, u, Returned) && m.Verified(returned.dest)
    ensures Leads(m, c, returned, removed) && Ended(removed, u, Returned) && removed.dest.Absent?
    ensures Ended(removed, t, FinalRefused)
  {
    hide Leads;
    returned := WithdrawsAnothers(m, c, t, u, good, bad);
    Stays(m, c, returned);
    removed := Moves(m, c, returned, returned, Withdraw(t), t);
  }

  /** The trees of the examples: tree 0 is the manifest's. */
  const EXACT: Manifest := Manifest((x: Tree) => x == 0, (x: Tree) => false)

  lemma ReachedBy(m: Manifest, c: Scope, s: Sys) returns (schedule: seq<Event>, trace: seq<Sys>)
    requires Leads(m, c, IDLE, s)
    ensures IsRunOf(m, c, schedule, trace) && trace[0] == IDLE && trace[|schedule|] == s
  {
    schedule, trace :|
      && Steps(m, schedule, trace) && Within(c, schedule, trace) && trace[0] == IDLE && trace[|schedule|] == s;
  }

  /** A run that ends in s refutes the property. */
  lemma EndsWrong(c: Scope, s: Sys)
    requires Leads(EXACT, c, IDLE, s) && s.dest == Tree(1) && forall v :: !s.Phase(v).UnderWay()
    ensures !LeavesNothingWrong(c)
  {
    var schedule, trace := ReachedBy(EXACT, c, s);
    assert !Fine(EXACT, trace[0].dest, trace[|schedule|].dest);
    hide Do, Permits;
  }

  /** The final verification raises. */
  lemma FailedCheckLeavesWrong(c: Scope, t: Tid)
    requires t in c.threads && c.faults.check
    ensures !LeavesNothingWrong(c)
  {
    hide Leads, LeavesNothingWrong;
    var s := PublishesBad(EXACT, c, t, 0, 1);
    var s' := Moves(EXACT, c, IDLE, s, FinishFails(t), t);
    EndsWrong(c, s');
  }

  /** The withdrawal fails. */
  lemma FailedWithdrawalLeavesWrong(c: Scope, t: Tid)
    requires t in c.threads && c.faults.withdraw
    ensures !LeavesNothingWrong(c)
  {
    hide Leads, LeavesNothingWrong;
    var s := PublishesBad(EXACT, c, t, 0, 1);
    var s' := Moves(EXACT, c, IDLE, s, Finish(t), t);
    s' := Moves(EXACT, c, IDLE, s', WithdrawFails(t, 1), t);
    EndsWrong(c, s');
  }

  /** The process is killed after the publication. */
  lemma KillLeavesWrong(c: Scope, t: Tid)
    requires t in c.threads && c.faults.kill
    ensures !LeavesNothingWrong(c)
  {
    hide Leads, LeavesNothingWrong;
    var s := PublishesBad(EXACT, c, t, 0, 1);
    KillIsPossible(s, t);
    var s' := Moves(EXACT, c, IDLE, s, Lock(InstallLock.Kill(t)), t);
    EndsWrong(c, s');
  }

  lemma KillIsPossible(s: Sys, t: Tid)
    requires s.lock.Pc(t).Inside?
    ensures DoLock(s, InstallLock.Kill(t)).Some?
    ensures var s' := DoLock(s, InstallLock.Kill(t)).value;
            s'.dest == s.dest && s'.Phase(t).Outside? && forall v | v != t :: s'.Phase(v) == s.Phase(v)
  {
  }

  /** A superseded tree cannot be removed, once there are two installers. */
  lemma RemovalLeavesWrong(c: Scope, t: Tid, u: Tid)
    requires t in c.threads && u in c.threads && t != u && c.faults.remove
    ensures !LeavesNothingWrong(c)
  {
    hide Leads, LeavesNothingWrong;
    var s := BothFindNothing(EXACT, c, t, u);
    s := Stages(EXACT, c, s, u, 0, 0);
    s := Renames(EXACT, c, s, u, 0);
    var s' := Moves(EXACT, c, IDLE, s, Finish(u), u);
    s' := Stages(EXACT, c, s', t, 0, 1);
    s' := Exchanges(EXACT, c, s', t, 1);
    s' := Moves(EXACT, c, IDLE, s', RemoveFails(t), t);
    EndsWrong(c, s');
  }

  /**
   A refusal leaves nothing behind exactly if, once a tree is published, the final verification does
   not raise, the withdrawal works and nobody is killed, and, where there are two installers, every
   superseded tree can be removed. Exclusion is not needed for it.
   */
  lemma LeavesNothingWrongExactly(c: Scope)
    ensures LeavesNothingWrong(c) <==>
              || c.threads == {}
              || (&& !c.faults.check && !c.faults.withdraw && !c.faults.kill
                  && (c.faults.remove ==> |c.threads| <= 1))
  {
    hide Leads;
    if c.threads != {} && (c.faults.check || c.faults.withdraw || c.faults.kill) {
      var t :| t in c.threads;
      if c.faults.check { FailedCheckLeavesWrong(c, t); }
      else if c.faults.withdraw { FailedWithdrawalLeavesWrong(c, t); }
      else { KillLeavesWrong(c, t); }
    } else if c.faults.remove && |c.threads| > 1 {
      var t, u := AssetLock.TwoMembers(c.threads);
      RemovalLeavesWrong(c, t, u);
    } else {
      forall m: Manifest, schedule: seq<Event>, trace: seq<Sys>, k: nat |
          IsRunOf(m, c, schedule, trace) && k <= |schedule| && !SomeoneUnderWay(trace[k])
        ensures Fine(m, trace[0].dest, trace[k].dest)
      {
        if c.threads == {} {
          NobodyChangesNothing(m, c, schedule, trace, k);
        } else {
          var none := c.(faults := Faults(false, false, false, false));
          if c.faults.remove { AloneNeverRemoves(m, c, schedule, trace); }
          FineWithoutFaults(m, none, schedule, trace, k);
        }
      }
    }
  }

  lemma {:induction false} NobodyChangesNothing(m: Manifest, c: Scope, schedule: seq<Event>, trace: seq<Sys>, k: nat)
    requires IsRunOf(m, c, schedule, trace) && k <= |schedule| && c.threads == {}
    ensures trace[k].dest == trace[0].dest
  {
    if k > 0 {
      NobodyChangesNothing(m, c, schedule, trace, k - 1);
      assert Permits(c, trace[k - 1], schedule[k - 1]);
      assert Do(m, trace[k - 1], schedule[k - 1]) == Some(trace[k]);
    }
  }

  // ---------------------------------------------------------------------------------------
  // A withdrawal removes only its own tree

  /** Whatever is withdrawn is the tree that the withdrawing installer published. */
  ghost predicate WithdrawsOwn(c: Scope) {
    forall m: Manifest, schedule: seq<Event>, trace: seq<Sys>, k: nat |
      IsRunOf(m, c, schedule, trace) && k < |schedule| && (schedule[k].Withdraw? || schedule[k].WithdrawFails?) ::
      var p := trace[k].Phase(schedule[k].t);
      p.Withdrawing? && trace[k].dest == Tree(p.published)
  }

  /** What `_withdraw_selection` says of itself is true exactly if there is one installer. */
  lemma WithdrawsOwnExactlyAlone(c: Scope)
    ensures WithdrawsOwn(c) <==> |c.threads| <= 1
  {
    if |c.threads| <= 1 {
      forall m: Manifest, schedule: seq<Event>, trace: seq<Sys>, k: nat |
          IsRunOf(m, c, schedule, trace) && k < |schedule| && (schedule[k].Withdraw? || schedule[k].WithdrawFails?)
        ensures var p := trace[k].Phase(schedule[k].t); p.Withdrawing? && trace[k].dest == Tree(p.published)
      {
        AloneIsExcluded(m, c, schedule, trace);
        WithdrawsOnlyItsOwn(m, schedule, trace, k);
      }
    } else {
      var t, u := AssetLock.TwoMembers(c.threads);
      var s := WithdrawsAnothers(EXACT, c, t, u, 0, 1);
      var s' := Advance(EXACT, c, IDLE, s, Withdraw(t));
      var schedule, trace := ReachedBy(EXACT, c, s);
      ExtendRun(EXACT, c, schedule, trace, Withdraw(t), s');
      assert (schedule + [Withdraw(t)])[|schedule|] == Withdraw(t) && (trace + [s'])[|schedule|] == s;
      hide Do, Steps, Within;
    }
  }

  lemma ExtendRun(m: Manifest, c: Scope, schedule: seq<Event>, trace: seq<Sys>, e: Event, s': Sys)
    requires IsRunOf(m, c, schedule, trace)
    requires Do(m, trace[|schedule|], e) == Some(s') && Permits(c, trace[|schedule|], e)
    ensures IsRunOf(m, c, schedule + [e], trace + [s'])
  {
    hide Do, Permits;
  }

  /** A verified tree, once at the destination, stays there. */
  ghost predicate VerifiedStays(c: Scope) {
    forall m: Manifest, schedule: seq<Event>, trace: seq<Sys>, k: nat, n: nat |
      IsRunOf(m, c, schedule, trace) && k <= n <= |schedule| && m.Verified(trace[k].dest) ::
      trace[n].dest == trace[k].dest
  }

  lemma VerifiedStaysExactlyAlone(c: Scope)
    ensures VerifiedStays(c) <==> |c.threads| <= 1
  {
    if |c.threads| <= 1 {
      forall m: Manifest, schedule: seq<Event>, trace: seq<Sys>, k: nat, n: nat |
          IsRunOf(m, c, schedule, trace) && k <= n <= |schedule| && m.Verified(trace[k].dest)
        ensures trace[n].dest == trace[k].dest
      {
        AloneIsExcluded(m, c, schedule, trace);
        VerifiedTreeStays(m, schedule, trace, k, n);
      }
    } else {
      var t, u := AssetLock.TwoMembers(c.threads);
      var s := WithdrawsAnothers(EXACT, c, t, u, 0, 1);
      var s' := Advance(EXACT, c, IDLE, s, Withdraw(t));
      var schedule, trace := ReachedBy(EXACT, c, s);
      ExtendRun(EXACT, c, schedule, trace, Withdraw(t), s');
      var k := |schedule|;
      assert (trace + [s'])[k] == s && (trace + [s'])[k + 1] == s';
      hide Do, Steps, Within;
    }
  }
}
