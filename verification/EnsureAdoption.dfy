/**
 That callers of `Installer.ensure` adopt the tree that another one has selected, and exactly when every call
 that ends has returned a tree.
 */
module EnsureAdoption {
  import opened Common
  import opened Ensure
  import opened EnsureLimits
  import InstallLock

  // ---------------------------------------------------------------------------------------
  // One call

  predicate IsKill(e: Event, t: Tid) {
    e == Lock(InstallLock.Kill(t))
  }

  /** Thread t's call is under the lock, with the ready tree still to be looked at, or leaves with it. */
  predicate Adopting(s: Sys, t: Tid, dest: Option<Tree>) {
    s.Calls(t) == [Recheck] || s.Calls(t) == [Leaving(dest)]
  }

  /** The step ends thread t's call, which returns the tree. */
  predicate Returns(s: Sys, s': Sys, t: Tid, x: Tree) {
    && s.Calls(t) == [Leaving(Some(x))] && s'.Calls(t) == []
    && s'.returned == s.returned + [x] && s'.raised == s.raised
  }

  lemma AdoptingStep(p: Policy, s: Sys, e: Event, t: Tid)
    requires !p.nesting && Invariant(p, s) && Do(p, s, e).Some?
    requires p.Ready(s.dest) && Adopting(s, t, s.dest) && !IsKill(e, t)
    ensures var s' := Do(p, s, e).value;
      && s'.dest == s.dest
      && (Adopting(s', t, s.dest) || Returns(s, s', t, s.dest.value))
  {
    OnlyUnreadyReplaced(p, s, e);
    if e.Thread() == t {
      assert Agrees(s.Calls(t), s.lock.Pc(t));
      hide Invariant;
      if e.Lock? { LeavingStep(p, s, e.e); }
    } else {
      StepMovesOnly(p, s, e);
    }
  }

  /** A lock step of a call that leaves: it goes on leaving, or ends. */
  lemma LeavingStep(p: Policy, s: Sys, l: InstallLock.Event)
    requires DoLock(s, l).Some? && !l.Kill? && |s.Calls(l.t)| == 1
    requires s.Calls(l.t)[0].Recheck? || s.Calls(l.t)[0].Leaving?
    requires Agrees(s.Calls(l.t), s.lock.Pc(l.t))
    ensures s.Calls(l.t)[0].Leaving?
    ensures var s', outcome := DoLock(s, l).value, s.Calls(l.t)[0].outcome;
      || s'.Calls(l.t) == s.Calls(l.t)
      || (&& s'.Calls(l.t) == []
          && s'.returned == (if outcome.Some? then s.returned + [outcome.value] else s.returned)
          && s'.raised == (if outcome.Some? then s.raised else s.raised + 1))
  {
  }

  /** Event j of the run ends thread t's call with the tree. */
  ghost predicate ReturnsAt(p: Policy, s: Sys, more: seq<Event>, j: nat, t: Tid, x: Tree)
    requires j < |more|
  {
    && Run(p, s, more[..j]).Some? && Run(p, s, more[..j + 1]).Some?
    && Returns(Run(p, s, more[..j]).value, Run(p, s, more[..j + 1]).value, t, x)
  }

  ghost predicate HasReturned(p: Policy, s: Sys, more: seq<Event>, t: Tid, x: Tree) {
    exists j | 0 <= j < |more| :: ReturnsAt(p, s, more, j, t, x)
  }

  lemma HadReturned(p: Policy, s: Sys, front: seq<Event>, e: Event, t: Tid, x: Tree)
    requires HasReturned(p, s, front, t, x)
    ensures HasReturned(p, s, front + [e], t, x)
  {
    hide Run, Returns;
    var j :| 0 <= j < |front| && ReturnsAt(p, s, front, j, t, x);
    assert (front + [e])[..j] == front[..j] && (front + [e])[..j + 1] == front[..j + 1];
    assert ReturnsAt(p, s, front + [e], j, t, x);
  }

  lemma ReturnsNow(p: Policy, s: Sys, front: seq<Event>, e: Event, t: Tid, x: Tree)
    requires Run(p, s, front).Some? && Run(p, s, front + [e]).Some?
    requires Returns(Run(p, s, front).value, Run(p, s, front + [e]).value, t, x)
    ensures HasReturned(p, s, front + [e], t, x)
  {
    hide Run, Returns;
    assert (front + [e])[..|front|] == front && (front + [e])[..|front| + 1] == front + [e];
    assert ReturnsAt(p, s, front + [e], |front|, t, x);
  }

  /** After the events, thread t's call still has the ready tree, or has returned it. */
  ghost predicate Adopted(p: Policy, s: Sys, more: seq<Event>, t: Tid) {
    && Run(p, s, more).Some? && p.Ready(s.dest)
    && (|| (Adopting(Run(p, s, more).value, t, s.dest) && Run(p, s, more).value.dest == s.dest)
        || HasReturned(p, s, more, t, s.dest.value))
  }

  lemma StillAdopted(p: Policy, s: Sys, front: seq<Event>, e: Event, t: Tid)
    requires !p.nesting && Adopted(p, s, front, t) && Invariant(p, Run(p, s, front).value)
    requires Do(p, Run(p, s, front).value, e).Some? && !IsKill(e, t)
    ensures Adopted(p, s, front + [e], t)
  {
    hide Do, Invariant, Adopting, Returns, HasReturned;
    assert (front + [e])[..|front|] == front;
    if HasReturned(p, s, front, t, s.dest.value) {
      HadReturned(p, s, front, e, t, s.dest.value);
    } else {
      var m := Run(p, s, front).value;
      AdoptingStep(p, m, e, t);
      if Returns(m, Do(p, m, e).value, t, s.dest.value) { ReturnsNow(p, s, front, e, t, s.dest.value); }
    }
  }

  /**
   A call that gets the lock while a ready tree is at the destination ends by returning that tree, unless its
   thread is killed: it never builds and never raises.
   */
  lemma {:induction false} EntrantAdopts(p: Policy, s: Sys, more: seq<Event>, t: Tid)
    requires !p.nesting && Invariant(p, s) && Run(p, s, more).Some?
    requires s.Calls(t) == [Recheck] && p.Ready(s.dest)
    requires forall e | e in more :: !IsKill(e, t)
    ensures Invariant(p, Run(p, s, more).value) && Adopted(p, s, more, t)
  {
    if more != [] {
      hide Do, Invariant, Adopted;
      var front, e := more[..|more| - 1], more[|more| - 1];
      EntrantAdopts(p, s, front, t);
      StepKeepsInvariant(p, Run(p, s, front).value, e);
      StillAdopted(p, s, front, e, t);
      assert more == front + [e];
    }
  }

  /** A call that starts while a ready tree is at the destination never goes near the lock. */
  lemma {:induction false} ReadyNeedsNoLock(p: Policy, s: Sys, more: seq<Event>, t: Tid)
    requires !p.nesting && Invariant(p, s) && Run(p, s, more).Some?
    requires s.Calls(t) == [] && p.Ready(s.dest)
    ensures var s' := Run(p, s, more).value;
      && Invariant(p, s') && s'.dest == s.dest
      && (s'.Calls(t) == [] || s'.Calls(t) == [Start]) && s'.lock.Pc(t).Idle?
  {
    if more != [] {
      var front, e := more[..|more| - 1], more[|more| - 1];
      ReadyNeedsNoLock(p, s, front, t);
      var m := Run(p, s, front).value;
      OnlyUnreadyReplaced(p, m, e);
      StepKeepsInvariant(p, m, e);
      StepMovesOnly(p, m, e);
      hide Invariant, InstallLock.Do;
      assert AllAgree(Run(p, s, more).value) by { InvariantAgrees(p, Run(p, s, more).value); }
    } else {
      InvariantAgrees(p, s);
    }
  }

  lemma InvariantAgrees(p: Policy, s: Sys)
    requires Invariant(p, s)
    ensures AllAgree(s)
  {
  }

  // ---------------------------------------------------------------------------------------
  // All calls of a run in which only the given steps may fail

  predicate CheckedAreReady(p: Policy, x: Tree) {
    p.stageChecks(x) ==> p.ready(x)
  }

  /** A ready tree, or one that may be built over where whatever is built will be ready. */
  ghost predicate Acceptable(p: Policy, dest: Option<Tree>) {
    p.Ready(dest) || (MayBuild(p, dest) && forall x :: CheckedAreReady(p, x))
  }

  /** Neither locks nor builds may fail, and publications only where no tree gets that far. */
  ghost predicate Harmless(p: Policy, f: Faults) {
    !f.lock && !f.build && (f.publish ==> forall x :: !p.stageChecks(x))
  }

  /** A call that is not about to raise. */
  predicate GoingWell(p: Policy, dest: Option<Tree>, stack: seq<Phase>, pc: InstallLock.Pc) {
    stack != [] ==>
      && (stack[0].Leaving? ==> stack[0].outcome.Some?)
      && (stack[0].Confirming? ==> p.Ready(dest))
      && !pc.Failing?
  }

  ghost predicate AllGoWell(p: Policy, s: Sys) {
    && s.raised == 0 && Acceptable(p, s.dest)
    && forall t :: GoingWell(p, s.dest, s.Calls(t), s.lock.Pc(t))
  }

  /** What thread t's step does, if it does no harm. */
  ghost predicate GoodEffect(p: Policy, s: Sys, s': Sys, t: Tid) {
    && s'.raised == 0 && GoingWell(p, s'.dest, s'.Calls(t), s'.lock.Pc(t))
    && (s'.dest == s.dest || p.Ready(s'.dest))
  }

  lemma CallStepGoesWell(p: Policy, f: Faults, s: Sys, e: Event)
    requires !p.nesting && !e.Lock? && Harmless(p, f) && Permits(f, e) && Do(p, s, e).Some?
    requires Agrees(s.Calls(e.t), s.lock.Pc(e.t)) && AllGoWell(p, s)
    requires s.Calls(e.t) != [] && s.Calls(e.t)[0].FoundUnready() ==> !p.Ready(s.dest)
    requires s.Calls(e.t) != [] && s.Calls(e.t)[0].Publishing? ==> p.stageChecks(s.Calls(e.t)[0].tree)
    ensures GoodEffect(p, s, Do(p, s, e).value, e.t)
  {
    assert GoingWell(p, s.dest, s.Calls(e.t), s.lock.Pc(e.t));
    if s.Calls(e.t) != [] && s.Calls(e.t)[0].Publishing? {
      assert CheckedAreReady(p, s.Calls(e.t)[0].tree);
    }
  }

  lemma LockStepGoesWell(p: Policy, f: Faults, s: Sys, l: InstallLock.Event)
    requires Harmless(p, f) && Permits(f, Lock(l)) && DoLock(s, l).Some?
    requires Agrees(s.Calls(l.t), s.lock.Pc(l.t)) && AllGoWell(p, s)
    ensures GoodEffect(p, s, DoLock(s, l).value, l.t)
  {
    assert GoingWell(p, s.dest, s.Calls(l.t), s.lock.Pc(l.t));
  }

  lemma StepGoesWell(p: Policy, f: Faults, s: Sys, e: Event)
    requires !p.nesting && Invariant(p, s) && AllGoWell(p, s)
    requires Harmless(p, f) && Permits(f, e) && Do(p, s, e).Some?
    ensures AllGoWell(p, Do(p, s, e).value)
  {
    var s', t := Do(p, s, e).value, e.Thread();
    assert Agrees(s.Calls(t), s.lock.Pc(t));
    if e.Lock? { LockStepGoesWell(p, f, s, e.e); } else { CallStepGoesWell(p, f, s, e); }
    StepMovesOnly(p, s, e);
    hide Do, Agrees, Invariant, Harmless;
    forall u ensures GoingWell(p, s'.dest, s'.Calls(u), s'.lock.Pc(u)) {
      if u != t { assert GoingWell(p, s.dest, s.Calls(u), s.lock.Pc(u)); }
    }
  }

  /** In a run without harmful failures no call ends by raising. */
  lemma {:induction false} HarmlessRunGoesWell(p: Policy, f: Faults, s0: Sys, schedule: seq<Event>)
    requires !p.nesting && Init(s0) && Acceptable(p, s0.dest) && Harmless(p, f)
    requires Within(f, schedule) && Run(p, s0, schedule).Some?
    ensures AllGoWell(p, Run(p, s0, schedule).value)
  {
    if schedule != [] {
      var front := schedule[..|schedule| - 1];
      assert Within(f, front);
      HarmlessRunGoesWell(p, f, s0, front);
      Reachable(p, s0, front);
      StepGoesWell(p, f, Run(p, s0, front).value, schedule[|schedule| - 1]);
    }
  }

  /** With a ready tree there from the start, no call gets far enough for anything to fail. */
  ghost predicate AllQuick(p: Policy, s: Sys) {
    && s.raised == 0 && p.Ready(s.dest)
    && forall t :: s.Calls(t) == [] || s.Calls(t) == [Start]
  }

  lemma QuickStep(p: Policy, s: Sys, e: Event)
    requires !p.nesting && AllQuick(p, s) && (e.Lock? ==> !e.e.Kill?)
    requires Do(p, s, e).Some?
    ensures AllQuick(p, Do(p, s, e).value)
  {
    var t := e.Thread();
    assert s.Calls(t) == [] || s.Calls(t) == [Start];
    StepMovesOnly(p, s, e);
    hide InstallLock.Do;
  }

  lemma {:induction false} ReadyRunIsQuick(p: Policy, f: Faults, s0: Sys, schedule: seq<Event>)
    requires !p.nesting && Init(s0) && p.Ready(s0.dest)
    requires Within(f, schedule) && Run(p, s0, schedule).Some?
    ensures AllQuick(p, Run(p, s0, schedule).value)
  {
    if schedule != [] {
      var front := schedule[..|schedule| - 1];
      assert Within(f, front) && Permits(f, schedule[|schedule| - 1]);
      ReadyRunIsQuick(p, f, s0, front);
      QuickStep(p, Run(p, s0, front).value, schedule[|schedule| - 1]);
    }
  }

  // ---------------------------------------------------------------------------------------
  // And when one raises

  function Origin(dest: Option<Tree>): Sys {
    NOBODY.(dest := dest)
  }

  /** What the preparation refuses makes the call raise. */
  lemma RefusedCallRaises(p: Policy, f: Faults, dest: Option<Tree>) returns (s: Sys)
    requires !p.Ready(dest) && !MayBuild(p, dest)
    ensures Leads(p, f, Origin(dest), s) && s.raised == 1
  {
    hide Leads;
    var s0 := Origin(dest);
    StartLeads(p, f, s0);
    CallLocks(p, f, s0, s0);
    var held := Solo(InstallLock.Inside(0, 0));
    var at := From(s0, held, [], Recheck);
    CallTurns(p, f, s0, at, [], Recheck, SecondReady(0), at, Preparing);
    at := From(s0, held, [], Preparing);
    CallTurns(p, f, s0, at, [], Preparing, Prepare(0), at, Leaving(None));
    s := CallEnds(p, f, s0, s0);
  }

  /** So does a tree that passes the checks and is not ready. */
  lemma UnreadyBuildRaises(p: Policy, f: Faults, dest: Option<Tree>, x: Tree) returns (s: Sys)
    requires !p.Ready(dest) && MayBuild(p, dest) && !CheckedAreReady(p, x)
    ensures Leads(p, f, Origin(dest), s) && s.raised == 1
  {
    hide Leads;
    StartLeads(p, f, Origin(dest));
    s := UnreadyIsSelected(p, f, Origin(dest), Origin(dest), x);
    s := CallEnds(p, f, Origin(dest), s);
  }

  /** So does a lock file that cannot be opened. */
  lemma FailedLockRaises(p: Policy, f: Faults, dest: Option<Tree>) returns (s: Sys)
    requires !p.Ready(dest) && f.lock
    ensures Leads(p, f, Origin(dest), s) && s.raised == 1
  {
    hide Leads;
    var s0 := Origin(dest);
    StartLeads(p, f, s0);
    CallStarts(p, f, s0, s0);
    var opening := s0.lock.(pcs := map[0 := InstallLock.Opening]);
    assert s0.lock.Goto(0, InstallLock.Opening).pcs == opening.pcs;
    assert InstallLock.Do(s0.lock, InstallLock.Enter(0)) == Some(opening);
    LockTurns(p, f, s0, From(s0, s0.lock, [], Waiting), [], InstallLock.Enter(0), opening);
    s := Advance(p, f, s0, From(s0, opening, [], Waiting), Lock(InstallLock.OpenFails(0)));
  }

  /** So does a failing build. */
  lemma FailedBuildRaises(p: Policy, f: Faults, dest: Option<Tree>) returns (s: Sys)
    requires !p.Ready(dest) && MayBuild(p, dest) && f.build
    ensures Leads(p, f, Origin(dest), s) && s.raised == 1
  {
    hide Leads;
    var s0 := Origin(dest);
    StartLeads(p, f, s0);
    CallBuilds(p, f, s0, s0);
    var at := From(s0, Solo(InstallLock.Inside(0, 0)), [], Building);
    CallTurns(p, f, s0, at, [], Building, BuildFails(0), at, Leaving(None));
    s := CallEnds(p, f, s0, s0);
  }

  /** So does a failing publication, of any tree that gets that far. */
  lemma FailedPublicationRaises(p: Policy, f: Faults, dest: Option<Tree>, x: Tree) returns (s: Sys)
    requires !p.Ready(dest) && MayBuild(p, dest) && f.publish && p.stageChecks(x)
    ensures Leads(p, f, Origin(dest), s) && s.raised == 1 && s.dest == dest
  {
    hide Leads;
    var s0 := Origin(dest);
    StartLeads(p, f, s0);
    CallBuilds(p, f, s0, s0);
    var held := Solo(InstallLock.Inside(0, 0));
    var at := From(s0, held, [], Building);
    CallTurns(p, f, s0, at, [], Building, Built(0, x), at, Publishing(x));
    at := From(s0, held, [], Publishing(x));
    CallTurns(p, f, s0, at, [], Publishing(x), PublishFails(0), at, Leaving(None));
    s := CallEnds(p, f, s0, s0);
  }

  /** Or the superseded tree cannot be removed: the call raises although its tree is selected. */
  lemma LateFailureRaises(p: Policy, f: Faults, dest: Option<Tree>, x: Tree) returns (s: Sys)
    requires dest.Some? && !p.Ready(dest) && MayBuild(p, dest) && f.publish && p.stageChecks(x)
    ensures Leads(p, f, Origin(dest), s) && s.raised == 1 && s.dest == Some(x) && s.selected == [x]
  {
    hide Leads;
    var s0 := Origin(dest);
    StartLeads(p, f, s0);
    CallBuilds(p, f, s0, s0);
    var held := Solo(InstallLock.Inside(0, 0));
    var at := From(s0, held, [], Building);
    CallTurns(p, f, s0, at, [], Building, Built(0, x), at, Publishing(x));
    at := From(s0, held, [], Publishing(x));
    var s1 := s0.(dest := Some(x), selected := s0.selected + [x]);
    var next := at.(dest := s1.dest, selected := s1.selected);
    CallTurns(p, f, s0, at, [], Publishing(x), PublishThenFails(0), next, Leaving(None));
    s := CallEnds(p, f, s0, s1);
  }

  lemma SomeCallRaises(p: Policy, f: Faults, dest: Option<Tree>) returns (s: Sys)
    requires !p.Ready(dest) && !(Acceptable(p, dest) && Harmless(p, f))
    ensures Leads(p, f, Origin(dest), s) && s.raised == 1
  {
    hide Leads, MayBuild;
    if !MayBuild(p, dest) {
      s := RefusedCallRaises(p, f, dest);
    } else if f.lock {
      s := FailedLockRaises(p, f, dest);
    } else if f.build {
      s := FailedBuildRaises(p, f, dest);
    } else if x :| !CheckedAreReady(p, x) {
      s := UnreadyBuildRaises(p, f, dest, x);
    } else {
      var x :| p.stageChecks(x);
      s := FailedPublicationRaises(p, f, dest, x);
    }
  }

  /** Every call that has ended has returned, and what it returned is the ready tree at the destination. */
  ghost predicate EveryCallAdopts(p: Policy, f: Faults, dest: Option<Tree>) {
    forall s0: Sys, s: Sys | Init(s0) && s0.dest == dest && Leads(p, f, s0, s) ::
      s.raised == 0 && forall x | x in s.returned :: s.dest == Some(x) && p.ready(x)
  }

  /**
   Without nested calls, in all runs of any threads in which only the given steps may fail, every call that ends
   returns the one ready tree at the destination, exactly if the first destination is ready, or may be built
   over by trees that will be ready and no failure does harm.
   */
  lemma EveryCallAdoptsExactly(p: Policy, f: Faults, dest: Option<Tree>)
    requires !p.nesting
    ensures EveryCallAdopts(p, f, dest) <==> p.Ready(dest) || (Acceptable(p, dest) && Harmless(p, f))
  {
    hide Leads, MayBuild, Harmless, Acceptable;
    if p.Ready(dest) || (Acceptable(p, dest) && Harmless(p, f)) {
      forall s0: Sys, s: Sys | Init(s0) && s0.dest == dest && Leads(p, f, s0, s)
        ensures s.raised == 0 && forall x | x in s.returned :: s.dest == Some(x) && p.ready(x)
      {
        var schedule := ThatWay(p, f, s0, s);
        if p.Ready(dest) { ReadyRunIsQuick(p, f, s0, schedule); } else { HarmlessRunGoesWell(p, f, s0, schedule); }
        WaitersAdopt(p, s0, schedule);
      }
    } else {
      var s := SomeCallRaises(p, f, dest);
      assert Init(Origin(dest));
    }
  }

  lemma ThatWay(p: Policy, f: Faults, s0: Sys, s: Sys) returns (schedule: seq<Event>)
    requires Leads(p, f, s0, s)
    ensures Within(f, schedule) && Run(p, s0, schedule) == Some(s)
  {
    schedule :| Within(f, schedule) && Run(p, s0, schedule) == Some(s);
  }

  /**
   A thread that is anywhere in the lock may be killed. Its calls are gone without a result, its flock and its
   key with them, and nothing else has changed: not the lock file, the destination, or another thread's calls.
   */
  lemma KilledAnywhere(p: Policy, s: Sys, t: Tid)
    requires !p.nesting && Invariant(p, s) && !s.lock.Pc(t).Idle?
    ensures Do(p, s, Lock(InstallLock.Kill(t))).Some?
    ensures var s' := Do(p, s, Lock(InstallLock.Kill(t))).value;
      && s'.Calls(t) == [] && s'.lock.Pc(t).Idle? && t !in s'.lock.held && t !in s'.lock.flock.Values
      && s' == s.(lock := s'.lock, calls := s'.calls) && s'.lock.path == s.lock.path
      && Invariant(p, s') && MovesOnly(s, s', t)
  {
    var e := Lock(InstallLock.Kill(t));
    StepKeepsInvariant(p, s, e);
    StepMovesOnly(p, s, e);
  }

  // ---------------------------------------------------------------------------------------
  // Nobody is stuck

  /** The next step of a call; a build may fail at any time. */
  function Next(top: Phase, t: Tid, pc: InstallLock.Pc, unused: InstallLock.Inode): Event {
    match top
    case Start => FirstReady(t)
    case Recheck => SecondReady(t)
    case Preparing => Prepare(t)
    case Building => BuildFails(t)
    case Publishing(_) => Publish(t)
    case Confirming => Confirm(t)
    case _ => Lock(InstallLock.Forward(t, pc, unused))
  }

  /**
   In every run without nested calls, a call that has not ended can go on, or waits for the flock of a thread
   that can.
   */
  lemma NobodyIsStuck(p: Policy, s0: Sys, schedule: seq<Event>, t: Tid) returns (runner: Tid, e: Event)
    requires !p.nesting && Init(s0) && Run(p, s0, schedule).Some?
    requires Run(p, s0, schedule).value.Calls(t) != []
    ensures var s := Run(p, s0, schedule).value;
      && e.Thread() == runner && Do(p, s, e).Some? && !IsKill(e, runner)
      && (runner == t || (s.lock.Pc(t).Opened? && s.lock.Pc(t).fd in s.lock.flock
                          && s.lock.flock[s.lock.Pc(t).fd] == runner))
  {
    Reachable(p, s0, schedule);
    var s := Run(p, s0, schedule).value;
    var bound := InstallLock.UnusedInode(s.lock.pcs, s.lock.pcs.Keys);
    var unused := if s.lock.path.Some? && s.lock.path.value >= bound then s.lock.path.value + 1 else bound;
    var pc := s.lock.Pc(t);
    runner := if pc.Opened? && pc.fd in s.lock.flock then s.lock.flock[pc.fd] else t;
    e := Next(if s.Calls(runner) == [] then Start else s.Calls(runner)[0], runner, s.lock.Pc(runner), unused);
    assert Agrees(s.Calls(runner), s.lock.Pc(runner));
    CanGoOn(p, s, runner, unused);
  }

  lemma CanGoOn(p: Policy, s: Sys, t: Tid, unused: InstallLock.Inode)
    requires InstallLock.Invariant(s.lock) && Agrees(s.Calls(t), s.lock.Pc(t)) && s.Calls(t) != []
    requires !s.lock.Live(unused) && (s.lock.Pc(t).Opened? ==> s.lock.Pc(t).fd !in s.lock.flock)
    ensures Do(p, s, Next(s.Calls(t)[0], t, s.lock.Pc(t), unused)).Some?
  {
    if s.Calls(t)[0].Waiting? || s.Calls(t)[0].Leaving? {
      var l := InstallLock.Forward(t, s.lock.Pc(t), unused);
      assert InstallLock.Do(s.lock, l).Some?;
      hide InstallLock.Invariant;
    }
  }
}
