/**
 How often `Installer.ensure` selects a build: exactly which policies on trees make it at most once.
 */
module EnsureLimits {
  import opened Common
  import opened Ensure
  import InstallLock

  // ---------------------------------------------------------------------------------------
  // What is replaced

  predicate Builds(stack: seq<Phase>) {
    stack != [] && (stack[0].Building? || stack[0].Publishing?)
  }

  predicate Replaceable(p: Policy, x: Tree) {
    p.git && p.mayReplace(x)
  }

  /** Whoever builds may replace what is there, and whatever was replaced could be. */
  ghost predicate ReplacesOnlyReplaceable(p: Policy, s: Sys) {
    && (forall t :: Builds(s.Calls(t)) ==> MayBuild(p, s.dest))
    && (forall k | 0 <= k < |s.selected| - 1 :: Replaceable(p, s.selected[k]))
  }

  /** What one step of thread t may do to its own right to build. */
  predicate BuildEffect(p: Policy, s: Sys, s': Sys, t: Tid) {
    && (Builds(s'.Calls(t)) ==> s'.dest == s.dest && (Builds(s.Calls(t)) || MayBuild(p, s.dest)))
    && (s'.dest != s.dest || s'.selected != s.selected ==> Builds(s.Calls(t)))
  }

  lemma CallStepBuilds(p: Policy, s: Sys, e: Event)
    requires !p.nesting && !e.Lock?
    requires Do(p, s, e).Some?
    requires Agrees(s.Calls(e.t), s.lock.Pc(e.t))
    ensures BuildEffect(p, s, Do(p, s, e).value, e.t)
  {
  }

  lemma LockStepBuilds(p: Policy, s: Sys, e: InstallLock.Event)
    requires DoLock(s, e).Some?
    requires Agrees(s.Calls(e.t), s.lock.Pc(e.t))
    ensures BuildEffect(p, s, DoLock(s, e).value, e.t)
  {
    hide InstallLock.Do;
  }

  lemma ReplacementFollows(p: Policy, s: Sys, s': Sys, t: Tid)
    requires Invariant(p, s) && ReplacesOnlyReplaceable(p, s)
    requires MovesOnly(s, s', t) && Effect(p, s, s', t) && BuildEffect(p, s, s', t)
    ensures ReplacesOnlyReplaceable(p, s')
  {
    forall u | Builds(s'.Calls(u)) ensures MayBuild(p, s'.dest) {
      if u != t && s'.dest != s.dest { OneUnderLock(s, t, u); }
    }
    forall k | 0 <= k < |s'.selected| - 1 ensures Replaceable(p, s'.selected[k]) {
      assert s'.selected[k] == s.selected[k];
      if k == |s.selected| - 1 { assert s.dest == Some(s.selected[k]) && MayBuild(p, s.dest); }
    }
  }

  lemma {:induction false} ReachableReplaces(p: Policy, s0: Sys, schedule: seq<Event>)
    requires !p.nesting && Init(s0)
    requires Run(p, s0, schedule).Some?
    ensures ReplacesOnlyReplaceable(p, Run(p, s0, schedule).value)
  {
    if schedule != [] {
      var front, e := schedule[..|schedule| - 1], schedule[|schedule| - 1];
      ReachableReplaces(p, s0, front);
      Reachable(p, s0, front);
      StepReplaces(p, Run(p, s0, front).value, e);
    }
  }

  lemma StepReplaces(p: Policy, s: Sys, e: Event)
    requires !p.nesting && Invariant(p, s) && ReplacesOnlyReplaceable(p, s)
    requires Do(p, s, e).Some?
    ensures ReplacesOnlyReplaceable(p, Do(p, s, e).value)
  {
    StepMovesOnly(p, s, e);
    assert Agrees(s.Calls(e.Thread()), s.lock.Pc(e.Thread()));
    if e.Lock? {
      LockStepHasEffect(p, s, e.e);
      LockStepBuilds(p, s, e.e);
    } else {
      CallStepHasEffect(p, s, e);
      CallStepBuilds(p, s, e);
    }
    hide BuildEffect, Effect, DoCall, DoLock, MovesOnly, Agrees, Invariant, ReplacesOnlyReplaceable;
    ReplacementFollows(p, s, Do(p, s, e).value, e.Thread());
  }

  // ---------------------------------------------------------------------------------------
  // A build that is selected and not ready

  /** It is confirmed to be not ready, and the call is about to fail. */
  lemma UnreadyIsSelected(p: Policy, f: Faults, s0: Sys, s: Sys, x: Tree) returns (s': Sys)
    requires Leads(p, f, s0, s) && AtRest(s) && !p.Ready(s.dest) && MayBuild(p, s.dest)
    requires p.stageChecks(x) && !p.ready(x)
    ensures s' == s.(dest := Some(x), selected := s.selected + [x])
    ensures Leads(p, f, s0, From(s', Solo(InstallLock.Inside(0, 0)), [], Leaving(None)))
  {
    hide Leads;
    CallBuilds(p, f, s0, s);
    var held := Solo(InstallLock.Inside(0, 0));
    var at := From(s, held, [], Building);
    CallTurns(p, f, s0, at, [], Building, Built(0, x), at, Publishing(x));
    s' := s.(dest := Some(x), selected := s.selected + [x]);
    at := From(s, held, [], Publishing(x));
    CallTurns(p, f, s0, at, [], Publishing(x), Publish(0), at.(dest := s'.dest, selected := s'.selected), Confirming);
    at := From(s', held, [], Confirming);
    CallTurns(p, f, s0, at, [], Confirming, Confirm(0), at, Leaving(None));
  }

  lemma LeaveTurns(p: Policy, f: Faults, s0: Sys, s: Sys, e: InstallLock.Event, lock': InstallLock.State)
    requires Leads(p, f, s0, s) && s.calls == map[0 := [Leaving(None)]]
    requires e.t == 0 && InstallLock.Do(s.lock, e) == Some(lock')
    requires e.Leave? || e.Unlink? || e.Close?
    requires !lock'.Pc(0).Inside?
    ensures Leads(p, f, s0, if lock'.Pc(0).Idle? then s.(lock := lock', calls := map[0 := []], raised := s.raised + 1)
                         else s.(lock := lock'))
  {
    hide InstallLock.Do, Leads;
    var s' := Advance(p, f, s0, s, Lock(e));
    assert s.calls[0 := []] == map[0 := []];
  }

  const UNLINKED: InstallLock.State := InstallLock.State(None, map[0 := 0], map[0 := InstallLock.Closing(0)], {})
  const RELEASED: InstallLock.State := InstallLock.State(None, map[], map[0 := InstallLock.Idle], {})

  lemma LockIsGivenUp()
    ensures InstallLock.Do(Solo(InstallLock.Inside(0, 0)), InstallLock.Leave(0)) == Some(Solo(InstallLock.Unlinking(0)))
    ensures InstallLock.Do(Solo(InstallLock.Unlinking(0)), InstallLock.Unlink(0)) == Some(UNLINKED)
    ensures InstallLock.Do(UNLINKED, InstallLock.Close(0)) == Some(RELEASED)
  {
    var inside, unlinking := Solo(InstallLock.Inside(0, 0)), Solo(InstallLock.Unlinking(0));
    SoloMoves(InstallLock.Inside(0, 0), InstallLock.Unlinking(0));
    assert inside.held - {0} == {};
    assert unlinking.Goto(0, InstallLock.Closing(0)).pcs == UNLINKED.pcs;
    assert UNLINKED.Goto(0, InstallLock.Idle).pcs == RELEASED.pcs && UNLINKED.flock - {0} == map[];
  }

  /** The call ends and takes its lock file away. */
  lemma CallEnds(p: Policy, f: Faults, s0: Sys, s: Sys) returns (rest: Sys)
    requires Leads(p, f, s0, From(s, Solo(InstallLock.Inside(0, 0)), [], Leaving(None)))
    ensures Leads(p, f, s0, rest) && AtRest(rest) && rest.dest == s.dest && rest.selected == s.selected
    ensures rest.raised == s.raised + 1
  {
    LockIsGivenUp();
    hide Leads, InstallLock.Do;
    var at := From(s, Solo(InstallLock.Inside(0, 0)), [], Leaving(None));
    assert [] + [Leaving(None)] == [Leaving(None)];
    LeaveTurns(p, f, s0, at, InstallLock.Leave(0), Solo(InstallLock.Unlinking(0)));
    at := at.(lock := Solo(InstallLock.Unlinking(0)));
    LeaveTurns(p, f, s0, at, InstallLock.Unlink(0), UNLINKED);
    at := at.(lock := UNLINKED);
    LeaveTurns(p, f, s0, at, InstallLock.Close(0), RELEASED);
    rest := at.(lock := RELEASED, calls := map[0 := []], raised := s.raised + 1);
  }

  /** A selected tree that is not ready and may be replaced is replaced by the next call. */
  lemma UnreadyIsBuiltAgain(p: Policy, x: Tree) returns (s: Sys)
    requires p.stageChecks(x) && !p.ready(x) && Replaceable(p, x)
    ensures Leads(p, SMOOTH, NOBODY, s) && s.selected == [x, x]
  {
    hide Leads;
    StartLeads(p, SMOOTH, NOBODY);
    s := UnreadyIsSelected(p, SMOOTH, NOBODY, NOBODY, x);
    s := CallEnds(p, SMOOTH, NOBODY, s);
    s := UnreadyIsSelected(p, SMOOTH, NOBODY, s, x);
    s := CallEnds(p, SMOOTH, NOBODY, s);
  }

  // ---------------------------------------------------------------------------------------
  // The exact condition

  ghost predicate SelectsOnce(p: Policy) {
    forall s0: Sys, s: Sys | Init(s0) && Reaches(p, s0, s) :: |s.selected| <= 1
  }

  /**
   Without nested calls, at most one build is ever selected exactly if every tree that passes the checks on its
   stage is ready, or is one that the preparation refuses to replace.
   */
  lemma SelectsOnceExactly(p: Policy)
    requires !p.nesting
    ensures SelectsOnce(p) <==> forall x | p.stageChecks(x) && Replaceable(p, x) :: p.ready(x)
  {
    if x :| p.stageChecks(x) && Replaceable(p, x) && !p.ready(x) {
      var s := UnreadyIsBuiltAgain(p, x);
      assert Init(NOBODY) && Reaches(p, NOBODY, s);
    } else {
      forall s0: Sys, s: Sys | Init(s0) && Reaches(p, s0, s) ensures |s.selected| <= 1 {
        var schedule :| Run(p, s0, schedule) == Some(s);
        Reachable(p, s0, schedule);
        ReachableReplaces(p, s0, schedule);
        var first := if s.selected == [] then 0 else s.selected[0];
        assert s.selected != [] ==> first in s.selected;
        assert |s.selected| > 1 ==> p.stageChecks(first) && Replaceable(p, first) && !p.ready(first);
      }
    }
  }
}
