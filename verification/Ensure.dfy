/**
 `Installer.ensure` on one specification, by any number of threads, over the install lock.

 A tree at the destination is either ready or not; a build yields any tree that passed the
 checks on its stage. While a thread builds, its report callback may call `ensure` again for the
 same specification when `nesting` is set: the lock is re-entrant, so the nested call runs.
 */
module Ensure {
  import opened Common
  import InstallLock

  type Tid = InstallLock.Tid
  type Tree = nat

  /** What the specification makes of trees; `git` chooses between the two kinds of source. */
  datatype Policy = Policy(
    git: bool,
    ready: Tree -> bool,
    mayReplace: Tree -> bool,
    stageChecks: Tree -> bool,
    nesting: bool
  ) {
    predicate Ready(dest: Option<Tree>) {
      dest.Some? && ready(dest.value)
    }
  }

  /** Where one call of `ensure` stands. */
  datatype Phase =
    | Start
    | Waiting
    | Recheck
    | Preparing
    | Building
    | Publishing(tree: Tree)
    | Confirming
    | Leaving(outcome: Option<Tree>)
  {
    predicate UnderLock() {
      Recheck? || Preparing? || Building? || Publishing? || Confirming?
    }

    /** The destination was found not ready under the lock and has not been replaced since. */
    predicate FoundUnready() {
      Preparing? || Building? || Publishing?
    }
  }

  /**
   `calls[t]` is the stack of calls of thread t, the innermost last. Calls that have ended by returning a
   tree are logged, and those that have ended by raising are counted.
   */
  datatype Sys = Sys(
    lock: InstallLock.State,
    dest: Option<Tree>,
    calls: map<Tid, seq<Phase>>,
    selected: seq<Tree>,
    returned: seq<Tree>,
    raised: nat
  ) {
    function Calls(t: Tid): seq<Phase> {
      if t in calls then calls[t] else []
    }

    function SetTop(t: Tid, p: Phase): Sys
      requires Calls(t) != []
    {
      this.(calls := calls[t := Calls(t)[..|Calls(t)| - 1] + [p]])
    }

    /** The innermost call returns (with a tree) or raises. */
    function Pop(t: Tid, outcome: Option<Tree>): Sys
      requires Calls(t) != []
    {
      this.(calls := calls[t := Calls(t)[..|Calls(t)| - 1]],
            returned := if outcome.Some? then returned + [outcome.value] else returned,
            raised := if outcome.Some? then raised else raised + 1)
    }
  }

  datatype Event =
    | Call(t: Tid)
    | FirstReady(t: Tid)
    | SecondReady(t: Tid)
    | Prepare(t: Tid)
    | Built(t: Tid, tree: Tree)
    | BuildFails(t: Tid)
    | Publish(t: Tid)
    | PublishFails(t: Tid)
    | PublishThenFails(t: Tid)
    | Confirm(t: Tid)
    | Lock(e: InstallLock.Event)
  {
    function Thread(): Tid {
      if Lock? then e.t else t
    }
  }

  function Do(p: Policy, s: Sys, e: Event): Option<Sys> {
    var t := e.Thread();
    var stack := s.Calls(t);
    if e.Lock? then DoLock(s, e.e)
    else if e.Call? then
      if stack == [] then Some(s.(calls := s.calls[t := [Start]]))
      else if p.nesting && stack[|stack| - 1].Building? then Some(s.(calls := s.calls[t := stack + [Start]]))
      else None
    else if stack == [] then None
    else DoCall(p, s, e, stack[|stack| - 1])
  }

  /** The steps of a call that are not lock steps. */
  function DoCall(p: Policy, s: Sys, e: Event, top: Phase): Option<Sys>
    requires !e.Lock? && s.Calls(e.t) != []
  {
    match e
    case FirstReady(t) =>
      if !top.Start? then None
      else if p.Ready(s.dest) then Some(s.Pop(t, s.dest))
      else Some(s.SetTop(t, Waiting))
    case SecondReady(t) =>
      if !top.Recheck? then None
      else if p.Ready(s.dest) then Some(s.SetTop(t, Leaving(s.dest)))
      else Some(s.SetTop(t, Preparing))
    case Prepare(t) =>
      if !top.Preparing? then None
      else if s.dest.None? || (p.git && p.mayReplace(s.dest.value)) then Some(s.SetTop(t, Building))
      else Some(s.SetTop(t, Leaving(None)))
    case Built(t, x) =>
      if top.Building? && p.stageChecks(x) then Some(s.SetTop(t, Publishing(x))) else None
    case BuildFails(t) =>
      if top.Building? then Some(s.SetTop(t, Leaving(None))) else None
    case Publish(t) =>
      if top.Publishing? then
        Some(s.(dest := Some(top.tree), selected := s.selected + [top.tree]).SetTop(t, Confirming))
      else None
    case PublishFails(t) =>
      if top.Publishing? then Some(s.SetTop(t, Leaving(None))) else None
    case PublishThenFails(t) =>
      // the exchange succeeded but the superseded tree could not be removed
      if top.Publishing? && s.dest.Some? then
        Some(s.(dest := Some(top.tree), selected := s.selected + [top.tree]).SetTop(t, Leaving(None)))
      else None
    case Confirm(t) =>
      if !top.Confirming? then None
      else Some(s.SetTop(t, Leaving(if p.Ready(s.dest) then s.dest else None)))
    case _ => None
  }

  /** A lock step belongs to a call that is acquiring or leaving; a kill may come at any time. */
  function DoLock(s: Sys, e: InstallLock.Event): Option<Sys> {
    var t, stack := e.t, s.Calls(e.t);
    match InstallLock.Do(s.lock, e)
    case None => None
    case Some(lock') =>
      var s', pc' := s.(lock := lock'), lock'.Pc(t);
      if e.Kill? then Some(s'.(calls := s'.calls[t := []]))
      else if stack == [] then None
      else
        match stack[|stack| - 1]
        case Waiting =>
          if e.Leave? || e.Unlink? || e.UnlinkFails? || e.Close? then None
          else if pc'.Inside? then Some(s'.SetTop(t, Recheck))
          else if pc'.Idle? then Some(s'.Pop(t, None))
          else Some(s')
        case Leaving(outcome) =>
          if !(e.Leave? || e.Unlink? || e.UnlinkFails? || e.Close?) then None
          else if pc'.Idle? || pc'.Inside? then Some(s'.Pop(t, outcome))
          else Some(s')
        case _ => None
  }

  function Run(p: Policy, s: Sys, schedule: seq<Event>): Option<Sys> {
    if schedule == [] then Some(s)
    else match Run(p, s, schedule[..|schedule| - 1])
      case None => None
      case Some(m) => Do(p, m, schedule[|schedule| - 1])
  }

  predicate Init(s: Sys) {
    InstallLock.Init(s.lock) && s.calls == map[] && s.selected == [] && s.returned == [] && s.raised == 0
  }

  /** Every step is a step of the lock protocol, or leaves the lock alone. */
  lemma LockRefines(p: Policy, s: Sys, e: Event)
    requires InstallLock.Invariant(s.lock)
    requires Do(p, s, e).Some?
    ensures InstallLock.Invariant(Do(p, s, e).value.lock)
  {
    if e.Lock? {
      InstallLock.StepKeepsInvariant(s.lock, e.e);
    }
  }

  /** A call without nested calls agrees with the thread's place in the lock protocol. */
  predicate Agrees(stack: seq<Phase>, pc: InstallLock.Pc) {
    && |stack| <= 1
    && (stack == [] || stack[0].Start? ==> pc.Idle?)
    && (stack != [] && stack[0].Waiting? ==>
          pc.Idle? || pc.Opening? || pc.Opened? || pc.Locked? || pc.Observed? || pc.Failing?)
    && (stack != [] && stack[0].UnderLock() ==> pc.Inside? && pc.depth == 0)
    && (stack != [] && stack[0].Leaving? ==> (pc.Inside? && pc.depth == 0) || pc.Unlinking? || pc.Closing?)
  }

  /** At most the last selection is a ready tree, and the destination is the last selection. */
  ghost predicate OneReadySelection(p: Policy, s: Sys) {
    && (forall k | 0 <= k < |s.selected| - 1 :: !p.ready(s.selected[k]))
    && (s.selected != [] ==> s.dest == Some(s.selected[|s.selected| - 1]))
  }

  /** Only trees that passed the checks on their stage are selected. */
  ghost predicate OnlyChecked(p: Policy, s: Sys) {
    && (forall x | x in s.selected :: p.stageChecks(x))
    && (forall t :: s.Calls(t) != [] && s.Calls(t)[0].Publishing? ==> p.stageChecks(s.Calls(t)[0].tree))
  }

  /** Whatever was returned, or is about to be, is the ready tree at the destination. */
  ghost predicate AllAdopt(p: Policy, s: Sys) {
    && (forall x | x in s.returned :: p.Ready(s.dest) && s.dest.value == x)
    && (forall t :: s.Calls(t) != [] && s.Calls(t)[0].Leaving? && s.Calls(t)[0].outcome.Some? ==>
          p.Ready(s.dest) && s.dest == s.Calls(t)[0].outcome)
  }

  ghost predicate SelectionInvariant(p: Policy, s: Sys) {
    && (forall t :: s.Calls(t) != [] && s.Calls(t)[0].FoundUnready() ==> !p.Ready(s.dest))
    && OneReadySelection(p, s)
    && OnlyChecked(p, s)
    && AllAdopt(p, s)
  }

  ghost predicate Invariant(p: Policy, s: Sys) {
    InstallLock.Invariant(s.lock) && AllAgree(s) && SelectionInvariant(p, s)
  }

  /** Only thread t's calls and program counter may differ. */
  ghost predicate MovesOnly(s: Sys, s': Sys, t: Tid) {
    forall u | u != t :: s'.Calls(u) == s.Calls(u) && s'.lock.Pc(u) == s.lock.Pc(u)
  }

  lemma LockStepMovesOnly(s: Sys, e: InstallLock.Event)
    requires DoLock(s, e).Some?
    ensures MovesOnly(s, DoLock(s, e).value, e.t)
  {
    var s' := DoLock(s, e).value;
    forall u | u != e.t
      ensures s'.Calls(u) == s.Calls(u) && s'.lock.Pc(u) == s.lock.Pc(u)
    {
      InstallLock.OthersStay(s.lock, e, u);
    }
  }

  lemma StepMovesOnly(p: Policy, s: Sys, e: Event)
    requires Do(p, s, e).Some?
    ensures MovesOnly(s, Do(p, s, e).value, e.Thread())
  {
    if e.Lock? {
      LockStepMovesOnly(s, e.e);
    }
  }

  lemma OwnLockStepAgrees(s: Sys, e: InstallLock.Event)
    requires DoLock(s, e).Some?
    requires Agrees(s.Calls(e.t), s.lock.Pc(e.t))
    ensures Agrees(DoLock(s, e).value.Calls(e.t), DoLock(s, e).value.lock.Pc(e.t))
  {
  }

  lemma OwnStepAgrees(p: Policy, s: Sys, e: Event)
    requires !p.nesting && !e.Lock?
    requires Do(p, s, e).Some?
    requires Agrees(s.Calls(e.t), s.lock.Pc(e.t))
    ensures Agrees(Do(p, s, e).value.Calls(e.t), Do(p, s, e).value.lock.Pc(e.t))
  {
  }

  ghost predicate AllAgree(s: Sys) {
    forall t :: Agrees(s.Calls(t), s.lock.Pc(t))
  }

  lemma StepKeepsAgreement(p: Policy, s: Sys, e: Event)
    requires !p.nesting && AllAgree(s)
    requires Do(p, s, e).Some?
    ensures AllAgree(Do(p, s, e).value)
  {
    StepMovesOnly(p, s, e);
    assert Agrees(s.Calls(e.Thread()), s.lock.Pc(e.Thread()));
    if e.Lock? {
      OwnLockStepAgrees(s, e.e);
    } else {
      OwnStepAgrees(p, s, e);
    }
    AgreementFollows(s, Do(p, s, e).value, e.Thread());
  }

  lemma AgreementFollows(s: Sys, s': Sys, t: Tid)
    requires AllAgree(s) && MovesOnly(s, s', t)
    requires Agrees(s'.Calls(t), s'.lock.Pc(t))
    ensures AllAgree(s')
  {
  }

  /** What one step of thread t may do to the destination, the selections and the results. */
  ghost predicate Effect(p: Policy, s: Sys, s': Sys, t: Tid) {
    var before, after := s.Calls(t), s'.Calls(t);
    && (|| (s'.dest == s.dest && s'.selected == s.selected)
        || (before != [] && before[0].Publishing?
            && s'.dest == Some(before[0].tree) && s'.selected == s.selected + [before[0].tree]
            && s'.returned == s.returned && after != [] && !after[0].FoundUnready()
            && (after[0].Leaving? ==> after[0].outcome.None?)))
    && (|| s'.returned == s.returned
        || (p.Ready(s.dest) && s'.returned == s.returned + [s.dest.value])
        || (before != [] && before[0].Leaving? && before[0].outcome.Some?
            && s'.returned == s.returned + [before[0].outcome.value]))
    && (after != [] && after[0].FoundUnready() ==>
          !p.Ready(s.dest) || (before != [] && before[0].FoundUnready()))
    && (after != [] && after[0].Leaving? && after[0].outcome.Some? ==>
          (p.Ready(s.dest) && after[0].outcome == s.dest) || before == after)
    && (after != [] && after[0].Publishing? ==> p.stageChecks(after[0].tree) || before == after)
  }

  lemma CallStepHasEffect(p: Policy, s: Sys, e: Event)
    requires !p.nesting && !e.Lock?
    requires Do(p, s, e).Some?
    requires Agrees(s.Calls(e.t), s.lock.Pc(e.t))
    ensures Effect(p, s, Do(p, s, e).value, e.t)
  {
  }

  lemma LockStepHasEffect(p: Policy, s: Sys, e: InstallLock.Event)
    requires DoLock(s, e).Some?
    requires Agrees(s.Calls(e.t), s.lock.Pc(e.t))
    ensures Effect(p, s, DoLock(s, e).value, e.t)
  {
    hide InstallLock.Do;
  }

  /** Two calls under the lock are one call. */
  lemma OneUnderLock(s: Sys, t: Tid, u: Tid)
    requires InstallLock.Invariant(s.lock) && AllAgree(s)
    requires s.Calls(t) != [] && s.Calls(t)[0].UnderLock()
    requires s.Calls(u) != [] && s.Calls(u)[0].UnderLock()
    ensures t == u
  {
  }

  lemma SelectionFollows(p: Policy, s: Sys, s': Sys, t: Tid)
    requires SelectionInvariant(p, s)
    requires InstallLock.Invariant(s.lock) && AllAgree(s)
    requires MovesOnly(s, s', t) && Effect(p, s, s', t)
    ensures SelectionInvariant(p, s')
  {
    forall u | s'.Calls(u) != [] && s'.Calls(u)[0].FoundUnready()
      ensures !p.Ready(s'.dest)
    {
      if u != t && s'.dest != s.dest { OneUnderLock(s, t, u); }
    }
    forall u | s'.Calls(u) != [] && s'.Calls(u)[0].Leaving? && s'.Calls(u)[0].outcome.Some?
      ensures p.Ready(s'.dest) && s'.dest == s'.Calls(u)[0].outcome
    {
    }
  }

  lemma StepKeepsInvariant(p: Policy, s: Sys, e: Event)
    requires !p.nesting && Invariant(p, s)
    requires Do(p, s, e).Some?
    ensures Invariant(p, Do(p, s, e).value)
  {
    LockRefines(p, s, e);
    StepKeepsAgreement(p, s, e);
    StepMovesOnly(p, s, e);
    assert Agrees(s.Calls(e.Thread()), s.lock.Pc(e.Thread()));
    if e.Lock? {
      LockStepHasEffect(p, s, e.e);
    } else {
      CallStepHasEffect(p, s, e);
    }
    SelectionFollows(p, s, Do(p, s, e).value, e.Thread());
  }

  lemma {:induction false} Reachable(p: Policy, s0: Sys, schedule: seq<Event>)
    requires !p.nesting && Init(s0)
    requires Run(p, s0, schedule).Some?
    ensures Invariant(p, Run(p, s0, schedule).value)
  {
    if schedule != [] {
      Reachable(p, s0, schedule[..|schedule| - 1]);
      StepKeepsInvariant(p, Run(p, s0, schedule[..|schedule| - 1]).value, schedule[|schedule| - 1]);
    }
  }

  // ---------------------------------------------------------------------------------------
  // What a run of many callers amounts to

  /**
   Waiters adopt the winner's result: without nested calls every tree ever returned is the one
   ready tree at the destination, every earlier selection was not ready, and when the checks on
   a stage imply readiness there is at most one selection.
   */
  lemma WaitersAdopt(p: Policy, s0: Sys, schedule: seq<Event>)
    requires !p.nesting && Init(s0)
    requires Run(p, s0, schedule).Some?
    ensures var s := Run(p, s0, schedule).value;
            && (forall x | x in s.returned :: s.dest == Some(x) && p.ready(x))
            && (forall k | 0 <= k < |s.selected| - 1 :: !p.ready(s.selected[k]))
            && ((forall x | p.stageChecks(x) :: p.ready(x)) ==> |s.selected| <= 1)
  {
    Reachable(p, s0, schedule);
    var s := Run(p, s0, schedule).value;
    if |s.selected| > 1 {
      assert s.selected[0] in s.selected;
    }
  }

  /** A ready tree at the destination is never replaced, and ends all selecting. */
  lemma {:induction false} ReadyTreeStays(p: Policy, s0: Sys, schedule: seq<Event>, k: nat)
    requires !p.nesting && Init(s0)
    requires k <= |schedule| && Run(p, s0, schedule).Some? && Run(p, s0, schedule[..k]).Some?
    requires p.Ready(Run(p, s0, schedule[..k]).value.dest)
    ensures Run(p, s0, schedule).value.dest == Run(p, s0, schedule[..k]).value.dest
    ensures Run(p, s0, schedule).value.selected == Run(p, s0, schedule[..k]).value.selected
  {
    if k == |schedule| {
      assert schedule[..k] == schedule;
    } else {
      var front := schedule[..|schedule| - 1];
      assert front[..k] == schedule[..k];
      ReadyTreeStays(p, s0, front, k);
      Reachable(p, s0, front);
      OnlyUnreadyReplaced(p, Run(p, s0, front).value, schedule[|schedule| - 1]);
    }
  }

  lemma OnlyUnreadyReplaced(p: Policy, s: Sys, e: Event)
    requires !p.nesting && Invariant(p, s)
    requires Do(p, s, e).Some?
    requires p.Ready(s.dest)
    ensures Do(p, s, e).value.dest == s.dest && Do(p, s, e).value.selected == s.selected
  {
    assert Agrees(s.Calls(e.Thread()), s.lock.Pc(e.Thread()));
    if e.Lock? {
      LockStepHasEffect(p, s, e.e);
    } else {
      CallStepHasEffect(p, s, e);
    }
  }

  // ---------------------------------------------------------------------------------------
  // A report callback that calls ensure again

  ghost predicate Reaches(p: Policy, s0: Sys, s: Sys) {
    exists schedule :: Run(p, s0, schedule) == Some(s)
  }

  /** What may fail: taking the lock, a build, a publication. */
  datatype Faults = Faults(lock: bool, build: bool, publish: bool)

  const SMOOTH: Faults := Faults(false, false, false)

  /** Nothing fails but what may, and nobody is killed; a lock file that cannot be unlinked does no harm. */
  predicate Permits(f: Faults, e: Event) {
    match e
    case Lock(l) => !l.Kill? && (l.OpenFails? || l.FlockFails? || l.StatFails? || l.CompareFails? ==> f.lock)
    case BuildFails(_) => f.build
    case PublishFails(_) => f.publish
    case PublishThenFails(_) => f.publish
    case _ => true
  }

  predicate Within(f: Faults, schedule: seq<Event>) {
    forall e | e in schedule :: Permits(f, e)
  }

  /** Reached with no other failures. */
  ghost predicate Leads(p: Policy, f: Faults, s0: Sys, s: Sys) {
    exists schedule :: Within(f, schedule) && Run(p, s0, schedule) == Some(s)
  }

  lemma Advance(p: Policy, f: Faults, s0: Sys, s: Sys, e: Event) returns (s': Sys)
    requires Leads(p, f, s0, s) && Permits(f, e)
    requires Do(p, s, e).Some?
    ensures s' == Do(p, s, e).value && Leads(p, f, s0, s')
  {
    var schedule :| Within(f, schedule) && Run(p, s0, schedule) == Some(s);
    s' := Do(p, s, e).value;
    assert (schedule + [e])[..|schedule|] == schedule;
    assert Run(p, s0, schedule + [e]) == Some(s') && Within(f, schedule + [e]);
  }

  lemma StartLeads(p: Policy, f: Faults, s0: Sys)
    ensures Leads(p, f, s0, s0)
  {
    assert Run(p, s0, []) == Some(s0);
  }

  /** Every tree is ready and replaceable, and callbacks may call ensure again. */
  const EAGER: Policy := Policy(true, (x: Tree) => true, (x: Tree) => true, (x: Tree) => true, true)

  const NOBODY: Sys := Sys(InstallLock.State(None, map[], map[], {}), None, map[], [], [], 0)

  /** Only thread 0 runs; its innermost call is at `top`. */
  function Alone(lock: InstallLock.State, dest: Option<Tree>, below: seq<Phase>, top: Phase,
                 selected: seq<Tree>, returned: seq<Tree>): Sys {
    Sys(lock, dest, map[0 := below + [top]], selected, returned, 0)
  }

  /** The lock file exists and thread 0 is the only one near it. */
  function Solo(pc: InstallLock.Pc): InstallLock.State {
    InstallLock.State(Some(0), if pc.HoldsFlock() then map[0 := 0] else map[], map[0 := pc],
                      if pc.Inside? then {0} else {})
  }

  /** Nobody runs, there is no lock file, and only thread 0 has run before. */
  predicate AtRest(s: Sys) {
    && s.lock.path.None? && s.lock.flock == map[] && s.lock.held == {}
    && (s.lock.pcs == map[] || s.lock.pcs == map[0 := InstallLock.Idle])
    && (s.calls == map[] || s.calls == map[0 := []])
  }

  /** Thread 0 alone, with the destination and the results of s. */
  function From(s: Sys, lock: InstallLock.State, below: seq<Phase>, top: Phase): Sys {
    s.(lock := lock, calls := map[0 := below + [top]])
  }

  lemma CallTurns(p: Policy, f: Faults, s0: Sys, s: Sys, below: seq<Phase>, top: Phase, e: Event, next: Sys,
                  top': Phase)
    requires Leads(p, f, s0, s)
    requires s.calls == map[0 := below + [top]] && next.calls == s.calls
    requires !e.Lock? && !e.Call? && e.t == 0 && Permits(f, e)
    requires DoCall(p, s, e, top) == Some(next.SetTop(0, top'))
    ensures Leads(p, f, s0, From(next, next.lock, below, top'))
  {
    assert next.SetTop(0, top').calls == map[0 := below + [top']];
    var s' := Advance(p, f, s0, s, e);
  }

  lemma LockTurns(p: Policy, f: Faults, s0: Sys, s: Sys, below: seq<Phase>, e: InstallLock.Event,
                  lock': InstallLock.State)
    requires Leads(p, f, s0, s) && s.calls == map[0 := below + [Waiting]]
    requires e.t == 0 && InstallLock.Do(s.lock, e) == Some(lock')
    requires e.Enter? || e.Open? || e.Flock? || e.Stat? || e.Compare?
    requires !lock'.Pc(0).Idle?
    ensures Leads(p, f, s0, From(s, lock', below, if lock'.Pc(0).Inside? then Recheck else Waiting))
  {
    assert s.SetTop(0, Recheck).calls == map[0 := below + [Recheck]];
    var s' := Advance(p, f, s0, s, Lock(e));
  }

  lemma SoloMoves(pc: InstallLock.Pc, pc': InstallLock.Pc)
    ensures Solo(pc).Goto(0, pc').pcs == Solo(pc').pcs
  {
  }

  /** A call of ensure finds nothing ready. */
  lemma CallStarts(p: Policy, f: Faults, s0: Sys, s: Sys)
    requires Leads(p, f, s0, s) && AtRest(s) && !p.Ready(s.dest)
    ensures Leads(p, f, s0, From(s, s.lock, [], Waiting))
  {
    var started := From(s, s.lock, [], Start);
    assert [] + [Start] == [Start];
    assert started.calls == s.calls[0 := [Start]];
    var _ := Advance(p, f, s0, s, Call(0));
    CallTurns(p, f, s0, started, [], Start, FirstReady(0), started, Waiting);
  }

  /** It creates the lock file. */
  lemma CallOpens(p: Policy, f: Faults, s0: Sys, s: Sys)
    requires Leads(p, f, s0, s) && AtRest(s) && !p.Ready(s.dest)
    ensures Leads(p, f, s0, From(s, Solo(InstallLock.Opened(0)), [], Waiting))
  {
    hide Leads;
    CallStarts(p, f, s0, s);
    var opening := s.lock.(pcs := map[0 := InstallLock.Opening]);
    assert s.lock.Goto(0, InstallLock.Opening).pcs == opening.pcs;
    assert InstallLock.Do(s.lock, InstallLock.Enter(0)) == Some(opening);
    LockTurns(p, f, s0, From(s, s.lock, [], Waiting), [], InstallLock.Enter(0), opening);
    assert opening.Goto(0, InstallLock.Opened(0)).pcs == map[0 := InstallLock.Opened(0)];
    assert InstallLock.Do(opening, InstallLock.Open(0, 0)) == Some(Solo(InstallLock.Opened(0)));
    LockTurns(p, f, s0, From(s, opening, [], Waiting), [], InstallLock.Open(0, 0), Solo(InstallLock.Opened(0)));
  }

  /** It locks the file and finds the inode unchanged. */
  lemma CallLocks(p: Policy, f: Faults, s0: Sys, s: Sys)
    requires Leads(p, f, s0, s) && AtRest(s) && !p.Ready(s.dest)
    ensures Leads(p, f, s0, From(s, Solo(InstallLock.Inside(0, 0)), [], Recheck))
  {
    hide Leads;
    CallOpens(p, f, s0, s);
    var opened', locked := Solo(InstallLock.Opened(0)), Solo(InstallLock.Locked(0));
    var observed, inside := Solo(InstallLock.Observed(0, Some(0))), Solo(InstallLock.Inside(0, 0));
    SoloMoves(InstallLock.Opened(0), InstallLock.Locked(0));
    assert InstallLock.Do(opened', InstallLock.Flock(0)) == Some(locked);
    LockTurns(p, f, s0, From(s, opened', [], Waiting), [], InstallLock.Flock(0), locked);
    SoloMoves(InstallLock.Locked(0), InstallLock.Observed(0, Some(0)));
    assert InstallLock.Do(locked, InstallLock.Stat(0)) == Some(observed);
    LockTurns(p, f, s0, From(s, locked, [], Waiting), [], InstallLock.Stat(0), observed);
    SoloMoves(InstallLock.Observed(0, Some(0)), InstallLock.Inside(0, 0));
    assert observed.held + {0} == inside.held;
    assert InstallLock.Do(observed, InstallLock.Compare(0)) == Some(inside);
    LockTurns(p, f, s0, From(s, observed, [], Waiting), [], InstallLock.Compare(0), inside);
  }

  /** What may be built over: nothing, or for Git sources a tree that may be replaced. */
  predicate MayBuild(p: Policy, dest: Option<Tree>) {
    dest.None? || (p.git && p.mayReplace(dest.value))
  }

  /** Still nothing is ready, and it goes on to build. */
  lemma CallBuilds(p: Policy, f: Faults, s0: Sys, s: Sys)
    requires Leads(p, f, s0, s) && AtRest(s) && !p.Ready(s.dest) && MayBuild(p, s.dest)
    ensures Leads(p, f, s0, From(s, Solo(InstallLock.Inside(0, 0)), [], Building))
  {
    hide Leads;
    CallLocks(p, f, s0, s);
    var held := Solo(InstallLock.Inside(0, 0));
    var at := From(s, held, [], Recheck);
    CallTurns(p, f, s0, at, [], Recheck, SecondReady(0), at, Preparing);
    at := From(s, held, [], Preparing);
    CallTurns(p, f, s0, at, [], Preparing, Prepare(0), at, Building);
  }

  /** While it builds, its report callback calls ensure again and enters the lock it holds. */
  lemma NestedCallEnters()
    ensures Leads(EAGER, SMOOTH, NOBODY, Alone(Solo(InstallLock.Inside(0, 1)), None, [Building], Recheck, [], []))
  {
    hide Leads;
    StartLeads(EAGER, SMOOTH, NOBODY);
    CallBuilds(EAGER, SMOOTH, NOBODY, NOBODY);
    var held := Solo(InstallLock.Inside(0, 0));
    var s := Alone(held, None, [Building], Start, [], []);
    assert [] + [Building] + [Start] == [Building] + [Start];
    assert Alone(held, None, [], Building, [], []).calls[0 := [Building] + [Start]] == s.calls;
    var _ := Advance(EAGER, SMOOTH, NOBODY, Alone(held, None, [], Building, [], []), Call(0));
    CallTurns(EAGER, SMOOTH, NOBODY, s, [Building], Start, FirstReady(0), s, Waiting);
    SoloMoves(InstallLock.Inside(0, 0), InstallLock.Inside(0, 1));
    assert InstallLock.Do(held, InstallLock.Enter(0)) == Some(Solo(InstallLock.Inside(0, 1)));
    LockTurns(EAGER, SMOOTH, NOBODY, Alone(held, None, [Building], Waiting, [], []), [Building], InstallLock.Enter(0),
              Solo(InstallLock.Inside(0, 1)));
  }

  /** The nested call builds tree 1. */
  lemma NestedCallBuilds()
    ensures Leads(EAGER, SMOOTH, NOBODY, Alone(Solo(InstallLock.Inside(0, 1)), None, [Building], Publishing(1), [], []))
  {
    hide Leads;
    NestedCallEnters();
    var lock, below := Solo(InstallLock.Inside(0, 1)), [Building];
    var s := Alone(lock, None, below, Recheck, [], []);
    CallTurns(EAGER, SMOOTH, NOBODY, s, below, Recheck, SecondReady(0), s, Preparing);
    s := Alone(lock, None, below, Preparing, [], []);
    CallTurns(EAGER, SMOOTH, NOBODY, s, below, Preparing, Prepare(0), s, Building);
    s := Alone(lock, None, below, Building, [], []);
    CallTurns(EAGER, SMOOTH, NOBODY, s, below, Building, Built(0, 1), s, Publishing(1));
  }

  /** It selects tree 1. */
  lemma NestedCallSelects()
    ensures Leads(EAGER, SMOOTH, NOBODY,
              Alone(Solo(InstallLock.Inside(0, 1)), Some(1), [Building], Leaving(Some(1)), [1], []))
  {
    hide Leads;
    NestedCallBuilds();
    var lock, below := Solo(InstallLock.Inside(0, 1)), [Building];
    var s := Alone(lock, None, below, Publishing(1), [], []);
    assert s.selected + [1] == [1];
    var next := s.(dest := Some(1), selected := [1]);
    CallTurns(EAGER, SMOOTH, NOBODY, s, below, Publishing(1), Publish(0), next, Confirming);
    s := Alone(lock, Some(1), below, Confirming, [1], []);
    CallTurns(EAGER, SMOOTH, NOBODY, s, below, Confirming, Confirm(0), s, Leaving(Some(1)));
  }

  /** It returns tree 1. */
  lemma NestedCallReturns()
    ensures Leads(EAGER, SMOOTH, NOBODY, Alone(Solo(InstallLock.Inside(0, 0)), Some(1), [], Building, [1], [1]))
  {
    hide Leads;
    NestedCallSelects();
    var lock := Solo(InstallLock.Inside(0, 0));
    SoloMoves(InstallLock.Inside(0, 1), InstallLock.Inside(0, 0));
    var s := Alone(Solo(InstallLock.Inside(0, 1)), Some(1), [Building], Leaving(Some(1)), [1], []);
    assert InstallLock.Do(s.lock, InstallLock.Leave(0)) == Some(lock);
    assert ([Building] + [Leaving(Some(1))])[..1] == [] + [Building];
    assert s.calls[0 := [] + [Building]] == map[0 := [] + [Building]];
    assert s.returned + [1] == [1];
    var _ := Advance(EAGER, SMOOTH, NOBODY, s, Lock(InstallLock.Leave(0)));
  }

  /** The outer build then replaces that ready tree. */
  lemma NestedCallIsReplaced() returns (s: Sys)
    ensures Leads(EAGER, SMOOTH, NOBODY, s)
    ensures s.returned == [1] && s.dest == Some(2)
    ensures !OneReadySelection(EAGER, s)
  {
    hide Leads;
    NestedCallReturns();
    s := Alone(Solo(InstallLock.Inside(0, 0)), Some(1), [], Building, [1], [1]);
    CallTurns(EAGER, SMOOTH, NOBODY, s, [], Building, Built(0, 2), s, Publishing(2));
    s := s.(calls := map[0 := [] + [Publishing(2)]]);
    assert s.selected + [2] == [1, 2];
    var next := s.(dest := Some(2), selected := [1, 2]);
    CallTurns(EAGER, SMOOTH, NOBODY, s, [], Publishing(2), Publish(0), next, Confirming);
    s := Alone(s.lock, Some(2), [], Confirming, [1, 2], [1]);
    assert EAGER.ready(s.selected[0]);
  }

  /** One ready selection in every run, exactly when callbacks do not call ensure again. */
  lemma OneSelectionExactlyWithoutNesting(nesting: bool)
    ensures (forall p: Policy, s0: Sys, s: Sys | p.nesting == nesting && Init(s0) && Reaches(p, s0, s) ::
               OneReadySelection(p, s)) <==> !nesting
  {
    if nesting {
      var s := NestedCallIsReplaced();
      assert Init(NOBODY) && Reaches(EAGER, NOBODY, s);
    } else {
      forall p: Policy, s0: Sys, s: Sys | p.nesting == nesting && Init(s0) && Reaches(p, s0, s)
        ensures OneReadySelection(p, s)
      {
        var schedule :| Run(p, s0, schedule) == Some(s);
        Reachable(p, s0, schedule);
      }
    }
  }
}
