/**
 The lock-file protocol of `Installer._install_lock`.

 Any number of threads, in any number of processes, meet at one lock path. The
 kernel is three facts: which inode the path names, which thread holds the flock
 of an inode, and which descriptor each thread has open. A thread moves by one
 system call at a time and may be killed between any two of them.
 */
module InstallLock {
  import opened Common

  type Tid = nat
  type Inode = nat

  datatype Pc =
    | Idle
    | Opening                                    // about to open the lock path
    | Opened(fd: Inode)                          // about to flock
    | Locked(fd: Inode)                          // about to stat the path
    | Observed(fd: Inode, seen: Option<Inode>)   // about to compare inodes
    | Failing(fd: Inode)                         // an OSError: about to close and raise
    | Inside(fd: Inode, depth: nat)              // yielded, with `depth` nested entries
    | Unlinking(fd: Inode)                       // key discarded, about to unlink the path
    | Closing(fd: Inode)                         // about to close the descriptor
  {
    function Fd(): Option<Inode> {
      if Idle? || Opening? then None else Some(fd)
    }

    /** The flock of `fd` has been granted to this thread and not yet released. */
    predicate HoldsFlock() {
      Locked? || Observed? || Inside? || Unlinking? || Closing?
    }

    /** Between the successful inode comparison and the unlink: the path is this thread's. */
    predicate Guards() {
      (Observed? && seen == Some(fd)) || Inside? || Unlinking?
    }
  }

  datatype State = State(path: Option<Inode>, flock: map<Inode, Tid>, pcs: map<Tid, Pc>, held: set<Tid>)
  {
    function Pc(t: Tid): Pc {
      if t in pcs then pcs[t] else Idle
    }

    /** An inode number cannot be handed out again while the path or a descriptor refers to it. */
    predicate Live(i: Inode) {
      path == Some(i) || exists t | t in pcs :: pcs[t].Fd() == Some(i)
    }

    function Goto(t: Tid, pc: Pc): State {
      this.(pcs := pcs[t := pc])
    }

    /** Closing a descriptor drops the flock taken through it. */
    function Release(t: Tid, i: Inode): State {
      if i in flock && flock[i] == t then this.(flock := flock - {i}) else this
    }
  }

  datatype Event =
    | Enter(t: Tid)
    | Open(t: Tid, created: Inode)
    | OpenFails(t: Tid)
    | Flock(t: Tid)
    | FlockFails(t: Tid)
    | Stat(t: Tid)
    | StatFails(t: Tid)
    | Compare(t: Tid)
    | CompareFails(t: Tid)
    | Abandon(t: Tid)
    | Leave(t: Tid)
    | Unlink(t: Tid)
    | UnlinkFails(t: Tid)
    | Close(t: Tid)
    | Kill(t: Tid)

  /** One system call (or one step of thread-local bookkeeping); None when it cannot happen now. */
  function Do(s: State, e: Event): Option<State> {
    var pc := s.Pc(e.t);
    match e
    case Enter(t) =>
      if pc.Idle? && t !in s.held then Some(s.Goto(t, Opening))
      else if pc.Inside? && t in s.held then Some(s.Goto(t, Inside(pc.fd, pc.depth + 1)))
      else None
    case Open(t, created) =>
      if !pc.Opening? then None
      else if s.path.Some? then Some(s.Goto(t, Opened(s.path.value)))
      else if s.Live(created) then None
      else Some(s.(path := Some(created)).Goto(t, Opened(created)))
    case OpenFails(t) =>
      if pc.Opening? then Some(s.Goto(t, Idle)) else None
    case Flock(t) =>
      if pc.Opened? && pc.fd !in s.flock then
        Some(s.(flock := s.flock[pc.fd := t]).Goto(t, Locked(pc.fd)))
      else None
    case FlockFails(t) =>
      if pc.Opened? then Some(s.Goto(t, Failing(pc.fd))) else None
    case Stat(t) =>
      if pc.Locked? then Some(s.Goto(t, Observed(pc.fd, s.path))) else None
    case StatFails(t) =>
      if pc.Locked? then Some(s.Goto(t, Failing(pc.fd))) else None
    case Compare(t) =>
      if !pc.Observed? then None
      else if pc.seen == Some(pc.fd) then
        Some(s.(held := s.held + {t}).Goto(t, Inside(pc.fd, 0)))
      else Some(s.Release(t, pc.fd).Goto(t, Opening))
    case CompareFails(t) =>
      if pc.Observed? then Some(s.Goto(t, Failing(pc.fd))) else None
    case Abandon(t) =>
      if pc.Failing? then Some(s.Release(t, pc.fd).Goto(t, Idle)) else None
    case Leave(t) =>
      if !pc.Inside? then None
      else if pc.depth > 0 then Some(s.Goto(t, Inside(pc.fd, pc.depth - 1)))
      else Some(s.(held := s.held - {t}).Goto(t, Unlinking(pc.fd)))
    case Unlink(t) =>
      if pc.Unlinking? && s.path.Some? then Some(s.(path := None).Goto(t, Closing(pc.fd))) else None
    case UnlinkFails(t) =>
      if pc.Unlinking? then Some(s.Goto(t, Closing(pc.fd))) else None
    case Close(t) =>
      if pc.Closing? then Some(s.Release(t, pc.fd).Goto(t, Idle)) else None
    case Kill(t) =>
      if pc.Idle? then None
      else if pc.Opening? then Some(s.Goto(t, Idle))
      else Some(s.(held := s.held - {t}).Release(t, pc.fd).Goto(t, Idle))
  }

  /** The state after a schedule; None when some event of it could not happen. */
  function Run(s: State, schedule: seq<Event>): Option<State> {
    if schedule == [] then Some(s)
    else match Run(s, schedule[..|schedule| - 1])
      case None => None
      case Some(m) => Do(m, schedule[|schedule| - 1])
  }

  /** Nobody is running; a lock file left by a killed installer may be present. */
  predicate Init(s: State) {
    s.flock == map[] && s.pcs == map[] && s.held == {}
  }

  /** A step moves one program counter. */
  lemma OthersStay(s: State, e: Event, u: Tid)
    requires Do(s, e).Some?
    requires u != e.t
    ensures Do(s, e).value.Pc(u) == s.Pc(u)
  {
  }

  /** Every thread past flock owns the flock of its inode. */
  ghost predicate FlockOwned(s: State) {
    forall t :: s.Pc(t).HoldsFlock() ==> s.Pc(t).fd in s.flock && s.flock[s.Pc(t).fd] == t
  }

  /** Every flock has an owner that still has the inode open. */
  ghost predicate FlockBacked(s: State) {
    forall i | i in s.flock ::
      (s.Pc(s.flock[i]).HoldsFlock() || s.Pc(s.flock[i]).Failing?) && s.Pc(s.flock[i]).fd == i
  }

  /** A guarding thread's inode is the one the path names: nobody unlinks it under the holder. */
  ghost predicate PathGuarded(s: State) {
    forall t :: s.Pc(t).Guards() ==> s.path == Some(s.Pc(t).fd)
  }

  /** The thread-local set agrees with the program counter. */
  ghost predicate HeldInside(s: State) {
    forall t :: t in s.held <==> s.Pc(t).Inside?
  }

  ghost predicate Invariant(s: State) {
    FlockOwned(s) && FlockBacked(s) && PathGuarded(s) && HeldInside(s)
  }

  lemma StepKeepsOwners(s: State, e: Event)
    requires FlockOwned(s)
    requires Do(s, e).Some?
    ensures FlockOwned(Do(s, e).value)
  {
    var s' := Do(s, e).value;
    forall t | s'.Pc(t).HoldsFlock()
      ensures s'.Pc(t).fd in s'.flock && s'.flock[s'.Pc(t).fd] == t
    {
      if t != e.t {
        assert s.Pc(t) == s'.Pc(t);
      }
    }
  }

  lemma StepKeepsBacking(s: State, e: Event)
    requires FlockOwned(s) && FlockBacked(s)
    requires Do(s, e).Some?
    ensures FlockBacked(Do(s, e).value)
  {
    var s' := Do(s, e).value;
    forall i | i in s'.flock
      ensures (s'.Pc(s'.flock[i]).HoldsFlock() || s'.Pc(s'.flock[i]).Failing?) && s'.Pc(s'.flock[i]).fd == i
    {
      if s'.flock[i] != e.t {
        assert s'.Pc(s'.flock[i]) == s.Pc(s.flock[i]);
      }
    }
  }

  lemma StepKeepsPath(s: State, e: Event)
    requires Invariant(s)
    requires Do(s, e).Some?
    ensures PathGuarded(Do(s, e).value)
    ensures HeldInside(Do(s, e).value)
  {
    var s' := Do(s, e).value;
    assert forall t | t != e.t :: s'.Pc(t) == s.Pc(t);
    forall t | s'.Pc(t).Guards()
      ensures s'.path == Some(s'.Pc(t).fd)
    {
      if t != e.t {
        if s.Pc(e.t).Guards() { OneGuard(s, t, e.t); }
      }
    }
  }

  /** Two guarding threads would name the same inode and own the same flock. */
  lemma OneGuard(s: State, t: Tid, u: Tid)
    requires Invariant(s)
    requires s.Pc(t).Guards() && s.Pc(u).Guards()
    ensures t == u
  {
  }

  lemma StepKeepsInvariant(s: State, e: Event)
    requires Invariant(s)
    requires Do(s, e).Some?
    ensures Invariant(Do(s, e).value)
  {
    StepKeepsOwners(s, e);
    StepKeepsBacking(s, e);
    StepKeepsPath(s, e);
  }

  lemma {:induction false} Reachable(s0: State, schedule: seq<Event>)
    requires Init(s0)
    requires Run(s0, schedule).Some?
    ensures Invariant(Run(s0, schedule).value)
  {
    if schedule != [] {
      Reachable(s0, schedule[..|schedule| - 1]);
      StepKeepsInvariant(Run(s0, schedule[..|schedule| - 1]).value, schedule[|schedule| - 1]);
    }
  }

  // ---------------------------------------------------------------------------------------
  // What the protocol is for

  /** In every interleaving at most one thread is between a successful comparison and its unlink. */
  lemma MutualExclusion(s0: State, schedule: seq<Event>, t: Tid, u: Tid)
    requires Init(s0)
    requires Run(s0, schedule).Some?
    requires Run(s0, schedule).value.Pc(t).Guards()
    requires Run(s0, schedule).value.Pc(u).Guards()
    ensures t == u
  {
    Reachable(s0, schedule);
    OneGuard(Run(s0, schedule).value, t, u);
  }

  /** While a thread is inside, the path names its inode and the flock of that inode is its own. */
  lemma HolderOwnsThePath(s0: State, schedule: seq<Event>, t: Tid)
    requires Init(s0)
    requires Run(s0, schedule).Some?
    requires t in Run(s0, schedule).value.held
    ensures var s := Run(s0, schedule).value;
            && s.Pc(t).Inside? && s.path == Some(s.Pc(t).fd)
            && s.Pc(t).fd in s.flock && s.flock[s.Pc(t).fd] == t
  {
    Reachable(s0, schedule);
  }

  /** Entries minus exits of one thread. */
  function Balance(t: Tid, events: seq<Event>): int {
    if events == [] then 0
    else
      var last := events[|events| - 1];
      Balance(t, events[..|events| - 1])
      + (if last == Enter(t) then 1 else if last == Leave(t) then -1 else 0)
  }

  /**
   Re-entrant entries never release early: until the thread has left once more often than
   it entered, it stays inside on the same inode, and its depth is the exact balance.
   */
  lemma {:induction false} ReentryKeepsTheLock(s: State, events: seq<Event>, t: Tid)
    requires s.Pc(t).Inside?
    requires Run(s, events).Some?
    requires Kill(t) !in events
    requires forall k | 0 <= k <= |events| :: s.Pc(t).depth + Balance(t, events[..k]) >= 0
    ensures var pc := Run(s, events).value.Pc(t);
            pc.Inside? && pc.fd == s.Pc(t).fd && pc.depth == s.Pc(t).depth + Balance(t, events)
  {
    assert events[..|events|] == events;
    if events != [] {
      var front := events[..|events| - 1];
      forall k | 0 <= k <= |front| ensures front[..k] == events[..k] {}
      ReentryKeepsTheLock(s, front, t);
    }
  }

  /** The thread's next call when nothing fails. */
  function Forward(t: Tid, pc: Pc, unused: Inode): Event {
    match pc
    case Idle => Enter(t)
    case Opening => Open(t, unused)
    case Opened(_) => Flock(t)
    case Locked(_) => Stat(t)
    case Observed(_, _) => Compare(t)
    case Failing(_) => Abandon(t)
    case Inside(_, _) => Leave(t)
    case Unlinking(_) => Unlink(t)
    case Closing(_) => Close(t)
  }

  lemma {:induction false} UnusedInode(pcs: map<Tid, Pc>, threads: set<Tid>) returns (bound: Inode)
    requires threads <= pcs.Keys
    ensures forall t | t in threads :: pcs[t].Fd().Some? ==> pcs[t].Fd().value < bound
    decreases threads
  {
    if threads == {} {
      bound := 0;
    } else {
      var t :| t in threads;
      bound := UnusedInode(pcs, threads - {t});
      if pcs[t].Fd().Some? && pcs[t].Fd().value >= bound {
        bound := pcs[t].Fd().value + 1;
      }
    }
  }

  /**
   No schedule reaches a deadlock: whenever a thread is busy, it or the thread whose flock it
   waits for can take its next step, and the waiter's holder is never the waiter itself.
   */
  lemma NeverStuck(s0: State, schedule: seq<Event>, t: Tid) returns (runner: Tid, unused: Inode)
    requires Init(s0)
    requires Run(s0, schedule).Some?
    requires !Run(s0, schedule).value.Pc(t).Idle?
    ensures var s := Run(s0, schedule).value;
            && !s.Pc(runner).Idle?
            && Do(s, Forward(runner, s.Pc(runner), unused)).Some?
            && (runner == t || (s.Pc(t).Opened? && s.Pc(t).fd in s.flock && s.flock[s.Pc(t).fd] == runner))
  {
    Reachable(s0, schedule);
    var s := Run(s0, schedule).value;
    var bound := UnusedInode(s.pcs, s.pcs.Keys);
    unused := if s.path.Some? && s.path.value >= bound then s.path.value + 1 else bound;
    runner := if s.Pc(t).Opened? && s.Pc(t).fd in s.flock then s.flock[s.Pc(t).fd] else t;
  }
}
