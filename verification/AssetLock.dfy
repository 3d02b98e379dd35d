/**
 The lock of `Installer._asset_lock`, over the same kernel state as the install lock.

 It takes the flock without waiting and yields at once: the inode it locked is never
 compared with the inode the path names.
 */
module AssetLock {
  import opened Common
  import opened InstallLock

  /** Do, for the asset lock: a granted flock is the entry, a refused one means close and retry. */
  function DoAsset(s: State, e: Event): Option<State> {
    var pc := s.Pc(e.t);
    match e
    case Enter(t) =>
      if pc.Idle? then Some(s.Goto(t, Opening)) else None
    case Flock(t) =>
      if !pc.Opened? then None
      else if pc.fd in s.flock then Some(s.Goto(t, Opening))
      else Some(s.(flock := s.flock[pc.fd := t]).Goto(t, Inside(pc.fd, 0)))
    case Leave(t) =>
      if pc.Inside? then Some(s.Goto(t, Unlinking(pc.fd))) else None
    case Open(_, _) => Do(s, e)
    case OpenFails(_) => Do(s, e)
    case Unlink(_) => Do(s, e)
    case UnlinkFails(_) => Do(s, e)
    case Close(_) => Do(s, e)
    case Kill(_) => Do(s, e)
    case _ => None
  }

  function RunAsset(s: State, schedule: seq<Event>): Option<State> {
    if schedule == [] then Some(s)
    else match RunAsset(s, schedule[..|schedule| - 1])
      case None => None
      case Some(m) => DoAsset(m, schedule[|schedule| - 1])
  }

  ghost predicate OwnsItsInode(s: State) {
    && (forall t :: s.Pc(t).HoldsFlock() ==> s.Pc(t).fd in s.flock && s.flock[s.Pc(t).fd] == t)
    && (forall i | i in s.flock :: s.Pc(s.flock[i]).HoldsFlock() && s.Pc(s.flock[i]).fd == i)
    && NeverCompares(s)
  }

  ghost predicate NeverCompares(s: State) {
    forall t :: !s.Pc(t).Locked? && !s.Pc(t).Observed?
  }

  lemma {:induction false} ReachableAsset(s0: State, schedule: seq<Event>)
    requires Init(s0)
    requires RunAsset(s0, schedule).Some?
    ensures OwnsItsInode(RunAsset(s0, schedule).value)
  {
    if schedule != [] {
      ReachableAsset(s0, schedule[..|schedule| - 1]);
      StepKeepsInodes(RunAsset(s0, schedule[..|schedule| - 1]).value, schedule[|schedule| - 1]);
    }
  }

  lemma StepKeepsInodes(s: State, e: Event)
    requires OwnsItsInode(s)
    requires DoAsset(s, e).Some?
    ensures OwnsItsInode(DoAsset(s, e).value)
  {
    var s' := DoAsset(s, e).value;
    assert NeverCompares(s') by {
      forall t ensures !s'.Pc(t).Locked? && !s'.Pc(t).Observed? {
        if t != e.t { assert s.Pc(t) == s'.Pc(t); }
      }
    }
    forall t | s'.Pc(t).HoldsFlock()
      ensures s'.Pc(t).fd in s'.flock && s'.flock[s'.Pc(t).fd] == t
    {
      if t != e.t { assert s.Pc(t) == s'.Pc(t); }
    }
    forall i | i in s'.flock
      ensures s'.Pc(s'.flock[i]).HoldsFlock() && s'.Pc(s'.flock[i]).fd == i
    {
      if s'.flock[i] != e.t { assert s'.Pc(s'.flock[i]) == s.Pc(s.flock[i]); }
    }
  }

  /** What the asset lock does give: at most one thread inside per inode. */
  lemma PerInodeExclusion(s0: State, schedule: seq<Event>, t: Tid, u: Tid)
    requires Init(s0)
    requires RunAsset(s0, schedule).Some?
    requires RunAsset(s0, schedule).value.Pc(t).Inside? && RunAsset(s0, schedule).value.Pc(u).Inside?
    requires RunAsset(s0, schedule).value.Pc(t).fd == RunAsset(s0, schedule).value.Pc(u).fd
    ensures t == u
  {
    ReachableAsset(s0, schedule);
  }

  lemma AppendEvent(s0: State, before: seq<Event>, e: Event)
    requires RunAsset(s0, before).Some?
    ensures RunAsset(s0, before + [e]) == DoAsset(RunAsset(s0, before).value, e)
  {
  }

  lemma {:induction false} RunConcat(s: State, a: seq<Event>, b: seq<Event>)
    requires RunAsset(s, a).Some?
    ensures RunAsset(s, a + b) == RunAsset(RunAsset(s, a).value, b)
  {
    if b == [] {
      assert a + b == a;
    } else {
      assert (a + b)[..|a + b| - 1] == a + b[..|b| - 1];
      RunConcat(s, a, b[..|b| - 1]);
    }
  }

  lemma RunTwo(s: State, e: Event, f: Event)
    requires DoAsset(s, e).Some?
    ensures RunAsset(s, [e]) == DoAsset(s, e)
    ensures RunAsset(s, [e, f]) == DoAsset(DoAsset(s, e).value, f)
  {
  }

  lemma RunThree(s: State, e: Event, f: Event, g: Event)
    requires DoAsset(s, e).Some? && DoAsset(DoAsset(s, e).value, f).Some?
    ensures RunAsset(s, [e, f, g]) == DoAsset(DoAsset(DoAsset(s, e).value, f).value, g)
  {
    RunTwo(s, e, f);
    assert [e, f, g][..2] == [e, f];
  }

  /** An idle thread gets in when the path names no inode, or one that nobody has locked. */
  lemma Acquires(s: State, t: Tid, created: Inode) returns (i: Inode)
    requires s.Pc(t).Idle?
    requires s.path.None? ==> !s.Live(created)
    requires (if s.path.Some? then s.path.value else created) !in s.flock
    ensures i == if s.path.Some? then s.path.value else created
    ensures RunAsset(s, [Enter(t), Open(t, created), Flock(t)])
         == Some(s.(path := Some(i), flock := s.flock[i := t]).Goto(t, Inside(i, 0)))
  {
    i := if s.path.Some? then s.path.value else created;
    var opening := s.Goto(t, Opening);
    forall u | u in opening.pcs && u != t ensures opening.pcs[u] == s.pcs[u] {}
    assert s.path.None? ==> !opening.Live(created);
    var holding := s.(path := Some(i)).Goto(t, Opened(i));
    assert opening.(path := Some(i)).Goto(t, Opened(i)) == holding;
    assert DoAsset(opening, Open(t, created)) == Some(holding);
    assert holding.Goto(t, Inside(i, 0)).pcs == s.Goto(t, Inside(i, 0)).pcs;
    RunThree(s, Enter(t), Open(t, created), Flock(t));
  }

  /** A holder that gives up its inode without removing the path. */
  lemma Closes(s: State, t: Tid)
    requires s.Pc(t).Unlinking? || s.Pc(t).Closing?
    requires s.Pc(t).fd in s.flock && s.flock[s.Pc(t).fd] == t
    ensures RunAsset(s, if s.Pc(t).Closing? then [Close(t)] else [UnlinkFails(t), Close(t)])
         == Some(s.(flock := s.flock - {s.Pc(t).fd}).Goto(t, Idle))
  {
    RunTwo(s, if s.Pc(t).Closing? then Close(t) else UnlinkFails(t), Close(t));
    assert s.Goto(t, Closing(s.Pc(t).fd)).Goto(t, Idle).pcs == s.Goto(t, Idle).pcs;
  }

  /** Every flock of the schedule was granted on the inode that the path named at that moment. */
  ghost predicate GrantsOnThePath(s0: State, schedule: seq<Event>) {
    forall k | 0 <= k < |schedule| && schedule[k].Flock? && RunAsset(s0, schedule[..k]).Some? ::
      var s, t := RunAsset(s0, schedule[..k]).value, schedule[k].t;
      s.Pc(t).Opened? && s.Pc(t).fd !in s.flock ==> s.path == Some(s.Pc(t).fd)
  }

  lemma {:induction false} GrantsOnThePathExclude(s0: State, schedule: seq<Event>)
    requires Init(s0)
    requires RunAsset(s0, schedule).Some?
    requires GrantsOnThePath(s0, schedule)
    ensures var s := RunAsset(s0, schedule).value;
            && (forall t :: s.Pc(t).Guards() ==> s.path == Some(s.Pc(t).fd))
            && (forall t, u :: s.Pc(t).Guards() && s.Pc(u).Guards() ==> t == u)
  {
    ReachableAsset(s0, schedule);
    if schedule != [] {
      var front := schedule[..|schedule| - 1];
      forall k | 0 <= k <= |front| ensures schedule[..k] == front[..k] {}
      assert GrantsOnThePath(s0, front);
      GrantsOnThePathExclude(s0, front);
      ReachableAsset(s0, front);
      var s, s' := RunAsset(s0, front).value, RunAsset(s0, schedule).value;
      var e := schedule[|schedule| - 1];
      forall t | s'.Pc(t).Guards()
        ensures s'.path == Some(s'.Pc(t).fd)
      {
        if t != e.t { assert s'.Pc(t) == s.Pc(t); }
      }
    }
  }

  lemma GrantsConcat(s: State, a: seq<Event>, b: seq<Event>)
    requires RunAsset(s, a).Some?
    requires GrantsOnThePath(s, a) && GrantsOnThePath(RunAsset(s, a).value, b)
    ensures GrantsOnThePath(s, a + b)
  {
    hide DoAsset, RunAsset;
    forall k | 0 <= k < |a + b| && (a + b)[k].Flock? && RunAsset(s, (a + b)[..k]).Some?
      ensures var m, t := RunAsset(s, (a + b)[..k]).value, (a + b)[k].t;
              m.Pc(t).Opened? && m.Pc(t).fd !in m.flock ==> m.path == Some(m.Pc(t).fd)
    {
      if k < |a| {
        assert (a + b)[..k] == a[..k] && (a + b)[k] == a[k];
      } else {
        assert (a + b)[..k] == a + b[..k - |a|] && (a + b)[k] == b[k - |a|];
        RunConcat(s, a, b[..k - |a|]);
      }
    }
  }

  /** An entry locks the inode that the path names, so its grant is on the path. */
  lemma AcquiresOnThePath(s: State, t: Tid, created: Inode)
    requires s.Pc(t).Idle?
    requires s.path.None? ==> !s.Live(created)
    ensures GrantsOnThePath(s, [Enter(t), Open(t, created), Flock(t)])
  {
    var more := [Enter(t), Open(t, created), Flock(t)];
    forall k | 0 <= k < |more| && more[k].Flock? && RunAsset(s, more[..k]).Some?
      ensures var m := RunAsset(s, more[..k]).value;
              m.Pc(t).Opened? && m.Pc(t).fd !in m.flock ==> m.path == Some(m.Pc(t).fd)
    {
      RunTwo(s, Enter(t), Open(t, created));
      assert more[..k] == [Enter(t), Open(t, created)];
      hide RunAsset;
    }
  }

  /** A continuation of which thread t takes no part, and whose flocks are granted on the path only. */
  ghost predicate Beside(s: State, t: Tid, more: seq<Event>) {
    RunAsset(s, more).Some? && GrantsOnThePath(s, more) && forall e | e in more :: e.t != t
  }

  /** Somebody can get inside beside an orphan holder, by the path alone. */
  lemma OrphanHolderIsNotAlone(s: State, t: Tid) returns (more: seq<Event>, other: Tid)
    requires OwnsItsInode(s)
    requires s.Pc(t).Inside? && s.path != Some(s.Pc(t).fd)
    ensures Beside(s, t, more)
    ensures other != t && RunAsset(s, more).value.Pc(other).Inside?
  {
    hide GrantsOnThePath;
    var bound := UnusedInode(s.pcs, s.pcs.Keys);
    other := UnusedThread(s.pcs.Keys);
    var entry := [Enter(other), Open(other, bound), Flock(other)];
    if s.path.Some? && s.path.value in s.flock {
      var v := s.flock[s.path.value];
      if s.Pc(v).Inside? {
        more, other := [], v;
        NoGrants(s, more);
      } else {
        Closes(s, v);
        var m := if s.Pc(v).Closing? then [Close(v)] else [UnlinkFails(v), Close(v)];
        var _ := Acquires(RunAsset(s, m).value, other, bound);
        more := m + entry;
        RunConcat(s, m, entry);
        NoGrants(s, m);
        AcquiresOnThePath(RunAsset(s, m).value, other, bound);
        GrantsConcat(s, m, entry);
      }
    } else {
      more := entry;
      var _ := Acquires(s, other, bound);
      AcquiresOnThePath(s, other, bound);
    }
  }

  lemma NoGrants(s: State, more: seq<Event>)
    requires forall e | e in more :: !e.Flock?
    ensures GrantsOnThePath(s, more)
  {
  }

  lemma {:induction false} UnusedThread(threads: set<Tid>) returns (t: Tid)
    ensures forall u | u in threads :: u < t
    decreases threads
  {
    if threads == {} {
      t := 0;
    } else {
      var u :| u in threads;
      t := UnusedThread(threads - {u});
      assert threads == threads - {u} + {u};
      if u >= t { t := u + 1; }
    }
  }

  lemma {:induction false} HolderStays(s: State, t: Tid, more: seq<Event>)
    requires RunAsset(s, more).Some? && forall e | e in more :: e.t != t
    ensures RunAsset(s, more).value.Pc(t) == s.Pc(t)
  {
    if more != [] {
      HolderStays(s, t, more[..|more| - 1]);
    }
  }

  /**
   The missing comparison is exactly what is missing. When a flock has just been granted to t, and
   every flock before it on the inode the path named then, others can still get inside beside t, by
   the path alone, if and only if the path does not name t's inode: what `stat` would have told.
   */
  lemma GrantExcludesExactlyOnThePath(s0: State, before: seq<Event>, t: Tid)
    requires Init(s0) && RunAsset(s0, before).Some? && GrantsOnThePath(s0, before)
    requires DoAsset(RunAsset(s0, before).value, Flock(t)).Some?
    requires DoAsset(RunAsset(s0, before).value, Flock(t)).value.Pc(t).Inside?
    ensures var s := DoAsset(RunAsset(s0, before).value, Flock(t)).value;
      (exists more: seq<Event>, u: Tid :: Beside(s, t, more) && u != t && RunAsset(s, more).value.Pc(u).Inside?)
      <==> s.path != Some(s.Pc(t).fd)
  {
    var s := DoAsset(RunAsset(s0, before).value, Flock(t)).value;
    var granted := before + [Flock(t)];
    AppendEvent(s0, before, Flock(t));
    ReachableAsset(s0, granted);
    if s.path != Some(s.Pc(t).fd) {
      var more, u := OrphanHolderIsNotAlone(s, t);
    } else {
      GrantOnThePath(s0, before, t);
      forall more: seq<Event>, u: Tid | Beside(s, t, more) && u != t
        ensures !RunAsset(s, more).value.Pc(u).Inside?
      {
        HolderStays(s, t, more);
        RunConcat(s0, granted, more);
        GrantsConcat(s0, granted, more);
        GrantsOnThePathExclude(s0, granted + more);
        hide RunAsset, DoAsset, GrantsOnThePath;
        assert s.Pc(t).Guards();
      }
    }
  }

  lemma GrantOnThePath(s0: State, before: seq<Event>, t: Tid)
    requires RunAsset(s0, before).Some? && GrantsOnThePath(s0, before)
    requires DoAsset(RunAsset(s0, before).value, Flock(t)).Some?
    requires var s := DoAsset(RunAsset(s0, before).value, Flock(t)).value;
             s.Pc(t).Inside? && s.path == Some(s.Pc(t).fd)
    ensures GrantsOnThePath(s0, before + [Flock(t)])
  {
    var m := RunAsset(s0, before).value;
    assert [Flock(t)][..0] == [];
    assert RunAsset(m, []) == Some(m);
    assert GrantsOnThePath(m, [Flock(t)]);
    GrantsConcat(s0, before, [Flock(t)]);
  }

  // ---------------------------------------------------------------------------------------
  // How many installers the lock is good for

  const EMPTY: State := State(None, map[], map[], {})

  /** Thread a holds the lock file that thread b has opened. */
  function Shared(a: Tid, b: Tid): State {
    State(Some(0), map[0 := a], map[a := Inside(0, 0), b := Opened(0)], {})
  }

  /** Thread a has unlinked and closed it. */
  function Orphaned(a: Tid, b: Tid): State {
    State(None, map[], map[a := Idle, b := Opened(0)], {})
  }

  function Enters(t: Tid, created: Inode): seq<Event> {
    [Enter(t), Open(t, created), Flock(t)]
  }

  function Leaves(t: Tid): seq<Event> {
    [Leave(t), Unlink(t), Close(t)]
  }

  lemma WaiterOpens(a: Tid, b: Tid)
    requires a != b
    ensures RunAsset(EMPTY, Enters(a, 0) + [Enter(b), Open(b, 0)]) == Some(Shared(a, b))
  {
    var _ := Acquires(EMPTY, a, 0);
    var s := State(Some(0), map[0 := a], map[a := Inside(0, 0)], {});
    assert s.Goto(b, Opening).Goto(b, Opened(0)) == Shared(a, b);
    RunTwo(s, Enter(b), Open(b, 0));
    RunConcat(EMPTY, Enters(a, 0), [Enter(b), Open(b, 0)]);
  }

  /** Between the unlink and the close. */
  function Unlinked(a: Tid, b: Tid): State {
    State(None, map[0 := a], map[a := Closing(0), b := Opened(0)], {})
  }

  lemma HolderUnlinks(a: Tid, b: Tid)
    requires a != b
    ensures DoAsset(Shared(a, b), Leave(a)).Some?
    ensures DoAsset(DoAsset(Shared(a, b), Leave(a)).value, Unlink(a)) == Some(Unlinked(a, b))
  {
    var unlinking := Shared(a, b).Goto(a, Unlinking(0));
    assert unlinking.Goto(a, Closing(0)).pcs == Unlinked(a, b).pcs;
  }

  lemma HolderCloses(a: Tid, b: Tid)
    requires a != b
    ensures DoAsset(Unlinked(a, b), Close(a)) == Some(Orphaned(a, b))
  {
    assert Unlinked(a, b).Goto(a, Idle).pcs == Orphaned(a, b).pcs;
    assert Unlinked(a, b).flock - {0} == map[];
  }

  lemma HolderLeaves(a: Tid, b: Tid)
    requires a != b
    ensures RunAsset(Shared(a, b), Leaves(a)) == Some(Orphaned(a, b))
  {
    hide DoAsset, RunAsset, Shared, Unlinked, Orphaned;
    HolderUnlinks(a, b);
    HolderCloses(a, b);
    RunThree(Shared(a, b), Leave(a), Unlink(a), Close(a));
  }

  lemma WaiterLocksOrphan(a: Tid, b: Tid)
    requires a != b
    ensures RunAsset(Orphaned(a, b), [Flock(b)] + Enters(a, 1))
         == Some(State(Some(1), map[0 := b, 1 := a], map[a := Inside(1, 0), b := Inside(0, 0)], {}))
  {
    var held := State(None, map[0 := b], map[a := Idle, b := Inside(0, 0)], {});
    assert Orphaned(a, b).Goto(b, Inside(0, 0)).pcs == held.pcs;
    assert DoAsset(Orphaned(a, b), Flock(b)) == Some(held);
    RunTwo(Orphaned(a, b), Flock(b), Flock(b));
    assert held.Goto(a, Inside(1, 0)).pcs == map[a := Inside(1, 0), b := Inside(0, 0)];
    var _ := Acquires(held, a, 1);
    RunConcat(Orphaned(a, b), [Flock(b)], Enters(a, 1));
  }

  /** What it does not give: two threads inside at once, each with the flock of its own inode. */
  lemma TwoHolders(a: Tid, b: Tid) returns (schedule: seq<Event>)
    requires a != b
    ensures RunAsset(EMPTY, schedule).Some? && forall e | e in schedule :: e.t == a || e.t == b
    ensures RunAsset(EMPTY, schedule).value.Pc(a).Inside? && RunAsset(EMPTY, schedule).value.Pc(b).Inside?
  {
    hide DoAsset, RunAsset, Shared, Orphaned;
    WaiterOpens(a, b);
    HolderLeaves(a, b);
    WaiterLocksOrphan(a, b);
    var shared := Enters(a, 0) + [Enter(b), Open(b, 0)];
    RunConcat(EMPTY, shared, Leaves(a));
    RunConcat(EMPTY, shared + Leaves(a), [Flock(b)] + Enters(a, 1));
    schedule := shared + Leaves(a) + ([Flock(b)] + Enters(a, 1));
  }

  lemma {:induction false} OnlyTheirThreadsMove(schedule: seq<Event>, s0: State, t: Tid)
    requires Init(s0) && RunAsset(s0, schedule).Some?
    requires forall e | e in schedule :: e.t != t
    ensures RunAsset(s0, schedule).value.Pc(t).Idle?
  {
    HolderStays(s0, t, schedule);
  }

  /** Every schedule of these installers keeps at most one of them inside. */
  ghost predicate Excludes(threads: set<Tid>) {
    forall s0: State, schedule: seq<Event>, t: Tid, u: Tid |
      && Init(s0) && RunAsset(s0, schedule).Some? && (forall e | e in schedule :: e.t in threads)
      && RunAsset(s0, schedule).value.Pc(t).Inside? && RunAsset(s0, schedule).value.Pc(u).Inside? ::
      t == u
  }

  lemma SoleMember(threads: set<Tid>, t: Tid, u: Tid)
    requires |threads| <= 1 && t in threads && u in threads
    ensures t == u
  {
    if t != u { assert {t, u} <= threads && |{t, u}| == 2; SubsetIsSmaller({t, u}, threads); }
  }

  lemma {:induction false} SubsetIsSmaller(a: set<Tid>, b: set<Tid>)
    requires a <= b
    ensures |a| <= |b|
    decreases a
  {
    if a != {} {
      var t :| t in a;
      SubsetIsSmaller(a - {t}, b - {t});
    }
  }

  lemma TwoMembers(threads: set<Tid>) returns (a: Tid, b: Tid)
    requires |threads| > 1
    ensures a in threads && b in threads && a != b
  {
    a :| a in threads;
    assert |threads - {a}| > 0;
    b :| b in threads - {a};
  }

  /** The asset lock excludes exactly if there is only one installer to exclude. */
  lemma ExcludesExactlyAlone(threads: set<Tid>)
    ensures Excludes(threads) <==> |threads| <= 1
  {
    if |threads| <= 1 {
      forall s0: State, schedule: seq<Event>, t: Tid, u: Tid |
          && Init(s0) && RunAsset(s0, schedule).Some? && (forall e | e in schedule :: e.t in threads)
          && RunAsset(s0, schedule).value.Pc(t).Inside? && RunAsset(s0, schedule).value.Pc(u).Inside?
        ensures t == u
      {
        if t !in threads { OnlyTheirThreadsMove(schedule, s0, t); }
        if u !in threads { OnlyTheirThreadsMove(schedule, s0, u); }
        SoleMember(threads, t, u);
      }
    } else {
      var a, b := TwoMembers(threads);
      var schedule := TwoHolders(a, b);
      assert Init(EMPTY);
    }
  }
}
