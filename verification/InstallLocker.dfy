/**
 `_acquire_install_lock` and the entry and exit of `_install_lock` as one thread runs them, with any
 events of the other threads before each of its system calls. The state moves by steps of
 `InstallLock` only.
 */
module InstallLocker {
  import opened Common
  import opened InstallLock

  /**
   One system call: what the others try before it and after it, whether it fails, and which inode a creation
   would use.
   */
  datatype Turn = Turn(others: seq<Event>, fails: bool, created: State -> Inode, after: seq<Event>) {
    predicate Quiet() {
      others == [] && after == [] && !fails
    }
  }

  /** The kernel gives a new file an inode that nothing refers to. */
  ghost predicate NewInodes(turns: seq<Turn>) {
    forall i, s: State | 0 <= i < |turns| :: !s.Live(turns[i].created(s))
  }

  /** The other threads move, as far as they can. */
  function Moved(s: State, t: Tid, events: seq<Event>): State {
    if events == [] then s
    else
      var before := Moved(s, t, events[..|events| - 1]);
      var e := events[|events| - 1];
      if e.t != t && Do(before, e).Some? then Do(before, e).value else before
  }

  lemma {:induction false} MovedKeeps(s: State, t: Tid, events: seq<Event>)
    requires Invariant(s)
    ensures Invariant(Moved(s, t, events)) && Moved(s, t, events).Pc(t) == s.Pc(t)
  {
    if events != [] {
      hide Do, Invariant;
      var before, e := Moved(s, t, events[..|events| - 1]), events[|events| - 1];
      MovedKeeps(s, t, events[..|events| - 1]);
      if e.t != t && Do(before, e).Some? {
        StepKeepsInvariant(before, e);
        OthersStay(before, e, t);
      }
    }
  }

  // ---------------------------------------------------------------------------------------
  // One acquisition

  /** The state after a step that can happen. */
  function After(s: State, e: Event): State {
    match Do(s, e) case Some(s') => s' case None => s
  }

  function Opens(s: State, t: Tid, turn: Turn): State {
    var m := Moved(s, t, turn.others);
    After(m, if turn.fails then OpenFails(t) else Open(t, turn.created(m)))
  }

  /** One chance for `fcntl.flock` to return: granted, still waiting, or an error. */
  function Locks(s: State, t: Tid, turn: Turn): State {
    var m := Moved(s, t, turn.others);
    if turn.fails then After(After(m, FlockFails(t)), Abandon(t)) else After(m, Flock(t))
  }

  /** `os.stat` of the path and the comparison; a mismatch leads back to the open. */
  function Checks(s: State, t: Tid, turn: Turn): State {
    var m := Moved(s, t, turn.others);
    if turn.fails then After(After(m, StatFails(t)), Abandon(t))
    else
      var seen := Moved(After(m, Stat(t)), t, turn.after);
      if Settled(seen, t) then seen else After(seen, Compare(t))
  }

  /** The thread has found the path to name the inode it has locked, or has given up. */
  predicate Settled(s: State, t: Tid) {
    s.Pc(t).Idle? || (s.Pc(t).Observed? && s.Pc(t).seen == Some(s.Pc(t).fd))
  }

  function Turned(s: State, t: Tid, turn: Turn): State {
    match s.Pc(t)
    case Opening => Opens(s, t, turn)
    case Opened(_) => Locks(s, t, turn)
    case Locked(_) => Checks(s, t, turn)
    case _ => s
  }

  /** `_acquire_install_lock`, turn by turn, until it is settled or there are no more turns. */
  function Acquired(s: State, t: Tid, turns: seq<Turn>): State
    decreases |turns|
  {
    if turns == [] || Settled(s, t) then s else Acquired(Turned(s, t, turns[0]), t, turns[1..])
  }

  predicate Acquiring(s: State, t: Tid) {
    Settled(s, t) || s.Pc(t).Opening? || s.Pc(t).Opened? || s.Pc(t).Locked?
  }

  /** No turn leaves the acquisition, and the thread gives up only where a call fails. */
  lemma TurnKeeps(s: State, t: Tid, turn: Turn)
    requires Invariant(s) && Acquiring(s, t) && !Settled(s, t) && NewInodes([turn])
    ensures Invariant(Turned(s, t, turn)) && Acquiring(Turned(s, t, turn), t)
    ensures Turned(s, t, turn).Pc(t).Idle? <==> turn.fails
  {
    MovedKeeps(s, t, turn.others);
    var m := Moved(s, t, turn.others);
    assert !m.Live([turn][0].created(m));
    if s.Pc(t).Opening? {
      StepKeepsInvariant(m, if turn.fails then OpenFails(t) else Open(t, turn.created(m)));
    } else if s.Pc(t).Opened? {
      LockTurnKeeps(s, t, turn);
    } else {
      CheckTurnKeeps(s, t, turn);
    }
  }

  lemma LockTurnKeeps(s: State, t: Tid, turn: Turn)
    requires Invariant(s) && s.Pc(t).Opened?
    ensures var s' := Locks(s, t, turn);
      Invariant(s') && if turn.fails then s'.Pc(t).Idle? else s'.Pc(t) == Locked(s.Pc(t).fd) || s'.Pc(t) == s.Pc(t)
  {
    hide Invariant;
    MovedKeeps(s, t, turn.others);
    var m := Moved(s, t, turn.others);
    if turn.fails {
      StepKeepsInvariant(m, FlockFails(t));
      StepKeepsInvariant(After(m, FlockFails(t)), Abandon(t));
    } else if Do(m, Flock(t)).Some? {
      StepKeepsInvariant(m, Flock(t));
    }
  }

  lemma CheckTurnKeeps(s: State, t: Tid, turn: Turn)
    requires Invariant(s) && s.Pc(t).Locked?
    ensures var s' := Checks(s, t, turn);
      && Invariant(s')
      && if turn.fails then s'.Pc(t).Idle?
         else s'.Pc(t).Opening? || s'.Pc(t) == Observed(s.Pc(t).fd, Some(s.Pc(t).fd))
  {
    hide Invariant;
    MovedKeeps(s, t, turn.others);
    var m := Moved(s, t, turn.others);
    if turn.fails {
      StepKeepsInvariant(m, StatFails(t));
      StepKeepsInvariant(After(m, StatFails(t)), Abandon(t));
    } else {
      StepKeepsInvariant(m, Stat(t));
      MovedKeeps(After(m, Stat(t)), t, turn.after);
      var seen := Moved(After(m, Stat(t)), t, turn.after);
      if !Settled(seen, t) { StepKeepsInvariant(seen, Compare(t)); }
    }
  }

  /** An acquisition gives up exactly where a call of its own fails; until then it goes on while there are turns. */
  lemma {:induction false} GivesUpExactlyOnFailure(s: State, t: Tid, turns: seq<Turn>)
    requires Invariant(s) && Acquiring(s, t) && NewInodes(turns)
    ensures Invariant(Acquired(s, t, turns)) && Acquiring(Acquired(s, t, turns), t)
    ensures (forall turn | turn in turns :: !turn.fails) ==> Acquired(s, t, turns).Pc(t).Idle? == s.Pc(t).Idle?
    ensures (exists turn :: turn in turns && turn.fails) ==> Settled(Acquired(s, t, turns), t)
    decreases |turns|
  {
    hide Invariant, Turned, Settled;
    if turns != [] && !Settled(s, t) {
      assert [turns[0]][0] == turns[0];
      TurnKeeps(s, t, turns[0]);
      assert NewInodes(turns[1..]);
      GivesUpExactlyOnFailure(Turned(s, t, turns[0]), t, turns[1..]);
    }
  }

  lemma {:induction false} AcquiredConcat(s: State, t: Tid, a: seq<Turn>, b: seq<Turn>)
    ensures Acquired(s, t, a + b) == Acquired(Acquired(s, t, a), t, b)
    decreases |a|
  {
    hide Turned, Settled;
    if a == [] {
      assert a + b == b;
    } else if !Settled(s, t) {
      assert (a + b)[0] == a[0] && (a + b)[1..] == a[1..] + b;
      AcquiredConcat(Turned(s, t, a[0]), t, a[1..], b);
    }
  }

  /** Only thread t has locked anything. */
  predicate OnlyItsFlocks(s: State, t: Tid) {
    forall i | i in s.flock :: s.flock[i] == t
  }

  /** It holds the lock of the inode that the path names, and has seen it. */
  predicate Succeeded(s: State, t: Tid) {
    s.Pc(t).Observed? && s.Pc(t).seen == Some(s.Pc(t).fd)
  }

  /** With nobody else about, a file that is opened is the one the path names. */
  lemma QuietOpen(s: State, t: Tid, turn: Turn)
    requires Invariant(s) && OnlyItsFlocks(s, t) && s.Pc(t).Opening? && turn.Quiet() && NewInodes([turn])
    ensures var s' := Turned(s, t, turn);
      && Invariant(s') && OnlyItsFlocks(s', t) && s'.Pc(t).Opened? && s'.path == Some(s'.Pc(t).fd)
  {
    assert !s.Live([turn][0].created(s));
    assert Moved(s, t, []) == s;
    StepKeepsInvariant(s, Open(t, turn.created(s)));
    hide Invariant;
  }

  /** Its flock is granted. */
  lemma QuietLock(s: State, t: Tid, turn: Turn)
    requires Invariant(s) && OnlyItsFlocks(s, t) && s.Pc(t).Opened? && turn.Quiet()
    ensures var s' := Turned(s, t, turn);
      && Invariant(s') && OnlyItsFlocks(s', t) && s'.Pc(t) == Locked(s.Pc(t).fd) && s'.path == s.path
  {
    assert Moved(s, t, []) == s;
    assert s.Pc(t).fd !in s.flock;
    StepKeepsInvariant(s, Flock(t));
    hide Invariant;
  }

  /** And the comparison tells whether it is the file that the path names. */
  lemma QuietCheck(s: State, t: Tid, turn: Turn)
    requires Invariant(s) && OnlyItsFlocks(s, t) && s.Pc(t).Locked? && turn.Quiet()
    ensures var s' := Turned(s, t, turn);
      && Invariant(s') && OnlyItsFlocks(s', t)
      && if s.path == Some(s.Pc(t).fd) then Succeeded(s', t) else s'.Pc(t).Opening?
  {
    assert Moved(s, t, []) == s;
    var seen := After(s, Stat(t));
    assert Moved(seen, t, []) == seen;
    StepKeepsInvariant(s, Stat(t));
    if s.path != Some(s.Pc(t).fd) { StepKeepsInvariant(seen, Compare(t)); }
    hide Invariant;
  }

  /** How many turns are left at most. */
  function TurnsLeft(s: State, t: Tid): nat {
    match s.Pc(t)
    case Opening => 3
    case Opened(fd) => if s.path == Some(fd) then 2 else 5
    case Locked(fd) => if s.path == Some(fd) then 1 else 4
    case _ => 0
  }

  /** Five turns are enough: an orphaned file is given up, and the path's own file is opened, locked and compared. */
  lemma QuietSucceeds(s: State, t: Tid, turns: seq<Turn>)
    requires Invariant(s) && OnlyItsFlocks(s, t) && Acquiring(s, t) && !s.Pc(t).Idle?
    requires NewInodes(turns) && forall turn | turn in turns :: turn.Quiet()
    requires |turns| >= TurnsLeft(s, t)
    ensures Succeeded(Acquired(s, t, turns), t)
    decreases |turns|
  {
    if !Settled(s, t) {
      var first, rest := turns[0], turns[1..];
      assert [first][0] == first && NewInodes([first]) && NewInodes(rest);
      assert forall turn | turn in rest :: turn in turns;
      if s.Pc(t).Opening? { QuietOpen(s, t, first); }
      else if s.Pc(t).Opened? { QuietLock(s, t, first); }
      else { QuietCheck(s, t, first); }
      hide Turned, Invariant, OnlyItsFlocks;
      var s' := Turned(s, t, first);
      if !Settled(s', t) { QuietSucceeds(s', t, rest); }
    }
  }

  /**
   Whatever the others have done before, and however often it had to start again: if none of its calls fails, and
   from some turn on the others do nothing and hold no lock, the acquisition succeeds.
   */
  lemma SucceedsOnceQuiet(s: State, t: Tid, turns: seq<Turn>, k: nat)
    requires Invariant(s) && Acquiring(s, t) && !s.Pc(t).Idle? && NewInodes(turns)
    requires forall turn | turn in turns :: !turn.fails
    requires k + 5 <= |turns| && forall j | k <= j < |turns| :: turns[j].Quiet()
    requires OnlyItsFlocks(Acquired(s, t, turns[..k]), t)
    ensures Succeeded(Acquired(s, t, turns), t)
  {
    hide Invariant, Acquired, Acquiring, OnlyItsFlocks, Settled, Succeeded;
    assert turns == turns[..k] + turns[k..];
    assert NewInodes(turns[..k]) && NewInodes(turns[k..]);
    assert forall turn | turn in turns[..k] :: turn in turns;
    GivesUpExactlyOnFailure(s, t, turns[..k]);
    AcquiredConcat(s, t, turns[..k], turns[k..]);
    QuietSucceeds(Acquired(s, t, turns[..k]), t, turns[k..]);
  }

  class Host {
    var state: State

    ghost predicate Valid()
      reads this
    {
      Invariant(state)
    }

    constructor (lockFile: Option<Inode>)
      ensures Valid() && Init(state) && state.path == lockFile
    {
      state := State(lockFile, map[], map[], {});
    }

    method Make(e: Event)
      requires Valid() && Do(state, e).Some?
      modifies this
      ensures Valid() && state == Do(old(state), e).value
    {
      StepKeepsInvariant(state, e);
      state := Do(state, e).value;
    }

    /** The other threads move, as far as they can. */
    method Others(t: Tid, events: seq<Event>)
      requires Valid()
      modifies this
      ensures Valid() && state == Moved(old(state), t, events) && state.Pc(t) == old(state.Pc(t))
    {
      assert events[..0] == [];
      for i := 0 to |events|
        invariant Valid() && state == Moved(old(state), t, events[..i])
      {
        assert events[..i + 1][..i] == events[..i] && events[..i + 1][i] == events[i];
        if events[i].t != t && Do(state, events[i]).Some? {
          Make(events[i]);
        }
      }
      assert events[..|events|] == events;
      MovedKeeps(old(state), t, events);
    }

    /** `os.open`. */
    method OpenFile(t: Tid, turn: Turn) returns (ok: bool)
      requires Valid() && state.Pc(t).Opening? && NewInodes([turn])
      modifies this
      ensures Valid() && state == Turned(old(state), t, turn)
      ensures ok == !turn.fails && if ok then state.Pc(t).Opened? else state.Pc(t).Idle?
    {
      hide Invariant;
      Others(t, turn.others);
      assert !state.Live([turn][0].created(state));
      ok := !turn.fails;
      Make(if ok then Open(t, turn.created(state)) else OpenFails(t));
    }

    /** One chance for `fcntl.flock` to return: granted, still waiting, or an error. */
    method TryFlock(t: Tid, turn: Turn) returns (granted: Option<bool>)
      requires Valid() && state.Pc(t).Opened?
      modifies this
      ensures Valid() && state == Turned(old(state), t, turn) && granted.None? == turn.fails
      ensures match granted
              case Some(true) => state.Pc(t) == Locked(old(state.Pc(t).fd))
              case Some(false) => state.Pc(t) == old(state.Pc(t))
              case None => state.Pc(t).Idle?
    {
      hide Invariant;
      Others(t, turn.others);
      if turn.fails {
        Make(FlockFails(t));
        Make(Abandon(t));
        return None;
      }
      if state.Pc(t).fd in state.flock { return Some(false); }
      Make(Flock(t));
      return Some(true);
    }

    /** `os.stat` of the path and the comparison; the thread is back at its `open` if they differ. */
    method CheckPath(t: Tid, turn: Turn) returns (same: Option<bool>)
      requires Valid() && state.Pc(t).Locked?
      modifies this
      ensures Valid() && state == Turned(old(state), t, turn) && same.None? == turn.fails
      ensures match same
              case Some(true) => state.Pc(t) == Observed(old(state.Pc(t).fd), Some(old(state.Pc(t).fd)))
              case Some(false) => state.Pc(t).Opening?
              case None => state.Pc(t).Idle?
    {
      hide Invariant;
      Others(t, turn.others);
      if turn.fails {
        Make(StatFails(t));
        Make(Abandon(t));
        return None;
      }
      Make(Stat(t));
      Others(t, turn.after);
      if state.Pc(t).seen == Some(state.Pc(t).fd) { return Some(true); }
      Make(Compare(t));
      return Some(false);
    }

    /** The process is killed. */
    method Die(t: Tid)
      requires Valid() && !state.Pc(t).Idle?
      modifies this
      ensures Valid() && state.Pc(t).Idle? && state == After(old(state), Kill(t))
    {
      hide Invariant;
      Make(Kill(t));
    }

    /**
     `_acquire_install_lock`: it does what the turns make of it, and where they run out the process is killed.
     On success the path names the inode of the descriptor, its flock is this thread's, and no other thread
     guards the path.
     */
    method Acquire(t: Tid, turns: seq<Turn>) returns (fd: Option<Inode>)
      requires Valid() && state.Pc(t).Opening? && NewInodes(turns)
      modifies this
      ensures Valid()
      ensures var end := Acquired(old(state), t, turns);
        && fd == (if Succeeded(end, t) then Some(end.Pc(t).fd) else None)
        && state == (if Settled(end, t) then end else After(end, Kill(t)))
      ensures fd.Some? ==>
                && state.Pc(t) == Observed(fd.value, Some(fd.value))
                && state.path == fd && fd.value in state.flock && state.flock[fd.value] == t
      ensures fd.None? ==> state.Pc(t).Idle?
    {
      hide Do, Turned;
      var i := 0;
      assert turns[0..] == turns;
      while i < |turns|
        invariant Valid() && 0 <= i <= |turns| && state.Pc(t).Opening?
        invariant Acquired(state, t, turns[i..]) == Acquired(old(state), t, turns)
      {
        NextTurn(t, turns, i);
        var opened' := OpenFile(t, turns[i]);
        if !opened' { return None; }
        i := i + 1;
        var mine, waiting := state.Pc(t).fd, true;
        while waiting && i < |turns|
          invariant Valid() && 0 <= i <= |turns|
          invariant state.Pc(t) == if waiting then Opened(mine) else Locked(mine)
          invariant Acquired(state, t, turns[i..]) == Acquired(old(state), t, turns)
          decreases |turns| - i
        {
          NextTurn(t, turns, i);
          var granted := TryFlock(t, turns[i]);
          if granted.None? { return None; }
          waiting := !granted.value;
          i := i + 1;
        }
        if waiting || i == |turns| {
          Die(t);
          return None;
        }
        NextTurn(t, turns, i);
        var same := CheckPath(t, turns[i]);
        if same.None? { return None; }
        if same.value { return Some(mine); }
        i := i + 1;
      }
      Die(t);
      return None;
    }

    lemma NextTurn(t: Tid, turns: seq<Turn>, i: nat)
      requires i < |turns| && NewInodes(turns) && !Settled(state, t)
      ensures NewInodes([turns[i]])
      ensures Acquired(state, t, turns[i..]) == Acquired(Turned(state, t, turns[i]), t, turns[i + 1..])
    {
      assert turns[i..][0] == turns[i] && turns[i..][1..] == turns[i + 1..];
      hide Turned, Settled;
    }

    /**
     The entry of `_install_lock`, nested or not: whoever is inside is alone on the path. An outermost entry
     gets in exactly if its acquisition succeeds.
     */
    method EnterLock(t: Tid, turns: seq<Turn>) returns (ok: bool)
      requires Valid() && (state.Pc(t).Idle? || state.Pc(t).Inside?) && NewInodes(turns)
      modifies this
      ensures Valid()
      ensures old(state.Pc(t)).Inside? ==>
                ok && state == old(state).Goto(t, Inside(old(state.Pc(t).fd), old(state.Pc(t).depth) + 1))
      ensures old(state.Pc(t)).Idle? ==>
                var end := Acquired(After(old(state), Enter(t)), t, turns);
                && ok == Succeeded(end, t)
                && state == (if ok then After(end, Compare(t))
                             else if Settled(end, t) then end else After(end, Kill(t)))
      ensures ok ==>
                && t in state.held && state.Pc(t).Inside? && state.path == Some(state.Pc(t).fd)
                && forall u: Tid :: state.Pc(u).Guards() ==> u == t
      ensures !ok ==> state.Pc(t).Idle? && t !in state.held
    {
      var nested := t in state.held;
      Make(Enter(t));
      ok := true;
      if !nested {
        var fd := Acquire(t, turns);
        ok := fd.Some?;
        if ok { Make(Compare(t)); }
      }
      if ok {
        hide Do;
        forall u: Tid | state.Pc(u).Guards() ensures u == t {
          OneGuard(state, u, t);
        }
      }
    }

    /** The exit of a nested entry gives nothing up. */
    method LeaveNested(t: Tid)
      requires Valid() && state.Pc(t).Inside? && state.Pc(t).depth > 0
      modifies this
      ensures Valid() && t in state.held
      ensures state == old(state).Goto(t, Inside(old(state.Pc(t).fd), old(state.Pc(t).depth) - 1))
    {
      Make(Leave(t));
    }

    /** The outermost exit gives the lock up, and takes the lock file with it if it can be unlinked. */
    method LeaveLock(t: Tid, others: seq<Event>, unlinkFails: bool)
      requires Valid() && state.Pc(t).Inside? && state.Pc(t).depth == 0
      modifies this
      ensures Valid() && state.Pc(t).Idle? && t !in state.held
      ensures forall i | i in state.flock :: state.flock[i] != t
      ensures var unlinking := After(old(state), Leave(t));
        var unlinked := After(unlinking, if unlinkFails then UnlinkFails(t) else Unlink(t));
        state == After(Moved(unlinked, t, others), Close(t))
    {
      RemoveFile(t, unlinkFails);
      hide Do;
      Others(t, others);
      CloseFile(t);
    }

    /** The path is this thread's until it is unlinked, so the unlink finds its own file. */
    method RemoveFile(t: Tid, unlinkFails: bool)
      requires Valid() && state.Pc(t).Inside? && state.Pc(t).depth == 0
      modifies this
      ensures Valid() && state.Pc(t).Closing?
      ensures state.path == if unlinkFails then Some(old(state.Pc(t).fd)) else None
      ensures state == After(After(old(state), Leave(t)), if unlinkFails then UnlinkFails(t) else Unlink(t))
    {
      Make(Leave(t));
      Make(if unlinkFails then UnlinkFails(t) else Unlink(t));
    }

    method CloseFile(t: Tid)
      requires Valid() && state.Pc(t).Closing?
      modifies this
      ensures Valid() && state.Pc(t).Idle? && t !in state.held && state == After(old(state), Close(t))
      ensures forall i | i in state.flock :: state.flock[i] != t
    {
      Make(Close(t));
    }
  }
}
