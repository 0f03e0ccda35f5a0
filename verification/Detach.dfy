/** A thread's exit races with one detach of it, alone or at the end of a join: who destroys the
    thread struct?

    ptw32_thread_reuse_lock and cancelLock are atomic locks here; Mutex shows what they guarantee.
    Once the struct is destroyed anybody may take it from the reuse queue and change it. */
module Detach {
  import Runs

  datatype DetachState = Joinable | Detached

  datatype Result = Ok | EINVAL | ESRCH

  datatype Side = TheExit | TheDetacher

  /** generation is the struct's reuse counter, and destroyers tells who has destroyed it so far; no
      step depends on destroyers. */
  datatype Mem = Mem(
    reuseLock: bool, cancelLock: bool, last: bool, detachState: DetachState, generation: nat, terminated: bool,
    destroyers: seq<Side>)

  /** pthread_win32_thread_detach_np and the end of the thread. */
  datatype Exit = Running | Locked | LastSet | Unlocked | Destroy | Leave | Gone

  /** pthread_join and pthread_detach on a handle of the generation given; a join may be cancelled. */
  datatype Detacher =
    | Idle
    | JoinCheck | JoinWait
    | Enter | Check | LockCancel | Decide | UnlockCancel(destroyIt: bool) | LeaveReuse(destroyIt: bool, result: Result)
    | AwaitEnd | Scavenge
    | Done(result: Result)
    | Cancelled

  /** How the detacher's last check found the struct. */
  datatype Found = Unchecked | Stale | FoundDetached | FoundJoinable

  /** handle is the generation in the detacher's copy of the handle.  join tells whether the detacher
      is a join; no step depends on join and found. */
  datatype State = State(mem: Mem, exit: Exit, detacher: Detacher, handle: nat, join: bool, found: Found)

  ghost predicate Init(s: State) {
    && !s.mem.reuseLock && !s.mem.cancelLock && !s.mem.last && !s.mem.terminated && s.mem.destroyers == []
    && s.mem.generation == s.handle && s.exit == Running && s.detacher == Idle
    && !s.join && s.found == Unchecked
  }

  // ----- the steps

  predicate ExitMove(m: Mem, e: Exit, m': Mem, e': Exit) {
    match e
    case Running => !m.cancelLock && m' == m.(cancelLock := true) && e' == Locked
    case Locked => m' == m.(last := true) && e' == LastSet
    case LastSet => m' == m.(cancelLock := false) && e' == Unlocked
    case Unlocked => m' == m && e' == if m.detachState == Detached then Destroy else Leave
    case Destroy => !m.reuseLock && m' == Destroyed(m, TheExit) && e' == Leave
    case Leave => m' == m.(terminated := true) && e' == Gone
    case Gone => false
  }

  /** ptw32_threadDestroy: the struct is wiped, its counter goes up and the queue has it. */
  function Destroyed(m: Mem, side: Side): Mem {
    m.(last := false, detachState := Joinable, generation := m.generation + 1, destroyers := m.destroyers + [side])
  }

  predicate DetachMove(m: Mem, handle: nat, d: Detacher, m': Mem, d': Detacher) {
    match d
    case Idle => m' == m && (d' == JoinCheck || d' == Enter)
    case JoinCheck =>
      !m.reuseLock && m' == m &&
      d' == if handle != m.generation then Done(ESRCH) else if m.detachState == Detached then Done(EINVAL) else JoinWait
    case JoinWait => m' == m && ((m.terminated && d' == Enter) || d' == Cancelled)
    case Enter => !m.reuseLock && m' == m.(reuseLock := true) && d' == Check
    case Check =>
      m' == m &&
      d' == if handle != m.generation then LeaveReuse(false, ESRCH)
            else if m.detachState == Detached then LeaveReuse(false, EINVAL)
            else LockCancel
    case LockCancel => !m.cancelLock && m' == m.(cancelLock := true) && d' == Decide
    case Decide =>
      if !m.last then m' == m.(detachState := Detached) && d' == UnlockCancel(false)
      else m' == m && d' == UnlockCancel(m.detachState != Detached)
    case UnlockCancel(destroyIt) => m' == m.(cancelLock := false) && d' == LeaveReuse(destroyIt, Ok)
    case LeaveReuse(destroyIt, result) =>
      m' == m.(reuseLock := false) && d' == if destroyIt then AwaitEnd else Done(result)
    case AwaitEnd => m.terminated && m' == m && d' == Scavenge
    case Scavenge => !m.reuseLock && m' == Destroyed(m, TheDetacher) && d' == Done(Ok)
    case Done(_) => false
    case Cancelled => false
  }

  /** Whoever has taken the struct from the queue does anything with it; its counter only goes up. */
  predicate ReuseMove(m: Mem, handle: nat, m': Mem) {
    && m.generation != handle && m'.generation >= m.generation
    && m' == m.(last := m'.last, detachState := m'.detachState, generation := m'.generation)
  }

  function Look(m: Mem): Found {
    if m.destroyers != [] then Stale else if m.detachState == Detached then FoundDetached else FoundJoinable
  }

  predicate ExitStep(s: State, s': State) {
    ExitMove(s.mem, s.exit, s'.mem, s'.exit) && s' == s.(mem := s'.mem, exit := s'.exit)
  }

  predicate DetachStep(s: State, s': State) {
    && DetachMove(s.mem, s.handle, s.detacher, s'.mem, s'.detacher)
    && s' == s.(mem := s'.mem, detacher := s'.detacher, join := s.join || s'.detacher == JoinCheck,
                found := if s.detacher == JoinCheck || s.detacher == Check then Look(s.mem) else s.found)
  }

  predicate ReuseStep(s: State, s': State) {
    ReuseMove(s.mem, s.handle, s'.mem) && s' == s.(mem := s'.mem)
  }

  predicate Step(s: State, s': State) {
    ExitStep(s, s') || DetachStep(s, s') || ReuseStep(s, s')
  }

  // ----- the inductive invariant

  predicate ExitHasCancel(e: Exit) {
    e == Locked || e == LastSet
  }

  predicate DetacherHasCancel(d: Detacher) {
    d == Decide || d.UnlockCancel?
  }

  predicate DetacherHasReuse(d: Detacher) {
    d == Check || d == LockCancel || d == Decide || d.UnlockCancel? || d.LeaveReuse?
  }

  /** The detacher has decided to destroy the struct. */
  predicate Committed(d: Detacher) {
    || (d.UnlockCancel? && d.destroyIt) || (d.LeaveReuse? && d.destroyIt) || d == AwaitEnd || d == Scavenge
  }

  /** The detacher has made the thread a detached one, or found it so. */
  predicate HandedOver(d: Detacher) {
    || (d.UnlockCancel? && !d.destroyIt) || (d.LeaveReuse? && !d.destroyIt)
  }

  /** The detacher is about to return, or has returned, the result given. */
  predicate Saw(d: Detacher, result: Result) {
    d == LeaveReuse(false, result) || d == Done(result)
  }

  ghost predicate Locks(s: State) {
    && (s.mem.cancelLock <==> ExitHasCancel(s.exit) || DetacherHasCancel(s.detacher))
    && !(ExitHasCancel(s.exit) && DetacherHasCancel(s.detacher))
    && (s.mem.reuseLock <==> DetacherHasReuse(s.detacher))
    && (s.mem.terminated <==> s.exit == Gone)
  }

  /** While the struct is this generation's, its fields tell how far the exit is, and whoever is to
      destroy it is determined. */
  ghost predicate Undestroyed(s: State) {
    && s.mem.generation == s.handle
    && (s.mem.last <==> s.exit != Running && s.exit != Locked)
    && (s.exit == Destroy ==> s.mem.detachState == Detached)
    && (s.exit == Leave || s.exit == Gone ==> s.mem.detachState == Joinable)
    && (Committed(s.detacher) ==> s.mem.last && s.mem.detachState == Joinable && s.exit != Destroy)
    && (HandedOver(s.detacher) || s.detacher.Done? ==> s.mem.detachState == Detached)
    && (s.detacher == JoinWait || s.detacher == Cancelled ==> s.mem.detachState == Joinable && s.exit != Destroy)
    && (s.detacher == LockCancel || s.detacher == Decide ==> s.mem.detachState == Joinable && s.exit != Destroy)
    && (s.detacher == Scavenge ==> s.exit == Gone)
    && !Saw(s.detacher, ESRCH)
  }

  /** Afterwards neither side is at a place where it uses the struct. */
  ghost predicate DestroyedBy(s: State, side: Side) {
    && s.mem.generation > s.handle
    && (s.exit == Leave || s.exit == Gone)
    && s.detacher != JoinWait && s.detacher != Cancelled && s.detacher != LockCancel && s.detacher != Decide
    && !s.detacher.UnlockCancel? && !Committed(s.detacher)
    && (side == TheDetacher ==> s.detacher == Done(Ok) && s.exit == Gone)
  }

  ghost predicate Owner(s: State) {
    if s.mem.destroyers == [] then Undestroyed(s)
    else |s.mem.destroyers| == 1 && DestroyedBy(s, s.mem.destroyers[0])
  }

  /** Past a check that found the thread joinable. */
  predicate Passed(d: Detacher) {
    d == LockCancel || d == Decide || d.UnlockCancel? || Committed(d) || Saw(d, Ok)
  }

  /** What the result to come was decided on, and that a join has waited. */
  ghost predicate Checked(s: State) {
    && (Saw(s.detacher, ESRCH) ==> s.found == Stale)
    && (Saw(s.detacher, EINVAL) ==> s.found == FoundDetached)
    && (Passed(s.detacher) ==> s.found == FoundJoinable)
    && (s.join && (s.detacher == Enter || DetacherHasReuse(s.detacher) || Passed(s.detacher)) ==> s.exit == Gone)
    && (s.detacher == Idle ==> !s.join)
    && (s.detacher.LeaveReuse? && s.detacher.destroyIt ==> s.detacher.result == Ok)
  }

  ghost predicate Inv(s: State) {
    Locks(s) && Owner(s) && Checked(s)
  }

  lemma ExitKeeps(s: State, s': State)
    requires Inv(s) && ExitStep(s, s')
    ensures Inv(s')
  {
  }

  lemma DetachKeeps(s: State, s': State)
    requires Inv(s) && DetachStep(s, s')
    ensures Locks(s') && Owner(s')
  {
  }

  lemma DetachChecks(s: State, s': State)
    requires Inv(s) && DetachStep(s, s')
    ensures Checked(s')
  {
  }

  lemma StepInv(s: State, s': State)
    requires Inv(s) && Step(s, s')
    ensures Inv(s')
  {
    if ExitStep(s, s') {
      ExitKeeps(s, s');
    } else if DetachStep(s, s') {
      DetachKeeps(s, s');
      DetachChecks(s, s');
    }
  }

  ghost predicate Reachable(s: State) {
    Runs.Reachable(s, Init, Step)
  }

  lemma ReachableInv(s: State)
    requires Reachable(s)
    ensures Inv(s)
  {
    forall s, s' | Inv(s) && Step(s, s') ensures Inv(s') {
      StepInv(s, s');
    }
    Runs.Invariant(s, Init, Step, Inv);
  }

  // ----- what it guarantees

  /** When both sides are through, the struct has been destroyed exactly once. */
  lemma DestroyedOnce(s: State)
    requires Reachable(s)
    ensures |s.mem.destroyers| <= 1
    ensures s.exit == Gone && s.detacher.Done? ==> |s.mem.destroyers| == 1
  {
    ReachableInv(s);
  }

  /** Places between a side's first and last access to the struct: for a join or detach from its
      check of the handle on, the exit has no check to make. */
  predicate ExitUses(e: Exit) {
    e != Leave && e != Gone
  }

  predicate DetacherUses(d: Detacher) {
    d == JoinWait || d == LockCancel || d == Decide || d.UnlockCancel? || Committed(d)
  }

  /** Nobody destroys the struct while the other side may still use it. */
  lemma NoUseAfterDestroy(s: State)
    requires Reachable(s)
    ensures ExitUses(s.exit) || DetacherUses(s.detacher) ==> s.mem.destroyers == [] && s.mem.generation == s.handle
  {
    ReachableInv(s);
  }

  predicate LeftToExit(s: State) {
    s.mem.destroyers == if ExitUses(s.exit) then [] else [TheExit]
  }

  /** What the results mean.  With an error the exit destroys the struct: it has done so for ESRCH,
      and at the latest when it is past that point for EINVAL.  With success the detacher has done
      so after the thread's end, or has left it to the exit. */
  lemma ResultsMeanWho(s: State)
    requires Reachable(s) && s.detacher.Done?
    ensures s.detacher.result == ESRCH ==> s.mem.destroyers == [TheExit]
    ensures s.detacher.result == EINVAL ==> LeftToExit(s)
    ensures s.detacher.result == Ok ==> LeftToExit(s) || (s.mem.destroyers == [TheDetacher] && s.exit == Gone)
    ensures s.mem.destroyers == [] ==> s.mem.detachState == Detached
  {
    ReachableInv(s);
    if s.mem.destroyers != [] {
      assert s.mem.destroyers == [s.mem.destroyers[0]];
    }
  }

  /** ESRCH is returned exactly for a handle whose struct had been destroyed when it was checked, EINVAL
      exactly for a thread that was detached then, and success exactly for a joinable one; a join
      that succeeds has waited for the thread's end. */
  lemma ResultsMeanWhat(s: State)
    requires Reachable(s) && s.detacher.Done?
    ensures s.detacher.result == match s.found
      case Stale => ESRCH
      case FoundDetached => EINVAL
      case FoundJoinable => Ok
      case Unchecked => s.detacher.result
    ensures s.found != Unchecked
    ensures s.join && s.detacher.result == Ok ==> s.exit == Gone
  {
    ReachableInv(s);
  }

  /** The detacher destroys the struct itself exactly when the exit has set its last state. */
  lemma DecidesByLast(s: State, s': State)
    requires Reachable(s) && DetachStep(s, s') && s.detacher == Decide
    ensures s'.detacher == UnlockCancel(s.exit != Running && s.exit != Locked)
    ensures s'.mem.detachState == if s'.detacher.destroyIt then Joinable else Detached
  {
    ReachableInv(s);
  }

  /** A join that is cancelled while it waits leaves the thread joinable: nobody destroys the struct,
      and its handle stays valid for another join or detach. */
  lemma CancelledJoinLeavesJoinable(s: State)
    requires Reachable(s) && s.detacher == Cancelled
    ensures s.mem.destroyers == [] && s.mem.generation == s.handle && s.mem.detachState == Joinable
    ensures s.exit != Destroy
  {
    ReachableInv(s);
  }

  predicate ExitCanMove(s: State) {
    ExitMay(s.mem, s.exit)
  }

  predicate ExitMay(m: Mem, e: Exit) {
    match e
    case Running => !m.cancelLock
    case Destroy => !m.reuseLock
    case Gone => false
    case _ => true
  }

  predicate DetacherCanMove(s: State) {
    DetacherMay(s.mem, s.detacher)
  }

  predicate DetacherMay(m: Mem, d: Detacher) {
    match d
    case Idle => false
    case JoinCheck => !m.reuseLock
    case JoinWait => m.terminated
    case Enter => !m.reuseLock
    case LockCancel => !m.cancelLock
    case AwaitEnd => m.terminated
    case Scavenge => !m.reuseLock
    case Done(_) => false
    case Cancelled => false
    case _ => true
  }

  /** The two tests are exactly the existence of a step of that side that starts no call and is no
      cancellation. */
  lemma CanMoveIsAStep(s: State)
    ensures ExitCanMove(s) <==> exists s' :: ExitStep(s, s')
    ensures DetacherCanMove(s) <==> s.detacher != Idle && exists s' :: DetachStep(s, s') && s'.detacher != Cancelled
  {
    if ExitCanMove(s) {
      var m', e' := ExitAdvance(s.mem, s.exit);
      assert ExitStep(s, s.(mem := m', exit := e'));
    }
    if DetacherCanMove(s) {
      var m', d' := DetachAdvance(s.mem, s.handle, s.detacher);
      var found := if s.detacher == JoinCheck || s.detacher == Check then Look(s.mem) else s.found;
      assert DetachStep(s, s.(mem := m', detacher := d', found := found));
    }
  }

  lemma ExitAdvance(m: Mem, e: Exit) returns (m': Mem, e': Exit)
    requires ExitMay(m, e)
    ensures ExitMove(m, e, m', e')
  {
    match e {
      case Running => m', e' := m.(cancelLock := true), Locked;
      case Locked => m', e' := m.(last := true), LastSet;
      case LastSet => m', e' := m.(cancelLock := false), Unlocked;
      case Unlocked => m', e' := m, if m.detachState == Detached then Destroy else Leave;
      case Destroy => m', e' := Destroyed(m, TheExit), Leave;
      case Leave => m', e' := m.(terminated := true), Gone;
    }
  }

  lemma DetachAdvance(m: Mem, handle: nat, d: Detacher) returns (m': Mem, d': Detacher)
    requires DetacherMay(m, d)
    ensures DetachMove(m, handle, d, m', d') && d' != Cancelled && d' != JoinCheck
  {
    m' := m;
    match d {
      case JoinCheck =>
        d' := if handle != m.generation then Done(ESRCH)
              else if m.detachState == Detached then Done(EINVAL) else JoinWait;
      case JoinWait => d' := Enter;
      case Enter => m', d' := m.(reuseLock := true), Check;
      case Check =>
        d' := if handle != m.generation then LeaveReuse(false, ESRCH)
              else if m.detachState == Detached then LeaveReuse(false, EINVAL)
              else LockCancel;
      case LockCancel => m', d' := m.(cancelLock := true), Decide;
      case Decide =>
        if m.last {
          d' := UnlockCancel(m.detachState != Detached);
        } else {
          m', d' := m.(detachState := Detached), UnlockCancel(false);
        }
      case UnlockCancel(destroyIt) => m', d' := m.(cancelLock := false), LeaveReuse(destroyIt, Ok);
      case LeaveReuse(destroyIt, result) =>
        m', d' := m.(reuseLock := false), if destroyIt then AwaitEnd else Done(result);
      case AwaitEnd => d' := Scavenge;
      case Scavenge => m', d' := Destroyed(m, TheDetacher), Done(Ok);
    }
  }

  /** The two never block each other for good. */
  lemma NoDeadlock(s: State)
    requires Reachable(s)
    requires s.exit != Gone || (s.detacher != Idle && s.detacher != Cancelled && !s.detacher.Done?)
    ensures ExitCanMove(s) || DetacherCanMove(s)
  {
    ReachableInv(s);
  }
}
