/** The mutex of pthreads-win32: a three-valued lock word and an auto-reset event.

    Any number of threads lock, lock with a timeout, try to lock and unlock.  A step is one
    Interlocked operation, one access to ownerThread or recursive_count, one SetEvent, or the end
    of one wait.  A normal mutex is unlocked by its holder only, as POSIX demands; the other kinds
    check the owner themselves and may be unlocked by anyone. */
module Mutex {
  import opened Counting
  import Runs

  datatype Kind = Normal | Recursive | ErrorCheck

  datatype Owner = Nobody | Is(thread: nat)

  /** word is lock_idx: 0 free, 1 locked, -1 locked with possible waiters. */
  datatype Mem = Mem(word: int, event: bool, owner: Owner, count: int)

  datatype Result = Ok | Busy | Deadlock | NotPermitted | TimedOut

  /** held is how many times the calling thread had the mutex when it made the call; no step
      depends on it. */
  datatype Pc =
    | Outside(held: int, last: Result)
    // pthread_mutex_lock, pthread_mutex_timedlock
    | Enter(held: int, timed: bool)
    | CheckOwner(held: int, timed: bool)
    | Exchange(held: int, timed: bool)
    | Wait(held: int, timed: bool)
    | SetCount
    | SetOwner
    // pthread_mutex_trylock
    | Try(held: int)
    | TryOwner(held: int)
    // pthread_mutex_unlock
    | UnlockOwner(held: int)
    | Decrease(held: int)
    | ClearOwner
    | Release
    | Wake

  datatype State = State(kind: Kind, mem: Mem, pc: seq<Pc>)

  ghost predicate Init(s: State) {
    && s.mem == Mem(0, false, Nobody, 0)
    && forall t :: 0 <= t < |s.pc| ==> s.pc[t] == Outside(0, Ok)
  }

  // ----- the steps: thread me moves from p to p' and changes the memory from m to m'

  predicate CallMove(k: Kind, m: Mem, p: Pc, m': Mem, p': Pc) {
    && p.Outside? && m' == m
    && (|| p' == Enter(p.held, false)
        || p' == Enter(p.held, true)
        || p' == Try(p.held)
        || (k != Normal && p' == UnlockOwner(p.held))
        || (k == Normal && p.held > 0 && p' == Release))
  }

  function Acquired(k: Kind): Pc {
    if k == Normal then Outside(1, Ok) else SetCount
  }

  predicate LockMove(k: Kind, m: Mem, me: nat, p: Pc, m': Mem, p': Pc) {
    match p
    case Enter(held, timed) =>
      if k == Normal then
        && m' == m.(word := 1)
        && p' == (if m.word != 0 then Exchange(held, timed) else Acquired(k))
      else if m.word == 0 then
        m' == m.(word := 1) && p' == Acquired(k)
      else
        m' == m && p' == CheckOwner(held, timed)
    case CheckOwner(held, timed) =>
      if m.owner == Is(me) then
        if k == Recursive then m' == m.(count := m.count + 1) && p' == Outside(held + 1, Ok)
        else m' == m && p' == Outside(held, Deadlock)
      else m' == m && p' == Exchange(held, timed)
    case Exchange(held, timed) =>
      && m' == m.(word := -1)
      && p' == (if m.word != 0 then Wait(held, timed) else Acquired(k))
    case Wait(held, timed) =>
      || (m.event && m' == m.(event := false) && p' == Exchange(held, timed))
      || (timed && m' == m && p' == Outside(held, TimedOut))
    case SetCount => m' == m.(count := 1) && p' == SetOwner
    case SetOwner => m' == m.(owner := Is(me)) && p' == Outside(1, Ok)
    case Try(held) =>
      if m.word == 0 then m' == m.(word := 1) && p' == Acquired(k)
      else m' == m && p' == TryOwner(held)
    case TryOwner(held) =>
      if k == Recursive && m.owner == Is(me) then
        m' == m.(count := m.count + 1) && p' == Outside(held + 1, Ok)
      else m' == m && p' == Outside(held, Busy)
    case _ => false
  }

  predicate UnlockMove(k: Kind, m: Mem, me: nat, p: Pc, m': Mem, p': Pc) {
    match p
    case UnlockOwner(held) =>
      && m' == m
      && p' == (if m.owner != Is(me) then Outside(held, NotPermitted)
                else if k == Recursive then Decrease(held) else ClearOwner)
    case Decrease(held) =>
      && m' == m.(count := m.count - 1)
      && p' == (if m.count - 1 == 0 then ClearOwner else Outside(held - 1, Ok))
    case ClearOwner => m' == m.(owner := Nobody) && p' == Release
    case Release =>
      && m' == m.(word := 0)
      && p' == (if m.word < 0 then Wake else Outside(0, if m.word == 0 then NotPermitted else Ok))
    case Wake => m' == m.(event := true) && p' == Outside(0, Ok)
    case _ => false
  }

  predicate Move(k: Kind, m: Mem, me: nat, p: Pc, m': Mem, p': Pc) {
    CallMove(k, m, p, m', p') || LockMove(k, m, me, p, m', p') || UnlockMove(k, m, me, p, m', p')
  }

  predicate Step(s: State, t: nat, s': State) {
    && t < |s.pc| == |s'.pc| && s'.kind == s.kind
    && s'.pc == s.pc[t := s'.pc[t]]
    && Move(s.kind, s.mem, t, s.pc[t], s'.mem, s'.pc[t])
  }

  // ----- the inductive invariant

  /** Acquired and not yet released. */
  function Holds(p: Pc): int {
    match p
    case SetCount => 1
    case SetOwner => 1
    case ClearOwner => 1
    case Release => 1
    case Wake => 0
    case _ => if p.held > 0 then 1 else 0
  }

  function Waiting(p: Pc): int {
    if p.Wait? then 1 else 0
  }

  /** About to exchange -1, or about to set the event. */
  function Pending(p: Pc): int {
    if p.Exchange? || p.Wake? then 1 else 0
  }

  /** What a thread at p knows of ownerThread and recursive_count. */
  predicate Local(k: Kind, m: Mem, me: nat, p: Pc) {
    match p
    case SetCount => k != Normal && m.owner != Is(me)
    case SetOwner => k != Normal && m.owner != Is(me) && m.count == 1
    case Decrease(held) => k == Recursive && m.owner == Is(me) && m.count == held > 0
    case ClearOwner => k != Normal && m.owner == Is(me)
    case Release => m.owner != Is(me)
    case Wake => m.owner != Is(me)
    case _ =>
      && p.held >= 0
      && (m.owner == Is(me) <==> k != Normal && p.held > 0)
      && (k == Recursive && p.held > 0 ==> m.count == p.held)
      && (k != Recursive ==> p.held <= 1)
      && (k != Normal && (p.Exchange? || p.Wait?) ==> p.held == 0)
      && (p.CheckOwner? || p.UnlockOwner? ==> k != Normal)
  }

  predicate Word(m: Mem, holders: int, waiting: int, pending: int) {
    && -1 <= m.word <= 1
    && holders == (if m.word != 0 then 1 else 0)
    && (waiting > 0 ==> m.word == -1 || m.event || pending > 0)
  }

  ghost predicate Inv(s: State) {
    && Word(s.mem, Sum(s.pc, Holds), Sum(s.pc, Waiting), Sum(s.pc, Pending))
    && (forall t :: 0 <= t < |s.pc| ==> Local(s.kind, s.mem, t, s.pc[t]))
  }

  // ----- one move keeps it

  lemma LockWord(k: Kind, m: Mem, me: nat, p: Pc, m': Mem, p': Pc, h: int, w: int, n: int)
    requires (CallMove(k, m, p, m', p') || LockMove(k, m, me, p, m', p')) && Local(k, m, me, p)
    requires Word(m, h, w, n) && h >= Holds(p) && w >= Waiting(p) && n >= Pending(p)
    ensures Word(m', h - Holds(p) + Holds(p'), w - Waiting(p) + Waiting(p'), n - Pending(p) + Pending(p'))
  {
  }

  lemma UnlockWord(k: Kind, m: Mem, me: nat, p: Pc, m': Mem, p': Pc, h: int, w: int, n: int)
    requires UnlockMove(k, m, me, p, m', p') && Local(k, m, me, p)
    requires Word(m, h, w, n) && h >= Holds(p) && w >= Waiting(p) && n >= Pending(p)
    ensures Word(m', h - Holds(p) + Holds(p'), w - Waiting(p) + Waiting(p'), n - Pending(p) + Pending(p'))
  {
  }

  lemma LockLocal(k: Kind, m: Mem, me: nat, p: Pc, m': Mem, p': Pc, h: int)
    requires (CallMove(k, m, p, m', p') || LockMove(k, m, me, p, m', p')) && Local(k, m, me, p)
    requires h >= Holds(p) && h == (if m.word != 0 then 1 else 0)
    ensures Local(k, m', me, p')
  {
  }

  lemma UnlockLocal(k: Kind, m: Mem, me: nat, p: Pc, m': Mem, p': Pc, h: int)
    requires UnlockMove(k, m, me, p, m', p') && Local(k, m, me, p)
    requires h >= Holds(p) && h == (if m.word != 0 then 1 else 0)
    ensures Local(k, m', me, p')
  {
  }

  /** Only the holder writes ownerThread and recursive_count, and it writes itself or nobody. */
  ghost predicate WritesAsHolder(m: Mem, me: nat, p: Pc, m': Mem) {
    && (m'.owner != m.owner ==> Holds(p) == 1 && (m'.owner == Nobody || m'.owner == Is(me)))
    && (m'.count != m.count ==> Holds(p) == 1)
  }

  lemma LockWrites(k: Kind, m: Mem, me: nat, p: Pc, m': Mem, p': Pc)
    requires (CallMove(k, m, p, m', p') || LockMove(k, m, me, p, m', p')) && Local(k, m, me, p)
    ensures WritesAsHolder(m, me, p, m')
  {
  }

  lemma UnlockWrites(k: Kind, m: Mem, me: nat, p: Pc, m': Mem, p': Pc)
    requires UnlockMove(k, m, me, p, m', p') && Local(k, m, me, p)
    ensures WritesAsHolder(m, me, p, m')
  {
  }

  lemma OtherLocal(k: Kind, m: Mem, m': Mem, me: nat, u: nat, q: Pc)
    requires u != me && Local(k, m, u, q)
    requires Holds(q) == 1 ==> m'.owner == m.owner && m'.count == m.count
    requires m'.owner == m.owner || m'.owner == Nobody || m'.owner == Is(me)
    ensures Local(k, m', u, q)
  {
  }

  /** The mover's own knowledge, the word with the new tallies, and what the mover wrote. */
  lemma MoveInv(k: Kind, m: Mem, me: nat, p: Pc, m': Mem, p': Pc, h: int, w: int, n: int)
    requires Move(k, m, me, p, m', p') && Local(k, m, me, p)
    requires Word(m, h, w, n) && h >= Holds(p) && w >= Waiting(p) && n >= Pending(p)
    ensures Word(m', h - Holds(p) + Holds(p'), w - Waiting(p) + Waiting(p'), n - Pending(p) + Pending(p'))
    ensures Local(k, m', me, p') && WritesAsHolder(m, me, p, m')
  {
    if UnlockMove(k, m, me, p, m', p') {
      UnlockWord(k, m, me, p, m', p', h, w, n);
      UnlockLocal(k, m, me, p, m', p', h);
      UnlockWrites(k, m, me, p, m', p');
    } else {
      LockWord(k, m, me, p, m', p', h, w, n);
      LockLocal(k, m, me, p, m', p', h);
      LockWrites(k, m, me, p, m', p');
    }
  }

  lemma StepInv(s: State, t: nat, s': State)
    requires Inv(s) && Step(s, t, s')
    ensures Inv(s')
  {
    var p, p' := s.pc[t], s'.pc[t];
    SumUpdate(s.pc, t, p', Holds);
    SumUpdate(s.pc, t, p', Waiting);
    SumUpdate(s.pc, t, p', Pending);
    SumBoundsOne(s.pc, t, Holds);
    SumBoundsOne(s.pc, t, Waiting);
    SumBoundsOne(s.pc, t, Pending);
    MoveInv(s.kind, s.mem, t, p, s'.mem, p', Sum(s.pc, Holds), Sum(s.pc, Waiting), Sum(s.pc, Pending));
    forall u | 0 <= u < |s'.pc| ensures Local(s'.kind, s'.mem, u, s'.pc[u]) {
      if u != t {
        SumBoundsPair(s.pc, if t < u then t else u, if t < u then u else t, Holds);
        assert Local(s.kind, s.mem, u, s.pc[u]);
        OtherLocal(s.kind, s.mem, s'.mem, t, u, s.pc[u]);
      }
    }
  }

  ghost predicate Next(s: State, s': State) {
    exists t: nat :: Step(s, t, s')
  }

  ghost predicate Reachable(s: State) {
    Runs.Reachable(s, Init, Next)
  }

  lemma ReachableInv(s: State)
    requires Reachable(s)
    ensures Inv(s)
  {
    forall s0 | Init(s0) ensures Inv(s0) {
      SumZero(s0.pc, Holds);
      SumZero(s0.pc, Waiting);
    }
    forall s0, s1 | Inv(s0) && Next(s0, s1) ensures Inv(s1) {
      var t: nat :| Step(s0, t, s1);
      StepInv(s0, t, s1);
    }
    Runs.Invariant(s, Init, Next, Inv);
  }

  // ----- what it guarantees

  /** At most one thread holds the mutex, and the lock word is non-zero exactly when one does. */
  lemma MutualExclusion(s: State, t: nat, u: nat)
    requires Reachable(s) && t < |s.pc| && u < |s.pc|
    ensures Holds(s.pc[t]) == 1 && Holds(s.pc[u]) == 1 ==> t == u
    ensures s.mem.word != 0 <==> exists i :: 0 <= i < |s.pc| && Holds(s.pc[i]) == 1
  {
    ReachableInv(s);
    if s.mem.word != 0 {
      var i := SumWitness(s.pc, Holds);
    } else if i :| 0 <= i < |s.pc| && Holds(s.pc[i]) == 1 {
      SumBoundsOne(s.pc, i, Holds);
    }
    if t != u {
      SumBoundsPair(s.pc, if t < u then t else u, if t < u then u else t, Holds);
    }
  }

  /** ownerThread names a thread only while that thread holds the mutex, and between calls a
      recursive mutex counts its holder's nesting depth. */
  lemma OwnerHolds(s: State, t: nat)
    requires Reachable(s) && t < |s.pc|
    ensures s.mem.owner == Is(t) ==> Holds(s.pc[t]) == 1 && s.kind != Normal
    ensures s.pc[t].Outside? && s.kind != Normal ==> (s.mem.owner == Is(t) <==> s.pc[t].held > 0)
    ensures s.pc[t].Outside? && s.kind == Recursive && s.pc[t].held > 0 ==> s.mem.count == s.pc[t].held
    ensures s.pc[t].Outside? && s.kind != Recursive ==> 0 <= s.pc[t].held <= 1
  {
    ReachableInv(s);
    assert Local(s.kind, s.mem, t, s.pc[t]);
  }

  /** While a thread is blocked on the event, the word is -1, or the event is set, or its setting is
      pending, or some thread is about to exchange -1. */
  lemma NoLostWakeup(s: State, t: nat)
    requires Reachable(s) && t < |s.pc| && s.pc[t].Wait?
    ensures s.mem.word == -1 || s.mem.event
      || exists i :: 0 <= i < |s.pc| && (s.pc[i].Wake? || s.pc[i].Exchange?)
  {
    ReachableInv(s);
    SumBoundsOne(s.pc, t, Waiting);
    if Sum(s.pc, Pending) > 0 {
      var i := SumWitness(s.pc, Pending);
    }
  }

  predicate Acquiring(p: Pc) {
    p.Enter? || p.CheckOwner? || p.Exchange? || p.Wait? || p.Try? || p.TryOwner?
  }

  /** What each call reports: lock and trylock return success exactly with one more hold, and an
      unlock that is permitted gives back exactly one, whether or not it has a thread to wake. */
  lemma CallsReport(s: State, t: nat, s': State)
    requires Reachable(s) && Step(s, t, s') && s'.pc[t].Outside?
    ensures Acquiring(s.pc[t]) ==>
      s'.pc[t].held == s.pc[t].held + (if s'.pc[t].last == Ok then 1 else 0)
    ensures s.pc[t].UnlockOwner? ==> s.pc[t].held == 0 && s'.pc[t] == Outside(0, NotPermitted)
    ensures s.pc[t].Decrease? ==> s'.pc[t] == Outside(s.pc[t].held - 1, Ok)
    ensures s.pc[t].Release? || s.pc[t].Wake? ==> s'.pc[t] == Outside(0, Ok)
    ensures s.pc[t].SetOwner? ==> s'.pc[t] == Outside(1, Ok)
  {
    ReachableInv(s);
    assert Local(s.kind, s.mem, t, s.pc[t]);
    SumBoundsOne(s.pc, t, Holds);
  }

  predicate Trying(p: Pc) {
    p.Try? || p.TryOwner?
  }

  /** Which result each call ends with.  The holder of a recursive mutex nests, with lock and trylock;
      the holder of an error-checking one gets EDEADLK from lock, and nobody else does; EBUSY comes
      from trylock only, ETIMEDOUT from a timed wait only, and EPERM from an unlock only, of a thread
      that has nothing to unlock. */
  lemma ResultsByKind(s: State, t: nat, s': State)
    requires Reachable(s) && Step(s, t, s') && !s.pc[t].Outside? && s'.pc[t].Outside?
    ensures s.kind == Recursive && (s.pc[t].CheckOwner? || s.pc[t].Enter? || Trying(s.pc[t])) && s.pc[t].held > 0 ==>
      s'.pc[t].last == Ok
    ensures s'.pc[t].last == Deadlock <==> s.kind == ErrorCheck && s.pc[t].CheckOwner? && s.pc[t].held > 0
    ensures s'.pc[t].last == TimedOut <==> s.pc[t].Wait?
    ensures s.pc[t].Wait? ==> s.pc[t].timed
    ensures s'.pc[t].last == Busy <==> s.pc[t].TryOwner? && !(s.kind == Recursive && s.pc[t].held > 0)
    ensures s'.pc[t].last == NotPermitted <==> s.pc[t].UnlockOwner?
    ensures s.pc[t].UnlockOwner? ==> s.pc[t].held == 0
  {
    ReachableInv(s);
    assert Local(s.kind, s.mem, t, s.pc[t]);
    SumBoundsOne(s.pc, t, Holds);
  }

  ghost predicate Unheld(s: State) {
    forall u :: 0 <= u < |s.pc| ==> Holds(s.pc[u]) == 0
  }

  /** An attempt gets the mutex exactly when no thread holds it.  One that fails goes on to the owner
      check of its kind, or to the exchange and the wait, and the owner check goes on to the exchange
      exactly for a thread that does not hold the mutex. */
  lemma AttemptsDecide(s: State, t: nat, s': State)
    requires Reachable(s) && Step(s, t, s')
    ensures s.pc[t].Enter? || s.pc[t].Exchange? || s.pc[t].Try? ==>
      (s'.pc[t] == Acquired(s.kind) <==> Unheld(s))
    ensures s.pc[t].Enter? && !Unheld(s) ==>
      s'.pc[t] == if s.kind == Normal then Exchange(s.pc[t].held, s.pc[t].timed)
                  else CheckOwner(s.pc[t].held, s.pc[t].timed)
    ensures s.pc[t].Exchange? && !Unheld(s) ==> s'.pc[t] == Wait(s.pc[t].held, s.pc[t].timed)
    ensures s.pc[t].Try? && !Unheld(s) ==> s'.pc[t] == TryOwner(s.pc[t].held)
    ensures s.pc[t].CheckOwner? ==>
      (s'.pc[t] == Exchange(s.pc[t].held, s.pc[t].timed) <==> s.pc[t].held == 0)
    ensures s.pc[t].Wait? ==>
      s'.pc[t] == Exchange(s.pc[t].held, s.pc[t].timed) || s'.pc[t] == Outside(s.pc[t].held, TimedOut)
    ensures s.pc[t].UnlockOwner? ==> (s'.pc[t] == Outside(0, NotPermitted) <==> s.pc[t].held == 0)
    ensures s.pc[t].Decrease? ==> (s'.pc[t] == ClearOwner <==> s.pc[t].held == 1)
  {
    ReachableInv(s);
    assert Local(s.kind, s.mem, t, s.pc[t]);
    if s.mem.word != 0 {
      var h := SumWitness(s.pc, Holds);
    } else {
      forall u | 0 <= u < |s.pc| ensures Holds(s.pc[u]) == 0 {
        SumBoundsOne(s.pc, u, Holds);
      }
    }
  }

  /** The thread at p can take its next step, not counting new calls and timeouts. */
  predicate CanAdvance(m: Mem, p: Pc) {
    if p.Wait? then m.event else !p.Outside?
  }

  lemma AdvanceIsAMove(k: Kind, m: Mem, me: nat, p: Pc)
    ensures CanAdvance(m, p) <==>
      exists m', p' :: Move(k, m, me, p, m', p') && !p.Outside? && !(p.Wait? && p'.Outside?)
  {
    if CanAdvance(m, p) {
      var m', p' := Advance(k, m, me, p);
    }
  }

  lemma Advance(k: Kind, m: Mem, me: nat, p: Pc) returns (m': Mem, p': Pc)
    requires CanAdvance(m, p)
    ensures Move(k, m, me, p, m', p') && !p.Outside? && !(p.Wait? && p'.Outside?)
  {
    m', p' := m, p;
    match p {
      case Enter(held, timed) =>
        if k == Normal {
          m', p' := m.(word := 1), if m.word != 0 then Exchange(held, timed) else Acquired(k);
        } else if m.word == 0 {
          m', p' := m.(word := 1), Acquired(k);
        } else {
          p' := CheckOwner(held, timed);
        }
      case CheckOwner(held, timed) =>
        if m.owner == Is(me) && k == Recursive {
          m', p' := m.(count := m.count + 1), Outside(held + 1, Ok);
        } else {
          p' := if m.owner == Is(me) then Outside(held, Deadlock) else Exchange(held, timed);
        }
      case Exchange(held, timed) =>
        m', p' := m.(word := -1), if m.word != 0 then Wait(held, timed) else Acquired(k);
      case Wait(held, timed) => m', p' := m.(event := false), Exchange(held, timed);
      case SetCount => m', p' := m.(count := 1), SetOwner;
      case SetOwner => m', p' := m.(owner := Is(me)), Outside(1, Ok);
      case Try(held) =>
        if m.word == 0 { m', p' := m.(word := 1), Acquired(k); } else { p' := TryOwner(held); }
      case TryOwner(held) =>
        if k == Recursive && m.owner == Is(me) {
          m', p' := m.(count := m.count + 1), Outside(held + 1, Ok);
        } else {
          p' := Outside(held, Busy);
        }
      case UnlockOwner(held) =>
        p' := if m.owner != Is(me) then Outside(held, NotPermitted)
              else if k == Recursive then Decrease(held) else ClearOwner;
      case Decrease(held) =>
        m', p' := m.(count := m.count - 1), if m.count - 1 == 0 then ClearOwner else Outside(held - 1, Ok);
      case ClearOwner => m', p' := m.(owner := Nobody), Release;
      case Release =>
        m', p' := m.(word := 0),
          if m.word < 0 then Wake else Outside(0, if m.word == 0 then NotPermitted else Ok);
      case Wake => m', p' := m.(event := true), Outside(0, Ok);
    }
  }

  ghost predicate Quiescent(s: State) {
    forall t :: 0 <= t < |s.pc| ==> !CanAdvance(s.mem, s.pc[t])
  }

  /** When nothing can move on but by a new call or a timeout, a blocked thread waits for a thread
      that really holds the mutex: one outside any call, or one that locked a normal mutex twice. */
  lemma BlockedOnlyByHolder(s: State, t: nat) returns (h: nat)
    requires Reachable(s) && Quiescent(s) && t < |s.pc| && !s.pc[t].Outside?
    ensures s.pc[t].Wait? && h < |s.pc| && Holds(s.pc[h]) == 1
    ensures s.pc[h].Outside? || (s.pc[h].Wait? && s.kind == Normal)
  {
    assert !CanAdvance(s.mem, s.pc[t]);
    NoLostWakeup(s, t);
    ReachableInv(s);
    assert s.mem.word == -1 by {
      if i :| 0 <= i < |s.pc| && (s.pc[i].Wake? || s.pc[i].Exchange?) {
        assert !CanAdvance(s.mem, s.pc[i]);
      }
    }
    h := SumWitness(s.pc, Holds);
    assert !CanAdvance(s.mem, s.pc[h]) && Local(s.kind, s.mem, h, s.pc[h]);
  }

  /** Steps left at most, with the event worth one more round of the wait loop. */
  function Rank(p: Pc): int {
    match p
    case Outside(_, _) => 0
    case Enter(_, _) => 5
    case CheckOwner(_, _) => 4
    case Exchange(_, _) => 3
    case Wait(_, _) => 1
    case SetCount => 2
    case SetOwner => 1
    case Try(_) => 3
    case TryOwner(_) => 1
    case UnlockOwner(_) => 8
    case Decrease(_) => 7
    case ClearOwner => 6
    case Release => 5
    case Wake => 4
  }

  function Work(s: State): int {
    Sum(s.pc, Rank) + if s.mem.event then 3 else 0
  }

  /** Without new calls the waiting loops end: at most Work steps can follow any state. */
  lemma {:induction false} DrainEnds(run: seq<State>, who: seq<nat>)
    requires |run| == |who| + 1
    requires forall i :: 0 <= i < |who| ==> Step(run[i], who[i], run[i + 1]) && !run[i].pc[who[i]].Outside?
    ensures |who| <= Work(run[0])
  {
    if |who| == 0 {
      SumNonNegative(run[0].pc, Rank);
    } else {
      SumUpdate(run[0].pc, who[0], run[1].pc[who[0]], Rank);
      DrainEnds(run[1..], who[1..]);
    }
  }
}
