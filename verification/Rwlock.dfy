/** The read-write lock of pthreads-win32: two mutexes, one condition variable and three counters.

    Any number of threads lock for reading and for writing, with and without a timeout or only if the
    lock is free, and unlock.  The two mutexes and the condition variable are atomic objects here:
    Mutex and CondVar show what they guarantee.  A wait for the condition may also end for no
    reason, by its timeout or by a cancellation. */
module Rwlock {
  import opened Basics
  import opened Counting
  import Runs

  datatype Kind = Plain | Timed | Try

  datatype Result = Ok | Busy | TimedOut | Cancelled

  /** exclusive and completed say whether mtxExclusiveAccess and mtxSharedAccessCompleted are locked;
      waiter and signalled are the state of cndSharedAccessCompleted. */
  datatype Mem = Mem(
    exclusive: bool, completed: bool, nShared: int, nCompleted: int, nExclusive: int, waiter: bool, signalled: bool)

  /** held is how many read locks the calling thread has, writing whether it has the write lock. */
  datatype Pc =
    | Outside(held: int, writing: bool, last: Result)
    // pthread_rwlock_rdlock
    | RdEnter(held: int)
    | RdCount(held: int)
    | RdFoldLock(held: int)
    | RdFold(held: int)
    | RdFoldUnlock(held: int)
    | RdLeave(held: int)
    // pthread_rwlock_wrlock, pthread_rwlock_timedwrlock, pthread_rwlock_trywrlock
    | WrEnter(held: int, kind: Kind)
    | WrShared(held: int, kind: Kind)
    | WrFold(held: int, kind: Kind)
    | WrWait(held: int, kind: Kind)
    | WrReacquire(held: int, kind: Kind, outcome: Result)
    | WrCheck(held: int, kind: Kind, outcome: Result)
    | WrUndoShared(held: int, kind: Kind, outcome: Result)
    | WrGiveUp(held: int, kind: Kind, outcome: Result)
    | WrTake(held: int, kind: Kind)
    // pthread_rwlock_unlock
    | UnRead(held: int, writing: bool)
    | RuLock(held: int)
    | RuCount(held: int)
    | RuSignal(held: int)
    | RuLeave(held: int)
    | WuCount(held: int)
    | WuShared(held: int)
    | WuExclusive(held: int)

  datatype State = State(mem: Mem, pc: seq<Pc>)

  ghost predicate Init(s: State) {
    && s.mem == Mem(false, false, 0, 0, 0, false, false)
    && forall t :: 0 <= t < |s.pc| ==> s.pc[t] == Outside(0, false, Ok)
  }

  // ----- the steps: a thread moves from p to p' and changes the memory from m to m'

  predicate CallMove(m: Mem, p: Pc, m': Mem, p': Pc) {
    && p.Outside? && m' == m
    && (|| p' == RdEnter(p.held)
        || p' == WrEnter(p.held, Plain) || p' == WrEnter(p.held, Timed) || p' == WrEnter(p.held, Try)
        || ((p.held > 0 || p.writing) && p' == UnRead(p.held, p.writing)))
    && (p.writing ==> p'.UnRead?)
  }

  predicate ReadMove(m: Mem, p: Pc, m': Mem, p': Pc) {
    match p
    case RdEnter(held) => !m.exclusive && m' == m.(exclusive := true) && p' == RdCount(held)
    case RdCount(held) =>
      && m' == m.(nShared := m.nShared + 1)
      && p' == if m.nShared + 1 == INT_MAX then RdFoldLock(held) else RdLeave(held)
    case RdFoldLock(held) => !m.completed && m' == m.(completed := true) && p' == RdFold(held)
    case RdFold(held) =>
      m' == m.(nShared := m.nShared - m.nCompleted, nCompleted := 0) && p' == RdFoldUnlock(held)
    case RdFoldUnlock(held) => m' == m.(completed := false) && p' == RdLeave(held)
    case RdLeave(held) => m' == m.(exclusive := false) && p' == Outside(held + 1, false, Ok)
    case _ => false
  }

  function Folded(m: Mem): Mem {
    if m.nCompleted > 0 then m.(nShared := m.nShared - m.nCompleted, nCompleted := 0) else m
  }

  /** A writer gets the two mutexes and finds out whether it has to wait for readers. */
  predicate WriteEnterMove(m: Mem, p: Pc, m': Mem, p': Pc) {
    match p
    case WrEnter(held, kind) =>
      || (!m.exclusive && m' == m.(exclusive := true) && p' == WrShared(held, kind))
      || (kind == Timed && m' == m && p' == Outside(held, false, TimedOut))
      || (kind == Try && m.exclusive && m' == m && p' == Outside(held, false, Busy))
    case WrShared(held, kind) =>
      || (!m.completed && m' == m.(completed := true) && p' == WrFold(held, kind))
      || (kind == Timed && m' == m && p' == WrGiveUp(held, kind, TimedOut))
      || (kind == Try && m.completed && m' == m && p' == WrGiveUp(held, kind, Busy))
    case WrFold(held, kind) =>
      if m.nExclusive != 0 then
        if kind == Try then m' == m && p' == Outside(held, false, Busy) else m' == m && p' == WrTake(held, kind)
      else if Folded(m).nShared > 0 then
        if kind == Try then m' == Folded(m) && p' == WrUndoShared(held, kind, Busy)
        else
          && m' == Folded(m).(nCompleted := -Folded(m).nShared, completed := false, waiter := true, signalled := false)
          && p' == WrWait(held, kind)
      else m' == Folded(m) && p' == WrTake(held, kind)
    case _ => false
  }

  /** A writer waits for the readers, and takes the lock or gives up. */
  predicate WriteDrainMove(m: Mem, p: Pc, m': Mem, p': Pc) {
    match p
    case WrWait(held, kind) =>
      && m' == m.(waiter := false, signalled := false)
      && (|| p' == WrReacquire(held, kind, Ok)
          || (kind == Timed && p' == WrReacquire(held, kind, TimedOut))
          || p' == WrReacquire(held, kind, Cancelled))
    case WrReacquire(held, kind, outcome) =>
      !m.completed && m' == m.(completed := true) && p' == WrCheck(held, kind, outcome)
    case WrCheck(held, kind, outcome) =>
      if outcome != Ok then
        // ptw32_rwlock_cancelwrwait
        m' == m.(nShared := -m.nCompleted, nCompleted := 0) && p' == WrUndoShared(held, kind, outcome)
      else if m.nCompleted < 0 then
        m' == m.(completed := false, waiter := true, signalled := false) && p' == WrWait(held, kind)
      else
        m' == m.(nShared := 0) && p' == WrTake(held, kind)
    case WrUndoShared(held, kind, outcome) => m' == m.(completed := false) && p' == WrGiveUp(held, kind, outcome)
    case WrGiveUp(held, kind, outcome) => m' == m.(exclusive := false) && p' == Outside(held, false, outcome)
    case WrTake(held, kind) => m' == m.(nExclusive := m.nExclusive + 1) && p' == Outside(held, true, Ok)
    case _ => false
  }

  predicate WriteMove(m: Mem, p: Pc, m': Mem, p': Pc) {
    WriteEnterMove(m, p, m', p') || WriteDrainMove(m, p, m', p')
  }

  predicate UnlockMove(m: Mem, p: Pc, m': Mem, p': Pc) {
    match p
    case UnRead(held, writing) => m' == m && p' == if m.nExclusive == 0 then RuLock(held) else WuCount(held)
    case RuLock(held) => !m.completed && m' == m.(completed := true) && p' == RuCount(held)
    case RuCount(held) =>
      && m' == m.(nCompleted := m.nCompleted + 1)
      && p' == if m.nCompleted + 1 == 0 then RuSignal(held) else RuLeave(held)
    case RuSignal(held) => m' == m.(signalled := m.waiter) && p' == RuLeave(held)
    case RuLeave(held) => m' == m.(completed := false) && p' == Outside(held - 1, false, Ok)
    case WuCount(held) => m' == m.(nExclusive := m.nExclusive - 1) && p' == WuShared(held)
    case WuShared(held) => m' == m.(completed := false) && p' == WuExclusive(held)
    case WuExclusive(held) => m' == m.(exclusive := false) && p' == Outside(held, false, Ok)
    case _ => false
  }

  predicate Move(m: Mem, p: Pc, m': Mem, p': Pc) {
    CallMove(m, p, m', p') || ReadMove(m, p, m', p') || WriteMove(m, p, m', p') || UnlockMove(m, p, m', p')
  }

  predicate Step(s: State, t: nat, s': State) {
    && t < |s.pc| == |s'.pc|
    && s'.pc == s.pc[t := s'.pc[t]]
    && Move(s.mem, s.pc[t], s'.mem, s'.pc[t])
  }

  // ----- what each thread contributes

  predicate Writing(p: Pc) {
    (p.Outside? || p.UnRead?) && p.writing
  }

  /** Holds mtxExclusiveAccess. */
  function Exclusive(p: Pc): int {
    if p.RdCount? || p.RdFoldLock? || p.RdFold? || p.RdFoldUnlock? || p.RdLeave?
       || p.WrShared? || p.WrFold? || p.WrWait? || p.WrReacquire? || p.WrCheck? || p.WrUndoShared? || p.WrGiveUp?
       || p.WrTake? || p.WuCount? || p.WuShared? || p.WuExclusive? || Writing(p)
    then 1 else 0
  }

  /** Holds mtxSharedAccessCompleted. */
  function Completed(p: Pc): int {
    if p.RdFold? || p.RdFoldUnlock? || p.WrFold? || p.WrCheck? || p.WrUndoShared? || p.WrTake?
       || p.RuCount? || p.RuSignal? || p.RuLeave? || p.WuCount? || p.WuShared? || Writing(p)
    then 1 else 0
  }

  /** The read locks a thread has, counted from its increment of nSharedAccessCount to its increment
      of nCompletedSharedAccessCount. */
  function Readers(p: Pc): int {
    if p.RdFoldLock? || p.RdFold? || p.RdFoldUnlock? || p.RdLeave? then p.held + 1
    else if p.RuSignal? || p.RuLeave? then p.held - 1
    else p.held
  }

  /** A writer waiting until the readers have left. */
  function Draining(p: Pc): int {
    if p.WrWait? || p.WrReacquire? || p.WrCheck? then 1 else 0
  }

  function Waiting(p: Pc): int {
    if p.WrWait? then 1 else 0
  }

  /** Has the write lock, or is about to return with it. */
  function Owning(p: Pc): int {
    if p.WrTake? || p.WuCount? || Writing(p) then 1 else 0
  }

  /** Counted in nExclusiveAccessCount. */
  function Counted(p: Pc): int {
    if p.WuCount? || Writing(p) then 1 else 0
  }

  function Signalling(p: Pc): int {
    if p.RuSignal? then 1 else 0
  }

  /** The errors that a writer's call may end with. */
  predicate MayReport(kind: Kind, outcome: Result) {
    match outcome
    case Ok => false
    case Busy => kind == Try
    case TimedOut => kind == Timed
    case Cancelled => kind != Try
  }

  predicate Sound(p: Pc) {
    && p.held >= 0
    && (p.Outside? && p.writing ==> p.last == Ok)
    && (p.WrWait? || p.WrReacquire? || p.WrCheck? ==> p.kind != Try)
    && (p.WrReacquire? || p.WrCheck? ==> p.outcome == Ok || MayReport(p.kind, p.outcome))
    && (p.WrUndoShared? || p.WrGiveUp? ==> MayReport(p.kind, p.outcome))
    && (p.RuLock? || p.RuCount? || p.RuSignal? || p.RuLeave? ==> p.held > 0)
    && (p.UnRead? && !p.writing ==> p.held > 0)
  }

  /** What a group of threads contributes together. */
  datatype Tally = Tally(
    exclusive: int, completed: int, readers: int, draining: int, waiting: int, owning: int, counted: int,
    signalling: int)

  function TallyOf(pc: seq<Pc>): Tally {
    Tally(Sum(pc, Exclusive), Sum(pc, Completed), Sum(pc, Readers), Sum(pc, Draining), Sum(pc, Waiting),
          Sum(pc, Owning), Sum(pc, Counted), Sum(pc, Signalling))
  }

  function Plus(k: Tally, p: Pc): Tally {
    Tally(k.exclusive + Exclusive(p), k.completed + Completed(p), k.readers + Readers(p), k.draining + Draining(p),
          k.waiting + Waiting(p), k.owning + Owning(p), k.counted + Counted(p), k.signalling + Signalling(p))
  }

  /** True of the threads of any state. */
  predicate Ordered(k: Tally) {
    && 0 <= k.readers && 0 <= k.waiting <= k.draining && 0 <= k.signalling <= k.completed
    && 0 <= k.counted <= k.owning && k.draining + k.owning <= k.exclusive && k.owning <= k.completed
  }

  // ----- the inductive invariant

  predicate Counts(m: Mem, k: Tally) {
    && k.exclusive == (if m.exclusive then 1 else 0)
    && k.completed == (if m.completed then 1 else 0)
    && m.nExclusive == k.counted
    && (k.owning > 0 ==> k.readers == 0)
    && (if k.draining > 0 then m.nCompleted <= 0 && k.readers == -m.nCompleted
        else m.nCompleted >= 0 && k.readers == m.nShared - m.nCompleted)
    && m.waiter == (k.waiting > 0)
    && (k.waiting > 0 && m.nCompleted == 0 ==> m.signalled || k.signalling > 0)
  }

  ghost predicate AllSound(pc: seq<Pc>) {
    forall t :: 0 <= t < |pc| ==> Sound(pc[t])
  }

  ghost predicate Inv(s: State) {
    Counts(s.mem, TallyOf(s.pc)) && AllSound(s.pc)
  }

  // ----- one move keeps it; k is what the other threads contribute

  lemma CallCounts(m: Mem, p: Pc, m': Mem, p': Pc, k: Tally)
    requires CallMove(m, p, m', p')
    requires Sound(p) && Ordered(k) && Counts(m, Plus(k, p))
    ensures Sound(p') && Counts(m', Plus(k, p'))
  {
  }

  lemma ReadCounts(m: Mem, p: Pc, m': Mem, p': Pc, k: Tally)
    requires ReadMove(m, p, m', p')
    requires Sound(p) && Ordered(k) && Counts(m, Plus(k, p))
    ensures Sound(p') && Counts(m', Plus(k, p'))
  {
  }

  lemma WriteEnterCounts(m: Mem, p: Pc, m': Mem, p': Pc, k: Tally)
    requires WriteEnterMove(m, p, m', p')
    requires Sound(p) && Ordered(k) && Counts(m, Plus(k, p))
    ensures Sound(p') && Counts(m', Plus(k, p'))
  {
  }

  lemma WriteDrainCounts(m: Mem, p: Pc, m': Mem, p': Pc, k: Tally)
    requires WriteDrainMove(m, p, m', p')
    requires Sound(p) && Ordered(k) && Counts(m, Plus(k, p))
    ensures Sound(p') && Counts(m', Plus(k, p'))
  {
  }

  lemma WriteCounts(m: Mem, p: Pc, m': Mem, p': Pc, k: Tally)
    requires WriteMove(m, p, m', p')
    requires Sound(p) && Ordered(k) && Counts(m, Plus(k, p))
    ensures Sound(p') && Counts(m', Plus(k, p'))
  {
    if WriteEnterMove(m, p, m', p') {
      WriteEnterCounts(m, p, m', p', k);
    } else {
      WriteDrainCounts(m, p, m', p', k);
    }
  }

  lemma UnlockCounts(m: Mem, p: Pc, m': Mem, p': Pc, k: Tally)
    requires UnlockMove(m, p, m', p')
    requires Sound(p) && Ordered(k) && Counts(m, Plus(k, p))
    ensures Sound(p') && Counts(m', Plus(k, p'))
  {
  }

  lemma {:induction false} TallyOrdered(pc: seq<Pc>)
    requires AllSound(pc)
    ensures Ordered(TallyOf(pc))
  {
    if pc != [] {
      var n := |pc| - 1;
      assert forall t :: 0 <= t < n ==> pc[..n][t] == pc[t];
      TallyOrdered(pc[..n]);
      assert TallyOf(pc) == Plus(TallyOf(pc[..n]), pc[n]);
    }
  }

  /** The tally of everybody but thread t. */
  function Rest(pc: seq<Pc>, t: nat): Tally
    requires t < |pc|
  {
    TallyOf(pc[t := Outside(0, false, Ok)])
  }

  lemma RestPlus(pc: seq<Pc>, t: nat, p: Pc)
    requires t < |pc|
    ensures TallyOf(pc[t := p]) == Plus(Rest(pc, t), p)
  {
    var others := pc[t := Outside(0, false, Ok)];
    assert others[t := p] == pc[t := p];
    SumUpdate(others, t, p, Exclusive);
    SumUpdate(others, t, p, Completed);
    SumUpdate(others, t, p, Readers);
    SumUpdate(others, t, p, Draining);
    SumUpdate(others, t, p, Waiting);
    SumUpdate(others, t, p, Owning);
    SumUpdate(others, t, p, Counted);
    SumUpdate(others, t, p, Signalling);
  }

  /** Thread t beside the others. */
  lemma Beside(s: State, t: nat)
    requires Inv(s) && t < |s.pc|
    ensures Sound(s.pc[t]) && Ordered(Rest(s.pc, t)) && Counts(s.mem, Plus(Rest(s.pc, t), s.pc[t]))
  {
    assert s.pc[t := s.pc[t]] == s.pc;
    RestPlus(s.pc, t, s.pc[t]);
    TallyOrdered(s.pc[t := Outside(0, false, Ok)]);
  }

  lemma MoveCounts(m: Mem, p: Pc, m': Mem, p': Pc, k: Tally)
    requires Move(m, p, m', p')
    requires Sound(p) && Ordered(k) && Counts(m, Plus(k, p))
    ensures Sound(p') && Counts(m', Plus(k, p'))
  {
    if CallMove(m, p, m', p') {
      CallCounts(m, p, m', p', k);
    } else if ReadMove(m, p, m', p') {
      ReadCounts(m, p, m', p', k);
    } else if WriteMove(m, p, m', p') {
      WriteCounts(m, p, m', p', k);
    } else {
      UnlockCounts(m, p, m', p', k);
    }
  }

  lemma StepInv(s: State, t: nat, s': State)
    requires Inv(s) && Step(s, t, s')
    ensures Inv(s')
  {
    var p' := s'.pc[t];
    Beside(s, t);
    RestPlus(s.pc, t, p');
    MoveCounts(s.mem, s.pc[t], s'.mem, p', Rest(s.pc, t));
  }

  ghost predicate Next(s: State, s': State) {
    exists t: nat :: Step(s, t, s')
  }

  ghost predicate Reachable(s: State) {
    Runs.Reachable(s, Init, Next)
  }

  lemma InitCounts(s: State)
    requires Init(s)
    ensures Counts(s.mem, TallyOf(s.pc))
  {
    InitTally(s.pc);
    CountsInit(s.mem, TallyOf(s.pc));
  }

  lemma InitSound(pc: seq<Pc>)
    requires forall t :: 0 <= t < |pc| ==> pc[t] == Outside(0, false, Ok)
    ensures AllSound(pc)
  {
    assert Sound(Outside(0, false, Ok));
  }

  lemma CountsInit(m: Mem, k: Tally)
    requires m == Mem(false, false, 0, 0, 0, false, false) && k == Tally(0, 0, 0, 0, 0, 0, 0, 0)
    ensures Counts(m, k)
  {
  }

  lemma InitTally(pc: seq<Pc>)
    requires forall t :: 0 <= t < |pc| ==> pc[t] == Outside(0, false, Ok)
    ensures TallyOf(pc) == Tally(0, 0, 0, 0, 0, 0, 0, 0)
  {
    InitHalf(pc);
    InitOtherHalf(pc);
  }

  lemma InitHalf(pc: seq<Pc>)
    requires forall t :: 0 <= t < |pc| ==> pc[t] == Outside(0, false, Ok)
    ensures Sum(pc, Exclusive) == Sum(pc, Completed) == Sum(pc, Readers) == Sum(pc, Draining) == 0
  {
    SumIdle(pc, Exclusive);
    SumIdle(pc, Completed);
    SumIdle(pc, Readers);
    SumIdle(pc, Draining);
  }

  lemma InitOtherHalf(pc: seq<Pc>)
    requires forall t :: 0 <= t < |pc| ==> pc[t] == Outside(0, false, Ok)
    ensures Sum(pc, Waiting) == Sum(pc, Owning) == Sum(pc, Counted) == Sum(pc, Signalling) == 0
  {
    SumIdle(pc, Waiting);
    SumIdle(pc, Owning);
    SumIdle(pc, Counted);
    SumIdle(pc, Signalling);
  }

  lemma SumIdle(pc: seq<Pc>, w: Pc -> int)
    requires forall t :: 0 <= t < |pc| ==> pc[t] == Outside(0, false, Ok)
    requires w(Outside(0, false, Ok)) == 0
    ensures Sum(pc, w) == 0
  {
    SumZero(pc, w);
  }

  lemma ReachableInv(s: State)
    requires Reachable(s)
    ensures Inv(s)
  {
    forall s0 | Init(s0) ensures Inv(s0) {
      InitCounts(s0);
      InitSound(s0.pc);
    }
    forall s0, s1 | Inv(s0) && Next(s0, s1) ensures Inv(s1) {
      var t: nat :| Step(s0, t, s1);
      StepInv(s0, t, s1);
    }
    Runs.Invariant(s, Init, Next, Inv);
  }

  // ----- what it guarantees

  /** Whoever has the write lock has it alone: no other thread writes, and nobody reads. */
  lemma WriterExcludes(s: State, t: nat, u: nat)
    requires Reachable(s) && t < |s.pc| && u < |s.pc| && Owning(s.pc[t]) == 1
    ensures Readers(s.pc[u]) == 0
    ensures Owning(s.pc[u]) == 1 ==> u == t
  {
    ReachableInv(s);
    OneOwner(s, t, u);
    SumBoundsOne(s.pc, t, Owning);
    SumBoundsOne(s.pc, u, Readers);
    assert Sound(s.pc[u]);
  }

  lemma OneOwner(s: State, t: nat, u: nat)
    requires Inv(s) && t < |s.pc| && u < |s.pc| && Owning(s.pc[t]) == 1
    ensures Owning(s.pc[u]) == 1 ==> u == t
  {
    if u != t {
      Beside(s, t);
      SumBoundsOne(s.pc[t := Outside(0, false, Ok)], u, Owning);
    }
  }

  /** The two counters give the number of readers: the negated completed count while a writer is
      draining, the difference of the two otherwise. */
  lemma ReadersCounted(s: State)
    requires Reachable(s)
    ensures Sum(s.pc, Draining) <= 1
    ensures Sum(s.pc, Readers) ==
      if exists t :: 0 <= t < |s.pc| && Draining(s.pc[t]) == 1 then -s.mem.nCompleted
      else s.mem.nShared - s.mem.nCompleted
  {
    ReachableInv(s);
    TallyOrdered(s.pc);
    if Sum(s.pc, Draining) > 0 {
      var t := SumWitness(s.pc, Draining);
    } else if t :| 0 <= t < |s.pc| && Draining(s.pc[t]) == 1 {
      SumBoundsOne(s.pc, t, Draining);
    }
  }

  /** At most one thread waits for the condition, so that one signal is enough. */
  lemma OneWaiter(s: State, t: nat, u: nat)
    requires Reachable(s) && t < |s.pc| && u < |s.pc| && s.pc[t].WrWait? && s.pc[u].WrWait?
    ensures t == u
  {
    ReachableInv(s);
    TallyOrdered(s.pc);
    if t != u {
      SumBoundsPair(s.pc, if t < u then t else u, if t < u then u else t, Waiting);
    }
  }

  /** The only step that adds a reader is taken inside mtxExclusiveAccess. */
  lemma EntersExclusively(m: Mem, p: Pc, m': Mem, p': Pc)
    requires Move(m, p, m', p') && Readers(p') > Readers(p)
    ensures p.RdCount?
  {
  }

  /** No reader enters while a writer drains. */
  lemma NoReaderEnters(s: State, t: nat, s': State, w: nat)
    requires Reachable(s) && Step(s, t, s') && w < |s.pc| && Draining(s.pc[w]) == 1
    ensures Sum(s'.pc, Readers) <= Sum(s.pc, Readers)
  {
    SumUpdate(s.pc, t, s'.pc[t], Readers);
    if Readers(s'.pc[t]) > Readers(s.pc[t]) {
      EntersExclusively(s.mem, s.pc[t], s'.mem, s'.pc[t]);
      SumBoundsPair(s.pc, if t < w then t else w, if t < w then w else t, Exclusive);
      ReachableInv(s);
    }
  }

  /** When the readers have left, the waiting writer is signalled or the last one is about to do it. */
  lemma LastReaderSignals(s: State, w: nat)
    requires Reachable(s) && w < |s.pc| && s.pc[w].WrWait? && Sum(s.pc, Readers) == 0
    ensures s.mem.signalled || exists t :: 0 <= t < |s.pc| && s.pc[t].RuSignal?
  {
    ReachableInv(s);
    TallyOrdered(s.pc);
    SumBoundsOne(s.pc, w, Waiting);
    if Sum(s.pc, Signalling) > 0 {
      var t := SumWitness(s.pc, Signalling);
    }
  }

  /** The branches for a lock that is already held by a writer are never taken. */
  lemma NeverHeldTwice(s: State, t: nat)
    requires Reachable(s) && t < |s.pc|
    ensures s.pc[t].WrFold? ==> s.mem.nExclusive == 0
    ensures s.pc[t].UnRead? ==> (s.mem.nExclusive == 0 <==> !s.pc[t].writing)
  {
    ReachableInv(s);
    Beside(s, t);
  }

  // ----- what the calls report

  predicate Reading(p: Pc) {
    p.RdEnter? || p.RdCount? || p.RdFoldLock? || p.RdFold? || p.RdFoldUnlock? || p.RdLeave?
  }

  predicate Writer(p: Pc) {
    || p.WrEnter? || p.WrShared? || p.WrFold? || p.WrWait? || p.WrReacquire? || p.WrCheck? || p.WrUndoShared?
    || p.WrGiveUp? || p.WrTake?
  }

  /** A read call ends with one more read lock, a write call with the write lock exactly when it
      reports success, and an unlock with one lock less; Busy comes from trywrlock only, TimedOut from
      timedwrlock only, and a cancelled call is a waiting one. */
  lemma CallsReport(s: State, t: nat, s': State)
    requires Reachable(s) && Step(s, t, s') && !s.pc[t].Outside? && s'.pc[t].Outside?
    ensures Reading(s.pc[t]) ==> s'.pc[t] == Outside(s.pc[t].held + 1, false, Ok)
    ensures Writer(s.pc[t]) ==> s'.pc[t].held == s.pc[t].held && (s'.pc[t].writing <==> s'.pc[t].last == Ok)
    ensures Writer(s.pc[t]) && s'.pc[t].last != Ok ==> MayReport(s.pc[t].kind, s'.pc[t].last)
    ensures s.pc[t].RuLeave? ==> s'.pc[t] == Outside(s.pc[t].held - 1, false, Ok)
    ensures s.pc[t].WuExclusive? ==> s'.pc[t] == Outside(s.pc[t].held, false, Ok)
    ensures Reading(s.pc[t]) || Writer(s.pc[t]) || s.pc[t].RuLeave? || s.pc[t].WuExclusive?
  {
    NeverHeldTwice(s, t);
    ReachableInv(s);
    assert Sound(s.pc[t]);
  }

  /** Where a writer goes from its test when there are so many readers. */
  function Decided(p: Pc, readers: int): Pc
    requires p.WrFold? || p.WrCheck?
  {
    if readers == 0 then WrTake(p.held, p.kind)
    else if p.kind == Try then WrUndoShared(p.held, Try, Busy)
    else WrWait(p.held, p.kind)
  }

  lemma FoldDecides(m: Mem, p: Pc, m': Mem, p': Pc, readers: nat)
    requires WriteEnterMove(m, p, m', p') && p.WrFold? && m.nExclusive == 0
    requires m.nCompleted >= 0 && readers == m.nShared - m.nCompleted
    ensures p' == Decided(p, readers)
  {
  }

  lemma CheckDecides(m: Mem, p: Pc, m': Mem, p': Pc, readers: nat)
    requires WriteMove(m, p, m', p') && p.WrCheck? && p.outcome == Ok && p.kind != Try
    requires readers == -m.nCompleted
    ensures p' == Decided(p, readers)
  {
  }

  /** With both mutexes a writer takes the lock exactly when there is no reader; otherwise trywrlock
      gives up and the others wait.  After a wait that did not fail it is the same. */
  lemma WriterDecides(s: State, t: nat, s': State)
    requires Reachable(s) && Step(s, t, s') && (s.pc[t].WrFold? || (s.pc[t].WrCheck? && s.pc[t].outcome == Ok))
    ensures Sum(s.pc, Readers) >= 0 && s'.pc[t] == Decided(s.pc[t], Sum(s.pc, Readers))
  {
    NeverHeldTwice(s, t);
    ReachableInv(s);
    TallyOrdered(s.pc);
    assert Sound(s.pc[t]);
    if s.pc[t].WrFold? {
      NobodyDrains(s, t);
      FoldDecides(s.mem, s.pc[t], s'.mem, s'.pc[t], Sum(s.pc, Readers));
    } else {
      Beside(s, t);
      SumBoundsOne(s.pc, t, Draining);
      CheckDecides(s.mem, s.pc[t], s'.mem, s'.pc[t], Sum(s.pc, Readers));
    }
  }

  /** Only one thread has mtxExclusiveAccess, so nobody drains beside it. */
  lemma NobodyDrains(s: State, t: nat)
    requires Inv(s) && t < |s.pc| && Exclusive(s.pc[t]) == 1 && Draining(s.pc[t]) == 0
    ensures Sum(s.pc, Draining) == 0
  {
    Beside(s, t);
    assert s.pc[t := s.pc[t]] == s.pc;
    RestPlus(s.pc, t, s.pc[t]);
  }

  /** Another thread has a mutex of the lock, or somebody reads. */
  ghost predicate Occupied(s: State, t: nat) {
    || (exists u :: 0 <= u < |s.pc| && u != t && (Exclusive(s.pc[u]) == 1 || Completed(s.pc[u]) == 1))
    || Sum(s.pc, Readers) > 0
  }

  /** trywrlock gets on to Busy only when the lock is in use. */
  lemma BusyMeansOccupied(s: State, t: nat, s': State)
    requires Reachable(s) && Step(s, t, s') && (s.pc[t].WrEnter? || s.pc[t].WrShared? || s.pc[t].WrFold?)
    requires s'.pc[t].Outside? || s'.pc[t].WrGiveUp? || s'.pc[t].WrUndoShared?
    requires s.pc[t].kind == Try
    ensures Occupied(s, t)
  {
    if s.pc[t].WrFold? {
      WriterDecides(s, t, s');
    } else {
      ReachableInv(s);
      var u: nat;
      if s.pc[t].WrEnter? {
        u := SomeExclusive(s);
      } else {
        u := SomeCompleted(s);
      }
    }
  }

  lemma SomeExclusive(s: State) returns (u: nat)
    requires Inv(s) && s.mem.exclusive
    ensures u < |s.pc| && Exclusive(s.pc[u]) == 1
  {
    u := SumWitness(s.pc, Exclusive);
  }

  lemma SomeCompleted(s: State) returns (u: nat)
    requires Inv(s) && s.mem.completed
    ensures u < |s.pc| && Completed(s.pc[u]) == 1
  {
    u := SumWitness(s.pc, Completed);
  }

  // ----- the counters stay in range

  function Folding(p: Pc): int {
    if p.RdFoldLock? || p.RdFold? then 1 else 0
  }

  /** nSharedAccessCount reaches INT_MAX only for the moment until it is folded. */
  ghost predicate Small(s: State) {
    s.mem.nShared <= INT_MAX - 1 + Sum(s.pc, Folding)
  }

  lemma StepSmall(s: State, t: nat, s': State)
    requires Inv(s) && Small(s) && Step(s, t, s') && Sum(s.pc, Readers) < INT_MAX
    ensures Small(s')
  {
    Beside(s, t);
    SumUpdate(s.pc, t, s'.pc[t], Folding);
    var others := s.pc[t := Outside(0, false, Ok)];
    SumNonNegative(others, Folding);
    SumUpdate(s.pc, t, Outside(0, false, Ok), Folding);
    SumOrdered(others, Folding, Exclusive);
    assert s.pc[t := s.pc[t]] == s.pc;
    RestPlus(s.pc, t, s.pc[t]);
  }

  lemma {:induction false} RunSmall(run: seq<State>)
    requires Runs.IsRun(run, Init, Next)
    requires forall i :: 0 <= i < |run| ==> Sum(run[i].pc, Readers) < INT_MAX
    ensures Inv(run[|run| - 1]) && Small(run[|run| - 1])
  {
    var n := |run| - 1;
    var s := run[n];
    if n == 0 {
      InitCounts(s);
      InitSound(s.pc);
      SumIdle(s.pc, Folding);
    } else {
      RunSmall(run[..n]);
      assert Next(run[n - 1], s);
      var t: nat :| Step(run[n - 1], t, s);
      StepInv(run[n - 1], t, s);
      StepSmall(run[n - 1], t, s);
    }
  }

  /** With fewer than INT_MAX read locks at a time the counters never leave the range of an int. */
  lemma NoOverflow(run: seq<State>)
    requires Runs.IsRun(run, Init, Next)
    requires forall i :: 0 <= i < |run| ==> Sum(run[i].pc, Readers) < INT_MAX
    ensures var m := run[|run| - 1].mem; m.nShared <= INT_MAX && -INT_MAX <= m.nCompleted <= INT_MAX
  {
    var s := run[|run| - 1];
    RunSmall(run);
    TallyOrdered(s.pc);
    SumOrdered(s.pc, Folding, Exclusive);
  }

  // ----- progress

  /** The thread at p can take its next step, not counting new calls, timeouts, cancellations and
      wakeups for no reason. */
  predicate CanAdvance(m: Mem, p: Pc) {
    match p
    case Outside(_, _, _) => false
    case RdEnter(_) => !m.exclusive
    case RdFoldLock(_) => !m.completed
    case WrEnter(_, kind) => !m.exclusive || kind == Try
    case WrShared(_, kind) => !m.completed || kind == Try
    case WrWait(_, _) => m.signalled
    case WrReacquire(_, _, _) => !m.completed
    case RuLock(_) => !m.completed
    case _ => true
  }

  /** A step of a call that neither a timeout nor a cancellation nor an unfounded wakeup takes. */
  predicate Regular(m: Mem, p: Pc, m': Mem, p': Pc) {
    && Move(m, p, m', p') && !p.Outside?
    && (p.WrEnter? && p.kind != Try ==> p'.WrShared?)
    && (p.WrShared? && p.kind != Try ==> p'.WrFold?)
    && (p.WrWait? ==> m.signalled && p'.outcome == Ok)
  }

  lemma AdvanceIsAMove(m: Mem, p: Pc)
    ensures CanAdvance(m, p) <==> exists m', p' :: Regular(m, p, m', p')
  {
    if CanAdvance(m, p) {
      var m', p' := Advance(m, p);
    }
  }

  lemma Advance(m: Mem, p: Pc) returns (m': Mem, p': Pc)
    requires CanAdvance(m, p)
    ensures Regular(m, p, m', p')
  {
    if p.WrEnter? || p.WrShared? || p.WrFold? || p.WrWait? || p.WrReacquire? || p.WrCheck? || p.WrUndoShared?
       || p.WrGiveUp? || p.WrTake? {
      m', p' := AdvanceWrite(m, p);
    } else {
      m', p' := m, p;
      match p {
        case RdEnter(held) => m', p' := m.(exclusive := true), RdCount(held);
        case RdCount(held) =>
          m', p' := m.(nShared := m.nShared + 1), if m.nShared + 1 == INT_MAX then RdFoldLock(held) else RdLeave(held);
        case RdFoldLock(held) => m', p' := m.(completed := true), RdFold(held);
        case RdFold(held) => m', p' := m.(nShared := m.nShared - m.nCompleted, nCompleted := 0), RdFoldUnlock(held);
        case RdFoldUnlock(held) => m', p' := m.(completed := false), RdLeave(held);
        case RdLeave(held) => m', p' := m.(exclusive := false), Outside(held + 1, false, Ok);
        case UnRead(held, _) => p' := if m.nExclusive == 0 then RuLock(held) else WuCount(held);
        case RuLock(held) => m', p' := m.(completed := true), RuCount(held);
        case RuCount(held) =>
          m', p' := m.(nCompleted := m.nCompleted + 1), if m.nCompleted + 1 == 0 then RuSignal(held) else RuLeave(held);
        case RuSignal(held) => m', p' := m.(signalled := m.waiter), RuLeave(held);
        case RuLeave(held) => m', p' := m.(completed := false), Outside(held - 1, false, Ok);
        case WuCount(held) => m', p' := m.(nExclusive := m.nExclusive - 1), WuShared(held);
        case WuShared(held) => m', p' := m.(completed := false), WuExclusive(held);
        case WuExclusive(held) => m', p' := m.(exclusive := false), Outside(held, false, Ok);
      }
    }
  }

  lemma AdvanceWrite(m: Mem, p: Pc) returns (m': Mem, p': Pc)
    requires CanAdvance(m, p)
    requires p.WrEnter? || p.WrShared? || p.WrFold? || p.WrWait? || p.WrReacquire? || p.WrCheck? || p.WrUndoShared?
          || p.WrGiveUp? || p.WrTake?
    ensures Regular(m, p, m', p')
  {
    m', p' := m, p;
    match p {
      case WrEnter(held, kind) =>
        if m.exclusive { p' := Outside(held, false, Busy); }
        else { m', p' := m.(exclusive := true), WrShared(held, kind); }
      case WrShared(held, kind) =>
        if m.completed { p' := WrGiveUp(held, kind, Busy); }
        else { m', p' := m.(completed := true), WrFold(held, kind); }
      case WrFold(held, kind) =>
        var f := Folded(m);
        if m.nExclusive != 0 {
          p' := if kind == Try then Outside(held, false, Busy) else WrTake(held, kind);
        } else if f.nShared <= 0 {
          m', p' := f, WrTake(held, kind);
        } else if kind == Try {
          m', p' := f, WrUndoShared(held, kind, Busy);
        } else {
          m' := f.(nCompleted := -f.nShared, completed := false, waiter := true, signalled := false);
          p' := WrWait(held, kind);
        }
      case WrWait(held, kind) => m', p' := m.(waiter := false, signalled := false), WrReacquire(held, kind, Ok);
      case WrReacquire(held, kind, outcome) => m', p' := m.(completed := true), WrCheck(held, kind, outcome);
      case WrCheck(held, kind, outcome) =>
        if outcome != Ok {
          m', p' := m.(nShared := -m.nCompleted, nCompleted := 0), WrUndoShared(held, kind, outcome);
        } else if m.nCompleted < 0 {
          m', p' := m.(completed := false, waiter := true, signalled := false), WrWait(held, kind);
        } else {
          m', p' := m.(nShared := 0), WrTake(held, kind);
        }
      case WrUndoShared(held, kind, outcome) => m', p' := m.(completed := false), WrGiveUp(held, kind, outcome);
      case WrGiveUp(held, kind, outcome) => m', p' := m.(exclusive := false), Outside(held, false, outcome);
      case WrTake(held, kind) => m', p' := m.(nExclusive := m.nExclusive + 1), Outside(held, true, Ok);
    }
  }

  ghost predicate Quiescent(s: State) {
    forall t :: 0 <= t < |s.pc| ==> !CanAdvance(s.mem, s.pc[t])
  }

  /** Has a lock and will not give it back unless it makes a new call or gets another lock first. */
  predicate Keeper(p: Pc) {
    && (p.held > 0 || Writing(p))
    && (p.Outside? || p.RdEnter? || p.RdFoldLock? || p.WrEnter? || p.WrShared? || p.WrWait? || p.WrReacquire?)
  }

  /** When nothing can move on but by a new call, a timeout or the like, a blocked thread waits for
      one that really has the lock: outside any call, or asking for more while it keeps what it has. */
  lemma BlockedOnlyByKeeper(s: State, t: nat) returns (h: nat)
    requires Reachable(s) && Quiescent(s) && t < |s.pc| && !s.pc[t].Outside?
    ensures h < |s.pc| && Keeper(s.pc[h])
  {
    ReachableInv(s);
    TallyOrdered(s.pc);
    assert !CanAdvance(s.mem, s.pc[t]);
    if s.mem.completed {
      h := CompletedKeeper(s);
    } else {
      assert s.mem.exclusive by {
        if s.pc[t].WrWait? {
          SumBoundsOne(s.pc, t, Exclusive);
        }
      }
      var e := SumWitness(s.pc, Exclusive);
      assert !CanAdvance(s.mem, s.pc[e]);
      if s.pc[e].Outside? {
        h := e;
      } else {
        h := DrainKeeper(s, e);
      }
    }
  }

  /** mtxSharedAccessCompleted is only kept by a writer. */
  lemma CompletedKeeper(s: State) returns (h: nat)
    requires Inv(s) && Quiescent(s) && s.mem.completed
    ensures h < |s.pc| && Keeper(s.pc[h])
  {
    h := SumWitness(s.pc, Completed);
    assert !CanAdvance(s.mem, s.pc[h]);
  }

  /** A draining writer that is not signalled waits for a reader. */
  lemma DrainKeeper(s: State, w: nat) returns (h: nat)
    requires Inv(s) && Quiescent(s) && !s.mem.completed && w < |s.pc| && s.pc[w].WrWait?
    ensures h < |s.pc| && Keeper(s.pc[h])
  {
    TallyOrdered(s.pc);
    SumBoundsOne(s.pc, w, Waiting);
    assert !CanAdvance(s.mem, s.pc[w]);
    h := SumWitness(s.pc, Readers);
    assert !CanAdvance(s.mem, s.pc[h]) && Sound(s.pc[h]);
  }

  /** Steps left at most, with the signal worth one more round of the waiting loop. */
  function Rank(p: Pc): int {
    match p
    case Outside(_, _, _) => 0
    case RdEnter(_) => 6
    case RdCount(_) => 5
    case RdFoldLock(_) => 4
    case RdFold(_) => 3
    case RdFoldUnlock(_) => 2
    case RdLeave(_) => 1
    case WrEnter(_, _) => 6
    case WrShared(_, _) => 5
    case WrFold(_, _) => 4
    case WrWait(_, _) => 1
    case WrReacquire(_, _, _) => 4
    case WrCheck(_, _, _) => 3
    case WrUndoShared(_, _, _) => 2
    case WrGiveUp(_, _, _) => 1
    case WrTake(_, _) => 1
    case UnRead(_, _) => 9
    case RuLock(_) => 8
    case RuCount(_) => 7
    case RuSignal(_) => 6
    case RuLeave(_) => 1
    case WuCount(_) => 3
    case WuShared(_) => 2
    case WuExclusive(_) => 1
  }

  function Work(s: State): int {
    Sum(s.pc, Rank) + if s.mem.signalled then 4 else 0
  }

  /** Without new calls and unfounded wakeups the waiting loops end: at most Work steps can follow. */
  lemma {:induction false} DrainEnds(run: seq<State>, who: seq<nat>)
    requires |run| == |who| + 1
    requires forall i :: 0 <= i < |who| ==>
      Step(run[i], who[i], run[i + 1]) && Regular(run[i].mem, run[i].pc[who[i]], run[i + 1].mem, run[i + 1].pc[who[i]])
    ensures |who| <= Work(run[0])
  {
    if |who| == 0 {
      SumNonNegative(run[0].pc, Rank);
    } else {
      RankFalls(run[0], who[0], run[1]);
      DrainEnds(run[1..], who[1..]);
    }
  }

  lemma RankFalls(s: State, t: nat, s': State)
    requires Step(s, t, s') && Regular(s.mem, s.pc[t], s'.mem, s'.pc[t])
    ensures Work(s') < Work(s)
  {
    RankMove(s.mem, s.pc[t], s'.mem, s'.pc[t]);
    SumUpdate(s.pc, t, s'.pc[t], Rank);
  }

  /** The rank of the mover with the worth of the signal falls. */
  ghost predicate Falls(m: Mem, p: Pc, m': Mem, p': Pc) {
    Rank(p') + (if m'.signalled then 4 else 0) < Rank(p) + (if m.signalled then 4 else 0)
  }

  lemma RankRead(m: Mem, p: Pc, m': Mem, p': Pc)
    ensures ReadMove(m, p, m', p') ==> Falls(m, p, m', p')
  {
  }

  lemma RankWrite(m: Mem, p: Pc, m': Mem, p': Pc)
    requires Regular(m, p, m', p')
    ensures WriteMove(m, p, m', p') ==> Falls(m, p, m', p')
  {
  }

  lemma RankUnlock(m: Mem, p: Pc, m': Mem, p': Pc)
    ensures UnlockMove(m, p, m', p') ==> Falls(m, p, m', p')
  {
  }

  lemma RankMove(m: Mem, p: Pc, m': Mem, p': Pc)
    requires Regular(m, p, m', p')
    ensures Falls(m, p, m', p')
  {
    RankRead(m, p, m', p');
    RankWrite(m, p, m', p');
    RankUnlock(m, p, m', p');
  }
}
