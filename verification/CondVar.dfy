/** The condition variable of pthreads-win32 (Terekhov's algorithm 9).

    Every thread of any number of threads carries one program counter; a step is one atomic
    action of one thread: one semaphore or mutex operation, or one update of the counters that
    mtxUnblockLock or the gate guards.  The semaphores semBlockLock (the gate) and semBlockQueue
    are the counting semaphores that module Semaphore proves; the mutex is the one of module
    Mutex.  Timeouts, cancellation and failed waits are the nondeterministic choice of leaving a
    semaphore wait without a token. */
module CondVar {
  import opened Basics
  import opened Counting
  import Runs

  /** INT_MAX / 2: at this many unaccounted departures they are folded into nWaitersBlocked. */
  const FOLD_AT: int := 1073741823

  datatype Owner = Free | By(thread: nat)

  datatype Pc =
    | Idle
    // ptw32_cond_timedwait
    | EnterGate
    | Register
    | LeaveGate
    | Queued
    // ptw32_cond_wait_cleanup; token tells whether semBlockQueue was taken
    | Relock(token: bool)
    | Account(token: bool)
    | FoldEnter
    | FoldSubtract
    | FoldLeave
    | FoldReset
    | AccountUnlock(left: int)
    | Reopen
    // ptw32_cond_unblock
    | SignalLock(all: bool)
    | SignalTest(all: bool)
    | SignalClose(all: bool)
    | SignalMove(all: bool)
    | SignalUnlock(n: int)
    | SignalPost(n: int)
    | SignalNoop
    // pthread_cond_destroy
    | DestroyEnter
    | DestroyTry
    | DestroyRetreat
    | DestroyTest
    | DestroyReopen
    | DestroyUnlock
    | Destroyed

  /** The condition variable's memory.  alive turns false when a destroy succeeds.  issued and
      taken are history: the wakeups that signals and broadcasts committed to, and the tokens
      waiters took from semBlockQueue.  swallowed is history too: the gate tokens consumed by
      threads that were cancelled while they waited for the gate (the cleanup of sem_wait takes a
      token that was posted for the cancelled thread, and the thread is cancelled all the same). */
  datatype Cv = Cv(
    blocked: int, gone: int, toUnblock: int,
    gate: int, queue: int, lock: Owner,
    alive: bool, issued: int, taken: int, swallowed: int)

  datatype State = State(cv: Cv, pc: seq<Pc>)

  ghost predicate Init(s: State) {
    && s.cv == Cv(0, 0, 0, 1, 0, Free, true, 0, 0, 0)
    && forall t :: 0 <= t < |s.pc| ==> s.pc[t] == Idle
  }

  // ----- the steps: thread me moves from p to p' and changes the memory from c to c'

  /** A thread is cancelled in sem_wait(semBlockLock), with or without swallowing a token. */
  predicate Cancelled(c: Cv, c': Cv, p': Pc) {
    && p' == Idle
    && (c' == c || (c.gate > 0 && c' == c.(gate := c.gate - 1, swallowed := c.swallowed + 1)))
  }

  /** Up to the end of the wait. */
  predicate EnterMove(c: Cv, p: Pc, c': Cv, p': Pc) {
    match p
    case EnterGate =>
      || (c.gate > 0 && p' == Register && c' == c.(gate := c.gate - 1))
      || Cancelled(c, c', p')
    case Register => p' == LeaveGate && c' == c.(blocked := c.blocked + 1)
    case LeaveGate => p' == Queued && c' == c.(gate := c.gate + 1)
    case Queued =>
      || (c.queue > 0 && p' == Relock(true) && c' == c.(queue := c.queue - 1, taken := c.taken + 1))
      || (p' == Relock(false) && c' == c)
    case _ => false
  }

  /** ptw32_cond_wait_cleanup. */
  predicate CleanupMove(c: Cv, me: nat, p: Pc, c': Cv, p': Pc) {
    match p
    case Relock(token) => c.lock == Free && p' == Account(token) && c' == c.(lock := By(me))
    case Account(_) =>
      if c.toUnblock != 0 then
        p' == AccountUnlock(c.toUnblock) && c' == c.(toUnblock := c.toUnblock - 1)
      else
        && p' == (if c.gone + 1 == FOLD_AT then FoldEnter else AccountUnlock(0))
        && c' == c.(gone := c.gone + 1)
    case FoldEnter => c.gate > 0 && p' == FoldSubtract && c' == c.(gate := c.gate - 1)
    case FoldSubtract => p' == FoldLeave && c' == c.(blocked := c.blocked - c.gone)
    case FoldLeave => p' == FoldReset && c' == c.(gate := c.gate + 1)
    case FoldReset => p' == AccountUnlock(0) && c' == c.(gone := 0)
    case AccountUnlock(left) => p' == (if left == 1 then Reopen else Idle) && c' == c.(lock := Free)
    case Reopen => p' == Idle && c' == c.(gate := c.gate + 1)
    case _ => false
  }

  predicate WaitMove(c: Cv, me: nat, p: Pc, c': Cv, p': Pc) {
    EnterMove(c, p, c', p') || CleanupMove(c, me, p, c', p')
  }

  predicate UnblockMove(c: Cv, me: nat, p: Pc, c': Cv, p': Pc) {
    match p
    case SignalLock(all) => c.lock == Free && p' == SignalTest(all) && c' == c.(lock := By(me))
    case SignalTest(all) =>
      if c.toUnblock != 0 then
        if c.blocked == 0 then p' == SignalNoop && c' == c
        else
          var n := if all then c.blocked else 1;
          && p' == SignalUnlock(n)
          && c' == c.(toUnblock := c.toUnblock + n, blocked := c.blocked - n, issued := c.issued + n)
      else
        p' == (if c.blocked > c.gone then SignalClose(all) else SignalNoop) && c' == c
    case SignalClose(all) => c.gate > 0 && p' == SignalMove(all) && c' == c.(gate := c.gate - 1)
    case SignalMove(all) =>
      var blocked := if c.gone != 0 then c.blocked - c.gone else c.blocked;
      var n := if all then blocked else 1;
      && p' == SignalUnlock(n)
      && c' == c.(gone := 0, toUnblock := n, blocked := blocked - n, issued := c.issued + n)
    case SignalUnlock(n) => p' == SignalPost(n) && c' == c.(lock := Free)
    case SignalPost(n) => p' == Idle && c' == c.(queue := c.queue + n)
    case SignalNoop => p' == Idle && c' == c.(lock := Free)
    case _ => false
  }

  predicate DestroyMove(c: Cv, me: nat, p: Pc, c': Cv, p': Pc) {
    match p
    case DestroyEnter =>
      || (c.gate > 0 && p' == DestroyTry && c' == c.(gate := c.gate - 1))
      || Cancelled(c, c', p')
    case DestroyTry =>
      if c.lock == Free then p' == DestroyTest && c' == c.(lock := By(me))
      else p' == DestroyRetreat && c' == c
    case DestroyRetreat => p' == Idle && c' == c.(gate := c.gate + 1)
    case DestroyTest =>
      if c.blocked > c.gone then p' == DestroyReopen && c' == c
      else p' == Destroyed && c' == c.(alive := false)
    case DestroyReopen => p' == DestroyUnlock && c' == c.(gate := c.gate + 1)
    case DestroyUnlock => p' == Idle && c' == c.(lock := Free)
    case _ => false
  }

  /** A call of pthread_cond_[timed]wait, _signal, _broadcast or _destroy begins. */
  predicate CallMove(c: Cv, p: Pc, c': Cv, p': Pc) {
    && p == Idle && c' == c
    && (p' == EnterGate || p'.SignalLock? || p' == DestroyEnter)
  }

  predicate Move(c: Cv, me: nat, p: Pc, c': Cv, p': Pc) {
    && c.alive
    && (|| CallMove(c, p, c', p') || WaitMove(c, me, p, c', p')
        || UnblockMove(c, me, p, c', p') || DestroyMove(c, me, p, c', p'))
  }

  predicate Step(s: State, t: nat, s': State) {
    && t < |s.pc| == |s'.pc|
    && s'.pc == s.pc[t := s'.pc[t]]
    && Move(s.cv, t, s.pc[t], s'.cv, s'.pc[t])
  }

  // ----- what each thread contributes

  /** Registered in nWaitersBlocked and not yet accounted under mtxUnblockLock. */
  function Registered(p: Pc): int {
    if p.LeaveGate? || p.Queued? || p.Relock? || p.Account? then 1 else 0
  }

  /** Owns one closing of the gate. */
  function Closer(p: Pc): int {
    if p.Register? || p.LeaveGate? || p.FoldSubtract? || p.FoldLeave? || p == AccountUnlock(1)
       || p.Reopen? || p.SignalMove? || p.DestroyTry? || p.DestroyRetreat? || p.DestroyTest?
       || p.DestroyReopen? || p.Destroyed?
    then 1 else 0
  }

  /** Tokens about to be posted, or taken but not yet accounted. */
  function Tokens(p: Pc): int {
    match p
    case Relock(token) => if token then 1 else 0
    case Account(token) => if token then 1 else 0
    case SignalUnlock(n) => n
    case SignalPost(n) => n
    case _ => 0
  }

  /** Tokens committed to but not yet posted. */
  function Unposted(p: Pc): int {
    match p
    case SignalUnlock(n) => n
    case SignalPost(n) => n
    case _ => 0
  }

  predicate HoldsLock(p: Pc) {
    || p.Account? || p.FoldEnter? || p.FoldSubtract? || p.FoldLeave? || p.FoldReset?
    || p.AccountUnlock? || p.SignalTest? || p.SignalClose? || p.SignalMove? || p.SignalUnlock?
    || p.SignalNoop? || p.DestroyTest? || p.DestroyReopen? || p.DestroyUnlock? || p.Destroyed?
  }

  /** Inside the fold. */
  function Folding(p: Pc): int {
    if p.FoldEnter? || p.FoldSubtract? || p.FoldLeave? || p.FoldReset? then 1 else 0
  }

  /** Between the fold's subtraction and its reset, where the departures nWaitersGone still shows
      have already been taken out of nWaitersBlocked. */
  function Subtracted(p: Pc): int {
    if p.FoldLeave? || p.FoldReset? then 1 else 0
  }

  /** What all threads contribute together. */
  datatype Tally = Tally(
    closers: int, registered: int, tokens: int, unposted: int, folding: int, subtracted: int)

  function TallyOf(pc: seq<Pc>): Tally {
    Tally(Sum(pc, Closer), Sum(pc, Registered), Sum(pc, Tokens), Sum(pc, Unposted),
          Sum(pc, Folding), Sum(pc, Subtracted))
  }

  /** The tally after one thread moves from p to p'. */
  function Shift(k: Tally, p: Pc, p': Pc): Tally {
    Tally(k.closers - Closer(p) + Closer(p'), k.registered - Registered(p) + Registered(p'),
          k.tokens - Tokens(p) + Tokens(p'), k.unposted - Unposted(p) + Unposted(p'),
          k.folding - Folding(p) + Folding(p'), k.subtracted - Subtracted(p) + Subtracted(p'))
  }

  /** The tally includes the contribution of a thread at p, and the fold is the lock holder's. */
  predicate Covers(k: Tally, c: Cv, p: Pc) {
    && k.closers >= Closer(p) && k.registered >= Registered(p)
    && k.tokens >= Tokens(p) && k.unposted >= Unposted(p)
    && 0 <= k.subtracted <= k.folding
    && (c.lock == Free ==> k.folding == 0)
    && (HoldsLock(p) ==> k.folding == Folding(p) && k.subtracted == Subtracted(p))
  }

  // ----- the inductive invariant

  /** What a thread at p knows of the shared counters. */
  predicate Local(c: Cv, p: Pc) {
    match p
    case FoldEnter => c.toUnblock == 0 && c.gone == FOLD_AT
    case FoldSubtract => c.toUnblock == 0 && c.gone == FOLD_AT
    case FoldLeave => c.toUnblock == 0 && c.gone == FOLD_AT
    case FoldReset => c.toUnblock == 0 && c.gone == FOLD_AT
    case AccountUnlock(left) => left >= 0 && (left > 0 ==> c.toUnblock == left - 1)
    case SignalClose(_) => c.toUnblock == 0 && c.blocked > c.gone
    case SignalMove(_) => c.toUnblock == 0 && c.blocked > c.gone
    case SignalUnlock(n) => n > 0
    case SignalPost(n) => n > 0
    case Destroyed => !c.alive && c.blocked <= c.gone
    case _ => true
  }

  /** The gate has one owner per closing, the counters count, and no token is lost. */
  predicate Counts(c: Cv, k: Tally) {
    && c.gate >= 0 && c.queue >= 0
    && c.swallowed >= 0
    && c.gate + k.closers + (if c.toUnblock > 0 then 1 else 0) + c.swallowed == 1
    && c.blocked >= 0 && c.toUnblock >= 0
    && 0 <= c.gone <= FOLD_AT
    && (c.gone == FOLD_AT ==> k.folding > 0)
    && (c.toUnblock > 0 ==> c.gone == 0)
    && k.registered == c.blocked + c.toUnblock - (if k.subtracted > 0 then 0 else c.gone)
    && c.queue + k.tokens >= c.toUnblock
    && c.issued == c.taken + c.queue + k.unposted
  }

  /** mtxUnblockLock excludes, and what a thread knows stays true. */
  ghost predicate Locking(s: State) {
    && (forall t :: 0 <= t < |s.pc| ==> (s.cv.lock == By(t) <==> HoldsLock(s.pc[t])))
    && (s.cv.lock.By? ==> s.cv.lock.thread < |s.pc|)
    && (forall t :: 0 <= t < |s.pc| ==> Local(s.cv, s.pc[t]))
  }

  ghost predicate Inv(s: State) {
    Locking(s) && Counts(s.cv, TallyOf(s.pc))
  }

  // ----- one move keeps it

  /** What mtxUnblockLock does in a move of thread me: taken, given back, or left alone. */
  predicate LockMoves(c: Cv, me: nat, c': Cv, p': Pc) {
    && (c'.lock == By(me) <==> HoldsLock(p'))
    && (c'.lock == c.lock || (c.lock == Free && c'.lock == By(me)) || (c.lock == By(me) && c'.lock == Free))
  }

  lemma EnterCounts(c: Cv, p: Pc, c': Cv, p': Pc, k: Tally)
    requires EnterMove(c, p, c', p') && Counts(c, k) && Covers(k, c, p)
    ensures Counts(c', Shift(k, p, p'))
  {
  }

  lemma CleanupCounts(c: Cv, me: nat, p: Pc, c': Cv, p': Pc, k: Tally)
    requires CleanupMove(c, me, p, c', p')
    requires Counts(c, k) && Covers(k, c, p) && Local(c, p)
    requires c.lock == By(me) <==> HoldsLock(p)
    ensures Counts(c', Shift(k, p, p'))
  {
  }

  lemma WaitCounts(c: Cv, me: nat, p: Pc, c': Cv, p': Pc, k: Tally)
    requires WaitMove(c, me, p, c', p')
    requires Counts(c, k) && Covers(k, c, p) && Local(c, p)
    requires c.lock == By(me) <==> HoldsLock(p)
    ensures Counts(c', Shift(k, p, p'))
  {
    if EnterMove(c, p, c', p') {
      EnterCounts(c, p, c', p', k);
    } else {
      CleanupCounts(c, me, p, c', p', k);
    }
  }

  lemma EnterLocal(c: Cv, me: nat, p: Pc, c': Cv, p': Pc)
    requires EnterMove(c, p, c', p') && (c.lock == By(me) <==> HoldsLock(p))
    ensures Local(c', p') && LockMoves(c, me, c', p')
  {
  }

  lemma CleanupLocal(c: Cv, me: nat, p: Pc, c': Cv, p': Pc, k: Tally)
    requires CleanupMove(c, me, p, c', p')
    requires Counts(c, k) && Covers(k, c, p) && Local(c, p)
    requires c.lock == By(me) <==> HoldsLock(p)
    ensures Local(c', p') && LockMoves(c, me, c', p')
  {
  }

  lemma UnblockCounts(c: Cv, me: nat, p: Pc, c': Cv, p': Pc, k: Tally)
    requires UnblockMove(c, me, p, c', p')
    requires Counts(c, k) && Covers(k, c, p) && Local(c, p)
    requires c.lock == By(me) <==> HoldsLock(p)
    ensures Counts(c', Shift(k, p, p'))
  {
  }

  lemma UnblockLocal(c: Cv, me: nat, p: Pc, c': Cv, p': Pc, k: Tally)
    requires UnblockMove(c, me, p, c', p')
    requires Counts(c, k) && Covers(k, c, p) && Local(c, p)
    requires c.lock == By(me) <==> HoldsLock(p)
    ensures Local(c', p') && LockMoves(c, me, c', p')
  {
  }

  lemma DestroyCounts(c: Cv, me: nat, p: Pc, c': Cv, p': Pc, k: Tally)
    requires (DestroyMove(c, me, p, c', p') || CallMove(c, p, c', p'))
    requires Counts(c, k) && Covers(k, c, p) && Local(c, p)
    requires c.lock == By(me) <==> HoldsLock(p)
    ensures Counts(c', Shift(k, p, p'))
  {
  }

  lemma DestroyLocal(c: Cv, me: nat, p: Pc, c': Cv, p': Pc, k: Tally)
    requires (DestroyMove(c, me, p, c', p') || CallMove(c, p, c', p'))
    requires Counts(c, k) && Covers(k, c, p) && Local(c, p)
    requires c.lock == By(me) <==> HoldsLock(p)
    ensures Local(c', p') && LockMoves(c, me, c', p')
  {
  }

  /** A move leaves alone the counters that another thread, holding mtxUnblockLock, relies on. */
  predicate LeavesAlone(c: Cv, c': Cv) {
    c'.toUnblock == c.toUnblock && c'.gone == c.gone && c'.blocked >= c.blocked && c'.alive == c.alive
  }

  lemma WaitOthers(c: Cv, me: nat, p: Pc, c': Cv, p': Pc)
    requires !HoldsLock(p) && c.lock != Free
    ensures WaitMove(c, me, p, c', p') ==> LeavesAlone(c, c')
  {
  }

  lemma UnblockOthers(c: Cv, me: nat, p: Pc, c': Cv, p': Pc)
    requires !HoldsLock(p) && c.lock != Free
    ensures UnblockMove(c, me, p, c', p') ==> LeavesAlone(c, c')
  {
  }

  lemma DestroyOthers(c: Cv, me: nat, p: Pc, c': Cv, p': Pc)
    requires !HoldsLock(p) && c.lock != Free
    ensures DestroyMove(c, me, p, c', p') ==> LeavesAlone(c, c')
  {
  }

  lemma MoveOthers(c: Cv, me: nat, p: Pc, c': Cv, p': Pc)
    requires Move(c, me, p, c', p') && !HoldsLock(p) && c.lock != Free
    ensures LeavesAlone(c, c')
  {
    WaitOthers(c, me, p, c', p');
    UnblockOthers(c, me, p, c', p');
    DestroyOthers(c, me, p, c', p');
  }

  lemma OtherLocal(c: Cv, c': Cv, q: Pc)
    requires Local(c, q)
    requires HoldsLock(q) ==> LeavesAlone(c, c') && c.alive
    ensures Local(c', q)
  {
  }

  lemma TallyMove(pc: seq<Pc>, t: nat, p': Pc)
    requires t < |pc|
    ensures TallyOf(pc[t := p']) == Shift(TallyOf(pc), pc[t], p')
  {
    SumUpdate(pc, t, p', Closer);
    SumUpdate(pc, t, p', Registered);
    SumUpdate(pc, t, p', Tokens);
    SumUpdate(pc, t, p', Unposted);
    SumUpdate(pc, t, p', Folding);
    SumUpdate(pc, t, p', Subtracted);
  }

  lemma TallyCovers(s: State, t: nat)
    requires Inv(s) && t < |s.pc|
    ensures Covers(TallyOf(s.pc), s.cv, s.pc[t])
  {
    assert forall i :: 0 <= i < |s.pc| ==> Local(s.cv, s.pc[i]);
    SumBoundsOne(s.pc, t, Closer);
    SumBoundsOne(s.pc, t, Registered);
    SumBoundsOne(s.pc, t, Tokens);
    SumBoundsOne(s.pc, t, Unposted);
    SumNonNegative(s.pc, Subtracted);
    SumOrdered(s.pc, Subtracted, Folding);
    FoldIsHolders(s, t);
  }

  /** Only the holder of mtxUnblockLock can be folding. */
  lemma FoldIsHolders(s: State, t: nat)
    requires Locking(s) && t < |s.pc|
    ensures s.cv.lock == Free ==> Sum(s.pc, Folding) == 0
    ensures HoldsLock(s.pc[t]) ==>
      Sum(s.pc, Folding) == Folding(s.pc[t]) && Sum(s.pc, Subtracted) == Subtracted(s.pc[t])
  {
    if s.cv.lock == Free {
      SumZero(s.pc, Folding);
    } else if HoldsLock(s.pc[t]) {
      var others := s.pc[t := Idle];
      assert forall i :: 0 <= i < |others| ==> !HoldsLock(others[i]);
      SumZero(others, Folding);
      SumZero(others, Subtracted);
      SumUpdate(s.pc, t, Idle, Folding);
      SumUpdate(s.pc, t, Idle, Subtracted);
    }
  }

  lemma StepCounts(s: State, t: nat, s': State)
    requires Inv(s) && Step(s, t, s')
    ensures Counts(s'.cv, TallyOf(s'.pc))
  {
    var p, p', k := s.pc[t], s'.pc[t], TallyOf(s.pc);
    TallyCovers(s, t);
    TallyMove(s.pc, t, p');
    if WaitMove(s.cv, t, p, s'.cv, p') {
      WaitCounts(s.cv, t, p, s'.cv, p', k);
    } else if UnblockMove(s.cv, t, p, s'.cv, p') {
      UnblockCounts(s.cv, t, p, s'.cv, p', k);
    } else {
      DestroyCounts(s.cv, t, p, s'.cv, p', k);
    }
  }

  lemma MoveLocal(c: Cv, me: nat, p: Pc, c': Cv, p': Pc, k: Tally)
    requires Move(c, me, p, c', p')
    requires Counts(c, k) && Covers(k, c, p) && Local(c, p)
    requires c.lock == By(me) <==> HoldsLock(p)
    ensures Local(c', p') && LockMoves(c, me, c', p')
  {
    if EnterMove(c, p, c', p') {
      EnterLocal(c, me, p, c', p');
    } else if CleanupMove(c, me, p, c', p') {
      CleanupLocal(c, me, p, c', p', k);
    } else if UnblockMove(c, me, p, c', p') {
      UnblockLocal(c, me, p, c', p', k);
    } else {
      DestroyLocal(c, me, p, c', p', k);
    }
  }

  lemma StepLocking(s: State, t: nat, s': State)
    requires Inv(s) && Step(s, t, s')
    ensures Locking(s')
  {
    var p, p' := s.pc[t], s'.pc[t];
    TallyCovers(s, t);
    MoveLocal(s.cv, t, p, s'.cv, p', TallyOf(s.pc));
    forall u | 0 <= u < |s'.pc|
      ensures s'.cv.lock == By(u) <==> HoldsLock(s'.pc[u])
      ensures Local(s'.cv, s'.pc[u])
    {
      if u != t {
        if HoldsLock(s.pc[u]) {
          MoveOthers(s.cv, t, p, s'.cv, p');
        }
        OtherLocal(s.cv, s'.cv, s.pc[u]);
      }
    }
  }

  lemma InitInv(s: State)
    requires Init(s)
    ensures Inv(s)
  {
    SumZero(s.pc, Closer);
    SumZero(s.pc, Registered);
    SumZero(s.pc, Tokens);
    SumZero(s.pc, Unposted);
    SumZero(s.pc, Folding);
    SumZero(s.pc, Subtracted);
  }

  // ----- runs

  ghost predicate Next(s: State, s': State) {
    exists t: nat :: Step(s, t, s')
  }

  ghost predicate Reachable(s: State) {
    Runs.Reachable(s, Init, Next)
  }

  lemma ReachableInv(s: State)
    requires Reachable(s)
    ensures Inv(s)
  {
    forall s0 | Init(s0) ensures Inv(s0) {
      InitInv(s0);
    }
    forall s0, s1 | Inv(s0) && Next(s0, s1) ensures Inv(s1) {
      var t: nat :| Step(s0, t, s1);
      StepCounts(s0, t, s1);
      StepLocking(s0, t, s1);
    }
    Runs.Invariant(s, Init, Next, Inv);
  }
}
