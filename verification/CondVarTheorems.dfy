/** What the condition variable guarantees in every state of every run. */
module CondVarTheorems {
  import opened Basics
  import opened Counting
  import opened CondVar
  import Runs

  // ----- counting

  /** Whenever mtxUnblockLock is free, the threads registered and not yet accounted are exactly
      nWaitersBlocked + nWaitersToUnblock - nWaitersGone, no counter is negative, departures are
      pending only while no batch is being unblocked, and the fold keeps them below INT_MAX / 2. */
  lemma Conservation(s: State)
    requires Reachable(s)
    ensures s.cv.blocked >= 0 && s.cv.gone >= 0 && s.cv.toUnblock >= 0
    ensures s.cv.toUnblock > 0 ==> s.cv.gone == 0
    ensures s.cv.lock == Free ==>
      Sum(s.pc, Registered) == s.cv.blocked + s.cv.toUnblock - s.cv.gone && s.cv.gone < FOLD_AT
  {
    ReachableInv(s);
    if s.cv.lock == Free {
      SumZero(s.pc, Folding);
      SumZero(s.pc, Subtracted);
    }
  }

  /** The counters of the C type long never overflow for up to INT_MAX - INT_MAX / 2, that is 2^30, threads. */
  lemma NoOverflow(s: State)
    requires Reachable(s) && |s.pc| <= INT_MAX - FOLD_AT
    ensures s.cv.blocked <= INT_MAX && s.cv.toUnblock <= INT_MAX && s.cv.gone <= INT_MAX
  {
    ReachableInv(s);
    SumAtMostLength(s.pc, Registered);
  }

  /** Every wakeup committed to was taken by a waiter, sits in the queue, or is about to be posted. */
  lemma WakeupsConserved(s: State)
    requires Reachable(s)
    ensures s.cv.issued == s.cv.taken + s.cv.queue + Sum(s.pc, Unposted)
    ensures s.cv.queue >= 0 && Sum(s.pc, Unposted) >= 0
  {
    ReachableInv(s);
    assert forall t :: 0 <= t < |s.pc| ==> Local(s.cv, s.pc[t]);
    SumNonNegative(s.pc, Unposted);
  }

  // ----- the gate

  ghost predicate OnlyCloser(s: State, t: nat) {
    && t < |s.pc| && Closer(s.pc[t]) == 1
    && forall u :: 0 <= u < |s.pc| && u != t ==> Closer(s.pc[u]) == 0
  }

  /** semBlockLock is a binary semaphore, and a closed gate has exactly one owner: a thread that
      was cancelled while it waited for the gate, or the batch being unblocked, or one thread. */
  lemma GateHasOneOwner(s: State)
    requires Reachable(s)
    ensures 0 <= s.cv.gate <= 1 && 0 <= s.cv.swallowed <= 1
    ensures s.cv.gate == 0 <==> s.cv.swallowed == 1 || s.cv.toUnblock > 0 || exists t :: OnlyCloser(s, t)
    ensures s.cv.swallowed == 1 ==> s.cv.toUnblock == 0
    ensures s.cv.swallowed == 1 || s.cv.toUnblock > 0 ==> forall t :: 0 <= t < |s.pc| ==> Closer(s.pc[t]) == 0
  {
    ReachableInv(s);
    forall t | 0 <= t < |s.pc| ensures Closer(s.pc[t]) <= Sum(s.pc, Closer) {
      SumBoundsOne(s.pc, t, Closer);
    }
    SumNonNegative(s.pc, Closer);
    if s.cv.gate == 0 && s.cv.toUnblock == 0 && s.cv.swallowed == 0 {
      var t := SumWitness(s.pc, Closer);
      forall u | 0 <= u < |s.pc| && u != t ensures Closer(s.pc[u]) == 0 {
        SumBoundsPair(s.pc, if t < u then t else u, if t < u then u else t, Closer);
      }
      assert OnlyCloser(s, t);
    }
  }

  /** About to write nWaitersBlocked. */
  predicate WritesBlocked(c: Cv, p: Pc) {
    || p.Register? || p.FoldSubtract? || p.SignalMove?
    || (p.SignalTest? && c.toUnblock != 0 && c.blocked != 0)
  }

  /** nWaitersBlocked, which no single lock guards, is never written by two threads at once. */
  lemma BlockedHasOneWriter(s: State, t: nat, u: nat)
    requires Reachable(s) && t < |s.pc| && u < |s.pc|
    requires WritesBlocked(s.cv, s.pc[t]) && WritesBlocked(s.cv, s.pc[u])
    ensures t == u
  {
    if t != u {
      SumBoundsPair(s.pc, if t < u then t else u, if t < u then u else t, Closer);
      SumBoundsOne(s.pc, t, Closer);
      SumBoundsOne(s.pc, u, Closer);
      ReachableInv(s);
    }
  }

  // ----- what a signal does

  /** The unlocked-gate test nWaitersBlocked > nWaitersGone still holds once the gate is closed. */
  lemma TestStillHolds(s: State, t: nat)
    requires Reachable(s) && t < |s.pc| && s.pc[t].SignalMove?
    ensures s.cv.blocked > s.cv.gone && s.cv.toUnblock == 0 && s.cv.gate == 0 && s.cv.swallowed == 0
  {
    ReachableInv(s);
    SumBoundsOne(s.pc, t, Closer);
  }

  /** A signal or broadcast is a no-op exactly when every registered waiter already has a wakeup;
      otherwise the step that commits gives one wakeup more, or one to every registered waiter. */
  lemma SignalIsExact(s: State, t: nat, s': State)
    requires Reachable(s) && Step(s, t, s') && (s.pc[t].SignalTest? || s.pc[t].SignalMove?)
    ensures s'.pc[t].SignalNoop? <==> Sum(s.pc, Registered) == s.cv.toUnblock
    ensures s'.pc[t].SignalUnlock? ==>
      && s'.cv.toUnblock == (if s.pc[t].all then Sum(s.pc, Registered) else s.cv.toUnblock + 1)
      && s'.cv.issued - s.cv.issued == s'.cv.toUnblock - s.cv.toUnblock == s'.pc[t].n
      && s'.cv.blocked == Sum(s.pc, Registered) - s'.cv.toUnblock
  {
    ReachableInv(s);
    FoldIsHolders(s, t);
    SumNonNegative(s.pc, Registered);
  }

  // ----- destruction

  predicate Outside(p: Pc) {
    p.Idle? || p.EnterGate? || p.SignalLock? || p.SignalPost? || p.DestroyEnter?
  }

  /** A swallowed token is never given back, and only the test of pthread_cond_destroy ends the
      variable. */
  predicate Lasting(c: Cv, p: Pc, c': Cv) {
    c'.swallowed >= c.swallowed && (c.alive && !c'.alive ==> p.DestroyTest? && c.blocked <= c.gone)
  }

  lemma EnterLasting(c: Cv, p: Pc, c': Cv, p': Pc)
    ensures EnterMove(c, p, c', p') ==> Lasting(c, p, c')
  {
  }

  lemma CleanupLasting(c: Cv, me: nat, p: Pc, c': Cv, p': Pc)
    ensures CleanupMove(c, me, p, c', p') ==> Lasting(c, p, c')
  {
  }

  lemma UnblockLasting(c: Cv, me: nat, p: Pc, c': Cv, p': Pc)
    ensures UnblockMove(c, me, p, c', p') ==> Lasting(c, p, c')
  {
  }

  lemma DestroyLasting(c: Cv, me: nat, p: Pc, c': Cv, p': Pc)
    ensures DestroyMove(c, me, p, c', p') ==> Lasting(c, p, c')
  {
  }

  lemma MoveLasting(c: Cv, me: nat, p: Pc, c': Cv, p': Pc)
    requires Move(c, me, p, c', p')
    ensures Lasting(c, p, c')
  {
    EnterLasting(c, p, c', p');
    CleanupLasting(c, me, p, c', p');
    UnblockLasting(c, me, p, c', p');
    DestroyLasting(c, me, p, c', p');
  }

  lemma AloneAtTest(s: State, t: nat, u: nat)
    requires Reachable(s) && t < |s.pc| && s.pc[t].DestroyTest? && u < |s.pc| && u != t
    requires Sum(s.pc, Registered) == 0
    ensures Outside(s.pc[u])
  {
    GateHasOneOwner(s);
    SumBoundsPair(s.pc, if t < u then t else u, if t < u then u else t, Closer);
    SumBoundsOne(s.pc, u, Registered);
    ReachableInv(s);
    assert s.cv.lock == By(t) && (s.cv.lock == By(u) <==> HoldsLock(s.pc[u]));
  }

  /** pthread_cond_destroy of an initialised variable succeeds only when no registered waiter is
      left, and then every other thread is outside all the regions that use the counters. */
  lemma DestroyNeedsNoWaiter(s: State, t: nat, s': State)
    requires Reachable(s) && Step(s, t, s') && !s'.cv.alive
    ensures Sum(s.pc, Registered) == 0
    ensures forall u :: 0 <= u < |s.pc| && u != t ==> Outside(s.pc[u])
  {
    MoveLasting(s.cv, t, s.pc[t], s'.cv, s'.pc[t]);
    ReachableInv(s);
    FoldIsHolders(s, t);
    SumBoundsOne(s.pc, t, Closer);
    SumNonNegative(s.pc, Registered);
    forall u | 0 <= u < |s.pc| && u != t ensures Outside(s.pc[u]) {
      AloneAtTest(s, t, u);
    }
  }

  /** pthread_cond_destroy succeeds exactly when no waiter is registered, once it has closed the gate
      and got mtxUnblockLock; and it gives up before only when it finds that lock taken. */
  lemma DestroyDecides(s: State, t: nat, s': State)
    requires Reachable(s) && Step(s, t, s')
    ensures s.pc[t].DestroyTry? ==> s'.pc[t] == if s.cv.lock == Free then DestroyTest else DestroyRetreat
    ensures s.pc[t].DestroyTest? ==>
      s'.pc[t] == if Sum(s.pc, Registered) == 0 then Destroyed else DestroyReopen
  {
    if s.pc[t].DestroyTest? {
      SumNonNegative(s.pc, Registered);
      GateHasOneOwner(s);
      ReachableInv(s);
      FoldIsHolders(s, t);
    }
  }

  // ----- nothing gets stuck

  /** The thread at p can take its next step, not counting new calls, timeouts and cancellation. */
  predicate CanAdvance(c: Cv, p: Pc) {
    match p
    case Idle => false
    case EnterGate => c.gate > 0
    case Queued => c.queue > 0
    case Relock(_) => c.lock == Free
    case FoldEnter => c.gate > 0
    case SignalLock(_) => c.lock == Free
    case SignalClose(_) => c.gate > 0
    case DestroyEnter => c.gate > 0
    case Destroyed => false
    case _ => true
  }

  /** Steps left in the call at most. */
  function Rank(p: Pc): int {
    match p
    case Idle => 0
    case EnterGate => 13
    case Register => 12
    case LeaveGate => 11
    case Queued => 10
    case Relock(_) => 9
    case Account(_) => 8
    case FoldEnter => 7
    case FoldSubtract => 6
    case FoldLeave => 5
    case FoldReset => 4
    case AccountUnlock(_) => 3
    case Reopen => 1
    case SignalLock(_) => 6
    case SignalTest(_) => 5
    case SignalClose(_) => 4
    case SignalMove(_) => 3
    case SignalUnlock(_) => 2
    case SignalPost(_) => 1
    case SignalNoop => 1
    case DestroyEnter => 6
    case DestroyTry => 5
    case DestroyRetreat => 1
    case DestroyTest => 4
    case DestroyReopen => 3
    case DestroyUnlock => 2
    case Destroyed => 0
  }

  /** Leaving a semaphore wait without a token. */
  predicate GivesUp(p: Pc, p': Pc) {
    || (p.EnterGate? && p' == Idle)
    || (p.Queued? && p' == Relock(false))
    || (p.DestroyEnter? && p' == Idle)
  }

  /** CanAdvance is exactly the existence of a move that neither starts a call nor gives up. */
  lemma AdvanceIsAMove(c: Cv, me: nat, p: Pc)
    requires c.alive
    ensures CanAdvance(c, p) <==>
      exists c', p' :: Move(c, me, p, c', p') && p != Idle && !GivesUp(p, p')
  {
    if CanAdvance(c, p) {
      var c', p' := Advance(c, me, p);
    }
  }

  lemma Advance(c: Cv, me: nat, p: Pc) returns (c': Cv, p': Pc)
    requires c.alive && CanAdvance(c, p)
    ensures Move(c, me, p, c', p') && p != Idle && !GivesUp(p, p')
  {
    c', p' := c, p;
    match p {
      case EnterGate => c', p' := c.(gate := c.gate - 1), Register;
      case Register => c', p' := c.(blocked := c.blocked + 1), LeaveGate;
      case LeaveGate => c', p' := c.(gate := c.gate + 1), Queued;
      case Queued => c', p' := c.(queue := c.queue - 1, taken := c.taken + 1), Relock(true);
      case Relock(token) => c', p' := c.(lock := By(me)), Account(token);
      case Account(_) =>
        if c.toUnblock != 0 {
          c', p' := c.(toUnblock := c.toUnblock - 1), AccountUnlock(c.toUnblock);
        } else {
          c', p' := c.(gone := c.gone + 1), if c.gone + 1 == FOLD_AT then FoldEnter else AccountUnlock(0);
        }
      case FoldEnter => c', p' := c.(gate := c.gate - 1), FoldSubtract;
      case FoldSubtract => c', p' := c.(blocked := c.blocked - c.gone), FoldLeave;
      case FoldLeave => c', p' := c.(gate := c.gate + 1), FoldReset;
      case FoldReset => c', p' := c.(gone := 0), AccountUnlock(0);
      case AccountUnlock(left) => c', p' := c.(lock := Free), if left == 1 then Reopen else Idle;
      case Reopen => c', p' := c.(gate := c.gate + 1), Idle;
      case SignalLock(all) => c', p' := c.(lock := By(me)), SignalTest(all);
      case SignalTest(all) =>
        if c.toUnblock != 0 && c.blocked != 0 {
          var n := if all then c.blocked else 1;
          c', p' := c.(toUnblock := c.toUnblock + n, blocked := c.blocked - n, issued := c.issued + n), SignalUnlock(n);
        } else {
          p' := if c.toUnblock == 0 && c.blocked > c.gone then SignalClose(all) else SignalNoop;
        }
      case SignalClose(all) => c', p' := c.(gate := c.gate - 1), SignalMove(all);
      case SignalMove(all) =>
        var blocked := if c.gone != 0 then c.blocked - c.gone else c.blocked;
        var n := if all then blocked else 1;
        c', p' := c.(gone := 0, toUnblock := n, blocked := blocked - n, issued := c.issued + n), SignalUnlock(n);
      case SignalUnlock(n) => c', p' := c.(lock := Free), SignalPost(n);
      case SignalPost(n) => c', p' := c.(queue := c.queue + n), Idle;
      case SignalNoop => c', p' := c.(lock := Free), Idle;
      case DestroyEnter => c', p' := c.(gate := c.gate - 1), DestroyTry;
      case DestroyTry =>
        if c.lock == Free { c', p' := c.(lock := By(me)), DestroyTest; } else { p' := DestroyRetreat; }
      case DestroyRetreat => c', p' := c.(gate := c.gate + 1), Idle;
      case DestroyTest =>
        if c.blocked > c.gone { p' := DestroyReopen; } else { c', p' := c.(alive := false), Destroyed; }
      case DestroyReopen => c', p' := c.(gate := c.gate + 1), DestroyUnlock;
      case DestroyUnlock => c', p' := c.(lock := Free), Idle;
    }
  }

  ghost predicate Quiescent(s: State) {
    forall t :: 0 <= t < |s.pc| ==> !CanAdvance(s.cv, s.pc[t])
  }

  /** While the gate is closed for a batch, some thread can take a step. */
  lemma BatchProgress(s: State) returns (t: nat)
    requires Reachable(s) && s.cv.alive && s.cv.toUnblock > 0
    ensures t < |s.pc| && CanAdvance(s.cv, s.pc[t])
  {
    ReachableInv(s);
    if s.cv.lock.By? {
      t := s.cv.lock.thread;
      assert HoldsLock(s.pc[t]) && Local(s.cv, s.pc[t]);
    } else if s.cv.queue == 0 {
      t := SumWitness(s.pc, Tokens);
    } else {
      Conservation(s);
      t := SumWitness(s.pc, Registered);
    }
  }

  /** So can the thread that closed the gate on its own, and hence somebody whenever
      mtxUnblockLock is held. */
  lemma HolderProgress(s: State) returns (t: nat)
    requires Reachable(s) && s.cv.alive && s.cv.toUnblock == 0 && s.cv.swallowed == 0
    requires s.cv.gate == 0 || s.cv.lock.By?
    ensures t < |s.pc| && CanAdvance(s.cv, s.pc[t])
  {
    ReachableInv(s);
    if s.cv.gate == 0 {
      t := SumWitness(s.pc, Closer);
    } else {
      SumNonNegative(s.pc, Closer);
      t := s.cv.lock.thread;
    }
    assert Local(s.cv, s.pc[t]) && (s.cv.lock == By(t) <==> HoldsLock(s.pc[t]));
  }

  /** No lost wakeup, no stuck thread.  When nothing can move on but by a new call, a timeout or a
      cancellation, and no cancelled thread has swallowed the gate's token, then the gate is open,
      no batch is pending, every thread is outside or waits in the queue, the waiting threads are
      exactly nWaitersBlocked - nWaitersGone, and if one still waits then every wakeup that was
      ever committed to has been taken by some waiter.  The gate is open exactly when no token was
      swallowed. */
  lemma QuiescentIsDrained(s: State)
    requires Reachable(s) && s.cv.alive && Quiescent(s)
    ensures s.cv.gate == 1 <==> s.cv.swallowed == 0
    ensures s.cv.swallowed == 0 ==>
      && s.cv.lock == Free && s.cv.toUnblock == 0
      && (forall t :: 0 <= t < |s.pc| ==> s.pc[t] == Idle || s.pc[t] == Queued)
      && Sum(s.pc, Registered) == s.cv.blocked - s.cv.gone
      && ((exists t :: 0 <= t < |s.pc| && s.pc[t] == Queued) ==> s.cv.queue == 0 && s.cv.issued == s.cv.taken)
  {
    Conservation(s);
    GateHasOneOwner(s);
    if s.cv.toUnblock > 0 {
      var t := BatchProgress(s);
    } else if s.cv.swallowed == 0 && (s.cv.gate == 0 || s.cv.lock.By?) {
      var t := HolderProgress(s);
    } else if s.cv.swallowed == 0 {
      QuiescentThreads(s);
    }
  }

  lemma QuiescentThreads(s: State)
    requires Reachable(s) && s.cv.alive && Quiescent(s)
    requires s.cv.gate == 1 && s.cv.lock == Free && s.cv.toUnblock == 0
    ensures forall t :: 0 <= t < |s.pc| ==> s.pc[t] == Idle || s.pc[t] == Queued
    ensures (exists t :: 0 <= t < |s.pc| && s.pc[t] == Queued) ==> s.cv.queue == 0 && s.cv.issued == s.cv.taken
  {
    ReachableInv(s);
    forall t | 0 <= t < |s.pc| ensures s.pc[t] == Idle || s.pc[t] == Queued {
      assert !CanAdvance(s.cv, s.pc[t]) && Local(s.cv, s.pc[t]);
    }
    SumZero(s.pc, Unposted);
  }

  /** Every step but a new call brings the system nearer to that. */
  lemma RankFalls(s: State, t: nat, s': State)
    requires Step(s, t, s') && s.pc[t] != Idle
    ensures Sum(s'.pc, Rank) < Sum(s.pc, Rank)
  {
    SumUpdate(s.pc, t, s'.pc[t], Rank);
  }

  /** So from any state at most Sum(Rank) steps can follow without a new call. */
  lemma {:induction false} DrainEnds(run: seq<State>, who: seq<nat>)
    requires |run| == |who| + 1
    requires forall i :: 0 <= i < |who| ==> Step(run[i], who[i], run[i + 1]) && run[i].pc[who[i]] != Idle
    ensures |who| <= Sum(run[0].pc, Rank)
  {
    if |who| == 0 {
      SumNonNegative(run[0].pc, Rank);
    } else {
      RankFalls(run[0], who[0], run[1]);
      DrainEnds(run[1..], who[1..]);
    }
  }

  lemma Then(s: State, t: nat, c': Cv, p': Pc) returns (s': State)
    requires Reachable(s) && t < |s.pc| && Move(s.cv, t, s.pc[t], c', p')
    ensures s' == State(c', s.pc[t := p']) && Reachable(s')
  {
    s' := State(c', s.pc[t := p']);
    assert Step(s, t, s');
    Runs.Extend(s, s', Init, Next);
  }

  /** One thread registers and closes the gate, and another waits there. */
  lemma OneAtTheGate() returns (s: State)
    ensures Reachable(s) && s == State(Cv(0, 0, 0, 0, 0, Free, true, 0, 0, 0), [Register, EnterGate, Idle])
  {
    s := State(Cv(0, 0, 0, 1, 0, Free, true, 0, 0, 0), [Idle, Idle, Idle]);
    assert Runs.IsRun([s], Init, Next);
    s := Then(s, 0, s.cv, EnterGate);
    s := Then(s, 0, s.cv.(gate := 0), Register);
    s := Then(s, 1, s.cv, EnterGate);
  }

  /** Cancelling a waiter at the gate can indeed strand the next one for good: three threads suffice.
      The first closes the gate to register, the second is cancelled while it waits there and takes
      the token the first posts, and the third finds the gate closed. */
  lemma CancelledEntryStrands() returns (s: State)
    ensures Reachable(s) && s.cv.alive && Quiescent(s)
    ensures s.cv.gate == 0 && s.cv.swallowed == 1 && s.pc == [Queued, Idle, EnterGate]
  {
    s := OneAtTheGate();
    s := Then(s, 0, s.cv.(blocked := 1), LeaveGate);
    s := Then(s, 0, s.cv.(gate := 1), Queued);
    s := Then(s, 1, s.cv.(gate := 0, swallowed := 1), Idle);
    s := Then(s, 2, s.cv, EnterGate);
  }

  /** From then on no thread enters or closes the gate again. */
  lemma SwallowedForEver(s: State, t: nat, s': State)
    requires Reachable(s) && Step(s, t, s') && s.cv.swallowed == 1
    ensures s'.cv.swallowed == 1 && s'.cv.gate == 0 && Closer(s'.pc[t]) == 0
  {
    MoveLasting(s.cv, t, s.pc[t], s'.cv, s'.pc[t]);
    Runs.Extend(s, s', Init, Next);
    GateHasOneOwner(s');
  }
}
