/** The barrier of pthreads-win32: a height that counts down, and two semaphores used in turn.

    As many threads as the barrier's height use it again and again.  The semaphores are atomic
    counters here: Semaphore shows that they refine them. */
module Barrier {
  import opened Counting
  import Runs

  /** phase is how often the height has been reset, serials how often a call returned
      PTHREAD_BARRIER_SERIAL_THREAD; no step depends on either. */
  datatype Mem = Mem(height: int, iStep: int, sem0: int, sem1: int, phase: int, serials: int)

  /** k is how many calls the thread has made before the present or next one. */
  datatype Pc =
    | Outside(k: int, serial: bool)
    | Read(k: int)
    | Decrement(k: int, step: int)
    | Reset(k: int, step: int)
    | Post(k: int, step: int)
    | Wait(k: int, step: int)
    | Exchange(k: int, step: int)

  datatype State = State(mem: Mem, pc: seq<Pc>)

  ghost predicate Init(s: State) {
    && |s.pc| > 0 && s.mem == Mem(|s.pc|, 0, 0, 0, 0, 0)
    && forall t :: 0 <= t < |s.pc| ==> s.pc[t] == Outside(0, false)
  }

  function Sem(m: Mem, step: int): int {
    if step == 0 then m.sem0 else m.sem1
  }

  function WithSem(m: Mem, step: int, v: int): Mem {
    if step == 0 then m.(sem0 := v) else m.(sem1 := v)
  }

  // ----- the steps: a thread moves from p to p'; n is nInitialBarrierHeight

  predicate Move(n: int, m: Mem, p: Pc, m': Mem, p': Pc) {
    match p
    case Outside(k, _) => m' == m && p' == Read(k)
    case Read(k) => m' == m && p' == Decrement(k, m.iStep)
    case Decrement(k, step) =>
      m' == m.(height := m.height - 1) && p' == if m.height - 1 == 0 then Reset(k, step) else Wait(k, step)
    case Reset(k, step) =>
      m' == m.(height := n, phase := m.phase + 1) && p' == if n > 1 then Post(k, step) else Exchange(k, step)
    case Post(k, step) => m' == WithSem(m, step, Sem(m, step) + (n - 1)) && p' == Exchange(k, step)
    case Wait(k, step) => Sem(m, step) > 0 && m' == WithSem(m, step, Sem(m, step) - 1) && p' == Exchange(k, step)
    case Exchange(k, step) =>
      if m.iStep == step then m' == m.(iStep := 1 - step, serials := m.serials + 1) && p' == Outside(k + 1, true)
      else m' == m && p' == Outside(k + 1, false)
  }

  predicate Step(s: State, t: nat, s': State) {
    && t < |s.pc| == |s'.pc|
    && s'.pc == s.pc[t := s'.pc[t]]
    && Move(|s.pc|, s.mem, s.pc[t], s'.mem, s'.pc[t])
  }

  // ----- what each thread contributes while the height counts phase number now

  /** Has counted the height down. */
  function Entered(now: int, p: Pc): int {
    if p.k == now && (p.Reset? || p.Wait?) then 1 else 0
  }

  /** Has left the phase before. */
  function Passed(now: int, p: Pc): int {
    if p.k == now then 1 else 0
  }

  /** Still to take a token of the phase before. */
  function Leaving(now: int, p: Pc): int {
    if p.k == now - 1 && p.Wait? then 1 else 0
  }

  function Posting(p: Pc): int {
    if p.Post? then 1 else 0
  }

  function Resetting(p: Pc): int {
    if p.Reset? then 1 else 0
  }

  datatype Tally = Tally(entered: int, passed: int, leaving: int, posting: int, resetting: int)

  function TallyOf(now: int, pc: seq<Pc>): Tally {
    Tally(Sum(pc, p => Entered(now, p)), Sum(pc, p => Passed(now, p)), Sum(pc, p => Leaving(now, p)),
          Sum(pc, Posting), Sum(pc, Resetting))
  }

  function Plus(now: int, k: Tally, p: Pc): Tally {
    Tally(k.entered + Entered(now, p), k.passed + Passed(now, p), k.leaving + Leaving(now, p),
          k.posting + Posting(p), k.resetting + Resetting(p))
  }

  // ----- the inductive invariant

  /** A thread is in the present phase or, with the height already reset, in the one before. */
  predicate Local(now: int, p: Pc) {
    && (p.Decrement? || p.Reset? || p.Post? || p.Wait? || p.Exchange? ==> p.step == p.k % 2)
    && (|| (p.k == now && !p.Post? && !p.Exchange?)
        || (p.k == now - 1 && (p.Post? || p.Wait? || p.Exchange?)))
  }

  predicate Counts(n: int, m: Mem, k: Tally) {
    && m.phase >= 0
    && m.height == n - k.entered && m.height >= 0
    && k.resetting == (if m.height == 0 then 1 else 0)
    && Sem(m, m.phase % 2) == 0
    && Sem(m, (m.phase + 1) % 2) == (if k.posting > 0 then 0 else k.leaving)
    && (k.posting > 0 ==> k.posting == 1 && k.leaving == n - 1 && k.passed == 0)
    && m.iStep == (if k.passed > 0 then m.phase % 2 else (m.phase + 1) % 2)
    && m.serials == (if k.passed > 0 then m.phase else m.phase - 1)
  }

  ghost predicate Inv(s: State) {
    && |s.pc| > 0
    && Counts(|s.pc|, s.mem, TallyOf(s.mem.phase, s.pc))
    && forall t :: 0 <= t < |s.pc| ==> Local(s.mem.phase, s.pc[t])
  }

  // ----- one move keeps it; k is what the other threads contribute

  predicate Ordered(n: int, k: Tally) {
    && 0 <= k.entered <= k.passed && 0 <= k.leaving && 0 <= k.posting && 0 <= k.resetting
    && k.passed + k.leaving + k.posting <= n - 1
  }

  lemma MoveCounts(n: int, m: Mem, p: Pc, m': Mem, p': Pc, k: Tally)
    requires n > 0 && Move(n, m, p, m', p') && !p.Reset?
    requires Local(m.phase, p) && Ordered(n, k) && Counts(n, m, Plus(m.phase, k, p))
    ensures m'.phase == m.phase && Local(m.phase, p') && Counts(n, m', Plus(m.phase, k, p'))
  {
  }

  /** A thread that contributes nothing. */
  function Nowhere(now: int): Pc {
    Outside(now + 1, false)
  }

  /** The tally of everybody but thread t. */
  function Rest(now: int, pc: seq<Pc>, t: nat): Tally
    requires t < |pc|
  {
    TallyOf(now, pc[t := Nowhere(now)])
  }

  lemma RestPlus(now: int, pc: seq<Pc>, t: nat, p: Pc)
    requires t < |pc|
    ensures TallyOf(now, pc[t := p]) == Plus(now, Rest(now, pc, t), p)
  {
    var others := pc[t := Nowhere(now)];
    assert others[t := p] == pc[t := p];
    SumUpdate(others, t, p, x => Entered(now, x));
    SumUpdate(others, t, p, x => Passed(now, x));
    SumUpdate(others, t, p, x => Leaving(now, x));
    SumUpdate(others, t, p, Posting);
    SumUpdate(others, t, p, Resetting);
  }

  /** Thread t beside the others. */
  lemma Beside(s: State, t: nat)
    requires Inv(s) && t < |s.pc|
    ensures Ordered(|s.pc|, Rest(s.mem.phase, s.pc, t))
    ensures Counts(|s.pc|, s.mem, Plus(s.mem.phase, Rest(s.mem.phase, s.pc, t), s.pc[t]))
  {
    var now := s.mem.phase;
    assert s.pc[t := s.pc[t]] == s.pc;
    RestPlus(now, s.pc, t, s.pc[t]);
    OthersBounded(now, s.pc[t := Nowhere(now)], t);
  }

  lemma {:induction false} OthersBounded(now: int, pc: seq<Pc>, skip: int)
    requires forall t :: 0 <= t < |pc| ==> if t == skip then pc[t] == Nowhere(now) else Local(now, pc[t])
    ensures var k := TallyOf(now, pc);
            && 0 <= k.entered <= k.passed && 0 <= k.leaving && 0 <= k.posting && 0 <= k.resetting
            && k.passed + k.leaving + k.posting <= |pc| - if 0 <= skip < |pc| then 1 else 0
  {
    if pc != [] {
      var n := |pc| - 1;
      assert forall t :: 0 <= t < n ==> pc[..n][t] == pc[t];
      OthersBounded(now, pc[..n], skip);
      assert TallyOf(now, pc) == Plus(now, TallyOf(now, pc[..n]), pc[n]);
    }
  }

  /** When the height is zero every thread has counted it down. */
  lemma AllEntered(s: State, t: nat)
    requires Inv(s) && s.mem.height == 0 && t < |s.pc|
    ensures Entered(s.mem.phase, s.pc[t]) == 1
  {
    SumFull(s.pc, t, p => Entered(s.mem.phase, p));
  }

  /** The thread that is to reset the height does so while all others wait. */
  lemma OthersWait(s: State, t: nat, u: nat)
    requires Inv(s) && s.mem.height == 0 && t < |s.pc| && s.pc[t].Reset? && u < |s.pc| && u != t
    ensures s.pc[u].Wait? && s.pc[u].k == s.mem.phase
  {
    AllEntered(s, u);
    SumBoundsPair(s.pc, if t < u then t else u, if t < u then u else t, Resetting);
  }

  /** Resetting the height opens the next phase: the thread that does it is to release all others. */
  lemma ResetTally(now: int, pc: seq<Pc>, t: nat, p': Pc)
    requires t < |pc| && (p'.Post? || p'.Exchange?) && p'.k == now
    requires forall u :: 0 <= u < |pc| && u != t ==> pc[u].Wait? && pc[u].k == now
    ensures TallyOf(now + 1, pc[t := p']) == Tally(0, 0, |pc| - 1, Posting(p'), 0)
  {
    var waiting := pc[t := Wait(now, 0)];
    assert waiting[t := p'] == pc[t := p'];
    SumOnes(waiting, p => Leaving(now + 1, p));
    SumZero(waiting, p => Entered(now + 1, p));
    SumZero(waiting, p => Passed(now + 1, p));
    SumZero(waiting, Posting);
    SumZero(waiting, Resetting);
    SumUpdate(waiting, t, p', p => Entered(now + 1, p));
    SumUpdate(waiting, t, p', p => Passed(now + 1, p));
    SumUpdate(waiting, t, p', p => Leaving(now + 1, p));
    SumUpdate(waiting, t, p', Posting);
    SumUpdate(waiting, t, p', Resetting);
  }

  lemma StepInv(s: State, t: nat, s': State)
    requires Inv(s) && Step(s, t, s')
    ensures Inv(s')
  {
    var p, p', now := s.pc[t], s'.pc[t], s.mem.phase;
    Beside(s, t);
    if p.Reset? {
      ResetInv(s, t, s');
    } else {
      RestPlus(now, s.pc, t, p');
      MoveCounts(|s.pc|, s.mem, p, s'.mem, p', Rest(now, s.pc, t));
    }
  }

  lemma ResetInv(s: State, t: nat, s': State)
    requires Inv(s) && Step(s, t, s') && s.pc[t].Reset?
    ensures Inv(s')
  {
    var now := s.mem.phase;
    Beside(s, t);
    assert Local(now, s.pc[t]);
    forall u | 0 <= u < |s.pc| && u != t ensures s.pc[u].Wait? && s.pc[u].k == now && Local(now + 1, s.pc[u]) {
      OthersWait(s, t, u);
      assert Local(now, s.pc[u]);
    }
    ResetTally(now, s.pc, t, s'.pc[t]);
    NobodyLeaving(s, t);
  }

  lemma NobodyLeaving(s: State, t: nat)
    requires Inv(s) && t < |s.pc| && s.pc[t].Reset? && s.mem.height == 0
    ensures Sum(s.pc, p => Leaving(s.mem.phase, p)) == 0 && Sum(s.pc, Posting) == 0
    ensures Sum(s.pc, p => Passed(s.mem.phase, p)) > 0
  {
    forall u | 0 <= u < |s.pc| ensures s.pc[u].k == s.mem.phase && !s.pc[u].Post? {
      AllEntered(s, u);
    }
    SumZero(s.pc, p => Leaving(s.mem.phase, p));
    SumZero(s.pc, Posting);
    SumBoundsOne(s.pc, t, p => Passed(s.mem.phase, p));
  }

  lemma InitInv(s: State)
    requires Init(s)
    ensures Inv(s)
  {
    SumZero(s.pc, p => Entered(0, p));
    SumOnes(s.pc, p => Passed(0, p));
    SumZero(s.pc, p => Leaving(0, p));
    SumZero(s.pc, Posting);
    SumZero(s.pc, Resetting);
  }

  ghost predicate Next(s: State, s': State) {
    exists t: nat :: Step(s, t, s')
  }

  ghost predicate Reachable(s: State) {
    Runs.Reachable(s, Init, Next)
  }

  lemma ReachableInv(s: State)
    requires Reachable(s)
    ensures Inv(s)
  {
    forall s0 | Init(s0) ensures Inv(s0) {
      InitInv(s0);
    }
    forall s0, s1 | Inv(s0) && Next(s0, s1) ensures Inv(s1) {
      var t: nat :| Step(s0, t, s1);
      StepInv(s0, t, s1);
    }
    Runs.Invariant(s, Init, Next, Inv);
  }

  // ----- what it guarantees

  /** The call number k of a thread has counted the height down. */
  predicate HasEntered(p: Pc, k: int) {
    p.k > k || (p.k == k && (p.Reset? || p.Post? || p.Wait? || p.Exchange?))
  }

  /** No call for phase k gets past the barrier before all threads have entered it. */
  lemma NobodyPassesEarly(s: State, t: nat, u: nat, k: int)
    requires Reachable(s) && t < |s.pc| && u < |s.pc|
    requires s.pc[t].k > k || (s.pc[t].k == k && s.pc[t].Exchange?)
    ensures HasEntered(s.pc[u], k)
  {
    ReachableInv(s);
    assert Local(s.mem.phase, s.pc[t]) && Local(s.mem.phase, s.pc[u]);
  }

  /** All threads of a phase use the same semaphore. */
  lemma SameSemaphore(s: State, t: nat)
    requires Reachable(s) && t < |s.pc| && !s.pc[t].Outside? && !s.pc[t].Read?
    ensures s.pc[t].step == s.pc[t].k % 2
  {
    ReachableInv(s);
    assert Local(s.mem.phase, s.pc[t]);
  }

  /** A token taken in phase k was posted for phase k: the semaphore has at most as many as there are
      threads of that phase still to take one, and none before they are posted. */
  lemma TokensStayInPhase(s: State, t: nat)
    requires Reachable(s) && t < |s.pc| && s.pc[t].Wait? && Sem(s.mem, s.pc[t].step) > 0
    ensures s.pc[t].k == s.mem.phase - 1
    ensures Sem(s.mem, s.pc[t].step) == Sum(s.pc, p => Leaving(s.mem.phase, p))
  {
    ReachableInv(s);
    assert Local(s.mem.phase, s.pc[t]);
  }

  /** The call that gets PTHREAD_BARRIER_SERIAL_THREAD in phase k is number k of them, and every call
      that returns from phase k finds it granted: exactly one per phase. */
  lemma OneSerial(s: State, t: nat, s': State)
    requires Reachable(s) && Step(s, t, s') && s.pc[t].Exchange?
    ensures s'.pc[t].serial <==> s.mem.serials == s.pc[t].k
    ensures s'.mem.serials == s.pc[t].k + 1
  {
    ReachableInv(s);
    assert Local(s.mem.phase, s.pc[t]);
    Beside(s, t);
  }

  /** Before the first call of phase k has returned no serial of that phase is granted. */
  lemma SerialsCount(s: State, t: nat)
    requires Reachable(s) && t < |s.pc|
    ensures s.pc[t].k <= s.mem.serials <= s.pc[t].k + 1
  {
    ReachableInv(s);
    assert Local(s.mem.phase, s.pc[t]);
    Beside(s, t);
  }

  /** The thread at p can take its next step, not counting new calls. */
  predicate CanAdvance(m: Mem, p: Pc) {
    match p
    case Outside(_, _) => false
    case Wait(_, step) => Sem(m, step) > 0
    case _ => true
  }

  lemma AdvanceIsAMove(n: int, m: Mem, p: Pc)
    ensures CanAdvance(m, p) <==> !p.Outside? && exists m', p' :: Move(n, m, p, m', p')
  {
    if CanAdvance(m, p) {
      var m', p' := Advance(n, m, p);
    }
  }

  lemma Advance(n: int, m: Mem, p: Pc) returns (m': Mem, p': Pc)
    requires CanAdvance(m, p)
    ensures Move(n, m, p, m', p')
  {
    m', p' := m, p;
    match p {
      case Read(k) => p' := Decrement(k, m.iStep);
      case Decrement(k, step) =>
        m', p' := m.(height := m.height - 1), if m.height - 1 == 0 then Reset(k, step) else Wait(k, step);
      case Reset(k, step) =>
        m', p' := m.(height := n, phase := m.phase + 1), if n > 1 then Post(k, step) else Exchange(k, step);
      case Post(k, step) => m', p' := WithSem(m, step, Sem(m, step) + (n - 1)), Exchange(k, step);
      case Wait(k, step) => m', p' := WithSem(m, step, Sem(m, step) - 1), Exchange(k, step);
      case Exchange(k, step) =>
        if m.iStep == step {
          m', p' := m.(iStep := 1 - step, serials := m.serials + 1), Outside(k + 1, true);
        } else {
          p' := Outside(k + 1, false);
        }
    }
  }

  /** Nobody is stranded: when nothing can move on but by a new call, a waiting thread waits for one
      that has not made its call for that phase. */
  lemma NobodyStranded(s: State, t: nat) returns (late: nat)
    requires Reachable(s) && t < |s.pc| && !s.pc[t].Outside?
    requires forall u :: 0 <= u < |s.pc| ==> !CanAdvance(s.mem, s.pc[u])
    ensures s.pc[t].Wait? && late < |s.pc| && s.pc[late].Outside? && s.pc[late].k == s.pc[t].k
  {
    ReachableInv(s);
    var now := s.mem.phase;
    SumZero(s.pc, Posting);
    SumZero(s.pc, Resetting);
    late := NotEntered(s);
    StuckInPhase(s, t);
    if s.pc[late].Wait? {
      StuckInPhase(s, late);
    }
    assert !CanAdvance(s.mem, s.pc[late]) && Local(now, s.pc[late]);
  }

  lemma StuckInPhase(s: State, t: nat)
    requires Inv(s) && t < |s.pc| && !s.pc[t].Outside? && !CanAdvance(s.mem, s.pc[t]) && Sum(s.pc, Posting) == 0
    ensures s.pc[t].Wait? && s.pc[t].k == s.mem.phase
  {
    assert Local(s.mem.phase, s.pc[t]);
    SumBoundsOne(s.pc, t, p => Leaving(s.mem.phase, p));
  }

  lemma NotEntered(s: State) returns (late: nat)
    requires Inv(s) && s.mem.height > 0
    ensures late < |s.pc| && Entered(s.mem.phase, s.pc[late]) == 0
  {
    assert exists u :: 0 <= u < |s.pc| && Entered(s.mem.phase, s.pc[u]) != 1 by {
      if forall u :: 0 <= u < |s.pc| ==> Entered(s.mem.phase, s.pc[u]) == 1 {
        SumOnes(s.pc, p => Entered(s.mem.phase, p));
      }
    }
    late :| 0 <= late < |s.pc| && Entered(s.mem.phase, s.pc[late]) != 1;
  }
}
