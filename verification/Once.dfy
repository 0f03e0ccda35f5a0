/** pthread_once of pthreads-win32: a flag and the queue lock of McsLock, which is an atomic lock here.

    Any number of threads call it any number of times on one control, and the initialiser may be
    cancelled any number of times. */
module Once {
  import opened Counting
  import Runs

  /** completions is how often the initialiser has run to its end; no step depends on it. */
  datatype Mem = Mem(done: bool, locked: bool, completions: int)

  /** calls is how many calls of the thread have returned. */
  datatype Pc =
    | Outside(calls: nat)
    | Test(calls: nat)
    | Acquire(calls: nat)
    | Check(calls: nat)
    | Initialise(calls: nat)
    | SetDone(calls: nat)
    | Release(calls: nat)
    | Cancelled(calls: nat)
    | Gone(calls: nat)

  datatype State = State(mem: Mem, pc: seq<Pc>)

  ghost predicate Init(s: State) {
    && s.mem == Mem(false, false, 0)
    && forall t :: 0 <= t < |s.pc| ==> s.pc[t] == Outside(0)
  }

  // ----- the steps: a thread moves from p to p' and changes the memory from m to m'

  predicate Move(m: Mem, p: Pc, m': Mem, p': Pc) {
    match p
    case Outside(n) => m' == m && p' == Test(n)
    case Test(n) => m' == m && p' == if m.done then Outside(n + 1) else Acquire(n)
    case Acquire(n) => !m.locked && m' == m.(locked := true) && p' == Check(n)
    case Check(n) => m' == m && p' == if m.done then Release(n) else Initialise(n)
    case Initialise(n) =>
      || (m' == m.(completions := m.completions + 1) && p' == SetDone(n))
      || (m' == m && p' == Cancelled(n))
    case SetDone(n) => m' == m.(done := true) && p' == Release(n)
    case Release(n) => m' == m.(locked := false) && p' == Outside(n + 1)
    // ptw32_once_on_init_cancel
    case Cancelled(n) => m' == m.(locked := false) && p' == Gone(n)
    case Gone(_) => false
  }

  predicate Step(s: State, t: nat, s': State) {
    && t < |s.pc| == |s'.pc|
    && s'.pc == s.pc[t := s'.pc[t]]
    && Move(s.mem, s.pc[t], s'.mem, s'.pc[t])
  }

  // ----- the inductive invariant

  function Holds(p: Pc): int {
    if p.Check? || p.Initialise? || p.SetDone? || p.Release? || p.Cancelled? then 1 else 0
  }

  function Completing(p: Pc): int {
    if p.SetDone? then 1 else 0
  }

  /** What a thread at p knows. */
  predicate Local(m: Mem, p: Pc) {
    && (p.calls > 0 || p.Release? ==> m.done)
    && (p.Initialise? || p.SetDone? || p.Cancelled? ==> !m.done)
  }

  predicate Counts(m: Mem, holders: int, completing: int) {
    && holders == (if m.locked then 1 else 0)
    && m.completions == completing + (if m.done then 1 else 0)
  }

  ghost predicate Inv(s: State) {
    && Counts(s.mem, Sum(s.pc, Holds), Sum(s.pc, Completing))
    && forall t :: 0 <= t < |s.pc| ==> Local(s.mem, s.pc[t])
  }

  lemma MoveCounts(m: Mem, p: Pc, m': Mem, p': Pc, h: int, c: int)
    requires Move(m, p, m', p') && Local(m, p) && Counts(m, h, c)
    requires h >= Holds(p) && c >= Completing(p)
    ensures Local(m', p') && Counts(m', h - Holds(p) + Holds(p'), c - Completing(p) + Completing(p'))
    ensures m'.done != m.done ==> Holds(p) == 1 && m'.done
  {
  }

  lemma StepInv(s: State, t: nat, s': State)
    requires Inv(s) && Step(s, t, s')
    ensures Inv(s')
  {
    var p, p' := s.pc[t], s'.pc[t];
    SumUpdate(s.pc, t, p', Holds);
    SumUpdate(s.pc, t, p', Completing);
    SumBoundsOne(s.pc, t, Holds);
    SumBoundsOne(s.pc, t, Completing);
    MoveCounts(s.mem, p, s'.mem, p', Sum(s.pc, Holds), Sum(s.pc, Completing));
    forall u | 0 <= u < |s'.pc| ensures Local(s'.mem, s'.pc[u]) {
      assert Local(s.mem, s.pc[u]);
      if u != t {
        SumBoundsPair(s.pc, if t < u then t else u, if t < u then u else t, Holds);
      }
    }
  }

  ghost predicate Next(s: State, s': State) {
    exists t: nat :: Step(s, t, s')
  }

  ghost predicate Reachable(s: State) {
    Runs.Reachable(s, Init, Next)
  }

  lemma ReachableInv(s: State)
    requires Reachable(s)
    ensures Inv(s)
  {
    forall s0 | Init(s0) ensures Inv(s0) {
      SumZero(s0.pc, Holds);
      SumZero(s0.pc, Completing);
    }
    forall s0, s1 | Inv(s0) && Next(s0, s1) ensures Inv(s1) {
      var t: nat :| Step(s0, t, s1);
      StepInv(s0, t, s1);
    }
    Runs.Invariant(s, Init, Next, Inv);
  }

  // ----- what it guarantees

  /** The initialiser completes at most once, and never runs in two threads at a time. */
  lemma InitialisedOnce(s: State, t: nat, u: nat)
    requires Reachable(s) && t < |s.pc| && u < |s.pc|
    ensures 0 <= s.mem.completions <= 1
    ensures s.pc[t].Initialise? && s.pc[u].Initialise? ==> t == u
    ensures s.pc[t].Initialise? ==> s.mem.completions == 0
  {
    ReachableInv(s);
    assert Local(s.mem, s.pc[t]);
    SumNonNegative(s.pc, Completing);
    SumOrdered(s.pc, Completing, Holds);
    if Sum(s.pc, Completing) > 0 {
      var c := SumWitness(s.pc, Completing);
      assert Local(s.mem, s.pc[c]);
      if c != t {
        SumBoundsPair(s.pc, if t < c then t else c, if t < c then c else t, Holds);
      }
    }
    if t != u {
      SumBoundsPair(s.pc, if t < u then t else u, if t < u then u else t, Holds);
    }
  }

  /** A call returns only after the initialiser has completed. */
  lemma ReturnsAfterCompletion(s: State, t: nat, s': State)
    requires Reachable(s) && Step(s, t, s') && s'.pc[t].Outside?
    ensures s.mem.completions == 1 && s.mem.done
  {
    ReachableInv(s);
    assert Local(s.mem, s.pc[t]);
    InitialisedOnce(s, t, t);
    SumNonNegative(s.pc, Completing);
  }

  predicate CanAdvance(m: Mem, p: Pc) {
    match p
    case Outside(_) => false
    case Acquire(_) => !m.locked
    case Gone(_) => false
    case _ => true
  }

  /** CanAdvance is exactly the existence of a move that starts no call. */
  lemma AdvanceIsAMove(m: Mem, p: Pc)
    ensures CanAdvance(m, p) <==> !p.Outside? && exists m', p' :: Move(m, p, m', p')
  {
    if CanAdvance(m, p) {
      var m', p' := Advance(m, p);
    }
  }

  lemma Advance(m: Mem, p: Pc) returns (m': Mem, p': Pc)
    requires CanAdvance(m, p)
    ensures Move(m, p, m', p')
  {
    match p {
      case Test(n) => m', p' := m, if m.done then Outside(n + 1) else Acquire(n);
      case Acquire(n) => m', p' := m.(locked := true), Check(n);
      case Check(n) => m', p' := m, if m.done then Release(n) else Initialise(n);
      case Initialise(n) => m', p' := m.(completions := m.completions + 1), SetDone(n);
      case SetDone(n) => m', p' := m.(done := true), Release(n);
      case Release(n) => m', p' := m.(locked := false), Outside(n + 1);
      case Cancelled(n) => m', p' := m.(locked := false), Gone(n);
    }
  }

  function Rank(p: Pc): int {
    match p
    case Outside(_) => 0
    case Test(_) => 6
    case Acquire(_) => 5
    case Check(_) => 4
    case Initialise(_) => 3
    case SetDone(_) => 2
    case Release(_) => 1
    case Cancelled(_) => 1
    case Gone(_) => 0
  }

  /** Without new calls every call ends, if the initialiser does. */
  lemma {:induction false} DrainEnds(run: seq<State>, who: seq<nat>)
    requires |run| == |who| + 1
    requires forall i :: 0 <= i < |who| ==> Step(run[i], who[i], run[i + 1]) && !run[i].pc[who[i]].Outside?
    ensures |who| <= Sum(run[0].pc, Rank)
  {
    if |who| == 0 {
      SumNonNegative(run[0].pc, Rank);
    } else {
      SumUpdate(run[0].pc, who[0], run[1].pc[who[0]], Rank);
      DrainEnds(run[1..], who[1..]);
    }
  }

  /** A cancelled initialiser strands nobody: while a thread is inside a call, some thread can go on. */
  lemma NobodyStranded(s: State, t: nat) returns (u: nat)
    requires Reachable(s) && t < |s.pc| && !s.pc[t].Outside? && !s.pc[t].Gone?
    ensures u < |s.pc| && CanAdvance(s.mem, s.pc[u])
  {
    ReachableInv(s);
    u := t;
    if s.pc[t].Acquire? && s.mem.locked {
      u := SumWitness(s.pc, Holds);
    }
  }

  /** Once the initialiser has completed it stays so, and no thread starts it again. */
  lemma {:induction false} CompletedForGood(run: seq<State>, i: nat)
    requires Runs.IsRun(run, Init, Next) && i < |run| && run[i].mem.done
    ensures run[|run| - 1].mem.done && run[|run| - 1].mem.completions == run[i].mem.completions
    decreases |run|
  {
    var n := |run| - 1;
    if i < n {
      var s, s' := run[n - 1], run[n];
      assert Runs.IsRun(run[..n], Init, Next);
      CompletedForGood(run[..n], i);
      ReachableInv(s);
      var t: nat :| Step(s, t, s');
      StepInv(s, t, s');
      assert Local(s.mem, s.pc[t]);
    }
  }
}
