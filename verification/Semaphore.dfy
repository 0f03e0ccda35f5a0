/** The POSIX semaphore of pthreads-win32: a counter, a kernel semaphore and a lock.

    The sections guarded by the lock are single steps (module Mutex proves the lock); the kernel
    semaphore is waited for outside it.  Any number of threads wait, wait with a timeout, are
    cancelled, try, post and post in batches. */
module Semaphore {
  import opened Basics
  import opened Counting
  import Runs

  const SEM_VALUE_MAX: int := 2147483647

  /** Which call a thread waits in: ptw32_semwait, sem_wait or sem_timedwait. */
  datatype Call = Uninterruptible | Cancellable | Timed

  /** A waiter that leaves without a token is cancelled, or its time is up. */
  datatype Pc = Running | Waiting(call: Call) | Leaving(call: Call, cancelled: bool)

  /** posted, returned and swallowed are history: tokens posted, tokens given to calls that
      returned 0, and tokens taken by waiters that were cancelled all the same. */
  datatype Sem = Sem(value: int, kernel: int, posted: int, returned: int, swallowed: int)

  datatype State = State(initial: int, sem: Sem, pc: seq<Pc>)

  datatype Outcome = Success | OutOfRange | Invalid | Again

  function Max(a: int, b: int): int { if a >= b then a else b }

  /** sem_post_multiple under the lock; releaseOk is the result of ReleaseSemaphore. */
  function PostMultiple(m: Sem, count: int, releaseOk: bool): (Sem, Outcome) {
    if count <= 0 then (m, Invalid)
    else if m.value <= SEM_VALUE_MAX - count then
      var waiters := -m.value;
      if waiters > 0 then
        if releaseOk then
          (m.(value := m.value + count, kernel := m.kernel + Min(waiters, count), posted := m.posted + count), Success)
        else (m, Invalid)
      else (m.(value := m.value + count, posted := m.posted + count), Success)
    else (m, OutOfRange)
  }

  /** sem_post under the lock. */
  function Post(m: Sem, releaseOk: bool): (Sem, Outcome) {
    if m.value < SEM_VALUE_MAX then
      if m.value + 1 <= 0 then
        if releaseOk then (m.(value := m.value + 1, kernel := m.kernel + 1, posted := m.posted + 1), Success)
        else (m, Invalid)
      else (m.(value := m.value + 1, posted := m.posted + 1), Success)
    else (m, OutOfRange)
  }

  /** sem_trywait under the lock. */
  function TryWait(m: Sem): (Sem, Outcome) {
    if m.value > 0 then (m.(value := m.value - 1, returned := m.returned + 1), Success) else (m, Again)
  }

  ghost predicate Init(s: State) {
    && 0 <= s.initial <= SEM_VALUE_MAX
    && s.sem == Sem(s.initial, 0, 0, 0, 0)
    && forall t :: 0 <= t < |s.pc| ==> s.pc[t] == Running
  }

  ghost predicate Move(m: Sem, p: Pc, m': Sem, p': Pc) {
    match p
    case Running =>
      || (exists call :: Decrement(m, call, m', p'))
      || (p' == Running && m' == TryWait(m).0)
      || (p' == Running && exists ok :: m' == Post(m, ok).0)
      || (p' == Running && exists count, ok :: m' == PostMultiple(m, count, ok).0)
    case Waiting(call) =>
      || (p' == Running && m.kernel > 0 && m' == m.(kernel := m.kernel - 1, returned := m.returned + 1))
      || (!call.Uninterruptible? && p' == Leaving(call, true) && m' == m)
      || (call.Timed? && p' == Leaving(call, false) && m' == m)
    case Leaving(_, cancelled) => p' == Running && m' == Retract(m, cancelled)
  }

  /** The locked decrement that starts every wait. */
  ghost predicate Decrement(m: Sem, call: Call, m': Sem, p': Pc) {
    if m.value - 1 < 0 then
      p' == Waiting(call) && m' == m.(value := m.value - 1)
    else
      p' == Running && m' == m.(value := m.value - 1, returned := m.returned + 1)
  }

  /** The cleanup of a wait that timed out or was cancelled: a token posted in the meantime is
      taken, otherwise the decrement is undone.  A wait that timed out then reports success; a
      cancelled one never returns. */
  function Retract(m: Sem, cancelled: bool): Sem {
    if m.kernel > 0 then
      if cancelled then m.(kernel := m.kernel - 1, swallowed := m.swallowed + 1)
      else m.(kernel := m.kernel - 1, returned := m.returned + 1)
    else m.(value := m.value + 1)
  }

  ghost predicate Step(s: State, t: nat, s': State) {
    && t < |s.pc| == |s'.pc|
    && s'.initial == s.initial
    && s'.pc == s.pc[t := s'.pc[t]]
    && Move(s.sem, s.pc[t], s'.sem, s'.pc[t])
  }

  // ----- the invariant

  /** Committed to waiting: decremented the value below zero and not finished. */
  function Committed(p: Pc): int {
    if p.Running? then 0 else 1
  }

  /** The semaphore's value as POSIX understands it: tokens nobody has taken. */
  function Available(m: Sem): int {
    Max(m.value, 0) + m.kernel
  }

  predicate Counts(initial: int, m: Sem, committed: int) {
    && m.value <= SEM_VALUE_MAX && m.kernel >= 0
    && committed == m.kernel + Max(0, -m.value)
    && initial + m.posted == m.returned + m.swallowed + Available(m)
    && m.returned >= 0 && m.swallowed >= 0 && m.posted >= 0
  }

  /** Only a timed wait times out, and an uninterruptible one never leaves without a token. */
  predicate Interruptible(p: Pc) {
    p.Leaving? ==> !p.call.Uninterruptible? && (p.call.Cancellable? ==> p.cancelled)
  }

  ghost predicate Inv(s: State) {
    && Counts(s.initial, s.sem, Sum(s.pc, Committed))
    && forall t :: 0 <= t < |s.pc| ==> Interruptible(s.pc[t])
  }

  lemma MoveCounts(initial: int, m: Sem, p: Pc, m': Sem, p': Pc, committed: int)
    requires Move(m, p, m', p') && Counts(initial, m, committed) && committed >= Committed(p)
    ensures Counts(initial, m', committed - Committed(p) + Committed(p'))
  {
  }

  lemma StepInv(s: State, t: nat, s': State)
    requires Inv(s) && Step(s, t, s')
    ensures Inv(s')
  {
    SumBoundsOne(s.pc, t, Committed);
    SumUpdate(s.pc, t, s'.pc[t], Committed);
    MoveCounts(s.initial, s.sem, s.pc[t], s'.sem, s'.pc[t], Sum(s.pc, Committed));
  }

  ghost predicate Next(s: State, s': State) {
    exists t: nat :: Step(s, t, s')
  }

  ghost predicate Reachable(s: State) {
    Runs.Reachable(s, Init, Next)
  }

  lemma ReachableInv(s: State)
    requires Reachable(s)
    ensures Inv(s)
  {
    forall s0 | Init(s0) ensures Inv(s0) {
      SumZero(s0.pc, Committed);
    }
    forall s0, s1 | Inv(s0) && Next(s0, s1) ensures Inv(s1) {
      var t: nat :| Step(s0, t, s1);
      StepInv(s0, t, s1);
    }
    Runs.Invariant(s, Init, Next, Inv);
  }

  // ----- what it guarantees

  /** The threads committed to waiting are the kernel tokens plus the deficit of the value, and no
      timeout, cancellation, failed release or batch loses or duplicates a token. */
  lemma TokensConserved(s: State)
    requires Reachable(s)
    ensures Sum(s.pc, Committed) == s.sem.kernel + Max(0, -s.sem.value)
    ensures s.initial + s.sem.posted == s.sem.returned + s.sem.swallowed + Max(s.sem.value, 0) + s.sem.kernel
    ensures s.sem.kernel >= 0 && -|s.pc| <= s.sem.value <= SEM_VALUE_MAX
  {
    ReachableInv(s);
    SumAtMostLength(s.pc, Committed);
  }

  /** It is a counting semaphore: a waiting thread can take a token and return exactly when one is
      available, and a leaving one takes it exactly then. */
  lemma WaiterCanTakeIffAvailable(s: State, t: nat, cancelled: bool)
    requires Reachable(s) && t < |s.pc| && !s.pc[t].Running?
    ensures Available(s.sem) >= 0
    ensures s.pc[t].Waiting? ==>
      (Available(s.sem) > 0 <==> exists m' :: Move(s.sem, s.pc[t], m', Running))
    ensures Available(s.sem) > 0 <==> s.sem.kernel > 0
    ensures Available(Retract(s.sem, cancelled)) == Max(Available(s.sem) - 1, 0)
  {
    TokensConserved(s);
    SumBoundsOne(s.pc, t, Committed);
    if s.sem.kernel > 0 && s.pc[t].Waiting? {
      assert Move(s.sem, s.pc[t], s.sem.(kernel := s.sem.kernel - 1, returned := s.sem.returned + 1), Running);
    }
  }

  /** A post succeeds exactly when it is for at least one token, all of them fit, and the kernel does not
      fail when somebody is waiting; then exactly that many tokens more are available, and otherwise
      nothing has changed. */
  lemma PostDecides(m: Sem, count: int, releaseOk: bool)
    ensures var (m', r) := PostMultiple(m, count, releaseOk);
      && (r == Success <==> 0 < count <= SEM_VALUE_MAX - m.value && (m.value >= 0 || releaseOk))
      && (r == OutOfRange <==> count > 0 && m.value > SEM_VALUE_MAX - count)
      && (r != Success ==> m' == m)
      && (r == Success ==> m'.posted == m.posted + count && Available(m') == Available(m) + count)
  {
  }

  /** What a call of sem_wait, sem_timedwait or sem_trywait gets at once: a wait takes a token when
      there is one that nobody waits for, and is committed otherwise; a try fails exactly then. */
  lemma WaitDecides(s: State, call: Call, m': Sem, p': Pc)
    requires Reachable(s) && Decrement(s.sem, call, m', p')
    ensures p' == Running <==> Available(s.sem) > s.sem.kernel
    ensures p' == Running ==> m'.returned == s.sem.returned + 1 && Available(m') == Available(s.sem) - 1
    ensures p' != Running ==> p' == Waiting(call) && Available(m') == Available(s.sem)
    ensures TryWait(s.sem) == if p' == Running then (m', Success) else (s.sem, Again)
  {
    ReachableInv(s);
  }

  /** Every step is a step of the abstract counting semaphore: it takes one available token, adds
      posted ones, or leaves the number available alone.  A token is swallowed exactly when a cancelled
      waiter, of either kind, leaves while one is available; a waiter whose time is up returns it. */
  lemma StepRefinesCounter(s: State, t: nat, s': State)
    requires Reachable(s) && Step(s, t, s')
    ensures Available(s'.sem) - Available(s.sem) ==
      (s'.sem.posted - s.sem.posted) - (s'.sem.returned - s.sem.returned) - (s'.sem.swallowed - s.sem.swallowed)
    ensures s'.sem.posted == s.sem.posted || (s'.sem.returned == s.sem.returned && s'.sem.swallowed == s.sem.swallowed)
    ensures 0 <= (s'.sem.returned - s.sem.returned) + (s'.sem.swallowed - s.sem.swallowed) <= 1
    ensures s'.sem.returned + s'.sem.swallowed > s.sem.returned + s.sem.swallowed ==> Available(s.sem) > 0
    ensures s'.sem.swallowed > s.sem.swallowed <==> s.pc[t].Leaving? && s.pc[t].cancelled && Available(s.sem) > 0
    ensures s.pc[t].Leaving? && !s.pc[t].cancelled && Available(s.sem) > 0 ==> s'.sem.returned == s.sem.returned + 1
    ensures s.pc[t].Leaving? ==> !s.pc[t].call.Uninterruptible? && (s.pc[t].call.Cancellable? ==> s.pc[t].cancelled)
  {
    ReachableInv(s);
    SumBoundsOne(s.pc, t, Committed);
    MoveCounts(s.initial, s.sem, s.pc[t], s'.sem, s'.pc[t], Sum(s.pc, Committed));
  }

  /** The single post is the batch of one. */
  lemma PostIsBatchOfOne(m: Sem, ok: bool)
    ensures Post(m, ok) == PostMultiple(m, 1, ok)
  {
  }

  /** A batch wakes exactly as many waiters as the same number of single posts. */
  lemma {:induction false} BatchIsPosts(m: Sem, count: nat)
    requires count > 0 && m.value <= SEM_VALUE_MAX - count
    ensures PostMultiple(m, count, true) == (Posts(m, count), Success)
  {
    if count > 1 {
      BatchIsPosts(m, count - 1);
    }
  }

  function Posts(m: Sem, count: nat): Sem {
    if count == 0 then m else Post(Posts(m, count - 1), true).0
  }
}
