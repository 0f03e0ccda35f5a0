/** The MCS queue lock of pthreads-win32 (ptw32_MCS_lock.c).

    Each acquisition brings a fresh queue node.  Nodes are numbered in the order of their exchanges
    on the tail pointer, so node i + 1 is the next acquisition after node i; every pointer is still
    read from memory, and that it points where it should is proved.  A step is one Interlocked
    operation, one pointer store, one SetEvent or the end of one wait. */
module McsLock {
  import opened Basics
  import opened Counting
  import opened Chain
  import Runs

  /** readyFlag and nextFlag: 0, -1, or the handle of an event its waiter created. */
  datatype Flag = Clear | Set | Handle(signalled: bool)

  datatype Pc =
    // ptw32_mcs_lock_acquire
    | Link
    | NotifyPred
    | WakePred
    | CheckReady
    | ArmReady
    | SleepReady
    | Held
    // ptw32_mcs_lock_release
    | ReadNext
    | FreeTail
    | CheckNext
    | ArmNext
    | SleepNext
    | RereadNext
    | Pass
    | WakeNext
    | Done

  /** pred and succ are the local variables pred and next of the two functions. */
  datatype Node = Node(
    pred: Option<nat>, next: Option<nat>, ready: Flag, nextFlag: Flag, succ: Option<nat>, pc: Pc)

  datatype State = State(tail: Option<nat>, nodes: seq<Node>)

  // ----- the steps

  /** A new node is exchanged into the tail. */
  ghost predicate Arrive(s: State, s': State) {
    && s'.tail == Some(|s.nodes|)
    && s'.nodes == s.nodes + [Node(s.tail, None, Clear, Clear, None, if s.tail.None? then Held else Link)]
  }

  /** Steps that touch the thread's own node only. */
  predicate OwnMove(a: Node, a': Node) {
    match a.pc
    case CheckReady => a' == a.(pc := if a.ready == Clear then ArmReady else Held)
    case ArmReady =>
      a' == if a.ready == Clear then a.(ready := Handle(false), pc := SleepReady) else a.(pc := Held)
    case SleepReady => a.ready == Handle(true) && a' == a.(pc := Held)
    case Held => a' == a.(pc := ReadNext)
    case ReadNext => a' == a.(succ := a.next, pc := if a.next.None? then FreeTail else Pass)
    case CheckNext => a' == a.(pc := if a.nextFlag == Clear then ArmNext else RereadNext)
    case ArmNext =>
      a' == if a.nextFlag == Clear then a.(nextFlag := Handle(false), pc := SleepNext) else a.(pc := RereadNext)
    case SleepNext => a.nextFlag == Handle(true) && a' == a.(pc := RereadNext)
    case RereadNext => a' == a.(succ := a.next, pc := Pass)
    case _ => false
  }

  /** flag_set: the compare-exchange, and whether a handle was found and must be signalled. */
  function SetFlag(f: Flag): Flag { if f == Clear then Set else f }
  function Signal(f: Flag): Flag { if f.Handle? then Handle(true) else f }

  /** Steps of a that also write its predecessor z. */
  predicate PredMove(i: nat, z: Node, a: Node, z': Node, a': Node) {
    match a.pc
    case Link => z' == z.(next := Some(i)) && a' == a.(pc := NotifyPred)
    case NotifyPred =>
      z' == z.(nextFlag := SetFlag(z.nextFlag)) && a' == a.(pc := if z.nextFlag == Clear then CheckReady else WakePred)
    case WakePred => z' == z.(nextFlag := Signal(z.nextFlag)) && a' == a.(pc := CheckReady)
    case _ => false
  }

  /** Steps of a that also write its successor b. */
  predicate NextMove(a: Node, b: Node, a': Node, b': Node) {
    match a.pc
    case Pass =>
      b' == b.(ready := SetFlag(b.ready)) && a' == a.(pc := if b.ready == Clear then Done else WakeNext)
    case WakeNext => b' == b.(ready := Signal(b.ready)) && a' == a.(pc := Done)
    case _ => false
  }

  ghost predicate FreeTailMove(s: State, i: nat, s': State)
    requires i < |s.nodes|
  {
    && s.nodes[i].pc == FreeTail
    && if s.tail == Some(i) then
         s' == State(None, s.nodes[i := s.nodes[i].(pc := Done)])
       else
         s' == State(s.tail, s.nodes[i := s.nodes[i].(pc := CheckNext)])
  }

  ghost predicate OwnStep(s: State, i: nat, s': State)
    requires i < |s.nodes|
  {
    && s'.tail == s.tail && |s'.nodes| == |s.nodes|
    && s'.nodes == s.nodes[i := s'.nodes[i]]
    && OwnMove(s.nodes[i], s'.nodes[i])
  }

  ghost predicate PredStep(s: State, i: nat, s': State)
    requires i < |s.nodes|
  {
    && s'.tail == s.tail && |s'.nodes| == |s.nodes|
    && s.nodes[i].pred.Some? && s.nodes[i].pred.value < |s.nodes|
    && var z := s.nodes[i].pred.value;
    && s'.nodes == s.nodes[z := s'.nodes[z]][i := s'.nodes[i]]
    && PredMove(i, s.nodes[z], s.nodes[i], s'.nodes[z], s'.nodes[i])
  }

  ghost predicate NextStep(s: State, i: nat, s': State)
    requires i < |s.nodes|
  {
    && s'.tail == s.tail && |s'.nodes| == |s.nodes|
    && s.nodes[i].succ.Some? && s.nodes[i].succ.value < |s.nodes|
    && var b := s.nodes[i].succ.value;
    && s'.nodes == s.nodes[b := s'.nodes[b]][i := s'.nodes[i]]
    && NextMove(s.nodes[i], s.nodes[b], s'.nodes[i], s'.nodes[b])
  }

  ghost predicate Step(s: State, s': State) {
    Arrive(s, s') || exists i :: 0 <= i < |s.nodes| && NodeStep(s, i, s')
  }

  ghost predicate NodeStep(s: State, i: nat, s': State)
    requires i < |s.nodes|
  {
    OwnStep(s, i, s') || PredStep(s, i, s') || NextStep(s, i, s') || FreeTailMove(s, i, s')
  }

  ghost predicate Init(s: State) {
    s == State(None, [])
  }

  // ----- the inductive invariant

  /** Has been granted the lock. */
  predicate Granted(p: Pc) {
    p.Held? || Releasing(p) || p.Done?
  }

  predicate Releasing(p: Pc) {
    || p.ReadNext? || p.FreeTail? || p.CheckNext? || p.ArmNext? || p.SleepNext? || p.RereadNext?
    || p.Pass? || p.WakeNext?
  }

  predicate Unset(f: Flag) { f == Clear || f == Handle(false) }
  predicate Given(f: Flag) { f == Set || f == Handle(true) }

  /** What holds of node i by itself; last tells that no later node has arrived. */
  predicate Own(i: int, a: Node, last: bool) {
    && (a.pred == None || (i > 0 && a.pred == Some(i - 1)))
    && (a.pred == None ==> Granted(a.pc))
    && (a.ready.Handle? ==> a.pc.SleepReady? || Granted(a.pc))
    && (a.pc.SleepReady? ==> a.ready.Handle?)
    && (a.pred.Some? && Granted(a.pc) ==> Given(a.ready))
    && (a.nextFlag.Handle? ==> a.pc.SleepNext? || a.pc.RereadNext? || a.pc.Pass? || a.pc.WakeNext? || a.pc.Done?)
    && (a.pc.SleepNext? ==> a.nextFlag.Handle?)
    && (a.pc.RereadNext? ==> Given(a.nextFlag))
    && (a.pc.Pass? || a.pc.WakeNext? ==> a.succ == Some(i + 1))
    && (last ==>
         && a.next == None && Unset(a.nextFlag)
         && !(a.pc.CheckNext? || a.pc.ArmNext? || a.pc.SleepNext? || a.pc.RereadNext? || a.pc.Pass? || a.pc.WakeNext?))
  }

  /** What holds between node i and the next node. */
  predicate Pair(i: int, a: Node, b: Node) {
    && (!a.pc.Done? ==> b.pred.Some?)
    && (b.pred.Some? ==>
         && a.next == (if b.pc.Link? then None else Some(i + 1))
         && (b.pc.Link? || b.pc.NotifyPred? ==> Unset(a.nextFlag))
         && (b.pc.WakePred? ==> a.nextFlag == Handle(false))
         && (!b.pc.Link? && !b.pc.NotifyPred? && !b.pc.WakePred? ==> Given(a.nextFlag))
         && (a.pc.WakeNext? ==> b.ready == Handle(false))
         && (a.pc.Done? ==> Given(b.ready))
         && (!a.pc.WakeNext? && !a.pc.Done? ==> Unset(b.ready)))
    && (Granted(b.pc) ==> a.pc.Done?)
  }

  ghost predicate Inv(s: State) {
    && Linked(s.nodes, Own, Pair)
    && s.tail == (if s.nodes == [] || s.nodes[|s.nodes| - 1].pc.Done? then None else Some(|s.nodes| - 1))
  }

  // ----- one step keeps it

  lemma OwnLocal(i: int, z: Node, a: Node, b: Node, a': Node, last: bool)
    requires OwnMove(a, a') && Own(i, a, last) && (!last ==> Pair(i, a, b))
    ensures Own(i, a', last) && (!last ==> Pair(i, a', b))
    ensures Pair(i - 1, z, a) && (a.pred.None? ==> z.pc.Done?) ==> Pair(i - 1, z, a')
    ensures a'.pc != Done && a.pc != Done
  {
  }

  lemma PredLocal(i: int, y: Node, z: Node, a: Node, b: Node, z': Node, a': Node, last: bool)
    requires i >= 0 && PredMove(i, z, a, z', a')
    requires Own(i - 1, z, false) && Own(i, a, last) && Pair(i - 1, z, a)
    ensures Own(i - 1, z', false) && Own(i, a', last) && Pair(i - 1, z', a')
    ensures Pair(i - 2, y, z) ==> Pair(i - 2, y, z')
    ensures Pair(i, a, b) ==> Pair(i, a', b)
    ensures a'.pc != Done && a.pc != Done && a.pred.Some?
  {
  }

  lemma NextLocal(i: int, z: Node, a: Node, b: Node, c: Node, a': Node, b': Node, last: bool)
    requires NextMove(a, b, a', b')
    requires Own(i, a, false) && Own(i + 1, b, last) && Pair(i, a, b)
    ensures Own(i, a', false) && Own(i + 1, b', last) && Pair(i, a', b')
    ensures Pair(i - 1, z, a) ==> Pair(i - 1, z, a')
    ensures Pair(i + 1, b, c) ==> Pair(i + 1, b', c)
    ensures b'.pc == b.pc
  {
  }

  /** The tail is the node's own, and becomes null; or it is another's, and a successor is awaited. */
  lemma FreeTailLocal(i: int, z: Node, a: Node, b: Node, a': Node, last: bool)
    requires a.pc == FreeTail && a' == a.(pc := if last then Done else CheckNext)
    requires Own(i, a, last) && (!last ==> Pair(i, a, b))
    ensures Own(i, a', last) && (!last ==> Pair(i, a', b))
    ensures Pair(i - 1, z, a) ==> Pair(i - 1, z, a')
  {
  }

  lemma OwnStepKeeps(s: State, i: nat, s': State)
    requires Inv(s) && i < |s.nodes| && OwnStep(s, i, s')
    ensures Inv(s')
  {
    var ns, a := s.nodes, s.nodes[i];
    var z, b := if i > 0 then ns[i - 1] else a, if i + 1 < |ns| then ns[i + 1] else a;
    At(ns, i, Own, Pair);
    OwnLocal(i, z, a, b, s'.nodes[i], i == |ns| - 1);
    ReplaceOne(ns, i, s'.nodes[i], Own, Pair);
  }

  lemma PredStepKeeps(s: State, i: nat, s': State)
    requires Inv(s) && i < |s.nodes| && PredStep(s, i, s')
    ensures Inv(s')
  {
    var ns, a := s.nodes, s.nodes[i];
    At(ns, i, Own, Pair);
    var z := ns[i - 1];
    At(ns, i - 1, Own, Pair);
    var y, b := if i > 1 then ns[i - 2] else a, if i + 1 < |ns| then ns[i + 1] else a;
    PredLocal(i, y, z, a, b, s'.nodes[i - 1], s'.nodes[i], i == |ns| - 1);
    ReplaceTwo(ns, i - 1, s'.nodes[i - 1], s'.nodes[i], Own, Pair);
  }

  lemma NextStepKeeps(s: State, i: nat, s': State)
    requires Inv(s) && i < |s.nodes| && NextStep(s, i, s')
    ensures Inv(s')
  {
    var ns, a := s.nodes, s.nodes[i];
    At(ns, i, Own, Pair);
    var b := ns[i + 1];
    At(ns, i + 1, Own, Pair);
    var z, c := if i > 0 then ns[i - 1] else a, if i + 2 < |ns| then ns[i + 2] else a;
    NextLocal(i, z, a, b, c, s'.nodes[i], s'.nodes[i + 1], i + 1 == |ns| - 1);
    ReplaceTwo(ns, i, s'.nodes[i], s'.nodes[i + 1], Own, Pair);
    assert s'.nodes == ns[i := s'.nodes[i]][i + 1 := s'.nodes[i + 1]];
  }

  lemma FreeTailKeeps(s: State, i: nat, s': State)
    requires Inv(s) && i < |s.nodes| && FreeTailMove(s, i, s')
    ensures Inv(s')
  {
    var ns, a := s.nodes, s.nodes[i];
    var z, b := if i > 0 then ns[i - 1] else a, if i + 1 < |ns| then ns[i + 1] else a;
    At(ns, i, Own, Pair);
    FreeTailLocal(i, z, a, b, s'.nodes[i], i == |ns| - 1);
    ReplaceOne(ns, i, s'.nodes[i], Own, Pair);
  }

  lemma ArriveKeeps(s: State, s': State)
    requires Inv(s) && Arrive(s, s')
    ensures Inv(s')
  {
    var n := |s.nodes|;
    if n > 0 {
      At(s.nodes, n - 1, Own, Pair);
    }
    Append(s.nodes, s'.nodes[n], Own, Pair);
  }

  // ----- runs

  ghost predicate Reachable(s: State) {
    Runs.Reachable(s, Init, Step)
  }

  lemma StepKeeps(s: State, s': State)
    requires Inv(s) && Step(s, s')
    ensures Inv(s')
  {
    if Arrive(s, s') {
      ArriveKeeps(s, s');
    } else {
      var i :| 0 <= i < |s.nodes| && NodeStep(s, i, s');
      if OwnStep(s, i, s') {
        OwnStepKeeps(s, i, s');
      } else if PredStep(s, i, s') {
        PredStepKeeps(s, i, s');
      } else if NextStep(s, i, s') {
        NextStepKeeps(s, i, s');
      } else {
        FreeTailKeeps(s, i, s');
      }
    }
  }

  lemma ReachableInv(s: State)
    requires Reachable(s)
    ensures Inv(s)
  {
    forall s0, s1 | Inv(s0) && Step(s0, s1) ensures Inv(s1) {
      StepKeeps(s0, s1);
    }
    Runs.Invariant(s, Init, Step, Inv);
  }

  // ----- what it guarantees

  /** First come, first served: a node is granted the lock only when every acquisition that
      exchanged itself into the tail before it has released the lock. */
  lemma {:induction false} GrantedInOrder(s: State, i: nat, j: nat)
    requires Reachable(s) && i < j < |s.nodes| && Granted(s.nodes[j].pc)
    ensures s.nodes[i].pc == Done
    decreases j
  {
    ReachableInv(s);
    At(s.nodes, j, Own, Pair);
    if i < j - 1 {
      GrantedInOrder(s, i, j - 1);
    }
  }

  predicate Holds(p: Pc) {
    Granted(p) && !p.Done?
  }

  /** At most one acquisition has the lock. */
  lemma MutualExclusion(s: State, i: nat, j: nat)
    requires Reachable(s) && i < |s.nodes| && j < |s.nodes|
    requires Holds(s.nodes[i].pc) && Holds(s.nodes[j].pc)
    ensures i == j
  {
    if i < j {
      GrantedInOrder(s, i, j);
    } else if j < i {
      GrantedInOrder(s, j, i);
    }
  }

  /** The tail is null exactly when every acquisition has released the lock, and otherwise it is
      the last one to arrive. */
  lemma TailNullIffEmpty(s: State)
    requires Reachable(s)
    ensures s.tail == None <==> forall i :: 0 <= i < |s.nodes| ==> s.nodes[i].pc == Done
    ensures s.tail != None ==> s.tail == Some(|s.nodes| - 1)
  {
    ReachableInv(s);
    var n := |s.nodes|;
    if n > 0 && s.nodes[n - 1].pc.Done? {
      forall i | 0 <= i < n - 1 ensures s.nodes[i].pc == Done {
        GrantedInOrder(s, i, n - 1);
      }
    }
  }

  /** After waiting for its successor release never reads a null one, it passes the lock to the
      next acquisition in the queue, and flag_set never takes -1 for an event handle. */
  lemma SuccessorIsKnown(s: State, i: nat)
    requires Reachable(s) && i < |s.nodes|
    ensures s.nodes[i].pc.RereadNext? ==> s.nodes[i].next == Some(i + 1) && i + 1 < |s.nodes|
    ensures s.nodes[i].pc.Pass? || s.nodes[i].pc.WakeNext? ==>
      s.nodes[i].succ == Some(i + 1) && i + 1 < |s.nodes| && s.nodes[i + 1].ready != Set
    ensures s.nodes[i].pc.NotifyPred? || s.nodes[i].pc.WakePred? ==>
      s.nodes[i].pred == Some(i - 1) && i > 0 && s.nodes[i - 1].nextFlag != Set
  {
    ReachableInv(s);
    At(s.nodes, i, Own, Pair);
  }

  // ----- nothing gets stuck

  /** The node's thread can take its next step; a holder outside release need not. */
  predicate CanAdvance(a: Node) {
    match a.pc
    case SleepReady => a.ready == Handle(true)
    case SleepNext => a.nextFlag == Handle(true)
    case Held => false
    case Done => false
    case _ => true
  }

  lemma AdvanceIsAStep(s: State, i: nat) returns (s': State)
    requires Reachable(s) && i < |s.nodes| && CanAdvance(s.nodes[i])
    ensures NodeStep(s, i, s') && s.nodes[i].pc != Held
  {
    SuccessorIsKnown(s, i);
    ReachableInv(s);
    At(s.nodes, i, Own, Pair);
    var ns, a := s.nodes, s.nodes[i];
    if a.pc.Link? || a.pc.NotifyPred? || a.pc.WakePred? {
      s' := PredAdvance(s, i);
    } else if a.pc.Pass? || a.pc.WakeNext? {
      s' := NextAdvance(s, i);
    } else if a.pc.FreeTail? {
      s' := if s.tail == Some(i) then State(None, ns[i := a.(pc := Done)])
            else State(s.tail, ns[i := a.(pc := CheckNext)]);
    } else {
      var a' := OwnAdvance(a);
      s' := State(s.tail, ns[i := a']);
    }
  }

  lemma OwnAdvance(a: Node) returns (a': Node)
    requires CanAdvance(a)
    requires !(a.pc.Link? || a.pc.NotifyPred? || a.pc.WakePred? || a.pc.Pass? || a.pc.WakeNext? || a.pc.FreeTail?)
    ensures OwnMove(a, a')
  {
    match a.pc {
      case CheckReady => a' := a.(pc := if a.ready == Clear then ArmReady else Held);
      case ArmReady =>
        a' := if a.ready == Clear then a.(ready := Handle(false), pc := SleepReady) else a.(pc := Held);
      case SleepReady => a' := a.(pc := Held);
      case ReadNext => a' := a.(succ := a.next, pc := if a.next.None? then FreeTail else Pass);
      case CheckNext => a' := a.(pc := if a.nextFlag == Clear then ArmNext else RereadNext);
      case ArmNext =>
        a' := if a.nextFlag == Clear then a.(nextFlag := Handle(false), pc := SleepNext) else a.(pc := RereadNext);
      case SleepNext => a' := a.(pc := RereadNext);
      case RereadNext => a' := a.(succ := a.next, pc := Pass);
    }
  }

  lemma PredAdvance(s: State, i: nat) returns (s': State)
    requires 0 < i < |s.nodes| && s.nodes[i].pred == Some(i - 1)
    requires s.nodes[i].pc.Link? || s.nodes[i].pc.NotifyPred? || s.nodes[i].pc.WakePred?
    ensures PredStep(s, i, s')
  {
    var a, z := s.nodes[i], s.nodes[i - 1];
    var a', z' := a.(pc := CheckReady), z.(nextFlag := Signal(z.nextFlag));
    if a.pc.Link? {
      a', z' := a.(pc := NotifyPred), z.(next := Some(i));
    } else if a.pc.NotifyPred? {
      a', z' := a.(pc := if z.nextFlag == Clear then CheckReady else WakePred), z.(nextFlag := SetFlag(z.nextFlag));
    }
    s' := State(s.tail, s.nodes[i - 1 := z'][i := a']);
  }

  lemma NextAdvance(s: State, i: nat) returns (s': State)
    requires i + 1 < |s.nodes| && s.nodes[i].succ == Some(i + 1)
    requires s.nodes[i].pc.Pass? || s.nodes[i].pc.WakeNext?
    ensures NextStep(s, i, s')
  {
    var a, b := s.nodes[i], s.nodes[i + 1];
    var a', b' := a.(pc := Done), b.(ready := Signal(b.ready));
    if a.pc.Pass? {
      a', b' := a.(pc := if b.ready == Clear then Done else WakeNext), b.(ready := SetFlag(b.ready));
    }
    s' := State(s.tail, s.nodes[i + 1 := b'][i := a']);
  }

  /** No acquisition is ever stranded: as long as one is not done, either the first such one has
      the lock and has not called release, or some thread can take a step. */
  lemma {:induction false} HeadHoldsOrMoves(s: State, i: nat) returns (h: nat)
    requires Reachable(s) && i < |s.nodes| && s.nodes[i].pc != Done
    ensures h < |s.nodes| && (s.nodes[h].pc == Held || CanAdvance(s.nodes[h]))
    decreases i
  {
    ReachableInv(s);
    At(s.nodes, i, Own, Pair);
    if i > 0 && s.nodes[i - 1].pc != Done {
      h := HeadHoldsOrMoves(s, i - 1);
    } else if s.nodes[i].pc == Held || CanAdvance(s.nodes[i]) {
      h := i;
    } else {
      h := i + 1;
    }
  }

  /** Steps left at most. */
  function Rank(a: Node): int {
    match a.pc
    case Link => 15
    case NotifyPred => 14
    case WakePred => 13
    case CheckReady => 12
    case ArmReady => 11
    case SleepReady => 10
    case Held => 9
    case ReadNext => 8
    case FreeTail => 7
    case CheckNext => 6
    case ArmNext => 5
    case SleepNext => 4
    case RereadNext => 3
    case Pass => 2
    case WakeNext => 1
    case Done => 0
  }

  lemma OwnRank(s: State, i: nat, s': State)
    requires i < |s.nodes| && (OwnStep(s, i, s') || FreeTailMove(s, i, s'))
    ensures |s'.nodes| == |s.nodes| && Sum(s'.nodes, Rank) < Sum(s.nodes, Rank)
  {
    SumUpdate(s.nodes, i, s'.nodes[i], Rank);
  }

  /** A step that also writes a flag or a link of a neighbour leaves the neighbour's rank alone. */
  lemma RankPair(ns: seq<Node>, j: nat, i: nat, z: Node, a: Node)
    requires j < |ns| && i < |ns| && j != i && z.pc == ns[j].pc && Rank(a) < Rank(ns[i])
    ensures Sum(ns[j := z][i := a], Rank) < Sum(ns, Rank)
  {
    SumUpdate(ns, j, z, Rank);
    SumUpdate(ns[j := z], i, a, Rank);
  }

  lemma PredRank(s: State, i: nat, s': State)
    requires i < |s.nodes| && PredStep(s, i, s')
    ensures |s'.nodes| == |s.nodes| && Sum(s'.nodes, Rank) < Sum(s.nodes, Rank)
  {
    var z := s.nodes[i].pred.value;
    RankPair(s.nodes, z, i, s'.nodes[z], s'.nodes[i]);
  }

  lemma NextRank(s: State, i: nat, s': State)
    requires i < |s.nodes| && NextStep(s, i, s')
    ensures |s'.nodes| == |s.nodes| && Sum(s'.nodes, Rank) < Sum(s.nodes, Rank)
  {
    var b := s.nodes[i].succ.value;
    RankPair(s.nodes, b, i, s'.nodes[b], s'.nodes[i]);
  }

  lemma RankFalls(s: State, i: nat, s': State)
    requires i < |s.nodes| && NodeStep(s, i, s')
    ensures |s'.nodes| == |s.nodes| && Sum(s'.nodes, Rank) < Sum(s.nodes, Rank)
  {
    if PredStep(s, i, s') {
      PredRank(s, i, s');
    } else if NextStep(s, i, s') {
      NextRank(s, i, s');
    } else {
      OwnRank(s, i, s');
    }
  }

  /** Without new arrivals every acquisition and release ends: each step uses up some of Sum(Rank). */
  lemma {:induction false} DrainEnds(run: seq<State>, who: seq<nat>)
    requires |run| == |who| + 1
    requires forall i :: 0 <= i < |who| ==> who[i] < |run[i].nodes| && NodeStep(run[i], who[i], run[i + 1])
    ensures |who| <= Sum(run[0].nodes, Rank)
  {
    if |who| == 0 {
      SumNonNegative(run[0].nodes, Rank);
    } else {
      RankFalls(run[0], who[0], run[1]);
      DrainEnds(run[1..], who[1..]);
    }
  }
}
