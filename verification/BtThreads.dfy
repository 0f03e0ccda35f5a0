/** Shared-cache locking of SQLite with many connections at once: the calls of BtMutex, interleaved.

    The mutexes are named by the addresses of their BtShared.  A step is one lock, try or unlock of a
    mutex, or a turn of a loop without one.  A thread may use several connections, but is inside a
    call for one of them at a time. */
module BtThreads {
  import opened Basics
  import opened BtMutex
  import Runs

  /** sweep tells how far sqlite3BtreeEnterAll is when the back-off is part of it. */
  datatype Pc =
    | Idle
    // sqlite3BtreeEnter, when p is not locked
    | Entering(p: nat)
    // backing off: larger mutexes are released, then p and the larger ones locked in order
    | Releasing(p: nat, sweep: Option<set<nat>>)
    | Waiting(p: nat, sweep: Option<set<nat>>)
    | Relocking(p: nat, sweep: Option<set<nat>>)
    // sqlite3BtreeEnterAll
    | Sweep(done: set<nat>)
    // sqlite3BtreeMutexArrayEnter
    | Array(todo: seq<nat>)
    | ArrayWait(todo: seq<nat>)

  /** list are the sharable b-trees of a connection; wanted has each as often as its wantToLock.  owed is
      history: each b-tree as often as a call to enter it has been made and none to leave it. */
  datatype Conn = Conn(list: set<nat>, wanted: multiset<nat>, locked: set<nat>, pc: Pc, owed: multiset<nat>)

  /** thread tells which thread uses a connection. */
  datatype State = State(conns: seq<Conn>, thread: seq<nat>)

  ghost predicate Init(s: State) {
    && |s.thread| == |s.conns|
    && forall i :: 0 <= i < |s.conns| ==>
         && s.conns[i].wanted == s.conns[i].owed == multiset{} && s.conns[i].locked == {}
         && s.conns[i].pc == Idle
  }

  // ----- the steps

  function Wanted(c: Conn): set<nat> {
    set a | a in c.wanted
  }

  /** What is to be locked when the back-off ends. */
  function Goal(c: Conn, sweep: Option<set<nat>>): set<nat> {
    if sweep.None? then Wanted(c) else c.list
  }

  ghost predicate Ascending(todo: seq<nat>) {
    forall i, j :: 0 <= i < j < |todo| ==> todo[i] < todo[j]
  }

  /** No mutex the connection has is larger than one of todo that it has not. */
  ghost predicate NoneLarger(c: Conn, todo: seq<nat>) {
    forall t, a :: t in todo && t !in c.locked && a in c.locked ==> a < t
  }

  ghost predicate CallMove(c: Conn, c': Conn) {
    && c.pc == Idle
    && (|| (exists p :: EnterCall(c, p, c'))
        || (exists p :: LeaveCall(c, p, c'))
        || c' == c.(pc := Sweep({}), owed := c.owed + multiset(c.list))
        || (exists todo :: ArrayCall(c, todo, c')))
  }

  predicate EnterCall(c: Conn, p: nat, c': Conn) {
    p in c.list && c' == c.(wanted := c.wanted + multiset{p}, pc := if p in c.locked then Idle else Entering(p),
                            owed := c.owed + multiset{p})
  }

  /** sqlite3BtreeLeave; leaving all and leaving an array are as many of these. */
  predicate LeaveCall(c: Conn, p: nat, c': Conn) {
    var wanted := c.wanted - multiset{p};
    p in c.wanted && c' == c.(wanted := wanted, locked := if p in wanted then c.locked else c.locked - {p},
                              owed := c.owed - multiset{p})
  }

  ghost predicate ArrayCall(c: Conn, todo: seq<nat>, c': Conn) {
    && Ascending(todo) && (forall t :: t in todo ==> t in c.list) && NoneLarger(c, todo)
    && c' == c.(pc := Array(todo), owed := c.owed + multiset(todo))
  }

  /** The smallest of s above p. */
  ghost predicate NextAbove(s: set<nat>, p: nat, a: nat) {
    a in s && a > p && forall b :: b in s && b > p ==> a <= b
  }

  ghost predicate NoneAbove(s: set<nat>, p: nat) {
    forall b :: b in s ==> b <= p
  }

  ghost predicate BackOffMove(c: Conn, c': Conn) {
    match c.pc
    case Entering(p) =>
      || c' == c.(locked := c.locked + {p}, pc := Idle)
      || c' == c.(pc := Releasing(p, None))
    case Releasing(p, sweep) =>
      || (exists a :: NextAbove(c.locked, p, a) && c' == c.(locked := c.locked - {a}))
      || (NoneAbove(c.locked, p) && c' == c.(pc := Waiting(p, sweep)))
    case Waiting(p, sweep) => c' == c.(locked := c.locked + {p}, pc := Relocking(p, sweep))
    case Relocking(p, sweep) =>
      || (exists a :: NextAbove(Goal(c, sweep), p, a) && c' == c.(pc := Waiting(a, sweep)))
      || (NoneAbove(Goal(c, sweep), p) && c' == c.(pc := if sweep.None? then Idle else Sweep(sweep.value)))
    case _ => false
  }

  ghost predicate LoopMove(c: Conn, c': Conn) {
    match c.pc
    case Sweep(done) =>
      || (done == c.list && c' == c.(pc := Idle))
      || (exists p :: SweepTurn(c, done, p, c'))
    case Array(todo) =>
      if todo == [] then c' == c.(pc := Idle)
      else c' == c.(wanted := c.wanted + multiset{todo[0]},
                    pc := if todo[0] in c.locked then Array(todo[1..]) else ArrayWait(todo))
    case ArrayWait(todo) => todo != [] && c' == c.(locked := c.locked + {todo[0]}, pc := Array(todo[1..]))
    case _ => false
  }

  ghost predicate Smallest(s: set<nat>, a: nat) {
    a in s && forall b :: b in s ==> a <= b
  }

  /** One more b-tree is wanted; when it is not locked, everything is, from the first that is not. */
  ghost predicate SweepTurn(c: Conn, done: set<nat>, p: nat, c': Conn) {
    && p in c.list - done
    && c'.list == c.list && c'.wanted == c.wanted + multiset{p} && c'.locked == c.locked && c'.owed == c.owed
    && if p in c.locked then c'.pc == Sweep(done + {p})
       else c'.pc.Releasing? && c'.pc.sweep == Some(done + {p}) && Smallest(c.list - c.locked, c'.pc.p)
  }

  ghost predicate Move(c: Conn, c': Conn) {
    CallMove(c, c') || BackOffMove(c, c') || LoopMove(c, c')
  }

  /** No other connection has the mutex. */
  ghost predicate Free(s: State, i: nat, a: nat) {
    forall j :: 0 <= j < |s.conns| && j != i ==> a !in s.conns[j].locked
  }

  /** The thread of connection i is in no call for another one. */
  ghost predicate MayCall(s: State, i: nat)
    requires i < |s.conns| == |s.thread|
  {
    forall j :: 0 <= j < |s.conns| && j != i && s.thread[j] == s.thread[i] ==> s.conns[j].pc == Idle
  }

  ghost predicate Step(s: State, i: nat, s': State) {
    && i < |s.conns| == |s'.conns| == |s.thread|
    && s' == State(s.conns[i := s'.conns[i]], s.thread)
    && Move(s.conns[i], s'.conns[i])
    && (forall a :: a in s'.conns[i].locked && a !in s.conns[i].locked ==> Free(s, i, a))
    && (s.conns[i].pc == Idle ==> MayCall(s, i))
  }

  // ----- the inductive invariant

  /** What is locked, at each place of the calls. */
  ghost predicate Local(c: Conn) {
    && Wanted(c) <= c.list
    && match c.pc
       case Idle => c.locked == Wanted(c)
       case Entering(p) => p in c.wanted && c.locked == Wanted(c) - {p}
       case Releasing(p, sweep) =>
         && Swept(c, sweep) && p in Goal(c, sweep) && p !in c.locked && c.locked <= Goal(c, sweep)
         && forall a :: a in Goal(c, sweep) && a < p ==> a in c.locked
       case Waiting(p, sweep) =>
         && Swept(c, sweep) && p in Goal(c, sweep)
         && c.locked == set a | a in Goal(c, sweep) && a < p
       case Relocking(p, sweep) => Swept(c, sweep) && c.locked == set a | a in Goal(c, sweep) && a <= p
       case Sweep(done) => done <= Wanted(c) && (c.locked == Wanted(c) || c.locked == c.list)
       case Array(todo) =>
         && Ascending(todo) && (forall t :: t in todo ==> t in c.list) && NoneLarger(c, todo)
         && c.locked == Wanted(c)
       case ArrayWait(todo) =>
         && Ascending(todo) && (forall t :: t in todo ==> t in c.list) && NoneLarger(c, todo)
         && todo != [] && todo[0] in c.wanted && c.locked == Wanted(c) - {todo[0]}
  }

  ghost predicate Swept(c: Conn, sweep: Option<set<nat>>) {
    sweep.Some? ==> sweep.value <= Wanted(c)
  }

  /** What the call under way is still to enter, beyond what is wanted already. */
  function ToEnter(c: Conn): multiset<nat> {
    match c.pc
    case Releasing(_, sweep) => if sweep.None? then multiset{} else multiset(c.list - sweep.value)
    case Waiting(_, sweep) => if sweep.None? then multiset{} else multiset(c.list - sweep.value)
    case Relocking(_, sweep) => if sweep.None? then multiset{} else multiset(c.list - sweep.value)
    case Sweep(done) => multiset(c.list - done)
    case Array(todo) => multiset(todo)
    case ArrayWait(todo) => if todo == [] then multiset{} else multiset(todo[1..])
    case _ => multiset{}
  }

  predicate Owes(c: Conn) {
    c.owed == c.wanted + ToEnter(c)
  }

  ghost predicate Inv(s: State) {
    && |s.thread| == |s.conns|
    && (forall i :: 0 <= i < |s.conns| ==> Local(s.conns[i]) && Owes(s.conns[i]))
    && (forall i, j :: 0 <= i < |s.conns| && 0 <= j < |s.conns| && i != j ==> s.conns[i].locked !! s.conns[j].locked)
    && (forall i, j :: 0 <= i < |s.conns| && 0 <= j < |s.conns| && i != j && s.thread[i] == s.thread[j] ==>
          s.conns[i].pc == Idle || s.conns[j].pc == Idle)
  }

  lemma EnterLocal(c: Conn, p: nat, c': Conn)
    requires c.pc == Idle && EnterCall(c, p, c') && Local(c)
    ensures Local(c')
  {
    assert Wanted(c') == Wanted(c) + {p};
  }

  lemma LeaveLocal(c: Conn, p: nat, c': Conn)
    requires c.pc == Idle && LeaveCall(c, p, c') && Local(c)
    ensures Local(c')
  {
    assert Wanted(c') == if p in c'.wanted then Wanted(c) else Wanted(c) - {p};
  }

  lemma CallLocal(c: Conn, c': Conn)
    requires CallMove(c, c') && Local(c)
    ensures Local(c')
  {
    if p :| EnterCall(c, p, c') {
      EnterLocal(c, p, c');
    } else if p :| LeaveCall(c, p, c') {
      LeaveLocal(c, p, c');
    } else {
      assert Wanted(c') == Wanted(c);
    }
  }

  lemma BackOffLocal(c: Conn, c': Conn)
    requires BackOffMove(c, c') && Local(c)
    ensures Local(c')
  {
    assert Wanted(c') == Wanted(c);
  }

  lemma SweepLocal(c: Conn, done: set<nat>, p: nat, c': Conn)
    requires c.pc == Sweep(done) && SweepTurn(c, done, p, c') && Local(c)
    ensures Local(c')
  {
    assert Wanted(c') == Wanted(c) + {p};
    if p !in c.locked {
      forall a | a in c.list && a < c'.pc.p ensures a in c.locked {
        assert a !in c.list - c.locked;
      }
    }
  }

  lemma RestArray(c: Conn, todo: seq<nat>)
    requires todo != [] && Ascending(todo) && NoneLarger(c, todo) && forall t :: t in todo ==> t in c.list
    ensures Ascending(todo[1..]) && NoneLarger(c, todo[1..]) && forall t :: t in todo[1..] ==> t in c.list
    ensures forall t :: t in todo[1..] ==> t > todo[0]
  {
    forall t | t in todo[1..] ensures t in todo && t > todo[0] {
      var k :| 0 <= k < |todo| - 1 && todo[1..][k] == t;
      assert todo[k + 1] == t;
    }
  }

  lemma ArrayLocal(c: Conn, todo: seq<nat>, c': Conn)
    requires c.pc == Array(todo) && LoopMove(c, c') && Local(c)
    ensures Local(c')
  {
    if todo != [] {
      assert Wanted(c') == Wanted(c) + {todo[0]};
      if todo[0] in c.locked {
        assert Wanted(c') == Wanted(c);
        RestArray(c, todo);
      } else {
        assert c.locked == Wanted(c') - {todo[0]};
      }
    }
  }

  lemma ArrayWaitLocal(c: Conn, todo: seq<nat>, c': Conn)
    requires c.pc == ArrayWait(todo) && LoopMove(c, c') && Local(c)
    ensures Local(c')
  {
    assert Wanted(c') == Wanted(c);
    RestArray(c, todo);
  }

  lemma LoopLocal(c: Conn, c': Conn)
    requires LoopMove(c, c') && Local(c)
    ensures Local(c')
  {
    match c.pc
    case Sweep(done) =>
      if p :| SweepTurn(c, done, p, c') {
        SweepLocal(c, done, p, c');
      } else {
        assert Wanted(c') == Wanted(c);
      }
    case Array(todo) => ArrayLocal(c, todo, c');
    case ArrayWait(todo) => ArrayWaitLocal(c, todo, c');
  }

  lemma MoveLocal(c: Conn, c': Conn)
    requires Move(c, c') && Local(c)
    ensures Local(c')
  {
    if CallMove(c, c') {
      CallLocal(c, c');
    } else if BackOffMove(c, c') {
      BackOffLocal(c, c');
    } else {
      LoopLocal(c, c');
    }
  }

  lemma EnterOwes(c: Conn, p: nat, c': Conn)
    requires c.pc == Idle && EnterCall(c, p, c') && Owes(c)
    ensures Owes(c')
  {
    assert ToEnter(c) == multiset{} == ToEnter(c');
  }

  lemma LeaveOwes(c: Conn, p: nat, c': Conn)
    requires c.pc == Idle && LeaveCall(c, p, c') && Owes(c)
    ensures Owes(c')
  {
    assert ToEnter(c) == multiset{} == ToEnter(c');
  }

  lemma CallOwes(c: Conn, c': Conn)
    requires CallMove(c, c') && Owes(c)
    ensures Owes(c')
  {
    if p :| EnterCall(c, p, c') {
      EnterOwes(c, p, c');
    } else if p :| LeaveCall(c, p, c') {
      LeaveOwes(c, p, c');
    } else {
      assert c.list - {} == c.list;
    }
  }

  lemma SweepOwes(c: Conn, done: set<nat>, p: nat, c': Conn)
    requires c.pc == Sweep(done) && SweepTurn(c, done, p, c') && Owes(c)
    ensures Owes(c')
  {
    assert c.list - done == (c.list - (done + {p})) + {p};
  }

  /** The first of an array that is to be entered becomes wanted. */
  lemma FirstOwed(owed: multiset<nat>, wanted: multiset<nat>, todo: seq<nat>)
    requires todo != [] && owed == wanted + multiset(todo)
    ensures owed == wanted + multiset{todo[0]} + multiset(todo[1..])
  {
    assert todo == [todo[0]] + todo[1..];
  }

  lemma ArrayOwes(c: Conn, todo: seq<nat>, c': Conn)
    requires c.pc == Array(todo) && Owes(c) && c'.owed == c.owed
    requires if todo == [] then c'.wanted == c.wanted && c'.pc == Idle
             else c'.wanted == c.wanted + multiset{todo[0]} && (c'.pc == Array(todo[1..]) || c'.pc == ArrayWait(todo))
    ensures Owes(c')
  {
    if todo != [] {
      FirstOwed(c.owed, c.wanted, todo);
    }
  }

  lemma ArrayWaitOwes(c: Conn, todo: seq<nat>, c': Conn)
    requires c.pc == ArrayWait(todo) && todo != [] && Owes(c)
    requires c'.owed == c.owed && c'.wanted == c.wanted && c'.pc == Array(todo[1..])
    ensures Owes(c')
  {
  }

  lemma SweepEndOwes(c: Conn, done: set<nat>, c': Conn)
    requires c.pc == Sweep(done) && done == c.list && c' == c.(pc := Idle) && Owes(c)
    ensures Owes(c')
  {
    assert c.list - done == {};
  }

  lemma LoopOwes(c: Conn, c': Conn)
    requires LoopMove(c, c') && Owes(c)
    ensures Owes(c')
  {
    match c.pc
    case Sweep(done) =>
      if p :| SweepTurn(c, done, p, c') {
        SweepOwes(c, done, p, c');
      } else {
        SweepEndOwes(c, done, c');
      }
    case Array(todo) => ArrayOwes(c, todo, c');
    case ArrayWait(todo) => ArrayWaitOwes(c, todo, c');
  }

  lemma MoveOwes(c: Conn, c': Conn)
    requires Move(c, c') && Owes(c)
    ensures Owes(c')
  {
    if CallMove(c, c') {
      CallOwes(c, c');
    } else if LoopMove(c, c') {
      LoopOwes(c, c');
    }
  }

  lemma StepInv(s: State, i: nat, s': State)
    requires Inv(s) && Step(s, i, s')
    ensures Inv(s')
  {
    MoveLocal(s.conns[i], s'.conns[i]);
    MoveOwes(s.conns[i], s'.conns[i]);
    forall j | 0 <= j < |s.conns| && j != i ensures s'.conns[i].locked !! s.conns[j].locked {
      forall a | a in s'.conns[i].locked ensures a !in s.conns[j].locked {
        if a !in s.conns[i].locked {
          assert Free(s, i, a);
        }
      }
    }
  }

  ghost predicate Next(s: State, s': State) {
    exists i: nat :: Step(s, i, s')
  }

  ghost predicate Reachable(s: State) {
    Runs.Reachable(s, Init, Next)
  }

  lemma ReachableInv(s: State)
    requires Reachable(s)
    ensures Inv(s)
  {
    forall s0 | Init(s0) ensures Inv(s0) {
      forall i | 0 <= i < |s0.conns| ensures Local(s0.conns[i]) {
        assert Wanted(s0.conns[i]) == {};
      }
    }
    forall s0, s1 | Inv(s0) && Next(s0, s1) ensures Inv(s1) {
      var i: nat :| Step(s0, i, s1);
      StepInv(s0, i, s1);
    }
    Runs.Invariant(s, Init, Next, Inv);
  }

  // ----- what it guarantees

  /** The mutex that the connection waits for. */
  function Waits(c: Conn): Option<nat> {
    match c.pc
    case Waiting(p, _) => Some(p)
    case ArrayWait(todo) => if todo == [] then None else Some(todo[0])
    case _ => None
  }

  /** In every reachable state a connection that waits has only smaller mutexes, and one that is in
      no call has exactly the mutexes of the b-trees it wants. */
  lemma WaitsUpwards(s: State, i: nat)
    requires Reachable(s) && i < |s.conns|
    ensures Waits(s.conns[i]).Some? ==> Ascends(s.conns[i].locked, Waits(s.conns[i]).value)
    ensures s.conns[i].pc == Idle ==> s.conns[i].locked == Wanted(s.conns[i])
  {
    ReachableInv(s);
    assert Local(s.conns[i]);
  }

  /** And each b-tree is wanted exactly as often as it has been entered and not left. */
  lemma WantedAsEntered(s: State, i: nat)
    requires Reachable(s) && i < |s.conns| && s.conns[i].pc == Idle
    ensures s.conns[i].wanted == s.conns[i].owed
  {
    ReachableInv(s);
    assert Owes(s.conns[i]);
  }

  /** The connection can take its next step, not counting new calls. */
  ghost predicate CanAdvance(s: State, i: nat)
    requires i < |s.conns|
  {
    var c := s.conns[i];
    c.pc != Idle && (Waits(c).Some? ==> Free(s, i, Waits(c).value))
  }

  ghost predicate InCall(s: State, i: nat) {
    i < |s.conns| && s.conns[i].pc != Idle
  }

  lemma AdvanceIsAStep(s: State, i: nat)
    requires Reachable(s) && i < |s.conns|
    ensures CanAdvance(s, i) <==> InCall(s, i) && exists s' :: Step(s, i, s')
  {
    ReachableInv(s);
    var c := s.conns[i];
    assert Local(c);
    if CanAdvance(s, i) {
      var c' := Advance(c);
      assert Step(s, i, State(s.conns[i := c'], s.thread));
    } else if InCall(s, i) {
      forall s' ensures !Step(s, i, s') {
        if Step(s, i, s') {
          LocksAwaited(c, s'.conns[i]);
        }
      }
    }
  }

  lemma LocksAwaited(c: Conn, c': Conn)
    requires Move(c, c') && Waits(c).Some?
    ensures Waits(c).value in c'.locked
  {
  }

  /** The next step of a call: it locks at most the mutex waited for. */
  lemma Advance(c: Conn) returns (c': Conn)
    requires Local(c) && c.pc != Idle
    ensures Move(c, c') && forall a :: a in c'.locked && a !in c.locked ==> Waits(c) == Some(a)
  {
    match c.pc {
      case Entering(p) => c' := c.(pc := Releasing(p, None));
      case Releasing(p, sweep) =>
        if NoneAbove(c.locked, p) {
          c' := c.(pc := Waiting(p, sweep));
        } else {
          var a := FindNext(c.locked, p);
          c' := c.(locked := c.locked - {a});
        }
      case Waiting(p, sweep) => c' := c.(locked := c.locked + {p}, pc := Relocking(p, sweep));
      case Relocking(p, sweep) =>
        if NoneAbove(Goal(c, sweep), p) {
          c' := c.(pc := if sweep.None? then Idle else Sweep(sweep.value));
        } else {
          var a := FindNext(Goal(c, sweep), p);
          c' := c.(pc := Waiting(a, sweep));
        }
      case Sweep(done) => c' := AdvanceSweep(c, done);
      case Array(todo) =>
        c' := if todo == [] then c.(pc := Idle)
              else c.(wanted := c.wanted + multiset{todo[0]},
                      pc := if todo[0] in c.locked then Array(todo[1..]) else ArrayWait(todo));
      case ArrayWait(todo) => c' := c.(locked := c.locked + {todo[0]}, pc := Array(todo[1..]));
    }
  }

  lemma AdvanceSweep(c: Conn, done: set<nat>) returns (c': Conn)
    requires Local(c) && c.pc == Sweep(done)
    ensures LoopMove(c, c') && c'.locked == c.locked
  {
    if done == c.list {
      c' := c.(pc := Idle);
    } else {
      assert done <= c.list && !(c.list <= done);
      var p :| p in c.list && p !in done;
      var wanted := c.wanted + multiset{p};
      if p in c.locked {
        c' := c.(wanted := wanted, pc := Sweep(done + {p}));
      } else {
        assert p in c.list - c.locked;
        var f := FindSmallest(c.list - c.locked);
        c' := c.(wanted := wanted, pc := Releasing(f, Some(done + {p})));
      }
      assert SweepTurn(c, done, p, c');
    }
  }

  lemma {:induction false} FindSmallest(s: set<nat>) returns (a: nat)
    requires s != {}
    ensures Smallest(s, a)
  {
    var x :| x in s;
    var rest := s - {x};
    if rest == {} {
      a := x;
      assert s == {x};
    } else {
      var b := FindSmallest(rest);
      a := if b < x then b else x;
      assert s == rest + {x};
    }
  }

  lemma FindNext(s: set<nat>, p: nat) returns (a: nat)
    requires !NoneAbove(s, p)
    ensures NextAbove(s, p, a)
  {
    var above := set x | x in s && x > p;
    var b :| b in s && b > p;
    assert b in above;
    a := FindSmallest(above);
    forall y | y in s && y > p ensures a <= y {
      assert y in above;
    }
  }

  /** Every wait is upwards for the whole thread: its other connections have smaller mutexes too. */
  ghost predicate SpansUpwards(s: State) {
    |s.thread| == |s.conns| &&
    forall i, j :: 0 <= i < |s.conns| && 0 <= j < |s.conns| && s.thread[i] == s.thread[j] && Waits(s.conns[i]).Some? ==>
      Ascends(s.conns[j].locked, Waits(s.conns[i]).value)
  }

  /** Threads that use one connection each do that by themselves. */
  lemma AloneUpwards(s: State)
    requires Reachable(s) && forall i, j :: 0 <= i < j < |s.thread| ==> s.thread[i] != s.thread[j]
    ensures SpansUpwards(s)
  {
    ReachableInv(s);
    forall i | 0 <= i < |s.conns| && Waits(s.conns[i]).Some?
      ensures Ascends(s.conns[i].locked, Waits(s.conns[i]).value)
    {
      WaitsUpwards(s, i);
    }
  }

  /** No thread is in a call for connection h or another one of the same thread. */
  ghost predicate Outside(s: State, h: nat)
    requires h < |s.conns| == |s.thread|
  {
    forall j :: 0 <= j < |s.conns| && s.thread[j] == s.thread[h] ==> s.conns[j].pc == Idle
  }

  /** Where threads wait upwards they never deadlock: whoever waits, some connection can take its next
      step, or a mutex that is waited for belongs to a thread that is in no call at all. */
  lemma NeverStuck(s: State, i: nat) returns (w: nat, h: nat)
    requires Reachable(s) && SpansUpwards(s) && i < |s.conns| && Waits(s.conns[i]).Some?
    ensures h < |s.conns| == |s.thread| && w < |s.conns| && Waits(s.conns[w]).Some?
    ensures CanAdvance(s, h) || (Outside(s, h) && Waits(s.conns[w]).value in s.conns[h].locked)
  {
    ReachableInv(s);
    w := LargestWait(s, i);
    var q := Waits(s.conns[w]).value;
    if Free(s, w, q) {
      h := w;
    } else {
      h :| 0 <= h < |s.conns| && h != w && q in s.conns[h].locked;
      if j :| 0 <= j < |s.conns| && s.thread[j] == s.thread[h] && s.conns[j].pc != Idle {
        h := j;
      }
    }
  }

  lemma LargestWait(s: State, i: nat) returns (w: nat)
    requires i < |s.conns| && Waits(s.conns[i]).Some?
    ensures w < |s.conns| && Waits(s.conns[w]).Some?
    ensures forall j :: 0 <= j < |s.conns| && Waits(s.conns[j]).Some? ==>
      Waits(s.conns[j]).value <= Waits(s.conns[w]).value
  {
    w := i;
    for n := 0 to |s.conns|
      invariant w < |s.conns| && Waits(s.conns[w]).Some?
      invariant forall j :: 0 <= j < n && Waits(s.conns[j]).Some? ==>
        Waits(s.conns[j]).value <= Waits(s.conns[w]).value
    {
      if Waits(s.conns[n]).Some? && Waits(s.conns[n]).value > Waits(s.conns[w]).value {
        w := n;
      }
    }
  }

  // ----- threads that do not

  lemma Then(s: State, i: nat, c': Conn) returns (s': State)
    requires Reachable(s) && i < |s.conns| == |s.thread| && Move(s.conns[i], c')
    requires s.conns[i].pc == Idle ==> MayCall(s, i)
    requires forall a :: a in c'.locked && a !in s.conns[i].locked ==> Free(s, i, a)
    ensures s' == State(s.conns[i := c'], s.thread) && Reachable(s')
  {
    s' := State(s.conns[i := c'], s.thread);
    assert Step(s, i, s');
    Runs.Extend(s, s', Init, Next);
  }

  /** An uncontended sqlite3BtreeEnter of a connection that has nothing yet. */
  lemma EnterFree(s: State, i: nat, p: nat) returns (s': State)
    requires Reachable(s) && i < |s.conns| == |s.thread| && MayCall(s, i) && s.conns[i] == Fresh(p) && Free(s, i, p)
    ensures s' == State(s.conns[i := Entered(p)], s.thread) && Reachable(s')
  {
    var c := Conn({p}, multiset{p}, {}, Entering(p), multiset{p});
    assert EnterCall(s.conns[i], p, c);
    s' := Then(s, i, c);
    s' := Then(s', i, c.(locked := {p}, pc := Idle));
  }

  /** The same when somebody else has the mutex. */
  lemma EnterTaken(s: State, i: nat, p: nat) returns (s': State)
    requires Reachable(s) && i < |s.conns| == |s.thread| && MayCall(s, i) && s.conns[i] == Fresh(p)
    ensures Reachable(s')
    ensures s' == State(s.conns[i := Conn({p}, multiset{p}, {}, Waiting(p, None), multiset{p})], s.thread)
  {
    var c := Conn({p}, multiset{p}, {}, Entering(p), multiset{p});
    assert EnterCall(s.conns[i], p, c);
    s' := Then(s, i, c);
    s' := Then(s', i, c.(pc := Releasing(p, None)));
    s' := Then(s', i, c.(pc := Waiting(p, None)));
  }

  function Entered(p: nat): Conn {
    Conn({p}, multiset{p}, {p}, Idle, multiset{p})
  }

  function Fresh(p: nat): Conn {
    Conn({p}, multiset{}, {}, Idle, multiset{})
  }

  /** Each of two threads has entered a b-tree of its first connection. */
  lemma BothEntered() returns (s: State)
    ensures Reachable(s) && s.thread == [0, 0, 1, 1]
    ensures s.conns == [Entered(1), Fresh(2), Entered(2), Fresh(1)]
  {
    s := State([Fresh(1), Fresh(2), Fresh(2), Fresh(1)], [0, 0, 1, 1]);
    assert Runs.IsRun([s], Init, Next);
    s := EnterFree(s, 0, 1);
    s := EnterFree(s, 2, 2);
  }

  /** When each then enters the other one's with its second connection, the two block each other for
      good: no step of anybody is possible. */
  lemma OppositeOrder() returns (s: State)
    ensures Reachable(s) && s.thread == [0, 0, 1, 1] && |s.conns| == 4
    ensures Waits(s.conns[1]) == Some(2) && 2 in s.conns[2].locked
    ensures Waits(s.conns[3]) == Some(1) && 1 in s.conns[0].locked
    ensures forall s' :: !Next(s, s')
  {
    s := BothEntered();
    s := EnterTaken(s, 1, 2);
    s := EnterTaken(s, 3, 1);
    forall s', i: nat ensures !Step(s, i, s') {
      NoStep(s, i, s');
    }
  }

  lemma NoStep(s: State, i: nat, s': State)
    requires s.thread == [0, 0, 1, 1] && |s.conns| == 4 && s.conns[0].pc == Idle && s.conns[2].pc == Idle
    requires Waits(s.conns[1]) == Some(2) && 2 in s.conns[2].locked && 2 !in s.conns[1].locked
    requires Waits(s.conns[3]) == Some(1) && 1 in s.conns[0].locked && 1 !in s.conns[3].locked
    ensures !Step(s, i, s')
  {
    if Step(s, i, s') && (i == 1 || i == 3) {
      LocksAwaited(s.conns[i], s'.conns[i]);
    }
  }
}
