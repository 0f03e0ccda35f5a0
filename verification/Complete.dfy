/** sqlite3_complete: whether a text ends with the end of an SQL statement.

    The code makes one pass over the text with a table of eight states.  Here its tokens are described
    on their own, the table is run over them, and the runs that end well are described by a grammar. */
module Complete {

  datatype Token = Semi | Ws | Other | Explain | Create | Temp | Trigger | End

  // ----- the table

  const INVALID := 0
  const START := 1
  const NORMAL := 2
  const EXPLAIN := 3
  const CREATE := 4
  const TRIGGER := 5
  const SEMI := 6
  const END := 7

  /** The columns of the table, one per token. */
  datatype Row = Row(semi: int, ws: int, other: int, explain: int, create: int, temp: int, trigger: int, end: int)

  function Trans(state: int): Row {
    if state == INVALID then Row(1, 0, 2, 3, 4, 2, 2, 2)
    else if state == START then Row(1, 1, 2, 3, 4, 2, 2, 2)
    else if state == NORMAL then Row(1, 2, 2, 2, 2, 2, 2, 2)
    else if state == EXPLAIN then Row(1, 3, 3, 2, 4, 2, 2, 2)
    else if state == CREATE then Row(1, 4, 2, 2, 2, 4, 5, 2)
    else if state == TRIGGER then Row(6, 5, 5, 5, 5, 5, 5, 5)
    else if state == SEMI then Row(6, 6, 5, 5, 5, 5, 5, 7)
    else Row(1, 7, 5, 5, 5, 5, 5, 5)
  }

  function Next(state: int, t: Token): (state': int)
    requires 0 <= state < 8
    ensures 0 <= state' < 8
  {
    var row := Trans(state);
    match t
    case Semi => row.semi
    case Ws => row.ws
    case Other => row.other
    case Explain => row.explain
    case Create => row.create
    case Temp => row.temp
    case Trigger => row.trigger
    case End => row.end
  }

  /** The table run over the tokens. */
  function Run(state: int, ts: seq<Token>): (state': int)
    requires 0 <= state < 8
    ensures 0 <= state' < 8
  {
    if ts == [] then state else Next(Run(state, ts[..|ts| - 1]), ts[|ts| - 1])
  }

  lemma {:induction false} RunConcat(state: int, a: seq<Token>, b: seq<Token>)
    requires 0 <= state < 8
    ensures Run(state, a + b) == Run(Run(state, a), b)
  {
    if b == [] {
      assert a + b == a;
    } else {
      var n := |b| - 1;
      assert (a + b)[..|a| + n] == a + b[..n] && (a + b)[|a| + n] == b[n];
      RunConcat(state, a, b[..n]);
      assert Run(state, a + b) == Next(Run(state, a + b[..n]), b[n]);
    }
  }

  function NonWs(ts: seq<Token>): seq<Token> {
    if ts == [] then []
    else NonWs(ts[..|ts| - 1]) + if ts[|ts| - 1] == Ws then [] else [ts[|ts| - 1]]
  }

  lemma {:induction false} WsIgnored(state: int, ts: seq<Token>)
    requires 0 <= state < 8
    ensures Run(state, ts) == Run(state, NonWs(ts))
    ensures Ws !in NonWs(ts)
  {
    if ts != [] {
      WsIgnored(state, ts[..|ts| - 1]);
      if ts[|ts| - 1] != Ws {
        assert NonWs(ts)[..|NonWs(ts)| - 1] == NonWs(ts[..|ts| - 1]);
      } else {
        assert NonWs(ts) == NonWs(ts[..|ts| - 1]);
      }
    }
  }

  // ----- the grammar

  /** EXPLAIN OTHER* */
  predicate IsExplain(p: seq<Token>) {
    p != [] && p[0] == Explain && forall i :: 1 <= i < |p| ==> p[i] == Other
  }

  /** CREATE TEMP*, or the same behind EXPLAIN OTHER* */
  predicate IsCreate(p: seq<Token>) {
    p != [] &&
    var q, x := p[..|p| - 1], p[|p| - 1];
    (x == Create && (q == [] || IsExplain(q))) || (x == Temp && IsCreate(q))
  }

  /** The opening of a trigger: all that and TRIGGER. */
  predicate IsOpening(p: seq<Token>) {
    p != [] && p[|p| - 1] == Trigger && IsCreate(p[..|p| - 1])
  }

  predicate HasOpening(p: seq<Token>) {
    exists n :: 0 <= n <= |p| && IsOpening(p[..n])
  }

  predicate EndsAt(u: seq<Token>, i: int)
    requires 0 <= i <= |u| - 3
  {
    u[i] == Semi && u[i + 1] == End && u[i + 2] == Semi
  }

  predicate NeverEnds(u: seq<Token>) {
    forall i :: 0 <= i <= |u| - 3 ==> !EndsAt(u, i)
  }

  /** Up to and with the first SEMI END SEMI. */
  predicate EndsFirst(u: seq<Token>) {
    |u| >= 3 && EndsAt(u, |u| - 3) && NeverEnds(u[..|u| - 1])
  }

  /** A statement that opens as a trigger ends at the first SEMI END SEMI behind the opening. */
  predicate IsTrigger(w: seq<Token>) {
    exists n :: 0 <= n <= |w| && IsOpening(w[..n]) && EndsFirst(w[n..])
  }

  /** Any other statement ends at its first SEMI. */
  predicate IsOrdinary(w: seq<Token>) {
    && w != [] && w[|w| - 1] == Semi
    && Semi !in w[..|w| - 1]
    && !HasOpening(w)
  }

  predicate IsStatement(w: seq<Token>) {
    IsTrigger(w) || IsOrdinary(w)
  }

  /** One statement or several in a row. */
  ghost predicate IsStatements(ts: seq<Token>)
    decreases |ts|
  {
    exists n :: 0 <= n < |ts| && IsStatement(ts[n..]) && (n == 0 || IsStatements(ts[..n]))
  }

  // ----- the states before the first SEMI of a statement

  function StateOf(p: seq<Token>, start: int): int {
    if HasOpening(p) then TRIGGER
    else if IsCreate(p) then CREATE
    else if IsExplain(p) then EXPLAIN
    else if p == [] then start
    else NORMAL
  }

  lemma OpeningStep(p: seq<Token>, x: Token)
    ensures HasOpening(p + [x]) <==> HasOpening(p) || (x == Trigger && IsCreate(p))
  {
    var q := p + [x];
    assert q[..|p| + 1] == q && q[..|p|] == p;
    assert forall n :: 0 <= n <= |p| ==> q[..n] == p[..n];
    if HasOpening(p) {
      var n :| 0 <= n <= |p| && IsOpening(p[..n]);
      assert IsOpening(q[..n]);
    }
  }

  lemma {:induction false} CreateShape(p: seq<Token>)
    requires IsCreate(p)
    ensures !IsExplain(p) && Semi !in p && Ws !in p
  {
    var n := |p| - 1;
    if p[n] == Temp {
      CreateShape(p[..n]);
      assert p == p[..n] + [p[n]];
    }
  }

  lemma CreateStep(p: seq<Token>, x: Token)
    ensures IsCreate(p + [x]) <==> (x == Create && (p == [] || IsExplain(p))) || (x == Temp && IsCreate(p))
  {
    assert (p + [x])[..|p|] == p;
  }

  lemma ExplainStep(p: seq<Token>, x: Token)
    ensures IsExplain(p + [x]) <==> (p == [] && x == Explain) || (IsExplain(p) && x == Other)
  {
    var q := p + [x];
    assert q[|p|] == x && forall i :: 0 <= i < |p| ==> q[i] == p[i];
  }

  /** One more token takes the table from the opening so far to the new one. */
  lemma OpeningNext(p: seq<Token>, x: Token, start: int)
    requires (start == INVALID || start == START) && x != Semi && x != Ws
    ensures StateOf(p + [x], start) == Next(StateOf(p, start), x)
  {
    OpeningStep(p, x);
    CreateStep(p, x);
    ExplainStep(p, x);
    if IsCreate(p) {
      CreateShape(p);
    }
    assert p + [x] != [];
  }

  /** Without a SEMI the state says how the statement opens. */
  lemma {:induction false} RunOpening(p: seq<Token>, start: int)
    requires (start == INVALID || start == START) && Semi !in p && Ws !in p
    ensures Run(start, p) == StateOf(p, start)
  {
    if p == [] {
      assert !HasOpening(p);
    } else {
      var n := |p| - 1;
      assert p == p[..n] + [p[n]];
      RunOpening(p[..n], start);
      OpeningNext(p[..n], p[n], start);
    }
  }

  /** Nothing but the end of a prefix without SEMI leads back to START. */
  lemma PrefixOpening(w: seq<Token>, i: nat, start: int)
    requires (start == INVALID || start == START) && 0 < i <= |w| && Semi !in w[..i] && Ws !in w
    ensures Run(start, w[..i]) == StateOf(w[..i], start) != START
  {
    RunOpening(w[..i], start);
  }

  // ----- the states inside a trigger

  function TailState(u: seq<Token>): int {
    if |u| >= 2 && u[|u| - 2] == Semi && u[|u| - 1] == End then END
    else if |u| >= 1 && u[|u| - 1] == Semi then SEMI
    else TRIGGER
  }

  /** No part of u from its beginning on leads from TRIGGER to START. */
  predicate NoReturn(u: seq<Token>) {
    forall i :: 0 <= i <= |u| ==> Run(TRIGGER, u[..i]) != START
  }

  lemma NoReturnStep(v: seq<Token>, x: Token)
    ensures NoReturn(v + [x]) <==> NoReturn(v) && Run(TRIGGER, v + [x]) != START
  {
    var u := v + [x];
    assert u[..|u|] == u;
    assert forall i :: 0 <= i <= |v| ==> v[..i] == u[..i];
  }

  lemma EndsAtLast(v: seq<Token>, x: Token)
    requires |v| >= 2
    ensures EndsAt(v + [x], |v| - 2) <==> TailState(v) == END && x == Semi
  {
  }

  lemma NeverEndsStep(v: seq<Token>, x: Token)
    ensures NeverEnds(v + [x]) <==> NeverEnds(v) && !(TailState(v) == END && x == Semi)
  {
    var u := v + [x];
    assert forall i :: 0 <= i <= |v| - 3 ==> (EndsAt(v, i) <==> EndsAt(u, i));
    if |v| >= 2 {
      EndsAtLast(v, x);
    }
  }

  /** The run from TRIGGER gets back to START exactly where SEMI END SEMI ends. */
  lemma {:induction false} TriggerRun(u: seq<Token>)
    requires Ws !in u
    ensures NeverEnds(u) <==> NoReturn(u)
    ensures NeverEnds(u) ==> Run(TRIGGER, u) == TailState(u)
  {
    if u == [] {
      assert u[..0] == u;
    } else {
      var v, x := u[..|u| - 1], u[|u| - 1];
      assert u == v + [x];
      TriggerRun(v);
      NoReturnStep(v, x);
      NeverEndsStep(v, x);
    }
  }

  lemma EndsFirstRun(u: seq<Token>)
    requires Ws !in u
    ensures EndsFirst(u) <==> u != [] && Run(TRIGGER, u) == START && NoReturn(u[..|u| - 1])
  {
    if u != [] {
      var v, x := u[..|u| - 1], u[|u| - 1];
      assert u == v + [x];
      TriggerRun(v);
      if |u| >= 3 {
        EndsAtLast(v, x);
      }
      assert Run(TRIGGER, u) == Next(Run(TRIGGER, v), x);
    }
  }

  /** A shortest run from the beginning of a statement back to START. */
  predicate Shortest(w: seq<Token>, start: int)
    requires 0 <= start < 8
  {
    w != [] && Run(start, w) == START && forall i :: 0 < i < |w| ==> Run(start, w[..i]) != START
  }

  lemma OpeningRuns(w: seq<Token>, n: nat, start: int)
    requires (start == INVALID || start == START) && n <= |w| && IsOpening(w[..n])
    ensures Run(start, w[..n]) == TRIGGER && Semi !in w[..n] && Ws !in w[..n]
  {
    var o := w[..n];
    CreateShape(o[..n - 1]);
    assert o == o[..n - 1] + [Trigger] && o[..n] == o;
    RunOpening(o, start);
  }

  lemma Cut<T>(w: seq<T>, n: nat, i: nat)
    requires n <= i <= |w|
    ensures w[..i] == w[..n] + w[n..][..i - n]
  {
  }

  lemma RunBehind(w: seq<Token>, n: nat, i: nat, start: int)
    requires 0 <= start < 8 && n <= i <= |w|
    ensures Run(start, w[..i]) == Run(Run(start, w[..n]), w[n..][..i - n])
  {
    Cut(w, n, i);
    RunConcat(start, w[..n], w[n..][..i - n]);
  }

  /** Before the opening is complete no run is back at START. */
  lemma OpeningNoReturn(w: seq<Token>, n: nat, i: nat, start: int)
    requires (start == INVALID || start == START) && Ws !in w && n <= |w| && IsOpening(w[..n]) && 0 < i <= n
    ensures Run(start, w[..i]) != START
  {
    OpeningRuns(w, n, start);
    assert forall k :: 0 <= k < i ==> w[..i][k] == w[..n][k];
    PrefixOpening(w, i, start);
  }

  /** The whole run, behind the opening. */
  lemma RunToEnd(w: seq<Token>, n: nat, start: int)
    requires 0 <= start < 8 && n <= |w|
    ensures Run(start, w) == Run(Run(start, w[..n]), w[n..])
  {
    assert w == w[..n] + w[n..];
    RunConcat(start, w[..n], w[n..]);
  }

  lemma TriggerReturns(w: seq<Token>, n: nat, start: int)
    requires (start == INVALID || start == START) && Ws !in w && n <= |w| && IsOpening(w[..n])
    requires EndsFirst(w[n..])
    ensures Shortest(w, start)
  {
    var u := w[n..];
    EndsFirstRun(u);
    OpeningRuns(w, n, start);
    RunToEnd(w, n, start);
    forall i | 0 < i < |w| ensures Run(start, w[..i]) != START {
      if i <= n {
        OpeningNoReturn(w, n, i, start);
      } else {
        RunBehind(w, n, i, start);
        assert u[..|u| - 1][..i - n] == u[..i - n];
      }
    }
  }

  lemma ShortestEndsTrigger(w: seq<Token>, n: nat, start: int)
    requires (start == INVALID || start == START) && Ws !in w && n <= |w| && IsOpening(w[..n])
    requires Shortest(w, start)
    ensures EndsFirst(w[n..])
  {
    var u := w[n..];
    OpeningRuns(w, n, start);
    assert n < |w| by {
      assert w[..|w|] == w;
    }
    RunToEnd(w, n, start);
    var v := u[..|u| - 1];
    forall i | 0 <= i <= |v| ensures Run(TRIGGER, v[..i]) != START {
      RunBehind(w, n, n + i, start);
      assert v[..i] == u[..i];
    }
    EndsFirstRun(u);
  }

  lemma TriggerIsShortest(w: seq<Token>, n: nat, start: int)
    requires (start == INVALID || start == START) && Ws !in w && n <= |w| && IsOpening(w[..n])
    ensures EndsFirst(w[n..]) <==> Shortest(w, start)
  {
    if EndsFirst(w[n..]) {
      TriggerReturns(w, n, start);
    }
    if Shortest(w, start) {
      ShortestEndsTrigger(w, n, start);
    }
  }

  lemma OrdinaryReturns(w: seq<Token>, start: int)
    requires (start == INVALID || start == START) && Ws !in w && IsOrdinary(w)
    ensures Shortest(w, start)
  {
    var n := |w| - 1;
    RunOpening(w[..n], start);
    OpeningOfPrefix(w, n);
    assert Run(start, w) == Next(StateOf(w[..n], start), Semi);
    forall i | 0 < i < |w| ensures Run(start, w[..i]) != START {
      assert forall k :: 0 <= k < i ==> w[..i][k] == w[..n][k];
      PrefixOpening(w, i, start);
    }
  }

  lemma ShortestIsOrdinary(w: seq<Token>, start: int)
    requires (start == INVALID || start == START) && Ws !in w && !HasOpening(w) && Shortest(w, start)
    ensures IsOrdinary(w)
  {
    var n := FirstSemi(w);
    assert w[..|w|] == w;
    OpeningOfPrefix(w, n);
    RunOpening(w[..n], start);
    if n < |w| {
      assert w[..n + 1][..n] == w[..n];
      assert Run(start, w[..n + 1]) == Next(StateOf(w[..n], start), Semi) == START;
    }
  }

  lemma OrdinaryIsShortest(w: seq<Token>, start: int)
    requires (start == INVALID || start == START) && Ws !in w && !HasOpening(w)
    ensures IsOrdinary(w) <==> Shortest(w, start)
  {
    if IsOrdinary(w) {
      OrdinaryReturns(w, start);
    }
    if Shortest(w, start) {
      ShortestIsOrdinary(w, start);
    }
  }

  lemma OpeningOfPrefix(w: seq<Token>, n: nat)
    requires !HasOpening(w) && n <= |w|
    ensures !HasOpening(w[..n])
  {
    assert forall i :: 0 <= i <= n ==> w[..n][..i] == w[..i];
  }

  lemma {:induction false} FirstSemi(w: seq<Token>) returns (n: nat)
    ensures n <= |w| && Semi !in w[..n] && (n < |w| ==> w[n] == Semi)
  {
    n := 0;
    while n < |w| && w[n] != Semi
      invariant n <= |w| && Semi !in w[..n]
    {
      n := n + 1;
    }
  }

  /** A statement of the grammar is the same as a shortest run of the table. */
  lemma StatementIsShortest(w: seq<Token>, start: int)
    requires (start == INVALID || start == START) && Ws !in w
    ensures IsStatement(w) <==> Shortest(w, start)
  {
    if HasOpening(w) {
      var n :| 0 <= n <= |w| && IsOpening(w[..n]);
      TriggerIsShortest(w, n, start);
      if IsTrigger(w) {
        var m :| 0 <= m <= |w| && IsOpening(w[..m]) && EndsFirst(w[m..]);
        TriggerIsShortest(w, m, start);
      }
    } else {
      OrdinaryIsShortest(w, start);
    }
  }

  /** The last place before the end from which a statement may run. */
  lemma LastStart(ts: seq<Token>) returns (n: nat)
    requires ts != []
    ensures n < |ts| && (n == 0 || Run(INVALID, ts[..n]) == START)
    ensures forall i :: n < i < |ts| ==> Run(INVALID, ts[..i]) != START
  {
    n := |ts| - 1;
    while n > 0 && Run(INVALID, ts[..n]) != START
      invariant n < |ts|
      invariant forall i :: n < i < |ts| ==> Run(INVALID, ts[..i]) != START
    {
      n := n - 1;
    }
  }

  /** An accepted run ends with a statement, and what is before it is empty or accepted too. */
  lemma AcceptedSplits(ts: seq<Token>) returns (n: nat)
    requires Ws !in ts && Run(INVALID, ts) == START
    ensures n < |ts| && IsStatement(ts[n..]) && (n == 0 || Run(INVALID, ts[..n]) == START)
  {
    n := LastStart(ts);
    SuffixShortest(ts, n);
    StatementIsShortest(ts[n..], Run(INVALID, ts[..n]));
  }

  lemma SuffixShortest(ts: seq<Token>, n: nat)
    requires n < |ts| && Run(INVALID, ts) == START
    requires forall i :: n < i < |ts| ==> Run(INVALID, ts[..i]) != START
    ensures Shortest(ts[n..], Run(INVALID, ts[..n]))
  {
    var start := Run(INVALID, ts[..n]);
    var w := ts[n..];
    RunToEnd(ts, n, INVALID);
    forall i | 0 < i < |w| ensures Run(start, w[..i]) != START {
      RunBehind(ts, n, n + i, INVALID);
    }
  }

  lemma StatementAccepted(ts: seq<Token>, n: nat)
    requires Ws !in ts && n < |ts| && IsStatement(ts[n..]) && (n == 0 || Run(INVALID, ts[..n]) == START)
    ensures Run(INVALID, ts) == START
  {
    StatementIsShortest(ts[n..], Run(INVALID, ts[..n]));
    assert ts == ts[..n] + ts[n..];
    RunConcat(INVALID, ts[..n], ts[n..]);
  }

  /** The table accepts exactly the non-empty sequences of statements. */
  lemma {:induction false} TableIsGrammar(ts: seq<Token>)
    requires Ws !in ts
    ensures Run(INVALID, ts) == START <==> IsStatements(ts)
    decreases |ts|
  {
    if Run(INVALID, ts) == START {
      var n := AcceptedSplits(ts);
      TableIsGrammar(ts[..n]);
    }
    if IsStatements(ts) {
      var n :| 0 <= n < |ts| && IsStatement(ts[n..]) && (n == 0 || IsStatements(ts[..n]));
      TableIsGrammar(ts[..n]);
      StatementAccepted(ts, n);
    }
  }
}
