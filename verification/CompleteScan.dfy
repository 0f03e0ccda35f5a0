/** sqlite3_complete on the characters of a text, one at a time and without looking ahead.

    The scan below knows of each character only whether it opens, closes or continues something.  It is
    shown to decide the same as the tokens, and then what comments, quotes and letter case do to a text
    is proved on the text itself.  The table appears in the proofs only as a function next. */
module CompleteScan {
  import opened Basics
  import opened Complete
  import opened CompleteText

  /** Where the end of a text lies: outside of everything, behind a letter, '/' or '-' that what follows
      may continue, in a line comment, in a block comment (behind a '*' of it), or in a quote or bracket. */
  datatype Mode = Plain | Word(word: string) | Slash | Dash | Line | Block | Star | Quoted(q: char)

  datatype Scan<S> = Scan(mode: Mode, state: S)

  /** The state of the table if nothing continues what the text ends with. */
  function Settle<S>(next: (S, Token) -> S, s: Scan<S>): S {
    match s.mode
    case Word(w) => next(s.state, Keyword(w))
    case Slash => next(s.state, Other)
    case Dash => next(s.state, Other)
    case _ => s.state
  }

  /** A character that continues nothing. */
  function Fresh<S>(next: (S, Token) -> S, state: S, c: char): Scan<S> {
    if c == ';' then Scan(Plain, next(state, Semi))
    else if Space(c) then Scan(Plain, state)
    else if IdChar(c) then Scan(Word([c]), state)
    else if c == '/' then Scan(Slash, state)
    else if c == '-' then Scan(Dash, state)
    else if Quote(c).Some? then Scan(Quoted(c), state)
    else Scan(Plain, next(state, Other))
  }

  function Step<S>(next: (S, Token) -> S, s: Scan<S>, c: char): Scan<S> {
    match s.mode
    case Line => if c == '\n' then Scan(Plain, s.state) else s
    case Block => if c == '*' then Scan(Star, s.state) else s
    case Star => if c == '/' then Scan(Plain, s.state) else if c == '*' then s else Scan(Block, s.state)
    case Quoted(q) => if Quote(q) == Some(c) then Scan(Plain, next(s.state, Other)) else s
    case _ =>
      if s.mode.Word? && IdChar(c) then Scan(Word(s.mode.word + [c]), s.state)
      else if s.mode == Slash && c == '*' then Scan(Block, s.state)
      else if s.mode == Dash && c == '-' then Scan(Line, s.state)
      else Fresh(next, Settle(next, s), c)
  }

  /** The scan of the first n characters. */
  function Feed<S>(next: (S, Token) -> S, s: Scan<S>, z: string, n: nat): Scan<S>
    requires n <= |z|
  {
    if n == 0 then s else Step(next, Feed(next, s, z, n - 1), z[n - 1])
  }

  function FeedAll<S>(next: (S, Token) -> S, s: Scan<S>, z: string): Scan<S> {
    Feed(next, s, z, |z|)
  }

  predicate Open(m: Mode) {
    m == Block || m == Star || m.Quoted?
  }

  /** Neither in a comment nor in a quote or bracket. */
  predicate Ready<S>(s: Scan<S>) {
    !Open(s.mode) && s.mode != Line
  }

  /** The state behind a scan that has nothing open. */
  function Result<S>(next: (S, Token) -> S, s: Scan<S>): Option<S> {
    if Open(s.mode) then None else Some(Settle(next, s))
  }

  lemma {:induction false} FeedPrefix<S>(next: (S, Token) -> S, s: Scan<S>, a: string, b: string, n: nat)
    requires n <= |a|
    ensures Feed(next, s, a + b, n) == Feed(next, s, a, n)
  {
    if n > 0 {
      FeedPrefix(next, s, a, b, n - 1);
    }
  }

  lemma {:induction false} FeedSuffix<S>(next: (S, Token) -> S, s: Scan<S>, a: string, b: string, n: nat)
    requires n <= |b|
    ensures Feed(next, s, a + b, |a| + n) == Feed(next, FeedAll(next, s, a), b, n)
  {
    if n == 0 {
      FeedPrefix(next, s, a, b, |a|);
    } else {
      FeedSuffix(next, s, a, b, n - 1);
    }
  }

  lemma FeedAppend<S>(next: (S, Token) -> S, s: Scan<S>, a: string, b: string)
    ensures FeedAll(next, s, a + b) == FeedAll(next, FeedAll(next, s, a), b)
  {
    FeedSuffix(next, s, a, b, |b|);
  }

  lemma FeedThree<S>(next: (S, Token) -> S, s: Scan<S>, a: string, x: string, b: string)
    ensures FeedAll(next, s, a + x + b) == FeedAll(next, FeedAll(next, FeedAll(next, s, a), x), b)
  {
    FeedAppend(next, s, a, x);
    FeedAppend(next, s, a + x, b);
  }

  lemma {:induction false} StayQuoted<S>(next: (S, Token) -> S, s: Scan<S>, z: string, i: nat, j: nat)
    requires i <= j <= |z| && Feed(next, s, z, i).mode.Quoted?
    requires forall k :: i <= k < j ==> Quote(Feed(next, s, z, i).mode.q) != Some(z[k])
    ensures Feed(next, s, z, j) == Feed(next, s, z, i)
  {
    if i < j {
      StayQuoted(next, s, z, i, j - 1);
    }
  }

  lemma {:induction false} StayLine<S>(next: (S, Token) -> S, s: Scan<S>, z: string, i: nat, j: nat)
    requires i <= j <= |z| && Feed(next, s, z, i).mode == Line
    requires forall k :: i <= k < j ==> z[k] != '\n'
    ensures Feed(next, s, z, j) == Feed(next, s, z, i)
  {
    if i < j {
      StayLine(next, s, z, i, j - 1);
    }
  }

  lemma {:induction false} StayBlock<S>(next: (S, Token) -> S, s: Scan<S>, z: string, i: nat, j: nat)
    requires i <= j <= |z| && Feed(next, s, z, i).mode == Block
    requires forall k :: i <= k < j - 1 ==> !(z[k] == '*' && z[k + 1] == '/')
    ensures Feed(next, s, z, j) == Scan(if i < j && z[j - 1] == '*' then Star else Block, Feed(next, s, z, i).state)
  {
    if i < j {
      StayBlock(next, s, z, i, j - 1);
    }
  }

  lemma {:induction false} StayWord<S>(next: (S, Token) -> S, s: Scan<S>, z: string, i: nat, j: nat, state: S)
    requires i < j <= |z| && Feed(next, s, z, i + 1) == Scan(Word([z[i]]), state)
    requires forall k :: i < k < j ==> IdChar(z[k])
    ensures Feed(next, s, z, j) == Scan(Word(z[i..j]), state)
  {
    if i + 1 < j {
      StayWord(next, s, z, i, j - 1, state);
      assert z[i..j] == z[i..j - 1] + [z[j - 1]];
    } else {
      assert z[i..j] == [z[i]];
    }
  }

  // ----- the scan and the tokens

  /** What stands at place i begins anew. */
  predicate Anew<S(==)>(next: (S, Token) -> S, s: Scan<S>, z: string, i: nat)
    requires i <= |z|
  {
    var t := Feed(next, s, z, i);
    && !Open(t.mode)
    && (i < |z| ==> t.mode != Line && Step(next, t, z[i]) == Fresh(next, Settle(next, t), z[i]))
  }

  /** Spaces and comments leave the table where it is. */
  ghost predicate Idle<S(!new)>(next: (S, Token) -> S) {
    forall s :: next(s, Ws) == s
  }

  /** The scan of one token more takes the table on by it. */
  predicate Taken<S(==)>(next: (S, Token) -> S, s: Scan<S>, z: string, i: nat)
    requires i < |z|
  {
    match Lex(z, i)
    case Unterminated => Open(FeedAll(next, s, z).mode)
    case Lexeme(t, j) =>
      && Anew(next, s, z, j)
      && Settle(next, Feed(next, s, z, j)) == next(Settle(next, Feed(next, s, z, i)), t)
  }

  lemma PlainTaken<S>(next: (S, Token) -> S, s: Scan<S>, z: string, i: nat, t: Token, j: nat)
    requires i < |z| && Lex(z, i) == Lexeme(t, j)
    requires Feed(next, s, z, j) == Scan(Plain, next(Settle(next, Feed(next, s, z, i)), t))
    ensures Taken(next, s, z, i)
  {
  }

  lemma BlockBegins<S>(next: (S, Token) -> S, s: Scan<S>, z: string, i: nat)
    requires i + 1 < |z| && Anew(next, s, z, i) && z[i] == '/' && z[i + 1] == '*'
    ensures Feed(next, s, z, i + 2) == Scan(Block, Settle(next, Feed(next, s, z, i)))
  {
    assert Feed(next, s, z, i + 1) == Scan(Slash, Settle(next, Feed(next, s, z, i)));
  }

  lemma BlockEnds<S>(next: (S, Token) -> S, s: Scan<S>, z: string, j: nat)
    requires j + 2 <= |z| && z[j] == '*' && z[j + 1] == '/'
    requires Feed(next, s, z, j).mode == Block || Feed(next, s, z, j).mode == Star
    ensures Feed(next, s, z, j + 2) == Scan(Plain, Feed(next, s, z, j).state)
  {
    assert Feed(next, s, z, j + 1) == Scan(Star, Feed(next, s, z, j).state);
  }

  lemma BlockTaken<S(!new)>(next: (S, Token) -> S, s: Scan<S>, z: string, i: nat)
    requires i < |z| && Anew(next, s, z, i) && Idle(next) && z[i] == '/' && At(z, i + 1) == '*'
    ensures Taken(next, s, z, i)
  {
    var j := CommentEnd(z, i + 2);
    BlockBegins(next, s, z, i);
    forall k | i + 2 <= k < j - 1 ensures !(z[k] == '*' && z[k + 1] == '/') {
      assert !ClosesComment(z, k);
    }
    StayBlock(next, s, z, i + 2, j);
    if j < |z| {
      assert ClosesComment(z, j);
      BlockEnds(next, s, z, j);
      PlainTaken(next, s, z, i, Ws, j + 2);
    }
  }

  lemma LineBegins<S>(next: (S, Token) -> S, s: Scan<S>, z: string, i: nat)
    requires i + 1 < |z| && Anew(next, s, z, i) && z[i] == '-' && z[i + 1] == '-'
    ensures Feed(next, s, z, i + 2) == Scan(Line, Settle(next, Feed(next, s, z, i)))
  {
    assert Feed(next, s, z, i + 1) == Scan(Dash, Settle(next, Feed(next, s, z, i)));
  }

  lemma LineTaken<S(!new)>(next: (S, Token) -> S, s: Scan<S>, z: string, i: nat)
    requires i < |z| && Anew(next, s, z, i) && Idle(next) && z[i] == '-' && At(z, i + 1) == '-'
    ensures Taken(next, s, z, i)
  {
    var j := Until(z, i, '\n');
    LineBegins(next, s, z, i);
    forall k | i <= k < j ensures z[k] != '\n' {
      assert z[k] == z[i..j][k - i];
    }
    StayLine(next, s, z, i + 2, j);
    if j < |z| {
      PlainTaken(next, s, z, i, Ws, j + 1);
    }
  }

  lemma QuoteBegins<S>(next: (S, Token) -> S, s: Scan<S>, z: string, i: nat)
    requires i < |z| && Anew(next, s, z, i) && Quote(z[i]).Some?
    ensures Feed(next, s, z, i + 1) == Scan(Quoted(z[i]), Settle(next, Feed(next, s, z, i)))
  {
  }

  lemma QuoteEnds<S>(next: (S, Token) -> S, s: Scan<S>, z: string, j: nat, q: char, state: S)
    requires j < |z| && Feed(next, s, z, j) == Scan(Quoted(q), state) && Quote(q) == Some(z[j])
    ensures Feed(next, s, z, j + 1) == Scan(Plain, next(state, Other))
  {
  }

  lemma QuoteTaken<S>(next: (S, Token) -> S, s: Scan<S>, z: string, i: nat)
    requires i < |z| && Anew(next, s, z, i) && Quote(z[i]).Some?
    ensures Taken(next, s, z, i)
  {
    var j := Until(z, i + 1, Quote(z[i]).value);
    QuoteBegins(next, s, z, i);
    forall k | i + 1 <= k < j ensures Quote(z[i]) != Some(z[k]) {
      assert z[k] == z[i + 1..j][k - (i + 1)];
    }
    StayQuoted(next, s, z, i + 1, j);
    if j < |z| {
      QuoteEnds(next, s, z, j, z[i], Settle(next, Feed(next, s, z, i)));
      PlainTaken(next, s, z, i, Other, j + 1);
    }
  }

  lemma WordTaken<S>(next: (S, Token) -> S, s: Scan<S>, z: string, i: nat)
    requires i < |z| && Anew(next, s, z, i) && IdChar(z[i])
    ensures Taken(next, s, z, i)
  {
    var state := Settle(next, Feed(next, s, z, i));
    assert Feed(next, s, z, i + 1) == Scan(Word([z[i]]), state);
    StayWord(next, s, z, i, IdEnd(z, i + 1), state);
  }

  lemma TokenTaken<S(!new)>(next: (S, Token) -> S, s: Scan<S>, z: string, i: nat)
    requires i < |z| && Anew(next, s, z, i) && Idle(next)
    ensures Taken(next, s, z, i)
  {
    if IdChar(z[i]) {
      WordTaken(next, s, z, i);
    } else if Quote(z[i]).Some? {
      QuoteTaken(next, s, z, i);
    } else if z[i] == '/' && At(z, i + 1) == '*' {
      BlockTaken(next, s, z, i);
    } else if z[i] == '-' && At(z, i + 1) == '-' {
      LineTaken(next, s, z, i);
    } else {
      assert Feed(next, s, z, i + 1) == Fresh(next, Settle(next, Feed(next, s, z, i)), z[i]);
    }
  }

  function RunBy<S>(next: (S, Token) -> S, state: S, ts: seq<Token>): S {
    if ts == [] then state else RunBy(next, next(state, ts[0]), ts[1..])
  }

  /** All tokens from i on. */
  lemma {:induction false} AllTaken<S(!new)>(next: (S, Token) -> S, s: Scan<S>, z: string, i: nat)
    requires i <= |z| && Anew(next, s, z, i) && Idle(next)
    ensures Tokens(z, i).None? <==> Open(FeedAll(next, s, z).mode)
    ensures Tokens(z, i).Some? ==>
      Settle(next, FeedAll(next, s, z)) == RunBy(next, Settle(next, Feed(next, s, z, i)), Tokens(z, i).value)
    decreases |z| - i
  {
    if i < |z| {
      TokenTaken(next, s, z, i);
      match Lex(z, i)
      case Unterminated =>
      case Lexeme(t, j) => AllTaken(next, s, z, j);
    }
  }

  // ----- the scan with the table of sqlite3_complete

  function NextState(state: int, t: Token): int {
    if 0 <= state < 8 then Next(state, t) else state
  }

  /** The scan of a text. */
  function ScanOf(z: string): Scan<int> {
    FeedAll(NextState, Scan(Plain, INVALID), z)
  }

  lemma {:induction false} RunByRun(state: int, ts: seq<Token>)
    requires 0 <= state < 8
    ensures RunBy(NextState, state, ts) == Run(state, ts)
    decreases |ts|
  {
    if ts != [] {
      RunByRun(Next(state, ts[0]), ts[1..]);
      assert [ts[0]] + ts[1..] == ts && [ts[0]][..0] == [];
      RunConcat(state, [ts[0]], ts[1..]);
    }
  }

  lemma NextIdle()
    ensures Idle(NextState)
  {
  }

  /** The tokens of a text run as the scan goes. */
  lemma TokensRun(z: string)
    ensures Result(NextState, ScanOf(z)) ==
      match Tokens(z, 0) case None => None case Some(ts) => Some(Run(INVALID, ts))
  {
    NextIdle();
    AllTaken(NextState, Scan(Plain, INVALID), z, 0);
    if Tokens(z, 0).Some? {
      RunByRun(INVALID, Tokens(z, 0).value);
    }
  }

  /** A text is complete exactly when the scan of its characters ends in START with nothing open. */
  lemma ScanDecides(z: string)
    ensures IsComplete(z) <==> Result(NextState, ScanOf(z)) == Some(START)
  {
    TokensRun(z);
    if Tokens(z, 0).Some? {
      WsIgnored(INVALID, Tokens(z, 0).value);
      TableIsGrammar(NonWs(Tokens(z, 0).value));
    }
  }

  // ----- spaces, comments and quotes

  lemma SpaceEnds<S>(next: (S, Token) -> S, s: Scan<S>, c: char)
    requires Space(c)
    ensures Result(next, Step(next, s, c)) == Result(next, s)
  {
  }

  lemma ScanAppend(a: string, b: string)
    ensures ScanOf(a + b) == FeedAll(NextState, ScanOf(a), b)
  {
    FeedAppend(NextState, Scan(Plain, INVALID), a, b);
  }

  /** A space at the end changes nothing. */
  lemma SpaceIgnored(z: string, c: char)
    requires c == ' ' || c == '\t' || c == '\n' || c == '\U{0C}' || c == '\r'
    ensures IsComplete(z + [c]) <==> IsComplete(z)
  {
    ScanDecides(z);
    ScanDecides(z + [c]);
    ScanAppend(z, [c]);
    FeedOne(NextState, ScanOf(z), [c]);
    SpaceEnds(NextState, ScanOf(z), c);
  }

  lemma FeedOne<S>(next: (S, Token) -> S, s: Scan<S>, x: string)
    requires x != []
    ensures Feed(next, s, x, 1) == Step(next, s, x[0])
  {
    assert Feed(next, s, x, 0) == s;
  }

  lemma SameResult<S>(next: (S, Token) -> S, s: Scan<S>, a: string, x: string, y: string, b: string)
    requires FeedAll(next, FeedAll(next, s, a), x) == FeedAll(next, FeedAll(next, s, a), y)
    ensures Result(next, FeedAll(next, s, a + x + b)) == Result(next, FeedAll(next, s, a + y + b))
  {
    FeedThree(next, s, a, x, b);
    FeedThree(next, s, a, y, b);
  }

  /** Pieces with the same effect behind a are interchangeable, whatever follows. */
  lemma Interchange(a: string, x: string, y: string, b: string)
    requires FeedAll(NextState, ScanOf(a), x) == FeedAll(NextState, ScanOf(a), y)
    ensures IsComplete(a + x + b) <==> IsComplete(a + y + b)
  {
    ScanDecides(a + x + b);
    ScanDecides(a + y + b);
    SameResult(NextState, Scan(Plain, INVALID), a, x, y, b);
  }

  /** The text inside a block comment does not close it. */
  predicate CommentText(x: string) {
    forall k :: 0 <= k < |x| - 1 ==> !(x[k] == '*' && x[k + 1] == '/')
  }

  lemma FeedSpace<S>(next: (S, Token) -> S, s: Scan<S>, c: char)
    requires Ready(s) && Space(c)
    ensures FeedAll(next, s, [c]) == Scan(Plain, Settle(next, s))
  {
    FeedOne(next, s, [c]);
  }

  lemma FeedBlock<S>(next: (S, Token) -> S, s: Scan<S>, z: string)
    requires Ready(s) && |z| >= 2 && z[0] == '/' && z[1] == '*' && CommentText(z[2..])
    ensures FeedAll(next, s, z) == Scan(if |z| > 2 && z[|z| - 1] == '*' then Star else Block, Settle(next, s))
  {
    FeedOne(next, s, z);
    assert Feed(next, s, z, 2) == Scan(Block, Settle(next, s));
    forall k | 2 <= k < |z| - 1 ensures !(z[k] == '*' && z[k + 1] == '/') {
      assert z[k] == z[2..][k - 2] && z[k + 1] == z[2..][k - 1];
    }
    StayBlock(next, s, z, 2, |z|);
  }

  lemma FeedLine<S>(next: (S, Token) -> S, s: Scan<S>, z: string)
    requires Ready(s) && s.mode != Dash && LineText(z)
    ensures FeedAll(next, s, z) == Scan(Line, Settle(next, s))
  {
    FeedOne(next, s, z);
    assert Feed(next, s, z, 2) == Scan(Line, Settle(next, s));
    forall k | 2 <= k < |z| ensures z[k] != '\n' {
      assert z[k] == z[2..][k - 2];
    }
    StayLine(next, s, z, 2, |z|);
  }

  lemma FeedOpen<S>(next: (S, Token) -> S, s: Scan<S>, z: string)
    requires Ready(s) && z != [] && Quote(z[0]).Some? && Quote(z[0]).value !in z[1..]
    ensures FeedAll(next, s, z) == Scan(Quoted(z[0]), Settle(next, s))
  {
    FeedOne(next, s, z);
    forall k | 1 <= k < |z| ensures Quote(z[0]) != Some(z[k]) {
      assert z[k] == z[1..][k - 1];
    }
    StayQuoted(next, s, z, 1, |z|);
  }

  /** A block comment, a line comment with its newline, and a quote or bracket. */
  predicate ClosedBlock(p: string) {
    |p| >= 4 && p[..2] == "/*" && p[|p| - 2..] == "*/" && CommentText(p[2..|p| - 2])
  }

  predicate ClosedLine(p: string) {
    |p| >= 3 && p[..2] == "--" && p[|p| - 1] == '\n' && '\n' !in p[2..|p| - 1]
  }

  predicate Closes(q: char, e: char) {
    (q == '[' && e == ']') || (q == e && (q == '`' || q == '"' || q == '\''))
  }

  predicate ClosedQuote(p: string) {
    |p| >= 2 && Closes(p[0], p[|p| - 1]) && p[|p| - 1] !in p[1..|p| - 1]
  }

  lemma FeedClosedBlock<S>(next: (S, Token) -> S, s: Scan<S>, p: string)
    requires Ready(s) && ClosedBlock(p)
    ensures FeedAll(next, s, p) == Scan(Plain, Settle(next, s))
  {
    var a, n := p[..|p| - 2], |p| - 2;
    assert a[2..] == p[2..n] && p == a + p[n..] && a[..2] == p[..2];
    assert p[n] == p[n..][0] && p[n + 1] == p[n..][1] && a[0] == p[..2][0] && a[1] == p[..2][1];
    FeedBlock(next, s, a);
    FeedPrefix(next, s, a, p[n..], n);
    BlockEnds(next, s, p, n);
  }

  lemma FeedClosedLine<S>(next: (S, Token) -> S, s: Scan<S>, p: string)
    requires Ready(s) && s.mode != Dash && ClosedLine(p)
    ensures FeedAll(next, s, p) == Scan(Plain, Settle(next, s))
  {
    var a, n := p[..|p| - 1], |p| - 1;
    assert a[2..] == p[2..n] && p == a + p[n..];
    assert a[0] == p[..2][0] && a[1] == p[..2][1];
    FeedLine(next, s, a);
    FeedPrefix(next, s, a, p[n..], n);
  }

  lemma FeedClosedQuote<S>(next: (S, Token) -> S, s: Scan<S>, p: string)
    requires Ready(s) && ClosedQuote(p)
    ensures FeedAll(next, s, p) == Scan(Plain, next(Settle(next, s), Other))
  {
    var a, n := p[..|p| - 1], |p| - 1;
    assert a[1..] == p[1..n] && p == a + p[n..];
    FeedOpen(next, s, a);
    FeedPrefix(next, s, a, p[n..], n);
    QuoteEnds(next, s, p, n, p[0], Settle(next, s));
  }

  /** A closed block comment is as good as a space. */
  lemma BlockCommentIsSpace(a: string, p: string, b: string)
    requires Ready(ScanOf(a)) && ClosedBlock(p)
    ensures IsComplete(a + p + b) <==> IsComplete(a + " " + b)
  {
    FeedClosedBlock(NextState, ScanOf(a), p);
    FeedSpace(NextState, ScanOf(a), ' ');
    Interchange(a, p, " ", b);
  }

  /** So is a line comment up to the end of its line; but behind a single '-' its first dash would begin
      it. */
  lemma LineCommentIsSpace(a: string, p: string, b: string)
    requires Ready(ScanOf(a)) && ScanOf(a).mode != Dash && ClosedLine(p)
    ensures IsComplete(a + p + b) <==> IsComplete(a + " " + b)
  {
    FeedClosedLine(NextState, ScanOf(a), p);
    FeedSpace(NextState, ScanOf(a), ' ');
    Interchange(a, p, " ", b);
  }

  /** A line comment that may lack its newline. */
  predicate LineText(p: string) {
    |p| >= 2 && p[0] == p[1] == '-' && '\n' !in p[2..]
  }

  /** At the end of the text a comment changes nothing. */
  lemma LastBlockIgnored(a: string, p: string)
    requires Ready(ScanOf(a)) && ClosedBlock(p)
    ensures IsComplete(a + p) <==> IsComplete(a)
  {
    BlockCommentIsSpace(a, p, []);
    SpaceIgnored(a, ' ');
    assert a + p + [] == a + p && a + " " + [] == a + [' '];
  }

  /** And a line comment need not have an end there. */
  lemma LastLineIgnored(a: string, p: string)
    requires Ready(ScanOf(a)) && ScanOf(a).mode != Dash && LineText(p)
    ensures IsComplete(a + p) <==> IsComplete(a)
  {
    FeedLine(NextState, ScanOf(a), p);
    ScanDecides(a);
    ScanDecides(a + p);
    ScanAppend(a, p);
  }

  /** A closed quote or bracket is as good as a character without a meaning, whatever is in it. */
  lemma QuoteIsOther(a: string, p: string, b: string)
    requires Ready(ScanOf(a)) && ClosedQuote(p)
    ensures IsComplete(a + p + b) <==> IsComplete(a + "?" + b)
  {
    FeedClosedQuote(NextState, ScanOf(a), p);
    FeedOne(NextState, ScanOf(a), "?");
    Interchange(a, p, "?", b);
  }

  /** Nothing with a quote, bracket or block comment left open is complete. */
  lemma UnclosedIsIncomplete(a: string, x: string, e: char)
    requires Ready(ScanOf(a))
    requires || (x != [] && Closes(x[0], e) && e !in x[1..])
             || (|x| >= 2 && x[0] == '/' && x[1] == '*' && CommentText(x[2..]))
    ensures !IsComplete(a + x)
  {
    if Quote(x[0]).Some? {
      FeedOpen(NextState, ScanOf(a), x);
    } else {
      FeedBlock(NextState, ScanOf(a), x);
    }
    ScanDecides(a + x);
    ScanAppend(a, x);
  }

  // ----- letter case

  function LowerScan<S>(s: Scan<S>): Scan<S> {
    if s.mode.Word? then Scan(Word(Lower(s.mode.word)), s.state) else s
  }

  lemma LowerKeeps(c: char)
    ensures IdChar(LowerChar(c)) <==> IdChar(c)
    ensures LowerChar(LowerChar(c)) == LowerChar(c)
    ensures !('A' <= c <= 'Z') ==> LowerChar(c) == c
    ensures 'A' <= c <= 'Z' ==> 'a' <= LowerChar(c) <= 'z'
  {
  }

  lemma LowerWord(w: string)
    ensures Keyword(Lower(w)) == Keyword(w)
  {
    forall i | 0 <= i < |w| ensures Lower(Lower(w))[i] == Lower(w)[i] {
      LowerKeeps(w[i]);
    }
    assert Lower(Lower(w)) == Lower(w);
  }

  lemma LowerSettle<S>(next: (S, Token) -> S, s: Scan<S>)
    ensures Settle(next, LowerScan(s)) == Settle(next, s)
  {
    if s.mode.Word? {
      LowerWord(s.mode.word);
    }
  }

  lemma LowerStep<S>(next: (S, Token) -> S, s: Scan<S>, c: char)
    ensures Step(next, LowerScan(s), LowerChar(c)) == LowerScan(Step(next, s, c))
  {
    LowerKeeps(c);
    LowerSettle(next, s);
    assert Lower([c]) == [LowerChar(c)];
    if s.mode.Word? {
      assert Lower(s.mode.word + [c]) == Lower(s.mode.word) + [LowerChar(c)];
    }
  }

  lemma {:induction false} LowerFeed<S>(next: (S, Token) -> S, s: Scan<S>, z: string, n: nat)
    requires n <= |z| && s.mode == Plain
    ensures Feed(next, s, Lower(z), n) == LowerScan(Feed(next, s, z, n))
  {
    if n > 0 {
      LowerFeed(next, s, z, n - 1);
      LowerStep(next, Feed(next, s, z, n - 1), z[n - 1]);
    }
  }

  lemma LowerResult<S>(next: (S, Token) -> S, s: Scan<S>, z: string)
    requires s.mode == Plain
    ensures Result(next, FeedAll(next, s, Lower(z))) == Result(next, FeedAll(next, s, z))
  {
    LowerFeed(next, s, z, |z|);
    LowerSettle(next, FeedAll(next, s, z));
  }

  /** Letter case never matters. */
  lemma CaseIgnored(z: string)
    ensures IsComplete(Lower(z)) <==> IsComplete(z)
  {
    ScanDecides(z);
    ScanDecides(Lower(z));
    LowerResult(NextState, Scan(Plain, INVALID), z);
  }
}
