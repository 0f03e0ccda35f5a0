/** How a complete text ends: behind a semicolon, and the text of a trigger behind ";END;". */
module CompleteEnds {
  import opened Basics
  import opened Complete
  import opened CompleteText
  import opened CompleteScan

  // ----- spaces and comments

  predicate IsGap(p: string) {
    (|p| == 1 && Space(p[0])) || ClosedLine(p) || ClosedBlock(p)
  }

  /** Nothing but spaces and comments. */
  ghost predicate Blank(s: string)
    decreases |s|
  {
    s == [] || exists n :: 0 <= n < |s| && Blank(s[..n]) && IsGap(s[n..])
  }

  lemma BlankMore(s: string, p: string)
    requires Blank(s) && IsGap(p)
    ensures Blank(s + p)
  {
    assert (s + p)[..|s|] == s && (s + p)[|s|..] == p;
  }

  lemma Rejoin(p: string, a: string, b: string, s: string)
    requires s == a + b
    ensures p + a + b == p + s
  {
  }

  lemma {:induction false} BlankBefore(p: string, s: string)
    requires IsGap(p) && Blank(s)
    ensures Blank(p + s)
    decreases |s|
  {
    if s == [] {
      BlankMore([], p);
      assert [] + p == p + s;
    } else {
      var n :| 0 <= n < |s| && Blank(s[..n]) && IsGap(s[n..]);
      var a, b := s[..n], s[n..];
      assert s == a + b;
      BlankBefore(p, a);
      BlankMore(p + a, b);
      Rejoin(p, a, b, s);
    }
  }

  lemma FeedGap<S>(next: (S, Token) -> S, s: Scan<S>, p: string)
    requires Ready(s) && s.mode != Dash && IsGap(p)
    ensures FeedAll(next, s, p) == Scan(Plain, Settle(next, s))
  {
    if ClosedLine(p) {
      FeedClosedLine(next, s, p);
    } else if ClosedBlock(p) {
      FeedClosedBlock(next, s, p);
    } else {
      FeedSpace(next, s, p[0]);
      assert p == [p[0]];
    }
  }

  lemma {:induction false} FeedBlank<S>(next: (S, Token) -> S, s: Scan<S>, x: string)
    requires Ready(s) && s.mode != Dash && Blank(x) && x != []
    ensures FeedAll(next, s, x) == Scan(Plain, Settle(next, s))
    decreases |x|
  {
    var n :| 0 <= n < |x| && Blank(x[..n]) && IsGap(x[n..]);
    assert x == x[..n] + x[n..];
    FeedAppend(next, s, x[..n], x[n..]);
    if n > 0 {
      FeedBlank(next, s, x[..n]);
    }
    FeedGap(next, FeedAll(next, s, x[..n]), x[n..]);
  }

  lemma FeedBlanks<S>(next: (S, Token) -> S, state: S, x: string)
    requires Blank(x)
    ensures FeedAll(next, Scan(Plain, state), x) == Scan(Plain, state)
  {
    if x != [] {
      FeedBlank(next, Scan(Plain, state), x);
    }
  }

  lemma BlockIsGap(z: string, i: nat, j: nat)
    requires i + 2 <= j && j + 2 <= |z| && z[i] == '/' && z[i + 1] == '*' && j == CommentEnd(z, i + 2)
    ensures ClosedBlock(z[i..j + 2])
  {
    var p := z[i..j + 2];
    var x := p[2..|p| - 2];
    assert p[..2] == "/*" && p[|p| - 2..] == "*/" by {
      assert ClosesComment(z, j);
    }
    forall k | 0 <= k < |x| - 1 ensures !(x[k] == '*' && x[k + 1] == '/') {
      assert !ClosesComment(z, i + 2 + k);
    }
  }

  lemma LineIsGap(z: string, i: nat, j: nat, p: string)
    requires i + 2 <= j <= |z| && z[i] == '-' && z[i + 1] == '-' && '\n' !in z[i..j] && p == z[i..j] + "\n"
    ensures ClosedLine(p)
  {
    assert p[..2] == "--" && p[2..|p| - 1] == z[i..j][2..];
  }

  lemma UntilBehind(z: string, i: nat)
    requires i < |z| && z[i] == '-' && At(z, i + 1) == '-'
    ensures i + 2 <= Until(z, i, '\n')
  {
  }

  lemma LineWithEnd(z: string, i: nat, j: nat)
    requires i + 2 <= j < |z| && z[i] == '-' && z[i + 1] == '-' && '\n' !in z[i..j] && z[j] == '\n'
    ensures ClosedLine(z[i..j + 1])
  {
    assert z[i..j + 1] == z[i..j] + [z[j]];
    LineIsGap(z, i, j, z[i..j + 1]);
  }

  lemma WsIsLine(z: string, i: nat, j: nat)
    requires i < |z| && z[i] == '-' && At(z, i + 1) == '-' && j == Until(z, i, '\n')
    ensures j < |z| ==> ClosedLine(z[i..j + 1])
    ensures j == |z| ==> ClosedLine(z[i..] + "\n")
  {
    UntilBehind(z, i);
    if j < |z| {
      LineWithEnd(z, i, j);
    } else {
      LineIsGap(z, i, j, z[i..] + "\n");
    }
  }

  /** A space or a comment from i to j. */
  predicate WsAt(z: string, i: nat, j: nat)
    requires i < |z|
  {
    || (Space(z[i]) && j == i + 1)
    || (z[i] == '/' && At(z, i + 1) == '*' && j == CommentEnd(z, i + 2) + 2 && j <= |z|)
    || (z[i] == '-' && At(z, i + 1) == '-' && var n := Until(z, i, '\n'); j == if n == |z| then n else n + 1)
  }

  lemma WsToken(z: string, i: nat)
    requires i < |z| && Lex(z, i).Lexeme? && Lex(z, i).token == Ws
    ensures WsAt(z, i, Lex(z, i).next)
  {
  }

  lemma WsIsGap(z: string, i: nat, j: nat)
    requires i < |z| && WsAt(z, i, j)
    ensures i < j <= |z| && (IsGap(z[i..j]) || (j == |z| && ClosedLine(z[i..] + "\n")))
  {
    if z[i] == '/' {
      BlockIsGap(z, i, CommentEnd(z, i + 2));
    } else if z[i] == '-' {
      WsIsLine(z, i, Until(z, i, '\n'));
    }
  }

  // ----- the last semicolon

  /** The scan of the first n characters of a text. */
  function ScanTo<S>(next: (S, Token) -> S, begin: S, z: string, n: nat): Scan<S>
    requires n <= |z|
  {
    Feed(next, Scan(Plain, begin), z, n)
  }

  lemma ScanToPart<S>(next: (S, Token) -> S, begin: S, z: string, n: nat)
    requires n <= |z|
    ensures ScanTo(next, begin, z, n) == FeedAll(next, Scan(Plain, begin), z[..n])
  {
    assert z == z[..n] + z[n..];
    FeedPrefix(next, Scan(Plain, begin), z[..n], z[n..], n);
  }

  /** The place i is neither in a comment nor in a quote or bracket. */
  predicate Outside(z: string, i: nat)
    requires i <= |z|
  {
    Ready(ScanTo(NextState, INVALID, z, i))
  }

  /** At place p the text has a semicolon outside of everything, and from there to i nothing else. */
  ghost predicate SemiAt(z: string, p: nat, i: nat) {
    p < i <= |z| && z[p] == ';' && Outside(z, p) && Blank(z[p + 1..i])
  }

  /** The same up to the end of the text, where a line comment may lack its newline. */
  ghost predicate LastSemi(z: string, p: nat) {
    p < |z| && z[p] == ';' && Outside(z, p) && Blank(z[p + 1..] + "\n")
  }

  lemma BlankToEnd(z: string, i: nat)
    requires i < |z| && Lex(z, i).Lexeme? && Lex(z, i).token == Ws && Blank(z[Lex(z, i).next..] + "\n")
    ensures Blank(z[i..] + "\n")
  {
    WsToken(z, i);
    WsIsGap(z, i, Lex(z, i).next);
    GapToEnd(z, i, Lex(z, i).next);
  }

  lemma GapToEnd(z: string, i: nat, j: nat)
    requires i < j <= |z| && Blank(z[j..] + "\n") && (IsGap(z[i..j]) || (j == |z| && ClosedLine(z[i..] + "\n")))
    ensures Blank(z[i..] + "\n")
  {
    if IsGap(z[i..j]) {
      BlankBefore(z[i..j], z[j..] + "\n");
      assert z[i..j] + (z[j..] + "\n") == z[i..] + "\n";
    } else {
      BlankMore([], z[i..] + "\n");
      assert [] + (z[i..] + "\n") == z[i..] + "\n";
    }
  }

  lemma OnlySemiStarts(state: int, t: Token)
    requires NextState(state, t) == START
    ensures t == Semi || (t == Ws && state == START)
  {
  }

  lemma SemiToken(z: string, i: nat)
    requires i < |z| && Lex(z, i).Lexeme? && Lex(z, i).token == Semi
    ensures z[i] == ';' && Lex(z, i).next == i + 1
  {
  }

  /** The step back over the token at i. */
  lemma LastSemiBack(z: string, i: nat, state: int)
    requires i < |z| && Outside(z, i) && Lex(z, i).Lexeme?
    requires NextState(state, Lex(z, i).token) == START && Blank(z[Lex(z, i).next..] + "\n")
    ensures LastSemi(z, i) || (state == START && Blank(z[i..] + "\n"))
  {
    OnlySemiStarts(state, Lex(z, i).token);
    if Lex(z, i).token == Ws {
      BlankToEnd(z, i);
    } else {
      SemiToken(z, i);
    }
  }

  /** Back from the accepted end over spaces and comments there is a semicolon. */
  lemma {:induction false} FindLastSemi(z: string, i: nat) returns (p: nat)
    requires i <= |z| && Anew(NextState, Scan(Plain, INVALID), z, i)
    requires Result(NextState, ScanOf(z)) == Some(START)
    ensures LastSemi(z, p) || (Settle(NextState, ScanTo(NextState, INVALID, z, i)) == START && Blank(z[i..] + "\n"))
    decreases |z| - i
  {
    p := i;
    if i == |z| {
      BlankMore([], "\n");
      assert [] + "\n" == z[i..] + "\n";
    } else {
      NextIdle();
      TokenTaken(NextState, Scan(Plain, INVALID), z, i);
      p := FindLastSemi(z, Lex(z, i).next);
      if !LastSemi(z, p) {
        LastSemiBack(z, i, Settle(NextState, ScanTo(NextState, INVALID, z, i)));
        p := i;
      }
    }
  }

  /** Every complete text has, but for spaces and comments, a semicolon as its last. */
  lemma EndsWithSemicolon(z: string)
    requires IsComplete(z)
    ensures exists p :: LastSemi(z, p)
  {
    ScanDecides(z);
    var p := FindLastSemi(z, 0);
  }

  lemma ResultBehind<S>(next: (S, Token) -> S, s: Scan<S>, a: string, b: string, state: S)
    requires FeedAll(next, s, a) == Scan(Plain, state) && Blank(b)
    ensures Result(next, FeedAll(next, s, a + b)) == Some(state)
  {
    FeedAppend(next, s, a, b);
    FeedBlanks(next, state, b);
  }

  lemma ResultBlank<S>(next: (S, Token) -> S, begin: S, z: string, n: nat, state: S)
    requires n <= |z| && ScanTo(next, begin, z, n) == Scan(Plain, state) && Blank(z[n..] + "\n")
    ensures Result(next, FeedAll(next, Scan(Plain, begin), z + "\n")) == Some(state)
  {
    ScanToPart(next, begin, z, n);
    ResultBehind(next, Scan(Plain, begin), z[..n], z[n..] + "\n", state);
    assert z[..n] + (z[n..] + "\n") == z + "\n";
  }

  lemma SemiStep<S>(next: (S, Token) -> S, begin: S, z: string, p: nat, state: S)
    requires p < |z| && z[p] == ';' && Ready(ScanTo(next, begin, z, p))
    requires Settle(next, ScanTo(next, begin, z, p)) == state
    ensures ScanTo(next, begin, z, p + 1) == Scan(Plain, next(state, Semi))
  {
  }

  /** A last semicolon that takes the table to START makes the text complete. */
  lemma LastSemiCompletes(z: string, p: nat)
    requires LastSemi(z, p) && NextState(Settle(NextState, ScanTo(NextState, INVALID, z, p)), Semi) == START
    ensures IsComplete(z)
  {
    SemiStep(NextState, INVALID, z, p, Settle(NextState, ScanTo(NextState, INVALID, z, p)));
    ResultBlank(NextState, INVALID, z, p + 1, START);
    ScanDecides(z + "\n");
    SpaceIgnored(z, '\n');
  }

  // ----- texts without a certain word

  predicate HasAt(z: string, i: nat, word: string) {
    i + |word| <= |z| && Lower(z[i..i + |word|]) == word
  }

  /** The text does not have the word in it, in any letter case, quoted or not. */
  predicate Avoids(z: string, word: string) {
    forall i :: 0 <= i <= |z| ==> !HasAt(z, i, word)
  }

  /** Only the token out leads out of the states inside, and only the word gives it. */
  ghost predicate Closed<S(!new)>(next: (S, Token) -> S, inside: S -> bool, out: Token, word: string) {
    && (forall s, t :: inside(s) && t != out ==> inside(next(s, t)))
    && (forall w :: Keyword(w) == out ==> Lower(w) == word)
    && out != Semi && out != Other
  }

  /** The pending word of a scan is the end of the text so far. */
  predicate WordBefore<S>(s: Scan<S>, z: string, n: nat)
    requires n <= |z|
  {
    s.mode.Word? ==> |s.mode.word| <= n && s.mode.word == z[n - |s.mode.word|..n]
  }

  predicate Kept<S>(next: (S, Token) -> S, inside: S -> bool, s: Scan<S>, z: string, n: nat)
    requires n <= |z|
  {
    inside(s.state) && inside(Settle(next, s)) && WordBefore(s, z, n)
  }

  lemma WordKept(w: string, z: string, n: nat, word: string)
    requires |w| <= n <= |z| && w == z[n - |w|..n] && Avoids(z, word)
    ensures Lower(w) != word
  {
    assert !HasAt(z, n - |w|, word);
    assert |Lower(w)| == |w|;
  }

  lemma StepInside<S(!new)>(
      next: (S, Token) -> S, inside: S -> bool, out: Token, word: string, s: Scan<S>, c: char)
    requires Closed(next, inside, out, word) && inside(s.state) && inside(Settle(next, s))
    ensures inside(Step(next, s, c).state)
  {
  }

  lemma StepWord<S>(next: (S, Token) -> S, s: Scan<S>, z: string, n: nat)
    requires n < |z| && WordBefore(s, z, n)
    ensures WordBefore(Step(next, s, z[n]), z, n + 1)
  {
  }

  lemma SettleInside<S(!new)>(
      next: (S, Token) -> S, inside: S -> bool, out: Token, word: string, s: Scan<S>, z: string, n: nat)
    requires n <= |z| && Closed(next, inside, out, word) && Avoids(z, word)
    requires inside(s.state) && WordBefore(s, z, n)
    ensures inside(Settle(next, s))
  {
    if s.mode.Word? {
      WordKept(s.mode.word, z, n, word);
    }
  }

  lemma StepKept<S(!new)>(
      next: (S, Token) -> S, inside: S -> bool, out: Token, word: string, s: Scan<S>, z: string, n: nat, s': Scan<S>)
    requires n < |z| && Closed(next, inside, out, word) && Avoids(z, word)
    requires Kept(next, inside, s, z, n) && s' == Step(next, s, z[n])
    ensures Kept(next, inside, s', z, n + 1)
  {
    StepInside(next, inside, out, word, s, z[n]);
    StepWord(next, s, z, n);
    SettleInside(next, inside, out, word, s', z, n + 1);
  }

  lemma {:induction false} FeedKept<S(!new)>(
      next: (S, Token) -> S, inside: S -> bool, out: Token, word: string, state: S, z: string, n: nat)
    requires n <= |z| && Closed(next, inside, out, word) && Avoids(z, word) && inside(state)
    ensures Kept(next, inside, Feed(next, Scan(Plain, state), z, n), z, n)
  {
    if n > 0 {
      FeedKept(next, inside, out, word, state, z, n - 1);
      var s := Feed(next, Scan(Plain, state), z, n - 1);
      StepKept(next, inside, out, word, s, z, n - 1, Feed(next, Scan(Plain, state), z, n));
    }
  }

  /** Outside of triggers. */
  predicate NoTrigger(state: int) {
    0 <= state < TRIGGER
  }

  /** In the body of a trigger, perhaps behind a semicolon. */
  predicate InBody(state: int) {
    state == TRIGGER || state == SEMI
  }

  lemma WordsOut()
    ensures Closed(NextState, NoTrigger, Trigger, "trigger") && Closed(NextState, InBody, End, "end")
  {
  }

  /** A text without the word TRIGGER is complete exactly when its last but for spaces and comments is
      a semicolon outside of everything. */
  lemma SemicolonDecides(z: string)
    requires Avoids(z, "trigger")
    ensures IsComplete(z) <==> exists p :: LastSemi(z, p)
  {
    if IsComplete(z) {
      EndsWithSemicolon(z);
    }
    if p :| LastSemi(z, p) {
      WordsOut();
      FeedKept(NextState, NoTrigger, Trigger, "trigger", INVALID, z, p);
      LastSemiCompletes(z, p);
    }
  }

  // ----- triggers

  /** The word END at j, and nothing else up to i. */
  ghost predicate EndAt(z: string, j: nat, i: nat) {
    j + 3 <= i <= |z| && Lower(z[j..j + 3]) == "end" && Blank(z[j + 3..i])
  }

  /** ";END;" at p, j and k, but for spaces and comments. */
  ghost predicate TriggerEnd(z: string, p: nat, j: nat, k: nat) {
    k < |z| && SemiAt(z, p, j) && EndAt(z, j, k) && z[k] == ';'
  }

  /** How far the end of the trigger, which is behind from, has been seen at place i. */
  ghost predicate Seen(z: string, from: nat, p: nat, j: nat, i: nat, state: int) {
    || state == TRIGGER
    || (state == SEMI && from <= p && SemiAt(z, p, i))
    || (state == END && from <= p && SemiAt(z, p, j) && EndAt(z, j, i))
  }

  lemma Slices(z: string, n: nat, i: nat, j: nat)
    requires n <= i <= j <= |z|
    ensures z[n..i] + z[i..j] == z[n..j]
  {
  }

  lemma BlankOn(z: string, n: nat, i: nat, j: nat)
    requires n <= i < j <= |z| && Blank(z[n..i]) && IsGap(z[i..j])
    ensures Blank(z[n..j])
  {
    BlankMore(z[n..i], z[i..j]);
    Slices(z, n, i, j);
  }

  lemma SeenGap(z: string, from: nat, p: nat, j: nat, i: nat, state: int, next: nat)
    requires i < next <= |z| && Seen(z, from, p, j, i, state) && IsGap(z[i..next])
    ensures Seen(z, from, p, j, next, state)
  {
    if state == SEMI {
      BlankOn(z, p + 1, i, next);
    } else if state == END {
      BlankOn(z, j + 3, i, next);
    }
  }

  lemma EndToken(z: string, i: nat)
    requires i < |z| && Lex(z, i).Lexeme? && Lex(z, i).token == End
    ensures EndAt(z, i, Lex(z, i).next)
  {
    var w := z[i..IdEnd(z, i + 1)];
    assert Lower(w) == "end" && |Lower(w)| == |w|;
  }

  lemma SeenNext(z: string, from: nat, p: nat, j: nat, i: nat, state: int) returns (p': nat, j': nat)
    requires from <= i < |z| && Outside(z, i) && Seen(z, from, p, j, i, state) && Lex(z, i).Lexeme?
    ensures var l := Lex(z, i);
            if NextState(state, l.token) == START then from <= p && TriggerEnd(z, p, j, i)
            else l.next == |z| || Seen(z, from, p', j', l.next, NextState(state, l.token))
  {
    var l := Lex(z, i);
    p', j' := p, j;
    if l.token == Semi {
      SemiToken(z, i);
      p' := i;
    } else if l.token == End {
      EndToken(z, i);
      j' := i;
    } else if l.token == Ws && l.next < |z| {
      WsToken(z, i);
      WsIsGap(z, i, l.next);
      SeenGap(z, from, p, j, i, state, l.next);
    }
  }

  /** On the way from within a trigger to an accepted end there is its ";END;". */
  lemma {:induction false} FindEnd(z: string, from: nat, p: nat, j: nat, i: nat) returns (p': nat, j': nat, k: nat)
    requires from <= i <= |z| && Anew(NextState, Scan(Plain, INVALID), z, i)
    requires Result(NextState, ScanOf(z)) == Some(START)
    requires Seen(z, from, p, j, i, Settle(NextState, ScanTo(NextState, INVALID, z, i)))
    ensures from <= p' && TriggerEnd(z, p', j', k)
    decreases |z| - i
  {
    NextIdle();
    TokenTaken(NextState, Scan(Plain, INVALID), z, i);
    var l, state := Lex(z, i), Settle(NextState, ScanTo(NextState, INVALID, z, i));
    p', j' := SeenNext(z, from, p, j, i, state);
    if NextState(state, l.token) == START {
      p', j', k := p, j, i;
    } else {
      p', j', k := FindEnd(z, from, p', j', l.next);
    }
  }

  /** A word that may be missing, with spaces or comments behind it. */
  datatype Part = Part(word: string, gap: string) {
    function Text(): string {
      word + gap
    }

    ghost predicate Valid() {
      Blank(gap) && (gap != [] <==> word != [])
    }
  }

  /** The beginning of a text that creates a trigger: spaces and comments, perhaps EXPLAIN, CREATE,
      perhaps TEMP or TEMPORARY, and TRIGGER. */
  datatype Opening = Opening(lead: string, explain: Part, create: Part, temp: Part, trigger: string) {
    function Text(): string {
      (lead + explain.Text()) + (create.Text() + temp.Text()) + trigger
    }

    ghost predicate Valid() {
      && Blank(lead) && explain.Valid() && create.Valid() && temp.Valid()
      && (Lower(explain.word) == "explain" || explain.word == [])
      && Lower(create.word) == "create"
      && (Lower(temp.word) == "temp" || Lower(temp.word) == "temporary" || temp.word == [])
      && Lower(trigger) == "trigger"
    }
  }

  predicate Letters(w: string) {
    w != [] && forall i :: 0 <= i < |w| ==> IdChar(w[i])
  }

  lemma LettersOf(w: string, word: string)
    requires Lower(w) == word && word != [] && forall i :: 0 <= i < |word| ==> 'a' <= word[i] <= 'z'
    ensures Letters(w)
  {
    assert |Lower(w)| == |w|;
    forall i | 0 <= i < |w| ensures IdChar(w[i]) {
      assert Lower(w)[i] == LowerChar(w[i]);
    }
  }

  lemma FeedWord<S>(next: (S, Token) -> S, state: S, w: string)
    requires Letters(w)
    ensures FeedAll(next, Scan(Plain, state), w) == Scan(Word(w), state)
  {
    FeedOne(next, Scan(Plain, state), w);
    StayWord(next, Scan(Plain, state), w, 0, |w|, state);
    assert w[0..|w|] == w;
  }

  /** A word and a gap behind it. */
  lemma FeedWordGap<S>(next: (S, Token) -> S, state: S, w: string, gap: string)
    requires Letters(w) && Blank(gap) && gap != []
    ensures FeedAll(next, Scan(Plain, state), w + gap) == Scan(Plain, next(state, Keyword(w)))
  {
    FeedWord(next, state, w);
    FeedAppend(next, Scan(Plain, state), w, gap);
    FeedBlank(next, Scan(Word(w), state), gap);
  }

  /** A part with one of the keywords, or none. */
  lemma FeedPart<S>(next: (S, Token) -> S, state: S, part: Part, t: Token)
    requires part.Valid() && (part.word == [] || Keyword(part.word) == t) && t != Other
    ensures FeedAll(next, Scan(Plain, state), part.Text()) ==
      Scan(Plain, if part.word == [] then state else next(state, t))
  {
    if part.word != [] {
      LettersOf(part.word, Lower(part.word));
      FeedWordGap(next, state, part.word, part.gap);
    }
  }

  lemma FeedLead<S>(next: (S, Token) -> S, state: S, lead: string, part: Part, t: Token)
    requires Blank(lead) && part.Valid() && (part.word == [] || Keyword(part.word) == t) && t != Other
    ensures FeedAll(next, Scan(Plain, state), lead + part.Text()) ==
      Scan(Plain, if part.word == [] then state else next(state, t))
  {
    FeedAppend(next, Scan(Plain, state), lead, part.Text());
    FeedBlanks(next, state, lead);
    FeedPart(next, state, part, t);
  }

  lemma FeedCreate<S>(next: (S, Token) -> S, state: S, create: Part, temp: Part)
    requires create.Valid() && temp.Valid() && Keyword(create.word) == Create
    requires temp.word == [] || Keyword(temp.word) == Temp
    requires next(next(state, Create), Temp) == next(state, Create)
    ensures FeedAll(next, Scan(Plain, state), create.Text() + temp.Text()) == Scan(Plain, next(state, Create))
  {
    FeedAppend(next, Scan(Plain, state), create.Text(), temp.Text());
    FeedPart(next, state, create, Create);
    FeedPart(next, next(state, Create), temp, Temp);
  }

  /** Where the table is once CREATE has been met. */
  ghost predicate Creates<S>(next: (S, Token) -> S, begin: S, created: S) {
    && next(begin, Create) == created && next(next(begin, Explain), Create) == created
    && next(created, Temp) == created
  }

  lemma FeedOpening<S>(next: (S, Token) -> S, begin: S, created: S, o: Opening)
    requires o.Valid() && Creates(next, begin, created)
    ensures FeedAll(next, Scan(Plain, begin), o.Text()) == Scan(Word(o.trigger), created)
  {
    var state := if o.explain.word == [] then begin else next(begin, Explain);
    FeedLead(next, begin, o.lead, o.explain, Explain);
    FeedCreate(next, state, o.create, o.temp);
    LettersOf(o.trigger, "trigger");
    FeedWord(next, created, o.trigger);
    FeedThree(next, Scan(Plain, begin), o.lead + o.explain.Text(), o.create.Text() + o.temp.Text(), o.trigger);
  }

  /** Behind the opening and anything that is not a letter the table is in TRIGGER. */
  lemma InTrigger(o: Opening, u: string)
    requires o.Valid() && (u != [] ==> !IdChar(u[0]))
    ensures var z, n := o.Text() + u, |o.Text()|;
            && Anew(NextState, Scan(Plain, INVALID), z, n)
            && Settle(NextState, ScanTo(NextState, INVALID, z, n)) == TRIGGER
  {
    FeedOpening(NextState, INVALID, CREATE, o);
    FeedPrefix(NextState, Scan(Plain, INVALID), o.Text(), u, |o.Text()|);
    assert Keyword(o.trigger) == Trigger;
  }

  /** The text of a trigger is complete only behind ";END;". */
  lemma TriggerNeedsEnd(o: Opening, u: string)
    requires o.Valid() && (u != [] ==> !IdChar(u[0])) && IsComplete(o.Text() + u)
    ensures exists p, j, k :: |o.Text()| <= p && TriggerEnd(o.Text() + u, p, j, k)
  {
    var z, n := o.Text() + u, |o.Text()|;
    InTrigger(o, u);
    ScanDecides(z);
    var p, j, k := FindEnd(z, n, n, n, n);
  }

  lemma FeedOn<S>(next: (S, Token) -> S, s: Scan<S>, z: string, i: nat, j: nat)
    requires i <= j <= |z|
    ensures Feed(next, s, z, j) == FeedAll(next, Feed(next, s, z, i), z[i..j])
  {
    assert z[..j] == z[..i] + z[i..j] && z == z[..j] + z[j..] && z == z[..i] + z[i..];
    FeedPrefix(next, s, z[..j], z[j..], j);
    FeedPrefix(next, s, z[..i], z[i..], i);
    FeedAppend(next, s, z[..i], z[i..j]);
  }

  lemma SameAfterOne<S>(next: (S, Token) -> S, s: Scan<S>, from: Scan<S>, z: string, n: nat, p: nat, x: string)
    requires n < p <= |z| && x == z[n..p] && Feed(next, s, z, n + 1) == Feed(next, from, x, 1)
    ensures Feed(next, s, z, p) == FeedAll(next, from, x)
  {
    FeedOn(next, s, z, n + 1, p);
    FeedOn(next, from, x, 1, |x|);
    assert x[1..|x|] == z[n + 1..p];
  }

  /** Where a text begins anew its scan goes on as if nothing were pending. */
  lemma AsIfPlain<S>(next: (S, Token) -> S, s: Scan<S>, z: string, n: nat, p: nat, state: S)
    requires n < p <= |z| && Anew(next, s, z, n) && state == Settle(next, Feed(next, s, z, n))
    ensures Feed(next, s, z, p) == FeedAll(next, Scan(Plain, state), z[n..p])
  {
    FeedOne(next, Scan(Plain, state), z[n..p]);
    SameAfterOne(next, s, Scan(Plain, state), z, n, p, z[n..p]);
  }

  lemma InsideKept<S(!new)>(next: (S, Token) -> S, inside: S -> bool, out: Token, word: string,
                            s: Scan<S>, z: string, n: nat, p: nat, state: S)
    requires n <= p <= |z| && Anew(next, s, z, n) && state == Settle(next, Feed(next, s, z, n)) && inside(state)
    requires Closed(next, inside, out, word) && Avoids(z[n..p], word)
    ensures inside(Settle(next, Feed(next, s, z, p)))
  {
    if n < p {
      AsIfPlain(next, s, z, n, p, state);
      FeedKept(next, inside, out, word, state, z[n..p], p - n);
    }
  }

  /** Behind a semicolon in the body of the trigger, before the first END, the table is in SEMI. */
  lemma SemiInBody(z: string, n: nat, p: nat)
    requires n <= p < |z| && Anew(NextState, Scan(Plain, INVALID), z, n) && Avoids(z[n..p], "end")
    requires Settle(NextState, ScanTo(NextState, INVALID, z, n)) == TRIGGER && z[p] == ';' && Outside(z, p)
    ensures ScanTo(NextState, INVALID, z, p + 1) == Scan(Plain, SEMI)
  {
    WordsOut();
    InsideKept(NextState, InBody, End, "end", Scan(Plain, INVALID), z, n, p, TRIGGER);
    SemiStep(NextState, INVALID, z, p, Settle(NextState, ScanTo(NextState, INVALID, z, p)));
  }

  lemma FeedBlankOn<S>(next: (S, Token) -> S, s: Scan<S>, z: string, i: nat, j: nat, state: S)
    requires i <= j <= |z| && Feed(next, s, z, i) == Scan(Plain, state) && Blank(z[i..j])
    ensures Feed(next, s, z, j) == Scan(Plain, state)
  {
    FeedOn(next, s, z, i, j);
    FeedBlanks(next, state, z[i..j]);
  }

  lemma FeedWordOn<S>(next: (S, Token) -> S, s: Scan<S>, z: string, i: nat, j: nat, state: S)
    requires i < j <= |z| && Feed(next, s, z, i) == Scan(Plain, state) && Letters(z[i..j])
    ensures Feed(next, s, z, j) == Scan(Word(z[i..j]), state)
  {
    FeedOn(next, s, z, i, j);
    FeedWord(next, state, z[i..j]);
  }

  lemma FeedBehindWord<S>(next: (S, Token) -> S, s: Scan<S>, z: string, i: nat, j: nat, w: string, state: S)
    requires i <= j <= |z| && Feed(next, s, z, i) == Scan(Word(w), state) && Blank(z[i..j])
    ensures Ready(Feed(next, s, z, j)) && Settle(next, Feed(next, s, z, j)) == next(state, Keyword(w))
  {
    if i < j {
      FeedOn(next, s, z, i, j);
      FeedBlank(next, Scan(Word(w), state), z[i..j]);
    }
  }

  /** The way from behind the semicolon over END. */
  lemma FeedEnd<S>(next: (S, Token) -> S, s: Scan<S>, z: string, p: nat, j: nat, k: nat, state: S)
    requires p < j && EndAt(z, j, k) && Blank(z[p + 1..j]) && Feed(next, s, z, p + 1) == Scan(Plain, state)
    ensures Ready(Feed(next, s, z, k)) && Settle(next, Feed(next, s, z, k)) == next(state, End)
  {
    FeedBlankOn(next, s, z, p + 1, j, state);
    LettersOf(z[j..j + 3], "end");
    FeedWordOn(next, s, z, j, j + 3, state);
    FeedBehindWord(next, s, z, j + 3, k, z[j..j + 3], state);
  }

  lemma EndCompletes(z: string, n: nat, p: nat, j: nat, k: nat)
    requires n <= p && TriggerEnd(z, p, j, k) && Avoids(z[n..p], "end") && Blank(z[k + 1..] + "\n")
    requires Anew(NextState, Scan(Plain, INVALID), z, n)
    requires Settle(NextState, ScanTo(NextState, INVALID, z, n)) == TRIGGER
    ensures IsComplete(z)
  {
    SemiInBody(z, n, p);
    FeedEnd(NextState, Scan(Plain, INVALID), z, p, j, k, SEMI);
    LastSemiCompletes(z, k);
  }

  /** And it is complete at its first END behind a semicolon, when that has a semicolon behind it too
      and the text nothing more than spaces and comments. */
  lemma TriggerEnds(o: Opening, u: string, p: nat, j: nat, k: nat)
    requires o.Valid() && (u != [] ==> !IdChar(u[0]))
    requires var z, n := o.Text() + u, |o.Text()|;
             n <= p && TriggerEnd(z, p, j, k) && Avoids(z[n..p], "end") && Blank(z[k + 1..] + "\n")
    ensures IsComplete(o.Text() + u)
  {
    InTrigger(o, u);
    EndCompletes(o.Text() + u, |o.Text()|, p, j, k);
  }
}
