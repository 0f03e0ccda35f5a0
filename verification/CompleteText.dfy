/** sqlite3_complete on texts: the tokens of a text, and the one pass that finds and runs them. */
module CompleteText {
  import opened Basics
  import opened Complete

  /** A token and where the text goes on, or a quote, bracket or block comment without an end. */
  datatype Lexeme = Lexeme(token: Token, next: nat) | Unterminated

  /** The character at place i; texts end with NUL. */
  function At(z: string, i: nat): char {
    if i < |z| then z[i] else '\0'
  }

  /** IdChar: letters, digits, '_', '$' and everything beyond ASCII. */
  predicate IdChar(c: char) {
    'a' <= c <= 'z' || 'A' <= c <= 'Z' || '0' <= c <= '9' || c == '_' || c == '$' || c as int >= 0x80
  }

  function LowerChar(c: char): char {
    if 'A' <= c <= 'Z' then (c as int + 32) as char else c
  }

  function Lower(w: string): string {
    seq(|w|, i requires 0 <= i < |w| => LowerChar(w[i]))
  }

  /** The first place from i on where the text has c, or its end. */
  function Until(z: string, i: nat, c: char): (j: nat)
    requires i <= |z|
    ensures i <= j <= |z| && c !in z[i..j] && (j < |z| ==> z[j] == c)
    decreases |z| - i
  {
    if i == |z| || z[i] == c then i else
      var j := Until(z, i + 1, c);
      assert z[i..j] == [z[i]] + z[i + 1..j];
      j
  }

  predicate ClosesComment(z: string, j: nat) {
    At(z, j) == '*' && At(z, j + 1) == '/'
  }

  /** The first place from i on where a block comment is closed, or the end of the text. */
  function CommentEnd(z: string, i: nat): (j: nat)
    requires i <= |z|
    ensures i <= j <= |z| && (j < |z| ==> ClosesComment(z, j))
    ensures forall k :: i <= k < j ==> !ClosesComment(z, k)
    decreases |z| - i
  {
    if i == |z| || ClosesComment(z, i) then i else CommentEnd(z, i + 1)
  }

  /** The end of the identifier or keyword at i. */
  function IdEnd(z: string, i: nat): (j: nat)
    requires i <= |z|
    ensures i <= j <= |z| && (forall k :: i <= k < j ==> IdChar(z[k])) && (j < |z| ==> !IdChar(z[j]))
    decreases |z| - i
  {
    if i == |z| || !IdChar(z[i]) then i else IdEnd(z, i + 1)
  }

  function Keyword(word: string): Token {
    var w := Lower(word);
    if w == "create" then Create
    else if w == "temp" || w == "temporary" then Temp
    else if w == "trigger" then Trigger
    else if w == "end" then End
    else if w == "explain" then Explain
    else Other
  }

  function Quote(c: char): Option<char> {
    if c == '[' then Some(']') else if c == '`' || c == '"' || c == '\'' then Some(c) else None
  }

  predicate Space(c: char) {
    c == ' ' || c == '\r' || c == '\t' || c == '\n' || c == '\U{0C}'
  }

  /** The token at place i. */
  function Lex(z: string, i: nat): (l: Lexeme)
    requires i < |z|
    ensures l.Lexeme? ==> i < l.next <= |z|
  {
    var c := z[i];
    if c == ';' then Lexeme(Semi, i + 1)
    else if Space(c) then Lexeme(Ws, i + 1)
    else if c == '/' && At(z, i + 1) == '*' then
      var j := CommentEnd(z, i + 2);
      if j == |z| then Unterminated else Lexeme(Ws, j + 2)
    else if c == '-' && At(z, i + 1) == '-' then
      var j := Until(z, i, '\n');
      Lexeme(Ws, if j == |z| then j else j + 1)
    else if Quote(c).Some? then
      var j := Until(z, i + 1, Quote(c).value);
      if j == |z| then Unterminated else Lexeme(Other, j + 1)
    else if IdChar(c) then
      var j := IdEnd(z, i + 1);
      Lexeme(Keyword(z[i..j]), j)
    else Lexeme(Other, i + 1)
  }

  /** All tokens from place i on, if every quote, bracket and block comment has an end. */
  function Tokens(z: string, i: nat): Option<seq<Token>>
    requires i <= |z|
    decreases |z| - i
  {
    if i == |z| then Some([])
    else
      match Lex(z, i)
      case Unterminated => None
      case Lexeme(t, next) =>
        match Tokens(z, next)
        case None => None
        case Some(ts) => Some([t] + ts)
  }

  /** A text is complete when it has tokens and they are a sequence of statements but for spaces and
      comments. */
  ghost predicate IsComplete(z: string) {
    match Tokens(z, 0)
    case None => false
    case Some(ts) => IsStatements(NonWs(ts))
  }

  // ----- the pass

  method Find(z: string, i: nat, c: char) returns (j: nat)
    requires i <= |z|
    ensures j == Until(z, i, c)
  {
    j := i;
    while j < |z| && z[j] != c
      invariant i <= j <= |z| && Until(z, i, c) == Until(z, j, c)
    {
      j := j + 1;
    }
  }

  method FindCommentEnd(z: string, i: nat) returns (j: nat)
    requires i <= |z|
    ensures j == CommentEnd(z, i)
  {
    j := i;
    while j < |z| && (z[j] != '*' || At(z, j + 1) != '/')
      invariant i <= j <= |z| && CommentEnd(z, i) == CommentEnd(z, j)
    {
      j := j + 1;
    }
  }

  lemma KeywordLetter(word: string)
    requires word != []
    ensures Keyword(word) == Create ==> word[0] == 'c' || word[0] == 'C'
    ensures Keyword(word) == Temp || Keyword(word) == Trigger ==> word[0] == 't' || word[0] == 'T'
    ensures Keyword(word) == End || Keyword(word) == Explain ==> word[0] == 'e' || word[0] == 'E'
  {
    assert Lower(word)[0] == LowerChar(word[0]);
  }

  /** The switch on the first letter, with the lengths compared before the letters. */
  method KeywordAt(z: string, i: nat, nId: nat) returns (token: Token)
    requires 0 < nId && i + nId <= |z|
    ensures token == Keyword(z[i..i + nId])
  {
    var word := Lower(z[i..i + nId]);
    KeywordLetter(z[i..i + nId]);
    token := Other;
    if z[i] == 'c' || z[i] == 'C' {
      if nId == 6 && word == "create" {
        token := Create;
      }
    } else if z[i] == 't' || z[i] == 'T' {
      if nId == 7 && word == "trigger" {
        token := Trigger;
      } else if nId == 4 && word == "temp" {
        token := Temp;
      } else if nId == 9 && word == "temporary" {
        token := Temp;
      }
    } else if z[i] == 'e' || z[i] == 'E' {
      if nId == 3 && word == "end" {
        token := End;
      } else if nId == 7 && word == "explain" {
        token := Explain;
      }
    }
  }

  method IdentifierAt(z: string, i: nat) returns (token: Token, next: nat)
    requires i < |z| && IdChar(z[i])
    ensures next == IdEnd(z, i + 1) && token == Keyword(z[i..next])
  {
    var nId := 1;
    while IdChar(At(z, i + nId))
      invariant 1 <= nId && i + nId <= |z| && IdEnd(z, i + 1) == IdEnd(z, i + nId)
      decreases |z| - (i + nId)
    {
      nId := nId + 1;
    }
    token := KeywordAt(z, i, nId);
    next := i + nId;
  }

  /** The switch of sqlite3_complete: where the token at i ends, and what it is. */
  method NextToken(z: string, i: nat) returns (l: Lexeme)
    requires i < |z|
    ensures l == Lex(z, i)
  {
    var c := z[i];
    if c == ';' {
      return Lexeme(Semi, i + 1);
    } else if Space(c) {
      return Lexeme(Ws, i + 1);
    } else if c == '/' {
      if At(z, i + 1) != '*' {
        return Lexeme(Other, i + 1);
      }
      var j := FindCommentEnd(z, i + 2);
      return if j == |z| then Unterminated else Lexeme(Ws, j + 2);
    } else if c == '-' {
      if At(z, i + 1) != '-' {
        return Lexeme(Other, i + 1);
      }
      var j := Find(z, i, '\n');
      return Lexeme(Ws, if j == |z| then j else j + 1);
    } else if c == '[' {
      var j := Find(z, i + 1, ']');
      return if j == |z| then Unterminated else Lexeme(Other, j + 1);
    } else if c == '`' || c == '"' || c == '\'' {
      var j := Find(z, i + 1, c);
      return if j == |z| then Unterminated else Lexeme(Other, j + 1);
    } else if IdChar(c) {
      var token, next := IdentifierAt(z, i);
      return Lexeme(token, next);
    } else {
      return Lexeme(Other, i + 1);
    }
  }

  function Prepend(done: seq<Token>, rest: Option<seq<Token>>): Option<seq<Token>> {
    match rest
    case None => None
    case Some(ts) => Some(done + ts)
  }

  /** sqlite3_complete: the one pass answers what the grammar says of the text's tokens. */
  method SqlComplete(zSql: string) returns (complete: bool)
    requires '\0' !in zSql
    ensures complete <==> IsComplete(zSql)
  {
    var state, i := INVALID, 0;
    ghost var done: seq<Token> := [];
    PrependNothing(Tokens(zSql, 0));
    while i < |zSql|
      invariant 0 <= i <= |zSql| && 0 <= state < 8 && state == Run(INVALID, done)
      invariant Tokens(zSql, 0) == Prepend(done, Tokens(zSql, i))
    {
      var l := NextToken(zSql, i);
      if l == Unterminated {
        return false;
      }
      Take(zSql, done, i);
      done, state, i := done + [l.token], Next(state, l.token), l.next;
    }
    Ends(zSql, done);
    complete := state == START;
  }

  lemma PrependNothing(rest: Option<seq<Token>>)
    ensures Prepend([], rest) == rest
  {
    match rest
    case None =>
    case Some(ts) => assert [] + ts == ts;
  }

  /** One more token has been run. */
  lemma Take(z: string, done: seq<Token>, i: nat)
    requires i < |z| && Lex(z, i).Lexeme?
    ensures Run(INVALID, done + [Lex(z, i).token]) == Next(Run(INVALID, done), Lex(z, i).token)
    ensures Prepend(done, Tokens(z, i)) == Prepend(done + [Lex(z, i).token], Tokens(z, Lex(z, i).next))
  {
    var t := Lex(z, i).token;
    assert (done + [t])[..|done|] == done;
    match Tokens(z, Lex(z, i).next)
    case None =>
    case Some(ts) => assert done + ([t] + ts) == (done + [t]) + ts;
  }

  /** Spaces and comments aside, the state at the end of the text is what the grammar says. */
  lemma Ends(z: string, done: seq<Token>)
    requires Tokens(z, 0) == Prepend(done, Some([]))
    ensures IsComplete(z) <==> Run(INVALID, done) == START
  {
    assert done + [] == done;
    WsIgnored(INVALID, done);
    TableIsGrammar(NonWs(done));
  }
}
