/** Printing a predicate, tokenizing the text and parsing the tokens returns the same predicate. */
module SqlRoundTrip {
  import opened Values
  import opened Expressions
  import opened Lexer
  import opened Parser
  import opened SqlTokens
  import opened SqlGrammar

  // ----- Printing to tokens -----

  function IntText(n: int64): string {
    var i: int := n;
    if i < 0 then "-" + Decimal(-i) else Decimal(i)
  }

  function OpLexeme(op: BinaryOp): Lexeme {
    match op
    case And => Lexeme(AND, "AND")
    case Or => Lexeme(OR, "OR")
    case Eq => Lexeme(EQ, "=")
    case Ne => Lexeme(NE, "<>")
    case Lt => Lexeme(LT, "<")
    case Le => Lexeme(LE, "<=")
    case Gt => Lexeme(GT, ">")
    case Ge => Lexeme(GE, ">=")
  }

  /** The expression where an operand of at least level `k` is expected: in parentheses only if it binds weaker. */
  function Print(e: Expr, k: nat): seq<Lexeme>
    decreases e, 1
  {
    if Level(e) >= k then Printed(e) else [Lexeme(LPAREN, "(")] + Printed(e) + [Lexeme(RPAREN, ")")]
  }

  function Printed(e: Expr): seq<Lexeme>
    decreases e, 0
  {
    match e
    case ColumnRef(name) => [Lexeme(IDENT, name)]
    case IntLiteral(n) => [Lexeme(NUMBER, IntText(n))]
    case StringLiteral(s) => [Lexeme(STRING, s)]
    case Binary(op, l, r) => Print(l, LeftLevel(op)) + ([OpLexeme(op)] + Print(r, RightLevel(op)))
  }

  /** What is printed is derived: the parentheses left out are not needed. */
  lemma {:induction false} PrintDerives(e: Expr, k: nat)
    ensures Derives(e, k, Print(e, k))
    decreases e, 1
  {
    hide Bare, InParentheses;
    PrintedIsBare(e);
    if Level(e) < k {
      EnclosedDerives(e, Printed(e));
    }
  }

  lemma EnclosedDerives(e: Expr, ls: seq<Lexeme>)
    requires Derives(e, 0, ls)
    ensures InParentheses(e, [Lexeme(LPAREN, "(")] + ls + [Lexeme(RPAREN, ")")])
  {
    var all := [Lexeme(LPAREN, "(")] + ls + [Lexeme(RPAREN, ")")];
    assert all[1..|all| - 1] == ls;
  }

  lemma {:induction false} PrintedIsBare(e: Expr)
    ensures Bare(e, Printed(e))
    decreases e, 0
  {
    hide Derives;
    match e
    case Binary(op, l, r) =>
      PrintDerives(l, LeftLevel(op));
      PrintDerives(r, RightLevel(op));
      var ls := JoinedBy(op, l, r, Print(l, LeftLevel(op)), OpLexeme(op), Print(r, RightLevel(op)));
    case IntLiteral(n) => IntIsNumeral(n);
    case _ =>
  }

  lemma IntIsNumeral(n: int64)
    ensures IsNumeral(IntText(n), n)
  {
    var i: int := n;
    assert IsZeros("");
    assert "" + Decimal(if i < 0 then -i else i) == Decimal(if i < 0 then -i else i);
  }

  lemma IntReadsBack(n: int64)
    ensures ParseInt(IntText(n)) == Some(n)
  {
    IntIsNumeral(n);
    NumeralIff(IntText(n), n);
  }

  // ----- Printing to text -----

  /** The tokens' texts, a space behind each. */
  function Render(ls: seq<Lexeme>): string {
    if ls == [] then "" else Text(ls[0]) + (" " + Render(ls[1..]))
  }

  ghost predicate IsName(name: string) {
    IsWord(name) && IsNoKeyword(name)
  }

  ghost predicate WellNamed(e: Expr) {
    match e
    case ColumnRef(name) => IsName(name)
    case Binary(_, l, r) => WellNamed(l) && WellNamed(r)
    case _ => true
  }

  ghost predicate AllSpelled(ls: seq<Lexeme>) {
    forall i :: 0 <= i < |ls| ==> Spelled(ls[i])
  }

  /** Spelled tokens, rendered with spaces, lay out their text. */
  lemma {:induction false} RenderedLaysOut(ls: seq<Lexeme>)
    requires AllSpelled(ls)
    ensures LaysOut(Render(ls), ls)
  {
    hide Spelled, Ends, Text;
    if ls != [] {
      var rest := Render(ls[1..]);
      RenderedLaysOut(ls[1..]);
      SpaceEnds(ls[0], rest);
      TokenFoundAt(ls[0], " " + rest);
      var text, n := Render(ls), |Text(ls[0])|;
      CharClasses(text[0]);
      assert text[..n] == Text(ls[0]) && text[n..] == " " + rest;
      assert (" " + rest)[1..] == rest;
    }
  }

  lemma SpaceEnds(l: Lexeme, rest: string)
    ensures Ends(l, " " + rest)
  {
  }

  /** Rendered tokens lex to themselves. */
  lemma RenderedLexes(ls: seq<Lexeme>)
    requires AllSpelled(ls)
    ensures Lex(Render(ls)) == Some(ls + [Lexeme(EOF, "")])
  {
    RenderedLaysOut(ls);
    LexIff(Render(ls), ls);
  }

  lemma {:induction false} PrintIsSpelled(e: Expr, k: nat)
    requires WellNamed(e)
    ensures AllSpelled(Print(e, k))
    decreases e
  {
    hide Spelled;
    ParenthesesAreSpelled();
    match e
    case Binary(op, l, r) =>
      OpIsSpelled(op);
      PrintIsSpelled(l, LeftLevel(op));
      PrintIsSpelled(r, RightLevel(op));
    case IntLiteral(n) => IntIsSpelled(n);
    case ColumnRef(name) => NameIsSpelled(name);
    case StringLiteral(s) => StringIsSpelled(s);
  }

  lemma OpIsSpelled(op: BinaryOp)
    ensures Spelled(OpLexeme(op))
  {
  }

  lemma NameIsSpelled(name: string)
    requires IsName(name)
    ensures Spelled(Lexeme(IDENT, name))
  {
  }

  lemma ParenthesesAreSpelled()
    ensures Spelled(Lexeme(LPAREN, "(")) && Spelled(Lexeme(RPAREN, ")"))
  {
  }

  lemma IntIsSpelled(n: int64)
    ensures Spelled(Lexeme(NUMBER, IntText(n)))
  {
    var i: int := n;
    var digits := Decimal(if i < 0 then -i else i);
    assert i < 0 ==> IntText(n)[1..] == digits;
    assert IsDigit(digits[0]);
  }

  /** The text of a predicate. */
  function PrintText(e: Expr): string {
    Render(Print(e, 0))
  }

  /** For every predicate over non-keyword identifiers, 64-bit literals and strings: printing it with
      only the parentheses that precedence and left-associativity need, then tokenizing and parsing
      the text, returns the predicate, with the final EOF left over. */
  lemma RoundTrip(e: Expr)
    requires WellNamed(e)
    ensures Understood(PrintText(e), e)
  {
    hide Understood, LaysOut, Derives;
    PrintDerives(e, 0);
    PrintIsSpelled(e, 0);
    RenderedLaysOut(Print(e, 0));
    UnderstoodIff(PrintText(e), e);
  }

  /** Any text laid out from the printed tokens in another spelling is understood as the same predicate. */
  lemma RespelledRoundTrip(e: Expr, ls: seq<Lexeme>, text: string)
    requires Respells(Print(e, 0), ls) && LaysOut(text, ls)
    ensures Understood(text, e)
  {
    hide Understood, LaysOut, Derives;
    PrintDerives(e, 0);
    SpellingIsFree(e, 0, Print(e, 0), ls);
    UnderstoodIff(text, e);
  }

  lemma OnlyTheEnd(ls: seq<Lexeme>, pos: nat)
    requires EndsWithEof(ls) && pos < |ls| && ls[pos].tokenType == EOF
    ensures ls[pos..] == [ls[|ls| - 1]]
  {
  }

  // ----- Through the lexer and the parser themselves -----

  /** Tokenizes and parses a predicate that makes up the whole text: the expression it is, or nothing if it is none. */
  method ParseText(text: string) returns (parsed: Option<Expr>)
    ensures forall e :: parsed == Some(e) <==> IsPredicate(text, e)
  {
    hide Spans, Placed, Lex, IsPredicate, Disjunction, LexemesOf;
    forall e ensures Understood(text, e) <==> IsPredicate(text, e) {
      UnderstoodIff(text, e);
    }
    var lexer := new SqlLexer();
    var tokens := lexer.Tokenize(text);
    if tokens.None? {
      return None;
    }
    ghost var ls := LexEnds(text);
    var parser := new SqlParser(tokens.value);
    parsed := parser.ParseExpr();
    if parsed.None? {
      return;
    }
    parser.CurrentIsAhead();
    if parser.Current().tokenType != EOF {
      return None;
    }
    OnlyTheEnd(LexemesOf(parser.tokens), parser.pos);
  }

  method PrintAndParse(e: Expr) returns (parsed: Option<Expr>)
    requires WellNamed(e)
    ensures parsed == Some(e)
  {
    hide IsPredicate;
    RoundTrip(e);
    UnderstoodIff(PrintText(e), e);
    parsed := ParseText(PrintText(e));
  }
}
