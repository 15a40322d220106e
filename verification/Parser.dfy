/** The expression parser: its grammar as functions on token lists, and the parser that follows them. */
module Parser {
  import opened Values
  import opened Expressions
  import opened Lexer

  // ----- Integer literals -----

  function Digit(c: char): nat
    requires IsDigit(c)
  {
    c as int - '0' as int
  }

  predicate AllDigits(s: string) {
    s != "" && forall i :: 0 <= i < |s| ==> IsDigit(s[i])
  }

  function DigitsValue(s: string): nat
    requires forall i :: 0 <= i < |s| ==> IsDigit(s[i])
  {
    if s == "" then 0 else DigitsValue(s[..|s| - 1]) * 10 + Digit(s[|s| - 1])
  }

  /** strconv.ParseInt(text, 10, 64) on what the lexer calls a number. */
  function ParseInt(text: string): Option<int64> {
    var negative := text != "" && text[0] == '-';
    var digits := if negative then text[1..] else text;
    if !AllDigits(digits) then None
    else
      var magnitude: int := DigitsValue(digits);
      var v: int := if negative then -magnitude else magnitude;
      if -0x8000_0000_0000_0000 <= v < 0x8000_0000_0000_0000 then Some(v) else None
  }

  // ----- The grammar -----

  /** A parsed expression and the tokens behind it. */
  type Parse = Option<(Expr, seq<Lexeme>)>

  function ComparisonOp(t: TokenType): Option<BinaryOp> {
    match t
    case EQ => Some(Eq)
    case NE => Some(Ne)
    case LT => Some(Lt)
    case LE => Some(Le)
    case GT => Some(Gt)
    case GE => Some(Ge)
    case _ => None
  }

  predicate Starts(ls: seq<Lexeme>, t: TokenType) {
    ls != [] && ls[0].tokenType == t
  }

  function ParseLiteral(l: Lexeme): Option<Expr> {
    if l.tokenType == NUMBER then
      match ParseInt(l.text)
      case None => None
      case Some(n) => Some(IntLiteral(n))
    else Some(StringLiteral(l.text))
  }

  /** An identifier, a literal, or a parenthesized expression. */
  function Primary(ls: seq<Lexeme>): (r: Parse)
    ensures r.Some? ==> |r.value.1| < |ls|
    decreases |ls|, 0
  {
    if ls == [] then None
    else
      match ls[0].tokenType
      case IDENT => Some((ColumnRef(ls[0].text), ls[1..]))
      case NUMBER => if ParseLiteral(ls[0]).None? then None else Some((ParseLiteral(ls[0]).value, ls[1..]))
      case STRING => if ParseLiteral(ls[0]).None? then None else Some((ParseLiteral(ls[0]).value, ls[1..]))
      case LPAREN =>
        (match Disjunction(ls[1..])
         case None => None
         case Some((e, rest)) => if Starts(rest, RPAREN) then Some((e, rest[1..])) else None)
      case _ => None
  }

  /** At most one comparison operator between primaries. */
  function Comparison(ls: seq<Lexeme>): (r: Parse)
    ensures r.Some? ==> |r.value.1| < |ls|
    decreases |ls|, 1
  {
    match Primary(ls)
    case None => None
    case Some((left, rest)) =>
      if rest == [] || ComparisonOp(rest[0].tokenType).None? then Some((left, rest))
      else
        match Primary(rest[1..])
        case None => None
        case Some((right, rest')) => Some((Binary(ComparisonOp(rest[0].tokenType).value, left, right), rest'))
  }

  /** The left-associative AND loop. */
  function Conjuncts(left: Expr, ls: seq<Lexeme>): (r: Parse)
    ensures r.Some? ==> |r.value.1| <= |ls|
    decreases |ls|, 2
  {
    if !Starts(ls, AND) then Some((left, ls))
    else
      match Comparison(ls[1..])
      case None => None
      case Some((right, rest)) => Conjuncts(Binary(And, left, right), rest)
  }

  function Conjunction(ls: seq<Lexeme>): (r: Parse)
    ensures r.Some? ==> |r.value.1| < |ls|
    decreases |ls|, 3
  {
    match Comparison(ls)
    case None => None
    case Some((left, rest)) => Conjuncts(left, rest)
  }

  /** The left-associative OR loop. */
  function Disjuncts(left: Expr, ls: seq<Lexeme>): (r: Parse)
    ensures r.Some? ==> |r.value.1| <= |ls|
    decreases |ls|, 4
  {
    if !Starts(ls, OR) then Some((left, ls))
    else
      match Conjunction(ls[1..])
      case None => None
      case Some((right, rest)) => Disjuncts(Binary(Or, left, right), rest)
  }

  function Disjunction(ls: seq<Lexeme>): (r: Parse)
    ensures r.Some? ==> |r.value.1| < |ls|
    decreases |ls|, 5
  {
    match Conjunction(ls)
    case None => None
    case Some((left, rest)) => Disjuncts(left, rest)
  }

  lemma PrimaryIs(ls: seq<Lexeme>)
    requires ls != []
    ensures Primary(ls) ==
      match ls[0].tokenType
      case IDENT => Some((ColumnRef(ls[0].text), ls[1..]))
      case NUMBER => if ParseLiteral(ls[0]).None? then None else Some((ParseLiteral(ls[0]).value, ls[1..]))
      case STRING => if ParseLiteral(ls[0]).None? then None else Some((ParseLiteral(ls[0]).value, ls[1..]))
      case LPAREN =>
        (match Disjunction(ls[1..])
         case None => None
         case Some((e, rest)) => if Starts(rest, RPAREN) then Some((e, rest[1..])) else None)
      case _ => None
  {
  }

  // ----- The parser -----

  class SqlParser {
    var tokens: seq<Token>
    var pos: nat

    /** Tokens as the lexer delivers them: one EOF, at the end. */
    constructor (tokens: seq<Token>)
      requires EndsWithEof(LexemesOf(tokens))
      ensures Valid() && this.tokens == tokens && Ahead() == LexemesOf(tokens)
    {
      this.tokens, pos := tokens, 0;
      new;
      assert LexemesOf(tokens)[0..] == LexemesOf(tokens);
    }

    ghost predicate Valid()
      reads this
    {
      EndsWithEof(LexemesOf(tokens)) && pos < |tokens|
    }

    /** The tokens from the current one on. */
    ghost function Ahead(): seq<Lexeme>
      requires pos <= |tokens|
      reads this
    {
      LexemesOf(tokens)[pos..]
    }

    function Current(): Token
      requires tokens != []
      reads this
    {
      tokens[if pos < |tokens| then pos else |tokens| - 1]
    }

    /** Steps over the current token, which is not the final EOF. */
    method Advance()
      requires Valid() && Current().tokenType != EOF
      modifies `pos
      ensures Valid() && pos == old(pos) + 1 && Ahead() == old(Ahead())[1..]
    {
      assert LexemesOf(tokens)[pos].tokenType == Current().tokenType;
      assert LexemesOf(tokens)[|tokens| - 1].tokenType == EOF;
      pos := pos + 1;
    }

    method Match(t: TokenType) returns (matched: bool)
      requires Valid() && t != EOF
      modifies `pos
      ensures Valid() && matched == Starts(old(Ahead()), t)
      ensures pos == if matched then old(pos) + 1 else old(pos)
      ensures Ahead() == if matched then old(Ahead())[1..] else old(Ahead())
    {
      assert Ahead()[0].tokenType == Current().tokenType;
      matched := Current().tokenType == t;
      if matched {
        Advance();
      }
    }

    lemma CurrentIsAhead()
      requires Valid()
      ensures Ahead() != [] && Ahead()[0] == Lexeme(Current().tokenType, Current().text)
    {
    }

    method ParsePrimary() returns (e: Option<Expr>)
      requires Valid()
      modifies `pos
      ensures Valid() && Follows(e, Primary(old(Ahead())), Ahead())
      ensures e.Some? ==> pos > old(pos)
      decreases |tokens| - pos, 0
    {
      hide Disjunction, ParseLiteral, EndsWithEof, LexemesOf, SqlParser.Ahead;
      CurrentIsAhead();
      PrimaryIs(Ahead());
      var t := Current();
      match t.tokenType {
      case IDENT =>
        Advance();
        return Some(ColumnRef(t.text));
      case NUMBER =>
        Advance();
        return ParseLiteral(Lexeme(NUMBER, t.text));
      case STRING =>
        Advance();
        return ParseLiteral(Lexeme(STRING, t.text));
      case LPAREN =>
        Advance();
        e := ParseExpr();
        if e.None? {
          return;
        }
        var closed := Match(RPAREN);
        return if closed then e else None;
      case _ => return None;
      }
    }

    method ParseComparison() returns (e: Option<Expr>)
      requires Valid()
      modifies `pos
      ensures Valid() && Follows(e, Comparison(old(Ahead())), Ahead())
      ensures e.Some? ==> pos > old(pos)
      decreases |tokens| - pos, 1
    {
      hide Primary, LexemesOf, EndsWithEof, SqlParser.Ahead;
      e := ParsePrimary();
      if e.None? {
        return;
      }
      CurrentIsAhead();
      var op := ComparisonOp(Current().tokenType);
      if op.Some? {
        Advance();
        var right := ParsePrimary();
        if right.None? {
          return None;
        }
        return Some(Binary(op.value, e.value, right.value));
      }
    }

    /** parseBinaryLeft over comparisons and AND. */
    method ParseConjunction() returns (e: Option<Expr>)
      requires Valid()
      modifies `pos
      ensures Valid() && Follows(e, Conjunction(old(Ahead())), Ahead())
      ensures e.Some? ==> pos > old(pos)
      decreases |tokens| - pos, 2
    {
      hide Primary, Comparison, LexemesOf, EndsWithEof, SqlParser.Ahead;
      ghost var all := Ahead();
      e := ParseComparison();
      if e.None? {
        return;
      }
      var matched := Match(AND);
      while matched
        invariant Valid() && pos > old(pos) && e.Some?
        invariant Conjunction(all) ==
          if matched then (match Comparison(Ahead()) case None => None case Some((right, rest)) => Conjuncts(Binary(And, e.value, right), rest))
          else Some((e.value, Ahead()))
        decreases matched, |tokens| - pos
      {
        var right := ParseComparison();
        if right.None? {
          return None;
        }
        e := Some(Binary(And, e.value, right.value));
        matched := Match(AND);
      }
    }

    /** parseExpr: parseBinaryLeft over conjunctions and OR. */
    method ParseExpr() returns (e: Option<Expr>)
      requires Valid()
      modifies `pos
      ensures Valid() && Follows(e, Disjunction(old(Ahead())), Ahead())
      ensures e.Some? ==> pos > old(pos)
      decreases |tokens| - pos, 3
    {
      hide Primary, Comparison, Conjunction, LexemesOf, EndsWithEof, SqlParser.Ahead;
      ghost var all := Ahead();
      e := ParseConjunction();
      if e.None? {
        return;
      }
      var matched := Match(OR);
      while matched
        invariant Valid() && pos > old(pos) && e.Some?
        invariant Disjunction(all) ==
          if matched then (match Conjunction(Ahead()) case None => None case Some((right, rest)) => Disjuncts(Binary(Or, e.value, right), rest))
          else Some((e.value, Ahead()))
        decreases matched, |tokens| - pos
      {
        var right := ParseConjunction();
        if right.None? {
          return None;
        }
        e := Some(Binary(Or, e.value, right.value));
        matched := Match(OR);
      }
    }
  }

  ghost predicate EndsWithEof(ls: seq<Lexeme>) {
    && ls != [] && ls[|ls| - 1].tokenType == EOF
    && forall i :: 0 <= i < |ls| - 1 ==> ls[i].tokenType != EOF
  }

  /** The parser did what the grammar says: the same expression, the same tokens left. */
  ghost predicate Follows(e: Option<Expr>, parse: Parse, ahead: seq<Lexeme>) {
    if parse.None? then e.None? else e == Some(parse.value.0) && ahead == parse.value.1
  }
}
