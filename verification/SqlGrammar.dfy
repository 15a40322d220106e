/** Which token lists are predicates, said as a grammar, and that the parser accepts exactly these. */
module SqlGrammar {
  import opened Values
  import opened Expressions
  import opened Lexer
  import opened Parser
  import opened SqlTokens

  // ----- Numerals -----

  function Decimal(n: nat): (s: string)
    ensures AllDigits(s)
  {
    if n < 10 then [('0' as int + n) as char] else Decimal(n / 10) + [('0' as int + n % 10) as char]
  }

  predicate IsZeros(s: string) {
    forall i :: 0 <= i < |s| ==> s[i] == '0'
  }

  /** The number in decimal, behind any number of zeros and, if it is not positive, behind a minus sign. */
  ghost predicate IsNumeral(text: string, n: int64) {
    var i: int := n;
    exists zeros :: IsZeros(zeros) && ((i >= 0 && text == zeros + Decimal(i)) || (i <= 0 && text == "-" + (zeros + Decimal(-i))))
  }

  lemma {:induction false} DecimalValue(zeros: string, n: nat)
    requires IsZeros(zeros)
    ensures AllDigits(zeros + Decimal(n)) && DigitsValue(zeros + Decimal(n)) == n
    decreases |zeros|, n
  {
    var s := zeros + Decimal(n);
    if n >= 10 {
      DecimalValue(zeros, n / 10);
      assert s[..|s| - 1] == zeros + Decimal(n / 10);
    } else {
      assert s[..|s| - 1] == zeros;
      ZerosValue(zeros);
    }
  }

  lemma {:induction false} ZerosValue(zeros: string)
    requires IsZeros(zeros)
    ensures DigitsValue(zeros) == 0
  {
    if zeros != "" {
      ZerosValue(zeros[..|zeros| - 1]);
    }
  }

  lemma {:induction false} DigitsAreDecimal(s: string) returns (zeros: string)
    requires AllDigits(s)
    ensures IsZeros(zeros) && s == zeros + Decimal(DigitsValue(s))
  {
    var front, last := s[..|s| - 1], s[|s| - 1];
    assert s == front + [last];
    if front == "" {
      zeros := "";
    } else {
      zeros := DigitsAreDecimal(front);
      if DigitsValue(front) == 0 {
        zeros := zeros + "0";
      }
    }
  }

  lemma NumeralRead(text: string, n: int64)
    requires ParseInt(text) == Some(n)
    ensures IsNumeral(text, n)
  {
    var negative := text != "" && text[0] == '-';
    var digits := if negative then text[1..] else text;
    var zeros := DigitsAreDecimal(digits);
    var i: int := n;
    if negative {
      assert text == "-" + digits && DigitsValue(digits) == -i;
    }
  }

  lemma PlainReads(text: string, zeros: string, n: int64)
    requires n as int >= 0 && IsZeros(zeros) && text == zeros + Decimal(n as int)
    ensures ParseInt(text) == Some(n)
  {
    DecimalValue(zeros, n as int);
    assert IsDigit(text[0]);
  }

  lemma SignedReads(text: string, zeros: string, n: int64)
    requires n as int <= 0 && IsZeros(zeros) && text == "-" + (zeros + Decimal(-(n as int)))
    ensures ParseInt(text) == Some(n)
  {
    DecimalValue(zeros, -(n as int));
    assert text[1..] == zeros + Decimal(-(n as int));
  }

  /** A numeral stands for its number and no other text does. */
  lemma NumeralIff(text: string, n: int64)
    ensures ParseInt(text) == Some(n) <==> IsNumeral(text, n)
  {
    hide ParseInt, Decimal;
    if ParseInt(text) == Some(n) {
      NumeralRead(text, n);
    }
    if IsNumeral(text, n) {
      var i: int := n;
      var zeros :| IsZeros(zeros) && ((i >= 0 && text == zeros + Decimal(i)) || (i <= 0 && text == "-" + (zeros + Decimal(-i))));
      if i >= 0 && text == zeros + Decimal(i) {
        PlainReads(text, zeros, n);
      } else {
        SignedReads(text, zeros, n);
      }
    }
  }

  // ----- The grammar -----

  /** OR binds weakest, then AND, then comparisons; atoms bind tightest. */
  function Level(e: Expr): nat {
    match e
    case Binary(Or, _, _) => 0
    case Binary(And, _, _) => 1
    case Binary(_, _, _) => 2
    case _ => 3
  }

  function OpToken(op: BinaryOp): TokenType {
    match op
    case And => AND
    case Or => OR
    case Eq => EQ
    case Ne => NE
    case Lt => LT
    case Le => LE
    case Gt => GT
    case Ge => GE
  }

  /** The least level of an operand. AND and OR associate to the left, a comparison not at all. */
  function LeftLevel(op: BinaryOp): nat {
    if op.Or? then 0 else if op.And? then 1 else 3
  }

  function RightLevel(op: BinaryOp): nat {
    if op.Or? then 1 else if op.And? then 2 else 3
  }

  /** The tokens are the expression, as an operand of at least level `k`: bare if it binds that tightly, or in
      parentheses. */
  ghost predicate Derives(e: Expr, k: nat, ls: seq<Lexeme>)
    decreases |ls|, 1
  {
    || (Level(e) >= k && Bare(e, ls))
    || InParentheses(e, ls)
  }

  ghost predicate InParentheses(e: Expr, ls: seq<Lexeme>)
    decreases |ls|, 0
  {
    && |ls| >= 2 && ls[0].tokenType == LPAREN && ls[|ls| - 1].tokenType == RPAREN
    && Derives(e, 0, ls[1..|ls| - 1])
  }

  ghost predicate Bare(e: Expr, ls: seq<Lexeme>)
    decreases |ls|, 0
  {
    match e
    case ColumnRef(name) => ls == [Lexeme(IDENT, name)]
    case IntLiteral(n) => |ls| == 1 && ls[0].tokenType == NUMBER && IsNumeral(ls[0].text, n)
    case StringLiteral(s) => ls == [Lexeme(STRING, s)]
    case Binary(op, l, r) => exists i :: 0 <= i < |ls| && Joins(op, l, r, ls, i)
  }

  /** The operator is the token at `i`, its operands are around it. */
  ghost predicate Joins(op: BinaryOp, l: Expr, r: Expr, ls: seq<Lexeme>, i: nat)
    requires i < |ls|
    decreases |ls|, 0, 0
  {
    ls[i].tokenType == OpToken(op) && Derives(l, LeftLevel(op), ls[..i]) && Derives(r, RightLevel(op), ls[i + 1..])
  }

  // ----- What the grammar has is parsed -----

  /** The next token does not continue an operand: no comparison operator follows. */
  predicate NoComparison(rest: seq<Lexeme>) {
    rest == [] || ComparisonOp(rest[0].tokenType).None?
  }

  lemma OpTokens(op: BinaryOp)
    ensures op.And? || op.Or? <==> ComparisonOp(OpToken(op)).None?
    ensures !op.And? && !op.Or? ==> ComparisonOp(OpToken(op)) == Some(op)
  {
  }

  lemma AtomParses(e: Expr, ls: seq<Lexeme>, rest: seq<Lexeme>)
    requires Level(e) == 3 && Bare(e, ls)
    ensures Primary(ls + rest) == Some((e, rest))
  {
    assert (ls + rest)[1..] == rest;
    if e.IntLiteral? {
      NumeralIff(ls[0].text, e.n);
    }
  }

  /** An operand of a comparison, whatever follows. */
  lemma {:induction false} PrimaryOf(e: Expr, ls: seq<Lexeme>, rest: seq<Lexeme>)
    requires Derives(e, 3, ls)
    ensures Primary(ls + rest) == Some((e, rest))
    decreases |ls|, 0
  {
    hide Bare;
    if Level(e) == 3 && Bare(e, ls) {
      AtomParses(e, ls, rest);
    } else {
      var inner, behind := ls[1..|ls| - 1], [ls[|ls| - 1]] + rest;
      DisjunctionOf(e, inner, behind);
      assert (ls + rest)[1..] == inner + behind;
      assert behind[1..] == rest;
      PrimaryIs(ls + rest);
    }
  }

  /** The tokens around the operator. */
  lemma Around(ls: seq<Lexeme>, i: nat, rest: seq<Lexeme>)
    requires i < |ls|
    ensures ls + rest == ls[..i] + ([ls[i]] + (ls[i + 1..] + rest))
    ensures ([ls[i]] + (ls[i + 1..] + rest))[1..] == ls[i + 1..] + rest
  {
  }

  lemma OperatorOf(e: Expr, ls: seq<Lexeme>) returns (i: nat)
    requires e.Binary? && Bare(e, ls)
    ensures i < |ls| && Joins(e.op, e.left, e.right, ls, i)
  {
    var Binary(op, l, r) := e;
    i :| 0 <= i < |ls| && Joins(op, l, r, ls, i);
  }

  /** An operand of AND. */
  lemma {:induction false} ComparisonOf(e: Expr, ls: seq<Lexeme>, rest: seq<Lexeme>)
    requires Derives(e, 2, ls) && NoComparison(rest)
    ensures Comparison(ls + rest) == Some((e, rest))
    decreases |ls|, 1
  {
    hide Primary;
    if Level(e) == 2 && Bare(e, ls) {
      var i := OperatorOf(e, ls);
      var tail := [ls[i]] + (ls[i + 1..] + rest);
      OpTokens(e.op);
      Around(ls, i, rest);
      PrimaryOf(e.left, ls[..i], tail);
      PrimaryOf(e.right, ls[i + 1..], rest);
    } else {
      PrimaryOf(e, ls, rest);
    }
  }

  /** Reading an AND chain leaves the loop with the whole chain on its left. */
  lemma {:induction false} ConjunctionOf(e: Expr, ls: seq<Lexeme>, rest: seq<Lexeme>)
    requires Derives(e, 1, ls) && NoComparison(rest)
    ensures Conjunction(ls + rest) == Conjuncts(e, rest)
    decreases |ls|, 2
  {
    hide Comparison;
    if Level(e) == 1 && Bare(e, ls) {
      var i := OperatorOf(e, ls);
      var tail := [ls[i]] + (ls[i + 1..] + rest);
      Around(ls, i, rest);
      ConjunctionOf(e.left, ls[..i], tail);
      ComparisonOf(e.right, ls[i + 1..], rest);
    } else {
      ComparisonOf(e, ls, rest);
    }
  }

  /** Reading an OR chain leaves the loop with the whole chain on its left. */
  lemma {:induction false} DisjunctionChain(e: Expr, ls: seq<Lexeme>, rest: seq<Lexeme>)
    requires Derives(e, 0, ls) && NoComparison(rest) && !Starts(rest, AND)
    ensures Disjunction(ls + rest) == Disjuncts(e, rest)
    decreases |ls|, 3
  {
    hide Conjunction;
    if Level(e) == 0 && Bare(e, ls) {
      var i := OperatorOf(e, ls);
      var tail := [ls[i]] + (ls[i + 1..] + rest);
      Around(ls, i, rest);
      DisjunctionChain(e.left, ls[..i], tail);
      ConjunctionOf(e.right, ls[i + 1..], rest);
      EndsConjunction(e.right, rest);
    } else {
      ConjunctionOf(e, ls, rest);
      EndsConjunction(e, rest);
    }
  }

  lemma EndsConjunction(e: Expr, rest: seq<Lexeme>)
    ensures !Starts(rest, AND) ==> Conjuncts(e, rest) == Some((e, rest))
  {
  }

  /** The tokens of an expression parse to it; the parser stops behind them. */
  lemma {:induction false} DisjunctionOf(e: Expr, ls: seq<Lexeme>, rest: seq<Lexeme>)
    requires Derives(e, 0, ls) && NoComparison(rest) && !Starts(rest, AND) && !Starts(rest, OR)
    ensures Disjunction(ls + rest) == Some((e, rest))
    decreases |ls|, 4
  {
    DisjunctionChain(e, ls, rest);
  }

  // ----- What is parsed the grammar has -----

  lemma {:induction false} PrimaryReads(ls: seq<Lexeme>) returns (read: seq<Lexeme>)
    requires Primary(ls).Some?
    ensures var (e, rest) := Primary(ls).value; ls == read + rest && Derives(e, 3, read)
    decreases |ls|, 0
  {
    PrimaryIs(ls);
    var (e, rest) := Primary(ls).value;
    assert ls == [ls[0]] + ls[1..];
    if ls[0].tokenType == LPAREN {
      var (_, behind) := Disjunction(ls[1..]).value;
      var inner := DisjunctionReads(ls[1..]);
      read := [ls[0]] + inner + [behind[0]];
      assert read[1..|read| - 1] == inner;
      assert behind == [behind[0]] + rest;
      assert InParentheses(e, read);
    } else {
      read := [ls[0]];
      if ls[0].tokenType == NUMBER {
        NumeralIff(ls[0].text, e.n);
      }
      assert Bare(e, read);
    }
  }

  lemma JoinedBy(op: BinaryOp, l: Expr, r: Expr, left: seq<Lexeme>, link: Lexeme, right: seq<Lexeme>) returns (ls: seq<Lexeme>)
    requires link.tokenType == OpToken(op) && Derives(l, LeftLevel(op), left) && Derives(r, RightLevel(op), right)
    ensures ls == left + ([link] + right) && Bare(Binary(op, l, r), ls)
  {
    ls := left + ([link] + right);
    assert ls[..|left|] == left && ls[|left| + 1..] == right;
    assert Joins(op, l, r, ls, |left|);
  }

  lemma ComparisonReads(ls: seq<Lexeme>) returns (read: seq<Lexeme>)
    requires Comparison(ls).Some?
    ensures var (e, rest) := Comparison(ls).value; ls == read + rest && Derives(e, 2, read)
    decreases |ls|, 1
  {
    hide Primary, Bare, InParentheses;
    read := PrimaryReads(ls);
    var (left, rest) := Primary(ls).value;
    if rest != [] && ComparisonOp(rest[0].tokenType).Some? {
      var op := ComparisonOp(rest[0].tokenType).value;
      var right, rest' := Primary(rest[1..]).value.0, Primary(rest[1..]).value.1;
      var second := PrimaryReads(rest[1..]);
      assert rest == [rest[0]] + (second + rest');
      read := JoinedBy(op, left, right, read, rest[0], second);
    }
  }

  lemma {:induction false} ConjunctsReads(left: Expr, front: seq<Lexeme>, ls: seq<Lexeme>) returns (read: seq<Lexeme>)
    requires Conjuncts(left, ls).Some? && Derives(left, 1, front)
    ensures var (e, rest) := Conjuncts(left, ls).value; ls == read + rest && Derives(e, 1, front + read)
    decreases |ls|, 2
  {
    hide Comparison, Bare, InParentheses;
    if !Starts(ls, AND) {
      read := [];
      assert front + [] == front;
    } else {
      var (right, rest) := Comparison(ls[1..]).value;
      var second := ComparisonReads(ls[1..]);
      var joined := JoinedBy(And, left, right, front, ls[0], second);
      read := ConjunctsReads(Binary(And, left, right), joined, rest);
      var tail := read;
      read := [ls[0]] + second + tail;
      assert joined + tail == front + read;
      assert ls == [ls[0]] + ls[1..];
    }
  }

  lemma ConjunctionReads(ls: seq<Lexeme>) returns (read: seq<Lexeme>)
    requires Conjunction(ls).Some?
    ensures var (e, rest) := Conjunction(ls).value; ls == read + rest && Derives(e, 1, read)
    decreases |ls|, 3
  {
    hide Comparison, Bare, InParentheses;
    var (left, rest) := Comparison(ls).value;
    var front := ComparisonReads(ls);
    var tail := ConjunctsReads(left, front, rest);
    read := front + tail;
  }

  lemma {:induction false} DisjunctsReads(left: Expr, front: seq<Lexeme>, ls: seq<Lexeme>) returns (read: seq<Lexeme>)
    requires Disjuncts(left, ls).Some? && Derives(left, 0, front)
    ensures var (e, rest) := Disjuncts(left, ls).value; ls == read + rest && Derives(e, 0, front + read)
    decreases |ls|, 4
  {
    hide Conjunction, Bare, InParentheses;
    if !Starts(ls, OR) {
      read := [];
      assert front + [] == front;
    } else {
      var (right, rest) := Conjunction(ls[1..]).value;
      var second := ConjunctionReads(ls[1..]);
      var joined := JoinedBy(Or, left, right, front, ls[0], second);
      var tail := DisjunctsReads(Binary(Or, left, right), joined, rest);
      read := [ls[0]] + second + tail;
      assert joined + tail == front + read;
      assert ls == [ls[0]] + ls[1..];
    }
  }

  /** Whatever the parser returns, it has read exactly the tokens of that expression. */
  lemma DisjunctionReads(ls: seq<Lexeme>) returns (read: seq<Lexeme>)
    requires Disjunction(ls).Some?
    ensures var (e, rest) := Disjunction(ls).value; ls == read + rest && Derives(e, 0, read)
    decreases |ls|, 5
  {
    hide Conjunction, Bare, InParentheses;
    var (left, rest) := Conjunction(ls).value;
    var front := ConjunctionReads(ls);
    var tail := DisjunctsReads(left, front, rest);
    read := front + tail;
  }

  // ----- Both ways -----

  /** Tokens up to the end are parsed to an expression exactly when the grammar derives them from it. */
  lemma ParsesIff(ls: seq<Lexeme>, e: Expr)
    ensures Disjunction(ls + [Lexeme(EOF, "")]) == Some((e, [Lexeme(EOF, "")])) <==> Derives(e, 0, ls)
  {
    hide Disjunction, Derives;
    var eof := [Lexeme(EOF, "")];
    if Disjunction(ls + eof) == Some((e, eof)) {
      var read := DisjunctionReads(ls + eof);
      assert (ls + eof)[..|ls|] == ls && (read + eof)[..|read|] == read;
    }
    if Derives(e, 0, ls) {
      DisjunctionOf(e, ls, eof);
    }
  }

  /** No token list is two expressions. */
  lemma Unambiguous(ls: seq<Lexeme>, a: Expr, b: Expr)
    requires Derives(a, 0, ls) && Derives(b, 0, ls)
    ensures a == b
  {
    ParsesIff(ls, a);
    ParsesIff(ls, b);
  }

  /** The same tokens, keywords and symbols spelled in any of their ways. */
  ghost predicate Respells(ls: seq<Lexeme>, ls': seq<Lexeme>) {
    && |ls| == |ls'|
    && forall i :: 0 <= i < |ls| ==>
         && ls'[i].tokenType == ls[i].tokenType
         && (ls[i].tokenType in {IDENT, NUMBER, STRING} ==> ls'[i] == ls[i])
  }

  /** How a keyword or an operator is spelled does not matter: `!=` is `<>`, `and` is `AND`. */
  lemma {:induction false} SpellingIsFree(e: Expr, k: nat, ls: seq<Lexeme>, ls': seq<Lexeme>)
    requires Derives(e, k, ls) && Respells(ls, ls')
    ensures Derives(e, k, ls')
    decreases |ls|
  {
    if InParentheses(e, ls) {
      SpellingIsFree(e, 0, ls[1..|ls| - 1], ls'[1..|ls| - 1]);
      assert InParentheses(e, ls');
    } else if e.Binary? {
      var i := OperatorOf(e, ls);
      SpellingIsFree(e.left, LeftLevel(e.op), ls[..i], ls'[..i]);
      SpellingIsFree(e.right, RightLevel(e.op), ls[i + 1..], ls'[i + 1..]);
      assert Joins(e.op, e.left, e.right, ls', i);
    } else {
      assert ls' == ls;
    }
  }

  // ----- Texts -----

  /** The text is a predicate: laid out from the tokens of the expression. */
  ghost predicate IsPredicate(text: string, e: Expr) {
    exists ls :: LaysOut(text, ls) && Derives(e, 0, ls)
  }

  /** The lexer and the parser make the expression of the text and have only the end left. */
  predicate Understood(text: string, e: Expr) {
    Lex(text).Some? && Disjunction(Lex(text).value) == Some((e, [Lexeme(EOF, "")]))
  }

  lemma {:induction false} LexEnds(text: string) returns (ls: seq<Lexeme>)
    requires Lex(text).Some?
    ensures Lex(text) == Some(ls + [Lexeme(EOF, "")]) && EndsWithEof(ls + [Lexeme(EOF, "")])
    decreases |text|
  {
    hide NextToken;
    if text == "" {
      ls := [];
      assert ls + [Lexeme(EOF, "")] == [Lexeme(EOF, "")];
    } else if IsWhitespace(text[0]) {
      ls := LexEnds(text[1..]);
    } else {
      var (l, n) := NextToken(text).value;
      var rest := LexEnds(text[n..]);
      NoTokenEnds(text);
      LexOne(text, l, n);
      ls := [l] + rest;
      assert [l] + (rest + [Lexeme(EOF, "")]) == ls + [Lexeme(EOF, "")];
    }
  }

  lemma NoTokenEnds(text: string)
    requires text != "" && NextToken(text).Some?
    ensures NextToken(text).value.0.tokenType != EOF
  {
    TokenFoundIs(text);
  }

  /** A text is understood as an expression exactly when it is one: every spelling, every case of a keyword,
      any white space, redundant parentheses or none; and nothing else is accepted. */
  lemma UnderstoodIff(text: string, e: Expr)
    ensures Understood(text, e) <==> IsPredicate(text, e)
  {
    hide Lex, Disjunction, LaysOut, Derives;
    if Understood(text, e) {
      var ls := LexEnds(text);
      LexIff(text, ls);
      ParsesIff(ls, e);
    }
    if IsPredicate(text, e) {
      var ls :| LaysOut(text, ls) && Derives(e, 0, ls);
      LexIff(text, ls);
      ParsesIff(ls, e);
    }
  }
}
