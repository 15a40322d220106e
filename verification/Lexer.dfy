/** The SQL lexer. */
module Lexer {
  import opened Values

  datatype TokenType =
    | EOF | IDENT | NUMBER | STRING
    | CREATE | TABLE | INDEX | ON | USING | HASH | BTREE
    | INSERT | INTO | VALUES | SELECT | FROM | WHERE
    | AND | OR | EXPLAIN | INT64 | VARCHAR
    | LPAREN | RPAREN | COMMA | SEMICOLON | ASTERISK
    | EQ | NE | LT | LE | GT | GE

  datatype Token = Token(tokenType: TokenType, text: string, startOffset: nat, endOffset: nat, line: nat, column: nat)

  /** A token without its place. */
  datatype Lexeme = Lexeme(tokenType: TokenType, text: string)

  predicate IsWhitespace(c: char) { c == ' ' || c == '\t' || c == '\r' || c == '\n' }
  predicate IsDigit(c: char) { '0' <= c <= '9' }
  predicate IsIdentStart(c: char) { 'A' <= c <= 'Z' || 'a' <= c <= 'z' || c == '_' }
  predicate IsIdentPart(c: char) { IsIdentStart(c) || IsDigit(c) }

  function UpperChar(c: char): char {
    if 'a' <= c <= 'z' then (c as int - 32) as char else c
  }

  function Upper(s: string): string {
    seq(|s|, i requires 0 <= i < |s| => UpperChar(s[i]))
  }

  /** The keyword a word spells in any case, or IDENT. */
  function WordType(word: string): TokenType {
    var w := Upper(word);
    if w == "CREATE" then CREATE
    else if w == "TABLE" then TABLE
    else if w == "INDEX" then INDEX
    else if w == "ON" then ON
    else if w == "USING" then USING
    else if w == "HASH" then HASH
    else if w == "BTREE" then BTREE
    else if w == "INSERT" then INSERT
    else if w == "INTO" then INTO
    else if w == "VALUES" then VALUES
    else if w == "SELECT" then SELECT
    else if w == "FROM" then FROM
    else if w == "WHERE" then WHERE
    else if w == "AND" then AND
    else if w == "OR" then OR
    else if w == "EXPLAIN" then EXPLAIN
    else if w == "INT64" then TokenType.INT64
    else if w == "VARCHAR" then TokenType.VARCHAR
    else IDENT
  }

  // ----- What a text lexes to -----

  function IdentLength(s: string): (n: nat)
    ensures n <= |s| && (forall i :: 0 <= i < n ==> IsIdentPart(s[i])) && (n < |s| ==> !IsIdentPart(s[n]))
  {
    if s == [] || !IsIdentPart(s[0]) then 0 else 1 + IdentLength(s[1..])
  }

  function DigitLength(s: string): (n: nat)
    ensures n <= |s| && (forall i :: 0 <= i < n ==> IsDigit(s[i])) && (n < |s| ==> !IsDigit(s[n]))
  {
    if s == [] || !IsDigit(s[0]) then 0 else 1 + DigitLength(s[1..])
  }

  predicate StartsNumber(s: string) {
    s != [] && (IsDigit(s[0]) || (s[0] == '-' && |s| >= 2 && IsDigit(s[1])))
  }

  function NumberLength(s: string): (n: nat)
    requires StartsNumber(s)
    ensures 0 < n <= |s|
  {
    if s[0] == '-' then 1 + DigitLength(s[1..]) else DigitLength(s)
  }

  /** After the opening quote: the content, doubled quotes undoubled, and the length up to and
      including the closing quote. Nothing if the string is not terminated. */
  function StringBody(s: string): (r: Option<(string, nat)>)
    ensures r.Some? ==> 0 < r.value.1 <= |s|
  {
    if s == [] then None
    else if s[0] == '\'' then
      if |s| >= 2 && s[1] == '\'' then
        match StringBody(s[2..])
        case None => None
        case Some((text, n)) => Some(("'" + text, n + 2))
      else Some(("", 1))
    else
      match StringBody(s[1..])
      case None => None
      case Some((text, n)) => Some(([s[0]] + text, n + 1))
  }

  /** Punctuation and operators, the longest first. */
  function Symbol(s: string): (r: Option<Lexeme>)
    requires s != []
    ensures r.Some? ==> 0 < |r.value.text| <= |s| && r.value.text == s[..|r.value.text|]
  {
    match s[0]
    case '(' => Some(Lexeme(LPAREN, "("))
    case ')' => Some(Lexeme(RPAREN, ")"))
    case ',' => Some(Lexeme(COMMA, ","))
    case ';' => Some(Lexeme(SEMICOLON, ";"))
    case '*' => Some(Lexeme(ASTERISK, "*"))
    case '=' => Some(Lexeme(EQ, "="))
    case '<' =>
      if |s| >= 2 && s[1] == '=' then Some(Lexeme(LE, "<="))
      else if |s| >= 2 && s[1] == '>' then Some(Lexeme(NE, "<>"))
      else Some(Lexeme(LT, "<"))
    case '>' => if |s| >= 2 && s[1] == '=' then Some(Lexeme(GE, ">=")) else Some(Lexeme(GT, ">"))
    case '!' => if |s| >= 2 && s[1] == '=' then Some(Lexeme(NE, "!=")) else None
    case _ => None
  }

  /** The token at the front of a text that starts with no white space, and its length. */
  function NextToken(s: string): (r: Option<(Lexeme, nat)>)
    requires s != []
    ensures r.Some? ==> 0 < r.value.1 <= |s|
  {
    if IsIdentStart(s[0]) then
      var n := IdentLength(s);
      Some((Lexeme(WordType(s[..n]), s[..n]), n))
    else if StartsNumber(s) then
      var n := NumberLength(s);
      Some((Lexeme(NUMBER, s[..n]), n))
    else if s[0] == '\'' then
      match StringBody(s[1..])
      case None => None
      case Some((text, n)) => Some((Lexeme(STRING, text), n + 1))
    else
      match Symbol(s)
      case None => None
      case Some(l) => Some((l, |l.text|))
  }

  /** All tokens of a text with the final EOF, or nothing on a lexical error. */
  function Lex(s: string): Option<seq<Lexeme>>
    decreases |s|
  {
    if s == [] then Some([Lexeme(EOF, "")])
    else if IsWhitespace(s[0]) then Lex(s[1..])
    else
      match NextToken(s)
      case None => None
      case Some((l, n)) =>
        match Lex(s[n..])
        case None => None
        case Some(rest) => Some([l] + rest)
  }

  // ----- Lines and columns -----

  /** The line of offset `pos`: one more than the newlines before it. */
  function LineAt(s: string, pos: nat): nat
    requires pos <= |s|
  {
    if pos == 0 then 1 else LineAt(s, pos - 1) + if s[pos - 1] == '\n' then 1 else 0
  }

  /** The column of offset `pos`: its distance from the last newline before it. */
  function ColumnAt(s: string, pos: nat): nat
    requires pos <= |s|
  {
    if pos == 0 || s[pos - 1] == '\n' then 1 else ColumnAt(s, pos - 1) + 1
  }

  /** The token's offsets, line and column are those of its first character. */
  ghost predicate Placed(t: Token, s: string) {
    t.startOffset <= t.endOffset <= |s| && t.line == LineAt(s, t.startOffset) && t.column == ColumnAt(s, t.startOffset)
  }

  /** The token is the one that `s` has at its offsets. */
  ghost predicate Spells(t: Token, s: string) {
    && t.startOffset < t.endOffset <= |s|
    && NextToken(s[t.startOffset..]) == Some((Lexeme(t.tokenType, t.text), t.endOffset - t.startOffset))
  }

  ghost predicate Blank(s: string, a: nat, b: nat) {
    a <= b <= |s| && forall k :: a <= k < b ==> IsWhitespace(s[k])
  }

  ghost function EndOf(tokens: seq<Token>): nat {
    if tokens == [] then 0 else tokens[|tokens| - 1].endOffset
  }

  /** Up to offset `upTo`, the text consists of the tokens, in order, and white space between them. */
  ghost predicate Spans(tokens: seq<Token>, s: string, upTo: nat) {
    && (forall i :: 0 <= i < |tokens| ==> Placed(tokens[i], s) && Spells(tokens[i], s) && Blank(s, EndOf(tokens[..i]), tokens[i].startOffset))
    && Blank(s, EndOf(tokens), upTo)
  }

  lemma SpansMore(tokens: seq<Token>, t: Token, s: string)
    requires Spans(tokens, s, t.startOffset) && Placed(t, s) && Spells(t, s)
    ensures Spans(tokens + [t], s, t.endOffset)
  {
    var more := tokens + [t];
    assert more[..|tokens|] == tokens;
    forall i | 0 <= i < |more| ensures Placed(more[i], s) && Spells(more[i], s) && Blank(s, EndOf(more[..i]), more[i].startOffset) {
      if i < |tokens| {
        assert more[i] == tokens[i] && more[..i] == tokens[..i];
      }
    }
  }

  function LexemesOf(tokens: seq<Token>): (ls: seq<Lexeme>)
    ensures |ls| == |tokens|
  {
    seq(|tokens|, i requires 0 <= i < |tokens| => Lexeme(tokens[i].tokenType, tokens[i].text))
  }

  // ----- The lexer -----

  class SqlLexer {
    var input: string
    var pos: nat
    var line: nat
    var col: nat

    constructor ()
      ensures Valid()
    {
      input, pos, line, col := "", 0, 1, 1;
    }

    ghost predicate Valid()
      reads this
    {
      pos <= |input| && line == LineAt(input, pos) && col == ColumnAt(input, pos)
    }

    predicate Eof()
      reads this
    {
      pos >= |input|
    }

    /** The current character; the NUL character at the end. */
    function Peek(): char
      reads this
    {
      if Eof() then '\0' else input[pos]
    }

    function PeekNext(): char
      reads this
    {
      if pos + 1 < |input| then input[pos + 1] else '\0'
    }

    method Advance()
      requires Valid()
      modifies `pos, `line, `col
      ensures Valid() && pos == if old(pos) < |input| then old(pos) + 1 else old(pos)
    {
      if Eof() {
        return;
      }
      var c := input[pos];
      pos := pos + 1;
      if c == '\n' {
        line := line + 1;
        col := 1;
      } else {
        col := col + 1;
      }
    }

    method ReadIdentOrKeyword() returns (token: Token)
      requires Valid() && !Eof() && IsIdentStart(input[pos])
      modifies `pos, `line, `col
      ensures Valid() && Placed(token, input) && token.startOffset == old(pos) && token.endOffset == pos
      ensures NextToken(input[old(pos)..]) == Some((Lexeme(token.tokenType, token.text), pos - old(pos)))
    {
      hide LineAt, ColumnAt, WordType, StartsNumber, IdentLength, NextToken;
      var startPos, startLine, startCol := pos, line, col;
      ghost var s := input[pos..];
      var text := "";
      IdentIsToken(s);
      ghost var k: nat := 0;
      while !Eof() && IsIdentPart(Peek())
        invariant Valid() && pos == startPos + k && text == s[..k]
        invariant IdentLength(s) == k + IdentLength(s[k..])
        decreases |input| - pos
      {
        assert s[k] == input[pos];
        IdentStep(s, k);
        text := text + [Peek()];
        Advance();
        k := k + 1;
      }
      IdentStep(s, k);
      token := Token(WordType(text), text, startPos, pos, startLine, startCol);
    }

    method ReadNumber() returns (token: Token)
      requires Valid() && !Eof() && StartsNumber(input[pos..])
      modifies `pos, `line, `col
      ensures Valid() && Placed(token, input) && token.startOffset == old(pos) && token.endOffset == pos
      ensures NextToken(input[old(pos)..]) == Some((Lexeme(token.tokenType, token.text), pos - old(pos)))
    {
      hide LineAt, ColumnAt, WordType, DigitLength, StartsNumber, NextToken, NumberLength;
      var startPos, startLine, startCol := pos, line, col;
      ghost var s := input[pos..];
      NumberStep(s);
      var text := "";
      if Peek() == '-' {
        text := "-";
        Advance();
      }
      ghost var k: nat := pos - startPos;
      while !Eof() && IsDigit(Peek())
        invariant Valid() && pos == startPos + k && text == s[..k]
        invariant NumberLength(s) == k + DigitLength(s[k..])
        decreases |input| - pos
      {
        assert s[k] == input[pos];
        DigitStep(s, k);
        text := text + [Peek()];
        Advance();
        k := k + 1;
      }
      DigitStep(s, k);
      token := Token(NUMBER, text, startPos, pos, startLine, startCol);
    }

    /** A string literal; nothing if it is not terminated. */
    method ReadString() returns (token: Option<Token>)
      requires Valid() && !Eof() && input[pos] == '\''
      modifies `pos, `line, `col
      ensures Valid() && old(pos) < pos
      ensures token.None? ==> NextToken(input[old(pos)..]) == None
      ensures token.Some? ==>
        && Placed(token.value, input) && token.value.startOffset == old(pos) && token.value.endOffset == pos
        && NextToken(input[old(pos)..]) == Some((Lexeme(token.value.tokenType, token.value.text), pos - old(pos)))
    {
      hide LineAt, ColumnAt, WordType, StringBody, NextToken, Shift;
      var startPos, startLine, startCol := pos, line, col;
      Advance();
      ghost var body := input[pos..];
      StringIsToken(input[startPos..], body);
      var text := "";
      assert body[0..] == body;
      ShiftNothing(StringBody(body));
      while !Eof()
        invariant Valid() && startPos < pos
        invariant StringBody(body) == Shift(text, pos - startPos - 1, StringBody(body[pos - startPos - 1..]))
        decreases |input| - pos
      {
        ghost var k := pos - startPos - 1;
        StringStep(body, k, text);
        var c := Peek();
        if c == '\'' {
          if PeekNext() == '\'' {
            text := text + "'";
            Advance();
            Advance();
            continue;
          }
          break;
        }
        text := text + [c];
        Advance();
      }
      if Eof() {
        StringEnds(body, pos - startPos - 1, text);
        return None;
      }
      Advance();
      token := Some(Token(STRING, text, startPos, pos, startLine, startCol));
    }

    /** The handlers of punctuation and operators. */
    method ReadSymbol() returns (token: Option<Token>)
      requires Valid() && !Eof()
      modifies `pos, `line, `col
      ensures Valid() && Placed(Token(EOF, "", old(pos), old(pos), old(line), old(col)), input)
      ensures token.None? ==> Symbol(input[old(pos)..]) == None
      ensures token.Some? ==>
        && Placed(token.value, input) && token.value.startOffset == old(pos) && token.value.endOffset == pos
        && Symbol(input[old(pos)..]) == Some(Lexeme(token.value.tokenType, token.value.text)) && pos == old(pos) + |token.value.text|
    {
      hide LineAt, ColumnAt;
      var startPos, startLine, startCol := pos, line, col;
      var c := Peek();
      var tokenType, text;
      match c {
      case '(' => tokenType, text := LPAREN, "("; Advance();
      case ')' => tokenType, text := RPAREN, ")"; Advance();
      case ',' => tokenType, text := COMMA, ","; Advance();
      case ';' => tokenType, text := SEMICOLON, ";"; Advance();
      case '*' => tokenType, text := ASTERISK, "*"; Advance();
      case '=' => tokenType, text := EQ, "="; Advance();
      case '<' =>
        Advance();
        if Peek() == '=' {
          tokenType, text := LE, "<=";
          Advance();
        } else if Peek() == '>' {
          tokenType, text := NE, "<>";
          Advance();
        } else {
          tokenType, text := LT, "<";
        }
      case '>' =>
        Advance();
        if Peek() == '=' {
          tokenType, text := GE, ">=";
          Advance();
        } else {
          tokenType, text := GT, ">";
        }
      case '!' =>
        Advance();
        if Peek() == '=' {
          tokenType, text := NE, "!=";
          Advance();
        } else {
          return None;
        }
      case _ => return None;
      }
      token := Some(Token(tokenType, text, startPos, pos, startLine, startCol));
    }

    /** The tokens of `sql` with their places, or nothing on a lexical error. */
    method Tokenize(sql: string) returns (tokens: Option<seq<Token>>)
      modifies this
      ensures tokens.Some? <==> Lex(sql).Some?
      ensures tokens.Some? ==> LexemesOf(tokens.value) == Lex(sql).value
      ensures tokens.Some? ==> |tokens.value| >= 1 && var n := |tokens.value| - 1;
        && Spans(tokens.value[..n], sql, |sql|) && Placed(tokens.value[n], sql)
        && tokens.value[n].tokenType == EOF && tokens.value[n].startOffset == |sql|
    {
      hide LineAt, ColumnAt, WordType, NextToken, Symbol, Placed, Lex, Follow, LexemesOf, EndOf, Spans;
      input, pos, line, col := sql, 0, 1, 1;
      StartOfText(sql);
      var out := [];
      assert sql[0..] == sql;
      FollowNothing(Lex(sql));
      NothingSpans(sql);
      while !Eof()
        invariant Valid() && input == sql
        invariant Lex(sql) == Follow(LexemesOf(out), Lex(sql[pos..]))
        invariant Spans(out, sql, pos)
        decreases |sql| - pos
      {
        var c := Peek();
        ghost var start := pos;
        TokenMissing(sql, start, out);
        if IsWhitespace(c) {
          ConsumeWhitespace();
          BlankMore(out, sql, start, pos);
          continue;
        }
        var token;
        if IsIdentStart(c) {
          token := ReadIdentOrKeyword();
        } else if IsDigit(c) || (c == '-' && IsDigit(PeekNext())) {
          token := ReadNumber();
        } else if c == '\'' {
          var string_ := ReadString();
          if string_.None? {
            return None;
          }
          token := string_.value;
        } else {
          SymbolIsToken(sql[start..]);
          var symbol := ReadSymbol();
          if symbol.None? {
            return None;
          }
          token := symbol.value;
        }
        TokenFound(sql, start, pos, out, token);
        SpansMore(out, token, sql);
        out := out + [token];
      }
      PlacedHere(sql, pos, line, col);
      TextEnds(sql, pos, out, Token(EOF, "", pos, pos, line, col));
      assert (out + [Token(EOF, "", pos, pos, line, col)])[..|out|] == out;
      out := out + [Token(EOF, "", pos, pos, line, col)];
      return Some(out);
    }

    method ConsumeWhitespace()
      requires Valid() && !Eof() && IsWhitespace(input[pos])
      modifies `pos, `line, `col
      ensures Valid() && pos > old(pos) && Lex(input[pos..]) == Lex(input[old(pos)..]) && Blank(input, old(pos), pos)
    {
      hide LineAt, ColumnAt, NextToken;
      while !Eof() && IsWhitespace(Peek())
        invariant Blank(input, old(pos), pos)
        invariant Valid() && old(pos) <= pos && Lex(input[pos..]) == Lex(input[old(pos)..])
        invariant pos == old(pos) ==> !Eof() && IsWhitespace(input[pos])
        decreases |input| - pos
      {
        assert input[pos..][1..] == input[pos + 1..];
        Advance();
      }
    }
  }

  lemma NothingSpans(s: string)
    ensures Spans([], s, 0)
  {
  }

  lemma BlankMore(tokens: seq<Token>, s: string, a: nat, b: nat)
    requires Spans(tokens, s, a) && Blank(s, a, b)
    ensures Spans(tokens, s, b)
  {
  }

  lemma StartOfText(s: string)
    ensures LineAt(s, 0) == 1 && ColumnAt(s, 0) == 1
  {
  }

  lemma PlacedHere(s: string, pos: nat, line: nat, col: nat)
    requires pos <= |s| && line == LineAt(s, pos) && col == ColumnAt(s, pos)
    ensures Placed(Token(EOF, "", pos, pos, line, col), s)
  {
  }

  lemma SymbolIsToken(s: string)
    requires s != [] && !IsIdentStart(s[0]) && !StartsNumber(s) && s[0] != '\''
    ensures NextToken(s) == if Symbol(s).None? then None else Some((Symbol(s).value, |Symbol(s).value.text|))
  {
  }

  lemma TokenFound(sql: string, start: nat, end: nat, out: seq<Token>, token: Token)
    requires start < end <= |sql| && !IsWhitespace(sql[start])
    requires NextToken(sql[start..]) == Some((Lexeme(token.tokenType, token.text), end - start))
    ensures Follow(LexemesOf(out), Lex(sql[start..])) == Follow(LexemesOf(out + [token]), Lex(sql[end..]))
  {
    LexOne(sql[start..], Lexeme(token.tokenType, token.text), end - start);
    assert sql[start..][end - start..] == sql[end..];
    FollowOne(LexemesOf(out), Lexeme(token.tokenType, token.text), Lex(sql[end..]));
    assert LexemesOf(out + [token]) == LexemesOf(out) + [Lexeme(token.tokenType, token.text)];
  }

  lemma TokenMissing(sql: string, start: nat, out: seq<Token>)
    requires start < |sql|
    ensures !IsWhitespace(sql[start]) && NextToken(sql[start..]) == None ==> Follow(LexemesOf(out), Lex(sql[start..])) == None
  {
  }

  lemma TextEnds(sql: string, pos: nat, out: seq<Token>, token: Token)
    requires pos == |sql| && token.tokenType == EOF && token.text == ""
    ensures Follow(LexemesOf(out), Lex(sql[pos..])) == Some(LexemesOf(out + [token]))
  {
    assert LexemesOf(out + [token]) == LexemesOf(out) + [Lexeme(EOF, "")];
  }

  lemma LexOne(s: string, l: Lexeme, n: nat)
    requires s != [] && !IsWhitespace(s[0]) && NextToken(s) == Some((l, n))
    ensures Lex(s) == Follow([l], Lex(s[n..]))
  {
  }

  /** `front`, then the tokens of the rest. */
  function Follow(front: seq<Lexeme>, rest: Option<seq<Lexeme>>): Option<seq<Lexeme>> {
    if rest.Some? then Some(front + rest.value) else None
  }

  lemma FollowNothing(rest: Option<seq<Lexeme>>)
    ensures Follow(LexemesOf([]), rest) == rest
  {
    assert LexemesOf([]) == [];
    if rest.Some? { assert [] + rest.value == rest.value; }
  }

  lemma FollowOne(front: seq<Lexeme>, l: Lexeme, rest: Option<seq<Lexeme>>)
    ensures Follow(front, Follow([l], rest)) == Follow(front + [l], rest)
  {
    if rest.Some? { assert front + ([l] + rest.value) == (front + [l]) + rest.value; }
  }

  lemma IdentIsToken(s: string)
    requires s != [] && IsIdentStart(s[0])
    ensures NextToken(s) == Some((Lexeme(WordType(s[..IdentLength(s)]), s[..IdentLength(s)]), IdentLength(s)))
    ensures s[..0] == "" && s[0..] == s
  {
  }

  lemma IdentStep(s: string, k: nat)
    requires k <= |s|
    ensures IdentLength(s[k..]) == if k < |s| && IsIdentPart(s[k]) then 1 + IdentLength(s[k + 1..]) else 0
    ensures k < |s| ==> s[..k + 1] == s[..k] + [s[k]]
  {
    if k < |s| {
      assert s[k..][1..] == s[k + 1..];
    }
  }

  lemma NumberStep(s: string)
    requires StartsNumber(s)
    ensures s[..0] == "" && s[..1] == [s[0]] && s[0..] == s
    ensures NumberLength(s) == (if s[0] == '-' then 1 + DigitLength(s[1..]) else DigitLength(s[0..]))
    ensures !IsIdentStart(s[0]) && NextToken(s) == Some((Lexeme(NUMBER, s[..NumberLength(s)]), NumberLength(s)))
  {
  }

  lemma DigitStep(s: string, k: nat)
    requires k <= |s|
    ensures DigitLength(s[k..]) == if k < |s| && IsDigit(s[k]) then 1 + DigitLength(s[k + 1..]) else 0
    ensures k < |s| ==> s[..k + 1] == s[..k] + [s[k]]
  {
    if k < |s| {
      assert s[k..][1..] == s[k + 1..];
    }
  }

  lemma StringIsToken(s: string, body: string)
    requires s != [] && s[0] == '\'' && body == s[1..]
    ensures NextToken(s) ==
      match StringBody(body)
      case None => None
      case Some((text, n)) => Some((Lexeme(STRING, text), n + 1))
  {
  }

  /** One turn of the string loop. */
  lemma StringStep(body: string, k: nat, text: string)
    requires k < |body|
    ensures body[k] == '\'' && k + 1 < |body| && body[k + 1] == '\'' ==>
      Shift(text, k, StringBody(body[k..])) == Shift(text + "'", k + 2, StringBody(body[k + 2..]))
    ensures body[k] == '\'' && !(k + 1 < |body| && body[k + 1] == '\'') ==>
      Shift(text, k, StringBody(body[k..])) == Some((text, k + 1))
    ensures body[k] != '\'' ==>
      Shift(text, k, StringBody(body[k..])) == Shift(text + [body[k]], k + 1, StringBody(body[k + 1..]))
  {
    if body[k] == '\'' {
      if k + 1 < |body| && body[k + 1] == '\'' {
        assert body[k..][2..] == body[k + 2..];
        ShiftTwice(text, k, "'", 2, StringBody(body[k + 2..]));
      } else {
        assert text + "" == text;
      }
    } else {
      assert body[k..][1..] == body[k + 1..];
      ShiftTwice(text, k, [body[k]], 1, StringBody(body[k + 1..]));
    }
  }

  lemma StringEnds(body: string, k: nat, text: string)
    requires k == |body|
    ensures Shift(text, k, StringBody(body[k..])) == None
  {
  }

  function Shift(text: string, k: nat, rest: Option<(string, nat)>): Option<(string, nat)> {
    match rest
    case None => None
    case Some((t, n)) => Some((text + t, k + n))
  }

  lemma ShiftNothing(rest: Option<(string, nat)>)
    ensures Shift("", 0, rest) == rest
  {
    if rest.Some? { assert "" + rest.value.0 == rest.value.0; }
  }

  lemma ShiftTwice(a: string, k: nat, b: string, m: nat, rest: Option<(string, nat)>)
    ensures Shift(a, k, Shift(b, m, rest)) == Shift(a + b, k + m, rest)
  {
    if rest.Some? { assert a + (b + rest.value.0) == (a + b) + rest.value.0; }
  }
}
