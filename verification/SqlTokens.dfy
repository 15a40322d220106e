/** Which texts are which tokens, said of the spellings alone, and that the lexer finds exactly these. */
module SqlTokens {
  import opened Values
  import opened Lexer

  // ----- Characters, by their ASCII codes -----

  predicate IsLetter(c: char) { 65 <= c as int <= 90 || 97 <= c as int <= 122 || c as int == 95 }
  predicate IsFigure(c: char) { 48 <= c as int <= 57 }
  predicate IsBlank(c: char) { c as int == 32 || c as int == 9 || c as int == 10 || c as int == 13 }

  lemma CharClasses(c: char)
    ensures IsIdentStart(c) <==> IsLetter(c)
    ensures IsDigit(c) <==> IsFigure(c)
    ensures IsIdentPart(c) <==> IsLetter(c) || IsFigure(c)
    ensures IsWhitespace(c) <==> IsBlank(c)
  {
  }

  // ----- Keywords -----

  /** How a keyword is spelled in capitals. */
  function Spelling(t: TokenType): Option<string> {
    match t
    case CREATE => Some("CREATE")
    case TABLE => Some("TABLE")
    case INDEX => Some("INDEX")
    case ON => Some("ON")
    case USING => Some("USING")
    case HASH => Some("HASH")
    case BTREE => Some("BTREE")
    case INSERT => Some("INSERT")
    case INTO => Some("INTO")
    case VALUES => Some("VALUES")
    case SELECT => Some("SELECT")
    case FROM => Some("FROM")
    case WHERE => Some("WHERE")
    case AND => Some("AND")
    case OR => Some("OR")
    case EXPLAIN => Some("EXPLAIN")
    case INT64 => Some("INT64")
    case VARCHAR => Some("VARCHAR")
    case _ => None
  }

  /** `text` is `word`, letter by letter in either case. */
  ghost predicate AnyCaseOf(text: string, word: string) {
    && |text| == |word|
    && forall i :: 0 <= i < |word| ==>
         text[i] == word[i] || (65 <= word[i] as int <= 90 && text[i] as int == word[i] as int + 32)
  }

  /** Capitals and digits only. */
  predicate IsCapital(word: string) {
    forall i :: 0 <= i < |word| ==> 65 <= word[i] as int <= 90 || IsFigure(word[i])
  }

  lemma UpperIs(text: string, word: string)
    requires IsCapital(word)
    ensures Upper(text) == word <==> AnyCaseOf(text, word)
  {
    if AnyCaseOf(text, word) {
      forall i | 0 <= i < |word| ensures Upper(text)[i] == word[i] {}
      assert Upper(text) == word;
    }
    if Upper(text) == word {
      forall i | 0 <= i < |word| ensures text[i] == word[i] || (65 <= word[i] as int <= 90 && text[i] as int == word[i] as int + 32) {
        assert Upper(text)[i] == word[i];
      }
    }
  }

  lemma SpellingsAreCapital(t: TokenType)
    ensures Spelling(t).Some? ==> IsCapital(Spelling(t).value) && Spelling(t).value != "" && IsLetter(Spelling(t).value[0])
  {
  }

  lemma UpperHasType(text: string, t: TokenType)
    ensures Spelling(t).Some? && Upper(text) == Spelling(t).value ==> WordType(text) == t
  {
    hide Upper;
  }

  lemma TypeHasUpper(text: string)
    ensures WordType(text) == IDENT || Spelling(WordType(text)) == Some(Upper(text))
  {
    hide Upper;
  }

  /** A word that is a keyword in any case, and no other, has the keyword's token type. */
  lemma KeywordIff(text: string, t: TokenType)
    ensures Spelling(t).Some? ==> (WordType(text) == t <==> AnyCaseOf(text, Spelling(t).value))
  {
    hide WordType, Upper, IsCapital, AnyCaseOf;
    SpellingsAreCapital(t);
    UpperHasType(text, t);
    TypeHasUpper(text);
    if Spelling(t).Some? {
      UpperIs(text, Spelling(t).value);
    }
  }

  /** No keyword in any case. */
  ghost predicate IsNoKeyword(text: string) {
    forall t :: Spelling(t).Some? ==> !AnyCaseOf(text, Spelling(t).value)
  }

  lemma NameIff(text: string)
    ensures WordType(text) == IDENT <==> IsNoKeyword(text)
  {
    forall t | Spelling(t).Some? ensures WordType(text) == t <==> AnyCaseOf(text, Spelling(t).value) {
      KeywordIff(text, t);
    }
    TypeHasUpper(text);
  }

  // ----- Spellings of tokens -----

  predicate IsWord(text: string) {
    text != "" && IsLetter(text[0]) && forall i :: 0 <= i < |text| ==> IsLetter(text[i]) || IsFigure(text[i])
  }

  predicate AllFigures(s: string) {
    s != "" && forall i :: 0 <= i < |s| ==> IsFigure(s[i])
  }

  predicate IsNumber(text: string) {
    text != "" && AllFigures(if text[0] == '-' then text[1..] else text)
  }

  /** The texts of punctuation and operators. */
  function SymbolTexts(t: TokenType): set<string> {
    match t
    case LPAREN => {"("}
    case RPAREN => {")"}
    case COMMA => {","}
    case SEMICOLON => {";"}
    case ASTERISK => {"*"}
    case EQ => {"="}
    case NE => {"<>", "!="}
    case LT => {"<"}
    case LE => {"<="}
    case GT => {">"}
    case GE => {">="}
    case _ => {}
  }

  ghost predicate Spelled(l: Lexeme) {
    match l.tokenType
    case EOF => false
    case IDENT => IsWord(l.text) && IsNoKeyword(l.text)
    case NUMBER => IsNumber(l.text)
    case STRING => true
    case t => if Spelling(t).Some? then AnyCaseOf(l.text, Spelling(t).value) else l.text in SymbolTexts(t)
  }

  /** A string literal's content with its quotes doubled. */
  function Escape(s: string): string {
    if s == "" then "" else (if s[0] == '\'' then "''" else [s[0]]) + Escape(s[1..])
  }

  function Text(l: Lexeme): string {
    if l.tokenType == STRING then "'" + Escape(l.text) + "'" else l.text
  }

  /** The token ends before `rest`: it could not be read on. */
  predicate Ends(l: Lexeme, rest: string) {
    rest != "" ==>
      match l.tokenType
      case NUMBER => !IsFigure(rest[0])
      case STRING => rest[0] != '\''
      case LT => rest[0] != '=' && rest[0] != '>'
      case GT => rest[0] != '='
      case t => t == IDENT || Spelling(t).Some? ==> !IsLetter(rest[0]) && !IsFigure(rest[0])
  }

  // ----- A spelled token is found -----

  lemma {:induction false} WordEnds(word: string, rest: string)
    requires forall i :: 0 <= i < |word| ==> IsLetter(word[i]) || IsFigure(word[i])
    requires rest == "" || !(IsLetter(rest[0]) || IsFigure(rest[0]))
    ensures IdentLength(word + rest) == |word|
  {
    if word != "" {
      CharClasses(word[0]);
      WordEnds(word[1..], rest);
      assert (word + rest)[1..] == word[1..] + rest;
    } else {
      assert word + rest == rest;
      if rest != "" {
        CharClasses(rest[0]);
      }
    }
  }

  lemma {:induction false} NumberEnds(digits: string, rest: string)
    requires forall i :: 0 <= i < |digits| ==> IsFigure(digits[i])
    requires rest == "" || !IsFigure(rest[0])
    ensures DigitLength(digits + rest) == |digits|
  {
    if digits != "" {
      CharClasses(digits[0]);
      NumberEnds(digits[1..], rest);
      assert (digits + rest)[1..] == digits[1..] + rest;
    } else {
      assert digits + rest == rest;
      if rest != "" {
        CharClasses(rest[0]);
      }
    }
  }

  lemma {:induction false} EscapedReadsBack(s: string, rest: string)
    ensures rest == "" || rest[0] != '\'' ==> StringBody(Escape(s) + "'" + rest) == Some((s, |Escape(s)| + 1))
  {
    if rest == "" || rest[0] != '\'' {
      var whole := Escape(s) + "'" + rest;
      if s != "" {
        EscapedReadsBack(s[1..], rest);
        assert whole[|whole| - |Escape(s[1..]) + "'" + rest|..] == Escape(s[1..]) + "'" + rest;
        assert s == [s[0]] + s[1..];
      }
    }
  }

  lemma WordFound(l: Lexeme, rest: string)
    requires Spelled(l) && Ends(l, rest) && (l.tokenType == IDENT || Spelling(l.tokenType).Some?)
    ensures IsWord(l.text) && NextToken(l.text + rest) == Some((l, |l.text|))
  {
    hide WordType, AnyCaseOf;
    KeywordIff(l.text, l.tokenType);
    NameIff(l.text);
    KeywordIsWord(l);
    CharClasses(l.text[0]);
    WordEnds(l.text, rest);
    assert (l.text + rest)[..|l.text|] == l.text;
  }

  lemma KeywordIsWord(l: Lexeme)
    requires Spelled(l) && (l.tokenType == IDENT || Spelling(l.tokenType).Some?)
    ensures IsWord(l.text)
  {
    SpellingsAreCapital(l.tokenType);
  }

  lemma NumberFound(l: Lexeme, rest: string)
    requires Spelled(l) && Ends(l, rest) && l.tokenType == NUMBER
    ensures NextToken(l.text + rest) == Some((l, |l.text|))
  {
    var s := l.text + rest;
    assert s[..|l.text|] == l.text;
    CharClasses(l.text[0]);
    if l.text[0] == '-' {
      CharClasses(l.text[1]);
      NumberEnds(l.text[1..], rest);
      assert s[1..] == l.text[1..] + rest;
    } else {
      NumberEnds(l.text, rest);
    }
  }

  lemma SymbolFound(l: Lexeme, rest: string)
    requires Spelled(l) && Ends(l, rest) && SymbolTexts(l.tokenType) != {}
    ensures l.text != "" && NextToken(l.text + rest) == Some((l, |l.text|))
  {
  }

  /** A spelled token that ends before the rest is what the lexer finds. */
  lemma TokenFoundAt(l: Lexeme, rest: string)
    requires Spelled(l) && Ends(l, rest)
    ensures Text(l) != "" && !IsWhitespace((Text(l) + rest)[0]) && NextToken(Text(l) + rest) == Some((l, |Text(l)|))
  {
    if l.tokenType == STRING {
      EscapedReadsBack(l.text, rest);
      assert (Text(l) + rest)[1..] == Escape(l.text) + "'" + rest;
    } else if l.tokenType == NUMBER {
      NumberFound(l, rest);
    } else if SymbolTexts(l.tokenType) != {} {
      SymbolFound(l, rest);
    } else {
      WordFound(l, rest);
      CharClasses(l.text[0]);
    }
  }

  // ----- A found token is spelled -----

  lemma IdentIs(s: string)
    requires s != "" && IsIdentStart(s[0])
    ensures IdentLength(s) >= 1 && IsWord(s[..IdentLength(s)])
    ensures s[IdentLength(s)..] != "" ==> !IsLetter(s[IdentLength(s)]) && !IsFigure(s[IdentLength(s)])
  {
    var n := IdentLength(s);
    forall i | 0 <= i < n ensures IsLetter(s[i]) || IsFigure(s[i]) {
      CharClasses(s[i]);
    }
    CharClasses(s[0]);
    if n < |s| {
      CharClasses(s[n]);
    }
  }

  lemma NumberIs(s: string)
    requires StartsNumber(s)
    ensures 0 < NumberLength(s) <= |s| && IsNumber(s[..NumberLength(s)])
    ensures s[NumberLength(s)..] != "" ==> !IsFigure(s[NumberLength(s)])
  {
    var n := NumberLength(s);
    var from := if s[0] == '-' then 1 else 0;
    var digits := s[from..];
    assert s[0..] == s;
    forall i | 0 <= i < DigitLength(digits) ensures IsFigure(digits[i]) {
      CharClasses(digits[i]);
    }
    CharClasses(digits[0]);
    assert DigitLength(digits) >= 1 && n == from + DigitLength(digits);
    var text := s[..n];
    assert text[from..] == digits[..DigitLength(digits)];
    if n < |s| {
      assert s[n] == digits[DigitLength(digits)];
      CharClasses(s[n]);
    }
  }

  lemma EscapeOne(c: char, text: string)
    ensures Escape([c] + text) == (if c == '\'' then "''" else [c]) + Escape(text)
  {
    assert ([c] + text)[1..] == text;
  }

  lemma {:induction false} BodyIs(s: string)
    requires StringBody(s).Some?
    ensures var (text, n) := StringBody(s).value;
      s[..n] == Escape(text) + "'" && (s[n..] != "" ==> s[n] != '\'')
  {
    hide Escape;
    if s[0] == '\'' {
      if |s| >= 2 && s[1] == '\'' {
        BodyIs(s[2..]);
        var (text, n) := StringBody(s[2..]).value;
        EscapeOne('\'', text);
        assert s[..n + 2] == "''" + s[2..][..n];
      } else {
        EscapeNothing();
      }
    } else {
      BodyIs(s[1..]);
      var (text, n) := StringBody(s[1..]).value;
      EscapeOne(s[0], text);
      assert s[..n + 1] == [s[0]] + s[1..][..n];
    }
  }

  lemma EscapeNothing()
    ensures Escape("") == ""
  {
  }

  lemma SymbolIs(s: string)
    requires s != "" && Symbol(s).Some?
    ensures var l := Symbol(s).value;
      l.tokenType != STRING && Spelled(l) && |l.text| <= |s| && s[..|l.text|] == l.text && Ends(l, s[|l.text|..])
  {
  }

  lemma NewKeyword(text: string)
    requires IsWord(text)
    ensures Spelled(Lexeme(WordType(text), text))
  {
    hide WordType, AnyCaseOf;
    TypeHasUpper(text);
    NameIff(text);
    KeywordIff(text, WordType(text));
  }

  /** The token stands at the front of the text and ends there. */
  ghost predicate StandsAt(s: string, l: Lexeme, n: nat) {
    Spelled(l) && n == |Text(l)| <= |s| && s[..n] == Text(l) && Ends(l, s[n..])
  }

  lemma WordStands(s: string)
    requires s != "" && IsIdentStart(s[0])
    ensures NextToken(s).Some? && StandsAt(s, NextToken(s).value.0, NextToken(s).value.1)
  {
    hide WordType, AnyCaseOf, IsNoKeyword, Spelled;
    IdentIs(s);
    NewKeyword(s[..IdentLength(s)]);
    TypeHasUpper(s[..IdentLength(s)]);
  }

  lemma NumberStands(s: string)
    requires StartsNumber(s) && !IsIdentStart(s[0])
    ensures NextToken(s).Some? && StandsAt(s, NextToken(s).value.0, NextToken(s).value.1)
  {
    hide StartsNumber, NumberLength;
    NumberIs(s);
    NumberIsSpelled(s[..NumberLength(s)]);
  }

  lemma StringStands(s: string)
    requires s != "" && s[0] == '\'' && NextToken(s).Some?
    ensures StandsAt(s, NextToken(s).value.0, NextToken(s).value.1)
  {
    hide StringBody;
    BodyIs(s[1..]);
    var (text, n) := StringBody(s[1..]).value;
    assert s[..n + 1] == "'" + s[1..][..n];
    assert s[n + 1..] == s[1..][n..];
    StringIsSpelled(text);
  }

  lemma SymbolStands(s: string)
    requires s != "" && !IsIdentStart(s[0]) && !StartsNumber(s) && s[0] != '\'' && NextToken(s).Some?
    ensures StandsAt(s, NextToken(s).value.0, NextToken(s).value.1)
  {
    hide Symbol, Spelled, Ends, StartsNumber;
    SymbolIs(s);
  }

  /** What the lexer finds is a spelled token, which ends before the rest. */
  lemma TokenFoundIs(s: string)
    requires s != "" && NextToken(s).Some?
    ensures StandsAt(s, NextToken(s).value.0, NextToken(s).value.1)
  {
    hide NextToken, StandsAt, StartsNumber;
    if IsIdentStart(s[0]) {
      WordStands(s);
    } else if StartsNumber(s) {
      NumberStands(s);
    } else if s[0] == '\'' {
      StringStands(s);
    } else {
      SymbolStands(s);
    }
  }

  lemma NumberIsSpelled(text: string)
    requires IsNumber(text)
    ensures Spelled(Lexeme(NUMBER, text))
  {
  }

  lemma StringIsSpelled(text: string)
    ensures Spelled(Lexeme(STRING, text))
  {
  }

  /** The lexer finds a token exactly where one is spelled and ends. */
  lemma NextTokenIff(s: string, l: Lexeme)
    requires s != ""
    ensures NextToken(s) == Some((l, |Text(l)|)) <==> StandsAt(s, l, |Text(l)|)
  {
    hide Spelled, Ends, NextToken, Text;
    if NextToken(s).Some? {
      TokenFoundIs(s);
    }
    if StandsAt(s, l, |Text(l)|) {
      TokenFoundAt(l, s[|Text(l)|..]);
      assert s == Text(l) + s[|Text(l)|..];
    }
  }

  // ----- Whole texts -----

  /** The text consists of the tokens in order, with any white space around them. */
  ghost predicate LaysOut(text: string, ls: seq<Lexeme>)
    decreases |text|
  {
    if text == "" then ls == []
    else if IsBlank(text[0]) then LaysOut(text[1..], ls)
    else
      && ls != [] && Spelled(ls[0])
      && var n := |Text(ls[0])|;
      0 < n <= |text| && text[..n] == Text(ls[0]) && Ends(ls[0], text[n..]) && LaysOut(text[n..], ls[1..])
  }

  /** The lexer's answer: these tokens and the end, exactly when the text is laid out from them. */
  lemma {:induction false} LexIff(text: string, ls: seq<Lexeme>)
    ensures Lex(text) == Some(ls + [Lexeme(EOF, "")]) <==> LaysOut(text, ls)
    decreases |text|
  {
    hide Spelled, Ends, NextToken, Text;
    var eof := [Lexeme(EOF, "")];
    if text == "" {
      assert ls == [] ==> ls + eof == eof;
      assert ls != [] ==> |ls + eof| != |eof|;
    } else {
      CharClasses(text[0]);
      if IsBlank(text[0]) {
        LexIff(text[1..], ls);
      } else {
        FirstTokenIff(text, ls);
      }
    }
  }

  lemma {:induction false} FirstTokenIff(text: string, ls: seq<Lexeme>)
    requires text != "" && !IsWhitespace(text[0]) && !IsBlank(text[0])
    ensures Lex(text) == Some(ls + [Lexeme(EOF, "")]) <==> LaysOut(text, ls)
    decreases |text|, 0
  {
    hide Spelled, Ends, NextToken, Text;
    if NextToken(text).Some? {
      TokenFoundIs(text);
      var (l, n) := NextToken(text).value;
      LexOne(text, l, n);
      if ls == [] {
        NoTokensLeft(text[n..]);
        assert |ls + [Lexeme(EOF, "")]| == 1;
        assert Lex(text).Some? ==> |Lex(text).value| >= 2;
      } else if ls[0] == l {
        LexIff(text[n..], ls[1..]);
        FrontIs(l, ls, Lex(text[n..]));
      } else {
        NextTokenIff(text, ls[0]);
        AnotherFront(l, ls, Lex(text[n..]));
      }
    } else if ls != [] {
      NextTokenIff(text, ls[0]);
    }
  }

  lemma FrontIs(l: Lexeme, ls: seq<Lexeme>, rest: Option<seq<Lexeme>>)
    requires ls != [] && ls[0] == l
    ensures Follow([l], rest) == Some(ls + [Lexeme(EOF, "")]) <==> rest == Some(ls[1..] + [Lexeme(EOF, "")])
  {
    var eof := [Lexeme(EOF, "")];
    assert ls + eof == [l] + (ls[1..] + eof);
    if rest.Some? && [l] + rest.value == [l] + (ls[1..] + eof) {
      assert ([l] + rest.value)[1..] == rest.value;
      assert ([l] + (ls[1..] + eof))[1..] == ls[1..] + eof;
    }
  }

  lemma AnotherFront(l: Lexeme, ls: seq<Lexeme>, rest: Option<seq<Lexeme>>)
    requires ls != [] && ls[0] != l
    ensures Follow([l], rest) != Some(ls + [Lexeme(EOF, "")])
  {
    if rest.Some? {
      assert ([l] + rest.value)[0] == l && (ls + [Lexeme(EOF, "")])[0] == ls[0];
    }
  }

  lemma {:induction false} NoTokensLeft(text: string)
    ensures Lex(text).Some? ==> |Lex(text).value| >= 1
  {
    if text != "" && IsWhitespace(text[0]) {
      NoTokensLeft(text[1..]);
    }
  }
}
