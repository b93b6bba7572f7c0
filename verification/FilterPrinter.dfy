/**
 A printer for filter expressions, and the round trip: the text of any well-formed tree is
 tokenized and parsed back to that very tree, so the filter gives it its own truth value.
 */
module FilterPrinter {
  import opened Wrappers
  import opened Pieces
  import opened Ascii
  import opened Blanks
  import opened FilterLexer
  import opened FilterGrammar
  import opened FilterParser
  import Decimal

  // ---------------------------------------------------------------------------------------------
  // Trees to tokens
  // ---------------------------------------------------------------------------------------------

  function TestToken(test: TextTest): Token {
    match test
    case Contains => Ident("contains")
    case Same => Operator(Eq)
    case Different => Operator(Ne)
  }

  /** Operands that bind less tightly than their place allows are put in parentheses. */
  function OrTokens(e: Expr): seq<Token>
    decreases e, 2
  {
    if e.Or? then OrTokens(e.left) + [Ident("or")] + AndTokens(e.right) else AndTokens(e)
  }

  function AndTokens(e: Expr): seq<Token>
    decreases e, 1
  {
    if e.And? then AndTokens(e.left) + [Ident("and")] + UnaryTokens(e.right) else UnaryTokens(e)
  }

  function UnaryTokens(e: Expr): seq<Token>
    decreases e, 0
  {
    match e
    case Or(l, r) => [LParen] + (OrTokens(l) + [Ident("or")] + AndTokens(r)) + [RParen]
    case And(l, r) => [LParen] + (AndTokens(l) + [Ident("and")] + UnaryTokens(r)) + [RParen]
    case Not(f) => [Ident("not")] + UnaryTokens(f)
    case NumberTest(field, op, digits) => [Ident(field), Operator(op), Number(digits)]
    case StringTest(field, test, value) => [Ident(field), TestToken(test), Text(value)]
  }

  lemma KeywordsAreKeywords()
    ensures IsKeyword(Ident("or"), "or") && IsKeyword(Ident("and"), "and") && IsKeyword(Ident("not"), "not")
    ensures IsKeyword(Ident("contains"), "contains")
  {
    LowerFixes("or");
    LowerFixes("and");
    LowerFixes("not");
    LowerFixes("contains");
  }

  lemma {:induction false} OrTokensDenote(e: Expr)
    requires WellFormed(e)
    ensures IsOr(e, OrTokens(e))
    decreases e, 2
  {
    if e.Or? {
      KeywordsAreKeywords();
      OrTokensDenote(e.left);
      AndTokensDenote(e.right);
      SliceOfConcat(OrTokens(e.left), Ident("or"), AndTokens(e.right));
    } else {
      AndTokensDenote(e);
    }
  }

  lemma {:induction false} AndTokensDenote(e: Expr)
    requires WellFormed(e)
    ensures IsAnd(e, AndTokens(e))
    decreases e, 1
  {
    if e.And? {
      KeywordsAreKeywords();
      AndTokensDenote(e.left);
      UnaryTokensDenote(e.right);
      SliceOfConcat(AndTokens(e.left), Ident("and"), UnaryTokens(e.right));
    } else {
      UnaryTokensDenote(e);
    }
  }

  lemma {:induction false} UnaryTokensDenote(e: Expr)
    requires WellFormed(e)
    ensures IsUnary(e, UnaryTokens(e))
    decreases e, 0
  {
    KeywordsAreKeywords();
    match e
    case Or(l, r) =>
      var inner := OrTokens(l) + [Ident("or")] + AndTokens(r);
      OrTokensDenote(l);
      AndTokensDenote(r);
      SliceOfConcat(OrTokens(l), Ident("or"), AndTokens(r));
      assert IsOr(e, inner);
      Parenthesised(e, inner);
    case And(l, r) =>
      var inner := AndTokens(l) + [Ident("and")] + UnaryTokens(r);
      AndTokensDenote(l);
      UnaryTokensDenote(r);
      SliceOfConcat(AndTokens(l), Ident("and"), UnaryTokens(r));
      assert IsAnd(e, inner);
      Parenthesised(e, inner);
    case Not(f) =>
      UnaryTokensDenote(f);
      assert UnaryTokens(e)[1..] == UnaryTokens(f);
    case NumberTest(_, _, _) =>
      assert IsComparison(e, UnaryTokens(e));
    case StringTest(_, _, _) =>
      assert IsComparison(e, UnaryTokens(e));
  }

  lemma Parenthesised(e: Expr, inner: seq<Token>)
    requires IsOr(e, inner)
    ensures IsUnary(e, [LParen] + inner + [RParen])
  {
    var t := [LParen] + inner + [RParen];
    assert t[1..|t| - 1] == inner;
    assert IsPrimary(e, t);
  }

  // ---------------------------------------------------------------------------------------------
  // Tokens to text
  // ---------------------------------------------------------------------------------------------

  function EscapeChar(c: char): string {
    if c == '"' || c == '\\' then ['\\', c] else [c]
  }

  function Escape(s: string): string {
    if s == "" then "" else EscapeChar(s[0]) + Escape(s[1..])
  }

  function OperatorText(op: Comparison): string {
    match op
    case Eq => "=="
    case Ne => "!="
    case Ge => ">="
    case Le => "<="
    case Gt => ">"
    case Lt => "<"
  }

  function TokenText(t: Token): string {
    match t
    case Ident(name) => name
    case Number(digits) => digits
    case Text(value) => "\"" + Escape(value) + "\""
    case Operator(op) => OperatorText(op)
    case LParen => "("
    case RParen => ")"
    case EndOfInput => ""
  }

  /** Tokens are written one after the other with blanks between them. */
  function Render(ts: seq<Token>): string {
    if ts == [] then ""
    else if |ts| == 1 then TokenText(ts[0])
    else TokenText(ts[0]) + (" " + Render(ts[1..]))
  }

  predicate IsIdentifier(s: string) {
    s != "" && IsIdentStart(s[0]) && forall i :: 0 <= i < |s| ==> IsIdentPart(s[i])
  }

  /** Tokens that the tokenizer can produce. */
  predicate IsWritable(t: Token) {
    match t
    case Ident(name) => IsIdentifier(name)
    case Number(digits) => Decimal.IsNumeral(digits)
    case EndOfInput => false
    case _ => true
  }

  lemma ScanEscapedChar(c: char, more: string)
    ensures ScanText(EscapeChar(c) + more) == Extend([c], ScanText(more))
  {
    var s := EscapeChar(c) + more;
    if c == '"' || c == '\\' {
      assert s[0] == '\\' && s[1] == c && s[2..] == more;
      assert Unescape(c) == c;
    } else {
      assert s[0] == c && s[1..] == more;
    }
  }

  lemma HeadTail<T>(s: seq<T>)
    requires s != []
    ensures [s[0]] + s[1..] == s
  {
  }

  lemma {:induction false} ScanEscaped(value: string, rest: string)
    ensures ScanText(Escape(value) + ("\"" + rest)) == Some((value, rest))
  {
    var tail := "\"" + rest;
    if value == "" {
      assert Escape(value) + tail == tail;
      assert tail[1..] == rest;
    } else {
      ScanEscaped(value[1..], rest);
      ScanEscapedChar(value[0], Escape(value[1..]) + tail);
      AppendAssoc(EscapeChar(value[0]), Escape(value[1..]), tail);
      HeadTail(value);
    }
  }

  lemma {:induction false} DigitRunStops(s: string, rest: string)
    requires forall i :: 0 <= i < |s| ==> Decimal.IsDigit(s[i])
    requires rest == "" || !Decimal.IsDigit(rest[0])
    ensures DigitRun(s + rest) == |s|
  {
    if s == "" {
      assert s + rest == rest;
    } else {
      assert (s + rest)[1..] == s[1..] + rest;
      DigitRunStops(s[1..], rest);
    }
  }

  lemma {:induction false} IdentRunStops(s: string, rest: string)
    requires forall i :: 0 <= i < |s| ==> IsIdentPart(s[i])
    requires rest == "" || !IsIdentPart(rest[0])
    ensures IdentRun(s + rest) == |s|
  {
    if s == "" {
      assert s + rest == rest;
    } else {
      assert (s + rest)[1..] == s[1..] + rest;
      IdentRunStops(s[1..], rest);
    }
  }

  lemma TextReadsBack(value: string, tail: string)
    ensures NextToken("\"" + Escape(value) + "\"" + tail) == Some((Text(value), tail))
  {
    QuoteParts("\"", Escape(value), tail);
    ScanEscaped(value, tail);
    QuotedToken("\"" + Escape(value) + "\"" + tail, value, tail);
  }

  lemma QuoteParts<T>(quote: seq<T>, body: seq<T>, tail: seq<T>)
    requires |quote| == 1
    ensures (quote + body + quote + tail)[0] == quote[0]
    ensures (quote + body + quote + tail)[1..] == body + (quote + tail)
  {
  }

  lemma QuotedToken(s: string, value: string, tail: string)
    requires s != "" && s[0] == '"' && ScanText(s[1..]) == Some((value, tail))
    ensures NextToken(s) == Some((Text(value), tail))
  {
  }

  lemma WordReadsBack(t: Token, tail: string)
    requires (t.Ident? || t.Number?) && IsWritable(t)
    requires tail == "" || tail[0] == ' '
    ensures NextToken(TokenText(t) + tail) == Some((t, tail))
  {
    var word := TokenText(t);
    var s := word + tail;
    assert s[0] == word[0] && s[..|word|] == word && s[|word|..] == tail;
    if t.Ident? {
      IdentRunStops(word, tail);
    } else {
      DigitRunStops(word, tail);
    }
  }

  lemma OperatorReadsBack(op: Comparison, tail: string)
    requires tail == "" || tail[0] == ' '
    ensures NextToken(OperatorText(op) + tail) == Some((Operator(op), tail))
  {
    var s := OperatorText(op) + tail;
    assert s[|OperatorText(op)|..] == tail;
    assert |OperatorText(op)| == 1 && |s| >= 2 ==> s[1] == ' ';
  }

  /** A written token at the end or before a blank is read back, and the blank is left. */
  lemma TokenReadsBack(t: Token, tail: string)
    requires IsWritable(t) && (tail == "" || tail[0] == ' ')
    ensures var s := TokenText(t) + tail;
            s != "" && !IsSpace(s[0]) && NextToken(s) == Some((t, tail))
  {
    var s := TokenText(t) + tail;
    assert s[0] == TokenText(t)[0];
    match t
    case Text(value) =>
      assert s == "\"" + Escape(value) + "\"" + tail;
      TextReadsBack(value, tail);
    case Ident(_) => WordReadsBack(t, tail);
    case Number(_) => WordReadsBack(t, tail);
    case Operator(op) => OperatorReadsBack(op, tail);
    case LParen | RParen => assert s[1..] == tail;
    case EndOfInput =>
  }

  predicate AllWritable(ts: seq<Token>) {
    forall t :: t in ts ==> IsWritable(t)
  }

  lemma LexOfOne(t: Token)
    requires IsWritable(t)
    ensures Lex(TokenText(t)) == Some([t, EndOfInput])
  {
    var s := TokenText(t);
    TokenReadsBack(t, "");
    assert s + "" == s;
    assert Lex(s) == Prepend(t, Lex(""));
    assert [t] + [EndOfInput] == [t, EndOfInput];
  }

  lemma LexOfNext(t: Token, rest: string)
    requires IsWritable(t)
    ensures Lex(TokenText(t) + (" " + rest)) == Prepend(t, Lex(rest))
  {
    TokenReadsBack(t, " " + rest);
    assert (" " + rest)[1..] == rest;
    assert Lex(" " + rest) == Lex(rest);
  }

  lemma WritableRest(ts: seq<Token>)
    requires AllWritable(ts) && ts != []
    ensures IsWritable(ts[0]) && AllWritable(ts[1..])
  {
  }

  lemma PrependFirst(ts: seq<Token>)
    requires ts != []
    ensures Prepend(ts[0], Some(ts[1..] + [EndOfInput])) == Some(ts + [EndOfInput])
  {
    assert ts + [EndOfInput] == [ts[0]] + (ts[1..] + [EndOfInput]);
  }

  /** Tokenizing undoes writing. */
  lemma {:induction false} LexOfRender(ts: seq<Token>)
    requires AllWritable(ts)
    ensures Lex(Render(ts)) == Some(ts + [EndOfInput])
  {
    if ts == [] {
      assert ts + [EndOfInput] == [EndOfInput];
    } else if |ts| == 1 {
      WritableRest(ts);
      LexOfOne(ts[0]);
      assert ts + [EndOfInput] == [ts[0], EndOfInput];
    } else {
      WritableRest(ts);
      LexOfNext(ts[0], Render(ts[1..]));
      LexOfRender(ts[1..]);
      PrependFirst(ts);
    }
  }

  // ---------------------------------------------------------------------------------------------
  // Surrounding white space
  // ---------------------------------------------------------------------------------------------

  /** A text with no white space at its ends, nor bytes that might belong to some. */
  predicate Tight(s: string) {
    s != "" && IsPlain(s[0]) && IsPlain(s[|s| - 1])
  }

  lemma TokenIsTight(t: Token)
    requires IsWritable(t)
    ensures Tight(TokenText(t))
  {
  }

  lemma TightJoins(a: string, b: string)
    requires Tight(a) && Tight(b)
    ensures Tight(a + (" " + b))
  {
  }

  lemma {:induction false} RenderIsTight(ts: seq<Token>)
    requires AllWritable(ts) && ts != []
    ensures Tight(Render(ts))
  {
    TokenIsTight(ts[0]);
    if |ts| > 1 {
      RenderIsTight(ts[1..]);
      TightJoins(TokenText(ts[0]), Render(ts[1..]));
    }
  }

  // ---------------------------------------------------------------------------------------------
  // The round trip
  // ---------------------------------------------------------------------------------------------

  function Print(e: Expr): string {
    Render(OrTokens(e))
  }

  lemma LetterWasLetter(c: char)
    requires 'a' <= LowerChar(c) <= 'z'
    ensures IsIdentStart(c) && IsIdentPart(c)
  {
  }

  predicate IsLetters(s: string) {
    s != "" && forall i :: 0 <= i < |s| ==> 'a' <= s[i] <= 'z'
  }

  lemma PayloadNamesAreLetters()
    ensures IsLetters("len") && IsLetters("bytelength") && IsLetters("bytecount") && IsLetters("text")
    ensures IsLetters("hex") && IsLetters("payloadtext") && IsLetters("payloadhex") && IsLetters("direction")
  {
  }

  lemma EventNamesAreLetters()
    ensures IsLetters("message") && IsLetters("level") && IsLetters("source") && IsLetters("graphid")
    ensures IsLetters("nodeid") && IsLetters("nodetype") && IsLetters("details")
    ensures IsLetters("action") && IsLetters("category")
  {
  }

  lemma FieldNamesAreLetters(name: string)
    requires FieldOf(name).Some?
    ensures IsLetters(Lower(name))
  {
    PayloadNamesAreLetters();
    EventNamesAreLetters();
  }

  /** Every known field name consists of letters. */
  lemma FieldIsIdentifier(name: string)
    requires FieldOf(name).Some?
    ensures IsIdentifier(name)
  {
    FieldNamesAreLetters(name);
    forall i | 0 <= i < |name|
      ensures IsIdentStart(name[i])
    {
      LowerIsPointwise(name, i);
      LetterWasLetter(name[i]);
    }
  }

  lemma WritableAround(a: seq<Token>, t: Token, b: seq<Token>)
    requires AllWritable(a) && IsWritable(t) && AllWritable(b)
    ensures AllWritable(a + [t] + b)
  {
  }

  lemma KeywordsAreWritable()
    ensures IsWritable(Ident("or")) && IsWritable(Ident("and")) && IsWritable(Ident("not"))
    ensures IsWritable(Ident("contains"))
  {
  }

  lemma {:induction false} OrTokensWritable(e: Expr)
    requires WellFormed(e)
    ensures AllWritable(OrTokens(e))
    decreases e, 2
  {
    if e.Or? {
      OrTokensWritable(e.left);
      AndTokensWritable(e.right);
      KeywordsAreWritable();
      WritableAround(OrTokens(e.left), Ident("or"), AndTokens(e.right));
    } else {
      AndTokensWritable(e);
    }
  }

  lemma {:induction false} AndTokensWritable(e: Expr)
    requires WellFormed(e)
    ensures AllWritable(AndTokens(e))
    decreases e, 1
  {
    if e.And? {
      AndTokensWritable(e.left);
      UnaryTokensWritable(e.right);
      KeywordsAreWritable();
      WritableAround(AndTokens(e.left), Ident("and"), UnaryTokens(e.right));
    } else {
      UnaryTokensWritable(e);
    }
  }

  lemma {:induction false} UnaryTokensWritable(e: Expr)
    requires WellFormed(e)
    ensures AllWritable(UnaryTokens(e))
    decreases e, 0
  {
    KeywordsAreWritable();
    match e
    case Or(l, r) =>
      OrTokensWritable(l);
      AndTokensWritable(r);
      WritableAround(OrTokens(l), Ident("or"), AndTokens(r));
      WritableInParentheses(OrTokens(l) + [Ident("or")] + AndTokens(r));
    case And(l, r) =>
      AndTokensWritable(l);
      UnaryTokensWritable(r);
      WritableAround(AndTokens(l), Ident("and"), UnaryTokens(r));
      WritableInParentheses(AndTokens(l) + [Ident("and")] + UnaryTokens(r));
    case Not(f) =>
      UnaryTokensWritable(f);
      WritableBehind(Ident("not"), UnaryTokens(f));
    case NumberTest(field, op, digits) =>
      FieldIsIdentifier(field);
      WritableTest(Ident(field), Operator(op), Number(digits));
    case StringTest(field, test, value) =>
      FieldIsIdentifier(field);
      WritableTest(Ident(field), TestToken(test), Text(value));
  }

  lemma WritableInParentheses(ts: seq<Token>)
    requires AllWritable(ts)
    ensures AllWritable([LParen] + ts + [RParen])
  {
  }

  lemma WritableBehind(t: Token, ts: seq<Token>)
    requires IsWritable(t) && AllWritable(ts)
    ensures AllWritable([t] + ts)
  {
  }

  lemma WritableTest(a: Token, b: Token, c: Token)
    requires IsWritable(a) && IsWritable(b) && IsWritable(c)
    ensures AllWritable([a, b, c])
  {
  }

  lemma SomeTokens(e: Expr)
    ensures OrTokens(e) != []
  {
    assert |UnaryTokens(e)| > 0;
    assert e.And? ==> |AndTokens(e)| == |AndTokens(e.left)| + 1 + |UnaryTokens(e.right)|;
    assert e.Or? ==> |OrTokens(e)| == |OrTokens(e.left)| + 1 + |AndTokens(e.right)|;
  }

  /** A printed tree has nothing around it that could be trimmed. */
  lemma PrintIsTrimmed(e: Expr)
    requires WellFormed(e)
    ensures Print(e) != "" && TrimSpace(Print(e)) == Print(e)
  {
    OrTokensWritable(e);
    SomeTokens(e);
    RenderIsTight(OrTokens(e));
    PlainEndsStay(Print(e));
  }

  /** Printing, tokenizing and parsing give back the tree itself. */
  lemma PrintedTreeIsDenoted(e: Expr)
    requires WellFormed(e)
    ensures Lex(Print(e)) == Some(OrTokens(e) + [EndOfInput])
    ensures Denotes(OrTokens(e) + [EndOfInput], e)
  {
    OrTokensWritable(e);
    LexOfRender(OrTokens(e));
    OrTokensDenote(e);
    var ts := OrTokens(e) + [EndOfInput];
    assert ts[..|OrTokens(e)|] == OrTokens(e) && ts[|OrTokens(e)|] == EndOfInput;
  }

  /** The whole filter in expression mode: no value when the text is not an expression. */
  method MatchExpression(text: string, candidate: Candidate, options: Options) returns (r: Option<bool>)
    ensures r.Some? <==> Lex(text).Some? && exists e :: Denotes(Lex(text).value, e)
    ensures Lex(text).Some? ==> forall e :: Denotes(Lex(text).value, e) ==>
                                              WellFormed(e) && r == Some(Eval(e, candidate, options))
    ensures forall e :: WellFormed(e) && text == Print(e) ==> r == Some(Eval(e, candidate, options))
  {
    var tokens := Tokenize(text);
    if tokens.None? {
      r := None;
    } else {
      var parser := new Parser(tokens.value, candidate, options);
      r := parser.Parse();
    }
    forall e | WellFormed(e) && text == Print(e)
      ensures r == Some(Eval(e, candidate, options))
    {
      PrintedTreeIsDenoted(e);
    }
  }

  /** The filter as it is called: the text is trimmed first, and an empty one matches everything. */
  method MatchFilter(text: string, candidate: Candidate, options: Options) returns (r: Option<bool>)
    ensures TrimSpace(text) == "" ==> r == Some(true)
    ensures TrimSpace(text) != "" ==>
              (r.Some? <==> Lex(TrimSpace(text)).Some? && exists e :: Denotes(Lex(TrimSpace(text)).value, e))
    ensures TrimSpace(text) != "" && Lex(TrimSpace(text)).Some? ==>
              forall e :: Denotes(Lex(TrimSpace(text)).value, e) ==>
                            WellFormed(e) && r == Some(Eval(e, candidate, options))
    ensures forall e :: WellFormed(e) && TrimSpace(text) == TrimSpace(Print(e)) ==>
                          r == Some(Eval(e, candidate, options))
  {
    forall e | WellFormed(e)
      ensures Print(e) != "" && TrimSpace(Print(e)) == Print(e)
    {
      PrintIsTrimmed(e);
    }
    var expression := TrimSpace(text);
    if expression == "" {
      return Some(true);
    }
    r := MatchExpression(expression, candidate, options);
  }
}
