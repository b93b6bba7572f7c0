/**
 The tokenizer of filter expressions. Text is a sequence of bytes, each byte a char below 256,
 because the tokenizer looks at its input byte by byte.
 */
module FilterLexer {
  import opened Wrappers
  import Decimal

  datatype Comparison = Eq | Ne | Ge | Le | Gt | Lt

  datatype Token =
    | Ident(name: string)
    | Number(digits: string)
    | Text(value: string)
    | Operator(op: Comparison)
    | LParen
    | RParen
    | EndOfInput

  /** White space byte by byte: what Unicode has of it among the first 256 characters. */
  predicate IsSpace(c: char) {
    '\t' <= c <= '\r' || c == ' ' || c == '\U{85}' || c == '\U{A0}'
  }

  predicate IsIdentStart(c: char) {
    'A' <= c <= 'Z' || 'a' <= c <= 'z' || c == '_'
  }

  predicate IsIdentPart(c: char) {
    IsIdentStart(c) || Decimal.IsDigit(c)
  }

  /** The length of the longest run of digits at the front. */
  function DigitRun(s: string): (n: nat)
    ensures n <= |s| && forall i :: 0 <= i < n ==> Decimal.IsDigit(s[i])
    ensures n < |s| ==> !Decimal.IsDigit(s[n])
  {
    if s == "" || !Decimal.IsDigit(s[0]) then 0 else 1 + DigitRun(s[1..])
  }

  function IdentRun(s: string): (n: nat)
    ensures n <= |s| && forall i :: 0 <= i < n ==> IsIdentPart(s[i])
    ensures n < |s| ==> !IsIdentPart(s[n])
  {
    if s == "" || !IsIdentPart(s[0]) then 0 else 1 + IdentRun(s[1..])
  }

  function Unescape(c: char): char {
    if c == 'n' then '\n' else if c == 'r' then '\r' else if c == 't' then '\t' else c
  }

  /** Reads a string literal after its opening quote: its value, and what follows the closing quote. */
  function ScanText(s: string): (r: Option<(string, string)>)
    ensures r.Some? ==> |r.value.1| < |s| && r.value.1 == s[|s| - |r.value.1|..]
  {
    if s == "" then None
    else if s[0] == '"' then Some(("", s[1..]))
    else if s[0] == '\\' then
      if |s| < 2 then None
      else
        match ScanText(s[2..])
        case None => None
        case Some((value, rest)) => Some(([Unescape(s[1])] + value, rest))
    else
      match ScanText(s[1..])
      case None => None
      case Some((value, rest)) => Some(([s[0]] + value, rest))
  }

  function OperatorAt(s: string): Option<(Comparison, nat)>
    requires s != ""
  {
    if |s| >= 2 && s[0] == '=' && s[1] == '=' then Some((Eq, 2))
    else if |s| >= 2 && s[0] == '!' && s[1] == '=' then Some((Ne, 2))
    else if |s| >= 2 && s[0] == '>' && s[1] == '=' then Some((Ge, 2))
    else if |s| >= 2 && s[0] == '<' && s[1] == '=' then Some((Le, 2))
    else if s[0] == '>' then Some((Gt, 1))
    else if s[0] == '<' then Some((Lt, 1))
    else None
  }

  /** The next token and the text behind it; the text must not start with a space. */
  function NextToken(s: string): (r: Option<(Token, string)>)
    requires s != "" && !IsSpace(s[0])
    ensures r.Some? ==> |r.value.1| < |s| && r.value.1 == s[|s| - |r.value.1|..]
  {
    if s[0] == '(' then Some((LParen, s[1..]))
    else if s[0] == ')' then Some((RParen, s[1..]))
    else if s[0] == '"' then
      match ScanText(s[1..])
      case None => None
      case Some((value, rest)) => Some((Text(value), rest))
    else if Decimal.IsDigit(s[0]) then Some((Number(s[..DigitRun(s)]), s[DigitRun(s)..]))
    else if IsIdentStart(s[0]) then Some((Ident(s[..IdentRun(s)]), s[IdentRun(s)..]))
    else
      match OperatorAt(s)
      case None => None
      case Some((op, width)) => Some((Operator(op), s[width..]))
  }

  function Prepend(t: Token, rest: Option<seq<Token>>): Option<seq<Token>> {
    match rest
    case None => None
    case Some(ts) => Some([t] + ts)
  }

  /** The tokens of a text, closed by the end marker, or nothing when some part of it is no token. */
  function Lex(s: string): (r: Option<seq<Token>>)
    decreases |s|
  {
    if s == "" then Some([EndOfInput])
    else if IsSpace(s[0]) then Lex(s[1..])
    else
      match NextToken(s)
      case None => None
      case Some((t, rest)) => Prepend(t, Lex(rest))
  }

  function Join(ts: seq<Token>, rest: Option<seq<Token>>): Option<seq<Token>> {
    match rest
    case None => None
    case Some(more) => Some(ts + more)
  }

  function Extend(value: string, r: Option<(string, string)>): Option<(string, string)> {
    match r
    case None => None
    case Some((v, rest)) => Some((value + v, rest))
  }

  lemma ExtendStep(value: string, c: char, r: Option<(string, string)>)
    ensures Extend(value, Extend([c], r)) == Extend(value + [c], r)
  {
    if r.Some? {
      assert value + ([c] + r.value.0) == value + [c] + r.value.0;
    }
  }

  /** What one character of the string does to the scan of the rest. */
  lemma ScanStep(value: string, s: string)
    requires s != ""
    ensures s[0] == '"' ==> Extend(value, ScanText(s)) == Some((value, s[1..]))
    ensures s[0] == '\\' && |s| == 1 ==> Extend(value, ScanText(s)) == None
    ensures s[0] == '\\' && |s| > 1 ==>
              Extend(value, ScanText(s)) == Extend(value + [Unescape(s[1])], ScanText(s[2..]))
    ensures s[0] != '"' && s[0] != '\\' ==> Extend(value, ScanText(s)) == Extend(value + [s[0]], ScanText(s[1..]))
  {
    if s[0] == '"' {
      assert value + "" == value;
    } else if s[0] != '\\' {
      ExtendStep(value, s[0], ScanText(s[1..]));
    } else if |s| > 1 {
      ExtendStep(value, Unescape(s[1]), ScanText(s[2..]));
    }
  }

  /** The scan of the whole string is what has been read so far, followed by the scan from the index on. */
  ghost predicate ScanAt(expected: Option<(string, string)>, value: string, input: string, index: nat)
    requires index <= |input|
  {
    expected == Extend(value, ScanText(input[index..]))
  }

  lemma ScanAtQuote(expected: Option<(string, string)>, value: string, input: string, index: nat)
    requires index < |input| && ScanAt(expected, value, input, index) && input[index] == '"'
    ensures expected == RestAt(input, Some((value, index + 1)))
  {
    ScanStep(value, input[index..]);
    assert input[index..][1..] == input[index + 1..];
  }

  lemma ScanAtLastEscape(expected: Option<(string, string)>, value: string, input: string, index: nat)
    requires index + 1 == |input| && ScanAt(expected, value, input, index) && input[index] == '\\'
    ensures expected == None
  {
    ScanStep(value, input[index..]);
  }

  lemma ScanAtEscape(expected: Option<(string, string)>, value: string, input: string, index: nat)
    requires index + 1 < |input| && ScanAt(expected, value, input, index) && input[index] == '\\'
    ensures ScanAt(expected, value + [Unescape(input[index + 1])], input, index + 2)
  {
    ScanStep(value, input[index..]);
    assert input[index..][2..] == input[index + 2..];
  }

  lemma ScanAtCharacter(expected: Option<(string, string)>, value: string, input: string, index: nat)
    requires index < |input| && ScanAt(expected, value, input, index) && input[index] != '"' && input[index] != '\\'
    ensures ScanAt(expected, value + [input[index]], input, index + 1)
  {
    ScanStep(value, input[index..]);
    assert input[index..][1..] == input[index + 1..];
  }

  lemma ScanAtStart(input: string, start: nat)
    requires start <= |input|
    ensures ScanAt(ScanText(input[start..]), "", input, start)
  {
    var r := ScanText(input[start..]);
    assert r.Some? ==> "" + r.value.0 == r.value.0;
  }

  lemma ScanAtEnd(expected: Option<(string, string)>, value: string, input: string)
    requires ScanAt(expected, value, input, |input|)
    ensures expected == None
  {
  }

  /** A scan that reports an index, as a scan that reports the rest of the text. */
  ghost function RestAt(input: string, r: Option<(string, nat)>): Option<(string, string)>
    requires r.Some? ==> r.value.1 <= |input|
  {
    match r
    case None => None
    case Some((value, next)) => Some((value, input[next..]))
  }

  method ScanString(input: string, start: nat) returns (r: Option<(string, nat)>)
    requires start < |input|
    ensures r.Some? ==> start < r.value.1 <= |input|
    ensures ScanText(input[start + 1..]) == RestAt(input, r)
  {
    var value := "";
    var index := start + 1;
    ghost var expected := ScanText(input[index..]);
    ScanAtStart(input, index);
    while index < |input|
      invariant start < index <= |input| && ScanAt(expected, value, input, index)
    {
      var ch := input[index];
      if ch == '"' {
        ScanAtQuote(expected, value, input, index);
        return Some((value, index + 1));
      }
      if ch == '\\' {
        if index + 1 >= |input| {
          ScanAtLastEscape(expected, value, input, index);
          return None;
        }
        ScanAtEscape(expected, value, input, index);
        value := value + [Unescape(input[index + 1])];
        index := index + 2;
      } else {
        ScanAtCharacter(expected, value, input, index);
        value := value + [ch];
        index := index + 1;
      }
    }
    ScanAtEnd(expected, value, input);
    return None;
  }

  lemma SliceParts<T>(s: seq<T>, i: nat, n: nat)
    requires i <= n <= |s|
    ensures s[i..][..n - i] == s[i..n] && s[i..][n - i..] == s[n..]
  {
  }

  method TokenAt(input: string, index: nat) returns (r: Option<(Token, nat)>)
    requires index < |input| && !IsSpace(input[index])
    ensures r.None? <==> NextToken(input[index..]).None?
    ensures r.Some? ==> index < r.value.1 <= |input|
                        && NextToken(input[index..]) == Some((r.value.0, input[r.value.1..]))
  {
    SliceParts(input, index, index + 1);
    if input[index] == '(' {
      return Some((LParen, index + 1));
    }
    if input[index] == ')' {
      return Some((RParen, index + 1));
    }
    if input[index] == '"' {
      var text := ScanString(input, index);
      return match text case None => None case Some((value, next)) => Some((Text(value), next));
    }
    if Decimal.IsDigit(input[index]) {
      var next := RunOfDigits(input, index);
      SliceParts(input, index, next);
      return Some((Number(input[index..next]), next));
    }
    if IsIdentStart(input[index]) {
      var next := RunOfIdent(input, index);
      SliceParts(input, index, next);
      return Some((Ident(input[index..next]), next));
    }
    var op := OperatorAt(input[index..]);
    if op.None? {
      return None;
    }
    SliceParts(input, index, index + op.value.1);
    return Some((Operator(op.value.0), index + op.value.1));
  }

  method Tokenize(input: string) returns (r: Option<seq<Token>>)
    ensures r == Lex(input)
  {
    var tokens: seq<Token> := [];
    var index := 0;
    assert input[0..] == input;
    assert Lex(input).Some? ==> [] + Lex(input).value == Lex(input).value;
    while index < |input|
      invariant 0 <= index <= |input|
      invariant Lex(input) == Join(tokens, Lex(input[index..]))
    {
      ghost var s := input[index..];
      if IsSpace(input[index]) {
        assert s[1..] == input[index + 1..];
        index := index + 1;
        continue;
      }
      var found := TokenAt(input, index);
      if found.None? {
        return None;
      }
      var (token, next) := found.value;
      JoinStep(tokens, token, Lex(input[next..]));
      tokens := tokens + [token];
      index := next;
    }
    return Some(tokens + [EndOfInput]);
  }

  lemma JoinStep(ts: seq<Token>, t: Token, rest: Option<seq<Token>>)
    ensures Join(ts, Prepend(t, rest)) == Join(ts + [t], rest)
  {
    if rest.Some? {
      assert ts + ([t] + rest.value) == ts + [t] + rest.value;
    }
  }

  method RunOfDigits(input: string, start: nat) returns (end: nat)
    requires start < |input| && Decimal.IsDigit(input[start])
    ensures start < end <= |input| && end == start + DigitRun(input[start..])
  {
    end := start;
    while end < |input| && Decimal.IsDigit(input[end])
      invariant start <= end <= |input|
      invariant start + DigitRun(input[start..]) == end + DigitRun(input[end..])
    {
      assert input[end..][1..] == input[end + 1..];
      end := end + 1;
    }
  }

  method RunOfIdent(input: string, start: nat) returns (end: nat)
    requires start < |input| && IsIdentStart(input[start])
    ensures start < end <= |input| && end == start + IdentRun(input[start..])
  {
    end := start;
    while end < |input| && IsIdentPart(input[end])
      invariant start <= end <= |input|
      invariant start + IdentRun(input[start..]) == end + IdentRun(input[end..])
    {
      assert input[end..][1..] == input[end + 1..];
      end := end + 1;
    }
  }
}
