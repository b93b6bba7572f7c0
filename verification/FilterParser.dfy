/**
 The recursive-descent parser, which evaluates while it parses. It accepts exactly the token lists
 of the grammar and returns the truth value of the one tree that each denotes.
 */
module FilterParser {
  import opened Wrappers
  import opened Ascii
  import opened FilterLexer
  import opened FilterGrammar
  import Decimal

  // ---------------------------------------------------------------------------------------------
  // A parser that builds the tree
  // ---------------------------------------------------------------------------------------------

  type Parsed = Option<(Expr, seq<Token>)>

  ghost predicate Shortens(r: Parsed, ts: seq<Token>) {
    r.Some? ==> |r.value.1| < |ts| && WellFormed(r.value.0)
  }

  function ParseOr(ts: seq<Token>): (r: Parsed)
    ensures Shortens(r, ts)
    decreases |ts|, 4
  {
    match ParseAnd(ts)
    case None => None
    case Some((left, rest)) => OrTail(left, rest)
  }

  function OrTail(left: Expr, ts: seq<Token>): (r: Parsed)
    requires WellFormed(left)
    ensures r.Some? ==> |r.value.1| <= |ts| && WellFormed(r.value.0)
    decreases |ts|, 5
  {
    if !StartsWith(ts, "or") then Some((left, ts))
    else
      match ParseAnd(ts[1..])
      case None => None
      case Some((right, rest)) => OrTail(Or(left, right), rest)
  }

  function ParseAnd(ts: seq<Token>): (r: Parsed)
    ensures Shortens(r, ts)
    decreases |ts|, 3
  {
    match ParseUnary(ts)
    case None => None
    case Some((left, rest)) => AndTail(left, rest)
  }

  function AndTail(left: Expr, ts: seq<Token>): (r: Parsed)
    requires WellFormed(left)
    ensures r.Some? ==> |r.value.1| <= |ts| && WellFormed(r.value.0)
    decreases |ts|, 4
  {
    if !StartsWith(ts, "and") then Some((left, ts))
    else
      match ParseUnary(ts[1..])
      case None => None
      case Some((right, rest)) => AndTail(And(left, right), rest)
  }

  function ParseUnary(ts: seq<Token>): (r: Parsed)
    ensures Shortens(r, ts)
    decreases |ts|, 2
  {
    if StartsWith(ts, "not") then
      match ParseUnary(ts[1..])
      case None => None
      case Some((e, rest)) => Some((Not(e), rest))
    else ParsePrimary(ts)
  }

  function ParsePrimary(ts: seq<Token>): (r: Parsed)
    ensures Shortens(r, ts)
    decreases |ts|, 1
  {
    if ts != [] && ts[0] == LParen then
      match ParseOr(ts[1..])
      case None => None
      case Some((e, rest)) => if rest != [] && rest[0] == RParen then Some((e, rest[1..])) else None
    else ParseComparison(ts)
  }

  function ParseComparison(ts: seq<Token>): (r: Parsed)
    ensures Shortens(r, ts)
    decreases |ts|, 0
  {
    if |ts| < 3 || !ts[0].Ident? then None
    else
      match FieldOf(ts[0].name)
      case None => None
      case Some(Length) =>
        if ts[1].Operator? && ts[2].Number? && FitsInt(ts[2].digits)
        then Some((NumberTest(ts[0].name, ts[1].op, ts[2].digits), ts[3..]))
        else None
      case Some(_) =>
        if !ts[2].Text? then None
        else if IsKeyword(ts[1], "contains") then Some((StringTest(ts[0].name, Contains, ts[2].value), ts[3..]))
        else if ts[1] == Operator(Eq) then Some((StringTest(ts[0].name, Same, ts[2].value), ts[3..]))
        else if ts[1] == Operator(Ne) then Some((StringTest(ts[0].name, Different, ts[2].value), ts[3..]))
        else None
  }

  // ---------------------------------------------------------------------------------------------
  // What is parsed is in the grammar
  // ---------------------------------------------------------------------------------------------

  lemma SliceOfConcat<T>(a: seq<T>, x: T, b: seq<T>)
    ensures (a + [x] + b)[..|a|] == a && (a + [x] + b)[|a|] == x && (a + [x] + b)[|a| + 1..] == b
  {
  }

  lemma OrJoins(left: Expr, done: seq<Token>, word: Token, right: Expr, t: seq<Token>)
    requires IsOr(left, done) && IsKeyword(word, "or") && IsAnd(right, t)
    ensures IsOr(Or(left, right), done + [word] + t)
  {
    SliceOfConcat(done, word, t);
  }

  lemma AndJoins(left: Expr, done: seq<Token>, word: Token, right: Expr, t: seq<Token>)
    requires IsAnd(left, done) && IsKeyword(word, "and") && IsUnary(right, t)
    ensures IsAnd(And(left, right), done + [word] + t)
  {
    SliceOfConcat(done, word, t);
  }

  /** A list that is cut three times, put together again. */
  lemma CutAndJoined<T>(ts: seq<T>, t: seq<T>, rest: seq<T>, more: seq<T>, end: seq<T>, done: seq<T>)
    requires ts != [] && ts[1..] == t + rest && rest == more + end
    ensures ts == [ts[0]] + t + more + end
    ensures done + ([ts[0]] + t + more) == done + [ts[0]] + t + more
  {
  }

  lemma {:induction false} ParseOrSound(ts: seq<Token>) returns (t: seq<Token>)
    requires ParseOr(ts).Some?
    ensures ts == t + ParseOr(ts).value.1 && IsOr(ParseOr(ts).value.0, t)
    decreases |ts|, 4
  {
    t := ParseAndSound(ts);
    var (left, rest) := ParseAnd(ts).value;
    var tail := OrTailSound(left, t, rest);
    t := t + tail;
  }

  lemma {:induction false} OrTailSound(left: Expr, done: seq<Token>, ts: seq<Token>) returns (tail: seq<Token>)
    requires WellFormed(left) && IsOr(left, done) && OrTail(left, ts).Some?
    ensures ts == tail + OrTail(left, ts).value.1 && IsOr(OrTail(left, ts).value.0, done + tail)
    decreases |ts|, 5
  {
    if StartsWith(ts, "or") {
      var t := ParseAndSound(ts[1..]);
      var (right, rest) := ParseAnd(ts[1..]).value;
      OrJoins(left, done, ts[0], right, t);
      var more := OrTailSound(Or(left, right), done + [ts[0]] + t, rest);
      tail := [ts[0]] + t + more;
      CutAndJoined(ts, t, rest, more, OrTail(left, ts).value.1, done);
    } else {
      tail := [];
      assert done + tail == done;
    }
  }

  lemma {:induction false} ParseAndSound(ts: seq<Token>) returns (t: seq<Token>)
    requires ParseAnd(ts).Some?
    ensures ts == t + ParseAnd(ts).value.1 && IsAnd(ParseAnd(ts).value.0, t)
    decreases |ts|, 3
  {
    t := ParseUnarySound(ts);
    var (left, rest) := ParseUnary(ts).value;
    var tail := AndTailSound(left, t, rest);
    t := t + tail;
  }

  lemma {:induction false} AndTailSound(left: Expr, done: seq<Token>, ts: seq<Token>) returns (tail: seq<Token>)
    requires WellFormed(left) && IsAnd(left, done) && AndTail(left, ts).Some?
    ensures ts == tail + AndTail(left, ts).value.1 && IsAnd(AndTail(left, ts).value.0, done + tail)
    decreases |ts|, 4
  {
    if StartsWith(ts, "and") {
      var t := ParseUnarySound(ts[1..]);
      var (right, rest) := ParseUnary(ts[1..]).value;
      AndJoins(left, done, ts[0], right, t);
      var more := AndTailSound(And(left, right), done + [ts[0]] + t, rest);
      tail := [ts[0]] + t + more;
      CutAndJoined(ts, t, rest, more, AndTail(left, ts).value.1, done);
    } else {
      tail := [];
      assert done + tail == done;
    }
  }

  lemma {:induction false} ParseUnarySound(ts: seq<Token>) returns (t: seq<Token>)
    requires ParseUnary(ts).Some?
    ensures ts == t + ParseUnary(ts).value.1 && IsUnary(ParseUnary(ts).value.0, t)
    decreases |ts|, 2
  {
    if StartsWith(ts, "not") {
      var inner := ParseUnarySound(ts[1..]);
      t := [ts[0]] + inner;
      assert t[1..] == inner;
    } else if ts[0] == LParen {
      var inner := ParseOrSound(ts[1..]);
      var (e, rest) := ParseOr(ts[1..]).value;
      t := [LParen] + inner + [RParen];
      assert t[1..|t| - 1] == inner;
      assert IsPrimary(e, t);
    } else {
      t := ts[..3];
      assert IsComparison(ParseComparison(ts).value.0, t);
    }
  }

  // ---------------------------------------------------------------------------------------------
  // What is in the grammar is parsed
  // ---------------------------------------------------------------------------------------------

  /** Keywords are no field names. */
  lemma FieldIsNoKeyword(name: string)
    requires FieldOf(name).Some?
    ensures Lower(name) != "not" && Lower(name) != "or" && Lower(name) != "and"
  {
  }

  lemma {:induction false} PrimaryParses(e: Expr, t: seq<Token>, rest: seq<Token>)
    requires IsPrimary(e, t)
    ensures ParseUnary(t + rest) == Some((e, rest))
    decreases |t|, 1
  {
    var ts := t + rest;
    if IsComparison(e, t) {
      FieldIsNoKeyword(t[0].name);
      assert ts[0] == t[0] && ts[1] == t[1] && ts[2] == t[2] && ts[3..] == rest;
      assert ParseComparison(ts) == Some((e, rest));
    } else {
      var inner := t[1..|t| - 1];
      assert ts[1..] == inner + ([RParen] + rest);
      OrParses(e, inner, [RParen] + rest);
      assert ([RParen] + rest)[1..] == rest;
    }
  }

  lemma {:induction false} UnaryParses(e: Expr, t: seq<Token>, rest: seq<Token>)
    requires IsUnary(e, t)
    ensures ParseUnary(t + rest) == Some((e, rest))
    decreases |t|, 2
  {
    if IsPrimary(e, t) {
      PrimaryParses(e, t, rest);
    } else {
      UnaryParses(e.inner, t[1..], rest);
      assert (t + rest)[1..] == t[1..] + rest;
    }
  }

  lemma SplitAt(t: seq<Token>, k: nat, rest: seq<Token>) returns (behind: seq<Token>)
    requires k < |t|
    ensures t + rest == t[..k] + behind
    ensures behind != [] && behind[0] == t[k] && behind[1..] == t[k + 1..] + rest
  {
    behind := t[k..] + rest;
    assert t == t[..k] + t[k..];
  }

  lemma {:induction false} AndParses(e: Expr, t: seq<Token>, rest: seq<Token>)
    requires IsAnd(e, t)
    ensures WellFormed(e) && ParseAnd(t + rest) == AndTail(e, rest)
    decreases |t|, 3
  {
    AndIsWellFormed(e, t);
    if IsUnary(e, t) {
      UnaryParses(e, t, rest);
    } else {
      var k :| 0 <= k < |t| && IsKeyword(t[k], "and") && IsAnd(e.left, t[..k]) && IsUnary(e.right, t[k + 1..]);
      var behind := SplitAt(t, k, rest);
      AndParses(e.left, t[..k], behind);
      UnaryParses(e.right, t[k + 1..], rest);
      assert AndTail(e.left, behind) == AndTail(And(e.left, e.right), rest);
    }
  }

  lemma {:induction false} OrParses(e: Expr, t: seq<Token>, rest: seq<Token>)
    requires IsOr(e, t) && !StartsWith(rest, "and")
    ensures WellFormed(e) && ParseOr(t + rest) == OrTail(e, rest)
    decreases |t|, 4
  {
    DenotedIsWellFormed(e, t);
    if IsAnd(e, t) {
      AndParses(e, t, rest);
    } else {
      var k :| 0 <= k < |t| && IsKeyword(t[k], "or") && IsOr(e.left, t[..k]) && IsAnd(e.right, t[k + 1..]);
      var behind := SplitAt(t, k, rest);
      OrParses(e.left, t[..k], behind);
      AndParses(e.right, t[k + 1..], rest);
      assert AndTail(e.right, rest) == Some((e.right, rest));
      assert OrTail(e.left, behind) == OrTail(Or(e.left, e.right), rest);
    }
  }

  // ---------------------------------------------------------------------------------------------
  // The two agree
  // ---------------------------------------------------------------------------------------------

  /** The tree of a whole token list: everything up to the end marker must be used. */
  function ParseAll(ts: seq<Token>): (r: Option<Expr>)
    ensures r.Some? ==> WellFormed(r.value)
  {
    match ParseOr(ts)
    case None => None
    case Some((e, rest)) => if rest == [] || rest[0] == EndOfInput then Some(e) else None
  }

  /** The parser finds a tree exactly when the grammar has one, and then it is the only one. */
  lemma ParseAllIffDenotes(ts: seq<Token>, e: Expr)
    ensures ParseAll(ts) == Some(e) <==> Denotes(ts, e)
  {
    if ParseAll(ts) == Some(e) {
      var t := ParseOrSound(ts);
      assert ts[..|t|] == t;
      assert |t| < |ts| ==> ts[|t|] == ParseOr(ts).value.1[0];
    }
    if Denotes(ts, e) {
      var k :| 0 <= k <= |ts| && (k == |ts| || ts[k] == EndOfInput) && IsOr(e, ts[..k]);
      assert ts == ts[..k] + ts[k..];
      OrParses(e, ts[..k], ts[k..]);
    }
  }

  /** No token list denotes two trees. */
  lemma GrammarIsUnambiguous(ts: seq<Token>, e: Expr, f: Expr)
    requires Denotes(ts, e) && Denotes(ts, f)
    ensures e == f
  {
    ParseAllIffDenotes(ts, e);
    ParseAllIffDenotes(ts, f);
  }

  // ---------------------------------------------------------------------------------------------
  // The parser that evaluates on the way
  // ---------------------------------------------------------------------------------------------

  /** The outcome of evaluating a parsed part: its truth value, and where the parser stands. */
  ghost predicate Agrees(r: Option<bool>, position: nat, p: Parsed, ts: seq<Token>, c: Candidate, o: Options) {
    match p
    case None => r.None?
    case Some((e, rest)) =>
      && WellFormed(e) && r == Some(Eval(e, c, o))
      && position <= |ts| && ts[position..] == rest
  }

  class Parser {
    const tokens: seq<Token>
    const candidate: Candidate
    const options: Options
    var position: nat

    constructor (tokens: seq<Token>, candidate: Candidate, options: Options)
      ensures this.tokens == tokens && this.candidate == candidate && this.options == options && position == 0
    {
      this.tokens := tokens;
      this.candidate := candidate;
      this.options := options;
      position := 0;
    }

    function Peek(): Token
      reads this
    {
      if position >= |tokens| then EndOfInput else tokens[position]
    }

    ghost function Ahead(): seq<Token>
      requires position <= |tokens|
      reads this
    {
      tokens[position..]
    }

    method MatchKeyword(keyword: string) returns (matched: bool)
      requires position <= |tokens|
      modifies this
      ensures position <= |tokens|
      ensures matched == StartsWith(old(Ahead()), keyword)
      ensures Ahead() == if matched then old(Ahead())[1..] else old(Ahead())
    {
      matched := position < |tokens| && IsKeyword(tokens[position], keyword);
      if matched {
        position := position + 1;
      }
    }

    method Parse() returns (r: Option<bool>)
      requires position == 0
      modifies this
      ensures r.Some? <==> exists e :: Denotes(tokens, e)
      ensures forall e :: Denotes(tokens, e) ==> WellFormed(e) && r == Some(Eval(e, candidate, options))
    {
      assert tokens[0..] == tokens;
      forall e
        ensures ParseAll(tokens) == Some(e) <==> Denotes(tokens, e)
      {
        ParseAllIffDenotes(tokens, e);
      }
      r := ParseOrValue();
      if r.None? {
        assert ParseAll(tokens).None?;
        return;
      }
      ghost var rest := ParseOr(tokens).value.1;
      assert tokens[position..] == rest;
      if Peek() != EndOfInput {
        r := None;
        assert ParseAll(tokens).None?;
      } else {
        assert Denotes(tokens, ParseOr(tokens).value.0);
      }
    }

    method ParseOrValue() returns (r: Option<bool>)
      requires position <= |tokens|
      modifies this
      ensures Agrees(r, position, ParseOr(old(Ahead())), tokens, candidate, options)
      decreases |tokens| - position, 4
    {
      r := ParseAndValue();
      if r.None? {
        return;
      }
      ghost var start := old(Ahead());
      ghost var left := ParseAnd(start).value.0;
      while true
        invariant position <= |tokens| && WellFormed(left) && r == Some(Eval(left, candidate, options))
        invariant |Ahead()| < |start|
        invariant ParseOr(start) == OrTail(left, Ahead())
        decreases |tokens| - position
      {
        var more := MatchKeyword("or");
        if !more {
          return;
        }
        ghost var ahead := Ahead();
        var right := ParseAndValue();
        if right.None? {
          return None;
        }
        left := Or(left, ParseAnd(ahead).value.0);
        r := Some(r.value || right.value);
      }
    }

    method ParseAndValue() returns (r: Option<bool>)
      requires position <= |tokens|
      modifies this
      ensures Agrees(r, position, ParseAnd(old(Ahead())), tokens, candidate, options)
      decreases |tokens| - position, 3
    {
      r := ParseUnaryValue();
      if r.None? {
        return;
      }
      ghost var start := old(Ahead());
      ghost var left := ParseUnary(start).value.0;
      while true
        invariant position <= |tokens| && WellFormed(left) && r == Some(Eval(left, candidate, options))
        invariant |Ahead()| < |start|
        invariant ParseAnd(start) == AndTail(left, Ahead())
        decreases |tokens| - position
      {
        var more := MatchKeyword("and");
        if !more {
          return;
        }
        ghost var ahead := Ahead();
        var right := ParseUnaryValue();
        if right.None? {
          return None;
        }
        left := And(left, ParseUnary(ahead).value.0);
        r := Some(r.value && right.value);
      }
    }

    method ParseUnaryValue() returns (r: Option<bool>)
      requires position <= |tokens|
      modifies this
      ensures Agrees(r, position, ParseUnary(old(Ahead())), tokens, candidate, options)
      decreases |tokens| - position, 2
    {
      var negated := MatchKeyword("not");
      if negated {
        var inner := ParseUnaryValue();
        return if inner.None? then None else Some(!inner.value);
      }
      r := ParsePrimaryValue();
    }

    method ParsePrimaryValue() returns (r: Option<bool>)
      requires position <= |tokens|
      modifies this
      ensures Agrees(r, position, ParsePrimary(old(Ahead())), tokens, candidate, options)
      decreases |tokens| - position, 1
    {
      if Peek() == LParen {
        position := position + 1;
        assert Ahead() == old(Ahead())[1..];
        r := ParseOrValue();
        if r.None? {
          return;
        }
        if Peek() != RParen {
          return None;
        }
        position := position + 1;
      } else {
        r := ParseComparisonValue();
      }
    }

    method ParseComparisonValue() returns (r: Option<bool>)
      requires position <= |tokens|
      modifies this
      ensures Agrees(r, position, ParseComparison(old(Ahead())), tokens, candidate, options)
      decreases |tokens| - position, 0
    {
      var name := Peek();
      if !name.Ident? {
        return None;
      }
      position := position + 1;
      var field := FieldOf(name.name);
      if field == Some(Length) {
        var operator := Peek();
        if !operator.Operator? {
          return None;
        }
        position := position + 1;
        var number := Peek();
        if !number.Number? {
          return None;
        }
        position := position + 1;
        if !FitsInt(number.digits) {
          return None;
        }
        return Some(CompareNumbers(LengthOf(candidate), operator.op, Decimal.Value(number.digits)));
      }
      if field.None? {
        return None;
      }
      var test := Peek();
      var kind;
      if IsKeyword(test, "contains") {
        kind := Contains;
      } else if test == Operator(Eq) {
        kind := Same;
      } else if test == Operator(Ne) {
        kind := Different;
      } else {
        return None;
      }
      position := position + 1;
      var literal := Peek();
      if !literal.Text? {
        return None;
      }
      position := position + 1;
      return Some(CompareStrings(field.value, TextOf(candidate, field.value), kind, literal.value, options));
    }
  }
}
