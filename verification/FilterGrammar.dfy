/**
 Filter expressions as trees, their meaning for a candidate, and the grammar that says which token
 lists denote which tree: not binds tighter than and, and binds tighter than or, both associate to
 the left.
 */
module FilterGrammar {
  import opened Wrappers
  import opened Ascii
  import opened FilterLexer
  import Decimal

  datatype Field =
    | Length
    | TextField | Hex | Message | Level | Source | GraphId | NodeIdField | NodeTypeField
    | Direction | PayloadText | PayloadHex | Details | Action | Category

  datatype TextTest = Contains | Same | Different

  datatype Expr =
    | Or(left: Expr, right: Expr)
    | And(left: Expr, right: Expr)
    | Not(inner: Expr)
    | NumberTest(field: string, op: Comparison, digits: string)
    | StringTest(field: string, test: TextTest, value: string)

  // ---------------------------------------------------------------------------------------------
  // Names
  // ---------------------------------------------------------------------------------------------

  /** Names are recognised whatever their case. */
  function FieldOf(name: string): Option<Field> {
    var n := Lower(name);
    if n == "len" || n == "bytelength" || n == "bytecount" then Some(Length)
    else if n == "text" then Some(TextField)
    else if n == "hex" then Some(Hex)
    else if n == "message" then Some(Message)
    else if n == "level" then Some(Level)
    else if n == "source" then Some(Source)
    else if n == "graphid" then Some(GraphId)
    else if n == "nodeid" then Some(NodeIdField)
    else if n == "nodetype" then Some(NodeTypeField)
    else if n == "direction" then Some(Direction)
    else if n == "payloadtext" then Some(PayloadText)
    else if n == "payloadhex" then Some(PayloadHex)
    else if n == "details" then Some(Details)
    else if n == "action" then Some(Action)
    else if n == "category" then Some(Category)
    else None
  }

  predicate IsKeyword(t: Token, keyword: string) {
    t.Ident? && Lower(t.name) == keyword
  }

  predicate StartsWith(ts: seq<Token>, keyword: string) {
    ts != [] && IsKeyword(ts[0], keyword)
  }

  /** The largest number that a literal may denote: numbers are 64-bit. */
  predicate FitsInt(digits: string) {
    Decimal.IsNumeral(digits) && Decimal.Value(digits) <= Decimal.MAX_INT
  }

  // ---------------------------------------------------------------------------------------------
  // Meaning
  // ---------------------------------------------------------------------------------------------

  datatype Candidate = Candidate(
    len: int, byteLength: int, byteCount: int,
    text: string, hex: string, message: string, level: string, source: string,
    graphId: string, nodeId: string, nodeType: string, direction: string,
    payloadText: string, payloadHex: string, details: string, action: string, category: string)

  /** Case folding and the normal form of hex text work on Unicode and stay unspecified. */
  datatype Options = Options(caseSensitive: bool, fold: string -> string, normalizeHex: string -> string)

  function LengthOf(c: Candidate): int {
    if c.len != 0 then c.len else if c.byteLength != 0 then c.byteLength else c.byteCount
  }

  function TextOf(c: Candidate, field: Field): string {
    match field
    case Length => ""
    case TextField => if c.text != "" then c.text else c.payloadText
    case Hex => if c.hex != "" then c.hex else c.payloadHex
    case Message => c.message
    case Level => c.level
    case Source => c.source
    case GraphId => c.graphId
    case NodeIdField => c.nodeId
    case NodeTypeField => c.nodeType
    case Direction => c.direction
    case PayloadText => c.payloadText
    case PayloadHex => c.payloadHex
    case Details => c.details
    case Action => c.action
    case Category => c.category
  }

  predicate CompareNumbers(left: int, op: Comparison, right: int) {
    match op
    case Eq => left == right
    case Ne => left != right
    case Gt => left > right
    case Ge => left >= right
    case Lt => left < right
    case Le => left <= right
  }

  predicate OccursAt(needle: string, hay: string, k: nat) {
    k + |needle| <= |hay| && hay[k..k + |needle|] == needle
  }

  predicate IsSubstring(needle: string, hay: string) {
    exists k :: 0 <= k <= |hay| && OccursAt(needle, hay, k)
  }

  predicate CompareStrings(field: Field, left: string, test: TextTest, right: string, o: Options) {
    var normal := if field == Hex || field == PayloadHex then o.normalizeHex
                  else if o.caseSensitive then (s: string) => s else o.fold;
    match test
    case Contains => IsSubstring(normal(right), normal(left))
    case Same => normal(left) == normal(right)
    case Different => normal(left) != normal(right)
  }

  /** Trees over known fields, with number tests on the length and text tests on the other fields. */
  predicate WellFormed(e: Expr) {
    match e
    case Or(l, r) => WellFormed(l) && WellFormed(r)
    case And(l, r) => WellFormed(l) && WellFormed(r)
    case Not(f) => WellFormed(f)
    case NumberTest(field, _, digits) => FieldOf(field) == Some(Length) && FitsInt(digits)
    case StringTest(field, _, _) => FieldOf(field).Some? && FieldOf(field) != Some(Length)
  }

  predicate Eval(e: Expr, c: Candidate, o: Options)
    requires WellFormed(e)
  {
    match e
    case Or(l, r) => Eval(l, c, o) || Eval(r, c, o)
    case And(l, r) => Eval(l, c, o) && Eval(r, c, o)
    case Not(f) => !Eval(f, c, o)
    case NumberTest(_, op, digits) => CompareNumbers(LengthOf(c), op, Decimal.Value(digits))
    case StringTest(field, test, value) =>
      CompareStrings(FieldOf(field).value, TextOf(c, FieldOf(field).value), test, value, o)
  }

  // ---------------------------------------------------------------------------------------------
  // Grammar: which token lists denote a tree
  // ---------------------------------------------------------------------------------------------

  predicate IsTestToken(t: Token, test: TextTest) {
    match test
    case Contains => IsKeyword(t, "contains")
    case Same => t == Operator(Eq)
    case Different => t == Operator(Ne)
  }

  predicate IsComparison(e: Expr, ts: seq<Token>) {
    && |ts| == 3
    && WellFormed(e)
    && match e
       case NumberTest(field, op, digits) => ts == [Ident(field), Operator(op), Number(digits)]
       case StringTest(field, test, value) => ts[0] == Ident(field) && IsTestToken(ts[1], test) && ts[2] == Text(value)
       case _ => false
  }

  ghost predicate IsOr(e: Expr, ts: seq<Token>)
    decreases |ts|, 3
  {
    || IsAnd(e, ts)
    || (e.Or? && exists k :: 0 <= k < |ts| && IsKeyword(ts[k], "or")
                             && IsOr(e.left, ts[..k]) && IsAnd(e.right, ts[k + 1..]))
  }

  ghost predicate IsAnd(e: Expr, ts: seq<Token>)
    decreases |ts|, 2
  {
    || IsUnary(e, ts)
    || (e.And? && exists k :: 0 <= k < |ts| && IsKeyword(ts[k], "and")
                              && IsAnd(e.left, ts[..k]) && IsUnary(e.right, ts[k + 1..]))
  }

  ghost predicate IsUnary(e: Expr, ts: seq<Token>)
    decreases |ts|, 1
  {
    || IsPrimary(e, ts)
    || (e.Not? && StartsWith(ts, "not") && IsUnary(e.inner, ts[1..]))
  }

  ghost predicate IsPrimary(e: Expr, ts: seq<Token>)
    decreases |ts|, 0
  {
    || IsComparison(e, ts)
    || (|ts| >= 2 && ts[0] == LParen && ts[|ts| - 1] == RParen && IsOr(e, ts[1..|ts| - 1]))
  }

  /** A whole token list denotes a tree when its part before the end marker does. */
  ghost predicate Denotes(ts: seq<Token>, e: Expr) {
    exists k :: 0 <= k <= |ts| && (k == |ts| || ts[k] == EndOfInput) && IsOr(e, ts[..k])
  }

  lemma {:induction false} DenotedIsWellFormed(e: Expr, ts: seq<Token>)
    requires IsOr(e, ts)
    ensures WellFormed(e)
    decreases |ts|, 3
  {
    if IsAnd(e, ts) {
      AndIsWellFormed(e, ts);
    } else {
      var k :| 0 <= k < |ts| && IsKeyword(ts[k], "or") && IsOr(e.left, ts[..k]) && IsAnd(e.right, ts[k + 1..]);
      DenotedIsWellFormed(e.left, ts[..k]);
      AndIsWellFormed(e.right, ts[k + 1..]);
    }
  }

  lemma {:induction false} AndIsWellFormed(e: Expr, ts: seq<Token>)
    requires IsAnd(e, ts)
    ensures WellFormed(e)
    decreases |ts|, 2
  {
    if IsUnary(e, ts) {
      UnaryIsWellFormed(e, ts);
    } else {
      var k :| 0 <= k < |ts| && IsKeyword(ts[k], "and") && IsAnd(e.left, ts[..k]) && IsUnary(e.right, ts[k + 1..]);
      AndIsWellFormed(e.left, ts[..k]);
      UnaryIsWellFormed(e.right, ts[k + 1..]);
    }
  }

  lemma {:induction false} UnaryIsWellFormed(e: Expr, ts: seq<Token>)
    requires IsUnary(e, ts)
    ensures WellFormed(e)
    decreases |ts|, 1
  {
    if IsPrimary(e, ts) {
      if !IsComparison(e, ts) {
        DenotedIsWellFormed(e, ts[1..|ts| - 1]);
      }
    } else {
      UnaryIsWellFormed(e.inner, ts[1..]);
    }
  }
}
