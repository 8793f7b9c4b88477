/**
 Reading a tokenised condition with the operator precedence of Postgres (section 4.1.6 of the
 PostgreSQL documentation), from loosest to tightest: OR, AND, NOT, IS, comparison, LIKE/ILIKE,
 OPERATOR(...), primary. Also the three-valued meaning of what was read.
 */
module SqlParser {
  import opened Results
  import opened SqlLexer
  import opened LikePattern

  datatype CmpOp = Eq | Ne | Lt | Gt | Le | Ge | Distinct | NotDistinct

  datatype Ast =
    | Column(name: string)
    | Text(value: string)
    | NullLit
    | BoolLit(b: bool)
    | Number(digits: string)
    | Minus(arg: Ast)
    | CastTo(arg: Ast, typeName: string, zoned: bool)
    | InList(arg: Ast, values: seq<Ast>)
    | Call(fn: string, arg: Ast)
    | BinaryOp(symbol: string, l: Ast, r: Ast)
    | Like(ignoreCase: bool, haystack: Ast, pattern: Ast, escape: Option<Ast>)
    | Cmp(op: CmpOp, l: Ast, r: Ast)
    | NullTest(positive: bool, arg: Ast)
    | Neg(arg: Ast)
    | And(l: Ast, r: Ast)
    | Or(l: Ast, r: Ast)

  type Parsed = Option<(Ast, seq<Token>)>

  /** Words that cannot stand for a column. */
  const RESERVED: set<string> :=
    {"and", "or", "not", "is", "null", "true", "false", "in", "like", "ilike", "distinct", "from"}

  predicate IsWord(ts: seq<Token>, i: nat, w: string) { i < |ts| && ts[i] == Word(w) }

  function ComparisonOf(t: Token): Option<CmpOp>
  {
    if t == Operator("=") then Some(Eq)
    else if t == Operator("!=") then Some(Ne)
    else if t == Operator("<") then Some(Lt)
    else if t == Operator(">") then Some(Gt)
    else if t == Operator("<=") then Some(Le)
    else if t == Operator(">=") then Some(Ge)
    else None
  }

  function ParseOr(ts: seq<Token>): (p: Parsed)
    ensures p.Some? ==> |p.value.1| < |ts|
    decreases |ts|, 9
  {
    match ParseAnd(ts)
    case None => None
    case Some((a, rest)) => OrTail(a, rest)
  }

  function OrTail(left: Ast, ts: seq<Token>): (p: Parsed)
    ensures p.Some? ==> |p.value.1| <= |ts|
    decreases |ts|, 10
  {
    if IsWord(ts, 0, "or") then
      match ParseAnd(ts[1..])
      case None => None
      case Some((b, rest)) => OrTail(Or(left, b), rest)
    else Some((left, ts))
  }

  function ParseAnd(ts: seq<Token>): (p: Parsed)
    ensures p.Some? ==> |p.value.1| < |ts|
    decreases |ts|, 7
  {
    match ParseNot(ts)
    case None => None
    case Some((a, rest)) => AndTail(a, rest)
  }

  function AndTail(left: Ast, ts: seq<Token>): (p: Parsed)
    ensures p.Some? ==> |p.value.1| <= |ts|
    decreases |ts|, 8
  {
    if IsWord(ts, 0, "and") then
      match ParseNot(ts[1..])
      case None => None
      case Some((b, rest)) => AndTail(And(left, b), rest)
    else Some((left, ts))
  }

  function ParseNot(ts: seq<Token>): (p: Parsed)
    ensures p.Some? ==> |p.value.1| < |ts|
    decreases |ts|, 6
  {
    if IsWord(ts, 0, "not") then
      match ParseNot(ts[1..])
      case None => None
      case Some((a, rest)) => Some((Neg(a), rest))
    else ParseIs(ts)
  }

  function ParseIs(ts: seq<Token>): (p: Parsed)
    ensures p.Some? ==> |p.value.1| < |ts|
    decreases |ts|, 5
  {
    match ParseCmp(ts)
    case None => None
    case Some((a, rest)) =>
      if !IsWord(rest, 0, "is") then Some((a, rest))
      else if IsWord(rest, 1, "null") then Some((NullTest(true, a), rest[2..]))
      else if IsWord(rest, 1, "not") && IsWord(rest, 2, "null") then Some((NullTest(false, a), rest[3..]))
      else if IsWord(rest, 1, "distinct") && IsWord(rest, 2, "from") then
        DistinctFrom(Distinct, a, rest[3..])
      else if IsWord(rest, 1, "not") && IsWord(rest, 2, "distinct") && IsWord(rest, 3, "from") then
        DistinctFrom(NotDistinct, a, rest[4..])
      else None
  }

  function DistinctFrom(op: CmpOp, left: Ast, ts: seq<Token>): (p: Parsed)
    ensures p.Some? ==> |p.value.1| < |ts|
    decreases |ts|, 5
  {
    match ParseCmp(ts)
    case None => None
    case Some((b, rest)) => Some((Cmp(op, left, b), rest))
  }

  function ParseCmp(ts: seq<Token>): (p: Parsed)
    ensures p.Some? ==> |p.value.1| < |ts|
    decreases |ts|, 4
  {
    match ParseLike(ts)
    case None => None
    case Some((a, rest)) =>
      if rest != [] && ComparisonOf(rest[0]).Some? then
        match ParseLike(rest[1..])
        case None => None
        case Some((b, rest2)) => Some((Cmp(ComparisonOf(rest[0]).value, a, b), rest2))
      else Some((a, rest))
  }

  function ParseLike(ts: seq<Token>): (p: Parsed)
    ensures p.Some? ==> |p.value.1| < |ts|
    decreases |ts|, 3
  {
    match ParseOp(ts)
    case None => None
    case Some((a, rest)) =>
      if IsWord(rest, 0, "like") then LikeTail(false, a, rest[1..])
      else if IsWord(rest, 0, "ilike") then LikeTail(true, a, rest[1..])
      else if IsWord(rest, 0, "in") then
        if |rest| > 1 && rest[1] == LParen then InTail(a, rest[2..]) else None
      else Some((a, rest))
  }

  /** The list of an IN, its opening parenthesis already read. */
  function InTail(arg: Ast, ts: seq<Token>): (p: Parsed)
    ensures p.Some? ==> |p.value.1| < |ts|
    decreases |ts|, 14
  {
    match ParseList(ts)
    case None => None
    case Some((vs, rest)) => Some((InList(arg, vs), rest))
  }

  /** Conditions separated by commas, and the closing parenthesis. */
  function ParseList(ts: seq<Token>): (p: Option<(seq<Ast>, seq<Token>)>)
    ensures p.Some? ==> |p.value.1| < |ts|
    decreases |ts|, 13
  {
    match ParseOr(ts)
    case None => None
    case Some((a, rest)) =>
      if rest == [] then None
      else if rest[0] == RParen then Some(([a], rest[1..]))
      else if rest[0] == Comma then
        match ParseList(rest[1..])
        case None => None
        case Some((vs, rest2)) => Some(([a] + vs, rest2))
      else None
  }

  function LikeTail(ignoreCase: bool, haystack: Ast, ts: seq<Token>): (p: Parsed)
    ensures p.Some? ==> |p.value.1| < |ts|
    decreases |ts|, 3
  {
    match ParseOp(ts)
    case None => None
    case Some((pattern, rest)) =>
      if IsWord(rest, 0, "escape") then
        match ParseOp(rest[1..])
        case None => None
        case Some((esc, rest2)) => Some((Like(ignoreCase, haystack, pattern, Some(esc)), rest2))
      else Some((Like(ignoreCase, haystack, pattern, None), rest))
  }

  function ParseOp(ts: seq<Token>): (p: Parsed)
    ensures p.Some? ==> |p.value.1| < |ts|
    decreases |ts|, 2
  {
    match ParsePrimary(ts)
    case None => None
    case Some((a, rest)) => OpTail(a, rest)
  }

  /** `OPERATOR(pg_catalog.symbol)`, left associative. */
  function OpTail(left: Ast, ts: seq<Token>): (p: Parsed)
    ensures p.Some? ==> |p.value.1| <= |ts|
    decreases |ts|, 3
  {
    if IsWord(ts, 0, "operator") && |ts| > 5 && ts[1] == LParen then
      if ts[2] == Word("pg_catalog") && ts[3] == Dot && ts[4].Operator? && ts[5] == RParen then
        match ParsePrimary(ts[6..])
        case None => None
        case Some((b, rest)) => OpTail(BinaryOp(ts[4].symbol, left, b), rest)
      else None
    else Some((left, ts))
  }

  /** A sign binds less tightly than a cast, and more tightly than any other operator. */
  function ParsePrimary(ts: seq<Token>): (p: Parsed)
    ensures p.Some? ==> |p.value.1| < |ts|
    decreases |ts|, 1
  {
    if ts != [] && ts[0] == Operator("-") then
      match ParsePrimary(ts[1..])
      case None => None
      case Some((a, rest)) => Some((Minus(a), rest))
    else
      match ParseAtom(ts)
      case None => None
      case Some((a, rest)) => CastTail(a, rest)
  }

  predicate IsZoned(ts: seq<Token>)
  {
    && |ts| > 3 && (ts[0] == Word("timestamp") || ts[0] == Word("time"))
    && ts[1] == Word("with") && ts[2] == Word("time") && ts[3] == Word("zone")
  }

  /** `::type`, left associative. */
  function CastTail(left: Ast, ts: seq<Token>): (p: Parsed)
    ensures p.Some? ==> |p.value.1| <= |ts|
    decreases |ts|
  {
    if ts == [] || ts[0] != Cast then Some((left, ts))
    else if |ts| < 2 || !ts[1].Word? || ts[1].word in RESERVED then None
    else if IsZoned(ts[1..]) then CastTail(CastTo(left, ts[1].word, true), ts[5..])
    else CastTail(CastTo(left, ts[1].word, false), ts[2..])
  }

  function ParseAtom(ts: seq<Token>): (p: Parsed)
    ensures p.Some? ==> |p.value.1| < |ts|
    decreases |ts|, 0
  {
    if ts == [] then None
    else match ts[0]
      case LParen => ParseClosed(ts[1..])
      case Str(v) => Some((Text(v), ts[1..]))
      case Number(n) => Some((Ast.Number(n), ts[1..]))
      case Quoted(n) => Some((Column(n), ts[1..]))
      case Word(w) =>
        if w == "null" then Some((NullLit, ts[1..]))
        else if w == "true" || w == "false" then Some((BoolLit(w == "true"), ts[1..]))
        else if w in RESERVED then None
        else if |ts| > 1 && ts[1] == LParen then
          match ParseClosed(ts[2..])
          case None => None
          case Some((a, rest)) => Some((Call(w, a), rest))
        else Some((Column(w), ts[1..]))
      case _ => None
  }

  /** A condition and its closing parenthesis. */
  function ParseClosed(ts: seq<Token>): (p: Parsed)
    ensures p.Some? ==> |p.value.1| < |ts|
    decreases |ts|, 12
  {
    match ParseOr(ts)
    case None => None
    case Some((a, rest)) => if rest != [] && rest[0] == RParen then Some((a, rest[1..])) else None
  }

  /** A whole WHERE condition. */
  function ParseCondition(text: string): Option<Ast>
  {
    match ParseOr(Lex(text))
    case Some((a, rest)) => if rest == [] then Some(a) else None
    case None => None
  }

  // ---------------------------------------------------------------- three-valued meaning

  /** Values of other types are only told apart; what they are is up to the engines. */
  datatype Value = Null | Str(s: string) | Bool(b: bool) | OtherValue(id: int)

  /**
   The operators whose meaning the translation does not touch, and the row. `number`, `minus` and
   `cast` are the values of literals. `like` is used for every LIKE whose escape character is not
   the default one, and for every ILIKE.
   */
  datatype World = World(
    column: string -> Value,
    number: string -> Value,
    minus: Value -> Value,
    cast: (string, bool, Value) -> Value,
    call: (string, Value) -> Value,
    compare: (CmpOp, Value, Value) -> bool,
    like: (bool, Value, Value, Value) -> Value)

  function Not3(a: Value): Value { if a.Bool? then Bool(!a.b) else Null }

  function And3(a: Value, b: Value): Value
  {
    if a == Bool(false) || b == Bool(false) then Bool(false)
    else if a == Bool(true) && b == Bool(true) then Bool(true)
    else Null
  }

  function Or3(a: Value, b: Value): Value { Not3(And3(Not3(a), Not3(b))) }

  function Compare3(w: World, op: CmpOp, a: Value, b: Value): Value
  {
    if op == Distinct || op == NotDistinct then
      var same := if a == Null || b == Null then a == b else w.compare(Eq, a, b);
      Bool(same == (op == NotDistinct))
    else if a == Null || b == Null then Null
    else Bool(w.compare(op, a, b))
  }

  /** LIKE with the default escape character. */
  function DefaultLike(h: Value, p: Value): Value
  {
    if h.Str? && p.Str? then Bool(LikeMatch(p.s, h.s)) else Null
  }

  function Like3(w: World, ignoreCase: bool, h: Value, p: Value, esc: Value): Value
  {
    if !ignoreCase && esc == Value.Str("\\") then DefaultLike(h, p) else w.like(ignoreCase, h, p, esc)
  }

  /** The operators `~~` and `!~~` are LIKE and NOT LIKE with the default escape character. */
  function PgOperator(o: string, a: Value, b: Value): Value
  {
    if o == "~~" then DefaultLike(a, b)
    else if o == "!~~" then Not3(DefaultLike(a, b))
    else Null
  }

  /** IN: equal to one of the values, three-valued. */
  function In3(w: World, x: Value, vs: seq<Value>): Value
  {
    if vs == [] then Bool(false) else Or3(Compare3(w, Eq, x, vs[0]), In3(w, x, vs[1..]))
  }

  function PgEvalAll(w: World, asts: seq<Ast>): seq<Value>
    decreases asts, 0
  {
    if asts == [] then [] else [PgEval(w, asts[0])] + PgEvalAll(w, asts[1..])
  }

  /** What Postgres computes. */
  function PgEval(w: World, a: Ast): Value
    decreases a, 1
  {
    match a
    case Column(n) => w.column(n)
    case Text(v) => Value.Str(v)
    case NullLit => Null
    case BoolLit(b) => Bool(b)
    case Number(n) => w.number(n)
    case Minus(x) => w.minus(PgEval(w, x))
    case CastTo(x, t, zoned) => w.cast(t, zoned, PgEval(w, x))
    case InList(x, vs) => In3(w, PgEval(w, x), PgEvalAll(w, vs))
    case Call(f, x) => w.call(f, PgEval(w, x))
    case BinaryOp(o, l, r) => PgOperator(o, PgEval(w, l), PgEval(w, r))
    case Like(ic, h, p, esc) =>
      Like3(w, ic, PgEval(w, h), PgEval(w, p), if esc.Some? then PgEval(w, esc.value) else Value.Str("\\"))
    case Cmp(op, l, r) => Compare3(w, op, PgEval(w, l), PgEval(w, r))
    case NullTest(positive, x) => Bool((PgEval(w, x) == Null) == positive)
    case Neg(x) => Not3(PgEval(w, x))
    case And(l, r) => And3(PgEval(w, l), PgEval(w, r))
    case Or(l, r) => Or3(PgEval(w, l), PgEval(w, r))
  }

  lemma {:induction false} NegationValue(w: World, a: Ast)
    ensures PgEval(w, Neg(a)) == Not3(PgEval(w, a))
  {
  }

  lemma {:induction false} ComparisonValue(w: World, op: CmpOp, a: Ast, r: Ast)
    ensures PgEval(w, Cmp(op, a, r)) == Compare3(w, op, PgEval(w, a), PgEval(w, r))
  {
  }

  // ---------------------------------------------------------------- parsing pieces

  /** Tokens after which no operator below NOT can continue a condition. */
  predicate Stops(rest: seq<Token>)
  {
    rest == [] || rest[0] == RParen || rest[0] == Comma || rest[0] == Word("and") || rest[0] == Word("or")
  }

  /** Tokens that do not continue a name or a literal. */
  predicate EndsPrimary(rest: seq<Token>)
  {
    rest == [] || (rest[0] != LParen && rest[0] != Cast && rest[0] != Word("with"))
  }

  /** The tokens are one primary, unless a parenthesis, a cast or the rest of a type name follows. */
  ghost predicate IsPrimary(toks: seq<Token>, a: Ast)
  {
    && toks != []
    && toks[0] != Word("not")
    && forall rest {:trigger ParsePrimary(toks + rest)} :: EndsPrimary(rest) ==> ParsePrimary(toks + rest) == Some((a, rest))
  }

  /** The tokens are one operand of AND, OR and parentheses. */
  ghost predicate IsOperand(toks: seq<Token>, a: Ast)
  {
    forall rest {:trigger ParseNot(toks + rest)} :: Stops(rest) ==> ParseNot(toks + rest) == Some((a, rest))
  }

  /** No operator continues a primary here. */
  predicate EndsOp(rest: seq<Token>)
  {
    EndsPrimary(rest) && (rest == [] || rest[0] != Word("operator"))
  }

  lemma {:induction false} PrimaryIsOp(toks: seq<Token>, a: Ast, rest: seq<Token>)
    requires IsPrimary(toks, a) && EndsOp(rest)
    ensures ParseOp(toks + rest) == Some((a, rest))
  {
  }

  lemma {:induction false} PrimaryIsLike(toks: seq<Token>, a: Ast, rest: seq<Token>)
    requires IsPrimary(toks, a) && EndsOp(rest)
    requires rest == [] || (rest[0] != Word("like") && rest[0] != Word("ilike") && rest[0] != Word("in"))
    ensures ParseLike(toks + rest) == Some((a, rest))
  {
    PrimaryIsOp(toks, a, rest);
  }

  /** What may follow a primary that no comparison, LIKE or OPERATOR continues. */
  lemma {:induction false} StopFacts(rest: seq<Token>)
    requires Stops(rest) || rest[0] == Word("is")
    ensures EndsOp(rest)
    ensures rest == [] || (rest[0] != Word("like") && rest[0] != Word("ilike") && rest[0] != Word("in"))
    ensures rest == [] || ComparisonOf(rest[0]).None?
  {
    assert |"is"| == 2 && |"or"| == 2 && |"and"| == 3 && |"like"| == 4 && |"ilike"| == 5 && |"operator"| == 8;
    assert "in"[0] == 'i' && "in"[1] == 'n' && "is"[1] == 's' && "or"[0] == 'o' && |"with"| == 4;
  }

  lemma {:induction false} LikeIsCmp(ts: seq<Token>, a: Ast, rest: seq<Token>)
    requires ParseLike(ts) == Some((a, rest))
    requires rest == [] || ComparisonOf(rest[0]).None?
    ensures ParseCmp(ts) == Some((a, rest))
  {
  }

  lemma {:induction false} PrimaryIsCmp(toks: seq<Token>, a: Ast, rest: seq<Token>)
    requires IsPrimary(toks, a)
    requires Stops(rest) || rest[0] == Word("is")
    ensures ParseCmp(toks + rest) == Some((a, rest))
  {
    StopFacts(rest);
    PrimaryIsLike(toks, a, rest);
    LikeIsCmp(toks + rest, a, rest);
  }

  lemma {:induction false} PrimaryIsIs(toks: seq<Token>, a: Ast, rest: seq<Token>)
    requires IsPrimary(toks, a) && Stops(rest)
    ensures ParseIs(toks + rest) == Some((a, rest))
  {
    PrimaryIsCmp(toks, a, rest);
  }

  lemma {:induction false} PrimaryIsOperand(toks: seq<Token>, a: Ast)
    requires IsPrimary(toks, a)
    ensures IsOperand(toks, a)
  {
    forall rest | Stops(rest)
      ensures ParseNot(toks + rest) == Some((a, rest))
    {
      PrimaryIsIs(toks, a, rest);
      assert (toks + rest)[0] == toks[0];
    }
  }

  /** A parenthesised list read to its end is a primary. */
  lemma {:induction false} ClosedIsPrimary(toks: seq<Token>, a: Ast)
    requires forall rest :: ParseOr(toks + ([RParen] + rest)) == Some((a, [RParen] + rest))
    ensures IsPrimary([LParen] + toks + [RParen], a)
  {
    var all := [LParen] + toks + [RParen];
    forall rest | EndsPrimary(rest)
      ensures ParsePrimary(all + rest) == Some((a, rest))
    {
      assert (all + rest)[1..] == toks + ([RParen] + rest);
      assert ([RParen] + rest)[1..] == rest;
      assert (all + rest)[0] == LParen;
      assert ParseClosed(toks + ([RParen] + rest)) == Some((a, rest));
      assert ParseAtom(all + rest) == Some((a, rest));
    }
  }

  /** An operand in parentheses is a primary. */
  lemma {:induction false} OperandIsClosed(toks: seq<Token>, a: Ast)
    requires IsOperand(toks, a)
    ensures forall rest :: ParseOr(toks + ([RParen] + rest)) == Some((a, [RParen] + rest))
  {
    forall rest
      ensures ParseOr(toks + ([RParen] + rest)) == Some((a, [RParen] + rest))
    {
      var r := [RParen] + rest;
      assert Stops(r);
      assert ParseAnd(toks + r) == Some((a, r));
    }
  }

  // ---------------------------------------------------------------- joined lists

  /** Tokens of operands joined by a connective word. */
  function Joined(parts: seq<seq<Token>>, isAnd: bool): seq<Token>
    requires parts != []
  {
    if |parts| == 1 then parts[0]
    else Joined(parts[..|parts| - 1], isAnd) + [Word(if isAnd then "and" else "or")] + parts[|parts| - 1]
  }

  /** The left-nested tree Postgres builds for them. */
  function Nested(asts: seq<Ast>, isAnd: bool): Ast
    requires asts != []
  {
    if |asts| == 1 then asts[0]
    else
      var l := Nested(asts[..|asts| - 1], isAnd);
      var r := asts[|asts| - 1];
      if isAnd then And(l, r) else Or(l, r)
  }

  ghost predicate AllOperands(parts: seq<seq<Token>>, asts: seq<Ast>)
  {
    |parts| == |asts| && forall i :: 0 <= i < |parts| ==> IsOperand(parts[i], asts[i])
  }

  /** The state the reader is in after the first `parts` of a list: it still looks for more. */
  lemma {:induction false} ReadJoined(parts: seq<seq<Token>>, asts: seq<Ast>, isAnd: bool, rest: seq<Token>)
    requires parts != [] && AllOperands(parts, asts) && Stops(rest)
    requires !isAnd ==> !IsWord(rest, 0, "and")
    ensures isAnd ==> ParseAnd(Joined(parts, isAnd) + rest) == AndTail(Nested(asts, isAnd), rest)
    ensures !isAnd ==> ParseOr(Joined(parts, isAnd) + rest) == OrTail(Nested(asts, isAnd), rest)
    decreases |parts|
  {
    var n := |parts|;
    if n == 1 {
      assert IsOperand(parts[0], asts[0]);
      assert ParseNot(parts[0] + rest) == Some((asts[0], rest));
      assert !isAnd ==> ParseAnd(parts[0] + rest) == Some((asts[0], rest));
    } else {
      var word := Word(if isAnd then "and" else "or");
      var rest1 := [word] + (parts[n - 1] + rest);
      assert IsOperand(parts[n - 1], asts[n - 1]);
      ReadJoined(parts[..n - 1], asts[..n - 1], isAnd, rest1);
      assert Joined(parts, isAnd) + rest == Joined(parts[..n - 1], isAnd) + rest1;
      assert rest1[1..] == parts[n - 1] + rest;
      var last := Some((asts[n - 1], rest));
      assert ParseNot(parts[n - 1] + rest) == last;
      if isAnd {
        assert IsWord(rest1, 0, "and");
      } else {
        assert ParseAnd(parts[n - 1] + rest) == last;
        assert IsWord(rest1, 0, "or");
      }
    }
  }

  /** A parenthesised conjunction or disjunction of operands is a primary with the nested tree. */
  lemma {:induction false} JoinedIsPrimary(parts: seq<seq<Token>>, asts: seq<Ast>, isAnd: bool)
    requires parts != [] && AllOperands(parts, asts)
    ensures IsPrimary([LParen] + Joined(parts, isAnd) + [RParen], Nested(asts, isAnd))
  {
    forall rest
      ensures ParseOr(Joined(parts, isAnd) + ([RParen] + rest)) == Some((Nested(asts, isAnd), [RParen] + rest))
    {
      ReadJoined(parts, asts, isAnd, [RParen] + rest);
    }
    ClosedIsPrimary(Joined(parts, isAnd), Nested(asts, isAnd));
  }

  /** Unparenthesised, at the top of a condition. */
  lemma {:induction false} JoinedIsCondition(parts: seq<seq<Token>>, asts: seq<Ast>, isAnd: bool)
    requires parts != [] && AllOperands(parts, asts)
    ensures ParseOr(Joined(parts, isAnd)) == Some((Nested(asts, isAnd), []))
  {
    assert Joined(parts, isAnd) + [] == Joined(parts, isAnd);
    ReadJoined(parts, asts, isAnd, []);
  }

  /**
   The n-ary three-valued connectives, by which operand values occur. A connective of one operand
   is that operand.
   */
  function Connect(isAnd: bool, values: seq<Value>): Value
  {
    if |values| == 1 then values[0]
    else if isAnd then
      if Bool(false) in values then Bool(false)
      else if forall v :: v in values ==> v == Bool(true) then Bool(true)
      else Null
    else
      if Bool(true) in values then Bool(true)
      else if forall v :: v in values ==> v == Bool(false) then Bool(false)
      else Null
  }

  ghost function EvalAll(w: World, asts: seq<Ast>): (vs: seq<Value>)
    ensures |vs| == |asts| && forall i :: 0 <= i < |vs| ==> vs[i] == PgEval(w, asts[i])
  {
    seq(|asts|, i requires 0 <= i < |asts| => PgEval(w, asts[i]))
  }

  lemma {:induction false} NestedMeaning(w: World, asts: seq<Ast>, isAnd: bool)
    requires asts != []
    ensures PgEval(w, Nested(asts, isAnd)) == Connect(isAnd, EvalAll(w, asts))
    decreases |asts|
  {
    var n := |asts|;
    var vs := EvalAll(w, asts);
    if n == 1 {
      assert vs == [vs[0]];
    } else {
      var init := asts[..n - 1];
      NestedMeaning(w, init, isAnd);
      assert vs == EvalAll(w, init) + [vs[n - 1]];
      ConnectOneMore(EvalAll(w, init), vs[n - 1], isAnd);
    }
  }

  lemma {:induction false} ConnectOneMore(vs: seq<Value>, v: Value, isAnd: bool)
    requires vs != []
    ensures Connect(isAnd, vs + [v]) == if isAnd then And3(Connect(isAnd, vs), v) else Or3(Connect(isAnd, vs), v)
  {
    var all := vs + [v];
    assert forall x :: x in all <==> x in vs || x == v;
    if |vs| == 1 {
      assert vs == [vs[0]];
      assert all == [vs[0], v];
    } else {
      assert Connect(isAnd, vs) == Null || Connect(isAnd, vs).Bool?;
    }
    assert v in all && vs[0] in all;
  }
}
