/**
 Printing a bound DuckDB expression as Postgres text (`ExpressionToString`), and what the expression
 means in DuckDB.
 */
module ExpressionPushdown {
  import opened Results
  import opened LikePattern
  import opened SqlLexer
  import opened SqlParser

  datatype SqlType = Varchar | Boolean | OtherType

  datatype Constant = NullConst | TextConst(text: string) | OtherConst

  /** The bound expressions the printer distinguishes; `Unprintable` is its default case. */
  datatype Expr =
    | Not(arg: Expr)
    | IsNull(arg: Expr)
    | IsNotNull(arg: Expr)
    | Compare(op: CmpOp, left: Expr, right: Expr)
    | Between(input: Expr, lower: Expr, upper: Expr, lowerInclusive: bool, upperInclusive: bool)
    | Conjunction(isAnd: bool, children: seq<Expr>)
    | Function(name: string, args: seq<Expr>, isOperator: bool, resultType: SqlType)
    | ColumnRef(colType: SqlType)
    | Const(constant: Constant, constType: SqlType)
    | Unprintable(exprType: SqlType)

  function ReturnType(e: Expr): SqlType
  {
    match e
    case Function(_, _, _, t) => t
    case ColumnRef(t) => t
    case Const(_, t) => t
    case Unprintable(t) => t
    case _ => Boolean
  }

  // ---------------------------------------------------------------- the printer

  /** `ExpressionTypeToOperator`. */
  function OperatorText(op: CmpOp): string
  {
    match op
    case Eq => "="
    case Ne => "!="
    case Lt => "<"
    case Gt => ">"
    case Le => "<="
    case Ge => ">="
    case Distinct => "IS DISTINCT FROM"
    case NotDistinct => "IS NOT DISTINCT FROM"
  }

  predicate IsNeedleFunction(name: string) { name == "contains" || name == "suffix" || name == "prefix" }
  predicate IsEscapeFunction(name: string) { name == "like_escape" || name == "ilike_escape" }
  predicate IsCaseFunction(name: string) { name == "lower" || name == "upper" }
  predicate IsLikeOperator(name: string) { name == "~~" || name == "!~~" }

  /** The needle of contains, suffix or prefix as a quoted LIKE pattern. */
  function FuncArgToLikeString(name: string, needle: Expr): Option<string>
    requires IsNeedleFunction(name)
  {
    if !needle.Const? then None
    else match needle.constant
      case NullConst => Some("NULL")
      case OtherConst => None
      case TextConst(v) =>
        var s := EscapeNeedle(v);
        if name == "contains" then Some("'%" + s + "%'")
        else if name == "suffix" then Some("'%" + s + "'")
        else Some("'" + s + "%'")
  }

  function ExpressionToString(e: Expr, col: string): Option<string>
    decreases e, 1
  {
    match e
    case Not(a) =>
      (match ExpressionToString(a, col)
       case None => None
       case Some(s) => Some("NOT (" + s + ")"))
    case IsNull(a) =>
      (match ExpressionToString(a, col)
       case None => None
       case Some(s) => Some("(" + s + ") " + "IS NULL"))
    case IsNotNull(a) =>
      (match ExpressionToString(a, col)
       case None => None
       case Some(s) => Some("(" + s + ") " + "IS NOT NULL"))
    case Compare(op, l, r) =>
      (match (ExpressionToString(l, col), ExpressionToString(r, col))
       case (Some(a), Some(b)) => Some(ComparisonText(a, op, b))
       case _ => None)
    case Between(x, lo, hi, loInc, hiInc) =>
      (match (ExpressionToString(x, col), ExpressionToString(lo, col), ExpressionToString(hi, col))
       case (Some(i), Some(a), Some(b)) =>
         Some("(" + ComparisonText(i, LowerOp(loInc), a) + " AND " + ComparisonText(i, UpperOp(hiInc), b) + ")")
       case _ => None)
    case Conjunction(isAnd, children) =>
      (match JoinChildren(children, isAnd, col, "")
       case None => None
       case Some(s) => Some("(" + s + ")"))
    case Function(name, args, isOperator, _) =>
      if IsNeedleFunction(name) || IsEscapeFunction(name) then FuncToLikeString(e, col)
      else if IsCaseFunction(name) then
        if args == [] then None
        else match ExpressionToString(args[0], col)
          case None => None
          case Some(s) => Some(name + "(" + s + ")")
      else if IsLikeOperator(name) && |args| == 2 && isOperator then
        if ReturnType(args[0]) != Varchar then None
        else match (ExpressionToString(args[0], col), ExpressionToString(args[1], col))
          case (Some(a), Some(b)) => Some(a + " OPERATOR(pg_catalog." + name + ") " + b)
          case _ => None
      else None
    case ColumnRef(_) => Some(col)
    case Const(NullConst, _) => Some("NULL")
    case Const(TextConst(v), _) => Some(Enclose(v, '\''))
    case Const(OtherConst, _) => None
    case Unprintable(_) => None
  }

  function ComparisonText(a: string, op: CmpOp, b: string): string
  {
    "(" + a + " " + OperatorText(op) + " " + b + ")"
  }

  function LowerOp(inclusive: bool): CmpOp { if inclusive then Ge else Gt }
  function UpperOp(inclusive: bool): CmpOp { if inclusive then Le else Lt }

  /** The loop over the children of a conjunction; `acc` is `query_filters`. */
  function JoinChildren(children: seq<Expr>, isAnd: bool, col: string, acc: string): Option<string>
    decreases children, 0
  {
    if children == [] then Some(acc)
    else match ExpressionToString(children[0], col)
      case None => None
      case Some(s) =>
        var sep := if acc != [] then " " + (if isAnd then "AND" else "OR") + " " else "";
        JoinChildren(children[1..], isAnd, col, acc + sep + s)
  }

  function FuncToLikeString(e: Expr, col: string): Option<string>
    requires e.Function? && (IsNeedleFunction(e.name) || IsEscapeFunction(e.name))
    decreases e, 0
  {
    if |e.args| < 2 || |e.args| > 3 then None
    else if ReturnType(e.args[0]) != Varchar then None
    else
      var needle := if IsEscapeFunction(e.name) then ExpressionToString(e.args[1], col)
                    else FuncArgToLikeString(e.name, e.args[1]);
      match (ExpressionToString(e.args[0], col), needle)
      case (Some(h), Some(n)) =>
        var s := h + (if e.name == "ilike_escape" then " ILIKE " else " LIKE ") + n;
        if |e.args| == 3 then
          match ExpressionToString(e.args[2], col)
          case None => None
          case Some(x) => if x != "'\\'" then Some(s + " ESCAPE " + x) else Some(s)
        else Some(s)
      case _ => None
  }

  // ---------------------------------------------------------------- what DuckDB means

  ghost predicate NeedleHolds(name: string, h: string, n: string)
  {
    if name == "contains" then Contains(h, n)
    else if name == "prefix" then HasPrefix(h, n)
    else HasSuffix(h, n)
  }

  ghost function DuckEval(w: World, name: string, e: Expr): Value
    decreases e, 1
  {
    match e
    case Not(a) => Not3(DuckEval(w, name, a))
    case IsNull(a) => Bool(DuckEval(w, name, a) == Null)
    case IsNotNull(a) => Bool(DuckEval(w, name, a) != Null)
    case Compare(op, l, r) => Compare3(w, op, DuckEval(w, name, l), DuckEval(w, name, r))
    case Between(x, lo, hi, loInc, hiInc) =>
      var i := DuckEval(w, name, x);
      And3(Compare3(w, if loInc then Ge else Gt, i, DuckEval(w, name, lo)),
           Compare3(w, if hiInc then Le else Lt, i, DuckEval(w, name, hi)))
    case Conjunction(isAnd, children) => Connect(isAnd, DuckEvalAll(w, name, children))
    case Function(f, args, _, _) => DuckCall(w, f, DuckEvalAll(w, name, args))
    case ColumnRef(_) => w.column(name)
    case Const(TextConst(v), _) => Value.Str(v)
    case Const(_, _) => Null
    case Unprintable(_) => Null
  }

  ghost function DuckEvalAll(w: World, name: string, es: seq<Expr>): (vs: seq<Value>)
    ensures |vs| == |es| && forall i :: 0 <= i < |vs| ==> vs[i] == DuckEval(w, name, es[i])
    decreases es, 0
  {
    if es == [] then [] else [DuckEval(w, name, es[0])] + DuckEvalAll(w, name, es[1..])
  }

  ghost function DuckCall(w: World, f: string, vs: seq<Value>): Value
  {
    if IsNeedleFunction(f) && |vs| == 2 then
      if vs[0].Str? && vs[1].Str? then Bool(NeedleHolds(f, vs[0].s, vs[1].s)) else Null
    else if IsEscapeFunction(f) && 2 <= |vs| <= 3 then
      Like3(w, f == "ilike_escape", vs[0], vs[1], if |vs| == 3 then vs[2] else Value.Str("\\"))
    else if IsCaseFunction(f) && |vs| == 1 then w.call(f, vs[0])
    else if IsLikeOperator(f) && |vs| == 2 then DuckLike(f, vs[0], vs[1])
    else Null
  }

  /** `~~` and `!~~` in DuckDB, which has no default escape character. */
  ghost function DuckLike(f: string, h: Value, p: Value): Value
  {
    if h.Str? && p.Str? then Bool(PlainMatch(p.s, h.s) == (f == "~~")) else Null
  }

  // ---------------------------------------------------------------- which trees

  /** Expressions that print as one primary: a name, a literal, a call or a parenthesised text. */
  predicate Atomic(e: Expr)
  {
    || e.Compare? || e.Between? || e.Conjunction? || e.ColumnRef? || e.Const?
    || (e.Function? && IsCaseFunction(e.name))
  }

  /**
   The operands of comparisons, BETWEEN and the LIKE family are atomic (every text-valued operand
   is, see `TypedIsSafe`), conjunctions have children, and functions have the arguments the binder gives them.
   */
  predicate Safe(e: Expr)
    decreases e, 1
  {
    match e
    case Not(a) => Safe(a)
    case IsNull(a) => Safe(a)
    case IsNotNull(a) => Safe(a)
    case Compare(_, l, r) => Safe(l) && Safe(r) && Atomic(l) && Atomic(r)
    case Between(x, lo, hi, _, _) =>
      Safe(x) && Safe(lo) && Safe(hi) && Atomic(x) && Atomic(lo) && Atomic(hi)
    case Conjunction(_, children) => children != [] && AllSafe(children)
    case Function(f, args, _, _) =>
      && AllSafe(args)
      && (IsNeedleFunction(f) ==> |args| == 2)
      && (IsCaseFunction(f) ==> |args| == 1)
      && (IsNeedleFunction(f) || IsEscapeFunction(f) || IsLikeOperator(f) ==>
            forall i :: 0 <= i < |args| ==> Atomic(args[i]))
    case _ => true
  }

  predicate AllSafe(es: seq<Expr>)
    ensures AllSafe(es) <==> forall i :: 0 <= i < |es| ==> Safe(es[i])
    decreases es, 0
  {
    es == [] || (Safe(es[0]) && AllSafe(es[1..]))
  }

  /**
   The types the binder gives: comparisons and the LIKE family are over text, lower and upper give
   text, everything else that is printed gives a boolean.
   */
  predicate TextTyped(e: Expr)
    decreases e, 1
  {
    match e
    case Not(a) => TextTyped(a)
    case IsNull(a) => TextTyped(a)
    case IsNotNull(a) => TextTyped(a)
    case Compare(_, l, r) => TextTyped(l) && TextTyped(r) && ReturnType(l) == Varchar && ReturnType(r) == Varchar
    case Between(x, lo, hi, _, _) =>
      && TextTyped(x) && TextTyped(lo) && TextTyped(hi)
      && ReturnType(x) == Varchar && ReturnType(lo) == Varchar && ReturnType(hi) == Varchar
    case Conjunction(_, children) => children != [] && AllTextTyped(children)
    case Function(f, args, _, t) =>
      && AllTextTyped(args)
      && (IsCaseFunction(f) ==> |args| == 1 && t == Varchar)
      && (IsNeedleFunction(f) ==> |args| == 2)
      && (IsNeedleFunction(f) || IsEscapeFunction(f) || IsLikeOperator(f) ==>
            t == Boolean && forall i :: 0 <= i < |args| ==> ReturnType(args[i]) == Varchar)
    case _ => true
  }

  predicate AllTextTyped(es: seq<Expr>)
    ensures AllTextTyped(es) <==> forall i :: 0 <= i < |es| ==> TextTyped(es[i])
    decreases es, 0
  {
    es == [] || (TextTyped(es[0]) && AllTextTyped(es[1..]))
  }

  /** A printable expression of type text is a column, a constant, or a call of lower or upper. */
  lemma {:induction false} TextIsAtomic(e: Expr, col: string)
    requires TextTyped(e) && ReturnType(e) == Varchar && ExpressionToString(e, col).Some?
    ensures Atomic(e)
  {
  }

  /** Whatever is printable and typed as the binder types it is safe. */
  lemma {:induction false} TypedIsSafe(e: Expr, col: string)
    requires TextTyped(e) && ExpressionToString(e, col).Some?
    ensures Safe(e)
    decreases e, 1
  {
    match e
    case Not(a) => TypedIsSafe(a, col);
    case IsNull(a) => TypedIsSafe(a, col);
    case IsNotNull(a) => TypedIsSafe(a, col);
    case Compare(_, l, r) =>
      TypedIsSafe(l, col);
      TypedIsSafe(r, col);
      TextIsAtomic(l, col);
      TextIsAtomic(r, col);
    case Between(x, lo, hi, _, _) =>
      TypedIsSafe(x, col);
      TypedIsSafe(lo, col);
      TypedIsSafe(hi, col);
      TextIsAtomic(x, col);
      TextIsAtomic(lo, col);
      TextIsAtomic(hi, col);
    case Conjunction(isAnd, children) => ChildrenAreSafe(children, isAnd, col, "");
    case Function(_, args, _, _) =>
      forall i | 0 <= i < |args| ensures Safe(args[i]) && (ReturnType(args[i]) == Varchar ==> Atomic(args[i])) {
        ArgumentIsPrinted(e, col, i);
        if ExpressionToString(args[i], col).Some? {
          TypedIsSafe(args[i], col);
          if ReturnType(args[i]) == Varchar {
            TextIsAtomic(args[i], col);
          }
        }
      }
    case _ =>
  }

  /** Every argument of a printable function is printed, or is the constant needle. */
  lemma {:induction false} ArgumentIsPrinted(e: Expr, col: string, i: nat)
    requires e.Function? && TextTyped(e) && ExpressionToString(e, col).Some? && i < |e.args|
    ensures ExpressionToString(e.args[i], col).Some? || e.args[i].Const?
  {
  }

  lemma {:induction false} ChildrenAreSafe(es: seq<Expr>, isAnd: bool, col: string, acc: string)
    requires AllTextTyped(es) && JoinChildren(es, isAnd, col, acc).Some?
    ensures AllSafe(es)
    decreases es, 0
  {
    if es != [] {
      TypedIsSafe(es[0], col);
      var sep := if acc != [] then " " + (if isAnd then "AND" else "OR") + " " else "";
      ChildrenAreSafe(es[1..], isAnd, col, acc + sep + ExpressionToString(es[0], col).value);
    }
  }

  /** On this row no pattern of `~~` or `!~~` holds a backslash. */
  ghost predicate PlainPatterns(w: World, name: string, e: Expr)
    decreases e, 1
  {
    match e
    case Not(a) => PlainPatterns(w, name, a)
    case IsNull(a) => PlainPatterns(w, name, a)
    case IsNotNull(a) => PlainPatterns(w, name, a)
    case Compare(_, l, r) => PlainPatterns(w, name, l) && PlainPatterns(w, name, r)
    case Between(x, lo, hi, _, _) => PlainPatterns(w, name, x) && PlainPatterns(w, name, lo) && PlainPatterns(w, name, hi)
    case Conjunction(_, children) => AllPlain(w, name, children)
    case Function(f, args, _, _) =>
      && AllPlain(w, name, args)
      && (IsLikeOperator(f) && |args| == 2 ==> NoBackslash(DuckEval(w, name, args[1])))
    case _ => true
  }

  predicate NoBackslash(v: Value) { v.Str? ==> '\\' !in v.s }

  ghost predicate AllPlain(w: World, name: string, es: seq<Expr>)
    ensures AllPlain(w, name, es) <==> forall i :: 0 <= i < |es| ==> PlainPatterns(w, name, es[i])
    decreases es, 0
  {
    es == [] || (PlainPatterns(w, name, es[0]) && AllPlain(w, name, es[1..]))
  }

  /** All patterns of `~~` and `!~~` are constants without a backslash: then the row does not matter. */
  predicate ConstantPatterns(e: Expr)
    decreases e, 1
  {
    match e
    case Not(a) => ConstantPatterns(a)
    case IsNull(a) => ConstantPatterns(a)
    case IsNotNull(a) => ConstantPatterns(a)
    case Compare(_, l, r) => ConstantPatterns(l) && ConstantPatterns(r)
    case Between(x, lo, hi, _, _) => ConstantPatterns(x) && ConstantPatterns(lo) && ConstantPatterns(hi)
    case Conjunction(_, children) => AllConstantPatterns(children)
    case Function(f, args, _, _) =>
      && AllConstantPatterns(args)
      && (IsLikeOperator(f) && |args| == 2 ==> args[1].Const? && (args[1].constant.TextConst? ==> '\\' !in args[1].constant.text))
    case _ => true
  }

  predicate AllConstantPatterns(es: seq<Expr>)
    ensures AllConstantPatterns(es) <==> forall i :: 0 <= i < |es| ==> ConstantPatterns(es[i])
    decreases es, 0
  {
    es == [] || (ConstantPatterns(es[0]) && AllConstantPatterns(es[1..]))
  }

  lemma {:induction false} ConstantPatternsArePlain(w: World, name: string, e: Expr)
    requires ConstantPatterns(e)
    ensures PlainPatterns(w, name, e)
    decreases e
  {
    match e
    case Not(a) => ConstantPatternsArePlain(w, name, a);
    case IsNull(a) => ConstantPatternsArePlain(w, name, a);
    case IsNotNull(a) => ConstantPatternsArePlain(w, name, a);
    case Compare(_, l, r) =>
      ConstantPatternsArePlain(w, name, l);
      ConstantPatternsArePlain(w, name, r);
    case Between(x, lo, hi, _, _) =>
      ConstantPatternsArePlain(w, name, x);
      ConstantPatternsArePlain(w, name, lo);
      ConstantPatternsArePlain(w, name, hi);
    case Conjunction(_, children) =>
      forall i | 0 <= i < |children| ensures PlainPatterns(w, name, children[i]) {
        ConstantPatternsArePlain(w, name, children[i]);
      }
    case Function(_, args, _, _) =>
      forall i | 0 <= i < |args| ensures PlainPatterns(w, name, args[i]) {
        ConstantPatternsArePlain(w, name, args[i]);
      }
    case _ =>
  }

  /** The quoted form of a column name: plain when it is a harmless word, else in double quotes. */
  predicate IsColumnText(col: string, name: string)
  {
    || col == Enclose(name, '"')
    || (col == name && IsWordText(name) && name !in RESERVED && forall i :: 0 <= i < |name| ==> !IsUpper(name[i]))
  }

  function ColumnToken(col: string, name: string): Token
  {
    if col == Enclose(name, '"') then Quoted(name) else Word(name)
  }

  // ---------------------------------------------------------------- which expressions are printed

  /** The expressions that can be pushed down, by their form alone. */
  predicate Printable(e: Expr)
    decreases e, 1
  {
    match e
    case Not(a) => Printable(a)
    case IsNull(a) => Printable(a)
    case IsNotNull(a) => Printable(a)
    case Compare(_, l, r) => Printable(l) && Printable(r)
    case Between(x, lo, hi, _, _) => Printable(x) && Printable(lo) && Printable(hi)
    case Conjunction(_, children) => AllPrintable(children)
    case Function(f, args, isOperator, _) =>
      if f in {"contains", "prefix", "suffix"} then
        && 2 <= |args| <= 3 && ReturnType(args[0]) == Varchar && Printable(args[0])
        && args[1].Const? && !args[1].constant.OtherConst? && (|args| == 3 ==> Printable(args[2]))
      else if f in {"like_escape", "ilike_escape"} then
        2 <= |args| <= 3 && ReturnType(args[0]) == Varchar && AllPrintable(args)
      else if f in {"lower", "upper"} then args != [] && Printable(args[0])
      else f in {"~~", "!~~"} && |args| == 2 && isOperator && ReturnType(args[0]) == Varchar && AllPrintable(args)
    case ColumnRef(_) => true
    case Const(c, _) => !c.OtherConst?
    case Unprintable(_) => false
  }

  predicate AllPrintable(es: seq<Expr>)
    ensures AllPrintable(es) <==> forall i :: 0 <= i < |es| ==> Printable(es[i])
    decreases es, 0
  {
    es == [] || (Printable(es[0]) && AllPrintable(es[1..]))
  }

  /** Printing succeeds for these expressions and for no others. */
  lemma {:induction false} PrintedExactly(e: Expr, col: string)
    ensures ExpressionToString(e, col).Some? <==> Printable(e)
    decreases e, 1
  {
    match e
    case Not(a) => PrintedExactly(a, col);
    case IsNull(a) => PrintedExactly(a, col);
    case IsNotNull(a) => PrintedExactly(a, col);
    case Compare(_, l, r) =>
      PrintedExactly(l, col);
      PrintedExactly(r, col);
    case Between(x, lo, hi, _, _) =>
      PrintedExactly(x, col);
      PrintedExactly(lo, col);
      PrintedExactly(hi, col);
    case Conjunction(isAnd, children) => ChildrenPrintedExactly(children, isAnd, col, "");
    case Function(_, args, _, _) =>
      forall i | 0 <= i < |args| ensures ExpressionToString(args[i], col).Some? <==> Printable(args[i]) {
        PrintedExactly(args[i], col);
      }
      FunctionPrintedExactly(e, col);
    case _ =>
  }

  lemma {:induction false} FunctionPrintedExactly(e: Expr, col: string)
    requires e.Function? && forall i :: 0 <= i < |e.args| ==> (ExpressionToString(e.args[i], col).Some? <==> Printable(e.args[i]))
    ensures ExpressionToString(e, col).Some? <==> Printable(e)
  {
    var f := e.name;
    if IsNeedleFunction(f) || IsEscapeFunction(f) {
      LikePrintedExactly(e, col);
    }
  }

  lemma {:induction false} LikePrintedExactly(e: Expr, col: string)
    requires e.Function? && (IsNeedleFunction(e.name) || IsEscapeFunction(e.name))
    requires forall i :: 0 <= i < |e.args| ==> (ExpressionToString(e.args[i], col).Some? <==> Printable(e.args[i]))
    ensures FuncToLikeString(e, col).Some? <==> Printable(e)
  {
    if 2 <= |e.args| <= 3 {
      assert Printable(e.args[0]) <==> ExpressionToString(e.args[0], col).Some?;
      assert Printable(e.args[1]) <==> ExpressionToString(e.args[1], col).Some?;
      assert |e.args| == 3 ==> (Printable(e.args[2]) <==> ExpressionToString(e.args[2], col).Some?);
    }
  }

  lemma {:induction false} ChildrenPrintedExactly(es: seq<Expr>, isAnd: bool, col: string, acc: string)
    ensures JoinChildren(es, isAnd, col, acc).Some? <==> AllPrintable(es)
    decreases es, 0
  {
    if es != [] {
      PrintedExactly(es[0], col);
      if ExpressionToString(es[0], col).Some? {
        var sep := if acc != [] then " " + (if isAnd then "AND" else "OR") + " " else "";
        ChildrenPrintedExactly(es[1..], isAnd, col, acc + sep + ExpressionToString(es[0], col).value);
      }
    }
  }

  // ---------------------------------------------------------------- the printer does not look at the name

  /** Whether an expression can be printed does not depend on the column name. */
  lemma {:induction false} PrintableForAnyName(e: Expr, col1: string, col2: string)
    ensures ExpressionToString(e, col1).Some? <==> ExpressionToString(e, col2).Some?
    decreases e, 1
  {
    match e
    case Not(a) => PrintableForAnyName(a, col1, col2);
    case IsNull(a) => PrintableForAnyName(a, col1, col2);
    case IsNotNull(a) => PrintableForAnyName(a, col1, col2);
    case Compare(_, l, r) =>
      PrintableForAnyName(l, col1, col2);
      PrintableForAnyName(r, col1, col2);
    case Between(x, lo, hi, _, _) =>
      PrintableForAnyName(x, col1, col2);
      PrintableForAnyName(lo, col1, col2);
      PrintableForAnyName(hi, col1, col2);
    case Conjunction(isAnd, children) =>
      ChildrenForAnyName(children, isAnd, col1, col2, "", "");
    case Function(_, args, _, _) =>
      forall i | 0 <= i < |args|
        ensures ExpressionToString(args[i], col1).Some? <==> ExpressionToString(args[i], col2).Some?
      {
        PrintableForAnyName(args[i], col1, col2);
      }
    case _ =>
  }

  lemma {:induction false} ChildrenForAnyName(children: seq<Expr>, isAnd: bool, col1: string, col2: string,
                                              acc1: string, acc2: string)
    ensures JoinChildren(children, isAnd, col1, acc1).Some? <==> JoinChildren(children, isAnd, col2, acc2).Some?
    decreases children, 0
  {
    if children != [] {
      PrintableForAnyName(children[0], col1, col2);
      if ExpressionToString(children[0], col1).Some? {
        var word := if isAnd then "AND" else "OR";
        var sep1 := if acc1 != [] then " " + word + " " else "";
        var sep2 := if acc2 != [] then " " + word + " " else "";
        ChildrenForAnyName(children[1..], isAnd, col1, col2,
                           acc1 + sep1 + ExpressionToString(children[0], col1).value,
                           acc2 + sep2 + ExpressionToString(children[0], col2).value);
      }
    }
  }
}
