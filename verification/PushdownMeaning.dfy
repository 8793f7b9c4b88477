/**
 The printed condition is read back, character by character and with Postgres precedence, as a
 tree with the meaning of the expression it was printed from.
 */
module PushdownMeaning {
  import opened Results
  import opened LikePattern
  import opened SqlLexer
  import opened SqlParser
  import opened ExpressionPushdown

  // ---------------------------------------------------------------- tokens and trees of an expression

  function OperatorTokens(op: CmpOp): seq<Token>
  {
    match op
    case Distinct => [Word("is"), Word("distinct"), Word("from")]
    case NotDistinct => [Word("is"), Word("not"), Word("distinct"), Word("from")]
    case _ => [Operator(OperatorText(op))]
  }

  /** The LIKE pattern built for a needle. */
  function NeedlePattern(name: string, n: string): string
  {
    if name == "contains" then ['%'] + Literally(n) + ['%']
    else if name == "suffix" then ['%'] + Literally(n)
    else Literally(n) + ['%']
  }

  function NeedleTokens(name: string, c: Constant): seq<Token>
  {
    if c.TextConst? then [Token.Str(NeedlePattern(name, c.text))] else [Word("null")]
  }

  function NeedleAst(name: string, c: Constant): Ast
  {
    if c.TextConst? then Text(NeedlePattern(name, c.text)) else NullLit
  }

  /** The escape clause that is printed: none for the default escape character. */
  function Escapes(args: seq<Expr>): bool
  {
    |args| == 3 && !(args[2].Const? && args[2].constant == TextConst("\\"))
  }

  function Closed(ts: seq<Token>): seq<Token> { [LParen] + ts + [RParen] }

  function Tokens(e: Expr, ct: Token): seq<Token>
    requires Safe(e)
    decreases e, 1
  {
    match e
    case Not(a) => [Word("not")] + Closed(Tokens(a, ct))
    case IsNull(a) => Closed(Tokens(a, ct)) + [Word("is"), Word("null")]
    case IsNotNull(a) => Closed(Tokens(a, ct)) + [Word("is"), Word("not"), Word("null")]
    case Compare(op, l, r) => Closed(Tokens(l, ct) + OperatorTokens(op) + Tokens(r, ct))
    case Between(x, lo, hi, loInc, hiInc) =>
      Closed(Joined([Closed(Tokens(x, ct) + OperatorTokens(LowerOp(loInc)) + Tokens(lo, ct)),
                     Closed(Tokens(x, ct) + OperatorTokens(UpperOp(hiInc)) + Tokens(hi, ct))], true))
    case Conjunction(isAnd, children) => Closed(Joined(TokensAll(children, ct), isAnd))
    case Function(f, args, _, _) =>
      if IsNeedleFunction(f) && args[1].Const? then
        Tokens(args[0], ct) + [Word("like")] + NeedleTokens(f, args[1].constant)
      else if IsEscapeFunction(f) && 2 <= |args| <= 3 then
        var body := Tokens(args[0], ct) + [LikeWord(f == "ilike_escape")] + Tokens(args[1], ct);
        if Escapes(args) then body + [Word("escape")] + Tokens(args[2], ct) else body
      else if IsCaseFunction(f) then [Word(f)] + Closed(Tokens(args[0], ct))
      else if IsLikeOperator(f) && |args| == 2 then
        Tokens(args[0], ct) + QualifiedOperator(f) + Tokens(args[1], ct)
      else []
    case ColumnRef(_) => [ct]
    case Const(TextConst(v), _) => [Token.Str(v)]
    case Const(_, _) => [Word("null")]
    case Unprintable(_) => []
  }

  function TokensAll(es: seq<Expr>, ct: Token): (r: seq<seq<Token>>)
    requires AllSafe(es)
    ensures |r| == |es| && forall i :: 0 <= i < |es| ==> r[i] == Tokens(es[i], ct)
    decreases es, 0
  {
    if es == [] then [] else [Tokens(es[0], ct)] + TokensAll(es[1..], ct)
  }

  function Tree(e: Expr, name: string): Ast
    requires Safe(e)
    decreases e, 1
  {
    match e
    case Not(a) => Neg(Tree(a, name))
    case IsNull(a) => NullTest(true, Tree(a, name))
    case IsNotNull(a) => NullTest(false, Tree(a, name))
    case Compare(op, l, r) => Cmp(op, Tree(l, name), Tree(r, name))
    case Between(x, lo, hi, loInc, hiInc) =>
      Nested([Cmp(LowerOp(loInc), Tree(x, name), Tree(lo, name)), Cmp(UpperOp(hiInc), Tree(x, name), Tree(hi, name))], true)
    case Conjunction(isAnd, children) => Nested(TreeAll(children, name), isAnd)
    case Function(f, args, _, _) =>
      if IsNeedleFunction(f) && args[1].Const? then
        Like(false, Tree(args[0], name), NeedleAst(f, args[1].constant), None)
      else if IsEscapeFunction(f) && 2 <= |args| <= 3 then
        Like(f == "ilike_escape", Tree(args[0], name), Tree(args[1], name),
             if Escapes(args) then Some(Tree(args[2], name)) else None)
      else if IsCaseFunction(f) then Call(f, Tree(args[0], name))
      else if IsLikeOperator(f) && |args| == 2 then BinaryOp(f, Tree(args[0], name), Tree(args[1], name))
      else NullLit
    case ColumnRef(_) => Column(name)
    case Const(TextConst(v), _) => Text(v)
    case Const(_, _) => NullLit
    case Unprintable(_) => NullLit
  }

  function TreeAll(es: seq<Expr>, name: string): (r: seq<Ast>)
    requires AllSafe(es)
    ensures |r| == |es| && forall i :: 0 <= i < |es| ==> r[i] == Tree(es[i], name)
    decreases es, 0
  {
    if es == [] then [] else [Tree(es[0], name)] + TreeAll(es[1..], name)
  }

  // ---------------------------------------------------------------- the tree keeps the meaning

  lemma {:induction false} NeedleMeaning(f: string, h: string, n: string)
    requires IsNeedleFunction(f)
    ensures LikeMatch(NeedlePattern(f, n), h) <==> NeedleHolds(f, h, n)
  {
    ContainsPattern(n, h);
    SuffixPattern(n, h);
    PrefixPattern(n, h);
  }

  lemma {:induction false} TreeMeaning(w: World, name: string, e: Expr, col: string)
    requires Safe(e) && PlainPatterns(w, name, e) && ExpressionToString(e, col).Some?
    ensures PgEval(w, Tree(e, name)) == DuckEval(w, name, e)
    decreases e, 1
  {
    match e
    case Not(a) => TreeMeaning(w, name, a, col);
    case IsNull(a) => TreeMeaning(w, name, a, col);
    case IsNotNull(a) => TreeMeaning(w, name, a, col);
    case Compare(_, l, r) =>
      TreeMeaning(w, name, l, col);
      TreeMeaning(w, name, r, col);
    case Between(x, lo, hi, loInc, hiInc) =>
      TreeMeaning(w, name, x, col);
      TreeMeaning(w, name, lo, col);
      TreeMeaning(w, name, hi, col);
      BetweenMeaning(w, name, e);
    case Conjunction(isAnd, children) =>
      TreeAllMeaning(w, name, children, isAnd, col, "");
      ConjunctionMeaning(w, name, e);
    case Function(f, args, _, _) => FunctionMeaning(w, name, e, col);
    case _ =>
  }

  lemma {:induction false} BetweenMeaning(w: World, name: string, e: Expr)
    requires e.Between? && Safe(e)
    requires PgEval(w, Tree(e.input, name)) == DuckEval(w, name, e.input)
    requires PgEval(w, Tree(e.lower, name)) == DuckEval(w, name, e.lower)
    requires PgEval(w, Tree(e.upper, name)) == DuckEval(w, name, e.upper)
    ensures PgEval(w, Tree(e, name)) == DuckEval(w, name, e)
  {
    BetweenTree(e, name);
    PairValue(w, LowerOp(e.lowerInclusive), UpperOp(e.upperInclusive), Tree(e.input, name), Tree(e.lower, name), Tree(e.upper, name));
    BetweenValue(w, name, e);
  }

  lemma {:induction false} PairValue(w: World, op1: CmpOp, op2: CmpOp, x: Ast, lo: Ast, hi: Ast)
    ensures PgEval(w, And(Cmp(op1, x, lo), Cmp(op2, x, hi)))
         == And3(Compare3(w, op1, PgEval(w, x), PgEval(w, lo)), Compare3(w, op2, PgEval(w, x), PgEval(w, hi)))
  {
    ComparisonValue(w, op1, x, lo);
    ComparisonValue(w, op2, x, hi);
  }

  lemma {:induction false} BetweenValue(w: World, name: string, e: Expr)
    requires e.Between?
    ensures DuckEval(w, name, e) ==
      And3(Compare3(w, if e.lowerInclusive then Ge else Gt, DuckEval(w, name, e.input), DuckEval(w, name, e.lower)),
           Compare3(w, if e.upperInclusive then Le else Lt, DuckEval(w, name, e.input), DuckEval(w, name, e.upper)))
  {
  }

  lemma {:induction false} ConjunctionMeaning(w: World, name: string, e: Expr)
    requires e.Conjunction? && Safe(e)
    requires forall i :: 0 <= i < |e.children| ==> PgEval(w, TreeAll(e.children, name)[i]) == DuckEval(w, name, e.children[i])
    ensures PgEval(w, Tree(e, name)) == DuckEval(w, name, e)
  {
    NestedMeaning(w, TreeAll(e.children, name), e.isAnd);
    SameValues(w, name, e.children);
  }

  lemma {:induction false} BetweenTree(e: Expr, name: string)
    requires e.Between? && Safe(e)
    ensures Tree(e, name) ==
      And(Cmp(LowerOp(e.lowerInclusive), Tree(e.input, name), Tree(e.lower, name)),
          Cmp(UpperOp(e.upperInclusive), Tree(e.input, name), Tree(e.upper, name)))
  {
    var a := Cmp(LowerOp(e.lowerInclusive), Tree(e.input, name), Tree(e.lower, name));
    var b := Cmp(UpperOp(e.upperInclusive), Tree(e.input, name), Tree(e.upper, name));
    assert [a, b][..1] == [a];
    assert Nested([a], true) == a;
    assert Nested([a, b], true) == And(a, b);
  }

  lemma {:induction false} SameValues(w: World, name: string, es: seq<Expr>)
    requires AllSafe(es)
    requires forall i :: 0 <= i < |es| ==> PgEval(w, TreeAll(es, name)[i]) == DuckEval(w, name, es[i])
    ensures EvalAll(w, TreeAll(es, name)) == DuckEvalAll(w, name, es)
  {
  }

  lemma {:induction false} TreeAllMeaning(w: World, name: string, es: seq<Expr>, isAnd: bool, col: string, acc: string)
    requires AllSafe(es) && AllPlain(w, name, es) && JoinChildren(es, isAnd, col, acc).Some?
    ensures forall i :: 0 <= i < |es| ==> PgEval(w, TreeAll(es, name)[i]) == DuckEval(w, name, es[i])
    decreases es, 0
  {
    if es != [] {
      TreeMeaning(w, name, es[0], col);
      var sep := if acc != [] then " " + (if isAnd then "AND" else "OR") + " " else "";
      TreeAllMeaning(w, name, es[1..], isAnd, col, acc + sep + ExpressionToString(es[0], col).value);
      assert forall i :: 0 < i < |es| ==> TreeAll(es, name)[i] == TreeAll(es[1..], name)[i - 1];
    }
  }

  lemma {:induction false} FunctionMeaning(w: World, name: string, e: Expr, col: string)
    requires e.Function? && Safe(e) && PlainPatterns(w, name, e) && ExpressionToString(e, col).Some?
    ensures PgEval(w, Tree(e, name)) == DuckEval(w, name, e)
    decreases e, 0
  {
    if IsNeedleFunction(e.name) {
      TreeMeaning(w, name, e.args[0], col);
      NeedleCallMeaning(w, name, e);
    } else {
      forall i | 0 <= i < |e.args| && ExpressionToString(e.args[i], col).Some?
        ensures PgEval(w, Tree(e.args[i], name)) == DuckEval(w, name, e.args[i])
      {
        TreeMeaning(w, name, e.args[i], col);
      }
      CallMeaning(w, name, e, col);
    }
  }

  lemma {:induction false} NeedleCallMeaning(w: World, name: string, e: Expr)
    requires e.Function? && Safe(e) && IsNeedleFunction(e.name)
    requires e.args[1].Const? && (e.args[1].constant.TextConst? || e.args[1].constant.NullConst?)
    requires PgEval(w, Tree(e.args[0], name)) == DuckEval(w, name, e.args[0])
    ensures PgEval(w, Tree(e, name)) == DuckEval(w, name, e)
  {
    var h, c := DuckEval(w, name, e.args[0]), e.args[1].constant;
    assert DuckEval(w, name, e) == DuckCall(w, e.name, DuckEvalAll(w, name, e.args));
    assert Tree(e, name) == Like(false, Tree(e.args[0], name), NeedleAst(e.name, c), None);
    if h.Str? && c.TextConst? {
      NeedleMeaning(e.name, h.s, c.text);
    }
  }

  lemma {:induction false} CallMeaning(w: World, name: string, e: Expr, col: string)
    requires e.Function? && Safe(e) && PlainPatterns(w, name, e) && ExpressionToString(e, col).Some?
    requires !IsNeedleFunction(e.name)
    requires forall i :: 0 <= i < |e.args| && ExpressionToString(e.args[i], col).Some? ==>
      PgEval(w, Tree(e.args[i], name)) == DuckEval(w, name, e.args[i])
    ensures PgEval(w, Tree(e, name)) == DuckEval(w, name, e)
  {
    var f, vs := e.name, DuckEvalAll(w, name, e.args);
    assert DuckEval(w, name, e) == DuckCall(w, f, vs);
    if IsLikeOperator(f) {
      OperatorMeaning(f, vs[0], vs[1]);
    }
  }

  /** Without a backslash in the pattern both engines compute the same. */
  lemma {:induction false} OperatorMeaning(f: string, h: Value, p: Value)
    requires IsLikeOperator(f) && NoBackslash(p)
    ensures PgOperator(f, h, p) == DuckLike(f, h, p)
  {
    if h.Str? && p.Str? {
      SameWithoutBackslash(p.s, h.s);
    }
  }

  // ---------------------------------------------------------------- reading the printed characters

  lemma {:induction false} ReadEnclosedParens(a: string, ta: seq<Token>)
    requires Reads(a, ta)
    ensures Reads("(" + a + ")", Closed(ta))
  {
    ReadLParen();
    ReadRParen();
    Then("(", [LParen], a, ta);
    ThenClean("(" + a, [LParen] + ta, ")", [RParen]);
  }

  lemma {:induction false} ReadInfix(a: string, ta: seq<Token>, mid: string, tm: seq<Token>, b: string, tb: seq<Token>)
    requires Reads(a, ta) && Reads(b, tb)
    requires ReadsFreely(mid, tm) && mid != [] && Clean(mid)
    ensures Reads(a + mid + b, ta + tm + tb)
  {
    ThenCleanFreely(a, ta, mid, tm);
    Then(a + mid, ta + tm, b, tb);
  }

  /** A key word, alone between spaces or before one. */
  lemma {:induction false} ReadKeyword(w: string, folded: string, spaced: string, before: string)
    requires IsWordText(w) && FoldAll(w) == folded
    requires spaced == " " + w + " " && before == w + " "
    ensures ReadsFreely(spaced, [Word(folded)])
    ensures ReadsFreely(before, [Word(folded)])
  {
    ReadSpace();
    ReadWordThen(w, " ", []);
    assert [Word(folded)] + [] == [Word(folded)];
    ThenFreely(" ", [], before, [Word(folded)]);
    assert [] + [Word(folded)] == [Word(folded)];
    assert " " + before == spaced;
  }

  lemma {:induction false} Folds()
    ensures FoldAll("IS") == "is" && FoldAll("NOT") == "not" && FoldAll("NULL") == "null"
    ensures FoldAll("AND") == "and" && FoldAll("OR") == "or"
    ensures FoldAll("LIKE") == "like" && FoldAll("ILIKE") == "ilike" && FoldAll("ESCAPE") == "escape"
    ensures FoldAll("DISTINCT") == "distinct" && FoldAll("FROM") == "from"
    ensures FoldAll("OPERATOR") == "operator" && FoldAll("pg_catalog") == "pg_catalog"
    ensures FoldAll("lower") == "lower" && FoldAll("upper") == "upper"
  {
  }

  lemma {:induction false} ReadDistinctFrom()
    ensures ReadsFreely("DISTINCT FROM ", [Word("distinct"), Word("from")])
  {
    ReadDistinctWord();
    ReadFromWord();
    ThenFreely("DISTINCT ", [Word("distinct")], "FROM ", [Word("from")]);
    assert "DISTINCT " + "FROM " == "DISTINCT FROM ";
  }

  lemma {:induction false} ReadDistinctWord()
    ensures ReadsFreely("DISTINCT ", [Word("distinct")])
  {
    Folds();
    ReadKeyword("DISTINCT", "distinct", " DISTINCT ", "DISTINCT ");
  }

  lemma {:induction false} ReadFromWord()
    ensures ReadsFreely("FROM ", [Word("from")])
  {
    Folds();
    ReadKeyword("FROM", "from", " FROM ", "FROM ");
  }

  lemma {:induction false} ReadIsDistinctFrom()
    ensures ReadsFreely(" IS DISTINCT FROM ", [Word("is"), Word("distinct"), Word("from")])
  {
    Folds();
    ReadDistinctFrom();
    ReadKeyword("IS", "is", " IS ", "IS ");
    ThenFreely(" IS ", [Word("is")], "DISTINCT FROM ", [Word("distinct"), Word("from")]);
    assert " IS " + "DISTINCT FROM " == " IS DISTINCT FROM ";
  }

  lemma {:induction false} ReadIsNotDistinctFrom()
    ensures ReadsFreely(" IS NOT DISTINCT FROM ", [Word("is"), Word("not"), Word("distinct"), Word("from")])
  {
    Folds();
    ReadDistinctFrom();
    ReadKeyword("IS", "is", " IS ", "IS ");
    ReadKeyword("NOT", "not", " NOT ", "NOT ");
    ThenFreely(" IS ", [Word("is")], "NOT ", [Word("not")]);
    ThenFreely(" IS " + "NOT ", [Word("is")] + [Word("not")], "DISTINCT FROM ", [Word("distinct"), Word("from")]);
    assert " IS " + "NOT " + "DISTINCT FROM " == " IS NOT DISTINCT FROM ";
    assert [Word("is")] + [Word("not")] + [Word("distinct"), Word("from")]
        == [Word("is"), Word("not"), Word("distinct"), Word("from")];
  }

  lemma {:induction false} ReadSymbol(o: string)
    requires StaysWhole(o)
    ensures ReadsFreely(" " + o + " ", [Operator(o)])
  {
    ReadSpace();
    ReadOperatorThen(o, " ", []);
    assert [Operator(o)] + [] == [Operator(o)];
    ThenFreely(" ", [], o + " ", [Operator(o)]);
    assert " " + (o + " ") == " " + o + " ";
    assert [] + [Operator(o)] == [Operator(o)];
  }

  lemma {:induction false} SymbolText(op: CmpOp)
    requires op != Distinct && op != NotDistinct
    ensures StaysWhole(OperatorText(op)) && !IsSign(OperatorText(op)[|OperatorText(op)| - 1])
    ensures HasSpecial(OperatorText(op)) <==> op == Ne
    ensures OperatorTokens(op) == [Operator(OperatorText(op))]
  {
    assert "!="[0] == '!';
  }

  lemma {:induction false} WordTexts()
    ensures " " + OperatorText(Distinct) + " " == " IS DISTINCT FROM "
    ensures " " + OperatorText(NotDistinct) + " " == " IS NOT DISTINCT FROM "
  {
  }

  lemma {:induction false} ReadOperatorText(op: CmpOp)
    ensures ReadsFreely(" " + OperatorText(op) + " ", OperatorTokens(op))
  {
    if op == Distinct {
      ReadIsDistinctFrom();
      WordTexts();
    } else if op == NotDistinct {
      ReadIsNotDistinctFrom();
      WordTexts();
    } else {
      SymbolText(op);
      ReadSymbol(OperatorText(op));
    }
  }

  lemma {:induction false} ReadComparison(a: string, ta: seq<Token>, op: CmpOp, b: string, tb: seq<Token>)
    requires Reads(a, ta) && Reads(b, tb)
    ensures Reads(ComparisonText(a, op, b), Closed(ta + OperatorTokens(op) + tb))
  {
    var mid := " " + OperatorText(op) + " ";
    ReadOperatorText(op);
    ReadInfix(a, ta, mid, OperatorTokens(op), b, tb);
    ReadEnclosedParens(a + mid + b, ta + OperatorTokens(op) + tb);
    assert "(" + (a + mid + b) + ")" == ComparisonText(a, op, b);
  }

  lemma {:induction false} ReadNull()
    ensures Reads("NULL", [Word("null")])
  {
    Folds();
    ReadWord("NULL");
  }

  /** The suffixes of the two null tests, after the closing parenthesis. */
  lemma {:induction false} ReadNullTest(a: string, ta: seq<Token>, positive: bool)
    requires Reads(a, ta)
    ensures positive ==> Reads("(" + a + ") " + "IS NULL", Closed(ta) + [Word("is"), Word("null")])
    ensures !positive ==> Reads("(" + a + ") " + "IS NOT NULL", Closed(ta) + [Word("is"), Word("not"), Word("null")])
  {
    Folds();
    ReadNull();
    ReadEnclosedParens(a, ta);
    ReadKeyword("IS", "is", " IS ", "IS ");
    ReadKeyword("NOT", "not", " NOT ", "NOT ");
    var c, tc := "(" + a + ")", Closed(ta);
    if positive {
      ReadInfix(c, tc, " IS ", [Word("is")], "NULL", [Word("null")]);
      assert c + " IS " + "NULL" == "(" + a + ") " + "IS NULL";
      assert tc + [Word("is")] + [Word("null")] == tc + [Word("is"), Word("null")];
    } else {
      ThenFreely(" IS ", [Word("is")], "NOT ", [Word("not")]);
      ReadInfix(c, tc, " IS " + "NOT ", [Word("is")] + [Word("not")], "NULL", [Word("null")]);
      assert c + (" IS " + "NOT ") + "NULL" == "(" + a + ") " + "IS NOT NULL";
      assert tc + ([Word("is")] + [Word("not")]) + [Word("null")] == tc + [Word("is"), Word("not"), Word("null")];
    }
  }

  lemma {:induction false} ReadNot(a: string, ta: seq<Token>)
    requires Reads(a, ta)
    ensures Reads("NOT (" + a + ")", [Word("not")] + Closed(ta))
  {
    Folds();
    ReadKeyword("NOT", "not", " NOT ", "NOT ");
    ReadEnclosedParens(a, ta);
    Then("NOT ", [Word("not")], "(" + a + ")", Closed(ta));
    assert "NOT " + ("(" + a + ")") == "NOT (" + a + ")";
  }

  lemma {:induction false} ReadCall(f: string, a: string, ta: seq<Token>)
    requires IsCaseFunction(f) && Reads(a, ta)
    ensures Reads(f + "(" + a + ")", [Word(f)] + Closed(ta))
  {
    Folds();
    ReadLParen();
    ReadRParen();
    ReadWordThen(f, "(", [LParen]);
    Then(f + "(", [Word(f)] + [LParen], a, ta);
    ThenClean(f + "(" + a, [Word(f)] + [LParen] + ta, ")", [RParen]);
    assert [Word(f)] + [LParen] + ta + [RParen] == [Word(f)] + Closed(ta);
  }

  lemma {:induction false} ReadQualifiedOperator(f: string)
    requires IsLikeOperator(f)
    ensures ReadsFreely("pg_catalog." + f + ") ", [Word("pg_catalog"), Dot, Operator(f), RParen])
  {
    Folds();
    ReadSpace();
    ReadRParen();
    ReadDot();
    ThenFreely(")", [RParen], " ", []);
    assert [RParen] + [] == [RParen];
    assert f[|f| - 1] == '~';
    ReadOperatorThen(f, ") ", [RParen]);
    ThenFreely(".", [Dot], f + ") ", [Operator(f)] + [RParen]);
    var d, td := "." + (f + ") "), [Dot] + ([Operator(f)] + [RParen]);
    ReadWordThen("pg_catalog", d, td);
    assert "pg_catalog" + d == "pg_catalog." + f + ") ";
    assert [Word("pg_catalog")] + td == [Word("pg_catalog"), Dot, Operator(f), RParen];
  }

  lemma {:induction false} ReadLikeOperator(f: string)
    requires IsLikeOperator(f)
    ensures ReadsFreely(" OPERATOR(pg_catalog." + f + ") ",
                        QualifiedOperator(f))
  {
    Folds();
    ReadSpace();
    ReadLParen();
    ReadQualifiedOperator(f);
    var g, tg := "pg_catalog." + f + ") ", [Word("pg_catalog"), Dot, Operator(f), RParen];
    ThenFreely("(", [LParen], g, tg);
    ReadWordThen("OPERATOR", "(" + g, [LParen] + tg);
    ThenFreely(" ", [], "OPERATOR" + ("(" + g), [Word("operator")] + ([LParen] + tg));
    assert " " + ("OPERATOR" + ("(" + g)) == " OPERATOR(pg_catalog." + f + ") ";
    assert [] + ([Word("operator")] + ([LParen] + tg))
        == QualifiedOperator(f);
  }

  /** The needle literal, quotes included, is one string token holding the pattern. */
  lemma {:induction false} ReadNeedle(f: string, e: Expr)
    requires IsNeedleFunction(f) && FuncArgToLikeString(f, e).Some?
    ensures e.Const? && Reads(FuncArgToLikeString(f, e).value, NeedleTokens(f, e.constant))
  {
    ReadNull();
    if e.constant.TextConst? {
      var n := e.constant.text;
      ReadString(NeedlePattern(f, n));
      NeedleText(f, n);
    }
  }

  /** The text put together for a needle is the quoted pattern. */
  lemma {:induction false} NeedleText(f: string, n: string)
    requires IsNeedleFunction(f)
    ensures Enclose(NeedlePattern(f, n), '\'') ==
            if f == "contains" then "'%" + EscapeNeedle(n) + "%'"
            else if f == "suffix" then "'%" + EscapeNeedle(n) + "'"
            else "'" + EscapeNeedle(n) + "%'"
  {
    EscapeNeedleIsQuotedPattern(n);
    DoublePercent(Literally(n));
    QuotedPercent(EscapeNeedle(n));
  }

  lemma {:induction false} QuotedPercent(s: string)
    ensures ['\''] + (['%'] + s + ['%']) + ['\''] == "'%" + s + "%'"
    ensures ['\''] + (['%'] + s) + ['\''] == "'%" + s + "'"
    ensures ['\''] + (s + ['%']) + ['\''] == "'" + s + "%'"
  {
  }

  lemma {:induction false} DoublePercent(p: string)
    ensures DoubleQuotes(['%'] + p) == ['%'] + DoubleQuotes(p)
    ensures DoubleQuotes(p + ['%']) == DoubleQuotes(p) + ['%']
    ensures DoubleQuotes(['%'] + p + ['%']) == ['%'] + DoubleQuotes(p) + ['%']
  {
    ReplaceOne('%', '\'', ['\'', '\'']);
    ReplaceSplits(['%'], p, '\'', ['\'', '\'']);
    ReplaceSplits(p, ['%'], '\'', ['\'', '\'']);
    ReplaceSplits(['%'] + p, ['%'], '\'', ['\'', '\'']);
  }

  lemma {:induction false} ReadColumn(col: string, name: string)
    requires IsColumnText(col, name)
    ensures Reads(col, [ColumnToken(col, name)])
  {
    if col == Enclose(name, '"') {
      ReadQuotedName(name);
    } else {
      FoldLower(name);
      ReadWord(name);
    }
  }

  // ---------------------------------------------------------------- parsing the tokens

  /** The words of the grammar are told apart by their length, except `is` and `or`. */
  lemma {:induction false} WordLengths()
    ensures |"is"| == 2 && |"or"| == 2 && |"and"| == 3 && |"not"| == 3 && |"null"| == 4 && |"from"| == 4
    ensures |"like"| == 4 && |"ilike"| == 5 && |"escape"| == 6 && |"distinct"| == 8 && |"operator"| == 8
    ensures |"with"| == 4 && "with"[0] == 'w' && "like"[0] == 'l' && |"in"| == 2
  {
  }

  lemma {:induction false} DistinctReads(op: CmpOp, ta: seq<Token>, a: Ast, r2: seq<Token>)
    requires op == Distinct || op == NotDistinct
    requires IsPrimary(ta, a)
    ensures ParseIs(ta + (OperatorTokens(op) + r2)) == DistinctFrom(op, a, r2)
  {
    WordLengths();
    var r1 := OperatorTokens(op) + r2;
    PrimaryIsCmp(ta, a, r1);
    var k := |OperatorTokens(op)|;
    assert r1[k..] == r2;
    assert r1[0] == Word("is") && r1[1] == OperatorTokens(op)[1] && r1[2] == OperatorTokens(op)[2];
    assert op == NotDistinct ==> r1[3] == Word("from");
  }

  lemma {:induction false} DistinctIsOperand(op: CmpOp, ta: seq<Token>, a: Ast, tb: seq<Token>, b: Ast, rest: seq<Token>)
    requires op == Distinct || op == NotDistinct
    requires IsPrimary(ta, a) && IsPrimary(tb, b) && Stops(rest)
    ensures ParseNot(ta + (OperatorTokens(op) + (tb + rest))) == Some((Cmp(op, a, b), rest))
  {
    DistinctReads(op, ta, a, tb + rest);
    PrimaryIsCmp(tb, b, rest);
    var ts := ta + (OperatorTokens(op) + (tb + rest));
    assert ts[0] == ta[0];
    assert !IsWord(ts, 0, "not");
  }

  lemma {:induction false} SymbolReads(op: CmpOp, ta: seq<Token>, a: Ast, tb: seq<Token>, b: Ast, rest: seq<Token>)
    requires op != Distinct && op != NotDistinct
    requires IsPrimary(ta, a) && IsPrimary(tb, b) && Stops(rest)
    ensures ParseCmp(ta + (OperatorTokens(op) + (tb + rest))) == Some((Cmp(op, a, b), rest))
  {
    var r1 := OperatorTokens(op) + (tb + rest);
    assert r1[0] == Operator(OperatorText(op)) && r1[1..] == tb + rest;
    assert ComparisonOf(r1[0]) == Some(op);
    PrimaryIsLike(ta, a, r1);
    StopFacts(rest);
    PrimaryIsLike(tb, b, rest);
  }

  lemma {:induction false} ComparisonIsOperand(op: CmpOp, ta: seq<Token>, a: Ast, tb: seq<Token>, b: Ast)
    requires IsPrimary(ta, a) && IsPrimary(tb, b)
    ensures IsOperand(ta + OperatorTokens(op) + tb, Cmp(op, a, b))
  {
    var all := ta + OperatorTokens(op) + tb;
    forall rest | Stops(rest)
      ensures ParseNot(all + rest) == Some((Cmp(op, a, b), rest))
    {
      var ts := ta + (OperatorTokens(op) + (tb + rest));
      assert all + rest == ts;
      assert ts[0] == ta[0];
      if op == Distinct || op == NotDistinct {
        DistinctIsOperand(op, ta, a, tb, b, rest);
      } else {
        SymbolReads(op, ta, a, tb, b, rest);
        CmpIsOperand(ts, Cmp(op, a, b), rest);
      }
    }
  }

  lemma {:induction false} CmpIsOperand(ts: seq<Token>, a: Ast, rest: seq<Token>)
    requires ts != [] && ts[0] != Word("not")
    requires ParseCmp(ts) == Some((a, rest)) && Stops(rest)
    ensures ParseNot(ts) == Some((a, rest))
  {
    assert |"is"| == 2 && |"or"| == 2 && |"and"| == 3;
    assert ParseIs(ts) == Some((a, rest));
  }

  lemma {:induction false} ClosedComparison(op: CmpOp, ta: seq<Token>, a: Ast, tb: seq<Token>, b: Ast)
    requires IsPrimary(ta, a) && IsPrimary(tb, b)
    ensures IsPrimary(Closed(ta + OperatorTokens(op) + tb), Cmp(op, a, b))
  {
    ComparisonIsOperand(op, ta, a, tb, b);
    ClosedOperand(ta + OperatorTokens(op) + tb, Cmp(op, a, b));
  }

  lemma {:induction false} ClosedOperand(ts: seq<Token>, a: Ast)
    requires IsOperand(ts, a)
    ensures IsPrimary(Closed(ts), a)
  {
    OperandIsClosed(ts, a);
    ClosedIsPrimary(ts, a);
  }

  lemma {:induction false} NotIsOperand(ts: seq<Token>, a: Ast)
    requires IsOperand(ts, a)
    ensures IsOperand([Word("not")] + Closed(ts), Neg(a))
  {
    ClosedOperand(ts, a);
    PrimaryIsOperand(Closed(ts), a);
    var all := [Word("not")] + Closed(ts);
    forall rest | Stops(rest)
      ensures ParseNot(all + rest) == Some((Neg(a), rest))
    {
      assert (all + rest)[0] == Word("not") && (all + rest)[1..] == Closed(ts) + rest;
    }
  }

  lemma {:induction false} NullTestIsOperand(ts: seq<Token>, a: Ast, positive: bool)
    requires IsOperand(ts, a)
    ensures IsOperand(Closed(ts) + (if positive then [Word("is"), Word("null")] else [Word("is"), Word("not"), Word("null")]),
                      NullTest(positive, a))
  {
    ClosedOperand(ts, a);
    var suffix := if positive then [Word("is"), Word("null")] else [Word("is"), Word("not"), Word("null")];
    var all := Closed(ts) + suffix;
    forall rest | Stops(rest)
      ensures ParseNot(all + rest) == Some((NullTest(positive, a), rest))
    {
      var r1 := suffix + rest;
      assert all + rest == Closed(ts) + r1;
      PrimaryIsCmp(Closed(ts), a, r1);
      assert r1[|suffix|..] == rest;
      assert (all + rest)[0] == LParen;
      assert |"not"| == 3 && |"null"| == 4;
    }
  }

  lemma {:induction false} CallIsPrimary(f: string, ts: seq<Token>, a: Ast)
    requires IsCaseFunction(f) && IsOperand(ts, a)
    ensures IsPrimary([Word(f)] + Closed(ts), Call(f, a))
  {
    OperandIsClosed(ts, a);
    var all := [Word(f)] + Closed(ts);
    assert |f| == 5 && f[0] in "lu" && |"not"| == 3 && |"null"| == 4 && "ilike"[0] == 'i' && "false"[0] == 'f';
    forall rest | EndsPrimary(rest)
      ensures ParsePrimary(all + rest) == Some((Call(f, a), rest))
    {
      var ts2 := all + rest;
      assert ts2[0] == Word(f) && ts2[1] == LParen && ts2[2..] == ts + ([RParen] + rest);
      assert ([RParen] + rest)[1..] == rest;
      assert ParseClosed(ts + ([RParen] + rest)) == Some((a, rest));
      assert ParseAtom(ts2) == Some((Call(f, a), rest));
    }
  }

  /** The word `like` or `ilike`. */
  function LikeWord(ic: bool): Token { Word(if ic then "ilike" else "like") }

  /** LIKE and ILIKE, with or without an escape clause. */
  lemma {:induction false} LikeIsOperand(ic: bool, th: seq<Token>, h: Ast, tp: seq<Token>, p: Ast)
    requires IsPrimary(th, h) && IsPrimary(tp, p)
    ensures IsOperand(th + [LikeWord(ic)] + tp, Like(ic, h, p, None))
  {
    var all := th + [LikeWord(ic)] + tp;
    forall rest | Stops(rest)
      ensures ParseNot(all + rest) == Some((Like(ic, h, p, None), rest))
    {
      PlainLikeTail(ic, h, tp, p, rest);
      assert all + rest == th + ([LikeWord(ic)] + (tp + rest));
      LikeReads(ic, th, h, tp + rest, Like(ic, h, p, None), rest);
    }
  }

  lemma {:induction false} PlainLikeTail(ic: bool, h: Ast, tp: seq<Token>, p: Ast, rest: seq<Token>)
    requires IsPrimary(tp, p) && Stops(rest)
    ensures LikeTail(ic, h, tp + rest) == Some((Like(ic, h, p, None), rest))
  {
    WordLengths();
    StopFacts(rest);
    PrimaryIsOp(tp, p, rest);
  }

  lemma {:induction false} EscapedLikeTail(ic: bool, h: Ast, tp: seq<Token>, p: Ast, te: seq<Token>, x: Ast, rest: seq<Token>)
    requires IsPrimary(tp, p) && IsPrimary(te, x) && Stops(rest)
    ensures LikeTail(ic, h, tp + ([Word("escape")] + (te + rest))) == Some((Like(ic, h, p, Some(x)), rest))
  {
    WordLengths();
    StopFacts(rest);
    PrimaryIsOp(te, x, rest);
    var r2 := [Word("escape")] + (te + rest);
    assert r2[1..] == te + rest;
    PrimaryIsOp(tp, p, r2);
  }

  lemma {:induction false} LikeEscapeIsOperand(ic: bool, th: seq<Token>, h: Ast, tp: seq<Token>, p: Ast, te: seq<Token>, x: Ast)
    requires IsPrimary(th, h) && IsPrimary(tp, p) && IsPrimary(te, x)
    ensures IsOperand(th + [LikeWord(ic)] + tp + [Word("escape")] + te, Like(ic, h, p, Some(x)))
  {
    var all := th + [LikeWord(ic)] + tp + [Word("escape")] + te;
    forall rest | Stops(rest)
      ensures ParseNot(all + rest) == Some((Like(ic, h, p, Some(x)), rest))
    {
      var r2 := tp + ([Word("escape")] + (te + rest));
      EscapedLikeTail(ic, h, tp, p, te, x, rest);
      assert all + rest == th + ([LikeWord(ic)] + r2);
      LikeReads(ic, th, h, r2, Like(ic, h, p, Some(x)), rest);
    }
  }

  lemma {:induction false} LikeReads(ic: bool, th: seq<Token>, h: Ast, r2: seq<Token>, a: Ast, rest: seq<Token>)
    requires IsPrimary(th, h)
    requires LikeTail(ic, h, r2) == Some((a, rest)) && Stops(rest)
    ensures ParseNot(th + ([LikeWord(ic)] + r2)) == Some((a, rest))
  {
    WordLengths();
    var r1 := [LikeWord(ic)] + r2;
    assert r1[1..] == r2;
    PrimaryIsOp(th, h, r1);
    assert ParseLike(th + r1) == Some((a, rest));
    assert (th + r1)[0] == th[0];
    LikeLevelIsOperand(th + r1, a, rest);
  }

  lemma {:induction false} LikeLevelIsOperand(ts: seq<Token>, a: Ast, rest: seq<Token>)
    requires ts != [] && ParseLike(ts) == Some((a, rest)) && Stops(rest)
    requires ts[0] != Word("not")
    ensures ParseNot(ts) == Some((a, rest))
  {
    StopFacts(rest);
    LikeIsCmp(ts, a, rest);
    CmpIsOperand(ts, a, rest);
  }

  function QualifiedOperator(f: string): seq<Token>
  {
    [Word("operator"), LParen, Word("pg_catalog"), Dot, Operator(f), RParen]
  }

  lemma {:induction false} OperatorReads(f: string, ta: seq<Token>, a: Ast, tb: seq<Token>, b: Ast, rest: seq<Token>)
    requires IsPrimary(ta, a) && IsPrimary(tb, b) && EndsOp(rest)
    ensures ParseOp(ta + (QualifiedOperator(f) + (tb + rest))) == Some((BinaryOp(f, a, b), rest))
  {
    var r1 := QualifiedOperator(f) + (tb + rest);
    assert r1[0] == Word("operator") && r1[1] == LParen && r1[2] == Word("pg_catalog");
    assert r1[3] == Dot && r1[4] == Operator(f) && r1[5] == RParen;
    assert r1[6..] == tb + rest;
    assert ParsePrimary(tb + rest) == Some((b, rest));
    assert OpTail(BinaryOp(f, a, b), rest) == Some((BinaryOp(f, a, b), rest));
    assert OpTail(a, r1) == Some((BinaryOp(f, a, b), rest));
    assert ParsePrimary(ta + r1) == Some((a, r1));
  }

  lemma {:induction false} OperatorIsOperand(f: string, ta: seq<Token>, a: Ast, tb: seq<Token>, b: Ast)
    requires IsPrimary(ta, a) && IsPrimary(tb, b)
    ensures IsOperand(ta + QualifiedOperator(f) + tb, BinaryOp(f, a, b))
  {
    var all := ta + QualifiedOperator(f) + tb;
    forall rest | Stops(rest)
      ensures ParseNot(all + rest) == Some((BinaryOp(f, a, b), rest))
    {
      var ts := ta + (QualifiedOperator(f) + (tb + rest));
      assert all + rest == ts;
      assert ts[0] == ta[0];
      StopFacts(rest);
      OperatorReads(f, ta, a, tb, b, rest);
      assert ParseLike(ts) == Some((BinaryOp(f, a, b), rest));
      LikeLevelIsOperand(ts, BinaryOp(f, a, b), rest);
    }
  }

  lemma {:induction false} SingleIsPrimary(t: Token, a: Ast)
    requires ParseAtom([t]) == Some((a, [])) && t != LParen
    ensures IsPrimary([t], a)
  {
    forall rest: seq<Token> | EndsPrimary(rest)
      ensures ParsePrimary([t] + rest) == Some((a, rest))
    {
      assert ([t] + rest)[0] == t && ([t] + rest)[1..] == rest;
      assert ParseAtom([t] + rest) == Some((a, rest));
    }
  }

  // ---------------------------------------------------------------- the whole expression

  /** What is proved about every printed subexpression. */
  ghost predicate Understood(text: string, e: Expr, ct: Token, name: string)
    requires Safe(e)
  {
    && Reads(text, Tokens(e, ct))
    && Tokens(e, ct) != []
    && IsOperand(Tokens(e, ct), Tree(e, name))
    && (Atomic(e) ==> IsPrimary(Tokens(e, ct), Tree(e, name)))
  }

  /** Printed text is never empty, so the loop over children puts a connective before all but the first. */
  lemma {:induction false} NotEmpty(text: string, toks: seq<Token>)
    requires Reads(text, toks) && toks != []
    ensures text != []
  {
    ReadsWhole(text, toks);
  }

  lemma {:induction false} PrintedIsUnderstood(e: Expr, col: string, name: string)
    requires Safe(e) && IsColumnText(col, name) && ExpressionToString(e, col).Some?
    ensures Understood(ExpressionToString(e, col).value, e, ColumnToken(col, name), name)
    decreases e, 1
  {
    var ct := ColumnToken(col, name);
    match e
    case Not(a) =>
      PrintedIsUnderstood(a, col, name);
      ReadNot(ExpressionToString(a, col).value, Tokens(a, ct));
      NotIsOperand(Tokens(a, ct), Tree(a, name));
    case IsNull(a) =>
      PrintedIsUnderstood(a, col, name);
      ReadNullTest(ExpressionToString(a, col).value, Tokens(a, ct), true);
      NullTestIsOperand(Tokens(a, ct), Tree(a, name), true);
    case IsNotNull(a) =>
      PrintedIsUnderstood(a, col, name);
      ReadNullTest(ExpressionToString(a, col).value, Tokens(a, ct), false);
      NullTestIsOperand(Tokens(a, ct), Tree(a, name), false);
    case Compare(op, l, r) =>
      PrintedIsUnderstood(l, col, name);
      PrintedIsUnderstood(r, col, name);
      ComparisonUnderstood(op, l, r, col, name);
      PrimaryIsOperand(Tokens(e, ct), Tree(e, name));
    case Between(x, lo, hi, _, _) =>
      PrintedIsUnderstood(x, col, name);
      PrintedIsUnderstood(lo, col, name);
      PrintedIsUnderstood(hi, col, name);
      BetweenUnderstood(e, col, name);
    case Conjunction(isAnd, children) =>
      ChildrenUnderstood(children, col, name, isAnd);
      ConjunctionUnderstood(e, col, name);
    case Function(f, args, _, _) =>
      forall i | 0 <= i < |args| && ExpressionToString(args[i], col).Some?
        ensures Understood(ExpressionToString(args[i], col).value, args[i], ct, name)
      {
        PrintedIsUnderstood(args[i], col, name);
      }
      if IsCaseFunction(f) {
        CallUnderstood(e, col, name);
      } else if IsLikeOperator(f) {
        OperatorUnderstood(e, col, name);
      } else {
        LikeUnderstood(e, col, name);
      }
    case ColumnRef(_) =>
      ReadColumn(col, name);
      ColumnIsPrimary(col, name);
      PrimaryIsOperand([ct], Column(name));
    case Const(c, _) =>
      ConstUnderstood(e, col, name);
    case _ =>
  }

  lemma {:induction false} ColumnIsPrimary(col: string, name: string)
    requires IsColumnText(col, name)
    ensures IsPrimary([ColumnToken(col, name)], Column(name))
  {
    SingleIsPrimary(ColumnToken(col, name), Column(name));
  }

  lemma {:induction false} ConstUnderstood(e: Expr, col: string, name: string)
    requires e.Const? && ExpressionToString(e, col).Some?
    ensures Understood(ExpressionToString(e, col).value, e, ColumnToken(col, name), name)
  {
    var ts, a := Tokens(e, ColumnToken(col, name)), Tree(e, name);
    if e.constant.TextConst? {
      ReadString(e.constant.text);
    } else {
      ReadNull();
    }
    SingleIsPrimary(ts[0], a);
    PrimaryIsOperand(ts, a);
  }

  lemma {:induction false} ComparisonUnderstood(op: CmpOp, l: Expr, r: Expr, col: string, name: string)
    requires Safe(l) && Safe(r) && Atomic(l) && Atomic(r)
    requires ExpressionToString(l, col).Some? && ExpressionToString(r, col).Some?
    requires Understood(ExpressionToString(l, col).value, l, ColumnToken(col, name), name)
    requires Understood(ExpressionToString(r, col).value, r, ColumnToken(col, name), name)
    ensures Reads(ComparisonText(ExpressionToString(l, col).value, op, ExpressionToString(r, col).value),
                  Closed(Tokens(l, ColumnToken(col, name)) + OperatorTokens(op) + Tokens(r, ColumnToken(col, name))))
    ensures IsPrimary(Closed(Tokens(l, ColumnToken(col, name)) + OperatorTokens(op) + Tokens(r, ColumnToken(col, name))),
                      Cmp(op, Tree(l, name), Tree(r, name)))
  {
    var ct := ColumnToken(col, name);
    ReadComparison(ExpressionToString(l, col).value, Tokens(l, ct), op, ExpressionToString(r, col).value, Tokens(r, ct));
    ClosedComparison(op, Tokens(l, ct), Tree(l, name), Tokens(r, ct), Tree(r, name));
  }

  lemma {:induction false} BetweenUnderstood(e: Expr, col: string, name: string)
    requires e.Between? && Safe(e) && ExpressionToString(e, col).Some?
    requires ExpressionToString(e.input, col).Some? && ExpressionToString(e.lower, col).Some? && ExpressionToString(e.upper, col).Some?
    requires Understood(ExpressionToString(e.input, col).value, e.input, ColumnToken(col, name), name)
    requires Understood(ExpressionToString(e.lower, col).value, e.lower, ColumnToken(col, name), name)
    requires Understood(ExpressionToString(e.upper, col).value, e.upper, ColumnToken(col, name), name)
    ensures Understood(ExpressionToString(e, col).value, e, ColumnToken(col, name), name)
  {
    var ct := ColumnToken(col, name);
    var lo, hi := LowerOp(e.lowerInclusive), UpperOp(e.upperInclusive);
    ComparisonUnderstood(lo, e.input, e.lower, col, name);
    ComparisonUnderstood(hi, e.input, e.upper, col, name);
    var t1 := Closed(Tokens(e.input, ct) + OperatorTokens(lo) + Tokens(e.lower, ct));
    var t2 := Closed(Tokens(e.input, ct) + OperatorTokens(hi) + Tokens(e.upper, ct));
    var a1, a2 := Cmp(lo, Tree(e.input, name), Tree(e.lower, name)), Cmp(hi, Tree(e.input, name), Tree(e.upper, name));
    BetweenText(e, col);
    PairUnderstood(ComparisonText(ExpressionToString(e.input, col).value, lo, ExpressionToString(e.lower, col).value), t1, a1,
                   ComparisonText(ExpressionToString(e.input, col).value, hi, ExpressionToString(e.upper, col).value), t2, a2);
    PrimaryIsOperand(Tokens(e, ct), Tree(e, name));
  }

  lemma {:induction false} BetweenText(e: Expr, col: string)
    requires e.Between? && ExpressionToString(e, col).Some?
    requires ExpressionToString(e.input, col).Some? && ExpressionToString(e.lower, col).Some? && ExpressionToString(e.upper, col).Some?
    ensures ExpressionToString(e, col).value ==
      "(" + (ComparisonText(ExpressionToString(e.input, col).value, LowerOp(e.lowerInclusive), ExpressionToString(e.lower, col).value)
             + " AND " + ComparisonText(ExpressionToString(e.input, col).value, UpperOp(e.upperInclusive), ExpressionToString(e.upper, col).value)) + ")"
  {
  }

  /** Two parenthesised comparisons joined by AND. */
  lemma {:induction false} PairUnderstood(s1: string, t1: seq<Token>, a1: Ast, s2: string, t2: seq<Token>, a2: Ast)
    requires Reads(s1, t1) && Reads(s2, t2) && IsPrimary(t1, a1) && IsPrimary(t2, a2)
    ensures Reads("(" + (s1 + " AND " + s2) + ")", Closed(Joined([t1, t2], true)))
    ensures IsPrimary(Closed(Joined([t1, t2], true)), Nested([a1, a2], true))
  {
    Folds();
    ReadKeyword("AND", "and", " AND ", "AND ");
    ReadInfix(s1, t1, " AND ", [Word("and")], s2, t2);
    assert [t1, t2][..1] == [t1];
    assert Joined([t1], true) == t1;
    assert Joined([t1, t2], true) == t1 + [Word("and")] + t2;
    ReadEnclosedParens(s1 + " AND " + s2, Joined([t1, t2], true));
    PrimaryIsOperand(t1, a1);
    PrimaryIsOperand(t2, a2);
    JoinedIsPrimary([t1, t2], [a1, a2], true);
  }

  /** Every child of a printable conjunction is printable and understood. */
  lemma {:induction false} ChildrenUnderstood(es: seq<Expr>, col: string, name: string, isAnd: bool, acc: string := "")
    requires AllSafe(es) && IsColumnText(col, name) && JoinChildren(es, isAnd, col, acc).Some?
    ensures forall i :: 0 <= i < |es| ==>
      ExpressionToString(es[i], col).Some? && Understood(ExpressionToString(es[i], col).value, es[i], ColumnToken(col, name), name)
    decreases es, 0
  {
    if es != [] {
      PrintedIsUnderstood(es[0], col, name);
      var sep := if acc != [] then " " + (if isAnd then "AND" else "OR") + " " else "";
      var rest := es[1..];
      ChildrenUnderstood(rest, col, name, isAnd, acc + sep + ExpressionToString(es[0], col).value);
      forall i | 0 < i < |es|
        ensures ExpressionToString(es[i], col).Some? && Understood(ExpressionToString(es[i], col).value, es[i], ColumnToken(col, name), name)
      {
        assert es[i] == rest[i - 1];
      }
    }
  }

  /** The loop over children, on their texts. */
  function JoinTexts(texts: seq<string>, isAnd: bool, acc: string): string
  {
    if texts == [] then acc
    else JoinTexts(texts[1..], isAnd, acc + (" " + (if isAnd then "AND" else "OR") + " ") + texts[0])
  }

  lemma {:induction false} JoinChildrenTexts(es: seq<Expr>, texts: seq<string>, isAnd: bool, col: string, acc: string)
    requires acc != [] && |texts| == |es|
    requires forall i :: 0 <= i < |es| ==> ExpressionToString(es[i], col) == Some(texts[i])
    ensures JoinChildren(es, isAnd, col, acc) == Some(JoinTexts(texts, isAnd, acc))
    decreases |es|
  {
    if es != [] {
      assert forall i :: 0 <= i < |es[1..]| ==> es[1..][i] == es[i + 1] && texts[1..][i] == texts[i + 1];
      JoinChildrenTexts(es[1..], texts[1..], isAnd, col, acc + (" " + (if isAnd then "AND" else "OR") + " ") + texts[0]);
    }
  }

  ghost predicate AllRead(texts: seq<string>, parts: seq<seq<Token>>)
  {
    |texts| == |parts| && forall i :: 0 <= i < |texts| ==> Reads(texts[i], parts[i])
  }

  /** The loop over children reads as the tokens joined by the connective. */
  lemma {:induction false} JoinReads(done: seq<seq<Token>>, acc: string, texts: seq<string>, parts: seq<seq<Token>>, isAnd: bool)
    requires done != [] && Reads(acc, Joined(done, isAnd)) && AllRead(texts, parts)
    ensures Reads(JoinTexts(texts, isAnd, acc), Joined(done + parts, isAnd))
    decreases |texts|
  {
    if texts == [] {
      assert done + parts == done;
    } else {
      var more := done + [parts[0]];
      JoinOneMore(done, acc, texts[0], parts[0], isAnd);
      JoinedMore(done, parts[0], isAnd);
      assert AllRead(texts[1..], parts[1..]);
      JoinReads(more, acc + (" " + (if isAnd then "AND" else "OR") + " ") + texts[0], texts[1..], parts[1..], isAnd);
      assert more + parts[1..] == done + parts;
    }
  }

  lemma {:induction false} JoinedMore(done: seq<seq<Token>>, t: seq<Token>, isAnd: bool)
    requires done != []
    ensures Joined(done + [t], isAnd) == Joined(done, isAnd) + [Word(if isAnd then "and" else "or")] + t
  {
    assert (done + [t])[..|done|] == done;
  }

  lemma {:induction false} JoinOneMore(done: seq<seq<Token>>, acc: string, s: string, t: seq<Token>, isAnd: bool)
    requires done != [] && Reads(acc, Joined(done, isAnd)) && Reads(s, t)
    ensures Reads(acc + (" " + (if isAnd then "AND" else "OR") + " ") + s,
                  Joined(done, isAnd) + [Word(if isAnd then "and" else "or")] + t)
  {
    Folds();
    var word := if isAnd then "AND" else "OR";
    var folded := if isAnd then "and" else "or";
    ReadKeyword(word, folded, " " + word + " ", word + " ");
    ReadInfix(acc, Joined(done, isAnd), " " + word + " ", [Word(folded)], s, t);
  }

  lemma {:induction false} ConjunctionUnderstood(e: Expr, col: string, name: string)
    requires e.Conjunction? && Safe(e) && ExpressionToString(e, col).Some?
    requires forall i :: 0 <= i < |e.children| ==>
      ExpressionToString(e.children[i], col).Some?
      && Understood(ExpressionToString(e.children[i], col).value, e.children[i], ColumnToken(col, name), name)
    ensures Understood(ExpressionToString(e, col).value, e, ColumnToken(col, name), name)
  {
    var ct := ColumnToken(col, name);
    var es := e.children;
    var parts, asts := TokensAll(es, ct), TreeAll(es, name);
    ChildrenRead(e, col, name);
    forall i | 0 <= i < |es| ensures IsOperand(parts[i], asts[i]) {
      assert Understood(ExpressionToString(es[i], col).value, es[i], ct, name);
    }
    JoinedIsPrimary(parts, asts, e.isAnd);
    PrimaryIsOperand(Tokens(e, ct), Tree(e, name));
  }

  lemma {:induction false} ChildrenRead(e: Expr, col: string, name: string)
    requires e.Conjunction? && Safe(e) && ExpressionToString(e, col).Some?
    requires forall i :: 0 <= i < |e.children| ==>
      ExpressionToString(e.children[i], col).Some?
      && Understood(ExpressionToString(e.children[i], col).value, e.children[i], ColumnToken(col, name), name)
    ensures Reads(ExpressionToString(e, col).value, Closed(Joined(TokensAll(e.children, ColumnToken(col, name)), e.isAnd)))
  {
    var ct := ColumnToken(col, name);
    var es := e.children;
    var parts := TokensAll(es, ct);
    var texts := seq(|es|, i requires 0 <= i < |es| => ExpressionToString(es[i], col).value);
    forall i | 0 <= i < |es| ensures Reads(texts[i], parts[i]) && texts[i] != [] {
      assert Understood(ExpressionToString(es[i], col).value, es[i], ct, name);
      NotEmpty(texts[i], parts[i]);
    }
    ConjunctionText(e, col, texts);
    JoinedReads(texts, parts, e.isAnd);
    ReadEnclosedParens(JoinTexts(texts[1..], e.isAnd, texts[0]), Joined(parts, e.isAnd));
  }

  lemma {:induction false} ConjunctionText(e: Expr, col: string, texts: seq<string>)
    requires e.Conjunction? && |texts| == |e.children| > 0 && texts[0] != []
    requires forall i :: 0 <= i < |texts| ==> ExpressionToString(e.children[i], col) == Some(texts[i])
    ensures ExpressionToString(e, col) == Some("(" + JoinTexts(texts[1..], e.isAnd, texts[0]) + ")")
  {
    assert "" + "" + texts[0] == texts[0];
    assert forall i :: 0 <= i < |texts[1..]| ==> e.children[1..][i] == e.children[i + 1] && texts[1..][i] == texts[i + 1];
    JoinChildrenTexts(e.children[1..], texts[1..], e.isAnd, col, texts[0]);
  }

  lemma {:induction false} JoinedReads(texts: seq<string>, parts: seq<seq<Token>>, isAnd: bool)
    requires texts != [] && AllRead(texts, parts)
    ensures Reads(JoinTexts(texts[1..], isAnd, texts[0]), Joined(parts, isAnd))
  {
    assert Joined([parts[0]], isAnd) == parts[0];
    assert AllRead(texts[1..], parts[1..]);
    JoinReads([parts[0]], texts[0], texts[1..], parts[1..], isAnd);
    assert [parts[0]] + parts[1..] == parts;
  }

  ghost predicate ArgsUnderstood(e: Expr, col: string, name: string)
    requires e.Function? && Safe(e)
  {
    forall i :: 0 <= i < |e.args| && ExpressionToString(e.args[i], col).Some? ==>
      Understood(ExpressionToString(e.args[i], col).value, e.args[i], ColumnToken(col, name), name)
  }

  lemma {:induction false} CallUnderstood(e: Expr, col: string, name: string)
    requires e.Function? && IsCaseFunction(e.name) && Safe(e) && ExpressionToString(e, col).Some?
    requires ArgsUnderstood(e, col, name)
    ensures Understood(ExpressionToString(e, col).value, e, ColumnToken(col, name), name)
  {
    var ct := ColumnToken(col, name);
    var x := e.args[0];
    assert Understood(ExpressionToString(x, col).value, x, ct, name);
    ReadCall(e.name, ExpressionToString(x, col).value, Tokens(x, ct));
    CallIsPrimary(e.name, Tokens(x, ct), Tree(x, name));
    PrimaryIsOperand(Tokens(e, ct), Tree(e, name));
  }

  lemma {:induction false} OperatorUnderstood(e: Expr, col: string, name: string)
    requires e.Function? && IsLikeOperator(e.name) && Safe(e) && ExpressionToString(e, col).Some?
    requires ArgsUnderstood(e, col, name)
    ensures Understood(ExpressionToString(e, col).value, e, ColumnToken(col, name), name)
  {
    var ct := ColumnToken(col, name);
    var x, y := e.args[0], e.args[1];
    assert Understood(ExpressionToString(x, col).value, x, ct, name);
    assert Understood(ExpressionToString(y, col).value, y, ct, name);
    var sx, sy := ExpressionToString(x, col).value, ExpressionToString(y, col).value;
    var mid := " OPERATOR(pg_catalog." + e.name + ") ";
    ReadLikeOperator(e.name);
    ReadInfix(sx, Tokens(x, ct), mid, QualifiedOperator(e.name), sy, Tokens(y, ct));
    assert sx + mid + sy == sx + " OPERATOR(pg_catalog." + e.name + ") " + sy;
    OperatorIsOperand(e.name, Tokens(x, ct), Tree(x, name), Tokens(y, ct), Tree(y, name));
  }

  function LikeText(ic: bool): string { if ic then " ILIKE " else " LIKE " }

  lemma {:induction false} ReadLikeText(ic: bool)
    ensures ReadsFreely(LikeText(ic), [LikeWord(ic)])
  {
    Folds();
    if ic {
      ReadKeyword("ILIKE", "ilike", " ILIKE ", "ILIKE ");
    } else {
      ReadKeyword("LIKE", "like", " LIKE ", "LIKE ");
    }
  }

  lemma {:induction false} LikeUnderstood(e: Expr, col: string, name: string)
    requires e.Function? && (IsNeedleFunction(e.name) || IsEscapeFunction(e.name))
    requires Safe(e) && ExpressionToString(e, col).Some? && IsColumnText(col, name)
    requires ArgsUnderstood(e, col, name)
    ensures Understood(ExpressionToString(e, col).value, e, ColumnToken(col, name), name)
  {
    if IsNeedleFunction(e.name) {
      NeedleUnderstood(e, col, name);
    } else {
      EscapeUnderstood(e, col, name);
    }
  }

  lemma {:induction false} NeedleUnderstood(e: Expr, col: string, name: string)
    requires e.Function? && IsNeedleFunction(e.name) && Safe(e) && ExpressionToString(e, col).Some?
    requires ArgsUnderstood(e, col, name)
    ensures Understood(ExpressionToString(e, col).value, e, ColumnToken(col, name), name)
  {
    var ct, h, c := ColumnToken(col, name), e.args[0], e.args[1].constant;
    assert Understood(ExpressionToString(h, col).value, h, ct, name);
    ReadLikeText(false);
    ReadNeedle(e.name, e.args[1]);
    var n := FuncArgToLikeString(e.name, e.args[1]).value;
    ReadInfix(ExpressionToString(h, col).value, Tokens(h, ct), LikeText(false), [LikeWord(false)], n, NeedleTokens(e.name, c));
    SingleIsPrimary(NeedleTokens(e.name, c)[0], NeedleAst(e.name, c));
    LikeIsOperand(false, Tokens(h, ct), Tree(h, name), NeedleTokens(e.name, c), NeedleAst(e.name, c));
  }

  lemma {:induction false} EscapeUnderstood(e: Expr, col: string, name: string)
    requires e.Function? && IsEscapeFunction(e.name) && Safe(e) && ExpressionToString(e, col).Some? && IsColumnText(col, name)
    requires ArgsUnderstood(e, col, name)
    ensures Understood(ExpressionToString(e, col).value, e, ColumnToken(col, name), name)
  {
    var ct, ic, h, p := ColumnToken(col, name), e.name == "ilike_escape", e.args[0], e.args[1];
    assert Understood(ExpressionToString(h, col).value, h, ct, name);
    assert Understood(ExpressionToString(p, col).value, p, ct, name);
    ReadLikeText(ic);
    var sh, sp := ExpressionToString(h, col).value, ExpressionToString(p, col).value;
    ReadInfix(sh, Tokens(h, ct), LikeText(ic), [LikeWord(ic)], sp, Tokens(p, ct));
    LikeIsOperand(ic, Tokens(h, ct), Tree(h, name), Tokens(p, ct), Tree(p, name));
    if |e.args| == 3 {
      var x := e.args[2];
      assert Understood(ExpressionToString(x, col).value, x, ct, name);
      DefaultEscapeText(x, col, name);
      if Escapes(e.args) {
        ReadEscapeClause(sh + LikeText(ic) + sp, Tokens(h, ct) + [LikeWord(ic)] + Tokens(p, ct), ExpressionToString(x, col).value, Tokens(x, ct));
        LikeEscapeIsOperand(ic, Tokens(h, ct), Tree(h, name), Tokens(p, ct), Tree(p, name), Tokens(x, ct), Tree(x, name));
      }
    }
  }

  lemma {:induction false} ReadEscapeClause(s: string, ts: seq<Token>, x: string, tx: seq<Token>)
    requires Reads(s, ts) && Reads(x, tx)
    ensures Reads(s + " ESCAPE " + x, ts + [Word("escape")] + tx)
  {
    Folds();
    ReadKeyword("ESCAPE", "escape", " ESCAPE ", "ESCAPE ");
    ReadInfix(s, ts, " ESCAPE ", [Word("escape")], x, tx);
  }

  /** The escape text is dropped exactly when it is the backslash literal. */
  lemma {:induction false} DefaultEscapeText(x: Expr, col: string, name: string)
    requires Safe(x) && ExpressionToString(x, col).Some? && IsColumnText(col, name)
    requires Reads(ExpressionToString(x, col).value, Tokens(x, ColumnToken(col, name)))
    requires Atomic(x)
    ensures ExpressionToString(x, col).value == "'\\'" <==> x.Const? && x.constant == TextConst("\\")
  {
    ReadString("\\");
    ReplaceOne('\\', '\'', ['\'', '\'']);
    assert Enclose("\\", '\'') == "'\\'";
    ReadsWhole("'\\'", [Token.Str("\\")]);
    ReadsWhole(ExpressionToString(x, col).value, Tokens(x, ColumnToken(col, name)));
    if ExpressionToString(x, col).value == "'\\'" {
      assert Tokens(x, ColumnToken(col, name)) == [Token.Str("\\")];
      assert Tokens(x, ColumnToken(col, name))[0] == Token.Str("\\");
    }
  }

  lemma {:induction false} OperandIsCondition(text: string, ts: seq<Token>, a: Ast)
    requires Reads(text, ts) && IsOperand(ts, a)
    ensures ParseCondition(text) == Some(a)
  {
    ReadsWhole(text, ts);
    assert ts + [] == ts;
    assert ParseNot(ts) == Some((a, []));
    assert AndTail(a, []) == Some((a, [])) && OrTail(a, []) == Some((a, []));
    assert ParseAnd(ts) == Some((a, []));
    assert ParseOr(ts) == Some((a, []));
  }

  /**
   Every printed expression with safe operands is read back by Postgres, and what is read has the
   same three-valued meaning on every row on which no pattern of `~~` holds a backslash.
   */
  lemma {:induction false} PushdownIsExact(w: World, e: Expr, col: string, name: string)
    requires Safe(e) && IsColumnText(col, name) && ExpressionToString(e, col).Some? && PlainPatterns(w, name, e)
    ensures ParseCondition(ExpressionToString(e, col).value).Some?
    ensures PgEval(w, ParseCondition(ExpressionToString(e, col).value).value) == DuckEval(w, name, e)
  {
    PrintedIsUnderstood(e, col, name);
    OperandIsCondition(ExpressionToString(e, col).value, Tokens(e, ColumnToken(col, name)), Tree(e, name));
    TreeMeaning(w, name, e, col);
  }

  /** The same for every printable expression that is typed as the binder types it. */
  lemma {:induction false} TypedPushdownIsExact(w: World, e: Expr, col: string, name: string)
    requires TextTyped(e) && IsColumnText(col, name) && ExpressionToString(e, col).Some? && PlainPatterns(w, name, e)
    ensures ParseCondition(ExpressionToString(e, col).value).Some?
    ensures PgEval(w, ParseCondition(ExpressionToString(e, col).value).value) == DuckEval(w, name, e)
  {
    TypedIsSafe(e, col);
    PushdownIsExact(w, e, col, name);
  }

  /**
   The gate accepts an expression by printing it for a column called "dummy"; the text that is later
   built for the real column, whose result is used unchecked, then exists and is read back by
   Postgres, and it is exact on every row without a backslash in a pattern of `~~`.
   */
  lemma {:induction false} GateIsSufficient(w: World, e: Expr, col: string, name: string)
    requires Safe(e) && IsColumnText(col, name) && ExpressionToString(e, "dummy").Some?
    ensures ExpressionToString(e, col).Some?
    ensures ParseCondition(ExpressionToString(e, col).value).Some?
    ensures PlainPatterns(w, name, e) ==> PgEval(w, ParseCondition(ExpressionToString(e, col).value).value) == DuckEval(w, name, e)
    ensures ConstantPatterns(e) ==> PlainPatterns(w, name, e)
  {
    PrintableForAnyName(e, "dummy", col);
    PrintedIsUnderstood(e, col, name);
    OperandIsCondition(ExpressionToString(e, col).value, Tokens(e, ColumnToken(col, name)), Tree(e, name));
    if PlainPatterns(w, name, e) {
      PushdownIsExact(w, e, col, name);
    }
    if ConstantPatterns(e) {
      ConstantPatternsArePlain(w, name, e);
    }
  }

  /** `column ~~ 'p'` or `column !~~ 'p'`, as an operator. */
  function LikeFilter(f: string, p: string): Expr
  {
    Function(f, [ColumnRef(Varchar), Const(TextConst(p), Varchar)], true, Boolean)
  }

  /** The condition Postgres reads for `e` gives every row the value DuckDB gives it. */
  ghost predicate ExactOnEveryRow(e: Expr, col: string, name: string)
  {
    && ExpressionToString(e, col).Some? && ParseCondition(ExpressionToString(e, col).value).Some?
    && SameOnEveryRow(ParseCondition(ExpressionToString(e, col).value).value, e, name)
  }

  ghost predicate SameOnEveryRow(a: Ast, e: Expr, name: string)
  {
    forall w: World :: PgEval(w, a) == DuckEval(w, name, e)
  }

  /** The pushed-down operator is exact on every row if and only if its pattern holds no backslash. */
  lemma {:induction false} LikeOperatorExactly(f: string, p: string, col: string, name: string)
    requires IsLikeOperator(f) && IsColumnText(col, name)
    ensures ExactOnEveryRow(LikeFilter(f, p), col, name) <==> '\\' !in p
  {
    var e := LikeFilter(f, p);
    PrintedIsUnderstood(e, col, name);
    OperandIsCondition(ExpressionToString(e, col).value, Tokens(e, ColumnToken(col, name)), Tree(e, name));
    LikeValuesAgreeExactly(f, p, name);
  }

  lemma {:induction false} LikeValuesAgreeExactly(f: string, p: string, name: string)
    requires IsLikeOperator(f)
    ensures SameOnEveryRow(Tree(LikeFilter(f, p), name), LikeFilter(f, p), name) <==> '\\' !in p
  {
    if '\\' in p {
      var h := BackslashSeparates(p);
      LikeFilterValues(RowWith(Value.Str(h)), f, p, name);
    } else {
      forall w: World ensures PgEval(w, Tree(LikeFilter(f, p), name)) == DuckEval(w, name, LikeFilter(f, p)) {
        LikeFilterValues(w, f, p, name);
        OperatorMeaning(f, w.column(name), Value.Str(p));
      }
    }
  }

  lemma {:induction false} LikeFilterValues(w: World, f: string, p: string, name: string)
    requires IsLikeOperator(f)
    ensures PgEval(w, Tree(LikeFilter(f, p), name)) == PgOperator(f, w.column(name), Value.Str(p))
    ensures DuckEval(w, name, LikeFilter(f, p)) == DuckLike(f, w.column(name), Value.Str(p))
  {
    assert DuckEvalAll(w, name, LikeFilter(f, p).args) == [w.column(name), Value.Str(p)];
  }

  /** A row whose columns all hold `v`. */
  ghost function RowWith(v: Value): World
  {
    World(_ => v, _ => Null, _ => Null, (_, _, _) => Null, (_, _) => Null, (_, _, _) => false, (_, _, _, _) => Null)
  }

  /** `a\b`: Postgres finds `ab`, DuckDB does not. */
  lemma {:induction false} BackslashPatternIsMisread()
    ensures LikeMatch("a\\b", "ab") && !PlainMatch("a\\b", "ab")
  {
  }

  /**
   Why operands must be atomic: a negation on the left of any comparison swallows the comparison.
   Postgres reads, and computes, the negation of the comparison of the bare operand.
   */
  lemma {:induction false} NegatedOperandIsMisread(w: World, op: CmpOp, a: Expr, r: Expr, col: string, name: string)
    requires Safe(a) && Safe(r) && Atomic(r) && IsColumnText(col, name)
    requires ExpressionToString(a, col).Some? && ExpressionToString(r, col).Some?
    ensures
      var text := ExpressionToString(Compare(op, Not(a), r), col);
      text.Some? && ParseCondition(text.value) == Some(Neg(Cmp(op, Tree(a, name), Tree(r, name))))
    ensures PlainPatterns(w, name, a) && PlainPatterns(w, name, r) ==>
      PgEval(w, Neg(Cmp(op, Tree(a, name), Tree(r, name)))) == Not3(Compare3(w, op, DuckEval(w, name, a), DuckEval(w, name, r)))
    ensures DuckEval(w, name, Compare(op, Not(a), r)) == Compare3(w, op, Not3(DuckEval(w, name, a)), DuckEval(w, name, r))
  {
    PrintedIsUnderstood(a, col, name);
    PrintedIsUnderstood(r, col, name);
    NegatedText(op, a, r, col, name);
    NegationOfComparison(w, op, Tree(a, name), Tree(r, name));
    ComparisonOfNegation(w, name, op, a, r);
    if PlainPatterns(w, name, a) && PlainPatterns(w, name, r) {
      TreeMeaning(w, name, a, col);
      TreeMeaning(w, name, r, col);
    }
  }

  lemma {:induction false} NegationOfComparison(w: World, op: CmpOp, a: Ast, r: Ast)
    ensures PgEval(w, Neg(Cmp(op, a, r))) == Not3(Compare3(w, op, PgEval(w, a), PgEval(w, r)))
  {
    NegationValue(w, Cmp(op, a, r));
    ComparisonValue(w, op, a, r);
  }

  lemma {:induction false} ComparisonOfNegation(w: World, name: string, op: CmpOp, a: Expr, r: Expr)
    ensures DuckEval(w, name, Compare(op, Not(a), r)) == Compare3(w, op, Not3(DuckEval(w, name, a)), DuckEval(w, name, r))
  {
    assert DuckEval(w, name, Not(a)) == Not3(DuckEval(w, name, a));
  }

  lemma {:induction false} NegatedText(op: CmpOp, a: Expr, r: Expr, col: string, name: string)
    requires Safe(a) && Safe(r) && Atomic(r) && ExpressionToString(a, col).Some? && ExpressionToString(r, col).Some?
    requires Understood(ExpressionToString(a, col).value, a, ColumnToken(col, name), name)
    requires Understood(ExpressionToString(r, col).value, r, ColumnToken(col, name), name)
    ensures
      var text := ExpressionToString(Compare(op, Not(a), r), col);
      text.Some? && ParseCondition(text.value) == Some(Neg(Cmp(op, Tree(a, name), Tree(r, name))))
  {
    var sa, sr := ExpressionToString(a, col).value, ExpressionToString(r, col).value;
    var ta, tr := Tokens(a, ColumnToken(col, name)), Tokens(r, ColumnToken(col, name));
    ReadNot(sa, ta);
    ReadComparison("NOT (" + sa + ")", [Word("not")] + Closed(ta), op, sr, tr);
    NegatedTokens(op, ta, Tree(a, name), tr, Tree(r, name));
    assert ExpressionToString(Not(a), col) == Some("NOT (" + sa + ")");
    assert ExpressionToString(Compare(op, Not(a), r), col) == Some(ComparisonText("NOT (" + sa + ")", op, sr));
    OperandIsCondition(ComparisonText("NOT (" + sa + ")", op, sr),
                       Closed([Word("not")] + Closed(ta) + OperatorTokens(op) + tr),
                       Neg(Cmp(op, Tree(a, name), Tree(r, name))));
  }

  lemma {:induction false} NegatedTokens(op: CmpOp, ta: seq<Token>, a: Ast, tr: seq<Token>, r: Ast)
    requires IsOperand(ta, a) && IsPrimary(tr, r)
    ensures IsOperand(Closed([Word("not")] + Closed(ta) + OperatorTokens(op) + tr), Neg(Cmp(op, a, r)))
  {
    ClosedOperand(ta, a);
    ComparisonIsOperand(op, Closed(ta), a, tr, r);
    var cmp := Closed(ta) + OperatorTokens(op) + tr;
    NotBeforeOperand(cmp, Cmp(op, a, r));
    assert [Word("not")] + cmp == [Word("not")] + Closed(ta) + OperatorTokens(op) + tr;
    ClosedOperand([Word("not")] + cmp, Neg(Cmp(op, a, r)));
    PrimaryIsOperand(Closed([Word("not")] + cmp), Neg(Cmp(op, a, r)));
  }

  lemma {:induction false} NotBeforeOperand(ts: seq<Token>, a: Ast)
    requires IsOperand(ts, a)
    ensures IsOperand([Word("not")] + ts, Neg(a))
  {
    var all := [Word("not")] + ts;
    forall rest | Stops(rest)
      ensures ParseNot(all + rest) == Some((Neg(a), rest))
    {
      assert (all + rest)[0] == Word("not") && (all + rest)[1..] == ts + rest;
    }
  }

  /** `(NOT c) >= c` on a row where `c` is false: DuckDB keeps it, Postgres does not. */
  lemma {:induction false} NegatedOperandLosesRow(w: World, col: string, name: string)
    requires IsColumnText(col, name) && w.column(name) == Bool(false)
    requires w.compare(Ge, Bool(true), Bool(false)) && w.compare(Ge, Bool(false), Bool(false))
    ensures
      var e := Compare(Ge, Not(ColumnRef(Boolean)), ColumnRef(Boolean));
      && DuckEval(w, name, e) == Bool(true)
      && ExpressionToString(e, col).Some? && ParseCondition(ExpressionToString(e, col).value).Some?
      && PgEval(w, ParseCondition(ExpressionToString(e, col).value).value) == Bool(false)
  {
    NegatedOperandIsMisread(w, Ge, ColumnRef(Boolean), ColumnRef(Boolean), col, name);
    assert DuckEval(w, name, ColumnRef(Boolean)) == Bool(false);
  }

  // ---------------------------------------------------------------- when the misreading does no harm

  predicate IsBoolean(v: Value) { v == Null || v.Bool? }

  /** Booleans with false before true. */
  function BooleanCompare(op: CmpOp, a: Value, b: Value): bool
  {
    if !a.Bool? || !b.Bool? then false
    else match op
      case Eq => a.b == b.b
      case Ne => a.b != b.b
      case Lt => !a.b && b.b
      case Gt => a.b && !b.b
      case Le => !a.b || b.b
      case Ge => a.b || !b.b
      case _ => false
  }

  ghost predicate OrdersBooleans(w: World)
  {
    forall op: CmpOp, a: bool, b: bool :: w.compare(op, Bool(a), Bool(b)) == BooleanCompare(op, Bool(a), Bool(b))
  }

  /** Negating the comparison is comparing the negation, for `=` and `!=` of any booleans. */
  lemma {:induction false} NegationMovesOut(w: World, op: CmpOp, x: Value, y: Value)
    requires OrdersBooleans(w) && IsBoolean(x) && IsBoolean(y) && (op == Eq || op == Ne)
    ensures Not3(Compare3(w, op, x, y)) == Compare3(w, op, Not3(x), y)
  {
  }

  /** A value on which the two differ when both operands are that value. */
  function SeparatingValue(op: CmpOp): Value
  {
    match op
    case Distinct => Null
    case NotDistinct => Null
    case Le => Bool(true)
    case Gt => Bool(true)
    case _ => Bool(false)
  }

  lemma {:induction false} NegationStaysIn(w: World, op: CmpOp)
    requires OrdersBooleans(w) && op != Eq && op != Ne
    ensures
      var x := SeparatingValue(op);
      IsBoolean(x) && Not3(Compare3(w, op, x, x)) != Compare3(w, op, Not3(x), x)
  {
    assert forall a: bool, b: bool :: w.compare(op, Bool(a), Bool(b)) == BooleanCompare(op, Bool(a), Bool(b));
  }

  /** With `=` and `!=` the misread text keeps the value, for all operands that are boolean on the row. */
  lemma {:induction false} NegatedOperandIsKept(w: World, op: CmpOp, a: Expr, r: Expr, col: string, name: string)
    requires Safe(a) && Safe(r) && Atomic(r) && IsColumnText(col, name) && PlainPatterns(w, name, a) && PlainPatterns(w, name, r)
    requires ExpressionToString(a, col).Some? && ExpressionToString(r, col).Some?
    requires OrdersBooleans(w) && IsBoolean(DuckEval(w, name, a)) && IsBoolean(DuckEval(w, name, r)) && (op == Eq || op == Ne)
    ensures
      var text := ExpressionToString(Compare(op, Not(a), r), col);
      && text.Some? && ParseCondition(text.value).Some?
      && PgEval(w, ParseCondition(text.value).value) == DuckEval(w, name, Compare(op, Not(a), r))
  {
    NegatedOperandIsMisread(w, op, a, r, col, name);
    NegationMovesOut(w, op, DuckEval(w, name, a), DuckEval(w, name, r));
  }

  /** A row whose column holds the boolean `v`. */
  ghost function BooleanRow(v: Value): (w: World)
    ensures OrdersBooleans(w) && forall n :: w.column(n) == v
  {
    World(_ => v, _ => Null, _ => Null, (_, _, _) => Null, (_, _) => Null,
          (op: CmpOp, a: Value, b: Value) => BooleanCompare(op, a, b), (_, _, _, _) => Null)
  }

  /** The negated column compared with itself. */
  function NegatedColumn(op: CmpOp): Expr
  {
    Compare(op, Not(ColumnRef(Boolean)), ColumnRef(Boolean))
  }

  ghost predicate KeptOnBooleanRows(op: CmpOp, col: string, name: string)
  {
    var text := ExpressionToString(NegatedColumn(op), col);
    && text.Some? && ParseCondition(text.value).Some?
    && forall w: World :: OrdersBooleans(w) && IsBoolean(w.column(name)) ==>
         PgEval(w, ParseCondition(text.value).value) == DuckEval(w, name, NegatedColumn(op))
  }

  /** The misreading keeps the meaning on every row if and only if the operator is `=` or `!=`. */
  lemma {:induction false} NegatedOperandKeptExactly(op: CmpOp, col: string, name: string)
    requires IsColumnText(col, name)
    ensures KeptOnBooleanRows(op, col, name) <==> op == Eq || op == Ne
  {
    if op == Eq || op == Ne {
      NegatedOperandIsMisread(BooleanRow(Null), op, ColumnRef(Boolean), ColumnRef(Boolean), col, name);
      forall w: World | OrdersBooleans(w) && IsBoolean(w.column(name))
        ensures PgEval(w, ParseCondition(ExpressionToString(NegatedColumn(op), col).value).value) == DuckEval(w, name, NegatedColumn(op))
      {
        NegatedOperandIsKept(w, op, ColumnRef(Boolean), ColumnRef(Boolean), col, name);
      }
    } else {
      NegatedColumnSeparates(op, col, name);
    }
  }

  lemma {:induction false} NegatedColumnSeparates(op: CmpOp, col: string, name: string)
    requires IsColumnText(col, name) && op != Eq && op != Ne
    ensures !KeptOnBooleanRows(op, col, name)
  {
    var w := BooleanRow(SeparatingValue(op));
    NegationStaysIn(w, op);
    NegatedOperandIsMisread(w, op, ColumnRef(Boolean), ColumnRef(Boolean), col, name);
    assert DuckEval(w, name, ColumnRef(Boolean)) == SeparatingValue(op);
  }
}
