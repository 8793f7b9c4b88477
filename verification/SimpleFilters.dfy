/**
 The filters DuckDB prints itself: a comparison of the column with a constant, a null test, and an
 IN list. Their text goes into the WHERE clause as it is; here it is read back the way Postgres does.
 */
module SimpleFilters {
  import opened Results
  import opened LikePattern
  import opened SqlLexer
  import opened SqlParser
  import opened ExpressionPushdown
  import opened PushdownMeaning

  /**
   A constant as an SQL literal: a number, a string, a boolean, or a string cast to a type (dates,
   times, timestamps). `zoned` types are written `WITH TIME ZONE`.
   */
  datatype Literal =
    | Numeral(negative: bool, digits: string)
    | Quotation(value: string)
    | Truth(b: bool)
    | Typed(value: string, typeName: string, zoned: bool)

  datatype SimpleFilter =
    | Comparison(op: CmpOp, literal: Literal)
    | NullCheck(positive: bool)
    | Membership(literals: seq<Literal>)

  function LiteralText(l: Literal): string
  {
    match l
    case Numeral(negative, d) => (if negative then "-" else "") + d
    case Quotation(v) => Enclose(v, '\'')
    case Truth(b) => if b then "true" else "false"
    case Typed(v, t, zoned) => Enclose(v, '\'') + "::" + t + (if zoned then " WITH TIME ZONE" else "")
  }

  function ListText(ls: seq<Literal>): string
    requires ls != []
  {
    if |ls| == 1 then LiteralText(ls[0]) else LiteralText(ls[0]) + ", " + ListText(ls[1..])
  }

  function SimpleText(f: SimpleFilter, col: string): string
  {
    match f
    case Comparison(op, l) => col + OperatorText(op) + LiteralText(l)
    case NullCheck(positive) => col + (if positive then " IS NULL" else " IS NOT NULL")
    case Membership(ls) => if ls == [] then [] else col + " IN (" + ListText(ls) + ")"
  }

  /** What DuckDB prints: numbers are numeric literals, type names are words of a type. */
  predicate LiteralOk(l: Literal)
  {
    match l
    case Numeral(_, d) => IsNumber(d)
    case Typed(_, t, zoned) =>
      IsWordText(t) && FoldAll(t) !in RESERVED && (zoned ==> FoldAll(t) == "timestamp" || FoldAll(t) == "time")
    case _ => true
  }

  /** DuckDB compares with the six symbols and refuses an empty IN list. */
  predicate SimpleOk(f: SimpleFilter)
  {
    match f
    case Comparison(op, l) => op != Distinct && op != NotDistinct && LiteralOk(l)
    case NullCheck(_) => true
    case Membership(ls) => ls != [] && forall i :: 0 <= i < |ls| ==> LiteralOk(ls[i])
  }

  /** `col!=-5`: the minus becomes part of the operator name. */
  predicate Misread(f: SimpleFilter)
  {
    f.Comparison? && f.op == Ne && f.literal.Numeral? && f.literal.negative
  }

  // ---------------------------------------------------------------- what they mean in DuckDB

  function LiteralValue(w: World, l: Literal): Value
  {
    match l
    case Numeral(negative, d) => if negative then w.minus(w.number(d)) else w.number(d)
    case Quotation(v) => Value.Str(v)
    case Truth(b) => Bool(b)
    case Typed(v, t, zoned) => w.cast(FoldAll(t), zoned, Value.Str(v))
  }

  ghost predicate SimpleAccepts(w: World, name: string, f: SimpleFilter)
  {
    match f
    case Comparison(op, l) => Compare3(w, op, w.column(name), LiteralValue(w, l)) == Bool(true)
    case NullCheck(positive) => (w.column(name) == Null) == positive
    case Membership(ls) => exists i :: 0 <= i < |ls| && Compare3(w, Eq, w.column(name), LiteralValue(w, ls[i])) == Bool(true)
  }

  // ---------------------------------------------------------------- tokens and trees

  function LiteralTokens(l: Literal): (ts: seq<Token>)
    ensures ts != []
  {
    match l
    case Numeral(negative, d) => if negative then [Operator("-"), Token.Number(d)] else [Token.Number(d)]
    case Quotation(v) => [Token.Str(v)]
    case Truth(b) => [Word(if b then "true" else "false")]
    case Typed(v, t, zoned) =>
      [Token.Str(v), Cast, Word(FoldAll(t))] + (if zoned then [Word("with"), Word("time"), Word("zone")] else [])
  }

  function LiteralTree(l: Literal): Ast
  {
    match l
    case Numeral(negative, d) => if negative then Minus(Ast.Number(d)) else Ast.Number(d)
    case Quotation(v) => Text(v)
    case Truth(b) => BoolLit(b)
    case Typed(v, t, zoned) => CastTo(Text(v), FoldAll(t), zoned)
  }

  function ListTokens(ls: seq<Literal>): seq<Token>
    requires ls != []
  {
    if |ls| == 1 then LiteralTokens(ls[0]) else LiteralTokens(ls[0]) + [Comma] + ListTokens(ls[1..])
  }

  function ListTrees(ls: seq<Literal>): (r: seq<Ast>)
    ensures |r| == |ls|
  {
    if ls == [] then [] else [LiteralTree(ls[0])] + ListTrees(ls[1..])
  }

  function SimpleTokens(f: SimpleFilter, ct: Token): seq<Token>
  {
    match f
    case Comparison(op, l) => [ct] + OperatorTokens(op) + LiteralTokens(l)
    case NullCheck(positive) => [ct] + (if positive then [Word("is"), Word("null")] else [Word("is"), Word("not"), Word("null")])
    case Membership(ls) => if ls == [] then [] else [ct, Word("in")] + Closed(ListTokens(ls))
  }

  function SimpleTree(f: SimpleFilter, name: string): Ast
  {
    match f
    case Comparison(op, l) => Cmp(op, Column(name), LiteralTree(l))
    case NullCheck(positive) => NullTest(positive, Column(name))
    case Membership(ls) => InList(Column(name), ListTrees(ls))
  }

  // ---------------------------------------------------------------- literals

  lemma {:induction false} ReadNegative(d: string)
    requires IsNumber(d)
    ensures Reads("-" + d, [Operator("-"), Token.Number(d)])
  {
    ReadNumber(d);
    forall rest | Clean(rest) ensures Lex("-" + d + rest) == [Operator("-"), Token.Number(d)] + Lex(rest) {
      assert Lex(d + rest) == [Token.Number(d)] + Lex(rest);
      ReadMinusBefore(d, rest, [Token.Number(d)], Lex(rest));
    }
  }

  lemma {:induction false} ReadMinusBefore(d: string, rest: string, ts: seq<Token>, more: seq<Token>)
    requires d != [] && !IsOperatorChar(d[0]) && Lex(d + rest) == ts + more
    ensures Lex("-" + d + rest) == [Operator("-")] + ts + more
  {
    AssocText("-", d, rest);
    ReadOperatorBefore("-", d + rest);
    AssocTokens([Operator("-")], ts, more);
  }

  lemma {:induction false} ReadTypeName(t: string, zoned: bool)
    requires IsWordText(t)
    ensures Reads(t + (if zoned then " WITH TIME ZONE" else ""),
                  [Word(FoldAll(t))] + (if zoned then [Word("with"), Word("time"), Word("zone")] else []))
  {
    ReadWord(t);
    if zoned {
      ReadZone();
      ThenClean(t, [Word(FoldAll(t))], " WITH TIME ZONE", [Word("with"), Word("time"), Word("zone")]);
    } else {
      assert t + "" == t && [Word(FoldAll(t))] + [] == [Word(FoldAll(t))];
    }
  }

  lemma {:induction false} ReadZone()
    ensures Reads(" WITH TIME ZONE", [Word("with"), Word("time"), Word("zone")])
  {
    assert FoldAll("WITH") == "with" && FoldAll("TIME") == "time" && FoldAll("ZONE") == "zone";
    ReadKeyword("WITH", "with", " WITH ", "WITH ");
    ReadKeyword("TIME", "time", " TIME ", "TIME ");
    ReadWord("ZONE");
    ThenFreely(" WITH ", [Word("with")], "TIME ", [Word("time")]);
    Then(" WITH " + "TIME ", [Word("with")] + [Word("time")], "ZONE", [Word("zone")]);
    assert " WITH " + "TIME " + "ZONE" == " WITH TIME ZONE";
    assert [Word("with")] + [Word("time")] + [Word("zone")] == [Word("with"), Word("time"), Word("zone")];
  }

  /** A quoted string directly followed by text that does not start with a quote. */
  lemma {:induction false} ReadStringThen(v: string, d: string, td: seq<Token>)
    requires d != [] && d[0] != '\'' && Reads(d, td)
    ensures Reads(Enclose(v, '\'') + d, [Token.Str(v)] + td)
  {
    forall rest | Clean(rest) ensures Lex(Enclose(v, '\'') + d + rest) == [Token.Str(v)] + td + Lex(rest) {
      AssocText(Enclose(v, '\''), d, rest);
      ReadStringBefore(v, d + rest);
      AssocTokens([Token.Str(v)], td, Lex(rest));
    }
  }

  lemma {:induction false} LiteralReads(l: Literal)
    requires LiteralOk(l)
    ensures Reads(LiteralText(l), LiteralTokens(l)) && LiteralText(l) != []
  {
    match l
    case Numeral(negative, d) =>
      ReadNumber(d);
      ReadNegative(d);
      assert "" + d == d;
    case Quotation(v) => ReadString(v);
    case Truth(b) =>
      FoldLower("true");
      FoldLower("false");
      ReadWord(if b then "true" else "false");
    case Typed(v, t, zoned) => TypedReads(v, t, zoned);
  }

  lemma {:induction false} TypedReads(v: string, t: string, zoned: bool)
    requires IsWordText(t)
    ensures Reads(LiteralText(Typed(v, t, zoned)), LiteralTokens(Typed(v, t, zoned)))
  {
    var tail := if zoned then " WITH TIME ZONE" else "";
    var words := if zoned then [Word("with"), Word("time"), Word("zone")] else [];
    ReadTypeName(t, zoned);
    ReadCast();
    Then("::", [Cast], t + tail, [Word(FoldAll(t))] + words);
    var d, td := "::" + (t + tail), [Cast] + ([Word(FoldAll(t))] + words);
    assert d[0] == ':';
    ReadStringThen(v, d, td);
    TypedPieces(v, t, tail, words, zoned);
  }

  lemma {:induction false} TypedPieces(v: string, t: string, tail: string, words: seq<Token>, zoned: bool)
    requires tail == if zoned then " WITH TIME ZONE" else ""
    requires words == if zoned then [Word("with"), Word("time"), Word("zone")] else []
    ensures LiteralText(Typed(v, t, zoned)) == Enclose(v, '\'') + ("::" + (t + tail))
    ensures LiteralTokens(Typed(v, t, zoned)) == [Token.Str(v)] + ([Cast] + ([Word(FoldAll(t))] + words))
  {
    AssocText("::", t, tail);
    AssocText(Enclose(v, '\''), "::" + t, tail);
    AssocText(Enclose(v, '\''), "::", t);
    assert [Token.Str(v), Cast, Word(FoldAll(t))] + words == [Token.Str(v)] + ([Cast] + ([Word(FoldAll(t))] + words));
  }

  lemma {:induction false} LiteralIsPrimary(l: Literal)
    requires LiteralOk(l)
    ensures IsPrimary(LiteralTokens(l), LiteralTree(l))
  {
    match l
    case Numeral(negative, d) =>
      SingleIsPrimary(Token.Number(d), Ast.Number(d));
      if negative { MinusIsPrimary(d); }
    case Quotation(v) => SingleIsPrimary(Token.Str(v), Text(v));
    case Truth(b) =>
      assert |"true"| == 4 && |"false"| == 5 && "null"[0] == 'n' && "true"[0] == 't' && |"not"| == 3;
      SingleIsPrimary(Word(if b then "true" else "false"), BoolLit(b));
    case Typed(v, t, zoned) => TypedIsPrimary(v, t, zoned);
  }

  lemma {:induction false} MinusIsPrimary(d: string)
    requires IsPrimary([Token.Number(d)], Ast.Number(d))
    ensures IsPrimary([Operator("-"), Token.Number(d)], Minus(Ast.Number(d)))
  {
    var all := [Operator("-"), Token.Number(d)];
    forall rest | EndsPrimary(rest)
      ensures ParsePrimary(all + rest) == Some((Minus(Ast.Number(d)), rest))
    {
      assert (all + rest)[0] == Operator("-") && (all + rest)[1..] == [Token.Number(d)] + rest;
    }
  }

  lemma {:induction false} TypedIsPrimary(v: string, t: string, zoned: bool)
    requires FoldAll(t) !in RESERVED && (zoned ==> FoldAll(t) == "timestamp" || FoldAll(t) == "time")
    ensures IsPrimary(LiteralTokens(Typed(v, t, zoned)), LiteralTree(Typed(v, t, zoned)))
  {
    var all := LiteralTokens(Typed(v, t, zoned));
    forall rest | EndsPrimary(rest)
      ensures ParsePrimary(all + rest) == Some((CastTo(Text(v), FoldAll(t), zoned), rest))
    {
      var ts := all + rest;
      assert ts[0] == Token.Str(v) && ts[1] == Cast && ts[2] == Word(FoldAll(t));
      assert ParseAtom(ts) == Some((Text(v), ts[1..]));
      CastReads(Text(v), FoldAll(t), zoned, rest, ts[1..]);
    }
  }

  lemma {:induction false} CastReads(left: Ast, t: string, zoned: bool, rest: seq<Token>, ts: seq<Token>)
    requires t !in RESERVED && (zoned ==> t == "timestamp" || t == "time") && EndsPrimary(rest)
    requires ts == [Cast, Word(t)] + (if zoned then [Word("with"), Word("time"), Word("zone")] else []) + rest
    ensures CastTail(left, ts) == Some((CastTo(left, t, zoned), rest))
  {
    assert CastTail(CastTo(left, t, zoned), rest) == Some((CastTo(left, t, zoned), rest));
    if zoned {
      assert IsZoned(ts[1..]) && ts[5..] == rest;
    } else {
      assert ts[2..] == rest;
      assert !IsZoned(ts[1..]);
    }
  }

  // ---------------------------------------------------------------- comparisons

  /** The column is a token of its own before an operator. */
  lemma {:induction false} ReadColumnBefore(col: string, name: string, rest: string)
    requires IsColumnText(col, name) && rest != [] && IsOperatorChar(rest[0])
    ensures Lex(col + rest) == [ColumnToken(col, name)] + Lex(rest)
  {
    if col == Enclose(name, '"') {
      ReadQuotedNameBefore(name, rest);
    } else {
      FoldLower(name);
      ReadWordBefore(name, rest);
    }
  }

  lemma {:induction false} LiteralStart(l: Literal)
    requires LiteralOk(l) && !(l.Numeral? && l.negative)
    ensures LiteralText(l) != [] && !IsOperatorChar(LiteralText(l)[0])
  {
  }

  /** The operator is cut off the literal behind it, except `!=` before a minus. */
  lemma {:induction false} ReadOperatorLiteral(op: CmpOp, l: Literal, rest: string)
    requires op != Distinct && op != NotDistinct && LiteralOk(l) && !Misread(Comparison(op, l)) && Clean(rest)
    ensures Lex(OperatorText(op) + (LiteralText(l) + rest)) == [Operator(OperatorText(op))] + (LiteralTokens(l) + Lex(rest))
  {
    SymbolText(op);
    if l.Numeral? && l.negative {
      ReadOperatorNegative(OperatorText(op), l.digits, rest);
      AssocText("-", l.digits, rest);
    } else {
      LiteralReads(l);
      LiteralStart(l);
      ReadOperatorBefore(OperatorText(op), LiteralText(l) + rest);
    }
  }

  lemma {:induction false} ReadOperatorNegative(o: string, d: string, rest: string)
    requires StaysWhole(o) && !HasSpecial(o) && !IsSign(o[|o| - 1]) && IsNumber(d) && Clean(rest)
    ensures Lex(o + ("-" + (d + rest))) == [Operator(o)] + ([Operator("-"), Token.Number(d)] + Lex(rest))
  {
    ReadNumber(d);
    ReadOperatorMinus(o, d + rest);
    assert Lex(d + rest) == [Token.Number(d)] + Lex(rest);
    MoveToken(Operator(o), Operator("-"), Token.Number(d), Lex(rest));
  }

  lemma {:induction false} MoveToken(a: Token, b: Token, c: Token, more: seq<Token>)
    ensures [a, b] + ([c] + more) == [a] + ([b, c] + more)
  {
  }

  lemma {:induction false} ComparisonReads(op: CmpOp, l: Literal, col: string, name: string)
    requires SimpleOk(Comparison(op, l)) && !Misread(Comparison(op, l)) && IsColumnText(col, name)
    ensures Reads(SimpleText(Comparison(op, l), col), SimpleTokens(Comparison(op, l), ColumnToken(col, name)))
  {
    SymbolText(op);
    forall rest | Clean(rest)
      ensures Lex(SimpleText(Comparison(op, l), col) + rest) == SimpleTokens(Comparison(op, l), ColumnToken(col, name)) + Lex(rest)
    {
      ReadComparisonBefore(op, l, col, name, rest);
    }
  }

  lemma {:induction false} ReadComparisonBefore(op: CmpOp, l: Literal, col: string, name: string, rest: string)
    requires SimpleOk(Comparison(op, l)) && !Misread(Comparison(op, l)) && IsColumnText(col, name) && Clean(rest)
    ensures Lex(col + OperatorText(op) + LiteralText(l) + rest)
         == [ColumnToken(col, name)] + [Operator(OperatorText(op))] + LiteralTokens(l) + Lex(rest)
  {
    var ct, o, v := [ColumnToken(col, name)], OperatorText(op), LiteralText(l);
    SymbolText(op);
    AssocText(col, o, v + rest);
    AssocText(col + o, v, rest);
    ReadColumnBefore(col, name, o + (v + rest));
    ReadOperatorLiteral(op, l, rest);
    AssocTokens(ct, [Operator(o)], LiteralTokens(l) + Lex(rest));
    AssocTokens(ct + [Operator(o)], LiteralTokens(l), Lex(rest));
  }

  // ---------------------------------------------------------------- null tests

  lemma {:induction false} NullCheckReads(positive: bool, col: string, name: string)
    requires IsColumnText(col, name)
    ensures Reads(SimpleText(NullCheck(positive), col), SimpleTokens(NullCheck(positive), ColumnToken(col, name)))
  {
    Folds();
    ReadColumn(col, name);
    ReadNull();
    ReadKeyword("IS", "is", " IS ", "IS ");
    ReadKeyword("NOT", "not", " NOT ", "NOT ");
    var ct := [ColumnToken(col, name)];
    if positive {
      ReadInfix(col, ct, " IS ", [Word("is")], "NULL", [Word("null")]);
      assert col + " IS " + "NULL" == col + " IS NULL";
      assert ct + [Word("is")] + [Word("null")] == ct + [Word("is"), Word("null")];
    } else {
      ThenFreely(" IS ", [Word("is")], "NOT ", [Word("not")]);
      ReadInfix(col, ct, " IS " + "NOT ", [Word("is")] + [Word("not")], "NULL", [Word("null")]);
      assert col + (" IS " + "NOT ") + "NULL" == col + " IS NOT NULL";
      assert ct + ([Word("is")] + [Word("not")]) + [Word("null")] == ct + [Word("is"), Word("not"), Word("null")];
    }
  }

  lemma {:induction false} NullCheckIsOperand(positive: bool, ct: Token, a: Ast)
    requires IsPrimary([ct], a)
    ensures IsOperand([ct] + (if positive then [Word("is"), Word("null")] else [Word("is"), Word("not"), Word("null")]), NullTest(positive, a))
  {
    var suffix := if positive then [Word("is"), Word("null")] else [Word("is"), Word("not"), Word("null")];
    forall rest | Stops(rest)
      ensures ParseNot([ct] + suffix + rest) == Some((NullTest(positive, a), rest))
    {
      var r1 := suffix + rest;
      assert [ct] + suffix + rest == [ct] + r1;
      PrimaryIsCmp([ct], a, r1);
      assert r1[|suffix|..] == rest;
      assert ([ct] + r1)[0] == ct;
      assert |"not"| == 3 && |"null"| == 4;
    }
  }

  // ---------------------------------------------------------------- IN lists

  lemma {:induction false} ReadSeparator()
    ensures ReadsFreely(", ", [Comma]) && Clean(", ")
  {
    ReadComma();
    ReadSpace();
    ThenFreely(",", [Comma], " ", []);
    assert "," + " " == ", " && [Comma] + [] == [Comma];
  }

  lemma {:induction false} ListReads(ls: seq<Literal>)
    requires ls != [] && forall i :: 0 <= i < |ls| ==> LiteralOk(ls[i])
    ensures Reads(ListText(ls), ListTokens(ls))
    decreases |ls|
  {
    LiteralReads(ls[0]);
    if |ls| > 1 {
      ReadSeparator();
      ListReads(ls[1..]);
      ReadInfix(LiteralText(ls[0]), LiteralTokens(ls[0]), ", ", [Comma], ListText(ls[1..]), ListTokens(ls[1..]));
    }
  }

  lemma {:induction false} MembershipReads(ls: seq<Literal>, col: string, name: string)
    requires SimpleOk(Membership(ls)) && IsColumnText(col, name)
    ensures Reads(SimpleText(Membership(ls), col), SimpleTokens(Membership(ls), ColumnToken(col, name)))
  {
    ReadColumn(col, name);
    ListReads(ls);
    ReadIn(col, ColumnToken(col, name), ListText(ls), ListTokens(ls));
  }

  lemma {:induction false} ReadIn(col: string, ct: Token, list: string, ts: seq<Token>)
    requires Reads(col, [ct]) && Reads(list, ts)
    ensures Reads(col + " IN (" + list + ")", [ct, Word("in")] + Closed(ts))
  {
    ReadInWord();
    ReadEnclosedParens(list, ts);
    ReadInfix(col, [ct], " IN ", [Word("in")], "(" + list + ")", Closed(ts));
    InText(col, list);
    assert [ct] + [Word("in")] == [ct, Word("in")];
  }

  lemma {:induction false} ReadInWord()
    ensures ReadsFreely(" IN ", [Word("in")])
  {
    assert FoldAll("IN") == "in";
    ReadKeyword("IN", "in", " IN ", "IN ");
  }

  lemma {:induction false} InText(col: string, list: string)
    ensures col + " IN " + ("(" + list + ")") == col + " IN (" + list + ")"
  {
    assert " IN " + "(" == " IN (";
    AssocText(col + " IN ", "(", list + ")");
    AssocText(col, " IN ", "(");
  }

  lemma {:induction false} LiteralIsElement(l: Literal, rest: seq<Token>)
    requires LiteralOk(l) && rest != [] && (rest[0] == RParen || rest[0] == Comma)
    ensures ParseOr(LiteralTokens(l) + rest) == Some((LiteralTree(l), rest))
  {
    LiteralIsPrimary(l);
    PrimaryIsOperand(LiteralTokens(l), LiteralTree(l));
    assert Stops(rest);
    assert ParseNot(LiteralTokens(l) + rest) == Some((LiteralTree(l), rest));
    assert ParseAnd(LiteralTokens(l) + rest) == Some((LiteralTree(l), rest));
  }

  lemma {:induction false} ListParses(ls: seq<Literal>, rest: seq<Token>)
    requires ls != [] && forall i :: 0 <= i < |ls| ==> LiteralOk(ls[i])
    ensures ParseList(ListTokens(ls) + ([RParen] + rest)) == Some((ListTrees(ls), rest))
    decreases |ls|
  {
    var l := ls[0];
    if |ls| == 1 {
      LiteralIsElement(l, [RParen] + rest);
      LastElement(LiteralTokens(l) + ([RParen] + rest), LiteralTree(l), rest);
      assert ls[1..] == [];
      assert ListTrees(ls) == [LiteralTree(l)];
    } else {
      var more := ListTokens(ls[1..]) + ([RParen] + rest);
      ListParses(ls[1..], rest);
      LiteralIsElement(l, [Comma] + more);
      OneMoreElement(LiteralTokens(l) + ([Comma] + more), LiteralTree(l), more, ListTrees(ls[1..]), rest);
      AssocTokens(LiteralTokens(l) + [Comma], ListTokens(ls[1..]), [RParen] + rest);
      AssocTokens(LiteralTokens(l), [Comma], more);
    }
  }

  lemma {:induction false} LastElement(ts: seq<Token>, a: Ast, rest: seq<Token>)
    requires ParseOr(ts) == Some((a, [RParen] + rest))
    ensures ParseList(ts) == Some(([a], rest))
  {
    assert ([RParen] + rest)[1..] == rest;
  }

  lemma {:induction false} OneMoreElement(ts: seq<Token>, a: Ast, more: seq<Token>, vs: seq<Ast>, rest: seq<Token>)
    requires ParseOr(ts) == Some((a, [Comma] + more)) && ParseList(more) == Some((vs, rest))
    ensures ParseList(ts) == Some(([a] + vs, rest))
  {
    assert ([Comma] + more)[1..] == more && ([Comma] + more)[0] == Comma;
  }

  lemma {:induction false} MembershipIsOperand(ls: seq<Literal>, ct: Token, a: Ast)
    requires ls != [] && (forall i :: 0 <= i < |ls| ==> LiteralOk(ls[i])) && IsPrimary([ct], a)
    ensures IsOperand([ct, Word("in")] + Closed(ListTokens(ls)), InList(a, ListTrees(ls)))
  {
    var all := [ct, Word("in")] + Closed(ListTokens(ls));
    forall rest | Stops(rest)
      ensures ParseNot(all + rest) == Some((InList(a, ListTrees(ls)), rest))
    {
      ListParses(ls, rest);
      InReads(ct, a, ListTokens(ls) + ([RParen] + rest), ListTrees(ls), rest);
      InTokens(ct, ListTokens(ls), rest);
    }
  }

  lemma {:induction false} InTokens(ct: Token, list: seq<Token>, rest: seq<Token>)
    ensures [ct, Word("in")] + Closed(list) + rest == [ct] + ([Word("in"), LParen] + (list + ([RParen] + rest)))
  {
    assert [LParen] + list + [RParen] + rest == [LParen] + (list + ([RParen] + rest));
  }

  lemma {:induction false} InReads(ct: Token, a: Ast, list: seq<Token>, vs: seq<Ast>, rest: seq<Token>)
    requires IsPrimary([ct], a) && ParseList(list) == Some((vs, rest)) && Stops(rest)
    ensures ParseNot([ct] + ([Word("in"), LParen] + list)) == Some((InList(a, vs), rest))
  {
    var r1 := [Word("in"), LParen] + list;
    WordLengths();
    PrimaryIsOp([ct], a, r1);
    assert r1[2..] == list && r1[0] == Word("in") && r1[1] == LParen;
    assert InTail(a, list) == Some((InList(a, vs), rest));
    assert ParseLike([ct] + r1) == Some((InList(a, vs), rest));
    assert ([ct] + r1)[0] == ct;
    LikeLevelIsOperand([ct] + r1, InList(a, vs), rest);
  }

  // ---------------------------------------------------------------- every simple filter

  /** The text is read as one operand with the tree of the filter, whatever follows it in the clause. */
  lemma {:induction false} SimpleIsRead(f: SimpleFilter, col: string, name: string)
    requires SimpleOk(f) && !Misread(f) && IsColumnText(col, name)
    ensures Reads(SimpleText(f, col), SimpleTokens(f, ColumnToken(col, name)))
    ensures IsOperand(SimpleTokens(f, ColumnToken(col, name)), SimpleTree(f, name))
  {
    var ct := ColumnToken(col, name);
    ColumnIsPrimary(col, name);
    match f
    case Comparison(op, l) =>
      ComparisonReads(op, l, col, name);
      LiteralIsPrimary(l);
      ComparisonIsOperand(op, [ct], Column(name), LiteralTokens(l), LiteralTree(l));
    case NullCheck(positive) =>
      NullCheckReads(positive, col, name);
      NullCheckIsOperand(positive, ct, Column(name));
    case Membership(ls) =>
      MembershipReads(ls, col, name);
      MembershipIsOperand(ls, ct, Column(name));
  }

  /** The minus of `!=-5` stays in the operator name, and no condition is read. */
  lemma {:induction false} MisreadIsNoCondition(d: string, col: string, name: string)
    requires IsNumber(d) && IsColumnText(col, name)
    ensures ParseCondition(SimpleText(Comparison(Ne, Numeral(true, d)), col)) == None
  {
    var ct := ColumnToken(col, name);
    var text := SimpleText(Comparison(Ne, Numeral(true, d)), col);
    assert text == col + ("!=-" + d);
    ReadColumnBefore(col, name, "!=-" + d);
    assert HasSpecial("!=-") by { assert "!=-"[0] == '!'; }
    ReadOperatorBefore("!=-", d);
    var rest := [Operator("!=-")] + Lex(d);
    ColumnIsPrimary(col, name);
    assert Lex(text) == [ct] + rest;
    PrimaryIsOp([ct], Column(name), rest);
    UnknownOperatorStops([ct] + rest, Column(name), rest);
  }

  lemma {:induction false} UnknownOperatorStops(ts: seq<Token>, a: Ast, rest: seq<Token>)
    requires ParseOp(ts) == Some((a, rest)) && rest != [] && rest[0] == Operator("!=-")
    requires ts != [] && ts[0] != Word("not")
    ensures ParseOr(ts) == Some((a, rest))
  {
    UnknownOperatorEndsCmp(ts, a, rest);
    assert ParseIs(ts) == Some((a, rest));
    assert ParseNot(ts) == Some((a, rest));
    assert ParseAnd(ts) == Some((a, rest));
  }

  lemma {:induction false} UnknownOperatorEndsCmp(ts: seq<Token>, a: Ast, rest: seq<Token>)
    requires ParseOp(ts) == Some((a, rest)) && rest != [] && rest[0] == Operator("!=-")
    ensures ParseCmp(ts) == Some((a, rest))
  {
    assert |"!=-"| == 3;
    assert ComparisonOf(rest[0]).None?;
    assert ParseLike(ts) == Some((a, rest));
  }

  /** Postgres reads the text of a simple filter as that filter, unless it is `!=` before a negative number. */
  lemma {:induction false} SimpleReadExactly(f: SimpleFilter, col: string, name: string)
    requires SimpleOk(f) && IsColumnText(col, name)
    ensures ParseCondition(SimpleText(f, col)) == Some(SimpleTree(f, name)) <==> !Misread(f)
  {
    if Misread(f) {
      MisreadIsNoCondition(f.literal.digits, col, name);
    } else {
      SimpleIsRead(f, col, name);
      OperandIsCondition(SimpleText(f, col), SimpleTokens(f, ColumnToken(col, name)), SimpleTree(f, name));
    }
  }

  // ---------------------------------------------------------------- meaning

  lemma {:induction false} LiteralMeaning(w: World, l: Literal)
    ensures PgEval(w, LiteralTree(l)) == LiteralValue(w, l)
  {
  }

  lemma {:induction false} ListMeaning(w: World, ls: seq<Literal>)
    ensures |PgEvalAll(w, ListTrees(ls))| == |ls|
    ensures forall i :: 0 <= i < |ls| ==> PgEvalAll(w, ListTrees(ls))[i] == LiteralValue(w, ls[i])
    decreases |ls|
  {
    if ls != [] {
      LiteralMeaning(w, ls[0]);
      ListMeaning(w, ls[1..]);
      assert ListTrees(ls)[1..] == ListTrees(ls[1..]);
    }
  }

  /** IN is true exactly when the value equals one of the list. */
  lemma {:induction false} InIsTrue(w: World, x: Value, vs: seq<Value>)
    ensures In3(w, x, vs) == Bool(true) <==> exists i :: 0 <= i < |vs| && Compare3(w, Eq, x, vs[i]) == Bool(true)
    decreases |vs|
  {
    if vs != [] {
      InIsTrue(w, x, vs[1..]);
      OrIsTrue(Compare3(w, Eq, x, vs[0]), In3(w, x, vs[1..]));
      if i :| 0 <= i < |vs[1..]| && Compare3(w, Eq, x, vs[1..][i]) == Bool(true) {
        assert vs[i + 1] == vs[1..][i];
      }
      if i :| 0 < i < |vs| && Compare3(w, Eq, x, vs[i]) == Bool(true) {
        assert vs[1..][i - 1] == vs[i];
      }
    }
  }

  lemma {:induction false} OrIsTrue(a: Value, b: Value)
    ensures Or3(a, b) == Bool(true) <==> a == Bool(true) || b == Bool(true)
  {
  }

  lemma {:induction false} SimpleMeaning(w: World, name: string, f: SimpleFilter)
    ensures PgEval(w, SimpleTree(f, name)) == Bool(true) <==> SimpleAccepts(w, name, f)
  {
    match f
    case Comparison(op, l) =>
      LiteralMeaning(w, l);
      ComparisonValue(w, op, Column(name), LiteralTree(l));
    case NullCheck(positive) =>
    case Membership(ls) =>
      ListMeaning(w, ls);
      var vs := PgEvalAll(w, ListTrees(ls));
      InIsTrue(w, w.column(name), vs);
      assert PgEval(w, SimpleTree(f, name)) == In3(w, w.column(name), vs);
  }

  /** An example: `a<=50`. */
  lemma {:induction false} NumberFilters()
    ensures SimpleOk(Comparison(Le, Numeral(false, "50"))) && SimpleText(Comparison(Le, Numeral(false, "50")), "a") == "a<=50"
  {
    WholeNumbers("50");
    assert "" + "50" == "50";
    assert "a" + "<=" + "50" == "a<=50";
  }

  /** An example: `a=-1.5`. */
  lemma {:induction false} NegativeFilters()
    ensures SimpleOk(Comparison(Eq, Numeral(true, "1.5"))) && SimpleText(Comparison(Eq, Numeral(true, "1.5")), "a") == "a=-1.5"
  {
    DecimalNumbers("1", "5");
    assert "1" + "." + "5" == "1.5";
    assert "-" + "1.5" == "-1.5";
    assert "a" + "=" + "-1.5" == "a=-1.5";
  }

  /** An example: `a IN (1, 2)`. */
  lemma {:induction false} ListFilters()
    ensures
      var f := Membership([Numeral(false, "1"), Numeral(false, "2")]);
      SimpleOk(f) && SimpleText(f, "a") == "a IN (1, 2)"
  {
    WholeNumbers("1");
    WholeNumbers("2");
    ListOfTwo(Numeral(false, "1"), Numeral(false, "2"));
    assert "" + "1" == "1" && "" + "2" == "2";
    assert "1" + ", " + "2" == "1, 2";
    assert "a" + " IN (" + "1, 2" + ")" == "a IN (1, 2)";
  }

  /** Examples: comparisons with a date and with a zoned timestamp. */
  lemma {:induction false} DateFilters(op: CmpOp, v: string)
    requires op != Distinct && op != NotDistinct
    ensures SimpleOk(Comparison(op, Typed(v, "DATE", false))) && SimpleOk(Comparison(op, Typed(v, "TIMESTAMP", true)))
  {
    assert FoldAll("DATE") == "date" && "date"[0] == 'd' && "distinct"[1] == 'i' && "date"[1] == 'a';
    assert FoldAll("TIMESTAMP") == "timestamp" && |"timestamp"| == 9;
  }

  lemma {:induction false} ListOfTwo(a: Literal, b: Literal)
    ensures ListText([a, b]) == LiteralText(a) + ", " + LiteralText(b)
  {
    assert [a, b][1..] == [b];
  }

  /** Digits alone, and digits with a fraction, are numeric literals. */
  lemma {:induction false} AllDigits(t: string)
    requires forall i :: 0 <= i < |t| ==> IsDigit(t[i])
    ensures DigitRun(t) == |t|
  {
    if t != [] { AllDigits(t[1..]); }
  }

  lemma {:induction false} WholeNumbers(t: string)
    requires t != [] && forall i :: 0 <= i < |t| ==> IsDigit(t[i])
    ensures IsNumber(t)
  {
    AllDigits(t);
  }

  lemma {:induction false} DecimalNumbers(t: string, u: string)
    requires t != [] && (forall i :: 0 <= i < |t| ==> IsDigit(t[i])) && (forall i :: 0 <= i < |u| ==> IsDigit(u[i]))
    ensures IsNumber(t + "." + u)
  {
    var s := t + "." + u;
    assert s == t + ("." + u);
    DigitRunOf(t, "." + u);
    AllDigits(t);
    AllDigits(u);
    assert s[|t|..] == "." + u && ("." + u)[1..] == u;
    assert s[|s|..] == [];
  }

}
