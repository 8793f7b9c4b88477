/**
 Turning the table filters DuckDB pushes into a scan into the WHERE clause of the Postgres scan
 query. DuckDB does not check the mandatory filters again, so the clause must imply them; optional
 filters may only be used to skip rows that they reject.
 */
module TableFilters {
  import opened Results
  import opened SqlLexer
  import opened SqlParser
  import opened ExpressionPushdown
  import opened PushdownMeaning
  import opened SimpleFilters

  /** `Other` is a dynamic, struct or unknown filter. */
  datatype Filter =
    | Simple(simple: SimpleFilter)
    | Conj(isOr: bool, children: seq<Filter>)
    | Optional(child: Filter)
    | Expression(expr: Expr)
    | Other(id: nat)

  datatype Outcome<T> = Thrown | Dropped | Kept(value: T)

  // ---------------------------------------------------------------- the extraction

  function Delimiter(isOr: bool): string { if isOr then " OR " else " AND " }

  /** `std::accumulate` over the filters with the delimiter between them. */
  function FilterJoin(filters: seq<string>, delimiter: string): string
    requires filters != []
  {
    if |filters| == 1 then filters[0]
    else FilterJoin(filters[..|filters| - 1], delimiter) + delimiter + filters[|filters| - 1]
  }

  function Extract(f: Filter, col: string, inOptional: bool): Outcome<string>
    decreases f, 1
  {
    match f
    case Simple(s) => Kept(SimpleText(s, col))
    case Optional(child) => Extract(child, col, true)
    case Expression(e) =>
      (match ExpressionToString(e, col)
       case Some(s) => Kept(s)
       case None => Thrown)
    case Other(_) => if inOptional then Dropped else Thrown
    case Conj(isOr, children) =>
      (match ExtractAll(children, col, inOptional, isOr)
       case Thrown => Thrown
       case Dropped => Dropped
       case Kept(kept) => if kept == [] then Dropped else Kept("(" + FilterJoin(kept, Delimiter(isOr)) + ")"))
  }

  /** The kept children, up to the first one that throws or, under OR, is dropped. */
  function ExtractAll(fs: seq<Filter>, col: string, inOptional: bool, isOr: bool): Outcome<seq<string>>
    decreases fs, 0
  {
    if fs == [] then Kept([])
    else match Extract(fs[0], col, inOptional)
      case Thrown => Thrown
      case Dropped => if isOr then Dropped else ExtractAll(fs[1..], col, inOptional, isOr)
      case Kept(s) =>
        match ExtractAll(fs[1..], col, inOptional, isOr)
        case Kept(rest) => Kept([s] + rest)
        case Thrown => Thrown
        case Dropped => Dropped
  }

  /** A call leaves `queryFilters` as `r` says: an exception, nothing, or the condition appended. */
  predicate Appends(c: Outcome<string>, queryFilters: string, r: Result<(nat, string)>)
  {
    match c
    case Thrown => r.Err?
    case Dropped => r == Ok((0, queryFilters))
    case Kept(text) => r.Ok? && r.value.0 > 0 && r.value.1 == queryFilters + text
  }

  /** The code: a recursive walk that appends to `queryFilters`. */
  method ExtractQueryFilters(f: Filter, col: string, queryFilters: string, inOptional: bool)
    returns (r: Result<(nat, string)>)
    ensures Appends(Extract(f, col, inOptional), queryFilters, r)
    decreases f, 1
  {
    match f
    case Simple(s) => return Ok((1, queryFilters + SimpleText(s, col)));
    case Optional(child) => r := ExtractQueryFilters(child, col, queryFilters, true);
    case Expression(e) =>
      var s := ExpressionToString(e, col);
      if s.Some? { return Ok((1, queryFilters + s.value)); } else { return Err; }
    case Other(_) =>
      if inOptional { return Ok((0, queryFilters)); } else { return Err; }
    case Conj(_, _) => r := ExtractConjunction(f, col, queryFilters, inOptional);
  }

  /** The loop over the children of a conjunction. */
  method ExtractConjunction(f: Filter, col: string, queryFilters: string, inOptional: bool)
    returns (r: Result<(nat, string)>)
    requires f.Conj?
    ensures Appends(Extract(f, col, inOptional), queryFilters, r)
    decreases f, 0
  {
    var isOr, children := f.isOr, f.children;
    var kept: seq<string> := [];
    assert children[0..] == children;
    PrependNothing(ExtractAll(children, col, inOptional, isOr));
    for i := 0 to |children|
      invariant ExtractAll(children, col, inOptional, isOr) == Prepend(kept, ExtractAll(children[i..], col, inOptional, isOr))
    {
      NextChild(kept, children, i, col, inOptional, isOr);
      var c := ExtractQueryFilters(children[i], col, "", inOptional);
      if c.Err? {
        return Err;
      }
      KeptChild(Extract(children[i], col, inOptional), c);
      if c.value.0 > 0 {
        kept := kept + [c.value.1];
      } else if isOr {
        return Ok((0, queryFilters));
      }
    }
    assert children[|children|..] == [];
    assert kept + [] == kept;
    if |kept| > 0 {
      return Ok((|kept|, queryFilters + ("(" + FilterJoin(kept, Delimiter(isOr)) + ")")));
    }
    return Ok((0, queryFilters));
  }

  lemma {:induction false} KeptChild(c: Outcome<string>, r: Result<(nat, string)>)
    requires Appends(c, "", r) && r.Ok?
    ensures r.value.0 > 0 ==> c == Kept(r.value.1)
    ensures r.value.0 == 0 ==> c == Dropped
  {
    if c.Kept? {
      assert "" + c.value == c.value;
    }
  }

  /** One more child of the loop. */
  lemma {:induction false} NextChild(kept: seq<string>, fs: seq<Filter>, i: nat, col: string, inOptional: bool, isOr: bool)
    requires i < |fs|
    ensures
      var rest := ExtractAll(fs[i + 1..], col, inOptional, isOr);
      Prepend(kept, ExtractAll(fs[i..], col, inOptional, isOr)) ==
        match Extract(fs[i], col, inOptional)
        case Thrown => Thrown
        case Dropped => if isOr then Dropped else Prepend(kept, rest)
        case Kept(s) => Prepend(kept + [s], rest)
  {
    assert fs[i..][1..] == fs[i + 1..] && fs[i..][0] == fs[i];
    var rest := ExtractAll(fs[i + 1..], col, inOptional, isOr);
    if Extract(fs[i], col, inOptional).Kept? {
      PrependMore(kept, Extract(fs[i], col, inOptional).value, rest);
      assert ExtractAll(fs[i..], col, inOptional, isOr) == Prepend([Extract(fs[i], col, inOptional).value], rest);
    }
  }

  function Prepend(kept: seq<string>, c: Outcome<seq<string>>): Outcome<seq<string>>
  {
    if c.Kept? then Kept(kept + c.value) else c
  }

  lemma {:induction false} PrependNothing(c: Outcome<seq<string>>)
    ensures Prepend([], c) == c
  {
    if c.Kept? {
      assert [] + c.value == c.value;
    }
  }

  lemma {:induction false} PrependMore(kept: seq<string>, s: string, c: Outcome<seq<string>>)
    ensures Prepend(kept, Prepend([s], c)) == Prepend(kept + [s], c)
  {
    if c.Kept? {
      assert kept + ([s] + c.value) == kept + [s] + c.value;
    }
  }

  // ---------------------------------------------------------------- what the filters mean

  /** The rows a filter accepts; with `relaxed`, optional filters accept every row. */
  ghost predicate Accepts(w: World, other: nat -> bool, name: string, f: Filter, relaxed: bool)
    decreases f
  {
    match f
    case Simple(s) => SimpleAccepts(w, name, s)
    case Expression(e) => DuckEval(w, name, e) == Bool(true)
    case Other(id) => other(id)
    case Optional(child) => relaxed || Accepts(w, other, name, child, relaxed)
    case Conj(isOr, children) =>
      if isOr then exists i :: 0 <= i < |children| && Accepts(w, other, name, children[i], relaxed)
      else forall i :: 0 <= i < |children| ==> Accepts(w, other, name, children[i], relaxed)
  }

  /** Simple filters are not misread, and expressions have safe operands. */
  ghost predicate WellFormed(f: Filter)
    decreases f
  {
    match f
    case Simple(s) => SimpleOk(s) && !Misread(s)
    case Expression(e) => Safe(e)
    case Other(_) => true
    case Optional(child) => WellFormed(child)
    case Conj(_, children) => forall i :: 0 <= i < |children| ==> WellFormed(children[i])
  }

  /** On this row no pattern of `~~` in an expression filter holds a backslash. */
  ghost predicate PlainFilter(w: World, name: string, f: Filter)
    decreases f
  {
    match f
    case Expression(e) => PlainPatterns(w, name, e)
    case Optional(child) => PlainFilter(w, name, child)
    case Conj(_, children) => forall i :: 0 <= i < |children| ==> PlainFilter(w, name, children[i])
    case _ => true
  }

  /** No OR without children, except below an optional filter. */
  ghost predicate NoEmptyOr(f: Filter)
    decreases f
  {
    match f
    case Conj(isOr, children) => (isOr ==> children != []) && forall i :: 0 <= i < |children| ==> NoEmptyOr(children[i])
    case _ => true
  }

  ghost predicate NoOptional(f: Filter)
    decreases f
  {
    match f
    case Optional(_) => false
    case Conj(_, children) => forall i :: 0 <= i < |children| ==> NoOptional(children[i])
    case _ => true
  }

  // ---------------------------------------------------------------- reading the clause back

  /** A kept condition: how it is read, and which rows it keeps. */
  ghost predicate Says(text: string, toks: seq<Token>, tree: Ast)
  {
    Reads(text, toks) && IsOperand(toks, tree)
  }

  lemma {:induction false} JoinSays(texts: seq<string>, parts: seq<seq<Token>>, isOr: bool)
    requires texts != [] && AllRead(texts, parts)
    ensures Reads(FilterJoin(texts, Delimiter(isOr)), Joined(parts, !isOr))
    decreases |texts|
  {
    var n := |texts| - 1;
    if n > 0 {
      assert AllRead(texts[..n], parts[..n]);
      JoinSays(texts[..n], parts[..n], isOr);
      JoinOneMore(parts[..n], FilterJoin(texts[..n], Delimiter(isOr)), texts[n], parts[n], !isOr);
      assert " " + (if !isOr then "AND" else "OR") + " " == Delimiter(isOr);
    }
  }

  ghost predicate AllSay(texts: seq<string>, parts: seq<seq<Token>>, trees: seq<Ast>)
  {
    AllRead(texts, parts) && AllOperands(parts, trees)
  }

  lemma {:induction false} ParenthesisedSays(texts: seq<string>, parts: seq<seq<Token>>, trees: seq<Ast>, isOr: bool)
    requires texts != [] && AllSay(texts, parts, trees)
    ensures Says("(" + FilterJoin(texts, Delimiter(isOr)) + ")", Closed(Joined(parts, !isOr)), Nested(trees, !isOr))
  {
    JoinSays(texts, parts, isOr);
    ReadEnclosedParens(FilterJoin(texts, Delimiter(isOr)), Joined(parts, !isOr));
    JoinedIsPrimary(parts, trees, !isOr);
    PrimaryIsOperand(Closed(Joined(parts, !isOr)), Nested(trees, !isOr));
  }

  /** A conjunction is true when all operands are, a disjunction when one is. */
  lemma {:induction false} NestedIsTrue(w: World, trees: seq<Ast>, isOr: bool)
    requires trees != []
    ensures PgEval(w, Nested(trees, !isOr)) == Bool(true) <==>
      if isOr then exists i :: 0 <= i < |trees| && PgEval(w, trees[i]) == Bool(true)
      else forall i :: 0 <= i < |trees| ==> PgEval(w, trees[i]) == Bool(true)
  {
    NestedMeaning(w, trees, !isOr);
    var vs := EvalAll(w, trees);
    assert forall i :: 0 <= i < |vs| ==> vs[i] in vs;
  }

  /** What extraction guarantees of one filter. */
  ghost predicate Sandwiched(w: World, other: nat -> bool, name: string, f: Filter, inOptional: bool, tree: Ast)
  {
    && (Accepts(w, other, name, f, false) ==> PgEval(w, tree) == Bool(true))
    && (!inOptional && PgEval(w, tree) == Bool(true) ==> Accepts(w, other, name, f, true))
  }

  lemma {:induction false} ExtractSandwich(w: World, other: nat -> bool, f: Filter, col: string, name: string, inOptional: bool)
    returns (toks: seq<Token>, tree: Ast)
    requires WellFormed(f) && PlainFilter(w, name, f) && IsColumnText(col, name) && (!inOptional ==> NoEmptyOr(f))
    ensures Extract(f, col, inOptional).Kept? ==>
      Says(Extract(f, col, inOptional).value, toks, tree) && Sandwiched(w, other, name, f, inOptional, tree)
    ensures Extract(f, col, inOptional).Dropped? && !inOptional ==> Accepts(w, other, name, f, true)
    decreases f, 1
  {
    toks, tree := [], NullLit;
    match f
    case Simple(s) =>
      SimpleIsRead(s, col, name);
      SimpleMeaning(w, name, s);
      toks, tree := SimpleTokens(s, ColumnToken(col, name)), SimpleTree(s, name);
    case Optional(child) => toks, tree := ExtractSandwich(w, other, child, col, name, true);
    case Expression(e) =>
      if ExpressionToString(e, col).Some? {
        PrintedIsUnderstood(e, col, name);
        TreeMeaning(w, name, e, col);
        toks, tree := Tokens(e, ColumnToken(col, name)), Tree(e, name);
      }
    case Other(_) =>
    case Conj(isOr, children) =>
      var parts, trees := ChildrenSandwich(w, other, children, col, name, inOptional, isOr);
      var kept := ExtractAll(children, col, inOptional, isOr);
      ConjunctionSandwich(w, other, name, children, inOptional, isOr, kept, parts, trees);
      if kept.Kept? && kept.value != [] {
        toks, tree := Closed(Joined(parts, !isOr)), Nested(trees, !isOr);
      }
  }

  lemma {:induction false} ConjunctionSandwich(w: World, other: nat -> bool, name: string, fs: seq<Filter>, inOptional: bool, isOr: bool,
                            kept: Outcome<seq<string>>, parts: seq<seq<Token>>, trees: seq<Ast>)
    requires Combined(w, other, name, fs, inOptional, isOr, kept, parts, trees) && (isOr && !inOptional ==> fs != [])
    ensures kept.Kept? && kept.value != [] ==>
      && Says("(" + FilterJoin(kept.value, Delimiter(isOr)) + ")", Closed(Joined(parts, !isOr)), Nested(trees, !isOr))
      && Sandwiched(w, other, name, Conj(isOr, fs), inOptional, Nested(trees, !isOr))
    ensures (kept.Dropped? || (kept.Kept? && kept.value == [])) && !inOptional ==> Accepts(w, other, name, Conj(isOr, fs), true)
  {
    if kept.Kept? && kept.value != [] {
      ParenthesisedSays(kept.value, parts, trees, isOr);
      NestedIsTrue(w, trees, isOr);
    }
  }

  /** All of the kept conditions are true, respectively one of them is. */
  ghost predicate AnyTrue(w: World, trees: seq<Ast>) { exists i :: 0 <= i < |trees| && PgEval(w, trees[i]) == Bool(true) }
  ghost predicate AllTrue(w: World, trees: seq<Ast>) { forall i :: 0 <= i < |trees| ==> PgEval(w, trees[i]) == Bool(true) }

  ghost predicate AnyAccepts(w: World, other: nat -> bool, name: string, fs: seq<Filter>, relaxed: bool)
  {
    exists i :: 0 <= i < |fs| && Accepts(w, other, name, fs[i], relaxed)
  }

  ghost predicate AllAccept(w: World, other: nat -> bool, name: string, fs: seq<Filter>, relaxed: bool)
  {
    forall i :: 0 <= i < |fs| ==> Accepts(w, other, name, fs[i], relaxed)
  }

  /** What extraction guarantees of the children of a conjunction. */
  ghost predicate Combined(w: World, other: nat -> bool, name: string, fs: seq<Filter>, inOptional: bool, isOr: bool,
                           out: Outcome<seq<string>>, parts: seq<seq<Token>>, trees: seq<Ast>)
  {
    && (out.Kept? ==>
          && AllSay(out.value, parts, trees)
          && (isOr ==> (fs == [] <==> trees == []))
          && (isOr && AnyAccepts(w, other, name, fs, false) ==> AnyTrue(w, trees))
          && (isOr && !inOptional && AnyTrue(w, trees) ==> AnyAccepts(w, other, name, fs, true))
          && (!isOr && AllAccept(w, other, name, fs, false) ==> AllTrue(w, trees))
          && (!isOr && !inOptional && AllTrue(w, trees) ==> AllAccept(w, other, name, fs, true)))
    && (out.Dropped? && !inOptional ==> isOr && AnyAccepts(w, other, name, fs, true))
  }

  lemma {:induction false} ChildrenSandwich(w: World, other: nat -> bool, fs: seq<Filter>, col: string, name: string,
                                            inOptional: bool, isOr: bool)
    returns (parts: seq<seq<Token>>, trees: seq<Ast>)
    requires forall i :: 0 <= i < |fs| ==> WellFormed(fs[i]) && PlainFilter(w, name, fs[i]) && (!inOptional ==> NoEmptyOr(fs[i]))
    requires IsColumnText(col, name)
    ensures Combined(w, other, name, fs, inOptional, isOr, ExtractAll(fs, col, inOptional, isOr), parts, trees)
    decreases fs, 0
  {
    parts, trees := [], [];
    if fs != [] {
      var t, a := ExtractSandwich(w, other, fs[0], col, name, inOptional);
      var head := Extract(fs[0], col, inOptional);
      assert fs == [fs[0]] + fs[1..];
      var ps, ts := ChildrenSandwich(w, other, fs[1..], col, name, inOptional, isOr);
      var rest := ExtractAll(fs[1..], col, inOptional, isOr);
      match head {
        case Kept(text) =>
          parts, trees := [t] + ps, [a] + ts;
          CombineKept(w, other, name, fs, inOptional, isOr, text, t, a, rest, ps, ts);
        case Dropped =>
          parts, trees := ps, ts;
          CombineDropped(w, other, name, fs, inOptional, isOr, rest, ps, ts);
        case Thrown =>
      }
    }
  }

  lemma {:induction false} CombineKept(w: World, other: nat -> bool, name: string, fs: seq<Filter>, inOptional: bool, isOr: bool,
                    text: string, t: seq<Token>, a: Ast, rest: Outcome<seq<string>>, ps: seq<seq<Token>>, ts: seq<Ast>)
    requires fs != [] && Says(text, t, a) && Sandwiched(w, other, name, fs[0], inOptional, a)
    requires Combined(w, other, name, fs[1..], inOptional, isOr, rest, ps, ts)
    ensures Combined(w, other, name, fs, inOptional, isOr, Prepend([text], rest), [t] + ps, [a] + ts)
  {
    SplitAccepts(w, other, name, fs);
    SplitTrue(w, a, ts);
  }

  lemma {:induction false} CombineDropped(w: World, other: nat -> bool, name: string, fs: seq<Filter>, inOptional: bool, isOr: bool,
                       rest: Outcome<seq<string>>, ps: seq<seq<Token>>, ts: seq<Ast>)
    requires fs != [] && (!inOptional ==> Accepts(w, other, name, fs[0], true))
    requires Combined(w, other, name, fs[1..], inOptional, isOr, rest, ps, ts)
    ensures Combined(w, other, name, fs, inOptional, isOr, if isOr then Dropped else rest, ps, ts)
  {
    SplitAccepts(w, other, name, fs);
  }

  lemma {:induction false} SplitAccepts(w: World, other: nat -> bool, name: string, fs: seq<Filter>)
    requires fs != []
    ensures forall relaxed :: AnyAccepts(w, other, name, fs, relaxed) <==>
      Accepts(w, other, name, fs[0], relaxed) || AnyAccepts(w, other, name, fs[1..], relaxed)
    ensures forall relaxed :: AllAccept(w, other, name, fs, relaxed) <==>
      Accepts(w, other, name, fs[0], relaxed) && AllAccept(w, other, name, fs[1..], relaxed)
  {
    var rest := fs[1..];
    assert forall i :: 0 <= i < |rest| ==> rest[i] == fs[i + 1];
    assert forall i :: 0 < i < |fs| ==> fs[i] == rest[i - 1];
  }

  lemma {:induction false} SplitTrue(w: World, a: Ast, ts: seq<Ast>)
    ensures AnyTrue(w, [a] + ts) <==> PgEval(w, a) == Bool(true) || AnyTrue(w, ts)
    ensures AllTrue(w, [a] + ts) <==> PgEval(w, a) == Bool(true) && AllTrue(w, ts)
  {
    var all := [a] + ts;
    assert forall i :: 0 <= i < |ts| ==> ts[i] == all[i + 1];
    assert forall i :: 0 < i < |all| ==> all[i] == ts[i - 1];
    assert all[0] == a;
  }

  lemma {:induction false} NoOptionalNoSlack(w: World, other: nat -> bool, name: string, f: Filter)
    requires NoOptional(f)
    ensures Accepts(w, other, name, f, true) <==> Accepts(w, other, name, f, false)
    decreases f
  {
    if f.Conj? {
      forall i | 0 <= i < |f.children|
        ensures Accepts(w, other, name, f.children[i], true) <==> Accepts(w, other, name, f.children[i], false)
      {
        NoOptionalNoSlack(w, other, name, f.children[i]);
      }
    }
  }

  // ---------------------------------------------------------------- the WHERE clause

  datatype ColumnFilter = ColumnFilter(filter: Filter, col: string, name: string)

  ghost predicate Admissible(c: ColumnFilter)
  {
    WellFormed(c.filter) && NoEmptyOr(c.filter) && IsColumnText(c.col, c.name)
  }

  /** The filters of all columns, in scan order; the clause is absent when none is kept. */
  function WhereTexts(cs: seq<ColumnFilter>): Outcome<seq<string>>
  {
    if cs == [] then Kept([])
    else match Extract(cs[0].filter, cs[0].col, false)
      case Thrown => Thrown
      case Dropped => WhereTexts(cs[1..])
      case Kept(s) => Prepend([s], WhereTexts(cs[1..]))
  }

  ghost predicate RowAccepted(w: World, other: nat -> bool, cs: seq<ColumnFilter>, relaxed: bool)
  {
    forall i :: 0 <= i < |cs| ==> Accepts(w, other, cs[i].name, cs[i].filter, relaxed)
  }

  /** The row passes the clause as Postgres reads it. */
  ghost predicate ClausePasses(w: World, texts: seq<string>)
  {
    texts == [] || (ParseCondition(FilterJoin(texts, " AND ")).Some?
                    && PgEval(w, ParseCondition(FilterJoin(texts, " AND ")).value) == Bool(true))
  }

  lemma {:induction false} SplitRow(w: World, other: nat -> bool, cs: seq<ColumnFilter>, relaxed: bool)
    requires cs != []
    ensures RowAccepted(w, other, cs, relaxed) <==>
      Accepts(w, other, cs[0].name, cs[0].filter, relaxed) && RowAccepted(w, other, cs[1..], relaxed)
  {
    assert forall i :: 0 <= i < |cs[1..]| ==> cs[1..][i] == cs[i + 1];
    assert forall i :: 0 < i < |cs| ==> cs[i] == cs[1..][i - 1];
  }

  lemma {:induction false} WhereSandwich(w: World, other: nat -> bool, cs: seq<ColumnFilter>)
    returns (parts: seq<seq<Token>>, trees: seq<Ast>)
    requires forall i :: 0 <= i < |cs| ==> Admissible(cs[i]) && PlainFilter(w, cs[i].name, cs[i].filter)
    ensures WhereTexts(cs).Kept? ==>
      && AllSay(WhereTexts(cs).value, parts, trees)
      && (RowAccepted(w, other, cs, false) ==> AllTrue(w, trees))
      && (AllTrue(w, trees) ==> RowAccepted(w, other, cs, true))
    decreases |cs|
  {
    parts, trees := [], [];
    if cs != [] {
      var c, rest := cs[0], cs[1..];
      var t, a := ExtractSandwich(w, other, c.filter, c.col, c.name, false);
      parts, trees := WhereSandwich(w, other, rest);
      SplitRow(w, other, cs, false);
      SplitRow(w, other, cs, true);
      if Extract(c.filter, c.col, false).Kept? {
        SplitTrue(w, a, trees);
        parts, trees := [t] + parts, [a] + trees;
        assert WhereTexts(cs) == Prepend([Extract(c.filter, c.col, false).value], WhereTexts(rest));
      }
    }
  }

  /**
   The whole clause lies between the two readings of the filters: a row that passes every filter is
   returned, and a returned row passes every mandatory filter. Without optional filters the clause
   is exactly the filters. The row must not give a pattern of `~~` a backslash.
   */
  lemma {:induction false} WhereClauseIsExact(w: World, other: nat -> bool, cs: seq<ColumnFilter>)
    requires forall i :: 0 <= i < |cs| ==> Admissible(cs[i]) && PlainFilter(w, cs[i].name, cs[i].filter)
    requires WhereTexts(cs).Kept?
    ensures RowAccepted(w, other, cs, false) ==> ClausePasses(w, WhereTexts(cs).value)
    ensures ClausePasses(w, WhereTexts(cs).value) ==> RowAccepted(w, other, cs, true)
    ensures NoneOptional(cs) ==> (ClausePasses(w, WhereTexts(cs).value) <==> RowAccepted(w, other, cs, false))
  {
    var parts, trees := WhereSandwich(w, other, cs);
    ClauseMeaning(w, WhereTexts(cs).value, parts, trees);
    if NoneOptional(cs) {
      NoOptionalRow(w, other, cs);
    }
  }

  ghost predicate NoneOptional(cs: seq<ColumnFilter>) { forall i :: 0 <= i < |cs| ==> NoOptional(cs[i].filter) }

  lemma {:induction false} NoOptionalRow(w: World, other: nat -> bool, cs: seq<ColumnFilter>)
    requires NoneOptional(cs)
    ensures RowAccepted(w, other, cs, true) <==> RowAccepted(w, other, cs, false)
  {
    forall i | 0 <= i < |cs|
      ensures Accepts(w, other, cs[i].name, cs[i].filter, true) <==> Accepts(w, other, cs[i].name, cs[i].filter, false)
    {
      NoOptionalNoSlack(w, other, cs[i].name, cs[i].filter);
    }
  }

  /** Postgres reads the joined conditions as their conjunction. */
  lemma {:induction false} ClauseMeaning(w: World, texts: seq<string>, parts: seq<seq<Token>>, trees: seq<Ast>)
    requires AllSay(texts, parts, trees)
    ensures ClausePasses(w, texts) <==> AllTrue(w, trees)
  {
    if texts != [] {
      JoinSays(texts, parts, false);
      ReadsWhole(FilterJoin(texts, " AND "), Joined(parts, true));
      JoinedIsCondition(parts, trees, true);
      NestedIsTrue(w, trees, false);
    }
  }

  /** An OR without children accepts nothing, yet it is dropped, which lets every row through. */
  lemma {:induction false} EmptyOrIsLost(w: World, other: nat -> bool, col: string, name: string)
    ensures Extract(Conj(true, []), col, false).Dropped?
    ensures !Accepts(w, other, name, Conj(true, []), true)
  {
  }

  /** A single simple filter is read as itself exactly when it is well formed: `!=` before a minus is not. */
  lemma {:induction false} SimpleClauseExactly(s: SimpleFilter, col: string, name: string)
    requires SimpleOk(s) && IsColumnText(col, name)
    ensures
      var texts := WhereTexts([ColumnFilter(Simple(s), col, name)]);
      && texts == Kept([SimpleText(s, col)])
      && (ParseCondition(FilterJoin(texts.value, " AND ")) == Some(SimpleTree(s, name)) <==> WellFormed(Simple(s)))
  {
    SimpleReadExactly(s, col, name);
    var cs := [ColumnFilter(Simple(s), col, name)];
    assert cs[1..] == [];
    assert [SimpleText(s, col)] + [] == [SimpleText(s, col)];
  }

  // ---------------------------------------------------------------- when extraction throws or drops

  /**
   Extraction throws, by the filter alone: an unknown filter outside every optional one, or an
   expression that cannot be printed, is reached before an OR is dropped.
   */
  predicate Fails(f: Filter, inOptional: bool)
    decreases f, 1
  {
    match f
    case Simple(_) => false
    case Optional(child) => Fails(child, true)
    case Expression(e) => !Printable(e)
    case Other(_) => !inOptional
    case Conj(isOr, children) => SomeFails(children, inOptional, isOr)
  }

  predicate SomeFails(fs: seq<Filter>, inOptional: bool, isOr: bool)
    decreases fs, 0
  {
    && fs != []
    && (Fails(fs[0], inOptional) || (!(isOr && Drops(fs[0], inOptional)) && SomeFails(fs[1..], inOptional, isOr)))
  }

  /**
   Nothing is left of the filter: it is an unknown optional filter, an AND of such, or an OR with one
   of them or without children.
   */
  predicate Drops(f: Filter, inOptional: bool)
    decreases f, 2
  {
    match f
    case Simple(_) => false
    case Optional(child) => Drops(child, true)
    case Expression(_) => false
    case Other(_) => inOptional
    case Conj(isOr, children) =>
      && !SomeFails(children, inOptional, isOr)
      && (if isOr then children == [] || exists i :: 0 <= i < |children| && Drops(children[i], inOptional)
          else forall i :: 0 <= i < |children| ==> Drops(children[i], inOptional))
  }

  /** What extraction does with every filter, for every column name. */
  lemma {:induction false} ExtractedExactly(f: Filter, col: string, inOptional: bool)
    ensures Extract(f, col, inOptional).Thrown? <==> Fails(f, inOptional)
    ensures Extract(f, col, inOptional).Dropped? <==> Drops(f, inOptional)
    decreases f, 1
  {
    match f
    case Simple(_) =>
    case Optional(child) => ExtractedExactly(child, col, true);
    case Expression(e) => PrintedExactly(e, col);
    case Other(_) =>
    case Conj(isOr, children) => ChildrenExtractedExactly(children, col, inOptional, isOr);
  }

  lemma {:induction false} ChildrenExtractedExactly(fs: seq<Filter>, col: string, inOptional: bool, isOr: bool)
    ensures ExtractAll(fs, col, inOptional, isOr).Thrown? <==> SomeFails(fs, inOptional, isOr)
    ensures ExtractAll(fs, col, inOptional, isOr).Dropped? <==>
      isOr && !SomeFails(fs, inOptional, isOr) && exists i :: 0 <= i < |fs| && Drops(fs[i], inOptional)
    ensures ExtractAll(fs, col, inOptional, isOr).Kept? ==>
      (ExtractAll(fs, col, inOptional, isOr).value == [] <==> forall i :: 0 <= i < |fs| ==> Drops(fs[i], inOptional))
    decreases fs, 0
  {
    if fs != [] {
      ExtractedExactly(fs[0], col, inOptional);
      ChildrenExtractedExactly(fs[1..], col, inOptional, isOr);
      assert forall i :: 0 < i < |fs| ==> fs[i] == fs[1..][i - 1];
      assert forall i :: 0 <= i < |fs[1..]| ==> fs[1..][i] == fs[i + 1];
    }
  }

  /** A scan gets its clause if and only if no filter fails. */
  lemma {:induction false} ClauseExistsExactly(cs: seq<ColumnFilter>)
    ensures WhereTexts(cs).Kept? <==> forall i :: 0 <= i < |cs| ==> !Fails(cs[i].filter, false)
    ensures !WhereTexts(cs).Dropped?
    decreases |cs|
  {
    if cs != [] {
      ExtractedExactly(cs[0].filter, cs[0].col, false);
      ClauseExistsExactly(cs[1..]);
      assert forall i :: 0 < i < |cs| ==> cs[i] == cs[1..][i - 1];
      assert forall i :: 0 <= i < |cs[1..]| ==> cs[1..][i] == cs[i + 1];
    }
  }

  /** All expressions in the filter can be printed; the gate lets no others in. */
  predicate Expressible(f: Filter)
    decreases f
  {
    match f
    case Expression(e) => Printable(e)
    case Optional(child) => Expressible(child)
    case Conj(_, children) => forall i :: 0 <= i < |children| ==> Expressible(children[i])
    case _ => true
  }

  /** Below an optional filter only the gate matters: an unknown filter there never stops a query. */
  lemma {:induction false} OptionalNeverFails(f: Filter)
    requires Expressible(f)
    ensures !Fails(f, true) && forall o :: !Fails(Optional(f), o)
    decreases f, 1
  {
    match f
    case Optional(child) => OptionalNeverFails(child);
    case Conj(isOr, children) => OptionalChildrenNeverFail(children, isOr);
    case _ =>
  }

  lemma {:induction false} OptionalChildrenNeverFail(fs: seq<Filter>, isOr: bool)
    requires forall i :: 0 <= i < |fs| ==> Expressible(fs[i])
    ensures !SomeFails(fs, true, isOr)
    decreases fs, 0
  {
    if fs != [] {
      OptionalNeverFails(fs[0]);
      OptionalChildrenNeverFail(fs[1..], isOr);
    }
  }
}
