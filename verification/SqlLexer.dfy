/**
 How Postgres cuts the text of a WHERE condition into tokens, for the part of the language the
 pushdown code emits (sections 4.1.1 to 4.1.4 of the PostgreSQL documentation).
 */
module SqlLexer {
  import opened LikePattern

  /** `Word` is an unquoted identifier or key word, already folded to lower case. */
  datatype Token =
    | LParen | RParen | Dot | Comma | Cast
    | Number(digits: string)
    | Str(value: string)
    | Word(word: string)
    | Quoted(name: string)
    | Operator(symbol: string)
    | Bad

  predicate IsLower(c: char) { 'a' <= c <= 'z' }
  predicate IsUpper(c: char) { 'A' <= c <= 'Z' }
  predicate IsDigit(c: char) { '0' <= c <= '9' }
  predicate IsWordStart(c: char) { IsLower(c) || IsUpper(c) || c == '_' }
  predicate IsWordChar(c: char) { IsWordStart(c) || IsDigit(c) || c == '$' }
  predicate IsOperatorChar(c: char)
  {
    || c == '~' || c == '!' || c == '@' || c == '#' || c == '^' || c == '&' || c == '|' || c == '`' || c == '?'
    || c == '+' || c == '-' || c == '*' || c == '/' || c == '%' || c == '<' || c == '>' || c == '='
  }

  function Fold(c: char): char
  {
    if IsUpper(c) then (c as int - 'A' as int + 'a' as int) as char else c
  }

  function FoldAll(s: string): (r: string)
    ensures |r| == |s| && forall i :: 0 <= i < |s| ==> r[i] == Fold(s[i])
  {
    seq(|s|, i requires 0 <= i < |s| => Fold(s[i]))
  }

  /** Length of the longest prefix of word (or operator) characters. */
  function WordLength(s: string): (n: nat)
    ensures n <= |s|
  {
    if s == [] || !IsWordChar(s[0]) then 0 else 1 + WordLength(s[1..])
  }

  function OperatorRun(s: string): (n: nat)
    ensures n <= |s|
    ensures s != [] && IsOperatorChar(s[0]) ==> n > 0
  {
    if s == [] || !IsOperatorChar(s[0]) then 0 else 1 + OperatorRun(s[1..])
  }

  predicate IsSign(c: char) { c == '+' || c == '-' }

  /** Characters that allow an operator name to end in a sign. */
  predicate IsSpecial(c: char)
  {
    || c == '~' || c == '!' || c == '@' || c == '#' || c == '%' || c == '^' || c == '&' || c == '|' || c == '`' || c == '?'
  }

  predicate HasSpecial(s: string) { exists i :: 0 <= i < |s| && IsSpecial(s[i]) }

  /** A longer operator name ends in a sign only if it holds one of the special characters. */
  function TrimSigns(s: string, n: nat): (m: nat)
    requires n <= |s|
    ensures m <= n && (n > 0 ==> m > 0)
  {
    if n > 1 && IsSign(s[n - 1]) && !HasSpecial(s[..n]) then TrimSigns(s, n - 1) else n
  }

  function OperatorLength(s: string): (n: nat)
    ensures n <= |s|
    ensures s != [] && IsOperatorChar(s[0]) ==> n > 0
  {
    TrimSigns(s, OperatorRun(s))
  }

  function DigitRun(s: string): (n: nat)
    ensures n <= |s|
  {
    if s == [] || !IsDigit(s[0]) then 0 else 1 + DigitRun(s[1..])
  }

  /** A point and the digits after it. */
  function FractionLength(s: string): (n: nat)
    ensures n <= |s|
  {
    if s != [] && s[0] == '.' then 1 + DigitRun(s[1..]) else 0
  }

  /** An `e`, a sign and digits; without digits there is no exponent. */
  function ExponentLength(s: string): (n: nat)
    ensures n <= |s|
  {
    if |s| > 1 && (s[0] == 'e' || s[0] == 'E') then
      var sign := if IsSign(s[1]) then 1 else 0;
      var d := DigitRun(s[1 + sign..]);
      if d > 0 then 1 + sign + d else 0
    else 0
  }

  function NumberLength(s: string): (n: nat)
    ensures n <= |s|
    ensures s != [] && IsDigit(s[0]) ==> n > 0
  {
    var a := DigitRun(s);
    var b := a + FractionLength(s[a..]);
    b + ExponentLength(s[b..])
  }

  /**
   Reads up to the closing quote `q`; a doubled quote is one quote character. The result is the
   value and the text after the closing quote, or `ok == false` when the quote is never closed.
   */
  function ReadQuoted(s: string, q: char): (r: (bool, string, string))
    ensures |r.2| <= |s|
  {
    if s == [] then (false, [], [])
    else if s[0] == q then
      if |s| > 1 && s[1] == q then
        var r := ReadQuoted(s[2..], q); (r.0, [q] + r.1, r.2)
      else (true, [], s[1..])
    else
      var r := ReadQuoted(s[1..], q); (r.0, [s[0]] + r.1, r.2)
  }

  function Lex(s: string): seq<Token>
    decreases |s|
  {
    if s == [] then []
    else if s[0] == ' ' then Lex(s[1..])
    else if s[0] == '(' then [LParen] + Lex(s[1..])
    else if s[0] == ')' then [RParen] + Lex(s[1..])
    else if s[0] == '.' then [Dot] + Lex(s[1..])
    else if s[0] == ',' then [Comma] + Lex(s[1..])
    else if s[0] == ':' then
      if |s| > 1 && s[1] == ':' then [Cast] + Lex(s[2..]) else [Bad]
    else if IsDigit(s[0]) then
      var n := NumberLength(s);
      [Number(s[..n])] + Lex(s[n..])
    else if s[0] == '\'' then
      var r := ReadQuoted(s[1..], '\'');
      if r.0 then [Str(r.1)] + Lex(r.2) else [Bad]
    else if s[0] == '"' then
      var r := ReadQuoted(s[1..], '"');
      if r.0 then [Quoted(r.1)] + Lex(r.2) else [Bad]
    else if IsWordStart(s[0]) then
      var n := WordLength(s);
      [Word(FoldAll(s[..n]))] + Lex(s[n..])
    else if IsOperatorChar(s[0]) then
      var n := OperatorLength(s);
      [Operator(s[..n])] + Lex(s[n..])
    else [Bad]
  }

  // ---------------------------------------------------------------- reading pieces of text

  /** Text that may follow a word, a literal or a parenthesis without joining it. */
  predicate Clean(rest: string)
  {
    rest == [] || rest[0] == ' ' || rest[0] == ')' || rest[0] == ','
  }

  /** The text is read as these tokens wherever a clean text follows. */
  ghost predicate Reads(text: string, toks: seq<Token>)
  {
    forall rest {:trigger Lex(text + rest)} :: Clean(rest) ==> Lex(text + rest) == toks + Lex(rest)
  }

  /** The text is read as these tokens whatever follows: it ends in a delimiter. */
  ghost predicate ReadsFreely(text: string, toks: seq<Token>)
  {
    forall rest {:trigger Lex(text + rest)} :: Lex(text + rest) == toks + Lex(rest)
  }

  lemma {:induction false} AssocText(a: string, b: string, c: string)
    ensures a + (b + c) == a + b + c
  {
  }

  lemma {:induction false} AssocTokens(a: seq<Token>, b: seq<Token>, c: seq<Token>)
    ensures a + (b + c) == a + b + c
  {
  }

  /** A complete piece followed by a piece that starts cleanly. */
  lemma {:induction false} ThenClean(a: string, ta: seq<Token>, b: string, tb: seq<Token>)
    requires Reads(a, ta) && Reads(b, tb) && b != [] && Clean(b)
    ensures Reads(a + b, ta + tb)
  {
    forall rest | Clean(rest)
      ensures Lex(a + b + rest) == ta + tb + Lex(rest)
    {
      AssocText(a, b, rest);
      assert Clean(b + rest);
      AssocTokens(ta, tb, Lex(rest));
    }
  }

  lemma {:induction false} ThenCleanFreely(a: string, ta: seq<Token>, b: string, tb: seq<Token>)
    requires Reads(a, ta) && ReadsFreely(b, tb) && b != [] && Clean(b)
    ensures ReadsFreely(a + b, ta + tb)
  {
    forall rest
      ensures Lex(a + b + rest) == ta + tb + Lex(rest)
    {
      AssocText(a, b, rest);
      assert Clean(b + rest);
      AssocTokens(ta, tb, Lex(rest));
    }
  }

  /** A delimited piece followed by any piece. */
  lemma {:induction false} Then(a: string, ta: seq<Token>, b: string, tb: seq<Token>)
    requires ReadsFreely(a, ta) && Reads(b, tb)
    ensures Reads(a + b, ta + tb)
  {
    forall rest | Clean(rest)
      ensures Lex(a + b + rest) == ta + tb + Lex(rest)
    {
      AssocText(a, b, rest);
      AssocTokens(ta, tb, Lex(rest));
    }
  }

  lemma {:induction false} ThenFreely(a: string, ta: seq<Token>, b: string, tb: seq<Token>)
    requires ReadsFreely(a, ta) && ReadsFreely(b, tb)
    ensures ReadsFreely(a + b, ta + tb)
  {
    forall rest
      ensures Lex(a + b + rest) == ta + tb + Lex(rest)
    {
      AssocText(a, b, rest);
      AssocTokens(ta, tb, Lex(rest));
    }
  }

  lemma {:induction false} ReadsWhole(text: string, toks: seq<Token>)
    requires Reads(text, toks)
    ensures Lex(text) == toks
  {
    assert text + [] == text;
    assert Lex([]) == [];
    assert toks + [] == toks;
  }

  // ---------------------------------------------------------------- single tokens

  lemma {:induction false} ReadSpace()
    ensures ReadsFreely(" ", [])
  {
    forall rest ensures Lex(" " + rest) == [] + Lex(rest) {
      assert (" " + rest)[1..] == rest;
    }
  }

  lemma {:induction false} ReadLParen()
    ensures ReadsFreely("(", [LParen])
  {
    forall rest ensures Lex("(" + rest) == [LParen] + Lex(rest) {
      assert ("(" + rest)[1..] == rest;
    }
  }

  lemma {:induction false} ReadRParen()
    ensures ReadsFreely(")", [RParen])
    ensures Reads(")", [RParen])
  {
    forall rest ensures Lex(")" + rest) == [RParen] + Lex(rest) {
      assert (")" + rest)[1..] == rest;
    }
  }

  lemma {:induction false} ReadDot()
    ensures ReadsFreely(".", [Dot])
  {
    forall rest ensures Lex("." + rest) == [Dot] + Lex(rest) {
      assert ("." + rest)[1..] == rest;
    }
  }

  lemma {:induction false} ReadComma()
    ensures ReadsFreely(",", [Comma])
  {
    forall rest ensures Lex("," + rest) == [Comma] + Lex(rest) {
      assert ("," + rest)[1..] == rest;
    }
  }

  lemma {:induction false} ReadCast()
    ensures ReadsFreely("::", [Cast])
  {
    forall rest ensures Lex("::" + rest) == [Cast] + Lex(rest) {
      assert ("::" + rest)[2..] == rest;
    }
  }

  // ---------------------------------------------------------------- numbers

  /** An unsigned numeric literal: digits, with a fraction and an exponent or without. */
  predicate IsNumber(t: string) { t != [] && IsDigit(t[0]) && NumberLength(t) == |t| }

  predicate EndsNumber(rest: string)
  {
    rest == [] || (!IsDigit(rest[0]) && rest[0] != '.' && rest[0] != 'e' && rest[0] != 'E')
  }

  lemma {:induction false} DigitRunOf(t: string, rest: string)
    requires rest == [] || !IsDigit(rest[0])
    ensures DigitRun(t + rest) == DigitRun(t)
  {
    if t == [] {
      assert t + rest == rest;
    } else {
      assert (t + rest)[1..] == t[1..] + rest;
      DigitRunOf(t[1..], rest);
    }
  }

  lemma {:induction false} FractionLengthOf(t: string, rest: string)
    requires EndsNumber(rest)
    ensures FractionLength(t + rest) == FractionLength(t)
  {
    if t == [] {
      assert t + rest == rest;
    } else {
      assert (t + rest)[1..] == t[1..] + rest;
      DigitRunOf(t[1..], rest);
    }
  }

  lemma {:induction false} ExponentLengthOf(t: string, rest: string)
    requires EndsNumber(rest) && ExponentLength(t) == |t|
    ensures ExponentLength(t + rest) == |t|
  {
    if t == [] {
      assert t + rest == rest;
    } else {
      var sign := if IsSign(t[1]) then 1 else 0;
      assert (t + rest)[1 + sign..] == t[1 + sign..] + rest;
      DigitRunOf(t[1 + sign..], rest);
    }
  }

  lemma {:induction false} NumberLengthOf(t: string, rest: string)
    requires IsNumber(t) && EndsNumber(rest)
    ensures NumberLength(t + rest) == |t|
  {
    var a := DigitRun(t);
    var b := a + FractionLength(t[a..]);
    DigitRunOf(t, rest);
    TailOf(t, rest, a);
    FractionLengthOf(t[a..], rest);
    TailOf(t, rest, b);
    ExponentLengthOf(t[b..], rest);
  }

  lemma {:induction false} TailOf(t: string, rest: string, a: nat)
    requires a <= |t|
    ensures (t + rest)[a..] == t[a..] + rest
  {
  }

  lemma {:induction false} ReadNumber(t: string)
    requires IsNumber(t)
    ensures Reads(t, [Number(t)])
  {
    forall rest | Clean(rest) ensures Lex(t + rest) == [Number(t)] + Lex(rest) {
      NumberLengthOf(t, rest);
      var s := t + rest;
      assert s[0] == t[0] && s[..|t|] == t && s[|t|..] == rest;
    }
  }

  // ---------------------------------------------------------------- words and operators

  predicate IsWordText(w: string)
  {
    w != [] && IsWordStart(w[0]) && forall i :: 0 <= i < |w| ==> IsWordChar(w[i])
  }

  predicate EndsWord(rest: string) { rest == [] || !IsWordChar(rest[0]) }

  lemma {:induction false} WordLengthOf(w: string, rest: string)
    requires forall i :: 0 <= i < |w| ==> IsWordChar(w[i])
    requires EndsWord(rest)
    ensures WordLength(w + rest) == |w|
  {
    if w == [] {
      assert w + rest == rest;
    } else {
      assert (w + rest)[1..] == w[1..] + rest;
      WordLengthOf(w[1..], rest);
    }
  }

  lemma {:induction false} ReadWordBefore(w: string, rest: string)
    requires IsWordText(w) && EndsWord(rest)
    ensures Lex(w + rest) == [Word(FoldAll(w))] + Lex(rest)
  {
    var s := w + rest;
    WordLengthOf(w, rest);
    assert s[0] == w[0] && s[..|w|] == w && s[|w|..] == rest;
  }

  lemma {:induction false} ReadWord(w: string)
    requires IsWordText(w)
    ensures Reads(w, [Word(FoldAll(w))])
  {
    forall rest | Clean(rest) ensures Lex(w + rest) == [Word(FoldAll(w))] + Lex(rest) {
      ReadWordBefore(w, rest);
    }
  }

  /** A word directly followed by a delimiter that is not part of it. */
  lemma {:induction false} ReadWordThen(w: string, d: string, td: seq<Token>)
    requires IsWordText(w) && d != [] && EndsWord(d) && ReadsFreely(d, td)
    ensures ReadsFreely(w + d, [Word(FoldAll(w))] + td)
  {
    forall rest ensures Lex(w + d + rest) == [Word(FoldAll(w))] + td + Lex(rest) {
      AssocText(w, d, rest);
      ReadWordBefore(w, d + rest);
      AssocTokens([Word(FoldAll(w))], td, Lex(rest));
    }
  }

  predicate IsOperatorText(o: string)
  {
    o != [] && forall i :: 0 <= i < |o| ==> IsOperatorChar(o[i])
  }

  /** A name that is not cut: it does not end in a sign, or has one character, or may end in a sign. */
  predicate StaysWhole(o: string) { IsOperatorText(o) && (|o| == 1 || !IsSign(o[|o| - 1]) || HasSpecial(o)) }

  lemma {:induction false} OperatorRunOf(o: string, rest: string)
    requires forall i :: 0 <= i < |o| ==> IsOperatorChar(o[i])
    requires rest != [] && !IsOperatorChar(rest[0])
    ensures OperatorRun(o + rest) == |o|
  {
    if o == [] {
      assert o + rest == rest;
    } else {
      assert (o + rest)[1..] == o[1..] + rest;
      OperatorRunOf(o[1..], rest);
    }
  }

  lemma {:induction false} ReadOperatorBefore(o: string, rest: string)
    requires StaysWhole(o)
    requires rest != [] && !IsOperatorChar(rest[0])
    ensures Lex(o + rest) == [Operator(o)] + Lex(rest)
  {
    var s := o + rest;
    OperatorRunOf(o, rest);
    assert s[..|o|] == o && s[|o|..] == rest;
    assert TrimSigns(s, |o|) == |o|;
    assert s[0] == o[0];
    LexOperator(s);
  }

  lemma {:induction false} LexOperator(s: string)
    requires s != [] && IsOperatorChar(s[0])
    ensures Lex(s) == [Operator(s[..OperatorLength(s)])] + Lex(s[OperatorLength(s)..])
  {
  }

  /** A minus directly behind an operator is cut off it, unless the operator holds a special character. */
  lemma {:induction false} ReadOperatorMinus(o: string, rest: string)
    requires IsOperatorText(o) && !HasSpecial(o) && !IsSign(o[|o| - 1])
    requires rest != [] && !IsOperatorChar(rest[0])
    ensures Lex(o + ("-" + rest)) == [Operator(o), Operator("-")] + Lex(rest)
  {
    MinusIsCut(o, rest);
    LexOperatorBefore(o, "-" + rest);
    ReadOperatorBefore("-", rest);
    AssocTokens([Operator(o)], [Operator("-")], Lex(rest));
  }

  lemma {:induction false} LexOperatorBefore(o: string, tail: string)
    requires IsOperatorText(o) && OperatorLength(o + tail) == |o|
    ensures Lex(o + tail) == [Operator(o)] + Lex(tail)
  {
    var s := o + tail;
    assert s[..|o|] == o && s[|o|..] == tail && s[0] == o[0];
    LexOperator(s);
  }

  lemma {:induction false} MinusIsCut(o: string, rest: string)
    requires IsOperatorText(o) && !HasSpecial(o) && !IsSign(o[|o| - 1])
    requires rest != [] && !IsOperatorChar(rest[0])
    ensures OperatorLength(o + ("-" + rest)) == |o|
  {
    var n := |o|;
    var s := o + ("-" + rest);
    var signed := o + "-";
    assert s == signed + rest;
    OperatorRunOf(signed, rest);
    assert s[..n + 1] == signed;
    assert forall i :: 0 <= i < n ==> signed[i] == o[i];
    assert TrimSigns(s, n) == n;
  }

  /** An operator symbol directly followed by a delimiter that is not part of it. */
  lemma {:induction false} ReadOperatorThen(o: string, d: string, td: seq<Token>)
    requires StaysWhole(o)
    requires d != [] && !IsOperatorChar(d[0]) && ReadsFreely(d, td)
    ensures ReadsFreely(o + d, [Operator(o)] + td)
  {
    forall rest ensures Lex(o + d + rest) == [Operator(o)] + td + Lex(rest) {
      AssocText(o, d, rest);
      ReadOperatorBefore(o, d + rest);
      AssocTokens([Operator(o)], td, Lex(rest));
    }
  }

  /** Quoting as SQL does it: inner quotes doubled, the whole enclosed. */
  function Enclose(v: string, q: char): string
  {
    [q] + ReplaceAll(v, q, [q, q]) + [q]
  }

  lemma {:induction false} ReadQuotedOf(v: string, q: char, rest: string)
    requires rest == [] || rest[0] != q
    ensures ReadQuoted(ReplaceAll(v, q, [q, q]) + ([q] + rest), q) == (true, v, rest)
  {
    var s := ReplaceAll(v, q, [q, q]) + ([q] + rest);
    if v == [] {
      assert s == [q] + rest && s[1..] == rest;
    } else {
      ReadQuotedOf(v[1..], q, rest);
      var head := if v[0] == q then [q, q] else [v[0]];
      var tail := ReplaceAll(v[1..], q, [q, q]) + ([q] + rest);
      AssocText(head, ReplaceAll(v[1..], q, [q, q]), [q] + rest);
      assert s == head + tail;
      assert s[|head|..] == tail;
      assert v == [v[0]] + v[1..];
    }
  }

  lemma {:induction false} LexString(s: string, v: string, rest: string)
    requires s != [] && s[0] == '\'' && |rest| < |s| && ReadQuoted(s[1..], '\'') == (true, v, rest)
    ensures Lex(s) == [Str(v)] + Lex(rest)
  {
  }

  lemma {:induction false} LexQuotedName(s: string, v: string, rest: string)
    requires s != [] && s[0] == '"' && |rest| < |s| && ReadQuoted(s[1..], '"') == (true, v, rest)
    ensures Lex(s) == [Quoted(v)] + Lex(rest)
  {
  }

  lemma {:induction false} EncloseBefore(v: string, q: char, rest: string)
    ensures Enclose(v, q) + rest == [q] + (ReplaceAll(v, q, [q, q]) + ([q] + rest))
  {
    var body := ReplaceAll(v, q, [q, q]);
    AssocText([q] + body, [q], rest);
    AssocText([q], body, [q] + rest);
  }

  lemma {:induction false} ReadString(v: string)
    ensures Reads(Enclose(v, '\''), [Str(v)])
  {
    forall rest | Clean(rest) ensures Lex(Enclose(v, '\'') + rest) == [Str(v)] + Lex(rest) {
      ReadStringBefore(v, rest);
    }
  }

  lemma {:induction false} ReadStringBefore(v: string, rest: string)
    requires rest == [] || rest[0] != '\''
    ensures Lex(Enclose(v, '\'') + rest) == [Str(v)] + Lex(rest)
  {
    ReadQuotedOf(v, '\'', rest);
    EncloseBefore(v, '\'', rest);
    assert (Enclose(v, '\'') + rest)[1..] == ReplaceAll(v, '\'', ['\'', '\'']) + (['\''] + rest);
    LexString(Enclose(v, '\'') + rest, v, rest);
  }

  lemma {:induction false} ReadQuotedName(v: string)
    ensures Reads(Enclose(v, '"'), [Quoted(v)])
  {
    forall rest | Clean(rest) ensures Lex(Enclose(v, '"') + rest) == [Quoted(v)] + Lex(rest) {
      ReadQuotedNameBefore(v, rest);
    }
  }

  lemma {:induction false} ReadQuotedNameBefore(v: string, rest: string)
    requires rest == [] || rest[0] != '"'
    ensures Lex(Enclose(v, '"') + rest) == [Quoted(v)] + Lex(rest)
  {
    ReadQuotedOf(v, '"', rest);
    EncloseBefore(v, '"', rest);
    assert (Enclose(v, '"') + rest)[1..] == ReplaceAll(v, '"', ['"', '"']) + (['"'] + rest);
    LexQuotedName(Enclose(v, '"') + rest, v, rest);
  }

  lemma {:induction false} FoldLower(s: string)
    requires forall i :: 0 <= i < |s| ==> !IsUpper(s[i])
    ensures FoldAll(s) == s
  {
  }
}
