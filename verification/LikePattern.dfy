/**
 Turning `contains`, `prefix` and `suffix` into a Postgres LIKE pattern: the escaping done by the
 pushdown code, and what the LIKE operator (section 9.7.1 of the PostgreSQL documentation) makes of it.
 */
module LikePattern {

  /** `StringUtil::Replace` with a one-character search string. */
  function ReplaceAll(s: string, c: char, with: string): string
  {
    if s == [] then [] else (if s[0] == c then with else [s[0]]) + ReplaceAll(s[1..], c, with)
  }

  /** The four replacements, in the order of the code. */
  function EscapeNeedle(s: string): string
  {
    var quoted := ReplaceAll(s, '\'', ['\'', '\'']);
    var slashed := ReplaceAll(quoted, '\\', ['\\', '\\']);
    var percent := ReplaceAll(slashed, '%', ['\\', '%']);
    ReplaceAll(percent, '_', ['\\', '_'])
  }

  /** Doubling of single quotes, as every SQL string literal needs it. */
  function DoubleQuotes(s: string): string
  {
    ReplaceAll(s, '\'', ['\'', '\''])
  }

  /** The pattern that matches exactly `s`: a backslash before each special character. */
  function Literally(s: string): string
  {
    if s == [] then [] else LiterallyChar(s[0]) + Literally(s[1..])
  }

  function LiterallyChar(c: char): string
  {
    if c == '\\' || c == '%' || c == '_' then ['\\', c] else [c]
  }

  /** Postgres LIKE with its default escape character; a pattern ending in a backslash matches nothing here. */
  predicate LikeMatch(p: string, h: string)
    decreases |p| + |h|
  {
    if p == [] then h == []
    else if p[0] == '%' then LikeMatch(p[1..], h) || (h != [] && LikeMatch(p, h[1..]))
    else if p[0] == '_' then h != [] && LikeMatch(p[1..], h[1..])
    else if p[0] == '\\' then |p| > 1 && h != [] && h[0] == p[1] && LikeMatch(p[2..], h[1..])
    else h != [] && h[0] == p[0] && LikeMatch(p[1..], h[1..])
  }

  // ---------------------------------------------------------------- escaping

  lemma {:induction false} ReplaceSplits(a: string, b: string, c: char, with: string)
    ensures ReplaceAll(a + b, c, with) == ReplaceAll(a, c, with) + ReplaceAll(b, c, with)
  {
    if a == [] {
      assert a + b == b;
    } else {
      ReplaceSplits(a[1..], b, c, with);
      assert (a + b)[0] == a[0] && (a + b)[1..] == a[1..] + b;
      var head := if a[0] == c then with else [a[0]];
      Assoc(head, ReplaceAll(a[1..], c, with), ReplaceAll(b, c, with));
    }
  }

  lemma {:induction false} Assoc(a: string, b: string, c: string)
    ensures a + (b + c) == a + b + c
  {
  }

  lemma {:induction false} ReplaceOne(x: char, c: char, with: string)
    ensures ReplaceAll([x], c, with) == if x == c then with else [x]
  {
    assert ReplaceAll([x][1..], c, with) == [];
  }

  lemma {:induction false} ReplaceTwo(x: char, y: char, c: char, with: string)
    ensures ReplaceAll([x, y], c, with) == ReplaceAll([x], c, with) + ReplaceAll([y], c, with)
  {
    assert [x, y] == [x] + [y];
    ReplaceSplits([x], [y], c, with);
  }

  lemma {:induction false} EscapeNeedleSplits(a: string, b: string)
    ensures EscapeNeedle(a + b) == EscapeNeedle(a) + EscapeNeedle(b)
  {
    ReplaceSplits(a, b, '\'', ['\'', '\'']);
    var a1, b1 := ReplaceAll(a, '\'', ['\'', '\'']), ReplaceAll(b, '\'', ['\'', '\'']);
    ReplaceSplits(a1, b1, '\\', ['\\', '\\']);
    var a2, b2 := ReplaceAll(a1, '\\', ['\\', '\\']), ReplaceAll(b1, '\\', ['\\', '\\']);
    ReplaceSplits(a2, b2, '%', ['\\', '%']);
    ReplaceSplits(ReplaceAll(a2, '%', ['\\', '%']), ReplaceAll(b2, '%', ['\\', '%']), '_', ['\\', '_']);
  }

  lemma {:induction false} EscapeNeedleChar(c: char)
    ensures EscapeNeedle([c]) == DoubleQuotes(LiterallyChar(c))
  {
    ReplaceOne(c, '\'', ['\'', '\'']);
    ReplaceOne(c, '\\', ['\\', '\\']);
    ReplaceOne(c, '%', ['\\', '%']);
    ReplaceOne(c, '_', ['\\', '_']);
    if c == '\'' {
      QuotePairUntouched('\\', ['\\', '\\']);
      QuotePairUntouched('%', ['\\', '%']);
      QuotePairUntouched('_', ['\\', '_']);
    } else if c == '\\' {
      BackslashPairUntouched('\\', '%', ['\\', '%']);
      BackslashPairUntouched('\\', '_', ['\\', '_']);
      BackslashPairUntouched('\\', '\'', ['\'', '\'']);
    } else if c == '%' {
      BackslashPairUntouched('%', '_', ['\\', '_']);
      BackslashPairUntouched('%', '\'', ['\'', '\'']);
    } else if c == '_' {
      BackslashPairUntouched('_', '\'', ['\'', '\'']);
    }
  }

  lemma {:induction false} QuotePairUntouched(c: char, with: string)
    requires c != '\''
    ensures ReplaceAll(['\'', '\''], c, with) == ['\'', '\'']
  {
    ReplaceTwo('\'', '\'', c, with);
    ReplaceOne('\'', c, with);
  }

  lemma {:induction false} BackslashPairUntouched(x: char, c: char, with: string)
    requires c != '\\' && c != x
    ensures ReplaceAll(['\\', x], c, with) == ['\\', x]
  {
    ReplaceTwo('\\', x, c, with);
    ReplaceOne('\\', c, with);
    ReplaceOne(x, c, with);
  }

  /** The four successive replacements are one quote-doubled, per-character escape. */
  lemma {:induction false} EscapeNeedleIsQuotedPattern(s: string)
    ensures EscapeNeedle(s) == DoubleQuotes(Literally(s))
  {
    if s == [] {
      assert EscapeNeedle([]) == [];
    } else {
      assert s == [s[0]] + s[1..];
      EscapeNeedleSplits([s[0]], s[1..]);
      EscapeNeedleChar(s[0]);
      EscapeNeedleIsQuotedPattern(s[1..]);
      ReplaceSplits(LiterallyChar(s[0]), Literally(s[1..]), '\'', ['\'', '\'']);
    }
  }

  // ---------------------------------------------------------------- matching

  predicate HasPrefix(h: string, n: string) { n <= h }

  predicate HasSuffix(h: string, n: string) { |n| <= |h| && h[|h| - |n|..] == n }

  ghost predicate Contains(h: string, n: string)
  {
    exists k :: 0 <= k <= |h| && n <= h[k..]
  }

  /** An escaped needle at the head of a pattern matches exactly the needle. */
  lemma {:induction false} LiteralMatches(n: string, q: string, h: string)
    ensures LikeMatch(Literally(n) + q, h) <==> n <= h && LikeMatch(q, h[|n|..])
  {
    var p := Literally(n) + q;
    if n == [] {
      assert p == q && h[0..] == h;
    } else {
      var c := LiterallyChar(n[0]);
      var rest := Literally(n[1..]) + q;
      assert p == c + rest;
      assert p[|c|..] == rest;
      if h != [] && h[0] == n[0] {
        LiteralMatches(n[1..], q, h[1..]);
        assert h == [h[0]] + h[1..] && n == [n[0]] + n[1..];
        assert n <= h <==> n[1..] <= h[1..];
        if n <= h {
          assert h[1..][|n[1..]|..] == h[|n|..];
        }
      }
    }
  }

  /** A leading `%` lets the rest of the pattern start anywhere. */
  lemma {:induction false} PercentMatches(q: string, h: string)
    ensures LikeMatch(['%'] + q, h) <==> exists k :: 0 <= k <= |h| && LikeMatch(q, h[k..])
    decreases |h|
  {
    var p := ['%'] + q;
    assert p[1..] == q && h[0..] == h;
    if h == [] {
      assert LikeMatch(q, h[0..]) == LikeMatch(q, h);
    } else {
      PercentMatches(q, h[1..]);
      forall k | 0 <= k <= |h[1..]|
        ensures h[1..][k..] == h[k + 1..]
      {
      }
      if LikeMatch(p, h[1..]) {
        var k :| 0 <= k <= |h[1..]| && LikeMatch(q, h[1..][k..]);
        assert LikeMatch(q, h[k + 1..]);
      }
      if k :| 0 < k <= |h| && LikeMatch(q, h[k..]) {
        assert LikeMatch(q, h[1..][k - 1..]);
      }
    }
  }

  lemma {:induction false} AnythingMatchesPercent(h: string)
    ensures LikeMatch(['%'], h)
  {
    PercentMatches([], h);
    assert ['%'] + [] == ['%'];
    assert LikeMatch([], h[|h|..]);
  }

  /** The pattern of each function holds exactly when the function does, for every needle and haystack. */
  lemma {:induction false} PrefixPattern(n: string, h: string)
    ensures LikeMatch(Literally(n) + ['%'], h) <==> HasPrefix(h, n)
  {
    LiteralMatches(n, ['%'], h);
    if n <= h {
      AnythingMatchesPercent(h[|n|..]);
    }
  }

  lemma {:induction false} SuffixPattern(n: string, h: string)
    ensures LikeMatch(['%'] + Literally(n), h) <==> HasSuffix(h, n)
  {
    PercentMatches(Literally(n), h);
    forall k | 0 <= k <= |h|
      ensures LikeMatch(Literally(n), h[k..]) <==> h[k..] == n
    {
      LiteralMatches(n, [], h[k..]);
      assert Literally(n) + [] == Literally(n);
    }
    if HasSuffix(h, n) {
      assert LikeMatch(Literally(n), h[|h| - |n|..]);
    }
  }

  lemma {:induction false} ContainsPattern(n: string, h: string)
    ensures LikeMatch(['%'] + Literally(n) + ['%'], h) <==> Contains(h, n)
  {
    assert ['%'] + Literally(n) + ['%'] == ['%'] + (Literally(n) + ['%']);
    PercentMatches(Literally(n) + ['%'], h);
    forall k | 0 <= k <= |h|
      ensures LikeMatch(Literally(n) + ['%'], h[k..]) <==> n <= h[k..]
    {
      PrefixPattern(n, h[k..]);
    }
  }

  // ---------------------------------------------------------------- two readings of one pattern

  /** DuckDB's LIKE without an ESCAPE clause: the backslash is an ordinary character. */
  predicate PlainMatch(p: string, h: string)
    decreases |p| + |h|
  {
    if p == [] then h == []
    else if p[0] == '%' then PlainMatch(p[1..], h) || (h != [] && PlainMatch(p, h[1..]))
    else if p[0] == '_' then h != [] && PlainMatch(p[1..], h[1..])
    else h != [] && h[0] == p[0] && PlainMatch(p[1..], h[1..])
  }

  lemma {:induction false} SameWithoutBackslash(p: string, h: string)
    requires '\\' !in p
    ensures LikeMatch(p, h) <==> PlainMatch(p, h)
    decreases |p| + |h|
  {
    if p != [] {
      assert '\\' !in p[1..];
      SameWithoutBackslash(p[1..], h);
      if h != [] {
        SameWithoutBackslash(p[1..], h[1..]);
        SameWithoutBackslash(p, h[1..]);
      }
    }
  }

  function Backslashes(s: string): nat
  {
    if s == [] then 0 else (if s[0] == '\\' then 1 else 0) + Backslashes(s[1..])
  }

  lemma {:induction false} BackslashCounted(s: string)
    ensures Backslashes(s) == 0 <==> '\\' !in s
  {
    if s != [] { BackslashCounted(s[1..]); }
  }

  /** Every backslash of a pattern takes one of the text. */
  lemma {:induction false} PlainMatchNeedsBackslashes(p: string, h: string)
    requires PlainMatch(p, h)
    ensures Backslashes(p) <= Backslashes(h)
    decreases |p| + |h|
  {
    if p != [] {
      if p[0] == '%' {
        if PlainMatch(p[1..], h) {
          PlainMatchNeedsBackslashes(p[1..], h);
        } else {
          PlainMatchNeedsBackslashes(p, h[1..]);
        }
      } else {
        PlainMatchNeedsBackslashes(p[1..], h[1..]);
      }
    }
  }

  /** The pattern ends in a backslash that escapes nothing. */
  predicate Dangling(p: string)
  {
    if p == [] then false
    else if p[0] == '\\' then |p| == 1 || Dangling(p[2..])
    else Dangling(p[1..])
  }

  lemma {:induction false} DanglingMatchesNothing(p: string, h: string)
    requires Dangling(p)
    ensures !LikeMatch(p, h)
    decreases |p| + |h|
  {
    if p[0] == '%' {
      DanglingMatchesNothing(p[1..], h);
      if h != [] { DanglingMatchesNothing(p, h[1..]); }
    } else if p[0] == '\\' {
      if |p| > 1 && h != [] { DanglingMatchesNothing(p[2..], h[1..]); }
    } else if h != [] {
      DanglingMatchesNothing(p[1..], h[1..]);
    }
  }

  /** The shortest text of the plain reading. */
  function ShortestPlain(p: string): (h: string)
    ensures PlainMatch(p, h)
  {
    if p == [] then []
    else if p[0] == '%' then ShortestPlain(p[1..])
    else
      var h := [if p[0] == '_' then 'a' else p[0]] + ShortestPlain(p[1..]);
      assert h[1..] == ShortestPlain(p[1..]);
      h
  }

  /** The shortest text of the reading with escapes; it has fewer backslashes than a pattern that has any. */
  function ShortestEscaped(p: string): (h: string)
    requires !Dangling(p)
    ensures LikeMatch(p, h)
    ensures Backslashes(h) <= Backslashes(p)
    ensures '\\' in p ==> Backslashes(h) < Backslashes(p)
  {
    if p == [] then []
    else if p[0] == '%' then ShortestEscaped(p[1..])
    else if p[0] == '\\' then
      var h := [p[1]] + ShortestEscaped(p[2..]);
      assert h[1..] == ShortestEscaped(p[2..]) && p[1..][1..] == p[2..];
      h
    else
      var h := [if p[0] == '_' then 'a' else p[0]] + ShortestEscaped(p[1..]);
      assert h[1..] == ShortestEscaped(p[1..]);
      h
  }

  /** A text that the two engines judge differently, for every pattern with a backslash. */
  lemma {:induction false} BackslashSeparates(p: string) returns (h: string)
    requires '\\' in p
    ensures LikeMatch(p, h) != PlainMatch(p, h)
  {
    if Dangling(p) {
      h := ShortestPlain(p);
      DanglingMatchesNothing(p, h);
    } else {
      h := ShortestEscaped(p);
      if PlainMatch(p, h) {
        PlainMatchNeedsBackslashes(p, h);
      }
    }
  }

  /** The engines agree on a pattern for every text if and only if it holds no backslash. */
  lemma {:induction false} PatternsAgreeExactly(p: string)
    ensures (forall h :: LikeMatch(p, h) <==> PlainMatch(p, h)) <==> '\\' !in p
  {
    if '\\' in p {
      var h := BackslashSeparates(p);
    } else {
      forall h ensures LikeMatch(p, h) <==> PlainMatch(p, h) {
        SameWithoutBackslash(p, h);
      }
    }
  }
}
