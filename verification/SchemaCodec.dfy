/**
 The `ddb$db$schema` naming scheme: the encoder used when MotherDuck schemas are given a
 Postgres name, and the decoder used when a Postgres schema is mapped back to DuckDB.
 */
module SchemaCodec {
  import opened Results

  /** What `EscapeQuotes(text, '$')` does: every `$` is doubled. */
  function EscapeDollars(s: string): string
  {
    if s == [] then [] else EscapeChar(s[0]) + EscapeDollars(s[1..])
  }

  function EscapeChar(c: char): string
  {
    if c == '$' then ['$', '$'] else [c]
  }

  /** The part of a Postgres schema name that follows the `ddb$` prefix. */
  function EncodeTail(db: string, schema: string): string
  {
    EscapeDollars(db) + (if schema != "main" then "$" + EscapeDollars(schema) else "")
  }

  function PgSchemaName(db: string, schema: string, isDefaultDb: bool): string
  {
    if isDefaultDb then (if schema == "main" then "public" else schema)
    else "ddb$" + EncodeTail(db, schema)
  }

  // ---------------------------------------------------------------- injectivity

  /** Reads `$$` as a literal dollar. */
  function UnescapeDollars(t: string): string
  {
    if t == [] then []
    else if |t| > 1 && t[0] == '$' && t[1] == '$' then "$" + UnescapeDollars(t[2..])
    else [t[0]] + UnescapeDollars(t[1..])
  }

  /** The reading under which the encoding is unambiguous: pairs first, a lone `$` separates. */
  function SplitPairs(t: string): (r: (string, Option<string>))
  {
    if t == [] then ([], None)
    else if |t| > 1 && t[0] == '$' && t[1] == '$' then
      var r := SplitPairs(t[2..]); ("$" + r.0, r.1)
    else if t[0] == '$' then ([], Some(UnescapeDollars(t[1..])))
    else
      var r := SplitPairs(t[1..]); ([t[0]] + r.0, r.1)
  }

  lemma {:induction false} UnescapeInvertsEscape(s: string)
    ensures UnescapeDollars(EscapeDollars(s)) == s
  {
    if s != [] {
      UnescapeInvertsEscape(s[1..]);
      var t := EscapeDollars(s);
      var k := if s[0] == '$' then 2 else 1;
      assert t[k..] == EscapeDollars(s[1..]);
    }
  }

  ghost predicate ClosesDatabase(rest: string)
  {
    rest == [] || (rest[0] == '$' && (|rest| > 1 ==> rest[1] != '$'))
  }

  lemma {:induction false} SplitPairsSkipsEscaped(db: string, rest: string)
    requires ClosesDatabase(rest)
    ensures SplitPairs(EscapeDollars(db) + rest) == (db + SplitPairs(rest).0, SplitPairs(rest).1)
  {
    var t := EscapeDollars(db) + rest;
    if db == [] {
      assert t == rest;
    } else {
      SplitPairsSkipsEscaped(db[1..], rest);
      var c := EscapeChar(db[0]);
      var u := EscapeDollars(db[1..]) + rest;
      assert t == c + u;
      assert t[0] == db[0];
      assert t[|c|..] == u;
      assert db + SplitPairs(rest).0 == [db[0]] + (db[1..] + SplitPairs(rest).0);
    }
  }

  predicate StartsWithDollar(s: string) { s != [] && s[0] == '$' }

  lemma {:induction false} EscapeKeepsHead(s: string)
    requires !StartsWithDollar(s)
    ensures !StartsWithDollar(EscapeDollars(s))
    ensures EscapeDollars(s) == [] <==> s == []
  {
  }

  lemma {:induction false} SplitPairsDecodes(db: string, schema: string)
    requires !StartsWithDollar(schema)
    ensures SplitPairs(EncodeTail(db, schema)) == (db, if schema == "main" then None else Some(schema))
  {
    var rest := if schema != "main" then "$" + EscapeDollars(schema) else "";
    EscapeKeepsHead(schema);
    SplitPairsSkipsEscaped(db, rest);
    UnescapeInvertsEscape(schema);
    assert db + [] == db;
    if schema != "main" {
      assert rest[1..] == EscapeDollars(schema);
      assert SplitPairs(rest) == ([], Some(schema));
    }
  }

  /** Two different MotherDuck schemas never share a Postgres name. */
  lemma {:induction false} EncodingInjective(db1: string, schema1: string, db2: string, schema2: string)
    requires !StartsWithDollar(schema1) && !StartsWithDollar(schema2)
    requires PgSchemaName(db1, schema1, false) == PgSchemaName(db2, schema2, false)
    ensures db1 == db2 && schema1 == schema2
  {
    SplitPairsDecodes(db1, schema1);
    SplitPairsDecodes(db2, schema2);
    assert EncodeTail(db1, schema1) == PgSchemaName(db1, schema1, false)[4..];
    assert EncodeTail(db2, schema2) == PgSchemaName(db2, schema2, false)[4..];
  }

  /** Dollars at the head of a schema name move to the end of the database name. */
  function MoveDollars(db: string, schema: string): (string, Option<string>)
    decreases |schema|
  {
    if StartsWithDollar(schema) then MoveDollars(db + "$", schema[1..]) else (db, Some(schema))
  }

  /** What a name stands for, up to the names it is confused with. */
  function Settled(db: string, schema: string): (string, Option<string>)
  {
    if schema == "main" then (db, None) else MoveDollars(db, schema)
  }

  function SettledText(r: (string, Option<string>)): string
  {
    EscapeDollars(r.0) + if r.1.Some? then "$" + EscapeDollars(r.1.value) else ""
  }

  lemma {:induction false} EscapeOneMore(db: string)
    ensures EscapeDollars(db + "$") == EscapeDollars(db) + "$$"
  {
    EscapeSplits(db, "$");
    assert EscapeDollars("$") == "$$" + EscapeDollars("");
  }

  lemma {:induction false} MoveOneDollar(db: string, schema: string)
    requires StartsWithDollar(schema)
    ensures EscapeDollars(db) + ("$" + EscapeDollars(schema)) == EscapeDollars(db + "$") + ("$" + EscapeDollars(schema[1..]))
  {
    EscapeOneMore(db);
    assert "$" + ("$$" + EscapeDollars(schema[1..])) == "$$" + ("$" + EscapeDollars(schema[1..]));
    Assoc(EscapeDollars(db), "$$", "$" + EscapeDollars(schema[1..]));
  }

  lemma {:induction false} MovedIsTheSame(db: string, schema: string)
    ensures SettledText(MoveDollars(db, schema)) == EscapeDollars(db) + ("$" + EscapeDollars(schema))
    ensures SplitPairs(EscapeDollars(db) + ("$" + EscapeDollars(schema))) == MoveDollars(db, schema)
    decreases |schema|
  {
    if StartsWithDollar(schema) {
      MoveOneDollar(db, schema);
      MovedIsTheSame(db + "$", schema[1..]);
    } else {
      SplitSeparated(db, schema);
    }
  }

  lemma {:induction false} SplitSeparated(db: string, schema: string)
    requires !StartsWithDollar(schema)
    ensures SplitPairs(EscapeDollars(db) + ("$" + EscapeDollars(schema))) == (db, Some(schema))
  {
    var rest := "$" + EscapeDollars(schema);
    EscapeKeepsHead(schema);
    SplitPairsSkipsEscaped(db, rest);
    UnescapeInvertsEscape(schema);
    assert rest[1..] == EscapeDollars(schema);
    assert SplitPairs(rest) == ([], Some(schema));
    assert db + [] == db;
  }

  lemma {:induction false} SettledIsTheSame(db: string, schema: string)
    ensures SettledText(Settled(db, schema)) == EncodeTail(db, schema)
    ensures SplitPairs(EncodeTail(db, schema)) == Settled(db, schema)
  {
    if schema == "main" {
      SplitPairsDecodes(db, schema);
    } else {
      MovedIsTheSame(db, schema);
    }
  }

  /** Two pairs share a Postgres name if and only if they settle to the same pair. */
  lemma {:induction false} SameNameExactly(db1: string, schema1: string, db2: string, schema2: string)
    ensures PgSchemaName(db1, schema1, false) == PgSchemaName(db2, schema2, false) <==> Settled(db1, schema1) == Settled(db2, schema2)
  {
    SettledIsTheSame(db1, schema1);
    SettledIsTheSame(db2, schema2);
    assert EncodeTail(db1, schema1) == PgSchemaName(db1, schema1, false)[4..];
    assert EncodeTail(db2, schema2) == PgSchemaName(db2, schema2, false)[4..];
  }

  /** Every schema name that starts with `$`, except `$main`, collides with a schema of another database. */
  lemma {:induction false} LeadingDollarCollides(db: string, rest: string)
    requires rest != "main"
    ensures PgSchemaName(db, "$" + rest, false) == PgSchemaName(db + "$", rest, false)
  {
    assert ("$" + rest)[1..] == rest;
    assert "$" + rest != "main" by { assert "main"[0] == 'm'; }
    SameNameExactly(db, "$" + rest, db + "$", rest);
  }

  lemma {:induction false} MovedPieces(db: string, schema: string) returns (n: nat)
    ensures n <= |schema| && MoveDollars(db, schema) == (db + Dollars(n), Some(schema[n..])) && schema[..n] == Dollars(n)
    decreases |schema|
  {
    if StartsWithDollar(schema) {
      var m := MovedPieces(db + "$", schema[1..]);
      n := m + 1;
      assert db + "$" + Dollars(m) == db + Dollars(n);
      assert schema[1..][m..] == schema[n..];
      assert schema[..n] == [schema[0]] + schema[1..][..m];
    } else {
      n := 0;
      assert db + Dollars(0) == db && schema[0..] == schema;
    }
  }

  /** `$main` has a name of its own if and only if the database name does not end in `$`. */
  lemma {:induction false} DollarMainCollides(db: string)
    ensures (exists db2: string, schema2: string ::
               (db2, schema2) != (db, "$main") && PgSchemaName(db2, schema2, false) == PgSchemaName(db, "$main", false))
      <==> (db != [] && db[|db| - 1] == '$')
  {
    DollarMainSettles(db);
    if db != [] && db[|db| - 1] == '$' {
      var d := db[..|db| - 1];
      assert db == d + "$";
      DoubleDollarMain(d);
      SameNameExactly(d, "$$main", db, "$main");
      assert (d, "$$main") != (db, "$main");
    } else {
      forall db2: string, schema2: string | PgSchemaName(db2, schema2, false) == PgSchemaName(db, "$main", false)
        ensures (db2, schema2) == (db, "$main")
      {
        SameNameExactly(db2, schema2, db, "$main");
        OnlyDollarMain(db, db2, schema2);
      }
    }
  }

  lemma {:induction false} DollarMainSettles(db: string)
    ensures Settled(db, "$main") == (db + "$", Some("main"))
  {
    assert "$main"[1..] == "main" && "main"[0] == 'm' && "$main"[0] == '$';
  }

  lemma {:induction false} DoubleDollarMain(d: string)
    ensures Settled(d, "$$main") == (d + "$" + "$", Some("main"))
  {
    assert "$$main"[1..] == "$main" && "$main"[1..] == "main" && "main"[0] == 'm' && "$$main"[0] == '$';
    assert MoveDollars(d + "$", "$main") == MoveDollars(d + "$" + "$", "main");
  }

  lemma {:induction false} OnlyDollarMain(db: string, db2: string, schema2: string)
    requires Settled(db2, schema2) == (db + "$", Some("main")) && !(db != [] && db[|db| - 1] == '$')
    ensures db2 == db && schema2 == "$main"
  {
    var n := MovedPieces(db2, schema2);
    assert schema2 == schema2[..n] + schema2[n..];
    assert schema2[0..] == schema2;
    LastDollars(db, db2, n);
    assert Dollars(1) + "main" == "$main";
  }

  /** How many of the dollars a name ends in were its own. */
  lemma {:induction false} LastDollars(db: string, db2: string, n: nat)
    requires db + "$" == db2 + Dollars(n)
    ensures n == 1 ==> db == db2
    ensures n > 1 ==> db != [] && db[|db| - 1] == '$'
  {
    var whole := db + "$";
    assert db == whole[..|db|];
    assert n > 0 ==> db2 == whole[..|db2|];
    assert |whole| == |db2| + n;
    assert forall k :: |db2| <= k < |whole| ==> whole[k] == '$';
  }

  // ---------------------------------------------------------------- the decoder

  /** Index of the first `$` at or after `from`, or |s|: `strchr` on a NUL-free string. */
  function FirstDollar(s: string, from: nat): (i: nat)
    requires from <= |s|
    ensures from <= i <= |s|
    ensures i < |s| ==> s[i] == '$'
    ensures forall k :: from <= k < i ==> s[k] != '$'
    decreases |s| - from
  {
    if from == |s| || s[from] == '$' then from else FirstDollar(s, from + 1)
  }

  /** End of the run of `$` that starts at `from`. */
  function RunEnd(s: string, from: nat): (i: nat)
    requires from <= |s|
    ensures from <= i <= |s|
    ensures i < |s| ==> s[i] != '$'
    ensures forall k :: from <= k < i ==> s[k] == '$'
    decreases |s| - from
  {
    if from == |s| || s[from] != '$' then from else RunEnd(s, from + 1)
  }

  function Dollars(n: nat): (s: string)
    ensures |s| == n && forall k :: 0 <= k < n ==> s[k] == '$'
  {
    seq(n, _ => '$')
  }

  /** What the decoder makes of the schema part: only the first run of dollars is shortened, by one. */
  function ReadSchema(rest: string): string
  {
    var i := FirstDollar(rest, 0);
    if i == |rest| then rest
    else
      var e := RunEnd(rest, i);
      rest[..i] + Dollars(e - i - 1) + rest[e..]
  }

  /** The decoder as a closed form on the text after the prefix. */
  function DecodeTail(t: string): Result<(string, string)>
  {
    var i := FirstDollar(t, 0);
    if i == |t| then Ok((t, "main"))
    else
      var e := RunEnd(t, i);
      if e == |t| then Err
      else Ok((t[..i] + Dollars(e - i - 1), ReadSchema(t[e..])))
  }

  lemma {:induction false} FirstDollarIs(s: string, from: nat, i: nat)
    requires from <= i <= |s| && (i < |s| ==> s[i] == '$')
    requires forall k :: from <= k < i ==> s[k] != '$'
    ensures FirstDollar(s, from) == i
    decreases i - from
  {
    if from < i {
      FirstDollarIs(s, from + 1, i);
    }
  }

  lemma {:induction false} RunEndIs(s: string, from: nat, i: nat)
    requires from <= i <= |s| && (i < |s| ==> s[i] != '$')
    requires forall k :: from <= k < i ==> s[k] == '$'
    ensures RunEnd(s, from) == i
    decreases i - from
  {
    if from < i {
      RunEndIs(s, from + 1, i);
    }
  }

  lemma {:induction false} FirstDollarAt(s: string, j: nat)
    requires j < |s| && s[j] == '$'
    ensures FirstDollar(s, j) == j
  {
  }

  /**
   The DuckDB database and schema of a Postgres schema, for a table of access method `am` (None for a
   relation without one): `public` is the schema `main` of the default database, and names of
   MotherDuck schemas need MotherDuck to be enabled.
   */
  function DecodeName(name: string, am: Option<string>, defaultDb: string, enabled: bool): Result<(string, string)>
  {
    if am != Some("duckdb") then Ok((if am.Some? then am.value else "pgduckdb", name))
    else if name == "pg_temp" then Ok(("pg_temp", "main"))
    else if name == "public" then Ok((defaultDb, "main"))
    else if !enabled then Err
    else if "ddb$" <= name then DecodeTail(name[4..])
    else Ok((defaultDb, name))
  }

  method DbAndSchema(name: string, am: Option<string>, defaultDb: string, enabled: bool)
    returns (r: Result<(string, string)>)
    ensures r == DecodeName(name, am, defaultDb, enabled)
  {
    if am.None? {
      return Ok(("pgduckdb", name));
    }
    if am.value != "duckdb" {
      return Ok((am.value, name));
    }
    if name == "pg_temp" {
      return Ok(("pg_temp", "main"));
    }
    if name == "public" {
      return Ok((defaultDb, "main"));
    }
    if !enabled {
      return Err;
    }
    if !("ddb$" <= name) {
      return Ok((defaultDb, name));
    }
    r := DatabaseLoop(name[4..]);
  }

  /** The pointer loops of the decoder; `p` is the saved pointer. */
  method DatabaseLoop(t: string) returns (r: Result<(string, string)>)
    ensures r == DecodeTail(t)
  {
    var p := 0;
    var db: string := "";
    var separated := false;
    ghost var i := FirstDollar(t, 0);
    ghost var e := RunEnd(t, i);
    var dollar := FirstDollar(t, 0);
    while dollar < |t|
      invariant 0 <= p <= dollar <= |t|
      invariant p == 0 ==> dollar == i && db == ""
      invariant p > 0 ==> i < p < e && dollar == p && db == t[..i] + Dollars(p - i)
      decreases |t| - p, |t| - dollar
    {
      db := db + t[p..dollar];
      p := dollar + 1;
      assert i < p <= e && db == t[..i] + Dollars(p - i - 1);
      if p == |t| {
        return Err;
      }
      if t[p] == '$' {
        assert p < e;
        db := db + ['$'];
        assert Dollars(p - i - 1) + ['$'] == Dollars(p - i);
        FirstDollarAt(t, p);
        dollar := FirstDollar(t, p);
      } else {
        assert p == e;
        separated := true;
        break;
      }
    }
    if !separated {
      assert p == 0 && i == |t|;
      assert db + t[p..] == t;
      return Ok((db + t[p..], "main"));
    }
    var schema := SchemaLoop(t[p..]);
    return Ok((db, schema));
  }

  method SchemaLoop(rest: string) returns (schema: string)
    ensures schema == ReadSchema(rest)
  {
    var p := 0;
    schema := "";
    ghost var i := FirstDollar(rest, 0);
    ghost var e := RunEnd(rest, i);
    var dollar := FirstDollar(rest, 0);
    while dollar < |rest|
      invariant 0 <= p <= dollar <= |rest|
      invariant p == 0 ==> dollar == i && schema == ""
      invariant p > 0 ==> i < p < e && dollar == p && schema == rest[..i] + Dollars(p - i)
      decreases |rest| - p, |rest| - dollar
    {
      schema := schema + rest[p..dollar];
      p := dollar + 1;
      assert i < p <= e && schema == rest[..i] + Dollars(p - i - 1);
      if p < |rest| && rest[p] == '$' {
        schema := schema + ['$'];
        assert Dollars(p - i - 1) + ['$'] == Dollars(p - i);
        FirstDollarAt(rest, p);
        dollar := FirstDollar(rest, p);
      } else {
        assert p == e;
        schema := schema + rest[p..];
        return;
      }
    }
    schema := schema + rest[p..];
  }

  // ---------------------------------------------------------------- exact round trip

  function CountDollars(s: string): nat
  {
    if s == [] then 0 else (if s[0] == '$' then 1 else 0) + CountDollars(s[1..])
  }

  /** The names the decoder gives back. */
  predicate RoundTrips(db: string, schema: string)
  {
    '$' !in db && (schema == "main" || (schema != [] && schema[0] != '$' && CountDollars(schema) <= 1))
  }

  lemma {:induction false} Assoc(a: string, b: string, c: string)
    ensures a + (b + c) == a + b + c
  {
  }

  lemma {:induction false} EscapeSplits(a: string, b: string)
    ensures EscapeDollars(a + b) == EscapeDollars(a) + EscapeDollars(b)
  {
    if a == [] {
      assert a + b == b;
    } else {
      EscapeSplits(a[1..], b);
      assert (a + b)[0] == a[0] && (a + b)[1..] == a[1..] + b;
      Assoc(EscapeChar(a[0]), EscapeDollars(a[1..]), EscapeDollars(b));
    }
  }

  lemma {:induction false} EscapePlain(s: string)
    requires '$' !in s
    ensures EscapeDollars(s) == s
  {
    if s != [] {
      EscapePlain(s[1..]);
    }
  }

  lemma {:induction false} EscapeRun(n: nat)
    ensures EscapeDollars(Dollars(n)) == Dollars(2 * n)
  {
    if n > 0 {
      EscapeRun(n - 1);
      assert Dollars(n)[1..] == Dollars(n - 1);
      assert EscapeChar('$') + Dollars(2 * (n - 1)) == Dollars(2 * n);
    }
  }

  lemma {:induction false} EscapeGrows(s: string)
    ensures |EscapeDollars(s)| == |s| + CountDollars(s)
    ensures CountDollars(s) == 0 <==> '$' !in s
  {
    if s != [] {
      EscapeGrows(s[1..]);
      assert s == [s[0]] + s[1..];
    }
  }

  lemma {:induction false} CountSplits(a: string, b: string)
    ensures CountDollars(a + b) == CountDollars(a) + CountDollars(b)
  {
    if a == [] {
      assert a + b == b;
    } else {
      CountSplits(a[1..], b);
      assert (a + b)[1..] == a[1..] + b;
    }
  }

  lemma {:induction false} CountRun(n: nat)
    ensures CountDollars(Dollars(n)) == n
  {
    if n > 0 {
      CountRun(n - 1);
      assert Dollars(n)[1..] == Dollars(n - 1);
    }
  }

  /** Every name is a dollar-free head, a run of dollars, and a tail that does not start with one. */
  lemma {:induction false} HeadRunTail(s: string) returns (head: string, n: nat, tail: string)
    ensures s == head + Dollars(n) + tail
    ensures '$' !in head && !StartsWithDollar(tail)
    ensures n == 0 ==> tail == []
    ensures head == [] && n == 0 ==> s == []
    ensures StartsWithDollar(s) <==> head == [] && n > 0
  {
    var i := FirstDollar(s, 0);
    var e := RunEnd(s, i);
    head, n, tail := s[..i], e - i, s[e..];
    assert s[i..e] == Dollars(n);
    assert s == s[..i] + s[i..e] + s[e..];
  }

  /** Where the first run of `head + $^n + tail` lies. */
  lemma {:induction false} FindRun(s: string, head: string, n: nat, tail: string)
    requires s == head + Dollars(n) + tail
    requires '$' !in head && !StartsWithDollar(tail)
    requires n == 0 ==> tail == []
    ensures FirstDollar(s, 0) == |head|
    ensures RunEnd(s, |head|) == |head| + n
    ensures s[..|head|] == head && s[|head| + n..] == tail
  {
    assert forall k :: 0 <= k < |head| ==> s[k] == head[k] && head[k] in head;
    assert forall k :: |head| <= k < |head| + n ==> s[k] == '$';
    assert tail != [] ==> s[|head| + n] == tail[0];
    FirstDollarIs(s, 0, |head|);
    RunEndIs(s, |head|, |head| + n);
  }

  lemma {:induction false} EscapePieces(s: string, head: string, n: nat, tail: string)
    requires s == head + Dollars(n) + tail && '$' !in head
    ensures EscapeDollars(s) == head + Dollars(2 * n) + EscapeDollars(tail)
    ensures CountDollars(s) == n + CountDollars(tail)
  {
    EscapeSplits(head + Dollars(n), tail);
    EscapeSplits(head, Dollars(n));
    EscapePlain(head);
    EscapeRun(n);
    CountSplits(head + Dollars(n), tail);
    CountSplits(head, Dollars(n));
    EscapeGrows(head);
    CountRun(n);
  }

  lemma {:induction false} ReadPieces(t: string, head: string, m: nat, rest: string)
    requires t == head + Dollars(m) + rest && '$' !in head && !StartsWithDollar(rest) && (m == 0 ==> rest == [])
    ensures ReadSchema(t) == if m == 0 then t else head + Dollars(m - 1) + rest
  {
    FindRun(t, head, m, rest);
  }

  /** Dropping one of the doubled dollars undoes the doubling only of a single dollar. */
  lemma {:induction false} OnlyOneDollar(head: string, n: nat, tail: string)
    requires n > 0
    ensures head + Dollars(2 * n - 1) + EscapeDollars(tail) == head + Dollars(n) + tail <==> n + CountDollars(tail) <= 1
  {
    EscapeGrows(tail);
    if n == 1 && CountDollars(tail) == 0 {
      EscapePlain(tail);
    } else {
      assert |head + Dollars(2 * n - 1) + EscapeDollars(tail)| > |head + Dollars(n) + tail|;
    }
  }

  /** Decoding the schema part alone gives the schema back exactly when it has at most one `$`. */
  lemma {:induction false} SchemaRoundTrip(schema: string)
    requires !StartsWithDollar(schema)
    ensures ReadSchema(EscapeDollars(schema)) == schema <==> CountDollars(schema) <= 1
  {
    var head, n, tail := HeadRunTail(schema);
    if n == 0 {
      assert schema == head;
      PlainSchemaRoundTrip(schema);
    } else {
      RunRoundTrip(schema, head, n, tail);
    }
  }

  lemma {:induction false} PlainSchemaRoundTrip(schema: string)
    requires '$' !in schema
    ensures ReadSchema(EscapeDollars(schema)) == schema && CountDollars(schema) == 0
  {
    EscapePlain(schema);
    EscapeGrows(schema);
    FirstDollarIs(schema, 0, |schema|);
  }

  lemma {:induction false} RunRoundTrip(schema: string, head: string, n: nat, tail: string)
    requires schema == head + Dollars(n) + tail && '$' !in head && !StartsWithDollar(tail) && n > 0
    ensures ReadSchema(EscapeDollars(schema)) == schema <==> CountDollars(schema) <= 1
  {
    EscapedRun(schema, head, n, tail);
    OnlyOneDollar(head, n, tail);
  }

  lemma {:induction false} EscapedRun(schema: string, head: string, n: nat, tail: string)
    requires schema == head + Dollars(n) + tail && '$' !in head && !StartsWithDollar(tail) && n > 0
    ensures ReadSchema(EscapeDollars(schema)) == head + Dollars(2 * n - 1) + EscapeDollars(tail)
    ensures CountDollars(schema) == n + CountDollars(tail)
  {
    EscapePieces(schema, head, n, tail);
    EscapeKeepsHead(tail);
    ReadPieces(EscapeDollars(schema), head, 2 * n, EscapeDollars(tail));
  }

  /** The decoder inverts the encoder on these names and on no others. */
  lemma {:induction false} RoundTripExactly(db: string, schema: string)
    ensures DecodeTail(EncodeTail(db, schema)) == Ok((db, schema)) <==> RoundTrips(db, schema)
  {
    var head, n, tail := HeadRunTail(db);
    EscapePieces(db, head, n, tail);
    EscapeKeepsHead(tail);
    EscapeGrows(db);
    var t := EncodeTail(db, schema);
    if n > 0 {
      DollarInDatabaseFails(db, schema, head, n, tail);
    } else {
      assert db == head;
      EscapePlain(db);
      if schema == "main" {
        assert t == db + Dollars(0) + [];
        FindRun(t, db, 0, []);
      } else {
        PlainDatabase(db, schema);
      }
    }
  }

  lemma {:induction false} DecodePieces(t: string, head: string, n: nat, tail: string)
    requires t == head + Dollars(n) + tail && n > 0
    requires '$' !in head && !StartsWithDollar(tail)
    ensures DecodeTail(t) == if tail == [] then Err else Ok((head + Dollars(n - 1), ReadSchema(tail)))
  {
    FindRun(t, head, n, tail);
  }

  lemma {:induction false} PlainDatabase(db: string, schema: string)
    requires '$' !in db && schema != "main"
    ensures DecodeTail(EncodeTail(db, schema)) == Ok((db, schema)) <==> RoundTrips(db, schema)
  {
    var t := EncodeTail(db, schema);
    EscapePlain(db);
    if StartsWithDollar(schema) {
      var n, tail := SeparatorMerges(db, schema);
      DecodePieces(t, db, 2 * n + 1, tail);
      assert |db + Dollars(2 * n)| > |db|;
    } else {
      EscapeKeepsHead(schema);
      assert t == db + Dollars(1) + EscapeDollars(schema);
      DecodePieces(t, db, 1, EscapeDollars(schema));
      assert db + Dollars(0) == db;
      SchemaRoundTrip(schema);
    }
  }

  /** The separator joins the dollars that a schema name starts with. */
  lemma {:induction false} SeparatorMerges(prefix: string, schema: string) returns (n: nat, tail: string)
    requires StartsWithDollar(schema)
    ensures n > 0 && !StartsWithDollar(tail)
    ensures prefix + "$" + EscapeDollars(schema) == prefix + Dollars(2 * n + 1) + tail
    ensures prefix + ("$" + EscapeDollars(schema)) == prefix + Dollars(2 * n + 1) + tail
  {
    var head, m, rest := HeadRunTail(schema);
    EscapePieces(schema, head, m, rest);
    EscapeKeepsHead(rest);
    n, tail := m, EscapeDollars(rest);
    assert [] + Dollars(2 * n) + tail == Dollars(2 * n) + tail;
    assert "$" + Dollars(2 * n) == Dollars(2 * n + 1);
  }

  lemma {:induction false} DollarInDatabaseFails(db: string, schema: string, head: string, n: nat, tail: string)
    requires db == head + Dollars(n) + tail && n > 0
    requires '$' !in head && !StartsWithDollar(tail)
    ensures DecodeTail(EncodeTail(db, schema)) != Ok((db, schema))
    ensures !RoundTrips(db, schema)
  {
    assert db[|head|] == '$';
    EscapePieces(db, head, n, tail);
    EscapeKeepsHead(tail);
    var suffix := if schema != "main" then "$" + EscapeDollars(schema) else "";
    if tail != [] {
      Assoc(head + Dollars(2 * n), EscapeDollars(tail), suffix);
      DecodePieces(EncodeTail(db, schema), head, 2 * n, EscapeDollars(tail) + suffix);
      RunsApart(head, n, tail, 2 * n - 1);
    } else if schema == "main" {
      DecodePieces(EncodeTail(db, schema), head, 2 * n, []);
    } else {
      DollarsBeforeSeparator(db, schema, head, n);
    }
  }

  /** The separator extends the dollars at the end of the database name. */
  lemma {:induction false} DollarsBeforeSeparator(db: string, schema: string, head: string, n: nat)
    requires db == head + Dollars(n) && n > 0 && '$' !in head && schema != "main"
    requires EscapeDollars(db) == head + Dollars(2 * n) + []
    ensures DecodeTail(EncodeTail(db, schema)) != Ok((db, schema))
  {
    var t := EncodeTail(db, schema);
    assert t == head + Dollars(2 * n) + ("$" + EscapeDollars(schema));
    if StartsWithDollar(schema) {
      var k, rest := SeparatorMerges(head + Dollars(2 * n), schema);
      JoinRuns(head, 2 * n, 2 * k + 1, rest);
      DecodePieces(t, head, 2 * n + 2 * k + 1, rest);
      RunsApart(head, n, [], 2 * n + 2 * k);
    } else {
      EscapeKeepsHead(schema);
      assert "$" == Dollars(1);
      Assoc(head + Dollars(2 * n), Dollars(1), EscapeDollars(schema));
      JoinRuns(head, 2 * n, 1, EscapeDollars(schema));
      DecodePieces(t, head, 2 * n + 1, EscapeDollars(schema));
      RunsApart(head, n, [], 2 * n);
    }
    assert head + Dollars(n) + [] == db;
  }

  lemma {:induction false} JoinRuns(head: string, m: nat, n: nat, rest: string)
    ensures head + Dollars(m) + Dollars(n) + rest == head + Dollars(m + n) + rest
  {
    assert Dollars(m) + Dollars(n) == Dollars(m + n);
    assert head + Dollars(m) + Dollars(n) == head + (Dollars(m) + Dollars(n));
  }

  /** `head + $^m` is not the database name when the run length, or what follows it, differs. */
  lemma {:induction false} RunsApart(head: string, n: nat, tail: string, m: nat)
    requires !StartsWithDollar(tail) && (tail != [] || m != n)
    ensures head + Dollars(n) + tail != head + Dollars(m)
  {
    var a, b := head + Dollars(n) + tail, head + Dollars(m);
    if |a| == |b| {
      assert tail != [] && a[|head| + n] == tail[0];
      assert b[|head| + n] == '$';
    }
  }

  // ---------------------------------------------------------------- the default database

  /** In the default database `main` is called `public`, and every other schema keeps its name. */
  lemma {:induction false} DefaultNames(db: string, schema: string)
    ensures PgSchemaName(db, "main", true) == "public"
    ensures schema != "main" ==> PgSchemaName(db, schema, true) == schema
  {
  }

  lemma {:induction false} ReadShortens(rest: string)
    ensures |ReadSchema(rest)| <= |rest|
  {
  }

  /**
   The whole naming scheme: a schema gets its own database and name back exactly when, in the default
   database, it is `main` or not one of the names with a meaning of their own, and, in any other
   database, it is one of the names the decoder inverts.
   */
  lemma {:induction false} NameRoundTripExactly(db: string, schema: string, defaultDb: string)
    ensures DecodeName(PgSchemaName(db, schema, db == defaultDb), Some("duckdb"), defaultDb, true) == Ok((db, schema))
      <==> if db != defaultDb then RoundTrips(db, schema)
           else schema == "main" || (schema != "public" && schema != "pg_temp" && !("ddb$" <= schema))
  {
    var name := PgSchemaName(db, schema, db == defaultDb);
    assert "public"[0] == 'p' && "pg_temp"[0] == 'p' && "main"[0] == 'm';
    if db != defaultDb {
      RoundTripExactly(db, schema);
      assert name[0] == 'd' && name[4..] == EncodeTail(db, schema);
    } else if "ddb$" <= schema {
      var t := schema[4..];
      ReadShortens(t[RunEnd(t, FirstDollar(t, 0))..]);
      assert schema[0] == 'd';
    }
  }

  /** Every schema of the default database leads back to it, except those with these names. */
  lemma {:induction false} DefaultFindsDatabase(db: string, schema: string)
    requires schema != "pg_temp" && !("ddb$" <= schema)
    ensures
      var r := DecodeName(PgSchemaName(db, schema, true), Some("duckdb"), db, true);
      r.Ok? && r.value.0 == db
  {
    assert "public"[0] == 'p' && "public"[1] == 'u' && "pg_temp"[1] == 'g';
  }

  /**
   A name is refused only for tables of DuckDB's access method: without MotherDuck, or when everything
   from its first dollar after the prefix on is dollars.
   */
  lemma {:induction false} RefusedExactly(name: string, am: Option<string>, defaultDb: string, enabled: bool)
    ensures DecodeName(name, am, defaultDb, enabled) == Err
      <==> am == Some("duckdb") && name != "pg_temp" && name != "public" && (!enabled || EndsInSeparator(name))
  {
    assert "public"[0] == 'p' && "pg_temp"[0] == 'p';
    if "ddb$" <= name {
      var t := name[4..];
      var i := FirstDollar(t, 0);
      assert forall j :: 0 <= j < |t| ==> name[j + 4] == t[j];
      if EndsInSeparator(name) {
        assert t[|t| - 1] == '$';
        assert forall j :: i <= j < |t| ==> t[j] == name[j + 4] == '$';
      }
      if i < |t| && RunEnd(t, i) == |t| {
        assert forall j :: 4 <= j < |name| ==> (name[j] == '$' <==> i <= j - 4);
      }
    }
  }

  predicate EndsInSeparator(name: string)
  {
    && "ddb$" <= name && |name| > 4 && name[|name| - 1] == '$'
    && forall i, j :: 4 <= i <= j < |name| && name[i] == '$' ==> name[j] == '$'
  }

  /** Two schemas of the default database share a Postgres name exactly when they are `main` and `public`. */
  lemma {:induction false} DefaultDatabaseCollides(db: string, schema1: string, schema2: string)
    ensures schema1 != schema2 && PgSchemaName(db, schema1, true) == PgSchemaName(db, schema2, true)
      <==> {schema1, schema2} == {"main", "public"}
  {
    assert "main"[0] == 'm' && "public"[0] == 'p';
    if schema1 != schema2 && {schema1, schema2} == {"main", "public"} {
      assert schema1 in {"main", "public"} && schema2 in {"main", "public"};
    }
    assert "main" in {"main", "public"} && "public" in {"main", "public"};
  }

  /** A schema of the default database takes the name of another database's schema exactly when it is spelled so. */
  lemma {:induction false} DefaultTakesOtherName(db: string, schema: string, db2: string, schema2: string)
    ensures PgSchemaName(db, schema, true) == PgSchemaName(db2, schema2, false) <==> schema == PgSchemaName(db2, schema2, false)
  {
    assert PgSchemaName(db2, schema2, false)[0] == 'd' && "main"[0] == 'm' && "public"[0] == 'p';
  }

}
