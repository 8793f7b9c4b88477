/**
 Writing Postgres values into DuckDB vectors: the LIST case of `ConvertPostgresToDuckValue`, and the
 row-at-a-time and column-at-a-time fills of a chunk.

 A LIST vector of depth n is a chain of n list levels over one leaf vector. Each level holds list
 entries (offset and length into the next vector) and the number of values used in the next vector.
 Memory that was never written is a missing key.
 */
module ListVectors {
  import opened Results
  import opened ArrayFlatten

  datatype Entry = Entry(offset: nat, length: nat)
  datatype Level = Level(entries: map<nat, Entry>, size: nat)

  /** A column of a chunk; `levels` is empty for a column that is not a LIST. */
  datatype Column = Column(nulls: set<nat>, levels: seq<Level>, leaf: map<nat, Value>)

  /** A Postgres array: dimensions and the elements in row-major order. */
  datatype PgArray = PgArray(dims: seq<nat>, elems: seq<Value>)

  datatype Datum = NullDatum | Plain(value: Value) | Array(arr: PgArray)

  predicate Positive(dims: seq<nat>) { forall i :: 0 <= i < |dims| ==> dims[i] > 0 }

  /** What Postgres guarantees of an array: positive dimensions, and no element without dimensions. */
  predicate WellFormed(d: Datum)
  {
    d.Array? ==> Positive(d.arr.dims) && |d.arr.elems| == if d.arr.dims == [] then 0 else Product(d.arr.dims)
  }

  // ---------------------------------------------------------------- reading a vector

  /** The value a reader of the vector finds at `at`; `None` when it meets memory never written. */
  function Read(levels: seq<Level>, leaf: map<nat, Value>, at: nat): Option<Value>
    decreases |levels|, 0
  {
    if levels == [] then (if at in leaf then Some(leaf[at]) else None)
    else if at !in levels[0].entries then None
    else
      match ReadMany(levels[1..], leaf, levels[0].entries[at].offset, levels[0].entries[at].length)
      case None => None
      case Some(vs) => Some(List(vs))
  }

  function ReadMany(levels: seq<Level>, leaf: map<nat, Value>, at: nat, n: nat): (r: Option<seq<Value>>)
    decreases |levels|, 1 + n
  {
    if n == 0 then Some([])
    else
      match (ReadMany(levels, leaf, at, n - 1), Read(levels, leaf, at + n - 1))
      case (Some(vs), Some(v)) => Some(vs + [v])
      case _ => None
  }

  function ReadRow(col: Column, row: nat): Option<Value>
  {
    if row in col.nulls then Some(Null) else Read(col.levels, col.leaf, row)
  }

  /** The values from `at` on are `vs`. */
  ghost predicate ReadsAs(levels: seq<Level>, leaf: map<nat, Value>, at: nat, vs: seq<Value>)
  {
    forall k :: at <= k < at + |vs| ==> Read(levels, leaf, k) == Some(vs[k - at])
  }

  lemma {:induction false} ReadManyIs(levels: seq<Level>, leaf: map<nat, Value>, at: nat, vs: seq<Value>)
    requires ReadsAs(levels, leaf, at, vs)
    ensures ReadMany(levels, leaf, at, |vs|) == Some(vs)
    decreases |vs|
  {
    if vs != [] {
      var n := |vs| - 1;
      ReadManyIs(levels, leaf, at, vs[..n]);
      assert Read(levels, leaf, at + n) == Some(vs[n]);
      assert vs == vs[..n] + [vs[n]];
    }
  }

  lemma {:induction false} ReadManyFails(levels: seq<Level>, leaf: map<nat, Value>, at: nat, n: nat, i: nat)
    requires at <= i < at + n && Read(levels, leaf, i) == None
    ensures ReadMany(levels, leaf, at, n) == None
    decreases n
  {
    if i < at + n - 1 {
      ReadManyFails(levels, leaf, at, n - 1, i);
    }
  }

  // ---------------------------------------------------------------- the value an array stands for

  lemma {:induction false} SliceFits(e: nat, d: nat, k: nat)
    requires e < k
    ensures 0 <= e * d <= e * d + d <= k * d
  {
    assert (e + 1) * d <= k * d;
  }

  /** `k` lists of `d` consecutive values each. */
  function Group(s: seq<Value>, d: nat, k: nat): (r: seq<Value>)
    requires |s| == k * d
    ensures |r| == k
  {
    seq(k, e requires 0 <= e < k => SliceFits(e, d, k); List(s[e * d..e * d + d]))
  }

  /** The `k` nested lists of shape `dims` that `elems` lists in row-major order. */
  function NestMany(dims: seq<nat>, k: nat, elems: seq<Value>): (r: seq<Value>)
    requires |elems| == k * Product(dims)
    ensures |r| == k
  {
    if dims == [] then elems
    else
      assert k * (dims[0] * Product(dims[1..])) == k * dims[0] * Product(dims[1..]);
      Group(NestMany(dims[1..], k * dims[0], elems), dims[0], k)
  }

  function Nest(a: PgArray): Value
    requires WellFormed(Array(a))
  {
    if a.dims == [] then List([]) else NestMany(a.dims, 1, a.elems)[0]
  }

  function Meaning(d: Datum): Value
    requires WellFormed(d)
  {
    match d
    case NullDatum => Null
    case Plain(v) => v
    case Array(a) => Nest(a)
  }

  // ---------------------------------------------------------------- writing an array

  /** One level: `count` entries of length `d` from `at` on, behind everything already in the child. */
  function Stretch(l: Level, at: nat, count: nat, d: nat): Level
  {
    Level(AddEntries(l.entries, at, count, l.size, d), l.size + d * count)
  }

  function AddEntries(m: map<nat, Entry>, at: nat, count: nat, base: nat, d: nat): (r: map<nat, Entry>)
    ensures forall k :: k in r <==> k in m || at <= k < at + count
    ensures forall k :: k in r ==> r[k] == if at <= k < at + count then Entry(base + d * (k - at), d) else m[k]
  {
    if count == 0 then m
    else AddEntries(m, at, count - 1, base, d)[at + count - 1 := Entry(base + d * (count - 1), d)]
  }

  /** Every level in turn; the number of entries at a level is the dimension just above it. */
  function WriteLevels(levels: seq<Level>, at: nat, count: nat, dims: seq<nat>): (r: seq<Level>)
    requires |levels| == |dims|
    ensures |r| == |levels|
  {
    if dims == [] then []
    else [Stretch(levels[0], at, count, dims[0])] + WriteLevels(levels[1..], levels[0].size, dims[0], dims[1..])
  }

  /** Where the elements go: the used size of the innermost level. */
  function LeafOffset(levels: seq<Level>, at: nat): nat
  {
    if levels == [] then at else LeafOffset(levels[1..], levels[0].size)
  }

  function WriteLeaf(leaf: map<nat, Value>, at: nat, elems: seq<Value>): (r: map<nat, Value>)
    ensures forall k :: k in r <==> k in leaf || at <= k < at + |elems|
    ensures forall k :: k in r ==> r[k] == if at <= k < at + |elems| then elems[k - at] else leaf[k]
  {
    if elems == [] then leaf
    else WriteLeaf(leaf, at, elems[..|elems| - 1])[at + |elems| - 1 := elems[|elems| - 1]]
  }

  /** `None` is the exception for dimensions that do not match the schema. */
  function WriteArray(col: Column, row: nat, a: PgArray): Option<Column>
    requires col.levels != []
  {
    if a.dims == [] then
      var top := col.levels[0];
      Some(col.(levels := col.levels[0 := top.(entries := top.entries[row := Entry(top.size, 0)])]))
    else if |a.dims| != |col.levels| then None
    else Some(col.(levels := WriteLevels(col.levels, row, 1, a.dims),
                   leaf := WriteLeaf(col.leaf, LeafOffset(col.levels, row), a.elems)))
  }

  /** One attribute of one tuple. */
  function WriteDatum(col: Column, row: nat, d: Datum): Option<Column>
  {
    match d
    case NullDatum => Some(col.(nulls := col.nulls + {row}))
    case Plain(v) => if col.levels == [] then Some(col.(leaf := col.leaf[row := v])) else None
    case Array(a) => if col.levels == [] then None else WriteArray(col, row, a)
  }

  // ---------------------------------------------------------------- the shapes that survive

  /** The number of entries written at each level, `count`, is the number of lists there, `total`. */
  predicate Covers(total: nat, count: nat, dims: seq<nat>)
    decreases |dims|
  {
    dims == [] || (count == total && Covers(total * dims[0], dims[0], dims[1..]))
  }

  /** Every dimension except the last two is 1. */
  predicate LeadingOnes(dims: seq<nat>)
  {
    forall i :: 0 <= i < |dims| - 2 ==> dims[i] == 1
  }

  /** Everything survives except arrays with an outer dimension above 1. */
  predicate Survives(d: Datum) { d.Array? ==> LeadingOnes(d.arr.dims) }

  lemma {:induction false} CoversExactly(dims: seq<nat>)
    requires Positive(dims)
    ensures Covers(1, 1, dims) <==> LeadingOnes(dims)
  {
    if |dims| >= 3 {
      CoversExactly(dims[1..]);
      TwoLevels(dims);
      if dims[0] == 1 && LeadingOnes(dims[1..]) {
        forall i | 0 <= i < |dims| - 2 ensures dims[i] == 1 {
          if i > 0 { assert dims[1..][i - 1] == 1; }
        }
      }
      if LeadingOnes(dims) {
        forall i | 0 <= i < |dims[1..]| - 2 ensures dims[1..][i] == 1 {
          assert dims[i + 1] == 1;
        }
      }
    } else if |dims| == 2 {
      assert dims[1..][1..] == [];
      assert Covers(1, 1, dims) == Covers(dims[0], dims[0], dims[1..]);
      assert Covers(dims[0] * dims[1], dims[1], []);
    }
  }

  lemma {:induction false} TwoLevels(dims: seq<nat>)
    requires Positive(dims) && |dims| >= 3
    ensures Covers(1, 1, dims) <==> dims[0] == 1 && Covers(1, 1, dims[1..])
  {
    var rest := dims[1..];
    assert Covers(1, 1, dims) == Covers(dims[0], dims[0], rest);
    assert Covers(dims[0], dims[0], rest) == Covers(dims[0] * rest[0], rest[0], rest[1..]);
    if dims[0] != 1 {
      assert dims[0] * rest[0] > rest[0] by { assert (dims[0] - 1) * rest[0] > 0; }
      assert rest[1..] != [];
    }
  }

  // ---------------------------------------------------------------- what a write makes readable

  lemma {:induction false} CoveredReadsBack(levels: seq<Level>, leaf: map<nat, Value>, at: nat, k: nat, dims: seq<nat>, elems: seq<Value>, count: nat)
    requires |levels| == |dims| && |elems| == k * Product(dims) && Covers(k, count, dims)
    ensures ReadsAs(WriteLevels(levels, at, count, dims), WriteLeaf(leaf, LeafOffset(levels, at), elems), at, NestMany(dims, k, elems))
    decreases |dims|
  {
    if dims != [] {
      ShapeBelow(dims, k);
      CoveredReadsBack(levels[1..], leaf, levels[0].size, k * dims[0], dims[1..], elems, dims[0]);
      var written := WriteLevels(levels, at, count, dims);
      assert written[1..] == WriteLevels(levels[1..], levels[0].size, dims[0], dims[1..]);
      LevelReads(written, WriteLeaf(leaf, LeafOffset(levels, at), elems), levels[0], at, dims[0], k, NestMany(dims[1..], k * dims[0], elems));
    }
  }

  lemma {:induction false} ShapeBelow(dims: seq<nat>, k: nat)
    requires dims != []
    ensures k * Product(dims) == k * dims[0] * Product(dims[1..])
  {
    assert k * (dims[0] * Product(dims[1..])) == k * dims[0] * Product(dims[1..]);
  }

  /** A level with `k` new entries over `k * d` readable values reads as the `k` groups of them. */
  lemma {:induction false} LevelReads(levels: seq<Level>, leaf: map<nat, Value>, was: Level, at: nat, d: nat, k: nat, inner: seq<Value>)
    requires levels != [] && levels[0] == Stretch(was, at, k, d) && |inner| == k * d
    requires ReadsAs(levels[1..], leaf, was.size, inner)
    ensures ReadsAs(levels, leaf, at, Group(inner, d, k))
  {
    forall i | at <= i < at + k ensures Read(levels, leaf, i) == Some(Group(inner, d, k)[i - at]) {
      EntryReads(levels, leaf, i, was.size, inner, d, k, i - at);
    }
  }

  /** An entry over `d` readable values reads as the list of them. */
  lemma {:induction false} EntryReads(levels: seq<Level>, leaf: map<nat, Value>, at: nat, base: nat, inner: seq<Value>, d: nat, k: nat, e: nat)
    requires levels != [] && e < k && |inner| == k * d
    requires at in levels[0].entries && levels[0].entries[at] == Entry(base + d * e, d)
    requires ReadsAs(levels[1..], leaf, base, inner)
    ensures Read(levels, leaf, at) == Some(Group(inner, d, k)[e])
  {
    SliceFits(e, d, k);
    assert d * e == e * d;
    ReadManyIs(levels[1..], leaf, base + d * e, inner[e * d..e * d + d]);
  }

  // ---------------------------------------------------------------- what a write loses

  /** No entry at or behind `bound`, and none behind the used part of an inner level. */
  predicate Unwritten(levels: seq<Level>, bound: nat)
  {
    levels == [] || ((forall k :: k in levels[0].entries ==> k < bound) && Unwritten(levels[1..], levels[0].size))
  }

  /** Where fewer entries are written than there are lists, one of the lists cannot be read. */
  lemma {:induction false} UncoveredIsLost(levels: seq<Level>, leaf: map<nat, Value>, at: nat, k: nat, dims: seq<nat>, count: nat) returns (i: nat)
    requires |levels| == |dims| && Positive(dims) && Unwritten(levels, at)
    requires 0 < count <= k && !Covers(k, count, dims)
    ensures i < k && Read(WriteLevels(levels, at, count, dims), leaf, at + i) == None
    decreases |dims|
  {
    var written := WriteLevels(levels, at, count, dims);
    if count < k {
      i := count;
    } else {
      var d := dims[0];
      assert k * d >= d by { assert (k - 1) * d >= 0; }
      var j := UncoveredIsLost(levels[1..], leaf, levels[0].size, k * d, dims[1..], d);
      assert written[1..] == WriteLevels(levels[1..], levels[0].size, d, dims[1..]);
      i := LostBelow(written, leaf, levels[0], at, d, k, j);
    }
  }

  /** A value that cannot be read makes the list that holds it unreadable. */
  lemma {:induction false} LostBelow(levels: seq<Level>, leaf: map<nat, Value>, was: Level, at: nat, d: nat, k: nat, j: nat) returns (i: nat)
    requires levels != [] && levels[0] == Stretch(was, at, k, d) && d > 0 && j < k * d
    requires Read(levels[1..], leaf, was.size + j) == None
    ensures i < k && Read(levels, leaf, at + i) == None
  {
    i := j / d;
    DivideIndex(j, k, d);
    ReadManyFails(levels[1..], leaf, was.size + d * i, d, was.size + j);
  }

  lemma {:induction false} DivideIndex(j: nat, k: nat, d: nat)
    requires d > 0 && j < k * d
    ensures 0 <= j / d < k && 0 <= j - d * (j / d) < d
  {
    var q := j / d;
    assert j == d * q + j % d;
    assert (q - k) * d == q * d - k * d;
    assert (q - k) * d < 0;
  }

  // ---------------------------------------------------------------- what a write leaves alone

  predicate LevelBounded(l: Level)
  {
    forall k :: k in l.entries ==> EntryBounded(l.entries[k], l.size)
  }

  predicate EntryBounded(e: Entry, size: nat) { e.offset + e.length <= size }

  /** List entries stay inside the used part of the next vector. */
  predicate Bounded(levels: seq<Level>)
  {
    levels == [] || (LevelBounded(levels[0]) && Bounded(levels[1..]))
  }

  /** Both vectors agree below `bound` and on everything the first one uses further in. */
  ghost predicate Agree(a: seq<Level>, leafA: map<nat, Value>, b: seq<Level>, leafB: map<nat, Value>, bound: nat)
    requires |a| == |b|
  {
    if a == [] then forall k: nat :: k < bound ==> (k in leafA <==> k in leafB) && (k in leafA ==> leafA[k] == leafB[k])
    else
      && (forall k: nat :: k < bound ==>
            (k in a[0].entries <==> k in b[0].entries) && (k in a[0].entries ==> a[0].entries[k] == b[0].entries[k]))
      && Agree(a[1..], leafA, b[1..], leafB, a[0].size)
  }

  lemma {:induction false} AgreeReadsSame(a: seq<Level>, leafA: map<nat, Value>, b: seq<Level>, leafB: map<nat, Value>, bound: nat, at: nat)
    requires |a| == |b| && Bounded(a) && Agree(a, leafA, b, leafB, bound) && at < bound
    ensures Read(a, leafA, at) == Read(b, leafB, at)
    decreases |a|
  {
    if a != [] && at in a[0].entries {
      var e := a[0].entries[at];
      forall k | e.offset <= k < e.offset + e.length ensures Read(a[1..], leafA, k) == Read(b[1..], leafB, k) {
        AgreeReadsSame(a[1..], leafA, b[1..], leafB, a[0].size, k);
      }
      ManyReadSame(a[1..], leafA, b[1..], leafB, e.offset, e.length);
    }
  }

  lemma {:induction false} ManyReadSame(a: seq<Level>, leafA: map<nat, Value>, b: seq<Level>, leafB: map<nat, Value>, at: nat, n: nat)
    requires forall k :: at <= k < at + n ==> Read(a, leafA, k) == Read(b, leafB, k)
    ensures ReadMany(a, leafA, at, n) == ReadMany(b, leafB, at, n)
    decreases n
  {
    if n > 0 {
      ManyReadSame(a, leafA, b, leafB, at, n - 1);
      assert Read(a, leafA, at + n - 1) == Read(b, leafB, at + n - 1);
    }
  }

  lemma {:induction false} WriteAgrees(levels: seq<Level>, leaf: map<nat, Value>, at: nat, count: nat, dims: seq<nat>, elems: seq<Value>)
    requires |levels| == |dims|
    ensures Agree(levels, leaf, WriteLevels(levels, at, count, dims), WriteLeaf(leaf, LeafOffset(levels, at), elems), at)
    decreases |dims|
  {
    if dims != [] {
      WriteAgrees(levels[1..], leaf, levels[0].size, dims[0], dims[1..], elems);
      assert WriteLevels(levels, at, count, dims)[1..] == WriteLevels(levels[1..], levels[0].size, dims[0], dims[1..]);
    }
  }

  lemma {:induction false} AgreeSelf(levels: seq<Level>, leaf: map<nat, Value>, bound: nat)
    ensures Agree(levels, leaf, levels, leaf, bound)
    decreases |levels|
  {
    if levels != [] { AgreeSelf(levels[1..], leaf, levels[0].size); }
  }

  // ---------------------------------------------------------------- the invariant of a column

  /** A column into which `rows` rows were written. */
  predicate Filled(col: Column, rows: nat)
  {
    && Bounded(col.levels) && Unwritten(col.levels, rows) && (forall r :: r in col.nulls ==> r < rows)
  }

  lemma {:induction false} StretchBounded(l: Level, at: nat, count: nat, d: nat)
    requires LevelBounded(l)
    ensures LevelBounded(Stretch(l, at, count, d))
  {
    var w := Stretch(l, at, count, d);
    forall k | k in w.entries ensures EntryBounded(w.entries[k], w.size) {
      if at <= k < at + count {
        NewEntryBounded(l.size, d, k - at, count);
      } else {
        OldEntryBounded(l.entries[k], l.size, d, count);
      }
    }
  }

  lemma {:induction false} NewEntryBounded(base: nat, d: nat, e: nat, count: nat)
    requires e < count
    ensures EntryBounded(Entry(base + d * e, d), base + d * count)
  {
    SliceFits(e, d, count);
    assert d * e == e * d && d * count == count * d;
  }

  lemma {:induction false} OldEntryBounded(e: Entry, size: nat, d: nat, count: nat)
    requires EntryBounded(e, size)
    ensures EntryBounded(e, size + d * count)
  {
  }

  lemma {:induction false} WriteStaysBounded(levels: seq<Level>, at: nat, count: nat, dims: seq<nat>)
    requires |levels| == |dims| && Bounded(levels)
    ensures Bounded(WriteLevels(levels, at, count, dims))
    decreases |dims|
  {
    if dims != [] {
      var d := dims[0];
      WriteStaysBounded(levels[1..], levels[0].size, d, dims[1..]);
      assert WriteLevels(levels, at, count, dims)[1..] == WriteLevels(levels[1..], levels[0].size, d, dims[1..]);
      StretchBounded(levels[0], at, count, d);
    }
  }

  lemma {:induction false} WriteStaysUnwritten(levels: seq<Level>, at: nat, count: nat, dims: seq<nat>)
    requires |levels| == |dims| && Positive(dims) && Unwritten(levels, at) && count > 0
    ensures Unwritten(WriteLevels(levels, at, count, dims), at + count)
    decreases |dims|
  {
    if dims != [] {
      var d := dims[0];
      WriteStaysUnwritten(levels[1..], levels[0].size, d, dims[1..]);
      var written := WriteLevels(levels, at, count, dims);
      assert written[1..] == WriteLevels(levels[1..], levels[0].size, d, dims[1..]);
      assert d * count >= d by { assert d * (count - 1) >= 0; }
      UnwrittenFurther(written[1..], levels[0].size + d, written[0].size);
    }
  }

  lemma {:induction false} UnwrittenFurther(levels: seq<Level>, bound: nat, further: nat)
    requires Unwritten(levels, bound) && bound <= further
    ensures Unwritten(levels, further)
  {
  }

  /**
   Writing one value: the column stays filled, no earlier row changes (whatever the shape of the
   array), and the new row reads back as the value exactly when every dimension of an array except
   the last two is 1.
   */
  lemma {:induction false} WriteIsExact(col: Column, rows: nat, d: Datum)
    requires Filled(col, rows) && WellFormed(d) && WriteDatum(col, rows, d).Some?
    ensures
      var next := WriteDatum(col, rows, d).value;
      && Filled(next, rows + 1)
      && SameRows(next, col, rows)
      && RowIsExact(next, rows, d)
  {
    var next := WriteDatum(col, rows, d).value;
    match d {
      case NullDatum =>
        UnwrittenFurther(col.levels, rows, rows + 1);
      case Plain(v) =>
      case Array(a) =>
        if a.dims == [] {
          EmptyArrayReads(col, rows);
        } else {
          WriteStaysBounded(col.levels, rows, 1, a.dims);
          WriteStaysUnwritten(col.levels, rows, 1, a.dims);
          WriteAgrees(col.levels, col.leaf, rows, 1, a.dims, a.elems);
          NewRowExactly(col, rows, a);
          forall r | 0 <= r < rows ensures ReadRow(next, r) == ReadRow(col, r) {
            AgreeReadsSame(col.levels, col.leaf, next.levels, next.leaf, rows, r);
          }
        }
    }
  }

  lemma {:induction false} NewRowExactly(col: Column, rows: nat, a: PgArray)
    requires Filled(col, rows) && WellFormed(Array(a)) && |col.levels| == |a.dims| > 0
    ensures
      var next := WriteArray(col, rows, a).value;
      Read(next.levels, next.leaf, rows) == Some(Nest(a)) <==> LeadingOnes(a.dims)
  {
    var next := WriteArray(col, rows, a).value;
    CoversExactly(a.dims);
    if LeadingOnes(a.dims) {
      CoveredReadsBack(col.levels, col.leaf, rows, 1, a.dims, a.elems, 1);
      assert Read(next.levels, next.leaf, rows + 0) == Some(NestMany(a.dims, 1, a.elems)[0]);
    } else {
      var i := UncoveredIsLost(col.levels, next.leaf, rows, 1, a.dims, 1);
      assert rows + i == rows;
    }
  }

  /** The empty array has no dimensions and becomes an empty list at any depth. */
  lemma {:induction false} EmptyArrayReads(col: Column, rows: nat)
    requires Filled(col, rows) && col.levels != []
    ensures
      var next := WriteArray(col, rows, PgArray([], [])).value;
      && Filled(next, rows + 1)
      && (forall r :: 0 <= r < rows ==> ReadRow(next, r) == ReadRow(col, r))
      && ReadRow(next, rows) == Some(List([]))
  {
    var next := WriteArray(col, rows, PgArray([], [])).value;
    assert next.levels[1..] == col.levels[1..];
    AgreeSelf(col.levels[1..], col.leaf, col.levels[0].size);
    assert Agree(col.levels, col.leaf, next.levels, next.leaf, rows);
    assert ReadMany(next.levels[1..], next.leaf, col.levels[0].size, 0) == Some([]);
    forall r | 0 <= r < rows ensures ReadRow(next, r) == ReadRow(col, r) {
      AgreeReadsSame(col.levels, col.leaf, next.levels, next.leaf, rows, r);
    }
  }

  // ---------------------------------------------------------------- a whole column

  /** The values of one attribute, tuple after tuple. */
  function WriteRows(col: Column, rows: nat, ds: seq<Datum>): Option<Column>
    decreases |ds|
  {
    if ds == [] then Some(col)
    else
      match WriteRows(col, rows, ds[..|ds| - 1])
      case None => None
      case Some(c) => WriteDatum(c, rows + |ds| - 1, ds[|ds| - 1])
  }

  /** Row `r` of the column reads back as `d` exactly when the shape of `d` survives. */
  ghost predicate RowIsExact(col: Column, r: nat, d: Datum)
    requires WellFormed(d)
  {
    ReadRow(col, r) == Some(Meaning(d)) <==> Survives(d)
  }

  predicate AllWellFormed(ds: seq<Datum>) { forall i :: 0 <= i < |ds| ==> WellFormed(ds[i]) }

  ghost predicate RowsAreExact(col: Column, rows: nat, ds: seq<Datum>)
    requires AllWellFormed(ds)
  {
    forall i :: 0 <= i < |ds| ==> RowIsExact(col, rows + i, ds[i])
  }

  predicate SameRows(a: Column, b: Column, rows: nat)
  {
    forall r :: 0 <= r < rows ==> ReadRow(a, r) == ReadRow(b, r)
  }

  /** `done` keeps the first `rows` rows of `col`, and behind them holds `ds`, each row as far as its shape survives. */
  ghost predicate Holds(done: Column, col: Column, rows: nat, ds: seq<Datum>)
    requires AllWellFormed(ds)
  {
    Filled(done, rows + |ds|) && SameRows(done, col, rows) && RowsAreExact(done, rows, ds)
  }

  /**
   After any sequence of inserts every earlier row is unchanged, and each new row reads back as its
   value exactly when that value's own shape survives, whatever was written around it.
   */
  lemma {:induction false} ColumnReadsBack(col: Column, rows: nat, ds: seq<Datum>)
    requires Filled(col, rows) && AllWellFormed(ds) && WriteRows(col, rows, ds).Some?
    ensures Holds(WriteRows(col, rows, ds).value, col, rows, ds)
    decreases |ds|
  {
    if ds != [] {
      var n := |ds| - 1;
      var before := LastRow(col, rows, ds, n);
      ColumnReadsBack(col, rows, ds[..n]);
      OneMoreRow(col, rows, ds, n, before);
    }
  }

  lemma {:induction false} LastRow(col: Column, rows: nat, ds: seq<Datum>, n: nat) returns (before: Column)
    requires AllWellFormed(ds) && |ds| == n + 1 && WriteRows(col, rows, ds).Some?
    ensures AllWellFormed(ds[..n]) && WriteRows(col, rows, ds[..n]) == Some(before)
    ensures WriteRows(col, rows, ds) == WriteDatum(before, rows + n, ds[n])
  {
    before := WriteRows(col, rows, ds[..n]).value;
  }

  lemma {:induction false} OneMoreRow(col: Column, rows: nat, ds: seq<Datum>, n: nat, before: Column)
    requires AllWellFormed(ds) && |ds| == n + 1 && AllWellFormed(ds[..n]) && Holds(before, col, rows, ds[..n])
    requires WriteDatum(before, rows + n, ds[n]).Some?
    ensures Holds(WriteDatum(before, rows + n, ds[n]).value, col, rows, ds)
  {
    WriteIsExact(before, rows + n, ds[n]);
    OneMoreHeld(col, rows, ds, n, before, WriteDatum(before, rows + n, ds[n]).value);
  }

  lemma {:induction false} OneMoreHeld(col: Column, rows: nat, ds: seq<Datum>, n: nat, before: Column, done: Column)
    requires AllWellFormed(ds) && |ds| == n + 1 && AllWellFormed(ds[..n]) && Holds(before, col, rows, ds[..n])
    requires Filled(done, rows + n + 1) && SameRows(done, before, rows + n) && RowIsExact(done, rows + n, ds[n])
    ensures Holds(done, col, rows, ds)
  {
    RowsStayExact(before, done, rows, ds, n);
    SameRowsTwice(done, before, col, rows, n);
  }

  lemma {:induction false} SameRowsTwice(done: Column, before: Column, col: Column, rows: nat, n: nat)
    requires SameRows(done, before, rows + n) && SameRows(before, col, rows)
    ensures SameRows(done, col, rows)
  {
    forall r | 0 <= r < rows ensures ReadRow(done, r) == ReadRow(col, r) {
      assert ReadRow(done, r) == ReadRow(before, r);
    }
  }

  lemma {:induction false} RowsStayExact(before: Column, done: Column, rows: nat, ds: seq<Datum>, n: nat)
    requires AllWellFormed(ds) && |ds| == n + 1 && SameRows(done, before, rows + n) && RowIsExact(done, rows + n, ds[n])
    requires AllWellFormed(ds[..n]) && RowsAreExact(before, rows, ds[..n])
    ensures RowsAreExact(done, rows, ds)
  {
    forall i | 0 <= i < |ds| ensures RowIsExact(done, rows + i, ds[i]) {
      if i < n {
        assert RowIsExact(before, rows + i, ds[..n][i]);
        assert ReadRow(done, rows + i) == ReadRow(before, rows + i);
      }
    }
  }

  /** A 2x1x1 array does not survive: only one of its two innermost lists gets an entry. */
  lemma {:induction false} ThreeDimensionsAreLost()
    ensures
      var a := PgArray([2, 1, 1], [Scalar(7), Scalar(8)]);
      var col := Column({}, [Level(map[], 0), Level(map[], 0), Level(map[], 0)], map[]);
      && WellFormed(Array(a)) && Filled(col, 0)
      && WriteArray(col, 0, a).Some? && ReadRow(WriteArray(col, 0, a).value, 0) != Some(Nest(a))
  {
    var a := PgArray([2, 1, 1], [Scalar(7), Scalar(8)]);
    var col := Column({}, [Level(map[], 0), Level(map[], 0), Level(map[], 0)], map[]);
    assert a.dims[1..] == [1, 1] && a.dims[1..][1..] == [1] && a.dims[1..][1..][1..] == [];
    assert col.levels[1..][1..][1..] == [];
    assert a.dims[0] == 2;
    WriteIsExact(col, 0, Array(a));
  }

  // ---------------------------------------------------------------- back to a Postgres array

  function Under(vs: seq<Value>, depth: nat): seq<Value>
  {
    if depth == 0 then vs else LeavesAll(vs, depth)
  }

  lemma {:induction false} LeavesAllAppends(a: seq<Value>, b: seq<Value>, depth: nat)
    requires depth > 0
    ensures LeavesAll(a + b, depth) == LeavesAll(a, depth) + LeavesAll(b, depth)
  {
    if a == [] {
      assert a + b == b;
    } else {
      LeavesAllAppends(a[1..], b, depth);
      assert (a + b)[1..] == a[1..] + b;
      LeavesOfFirst(a + b, depth);
      LeavesOfFirst(a, depth);
      Assoc(Leaves(a[0], depth), LeavesAll(a[1..], depth), LeavesAll(b, depth));
    }
  }

  lemma {:induction false} LeavesOfFirst(vs: seq<Value>, depth: nat)
    requires depth > 0 && vs != []
    ensures LeavesAll(vs, depth) == Leaves(vs[0], depth) + LeavesAll(vs[1..], depth)
  {
  }

  lemma {:induction false} UnderAppends(a: seq<Value>, b: seq<Value>, depth: nat)
    ensures Under(a + b, depth) == Under(a, depth) + Under(b, depth)
  {
    if depth > 0 { LeavesAllAppends(a, b, depth); }
  }

  /** Grouping values does not change the leaves below them. */
  lemma {:induction false} GroupKeepsLeaves(s: seq<Value>, d: nat, k: nat, depth: nat)
    requires |s| == k * d
    ensures LeavesAll(Group(s, d, k), depth + 1) == Under(s, depth)
    decreases k
  {
    if k > 0 {
      SliceFits(k - 1, d, k);
      var cut := (k - 1) * d;
      GroupKeepsLeaves(s[..cut], d, k - 1, depth);
      GroupOneMore(s, d, k);
      LeavesAllAppends(Group(s[..cut], d, k - 1), [List(s[cut..])], depth + 1);
      assert LeavesAll([List(s[cut..])], depth + 1) == Leaves(List(s[cut..]), depth + 1) + [];
      UnderAppends(s[..cut], s[cut..], depth);
      assert s == s[..cut] + s[cut..];
    }
  }

  lemma {:induction false} GroupOneMore(s: seq<Value>, d: nat, k: nat)
    requires |s| == k * d && k > 0
    ensures 0 <= (k - 1) * d <= |s|
    ensures Group(s, d, k) == Group(s[..(k - 1) * d], d, k - 1) + [List(s[(k - 1) * d..])]
  {
    SliceFits(k - 1, d, k);
    var cut := (k - 1) * d;
    assert cut + d == |s|;
    forall e | 0 <= e < k - 1 ensures Group(s, d, k)[e] == Group(s[..cut], d, k - 1)[e] {
      SliceFits(e, d, k - 1);
      SameSlice(s, cut, e * d, e * d + d);
    }
    assert s[cut..cut + d] == s[cut..];
  }

  lemma {:induction false} SameSlice(s: seq<Value>, cut: nat, i: nat, j: nat)
    requires i <= j <= cut <= |s|
    ensures s[..cut][i..j] == s[i..j]
  {
  }

  lemma {:induction false} NestKeepsLeaves(dims: seq<nat>, k: nat, elems: seq<Value>)
    requires |elems| == k * Product(dims)
    ensures Under(NestMany(dims, k, elems), |dims|) == elems
    decreases |dims|
  {
    if dims != [] {
      ShapeBelow(dims, k);
      NestKeepsLeaves(dims[1..], k * dims[0], elems);
      GroupKeepsLeaves(NestMany(dims[1..], k * dims[0], elems), dims[0], k, |dims| - 1);
    }
  }

  lemma {:induction false} NestIsRectangular(dims: seq<nat>, k: nat, elems: seq<Value>)
    requires |elems| == k * Product(dims) && dims != []
    ensures forall i :: 0 <= i < k ==> Rectangular(NestMany(dims, k, elems)[i], dims)
    decreases |dims|
  {
    ShapeBelow(dims, k);
    var inner := NestMany(dims[1..], k * dims[0], elems);
    if |dims| > 1 {
      NestIsRectangular(dims[1..], k * dims[0], elems);
    }
    forall i | 0 <= i < k ensures Rectangular(NestMany(dims, k, elems)[i], dims) {
      SliceFits(i, dims[0], k);
      var children := inner[i * dims[0]..i * dims[0] + dims[0]];
      assert forall j :: 0 <= j < |children| ==> children[j] == inner[i * dims[0] + j];
    }
  }

  lemma {:induction false} MarkedPositive(dims: seq<nat>)
    requires Positive(dims)
    ensures Marked(dims) == dims
  {
    if dims != [] { MarkedPositive(dims[1..]); }
  }

  /**
   An array whose shape survives, written to any row of a column of its depth, read back and
   flattened again gives its own dimensions and elements if and only if it has at most 11585
   elements: flattening more is refused.
   */
  lemma {:induction false} ArrayRoundTrip(col: Column, rows: nat, a: PgArray)
    requires Filled(col, rows) && WellFormed(Array(a)) && |col.levels| == |a.dims| > 0
    requires LeadingOnes(a.dims) && IsShape(a.dims)
    ensures WriteDatum(col, rows, Array(a)).Some?
    ensures ReadRow(WriteDatum(col, rows, Array(a)).value, rows).Some?
    ensures
      var o := Flatten(ReadRow(WriteDatum(col, rows, Array(a)).value, rows).value, |a.dims|);
      && (o.Done? <==> |a.elems| <= MOST_VALUES)
      && (o.Done? ==> o.state.dims == a.dims && o.state.cells == a.elems)
  {
    WriteIsExact(col, rows, Array(a));
    NestIsRectangular(a.dims, 1, a.elems);
    var v := Nest(a);
    FlattenedExactly(v, a.dims);
    if Flatten(v, |a.dims|).Done? {
      FlattenExactly(v, a.dims);
      NestLeaves(a);
      MarkedPositive(a.dims);
    }
  }

  lemma {:induction false} NestLeaves(a: PgArray)
    requires WellFormed(Array(a)) && a.dims != []
    ensures Leaves(Nest(a), |a.dims|) == a.elems
  {
    NestKeepsLeaves(a.dims, 1, a.elems);
    assert NestMany(a.dims, 1, a.elems) == [Nest(a)];
    assert LeavesAll([Nest(a)], |a.dims|) == Leaves(Nest(a), |a.dims|) + [];
  }

  // ---------------------------------------------------------------- a chunk

  /** All results, or `None` as soon as one of them is an exception. */
  function AllSome(os: seq<Option<Column>>): (r: Option<seq<Column>>)
    ensures r.Some? <==> forall c :: 0 <= c < |os| ==> os[c].Some?
    ensures r.Some? ==> |r.value| == |os| && forall c :: 0 <= c < |os| ==> os[c] == Some(r.value[c])
  {
    if forall c :: 0 <= c < |os| ==> os[c].Some?
    then Some(seq(|os|, c requires 0 <= c < |os| => os[c].value))
    else None
  }

  predicate Wide(tuples: seq<seq<Datum>>, width: nat) { forall i :: 0 <= i < |tuples| ==> |tuples[i]| == width }

  function Attribute(tuples: seq<seq<Datum>>, c: nat): (r: seq<Datum>)
    requires forall i :: 0 <= i < |tuples| ==> c < |tuples[i]|
    ensures |r| == |tuples| && forall i :: 0 <= i < |r| ==> r[i] == tuples[i][c]
  {
    seq(|tuples|, i requires 0 <= i < |tuples| => tuples[i][c])
  }

  /** One tuple into row `row` of every column. */
  function WriteTuple(cols: seq<Column>, row: nat, tuple: seq<Datum>): (r: Option<seq<Column>>)
    requires |tuple| == |cols|
    ensures r.Some? ==> |r.value| == |cols|
  {
    AllSome(seq(|cols|, c requires 0 <= c < |cols| => WriteDatum(cols[c], row, tuple[c])))
  }

  function RowByRow(cols: seq<Column>, rows: nat, tuples: seq<seq<Datum>>): (r: Option<seq<Column>>)
    requires Wide(tuples, |cols|)
    ensures r.Some? ==> |r.value| == |cols|
    decreases |tuples|
  {
    if tuples == [] then Some(cols)
    else
      match RowByRow(cols, rows, tuples[..|tuples| - 1])
      case None => None
      case Some(cs) => WriteTuple(cs, rows + |tuples| - 1, tuples[|tuples| - 1])
  }

  function ColumnByColumn(cols: seq<Column>, rows: nat, tuples: seq<seq<Datum>>): (r: Option<seq<Column>>)
    requires Wide(tuples, |cols|)
    ensures r.Some? ==> |r.value| == |cols|
  {
    AllSome(seq(|cols|, c requires 0 <= c < |cols| => WriteRows(cols[c], rows, Attribute(tuples, c))))
  }

  lemma {:induction false} AttributePrefix(tuples: seq<seq<Datum>>, c: nat, n: nat)
    requires n <= |tuples| && forall i :: 0 <= i < |tuples| ==> c < |tuples[i]|
    ensures Attribute(tuples[..n], c) == Attribute(tuples, c)[..n]
  {
  }

  /** One column of a batch: all tuples but the last, and then the last. */
  lemma {:induction false} ColumnStep(col: Column, rows: nat, tuples: seq<seq<Datum>>, c: nat)
    requires tuples != [] && forall i :: 0 <= i < |tuples| ==> c < |tuples[i]|
    ensures
      var n := |tuples| - 1;
      var before := WriteRows(col, rows, Attribute(tuples[..n], c));
      WriteRows(col, rows, Attribute(tuples, c)) ==
        if before.None? then None else WriteDatum(before.value, rows + n, tuples[n][c])
  {
    AttributePrefix(tuples, c, |tuples| - 1);
  }

  lemma {:induction false} BatchStepFails(cols: seq<Column>, rows: nat, tuples: seq<seq<Datum>>)
    requires tuples != [] && Wide(tuples, |cols|)
    requires ColumnByColumn(cols, rows, tuples[..|tuples| - 1]).None?
    ensures ColumnByColumn(cols, rows, tuples).None?
  {
    var c :| 0 <= c < |cols| && WriteRows(cols[c], rows, Attribute(tuples[..|tuples| - 1], c)).None?;
    ColumnStep(cols[c], rows, tuples, c);
    var os := seq(|cols|, c requires 0 <= c < |cols| => WriteRows(cols[c], rows, Attribute(tuples, c)));
    assert os[c].None?;
  }

  lemma {:induction false} BatchStep(cols: seq<Column>, rows: nat, tuples: seq<seq<Datum>>, before: seq<Column>)
    requires tuples != [] && Wide(tuples, |cols|)
    requires ColumnByColumn(cols, rows, tuples[..|tuples| - 1]) == Some(before)
    ensures ColumnByColumn(cols, rows, tuples) == WriteTuple(before, rows + |tuples| - 1, tuples[|tuples| - 1])
  {
    var n := |tuples| - 1;
    var os := seq(|cols|, c requires 0 <= c < |cols| => WriteRows(cols[c], rows, Attribute(tuples, c)));
    var ws := seq(|cols|, c requires 0 <= c < |cols| => WriteDatum(before[c], rows + n, tuples[n][c]));
    forall c | 0 <= c < |cols| ensures os[c] == ws[c] {
      ColumnStep(cols[c], rows, tuples, c);
    }
    assert os == ws;
  }

  /** Filling a chunk column by column gives what filling it row by row gives, or fails like it. */
  lemma {:induction false} BatchIsRowByRow(cols: seq<Column>, rows: nat, tuples: seq<seq<Datum>>)
    requires Wide(tuples, |cols|)
    ensures ColumnByColumn(cols, rows, tuples) == RowByRow(cols, rows, tuples)
    decreases |tuples|
  {
    if tuples == [] {
      assert ColumnByColumn(cols, rows, tuples).value == cols;
    } else {
      var n := |tuples| - 1;
      BatchIsRowByRow(cols, rows, tuples[..n]);
      match ColumnByColumn(cols, rows, tuples[..n]) {
        case None => BatchStepFails(cols, rows, tuples);
        case Some(before) => BatchStep(cols, rows, tuples, before);
      }
    }
  }

  predicate ChunkFilled(cols: seq<Column>, rows: nat) { forall c :: 0 <= c < |cols| ==> Filled(cols[c], rows) }

  predicate TuplesWellFormed(tuples: seq<seq<Datum>>)
  {
    forall i :: 0 <= i < |tuples| ==> AllWellFormed(tuples[i])
  }

  /**
   Every cell of a batch whose shape survives reads back as the attribute it was written from, every
   other cell does not, and no cell of an earlier row changes.
   */
  lemma {:induction false} ChunkReadsBack(cols: seq<Column>, rows: nat, tuples: seq<seq<Datum>>)
    requires Wide(tuples, |cols|) && ChunkFilled(cols, rows) && TuplesWellFormed(tuples)
    requires RowByRow(cols, rows, tuples).Some?
    ensures
      var done := RowByRow(cols, rows, tuples).value;
      && ChunkFilled(done, rows + |tuples|)
      && (forall c :: 0 <= c < |cols| ==> SameRows(done[c], cols[c], rows))
      && (forall i, c :: 0 <= i < |tuples| && 0 <= c < |cols| ==> RowIsExact(done[c], rows + i, tuples[i][c]))
  {
    BatchIsRowByRow(cols, rows, tuples);
    var done := RowByRow(cols, rows, tuples).value;
    forall c | 0 <= c < |cols|
      ensures Filled(done[c], rows + |tuples|) && SameRows(done[c], cols[c], rows)
      ensures forall i :: 0 <= i < |tuples| ==> RowIsExact(done[c], rows + i, tuples[i][c])
    {
      var ds := Attribute(tuples, c);
      assert WriteRows(cols[c], rows, ds) == Some(done[c]);
      ColumnReadsBack(cols[c], rows, ds);
      forall i | 0 <= i < |tuples| ensures RowIsExact(done[c], rows + i, tuples[i][c]) {
        assert RowIsExact(done[c], rows + i, ds[i]);
      }
    }
  }

  // ---------------------------------------------------------------- when a write fails

  /** What a column of this depth takes: NULL; a plain value at depth 0; an array of its depth, or an empty one. */
  predicate Fits(depth: nat, d: Datum)
  {
    match d
    case NullDatum => true
    case Plain(_) => depth == 0
    case Array(a) => depth > 0 && (|a.dims| == 0 || |a.dims| == depth)
  }

  /** A write fails exactly when the datum does not fit; it never changes the depth. */
  lemma {:induction false} WrittenExactly(col: Column, row: nat, d: Datum)
    ensures WriteDatum(col, row, d).Some? <==> Fits(|col.levels|, d)
    ensures WriteDatum(col, row, d).Some? ==> |WriteDatum(col, row, d).value.levels| == |col.levels|
  {
  }

  lemma {:induction false} ColumnWrittenExactly(col: Column, rows: nat, ds: seq<Datum>)
    ensures WriteRows(col, rows, ds).Some? <==> forall i :: 0 <= i < |ds| ==> Fits(|col.levels|, ds[i])
    ensures WriteRows(col, rows, ds).Some? ==> |WriteRows(col, rows, ds).value.levels| == |col.levels|
    decreases |ds|
  {
    if ds != [] {
      var n := |ds| - 1;
      ColumnWrittenExactly(col, rows, ds[..n]);
      assert forall i :: 0 <= i < n ==> ds[..n][i] == ds[i];
      match WriteRows(col, rows, ds[..n]) {
        case None =>
        case Some(c) => WrittenExactly(c, rows + n, ds[n]);
      }
    }
  }

  /** A batch is refused exactly when some attribute of some tuple does not fit its column. */
  lemma {:induction false} ChunkWrittenExactly(cols: seq<Column>, rows: nat, tuples: seq<seq<Datum>>)
    requires Wide(tuples, |cols|)
    ensures RowByRow(cols, rows, tuples).Some?
      <==> forall i, c :: 0 <= i < |tuples| && 0 <= c < |cols| ==> Fits(|cols[c].levels|, tuples[i][c])
  {
    BatchIsRowByRow(cols, rows, tuples);
    forall c | 0 <= c < |cols|
      ensures WriteRows(cols[c], rows, Attribute(tuples, c)).Some?
        <==> forall i :: 0 <= i < |tuples| ==> Fits(|cols[c].levels|, tuples[i][c])
    {
      var ds := Attribute(tuples, c);
      ColumnWrittenExactly(cols[c], rows, ds);
      assert forall i :: 0 <= i < |tuples| ==> ds[i] == tuples[i][c];
    }
    var os := seq(|cols|, c requires 0 <= c < |cols| => WriteRows(cols[c], rows, Attribute(tuples, c)));
    assert AllSome(os) == ColumnByColumn(cols, rows, tuples);
    assert forall c :: 0 <= c < |cols| ==> os[c] == WriteRows(cols[c], rows, Attribute(tuples, c));
  }

  // ---------------------------------------------------------------- the loops

  /** The entries of one dimension. */
  method ConvertLevel(l: Level, at: nat, previousDimension: nat, dimension: nat) returns (r: Level)
    ensures r == Stretch(l, at, previousDimension, dimension)
  {
    var listData := l.entries;
    var entry := 0;
    while entry < previousDimension
      invariant 0 <= entry <= previousDimension
      invariant listData == AddEntries(l.entries, at, entry, l.size, dimension)
    {
      listData := listData[at + entry := Entry(l.size + dimension * entry, dimension)];
      entry := entry + 1;
    }
    r := Level(listData, l.size + dimension * previousDimension);
  }

  method ConvertElements(leaf: map<nat, Value>, at: nat, elems: seq<Value>) returns (r: map<nat, Value>)
    ensures r == WriteLeaf(leaf, at, elems)
  {
    r := leaf;
    var i := 0;
    while i < |elems|
      invariant 0 <= i <= |elems|
      invariant r == WriteLeaf(leaf, at, elems[..i])
    {
      assert elems[..i + 1][..i] == elems[..i];
      r := r[at + i := elems[i]];
      i := i + 1;
    }
    assert elems[..i] == elems;
  }

  /** The LIST case: level after level, then the elements. */
  method ConvertList(col: Column, row: nat, a: PgArray) returns (r: Option<Column>)
    requires col.levels != []
    ensures r == WriteArray(col, row, a)
  {
    var levels := col.levels;
    var writeOffset: nat := row;
    var dim := 0;
    while dim < |a.dims|
      invariant 0 <= dim <= |a.dims| && dim <= |levels| == |col.levels|
      invariant levels[dim..] == col.levels[dim..] && (dim == 0 ==> writeOffset == row && levels == col.levels)
      invariant LeafOffset(col.levels[dim..], writeOffset) == LeafOffset(col.levels, row)
      invariant |a.dims| == |levels| ==>
        levels[..dim] + WriteLevels(col.levels[dim..], writeOffset, Above(a.dims, dim), a.dims[dim..]) == WriteLevels(col.levels, row, 1, a.dims)
    {
      if dim >= |levels| {
        return None;
      }
      var previousDimension := if dim > 0 then a.dims[dim - 1] else 1;
      var childOffset := levels[dim].size;
      var written := ConvertLevel(levels[dim], writeOffset, previousDimension, a.dims[dim]);
      LevelStep(col.levels, levels, a.dims, dim, writeOffset, written);
      levels := levels[dim := written];
      writeOffset := childOffset;
      dim := dim + 1;
    }
    if |a.dims| == 0 {
      levels := levels[0 := levels[0].(entries := levels[0].entries[writeOffset := Entry(levels[0].size, 0)])];
      return Some(col.(levels := levels));
    } else if dim < |levels| {
      return None;
    }
    assert levels == levels[..dim] + [];
    var leaf := ConvertElements(col.leaf, writeOffset, a.elems);
    r := Some(col.(levels := levels, leaf := leaf));
  }

  /** The dimension just above `dim`. */
  function Above(dims: seq<nat>, dim: nat): nat
    requires dim <= |dims|
  {
    if dim == 0 then 1 else dims[dim - 1]
  }

  lemma {:induction false} LevelStep(original: seq<Level>, levels: seq<Level>, dims: seq<nat>, dim: nat, at: nat, written: Level)
    requires dim < |dims| && dim < |levels| == |original| && levels[dim..] == original[dim..]
    requires written == Stretch(levels[dim], at, Above(dims, dim), dims[dim])
    ensures
      var next := levels[dim := written];
      && next[dim + 1..] == original[dim + 1..]
      && LeafOffset(original[dim..], at) == LeafOffset(original[dim + 1..], levels[dim].size)
      && (|dims| == |levels| ==>
            next[..dim + 1] + WriteLevels(original[dim + 1..], levels[dim].size, Above(dims, dim + 1), dims[dim + 1..])
            == levels[..dim] + WriteLevels(original[dim..], at, Above(dims, dim), dims[dim..]))
  {
    assert original[dim..][1..] == original[dim + 1..] && dims[dim..][1..] == dims[dim + 1..];
    assert original[dim..][0] == levels[dim..][0] == levels[dim];
    assert levels[dim := written][dim + 1..] == levels[dim..][1..];
    assert levels[dim := written][..dim + 1] == levels[..dim] + [written];
  }

  /** An output chunk with the number of rows written to it. */
  class Chunk {
    var columns: seq<Column>
    var outputVectorSize: nat

    constructor (depths: seq<nat>)
      ensures outputVectorSize == 0 && |columns| == |depths| && ChunkFilled(columns, 0)
      ensures forall c :: 0 <= c < |depths| ==> |columns[c].levels| == depths[c]
    {
      columns := seq(|depths|, c requires 0 <= c < |depths| => Column({}, seq(depths[c], _ => Level(map[], 0)), map[]));
      outputVectorSize := 0;
      new;
      forall c | 0 <= c < |depths| ensures Filled(columns[c], 0) {
        EmptyIsFilled(columns[c].levels, 0);
      }
    }

    /** `ok` is false when a conversion throws; the chunk is then abandoned. */
    method InsertTupleIntoChunk(tuple: seq<Datum>) returns (ok: bool)
      requires |tuple| == |columns|
      modifies this
      ensures ok <==> RowByRow(old(columns), old(outputVectorSize), [tuple]).Some?
      ensures ok ==> Some(columns) == RowByRow(old(columns), old(outputVectorSize), [tuple])
      ensures ok ==> outputVectorSize == old(outputVectorSize) + 1
    {
      ghost var was, rows := columns, outputVectorSize;
      ghost var results := seq(|was|, k requires 0 <= k < |was| => WriteDatum(was[k], rows, tuple[k]));
      assert RowByRow(was, rows, [tuple]) == AllSome(results) by {
        assert [tuple][..0] == [];
        assert RowByRow(was, rows, []) == Some(was);
      }
      var c := 0;
      while c < |tuple|
        invariant 0 <= c <= |tuple| == |columns| && outputVectorSize == old(outputVectorSize)
        invariant columns[c..] == was[c..]
        invariant forall k :: 0 <= k < c ==> results[k] == Some(columns[k])
      {
        assert columns[c] == columns[c..][0] == was[c];
        var w := WriteDatum(columns[c], outputVectorSize, tuple[c]);
        assert results[c] == w;
        if w.None? {
          return false;
        }
        columns := columns[c := w.value];
        assert columns[c + 1..] == was[c..][1..];
        c := c + 1;
      }
      assert columns == AllSome(results).value;
      outputVectorSize := outputVectorSize + 1;
      ok := true;
    }

    /** The batch form, column after column; it does exactly what inserting the tuples one by one does. */
    method InsertTuplesIntoChunk(slots: seq<seq<Datum>>) returns (ok: bool)
      requires Wide(slots, |columns|)
      modifies this
      ensures ok <==> RowByRow(old(columns), old(outputVectorSize), slots).Some?
      ensures ok ==> Some(columns) == RowByRow(old(columns), old(outputVectorSize), slots)
      ensures ok ==> outputVectorSize == old(outputVectorSize) + |slots|
    {
      if |slots| == 0 {
        return true;
      }
      ghost var was, rows := columns, outputVectorSize;
      ghost var results := seq(|was|, k requires 0 <= k < |was| => WriteRows(was[k], rows, Attribute(slots, k)));
      BatchIsRowByRow(was, rows, slots);
      assert RowByRow(was, rows, slots) == AllSome(results);
      var natts := |slots[0]|;
      var c := 0;
      while c < natts
        invariant 0 <= c <= natts == |columns| == |was| && outputVectorSize == old(outputVectorSize)
        invariant columns[c..] == was[c..]
        invariant forall k :: 0 <= k < c ==> results[k] == Some(columns[k])
      {
        assert columns[c] == columns[c..][0] == was[c];
        var done := FillColumn(columns[c], outputVectorSize, slots, c);
        assert results[c] == done;
        if done.None? {
          return false;
        }
        columns := columns[c := done.value];
        assert columns[c + 1..] == was[c..][1..];
        c := c + 1;
      }
      assert columns == AllSome(results).value;
      outputVectorSize := outputVectorSize + |slots|;
      ok := true;
    }
  }

  lemma {:induction false} EmptyIsFilled(levels: seq<Level>, rows: nat)
    requires forall k :: 0 <= k < |levels| ==> levels[k] == Level(map[], 0)
    ensures Bounded(levels) && Unwritten(levels, rows)
    decreases |levels|
  {
    if levels != [] {
      EmptyIsFilled(levels[1..], 0);
    }
  }

  /** The inner loop of the batch form: one column over all slots. */
  method FillColumn(col: Column, rows: nat, slots: seq<seq<Datum>>, c: nat) returns (r: Option<Column>)
    requires forall i :: 0 <= i < |slots| ==> c < |slots[i]|
    ensures r == WriteRows(col, rows, Attribute(slots, c))
  {
    ghost var ds := Attribute(slots, c);
    r := Some(col);
    var row := 0;
    while row < |slots|
      invariant 0 <= row <= |slots|
      invariant r.Some? && r == WriteRows(col, rows, ds[..row])
    {
      assert ds[..row + 1][..row] == ds[..row];
      r := WriteDatum(r.value, rows + row, slots[row][c]);
      if r.None? {
        FailureStays(col, rows, ds, row + 1);
        return;
      }
      row := row + 1;
    }
    assert ds[..row] == ds;
  }

  lemma {:induction false} FailureStays(col: Column, rows: nat, ds: seq<Datum>, n: nat)
    requires n <= |ds| && WriteRows(col, rows, ds[..n]).None?
    ensures WriteRows(col, rows, ds).None?
    decreases |ds|
  {
    if n < |ds| {
      assert ds[..|ds| - 1][..n] == ds[..n];
      FailureStays(col, rows, ds[..|ds| - 1], n);
    } else {
      assert ds[..n] == ds;
    }
  }
}
