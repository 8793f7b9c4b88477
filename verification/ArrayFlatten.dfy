/**
 Flattening a nested DuckDB LIST into the row-major datums and dimensions of a Postgres array
 (`PostgresArrayAppendState`).
 */
module ArrayFlatten {
  import opened Results

  /** A list value, a NULL, or anything that is not a list. */
  datatype Value = Null | Scalar(id: int) | List(children: seq<Value>)

  const PG_INT32_MAX: nat := 0x7fff_ffff
  const TWO_64: nat := 0x1_0000_0000_0000_0000

  /** The largest request `palloc` grants (MaxAllocSize), and the size of a datum in bytes. */
  const MAX_ALLOC: nat := 0x3fff_ffff
  const DATUM_SIZE: nat := 8

  /** The most values whose squared count still fits one allocation of datums. */
  const MOST_VALUES: nat := 11585

  /**
   The append state. A dimension is -1 until it is set; `capacity` is the size of the datum buffer,
   -1 until it is allocated; `cells` are the values written so far.
   */
  datatype State = State(dims: seq<int>, expected: nat, capacity: int, cells: seq<Value>)

  /** `OutOfBounds` stands for a write behind the end of the datum buffer. */
  datatype Outcome = Done(state: State) | Thrown | OutOfBounds

  // ---------------------------------------------------------------- the algorithm

  /** The size check and bookkeeping for a list of `n` values at dimension `dim`. */
  function EnterDimension(s: State, dim: nat, n: nat): (o: Outcome)
    requires dim < |s.dims|
    ensures o.Done? ==> |o.state.dims| == |s.dims|
  {
    if n > PG_INT32_MAX then Thrown
    else if s.dims[dim] == -1 then
      var once := (s.expected * n) % TWO_64;
      if once * n >= TWO_64 then Thrown
      else Done(s.(dims := s.dims[dim := n], expected := once * n))
    else if s.dims[dim] != n then Thrown
    else Done(s)
  }

  /** The requests for the datums and for the null flags; the first size is computed modulo 2^64. */
  predicate IsGranted(expected: nat)
  {
    (expected * DATUM_SIZE) % TWO_64 <= MAX_ALLOC && expected <= MAX_ALLOC
  }

  /** The innermost level: allocate once, which `palloc` may refuse, then append the values. */
  function WriteCells(s: State, values: seq<Value>): Outcome
  {
    if s.capacity == -1 && !IsGranted(s.expected) then Thrown
    else
      var capacity := if s.capacity == -1 then s.expected else s.capacity;
      if |s.cells| + |values| > capacity then OutOfBounds
      else Done(s.(capacity := capacity, cells := s.cells + values))
  }

  function Append(s: State, v: Value, dim: nat): (o: Outcome)
    requires dim < |s.dims|
    ensures o.Done? ==> |o.state.dims| == |s.dims|
    decreases v, 1
  {
    if !v.List? then Thrown
    else match EnterDimension(s, dim, |v.children|)
      case Done(s1) => if dim + 1 < |s.dims| then AppendAll(s1, v.children, dim + 1) else WriteCells(s1, v.children)
      case other => other
  }

  function AppendAll(s: State, vs: seq<Value>, dim: nat): (o: Outcome)
    requires dim < |s.dims|
    ensures o.Done? ==> |o.state.dims| == |s.dims|
    decreases vs, 0
  {
    if vs == [] then Done(s)
    else if vs[0] == Null then Thrown
    else match Append(s, vs[0], dim)
      case Done(s1) => AppendAll(s1, vs[1..], dim)
      case other => other
  }

  function Unset(n: nat): (d: seq<int>)
    ensures |d| == n && forall k :: 0 <= k < n ==> d[k] == -1
  {
    seq(n, _ => -1)
  }

  /** The conversion of a list with `ndims` dimensions; unset dimensions become 0 afterwards. */
  function Flatten(v: Value, ndims: nat): Outcome
    requires ndims > 0
  {
    Append(State(Unset(ndims), 1, -1, []), v, 0)
  }

  function ZeroUnset(dims: seq<int>): (ds: seq<int>)
    ensures |ds| == |dims| && forall k :: 0 <= k < |ds| ==> ds[k] == if dims[k] == -1 then 0 else dims[k]
  {
    seq(|dims|, k requires 0 <= k < |dims| => if dims[k] == -1 then 0 else dims[k])
  }

  // ---------------------------------------------------------------- rectangular values

  /** Every list at level `k` has `ds[k]` entries and no inner level holds a NULL. */
  predicate Rectangular(v: Value, ds: seq<int>)
    requires ds != []
    decreases |ds|
  {
    && v.List? && |v.children| == ds[0]
    && (|ds| > 1 ==> forall i :: 0 <= i < |v.children| ==> Rectangular(v.children[i], ds[1..]))
  }

  /** The values at the innermost of `depth` levels, row by row. */
  function Leaves(v: Value, depth: nat): seq<Value>
    requires depth > 0
    decreases depth, 0
  {
    if !v.List? then [] else if depth == 1 then v.children else LeavesAll(v.children, depth - 1)
  }

  function LeavesAll(vs: seq<Value>, depth: nat): seq<Value>
    requires depth > 0
    decreases depth, |vs|
  {
    if vs == [] then [] else Leaves(vs[0], depth) + LeavesAll(vs[1..], depth)
  }

  function Product(ds: seq<int>): int
  {
    if ds == [] then 1 else ds[0] * Product(ds[1..])
  }

  lemma {:induction false} LeavesCount(v: Value, ds: seq<int>)
    requires ds != [] && Rectangular(v, ds)
    ensures |Leaves(v, |ds|)| == Product(ds)
    decreases |ds|, 0
  {
    if |ds| == 1 {
      assert Product(ds[1..]) == 1;
    } else {
      LeavesAllCount(v.children, ds[1..]);
    }
  }

  lemma {:induction false} LeavesAllCount(vs: seq<Value>, ds: seq<int>)
    requires ds != [] && forall i :: 0 <= i < |vs| ==> Rectangular(vs[i], ds)
    ensures |LeavesAll(vs, |ds|)| == |vs| * Product(ds)
    decreases |ds|, 1 + |vs|
  {
    if vs != [] {
      LeavesCount(vs[0], ds);
      LeavesAllCount(vs[1..], ds);
      assert |vs| * Product(ds) == Product(ds) + (|vs| - 1) * Product(ds);
    }
  }

  // ---------------------------------------------------------------- success implies rectangular

  /** Set dimensions keep their value. */
  predicate Extends(d: seq<int>, d1: seq<int>)
  {
    |d| == |d1| && forall k :: 0 <= k < |d| ==> d[k] == -1 || d1[k] == d[k]
  }

  lemma {:induction false} StaysRectangular(v: Value, d: seq<int>, d1: seq<int>)
    requires d != [] && Rectangular(v, d) && Extends(d, d1)
    ensures Rectangular(v, d1)
    decreases |d|
  {
    if |d| > 1 {
      forall i | 0 <= i < |v.children| ensures Rectangular(v.children[i], d1[1..]) {
        StaysRectangular(v.children[i], d[1..], d1[1..]);
      }
    }
  }

  lemma {:induction false} DoneIsRectangular(s: State, v: Value, dim: nat)
    requires dim < |s.dims| && Append(s, v, dim).Done?
    ensures Extends(s.dims, Append(s, v, dim).state.dims)
    ensures Rectangular(v, Append(s, v, dim).state.dims[dim..])
    ensures Append(s, v, dim).state.cells == s.cells + Leaves(v, |s.dims| - dim)
    decreases v, 1
  {
    var s1 := EnterDimension(s, dim, |v.children|).state;
    var d := Append(s, v, dim).state.dims;
    if dim + 1 < |s.dims| {
      AllDoneRectangular(s1, v.children, dim + 1);
      assert d[dim..][1..] == d[dim + 1..];
    }
  }

  lemma {:induction false} AllDoneRectangular(s: State, vs: seq<Value>, dim: nat)
    requires dim < |s.dims| && AppendAll(s, vs, dim).Done?
    ensures Extends(s.dims, AppendAll(s, vs, dim).state.dims)
    ensures forall i :: 0 <= i < |vs| ==> Rectangular(vs[i], AppendAll(s, vs, dim).state.dims[dim..])
    ensures AppendAll(s, vs, dim).state.cells == s.cells + LeavesAll(vs, |s.dims| - dim)
    decreases vs, 0
  {
    if vs == [] {
      assert s.cells + [] == s.cells;
    } else {
      var s1 := Append(s, vs[0], dim).state;
      var d := AppendAll(s, vs, dim).state.dims;
      DoneIsRectangular(s, vs[0], dim);
      AllDoneRectangular(s1, vs[1..], dim);
      StaysRectangular(vs[0], s1.dims[dim..], d[dim..]);
      assert forall i :: 0 < i < |vs| ==> vs[i] == vs[1..][i - 1];
      Assoc(s.cells, Leaves(vs[0], |s.dims| - dim), LeavesAll(vs[1..], |s.dims| - dim));
    }
  }

  // ---------------------------------------------------------------- rectangular implies success

  lemma {:induction false} ProductSplits(ds: seq<int>, k: nat)
    requires k <= |ds|
    ensures Product(ds) == Product(ds[..k]) * Product(ds[k..])
    decreases k
  {
    if k == 0 {
      assert ds[0..] == ds;
    } else {
      ProductSplits(ds[1..], k - 1);
      assert ds[1..][..k - 1] == ds[..k][1..] && ds[1..][k - 1..] == ds[k..];
      assert ds[0] * (Product(ds[..k][1..]) * Product(ds[k..])) == ds[0] * Product(ds[..k][1..]) * Product(ds[k..]);
    }
  }

  lemma {:induction false} ProductOneMore(ds: seq<int>, k: nat)
    requires k < |ds|
    ensures Product(ds[..k + 1]) == Product(ds[..k]) * ds[k]
    ensures Product(ds[k..]) == ds[k] * Product(ds[k + 1..])
  {
    ProductSplits(ds[..k + 1], k);
    assert ds[..k + 1][..k] == ds[..k] && ds[..k + 1][k..] == [ds[k]];
    assert Product([ds[k]]) == ds[k] * Product([ds[k]][1..]);
    assert ds[k..][1..] == ds[k + 1..];
  }

  predicate IsShape(ds: seq<int>)
  {
    ds != [] && forall k :: 0 <= k < |ds| ==> 0 <= ds[k] <= PG_INT32_MAX
  }

  function Square(n: int): int { n * n }

  /** The squares of the products of the leading dimensions fit 64 bits. */
  predicate Fits(ds: seq<int>)
  {
    forall k :: 0 <= k <= |ds| ==> Square(Product(ds[..k])) < TWO_64
  }

  lemma {:induction false} ProductNotNegative(ds: seq<int>)
    requires forall k :: 0 <= k < |ds| ==> 0 <= ds[k]
    ensures Product(ds) >= 0
  {
    if ds != [] {
      ProductNotNegative(ds[1..]);
    }
  }

  /** The dimensions as the walk leaves them: nothing is set below an empty level. */
  function Marked(ds: seq<int>): (r: seq<int>)
    ensures |r| == |ds|
  {
    if ds == [] then []
    else if ds[0] == 0 then [0] + Unset(|ds| - 1)
    else [ds[0]] + Marked(ds[1..])
  }

  predicate NonNegative(ds: seq<int>) { forall k :: 0 <= k < |ds| ==> 0 <= ds[k] }

  /** The expected count after the lists of these dimensions were entered; `None` when that throws. */
  function Expected(ds: seq<int>): Option<nat>
    requires NonNegative(ds)
    decreases |ds|
  {
    if ds == [] then Some(1)
    else
      match Expected(ds[..|ds| - 1])
      case None => None
      case Some(e) =>
        var n := ds[|ds| - 1];
        var once := (e * n) % TWO_64;
        if once * n >= TWO_64 then None else Some(once * n)
  }

  lemma {:induction false} ExpectedOneMore(ds: seq<int>, k: nat)
    requires NonNegative(ds) && k < |ds| && Expected(ds[..k]).Some?
    ensures
      var once := (Expected(ds[..k]).value * ds[k]) % TWO_64;
      Expected(ds[..k + 1]) == if once * ds[k] >= TWO_64 then None else Some(once * ds[k])
  {
    assert ds[..k + 1][..k] == ds[..k];
  }

  lemma {:induction false} ExpectedPrefix(ds: seq<int>, k: nat)
    requires NonNegative(ds) && k <= |ds| && Expected(ds).Some?
    ensures Expected(ds[..k]).Some?
    ensures Expected(ds[..k]) == Some(0) ==> Expected(ds) == Some(0)
    decreases |ds|
  {
    if k == |ds| {
      assert ds[..k] == ds;
    } else {
      assert ds[..|ds| - 1][..k] == ds[..k];
      ExpectedPrefix(ds[..|ds| - 1], k);
    }
  }

  /** An empty dimension makes the count zero, and it stays zero. */
  lemma {:induction false} ZeroNeverThrows(ds: seq<int>, k: nat)
    requires NonNegative(ds) && k <= |ds| && Expected(ds[..k]) == Some(0)
    ensures Expected(ds) == Some(0)
    decreases |ds|
  {
    if k == |ds| {
      assert ds[..k] == ds;
    } else {
      assert ds[..|ds| - 1][..k] == ds[..k];
      ZeroNeverThrows(ds[..|ds| - 1], k);
    }
  }

  /** No list at dimension `dim` has been seen. */
  predicate Untouched(s: State, dim: nat, ds: seq<int>)
    requires dim <= |ds| && NonNegative(ds)
  {
    && |s.dims| == |ds| && s.dims[dim..] == Unset(|ds| - dim)
    && Expected(ds[..dim]) == Some(s.expected) && s.capacity == -1 && s.cells == []
  }

  /** A list at dimension `dim` has been walked completely. */
  predicate Walked(s: State, dim: nat, ds: seq<int>)
    requires dim <= |ds| && NonNegative(ds)
  {
    && |s.dims| == |ds| && s.dims[dim..] == Marked(ds[dim..])
    && Expected(ds) == Some(s.expected) && (s.capacity == -1 || s.capacity == s.expected)
  }

  ghost predicate Added(s: State, o: Outcome, dim: nat, ds: seq<int>, cells: seq<Value>)
    requires dim <= |ds| == |s.dims| && NonNegative(ds)
  {
    && o.Done? && Walked(o.state, dim, ds)
    && o.state.dims[..dim] == s.dims[..dim]
    && o.state.cells == s.cells + cells
  }

  /** Entering a level for the first time multiplies the expected count, or throws. */
  lemma {:induction false} EnterFresh(s: State, dim: nat, ds: seq<int>)
    requires IsShape(ds) && dim < |ds| && Untouched(s, dim, ds)
    ensures EnterDimension(s, dim, ds[dim]) ==
      if Expected(ds[..dim + 1]).None? then Thrown
      else Done(s.(dims := s.dims[dim := ds[dim]], expected := Expected(ds[..dim + 1]).value))
  {
    assert s.dims[dim] == s.dims[dim..][0] == -1;
    ExpectedOneMore(ds, dim);
  }

  /** Without wrap-around the two multiplications square the new dimension in. */
  lemma {:induction false} EnterArithmetic(p: nat, n: nat)
    requires Square(p * n) < TWO_64
    ensures Square(p) * n < TWO_64
    ensures (Square(p) * n) % TWO_64 * n == Square(p * n)
  {
    SquareGrows(p, n);
    SmallModulo(Square(p) * n);
  }

  /** While the squares fit, the expected count is the square of the product. */
  lemma {:induction false} FitsExpected(ds: seq<int>)
    requires NonNegative(ds) && Fits(ds)
    ensures Expected(ds) == Some(Square(Product(ds)))
    decreases |ds|
  {
    if ds != [] {
      var n := |ds| - 1;
      assert forall k :: 0 <= k <= n ==> ds[..n][..k] == ds[..k];
      assert Fits(ds[..n]) by {
        forall k | 0 <= k <= n ensures Square(Product(ds[..n][..k])) < TWO_64 {
          assert Square(Product(ds[..k])) < TWO_64;
        }
      }
      FitsExpected(ds[..n]);
      ProductOneMore(ds, n);
      ProductNotNegative(ds[..n]);
      assert ds[..n + 1] == ds;
      EnterArithmetic(Product(ds[..n]), ds[n]);
    }
  }

  lemma {:induction false} SmallModulo(x: nat)
    requires x < TWO_64
    ensures x % TWO_64 == x
  {
  }

  lemma {:induction false} SquareGrows(p: nat, n: nat)
    ensures Square(p) * n * n == Square(p * n)
    ensures Square(p) * n <= Square(p * n)
  {
    assert (p * p) * n * n == (p * n) * (p * n);
    if n > 0 {
      assert (p * p) * n <= (p * p) * n * n;
    }
  }

  lemma {:induction false} SquareCovers(p: nat)
    ensures p <= Square(p)
  {
  }

  /** Either the values fit the buffer and are added, or a write goes behind its end. */
  ghost predicate AddedOrOutside(s: State, o: Outcome, dim: nat, ds: seq<int>, cells: seq<Value>)
    requires dim <= |ds| == |s.dims| && NonNegative(ds) && Expected(ds).Some?
  {
    if |s.cells| + |cells| <= Expected(ds).value then Added(s, o, dim, ds, cells) else o == OutOfBounds
  }

  predicate Ready(s: State, dim: nat, ds: seq<int>)
  {
    && IsShape(ds) && dim < |ds| && Expected(ds).Some? && IsGranted(Expected(ds).value) && |s.cells| <= Expected(ds).value
    && (Untouched(s, dim, ds) || Walked(s, dim, ds))
  }

  lemma {:induction false} RectangularAppends(s: State, v: Value, dim: nat, ds: seq<int>)
    requires Ready(s, dim, ds) && Rectangular(v, ds[dim..])
    ensures AddedOrOutside(s, Append(s, v, dim), dim, ds, Leaves(v, |ds| - dim))
    decreases |ds| - dim, 0
  {
    assert ds[dim..][0] == ds[dim] && ds[dim..][1..] == ds[dim + 1..];
    if Untouched(s, dim, ds) {
      ExpectedPrefix(ds, dim + 1);
      EnterFresh(s, dim, ds);
      FreshLevel(s, v, dim, ds, s.(dims := s.dims[dim := ds[dim]], expected := Expected(ds[..dim + 1]).value));
    } else {
      assert s.dims[dim] == s.dims[dim..][0] == ds[dim];
      KnownLevel(s, v, dim, ds);
    }
  }

  lemma {:induction false} FreshLevel(s: State, v: Value, dim: nat, ds: seq<int>, s1: State)
    requires Ready(s, dim, ds) && Rectangular(v, ds[dim..]) && Untouched(s, dim, ds) && |v.children| == ds[dim]
    requires Expected(ds[..dim + 1]).Some? && EnterDimension(s, dim, ds[dim]) == Done(s1)
    requires s1 == s.(dims := s.dims[dim := ds[dim]], expected := Expected(ds[..dim + 1]).value)
    ensures AddedOrOutside(s, Append(s, v, dim), dim, ds, Leaves(v, |ds| - dim))
    decreases |ds| - dim, -1
  {
    FreshDims(s, dim, ds);
    if dim + 1 == |ds| {
      assert ds[..dim + 1] == ds;
      LastLevel(s1, v, dim, ds);
    } else if ds[dim] == 0 {
      EmptyLevel(s, v, dim, ds, s1);
    } else {
      assert ds[dim..][1..] == ds[dim + 1..];
      RectangularAppendsAll(s1, v.children, dim + 1, ds);
      LevelFinishes(s, s1, v, dim, ds);
    }
  }

  lemma {:induction false} FreshDims(s: State, dim: nat, ds: seq<int>)
    requires NonNegative(ds) && dim < |ds| && Untouched(s, dim, ds)
    ensures
      var d := s.dims[dim := ds[dim]];
      && d[dim + 1..] == Unset(|ds| - dim - 1) && d[..dim] == s.dims[..dim] && d[dim..] == [ds[dim]] + d[dim + 1..]
  {
    assert s.dims[dim := ds[dim]][dim + 1..] == s.dims[dim..][1..];
  }

  /** Nothing is below an empty list. */
  lemma {:induction false} EmptyLevel(s: State, v: Value, dim: nat, ds: seq<int>, s1: State)
    requires Ready(s, dim, ds) && Untouched(s, dim, ds) && v == List([]) && ds[dim] == 0 && dim + 1 < |ds|
    requires Expected(ds[..dim + 1]).Some? && EnterDimension(s, dim, 0) == Done(s1)
    requires s1 == s.(dims := s.dims[dim := 0], expected := Expected(ds[..dim + 1]).value)
    ensures AddedOrOutside(s, Append(s, v, dim), dim, ds, Leaves(v, |ds| - dim))
  {
    FreshDims(s, dim, ds);
    ExpectedOneMore(ds, dim);
    ZeroNeverThrows(ds, dim + 1);
    assert ds[dim..][0] == 0;
    assert LeavesAll([], |ds| - dim - 1) == [];
    assert s.cells + [] == s.cells;
    assert Append(s, v, dim) == Done(s1);
  }

  /** What the lower levels did is what this level did. */
  lemma {:induction false} LevelFinishes(s: State, s1: State, v: Value, dim: nat, ds: seq<int>)
    requires Ready(s, dim, ds) && dim + 1 < |ds| && ds[dim] != 0 && v.List? && |v.children| == ds[dim]
    requires EnterDimension(s, dim, ds[dim]) == Done(s1) && s1.dims == s.dims[dim := ds[dim]] && s1.cells == s.cells
    requires AddedOrOutside(s1, AppendAll(s1, v.children, dim + 1), dim + 1, ds, LeavesAll(v.children, |ds| - dim - 1))
    ensures AddedOrOutside(s, Append(s, v, dim), dim, ds, Leaves(v, |ds| - dim))
  {
    assert Append(s, v, dim) == AppendAll(s1, v.children, dim + 1);
    assert Leaves(v, |ds| - dim) == LeavesAll(v.children, |ds| - dim - 1);
    if Append(s, v, dim).Done? {
      LevelDone(s, s1, Append(s, v, dim).state, dim, ds);
    }
  }

  /** A level whose lower levels were walked is walked. */
  lemma {:induction false} LevelDone(s: State, s1: State, s2: State, dim: nat, ds: seq<int>)
    requires NonNegative(ds) && dim + 1 < |ds| && |s.dims| == |s1.dims| == |ds| && ds[dim] != 0
    requires s1.dims == s.dims[dim := ds[dim]]
    requires Walked(s2, dim + 1, ds) && s2.dims[..dim + 1] == s1.dims[..dim + 1]
    ensures Walked(s2, dim, ds) && s2.dims[..dim] == s.dims[..dim]
  {
    assert s2.dims[dim] == s2.dims[..dim + 1][dim] == ds[dim];
    assert s2.dims[dim..] == [ds[dim]] + s2.dims[dim + 1..];
    assert ds[dim..][0] == ds[dim] && ds[dim..][1..] == ds[dim + 1..];
    assert s2.dims[..dim] == s2.dims[..dim + 1][..dim] == s1.dims[..dim + 1][..dim] == s.dims[..dim];
  }

  /** The innermost level: the buffer, allocated for the expected count, takes the values or not. */
  lemma {:induction false} LastLevel(s1: State, v: Value, dim: nat, ds: seq<int>)
    requires IsShape(ds) && dim + 1 == |ds| && |s1.dims| == |ds| && v.List? && |v.children| == ds[dim]
    requires s1.dims[dim..] == [ds[dim]] && Expected(ds) == Some(s1.expected) && IsGranted(s1.expected)
    requires s1.capacity == -1 || s1.capacity == s1.expected
    ensures AddedOrOutside(s1, WriteCells(s1, v.children), dim, ds, v.children)
  {
    assert ds[dim..] == [ds[dim]];
    assert Marked([ds[dim]]) == [ds[dim]];
  }

  lemma {:induction false} KnownLevel(s: State, v: Value, dim: nat, ds: seq<int>)
    requires Ready(s, dim, ds) && Rectangular(v, ds[dim..]) && Walked(s, dim, ds)
    requires |v.children| == ds[dim] && s.dims[dim] == ds[dim]
    ensures AddedOrOutside(s, Append(s, v, dim), dim, ds, Leaves(v, |ds| - dim))
    decreases |ds| - dim, -1
  {
    assert EnterDimension(s, dim, ds[dim]) == Done(s);
    assert ds[dim..][1..] == ds[dim + 1..] && ds[dim..][0] == ds[dim];
    if dim + 1 == |ds| {
      assert ds[dim..] == [ds[dim]] && Marked([ds[dim]]) == [ds[dim]];
      LastLevel(s, v, dim, ds);
    } else if ds[dim] == 0 {
      assert LeavesAll([], |ds| - dim - 1) == [];
      assert s.cells + [] == s.cells;
    } else {
      assert s.dims[dim + 1..] == s.dims[dim..][1..] == Marked(ds[dim + 1..]);
      RectangularAppendsAll(s, v.children, dim + 1, ds);
      assert s.dims == s.dims[dim := ds[dim]];
      LevelFinishes(s, s, v, dim, ds);
    }
  }

  lemma {:induction false} RectangularAppendsAll(s: State, vs: seq<Value>, dim: nat, ds: seq<int>)
    requires Ready(s, dim, ds) && (vs == [] ==> Walked(s, dim, ds))
    requires forall i :: 0 <= i < |vs| ==> Rectangular(vs[i], ds[dim..])
    ensures AddedOrOutside(s, AppendAll(s, vs, dim), dim, ds, LeavesAll(vs, |ds| - dim))
    decreases |ds| - dim, 1 + |vs|
  {
    if vs == [] {
      assert s.cells + [] == s.cells;
    } else {
      RectangularAppends(s, vs[0], dim, ds);
      if Append(s, vs[0], dim).Done? {
        var s1 := Append(s, vs[0], dim).state;
        RectangularAppendsAll(s1, vs[1..], dim, ds);
        AppendsInTurn(s, s1, vs, dim, ds);
      }
    }
  }

  lemma {:induction false} AppendsInTurn(s: State, s1: State, vs: seq<Value>, dim: nat, ds: seq<int>)
    requires Ready(s, dim, ds) && vs != [] && vs[0] != Null && Append(s, vs[0], dim) == Done(s1)
    requires Added(s, Done(s1), dim, ds, Leaves(vs[0], |ds| - dim))
    requires AddedOrOutside(s1, AppendAll(s1, vs[1..], dim), dim, ds, LeavesAll(vs[1..], |ds| - dim))
    ensures AddedOrOutside(s, AppendAll(s, vs, dim), dim, ds, LeavesAll(vs, |ds| - dim))
  {
    assert AppendAll(s, vs, dim) == AppendAll(s1, vs[1..], dim);
    Assoc(s.cells, Leaves(vs[0], |ds| - dim), LeavesAll(vs[1..], |ds| - dim));
  }

  /** The count of some dimensions overflows, or the buffer for it is refused. */
  predicate IsRefused(ds: seq<int>)
    requires NonNegative(ds)
  {
    Expected(ds).None? || !IsGranted(Expected(ds).value)
  }

  /** What is refused is refused on the way to the first leaf. */
  lemma {:induction false} FirstDescentThrows(s: State, v: Value, dim: nat, ds: seq<int>)
    requires IsShape(ds) && dim < |ds| && Rectangular(v, ds[dim..]) && Untouched(s, dim, ds) && IsRefused(ds)
    ensures Append(s, v, dim) == Thrown
    decreases |ds| - dim
  {
    assert ds[dim..][0] == ds[dim] && ds[dim..][1..] == ds[dim + 1..];
    EnterFresh(s, dim, ds);
    if Expected(ds[..dim + 1]).Some? {
      assert ds[..|ds|] == ds;
      FreshDims(s, dim, ds);
      ExpectedOneMore(ds, dim);
      if ds[dim] == 0 {
        ZeroNeverThrows(ds, dim + 1);
      } else if dim + 1 < |ds| {
        var s1 := s.(dims := s.dims[dim := ds[dim]], expected := Expected(ds[..dim + 1]).value);
        FirstDescentThrows(s1, v.children[0], dim + 1, ds);
      }
    }
  }

  lemma {:induction false} Assoc(a: seq<Value>, b: seq<Value>, c: seq<Value>)
    ensures a + b + c == a + (b + c)
  {
  }

  // ---------------------------------------------------------------- the conversion

  /**
   Flattening succeeds only on rectangular values without inner NULLs; the dimensions it reports
   are then those of the value, the cells are its leaves row by row, and their number is the product
   of the dimensions.
   */
  lemma {:induction false} FlattenSound(v: Value, ndims: nat)
    requires ndims > 0 && Flatten(v, ndims).Done?
    ensures
      var s := Flatten(v, ndims).state;
      && |s.dims| == ndims
      && Rectangular(v, ZeroUnset(s.dims))
      && s.cells == Leaves(v, ndims)
      && |s.cells| == Product(ZeroUnset(s.dims))
  {
    var s0 := State(Unset(ndims), 1, -1, []);
    DoneIsRectangular(s0, v, 0);
    var d := Flatten(v, ndims).state.dims;
    assert d[0..] == d;
    StaysRectangular(v, d, ZeroUnset(d));
    LeavesCount(v, ZeroUnset(d));
    assert [] + Leaves(v, ndims) == Leaves(v, ndims);
  }

  /** Every rectangular value whose squared size fits an allocation is flattened, and every write stays inside the buffer. */
  lemma {:induction false} FlattenComplete(v: Value, ds: seq<int>)
    requires IsShape(ds) && Fits(ds) && Rectangular(v, ds) && DATUM_SIZE * Square(Product(ds)) <= MAX_ALLOC
    ensures Flatten(v, |ds|).Done?
    ensures
      var s := Flatten(v, |ds|).state;
      && s.dims == Marked(ds)
      && s.cells == Leaves(v, |ds|)
      && |s.cells| == Product(ds) == Product(ZeroUnset(s.dims))
      && (s.expected > 0 ==> s.capacity == s.expected)
      && (s.capacity != -1 ==> |s.cells| <= s.capacity)
  {
    FlattenWalks(v, ds);
    LeavesCount(v, ds);
    ProductNotNegative(ds);
    SquareCovers(Product(ds));
    MarkedProduct(ds);
    SquareOfZero(Product(ds));
  }

  lemma {:induction false} SquareOfZero(p: nat)
    ensures Square(p) > 0 ==> p > 0
  {
  }

  /** The wrap of the first size never helps: the second request is then refused. */
  lemma {:induction false} GrantedExactly(expected: nat)
    ensures IsGranted(expected) <==> DATUM_SIZE * expected <= MAX_ALLOC
  {
    if expected <= MAX_ALLOC {
      SmallModulo(expected * DATUM_SIZE);
    }
  }

  /**
   The outcome for every rectangular value, whatever its sizes: an exception when the count of some
   leading dimensions is seen to overflow or its buffer is refused; else the leaves, if the count,
   taken modulo 2^64, covers them; else a write behind the end of the buffer.
   */
  lemma {:induction false} FlattenExactly(v: Value, ds: seq<int>)
    requires IsShape(ds) && Rectangular(v, ds)
    ensures IsRefused(ds) ==> Flatten(v, |ds|) == Thrown
    ensures !IsRefused(ds) && Product(ds) > Expected(ds).value ==> Flatten(v, |ds|) == OutOfBounds
    ensures !IsRefused(ds) && Product(ds) <= Expected(ds).value ==>
      var o := Flatten(v, |ds|);
      && o.Done? && o.state.dims == Marked(ds) && o.state.cells == Leaves(v, |ds|)
      && o.state.expected == Expected(ds).value && (o.state.capacity == -1 || o.state.capacity == o.state.expected)
  {
    var s0 := State(Unset(|ds|), 1, -1, []);
    assert ds[..0] == [] && ds[0..] == ds && s0.dims[0..] == Unset(|ds|);
    LeavesCount(v, ds);
    if IsRefused(ds) {
      FirstDescentThrows(s0, v, 0, ds);
    } else {
      RectangularAppends(s0, v, 0, ds);
      if Flatten(v, |ds|).Done? {
        var d := Flatten(v, |ds|).state.dims;
        assert d[0..] == d;
        assert [] + Leaves(v, |ds|) == Leaves(v, |ds|);
      }
    }
  }

  // ---------------------------------------------------------------- how many values can be flattened

  lemma {:induction false} SquareMono(p: nat, q: nat)
    requires p <= q
    ensures Square(p) <= Square(q)
  {
    assert p * p <= p * q && p * q <= q * q;
  }

  /** The squared count fits an allocation for up to 11585 values, and for no more. */
  lemma {:induction false} SquareFitsExactly(p: nat)
    ensures DATUM_SIZE * Square(p) <= MAX_ALLOC <==> p <= MOST_VALUES
  {
    if p <= MOST_VALUES {
      SquareMono(p, MOST_VALUES);
    } else {
      SquareMono(MOST_VALUES + 1, p);
    }
  }

  /** Without an empty dimension, leading dimensions hold no more than all of them. */
  lemma {:induction false} PrefixProduct(ds: seq<int>, k: nat)
    requires (forall i :: 0 <= i < |ds| ==> ds[i] > 0) && k <= |ds|
    ensures 0 < Product(ds[..k]) <= Product(ds)
  {
    ProductSplits(ds, k);
    ProductPositive(ds[..k]);
    ProductPositive(ds[k..]);
    Multiplied(Product(ds[..k]), Product(ds[k..]));
  }

  lemma {:induction false} Multiplied(p: nat, q: nat)
    requires q >= 1
    ensures p <= p * q
  {
  }

  lemma {:induction false} ProductPositive(ds: seq<int>)
    requires forall i :: 0 <= i < |ds| ==> ds[i] > 0
    ensures Product(ds) > 0
  {
    if ds != [] { ProductPositive(ds[1..]); }
  }

  /** While the product stays below 2^32, all squares fit 64 bits. */
  lemma {:induction false} SmallProductFits(ds: seq<int>)
    requires (forall i :: 0 <= i < |ds| ==> ds[i] > 0) && Product(ds) < 0x1_0000_0000
    ensures Fits(ds)
  {
    forall k | 0 <= k <= |ds| ensures Square(Product(ds[..k])) < TWO_64 {
      PrefixProduct(ds, k);
      SquareMono(Product(ds[..k]), 0xffff_ffff);
    }
  }

  /**
   A rectangular list without an empty dimension is flattened if and only if it has at most 11585
   values: the buffer is sized for the square of their number.
   */
  lemma {:induction false} FlattenedExactly(v: Value, ds: seq<int>)
    requires IsShape(ds) && Rectangular(v, ds) && forall i :: 0 <= i < |ds| ==> ds[i] > 0
    ensures Flatten(v, |ds|).Done? <==> Product(ds) <= MOST_VALUES
  {
    FlattenExactly(v, ds);
    ProductPositive(ds);
    SquareFitsExactly(Product(ds));
    if Product(ds) < 0x1_0000_0000 {
      SmallProductFits(ds);
      FitsExpected(ds);
      GrantedExactly(Square(Product(ds)));
      SquareCovers(Product(ds));
    }
  }

  /** The same with empty dimensions, for sizes whose squares fit 64 bits. */
  lemma {:induction false} FlattenedUnlessTooLarge(v: Value, ds: seq<int>)
    requires IsShape(ds) && Rectangular(v, ds) && Fits(ds)
    ensures Flatten(v, |ds|).Done? <==> Product(ds) <= MOST_VALUES
  {
    FlattenExactly(v, ds);
    ProductNotNegative(ds);
    SquareFitsExactly(Product(ds));
    FitsExpected(ds);
    GrantedExactly(Square(Product(ds)));
    SquareCovers(Product(ds));
  }

  /** A plain list of 11586 values is refused. */
  lemma {:induction false} PlainListIsRefused(values: seq<Value>)
    requires |values| == MOST_VALUES + 1
    ensures Flatten(List(values), 1) == Thrown
  {
    var ds := [MOST_VALUES + 1];
    assert ds[1..] == [] && Product(ds) == MOST_VALUES + 1;
    SmallProductFits(ds);
    FitsExpected(ds);
    SquareFitsExactly(Product(ds));
    GrantedExactly(Square(Product(ds)));
    FlattenExactly(List(values), ds);
  }

  /** A product that first stops fitting without a wrap of its first multiplication is rejected. */
  lemma {:induction false} OverflowIsRejected(v: Value, ds: seq<int>, k: nat)
    requires IsShape(ds) && Rectangular(v, ds) && k < |ds| && Fits(ds[..k])
    requires Square(Product(ds[..k])) * ds[k] < TWO_64 <= Square(Product(ds[..k + 1]))
    ensures Flatten(v, |ds|) == Thrown
  {
    FitsExpected(ds[..k]);
    ExpectedOneMore(ds, k);
    ProductOneMore(ds, k);
    ProductNotNegative(ds[..k]);
    SquareGrows(Product(ds[..k]), ds[k]);
    SmallModulo(Square(Product(ds[..k])) * ds[k]);
    if Expected(ds).Some? {
      ExpectedPrefix(ds, k + 1);
    }
    FlattenExactly(v, ds);
  }

  /** A wrap to zero is not noticed: 65536 x 32768 x 4 values are written to an empty buffer. */
  lemma {:induction false} WrapIsUnnoticed(v: Value)
    requires Rectangular(v, [65536, 32768, 4])
    ensures Flatten(v, 3) == OutOfBounds
  {
    var ds := [65536, 32768, 4];
    CountWraps(ds);
    ProductPositive(ds);
    FlattenExactly(v, ds);
  }

  lemma {:induction false} CountWraps(ds: seq<int>)
    requires ds == [65536, 32768, 4]
    ensures Expected(ds) == Some(0)
  {
    assert ds[..0] == [] && ds[..3] == ds;
    CountAfter(ds, 0, 1, 0x1_0000_0000);
    CountAfter(ds, 1, 0x1_0000_0000, 0x4000_0000_0000_0000);
    ExpectedOneMore(ds, 2);
    assert 0x4000_0000_0000_0000 * 4 == TWO_64;
  }

  /** One more dimension, without a wrap. */
  lemma {:induction false} CountAfter(ds: seq<int>, k: nat, e: nat, next: nat)
    requires NonNegative(ds) && k < |ds| && Expected(ds[..k]) == Some(e)
    requires e * ds[k] < TWO_64 && (e * ds[k]) * ds[k] == next < TWO_64
    ensures Expected(ds[..k + 1]) == Some(next)
  {
    ExpectedOneMore(ds, k);
    SmallModulo(e * ds[k]);
  }

  lemma {:induction false} FlattenWalks(v: Value, ds: seq<int>)
    requires IsShape(ds) && Fits(ds) && Rectangular(v, ds) && DATUM_SIZE * Square(Product(ds)) <= MAX_ALLOC
    ensures Flatten(v, |ds|).Done?
    ensures
      var s := Flatten(v, |ds|).state;
      && s.dims == Marked(ds) && s.cells == Leaves(v, |ds|) && CellsInBuffer(s)
      && s.expected == Square(Product(ds)) && (s.capacity == -1 || s.capacity == s.expected)
  {
    FitsExpected(ds);
    ProductNotNegative(ds);
    SquareCovers(Product(ds));
    GrantedExactly(Square(Product(ds)));
    FlattenExactly(v, ds);
    AppendUsesBuffer(State(Unset(|ds|), 1, -1, []), v, 0);
  }

  lemma {:induction false} MarkedProduct(ds: seq<int>)
    requires forall k :: 0 <= k < |ds| ==> 0 <= ds[k]
    ensures Product(ZeroUnset(Marked(ds))) == Product(ds)
  {
    if ds != [] {
      var z := ZeroUnset(Marked(ds));
      if ds[0] == 0 {
        assert z[0] == 0;
      } else {
        MarkedProduct(ds[1..]);
        assert z[1..] == ZeroUnset(Marked(ds[1..]));
      }
    }
  }

  predicate CellsInBuffer(s: State) { s.cells != [] ==> s.capacity != -1 }

  /** Freeing is safe: values are only ever written to an allocated buffer. */
  lemma {:induction false} AppendUsesBuffer(s: State, v: Value, dim: nat)
    requires dim < |s.dims| && Append(s, v, dim).Done? && CellsInBuffer(s)
    ensures CellsInBuffer(Append(s, v, dim).state)
    decreases v, 1
  {
    if dim + 1 < |s.dims| {
      AppendAllUsesBuffer(EnterDimension(s, dim, |v.children|).state, v.children, dim + 1);
    }
  }

  lemma {:induction false} AppendAllUsesBuffer(s: State, vs: seq<Value>, dim: nat)
    requires dim < |s.dims| && AppendAll(s, vs, dim).Done? && CellsInBuffer(s)
    ensures CellsInBuffer(AppendAll(s, vs, dim).state)
    decreases vs, 0
  {
    if vs != [] {
      AppendUsesBuffer(s, vs[0], dim);
      AppendAllUsesBuffer(Append(s, vs[0], dim).state, vs[1..], dim);
    }
  }

  // ---------------------------------------------------------------- the append object

  class ArrayAppendState {
    var dimensions: array<int>
    var expectedValues: nat
    var datums: array?<Value>
    var count: nat

    ghost predicate Valid()
      reads this, dimensions, datums
    {
      && (datums == null ==> count == 0)
      && (datums != null ==> count <= datums.Length)
    }

    ghost function Abstract(): State
      requires Valid()
      reads this, dimensions, datums
    {
      State(dimensions[..], expectedValues, if datums == null then -1 else datums.Length,
            if datums == null then [] else datums[..count])
    }

    constructor (numberOfDimensions: nat)
      ensures Valid() && fresh(dimensions) && datums == null
      ensures Abstract() == State(Unset(numberOfDimensions), 1, -1, [])
    {
      var d := new int[numberOfDimensions](_ => -1);
      dimensions, expectedValues, datums, count := d, 1, null, 0;
      new;
      assert dimensions[..] == Unset(numberOfDimensions);
    }

    /** The outcome of a call, by the state it leaves. */
    ghost predicate Matches(o: Outcome, thrown: bool, outside: bool)
      requires Valid()
      reads this, dimensions, datums
    {
      match o
      case Done(s) => !thrown && !outside && Abstract() == s
      case Thrown => thrown && !outside
      case OutOfBounds => outside && !thrown
    }

    /** The size check and the bookkeeping of one dimension. */
    method SetDimension(dim: nat, n: nat) returns (thrown: bool)
      requires Valid() && dim < dimensions.Length
      modifies this`expectedValues, dimensions
      ensures Valid() && Matches(EnterDimension(old(Abstract()), dim, n), thrown, false)
    {
      if n > PG_INT32_MAX {
        return true;
      }
      if dimensions[dim] == -1 {
        dimensions[dim] := n;
        expectedValues := (expectedValues * n) % TWO_64;
        if expectedValues * n >= TWO_64 {
          return true;
        }
        expectedValues := expectedValues * n;
      }
      return dimensions[dim] != n;
    }

    /** Allocates the buffer on first use and writes the values of one innermost list. */
    method WriteValues(values: seq<Value>) returns (thrown: bool, outside: bool)
      requires Valid()
      modifies this`datums, this`count, datums
      ensures Valid() && Matches(WriteCells(old(Abstract()), values), thrown, outside)
      ensures datums == old(datums) || fresh(datums)
    {
      if datums == null {
        if (expectedValues * DATUM_SIZE) % TWO_64 > MAX_ALLOC || expectedValues > MAX_ALLOC {
          return true, false;
        }
        datums := new Value[expectedValues](_ => Null);
        count := 0;
      }
      if count + |values| > datums.Length {
        return false, true;
      }
      ghost var before := datums[..count];
      var start := count;
      for i := 0 to |values|
        invariant Valid() && datums != null && count == start + i && start + |values| <= datums.Length
        invariant datums == old(datums) || fresh(datums)
        invariant datums[..count] == before + values[..i]
        modifies this`count, datums
      {
        datums[count] := values[i];
        count := count + 1;
        assert datums[..count] == before + values[..i] + [values[i]];
      }
      assert values[..|values|] == values;
      return false, false;
    }

    method AppendValueAtDimension(value: Value, dim: nat) returns (thrown: bool, outside: bool)
      requires Valid() && dim < dimensions.Length
      modifies this, dimensions, datums
      ensures Valid() && dimensions == old(dimensions) && (datums == old(datums) || fresh(datums))
      ensures Matches(Append(old(Abstract()), value, dim), thrown, outside)
      decreases value
    {
      if !value.List? {
        return true, false;
      }
      ghost var s0 := Abstract();
      thrown := SetDimension(dim, |value.children|);
      outside := false;
      if thrown {
        return;
      }
      if dim + 1 == dimensions.Length {
        thrown, outside := WriteValues(value.children);
        return;
      }
      ghost var s1 := Abstract();
      for i := 0 to |value.children|
        invariant Valid() && dimensions == old(dimensions) && (datums == old(datums) || fresh(datums))
        invariant |s1.dims| == dimensions.Length
        invariant AppendAll(Abstract(), value.children[i..], dim + 1) == AppendAll(s1, value.children, dim + 1)
      {
        var child := value.children[i];
        assert value.children[i..][0] == child && value.children[i..][1..] == value.children[i + 1..];
        if child == Null {
          return true, false;
        }
        thrown, outside := AppendValueAtDimension(child, dim + 1);
        if thrown || outside {
          return;
        }
      }
      assert value.children[|value.children|..] == [];
      thrown, outside := false, false;
    }
  }
}
