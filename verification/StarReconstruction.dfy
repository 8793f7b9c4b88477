/**
 Putting `*` back into a target list: Postgres has expanded every star to columns, and the deparser
 must replace each run of columns that contains a `duckdb.row` by one star again.
 */
module StarReconstruction {

  /** A target entry: a column of a FROM entry, or any other expression. Range-table numbers start at 1. */
  datatype Entry =
    | Var(varno: nat, attno: int, isRow: bool)
    | Other(id: nat)

  /** The reconstruction context; `varno == 0` means that no star is being reconstructed. */
  datatype Context = Context(varno: nat, attno: int, addedStar: bool)

  const NO_STAR := Context(0, 0, false)

  predicate IsTargetList(list: seq<Entry>)
  {
    forall i :: 0 <= i < |list| && list[i].Var? ==> list[i].varno > 0
  }

  // ---------------------------------------------------------------- runs of columns

  predicate Continues(list: seq<Entry>, i: nat, varno: nat, attno: int)
  {
    i < |list| && list[i].Var? && list[i].varno == varno && list[i].attno == attno
  }

  /** End of the consecutive columns `attno, attno + 1, ...` of one FROM entry that start at `i`. */
  function RunEnd(list: seq<Entry>, i: nat, varno: nat, attno: int): (e: nat)
    requires i <= |list|
    ensures i <= e <= |list|
    ensures !Continues(list, e, varno, attno + e - i)
    ensures forall k :: i <= k < e ==> list[k].Var? && list[k].varno == varno && list[k].attno == attno + k - i
    decreases |list| - i
  {
    if Continues(list, i, varno, attno) then RunEnd(list, i + 1, varno, attno + 1) else i
  }

  /** The run that starts at `i` holds a duckdb.row. */
  predicate RunHasRow(list: seq<Entry>, i: nat, varno: nat, attno: int)
    requires i <= |list|
    decreases |list| - i
  {
    Continues(list, i, varno, attno) && (list[i].isRow || RunHasRow(list, i + 1, varno, attno + 1))
  }

  predicate StartsStar(list: seq<Entry>, i: nat)
  {
    i < |list| && list[i].Var? && list[i].attno == 1 && RunHasRow(list, i, list[i].varno, 1)
  }

  // ---------------------------------------------------------------- the steps

  function CheckForStarStart(ctx: Context, list: seq<Entry>, i: nat): Context
    requires i < |list|
  {
    if StartsStar(list, i) then Context(list[i].varno, 1, false) else ctx
  }

  /** One step: the new context, and whether the entry is skipped. */
  function ReconstructStep(ctx: Context, list: seq<Entry>, i: nat): (Context, bool)
    requires i < |list|
  {
    var c := CheckForStarStart(ctx, list, i);
    if c.varno == 0 then (c, false)
    else if Continues(list, i, c.varno, c.attno) then
      var next := c.(attno := c.attno + 1);
      if c.addedStar then (next, true)
      else if !list[i].isRow then (next, true)
      else (next.(addedStar := true), false)
    else (NO_STAR, false)
  }

  class StarContext {
    const list: seq<Entry>
    var varnoStar: nat
    var varattnoStar: int
    var addedCurrentStar: bool

    ghost function State(): Context
      reads this
    {
      Context(varnoStar, varattnoStar, addedCurrentStar)
    }

    constructor (list: seq<Entry>)
      ensures this.list == list && State() == NO_STAR
    {
      this.list := list;
      varnoStar, varattnoStar, addedCurrentStar := 0, 0, false;
    }

    method CheckStart(i: nat)
      requires i < |list|
      modifies this
      ensures State() == CheckForStarStart(old(State()), list, i)
    {
      if !list[i].Var? || list[i].attno != 1 {
        return;
      }
      var varno := list[i].varno;
      var attno := list[i].attno;
      var k := i;
      while k < |list|
        invariant i <= k <= |list| && State() == old(State())
        invariant RunHasRow(list, i, varno, 1) <==> RunHasRow(list, k, varno, attno)
        decreases |list| - k
      {
        if !list[k].Var? || list[k].varno != varno || list[k].attno != attno {
          return;
        }
        if list[k].isRow {
          varnoStar, varattnoStar, addedCurrentStar := varno, list[i].attno, false;
          return;
        }
        attno := attno + 1;
        k := k + 1;
      }
    }

    method Step(i: nat) returns (skip: bool)
      requires i < |list|
      modifies this
      ensures (State(), skip) == ReconstructStep(old(State()), list, i)
    {
      CheckStart(i);
      if varnoStar == 0 {
        return false;
      }
      if list[i].Var? && list[i].varno == varnoStar && list[i].attno == varattnoStar {
        varattnoStar := varattnoStar + 1;
        if addedCurrentStar {
          return true;
        }
        if !list[i].isRow {
          return true;
        }
        addedCurrentStar := true;
        return false;
      }
      varnoStar, varattnoStar, addedCurrentStar := 0, 0, false;
      return false;
    }
  }

  // ---------------------------------------------------------------- a whole target list

  /** What is written: the entry at a place of the list as it is, or the star of a FROM entry. */
  datatype Item = Plain(at: nat) | Star(varno: nat)

  /** An entry that is not skipped while a star is being reconstructed is written as that star. */
  function Reconstruct(ctx: Context, list: seq<Entry>, i: nat): seq<Item>
    requires i <= |list|
    decreases |list| - i
  {
    if i == |list| then []
    else
      var (c, skip) := ReconstructStep(ctx, list, i);
      var rest := Reconstruct(c, list, i + 1);
      if skip then rest
      else [if c.varno != 0 then Star(c.varno) else Plain(i)] + rest
  }

  /** The specification: each maximal run from column 1 that holds a duckdb.row becomes one star. */
  function WithStars(list: seq<Entry>, i: nat): seq<Item>
    requires i <= |list|
    decreases |list| - i
  {
    if i == |list| then []
    else if StartsStar(list, i) then [Star(list[i].varno)] + WithStars(list, RunEnd(list, i, list[i].varno, 1))
    else [Plain(i)] + WithStars(list, i + 1)
  }

  /** Inside a run the steps write the star once and nothing else. */
  lemma {:induction false} InsideRun(c: Context, list: seq<Entry>, i: nat)
    requires IsTargetList(list) && i <= |list| && c.varno > 0
    requires c.attno > 1 || (StartsStar(list, i) && c == Context(list[i].varno, 1, false))
    ensures
      var e := RunEnd(list, i, c.varno, c.attno);
      Reconstruct(c, list, i) ==
        (if !c.addedStar && RunHasRow(list, i, c.varno, c.attno) then [Star(c.varno)] else [])
        + Reconstruct(Context(c.varno, c.attno + e - i, c.addedStar || RunHasRow(list, i, c.varno, c.attno)), list, e)
    decreases |list| - i
  {
    if Continues(list, i, c.varno, c.attno) {
      var (next, skip) := ReconstructStep(c, list, i);
      InsideRun(next, list, i + 1);
    }
  }

  /** A new star starts from scratch. */
  lemma {:induction false} StartReplacesContext(c: Context, list: seq<Entry>, i: nat)
    requires i < |list| && StartsStar(list, i)
    ensures Reconstruct(c, list, i) == Reconstruct(Context(list[i].varno, 1, false), list, i)
  {
  }

  /** A run that holds a duckdb.row writes one star; the steps go on behind it. */
  lemma {:induction false} StarIsWrittenOnce(c: Context, list: seq<Entry>, i: nat, v: nat, e: nat)
    requires IsTargetList(list) && i < |list| && StartsStar(list, i) && v == list[i].varno && e == RunEnd(list, i, v, 1)
    ensures Reconstruct(c, list, i) == [Star(v)] + Reconstruct(Context(v, 1 + e - i, true), list, e)
  {
    StartReplacesContext(c, list, i);
    InsideRun(Context(v, 1, false), list, i);
  }

  lemma {:induction false} OutsideRuns(c: Context, list: seq<Entry>, i: nat)
    requires i < |list| && !StartsStar(list, i) && (c.varno > 0 ==> !Continues(list, i, c.varno, c.attno))
    ensures ReconstructStep(c, list, i).0.varno == 0 && !ReconstructStep(c, list, i).1
  {
  }

  /** Outside any run the steps agree with the specification, whatever an old star left behind. */
  lemma {:induction false} StepsMeetSpecification(c: Context, list: seq<Entry>, i: nat)
    requires IsTargetList(list) && i <= |list|
    requires c.varno > 0 ==> !Continues(list, i, c.varno, c.attno)
    ensures Reconstruct(c, list, i) == WithStars(list, i)
    decreases |list| - i
  {
    if i < |list| {
      if StartsStar(list, i) {
        var v := list[i].varno;
        var e := RunEnd(list, i, v, 1);
        StarIsWrittenOnce(c, list, i, v, e);
        StepsMeetSpecification(Context(v, 1 + e - i, true), list, e);
      } else {
        OutsideRuns(c, list, i);
        StepsMeetSpecification(ReconstructStep(c, list, i).0, list, i + 1);
      }
    }
  }

  /** Running the step over a target list writes what the specification says. */
  lemma {:induction false} ReconstructionIsCorrect(list: seq<Entry>)
    requires IsTargetList(list)
    ensures Reconstruct(NO_STAR, list, 0) == WithStars(list, 0)
  {
    StepsMeetSpecification(NO_STAR, list, 0);
  }

  /** The loop over a target list, with one context for all of it. */
  method DeparseTargetList(list: seq<Entry>) returns (items: seq<Item>)
    requires IsTargetList(list)
    ensures items == WithStars(list, 0)
  {
    var ctx := new StarContext(list);
    items := [];
    ghost var all := Reconstruct(NO_STAR, list, 0);
    for i := 0 to |list|
      invariant ctx.list == list && fresh(ctx)
      invariant items + Reconstruct(ctx.State(), list, i) == all
    {
      OneItemMore(ctx.State(), list, i, items);
      var skip := ctx.Step(i);
      if !skip {
        items := items + [if ctx.varnoStar != 0 then Star(ctx.varnoStar) else Plain(i)];
      }
    }
    ReconstructionIsCorrect(list);
  }

  /** One step moves at most one item from what is to come to what is written. */
  lemma {:induction false} OneItemMore(c: Context, list: seq<Entry>, i: nat, items: seq<Item>)
    requires i < |list|
    ensures
      var (next, skip) := ReconstructStep(c, list, i);
      var item := if next.varno != 0 then Star(next.varno) else Plain(i);
      items + Reconstruct(c, list, i) == (if skip then items else items + [item]) + Reconstruct(next, list, i + 1)
  {
    var (next, skip) := ReconstructStep(c, list, i);
    if !skip {
      var item := if next.varno != 0 then Star(next.varno) else Plain(i);
      assert items + ([item] + Reconstruct(next, list, i + 1)) == items + [item] + Reconstruct(next, list, i + 1);
    }
  }

  // ---------------------------------------------------------------- which entries a star replaces

  /** The entries from `a` to `b` are columns 1, 2, ... of one FROM entry, and one of them is a duckdb.row. */
  predicate StarRun(list: seq<Entry>, a: int, b: int)
  {
    && 0 <= a < b <= |list| && list[a].Var?
    && (forall k :: a <= k < b ==> list[k].Var? && list[k].varno == list[a].varno && list[k].attno == 1 + k - a)
    && (exists k :: a <= k < b && list[k].isRow)
  }

  lemma {:induction false} RunReaches(list: seq<Entry>, i: nat, v: nat, attno: int, b: nat, row: nat)
    requires i <= row < b <= |list| && list[row].Var? && list[row].isRow
    requires forall k :: i <= k < b ==> list[k].Var? && list[k].varno == v && list[k].attno == attno + k - i
    ensures RunHasRow(list, i, v, attno) && b <= RunEnd(list, i, v, attno)
    decreases b - i
  {
    if i + 1 < b {
      if row == i {
        EndReaches(list, i, v, attno, b);
      } else {
        RunReaches(list, i + 1, v, attno + 1, b, row);
      }
    }
  }

  lemma {:induction false} EndReaches(list: seq<Entry>, i: nat, v: nat, attno: int, b: nat)
    requires i <= b <= |list|
    requires forall k :: i <= k < b ==> list[k].Var? && list[k].varno == v && list[k].attno == attno + k - i
    ensures b <= RunEnd(list, i, v, attno)
    decreases b - i
  {
    if i < b {
      EndReaches(list, i + 1, v, attno + 1, b);
    }
  }

  lemma {:induction false} RowIsInRun(list: seq<Entry>, i: nat, v: nat, attno: int)
    requires i <= |list| && RunHasRow(list, i, v, attno)
    ensures exists k :: i <= k < RunEnd(list, i, v, attno) && list[k].isRow
    decreases |list| - i
  {
    if !list[i].isRow {
      RowIsInRun(list, i + 1, v, attno + 1);
    }
  }

  /** The look-ahead, said of the list: a star starts exactly where such a run does. */
  lemma {:induction false} StartsStarExactly(list: seq<Entry>, a: nat)
    ensures StartsStar(list, a) ==> StarRun(list, a, RunEnd(list, a, list[a].varno, 1))
    ensures forall b :: StarRun(list, a, b) ==> StartsStar(list, a) && b <= RunEnd(list, a, list[a].varno, 1)
  {
    if StartsStar(list, a) {
      RowIsInRun(list, a, list[a].varno, 1);
    }
    forall b | StarRun(list, a, b) ensures StartsStar(list, a) && b <= RunEnd(list, a, list[a].varno, 1) {
      var row :| a <= row < b && list[row].isRow;
      RunReaches(list, a, list[a].varno, 1, b, row);
    }
  }

  /** No star that starts before `i` reaches beyond it. */
  predicate Boundary(list: seq<Entry>, i: nat)
  {
    forall a :: 0 <= a < i && StartsStar(list, a) ==> RunEnd(list, a, list[a].varno, 1) <= i
  }

  lemma {:induction false} NextBoundary(list: seq<Entry>, i: nat)
    requires Boundary(list, i) && i < |list|
    ensures Boundary(list, if StartsStar(list, i) then RunEnd(list, i, list[i].varno, 1) else i + 1)
  {
  }

  lemma {:induction false} PlainFrom(list: seq<Entry>, i: nat, k: nat)
    requires i <= |list| && Boundary(list, i)
    ensures Plain(k) in WithStars(list, i) <==> i <= k < |list| && forall a, b :: a <= k < b ==> !StarRun(list, a, b)
    decreases |list| - i
  {
    if i < |list| {
      NextBoundary(list, i);
      if StartsStar(list, i) {
        var e := RunEnd(list, i, list[i].varno, 1);
        StartsStarExactly(list, i);
        PlainFrom(list, e, k);
      } else {
        forall a, b | a <= i < b ensures !StarRun(list, a, b) {
          if StarRun(list, a, b) {
            StartsStarExactly(list, a);
          }
        }
        PlainFrom(list, i + 1, k);
      }
    }
  }

  predicate StarAt(list: seq<Entry>, a: nat, v: nat) { StartsStar(list, a) && list[a].varno == v }

  lemma {:induction false} NoStarInside(list: seq<Entry>, i: nat)
    requires StartsStar(list, i)
    ensures forall a :: i < a < RunEnd(list, i, list[i].varno, 1) ==> !StartsStar(list, a)
  {
  }

  lemma {:induction false} StarFrom(list: seq<Entry>, i: nat, v: nat)
    requires i <= |list|
    ensures Star(v) in WithStars(list, i) <==> exists a :: i <= a && StarAt(list, a, v)
    decreases |list| - i
  {
    if i < |list| {
      var next := if StartsStar(list, i) then RunEnd(list, i, list[i].varno, 1) else i + 1;
      StarFrom(list, next, v);
      if StartsStar(list, i) {
        NoStarInside(list, i);
      }
      assert Star(v) in WithStars(list, i) <==> StarAt(list, i, v) || Star(v) in WithStars(list, next);
      assert forall a :: i < a < next ==> !StarAt(list, a, v);
    }
  }

  /**
   Said of the list itself: an entry is written as it is exactly when it lies in no run of columns from
   column 1 that holds a duckdb.row, and a star is written exactly for the FROM entries with such a run.
   */
  lemma {:induction false} StarsExactly(list: seq<Entry>, k: nat, v: nat)
    requires IsTargetList(list)
    ensures Plain(k) in Reconstruct(NO_STAR, list, 0) <==> k < |list| && forall a, b :: a <= k < b ==> !StarRun(list, a, b)
    ensures Star(v) in Reconstruct(NO_STAR, list, 0) <==> exists a, b :: StarRun(list, a, b) && list[a].varno == v
  {
    ReconstructionIsCorrect(list);
    PlainFrom(list, 0, k);
    StarFrom(list, 0, v);
    if a, b :| StarRun(list, a, b) && list[a].varno == v {
      StartsStarExactly(list, a);
      assert StarAt(list, a, v);
    }
    if a: nat :| StarAt(list, a, v) {
      StartsStarExactly(list, a);
    }
  }

  // ---------------------------------------------------------------- stars expand to what they replaced

  /** The columns of each FROM entry: whether column `k + 1` is a duckdb.row. */
  type Catalog = nat -> seq<bool>

  function StarColumns(catalog: Catalog, varno: nat): (cs: seq<Entry>)
    ensures |cs| == |catalog(varno)|
  {
    seq(|catalog(varno)|, k requires 0 <= k < |catalog(varno)| => Var(varno, k + 1, catalog(varno)[k]))
  }

  function ExpandItem(catalog: Catalog, list: seq<Entry>, item: Item): seq<Entry>
  {
    match item
    case Plain(at) => if at < |list| then [list[at]] else []
    case Star(v) => StarColumns(catalog, v)
  }

  function Expand(catalog: Catalog, list: seq<Entry>, items: seq<Item>): seq<Entry>
  {
    if items == [] then [] else ExpandItem(catalog, list, items[0]) + Expand(catalog, list, items[1..])
  }

  /** Every run that becomes a star lists all columns of its FROM entry. */
  predicate RunsAreComplete(catalog: Catalog, list: seq<Entry>)
  {
    forall i :: 0 <= i < |list| && StartsStar(list, i) ==>
      var e := RunEnd(list, i, list[i].varno, 1);
      list[i..e] == StarColumns(catalog, list[i].varno)
  }

  lemma {:induction false} ExpandMore(catalog: Catalog, list: seq<Entry>, item: Item, rest: seq<Item>)
    ensures Expand(catalog, list, [item] + rest) == ExpandItem(catalog, list, item) + Expand(catalog, list, rest)
  {
    assert ([item] + rest)[1..] == rest;
  }

  lemma {:induction false} ExpandRestores(catalog: Catalog, list: seq<Entry>, i: nat)
    requires i <= |list| && RunsAreComplete(catalog, list)
    ensures Expand(catalog, list, WithStars(list, i)) == list[i..]
    decreases |list| - i
  {
    if i < |list| {
      if StartsStar(list, i) {
        var e := RunEnd(list, i, list[i].varno, 1);
        ExpandRestores(catalog, list, e);
        ExpandMore(catalog, list, Star(list[i].varno), WithStars(list, e));
        CutList(list, i, e);
      } else {
        ExpandRestores(catalog, list, i + 1);
        ExpandMore(catalog, list, Plain(i), WithStars(list, i + 1));
        CutList(list, i, i + 1);
        assert list[i..i + 1] == [list[i]];
      }
    }
  }

  lemma {:induction false} CutList(list: seq<Entry>, i: nat, e: nat)
    requires i <= e <= |list|
    ensures list[i..] == list[i..e] + list[e..]
  {
  }

  /** When stars stand for whole FROM entries, DuckDB's expansion gives the original list back. */
  lemma {:induction false} ReconstructionRestores(catalog: Catalog, list: seq<Entry>)
    requires IsTargetList(list) && RunsAreComplete(catalog, list)
    ensures Expand(catalog, list, Reconstruct(NO_STAR, list, 0)) == list
  {
    ReconstructionIsCorrect(list);
    ExpandRestores(catalog, list, 0);
  }
}
