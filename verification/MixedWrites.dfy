/**
 Detecting transactions that write to both engines: exactly which Postgres writes the command-id
 bookkeeping sees, and that no block of well-nested statements commits writes to both.
 */
module MixedWrites {
  import opened Transactions

  // ---------------------------------------------------------------- what the counter sees

  /** A Postgres write that has not been counted yet, and one that was counted and not claimed away. */
  datatype Trace = Trace(pending: bool, exposed: bool)

  function Track(t: Trace, e: Event): Trace
  {
    match e
    case UseCommandId => Trace(true, t.exposed)
    case IncrementCounter => Trace(false, t.exposed || t.pending)
    case Claim(force) => Trace(false, t.exposed && !force)
    case _ => t
  }

  function TrackAll(t: Trace, es: seq<Event>): Trace
    decreases |es|
  {
    if es == [] then t else TrackAll(Track(t, es[0]), es[1..])
  }

  /** A transaction block whose command ids have not been used, without any override. */
  predicate BlockStart(s: Session)
  {
    s.pg.inBlock && !s.pg.used && s.pg.phase == Active && !s.pg.failed && s.pg.cid == s.expected && !s.forceAllow
  }

  predicate NoOverride(es: seq<Event>)
  {
    forall i :: 0 <= i < |es| ==> !es[i].ForceAllow?
  }

  predicate Tracked(s: Session, t: Trace)
  {
    && s.pg.inBlock && !s.forceAllow
    && s.pg.used == t.pending
    && s.expected <= s.pg.cid
    && (s.pg.cid > s.expected <==> t.exposed)
  }

  lemma {:induction false} TrackStep(s: Session, t: Trace, e: Event)
    requires Tracked(s, t) && Inside([e]) && !e.ForceAllow? && !Next(s, e).pg.failed
    ensures Tracked(Next(s, e), Track(t, e))
  {
    assert [e][0] == e;
  }

  lemma {:induction false} FailureIsFinal(s: Session, es: seq<Event>)
    requires IsRun(s, es) && Inside(es) && s.pg.failed
    ensures es == []
  {
  }

  lemma {:induction false} TrackRun(s: Session, t: Trace, es: seq<Event>)
    requires Tracked(s, t) && IsRun(s, es) && Inside(es) && NoOverride(es) && !After(s, es).pg.failed
    ensures Tracked(After(s, es), TrackAll(t, es))
    decreases |es|
  {
    if es != [] {
      assert Inside([es[0]]) && Inside(es[1..]) && NoOverride(es[1..]);
      if Next(s, es[0]).pg.failed {
        FailureIsFinal(Next(s, es[0]), es[1..]);
      }
      TrackStep(s, t, es[0]);
      TrackRun(Next(s, es[0]), Track(t, es[0]), es[1..]);
    }
  }

  /**
   For every run of a block, PRE_COMMIT rejects it exactly when DuckDB was written and some Postgres
   write was counted before a claim took its command id and was not forgiven by a forced claim.
   */
  lemma {:induction false} DetectionIsExact(s: Session, es: seq<Event>, duckCommits: bool)
    requires BlockStart(s) && IsRun(s, es) && Inside(es) && NoOverride(es) && !After(s, es).pg.failed
    ensures
      var m := After(s, es);
      DidDisallowedMixedWrites(m) <==> DuckDidWrites(m) && TrackAll(Trace(false, false), es).exposed
    ensures
      var m := After(s, es);
      DuckDidWrites(m) && TrackAll(Trace(false, false), es).exposed ==> Apply(m, PreCommit(duckCommits)).throws
  {
    TrackRun(s, Trace(false, false), es);
  }

  // ---------------------------------------------------------------- statements

  /**
   The statements of a block, as the planner and executor hooks see them. `cached` plans skip the
   planner hook. `inner` statements run while the outer one is executing (functions and triggers).
   DuckDB DDL is a claim, the catalog writes of Postgres, a forced claim and the DuckDB statement.
   */
  datatype Stmt =
    | PgRead
    | PgFunction(inner: seq<Stmt>)
    | PgWrite(cached: bool, inner: seq<Stmt>)
    | DuckSelect(cached: bool, writes: bool)
    | DuckModify(cached: bool)
    | DuckDdl(catalogWrites: nat)

  function Fail(s: Session): Session { s.(pg := s.pg.(failed := true)) }

  /** Nothing more happens in a failed transaction. */
  function Then(s: Session, e: Event): Session
  {
    if s.pg.failed then s else Next(s, e)
  }

  /** The planner's refusals: a write after mixed writes, and DuckDB execution inside a function. */
  function PlanDuck(s: Session, cached: bool, isWrite: bool, nest: nat): Session
  {
    if !cached && ((isWrite && DidDisallowedMixedWrites(s)) || nest > 0) then Fail(s) else s
  }

  /** `AllowWrites`, checked when a Postgres write is planned. */
  predicate AllowWrites(s: Session) { MixedWritesAllowed(s) || !DuckDidWrites(s) }

  /** The executor-finish hook: a DuckDB plan claims when the DuckDB transaction has written. */
  function FinishDuck(s: Session): Session
  {
    Then(if !s.pg.failed && DuckDidWrites(s) then Next(s, Claim(false)) else s, IncrementCounter)
  }

  function CatalogWrites(s: Session, n: nat): Session
    decreases n
  {
    if n == 0 then s else CatalogWrites(Then(Then(s, UseCommandId), IncrementCounter), n - 1)
  }

  function Exec(s: Session, st: Stmt, nest: nat): Session
    decreases st, 1
  {
    if s.pg.failed then s
    else match st
      case PgRead => Then(s, IncrementCounter)
      case PgFunction(inner) => Then(ExecAll(s, inner, nest + 1), IncrementCounter)
      case PgWrite(cached, inner) =>
        if !cached && !AllowWrites(s) then Fail(s)
        else Then(ExecAll(Next(s, UseCommandId), inner, nest + 1), IncrementCounter)
      case DuckSelect(cached, writes) =>
        var s1 := Then(PlanDuck(s, cached, false, nest), Connect(false));
        FinishDuck(if writes then Then(s1, DuckWrite) else s1)
      case DuckModify(cached) =>
        var s1 := Then(Then(PlanDuck(s, cached, true, nest), UseCommandId), Claim(false));
        FinishDuck(Then(Then(s1, Connect(false)), DuckWrite))
      case DuckDdl(n) =>
        var s1 := CatalogWrites(Then(s, Claim(false)), n);
        Then(Then(Then(s1, Claim(true)), Connect(true)), DuckWrite)
  }

  function ExecAll(s: Session, sts: seq<Stmt>, nest: nat): Session
    decreases sts, 0
  {
    if sts == [] then s else ExecAll(Exec(s, sts[0], nest), sts[1..], nest)
  }

  predicate WritesPg(st: Stmt)
    decreases st
  {
    match st
    case PgWrite(_, _) => true
    case PgFunction(inner) => exists i :: 0 <= i < |inner| && WritesPg(inner[i])
    case _ => false
  }

  predicate UsesDuck(st: Stmt)
    decreases st
  {
    match st
    case PgRead => false
    case PgFunction(inner) => exists i :: 0 <= i < |inner| && UsesDuck(inner[i])
    case PgWrite(_, inner) => exists i :: 0 <= i < |inner| && UsesDuck(inner[i])
    case _ => true
  }

  predicate WritesDuck(st: Stmt)
    decreases st
  {
    match st
    case DuckSelect(_, writes) => writes
    case DuckModify(_) => true
    case DuckDdl(_) => true
    case PgFunction(inner) => exists i :: 0 <= i < |inner| && WritesDuck(inner[i])
    case _ => false
  }

  /** No DuckDB statement runs inside an unfinished Postgres write. */
  predicate WellNested(st: Stmt)
    decreases st
  {
    match st
    case PgWrite(_, inner) => forall i :: 0 <= i < |inner| ==> !UsesDuck(inner[i])
    case PgFunction(inner) => forall i :: 0 <= i < |inner| ==> WellNested(inner[i])
    case _ => true
  }

  // ---------------------------------------------------------------- Postgres statements only count up

  /** What statements without DuckDB can do to the session. */
  predicate CountsUp(s: Session, s1: Session)
  {
    && s1.expected == s.expected && s1.duck == s.duck && s1.initialised == s.initialised
    && s1.forceAllow == s.forceAllow && s1.temp == s.temp
    && s1.pg.inBlock == s.pg.inBlock && s1.pg.phase == s.pg.phase && s1.pg.subDepth == s.pg.subDepth
    && s.pg.cid <= s1.pg.cid
    && (s.pg.used ==> s1.pg.used || s1.pg.cid > s.pg.cid)
    && (!s.pg.used && s1.pg.cid == s.pg.cid ==> !s1.pg.used)
  }

  lemma {:induction false} PgStatementCountsUp(s: Session, st: Stmt, nest: nat)
    requires !UsesDuck(st) && !Exec(s, st, nest).pg.failed
    ensures !s.pg.failed && CountsUp(s, Exec(s, st, nest)) && !Exec(s, st, nest).pg.used
    ensures st.PgWrite? ==> Exec(s, st, nest).pg.cid > s.pg.cid
    decreases st, 1
  {
    match st
    case PgRead =>
    case PgFunction(inner) =>
      PgStatementsCountUp(s, inner, nest + 1);
      IncrementCountsUp(s, ExecAll(s, inner, nest + 1));
    case PgWrite(_, inner) =>
      PgStatementsCountUp(Next(s, UseCommandId), inner, nest + 1);
      IncrementCountsUp(Next(s, UseCommandId), ExecAll(Next(s, UseCommandId), inner, nest + 1));
    case _ =>
  }

  /** The command counter at the end of a statement: a used command id becomes a new one. */
  lemma {:induction false} IncrementCountsUp(s: Session, s1: Session)
    requires CountsUp(s, s1) && !s1.pg.failed && !Then(s1, IncrementCounter).pg.failed
    ensures
      var s2 := Then(s1, IncrementCounter);
      CountsUp(s, s2) && !s2.pg.used && (s.pg.used ==> s2.pg.cid > s.pg.cid)
  {
  }

  lemma {:induction false} PgStatementsCountUp(s: Session, sts: seq<Stmt>, nest: nat)
    requires (forall i :: 0 <= i < |sts| ==> !UsesDuck(sts[i])) && !ExecAll(s, sts, nest).pg.failed
    ensures !s.pg.failed && CountsUp(s, ExecAll(s, sts, nest))
    decreases sts, 0
  {
    if sts != [] {
      var s1 := Exec(s, sts[0], nest);
      PgStatementsCountUp(s1, sts[1..], nest);
      PgStatementCountsUp(s, sts[0], nest);
    }
  }

  // ---------------------------------------------------------------- no block commits both

  /** `pg` and `duck`: whether the statements so far wrote to either engine. */
  predicate BlockInv(s: Session, pg: bool, duck: bool)
  {
    && s.pg.inBlock && !s.forceAllow && s.pg.phase == Active && !s.pg.used
    && s.expected <= s.pg.cid
    && (pg ==> s.pg.cid > s.expected)
    && (duck ==> DuckDidWrites(s))
  }

  lemma {:induction false} ClaimKeepsBlock(s: Session, pg: bool, duck: bool)
    requires BlockInv(s.(pg := s.pg.(used := false)), pg, duck) && !s.pg.failed && !Next(s, Claim(false)).pg.failed
    ensures !pg && BlockInv(Next(s, Claim(false)), pg, duck)
    ensures Next(s, Claim(false)).pg.cid == Next(s, Claim(false)).expected
  {
  }

  lemma {:induction false} FinishKeepsBlock(s: Session, pg: bool, duck: bool)
    requires BlockInv(s, pg, duck) && !FinishDuck(s).pg.failed
    ensures BlockInv(FinishDuck(s), pg, duck)
    ensures DuckDidWrites(s) ==> !pg
  {
    if !s.pg.failed && DuckDidWrites(s) {
      ClaimKeepsBlock(s, pg, duck);
    }
  }

  lemma {:induction false} CatalogKeeps(s: Session, n: nat)
    requires !CatalogWrites(s, n).pg.failed && !s.pg.used
    ensures !s.pg.failed && CountsUp(s, CatalogWrites(s, n)) && !CatalogWrites(s, n).pg.used
    decreases n
  {
    if n > 0 {
      var s1 := Then(Then(s, UseCommandId), IncrementCounter);
      if s1.pg.failed {
        StaysFailed(s1, n - 1);
      } else {
        CatalogKeeps(s1, n - 1);
      }
    }
  }

  lemma {:induction false} DdlKeepsBlock(s: Session, n: nat, nest: nat, pg: bool, duck: bool)
    requires BlockInv(s, pg, duck) && !Exec(s, DuckDdl(n), nest).pg.failed
    ensures !pg && BlockInv(Exec(s, DuckDdl(n), nest), pg, true)
  {
    var s1 := Then(s, Claim(false));
    var s2 := CatalogWrites(s1, n);
    assert !Then(s2, Claim(true)).pg.failed;
    assert !s2.pg.failed;
    if !s1.pg.failed {
      ClaimKeepsBlock(s, pg, duck);
      CatalogKeeps(s1, n);
    } else {
      StaysFailed(s1, n);
    }
  }

  lemma {:induction false} StaysFailed(s: Session, n: nat)
    requires s.pg.failed
    ensures CatalogWrites(s, n) == s
    decreases n
  {
    if n > 0 {
      StaysFailed(s, n - 1);
    }
  }

  /** Connecting and writing leave the Postgres side alone. */
  lemma {:induction false} DuckSideKeepsBlock(s: Session, writes: bool, pg: bool, duck: bool)
    requires BlockInv(s, pg, duck) && !s.pg.failed
    ensures
      var s1 := Then(s, Connect(false));
      var s2 := if writes then Then(s1, DuckWrite) else s1;
      !s2.pg.failed ==> BlockInv(s2, pg, duck || writes) && s2.pg == s.pg && s2.expected == s.expected
  {
  }

  lemma {:induction false} FailedFinish(s: Session)
    ensures s.pg.failed ==> FinishDuck(s).pg.failed
  {
  }

  lemma {:induction false} SelectKeepsBlock(s: Session, cached: bool, writes: bool, nest: nat, pg: bool, duck: bool)
    requires BlockInv(s, pg, duck) && !Exec(s, DuckSelect(cached, writes), nest).pg.failed
    ensures BlockInv(Exec(s, DuckSelect(cached, writes), nest), pg, duck || writes)
  {
    var s0 := PlanDuck(s, cached, false, nest);
    var s1 := Then(s0, Connect(false));
    var s2 := if writes then Then(s1, DuckWrite) else s1;
    FailedFinish(s2);
    assert !s0.pg.failed && s0 == s;
    DuckSideKeepsBlock(s, writes, pg, duck);
    FinishKeepsBlock(s2, pg, duck || writes);
  }

  lemma {:induction false} ModifyKeepsBlock(s: Session, cached: bool, nest: nat, pg: bool, duck: bool)
    requires BlockInv(s, pg, duck) && !Exec(s, DuckModify(cached), nest).pg.failed
    ensures !pg && BlockInv(Exec(s, DuckModify(cached), nest), pg, true)
  {
    var s0 := PlanDuck(s, cached, true, nest);
    var s1 := Then(Then(s0, UseCommandId), Claim(false));
    var s2 := Then(Then(s1, Connect(false)), DuckWrite);
    FailedFinish(s2);
    assert !s1.pg.failed;
    assert s0 == s && !s.pg.failed;
    ClaimKeepsBlock(Next(s, UseCommandId), pg, duck);
    DuckSideKeepsBlock(s1, true, pg, duck);
    FinishKeepsBlock(s2, pg, true);
  }

  lemma {:induction false} StatementKeepsBlock(s: Session, st: Stmt, nest: nat, pg: bool, duck: bool)
    requires BlockInv(s, pg, duck) && WellNested(st) && !Exec(s, st, nest).pg.failed
    ensures !s.pg.failed
    ensures BlockInv(Exec(s, st, nest), pg || WritesPg(st), duck || WritesDuck(st))
    decreases st, 1
  {
    match st
    case PgRead =>
    case PgFunction(inner) =>
      BlockKeeps(s, inner, nest + 1, pg, duck);
    case PgWrite(_, inner) =>
      PgStatementsCountUp(Next(s, UseCommandId), inner, nest + 1);
    case DuckSelect(cached, writes) =>
      SelectKeepsBlock(s, cached, writes, nest, pg, duck);
    case DuckModify(cached) =>
      ModifyKeepsBlock(s, cached, nest, pg, duck);
    case DuckDdl(n) =>
      DdlKeepsBlock(s, n, nest, pg, duck);
  }

  predicate AnyWritesPg(sts: seq<Stmt>) { exists i :: 0 <= i < |sts| && WritesPg(sts[i]) }
  predicate AnyWritesDuck(sts: seq<Stmt>) { exists i :: 0 <= i < |sts| && WritesDuck(sts[i]) }

  lemma {:induction false} BlockKeeps(s: Session, sts: seq<Stmt>, nest: nat, pg: bool, duck: bool)
    requires BlockInv(s, pg, duck) && (forall i :: 0 <= i < |sts| ==> WellNested(sts[i]))
    requires !ExecAll(s, sts, nest).pg.failed
    ensures !s.pg.failed
    ensures BlockInv(ExecAll(s, sts, nest), pg || AnyWritesPg(sts), duck || AnyWritesDuck(sts))
    decreases sts, 0
  {
    if sts != [] {
      var s1, rest := Exec(s, sts[0], nest), sts[1..];
      NotFailedBefore(s1, rest, nest);
      StatementKeepsBlock(s, sts[0], nest, pg, duck);
      BlockKeeps(s1, rest, nest, pg || WritesPg(sts[0]), duck || WritesDuck(sts[0]));
      assert forall i :: 0 < i < |sts| ==> sts[i] == rest[i - 1];
    }
  }

  lemma {:induction false} NotFailedBefore(s: Session, sts: seq<Stmt>, nest: nat)
    ensures s.pg.failed ==> ExecAll(s, sts, nest).pg.failed
    decreases |sts|
  {
    if sts != [] {
      NotFailedBefore(Exec(s, sts[0], nest), sts[1..], nest);
    }
  }

  /**
   A block of well-nested statements that PRE_COMMIT accepts has not written to both engines, even
   when every planner check was skipped by cached plans.
   */
  lemma {:induction false} NoMixedCommit(s: Session, sts: seq<Stmt>, duckCommits: bool)
    requires BlockStart(s) && forall i :: 0 <= i < |sts| ==> WellNested(sts[i])
    requires
      var m := ExecAll(s, sts, 0);
      !m.pg.failed && !Apply(m, PreCommit(duckCommits)).throws
    ensures !(AnyWritesPg(sts) && AnyWritesDuck(sts))
  {
    BlockKeeps(s, sts, 0, false, false);
  }

  // ---------------------------------------------------------------- which blocks commit

  /** A bound on the command ids a statement takes. */
  function Steps(st: Stmt): nat
    decreases st, 1
  {
    match st
    case PgRead => 1
    case PgFunction(inner) => StepsAll(inner) + 1
    case PgWrite(_, inner) => StepsAll(inner) + 1
    case DuckSelect(_, _) => 1
    case DuckModify(_) => 2
    case DuckDdl(n) => n + 2
  }

  function StepsAll(sts: seq<Stmt>): nat
    decreases sts, 0
  {
    if sts == [] then 0 else Steps(sts[0]) + StepsAll(sts[1..])
  }

  /** Postgres statements go through as long as none of them writes after DuckDB has. */
  lemma {:induction false} PgAccepted(s: Session, st: Stmt, nest: nat)
    requires !UsesDuck(st) && !s.pg.failed && s.pg.cid + Steps(st) <= 0xffff_fffe
    requires WritesPg(st) ==> !DuckDidWrites(s)
    ensures
      var s1 := Exec(s, st, nest);
      && !s1.pg.failed && s1.pg.cid <= s.pg.cid + Steps(st) && CountsUp(s, s1) && !s1.pg.used
      && (!WritesPg(st) && !s.pg.used ==> s1 == s)
    decreases st, 1
  {
    match st
    case PgRead =>
    case PgFunction(inner) =>
      PgAllAccepted(s, inner, nest + 1);
      PgStatementCountsUp(s, st, nest);
    case PgWrite(_, inner) =>
      PgAllAccepted(Next(s, UseCommandId), inner, nest + 1);
      PgStatementCountsUp(s, st, nest);
    case _ =>
  }

  lemma {:induction false} PgAllAccepted(s: Session, sts: seq<Stmt>, nest: nat)
    requires (forall i :: 0 <= i < |sts| ==> !UsesDuck(sts[i])) && !s.pg.failed && s.pg.cid + StepsAll(sts) <= 0xffff_fffe
    requires AnyWritesPg(sts) ==> !DuckDidWrites(s)
    ensures
      var s1 := ExecAll(s, sts, nest);
      && !s1.pg.failed && s1.pg.cid <= s.pg.cid + StepsAll(sts)
      && (!AnyWritesPg(sts) && !s.pg.used ==> s1 == s)
    decreases sts, 0
  {
    if sts != [] {
      assert AnyWritesPg(sts[1..]) ==> AnyWritesPg(sts) by {
        assert forall i :: 0 <= i < |sts[1..]| ==> sts[1..][i] == sts[i + 1];
      }
      PgAccepted(s, sts[0], nest);
      PgAllAccepted(Exec(s, sts[0], nest), sts[1..], nest);
    }
  }

  /** A block in which nothing prevents the next statement; `ids` command ids are left. */
  predicate Ready(s: Session, ids: nat)
  {
    && s.pg.inBlock && !s.forceAllow && s.pg.phase == Active && !s.pg.failed && !s.pg.used && s.pg.subDepth == 0
    && s.pg.cid + ids <= 0xffff_fffe
  }

  /** No Postgres write is counted; or DuckDB has not written. */
  predicate OneSided(s: Session, duckSide: bool)
  {
    if duckSide then s.pg.cid == s.expected else !s.duck.wrote
  }

  lemma {:induction false} CatalogAccepted(s: Session, n: nat)
    requires !s.pg.failed && !s.pg.used && s.pg.cid + n <= 0xffff_fffe
    ensures CatalogWrites(s, n) == s.(pg := s.pg.(cid := s.pg.cid + n))
    decreases n
  {
    if n > 0 {
      CatalogAccepted(Then(Then(s, UseCommandId), IncrementCounter), n - 1);
    }
  }

  /** A DuckDB statement at top level goes through; one that writes needs a block without Postgres writes. */
  lemma {:induction false} DuckAccepted(s: Session, st: Stmt, ids: nat, duckSide: bool)
    requires st.DuckSelect? || st.DuckModify? || st.DuckDdl?
    requires Ready(s, Steps(st) + ids) && OneSided(s, duckSide) && (WritesDuck(st) ==> duckSide)
    ensures Ready(Exec(s, st, 0), ids) && OneSided(Exec(s, st, 0), duckSide)
  {
    match st
    case DuckSelect(_, _) =>
    case DuckModify(_) =>
      ModifyAccepted(s, st.cached, ids);
    case DuckDdl(n) =>
      CatalogAccepted(Next(s, Claim(false)), n);
  }

  lemma {:induction false} ModifyAccepted(s: Session, cached: bool, ids: nat)
    requires Ready(s, 2 + ids) && s.pg.cid == s.expected
    ensures
      var s1 := Exec(s, DuckModify(cached), 0);
      Ready(s1, ids) && s1.pg.cid == s1.expected
  {
    var s1 := Next(Next(s, UseCommandId), Claim(false));
    assert s1.pg.cid == s1.expected == s.pg.cid + 1 && Ready(s1, 1 + ids);
    var s2 := Next(Next(s1, Connect(false)), DuckWrite);
    assert s2.pg == s1.pg && s2.expected == s1.expected;
  }

  /** DuckDB is used only by statements of the block itself, not inside functions and Postgres writes. */
  predicate DuckOnTop(st: Stmt) { st.PgFunction? || st.PgWrite? ==> !UsesDuck(st) }

  lemma {:induction false} OneSideAccepted(s: Session, sts: seq<Stmt>, duckSide: bool)
    requires forall i :: 0 <= i < |sts| ==> DuckOnTop(sts[i])
    requires Ready(s, StepsAll(sts)) && OneSided(s, duckSide)
    requires if duckSide then !AnyWritesPg(sts) else !AnyWritesDuck(sts)
    ensures Ready(ExecAll(s, sts, 0), 0) && OneSided(ExecAll(s, sts, 0), duckSide)
    decreases |sts|
  {
    if sts != [] {
      var st, rest := sts[0], sts[1..];
      assert forall i :: 0 <= i < |rest| ==> rest[i] == sts[i + 1];
      if UsesDuck(st) {
        DuckAccepted(s, st, StepsAll(rest), duckSide);
      } else {
        PgAccepted(s, st, 0);
      }
      OneSideAccepted(Exec(s, st, 0), rest, duckSide);
    }
  }

  lemma {:induction false} NoDuckWellNested(st: Stmt)
    requires !UsesDuck(st)
    ensures WellNested(st)
    decreases st
  {
    if st.PgFunction? {
      forall i | 0 <= i < |st.inner| ensures WellNested(st.inner[i]) {
        NoDuckWellNested(st.inner[i]);
      }
    }
  }

  /**
   Which blocks commit: with DuckDB used at the top level of the block and command ids left, every
   statement succeeds and PRE_COMMIT accepts exactly when the statements write to at most one engine.
   */
  lemma {:induction false} BlockCommitsExactly(s: Session, sts: seq<Stmt>)
    requires BlockStart(s) && s.pg.subDepth == 0 && !s.duck.wrote
    requires (forall i :: 0 <= i < |sts| ==> DuckOnTop(sts[i])) && s.pg.cid + StepsAll(sts) <= 0xffff_fffe
    ensures
      var m := ExecAll(s, sts, 0);
      !m.pg.failed && !Apply(m, PreCommit(true)).throws <==> !(AnyWritesPg(sts) && AnyWritesDuck(sts))
  {
    forall i | 0 <= i < |sts| ensures WellNested(sts[i]) {
      if !UsesDuck(sts[i]) {
        NoDuckWellNested(sts[i]);
      }
    }
    var m := ExecAll(s, sts, 0);
    if AnyWritesPg(sts) && AnyWritesDuck(sts) {
      if !m.pg.failed && !Apply(m, PreCommit(true)).throws {
        NoMixedCommit(s, sts, true);
      }
    } else {
      OneSideAccepted(s, sts, !AnyWritesPg(sts));
    }
  }

  /**
   Which statements are refused at once: any DuckDB write after a Postgres write, and a Postgres write
   after a DuckDB write unless its plan was cached.
   */
  lemma {:induction false} LateWriteIsRefused(s: Session, before: seq<Stmt>, st: Stmt)
    requires BlockStart(s) && (forall i :: 0 <= i < |before| ==> WellNested(before[i]))
    requires (AnyWritesPg(before) && (st.DuckModify? || st.DuckDdl? || (st.DuckSelect? && st.writes)))
      || (AnyWritesDuck(before) && st.PgWrite? && !st.cached)
    ensures Exec(ExecAll(s, before, 0), st, 0).pg.failed
  {
    var m := ExecAll(s, before, 0);
    if !m.pg.failed {
      BlockKeeps(s, before, 0, false, false);
      if !st.PgWrite? {
        WriteNeedsDuckSide(m, st, AnyWritesDuck(before));
      }
    }
  }

  lemma {:induction false} WriteNeedsDuckSide(m: Session, st: Stmt, duck: bool)
    requires BlockInv(m, true, duck) && (st.DuckModify? || st.DuckDdl? || (st.DuckSelect? && st.writes))
    ensures Exec(m, st, 0).pg.failed
  {
    if !Exec(m, st, 0).pg.failed {
      match st
      case DuckModify(cached) => ModifyKeepsBlock(m, cached, 0, true, duck);
      case DuckDdl(n) => DdlKeepsBlock(m, n, 0, true, duck);
      case DuckSelect(cached, _) =>
        var s2 := Then(Then(PlanDuck(m, cached, false, 0), Connect(false)), DuckWrite);
        FailedFinish(s2);
        DuckSideKeepsBlock(m, true, true, duck);
        FinishKeepsBlock(s2, true, true);
    }
  }

  /** Inside a function the planner refuses every DuckDB query that it gets to see. */
  lemma {:induction false} DuckInFunctionIsRefused(s: Session, st: Stmt, nest: nat)
    requires nest > 0 && (st == DuckModify(false) || (st.DuckSelect? && !st.cached))
    ensures Exec(s, st, nest).pg.failed
  {
  }

  /** Why nesting matters: a DuckDB write inside an open Postgres write claims the id that write used. */
  lemma {:induction false} NestedWriteEscapes(s: Session)
    requires BlockStart(s) && s.pg.cid == 0 && s.pg.subDepth == 0 && !s.duck.open
    ensures
      var sts := [PgWrite(true, [DuckModify(true)])];
      var m := ExecAll(s, sts, 0);
      && AnyWritesPg(sts) && !m.pg.failed && DuckDidWrites(m) && !Apply(m, PreCommit(true)).throws
  {
    var inner := [DuckModify(true)];
    var st := PgWrite(true, inner);
    assert WritesPg([st][0]);
    var s1 := Next(s, UseCommandId);
    var s2 := Next(Next(s1, UseCommandId), Claim(false));
    assert s2.pg.cid == 1 && s2.expected == 1 && !s2.pg.used && !s2.pg.failed;
    var s3 := Next(Next(s2, Connect(false)), DuckWrite);
    assert DuckDidWrites(s3) && s3.pg == s2.pg && s3.expected == 1;
    var s4 := Next(s3, Claim(false));
    assert s4.pg.cid == 2 && s4.expected == 2 && !s4.pg.used && !s4.pg.failed && DuckDidWrites(s4);
    assert Exec(s1, DuckModify(true), 1) == s4;
    assert inner[1..] == [];
    assert ExecAll(s1, inner, 1) == ExecAll(s4, [], 1) == s4;
    assert Exec(s, st, 0) == s4;
    assert [st][1..] == [];
    assert ExecAll(s, [st], 0) == ExecAll(s4, [], 0) == s4;
  }
}
