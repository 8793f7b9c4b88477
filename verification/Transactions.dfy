/**
 Keeping the Postgres and the DuckDB transaction of a backend together: the command-id claims that
 detect writes to both engines, the temporary-table set, and the DuckDB transaction that is opened,
 committed in PRE_COMMIT and rolled back with the Postgres one.
 */
module Transactions {

  /** The largest command id Postgres hands out before it refuses to go on. */
  const LAST_COMMAND_ID: nat := 0xffff_fffe

  datatype Phase = Active | Committing

  /**
   The Postgres side: the current command id and whether a write has used it, whether the
   transaction is an explicit block, its open subtransactions, and whether it is past PRE_COMMIT or
   must abort.
   */
  datatype Pg = Pg(cid: nat, used: bool, inBlock: bool, subDepth: nat, phase: Phase, failed: bool)

  /** The set of temporary DuckDB tables, its saved copy, and the flag that a copy was saved. */
  datatype Temp = Temp(now: set<nat>, saved: set<nat>, modified: bool)

  /** The transaction of the cached DuckDB connection. */
  datatype Duck = Duck(open: bool, wrote: bool)

  datatype Session = Session(pg: Pg, initialised: bool, expected: nat, forceAllow: bool, temp: Temp, duck: Duck)

  datatype Event =
    | UseCommandId
    | IncrementCounter
    | Claim(force: bool)
    | ForceAllow(on: bool)
    | Connect(force: bool)
    | DuckWrite
    | StartSub
    | EndSub
    | RegisterTemp(oid: nat)
    | UnregisterTemp(oid: nat)
    | PreCommit(duckCommits: bool)
    | Commit(nextInBlock: bool)
    | Abort(nextInBlock: bool)

  /** A call's effect on the session, and whether it throws. */
  datatype Effect = Effect(session: Session, throws: bool)

  // ---------------------------------------------------------------- the calls

  predicate MixedWritesAllowed(s: Session) { !s.pg.inBlock || s.forceAllow }

  predicate PgDidWrites(s: Session) { s.pg.cid > s.expected }

  predicate DuckDidWrites(s: Session) { s.initialised && s.duck.open && s.duck.wrote }

  predicate DidDisallowedMixedWrites(s: Session)
  {
    !MixedWritesAllowed(s) && PgDidWrites(s) && DuckDidWrites(s)
  }

  /** `CommandCounterIncrement`: a new id only if the current one was used. */
  function Increment(s: Session): Effect
  {
    if !s.pg.used then Effect(s, false)
    else if s.pg.cid >= LAST_COMMAND_ID then Effect(s, true)
    else Effect(s.(pg := s.pg.(cid := s.pg.cid + 1, used := false)), false)
  }

  function ClaimCurrentCommandId(s: Session, force: bool): Effect
  {
    var s1 := s.(pg := s.pg.(used := true));
    if s1.pg.cid != s1.expected && !MixedWritesAllowed(s1) && !force then Effect(s1, true)
    else
      var e := Increment(s1);
      if e.throws then e else Effect(e.session.(expected := e.session.pg.cid), false)
  }

  function GetConnection(s: Session, force: bool): Effect
  {
    var s1 := s.(initialised := true);
    if s1.duck.open then Effect(s1, false)
    else if s1.pg.subDepth > 0 then Effect(s1, true)
    else if force || s1.pg.inBlock then Effect(s1.(duck := Duck(true, false)), false)
    else Effect(s1, false)
  }

  function SaveTemp(t: Temp): Temp
  {
    if t.modified then t else Temp(t.now, t.now, true)
  }

  function KeepTemp(t: Temp): Temp
  {
    if t.modified then Temp(t.now, {}, false) else t
  }

  function RestoreTemp(t: Temp): Temp
  {
    if t.modified then Temp(t.saved, {}, false) else t
  }

  function PreCommitCallback(s: Session, duckCommits: bool): Effect
  {
    if !s.initialised then Effect(s, false)
    else if DidDisallowedMixedWrites(s) then Effect(s, true)
    else
      var s1 := s.(expected := 0, forceAllow := false, temp := KeepTemp(s.temp));
      if s1.duck.open then Effect(s1.(duck := Duck(false, false)), !duckCommits) else Effect(s1, false)
  }

  function AbortCallback(s: Session): Session
  {
    if !s.initialised then s
    else Session(s.pg, true, 0, false, RestoreTemp(s.temp), Duck(false, false))
  }

  /** Postgres starts the next transaction with command id 0 and no subtransactions. */
  function NewTransaction(s: Session, inBlock: bool): Session
  {
    s.(pg := Pg(0, false, inBlock, 0, Active, false))
  }

  function SubXactCallback(s: Session): Effect
  {
    if s.initialised && s.duck.open then Effect(s, true)
    else Effect(s.(pg := s.pg.(subDepth := s.pg.subDepth + 1)), false)
  }

  function Apply(s: Session, e: Event): Effect
  {
    match e
    case UseCommandId => Effect(s.(pg := s.pg.(used := true)), false)
    case IncrementCounter => Increment(s)
    case Claim(force) => ClaimCurrentCommandId(s, force)
    case ForceAllow(on) => Effect(s.(forceAllow := on), false)
    case Connect(force) => GetConnection(s, force)
    case DuckWrite => Effect(if s.duck.open then s.(duck := Duck(true, true)) else s, false)
    case StartSub => SubXactCallback(s)
    case EndSub => Effect(if s.pg.subDepth > 0 then s.(pg := s.pg.(subDepth := s.pg.subDepth - 1)) else s, false)
    case RegisterTemp(oid) => Effect(s.(temp := SaveTemp(s.temp).(now := s.temp.now + {oid})), false)
    case UnregisterTemp(oid) => Effect(s.(temp := SaveTemp(s.temp).(now := s.temp.now - {oid})), false)
    case PreCommit(ok) =>
      var r := PreCommitCallback(s, ok);
      if r.throws then r else Effect(r.session.(pg := r.session.pg.(phase := Committing)), false)
    case Commit(b) => Effect(NewTransaction(s, b), false)
    case Abort(b) => Effect(NewTransaction(AbortCallback(s), b), false)
  }

  /** After a throw Postgres aborts; after PRE_COMMIT it commits or, if it fails itself, aborts. */
  predicate MayHappen(s: Session, e: Event)
  {
    if s.pg.failed then e.Abort?
    else if s.pg.phase == Committing then e.Commit? || e.Abort?
    else !e.Commit?
  }

  function Next(s: Session, e: Event): Session
  {
    var r := Apply(s, e);
    if r.throws then r.session.(pg := r.session.pg.(failed := true)) else r.session
  }

  predicate IsRun(s: Session, es: seq<Event>)
    decreases |es|
  {
    es == [] || (MayHappen(s, es[0]) && IsRun(Next(s, es[0]), es[1..]))
  }

  function After(s: Session, es: seq<Event>): Session
    decreases |es|
  {
    if es == [] then s else After(Next(s, es[0]), es[1..])
  }

  // ---------------------------------------------------------------- the DuckDB transaction

  predicate ConnectionInv(s: Session)
  {
    && (s.duck.open ==> s.initialised && s.pg.subDepth == 0)
    && (s.duck.wrote ==> s.duck.open)
    && (s.pg.phase == Committing ==> !s.duck.open)
  }

  lemma {:induction false} ConnectionStep(s: Session, e: Event)
    requires ConnectionInv(s) && MayHappen(s, e)
    ensures ConnectionInv(Next(s, e))
  {
  }

  lemma {:induction false} ConnectionRun(s: Session, es: seq<Event>)
    requires ConnectionInv(s) && IsRun(s, es)
    ensures ConnectionInv(After(s, es))
    decreases |es|
  {
    if es != [] {
      ConnectionStep(s, es[0]);
      ConnectionRun(Next(s, es[0]), es[1..]);
    }
  }

  /** A backend before its first transaction. */
  function FreshBackend(inBlock: bool): Session
  {
    Session(Pg(0, false, inBlock, 0, Active, false), false, 0, false, Temp({}, {}, false), Duck(false, false))
  }

  /**
   In every run of a backend, over any number of transactions, an open DuckDB transaction never
   coexists with an accepted subtransaction, and when Postgres commits the DuckDB transaction has ended.
   A subtransaction is refused exactly while a DuckDB transaction is open, and a connection exactly when
   it would have to open one inside a subtransaction; it opens one in a block, or when asked to.
   */
  lemma {:induction false} EnginesStayTogether(inBlock: bool, es: seq<Event>, e: Event)
    requires IsRun(FreshBackend(inBlock), es) && MayHappen(After(FreshBackend(inBlock), es), e)
    ensures
      var s := After(FreshBackend(inBlock), es);
      && !(s.duck.open && s.pg.subDepth > 0)
      && (e.Commit? ==> !s.duck.open)
      && (e.StartSub? ==>
            && (Next(s, e).pg.failed <==> s.duck.open)
            && (!s.duck.open ==> Next(s, e) == s.(pg := s.pg.(subDepth := s.pg.subDepth + 1))))
      && (e.Connect? ==>
            && (Next(s, e).pg.failed <==> s.pg.subDepth > 0 && !s.duck.open)
            && (Next(s, e).duck.open <==> s.duck.open || (s.pg.subDepth == 0 && (e.force || s.pg.inBlock)))
            && (s.duck.open ==> Next(s, e) == s))
      && (e.EndSub? && s.pg.subDepth > 0 ==> Next(s, e) == s.(pg := s.pg.(subDepth := s.pg.subDepth - 1)))
  {
    ConnectionRun(FreshBackend(inBlock), es);
  }

  /**
   A claim is refused exactly when the command id is not the expected one in a block without override, or
   when Postgres has no further command id; an accepted one leaves the expected id as the current, unused one.
   */
  lemma {:induction false} ClaimExactly(s: Session, force: bool)
    ensures Apply(s, Claim(force)).throws
      <==> (s.pg.cid != s.expected && s.pg.inBlock && !s.forceAllow && !force) || s.pg.cid >= 0xffff_fffe
    ensures
      var s1 := Apply(s, Claim(force)).session;
      Apply(s, Claim(force)).throws || s1 == s.(pg := s.pg.(cid := s.pg.cid + 1, used := false), expected := s.pg.cid + 1)
  {
  }

  /**
   PRE_COMMIT is refused exactly when both engines were written in a block without override, or when
   DuckDB's own commit fails.
   */
  lemma {:induction false} PreCommitExactly(s: Session, duckCommits: bool)
    ensures Apply(s, PreCommit(duckCommits)).throws
      <==> s.initialised && s.duck.open
           && (!duckCommits || (s.duck.wrote && s.pg.cid > s.expected && s.pg.inBlock && !s.forceAllow))
  {
  }

  // ---------------------------------------------------------------- the temporary tables

  /** Registrations and removals applied to a set, in order. */
  function Fold(start: set<nat>, es: seq<Event>): set<nat>
    decreases |es|
  {
    if es == [] then start else Fold(FoldOne(start, es[0]), es[1..])
  }

  function FoldOne(start: set<nat>, e: Event): set<nat>
  {
    match e
    case RegisterTemp(o) => start + {o}
    case UnregisterTemp(o) => start - {o}
    case _ => start
  }

  /** The events of one transaction, its end apart. */
  predicate Inside(es: seq<Event>)
  {
    forall i :: 0 <= i < |es| ==> !es[i].PreCommit? && !es[i].Commit? && !es[i].Abort?
  }

  predicate TempInv(t: Temp, start: set<nat>)
  {
    if t.modified then t.saved == start else t.now == start
  }

  lemma {:induction false} TempStep(s: Session, e: Event, start: set<nat>)
    requires Inside([e]) && TempInv(s.temp, start)
    ensures Next(s, e).temp.now == FoldOne(s.temp.now, e)
    ensures TempInv(Next(s, e).temp, start) && Next(s, e).pg.phase == s.pg.phase
  {
    assert [e][0] == e;
  }

  lemma {:induction false} TempRun(s: Session, es: seq<Event>, start: set<nat>)
    requires IsRun(s, es) && Inside(es) && TempInv(s.temp, start)
    ensures After(s, es).temp.now == Fold(s.temp.now, es) && TempInv(After(s, es).temp, start)
    ensures After(s, es).pg.phase == s.pg.phase
    decreases |es|
  {
    if es != [] {
      assert Inside([es[0]]) && Inside(es[1..]);
      TempStep(s, es[0], start);
      TempRun(Next(s, es[0]), es[1..], start);
    }
  }

  /** A transaction start: nothing modified yet. */
  predicate AtStart(s: Session)
  {
    s.pg.phase == Active && !s.pg.failed && !s.temp.modified
  }

  /** What the next transaction relies on. */
  predicate Clean(s: Session)
  {
    AtStart(s) && s.expected == 0 && !s.forceAllow && !s.duck.open
  }

  /** After a commit the set has all registrations and removals of the transaction applied. */
  lemma {:induction false} CommitKeepsTempTables(s: Session, es: seq<Event>, b: bool)
    requires AtStart(s) && IsRun(s, es) && Inside(es)
    requires var m := After(s, es); !m.pg.failed && m.initialised && !Apply(m, PreCommit(true)).throws
    ensures
      var end := Next(Next(After(s, es), PreCommit(true)), Commit(b));
      end.temp.now == Fold(s.temp.now, es) && Clean(end)
  {
    TempRun(s, es, s.temp.now);
  }

  /** After an abort before PRE_COMMIT, or one forced by its mixed-write check, the set is what it was at the start. */
  lemma {:induction false} AbortRestoresTempTables(s: Session, es: seq<Event>, b: bool)
    requires AtStart(s) && IsRun(s, es) && Inside(es) && After(s, es).initialised
    ensures
      var m := After(s, es);
      && Next(m, Abort(b)).temp.now == s.temp.now && Clean(Next(m, Abort(b)))
      && (DidDisallowedMixedWrites(m) ==>
            var end := Next(Next(m, PreCommit(true)), Abort(b));
            end.temp.now == s.temp.now && Clean(end))
  {
    TempRun(s, es, s.temp.now);
  }

  /** A failing DuckDB commit has dropped the saved set, so the abort after it changes nothing. */
  lemma {:induction false} FailedCommitThenAbort(m: Session, b: bool)
    requires !m.pg.failed && m.initialised && m.duck.open && !DidDisallowedMixedWrites(m)
    ensures Next(m, PreCommit(false)).pg.failed
    ensures Next(Next(m, PreCommit(false)), Abort(b)).temp.now == m.temp.now
  {
  }

  /**
   When the DuckDB commit itself fails, PRE_COMMIT has already dropped the saved set, and after the
   abort that follows the set is restored only if nothing had changed it.
   */
  lemma {:induction false} FailedDuckCommitKeepsChanges(s: Session, es: seq<Event>, b: bool)
    requires AtStart(s) && IsRun(s, es) && Inside(es)
    requires
      var m := After(s, es);
      !m.pg.failed && m.initialised && m.duck.open && !DidDisallowedMixedWrites(m)
    ensures
      var failing := Next(After(s, es), PreCommit(false));
      var end := Next(failing, Abort(b));
      && failing.pg.failed && end.temp.now == Fold(s.temp.now, es)
      && (end.temp.now == s.temp.now <==> Fold(s.temp.now, es) == s.temp.now)
  {
    TempRun(s, es, s.temp.now);
    FailedCommitThenAbort(After(s, es), b);
  }

  // ---------------------------------------------------------------- whole transactions

  /** How a transaction ends; Postgres can still abort after a PRE_COMMIT that went well. */
  datatype Ending =
    | Commits(duckCommits: bool, nextInBlock: bool)
    | Aborts(nextInBlock: bool)
    | AbortsLate(duckCommits: bool, nextInBlock: bool)

  datatype Transaction = Transaction(inside: seq<Event>, ending: Ending)

  function EndEvents(e: Ending): seq<Event>
  {
    match e
    case Commits(ok, b) => [PreCommit(ok), Commit(b)]
    case Aborts(b) => [Abort(b)]
    case AbortsLate(ok, b) => [PreCommit(ok), Abort(b)]
  }

  function Events(t: Transaction): seq<Event> { t.inside + EndEvents(t.ending) }

  predicate Legal(s: Session, t: Transaction) { Inside(t.inside) && IsRun(s, Events(t)) }

  function End(s: Session, t: Transaction): Session { After(s, Events(t)) }

  /** PRE_COMMIT happened and got past its mixed-write check. */
  predicate GetsPast(s: Session, t: Transaction)
  {
    !t.ending.Aborts? && !DidDisallowedMixedWrites(After(s, t.inside))
  }

  lemma {:induction false} RunsInTurn(s: Session, a: seq<Event>, b: seq<Event>)
    ensures After(s, a + b) == After(After(s, a), b)
    ensures IsRun(s, a + b) <==> IsRun(s, a) && IsRun(After(s, a), b)
    decreases |a|
  {
    if a == [] {
      assert a + b == b;
    } else {
      assert (a + b)[1..] == a[1..] + b;
      RunsInTurn(Next(s, a[0]), a[1..], b);
    }
  }

  lemma {:induction false} OneEvent(s: Session, e: Event)
    ensures After(s, [e]) == Next(s, e) && (IsRun(s, [e]) <==> MayHappen(s, e))
  {
    assert [e][1..] == [];
  }

  lemma {:induction false} TwoEvents(s: Session, e: Event, f: Event)
    ensures After(s, [e, f]) == Next(Next(s, e), f)
    ensures IsRun(s, [e, f]) <==> MayHappen(s, e) && MayHappen(Next(s, e), f)
  {
    assert [e, f][1..] == [f];
    OneEvent(Next(s, e), f);
  }

  /** The last events of a legal transaction, on the state its statements left. */
  lemma {:induction false} EndsInTurn(s: Session, t: Transaction)
    requires Legal(s, t)
    ensures
      var m := After(s, t.inside);
      && IsRun(s, t.inside)
      && (t.ending.Aborts? ==> End(s, t) == Next(m, Abort(t.ending.nextInBlock)))
      && (!t.ending.Aborts? ==> MayHappen(m, PreCommit(t.ending.duckCommits)))
      && (t.ending.AbortsLate? ==> End(s, t) == Next(Next(m, PreCommit(t.ending.duckCommits)), Abort(t.ending.nextInBlock)))
      && (t.ending.Commits? ==> !Next(m, PreCommit(t.ending.duckCommits)).pg.failed)
      && (t.ending.Commits? ==> End(s, t) == Next(Next(m, PreCommit(t.ending.duckCommits)), Commit(t.ending.nextInBlock)))
  {
    var m := After(s, t.inside);
    RunsInTurn(s, t.inside, EndEvents(t.ending));
    match t.ending
    case Commits(ok, b) => TwoEvents(m, PreCommit(ok), Commit(b));
    case Aborts(b) => OneEvent(m, Abort(b));
    case AbortsLate(ok, b) => TwoEvents(m, PreCommit(ok), Abort(b));
  }

  lemma {:induction false} PreCommitKeeps(m: Session, ok: bool)
    requires !m.pg.failed && m.initialised
    ensures
      var p := Next(m, PreCommit(ok));
      && p.initialised && p.temp.now == m.temp.now
      && (DidDisallowedMixedWrites(m) ==> p.pg.failed && p.temp == m.temp)
      && (!DidDisallowedMixedWrites(m) ==> !p.temp.modified && p.expected == 0 && !p.forceAllow && !p.duck.open)
  {
  }

  lemma {:induction false} AbortEnds(p: Session, b: bool)
    requires p.initialised
    ensures Next(p, Abort(b)).temp == RestoreTemp(p.temp) && Clean(Next(p, Abort(b)))
  {
  }

  /**
   Every ending leaves a backend in which the next transaction can start. The set then holds the
   changes of the transaction if PRE_COMMIT got past its check, and otherwise what it held before.
   */
  lemma {:induction false} TransactionEnds(s: Session, t: Transaction)
    requires AtStart(s) && Legal(s, t) && After(s, t.inside).initialised
    ensures Clean(End(s, t))
    ensures End(s, t).temp.now == if GetsPast(s, t) then Fold(s.temp.now, t.inside) else s.temp.now
    ensures t.ending.Commits? ==> GetsPast(s, t)
  {
    var m := After(s, t.inside);
    EndsInTurn(s, t);
    TempRun(s, t.inside, s.temp.now);
    if t.ending.Aborts? {
      AbortEnds(m, t.ending.nextInBlock);
    } else {
      PreCommitKeeps(m, t.ending.duckCommits);
      if t.ending.AbortsLate? {
        AbortEnds(Next(m, PreCommit(t.ending.duckCommits)), t.ending.nextInBlock);
      }
    }
  }

  lemma {:induction false} UninitialisedEnd(m: Session, ok: bool, b: bool)
    requires !m.initialised
    ensures Next(m, Abort(b)).temp == m.temp
    ensures MayHappen(m, PreCommit(ok)) ==> Next(Next(m, PreCommit(ok)), Abort(b)).temp == m.temp
  {
  }

  /**
   An abort restores the set if and only if DuckDB is initialised and PRE_COMMIT did not get past its
   check, or the transaction had not changed the set.
   */
  lemma {:induction false} AbortRestoresExactly(s: Session, t: Transaction)
    requires AtStart(s) && Legal(s, t) && !t.ending.Commits?
    ensures End(s, t).temp.now == s.temp.now <==>
      (After(s, t.inside).initialised && !GetsPast(s, t)) || Fold(s.temp.now, t.inside) == s.temp.now
  {
    var m := After(s, t.inside);
    EndsInTurn(s, t);
    TempRun(s, t.inside, s.temp.now);
    if m.initialised {
      TransactionEnds(s, t);
    } else {
      UninitialisedEnd(m, !t.ending.Aborts? && t.ending.duckCommits, t.ending.nextInBlock);
    }
  }

  /** It happens: Postgres aborts after a PRE_COMMIT that went well, and the new table stays in the set. */
  lemma {:induction false} LateAbortKeepsTable(oid: nat)
    ensures
      var t := Transaction([Connect(false), RegisterTemp(oid)], AbortsLate(true, true));
      var s := FreshBackend(true);
      Legal(s, t) && oid !in s.temp.now && oid in End(s, t).temp.now
  {
    var t := Transaction([Connect(false), RegisterTemp(oid)], AbortsLate(true, true));
    var s := FreshBackend(true);
    TwoEvents(s, Connect(false), RegisterTemp(oid));
    var m := After(s, t.inside);
    RunsInTurn(s, t.inside, EndEvents(t.ending));
    TwoEvents(m, PreCommit(true), Abort(true));
    EndsInTurn(s, t);
    TransactionEnds(s, t);
    assert t.inside[1..] == [RegisterTemp(oid)] && t.inside[1..][1..] == [];
    assert Fold(s.temp.now, t.inside) == Fold({}, [RegisterTemp(oid)]) == Fold({} + {oid}, []);
  }

  // ---------------------------------------------------------------- any number of transactions

  /** The transactions follow each other, DuckDB being initialised at each end. */
  predicate AllLegal(s: Session, ts: seq<Transaction>)
    decreases |ts|
  {
    ts == [] || (Legal(s, ts[0]) && After(s, ts[0].inside).initialised && AllLegal(End(s, ts[0]), ts[1..]))
  }

  function AfterAll(s: Session, ts: seq<Transaction>): Session
    decreases |ts|
  {
    if ts == [] then s else AfterAll(End(s, ts[0]), ts[1..])
  }

  /** The events of the transactions whose changes are kept. */
  function KeptEvents(s: Session, ts: seq<Transaction>): seq<Event>
    decreases |ts|
  {
    if ts == [] then []
    else (if GetsPast(s, ts[0]) then ts[0].inside else []) + KeptEvents(End(s, ts[0]), ts[1..])
  }

  lemma {:induction false} FoldsInTurn(start: set<nat>, a: seq<Event>, b: seq<Event>)
    ensures Fold(start, a + b) == Fold(Fold(start, a), b)
    decreases |a|
  {
    if a == [] {
      assert a + b == b;
    } else {
      assert (a + b)[1..] == a[1..] + b;
      FoldsInTurn(FoldOne(start, a[0]), a[1..], b);
    }
  }

  /**
   After any sequence of transactions, however each of them ended, the set is the first one with the
   registrations and removals of exactly the kept transactions applied, in order.
   */
  lemma {:induction false} TempTablesOverTransactions(s: Session, ts: seq<Transaction>)
    requires AtStart(s) && AllLegal(s, ts)
    ensures AtStart(AfterAll(s, ts))
    ensures AfterAll(s, ts).temp.now == Fold(s.temp.now, KeptEvents(s, ts))
    decreases |ts|
  {
    if ts != [] {
      TransactionEnds(s, ts[0]);
      TempTablesOverTransactions(End(s, ts[0]), ts[1..]);
      FoldsInTurn(s.temp.now, if GetsPast(s, ts[0]) then ts[0].inside else [], KeptEvents(End(s, ts[0]), ts[1..]));
    }
  }

  // ---------------------------------------------------------------- how the two engines end

  /** DuckDB writes of its open transaction, and those that nothing can undo any more. */
  datatype Ledger = Ledger(pending: nat, durable: nat)

  /** What DuckDB does with its writes: outside a transaction each is final at once. */
  function Booked(l: Ledger, s: Session, e: Event): Ledger
  {
    match e
    case DuckWrite => if s.duck.open then l.(pending := l.pending + 1) else l.(durable := l.durable + 1)
    case PreCommit(ok) =>
      if !s.duck.open || DidDisallowedMixedWrites(s) then l
      else Ledger(0, l.durable + if ok then l.pending else 0)
    case Abort(_) => l.(pending := 0)
    case _ => l
  }

  function BookedAll(l: Ledger, s: Session, es: seq<Event>): Ledger
    decreases |es|
  {
    if es == [] then l else BookedAll(Booked(l, s, es[0]), Next(s, es[0]), es[1..])
  }

  function Writes(es: seq<Event>): nat
  {
    if es == [] then 0 else (if es[0].DuckWrite? then 1 else 0) + Writes(es[1..])
  }

  /** Writes made while no DuckDB transaction was open. */
  function Autocommitted(s: Session, es: seq<Event>): nat
    decreases |es|
  {
    if es == [] then 0
    else (if es[0].DuckWrite? && !s.duck.open then 1 else 0) + Autocommitted(Next(s, es[0]), es[1..])
  }

  predicate LedgerInv(l: Ledger, s: Session)
  {
    (l.pending > 0 <==> s.duck.wrote) && (s.duck.wrote ==> s.duck.open)
  }

  lemma {:induction false} BookedStep(l: Ledger, s: Session, e: Event)
    requires LedgerInv(l, s) && Inside([e])
    ensures LedgerInv(Booked(l, s, e), Next(s, e))
  {
    assert [e][0] == e;
  }

  lemma {:induction false} InsideBooks(l: Ledger, s: Session, es: seq<Event>)
    requires LedgerInv(l, s) && Inside(es)
    ensures
      var r := BookedAll(l, s, es);
      && LedgerInv(r, After(s, es))
      && r.durable == l.durable + Autocommitted(s, es)
      && r.pending + r.durable == l.pending + l.durable + Writes(es)
    decreases |es|
  {
    if es != [] {
      assert Inside([es[0]]) && Inside(es[1..]);
      BookedStep(l, s, es[0]);
      InsideBooks(Booked(l, s, es[0]), Next(s, es[0]), es[1..]);
    }
  }

  lemma {:induction false} BooksInTurn(l: Ledger, s: Session, a: seq<Event>, b: seq<Event>)
    ensures BookedAll(l, s, a + b) == BookedAll(BookedAll(l, s, a), After(s, a), b)
    decreases |a|
  {
    if a == [] {
      assert a + b == b;
    } else {
      assert (a + b)[1..] == a[1..] + b;
      BooksInTurn(Booked(l, s, a[0]), Next(s, a[0]), a[1..], b);
    }
  }

  lemma {:induction false} EndBooks(l: Ledger, m: Session, e: Ending)
    ensures
      var r := BookedAll(l, m, EndEvents(e));
      && (e.Commits? ==> r == Booked(l, m, PreCommit(e.duckCommits)))
      && (e.Aborts? ==> r == Ledger(0, l.durable))
      && (e.AbortsLate? ==> r == Ledger(0, Booked(l, m, PreCommit(e.duckCommits)).durable))
  {
    match e
    case Commits(ok, b) => BookTwo(l, m, PreCommit(ok), Commit(b));
    case Aborts(b) => BookOne(l, m, Abort(b));
    case AbortsLate(ok, b) => BookTwo(l, m, PreCommit(ok), Abort(b));
  }

  lemma {:induction false} BookOne(l: Ledger, s: Session, e: Event)
    ensures BookedAll(l, s, [e]) == Booked(l, s, e)
  {
    assert [e][1..] == [];
    assert BookedAll(Booked(l, s, e), Next(s, e), []) == Booked(l, s, e);
  }

  lemma {:induction false} BookTwo(l: Ledger, s: Session, e: Event, f: Event)
    ensures BookedAll(l, s, [e, f]) == Booked(Booked(l, s, e), Next(s, e), f)
  {
    assert [e, f][1..] == [f];
    BookOne(Booked(l, s, e), Next(s, e), f);
  }

  /**
   A commit makes every DuckDB write of the transaction durable. After an abort a DuckDB write
   remains if and only if one was made outside a DuckDB transaction, or Postgres aborted after
   PRE_COMMIT had committed a DuckDB transaction with writes.
   */
  lemma {:induction false} EnginesDivergeExactly(s: Session, t: Transaction)
    requires AtStart(s) && !s.duck.open && !s.duck.wrote && Legal(s, t)
    ensures
      var m := After(s, t.inside);
      var durable := BookedAll(Ledger(0, 0), s, Events(t)).durable;
      && (t.ending.Commits? ==> durable == Writes(t.inside))
      && (!t.ending.Commits? ==>
            (durable > 0 <==>
              Autocommitted(s, t.inside) > 0 || (GetsPast(s, t) && t.ending.duckCommits && m.duck.wrote)))
  {
    var m := After(s, t.inside);
    EndsInTurn(s, t);
    InsideBooks(Ledger(0, 0), s, t.inside);
    ConnectionRun(s, t.inside);
    BooksInTurn(Ledger(0, 0), s, t.inside, EndEvents(t.ending));
    var l := BookedAll(Ledger(0, 0), s, t.inside);
    EndBooks(l, m, t.ending);
    if t.ending.Commits? {
      CommittedMeansBooked(l, m, t.ending.duckCommits);
    }
  }

  lemma {:induction false} CommittedMeansBooked(l: Ledger, m: Session, ok: bool)
    requires LedgerInv(l, m) && !Next(m, PreCommit(ok)).pg.failed && (m.duck.open ==> m.initialised)
    ensures Booked(l, m, PreCommit(ok)).durable == l.durable + l.pending
  {
  }

  /** It happens: DuckDB has committed its write, and Postgres aborts. */
  lemma {:induction false} LateAbortKeepsDuckWrite()
    ensures
      var t := Transaction([Connect(false), DuckWrite], AbortsLate(true, true));
      var s := FreshBackend(true);
      Legal(s, t) && BookedAll(Ledger(0, 0), s, Events(t)).durable > 0
  {
    var t := Transaction([Connect(false), DuckWrite], AbortsLate(true, true));
    var s := FreshBackend(true);
    TwoEvents(s, Connect(false), DuckWrite);
    RunsInTurn(s, t.inside, EndEvents(t.ending));
    TwoEvents(After(s, t.inside), PreCommit(true), Abort(true));
    EnginesDivergeExactly(s, t);
  }

  /** Without an initialised DuckDB the callback resets nothing: a stale expectation survives the abort. */
  lemma {:induction false} UninitialisedEndKeepsClaims()
    ensures
      var s := Next(FreshBackend(true), Claim(false));
      s.expected == 1 && Next(s, Abort(true)).expected == 1 && Next(s, Abort(true)).pg.cid == 0
  {
  }

  // ---------------------------------------------------------------- the variables of a backend

  /** The process-wide variables, next to the Postgres and DuckDB state they follow. */
  class Backend {
    var pg: Pg
    var duck: Duck
    var initialised: bool
    var nextExpectedCommandId: nat
    var forceAllowWrites: bool
    var temporaryTables: set<nat>
    var temporaryTablesOld: set<nat>
    var modifiedTemporaryTables: bool

    ghost function View(): Session
      reads this
    {
      Session(pg, initialised, nextExpectedCommandId, forceAllowWrites,
              Temp(temporaryTables, temporaryTablesOld, modifiedTemporaryTables), duck)
    }

    constructor (inBlock: bool)
      ensures View() == FreshBackend(inBlock)
    {
      pg, duck := Pg(0, false, inBlock, 0, Active, false), Duck(false, false);
      initialised, nextExpectedCommandId, forceAllowWrites := false, 0, false;
      temporaryTables, temporaryTablesOld, modifiedTemporaryTables := {}, {}, false;
    }

    method CommandCounterIncrement() returns (throws: bool)
      modifies this`pg
      ensures Effect(View(), throws) == Increment(old(View()))
    {
      if pg.used {
        if pg.cid >= LAST_COMMAND_ID {
          return true;
        }
        pg := pg.(cid := pg.cid + 1, used := false);
      }
      return false;
    }

    method Claim(force: bool) returns (throws: bool)
      modifies this`pg, this`nextExpectedCommandId
      ensures Effect(View(), throws) == ClaimCurrentCommandId(old(View()), force)
    {
      var newCommandId := pg.cid;
      pg := pg.(used := true);
      if newCommandId != nextExpectedCommandId && pg.inBlock && !forceAllowWrites && !force {
        return true;
      }
      throws := CommandCounterIncrement();
      if !throws {
        nextExpectedCommandId := pg.cid;
      }
    }

    method Connection(force: bool) returns (throws: bool)
      modifies this`initialised, this`duck
      ensures Effect(View(), throws) == GetConnection(old(View()), force)
    {
      initialised := true;
      if !duck.open {
        if pg.subDepth > 0 {
          return true;
        }
        if force || pg.inBlock {
          duck := Duck(true, false);
        }
      }
      return false;
    }

    method SaveTemporaryTables()
      modifies this`temporaryTablesOld, this`modifiedTemporaryTables
      ensures View() == old(View()).(temp := SaveTemp(old(View()).temp))
    {
      if !modifiedTemporaryTables {
        modifiedTemporaryTables := true;
        temporaryTablesOld := temporaryTables;
      }
    }

    method RegisterDuckdbTempTable(relid: nat)
      modifies this`temporaryTables, this`temporaryTablesOld, this`modifiedTemporaryTables
      ensures View() == Apply(old(View()), RegisterTemp(relid)).session
      ensures relid in temporaryTables
    {
      SaveTemporaryTables();
      temporaryTables := temporaryTables + {relid};
    }

    method UnregisterDuckdbTempTable(relid: nat)
      modifies this`temporaryTables, this`temporaryTablesOld, this`modifiedTemporaryTables
      ensures View() == Apply(old(View()), UnregisterTemp(relid)).session
      ensures relid !in temporaryTables
    {
      SaveTemporaryTables();
      temporaryTables := temporaryTables - {relid};
    }

    /** The PRE_COMMIT case; `duckCommits` is whether committing the DuckDB transaction succeeds. */
    method OnPreCommit(duckCommits: bool) returns (throws: bool)
      modifies this
      ensures Effect(View(), throws) == PreCommitCallback(old(View()), duckCommits)
    {
      if !initialised {
        return false;
      }
      if pg.inBlock && !forceAllowWrites && pg.cid > nextExpectedCommandId && duck.open && duck.wrote {
        return true;
      }
      nextExpectedCommandId := 0;
      forceAllowWrites := false;
      if modifiedTemporaryTables {
        modifiedTemporaryTables := false;
        temporaryTablesOld := {};
      }
      if duck.open {
        duck := Duck(false, false);
        return !duckCommits;
      }
      return false;
    }

    method OnAbort()
      modifies this
      ensures View() == AbortCallback(old(View()))
    {
      if !initialised {
        return;
      }
      nextExpectedCommandId := 0;
      forceAllowWrites := false;
      if modifiedTemporaryTables {
        modifiedTemporaryTables := false;
        temporaryTables := temporaryTablesOld;
        temporaryTablesOld := {};
      }
      duck := Duck(false, false);
    }
  }
}
