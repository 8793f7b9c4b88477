/**
 One round of the MotherDuck catalog sync: shell relations are created for everything upstream, and
 version-stamped shell relations that the round did not renew are dropped. Utility commands may fail
 at any point; a failed one leaves an arbitrary wreck for the subtransaction rollback to undo.
 Drops are without CASCADE.
 */
module CatalogSync {
  import opened Results
  import opened SchemaCodec

  const NAMEDATALEN: nat := 64

  datatype Kind = Table | View
  datatype Key = Key(schema: string, name: string)

  /** The row in duckdb.tables; `version` is NULL for relations not made by the sync. */
  datatype Stamp = Stamp(db: string, version: Option<string>, defaultDb: string)

  /** A relation of the Postgres catalog; MotherDuck relations carry a stamp. */
  datatype Relation = Relation(id: nat, kind: Kind, stamp: Option<Stamp>)

  datatype Catalog = Catalog(schemas: set<string>, relations: map<Key, Relation>)

  /** What one utility command does: it succeeds (a created relation gets `id`), or it raises. */
  datatype Outcome = Succeeds(id: nat) | Raises(wreck: Catalog)

  /** The environment: the outcome of the n-th command, privileges, and the row order of cursors. */
  datatype World = World(outcome: nat -> Outcome, canCreate: string -> bool, grantsUsage: bool, cursor: Catalog -> seq<Key>)

  datatype Entry = Entry(name: string, kind: Kind, printable: bool)
  datatype Upstream = Upstream(name: string, entries: seq<Entry>)

  datatype Round = Round(db: string, version: string, defaultDb: string, world: World)

  /** The catalog and the number of commands run so far. */
  datatype State = State(catalog: Catalog, clock: nat)

  // ---------------------------------------------------------------- names and stamps

  predicate IsDefault(r: Round) { r.db == r.defaultDb }

  function PgName(r: Round, schema: string): string { PgSchemaName(r.db, schema, IsDefault(r)) }

  /** The database that the create trigger reads back from the schema name. */
  function DatabaseOf(schema: string, defaultDb: string): Result<string>
  {
    match DecodeName(schema, Some("duckdb"), defaultDb, true)
    case Ok((db, _)) => Ok(db)
    case Err => Err
  }

  predicate IsFresh(r: Round, k: Key, rel: Relation)
  {
    && DatabaseOf(k.schema, r.defaultDb).Ok?
    && rel.stamp == Some(Stamp(DatabaseOf(k.schema, r.defaultDb).value, Some(r.version), r.defaultDb))
  }

  /** The WHERE clause of the query for outdated relations; a NULL version compares as unknown. */
  predicate IsStale(r: Round, rel: Relation)
  {
    rel.stamp.Some? && rel.stamp.value.db == r.db
    && ((rel.stamp.value.version.Some? && rel.stamp.value.version.value != r.version)
        || rel.stamp.value.defaultDb != r.defaultDb)
  }

  /** The cursor returns exactly the rows of the query. */
  ghost predicate Lawful(r: Round)
  {
    forall c: Catalog, k: Key {:trigger k in r.world.cursor(c)} ::
      k in r.world.cursor(c) <==> k in c.relations && IsStale(r, c.relations[k])
  }

  predicate Skipped(r: Round, schema: string)
  {
    schema == "information_schema" || schema == "pg_catalog" || (schema == "public" && IsDefault(r))
  }

  /** The relations that should exist for these entries, with their kinds; the last entry of a name counts. */
  function EntryKinds(schema: string, entries: seq<Entry>): map<Key, Kind>
  {
    if entries == [] then map[]
    else
      var last := entries[|entries| - 1];
      var before := EntryKinds(schema, entries[..|entries| - 1]);
      if last.printable then before[Key(schema, last.name) := last.kind] else before
  }

  function SchemaKinds(r: Round, schema: Upstream): map<Key, Kind>
  {
    if Skipped(r, schema.name) then map[] else EntryKinds(PgName(r, schema.name), schema.entries)
  }

  /** The relations that should exist for these upstream schemas, with their kinds. */
  function UpstreamKinds(r: Round, schemas: seq<Upstream>): map<Key, Kind>
  {
    if schemas == [] then map[]
    else UpstreamKinds(r, schemas[..|schemas| - 1]) + SchemaKinds(r, schemas[|schemas| - 1])
  }

  function UpstreamKeys(r: Round, schemas: seq<Upstream>): set<Key> { UpstreamKinds(r, schemas).Keys }

  // ---------------------------------------------------------------- commands

  /** CREATE TABLE or CREATE VIEW with its trigger, which raises on a schema name it cannot decode. */
  function RunCreate(r: Round, s: State, k: Key, kind: Kind): (State, bool)
  {
    match (r.world.outcome(s.clock), DatabaseOf(k.schema, r.defaultDb))
    case (Succeeds(id), Ok(db)) =>
      var rel := Relation(id, kind, Some(Stamp(db, Some(r.version), r.defaultDb)));
      (State(s.catalog.(relations := s.catalog.relations[k := rel]), s.clock + 1), true)
    case _ => (s.(clock := s.clock + 1), false)
  }

  /** CreateTable and CreateView, as one step on the committed catalog. */
  function CreateRelation(r: Round, s: State, k: Key, kind: Kind): (State, bool)
  {
    if |k.name| > NAMEDATALEN - 1 then (s, false)
    else if k !in s.catalog.relations then RunCreate(r, s, k, kind)
    else if s.catalog.relations[k].stamp.None? then (s, false)
    else if r.world.outcome(s.clock).Raises? then (s.(clock := s.clock + 1), false)
    else RunCreate(r, s.(clock := s.clock + 1), k, kind)
  }

  /** GRANT ALL and, where configured, GRANT USAGE. */
  function Grant(r: Round, s: State): (State, bool)
  {
    if r.world.outcome(s.clock).Raises? || !r.world.grantsUsage then
      (s.(clock := s.clock + 1), r.world.outcome(s.clock).Succeeds?)
    else (s.(clock := s.clock + 2), r.world.outcome(s.clock + 1).Succeeds?)
  }

  function CreateSchemaIfNotExists(r: Round, s: State, schema: string): (State, bool)
  {
    if |schema| > NAMEDATALEN - 1 then (s, false)
    else if schema in s.catalog.schemas then
      if r.world.canCreate(schema) then (s, true) else if IsDefault(r) then (s, false) else Grant(r, s)
    else if r.world.outcome(s.clock).Raises? then (s.(clock := s.clock + 1), false)
    else
      var (granted, ok) := Grant(r, s.(clock := s.clock + 1));
      (if ok then granted.(catalog := s.catalog.(schemas := s.catalog.schemas + {schema})) else granted, ok)
  }

  // ---------------------------------------------------------------- the round

  /** `ok` is the success flag; `made` what was created, and as what; `reached` the schemas that were available. */
  datatype Progress = Progress(state: State, ok: bool, made: map<Key, Kind>, reached: seq<Upstream>)

  function CreateEntries(r: Round, p: Progress, schema: string, entries: seq<Entry>): Progress
    decreases |entries|
  {
    if entries == [] then p
    else
      var before := CreateEntries(r, p, schema, entries[..|entries| - 1]);
      CreateEntry(r, before, schema, entries[|entries| - 1])
  }

  function CreateEntry(r: Round, p: Progress, schema: string, e: Entry): Progress
  {
    if !e.printable then p
    else
      var (s, ok) := CreateRelation(r, p.state, Key(schema, e.name), e.kind);
      p.(state := s, ok := p.ok && ok, made := if ok then p.made[Key(schema, e.name) := e.kind] else p.made)
  }

  function SyncSchema(r: Round, p: Progress, schema: Upstream): Progress
  {
    if Skipped(r, schema.name) then p.(reached := p.reached + [schema])
    else
      var (s, available) := CreateSchemaIfNotExists(r, p.state, PgName(r, schema.name));
      if !available then p.(state := s)
      else CreateEntries(r, p.(state := s, reached := p.reached + [schema]), PgName(r, schema.name), schema.entries)
  }

  function SyncSchemas(r: Round, p: Progress, schemas: seq<Upstream>): Progress
    decreases |schemas|
  {
    if schemas == [] then p
    else SyncSchema(r, SyncSchemas(r, p, schemas[..|schemas| - 1]), schemas[|schemas| - 1])
  }

  /** The drops, with the success of all of them. */
  function DropRows(r: Round, s: State, rows: seq<Key>): (State, bool)
    decreases |rows|
  {
    if rows == [] then (s, true)
    else
      var (before, ok) := DropRows(r, s, rows[..|rows| - 1]);
      if r.world.outcome(before.clock).Raises? then (before.(clock := before.clock + 1), false)
      else (State(WithoutRelation(before.catalog, rows[|rows| - 1]), before.clock + 1), ok)
  }

  lemma {:induction false} DropOneMore(r: Round, s: State, rows: seq<Key>, n: nat)
    requires n < |rows|
    ensures
      var (before, ok) := DropRows(r, s, rows[..n]);
      DropRows(r, s, rows[..n + 1])
        == if r.world.outcome(before.clock).Raises? then (before.(clock := before.clock + 1), false)
           else (State(WithoutRelation(before.catalog, rows[n]), before.clock + 1), ok)
  {
    assert rows[..n + 1][..n] == rows[..n];
  }

  function WithoutRelation(c: Catalog, k: Key): Catalog
  {
    c.(relations := c.relations - {k})
  }

  /** `dropped` says that the clean-up ran and every drop succeeded. */
  datatype Finished = Finished(progress: Progress, state: State, dropped: bool)

  function SyncDatabase(r: Round, s: State, schemas: seq<Upstream>): Finished
  {
    var p := SyncSchemas(r, Progress(s, true, map[], []), schemas);
    if !p.ok then Finished(p, p.state, false)
    else
      var (end, ok) := DropRows(r, p.state, r.world.cursor(p.state.catalog));
      Finished(p, end, ok)
  }

  // ---------------------------------------------------------------- what creation does

  /**
   A failed creation changes nothing; a successful one replaces exactly its own MotherDuck relation, by
   one of the kind asked for, with the identity that its last command gave it.
   */
  lemma {:induction false} CreationIsAtomic(r: Round, s: State, k: Key, kind: Kind)
    ensures
      var (next, ok) := CreateRelation(r, s, k, kind);
      && (!ok ==> next.catalog == s.catalog)
      && (ok ==>
            && next.catalog.schemas == s.catalog.schemas
            && k in next.catalog.relations && IsFresh(r, k, next.catalog.relations[k])
            && next.catalog.relations[k].kind == kind
            && next.clock > s.clock && r.world.outcome(next.clock - 1) == Succeeds(next.catalog.relations[k].id)
            && next.catalog.relations == s.catalog.relations[k := next.catalog.relations[k]]
            && (k in s.catalog.relations ==> s.catalog.relations[k].stamp.Some?))
  {
  }

  /**
   When a creation succeeds: the name has at most 63 characters, no relation that is not MotherDuck's has
   it, the schema name can be decoded, and the commands succeed, which are two when something is replaced.
   */
  lemma {:induction false} CreationSucceedsExactly(r: Round, s: State, k: Key, kind: Kind)
    ensures CreateRelation(r, s, k, kind).1
      <==> && |k.name| <= 63
           && (k in s.catalog.relations ==> s.catalog.relations[k].stamp.Some? && r.world.outcome(s.clock + 1).Succeeds?)
           && DatabaseOf(k.schema, r.defaultDb).Ok? && r.world.outcome(s.clock).Succeeds?
  {
  }

  /** Relative to the catalog before the round: relations made are fresh and of their kind, all others are as they were. */
  ghost predicate Grown(r: Round, start: Catalog, p: Progress)
  {
    && (forall k :: k in p.state.catalog.relations <==> k in start.relations || k in p.made)
    && (forall k :: k in p.made ==> IsFresh(r, k, p.state.catalog.relations[k]) && p.state.catalog.relations[k].kind == p.made[k])
    && (forall k :: k in start.relations && k !in p.made ==> p.state.catalog.relations[k] == start.relations[k])
    && (forall k :: k in p.made && k in start.relations ==> start.relations[k].stamp.Some?)
  }

  lemma {:induction false} EntryGrows(r: Round, start: Catalog, p: Progress, schema: string, e: Entry)
    requires Grown(r, start, p)
    ensures Grown(r, start, CreateEntry(r, p, schema, e))
  {
    if e.printable {
      var k := Key(schema, e.name);
      CreationIsAtomic(r, p.state, k, e.kind);
      if k in p.state.catalog.relations && k !in p.made {
        assert p.state.catalog.relations[k] == start.relations[k];
      }
    }
  }

  lemma {:induction false} EntriesGrow(r: Round, start: Catalog, p: Progress, schema: string, entries: seq<Entry>)
    requires Grown(r, start, p)
    ensures Grown(r, start, CreateEntries(r, p, schema, entries))
    decreases |entries|
  {
    if entries != [] {
      var n := |entries| - 1;
      EntriesGrow(r, start, p, schema, entries[..n]);
      EntryGrows(r, start, CreateEntries(r, p, schema, entries[..n]), schema, entries[n]);
    }
  }

  /** The bookkeeping of one schema: what it made, and whether all of it. */
  lemma {:induction false} EntriesTally(r: Round, p: Progress, schema: string, entries: seq<Entry>)
    ensures
      var q := CreateEntries(r, p, schema, entries);
      && q.reached == p.reached && (q.ok ==> p.ok)
      && p.made.Keys <= q.made.Keys <= p.made.Keys + EntryKinds(schema, entries).Keys
      && (q.ok ==> q.made == p.made + EntryKinds(schema, entries))
    decreases |entries|
  {
    if entries != [] {
      var n := |entries| - 1;
      EntriesTally(r, p, schema, entries[..n]);
      var k := Key(schema, entries[n].name);
      assert p.made + EntryKinds(schema, entries[..n])[k := entries[n].kind]
          == (p.made + EntryKinds(schema, entries[..n]))[k := entries[n].kind];
    }
  }

  // ---------------------------------------------------------------- what upstream asks for

  /** Position (i, j) is a printable entry of schema i, which is not one of the schemas left out. */
  predicate Asks(r: Round, schemas: seq<Upstream>, i: int, j: int, k: Key)
  {
    && 0 <= i < |schemas| && 0 <= j < |schemas[i].entries| && schemas[i].entries[j].printable
    && schemas[i].name !in {"information_schema", "pg_catalog"} && (schemas[i].name == "public" ==> r.db != r.defaultDb)
    && k == Key(PgName(r, schemas[i].name), schemas[i].entries[j].name)
  }

  ghost predicate AsksLast(r: Round, schemas: seq<Upstream>, i: int, j: int, k: Key)
  {
    && Asks(r, schemas, i, j, k)
    && forall i2, j2 :: Asks(r, schemas, i2, j2, k) ==> i2 < i || (i2 == i && j2 <= j)
  }

  lemma {:induction false} EntryKindsExactly(schema: string, entries: seq<Entry>, k: Key)
    ensures k !in EntryKinds(schema, entries)
      ==> forall j :: 0 <= j < |entries| && entries[j].printable ==> k != Key(schema, entries[j].name)
    ensures k in EntryKinds(schema, entries)
      ==> exists j ::
            && 0 <= j < |entries| && entries[j].printable && k == Key(schema, entries[j].name)
            && entries[j].kind == EntryKinds(schema, entries)[k]
            && forall j2 :: j < j2 < |entries| && entries[j2].printable ==> k != Key(schema, entries[j2].name)
    decreases |entries|
  {
    if entries != [] {
      var n := |entries| - 1;
      var before := entries[..n];
      EntryKindsExactly(schema, before, k);
      assert forall j :: 0 <= j < n ==> before[j] == entries[j];
      if k in EntryKinds(schema, entries) {
        if entries[n].printable && k == Key(schema, entries[n].name) {
          assert EntryKinds(schema, entries)[k] == entries[n].kind;
        } else {
          var j :| && 0 <= j < n && before[j].printable && k == Key(schema, before[j].name)
            && before[j].kind == EntryKinds(schema, before)[k]
            && forall j2 :: j < j2 < n && before[j2].printable ==> k != Key(schema, before[j2].name);
          assert entries[j] == before[j];
        }
      }
    }
  }

  /**
   Read off the list: a relation should exist exactly when some entry asks for it, and its kind is that
   of the last such entry.
   */
  lemma {:induction false} UpstreamKindsExactly(r: Round, schemas: seq<Upstream>, k: Key)
    ensures k !in UpstreamKinds(r, schemas) ==> forall i, j :: !Asks(r, schemas, i, j, k)
    ensures k in UpstreamKinds(r, schemas)
      ==> exists i, j :: AsksLast(r, schemas, i, j, k) && schemas[i].entries[j].kind == UpstreamKinds(r, schemas)[k]
    decreases |schemas|
  {
    if schemas != [] {
      var n := |schemas| - 1;
      var before := schemas[..n];
      UpstreamKindsExactly(r, before, k);
      EarlierAsks(r, schemas, k);
      LastAsks(r, schemas, k);
      if k in SchemaKinds(r, schemas[n]) {
        var j :| Asks(r, schemas, n, j, k) && schemas[n].entries[j].kind == SchemaKinds(r, schemas[n])[k]
          && forall j2 :: Asks(r, schemas, n, j2, k) ==> j2 <= j;
        assert AsksLast(r, schemas, n, j, k);
      } else if k in UpstreamKinds(r, before) {
        var i, j :| AsksLast(r, before, i, j, k) && before[i].entries[j].kind == UpstreamKinds(r, before)[k];
        assert AsksLast(r, schemas, i, j, k);
      }
    }
  }

  lemma {:induction false} AskedExactly(r: Round, schemas: seq<Upstream>, k: Key)
    ensures k in UpstreamKeys(r, schemas) <==> exists i, j :: AsksLast(r, schemas, i, j, k)
    ensures forall i, j :: AsksLast(r, schemas, i, j, k) ==>
      k in UpstreamKeys(r, schemas) && schemas[i].entries[j].kind == UpstreamKinds(r, schemas)[k]
  {
    UpstreamKindsExactly(r, schemas, k);
    forall i, j | AsksLast(r, schemas, i, j, k)
      ensures k in UpstreamKeys(r, schemas) && schemas[i].entries[j].kind == UpstreamKinds(r, schemas)[k]
    {
      var i1, j1 :| AsksLast(r, schemas, i1, j1, k) && schemas[i1].entries[j1].kind == UpstreamKinds(r, schemas)[k];
      assert i1 == i && j1 == j;
    }
  }

  lemma {:induction false} EarlierAsks(r: Round, schemas: seq<Upstream>, k: Key)
    requires schemas != []
    ensures forall i, j :: Asks(r, schemas[..|schemas| - 1], i, j, k) <==> i < |schemas| - 1 && Asks(r, schemas, i, j, k)
  {
  }

  lemma {:induction false} LastAsks(r: Round, schemas: seq<Upstream>, k: Key)
    requires schemas != []
    ensures
      var n := |schemas| - 1;
      && (k !in SchemaKinds(r, schemas[n]) ==> forall j :: !Asks(r, schemas, n, j, k))
      && (k in SchemaKinds(r, schemas[n]) ==>
            exists j ::
              && Asks(r, schemas, n, j, k) && schemas[n].entries[j].kind == SchemaKinds(r, schemas[n])[k]
              && forall j2 :: Asks(r, schemas, n, j2, k) ==> j2 <= j)
  {
    var n := |schemas| - 1;
    var last := schemas[n];
    var schema := PgName(r, last.name);
    EntryKindsExactly(schema, last.entries, k);
    if k in SchemaKinds(r, last) {
      var j :| && 0 <= j < |last.entries| && last.entries[j].printable && k == Key(schema, last.entries[j].name)
        && last.entries[j].kind == SchemaKinds(r, last)[k]
        && forall j2 :: j < j2 < |last.entries| && last.entries[j2].printable ==> k != Key(schema, last.entries[j2].name);
      assert Asks(r, schemas, n, j, k);
    }
  }

  // ---------------------------------------------------------------- what the creations add

  /** What was made belongs to the schemas reached; it is all of it while the flag stays set. */
  ghost predicate Tallied(r: Round, start: Catalog, p: Progress)
  {
    Grown(r, start, p) && p.made.Keys <= UpstreamKeys(r, p.reached) && (p.ok ==> p.made == UpstreamKinds(r, p.reached))
  }

  /** Only relations of upstream schemas that were available are made, and all of them when the flag stays set. */
  lemma {:induction false} SchemasGrow(r: Round, s: State, schemas: seq<Upstream>)
    ensures
      var p := SyncSchemas(r, Progress(s, true, map[], []), schemas);
      Tallied(r, s.catalog, p) && UpstreamKeys(r, p.reached) <= UpstreamKeys(r, schemas)
    decreases |schemas|
  {
    if schemas != [] {
      var n := |schemas| - 1;
      SchemasGrow(r, s, schemas[..n]);
      var before := SyncSchemas(r, Progress(s, true, map[], []), schemas[..n]);
      SchemaGrows(r, s.catalog, before, schemas[n]);
      ReachedOneMore(r, before.reached, schemas[n]);
    }
  }

  lemma {:induction false} SchemaGrows(r: Round, start: Catalog, p: Progress, schema: Upstream)
    requires Tallied(r, start, p)
    ensures Tallied(r, start, SyncSchema(r, p, schema))
    ensures SyncSchema(r, p, schema).reached in {p.reached, p.reached + [schema]}
  {
    ReachedOneMore(r, p.reached, schema);
    if !Skipped(r, schema.name) {
      var name := PgName(r, schema.name);
      var (s, available) := CreateSchemaIfNotExists(r, p.state, name);
      SameRelations(r, p.state, name);
      if available {
        AvailableGrows(r, start, p, p.(state := s, reached := p.reached + [schema]), schema);
      } else {
        StillTallied(r, start, p, p.(state := s));
      }
    } else {
      assert UpstreamKinds(r, p.reached) + map[] == UpstreamKinds(r, p.reached);
      StillTallied(r, start, p, p.(reached := p.reached + [schema]));
    }
  }

  lemma {:induction false} StillTallied(r: Round, start: Catalog, p: Progress, q: Progress)
    requires Tallied(r, start, p) && q.state.catalog.relations == p.state.catalog.relations
    requires q.ok == p.ok && q.made == p.made && UpstreamKinds(r, q.reached) == UpstreamKinds(r, p.reached)
    ensures Tallied(r, start, q)
  {
  }

  lemma {:induction false} AvailableGrows(r: Round, start: Catalog, p: Progress, q: Progress, schema: Upstream)
    requires Tallied(r, start, p) && !Skipped(r, schema.name) && q.state.catalog.relations == p.state.catalog.relations
    requires q.ok == p.ok && q.made == p.made && q.reached == p.reached + [schema]
    ensures
      var end := CreateEntries(r, q, PgName(r, schema.name), schema.entries);
      Tallied(r, start, end) && end.reached == q.reached
  {
    ReachedOneMore(r, p.reached, schema);
    EntriesGrow(r, start, q, PgName(r, schema.name), schema.entries);
    EntriesTally(r, q, PgName(r, schema.name), schema.entries);
  }

  lemma {:induction false} SameRelations(r: Round, s: State, schema: string)
    ensures CreateSchemaIfNotExists(r, s, schema).0.catalog.relations == s.catalog.relations
  {
  }

  lemma {:induction false} ReachedOneMore(r: Round, reached: seq<Upstream>, schema: Upstream)
    ensures UpstreamKinds(r, reached + [schema]) == UpstreamKinds(r, reached) + SchemaKinds(r, schema)
    ensures UpstreamKinds(r, [schema]) == SchemaKinds(r, schema)
  {
    assert (reached + [schema])[..|reached|] == reached;
    assert [schema][..0] == [];
  }

  // ---------------------------------------------------------------- what the clean-up does

  /** Only rows of the cursor disappear; after successful drops all of them have. */
  lemma {:induction false} DropsExactly(r: Round, s: State, rows: seq<Key>)
    ensures
      var (end, ok) := DropRows(r, s, rows);
      && end.catalog.schemas == s.catalog.schemas
      && (forall k :: k in end.catalog.relations ==> k in s.catalog.relations && end.catalog.relations[k] == s.catalog.relations[k])
      && (forall k :: k in s.catalog.relations && k !in rows ==> k in end.catalog.relations)
      && (ok ==> forall k :: k in rows ==> k !in end.catalog.relations)
    decreases |rows|
  {
    if rows != [] {
      var n := |rows| - 1;
      DropsExactly(r, s, rows[..n]);
      assert rows == rows[..n] + [rows[n]];
    }
  }

  /** A fresh relation is never outdated. */
  lemma {:induction false} FreshIsNotStale(r: Round, k: Key, rel: Relation)
    requires IsFresh(r, k, rel)
    ensures !IsStale(r, rel)
  {
  }

  // ---------------------------------------------------------------- safety of every round

  /**
   Whatever fails: relations that are not MotherDuck's keep their entry, everything made in the round
   is still there at the end, and a relation disappears only in a round whose flag stayed set, if it
   was outdated and not renewed. Every relation at the end is an old one, unchanged, or a fresh one
   for an upstream entry.
   */
  lemma {:induction false} RoundIsSafe(r: Round, s: State, schemas: seq<Upstream>)
    requires Lawful(r)
    ensures
      var f := SyncDatabase(r, s, schemas);
      var was := s.catalog.relations;
      var now := f.state.catalog.relations;
      && (forall k :: k in was && was[k].stamp.None? ==> k in now && now[k] == was[k])
      && (forall k :: k in f.progress.made ==> k in now && IsFresh(r, k, now[k]) && now[k].kind == f.progress.made[k])
      && (forall k :: k in was && k !in now ==> f.progress.ok && IsStale(r, was[k]) && k !in f.progress.made)
      && (forall k :: k in now ==> (k in was && now[k] == was[k]) || (k in f.progress.made && k in UpstreamKeys(r, schemas)))
  {
    SchemasGrow(r, s, schemas);
    var p := SyncSchemas(r, Progress(s, true, map[], []), schemas);
    if p.ok {
      var c := p.state.catalog;
      DropsExactly(r, p.state, r.world.cursor(c));
      forall k | k in p.made ensures k !in r.world.cursor(c) {
        FreshIsNotStale(r, k, c.relations[k]);
      }
    }
  }

  // ---------------------------------------------------------------- agreement with upstream

  predicate StampedFor(db: string, rel: Relation)
  {
    rel.stamp.Some? && rel.stamp.value.db == db && rel.stamp.value.version.Some?
  }

  predicate IsCurrent(r: Round, rel: Relation)
  {
    rel.stamp == Some(Stamp(r.db, Some(r.version), r.defaultDb))
  }

  /**
   After a round whose creations and drops all succeeded, the version-stamped relations of the
   database are exactly: the upstream entries of the schemas that were available and whose name
   decodes to this database, and relations that already carried the current stamp. All of them are
   at the current version and default database, and the first are of the kind they have upstream.
   */
  lemma {:induction false} RoundIsExact(r: Round, s: State, schemas: seq<Upstream>, k: Key)
    requires Lawful(r) && SyncDatabase(r, s, schemas).dropped
    ensures
      var f := SyncDatabase(r, s, schemas);
      var was := s.catalog.relations;
      var now := f.state.catalog.relations;
      && (k in now && StampedFor(r.db, now[k]) <==>
            if k in UpstreamKeys(r, f.progress.reached) then DatabaseOf(k.schema, r.defaultDb) == Ok(r.db)
            else k in was && IsCurrent(r, was[k]))
      && (k in now && StampedFor(r.db, now[k]) ==> IsCurrent(r, now[k]))
      && (k in UpstreamKeys(r, f.progress.reached) ==> k in now && now[k].kind == UpstreamKinds(r, f.progress.reached)[k])
  {
    SchemasGrow(r, s, schemas);
    var p := SyncSchemas(r, Progress(s, true, map[], []), schemas);
    var c := p.state.catalog;
    DropsExactly(r, p.state, r.world.cursor(c));
    assert k in r.world.cursor(c) <==> k in c.relations && IsStale(r, c.relations[k]);
    if k in p.made {
      FreshIsNotStale(r, k, c.relations[k]);
    } else if k in s.catalog.relations {
      CurrentUnlessStale(r, s.catalog.relations[k]);
    }
  }

  lemma {:induction false} CurrentUnlessStale(r: Round, rel: Relation)
    ensures StampedFor(r.db, rel) && !IsStale(r, rel) <==> IsCurrent(r, rel)
  {
  }

  /** Names under which the create trigger finds its way back to the database. */
  predicate NamesRoundTrip(r: Round, schemas: seq<Upstream>)
  {
    forall i :: 0 <= i < |schemas| ==>
      if IsDefault(r) then schemas[i].name != "pg_temp" && !("ddb$" <= schemas[i].name) else RoundTrips(r.db, schemas[i].name)
  }

  lemma {:induction false} NameFindsDatabase(r: Round, schema: string)
    requires if IsDefault(r) then schema != "pg_temp" && !("ddb$" <= schema) else RoundTrips(r.db, schema)
    ensures DatabaseOf(PgName(r, schema), r.defaultDb) == Ok(r.db)
  {
    if IsDefault(r) {
      DefaultFindsDatabase(r.db, schema);
    } else {
      NameRoundTripExactly(r.db, schema, r.defaultDb);
    }
  }

  lemma {:induction false} UpstreamKeysDecode(r: Round, schemas: seq<Upstream>, k: Key)
    requires NamesRoundTrip(r, schemas) && k in UpstreamKeys(r, schemas)
    ensures DatabaseOf(k.schema, r.defaultDb) == Ok(r.db)
  {
    var i := KeyHasSchema(r, schemas, k);
    NameFindsDatabase(r, schemas[i].name);
  }

  /**
   Agreement: when additionally every schema was available, the names round trip, and no relation
   outside upstream carried the current stamp before, the version-stamped relations of the database
   are exactly the upstream entries, each of the kind of its last entry.
   */
  lemma {:induction false} RoundAgrees(r: Round, s: State, schemas: seq<Upstream>)
    requires Lawful(r) && SyncDatabase(r, s, schemas).dropped
    requires SyncDatabase(r, s, schemas).progress.reached == schemas && NamesRoundTrip(r, schemas)
    requires forall k :: k in s.catalog.relations && IsCurrent(r, s.catalog.relations[k]) ==> k in UpstreamKeys(r, schemas)
    ensures
      var now := SyncDatabase(r, s, schemas).state.catalog.relations;
      && (forall k :: k in UpstreamKeys(r, schemas) <==> k in now && StampedFor(r.db, now[k]))
      && (forall k :: k in UpstreamKeys(r, schemas) ==> IsCurrent(r, now[k]) && now[k].kind == UpstreamKinds(r, schemas)[k])
  {
    var now := SyncDatabase(r, s, schemas).state.catalog.relations;
    forall k: Key
      ensures k in UpstreamKeys(r, schemas) <==> k in now && StampedFor(r.db, now[k])
      ensures k in UpstreamKeys(r, schemas) ==> IsCurrent(r, now[k]) && now[k].kind == UpstreamKinds(r, schemas)[k]
    {
      RoundIsExact(r, s, schemas, k);
      if k in UpstreamKeys(r, schemas) {
        UpstreamKeysDecode(r, schemas, k);
      }
    }
  }

  /**
   What a round that cleaned up keeps of the relations it did not make: those that are not MotherDuck's,
   those of other databases, and, under the same default database, those without a version and those of
   the current one.
   */
  lemma {:induction false} KeptExactly(r: Round, s: State, schemas: seq<Upstream>, k: Key)
    requires Lawful(r) && SyncDatabase(r, s, schemas).dropped && k in s.catalog.relations
    requires k !in UpstreamKeys(r, SyncDatabase(r, s, schemas).progress.reached)
    ensures
      var was := s.catalog.relations[k].stamp;
      k in SyncDatabase(r, s, schemas).state.catalog.relations
      <==> was.None? || was.value.db != r.db
           || (was.value.defaultDb == r.defaultDb && was.value.version in {None, Some(r.version)})
  {
    SchemasGrow(r, s, schemas);
    var p := SyncSchemas(r, Progress(s, true, map[], []), schemas);
    DropsExactly(r, p.state, r.world.cursor(p.state.catalog));
    assert k in r.world.cursor(p.state.catalog) <==> k in p.state.catalog.relations && IsStale(r, p.state.catalog.relations[k]);
  }

  /**
   A schema that could not be made available does not clear the flag, so after a fully successful
   clean-up a live relation with an outdated stamp is gone exactly when no available schema lists it.
   */
  lemma {:induction false} LiveRelationLost(r: Round, s: State, schemas: seq<Upstream>, k: Key)
    requires Lawful(r) && SyncDatabase(r, s, schemas).dropped
    requires k in UpstreamKeys(r, schemas) && k in s.catalog.relations && IsStale(r, s.catalog.relations[k])
    ensures k !in SyncDatabase(r, s, schemas).state.catalog.relations
       <==> k !in UpstreamKeys(r, SyncDatabase(r, s, schemas).progress.reached)
  {
    RoundIsSafe(r, s, schemas);
    SchemasGrow(r, s, schemas);
    var p := SyncSchemas(r, Progress(s, true, map[], []), schemas);
    DropsExactly(r, p.state, r.world.cursor(p.state.catalog));
    if k !in p.made {
      assert k in r.world.cursor(p.state.catalog);
    }
  }

  /**
   The schema cannot be made available, whatever the commands do: its Postgres name is too long, or
   it exists in the default database and the MotherDuck user may not create tables in it.
   */
  predicate Denied(r: Round, c: Catalog, name: string)
  {
    |name| > NAMEDATALEN - 1 || (name in c.schemas && !r.world.canCreate(name) && IsDefault(r))
  }

  /** When no command raises, these are exactly the schemas that are not available. */
  lemma {:induction false} AvailableExactly(r: Round, s: State, name: string)
    ensures Denied(r, s.catalog, name) ==> !CreateSchemaIfNotExists(r, s, name).1
    ensures (forall n :: r.world.outcome(n).Succeeds?) ==> (CreateSchemaIfNotExists(r, s, name).1 <==> !Denied(r, s.catalog, name))
  {
  }

  lemma {:induction false} SchemasOnlyGrow(r: Round, p: Progress, schema: Upstream)
    ensures p.state.catalog.schemas <= SyncSchema(r, p, schema).state.catalog.schemas
  {
    if !Skipped(r, schema.name) {
      var (s, available) := CreateSchemaIfNotExists(r, p.state, PgName(r, schema.name));
      EntriesKeepSchemas(r, p.(state := s, reached := p.reached + [schema]), PgName(r, schema.name), schema.entries);
    }
  }

  lemma {:induction false} EntriesKeepSchemas(r: Round, p: Progress, schema: string, entries: seq<Entry>)
    ensures CreateEntries(r, p, schema, entries).state.catalog.schemas == p.state.catalog.schemas
    ensures CreateEntries(r, p, schema, entries).reached == p.reached
    decreases |entries|
  {
    if entries != [] {
      var before := CreateEntries(r, p, schema, entries[..|entries| - 1]);
      var e := entries[|entries| - 1];
      EntriesKeepSchemas(r, p, schema, entries[..|entries| - 1]);
      CreationIsAtomic(r, before.state, Key(schema, e.name), e.kind);
    }
  }

  /** No schema denied at the start is reached, however the round goes. */
  lemma {:induction false} DeniedIsNotReached(r: Round, s: State, schemas: seq<Upstream>)
    ensures
      var p := SyncSchemas(r, Progress(s, true, map[], []), schemas);
      && s.catalog.schemas <= p.state.catalog.schemas
      && forall i :: 0 <= i < |p.reached| ==> Skipped(r, p.reached[i].name) || !Denied(r, s.catalog, PgName(r, p.reached[i].name))
    decreases |schemas|
  {
    if schemas != [] {
      var n := |schemas| - 1;
      DeniedIsNotReached(r, s, schemas[..n]);
      var before := SyncSchemas(r, Progress(s, true, map[], []), schemas[..n]);
      SchemasOnlyGrow(r, before, schemas[n]);
      ReachedByStep(r, before, schemas[n]);
    }
  }

  lemma {:induction false} ReachedByStep(r: Round, p: Progress, schema: Upstream)
    ensures
      var q := SyncSchema(r, p, schema);
      q.reached == p.reached ||
      (q.reached == p.reached + [schema] && (Skipped(r, schema.name) || !Denied(r, p.state.catalog, PgName(r, schema.name))))
  {
    if !Skipped(r, schema.name) {
      var (s, available) := CreateSchemaIfNotExists(r, p.state, PgName(r, schema.name));
      AvailableExactly(r, p.state, PgName(r, schema.name));
      EntriesKeepSchemas(r, p.(state := s, reached := p.reached + [schema]), PgName(r, schema.name), schema.entries);
    }
  }

  lemma {:induction false} KeyHasSchema(r: Round, schemas: seq<Upstream>, k: Key) returns (i: nat)
    requires k in UpstreamKeys(r, schemas)
    ensures i < |schemas| && !Skipped(r, schemas[i].name) && k.schema == PgName(r, schemas[i].name)
    decreases |schemas|
  {
    var n := |schemas| - 1;
    if k in UpstreamKeys(r, schemas[..n]) {
      i := KeyHasSchema(r, schemas[..n], k);
    } else {
      i := n;
      EntryKindsExactly(PgName(r, schemas[n].name), schemas[n].entries, k);
    }
  }

  /** Every live relation with an outdated stamp in a denied schema is dropped by a round that cleans up. */
  lemma {:induction false} DeniedRelationIsLost(r: Round, s: State, schemas: seq<Upstream>, k: Key)
    requires Lawful(r) && SyncDatabase(r, s, schemas).dropped && Denied(r, s.catalog, k.schema)
    requires k in UpstreamKeys(r, schemas) && k in s.catalog.relations && IsStale(r, s.catalog.relations[k])
    ensures k !in SyncDatabase(r, s, schemas).state.catalog.relations
  {
    LiveRelationLost(r, s, schemas, k);
    DeniedIsNotReached(r, s, schemas);
    var reached := SyncDatabase(r, s, schemas).progress.reached;
    if k in UpstreamKeys(r, reached) {
      var i := KeyHasSchema(r, reached, k);
    }
  }

  // ---------------------------------------------------------------- rounds that succeed

  lemma {:induction false} DropsSucceed(r: Round, s: State, rows: seq<Key>)
    requires forall n: nat :: n >= s.clock ==> r.world.outcome(n).Succeeds?
    ensures DropRows(r, s, rows).1 && DropRows(r, s, rows).0.clock >= s.clock
    decreases |rows|
  {
    if rows != [] {
      DropsSucceed(r, s, rows[..|rows| - 1]);
    }
  }

  /** Schema i can be made available: a short name, and the right to create in it or no need of that. */
  predicate Admitted(r: Round, c: Catalog, schemas: seq<Upstream>, i: int)
    requires 0 <= i < |schemas|
  {
    var name := PgName(r, schemas[i].name);
    && |name| <= 63
    && (r.db != r.defaultDb || r.world.canCreate(name) || (name !in c.schemas && forall j :: 0 <= j < i ==> schemas[j].name != schemas[i].name))
  }

  /** The entries have short names under which no relation that is not MotherDuck's exists. */
  predicate Creatable(c: Catalog, schema: string, entries: seq<Entry>)
  {
    forall j :: 0 <= j < |entries| && entries[j].printable ==>
      && |entries[j].name| <= 63
      && (Key(schema, entries[j].name) in c.relations ==> c.relations[Key(schema, entries[j].name)].stamp.Some?)
  }

  /** What the database and its upstream must be like, for everything to be synced. */
  predicate Syncable(r: Round, c: Catalog, schemas: seq<Upstream>)
  {
    forall i :: 0 <= i < |schemas| && !Skipped(r, schemas[i].name) ==>
      && Admitted(r, c, schemas, i) && DatabaseOf(PgName(r, schemas[i].name), r.defaultDb).Ok?
      && Creatable(c, PgName(r, schemas[i].name), schemas[i].entries)
  }

  lemma {:induction false} EntriesSucceed(r: Round, start: Catalog, p: Progress, schema: string, entries: seq<Entry>)
    requires forall n :: r.world.outcome(n).Succeeds?
    requires Grown(r, start, p) && p.ok && DatabaseOf(schema, r.defaultDb).Ok? && Creatable(start, schema, entries)
    ensures CreateEntries(r, p, schema, entries).ok
    decreases |entries|
  {
    if entries != [] {
      var n := |entries| - 1;
      assert forall j :: 0 <= j < n ==> entries[..n][j] == entries[j];
      EntriesSucceed(r, start, p, schema, entries[..n]);
      EntriesGrow(r, start, p, schema, entries[..n]);
      var before := CreateEntries(r, p, schema, entries[..n]);
      var k := Key(schema, entries[n].name);
      CreationSucceedsExactly(r, before.state, k, entries[n].kind);
      if entries[n].printable && k in before.state.catalog.relations {
        assert k in before.made || before.state.catalog.relations[k] == start.relations[k];
      }
    }
  }

  /** The schemas there can be after these upstream schemas were made available. */
  function Names(r: Round, schemas: seq<Upstream>): set<string>
  {
    set i | 0 <= i < |schemas| && !Skipped(r, schemas[i].name) :: PgName(r, schemas[i].name)
  }

  lemma {:induction false} SchemaSucceeds(r: Round, start: Catalog, p: Progress, schemas: seq<Upstream>, i: nat)
    requires forall n :: r.world.outcome(n).Succeeds?
    requires i < |schemas| && Tallied(r, start, p) && p.ok && Syncable(r, start, schemas)
    requires p.state.catalog.schemas <= start.schemas + Names(r, schemas[..i])
    ensures
      var q := SyncSchema(r, p, schemas[i]);
      q.ok && q.reached == p.reached + [schemas[i]] && q.state.catalog.schemas <= start.schemas + Names(r, schemas[..i + 1])
  {
    NamesGrow(r, schemas, i);
    if !Skipped(r, schemas[i].name) {
      var name := PgName(r, schemas[i].name);
      var (s, available) := CreateSchemaIfNotExists(r, p.state, name);
      NotDenied(r, start, p.state.catalog, schemas, i);
      AvailableExactly(r, p.state, name);
      SameRelations(r, p.state, name);
      var q := p.(state := s, reached := p.reached + [schemas[i]]);
      StillGrown(r, start, p, q);
      EntriesSucceed(r, start, q, name, schemas[i].entries);
      EntriesKeepSchemas(r, q, name, schemas[i].entries);
    }
  }

  lemma {:induction false} StillGrown(r: Round, start: Catalog, p: Progress, q: Progress)
    requires Grown(r, start, p) && q.state.catalog.relations == p.state.catalog.relations && q.made == p.made
    ensures Grown(r, start, q)
  {
  }

  lemma {:induction false} NamesGrow(r: Round, schemas: seq<Upstream>, i: nat)
    requires i < |schemas|
    ensures Names(r, schemas[..i]) <= Names(r, schemas[..i + 1])
    ensures !Skipped(r, schemas[i].name) ==> PgName(r, schemas[i].name) in Names(r, schemas[..i + 1])
  {
    forall name | name in Names(r, schemas[..i]) ensures name in Names(r, schemas[..i + 1]) {
      var j :| 0 <= j < i && !Skipped(r, schemas[..i][j].name) && name == PgName(r, schemas[..i][j].name);
      assert schemas[..i + 1][j] == schemas[..i][j];
    }
    assert schemas[..i + 1][i] == schemas[i];
  }

  lemma {:induction false} NotDenied(r: Round, start: Catalog, c: Catalog, schemas: seq<Upstream>, i: nat)
    requires i < |schemas| && !Skipped(r, schemas[i].name) && Admitted(r, start, schemas, i)
    requires c.schemas <= start.schemas + Names(r, schemas[..i])
    ensures !Denied(r, c, PgName(r, schemas[i].name))
  {
    var name := PgName(r, schemas[i].name);
    if IsDefault(r) && name in Names(r, schemas[..i]) {
      var j :| 0 <= j < i && !Skipped(r, schemas[..i][j].name) && name == PgName(r, schemas[..i][j].name);
      DefaultDatabaseCollides(r.db, schemas[j].name, schemas[i].name);
      if schemas[j].name != schemas[i].name {
        assert "public" in {schemas[j].name, schemas[i].name};
      }
    }
  }

  lemma {:induction false} SchemasSucceed(r: Round, s: State, schemas: seq<Upstream>, i: nat)
    requires forall n :: r.world.outcome(n).Succeeds?
    requires i <= |schemas| && Syncable(r, s.catalog, schemas)
    ensures
      var p := SyncSchemas(r, Progress(s, true, map[], []), schemas[..i]);
      p.ok && p.reached == schemas[..i] && p.state.catalog.schemas <= s.catalog.schemas + Names(r, schemas[..i])
    decreases i
  {
    if i > 0 {
      SchemasSucceed(r, s, schemas, i - 1);
      SchemasGrow(r, s, schemas[..i - 1]);
      assert schemas[..i][..i - 1] == schemas[..i - 1];
      SchemaSucceeds(r, s.catalog, SyncSchemas(r, Progress(s, true, map[], []), schemas[..i - 1]), schemas, i - 1);
    }
  }

  /** When no command raises and nothing stands in the way of an entry, a round does all there is to do. */
  lemma {:induction false} RoundSucceeds(r: Round, s: State, schemas: seq<Upstream>)
    requires (forall n :: r.world.outcome(n).Succeeds?) && Syncable(r, s.catalog, schemas)
    ensures SyncDatabase(r, s, schemas).dropped && SyncDatabase(r, s, schemas).progress.reached == schemas
  {
    SchemasSucceed(r, s, schemas, |schemas|);
    assert schemas[..|schemas|] == schemas;
    var p := SyncSchemas(r, Progress(s, true, map[], []), schemas);
    DropsSucceed(r, p.state, r.world.cursor(p.state.catalog));
  }

  /**
   On inputs alone: after such a round the version-stamped relations of the database are exactly what
   the last entry of every name asks for.
   */
  lemma {:induction false} CatalogMirrorsUpstream(r: Round, s: State, schemas: seq<Upstream>, k: Key)
    requires Lawful(r) && (forall n :: r.world.outcome(n).Succeeds?) && Syncable(r, s.catalog, schemas) && NamesRoundTrip(r, schemas)
    requires forall k2 :: k2 in s.catalog.relations && IsCurrent(r, s.catalog.relations[k2]) ==> k2 in UpstreamKeys(r, schemas)
    ensures
      var now := SyncDatabase(r, s, schemas).state.catalog.relations;
      && (k in now && StampedFor(r.db, now[k]) <==> exists i, j :: AsksLast(r, schemas, i, j, k))
      && (forall i, j :: AsksLast(r, schemas, i, j, k) ==> IsCurrent(r, now[k]) && now[k].kind == schemas[i].entries[j].kind)
  {
    RoundSucceeds(r, s, schemas);
    RoundAgrees(r, s, schemas);
    AskedExactly(r, schemas, k);
  }

  ghost function Enumerate(keys: set<Key>): (rows: seq<Key>)
    ensures |rows| == |keys| && forall k :: k in rows <==> k in keys
  {
    if keys == {} then [] else
      var k :| k in keys;
      [k] + Enumerate(keys - {k})
  }

  function StaleKeys(r: Round, c: Catalog): set<Key>
  {
    set k | k in c.relations && IsStale(r, c.relations[k])
  }

  /** The database `d` is at version 2; the first command raises, all others succeed. */
  ghost function LosingRound(): (r: Round)
    ensures Lawful(r)
  {
    var r0 := Round("d", "2", "m", World(_ => Succeeds(0), _ => false, false, _ => []));
    var r := r0.(world := World(n => if n == 0 then Raises(Catalog({}, map[])) else Succeeds(0), _ => false, false,
                                c => Enumerate(StaleKeys(r0, c))));
    assert forall c: Catalog, k: Key {:trigger k in r.world.cursor(c)} ::
      k in r.world.cursor(c) <==> k in c.relations && IsStale(r0, c.relations[k]);
    r
  }

  const LiveKey: Key := Key("ddb$d", "t")

  const LosingUpstream: seq<Upstream> := [Upstream("main", [Entry("t", Table, true)])]

  function LosingState(): State
  {
    State(Catalog({"ddb$d"}, map[LiveKey := Relation(1, Table, Some(Stamp("d", Some("1"), "m")))]), 0)
  }

  lemma {:induction false} LosingProgress()
    ensures PgName(LosingRound(), "main") == "ddb$d"
    ensures SyncSchemas(LosingRound(), Progress(LosingState(), true, map[], []), LosingUpstream)
         == Progress(State(LosingState().catalog, 1), true, map[], [])
  {
    assert EscapeDollars("d") == "d";
    assert LosingUpstream[..0] == [];
  }

  lemma {:induction false} LosingDrops()
    ensures SyncDatabase(LosingRound(), LosingState(), LosingUpstream).dropped
  {
    var s := State(LosingState().catalog, 1);
    LosingProgress();
    DropsSucceed(LosingRound(), s, LosingRound().world.cursor(s.catalog));
  }

  /** It happens: the schema exists, but its privileges cannot be granted, and its table is dropped. */
  lemma {:induction false} UnavailableSchemaLosesTable()
    ensures
      var r, s := LosingRound(), LosingState();
      && SyncDatabase(r, s, LosingUpstream).dropped && NamesRoundTrip(r, LosingUpstream)
      && LiveKey in UpstreamKeys(r, LosingUpstream) && LiveKey in s.catalog.relations
      && LiveKey !in SyncDatabase(r, s, LosingUpstream).state.catalog.relations
  {
    var r, s := LosingRound(), LosingState();
    LosingProgress();
    LosingDrops();
    ReachedOneMore(r, [], LosingUpstream[0]);
    assert LosingUpstream == [LosingUpstream[0]];
    assert LosingUpstream[0].entries[0].printable;
    assert LiveKey in EntryKinds("ddb$d", LosingUpstream[0].entries);
    LiveRelationLost(r, s, LosingUpstream, LiveKey);
  }

  // ---------------------------------------------------------------- many rounds

  /** What one pass finds for a database: the round it would run, and what is upstream. */
  datatype Poll = Poll(round: Round, schemas: seq<Upstream>)

  /** The versions already seen, and the catalog. */
  datatype Worker = Worker(known: map<string, string>, state: State)

  /** A database not seen before has the empty version. */
  function Known(known: map<string, string>, db: string): string
  {
    if db in known then known[db] else ""
  }

  /** The version is recorded before the round, whatever comes of it. */
  function PollOnce(w: Worker, p: Poll): Worker
  {
    if Known(w.known, p.round.db) == p.round.version then w
    else Worker(w.known[p.round.db := p.round.version], SyncDatabase(p.round, w.state, p.schemas).state)
  }

  function PollAll(w: Worker, ps: seq<Poll>): Worker
    decreases |ps|
  {
    if ps == [] then w else PollAll(PollOnce(w, ps[0]), ps[1..])
  }

  /** The polls of other databases. */
  function Others(ps: seq<Poll>, db: string): seq<Poll>
  {
    if ps == [] then [] else (if ps[0].round.db == db then [] else [ps[0]]) + Others(ps[1..], db)
  }

  /** Polls that find a known version change nothing, whatever is polled between them. */
  lemma {:induction false} KnownVersionIsSkipped(w: Worker, db: string, ps: seq<Poll>)
    requires forall i :: 0 <= i < |ps| && ps[i].round.db == db ==> ps[i].round.version == Known(w.known, db)
    ensures PollAll(w, ps) == PollAll(w, Others(ps, db))
    decreases |ps|
  {
    if ps != [] {
      var w1 := PollOnce(w, ps[0]);
      assert forall i :: 0 <= i < |ps[1..]| ==> ps[1..][i] == ps[i + 1];
      KnownVersionIsSkipped(w1, db, ps[1..]);
      if ps[0].round.db != db {
        assert Others(ps, db)[0] == ps[0] && Others(ps, db)[1..] == Others(ps[1..], db);
      } else {
        assert Others(ps, db) == Others(ps[1..], db);
      }
    }
  }

  /**
   A round is not repeated, failed or not: until a poll finds another version of the database, all
   its further polls change nothing. With no other database polled, what a failed round left is final.
   */
  lemma {:induction false} RoundIsNotRetried(w: Worker, p: Poll, ps: seq<Poll>)
    requires forall i :: 0 <= i < |ps| && ps[i].round.db == p.round.db ==> ps[i].round.version == p.round.version
    ensures PollAll(PollOnce(w, p), ps) == PollAll(PollOnce(w, p), Others(ps, p.round.db))
    ensures (forall i :: 0 <= i < |ps| ==> ps[i].round.db == p.round.db) ==> PollAll(PollOnce(w, p), ps) == PollOnce(w, p)
  {
    KnownVersionIsSkipped(PollOnce(w, p), p.round.db, ps);
    if forall i :: 0 <= i < |ps| ==> ps[i].round.db == p.round.db {
      NoOthers(ps, p.round.db);
    }
  }

  /** The version that the last of the first `n` polls of the database found, or the one known before them. */
  function LastVersion(known: map<string, string>, ps: seq<Poll>, n: nat, db: string): string
    requires n <= |ps|
  {
    if n == 0 then Known(known, db)
    else if ps[n - 1].round.db == db then ps[n - 1].round.version
    else LastVersion(known, ps, n - 1, db)
  }

  /** The rounds of those of the first `n` polls that found another version than the poll before them. */
  function ChangedRounds(known: map<string, string>, s: State, ps: seq<Poll>, n: nat): State
    requires n <= |ps|
  {
    if n == 0 then s
    else
      var before := ChangedRounds(known, s, ps, n - 1);
      var r := ps[n - 1].round;
      if LastVersion(known, ps, n - 1, r.db) == r.version then before
      else SyncDatabase(r, before, ps[n - 1].schemas).state
  }

  lemma {:induction false} PollOneMore(w: Worker, ps: seq<Poll>, n: nat)
    requires n < |ps|
    ensures PollAll(w, ps[..n + 1]) == PollOnce(PollAll(w, ps[..n]), ps[n])
    decreases n
  {
    var qs := ps[..n + 1];
    if n > 0 {
      PollOneMore(PollOnce(w, ps[0]), ps[1..], n - 1);
      assert ps[1..][..n] == qs[1..] && ps[1..][..n - 1] == ps[..n][1..];
    } else {
      assert qs[1..] == [];
    }
  }

  lemma {:induction false} PollsSoFar(w: Worker, ps: seq<Poll>, n: nat, db: string)
    requires n <= |ps|
    ensures PollAll(w, ps[..n]).state == ChangedRounds(w.known, w.state, ps, n)
    ensures Known(PollAll(w, ps[..n]).known, db) == LastVersion(w.known, ps, n, db)
    decreases n
  {
    if n > 0 {
      PollOneMore(w, ps, n - 1);
      PollsSoFar(w, ps, n - 1, db);
      PollsSoFar(w, ps, n - 1, ps[n - 1].round.db);
    }
  }

  /** However polls of databases are mixed, a round runs exactly when a poll finds another version than the one before it. */
  lemma {:induction false} RoundsFollowVersions(w: Worker, ps: seq<Poll>)
    ensures PollAll(w, ps).state == ChangedRounds(w.known, w.state, ps, |ps|)
  {
    PollsSoFar(w, ps, |ps|, "");
    assert ps[..|ps|] == ps;
  }

  lemma {:induction false} NoOthers(ps: seq<Poll>, db: string)
    requires forall i :: 0 <= i < |ps| ==> ps[i].round.db == db
    ensures Others(ps, db) == []
  {
    if ps != [] {
      NoOthers(ps[1..], db);
    }
  }

  // ---------------------------------------------------------------- the session

  datatype Command = Create(key: Key, kind: Kind) | Drop(key: Key) | MakeSchema(name: string) | GrantOn(name: string)

  function Apply(r: Round, c: Catalog, command: Command, id: nat): Catalog
  {
    match command
    case Create(k, kind) =>
      var stamp := match DatabaseOf(k.schema, r.defaultDb)
        case Ok(db) => Some(Stamp(db, Some(r.version), r.defaultDb))
        case Err => None;
      c.(relations := c.relations[k := Relation(id, kind, stamp)])
    case Drop(k) => WithoutRelation(c, k)
    case MakeSchema(name) => c.(schemas := c.schemas + {name})
    case GrantOn(_) => c
  }

  /** Creating raises after the relation is made when its schema name cannot be decoded. */
  predicate WillRaise(r: Round, command: Command, o: Outcome)
  {
    o.Raises? || (command.Create? && DatabaseOf(command.key.schema, r.defaultDb) == Err)
  }

  /** A session of the sync worker: its catalog, the open subtransactions, and the commands run so far. */
  class Session {
    const r: Round
    var catalog: Catalog
    /** The catalogs to go back to, one for every open subtransaction. */
    var saved: seq<Catalog>
    var clock: nat

    function Now(): State reads this { State(catalog, clock) }

    constructor (r: Round, s: State)
      ensures this.r == r && Now() == s && saved == []
    {
      this.r, catalog, saved, clock := r, s.catalog, [], s.clock;
    }

    method BeginInternalSubTransaction()
      modifies this`saved
      ensures saved == old(saved) + [catalog]
    {
      saved := saved + [catalog];
    }

    method ReleaseCurrentSubTransaction()
      requires saved != []
      modifies this`saved
      ensures saved == old(saved)[..|old(saved)| - 1]
    {
      saved := saved[..|saved| - 1];
    }

    method RollbackAndReleaseCurrentSubTransaction()
      requires saved != []
      modifies this`saved, this`catalog
      ensures saved == old(saved)[..|old(saved)| - 1] && catalog == old(saved)[|old(saved)| - 1]
    {
      catalog := saved[|saved| - 1];
      saved := saved[..|saved| - 1];
    }

    /** The transaction can only be committed when no subtransaction is open. */
    method Commit()
      requires saved == []
    {
    }

    /** `SPI_run_utility_command`: a failure leaves the catalog and the open subtransactions as they were. */
    method RunUtilityCommand(command: Command) returns (ok: bool)
      modifies this
      ensures saved == old(saved) && clock == old(clock) + 1
      ensures ok <==> !WillRaise(r, command, r.world.outcome(old(clock)))
      ensures ok ==> catalog == Apply(r, old(catalog), command, r.world.outcome(old(clock)).id)
      ensures !ok ==> catalog == old(catalog)
    {
      BeginInternalSubTransaction();
      var outcome := r.world.outcome(clock);
      clock := clock + 1;
      match outcome {
        case Raises(wreck) => catalog := wreck;
        case Succeeds(id) => catalog := Apply(r, catalog, command, id);
      }
      if WillRaise(r, command, outcome) {
        RollbackAndReleaseCurrentSubTransaction();
        return false;
      }
      ReleaseCurrentSubTransaction();
      ok := true;
    }

    /** CreateTable and CreateView. */
    method CreateShell(k: Key, kind: Kind) returns (ok: bool)
      requires saved == []
      modifies this
      ensures saved == [] && (Now(), ok) == CreateRelation(r, old(Now()), k, kind)
    {
      if |k.name| > NAMEDATALEN - 1 {
        return false;
      }
      var didDelete := false;
      if k in catalog.relations {
        if catalog.relations[k].stamp.None? {
          return false;
        }
        BeginInternalSubTransaction();
        var gone := RunUtilityCommand(Drop(k));
        if !gone {
          RollbackAndReleaseCurrentSubTransaction();
          return false;
        }
        didDelete := true;
      }
      var created := RunUtilityCommand(Create(k, kind));
      if !created {
        if didDelete {
          RollbackAndReleaseCurrentSubTransaction();
        }
        return false;
      }
      if didDelete {
        ReleaseCurrentSubTransaction();
        Recreated(old(catalog).relations, k, catalog.relations[k]);
      }
      Commit();
      ok := true;
    }

    method GrantAccessToSchema(schema: string) returns (ok: bool)
      modifies this
      ensures saved == old(saved) && (Now(), ok) == Grant(r, old(Now()))
    {
      ok := RunUtilityCommand(GrantOn(schema));
      if ok && r.world.grantsUsage {
        ok := RunUtilityCommand(GrantOn(schema));
      }
    }

    method MakeSchemaAvailable(schema: string) returns (ok: bool)
      requires saved == []
      modifies this
      ensures saved == [] && (Now(), ok) == CreateSchemaIfNotExists(r, old(Now()), schema)
    {
      if |schema| > NAMEDATALEN - 1 {
        return false;
      }
      if schema in catalog.schemas {
        if r.world.canCreate(schema) {
          return true;
        }
        if IsDefault(r) {
          return false;
        }
        ok := GrantAccessToSchema(schema);
        return;
      }
      BeginInternalSubTransaction();
      ok := RunUtilityCommand(MakeSchema(schema));
      if !ok {
        RollbackAndReleaseCurrentSubTransaction();
        return false;
      }
      ok := GrantAccessToSchema(schema);
      if !ok {
        RollbackAndReleaseCurrentSubTransaction();
        return false;
      }
      ReleaseCurrentSubTransaction();
      Commit();
    }

    /** The scan of one schema. */
    method ScanEntries(p: Progress, schema: string, entries: seq<Entry>) returns (q: Progress)
      requires saved == [] && p.state == Now()
      modifies this
      ensures saved == [] && q == CreateEntries(r, p, schema, entries) && q.state == Now()
    {
      q := p;
      var i := 0;
      while i < |entries|
        invariant 0 <= i <= |entries| && saved == [] && q.state == Now()
        invariant q == CreateEntries(r, p, schema, entries[..i])
      {
        assert entries[..i + 1][..i] == entries[..i];
        var e := entries[i];
        if e.printable {
          var ok := CreateShell(Key(schema, e.name), e.kind);
          q := q.(state := Now(), ok := q.ok && ok, made := if ok then q.made[Key(schema, e.name) := e.kind] else q.made);
        }
        i := i + 1;
      }
      assert entries[..i] == entries;
    }

    method CreateShells(schemas: seq<Upstream>) returns (p: Progress)
      requires saved == []
      modifies this
      ensures saved == [] && p.state == Now()
      ensures p == SyncSchemas(r, Progress(old(Now()), true, map[], []), schemas)
    {
      ghost var start := Progress(Now(), true, map[], []);
      p := Progress(Now(), true, map[], []);
      var i := 0;
      while i < |schemas|
        invariant 0 <= i <= |schemas| && saved == [] && p.state == Now()
        invariant p == SyncSchemas(r, start, schemas[..i])
      {
        assert schemas[..i + 1][..i] == schemas[..i];
        if Skipped(r, schemas[i].name) {
          p := p.(reached := p.reached + [schemas[i]]);
        } else {
          var name := PgName(r, schemas[i].name);
          var available := MakeSchemaAvailable(name);
          p := p.(state := Now());
          if available {
            p := ScanEntries(p.(reached := p.reached + [schemas[i]]), name, schemas[i].entries);
          }
        }
        i := i + 1;
      }
      assert schemas[..i] == schemas;
    }

    /** The cursor loop: batches of 100 rows until one comes back short. */
    method DropOutdated(rows: seq<Key>) returns (dropped: bool)
      requires saved == []
      modifies this
      ensures saved == [] && (Now(), dropped) == DropRows(r, old(Now()), rows)
    {
      dropped := true;
      var fetched := 0;
      var batch := 100;
      while batch == 100
        invariant 0 <= fetched <= |rows| && saved == []
        invariant batch != 100 ==> fetched == |rows|
        invariant (Now(), dropped) == DropRows(r, old(Now()), rows[..fetched])
        decreases |rows| - fetched, batch
      {
        batch := if |rows| - fetched < 100 then |rows| - fetched else 100;
        ghost var from := fetched;
        var i := 0;
        while i < batch
          invariant 0 <= i <= batch && fetched == from + i <= |rows| && saved == []
          invariant from + batch <= |rows|
          invariant (Now(), dropped) == DropRows(r, old(Now()), rows[..fetched])
        {
          DropOneMore(r, old(Now()), rows, fetched);
          var ok := RunUtilityCommand(Drop(rows[fetched]));
          dropped := dropped && ok;
          fetched := fetched + 1;
          i := i + 1;
        }
      }
      assert rows[..fetched] == rows;
    }

    /** One database of the sync. */
    method Sync(schemas: seq<Upstream>) returns (f: Finished)
      requires saved == []
      modifies this
      ensures saved == [] && f == SyncDatabase(r, old(Now()), schemas) && Now() == f.state
    {
      var p := CreateShells(schemas);
      if !p.ok {
        return Finished(p, Now(), false);
      }
      var dropped := DropOutdated(r.world.cursor(catalog));
      Commit();
      f := Finished(p, Now(), dropped);
    }
  }

  lemma {:induction false} Recreated(relations: map<Key, Relation>, k: Key, rel: Relation)
    ensures (relations - {k})[k := rel] == relations[k := rel]
  {
  }
}
