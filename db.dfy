/** The database helpers every job uses: client configuration (environment
    values overridden field by field), the lazily created shared client, and
    the schema check that makes sure an embedding column of the right width
    exists before any vector is written. */
module Db {
  import opened Common
  import opened VectorTypes
  import opened Storage

  /** Connection settings. The environment reading that produces the base
      values is not part of this model; the base arrives as a parameter. */
  datatype DbConfig = DbConfig(host: string, port: int, user: string, password: string, database: string)

  /** `Partial<DbConfig>`: a field that is None was not supplied. */
  datatype PartialDbConfig = PartialDbConfig(
    host: Option<string>, port: Option<int>, user: Option<string>,
    password: Option<string>, database: Option<string>)

  const NoOverrides: PartialDbConfig := PartialDbConfig(None, None, None, None, None)

  /** `{ ...base, ...(cfg || {}) }`: an absent `cfg` is an empty override. */
  function MergeConfig(base: DbConfig, cfg: Option<PartialDbConfig>): (merged: DbConfig)
    ensures cfg.None? ==> merged == base
    ensures cfg.Some? && cfg.value.host.Some? ==> merged.host == cfg.value.host.value
    ensures cfg.Some? && cfg.value.port.Some? ==> merged.port == cfg.value.port.value
    ensures cfg.Some? && cfg.value.user.Some? ==> merged.user == cfg.value.user.value
    ensures cfg.Some? && cfg.value.password.Some? ==> merged.password == cfg.value.password.value
    ensures cfg.Some? && cfg.value.database.Some? ==> merged.database == cfg.value.database.value
    ensures cfg.Some? && cfg.value.host.None? ==> merged.host == base.host
    ensures cfg.Some? && cfg.value.port.None? ==> merged.port == base.port
    ensures cfg.Some? && cfg.value.user.None? ==> merged.user == base.user
    ensures cfg.Some? && cfg.value.password.None? ==> merged.password == base.password
    ensures cfg.Some? && cfg.value.database.None? ==> merged.database == base.database
  {
    var c := cfg.GetOr(NoOverrides);
    DbConfig(c.host.GetOr(base.host), c.port.GetOr(base.port), c.user.GetOr(base.user),
             c.password.GetOr(base.password), c.database.GetOr(base.database))
  }

  /** Spreading the overrides a second time changes nothing. */
  lemma MergeIdempotent(base: DbConfig, cfg: PartialDbConfig)
    ensures MergeConfig(MergeConfig(base, Some(cfg)), Some(cfg)) == MergeConfig(base, Some(cfg))
  {
  }

  /** An empty override and no override agree. */
  lemma MergeEmpty(base: DbConfig)
    ensures MergeConfig(base, Some(NoOverrides)) == MergeConfig(base, None)
  {
  }

  /** A pg client: the settings it was created with and whether it has
      connected or been ended. */
  class Client {
    const settings: DbConfig
    var connected: bool
    var ended: bool

    /** `new Client({...})`. */
    constructor (settings: DbConfig)
      ensures this.settings == settings && !connected && !ended
    {
      this.settings := settings;
      connected := false;
      ended := false;
    }

    /** `await client.connect()`; whether the server accepts is a parameter. */
    method Connect(accepted: bool) returns (ok: bool)
      modifies this
      ensures ok == accepted && connected == accepted && ended == old(ended)
    {
      connected := accepted;
      ok := accepted;
    }

    /** `await client.end()`. */
    method End()
      modifies this
      ensures ended && !connected
    {
      ended := true;
      connected := false;
    }
  }

  /** `createClient(cfg)`. */
  method CreateClient(env: DbConfig, cfg: Option<PartialDbConfig>) returns (c: Client)
    ensures fresh(c) && c.settings == MergeConfig(env, cfg) && !c.connected && !c.ended
  {
    c := new Client(MergeConfig(env, cfg));
  }

  /** `connectNewClient(cfg)`: a fresh client that has connected, or None
      when the connection is refused. */
  method ConnectNewClient(env: DbConfig, cfg: Option<PartialDbConfig>, accepted: bool)
    returns (r: Option<Client>)
    ensures accepted <==> r.Some?
    ensures r.Some? ==> fresh(r.value) && r.value.settings == MergeConfig(env, cfg) && r.value.connected
  {
    var c := CreateClient(env, cfg);
    var ok := c.Connect(accepted);
    r := if ok then Some(c) else None;
  }

  /** The module-level `sharedClient` variable and the two functions that
      use it. */
  class SharedClientHandle {
    var shared: Client?

    constructor ()
      ensures shared == null
    {
      shared := null;
    }

    /** `getClient()`: the shared client if there is one; otherwise a new
        client built from the environment alone is stored first and then
        connected. When that connection is refused the stored client stays in
        place, unconnected, and the call fails. */
    method GetClient(env: DbConfig, accepted: bool) returns (r: Option<Client>)
      modifies this, shared
      ensures old(shared) != null ==> r == Some(old(shared)) && shared == old(shared)
      ensures old(shared) != null ==> unchanged(old(shared))
      ensures old(shared) == null ==> shared != null && fresh(shared)
                                      && shared.settings == MergeConfig(env, None)
                                      && shared.connected == accepted && !shared.ended
                                      && r == (if accepted then Some(shared) else None)
    {
      if shared != null {
        return Some(shared);
      }
      var c := CreateClient(env, None);
      shared := c;
      var ok := c.Connect(accepted);
      r := if ok then Some(c) else None;
    }

    /** `closeSharedClient()`: ends the shared client (an error while ending
        is swallowed) and forgets it; without a shared client it does
        nothing. */
    method CloseSharedClient()
      modifies this, shared
      ensures shared == null
      ensures old(shared) != null ==> old(shared).ended
      ensures old(shared) == null ==> unchanged(this)
    {
      if shared != null {
        shared.End();
        shared := null;
      }
    }
  }

  /** A caller that never closes always gets the first client back; after a
      close, the next call builds a new one from the environment, which the
      next close ends; a close with no shared client does nothing. */
  method SharedClientLifecycle(env: DbConfig) returns (first: Client, second: Client, third: Client)
    ensures first == second && first.ended
    ensures third != first && third.ended && third.settings == MergeConfig(env, None)
  {
    var handle := new SharedClientHandle();
    var a := handle.GetClient(env, true);
    var b := handle.GetClient(env, true);
    first, second := a.value, b.value;
    handle.CloseSharedClient();
    var c := handle.GetClient(env, true);
    third := c.value;
    assert !third.ended;
    handle.CloseSharedClient();
    handle.CloseSharedClient();
    assert handle.shared == null;
  }

  /** The failures of `ensureEmbeddingColumn`, carrying what its messages
      name. */
  datatype SchemaError =
    | IncompatibleType(column: string, found: string)
    | DimensionMismatch(column: string, existing: nat, expected: nat)

  datatype Outcome<+E> = Pass | Fail(error: E)

  datatype EnsureResult = EnsureResult(outcome: Outcome<SchemaError>, columns: map<string, string>)

  /** The decision `ensureEmbeddingColumn` makes from the schema: add the
      column when it is absent; otherwise it must read as `vector(N)` and N
      must be `dim`. Only the absent case changes the schema. */
  function EnsureColumn(columns: map<string, string>, column: string, dim: nat): (r: EnsureResult)
    ensures r.outcome.Pass? <==> column !in columns || ParseVectorWidth(columns[column]) == Some(dim)
    ensures r.outcome.Pass? ==> column in r.columns && ParseVectorWidth(r.columns[column]) == Some(dim)
    ensures r.outcome.Pass? ==> r.columns.Keys == columns.Keys + {column}
    ensures column !in columns ==> r.columns == columns[column := VectorTypeName(dim)]
    ensures r.outcome.Fail? ==> r.columns == columns
    ensures forall c :: c in columns ==> c in r.columns && r.columns[c] == columns[c]
    ensures r.outcome.Fail? && r.outcome.error.IncompatibleType? ==>
              column in columns && ParseVectorWidth(columns[column]).None?
              && r.outcome.error == IncompatibleType(column, columns[column])
    ensures r.outcome.Fail? && r.outcome.error.DimensionMismatch? ==>
              column in columns && ParseVectorWidth(columns[column]) == Some(r.outcome.error.existing)
              && r.outcome.error.existing != dim && r.outcome.error.expected == dim
  {
    if column !in columns then
      ParseVectorTypeName(dim);
      EnsureResult(Pass, columns[column := VectorTypeName(dim)])
    else
      match ParseVectorWidth(columns[column])
      case None => EnsureResult(Fail(IncompatibleType(column, columns[column])), columns)
      case Some(existing) =>
        if existing != dim then EnsureResult(Fail(DimensionMismatch(column, existing, dim)), columns)
        else EnsureResult(Pass, columns)
  }

  /** A second call with the same arguments after a successful one succeeds
      and changes nothing. */
  lemma EnsureColumnIdempotent(columns: map<string, string>, column: string, dim: nat)
    requires EnsureColumn(columns, column, dim).outcome.Pass?
    ensures var once := EnsureColumn(columns, column, dim).columns;
            EnsureColumn(once, column, dim) == EnsureResult(Pass, once)
  {
  }

  /** Asking for a different width than the one a previous call created
      reports both widths and keeps the column. */
  lemma EnsureColumnWidthIsFixed(columns: map<string, string>, column: string, dim: nat, other: nat)
    requires EnsureColumn(columns, column, dim).outcome.Pass? && other != dim
    ensures var once := EnsureColumn(columns, column, dim).columns;
            EnsureColumn(once, column, other) == EnsureResult(Fail(DimensionMismatch(column, dim, other)), once)
  {
  }

  /** The first query of both jobs as written, `SELECT name ... WHERE column
      IS NULL`: PostgreSQL refuses a condition on a column the table does not
      have, so on a table without the column the query fails. */
  function SelectAsWritten(columns: map<string, string>, rows: seq<Row>, column: string): (r: Option<seq<string>>)
    ensures r.None? <==> column !in columns
    ensures r.Some? ==> r.value == WorkingSet(rows, column)
  {
    if column in columns then Some(WorkingSet(rows, column)) else None
  }

  /** The first query under each program: as written it needs the column;
      the corrected job reads a missing column as NULL in every row. */
  function SelectPending(prog: Program, columns: map<string, string>, rows: seq<Row>, column: string)
    : (r: Option<seq<string>>)
    ensures r.None? <==> prog.AsWritten? && column !in columns
    ensures r.Some? ==> r.value == WorkingSet(rows, column)
  {
    if prog.AsWritten? then SelectAsWritten(columns, rows, column) else Some(WorkingSet(rows, column))
  }

  /** Since the query runs before `ensureEmbeddingColumn`, every run that
      gets past it finds the column present: the branch that adds the column
      is never taken. */
  lemma AddBranchUnreachable(columns: map<string, string>, rows: seq<Row>, column: string, dim: nat)
    requires SelectAsWritten(columns, rows, column).Some?
    ensures EnsureColumn(columns, column, dim).columns == columns
    ensures EnsureColumn(columns, column, dim).outcome.Pass? ==> ParseVectorWidth(columns[column]) == Some(dim)
  {
  }

  /** `ensureEmbeddingColumn(client, table, column, dim)` on the food table:
      only the absent case issues `ADD COLUMN column vector(dim)`, and the
      rows are never touched. */
  method EnsureEmbeddingColumn(table: FoodTable, column: string, dim: nat) returns (outcome: Outcome<SchemaError>)
    requires table.Valid()
    modifies table
    ensures table.Valid()
    ensures outcome == EnsureColumn(old(table.columns), column, dim).outcome
    ensures table.columns == EnsureColumn(old(table.columns), column, dim).columns
    ensures table.rows == old(table.rows)
  {
    if column !in table.columns {
      table.AddColumn(column, VectorTypeName(dim));
      return Pass;
    }
    var typeText := table.columns[column];
    var width := ParseVectorWidth(typeText);
    if width.None? {
      return Fail(IncompatibleType(column, typeText));
    }
    if width.value != dim {
      return Fail(DimensionMismatch(column, width.value, dim));
    }
    return Pass;
  }
}
