/**
 The session store (`src/config.rs`): one row per server address holding
 the session id and the op names joined with `,`, and the migration list
 that creates its table. The SQLite database is an abstract keyed store;
 whether a statement fails is a property of the store given as input.
 */
module Config {

  import opened Base
  import opened Bytes

  /** A remembered nREPL session: where it lives, its id and the ops the server offered. */
  datatype Session = Session(addr: Text, session: Text, ops: seq<Text>)

  /**
   The session id, as `Session::session` returns it; callers reach it as
   `id()`, which is not defined in the store's source.
   */
  function Id(s: Session): Text {
    s.session
  }

  /**
   Whether the session's server offered `op`. `is_op_available` is called
   on a session but not defined in the store's source; membership in the
   stored op names is what its name and its use say.
   */
  predicate IsOpAvailable(s: Session, op: Text) {
    op in s.ops
  }

  /** The stored columns of one session: `session_id` and `ops_list`. */
  datatype Row = Row(sessionId: Text, opsList: Text)

  /**
   The `sessions` table keyed by its primary key `addr`, and whether the
   statements of `save_session` and `load_session` fail.
   */
  datatype Db = Db(rows: map<Text, Row>, saveFails: bool, loadFails: bool)

  datatype ConfigError = StatementFailed

  /**
   `save_session`: `INSERT OR REPLACE` of the session's row, the ops joined
   with `,`. A failing statement leaves the store as it was.
   */
  function SaveSession(db: Db, s: Session): (r: Result<Db, ConfigError>)
    ensures db.saveFails <==> r.Err?
    ensures r.Ok? ==> s.addr in r.value.rows && r.value.rows[s.addr].sessionId == s.session
    ensures r.Ok? ==> forall a :: a != s.addr ==>
      (a in r.value.rows <==> a in db.rows) && (a in db.rows ==> r.value.rows[a] == db.rows[a])
    ensures r.Ok? ==> r.value.saveFails == db.saveFails && r.value.loadFails == db.loadFails
  {
    if db.saveFails then Err(StatementFailed)
    else Ok(db.(rows := db.rows[s.addr := Row(s.session, Join(s.ops, [COMMA]))]))
  }

  /** `load_session`: the row for `addr`, its ops list split on `,`; no row is `None`. */
  function LoadSession(db: Db, addr: Text): (r: Result<Option<Session>, ConfigError>)
    ensures db.loadFails <==> r.Err?
    ensures r.Ok? ==> (r.value.None? <==> addr !in db.rows)
    ensures r.Ok? && r.value.Some? ==>
      r.value.value.addr == addr && r.value.value.session == db.rows[addr].sessionId
      && |r.value.value.ops| >= 1
  {
    if db.loadFails then Err(StatementFailed)
    else if addr !in db.rows then Ok(None)
    else
      var row := db.rows[addr];
      Ok(Some(Session(addr, row.sessionId, Split(row.opsList, COMMA))))
  }

  /** No op name contains the `,` that separates them in the store. */
  predicate OpsStorable(ops: seq<Text>) {
    forall i :: 0 <= i < |ops| ==> COMMA !in ops[i]
  }

  /**
   After a save, loading the same address gives the same address and id,
   and the ops back whenever there is at least one and none contains `,`.
   */
  lemma SaveThenLoad(db: Db, s: Session)
    requires !db.saveFails && !db.loadFails
    ensures var saved := SaveSession(db, s).value;
      LoadSession(saved, s.addr).Ok? && LoadSession(saved, s.addr).value.Some?
      && LoadSession(saved, s.addr).value.value.addr == s.addr
      && LoadSession(saved, s.addr).value.value.session == s.session
    ensures |s.ops| >= 1 && OpsStorable(s.ops) ==>
      LoadSession(SaveSession(db, s).value, s.addr) == Ok(Some(s))
  {
    if |s.ops| >= 1 && OpsStorable(s.ops) {
      SplitJoin(s.ops, COMMA);
    }
  }

  /** An empty ops list is read back as one empty op name. */
  lemma EmptyOpsReadBack(db: Db, s: Session)
    requires !db.saveFails && !db.loadFails && s.ops == []
    ensures LoadSession(SaveSession(db, s).value, s.addr) == Ok(Some(s.(ops := [[]])))
  {
  }

  /** Saving for one address changes nothing that is loaded for another. */
  lemma SaveKeepsOthers(db: Db, s: Session, addr: Text)
    requires !db.saveFails && addr != s.addr
    ensures LoadSession(SaveSession(db, s).value, addr) == LoadSession(db, addr)
  {
  }

  /** A named schema change. */
  datatype Migration = Migration(name: Text, sql: string)

  /**
   `MIGRATIONS`: the single migration `v1`, which creates the `sessions`
   table with `addr` as its primary key and the `session_id` and
   `ops_list` text columns.
   */
  const MIGRATIONS: seq<Migration> := [Migration([118, 49], SESSIONS_TABLE)] // "v1"

  /** The schema of the `sessions` table, as the statement text. */
  const SESSIONS_TABLE: string :=
    ("CREATE TABLE IF NOT EXISTS sessions(addr TEXT PRIMARY KEY, session_id TEXT, ops_list TEXT)")

  /** What running a migration does to the database, in order. */
  datatype Action = Execute(sql: string) | Record(name: Text)

  /**
   `run_migrations`: with no latest migration every migration runs; with a
   latest one, only those listed after the first migration of that name.
   Each one run is executed and then recorded by name.
   */
  function RunMigrations(migrations: seq<Migration>, latest: Option<Text>): (r: seq<Action>)
    ensures |r| % 2 == 0
    ensures latest.None? ==> r == RunAll(migrations)
    ensures latest.Some? ==> (
      r == match FindMigration(migrations, latest.value)
           case None => []
           case Some(i) => RunAll(migrations[i + 1..]))
  {
    RunningRunsAll(migrations, latest);
    if latest.None? then Run(migrations, true, latest)
    else
      RunUntilFound(migrations, latest.value);
      Run(migrations, false, latest)
  }

  function Run(migrations: seq<Migration>, run: bool, latest: Option<Text>): (r: seq<Action>)
    ensures |r| % 2 == 0
  {
    if migrations == [] then []
    else
      var m := migrations[0];
      var now := if run then [Execute(m.sql), Record(m.name)] else [];
      now + Run(migrations[1..], run || latest == Some(m.name), latest)
  }

  /** The actions of running `ms` in order: execute each, then record it. */
  function RunAll(ms: seq<Migration>): seq<Action> {
    if ms == [] then [] else [Execute(ms[0].sql), Record(ms[0].name)] + RunAll(ms[1..])
  }

  /** Position of the first migration named `name`. */
  function FindMigration(ms: seq<Migration>, name: Text): (r: Option<nat>)
    ensures r.Some? ==> r.value < |ms| && ms[r.value].name == name
    ensures r.Some? ==> forall j :: 0 <= j < r.value ==> ms[j].name != name
    ensures r.None? ==> forall j :: 0 <= j < |ms| ==> ms[j].name != name
  {
    if ms == [] then None
    else if ms[0].name == name then Some(0)
    else match FindMigration(ms[1..], name)
      case None => None
      case Some(i) => Some(i + 1)
  }

  lemma {:induction false} RunningRunsAll(ms: seq<Migration>, latest: Option<Text>)
    ensures Run(ms, true, latest) == RunAll(ms)
    decreases |ms|
  {
    if ms != [] {
      RunningRunsAll(ms[1..], latest);
    }
  }

  lemma {:induction false} RunUntilFound(ms: seq<Migration>, name: Text)
    ensures Run(ms, false, Some(name)) ==
      match FindMigration(ms, name)
      case None => []
      case Some(i) => RunAll(ms[i + 1..])
    decreases |ms|
  {
    if ms != [] {
      if ms[0].name == name {
        RunningRunsAll(ms[1..], Some(name));
      } else {
        RunUntilFound(ms[1..], name);
        match FindMigration(ms[1..], name)
        case None =>
        case Some(i) =>
          assert ms[1..][i + 1..] == ms[i + 2..];
      }
    }
  }

  /**
   `run_migrations` with the `?` after each statement: `fails` holds the
   positions, counted over the statements issued, of those that fail. The
   first failure ends the run with `StatementFailed`: the failed statement
   and every later one take no effect. Returns the actions that took
   effect and the outcome.
   */
  function RunMigrationsChecked(migrations: seq<Migration>, latest: Option<Text>, fails: set<nat>)
    : (r: (seq<Action>, Result<(), ConfigError>))
    ensures r.1.Ok? <==> forall p :: 0 <= p < |RunMigrations(migrations, latest)| ==> p !in fails
    ensures r.1.Ok? ==> r.0 == RunMigrations(migrations, latest)
    ensures r.1.Err? ==> (
      |r.0| < |RunMigrations(migrations, latest)|
      && r.0 == RunMigrations(migrations, latest)[..|r.0|]
      && |r.0| in fails && forall p :: 0 <= p < |r.0| ==> p !in fails)
  {
    RunCheckedFollowsPlan(migrations, latest.None?, latest, fails, 0);
    RunChecked(migrations, latest.None?, latest, fails, 0)
  }

  /** The loop from the migration `ms[0]` on; `k` statements were issued before it. */
  function RunChecked(ms: seq<Migration>, run: bool, latest: Option<Text>, fails: set<nat>, k: nat)
    : (seq<Action>, Result<(), ConfigError>)
  {
    if ms == [] then ([], Ok(()))
    else
      var m := ms[0];
      if run && k in fails then ([], Err(StatementFailed))
      else if run && k + 1 in fails then ([Execute(m.sql)], Err(StatementFailed))
      else
        var now := if run then [Execute(m.sql), Record(m.name)] else [];
        var more := RunChecked(ms[1..], run || latest == Some(m.name), latest, fails, k + |now|);
        (now + more.0, more.1)
  }

  /**
   `done` is what issuing the statements of `plan` in order, the first at
   position `k`, does: every one when none fails, and otherwise those
   before the first failing one, ending in `StatementFailed`.
   */
  predicate FollowsPlan(plan: seq<Action>, done: (seq<Action>, Result<(), ConfigError>), fails: set<nat>, k: nat) {
    (done.1.Ok? <==> forall p :: k <= p < k + |plan| ==> p !in fails)
    && (done.1.Ok? ==> done.0 == plan)
    && (done.1.Err? ==> (
      done.1 == Err(StatementFailed) && |done.0| < |plan| && done.0 == plan[..|done.0|]
      && k + |done.0| in fails && forall p :: k <= p < k + |done.0| ==> p !in fails))
  }

  /** Statements that succeed in front of a plan keep the outcome of the rest. */
  lemma FollowsPlanPrefix(now: seq<Action>, later: seq<Action>, more: (seq<Action>, Result<(), ConfigError>),
                          fails: set<nat>, k: nat)
    requires forall p :: k <= p < k + |now| ==> p !in fails
    requires FollowsPlan(later, more, fails, k + |now|)
    ensures FollowsPlan(now + later, (now + more.0, more.1), fails, k)
  {
    var plan := now + later;
    if more.1.Err? {
      assert now + more.0 == plan[..|now + more.0|] by {
        assert more.0 == later[..|more.0|];
      }
      assert plan[|now + more.0|] == later[|more.0|];
    }
  }

  /**
   The checked loop issues the statements of `Run` in order and stops at
   the first failing one: it succeeds exactly when none fails, and
   otherwise the actions that took effect are the plan up to the failure.
   */
  lemma {:induction false} RunCheckedFollowsPlan(ms: seq<Migration>, run: bool, latest: Option<Text>,
                                                 fails: set<nat>, k: nat)
    ensures FollowsPlan(Run(ms, run, latest), RunChecked(ms, run, latest, fails, k), fails, k)
    decreases |ms|
  {
    if ms != [] {
      var m := ms[0];
      var run' := run || latest == Some(m.name);
      var now := if run then [Execute(m.sql), Record(m.name)] else [];
      var later := Run(ms[1..], run', latest);
      assert Run(ms, run, latest) == now + later;
      if run && k in fails {
        FailsAtFirst(now + later, fails, k);
      } else if run && k + 1 in fails {
        FailsAtSecond(now + later, fails, k);
      } else {
        RunCheckedFollowsPlan(ms[1..], run', latest, fails, k + |now|);
        FollowsPlanPrefix(now, later, RunChecked(ms[1..], run', latest, fails, k + |now|), fails, k);
      }
    }
  }

  lemma FailsAtFirst(plan: seq<Action>, fails: set<nat>, k: nat)
    requires plan != [] && k in fails
    ensures FollowsPlan(plan, ([], Err(StatementFailed)), fails, k)
  {
  }

  lemma FailsAtSecond(plan: seq<Action>, fails: set<nat>, k: nat)
    requires |plan| >= 2 && k !in fails && k + 1 in fails
    ensures FollowsPlan(plan, ([plan[0]], Err(StatementFailed)), fails, k)
  {
    assert plan[..1] == [plan[0]];
  }

  /**
   The selection rule: no latest migration runs them all in list order;
   a known latest one runs exactly those after it; an unknown one runs none.
   */
  lemma MigrationSelection(ms: seq<Migration>, name: Text)
    ensures RunMigrations(ms, None) == RunAll(ms)
    ensures FindMigration(ms, name).None? ==> RunMigrations(ms, Some(name)) == []
    ensures FindMigration(ms, name).Some? ==>
      RunMigrations(ms, Some(name)) == RunAll(ms[FindMigration(ms, name).value + 1..])
  {
    RunningRunsAll(ms, None);
    RunUntilFound(ms, name);
  }

  /** Every migration run is recorded by name right after it is executed, in list order. */
  lemma {:induction false} RunAllRecordsEach(ms: seq<Migration>)
    ensures |RunAll(ms)| == 2 * |ms|
    ensures forall i :: 0 <= i < |ms| ==>
      RunAll(ms)[2 * i] == Execute(ms[i].sql) && RunAll(ms)[2 * i + 1] == Record(ms[i].name)
    decreases |ms|
  {
    if ms != [] {
      RunAllRecordsEach(ms[1..]);
      var rest := RunAll(ms[1..]);
      forall i | 0 <= i < |ms|
        ensures RunAll(ms)[2 * i] == Execute(ms[i].sql) && RunAll(ms)[2 * i + 1] == Record(ms[i].name)
      {
        if i > 0 {
          assert RunAll(ms)[2 * i] == rest[2 * (i - 1)];
          assert RunAll(ms)[2 * i + 1] == rest[2 * (i - 1) + 1];
          assert ms[1..][i - 1] == ms[i];
        }
      }
    }
  }

  /**
   On a fresh database, a failing `CREATE TABLE` leaves nothing done and
   nothing recorded; a failing record leaves the table created but `v1`
   unrecorded, so the next run executes it again.
   */
  lemma FailedMigrationNotRecorded()
    ensures RunMigrationsChecked(MIGRATIONS, None, {0}) == ([], Err(StatementFailed))
    ensures RunMigrationsChecked(MIGRATIONS, None, {1}) == ([Execute(SESSIONS_TABLE)], Err(StatementFailed))
  {
    assert RunChecked(MIGRATIONS, true, None, {0}, 0) == ([], Err(StatementFailed));
    assert RunChecked(MIGRATIONS, true, None, {1}, 0) == ([Execute(SESSIONS_TABLE)], Err(StatementFailed));
  }

  /** On a fresh database the one migration `v1` runs; once `v1` is recorded nothing runs. */
  lemma MigrationsOnFreshAndCurrent()
    ensures RunMigrations(MIGRATIONS, None) == [Execute(SESSIONS_TABLE), Record([118, 49])]
    ensures RunMigrations(MIGRATIONS, Some([118, 49])) == []
  {
    var v1: Text := [118, 49];
    assert MIGRATIONS[1..] == [];
    assert Run(MIGRATIONS[1..], true, None) == [];
    assert Run(MIGRATIONS[1..], true, Some(v1)) == [];
    assert RunMigrations(MIGRATIONS, None) == [Execute(SESSIONS_TABLE), Record(v1)] + [];
    assert RunMigrations(MIGRATIONS, Some(v1)) == [] + Run(MIGRATIONS[1..], true, Some(v1));
  }
}
