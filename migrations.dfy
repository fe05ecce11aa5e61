/** The migration runner (`runMigrations`): the schema the three versioned steps build, the
    stored `user_version`, and the loop that applies every step newer than the version read
    at the start, each in its own transaction. */
module Migrations {
  import opened Wrappers

  /** The part of the database a migration can change. `archivedDefault` is the default of
      the `archived` column, or `None` while the column does not exist. The name index is
      `UNIQUE` on `LOWER(name)`; the year index is a plain index on `year`. */
  datatype Schema = Schema(robotsTable: bool, nameIndex: bool, yearIndex: bool, archivedDefault: Option<int>)

  /** A database nobody has migrated. */
  const EmptySchema: Schema := Schema(false, false, false, None)

  /** The schema of a database at version 3. */
  const FullSchema: Schema := Schema(true, true, true, Some(0))

  /** The statements of the three steps. */
  datatype Ddl =
    | CreateRobotsTable   // CREATE TABLE IF NOT EXISTS robots (...)
    | CreateIndexes       // CREATE UNIQUE INDEX IF NOT EXISTS idx_robots_name ...; CREATE INDEX IF NOT EXISTS idx_robots_year ...
    | AddArchivedColumn   // ALTER TABLE robots ADD COLUMN archived INTEGER NOT NULL DEFAULT 0

  datatype Migration = Migration(v: int, sql: Ddl)

  /** `MIGRATIONS`, in the order the loop visits them. */
  const Steps: seq<Migration> := [Migration(1, CreateRobotsTable), Migration(2, CreateIndexes), Migration(3, AddArchivedColumn)]

  /** The highest version a step sets. */
  const LatestVersion: int := 3

  /** SQLite's errors for a statement about a table that does not exist, and for a second
      column of the same name. */
  const NoSuchTableIndex: string := "no such table: main.robots"
  const NoSuchTableAlter: string := "no such table: robots"
  const DuplicateColumn: string := "duplicate column name: archived"

  /** Everything `s` has, `t` has too. */
  predicate Grows(s: Schema, t: Schema) {
    && (s.robotsTable ==> t.robotsTable)
    && (s.nameIndex ==> t.nameIndex)
    && (s.yearIndex ==> t.yearIndex)
    && (s.archivedDefault.Some? ==> t.archivedDefault == s.archivedDefault)
  }

  /** What SQLite does with one step's statements: `IF NOT EXISTS` makes the creations
      harmless on a schema that already has them; an index needs its table; `ADD COLUMN`
      needs the table and a column name not yet in it. */
  function ExecDdl(s: Schema, ddl: Ddl): (r: Result<Schema, string>)
    ensures r.Success? ==> r.value.robotsTable && Grows(s, r.value)
    ensures r.Failure? <==> (ddl != CreateRobotsTable && !s.robotsTable) || (ddl == AddArchivedColumn && s.archivedDefault.Some?)
  {
    match ddl
    case CreateRobotsTable => Success(s.(robotsTable := true))
    case CreateIndexes => if !s.robotsTable then Failure(NoSuchTableIndex) else Success(s.(nameIndex := true, yearIndex := true))
    case AddArchivedColumn =>
      if !s.robotsTable then Failure(NoSuchTableAlter)
      else if s.archivedDefault.Some? then Failure(DuplicateColumn)
      else Success(s.(archivedDefault := Some(0)))
  }

  /** The two `IF NOT EXISTS` steps may run twice; the `ALTER` may not. */
  lemma CreationsIdempotent(s: Schema)
    ensures ExecDdl(s, CreateRobotsTable).Success?
      && ExecDdl(ExecDdl(s, CreateRobotsTable).value, CreateRobotsTable) == ExecDdl(s, CreateRobotsTable)
    ensures ExecDdl(s, CreateIndexes).Success? ==>
      ExecDdl(ExecDdl(s, CreateIndexes).value, CreateIndexes) == ExecDdl(s, CreateIndexes)
    ensures ExecDdl(s, AddArchivedColumn).Success? ==>
      ExecDdl(ExecDdl(s, AddArchivedColumn).value, AddArchivedColumn) == Failure(DuplicateColumn)
  {
  }

  /** The stored `user_version`, or nothing when the pragma returns no row, together with the
      schema. */
  datatype State = State(version: Option<int>, schema: Schema)

  /** `getUserVersion`: a missing `user_version` reads as 0. */
  function ReadVersion(stored: Option<int>): (v: int)
    ensures stored.None? ==> v == 0
    ensures stored.Some? ==> v == stored.value
  {
    if stored.Some? then stored.value else 0
  }

  /** One step's transaction: its statements, then `PRAGMA user_version = v`, then `COMMIT`.
      `faults` holds the storage error, if any, that the version write or the commit of the
      step with that version meets. Any error rolls the whole step back. */
  function Step(st: State, m: Migration, faults: map<int, string>): (r: Result<State, string>)
    ensures r.Success? <==> ExecDdl(st.schema, m.sql).Success? && m.v !in faults
    ensures r.Success? ==> r.value == State(Some(m.v), ExecDdl(st.schema, m.sql).value)
    ensures r.Failure? && ExecDdl(st.schema, m.sql).Success? ==> r.error == faults[m.v]
    ensures ExecDdl(st.schema, m.sql).Failure? ==> r == Failure(ExecDdl(st.schema, m.sql).error)
  {
    var exec := ExecDdl(st.schema, m.sql);
    if exec.Failure? then Failure(exec.error)
    else if m.v in faults then Failure(faults[m.v])
    else Success(State(Some(m.v), exec.value))
  }

  /** The loop from state `st` over the steps still to visit, applying those newer than
      `current` and stopping at the first error: the state it leaves and how it ends. */
  function RunFrom(st: State, current: int, steps: seq<Migration>, faults: map<int, string>): (State, Outcome<string>)
    decreases |steps|
  {
    if steps == [] then (st, Pass)
    else if steps[0].v > current then
      match Step(st, steps[0], faults)
      case Failure(e) => (st, Fail(e))
      case Success(next) => RunFrom(next, current, steps[1..], faults)
    else RunFrom(st, current, steps[1..], faults)
  }

  /** `runMigrations`: the version is read once, then every step newer than it runs. */
  function Run(st: State, faults: map<int, string>): (State, Outcome<string>) {
    RunFrom(st, ReadVersion(st.version), Steps, faults)
  }

  /** Versions strictly increasing along the list. */
  predicate Increasing(steps: seq<Migration>) {
    forall i, j :: 0 <= i < j < |steps| ==> steps[i].v < steps[j].v
  }

  lemma StepsIncreasing()
    ensures Increasing(Steps)
  {
  }

  /** Over strictly increasing steps, none of which is at or below the stored version unless
      it is also at or below `current`, the stored version never goes down. */
  lemma {:induction false} RunFromMonotone(st: State, current: int, steps: seq<Migration>, faults: map<int, string>)
    requires Increasing(steps)
    requires forall j :: 0 <= j < |steps| && steps[j].v > current ==> steps[j].v > ReadVersion(st.version)
    ensures ReadVersion(RunFrom(st, current, steps, faults).0.version) >= ReadVersion(st.version)
    decreases |steps|
  {
    if steps != [] {
      var rest := steps[1..];
      assert Increasing(rest) by {
        forall i, j | 0 <= i < j < |rest| ensures rest[i].v < rest[j].v {
          assert rest[i] == steps[i + 1] && rest[j] == steps[j + 1];
        }
      }
      if steps[0].v > current {
        var r := Step(st, steps[0], faults);
        if r.Success? {
          forall j | 0 <= j < |rest| && rest[j].v > current ensures rest[j].v > ReadVersion(r.value.version) {
            assert rest[j] == steps[j + 1];
          }
          RunFromMonotone(r.value, current, rest, faults);
        }
      } else {
        forall j | 0 <= j < |rest| && rest[j].v > current ensures rest[j].v > ReadVersion(st.version) {
          assert rest[j] == steps[j + 1];
        }
        RunFromMonotone(st, current, rest, faults);
      }
    }
  }

  /** A run never lowers the stored version. */
  lemma RunMonotone(st: State, faults: map<int, string>)
    ensures ReadVersion(Run(st, faults).0.version) >= ReadVersion(st.version)
  {
    StepsIncreasing();
    RunFromMonotone(st, ReadVersion(st.version), Steps, faults);
  }

  /** A run that fails leaves the state that the steps before the failing one committed: the
      failing step is rolled back and the steps after it are not attempted. */
  lemma {:induction false} RunFromFailure(st: State, current: int, steps: seq<Migration>, faults: map<int, string>)
    requires RunFrom(st, current, steps, faults).1.Fail?
    ensures exists j :: (0 <= j < |steps| && steps[j].v > current
      && RunFrom(st, current, steps[..j], faults) == (RunFrom(st, current, steps, faults).0, Pass)
      && Step(RunFrom(st, current, steps, faults).0, steps[j], faults)
           == Failure(RunFrom(st, current, steps, faults).1.error))
    decreases |steps|
  {
    var fin := RunFrom(st, current, steps, faults);
    assert steps[..0] == [];
    if steps[0].v > current && Step(st, steps[0], faults).Failure? {
      assert RunFrom(st, current, steps[..0], faults) == (fin.0, Pass);
    } else {
      var next := if steps[0].v > current then Step(st, steps[0], faults).value else st;
      var rest := steps[1..];
      assert RunFrom(next, current, rest, faults) == fin;
      RunFromFailure(next, current, rest, faults);
      var j :| 0 <= j < |rest| && rest[j].v > current
        && RunFrom(next, current, rest[..j], faults) == (fin.0, Pass)
        && Step(fin.0, rest[j], faults) == Failure(fin.1.error);
      assert steps[..j + 1][1..] == rest[..j];
      assert steps[j + 1] == rest[j];
    }
  }

  /** A run that stops at the first error leaves the version of the last committed step. */
  lemma RunFailure(st: State, faults: map<int, string>)
    requires Run(st, faults).1.Fail?
    ensures exists j :: (0 <= j < |Steps| && Steps[j].v > ReadVersion(st.version)
      && RunFrom(st, ReadVersion(st.version), Steps[..j], faults) == (Run(st, faults).0, Pass)
      && Step(Run(st, faults).0, Steps[j], faults) == Failure(Run(st, faults).1.error))
  {
    RunFromFailure(st, ReadVersion(st.version), Steps, faults);
  }

  /** A database at version 3 or later is left alone: no step is newer. */
  lemma UpToDateUnchanged(st: State, faults: map<int, string>)
    requires ReadVersion(st.version) >= LatestVersion
    ensures Run(st, faults) == (st, Pass)
  {
    var c := ReadVersion(st.version);
    assert Steps[1..] == [Migration(2, CreateIndexes), Migration(3, AddArchivedColumn)];
    assert Steps[1..][1..] == [Migration(3, AddArchivedColumn)];
    assert Steps[1..][1..][1..] == [];
  }

  /** A run that succeeds leaves a version of at least 3. */
  lemma SuccessReachesLatest(st: State, faults: map<int, string>)
    requires Run(st, faults).1.Pass?
    ensures ReadVersion(Run(st, faults).0.version) >= LatestVersion
  {
    if ReadVersion(st.version) < LatestVersion {
      LastStepSetsLatest(st, ReadVersion(st.version), faults);
    } else {
      UpToDateUnchanged(st, faults);
    }
  }

  /** Below version 3 the last step runs, whatever the earlier ones did, and a run that
      passes it stores version 3. */
  lemma LastStepSetsLatest(st: State, c: int, faults: map<int, string>)
    requires c < LatestVersion
    requires RunFrom(st, c, Steps, faults).1.Pass?
    ensures RunFrom(st, c, Steps, faults).0.version == Some(LatestVersion)
  {
    var s1, s2 := Steps[1..], Steps[1..][1..];
    assert s1 == [Migration(2, CreateIndexes), Migration(3, AddArchivedColumn)];
    assert s2 == [Migration(3, AddArchivedColumn)];
    assert s2[1..] == [];
    var a := if 1 > c then Step(st, Steps[0], faults) else Success(st);
    if a.Success? {
      var b := if 2 > c then Step(a.value, s1[0], faults) else Success(a.value);
      if b.Success? {
        assert RunFrom(st, c, Steps, faults) == RunFrom(b.value, c, s2, faults);
      }
    }
  }

  /** Running the migrations again after a run that succeeded changes nothing. */
  lemma RunIdempotent(st: State, faults: map<int, string>, laterFaults: map<int, string>)
    requires Run(st, faults).1.Pass?
    ensures Run(Run(st, faults).0, laterFaults) == (Run(st, faults).0, Pass)
  {
    SuccessReachesLatest(st, faults);
    UpToDateUnchanged(Run(st, faults).0, laterFaults);
  }

  /** From a database nobody has migrated, a run without storage errors builds the whole
      schema and stores version 3. */
  lemma FreshRun(version: Option<int>)
    requires ReadVersion(version) == 0
    ensures Run(State(version, EmptySchema), map[]) == (State(Some(LatestVersion), FullSchema), Pass)
  {
    var s1, s2 := Steps[1..], Steps[1..][1..];
    assert s1 == [Migration(2, CreateIndexes), Migration(3, AddArchivedColumn)];
    assert s2 == [Migration(3, AddArchivedColumn)];
    assert s2[1..] == [];
  }

  /** From version 0, whatever the schema and the faults, a run that succeeds stores version 3
      and leaves the table, both indexes and an `archived` column defaulting to 0. */
  lemma SuccessFromZero(st: State, faults: map<int, string>)
    requires ReadVersion(st.version) == 0
    requires Run(st, faults).1.Pass?
    ensures Run(st, faults).0 == State(Some(LatestVersion), FullSchema)
  {
    var s1, s2 := Steps[1..], Steps[1..][1..];
    assert s1 == [Migration(2, CreateIndexes), Migration(3, AddArchivedColumn)];
    assert s2 == [Migration(3, AddArchivedColumn)];
    assert s2[1..] == [];
  }

  /** A storage error in step 2's transaction keeps step 1's table and version 1. */
  lemma FaultInSecondStep(version: Option<int>, message: string)
    requires ReadVersion(version) == 0
    ensures Run(State(version, EmptySchema), map[2 := message])
      == (State(Some(1), Schema(true, false, false, None)), Fail(message))
  {
    var s1 := Steps[1..];
    assert s1 == [Migration(2, CreateIndexes), Migration(3, AddArchivedColumn)];
  }

  /** A database whose version was never stored but whose table already has the `archived`
      column: the creations pass, the `ALTER` fails, and the version stays at 2. */
  lemma ColumnAlreadyThere()
    ensures Run(State(None, Schema(true, false, false, Some(0))), map[])
      == (State(Some(2), FullSchema), Fail(DuplicateColumn))
  {
    var s1, s2 := Steps[1..], Steps[1..][1..];
    assert s1 == [Migration(2, CreateIndexes), Migration(3, AddArchivedColumn)];
    assert s2 == [Migration(3, AddArchivedColumn)];
  }

  /** The connection's persistent state. */
  class Database {
    var userVersion: Option<int>
    var schema: Schema

    constructor (userVersion: Option<int>, schema: Schema)
      ensures this.userVersion == userVersion && this.schema == schema
    {
      this.userVersion := userVersion;
      this.schema := schema;
    }

    /** `getUserVersion`: `PRAGMA user_version`, 0 when it yields nothing. */
    method GetUserVersion() returns (v: int)
      ensures v == ReadVersion(userVersion)
      ensures userVersion.None? ==> v == 0
    {
      v := if userVersion.Some? then userVersion.value else 0;
    }

    /** `setUserVersion`: `PRAGMA user_version = v`. */
    method SetUserVersion(v: int)
      modifies this
      ensures userVersion == Some(v) && schema == old(schema)
    {
      userVersion := Some(v);
    }

    /** `runMigrations`: reads the version once, then for each step newer than it runs
        `BEGIN`, the step's statements, the version write and `COMMIT`; on an error it runs
        `ROLLBACK` and rethrows, so no later step is attempted. */
    method RunMigrations(faults: map<int, string>) returns (res: Outcome<string>)
      modifies this
      ensures (State(userVersion, schema), res) == Run(State(old(userVersion), old(schema)), faults)
      ensures ReadVersion(userVersion) >= ReadVersion(old(userVersion))
    {
      ghost var start := State(userVersion, schema);
      var current := GetUserVersion();
      assert Steps[0..] == Steps;
      for i := 0 to |Steps|
        invariant RunFrom(State(userVersion, schema), current, Steps[i..], faults) == Run(start, faults)
      {
        var m := Steps[i];
        assert Steps[i..][0] == m && Steps[i..][1..] == Steps[i + 1..];
        if m.v > current {
          // BEGIN
          var savedVersion, savedSchema := userVersion, schema;
          var exec := ExecDdl(schema, m.sql);
          if exec.Failure? {
            userVersion, schema := savedVersion, savedSchema;  // ROLLBACK
            RunMonotone(start, faults);
            return Fail(exec.error);
          }
          schema := exec.value;
          SetUserVersion(m.v);
          if m.v in faults {
            userVersion, schema := savedVersion, savedSchema;  // ROLLBACK
            RunMonotone(start, faults);
            return Fail(faults[m.v]);
          }
          // COMMIT
        }
      }
      RunMonotone(start, faults);
      res := Pass;
    }
  }
}
