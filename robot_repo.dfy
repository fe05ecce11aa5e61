/** The SQLite repository (`robotRepo`): the `robots` table as a sequence of rows, kept by the
    database under its primary key on `id` and its unique index on `LOWER(name)`; `create`,
    `update`, `remove`, `getById`, the filtered, sorted and paged `list`, and the
    all-or-nothing upsert loop of the import. */
module RobotRepo {
  import opened Wrappers
  import opened Text
  import opened Robots
  import opened Sorting

  /** A row of `robots` (`RobotDB`). `caption` is the `label` column and `kind` the `type`
      column; `archived` is 0 or 1 and defaults to 0. */
  datatype Row = Row(id: string, name: string, caption: string, year: int, kind: string,
                     createdAt: string, updatedAt: string, archived: int)

  /** The key of the unique index `idx_robots_name`: SQLite's `LOWER(name)`, which folds
      ASCII letters only. */
  function NameKey(name: string): string {
    ToLower(name)
  }

  /** The message SQLite raises for a second row with the same `id`. */
  const UniqueIdViolation: string := "UNIQUE constraint failed: robots.id"

  /** The message SQLite raises for a second row with the same `LOWER(name)`. */
  const UniqueNameViolation: string := "UNIQUE constraint failed: " + "index 'idx_robots_name'"

  /** `update`'s error when the row cannot be read back. */
  const UpdateFailed: string := "Update échoué"

  /** `create`'s error when the row cannot be read back. */
  const InsertFailed: string := "Insert échoué"

  predicate IdInUse(rows: seq<Row>, id: string) {
    exists i :: 0 <= i < |rows| && rows[i].id == id
  }

  predicate KeyInUse(rows: seq<Row>, key: string) {
    exists i :: 0 <= i < |rows| && NameKey(rows[i].name) == key
  }

  predicate KeyInUseByOther(rows: seq<Row>, key: string, id: string) {
    exists i :: 0 <= i < |rows| && rows[i].id != id && NameKey(rows[i].name) == key
  }

  /** What the primary key and the unique index guarantee of every state of the table: no
      two rows share an id, and no two rows (archived or not) share a lower-cased name. */
  predicate TableInvariant(rows: seq<Row>) {
    forall i, j :: 0 <= i < j < |rows| ==>
      rows[i].id != rows[j].id && NameKey(rows[i].name) != NameKey(rows[j].name)
  }

  /** The position of the row with that id, or -1. */
  function RowIndex(rows: seq<Row>, id: string): (k: int)
    ensures -1 <= k < |rows|
    ensures k == -1 <==> !IdInUse(rows, id)
    ensures k != -1 ==> rows[k].id == id && forall i :: 0 <= i < k ==> rows[i].id != id
  {
    if rows == [] then -1
    else if rows[0].id == id then 0
    else
      var k := RowIndex(rows[1..], id);
      if k == -1 then -1 else k + 1
  }

  /** `getById`: `SELECT * FROM robots WHERE id = ?`. */
  function GetById(rows: seq<Row>, id: string): (r: Option<Row>)
    ensures r.None? <==> !IdInUse(rows, id)
    ensures r.Some? ==> r.value.id == id && r.value in rows
    ensures r.Some? && TableInvariant(rows) ==> forall i :: 0 <= i < |rows| && rows[i].id == id ==> rows[i] == r.value
  {
    var k := RowIndex(rows, id);
    if k == -1 then None else Some(rows[k])
  }

  /** `INSERT INTO robots ...`: a storage fault, then the primary key, then the unique index,
      each abort the statement; otherwise the row is added. */
  function SqlInsert(rows: seq<Row>, row: Row, fault: Option<string>): Result<seq<Row>, string> {
    if fault.Some? then Failure(fault.value)
    else if IdInUse(rows, row.id) then Failure(UniqueIdViolation)
    else if KeyInUse(rows, NameKey(row.name)) then Failure(UniqueNameViolation)
    else Success(rows + [row])
  }

  /** The `SET` list of an `UPDATE`: the repository's update sets the name, the import's
      leaves it alone. */
  datatype Assignment = Assignment(name: Option<string>, caption: string, year: int, kind: string, updatedAt: string)

  function Apply(row: Row, a: Assignment): (r: Row)
    ensures r.id == row.id && r.createdAt == row.createdAt && r.archived == row.archived
    ensures r.name == if a.name.Some? then a.name.value else row.name
    ensures r.caption == a.caption && r.year == a.year && r.kind == a.kind && r.updatedAt == a.updatedAt
  {
    row.(name := if a.name.Some? then a.name.value else row.name,
         caption := a.caption, year := a.year, kind := a.kind, updatedAt := a.updatedAt)
  }

  /** `UPDATE robots SET ... WHERE id = ?`: a storage fault aborts it; no matching row leaves
      the table as it is; a new name whose key another row holds aborts it; otherwise the
      matching row (the primary key makes it the only one) is rewritten in place. */
  function SqlUpdate(rows: seq<Row>, id: string, a: Assignment, fault: Option<string>): Result<seq<Row>, string> {
    if fault.Some? then Failure(fault.value)
    else
      var k := RowIndex(rows, id);
      if k == -1 then Success(rows)
      else
        var row := Apply(rows[k], a);
        if KeyInUseByOther(rows, NameKey(row.name), id) then Failure(UniqueNameViolation)
        else Success(rows[k := row])
  }

  /** A successful insert keeps the table's invariant. */
  lemma SqlInsertKeepsInvariant(rows: seq<Row>, row: Row, fault: Option<string>)
    requires TableInvariant(rows)
    requires SqlInsert(rows, row, fault).Success?
    ensures TableInvariant(SqlInsert(rows, row, fault).value)
  {
    var next := rows + [row];
    forall i, j | 0 <= i < j < |next|
      ensures next[i].id != next[j].id && NameKey(next[i].name) != NameKey(next[j].name)
    {
      if j == |rows| {
        assert next[i] == rows[i];
      }
    }
  }

  /** A successful update keeps the table's invariant. */
  lemma SqlUpdateKeepsInvariant(rows: seq<Row>, id: string, a: Assignment, fault: Option<string>)
    requires TableInvariant(rows)
    requires SqlUpdate(rows, id, a, fault).Success?
    ensures TableInvariant(SqlUpdate(rows, id, a, fault).value)
  {
    if IdInUse(rows, id) {
      var k := RowIndex(rows, id);
      var next := rows[k := Apply(rows[k], a)];
      forall i, j | 0 <= i < j < |next|
        ensures next[i].id != next[j].id && NameKey(next[i].name) != NameKey(next[j].name)
      {
        if i == k {
          assert rows[j].id != id;
        } else if j == k {
          assert rows[i].id != id;
        }
      }
    }
  }

  /** The error text the repository rethrows: any message that mentions `unique`, in any
      case, becomes `'Name déjà utilisé'`; any other is passed on. */
  function Translate(message: string): (r: string)
    ensures Contains(ToLower(message), "unique") ==> r == NameInUse
    ensures !Contains(ToLower(message), "unique") ==> r == message
  {
    if Contains(ToLower(message), "unique") then NameInUse else message
  }

  /** A message that starts with `UNIQUE` reads as the name being in use. */
  lemma UniqueFirstTranslates(message: string)
    requires |message| >= 6 && message[..6] == "UNIQUE"
    ensures Translate(message) == NameInUse
  {
    var lowered := ToLower(message);
    assert lowered[..6] == "unique" by {
      forall i | 0 <= i < 6 ensures lowered[i] == "unique"[i] {
        assert message[i] == "UNIQUE"[i];
      }
    }
    ContainsAt(lowered, "unique", 0);
  }

  /** Both index violations read as the name being in use. */
  lemma ViolationsTranslate()
    ensures Translate(UniqueNameViolation) == NameInUse
    ensures Translate(UniqueIdViolation) == NameInUse
  {
    assert UniqueNameViolation[..6] == "UNIQUE";
    UniqueFirstTranslates(UniqueNameViolation);
    assert UniqueIdViolation[..6] == "UNIQUE";
    UniqueFirstTranslates(UniqueIdViolation);
  }

  /** The message `create` and `update` raise for a name in use. */
  const NameInUse: string := "Name déjà utilisé"

  /** `DELETE FROM robots WHERE id = ?`: every row with that id goes, the rest keep their order. */
  function DeleteId(rows: seq<Row>, id: string): (rest: seq<Row>)
    ensures |rest| <= |rows|
    ensures forall r :: r in rest <==> r in rows && r.id != id
  {
    if rows == [] then []
    else (if rows[0].id == id then [] else [rows[0]]) + DeleteId(rows[1..], id)
  }

  /** Every row that stays after a delete comes from the table. */
  lemma DeleteIdFrom(rows: seq<Row>, id: string, i: nat) returns (j: nat)
    requires i < |DeleteId(rows, id)|
    ensures j < |rows| && rows[j] == DeleteId(rows, id)[i]
  {
    assert DeleteId(rows, id)[i] in DeleteId(rows, id);
    j :| 0 <= j < |rows| && rows[j] == DeleteId(rows, id)[i];
  }

  /** A delete keeps the table's invariant. */
  lemma {:induction false} DeleteKeepsInvariant(rows: seq<Row>, id: string)
    requires TableInvariant(rows)
    ensures TableInvariant(DeleteId(rows, id))
  {
    if rows != [] {
      assert TableInvariant(rows[1..]) by {
        forall i, j | 0 <= i < j < |rows[1..]|
          ensures rows[1..][i].id != rows[1..][j].id && NameKey(rows[1..][i].name) != NameKey(rows[1..][j].name)
        {
          assert rows[1..][i] == rows[i + 1] && rows[1..][j] == rows[j + 1];
        }
      }
      DeleteKeepsInvariant(rows[1..], id);
      var rest := DeleteId(rows[1..], id);
      if rows[0].id != id {
        forall i | 0 <= i < |rest|
          ensures rows[0].id != rest[i].id && NameKey(rows[0].name) != NameKey(rest[i].name)
        {
          var j := DeleteIdFrom(rows[1..], id, i);
          assert rows[j + 1] == rest[i];
        }
        var next := [rows[0]] + rest;
        assert DeleteId(rows, id) == next;
        forall i, j | 0 <= i < j < |next|
          ensures next[i].id != next[j].id && NameKey(next[i].name) != NameKey(next[j].name)
        {
          if i > 0 {
            assert next[i] == rest[i - 1] && next[j] == rest[j - 1];
          }
        }
      }
    }
  }

  /** Deleting an id nobody holds changes nothing. */
  lemma {:induction false} DeleteAbsent(rows: seq<Row>, id: string)
    requires !IdInUse(rows, id)
    ensures DeleteId(rows, id) == rows
  {
    if rows != [] {
      assert !IdInUse(rows[1..], id) by {
        forall i | 0 <= i < |rows[1..]| ensures rows[1..][i].id != id {
          assert rows[1..][i] == rows[i + 1];
        }
      }
      DeleteAbsent(rows[1..], id);
    }
  }

  /** The repository over one table. */
  class Repo {
    /** The rows of `robots`. */
    var rows: seq<Row>

    ghost predicate Valid()
      reads this
    {
      TableInvariant(rows)
    }

    /** A freshly migrated, empty table. */
    constructor ()
      ensures rows == [] && Valid()
    {
      rows := [];
    }

    /** `create`: inserts the trimmed name and label under a fresh id, with both timestamps
        `now` and `archived` 0, then reads the row back; a name whose lower-cased form is in
        use (archived rows included) fails with `'Name déjà utilisé'` and inserts nothing.
        `fault` is a storage error the statement may meet. */
    method Create(input: RobotInput, freshId: string, now: string, fault: Option<string>) returns (res: Result<Row, string>)
      requires Valid() && freshId != "" && !IdInUse(rows, freshId)
      modifies this
      ensures Valid()
      ensures res.Failure? ==> rows == old(rows)
      ensures fault.Some? ==> res == Failure(Translate(fault.value))
      ensures fault.None? ==> (res.Failure? <==> KeyInUse(old(rows), NormalizeName(input.name)))
      ensures fault.None? && res.Failure? ==> res.error == NameInUse
      ensures res.Success? ==>
        && res.value == Row(freshId, Trim(input.name), Trim(input.caption), input.year, input.kind, now, now, 0)
        && rows == old(rows) + [res.value]
    {
      var row := Row(freshId, Trim(input.name), Trim(input.caption), input.year, input.kind, now, now, 0);
      var inserted := SqlInsert(rows, row, fault);
      if inserted.Failure? {
        ViolationsTranslate();
        return Failure(Translate(inserted.error));
      }
      SqlInsertKeepsInvariant(rows, row, fault);
      rows := inserted.value;
      var found := GetById(rows, freshId);
      assert rows[|rows| - 1] == row;
      res := if found.Some? then Success(found.value) else Failure(InsertFailed);
    }

    /** `update`: rewrites the name and label (trimmed), year, type and `updated_at` of the
        row with that id, in place, then reads it back. No such row fails with
        `'Update échoué'`; a name whose lower-cased form another row holds fails with
        `'Name déjà utilisé'`; a failure changes nothing. */
    method Update(id: string, changes: RobotInput, now: string, fault: Option<string>) returns (res: Result<Row, string>)
      requires Valid()
      modifies this
      ensures Valid()
      ensures res.Failure? ==> rows == old(rows)
      ensures fault.Some? ==> res == Failure(Translate(fault.value))
      ensures fault.None? && !IdInUse(old(rows), id) ==> res == Failure(UpdateFailed)
      ensures fault.None? && IdInUse(old(rows), id) ==>
        (res.Failure? <==> KeyInUseByOther(old(rows), NormalizeName(changes.name), id))
      ensures fault.None? && IdInUse(old(rows), id) && res.Failure? ==> res.error == NameInUse
      ensures res.Success? ==>
        var k := RowIndex(old(rows), id);
        && 0 <= k
        && res.value == old(rows)[k].(name := Trim(changes.name), caption := Trim(changes.caption),
                                      year := changes.year, kind := changes.kind, updatedAt := now)
        && rows == old(rows)[k := res.value]
    {
      var a := Assignment(Some(Trim(changes.name)), Trim(changes.caption), changes.year, changes.kind, now);
      var updated := SqlUpdate(rows, id, a, fault);
      if updated.Failure? {
        ViolationsTranslate();
        return Failure(Translate(updated.error));
      }
      SqlUpdateKeepsInvariant(rows, id, a, fault);
      ghost var k := RowIndex(rows, id);
      rows := updated.value;
      var found := GetById(rows, id);
      if k != -1 {
        assert rows[k].id == id;
      }
      res := if found.Some? then Success(found.value) else Failure(UpdateFailed);
    }

    /** `remove`: deletes the row with that id, if any. */
    method Remove(id: string)
      requires Valid()
      modifies this
      ensures Valid()
      ensures rows == DeleteId(old(rows), id)
      ensures !IdInUse(old(rows), id) ==> rows == old(rows)
      ensures !IdInUse(rows, id)
    {
      DeleteKeepsInvariant(rows, id);
      if !IdInUse(rows, id) {
        DeleteAbsent(rows, id);
      }
      rows := DeleteId(rows, id);
    }

    /** The upsert loop of `importFromPickedFile`, over the already parsed entries, inside
        `BEGIN` ... `COMMIT`: on the first error the table is rolled back to what it was
        before the loop and the error is rethrown; otherwise it returns the count. */
    method Import(entries: seq<ImportEntry>, envs: seq<Effects>, currentYear: int) returns (res: Result<nat, string>)
      requires Valid() && |envs| == |entries|
      modifies this
      ensures Valid()
      ensures ImportAll(old(rows), 0, entries, envs, currentYear).Failure? ==>
        res == Failure(ImportAll(old(rows), 0, entries, envs, currentYear).error) && rows == old(rows)
      ensures ImportAll(old(rows), 0, entries, envs, currentYear).Success? ==>
        res == Success(ImportAll(old(rows), 0, entries, envs, currentYear).value.1)
        && rows == ImportAll(old(rows), 0, entries, envs, currentYear).value.0
    {
      var snapshot := rows;
      var count := 0;
      var i := 0;
      assert entries[0..] == entries && envs[0..] == envs;
      while i < |entries|
        invariant 0 <= i <= |entries|
        invariant ImportAll(rows, count, entries[i..], envs[i..], currentYear) == ImportAll(snapshot, 0, entries, envs, currentYear)
      {
        var e, env := entries[i], envs[i];
        var name := Trim(e.name);
        if name == "" {
          ImportAllFrom(rows, count, entries, envs, currentYear, i, Success(rows));
        } else {
          var caption := Trim(e.caption);
          var year := if e.year == 0 then currentYear else e.year;
          var kind := if e.kind == "" then "other" else e.kind;
          var existing := FindByKey(rows, NameKey(name));
          var written: Result<seq<Row>, string>;
          if existing.Some? && existing.value.id != "" {
            written := SqlUpdate(rows, existing.value.id, Assignment(None, caption, year, kind, env.now), env.fault);
          } else {
            written := SqlInsert(rows, Row(env.freshId, name, caption, year, kind, env.now, env.now, 0), env.fault);
          }
          ImportAllFrom(rows, count, entries, envs, currentYear, i, written);
          if written.Failure? {
            rows := snapshot;
            return Failure(written.error);
          }
          rows := written.value;
          count := count + 1;
        }
        i := i + 1;
      }
      ImportKeepsInvariant(snapshot, 0, entries, envs, currentYear);
      res := Success(count);
    }
  }

  /** The `ORDER BY` of `list`: `'year'` sorts by year, then lower-cased name; anything else
      (the default `'name'`) by lower-cased name, then year. */
  datatype SortKey = ByName | ByYear

  /** `list`'s parameters, with their defaults already applied by the caller: `q` is `""` when
      absent, `sort` `ByName`, `includeArchived` false. */
  datatype ListParams = ListParams(q: string, sort: SortKey, limit: Option<int>, offset: Option<int>, includeArchived: bool)

  /** The order SQLite's BINARY collation puts two keys in, strictly. */
  predicate KeyLt(a: string, b: string) {
    LexLe(a, b) && a != b
  }

  /** `ORDER BY LOWER(name) ASC, year ASC`, as a comparator. */
  predicate NameThenYear(a: Row, b: Row) {
    KeyLt(NameKey(a.name), NameKey(b.name)) || (NameKey(a.name) == NameKey(b.name) && a.year <= b.year)
  }

  /** `ORDER BY year ASC, LOWER(name) ASC`, as a comparator. */
  predicate YearThenName(a: Row, b: Row) {
    a.year < b.year || (a.year == b.year && LexLe(NameKey(a.name), NameKey(b.name)))
  }

  function OrderOf(sort: SortKey): (Row, Row) -> bool {
    if sort == ByYear then YearThenName else NameThenYear
  }

  lemma KeyLtTransitive(a: string, b: string, c: string)
    requires LexLe(a, b) && LexLe(b, c)
    ensures LexLe(a, c)
    ensures (KeyLt(a, b) || KeyLt(b, c)) ==> KeyLt(a, c)
  {
    LexLeTransitive(a, b, c);
    if a == c && (KeyLt(a, b) || KeyLt(b, c)) {
      LexLeAntisymmetric(a, b);
    }
  }

  /** Both orders are total preorders, so the sort is well defined. */
  lemma OrdersTotal(sort: SortKey)
    ensures TotalPreorder(OrderOf(sort))
  {
    forall a: Row, b: Row ensures OrderOf(sort)(a, b) || OrderOf(sort)(b, a) {
      LexLeTotal(NameKey(a.name), NameKey(b.name));
    }
    forall a: Row, b: Row, c: Row | OrderOf(sort)(a, b) && OrderOf(sort)(b, c)
      ensures OrderOf(sort)(a, c)
    {
      var ka, kb, kc := NameKey(a.name), NameKey(b.name), NameKey(c.name);
      if sort == ByName {
        if LexLe(ka, kb) && LexLe(kb, kc) {
          KeyLtTransitive(ka, kb, kc);
        }
      } else if a.year == b.year == c.year {
        KeyLtTransitive(ka, kb, kc);
      }
    }
  }

  /** `q && q.trim()` holds and the lower-cased name or label contains the trimmed,
      lower-cased `q` (`LOWER(name) LIKE %q%`), or `q` is blank. */
  predicate Matches(row: Row, q: string) {
    var needle := ToLower(Trim(q));
    Trim(q) == "" || Contains(NameKey(row.name), needle) || Contains(NameKey(row.caption), needle)
  }

  /** The `WHERE` clause of `list`. */
  predicate Listed(row: Row, p: ListParams) {
    (p.includeArchived || row.archived == 0) && Matches(row, p.q)
  }

  /** The rows that pass the `WHERE` clause, in table order. */
  function Where(rows: seq<Row>, p: ListParams): (r: seq<Row>)
    ensures |r| <= |rows|
    ensures forall x :: x in r <==> x in rows && Listed(x, p)
  {
    if rows == [] then []
    else (if Listed(rows[0], p) then [rows[0]] else []) + Where(rows[1..], p)
  }

  /** The `WHERE` and `ORDER BY` clauses. */
  function Ordered(rows: seq<Row>, p: ListParams): seq<Row> {
    Sort(Where(rows, p), OrderOf(p.sort))
  }

  /** `LIMIT` and `OFFSET` as SQLite applies them: a negative offset counts as 0, a
      negative limit (or none) as no limit. */
  function Page(s: seq<Row>, limit: Option<int>, offset: Option<int>): (r: seq<Row>)
    ensures var start := if offset.None? || offset.value <= 0 then 0
                         else if offset.value < |s| then offset.value else |s|;
      && (limit.None? || limit.value < 0 ==> r == s[start..])
      && (limit.Some? && limit.value >= 0 ==>
            r == s[start..if start + limit.value < |s| then start + limit.value else |s|])
  {
    var start := if offset.None? || offset.value <= 0 then 0 else if offset.value < |s| then offset.value else |s|;
    var rest := s[start..];
    if limit.None? || limit.value < 0 then rest
    else if limit.value < |rest| then rest[..limit.value] else rest
  }

  /** The message SQLite gives for `... ORDER BY ... OFFSET n` with no `LIMIT`. */
  const OffsetSyntaxError: string := "near \"OFFSET\": syntax error"

  /** `list` as written: the `OFFSET` clause is appended on its own when no `limit` is given,
      which SQLite's grammar rejects. */
  function ListAsWritten(rows: seq<Row>, p: ListParams): (r: Result<seq<Row>, string>)
    ensures r.Failure? <==> p.limit.None? && p.offset.Some?
    ensures r.Success? ==> r.value == List(rows, p)
  {
    if p.limit.None? && p.offset.Some? then Failure(OffsetSyntaxError)
    else Success(Page(Ordered(rows, p), p.limit, p.offset))
  }

  /** `list` as intended: the filtered, sorted rows, then the page; an offset without a limit
      skips rows (as `LIMIT -1 OFFSET n` would). */
  function List(rows: seq<Row>, p: ListParams): seq<Row> {
    Page(Ordered(rows, p), p.limit, p.offset)
  }

  /** Two rows the table can hold side by side. */
  predicate Apart(a: Row, b: Row) {
    a.id != b.id && NameKey(a.name) != NameKey(b.name)
  }

  lemma ConsInvariant(a: Row, u: seq<Row>)
    requires TableInvariant(u) && forall y :: y in u ==> Apart(a, y)
    ensures TableInvariant([a] + u)
  {
    var s := [a] + u;
    forall i, j | 0 <= i < j < |s| ensures Apart(s[i], s[j]) {
      assert s[j] == u[j - 1];
      if i > 0 {
        assert s[i] == u[i - 1];
      }
    }
  }

  lemma TailInvariant(s: seq<Row>)
    requires TableInvariant(s) && s != []
    ensures TableInvariant(s[1..])
    ensures forall y :: y in s[1..] ==> Apart(s[0], y)
  {
    forall i, j | 0 <= i < j < |s[1..]| ensures Apart(s[1..][i], s[1..][j]) {
      assert s[1..][i] == s[i + 1] && s[1..][j] == s[j + 1];
    }
  }

  lemma SliceInvariant(s: seq<Row>, a: nat, b: nat)
    requires a <= b <= |s| && TableInvariant(s)
    ensures TableInvariant(s[a..b])
  {
    forall i, j | 0 <= i < j < b - a ensures Apart(s[a..b][i], s[a..b][j]) {
      assert s[a..b][i] == s[a + i] && s[a..b][j] == s[a + j];
    }
  }

  lemma SliceSorted(s: seq<Row>, a: nat, b: nat, le: (Row, Row) -> bool)
    requires a <= b <= |s| && SortedBy(s, le)
    ensures SortedBy(s[a..b], le)
  {
    forall i, j | 0 <= i < j < b - a ensures le(s[a..b][i], s[a..b][j]) {
      assert s[a..b][i] == s[a + i] && s[a..b][j] == s[a + j];
    }
  }

  /** Filtering keeps the invariant. */
  lemma {:induction false} WhereKeepsInvariant(rows: seq<Row>, p: ListParams)
    requires TableInvariant(rows)
    ensures TableInvariant(Where(rows, p))
  {
    if rows != [] {
      TailInvariant(rows);
      WhereKeepsInvariant(rows[1..], p);
      if Listed(rows[0], p) {
        ConsInvariant(rows[0], Where(rows[1..], p));
        assert Where(rows, p) == [rows[0]] + Where(rows[1..], p);
      } else {
        assert Where(rows, p) == Where(rows[1..], p);
      }
    }
  }

  lemma {:induction false} InsertKeepsInvariant(x: Row, t: seq<Row>, le: (Row, Row) -> bool)
    requires TableInvariant(t) && forall y :: y in t ==> Apart(x, y)
    ensures TableInvariant(Insert(x, t, le))
  {
    if t == [] {
    } else if le(x, t[0]) {
      ConsInvariant(x, t);
    } else {
      TailInvariant(t);
      InsertKeepsInvariant(x, t[1..], le);
      var u := Insert(x, t[1..], le);
      forall y | y in u ensures Apart(t[0], y) {
        assert y in multiset(u);
        if y == x {
          assert t[0] in t;
        } else {
          assert y in multiset(t[1..]);
        }
      }
      ConsInvariant(t[0], u);
    }
  }

  /** Sorting keeps the invariant: it only rearranges rows. */
  lemma {:induction false} SortKeepsInvariant(s: seq<Row>, le: (Row, Row) -> bool)
    requires TableInvariant(s)
    ensures TableInvariant(Sort(s, le))
  {
    if s != [] {
      TailInvariant(s);
      SortKeepsInvariant(s[1..], le);
      forall y | y in Sort(s[1..], le) ensures Apart(s[0], y) {
        assert y in multiset(Sort(s[1..], le));
      }
      InsertKeepsInvariant(s[0], Sort(s[1..], le), le);
    }
  }

  /** The bounds of the page `List` cuts out of `Ordered`. */
  function PageStart(n: nat, offset: Option<int>): (k: nat)
    ensures k <= n
  {
    if offset.None? || offset.value <= 0 then 0 else if offset.value < n then offset.value else n
  }

  function PageEnd(n: nat, limit: Option<int>, offset: Option<int>): (k: nat)
    ensures PageStart(n, offset) <= k <= n
  {
    var start := PageStart(n, offset);
    if limit.None? || limit.value < 0 then n
    else if start + limit.value < n then start + limit.value else n
  }

  lemma {:induction false} ListIsSlice(rows: seq<Row>, p: ListParams)
    ensures var o := Ordered(rows, p);
      List(rows, p) == o[PageStart(|o|, p.offset)..PageEnd(|o|, p.limit, p.offset)]
  {
  }

  /** Every listed row is a row of the table that passes the filter: not archived unless
      archived rows are asked for, and matching `q` when it is not blank. */
  lemma ListSound(rows: seq<Row>, p: ListParams, x: Row)
    requires x in List(rows, p)
    ensures x in rows && Listed(x, p)
    ensures !p.includeArchived ==> x.archived == 0
  {
    ListIsSlice(rows, p);
    var o := Ordered(rows, p);
    assert x in o;
    assert x in multiset(o);
    assert x in multiset(Where(rows, p));
  }

  /** Without a page, every row that passes the filter is listed. */
  lemma ListComplete(rows: seq<Row>, p: ListParams, x: Row)
    requires p.limit.None? || p.limit.value < 0
    requires p.offset.None? || p.offset.value <= 0
    requires x in rows && Listed(x, p)
    ensures x in List(rows, p)
  {
    ListIsSlice(rows, p);
    assert x in multiset(Where(rows, p));
    assert x in multiset(Ordered(rows, p));
  }

  /** The listed rows come in the requested order. */
  lemma ListSorted(rows: seq<Row>, p: ListParams)
    ensures SortedBy(List(rows, p), OrderOf(p.sort))
  {
    OrdersTotal(p.sort);
    SortSorted(Where(rows, p), OrderOf(p.sort));
    ListIsSlice(rows, p);
    var o := Ordered(rows, p);
    SliceSorted(o, PageStart(|o|, p.offset), PageEnd(|o|, p.limit, p.offset), OrderOf(p.sort));
  }

  /** Because the unique index keeps lower-cased names apart, the order has no ties: by name
      the keys strictly increase, by year the years never decrease and within a year the keys
      strictly increase. The result is therefore fully determined. */
  lemma ListStrictlyOrdered(rows: seq<Row>, p: ListParams)
    requires TableInvariant(rows)
    ensures var r := List(rows, p);
      p.sort == ByName ==> forall i, j :: 0 <= i < j < |r| ==> KeyLt(NameKey(r[i].name), NameKey(r[j].name))
    ensures var r := List(rows, p);
      p.sort == ByYear ==> forall i, j :: 0 <= i < j < |r| ==>
        r[i].year < r[j].year || (r[i].year == r[j].year && KeyLt(NameKey(r[i].name), NameKey(r[j].name)))
  {
    ListSorted(rows, p);
    WhereKeepsInvariant(rows, p);
    SortKeepsInvariant(Where(rows, p), OrderOf(p.sort));
    ListIsSlice(rows, p);
    var o := Ordered(rows, p);
    SliceInvariant(o, PageStart(|o|, p.offset), PageEnd(|o|, p.limit, p.offset));
    var r := List(rows, p);
    assert forall i, j :: 0 <= i < j < |r| ==> OrderOf(p.sort)(r[i], r[j]) && Apart(r[i], r[j]);
  }

  /** Consecutive pages tile the list: the page of `n` rows at `o` followed by the page of
      `m` rows at `o + n` is the page of `n + m` rows at `o`. */
  lemma {:induction false} PagesTile(rows: seq<Row>, p: ListParams, o: nat, n: nat, m: nat)
    ensures List(rows, p.(limit := Some(n), offset := Some(o))) + List(rows, p.(limit := Some(m), offset := Some(o + n)))
         == List(rows, p.(limit := Some(n + m), offset := Some(o)))
  {
    var p1, p2, p3 := p.(limit := Some(n), offset := Some(o)), p.(limit := Some(m), offset := Some(o + n)),
                      p.(limit := Some(n + m), offset := Some(o));
    WhereIgnoresPage(rows, p, p1);
    WhereIgnoresPage(rows, p, p2);
    WhereIgnoresPage(rows, p, p3);
    var s := Ordered(rows, p);
    assert Ordered(rows, p1) == s && Ordered(rows, p2) == s && Ordered(rows, p3) == s;
    PageTile(s, o, n, m);
  }

  lemma {:induction false} PageTile(s: seq<Row>, o: nat, n: nat, m: nat)
    ensures Page(s, Some(n), Some(o)) + Page(s, Some(m), Some(o + n)) == Page(s, Some(n + m), Some(o))
  {
    var a, b, c := Clip(o, |s|), Clip(o + n, |s|), Clip(o + n + m, |s|);
    PageAt(s, o, n);
    PageAt(s, o + n, m);
    PageAt(s, o, n + m);
    assert s[a..b] + s[b..c] == s[a..c];
  }

  function Clip(i: nat, k: nat): (r: nat)
    ensures r <= k && (i <= k ==> r == i) && (i > k ==> r == k)
  {
    if i < k then i else k
  }

  /** A page with a non-negative limit and offset, as a slice. */
  lemma {:induction false} PageAt(s: seq<Row>, o: nat, n: nat)
    ensures Page(s, Some(n), Some(o)) == s[Clip(o, |s|)..Clip(o + n, |s|)]
  {
  }

  /** The filter reads only `q` and `includeArchived`. */
  lemma {:induction false} WhereIgnoresPage(rows: seq<Row>, p: ListParams, p': ListParams)
    requires p.q == p'.q && p.includeArchived == p'.includeArchived
    ensures Where(rows, p) == Where(rows, p')
  {
    if rows != [] {
      WhereIgnoresPage(rows[1..], p, p');
    }
  }

  /** The export's query (`includeArchived`, no `q`, no page) lists every row exactly once. */
  lemma ExportListsEveryRow(rows: seq<Row>)
    ensures multiset(List(rows, ListParams("", ByName, None, None, true))) == multiset(rows)
  {
    var p := ListParams("", ByName, None, None, true);
    WhereAll(rows, p);
  }

  lemma {:induction false} WhereAll(rows: seq<Row>, p: ListParams)
    requires p.includeArchived && Trim(p.q) == ""
    ensures Where(rows, p) == rows
  {
    if rows != [] {
      WhereAll(rows[1..], p);
      assert rows == [rows[0]] + rows[1..];
    }
  }

  /** The corrected listing with an offset and no limit: the ordered, filtered rows with the
      first `offset` ones skipped, as SQLite's `LIMIT -1 OFFSET n` gives them, where the query
      as written fails. */
  lemma OffsetOnlySkips(rows: seq<Row>, p: ListParams, o: nat)
    requires p.limit.None? && p.offset == Some(o)
    ensures ListAsWritten(rows, p) == Failure(OffsetSyntaxError)
    ensures List(rows, p) == Ordered(rows, p)[Clip(o, |Ordered(rows, p)|)..]
    ensures |List(rows, p)| == |Ordered(rows, p)| - Clip(o, |Ordered(rows, p)|)
  {
  }

  /** An offset with no limit: the query text is rejected as written, while as intended it
      skips the first rows. */
  lemma OffsetWithoutLimit(rows: seq<Row>)
    ensures ListAsWritten(rows, ListParams("", ByName, None, Some(1), false)) == Failure(OffsetSyntaxError)
    ensures var o := Ordered(rows, ListParams("", ByName, None, Some(1), false));
      List(rows, ListParams("", ByName, None, Some(1), false)) == if o == [] then [] else o[1..]
  {
  }

  /** One entry of the imported file as the loop reads it: `String(r.name || '')`,
      `String(r.label || '')`, `Number(r.year)` with 0 for a missing or unreadable year, and
      `r.type` with `""` for a missing one. */
  datatype ImportEntry = ImportEntry(name: string, caption: string, year: int, kind: string)

  /** What the loop's environment supplies for one entry: the clock reading, the id `genId`
      would return, and a storage error the entry's write may meet. */
  datatype Effects = Effects(now: string, freshId: string, fault: Option<string>)

  /** `SELECT id FROM robots WHERE LOWER(name) = LOWER(?) LIMIT 1`. */
  function FindByKey(rows: seq<Row>, key: string): (r: Option<Row>)
    ensures r.None? <==> !KeyInUse(rows, key)
    ensures r.Some? ==> r.value in rows && NameKey(r.value.name) == key
  {
    if rows == [] then None
    else if NameKey(rows[0].name) == key then Some(rows[0])
    else
      var r := FindByKey(rows[1..], key);
      assert r.None? ==> !KeyInUse(rows, key) by {
        if r.None? {
          forall i | 0 <= i < |rows| ensures NameKey(rows[i].name) != key {
            if i > 0 {
              assert rows[i] == rows[1..][i - 1];
            }
          }
        }
      }
      r
  }

  /** The year an entry is stored with: `Number(r.year) || currentYear`. */
  function EntryYear(e: ImportEntry, currentYear: int): int {
    if e.year == 0 then currentYear else e.year
  }

  /** The type an entry is stored with: `r.type || 'other'`. */
  function EntryKind(e: ImportEntry): string {
    if e.kind == "" then "other" else e.kind
  }

  /** Whether the loop counts the entry, rather than skipping it with `continue`. */
  predicate Named(e: ImportEntry) {
    Trim(e.name) != ""
  }

  /** One pass of the loop body: a blank name is skipped; a name whose lower-cased form a row
      with an id already holds updates that row's label, year, type and `updated_at`;
      otherwise a new row is inserted. */
  function ImportStep(rows: seq<Row>, e: ImportEntry, env: Effects, currentYear: int): Result<seq<Row>, string> {
    var name := Trim(e.name);
    if name == "" then Success(rows)
    else
      var existing := FindByKey(rows, NameKey(name));
      if existing.Some? && existing.value.id != "" then
        SqlUpdate(rows, existing.value.id,
                  Assignment(None, Trim(e.caption), EntryYear(e, currentYear), EntryKind(e), env.now), env.fault)
      else
        SqlInsert(rows, Row(env.freshId, name, Trim(e.caption), EntryYear(e, currentYear), EntryKind(e), env.now, env.now, 0),
                  env.fault)
  }

  /** The loop from a table and a count over the entries still to go, stopping at the first
      error: the table and the count it ends with, or that error. */
  function ImportAll(rows: seq<Row>, count: nat, entries: seq<ImportEntry>, envs: seq<Effects>, currentYear: int): Result<(seq<Row>, nat), string>
    requires |envs| == |entries|
    decreases |entries|
  {
    if entries == [] then Success((rows, count))
    else
      var step := ImportStep(rows, entries[0], envs[0], currentYear);
      if step.Failure? then Failure(step.error)
      else ImportAll(step.value, count + (if Named(entries[0]) then 1 else 0), entries[1..], envs[1..], currentYear)
  }

  /** The number of entries with a non-blank name. */
  function NamedCount(entries: seq<ImportEntry>): nat {
    if entries == [] then 0
    else (if Named(entries[0]) then 1 else 0) + NamedCount(entries[1..])
  }

  /** One pass of the loop at position `i`, whose write is `step`, moves the fold on by one. */
  lemma ImportAllFrom(rows: seq<Row>, count: nat, entries: seq<ImportEntry>, envs: seq<Effects>, currentYear: int,
                      i: nat, step: Result<seq<Row>, string>)
    requires |envs| == |entries| && i < |entries|
    requires step == ImportStep(rows, entries[i], envs[i], currentYear)
    ensures ImportAll(rows, count, entries[i..], envs[i..], currentYear)
      == if step.Failure? then Failure(step.error)
         else ImportAll(step.value, count + (if Named(entries[i]) then 1 else 0), entries[i + 1..], envs[i + 1..], currentYear)
  {
    assert entries[i..][0] == entries[i] && entries[i..][1..] == entries[i + 1..];
    assert envs[i..][0] == envs[i] && envs[i..][1..] == envs[i + 1..];
  }

  /** Each row keeps its position, id, name, creation time and archived flag, and rows may
      only be added after it. */
  predicate Extends(before: seq<Row>, after: seq<Row>) {
    |after| >= |before|
    && forall i :: 0 <= i < |before| ==>
      && after[i].id == before[i].id && after[i].name == before[i].name
      && after[i].createdAt == before[i].createdAt && after[i].archived == before[i].archived
  }

  /** The upsert of one named entry without a storage error: a name whose key no row holds
      is inserted under the fresh id with the defaults applied. */
  lemma ImportStepInserts(rows: seq<Row>, e: ImportEntry, env: Effects, currentYear: int)
    requires Named(e) && env.fault.None? && !KeyInUse(rows, NameKey(Trim(e.name)))
    ensures !IdInUse(rows, env.freshId) ==>
      ImportStep(rows, e, env, currentYear)
        == Success(rows + [Row(env.freshId, Trim(e.name), Trim(e.caption), EntryYear(e, currentYear), EntryKind(e), env.now, env.now, 0)])
    ensures IdInUse(rows, env.freshId) ==> ImportStep(rows, e, env, currentYear) == Failure(UniqueIdViolation)
  {
  }

  /** The upsert of one named entry without a storage error: when row `k` holds the name's
      key under a non-empty id, only that row's label, year, type and update time change. */
  lemma ImportStepUpdates(rows: seq<Row>, e: ImportEntry, env: Effects, currentYear: int, k: nat)
    requires TableInvariant(rows) && Named(e) && env.fault.None?
    requires k < |rows| && NameKey(rows[k].name) == NameKey(Trim(e.name)) && rows[k].id != ""
    ensures ImportStep(rows, e, env, currentYear) == Success(rows[k := rows[k].(
      caption := Trim(e.caption), year := EntryYear(e, currentYear), kind := EntryKind(e), updatedAt := env.now)])
  {
    var existing := FindByKey(rows, NameKey(Trim(e.name)));
    var j :| 0 <= j < |rows| && rows[j] == existing.value;
    assert j == k;
    assert RowIndex(rows, rows[k].id) == k;
    assert !KeyInUseByOther(rows, NameKey(rows[k].name), rows[k].id);
  }

  /** A successful pass keeps the table's invariant. */
  lemma ImportStepKeepsInvariant(rows: seq<Row>, e: ImportEntry, env: Effects, currentYear: int)
    requires TableInvariant(rows)
    requires ImportStep(rows, e, env, currentYear).Success?
    ensures TableInvariant(ImportStep(rows, e, env, currentYear).value)
  {
    var name := Trim(e.name);
    if name != "" {
      var existing := FindByKey(rows, NameKey(name));
      if existing.Some? && existing.value.id != "" {
        var a := Assignment(None, Trim(e.caption), EntryYear(e, currentYear), EntryKind(e), env.now);
        SqlUpdateKeepsInvariant(rows, existing.value.id, a, env.fault);
      } else {
        var row := Row(env.freshId, name, Trim(e.caption), EntryYear(e, currentYear), EntryKind(e), env.now, env.now, 0);
        SqlInsertKeepsInvariant(rows, row, env.fault);
      }
    }
  }

  /** A successful pass changes no row's place, id, name, creation time or archived flag,
      and leaves the entry's name in the table. */
  lemma ImportStepExtends(rows: seq<Row>, e: ImportEntry, env: Effects, currentYear: int)
    requires ImportStep(rows, e, env, currentYear).Success?
    ensures var next := ImportStep(rows, e, env, currentYear).value;
      Extends(rows, next) && (Named(e) ==> KeyInUse(next, NameKey(Trim(e.name))))
  {
    var name := Trim(e.name);
    if name != "" {
      var existing := FindByKey(rows, NameKey(name));
      if existing.Some? && existing.value.id != "" {
        var a := Assignment(None, Trim(e.caption), EntryYear(e, currentYear), EntryKind(e), env.now);
        SqlUpdateExtends(rows, existing.value.id, a, env.fault);
        ExtendsKeepsKey(rows, SqlUpdate(rows, existing.value.id, a, env.fault).value, NameKey(name));
      } else {
        var row := Row(env.freshId, name, Trim(e.caption), EntryYear(e, currentYear), EntryKind(e), env.now, env.now, 0);
        SqlInsertExtends(rows, row, env.fault);
      }
    }
  }

  /** An update that leaves the name alone keeps every row's place, id, name, creation time
      and archived flag. */
  lemma SqlUpdateExtends(rows: seq<Row>, id: string, a: Assignment, fault: Option<string>)
    requires a.name.None? && SqlUpdate(rows, id, a, fault).Success?
    ensures Extends(rows, SqlUpdate(rows, id, a, fault).value)
  {
  }

  /** A successful insert appends the row, so its key is then in use. */
  lemma SqlInsertExtends(rows: seq<Row>, row: Row, fault: Option<string>)
    requires SqlInsert(rows, row, fault).Success?
    ensures Extends(rows, SqlInsert(rows, row, fault).value)
    ensures KeyInUse(SqlInsert(rows, row, fault).value, NameKey(row.name))
  {
    assert SqlInsert(rows, row, fault).value[|rows|] == row;
  }

  lemma ExtendsKeepsKey(before: seq<Row>, after: seq<Row>, key: string)
    requires Extends(before, after) && KeyInUse(before, key)
    ensures KeyInUse(after, key)
  {
    var i :| 0 <= i < |before| && NameKey(before[i].name) == key;
    assert NameKey(after[i].name) == key;
  }

  /** A successful import adds to the count it starts from exactly the entries with a
      non-blank name. */
  lemma {:induction false} ImportCount(rows: seq<Row>, count: nat, entries: seq<ImportEntry>, envs: seq<Effects>, currentYear: int)
    requires |envs| == |entries|
    requires ImportAll(rows, count, entries, envs, currentYear).Success?
    ensures ImportAll(rows, count, entries, envs, currentYear).value.1 == count + NamedCount(entries)
    decreases |entries|
  {
    if entries != [] {
      var next := ImportStep(rows, entries[0], envs[0], currentYear).value;
      ImportCount(next, count + (if Named(entries[0]) then 1 else 0), entries[1..], envs[1..], currentYear);
    }
  }

  /** A successful import keeps the table's invariant. */
  lemma {:induction false} ImportKeepsInvariant(rows: seq<Row>, count: nat, entries: seq<ImportEntry>, envs: seq<Effects>, currentYear: int)
    requires |envs| == |entries| && TableInvariant(rows)
    requires ImportAll(rows, count, entries, envs, currentYear).Success?
    ensures TableInvariant(ImportAll(rows, count, entries, envs, currentYear).value.0)
    decreases |entries|
  {
    if entries != [] {
      ImportStepKeepsInvariant(rows, entries[0], envs[0], currentYear);
      var next := ImportStep(rows, entries[0], envs[0], currentYear).value;
      ImportKeepsInvariant(next, count + (if Named(entries[0]) then 1 else 0), entries[1..], envs[1..], currentYear);
    }
  }

  /** Every row already there keeps its place, id, name, creation time and archived flag:
      the import only rewrites label, year, type and update time, and appends. */
  lemma {:induction false} ImportExtends(rows: seq<Row>, count: nat, entries: seq<ImportEntry>, envs: seq<Effects>, currentYear: int)
    requires |envs| == |entries|
    requires ImportAll(rows, count, entries, envs, currentYear).Success?
    ensures Extends(rows, ImportAll(rows, count, entries, envs, currentYear).value.0)
    decreases |entries|
  {
    if entries != [] {
      ImportStepExtends(rows, entries[0], envs[0], currentYear);
      var next := ImportStep(rows, entries[0], envs[0], currentYear).value;
      ImportExtends(next, count + (if Named(entries[0]) then 1 else 0), entries[1..], envs[1..], currentYear);
    }
  }

  /** After a successful import every non-blank imported name, lower-cased, is in the table. */
  lemma ImportCoversNames(rows: seq<Row>, count: nat, entries: seq<ImportEntry>, envs: seq<Effects>, currentYear: int)
    requires |envs| == |entries|
    requires ImportAll(rows, count, entries, envs, currentYear).Success?
    ensures var next := ImportAll(rows, count, entries, envs, currentYear).value.0;
      forall k :: 0 <= k < |entries| && Named(entries[k]) ==> KeyInUse(next, NameKey(Trim(entries[k].name)))
  {
    forall k | 0 <= k < |entries| && Named(entries[k])
      ensures KeyInUse(ImportAll(rows, count, entries, envs, currentYear).value.0, NameKey(Trim(entries[k].name)))
    {
      ImportCoversName(rows, count, entries, envs, currentYear, k);
    }
  }

  lemma {:induction false} ImportCoversName(rows: seq<Row>, count: nat, entries: seq<ImportEntry>, envs: seq<Effects>, currentYear: int, k: nat)
    requires |envs| == |entries| && k < |entries| && Named(entries[k])
    requires ImportAll(rows, count, entries, envs, currentYear).Success?
    ensures KeyInUse(ImportAll(rows, count, entries, envs, currentYear).value.0, NameKey(Trim(entries[k].name)))
    decreases |entries|
  {
    var step := ImportStep(rows, entries[0], envs[0], currentYear);
    assert step.Success?;
    var next := step.value;
    var count' := count + (if Named(entries[0]) then 1 else 0);
    assert ImportAll(rows, count, entries, envs, currentYear) == ImportAll(next, count', entries[1..], envs[1..], currentYear);
    if k == 0 {
      ImportStepExtends(rows, entries[0], envs[0], currentYear);
      ImportExtends(next, count', entries[1..], envs[1..], currentYear);
      ExtendsKeepsKey(next, ImportAll(next, count', entries[1..], envs[1..], currentYear).value.0, NameKey(Trim(entries[0].name)));
    } else {
      assert entries[1..][k - 1] == entries[k];
      ImportCoversName(next, count', entries[1..], envs[1..], currentYear, k - 1);
    }
  }
}
