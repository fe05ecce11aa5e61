# Robot records: stores, repository and migrations

This project models in Dafny the persistence layer of a teaching app. The layer keeps
"robot" records, each with an id, a name, a label, a year and a type. Three
implementations of it exist side by side, and all three are modelled:

- the in-memory store (`useRobotsStore`): a sequence of robots and a selected id,
  validated before every write;
- the reducer slice (`robotsSlice`): the same rules, run against a list of items, plus
  the `saving` and `error` flags of the asynchronous save;
- the SQLite repository (`robotRepo`): the `robots` table as a sequence of rows.
  It covers create, update, remove, getById, the filtered, sorted and paged `list`, the
  export listing and the transactional import. The unique index on `LOWER(name)` is
  kept as an invariant of the table.

Alongside them the model covers:

- the schema migrations (`runMigrations`), which move a database from its stored
  `user_version` through three versioned DDL steps, one transaction each;
- the memoised selectors of the slice;
- the zod form schema;
- the follow button of the profile card.

Conventions:

- A robot's `label` is the field `caption` and its `type` is `kind`, because `label` and
  `type` are Dafny keywords. An empty string stands for a missing field.
- The current year, the fresh id that `genId` returns, the timestamp and each storage
  fault are parameters of the operations that use them.

Where the design and the code disagree, the model follows the code:

- The unique index on `LOWER(name)` is not partial. Archived rows keep their name, so
  a new robot cannot reuse it (`RobotRepo.TableInvariant`).
- The repository does not validate lengths, years or types. It relies on the form
  schema, and only the uniqueness check reaches it.
- `update` of an id no row holds fails with `Update échoué`. It fails that way even
  when the new name collides, because the `UPDATE` matches no row.
- The slice keeps a payload's own id without checking it. Its names therefore stay
  unique only while its ids do (`RobotsSlice.SharedIdScenario`).

Module by module:

- `Wrappers`: Option, Result and Outcome.
- `Text`: trimming, ASCII lower-casing, substring search, joining, decimal rendering
  and byte-wise string order.
- `Robots`: the record, the validation rules shared by the store and the slice, name
  normalisation, and the element-wise facts about lookup, removal and uniqueness.
- `Sorting`: a stable insertion sort over any total preorder.
- One module per source file: `RobotStore`, `RobotsSlice`, `Selectors`, `RobotSchema`,
  `RobotRepo`, `Migrations` and `ProfileCard`.

## Model

| member | source | states |
|---|---|---|
| Robots.WithId | store/robotStore.ts:70 | the stored robot carries the given id and exactly the input's fields |
| Robots.InputValidFieldByField | store/robotStore.ts:49-53 | an input is valid iff its trimmed name has at least 2 characters, its trimmed label at least 3, its year lies in [1950, current year] and its type is non-empty |
| Robots.Broken | store/robotStore.ts:49-53 | the broken rules come out in the order of the checks, with no rule twice |
| Robots.RanksAscend | store/robotStore.ts:49-53 | concatenating the four checks' outcomes, each empty or its own rule, keeps the check order |
| Robots.BrokenExactly | store/robotStore.ts:47-55 | a rule is listed iff the input violates it, and the list is empty iff the input is valid, so validation throws iff some rule is broken |
| Robots.LeadingSpacesToLower | store/robotStore.ts:44 | lower-casing leaves the length of the leading white space unchanged |
| Robots.TrailingSpacesToLower | store/robotStore.ts:44 | lower-casing leaves the length of the trailing white space unchanged |
| Robots.TrimEndToLower | store/robotStore.ts:44 | cutting trailing white space and lower-casing commute |
| Robots.TrimToLower | store/robotStore.ts:43-45 | trimming and ASCII lower-casing commute |
| Robots.NormalizeNameIdempotent | store/robotStore.ts:43-45 | normalising a normalised name changes nothing |
| Robots.FindIndex | store/robotStore.ts:79 | -1 iff no robot has the id; otherwise the index of the first robot with it |
| Robots.FindById | store/robotStore.ts:98 | nothing iff no robot has the id; otherwise the robot at `FindIndex`, which has that id |
| Robots.RemoveId | store/robotStore.ts:92 | a robot is kept iff it was there and has another id |
| Robots.RemoveIdAppend | store/robotStore.ts:92 | filtering distributes over concatenation |
| Robots.RemoveIdAbsent | store/robotStore.ts:92 | removing an id no robot has changes nothing |
| Robots.RemoveIdAt | store/robotStore.ts:92 | with unique ids, removing the id of the robot at k drops exactly position k and keeps the order of the rest |
| Robots.RemoveIdSplit | store/robotStore.ts:92 | removing x's id from before + [x] + after, where only x has it, gives before + after |
| Robots.RemoveIdKeepsNamesUnique | store/robotStore.ts:90-95 | removal keeps normalised names unique |
| Robots.RemoveIdKeepsIdsUnique | store/robotStore.ts:90-95 | removal keeps ids unique |
| Robots.RemoveIdKeepsValid | store/robotStore.ts:90-95 | removal keeps every robot valid |
| Robots.AppendKeepsNamesUnique | store/robotStore.ts:65-71 | appending a robot whose normalised name is not taken keeps names unique |
| Robots.AppendKeepsIdsUnique | store/robotStore.ts:70-71 | appending a robot under a fresh id keeps ids unique |
| Robots.AppendKeepsValid | store/robotStore.ts:64-71 | appending a validated input keeps every robot valid |
| Robots.ReplaceKeepsNamesUnique | store/robotStore.ts:81-86 | replacing the robot at k by one whose name no other robot uses keeps names unique |
| Text.TrimShape | store/robotStore.ts:44 | the trim of a string is the slice of it left once its leading and trailing white space are cut; what was cut is white space, and the result is empty or starts and ends with a non-space |
| Text.TrimUnspaced | store/robotStore.ts:44 | a string that neither starts nor ends with white space is its own trim |
| Text.TrimIdempotent | store/robotStore.ts:44 | trimming twice is trimming once |
| Text.TrimEmptyIff | services/robotRepo.ts:155-156 | a name trims to empty iff it is all white space (the import skips exactly those) |
| Text.ToLower | store/robotStore.ts:44 | same length, each character lower-cased |
| Text.ToLowerIdempotent | store/robotStore.ts:44 | lower-casing twice is lower-casing once |
| Text.ContainsAt | services/robotRepo.ts:36 | a string contains every substring found at some offset |
| Text.ContainsWitness | services/robotRepo.ts:91-92 | containment yields the offset where the needle occurs |
| Text.Join | store/robotStore.ts:54 | joining no parts gives "", and the first part is a prefix of the result |
| Text.JoinLength | store/robotStore.ts:54 | the joined length is the parts' total length plus one separator between each two |
| Text.NatToString | store/robotStore.ts:52 | a non-empty string of decimal digits |
| Text.ParseNatToString | store/robotStore.ts:52 | the decimal rendering of the year in the message reads back as that number |
| Text.LexLeTotal | services/robotRepo.ts:95 | the order of `ORDER BY LOWER(name)` is total |
| Text.LexLeAntisymmetric | services/robotRepo.ts:95 | two keys ordered each way are equal |
| Text.LexLeTransitive | services/robotRepo.ts:95 | that order is transitive |
| Sorting.Sort | features/robots/selectors.ts:6-7 | the sorted copy is a permutation of the items |
| Sorting.SortSorted | features/robots/selectors.ts:6-7 | under a total preorder the copy is sorted |
| Sorting.SortStable | features/robots/selectors.ts:6-7 | items the comparator ties keep their original order |
| RobotStore.ValidateInput | store/robotStore.ts:47-55 | passes iff the input is valid; otherwise fails with the message of every broken rule, in check order, joined by " \| " |
| RobotStore.StoreMessagesCheck | store/robotStore.ts:49-53 | checking one more rule appends that rule's message iff the input violates it, and nothing otherwise |
| RobotStore.Store.constructor | store/robotStore.ts:60-61 | no robots and nothing selected |
| RobotStore.Store.Create | store/robotStore.ts:63-73 | fails first on validation, then on a taken normalised name; succeeds iff neither; success appends the input under the fresh id and returns it; failure changes nothing; the selection stays; uniqueness of names and ids and validity are kept |
| RobotStore.Store.Update | store/robotStore.ts:75-88 | fails on validation, then on an unknown id, then on a name another robot uses, and on nothing else; success replaces the robot in its position by the input under the same id; failure changes nothing; the invariant is kept |
| RobotStore.Store.Remove | store/robotStore.ts:90-95 | every robot with the id is dropped; the selection is cleared iff it was that id; the invariant is kept |
| RobotStore.Store.GetById | store/robotStore.ts:97-99 | nothing iff no robot has the id, else a stored robot with that id |
| RobotStore.Store.SetSelected | store/robotStore.ts:101 | the selection is set and the robots are unchanged |
| RobotStore.Store.ClearAll | store/robotStore.ts:103 | no robots, nothing selected |
| RobotStore.ScenarioNames | store/robotStore.ts:43-45 | "R2D2" and " r2d2 " both normalise to "r2d2" |
| RobotStore.ScenarioInputsValid | store/robotStore.ts:49-53 | both scenario inputs pass every rule |
| RobotsSlice.AssertValid | features/robots/robotsSlice.ts:33-41 | passes iff the robot's fields are valid; otherwise fails with the slice's own messages of every broken rule, joined by " \| " |
| RobotsSlice.SliceMessagesCheck | features/robots/robotsSlice.ts:35-39 | checking one more rule appends the slice's message for it iff the robot violates it, and nothing otherwise |
| RobotsSlice.Incoming | features/robots/robotsSlice.ts:67 | the payload's fields, under its own id when it has one, else under the fresh id |
| RobotsSlice.RobotsState.constructor | features/robots/robotsSlice.ts:22-26 | no items, not saving, no error |
| RobotsSlice.RobotsState.CreateRobot | features/robots/robotsSlice.ts:66-73 | fails on validation, then on a taken name; succeeds iff neither and then appends the incoming robot; a failed reducer leaves the items unchanged; flags untouched; the invariant is kept |
| RobotsSlice.RobotsState.UpdateRobot | features/robots/robotsSlice.ts:74-83 | fails on validation, unknown id or a colliding name, and on nothing else; success replaces the item in place; the invariant is kept when ids are unique as well |
| RobotsSlice.ScenarioInputsValid | features/robots/robotsSlice.ts:33-41 | the two payloads of the shared-id scenario pass validation |
| RobotsSlice.SharedIdScenario | features/robots/robotsSlice.ts:66-83 | two payloads that bring the same id are both pushed, and renaming the first to the second's name then passes every check of `updateRobot` and leaves two items with the same normalised name |
| RobotsSlice.RobotsState.DeleteRobot | features/robots/robotsSlice.ts:84-86 | the items without that id; the invariant is kept |
| RobotsSlice.RobotsState.ClearAll | features/robots/robotsSlice.ts:87 | no items; flags untouched |
| RobotsSlice.RobotsState.SavePending | features/robots/robotsSlice.ts:91 | saving, no error, items unchanged |
| RobotsSlice.RobotsState.SaveFulfilled | features/robots/robotsSlice.ts:92 | not saving, error and items unchanged |
| RobotsSlice.RobotsState.SaveRejected | features/robots/robotsSlice.ts:93 | not saving; the error is the message, or "Erreur async" when it is empty |
| Selectors.SelectRobots | features/robots/selectors.ts:4 | the items themselves |
| Selectors.SelectRobotById | features/robots/selectors.ts:5 | nothing for a missing or empty id; otherwise the first item with that id, if any |
| Selectors.NameLeTotalPreorder | features/robots/selectors.ts:6 | the name comparator is a total preorder whenever the collation is |
| Selectors.YearLeTotalPreorder | features/robots/selectors.ts:7 | year, then name, is a total preorder whenever the collation is |
| Selectors.CaseFoldTotalPreorder | features/robots/selectors.ts:6 | comparing lower-cased names is one such collation |
| Selectors.MakeSelectRobotsSorted | features/robots/selectors.ts:9-14 | "name" gives the by-name selector's result, anything else the by-year one |
| Selectors.SortedByNameSpec | features/robots/selectors.ts:6 | a permutation of the items, sorted by collated name, with tied robots in store order |
| Selectors.SortedByYearSpec | features/robots/selectors.ts:7 | a permutation, years non-decreasing, a collated name order within a year, ties in store order |
| RobotSchema.TypeAcceptedExactly | validation/robotSchema.ts:9 | the type is accepted iff it is one of the five enum values |
| RobotSchema.YearBoundsInclusive | validation/robotSchema.ts:8 | 1950 and the current year are accepted; 1949 and the next year are refused |
| RobotSchema.SchemaKeepsStoreYearAndType | validation/robotSchema.ts:5-10 | a schema-valid form breaks neither the stores' year rule nor their type rule |
| RobotSchema.StoreValidImpliesSchemaValid | validation/robotSchema.ts:5-10 | an input the stores accept, with an enum type, passes the schema |
| RobotSchema.SchemaAndStoresDisagree | validation/robotSchema.ts:6 | " a" passes the schema's untrimmed length check but fails the stores' trimmed one; "drone" is not a type |
| RobotRepo.RowIndex | services/robotRepo.ts:72 | -1 iff no row has the id, else the first row with it |
| RobotRepo.GetById | services/robotRepo.ts:70-74 | nothing iff no row has the id; given the table invariant, the only row with it |
| RobotRepo.Apply | services/robotRepo.ts:51 | the `SET` list: the assigned columns change, and the id, creation time and archived flag stay |
| RobotRepo.SqlInsertKeepsInvariant | services/robotRepo.ts:31-34 | an insert the table accepts keeps ids and lower-cased names unique |
| RobotRepo.SqlUpdateKeepsInvariant | services/robotRepo.ts:50-53 | an update the table accepts keeps them unique |
| RobotRepo.Translate | services/robotRepo.ts:35-39 | an error whose lower-cased message contains "unique" becomes `Name déjà utilisé`; any other error is passed on unchanged |
| RobotRepo.UniqueFirstTranslates | services/robotRepo.ts:36 | every message starting with "UNIQUE" is translated |
| RobotRepo.ViolationsTranslate | services/robotRepo.ts:36-37 | both of SQLite's unique-constraint messages, name and id, become `Name déjà utilisé` |
| RobotRepo.DeleteId | services/robotRepo.ts:67 | a row is kept iff it was there and has another id |
| RobotRepo.DeleteKeepsInvariant | services/robotRepo.ts:67 | deletion keeps the table invariant |
| RobotRepo.DeleteAbsent | services/robotRepo.ts:67 | deleting an absent id changes nothing |
| RobotRepo.Repo.Create | services/robotRepo.ts:26-44 | a storage fault fails with its translated message; otherwise fails, with `Name déjà utilisé`, iff some row, archived or not, has the lower-cased trimmed name; success appends the trimmed row with both timestamps `now` and archived 0; failure changes nothing |
| RobotRepo.Repo.Update | services/robotRepo.ts:46-63 | a fault fails with its translation; an unknown id fails with `Update échoué`; a known id fails iff another row has the name; success rewrites that row's columns in place, keeping id, creation time and archived flag |
| RobotRepo.Repo.Remove | services/robotRepo.ts:65-68 | all rows without the id remain; no row has it afterwards |
| RobotRepo.OrdersTotal | services/robotRepo.ts:95 | both `ORDER BY` clauses are total preorders |
| RobotRepo.Where | services/robotRepo.ts:89-94 | a row passes iff it is active or archived rows are asked for, and the trimmed lower-cased query is empty or occurs in its lower-cased name or label |
| RobotRepo.Page | services/robotRepo.ts:96-98 | SQLite's `LIMIT`/`OFFSET`: a negative or missing offset starts at 0; a negative or missing limit takes the rest |
| RobotRepo.ListAsWritten | services/robotRepo.ts:96-98 | the query as built fails iff an offset comes without a limit; otherwise it gives `List` |
| RobotRepo.ListIsSlice | services/robotRepo.ts:96-98 | a listing is a contiguous slice of the filtered and sorted rows |
| RobotRepo.ListSound | services/robotRepo.ts:86-94 | every listed row is in the table and passes the filter, so no archived row by default |
| RobotRepo.ListComplete | services/robotRepo.ts:86-94 | without paging, every row that passes the filter is listed |
| RobotRepo.ListSorted | services/robotRepo.ts:95 | a listing is sorted by the requested key |
| RobotRepo.ListStrictlyOrdered | services/robotRepo.ts:95 | under the unique index, names strictly increase by name, and (year, name) strictly increases by year |
| RobotRepo.PagesTile | services/robotRepo.ts:96-98 | the page of n rows at offset o followed by the page of m at o + n is the page of n + m at o |
| RobotRepo.WhereIgnoresPage | services/robotRepo.ts:89-94 | the filter depends only on the query and the archived flag |
| RobotRepo.WhereAll | services/robotRepo.ts:89-90 | with archived rows included and no query, the filter keeps every row |
| RobotRepo.ExportListsEveryRow | services/robotRepo.ts:105-107 | the export listing holds exactly the table's rows, archived ones included |
| RobotRepo.OffsetOnlySkips | services/robotRepo.ts:96-98 | with an offset and no limit, the query as written fails, and the corrected listing is the ordered rows with the first `offset` ones skipped |
| RobotRepo.OffsetWithoutLimit | services/robotRepo.ts:96-98 | an offset of 1 with no limit is a syntax error as written; the corrected listing drops the first row |
| RobotRepo.FindByKey | services/robotRepo.ts:161 | nothing iff no row has the lower-cased name; else a row that has it |
| RobotRepo.ImportAllFrom | services/robotRepo.ts:154-169 | one loop iteration: folding from entry i is one step, then folding from i + 1, or the step's error |
| RobotRepo.ImportStepInserts | services/robotRepo.ts:164-166 | a named entry whose name is new inserts one row with the trimmed name and label, the defaulted year and type and `now` as both timestamps; a used fresh id fails on the primary key |
| RobotRepo.ImportStepUpdates | services/robotRepo.ts:161-163 | a named entry whose name is taken rewrites that row's label, year, type and update time, and nothing else |
| RobotRepo.ImportStepKeepsInvariant | services/robotRepo.ts:161-166 | a successful step keeps the unique index |
| RobotRepo.ImportStepExtends | services/robotRepo.ts:161-166 | a successful step keeps every row's id, name, creation time and archived flag, and leaves the entry's name in use |
| RobotRepo.SqlUpdateExtends | services/robotRepo.ts:163 | an update that leaves the name alone keeps ids, names, creation times and archived flags |
| RobotRepo.SqlInsertExtends | services/robotRepo.ts:166 | an insert keeps the existing rows and puts the new name in use |
| RobotRepo.ImportCount | services/robotRepo.ts:154-168 | a successful import counts exactly the entries whose trimmed name is non-empty |
| RobotRepo.ImportKeepsInvariant | services/robotRepo.ts:150-170 | a successful import keeps the unique index |
| RobotRepo.ImportExtends | services/robotRepo.ts:161-166 | no existing row loses its id, name, creation time or archived flag, so the ids of existing rows are kept |
| RobotRepo.ImportCoversNames | services/robotRepo.ts:154-167 | after a successful import every named entry's name is in use |
| RobotRepo.Repo.Import | services/robotRepo.ts:150-175 | all or nothing: if some step fails, the table is restored and the error returned; otherwise the table is the fold of the steps and the result its count |
| Migrations.ExecDdl | db/index.ts:28-56 | a step's DDL succeeds iff the table exists or is being created, and the column is not added twice; success leaves the table present and only adds to the schema |
| Migrations.CreationsIdempotent | db/index.ts:28-56 | `CREATE … IF NOT EXISTS` steps are idempotent; a second `ALTER TABLE … ADD COLUMN` fails with the duplicate-column error |
| Migrations.ReadVersion | db/index.ts:18-21 | a missing `user_version` reads as 0 |
| Migrations.Step | db/index.ts:62-70 | a step commits iff its DDL and its version write succeed, and then records its version; otherwise it fails with that error |
| Migrations.StepsIncreasing | db/index.ts:28-56 | the migration versions strictly increase |
| Migrations.RunFromMonotone | db/index.ts:58-73 | running later steps never lowers the stored version |
| Migrations.RunMonotone | db/index.ts:58-73 | a run never lowers the stored version |
| Migrations.RunFromFailure | db/index.ts:62-70 | a failed run stops at a pending step whose error it returns, with the state the earlier steps committed |
| Migrations.RunFailure | db/index.ts:58-73 | the same for a whole run from the stored version |
| Migrations.UpToDateUnchanged | db/index.ts:59-61 | from version 3 or later, a run changes nothing and passes |
| Migrations.SuccessReachesLatest | db/index.ts:58-73 | a successful run ends at version 3 or later |
| Migrations.LastStepSetsLatest | db/index.ts:50-56 | a successful run that had something pending ends at exactly version 3 |
| Migrations.RunIdempotent | db/index.ts:58-73 | after a successful run, the next run changes nothing and passes, whatever faults it meets |
| Migrations.FreshRun | db/index.ts:28-56 | a fresh database ends at version 3 with the table, both indexes and the archived column |
| Migrations.SuccessFromZero | db/index.ts:28-73 | from version 0, whatever the schema and the storage faults, a run that succeeds ends at version 3 with the table, both indexes and an archived column defaulting to 0 |
| Migrations.FaultInSecondStep | db/index.ts:62-70 | a fault in step 2 leaves version 1 with only the table, and returns the fault |
| Migrations.ColumnAlreadyThere | db/index.ts:53 | a database without a version whose table already has `archived` stops at version 2 with `duplicate column name: archived` |
| Migrations.Database.GetUserVersion | db/index.ts:18-21 | the stored version, or 0 when none is stored |
| Migrations.Database.SetUserVersion | db/index.ts:23-25 | the version is stored and the schema unchanged |
| Migrations.Database.RunMigrations | db/index.ts:58-73 | the new version, schema and outcome are those of `Run` on the old state; the version never decreases |
| ProfileCard.Toggle | app/tp1-profile-card/components/ProfileCard.tsx:19-30 | flips `isFollowing`; following adds one, unfollowing removes one with a floor at 0; the count is never negative |
| ProfileCard.Tick | app/tp1-profile-card/components/ProfileCard.tsx:37-42 | one more follower, following unchanged |
| ProfileCard.ButtonLabel | app/tp1-profile-card/components/ProfileCard.tsx:16 | "Following" iff following, else "Follow" |
| ProfileCard.InitialSound | app/tp1-profile-card/components/ProfileCard.tsx:11-13 | the mounted state has a non-negative count |
| ProfileCard.ApplyKeepsSound | app/tp1-profile-card/components/ProfileCard.tsx:19-42 | a click or a tick keeps the count non-negative, and at least 1 while following |
| ProfileCard.RunKeepsSound | app/tp1-profile-card/components/ProfileCard.tsx:19-42 | so does any sequence of them |
| ProfileCard.SoundToggleExact | app/tp1-profile-card/components/ProfileCard.tsx:24-26 | on such a state the floor never takes effect: a click moves the count by exactly one |
| ProfileCard.RunExact | app/tp1-profile-card/components/ProfileCard.tsx:19-42 | following flips with each click, and the count moves by the ticks and by one per change of following |
| ProfileCard.InitialRun | app/tp1-profile-card/components/ProfileCard.tsx:11-42 | from mount, the card follows iff the clicks are odd, and shows 1234 plus the ticks plus one while following |
| ProfileCard.ToggleTwice | app/tp1-profile-card/components/ProfileCard.tsx:21-29 | two clicks cancel on every reachable state but not on (following, 0) |

## Left out

- File picking, `JSON.parse` and the `Number`/`String` coercions of the import: the document is a sequence of entries with string fields and an integer year (0 meaning missing or NaN).
- `exportToJson`: writing the file or the browser download and `JSON.stringify` are I/O; only the listing it serialises is modelled.
- `genId`, `Date.now`, `new Date().toISOString()` and `getFullYear()`: each value is a parameter. The precondition that a fresh id is new stands for `genId`'s randomness.
- Text.ToLower: ASCII lower-casing only. SQLite's `LOWER` is ASCII, but JavaScript's `toLowerCase` and `trim` are Unicode-wide, and `.length` counts UTF-16 units, which the model does not distinguish from characters.
- RobotRepo.Where: `LIKE` wildcards `%` and `_` inside the query are treated as plain characters.
- Selectors.SortedByNameSpec: `localeCompare(…, 'fr', {sensitivity: 'base'})` is an abstract collation (any total preorder). French accent folding is not modelled.
- Robots.InputValidFieldByField: the year is an integer, so `Number.isInteger` never fails and the "entier requis" messages never fire. NaN, fractions and form strings are not modelled.
- The `persist` middleware, its AsyncStorage snapshot and its `migrate` callback: storage I/O.
- `getDb`'s memoised promise and opening the database: I/O and concurrency.
- `saveRobotAsync`'s 500 ms delay and its dispatch: the async thunk itself is not modelled, only the reducers it triggers and the pending, fulfilled and rejected cases.
- Migrations.Step: a fault in `BEGIN`, `COMMIT`, `ROLLBACK` or a `PRAGMA` is folded into one fault per step, which rolls the whole step back.
- RobotRepo.Repo.Import: a failing `BEGIN` or `COMMIT` of the import transaction is not a separate fault. `BEGIN` fails before any statement runs, and a failing `COMMIT` is rolled back and rethrown like a failing statement, so both leave the table as it was and return the error, the outcome the model gives a failing step.
- RobotsSlice.RobotsState.UpdateRobot: keeps names unique only while ids are unique too. `createRobot` keeps a payload's own id without checking it, so two items can share an id, and an update can then give two items the same normalised name (RobotsSlice.SharedIdScenario). The model keeps this behaviour as the source has it.
- Migrations.ExecDdl: creating the unique index over rows that already share a name is not modelled; every schema starts from an empty or index-consistent table.
- ProfileCard.Toggle: the nested `setState` updater runs once. React's double call under StrictMode and the timer's scheduling are not modelled, and counts are unbounded integers.
- Rendering, styles, navigation, the camera and the form screens: not part of this model.

## Findings

| source | as written | input that shows it | evidently intended | confidence | as-written member | corrected member |
|---|---|---|---|---|---|---|
| services/robotRepo.ts:96-98 | the `OFFSET` clause is appended even when no `LIMIT` is given, and SQLite fails to parse `… ORDER BY … OFFSET n` | `list({ offset: 1 })` | skip the first `offset` rows of the whole listing, as SQLite's `LIMIT -1 OFFSET n` does | not executed | RobotRepo.ListAsWritten | RobotRepo.OffsetOnlySkips |
