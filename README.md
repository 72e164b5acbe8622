# Task store of the todo-app, modelled in Dafny

This project models the task store of a small NestJS/TypeORM to-do backend and proves properties about that model. The store is `TasksService`, which sits over one PostgreSQL table, `tasks`. The model covers:

- the `Task` record, with its two enumerations: status (`pending`, `done`, `in_progress`, `paused`) and priority (`red`, `yellow`, `blue`);
- the column defaults and the values the database generates on insertion (for the serial id and for the creation time);
- the request validator for creating a task;
- the six store operations: `create`, `findAll`, `findOne`, `update`, `softDelete` and `hardDelete`, plus `remove`, an alias of `softDelete`.

Modules, one per concern:

- `Wrappers`: `Option` and `Result`.
- `TaskEntity` (task_entity.dfy): the enumerations, their string codes, the row type and the row that an insertion stores (`NewRow`).
- `CreateTaskDto` (create_task_dto.dfy): the name rule and the create-request validator.
  - The name rule matches the pattern `^[a-zA-Z0-9\s\-_]+$` code unit by code unit, with the full JavaScript `\s` set. The length bounds are stated on UTF-16 code units. The validator library counts a surrogate pair as one character and skips U+FE0E and U+FE0F. Each of those units fails the pattern anyway, so the verdict is the same, and `NameAcceptedIff` states it with the length counted in characters.
  - The validator reports the set of failing fields.
- `SqlSemantics` (sql_semantics.dfy): the two pieces of PostgreSQL behaviour the query relies on.
  - The order of `YYYY-MM-DD` dates is string order.
  - `ILIKE` is modelled as a pattern matcher with `%`, `_` and backslash escapes and ASCII case folding.
- `TaskErrors` (task_errors.dfy): the errors the store raises, with their HTTP status and their message.
- `TaskQuery` (task_query.dfy): `findAll`, written as pure functions.
  - The filter conditions accumulate and are ANDed.
  - The rows are then ordered by `createdAt` descending, sliced by `OFFSET (page-1)*limit LIMIT limit` and returned with their page metadata.
- `TasksService` (tasks_service.dfy): the `TaskStore` class and the table functions its methods are specified with.
  - The class holds the table as a sequence of rows, the id sequence and the creation clock.
  - The table functions are lookup, replacement and deletion, the status-transition rule and the merge of an update patch.

The update patch (`UpdateTaskDto`) is not among the modelled files. It is modelled as the creation fields made optional, which is how the controller describes it (`tasks/tasks.controller.ts`, lines 235 and 246).

The table keeps rows in insertion order. Its invariant (`TasksService.WellFormed`) says all of the following:
- ids are positive;
- ids and creation times strictly increase along the table;
- no two rows share a name.

The name condition is an assumption about storage. The service only translates PostgreSQL's unique-violation code `23505` into "A task with this name already exists". Neither the entity nor the migration declares the constraint. The model makes the check explicit and refuses a duplicate name, both in `create` and in `update`.

Where the documentation and the code differ, the model follows the code:
- **Empty filter strings.** An empty `startDate`, `endDate` or `search` is ignored, because the code tests those filters for JavaScript truthiness (`TaskQuery.Given`).
- **Wildcards in the search text.** The search text is pasted into the `ILIKE` pattern unescaped, so `%` and `_` in it act as wildcards (`SqlSemantics.UnderscoreIsWildcard`). For a search text without them, the filter is exactly a case-insensitive substring test (`SqlSemantics.ILikeContains`).
- **Status transitions.** Only a change away from `done` is refused, and a patch without a status is always allowed.

## Model

| member | source | states |
|---|---|---|
| TaskEntity.StatusCode | src/tasks/entities/task.entity.ts:9-14 | every status is stored as one of exactly `pending`, `done`, `in_progress`, `paused` |
| TaskEntity.StatusCodesExact | src/tasks/entities/task.entity.ts:9-14 | parsing inverts the code; a string parses as a status exactly when it is one of the four codes |
| TaskEntity.PriorityCode | src/tasks/entities/task.entity.ts:16-20 | every priority is stored as one of exactly `red`, `yellow`, `blue` |
| TaskEntity.PriorityCodesExact | src/tasks/entities/task.entity.ts:16-20 | parsing inverts the code; a string parses as a priority exactly when it is one of the three codes |
| TaskEntity.NewRow | src/tasks/entities/task.entity.ts:22-87 | the stored row takes the caller's fields; an omitted status is `pending`, an omitted priority `blue`, an omitted active flag `true`; id and creation time are the store's, not the caller's |
| CreateTaskDto.Utf16 | src/tasks/dto/create-task.dto.ts:22-23 | a string has at least as many code units as characters and at most twice as many |
| CreateTaskDto.ValidName | src/tasks/dto/create-task.dto.ts:21-28 | the four name decorators together: on code units, 3 to 100 units matching the pattern; so an accepted name is non-empty, a one-character name (at most two code units) is refused, and so is a name of more than 100 characters |
| CreateTaskDto.NameAcceptedIff | src/tasks/dto/create-task.dto.ts:21-28 | a name is accepted exactly when it has 3 to 100 characters, all letters, digits, whitespace, `-` or `_`; an accepted name is non-empty |
| CreateTaskDto.Validate | src/tasks/dto/create-task.dto.ts:14-62 | a request is accepted exactly when every field passes; otherwise the error lists exactly the failing fields and is non-empty; a missing `dueDate` always fails; accepted fields are the request's own values (enums through their codes, omitted optionals stay omitted) |
| SqlSemantics.LexLe | src/tasks/tasks.service.ts:72-85 | the order in which `date` values compare in `BETWEEN`, `>=` and `<=`: every date is within a range bounded by itself, and only the empty string sorts at or before the empty string |
| SqlSemantics.LexLeTotal | src/tasks/tasks.service.ts:72-85 | any two dates compare one way or the other |
| SqlSemantics.LexLeAntisymmetric | src/tasks/tasks.service.ts:72-85 | dates that compare both ways are equal |
| SqlSemantics.LexLeTransitive | src/tasks/tasks.service.ts:72-85 | the date order is transitive |
| SqlSemantics.LexLeCommonPrefix | src/tasks/tasks.service.ts:72-85 | a shared prefix (the same year and month) does not change how two dates compare |
| SqlSemantics.ILike | src/tasks/tasks.service.ts:86-90 | `ILIKE` with `%`, `_` and backslash escapes, folding ASCII case: `%` matches every string, and a pattern without wildcards only matches strings of its own length |
| SqlSemantics.ILikeAnything | src/tasks/tasks.service.ts:86-90 | the pattern `%` matches every name |
| SqlSemantics.ILikePrefix | src/tasks/tasks.service.ts:86-90 | for a text without wildcards, `q%` matches exactly the names that start with `q` ignoring case |
| SqlSemantics.ILikeContains | src/tasks/tasks.service.ts:86-90 | for a search text without wildcards, `name ILIKE '%q%'` holds exactly when `q` occurs in the name ignoring case |
| SqlSemantics.UnderscoreIsWildcard | src/tasks/tasks.service.ts:86-90 | the unescaped search `a_c` finds `abc`, which does not contain `a_c` |
| TaskQuery.Conditions | src/tasks/tasks.service.ts:56-91 | the `andWhere` chain: no filters, or filters with nothing supplied, add no condition; at most five conditions are added |
| TaskQuery.Selected | src/tasks/tasks.service.ts:56-91 | the filter-by-filter reference for which rows a listing keeps; without filters, or with none supplied, every row is kept |
| TaskQuery.CondsMean | src/tasks/tasks.service.ts:56-91 | each filter's conditions mean that filter's clause: equality for status and priority when given; the active flag whenever defined (so `false` filters too); inclusive date bounds applying independently; the `ILIKE` search when the text is non-empty |
| TaskQuery.ConditionsMeanSelected | src/tasks/tasks.service.ts:56-91 | the ANDed accumulated conditions hold exactly for the rows the filter-by-filter reference `Selected` admits |
| TaskQuery.ReversedDateRangeSelectsNothing | src/tasks/tasks.service.ts:72-76 | with both bounds given and the start after the end, no row is selected |
| TaskQuery.ActiveFlagIgnoredUnlessGiven | src/tasks/tasks.service.ts:67-71 | without an `isActive` filter, flipping a row's active flag does not change whether it is selected, so inactive rows are listed |
| TaskQuery.Keep | src/tasks/tasks.service.ts:56-91 | the rows kept are exactly the table's rows satisfying the condition, each as many times as in the table, and never more rows than the table |
| TaskQuery.KeepAll | src/tasks/tasks.service.ts:56-91 | keeping drops a row exactly when some row fails; when none fails the table is returned unchanged |
| TaskQuery.InsertByNewest | src/tasks/tasks.service.ts:94 | inserting into a newest-first list adds exactly that row and keeps it newest first |
| TaskQuery.SortByNewest | src/tasks/tasks.service.ts:94 | `ORDER BY createdAt DESC` yields a permutation of its input with non-increasing creation times |
| TaskQuery.SortByNewestOfCreationOrder | src/tasks/tasks.service.ts:94 | rows stored in creation order list in reverse storage order (created A, B, C lists as C, B, A) |
| TaskQuery.CeilDiv | src/tasks/tasks.service.ts:105 | the page count is `ceil(total / limit)`: enough pages of `limit` for every row, and one fewer is not |
| TaskQuery.Matching | src/tasks/tasks.service.ts:54-94 | the listing contains exactly the table's rows that the filters select, each as many times as in the table (so its length is the match count), newest first |
| TaskQuery.Slice | src/tasks/tasks.service.ts:95-97 | `OFFSET o LIMIT l` returns at most `l` rows, none past the end, exactly `min(l, n - o)` rows otherwise, each the row at its offset position, and keeps newest-first order |
| TaskQuery.FindAll | src/tasks/tasks.service.ts:37-107 | page (default 1) below 1 fails first, then limit (default 10) outside 1..100; it succeeds exactly when both are valid; the page holds the selected rows from position `(page-1)*limit`, at most `limit` of them, empty past the last page, newest first; meta echoes page and limit, gives as total the length of the listing (each selected row counted once per table occurrence) and gives `ceil(total/limit)` pages |
| TaskQuery.PageOfPosition | src/tasks/tasks.service.ts:95-96 | every position of the listing lies on some page `>= 1`, inside that page's row range |
| TaskQuery.EveryMatchOnItsPage | src/tasks/tasks.service.ts:93-97 | position `(page-1)*limit + i` of the listing is row `i` of page `page`, so paging loses no selected row |
| TaskQuery.PageIsSlice | src/tasks/tasks.service.ts:93-97 | a valid page is the `OFFSET (page-1)*limit LIMIT limit` slice of the ordered listing |
| TaskQuery.RowOfSlice | src/tasks/tasks.service.ts:95-96 | row `i` of a slice at `offset` is row `offset + i` of the listing when that exists |
| TaskQuery.DateRangeExample | src/tasks/tasks.service.ts:72-76 | the range 2024-05-01..2024-05-31 keeps due dates 2024-05-01 and 2024-05-15 (bounds inclusive) and drops 2024-06-01 |
| TaskQuery.SearchHit | src/tasks/tasks.service.ts:86-90 | a search text without wildcards found anywhere in a name selects that name |
| TaskQuery.SearchExample | src/tasks/tasks.service.ts:86-90 | the search `doc` finds both "Complete Project Documentation" and "DOC review" |
| TasksService.TransitionAllowed | src/tasks/tasks.service.ts:129-139 | the guard of an update: a patch without status, or a task not `done`, always passes; a patch to `done` always passes; a `done` task given another status fails |
| TasksService.TransitionRule | src/tasks/tasks.service.ts:129-139 | a status change is allowed exactly when the task is not `done` or the new status is `done`; a patch without status is always allowed |
| TasksService.Merge | src/tasks/tasks.service.ts:142 | every supplied field overwrites, every absent field keeps its value, and id and creation time are untouched |
| TasksService.MergeLaws | src/tasks/tasks.service.ts:142 | an empty patch changes nothing, applying a patch twice equals applying it once, and two patches in a row equal their combination |
| TasksService.UpdateRecord | src/tasks/tasks.service.ts:127-143 | the update of a record fails exactly when it is `done` and the patch gives another status, and otherwise is the merge |
| TasksService.DoneStaysDone | src/tasks/tasks.service.ts:129-142 | after any sequence of updates, a `done` task is still `done` and its id and creation time are unchanged |
| TasksService.Find | src/tasks/tasks.service.ts:115 | the lookup returns a row of the table with that id, and finds nothing exactly when no row has that id |
| TasksService.FindUnique | src/tasks/tasks.service.ts:115 | with strictly increasing ids, the lookup returns the one row carrying the id |
| TasksService.Replace | src/tasks/tasks.service.ts:143 | saving a changed record replaces the rows with its id and keeps every other row in place |
| TasksService.UpdateResult | src/tasks/tasks.service.ts:122-152 | update fails on an id below 1, then not-found when no row has the id, then on leaving `done`, then on a name carried by another row; otherwise it gives the merged record, which keeps the id |
| TasksService.UpdateKeepsDone | src/tasks/tasks.service.ts:129-142 | a successful update never moves a task out of `done` and keeps its id and creation time |
| TasksService.UpdateCommits | src/tasks/tasks.service.ts:141-143 | saving a successful update keeps the table's invariant, finds the merged record under its id and changes no other lookup |
| TasksService.ReplaceMembers | src/tasks/tasks.service.ts:143 | after a replacement every row is the saved record or an untouched row with another id |
| TasksService.ReplaceKeepsOrder | src/tasks/tasks.service.ts:143 | replacing a row by one with the same id and creation time keeps both orders |
| TasksService.ReplaceKeepsTable | src/tasks/tasks.service.ts:141-143 | saving a record without changing id or creation time, and with a name no other row has, keeps the invariant, finds the record and changes no other lookup |
| TasksService.DeactivateCommits | src/tasks/tasks.service.ts:159-163 | clearing a row's active flag keeps the invariant, still finds the row and changes no other lookup |
| TasksService.SoftDeleteIdempotent | src/tasks/tasks.service.ts:154-164 | soft-deleting a row that is already soft-deleted leaves the table as it is |
| TasksService.SameIdSameRow | src/tasks/tasks.service.ts:115 | with strictly increasing ids, two rows with the same id are the same row |
| TasksService.Without | src/tasks/tasks.service.ts:172 | `DELETE WHERE id` keeps exactly the rows with other ids; it removes a row exactly when one has that id, and otherwise changes nothing |
| TasksService.WithoutKeepsTable | src/tasks/tasks.service.ts:166-179 | deleting keeps the invariant, leaves no row with that id and changes no other lookup |
| TasksService.ListAllNewestFirst | src/tasks/tasks.service.ts:93-94 | without filters the listing is the table in reverse insertion order |
| TasksService.AppendKeepsOrder | src/tasks/tasks.service.ts:25-26 | appending a row with a larger id and creation time than every row keeps both orders |
| TasksService.AppendKeepsTable | src/tasks/tasks.service.ts:23-35 | inserting a row with a fresh id, a later creation time and a new name keeps the invariant, finds the row under its id and changes no other lookup |
| TaskErrors.Decimal | src/tasks/tasks.service.ts:117 | the decimal form of an id in a message is a non-empty string of digits whose value (`DigitsValue`) is the id, with a leading zero only for zero |
| TaskErrors.DecimalOfDigits | src/tasks/tasks.service.ts:117 | conversely, every digit string without a superfluous leading zero is the decimal form of its value, so the id in a message can be read back |
| TaskErrors.HttpStatus | src/tasks/tasks.service.ts:110-118 | `NotFoundException` is answered 404 and `BadRequestException` 400; which operations raise which is stated by `FindAllStatus`, `UpdateStatus` and the contracts of `FindOne`, `Create` and `HardDelete` |
| TaskQuery.FindAllStatus | src/tasks/tasks.service.ts:49-52 | `findAll` refuses only with an invalid page or limit, so always with 400 and never 404 |
| TasksService.UpdateStatus | src/tasks/tasks.service.ts:122-150 | an update is refused with 404 exactly when the id is valid and no row has it; every other refusal is a 400 |
| TaskErrors.Message | src/tasks/tasks.service.ts:110-120 | the exception texts; a not-found message reads `Task with ID <id> not found` with the id in decimal |
| TasksService.TaskStore.constructor | src/tasks/tasks.service.ts:18-21 | a new store has an empty table whose id sequence starts at 1 |
| TasksService.TaskStore.FindOne | src/tasks/tasks.service.ts:110-120 | an id below 1 is invalid; otherwise it fails not-found exactly when no row has the id, and returns that row otherwise, active or not; it fails with 404 exactly when the id is valid and absent, and with 400 otherwise |
| TasksService.TaskStore.Create | src/tasks/tasks.service.ts:23-35 | a taken name fails and changes nothing; otherwise exactly one row is appended with the next id, the current time, and the request's fields or the defaults; its id and time are larger than every existing row's, and `findOne` then returns it; a refusal is a 400 |
| TasksService.TaskStore.CheckUpdate | src/tasks/tasks.service.ts:122-139 | the checks made before saving give exactly the outcome `UpdateResult` describes, and change nothing |
| TasksService.TaskStore.Update | src/tasks/tasks.service.ts:122-152 | the result is `UpdateResult` of the old table; on success the target row is replaced by the merged record; on failure the table is unchanged; the id sequence and clock never move |
| TasksService.TaskStore.SoftDelete | src/tasks/tasks.service.ts:154-164 | the lookup errors of `findOne` leave the table unchanged; otherwise only the target's active flag becomes false, `findOne` still returns it, and no other lookup changes |
| TasksService.TaskStore.Remove | src/tasks/tasks.service.ts:182-184 | the default delete behaves exactly as the soft delete |
| TasksService.TaskStore.HardDelete | src/tasks/tasks.service.ts:166-179 | an id below 1 is invalid and changes nothing; otherwise the rows with the id are removed without a lookup. It fails not-found exactly when there were none, and otherwise reports "Task permanently deleted". A refusal is a 404 exactly when the id was valid and no row had it, and a 400 otherwise. Afterwards `findOne(id)` is not-found, and no other lookup changes |

## Left out

- HTTP routing, parameter parsing (`ParseIntPipe`, `DefaultValuePipe`, the query-string-to-boolean conversion of `isActive`) and the OpenAPI decorators in `tasks.controller.ts`: framework plumbing. Filters arrive already typed, as `Option` values.
- Health check (`app.controller.ts`), connection set-up (`app.module.ts`, `typeorm.config.ts`) and the migration: environment and infrastructure, with no store logic. The migration and the paginated-response DTO are not part of this model. The migration only supports the column defaults and the missing unique constraint.
- CreateTaskDto.Validate: `@IsDateString` (ISO 8601 validation) is not modelled. `dueDate` is accepted when it is present and a string, and is stored as given.
- TaskEntity.NewRow and TaskQuery.Selected: stored `dueDate` values are assumed to be written `YYYY-MM-DD` already. The `date` column (task.entity.ts line 44) normalises what it stores, so `2024-05-20T10:00:00Z` is kept as `2024-05-20`; the model keeps the raw string and does not model that normalisation. Dates are compared as strings, which is the order of `date` values for the `YYYY-MM-DD` format.
- CreateTaskDto.Validate: JSON `null` for an optional field is not modelled. A field is either omitted or has a string, number or boolean value.
- SqlSemantics.ILike: case folding covers ASCII letters only. The database collation may fold more characters. A pattern ending in a lone backslash matches nothing here, whereas PostgreSQL raises an error.
- TasksService.TaskStore.Create and TasksService.TaskStore.Update: the duplicate-name check stands for the storage's unique violation (an assumption about storage, see above). Other storage errors, which the service rethrows unchanged, are not modelled.
- TasksService.TaskStore.Create: a failed insert does not use up a serial id here. PostgreSQL's sequence would skip that value.
- TaskQuery.SortByNewest: `createdAt` is the store's strictly increasing clock, not the wall clock. Ties between equal timestamps (which the query orders arbitrarily) therefore cannot arise in the store. For a general input, ties are ordered by this model's insertion sort, and no particular tie order is promised.
- Concurrency: the `findOne`-then-`save` of `update` and `softDelete` is modelled as one atomic step. Interleaved requests (last write wins) are not modelled.
- TaskErrors.Message: the texts of the other errors (tasks.service.ts lines 50, 52, 112, 136 and 148) are given as definitions. The contract only states the shape of the not-found message.
- TasksService.TaskStore.Create: `nextId` is unbounded, whereas the SERIAL id is a 32-bit `int4` column whose sequence fails after 2147483647. Overflow of the id sequence is not modelled.
- TaskQuery.Selected and TaskQuery.CondsMean: the `startDate` and `endDate` filters are assumed to be written `YYYY-MM-DD` and are compared as strings. The controller passes them on unvalidated, and PostgreSQL casts them to `date`. So a value such as `2024-5-1` or `2024-05-01T10:00:00Z` compares there as the date it denotes, and a non-date raises an error. The model covers neither case.
