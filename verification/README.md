# Overtime API — a Dafny model

This project models the core of the Employee Overtime API, a FastAPI service
over SQLite that keeps records for departments (`otdel`), posts, employees and
their hour adjustments (actions). Each employee carries an `idle_hours` counter.
The counter is raised by recorded actions and moved directly by an
`add-hours` request. The service can also render a holiday certificate from an
HTML template.

The database is a value `Models.Store`: one finite map per table, keyed by
primary key. Every request handler is a pure function from a store to an
`Api.Outcome`, which holds the store after the request and the reply, either a
result or an HTTP failure (400, 404 or 500 with its reason). A handler that
rolls back returns the store it was given. A handler that commits and then fails
while building its reply returns the committed store together with the error.
That happens in `add-hours` and in the partial update when a joined row has
been deleted.

Modules follow the source files:

- `Models`: the schema (app/models.py).
- `Api`: failures and outcomes.
- `Tables`: SQLite key allocation and ascending-key listing.
- `Dates`: `strptime("%Y-%m-%d")` and `strftime("%d.%m.%Y")`.
- `OtdelApi`, `PostApi`, `EmployeeApi`, `ActionApi`: the four routers.
- `Database`: start-up seeding.
- `Text`: `str.replace`.
- `Document`: the certificate renderer.
- `Service`: sequences of requests, with the invariants that span them.

## Model

| member | source | states |
|---|---|---|
| Tables.NextId | app/models.py:9 | a newly inserted row gets a key not in the table and above every key in it, and key 1 in an empty table |
| Tables.NextIdFollowsLargest | app/models.py:9 | the new key is exactly one past the largest existing key, so a deleted largest key can be handed out again |
| Tables.NextIdPositive | app/models.py:9 | in a table whose keys are all positive, a new key is positive too |
| Tables.Rows | app/api/otdel.py:52-59 | a listing holds every row of the table once, with its key, in strictly ascending key order |
| Tables.Ascending | app/api/otdel.py:52-59 | the scan order visits every key of the table exactly once, strictly increasing |
| Tables.RowsAtListing | app/api/otdel.py:52-59 | rows read under increasing keys that cover the table list every row once, with its key, in ascending order |
| Dates.Parse | app/api/action.py:52 | a date string is accepted only if it denotes a representable calendar date (year 1..9999, month 1..12, day within its month, leap years included) |
| Dates.DaysInMonth | app/api/action.py:52 | February has 28 days in a common year and 29 in a leap year; April, June, September and November have 30; every other month has 31 |
| Dates.DottedText | app/api/document.py:94-95 | a written date is ten characters: two-digit day, dot, two-digit month, dot, four-digit year; its three fields put back in `YYYY-MM-DD` order parse as the same date |
| Dates.ParseIsoText | app/api/action.py:52 | reading back the `YYYY-MM-DD` text of any representable date yields that date |
| Dates.IsoTextOfParse | app/api/action.py:52 | a zero-padded `YYYY-MM-DD` text that parses is the canonical text of the date it denotes |
| Dates.ReformatPadded | app/api/document.py:86-94 | a valid padded holiday date `YYYY-MM-DD` appears in the certificate as `DD.MM.YYYY` with the same digits |
| Dates.TrailingTextRejected | app/api/action.py:52 | text after the canonical zero-padded `YYYY-MM-DD` of a date makes parsing fail |
| Dates.CalendarExamples | app/api/action.py:52 | 29 February is accepted in 2024 and 2000 and refused in 2023 and 1900; 31 April is refused |
| Dates.FieldExamples | app/api/action.py:52 | month 13, year 0 and a text that is not a date are refused |
| Dates.UnpaddedExample | app/api/action.py:52 | `2024-3-1` is read as 1 March 2024 and written back as `01.03.2024` |
| Dates.SpacePaddedExample | app/api/action.py:52 | a day written with a leading space, `2024-03- 1`, is read as 1 March 2024 |
| Dates.DottedRearrangesIso | app/api/document.py:94-95 | the written date is the canonical `YYYY-MM-DD` text with its day, month and year fields put in reverse order, separated by dots |
| OtdelApi.CreateOtdel | app/api/otdel.py:24-49 | a duplicate name is refused and the store kept; because the check sits inside `except Exception`, the client sees 500, not 400; otherwise exactly one new department is added under a fresh key |
| OtdelApi.GetAllOtdels | app/api/otdel.py:52-59 | every department is listed once, in ascending id order, and nothing changes |
| OtdelApi.GetOtdel | app/api/otdel.py:62-72 | 404 exactly when the id is unknown, else the stored name |
| OtdelApi.UpdateOtdel | app/api/otdel.py:75-89 | 404 for an unknown id; otherwise only that department's name changes, with no duplicate check |
| OtdelApi.DeleteOtdel | app/api/otdel.py:92-105 | 404 for an unknown id; otherwise only that row goes, and employees pointing at it are left as they are |
| OtdelApi.CreateThenGet | app/api/otdel.py:24-72 | a created department is read back under the id the reply names |
| OtdelApi.CreateThenDelete | app/api/otdel.py:24-105 | deleting a department just created restores the earlier store |
| OtdelApi.CreateTwiceFails | app/api/otdel.py:30-49 | creating the same name twice: the second request answers 500 and changes nothing |
| OtdelApi.UpdateAllowsDuplicateNames | app/api/otdel.py:75-89 | renaming a department to another's name is accepted |
| OtdelApi.DeleteThenGet | app/api/otdel.py:62-105 | a deleted department is not found afterwards |
| OtdelApi.UpdateThenGet | app/api/otdel.py:62-89 | a renamed department is read back with its new name, and every other department reads as before |
| PostApi.CreatePost | app/api/post.py:24-49 | same as for departments: duplicate name gives 500 with the store kept; otherwise one new post under a fresh key |
| PostApi.GetAllPosts | app/api/post.py:52-71 | every post is listed once, in ascending id order |
| PostApi.GetPost | app/api/post.py:74-84 | 404 exactly when the id is unknown, else the stored name |
| PostApi.UpdatePost | app/api/post.py:87-101 | as written: 404 for an unknown id, otherwise the store is unchanged and the reply shows the old name |
| PostApi.UpdatePostIntended | app/api/post.py:87-101 | as intended: 404 for an unknown id, otherwise only that post's name changes and the reply shows the new name |
| PostApi.DeletePost | app/api/post.py:104-117 | 404 for an unknown id; otherwise only that row goes |
| PostApi.CreateThenGet | app/api/post.py:24-84 | a created post is read back under the id the reply names |
| PostApi.CreateThenDelete | app/api/post.py:24-117 | deleting a post just created restores the earlier store |
| PostApi.CreateTwiceFails | app/api/post.py:30-49 | creating the same name twice: the second request answers 500 and changes nothing |
| PostApi.UpdateIsLost | app/api/post.py:98 | after renaming a post, reading it back still shows the old name |
| PostApi.IntendedUpdateThenGet | app/api/post.py:98 | with the intended assignment, the renamed post is read back with its new name |
| EmployeeApi.View | app/api/employee.py:166-177 | the reply shows the employee's own columns (not the password) and the names of its department, post and role; a missing joined row is a 500 |
| EmployeeApi.CreateEmployee | app/api/employee.py:52-118 | department, then post, then role must exist, and each miss is a 500 with the store kept; otherwise one new employee with exactly the given fields and a zero counter |
| EmployeeApi.ViewAll | app/api/employee.py:121-148 | the replies follow the ids one for one, and the listing fails exactly when some employee cannot be joined |
| EmployeeApi.GetAllEmployees | app/api/employee.py:121-148 | every employee is listed once, in ascending id order, and the listing fails with 500 exactly when one of them points at a missing row |
| EmployeeApi.GetEmployee | app/api/employee.py:151-177 | 404 exactly when the id is unknown; otherwise the joined reply, or 500 if a joined row is gone |
| EmployeeApi.AddHours | app/api/employee.py:179-217 | 404 for an unknown id; a new counter outside the 64-bit INTEGER range fails the commit: 500, nothing written; otherwise the counter moves by the signed delta and nothing else changes, and the change is committed even when the reply then fails with 500 for a missing joined row |
| EmployeeApi.UpdateEmployee | app/api/employee.py:221-286 | 404, then a real 400 for an unresolved department, post or role id (null included), then 500 for a null text column, each with the store kept; otherwise exactly the provided fields change, the counter never does, and the reply fails only if a joined row is missing |
| EmployeeApi.DeleteEmployee | app/api/employee.py:289-302 | 404 for an unknown id; otherwise only that employee goes and its actions stay |
| EmployeeApi.CreateThenGet | app/api/employee.py:52-177 | a created employee is read back with a zero counter, the given fields and its department's name |
| EmployeeApi.LoginNotUnique | app/api/employee.py:52-118 | a second employee may be created with a login already in use |
| EmployeeApi.AddHoursTwice | app/api/employee.py:191 | two additions whose intermediate and final counters fit 64 bits leave the same store as one addition of their sum |
| EmployeeApi.AddHoursUndo | app/api/employee.py:191 | adding a delta the counter can take, and then its negation, restores the store |
| EmployeeApi.AddNegativeHours | app/api/employee.py:191 | a negative delta lowers the counter: 10 hours minus 5 leaves 5 |
| EmployeeApi.AddHoursOverflowWritesNothing | app/api/employee.py:191-193 | a counter at 2^63-1 given one more hour answers 500 and the store is unchanged |
| EmployeeApi.AddHoursCommitsBeforeReply | app/api/employee.py:191-217 | when the employee's department is gone, the reply is a 500 but the new counter is already stored |
| EmployeeApi.UpdateKeepsIdleHours | app/api/employee.py:35-43 | no partial update changes any employee's counter |
| EmployeeApi.EmptyUpdateChangesNothing | app/api/employee.py:239-262 | an update that provides no field leaves the store as it was |
| EmployeeApi.DeleteKeepsActions | app/api/employee.py:289-302 | deleting an employee keeps the actions that point at it, and the employee is not found afterwards |
| ActionApi.CreateAction | app/api/action.py:33-64 | employee, then action type, then the date are checked, then the commit fails if the hours or the raised counter leave the 64-bit INTEGER range; each failure is a 500 with the store kept; otherwise one new action with the parsed date, and only its employee's counter rises, by exactly its hours |
| ActionApi.GetAllActions | app/api/action.py:67-74 | every action is listed once, in ascending id order |
| ActionApi.GetAction | app/api/action.py:77-87 | 404 exactly when the id is unknown, else the stored action |
| ActionApi.CreateThenGet | app/api/action.py:33-87 | an accepted action is read back under the id the reply names, with its hours, employee and parsed date |
| ActionApi.DeleteAction | app/api/action.py:107-120 | 404 for an unknown id; otherwise only that action goes and no counter changes |
| ActionApi.CreateRaisesOnlyItsEmployee | app/api/action.py:50-57 | a recorded action raises its employee's counter by its hours, leaves every other employee alone, and adds one action |
| ActionApi.DeleteDoesNotRefund | app/api/action.py:107-120 | creating an action and deleting it restores the action table but leaves the hours on the counter |
| ActionApi.CreatedDateIsValid | app/api/action.py:52 | a stored action date is a representable calendar date |
| ActionApi.OverflowingHoursWriteNothing | app/api/action.py:50-64 | hours of 2^63 that pass every other check answer 500 and change nothing |
| Database.SeedRoles | app/database.py:16-23 | roles 1 and 2 are added only when role 1 is missing; role 2 present without role 1 is a key collision; nothing else changes |
| Database.SeedActionTypes | app/database.py:25-32 | the same for action types 1 and 2 |
| Database.InitDb | app/database.py:34-39 | start-up succeeds exactly when both seeds do and then holds what the two seeds wrote; when the action types fail, the store is the one the role seed committed |
| Database.SeedRolesIdempotent | app/database.py:16-23 | seeding roles twice is seeding them once |
| Database.SeedRolesChecksOnlyFirst | app/database.py:18 | role 1 present suppresses seeding even if role 2 is missing |
| Database.SeedActionTypesIdempotent | app/database.py:25-32 | seeding action types twice is seeding them once |
| Database.FirstStart | app/database.py:16-39 | a first start leaves exactly the two roles and the two action types |
| Database.RestartChangesNothing | app/database.py:34-39 | restarting on a seeded store changes nothing |
| Database.RolesSurviveActionTypeFailure | app/database.py:16-39 | with no roles and a stray action type 2, start-up fails but the two seeded roles stay and the action types are untouched |
| Text.Replace | app/api/document.py:90-95 | `str.replace`: the pattern alone becomes the replacement, and replacing the pattern by itself leaves any text unchanged; text without the pattern is `Text.ReplaceAbsent`, concatenations are `Text.ReplaceSplit` |
| Text.ReplaceAbsent | app/api/document.py:90-95 | text without the pattern is copied unchanged by `str.replace` |
| Text.ReplaceSplit | app/api/document.py:90-95 | replacement distributes over a concatenation that no occurrence straddles |
| Text.ConcatAbsent | app/api/document.py:90-95 | a pattern absent from both halves, and not straddling them, is absent from the whole |
| Document.GenerateHolidayDocument | app/api/document.py:80-102 | the certificate is produced exactly when the holiday date parses; otherwise the function raises 400 |
| Document.CreateHolidayDocument | app/api/document.py:105-137 | the endpoint returns the certificate exactly when the holiday date parses; the function's 400 reaches the client as 500 |
| Document.TagNotInOtherTag | app/api/document.py:50-71 | no placeholder occurs inside another placeholder |
| Document.BracedNotInBraced | app/api/document.py:50-71 | one braced key never occurs inside a different braced key |
| Document.ReplaceOtherTag | app/api/document.py:90-95 | replacing one placeholder leaves every other placeholder as it is |
| Document.PlainUnchanged | app/api/document.py:90-95 | text without `{{` is untouched by any placeholder's replacement |
| Document.ReplaceChunkValue | app/api/document.py:90-95 | replacing a placeholder in a value after an inert chunk does not touch the chunk |
| Document.LayoutFrame | app/api/document.py:50-71 | the template with values in its five placeholders' places is the six chunks interleaved with those values |
| Document.ReplaceFrame | app/api/document.py:90-95 | replacing a placeholder in text framed by inert markup replaces it in each framed value separately |
| Document.ReplaceLayout | app/api/document.py:90-95 | replacing one placeholder in a well-formed template changes only the values in the five placeholder positions |
| Document.Fill | app/api/document.py:90-95 | the five chained replacements leave text without `{{` unchanged; where each value lands in the template is `Document.FillLayout` and `Document.FillPlain` |
| Document.FillLayout | app/api/document.py:90-95 | the certificate is the markup with each value in its placeholder's place, each value still subject to every later replacement |
| Document.FillPlain | app/api/document.py:90-95 | values without `{{` land verbatim in their placeholders' places |
| Document.NameInsideSurnameIsFilled | app/api/document.py:91-92 | a surname of `{{name}}` is itself replaced by the name, because the replacements run in order |
| Document.SurnameInsideNameStaysLiteral | app/api/document.py:91-92 | a name of `{{surname}}` stays literal, because the surname was replaced first |
| Document.LayoutIsPlain | app/api/document.py:90-95 | a well-formed template filled with values without `{{` has no placeholder left |
| Document.DottedIsPlain | app/api/document.py:94-95 | a written date contains no `{{` |
| Document.GeneratedCertificate | app/api/document.py:80-97 | for names without `{{` and a parseable date, the certificate holds the names and both dates verbatim and no placeholder is left |
| Document.CertificateExample | app/api/document.py:80-97 | the holiday date `2024-03-01` appears as `01.03.2024` |
| Document.ExampleDates | app/api/document.py:86-95 | `2024-03-01` parses and is written `01.03.2024`; 10 October 2026 is written `10.10.2026` |
| Document.MalformedDateExample | app/api/document.py:99-137 | for a holiday date `not-a-date` the function raises 400 and the endpoint answers 500 |
| Service.StepCredit | app/api/action.py:50-57 | one request moves an existing employee's counter by exactly what it credits to that employee |
| Service.CatalogKeepsEmployees | app/api/otdel.py:24-105 | department and post requests leave every employee row as it is |
| Service.EmployeeStepCredit | app/api/employee.py:52-302 | creating an employee, adding hours or deleting another employee moves an existing employee's counter by exactly its credit |
| Service.UpdateStepCredit | app/api/employee.py:221-286 | a partial update keeps every employee and leaves every counter as it is |
| Service.ActionStepCredit | app/api/action.py:33-120 | recording or deleting an action moves an existing employee's counter by exactly its credit |
| Service.CounterMatchesLedger | app/api/employee.py:191 | over any sequence of requests that never deletes an employee, its counter equals its starting value plus the hours credited to it by accepted actions and accepted `add-hours` requests (those whose counter fits 64 bits) |
| Service.DeletedIdIsReused | app/api/employee.py:289-302 | when the id just below the largest employee id is taken, deleting the employee with the largest id and creating another gives the newcomer that id, and the old employee's actions point at it |
| Service.StepPositive | app/models.py:7-50 | no request introduces a key that is not positive |
| Service.CatalogPositive | app/api/otdel.py:24-105 | department and post requests keep every key positive |
| Service.PeoplePositive | app/api/employee.py:52-302 | employee and action requests keep every key positive |
| Service.SeedRolesPositive | app/database.py:16-23 | seeding roles on a store with positive keys keeps them positive |
| Service.SeedActionTypesPositive | app/database.py:25-32 | seeding action types on a store with positive keys keeps them positive |
| Service.InitDbPositive | app/database.py:34-39 | start-up keeps every key positive, whether or not it fails |
| Service.RunPositive | app/models.py:7-50 | keys stay positive over any sequence of requests |
| Service.ServicePositive | app/database.py:34-39 | a service started on an empty database only ever holds positive keys |
| Service.StepFits | app/models.py:7-50 | no request stores a counter or an action's hours outside the 64-bit INTEGER range |
| Service.CatalogFits | app/api/otdel.py:24-105 | department and post requests keep every counter and hour count within 64 bits |
| Service.PeopleFits | app/api/employee.py:179-217 | employee and action requests keep every counter and hour count within 64 bits |
| Service.RunFits | app/models.py:7-50 | counters and hour counts stay within 64 bits over any sequence of requests |
| Service.ServiceFits | app/database.py:34-39 | a service started on an empty database never holds a counter or hour count beyond 64 bits |

## Left out

- The template's HTML markup is not reproduced. The renderer is modelled over any template with five inert chunks around the five placeholders, in the source's order. Inert means: nonempty, first and last character not usable in a placeholder, no `{{` inside. The source's chunks have these properties.
- `datetime.now()` is a parameter of `Document.GenerateHolidayDocument`: the clock is outside the model.
- The certificate endpoint's temporary file, its `FileResponse` and the file name built from the clock are I/O, and are not modelled. The documents router is also not registered in main.py, so the endpoint is unreachable in the running service.
- Document.GenerateHolidayDocument: the `except Exception` branch (500) is not modelled. Nothing in the modelled computation raises anything other than the date's `ValueError`.
- Dates.Parse: Python's `\d` also matches non-ASCII decimal digits; only ASCII digits are modelled.
- Dates.DottedText: `%Y` is written as four zero-padded digits. Some C libraries do not pad years below 1000.
- Keys: a fresh key is the largest key plus one (1 for an empty table), as SQLite allocates row ids for an integer primary key. A listing without `ORDER BY` is taken to be in ascending key order, the order of SQLite's row-id scan.
- Integer range of ids: SQLite stores 64-bit integers, and the driver refuses to bind a Python integer outside that range. The model bounds the stored counter and action hours (`Models.Fits`) but not ids. A request carrying an id outside 64 bits answers 500 in the source, because the lookup itself fails. The handlers below answer as for any unknown id instead.
- OtdelApi.GetOtdel, OtdelApi.UpdateOtdel, OtdelApi.DeleteOtdel: a path id outside 64 bits gives 404 here, 500 in the source.
- PostApi.GetPost, PostApi.UpdatePost, PostApi.UpdatePostIntended, PostApi.DeletePost: a path id outside 64 bits gives 404 here, 500 in the source.
- EmployeeApi.GetEmployee, EmployeeApi.AddHours, EmployeeApi.DeleteEmployee: a path id outside 64 bits gives 404 here, 500 in the source.
- EmployeeApi.UpdateEmployee: a path id outside 64 bits gives 404 here and a body department, post or role id outside 64 bits gives 400 here; both are 500 in the source.
- EmployeeApi.CreateEmployee: a referenced id outside 64 bits is a 500 in both, but here its reason is the unknown row rather than the failed bind.
- ActionApi.CreateAction: an employee or action type id outside 64 bits is a 500 in both, but here its reason is the unknown row rather than the failed bind.
- ActionApi.GetAction, ActionApi.DeleteAction: a path id outside 64 bits gives 404 here, 500 in the source.
- Tables.NextId: a fresh key past 2^63-1 is not modelled; SQLite then picks an unused key at random.
- Concurrency: requests run one at a time. Two concurrent `add-hours` requests that would lose an update are not modelled.
- Foreign keys: SQLite does not enforce them unless asked, and the service never asks. The model therefore lets deletes leave employees and actions pointing at missing rows.
- Passwords are stored as given, as in the source. Request parsing and type coercion done by the web framework are left out: a body that fails validation never reaches a handler.
- The commented-out action update endpoint (app/api/action.py:90-104) is not code and is not modelled.
- Reads are not part of `Service.Request`. Every read handler's contract keeps the store unchanged.
- A start-up seed failure is an exception out of the application's lifespan hook, not an HTTP reply. `Database.InitDb` reports it as an error outcome.

## Findings

| source | as written | input that shows it | evidently intended | confidence | as-written member | corrected member |
|---|---|---|---|---|---|---|
| app/api/post.py:98 | the update assigns `db_post.name_otdel`, an attribute that is not a column of `Post`, so nothing is written and the reply shows the old name | a post with id 1 named "A"; PUT /posts/1 with name "B"; GET /posts/1 answers "A" | assign `db_post.name_post` so the post is renamed | high, not executed | PostApi.UpdatePost, PostApi.UpdateIsLost | PostApi.UpdatePostIntended, PostApi.IntendedUpdateThenGet |
