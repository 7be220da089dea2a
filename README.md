# Task Manager API — a verified Dafny model

This project models the request-handling core of the Task Manager API, an
ASP.NET Core service in which users register, log in with a bearer token and
manage their own tasks. The model covers:

- **Pagination policy.** `PaginationRequest` clamps the untrusted `page` and
  `pageSize` query values. The two list handlers then take a window of the
  data with `Skip((page - 1) * pageSize).Take(pageSize)` and wrap it in a
  `PaginatedResponse` envelope: `TotalPages`, `HasNextPage` and
  `HasPreviousPage`. C#'s 32-bit `int` arithmetic is written out, including
  unchecked wrap-around (module `Int32`).
- **The owner-scoped task store (`TaskController`).**
  - The caller's id comes from the `NameIdentifier` claim through `int.Parse`.
  - Every action passes the ownership gate `t.Id == id && t.UserId == caller`.
  - The two queries are functions over the tables. `GetAllTask` orders the
    caller's tasks newest first and pages them. `GetTaskById` finds one task.
  - The three writes are methods on the `AppDbContext` class, whose fields are
    the two tables and their identity counters: `CreateTask` appends a row,
    `EditTask` overwrites one in place, `DeleteTask` removes one.
- **The user and credential store (`UsersController`, `AuthController`).**
  - The paged user list answers 404 on an empty page, while the task list
    answers 200.
  - The caller's profile.
  - A profile update checks that the new name is free only when the name
    actually changes.
  - Login is a plaintext lookup of name and password.
  - Registration appends a user under an unused name.
  - The token comes from an injected `GenerateToken`, a function parameter.
- **The test suite's token service (`MockJwtService`).** A string
  encoder/decoder pair built on `StartsWith`, `Replace` and `int.TryParse`.
- **The FluentValidation rule sets `UpdateTaskRequestValidator` and
  `LoginRequestValidator`.** Each yields the ordered list of failures it
  reports.
- **The test fixture (`Scenarios`).** Three users, who share one password,
  and three tasks, with the outcomes the controller tests expect, proved from
  the model.

The store is modelled as in-memory sequences in insertion order. The clock,
`DateTime.UtcNow` (and `DateTime.Now` in the validator), is a parameter
`now` counted in .NET ticks. A thrown exception that the handler's `catch`
turns into a 500 is the `ServerError` outcome.

Where the documentation and the code disagree, the model follows the code:

- `HasNextPage` is computed by the unchecked product
  `page * pageSize < totalCount`, not by the documented `Page < TotalPages`.
  The two agree whenever the product stays inside `int`
  (`Pagination.NextPageRule`, `Pagination.BuildResponseDocumented`). For a
  page number large enough to wrap they disagree
  (`Pagination.HasNextPageOverflow`).
- A missing or unparseable identity claim makes `GetCurrentUserId` throw
  inside the handler's `try`. The handler's `catch` turns that into 500
  "Internal server error", not 401.
- A page past the end of the user list is 404 "No users found", even though
  users exist. A page past the end of the task list is 200 with an empty page.

## Model

| member | source | states |
|---|---|---|
| Int32.Wrap | TaskManagerAPI/Controllers/TaskController.cs:62 | unchecked `int` arithmetic: the result is in int32 range, congruent to the exact value modulo 2^32, and equal to it when the exact value fits |
| Int32.ParseToDecimalString | TaskManagerAPI/Controllers/TaskController.cs:32 | `int.Parse` reads back exactly the value `int.ToString()` wrote, for every int32 |
| Int32.ParseRejectsForeignChar | TaskManagerAPI/Controllers/TaskController.cs:32 | text holding a character that is not a digit, a sign, number white space or NUL, anywhere in it, does not parse |
| Int32.ParseIgnoresTrailingNuls | TaskManagerAPI/Controllers/TaskController.cs:32 | `int.Parse` accepts NULs after the numeral: an int32's decimal text followed by any number of '\0' reads back as that value |
| Int32.ParseRejectsOverflow | TaskManagerAPI/Controllers/TaskController.cs:32 | the decimal text of a value outside int32 is refused, not wrapped |
| Identity.CurrentUserIdOfClaim | TaskManagerAPI/Controllers/TaskController.cs:28-33 | the claim the host writes for a user (`userId.ToString()`) identifies exactly that user |
| Identity.CurrentUserIdFails | TaskManagerAPI/Controllers/TaskController.cs:28-33 | a missing claim, or one holding a character that is not a digit, a sign, number white space or NUL, identifies nobody (the handler then answers 500) |
| Pagination.GetValidPage | TaskManagerAPI/DTOs/Common/PaginationRequest.cs:22 | the page is at least 1; a page of 1 or more is kept and anything lower becomes 1 |
| Pagination.GetValidPageSize | TaskManagerAPI/DTOs/Common/PaginationRequest.cs:28 | the size lies in 1..100; sizes in range are kept, a size below 1 becomes 10 (not 1), one above 100 becomes 100 |
| Pagination.Normalize | TaskManagerAPI/DTOs/Common/PaginationRequest.cs:22-28 | the pair a handler works with is always normalised |
| Pagination.NormalizeIdempotent | TaskManagerAPI/DTOs/Common/PaginationRequest.cs:22-28 | normalised pairs are exactly the fixed points of normalisation, so normalising twice equals normalising once |
| Pagination.DefaultIsNormalized | TaskManagerAPI/DTOs/Common/PaginationRequest.cs:10-16 | the defaults (1, 10) are a fixed point |
| Pagination.CeilDiv | TaskManagerAPI/DTOs/Common/PaginatedResponse.cs:38 | TotalPages is the least r with count <= r * pageSize, hence 0 exactly when there are no items |
| Pagination.BuildResponse | TaskManagerAPI/Controllers/TaskController.cs:82-91 | the envelope carries the page's data, the page and size the handler normalised and the full total count; TotalPages is the least r with count <= r * pageSize; HasPreviousPage iff page > 1; when page >= 1 and page * pageSize fits in int, HasNextPage iff Page < TotalPages |
| Pagination.NextPageRule | TaskManagerAPI/DTOs/Common/PaginatedResponse.cs:44 | for page >= 1 and pageSize >= 1, the documented `Page < TotalPages` holds iff the handlers' `page * pageSize < totalCount` holds (exact arithmetic) |
| Pagination.BuildResponseDocumented | TaskManagerAPI/DTOs/Common/PaginatedResponse.cs:11-51 | when page * pageSize fits in int, the envelope meets every documented rule: pages 1-based, TotalPages the ceiling, HasNextPage iff Page < TotalPages, HasPreviousPage iff Page > 1, at most PageSize items |
| Pagination.EmptyResponse | TaskManagerAPI/DTOs/Common/PaginatedResponse.cs:14-15 | no items gives empty data, TotalCount 0, TotalPages 0 and no next page; HasPreviousPage still follows Page > 1 |
| Pagination.HasNextPageOverflow | TaskManagerAPI/Controllers/TaskController.cs:89 | page 21474837 of size 100 over 3 items: the product wraps negative, so the envelope announces a next page while TotalPages is 1, breaking the documented rule |
| Pagination.Skip | TaskManagerAPI/Controllers/TaskController.cs:62 | Enumerable.Skip: a suffix of the input, all of it for a count of 0 or less, none of it for a count at or past the end, otherwise all but the first count items |
| Pagination.Take | TaskManagerAPI/Controllers/TaskController.cs:63 | Enumerable.Take: a prefix of the input, empty for a count of 0 or less, all of it for a count at or past the end, otherwise count items |
| Pagination.TakeSkip | TaskManagerAPI/Controllers/TaskController.cs:62-63 | Take and Skip with the same count split the input at one point: their concatenation is the input |
| Pagination.PageWindowSlice | TaskManagerAPI/Controllers/TaskController.cs:62-63 | when the offset fits in int, the window is the slice starting at (page - 1) * pageSize holding min(pageSize, what is left), and empty past the end |
| Pagination.PageWindowEmpty | TaskManagerAPI/Controllers/UserController.cs:54-55 | when the offset fits in int, the window is empty iff the offset is at or past the end |
| Pagination.PageWindowIsSlice | TaskManagerAPI/Controllers/TaskController.cs:62-63 | for any page, even one whose offset wraps, the window is a contiguous run of the input with at most pageSize items |
| Pagination.PageWindowOfSorted | TaskManagerAPI/Controllers/TaskController.cs:61-63 | the window holds only input elements, at most pageSize of them, and keeps a sorted input sorted |
| Sorting.SortBy | TaskManagerAPI/Controllers/UserController.cs:53 | OrderBy on an integer key: the result is sorted by the key and is a permutation of the input |
| Sorting.SortByElements | TaskManagerAPI/Controllers/UserController.cs:53 | sorting keeps the length and draws every element from the input |
| Entities.StatusOf | TaskManagerAPI/DTOs/Task/UpdateTaskRequest.cs:26-32 | an underlying value names a TaskStatus member iff it is 0, 1 or 2, and then that member's value is that code |
| Entities.FindKey | TaskManagerAPI/Controllers/UserController.cs:150 | the lookup by primary key (users by `FindAsync`, tasks by `FirstOrDefaultAsync` on the id) finds the first row with that key, or reports that no row has it |
| Entities.OwnerSummary | TaskManagerAPI/Controllers/TaskController.cs:74-78 | the projected owner is absent iff no user has the task's user id, and otherwise is that user's id and name |
| Data.AppDbContext.constructor | TaskManagerAPI/Data/AppDbContext.cs:10-11 | a context over seeded tables holds them as given and starts its identity counters above every stored key |
| TaskController.Views | TaskManagerAPI/Controllers/TaskController.cs:64-80 | the projection maps each task, in order, to its view with the owner's summary |
| TaskController.OwnedBy | TaskManagerAPI/Controllers/TaskController.cs:60 | the filter keeps exactly the tasks whose owner is the caller |
| TaskController.OwnedByCounts | TaskManagerAPI/Controllers/TaskController.cs:55-57 | each of the caller's tasks is kept as often as the store holds it and every other task is dropped, so TotalCount is the number of the caller's rows |
| TaskController.OwnedByConcat | TaskManagerAPI/Controllers/TaskController.cs:60 | the filter keeps store order: filtering a concatenation concatenates the filtered parts |
| TaskController.FirstMatch | TaskManagerAPI/Controllers/TaskController.cs:230 | the gate finds the first task with that id owned by the caller, or reports that there is none |
| TaskController.GetAllTask | TaskManagerAPI/Controllers/TaskController.cs:47-100 | 200 iff the claim identifies a caller, otherwise 500 "Internal server error" |
| TaskController.GetAllTaskOwnerOnly | TaskManagerAPI/Controllers/TaskController.cs:51-91 | every listed task is the caller's, at most pageSize are listed, newest first, in an envelope of the normalised page and size and the caller's task count |
| TaskController.GetAllTaskPage | TaskManagerAPI/Controllers/TaskController.cs:58-63 | when the offset fits in int, the page is exactly the run of the caller's tasks, newest first, starting at (page - 1) * pageSize, and empty past the end |
| TaskController.GetAllTaskNoTasks | TaskManagerAPI/Controllers/TaskController.cs:82-91 | a caller owning no task gets 200 with empty data, TotalCount 0, TotalPages 0, no next page, and HasPreviousPage iff page > 1 |
| TaskController.GetTaskById | TaskManagerAPI/Controllers/TaskController.cs:116-151 | 500 without a caller; otherwise 200 iff the caller owns a task with that id, and then the detail of the first such task in the store with its owner; else 404 "No Task Found" |
| TaskController.GetTaskByIdOwnerScoped | TaskManagerAPI/Controllers/TaskController.cs:121-143 | the answer equals the one from a store holding only the caller's tasks, so another user's task is indistinguishable from a missing one |
| TaskController.WritesInvisibleToOthers | TaskManagerAPI/Controllers/TaskController.cs:181 | adding, changing or removing one of the caller's tasks leaves every other user's tasks, in order, exactly as they were |
| TaskController.CreatedTaskFound | TaskManagerAPI/Controllers/TaskController.cs:184-203 | a task added for the caller under a fresh id is what GetTaskById then returns for that id |
| TaskController.CreatedTaskHidden | TaskManagerAPI/Controllers/TaskController.cs:123 | any other caller asking for that new id gets 404 "No Task Found" |
| TaskController.DeletedTaskGone | TaskManagerAPI/Controllers/TaskController.cs:297-299 | with unique ids, after the removal the removed id is not found |
| TaskController.CreateTask | TaskManagerAPI/Controllers/TaskController.cs:166-210 | 500 and no change without a caller; otherwise exactly one task is appended, owned by the caller, under a fresh id (the next identity value), with the request's fields and both stamps now; 201 points at GetTaskById with that id and the stored row; the store's key invariants are kept |
| TaskController.EditTask | TaskManagerAPI/Controllers/TaskController.cs:225-272 | 404 "Task not found" and no change when the caller owns no such task; otherwise only that row changes: title, description, status and due date from the request and UpdatedAt now, with id, owner and CreatedAt kept; a null description is a 500 with nothing saved |
| TaskController.DeleteTask | TaskManagerAPI/Controllers/TaskController.cs:286-306 | a bare 404 and no change when the caller owns no such task; otherwise exactly that row is removed, the others keep their order, and the answer is 204 |
| UsersController.Summaries | TaskManagerAPI/Controllers/UserController.cs:56-60 | the projection maps each user, in order, to its id and name |
| UsersController.GetAllUsers | TaskManagerAPI/Controllers/UserController.cs:44-84 | 200 iff the normalised page of users in id order is not empty, otherwise 404 "No users found" |
| UsersController.GetAllUsersOrdered | TaskManagerAPI/Controllers/UserController.cs:48-76 | a listed page shows at most pageSize users of the store in ascending id order, with the normalised page and size and the count of all users |
| UsersController.GetAllUsersNotFoundIff | TaskManagerAPI/Controllers/UserController.cs:62-65 | when the offset fits in int, the answer is 404 iff the offset is at or past the number of users, even though users exist |
| UsersController.GetAllUsersPage | TaskManagerAPI/Controllers/UserController.cs:52-61 | when the offset fits in int and lies before the end, the answer is 200 and the page is exactly the run of users in id order starting at (page - 1) * pageSize |
| UsersController.GetProfile | TaskManagerAPI/Controllers/UserController.cs:98-127 | without a caller the answer is 500 |
| UsersController.GetProfileIff | TaskManagerAPI/Controllers/UserController.cs:102-118 | 200 iff some user has the caller's id, and then it is that user's profile; otherwise 404 "User not found" |
| UsersController.RenameKeepsNamesUnique | TaskManagerAPI/Controllers/UserController.cs:156-167 | renaming the caller keeps names unique iff no other user holds the new name, so the uniqueness check is exactly the one needed |
| UsersController.UpdateProfile | TaskManagerAPI/Controllers/UserController.cs:144-188 | 500 without a caller and 404 "User not found" without the caller's record, both with no change; a changed name held by another user is 400 "Username already exists" with no change; otherwise only the caller's name, password and UpdatedAt (now) change, the same name skips the check, and the answer is the new profile; names stay unique |
| AuthController.FindCredentials | TaskManagerAPI/Controllers/AuthController.cs:46-47 | finds the first user whose name and password both equal the submitted ones, or reports that none does |
| AuthController.Login | TaskManagerAPI/Controllers/AuthController.cs:42-75 | 200 iff some user has exactly the submitted name and plaintext password, and then it carries a token for such a user, an expiry 60 minutes after now and the user's id, name and CreatedAt; otherwise 401 "Invalid username or password" |
| AuthController.LoginIdentifiesUser | TaskManagerAPI/Controllers/AuthController.cs:46-52 | with unique names, a login under a user's name answers for that user iff the password is that user's |
| AuthController.LoginTokenIdentifiesUser | TaskManagerAPI/Controllers/AuthController.cs:54 | with the test suite's token service, the login token decodes to the id of the user it answers for |
| AuthController.AppendKeepsUnique | TaskManagerAPI/Controllers/AuthController.cs:93-110 | appending a user under an unused name and a fresh key keeps keys and names unique |
| AuthController.Register | TaskManagerAPI/Controllers/AuthController.cs:89-134 | a taken name is 400 "Username already exists" with no change; otherwise exactly one user is appended under the next key, with the submitted name and password and both stamps now, and 201 answers with a token for it; names stay unique |
| AuthController.RegisterThenLogin | TaskManagerAPI/Controllers/AuthController.cs:101-110 | after registering under an unused name, logging in with that name and password answers for the new user |
| MockJwtService.GenerateToken | TaskManagerAPI.Tests/Helpers/MockJwtService.cs:9-12 | the token is the fixed prefix followed by the user's id in decimal |
| MockJwtService.GetUserIdFromToken | TaskManagerAPI.Tests/Helpers/MockJwtService.cs:14-29 | a null or empty token decodes to nothing, and any decoded id comes from a prefixed token with every prefix occurrence deleted |
| MockJwtService.TokenRoundTrip | TaskManagerAPI.Tests/Helpers/MockJwtService.cs:14-29 | a token issued for an int32 id decodes to that id |
| MockJwtService.ForeignTokenRejected | TaskManagerAPI.Tests/Helpers/MockJwtService.cs:19-28 | a token not starting with the prefix decodes to nothing |
| MockJwtService.MalformedTokensRejected | TaskManagerAPI.Tests/Helpers/MockJwtService.cs:21-28 | the prefix followed by letters, or by a value one past int.MaxValue, decodes to nothing |
| MockJwtService.EveryPrefixRemoved | TaskManagerAPI.Tests/Helpers/MockJwtService.cs:21 | every occurrence of the prefix is deleted, not just the leading one: prefix + "4" + prefix + "2" decodes as 42 |
| MockJwtService.TrailingNulAccepted | TaskManagerAPI.Tests/Helpers/MockJwtService.cs:21-22 | `int.TryParse` ignores trailing NULs, so the prefix followed by "5" and a NUL decodes as 5 |
| Validators.Utf16Length | TaskManagerAPI/Validators/Task/UpdateTaskRequestValidator.cs:12 | `string.Length` counts UTF-16 code units: at least one and at most two per character |
| Validators.Utf16LengthCases | TaskManagerAPI/Validators/Task/UpdateTaskRequestValidator.cs:12 | the length equals the number of characters iff all lie in the Basic Multilingual Plane, and is twice it iff none does |
| Validators.TitleRules | TaskManagerAPI/Validators/Task/UpdateTaskRequestValidator.cs:10-12 | "Title is required" iff the title is blank; the length message iff its UTF-16 length is outside 1..100 |
| Validators.DescriptionRules | TaskManagerAPI/Validators/Task/UpdateTaskRequestValidator.cs:14-16 | "Description is required" iff the description is null or blank; the length message iff it is present with a UTF-16 length outside 1..500 |
| Validators.ValidateUpdateTask | TaskManagerAPI/Validators/Task/UpdateTaskRequestValidator.cs:8-23 | a request is valid iff all four rules hold: a non-blank title of UTF-16 length 1..100, a non-blank description of UTF-16 length 1..500, a due date strictly after now, a status of 0, 1 or 2 |
| Validators.UpdateTaskFailuresPerField | TaskManagerAPI/Validators/Task/UpdateTaskRequestValidator.cs:10-22 | each property's reported failures come from its own rule chain alone |
| Validators.ValidateLogin | TaskManagerAPI/Validators/Auth/LoginRequestValidator.cs:10-16 | each of the four messages is reported iff its rule fails: blank name, name UTF-16 length outside 3..50, blank password, password UTF-16 length below 6 |
| Validators.LoginValidIff | TaskManagerAPI/Validators/Auth/LoginRequestValidator.cs:8-17 | a login request is valid iff the name is non-blank with UTF-16 length 3..50 and the password is non-blank with UTF-16 length at least 6, with no upper bound |
| Validators.EmptyTitleRejected | TaskManagerAPI/Validators/Task/UpdateTaskRequestValidator.cs:10-12 | an empty title fails both rules of its chain, NotEmpty and Length, in that order, and nothing else fails |
| Validators.NullDescriptionRejected | TaskManagerAPI/Validators/Task/UpdateTaskRequestValidator.cs:14-16 | a null description fails only NotEmpty, since Length passes a null |
| Validators.LoginExamples | TaskManagerAPI/Validators/Auth/LoginRequestValidator.cs:10-16 | "abc"/"secret" passes login validation, while a 5-character password fails only MinimumLength |
| Validators.SurrogatePairsCountTwice | TaskManagerAPI/Validators/Auth/LoginRequestValidator.cs:14-16 | three characters outside the Basic Multilingual Plane are six code units and pass MinimumLength(6); 51 of them exceed a title's maximum of 100 |
| Scenarios.FixtureUsers | TaskManagerAPI.Tests/Fixtures/TestDataFixture.cs:16-42 | the three fixture users have unique ids and names |
| Scenarios.FixtureTasks | TaskManagerAPI.Tests/Fixtures/TestDataFixture.cs:45-80 | the three fixture tasks have unique ids |
| Scenarios.InvalidPaginationUsesDefaults | TaskManagerAPI.Tests/Controllers/TaskControllerTest.cs:406-421 | page -1 of size -5 is served as page 1 of size 10 |
| Scenarios.UsersFarPageNotFound | TaskManagerAPI.Tests/Controllers/UserControllerTest.cs:219-232 | page 999 of the fixture users is 404 "No users found" |
| Scenarios.UsersFirstPageOfOne | TaskManagerAPI.Tests/Controllers/UserControllerTest.cs:77-94 | page 1 of size 1 shows one user, TotalPages 3, a next page and no previous one |
| Scenarios.NoTasksForStranger | TaskManagerAPI.Tests/Controllers/TaskControllerTest.cs:106-122 | a caller owning no fixture task gets 200 with an empty first page, counts 0 and both flags false |
| Scenarios.OtherUsersTaskHidden | TaskManagerAPI.Tests/Controllers/TaskControllerTest.cs:176-183 | user 1 asking for user 2's task gets 404 |
| Scenarios.UserTwoLockedOut | TaskManagerAPI.Tests/Controllers/TaskControllerTest.cs:370-398 | user 2 gets 404 for user 1's task, and the gate of EditTask and DeleteTask finds nothing |
| Scenarios.FixtureLogins | TaskManagerAPI.Tests/Controllers/AuthControllerTest.cs:35-61 | testuser1 with Password123 logs in as user 1; a wrong password is 401 |
| Scenarios.FixtureNameClashes | TaskManagerAPI.Tests/Controllers/UserControllerTest.cs:149-162 | testuser1 is taken for registration, a new name is not, and renaming user 1 to testuser2 clashes |

## Left out

- Bearer-token validation (`[Authorize]`, issuer, audience, lifetime, signature) belongs to ASP.NET's JWT middleware, and the production `JwtService` is not part of this model. Token issuance is a function parameter `User -> string`; the test suite's `MockJwtService` is modelled in full.
- Host wiring, Swagger, CORS, `ErrorHandlingMiddleware` (the 500 JSON body, the 405 `Allow` hint) and `ValidationFilterAttribute` (which validator runs for which action) are HTTP plumbing outside the core. The validators are modelled as rule sets; that the filter runs them before a handler is not.
- `LoginRequestValidator` is not registered with the container, so `Login` is not modelled as enforcing it.
- EF Core is replaced by sequences in insertion order. Store failures at `SaveChangesAsync`, and the `catch` paths they would take (including `GetAllUsers`' 500 "No results"), are not modelled; the only exception modelled is that of `GetCurrentUserId`, plus the rejected null description of `EditTask`.
- `async`/`await` become sequential steps, and concurrent requests are not modelled. Logging has no observable effect and is omitted.
- `DateTime.UtcNow` is read several times per request; the model uses a single `now` for all of them.
- `Math.Ceiling((double)totalCount / pageSize)` is modelled as exact integer ceiling division. For counts that fit in an `int`, a double represents both operands and the ceiling exactly.
- UsersController.GetProfile: its own contract states only the 500 outcome; what a known caller receives is stated by UsersController.GetProfileIff.
- TaskController.GetAllTask: its own contract states only when the answer is 200 or 500; what a known caller receives is stated by GetAllTaskOwnerOnly, GetAllTaskPage and GetAllTaskNoTasks.
- AuthController.Login: its contract answers for some user with the submitted name and password, not for the first; AuthController.FindCredentials states the first-match lookup and AuthController.LoginIdentifiesUser pins the user down when names are unique.
- TaskController.GetAllTaskPage, UsersController.GetAllUsersPage, UsersController.GetAllUsersNotFoundIff, Pagination.PageWindowSlice: stated only for requests whose offset (page - 1) * pageSize fits in `int`; for a wrapped offset, Pagination.PageWindowIsSlice states only that the window is some contiguous run of at most pageSize items.
- TaskController.GetAllTaskNoTasks, Pagination.BuildResponseDocumented, Pagination.EmptyResponse: stated only when page * pageSize fits in `int`; beyond that, Pagination.HasNextPageOverflow shows the envelope can break its documented rules.
- Sorting.SortBy: states sortedness and permutation but not stability (ties keep source order), although the insertion it uses keeps ties in source order. The ordering of ties by a database provider is not modelled.
- Sorting.SortBy is a function; the ordered query is not an in-place algorithm in the source, so no array is modelled.
- Identifiers are unbounded integers: the width of the `Id` columns and the identity counter's overflow are not modelled. The token round trip and the claim round trip require the id to be an int32.
- Strings are sequences of Unicode scalar values (Dafny's `char`). Validator lengths are converted to UTF-16 code units by Validators.Utf16Length, as `string.Length` counts them, but a .NET string holding an unpaired surrogate cannot be represented. Culture-specific parsing (`int.Parse` is modelled in the invariant NumberStyles.Integer form only) and FluentValidation's white-space set beyond `char.IsWhiteSpace` are not modelled.
- Request strings other than `UpdateTaskRequest.Description` are not nullable in the model; a JSON null for them is not modelled.
- `CreateTaskRequest.Status` is declared as a field rather than a property, so JSON binding leaves it at its default 0; the model copies whatever status the request value holds and does not model the binder.
- `GetCurrentUserId`, defined identically in both controllers, is modelled once.
- The doc-comment rules of the user request types (character classes, password length 6..100) are not enforced by any code and are not modelled.
- Seed data (`SeedData.cs`) is not modelled; the test fixture is, as scenarios.
