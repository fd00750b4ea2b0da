# Task tracker core in Dafny

This project models the decision logic of a small REST task tracker built
on Express and PostgreSQL, and proves properties about it. Users register
and log in. They create, list, read, update and delete tasks, and
administrators manage users. A migration runner creates and records the
schema.

The model has these parts:

- **Database** (`database.dfy`): the `users` and `tasks` tables as maps
  inside one class `Db`.
  - The class also keeps the insertion order of the rows, so "newest first"
    is that order reversed, and the next value of each SERIAL sequence.
  - `Db.Valid()` is what the DDL of migrations 001 and 002 guarantees:
    unique usernames and emails, every task's owner exists, and ids below
    the sequence counters.
  - A statement that breaks a constraint returns the PostgreSQL error it
    raises: 22001, 23502, 23514, 23505 or 23503, with the message text
    PostgreSQL 13 and later use, which names the table.
  - A `VARCHAR(n)` value is refused with 22001 only when a character past
    position n is not a space. Otherwise it is stored cut to n characters,
    and the CHECK and UNIQUE constraints see the stored value.
  - The 22001 is raised while the statement is planned, when the parameter
    is coerced to its column type. An INSERT refused this way has not yet
    taken a value from the id sequence, and an UPDATE refused this way is
    refused whether or not its row exists. The other constraints are checked
    as each row is written. By then an INSERT has taken its id, and an
    UPDATE that matches no row breaks none of them.
  - PostgreSQL folds unquoted identifiers to lower case, so the keys of a
    result row are the lower-cased column names (`userid`, `firstname`,
    `lastname`).
- **Store layer** (`task_model.dfy`, `user_model.dfy`): the static methods
  of `Task` and `User`.
  - Statements that write are methods with `modifies db`.
  - Queries are functions that read `db`.
  - The bcrypt hash is a function parameter `hash`.
  - `comparePassword(p, h)` is `hash(p) == h`.
- **Validators** (`auth_routes.dfy`): the express-validator chains of
  `POST /register` and `POST /login` as functions from the request to the
  list of field errors. The sanitizers, which trim, are modelled as well.
- **Handlers**:
  - `task_controller.dfy`, `user_controller.dfy` and `auth_controller.dfy`
    are methods that run the source's guards in its order.
  - `user_routes.dfy` adds the `isAdmin` guard.
  - A handler's result is `Reply(response)` or `Forward(error)`, which
    stands for `next(error)`.
- **Error middleware** (`error_handler.dfy`): a pure function from the
  error and `NODE_ENV` to a status and a body.
- **Migrations**:
  - `migration_manager.dfy` holds the file-name pattern, the sort and the
    pending filter, and a class `MigrationManager` whose `applied` field is
    the `migrations` table.
  - `migrate.js` is in `migrate.dfy`: the next-file-name computation of
    `create` and the command dispatch of `main`.
  - Each script's `up` and `down` is a predicate on its name: whether the
    step commits.

Inputs that the model takes as parameters:

- the caller's `req.user` (id and role);
- the `NODE_ENV` value;
- the directory listing;
- the email syntax check `isEmail`;
- the hash function.

Differences between the documented behaviour and the code, where the model
follows the code:

- `updateUser` is described as a partial update. The code always binds
  `firstName`, `lastName` and `email` in the UPDATE. An omitted field is
  bound as NULL, so the NOT NULL constraint refuses the row with 23502,
  which the error middleware answers with 500. `UserModel.UpdateViolation`
  models that path. Only the password is optional.
- `User.update` on an absent id affects no row, so the handler answers 404.
  The exception is a value too wide for its column: PostgreSQL refuses it
  with 22001 while it plans the statement, before any row is looked at. The
  handler then forwards that error and the error middleware answers 500.

## Model

| member | source | states |
|---|---|---|
| Common.ParseRole | src/migrations/001_create_users_table.js:10 | a role string is accepted exactly when it is 'basic' or 'admin', and it names the role it parses to |
| Common.NatToString | src/migrations/migrate.js:60 | `String(n)` is a non-empty string of decimal digits with no leading zero |
| Common.TrimStart | src/routes/authRoutes.js:7-9 | yields a suffix of the input that does not start with whitespace; everything cut off is whitespace |
| Common.TrimEnd | src/routes/authRoutes.js:7-9 | yields a prefix of the input that does not end with whitespace; everything cut off is whitespace |
| Common.Trim | src/routes/authRoutes.js:7-9 | `trim()` never lengthens a string, leaves no whitespace at either end, and returns a string with no whitespace at either end unchanged |
| Common.TrimIsInfix | src/routes/authRoutes.js:7-9 | what `trim()` keeps is one contiguous slice of the input, and everything it cuts off at either end is whitespace |
| Common.TrimEmptyIffAllWhitespace | src/controllers/taskController.js:7 | `s.trim() === ""` exactly when every character of `s` is whitespace |
| Common.BlankIffAbsentOrWhitespace | src/controllers/taskController.js:7-9 | the task-body guard fires exactly for a missing body, "" or a body of whitespace only |
| Common.Reverse | src/models/Task.js:28-33 | the reversed insertion order has the same length and lists element i from the end |
| Database.ToServerError | src/middleware/errorHandler.js:5-18 | a constraint failure reaches the error middleware with its own SQLSTATE code (22001, 23502, 23514, 23505 or 23503), no HTTP status, and PostgreSQL's message text for that failure |
| Database.WithoutOwner | src/migrations/002_create_tasks_table.js:9 | ON DELETE CASCADE keeps exactly the tasks not owned by the deleted user, and keeps them unchanged |
| Database.Restrict | src/models/User.js:66-69 | the insertion order after a delete keeps exactly the surviving rows, stays duplicate-free and never grows |
| Database.RestrictCounts | src/models/User.js:66-69 | each surviving id stays in the insertion order as many times as it was listed, and any removed id not at all |
| Database.RestrictConcat | src/models/User.js:66-69 | restricting two orders one after the other gives the two restricted orders one after the other, so the surviving rows keep their insertion order |
| Database.RestrictLists | src/models/User.js:66-69 | after a delete, the restricted order still lists every remaining row exactly once |
| Database.RestrictKeepsAll | src/models/User.js:66-69 | a DELETE that matches no row leaves the insertion order unchanged |
| Database.ListsCardinality | src/controllers/taskController.js:27-35 | an order that lists every row once is as long as the table, so `count` is the number of tasks |
| Database.Db.constructor | src/migrations/001_create_users_table.js:3-13 | a freshly migrated database is empty, satisfies the invariants, and its sequences start at 1 |
| Database.PublicView | src/models/User.js:17-23 | the password-free projection keeps the id, first and last name, username, email and role |
| Database.Coerce | src/migrations/001_create_users_table.js:5-10 | a value that fits its `VARCHAR(n)` column is stored as given; a longer one is stored as exactly its first n characters, and when the statement is not refused everything cut off is spaces |
| Database.OverflowsIffTooLong | src/migrations/001_create_users_table.js:5-10 | a value that does not end in a space is refused with 22001 exactly when it is longer than its column |
| Database.FoldIdentifier | src/migrations/001_create_users_table.js:5-6 | an unquoted column name reaches the result row folded to lower case: same length, each letter A-Z replaced by its lower-case letter and every other character kept, so no upper-case letter is left |
| Database.MixedCaseNameIsNoKey | src/models/Task.js:14 | whatever columns a query selects, a name with an upper-case letter, such as `userId` or `firstName`, is never a key of its result rows |
| TaskModel.Create | src/models/Task.js:4-10 | inserts the body with the given owner under a fresh id and returns that id; a missing owner is a 23503 error with no row added; the sequence advances either way |
| TaskModel.Join | src/models/Task.js:12-18 | the joined row carries the task's id, body and owner, and the owner's username, first name and last name |
| TaskModel.FindById | src/models/Task.js:12-18 | returns a row exactly when the task and its owner exist, and that row is the task joined with its owner |
| TaskModel.FindByIdFindsEveryTask | src/models/Task.js:12-18 | in a valid database every stored task is found, and only stored tasks are |
| TaskModel.Select | src/models/Task.js:20-33 | an id is selected exactly when it is listed and its task has an owner (the given owner, when one is given); the selection is never longer than the listing |
| TaskModel.SelectCounts | src/models/Task.js:20-33 | each kept id is selected as many times as it is listed, and any other id not at all |
| TaskModel.SelectCons | src/models/Task.js:20-33 | the first listed id comes first in the selection when it is kept, and is dropped otherwise |
| TaskModel.SelectConcat | src/models/Task.js:20-33 | selecting from two listings one after the other gives the two selections one after the other, so the listing order is kept |
| TaskModel.JoinAll | src/models/Task.js:28-33 | joins each selected id into its row, in order |
| TaskModel.SelectKeepsJoined | src/models/Task.js:28-33 | with no owner filter, every listed task of a valid database is selected |
| TaskModel.FindAllIsEveryTaskNewestFirst | src/models/Task.js:28-33 | `findAll` lists every task once, newest first |
| TaskModel.OwnedBy | src/models/Task.js:20-26 | a row is kept exactly when it is in the list and belongs to the owner |
| TaskModel.OwnedByCounts | src/models/Task.js:20-26 | each row of the owner is kept as many times as it occurs, and any other row not at all |
| TaskModel.OwnedByConcat | src/models/Task.js:20-26 | filtering two lists one after the other gives the two filtered lists one after the other, so the order is kept |
| TaskModel.SelectOwnedBy | src/models/Task.js:20-26 | filtering by owner in SQL equals filtering the full list by owner |
| TaskModel.FindByUserIdIsOwnersTasks | src/models/Task.js:20-26 | `findByUserId(u)` is `findAll` restricted to u's tasks: each returned row is u's, and every task of u is returned |
| TaskModel.SelectedRowsAreOwners | src/models/Task.js:20-26 | every row `WHERE t.userId = $1` selects belongs to that user and is a stored task |
| TaskModel.OwnersRowsAreSelected | src/models/Task.js:20-26 | every joined task of the user is among the selected rows |
| TaskModel.Update | src/models/Task.js:35-41 | rewrites only the body of that task and reports whether it existed; nothing else changes |
| TaskModel.Delete | src/models/Task.js:43-49 | removes exactly that task and reports whether it existed |
| UserModel.ComparePasswordOfHash | src/models/User.js:71-73 | a password matches its own hash |
| UserModel.InsertViolation | src/models/User.js:9-12 | 22001 exactly when some value has a character other than a space past its column width; otherwise 23514 (`users_role_check`) whenever the stored role is not 'basic' or 'admin'; otherwise 23505 on `users_username_key` whenever the stored username is taken; otherwise 23505 on `users_email_key` whenever the stored email is taken; the insert is accepted exactly when none of these applies, and a unique violation means a clash exists |
| UserModel.InsertedRow | src/models/User.js:5-12 | the new row holds each `VARCHAR` value as its column stores it, the hash of the password (not the password), and the requested role |
| UserModel.Create | src/models/User.js:5-15 | the role defaults to 'basic'; the row as `InsertedRow` builds it is stored under a fresh id, which is returned; on a constraint error nothing is inserted; the user sequence advances by one unless a value is too wide (22001, raised while planning, before the id default is taken), and the task sequence never moves |
| UserModel.FindById | src/models/User.js:17-23 | the password-free row exactly when the id exists |
| UserModel.PublicAll | src/models/User.js:41-46 | projects each listed id to its password-free row, in order |
| UserModel.FindAllIsEveryUserNewestFirst | src/models/User.js:41-46 | `findAll` lists every user once, newest first, without passwords |
| UserModel.Scan | src/models/User.js:25-39 | returns the first row whose column equals the value, or nothing when no listed row has it |
| UserModel.FindByUsername | src/models/User.js:25-31 | returns a stored row with that username, and nothing exactly when no user has it |
| UserModel.FindByEmail | src/models/User.js:33-39 | returns a stored row with that email, and nothing exactly when no user has it |
| UserModel.UpdateViolation | src/models/User.js:48-62 | 22001 exactly when a given value has a character other than a space past its column width; otherwise 23502 naming `firstname` whenever the first name is missing, else `lastname` whenever the last name is, else `email` whenever the email is; a 23505 (`users_email_key`) only when all three are given and another user holds the stored email; the UPDATE is accepted exactly when none of these applies |
| UserModel.UpdatedRow | src/models/User.js:49-60 | names and email are overwritten with the values their columns store; the hash is replaced by `hash(p)` only for a truthy password `p`; username and role are kept |
| UserModel.Update | src/models/User.js:48-64 | a value too wide for its column gives 22001 and changes nothing, whether or not the id exists; otherwise an absent id gives false and changes nothing; otherwise the row is rewritten, or a constraint error leaves it as it was |
| UserModel.Delete | src/models/User.js:66-69 | reports whether the user existed, removes them together with their tasks, and changes nothing when the id was absent |
| UserModel.DeleteAbsentChangesNothing | src/models/User.js:66-69 | deleting an id no user has removes no user and no task, and leaves both insertion orders as they were |
| ErrorHandler.Handle | src/middleware/errorHandler.js:1-31 | 23505 and 23503 map to fixed 400 bodies; a ValidationError maps to 400 with its message as details, but only when neither code matched; the status is 400, 500 or the error's own |
| ErrorHandler.ConstraintCodeDecides | src/middleware/errorHandler.js:5-18 | once a constraint code matches, nothing else about the error or the environment changes the response |
| ErrorHandler.StackHiddenOutsideDevelopment | src/middleware/errorHandler.js:29 | outside development the response does not depend on the stack |
| ErrorHandler.GenericErrorKeepsStatusAndMessage | src/middleware/errorHandler.js:27-30 | any other error keeps its status, or 500, and its message, or 'Internal server error' |
| ErrorHandler.Respond | src/middleware/errorHandler.js:1-31 | a forwarded error is answered by the error middleware, a reply passes through |
| AuthRoutes.HasErrorRule | src/routes/authRoutes.js:6-13 | a single rule reports its field exactly when it fails |
| AuthRoutes.HasErrorConcat | src/routes/authRoutes.js:6-13 | running the chains one after another reports a field exactly when one of the chains does |
| AuthRoutes.SixRules | src/routes/authRoutes.js:6-13 | six one-field rules report each field exactly when its own rule fails, and nothing when all pass |
| AuthRoutes.RegisterErrors | src/routes/authRoutes.js:6-13 | each field is reported exactly when its rule fails; the names and username must be non-empty after trimming, the email must satisfy `isEmail`, the password needs 6 characters, and a present role must be 'basic' or 'admin'; the list is empty exactly when all rules pass |
| AuthRoutes.AcceptedFormIsClean | src/routes/authRoutes.js:6-13 | an accepted request reaches the handler with trimmed, non-empty names and username, a password of at least 6 characters, a valid email and an allowed role |
| AuthRoutes.SanitizedIsClean | src/routes/authRoutes.js:6-13 | the sanitizers turn fields that pass the rules into trimmed, non-empty names and username that do not end in whitespace |
| AuthRoutes.TrimmedIsClean | src/routes/authRoutes.js:7-9 | a field that is not blank is, once trimmed, non-empty, unchanged by a second trim and free of trailing whitespace |
| AuthRoutes.ShortPasswordRejected | src/routes/authRoutes.js:11 | the password "123" draws the password error |
| AuthRoutes.LoginErrors | src/routes/authRoutes.js:15-18 | the username must be non-empty after trimming and the password non-empty; each field is reported exactly when its rule fails |
| AuthRoutes.EmptyLoginRejected | src/routes/authRoutes.js:15-18 | an empty login body gets both errors, username first |
| AuthController.AllowedRoleIsStored | src/models/User.js:6 | a role of 'basic', 'admin' or none (read as 'basic') fits its column and passes the CHECK |
| AuthController.NewRow | src/controllers/authController.js:24 | the row `register` inserts holds the hash of the password, the requested role and the stored email, and a form that fits its columns is stored exactly as sanitized |
| AuthController.InsertOutcome | src/controllers/authController.js:14-24 | after both duplicate checks pass, the insert fails with 22001 exactly when a name, the username or the email is too long to store, and with 23505 only for an email longer than its column whose stored value is taken; a form that fits is always inserted |
| AuthController.Insert | src/controllers/authController.js:24-37 | the user is inserted and its password-free row returned with 201, or the insert's database error is forwarded and no user is added; the user sequence advances by one unless the error is 22001 |
| AuthController.Register | src/controllers/authController.js:5-41 | validation errors give 400 and change nothing; then a taken username, then a taken email, give 400 and change nothing; otherwise the insert decides: exactly one user is inserted with the hashed password and the 201 body is its password-free row, or its 22001 or 23505 error is forwarded and no user is added; the user sequence advances by one unless the error is 22001, and no task, task order or task sequence changes; a form that fits its columns always gets 201 |
| AuthController.Login | src/controllers/authController.js:43-83 | validation errors give 400; an unknown username and a wrong password give the identical 401; success returns the claims {id, role, 24h} and the password-free row; nothing is written |
| AuthController.RegisterThenLogin | src/controllers/authController.js:5-83 | a user who has just registered can log in with the same credentials, and the token carries the new id and the requested role |
| AuthController.NamesAsRead | src/controllers/authController.js:29-36 | as written, the reply carries a first (last) name exactly when the row has the key `firstName` (`lastName`), and then the row's value |
| AuthController.NamesDroppedAsWritten | src/controllers/authController.js:31-32 | whatever columns are selected, the replies as written carry neither name, while the public view of the row has both |
| TaskController.CreateTask | src/controllers/taskController.js:3-21 | a blank body gives 400 and changes nothing; otherwise the task is stored with the caller as owner, whatever the request says, and returned with 201; no user, the user order and the user sequence are left as they were |
| TaskController.GetAllTasks | src/controllers/taskController.js:23-40 | the reply is exactly `findAll` for an admin, every task once, newest first, and `findByUserId(caller)` for anyone else, which is `findAll` filtered to the caller's tasks; `count` is the list's length |
| TaskController.GetTaskById | src/controllers/taskController.js:42-63 | 404 for an absent task before any ownership check, then 403 for a stranger, then the task |
| TaskController.MayAccessAsRead | src/controllers/taskController.js:52-57 | as written, a non-admin passes the ownership test only when the row has a `userId` key whose value is the caller's id |
| TaskController.OwnerRefusedAsWritten | src/controllers/taskController.js:52-57 | with the keys of a real `Task.findById` row, a non-admin owner whom the intended rule admits is refused by the test as written |
| TaskController.UpdateTask | src/controllers/taskController.js:65-98 | 400 for a blank body even for an absent id, then 404, then 403, each changing nothing; success changes only that task's body |
| TaskController.DeleteTask | src/controllers/taskController.js:100-123 | 404, then 403, each changing nothing; success removes exactly that task and answers with a message, not the task |
| TaskController.DeleteThenGet | src/controllers/taskController.js:100-123 | after an owner deletes a task, fetching it gives 404 |
| UserController.FindByEmailDecidesHeldByOther | src/controllers/userController.js:42-47 | with unique emails, the email check fires exactly when a different user holds the email |
| UserController.GetAllUsers | src/controllers/userController.js:3-10 | the reply is exactly `User.findAll`: every user once, newest first, each as the password-free row |
| UserController.GetUserById | src/controllers/userController.js:12-30 | 403 for a stranger before the existence check, even for an absent id; then 404; then the password-free row |
| UserController.UpdateUser | src/controllers/userController.js:32-63 | 403, then 400 when a truthy email belongs to another user (the user's own email passes, no email skips the check), then the forwarded 22001 for a value too wide for its column, even for an absent id (500 from the error middleware); then 404; each of these changes nothing; then the UPDATE or its forwarded constraint error |
| UserController.DeleteUser | src/controllers/userController.js:65-79 | 404 changing nothing, or the user removed together with every task they owned; both insertion orders drop exactly the removed rows and the sequences do not move |
| UserController.DeleteThenGet | src/controllers/userController.js:12-30 | after a user is deleted no task is theirs, and looking the user up gives 404 |
| UserRoutes.ListUsers | src/routes/userRoutes.js:11 | a non-admin gets 403 'Admin access required'; an admin gets exactly `User.findAll`, every user once and password-free |
| UserRoutes.RemoveUser | src/routes/userRoutes.js:14 | a non-admin gets 403 and nothing changes; an admin gets the reply and the effect of `deleteUser`, including the insertion orders and the sequences |
| Migrations.Matching | src/migrations/migrationManager.js:33-37 | keeps exactly the listed names that match `^\d{3}_.*\.js$` |
| Migrations.MatchingCounts | src/migrations/migrationManager.js:33-37 | each matching name is kept as many times as it is listed, and any other name not at all |
| Migrations.MatchingConcat | src/migrations/migrationManager.js:33-37 | filtering two listings one after the other gives the two filtered listings one after the other, so the listing order is kept |
| Migrations.LexLeTotal | src/migrations/migrationManager.js:38 | any two names are ordered one way or the other |
| Migrations.LexLeTransitive | src/migrations/migrationManager.js:38 | the sort order is transitive |
| Migrations.LexLeAntisymmetric | src/migrations/migrationManager.js:38 | two names ordered both ways are equal |
| Migrations.Insert | src/migrations/migrationManager.js:38 | inserting adds exactly that one name |
| Migrations.InsertSorted | src/migrations/migrationManager.js:38 | inserting into a sorted list keeps it sorted |
| Migrations.Sort | src/migrations/migrationManager.js:38 | sorting permutes the names |
| Migrations.SortSorted | src/migrations/migrationManager.js:38 | the result of sorting is in ascending order |
| Migrations.MigrationFilesAreSortedMatches | src/migrations/migrationManager.js:30-39 | the discovered files are exactly the matching names, in ascending order |
| Migrations.Pending | src/migrations/migrationManager.js:48-50 | pending files are exactly the discovered files that are not applied |
| Migrations.PendingCounts | src/migrations/migrationManager.js:48-50 | each file not applied is pending as many times as it is discovered, and an applied one not at all |
| Migrations.PendingConcat | src/migrations/migrationManager.js:48-50 | filtering two listings one after the other gives the two pending lists one after the other, so the discovery order is kept |
| Migrations.PendingSorted | src/migrations/migrationManager.js:48-50 | the pending files keep the sorted order |
| Migrations.PendingOfCovered | src/migrations/migrationManager.js:48-55 | with every file applied nothing is pending |
| Migrations.PendingIdempotent | src/migrations/migrationManager.js:48-55 | once the pending files are applied, nothing is pending, so a second run applies nothing |
| Migrations.RemoveName | src/migrations/migrationManager.js:112 | `DELETE ... WHERE name = $1` removes exactly the rows with that name |
| Migrations.RemoveAbsentName | src/migrations/migrationManager.js:112 | deleting a name that is not there changes nothing |
| Migrations.RemoveLastOfDistinct | src/migrations/migrationManager.js:93-112 | with unique names, deleting the last name drops exactly the last entry |
| Migrations.Committed | src/migrations/migrationManager.js:59-61 | the number of pending files that commit before the first failure is at most the number pending |
| Migrations.CommittedStep | src/migrations/migrationManager.js:59-61 | a file that commits moves the halting point one step on |
| Migrations.CommittedPrefix | src/migrations/migrationManager.js:59-61 | every file before the halting point commits, given those before it |
| Migrations.CommittedHalts | src/migrations/migrationManager.js:59-61 | the run stops at a file exactly because that file does not commit |
| Migrations.MigrationManager.constructor | src/migrations/migrationManager.js:7-17 | a new migrations table is empty and valid |
| Migrations.MigrationManager.RunMigration | src/migrations/migrationManager.js:67-87 | commits exactly when `up` succeeds and the name is new and at most 255 characters, and then appends exactly that name; otherwise nothing changes |
| Migrations.MigrationManager.RunPendingMigrations | src/migrations/migrationManager.js:42-64 | applies the pending files in order up to the first failure, which it reports; those before it stay applied |
| Migrations.MigrationManager.RunEach | src/migrations/migrationManager.js:58-60 | the loop records the files it applies, in order, up to the first whose `up` fails, and reports that one |
| Migrations.MigrationManager.Rollback | src/migrations/migrationManager.js:90-122 | with nothing applied nothing happens; otherwise a successful `down` removes exactly the last applied name and a failed one changes nothing |
| Migrations.MigrationManager.Status | src/migrations/migrationManager.js:125-139 | one line per discovered file, in order, marked applied exactly when its name is in the table |
| Migrations.RolledBackIsPendingAgain | src/migrations/migrationManager.js:90-122 | after a rollback the rolled-back file is pending again |
| Migrations.AllCommittedLeavesNothingPending | src/migrations/migrationManager.js:42-64 | when every pending file commits, a second `up` finds nothing pending |
| Migrate.NatToStringValue | src/migrations/migrate.js:60 | `String(n)` denotes n |
| Migrate.NatToStringLength | src/migrations/migrate.js:60 | a number below 10^k has at most k digits |
| Migrate.Zeros | src/migrations/migrate.js:60 | the padding is k zeros |
| Migrate.ValueLeadingZeros | src/migrations/migrate.js:60 | zero padding does not change the number |
| Migrate.ValueOfZeros | src/migrations/migrate.js:60 | a string of zeros denotes 0 |
| Migrate.PadStart | src/migrations/migrate.js:60 | `padStart(width)` gives a string as long as the width, or as long as the input when that is longer |
| Migrate.NextNumberIsCountPlusOne | src/migrations/migrate.js:58-61 | below 999 matching files the next number has three digits and is the count plus one, "001" when there are none |
| Migrate.CreatedFileIsDiscovered | src/migrations/migrate.js:58-63 | the file `create` writes matches the discovery pattern when fewer than 999 migrations exist and the name has no line break |
| Migrate.ThousandthFileIsNotDiscovered | src/migrations/migrate.js:58-63 | with 999 migrations the next number is "1000" and the new file does not match the pattern |
| Migrate.Run | src/migrations/migrate.js:8-49 | `up`, `down`, `status` and `create` do what the manager does, with exit code 1 on a failure; `down` with nothing applied exits 0, a failed `down` exits 1 with the table unchanged, and a successful one removes the last name and exits 0; `create` without a name and an unknown command exit 1 and leave the table alone |

## Findings

| source | as written | input that shows it | evidently intended | confidence | as-written member | corrected member |
|---|---|---|---|---|---|---|
| src/controllers/taskController.js:52-57 | the ownership test reads `task.userId`, but PostgreSQL returns the unquoted column `userId` under the key `userid`, so `parseInt(undefined)` is NaN and equals no id; the same test is at lines 83 and 112 | a basic user with id 1 requests `GET /api/tasks/5` for their own task 5: 403 'Access denied' | an owner may read, update and delete their own task | not executed | TaskController.OwnerRefusedAsWritten | TaskController.GetTaskById |
| src/controllers/authController.js:31-32 | the `register` and `login` replies read `user.firstName` and `user.lastName`, but the row's keys are `firstname` and `lastname`, so both are undefined and left out of the JSON; the same reads are at lines 73-74 | registering Ana Ban: the 201 reply's `user` has no `firstName` and no `lastName` | the reply carries the user's names | not executed | AuthController.NamesDroppedAsWritten | AuthController.Register |

## Left out

- PostgreSQL itself, the `pg` pool and the SQL text: the tables are maps and the statements are their effect on them.
- Timestamps and the update triggers of migration 003: "newest first" is the reverse of the insertion order.
- bcrypt: the hash is a plain function, with no salt, so two hashes of one password are equal. The stored hash is assumed to fit `password VARCHAR(255)`.
- jsonwebtoken: the token is the claims it signs (`userId`, `role`, 24 hours). The signature, the secret and verification are not modelled.
- The authentication middleware (`src/middleware/auth.js`, including `isAdmin`) is not part of this model. `req.user` is an input, and the `isAdmin` message comes from the tests.
- The email syntax of `isEmail` is the parameter `isEmail`.
- AuthRoutes.LongEnough: counts characters as code points; the variation selectors that express-validator's `isLength` does not count are counted.
- JSON values other than strings, and `null`: every request field is a string or absent.
- Migrations.LexLe: compares characters by code point, whereas `Array.prototype.sort` compares UTF-16 code units. The two orders differ only between characters above U+FFFF and U+E000–U+FFFF.
- `getExecutedMigrations` swallows a failed query and returns []. The model always reads the table.
- `createMigrationsTable` is not modelled beyond the empty table it starts with.
- `fs.readdir`, `fs.writeFile`, `require` of the scripts, `console` output and `process.exit`: the listing is an input, and the written file name, the status lines and the exit code are results. A missing script file counts as a failing `up` or `down`.
- Express wiring, CORS, JSON parsing, the 404 route and server start-up in `src/app.js`.
- Concurrency between requests: each handler runs alone.
- Response JSON keys: replies are modelled by their fields, not by key spelling. Rows passed straight to `res.json` (`getAllUsers`, `getUserById`, the task replies) carry the lower-case keys PostgreSQL returns; the model does not record them.
- The handlers use the intended reading of result rows, the one the Findings table names as corrected.
